/** What `opt_expr` computes (find/tree.c), as a function on expression values, and why the
    result means the same as its input. */
module TreeOpt {
  import opened PredTree

  // ----- Sorting the operands of one list -----

  /** pred_cost_compare */
  function CostCompare(a: Info, b: Info, wantFailure: bool): int {
    if a.cost == b.cost then
      if a.rate == b.rate then 0
      else if wantFailure then (if a.rate < b.rate then -1 else 1)
      else (if a.rate < b.rate then 1 else -1)
    else if a.cost < b.cost then -1 else 1
  }

  /** Every node has an operand. */
  predicate Loaded(k: Expr): (b: bool)
    ensures b && k.Node? && k.left.Node? ==> k.left.right.Node?
  {
    k.Node? ==> k.right.Node? && Loaded(k.left)
  }

  /** Is list node `p` at least as costly as the operand `x`? */
  predicate NotCheaper(p: Info, px: Info, x: Info) {
    CostCompare(px, x, p.prec != OR_PREC) >= 0
  }

  predicate SomeNotCheaper(acc: Expr, x: Info)
    requires Loaded(acc)
  {
    acc.Node? && (NotCheaper(acc.n, acc.right.n, x) || SomeNotCheaper(acc.left, x))
  }

  /** Put node `q` under the first node that is not cheaper. */
  function InsertBelow(acc: Expr, q: Info, x: Expr): Expr
    requires Loaded(acc) && x.Node? && SomeNotCheaper(acc, x.n)
  {
    if NotCheaper(acc.n, acc.right.n, x.n) then Node(acc.n, Node(q, acc.left, x), acc.right)
    else Node(acc.n, InsertBelow(acc.left, q, x), acc.right)
  }

  /** One round of predlist_merge_sort: below the first node that is not cheaper, else on top. */
  function Insert(acc: Expr, q: Info, x: Expr): Expr
    requires Loaded(acc) && x.Node?
  {
    if SomeNotCheaper(acc, x.n) then InsertBelow(acc, q, x) else Node(q, acc, x)
  }

  /** Insertion splits the list somewhere and puts the node in the gap. */
  lemma {:induction false} InsertSplits(acc: Expr, q: Info, x: Expr) returns (a: Expr, b: Expr)
    requires Loaded(acc) && x.Node?
    ensures acc == Append(a, b)
    ensures Insert(acc, q, x) == Append(a, Node(q, b, x))
  {
    if !SomeNotCheaper(acc, x.n) {
      a, b := Nil, acc;
    } else if NotCheaper(acc.n, acc.right.n, x.n) {
      a, b := Node(acc.n, Nil, acc.right), acc.left;
    } else {
      a, b := InsertSplits(acc.left, q, x);
      a := Node(acc.n, a, acc.right);
    }
  }

  lemma {:induction false} AppendTimes(a: Expr, b: Expr, x: Expr)
    ensures Times(Append(a, b), x) == Times(a, x) + Times(b, x)
  {
    if a.Node? { AppendTimes(a.left, b, x); }
  }

  lemma {:induction false} AppendCopies(a: Expr, b: Expr, p: Info)
    ensures Copies(Append(a, b), p) == Copies(a, p) + Copies(b, p)
  {
    if a.Node? { AppendCopies(a.left, b, p); }
  }

  lemma {:induction false} AppendLoaded(a: Expr, b: Expr)
    ensures Loaded(Append(a, b)) <==> Loaded(a) && Loaded(b)
  {
    if a.Node? { AppendLoaded(a.left, b); }
  }

  lemma InsertLoaded(acc: Expr, q: Info, x: Expr)
    requires Loaded(acc) && x.Node?
    ensures Loaded(Insert(acc, q, x))
  {
    var a, b := InsertSplits(acc, q, x);
    AppendLoaded(a, b); AppendLoaded(a, Node(q, b, x));
  }

  /** predlist_merge_sort: take the source list from its head, inserting into `acc`. */
  function MergeSort(src: Expr, acc: Expr): (r: Expr)
    requires Loaded(src) && Loaded(acc)
    ensures Loaded(r)
    ensures src.Node? || acc.Node? ==> r.Node?
    decreases src
  {
    if src.Nil? then acc
    else
      InsertLoaded(acc, src.n, src.right);
      MergeSort(src.left, Insert(acc, src.n, src.right))
  }

  // ----- The optimiser -----

  const NUM_LISTS: nat := 13

  /** name_list, regex_list and cbo_list[0..NumEvaluationCosts), in merging order. */
  type Lists = ls: seq<Expr> | |ls| == 13 && forall i :: 0 <= i < 13 ==> Loaded(ls[i]) witness [Nil, Nil, Nil, Nil, Nil, Nil, Nil, Nil, Nil, Nil, Nil, Nil, Nil]

  const NO_LISTS: Lists := [Nil, Nil, Nil, Nil, Nil, Nil, Nil, Nil, Nil, Nil, Nil, Nil, Nil]

  /** A list with one more node at its head. */
  function PushList(lists: Lists, i: nat, n: Info, x: Expr): Lists
    requires i < NUM_LISTS && x.Node?
  {
    lists[i := Node(n, lists[i], x)]
  }

  /** predicate_is_cost_free, for a primary */
  predicate CostFree(x: Info, level: nat) {
    x.func == NamePathTest || (level > 0 && x.cost == NEEDS_NOTHING)
  }

  /** The list a side-effect-free primary moves to, or -1 when it stays where it is. */
  function ListFor(x: Info, level: nat): (i: int)
    ensures -1 <= i < NUM_LISTS
  {
    if CostFree(x, level) then 0
    else if x.func == RegexTest then 1
    else if (level > 1 && (x.cost == NEEDS_TYPE || x.cost == NEEDS_INODE) && !x.needStat) || level > 2 then 2 + x.cost
    else -1
  }

  predicate Movable(prec: nat, x: Info, level: nat) {
    prec != COMMA_PREC && x.kind == Primary && !x.effect && ListFor(x, level) >= 0
  }

  function ConstrainRate(r: real): real {
    if r > 1.0 then 1.0 else if r < 0.0 then 0.0 else r
  }

  /** set_new_parent: the node that gets a new binary parent */
  function NewParent(x: Info, prec: nat): Info {
    Info(BiOp, prec, 0, false, NEEDS_NOTHING, if prec == COMMA_PREC then 1.0 else ConstrainRate(x.rate), OtherFunc, false, false)
  }

  /** merge_lists: sort each list and hang what was there before below it. */
  function MergeLists(lists: Lists, k: nat, below: Expr): Expr
    requires k <= NUM_LISTS
  {
    if k == 0 then below else Append(MergeSort(lists[k - 1], Nil), MergeLists(lists, k - 1, below))
  }

  /** Every node of the left spine is a binary operator. */
  predicate Spine(t: Expr) {
    t.Node? ==> Parsed(t) && t.n.kind == BiOp && Spine(t.left)
  }

  /** Give the leftmost operand a binary parent when it has none. */
  function WrapLeftmost(t: Expr, prec: nat): (r: Expr)
    requires Parsed(t) && COMMA_PREC <= prec <= AND_PREC
    ensures r.Node? && Spine(r) && Weight(r) == Weight(t)
  {
    if t.n.kind != BiOp then Node(NewParent(t.n, prec), Nil, t)
    else if t.left.Nil? then t
    else Node(t.n, WrapLeftmost(t.left, t.n.prec), t.right)
  }

  /** opt_expr: the optimised tree, and whether it has side effects. */
  function OptExpr(t: Expr, level: nat): (Expr, bool)
    requires Parsed(t)
    decreases Weight(t), 4
  {
    var s := WrapLeftmost(t, AND_PREC);
    OptChain(s.n.prec, s, NO_LISTS, level)
  }

  /** The operand as it is after its own subtree has been optimised. */
  function OptOperand(x: Expr, level: nat): (Expr, bool)
    requires Parsed(x)
    decreases Weight(x), if x.n.kind == BiOp then 5 else 0
  {
    match x.n.kind
    case UniOp => var (y, fx) := OptExpr(x.right, level); (Node(x.n, Nil, y), fx)
    case BiOp => OptExpr(x, level)
    case _ => (x, x.n.effect)
  }

  /** A node of another precedence goes under a new parent of the spine's own. */
  function SameSpine(prec: nat, rest: Expr): (c: Expr)
    ensures Weight(c) == Weight(rest)
  {
    if rest.Node? && rest.n.prec != prec then Node(NewParent(rest.n, prec), Nil, rest) else rest
  }

  /** The scan of opt_expr from one link of the spine downwards: what that link points to in
      the end, and whether a side effect was met. */
  function OptChain(prec: nat, rest: Expr, lists: Lists, level: nat): (Expr, bool)
    requires Spine(rest)
    decreases Weight(rest), if rest.Node? && rest.n.prec != prec then 8 else 2
  {
    if rest.Nil? then (MergeLists(lists, NUM_LISTS, Nil), false)
    else
      var c := SameSpine(prec, rest);
      if Movable(prec, c.right.n, level) then
        var i := ListFor(c.right.n, level);
        OptChain(prec, c.left, PushList(lists, i, c.n, c.right), level)
      else
        OptKeep(prec, c, lists, level)
  }

  /** A node that stays on the spine. */
  function OptKeep(prec: nat, c: Expr, lists: Lists, level: nat): (Expr, bool)
    requires c.Node? && c.n.kind == BiOp && Parsed(c.right) && Spine(c.left)
    decreases Weight(c), if c.left.Nil? && c.right.n.kind == BiOp then 7 else 1
  {
    var (x, fx) := OptOperand(c.right, level);
    var (below, fxBelow) := OptChain(prec, c.left, if fx then NO_LISTS else lists, level);
    if fx then (MergeLists(lists, NUM_LISTS, Node(c.n, below, x)), true)
    else (Node(c.n, below, x), fxBelow)
  }

  // ----- What sorting and merging keep -----

  lemma {:induction false} PureAppend(a: Expr, b: Expr)
    ensures PureChain(Append(a, b)) <==> PureChain(a) && PureChain(b)
  {
    if a.Node? { PureAppend(a.left, b); }
  }

  lemma {:induction false} ChainSplit(prec: nat, a: Expr, b: Expr)
    ensures NormalChain(prec, Append(a, b)) <==> NormalChain(prec, a) && NormalChain(prec, b)
  {
    if a.Node? { ChainSplit(prec, a.left, b); }
  }

  predicate PureList(prec: nat, k: Expr) { NormalChain(prec, k) && PureChain(k) }

  lemma {:induction false} SortPure(prec: nat, src: Expr, acc: Expr)
    requires PureList(prec, src) && PureList(prec, acc) && Loaded(src) && Loaded(acc)
    ensures PureList(prec, MergeSort(src, acc))
    decreases src
  {
    if src.Node? {
      InsertLoaded(acc, src.n, src.right);
      var a, b := InsertSplits(acc, src.n, src.right);
      ChainSplit(prec, a, b); ChainSplit(prec, a, Node(src.n, b, src.right));
      PureAppend(a, b); PureAppend(a, Node(src.n, b, src.right));
      SortPure(prec, src.left, Insert(acc, src.n, src.right));
    }
  }

  /** predlist_merge_sort only permutes: operands keep their number of occurrences. */
  lemma {:induction false} SortTimes(src: Expr, acc: Expr, x: Expr)
    requires Loaded(src) && Loaded(acc)
    ensures Times(MergeSort(src, acc), x) == Times(src, x) + Times(acc, x)
    decreases src
  {
    if src.Node? {
      InsertLoaded(acc, src.n, src.right);
      var a, b := InsertSplits(acc, src.n, src.right);
      AppendTimes(a, b, x); AppendTimes(a, Node(src.n, b, src.right), x);
      SortTimes(src.left, Insert(acc, src.n, src.right), x);
    }
  }

  lemma {:induction false} SortCopies(src: Expr, acc: Expr, p: Info)
    requires Loaded(src) && Loaded(acc)
    ensures Copies(MergeSort(src, acc), p) == Copies(src, p) + Copies(acc, p)
    decreases src
  {
    if src.Node? {
      InsertLoaded(acc, src.n, src.right);
      var a, b := InsertSplits(acc, src.n, src.right);
      AppendCopies(a, b, p); AppendCopies(a, Node(src.n, b, src.right), p);
      SortCopies(src.left, Insert(acc, src.n, src.right), p);
    }
  }

  /** The lists hold pure operands of one spine, and none when the spine is a comma. */
  ghost predicate GoodLists(prec: nat, lists: Lists) {
    forall i :: 0 <= i < NUM_LISTS ==> PureList(prec, lists[i]) && (prec == COMMA_PREC ==> lists[i].Nil?)
  }

  function ListTimes(lists: Lists, k: nat, x: Expr): nat
    requires k <= NUM_LISTS
  {
    if k == 0 then 0 else Times(lists[k - 1], x) + ListTimes(lists, k - 1, x)
  }

  function ListCopies(lists: Lists, k: nat, p: Info): nat
    requires k <= NUM_LISTS
  {
    if k == 0 then 0 else Copies(lists[k - 1], p) + ListCopies(lists, k - 1, p)
  }

  lemma {:induction false} MergeBelow(lists: Lists, k: nat, below: Expr)
    requires k <= NUM_LISTS
    ensures MergeLists(lists, k, below) == Append(MergeLists(lists, k, Nil), below)
  {
    if k > 0 {
      MergeBelow(lists, k - 1, below);
      AppendAssoc(MergeSort(lists[k - 1], Nil), MergeLists(lists, k - 1, Nil), below);
    }
  }

  lemma {:induction false} MergePure(prec: nat, lists: Lists, k: nat)
    requires k <= NUM_LISTS && GoodLists(prec, lists)
    ensures PureList(prec, MergeLists(lists, k, Nil))
    ensures prec == COMMA_PREC ==> MergeLists(lists, k, Nil).Nil?
  {
    if k > 0 {
      var a, b := MergeSort(lists[k - 1], Nil), MergeLists(lists, k - 1, Nil);
      MergePure(prec, lists, k - 1);
      SortPure(prec, lists[k - 1], Nil);
      ChainSplit(prec, a, b); PureAppend(a, b);
    }
  }

  lemma {:induction false} MergeTimes(lists: Lists, k: nat, x: Expr)
    requires k <= NUM_LISTS
    ensures Times(MergeLists(lists, k, Nil), x) == ListTimes(lists, k, x)
  {
    if k > 0 {
      MergeTimes(lists, k - 1, x);
      SortTimes(lists[k - 1], Nil, x);
      AppendTimes(MergeSort(lists[k - 1], Nil), MergeLists(lists, k - 1, Nil), x);
    }
  }

  lemma {:induction false} MergeCopies(lists: Lists, k: nat, below: Expr, p: Info)
    requires k <= NUM_LISTS
    ensures Copies(MergeLists(lists, k, below), p) == ListCopies(lists, k, p) + Copies(below, p)
  {
    if k > 0 {
      MergeCopies(lists, k - 1, below, p);
      SortCopies(lists[k - 1], Nil, p);
      AppendCopies(MergeSort(lists[k - 1], Nil), MergeLists(lists, k - 1, below), p);
    }
  }

  lemma {:induction false} PushTimes(lists: Lists, i: nat, n: Info, x: Expr, k: nat, y: Expr)
    requires i < NUM_LISTS && k <= NUM_LISTS && x.Node?
    ensures ListTimes(PushList(lists, i, n, x), k, y) == ListTimes(lists, k, y) + if i < k && x == y then 1 else 0
  {
    if k > 0 { PushTimes(lists, i, n, x, k - 1, y); }
  }

  lemma {:induction false} PushCopies(lists: Lists, i: nat, n: Info, x: Expr, k: nat, p: Info)
    requires i < NUM_LISTS && k <= NUM_LISTS && x.Node? && n.kind == BiOp
    ensures ListCopies(PushList(lists, i, n, x), k, p) == ListCopies(lists, k, p) + if i < k then Copies(x, p) else 0
  {
    if k > 0 { PushCopies(lists, i, n, x, k - 1, p); }
  }

  lemma {:induction false} NoListsNothing(k: nat)
    requires k <= NUM_LISTS
    ensures MergeLists(NO_LISTS, k, Nil) == Nil
    ensures forall p :: ListCopies(NO_LISTS, k, p) == 0
  {
    if k > 0 { NoListsNothing(k - 1); }
  }

  // ----- Conservation -----

  /** A tree is effectful exactly when one of its primaries is. */
  lemma {:induction false} EffectfulIff(t: Expr)
    ensures Effectful(t) <==> exists p :: Copies(t, p) > 0 && p.effect
  {
    if t.Node? {
      EffectfulIff(t.left); EffectfulIff(t.right);
      if p :| Copies(t.left, p) > 0 && p.effect { assert Copies(t, p) > 0; }
      if p :| Copies(t.right, p) > 0 && p.effect { assert Copies(t, p) > 0; }
      if t.n.kind == Primary && t.n.effect { assert Copies(t, t.n) > 0; }
    }
  }

  lemma {:induction false} WrapCopies(t: Expr, prec: nat, p: Info)
    requires Parsed(t) && COMMA_PREC <= prec <= AND_PREC
    ensures Copies(WrapLeftmost(t, prec), p) == Copies(t, p)
  {
    if t.n.kind == BiOp && t.left.Node? { WrapCopies(t.left, t.n.prec, p); }
  }

  /** opt_expr keeps every primary, as often as it was there. */
  lemma {:induction false} OptCopies(t: Expr, level: nat, p: Info)
    requires Parsed(t)
    ensures Copies(OptExpr(t, level).0, p) == Copies(t, p)
    decreases Weight(t), 4
  {
    var s := WrapLeftmost(t, AND_PREC);
    WrapCopies(t, AND_PREC, p);
    ChainCopies(s.n.prec, s, NO_LISTS, level, p);
    NoListsNothing(NUM_LISTS);
  }

  lemma {:induction false} OperandCopies(x: Expr, level: nat, p: Info)
    requires Parsed(x)
    ensures Copies(OptOperand(x, level).0, p) == Copies(x, p)
    decreases Weight(x), if x.n.kind == BiOp then 5 else 0
  {
    if x.n.kind == UniOp { OptCopies(x.right, level, p); }
    else if x.n.kind == BiOp { OptCopies(x, level, p); }
  }

  lemma {:induction false} ChainCopies(prec: nat, rest: Expr, lists: Lists, level: nat, p: Info)
    requires Spine(rest)
    ensures Copies(OptChain(prec, rest, lists, level).0, p) == ListCopies(lists, NUM_LISTS, p) + Copies(rest, p)
    decreases Weight(rest), if rest.Node? && rest.n.prec != prec then 8 else 2
  {
    if rest.Nil? {
      MergeCopies(lists, NUM_LISTS, Nil, p);
    } else {
      var c := SameSpine(prec, rest);
      assert Copies(c, p) == Copies(rest, p);
      if Movable(prec, c.right.n, level) {
        var i := ListFor(c.right.n, level);
        PushCopies(lists, i, c.n, c.right, NUM_LISTS, p);
        ChainCopies(prec, c.left, PushList(lists, i, c.n, c.right), level, p);
      } else {
        KeepCopies(prec, c, lists, level, p);
      }
    }
  }

  lemma {:induction false} KeepCopies(prec: nat, c: Expr, lists: Lists, level: nat, p: Info)
    requires c.Node? && c.n.kind == BiOp && Parsed(c.right) && Spine(c.left)
    ensures Copies(OptKeep(prec, c, lists, level).0, p) == ListCopies(lists, NUM_LISTS, p) + Copies(c, p)
    decreases Weight(c), if c.left.Nil? && c.right.n.kind == BiOp then 7 else 1
  {
    hide OptOperand, OptChain, MergeLists;
    var (x, fx) := OptOperand(c.right, level);
    OperandCopies(c.right, level, p);
    ChainCopies(prec, c.left, if fx then NO_LISTS else lists, level, p);
    var below := OptChain(prec, c.left, if fx then NO_LISTS else lists, level).0;
    NoListsNothing(NUM_LISTS);
    MergeCopies(lists, NUM_LISTS, Node(c.n, below, x), p);
  }

  // ----- Side effects -----

  lemma {:induction false} WrapEffect(t: Expr, prec: nat)
    requires Parsed(t) && COMMA_PREC <= prec <= AND_PREC
    ensures Effectful(WrapLeftmost(t, prec)) == Effectful(t)
  {
    if t.n.kind == BiOp && t.left.Node? { WrapEffect(t.left, t.n.prec); }
  }

  lemma LeafEffect(x: Expr)
    requires Parsed(x) && x.n.kind == Primary
    ensures Effectful(x) == x.n.effect && Normal(x)
  {
    assert !Effectful(x.left) && !Effectful(x.right);
  }

  /** opt_expr returns true exactly when some primary below has side effects. */
  lemma {:induction false} OptEffect(t: Expr, level: nat)
    requires Parsed(t)
    ensures OptExpr(t, level).1 == Effectful(t)
    ensures Effectful(OptExpr(t, level).0) == Effectful(t)
    decreases Weight(t), 4
  {
    var s := WrapLeftmost(t, AND_PREC);
    WrapEffect(t, AND_PREC);
    ChainEffect(s.n.prec, s, NO_LISTS, level);
    EffectfulIff(t);
    EffectfulIff(OptExpr(t, level).0);
    forall p { OptCopies(t, level, p); }
  }

  lemma {:induction false} OperandEffect(x: Expr, level: nat)
    requires Parsed(x)
    ensures OptOperand(x, level).1 == Effectful(x)
    ensures Effectful(OptOperand(x, level).0) == Effectful(x)
    decreases Weight(x), if x.n.kind == BiOp then 5 else 0
  {
    if x.n.kind == UniOp { OptEffect(x.right, level); }
    else if x.n.kind == BiOp { OptEffect(x, level); }
  }

  lemma {:induction false} ChainEffect(prec: nat, rest: Expr, lists: Lists, level: nat)
    requires Spine(rest)
    ensures OptChain(prec, rest, lists, level).1 == Effectful(rest)
    decreases Weight(rest), if rest.Node? && rest.n.prec != prec then 8 else 2
  {
    if rest.Node? {
      var c := SameSpine(prec, rest);
      assert Effectful(c) == Effectful(rest) == (Effectful(c.left) || Effectful(c.right));
      if Movable(prec, c.right.n, level) {
        var i := ListFor(c.right.n, level);
        LeafEffect(c.right);
        ChainEffect(prec, c.left, PushList(lists, i, c.n, c.right), level);
      } else {
        OperandEffect(c.right, level);
        ChainEffect(prec, c.left, if OptOperand(c.right, level).1 then NO_LISTS else lists, level);
      }
    }
  }

  // ----- Normal form -----

  lemma {:induction false} SomePrimary(t: Expr) returns (p: Info)
    requires Parsed(t)
    ensures Copies(t, p) > 0
  {
    if t.n.kind == Primary { p := t.n; } else { p := SomePrimary(t.right); }
  }

  lemma PushGood(prec: nat, lists: Lists, i: nat, c: Info, x: Expr)
    requires GoodLists(prec, lists) && i < NUM_LISTS && prec != COMMA_PREC && COMMA_PREC <= prec <= AND_PREC
    requires c.kind == BiOp && c.prec == prec && !c.effect && Parsed(x) && x.n.kind == Primary && !x.n.effect
    ensures GoodLists(prec, PushList(lists, i, c, x))
  {
    assert PureList(prec, lists[i]);
    LeafEffect(x);
  }

  /** opt_expr makes the root a binary operator and links each spine along its left edge. */
  lemma {:induction false} OptNormal(t: Expr, level: nat)
    requires Parsed(t)
    ensures Normal(OptExpr(t, level).0) && OptExpr(t, level).0.n.kind == BiOp
    decreases Weight(t), 4
  {
    var s := WrapLeftmost(t, AND_PREC);
    ChainNormal(s.n.prec, s, NO_LISTS, level);
    var p := SomePrimary(t);
    OptCopies(t, level, p);
  }

  lemma {:induction false} OperandNormal(x: Expr, level: nat)
    requires Parsed(x)
    ensures Normal(OptOperand(x, level).0)
    decreases Weight(x), if x.n.kind == BiOp then 5 else 0
  {
    if x.n.kind == UniOp { OptNormal(x.right, level); }
    else if x.n.kind == BiOp { OptNormal(x, level); }
  }

  lemma {:induction false} ChainNormal(prec: nat, rest: Expr, lists: Lists, level: nat)
    requires Spine(rest) && GoodLists(prec, lists) && COMMA_PREC <= prec <= AND_PREC
    ensures NormalChain(prec, OptChain(prec, rest, lists, level).0)
    decreases Weight(rest), if rest.Node? && rest.n.prec != prec then 8 else 2
  {
    MergePure(prec, lists, NUM_LISTS);
    if rest.Node? {
      var c := SameSpine(prec, rest);
      if Movable(prec, c.right.n, level) {
        var i := ListFor(c.right.n, level);
        PushGood(prec, lists, i, c.n, c.right);
        ChainNormal(prec, c.left, PushList(lists, i, c.n, c.right), level);
      } else {
        var (x, fx) := OptOperand(c.right, level);
        OperandNormal(c.right, level);
        ChainNormal(prec, c.left, if fx then NO_LISTS else lists, level);
        var below := OptChain(prec, c.left, if fx then NO_LISTS else lists, level).0;
        MergeBelow(lists, NUM_LISTS, Node(c.n, below, x));
        ChainSplit(prec, MergeLists(lists, NUM_LISTS, Nil), Node(c.n, below, x));
      }
    }
  }

  // ----- Meaning -----

  lemma {:induction false} WrapMeaning(t: Expr, prec: nat, w: World, h: History)
    requires Parsed(t) && COMMA_PREC <= prec <= AND_PREC
    ensures Eval(WrapLeftmost(t, prec), w, h) == Eval(t, w, h)
  {
    if t.n.kind == BiOp && t.left.Node? { WrapMeaning(t.left, t.n.prec, w, h); }
  }

  /** At every optimisation level, the tree opt_expr builds has the value and the effects of
      the tree it was given, also when tests without side effects observe earlier effects. */
  lemma {:induction false} OptMeaning(t: Expr, level: nat, w: World, h: History)
    requires Parsed(t)
    ensures Shaped(OptExpr(t, level).0)
    ensures Eval(OptExpr(t, level).0, w, h) == Eval(t, w, h)
    decreases Weight(t), 4
  {
    var s := WrapLeftmost(t, AND_PREC);
    WrapMeaning(t, AND_PREC, w, h);
    OptNormal(t, level);
    ChainMeaning(s.n.prec, s, NO_LISTS, level, w, h);
    NoListsNothing(NUM_LISTS);
    EvalIsRun(s.n.prec, OptExpr(t, level).0, w, h);
  }

  lemma {:induction false} OperandMeaning(x: Expr, level: nat, w: World, h: History)
    requires Parsed(x)
    ensures Shaped(OptOperand(x, level).0)
    ensures Eval(OptOperand(x, level).0, w, h) == Eval(x, w, h)
    decreases Weight(x), if x.n.kind == BiOp then 5 else 0
  {
    OperandNormal(x, level);
    if x.n.kind == UniOp { OptMeaning(x.right, level, w, h); }
    else if x.n.kind == BiOp { OptMeaning(x, level, w, h); }
  }

  /** One more operand below a pure spine, whichever place the optimiser gives it. */
  lemma OneMoreOperand(prec: nat, a: Expr, b: Expr, n: Info, x: Expr, w: World, s: Outcome)
    requires PureList(prec, a) && PureList(prec, b) && prec != COMMA_PREC
    requires n.kind == BiOp && n.prec == prec && !n.effect && COMMA_PREC <= prec <= AND_PREC
    requires Shaped(x) && !Effectful(x)
    requires forall y :: Times(b, y) == Times(a, y) + if x == y then 1 else 0
    ensures Run(prec, b, w, s) == Run(prec, a, w, Step(prec, x, w, s)) == Step(prec, x, w, Run(prec, a, w, s))
  {
    var one := Node(n, Nil, x);
    var under, over := Append(a, one), Node(n, a, x);
    RunAppend(prec, a, one, w, s);
    PureAppend(a, one);
    forall y ensures Times(under, y) == Times(over, y) == Times(b, y) {
      AppendTimes(a, one, y);
      assert Times(one, y) == Times(one.left, y) + if x == y then 1 else 0;
    }
    SameOperandsSameRun(prec, under, b, w, s);
    SameOperandsSameRun(prec, over, b, w, s);
  }

  lemma {:induction false} ChainMeaning(prec: nat, rest: Expr, lists: Lists, level: nat, w: World, h: History)
    requires Spine(rest) && GoodLists(prec, lists) && COMMA_PREC <= prec <= AND_PREC
    ensures NormalChain(prec, OptChain(prec, rest, lists, level).0)
    ensures NormalChain(prec, MergeLists(lists, NUM_LISTS, Nil))
    ensures Run(prec, OptChain(prec, rest, lists, level).0, w, (Unit(prec), h))
            == Run(prec, MergeLists(lists, NUM_LISTS, Nil), w, Below(prec, rest, w, h))
    decreases Weight(rest), if rest.Node? && rest.n.prec != prec then 8 else 2
  {
    MergePure(prec, lists, NUM_LISTS);
    ChainNormal(prec, rest, lists, level);
    if rest.Node? {
      var c := SameSpine(prec, rest);
      var merged := MergeLists(lists, NUM_LISTS, Nil);
      assert Below(prec, rest, w, h) == Step(prec, c.right, w, Below(prec, c.left, w, h));
      if Movable(prec, c.right.n, level) {
        var i := ListFor(c.right.n, level);
        var lists' := PushList(lists, i, c.n, c.right);
        PushGood(prec, lists, i, c.n, c.right);
        ChainMeaning(prec, c.left, lists', level, w, h);
        MergePure(prec, lists', NUM_LISTS);
        forall y ensures Times(MergeLists(lists', NUM_LISTS, Nil), y) == Times(merged, y) + if c.right == y then 1 else 0 {
          MergeTimes(lists, NUM_LISTS, y);
          MergeTimes(lists', NUM_LISTS, y);
          PushTimes(lists, i, c.n, c.right, NUM_LISTS, y);
        }
        LeafEffect(c.right);
        OneMoreOperand(prec, merged, MergeLists(lists', NUM_LISTS, Nil), c.n, c.right, w, Below(prec, c.left, w, h));
      } else {
        KeepMeaning(prec, c, lists, level, w, h);
      }
    }
  }

  /** The lists merged above a node that ends their run. */
  lemma RunMerged(prec: nat, lists: Lists, n: Info, below: Expr, x: Expr, w: World, s: Outcome)
    requires GoodLists(prec, lists) && COMMA_PREC <= prec <= AND_PREC
    requires n.kind == BiOp && n.prec == prec && !n.effect && NormalChain(prec, below) && Normal(x)
    ensures NormalChain(prec, MergeLists(lists, NUM_LISTS, Nil))
    ensures NormalChain(prec, MergeLists(lists, NUM_LISTS, Node(n, below, x)))
    ensures Run(prec, MergeLists(lists, NUM_LISTS, Node(n, below, x)), w, s)
            == Run(prec, MergeLists(lists, NUM_LISTS, Nil), w, Step(prec, x, w, Run(prec, below, w, s)))
  {
    var merged, c := MergeLists(lists, NUM_LISTS, Nil), Node(n, below, x);
    MergePure(prec, lists, NUM_LISTS);
    MergeBelow(lists, NUM_LISTS, c);
    ChainSplit(prec, merged, c);
    RunAppend(prec, merged, c, w, s);
  }

  lemma {:induction false} KeepMeaning(prec: nat, c: Expr, lists: Lists, level: nat, w: World, h: History)
    requires c.Node? && c.n.kind == BiOp && c.n.prec == prec && !c.n.effect && Parsed(c.right) && Spine(c.left)
    requires GoodLists(prec, lists) && COMMA_PREC <= prec <= AND_PREC
    ensures NormalChain(prec, OptKeep(prec, c, lists, level).0)
    ensures NormalChain(prec, MergeLists(lists, NUM_LISTS, Nil))
    ensures Run(prec, OptKeep(prec, c, lists, level).0, w, (Unit(prec), h))
            == Run(prec, MergeLists(lists, NUM_LISTS, Nil), w, Step(prec, c.right, w, Below(prec, c.left, w, h)))
    decreases Weight(c), if c.left.Nil? && c.right.n.kind == BiOp then 7 else 1
  {
    hide OptOperand, OptChain, MergeLists, Effectful;
    var merged := MergeLists(lists, NUM_LISTS, Nil);
    var (x, fx) := OptOperand(c.right, level);
    var lists' := if fx then NO_LISTS else lists;
    var below := OptChain(prec, c.left, lists', level).0;
    var s := Below(prec, c.left, w, h);
    MergePure(prec, lists, NUM_LISTS);
    OperandNormal(c.right, level);
    OperandEffect(c.right, level);
    OperandMeaning(c.right, level, w, s.1);
    ChainMeaning(prec, c.left, lists', level, w, h);
    if fx {
      NoListsNothing(NUM_LISTS);
      RunMerged(prec, lists, c.n, below, x, w, (Unit(prec), h));
    } else if prec != COMMA_PREC {
      OneMoreOperand(prec, merged, Node(c.n, merged, x), c.n, x, w, s);
    }
  }

  // ----- The order opt_expr puts operands in -----

  /** Whether the test `y` may be evaluated after `x` in one run of operands without side effects. Name tests come first,
      and from level 1 whatever needs no inode; then regex tests; at level 2 what needs the inode number and then what
      needs the type, unless a stat is asked for; above level 2 every test, by cost. */
  predicate MayPrecede(x: Expr, y: Expr, level: nat) {
    x.Node? && y.Node? &&
    var a, b := x.n, y.n;
    var free := a.kind == Primary && (a.func == NamePathTest || (level > 0 && a.cost == NEEDS_NOTHING));
    var first := free || (a.kind == Primary && a.func == RegexTest);
    var inode := first || (a.kind == Primary && a.cost == NEEDS_INODE && !a.needStat);
    var typed := inode || (a.kind == Primary && a.cost == NEEDS_TYPE && !a.needStat);
    b.kind == Primary ==>
      && (b.func == NamePathTest || (level > 0 && b.cost == NEEDS_NOTHING) ==> free)
      && (b.func == RegexTest ==> first)
      && (level == 2 && b.cost == NEEDS_INODE && !b.needStat ==> inode)
      && (level == 2 && b.cost == NEEDS_TYPE && !b.needStat ==> typed)
      && (level > 2 ==> first || (a.kind == Primary && a.cost <= b.cost))
  }

  /** Every operand of the run on top of `k` may come before `y`. */
  predicate RunPrecedes(k: Expr, y: Expr, level: nat) {
    k.Node? ==> Effectful(k.right) || (MayPrecede(k.right, y, level) && RunPrecedes(k.left, y, level))
  }

  predicate Placed(k: Expr, level: nat) {
    k.Node? ==> Placed(k.left, level) && (Effectful(k.right) || RunPrecedes(k.left, k.right, level))
  }

  /** Every AND and OR spine of the tree is in that order. */
  predicate PlacedAll(t: Expr, level: nat) {
    t.Node? ==>
      && (t.n.kind == BiOp && t.n.prec != COMMA_PREC ==> Placed(t, level))
      && PlacedAll(t.left, level) && PlacedAll(t.right, level)
  }

  const STAYS: nat := 13

  /** The list an operand went through. */
  function Class(x: Expr, level: nat): nat {
    if x.Node? && x.n.kind == Primary && !x.n.effect && ListFor(x.n, level) >= 0 then ListFor(x.n, level) else STAYS
  }

  lemma ClassPlaces(x: Expr, y: Expr, level: nat)
    requires x.Node? && y.Node? && !Effectful(x) && !Effectful(y) && Class(x, level) <= Class(y, level)
    ensures MayPrecede(x, y, level)
  {}

  /** The run on top of `k` has operands up to class `c`. */
  predicate RunUpTo(k: Expr, c: nat, level: nat) {
    k.Node? ==> Effectful(k.right) || (k.right.Node? && Class(k.right, level) <= c && RunUpTo(k.left, c, level))
  }

  predicate Ordered(k: Expr, level: nat) {
    k.Node? ==>
      Ordered(k.left, level) && k.right.Node? && (Effectful(k.right) || RunUpTo(k.left, Class(k.right, level), level))
  }

  lemma {:induction false} UpToPrecedes(k: Expr, y: Expr, level: nat)
    requires y.Node? && !Effectful(y) && RunUpTo(k, Class(y, level), level)
    ensures RunPrecedes(k, y, level)
  {
    if k.Node? && !Effectful(k.right) {
      ClassPlaces(k.right, y, level);
      UpToPrecedes(k.left, y, level);
    }
  }

  lemma {:induction false} OrderedIsPlaced(k: Expr, level: nat)
    requires Ordered(k, level)
    ensures Placed(k, level)
  {
    if k.Node? {
      OrderedIsPlaced(k.left, level);
      if !Effectful(k.right) { UpToPrecedes(k.left, k.right, level); }
    }
  }

  /** A list of side-effect-free primaries of one class. */
  predicate OneClass(k: Expr, i: nat, level: nat) {
    k.Node? ==> k.right.Node? && k.right.n.kind == Primary && k.right.left.Nil? && k.right.right.Nil?
                && !Effectful(k.right) && Class(k.right, level) == i && OneClass(k.left, i, level)
  }

  ghost predicate ClassLists(lists: Lists, level: nat) {
    forall i :: 0 <= i < NUM_LISTS ==> OneClass(lists[i], i, level)
  }

  lemma {:induction false} OneClassAppend(a: Expr, b: Expr, i: nat, level: nat)
    ensures OneClass(Append(a, b), i, level) <==> OneClass(a, i, level) && OneClass(b, i, level)
  {
    if a.Node? { OneClassAppend(a.left, b, i, level); }
  }

  lemma {:induction false} SortOneClass(src: Expr, acc: Expr, i: nat, level: nat)
    requires Loaded(src) && Loaded(acc) && OneClass(src, i, level) && OneClass(acc, i, level)
    ensures OneClass(MergeSort(src, acc), i, level)
    decreases src
  {
    if src.Node? {
      InsertLoaded(acc, src.n, src.right);
      var a, b := InsertSplits(acc, src.n, src.right);
      OneClassAppend(a, b, i, level); OneClassAppend(a, Node(src.n, b, src.right), i, level);
      SortOneClass(src.left, Insert(acc, src.n, src.right), i, level);
    }
  }

  lemma {:induction false} AppendOrdered(a: Expr, b: Expr, i: nat, c: nat, level: nat)
    requires OneClass(a, i, level) && Ordered(b, level) && RunUpTo(b, i, level) && i <= c
    ensures Ordered(Append(a, b), level) && RunUpTo(Append(a, b), i, level) && RunUpTo(Append(a, b), c, level)
  {
    if a.Node? { AppendOrdered(a.left, b, i, c, level); } else { UpToMore(b, i, c, level); }
  }

  lemma {:induction false} UpToMore(k: Expr, i: nat, c: nat, level: nat)
    requires RunUpTo(k, i, level) && i <= c
    ensures RunUpTo(k, c, level)
  {
    if k.Node? && !Effectful(k.right) { UpToMore(k.left, i, c, level); }
  }

  /** The lists merged above what starts a run. */
  lemma {:induction false} MergeOrdered(lists: Lists, k: nat, below: Expr, level: nat)
    requires k <= NUM_LISTS && ClassLists(lists, level) && Ordered(below, level) && RunUpTo(below, 0, level)
    ensures Ordered(MergeLists(lists, k, below), level) && RunUpTo(MergeLists(lists, k, below), k, level)
  {
    if k > 0 {
      MergeOrdered(lists, k - 1, below, level);
      SortOneClass(lists[k - 1], Nil, k - 1, level);
      AppendOrdered(MergeSort(lists[k - 1], Nil), MergeLists(lists, k - 1, below), k - 1, k, level);
    }
  }

  lemma PushClass(lists: Lists, n: Info, x: Expr, level: nat)
    requires ClassLists(lists, level) && Parsed(x) && x.n.kind == Primary && !x.n.effect && ListFor(x.n, level) >= 0
    ensures ClassLists(PushList(lists, ListFor(x.n, level), n, x), level)
  {
    LeafEffect(x);
    var i := ListFor(x.n, level);
    assert OneClass(lists[i], i, level);
  }

  predicate OperandsPlaced(k: Expr, level: nat) {
    k.Node? ==> PlacedAll(k.right, level) && OperandsPlaced(k.left, level)
  }

  lemma {:induction false} OperandsPlacedAppend(a: Expr, b: Expr, level: nat)
    ensures OperandsPlaced(Append(a, b), level) <==> OperandsPlaced(a, level) && OperandsPlaced(b, level)
  {
    if a.Node? { OperandsPlacedAppend(a.left, b, level); }
  }

  lemma {:induction false} OneClassOperands(k: Expr, i: nat, level: nat)
    requires OneClass(k, i, level)
    ensures OperandsPlaced(k, level)
  {
    if k.Node? { OneClassOperands(k.left, i, level); }
  }

  lemma {:induction false} MergeOperandsPlaced(lists: Lists, k: nat, below: Expr, level: nat)
    requires k <= NUM_LISTS && ClassLists(lists, level) && OperandsPlaced(below, level)
    ensures OperandsPlaced(MergeLists(lists, k, below), level)
  {
    if k > 0 {
      MergeOperandsPlaced(lists, k - 1, below, level);
      SortOneClass(lists[k - 1], Nil, k - 1, level);
      OneClassOperands(MergeSort(lists[k - 1], Nil), k - 1, level);
      OperandsPlacedAppend(MergeSort(lists[k - 1], Nil), MergeLists(lists, k - 1, below), level);
    }
  }

  lemma {:induction false} SpinePlacedAll(prec: nat, k: Expr, level: nat)
    requires NormalChain(prec, k) && OperandsPlaced(k, level) && (prec != COMMA_PREC ==> Ordered(k, level))
    ensures PlacedAll(k, level)
  {
    if k.Node? {
      SpinePlacedAll(prec, k.left, level);
      if prec != COMMA_PREC { OrderedIsPlaced(k, level); }
    }
  }

  /** At every level, every AND and OR spine of the result has its cheap tests in front, run by run. */
  lemma {:induction false} OptOrdered(t: Expr, level: nat)
    requires Parsed(t)
    ensures PlacedAll(OptExpr(t, level).0, level)
    decreases Weight(t), 4
  {
    var s := WrapLeftmost(t, AND_PREC);
    ChainNormal(s.n.prec, s, NO_LISTS, level);
    ChainOrdered(s.n.prec, s, NO_LISTS, level);
    SpinePlacedAll(s.n.prec, OptExpr(t, level).0, level);
  }

  lemma {:induction false} OperandOrdered(x: Expr, level: nat)
    requires Parsed(x)
    ensures PlacedAll(OptOperand(x, level).0, level)
    decreases Weight(x), if x.n.kind == BiOp then 5 else 0
  {
    if x.n.kind == UniOp { OptOrdered(x.right, level); }
    else if x.n.kind == BiOp { OptOrdered(x, level); }
  }

  lemma {:induction false} ChainOrdered(prec: nat, rest: Expr, lists: Lists, level: nat)
    requires Spine(rest) && ClassLists(lists, level)
    ensures prec != COMMA_PREC ==> Ordered(OptChain(prec, rest, lists, level).0, level)
    ensures OperandsPlaced(OptChain(prec, rest, lists, level).0, level)
    decreases Weight(rest), if rest.Node? && rest.n.prec != prec then 8 else 2
  {
    hide MergeLists, Class, Effectful;
    MergeOrdered(lists, NUM_LISTS, Nil, level);
    MergeOperandsPlaced(lists, NUM_LISTS, Nil, level);
    if rest.Node? {
      var c := SameSpine(prec, rest);
      if Movable(prec, c.right.n, level) {
        var i := ListFor(c.right.n, level);
        PushClass(lists, c.n, c.right, level);
        ChainOrdered(prec, c.left, PushList(lists, i, c.n, c.right), level);
      } else {
        KeepOrdered(prec, c, lists, level);
      }
    }
  }

  lemma {:induction false} KeepOrdered(prec: nat, c: Expr, lists: Lists, level: nat)
    requires c.Node? && c.n.kind == BiOp && Parsed(c.right) && Spine(c.left)
    requires ClassLists(lists, level) && !Movable(prec, c.right.n, level)
    ensures prec != COMMA_PREC ==> Ordered(OptKeep(prec, c, lists, level).0, level)
    ensures OperandsPlaced(OptKeep(prec, c, lists, level).0, level)
    decreases Weight(c), if c.left.Nil? && c.right.n.kind == BiOp then 7 else 1
  {
    hide OptOperand, OptChain, MergeLists;
    var (x, fx) := OptOperand(c.right, level);
    OperandOrdered(c.right, level);
    OperandEffect(c.right, level);
    ChainOrdered(prec, c.left, if fx then NO_LISTS else lists, level);
    OperandKind(c.right, level);
    var below := OptChain(prec, c.left, if fx then NO_LISTS else lists, level).0;
    if fx {
      MergeOperandsPlaced(lists, NUM_LISTS, Node(c.n, below, x), level);
      if prec != COMMA_PREC { MergeOrdered(lists, NUM_LISTS, Node(c.n, below, x), level); }
    } else if prec != COMMA_PREC {
      AnyStay(below, level);
    }
  }

  lemma {:induction false} AnyStay(k: Expr, level: nat)
    requires Ordered(k, level)
    ensures RunUpTo(k, STAYS, level)
  {
    if k.Node? { AnyStay(k.left, level); }
  }

  /** Optimising an operand does not turn a compound into a primary. */
  lemma OperandKind(x: Expr, level: nat)
    requires Parsed(x)
    ensures OptOperand(x, level).0.Node?
    ensures OptOperand(x, level).0.n.kind == Primary <==> x.n.kind == Primary
    ensures x.n.kind == Primary ==> OptOperand(x, level) == (x, x.n.effect)
  {
    if x.n.kind == BiOp { OptNormal(x, level); }
  }

  // ----- What predlist_merge_sort does and does not sort -----

  /** The head of the list is not cheaper than any of its operands. */
  ghost predicate HeadIsMax(k: Expr)
    requires Loaded(k)
  {
    k.Node? ==> forall x: Expr :: x.Node? && Times(k, x) > 0 ==> NotCheaper(k.n, k.right.n, x.n)
  }

  predicate OnePrec(k: Expr, prec: nat) {
    k.Node? ==> k.n.prec == prec && OnePrec(k.left, prec)
  }

  /** When the head is a maximum, only the head decides where a node goes. */
  lemma {:induction false} InsertAtHead(acc: Expr, q: Info, x: Expr, prec: nat)
    requires Loaded(acc) && x.Node? && HeadIsMax(acc) && OnePrec(acc, prec)
    ensures Insert(acc, q, x) == if acc.Node? && NotCheaper(acc.n, acc.right.n, x.n) then Node(acc.n, Node(q, acc.left, x), acc.right)
                                 else Node(q, acc, x)
  {
    if SomeNotCheaper(acc, x.n) {
      NoneAboveMax(acc, acc, x.n, prec);
    }
  }

  lemma {:induction false} NoneAboveMax(top: Expr, k: Expr, x: Info, prec: nat)
    requires Loaded(top) && Loaded(k) && top.Node? && OnePrec(top, prec) && OnePrec(k, prec)
    requires forall y: Expr :: y.Node? && Times(k, y) > 0 ==> NotCheaper(top.n, top.right.n, y.n)
    requires SomeNotCheaper(k, x)
    ensures NotCheaper(top.n, top.right.n, x)
  {
    if NotCheaper(k.n, k.right.n, x) {
      assert Times(k, k.right) > 0;
    } else {
      NoneAboveMax(top, k.left, x, prec);
    }
  }

  lemma InsertHeadIsMax(acc: Expr, q: Info, x: Expr)
    requires Loaded(acc) && x.Node? && HeadIsMax(acc) && OnePrec(acc, q.prec)
    ensures Loaded(Insert(acc, q, x)) && HeadIsMax(Insert(acc, q, x)) && OnePrec(Insert(acc, q, x), q.prec)
  {
    InsertLoaded(acc, q, x);
    InsertAtHead(acc, q, x, q.prec);
    var r := Insert(acc, q, x);
    forall y: Expr | y.Node? && Times(r, y) > 0
      ensures NotCheaper(r.n, r.right.n, y.n)
    {
      assert Times(r, y) == Times(acc, y) + if x == y then 1 else 0 by {
        var a, b := InsertSplits(acc, q, x);
        AppendTimes(a, b, y); AppendTimes(a, Node(q, b, x), y);
      }
    }
  }

  /** The last operand to be evaluated is one of the costliest. */
  lemma {:induction false} SortHeadIsMax(src: Expr, acc: Expr, prec: nat)
    requires Loaded(src) && Loaded(acc) && OnePrec(src, prec) && OnePrec(acc, prec) && HeadIsMax(acc)
    ensures HeadIsMax(MergeSort(src, acc))
    decreases src
  {
    if src.Node? {
      InsertHeadIsMax(acc, src.n, src.right);
      SortHeadIsMax(src.left, Insert(acc, src.n, src.right), prec);
    }
  }

  // ----- The last test of each cost -----

  /** Of two tests of one cost `y` may come last: it is the likelier one to succeed under AND, to fail under OR. */
  predicate LastOf(prec: nat, z: Info, y: Info) {
    z.cost == y.cost ==> if prec == OR_PREC then z.rate >= y.rate else z.rate <= y.rate
  }

  /** The run on top of `k` has no test of class `i` that should come after `y`. */
  predicate Dominates(prec: nat, k: Expr, y: Info, i: nat, level: nat) {
    k.Node? ==>
      || Effectful(k.right)
      || ((Class(k.right, level) == i && i < STAYS ==> LastOf(prec, k.right.n, y)) && Dominates(prec, k.left, y, i, level))
  }

  /** No operand of the run is above. */
  const TOP: nat := 14

  /** In each run the last test of every class may come last; above is the class of the operand above `k`. */
  predicate Peaks(prec: nat, k: Expr, above: nat, level: nat) {
    k.Node? ==>
      if Effectful(k.right) then Peaks(prec, k.left, TOP, level)
      else
        var i := Class(k.right, level);
        && (i < STAYS && above != i ==> Dominates(prec, k.left, k.right.n, i, level))
        && Peaks(prec, k.left, i, level)
  }

  lemma {:induction false} PeaksBelow(prec: nat, k: Expr, above: nat, level: nat)
    requires Peaks(prec, k, TOP, level)
    ensures Peaks(prec, k, above, level)
  {}

  lemma {:induction false} LowerClasses(prec: nat, k: Expr, y: Info, i: nat, level: nat)
    requires i > 0 ==> RunUpTo(k, i - 1, level)
    requires i == 0 ==> k.Node? ==> Effectful(k.right)
    ensures Dominates(prec, k, y, i, level)
  {
    if i > 0 && k.Node? && !Effectful(k.right) { LowerClasses(prec, k.left, y, i, level); }
  }

  lemma {:induction false} SegmentDominates(prec: nat, a: Expr, b: Expr, y: Info, i: nat, level: nat)
    requires OneClass(a, i, level) && Dominates(prec, b, y, i, level)
    requires forall x: Expr :: x.Node? && Times(a, x) > 0 ==> LastOf(prec, x.n, y)
    ensures Dominates(prec, Append(a, b), y, i, level)
  {
    if a.Node? {
      assert Times(a, a.right) > 0;
      forall x: Expr | x.Node? && Times(a.left, x) > 0 ensures LastOf(prec, x.n, y) { assert Times(a, x) > 0; }
      SegmentDominates(prec, a.left, b, y, i, level);
    }
  }

  lemma {:induction false} SegmentPeaks(prec: nat, a: Expr, b: Expr, i: nat, level: nat)
    requires OneClass(a, i, level) && Peaks(prec, b, TOP, level)
    ensures Peaks(prec, Append(a, b), i, level)
  {
    if a.Node? { SegmentPeaks(prec, a.left, b, i, level); } else { PeaksBelow(prec, b, i, level); }
  }

  /** A sorted list of one class above a run of lower classes. */
  lemma ListPeaks(prec: nat, a: Expr, b: Expr, i: nat, level: nat)
    requires OneClass(a, i, level) && i < STAYS && Loaded(a) && HeadIsMax(a) && OnePrec(a, prec)
    requires Peaks(prec, b, TOP, level)
    requires if i > 0 then RunUpTo(b, i - 1, level) else b.Node? ==> Effectful(b.right)
    ensures Peaks(prec, Append(a, b), TOP, level)
  {
    if a.Node? {
      SegmentPeaks(prec, a.left, b, i, level);
      LowerClasses(prec, b, a.right.n, i, level);
      forall x: Expr | x.Node? && Times(a.left, x) > 0
        ensures LastOf(prec, x.n, a.right.n)
      {
        assert Times(a, x) > 0 && NotCheaper(a.n, a.right.n, x.n);
      }
      SegmentDominates(prec, a.left, b, a.right.n, i, level);
    }
  }

  lemma {:induction false} ChainPrec(prec: nat, k: Expr)
    requires NormalChain(prec, k)
    ensures OnePrec(k, prec)
  {
    if k.Node? { ChainPrec(prec, k.left); }
  }

  lemma {:induction false} MergePeaks(prec: nat, lists: Lists, k: nat, below: Expr, level: nat)
    requires k <= NUM_LISTS && ClassLists(lists, level) && GoodLists(prec, lists)
    requires Ordered(below, level) && (below.Node? ==> Effectful(below.right)) && Peaks(prec, below, TOP, level)
    ensures Peaks(prec, MergeLists(lists, k, below), TOP, level)
  {
    if k > 0 {
      hide Ordered, RunUpTo, Peaks, PureList;
      var list, rest := lists[k - 1], MergeLists(lists, k - 1, below);
      MergePeaks(prec, lists, k - 1, below, level);
      MergeRun(lists, k - 1, below, level);
      SortOneClass(list, Nil, k - 1, level);
      GoodPrec(prec, lists, k - 1);
      SortHeadIsMax(list, Nil, prec);
      SortPrec(list, Nil, prec);
      ListPeaks(prec, MergeSort(list, Nil), rest, k - 1, level);
    }
  }

  lemma GoodPrec(prec: nat, lists: Lists, i: nat)
    requires GoodLists(prec, lists) && i < NUM_LISTS
    ensures OnePrec(lists[i], prec)
  {
    ChainPrec(prec, lists[i]);
  }

  /** What lies below list `k` when it is merged. */
  lemma MergeRun(lists: Lists, k: nat, below: Expr, level: nat)
    requires k <= NUM_LISTS && ClassLists(lists, level) && Ordered(below, level) && (below.Node? ==> Effectful(below.right))
    ensures if k > 0 then RunUpTo(MergeLists(lists, k, below), k - 1, level)
            else MergeLists(lists, k, below) == below
    ensures Ordered(MergeLists(lists, k, below), level)
  {
    MergeOrdered(lists, k, below, level);
    if k > 0 {
      MergeOrdered(lists, k - 1, below, level);
      SortOneClass(lists[k - 1], Nil, k - 1, level);
      AppendOrdered(MergeSort(lists[k - 1], Nil), MergeLists(lists, k - 1, below), k - 1, k - 1, level);
    }
  }

  lemma {:induction false} SortPrec(src: Expr, acc: Expr, prec: nat)
    requires Loaded(src) && Loaded(acc) && OnePrec(src, prec) && OnePrec(acc, prec) && HeadIsMax(acc)
    ensures OnePrec(MergeSort(src, acc), prec)
    decreases src
  {
    if src.Node? {
      InsertHeadIsMax(acc, src.n, src.right);
      SortPrec(src.left, Insert(acc, src.n, src.right), prec);
    }
  }

  /** Every AND and OR spine below has its peaks last; `k` is walked as an operand list. */
  predicate PeaksAll(t: Expr, level: nat)
    decreases t, 1
  {
    t.Node? ==> (t.n.kind == BiOp && t.n.prec != COMMA_PREC ==> Peaks(t.n.prec, t, TOP, level)) && OperandsPeak(t, level)
  }

  predicate OperandsPeak(k: Expr, level: nat)
    decreases k, 0
  {
    k.Node? ==> PeaksAll(k.right, level) && OperandsPeak(k.left, level)
  }

  lemma {:induction false} OperandsPeakAppend(a: Expr, b: Expr, level: nat)
    ensures OperandsPeak(Append(a, b), level) <==> OperandsPeak(a, level) && OperandsPeak(b, level)
  {
    if a.Node? { OperandsPeakAppend(a.left, b, level); }
  }

  lemma {:induction false} OneClassPeaks(k: Expr, i: nat, level: nat)
    requires OneClass(k, i, level)
    ensures OperandsPeak(k, level)
  {
    if k.Node? {
      assert OperandsPeak(k.right, level) && PeaksAll(k.right, level);
      OneClassPeaks(k.left, i, level);
    }
  }

  lemma {:induction false} MergeOperandsPeak(lists: Lists, k: nat, below: Expr, level: nat)
    requires k <= NUM_LISTS && ClassLists(lists, level) && OperandsPeak(below, level)
    ensures OperandsPeak(MergeLists(lists, k, below), level)
  {
    if k > 0 {
      MergeOperandsPeak(lists, k - 1, below, level);
      SortOneClass(lists[k - 1], Nil, k - 1, level);
      OneClassPeaks(MergeSort(lists[k - 1], Nil), k - 1, level);
      OperandsPeakAppend(MergeSort(lists[k - 1], Nil), MergeLists(lists, k - 1, below), level);
    }
  }

  lemma {:induction false} OptPeaks(t: Expr, level: nat)
    requires Parsed(t)
    ensures PeaksAll(OptExpr(t, level).0, level)
    decreases Weight(t), 4
  {
    var s := WrapLeftmost(t, AND_PREC);
    ChainNormal(s.n.prec, s, NO_LISTS, level);
    ChainPeaks(s.n.prec, s, NO_LISTS, level);
  }

  lemma {:induction false} OperandPeaks(x: Expr, level: nat)
    requires Parsed(x)
    ensures PeaksAll(OptOperand(x, level).0, level)
    decreases Weight(x), if x.n.kind == BiOp then 5 else 0
  {
    if x.n.kind == UniOp {
      OptPeaks(x.right, level);
    } else if x.n.kind == BiOp {
      OptPeaks(x, level);
    }
  }

  lemma {:induction false} ChainPeaks(prec: nat, rest: Expr, lists: Lists, level: nat)
    requires Spine(rest) && ClassLists(lists, level) && GoodLists(prec, lists) && COMMA_PREC <= prec <= AND_PREC
    ensures prec != COMMA_PREC ==> Peaks(prec, OptChain(prec, rest, lists, level).0, TOP, level)
    ensures OperandsPeak(OptChain(prec, rest, lists, level).0, level)
    decreases Weight(rest), if rest.Node? && rest.n.prec != prec then 8 else 2
  {
    hide MergeLists, Class, Effectful;
    MergePeaks(prec, lists, NUM_LISTS, Nil, level);
    MergeOperandsPeak(lists, NUM_LISTS, Nil, level);
    if rest.Node? {
      var c := SameSpine(prec, rest);
      if Movable(prec, c.right.n, level) {
        var i := ListFor(c.right.n, level);
        PushClass(lists, c.n, c.right, level);
        PushGood(prec, lists, i, c.n, c.right);
        ChainPeaks(prec, c.left, PushList(lists, i, c.n, c.right), level);
      } else {
        KeepPeaks(prec, c, lists, level);
      }
    }
  }

  lemma {:induction false} KeepPeaks(prec: nat, c: Expr, lists: Lists, level: nat)
    requires c.Node? && c.n.kind == BiOp && c.n.prec == prec && Parsed(c.right) && Spine(c.left)
    requires ClassLists(lists, level) && GoodLists(prec, lists) && COMMA_PREC <= prec <= AND_PREC
    requires !Movable(prec, c.right.n, level)
    ensures prec != COMMA_PREC ==> Peaks(prec, OptKeep(prec, c, lists, level).0, TOP, level)
    ensures OperandsPeak(OptKeep(prec, c, lists, level).0, level)
    decreases Weight(c), if c.left.Nil? && c.right.n.kind == BiOp then 7 else 1
  {
    hide OptOperand, OptChain, MergeLists;
    var (x, fx) := OptOperand(c.right, level);
    OperandPeaks(c.right, level);
    OperandEffect(c.right, level);
    ChainPeaks(prec, c.left, if fx then NO_LISTS else lists, level);
    ChainOrdered(prec, c.left, if fx then NO_LISTS else lists, level);
    OperandKind(c.right, level);
    var below := OptChain(prec, c.left, if fx then NO_LISTS else lists, level).0;
    if fx {
      MergeOperandsPeak(lists, NUM_LISTS, Node(c.n, below, x), level);
      if prec != COMMA_PREC { MergePeaks(prec, lists, NUM_LISTS, Node(c.n, below, x), level); }
    } else if prec != COMMA_PREC {
      PeaksBelow(prec, below, STAYS, level);
    }
  }

  // The same in terms of costs.

  /** The cost table: name, path and regex tests need nothing. */
  predicate InTable(p: Info) { p.func != OtherFunc ==> p.cost == NEEDS_NOTHING }

  predicate CostTable(t: Expr) {
    t.Node? ==> (t.n.kind == Primary ==> InTable(t.n)) && CostTable(t.left) && CostTable(t.right)
  }

  lemma {:induction false} CostTableIff(t: Expr)
    ensures CostTable(t) <==> forall p :: Copies(t, p) > 0 ==> InTable(p)
  {
    if t.Node? {
      CostTableIff(t.left); CostTableIff(t.right);
      if p :| Copies(t.left, p) > 0 && !InTable(p) { assert Copies(t, p) > 0; }
      if p :| Copies(t.right, p) > 0 && !InTable(p) { assert Copies(t, p) > 0; }
      if t.n.kind == Primary { assert Copies(t, t.n) > 0; }
    }
  }

  /** A test that is moved to the front by its cost. */
  predicate Test(x: Expr, level: nat) {
    && x.Node? && x.n.kind == Primary && !Effectful(x)
    && (x.n.cost == NEEDS_NOTHING || (level == 2 && x.n.cost <= NEEDS_TYPE && !x.n.needStat) || level > 2)
  }

  predicate SameCost(x: Expr, y: Expr, level: nat) { Test(x, level) && Test(y, level) && x.n.cost == y.n.cost }

  predicate RunLast(prec: nat, k: Expr, y: Expr, level: nat) {
    k.Node? ==>
      || Effectful(k.right)
      || ((SameCost(k.right, y, level) ==> LastOf(prec, k.right.n, y.n)) && RunLast(prec, k.left, y, level))
  }

  /** Of the tests of one cost in a run, the last is one least likely to decide the outcome. */
  predicate Lasts(prec: nat, k: Expr, above: Expr, level: nat) {
    k.Node? ==>
      if Effectful(k.right) then Lasts(prec, k.left, Nil, level)
      else
        && (Test(k.right, level) && !SameCost(above, k.right, level) ==> RunLast(prec, k.left, k.right, level))
        && Lasts(prec, k.left, k.right, level)
  }

  predicate LastsAll(t: Expr, level: nat)
    decreases t, 1
  {
    t.Node? ==> (t.n.kind == BiOp && t.n.prec != COMMA_PREC ==> Lasts(t.n.prec, t, Nil, level)) && OperandsLast(t, level)
  }

  predicate OperandsLast(k: Expr, level: nat)
    decreases k, 0
  {
    k.Node? ==> LastsAll(k.right, level) && OperandsLast(k.left, level)
  }

  lemma TestClass(x: Expr, y: Expr, level: nat)
    requires level > 0 && Test(y, level) && CostTable(x) && CostTable(y) && !Effectful(x)
    ensures Class(y, level) < STAYS
    ensures SameCost(x, y, level) <==> Class(x, level) == Class(y, level)
  {}

  lemma {:induction false} DominatesLast(prec: nat, k: Expr, y: Expr, level: nat)
    requires level > 0 && Test(y, level) && CostTable(k) && CostTable(y)
    requires Dominates(prec, k, y.n, Class(y, level), level)
    ensures RunLast(prec, k, y, level)
  {
    if k.Node? && !Effectful(k.right) {
      TestClass(k.right, y, level);
      DominatesLast(prec, k.left, y, level);
    }
  }

  lemma {:induction false} PeaksLast(prec: nat, k: Expr, above: Expr, level: nat)
    requires level > 0 && CostTable(k) && CostTable(above) && !Effectful(above)
    requires Peaks(prec, k, if above.Nil? then TOP else Class(above, level), level)
    ensures Lasts(prec, k, above, level)
  {
    hide InTable;
    if k.Node? {
      if Effectful(k.right) {
        PeaksLast(prec, k.left, Nil, level);
      } else {
        PeaksLast(prec, k.left, k.right, level);
        if Test(k.right, level) && !SameCost(above, k.right, level) {
          TestClass(above, k.right, level);
          DominatesLast(prec, k.left, k.right, level);
        }
      }
    }
  }

  lemma {:induction false} AllLast(t: Expr, level: nat)
    requires level > 0 && CostTable(t) && PeaksAll(t, level)
    ensures LastsAll(t, level)
    decreases t, 1
  {
    hide InTable, Peaks, Lasts;
    if t.Node? {
      if t.n.kind == BiOp && t.n.prec != COMMA_PREC { PeaksLast(t.n.prec, t, Nil, level); }
      OperandsAllLast(t, level);
    }
  }

  lemma {:induction false} OperandsAllLast(k: Expr, level: nat)
    requires level > 0 && CostTable(k) && OperandsPeak(k, level)
    ensures OperandsLast(k, level)
    decreases k, 0
  {
    hide InTable, Peaks, Lasts;
    if k.Node? {
      AllLast(k.right, level);
      OperandsAllLast(k.left, level);
    }
  }

  /** With costs from the table, and from level 1, of the tests of one cost in a run the one likeliest to succeed comes
      last under AND, and the one likeliest to fail under OR. */
  lemma OptLasts(t: Expr, level: nat)
    requires Parsed(t) && CostTable(t) && level > 0
    ensures LastsAll(OptExpr(t, level).0, level)
  {
    hide InTable;
    OptPeaks(t, level);
    CostTableIff(t);
    CostTableIff(OptExpr(t, level).0);
    forall p { OptCopies(t, level, p); }
    AllLast(OptExpr(t, level).0, level);
  }

  /** From the head down, no operand is cheaper than the next: a sorted list. */
  predicate Sorted(k: Expr)
    requires Loaded(k)
  {
    k.Node? && k.left.Node? ==> NotCheaper(k.n, k.right.n, k.left.right.n) && Sorted(k.left)
  }

  /** One scan of the input: `top` is the costliest operand so far and `second` the one put
      just below it; every later operand that is no new maximum must not be cheaper than `second`. */
  predicate ComesSorted(src: Expr, top: Info, second: Info)
    requires Loaded(src)
  {
    src.Node? ==>
      var x := src.right.n;
      if NotCheaper(src.n, top, x) then NotCheaper(src.n, x, second) && ComesSorted(src.left, top, x)
      else ComesSorted(src.left, x, top)
  }

  /** The list comes out sorted exactly when the input passes that scan. */
  lemma {:induction false} SortsIff(src: Expr, acc: Expr, prec: nat)
    requires Loaded(src) && Loaded(acc) && OnePrec(src, prec) && OnePrec(acc, prec) && HeadIsMax(acc)
    requires acc.Node? && acc.left.Node?
    ensures Sorted(MergeSort(src, acc)) <==> Sorted(acc) && ComesSorted(src, acc.right.n, acc.left.right.n)
    decreases src
  {
    if src.Node? {
      var acc' := Insert(acc, src.n, src.right);
      InsertHeadIsMax(acc, src.n, src.right);
      InsertAtHead(acc, src.n, src.right, prec);
      SortsIff(src.left, acc', prec);
      assert NotCheaper(acc.n, acc.right.n, acc.left.right.n) by { assert Times(acc, acc.left.right) > 0; }
      if NotCheaper(acc.n, acc.right.n, src.right.n) {
        assert Sorted(acc') <==> NotCheaper(src.n, src.right.n, acc.left.right.n) && Sorted(acc.left);
      } else {
        assert Sorted(acc') <==> Sorted(acc);
      }
    }
  }

  /** The same from an empty list: the first two operands settle in order, the scan decides the rest. */
  lemma SortsFromScratchIff(p: Info, a: Expr, q: Info, b: Expr, rest: Expr)
    requires a.Node? && b.Node? && Loaded(rest) && p.prec == q.prec && OnePrec(rest, p.prec)
    ensures
      var src := Node(p, Node(q, rest, b), a);
      && Loaded(src.left) && Loaded(src)
      && (Sorted(MergeSort(src, Nil)) <==>
          if NotCheaper(p, a.n, b.n) then ComesSorted(rest, a.n, b.n) else ComesSorted(rest, b.n, a.n))
  {
    var src := Node(p, Node(q, rest, b), a);
    assert Loaded(src.left);
    var one := Node(p, Nil, a);
    assert Insert(Nil, p, a) == one;
    InsertHeadIsMax(Nil, p, a);
    InsertHeadIsMax(one, q, b);
    InsertAtHead(one, q, b, p.prec);
    var two := Insert(one, q, b);
    assert MergeSort(src, Nil) == MergeSort(src.left, one) == MergeSort(rest, two);
    SortsIff(rest, two, p.prec);
  }

  /** A list of side-effect-free primaries of one cost. */
  predicate OneCost(k: Expr, c: nat) {
    k.Node? ==> k.right.Node? && k.right.n.kind == Primary && k.right.left.Nil? && k.right.right.Nil?
                && !Effectful(k.right) && k.right.n.cost == c && OneCost(k.left, c)
  }

  lemma DipUnsorted(a: Expr, b: Expr, c: Expr, n: Info)
    requires a.Node? && b.Node? && c.Node? && n.prec == AND_PREC && a.n.cost == b.n.cost == c.n.cost
    requires a.n.rate == 0.9 && b.n.rate == 0.5 && c.n.rate == 0.1
    ensures var src := Node(n, Node(n, Node(n, Nil, c), b), a); Loaded(src) && !Sorted(MergeSort(src, Nil))
  {
    var rest := Node(n, Nil, c);
    assert Loaded(rest) && OnePrec(rest, n.prec);
    SortsFromScratchIff(n, a, n, b, rest);
  }

  /** Operands of an AND as they come to lie in one list: of one cost, with success rates 0.9, 0.5 and 0.1 from the
      head on. They come out as 0.9, 0.1, 0.5: the list is not sorted. */
  lemma SortCounterexample(a: Expr, b: Expr, c: Expr, n: Info)
    requires Parsed(a) && Parsed(b) && Parsed(c) && n.prec == AND_PREC
    requires a.n.kind == b.n.kind == c.n.kind == Primary && !a.n.effect && !b.n.effect && !c.n.effect
    requires a.n.cost == b.n.cost == c.n.cost && a.n.rate == 0.9 && b.n.rate == 0.5 && c.n.rate == 0.1
    ensures
      var src := Node(n, Node(n, Node(n, Nil, c), b), a);
      && OneCost(src, a.n.cost) && Loaded(src) && !Sorted(MergeSort(src, Nil))
  {
    hide MergeSort, Sorted, Effectful;
    LeafEffect(a); LeafEffect(b); LeafEffect(c);
    var last := Node(n, Nil, c);
    var more := Node(n, last, b);
    assert OneCost(last, a.n.cost);
    assert more.right == b && more.left == last;
    assert OneCost(more, a.n.cost);
    DipUnsorted(a, b, c, n);
  }
}
