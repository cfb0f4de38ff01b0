/** What do_arm_swaps computes (find/tree.c), as a function on expression values, and exactly
    where it keeps the meaning of the tree. */
module ArmSwap {
  import opened PredTree
  import opened TreeOpt

  /** worst_cost */
  function WorstCost(t: Expr): nat {
    if t.Nil? then 0
    else
      var l, r := WorstCost(t.left), WorstCost(t.right);
      var worst := if l > r then l else r;
      if worst < t.n.cost then t.n.cost else worst
  }

  /** The decision of consider_arm_swap. */
  predicate WantSwap(t: Expr) {
    && t.Node? && t.n.kind == BiOp && t.left.Node? && t.right.Node? && t.left.right.Node?
    && !Effectful(t.left.right) && !Effectful(t.right)
    && var lc, rc := WorstCost(t.left.right), WorstCost(t.right);
       if lc == rc then
         if t.n.prec == OR_PREC then t.right.n.rate < t.left.right.n.rate
         else if t.n.prec == AND_PREC then t.right.n.rate > t.left.right.n.rate
         else false
       else lc > rc
  }

  /** perform_arm_swap */
  function SwapTop(t: Expr): Expr
    requires t.Node? && t.left.Node?
  {
    Node(t.n, Node(t.left.n, t.left.left, t.right), t.left.right)
  }

  function Size(t: Expr): nat {
    if t.Nil? then 0 else 1 + Size(t.left) + Size(t.right)
  }

  /** do_arm_swaps */
  function ArmSwaps(t: Expr): Expr
    decreases Size(t)
  {
    if t.Nil? then Nil
    else
      var u := if WantSwap(t) then SwapTop(t) else t;
      assert Size(u) == Size(t) by { if WantSwap(t) { assert Size(u.left) == 1 + Size(t.left.left) + Size(t.right); } }
      Node(u.n, ArmSwaps(u.left), ArmSwaps(u.right))
  }

  /** A swap is never wanted twice in a row, so the do-while loop of do_arm_swaps runs at most twice. */
  lemma SwapSettles(t: Expr)
    requires WantSwap(t)
    ensures !WantSwap(SwapTop(t))
  {}

  /** No exchange under a comma can be noticed. used is whether the value of `t` matters: the left arm of a comma is
      evaluated for its effects only, and the left arm of an AND or OR also decides whether its right arm is. */
  predicate Quiet(t: Expr, used: bool) {
    t.Node? ==>
      if t.n.kind == BiOp && t.n.prec == COMMA_PREC then
        (used ==> !WantSwap(t)) && Quiet(t.left, false) && Quiet(t.right, used)
      else Quiet(t.left, used || Effectful(t.right)) && Quiet(t.right, used)
  }

  predicate CommaQuiet(t: Expr) { Quiet(t, true) }

  predicate CommaFree(t: Expr) {
    t.Node? ==> (t.n.kind == BiOp ==> t.n.prec != COMMA_PREC) && CommaFree(t.left) && CommaFree(t.right)
  }

  lemma {:induction false} CommaFreeIsQuiet(t: Expr, used: bool)
    requires CommaFree(t)
    ensures Quiet(t, used)
  {
    if t.Node? {
      CommaFreeIsQuiet(t.left, used || Effectful(t.right));
      CommaFreeIsQuiet(t.right, used);
    }
  }

  /** Swapping two neighbouring operands of an AND or OR keeps the meaning. */
  lemma SwapMeaning(t: Expr, w: World, h: History)
    requires Normal(t) && WantSwap(t) && t.n.prec != COMMA_PREC
    ensures Normal(SwapTop(t))
    ensures Eval(SwapTop(t), w, h) == Eval(t, w, h)
  {
    var h1 := if t.left.left.Node? then Eval(t.left.left, w, h).1 else h;
    PureKeepsHistory(t.right, w, h1);
    PureKeepsHistory(t.left.right, w, h1);
  }

  /** Where the two arms are different primaries, a swap keeps the meaning exactly when the
      operator is not a comma. */
  lemma SwapMeaningIff(t: Expr)
    requires Normal(t) && WantSwap(t)
    requires t.right.n.kind == Primary && t.left.right.n.kind == Primary && t.right.n.id != t.left.right.n.id
    ensures Normal(SwapTop(t))
    ensures SameMeaning(SwapTop(t), t) <==> t.n.prec != COMMA_PREC
  {
    if t.n.prec == COMMA_PREC {
      var w: World := (id, h) => id == t.right.n.id;
      var h: History := [];
      assert Eval(SwapTop(t), w, h).0 != Eval(t, w, h).0;
    } else {
      forall w: World, h: History ensures Eval(SwapTop(t), w, h) == Eval(t, w, h) { SwapMeaning(t, w, h); }
    }
  }

  /** do_arm_swaps keeps every primary. */
  lemma {:induction false} SwapsCopies(t: Expr, p: Info)
    ensures Copies(ArmSwaps(t), p) == Copies(t, p)
    decreases Size(t)
  {
    if t.Node? {
      var u := if WantSwap(t) then SwapTop(t) else t;
      assert Size(u) == Size(t) && Copies(u, p) == Copies(t, p) by {
        if WantSwap(t) {
          assert Size(u.left) == 1 + Size(t.left.left) + Size(t.right);
          assert Copies(u.left, p) == (if t.left.n.kind == Primary && t.left.n == p then 1 else 0) + Copies(t.left.left, p) + Copies(t.right, p);
        }
      }
      SwapsCopies(u.left, p); SwapsCopies(u.right, p);
    }
  }

  lemma SwapsEffect(t: Expr)
    ensures Effectful(ArmSwaps(t)) == Effectful(t)
  {
    EffectfulIff(t);
    EffectfulIff(ArmSwaps(t));
    forall p { SwapsCopies(t, p); }
  }

  /** do_arm_swaps keeps the normal form. */
  lemma {:induction false} SwapsNormal(t: Expr)
    requires Normal(t)
    ensures Normal(ArmSwaps(t))
    ensures ArmSwaps(t).n.kind == t.n.kind && ArmSwaps(t).n.prec == t.n.prec
    decreases Size(t)
  {
    var u := if WantSwap(t) then SwapTop(t) else t;
    assert Size(u) == Size(t) by { if WantSwap(t) { assert Size(u.left) == 1 + Size(t.left.left) + Size(t.right); } }
    assert Normal(u);
    if u.left.Node? { SwapsNormal(u.left); }
    if u.right.Node? { SwapsNormal(u.right); }
  }

  /** A swap keeps the history under every operator. */
  lemma SwapHistory(t: Expr, w: World, h: History)
    requires Normal(t) && WantSwap(t)
    ensures Normal(SwapTop(t))
    ensures Eval(SwapTop(t), w, h).1 == Eval(t, w, h).1
  {
    if t.n.prec == COMMA_PREC {
      var h1 := if t.left.left.Node? then Eval(t.left.left, w, h).1 else h;
      PureKeepsHistory(t.right, w, h1);
      PureKeepsHistory(t.left.right, w, h1);
    } else {
      SwapMeaning(t, w, h);
    }
  }

  /** A swap leaves the subtrees where their values matter no more than before. */
  lemma SwapQuiet(t: Expr, used: bool)
    requires Normal(t) && WantSwap(t) && Quiet(t, used)
    ensures Quiet(SwapTop(t), used)
  {
    var inner := Node(t.left.n, t.left.left, t.right);
    assert Quiet(inner, if t.n.prec == COMMA_PREC then false else used);
    SwapSettles(t);
  }

  /** do_arm_swaps keeps the effects, and the value where it matters, if no exchange under a comma can be noticed. */
  lemma {:induction false} SwapsMeaning(t: Expr, used: bool, w: World, h: History)
    requires Normal(t) && Quiet(t, used)
    ensures Normal(ArmSwaps(t))
    ensures Eval(ArmSwaps(t), w, h).1 == Eval(t, w, h).1
    ensures used ==> Eval(ArmSwaps(t), w, h) == Eval(t, w, h)
    decreases Size(t), 1
  {
    SwapsNormal(t);
    var u := if WantSwap(t) then SwapTop(t) else t;
    if WantSwap(t) {
      assert Size(u.left) == 1 + Size(t.left.left) + Size(t.right);
      SwapHistory(t, w, h);
      SwapQuiet(t, used);
      if t.n.prec != COMMA_PREC { SwapMeaning(t, w, h); }
    }
    assert Size(u) == Size(t);
    ArmsMeaning(u, used, w, h);
  }

  lemma SwapsNothing()
    ensures ArmSwaps(Nil) == Nil
  {}

  lemma {:induction false} ArmsMeaning(u: Expr, used: bool, w: World, h: History)
    requires Normal(u) && Quiet(u, used)
    ensures Normal(Node(u.n, ArmSwaps(u.left), ArmSwaps(u.right)))
    ensures Eval(Node(u.n, ArmSwaps(u.left), ArmSwaps(u.right)), w, h).1 == Eval(u, w, h).1
    ensures used ==> Eval(Node(u.n, ArmSwaps(u.left), ArmSwaps(u.right)), w, h) == Eval(u, w, h)
    decreases Size(u), 0
  {
    hide WantSwap, ArmSwaps, Effectful;
    SwapsNothing();
    var left := used || Effectful(u.right);
    var value := if u.n.kind == BiOp && u.n.prec == COMMA_PREC then false else left;
    if u.left.Node? { SwapsMeaning(u.left, value, w, h); SwapsNormal(u.left); }
    if u.right.Node? {
      SwapsMeaning(u.right, used, w, h);
      SwapsNormal(u.right);
      if u.left.Node? {
        var h1 := Eval(u.left, w, h).1;
        SwapsMeaning(u.right, used, w, h1);
        if !left {
          SwapsEffect(u.right);
          PureKeepsHistory(u.right, w, h1);
          PureKeepsHistory(ArmSwaps(u.right), w, h1);
        }
      }
    }
  }

  // ----- What the pass achieves -----

  function Larger(a: nat, b: nat): nat { if a < b then b else a }

  lemma {:induction false} SwapsWorst(t: Expr)
    ensures WorstCost(ArmSwaps(t)) == WorstCost(t)
    decreases Size(t)
  {
    if t.Node? {
      var u := if WantSwap(t) then SwapTop(t) else t;
      assert Size(u) == Size(t) && WorstCost(u) == WorstCost(t) by {
        if WantSwap(t) {
          assert Size(u.left) == 1 + Size(t.left.left) + Size(t.right);
          assert WorstCost(u.left) == Larger(t.left.n.cost, Larger(WorstCost(t.left.left), WorstCost(t.right)));
        }
      }
      SwapsWorst(u.left); SwapsWorst(u.right);
    }
  }

  /** A node with two arms that could change places. */
  predicate PureArms(t: Expr) {
    Normal(t) && t.n.kind == BiOp && t.left.Node? && !Effectful(t.left.right) && !Effectful(t.right)
  }

  /** The decision at one node leaves the costlier arm on the right. */
  lemma CostlierArm(t: Expr)
    requires PureArms(t)
    ensures WorstCost((if WantSwap(t) then SwapTop(t) else t).right) == Larger(WorstCost(t.left.right), WorstCost(t.right))
  {
    assert Normal(t.left) && t.left.right.Node?;
  }

  /** Under every operator the costlier arm ends up as the one evaluated later. Between arms of one cost AND puts the
      likelier one to succeed first and OR the likelier one to fail, which is not what the comment in the code asks for. */
  lemma SwapsCostlierLast(t: Expr)
    requires PureArms(t)
    ensures var r := ArmSwaps(t); var first, last := t.left.right, t.right;
      && r.Node? && r.right.Node? && first.Node? && last.Node?
      && WorstCost(r.right) == Larger(WorstCost(first), WorstCost(last))
      && (WorstCost(first) < WorstCost(last) ==> r.right == ArmSwaps(last))
      && (WorstCost(first) > WorstCost(last) ==> r.right == ArmSwaps(first))
      && (WorstCost(first) == WorstCost(last) ==>
            && (t.n.prec == AND_PREC ==> r.right.n.rate <= first.n.rate && r.right.n.rate <= last.n.rate)
            && (t.n.prec == OR_PREC ==> r.right.n.rate >= first.n.rate && r.right.n.rate >= last.n.rate)
            && (t.n.prec == COMMA_PREC || first.n.rate == last.n.rate ==> r.right == ArmSwaps(last)))
  {
    hide Effectful, WorstCost;
    assert Normal(t.left) && t.left.right.Node?;
    SwapsWorst(t.left.right); SwapsRoot(t.left.right);
    SwapsWorst(t.right); SwapsRoot(t.right);
    SwapsRoot(t);
  }

  lemma SwapsRoot(t: Expr)
    requires t.Node?
    ensures ArmSwaps(t).Node? && ArmSwaps(t).n == t.n
    ensures ArmSwaps(t).right == ArmSwaps(if WantSwap(t) then t.left.right else t.right)
  {}

  /** The operand evaluated first in the run of operands without side effects on top of `k`. */
  function RunFirst(k: Expr): Expr
    requires k.Node?
  {
    if k.left.Node? && !Effectful(k.left.right) then RunFirst(k.left) else k.right
  }

  /** In each run no operand is cheaper than the one evaluated first. */
  predicate CheapestFirst(k: Expr) {
    k.Node? ==> CheapestFirst(k.left) && (Effectful(k.right) || WorstCost(RunFirst(k)) <= WorstCost(k.right))
  }

  /** On every spine of the tree. */
  predicate CheapestFirstAll(t: Expr) {
    t.Node? ==> (t.n.kind == BiOp ==> CheapestFirst(t)) && CheapestFirstAll(t.left) && CheapestFirstAll(t.right)
  }

  lemma {:induction false} SpineCheapest(t: Expr)
    requires Normal(t) && t.n.kind == BiOp
    ensures var r := ArmSwaps(t);
      && r.Node? && CheapestFirst(r) && Effectful(r.right) == Effectful(t.right)
      && (!Effectful(t.right) ==> WorstCost(RunFirst(r)) <= WorstCost(t.right))
    decreases Size(t)
  {
    var u := if WantSwap(t) then SwapTop(t) else t;
    assert Size(u) == Size(t) && Normal(u) by {
      if WantSwap(t) { assert Size(u.left) == 1 + Size(t.left.left) + Size(t.right); }
    }
    SwapsEffect(u.right); SwapsWorst(u.right);
    if u.left.Node? { SpineCheapest(u.left); }
  }

  /** do_arm_swaps moves a cheapest operand of every run to its front, on every spine of the tree. */
  lemma {:induction false} SwapsCheapestFirst(t: Expr)
    requires Normal(t)
    ensures CheapestFirstAll(ArmSwaps(t))
    decreases Size(t)
  {
    var u := if WantSwap(t) then SwapTop(t) else t;
    assert Size(u) == Size(t) && Normal(u) by {
      if WantSwap(t) { assert Size(u.left) == 1 + Size(t.left.left) + Size(t.right); }
    }
    SwapsNormal(t);
    if t.n.kind == BiOp { SpineCheapest(t); }
    if u.left.Node? { SwapsCheapestFirst(u.left); }
    if u.right.Node? { SwapsCheapestFirst(u.right); }
  }

  /** After the exchange the value is that of the other arm. */
  lemma SwappedValue(t: Expr, w: World, h: History)
    requires Normal(t) && t.n.kind == BiOp && t.n.prec == COMMA_PREC && WantSwap(t)
    requires t.left.right.n.kind == Primary && t.right.n.kind == Primary
    ensures Normal(ArmSwaps(t))
    ensures exists h1 :: Eval(ArmSwaps(t), w, h).0 == w(t.left.right.n.id, h1)
    ensures exists h2 :: Eval(t, w, h).0 == w(t.right.n.id, h2)
  {
    SwapsNormal(t);
    var u := SwapTop(t);
    var a := t.left.right;
    assert a.left.Nil? && a.right.Nil? && !WantSwap(a) && ArmSwaps(a) == a;
    assert ArmSwaps(t) == Node(u.n, ArmSwaps(u.left), a);
    assert Eval(ArmSwaps(t), w, h).0 == w(a.n.id, Eval(ArmSwaps(u.left), w, h).1);
    assert Eval(t, w, h).0 == w(t.right.n.id, Eval(t.left, w, h).1);
  }

  // ----- Both passes together -----

  lemma {:induction false} FreeAppend(a: Expr, b: Expr)
    ensures CommaFree(Append(a, b)) <==> CommaFree(a) && CommaFree(b)
  {
    if a.Node? { FreeAppend(a.left, b); }
  }

  lemma {:induction false} FreeSort(src: Expr, acc: Expr)
    requires Loaded(src) && Loaded(acc) && CommaFree(src) && CommaFree(acc)
    ensures CommaFree(MergeSort(src, acc))
    decreases src
  {
    if src.Node? {
      InsertLoaded(acc, src.n, src.right);
      var a, b := InsertSplits(acc, src.n, src.right);
      FreeAppend(a, b); FreeAppend(a, Node(src.n, b, src.right));
      FreeSort(src.left, Insert(acc, src.n, src.right));
    }
  }

  ghost predicate FreeLists(lists: Lists) { forall i :: 0 <= i < NUM_LISTS ==> CommaFree(lists[i]) }

  lemma {:induction false} FreeMerge(lists: Lists, k: nat, below: Expr)
    requires k <= NUM_LISTS && FreeLists(lists) && CommaFree(below)
    ensures CommaFree(MergeLists(lists, k, below))
  {
    if k > 0 {
      FreeMerge(lists, k - 1, below);
      FreeSort(lists[k - 1], Nil);
      FreeAppend(MergeSort(lists[k - 1], Nil), MergeLists(lists, k - 1, below));
    }
  }

  lemma {:induction false} FreeWrap(t: Expr, prec: nat)
    requires Parsed(t) && CommaFree(t) && COMMA_PREC < prec <= AND_PREC
    ensures CommaFree(WrapLeftmost(t, prec))
  {
    if t.n.kind == BiOp && t.left.Node? { FreeWrap(t.left, t.n.prec); }
  }

  /** opt_expr introduces no comma. */
  lemma {:induction false} OptFree(t: Expr, level: nat)
    requires Parsed(t) && CommaFree(t)
    ensures CommaFree(OptExpr(t, level).0)
    decreases Weight(t), 4
  {
    FreeWrap(t, AND_PREC);
    var s := WrapLeftmost(t, AND_PREC);
    ChainFree(s.n.prec, s, NO_LISTS, level);
  }

  lemma {:induction false} OperandFree(x: Expr, level: nat)
    requires Parsed(x) && CommaFree(x)
    ensures CommaFree(OptOperand(x, level).0)
    decreases Weight(x), if x.n.kind == BiOp then 5 else 0
  {
    if x.n.kind == UniOp { OptFree(x.right, level); }
    else if x.n.kind == BiOp { OptFree(x, level); }
  }

  lemma {:induction false} ChainFree(prec: nat, rest: Expr, lists: Lists, level: nat)
    requires Spine(rest) && CommaFree(rest) && FreeLists(lists) && prec != COMMA_PREC
    ensures CommaFree(OptChain(prec, rest, lists, level).0)
    decreases Weight(rest), if rest.Node? && rest.n.prec != prec then 8 else 2
  {
    FreeMerge(lists, NUM_LISTS, Nil);
    if rest.Node? {
      var c := SameSpine(prec, rest);
      assert CommaFree(c);
      if Movable(prec, c.right.n, level) {
        var i := ListFor(c.right.n, level);
        assert CommaFree(lists[i]);
        ChainFree(prec, c.left, PushList(lists, i, c.n, c.right), level);
      } else {
        var (x, fx) := OptOperand(c.right, level);
        OperandFree(c.right, level);
        ChainFree(prec, c.left, if fx then NO_LISTS else lists, level);
        if fx { FreeMerge(lists, NUM_LISTS, Node(c.n, OptChain(prec, c.left, NO_LISTS, level).0, x)); }
      }
    }
  }

  // ----- opt_expr and the costs -----

  /** Nothing in the tree costs more than `c`. */
  predicate UpTo(t: Expr, c: nat) {
    t.Node? ==> t.n.cost <= c && UpTo(t.left, c) && UpTo(t.right, c)
  }

  lemma {:induction false} WorstIsUpTo(t: Expr, c: nat)
    ensures WorstCost(t) <= c <==> UpTo(t, c)
  {
    if t.Node? { WorstIsUpTo(t.left, c); WorstIsUpTo(t.right, c); }
  }

  lemma {:induction false} UpToAppend(a: Expr, b: Expr, c: nat)
    ensures UpTo(Append(a, b), c) <==> UpTo(a, c) && UpTo(b, c)
  {
    if a.Node? { UpToAppend(a.left, b, c); }
  }

  lemma {:induction false} UpToSort(src: Expr, acc: Expr, c: nat)
    requires Loaded(src) && Loaded(acc)
    ensures UpTo(MergeSort(src, acc), c) <==> UpTo(src, c) && UpTo(acc, c)
    decreases src
  {
    if src.Node? {
      InsertLoaded(acc, src.n, src.right);
      var a, b := InsertSplits(acc, src.n, src.right);
      UpToAppend(a, b, c); UpToAppend(a, Node(src.n, b, src.right), c);
      UpToSort(src.left, Insert(acc, src.n, src.right), c);
    }
  }

  predicate ListsUpTo(lists: Lists, k: nat, c: nat)
    requires k <= NUM_LISTS
  {
    k == 0 || (UpTo(lists[k - 1], c) && ListsUpTo(lists, k - 1, c))
  }

  lemma {:induction false} UpToMerge(lists: Lists, k: nat, below: Expr, c: nat)
    requires k <= NUM_LISTS
    ensures UpTo(MergeLists(lists, k, below), c) <==> ListsUpTo(lists, k, c) && UpTo(below, c)
  {
    if k > 0 {
      UpToMerge(lists, k - 1, below, c);
      UpToSort(lists[k - 1], Nil, c);
      UpToAppend(MergeSort(lists[k - 1], Nil), MergeLists(lists, k - 1, below), c);
    }
  }

  lemma {:induction false} UpToPush(lists: Lists, i: nat, n: Info, x: Expr, k: nat, c: nat)
    requires i < NUM_LISTS && k <= NUM_LISTS && x.Node?
    ensures ListsUpTo(PushList(lists, i, n, x), k, c) <==> ListsUpTo(lists, k, c) && (i < k ==> n.cost <= c && UpTo(x, c))
  {
    if k > 0 { UpToPush(lists, i, n, x, k - 1, c); }
  }

  lemma {:induction false} UpToNothing(k: nat, c: nat)
    requires k <= NUM_LISTS
    ensures ListsUpTo(NO_LISTS, k, c)
  {
    if k > 0 { UpToNothing(k - 1, c); }
  }

  lemma {:induction false} UpToWrap(t: Expr, prec: nat, c: nat)
    requires Parsed(t) && COMMA_PREC <= prec <= AND_PREC
    ensures UpTo(WrapLeftmost(t, prec), c) <==> UpTo(t, c)
  {
    if t.n.kind == BiOp && t.left.Node? { UpToWrap(t.left, t.n.prec, c); }
  }

  lemma {:induction false} UpToOpt(t: Expr, level: nat, c: nat)
    requires Parsed(t)
    ensures UpTo(OptExpr(t, level).0, c) <==> UpTo(t, c)
    decreases Weight(t), 4
  {
    var s := WrapLeftmost(t, AND_PREC);
    UpToWrap(t, AND_PREC, c);
    UpToNothing(NUM_LISTS, c);
    UpToChain(s.n.prec, s, NO_LISTS, level, c);
  }

  lemma {:induction false} UpToOperand(x: Expr, level: nat, c: nat)
    requires Parsed(x)
    ensures UpTo(OptOperand(x, level).0, c) <==> UpTo(x, c)
    decreases Weight(x), if x.n.kind == BiOp then 5 else 0
  {
    if x.n.kind == UniOp { UpToOpt(x.right, level, c); }
    else if x.n.kind == BiOp { UpToOpt(x, level, c); }
  }

  lemma {:induction false} UpToChain(prec: nat, rest: Expr, lists: Lists, level: nat, c: nat)
    requires Spine(rest)
    ensures UpTo(OptChain(prec, rest, lists, level).0, c) <==> ListsUpTo(lists, NUM_LISTS, c) && UpTo(rest, c)
    decreases Weight(rest), if rest.Node? && rest.n.prec != prec then 8 else 2
  {
    hide MergeLists;
    if rest.Nil? {
      UpToMerge(lists, NUM_LISTS, Nil, c);
    } else {
      var s := SameSpine(prec, rest);
      assert UpTo(s, c) <==> UpTo(rest, c);
      if Movable(prec, s.right.n, level) {
        var i := ListFor(s.right.n, level);
        UpToPush(lists, i, s.n, s.right, NUM_LISTS, c);
        UpToChain(prec, s.left, PushList(lists, i, s.n, s.right), level, c);
      } else {
        UpToKeep(prec, s, lists, level, c);
      }
    }
  }

  lemma {:induction false} UpToKeep(prec: nat, s: Expr, lists: Lists, level: nat, c: nat)
    requires s.Node? && s.n.kind == BiOp && Parsed(s.right) && Spine(s.left)
    ensures UpTo(OptKeep(prec, s, lists, level).0, c) <==> ListsUpTo(lists, NUM_LISTS, c) && UpTo(s, c)
    decreases Weight(s), if s.left.Nil? && s.right.n.kind == BiOp then 7 else 1
  {
    hide OptOperand, OptChain, MergeLists;
    var (x, fx) := OptOperand(s.right, level);
    UpToOperand(s.right, level, c);
    UpToChain(prec, s.left, if fx then NO_LISTS else lists, level, c);
    UpToNothing(NUM_LISTS, c);
    UpToMerge(lists, NUM_LISTS, Node(s.n, OptChain(prec, s.left, if fx then NO_LISTS else lists, level).0, x), c);
  }

  /** No operator that opt_expr makes or moves changes what the expression costs at worst. */
  lemma OptWorst(t: Expr, level: nat)
    requires Parsed(t)
    ensures WorstCost(OptExpr(t, level).0) == WorstCost(t)
  {
    var o := OptExpr(t, level).0;
    UpToOpt(t, level, WorstCost(t)); WorstIsUpTo(o, WorstCost(t)); WorstIsUpTo(t, WorstCost(t));
    UpToOpt(t, level, WorstCost(o)); WorstIsUpTo(o, WorstCost(o)); WorstIsUpTo(t, WorstCost(o));
  }

  /** The two passes of build_expression_tree one after the other. */
  function Optimise(t: Expr, level: nat): Expr
    requires Parsed(t)
  {
    ArmSwaps(OptExpr(t, level).0)
  }

  /** The same tree with other success rates. */
  predicate Rerated(t: Expr, u: Expr) {
    if t.Nil? then u.Nil?
    else u.Node? && u.n == t.n.(rate := u.n.rate) && Rerated(t.left, u.left) && Rerated(t.right, u.right)
  }

  lemma {:induction false} RerateBack(t: Expr, u: Expr)
    requires Rerated(t, u)
    ensures Rerated(u, t)
  {
    if t.Node? { RerateBack(t.left, u.left); RerateBack(t.right, u.right); }
  }

  /** Rates mean nothing. */
  lemma {:induction false} RerateMeaning(t: Expr, u: Expr, w: World, h: History)
    requires Normal(t) && Rerated(t, u)
    ensures Normal(u) && Eval(u, w, h) == Eval(t, w, h)
  {
    if t.left.Node? { RerateMeaning(t.left, u.left, w, h); }
    if t.right.Node? {
      RerateMeaning(t.right, u.right, w, h);
      if t.left.Node? { RerateMeaning(t.right, u.right, w, Eval(t.left, w, h).1); }
    }
  }

  lemma {:induction false} RerateFree(t: Expr, u: Expr)
    requires CommaFree(t) && Rerated(t, u)
    ensures CommaFree(u)
  {
    if t.Node? { RerateFree(t.left, u.left); RerateFree(t.right, u.right); }
  }

  /** Whatever rates are derived between the two passes, the optimised expression has the value and the ordered effects
      of the expression the user wrote, unless an exchange under a comma can be noticed. */
  lemma OptimiseMeaning(t: Expr, level: nat, u: Expr)
    requires Parsed(t) && Rerated(OptExpr(t, level).0, u) && CommaQuiet(u)
    ensures Normal(ArmSwaps(u)) && SameMeaning(ArmSwaps(u), t)
  {
    OptNormal(t, level);
    RerateMeaning(OptExpr(t, level).0, u, (id, h) => true, []);
    SwapsNormal(u);
    forall w: World, h: History ensures Eval(ArmSwaps(u), w, h) == Eval(t, w, h) {
      OptMeaning(t, level, w, h);
      RerateMeaning(OptExpr(t, level).0, u, w, h);
      SwapsMeaning(u, true, w, h);
    }
  }

  /** In particular for every expression without a comma. */
  lemma OptimiseCommaFree(t: Expr, level: nat, u: Expr)
    requires Parsed(t) && CommaFree(t) && Rerated(OptExpr(t, level).0, u)
    ensures Normal(ArmSwaps(u)) && SameMeaning(ArmSwaps(u), t)
  {
    OptFree(t, level);
    RerateFree(OptExpr(t, level).0, u);
    CommaFreeIsQuiet(u, true);
    OptimiseMeaning(t, level, u);
  }

  /** `-size 3 , -name foo`, at cost 3 and 0, as the parser delivers it. */
  function SizeCommaName(comma: Info, size: Info, name: Info): Expr {
    Node(comma, Node(size, Nil, Nil), Node(name, Nil, Nil))
  }

  /** opt_expr gives the leftmost arm a parent and moves nothing under a comma. */
  lemma CommaOpt(comma: Info, size: Info, name: Info, level: nat)
    requires comma.kind == BiOp && comma.prec == COMMA_PREC && !comma.effect
    requires size.kind == Primary && !size.effect && name.kind == Primary && !name.effect
    ensures
      var t := SizeCommaName(comma, size, name);
      Parsed(t) && OptExpr(t, level).0 == Node(comma, Node(NewParent(size, COMMA_PREC), Nil, Node(size, Nil, Nil)), t.right)
  {
    var s, n: Expr := Node(size, Nil, Nil), Node(name, Nil, Nil);
    var t := SizeCommaName(comma, size, name);
    assert Parsed(s) && Parsed(n) && Parsed(t);
    var wrapped: Expr := Node(NewParent(size, COMMA_PREC), Nil, s);
    var o: Expr := Node(comma, wrapped, n);
    assert WrapLeftmost(s, COMMA_PREC) == wrapped && WrapLeftmost(t, AND_PREC) == o;
    assert Spine(wrapped) && Spine(o);
    NoListsNothing(NUM_LISTS);
    hide MergeLists;
    assert OptOperand(s, level) == (s, false) && OptOperand(n, level) == (n, false);
    assert OptChain(COMMA_PREC, Nil, NO_LISTS, level) == (Nil, false);
    assert OptKeep(COMMA_PREC, wrapped, NO_LISTS, level) == (wrapped, false);
    assert OptChain(COMMA_PREC, wrapped, NO_LISTS, level) == (wrapped, false);
    assert OptKeep(COMMA_PREC, o, NO_LISTS, level) == (o, false);
  }

  /** The two passes make `-name foo , -size 3` of it, at every level, and that is not what the user wrote. */
  lemma CommaCounterexample(comma: Info, size: Info, name: Info, level: nat)
    requires comma.kind == BiOp && comma.prec == COMMA_PREC && !comma.effect && comma.cost == 0
    requires size.kind == Primary && !size.effect && size.cost == 3
    requires name.kind == Primary && !name.effect && name.cost == 0
    requires size.id != name.id
    ensures
      var t := SizeCommaName(comma, size, name);
      Parsed(t) && Normal(Optimise(t, level)) && !SameMeaning(Optimise(t, level), t)
  {
    var s, n: Expr := Node(size, Nil, Nil), Node(name, Nil, Nil);
    var t := SizeCommaName(comma, size, name);
    var wrapped: Expr := Node(NewParent(size, COMMA_PREC), Nil, s);
    var o: Expr := Node(comma, wrapped, n);
    CommaOpt(comma, size, name, level);
    LeafEffect(s); LeafEffect(n);
    assert WorstCost(s) == 3 && WorstCost(n) == 0 && WantSwap(o);
    assert Normal(wrapped) && Normal(o);
    SwapsNormal(o);
    var w: World := (id, h) => id == name.id;
    SwappedValue(o, w, []);
    assert Eval(t, w, []).0 && !Eval(Optimise(t, level), w, []).0;
  }
}
