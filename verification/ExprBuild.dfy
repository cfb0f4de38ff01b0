/** get_expr, scan_rest and build_expression_tree as they run (find/tree.c): the tree is made of
    the input nodes themselves, by setting their pred_left and pred_right. */
module ExprBuild {
  import opened PredTree
  import opened PredHeap
  import P = ExprParser
  import T = TreeOpt
  import A = ArmSwap
  import S = ArmSwapHeap
  import E = ArmSwapExact

  /** The input list that starts at `n`, following pred_next. */
  ghost predicate Input(n: Predicate?, toks: seq<Predicate>) {
    if toks == [] then n == null else n == toks[0] && Input(n.next, toks[1..])
  }

  ghost function Infos(toks: seq<Predicate>): (r: seq<Info>)
    ensures |r| == |toks| && forall i :: 0 <= i < |toks| ==> r[i] == toks[i].info
  {
    seq(|toks|, i requires 0 <= i < |toks| => toks[i].info)
  }

  ghost function Elems(toks: seq<Predicate>): set<Predicate> {
    set x | x in toks
  }

  ghost predicate NoDup(toks: seq<Predicate>) {
    toks != [] ==> toks[0] !in toks[1..] && NoDup(toks[1..])
  }

  /** Nodes as get_new_pred leaves them: unlinked, and only primaries with side effects. */
  ghost predicate Unlinked(toks: seq<Predicate>)
    reads Elems(toks)
  {
    forall x :: x in toks ==> x.left == null && x.right == null && x.sideEffects == x.info.effect && P.Token(x.info)
  }

  ghost predicate Pending(n: Predicate?, toks: seq<Predicate>)
    reads Elems(toks)
  {
    Input(n, toks) && NoDup(toks) && Unlinked(toks)
  }

  lemma PendingTail(n: Predicate?, toks: seq<Predicate>)
    requires Pending(n, toks) && n != null
    ensures toks != [] && toks[0] == n && Pending(n.next, toks[1..]) && n !in Elems(toks[1..])
    ensures Elems(toks) == {n} + Elems(toks[1..]) && Infos(toks)[1..] == Infos(toks[1..])
    ensures P.Token(n.info) && n.left == null && n.right == null && n.sideEffects == n.info.effect && Infos(toks)[0] == n.info
  {
    assert toks == [toks[0]] + toks[1..];
    assert forall x :: x in toks[1..] ==> x in toks;
  }

  /** A node over two linked trees. */
  lemma Join(n: Predicate, l: Predicate?, left: Shape, r: Predicate?, right: Shape)
    requires n.left == l && n.right == r && n.sideEffects == n.info.effect && P.Token(n.info)
    requires Raw(l, left, null) && Raw(r, right, null) && Distinct(left) && Distinct(right)
    requires n !in Nodes(left) && n !in Nodes(right) && Nodes(left) !! Nodes(right)
    ensures
      var s := Node(n, left, right);
      && Raw(n, s, null) && Distinct(s) && Nodes(s) == {n} + Nodes(left) + Nodes(right)
      && Val(s) == Node(n.info, Val(left), Val(right))
  {}

  /** Give `n` its right arm. */
  method LinkRight(n: Predicate, right: Predicate?, ghost left: Shape, ghost r: Shape, ghost input: Predicate?, ghost rest: seq<Predicate>)
    requires n.sideEffects == n.info.effect && P.Token(n.info)
    requires Raw(n.left, left, null) && Raw(right, r, null) && Distinct(left) && Distinct(r) && Pending(input, rest)
    requires n !in Nodes(left) && n !in Nodes(r) && Nodes(left) !! Nodes(r) && n !in Elems(rest)
    modifies n
    ensures
      var s := Node(n, left, r);
      && Raw(n, s, null) && Distinct(s) && Nodes(s) == {n} + Nodes(left) + Nodes(r)
      && Val(s) == Node(n.info, Val(left), Val(r))
    ensures Pending(input, rest)
  {
    hide Pending, Nodes, Raw, Distinct, Elems, Val;
    n.right := right;
    assert Raw(n.left, left, null) && Raw(right, r, null) && Pending(input, rest);
    Join(n, n.left, left, right, r);
  }

  /** The result of one parsing call: a linked tree over the consumed nodes, and the rest. */
  ghost predicate Built(ok: bool, node: Predicate?, s: Shape, input: Predicate?, rest: seq<Predicate>, used: set<Predicate>, r: P.Parse)
    reads Nodes(s), Elems(rest)
  {
    match r
    case Fail => !ok
    case Done(t, tail) =>
      && ok && Raw(node, s, null) && Distinct(s) && s.Node? && Val(s) == t && Nodes(s) <= used
      && Pending(input, rest) && Infos(rest) == tail && Nodes(s) !! Elems(rest)
  }

  /** get_expr */
  method GetExpr(input: Predicate?, prevPrec: nat, ghost toks: seq<Predicate>)
    returns (ok: bool, node: Predicate?, input': Predicate?, ghost s: Shape, ghost rest: seq<Predicate>)
    requires Pending(input, toks)
    modifies Elems(toks)
    ensures Built(ok, node, s, input', rest, Elems(toks), P.GetExpr(Infos(toks), prevPrec))
    ensures ok ==> Elems(rest) <= Elems(toks) && |rest| < |toks|
    decreases |toks|, 3
  {
    ok, node, input', s, rest := false, null, null, Nil, [];
    if input == null {
      return;
    }
    PendingTail(input, toks);
    ghost var tail := toks[1..];
    if input.info.kind == Primary {
      ok, node, input', s, rest := Continue(input, input.next, prevPrec, Node(input, Nil, Nil), tail);
    } else if input.info.kind == UniOp {
      ok, node, input', s, rest := Negated(input, prevPrec, toks);
    } else if input.info.kind == OpenParen {
      ok, node, input', s, rest := Parenthesised(input, prevPrec, toks);
    }
  }

  method Negated(input: Predicate, prevPrec: nat, ghost toks: seq<Predicate>)
    returns (ok: bool, node: Predicate?, input': Predicate?, ghost s: Shape, ghost rest: seq<Predicate>)
    requires Pending(input, toks) && input.info.kind == UniOp
    modifies Elems(toks)
    ensures Built(ok, node, s, input', rest, Elems(toks), P.GetExpr(Infos(toks), prevPrec))
    ensures ok ==> Elems(rest) <= Elems(toks) && |rest| < |toks|
    decreases |toks|, 2
  {
    PendingTail(input, toks);
    ghost var tail := toks[1..];
    ok, node, input', s, rest := GetExpr(input.next, NEGATE_PREC, tail);
    if ok {
      ghost var inner, mid := s, rest;
      ghost var top: Shape := Node(input, Nil, inner);
      hide Pending, Nodes, Raw, Distinct, P.Continue, P.ScanRest, Elems;
      LinkRight(input, node, Nil, inner, input', mid);
      ok, node, input', s, rest := Continue(input, input', prevPrec, top, mid);
    }
  }

  method Parenthesised(input: Predicate, prevPrec: nat, ghost toks: seq<Predicate>)
    returns (ok: bool, node: Predicate?, input': Predicate?, ghost s: Shape, ghost rest: seq<Predicate>)
    requires Pending(input, toks) && input.info.kind == OpenParen
    modifies Elems(toks)
    ensures Built(ok, node, s, input', rest, Elems(toks), P.GetExpr(Infos(toks), prevPrec))
    ensures ok ==> Elems(rest) <= Elems(toks) && |rest| < |toks|
    decreases |toks|, 2
  {
    PendingTail(input, toks);
    ghost var tail := toks[1..];
    ok, node, input', s, rest := false, null, null, Nil, [];
    PendingEnds(input.next, tail);
    ghost var all := Infos(toks);
    assert all[1..] == Infos(tail) && (tail != [] ==> all[1] == input.next.info);
    hide Pending, Nodes, Raw, Distinct, Infos, Elems, P.Continue, P.ScanRest, P.GetExpr;
    if input.next == null || input.next.info.artificial || input.next.info.kind == CloseParen {
      P.StepOpenFail(all, prevPrec);
      return;
    }
    ok, node, input', s, rest := GetExpr(input.next, NO_PREC, tail);
    if ok {
      PendingEnds(input', rest);
      if input' == null || input'.info.kind != CloseParen {
        ok := false;
        P.StepOpenFail(all, prevPrec);
      } else {
        P.StepOpen(all, prevPrec, Val(s), Infos(rest));
        ok, node, input', s, rest := Continue(node, input'.next, prevPrec, s, rest[1..]);
      }
    } else {
      P.StepOpenFail(all, prevPrec);
    }
  }

  lemma PendingEnds(n: Predicate?, toks: seq<Predicate>)
    requires Pending(n, toks)
    ensures n == null <==> toks == []
    ensures toks != [] ==> toks[0] == n && Pending(n.next, toks[1..]) && Elems(toks[1..]) <= Elems(toks) && Infos(toks)[1..] == Infos(toks[1..])
  {
    if n != null { PendingTail(n, toks); }
  }

  /** The end of get_expr. */
  method Continue(operand: Predicate?, input: Predicate?, prevPrec: nat, ghost t: Shape, ghost toks: seq<Predicate>)
    returns (ok: bool, node: Predicate?, input': Predicate?, ghost s: Shape, ghost rest: seq<Predicate>)
    requires Raw(operand, t, null) && Distinct(t) && t.Node? && Pending(input, toks) && Nodes(t) !! Elems(toks)
    modifies Elems(toks)
    ensures Built(ok, node, s, input', rest, Nodes(t) + Elems(toks), P.Continue(Val(t), Infos(toks), prevPrec))
    ensures ok ==> Elems(rest) <= Elems(toks) && |rest| <= |toks|
    decreases |toks|, 2
  {
    ok, node, input', s, rest := true, operand, input, t, toks;
    if input != null {
      PendingTail(input, toks);
      if input.info.prec > prevPrec {
        if input.info.kind == CloseParen {
          ok := false;
        } else {
          ok, node, input', s, rest := ScanRest(operand, input, prevPrec, t, toks);
        }
      }
    }
  }

  /** scan_rest */
  method ScanRest(head: Predicate?, input: Predicate?, prevPrec: nat, ghost t: Shape, ghost toks: seq<Predicate>)
    returns (ok: bool, node: Predicate?, input': Predicate?, ghost s: Shape, ghost rest: seq<Predicate>)
    requires Raw(head, t, null) && Distinct(t) && t.Node? && Pending(input, toks) && Nodes(t) !! Elems(toks)
    modifies Elems(toks)
    ensures Built(ok, node, s, input', rest, Nodes(t) + Elems(toks), P.ScanRest(Val(t), Infos(toks), prevPrec))
    ensures ok ==> Elems(rest) <= Elems(toks) && |rest| <= |toks|
    decreases |toks|, 1
  {
    ok, node, input', s, rest := true, head, input, t, toks;
    while input' != null && input'.info.prec > prevPrec && input'.info.kind == BiOp
      invariant ok && Raw(node, s, null) && Distinct(s) && s.Node? && Pending(input', rest) && Nodes(s) !! Elems(rest)
      invariant Nodes(s) <= Nodes(t) + Elems(toks) && Elems(rest) <= Elems(toks) && |rest| <= |toks|
      invariant P.ScanRest(Val(s), Infos(rest), prevPrec) == P.ScanRest(Val(t), Infos(toks), prevPrec)
      decreases |rest|
    {
      PendingTail(input', rest);
      ok, node, input', s, rest := ScanOperator(node, input', prevPrec, s, rest);
      if !ok {
        return;
      }
    }
    if input' != null {
      PendingTail(input', rest);
      if input'.info.prec > prevPrec && input'.info.kind != CloseParen {
        ok := false;
      }
    }
  }

  /** The BI_OP case of scan_rest. */
  method ScanOperator(tree: Predicate?, op: Predicate, prevPrec: nat, ghost t: Shape, ghost toks: seq<Predicate>)
    returns (ok: bool, node: Predicate?, input': Predicate?, ghost s: Shape, ghost rest: seq<Predicate>)
    requires Raw(tree, t, null) && Distinct(t) && t.Node? && Pending(op, toks) && Nodes(t) !! Elems(toks)
    requires op.info.kind == BiOp && op.info.prec > prevPrec
    modifies Elems(toks)
    ensures !ok ==> P.ScanRest(Val(t), Infos(toks), prevPrec).Fail?
    ensures ok ==> Raw(node, s, null) && Distinct(s) && s.Node? && Pending(input', rest) && Nodes(s) !! Elems(rest)
    ensures ok ==> Nodes(s) <= Nodes(t) + Elems(toks) && Elems(rest) <= Elems(toks) && |rest| < |toks|
    ensures ok ==> P.ScanRest(Val(s), Infos(rest), prevPrec) == P.ScanRest(Val(t), Infos(toks), prevPrec)
    decreases |toks|, 0
  {
    PendingTail(op, toks);
    ghost var tail := toks[1..];
    InHeap(t);
    hide *;
    op.left := tree;
    assert Pending(op.next, tail) && Raw(tree, t, null);
    var right;
    ghost var r;
    ok, right, input', r, rest := GetExpr(op.next, op.info.prec, tail);
    BuiltMeans(ok, right, r, input', rest, Elems(tail), P.GetExpr(Infos(tail), op.info.prec));
    node := op;
    s := Node(op, t, r);
    if ok {
      P.StepScan(Val(t), Infos(toks), prevPrec, Val(r), Infos(rest));
      LinkRight(op, right, t, r, input', rest);
    } else {
      P.StepScanFail(Val(t), Infos(toks), prevPrec);
    }
  }

  lemma BuiltMeans(ok: bool, node: Predicate?, s: Shape, input: Predicate?, rest: seq<Predicate>, used: set<Predicate>, r: P.Parse)
    requires Built(ok, node, s, input, rest, used, r)
    ensures ok <==> r.Done?
    ensures ok ==> Raw(node, s, null) && Distinct(s) && s.Node? && r == P.Done(Val(s), Infos(rest)) && Nodes(s) <= used
    ensures ok ==> Pending(input, rest) && Nodes(s) !! Elems(rest)
  {}

  /** Every token is one the parser may see; the kinds and precedences never change. */
  ghost predicate Tokens(toks: seq<Predicate>) {
    forall x :: x in toks ==> P.Token(x.info)
  }

  lemma TokensParsed(toks: seq<Predicate>, t: Expr)
    requires Tokens(toks) && P.ParseAll(Infos(toks)) == P.Done(t, [])
    ensures Parsed(t)
  {
    forall x | x in Infos(toks) ensures P.Token(x) {}
    P.ParsedTree(Infos(toks), NO_PREC);
  }

  /** What the heap holds in the end, when the parser delivered `t` and `u` is the tree between the two passes with the
      success rates as they had become. */
  ghost predicate Compiled(t: Expr, level: nat, u: Expr, v: Expr, rated: Expr) {
    && Parsed(t) && A.Rerated(T.OptExpr(t, level).0, u) && rated == A.ArmSwaps(u) && A.Rerated(v, rated) && Normal(v)
    && (A.CommaQuiet(u) || A.CommaFree(t) ==> SameMeaning(v, t))
    && (E.OneEach(t) ==> (SameMeaning(v, t) <==> A.CommaQuiet(u)))
    && T.PlacedAll(T.OptExpr(t, level).0, level) && A.CheapestFirstAll(rated)
  }

  /** The two passes over the tree the parser built. */
  method Compile(tree: Predicate, level: nat, ghost s0: Shape) returns (root: Predicate?, ghost s: Shape, ghost u: Expr)
    requires Raw(tree, s0, null) && Distinct(s0) && s0.Node? && Parsed(Val(s0))
    modifies Nodes(s0)
    ensures Linked(root, s) && Distinct(s) && Compiled(Val(s0), level, u, Val(s), S.Rated(s))
  {
    hide *;
    var fx, swapped;
    root, fx, s := OptExpr(tree, level, s0);
    ListedIsLinked(root, s);
    S.DeriveRates(root, s);
    S.RatedIs(s);
    u := S.Rated(s);
    swapped, s := S.DoArmSwaps(root, s);
    S.RatedIs(s);
    OptimisedTree(Val(s0), level, u, Val(s), S.Rated(s));
  }

  lemma Accepted(toks: seq<Info>)
    ensures P.Operators(toks) ==> (P.ParseAll(toks).Done? <==> P.WellFormed(toks, false, 0))
    ensures P.ParseAll(toks).Done? ==> P.Flat(P.ParseAll(toks).tree) == P.Strip(toks)
  {
    hide P.ParseAll;
    if P.Operators(toks) { P.AcceptedIff(toks); }
    if P.ParseAll(toks).Done? { P.ParsedTokens(toks); }
  }

  /** The last part of build_expression_tree: parse, refuse left-over input, opt_expr, do_arm_swaps.
      The tree in the heap means what the user's expression means. */
  method BuildExpressionTree(predicates: Predicate?, level: nat, ghost toks: seq<Predicate>)
    returns (ok: bool, root: Predicate?, ghost s: Shape, ghost u: Expr)
    requires Pending(predicates, toks)
    modifies Elems(toks)
    ensures ok <==> P.ParseAll(Infos(toks)).Done?
    ensures P.Operators(Infos(toks)) ==> (ok <==> P.WellFormed(Infos(toks), false, 0))
    ensures ok ==> P.Flat(P.ParseAll(Infos(toks)).tree) == P.Strip(Infos(toks))
    ensures ok ==> Linked(root, s) && Distinct(s) && Compiled(P.ParseAll(Infos(toks)).tree, level, u, Val(s), S.Rated(s))
  {
    hide Compiled, P.WellFormed, P.Flat, P.Strip, P.Operators;
    Accepted(Infos(toks));
    u := Nil;
    var rest;
    ghost var tail;
    assert Tokens(toks);
    ok, root, rest, s, tail := GetExpr(predicates, NO_PREC, toks);
    if ok && rest != null {
      PendingEnds(rest, tail);
      ok := false;
    } else if ok {
      PendingEnds(rest, tail);
      assert P.ParseAll(Infos(toks)) == P.Done(Val(s), []);
      TokensParsed(toks, Val(s));
      root, s, u := Compile(root, level, s);
    }
  }

  lemma OptimisedTree(t: Expr, level: nat, u: Expr, v: Expr, rated: Expr)
    requires Parsed(t) && A.Rerated(T.OptExpr(t, level).0, u) && rated == A.ArmSwaps(u) && A.Rerated(v, rated)
    ensures Compiled(t, level, u, v, rated)
  {
    hide A.ArmSwaps, A.CommaQuiet, A.CommaFree, E.OneEach, T.OptExpr, Normal, A.Rerated, T.PlacedAll, A.CheapestFirstAll;
    var o := T.OptExpr(t, level).0;
    var w: World := (id, h) => true;
    T.OptNormal(t, level);
    A.RerateMeaning(o, u, w, []);
    A.SwapsNormal(u);
    T.OptOrdered(t, level);
    A.SwapsCheapestFirst(u);
    A.RerateBack(v, rated);
    A.RerateMeaning(rated, v, w, []);
    if A.CommaFree(t) { A.OptimiseCommaFree(t, level, u); }
    if A.CommaQuiet(u) { A.OptimiseMeaning(t, level, u); }
    if E.OneEach(t) { E.OptimiseMeaningIff(t, level, u); }
    forall w: World, h: History
      ensures Eval(v, w, h) == Eval(rated, w, h)
    {
      A.RerateMeaning(rated, v, w, h);
    }
  }
}
