/** do_arm_swaps and its helpers as they run on linked nodes (find/tree.c). */
module ArmSwapHeap {
  import opened PredTree
  import opened PredHeap
  import T = TreeOpt
  import A = ArmSwap

  /** The expression a shape stands for, with the success rates as they are now. */
  ghost function Rated(s: Shape): (e: Expr)
    reads Nodes(s)`rate
    ensures e.Nil? <==> s.Nil?
  {
    if s.Nil? then Nil else Node(s.n.info.(rate := s.n.rate), Rated(s.left), Rated(s.right))
  }

  lemma {:induction false} RatedIs(s: Shape)
    ensures A.Rerated(Val(s), Rated(s)) && Effectful(Rated(s)) == Effectful(Val(s)) && A.WorstCost(Rated(s)) == A.WorstCost(Val(s))
  {
    if s.Node? { RatedIs(s.left); RatedIs(s.right); }
  }

  /** subtree_has_side_effects: the flags tell the truth about the primaries. */
  method SubtreeHasSideEffects(p: Predicate?, ghost s: Shape) returns (b: bool)
    requires Linked(p, s)
    ensures b == Effectful(Val(s))
    decreases s
  {
    if p == null {
      b := false;
    } else {
      InHeap(s.right);
      b := p.sideEffects;
      if !b { b := SubtreeHasSideEffects(p.left, s.left); }
      if !b { b := SubtreeHasSideEffects(p.right, s.right); }
    }
  }

  /** worst_cost */
  method WorstCost(p: Predicate?, ghost s: Shape) returns (c: nat)
    requires Linked(p, s)
    ensures c == A.WorstCost(Val(s))
    decreases s
  {
    if p == null {
      c := 0;
    } else {
      InHeap(s.right);
      var l := WorstCost(p.left, s.left);
      var r := WorstCost(p.right, s.right);
      c := if l > r then l else r;
      if c < p.info.cost { c := p.info.cost; }
    }
  }

  lemma LinkedNode(p: Predicate?, s: Shape)
    requires Linked(p, s)
    ensures p == null <==> s.Nil?
    ensures p != null ==>
      && s.n == p && Linked(p.left, s.left) && Linked(p.right, s.right)
      && Rated(s) == Node(p.info.(rate := p.rate), Rated(s.left), Rated(s.right))
    ensures Rated(s).Nil? <==> s.Nil?
  {
  }

  /** The tests of consider_arm_swap on two arms. */
  method CompareArms(prec: nat, l: Predicate, r: Predicate, ghost sl: Shape, ghost sr: Shape) returns (want: bool)
    requires Linked(l, sl) && Linked(r, sr)
    ensures want ==
      (!Effectful(old(Rated(sl))) && !Effectful(old(Rated(sr))) &&
       var lc, rc := A.WorstCost(old(Rated(sl))), A.WorstCost(old(Rated(sr)));
       if lc == rc then
         if prec == OR_PREC then old(r.rate < l.rate) else if prec == AND_PREC then old(r.rate > l.rate) else false
       else lc > rc)
  {
    hide Linked, Effectful, Rated, Val, A.WorstCost, A.Rerated;
    want := false;
    InHeap(sl); InHeap(sr);
    RatedIs(sl);
    RatedIs(sr);
    var lfx := SubtreeHasSideEffects(l, sl);
    var rfx := SubtreeHasSideEffects(r, sr);
    if !lfx && !rfx {
      var lc := WorstCost(l, sl);
      var rc := WorstCost(r, sr);
      if lc == rc {
        if prec == OR_PREC {
          want := r.rate < l.rate;
        } else if prec == AND_PREC {
          want := r.rate > l.rate;
        }
      } else {
        want := lc > rc;
      }
    }
  }

  method Decide(p: Predicate, ghost s: Shape) returns (want: bool)
    requires Linked(p, s) && s.Node?
    ensures want == A.WantSwap(old(Rated(s)))
  {
    hide Linked, Effectful, Rated, Val, A.WorstCost;
    want := false;
    InHeap(s);
    LinkedNode(p, s);
    LinkedNode(p.left, s.left);
    LinkedNode(p.right, s.right);
    if p.left != null { LinkedNode(p.left.right, s.left.right); }
    if p.info.kind == BiOp && p.left != null && p.right != null && p.left.right != null {
      want := CompareArms(p.info.prec, p.left.right, p.right, s.left.right, s.right);
    }
  }

  ghost function Swapped(s: Shape): Shape
    requires s.Node? && s.left.Node?
  {
    Node(s.n, Node(s.left.n, s.left.left, s.right), s.left.right)
  }

  lemma SwappedFacts(s: Shape)
    requires s.Node? && s.left.Node? && Distinct(s)
    ensures Distinct(Swapped(s)) && Nodes(Swapped(s)) == Nodes(s)
    ensures Rated(Swapped(s)) == A.SwapTop(Rated(s))
  {
    assert Nodes(Swapped(s).left) == {s.left.n} + Nodes(s.left.left) + Nodes(s.right);
    assert Nodes(s.left) == {s.left.n} + Nodes(s.left.left) + Nodes(s.left.right);
  }

  /** An exchange is wanted only of two arms without side effects under an operator. */
  lemma WantedArms(s: Shape)
    requires s.Node? && A.WantSwap(Rated(s))
    ensures s.left.Node? && s.n.info.kind == BiOp && !Effectful(Val(s.left.right)) && !Effectful(Val(s.right))
  {
    var v := Rated(s);
    assert v.left == Rated(s.left) && v.right == Rated(s.right) && v.left.right == Rated(s.left.right);
    RatedIs(s.right);
    RatedIs(s.left.right);
  }

  /** consider_arm_swap with perform_arm_swap. */
  method ConsiderArmSwap(p: Predicate, ghost s: Shape) returns (swapped: bool, ghost s': Shape)
    requires Linked(p, s) && Distinct(s) && s.Node?
    modifies Nodes(s)`right
    ensures swapped == A.WantSwap(old(Rated(s)))
    ensures Linked(p, s') && Distinct(s') && Nodes(s') == Nodes(s)
    ensures swapped ==> Rated(s') == A.SwapTop(old(Rated(s)))
    ensures Rated(s) == old(Rated(s))
    ensures !swapped ==> s' == s
    ensures var t := old(Rated(s));
      A.PureArms(t) ==> A.WorstCost(Rated(s').right) == A.Larger(A.WorstCost(t.left.right), A.WorstCost(t.right))
  {
    hide Linked, Effectful, Rated, Val, A.WantSwap, A.WorstCost, A.PureArms, Distinct;
    InHeap(s);
    if A.PureArms(Rated(s)) { A.CostlierArm(Rated(s)); }
    swapped := Decide(p, s);
    s' := s;
    if swapped {
      WantedArms(s);
      LinkedNode(p, s);
      s' := Swapped(s);
      SwappedFacts(s);
      PerformArmSwap(p, s);
    }
  }

  method PerformArmSwap(p: Predicate, ghost s: Shape)
    requires Linked(p, s) && Distinct(s) && s.Node? && s.left.Node?
    requires !Effectful(Val(s.left.right)) && !Effectful(Val(s.right)) && p.info.kind == BiOp
    modifies p`right, s.left.n`right
    ensures Linked(p, Swapped(s))
  {
    var q := p.left;
    assert q == s.left.n && q != p && q !in Nodes(s.right) && q !in Nodes(s.left.left) && q !in Nodes(s.left.right);
    assert p !in Nodes(s.right) && p !in Nodes(s.left.left) && p !in Nodes(s.left.right);
    var tmp := q.right;
    q.right := p.right;
    p.right := tmp;
    assert Linked(q.left, s.left.left) && Linked(q.right, s.right) && Linked(p.right, s.left.right);
    ghost var inner := Swapped(s).left;
    assert Effectful(Val(inner)) == Effectful(Val(s.left));
    assert Linked(q, inner);
    assert Effectful(Val(Swapped(s))) == Effectful(Val(s));
  }

  /** do_arm_swaps: never reports a swap to its caller, and computes A.ArmSwaps. */
  method DoArmSwaps(p: Predicate?, ghost s: Shape) returns (swapped: bool, ghost s': Shape)
    requires Linked(p, s) && Distinct(s)
    modifies Nodes(s)`right
    ensures !swapped
    ensures Linked(p, s') && Distinct(s') && Nodes(s') == Nodes(s)
    ensures Rated(s') == A.ArmSwaps(old(Rated(s)))
    ensures var t := old(Rated(s));
      A.PureArms(t) ==>
        && Rated(s').Node?
        && A.WorstCost(Rated(s').right) == A.Larger(A.WorstCost(t.left.right), A.WorstCost(t.right))
    ensures Normal(old(Rated(s))) ==> A.CheapestFirstAll(Rated(s'))
    decreases A.Size(Rated(s))
  {
    hide Linked, Effectful, Rated, Val, Distinct, Nodes, Normal;
    hide A.ArmSwaps, A.WantSwap, A.SwapTop, A.PureArms, A.WorstCost, A.CheapestFirstAll;
    if A.PureArms(Rated(s)) { A.SwapsCostlierLast(Rated(s)); }
    if Normal(Rated(s)) { A.SwapsCheapestFirst(Rated(s)); }
    s' := s;
    swapped := false;
    InHeap(s);
    LinkedNode(p, s);
    A.SwapsNothing();
    ghost var v := Rated(s);
    if p != null {
      swapped := true;
      while swapped
        invariant Linked(p, s') && Distinct(s') && Nodes(s') == Nodes(s) && v == Rated(s)
        invariant swapped ==> A.ArmSwaps(Rated(s')) == A.ArmSwaps(v) && A.Size(Rated(s')) == A.Size(v)
        invariant !swapped ==> Rated(s') == A.ArmSwaps(v)
        decreases swapped, swapped && A.WantSwap(Rated(s'))
      {
        swapped := false;
        InHeap(s');
        LinkedNode(p, s');
        ghost var t, now := s', Rated(s');
        var here;
        here, s' := ConsiderArmSwap(p, t);
        if here {
          A.SwapSettles(now);
          SwapKeeps(now);
          swapped := true;
        } else {
          swapped, s' := SwapBelow(p, t);
        }
      }
    }
  }

  lemma SwapKeeps(t: Expr)
    requires A.WantSwap(t)
    ensures A.Size(A.SwapTop(t)) == A.Size(t) && A.ArmSwaps(A.SwapTop(t)) == A.ArmSwaps(t)
  {
    A.SwapSettles(t);
    assert A.Size(A.SwapTop(t).left) == 1 + A.Size(t.left.left) + A.Size(t.right);
  }

  lemma SwapsArms(t: Expr)
    requires t.Node? && !A.WantSwap(t)
    ensures A.ArmSwaps(t) == Node(t.n, A.ArmSwaps(t.left), A.ArmSwaps(t.right))
    ensures A.Size(t.left) < A.Size(t) && A.Size(t.right) < A.Size(t)
  {
  }

  /** The parts of a tree, and what puts them together again. */
  lemma Parts(p: Predicate, s: Shape)
    requires Linked(p, s) && Distinct(s) && s.Node?
    ensures s.n == p && Distinct(s.left) && Distinct(s.right) && Nodes(s) == {p} + Nodes(s.left) + Nodes(s.right)
    ensures p !in Nodes(s.left) && p !in Nodes(s.right) && Nodes(s.left) !! Nodes(s.right)
    ensures p.info.kind == Primary ==> p.sideEffects == p.info.effect
    ensures p.sideEffects ==> Effectful(Rated(s))
  {
    RatedIs(s);
  }

  lemma Whole(p: Predicate, l: Shape, r: Shape)
    requires Linked(p.left, l) && Linked(p.right, r) && Distinct(l) && Distinct(r)
    requires p !in Nodes(l) && p !in Nodes(r) && Nodes(l) !! Nodes(r)
    requires p.info.kind == Primary ==> p.sideEffects == p.info.effect
    requires p.sideEffects ==> Effectful(Node(p.info.(rate := p.rate), Rated(l), Rated(r)))
    ensures var s := Node(p, l, r);
      && Linked(p, s) && Distinct(s) && Nodes(s) == {p} + Nodes(l) + Nodes(r)
      && Rated(s) == Node(p.info.(rate := p.rate), Rated(l), Rated(r))
  {
    RatedIs(Node(p, l, r));
  }

  method SwapBelow(p: Predicate, ghost t: Shape) returns (swapped: bool, ghost s': Shape)
    requires Linked(p, t) && Distinct(t) && t.Node? && !A.WantSwap(Rated(t))
    modifies Nodes(t)`right
    ensures !swapped && Linked(p, s') && Distinct(s') && Nodes(s') == Nodes(t)
    ensures Rated(s') == A.ArmSwaps(old(Rated(t)))
    decreases A.Size(Rated(t)), 0
  {
    hide Linked, Effectful, Rated, Val, Distinct, Nodes, A.ArmSwaps, A.WantSwap;
    ghost var v := Rated(t);
    InHeap(t.left); InHeap(t.right);
    LinkedNode(p, t);
    Parts(p, t);
    SwapsArms(v);
    A.SwapsEffect(v);
    ghost var l, r := t.left, t.right;
    swapped, l := DoArmSwaps(p.left, t.left);
    assert Linked(p.right, t.right);
    if !swapped {
      InHeap(l);
      swapped, r := DoArmSwaps(p.right, t.right);
      assert Linked(p.left, l);
    }
    s' := Node(p, l, r);
    Whole(p, l, r);
  }

  /** Rates are derived anew; what they are is left open. */
  method DeriveRates(p: Predicate?, ghost s: Shape)
    requires Linked(p, s) && Distinct(s)
    modifies Nodes(s)`rate
    ensures Linked(p, s)
    decreases s
  {
    if p != null {
      InHeap(s);
      DeriveRates(p.right, s.right);
      DeriveRates(p.left, s.left);
      p.rate := *;
    }
  }
}
