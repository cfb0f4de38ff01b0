/** Exactly where do_arm_swaps (find/tree.c) keeps the meaning of a tree in which no primary occurs twice. Where an
    exchange under a comma could be noticed, a world is built in which it is. */
module ArmSwapExact {
  import opened PredTree
  import opened TreeOpt
  import opened ArmSwap

  // ----- Trees of different primaries -----

  function Ids(t: Expr): set<int> {
    if t.Nil? then {} else (if t.n.kind == Primary then {t.n.id} else {}) + Ids(t.left) + Ids(t.right)
  }

  /** No id occurs in both subtrees of a node. */
  predicate Apart(t: Expr) {
    t.Node? ==> Ids(t.left) !! Ids(t.right) && Apart(t.left) && Apart(t.right)
  }

  /** Every primary occurs once, with an id of its own. */
  ghost predicate OneEach(t: Expr) {
    && (forall p :: Copies(t, p) <= 1)
    && (forall p, q :: Copies(t, p) > 0 && Copies(t, q) > 0 && p.id == q.id ==> p == q)
  }

  lemma {:induction false} IdOf(t: Expr, id: int) returns (p: Info)
    requires id in Ids(t)
    ensures Copies(t, p) > 0 && p.id == id
  {
    if t.n.kind == Primary && t.n.id == id { p := t.n; }
    else if id in Ids(t.left) { p := IdOf(t.left, id); }
    else { p := IdOf(t.right, id); }
  }

  lemma {:induction false} OneEachIsApart(t: Expr)
    requires OneEach(t)
    ensures Apart(t)
  {
    if t.Node? {
      forall p ensures Copies(t.left, p) <= Copies(t, p) && Copies(t.right, p) <= Copies(t, p) {}
      assert OneEach(t.left) && OneEach(t.right);
      OneEachIsApart(t.left);
      OneEachIsApart(t.right);
      forall id | id in Ids(t.left)
        ensures id !in Ids(t.right)
      {
        if id in Ids(t.right) {
          var p := IdOf(t.left, id);
          var q := IdOf(t.right, id);
          assert false;
        }
      }
    }
  }

  // ----- Worlds that forget -----

  /** The world in which just the primaries of `yes` are true, whatever has happened. */
  function Flat(yes: set<int>): World { (id, h) => id in yes }

  /** Whether the right arm is evaluated behind a left arm of this value. */
  predicate Goes(prec: nat, left: bool) { if prec == AND_PREC then left else if prec == OR_PREC then !left else true }

  function Truth(t: Expr, yes: set<int>): bool
    requires Shaped(t)
  {
    match t.n.kind
    case Primary => t.n.id in yes
    case UniOp => !Truth(t.right, yes)
    case BiOp =>
      if t.left.Nil? || Goes(t.n.prec, Truth(t.left, yes)) then Truth(t.right, yes) else Truth(t.left, yes)
  }

  /** The side effects, in order. */
  function Trace(t: Expr, yes: set<int>): seq<int>
    requires Shaped(t)
  {
    match t.n.kind
    case Primary => if t.n.effect then [t.n.id] else []
    case UniOp => Trace(t.right, yes)
    case BiOp =>
      if t.left.Nil? then Trace(t.right, yes)
      else Trace(t.left, yes) + if Goes(t.n.prec, Truth(t.left, yes)) then Trace(t.right, yes) else []
  }

  lemma {:induction false} FlatEval(t: Expr, yes: set<int>, h: History)
    requires Shaped(t)
    ensures Eval(t, Flat(yes), h) == (Truth(t, yes), h + Trace(t, yes))
  {
    match t.n.kind
    case Primary => assert h + [] == h;
    case UniOp => FlatEval(t.right, yes, h);
    case BiOp =>
      if t.left.Nil? {
        FlatEval(t.right, yes, h);
      } else {
        FlatEval(t.left, yes, h);
        FlatEval(t.right, yes, h + Trace(t.left, yes));
        assert h + Trace(t.left, yes) + Trace(t.right, yes) == h + (Trace(t.left, yes) + Trace(t.right, yes));
        assert Trace(t.left, yes) + [] == Trace(t.left, yes);
      }
  }

  predicate Agree(a: set<int>, b: set<int>, ids: set<int>) { forall id :: id in ids ==> (id in a <==> id in b) }

  /** Only the primaries of the tree matter. */
  lemma {:induction false} OnlyIds(t: Expr, a: set<int>, b: set<int>)
    requires Shaped(t) && Agree(a, b, Ids(t))
    ensures Truth(t, a) == Truth(t, b) && Trace(t, a) == Trace(t, b)
  {
    match t.n.kind
    case Primary =>
    case UniOp => OnlyIds(t.right, a, b);
    case BiOp =>
      if t.left.Node? { OnlyIds(t.left, a, b); }
      OnlyIds(t.right, a, b);
  }

  lemma {:induction false} TraceIds(t: Expr, yes: set<int>)
    requires Shaped(t)
    ensures forall id :: id in Trace(t, yes) ==> id in Ids(t)
  {
    match t.n.kind
    case Primary =>
    case UniOp => TraceIds(t.right, yes);
    case BiOp =>
      if t.left.Node? { TraceIds(t.left, yes); }
      TraceIds(t.right, yes);
  }

  /** As `a` says in `ids`, and as `b` says elsewhere. */
  function Mix(a: set<int>, b: set<int>, ids: set<int>): set<int> { (a * ids) + (b - ids) }

  lemma Mixed(t: Expr, a: set<int>, b: set<int>, ids: set<int>)
    requires Shaped(t)
    ensures Ids(t) <= ids ==> Truth(t, Mix(a, b, ids)) == Truth(t, a) && Trace(t, Mix(a, b, ids)) == Trace(t, a)
    ensures Ids(t) !! ids ==> Truth(t, Mix(a, b, ids)) == Truth(t, b) && Trace(t, Mix(a, b, ids)) == Trace(t, b)
  {
    if Ids(t) <= ids { OnlyIds(t, Mix(a, b, ids), a); }
    if Ids(t) !! ids { OnlyIds(t, Mix(a, b, ids), b); }
  }

  /** A tree of different primaries can have either value. */
  lemma {:induction false} CanBe(t: Expr, b: bool) returns (yes: set<int>)
    requires Shaped(t) && Apart(t)
    ensures Truth(t, yes) == b
  {
    match t.n.kind
    case Primary => yes := if b then {t.n.id} else {};
    case UniOp => yes := CanBe(t.right, !b);
    case BiOp =>
      var right := CanBe(t.right, b);
      if t.left.Nil? {
        yes := right;
      } else {
        var left := CanBe(t.left, t.n.prec == AND_PREC);
        yes := Mix(left, right, Ids(t.left));
        Mixed(t.left, left, right, Ids(t.left));
        Mixed(t.right, left, right, Ids(t.left));
      }
  }

  /** One with side effects can have one. */
  lemma {:induction false} CanAct(t: Expr) returns (yes: set<int>)
    requires Shaped(t) && Apart(t) && Effectful(t)
    ensures Trace(t, yes) != []
  {
    match t.n.kind
    case Primary => yes := {};
    case UniOp => yes := CanAct(t.right);
    case BiOp =>
      if Effectful(t.left) {
        yes := CanAct(t.left);
      } else {
        var right := CanAct(t.right);
        if t.left.Nil? {
          yes := right;
        } else {
          var left := CanBe(t.left, t.n.prec == AND_PREC);
          yes := Mix(left, right, Ids(t.left));
          Mixed(t.left, left, right, Ids(t.left));
          Mixed(t.right, left, right, Ids(t.left));
        }
      }
  }

  // ----- What do_arm_swaps does to such trees -----

  lemma {:induction false} SwapsIds(t: Expr)
    requires t.Node? ==> Normal(t)
    ensures Ids(ArmSwaps(t)) == Ids(t)
    ensures Apart(t) ==> Apart(ArmSwaps(t))
    decreases Size(t)
  {
    if t.Node? {
      var u := if WantSwap(t) then SwapTop(t) else t;
      if WantSwap(t) { SwapTopIds(t); }
      assert Size(u) == Size(t) by { if WantSwap(t) { assert Size(u.left) == 1 + Size(t.left.left) + Size(t.right); } }
      SwapsIds(u.left);
      SwapsIds(u.right);
    }
  }

  lemma SwapTopIds(t: Expr)
    requires WantSwap(t) && Normal(t)
    ensures Normal(SwapTop(t)) && Ids(SwapTop(t)) == Ids(t)
    ensures Apart(t) ==> Apart(SwapTop(t))
  {
    var inner: Expr := Node(t.left.n, t.left.left, t.right);
    assert Ids(inner) == Ids(t.left.left) + Ids(t.right);
    assert Ids(t.left) == Ids(t.left.left) + Ids(t.left.right);
    if Apart(t) {
      assert Apart(t.left) && Apart(inner);
    }
  }

  /** The two trees are told apart in this world; the value counts only if it is used. */
  predicate Differ(a: Expr, b: Expr, used: bool, yes: set<int>)
    requires Shaped(a) && Shaped(b)
  {
    Trace(a, yes) != Trace(b, yes) || (used && Truth(a, yes) != Truth(b, yes))
  }

  function Kept(s: seq<int>, ids: set<int>): seq<int> {
    if s == [] then [] else (if s[0] in ids then [s[0]] else []) + Kept(s[1..], ids)
  }

  lemma KeptFirst(s: seq<int>, ids: set<int>)
    requires s != []
    ensures Kept(s, ids) == if s[0] in ids then [s[0]] + Kept(s[1..], ids) else Kept(s[1..], ids)
  {
    assert [] + Kept(s[1..], ids) == Kept(s[1..], ids);
  }

  lemma {:induction false} KeptOf(a: seq<int>, b: seq<int>, ids: set<int>)
    requires (forall x :: x in a ==> x in ids) && (forall x :: x in b ==> x !in ids)
    ensures Kept(a + b, ids) == a
  {
    var s := a + b;
    if a != [] {
      KeptFirst(s, ids);
      assert s[1..] == a[1..] + b && s[0] == a[0] && [a[0]] + a[1..] == a;
      KeptOf(a[1..], b, ids);
    } else if b != [] {
      KeptFirst(s, ids);
      assert s[1..] == [] + b[1..] && s[0] == b[0];
      KeptOf([], b[1..], ids);
    }
  }

  /** Traces of trees without a common id can be told apart in what they make together. */
  lemma Joined(a: seq<int>, b: seq<int>, c: seq<int>, d: seq<int>, left: set<int>, right: set<int>)
    requires left !! right && a + b == c + d
    requires (forall x :: x in a ==> x in left) && (forall x :: x in c ==> x in left)
    requires (forall x :: x in b ==> x in right) && (forall x :: x in d ==> x in right)
    ensures a == c && b == d
  {
    KeptOf(a, b, left);
    KeptOf(c, d, left);
    assert b == (a + b)[|a|..] && d == (c + d)[|c|..];
  }

  // ----- Finding a world -----

  /** The arms have been done; `u` itself stays. */
  function Done(u: Expr): Expr
    requires u.Node?
  {
    Node(u.n, ArmSwaps(u.left), ArmSwaps(u.right))
  }

  lemma DoneNormal(u: Expr)
    requires Normal(u)
    ensures Normal(Done(u))
    ensures u.left.Node? ==> Normal(ArmSwaps(u.left)) && ArmSwaps(u.left).Node?
    ensures u.left.Nil? ==> ArmSwaps(u.left).Nil?
    ensures u.right.Node? ==> Normal(ArmSwaps(u.right))
  {
    hide WantSwap, ArmSwaps;
    SwapsNothing();
    if u.left.Node? { SwapsNormal(u.left); }
    if u.right.Node? { SwapsNormal(u.right); }
  }

  lemma {:induction false} PureIsQuiet(t: Expr)
    requires !Effectful(t)
    ensures Quiet(t, false)
  {
    if t.Node? { PureIsQuiet(t.left); PureIsQuiet(t.right); }
  }

  /** Except under a comma whose value is used, an exchange moves no comma to where it would matter, or from there. */
  lemma QuietSame(t: Expr, used: bool)
    requires Normal(t) && WantSwap(t) && (t.n.prec == COMMA_PREC ==> !used)
    ensures Quiet(SwapTop(t), used) <==> Quiet(t, used)
  {
    var inner: Expr := Node(t.left.n, t.left.left, t.right);
    var left := if t.n.prec == COMMA_PREC then false else used;
    assert Quiet(inner, left) <==> Quiet(t.left.left, left) && Quiet(t.right, left);
    assert Quiet(t.left, left) <==> Quiet(t.left.left, left) && Quiet(t.left.right, left);
    SwapSettles(t);
  }

  /** The arms of a comma can be given different values. */
  lemma CommaDiffers(t: Expr) returns (yes: set<int>)
    requires Normal(t) && Apart(t) && WantSwap(t) && t.n.prec == COMMA_PREC
    ensures Normal(ArmSwaps(t)) && Differ(ArmSwaps(t), t, true, yes)
  {
    var a, b := t.left.right, t.right;
    SwapsNormal(t);
    SwapsIds(a);
    SwapsNormal(a);
    var v := CanBe(ArmSwaps(a), true);
    var w := CanBe(b, false);
    yes := Mix(v, w, Ids(a));
    Mixed(ArmSwaps(a), v, w, Ids(a));
    Mixed(b, v, w, Ids(a));
    assert ArmSwaps(t).right == ArmSwaps(a);
  }

  /** Where the traces of the whole are the same, those of the left arms are, and those of the right arms as far as they
      are evaluated. */
  lemma TracesJoin(u: Expr, yes: set<int>)
    requires Normal(u) && Apart(u) && u.n.kind == BiOp && u.left.Node? && Normal(Done(u))
    requires Normal(ArmSwaps(u.left)) && Normal(ArmSwaps(u.right)) && Trace(Done(u), yes) == Trace(u, yes)
    ensures Trace(ArmSwaps(u.left), yes) == Trace(u.left, yes)
    ensures Goes(u.n.prec, Truth(ArmSwaps(u.left), yes)) && Goes(u.n.prec, Truth(u.left, yes)) ==>
      Trace(ArmSwaps(u.right), yes) == Trace(u.right, yes)
  {
    hide ArmSwaps, WantSwap;
    var l, r, l', r' := u.left, u.right, ArmSwaps(u.left), ArmSwaps(u.right);
    SwapsIds(l);
    SwapsIds(r);
    TraceIds(l, yes); TraceIds(r, yes); TraceIds(l', yes); TraceIds(r', yes);
    var b := if Goes(u.n.prec, Truth(l', yes)) then Trace(r', yes) else [];
    var d := if Goes(u.n.prec, Truth(l, yes)) then Trace(r, yes) else [];
    Joined(Trace(l', yes), b, Trace(l, yes), d, Ids(l), Ids(r));
  }

  /** A left arm that differs shows: its effects come first, and its value decides about the right arm. */
  lemma LeftDiffers(u: Expr, used: bool, found: set<int>) returns (yes: set<int>)
    requires Normal(u) && Apart(u) && u.n.kind == BiOp && u.left.Node? && Normal(Done(u))
    requires Normal(ArmSwaps(u.left)) && Normal(ArmSwaps(u.right))
    requires Differ(ArmSwaps(u.left), u.left, u.n.prec != COMMA_PREC && (used || Effectful(u.right)), found)
    ensures Differ(Done(u), u, used, yes)
  {
    hide ArmSwaps, WantSwap;
    var l, r, l', r' := u.left, u.right, ArmSwaps(u.left), ArmSwaps(u.right);
    SwapsIds(l);
    SwapsIds(r);
    if Trace(l', found) != Trace(l, found) {
      yes := found;
      if !Differ(Done(u), u, used, yes) { TracesJoin(u, yes); }
    } else {
      var right := if Goes(u.n.prec, Truth(l', found)) then r' else r;
      SwapsEffect(r);
      var w;
      if Effectful(r) { w := CanAct(right); } else { w := CanBe(right, u.n.prec == AND_PREC); }
      yes := Mix(found, w, Ids(l));
      Mixed(l, found, w, Ids(l));
      Mixed(l', found, w, Ids(l));
      Mixed(right, found, w, Ids(l));

    }
  }

  /** A right arm that differs shows once it is evaluated. */
  lemma RightDiffers(u: Expr, used: bool, found: set<int>) returns (yes: set<int>)
    requires Normal(u) && Apart(u) && u.n.kind == BiOp && u.left.Node? && Normal(Done(u))
    requires Normal(ArmSwaps(u.left)) && Normal(ArmSwaps(u.right)) && Differ(ArmSwaps(u.right), u.right, used, found)
    requires u.n.prec != COMMA_PREC ==> forall y :: Truth(ArmSwaps(u.left), y) == Truth(u.left, y)
    ensures Differ(Done(u), u, used, yes)
  {
    hide ArmSwaps, WantSwap;
    var l, r, l', r' := u.left, u.right, ArmSwaps(u.left), ArmSwaps(u.right);
    SwapsIds(l);
    SwapsIds(r);
    var v := CanBe(l, u.n.prec == AND_PREC);
    yes := Mix(v, found, Ids(l));
    Mixed(l, v, found, Ids(l));
    Mixed(r, v, found, Ids(l));
    Mixed(r', v, found, Ids(l));
    if Trace(Done(u), yes) == Trace(u, yes) { TracesJoin(u, yes); }
  }

  /** Truth and Trace are all of the meaning in a world that forgets. */
  lemma SameFlat(a: Expr, b: Expr, yes: set<int>)
    requires Shaped(a) && Shaped(b)
    ensures Eval(a, Flat(yes), []) == Eval(b, Flat(yes), []) <==> !Differ(a, b, true, yes)
    ensures Eval(a, Flat(yes), []).1 == Eval(b, Flat(yes), []).1 <==> !Differ(a, b, false, yes)
  {
    hide Flat;
    FlatEval(a, yes, []);
    FlatEval(b, yes, []);
    assert [] + Trace(a, yes) == Trace(a, yes) && [] + Trace(b, yes) == Trace(b, yes);
  }

  lemma QuietArm(t: Expr)
    requires Normal(t) && Quiet(t, true)
    ensures Normal(ArmSwaps(t)) && forall y :: Truth(ArmSwaps(t), y) == Truth(t, y)
  {
    hide ArmSwaps, WantSwap, Quiet;
    SwapsNormal(t);
    forall y
      ensures Truth(ArmSwaps(t), y) == Truth(t, y)
    {
      SwapsMeaning(t, true, Flat(y), []);
      SameFlat(ArmSwaps(t), t, y);
    }
  }

  /** Where an exchange below `u` can be noticed, some world notices it. */
  lemma {:induction false} ArmsDiffer(u: Expr, used: bool) returns (yes: set<int>)
    requires Normal(u) && Apart(u) && !Quiet(u, used)
    requires u.n.prec == COMMA_PREC && used ==> !WantSwap(u)
    ensures Normal(Done(u)) && Differ(Done(u), u, used, yes)
    decreases Size(u), 0
  {
    hide ArmSwaps, WantSwap;
    DoneNormal(u);
    var left := u.n.prec != COMMA_PREC && (used || Effectful(u.right));
    if u.n.kind != BiOp || u.left.Nil? {
      yes := Differs(u.right, used);
    } else if !Quiet(u.left, left) {
      yes := Differs(u.left, left);
      yes := LeftDiffers(u, used, yes);
    } else {
      yes := Differs(u.right, used);
      if u.n.prec != COMMA_PREC {
        if !left { PureIsQuiet(u.right); }
        QuietArm(u.left);
      }
      yes := RightDiffers(u, used, yes);
    }
  }

  lemma {:induction false} Differs(t: Expr, used: bool) returns (yes: set<int>)
    requires Normal(t) && Apart(t) && !Quiet(t, used)
    ensures Normal(ArmSwaps(t)) && Differ(ArmSwaps(t), t, used, yes)
    decreases Size(t), 1
  {
    SwapsNormal(t);
    if !WantSwap(t) {
      yes := ArmsDiffer(t, used);
    } else if t.n.prec == COMMA_PREC && used {
      yes := CommaDiffers(t);
    } else {
      var u := SwapTop(t);
      assert Size(u.left) == 1 + Size(t.left.left) + Size(t.right) && Size(u) == Size(t);
      QuietSame(t, used);
      SwapTopIds(t);
      SwapSettles(t);
      yes := ArmsDiffer(u, used);
      SwapHistory(t, Flat(yes), []);
      if t.n.prec != COMMA_PREC { SwapMeaning(t, Flat(yes), []); }
      SameFlat(u, t, yes);
    }
  }

  /** do_arm_swaps keeps the meaning of a tree of different primaries exactly when it exchanges no arms under a comma
      whose value is used. */
  lemma SwapsMeaningIff(t: Expr)
    requires Normal(t) && Apart(t)
    ensures Normal(ArmSwaps(t)) && (SameMeaning(ArmSwaps(t), t) <==> CommaQuiet(t))
  {
    SwapsNormal(t);
    if CommaQuiet(t) {
      forall w: World, h: History ensures Eval(ArmSwaps(t), w, h) == Eval(t, w, h) { SwapsMeaning(t, true, w, h); }
    } else {
      var yes := Differs(t, true);
      SameFlat(ArmSwaps(t), t, yes);
    }
  }

  // ----- Both passes together -----

  lemma {:induction false} RerateIds(t: Expr, u: Expr)
    requires Rerated(t, u)
    ensures Ids(u) == Ids(t) && (Apart(t) ==> Apart(u))
  {
    if t.Node? { RerateIds(t.left, u.left); RerateIds(t.right, u.right); }
  }

  /** Whatever rates are derived between the two passes, an expression of different primaries keeps its meaning exactly
      when no arms are exchanged under a comma whose value is used. */
  lemma OptimiseMeaningIff(t: Expr, level: nat, u: Expr)
    requires Parsed(t) && OneEach(t) && Rerated(OptExpr(t, level).0, u)
    ensures Normal(ArmSwaps(u)) && (SameMeaning(ArmSwaps(u), t) <==> CommaQuiet(u))
  {
    var o := OptExpr(t, level).0;
    OptNormal(t, level);
    forall p ensures Copies(o, p) == Copies(t, p) { OptCopies(t, level, p); }
    assert OneEach(o);
    OneEachIsApart(o);
    RerateIds(o, u);
    RerateMeaning(o, u, (id, h) => true, []);
    SwapsMeaningIff(u);
    if CommaQuiet(u) {
      OptimiseMeaning(t, level, u);
    } else if SameMeaning(ArmSwaps(u), t) {
      forall w: World, h: History ensures Eval(ArmSwaps(u), w, h) == Eval(u, w, h) {
        OptMeaning(t, level, w, h);
        RerateMeaning(o, u, w, h);
      }
    }
  }
}
