/** The find expression tree as a value: what a node is, what a tree means, and how
    evaluation runs.  `find/defs.h` keeps the same data in `struct predicate`. */
module PredTree {

  datatype Kind = Primary | UniOp | BiOp | OpenParen | CloseParen

  /** The predicate functions that the optimiser distinguishes among primaries. */
  datatype Func = NamePathTest | RegexTest | OtherFunc

  /** enum predicate_precedence */
  const NO_PREC: nat := 0
  const COMMA_PREC: nat := 1
  const OR_PREC: nat := 2
  const AND_PREC: nat := 3
  const NEGATE_PREC: nat := 4

  /** enum EvaluationCost */
  const NUM_COSTS: nat := 11
  type Cost = c: nat | c < 11
  const NEEDS_NOTHING: Cost := 0
  const NEEDS_INODE: Cost := 1
  const NEEDS_TYPE: Cost := 2

  /** The part of a predicate node that the tree code never changes.  `effect` is the
      parser's side_effects flag; `id` tells primaries apart. */
  datatype Info = Info(kind: Kind, prec: nat, id: int, effect: bool, cost: Cost, rate: real,
                       func: Func, needStat: bool, artificial: bool)

  /** A binary tree; read along `left` it is also a list, which is how the optimiser uses it. */
  datatype Tree<N> = Nil | Node(n: N, left: Tree<N>, right: Tree<N>)

  type Expr = Tree<Info>

  /** Hang `t` at the bottom of the left spine of `k`. */
  function Append<N>(k: Tree<N>, t: Tree<N>): Tree<N> {
    if k.Nil? then t else Node(k.n, Append(k.left, t), k.right)
  }

  lemma {:induction false} AppendAssoc<N>(a: Tree<N>, b: Tree<N>, c: Tree<N>)
    ensures Append(Append(a, b), c) == Append(a, Append(b, c))
  {
    if a.Node? { AppendAssoc(a.left, b, c); }
  }

  lemma {:induction false} AppendNil<N>(a: Tree<N>)
    ensures Append(a, Nil) == a
  {
    if a.Node? { AppendNil(a.left); }
  }

  /** Well-formed expression trees: a binary node may lack its left arm. */
  predicate Shaped(t: Expr) {
    t.Node? &&
    match t.n.kind
    case Primary => t.left.Nil? && t.right.Nil?
    case UniOp => t.left.Nil? && Shaped(t.right)
    case BiOp => COMMA_PREC <= t.n.prec <= AND_PREC && !t.n.effect && Shaped(t.right) && (t.left.Nil? || Shaped(t.left))
    case _ => false
  }

  /** What the parser hands over, with the leftmost operand perhaps already wrapped. */
  predicate Parsed(t: Expr): (b: bool)
    ensures b ==> Shaped(t) && Weight(t) > 0
  {
    t.Node? &&
    match t.n.kind
    case Primary => t.left.Nil? && t.right.Nil?
    case UniOp => t.left.Nil? && Parsed(t.right)
    case BiOp =>
      && COMMA_PREC <= t.n.prec <= AND_PREC && !t.n.effect && Parsed(t.right)
      && if t.left.Nil? then t.right.n.kind != BiOp else Parsed(t.left)
    case _ => false
  }

  // ----- Meaning -----

  /** A side effect is recorded in the history by the id of the primary that caused it. */
  type History = seq<int>

  /** The answer of each primary, which may depend on every effect that came before. */
  type World = (int, History) -> bool

  /** Value so far and history so far. */
  type Outcome = (bool, History)

  /** Short-circuit evaluation, as pred_and, pred_or, pred_comma and pred_negate do it. */
  function Eval(t: Expr, w: World, h: History): Outcome
    requires Shaped(t)
  {
    match t.n.kind
    case Primary => (w(t.n.id, h), if t.n.effect then h + [t.n.id] else h)
    case UniOp => var (b, h1) := Eval(t.right, w, h); (!b, h1)
    case BiOp =>
      if t.left.Nil? then Eval(t.right, w, h)
      else
        var (b, h1) := Eval(t.left, w, h);
        if t.n.prec == AND_PREC && !b then (false, h1)
        else if t.n.prec == OR_PREC && b then (true, h1)
        else Eval(t.right, w, h1)
  }

  /** Some primary of the tree has side effects. */
  predicate Effectful(t: Expr) {
    t.Node? && ((t.n.kind == Primary && t.n.effect) || Effectful(t.left) || Effectful(t.right))
  }

  /** How often primary `p` occurs in the tree. */
  function Copies(t: Expr, p: Info): nat {
    if t.Nil? then 0
    else (if t.n.kind == Primary && t.n == p then 1 else 0) + Copies(t.left, p) + Copies(t.right, p)
  }

  /** Number of primaries and negations: wrapping an operand in a new parent keeps it. */
  function Weight(t: Expr): nat {
    if t.Nil? then 0 else (if t.n.kind == BiOp then 0 else 1) + Weight(t.left) + Weight(t.right)
  }

  /** An expression without side effects leaves the history alone. */
  lemma {:induction false} PureKeepsHistory(t: Expr, w: World, h: History)
    requires Shaped(t) && !Effectful(t)
    ensures Eval(t, w, h).1 == h
  {
    match t.n.kind
    case Primary =>
    case UniOp => PureKeepsHistory(t.right, w, h);
    case BiOp =>
      if t.left.Node? { PureKeepsHistory(t.left, w, h); }
      PureKeepsHistory(t.right, w, h);
  }

  /** Both trees give the same value and the same effects in every world. */
  ghost predicate SameMeaning(a: Expr, b: Expr)
    requires Shaped(a) && Shaped(b)
  {
    forall w: World, h: History :: Eval(a, w, h) == Eval(b, w, h)
  }

  // ----- Operator spines -----

  /** A left-linked list of `prec` nodes with well-formed operands. */
  predicate Chain(prec: nat, k: Expr) {
    k.Node? ==> k.n.kind == BiOp && k.n.prec == prec && COMMA_PREC <= prec <= AND_PREC && !k.n.effect
                && Shaped(k.right) && Chain(prec, k.left)
  }

  /** check_normalization: every left arm is an operator; stronger here, the same operator. */
  predicate Normal(t: Expr): (b: bool)
    ensures b ==> Shaped(t)
  {
    t.Node? &&
    match t.n.kind
    case Primary => t.left.Nil? && t.right.Nil?
    case UniOp => t.left.Nil? && Normal(t.right) && t.right.n.kind == BiOp
    case BiOp =>
      && COMMA_PREC <= t.n.prec <= AND_PREC && !t.n.effect && Normal(t.right)
      && (t.left.Nil? || (Normal(t.left) && t.left.n.kind == BiOp && t.left.n.prec == t.n.prec))
    case _ => false
  }

  predicate NormalChain(prec: nat, k: Expr): (b: bool)
    ensures b ==> Chain(prec, k)
  {
    k.Node? ==> k.n.kind == BiOp && k.n.prec == prec && Normal(k) && NormalChain(prec, k.left)
  }

  function Unit(prec: nat): bool { prec != OR_PREC }

  /** Offer one more operand to a partial result. */
  function Step(prec: nat, x: Expr, w: World, s: Outcome): Outcome
    requires Shaped(x)
  {
    if prec == AND_PREC && !s.0 then (false, s.1)
    else if prec == OR_PREC && s.0 then (true, s.1)
    else Eval(x, w, s.1)
  }

  /** Evaluate a spine from its bottom, starting from a partial result. */
  function Run(prec: nat, k: Expr, w: World, s: Outcome): Outcome
    requires Chain(prec, k)
  {
    if k.Nil? then s else Step(prec, k.right, w, Run(prec, k.left, w, s))
  }

  /** The outcome of what lies below a spine; nothing there counts as the unit. */
  function Below(prec: nat, t: Expr, w: World, h: History): Outcome
    requires t.Nil? || Shaped(t)
  {
    if t.Nil? then (Unit(prec), h) else Eval(t, w, h)
  }

  lemma {:induction false} RunAppend(prec: nat, a: Expr, b: Expr, w: World, s: Outcome)
    requires Chain(prec, a) && Chain(prec, b)
    ensures Chain(prec, Append(a, b))
    ensures Run(prec, Append(a, b), w, s) == Run(prec, a, w, Run(prec, b, w, s))
  {
    if a.Node? { RunAppend(prec, a.left, b, w, s); }
  }

  lemma {:induction false} ChainIsShaped(prec: nat, k: Expr)
    requires Chain(prec, k) && k.Node?
    ensures Shaped(k)
  {
    if k.left.Node? { ChainIsShaped(prec, k.left); }
  }

  /** Evaluating a whole spine is running it from the unit. */
  lemma {:induction false} EvalIsRun(prec: nat, k: Expr, w: World, h: History)
    requires Chain(prec, k) && k.Node?
    ensures Shaped(k) && Eval(k, w, h) == Run(prec, k, w, (Unit(prec), h))
  {
    ChainIsShaped(prec, k);
    if k.left.Node? { EvalIsRun(prec, k.left, w, h); }
  }

  /** How often `x` is an operand of the spine `k`. */
  function Times(k: Expr, x: Expr): nat {
    if k.Nil? then 0 else Times(k.left, x) + if k.right == x then 1 else 0
  }

  /** Every operand of `k` evaluates to `v`. */
  ghost predicate AllGive(k: Expr, v: bool, w: World, h: History) {
    forall x :: Times(k, x) > 0 && Shaped(x) ==> Eval(x, w, h).0 == v
  }

  predicate PureChain(k: Expr) {
    k.Node? ==> !Effectful(k.right) && PureChain(k.left)
  }

  /** A pure AND or OR spine computes a conjunction or disjunction of its operands,
      whatever their order. */
  lemma {:induction false} PureRun(prec: nat, k: Expr, w: World, s: Outcome)
    requires Chain(prec, k) && PureChain(k) && prec != COMMA_PREC
    ensures Run(prec, k, w, s).1 == s.1
    ensures prec == AND_PREC ==> (Run(prec, k, w, s).0 <==> s.0 && AllGive(k, true, w, s.1))
    ensures prec == OR_PREC ==> (Run(prec, k, w, s).0 <==> s.0 || !AllGive(k, false, w, s.1))
  {
    if k.Node? {
      PureRun(prec, k.left, w, s);
      PureKeepsHistory(k.right, w, s.1);
      forall v: bool
        ensures AllGive(k, v, w, s.1) <==> AllGive(k.left, v, w, s.1) && Eval(k.right, w, s.1).0 == v
      {
        assert forall x :: Times(k, x) > 0 <==> Times(k.left, x) > 0 || x == k.right;
      }
    }
  }

  /** Two pure spines over the same operands are interchangeable. */
  lemma SameOperandsSameRun(prec: nat, a: Expr, b: Expr, w: World, s: Outcome)
    requires Chain(prec, a) && PureChain(a) && Chain(prec, b) && PureChain(b) && prec != COMMA_PREC
    requires forall x :: Times(a, x) == Times(b, x)
    ensures Run(prec, a, w, s) == Run(prec, b, w, s)
  {
    if COMMA_PREC <= prec <= AND_PREC {
      PureRun(prec, a, w, s);
      PureRun(prec, b, w, s);
    }
  }
}
