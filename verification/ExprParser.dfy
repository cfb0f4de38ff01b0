/** The precedence parser of find/tree.c as a function on token lists, and the round trip with
    a printer that writes as few parentheses as possible. */
module ExprParser {
  import opened Wrappers
  import opened PredTree

  /** The outcome of one parsing call; Fail stands for the exit with an error message. */
  datatype Parse = Fail | Done(tree: Expr, rest: seq<Info>)

  /** get_expr: the expression before the next operator that binds no tighter than `prevPrec`. */
  function GetExpr(toks: seq<Info>, prevPrec: nat): (r: Parse)
    ensures r.Done? ==> |r.rest| < |toks|
    decreases |toks|
  {
    if toks == [] then Fail
    else
      match toks[0].kind
      case BiOp => Fail
      case CloseParen => Fail
      case Primary => Continue(Node(toks[0], Nil, Nil), toks[1..], prevPrec)
      case UniOp =>
        (match GetExpr(toks[1..], NEGATE_PREC)
         case Fail => Fail
         case Done(x, rest) => Continue(Node(toks[0], Nil, x), rest, prevPrec))
      case OpenParen =>
        if |toks| == 1 || toks[1].artificial || toks[1].kind == CloseParen then Fail
        else
          match GetExpr(toks[1..], NO_PREC)
          case Fail => Fail
          case Done(x, rest) =>
            if rest == [] || rest[0].kind != CloseParen then Fail
            else Continue(x, rest[1..], prevPrec)
  }

  /** The last test of get_expr: is the operand just read part of a tighter expression? */
  function Continue(operand: Expr, toks: seq<Info>, prevPrec: nat): (r: Parse)
    ensures r.Done? ==> |r.rest| <= |toks|
    decreases |toks|, 2
  {
    if toks == [] || toks[0].prec <= prevPrec then Done(operand, toks)
    else if toks[0].kind == CloseParen then Fail
    else ScanRest(operand, toks, prevPrec)
  }

  /** The loop of scan_rest. */
  function ScanRest(tree: Expr, toks: seq<Info>, prevPrec: nat): (r: Parse)
    ensures r.Done? ==> |r.rest| <= |toks|
    decreases |toks|, 1
  {
    if toks == [] || toks[0].prec <= prevPrec || toks[0].kind == CloseParen then Done(tree, toks)
    else if toks[0].kind != BiOp then Fail
    else
      match GetExpr(toks[1..], toks[0].prec)
      case Fail => Fail
      case Done(x, rest) => ScanRest(Node(toks[0], tree, x), rest, prevPrec)
  }

  /** build_expression_tree: the whole list, with nothing left over. */
  function ParseAll(toks: seq<Info>): Parse {
    match GetExpr(toks, NO_PREC)
    case Fail => Fail
    case Done(t, rest) => if rest == [] then Done(t, []) else Fail
  }

  // ----- Printing -----

  /** A source expression: operators have all their arms. */
  predicate Source(t: Expr) {
    t.Node? && !t.n.artificial &&
    match t.n.kind
    case Primary => t.left.Nil? && t.right.Nil?
    case UniOp => t.n.prec == NEGATE_PREC && t.left.Nil? && Source(t.right)
    case BiOp => COMMA_PREC <= t.n.prec <= AND_PREC && Source(t.left) && Source(t.right)
    case _ => false
  }

  predicate Parens(open: Info, close: Info) {
    open.kind == OpenParen && !open.artificial && close.kind == CloseParen && close.prec == NO_PREC
  }

  const ATOM: nat := 5

  function Binding(t: Expr): nat
    requires t.Node?
  {
    if t.n.kind == BiOp then t.n.prec else ATOM
  }

  /** Write `t` where an expression binding at least as tightly as `q` is needed. */
  function Print(t: Expr, q: nat, open: Info, close: Info): (s: seq<Info>)
    requires Source(t) && Parens(open, close)
    ensures s != [] && !s[0].artificial && s[0].kind != CloseParen && s[0].kind != BiOp
    decreases t, if Binding(t) < q then 1 else 0
  {
    if Binding(t) < q then [open] + Print(t, COMMA_PREC, open, close) + [close]
    else if t.n.kind == UniOp then [t.n] + Print(t.right, ATOM, open, close)
    else if t.n.kind == BiOp then Print(t.left, t.n.prec, open, close) + [t.n] + Print(t.right, t.n.prec + 1, open, close)
    else [t.n]
  }

  /** What may follow an expression printed at level `q`. */
  predicate Follows(rest: seq<Info>, q: nat) {
    rest != [] ==> (rest[0].kind == CloseParen && rest[0].prec == NO_PREC)
                   || (rest[0].kind == BiOp && rest[0].prec <= AND_PREC && rest[0].prec <= q)
  }

  // One step of each function, so that proofs need not unfold the recursion.

  lemma StepOpen(toks: seq<Info>, prevPrec: nat, x: Expr, rest: seq<Info>)
    requires |toks| > 1 && toks[0].kind == OpenParen && !toks[1].artificial && toks[1].kind != CloseParen
    requires GetExpr(toks[1..], NO_PREC) == Done(x, rest) && rest != [] && rest[0].kind == CloseParen
    ensures GetExpr(toks, prevPrec) == Continue(x, rest[1..], prevPrec)
  { hide Continue, ScanRest; }

  lemma StepOpenFail(toks: seq<Info>, prevPrec: nat)
    requires |toks| > 0 && toks[0].kind == OpenParen
    requires |toks| > 1 && !toks[1].artificial && toks[1].kind != CloseParen ==>
               match GetExpr(toks[1..], NO_PREC)
               case Fail => true
               case Done(_, rest) => rest == [] || rest[0].kind != CloseParen
    ensures GetExpr(toks, prevPrec) == Fail
  { hide Continue, ScanRest; }

  lemma StepUni(toks: seq<Info>, prevPrec: nat, x: Expr, rest: seq<Info>)
    requires |toks| > 0 && toks[0].kind == UniOp && GetExpr(toks[1..], NEGATE_PREC) == Done(x, rest)
    ensures GetExpr(toks, prevPrec) == Continue(Node(toks[0], Nil, x), rest, prevPrec)
  { hide Continue, ScanRest; }

  lemma StepScan(tree: Expr, toks: seq<Info>, prevPrec: nat, x: Expr, rest: seq<Info>)
    requires |toks| > 0 && toks[0].kind == BiOp && toks[0].prec > prevPrec && GetExpr(toks[1..], toks[0].prec) == Done(x, rest)
    ensures ScanRest(tree, toks, prevPrec) == ScanRest(Node(toks[0], tree, x), rest, prevPrec)
  { hide GetExpr; }

  lemma StepScanFail(tree: Expr, toks: seq<Info>, prevPrec: nat)
    requires |toks| > 0 && toks[0].kind == BiOp && toks[0].prec > prevPrec && GetExpr(toks[1..], toks[0].prec) == Fail
    ensures ScanRest(tree, toks, prevPrec) == Fail
  { hide GetExpr; }

  lemma StepStop(operand: Expr, toks: seq<Info>, prevPrec: nat)
    requires toks != [] ==> toks[0].prec <= prevPrec
    ensures Continue(operand, toks, prevPrec) == Done(operand, toks)
  {}

  lemma ContinueIsScan(operand: Expr, toks: seq<Info>, prevPrec: nat, q: nat)
    requires Follows(toks, q)
    ensures Continue(operand, toks, prevPrec) == ScanRest(operand, toks, prevPrec)
  { hide GetExpr; }

  /** An operand in parentheses, read as its contents are read. */
  lemma ParseParens(t: Expr, inner: seq<Info>, rest: seq<Info>, prevPrec: nat, open: Info, close: Info)
    requires Parens(open, close) && inner != [] && !inner[0].artificial && inner[0].kind != CloseParen
    requires GetExpr(inner + ([close] + rest), NO_PREC) == Continue(t, [close] + rest, NO_PREC)
    ensures GetExpr([open] + inner + [close] + rest, prevPrec) == Continue(t, rest, prevPrec)
  {
    hide GetExpr, Continue, ScanRest;
    var all, tail := [open] + inner + [close] + rest, [close] + rest;
    assert all[1..] == inner + tail;
    StepStop(t, tail, NO_PREC);
    StepOpen(all, prevPrec, t, tail);
    assert tail[1..] == rest;
  }

  lemma ParseBinary(op: Info, l: seq<Info>, left: Expr, r: seq<Info>, right: Expr, rest: seq<Info>, prevPrec: nat)
    requires op.kind == BiOp && op.prec <= AND_PREC && prevPrec < op.prec && Follows(rest, op.prec)
    requires GetExpr(l + ([op] + r + rest), prevPrec) == Continue(left, [op] + r + rest, prevPrec)
    requires GetExpr(r + rest, op.prec) == Continue(right, rest, op.prec)
    ensures GetExpr(l + [op] + r + rest, prevPrec) == Continue(Node(op, left, right), rest, prevPrec)
  {
    hide GetExpr, Continue, ScanRest;
    var tail := [op] + r + rest;
    assert l + [op] + r + rest == l + tail;
    assert tail[1..] == r + rest;
    StepStop(right, rest, op.prec);
    ContinueIsScan(left, tail, prevPrec, op.prec);
    StepScan(left, tail, prevPrec, right, rest);
    ContinueIsScan(Node(op, left, right), rest, prevPrec, op.prec);
  }

  lemma ParseNot(op: Info, r: seq<Info>, right: Expr, rest: seq<Info>, prevPrec: nat)
    requires op.kind == UniOp && Follows(rest, ATOM) && GetExpr(r + rest, NEGATE_PREC) == Continue(right, rest, NEGATE_PREC)
    ensures GetExpr([op] + r + rest, prevPrec) == Continue(Node(op, Nil, right), rest, prevPrec)
  {
    hide GetExpr, Continue, ScanRest;
    var all := [op] + r + rest;
    assert all[1..] == r + rest;
    StepStop(right, rest, NEGATE_PREC);
    StepUni(all, prevPrec, right, rest);
  }

  /** Reading back what was printed gives the operand and goes on with what follows. */
  lemma {:induction false} ParsePrinted(t: Expr, q: nat, rest: seq<Info>, prevPrec: nat, open: Info, close: Info)
    requires Source(t) && Parens(open, close) && prevPrec < q <= ATOM && Follows(rest, q)
    ensures GetExpr(Print(t, q, open, close) + rest, prevPrec) == Continue(t, rest, prevPrec)
    decreases t, if Binding(t) < q then 1 else 0
  {
    var s := Print(t, q, open, close);
    if Binding(t) < q {
      var inner := Print(t, COMMA_PREC, open, close);
      assert s == [open] + inner + [close];
      hide Print, Continue, ScanRest, GetExpr;
      ParsePrinted(t, COMMA_PREC, [close] + rest, NO_PREC, open, close);
      ParseParens(t, inner, rest, prevPrec, open, close);
    } else if t.n.kind == UniOp {
      var r := Print(t.right, ATOM, open, close);
      assert s == [t.n] + r;
      hide Print, Continue, ScanRest, GetExpr;
      ParsePrinted(t.right, ATOM, rest, NEGATE_PREC, open, close);
      ParseNot(t.n, r, t.right, rest, prevPrec);
    } else if t.n.kind == BiOp {
      var l, r := Print(t.left, t.n.prec, open, close), Print(t.right, t.n.prec + 1, open, close);
      assert s == l + [t.n] + r;
      hide Print, Continue, ScanRest, GetExpr;
      ParsePrinted(t.left, t.n.prec, [t.n] + r + rest, prevPrec, open, close);
      ParsePrinted(t.right, t.n.prec + 1, rest, t.n.prec, open, close);
      ParseBinary(t.n, l, t.left, r, t.right, rest, prevPrec);
    } else {
      assert s == [t.n];
      assert (s + rest)[1..] == rest;
    }
  }

  /** Printing any source expression, with parentheses only where they are asked for, and parsing it gives back the
      same tree, with all tokens consumed. */
  lemma RoundTrip(t: Expr, open: Info, close: Info)
    requires Source(t) && Parens(open, close)
    ensures ParseAll(Print(t, COMMA_PREC, open, close)) == Done(t, [])
  {
    var s := Print(t, COMMA_PREC, open, close);
    ParsePrinted(t, COMMA_PREC, [], NO_PREC, open, close);
    assert s + [] == s;
  }

  // ----- The implicit -a -----

  predicate EndsOperand(x: Info) { x.kind == Primary || x.kind == CloseParen }

  predicate StartsOperand(x: Info) { x.kind == Primary || x.kind == UniOp || x.kind == OpenParen }

  /** get_new_pred_chk_op over a whole command line: put `and` between adjacent operands. */
  function InsertAnds(raw: seq<Info>, afterOperand: bool, and: Info): seq<Info> {
    if raw == [] then []
    else
      var x := raw[0];
      var tail := [x] + InsertAnds(raw[1..], EndsOperand(x), and);
      if afterOperand && StartsOperand(x) then [and] + tail else tail
  }

  /** Operands and binary operators alternate. */
  predicate Alternates(toks: seq<Info>, afterOperand: bool) {
    if toks == [] then afterOperand
    else if afterOperand then
      (toks[0].kind == BiOp && Alternates(toks[1..], false)) || (toks[0].kind == CloseParen && Alternates(toks[1..], true))
    else StartsOperand(toks[0]) && Alternates(toks[1..], toks[0].kind == Primary)
  }

  /** Leave out those `and` tokens that `drop` marks. */
  function Elide(toks: seq<Info>, drop: seq<bool>, and: Info): seq<Info>
    requires |toks| == |drop|
  {
    if toks == [] then []
    else (if drop[0] && toks[0] == and then [] else [toks[0]]) + Elide(toks[1..], drop[1..], and)
  }

  lemma {:induction false} PrintAlternates(t: Expr, q: nat, rest: seq<Info>, open: Info, close: Info)
    requires Source(t) && Parens(open, close) && Alternates(rest, true)
    ensures Alternates(Print(t, q, open, close) + rest, false)
    decreases t, if Binding(t) < q then 1 else 0
  {
    PrintIs(t, q, open, close);
    hide Print, Alternates;
    if Binding(t) < q {
      AlternatesCons(close, rest, true);
      PrintAlternates(t, COMMA_PREC, [close] + rest, open, close);
      AlternatesWrap([open], Print(t, COMMA_PREC, open, close), [close], rest);
    } else if t.n.kind == UniOp {
      PrintAlternates(t.right, ATOM, rest, open, close);
      Assoc([t.n], Print(t.right, ATOM, open, close), rest);
      AlternatesCons(t.n, Print(t.right, ATOM, open, close) + rest, false);
    } else if t.n.kind == BiOp {
      var l, r := Print(t.left, t.n.prec, open, close), Print(t.right, t.n.prec + 1, open, close);
      PrintAlternates(t.right, t.n.prec + 1, rest, open, close);
      AlternatesCons(t.n, r + rest, true);
      PrintAlternates(t.left, t.n.prec, [t.n] + (r + rest), open, close);
      Assoc(l + [t.n], r, rest);
      Assoc(l, [t.n], r + rest);
    } else {
      AlternatesCons(t.n, rest, false);
    }
  }

  lemma AlternatesWrap(open: seq<Info>, inner: seq<Info>, close: seq<Info>, rest: seq<Info>)
    requires |open| == 1 && StartsOperand(open[0]) && open[0].kind != Primary && open[0].kind != CloseParen
    requires Alternates(inner + (close + rest), false)
    ensures Alternates(open + inner + close + rest, false)
  {
    AlternatesCons(open[0], inner + (close + rest), false);
    assert open + inner + close + rest == [open[0]] + (inner + (close + rest));
  }

  lemma PrintIs(t: Expr, q: nat, open: Info, close: Info)
    requires Source(t) && Parens(open, close)
    ensures Print(t, q, open, close) ==
      if Binding(t) < q then [open] + Print(t, COMMA_PREC, open, close) + [close]
      else if t.n.kind == UniOp then [t.n] + Print(t.right, ATOM, open, close)
      else if t.n.kind == BiOp then Print(t.left, t.n.prec, open, close) + [t.n] + Print(t.right, t.n.prec + 1, open, close)
      else [t.n]
  {}

  lemma AlternatesCons(x: Info, rest: seq<Info>, afterOperand: bool)
    requires if afterOperand then x.kind == BiOp || x.kind == CloseParen else StartsOperand(x)
    requires Alternates(rest, EndsOperand(x))
    ensures Alternates([x] + rest, afterOperand)
  {
    assert ([x] + rest)[1..] == rest;
  }

  /** Every left-out `and` is put back, and nothing else is added. */
  /** The token after a left-out `and` starts an operand and stays. */
  lemma LeftOut(toks: seq<Info>, drop: seq<bool>, afterOperand: bool, and: Info)
    requires |toks| == |drop| && Alternates(toks, afterOperand) && and.kind == BiOp
    requires toks != [] && drop[0] && toks[0] == and
    ensures |toks| > 1 && Alternates(toks[2..], toks[1].kind == Primary)
    ensures InsertAnds(Elide(toks, drop, and), afterOperand, and)
      == [and] + ([toks[1]] + InsertAnds(Elide(toks[2..], drop[2..], and), toks[1].kind == Primary, and))
  {
    assert toks[1..] != [] && StartsOperand(toks[1]);
    var after, drop' := toks[2..], drop[2..];
    assert toks[1..][1..] == after && drop[1..][1..] == drop';
    var raw := Elide(toks[1..], drop[1..], and);
    assert raw == [toks[1]] + Elide(after, drop', and);
    assert Elide(toks, drop, and) == [] + raw == raw;
    assert raw[1..] == Elide(after, drop', and);
  }

  lemma {:induction false} InsertRestores(toks: seq<Info>, drop: seq<bool>, afterOperand: bool, and: Info)
    requires |toks| == |drop| && Alternates(toks, afterOperand) && and.kind == BiOp
    ensures InsertAnds(Elide(toks, drop, and), afterOperand, and) == toks
  {
    if toks != [] {
      var x := toks[0];
      if drop[0] && x == and {
        LeftOut(toks, drop, afterOperand, and);
        InsertRestores(toks[2..], drop[2..], toks[1].kind == Primary, and);
        assert [and] + ([toks[1]] + toks[2..]) == toks;
      } else {
        var raw := Elide(toks, drop, and);
        InsertRestores(toks[1..], drop[1..], EndsOperand(x), and);
        assert raw[1..] == Elide(toks[1..], drop[1..], and);
      }
    }
  }

  /** The round trip also holds when the user leaves out any of the -a operators. */
  lemma RoundTripImplicit(t: Expr, drop: seq<bool>, open: Info, close: Info, and: Info)
    requires Source(t) && Parens(open, close) && and.kind == BiOp
    requires |drop| == |Print(t, COMMA_PREC, open, close)|
    ensures ParseAll(InsertAnds(Elide(Print(t, COMMA_PREC, open, close), drop, and), false, and)) == Done(t, [])
  {
    var s := Print(t, COMMA_PREC, open, close);
    PrintAlternates(t, COMMA_PREC, [], open, close);
    assert s + [] == s;
    InsertRestores(s, drop, false, and);
    RoundTrip(t, open, close);
  }

  // ----- What the parser builds -----

  /** Tokens as the command line delivers them. */
  predicate Token(x: Info) {
    && (x.kind == BiOp ==> COMMA_PREC <= x.prec <= AND_PREC)
    && (x.kind != Primary ==> !x.effect)
  }

  predicate AllTokens(toks: seq<Info>) { forall x :: x in toks ==> Token(x) }

  lemma TokensTail(toks: seq<Info>)
    requires AllTokens(toks) && toks != []
    ensures AllTokens(toks[1..]) && Token(toks[0])
  {}

  /** Every binary operator has both arms. */
  predicate Armed(t: Expr) {
    t.Node? ==> (t.n.kind == BiOp ==> t.left.Node? && t.right.Node?) && Armed(t.left) && Armed(t.right)
  }

  /** The tree is ready for the optimiser, every binary operator having both arms, and what is left is tokens. */
  predicate Sound(r: Parse) { r.Done? ==> Parsed(r.tree) && Armed(r.tree) && AllTokens(r.rest) }

  lemma {:induction false} ParsedTree(toks: seq<Info>, prevPrec: nat)
    requires AllTokens(toks)
    ensures Sound(GetExpr(toks, prevPrec))
    decreases |toks|, 4
  {
    if toks != [] {
      TokensTail(toks);
      hide AllTokens, Continue, ScanRest;
      if toks[0].kind == Primary {
        ContinueTree(Node(toks[0], Nil, Nil), toks[1..], prevPrec);
      } else if toks[0].kind == UniOp || toks[0].kind == OpenParen {
        ParsedOperand(toks, prevPrec);
      }
    }
  }

  lemma {:induction false} ParsedOperand(toks: seq<Info>, prevPrec: nat)
    requires toks != [] && AllTokens(toks) && (toks[0].kind == UniOp || toks[0].kind == OpenParen)
    ensures Sound(GetExpr(toks, prevPrec))
    decreases |toks|, 3
  {
    hide AllTokens, Continue, ScanRest;
    var tail := toks[1..];
    var r := GetExpr(tail, if toks[0].kind == UniOp then NEGATE_PREC else NO_PREC);
    TokensTail(toks);
    ParsedTree(tail, if toks[0].kind == UniOp then NEGATE_PREC else NO_PREC);
    if r.Done? {
      if toks[0].kind == UniOp {
        ContinueTree(Node(toks[0], Nil, r.tree), r.rest, prevPrec);
      } else if r.rest != [] {
        TokensTail(r.rest);
        ContinueTree(r.tree, r.rest[1..], prevPrec);
      }
    }
  }

  lemma {:induction false} ContinueTree(operand: Expr, toks: seq<Info>, prevPrec: nat)
    requires Parsed(operand) && Armed(operand) && AllTokens(toks)
    ensures Sound(Continue(operand, toks, prevPrec))
    decreases |toks|, 2
  {
    hide AllTokens, GetExpr, ScanRest;
    if toks != [] { ScanTree(operand, toks, prevPrec); }
  }

  lemma {:induction false} ScanTree(tree: Expr, toks: seq<Info>, prevPrec: nat)
    requires Parsed(tree) && Armed(tree) && AllTokens(toks)
    ensures Sound(ScanRest(tree, toks, prevPrec))
    decreases |toks|, 1
  {
    if toks != [] && toks[0].kind == BiOp && toks[0].prec > prevPrec {
      TokensTail(toks);
      hide GetExpr, ScanRest, Continue, AllTokens;
      var r := GetExpr(toks[1..], toks[0].prec);
      ParsedTree(toks[1..], toks[0].prec);
      if r.Done? {
        StepScan(tree, toks, prevPrec, r.tree, r.rest);
        ScanTree(Node(toks[0], tree, r.tree), r.rest, prevPrec);
      } else {
        StepScanFail(tree, toks, prevPrec);
      }
    } else {
      hide GetExpr, Continue, AllTokens;
    }
  }

  // ----- Which token lists are accepted -----

  /** Operands and binary operators alternate, and every parenthesis has its match; what follows an open one is not
      artificial. depth is how many are open. */
  predicate WellFormed(toks: seq<Info>, afterOperand: bool, depth: nat) {
    if toks == [] then afterOperand && depth == 0
    else
      var x, tail := toks[0], toks[1..];
      if afterOperand then
        (x.kind == BiOp && WellFormed(tail, false, depth)) || (x.kind == CloseParen && depth > 0 && WellFormed(tail, true, depth - 1))
      else
        || (x.kind == Primary && WellFormed(tail, true, depth))
        || (x.kind == UniOp && WellFormed(tail, false, depth))
        || (x.kind == OpenParen && tail != [] && !tail[0].artificial && WellFormed(tail, false, depth + 1))
  }

  lemma WellFormedCons(x: Info, tail: seq<Info>, depth: nat)
    ensures var toks := [x] + tail;
      && (WellFormed(toks, true, depth) <==>
            || (x.kind == BiOp && WellFormed(tail, false, depth))
            || (x.kind == CloseParen && depth > 0 && WellFormed(tail, true, depth - 1)))
      && (WellFormed(toks, false, depth) <==>
            || (x.kind == Primary && WellFormed(tail, true, depth))
            || (x.kind == UniOp && WellFormed(tail, false, depth))
            || (x.kind == OpenParen && tail != [] && !tail[0].artificial && WellFormed(tail, false, depth + 1)))
  {
    assert ([x] + tail)[1..] == tail;
  }

  /** If what the parser leaves can follow an operand, what it was given is an operand and that. */
  predicate Sane(toks: seq<Info>, afterOperand: bool, r: Parse, depth: nat) {
    r.Done? && WellFormed(r.rest, true, depth) ==> WellFormed(toks, afterOperand, depth)
  }

  lemma {:induction false} AcceptedSane(toks: seq<Info>, prevPrec: nat, depth: nat)
    ensures Sane(toks, false, GetExpr(toks, prevPrec), depth)
    decreases |toks|, 4
  {
    if toks != [] {
      hide Continue, ScanRest, WellFormed;
      var x, tail := toks[0], toks[1..];
      assert toks == [x] + tail;
      WellFormedCons(x, tail, depth);
      if x.kind == Primary {
        ContinueSane(Node(x, Nil, Nil), tail, prevPrec, depth);
      } else if x.kind == UniOp {
        AcceptedSane(tail, NEGATE_PREC, depth);
        var r := GetExpr(tail, NEGATE_PREC);
        if r.Done? { ContinueSane(Node(x, Nil, r.tree), r.rest, prevPrec, depth); }
      } else if x.kind == OpenParen {
        GroupSane(toks, prevPrec, depth);
      }
    }
  }

  lemma {:induction false} GroupSane(toks: seq<Info>, prevPrec: nat, depth: nat)
    requires toks != [] && toks[0].kind == OpenParen
    ensures Sane(toks, false, GetExpr(toks, prevPrec), depth)
    decreases |toks|, 3
  {
    hide Continue, ScanRest, WellFormed;
    var tail := toks[1..];
    assert toks == [toks[0]] + tail;
    AcceptedSane(tail, NO_PREC, depth + 1);
    var r := GetExpr(tail, NO_PREC);
    if r.Done? && r.rest != [] && r.rest[0].kind == CloseParen {
      assert r.rest == [r.rest[0]] + r.rest[1..];
      ContinueSane(r.tree, r.rest[1..], prevPrec, depth);
      WellFormedCons(toks[0], tail, depth);
      WellFormedCons(r.rest[0], r.rest[1..], depth + 1);
    }
  }

  lemma {:induction false} ContinueSane(operand: Expr, toks: seq<Info>, prevPrec: nat, depth: nat)
    ensures Sane(toks, true, Continue(operand, toks, prevPrec), depth)
    decreases |toks|, 2
  {
    hide GetExpr, ScanRest, WellFormed;
    if toks != [] { ScanSane(operand, toks, prevPrec, depth); }
  }

  lemma {:induction false} ScanSane(tree: Expr, toks: seq<Info>, prevPrec: nat, depth: nat)
    ensures Sane(toks, true, ScanRest(tree, toks, prevPrec), depth)
    decreases |toks|, 1
  {
    if toks != [] && toks[0].kind == BiOp && toks[0].prec > prevPrec {
      hide GetExpr, ScanRest, Continue, WellFormed;
      var r := GetExpr(toks[1..], toks[0].prec);
      assert toks == [toks[0]] + toks[1..];
      AcceptedSane(toks[1..], toks[0].prec, depth);
      if r.Done? {
        StepScan(tree, toks, prevPrec, r.tree, r.rest);
        ScanSane(Node(toks[0], tree, r.tree), r.rest, prevPrec, depth);
        WellFormedCons(toks[0], toks[1..], depth);
      } else {
        StepScanFail(tree, toks, prevPrec);
      }
    } else {
      hide GetExpr, Continue, WellFormed;
    }
  }

  /** Operators as the command line delivers them, and parentheses, which have no precedence. */
  predicate Operators(toks: seq<Info>) {
    forall x :: x in toks ==> (x.kind == BiOp ==> COMMA_PREC <= x.prec) && (x.kind == CloseParen ==> x.prec == NO_PREC)
  }

  /** The parser goes on to an operator that binds no tighter, a closing parenthesis, or the end. */
  predicate Stopped(r: Parse, prevPrec: nat, depth: nat) {
    && r.Done? && WellFormed(r.rest, true, depth) && Operators(r.rest)
    && (r.rest == [] || r.rest[0].kind == CloseParen || r.rest[0].prec <= prevPrec)
  }

  lemma {:induction false} Accepts(toks: seq<Info>, prevPrec: nat, depth: nat)
    requires WellFormed(toks, false, depth) && Operators(toks)
    ensures Stopped(GetExpr(toks, prevPrec), prevPrec, depth)
    decreases |toks|, 4
  {
    hide Continue, ScanRest, WellFormed;
    assert toks != [] by { NotNothing(toks, depth); }
    var x, tail := toks[0], toks[1..];
    assert toks == [x] + tail;
    WellFormedCons(x, tail, depth);
    if x.kind == Primary {
      ContinueAccepts(Node(x, Nil, Nil), tail, prevPrec, depth);
    } else if x.kind == UniOp {
      Accepts(tail, NEGATE_PREC, depth);
      var r := GetExpr(tail, NEGATE_PREC);
      ContinueAccepts(Node(x, Nil, r.tree), r.rest, prevPrec, depth);
    } else {
      GroupAccepts(toks, prevPrec, depth);
    }
  }

  lemma NotNothing(toks: seq<Info>, depth: nat)
    requires WellFormed(toks, false, depth)
    ensures toks != [] && toks[0].kind != CloseParen
    ensures !WellFormed([], true, depth + 1)
  {}

  lemma {:induction false} GroupAccepts(toks: seq<Info>, prevPrec: nat, depth: nat)
    requires toks != [] && toks[0].kind == OpenParen && WellFormed(toks, false, depth) && Operators(toks)
    ensures Stopped(GetExpr(toks, prevPrec), prevPrec, depth)
    decreases |toks|, 3
  {
    hide Continue, ScanRest, WellFormed;
    var tail := toks[1..];
    assert toks == [toks[0]] + tail;
    WellFormedCons(toks[0], tail, depth);
    NotNothing(tail, depth + 1);
    Accepts(tail, NO_PREC, depth + 1);
    var r := GetExpr(tail, NO_PREC);
    NotNothing(toks, depth);
    assert r.rest == [r.rest[0]] + r.rest[1..];
    WellFormedCons(r.rest[0], r.rest[1..], depth + 1);
    ContinueAccepts(r.tree, r.rest[1..], prevPrec, depth);
  }

  lemma {:induction false} ContinueAccepts(operand: Expr, toks: seq<Info>, prevPrec: nat, depth: nat)
    requires WellFormed(toks, true, depth) && Operators(toks)
    ensures Stopped(Continue(operand, toks, prevPrec), prevPrec, depth)
    decreases |toks|, 2
  {
    hide GetExpr, ScanRest, WellFormed;
    if toks != [] { ScanAccepts(operand, toks, prevPrec, depth); }
  }

  lemma {:induction false} ScanAccepts(tree: Expr, toks: seq<Info>, prevPrec: nat, depth: nat)
    requires WellFormed(toks, true, depth) && Operators(toks)
    ensures Stopped(ScanRest(tree, toks, prevPrec), prevPrec, depth)
    decreases |toks|, 1
  {
    if toks != [] && toks[0].kind == BiOp && toks[0].prec > prevPrec {
      hide GetExpr, ScanRest, Continue, WellFormed;
      assert toks == [toks[0]] + toks[1..];
      WellFormedCons(toks[0], toks[1..], depth);
      Accepts(toks[1..], toks[0].prec, depth);
      var r := GetExpr(toks[1..], toks[0].prec);
      StepScan(tree, toks, prevPrec, r.tree, r.rest);
      ScanAccepts(Node(toks[0], tree, r.tree), r.rest, prevPrec, depth);
    } else {
      hide GetExpr, Continue;
    }
  }

  /** A token list is accepted exactly if it is well-formed. */
  lemma AcceptedIff(toks: seq<Info>)
    requires Operators(toks)
    ensures ParseAll(toks).Done? <==> WellFormed(toks, false, 0)
  {
    hide GetExpr;
    AcceptedSane(toks, NO_PREC, 0);
    assert WellFormed([], true, 0);
    if WellFormed(toks, false, 0) {
      Accepts(toks, NO_PREC, 0);
    }
  }

  // ----- Every token is used -----

  /** The tokens without the parentheses. */
  function Strip(toks: seq<Info>): seq<Info> {
    if toks == [] then []
    else (if toks[0].kind == OpenParen || toks[0].kind == CloseParen then [] else [toks[0]]) + Strip(toks[1..])
  }

  /** The nodes of an expression from left to right. */
  function Flat(t: Expr): seq<Info> {
    if t.Nil? then [] else Flat(t.left) + [t.n] + Flat(t.right)
  }

  predicate Used(before: seq<Info>, r: Parse) { r.Done? ==> before == Flat(r.tree) + Strip(r.rest) }

  lemma StripCons(x: Info, tail: seq<Info>)
    ensures Strip([x] + tail) == (if x.kind == OpenParen || x.kind == CloseParen then [] else [x]) + Strip(tail)
  {
    assert ([x] + tail)[1..] == tail;
  }

  lemma {:induction false} AllUsed(toks: seq<Info>, prevPrec: nat)
    ensures Used(Strip(toks), GetExpr(toks, prevPrec))
    decreases |toks|, 4
  {
    if toks != [] {
      hide Continue, ScanRest, Strip;
      var x, tail := toks[0], toks[1..];
      assert toks == [x] + tail;
      StripCons(x, tail);
      if x.kind == Primary {
        ContinueUsed(Node(x, Nil, Nil), tail, prevPrec);
        assert Flat(Node(x, Nil, Nil)) == [x];
      } else if x.kind == UniOp {
        AllUsed(tail, NEGATE_PREC);
        var r := GetExpr(tail, NEGATE_PREC);
        if r.Done? {
          ContinueUsed(Node(x, Nil, r.tree), r.rest, prevPrec);
          assert Flat(Node(x, Nil, r.tree)) == [] + [x] + Flat(r.tree) == [x] + Flat(r.tree);
          Assoc([x], Flat(r.tree), Strip(r.rest));
        }
      } else if x.kind == OpenParen {
        AllUsed(tail, NO_PREC);
        var r := GetExpr(tail, NO_PREC);
        if r.Done? && r.rest != [] && r.rest[0].kind == CloseParen {
          assert r.rest == [r.rest[0]] + r.rest[1..];
          StripCons(r.rest[0], r.rest[1..]);
          ContinueUsed(r.tree, r.rest[1..], prevPrec);
        }
      }
    }
  }

  lemma {:induction false} ContinueUsed(operand: Expr, toks: seq<Info>, prevPrec: nat)
    ensures Used(Flat(operand) + Strip(toks), Continue(operand, toks, prevPrec))
    decreases |toks|, 2
  {
    hide GetExpr, ScanRest, Strip;
    if toks != [] { ScanUsed(operand, toks, prevPrec); }
  }

  lemma {:induction false} ScanUsed(tree: Expr, toks: seq<Info>, prevPrec: nat)
    ensures Used(Flat(tree) + Strip(toks), ScanRest(tree, toks, prevPrec))
    decreases |toks|, 1
  {
    if toks != [] && toks[0].kind == BiOp && toks[0].prec > prevPrec {
      hide GetExpr, ScanRest, Continue, Strip;
      var op, r := toks[0], GetExpr(toks[1..], toks[0].prec);
      assert toks == [op] + toks[1..];
      StripCons(op, toks[1..]);
      AllUsed(toks[1..], op.prec);
      if r.Done? {
        StepScan(tree, toks, prevPrec, r.tree, r.rest);
        ScanUsed(Node(op, tree, r.tree), r.rest, prevPrec);
        Assoc(Flat(tree), [op], Flat(r.tree) + Strip(r.rest));
        Assoc(Flat(tree) + [op], Flat(r.tree), Strip(r.rest));
      } else {
        StepScanFail(tree, toks, prevPrec);
      }
    } else {
      hide GetExpr, Continue;
    }
  }

  /** The tree is made of the tokens that are no parentheses, in the order the user gave them. */
  lemma ParsedTokens(toks: seq<Info>)
    requires ParseAll(toks).Done?
    ensures Flat(ParseAll(toks).tree) == Strip(toks)
  {
    hide GetExpr;
    AllUsed(toks, NO_PREC);
    var t := ParseAll(toks).tree;
    assert Flat(t) + [] == Flat(t);
  }

  // ----- No token list with fewer parentheses gives the tree -----

  function Opens(s: seq<Info>): nat {
    if s == [] then 0 else (if s[0].kind == OpenParen then 1 else 0) + Opens(s[1..])
  }

  lemma {:induction false} OpensConcat(a: seq<Info>, b: seq<Info>)
    ensures Opens(a + b) == Opens(a) + Opens(b)
  {
    if a == [] {
      assert a + b == b;
    } else {
      assert (a + b)[1..] == a[1..] + b;
      OpensConcat(a[1..], b);
    }
  }

  /** How many pairs of parentheses `t` needs where an expression binding at least as tightly as `q` is needed. */
  function Pairs(t: Expr, q: nat): nat {
    if t.Nil? then 0
    else
      (if Binding(t) < q then 1 else 0) +
      (if t.n.kind == UniOp then Pairs(t.right, ATOM)
       else if t.n.kind == BiOp then Pairs(t.left, t.n.prec) + Pairs(t.right, t.n.prec + 1)
       else 0)
  }

  lemma {:induction false} PrintOpens(t: Expr, q: nat, open: Info, close: Info)
    requires Source(t) && Parens(open, close)
    ensures Opens(Print(t, q, open, close)) == Pairs(t, q)
    decreases t, if Binding(t) < q then 1 else 0
  {
    if Binding(t) < q {
      var inner := Print(t, COMMA_PREC, open, close);
      PrintOpens(t, COMMA_PREC, open, close);
      OpensConcat([open], inner);
      OpensConcat([open] + inner, [close]);
    } else if t.n.kind == UniOp {
      PrintOpens(t.right, ATOM, open, close);
      OpensConcat([t.n], Print(t.right, ATOM, open, close));
    } else if t.n.kind == BiOp {
      var l, r := Print(t.left, t.n.prec, open, close), Print(t.right, t.n.prec + 1, open, close);
      PrintOpens(t.left, t.n.prec, open, close);
      PrintOpens(t.right, t.n.prec + 1, open, close);
      OpensConcat(l, [t.n]);
      OpensConcat(l + [t.n], r);
    }
  }

  /** The parentheses used up pay for those the tree needs, and the parser stops where an operator binds no tighter. */
  predicate Paid(paid: int, r: Parse, prevPrec: nat) {
    r.Done? ==>
      && paid >= Opens(r.rest) + Pairs(r.tree, prevPrec + 1)
      && (r.rest == [] || r.rest[0].prec <= prevPrec || r.rest[0].kind == CloseParen)
  }

  lemma {:induction false} NeedsPairs(toks: seq<Info>, prevPrec: nat)
    requires AllTokens(toks) && prevPrec <= NEGATE_PREC
    ensures Paid(Opens(toks), GetExpr(toks, prevPrec), prevPrec)
    decreases |toks|, 4
  {
    if toks != [] {
      TokensTail(toks);
      hide AllTokens, Continue, ScanRest;
      if toks[0].kind == Primary {
        ContinuePays(Opens(toks), Node(toks[0], Nil, Nil), toks[1..], prevPrec);
      } else if toks[0].kind == UniOp || toks[0].kind == OpenParen {
        OperandPays(toks, prevPrec);
      }
    }
  }

  lemma {:induction false} OperandPays(toks: seq<Info>, prevPrec: nat)
    requires toks != [] && AllTokens(toks) && prevPrec <= NEGATE_PREC
    requires toks[0].kind == UniOp || toks[0].kind == OpenParen
    ensures Paid(Opens(toks), GetExpr(toks, prevPrec), prevPrec)
    decreases |toks|, 3
  {
    hide AllTokens, Continue, ScanRest;
    var tail := toks[1..];
    var prec := if toks[0].kind == UniOp then NEGATE_PREC else NO_PREC;
    var r := GetExpr(tail, prec);
    TokensTail(toks);
    NeedsPairs(tail, prec);
    ParsedTree(tail, prec);
    if r.Done? {
      if toks[0].kind == UniOp {
        ContinuePays(Opens(toks), Node(toks[0], Nil, r.tree), r.rest, prevPrec);
      } else if r.rest != [] && r.rest[0].kind == CloseParen {
        TokensTail(r.rest);
        ContinuePays(Opens(toks), r.tree, r.rest[1..], prevPrec);
      }
    }
  }

  lemma {:induction false} ContinuePays(paid: int, operand: Expr, toks: seq<Info>, prevPrec: nat)
    requires AllTokens(toks) && prevPrec <= NEGATE_PREC && paid >= Opens(toks) + Pairs(operand, ATOM)
    ensures Paid(paid, Continue(operand, toks, prevPrec), prevPrec)
    decreases |toks|, 2
  {
    if toks != [] { TokensTail(toks); }
    hide AllTokens, GetExpr, ScanRest;
    if toks != [] && toks[0].kind != CloseParen { ScanPays(paid, operand, toks, prevPrec); }
  }

  lemma {:induction false} ScanPays(paid: int, tree: Expr, toks: seq<Info>, prevPrec: nat)
    requires AllTokens(toks) && prevPrec <= NEGATE_PREC && paid >= Opens(toks) + Pairs(tree, prevPrec + 1)
    requires toks != [] && toks[0].kind == BiOp ==> paid >= Opens(toks) + Pairs(tree, toks[0].prec)
    ensures Paid(paid, ScanRest(tree, toks, prevPrec), prevPrec)
    decreases |toks|, 1
  {
    if toks != [] && toks[0].kind == BiOp && toks[0].prec > prevPrec {
      TokensTail(toks);
      hide GetExpr, ScanRest, Continue, AllTokens;
      var r := GetExpr(toks[1..], toks[0].prec);
      NeedsPairs(toks[1..], toks[0].prec);
      ParsedTree(toks[1..], toks[0].prec);
      if r.Done? {
        StepScan(tree, toks, prevPrec, r.tree, r.rest);
        ScanPays(paid, Node(toks[0], tree, r.tree), r.rest, prevPrec);
      } else {
        StepScanFail(tree, toks, prevPrec);
      }
    } else {
      hide GetExpr, Continue, AllTokens;
    }
  }

  /** Printing writes the fewest parentheses: whatever tokens are parsed as the tree have as many at least, so no pair
      can be dropped. */
  lemma FewestPairs(t: Expr, toks: seq<Info>, open: Info, close: Info)
    requires Source(t) && Parens(open, close) && AllTokens(toks) && ParseAll(toks) == Done(t, [])
    ensures Opens(toks) >= Opens(Print(t, COMMA_PREC, open, close))
  {
    NeedsPairs(toks, NO_PREC);
    PrintOpens(t, COMMA_PREC, open, close);
  }
}
