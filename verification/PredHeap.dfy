/** The optimiser of find/tree.c as it runs: nodes in the heap whose pred_left and pred_right
    links are rewritten in place.  Each method is proved to compute the function of the same
    purpose in TreeOpt and ArmSwap, on every heap. */
module PredHeap {
  import opened PredTree
  import T = TreeOpt
  import A = ArmSwap

  /** struct predicate: what never changes is in `info`; `next` is the user's input order. `rate` is est_success_rate,
      which starts as the parser's and is derived anew for operators; opt_expr compares primaries only. */
  class Predicate {
    const info: Info
    const next: Predicate?
    var left: Predicate?
    var right: Predicate?
    var sideEffects: bool
    var rate: real

    constructor (info: Info, next: Predicate?, right: Predicate?)
      ensures this.info == info && this.next == next
      ensures left == null && this.right == right && sideEffects == info.effect && rate == info.rate
    {
      this.info, this.next := info, next;
      left, this.right, sideEffects, rate := null, right, info.effect, info.rate;
    }
  }

  /** The nodes of a linked tree, laid out as a value. */
  type Shape = Tree<Predicate>

  ghost function Nodes(s: Shape): set<Predicate> {
    if s.Nil? then {} else {s.n} + Nodes(s.left) + Nodes(s.right)
  }

  /** The nodes of a shape at hand are all in the heap, so frames speak about them. */
  lemma {:induction false} InHeap(s: Shape)
    ensures forall o :: o in Nodes(s) ==> allocated(o)
  {
    if s.Node? { InHeap(s.left); InHeap(s.right); }
  }

  /** No node occurs twice. */
  ghost predicate Distinct(s: Shape) {
    s.Node? ==>
      && s.n !in Nodes(s.left) && s.n !in Nodes(s.right) && Nodes(s.left) !! Nodes(s.right)
      && Distinct(s.left) && Distinct(s.right)
  }

  /** The expression a shape stands for. */
  ghost function Val(s: Shape): (e: Expr)
    ensures e.Nil? <==> s.Nil?
  {
    if s.Nil? then Nil else Node(s.n.info, Val(s.left), Val(s.right))
  }

  /** The last node of the left spine. */
  ghost function Bottom(s: Shape): (b: Predicate?)
    ensures b == null <==> s.Nil?
    ensures b != null ==> b in Nodes(s)
  {
    if s.Nil? then null else if s.left.Nil? then s.n else Bottom(s.left)
  }

  /** Following left and right from `n` traverses `s`; the left spine ends in `e`.  No operator
      has been marked as having side effects yet. */
  ghost predicate Raw(n: Predicate?, s: Shape, e: Predicate?)
    reads Nodes(s)
  {
    if s.Nil? then n == e
    else
      && n == s.n && s.n.sideEffects == s.n.info.effect && (s.n.info.kind != Primary ==> !s.n.info.effect)
      && Raw(s.n.left, s.left, e) && Raw(s.n.right, s.right, null)
  }

  /** A linked tree whose flags may be set, but only above a primary that has side effects. */
  ghost predicate Linked(n: Predicate?, s: Shape)
    reads Nodes(s)
  {
    if s.Nil? then n == null
    else
      && n == s.n && (s.n.info.kind == Primary ==> s.n.sideEffects == s.n.info.effect)
      && (s.n.sideEffects ==> Effectful(Val(s)))
      && Linked(s.n.left, s.left) && Linked(s.n.right, s.right)
  }

  /** A left-linked list of unmarked operators, each with a linked operand, ending in `e`. */
  ghost predicate Listed(n: Predicate?, s: Shape, e: Predicate?)
    reads Nodes(s)
  {
    if s.Nil? then n == e
    else
      && n == s.n && s.n.info.kind == BiOp && !s.n.sideEffects
      && Listed(s.n.left, s.left, e) && Linked(s.n.right, s.right)
  }

  lemma {:induction false} RawIsLinked(n: Predicate?, s: Shape)
    requires Raw(n, s, null)
    ensures Linked(n, s)
  {
    if s.Node? { RawIsLinked(s.n.left, s.left); RawIsLinked(s.n.right, s.right); }
  }

  lemma {:induction false} ListedIsLinked(n: Predicate?, s: Shape)
    requires Listed(n, s, null)
    ensures Linked(n, s)
  {
    if s.Node? { ListedIsLinked(s.n.left, s.left); }
  }

  lemma {:induction false} ValAppend(a: Shape, b: Shape)
    ensures Val(Append(a, b)) == Append(Val(a), Val(b))
    ensures Nodes(Append(a, b)) == Nodes(a) + Nodes(b)
  {
    if a.Node? { ValAppend(a.left, b); }
  }

  lemma {:induction false} DistinctAppend(a: Shape, b: Shape)
    requires Distinct(a) && Distinct(b) && Nodes(a) !! Nodes(b)
    ensures Distinct(Append(a, b))
  {
    if a.Node? { DistinctAppend(a.left, b); ValAppend(a.left, b); }
  }

  lemma {:induction false} ListedAppend(n: Predicate?, a: Shape, m: Predicate?, b: Shape, e: Predicate?)
    requires Listed(n, a, m) && Listed(m, b, e)
    ensures Listed(n, Append(a, b), e)
  {
    ValAppend(a, b);
    if a.Node? { ListedAppend(a.n.left, a.left, m, b, e); ValAppend(a.left, b); }
  }

  lemma {:induction false} BottomAppend(a: Shape, b: Shape)
    ensures Bottom(Append(a, b)) == if b.Node? then Bottom(b) else Bottom(a)
  {
    if a.Node? { BottomAppend(a.left, b); }
  }

  /** A list without its last node. */
  ghost function Init(s: Shape): Shape
    requires s.Node?
  {
    if s.left.Nil? then Nil else Node(s.n, Init(s.left), s.right)
  }

  ghost function LastOperand(s: Shape): Shape
    requires s.Node?
  {
    if s.left.Nil? then s.right else LastOperand(s.left)
  }

  lemma {:induction false} SplitLast(n: Predicate?, s: Shape, e: Predicate?)
    requires Listed(n, s, e) && Distinct(s) && s.Node?
    ensures s == Append(Init(s), Node(Bottom(s), Nil, LastOperand(s)))
    ensures Listed(n, Init(s), Bottom(s)) && Listed(Bottom(s), Node(Bottom(s), Nil, LastOperand(s)), e)
    ensures Bottom(s) !in Nodes(Init(s)) && Bottom(s) !in Nodes(LastOperand(s)) && Nodes(Init(s)) <= Nodes(s)
  {
    if s.left.Node? { SplitLast(s.n.left, s.left, e); }
  }

  /** Store `x` in the link at the bottom of a list: the root variable or a left field. */
  method SetLink(root: Predicate?, prev: Predicate?, x: Predicate?, ghost s: Shape, ghost e: Predicate?) returns (root': Predicate?)
    requires Listed(root, s, e) && Distinct(s) && prev == Bottom(s)
    modifies if prev == null then {} else {prev}
    ensures Listed(root', s, x) && (s.Node? ==> root' == root)
    ensures prev != null ==> prev.right == old(prev.right) && prev.sideEffects == old(prev.sideEffects)
  {
    if prev == null {
      root' := x;
    } else {
      SplitLast(root, s, e);
      prev.left := x;
      root' := root;
      ListedAppend(root, Init(s), prev, Node(prev, Nil, LastOperand(s)), x);
    }
  }

  // ----- struct predlist -----

  datatype PredList = PredList(head: Predicate?, tail: Predicate?)

  ghost predicate Holds(p: PredList, s: Shape)
    reads Nodes(s)
  {
    Listed(p.head, s, null) && p.tail == Bottom(s) && Distinct(s)
  }

  /** predlist_insert: unlink `curr` from the spine and push it on the list. */
  method PredlistInsert(list: PredList, curr: Predicate, root: Predicate?, prev: Predicate?,
                        ghost kept: Shape, ghost l: Shape, ghost operand: Shape)
    returns (list': PredList, root': Predicate?)
    requires Listed(root, kept, curr) && Distinct(kept) && prev == Bottom(kept)
    requires Holds(list, l) && Nodes(kept) !! Nodes(l)
    requires curr.info.kind == BiOp && !curr.sideEffects && Linked(curr.right, operand) && Distinct(operand)
    requires curr !in Nodes(kept) + Nodes(l) + Nodes(operand) && Nodes(operand) !! Nodes(kept) + Nodes(l)
    modifies {curr} + if prev == null then {} else {prev}
    ensures Listed(root', kept, old(curr.left))
    ensures Holds(list', Node(curr, l, operand))
    ensures prev != null ==> prev.right == old(prev.right) && prev.sideEffects == old(prev.sideEffects)
  {
    InHeap(operand); InHeap(l);
    root' := SetLink(root, prev, curr.left, kept, curr);
    assert Linked(curr.right, operand) && Listed(list.head, l, null);
    curr.left := list.head;
    list' := PredList(curr, if list.tail == null then curr else list.tail);
  }

  /** The scan of predlist_merge_sort for the first node that is not cheaper than `q`. */
  method FindNotCheaper(head: Predicate?, q: Info, x: Info, ghost acc: Shape, ghost vx: Expr)
    returns (p: Predicate?, ghost a: Shape, ghost b: Shape)
    requires Listed(head, acc, null) && T.Loaded(Val(acc)) && vx.Node? && vx.n == x
    ensures acc == Append(a, b) && Listed(head, a, p) && Listed(p, b, null) && (b.Nil? <==> p == null)
    ensures p == null ==> !T.SomeNotCheaper(Val(acc), x)
    ensures T.Loaded(Val(b))
    ensures p != null ==>
              T.Insert(Val(acc), q, vx) == Append(Val(a), Node(p.info, Node(q, Val(b.left), vx), Val(b.right)))
  {
    p := head;
    a, b := Nil, acc;
    while p != null
      invariant acc == Append(a, b) && Listed(head, a, p) && Listed(p, b, null)
      invariant T.Loaded(Val(b))
      invariant T.SomeNotCheaper(Val(acc), x) <==> T.SomeNotCheaper(Val(b), x)
      invariant T.SomeNotCheaper(Val(b), x) ==> T.InsertBelow(Val(acc), q, vx) == Append(Val(a), T.InsertBelow(Val(b), q, vx))
      decreases b
    {
      if T.NotCheaper(p.info, p.right.info, x) {
        return;
      }
      ghost var one: Shape := Node(p, Nil, b.right);
      AppendAssoc(a, one, b.left);
      ListedAppend(head, a, p, one, p.left);
      ValAppend(a, one);
      if T.SomeNotCheaper(Val(b), x) {
        AppendAssoc(Val(a), Val(one), T.InsertBelow(Val(b.left), q, vx));
      }
      p := p.left;
      a, b := Append(a, one), b.left;
    }
    AppendNil(a);
  }

  /** predlist_merge_sort, up to its call of merge_pred. */
  method SortList(list: PredList, ghost l: Shape) returns (sorted: PredList, ghost r: Shape)
    requires Holds(list, l) && T.Loaded(Val(l))
    modifies Nodes(l)
    ensures Holds(sorted, r) && Nodes(r) == Nodes(l)
    ensures Val(r) == T.MergeSort(Val(l), Nil)
  {
    var head := list.head;
    sorted := PredList(null, null);
    ghost var src: Shape := l;
    r := Nil;
    while head != null
      invariant Sorting(head, src, sorted, r)
      invariant Nodes(src) + Nodes(r) == Nodes(l)
      invariant T.MergeSort(Val(src), Val(r)) == T.MergeSort(Val(l), Nil)
      decreases src
    {
      head, sorted, r := SortStep(head, sorted, src, r);
      src := src.left;
    }
  }

  /** Between rounds of the sort: what is left of the source, and the new list. */
  ghost predicate Sorting(head: Predicate?, src: Shape, sorted: PredList, r: Shape)
    reads Nodes(src), Nodes(r)
  {
    && Listed(head, src, null) && Distinct(src) && Holds(sorted, r) && Nodes(src) !! Nodes(r)
    && T.Loaded(Val(src)) && T.Loaded(Val(r))
  }

  method SortStep(head: Predicate, list: PredList, ghost src: Shape, ghost r: Shape)
    returns (head': Predicate?, sorted: PredList, ghost r': Shape)
    requires Sorting(head, src, list, r)
    modifies {head} + Nodes(r)
    ensures Sorting(head', src.left, sorted, r')
    ensures Nodes(src.left) + Nodes(r') == Nodes(src) + Nodes(r)
    ensures T.MergeSort(Val(src.left), Val(r')) == T.MergeSort(Val(src), Val(r))
  {
    InHeap(r); InHeap(src.left);
    head' := Detach(head, src);
    assert Holds(list, r);
    sorted, r' := InsertOne(list, head, r, src.right);
  }

  /** Take the head off a list. */
  method Detach(q: Predicate, ghost src: Shape) returns (head: Predicate?)
    requires Listed(q, src, null) && Distinct(src) && src.Node?
    modifies q
    ensures q.left == null && q.right == old(q.right) && !q.sideEffects
    ensures Listed(head, src.left, null) && Linked(q.right, src.right)
  {
    head := q.left;
    q.left := null;
  }

  /** One round of predlist_merge_sort. */
  method InsertOne(list: PredList, q: Predicate, ghost l: Shape, ghost operand: Shape)
    returns (list': PredList, ghost l': Shape)
    requires Holds(list, l) && T.Loaded(Val(l))
    requires q.info.kind == BiOp && !q.sideEffects && q.left == null && Linked(q.right, operand) && Distinct(operand) && operand.Node?
    requires q !in Nodes(l) + Nodes(operand) && Nodes(operand) !! Nodes(l)
    modifies {q} + Nodes(l)
    ensures Holds(list', l') && Nodes(l') == Nodes(l) + {q} + Nodes(operand)
    ensures q.right == old(q.right)
    ensures T.Loaded(Val(l')) && Val(l') == T.Insert(Val(l), q.info, Val(operand))
  {
    T.InsertLoaded(Val(l), q.info, Val(operand));
    InHeap(l); InHeap(operand);
    var p, a, b := FindNotCheaper(list.head, q.info, q.right.info, l, Val(operand));
    if p != null {
      Placed(a, p, b, l);
      PlacedAfter(a, p, b, q, operand, l);
      LinkAfter(list.head, p, q, a, b, operand);
      list' := if q.left == null then list.(tail := q) else list;
      l' := Append(a, Node(p, Node(q, b.left, operand), b.right));
    } else {
      q.left := list.head;
      assert Listed(list.head, l, null) && Linked(q.right, operand);
      list' := PredList(q, if list.tail == null then q else list.tail);
      l' := Node(q, l, operand);
    }
  }

  /** Link `q` in below `p`. */
  method LinkAfter(head: Predicate?, p: Predicate, q: Predicate, ghost a: Shape, ghost b: Shape, ghost operand: Shape)
    requires Listed(head, a, p) && Listed(p, b, null) && b.Node?
    requires q.info.kind == BiOp && !q.sideEffects && Linked(q.right, operand)
    requires p !in Nodes(a) && p !in Nodes(b.left) && p !in Nodes(b.right) && p !in Nodes(operand)
    requires q !in Nodes(a) && q !in Nodes(b.left) && q !in Nodes(b.right) && q !in Nodes(operand) && p != q
    modifies q, p
    ensures q.right == old(q.right) && (q.left == null <==> b.left.Nil?)
    ensures Listed(head, Append(a, Node(p, Node(q, b.left, operand), b.right)), null)
  {
    q.left := p.left;
    p.left := q;
    assert Listed(head, a, p);
    assert Listed(p, Node(p, Node(q, b.left, operand), b.right), null) by {
      assert Listed(q.left, b.left, null) && Linked(p.right, b.right) && Linked(q.right, operand);
      assert Listed(q, Node(q, b.left, operand), null);
    }
    ListedAppend(head, a, p, Node(p, Node(q, b.left, operand), b.right), null);
  }

  /** The parts of a list around node `p` do not overlap. */
  lemma Placed(a: Shape, p: Predicate, b: Shape, l: Shape)
    requires l == Append(a, b) && Distinct(l) && b.Node? && b.n == p
    ensures Distinct(a) && Distinct(b) && Nodes(a) !! Nodes(b) && Nodes(l) == Nodes(a) + Nodes(b)
  {
    ValAppend(a, b);
    DistinctSplit(a, b);
  }

  lemma {:induction false} DistinctSplit(a: Shape, b: Shape)
    requires Distinct(Append(a, b))
    ensures Distinct(a) && Distinct(b) && Nodes(a) !! Nodes(b)
  {
    if a.Node? { DistinctSplit(a.left, b); ValAppend(a.left, b); }
  }

  lemma PlacedAfter(a: Shape, p: Predicate, b: Shape, q: Predicate, operand: Shape, l: Shape)
    requires l == Append(a, b) && Distinct(a) && Distinct(b) && Nodes(a) !! Nodes(b) && b.Node? && b.n == p
    requires Distinct(operand) && q !in Nodes(l) + Nodes(operand) && Nodes(operand) !! Nodes(l)
    ensures
      var l' := Append(a, Node(p, Node(q, b.left, operand), b.right));
      && Distinct(l') && Nodes(l') == Nodes(l) + {q} + Nodes(operand)
      && Val(l') == Append(Val(a), Node(p.info, Node(q.info, Val(b.left), Val(operand)), Val(b.right)))
      && Bottom(l') == if b.left.Node? then Bottom(l) else q
  {
    ValAppend(a, b);
    var b': Shape := Node(p, Node(q, b.left, operand), b.right);
    assert Nodes(Node(q, b.left, operand)) == {q} + Nodes(b.left) + Nodes(operand);
    assert Distinct(Node(q, b.left, operand));
    assert Nodes(b') == Nodes(b) + {q} + Nodes(operand);
    assert Distinct(b');
    ValAppend(a, b');
    DistinctAppend(a, b');
    BottomAppend(a, b); BottomAppend(a, b');
  }

  /** merge_pred after the sort: hang the list at the link, above what was there. */
  lemma HoldsNothing(list: PredList, l: Shape, m: Shape)
    requires Holds(list, l) && list.head == null
    ensures Nodes(l) == {} && Append(T.MergeSort(Val(l), Nil), Val(m)) == Val(m)
  {
  }

  method MergeList(list: PredList, root: Predicate?, prev: Predicate?, cur: Predicate?,
                   ghost kept: Shape, ghost l: Shape, ghost m: Shape, ghost e: Predicate?)
    returns (root': Predicate?, cur': Predicate?, ghost m': Shape)
    requires Holds(list, l) && T.Loaded(Val(l))
    requires Listed(root, kept, cur) && Distinct(kept) && prev == Bottom(kept) && Listed(cur, m, e) && Distinct(m)
    requires Nodes(kept) !! Nodes(l) && Nodes(kept) !! Nodes(m) && Nodes(l) !! Nodes(m)
    modifies Nodes(l) + if prev == null then {} else {prev}
    ensures Listed(root', kept, cur') && Listed(cur', m', e) && Distinct(m')
    ensures Nodes(m') == Nodes(l) + Nodes(m)
    ensures Val(m') == Append(T.MergeSort(Val(l), Nil), Val(m))
    ensures prev != null ==> prev.right == old(prev.right) && prev.sideEffects == old(prev.sideEffects)
  {
    hide Nodes, Distinct, Val, Raw, Append, T.MergeSort, T.Loaded;
    if list.head == null {
      HoldsNothing(list, l, m);
      root', cur', m' := root, cur, m;
    } else {
      InHeap(kept); InHeap(m);
      var sorted, r := SortList(list, l);
      assert Listed(root, kept, cur) && Listed(cur, m, e);
      InHeap(r);
      var head := SetLink(sorted.head, sorted.tail, cur, r, null);
      assert Listed(root, kept, cur) && Listed(cur, m, e);
      m' := Append(r, m);
      ListedAppend(head, r, cur, m, e);
      ValAppend(r, m); DistinctAppend(r, m);
      InHeap(m');
      root' := SetLink(root, prev, head, kept, cur);
      cur' := head;
    }
  }

  // ----- The lists of one scan -----

  /** The nodes of the last `n` lists. */
  ghost function Foot(ls: seq<Shape>, n: nat): set<Predicate>
    requires n <= |ls|
  {
    if n == 0 then {} else Nodes(ls[|ls| - n]) + Foot(ls, n - 1)
  }

  /** The last `n` lists share no node. */
  ghost predicate Apart(ls: seq<Shape>, n: nat)
    requires n <= |ls|
  {
    n > 0 ==> Nodes(ls[|ls| - n]) !! Foot(ls, n - 1) && Apart(ls, n - 1)
  }

  ghost predicate AllHold(pl: seq<PredList>, ls: seq<Shape>, n: nat)
    requires n <= |ls|
    reads Foot(ls, n)
  {
    |pl| == |ls| && (n > 0 ==> Holds(pl[|ls| - n], ls[|ls| - n]) && T.Loaded(Val(ls[|ls| - n])) && AllHold(pl, ls, n - 1))
  }

  ghost function Vals(ls: seq<Shape>): (v: seq<Expr>)
    ensures |v| == |ls| && forall i :: 0 <= i < |ls| ==> v[i] == Val(ls[i])
  {
    seq(|ls|, i requires 0 <= i < |ls| => Val(ls[i]))
  }

  lemma {:induction false} AllLoaded(pl: seq<PredList>, ls: seq<Shape>, n: nat)
    requires n <= |ls| && AllHold(pl, ls, n)
    ensures forall i :: |ls| - n <= i < |ls| ==> T.Loaded(Val(ls[i]))
  {
    if n > 0 { AllLoaded(pl, ls, n - 1); }
  }

  lemma {:induction false} FootInHeap(ls: seq<Shape>, n: nat)
    requires n <= |ls|
    ensures forall o :: o in Foot(ls, n) ==> allocated(o)
  {
    if n > 0 { InHeap(ls[|ls| - n]); FootInHeap(ls, n - 1); }
  }

  lemma NextList(pl: seq<PredList>, ls: seq<Shape>, n: nat)
    requires 0 < n <= |ls| && AllHold(pl, ls, n) && Apart(ls, n)
    ensures
      var i := |ls| - n;
      && |pl| == |ls| && Holds(pl[i], ls[i]) && T.Loaded(Val(ls[i]))
      && Foot(ls, n) == Nodes(ls[i]) + Foot(ls, n - 1) && Nodes(ls[i]) !! Foot(ls, n - 1)
      && AllHold(pl, ls, n - 1) && Apart(ls, n - 1)
  {}

  lemma Shifted(m: set<Predicate>, l: set<Predicate>, f: set<Predicate>, lf: set<Predicate>, m': set<Predicate>, all: set<Predicate>)
    requires m + lf == all && lf == l + f && m' == l + m && m !! lf && l !! f
    ensures m' + f == all && m' !! f
  {}

  const EMPTY_LIST := PredList(null, null)
  const EMPTY_LISTS := [EMPTY_LIST, EMPTY_LIST, EMPTY_LIST, EMPTY_LIST, EMPTY_LIST, EMPTY_LIST, EMPTY_LIST,
                        EMPTY_LIST, EMPTY_LIST, EMPTY_LIST, EMPTY_LIST, EMPTY_LIST, EMPTY_LIST]
  ghost const NO_SHAPES: seq<Shape> := [Nil, Nil, Nil, Nil, Nil, Nil, Nil, Nil, Nil, Nil, Nil, Nil, Nil]

  lemma {:induction false} NothingHeld(n: nat)
    requires n <= |NO_SHAPES|
    ensures AllHold(EMPTY_LISTS, NO_SHAPES, n) && Apart(NO_SHAPES, n) && Foot(NO_SHAPES, n) == {}
    ensures Vals(NO_SHAPES) == T.NO_LISTS
  {
    if n > 0 { NothingHeld(n - 1); assert NO_SHAPES[13 - n] == Nil && EMPTY_LISTS[13 - n] == EMPTY_LIST; }
  }

  /** Between two lists of merge_lists: `n` lists to go, `m` merged so far above `e`. */
  ghost predicate Merging(root: Predicate?, prev: Predicate?, cur: Predicate?, pl: seq<PredList>,
                          kept: Shape, m: Shape, e: Predicate?, ls: seq<Shape>, n: nat)
    requires n <= |ls|
    reads Nodes(kept), Nodes(m), Foot(ls, n)
  {
    && Listed(root, kept, cur) && Distinct(kept) && prev == Bottom(kept) && Listed(cur, m, e) && Distinct(m)
    && AllHold(pl, ls, n) && Apart(ls, n)
    && Nodes(kept) !! Foot(ls, n) && Nodes(kept) !! Nodes(m) && Nodes(m) !! Foot(ls, n)
  }

  /** merge_lists: name_list, regex_list, then the lists by cost, each on top of the one before. */
  lemma Nothing(pl: seq<PredList>, root: Predicate?, prev: Predicate?, cur: Predicate?, kept: Shape, ls: seq<Shape>)
    requires Merging(root, prev, cur, pl, kept, Nil, cur, ls, |ls|)
    ensures |pl| == |ls|
    ensures var m: Shape := Nil; Nodes(m) == {} && Val(m) == Nil && Foot(ls, 0) == {}
  {
  }

  method MergeLists(pl: seq<PredList>, root: Predicate?, prev: Predicate?, cur: Predicate?,
                    ghost kept: Shape, ghost ls: seq<Shape>)
    returns (root': Predicate?, cur': Predicate?, ghost m: Shape)
    requires Merging(root, prev, cur, pl, kept, Nil, cur, ls, |ls|) && |ls| == T.NUM_LISTS
    requires forall i :: 0 <= i < |ls| ==> T.Loaded(Val(ls[i]))
    modifies Foot(ls, |ls|) + if prev == null then {} else {prev}
    ensures Listed(root', kept, cur') && Listed(cur', m, cur) && Distinct(m) && Nodes(m) == Foot(ls, |ls|)
    ensures Val(m) == T.MergeLists(Vals(ls), T.NUM_LISTS, Nil)
    ensures prev != null ==> prev.right == old(prev.right) && prev.sideEffects == old(prev.sideEffects)
  {
    hide Nodes, Distinct, Listed, Linked, Raw, Holds, Bottom, Val, Foot, Apart, AllHold, Vals;
    root', cur', m := root, cur, Nil;
    Nothing(pl, root, prev, cur, kept, ls);
    var i := 0;
    while i < T.NUM_LISTS
      invariant 0 <= i <= T.NUM_LISTS
      invariant Merging(root', prev, cur', pl, kept, m, cur, ls, |ls| - i)
      invariant Nodes(m) + Foot(ls, |ls| - i) == Foot(ls, |ls|)
      invariant Val(m) == T.MergeLists(Vals(ls), i, Nil)
      invariant prev != null ==> prev.right == old(prev.right) && prev.sideEffects == old(prev.sideEffects)
    {
      assert Foot(ls, |ls| - i) <= Foot(ls, |ls|);
      root', cur', m := MergeStep(pl, i, root', prev, cur', kept, m, cur, ls);
      i := i + 1;
    }
  }

  method MergeStep(pl: seq<PredList>, i: nat, root: Predicate?, prev: Predicate?, cur: Predicate?,
                   ghost kept: Shape, ghost m: Shape, ghost e: Predicate?, ghost ls: seq<Shape>)
    returns (root': Predicate?, cur': Predicate?, ghost m': Shape)
    requires i < |ls| && |pl| == |ls| && Merging(root, prev, cur, pl, kept, m, e, ls, |ls| - i)
    modifies Foot(ls, |ls| - i) + if prev == null then {} else {prev}
    ensures Merging(root', prev, cur', pl, kept, m', e, ls, |ls| - i - 1)
    ensures Nodes(m') + Foot(ls, |ls| - i - 1) == Nodes(m) + Foot(ls, |ls| - i)
    ensures T.Loaded(Val(ls[i])) && Val(m') == Append(T.MergeSort(Val(ls[i]), Nil), Val(m))
    ensures prev != null ==> prev.right == old(prev.right) && prev.sideEffects == old(prev.sideEffects)
  {
    hide Nodes, Distinct, Listed, Linked, Raw, Holds, Val, Foot, Apart, AllHold, Vals;
    ghost var n := |ls| - i;
    NextList(pl, ls, n);
    FootInHeap(ls, n - 1);
    root', cur', m' := MergeList(pl[i], root, prev, cur, kept, ls[i], m, e);
    assert AllHold(pl, ls, n - 1);
    Shifted(Nodes(m), Nodes(ls[i]), Foot(ls, n - 1), Foot(ls, n), Nodes(m'), Nodes(m) + Foot(ls, n));
  }

  // ----- opt_expr -----

  /** The state of the scan at one link: the spine above it is `kept`, `rest` hangs below it,
      and the lists hold what has been taken out. */
  ghost predicate Scanning(root: Predicate?, prev: Predicate?, cur: Predicate?, pl: seq<PredList>,
                           kept: Shape, rest: Shape, ls: seq<Shape>)
    reads Nodes(kept), Nodes(rest), Foot(ls, |ls|)
  {
    && Listed(root, kept, cur) && Distinct(kept) && prev == Bottom(kept)
    && Raw(cur, rest, null) && Distinct(rest)
    && |ls| == T.NUM_LISTS && AllHold(pl, ls, |ls|) && Apart(ls, |ls|)
    && Nodes(kept) !! Nodes(rest) && Nodes(kept) !! Foot(ls, |ls|) && Nodes(rest) !! Foot(ls, |ls|)
  }

  /** The same while the scan works on node `cur`, whose operand has been optimised. */
  ghost predicate AtNode(root: Predicate?, prev: Predicate?, cur: Predicate, pl: seq<PredList>,
                         kept: Shape, operand: Shape, tail: Shape, ls: seq<Shape>)
    reads cur, Nodes(kept), Nodes(operand), Nodes(tail), Foot(ls, |ls|)
  {
    && Listed(root, kept, cur) && Distinct(kept) && prev == Bottom(kept)
    && cur.info.kind == BiOp && !cur.sideEffects && Linked(cur.right, operand) && Distinct(operand)
    && Raw(cur.left, tail, null) && Distinct(tail)
    && |ls| == T.NUM_LISTS && AllHold(pl, ls, |ls|) && Apart(ls, |ls|)
    && cur !in Nodes(kept) && cur !in Nodes(operand) && cur !in Nodes(tail) && cur !in Foot(ls, |ls|)
    && Nodes(kept) !! Nodes(operand) && Nodes(kept) !! Nodes(tail) && Nodes(kept) !! Foot(ls, |ls|)
    && Nodes(operand) !! Nodes(tail) && Nodes(operand) !! Foot(ls, |ls|) && Nodes(tail) !! Foot(ls, |ls|)
  }

  /** Leave the node on the spine and go on below it. */
  lemma KeepNode(root: Predicate?, prev: Predicate?, cur: Predicate, pl: seq<PredList>,
                 kept: Shape, operand: Shape, tail: Shape, ls: seq<Shape>)
    requires AtNode(root, prev, cur, pl, kept, operand, tail, ls)
    ensures
      var kept' := Append(kept, Node(cur, Nil, operand));
      && Scanning(root, cur, cur.left, pl, kept', tail, ls)
      && Nodes(kept') == Nodes(kept) + {cur} + Nodes(operand)
      && Val(kept') == Append(Val(kept), Node(cur.info, Nil, Val(operand)))
  {
    var one: Shape := Node(cur, Nil, operand);
    assert Nodes(one) == {cur} + Nodes(operand);
    ValAppend(kept, one); DistinctAppend(kept, one); BottomAppend(kept, one);
    ListedAppend(root, kept, cur, one, cur.left);
  }

  /** predlist_insert during the scan: the node moves to list `i`. */
  method MoveNode(root: Predicate?, prev: Predicate?, cur: Predicate, pl: seq<PredList>, i: nat,
                  ghost kept: Shape, ghost operand: Shape, ghost tail: Shape, ghost ls: seq<Shape>)
    returns (root': Predicate?, pl': seq<PredList>, ghost ls': seq<Shape>)
    requires AtNode(root, prev, cur, pl, kept, operand, tail, ls) && i < T.NUM_LISTS && operand.Node?
    modifies {cur} + if prev == null then {} else {prev}
    ensures Scanning(root', prev, old(cur.left), pl', kept, tail, ls')
    ensures Foot(ls', |ls'|) == Foot(ls, |ls|) + ({cur} + Nodes(operand))
    ensures Vals(ls') == Vals(ls)[i := Node(cur.info, Val(ls[i]), Val(operand))]
  {
    hide Nodes, Distinct, Listed, Linked, Raw, Foot, Apart, AllHold, Holds, Val, Vals;
    InHeap(kept); InHeap(operand); InHeap(tail); FootInHeap(ls, |ls|);
    HoldAt(pl, ls, |ls|, i);
    ghost var below, l: Shape := cur.left, Node(cur, ls[i], operand);
    var list;
    list, root' := PredlistInsert(pl[i], cur, root, prev, kept, ls[i], operand);
    assert Raw(below, tail, null) && AllHold(pl, ls, |ls|);
    pl', ls' := pl[i := list], ls[i := l];
    Moved(root', prev, cur, below, pl, i, list, kept, operand, tail, ls);
  }

  lemma Moved(root: Predicate?, prev: Predicate?, cur: Predicate, below: Predicate?, pl: seq<PredList>, i: nat, list: PredList,
              kept: Shape, operand: Shape, tail: Shape, ls: seq<Shape>)
    requires |ls| == T.NUM_LISTS && i < T.NUM_LISTS && operand.Node? && Apart(ls, |ls|) && AllHold(pl, ls, |ls|)
    requires Listed(root, kept, below) && Distinct(kept) && prev == Bottom(kept)
    requires Raw(below, tail, null) && Distinct(tail) && Holds(list, Node(cur, ls[i], operand)) && T.Loaded(Val(ls[i]))
    requires cur !in Nodes(kept) && cur !in Nodes(tail) && cur !in Foot(ls, |ls|)
    requires Nodes(kept) !! Nodes(operand) && Nodes(kept) !! Nodes(tail) && Nodes(kept) !! Foot(ls, |ls|)
    requires Nodes(operand) !! Nodes(tail) && Nodes(operand) !! Foot(ls, |ls|) && Nodes(tail) !! Foot(ls, |ls|)
    ensures
      var ls' := ls[i := Node(cur, ls[i], operand)];
      && Scanning(root, prev, below, pl[i := list], kept, tail, ls')
      && Foot(ls', |ls'|) == Foot(ls, |ls|) + ({cur} + Nodes(operand))
      && Vals(ls') == Vals(ls)[i := Node(cur.info, Val(ls[i]), Val(operand))]
  {
    hide Nodes, Distinct, Listed, Linked, Raw, Foot, Apart, AllHold, Holds, Bottom, Val, Vals;
    MovedLists(pl, i, list, cur, operand, ls);
  }

  lemma MovedLists(pl: seq<PredList>, i: nat, list: PredList, cur: Predicate, operand: Shape, ls: seq<Shape>)
    requires i < |ls| && operand.Node? && Apart(ls, |ls|) && AllHold(pl, ls, |ls|)
    requires Holds(list, Node(cur, ls[i], operand)) && T.Loaded(Val(ls[i]))
    requires ({cur} + Nodes(operand)) !! Foot(ls, |ls|)
    ensures
      var ls' := ls[i := Node(cur, ls[i], operand)];
      && Foot(ls', |ls'|) == Foot(ls, |ls|) + ({cur} + Nodes(operand))
      && AllHold(pl[i := list], ls', |ls'|) && Apart(ls', |ls'|)
      && Vals(ls') == Vals(ls)[i := Node(cur.info, Val(ls[i]), Val(operand))]
  {
    PushedList(cur, ls, i, operand);
    HoldPush(pl, ls, |ls|, i, list, Node(cur, ls[i], operand), {cur} + Nodes(operand));
  }

  lemma PushedList(cur: Predicate, ls: seq<Shape>, i: nat, operand: Shape)
    requires i < |ls| && operand.Node? && T.Loaded(Val(ls[i]))
    ensures T.Loaded(Val(Node(cur, ls[i], operand)))
    ensures Nodes(Node(cur, ls[i], operand)) == Nodes(ls[i]) + ({cur} + Nodes(operand))
    ensures Vals(ls[i := Node(cur, ls[i], operand)]) == Vals(ls)[i := Node(cur.info, Val(ls[i]), Val(operand))]
  {
  }

  lemma {:induction false} HoldAt(pl: seq<PredList>, ls: seq<Shape>, n: nat, i: nat)
    requires n <= |ls| && AllHold(pl, ls, n) && |ls| - n <= i < |ls|
    ensures i < |pl| && Holds(pl[i], ls[i]) && T.Loaded(Val(ls[i])) && Nodes(ls[i]) <= Foot(ls, n)
  {
    if |ls| - n < i { HoldAt(pl, ls, n - 1, i); }
  }

  lemma {:induction false} FootSame(ls: seq<Shape>, ls': seq<Shape>, pl: seq<PredList>, pl': seq<PredList>, n: nat)
    requires n <= |ls| == |ls'| == |pl| == |pl'| && forall j :: |ls| - n <= j < |ls| ==> ls[j] == ls'[j] && pl[j] == pl'[j]
    ensures Foot(ls', n) == Foot(ls, n)
    ensures Apart(ls, n) ==> Apart(ls', n)
    ensures AllHold(pl, ls, n) ==> AllHold(pl', ls', n)
  {
    if n > 0 { FootSame(ls, ls', pl, pl', n - 1); }
  }

  lemma {:induction false} HoldPush(pl: seq<PredList>, ls: seq<Shape>, n: nat, i: nat, list: PredList, l: Shape, d: set<Predicate>)
    requires n <= |ls| && AllHold(pl, ls, n) && Apart(ls, n) && |ls| - n <= i < |ls|
    requires Holds(list, l) && T.Loaded(Val(l)) && Nodes(l) == Nodes(ls[i]) + d && d !! Foot(ls, n)
    ensures AllHold(pl[i := list], ls[i := l], n) && Apart(ls[i := l], n) && Foot(ls[i := l], n) == Foot(ls, n) + d
  {
    if |ls| - n < i {
      HoldPush(pl, ls, n - 1, i, list, l, d);
    } else {
      FootSame(ls, ls[i := l], pl, pl[i := list], n - 1);
    }
  }

  /** All nodes of a scan. */
  ghost function Region(kept: Shape, rest: Shape, ls: seq<Shape>): set<Predicate> {
    Nodes(kept) + Nodes(rest) + Foot(ls, |ls|)
  }

  /** The scan looks at a node whose operand it has not touched yet. */
  lemma EnterNode(root: Predicate?, prev: Predicate?, cur: Predicate, pl: seq<PredList>, kept: Shape, rest: Shape, ls: seq<Shape>)
    requires Scanning(root, prev, cur, pl, kept, rest, ls) && rest.Node? && rest.n.info.kind == BiOp
    ensures rest.n == cur && Raw(cur.right, rest.right, null)
    ensures AtNode(root, prev, cur, pl, kept, rest.right, rest.left, ls)
    ensures Nodes(rest) == {cur} + Nodes(rest.right) + Nodes(rest.left)
  {
    RawIsLinked(cur.right, rest.right);
    assert Nodes(rest.left) <= Nodes(rest) && Nodes(rest.right) <= Nodes(rest) && cur in Nodes(rest);
    hide AllHold, Apart, Foot;
  }

  /** set_new_parent at the current link. */
  method SetNewParent(cur: Predicate, prec: nat, root: Predicate?, prev: Predicate?, ghost pl: seq<PredList>,
                      ghost kept: Shape, ghost rest: Shape, ghost ls: seq<Shape>)
    returns (root': Predicate?, parent: Predicate)
    requires Scanning(root, prev, cur, pl, kept, rest, ls)
    modifies if prev == null then {} else {prev}
    ensures fresh(parent) && parent.info == T.NewParent(cur.info, prec)
    ensures Scanning(root', prev, parent, pl, kept, Node(parent, Nil, rest), ls)
    ensures Nodes(Node(parent, Nil, rest)) == {parent} + Nodes(rest)
  {
    InHeap(kept); InHeap(rest); FootInHeap(ls, |ls|);
    parent := new Predicate(T.NewParent(cur.info, prec), null, cur);
    ghost var wrapped: Shape := Node(parent, Nil, rest);
    assert parent !in Nodes(rest);
    assert Nodes(wrapped) == {parent} + Nodes(rest);
    assert Distinct(wrapped);
    hide Nodes, Distinct, Listed, Linked, AllHold, Holds, Apart, Foot, Val;
    assert Listed(root, kept, cur) && Raw(cur, rest, null) && AllHold(pl, ls, |ls|);
    root' := SetLink(root, prev, parent, kept, cur);
    assert Raw(cur, rest, null) && AllHold(pl, ls, |ls|);
    assert Raw(parent, wrapped, null);
  }

  /** merge_lists in the middle of a scan: the lists end up above the current node. */
  method MergeHere(root: Predicate?, prev: Predicate?, cur: Predicate, pl: seq<PredList>,
                   ghost kept: Shape, ghost operand: Shape, ghost tail: Shape, ghost ls: seq<Shape>)
    returns (root': Predicate?, ghost kept': Shape)
    requires AtNode(root, prev, cur, pl, kept, operand, tail, ls)
    modifies Foot(ls, |ls|) + if prev == null then {} else {prev}
    ensures AtNode(root', Bottom(kept'), cur, EMPTY_LISTS, kept', operand, tail, NO_SHAPES)
    ensures Nodes(kept') == Nodes(kept) + Foot(ls, |ls|)
    ensures forall i :: 0 <= i < |ls| ==> T.Loaded(Val(ls[i]))
    ensures Val(kept') == Append(Val(kept), T.MergeLists(Vals(ls), T.NUM_LISTS, Nil))
  {
    InHeap(kept); InHeap(operand); InHeap(tail); FootInHeap(ls, |ls|);
    AllLoaded(pl, ls, |ls|);
    ghost var none: Shape := Nil;
    assert Nodes(none) == {} && Listed(cur, none, cur) && Distinct(none);
    hide Nodes, Distinct, Linked, Raw, Holds, Bottom, Val, Foot, Apart, AllHold, Vals;
    var cur';
    ghost var m;
    root', cur', m := MergeLists(pl, root, prev, cur, kept, ls);
    kept' := Append(kept, m);
    MergedHere(root', cur, cur', kept, m, operand, tail);
  }

  lemma MergedHere(root: Predicate?, cur: Predicate, cur': Predicate?, kept: Shape, m: Shape, operand: Shape, tail: Shape)
    requires Listed(root, kept, cur') && Listed(cur', m, cur) && Distinct(kept) && Distinct(m) && Nodes(kept) !! Nodes(m)
    requires cur.info.kind == BiOp && !cur.sideEffects && Linked(cur.right, operand) && Distinct(operand)
    requires Raw(cur.left, tail, null) && Distinct(tail)
    requires cur !in Nodes(kept) && cur !in Nodes(operand) && cur !in Nodes(tail) && cur !in Nodes(m)
    requires Nodes(kept) !! Nodes(operand) && Nodes(kept) !! Nodes(tail)
    requires Nodes(operand) !! Nodes(tail) && Nodes(operand) !! Nodes(m) && Nodes(tail) !! Nodes(m)
    ensures AtNode(root, Bottom(Append(kept, m)), cur, EMPTY_LISTS, Append(kept, m), operand, tail, NO_SHAPES)
    ensures Nodes(Append(kept, m)) == Nodes(kept) + Nodes(m) && Val(Append(kept, m)) == Append(Val(kept), Val(m))
  {
    hide Nodes, Distinct, Listed, Linked, Raw, Holds, Bottom, Val, Foot, Apart, AllHold, Vals;
    ListedAppend(root, kept, cur', m, cur);
    ValAppend(kept, m); DistinctAppend(kept, m);
    NothingHeld(|NO_SHAPES|);
  }

  /** The lists have operands, so their values can be sorted. */
  ghost predicate Ready(ls: seq<Shape>) {
    |ls| == T.NUM_LISTS && forall i :: 0 <= i < |ls| ==> T.Loaded(Val(ls[i]))
  }

  /** A finished list may be marked at its root when it has side effects. */
  lemma Markable(y: Predicate, s: Shape)
    requires s.Node? && Distinct(s) && s.n == y && y.info.kind == BiOp
    requires Linked(y.left, s.left) && Linked(y.right, s.right) && (y.sideEffects ==> Effectful(Val(s)))
    ensures Linked(y, s)
  {}

  /** The operand of a node: optimise below a negation, or a nested spine. */
  method OptOperand(cur: Predicate, level: nat, ghost r: Shape) returns (ghost r': Shape)
    requires Raw(cur.right, r, null) && Distinct(r) && r.Node? && cur !in Nodes(r)
    requires Parsed(Val(r)) && r.n.info.kind != Primary
    modifies {cur} + Nodes(r)
    ensures cur.left == old(cur.left) && cur.sideEffects == old(cur.sideEffects)
    ensures r'.Node? && Linked(cur.right, r') && Distinct(r') && cur !in Nodes(r')
    ensures Nodes(r) <= Nodes(r') && forall o :: o in Nodes(r') ==> o in Nodes(r) || fresh(o)
    ensures Val(r') == T.OptOperand(Val(r), level).0
    ensures cur.right != null && cur.right.sideEffects == T.OptOperand(Val(r), level).1
    decreases Weight(Val(r)), if r.n.info.kind == BiOp then 6 else 1, 0
  {
    if cur.right.info.kind == UniOp {
      r' := OptNegated(cur, level, r);
    } else {
      r' := OptNested(cur, level, r);
    }
  }

  method OptNegated(cur: Predicate, level: nat, ghost r: Shape) returns (ghost r': Shape)
    requires Raw(cur.right, r, null) && Distinct(r) && r.Node? && cur !in Nodes(r)
    requires Parsed(Val(r)) && r.n.info.kind == UniOp
    modifies Nodes(r)
    ensures r'.Node? && Linked(cur.right, r') && Distinct(r') && cur !in Nodes(r')
    ensures Nodes(r) <= Nodes(r') && forall o :: o in Nodes(r') ==> o in Nodes(r) || fresh(o)
    ensures Val(r') == T.OptOperand(Val(r), level).0
    ensures cur.right != null && cur.right.sideEffects == T.OptOperand(Val(r), level).1
    decreases Weight(Val(r)), 0
  {
    var x := cur.right;
    ghost var t := Val(r.right);
    assert Parsed(t) && Weight(Val(r)) == 1 + Weight(t) && r.left.Nil?;
    var y, fx, s := OptExpr(x.right, level, r.right);
    T.OptEffect(t, level);
    r' := Node(x, Nil, s);
    assert x !in Nodes(s);
    x.right := y;
    x.sideEffects := fx;
    ListedIsLinked(y, s);
  }

  method OptNested(cur: Predicate, level: nat, ghost r: Shape) returns (ghost r': Shape)
    requires Raw(cur.right, r, null) && Distinct(r) && r.Node? && cur !in Nodes(r)
    requires Parsed(Val(r)) && r.n.info.kind == BiOp
    modifies {cur} + Nodes(r)
    ensures cur.left == old(cur.left) && cur.sideEffects == old(cur.sideEffects)
    ensures r'.Node? && Linked(cur.right, r') && Distinct(r') && cur !in Nodes(r')
    ensures Nodes(r) <= Nodes(r') && forall o :: o in Nodes(r') ==> o in Nodes(r) || fresh(o)
    ensures Val(r') == T.OptOperand(Val(r), level).0
    ensures cur.right != null && cur.right.sideEffects == T.OptOperand(Val(r), level).1
    decreases Weight(Val(r)), 5
  {
    var y, fx, s := OptExpr(cur.right, level, r);
    T.OptNormal(Val(r), level);
    T.OptEffect(Val(r), level);
    ListedIsLinked(y, s);
    y.sideEffects := fx;
    Markable(y, s);
    cur.right := y;
    r' := s;
  }

  /** The rest of a spine after its head. */
  ghost predicate SpineShape(rest: Shape) {
    T.Spine(Val(rest))
  }

  /** The outcome of the scan from one of its states on. */
  ghost function Outlook(prec: nat, kept: Shape, rest: Shape, ls: seq<Shape>, level: nat): (Expr, bool)
    requires SpineShape(rest) && Ready(ls)
  {
    var (e, fx) := T.OptChain(prec, Val(rest), Vals(ls), level);
    (Append(Val(kept), e), fx)
  }

  /** What T.OptChain does at a node that is already of the right precedence. */
  ghost function NodeOutlook(prec: nat, kept: Shape, c: Shape, ls: seq<Shape>, level: nat): (Expr, bool)
    requires Ready(ls) && c.Node? && c.n.info.kind == BiOp && Parsed(Val(c.right)) && SpineShape(c.left)
  {
    var (e, fx) :=
      if T.Movable(prec, c.right.n.info, level) then
        T.OptChain(prec, Val(c.left), T.PushList(Vals(ls), T.ListFor(c.right.n.info, level), c.n.info, Val(c.right)), level)
      else T.OptKeep(prec, Val(c), Vals(ls), level);
    (Append(Val(kept), e), fx)
  }

  lemma StepOutlook(prec: nat, kept: Shape, rest: Shape, c: Shape, ls: seq<Shape>, level: nat)
    requires SpineShape(rest) && Ready(ls) && rest.Node? && c.Node? && Val(c) == T.SameSpine(prec, Val(rest))
    ensures c.n.info.kind == BiOp && Parsed(Val(c.right)) && SpineShape(c.left) && c.right.Node?
    ensures Weight(Val(c.left)) < Weight(Val(rest)) == Weight(Val(c))
    ensures Outlook(prec, kept, rest, ls, level) == NodeOutlook(prec, kept, c, ls, level)
    ensures rest.n.info.prec == prec ==> c.left.Node? || c.right.n.info.kind != BiOp
  {
    var v := Val(c);
    assert v.n == c.n.info && v.left == Val(c.left) && v.right == Val(c.right);
    assert Parsed(v.right) && T.Spine(v.left);
  }

  /** The work on one node of the spine, from the test for a foreign operator on. */
  method OptStep(root: Predicate?, prev: Predicate?, cur: Predicate, pl: seq<PredList>, prec: nat, level: nat,
                 ghost kept: Shape, ghost rest: Shape, ghost ls: seq<Shape>)
    returns (root': Predicate?, prev': Predicate?, cur': Predicate?, pl': seq<PredList>, fx: bool,
             ghost kept': Shape, ghost rest': Shape, ghost ls': seq<Shape>)
    requires Scanning(root, prev, cur, pl, kept, rest, ls) && Ready(ls) && rest.Node? && SpineShape(rest)
    requires COMMA_PREC <= prec <= AND_PREC
    modifies Region(kept, rest, ls)
    ensures Scanning(root', prev', cur', pl', kept', rest', ls') && Ready(ls') && SpineShape(rest')
    ensures Region(kept, rest, ls) <= Region(kept', rest', ls')
    ensures forall o :: o in Region(kept', rest', ls') ==> o in Region(kept, rest, ls) || fresh(o)
    ensures Weight(Val(rest')) < Weight(Val(rest))
    ensures
      var a, b := Outlook(prec, kept, rest, ls, level), Outlook(prec, kept', rest', ls', level);
      a.0 == b.0 && a.1 == (fx || b.1)
    decreases Weight(Val(rest)), if rest.n.info.prec != prec then 8 else 2
  {
    assert cur == rest.n && Val(rest).n == cur.info;
    if cur.info.prec != prec {
      var parent, root1;
      root1, parent := SetNewParent(cur, prec, root, prev, pl, kept, rest, ls);
      ghost var wrapped: Shape := Node(parent, Nil, rest);
      assert Val(wrapped) == T.SameSpine(prec, Val(rest));
      StepOutlook(prec, kept, rest, wrapped, ls, level);
      assert Region(kept, wrapped, ls) == Region(kept, rest, ls) + {parent};
      hide *;
      label Before:
      root', prev', cur', pl', fx, kept', rest', ls' := OptNode(root1, prev, parent, pl, prec, level, kept, wrapped, ls);
      forall o | o in Region(kept', rest', ls') ensures o in Region(kept, rest, ls) || fresh(o) {
        if o !in Region(kept, rest, ls) && o != parent {
          assert o in Region(kept', rest', ls') - Region(kept, wrapped, ls);
          assert !old@Before(allocated(o));
        }
      }
    } else {
      StepOutlook(prec, kept, rest, rest, ls, level);
      hide *;
      root', prev', cur', pl', fx, kept', rest', ls' := OptNode(root, prev, cur, pl, prec, level, kept, rest, ls);
    }
  }

  method OptNode(root: Predicate?, prev: Predicate?, cur: Predicate, pl: seq<PredList>, prec: nat, level: nat,
                 ghost kept: Shape, ghost c: Shape, ghost ls: seq<Shape>)
    returns (root': Predicate?, prev': Predicate?, cur': Predicate?, pl': seq<PredList>, fx: bool,
             ghost kept': Shape, ghost rest': Shape, ghost ls': seq<Shape>)
    requires Scanning(root, prev, cur, pl, kept, c, ls) && Ready(ls)
    requires c.Node? && c.n.info.kind == BiOp && Parsed(Val(c.right)) && SpineShape(c.left)
    modifies Region(kept, c, ls)
    ensures Scanning(root', prev', cur', pl', kept', rest', ls') && Ready(ls') && rest' == c.left
    ensures Region(kept, c, ls) <= Region(kept', rest', ls') && forall o :: o in Region(kept', rest', ls') ==> o in Region(kept, c, ls) || fresh(o)
    ensures
      var a, b := NodeOutlook(prec, kept, c, ls, level), Outlook(prec, kept', rest', ls', level);
      a.0 == b.0 && a.1 == (fx || b.1)
    decreases Weight(Val(c)), if c.left.Nil? && c.right.n.info.kind == BiOp then 7 else 2, 1
  {
    EnterNode(root, prev, cur, pl, kept, c, ls);
    assert cur.right != null && c.right.n == cur.right;
    if T.Movable(prec, cur.right.info, level) {
      prev', kept', rest', fx := prev, kept, c.left, false;
      cur' := cur.left;
      ghost var i := T.ListFor(cur.right.info, level);
      root', pl', ls' := MoveNode(root, prev, cur, pl, T.ListFor(cur.right.info, level), kept, c.right, c.left, ls);
      MoveOutlook(prec, kept, c, ls, ls', level);
      RegionMoved(kept, c, cur, ls, ls');
    } else {
      cur' := cur.left;
      prev', rest' := cur, c.left;
      hide *;
      root', pl', fx, kept', ls' := OptKeep(root, prev, cur, pl, prec, level, kept, c, ls);
    }
  }

  lemma MoveOutlook(prec: nat, kept: Shape, c: Shape, ls: seq<Shape>, ls': seq<Shape>, level: nat)
    requires Ready(ls) && c.Node? && c.n.info.kind == BiOp && Parsed(Val(c.right)) && SpineShape(c.left)
    requires T.Movable(prec, c.right.n.info, level) && |ls'| == T.NUM_LISTS
    requires var i := T.ListFor(c.right.n.info, level); Vals(ls') == Vals(ls)[i := Node(c.n.info, Val(ls[i]), Val(c.right))]
    ensures Ready(ls') && NodeOutlook(prec, kept, c, ls, level) == Outlook(prec, kept, c.left, ls', level)
  {
    var i := T.ListFor(c.right.n.info, level);
    var vs: T.Lists := Vals(ls);
    assert Vals(ls') == T.PushList(vs, i, c.n.info, Val(c.right));
    forall j | 0 <= j < |ls'| ensures T.Loaded(Val(ls'[j])) {
      assert T.Loaded(T.PushList(vs, i, c.n.info, Val(c.right))[j]);
    }
  }

  lemma RegionMoved(kept: Shape, c: Shape, cur: Predicate, ls: seq<Shape>, ls': seq<Shape>)
    requires c.Node? && Nodes(c) == {cur} + Nodes(c.right) + Nodes(c.left)
    requires Foot(ls', |ls'|) == Foot(ls, |ls|) + ({cur} + Nodes(c.right))
    ensures Region(kept, c.left, ls') == Region(kept, c, ls)
  {}

  /** A node that stays: optimise its operand, and end the run of movable operands if it has
      side effects. */
  method OptKeep(root: Predicate?, prev: Predicate?, cur: Predicate, pl: seq<PredList>, prec: nat, level: nat,
                 ghost kept: Shape, ghost c: Shape, ghost ls: seq<Shape>)
    returns (root': Predicate?, pl': seq<PredList>, fx: bool, ghost kept': Shape, ghost ls': seq<Shape>)
    requires c.Node? && c.n == cur && Nodes(c) == {cur} + Nodes(c.right) + Nodes(c.left)
    requires AtNode(root, prev, cur, pl, kept, c.right, c.left, ls) && Raw(cur.right, c.right, null) && Ready(ls)
    requires Parsed(Val(c.right)) && SpineShape(c.left) && !T.Movable(prec, c.right.n.info, level)
    modifies Region(kept, c, ls)
    ensures cur.left == old(cur.left)
    ensures Scanning(root', cur, cur.left, pl', kept', c.left, ls') && Ready(ls')
    ensures Region(kept, c, ls) <= Region(kept', c.left, ls') && forall o :: o in Region(kept', c.left, ls') ==> o in Region(kept, c, ls) || fresh(o)
    ensures
      var a, b := NodeOutlook(prec, kept, c, ls, level), Outlook(prec, kept', c.left, ls', level);
      a.0 == b.0 && a.1 == (fx || b.1)
    decreases Weight(Val(c)), if c.left.Nil? && c.right.n.info.kind == BiOp then 7 else 2, 0
  {
    ghost var operand := c.right;
    assert cur.right != null && c.right.n == cur.right && Val(c.left) == Val(c).left;
    hide *;
    if cur.right.info.kind != Primary {
      operand := OperandAt(root, prev, cur, pl, level, kept, c.right, c.left, ls);
    }
    OperandValue(cur, c.right, operand, level);
    fx := cur.right.sideEffects;
    if fx {
      ghost var m;
      root', m := MergeHere(root, prev, cur, pl, kept, operand, c.left, ls);
      KeepNode(root', Bottom(m), cur, EMPTY_LISTS, m, operand, c.left, NO_SHAPES);
      pl', kept', ls' := EMPTY_LISTS, Append(m, Node(cur, Nil, operand)), NO_SHAPES;
      KeepOutlookFx(prec, kept, c, ls, level, m, operand);
      NothingHeld(|NO_SHAPES|);
      RegionKept(kept, c, cur, operand, ls, m, ls');
    } else {
      KeepNode(root, prev, cur, pl, kept, operand, c.left, ls);
      root', pl', kept', ls' := root, pl, Append(kept, Node(cur, Nil, operand)), ls;
      KeepOutlook(prec, kept, c, ls, level, operand);
      RegionKept(kept, c, cur, operand, ls, kept, ls');
    }
  }

  lemma KeepOutlook(prec: nat, kept: Shape, c: Shape, ls: seq<Shape>, level: nat, operand: Shape)
    requires Ready(ls) && c.Node? && c.n.info.kind == BiOp && Parsed(Val(c.right)) && SpineShape(c.left)
    requires !T.Movable(prec, c.right.n.info, level) && T.OptOperand(Val(c.right), level) == (Val(operand), false)
    ensures
      var kept' := Append(kept, Node(c.n, Nil, operand));
      NodeOutlook(prec, kept, c, ls, level) == Outlook(prec, kept', c.left, ls, level)
  {
    var one: Shape, below := Node(c.n, Nil, operand), T.OptChain(prec, Val(c.left), Vals(ls), level).0;
    ValAppend(kept, one);
    AppendAssoc(Val(kept), Val(one), below);
  }

  lemma KeepOutlookFx(prec: nat, kept: Shape, c: Shape, ls: seq<Shape>, level: nat, m: Shape, operand: Shape)
    requires Ready(ls) && c.Node? && c.n.info.kind == BiOp && Parsed(Val(c.right)) && SpineShape(c.left)
    requires !T.Movable(prec, c.right.n.info, level) && T.OptOperand(Val(c.right), level) == (Val(operand), true)
    requires Val(m) == Append(Val(kept), T.MergeLists(Vals(ls), T.NUM_LISTS, Nil))
    ensures
      var kept' := Append(m, Node(c.n, Nil, operand));
      && Ready(NO_SHAPES)
      && NodeOutlook(prec, kept, c, ls, level).0 == Outlook(prec, kept', c.left, NO_SHAPES, level).0
      && NodeOutlook(prec, kept, c, ls, level).1
  {
    NothingHeld(|NO_SHAPES|);
    AllLoaded(EMPTY_LISTS, NO_SHAPES, |NO_SHAPES|);
    var one: Shape, below := Node(c.n, Nil, operand), T.OptChain(prec, Val(c.left), T.NO_LISTS, level).0;
    var merged := T.MergeLists(Vals(ls), T.NUM_LISTS, Nil);
    ValAppend(m, one);
    T.MergeBelow(Vals(ls), T.NUM_LISTS, Append(Val(one), below));
    AppendAssoc(Append(Val(kept), merged), Val(one), below);
    AppendAssoc(Val(kept), merged, Append(Val(one), below));
  }

  /** Nodes are neither lost nor duplicated when node `cur` joins the finished part of the spine. */
  lemma RegionIs(kept: Shape, rest: Shape, ls: seq<Shape>)
    ensures Region(kept, rest, ls) == Nodes(kept) + Nodes(rest) + Foot(ls, |ls|)
  {
    hide Nodes, Foot;
  }

  lemma RegionKept(kept: Shape, c: Shape, cur: Predicate, operand: Shape, ls: seq<Shape>, m: Shape, ls': seq<Shape>)
    requires c.Node? && Nodes(c) == {cur} + Nodes(c.right) + Nodes(c.left) && Nodes(c.right) <= Nodes(operand)
    requires (m == kept && ls' == ls) || (Nodes(m) == Nodes(kept) + Foot(ls, |ls|) && Foot(ls', |ls'|) == {})
    ensures
      var now, was := Region(Append(m, Node(cur, Nil, operand)), c.left, ls'), Region(kept, c, ls);
      was <= now && forall o :: o in now ==> o in was || (o in Nodes(operand) && o !in Nodes(c.right))
  {
    var one: Shape := Node(cur, Nil, operand);
    assert Nodes(one) == {cur} + Nodes(operand);
    hide *;
    RegionIs(kept, c, ls);
    RegionIs(Append(m, one), c.left, ls');
    ValAppend(m, one);
    assert Nodes(m) + Foot(ls', |ls'|) == Nodes(kept) + Foot(ls, |ls|);
    KeptSets(Nodes(kept), Foot(ls, |ls|), Nodes(c), Nodes(m), Foot(ls', |ls'|), Nodes(one), {cur}, Nodes(c.right), Nodes(c.left), Nodes(operand),
             Nodes(Append(m, one)), Region(kept, c, ls), Region(Append(m, one), c.left, ls'));
  }

  lemma KeptSets(k: set<Predicate>, f: set<Predicate>, c: set<Predicate>, k': set<Predicate>, f': set<Predicate>, one: set<Predicate>,
                 n: set<Predicate>, r: set<Predicate>, t: set<Predicate>, o: set<Predicate>, k'': set<Predicate>,
                 was: set<Predicate>, now: set<Predicate>)
    requires k' + f' == k + f && r <= o && c == n + r + t && one == n + o && k'' == k' + one
    requires was == k + c + f && now == k'' + t + f'
    ensures was <= now && forall x :: x in now ==> x in was || (x in o && x !in r)
  {
    assert forall x :: x in now ==> x in k' + f' || x in n || x in o || x in t;
    assert forall x :: x in was ==> x in k' + f' || x in n || x in r || x in t;
  }

  /** Optimising the operand leaves the rest of the scan alone. */
  method OperandAt(root: Predicate?, prev: Predicate?, cur: Predicate, pl: seq<PredList>, level: nat,
                   ghost kept: Shape, ghost r: Shape, ghost tail: Shape, ghost ls: seq<Shape>)
    returns (ghost r': Shape)
    requires AtNode(root, prev, cur, pl, kept, r, tail, ls) && Raw(cur.right, r, null)
    requires r.Node? && Parsed(Val(r)) && r.n.info.kind != Primary
    modifies {cur} + Nodes(r)
    ensures cur.left == old(cur.left)
    ensures AtNode(root, prev, cur, pl, kept, r', tail, ls) && r'.Node?
    ensures Nodes(r) <= Nodes(r') && forall o :: o in Nodes(r') ==> o in Nodes(r) || fresh(o)
    ensures Val(r') == T.OptOperand(Val(r), level).0
    ensures cur.right != null && cur.right.sideEffects == T.OptOperand(Val(r), level).1
    decreases Weight(Val(r)), if r.n.info.kind == BiOp then 6 else 1, 1
  {
    hide Nodes, Distinct, Listed, Linked, Raw, Holds, Bottom, Val, Foot, Apart, AllHold, Vals;
    InHeap(kept); InHeap(tail); FootInHeap(ls, |ls|);
    r' := OptOperand(cur, level, r);
  }

  /** A primary stands for itself. */
  lemma OperandValue(cur: Predicate, r: Shape, r': Shape, level: nat)
    requires r.Node? && Parsed(Val(r)) && cur.right != null && r'.Node?
    requires if r.n.info.kind == Primary then r' == r && Linked(cur.right, r)
             else Val(r') == T.OptOperand(Val(r), level).0 && cur.right.sideEffects == T.OptOperand(Val(r), level).1
    ensures (Val(r'), cur.right.sideEffects) == T.OptOperand(Val(r), level)
  {}

  lemma StartScan(root: Predicate, s: Shape)
    requires Raw(root, s, null) && Distinct(s) && s.Node?
    ensures root == s.n && Scanning(root, null, root, EMPTY_LISTS, Nil, s, NO_SHAPES) && Ready(NO_SHAPES)
    ensures Region(Nil, s, NO_SHAPES) == Nodes(s) && Vals(NO_SHAPES) == T.NO_LISTS
  {
    NothingHeld(|NO_SHAPES|);
    AllLoaded(EMPTY_LISTS, NO_SHAPES, |NO_SHAPES|);
  }

  /** The main loop of opt_expr over a spine of operators. */
  method OptSpine(root: Predicate, level: nat, ghost s: Shape)
    returns (root': Predicate?, fx: bool, ghost s': Shape)
    requires Raw(root, s, null) && Distinct(s) && s.Node? && SpineShape(s)
    modifies Nodes(s)
    ensures Listed(root', s', null) && Distinct(s')
    ensures Nodes(s) <= Nodes(s') && forall o :: o in Nodes(s') ==> o in Nodes(s) || fresh(o)
    ensures (Val(s'), fx) == T.OptChain(root.info.prec, Val(s), T.NO_LISTS, level)
    decreases Weight(Val(s)), 3
  {
    var prec := root.info.prec;
    var prev: Predicate?, cur: Predicate?, pl := null, root, EMPTY_LISTS;
    root', fx := root, false;
    ghost var kept: Shape, rest, ls := Nil, s, NO_SHAPES;
    StartScan(root, s);
    ghost var total := T.OptChain(prec, Val(s), T.NO_LISTS, level);
    assert COMMA_PREC <= prec <= AND_PREC && Outlook(prec, kept, rest, ls, level) == total && prec == s.n.info.prec;
    hide *;
    while cur != null
      invariant Scanning(root', prev, cur, pl, kept, rest, ls) && Ready(ls) && SpineShape(rest)
      invariant Weight(Val(rest)) < Weight(Val(s)) || (rest == s && kept.Nil?)
      invariant Outlook(prec, kept, rest, ls, level).0 == total.0
      invariant (fx || Outlook(prec, kept, rest, ls, level).1) == total.1
      invariant Nodes(s) <= Region(kept, rest, ls)
      invariant forall o :: o in Region(kept, rest, ls) ==> o in Nodes(s) || fresh(o)
      decreases Weight(Val(rest))
    {
      ScanEnds(root', prev, cur, pl, kept, rest, ls);
      ghost var was := Region(kept, rest, ls);
      var stepFx;
      label Before:
      root', prev, cur, pl, stepFx, kept, rest, ls := OptStep(root', prev, cur, pl, prec, level, kept, rest, ls);
      forall o | o in Region(kept, rest, ls) ensures o in Nodes(s) || fresh(o) {
        if o !in was { assert !old@Before(allocated(o)); }
      }
      fx := fx || stepFx;
    }
    root', s' := FinishScan(root', prev, pl, kept, rest, ls, prec, level);
  }

  lemma ScanEnds(root: Predicate?, prev: Predicate?, cur: Predicate?, pl: seq<PredList>, kept: Shape, rest: Shape, ls: seq<Shape>)
    requires Scanning(root, prev, cur, pl, kept, rest, ls)
    ensures cur == null <==> rest.Nil?
  {}

  /** The final merge of opt_expr. */
  method FinishScan(root: Predicate?, prev: Predicate?, pl: seq<PredList>, ghost kept: Shape, ghost rest: Shape, ghost ls: seq<Shape>,
                    ghost prec: nat, ghost level: nat)
    returns (root': Predicate?, ghost s': Shape)
    requires Scanning(root, prev, null, pl, kept, rest, ls) && Ready(ls) && SpineShape(rest)
    modifies Region(kept, rest, ls)
    ensures Listed(root', s', null) && Distinct(s') && Nodes(s') == Region(kept, rest, ls)
    ensures rest.Nil? && (Val(s'), false) == Outlook(prec, kept, rest, ls, level)
  {
    assert rest.Nil? && Nodes(rest) == {};
    var cur';
    ghost var m;
    ghost var none: Shape := Nil;
    assert Nodes(none) == {} && Listed(null, none, null) && Distinct(none);
    hide Nodes, Distinct, Linked, Raw, Holds, Bottom, Val, Foot, Apart, AllHold, Vals;
    root', cur', m := MergeLists(pl, root, prev, null, kept, ls);
    s' := Append(kept, m);
    ListedAppend(root', kept, cur', m, null);
    ValAppend(kept, m); DistinctAppend(kept, m);
  }

  // ----- Wrapping the leftmost operand -----

  lemma {:induction false} RawAppend(n: Predicate?, a: Shape, m: Predicate?, b: Shape, e: Predicate?)
    requires Raw(n, a, m) && Raw(m, b, e)
    ensures Raw(n, Append(a, b), e)
  {
    ValAppend(a, b);
    if a.Node? { RawAppend(a.n.left, a.left, m, b, e); ValAppend(a.left, b); }
  }

  lemma {:induction false} RawSplitLast(n: Predicate?, s: Shape, e: Predicate?)
    requires Raw(n, s, e) && Distinct(s) && s.Node?
    ensures s == Append(Init(s), Node(Bottom(s), Nil, LastOperand(s)))
    ensures Raw(n, Init(s), Bottom(s)) && Raw(Bottom(s), Node(Bottom(s), Nil, LastOperand(s)), e)
    ensures Bottom(s) !in Nodes(Init(s)) && Bottom(s) !in Nodes(LastOperand(s)) && Nodes(Init(s)) <= Nodes(s)
  {
    if s.left.Node? { RawSplitLast(s.n.left, s.left, e); }
  }

  /** The start of opt_expr: walk to the leftmost node and give it a binary parent when needed. */
  method Normalise(root: Predicate, ghost s: Shape) returns (root': Predicate, ghost s': Shape)
    requires Raw(root, s, null) && Distinct(s) && s.Node? && Parsed(Val(s))
    modifies Nodes(s)
    ensures Raw(root', s', null) && Distinct(s') && Val(s') == T.WrapLeftmost(Val(s), AND_PREC)
    ensures Nodes(s) <= Nodes(s') && forall o :: o in Nodes(s') ==> o in Nodes(s) || fresh(o)
  {
    var prev: Predicate?, prec, curr := null, AND_PREC, root;
    ghost var a: Shape, b := Nil, s;
    while curr.left != null
      invariant s == Append(a, b) && Raw(root, a, curr) && Raw(curr, b, null)
      invariant b.Node? && Parsed(Val(b)) && COMMA_PREC <= prec <= AND_PREC
      invariant prev == Bottom(a) && (a.Nil? ==> root == curr)
      invariant T.WrapLeftmost(Val(s), AND_PREC) == Append(Val(a), T.WrapLeftmost(Val(b), prec))
      decreases b
    {
      ghost var one: Shape, wrapped := Node(curr, Nil, b.right), T.WrapLeftmost(Val(b.left), curr.info.prec);
      assert Val(b).left == Val(b.left) && Parsed(Val(b.left));
      AppendAssoc(a, one, b.left);
      RawAppend(root, a, curr, one, curr.left);
      ValAppend(a, one); BottomAppend(a, one);
      AppendAssoc(Val(a), Val(one), wrapped);
      prev, prec := curr, curr.info.prec;
      curr := curr.left;
      a, b := Append(a, one), b.left;
    }
    DistinctSplit(a, b); ValAppend(a, b);
    if curr.info.kind != BiOp {
      root', s' := WrapAt(root, prev, curr, prec, a, b);
    } else {
      RawAppend(root, a, curr, b, null);
      root', s' := root, s;
    }
  }

  /** set_new_parent at the leftmost operand. */
  method WrapAt(root: Predicate, prev: Predicate?, curr: Predicate, prec: nat, ghost a: Shape, ghost b: Shape)
    returns (root': Predicate, ghost s': Shape)
    requires Raw(root, a, curr) && Raw(curr, b, null) && Distinct(a) && Distinct(b) && Nodes(a) !! Nodes(b)
    requires prev == Bottom(a) && (a.Nil? ==> root == curr) && b.Node?
    modifies if prev == null then {} else {prev}
    ensures Raw(root', s', null) && Distinct(s')
    ensures Val(s') == Append(Val(a), Node(T.NewParent(curr.info, prec), Nil, Val(b)))
    ensures Nodes(a) + Nodes(b) <= Nodes(s') && forall o :: o in Nodes(s') ==> o in Nodes(a) || o in Nodes(b) || fresh(o)
  {
    InHeap(a); InHeap(b);
    var parent := new Predicate(T.NewParent(curr.info, prec), null, curr);
    ghost var top: Shape := Node(parent, Nil, b);
    assert parent !in Nodes(b);
    assert Nodes(top) == {parent} + Nodes(b);
    assert Distinct(top);
    assert Val(top) == Node(T.NewParent(curr.info, prec), Nil, Val(b));
    hide Distinct, T.NewParent;
    s' := Append(a, top);
    ValAppend(a, top); DistinctAppend(a, top);
    if prev == null {
      root' := parent;
    } else {
      root' := root;
      RawSplitLast(root, a, curr);
      ghost var last := LastOperand(a);
      ghost var p: Predicate := prev;
      ghost var one: Shape := Node(p, Nil, last);
      prev.left := parent;
      assert Raw(root, Init(a), prev) && Raw(prev.right, last, null);
      RawAppend(root, Init(a), prev, one, parent);
    }
    assert Raw(curr, b, null);
    RawAppend(root', a, parent, top, null);
  }

  /** opt_expr.  The caller stores the result where its argument pointed. */
  method OptExpr(root: Predicate?, level: nat, ghost s: Shape)
    returns (root': Predicate?, fx: bool, ghost s': Shape)
    requires Raw(root, s, null) && Distinct(s) && (s.Node? ==> Parsed(Val(s)))
    modifies Nodes(s)
    ensures Listed(root', s', null) && Distinct(s')
    ensures Nodes(s) <= Nodes(s') && forall o :: o in Nodes(s') ==> o in Nodes(s) || fresh(o)
    ensures s.Nil? ==> s'.Nil? && !fx
    ensures s.Node? ==> s'.Node? && (Val(s'), fx) == T.OptExpr(Val(s), level) && T.PlacedAll(Val(s'), level)
    decreases Weight(Val(s)), 4
  {
    if root == null {
      root', fx, s' := null, false, Nil;
      assert Nodes(s') - Nodes(s) == {};
      return;
    }
    ghost var top: Predicate, n := root, s;
    T.OptNormal(Val(s), level);
    T.OptOrdered(Val(s), level);
    var root1;
    root1, n := Normalise(root, s);
    assert Val(n).n == root1.info && SpineShape(n);
    hide *;
    label Before:
    root', fx, s' := OptSpine(root1, level, n);
    forall o: Predicate | o in Nodes(s') && o !in Nodes(s) ensures fresh(o) {
      if o !in Nodes(n) {
        assert o in Nodes(s') - Nodes(n);
        assert !old@Before(allocated(o));
      } else {
        assert o in Nodes(n) - Nodes(s);
      }
    }
  }
}
