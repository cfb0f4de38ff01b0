// locate/locate.c: the visitor chain that filters a database, and the search over several databases.
module Locate {
  import opened Wrappers
  import opened LocateDb

  datatype Existence = AcceptEither | AcceptExisting | AcceptNonExisting

  // What the program asks of its surroundings: pattern matching, stat or lstat, and last_component.
  datatype World = World(matches: (Bytes, Bytes) -> bool, present: Bytes -> bool, lastComponent: Bytes -> Bytes)

  datatype Options = Options(
    patterns: seq<Bytes>, basenameOnly: bool, opAnd: bool, existence: Existence,
    stats: bool, enablePrint: bool, useLimit: bool, limit: nat)

  datatype Visitor = FormatVisitor | Basename | Pattern(text: Bytes) | Existing(wanted: bool) | Stats | Print | Limit | Count

  // The VISIT_ codes, and the two ways a format visitor leaves no result.
  datatype Verdict = Continue | Accepted | Rejected | Abort | Fatal | Undefined

  function PatternVisitors(patterns: seq<Bytes>): (v: seq<Visitor>)
    ensures |v| == |patterns| && forall i :: 0 <= i < |v| ==> v[i] == Pattern(patterns[i])
  {
    if patterns == [] then [] else [Pattern(patterns[0])] + PatternVisitors(patterns[1..])
  }

  // The visitors before past_pat_inspector, without the format visitor that stands first.
  function EarlyVisitors(op: Options): seq<Visitor>
  {
    (if op.basenameOnly then [Basename] else []) + PatternVisitors(op.patterns)
  }

  function ExistenceVisitors(op: Options): seq<Visitor>
  {
    match op.existence
    case AcceptEither => []
    case AcceptExisting => [Existing(true)]
    case AcceptNonExisting => [Existing(false)]
  }

  function LateVisitors(op: Options): (v: seq<Visitor>)
    ensures v != []
  {
    ExistenceVisitors(op) + (if op.stats then [Stats] else []) + (if op.enablePrint then [Print] else [])
      + [if op.useLimit then Limit else Count]
  }

  // What the visitors after the format visitor read and write.
  datatype Tally = Tally(munged: Bytes, printed: seq<Bytes>, accepted: nat)

  function Step(w: World, op: Options, v: Visitor, entry: Bytes, t: Tally): (Verdict, Tally)
  {
    match v
    case FormatVisitor => (Abort, t)
    case Basename => (Continue, t.(munged := w.lastComponent(entry)))
    case Pattern(text) => (if w.matches(text, t.munged) then Accepted else Rejected, t)
    case Existing(wanted) => (if w.present(entry) == wanted then Continue else Rejected, t)
    case Stats => (Continue, t)
    case Print => (Continue, t.(printed := t.printed + [entry]))
    case Limit => (if t.accepted + 1 >= op.limit then Abort else Continue, t.(accepted := t.accepted + 1))
    case Count => (Continue, t.(accepted := t.accepted + 1))
  }

  // visit: run the chain while the result so far is among the accepted ones.
  function Run(w: World, op: Options, vs: seq<Visitor>, accept: set<Verdict>, result: Verdict, entry: Bytes, t: Tally)
    : (Verdict, Tally)
    decreases |vs|
  {
    if result !in accept || vs == [] then (result, t)
    else
      var (r, t') := Step(w, op, vs[0], entry, t);
      Run(w, op, vs[1..], accept, r, entry, t')
  }

  function Process(w: World, op: Options, entry: Bytes, t: Tally): (Verdict, Tally)
  {
    var t0 := t.(munged := entry);
    if |op.patterns| <= 1 then
      Run(w, op, EarlyVisitors(op) + LateVisitors(op), {Continue, Accepted}, Continue, entry, t0)
    else
      var (r, t1) := Run(w, op, EarlyVisitors(op), {Continue, if op.opAnd then Accepted else Rejected}, Continue, entry, t0);
      if r == Continue then (Rejected, t1)
      else if r == Abort || r == Rejected then (r, t1)
      else
        var (r2, t2) := Run(w, op, LateVisitors(op), {Continue}, Continue, entry, t1);
        (if r2 == Continue then Accepted else r2, t2)
  }

  // ----- What a search is for -----

  function Munged(w: World, op: Options, entry: Bytes): Bytes
  {
    if op.basenameOnly then w.lastComponent(entry) else entry
  }

  ghost predicate MatchesPatterns(w: World, op: Options, name: Bytes)
  {
    if op.patterns == [] then true
    else if op.opAnd then forall p :: p in op.patterns ==> w.matches(p, name)
    else exists p :: p in op.patterns && w.matches(p, name)
  }

  ghost predicate Selected(w: World, op: Options, entry: Bytes)
  {
    && MatchesPatterns(w, op, Munged(w, op, entry))
    && (op.existence.AcceptExisting? ==> w.present(entry))
    && (op.existence.AcceptNonExisting? ==> !w.present(entry))
  }

  lemma {:induction false} RunPatterns(w: World, op: Options, ps: seq<Bytes>, result: Verdict, entry: Bytes, t: Tally)
    requires result == Continue || result == (if op.opAnd then Accepted else Rejected)
    ensures var r := Run(w, op, PatternVisitors(ps), {Continue, if op.opAnd then Accepted else Rejected}, result, entry, t);
      && r.1 == t
      && (ps == [] ==> r.0 == result)
      && (ps != [] ==> r.0 == Accepted || r.0 == Rejected)
      && (ps != [] && op.opAnd ==> (r.0 == Accepted <==> forall p :: p in ps ==> w.matches(p, t.munged)))
      && (ps != [] && !op.opAnd ==> (r.0 == Accepted <==> exists p :: p in ps && w.matches(p, t.munged)))
    decreases |ps|
  {
    if ps == [] {
    } else {
      var next := if w.matches(ps[0], t.munged) then Accepted else Rejected;
      var accept := {Continue, if op.opAnd then Accepted else Rejected};
      assert PatternVisitors(ps)[1..] == PatternVisitors(ps[1..]);
      assert forall p :: p in ps <==> p == ps[0] || p in ps[1..];
      if next in accept {
        RunPatterns(w, op, ps[1..], next, entry, t);
      }
    }
  }

  lemma RunConcat(w: World, op: Options, a: seq<Visitor>, b: seq<Visitor>, accept: set<Verdict>, result: Verdict,
                  entry: Bytes, t: Tally)
    ensures var r := Run(w, op, a, accept, result, entry, t);
      Run(w, op, a + b, accept, result, entry, t) == Run(w, op, b, accept, r.0, entry, r.1)
    decreases |a|
  {
    if a == [] {
      assert a + b == b;
    } else if result in accept {
      assert (a + b)[1..] == a[1..] + b;
      var (r, t') := Step(w, op, a[0], entry, t);
      RunConcat(w, op, a[1..], b, accept, r, entry, t');
    }
  }

  // Printing and counting an entry.
  function Accept(op: Options, entry: Bytes, t: Tally): Tally
  {
    t.(printed := t.printed + (if op.enablePrint then [entry] else []), accepted := t.accepted + 1)
  }

  predicate Exhausted(op: Options, t: Tally) { op.useLimit && t.accepted >= op.limit }

  lemma RunCons(w: World, op: Options, v: Visitor, vs: seq<Visitor>, accept: set<Verdict>, result: Verdict,
                entry: Bytes, t: Tally)
    requires result in accept
    ensures var (r, t') := Step(w, op, v, entry, t);
      Run(w, op, [v] + vs, accept, result, entry, t) == Run(w, op, vs, accept, r, entry, t')
  {
    assert ([v] + vs)[1..] == vs;
  }

  // The tail of the chain: stats, print and limit run to the end.
  lemma RunTail(w: World, op: Options, accept: set<Verdict>, result: Verdict, entry: Bytes, t: Tally)
    requires Continue in accept && Abort !in accept && result in accept
    ensures var last: seq<Visitor> := [if op.useLimit then Limit else Count];
      var show: seq<Visitor> := if op.enablePrint then [Print] else [];
      var stats: seq<Visitor> := if op.stats then [Stats] else [];
      Run(w, op, stats + (show + last), accept, result, entry, t)
        == (if Exhausted(op, Accept(op, entry, t)) then Abort else Continue, Accept(op, entry, t))
  {
    var last: seq<Visitor> := [if op.useLimit then Limit else Count];
    var show: seq<Visitor> := if op.enablePrint then [Print] else [];
    var stats: seq<Visitor> := if op.stats then [Stats] else [];
    assert t.printed + [] == t.printed;
    var result1 := if op.stats then Continue else result;
    RunConcat(w, op, stats, show + last, accept, result, entry, t);
    RunConcat(w, op, show, last, accept, result1, entry, t);
    assert last + [] == last;
  }

  lemma RunLate(w: World, op: Options, accept: set<Verdict>, result: Verdict, entry: Bytes, t: Tally)
    requires Continue in accept && Abort !in accept && Rejected !in accept && result in accept
    ensures Run(w, op, LateVisitors(op), accept, result, entry, t)
      == if (op.existence.AcceptExisting? && !w.present(entry)) || (op.existence.AcceptNonExisting? && w.present(entry))
         then (Rejected, t)
         else (if Exhausted(op, Accept(op, entry, t)) then Abort else Continue, Accept(op, entry, t))
  {
    hide Accept, Exhausted;
    var last: seq<Visitor> := [if op.useLimit then Limit else Count];
    var show: seq<Visitor> := if op.enablePrint then [Print] else [];
    var stats: seq<Visitor> := if op.stats then [Stats] else [];
    var tail := stats + (show + last);
    assert LateVisitors(op) == ExistenceVisitors(op) + tail;
    RunConcat(w, op, ExistenceVisitors(op), tail, accept, result, entry, t);
    var r := Run(w, op, ExistenceVisitors(op), accept, result, entry, t);
    if r.0 in accept {
      RunTail(w, op, accept, r.0, entry, t);
    }
  }

  lemma RunEarly(w: World, op: Options, entry: Bytes, t: Tally)
    requires t.munged == entry
    ensures var accept := {Continue, if op.opAnd then Accepted else Rejected};
      var r := Run(w, op, EarlyVisitors(op), accept, Continue, entry, t);
      && r.1 == t.(munged := Munged(w, op, entry))
      && (op.patterns == [] ==> r.0 == Continue)
      && (op.patterns != [] ==> r.0 == if MatchesPatterns(w, op, r.1.munged) then Accepted else Rejected)
  {
    var accept := {Continue, if op.opAnd then Accepted else Rejected};
    var base: seq<Visitor> := if op.basenameOnly then [Basename] else [];
    var t1 := t.(munged := Munged(w, op, entry));
    RunConcat(w, op, base, PatternVisitors(op.patterns), accept, Continue, entry, t);
    RunPatterns(w, op, op.patterns, Continue, entry, t1);
  }

  // With at most one pattern the connective does not matter.
  lemma RunEarlySimple(w: World, op: Options, entry: Bytes, t: Tally)
    requires t.munged == entry && |op.patterns| <= 1
    ensures var r := Run(w, op, EarlyVisitors(op), {Continue, Accepted}, Continue, entry, t);
      && r.1 == t.(munged := Munged(w, op, entry))
      && (op.patterns == [] ==> r.0 == Continue)
      && (op.patterns != [] ==> r.0 == if MatchesPatterns(w, op, r.1.munged) then Accepted else Rejected)
  {
    var accept := {Continue, Accepted};
    var base: seq<Visitor> := if op.basenameOnly then [Basename] else [];
    var t1 := t.(munged := Munged(w, op, entry));
    RunConcat(w, op, base, PatternVisitors(op.patterns), accept, Continue, entry, t);
    if op.patterns != [] {
      assert op.patterns == [op.patterns[0]];
      assert PatternVisitors(op.patterns) == [Pattern(op.patterns[0])] + [];
      RunCons(w, op, Pattern(op.patterns[0]), [], accept, Continue, entry, t1);
    }
  }

  // process_simple, process_or and process_and: an entry is printed and counted exactly when it is selected,
  // and a search is told to stop exactly when that reaches the limit.
  lemma ProcessMeans(w: World, op: Options, entry: Bytes, t: Tally)
    ensures var r := Process(w, op, entry, t); var t1 := t.(munged := Munged(w, op, entry));
      if !Selected(w, op, entry) then r == (Rejected, t1)
      else r.1 == Accept(op, entry, t1) && (r.0 == Abort <==> Exhausted(op, r.1)) && !r.0.Fatal? && !r.0.Undefined?
  {
    hide Run, EarlyVisitors, LateVisitors, Accept, Exhausted, MatchesPatterns;
    var t0 := t.(munged := entry);
    var t1 := t.(munged := Munged(w, op, entry));
    NoPatterns(w, op, t1.munged);
    if |op.patterns| <= 1 {
      var accept := {Continue, Accepted};
      RunEarlySimple(w, op, entry, t0);
      var r := Run(w, op, EarlyVisitors(op), accept, Continue, entry, t0);
      RunConcat(w, op, EarlyVisitors(op), LateVisitors(op), accept, Continue, entry, t0);
      if r.0 in accept {
        RunLate(w, op, accept, r.0, entry, t1);
      } else {
        RunStops(w, op, LateVisitors(op), accept, r.0, entry, t1);
      }
    } else {
      RunEarly(w, op, entry, t0);
      RunLate(w, op, {Continue}, Continue, entry, t1);
    }
  }

  lemma NoPatterns(w: World, op: Options, name: Bytes)
    ensures op.patterns == [] ==> MatchesPatterns(w, op, name)
  {
  }

  lemma RunStops(w: World, op: Options, vs: seq<Visitor>, accept: set<Verdict>, result: Verdict, entry: Bytes, t: Tally)
    requires result !in accept
    ensures Run(w, op, vs, accept, result, entry, t) == (result, t)
  {
  }

  // ----- A whole search -----

  ghost function Hits(w: World, op: Options, entries: seq<Bytes>): seq<Bytes>
  {
    if entries == [] then []
    else (if Selected(w, op, entries[0]) then [entries[0]] else []) + Hits(w, op, entries[1..])
  }

  // Entry by entry: whether the limit stops the search, what has been printed, and how many were accepted.
  ghost function Finish(w: World, op: Options, entries: seq<Bytes>, t: Tally): (r: (bool, Tally))
    ensures r.0 ==> Exhausted(op, r.1)
    decreases |entries|
  {
    if entries == [] then (false, t)
    else if !Selected(w, op, entries[0]) then Finish(w, op, entries[1..], t)
    else
      var t' := Accept(op, entries[0], t);
      if Exhausted(op, t') then (true, t') else Finish(w, op, entries[1..], t')
  }

  // The hits a search still takes when accepted of them have been taken; it is never started past its limit.
  function Room(op: Options, accepted: nat, hits: nat): nat
  {
    if !op.useLimit || hits <= op.limit - accepted then hits
    else if op.limit > accepted then op.limit - accepted
    else if hits == 0 then 0 else 1
  }

  // The first entry of a search.
  lemma FinishStep(w: World, op: Options, entries: seq<Bytes>, t: Tally)
    ensures entries == [] ==> Finish(w, op, entries, t) == (false, t) && Hits(w, op, entries) == []
    ensures entries != [] && !Selected(w, op, entries[0]) ==>
      Finish(w, op, entries, t) == Finish(w, op, entries[1..], t) && Hits(w, op, entries) == Hits(w, op, entries[1..])
    ensures entries != [] && Selected(w, op, entries[0]) ==>
      var t' := Accept(op, entries[0], t);
      && Finish(w, op, entries, t) == (if Exhausted(op, t') then (true, t') else Finish(w, op, entries[1..], t'))
      && Hits(w, op, entries) == [entries[0]] + Hits(w, op, entries[1..])
  {
    hide Selected;
  }

  lemma {:induction false} FinishIs(w: World, op: Options, entries: seq<Bytes>, t: Tally)
    requires op.useLimit ==> t.accepted < op.limit
    ensures var hits := Hits(w, op, entries); var n := Room(op, t.accepted, |hits|);
      Finish(w, op, entries, t).1
        == t.(printed := t.printed + (if op.enablePrint then hits[..n] else []), accepted := t.accepted + n)
    decreases |entries|
  {
    hide Selected, Finish, Hits;
    FinishStep(w, op, entries, t);
    if entries == [] {
      assert t.printed + [] == t.printed;
    } else if !Selected(w, op, entries[0]) {
      FinishIs(w, op, entries[1..], t);
    } else {
      var t' := Accept(op, entries[0], t);
      var more := Hits(w, op, entries[1..]);
      if Exhausted(op, t') {
        assert ([entries[0]] + more)[..1] == [entries[0]];
      } else {
        FinishIs(w, op, entries[1..], t');
        TakeOneMore(op, t, entries[0], more);
      }
    }
  }

  lemma TakeOneMore(op: Options, t: Tally, entry: Bytes, more: seq<Bytes>)
    requires op.useLimit ==> t.accepted + 1 < op.limit
    ensures var n := Room(op, t.accepted + 1, |more|); var hits := [entry] + more;
      Room(op, t.accepted, |hits|) == n + 1 <= |hits|
      && t.printed + hits[..n + 1] == t.printed + [entry] + more[..n]
  {
    var n := Room(op, t.accepted + 1, |more|);
    assert ([entry] + more)[..n + 1] == [entry] + more[..n];
  }

  lemma {:induction false} FinishConcat(w: World, op: Options, a: seq<Bytes>, b: seq<Bytes>, t: Tally)
    ensures var r := Finish(w, op, a, t);
      Finish(w, op, a + b, t) == if r.0 then r else Finish(w, op, b, r.1)
    decreases |a|
  {
    if a == [] {
      assert a + b == b;
    } else {
      assert (a + b)[1..] == a[1..] + b;
      if !Selected(w, op, a[0]) {
        FinishConcat(w, op, a[1..], b, t);
      } else if !Exhausted(op, Accept(op, a[0], t)) {
        FinishConcat(w, op, a[1..], b, Accept(op, a[0], t));
      }
    }
  }

  // ----- Databases -----

  datatype Opened = Readable(format: Format, start: Reader) | TooShort | Slocate(level: nat)

  // The magic numbers at the head of search_one_database.
  function Open(file: Bytes, littleEndian: bool): (o: Opened)
    ensures o.Readable? ==> GoodFormat(o.format)
  {
    if |file| >= 2 && file[1] == 0 && 48 <= file[0] <= 57 then Slocate(file[0] - 48)
    else if |file| >= |MAGIC| && file[..|MAGIC|] == MAGIC then
      Readable(Locate02, Reader(file[|MAGIC|..], 0, 0, MAGIC, Initial))
    else if |file| < 256 then TooShort
    else Readable(OldFormat(file[..256], littleEndian), Reader(file[256..], 0, 0, file[..256], Initial))
  }

  // Databases of slocate security levels 0 and 1 are not part of this model.
  predicate Modelled(file: Bytes, littleEndian: bool)
  {
    var o := Open(file, littleEndian);
    o.Slocate? ==> o.level > 1
  }

  function Contents(file: Bytes, littleEndian: bool): Scan
  {
    var o := Open(file, littleEndian);
    if o.Readable? then ReadAll(o.format, o.start) else if o.TooShort? then Scan([], Failed) else Scan([], AtEof)
  }
}
