// locate/frcode.c: the front-compressing encoder of the LOCATE02 format, and its round trip through locate.
module Frcode {
  import opened Wrappers
  import opened LocateDb

  function PrefixLength(a: Bytes, b: Bytes): nat
  {
    if Shared(a, b) < INT_MAX then Shared(a, b) else INT_MAX - 1
  }

  lemma {:induction false} SharedIs(a: Bytes, b: Bytes, n: nat)
    requires n <= |a| && n <= |b| && a[..n] == b[..n]
    ensures Shared(a, b) >= n
    ensures n < |a| && n < |b| && a[n] != b[n] ==> Shared(a, b) == n
  {
    if n == 0 {
    } else {
      assert a[0] == a[..n][0] == b[..n][0] == b[0];
      assert a[1..][..n - 1] == a[..n][1..] == b[..n][1..] == b[1..][..n - 1];
      SharedIs(a[1..], b[1..], n - 1);
    }
  }

  method CountPrefix(s1: Bytes, s2: Bytes) returns (n: nat)
    ensures n == PrefixLength(s1, s2) && n <= |s1| && n <= |s2|
  {
    n := 0;
    var limit := INT_MAX;
    while n < |s1| && n < |s2| && s1[n] == s2[n]
      invariant n <= |s1| && n <= |s2| && s1[..n] == s2[..n]
      invariant limit == INT_MAX - n && limit > 0
    {
      SharedIs(s1, s2, n + 1);
      limit := limit - 1;
      if limit == 0 { break; }
      n := n + 1;
    }
    SharedIs(s1, s2, n);
  }

  // The count an entry is written with, and its difference from the count before it.
  function Choose(oldCount: int, shared: int): (int, int)
  {
    if shared - oldCount > SHRT_MAX || shared - oldCount < SHRT_MIN then (0, -oldCount) else (shared, shared - oldCount)
  }

  predicate ShortFits(d: int) { SHRT_MIN <= d <= SHRT_MAX }

  function Low(d: int): Byte { d % 256 }

  function High(d: int): Byte { (d / 256) % 256 }

  // The bytes of a differential count; put_short writes the two low bytes of the int, high byte first.
  function DeltaBytes(d: int): Bytes
  {
    if -127 <= d <= 127 then [Low(d)] else [ESCAPE, High(d), Low(d)]
  }

  // The count chosen for an entry, and the bytes that stand for it.
  function Written(prev: Bytes, oldCount: nat, path: Bytes): (nat, Bytes)
  {
    var (count, d) := Choose(oldCount, PrefixLength(prev, path));
    (count, DeltaBytes(d) + path[count..] + [0])
  }

  // What the loop of main writes from here on; None when an assertion of put_short stops it.
  function Encode(prev: Bytes, oldCount: nat, paths: seq<Bytes>): Option<Bytes>
    decreases |paths|
  {
    if paths == [] then Some([])
    else if !ShortFits(Choose(oldCount, PrefixLength(prev, paths[0])).1) then None
    else
      var (count, entry) := Written(prev, oldCount, paths[0]);
      Prepend(entry, Encode(paths[0], count, paths[1..]))
  }

  function Prepend(out: Bytes, more: Option<Bytes>): Option<Bytes>
  {
    if more.None? then None else Some(out + more.value)
  }

  lemma PrependAssoc(a: Bytes, b: Bytes, more: Option<Bytes>)
    ensures Prepend(a, Prepend(b, more)) == Prepend(a + b, more)
  {
    if more.Some? {
      assert a + (b + more.value) == a + b + more.value;
    }
  }

  // put_short: both assertions, then the two bytes.
  method PutShort(c: int, out: Bytes) returns (ok: bool, out': Bytes)
    ensures ok == ShortFits(c)
    ensures ok ==> out' == out + [High(c), Low(c)]
  {
    if c <= SHRT_MAX && c >= SHRT_MIN {
      ok, out' := true, out + [High(c)] + [Low(c)];
    } else {
      ok, out' := false, out;
    }
  }

  // One pass of the loop: the entry path goes out, after oldPath and the count that went out with it.
  method WriteEntry(oldPath: Bytes, oldCount: nat, path: Bytes) returns (ok: bool, out: Bytes, count: nat)
    ensures ok == ShortFits(Choose(oldCount, PrefixLength(oldPath, path)).1)
    ensures ok ==> (count, out) == Written(oldPath, oldCount, path)
  {
    hide PrefixLength, Low, High;
    ok, out := true, [];
    count := CountPrefix(oldPath, path);
    var diffCount: int := count - oldCount;
    if diffCount > SHRT_MAX || diffCount < SHRT_MIN {
      count := 0;
      diffCount := 0 - oldCount;
    }
    if diffCount < -127 || diffCount > 127 {
      out := out + [ESCAPE];
      ok, out := PutShort(diffCount, out);
    } else {
      out := out + [Low(diffCount)];
    }
    assert ok ==> out == DeltaBytes(diffCount);
    out := out + path[count..] + [0];
  }

  method Main02(input: Bytes, delimiter: Byte) returns (result: Option<Bytes>)
    ensures result == Prepend(MAGIC, Encode([], 0, Lines(input, delimiter)))
  {
    hide Choose, PrefixLength, ShortFits, Written;
    var out := MAGIC;
    var oldPath: Bytes, oldCount: nat := [], 0;
    var stdin := input;
    while stdin != []
      invariant Prepend(MAGIC, Encode([], 0, Lines(input, delimiter)))
             == Prepend(out, Encode(oldPath, oldCount, Lines(stdin, delimiter)))
      decreases |stdin|
    {
      ghost var lines := Lines(stdin, delimiter);
      var n := Chunk(stdin, delimiter);
      var path := CString(stdin[..n - 1]);
      stdin := stdin[n..];
      assert lines[1..] == Lines(stdin, delimiter);
      var ok, entry, count := WriteEntry(oldPath, oldCount, path);
      if !ok { return None; }
      PrependAssoc(out, entry, Encode(path, count, lines[1..]));
      out := out + entry;
      oldPath, oldCount := path, count;
    }
    assert out + [] == out;
    result := Some(out);
  }

  lemma DeltaRead(d: int, tail: Bytes)
    requires ShortFits(d)
    ensures Delta02(DeltaBytes(d) + tail) == (d, |DeltaBytes(d)|)
    ensures (DeltaBytes(d) + tail)[|DeltaBytes(d)|..] == tail
  {
    var s := DeltaBytes(d) + tail;
    if -127 <= d <= 127 {
      assert s[0] != ESCAPE;
    } else {
      assert SignedByte(High(d)) == d / 256;
      assert s[1] == High(d) && s[2] == Low(d);
    }
  }

  ghost predicate Tracks(r: Reader, prev: Bytes, oldCount: nat)
  {
    r.count == oldCount <= |prev| <= r.len <= |r.name| && prev <= r.name
  }

  lemma EntryRead(r: Reader, prev: Bytes, oldCount: nat, path: Bytes, count: nat, tail: Bytes)
    requires Tracks(r, prev, oldCount) && 0 !in path && count <= |prev| && count <= |path|
    requires prev[..count] == path[..count] && ShortFits(count - oldCount)
    requires r.rest == DeltaBytes(count - oldCount) + path[count..] + [0] + tail
    ensures Next02(r).Entry? && Next02(r).next.rest == tail
    ensures Tracks(Next02(r).next, path, count) && CString(Next02(r).next.name) == path
  {
    hide Overlay, Delta02, DeltaBytes, CString, Chunk;
    var d := count - oldCount;
    var text := path[count..];
    var rest := text + [0] + tail;
    assert r.rest == DeltaBytes(d) + rest;
    DeltaRead(d, rest);
    ChunkOf(text, 0, tail);
    assert rest[..|text| + 1] == text + [0] && rest[|text| + 1..] == tail;
    assert r.name[..count] == prev[..count];
    Overlaid(r.name, count, path);
  }

  lemma FirstEntry(prev: Bytes, oldCount: nat, paths: seq<Bytes>) returns (count: nat, tail: Bytes)
    requires paths != [] && Encode(prev, oldCount, paths).Some?
    ensures count <= |prev| && count <= |paths[0]| && prev[..count] == paths[0][..count] && ShortFits(count - oldCount)
    ensures Encode(paths[0], count, paths[1..]) == Some(tail)
    ensures Encode(prev, oldCount, paths).value == DeltaBytes(count - oldCount) + paths[0][count..] + [0] + tail
  {
    hide DeltaBytes;
    var path := paths[0];
    count := Written(prev, oldCount, path).0;
    tail := Encode(path, count, paths[1..]).value;
    assert prev[..count] == path[..count];
  }

  lemma EncodeNothing(prev: Bytes, oldCount: nat)
    ensures Encode(prev, oldCount, []) == Some([])
  {
  }

  // The decoder recovers every list that frcode can write, and never calls it corrupt.
  lemma {:induction false} RoundTrip(r: Reader, prev: Bytes, oldCount: nat, paths: seq<Bytes>)
    requires Tracks(r, prev, oldCount) && Encode(prev, oldCount, paths) == Some(r.rest)
    requires forall i :: 0 <= i < |paths| ==> 0 !in paths[i]
    ensures ReadAll(Locate02, r) == Scan(paths, AtEof)
    decreases |paths|
  {
    hide Next02, Overlay, CString, Encode, DeltaBytes;
    if paths == [] {
      EncodeNothing(prev, oldCount);
    } else {
      var count, tail := FirstEntry(prev, oldCount, paths);
      EntryRead(r, prev, oldCount, paths[0], count, tail);
      RoundTrip(Next02(r).next, paths[0], count, paths[1..]);
      assert [paths[0]] + paths[1..] == paths;
    }
  }

  // ----- When frcode can write a list -----

  // The shared prefix lengths frcode sees.
  function Shares(prev: Bytes, paths: seq<Bytes>): (s: seq<nat>)
    ensures |s| == |paths|
    decreases |paths|
  {
    if paths == [] then [] else [PrefixLength(prev, paths[0])] + Shares(paths[0], paths[1..])
  }

  predicate StepFits(s: seq<int>, i: nat)
    requires i + 1 < |s|
  {
    ShortFits(s[i + 1] - s[i])
  }

  // Every step from a to b fits a short.
  predicate StepsFit(s: seq<int>, a: nat, b: nat)
    requires b < |s|
  {
    forall i :: a <= i < b ==> StepFits(s, i)
  }

  // Only the part from a to b matters.
  lemma StepsMoved(s: seq<int>, a: nat, b: nat, t: seq<int>, c: nat, d: nat)
    requires a <= b < |s| && c <= d < |t| && s[a..b + 1] == t[c..d + 1] && StepsFit(s, a, b)
    ensures StepsFit(t, c, d)
  {
    hide ShortFits;
    assert b - a == d - c by { assert |s[a..b + 1]| == |t[c..d + 1]|; }
    forall i | c <= i < d
      ensures StepFits(t, i)
    {
      var j := i - c + a;
      assert StepFits(s, j);
      assert t[i] == t[c..d + 1][i - c] == s[a..b + 1][i - c] == s[j];
      assert t[i + 1] == t[c..d + 1][i + 1 - c] == s[a..b + 1][i + 1 - c] == s[j + 1];
    }
  }

  // The shares climb above 32768 from one that fits a short, by steps that fit, and then change by more than fits.
  predicate Climbs(shares: seq<int>, a: nat, b: nat)
  {
    && a <= b && b + 1 < |shares| && StepsFit(shares, a, b)
    && shares[a] <= SHRT_MAX && shares[b] > 32768 && !StepFits(shares, b)
  }

  ghost predicate Overruns(shares: seq<int>)
  {
    exists a: nat, b: nat :: Climbs(shares, a, b)
  }

  // Whether an assertion stops the encoder, which goes on from oldCount, or from zero where it has fallen back.
  predicate Stops(oldCount: nat, shares: seq<nat>)
    decreases |shares|
  {
    shares != [] &&
    if ShortFits(shares[0] - oldCount) then Stops(shares[0], shares[1..])
    else oldCount > 32768 || Stops(0, shares[1..])
  }

  lemma {:induction false} StopsReplays(prev: Bytes, oldCount: nat, paths: seq<Bytes>)
    ensures Encode(prev, oldCount, paths).None? <==> Stops(oldCount, Shares(prev, paths))
    decreases |paths|
  {
    if paths == [] {
    } else {
      var (count, d) := Choose(oldCount, PrefixLength(prev, paths[0]));
      assert Shares(prev, paths)[1..] == Shares(paths[0], paths[1..]);
      if ShortFits(d) {
        StopsReplays(paths[0], count, paths[1..]);
      }
    }
  }

  // The same with the count the encoder goes on from, wherever it came from.
  predicate ClimbsFrom(counts: seq<int>, a: nat, b: nat)
  {
    && a <= b && b + 1 < |counts| && StepsFit(counts, a, b)
    && (a == 0 || counts[a] <= SHRT_MAX) && counts[b] > 32768 && !StepFits(counts, b)
  }

  ghost predicate SomeClimb(counts: seq<int>) { exists a: nat, b: nat :: ClimbsFrom(counts, a, b) }

  lemma {:induction false} StopsClimbs(oldCount: nat, shares: seq<nat>)
    ensures Stops(oldCount, shares) <==> SomeClimb([oldCount] + shares)
    decreases |shares|
  {
    var counts: seq<int> := [oldCount] + shares;
    if shares == [] {
    } else if ShortFits(shares[0] - oldCount) {
      StopsClimbs(shares[0], shares[1..]);
      assert [shares[0]] + shares[1..] == shares;
      StepOn(counts);
      assert counts[1..] == shares;
    } else if oldCount > 32768 {
      assert ClimbsFrom(counts, 0, 0);
    } else {
      StopsClimbs(0, shares[1..]);
      FallBack(counts);
      assert [0] + counts[2..] == [0] + shares[1..];
    }
  }

  // A part of one list at another place in a second.
  lemma ClimbMoved(s: seq<int>, a: nat, b: nat, t: seq<int>, c: nat, d: nat)
    requires ClimbsFrom(s, a, b) && c <= d && d + 1 < |t| && s[a..b + 2] == t[c..d + 2]
    requires c == 0 || t[c] <= SHRT_MAX
    ensures ClimbsFrom(t, c, d)
  {
    hide StepsFit, ShortFits;
    assert b - a == d - c by { assert |s[a..b + 2]| == |t[c..d + 2]|; }
    assert s[a..b + 1] == s[a..b + 2][..b + 1 - a] == t[c..d + 2][..b + 1 - a] == t[c..d + 1];
    assert s[b] == s[a..b + 2][b - a] == t[d];
    assert s[b + 1] == s[a..b + 2][b + 1 - a] == t[d + 1];
    StepsMoved(s, a, b, t, c, d);
  }

  // A step that fits may come first.
  lemma OneStepMore(s: seq<int>, b: nat)
    requires |s| > 1 && StepFits(s, 0) && ClimbsFrom(s[1..], 0, b)
    ensures ClimbsFrom(s, 0, b + 1)
  {
    Dropped(s, 1, b + 2);
    StepsMoved(s[1..], 0, b, s, 1, b + 1);
  }

  // The first count left out.
  lemma FirstLeftOut(counts: seq<int>, a: nat, b: nat)
    requires |counts| > 1 && StepFits(counts, 0) && ClimbsFrom(counts, a, b)
    ensures SomeClimb(counts[1..])
  {
    hide ShortFits, StepsFit;
    var rest := counts[1..];
    if a == 0 {
      StepsWithin(counts, 0, b);
      Dropped(counts, 1, b + 1);
      StepsMoved(counts, 1, b, rest, 0, b - 1);
      assert ClimbsFrom(rest, 0, b - 1);
    } else {
      Dropped(counts, a, b + 2);
      ClimbMoved(counts, a, b, rest, a - 1, b - 1);
    }
  }

  // The climb is no shorter than one step that fits.
  lemma StepsWithin(counts: seq<int>, a: nat, b: nat)
    requires a < |counts| - 1 && StepFits(counts, a) && ClimbsFrom(counts, a, b)
    ensures a < b && StepsFit(counts, a + 1, b)
  {
  }

  lemma FirstPutBack(counts: seq<int>, a: nat, b: nat)
    requires |counts| > 1 && StepFits(counts, 0) && ClimbsFrom(counts[1..], a, b)
    ensures SomeClimb(counts)
  {
    hide ShortFits, StepsFit;
    if a == 0 {
      OneStepMore(counts, b);
    } else {
      Dropped(counts, a + 1, b + 3);
      ClimbMoved(counts[1..], a, b, counts, a + 1, b + 1);
    }
  }

  lemma StepOn(counts: seq<int>)
    requires |counts| > 1 && StepFits(counts, 0)
    ensures SomeClimb(counts) <==> SomeClimb(counts[1..])
  {
    hide ClimbsFrom, ShortFits;
    if SomeClimb(counts) {
      var a: nat, b: nat :| ClimbsFrom(counts, a, b);
      FirstLeftOut(counts, a, b);
    }
    if SomeClimb(counts[1..]) {
      var a: nat, b: nat :| ClimbsFrom(counts[1..], a, b);
      FirstPutBack(counts, a, b);
    }
  }

  lemma Dropped(s: seq<int>, a: nat, b: nat)
    requires 1 <= a <= b <= |s|
    ensures s[a..b] == s[1..][a - 1..b - 1]
  {
    forall i | 0 <= i < b - a
      ensures s[a..b][i] == s[1..][a - 1..b - 1][i]
    {
    }
  }

  // After zero the first step comes from a share that fits a short.
  lemma NotFirst(counts: seq<int>, a: nat, b: nat) returns (c: nat)
    requires ClimbsFrom(counts, a, b) && counts[0] == 0
    ensures 0 < c <= b && ClimbsFrom(counts, c, b)
  {
    c := if a == 0 then 1 else a;
    if a == 0 { assert StepFits(counts, 0); }
    assert StepsFit(counts, c, b);
  }

  lemma FallBack(counts: seq<int>)
    requires |counts| > 1 && 0 <= counts[0] <= 32768 && 0 <= counts[1] && !StepFits(counts, 0)
    ensures SomeClimb(counts) <==> SomeClimb([0] + counts[2..])
  {
    var rest := [0] + counts[2..];
    if SomeClimb(counts) {
      var a: nat, b: nat :| ClimbsFrom(counts, a, b);
      assert a > 1;
      assert counts[a..b + 2] == rest[a - 1..b + 1];
      ClimbMoved(counts, a, b, rest, a - 1, b - 1);
    }
    if SomeClimb(rest) {
      var a: nat, b: nat :| ClimbsFrom(rest, a, b);
      var c := NotFirst(rest, a, b);
      assert rest[c..b + 2] == counts[c + 1..b + 3];
      ClimbMoved(rest, c, b, counts, c + 1, b + 1);
    }
  }

  lemma FromZero(shares: seq<nat>)
    ensures SomeClimb([0] + shares) <==> Overruns(shares)
  {
    hide StepsFit, StepFits;
    var counts: seq<int> := [0] + shares;
    if SomeClimb(counts) {
      var a: nat, b: nat :| ClimbsFrom(counts, a, b);
      var c := NotFirst(counts, a, b);
      ClimbBefore(shares, c - 1, b - 1);
    }
    if Overruns(shares) {
      var a: nat, b: nat :| Climbs(shares, a, b);
      ClimbBefore(shares, a, b);
      assert ClimbsFrom(counts, a + 1, b + 1);
    }
  }

  // A climb among the shares is one behind the zero before them.
  lemma ClimbBefore(shares: seq<nat>, a: nat, b: nat)
    requires b + 1 < |shares|
    ensures ClimbsFrom([0] + shares, a + 1, b + 1) <==> Climbs(shares, a, b)
  {
    hide StepsFit;
    var counts: seq<int> := [0] + shares;
    if a <= b {
      assert counts[a + 1] == shares[a] && counts[b + 1] == shares[b] && counts[b + 2] == shares[b + 1];
      Dropped(counts, a + 1, b + 2);
      assert counts[1..] == shares;
      if StepsFit(counts, a + 1, b + 1) { StepsMoved(counts, a + 1, b + 1, shares, a, b); }
      if StepsFit(shares, a, b) { StepsMoved(shares, a, b, counts, a + 1, b + 1); }
    }
  }

  // An assertion stops frcode exactly when the shared prefix lengths overrun.
  lemma StopsIff(paths: seq<Bytes>)
    ensures Encode([], 0, paths).None? <==> Overruns(Shares([], paths))
  {
    StopsReplays([], 0, paths);
    StopsClimbs(0, Shares([], paths));
    FromZero(Shares([], paths));
  }

  // Without an overrun the list is written, and read back whole.
  lemma WrittenAndRead(paths: seq<Bytes>, header: Bytes)
    requires forall i :: 0 <= i < |paths| ==> 0 !in paths[i]
    requires !Overruns(Shares([], paths))
    ensures var db := Encode([], 0, paths);
      db.Some? && ReadAll(Locate02, Reader(db.value, 0, 0, header, Initial)) == Scan(paths, AtEof)
  {
    hide Overruns, ReadAll, Encode, Shares;
    StopsIff(paths);
    RoundTrip(Reader(Encode([], 0, paths).value, 0, 0, header, Initial), [], 0, paths);
  }

  // Shared prefixes of at most 32768 bytes are enough for that.
  lemma ShortSharesRoundTrip(paths: seq<Bytes>, header: Bytes)
    requires forall i :: 0 <= i < |paths| ==> 0 !in paths[i]
    requires forall i :: 0 <= i < |paths| ==> Shares([], paths)[i] <= 32768
    ensures var db := Encode([], 0, paths);
      db.Some? && ReadAll(Locate02, Reader(db.value, 0, 0, header, Initial)) == Scan(paths, AtEof)
  {
    WrittenAndRead(paths, header);
  }

  // ----- How long the output is -----

  // The bytes of the entries: the rest of each path and its NUL, behind one byte if the shared length differs from the
  // last by at most 127, and behind three if not.
  function Size(last: nat, shares: seq<nat>, paths: seq<Bytes>): int
    requires |shares| == |paths|
    decreases |paths|
  {
    if paths == [] then 0
    else (if -127 <= shares[0] - last <= 127 then 1 else 3) + (|paths[0]| - shares[0]) + 1 + Size(shares[0], shares[1..], paths[1..])
  }

  // What is shared with the path before is not written again.
  lemma {:induction false} EncodedSize(prev: Bytes, oldCount: nat, paths: seq<Bytes>)
    requires oldCount <= SHRT_MAX && forall i :: 0 <= i < |paths| ==> Shares(prev, paths)[i] <= SHRT_MAX
    ensures var db := Encode(prev, oldCount, paths);
      db.Some? && |db.value| == Size(oldCount, Shares(prev, paths), paths)
    decreases |paths|
  {
    hide PrefixLength, Low, High;
    if paths != [] {
      var shares := Shares(prev, paths);
      var n := PrefixLength(prev, paths[0]);
      assert shares[0] == n && shares[1..] == Shares(paths[0], paths[1..]);
      assert forall i :: 0 <= i < |paths[1..]| ==> Shares(paths[0], paths[1..])[i] == shares[i + 1];
      EncodedSize(paths[0], n, paths[1..]);
      assert n <= |paths[0]| by { SharedFits(prev, paths[0]); }
    }
  }

  lemma SharedFits(prev: Bytes, path: Bytes)
    ensures PrefixLength(prev, path) <= |path|
  {
  }

  // The failing family: counts reach |long| > 32768 in two steps that fit, and then the count must drop to 0.
  lemma StopsAfterALongPrefix(long: Bytes, other: Bytes)
    requires 32768 < |long| <= 65534 && (other == [] || other[0] != long[0])
    ensures Encode([], 0, [long[..32767], long, long, other]).None?
  {
    var short := long[..32767];
    SharedIs(short, long, 32767);
    SharedIs(long, long, |long|);
    SharedIs(long, other, 0);
    LongShares(short, long, other);
    StopsIff([short, long, long, other]);
  }

  lemma LongShares(short: Bytes, long: Bytes, other: Bytes)
    requires 32768 < |long| <= 65534 && Shared(short, long) == 32767 && Shared(long, long) == |long|
    requires Shared([], short) == 0 && Shared(long, other) == 0
    ensures Overruns(Shares([], [short, long, long, other]))
  {
    hide Shared;
    var paths := [short, long, long, other];
    assert paths[1..] == [long, long, other] && [long, long, other][1..] == [long, other];
    assert [long, other][1..] == [other];
    var s3 := Shares(long, [other]);
    var s2 := Shares(long, [long, other]);
    assert s2 == [|long|] + s3;
    var s1 := Shares(short, [long, long, other]);
    assert s1 == [32767] + s2;
    var s0 := Shares([], paths);
    assert s0 == [0] + s1;
    assert s0[1] == 32767 && s0[2] == |long| && s0[3] == s3[0] == 0;
    assert Climbs(s0, 1, 2);
  }
}
