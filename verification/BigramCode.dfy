// locate/code.c and putword of locate/word_io.c: the bigram encoder of the old database format,
// and exactly when locate reads its output back.
module BigramCode {
  import opened Wrappers
  import opened LocateDb

  // Byte k of the 32-bit two's complement of w, least significant first.
  function WordByte(w: int, k: nat): Byte
    requires k < 4
  {
    (if k == 0 then w else if k == 1 then w / 0x100 else if k == 2 then w / 0x1_0000 else w / 0x100_0000) % 256
  }

  function WordBytes(w: int, little: bool): (b: Bytes)
    ensures |b| == 4
  {
    if little then [WordByte(w, 0), WordByte(w, 1), WordByte(w, 2), WordByte(w, 3)]
    else [WordByte(w, 3), WordByte(w, 2), WordByte(w, 1), WordByte(w, 0)]
  }

  // bswap_32 on a 32-bit int.
  function Swapped(w: int): int
  {
    Int32(WordByte(w, 3), WordByte(w, 2), WordByte(w, 1), WordByte(w, 0))
  }

  lemma WordRead(w: int, little: bool)
    requires -0x8000_0000 <= w <= INT_MAX
    ensures NativeWord(WordBytes(w, little), little) == w
    ensures NativeWord(WordBytes(w, little), !little) == Swapped(w)
  {
    var q := w / 0x100;
    var q2 := w / 0x1_0000;
    var q3 := w / 0x100_0000;
    assert q2 == q / 0x100 && q3 == q2 / 0x100;
    assert WordByte(w, 0) == w - q * 0x100;
    assert WordByte(w, 1) == q - q2 * 0x100;
    assert WordByte(w, 2) == q2 - q3 * 0x100;
    assert SignedByte(WordByte(w, 3)) == q3;
  }

  // Bytes outside 040..0176 become '?'.
  function Squelch(b: Byte): (r: Byte)
    ensures 32 <= r < 127
  {
    if 32 <= b < 127 then b else 63
  }

  function SquelchAll(s: Bytes): (r: Bytes)
    ensures |r| == |s| && Printable(r)
    ensures forall i :: 0 <= i < |s| ==> r[i] == Squelch(s[i])
  {
    if s == [] then [] else [Squelch(s[0])] + SquelchAll(s[1..])
  }

  predicate Printable(s: Bytes) { forall i :: 0 <= i < |s| ==> 32 <= s[i] < 127 }

  // strindex: the first occurrence of p in s, or -1.
  function FirstIndex(s: Bytes, p: Bytes): (r: int)
    requires p != []
    ensures -1 <= r && (r >= 0 ==> OccursAt(s, p, r))
    ensures forall i :: 0 <= i && (r == -1 || i < r) ==> !OccursAt(s, p, i)
  {
    FirstIndexFrom(s, p, 0)
  }

  function FirstIndexFrom(s: Bytes, p: Bytes, k: nat): (r: int)
    requires p != [] && k <= |s|
    ensures r == -1 || (k <= r && OccursAt(s, p, r))
    ensures forall i :: k <= i && (r == -1 || i < r) ==> !OccursAt(s, p, i)
    decreases |s| - k
  {
    if k == |s| then -1 else if OccursAt(s, p, k) then k else FirstIndexFrom(s, p, k + 1)
  }

  // Whether p starts at s[i], given that its first byte does.
  method Continues(s: Bytes, p: Bytes, i: nat) returns (found: bool)
    requires i < |s| && p != [] && s[i] == p[0]
    ensures found <==> OccursAt(s, p, i)
  {
    var k := 1;
    while k < |p| && i + k < |s| && p[k] == s[i + k]
      invariant 1 <= k <= |p| && i + k <= |s| && s[i..i + k] == p[..k]
    {
      assert s[i..i + k + 1] == s[i..i + k] + [s[i + k]] && p[..k + 1] == p[..k] + [p[k]];
      k := k + 1;
    }
    found := k == |p|;
    if found {
      assert p[..k] == p;
    } else if i + |p| <= |s| {
      assert s[i..i + |p|][k] == s[i + k] != p[k];
    }
  }

  method StrIndex(s: Bytes, p: Bytes) returns (r: int)
    requires p != []
    ensures r == FirstIndex(s, p)
  {
    var i := 0;
    while i < |s|
      invariant i <= |s| && FirstIndex(s, p) == FirstIndexFrom(s, p, i)
    {
      var found := false;
      if s[i] == p[0] {
        found := Continues(s, p, i);
      } else if i + |p| <= |s| {
        assert s[i..i + |p|][0] == s[i];
      }
      if found { return i; }
      i := i + 1;
    }
    return -1;
  }

  // Two characters of text: a bigram at an even offset of the table shrinks to one byte.
  function Head(table: Bytes, pair: Bytes): Bytes
    requires |table| == 256 && |pair| == 2
  {
    var code := FirstIndex(CString(table), pair);
    if code >= 0 && code % 2 == 0 then [128 + code / 2] else pair
  }

  function Shrink(table: Bytes, text: Bytes): Bytes
    requires |table| == 256
  {
    if |text| < 2 then text else Head(table, text[..2]) + Shrink(table, text[2..])
  }

  // One step of Shrink and of Expand.
  // A code stands for two bytes of the table, and any other pair for itself.
  lemma ExpandOne(b: Byte, tail: Bytes, table: Bytes)
    requires |table| == 256
    ensures Expand([b] + tail, table) == Code(b, table) + Expand(tail, table)
  {
    assert ([b] + tail)[1..] == tail;
  }

  lemma OccursFits(s: Bytes, p: Bytes, i: nat)
    requires OccursAt(s, p, i)
    ensures i + |p| <= |s|
  {
  }

  lemma ExpandCode(table: Bytes, pair: Bytes, code: nat)
    requires |table| == 256 && |pair| == 2 && OccursAt(CString(table), pair, code) && code % 2 == 0
    requires code + 2 <= |CString(table)|
    ensures code <= 254 && Code(128 + code / 2, table) == pair
  {
    hide OccursAt, CString;
    var s := CString(table);
    OccursIndex(s, pair, code, 0);
    OccursIndex(s, pair, code, 1);
    assert [pair[0], pair[1]] == pair;
  }

  lemma ExpandPair(pair: Bytes, tail: Bytes, table: Bytes)
    requires |table| == 256 && |pair| == 2 && Printable(pair)
    ensures Expand(pair + tail, table) == pair + Expand(tail, table)
  {
    hide Expand;
    ExpandOne(pair[0], [pair[1]] + tail, table);
    ExpandOne(pair[1], tail, table);
    assert pair == [pair[0]] + [pair[1]];
    Assoc([pair[0]], [pair[1]], tail);
    Assoc([pair[0]], [pair[1]], Expand(tail, table));
  }

  lemma ExpandCons(table: Bytes, pair: Bytes, tail: Bytes)
    requires |table| == 256 && |pair| == 2 && Printable(pair)
    ensures Expand(Head(table, pair) + tail, table) == pair + Expand(tail, table)
    ensures forall i :: 0 <= i < |Head(table, pair)| ==> Head(table, pair)[i] > OLD_ESCAPE
  {
    hide Expand, FirstIndex, Code, OccursAt, CString;
    var code := FirstIndex(CString(table), pair);
    if code >= 0 && code % 2 == 0 {
      OccursFits(CString(table), pair, code);
      ExpandCode(table, pair, code);
      ExpandOne(128 + code / 2, tail, table);
    } else {
      ExpandPair(pair, tail, table);
    }
  }

  lemma {:induction false} ExpandShrink(table: Bytes, text: Bytes)
    requires |table| == 256 && Printable(text)
    ensures Expand(Shrink(table, text), table) == text
    ensures forall i :: 0 <= i < |Shrink(table, text)| ==> Shrink(table, text)[i] > OLD_ESCAPE
  {
    hide Head;
    if |text| == 0 {
    } else if |text| == 1 {
      assert text[1..] == [] && text == [text[0]];
    } else {
      hide Expand;
      ExpandShrink(table, text[2..]);
      ExpandCons(table, text[..2], Shrink(table, text[2..]));
      assert text == text[..2] + text[2..];
    }
  }

  // The first occurrence of the pair in the table is at an even offset.
  ghost predicate HasCode(table: Bytes, pair: Bytes)
  {
    exists k: nat :: k % 2 == 0 && OccursAt(CString(table), pair, k) && forall j: nat :: j < k ==> !OccursAt(CString(table), pair, j)
  }

  // Such a pair takes one byte, and any other takes two.
  lemma HeadIs(table: Bytes, pair: Bytes)
    requires |table| == 256 && |pair| == 2
    ensures if HasCode(table, pair) then |Head(table, pair)| == 1 && Code(Head(table, pair)[0], table) == pair
            else Head(table, pair) == pair
  {
    hide CString, OccursAt, Code;
    var s := CString(table);
    var code := FirstIndex(s, pair);
    if HasCode(table, pair) {
      var k: nat :| k % 2 == 0 && OccursAt(s, pair, k) && forall j: nat :: j < k ==> !OccursAt(s, pair, j);
      assert code == k;
      OccursFits(s, pair, k);
      ExpandCode(table, pair, k);
    }
  }

  // How many pairs of the text have a code.
  ghost function Coded(table: Bytes, text: Bytes): nat
  {
    if |text| < 2 then 0 else (if HasCode(table, text[..2]) then 1 else 0) + Coded(table, text[2..])
  }

  // Each of them saves a byte.
  lemma {:induction false} ShrinkLength(table: Bytes, text: Bytes)
    requires |table| == 256
    ensures |Shrink(table, text)| + Coded(table, text) == |text|
  {
    hide Head, HasCode, Code;
    if |text| >= 2 {
      HeadIs(table, text[..2]);
      ShrinkLength(table, text[2..]);
    }
  }

  function DeltaBytes(d: int, little: bool): (b: Bytes)
    ensures b != []
  {
    if d < -OLD_OFFSET || d > OLD_OFFSET then [OLD_ESCAPE] + WordBytes(d + OLD_OFFSET, little) else [d + OLD_OFFSET]
  }

  // What the loop of main writes; the paths are already squelched.
  function Encode(table: Bytes, little: bool, prev: Bytes, oldCount: nat, paths: seq<Bytes>): Bytes
    requires |table| == 256
    decreases |paths|
  {
    if paths == [] then []
    else
      var count := Shared(prev, paths[0]);
      DeltaBytes(count - oldCount, little) + Shrink(table, paths[0][count..]) + Encode(table, little, paths[0], count, paths[1..])
  }

  // The bytes of the entries: the rest of each path less its coded pairs, behind one byte if the shared length differs
  // from the last by at most 14, and behind five if not.
  ghost function Size(table: Bytes, prev: Bytes, last: nat, paths: seq<Bytes>): int
    decreases |paths|
  {
    if paths == [] then 0
    else
      var count := Shared(prev, paths[0]);
      (if -14 <= count - last <= 14 then 1 else 5) + (|paths[0]| - count) - Coded(table, paths[0][count..])
        + Size(table, paths[0], count, paths[1..])
  }

  lemma {:induction false} EncodedSize(table: Bytes, little: bool, prev: Bytes, last: nat, paths: seq<Bytes>)
    requires |table| == 256
    ensures |Encode(table, little, prev, last, paths)| == Size(table, prev, last, paths)
    decreases |paths|
  {
    hide Shrink, Coded, WordBytes;
    if paths != [] {
      var count := Shared(prev, paths[0]);
      ShrinkLength(table, paths[0][count..]);
      EncodedSize(table, little, paths[0], count, paths[1..]);
    }
  }

  // SquelchLines, and the rest of this section, follow the loop of main.
  function SquelchLines(lines: seq<Bytes>): (r: seq<Bytes>)
    ensures |r| == |lines| && forall i :: 0 <= i < |r| ==> r[i] == SquelchAll(lines[i])
  {
    if lines == [] then [] else [SquelchAll(lines[0])] + SquelchLines(lines[1..])
  }

  function Zeros(n: nat): (z: Bytes)
    ensures |z| == n
  {
    seq(n, i => 0)
  }

  // What fgets leaves in the zeroed table: one line, newline included, or 256 bytes.
  function TableOf(file: Bytes): (table: Bytes)
    ensures |table| == 256
  {
    var n := Chunk(file, 10);
    var line := file[..if n < 256 then n else 256];
    line + Zeros(256 - |line|)
  }

  // The first line of the file, newline included, as far as it fits, and zeros.
  lemma TableIs(file: Bytes, i: nat)
    requires i < 256
    ensures TableOf(file)[i] == if i < |file| && 10 !in file[..i] then file[i] else 0
  {
    var n := Chunk(file, 10);
    if i < |file| {
      if i < n {
        assert forall k :: 0 <= k < i ==> file[k] != 10;
      } else {
        assert file[..i][n - 1] == 10;
      }
    }
  }

  method SquelchPath(path0: Bytes) returns (path: Bytes)
    requires 0 !in path0
    ensures path == SquelchAll(path0)
  {
    path := path0;
    var pp := 0;
    while pp < |path|
      invariant pp <= |path| == |path0|
      invariant forall i :: 0 <= i < pp ==> path[i] == Squelch(path0[i])
      invariant forall i :: pp <= i < |path| ==> path[i] == path0[i]
    {
      if !(path[pp] >= 32 && path[pp] < 127) {
        path := path[pp := 63];
      }
      pp := pp + 1;
    }
  }

  method PutWord(out0: Bytes, word: int, state: Endian, little: bool) returns (out: Bytes)
    requires !state.Initial?
    ensures out == out0 + WordBytes(if state.Swab? then Swapped(word) else word, little)
  {
    var w := word;
    if state.Swab? { w := Swapped(word); }
    out := out0 + WordBytes(w, little);
  }

  method PutBigram(table: Bytes, bigram: Bytes) returns (out: Bytes)
    requires |table| == 256 && |bigram| == 2
    ensures out == Head(table, bigram)
  {
    var code := StrIndex(CString(table), bigram);
    out := if code >= 0 && code % 2 == 0 then [128 + code / 2] else bigram;
  }

  // The bigram loop: everything of path from count on.
  lemma ShrinkStep(table: Bytes, path: Bytes, pp: nat, out: Bytes)
    requires |table| == 256 && pp < |path|
    ensures var rest := Shrink(table, path[pp..]);
      if pp + 1 == |path| then rest == [path[pp]]
      else out + rest == out + Head(table, path[pp..pp + 2]) + Shrink(table, path[pp + 2..])
  {
    hide Head;
    var text := path[pp..];
    if pp + 1 == |path| {
      assert text == [path[pp]];
    } else {
      assert text[..2] == path[pp..pp + 2] && text[2..] == path[pp + 2..];
      Assoc(out, Head(table, path[pp..pp + 2]), Shrink(table, path[pp + 2..]));
    }
  }

  method PutText(table: Bytes, path: Bytes, count: nat) returns (out: Bytes)
    requires |table| == 256 && count <= |path|
    ensures out == Shrink(table, path[count..])
  {
    hide Head, Shrink;
    out := [];
    var pp := count;
    assert [] + Shrink(table, path[count..]) == Shrink(table, path[count..]);
    while pp < |path|
      invariant count <= pp <= |path| && Shrink(table, path[count..]) == out + Shrink(table, path[pp..])
    {
      ShrinkStep(table, path, pp, out);
      if pp + 1 == |path| {
        out := out + [path[pp]];
        return;
      }
      var head := PutBigram(table, path[pp..pp + 2]);
      out := out + head;
      pp := pp + 2;
    }
    ShrinkNothing(table);
    assert path[pp..] == [] && out + [] == out;
  }

  lemma ShrinkNothing(table: Bytes)
    requires |table| == 256
    ensures Shrink(table, []) == []
  {
  }


  method SharedCount(s1: Bytes, s2: Bytes) returns (n: nat)
    ensures n == Shared(s1, s2)
  {
    n := 0;
    assert s1[0..] == s1 && s2[0..] == s2;
    while n < |s1| && n < |s2| && s1[n] == s2[n]
      invariant n <= |s1| && n <= |s2| && Shared(s1, s2) == n + Shared(s1[n..], s2[n..])
    {
      assert s1[n..][1..] == s1[n + 1..] && s2[n..][1..] == s2[n + 1..];
      n := n + 1;
    }
  }

  // One pass of the loop, from the prefix count to the end of the text.
  method WriteEntry(table: Bytes, oldPath: Bytes, oldCount: nat, path: Bytes, little: bool) returns (out: Bytes, count: nat)
    requires |table| == 256
    ensures count == Shared(oldPath, path)
    ensures out == DeltaBytes(count - oldCount, little) + Shrink(table, path[count..])
  {
    hide Shared, Shrink, WordBytes;
    out := [];
    count := SharedCount(oldPath, path);
    var diffCount: int := count - oldCount;
    if diffCount < -OLD_OFFSET || diffCount > OLD_OFFSET {
      out := out + [OLD_ESCAPE];
      out := PutWord(out, diffCount + OLD_OFFSET, Native, little);
    } else {
      out := out + [diffCount + OLD_OFFSET];
    }
    var text := PutText(table, path, count);
    out := out + text;
  }

  // Everything code writes; None when the bigram file is empty.
  // One line of the input, and none.
  lemma EncodeLine(table: Bytes, little: bool, oldPath: Bytes, oldCount: nat, stdin: Bytes, out: Bytes)
    requires |table| == 256 && stdin != []
    ensures var n := Chunk(stdin, 10);
      var path := SquelchAll(CString(stdin[..n - 1]));
      var count := Shared(oldPath, path);
      out + Encode(table, little, oldPath, oldCount, SquelchLines(Lines(stdin, 10)))
        == out + (DeltaBytes(count - oldCount, little) + Shrink(table, path[count..]))
             + Encode(table, little, path, count, SquelchLines(Lines(stdin[n..], 10)))
  {
    hide Shared, Shrink, DeltaBytes, SquelchAll, CString;
    var n := Chunk(stdin, 10);
    var path := SquelchAll(CString(stdin[..n - 1]));
    var count := Shared(oldPath, path);
    var lines := SquelchLines(Lines(stdin, 10));
    assert lines[0] == path && lines[1..] == SquelchLines(Lines(stdin[n..], 10));
    Assoc(out, DeltaBytes(count - oldCount, little) + Shrink(table, path[count..]),
          Encode(table, little, path, count, lines[1..]));
  }

  lemma EncodeNoLine(table: Bytes, little: bool, oldPath: Bytes, oldCount: nat)
    requires |table| == 256
    ensures Encode(table, little, oldPath, oldCount, SquelchLines(Lines([], 10))) == []
  {
  }

  method MainOld(bigramFile: Bytes, input: Bytes, little: bool) returns (result: Option<Bytes>)
    ensures result.None? <==> bigramFile == []
    ensures result.Some? ==>
      var table := TableOf(bigramFile);
      result.value == table + Encode(table, little, [], 0, SquelchLines(Lines(input, 10)))
  {
    hide Shared, Shrink, DeltaBytes, SquelchAll, TableOf, Encode, Lines, SquelchLines, CString;
    if bigramFile == [] { return None; }
    var table := TableOf(bigramFile);
    var out: Bytes := table;
    var oldPath: Bytes, oldCount: nat := [], 0;
    var stdin := input;
    while stdin != []
      invariant table + Encode(table, little, [], 0, SquelchLines(Lines(input, 10)))
             == out + Encode(table, little, oldPath, oldCount, SquelchLines(Lines(stdin, 10)))
      decreases |stdin|
    {
      EncodeLine(table, little, oldPath, oldCount, stdin, out);
      var n := Chunk(stdin, 10);
      var path := SquelchPath(CString(stdin[..n - 1]));
      stdin := stdin[n..];
      var entry, count := WriteEntry(table, oldPath, oldCount, path, little);
      out := out + entry;
      oldPath, oldCount := path, count;
    }
    EncodeNoLine(table, little, oldPath, oldCount);
    assert out + [] == out;
    result := Some(out);
  }

  // ----- Reading it back -----

  predicate Escaped(d: int) { d < -OLD_OFFSET || d > OLD_OFFSET }

  // decode_value on a word that putword wrote natively.
  function Guess(w: int, limit: int, state: Endian): (int, Endian)
  {
    match state
    case Native => (w, Native)
    case Swab => (Swapped(w), Swab)
    case Initial =>
      if w <= limit then (w, if Swapped(w) > limit then Native else Initial)
      else if Swapped(w) <= limit then (Swapped(w), Swab)
      else (w, Initial)
  }

  lemma GuessDecodes(w: int, little: bool, limit: int, state: Endian)
    requires -0x8000_0000 <= w <= INT_MAX
    ensures DecodeWord(WordBytes(w, little), little, limit, state) == Guess(w, limit, state)
  {
    hide NativeWord, WordBytes, Swapped;
    WordRead(w, little);
  }

  // The limit the reader allows a word while its running count is oldCount in a path of len bytes.
  function WordLimit(oldCount: int, len: int): int
  {
    if oldCount >= OLD_OFFSET then len - (oldCount - OLD_OFFSET) else len
  }

  // The reader takes a natively written word for a swapped one: its limit forgets the offset of 14.
  predicate Misguess(state: Endian, oldCount: int, len: int, count: int)
  {
    var w := count - oldCount + OLD_OFFSET;
    state.Initial? && Escaped(count - oldCount) && oldCount < OLD_OFFSET && w > len && Swapped(w) <= len
  }

  function StateAfter(state: Endian, oldCount: int, len: int, count: int): Endian
  {
    if Escaped(count - oldCount) then Guess(count - oldCount + OLD_OFFSET, WordLimit(oldCount, len), state).1 else state
  }

  lemma MisguessIff(state: Endian, oldCount: int, len: int, count: int)
    requires !state.Swab? && 0 <= oldCount <= len && 0 <= count <= len && Escaped(count - oldCount)
    ensures var w := count - oldCount + OLD_OFFSET;
      var g := Guess(w, WordLimit(oldCount, len), state);
      if Misguess(state, oldCount, len, count) then g.0 == Swapped(w) <= len < w else g.0 == w && !g.1.Swab?
  {
    hide Swapped;
  }

  // What the reader holds after an entry, in whichever byte order.
  ghost predicate Holds(r: Reader, prev: Bytes, oldCount: nat)
  {
    r.count == oldCount <= |prev| == r.len <= |r.name| && prev <= r.name
  }

  ghost predicate Tracks(r: Reader, prev: Bytes, oldCount: nat)
  {
    Holds(r, prev, oldCount) && !r.endian.Swab?
  }

  predicate Fits(path: Bytes) { Printable(path) && |path| <= INT_MAX - OLD_OFFSET }

  // What the count bytes of an entry make of the running count.
  lemma CountRead(r: Reader, prev: Bytes, oldCount: nat, count: nat, little: bool, tail: Bytes)
    requires Tracks(r, prev, oldCount) && Fits(prev) && count <= |prev|
    requires r.rest == DeltaBytes(count - oldCount, little) + tail
    ensures var d := DeltaOld(r, little);
      && d.Some? && r.rest[d.value.2..] == tail
      && d.value.1 == StateAfter(r.endian, oldCount, r.len, count)
      && if Misguess(r.endian, oldCount, r.len, count) then d.value.0 < count else d.value.0 == count && !d.value.1.Swab?
  {
    hide Swapped, DecodeWord, Guess;
    var d := count - oldCount;
    if Escaped(d) {
      var w := d + OLD_OFFSET;
      MisguessIff(r.endian, oldCount, r.len, count);
      assert r.rest == [OLD_ESCAPE] + WordBytes(w, little) + tail;
      assert r.rest[1..5] == WordBytes(w, little) && r.rest[5..] == tail;
      GuessDecodes(w, little, WordLimit(oldCount, r.len), r.endian);
    }
  }

  lemma TextRead(codes: Bytes, tail: Bytes)
    requires forall i :: 0 <= i < |codes| ==> codes[i] > OLD_ESCAPE
    requires tail != [] ==> tail[0] <= OLD_ESCAPE
    ensures OldTextLength(codes + tail) == |codes|
  {
    var s := codes + tail;
    var n := OldTextLength(s);
    assert n < |s| ==> s[n] <= OLD_ESCAPE;
    assert |codes| < |s| ==> s[|codes|] == tail[0];
    assert forall i :: 0 <= i < |codes| ==> s[i] == codes[i];
  }

  // What the reader makes of one entry.
  ghost predicate GoodEntry(o: Outcome, r: Reader, oldCount: nat, path: Bytes, count: nat, tail: Bytes)
  {
    if Misguess(r.endian, oldCount, r.len, count) then o.Entry? ==> CString(o.next.name) != path
    else
      && o.Entry? && o.next.rest == tail && Tracks(o.next, path, count) && CString(o.next.name) == path
      && o.next.endian == StateAfter(r.endian, oldCount, r.len, count)
  }

  lemma EntryRead(r: Reader, prev: Bytes, oldCount: nat, path: Bytes, table: Bytes, little: bool, tail: Bytes)
    requires Tracks(r, prev, oldCount) && Fits(prev) && Fits(path) && |table| == 256
    requires tail != [] ==> tail[0] <= OLD_ESCAPE
    requires r.rest == DeltaBytes(Shared(prev, path) - oldCount, little) + Shrink(table, path[Shared(prev, path)..]) + tail
    ensures GoodEntry(NextOld(r, table, little), r, oldCount, path, Shared(prev, path), tail)
  {
    hide Shared, DeltaOld, DeltaBytes, StateAfter, Shrink, Expand, OldTextLength, Misguess, CString, Overlay;
    var count := Shared(prev, path);
    var text := path[count..];
    var codes := Shrink(table, text);
    assert r.rest == DeltaBytes(count - oldCount, little) + (codes + tail);
    CountRead(r, prev, oldCount, count, little, codes + tail);
    ExpandShrink(table, text);
    TextRead(codes, tail);
    assert (codes + tail)[..|codes|] == codes && (codes + tail)[|codes|..] == tail;
    if Misguess(r.endian, oldCount, r.len, count) {
      var at := DeltaOld(r, little).value.0;
      if at >= 0 {
        ShortEntry(r.name, prev, at, text);
      }
    } else {
      assert r.name[..count] == prev[..count] == path[..count];
      Overlaid(r.name, count, path);
    }
  }

  // An entry overlaid too early comes out too short.
  lemma ShortEntry(name: Bytes, prev: Bytes, at: nat, text: Bytes)
    requires at <= |prev| && prev <= name && Printable(prev) && Printable(text)
    ensures |CString(Overlay(name, at, text + [0]))| == at + |text|
  {
    var path := prev[..at] + text;
    assert path[at..] == text && path[..at] == name[..at];
    Overlaid(name, at, path);
    var o := Overlay(name, at, text + [0]);
  }

  lemma EncodeStart(table: Bytes, little: bool, prev: Bytes, oldCount: nat, paths: seq<Bytes>)
    requires |table| == 256
    ensures var e := Encode(table, little, prev, oldCount, paths); e != [] ==> e[0] <= OLD_ESCAPE
  {
  }

  // No entry of the list is misguessed.
  predicate GuessesRight(state: Endian, prev: Bytes, oldCount: nat, paths: seq<Bytes>)
    decreases |paths|
  {
    paths == [] ||
    var count := Shared(prev, paths[0]);
    !Misguess(state, oldCount, |prev|, count)
    && GuessesRight(StateAfter(state, oldCount, |prev|, count), paths[0], count, paths[1..])
  }

  // The reader recovers the list exactly when it never takes a native word for a swapped one.
  lemma {:induction false} RoundTripIff(r: Reader, prev: Bytes, oldCount: nat, paths: seq<Bytes>, table: Bytes, little: bool)
    requires Tracks(r, prev, oldCount) && Fits(prev) && |table| == 256
    requires forall i :: 0 <= i < |paths| ==> Fits(paths[i])
    requires r.rest == Encode(table, little, prev, oldCount, paths)
    ensures ReadAll(OldFormat(table, little), r) == Scan(paths, AtEof)
      <==> GuessesRight(r.endian, prev, oldCount, paths)
    decreases |paths|
  {
    hide NextOld, Misguess, StateAfter, Shrink, CString, Shared, DeltaBytes;
    if paths == [] {
    } else {
      var count := Shared(prev, paths[0]);
      var tail := Encode(table, little, paths[0], count, paths[1..]);
      EncodeStart(table, little, paths[0], count, paths[1..]);
      EntryRead(r, prev, oldCount, paths[0], table, little, tail);
      var o := NextOld(r, table, little);
      assert [paths[0]] + paths[1..] == paths;
      if !Misguess(r.endian, oldCount, r.len, count) {
        RoundTripIff(o.next, paths[0], count, paths[1..], table, little);
      }
    }
  }

  // ----- Reading what a machine of the other byte order wrote -----

  lemma ForeignDecodes(w: int, little: bool, limit: int, state: Endian)
    requires -0x8000_0000 <= w <= INT_MAX
    ensures DecodeWord(WordBytes(w, little), !little, limit, state) ==
      match state
      case Native => (Swapped(w), Native)
      case Swab => (w, Swab)
      case Initial =>
        if Swapped(w) <= limit then (Swapped(w), if w > limit then Native else Initial)
        else if w <= limit then (w, Swab)
        else (Swapped(w), Initial)
  {
    hide NativeWord, WordBytes, Swapped;
    WordRead(w, little);
  }

  // A foreign word is recognised once the order is known, and before that if only its swap is within the limit.
  predicate Recognised(state: Endian, oldCount: int, len: int, count: int)
  {
    Escaped(count - oldCount) ==>
      || state.Swab?
      || (var w := count - oldCount + OLD_OFFSET; state.Initial? && w <= WordLimit(oldCount, len) < Swapped(w))
  }

  predicate AllRecognised(state: Endian, prev: Bytes, oldCount: nat, paths: seq<Bytes>)
    decreases |paths|
  {
    paths == [] ||
    var count := Shared(prev, paths[0]);
    && Recognised(state, oldCount, |prev|, count)
    && AllRecognised(if Escaped(count - oldCount) then Swab else state, paths[0], count, paths[1..])
  }

  // Once the other byte order is known every word is recognised.
  lemma {:induction false} KnownIsRecognised(prev: Bytes, oldCount: nat, paths: seq<Bytes>)
    ensures AllRecognised(Swab, prev, oldCount, paths)
    decreases |paths|
  {
    if paths != [] { KnownIsRecognised(paths[0], Shared(prev, paths[0]), paths[1..]); }
  }

  lemma ForeignCount(r: Reader, prev: Bytes, oldCount: nat, count: nat, little: bool, tail: Bytes)
    requires Holds(r, prev, oldCount) && Fits(prev) && count <= |prev|
    requires r.rest == DeltaBytes(count - oldCount, little) + tail && Recognised(r.endian, oldCount, r.len, count)
    ensures var d := DeltaOld(r, !little);
      && d.Some? && r.rest[d.value.2..] == tail && d.value.0 == count
      && d.value.1 == if Escaped(count - oldCount) then Swab else r.endian
  {
    hide Swapped, DecodeWord;
    var d := count - oldCount;
    if Escaped(d) {
      var w := d + OLD_OFFSET;
      assert r.rest == [OLD_ESCAPE] + WordBytes(w, little) + tail;
      assert r.rest[1..5] == WordBytes(w, little) && r.rest[5..] == tail;
      ForeignDecodes(w, little, WordLimit(oldCount, r.len), r.endian);
    }
  }

  lemma ForeignEntry(r: Reader, prev: Bytes, oldCount: nat, path: Bytes, table: Bytes, little: bool, tail: Bytes)
    requires Holds(r, prev, oldCount) && Fits(prev) && Fits(path) && |table| == 256
    requires tail != [] ==> tail[0] <= OLD_ESCAPE
    requires r.rest == DeltaBytes(Shared(prev, path) - oldCount, little) + Shrink(table, path[Shared(prev, path)..]) + tail
    requires Recognised(r.endian, oldCount, r.len, Shared(prev, path))
    ensures var o := NextOld(r, table, !little); var count := Shared(prev, path);
      && o.Entry? && o.next.rest == tail && Holds(o.next, path, count) && CString(o.next.name) == path
      && o.next.endian == if Escaped(count - oldCount) then Swab else r.endian
  {
    hide Shared, DeltaOld, DeltaBytes, Shrink, Expand, OldTextLength, Recognised, CString, Overlay;
    var count := Shared(prev, path);
    var text := path[count..];
    var codes := Shrink(table, text);
    assert r.rest == DeltaBytes(count - oldCount, little) + (codes + tail);
    ForeignCount(r, prev, oldCount, count, little, codes + tail);
    ExpandShrink(table, text);
    TextRead(codes, tail);
    assert (codes + tail)[..|codes|] == codes && (codes + tail)[|codes|..] == tail;
    assert r.name[..count] == prev[..count] == path[..count];
    Overlaid(r.name, count, path);
  }

  // A database of the other byte order is read back whole if every word is recognised.
  lemma {:induction false} ForeignRoundTrip(r: Reader, prev: Bytes, oldCount: nat, paths: seq<Bytes>, table: Bytes, little: bool)
    requires Holds(r, prev, oldCount) && Fits(prev) && |table| == 256
    requires forall i :: 0 <= i < |paths| ==> Fits(paths[i])
    requires r.rest == Encode(table, little, prev, oldCount, paths) && AllRecognised(r.endian, prev, oldCount, paths)
    ensures ReadAll(OldFormat(table, !little), r) == Scan(paths, AtEof)
    decreases |paths|
  {
    hide NextOld, Recognised, Escaped, Shrink, CString, Shared, DeltaBytes;
    if paths != [] {
      var count := Shared(prev, paths[0]);
      var tail := Encode(table, little, paths[0], count, paths[1..]);
      EncodeStart(table, little, paths[0], count, paths[1..]);
      ForeignEntry(r, prev, oldCount, paths[0], table, little, tail);
      assert [paths[0]] + paths[1..] == paths;
      ForeignRoundTrip(NextOld(r, table, !little).next, paths[0], count, paths[1..], table, little);
    }
  }

  // A word that exceeds a limit below 114 by the offset alone is far larger when swapped.
  lemma SmallWordSwapped(w: nat)
    requires 0 < w < 128
    ensures Swapped(w) == w * 0x100_0000
  {
    assert w / 0x100 == 0 && w / 0x1_0000 == 0 && w / 0x100_0000 == 0;
  }

  // Known native byte order, or no path longer than 113 bytes, rules the wrong guess out.
  lemma {:induction false} NeverMisguessed(state: Endian, prev: Bytes, oldCount: nat, paths: seq<Bytes>)
    requires !state.Swab? && oldCount <= |prev|
    requires state.Native? || (|prev| <= 113 && forall i :: 0 <= i < |paths| ==> |paths[i]| <= 113)
    ensures GuessesRight(state, prev, oldCount, paths)
    decreases |paths|
  {
    hide Swapped;
    if paths == [] {
    } else {
      var count := Shared(prev, paths[0]);
      var w := count - oldCount + OLD_OFFSET;
      if state.Initial? && 0 < w < 128 {
        SmallWordSwapped(w);
      }
      if Escaped(count - oldCount) {
        MisguessIff(state, oldCount, |prev|, count);
      }
      NeverMisguessed(StateAfter(state, oldCount, |prev|, count), paths[0], count, paths[1..]);
    }
  }

  // The failing family: two equal paths of 114 to 241 bytes and no word before them.
  lemma MisguessedPair(path: Bytes)
    requires Fits(path) && 114 <= |path| <= 241
    ensures !GuessesRight(Initial, [], 0, [path, path])
  {
    assert Shared([], path) == 0;
    SharedSelf(path);
    var w := |path| + OLD_OFFSET;
    assert Swapped(w) < 0 by {
      assert w / 0x100 == 0 && w / 0x1_0000 == 0 && w / 0x100_0000 == 0;
    }
    assert Misguess(Initial, 0, |path|, |path|);
    assert [path, path][1..] == [path];
    assert !GuessesRight(Initial, path, 0, [path]);
  }

  lemma {:induction false} SharedSelf(path: Bytes)
    ensures Shared(path, path) == |path|
  {
    if path != [] {
      SharedSelf(path[1..]);
    }
  }
}
