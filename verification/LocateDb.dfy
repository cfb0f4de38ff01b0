// The database side of locate: what the two format visitors of locate/locate.c read from a byte stream.
module LocateDb {
  import opened Wrappers

  type Byte = b: int | 0 <= b < 256
  type Bytes = seq<Byte>

  const INT_MAX := 0x7fff_ffff
  const SHRT_MAX := 32767
  const SHRT_MIN := -32768

  // LOCATEDB_MAGIC with the NUL that ends the C string literal.
  const MAGIC: Bytes := [0, 76, 79, 67, 65, 84, 69, 48, 50, 0]
  const ESCAPE := 0x80
  const OLD_ESCAPE := 30
  const OLD_OFFSET := 14

  // The C string that starts a buffer.
  function CString(s: Bytes): (r: Bytes)
    ensures r <= s && 0 !in r
    ensures |r| < |s| ==> s[|r|] == 0
  {
    if s == [] || s[0] == 0 then [] else [s[0]] + CString(s[1..])
  }

  lemma {:induction false} CStringIs(s: Bytes, n: nat)
    requires n <= |s| && 0 !in s[..n]
    requires n < |s| ==> s[n] == 0
    ensures CString(s) == s[..n]
  {
    if n == 0 {
    } else {
      assert s[..n][0] == s[0] && s[1..][..n - 1] == s[..n][1..];
      CStringIs(s[1..], n - 1);
    }
  }

  // How many bytes getdelim takes from the stream s: through the first delimiter, or all of them.
  function Chunk(s: Bytes, d: Byte): (n: nat)
    ensures n <= |s| && (s != [] ==> 0 < n)
    ensures forall i :: 0 <= i < n - 1 ==> s[i] != d
    ensures n < |s| ==> s[n - 1] == d
  {
    if s == [] then 0 else if s[0] == d then 1 else 1 + Chunk(s[1..], d)
  }

  lemma {:induction false} ChunkOf(text: Bytes, d: Byte, tail: Bytes)
    requires d !in text
    ensures Chunk(text + [d] + tail, d) == |text| + 1
  {
    if text == [] {
    } else {
      assert (text + [d] + tail)[1..] == text[1..] + [d] + tail;
      ChunkOf(text[1..], d, tail);
    }
  }

  // Lines as both encoders see them: each loses its last byte and is then a C string.
  function Lines(input: Bytes, d: Byte): (r: seq<Bytes>)
    ensures forall i :: 0 <= i < |r| ==> 0 !in r[i]
    decreases |input|
  {
    if input == [] then []
    else
      var n := Chunk(input, d);
      [CString(input[..n - 1])] + Lines(input[n..], d)
  }

  function Joined(paths: seq<Bytes>, d: Byte): Bytes
  {
    if paths == [] then [] else paths[0] + [d] + Joined(paths[1..], d)
  }

  lemma {:induction false} LinesJoined(paths: seq<Bytes>, d: Byte)
    requires forall i :: 0 <= i < |paths| ==> 0 !in paths[i] && d !in paths[i]
    ensures Lines(Joined(paths, d), d) == paths
  {
    if paths == [] {
    } else {
      var tail := Joined(paths[1..], d);
      ChunkOf(paths[0], d, tail);
      var input := Joined(paths, d);
      assert input[..|paths[0]|] == paths[0];
      assert input[|paths[0]| + 1..] == tail;
      CStringIs(paths[0], |paths[0]|);
      assert paths[0][..|paths[0]|] == paths[0];
      LinesJoined(paths[1..], d);
    }
  }

  // The length of the longest common prefix.
  function Shared(a: Bytes, b: Bytes): (n: nat)
    ensures n <= |a| && n <= |b|
    ensures forall i :: 0 <= i < n ==> a[i] == b[i]
    ensures n < |a| && n < |b| ==> a[n] != b[n]
  {
    if a != [] && b != [] && a[0] == b[0] then 1 + Shared(a[1..], b[1..]) else 0
  }

  // ----- What the format visitors do to the stream and to process_data -----

  datatype Endian = Initial | Native | Swab

  // rest is what the stream still holds, with the byte already read into procdata->c put back.
  datatype Reader = Reader(rest: Bytes, count: int, len: int, name: Bytes, endian: Endian)

  // Wild marks the corrupt databases on which the C code takes in bytes of its buffer that it never wrote.
  datatype Outcome = Entry(next: Reader) | Cut | Corrupt | Wild

  datatype Format = Locate02 | OldFormat(table: Bytes, littleEndian: bool)

  function Overlay(name: Bytes, at: nat, text: Bytes): (r: Bytes)
    requires at <= |name|
    ensures |r| >= at + |text| && r[..at] == name[..at] && r[at..at + |text|] == text
  {
    name[..at] + text + (if at + |text| < |name| then name[at + |text|..] else [])
  }

  lemma Overlaid(name: Bytes, count: nat, path: Bytes)
    requires count <= |path| && count <= |name| && name[..count] == path[..count] && 0 !in path
    ensures var o := Overlay(name, count, path[count..] + [0]); path <= o && |path| < |o| && CString(o) == path
  {
    var text := path[count..] + [0];
    var o := Overlay(name, count, text);
    forall i | 0 <= i < |path|
      ensures o[i] == path[i]
    {
      if i < count {
        assert o[..count][i] == path[..count][i];
      } else {
        assert o[count..count + |text|][i - count] == text[i - count];
      }
    }
    assert o[count..count + |text|][|path| - count] == 0;
    CStringIs(o, |path|);
    assert o[..|path|] == path;
  }

  function SignedByte(b: Byte): int { if b > 127 then b - 256 else b }

  // A byte that fgetc could not deliver becomes EOF, whose low eight bits are all ones.
  function At(s: Bytes, i: nat): Byte { if i < |s| then s[i] else 255 }

  // The differential count of a LOCATE02 entry, and how many bytes hold it.
  function Delta02(s: Bytes): (r: (int, nat))
    requires s != []
    ensures 1 <= r.1 <= |s| && SHRT_MIN <= r.0 <= SHRT_MAX
  {
    if s[0] == ESCAPE then (SignedByte(At(s, 1)) * 256 + At(s, 2), if |s| < 3 then |s| else 3)
    else (SignedByte(s[0]), 1)
  }

  // The string at the head of rest, overlaid on the old name.
  function StringEntry(rest: Bytes, count: nat, name: Bytes, endian: Endian): (r: Reader)
    requires rest != [] && count <= |name|
    ensures |r.rest| < |rest|
  {
    var nread := Chunk(rest, 0);
    Reader(rest[nread..], count, count + nread, Overlay(name, count, rest[..nread]), endian)
  }

  function Next02(r: Reader): (o: Outcome)
    requires r.rest != []
    ensures o.Entry? ==> |o.next.rest| < |r.rest|
  {
    var d := Delta02(r.rest);
    var count := r.count + d.0;
    var rest := r.rest[d.1..];
    if count > r.len || count < 0 then Corrupt
    else if rest == [] then Cut
    else if count > |r.name| then Wild
    else
      // Text cut off by the end of the file has no NUL, and locate_read_str adds none.
      var next := StringEntry(rest, count, r.name, r.endian);
      if 0 in next.name then Entry(next) else Wild
  }

  // Two's complement of the four bytes, least significant first.
  function Int32(b0: Byte, b1: Byte, b2: Byte, b3: Byte): (v: int)
    ensures -0x8000_0000 <= v <= INT_MAX
  {
    SignedByte(b3) * 0x100_0000 + b2 * 0x1_0000 + b1 * 0x100 + b0
  }

  function NativeWord(data: Bytes, little: bool): int
    requires |data| == 4
  {
    if little then Int32(data[0], data[1], data[2], data[3]) else Int32(data[3], data[2], data[1], data[0])
  }

  // decode_value: the word, and what is then known about the byte order.
  function DecodeWord(data: Bytes, little: bool, limit: int, state: Endian): (int, Endian)
    requires |data| == 4
  {
    var native := NativeWord(data, little);
    var swapped := NativeWord(data, !little);
    match state
    case Native => (native, Native)
    case Swab => (swapped, Swab)
    case Initial =>
      if native <= limit then (native, if swapped > limit then Native else Initial)
      else if swapped <= limit then (swapped, Swab)
      else (native, Initial)
  }

  // The text of an old-format entry: ordinary characters and bigram codes up to the next count or escape.
  function OldTextLength(s: Bytes): (n: nat)
    ensures n <= |s| && (n < |s| ==> s[n] <= OLD_ESCAPE)
    ensures forall i :: 0 <= i < n ==> s[i] > OLD_ESCAPE
  {
    if s == [] || s[0] <= OLD_ESCAPE then 0 else 1 + OldTextLength(s[1..])
  }

  // What one byte of text stands for.
  function Code(b: Byte, table: Bytes): Bytes
    requires |table| == 256
  {
    if b < 128 then [b] else [table[(b - 128) * 2], table[(b - 128) * 2 + 1]]
  }

  function Expand(codes: Bytes, table: Bytes): Bytes
    requires |table| == 256
  {
    if codes == [] then [] else Code(codes[0], table) + Expand(codes[1..], table)
  }

  // The new running count, what is known about the byte order, and how many bytes held the count.
  function DeltaOld(r: Reader, little: bool): (d: Option<(int, Endian, nat)>)
    requires r.rest != []
    ensures d.Some? ==> 1 <= d.value.2 <= |r.rest|
  {
    if r.rest[0] != OLD_ESCAPE then Some((r.count + r.rest[0] - OLD_OFFSET, r.endian, 1))
    else if |r.rest| < 5 then None
    else
      var count := r.count - OLD_OFFSET;
      var limit := if count >= 0 then r.len - count else r.len;
      var w := DecodeWord(r.rest[1..5], little, limit, r.endian);
      Some((count + w.0, w.1, 5))
  }

  // The text at the head of rest, overlaid on the old name.
  function TextEntry(rest: Bytes, count: nat, name: Bytes, endian: Endian, table: Bytes): (r: Reader)
    requires |table| == 256 && count <= |name|
    ensures |r.rest| <= |rest|
  {
    var n := OldTextLength(rest);
    var text := Expand(rest[..n], table);
    Reader(rest[n..], count, count + |text|, Overlay(name, count, text + [0]), endian)
  }

  function NextOld(r: Reader, table: Bytes, little: bool): (o: Outcome)
    requires r.rest != [] && |table| == 256
    ensures o.Entry? ==> |o.next.rest| < |r.rest|
  {
    var d := DeltaOld(r, little);
    if d.None? then Corrupt
    else
      var (count, endian, used) := d.value;
      // A negative count asks extend for more memory than there is.
      if count < 0 then Corrupt
      else if count > |r.name| then Wild
      else
        Entry(TextEntry(r.rest[used..], count, r.name, endian, table))
  }

  predicate GoodFormat(f: Format) { f.OldFormat? ==> |f.table| == 256 }

  function Next(f: Format, r: Reader): (o: Outcome)
    requires r.rest != [] && GoodFormat(f)
    ensures o.Entry? ==> |o.next.rest| < |r.rest|
  {
    match f
    case Locate02 => Next02(r)
    case OldFormat(table, little) => NextOld(r, table, little)
  }

  datatype Ending = AtEof | Aborted | Failed | OutOfRange

  // The entries a search sees when no visitor stops it, and how the scan ends.
  datatype Scan = Scan(entries: seq<Bytes>, end: Ending)

  function ReadAll(f: Format, r: Reader): Scan
    requires GoodFormat(f)
    decreases |r.rest|
  {
    if r.rest == [] then Scan([], AtEof)
    else match Next(f, r)
      case Cut => Scan([], Aborted)
      case Corrupt => Scan([], Failed)
      case Wild => Scan([], OutOfRange)
      case Entry(next) =>
        var tail := ReadAll(f, next);
        Scan([CString(next.name)] + tail.entries, tail.end)
  }

  // The entry whose text runs to the end of the file, if the scan gets there: the old name, the length shared with it,
  // and the text.
  datatype Last = Last(name: Bytes, count: nat, text: Bytes)

  function LastEntry(r: Reader): (o: Option<Last>)
    ensures o.Some? && r.len <= |r.name| ==> o.value.count <= |o.value.name|
    decreases |r.rest|
  {
    if r.rest == [] then None
    else
      var d := Delta02(r.rest);
      var count := r.count + d.0;
      var rest := r.rest[d.1..];
      if count > r.len || count < 0 || rest == [] || count > |r.name| then None
      else if Chunk(rest, 0) == |rest| then Some(Last(r.name, count, rest))
      else LastEntry(StringEntry(rest, count, r.name, r.endian))
  }

  // Nothing written ends the last entry: neither its text nor the shared prefix holds a NUL, nor does what is left of
  // older names behind it.
  predicate Unterminated(l: Last)
    requires l.count <= |l.name|
  {
    && 0 !in l.text && 0 !in l.name[..l.count]
    && (l.count + |l.text| <= |l.name| ==> 0 !in l.name[l.count + |l.text|..])
  }

  lemma InOverlay(name: Bytes, at: nat, text: Bytes, b: Byte)
    requires at <= |name|
    ensures b in Overlay(name, at, text) <==>
      b in name[..at] || b in text || (at + |text| <= |name| && b in name[at + |text|..])
  {
    var tail := if at + |text| < |name| then name[at + |text|..] else [];
    InThree(name[..at], text, tail, b);
  }

  lemma InThree(a: Bytes, b: Bytes, c: Bytes, x: Byte)
    ensures x in a + b + c <==> x in a || x in b || x in c
  {
  }

  // A text that stops short of the end of the stream stops at a NUL.
  lemma ChunkEnds(rest: Bytes, count: nat, name: Bytes, endian: Endian)
    requires rest != [] && count <= |name|
    ensures var next := StringEntry(rest, count, name, endian);
      && (Chunk(rest, 0) < |rest| ==> 0 in next.name)
      && (Chunk(rest, 0) == |rest| ==> next.rest == [] && (0 !in next.name <==> Unterminated(Last(name, count, rest))))
  {
    hide Overlay, Chunk;
    var n := Chunk(rest, 0);
    InOverlay(name, count, rest[..n], 0);
    if n < |rest| {
      assert rest[..n][n - 1] == 0;
    } else {
      assert rest[..n] == rest;
    }
  }

  // The LOCATE02 reader uses bytes of its buffer that were never written exactly when the last entry is unterminated.
  lemma {:induction false} OutOfRangeIff(r: Reader)
    requires r.len <= |r.name|
    ensures ReadAll(Locate02, r).end == OutOfRange <==> LastEntry(r).Some? && Unterminated(LastEntry(r).value)
    decreases |r.rest|
  {
    hide StringEntry, Unterminated, Chunk, Overlay, Delta02, CString;
    if r.rest != [] {
      var d := Delta02(r.rest);
      var count := r.count + d.0;
      var rest := r.rest[d.1..];
      if 0 <= count <= r.len && rest != [] {
        ChunkEnds(rest, count, r.name, r.endian);
        EntryLength(rest, count, r.name, r.endian);
        var next := StringEntry(rest, count, r.name, r.endian);
        if Next02(r).Entry? { OutOfRangeIff(next); }
      }
    }
  }

  lemma EntryLength(rest: Bytes, count: nat, name: Bytes, endian: Endian)
    requires rest != [] && count <= |name|
    ensures var next := StringEntry(rest, count, name, endian); next.len <= |next.name|
  {
  }

  // So a file that ends in a NUL is safe.
  lemma {:induction false} NeverOutOfRange(r: Reader)
    requires r.len <= |r.name| && (r.rest != [] ==> r.rest[|r.rest| - 1] == 0)
    ensures ReadAll(Locate02, r).end != OutOfRange
  {
    OutOfRangeIff(r);
    EndsInNul(r);
  }

  lemma {:induction false} EndsInNul(r: Reader)
    requires r.rest != [] ==> r.rest[|r.rest| - 1] == 0
    ensures LastEntry(r).Some? ==> 0 in LastEntry(r).value.text
    decreases |r.rest|
  {
    if r.rest != [] {
      var d := Delta02(r.rest);
      var count := r.count + d.0;
      var rest := r.rest[d.1..];
      if 0 <= count <= |r.name| && rest != [] {
        assert rest[|rest| - 1] == 0;
        EndsInNul(StringEntry(rest, count, r.name, r.endian));
      }
    }
  }

  lemma LastByte(name: Bytes, at: nat, text: Bytes)
    requires at <= |name| && text != []
    ensures Overlay(name, at, text)[at + |text| - 1] == text[|text| - 1]
  {
  }

  // The assertion of visit_locate02_format that the last byte of an entry is no NUL fails exactly for an entry that has
  // its NUL.
  lemma LastByteIsNul(r: Reader)
    requires r.rest != [] && Next02(r).Entry?
    ensures var next, text := Next02(r).next, r.rest[Delta02(r.rest).1..];
      0 < next.len <= |next.name| && (next.name[next.len - 1] == 0 <==> 0 in text[..Chunk(text, 0)])
  {
    hide Delta02, Overlay, Chunk;
    var d := Delta02(r.rest);
    var count := r.count + d.0;
    var text := r.rest[d.1..];
    var n := Chunk(text, 0);
    LastByte(r.name, count, text[..n]);
    assert text[..n][n - 1] == text[n - 1];
  }
}
