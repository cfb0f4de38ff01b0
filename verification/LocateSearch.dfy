// The imperative side of locate/locate.c: process_data, the visitors, and the loops over entries and databases.
module LocateSearch {
  import opened Wrappers
  import opened LocateDb
  import opened Locate
  import Frcode
  import BigramCode

  const EOF := -1

  lemma DropDrop<T>(s: seq<T>, a: nat, b: nat)
    requires a + b <= |s|
    ensures s[a..][b..] == s[a + b..]
  {
  }

  // A store into the buffer, extended by one byte when the store is just past its end.
  function Written(name: Bytes, i: nat, b: Byte): Bytes
    requires i <= |name|
  {
    if i < |name| then name[i := b] else name + [b]
  }

  lemma OverlayPush(name: Bytes, at: nat, text: Bytes, b: Byte)
    requires at <= |name|
    ensures Written(Overlay(name, at, text), at + |text|, b) == Overlay(name, at, text + [b])
  {
  }

  lemma OverlayNothing(name: Bytes, at: nat)
    requires at <= |name|
    ensures Overlay(name, at, []) == name
  {
  }

  lemma {:induction false} ExpandPush(codes: Bytes, c: Byte, table: Bytes)
    requires |table| == 256
    ensures Expand([], table) == [] && Expand(codes + [c], table) == Expand(codes, table) + Code(c, table)
  {
    if codes == [] {
      assert [c][1..] == [] && [] + [c] == [c] && Code(c, table) + [] == Code(c, table);
    } else {
      assert (codes + [c])[1..] == codes[1..] + [c];
      ExpandPush(codes[1..], c, table);
      assert Code(codes[0], table) + (Expand(codes[1..], table) + Code(c, table))
          == Code(codes[0], table) + Expand(codes[1..], table) + Code(c, table);
    }
  }

  lemma TextEnds(s: Bytes, k: nat)
    requires k <= |s| && (k < |s| ==> s[k] <= OLD_ESCAPE)
    requires forall i :: 0 <= i < k ==> s[i] > OLD_ESCAPE
    ensures OldTextLength(s) == k
  {
    var n := OldTextLength(s);
    assert n < |s| ==> s[n] <= OLD_ESCAPE;
  }

  // An entry, from where its text starts and ends in the file.
  lemma TextEntryIs(fp: Bytes, start: nat, end: nat, count: nat, base: Bytes, endian: Endian, table: Bytes)
    requires start <= end <= |fp| && count <= |base| && |table| == 256
    requires end < |fp| ==> fp[end] <= OLD_ESCAPE
    requires forall j :: start <= j < end ==> fp[j] > OLD_ESCAPE
    ensures var text := Expand(fp[start..end], table); var name := Overlay(base, count, text);
      TextEntry(fp[start..], count, base, endian, table)
        == Reader(fp[end..], count, count + |text|, Written(name, count + |text|, 0), endian)
  {
    hide Expand, Overlay, Written, OldTextLength;
    TextEnds(fp[start..], end - start);
    assert fp[start..][..end - start] == fp[start..end];
    OverlayPush(base, count, Expand(fp[start..end], table), 0);
    DropDrop(fp, start, end - start);
  }

  class Search {
    const world: World
    const op: Options
    const littleEndian: bool

    var fp: Bytes
    var pos: nat
    var format: Format

    // struct process_data
    var c: int
    var count: int
    var len: int
    var name: Bytes
    var munged: Bytes
    var endian: Endian

    var inspectors: seq<Visitor>
    var pastPatterns: nat

    // Standard output, and limits.items_accepted.
    var printed: seq<Bytes>
    var accepted: nat

    constructor (world: World, op: Options, littleEndian: bool)
      ensures this.world == world && this.op == op && this.littleEndian == littleEndian
      ensures printed == [] && accepted == 0
    {
      this.world, this.op, this.littleEndian := world, op, littleEndian;
      fp, pos, format, c, count, len, name, munged, endian := [], 0, Locate02, EOF, 0, 0, [], [], Initial;
      printed, accepted, inspectors, pastPatterns := [], 0, [], 0;
    }

    ghost predicate Valid()
      reads `fp, `pos, `c
    {
      && pos <= |fp|
      && (c == EOF ==> pos == |fp|)
      && (c != EOF ==> 0 < pos && c == fp[pos - 1])
    }

    ghost function State(): Reader
      reads `fp, `pos, `c, `count, `len, `name, `endian
      requires Valid()
    {
      Reader(if c == EOF then [] else fp[pos - 1..], count, len, name, endian)
    }

    ghost function Marks(): Tally
      reads `munged, `printed, `accepted
    {
      Tally(munged, printed, accepted)
    }

    ghost predicate Ready()
      reads `fp, `pos, `c, `format, `inspectors, `pastPatterns
    {
      && Valid() && GoodFormat(format) && (format.OldFormat? ==> format.littleEndian == littleEndian)
      && inspectors == [FormatVisitor] + EarlyVisitors(op) + LateVisitors(op)
      && pastPatterns == 1 + |EarlyVisitors(op)|
      && forall i :: 1 <= i < |inspectors| ==> inspectors[i] != FormatVisitor
    }

    method GetC() returns (b: int)
      requires pos <= |fp|
      modifies `pos
      ensures if old(pos) < |fp| then pos == old(pos) + 1 && b == fp[old(pos)] else pos == old(pos) && b == EOF
    {
      if pos < |fp| {
        b := fp[pos];
        pos := pos + 1;
      } else {
        b := EOF;
      }
    }

    // get_short; a byte past the end of the file contributes eight one bits.
    method GetShort() returns (x: int)
      requires pos <= |fp|
      modifies `pos
      ensures x == SignedByte(At(fp[old(pos)..], 0)) * 256 + At(fp[old(pos)..], 1)
      ensures pos == if old(pos) + 2 <= |fp| then old(pos) + 2 else |fp|
    {
      var hi := GetC();
      var lo := GetC();
      if hi == EOF { hi := 255; }
      if lo == EOF { lo := 255; }
      x := (if hi > 127 then hi - 256 else hi) * 256 + lo;
    }

    method ReadCount()
      requires Valid() && c != EOF
      modifies `pos, `count
      ensures var d := Delta02(old(State().rest));
        count == old(count) + d.0 && pos == old(pos) + d.1 - 1 <= |fp|
    {
      ghost var rest := fp[pos - 1..];
      if c == ESCAPE {
        assert fp[pos..] == rest[1..];
        var x := GetShort();
        assert At(rest[1..], 0) == At(rest, 1) && At(rest[1..], 1) == At(rest, 2);
        count := count + x;
      } else if c > 127 {
        count := count + c - 256;
      } else {
        count := count + c;
      }
    }

    // locate_read_str, up to and including the next NUL, and the bookkeeping after it.
    method ReadString() returns (ok: bool)
      requires pos <= |fp| && 0 <= count <= |name|
      modifies `pos, `c, `len, `name
      ensures ok <==> old(pos) < |fp|
      ensures ok ==> Valid() && State() == StringEntry(fp[old(pos)..], count, old(name), endian)
    {
      hide Overlay;
      ok := pos < |fp|;
      if !ok { return; }
      var nread := Chunk(fp[pos..], 0);
      DropDrop(fp, pos, nread);
      name := Overlay(name, count, fp[pos..][..nread]);
      pos := pos + nread;
      c := GetC();
      len := count + nread;
    }

    method VisitLocate02() returns (v: Verdict)
      requires Valid() && c != EOF && format.Locate02?
      modifies `pos, `c, `count, `len, `name
      ensures Agrees(v, Next02(old(State())))
    {
      hide Delta02, StringEntry, Next02;
      ghost var r, rest := State(), fp[pos - 1..];
      ReadCount();
      DropDrop(fp, old(pos) - 1, Delta02(rest).1);
      NextFrom(r, count, fp[pos..]);
      if count > len || count < 0 { return Fatal; }
      if count > |name| {
        return if pos == |fp| then Verdict.Abort else Verdict.Undefined;
      }
      var ok := ReadString();
      v := if !ok then Verdict.Abort else if 0 in name then Continue else Undefined;
    }

    // getword and decode_value.
    method GetWord(maxValue: int) returns (ok: bool, word: int)
      requires pos <= |fp|
      modifies `pos, `endian
      ensures ok <==> old(pos) + 4 <= |fp|
      ensures ok ==> (word, endian) == DecodeWord(fp[old(pos)..old(pos) + 4], littleEndian, maxValue, old(endian))
      ensures pos == if ok then old(pos) + 4 else old(pos)
    {
      ok, word := pos + 4 <= |fp|, 0;
      if !ok { return; }
      var data := fp[pos..pos + 4];
      pos := pos + 4;
      var native := NativeWord(data, littleEndian);
      var swapped := NativeWord(data, !littleEndian);
      if endian == Initial {
        if native <= maxValue {
          if swapped > maxValue { endian := Native; }
          word := native;
        } else if swapped <= maxValue {
          endian := Swab;
          word := swapped;
        } else {
          word := native;
        }
      } else {
        word := if endian == Swab then swapped else native;
      }
    }

    // procdata->original_filename[i] = b, after extend.
    method Put(i: nat, b: Byte)
      requires i <= |name|
      modifies `name
      ensures name == Written(old(name), i, b)
    {
      name := Written(name, i, b);
    }

    // One byte of text: an ordinary character, or a bigram.
    method PutCode(i: nat, b: Byte, ghost base: Bytes, ghost at: nat, ghost text: Bytes) returns (next: nat)
      requires format.OldFormat? && GoodFormat(format)
      requires at <= |base| && name == Overlay(base, at, text) && i == at + |text|
      modifies `name
      ensures name == Overlay(base, at, text + Code(b, format.table)) && next == i + |Code(b, format.table)|
    {
      hide Overlay, Written;
      if b < 128 {
        OverlayPush(base, at, text, b);
        Put(i, b);
        next := i + 1;
      } else {
        var b1, b2 := format.table[(b - 128) * 2], format.table[(b - 128) * 2 + 1];
        OverlayPush(base, at, text, b1);
        OverlayPush(base, at, text + [b1], b2);
        assert text + [b1] + [b2] == text + [b1, b2];
        Put(i, b1);
        Put(i + 1, b2);
        next := i + 2;
      }
    }

    // The bytes fp[start..end] have been overlaid on base, and the next byte is in c.
    ghost predicate TextAt(base: Bytes, start: nat, end: nat, i: nat)
      requires format.OldFormat? && GoodFormat(format)
      reads `fp, `pos, `c, `count, `name, `format
    {
      && start <= end <= |fp| && 0 <= count <= |base|
      && name == Overlay(base, count, Expand(fp[start..end], format.table))
      && i == count + |Expand(fp[start..end], format.table)|
      && c == (if end < |fp| then fp[end] else EOF)
      && pos == (if end < |fp| then end + 1 else end)
      && forall j :: start <= j < end ==> fp[j] > OLD_ESCAPE
    }

    // One turn of the loop that overlays the old path.
    method TakeCode(i: nat, ghost base: Bytes, ghost start: nat, ghost end: nat) returns (next: nat)
      requires format.OldFormat? && GoodFormat(format) && TextAt(base, start, end, i) && c > OLD_ESCAPE
      modifies `pos, `c, `name
      ensures end < |fp| && TextAt(base, start, end + 1, next)
    {
      hide Expand, Overlay, Code;
      ExpandPush(fp[start..end], c, format.table);
      assert fp[start..end + 1] == fp[start..end] + [c];
      next := PutCode(i, c, base, count, Expand(fp[start..end], format.table));
      c := GetC();
    }

    // The loop itself.
    method TakeCodes(i0: nat, ghost base: Bytes, ghost start: nat) returns (i: nat, ghost end: nat)
      requires format.OldFormat? && GoodFormat(format) && TextAt(base, start, start, i0)
      modifies `pos, `c, `name
      ensures TextAt(base, start, end, i) && c <= OLD_ESCAPE
    {
      assert start <= |fp|;
      hide TextAt;
      end, i := start, i0;
      while c > OLD_ESCAPE
        invariant end <= |fp| && TextAt(base, start, end, i)
        decreases |fp| - end
      {
        i := TakeCode(i, base, start, end);
        end := end + 1;
      }
    }

    // The first character after the count.
    method FirstCode()
      requires format.OldFormat? && GoodFormat(format) && pos <= |fp| && 0 <= count <= |name|
      modifies `pos, `c
      ensures TextAt(name, old(pos), old(pos), count)
    {
      hide Expand, Overlay;
      ghost var start := pos;
      c := GetC();
      OverlayNothing(name, count);
      ExpandPush([], 0, format.table);
      assert fp[start..start] == [];
    }

    // The NUL behind the text.
    method EndText(i: nat, ghost base: Bytes, ghost start: nat, ghost end: nat)
      requires format.OldFormat? && GoodFormat(format) && TextAt(base, start, end, i) && c <= OLD_ESCAPE
      modifies `name, `len
      ensures Valid() && State() == TextEntry(fp[start..], count, base, endian, format.table)
    {
      hide Expand, Overlay, Written, TextEntry;
      TextEntryIs(fp, start, end, count, base, endian, format.table);
      Put(i, 0);
      len := i;
    }

    // The loop, and the bookkeeping around it.
    method ReadText()
      requires format.OldFormat? && GoodFormat(format) && pos <= |fp| && 0 <= count <= |name|
      modifies `pos, `c, `name, `len
      ensures Valid() && State() == TextEntry(fp[old(pos)..], count, old(name), endian, format.table)
    {
      hide TextAt, TextEntry;
      ghost var base, start := name, pos;
      FirstCode();
      var i;
      ghost var end;
      i, end := TakeCodes(count, base, start);
      EndText(i, base, start, end);
    }

    method ReadCountOld() returns (ok: bool)
      requires Valid() && c != EOF
      modifies `pos, `count, `endian
      ensures pos <= |fp|
      ensures var d := DeltaOld(old(State()), littleEndian);
        ok == d.Some? && (ok ==> (count, endian) == (d.value.0, d.value.1) && fp[pos..] == old(State().rest)[d.value.2..])
    {
      hide DecodeWord;
      ok := true;
      ghost var rest := fp[pos - 1..];
      assert rest[1..] == fp[pos..];
      if c == OLD_ESCAPE {
        count := count - OLD_OFFSET;
        var maxValue := if count >= 0 then len - count else len;
        assert pos + 4 <= |fp| ==> rest[1..5] == fp[pos..pos + 4] && rest[5..] == fp[pos + 4..];
        var word;
        ok, word := GetWord(maxValue);
        if ok { count := count + word; }
      } else {
        count := count + (c - OLD_OFFSET);
      }
    }

    method VisitOldFormat() returns (v: Verdict)
      requires Valid() && c != EOF && format.OldFormat? && GoodFormat(format)
      modifies `pos, `c, `count, `len, `name, `endian
      ensures Agrees(v, NextOld(old(State()), format.table, littleEndian))
    {
      hide DeltaOld, TextEntry;
      var ok := ReadCountOld();
      if !ok { return Fatal; }
      if count < 0 { return Fatal; }
      if count > |name| { return Undefined; }
      ReadText();
      v := Continue;
    }

    // The verdict and the new state are those of the pure reader.
    ghost predicate Agrees(v: Verdict, o: Outcome)
      reads `fp, `pos, `c, `count, `len, `name, `endian
    {
      match o
      case Entry(next) => v == Continue && Valid() && State() == next
      case Cut => v == Abort
      case Corrupt => v == Fatal
      case Wild => v == Undefined
    }

    // Any visitor after the first.
    method Inspect(v: Visitor) returns (r: Verdict)
      requires v != FormatVisitor
      modifies `munged, `printed, `accepted
      ensures (r, Marks()) == Step(world, op, v, CString(name), old(Marks()))
    {
      var entry := CString(name);
      match v
      case Basename =>
        munged := world.lastComponent(entry);
        r := Continue;
      case Pattern(text) =>
        r := if world.matches(text, munged) then Accepted else Rejected;
      case Existing(wanted) =>
        r := if world.present(entry) == wanted then Continue else Rejected;
      case Stats =>
        r := Continue;
      case Print =>
        printed := printed + [entry];
        r := Continue;
      case Limit =>
        accepted := accepted + 1;
        r := if accepted >= op.limit then Abort else Continue;
      case Count =>
        accepted := accepted + 1;
        r := Continue;
    }

    // visit, from a visitor that is not the first.
    method Visit(from: nat, accept: set<Verdict>, stop: nat) returns (result: Verdict)
      requires Ready() && 1 <= from <= stop <= |inspectors| && Continue in accept
      modifies `munged, `printed, `accepted
      ensures Ready()
      ensures (result, Marks()) == Run(world, op, inspectors[from..stop], accept, Continue, CString(name), old(Marks()))
    {
      hide Run, Step, EarlyVisitors, LateVisitors, CString;
      result := Continue;
      var p := from;
      ghost var entry, t0 := CString(name), Marks();
      while result in accept && p != stop
        invariant from <= p <= stop && Ready()
        invariant Run(world, op, inspectors[from..stop], accept, Continue, entry, t0)
               == Run(world, op, inspectors[p..stop], accept, result, entry, Marks())
        decreases stop - p
      {
        assert inspectors[p..stop] == [inspectors[p]] + inspectors[p + 1..stop];
        RunCons(world, op, inspectors[p], inspectors[p + 1..stop], accept, result, entry, Marks());
        result := Inspect(inspectors[p]);
        p := p + 1;
      }
      RunEnds(world, op, inspectors[p..stop], accept, result, entry, Marks());
    }

    // The format visitor comes first in every chain.
    method VisitFormat() returns (v: Verdict)
      requires Ready() && c != EOF
      modifies `pos, `c, `count, `len, `name, `endian, `munged
      ensures Agrees(v, Next(format, old(State())))
      ensures v == Continue ==> Ready() && munged == CString(name)
    {
      hide Next02, NextOld, EarlyVisitors, LateVisitors, CString, State;
      if format.Locate02? {
        v := VisitLocate02();
      } else {
        v := VisitOldFormat();
      }
      if v == Continue { munged := CString(name); }
    }

    // What process_simple, process_or and process_and do after the format visitor.
    method Judge() returns (result: Verdict)
      requires Ready() && munged == CString(name)
      modifies `munged, `printed, `accepted
      ensures Ready() && (result, Marks()) == Process(world, op, CString(name), old(Marks()))
    {
      hide Run, EarlyVisitors, LateVisitors, CString, Valid;
      assert inspectors[1..|inspectors|] == EarlyVisitors(op) + LateVisitors(op);
      assert inspectors[1..pastPatterns] == EarlyVisitors(op);
      assert inspectors[pastPatterns..|inspectors|] == LateVisitors(op);
      if |op.patterns| <= 1 {
        result := Visit(1, {Continue, Accepted}, |inspectors|);
      } else {
        result := Visit(1, {Continue, if op.opAnd then Accepted else Rejected}, pastPatterns);
        if result == Continue { result := Rejected; }
        if result == Abort || result == Rejected { return; }
        result := Visit(pastPatterns, {Continue}, |inspectors|);
        if result == Continue { result := Accepted; }
      }
    }

    // process_simple, process_or and process_and.
    method ProcessEntry() returns (result: Verdict)
      requires Ready() && c != EOF
      modifies `pos, `c, `count, `len, `name, `endian, `munged, `printed, `accepted
      ensures var o := Next(format, old(State()));
        if o.Entry? then
          Ready() && State() == o.next && (result, Marks()) == Process(world, op, CString(o.next.name), old(Marks()))
        else
          Agrees(result, o) && printed == old(printed) && accepted == old(accepted)
    {
      hide Run, EarlyVisitors, LateVisitors, Next, CString, Process;
      ghost var before := Marks();
      result := VisitFormat();
      if result == Continue {
        SetsMunged(world, op, CString(name), before, Marks());
        result := Judge();
      }
    }

    ghost function Bare(): Tally
      reads `printed, `accepted
    {
      Tally([], printed, accepted)
    }

    // The loop over entries: every one of them, or up to the one that reaches the limit.
    method SearchEntries() returns (v: Verdict)
      requires Ready()
      modifies `pos, `c, `count, `len, `name, `endian, `munged, `printed, `accepted
      ensures var scan := ReadAll(format, old(State())); var f := Finish(world, op, scan.entries, old(Bare()));
        Bare() == f.1 && v == if f.0 then Abort else AtEnd(scan.end)
    {
      hide Next, Selected, Process, EarlyVisitors, LateVisitors, CString, Accept, Exhausted;
      v := Continue;
      ghost var scan := ReadAll(format, State());
      while c != EOF
        invariant Ready()
        invariant scan.end == ReadAll(format, State()).end
        invariant Finish(world, op, scan.entries, old(Bare())) == Finish(world, op, ReadAll(format, State()).entries, Bare())
        decreases |State().rest|
      {
        ghost var r, t, here := State(), Marks(), ReadAll(format, State());
        ghost var o := Next(format, r);
        v := ProcessEntry();
        if v == Abort || v == Fatal || v == Undefined {
          assert o.Entry? ==> here.entries[1..] == ReadAll(format, o.next).entries;
          if o.Entry? { Judged(world, op, CString(o.next.name), t); }
          return;
        }
        assert here.entries[1..] == ReadAll(format, o.next).entries;
        Judged(world, op, CString(o.next.name), t);
      }
      v := Continue;
    }

    method AddVisitor(v: Visitor)
      modifies `inspectors
      ensures inspectors == old(inspectors) + [v]
    {
      inspectors := inspectors + [v];
    }

    method AddPatternVisitors()
      modifies `inspectors
      ensures inspectors == old(inspectors) + PatternVisitors(op.patterns)
    {
      ghost var all, before := PatternVisitors(op.patterns), inspectors;
      var argn := 0;
      assert before + all[..0] == before;
      while argn < |op.patterns|
        invariant argn <= |op.patterns| && inspectors == before + all[..argn]
      {
        hide PatternVisitors;
        assert all[..argn + 1] == all[..argn] + [all[argn]];
        Assoc(before, all[..argn], [all[argn]]);
        AddVisitor(Pattern(op.patterns[argn]));
        argn := argn + 1;
      }
      assert all[..argn] == all;
    }

    method AddLateVisitors()
      modifies `inspectors
      ensures inspectors == old(inspectors) + LateVisitors(op)
    {
      ghost var before := inspectors;
      match op.existence {
        case AcceptExisting => AddVisitor(Existing(true));
        case AcceptNonExisting => AddVisitor(Existing(false));
        case AcceptEither =>
      }
      ghost var existing := ExistenceVisitors(op);
      assert inspectors == before + existing;
      ghost var stats: seq<Visitor> := if op.stats then [Stats] else [];
      if op.stats { AddVisitor(Stats); }
      assert inspectors == before + existing + stats;
      ghost var show: seq<Visitor> := if op.enablePrint then [Print] else [];
      if op.enablePrint { AddVisitor(Print); }
      assert inspectors == before + existing + stats + show;
      Assoc(before, existing, stats);
      Assoc(before, existing + stats, show);
      Assoc(before, existing + stats + show, [if op.useLimit then Limit else Count]);
      AddVisitor(if op.useLimit then Limit else Count);
    }

    // The inspection regime of search_one_database.
    method SetUpVisitors()
      modifies `inspectors, `pastPatterns
      ensures inspectors == [FormatVisitor] + EarlyVisitors(op) + LateVisitors(op)
      ensures pastPatterns == 1 + |EarlyVisitors(op)|
    {
      hide LateVisitors, PatternVisitors;
      inspectors := [];
      AddVisitor(FormatVisitor);
      ghost var base: seq<Visitor> := if op.basenameOnly then [Basename] else [];
      if op.basenameOnly { AddVisitor(Basename); }
      assert inspectors == [FormatVisitor] + base;
      AddPatternVisitors();
      Assoc([FormatVisitor], base, PatternVisitors(op.patterns));
      pastPatterns := |inspectors|;
      AddLateVisitors();
    }

    // The reader is set to the start of the entries.
    method Rewind(start: Reader, f: Format)
      requires start.count == 0 && start.len == 0 && start.endian == Initial
      modifies `fp, `pos, `format, `c, `count, `len, `name, `endian
      ensures Valid() && State() == start && format == f
    {
      format, fp, pos := f, start.rest, 0;
      count, len, name, endian := 0, 0, start.name, Initial;
      c := GetC();
    }

    // search_one_database.
    method SearchOneDatabase(file: Bytes) returns (v: Verdict)
      requires Modelled(file, littleEndian)
      modifies this
      ensures var scan := Contents(file, littleEndian); var f := Finish(world, op, scan.entries, old(Bare()));
        Bare() == f.1 && v == if f.0 then Abort else AtEnd(scan.end)
    {
      hide Finish, ReadAll, CString, EarlyVisitors, LateVisitors, Open;
      OpenStarts(file, littleEndian);
      var database := Open(file, littleEndian);
      NoEntries(world, op, Bare());
      if database.TooShort? { return Fatal; }
      if database.Slocate? { return Continue; }
      SetUpVisitors();
      OnlyOneFormatVisitor(op);
      Rewind(database.start, database.format);
      v := SearchEntries();
    }

    // The loop of dolocate over the databases, which the limit guards; a fatal error ends the program.
    method DoLocate(files: seq<Bytes>) returns (ok: bool)
      requires forall i :: 0 <= i < |files| ==> Modelled(files[i], littleEndian)
      requires printed == [] && accepted == 0
      modifies this
      ensures (forall i :: 0 <= i < |files| ==> Sound(files[i], littleEndian)) ==>
        ok && printed == Answer(world, op, AllEntries(files, littleEndian))
    {
      hide Finish, Sound, Modelled, Contents;
      var i := 0;
      ok := true;
      ghost var all := Finish(world, op, AllEntries(files, littleEndian), Bare());
      assert files[0..] == files;
      while i < |files| && (!op.useLimit || op.limit > accepted)
        invariant i <= |files| && (op.useLimit && op.limit == 0 ==> Bare() == Tally([], [], 0))
        invariant (forall k :: 0 <= k < |files| ==> Sound(files[k], littleEndian)) ==> ok
        invariant (forall k :: 0 <= k < |files| ==> Sound(files[k], littleEndian)) ==>
          StillToDo(world, op, all.1, AllEntries(files[i..], littleEndian), Bare())
      {
        assert files[i..][1..] == files[i + 1..];
        ghost var t := Bare();
        var v := SearchOneDatabase(files[i]);
        OneMore(world, op, all.1, Contents(files[i], littleEndian), AllEntries(files[i + 1..], littleEndian), t);
        if v == Fatal || v == Undefined {
          SoundVerdict(files[i], littleEndian);
          return false;
        }
        i := i + 1;
      }
      assert i == |files| ==> files[i..] == [];
      NoEntries(world, op, Bare());
      Answered(world, op, AllEntries(files, littleEndian));
    }
  }

  // The reader, once the count has been read.
  lemma NextFrom(r: Reader, count: int, rest: Bytes)
    requires r.rest != [] && count == r.count + Delta02(r.rest).0 && rest == r.rest[Delta02(r.rest).1..]
    ensures Next02(r) ==
      if count > r.len || count < 0 then Corrupt
      else if rest == [] then Cut
      else if count > |r.name| then Wild
      else
        var next := StringEntry(rest, count, r.name, r.endian);
        if 0 in next.name then Entry(next) else Wild
  {
    hide Delta02, StringEntry;
  }

  // What was in munged_filename before an entry does not matter.
  lemma SetsMunged(w: World, op: Options, entry: Bytes, t: Tally, u: Tally)
    requires u == t.(munged := u.munged)
    ensures Process(w, op, entry, t) == Process(w, op, entry, u)
  {
    hide Run, EarlyVisitors, LateVisitors;
  }

  lemma OpenStarts(file: Bytes, littleEndian: bool)
    ensures var o := Open(file, littleEndian); o.Readable? ==>
      && o.start.count == 0 && o.start.len == 0 && o.start.endian == Initial
      && (o.format.OldFormat? ==> o.format.littleEndian == littleEndian)
  {
  }

  lemma NoEntries(w: World, op: Options, t: Tally)
    ensures Finish(w, op, [], t) == (false, t)
  {
  }

  lemma OnlyOneFormatVisitor(op: Options)
    ensures FormatVisitor !in EarlyVisitors(op) && FormatVisitor !in LateVisitors(op)
  {
  }

  // Every entry can be read.
  predicate Sound(file: Bytes, littleEndian: bool)
  {
    var end := Contents(file, littleEndian).end;
    end == AtEof || end == Aborted
  }

  // A LOCATE02 database is sound exactly if no count is out of the old name and the last entry is terminated; one that
  // ends in a NUL or holds nothing always has the latter.
  lemma SoundIff(file: Bytes, little: bool)
    requires Open(file, little).Readable? && Open(file, little).format.Locate02?
    ensures var start := Open(file, little).start;
      Sound(file, little) <==>
        Contents(file, little).end != Failed && !(LastEntry(start).Some? && Unterminated(LastEntry(start).value))
    ensures (|file| > |MAGIC| ==> file[|file| - 1] == 0) ==> Contents(file, little).end != OutOfRange
  {
    hide ReadAll, LastEntry, Unterminated;
    var start := Open(file, little).start;
    OutOfRangeIff(start);
    if |file| > |MAGIC| ==> file[|file| - 1] == 0 { NeverOutOfRange(start); }
  }

  // A database cut off in the text of its first entry, once that has overwritten the magic number in the buffer.
  lemma CutOff(text: Bytes, little: bool)
    requires |text| >= |MAGIC| && 0 !in text
    ensures var file := MAGIC + [0] + text;
      && Modelled(file, little) && Contents(file, little) == Scan([], OutOfRange) && !Sound(file, little)
  {
    var file := MAGIC + [0] + text;
    assert file[..|MAGIC|] == MAGIC && file[|MAGIC|..] == [0] + text;
    var r := Reader([0] + text, 0, 0, MAGIC, Initial);
    assert r.rest[1..] == text && Delta02(r.rest) == (0, 1);
    AllText(text);
    assert LastEntry(r) == Some(Last(MAGIC, 0, text));
    ChunkEnds(text, 0, MAGIC, Initial);
    assert Next02(r) == Wild;
  }

  // The first entry shares nothing with the one before it, so any other count is corrupt.
  lemma WrongStart(b: Byte, rest: Bytes, little: bool)
    requires b != 0 && b != ESCAPE
    ensures Contents(MAGIC + [b] + rest, little) == Scan([], Failed)
  {
    var file := MAGIC + [b] + rest;
    assert file[..|MAGIC|] == MAGIC && file[|MAGIC|..] == [b] + rest;
    var r := Reader([b] + rest, 0, 0, MAGIC, Initial);
    assert Delta02(r.rest) == (SignedByte(b), 1);
  }

  lemma AllText(text: Bytes)
    requires 0 !in text
    ensures Chunk(text, 0) == |text|
  {
  }

  function AllEntries(files: seq<Bytes>, littleEndian: bool): seq<Bytes>
  {
    if files == [] then [] else Contents(files[0], littleEndian).entries + AllEntries(files[1..], littleEndian)
  }

  // What locate is for: the selected entries in order, at most limit of them.
  ghost function Answer(w: World, op: Options, entries: seq<Bytes>): seq<Bytes>
  {
    var hits := Hits(w, op, entries);
    if !op.enablePrint then [] else if op.useLimit && op.limit < |hits| then hits[..op.limit] else hits
  }

  lemma SoundVerdict(file: Bytes, littleEndian: bool)
    requires AtEnd(Contents(file, littleEndian).end) == Fatal || AtEnd(Contents(file, littleEndian).end) == Undefined
    ensures !Sound(file, littleEndian)
  {
  }

  // Either the limit has been reached with the answer printed, or the rest of the entries lead to it.
  ghost predicate StillToDo(w: World, op: Options, answer: Tally, rest: seq<Bytes>, t: Tally)
  {
    if Exhausted(op, t) then t == answer || op.limit == 0 else Finish(w, op, rest, t).1 == answer
  }

  lemma OneMore(w: World, op: Options, answer: Tally, scan: Scan, rest: seq<Bytes>, t: Tally)
    requires !Exhausted(op, t)
    ensures StillToDo(w, op, answer, scan.entries + rest, t) ==>
      StillToDo(w, op, answer, rest, Finish(w, op, scan.entries, t).1)
  {
    var f := Finish(w, op, scan.entries, t);
    FinishConcat(w, op, scan.entries, rest, t);
    NotYet(w, op, scan.entries, t);
  }

  lemma {:induction false} NotYet(w: World, op: Options, entries: seq<Bytes>, t: Tally)
    requires !Exhausted(op, t)
    ensures Finish(w, op, entries, t).0 <==> Exhausted(op, Finish(w, op, entries, t).1)
    decreases |entries|
  {
    if entries != [] {
      var t' := if Selected(w, op, entries[0]) then Accept(op, entries[0], t) else t;
      if !Exhausted(op, t') { NotYet(w, op, entries[1..], t'); }
    }
  }

  lemma Answered(w: World, op: Options, entries: seq<Bytes>)
    ensures var t := Tally([], [], 0);
      if op.useLimit && op.limit == 0 then Answer(w, op, entries) == []
      else Finish(w, op, entries, t).1.printed == Answer(w, op, entries)
  {
    if !op.useLimit || op.limit > 0 {
      FinishIs(w, op, entries, Tally([], [], 0));
      var hits := Hits(w, op, entries);
      assert hits[..|hits|] == hits;
    }
  }

  function AtEnd(e: Ending): Verdict
  {
    match e
    case AtEof => Continue
    case Aborted => Abort
    case Failed => Fatal
    case OutOfRange => Undefined
  }

  // ProcessMeans, without the munged name.
  lemma Judged(w: World, op: Options, entry: Bytes, t: Tally)
    ensures var r := Process(w, op, entry, t); var bare := Tally([], t.printed, t.accepted);
      var after := Tally([], r.1.printed, r.1.accepted);
      && !r.0.Fatal? && !r.0.Undefined?
      && (if Selected(w, op, entry) then after == Accept(op, entry, bare) && (r.0 == Abort <==> Exhausted(op, after))
          else after == bare && r.0 != Abort)
  {
    hide Process, Selected;
    ProcessMeans(w, op, entry, t);
  }

  lemma RunEnds(w: World, op: Options, vs: seq<Visitor>, accept: set<Verdict>, result: Verdict, entry: Bytes, t: Tally)
    requires result !in accept || vs == []
    ensures Run(w, op, vs, accept, result, entry, t) == (result, t)
  {
  }

  lemma OneDatabase(file: Bytes, little: bool)
    ensures AllEntries([file], little) == Contents(file, little).entries
  {
    var rest := [file][1..];
    assert rest == [] && AllEntries(rest, little) == [];
    assert Contents(file, little).entries + [] == Contents(file, little).entries;
  }

  // Searching what frcode wrote is filtering the list it was given.
  lemma SearchesTheList(w: World, op: Options, paths: seq<Bytes>, delimiter: Byte, little: bool)
    requires forall i :: 0 <= i < |paths| ==> 0 !in paths[i] && delimiter !in paths[i]
    requires !Frcode.Overruns(Frcode.Shares([], paths))
    ensures var db := Frcode.Prepend(MAGIC, Frcode.Encode([], 0, Lines(Joined(paths, delimiter), delimiter)));
      && db.Some? && Modelled(db.value, little) && Sound(db.value, little)
      && Answer(w, op, AllEntries([db.value], little)) == Answer(w, op, paths)
  {
    LinesJoined(paths, delimiter);
    Frcode.WrittenAndRead(paths, MAGIC);
    var file := MAGIC + Frcode.Encode([], 0, paths).value;
    assert file[|MAGIC|..] == Frcode.Encode([], 0, paths).value && file[..|MAGIC|] == MAGIC;
    assert Contents(file, little) == Scan(paths, AtEof);
    OneDatabase(file, little);
  }

  // The same for the old format, when no native word is taken for a swapped one and the bigram table is no magic number.
  lemma SearchesTheOldList(w: World, op: Options, paths: seq<Bytes>, table: Bytes, little: bool)
    requires |table| == 256 && table[..|MAGIC|] != MAGIC && !(table[1] == 0 && 48 <= table[0] <= 57)
    requires forall i :: 0 <= i < |paths| ==> BigramCode.Fits(paths[i])
    requires BigramCode.GuessesRight(Initial, [], 0, paths)
    ensures var file := table
        + BigramCode.Encode(table, little, [], 0, BigramCode.SquelchLines(Lines(Joined(paths, 10), 10)));
      && Modelled(file, little) && Sound(file, little)
      && Answer(w, op, AllEntries([file], little)) == Answer(w, op, paths)
  {
    LinesJoined(paths, 10);
    assert BigramCode.SquelchLines(paths) == paths by {
      forall i | 0 <= i < |paths|
        ensures BigramCode.SquelchAll(paths[i]) == paths[i]
      {
      }
    }
    var body := BigramCode.Encode(table, little, [], 0, paths);
    var file := table + body;
    assert file[..256] == table && file[256..] == body && file[..|MAGIC|] == table[..|MAGIC|];
    BigramCode.RoundTripIff(Reader(body, 0, 0, table, Initial), [], 0, paths, table, little);
    OneDatabase(file, little);
  }
}
