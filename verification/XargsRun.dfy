// xargs/xargs.c: read_line on the input stream, and the loop of main that feeds the command builder.
module XargsRun {
  import opened Wrappers
  import opened BuildCmd
  import opened XargsLexer

  function TextsOf(toks: seq<Token>): (t: seq<string>)
    ensures |t| == |toks| && forall i :: 0 <= i < |t| ==> t[i] == toks[i].text
  {
    if toks == [] then [] else [toks[0].text] + TextsOf(toks[1..])
  }

  lemma TextsOfPush(toks: seq<Token>, tok: Token)
    ensures TextsOf(toks + [tok]) == TextsOf(toks) + [tok.text]
  {
  }

  // No argument is cut short by a NUL in its text.
  predicate Whole(toks: seq<Token>)
  {
    forall i :: 0 <= i < |toks| ==> toks[i].len == |toks[i].text| + 1
  }

  // The callback launches every command, and the bytes of the initial arguments are counted exactly.
  ghost predicate Accepting(b: Builder, initial: seq<string>)
    reads b`initialChars
  {
    b.AllAccepted() && b.initialChars == Chars(initial)
  }

  // Every command so far has an argument, and no more of them than needed were run.
  ghost predicate Tight(b: Builder, initial: seq<string>, toks: seq<Token>, news: seq<seq<string>>)
    reads b
  {
    && AllLonger(news, |initial|)
    && (Accepting(b, initial) && Whole(toks) ==>
          b.Valid() && b.Exact() && Packing(news, b.Pending(), b.ctl, |initial|))
  }

  // The arguments toks have gone into commands, or are pending, after the ones that were there before.
  ghost predicate Fed(b: Builder, before: seq<seq<string>>, pending: seq<string>, initial: seq<string>,
                      toks: seq<Token>, news: seq<seq<string>>)
    reads b
  {
    Delivered(b, before, pending, initial, toks, news) && Tight(b, initial, toks, news)
  }

  ghost predicate Delivered(b: Builder, before: seq<seq<string>>, pending: seq<string>, initial: seq<string>,
                            toks: seq<Token>, news: seq<seq<string>>)
    reads b
  {
    && b.Valid() && b.AtRest() && b.InitialArgs() == initial && b.commands == before + news
    && Blocks(news, |initial|) + b.Pending() == pending + TextsOf(toks)
    && AllPrefixed(news, initial) && AllWithin(news, b.ctl, |initial|)
  }

  // What is done before the program gives up on its input: whatever is pending is run, unless -x forbids it.
  ghost predicate GaveUp(b: Builder, before: seq<seq<string>>, pending: seq<string>, initial: seq<string>,
                         toks: seq<Token>, news: seq<seq<string>>)
    reads b
  {
    Delivered(b, before, pending, initial, toks, news) && (b.ctl.exitIfSizeExceeded || b.Pending() == [])
  }

  // The errors a push can end in.
  ghost predicate Expected(b: Builder, status: Status, initialArgc: nat)
    reads b`initialChars
  {
    && (status == CannotExec ==> exists i, w: seq<Word> :: |w| <= initialArgc + 2 && !b.accepts(i, w))
    && (status == ListTooLong ==> b.ctl.exitIfSizeExceeded || b.ctl.replacePat.Some?)
    && (status == CannotFit ==> b.initialChars == b.ctl.argMax) && status != CommandTooLong
  }

  lemma LongerConcat(a: seq<seq<string>>, b: seq<seq<string>>, k: nat)
    requires AllLonger(a, k) && AllLonger(b, k)
    ensures AllLonger(a + b, k)
  {
  }

  lemma WholePush(toks: seq<Token>, tok: Token)
    ensures Whole(toks + [tok]) <==> Whole(toks) && tok.len == |tok.text| + 1
  {
    assert (toks + [tok])[|toks|] == tok;
    assert forall i :: 0 <= i < |toks| ==> (toks + [tok])[i] == toks[i];
  }

  // bc_push_arg on an argument, which leaves the commands tight.
  method PushToken(b: Builder, tok: Token, ghost initial: seq<string>, ghost toks: seq<Token>, ghost news: seq<seq<string>>)
      returns (status: Status, ghost more: seq<seq<string>>)
    requires b.Valid() && b.AtRest() && b.InitialArgs() == initial && Tight(b, initial, toks, news)
    requires tok.len > |tok.text| && (b.initialChars + tok.len <= b.ctl.argMax || tok.len == 1)
    modifies b
    ensures b.initialChars == old(b.initialChars) && Expected(b, status, |initial|)
    ensures status == Done ==> b.Valid() && b.AtRest() && b.InitialArgs() == initial && Tight(b, initial, toks + [tok], news + more)
    ensures status == Done ==> b.commands == old(b.commands) + more && AllPrefixed(more, initial) && AllWithin(more, b.ctl, |initial|)
    ensures status == Done ==> Blocks(more, |initial|) + b.Pending() == old(b.Pending()) + [tok.text]
  {
    hide Blocks, AllPrefixed, AllWithin, AllLonger, Packing, Batch, Whole, Builder.AllAccepted, Chars;
    WholePush(toks, tok);
    ghost var held := b.Pending();
    status, more := b.PushArg(tok.text, tok.len, None, false);
    if status == Done {
      assert "" + tok.text == tok.text;
      LongerConcat(news, more, |initial|);
      if Accepting(b, initial) && Whole(toks + [tok]) {
        BatchPacks(news, more, initial, held, tok.text, b.Pending(), b.ctl);
      }
    }
  }

  // bc_push_arg on linebuf.
  method PushLine(b: Builder, buf: string, ghost before: seq<seq<string>>, ghost pending: seq<string>,
                  ghost initial: seq<string>, ghost toks: seq<Token>, ghost news: seq<seq<string>>)
      returns (status: Status, ghost news': seq<seq<string>>)
    requires Fed(b, before, pending, initial, toks, news)
    requires b.initialChars + |buf| + 1 <= b.ctl.argMax || buf == ""
    modifies b
    ensures b.initialChars == old(b.initialChars)
    ensures status == Done ==> Fed(b, before, pending, initial, toks + [TokenOf(buf)], news')
    ensures Expected(b, status, |initial|)
  {
    hide Blocks, AllPrefixed, AllWithin, TextsOf, CString, Tight;
    var tok := TokenOf(buf);
    ghost var more, held := [], b.Pending();
    status, more := PushToken(b, tok, initial, toks, news);
    news' := news + more;
    if status == Done {
      assert "" + tok.text == tok.text;
      BlocksConcat(news, more, |initial|);
      BothConcat(news, more, b.ctl, initial);
      Assoc(before, news, more);
      Assoc(Blocks(news, |initial|), Blocks(more, |initial|), b.Pending());
      Assoc(Blocks(news, |initial|), held, [tok.text]);
      Assoc(pending, TextsOf(toks), [tok.text]);
      TextsOfPush(toks, tok);
    }
  }

  // With ReadAndRun's contract: commands built from an input carry exactly what its words stand for.
  lemma WrittenArguments(cfg: Config, lines: seq<seq<Item>>, end: string)
    requires forall i :: 0 <= i < |lines| ==>
      lines[i] != [] && GoodItems(cfg, lines[i], false) && NoneEof(cfg, lines[i])
    requires Spaces(end) && !cfg.replace && forall i :: 0 <= i < |AllMeanings(lines)| ==> '\0' !in AllMeanings(lines)[i]
    ensures TextsOf(Tokens(cfg, InputText(lines, end)).0) == AllMeanings(lines)
  {
    hide GoodItems, NoneEof, InputText, Tokens, AllMeanings;
    InputRoundTrip(cfg, lines, end);
    TokensOfAt(AllMeanings(lines));
  }

  // The same for a quoted line: commands built from a quoted line carry exactly the arguments that were quoted.
  lemma QuotedArguments(cfg: Config, args: seq<string>, sep: string)
    requires args != [] && Spaces(sep) && sep != "" && IsBlank(sep[0]) && !cfg.replace
    requires forall i :: 0 <= i < |args| ==> |args[i]| <= cfg.room && '\0' !in args[i] && !IsEofStr(cfg, args[i])
    ensures TextsOf(Tokens(cfg, QuotedLine(args, sep)).0) == args
  {
    QuotingRoundTrip(cfg, args, sep);
    TokensOfAt(args);
  }

  // ----- What -L groups together -----

  // What calls of read_line push, and how many lines they count.
  function Pushed(calls: seq<Line>): seq<Token>
  {
    if calls == [] then [] else Pushed(calls[..|calls| - 1]) + calls[|calls| - 1].pushed
  }

  function Counted(calls: seq<Line>): nat
  {
    if calls == [] then 0 else Counted(calls[..|calls| - 1]) + calls[|calls| - 1].lines
  }

  lemma CallsPush(calls: seq<Line>, line: Line)
    ensures Pushed(calls + [line]) == Pushed(calls) + line.pushed && Counted(calls + [line]) == Counted(calls) + line.lines
  {
    assert (calls + [line])[..|calls|] == calls;
  }

  // The calls of read_line on an input, divided where lines of them have been counted; cur is the group begun.
  function Groups(cfg: Config, s: string, lines: nat, cur: seq<Line>): seq<seq<Line>>
    decreases |s|
  {
    var line := ReadLine(cfg, s);
    var group := cur + [line];
    if !line.result.Length? then [group]
    else if lines != 0 && Counted(group) >= lines then
      [group] + if line.eof then [[]] else Groups(cfg, line.rest, lines, [])
    else if line.eof then [group]
    else Groups(cfg, line.rest, lines, group)
  }

  lemma GroupsIs(cfg: Config, s: string, lines: nat, cur: seq<Line>)
    ensures
      var line := ReadLine(cfg, s);
      var group := cur + [line];
      Groups(cfg, s, lines, cur) ==
        if !line.result.Length? then [group]
        else if lines != 0 && Counted(group) >= lines then
          [group] + if line.eof then [[]] else Groups(cfg, line.rest, lines, [])
        else if line.eof then [group]
        else Groups(cfg, line.rest, lines, group)
  {
  }

  lemma CountedNothing()
    ensures Counted([]) == 0
  {
  }

  // A group counts fewer than that many lines before its last call, and every group but the last as many at least.
  lemma {:induction false} GroupsBounded(cfg: Config, s: string, lines: nat, cur: seq<Line>)
    requires lines > 0 && Counted(cur) < lines
    ensures forall g :: g in Groups(cfg, s, lines, cur) && g != [] ==> Counted(g[..|g| - 1]) < lines
    ensures forall i :: 0 <= i < |Groups(cfg, s, lines, cur)| - 1 ==> Counted(Groups(cfg, s, lines, cur)[i]) >= lines
    decreases |s|
  {
    hide ReadLine, Groups, Counted;
    TokensIs(cfg, s);
    GroupsIs(cfg, s, lines, cur);
    CountedNothing();
    var line := ReadLine(cfg, s);
    var group := cur + [line];
    assert group[..|group| - 1] == cur;
    if line.result.Length? && !line.eof {
      if Counted(group) >= lines {
        GroupsBounded(cfg, line.rest, lines, []);
        var rest := Groups(cfg, line.rest, lines, []);
        assert Groups(cfg, s, lines, cur) == [group] + rest;
      } else {
        GroupsBounded(cfg, line.rest, lines, group);
      }
    }
  }

  lemma NothingPushed()
    ensures Pushed([]) == [] && TextsOf([]) == []
  {
  }

  lemma KeptLength(spent: seq<seq<string>>, kept: seq<string>, initial: seq<string>)
    requires Blocks(spent, 0) + kept == initial
    ensures |kept| <= |initial| && (spent == [] ==> kept == initial)
  {
  }

  // What the calls of all groups push.
  function PushedAll(groups: seq<seq<Line>>): seq<Token>
  {
    if groups == [] then [] else Pushed(groups[0]) + PushedAll(groups[1..])
  }

  // Grouping loses no argument.
  lemma {:induction false} GroupsTokens(cfg: Config, s: string, lines: nat, cur: seq<Line>)
    ensures PushedAll(Groups(cfg, s, lines, cur)) == Pushed(cur) + Tokens(cfg, s).0
    decreases |s|
  {
    hide ReadLine, Tokens;
    TokensIs(cfg, s);
    GroupsIs(cfg, s, lines, cur);
    var line := ReadLine(cfg, s);
    var group := cur + [line];
    CallsPush(cur, line);
    hide Groups;
    if !line.result.Length? || (line.eof && !(lines != 0 && Counted(group) >= lines)) {
      PushedOne(group);
    } else if lines != 0 && Counted(group) >= lines {
      var rest := if line.eof then [[]] else Groups(cfg, line.rest, lines, []);
      assert ([group] + rest)[1..] == rest;
      if line.eof {
        PushedOne([]);
      } else {
        GroupsTokens(cfg, line.rest, lines, []);
        Assoc(Pushed(cur), line.pushed, Tokens(cfg, line.rest).0);
      }
    } else {
      GroupsTokens(cfg, line.rest, lines, group);
      Assoc(Pushed(cur), line.pushed, Tokens(cfg, line.rest).0);
    }
  }

  lemma {:induction false} PushedLast(groups: seq<seq<Line>>, group: seq<Line>)
    ensures PushedAll(groups + [group]) == PushedAll(groups) + Pushed(group)
  {
    hide Pushed;
    if groups == [] {
      assert [] + [group] == [group];
      PushedOne(group);
    } else {
      assert (groups + [group])[1..] == groups[1..] + [group];
      PushedLast(groups[1..], group);
      Assoc(Pushed(groups[0]), PushedAll(groups[1..]), Pushed(group));
    }
  }

  lemma PushedOne(group: seq<Line>)
    ensures PushedAll([group]) == Pushed(group)
  {
    assert [group][1..] == [];
  }

  // The commands that carry the arguments of one group of lines: only the last of them may have none of its own; and if
  // packed, each but the last had no room for the next argument.
  ghost predicate Carries(cs: seq<seq<string>>, group: seq<Line>, ctl: Control, k: nat, accepting: bool)
  {
    && Blocks(cs, k) == TextsOf(Pushed(group))
    && (forall i :: 0 <= i < |cs| - 1 ==> |cs[i]| > k)
    && (accepting && Whole(Pushed(group)) ==> Packed(cs, ctl, k))
  }

  // The commands can be divided so that each part carries the arguments of one group.
  ghost predicate Grouped(cs: seq<seq<string>>, groups: seq<seq<Line>>, ctl: Control, k: nat, accepting: bool)
    decreases |groups|
  {
    if groups == [] then cs == []
    else exists n :: 0 <= n <= |cs| && Grouped(cs[n..], groups[1..], ctl, k, accepting)
                     && Carries(cs[..n], groups[0], ctl, k, accepting)
  }

  lemma {:induction false} GroupedPush(cs: seq<seq<string>>, groups: seq<seq<Line>>, news: seq<seq<string>>,
                                           g: seq<Line>, ctl: Control, k: nat, accepting: bool)
    requires Grouped(cs, groups, ctl, k, accepting) && Carries(news, g, ctl, k, accepting)
    ensures Grouped(cs + news, groups + [g], ctl, k, accepting)
    decreases |groups|
  {
    hide Carries;
    var all, gs := cs + news, groups + [g];
    if groups == [] {
      var n := |all|;
      assert all[n..] == [] && gs[1..] == [] && all[..n] == news;
      assert Grouped(all[n..], gs[1..], ctl, k, accepting) && Carries(all[..n], gs[0], ctl, k, accepting);
    } else {
      var n :| 0 <= n <= |cs| && Grouped(cs[n..], groups[1..], ctl, k, accepting)
               && Carries(cs[..n], groups[0], ctl, k, accepting);
      GroupedPush(cs[n..], groups[1..], news, g, ctl, k, accepting);
      assert all[n..] == cs[n..] + news && gs[1..] == groups[1..] + [g] && all[..n] == cs[..n] && gs[0] == groups[0];
      assert Grouped(all[n..], gs[1..], ctl, k, accepting) && Carries(all[..n], gs[0], ctl, k, accepting);
    }
  }

  lemma {:induction false} TextsOfConcat(a: seq<Token>, b: seq<Token>)
    ensures TextsOf(a + b) == TextsOf(a) + TextsOf(b)
  {
  }

  lemma CarriesBlocks(cs: seq<seq<string>>, group: seq<Line>, ctl: Control, k: nat, accepting: bool)
    requires Carries(cs, group, ctl, k, accepting)
    ensures Blocks(cs, k) == TextsOf(Pushed(group))
  {
    hide Blocks, TextsOf, Pushed, Packed, Whole;
  }

  lemma EmptyBlocks(k: nat)
    ensures Blocks([], k) == []
  {
  }

  // Together the commands carry the arguments of all groups.
  lemma {:induction false} GroupedBlocks(cs: seq<seq<string>>, groups: seq<seq<Line>>, ctl: Control, k: nat, accepting: bool)
    requires Grouped(cs, groups, ctl, k, accepting)
    ensures Blocks(cs, k) == TextsOf(PushedAll(groups))
    decreases |groups|
  {
    hide TextsOf, Pushed, Carries, Blocks;
    if groups == [] {
      NothingPushed();
      EmptyBlocks(k);
    } else {
      var n :| 0 <= n <= |cs| && Grouped(cs[n..], groups[1..], ctl, k, accepting)
               && Carries(cs[..n], groups[0], ctl, k, accepting);
      GroupedBlocks(cs[n..], groups[1..], ctl, k, accepting);
      CarriesBlocks(cs[..n], groups[0], ctl, k, accepting);
      BlocksConcat(cs[..n], cs[n..], k);
      assert cs[..n] + cs[n..] == cs;
      TextsOfConcat(Pushed(groups[0]), PushedAll(groups[1..]));
    }
  }

  predicate Clean(line: Line) { Whole(line.pushed) && '\0' !in line.rest }

  lemma CleanPush(line: Line, buf: string)
    requires Clean(line) && '\0' !in buf
    ensures Clean(line.(pushed := [TokenOf(buf)] + line.pushed))
  {
    WholeToken(buf);
  }

  lemma CharClean(cfg: Config, c: char, t: string, st: State, prev: Option<char>, buf: string, first: bool, seen: bool)
    requires '\0' !in t && '\0' !in buf
    requires Clean(Scan(cfg, t, Space, Some(c), buf, first, seen)) && Clean(Scan(cfg, t, Space, Some(c), "", false, true))
    requires Clean(Scan(cfg, t, Norm, Some(c), buf, first, true)) && Clean(Scan(cfg, t, Backslash, Some(c), buf, first, true))
    requires Clean(Scan(cfg, t, Quote(c), Some(c), buf, first, true)) && Clean(Scan(cfg, t, st, Some(c), buf + [c], first, seen))
    requires Clean(Scan(cfg, t, Norm, Some(c), buf + [c], first, seen))
    requires Clean(Scan(cfg, t, Norm, Some(c), buf + [c], first, true))
    ensures Clean(ScanChar(cfg, c, t, st, prev, buf, first, seen))
  {
    hide Scan, TokenOf, IsEofStr, IsSpace, IsBlank, Whole;
    WholeToken(buf);
    NothingWhole();
    CleanPush(Scan(cfg, t, Space, Some(c), "", false, true), buf);
  }

  // From an input without a NUL no argument is cut short.
  lemma {:induction false} ScanClean(cfg: Config, s: string, st: State, prev: Option<char>, buf: string, first: bool, seen: bool)
    requires '\0' !in s && '\0' !in buf
    ensures Clean(Scan(cfg, s, st, prev, buf, first, seen))
    decreases |s|
  {
    hide Scan, ScanChar, TokenOf, IsEofStr, Clean;
    ScanIs(cfg, s, st, prev, buf, first, seen);
    if s != "" {
      var c, t := s[0], s[1..];
      assert c != '\0' && '\0' !in t && '\0' !in buf + [c];
      ScanClean(cfg, t, Space, Some(c), buf, first, seen);
      ScanClean(cfg, t, Space, Some(c), "", false, true);
      ScanClean(cfg, t, Norm, Some(c), buf, first, true);
      ScanClean(cfg, t, Backslash, Some(c), buf, first, true);
      ScanClean(cfg, t, Quote(c), Some(c), buf, first, true);
      ScanClean(cfg, t, st, Some(c), buf + [c], first, seen);
      ScanClean(cfg, t, Norm, Some(c), buf + [c], first, seen);
      ScanClean(cfg, t, Norm, Some(c), buf + [c], first, true);
      CharClean(cfg, c, t, st, prev, buf, first, seen);
    } else {
      EndClean(cfg, st, buf, first);
    }
  }

  lemma EndClean(cfg: Config, st: State, buf: string, first: bool)
    requires '\0' !in buf
    ensures Clean(AtEnd(cfg, st, buf, first))
  {
    WholeToken(buf);
  }

  lemma WholeToken(buf: string)
    requires '\0' !in buf
    ensures Whole([TokenOf(buf)])
  {
  }

  lemma {:induction false} GroupsWhole(cfg: Config, s: string, lines: nat, cur: seq<Line>)
    requires '\0' !in s && Whole(Pushed(cur))
    ensures forall g :: g in Groups(cfg, s, lines, cur) ==> Whole(Pushed(g))
    decreases |s|
  {
    hide ReadLine, Groups, Whole, Pushed;
    TokensIs(cfg, s);
    GroupsIs(cfg, s, lines, cur);
    LineWhole(cfg, s, cur);
    var line := ReadLine(cfg, s);
    if line.result.Length? && !line.eof {
      GroupsWhole(cfg, line.rest, lines, []);
      GroupsWhole(cfg, line.rest, lines, cur + [line]);
    }
  }

  lemma NothingWhole()
    ensures Whole(Pushed([])) && Whole([])
  {
  }

  lemma LineWhole(cfg: Config, s: string, cur: seq<Line>)
    requires '\0' !in s && Whole(Pushed(cur))
    ensures var line := ReadLine(cfg, s); Whole(Pushed(cur + [line])) && '\0' !in line.rest
    ensures Whole(Pushed([]))
  {
    ScanClean(cfg, s, Space, None, "", true, false);
    CallsPush(cur, ReadLine(cfg, s));
  }

  lemma CharsOne(arg: string)
    ensures Chars([arg]) == |arg| + 1
  {
  }

  lemma CharsPrefix(args: seq<string>, n: nat)
    requires n <= |args|
    ensures Chars(args[..n]) <= Chars(args) && Chars(args[..0]) == 0
  {
    assert args == args[..n] + args[n..];
    CharsConcat(args[..n], args[n..]);
  }

  class Xargs {
    const b: Builder
    const eofStr: Option<string>
    const alwaysRun: bool

    // The unread input, and read_line's static flag.
    var input: string
    var eof: bool
    var lineno: nat

    constructor (b: Builder, eofStr: Option<string>, alwaysRun: bool, input: string)
      ensures this.b == b && this.eofStr == eofStr && this.alwaysRun == alwaysRun
      ensures this.input == input && !eof && lineno == 0
    {
      this.b, this.eofStr, this.alwaysRun, this.input := b, eofStr, alwaysRun, input;
      eof, lineno := false, 0;
    }

    // The limits of read_line while the builder has its initial arguments.
    function Cfg(): Config
      reads b`initialChars
    {
      Config(eofStr, false, b.ctl.argMax - b.initialChars - 1)
    }

    method GetC() returns (c: Option<char>)
      modifies `input
      ensures old(input) == "" ==> c == None && input == ""
      ensures old(input) != "" ==> c == Some(old(input)[0]) && input == old(input)[1..]
    {
      if input == "" { return None; }
      c := Some(input[0]);
      input := input[1..];
    }

    // bc_do_exec between two lines, or at the end.
    method FlushLines(ghost before: seq<seq<string>>, ghost pending: seq<string>, ghost initial: seq<string>,
                      ghost toks: seq<Token>, ghost news: seq<seq<string>>)
        returns (status: Status, ghost news': seq<seq<string>>)
      requires Fed(b, before, pending, initial, toks, news)
      modifies b
      ensures b.initialChars == old(b.initialChars) && Expected(b, status, |initial|)
      ensures status == Done ==> Delivered(b, before, pending, initial, toks, news') && b.Pending() == [] && news' != []
      ensures status == Done ==> forall i :: 0 <= i < |news'| - 1 ==> |news'[i]| > |initial|
      ensures status == Done && old(b.Pending()) != [] ==> AllLonger(news', |initial|)
      ensures status == Done && old(b.Pending()) == [] ==> news' == news + [initial]
      ensures status == Done && Accepting(b, initial) && Whole(toks) ==> Packed(news', b.ctl, |initial|)
    {
      hide Blocks, AllPrefixed, AllWithin, TextsOf, Whole, Packing, Packed, Builder.AllAccepted, Chars;
      ghost var more, held := [], b.Pending();
      status, more := b.Flush();
      news' := news + more;
      if status == Done {
        BlocksConcat(news, more, |initial|);
        BothConcat(news, more, b.ctl, initial);
        Assoc(before, news, more);
        assert Blocks(news', |initial|) + [] == Blocks(news', |initial|);
        assert initial + [] == initial;
        if Accepting(b, initial) && Whole(toks) { PackedRun(news, initial, held, b.ctl); }
      }
    }

    // exec_if_possible, before the program gives up.
    method ExecIfPossible(ghost before: seq<seq<string>>, ghost pending: seq<string>, ghost initial: seq<string>,
                          ghost toks: seq<Token>, ghost news: seq<seq<string>>)
        returns (status: Status, ghost news': seq<seq<string>>)
      requires Fed(b, before, pending, initial, toks, news)
      modifies b
      ensures b.initialChars == old(b.initialChars) && Expected(b, status, |initial|)
      ensures status == Done ==> GaveUp(b, before, pending, initial, toks, news')
    {
      hide Blocks, AllPrefixed, AllWithin, TextsOf, Tight, Whole, Packing, Packed, AllLonger, Accepting;
      status, news' := Done, news;
      b.Counts();
      if |b.cmdArgv| != b.initialArgc && !b.ctl.exitIfSizeExceeded {
        status, news' := FlushLines(before, pending, initial, toks, news);
      }
    }

    // read_line at the end of the input.
    method ReadEnd(st: State, buf: string, first: bool, ghost before: seq<seq<string>>, ghost pending: seq<string>,
                   ghost initial: seq<string>, ghost toks0: seq<Token>, ghost news0: seq<seq<string>>)
        returns (result: Result, status: Status, ghost toks: seq<Token>, ghost news: seq<seq<string>>)
      requires Fed(b, before, pending, initial, toks0, news0) && |buf| <= Max(Cfg().room, 0) && input == ""
      modifies `eof, b
      ensures b.initialChars == old(b.initialChars) && Expected(b, status, |initial|)
      ensures status == Done ==> Finished(AtEnd(Cfg(), st, buf, first), result, lineno, toks0, toks)
      ensures status == Done ==>
        if result.Length? || result.EndOfInput? then Fed(b, before, pending, initial, toks, news)
        else GaveUp(b, before, pending, initial, toks, news)
    {
      hide TokenOf, Fed, GaveUp, IsEofStr, CString;
      eof := true;
      toks, news, result, status := toks0, news0, EndOfInput, Done;
      if buf == "" { return; }
      if st.Quote? {
        result := Unmatched;
        status, news := ExecIfPossible(before, pending, initial, toks, news);
        return;
      }
      if first && IsEofStr(Cfg(), buf) { return; }
      status, news := PushLine(b, buf, before, pending, initial, toks, news);
      toks := toks + [TokenOf(buf)];
      result := Length(|buf| + 1);
    }

    // read_line at the newline that ends a nonblank line.
    method ReadNewline(buf: string, first: bool, ghost n: nat, ghost before: seq<seq<string>>, ghost pending: seq<string>,
                       ghost initial: seq<string>, ghost toks0: seq<Token>, ghost news0: seq<seq<string>>)
        returns (result: Result, status: Status, ghost toks: seq<Token>, ghost news: seq<seq<string>>)
      requires !eof && Fed(b, before, pending, initial, toks0, news0) && |buf| <= Max(Cfg().room, 0) && n <= lineno
      modifies `eof, b
      ensures b.initialChars == old(b.initialChars) && Expected(b, status, |initial|)
      ensures result.Length? || result.EndOfInput?
      ensures status == Done ==> Finished(AtNewline(Cfg(), input, buf, first, n), result, lineno - n, toks0, toks)
      ensures status == Done ==> Fed(b, before, pending, initial, toks, news)
    {
      hide TokenOf, Fed, IsEofStr, CString;
      toks, news, result, status := toks0, news0, Length(|buf| + 1), Done;
      if IsEofStr(Cfg(), buf) {
        eof := true;
        if first { result := EndOfInput; }
        return;
      }
      status, news := PushLine(b, buf, before, pending, initial, toks, news);
      toks := toks + [TokenOf(buf)];
    }

    // read_line at the blank that ends an argument; it goes on unless stop.
    method ReadBlank(buf: string, first: bool, ghost before: seq<seq<string>>, ghost pending: seq<string>,
                     ghost initial: seq<string>, ghost toks0: seq<Token>, ghost news0: seq<seq<string>>)
        returns (stop: bool, result: Result, status: Status, ghost toks: seq<Token>, ghost news: seq<seq<string>>)
      requires !eof && Fed(b, before, pending, initial, toks0, news0) && |buf| <= Max(Cfg().room, 0)
      modifies `eof, b
      ensures result.Length? || result.EndOfInput?
      ensures b.initialChars == old(b.initialChars) && Expected(b, status, |initial|)
      ensures status == Done ==> Fed(b, before, pending, initial, toks, news)
      ensures stop && status == Done ==>
        IsEofStr(Cfg(), buf) && Finished(Line([], if first then EndOfInput else Length(|buf| + 1), input, 0, true), result, lineno, toks0, toks)
      ensures !stop ==> status == Done && !eof && !IsEofStr(Cfg(), buf) && toks == toks0 + [TokenOf(buf)]
    {
      hide TokenOf, Fed, IsEofStr, CString;
      toks, news, status := toks0, news0, Done;
      result := if first then EndOfInput else Length(|buf| + 1);
      if IsEofStr(Cfg(), buf) {
        eof, stop := true, true;
        return;
      }
      status, news := PushLine(b, buf, before, pending, initial, toks, news);
      toks := toks + [TokenOf(buf)];
      stop := status != Done;
    }

    // read_line on one character; it goes on unless stop. whole is what the call does in all.
    method ReadChar(ch: char, prev: Option<char>, st0: State, buf0: string, first0: bool, seen0: bool,
                    ghost whole: Line, ghost lines: nat, ghost before: seq<seq<string>>, ghost pending: seq<string>,
                    ghost initial: seq<string>, ghost start: seq<Token>, ghost toks0: seq<Token>, ghost news0: seq<seq<string>>)
        returns (stop: bool, result: Result, status: Status, st: State, buf: string, first: bool, seen: bool,
                 ghost toks: seq<Token>, ghost news: seq<seq<string>>)
      requires !eof && Fed(b, before, pending, initial, toks0, news0) && |buf0| <= Max(Cfg().room, 0)
      requires Owed(whole, lines, start, ScanChar(Cfg(), ch, input, st0, prev, buf0, first0, seen0), toks0)
      modifies `eof, `lineno, b
      ensures b.initialChars == old(b.initialChars) && Expected(b, status, |initial|)
      ensures stop && status == Done ==> Finished(whole, result, lines, start, toks)
      ensures status == Done ==>
        if !stop || result.Length? || result.EndOfInput? then Fed(b, before, pending, initial, toks, news)
        else GaveUp(b, before, pending, initial, toks, news)
      ensures !stop ==> status == Done && !eof && |buf| <= Max(Cfg().room, 0)
      ensures !stop ==> Owed(whole, lines, start, Scan(Cfg(), input, st, Some(ch), buf, first, seen), toks)
    {
      hide Scan, TokenOf, Fed, GaveUp, IsEofStr, CString, AtNewline;
      stop, result, status, toks, news := false, EndOfInput, Done, toks0, news0;
      st, buf, first, seen := st0, buf0, first0, seen0;
      if st.Space? && IsSpace(ch) { return; }
      if st.Space? { st := Norm; }
      if st.Norm? {
        if ch == '\n' {
          ghost var n := if prev.Some? && IsBlank(prev.value) then 0 else 1;
          if !(prev.Some? && IsBlank(prev.value)) {
            lineno := lineno + 1;
          }
          if buf == "" && !seen {
            st := Space;
            return;
          }
          stop := true;
          result, status, toks, news := ReadNewline(buf, first, n, before, pending, initial, toks, news);
          return;
        }
        seen := true;
        if IsBlank(ch) {
          stop, result, status, toks, news := ReadBlank(buf, first, before, pending, initial, toks, news);
          buf, st, first := "", Space, false;
          return;
        }
        if ch == '\\' {
          st := Backslash;
          return;
        }
        if ch == '\'' || ch == '"' {
          st := Quote(ch);
          return;
        }
      } else if st.Quote? {
        if ch == '\n' {
          stop, result := true, Unmatched;
          status, news := ExecIfPossible(before, pending, initial, toks, news);
          return;
        }
        if ch == st.mark {
          st, seen := Norm, true;
          return;
        }
      } else {
        st := Norm;
      }
      if |buf| >= Cfg().room {
        stop, result := true, TooLong;
        status, news := ExecIfPossible(before, pending, initial, toks, news);
        return;
      }
      buf := buf + [ch];
    }

    // read_line without -i: what it pushes and leaves unread is what ReadLine says.
    method Read(ghost before: seq<seq<string>>, ghost pending: seq<string>, ghost initial: seq<string>,
                ghost toks0: seq<Token>, ghost news0: seq<seq<string>>)
        returns (result: Result, status: Status, ghost toks: seq<Token>, ghost news: seq<seq<string>>)
      requires !eof && b.ctl.replacePat.None? && Fed(b, before, pending, initial, toks0, news0)
      modifies this, b
      ensures b.initialChars == old(b.initialChars)
      ensures Expected(b, status, |initial|)
      ensures status == Done ==> Finished(ReadLine(Cfg(), old(input)), result, old(lineno), toks0, toks)
      ensures status == Done ==>
        if result.Length? || result.EndOfInput? then Fed(b, before, pending, initial, toks, news)
        else GaveUp(b, before, pending, initial, toks, news)
    {
      hide Scan, ScanChar, TokenOf, Fed, GaveUp, IsEofStr, CString, AtEnd;
      status, toks, news := Done, toks0, news0;
      var st: State, c: Option<char> := Space, None;
      var first, seen, buf := true, false, "";
      ghost var whole := ReadLine(Cfg(), input);
      assert toks0 + [] == toks0;
      while true
        invariant !eof && b.initialChars == old(b.initialChars) && status == Done
        invariant Fed(b, before, pending, initial, toks, news) && |buf| <= Max(Cfg().room, 0)
        invariant Owed(whole, old(lineno), toks0, Scan(Cfg(), input, st, c, buf, first, seen), toks)
        decreases |input|
      {
        var prev := c;
        ScanIs(Cfg(), input, st, prev, buf, first, seen);
        c := GetC();
        if c == None {
          result, status, toks, news := ReadEnd(st, buf, first, before, pending, initial, toks, news);
          return;
        }
        var stop;
        stop, result, status, st, buf, first, seen, toks, news := ReadChar(c.value, prev, st, buf, first, seen,
          whole, old(lineno), before, pending, initial, toks0, toks, news);
        if stop { return; }
      }
    }

    // What the whole call does, as what it has done and what it would do from here on.
    ghost predicate Owed(whole: Line, lines: nat, toks0: seq<Token>, more: Line, toks: seq<Token>)
      reads `lineno
    {
      && whole.result == more.result && whole.rest == more.rest && whole.eof == more.eof
      && lines + whole.lines == lineno + more.lines && toks0 + whole.pushed == toks + more.pushed
    }

    // The first n of the command and its fixed arguments have been pushed. Only max_arg_count of them make a command of
    // their own, which no kernel lets happen.
    ghost predicate Started(initial: seq<string>, n: nat)
      reads b
    {
      && n <= |initial| && b.Valid() && b.initialArgc == 0 && |b.cmdArgv| < b.ctl.maxArgCount
      && Blocks(b.commands, 0) + Texts(b.cmdArgv) == initial[..n]
      && b.initialChars == b.argvChars <= b.ctl.argMax
      && (n < b.ctl.maxArgCount ==> b.commands == [] && |b.cmdArgv| == n && b.argvChars == Chars(initial[..n]))
    }

    method PushOne(initial: seq<string>, n: nat) returns (status: Status)
      requires Started(initial, n) && n < |initial|
      modifies b
      ensures status == Done || status == CannotFit || status == CannotExec
      ensures status == CannotExec ==> exists i, w: seq<Word> :: |w| <= 2 && !b.accepts(i, w)
      ensures n + 1 < b.ctl.maxArgCount ==>
        status != CannotExec && (status == Done <==> Chars(initial[..n + 1]) <= b.ctl.argMax)
      ensures status == Done ==> Started(initial, n + 1)
    {
      hide Blocks, AllPrefixed, AllWithin, Chars, Texts;
      var arg := initial[n];
      ghost var args, so := Texts(b.cmdArgv), b.commands;
      assert initial[..n + 1] == initial[..n] + [arg];
      CharsConcat(initial[..n], [arg]);
      CharsOne(arg);
      ghost var news;
      status, news := b.PushArg(arg, |arg| + 1, None, true);
      if status == Done {
        NoBlocks(b.ctl, []);
        assert "" + arg == arg && args[..0] == [] && args[0..] == args;
        assert Texts(b.cmdArgv)[0..] == Texts(b.cmdArgv) && [] + Texts(b.cmdArgv) == Texts(b.cmdArgv);
        BlocksConcat(so, news, 0);
        Assoc(Blocks(so, 0), Blocks(news, 0), Texts(b.cmdArgv));
        Assoc(Blocks(so, 0), args, [arg]);
      }
    }

    // The command and its fixed arguments, which are kept behind what they may have filled already.
    method PushInitial(initial: seq<string>) returns (status: Status)
      requires b.Valid() && b.cmdArgv == [] && b.commands == [] && b.initialArgc == b.argvChars == b.initialChars == 0
      requires b.ctl.replacePat.None? && b.ctl.maxArgCount > 0
      modifies b
      ensures status == Done || status == CannotFit || status == CannotExec
      ensures status == CannotExec ==> exists i, w: seq<Word> :: |w| <= 2 && !b.accepts(i, w)
      ensures |initial| < b.ctl.maxArgCount ==> status != CannotExec && (status == Done <==> Chars(initial) <= b.ctl.argMax)
      ensures status == Done ==> b.Valid() && Blocks(b.commands, 0) + b.InitialArgs() == initial
      ensures status == Done ==> Fed(b, b.commands, [], b.InitialArgs(), [], []) && b.Pending() == []
      ensures status == Done && |initial| < b.ctl.maxArgCount ==> b.commands == [] && b.initialChars == Chars(initial)
    {
      hide Chars;
      var optind := 0;
      status := Done;
      CharsPrefix(initial, 0);
      while optind < |initial|
        invariant Started(initial, optind) && status == Done
      {
        CharsPrefix(initial, optind + 1);
        status := PushOne(initial, optind);
        if status != Done { return; }
        optind := optind + 1;
      }
      assert initial[..|initial|] == initial;
      ghost var args := Texts(b.cmdArgv);
      b.initialArgc := |b.cmdArgv|;
      b.initialChars := b.argvChars;
      assert args[..b.initialArgc] == args;
    }

    // The commands so far, after the ones before: cs for the groups that are done, and news for the group begun.
    ghost predicate Sorted(before: seq<seq<string>>, initial: seq<string>, cs: seq<seq<string>>, done: seq<seq<Line>>,
                           cur: seq<Line>, news: seq<seq<string>>)
      reads b
    {
      && Fed(b, before + cs, [], initial, Pushed(cur), news)
      && Grouped(cs, done, b.ctl, |initial|, Accepting(b, initial))
      && AllPrefixed(cs, initial) && AllWithin(cs, b.ctl, |initial|)
    }

    // The same when the program gives up in the middle of the group begun.
    ghost predicate Dropped(before: seq<seq<string>>, initial: seq<string>, cs: seq<seq<string>>, done: seq<seq<Line>>,
                            cur: seq<Line>, news: seq<seq<string>>)
      reads b
    {
      && GaveUp(b, before + cs, [], initial, Pushed(cur), news)
      && Grouped(cs, done, b.ctl, |initial|, Accepting(b, initial))
      && AllPrefixed(cs, initial) && AllWithin(cs, b.ctl, |initial|)
    }

    // The group begun is done once nothing of it is pending.
    lemma GroupDone(before: seq<seq<string>>, initial: seq<string>, cs: seq<seq<string>>, done: seq<seq<Line>>,
                    cur: seq<Line>, news: seq<seq<string>>)
      requires Delivered(b, before + cs, [], initial, Pushed(cur), news) && b.Pending() == []
      requires Grouped(cs, done, b.ctl, |initial|, Accepting(b, initial)) && AllPrefixed(cs, initial) && AllWithin(cs, b.ctl, |initial|)
      requires forall i :: 0 <= i < |news| - 1 ==> |news[i]| > |initial|
      requires Accepting(b, initial) && Whole(Pushed(cur)) ==> Packed(news, b.ctl, |initial|)
      ensures Sorted(before, initial, cs + news, done + [cur], [], [])
      ensures b.commands == before + (cs + news)
    {
      hide Blocks, AllPrefixed, AllWithin, TextsOf, Grouped, Pushed, Packed, Whole, Chars, Builder.AllAccepted;
      assert Blocks(news, |initial|) + [] == Blocks(news, |initial|) && [] + TextsOf(Pushed(cur)) == TextsOf(Pushed(cur));
      GroupedPush(cs, done, news, cur, b.ctl, |initial|, Accepting(b, initial));
      BothConcat(cs, news, b.ctl, initial);
      NoBlocks(b.ctl, initial);
      Assoc(before, cs, news);
      NothingPushed();
      NothingTight(initial);
      assert before + (cs + news) + [] == before + (cs + news);
    }

    // A group that has not begun.
    lemma NothingTight(initial: seq<string>)
      requires b.Valid() && b.AtRest() && b.InitialArgs() == initial && b.Pending() == []
      ensures Tight(b, initial, Pushed([]), [])
    {
      b.Counts();
      assert b.InitialArgs() + b.Pending() == Texts(b.cmdArgv);
      assert initial + [] == initial;
    }

    // The loop over the lines of the input.
    method ReadLines(ghost before: seq<seq<string>>, ghost initial: seq<string>)
        returns (result: Result, status: Status, ghost cs: seq<seq<string>>, ghost done: seq<seq<Line>>,
                 ghost cur: seq<Line>, ghost news: seq<seq<string>>)
      requires !eof && lineno == 0 && b.ctl.replacePat.None? && Fed(b, before, [], initial, [], [])
      modifies this, b
      ensures b.initialChars == old(b.initialChars) && Expected(b, status, |initial|)
      ensures status == Done ==> result == Tokens(Cfg(), old(input)).1
      ensures status == Done ==>
        && Groups(Cfg(), old(input), b.ctl.linesPerExec, []) == done + [cur]
        && if result == EndOfInput then Sorted(before, initial, cs, done, cur, news)
           else Dropped(before, initial, cs, done, cur, news)
      ensures b.ctl.linesPerExec == 0 ==> cs == []
    {
      hide Fed, Scan, ReadLine, Tokens, Groups, Sorted, Dropped;
      result, status := EndOfInput, Done;
      cs, done, cur, news := [], [], [], [];
      ghost var cfg, all, end := Cfg(), Groups(Cfg(), input, b.ctl.linesPerExec, []), Tokens(Cfg(), input).1;
      SortedStart(before, initial);
      assert [] + all == all;
      while true
        invariant status == Done && result == EndOfInput && cfg == Cfg() && lineno == Counted(cur)
        invariant Sorted(before, initial, cs, done, cur, news) && (b.ctl.linesPerExec == 0 ==> cs == [])
        invariant if eof then all == done + [cur] && end == EndOfInput
                  else all == done + Groups(cfg, input, b.ctl.linesPerExec, cur) && end == Tokens(cfg, input).1
        decreases !eof, |input|
      {
        if eof { return; }
        ghost var line := ReadLine(cfg, input);
        TokensIs(cfg, input);
        GroupsIs(cfg, input, b.ctl.linesPerExec, cur);
        CallsPush(cur, line);
        result, status, news := ReadOne(before, initial, cs, done, cur, news);
        cur := cur + [line];
        if status != Done || !result.Length? { return; }
        result := EndOfInput;
        if b.ctl.linesPerExec != 0 && lineno >= b.ctl.linesPerExec {
          Assoc(done, [cur], if line.eof then [[]] else Groups(cfg, line.rest, b.ctl.linesPerExec, []));
          status, cs, done, news := EndGroup(before, initial, cs, done, cur, news);
          cur := [];
          if status != Done { return; }
          lineno := 0;
        }
      }
    }

    lemma SortedStart(before: seq<seq<string>>, initial: seq<string>)
      requires Fed(b, before, [], initial, [], [])
      ensures Sorted(before, initial, [], [], [], [])
    {
      NoBlocks(b.ctl, initial);
      assert before + [] == before;
    }

    // One call of read_line, which adds to the group begun.
    method ReadOne(ghost before: seq<seq<string>>, ghost initial: seq<string>, ghost cs: seq<seq<string>>,
                   ghost done: seq<seq<Line>>, ghost cur: seq<Line>, ghost news: seq<seq<string>>)
        returns (result: Result, status: Status, ghost news': seq<seq<string>>)
      requires !eof && b.ctl.replacePat.None? && Sorted(before, initial, cs, done, cur, news) && lineno == Counted(cur)
      modifies this, b
      ensures b.initialChars == old(b.initialChars) && Expected(b, status, |initial|)
      ensures var line := ReadLine(Cfg(), old(input));
        && (status == Done ==> result == line.result && lineno == Counted(cur + [line]))
        && (status == Done && (result.Length? || result.EndOfInput?) ==>
              input == line.rest && eof == line.eof && Sorted(before, initial, cs, done, cur + [line], news'))
        && (status == Done && !(result.Length? || result.EndOfInput?) ==>
              Dropped(before, initial, cs, done, cur + [line], news'))
    {
      hide Fed, GaveUp, Scan, ReadLine, Grouped, AllPrefixed, AllWithin, Pushed, Counted;
      ghost var line := ReadLine(Cfg(), input);
      CallsPush(cur, line);
      ghost var toks;
      result, status, toks, news' := Read(before + cs, [], initial, Pushed(cur), news);
    }

    method EndGroup(ghost before: seq<seq<string>>, ghost initial: seq<string>, ghost cs: seq<seq<string>>,
                    ghost done: seq<seq<Line>>, ghost cur: seq<Line>, ghost news: seq<seq<string>>)
        returns (status: Status, ghost cs': seq<seq<string>>, ghost done': seq<seq<Line>>, ghost news': seq<seq<string>>)
      requires Sorted(before, initial, cs, done, cur, news)
      modifies b
      ensures b.initialChars == old(b.initialChars) && Expected(b, status, |initial|)
      ensures done' == done + [cur] && news' == []
      ensures status == Done ==> Sorted(before, initial, cs', done', [], []) && b.commands == before + cs' && cs' != []
      ensures status == Done && cs == [] && old(b.Pending()) != [] ==> AllLonger(cs', |initial|)
      ensures status == Done && cs == [] && news == [] && old(b.Pending()) == [] ==> cs' == [initial]
    {
      hide Fed, Delivered, Grouped, AllPrefixed, AllWithin, AllLonger, Pushed, Packed, Whole, Accepting;
      ghost var more;
      StillSorted(before, initial, cs, done, cur, news);
      status, more := FlushLines(before + cs, [], initial, Pushed(cur), news);
      cs', done', news' := cs + more, done + [cur], [];
      if status == Done { GroupDone(before, initial, cs, done, cur, more); }
      assert [] + more == more;
    }

    lemma StillSorted(before: seq<seq<string>>, initial: seq<string>, cs: seq<seq<string>>, done: seq<seq<Line>>,
                      cur: seq<Line>, news: seq<seq<string>>)
      requires Sorted(before, initial, cs, done, cur, news)
      ensures b.Valid()
    {
    }

    // The non-replace part of main. spent and kept are what became of the fixed arguments.
    method ReadAndRun(initial: seq<string>)
        returns (result: Result, status: Status, ghost spent: seq<seq<string>>, ghost kept: seq<string>)
      requires b.Valid() && b.cmdArgv == [] && b.commands == [] && b.initialArgc == b.argvChars == b.initialChars == 0
      requires !eof && lineno == 0 && b.ctl.replacePat.None? && b.ctl.maxArgCount > 0
      modifies this, b
      ensures status == CannotFit && |initial| < b.ctl.maxArgCount ==> Chars(initial) >= b.ctl.argMax
      ensures status == ListTooLong ==> b.ctl.exitIfSizeExceeded
      ensures status == CannotExec ==> exists i, w: seq<Word> :: |w| <= |initial| + 2 && !b.accepts(i, w)
      ensures status != CommandTooLong
      ensures status == Done ==> result == Tokens(Cfg(), old(input)).1
      ensures status == Done ==> Blocks(spent, 0) + kept == initial
      ensures status == Done && |initial| < b.ctl.maxArgCount ==>
        spent == [] && kept == initial && b.initialChars == Chars(initial)
      ensures status == Done && result == EndOfInput ==> Ran(spent, kept, old(input))
      ensures status == Done && result != EndOfInput ==> RanSome(spent, kept, old(input))
      ensures status == Done && result == EndOfInput && alwaysRun ==> b.commands != []
      ensures status == Done && result == EndOfInput && b.ctl.linesPerExec == 0 ==>
        AllLonger(b.commands[|spent|..], |kept|) || (alwaysRun && b.commands == [kept])
    {
      hide Blocks, Fed, Chars, Tokens, Groups, Sorted, Dropped, Ran, RanSome, AllLonger;
      spent, kept := [], [];
      status := PushInitial(initial);
      result := EndOfInput;
      if status != Done { return; }
      spent, kept := b.commands, b.InitialArgs();
      ghost var cs, done, cur, news;
      KeptLength(spent, kept, initial);
      result, status, cs, done, cur, news := ReadLines(spent, kept);
      if status == Done && result != EndOfInput { SomeRan(spent, kept, cs, done, cur, news, old(input)); }
      if status != Done || result != EndOfInput { return; }
      Remains(spent, kept, cs, done, cur, news);
      if |b.cmdArgv| != b.initialArgc || (alwaysRun && b.commands == []) {
        status, cs, done, news := EndGroup(spent, kept, cs, done, cur, news);
        if status != Done { return; }
      } else {
        NonePending(spent, kept, cs, done, cur, news);
        assert [] + news == news;
        cs, done := cs + news, done + [cur];
      }
      assert b.commands[|spent|..] == cs;
      AllRan(spent, kept, cs, done, old(input));
    }

    // What a whole run has done with the input, after the commands spent: every command is the fixed arguments and more,
    // within all limits; the further arguments are those of the input, each once and in order; no command has arguments
    // from two groups of lines; and of two neighbours in one group, if no NUL cuts an argument short and every command is
    // launched, the first had no room for the first argument of the second.
    ghost predicate Ran(spent: seq<seq<string>>, kept: seq<string>, s: string)
      reads b
    {
      && spent <= b.commands
      && var cs := b.commands[|spent|..];
      && AllPrefixed(cs, kept) && AllWithin(cs, b.ctl, |kept|)
      && Blocks(cs, |kept|) == TextsOf(Tokens(Cfg(), s).0)
      && Grouped(cs, Groups(Cfg(), s, b.ctl.linesPerExec, []), b.ctl, |kept|, Accepting(b, kept))
      && ('\0' !in s ==> forall g :: g in Groups(Cfg(), s, b.ctl.linesPerExec, []) ==> Whole(Pushed(g)))
    }

    // What has been done when the program gives up on its input: every argument before the error is in a command, or
    // pending if -x is given.
    ghost predicate RanSome(spent: seq<seq<string>>, kept: seq<string>, s: string)
      reads b
    {
      && b.Valid() && spent <= b.commands
      && var cs := b.commands[|spent|..];
      && AllPrefixed(cs, kept) && AllWithin(cs, b.ctl, |kept|)
      && Blocks(cs, |kept|) + b.Pending() == TextsOf(Tokens(Cfg(), s).0)
      && (b.ctl.exitIfSizeExceeded || b.Pending() == [])
    }

    lemma SomeRan(spent: seq<seq<string>>, kept: seq<string>, cs: seq<seq<string>>, done: seq<seq<Line>>, cur: seq<Line>,
                  news: seq<seq<string>>, s: string)
      requires Dropped(spent, kept, cs, done, cur, news)
      requires done + [cur] == Groups(Cfg(), s, b.ctl.linesPerExec, [])
      ensures RanSome(spent, kept, s)
    {
      hide Blocks, Tokens, Groups, TextsOf, Grouped, AllPrefixed, AllWithin, Whole, Accepting, Pushed;
      GroupedBlocks(cs, done, b.ctl, |kept|, Accepting(b, kept));
      GroupsTokens(Cfg(), s, b.ctl.linesPerExec, []);
      NothingPushed();
      PushedLast(done, cur);
      BlocksConcat(cs, news, |kept|);
      BothConcat(cs, news, b.ctl, kept);
      Assoc(spent, cs, news);
      assert b.commands[|spent|..] == cs + news;
      TextsOfConcat(PushedAll(done), Pushed(cur));
      Assoc(Blocks(cs, |kept|), Blocks(news, |kept|), b.Pending());
      assert [] + Tokens(Cfg(), s).0 == Tokens(Cfg(), s).0 && [] + TextsOf(Pushed(cur)) == TextsOf(Pushed(cur));
    }

    lemma AllRan(spent: seq<seq<string>>, kept: seq<string>, cs: seq<seq<string>>, done: seq<seq<Line>>, s: string)
      requires Sorted(spent, kept, cs, done, [], []) && b.commands == spent + cs
      requires done == Groups(Cfg(), s, b.ctl.linesPerExec, [])
      ensures Ran(spent, kept, s)
    {
      hide Blocks, Fed, Tokens, Groups, TextsOf, Grouped, AllPrefixed, AllWithin, Whole, Accepting;
      GroupedBlocks(cs, done, b.ctl, |kept|, Accepting(b, kept));
      if '\0' !in s {
        assert Whole(Pushed([])) by { NothingWhole(); }
        GroupsWhole(Cfg(), s, b.ctl.linesPerExec, []);
      }
      GroupsTokens(Cfg(), s, b.ctl.linesPerExec, []);
      NothingPushed();
      assert b.commands[|spent|..] == cs && [] + Tokens(Cfg(), s).0 == Tokens(Cfg(), s).0;
    }

    lemma Remains(before: seq<seq<string>>, initial: seq<string>, cs: seq<seq<string>>, done: seq<seq<Line>>,
                  cur: seq<Line>, news: seq<seq<string>>)
      requires Sorted(before, initial, cs, done, cur, news)
      ensures b.Valid() && (|b.cmdArgv| == b.initialArgc <==> b.Pending() == [])
      ensures b.commands == [] ==> before == [] && cs == [] && news == []
    {
      b.Counts();
    }

    // A group that ends with nothing pending.
    lemma NonePending(before: seq<seq<string>>, initial: seq<string>, cs: seq<seq<string>>, done: seq<seq<Line>>,
                      cur: seq<Line>, news: seq<seq<string>>)
      requires Sorted(before, initial, cs, done, cur, news) && |b.cmdArgv| == b.initialArgc
      ensures Sorted(before, initial, cs + news, done + [cur], [], []) && b.commands == before + (cs + news)
      ensures AllLonger(news, |initial|)
    {
      hide Blocks, AllPrefixed, AllWithin, TextsOf, Grouped, Pushed, Packed, Whole, Chars, Builder.AllAccepted;
      GroupDone(before, initial, cs, done, cur, news);
    }

    // How a call of read_line ended.
    ghost predicate Finished(line: Line, result: Result, lines: nat, toks0: seq<Token>, toks: seq<Token>)
      reads `input, `eof, `lineno
    {
      && result == line.result && lineno == lines + line.lines && toks == toks0 + line.pushed
      && (result.Length? || result.EndOfInput? ==> input == line.rest && eof == line.eof)
    }
  }
}
