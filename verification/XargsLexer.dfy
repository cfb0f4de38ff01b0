// read_line of xargs/xargs.c as a function of the input, and what quoting an argument does to it.
module XargsLexer {
  import opened Wrappers
  import opened BuildCmd

  // room is how many bytes fit in linebuf before endbuf: arg_max - cmd_initial_argv_chars - 1.
  datatype Config = Config(eofStr: Option<string>, replace: bool, room: int)

  datatype State = Norm | Space | Quote(mark: char) | Backslash

  // An argument handed to bc_push_arg: the C string in linebuf, and its length with the NUL.
  datatype Token = Token(text: string, len: nat)

  // What one call returns, or the error that ends the program.
  datatype Result = EndOfInput | Length(n: nat) | Unmatched | TooLong

  datatype Line = Line(pushed: seq<Token>, result: Result, rest: string, lines: nat, eof: bool)

  predicate IsBlank(c: char) { c == ' ' || c == '\t' }

  predicate IsSpace(c: char) { IsBlank(c) || c == '\n' || c == '\r' || c == '\U{000C}' || c == '\U{000B}' }

  function CString(s: string): (r: string)
    ensures |r| <= |s| && ('\0' !in s ==> r == s)
  {
    if s == "" || s[0] == '\0' then "" else [s[0]] + CString(s[1..])
  }

  predicate IsEofStr(cfg: Config, buf: string)
  {
    cfg.eofStr.Some? && CString(buf) == cfg.eofStr.value
  }

  function TokenOf(buf: string): (t: Token)
    ensures t.len > |t.text| && t.len == |buf| + 1
  {
    Token(CString(buf), |buf| + 1)
  }

  function Pushes(cfg: Config, buf: string): seq<Token>
  {
    if cfg.replace then [] else [TokenOf(buf)]
  }

  // What the loop of read_line does with the rest of the input s. prev is the character before it; buf is what
  // linebuf holds; first and seen are the C variables first and seen_arg.
  function Scan(cfg: Config, s: string, st: State, prev: Option<char>, buf: string, first: bool, seen: bool): (r: Line)
    ensures |r.rest| <= |s|
    ensures r.result.Length? && !r.eof ==> |r.rest| < |s|
    decreases |s|, 0
  {
    if s == "" then AtEnd(cfg, st, buf, first) else ScanChar(cfg, s[0], s[1..], st, prev, buf, first, seen)
  }

  lemma ScanIs(cfg: Config, s: string, st: State, prev: Option<char>, buf: string, first: bool, seen: bool)
    ensures Scan(cfg, s, st, prev, buf, first, seen)
      == if s == "" then AtEnd(cfg, st, buf, first) else ScanChar(cfg, s[0], s[1..], st, prev, buf, first, seen)
  {
  }

  // One character c, and then the rest t.
  function ScanChar(cfg: Config, c: char, t: string, st: State, prev: Option<char>, buf: string, first: bool, seen: bool)
      : (r: Line)
    ensures |r.rest| <= |t|
    decreases |t|, 2
  {
    if st.Space? && IsSpace(c) then Scan(cfg, t, Space, Some(c), buf, first, seen)
    else if st.Backslash? then Keep(cfg, c, t, Norm, buf, first, seen)
    else if st.Quote? then
      if c == '\n' then Line([], Unmatched, t, 0, false)
      else if c == st.mark then Scan(cfg, t, Norm, Some(c), buf, first, true)
      else Keep(cfg, c, t, st, buf, first, seen)
    else if c == '\n' then
      var n := if prev.Some? && IsBlank(prev.value) then 0 else 1;
      if buf == "" && !seen then
        var more := Scan(cfg, t, Space, Some(c), buf, first, seen);
        more.(lines := n + more.lines)
      else AtNewline(cfg, t, buf, first, n)
    else if !cfg.replace && IsBlank(c) then
      if IsEofStr(cfg, buf) then Line([], if first then EndOfInput else Length(|buf| + 1), t, 0, true)
      else
        var more := Scan(cfg, t, Space, Some(c), "", false, true);
        more.(pushed := [TokenOf(buf)] + more.pushed)
    else if c == '\\' then Scan(cfg, t, Backslash, Some(c), buf, first, true)
    else if c == '\'' || c == '"' then Scan(cfg, t, Quote(c), Some(c), buf, first, true)
    else Keep(cfg, c, t, Norm, buf, first, true)
  }

  // The newline that ends a nonblank line.
  function AtNewline(cfg: Config, t: string, buf: string, first: bool, n: nat): Line
  {
    if IsEofStr(cfg, buf) then Line([], if first then EndOfInput else Length(|buf| + 1), t, n, true)
    else Line(Pushes(cfg, buf), Length(|buf| + 1), t, n, false)
  }

  function AtEnd(cfg: Config, st: State, buf: string, first: bool): Line
  {
    if buf == "" then Line([], EndOfInput, "", 0, true)
    else if st.Quote? then Line([], Unmatched, "", 0, true)
    else if first && IsEofStr(cfg, buf) then Line([], EndOfInput, "", 0, true)
    else Line(Pushes(cfg, buf), Length(|buf| + 1), "", 0, true)
  }

  function Keep(cfg: Config, c: char, t: string, st: State, buf: string, first: bool, seen: bool): (r: Line)
    ensures |r.rest| <= |t|
    decreases |t|, 1
  {
    if |buf| >= cfg.room then Line([], TooLong, t, 0, false)
    else Scan(cfg, t, st, Some(c), buf + [c], first, seen)
  }

  function ReadLine(cfg: Config, s: string): Line
  {
    Scan(cfg, s, Space, None, "", true, false)
  }

  // Every argument of an input, and the error that stops it, if any.
  function Tokens(cfg: Config, s: string): (seq<Token>, Result)
    decreases |s|
  {
    var line := ReadLine(cfg, s);
    if !line.result.Length? then (line.pushed, line.result)
    else if line.eof then (line.pushed, EndOfInput)
    else
      var more := Tokens(cfg, line.rest);
      (line.pushed + more.0, more.1)
  }

  lemma TokensIs(cfg: Config, s: string)
    ensures var line := ReadLine(cfg, s);
      Tokens(cfg, s) == if !line.result.Length? then (line.pushed, line.result)
         else if line.eof then (line.pushed, EndOfInput)
         else (line.pushed + Tokens(cfg, line.rest).0, Tokens(cfg, line.rest).1)
    ensures var line := ReadLine(cfg, s); line.result.Length? && !line.eof ==> |line.rest| < |s|
  {
  }

  // ----- How arguments are written -----

  // A part of a word: plain characters, one behind a backslash, or some between two equal quotes.
  datatype Piece = Plain(text: string) | Backslashed(c: char) | InQuotes(mark: char, text: string)

  predicate IsPlain(c: char) { !IsBlank(c) && c != '\n' && c != '\\' && c != '\'' && c != '"' }

  predicate AllPlain(text: string) { forall i :: 0 <= i < |text| ==> IsPlain(text[i]) }

  predicate GoodPiece(p: Piece)
  {
    match p
    case Plain(text) => text != "" && AllPlain(text)
    case Backslashed(_) => true
    case InQuotes(mark, text) => (mark == '\'' || mark == '"') && mark !in text && '\n' !in text
  }

  // How a piece is written, and what it stands for.
  function PieceText(p: Piece): (s: string)
    ensures p.Plain? || s != ""
  {
    match p
    case Plain(text) => text
    case Backslashed(c) => ['\\', c]
    case InQuotes(mark, text) => [mark] + text + [mark]
  }

  function PieceMeant(p: Piece): string
  {
    match p
    case Plain(text) => text
    case Backslashed(c) => [c]
    case InQuotes(_, text) => text
  }

  function WordText(w: seq<Piece>): string
  {
    if w == [] then "" else PieceText(w[0]) + WordText(w[1..])
  }

  function Meant(w: seq<Piece>): string
  {
    if w == [] then "" else PieceMeant(w[0]) + Meant(w[1..])
  }

  // A word does not start with white space; form feeds and the like may stand inside.
  predicate GoodWord(w: seq<Piece>)
  {
    w != [] && (forall i :: 0 <= i < |w| ==> GoodPiece(w[i])) && (w[0].Plain? ==> !IsSpace(w[0].text[0]))
  }

  function LastOf(s: string): Option<char> { if s == "" then None else Some(s[|s| - 1]) }

  predicate Spaces(s: string) { forall i :: 0 <= i < |s| ==> IsSpace(s[i]) }

  lemma {:induction false} SkipSpaces(cfg: Config, spaces: string, t: string, prev: Option<char>, first: bool, seen: bool)
    requires Spaces(spaces) && spaces != ""
    ensures Scan(cfg, spaces + t, Space, prev, "", first, seen)
      == Scan(cfg, t, Space, Some(spaces[|spaces| - 1]), "", first, seen)
    decreases |spaces|
  {
    var s := spaces + t;
    assert s[1..] == spaces[1..] + t;
    if |spaces| > 1 {
      SkipSpaces(cfg, spaces[1..], t, Some(spaces[0]), first, seen);
    } else {
      assert spaces[1..] + t == t;
    }
  }

  // Plain text stands for itself.
  lemma {:induction false} ReadPlain(cfg: Config, text: string, t: string, st: State, prev: Option<char>, buf: string,
                                     first: bool, seen: bool)
    requires text != "" && AllPlain(text) && (st.Norm? || (st.Space? && !IsSpace(text[0])))
    ensures var r := Scan(cfg, text + t, st, prev, buf, first, seen);
      if |buf| + |text| <= cfg.room then r == Scan(cfg, t, Norm, LastOf(text), buf + text, first, true)
      else r.result == TooLong && r.pushed == []
    decreases |text|
  {
    var s, c, tail := text + t, text[0], text[1..];
    assert s[0] == c && s[1..] == tail + t && IsPlain(c);
    assert Scan(cfg, s, st, prev, buf, first, seen) == Keep(cfg, c, tail + t, Norm, buf, first, true);
    if |buf| < cfg.room {
      assert buf + text == buf + [c] + tail;
      if tail == "" {
        assert tail + t == t && buf + text == buf + [c];
      } else {
        ReadPlain(cfg, tail, t, Norm, Some(c), buf + [c], first, true);
      }
    }
  }

  // A character behind a backslash stands for itself.
  lemma ReadEscaped(cfg: Config, c: char, t: string, st: State, prev: Option<char>, buf: string, first: bool, seen: bool)
    requires (st.Norm? || st.Space?) && |buf| < cfg.room
    ensures Scan(cfg, ['\\', c] + t, st, prev, buf, first, seen) == Scan(cfg, t, Norm, Some(c), buf + [c], first, true)
  {
    var s := ['\\', c] + t;
    var s1 := [c] + t;
    assert s[1..] == s1 && s1[1..] == t;
    assert Scan(cfg, s, st, prev, buf, first, seen) == Scan(cfg, s1, Backslash, Some('\\'), buf, first, true);
    assert Scan(cfg, s1, Backslash, Some('\\'), buf, first, true) == Keep(cfg, c, t, Norm, buf, first, true);
  }

  // Behind a quote mark everything but that mark and a newline stands for itself.
  lemma {:induction false} ReadInQuotes(cfg: Config, mark: char, text: string, t: string, prev: Option<char>, buf: string,
                                        first: bool, seen: bool)
    requires mark !in text && '\n' !in text && |buf| + |text| <= cfg.room
    ensures Scan(cfg, text + t, Quote(mark), prev, buf, first, seen)
      == Scan(cfg, t, Quote(mark), if text == "" then prev else LastOf(text), buf + text, first, seen)
    decreases |text|
  {
    var s := text + t;
    if text == "" {
      assert s == t && buf + text == buf;
    } else {
      assert s[1..] == text[1..] + t && s[0] == text[0];
      assert Scan(cfg, s, Quote(mark), prev, buf, first, seen)
          == Keep(cfg, text[0], s[1..], Quote(mark), buf, first, seen);
      ReadInQuotes(cfg, mark, text[1..], t, Some(text[0]), buf + [text[0]], first, seen);
      assert buf + [text[0]] + text[1..] == buf + text;
    }
  }

  lemma OpenQuote(cfg: Config, mark: char, t: string, st: State, prev: Option<char>, buf: string, first: bool, seen: bool)
    requires (st.Norm? || st.Space?) && (mark == '\'' || mark == '"')
    ensures Scan(cfg, [mark] + t, st, prev, buf, first, seen) == Scan(cfg, t, Quote(mark), Some(mark), buf, first, true)
  {
    assert ([mark] + t)[1..] == t;
  }

  lemma ReadQuoted(cfg: Config, mark: char, text: string, t: string, st: State, prev: Option<char>, buf: string,
                   first: bool, seen: bool)
    requires (st.Norm? || st.Space?) && GoodPiece(InQuotes(mark, text)) && |buf| + |text| <= cfg.room
    ensures Scan(cfg, [mark] + text + [mark] + t, st, prev, buf, first, seen)
      == Scan(cfg, t, Norm, Some(mark), buf + text, first, true)
  {
    var s1 := [mark] + t;
    assert [mark] + text + [mark] + t == [mark] + (text + s1) && s1[1..] == t;
    OpenQuote(cfg, mark, text + s1, st, prev, buf, first, seen);
    ReadInQuotes(cfg, mark, text, s1, Some(mark), buf, first, true);
  }

  // A quote that is not closed on its line is an error.
  lemma Unclosed(cfg: Config, mark: char, text: string, t: string, st: State, prev: Option<char>, buf: string,
                 first: bool, seen: bool)
    requires (st.Norm? || st.Space?) && GoodPiece(InQuotes(mark, text)) && |buf| + |text| <= cfg.room
    ensures Scan(cfg, [mark] + text + ['\n'] + t, st, prev, buf, first, seen) == Line([], Unmatched, t, 0, false)
    ensures Scan(cfg, [mark] + text, st, prev, buf, first, seen)
      == Line([], if buf + text == "" then EndOfInput else Unmatched, "", 0, true)
  {
    var s1 := ['\n'] + t;
    assert [mark] + text + ['\n'] + t == [mark] + (text + s1) && s1[1..] == t && text + "" == text;
    OpenQuote(cfg, mark, text + s1, st, prev, buf, first, seen);
    ReadInQuotes(cfg, mark, text, s1, Some(mark), buf, first, true);
    OpenQuote(cfg, mark, text, st, prev, buf, first, seen);
    ReadInQuotes(cfg, mark, text, "", Some(mark), buf, first, true);
  }

  lemma ReadPiece(cfg: Config, p: Piece, t: string, st: State, prev: Option<char>, buf: string, first: bool, seen: bool)
    requires GoodPiece(p) && (st.Norm? || (st.Space? && (p.Plain? ==> !IsSpace(p.text[0]))))
    requires |buf| + |PieceMeant(p)| <= cfg.room
    ensures Scan(cfg, PieceText(p) + t, st, prev, buf, first, seen)
      == Scan(cfg, t, Norm, LastOf(PieceText(p)), buf + PieceMeant(p), first, true)
  {
    hide Scan;
    match p
    case Plain(text) => ReadPlain(cfg, text, t, st, prev, buf, first, seen);
    case Backslashed(c) => ReadEscaped(cfg, c, t, st, prev, buf, first, seen);
    case InQuotes(mark, text) => ReadQuoted(cfg, mark, text, t, st, prev, buf, first, seen);
  }

  // A word of such pieces comes out as what they stand for.
  lemma {:induction false} ReadWord(cfg: Config, w: seq<Piece>, t: string, st: State, prev: Option<char>, buf: string,
                                    first: bool, seen: bool)
    requires w != [] && (forall i :: 0 <= i < |w| ==> GoodPiece(w[i]))
    requires st.Norm? || (st.Space? && GoodWord(w))
    requires |buf| + |Meant(w)| <= cfg.room
    ensures Scan(cfg, WordText(w) + t, st, prev, buf, first, seen)
      == Scan(cfg, t, Norm, LastOf(WordText(w)), buf + Meant(w), first, true)
    decreases |w|
  {
    hide Scan, IsSpace, IsPlain;
    var p, rest := w[0], w[1..];
    Assoc(PieceText(p), WordText(rest), t);
    Assoc(buf, PieceMeant(p), Meant(rest));
    ReadPiece(cfg, p, WordText(rest) + t, st, prev, buf, first, seen);
    if rest == [] {
      assert WordText(rest) + t == t && buf + PieceMeant(p) + "" == buf + PieceMeant(p);
    } else {
      ReadWord(cfg, rest, t, Norm, LastOf(PieceText(p)), buf + PieceMeant(p), first, true);
    }
  }

  // ----- Lines of words -----

  // A word with the white space before it.
  datatype Item = Item(space: string, word: seq<Piece>)

  function ItemsText(items: seq<Item>): string
  {
    if items == [] then "" else items[0].space + WordText(items[0].word) + ItemsText(items[1..])
  }

  function Meanings(items: seq<Item>): (m: seq<string>)
    ensures |m| == |items| && forall i :: 0 <= i < |m| ==> m[i] == Meant(items[i].word)
  {
    if items == [] then [] else [Meant(items[0].word)] + Meanings(items[1..])
  }

  function TokensOf(args: seq<string>): seq<Token>
  {
    if args == [] then [] else [TokenOf(args[0])] + TokensOf(args[1..])
  }

  // White space may stand before the first word, and must before any other: a blank, and then even newlines.
  predicate GoodItems(cfg: Config, items: seq<Item>, begun: bool)
  {
    items != [] ==>
      && Spaces(items[0].space) && (begun ==> items[0].space != "" && IsBlank(items[0].space[0]))
      && GoodWord(items[0].word) && |Meant(items[0].word)| <= cfg.room
      && GoodItems(cfg, items[1..], true)
  }

  // No word but perhaps the last is the end-of-file string.
  predicate NoEof(cfg: Config, items: seq<Item>)
  {
    |items| > 1 ==> !IsEofStr(cfg, Meant(items[0].word)) && NoEof(cfg, items[1..])
  }

  function After(toks: seq<Token>, line: Line): Line { line.(pushed := toks + line.pushed) }

  lemma EndArgument(cfg: Config, b: char, t: string, prev: Option<char>, buf: string, first: bool)
    requires IsBlank(b) && !cfg.replace
    ensures Scan(cfg, [b] + t, Norm, prev, buf, first, true) ==
      if IsEofStr(cfg, buf) then Line([], if first then EndOfInput else Length(|buf| + 1), t, 0, true)
      else After([TokenOf(buf)], Scan(cfg, t, Space, Some(b), "", false, true))
  {
    assert ([b] + t)[1..] == t;
  }

  lemma SkipAny(cfg: Config, spaces: string, t: string, prev: Option<char>, first: bool, seen: bool) returns (p: Option<char>)
    requires Spaces(spaces)
    ensures Scan(cfg, spaces + t, Space, prev, "", first, seen) == Scan(cfg, t, Space, p, "", first, seen)
  {
    if spaces == "" {
      p := prev;
      assert spaces + t == t;
    } else {
      p := Some(spaces[|spaces| - 1]);
      SkipSpaces(cfg, spaces, t, prev, first, seen);
    }
  }

  // Words are read one after another; the last is still in linebuf when what follows comes up.
  lemma {:induction false} ReadItems(cfg: Config, items: seq<Item>, t: string, prev: Option<char>, first: bool, seen: bool)
    requires items != [] && GoodItems(cfg, items, false) && NoEof(cfg, items) && !cfg.replace
    ensures var n := |items| - 1; var last := items[n].word;
      Scan(cfg, ItemsText(items) + t, Space, prev, "", first, seen)
        == After(TokensOf(Meanings(items)[..n]),
                 Scan(cfg, t, Norm, LastOf(WordText(last)), Meant(last), first && n == 0, true))
    decreases |items|, 0
  {
    hide Scan, IsSpace, IsPlain, TokenOf, IsEofStr, Meant, WordText;
    var w, rest := items[0].word, items[1..];
    var more := ItemsText(rest) + t;
    Assoc(items[0].space, WordText(w), ItemsText(rest));
    Assoc(items[0].space + WordText(w), ItemsText(rest), t);
    Assoc(items[0].space, WordText(w), more);
    var p := SkipAny(cfg, items[0].space, WordText(w) + more, prev, first, seen);
    ReadWord(cfg, w, more, Space, p, "", first, seen);
    assert "" + Meant(w) == Meant(w);
    if rest == [] {
      assert more == t && Meanings(items)[..0] == [] && TokensOf([]) == [];
    } else {
      NextItems(cfg, rest, t, LastOf(WordText(w)), Meant(w), first);
      assert Meanings(items)[..|items| - 1] == [Meant(w)] + Meanings(rest)[..|rest| - 1];
      assert ([Meant(w)] + Meanings(rest)[..|rest| - 1])[1..] == Meanings(rest)[..|rest| - 1];
    }
  }

  lemma FirstBlank(items: seq<Item>, items': seq<Item>, t: string)
    requires items != [] && items[0].space != ""
    requires items' == [Item(items[0].space[1..], items[0].word)] + items[1..]
    ensures ItemsText(items) + t == [items[0].space[0]] + (ItemsText(items') + t)
  {
    hide WordText;
    var b, space, text := items[0].space[0], items[0].space[1..], WordText(items[0].word);
    assert items'[1..] == items[1..] && items[0].space == [b] + space;
    Assoc([b], space, text);
    Assoc([b], space + text, ItemsText(items[1..]));
    Assoc([b], ItemsText(items'), t);
  }

  // The blank before the next word ends the one in linebuf.
  lemma {:induction false} NextItems(cfg: Config, items: seq<Item>, t: string, prev: Option<char>, buf: string, first: bool)
    requires items != [] && GoodItems(cfg, items, true) && NoEof(cfg, items) && !cfg.replace && !IsEofStr(cfg, buf)
    ensures var n := |items| - 1; var last := items[n].word;
      Scan(cfg, ItemsText(items) + t, Norm, prev, buf, first, true)
        == After([TokenOf(buf)] + TokensOf(Meanings(items)[..n]),
                 Scan(cfg, t, Norm, LastOf(WordText(last)), Meant(last), false, true))
    decreases |items|, 1
  {
    hide Scan, IsSpace, IsPlain, TokenOf, IsEofStr, Meant, WordText, ItemsText;
    var b := items[0].space[0];
    var items' := [Item(items[0].space[1..], items[0].word)] + items[1..];
    assert items'[1..] == items[1..];
    FirstBlank(items, items', t);
    EndArgument(cfg, b, ItemsText(items') + t, prev, buf, first);
    ReadItems(cfg, items', t, Some(b), false, true);
    assert Meanings(items') == Meanings(items);
  }

  // No word is the end-of-file string.
  predicate NoneEof(cfg: Config, items: seq<Item>)
  {
    items != [] ==> !IsEofStr(cfg, Meant(items[0].word)) && NoneEof(cfg, items[1..])
  }

  lemma {:induction false} LastNotEof(cfg: Config, items: seq<Item>)
    requires items != [] && NoneEof(cfg, items)
    ensures NoEof(cfg, items) && !IsEofStr(cfg, Meant(items[|items| - 1].word))
  {
    if |items| > 1 {
      LastNotEof(cfg, items[1..]);
    }
  }

  lemma TokensOfOne(arg: string)
    ensures TokensOf([arg]) == [TokenOf(arg)]
  {
    hide TokenOf;
    assert [arg][1..] == [];
    assert TokensOf([]) == [];
  }

  lemma TokensOfLast(args: seq<string>)
    requires args != []
    ensures TokensOf(args) == TokensOf(args[..|args| - 1]) + [TokenOf(args[|args| - 1])]
  {
    hide TokenOf, TokensOf;
    var last := args[|args| - 1];
    assert args == args[..|args| - 1] + [last];
    TokensOfConcat(args[..|args| - 1], [last]);
    TokensOfOne(last);
  }

  // Whether a newline counts as the end of a line for -L, after the character c.
  function Counts(c: Option<char>): nat { if c.Some? && IsBlank(c.value) then 0 else 1 }

  // A line of words comes out as what they stand for. A written blank just before the newline, which can only stand
  // behind a backslash, hides it from the line count.
  lemma LineRoundTrip(cfg: Config, items: seq<Item>, rest: string)
    requires items != [] && GoodItems(cfg, items, false) && NoneEof(cfg, items) && !cfg.replace
    ensures var last := items[|items| - 1].word;
      ReadLine(cfg, ItemsText(items) + "\n" + rest)
        == Line(TokensOf(Meanings(items)), Length(|Meant(last)| + 1), rest, Counts(LastOf(WordText(last))), false)
  {
    hide IsSpace, IsPlain, TokenOf, IsEofStr, Meant, WordText, ItemsText;
    var n := |items| - 1;
    var last := items[n].word;
    LastNotEof(cfg, items);
    Assoc(ItemsText(items), "\n", rest);
    ReadItems(cfg, items, "\n" + rest, None, true, false);
    assert ("\n" + rest)[1..] == rest;
    TokensOfLast(Meanings(items));
  }

  lemma EofStrIs(cfg: Config, buf: string)
    ensures IsEofStr(cfg, buf) <==> cfg.eofStr == Some(CString(buf))
  {
  }

  // The end-of-file string as a word of its own ends the input, whatever follows it.
  lemma EofStops(cfg: Config, items: seq<Item>, c: char, rest: string)
    requires items != [] && GoodItems(cfg, items, false) && NoEof(cfg, items) && !cfg.replace
    requires cfg.eofStr == Some(CString(Meant(items[|items| - 1].word))) && (c == '\n' || IsBlank(c))
    ensures Tokens(cfg, ItemsText(items) + [c] + rest) == (TokensOf(Meanings(items)[..|items| - 1]), EndOfInput)
  {
    hide IsSpace, IsPlain, TokenOf, IsEofStr, Meant, WordText, ItemsText;
    var n := |items| - 1;
    EofStrIs(cfg, Meant(items[n].word));
    var toks := TokensOf(Meanings(items)[..n]);
    var buf, prev := Meant(items[n].word), LastOf(WordText(items[n].word));
    Assoc(ItemsText(items), [c], rest);
    ReadItems(cfg, items, [c] + rest, None, true, false);
    assert ([c] + rest)[1..] == rest && toks + [] == toks;
    if c != '\n' { EndArgument(cfg, c, rest, prev, buf, n == 0); }
  }

  // At the end of the input the last word counts without a newline, unless it stands for nothing.
  lemma LineAtEnd(cfg: Config, items: seq<Item>)
    requires items != [] && GoodItems(cfg, items, false) && NoneEof(cfg, items) && !cfg.replace
    ensures var args := Meanings(items);
      Tokens(cfg, ItemsText(items)) ==
        (TokensOf(if args[|args| - 1] == "" then args[..|args| - 1] else args), EndOfInput)
  {
    hide IsSpace, IsPlain, TokenOf, IsEofStr, Meant, WordText, ItemsText;
    LastNotEof(cfg, items);
    assert ItemsText(items) + "" == ItemsText(items);
    ReadItems(cfg, items, "", None, true, false);
    TokensOfLast(Meanings(items));
    var toks := TokensOf(Meanings(items)[..|items| - 1]);
    assert toks + [] == toks;
  }

  // An input of such lines, and white space at its end.
  function InputText(lines: seq<seq<Item>>, end: string): string
  {
    if lines == [] then end else ItemsText(lines[0]) + "\n" + InputText(lines[1..], end)
  }

  function AllMeanings(lines: seq<seq<Item>>): seq<string>
  {
    if lines == [] then [] else Meanings(lines[0]) + AllMeanings(lines[1..])
  }

  lemma {:induction false} TokensOfConcat(a: seq<string>, b: seq<string>)
    ensures TokensOf(a + b) == TokensOf(a) + TokensOf(b)
  {
    if a == [] {
      assert a + b == b;
    } else {
      assert (a + b)[1..] == a[1..] + b;
      TokensOfConcat(a[1..], b);
    }
  }

  // However its words are written, an input is the list of what they stand for.
  lemma {:induction false} InputRoundTrip(cfg: Config, lines: seq<seq<Item>>, end: string)
    requires forall i :: 0 <= i < |lines| ==>
      lines[i] != [] && GoodItems(cfg, lines[i], false) && NoneEof(cfg, lines[i])
    requires Spaces(end) && !cfg.replace
    ensures Tokens(cfg, InputText(lines, end)) == (TokensOf(AllMeanings(lines)), EndOfInput)
    decreases |lines|
  {
    hide TokenOf, Meant, WordText, ItemsText, GoodItems, NoneEof, ReadLine, Tokens;
    TokensIs(cfg, InputText(lines, end));
    if lines == [] {
      ReadSpaces(cfg, end);
    } else {
      LineRoundTrip(cfg, lines[0], InputText(lines[1..], end));
      InputRoundTrip(cfg, lines[1..], end);
      TokensOfConcat(Meanings(lines[0]), AllMeanings(lines[1..]));
    }
  }

  lemma ReadSpaces(cfg: Config, spaces: string)
    requires Spaces(spaces)
    ensures ReadLine(cfg, spaces) == Line([], EndOfInput, "", 0, true)
  {
    assert spaces + "" == spaces;
    var p := SkipAny(cfg, spaces, "", None, true, false);
  }

  // ----- Every argument can be written -----

  function Behind(arg: string): seq<Piece>
  {
    if arg == "" then [] else [Backslashed(arg[0])] + Behind(arg[1..])
  }

  // Every character behind a backslash, or two quotes for no character.
  function Quoted(arg: string): seq<Piece>
  {
    if arg == "" then [InQuotes('\'', "")] else Behind(arg)
  }

  lemma {:induction false} BehindMeans(arg: string)
    ensures Meant(Behind(arg)) == arg
    ensures forall i :: 0 <= i < |Behind(arg)| ==> Behind(arg)[i].Backslashed?
    ensures arg != "" ==> Behind(arg) != []
  {
    if arg != "" {
      BehindMeans(arg[1..]);
    }
  }

  lemma QuotedMeans(arg: string)
    ensures GoodWord(Quoted(arg)) && Meant(Quoted(arg)) == arg
  {
    BehindMeans(arg);
    assert Meant([]) == "" && [InQuotes('\'', "")][1..] == [];
  }

  function QuotedItems(args: seq<string>, space: string, sep: string): (items: seq<Item>)
    ensures |items| == |args|
  {
    if args == [] then [] else [Item(space, Quoted(args[0]))] + QuotedItems(args[1..], sep, sep)
  }

  lemma {:induction false} QuotedItemsMean(cfg: Config, args: seq<string>, space: string, sep: string, begun: bool)
    requires Spaces(space) && Spaces(sep) && sep != "" && IsBlank(sep[0]) && (begun ==> space == sep)
    requires forall i :: 0 <= i < |args| ==> |args[i]| <= cfg.room && !IsEofStr(cfg, args[i])
    ensures var items := QuotedItems(args, space, sep);
      Meanings(items) == args && GoodItems(cfg, items, begun) && NoneEof(cfg, items)
    decreases |args|
  {
    hide GoodWord, Meant, Quoted, IsEofStr;
    if args != [] {
      QuotedMeans(args[0]);
      QuotedItemsMean(cfg, args[1..], sep, sep, true);
    }
  }

  function QuotedLine(args: seq<string>, sep: string): string
  {
    ItemsText(QuotedItems(args, "", sep)) + "\n"
  }

  // So xargs can be given any arguments that fit its buffer.
  lemma QuotingRoundTrip(cfg: Config, args: seq<string>, sep: string)
    requires args != [] && Spaces(sep) && sep != "" && IsBlank(sep[0]) && !cfg.replace
    requires forall i :: 0 <= i < |args| ==> |args[i]| <= cfg.room && '\0' !in args[i] && !IsEofStr(cfg, args[i])
    ensures Tokens(cfg, QuotedLine(args, sep)) == (TokensOf(args), EndOfInput)
    ensures forall i :: 0 <= i < |args| ==> i < |TokensOf(args)| && TokensOf(args)[i].text == args[i]
  {
    hide QuotedItems, Tokens, GoodItems, NoneEof, ItemsText;
    var items := QuotedItems(args, "", sep);
    QuotedItemsMean(cfg, args, "", sep, false);
    InputRoundTrip(cfg, [items], "");
    assert [items][1..] == [];
    assert QuotedLine(args, sep) + "" == QuotedLine(args, sep) && args + [] == args;
    TokensOfAt(args);
  }

  lemma {:induction false} TokensOfAt(args: seq<string>)
    ensures |TokensOf(args)| == |args|
    ensures forall i :: 0 <= i < |args| ==> TokensOf(args)[i] == TokenOf(args[i])
  {
    if args != [] {
      TokensOfAt(args[1..]);
    }
  }
}
