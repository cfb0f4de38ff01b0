// bc_do_insert of lib/buildcmd.c: every occurrence of replace_pat in an argument becomes prefix and line.
module Insert {
  import opened Wrappers
  import opened BuildCmd

  // mbsstr: the first occurrence, or None.
  function Find(s: string, pat: string): (r: Option<nat>)
    ensures r.Some? ==> OccursAt(s, pat, r.value) && forall i :: 0 <= i < r.value ==> !OccursAt(s, pat, i)
    ensures r.None? ==> forall i :: 0 <= i ==> !OccursAt(s, pat, i)
  {
    FindFrom(s, pat, 0)
  }

  function FindFrom(s: string, pat: string, k: nat): (r: Option<nat>)
    requires k <= |s|
    ensures r.Some? ==> k <= r.value && OccursAt(s, pat, r.value) && forall i :: k <= i < r.value ==> !OccursAt(s, pat, i)
    ensures r.None? ==> forall i :: k <= i ==> !OccursAt(s, pat, i)
    decreases |s| - k
  {
    if OccursAt(s, pat, k) then Some(k) else if k == |s| then None else FindFrom(s, pat, k + 1)
  }

  // The argument cut at its leftmost non-overlapping occurrences of pat.
  function Split(arg: string, pat: string): (r: seq<string>)
    requires pat != ""
    ensures r != []
    decreases |arg|
  {
    var i := Find(arg, pat);
    if i.None? then [arg] else [arg[..i.value]] + Split(arg[i.value + |pat|..], pat)
  }

  function Join(pieces: seq<string>, text: string): string
    requires pieces != []
  {
    if |pieces| == 1 then pieces[0] else pieces[0] + text + Join(pieces[1..], text)
  }

  function Replaced(arg: string, pat: string, text: string): string
    requires pat != ""
  {
    Join(Split(arg, pat), text)
  }

  // No occurrence of pat starts before position n of s.
  predicate NoneBefore(s: string, pat: string, n: nat)
  {
    forall i :: 0 <= i < n ==> !OccursAt(s, pat, i)
  }

  // Inside every piece no occurrence starts, not even one that runs into the pat that followed it.
  predicate Leftmost(pieces: seq<string>, pat: string)
  {
    pieces != [] ==>
      NoneBefore(if |pieces| > 1 then pieces[0] + pat else pieces[0], pat, |pieces[0]|) && Leftmost(pieces[1..], pat)
  }

  lemma JoinCons(piece: string, rest: seq<string>, text: string)
    requires rest != []
    ensures Join([piece] + rest, text) == piece + text + Join(rest, text)
  {
    assert ([piece] + rest)[1..] == rest;
  }

  lemma LeftmostCons(piece: string, rest: seq<string>, pat: string)
    requires rest != [] && NoneBefore(piece + pat, pat, |piece|) && Leftmost(rest, pat)
    ensures Leftmost([piece] + rest, pat)
  {
    assert ([piece] + rest)[1..] == rest;
  }

  lemma LeftmostOne(piece: string, pat: string)
    requires NoneBefore(piece, pat, |piece|)
    ensures Leftmost([piece], pat)
  {
    assert [piece][1..] == [];
  }

  // The cuts are the leftmost non-overlapping occurrences of pat.
  lemma {:induction false} SplitIs(arg: string, pat: string)
    requires pat != ""
    ensures Join(Split(arg, pat), pat) == arg && Leftmost(Split(arg, pat), pat)
    decreases |arg|
  {
    hide OccursAt, Leftmost, FindFrom;
    var i := Find(arg, pat);
    if i.Some? {
      var n := i.value;
      FirstPiece(arg, pat, n);
      var tail := arg[n + |pat|..];
      SplitIs(tail, pat);
      hide Join;
      JoinCons(arg[..n], Split(tail, pat), pat);
      LeftmostCons(arg[..n], Split(tail, pat), pat);
    } else {
      LeftmostOne(arg, pat);
    }
  }

  lemma FirstPiece(arg: string, pat: string, n: nat)
    requires OccursAt(arg, pat, n) && NoneBefore(arg, pat, n)
    ensures n + |pat| <= |arg| && arg == arg[..n] + pat + arg[n + |pat|..] && NoneBefore(arg[..n] + pat, pat, n)
  {
    var s := arg[..n] + pat;
    assert s == arg[..n + |pat|];
    forall k | 0 <= k < n
      ensures !OccursAt(s, pat, k)
    {
      var e := k + |pat|;
      assert !OccursAt(arg, pat, k);
      assert forall j :: k <= j < e ==> s[j] == arg[..n + |pat|][j] == arg[j];
      assert s[k..e] == arg[k..e];
    }
  }

  lemma ReplacedStep(arg: string, pat: string, text: string)
    requires pat != ""
    ensures var i := Find(arg, pat);
      Replaced(arg, pat, text)
        == if i.None? then arg else arg[..i.value] + text + Replaced(arg[i.value + |pat|..], pat, text)
  {
    var i := Find(arg, pat);
    if i.Some? {
      assert Split(arg, pat)[1..] == Split(arg[i.value + |pat|..], pat);
    }
  }

  // strncpy and strcpy, without the NUL, which the next copy overwrites.
  method CopyText(buf: array<char>, p: nat, text: string) returns (end: nat)
    requires p + |text| <= buf.Length
    modifies buf
    ensures end == p + |text| && buf[..end] == old(buf[..p]) + text
  {
    var i := 0;
    while i < |text|
      invariant i <= |text| && buf[..p + i] == old(buf[..p]) + text[..i]
    {
      buf[p + i] := text[i];
      i := i + 1;
    }
    end := p + |text|;
    assert text[..|text|] == text;
  }

  // The text before an occurrence, and what replaces the occurrence.
  method CopyPiece(buf: array<char>, p: nat, head: string, prefix: string, line: string) returns (end: nat)
    requires p + |head| + |prefix| + |line| <= buf.Length
    modifies buf
    ensures end == p + |head| + |prefix| + |line| && buf[..end] == old(buf[..p]) + (head + (prefix + line))
  {
    end := CopyText(buf, p, head);
    end := CopyText(buf, end, prefix);
    end := CopyText(buf, end, line);
    Assoc(old(buf[..p]) + head, prefix, line);
    Assoc(old(buf[..p]), head, prefix + line);
  }

  // The loop over the pieces of arg; the buffer holds argMax + 1 bytes.
  method FillBuffer(argMax: nat, buf: array<char>, arg0: string, pat: string, prefix: string, line: string)
      returns (ok: bool, p: nat)
    requires pat != "" && argMax >= 1 && buf.Length == argMax + 1
    modifies buf
    ensures ok <==> arg0 == "" || |Replaced(arg0, pat, prefix + line)| <= argMax - 2
    ensures ok ==> p < argMax && buf[..p] == Replaced(arg0, pat, prefix + line)
  {
    hide Replaced, Find;
    var arg := arg0;
    var bytesLeft := argMax - 1;
    var text := prefix + line;
    p := 0;
    var first, broken := true, false;
    assert "" + Replaced(arg, pat, text) == Replaced(arg, pat, text);
    while !broken && (first || arg != "")
      invariant p + bytesLeft == argMax - 1 && bytesLeft >= 0 && (bytesLeft == 0 ==> argMax == 1)
      invariant first ==> arg == arg0 && !broken
      invariant argMax == 1 ==> first || broken
      invariant Replaced(arg0, pat, text) == buf[..p] + Replaced(arg, pat, text)
      invariant broken ==> |Replaced(arg, pat, text)| >= bytesLeft && (arg == "" <==> arg0 == "")
      invariant arg0 == "" ==> arg == "" && p == 0
      decreases !broken, first, |arg|
    {
      first := false;
      ReplacedStep(arg, pat, text);
      var s := Find(arg, pat);
      var len := if s.Some? then s.value else |arg|;
      if bytesLeft <= len {
        broken := true;
      } else if s.None? {
        bytesLeft := bytesLeft - len;
        assert arg[..len] == arg;
        p := CopyText(buf, p, arg[..len]);
        arg := "";
        ReplacedStep(arg, pat, text);
        NoOccurrence(pat);
        assert buf[..p] + "" == buf[..p];
      } else if bytesLeft - len <= |line| + |prefix| {
        broken := true;
      } else {
        bytesLeft := bytesLeft - len - (|line| + |prefix|);
        var head, rest := arg[..len], arg[len + |pat|..];
        Assoc(buf[..p], head + text, Replaced(rest, pat, text));
        p := CopyPiece(buf, p, head, prefix, line);
        arg := rest;
      }
    }
    ok := arg == "";
    if ok {
      ReplacedStep(arg, pat, text);
      NoOccurrence(pat);
      assert buf[..p] + "" == buf[..p];
    }
  }

  lemma NoOccurrence(pat: string)
    requires pat != ""
    ensures Find("", pat) == None
  {
  }

  function Inserted(ctl: Control, arg: string, prefix: Option<string>, line: string): string
    requires ctl.replacePat.Some? && ctl.replacePat.value != ""
  {
    Replaced(arg, ctl.replacePat.value, (if prefix.Some? then prefix.value else "") + line)
  }

  method DoInsert(b: Builder, arg: string, prefix: Option<string>, line: string, initial: bool)
      returns (status: Status, ghost news: seq<seq<string>>)
    requires b.Valid() && b.ctl.replacePat.Some? && b.ctl.replacePat.value != "" && b.ctl.argMax >= 1
    modifies b
    ensures b.initialArgc == old(b.initialArgc)
    ensures status == CommandTooLong <==> arg != "" && |Inserted(b.ctl, arg, prefix, line)| > b.ctl.argMax - 2
    ensures status == Done ==> b.Valid() && b.commands == old(b.commands) + news
    ensures status == Done ==>
      Blocks(news, b.initialArgc) + b.Pending() == old(b.Pending()) + [Inserted(b.ctl, arg, prefix, line)]
  {
    hide Replaced, Blocks;
    var buf := new char[b.ctl.argMax + 1];
    var ok, p := FillBuffer(b.ctl.argMax, buf, arg, b.ctl.replacePat.value, if prefix.Some? then prefix.value else "", line);
    if !ok { return CommandTooLong, []; }
    var text := buf[..p];
    buf[p] := '\0';
    status, news := b.PushArg(text, p + 1, None, initial);
    if status == Done {
      assert "" + text == text;
    }
  }
}
