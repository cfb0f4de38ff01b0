// gnulib/lib/canonicalize.c: canonicalize_filename_mode in mode CAN_MISSING, where no component is a symbolic link.
module Canonicalize {
  import opened Wrappers

  const PATH_MAX := 4096

  // ----- What a name means -----

  function Slashes(s: string): (n: nat)
    ensures n <= |s| && (n < |s| ==> s[n] != '/')
    ensures forall i :: 0 <= i < n ==> s[i] == '/'
  {
    if s == "" || s[0] != '/' then 0 else 1 + Slashes(s[1..])
  }

  function Letters(s: string): (n: nat)
    ensures n <= |s| && (n < |s| ==> s[n] == '/') && (s != "" && s[0] != '/' ==> n > 0)
    ensures forall i :: 0 <= i < n ==> s[i] != '/'
  {
    if s == "" || s[0] == '/' then 0 else 1 + Letters(s[1..])
  }

  predicate Component(c: string) { c != "" && '/' !in c }

  predicate AllComponents(cs: seq<string>) { forall i :: 0 <= i < |cs| ==> Component(cs[i]) }

  // A name without the slashes at its front.
  function Trim(s: string): (t: string)
    ensures |t| <= |s| && (t != "" ==> t[0] != '/')
  {
    s[Slashes(s)..]
  }

  function Components(s: string): seq<string>
    decreases |s|
  {
    var t := Trim(s);
    if t == "" then [] else [t[..Letters(t)]] + Components(t[Letters(t)..])
  }

  predicate Plain(c: string) { Component(c) && c != "." && c != ".." }

  predicate AllPlain(cs: seq<string>) { forall i :: 0 <= i < |cs| ==> Plain(cs[i]) }

  // One component, from a directory given by its path from the root.
  function Enter(stack: seq<string>, c: string): seq<string>
  {
    if c == "." then stack
    else if c == ".." then if stack == [] then [] else stack[..|stack| - 1]
    else stack + [c]
  }

  function Walk(stack: seq<string>, cs: seq<string>): seq<string>
    decreases |cs|
  {
    if cs == [] then stack else Walk(Enter(stack, cs[0]), cs[1..])
  }

  // The path to a directory, with a slash at its end, and without.
  function Slashed(stack: seq<string>): (s: string)
    ensures s != "" && s[0] == '/' && s[|s| - 1] == '/'
  {
    if stack == [] then "/" else Slashed(stack[..|stack| - 1]) + stack[|stack| - 1] + "/"
  }

  function Path(stack: seq<string>): (s: string)
    ensures s != ""
  {
    if stack == [] then "/" else Slashed(stack[..|stack| - 1]) + stack[|stack| - 1]
  }

  // The directory a name starts from.
  function Start(cwd: seq<string>, name: string): seq<string>
    requires name != ""
  {
    if name[0] == '/' then [] else cwd
  }

  // The canonical form of name, which is relative to cwd unless it starts with a slash.
  function Canonical(cwd: seq<string>, name: string): string
    requires name != ""
  {
    Path(Walk(Start(cwd, name), Components(name)))
  }

  // ----- What the buffer holds -----

  predicate Holds(text: string, stack: seq<string>)
  {
    AllComponents(stack) && (text == Path(stack) || text == Slashed(stack))
  }

  lemma HoldsSlashed(text: string, stack: seq<string>)
    requires Holds(text, stack)
    ensures text != "" && text[0] == '/'
    ensures text == Slashed(stack) <==> text[|text| - 1] == '/'
    ensures Slashed(stack) == if text[|text| - 1] == '/' then text else text + "/"
    ensures Path(stack) == if |text| > 1 && text[|text| - 1] == '/' then text[..|text| - 1] else text
    ensures |text| > 1 <==> stack != []
  {
    if stack == [] {
      SlashedNothing();
    } else {
      SlashedIs(stack);
      hide Slashed, Path;
      var init, last := Slashed(stack[..|stack| - 1]), stack[|stack| - 1];
      assert Component(last);
      assert (init + last)[|init + last| - 1] == last[|last| - 1];
    }
  }

  lemma SlashedNothing()
    ensures Slashed([]) == "/" && Path([]) == "/"
  {
  }

  lemma SlashedIs(cs: seq<string>)
    requires cs != []
    ensures Path(cs) == Slashed(cs[..|cs| - 1]) + cs[|cs| - 1] && Slashed(cs) == Path(cs) + "/"
  {
  }

  lemma Deeper(stack: seq<string>, c: string)
    requires AllComponents(stack) && Plain(c)
    ensures Path(stack + [c]) == Slashed(stack) + c
    ensures Holds(Path(stack + [c]), stack + [c])
  {
    assert (stack + [c])[..|stack|] == stack;
  }

  // What backing up to the previous slash leaves.
  lemma Backup(text: string, stack: seq<string>, d: nat)
    requires Holds(text, stack) && 1 <= d < |text| && text[d - 1] == '/'
    requires forall i :: d <= i < |text| - 1 ==> text[i] != '/'
    ensures stack != [] && text[..d] == Slashed(stack[..|stack| - 1])
  {
    HoldsSlashed(text, stack);
    var init, last := Slashed(stack[..|stack| - 1]), stack[|stack| - 1];
    assert text == init + last || text == init + last + "/";
    assert forall i :: |init| <= i < |init| + |last| ==> text[i] == last[i - |init|];
    assert text[|init| - 1] == '/';
    assert d == |init|;
  }

  // A character buffer: its first dest characters are the name so far.
  class Buffer {
    var rname: array<char>
    var dest: nat

    ghost predicate Valid()
      reads this, rname
    {
      1 <= dest < rname.Length && rname[0] == '/'
    }

    ghost function Text(): string
      reads this, rname
      requires dest <= rname.Length
    {
      rname[..dest]
    }

    constructor (text: string)
      requires text != "" && text[0] == '/' && |text| < PATH_MAX
      ensures Valid() && Text() == text && fresh(rname)
    {
      rname := new char[PATH_MAX](i requires 0 <= i < PATH_MAX => if i < |text| then text[i] else '\0');
      dest := |text|;
      new;
      assert rname[..dest] == text;
    }

    // One turn of the component loop.
    method Apply(c: string, ghost stack: seq<string>)
      requires Valid() && Holds(Text(), stack) && Component(c)
      modifies this, rname
      ensures Valid() && Holds(Text(), Enter(stack, c)) && (rname == old(rname) || fresh(rname))
    {
      hide Holds, Enter;
      EnterIs(stack, c);
      if c == "." {
      } else if c == ".." {
        Pop(stack);
      } else {
        Push(c, stack);
      }
    }

    // Back up to the previous component, unless at the root.
    method Pop(ghost stack: seq<string>)
      requires Valid() && Holds(Text(), stack)
      modifies `dest
      ensures Valid() && Holds(Text(), if stack == [] then [] else stack[..|stack| - 1])
    {
      hide Slashed, Path;
      ghost var text := Text();
      HoldsSlashed(text, stack);
      if dest > 1 {
        dest := dest - 1;
        while rname[dest - 1] != '/'
          invariant 1 <= dest < |text|
          invariant forall i :: dest <= i < |text| - 1 ==> text[i] != '/'
          decreases dest
        {
          dest := dest - 1;
        }
        Backup(text, stack, dest);
        assert text[..dest] == Text();
      }
    }

    // A slash if there is none, room for the component, and the component with its NUL.
    method Push(c: string, ghost stack: seq<string>)
      requires Valid() && Holds(Text(), stack) && Plain(c)
      modifies this, rname
      ensures Valid() && Holds(Text(), stack + [c]) && (rname == old(rname) || fresh(rname))
    {
      hide Slashed, Path;
      assert AllComponents(stack);
      AddSlash(stack);
      if dest + |c| >= rname.Length { Extend(|c|); }
      Copy(c);
      Deeper(stack, c);
      rname[dest] := '\0';
      assert Text() == Path(stack + [c]);
    }

    method AddSlash(ghost stack: seq<string>)
      requires Valid() && Holds(Text(), stack)
      modifies rname, `dest
      ensures 1 <= dest <= rname.Length && rname[0] == '/' && Text() == Slashed(stack)
    {
      hide Holds, Slashed, Path;
      ghost var text := Text();
      HoldsSlashed(text, stack);
      if rname[dest - 1] != '/' {
        rname[dest] := '/';
        dest := dest + 1;
        assert Text() == text + "/";
      }
    }

    // xrealloc to a size that fits n more characters and a NUL.
    method Extend(n: nat)
      requires 1 <= dest <= rname.Length && rname[0] == '/'
      modifies `rname
      ensures fresh(rname) && dest + n < rname.Length && Text() == old(Text()) && rname[0] == '/'
    {
      var size := rname.Length + if n + 1 > PATH_MAX then n + 1 else PATH_MAX;
      var from, so := rname, dest;
      var more := new char[size](i reads from requires 0 <= i < size => if i < from.Length then from[i] else '\0');
      assert more[..so] == from[..so];
      rname := more;
    }

    // memcpy.
    method Copy(c: string)
      requires 1 <= dest && dest + |c| < rname.Length && rname[0] == '/'
      modifies rname, `dest
      ensures dest == old(dest) + |c| && Text() == old(Text()) + c && Valid()
    {
      ghost var text := Text();
      var i := 0;
      while i < |c|
        invariant i <= |c| && dest == old(dest) && rname == old(rname) && rname[..dest + i] == text + c[..i] && rname[0] == '/'
      {
        rname[dest + i] := c[i];
        i := i + 1;
      }
      assert c[..|c|] == c;
      dest := dest + |c|;
    }
  }

  // From the directory stack, the rest of name leads to whole.
  predicate Leads(whole: string, stack: seq<string>, name: string, start: nat)
    requires start <= |name|
  {
    whole == Path(Walk(stack, Components(name[start..])))
  }

  lemma LeadsFromStart(cwd: seq<string>, name: string)
    requires name != ""
    ensures Leads(Canonical(cwd, name), Start(cwd, name), name, 0)
  {
    assert name[0..] == name;
  }

  lemma LeadsOn(whole: string, stack: seq<string>, name: string, start: nat, from: nat, end: nat)
    requires start <= from <= end <= |name| && Leads(whole, stack, name, start)
    requires from == start + Slashes(name[start..]) && end == from + Letters(name[from..])
    ensures if from == end then whole == Path(stack) else Leads(whole, Enter(stack, name[from..end]), name, end)
  {
    hide *;
    var s := name[start..];
    LeadsIs(whole, stack, name, start);
    LeadsIs(whole, Enter(stack, name[from..end]), name, end);
    Slices(name, start, from - start, end - from);
    TrimIs(s);
    ComponentsAt(s);
    if from != end {
      WalkCons(stack, name[from..end], Components(name[end..]));
    } else {
      WalkNothing(stack);
    }
  }

  lemma LeadsIs(whole: string, stack: seq<string>, name: string, start: nat)
    requires start <= |name|
    ensures Leads(whole, stack, name, start) <==> whole == Path(Walk(stack, Components(name[start..])))
  {
    hide Path, Walk, Components;
  }

  lemma TrimIs(s: string)
    ensures Trim(s) == s[Slashes(s)..]
  {
    hide Slashes;
  }

  lemma Slices(s: string, a: nat, b: nat, c: nat)
    requires a + b + c <= |s|
    ensures s[a..][b..] == s[a + b..] && s[a + b..][..c] == s[a + b..a + b + c] && s[a + b..][c..] == s[a + b + c..]
  {
  }

  lemma ComponentsAt(s: string)
    ensures var t := Trim(s);
      Components(s) == if t == "" then [] else [t[..Letters(t)]] + Components(t[Letters(t)..])
    ensures Trim(s) == "" <==> Letters(Trim(s)) == 0
  {
  }

  lemma WalkCons(stack: seq<string>, c: string, cs: seq<string>)
    ensures Walk(stack, [c] + cs) == Walk(Enter(stack, c), cs)
  {
    assert ([c] + cs)[1..] == cs;
  }

  lemma WalkNothing(stack: seq<string>)
    ensures Walk(stack, []) == stack
  {
  }

  lemma LeadsNowhere(whole: string, stack: seq<string>, name: string)
    requires Leads(whole, stack, name, |name|)
    ensures whole == Path(stack)
  {
    assert name[|name|..] == "";
  }

  // canonicalize_filename_mode; None is the error of an empty name. A relative name is taken from cwd, which
  // xgetcwd gives in canonical form.
  method CanonicalizeFilename(name: string, cwd: seq<string>) returns (r: Option<string>)
    requires AllPlain(cwd) && |Path(cwd)| < PATH_MAX
    ensures r == if name == "" then None else Some(Canonical(cwd, name))
  {
    hide Components, Walk, Slashed, Path, Enter, Holds, Slashes, Letters, Leads, Canonical;
    if name == "" { return None; }
    ghost var stack := Start(cwd, name);
    ghost var whole := Canonical(cwd, name);
    StartsAtRoot(cwd);
    StartsAtRoot([]);
    LeadsFromStart(cwd, name);
    var b := new Buffer(if name[0] == '/' then "/" else Path(cwd));
    var start := 0;
    while start < |name|
      invariant start <= |name| && b.Valid() && Holds(b.Text(), stack) && fresh(b) && fresh(b.rname)
      invariant Leads(whole, stack, name, start)
    {
      var from := start + Slashes(name[start..]);
      var end := from + Letters(name[from..]);
      LeadsOn(whole, stack, name, start, from, end);
      if from == end { break; }
      var c := name[from..end];
      b.Apply(c, stack);
      stack := Enter(stack, c);
      start := end;
    }
    assert whole == Path(stack) by {
      if start == |name| { LeadsNowhere(whole, stack, name); }
    }
    ghost var text := b.Text();
    HoldsSlashed(text, stack);
    if b.dest > 1 && b.rname[b.dest - 1] == '/' {
      b.dest := b.dest - 1;
      assert b.rname[..b.dest] == text[..|text| - 1];
    }
    r := Some(b.rname[..b.dest]);
  }

  // ----- What canonical means -----

  // One slash first, no empty component, no slash at the end except the root's, and no "." or "..".
  predicate IsCanonical(r: string)
  {
    && r != "" && r[0] == '/' && (|r| > 1 ==> r[|r| - 1] != '/') && NoDoubleSlash(r) && AllPlain(Components(r))
  }

  predicate NoDoubleSlash(r: string) { forall i :: 0 <= i < |r| - 1 && r[i] == '/' ==> r[i + 1] != '/' }

  // A path written from its front.
  function Front(cs: seq<string>): string
  {
    if cs == [] then "" else "/" + cs[0] + Front(cs[1..])
  }

  lemma {:induction false} FrontPush(cs: seq<string>, c: string)
    ensures Front(cs + [c]) == Front(cs) + "/" + c
  {
    if cs == [] {
      assert [c][1..] == [] && [] + [c] == [c];
    } else {
      assert (cs + [c])[1..] == cs[1..] + [c];
      FrontPush(cs[1..], c);
    }
  }

  lemma {:induction false} SlashedFront(cs: seq<string>)
    ensures Slashed(cs) == Front(cs) + "/"
    ensures Path(cs) == if cs == [] then "/" else Front(cs)
  {
    hide Front, Slashed, Path;
    if cs == [] {
      FrontOfNothing();
      SlashedNothing();
    } else {
      var init, last := cs[..|cs| - 1], cs[|cs| - 1];
      SlashedFront(init);
      FrontPush(init, last);
      assert init + [last] == cs;
      SlashedIs(cs);
    }
  }

  lemma {:induction false} LettersOf(c: string, t: string)
    requires '/' !in c && (t == "" || t[0] == '/')
    ensures Letters(c + t) == |c|
  {
    if c == "" {
      assert c + t == t;
    } else {
      assert (c + t)[1..] == c[1..] + t;
      LettersOf(c[1..], t);
    }
  }

  lemma ComponentsFirst(c: string, t: string)
    requires Component(c) && (t == "" || t[0] == '/')
    ensures Components("/" + c + t) == [c] + Components(t)
  {
    var s, u := "/" + c + t, c + t;
    assert s[1..] == u && u[0] == c[0];
    assert Slashes(s) == 1;
    LettersOf(c, t);
    assert u[..|c|] == c && u[|c|..] == t;
  }

  lemma {:induction false} ComponentsOfFront(cs: seq<string>)
    requires AllComponents(cs)
    ensures Components(Front(cs)) == cs
  {
    if cs != [] {
      ComponentsOfFront(cs[1..]);
      ComponentsFirst(cs[0], Front(cs[1..]));
      assert [cs[0]] + cs[1..] == cs;
    }
  }

  lemma {:induction false} ComponentsAre(s: string)
    ensures AllComponents(Components(s))
    decreases |s|
  {
    hide Slashes, Letters, Trim;
    var t := Trim(s);
    if t != "" {
      var n := Letters(t);
      ComponentsAre(t[n..]);
      assert Component(t[..n]);
    }
  }

  lemma {:induction false} WalkKeepsPlain(stack: seq<string>, cs: seq<string>)
    requires AllPlain(stack) && AllComponents(cs)
    ensures AllPlain(Walk(stack, cs))
    decreases |cs|
  {
    if cs != [] {
      WalkKeepsPlain(Enter(stack, cs[0]), cs[1..]);
    }
  }

  lemma {:induction false} WalkPlain(stack: seq<string>, cs: seq<string>)
    requires AllPlain(cs)
    ensures Walk(stack, cs) == stack + cs
    decreases |cs|
  {
    if cs != [] {
      WalkPlain(stack + [cs[0]], cs[1..]);
      assert stack + [cs[0]] + cs[1..] == stack + cs;
    }
  }

  lemma {:induction false} FrontTidy(cs: seq<string>)
    requires AllPlain(cs) && cs != []
    ensures var r := Front(cs); r != "" && r[0] == '/' && r[|r| - 1] != '/' && NoDoubleSlash(r)
  {
    var c, t := cs[0], Front(cs[1..]);
    if cs[1..] != [] {
      FrontTidy(cs[1..]);
    }
    var r := "/" + c + t;
    assert forall j :: 0 <= j < |c| ==> r[j + 1] == c[j];
    forall i | 0 <= i < |r| - 1 && r[i] == '/'
      ensures r[i + 1] != '/'
    {
      if i == 0 {
        assert r[1] == c[0];
      } else if i >= |c| + 1 {
        assert r[i] == t[i - |c| - 1] && r[i + 1] == t[i - |c|];
      }
    }
    assert t == "" ==> r[|r| - 1] == c[|c| - 1];
  }

  // The result is in canonical form.
  lemma Form(cwd: seq<string>, name: string)
    requires name != "" && AllPlain(cwd)
    ensures IsCanonical(Canonical(cwd, name))
  {
    hide Components, Walk, Slashed;
    var stack := Walk(Start(cwd, name), Components(name));
    ComponentsAre(name);
    WalkKeepsPlain(Start(cwd, name), Components(name));
    SlashedFront(stack);
    if stack == [] {
      RootComponents();
    } else {
      FrontTidy(stack);
      ComponentsOfFront(stack);
    }
  }

  lemma RootComponents()
    ensures Components("/") == []
  {
    assert "/"[1..] == "";
  }

  lemma {:induction false} Rebuild(r: string)
    requires r == "" || (r[0] == '/' && r[|r| - 1] != '/' && NoDoubleSlash(r))
    ensures Front(Components(r)) == r
    decreases |r|
  {
    if r == "" {
      ComponentsAt(r);
    } else {
      hide Components;
      var u := r[1..];
      assert r[1] != '/' && u[0] != '/';
      var n := Letters(u);
      var c, t := u[..n], u[n..];
      assert r == "/" + c + t;
      TailTidy(r, 1 + n);
      assert t == r[1 + n..];
      Rebuild(t);
      ComponentsFirst(c, t);
      assert ([c] + Components(t))[1..] == Components(t);
    }
  }

  lemma TailTidy(r: string, k: nat)
    requires k < |r| ==> NoDoubleSlash(r) && r[|r| - 1] != '/'
    requires k <= |r|
    ensures k < |r| ==> NoDoubleSlash(r[k..]) && r[k..][|r| - k - 1] != '/'
  {
    forall i | 0 <= i < |r[k..]| - 1 && r[k..][i] == '/' && k < |r|
      ensures r[k..][i + 1] != '/'
    {
      assert r[k + i] == '/' && r[k + i + 1] != '/';
    }
  }

  // The names canonicalization leaves alone are exactly the canonical ones, so a second application changes nothing.
  lemma FixedIff(cwd: seq<string>, r: string)
    requires r != "" && AllPlain(cwd)
    ensures Canonical(cwd, r) == r <==> IsCanonical(r)
  {
    hide Components, Walk, Slashed, Front;
    Form(cwd, r);
    if IsCanonical(r) {
      var cs := Components(r);
      WalkPlain([], cs);
      assert [] + cs == cs;
      SlashedFront(cs);
      RootComponents();
      if |r| > 1 {
        Rebuild(r);
        FrontOfNothing();
      } else {
        assert r == "/";
      }
    }
  }

  lemma FrontOfNothing()
    ensures Front([]) == ""
  {
  }

  lemma Idempotent(cwd: seq<string>, name: string)
    requires name != "" && AllPlain(cwd)
    ensures Canonical(cwd, Canonical(cwd, name)) == Canonical(cwd, name)
  {
    Form(cwd, name);
    FixedIff(cwd, Canonical(cwd, name));
  }

  // ----- What "." and ".." do -----

  lemma {:induction false} WalkConcat(stack: seq<string>, a: seq<string>, b: seq<string>)
    ensures Walk(stack, a + b) == Walk(Walk(stack, a), b)
    decreases |a|
  {
    if a == [] {
      assert a + b == b;
    } else {
      assert (a + b)[1..] == a[1..] + b;
      WalkConcat(Enter(stack, a[0]), a[1..], b);
    }
  }

  // A component and the ".." behind it cancel.
  lemma PairCancels(stack: seq<string>, a: seq<string>, c: string, b: seq<string>)
    requires Plain(c)
    ensures Walk(stack, a + [c, ".."] + b) == Walk(stack, a + b)
  {
    var at := Walk(stack, a);
    var down := at + [c];
    assert [c, ".."][1..] == [".."] && [".."][1..] == [];
    assert Walk(at, [c, ".."]) == Walk(down, [".."]) == Walk(Enter(down, ".."), []);
    assert down[..|at|] == at;
    WalkConcat(stack, a, [c, ".."]);
    WalkConcat(stack, a + [c, ".."], b);
    WalkConcat(stack, a, b);
  }

  // ".." stays at the root, and "." stays anywhere.
  lemma Stays(stack: seq<string>, b: seq<string>)
    ensures Walk([], [".."] + b) == Walk([], b)
    ensures Walk(stack, ["."] + b) == Walk(stack, b)
  {
    assert ([".."] + b)[1..] == b && (["."] + b)[1..] == b;
  }

  lemma {:induction false} TrimConcat(a: string, b: string)
    ensures Trim(a) != "" ==> Trim(a + b) == Trim(a) + b
    ensures Trim(a) == "" ==> Trim(a + b) == Trim(b)
  {
    if a != "" && a[0] == '/' {
      assert (a + b)[1..] == a[1..] + b;
      TrimConcat(a[1..], b);
    } else if a == "" {
      assert a + b == b;
    }
  }

  lemma {:induction false} LettersConcat(a: string, b: string)
    requires b == "" || b[0] == '/'
    ensures Letters(a + b) == Letters(a)
  {
    if a == "" {
      assert a + b == b;
    } else {
      assert (a + b)[1..] == a[1..] + b;
      LettersConcat(a[1..], b);
    }
  }

  // A name is read part by part where it is cut at a slash.
  lemma {:induction false} ComponentsConcat(a: string, b: string)
    requires b == "" || b[0] == '/'
    ensures Components(a + b) == Components(a) + Components(b)
    decreases |a|
  {
    hide Components, Letters, Slashes, Trim;
    ComponentsAt(a);
    ComponentsAt(b);
    ComponentsAt(a + b);
    TrimConcat(a, b);
    var t := Trim(a);
    if t != "" {
      var n := Letters(t);
      LettersConcat(t, b);
      assert (t + b)[..n] == t[..n] && (t + b)[n..] == t[n..] + b;
      ComponentsConcat(t[n..], b);
      Assoc([t[..n]], Components(t[n..]), Components(b));
    }
  }

  lemma OneComponent(c: string)
    requires Component(c)
    ensures Components("/" + c) == [c]
  {
    ComponentsFirst(c, "");
    assert "/" + c + "" == "/" + c;
    assert Trim("") == "";
  }

  // A component and the ".." behind it may be left out of a name.
  lemma BackOut(cwd: seq<string>, head: string, c: string, tail: string)
    requires Plain(c) && (tail == "" || tail[0] == '/') && head + tail != ""
    ensures Canonical(cwd, head + ("/" + c) + "/.." + tail) == Canonical(cwd, head + tail)
  {
    hide Components, Walk, Path;
    var longer, shorter := head + ("/" + c) + "/.." + tail, head + tail;
    ComponentsConcat(head, "/" + c);
    ComponentsConcat(head + ("/" + c), "/..");
    ComponentsConcat(head + ("/" + c) + "/..", tail);
    ComponentsConcat(head, tail);
    OneComponent(c);
    OneComponent("..");
    assert Components("/" + "..") == [".."] && "/.." == "/" + "..";
    assert Components(longer) == Components(head) + [c, ".."] + Components(tail);
    PairCancels(Start(cwd, longer), Components(head), c, Components(tail));
    assert longer[0] == shorter[0];
  }

  // So may a ".", and a ".." at the root.
  lemma DotOut(cwd: seq<string>, head: string, tail: string)
    requires (tail == "" || tail[0] == '/') && head + tail != ""
    ensures Canonical(cwd, head + "/." + tail) == Canonical(cwd, head + tail)
    ensures tail != "" ==> Canonical(cwd, "/.." + tail) == Canonical(cwd, tail)
  {
    hide Components, Walk, Path;
    OneComponent(".");
    OneComponent("..");
    assert "/." == "/" + "." && "/.." == "/" + "..";
    ComponentsConcat(head, "/.");
    ComponentsConcat(head + "/.", tail);
    ComponentsConcat(head, tail);
    ComponentsConcat("/..", tail);
    var longer := head + "/." + tail;
    var start := Start(cwd, longer);
    assert Components(longer) == Components(head) + (["."] + Components(tail));
    WalkConcat(start, Components(head), ["."] + Components(tail));
    WalkConcat(start, Components(head), Components(tail));
    Stays(Walk(start, Components(head)), Components(tail));
    assert longer[0] == (head + tail)[0];
  }

  // So may a slash before another, or at the end.
  lemma SlashOut(cwd: seq<string>, head: string, tail: string)
    requires (tail == "" || tail[0] == '/') && head + tail != ""
    ensures Canonical(cwd, head + "/" + tail) == Canonical(cwd, head + tail)
  {
    hide Components, Walk, Path;
    ComponentsConcat(head, "/");
    ComponentsConcat(head + "/", tail);
    ComponentsConcat(head, tail);
    RootComponents();
    assert Components(head) + [] == Components(head);
    assert (head + "/" + tail)[0] == (head + tail)[0];
  }

  // A relative name stands for the current directory, a slash and the name.
  lemma Relative(cwd: seq<string>, name: string, any: seq<string>)
    requires AllPlain(cwd) && name != "" && name[0] != '/'
    ensures Canonical(cwd, name) == Canonical(any, Path(cwd) + "/" + name)
  {
    hide Components, Walk, Path, Slashed, Front;
    var whole := Path(cwd) + "/" + name;
    StartsAtRoot(cwd);
    assert whole == Path(cwd) + ("/" + name) && whole[0] == '/';
    ComponentsConcat(Path(cwd), "/" + name);
    SlashedFront(cwd);
    RootComponents();
    ComponentsOfFront(cwd);
    ComponentsAt("/" + name);
    ComponentsAt(name);
    TrimConcat("/", name);
    assert Trim("/") == "";
    WalkPlain([], cwd);
    assert [] + cwd == cwd;
    WalkConcat([], cwd, Components(name));
  }

  lemma StartsAtRoot(cwd: seq<string>)
    requires AllPlain(cwd)
    ensures Path(cwd)[0] == '/' && Holds(Path(cwd), cwd) && Path([]) == "/"
  {
  }

  lemma EnterIs(stack: seq<string>, c: string)
    ensures Enter(stack, c) ==
      if c == "." then stack
      else if c == ".." then if stack == [] then [] else stack[..|stack| - 1]
      else stack + [c]
  {
  }
}
