// lib/buildcmd.c: command lines under byte and count limits, with fewer arguments tried after E2BIG.
module BuildCmd {
  import opened Wrappers

  // An element of cmd_argv.
  datatype Word = Arg(text: string) | Null

  datatype Control = Control(
    argMax: nat, maxArgCount: nat, argsPerExec: nat, linesPerExec: nat,
    exitIfSizeExceeded: bool, replacePat: Option<string>)

  // Everything but Done is an error that ends the program.
  datatype Status = Done | CannotFit | ListTooLong | CannotExec | CommandTooLong

  const SIZE_MAX := 0xffff_ffff_ffff_ffff

  function Min(a: int, b: int): int { if a < b then a else b }

  function Max(a: int, b: int): int { if a < b then b else a }

  // The arguments an exec'd program sees: everything before the first null pointer.
  function Texts(ws: seq<Word>): (t: seq<string>)
    ensures |t| <= |ws|
    ensures (forall i :: 0 <= i < |ws| ==> ws[i].Arg?) ==>
      |t| == |ws| && forall i :: 0 <= i < |ws| ==> t[i] == ws[i].text
  {
    if ws == [] || ws[0].Null? then [] else [ws[0].text] + Texts(ws[1..])
  }

  lemma {:induction false} TextsUpTo(ws: seq<Word>, n: nat)
    requires n < |ws| && (forall i :: 0 <= i < n ==> ws[i].Arg?) && ws[n].Null?
    ensures |Texts(ws)| == n && forall i :: 0 <= i < n ==> Texts(ws)[i] == ws[i].text
  {
    if n > 0 {
      TextsUpTo(ws[1..], n - 1);
    }
  }

  // ws is the argument list args with its terminating null pointer.
  predicate Terminated(ws: seq<Word>, args: seq<string>)
  {
    |ws| == |args| + 1 && ws[|args|] == Null && forall i :: 0 <= i < |args| ==> ws[i] == Arg(args[i])
  }

  // What one attempt shows the program.
  lemma AttemptTexts(args: seq<string>, ws: seq<Word>, k: nat, done: nat, n: nat)
    requires Terminated(ws, args) && k <= |args| && k + done + n <= |ws|
    ensures Texts(ws[..k] + ws[k + done..k + done + n] + [Null])
      == args[..k] + args[Min(k + done, |args|)..Min(k + done + n, |args|)]
  {
    var argv := ws[..k] + ws[k + done..k + done + n] + [Null];
    var from, end := Min(k + done, |args|), Min(k + done + n, |args|);
    forall i | 0 <= i < k + (end - from)
      ensures argv[i] == Arg((args[..k] + args[from..end])[i])
    {
      if i < k {
        assert argv[i] == ws[i] == Arg(args[i]);
      } else {
        var j := from + (i - k);
        assert argv[i] == ws[j] == Arg(args[j]);
        assert (args[..k] + args[from..end])[i] == args[j];
      }
    }
    assert argv[k + (end - from)] == Null;
    TextsUpTo(argv, k + (end - from));
  }

  // The bytes of the arguments, each with its NUL.
  function Chars(args: seq<string>): (n: nat)
  {
    if args == [] then 0 else |args[0]| + 1 + Chars(args[1..])
  }

  lemma {:induction false} CharsConcat(a: seq<string>, b: seq<string>)
    ensures Chars(a + b) == Chars(a) + Chars(b)
  {
    if a == [] {
      assert a + b == b;
    } else {
      assert (a + b)[1..] == a[1..] + b;
      CharsConcat(a[1..], b);
    }
  }

  lemma {:induction false} CharsSlice(args: seq<string>, k: nat, from: nat, to: nat)
    requires k <= from <= to <= |args|
    ensures Chars(args[..k] + args[from..to]) <= Chars(args)
  {
    assert args == args[..k] + (args[k..from] + (args[from..to] + args[to..]));
    CharsConcat(args[..k], args[k..from] + (args[from..to] + args[to..]));
    CharsConcat(args[k..from], args[from..to] + args[to..]);
    CharsConcat(args[from..to], args[to..]);
    CharsConcat(args[..k], args[from..to]);
  }

  // The arguments after the first k of each command, end to end.
  function Blocks(commands: seq<seq<string>>, k: nat): seq<string>
  {
    if commands == [] then []
    else
      var last := commands[|commands| - 1];
      Blocks(commands[..|commands| - 1], k) + (if k <= |last| then last[k..] else [])
  }

  lemma BlocksPush(commands: seq<seq<string>>, c: seq<string>, k: nat)
    requires k <= |c|
    ensures Blocks(commands + [c], k) == Blocks(commands, k) + c[k..]
  {
    assert (commands + [c])[..|commands|] == commands;
  }

  lemma {:induction false} BlocksConcat(a: seq<seq<string>>, b: seq<seq<string>>, k: nat)
    ensures Blocks(a + b, k) == Blocks(a, k) + Blocks(b, k)
    decreases |b|
  {
    if b == [] {
      assert a + b == a;
      assert Blocks(a, k) + [] == Blocks(a, k);
    } else {
      var n := |b| - 1;
      assert (a + b)[..|a + b| - 1] == a + b[..n];
      BlocksConcat(a, b[..n], k);
      var last := if k <= |b[n]| then b[n][k..] else [];
      assert Blocks(a, k) + (Blocks(b[..n], k) + last) == Blocks(a, k) + Blocks(b[..n], k) + last;
    }
  }

  // update_limit on the two persistent marks; a success raises the limit, a failure lowers it.
  function NewLimit(success: bool, limit: nat, largest: nat, smallest: nat): int
  {
    if largest == 0 || smallest <= largest then
      if !success then limit / 2 else if limit < SIZE_MAX then limit + 1 else limit
    else
      var shift := (smallest - largest) / 2;
      if success then limit + (if shift != 0 then shift else 1) else limit - (if shift != 0 then shift else 1)
  }

  // Until a success is known each failure halves the limit; until a failure is known each success raises it by one. Once
  // both are known the next limit lies strictly between them, until they are neighbours; then it is the failed one after
  // a success, and the successful one after a failure.
  lemma Bisects(largest: nat, smallest: nat)
    requires 0 < largest < smallest
    ensures largest < SIZE_MAX ==> NewLimit(true, largest, largest, 0) == largest + 1
    ensures 2 * NewLimit(false, smallest, 0, smallest) <= smallest <= 2 * NewLimit(false, smallest, 0, smallest) + 1
    ensures var up, down := NewLimit(true, largest, largest, smallest), NewLimit(false, smallest, largest, smallest);
      if smallest - largest == 1 then up == smallest && down == largest
      else largest < up < smallest && largest < down < smallest && up <= down
  {
    var shift := (smallest - largest) / 2;
    assert 2 * shift <= smallest - largest;
  }

  // What every launched command is: the initial arguments and then some of the pending ones.
  predicate Launched(c: seq<string>, initial: seq<string>, pending: seq<string>)
  {
    && |initial| <= |c| <= |initial| + |pending| && c[..|initial|] == initial
    && (pending != [] ==> |c| > |initial|) && Chars(c) <= Chars(initial + pending)
  }

  predicate AllLaunched(cs: seq<seq<string>>, initial: seq<string>, pending: seq<string>)
  {
    forall i :: 0 <= i < |cs| ==> Launched(cs[i], initial, pending)
  }

  lemma Rejoin<T>(a: seq<T>, b: seq<T>, c: seq<T>)
    requires b <= c
    ensures a + b + c[|b|..] == a + c
  {
  }

  predicate AllPrefixed(cs: seq<seq<string>>, initial: seq<string>)
  {
    forall i :: 0 <= i < |cs| ==> initial <= cs[i]
  }

  // Every command obeys max_arg_count, arg_max and args_per_exec; k is the number of initial arguments.
  predicate AllWithin(cs: seq<seq<string>>, ctl: Control, k: nat)
  {
    forall i :: 0 <= i < |cs| ==>
      && |cs[i]| <= ctl.maxArgCount && Chars(cs[i]) <= ctl.argMax
      && (ctl.argsPerExec != 0 ==> |cs[i]| - k <= ctl.argsPerExec)
  }

  // Every command has an argument besides the first k.
  predicate AllLonger(cs: seq<seq<string>>, k: nat)
  {
    forall i :: 0 <= i < |cs| ==> |cs[i]| > k
  }

  // As many words as max_arg_count, or as many besides the first k as args_per_exec.
  predicate CountFull(c: seq<string>, ctl: Control, k: nat)
  {
    |c| == ctl.maxArgCount || (ctl.argsPerExec != 0 && |c| - k == ctl.argsPerExec)
  }

  // One more argument would not have gone into the command c; with -x and -n or -L only the count may end a command.
  predicate NoRoom(c: seq<string>, arg: string, ctl: Control, k: nat)
  {
    || CountFull(c, ctl, k)
    || (Chars(c) + |arg| + 1 > ctl.argMax && !(ctl.exitIfSizeExceeded && (ctl.linesPerExec != 0 || ctl.argsPerExec != 0)))
  }

  // Of two neighbouring commands the first had no room for the first argument of the second.
  predicate Packed(cs: seq<seq<string>>, ctl: Control, k: nat)
  {
    forall i :: 0 <= i < |cs| - 1 ==>
      if |cs[i + 1]| > k then NoRoom(cs[i], cs[i + 1][k], ctl, k) else CountFull(cs[i], ctl, k)
  }

  // The same, and so for the arguments pending.
  predicate Packing(cs: seq<seq<string>>, pending: seq<string>, ctl: Control, k: nat)
  {
    && Packed(cs, ctl, k)
    && (cs != [] ==>
          if pending != [] then NoRoom(cs[|cs| - 1], pending[0], ctl, k) else CountFull(cs[|cs| - 1], ctl, k))
  }

  predicate Over(initial: seq<string>, pending: seq<string>, arg: string, ctl: Control)
  {
    Chars(initial + pending) + |arg| + 1 > ctl.argMax
  }

  // What storing arg does to the pending arguments when every command is launched: those it does not fit behind are
  // run before it, and those it fills the list with are run with it.
  predicate Batch(news: seq<seq<string>>, initial: seq<string>, pending: seq<string>, arg: string, after: seq<string>,
                  ctl: Control)
  {
    var over := Over(initial, pending, arg, ctl);
    var args := if over then [arg] else pending + [arg];
    var full := CountFull(initial + args, ctl, |initial|);
    && (over ==> pending != [] && !(ctl.exitIfSizeExceeded && (ctl.linesPerExec != 0 || ctl.argsPerExec != 0)))
    && news == (if over then [initial + pending] else []) + (if full then [initial + args] else [])
    && after == if full then [] else args
  }

  // The two halves of bc_push_arg.
  lemma Together(so: seq<seq<string>>, news: seq<seq<string>>, initial: seq<string>, pending: seq<string>, arg: string,
                 after: seq<string>, ctl: Control)
    requires "" + arg == arg
    ensures
      var over := Over(initial, pending, arg, ctl);
      var args := (if over then [] else pending) + [arg];
      var full := CountFull(initial + args, ctl, |initial|);
      && (over ==> pending != [] && !(ctl.exitIfSizeExceeded && (ctl.linesPerExec != 0 || ctl.argsPerExec != 0)))
      && so == (if over then [initial + pending] else [])
      && news == (if full then so + [initial + args] else so)
      && after == (if full then [] else args)
      ==> Batch(news, initial, pending, arg, after, ctl)
  {
    hide Over, CountFull;
    assert [] + [arg] == [arg];
    assert so + [] == so;
  }

  lemma PackedPush(cs: seq<seq<string>>, c: seq<string>, ctl: Control, k: nat)
    requires Packed(cs, ctl, k)
    requires cs != [] ==>
      if |c| > k then NoRoom(cs[|cs| - 1], c[k], ctl, k) else CountFull(cs[|cs| - 1], ctl, k)
    ensures Packed(cs + [c], ctl, k)
  {
    hide NoRoom, CountFull;
  }

  // The pending arguments are run.
  lemma PackedRun(cs: seq<seq<string>>, initial: seq<string>, pending: seq<string>, ctl: Control)
    requires Packing(cs, pending, ctl, |initial|)
    ensures Packed(cs + [initial + pending], ctl, |initial|)
  {
    hide NoRoom, CountFull, Packed;
    if pending != [] { assert (initial + pending)[|initial|] == pending[0]; }
    PackedPush(cs, initial + pending, ctl, |initial|);
  }

  lemma RunOver(cs: seq<seq<string>>, initial: seq<string>, pending: seq<string>, arg: string, ctl: Control)
    requires Packing(cs, pending, ctl, |initial|) && Over(initial, pending, arg, ctl)
    requires !(ctl.exitIfSizeExceeded && (ctl.linesPerExec != 0 || ctl.argsPerExec != 0))
    ensures Packing(cs + [initial + pending], [arg], ctl, |initial|)
  {
    hide Packed, Chars, CountFull;
    PackedRun(cs, initial, pending, ctl);
  }

  lemma RunFull(cs: seq<seq<string>>, initial: seq<string>, pending: seq<string>, ctl: Control)
    requires Packing(cs, pending, ctl, |initial|) && CountFull(initial + pending, ctl, |initial|)
    ensures Packing(cs + [initial + pending], [], ctl, |initial|)
  {
    hide Packed, Chars, CountFull;
    PackedRun(cs, initial, pending, ctl);
  }

  lemma KeepMore(cs: seq<seq<string>>, pending: seq<string>, arg: string, ctl: Control, k: nat)
    requires Packing(cs, pending, ctl, k)
    ensures Packing(cs, pending + [arg], ctl, k)
  {
    hide Packed, Chars, CountFull;
  }

  // So the commands stay packed.
  lemma BatchPacks(cs: seq<seq<string>>, news: seq<seq<string>>, initial: seq<string>, pending: seq<string>, arg: string,
                   after: seq<string>, ctl: Control)
    requires Packing(cs, pending, ctl, |initial|) && Batch(news, initial, pending, arg, after, ctl)
    ensures Packing(cs + news, after, ctl, |initial|)
  {
    hide Packing, Over, CountFull;
    var over := Over(initial, pending, arg, ctl);
    var args := if over then [arg] else pending + [arg];
    var so := if over then cs + [initial + pending] else cs;
    if over { RunOver(cs, initial, pending, arg, ctl); } else { KeepMore(cs, pending, arg, ctl, |initial|); }
    if CountFull(initial + args, ctl, |initial|) {
      RunFull(so, initial, args, ctl);
      assert cs + news == so + [initial + args];
    } else {
      assert cs + news == so;
    }
  }

  lemma OneBlock(c: seq<string>, k: nat)
    requires k <= |c|
    ensures Blocks([c], k) == c[k..]
  {
    assert [c][..0] == [] && Blocks([], k) == [];
  }

  // One command for all that was pending.
  lemma OneCommand(news: seq<seq<string>>, initial: seq<string>, pending: seq<string>)
    requires |news| == 1 && AllLaunched(news, initial, pending) && Blocks(news, |initial|) == pending
    ensures news == [initial + pending]
  {
    hide Launched, Blocks;
    assert news == [news[0]];
    WholeCommand(news[0], initial, pending);
  }

  lemma WholeCommand(c: seq<string>, initial: seq<string>, pending: seq<string>)
    requires Launched(c, initial, pending) && Blocks([c], |initial|) == pending
    ensures c == initial + pending
  {
    hide Chars, Blocks;
    OneBlock(c, |initial|);
    assert c == c[..|initial|] + c[|initial|..];
  }

  lemma BothConcat(a: seq<seq<string>>, b: seq<seq<string>>, ctl: Control, initial: seq<string>)
    ensures AllPrefixed(a, initial) && AllPrefixed(b, initial) ==> AllPrefixed(a + b, initial)
    ensures AllWithin(a, ctl, |initial|) && AllWithin(b, ctl, |initial|) ==> AllWithin(a + b, ctl, |initial|)
  {
  }

  class Builder {
    const ctl: Control
    // Whether the exec callback launches its argv; the calls are numbered, so any behaviour is covered.
    const accepts: (nat, seq<Word>) -> bool

    var initialArgc: nat
    var cmdArgv: seq<Word>
    var argvChars: nat
    var initialChars: nat
    var todo: bool
    var largest: nat
    var smallest: nat

    // The exec callback's calls, and the commands it launched.
    var attempts: nat
    var commands: seq<seq<string>>

    // bc_init_state.
    constructor (ctl: Control, accepts: (nat, seq<Word>) -> bool)
      ensures this.ctl == ctl && this.accepts == accepts && Valid() && cmdArgv == [] && commands == []
      ensures initialArgc == 0 && argvChars == 0 && initialChars == 0
    {
      this.ctl, this.accepts := ctl, accepts;
      initialArgc, cmdArgv, argvChars, initialChars := 0, [], 0, 0;
      todo, largest, smallest, attempts, commands := false, 0, 0, 0, [];
    }

    ghost predicate Valid()
      reads `initialArgc, `cmdArgv, `argvChars, `initialChars
    {
      && initialArgc <= |cmdArgv| && (forall i :: 0 <= i < |cmdArgv| ==> cmdArgv[i].Arg?)
      && Chars(Texts(cmdArgv)) <= argvChars && Chars(Texts(cmdArgv)[..initialArgc]) <= initialChars
    }

    // The bytes are counted exactly.
    ghost predicate Exact()
      reads `initialArgc, `cmdArgv, `argvChars, `initialChars
      requires Valid()
    {
      argvChars == Chars(Texts(cmdArgv)) && initialChars == Chars(InitialArgs())
    }

    ghost function InitialArgs(): seq<string>
      reads `initialArgc, `cmdArgv, `argvChars, `initialChars
      requires Valid()
    {
      Texts(cmdArgv)[..initialArgc]
    }

    ghost function Pending(): seq<string>
      reads `initialArgc, `cmdArgv, `argvChars, `initialChars
      requires Valid()
    {
      Texts(cmdArgv)[initialArgc..]
    }

    // exec_callback.
    method Exec(argv: seq<Word>) returns (ok: bool)
      modifies `attempts, `commands
      ensures ok == accepts(old(attempts), argv)
      ensures commands == if ok then old(commands) + [Texts(argv)] else old(commands)
    {
      ok := accepts(attempts, argv);
      attempts := attempts + 1;
      if ok { commands := commands + [Texts(argv)]; }
    }

    method UpdateLimit(success: bool, limit: nat) returns (r: nat)
      requires success || limit > initialArgc + 1
      modifies `largest, `smallest
      ensures largest == if success && limit > old(largest) then limit else old(largest)
      ensures smallest == if !success && (limit < old(smallest) || old(smallest) == 0) then limit else old(smallest)
      ensures r == Max(NewLimit(success, limit, largest, smallest), initialArgc + 1)
      ensures !success ==> r < limit
    {
      if success {
        if limit > largest { largest := limit; }
      } else {
        if limit < smallest || smallest == 0 { smallest := limit; }
      }
      var n := NewLimit(success, limit, largest, smallest);
      if initialArgc != 0 && n <= initialArgc + 1 { n := initialArgc + 1; }
      if n == 0 { n := 1; }
      r := n;
    }

    // copy_args: the initial arguments, then from the ones not yet done up to limit in all, then a null pointer.
    method CopyArgs(working: array<Word>, limit: nat, done: nat) returns (dst: nat)
      requires initialArgc + done < |cmdArgv| < working.Length && limit > initialArgc
      modifies working
      ensures var n := Min(limit - initialArgc, |cmdArgv| - initialArgc - done);
        && 0 < n && dst == initialArgc + n < working.Length && working[dst] == Null
        && working[..dst] == cmdArgv[..initialArgc] + cmdArgv[initialArgc + done..initialArgc + done + n]
    {
      dst := CopyInitial(working);
      var src := dst + done;
      while src < |cmdArgv| && dst < limit
        invariant initialArgc <= dst <= limit && src == dst + done <= |cmdArgv|
        invariant working[..dst] == cmdArgv[..initialArgc] + cmdArgv[initialArgc + done..src]
      {
        ghost var copied := working[..dst];
        working[dst] := cmdArgv[src];
        assert working[..dst + 1] == copied + [cmdArgv[src]];
        Longer(initialArgc + done, src, copied, cmdArgv[..initialArgc]);
        dst, src := dst + 1, src + 1;
      }
      working[dst] := Null;
    }

    // One more argument copied behind the initial ones.
    lemma Longer(from: nat, src: nat, copied: seq<Word>, first: seq<Word>)
      requires from <= src < |cmdArgv| && copied == first + cmdArgv[from..src]
      ensures copied + [cmdArgv[src]] == first + cmdArgv[from..src + 1]
    {
      assert cmdArgv[from..src + 1] == cmdArgv[from..src] + [cmdArgv[src]];
      Assoc(first, cmdArgv[from..src], [cmdArgv[src]]);
    }

    method CopyInitial(working: array<Word>) returns (dst: nat)
      requires initialArgc <= |cmdArgv| < working.Length
      modifies working
      ensures dst == initialArgc && working[..dst] == cmdArgv[..initialArgc]
    {
      dst := 0;
      while dst < initialArgc
        invariant dst <= initialArgc && working[..dst] == cmdArgv[..dst]
      {
        working[dst] := cmdArgv[dst];
        dst := dst + 1;
      }
    }

    // bc_clear_args.
    method ClearArgs()
      requires initialArgc <= |cmdArgv|
      modifies `cmdArgv, `argvChars, `todo
      ensures cmdArgv == old(cmdArgv)[..initialArgc] && argvChars == initialChars && !todo
    {
      cmdArgv := cmdArgv[..initialArgc];
      argvChars := initialChars;
      todo := false;
    }

    // bc_args_complete: bc_push_arg with the terminating argument tests no limit.
    method ArgsComplete()
      modifies `cmdArgv, `todo
      ensures cmdArgv == old(cmdArgv) + [Null] && todo
    {
      todo := true;
      cmdArgv := cmdArgv + [Null];
    }

    // The state of bc_do_exec between two calls of copy_args.
    ghost predicate Under(args: seq<string>, done: nat, before: seq<seq<string>>, news: seq<seq<string>>)
      reads `initialArgc, `cmdArgv, `commands
    {
      && initialArgc <= |args| && |cmdArgv| == |args| + 1 && initialArgc + done <= |cmdArgv|
      && Terminated(cmdArgv, args)
      && commands == before + news && AllLaunched(news, args[..initialArgc], args[initialArgc..])
      && Blocks(news, initialArgc) == args[initialArgc..Min(initialArgc + done, |args|)]
    }

    // The callback launches whatever it is given.
    ghost predicate AllAccepted() { forall i, w :: accepts(i, w) }

    // One call of copy_args and one of the callback.
    method Attempt(working: array<Word>, limit: nat, done: nat, ghost args: seq<string>) returns (ok: bool, dst: nat)
      requires Terminated(cmdArgv, args) && initialArgc <= |args| && limit > initialArgc
      requires initialArgc + done < |cmdArgv| < working.Length
      modifies working, `attempts, `commands
      ensures initialArgc < dst <= limit && dst + done <= |args| + 1
      ensures dst == limit || dst + done == |args| + 1
      ensures ok ==>
        var block := args[Min(initialArgc + done, |args|)..Min(dst + done, |args|)];
        commands == old(commands) + [args[..initialArgc] + block]
      ensures AllAccepted() ==> ok
      ensures !ok ==> commands == old(commands) && exists i, w: seq<Word> :: |w| <= dst + 1 && !accepts(i, w)
      ensures limit >= |cmdArgv| && done == 0 ==> dst == |cmdArgv|
    {
      hide Terminated, Texts;
      assert |cmdArgv| == |args| + 1 by { TerminatedLength(cmdArgv, args); }
      dst := CopyArgs(working, limit, done);
      var argv := working[..dst + 1];
      ghost var n := dst - initialArgc;
      assert argv == working[..dst] + [Null];
      AttemptTexts(args, cmdArgv, initialArgc, done, n);
      ghost var call := attempts;
      ok := Exec(argv);
      assert !ok ==> |argv| <= dst + 1 && !accepts(call, argv);
    }

    // One turn of the loop of bc_do_exec.
    method ExecOnce(working: array<Word>, limit: nat, done: nat, ghost args: seq<string>,
                    ghost before: seq<seq<string>>, ghost news: seq<seq<string>>)
        returns (status: Status, limit': nat, done': nat, ghost news': seq<seq<string>>)
      requires Under(args, done, before, news) && initialArgc + done < |cmdArgv| < working.Length && limit > initialArgc
      requires done == 0 || initialArgc + done < |args|
      modifies working, `attempts, `commands, `largest, `smallest
      ensures status == Done || status == CannotExec
      ensures status == Done ==> Under(args, done', before, news') && limit' > initialArgc
      ensures AllAccepted() && done == 0 && limit >= |cmdArgv| ==>
        status == Done && done' == |cmdArgv| - initialArgc && |news'| == |news| + 1
      ensures status == Done ==>
        (done' > done && |news'| == |news| + 1) || (done' == done && initialArgc + 1 < limit && limit' < limit && news' == news)
      ensures status == CannotExec ==> exists i, w: seq<Word> :: |w| <= initialArgc + 2 && !accepts(i, w)
    {
      hide Blocks, AllLaunched, Terminated, AllAccepted;
      var ok, dst := Attempt(working, limit, done, args);
      if ok {
        NewCommand(args, initialArgc, done, dst - initialArgc, news);
        news' := news + [commands[|commands| - 1]];
        limit' := UpdateLimit(true, limit);
        done' := done + (dst - initialArgc);
        status := Done;
      } else if limit <= initialArgc + 1 {
        status, limit', done', news' := CannotExec, limit, done, news;
      } else {
        limit' := UpdateLimit(false, limit);
        status, done', news' := Done, done, news;
      }
    }

    // The loop of bc_do_exec, over a list args that has its terminating null pointer.
    method Attempts(ghost args: seq<string>) returns (status: Status, ghost news: seq<seq<string>>)
      requires Terminated(cmdArgv, args) && initialArgc <= |args|
      modifies `attempts, `commands, `largest, `smallest
      ensures status == Done || status == CannotExec
      ensures status == Done ==> commands == old(commands) + news && news != []
      ensures status == Done ==>
        AllLaunched(news, args[..initialArgc], args[initialArgc..]) && Blocks(news, initialArgc) == args[initialArgc..]
      ensures status == CannotExec ==> exists i, w: seq<Word> :: |w| <= initialArgc + 2 && !accepts(i, w)
      ensures AllAccepted() ==> status == Done && |news| == 1
      ensures status == Done && |args| == initialArgc ==> |news| == 1
    {
      hide Blocks, AllLaunched, AllAccepted, Terminated, Under;
      ghost var before := commands;
      TerminatedLength(cmdArgv, args);
      var working := new Word[1 + |cmdArgv|];
      var done: nat, limit: nat := 0, |cmdArgv|;
      var first := true;
      news := [];
      UnderStart(args);
      while first || done + 1 < |cmdArgv| - initialArgc
        invariant Under(args, done, before, news) && limit > initialArgc && |cmdArgv| < working.Length
        invariant first ==> done == 0 && limit == |cmdArgv| && news == []
        invariant AllAccepted() && !first ==> done == |cmdArgv| - initialArgc && |news| == 1
        invariant !first && news == [] ==> done == 0 && |args| > initialArgc
        invariant !first && |args| == initialArgc ==> |news| == 1
        decreases |cmdArgv| - initialArgc - done, limit, first
      {
        first := false;
        status, limit, done, news := ExecOnce(working, limit, done, args, before, news);
        if status != Done { return; }
      }
      UnderEnd(args, done, before, news);
      status := Done;
    }

    lemma UnderStart(args: seq<string>)
      requires Terminated(cmdArgv, args) && initialArgc <= |args|
      ensures Under(args, 0, commands, [])
    {
      hide Blocks, AllLaunched;
      NoCommands(args[..initialArgc], args[initialArgc..]);
    }

    lemma UnderEnd(args: seq<string>, done: nat, before: seq<seq<string>>, news: seq<seq<string>>)
      requires Under(args, done, before, news) && done + 1 >= |cmdArgv| - initialArgc
      ensures commands == before + news && AllLaunched(news, args[..initialArgc], args[initialArgc..])
      ensures Blocks(news, initialArgc) == args[initialArgc..]
    {
      hide Blocks, AllLaunched, Terminated;
      assert args[initialArgc..Min(initialArgc + done, |args|)] == args[initialArgc..];
    }

    // bc_do_exec: on success the commands' blocks are the pending arguments, each once and in order.
    method DoExec() returns (status: Status, ghost news: seq<seq<string>>)
      requires Valid()
      modifies `cmdArgv, `argvChars, `todo, `attempts, `commands, `largest, `smallest
      ensures status == Done || status == CannotExec
      ensures status == Done ==> Valid() && cmdArgv == old(cmdArgv)[..initialArgc] && argvChars == initialChars && !todo
      ensures status == Done ==> commands == old(commands) + news && news != []
      ensures status == Done ==>
        AllLaunched(news, old(InitialArgs()), old(Pending())) && Blocks(news, initialArgc) == old(Pending())
      ensures status == CannotExec ==> exists i, w: seq<Word> :: |w| <= initialArgc + 2 && !accepts(i, w)
      ensures AllAccepted() || (status == Done && old(Pending()) == []) ==>
        status == Done && news == [old(InitialArgs()) + old(Pending())]
    {
      hide Blocks, Chars, AllLaunched, AllAccepted;
      ghost var args := Texts(cmdArgv);
      ArgsComplete();
      assert Terminated(cmdArgv, args);
      status, news := Attempts(args);
      if status != Done { return; }
      if |news| == 1 { OneCommand(news, args[..initialArgc], args[initialArgc..]); }
      ClearArgs();
      assert cmdArgv == old(cmdArgv)[..initialArgc] && Texts(cmdArgv) == args[..initialArgc];
      assert Texts(cmdArgv)[..initialArgc] == Texts(cmdArgv);
    }

    // bc_argc_limit_reached for a list of argc arguments.
    predicate LimitReached(argc: nat, initial: bool)
      reads `initialArgc
    {
      (!initial && ctl.argsPerExec != 0 && argc - initialArgc == ctl.argsPerExec) || argc == ctl.maxArgCount
    }

    // An argument of len bytes can be stored as the list is.
    predicate Ready(len: nat, initial: bool)
      reads `initialArgc, `cmdArgv, `argvChars
    {
      argvChars + len <= ctl.argMax && !LimitReached(|cmdArgv|, initial)
    }

    // The list is within every limit, and one more argument may be counted without overstepping one.
    predicate AtRest()
      reads `initialArgc, `cmdArgv, `argvChars, `initialChars
    {
      && initialArgc <= |cmdArgv| < ctl.maxArgCount && argvChars <= ctl.argMax
      && (ctl.argsPerExec != 0 ==> |cmdArgv| - initialArgc < ctl.argsPerExec)
      && (|cmdArgv| == initialArgc ==> argvChars == initialChars)
      && initialChars + (|cmdArgv| - initialArgc) <= argvChars
    }

    // The list is within every limit.
    predicate Full()
      reads `initialArgc, `cmdArgv, `argvChars, `initialChars
    {
      && argvChars <= ctl.argMax && |cmdArgv| <= ctl.maxArgCount
      && (ctl.argsPerExec != 0 ==> |cmdArgv| - initialArgc <= ctl.argsPerExec)
    }

    // A list that a new argument of len bytes does not fit, and that may not be split.
    predicate Unsplittable(len: nat, initial: bool)
      reads `initialArgc, `cmdArgv, `argvChars, `initialChars
    {
      && argvChars + len > ctl.argMax && !initial && |cmdArgv| > initialArgc
      && (ctl.replacePat.Some? || (ctl.exitIfSizeExceeded && (ctl.linesPerExec != 0 || ctl.argsPerExec != 0)))
    }

    // bc_do_exec again, with what its callers need: where the arguments went, and within which limits.
    method Flush() returns (status: Status, ghost news: seq<seq<string>>)
      requires Valid()
      modifies this
      ensures initialArgc == old(initialArgc) && initialChars == old(initialChars)
      ensures status == Done || status == CannotExec
      ensures status == Done ==> Valid() && InitialArgs() == old(InitialArgs()) && Pending() == []
      ensures status == Done ==> |cmdArgv| == initialArgc && argvChars == initialChars
      ensures status == Done ==> commands == old(commands) + news && news != []
      ensures status == Done ==> Blocks(news, initialArgc) == old(Pending()) && AllPrefixed(news, InitialArgs())
      ensures status == Done && old(Full()) ==> AllWithin(news, ctl, initialArgc)
      ensures status == CannotExec ==> exists i, w: seq<Word> :: |w| <= initialArgc + 2 && !accepts(i, w)
      ensures AllAccepted() || (status == Done && old(Pending()) == []) ==>
        status == Done && news == [old(InitialArgs()) + old(Pending())]
      ensures status == Done && old(Pending()) != [] ==> AllLonger(news, initialArgc)
      ensures status == Done && old(Exact()) ==> Exact()
    {
      hide Blocks, Chars;
      ghost var args := Texts(cmdArgv);
      assert args[..initialArgc] + args[initialArgc..] == args;
      status, news := DoExec();
      if status == Done {
        assert Texts(cmdArgv) == args[..initialArgc];
        assert Texts(cmdArgv)[..initialArgc] == Texts(cmdArgv);
      }
    }

    // The head of bc_push_arg: errors, and up to two flushes, before an argument of len bytes is stored.
    method MakeRoom(len: nat, initial: bool, ghost arg: string) returns (status: Status, ghost news: seq<seq<string>>)
      requires Valid()
      modifies this
      ensures initialArgc == old(initialArgc) && initialChars == old(initialChars)
      ensures status == CannotFit <==> old(argvChars + len > ctl.argMax && (initial || |cmdArgv| == initialArgc))
      ensures status == ListTooLong <==> old(Unsplittable(len, initial))
      ensures status != CommandTooLong
      ensures status == CannotExec ==> exists i, w: seq<Word> :: |w| <= initialArgc + 2 && !accepts(i, w)
      ensures old(Ready(len, initial)) ==> status == Done
      ensures status == Done ==> Valid() && InitialArgs() == old(InitialArgs())
      ensures status == Done ==> commands == old(commands) + news && AllPrefixed(news, InitialArgs())
      ensures status == Done ==> Blocks(news, initialArgc) + Pending() == old(Pending())
      ensures status == Done ==> (news == [] <==> old(Ready(len, initial)))
      ensures status == Done ==>
        if news == [] then cmdArgv == old(cmdArgv) && argvChars == old(argvChars)
        else |cmdArgv| == initialArgc && argvChars == initialChars
      ensures status == Done ==> Pending() == if news == [] then old(Pending()) else []
      ensures status == Done && old(AtRest()) ==> AllWithin(news, ctl, initialArgc)
      ensures status == Done && old(AtRest()) && !initial ==>
        AllLonger(news, initialArgc) && (initialChars + len <= ctl.argMax ==> AtRest() && argvChars + len <= ctl.argMax)
      ensures AllAccepted() && status == Done && !initial && old(AtRest() && Exact()) && len == |arg| + 1 ==>
        && Exact()
        && (Over(old(InitialArgs()), old(Pending()), arg, ctl) ==>
              old(Pending()) != [] && !(ctl.exitIfSizeExceeded && (ctl.linesPerExec != 0 || ctl.argsPerExec != 0)))
        && news == if Over(old(InitialArgs()), old(Pending()), arg, ctl) then [old(InitialArgs()) + old(Pending())] else []
    {
      hide Blocks, Chars, Texts, AllWithin, AllPrefixed, AllAccepted;
      NoBlocks(ctl, InitialArgs());
      Counts();
      if !initial { todo := true; }
      status, news := Done, [];
      if argvChars + len > ctl.argMax {
        if initial || |cmdArgv| == initialArgc { return CannotFit, []; }
        if ctl.replacePat.Some? || (ctl.exitIfSizeExceeded && (ctl.linesPerExec != 0 || ctl.argsPerExec != 0)) {
          return ListTooLong, [];
        }
        status, news := Flush();
        if status != Done { return; }
      }
      if LimitReached(|cmdArgv|, initial) {
        status, news := FlushMore(news);
        if status != Done { return; }
      }
    }

    // bc_push_arg.
    method PushArg(arg: string, len: nat, prefix: Option<string>, initial: bool)
        returns (status: Status, ghost news: seq<seq<string>>)
      requires Valid() && len > |arg|
      modifies this
      ensures initialArgc == old(initialArgc)
      ensures status == CannotFit <==> old(argvChars + len > ctl.argMax && (initial || |cmdArgv| == initialArgc))
      ensures status == ListTooLong <==> old(Unsplittable(len, initial))
      ensures status != CommandTooLong
      ensures status == CannotExec ==> exists i, w: seq<Word> :: |w| <= initialArgc + 2 && !accepts(i, w)
      ensures status == Done ==> Valid() && InitialArgs() == old(InitialArgs())
      ensures status == Done ==> commands == old(commands) + news && AllPrefixed(news, InitialArgs())
      ensures status == Done ==>
        Blocks(news, initialArgc) + Pending() == old(Pending()) + [(if prefix.Some? then prefix.value else "") + arg]
      ensures old(Ready(len, initial)) ==>
        && (!LimitReached(old(|cmdArgv|) + 1, initial) ==> status == Done)
        && (status == Done ==> (news == [] <==> !LimitReached(old(|cmdArgv|) + 1, initial)))
        && (status == Done && news != [] ==> |cmdArgv| == initialArgc && argvChars == old(initialChars))
      ensures status == Done && news == [] ==> |cmdArgv| == old(|cmdArgv|) + 1
      ensures !initial ==> initialChars == old(initialChars)
      ensures status == Done && initial ==> initialChars == argvChars
      ensures status == Done && news == [] && prefix.None? ==> argvChars == old(argvChars) + len
      ensures status == Done && !initial && prefix.None? && old(AtRest()) && old(initialChars) + len <= ctl.argMax ==>
        AtRest() && AllWithin(news, ctl, initialArgc)
      ensures status == Done && !initial && old(AtRest()) ==> AllLonger(news, initialArgc)
      ensures status == Done && !initial && old(AtRest()) ==>
        (news == [] <==>
          && old(argvChars) + len <= ctl.argMax && old(|cmdArgv|) + 1 < ctl.maxArgCount
          && (ctl.argsPerExec == 0 || old(|cmdArgv|) + 1 - initialArgc < ctl.argsPerExec))
      ensures AllAccepted() && status == Done && !initial && prefix.None? && len == |arg| + 1 && old(AtRest() && Exact()) ==>
        Exact() && Batch(news, old(InitialArgs()), old(Pending()), arg, Pending(), ctl)
    {
      hide Blocks, Chars, Texts, AllWithin, AllPrefixed, AllLonger, AllAccepted, Over, CountFull, Exact;
      hide AtRest, Ready, LimitReached;
      ghost var first, held := InitialArgs(), Pending();
      Counts();
      if AtRest() { Rests(len); }
      status, news := MakeRoom(len, initial, arg);
      if status != Done { return; }
      ghost var so, pending := news, Pending();
      var text := (if prefix.Some? then prefix.value else "") + arg;
      status, news := Append(text, len + if prefix.Some? then |prefix.value| else 0, initial, so);
      if status == Done {
        assert commands == old(commands) + news by { Rejoin(old(commands), so, news); }
        assert Blocks(news, initialArgc) + Pending() == held + [text] by { Assoc(Blocks(so, initialArgc), pending, [text]); }
        if initial { Mark(); } else if prefix.None? { Together(so, news, first, held, arg, Pending(), ctl); }
      }
    }

    lemma Counts()
      requires Valid()
      ensures |InitialArgs()| == initialArgc && |Pending()| == |cmdArgv| - initialArgc
      ensures Exact() ==> argvChars == Chars(InitialArgs() + Pending())
    {
      assert InitialArgs() + Pending() == Texts(cmdArgv);
    }

    // The tests of bc_push_arg on a list at rest.
    lemma Rests(len: nat)
      requires AtRest()
      ensures Ready(len, false) <==> argvChars + len <= ctl.argMax
      ensures !LimitReached(|cmdArgv| + 1, false) <==>
        |cmdArgv| + 1 < ctl.maxArgCount && (ctl.argsPerExec == 0 || |cmdArgv| + 1 - initialArgc < ctl.argsPerExec)
    {
    }

    // The tail of bc_push_arg: store the argument, and run the command if that fills the list.
    method Append(text: string, chars: nat, initial: bool, ghost so: seq<seq<string>>)
        returns (status: Status, ghost news: seq<seq<string>>)
      requires Valid() && chars > |text| && AllPrefixed(so, InitialArgs())
      modifies this
      ensures initialArgc == old(initialArgc) && initialChars == old(initialChars)
      ensures status == Done || status == CannotExec
      ensures status == CannotExec ==> exists i, w: seq<Word> :: |w| <= initialArgc + 2 && !accepts(i, w)
      ensures status == Done ==> Valid() && InitialArgs() == old(InitialArgs())
      ensures !LimitReached(old(|cmdArgv|) + 1, initial) ==> status == Done
      ensures status == Done ==> so <= news && commands == old(commands) + news[|so|..]
      ensures status == Done ==> (news == so <==> !LimitReached(old(|cmdArgv|) + 1, initial))
      ensures status == Done && news == so ==> |cmdArgv| == old(|cmdArgv|) + 1 && argvChars == old(argvChars) + chars
      ensures status == Done && news != so ==> |cmdArgv| == initialArgc && argvChars == initialChars
      ensures status == Done ==>
        Blocks(news, initialArgc) + Pending() == Blocks(so, initialArgc) + (old(Pending()) + [text])
      ensures status == Done ==> AllPrefixed(news, InitialArgs())
      ensures status == Done && !initial && old(AtRest() && argvChars + chars <= ctl.argMax) && AllWithin(so, ctl, initialArgc)
        ==> AtRest() && AllWithin(news, ctl, initialArgc)
      ensures status == Done && AllLonger(so, initialArgc) ==> AllLonger(news, initialArgc)
      ensures AllAccepted() && !initial ==>
        var args := old(Pending()) + [text];
        if CountFull(old(InitialArgs()) + args, ctl, initialArgc) then
          news == so + [old(InitialArgs()) + args] && Pending() == []
        else news == so && Pending() == args
      ensures status == Done && old(Exact()) && chars == |text| + 1 ==> Exact()
    {
      hide Blocks, Chars, Texts, AllWithin, AllPrefixed, AllAccepted;
      Counts();
      Store(text, chars);
      status, news := Done, so;
      assert so[|so|..] == [];
      if LimitReached(|cmdArgv|, initial) {
        status, news := FlushMore(so);
        if status == Done { Counts(); }
      }
    }

    method FlushMore(ghost so: seq<seq<string>>) returns (status: Status, ghost news: seq<seq<string>>)
      requires Valid() && AllPrefixed(so, InitialArgs())
      modifies this
      ensures initialArgc == old(initialArgc) && initialChars == old(initialChars)
      ensures status == Done || status == CannotExec
      ensures status == Done ==> Valid() && InitialArgs() == old(InitialArgs()) && Pending() == []
      ensures status == Done ==> |cmdArgv| == initialArgc && argvChars == initialChars
      ensures status == Done ==> so <= news && |so| < |news| && commands == old(commands) + news[|so|..]
      ensures status == Done ==> Blocks(news, initialArgc) == Blocks(so, initialArgc) + old(Pending()) && AllPrefixed(news, InitialArgs())
      ensures status == Done && old(Full()) && AllWithin(so, ctl, initialArgc) ==> AllWithin(news, ctl, initialArgc)
      ensures status == CannotExec ==> exists i, w: seq<Word> :: |w| <= initialArgc + 2 && !accepts(i, w)
      ensures status == Done && old(Pending()) != [] && AllLonger(so, initialArgc) ==> AllLonger(news, initialArgc)
      ensures AllAccepted() ==> status == Done && news == so + [old(InitialArgs()) + old(Pending())]
      ensures status == Done && old(Exact()) ==> Exact()
    {
      hide Blocks, Chars, Texts, AllWithin, AllPrefixed, AllAccepted;
      ghost var more;
      status, more := Flush();
      if status == Done {
        BlocksConcat(so, more, initialArgc);
        BothConcat(so, more, ctl, InitialArgs());
        assert commands == old(commands) + more;
      }
      news := so + more;
      assert news[|so|..] == more;
    }

    // The high-water mark of the initial arguments.
    method Mark()
      requires Valid()
      modifies `initialChars
      ensures Valid() && initialChars == argvChars
    {
      ghost var args := Texts(cmdArgv);
      CharsSlice(args, initialArgc, initialArgc, initialArgc);
      assert args[..initialArgc] + args[initialArgc..initialArgc] == args[..initialArgc];
      initialChars := argvChars;
    }

    method Store(text: string, chars: nat)
      requires Valid() && chars > |text|
      modifies `cmdArgv, `argvChars
      ensures cmdArgv == old(cmdArgv) + [Arg(text)] && argvChars == old(argvChars) + chars
      ensures Valid() && InitialArgs() == old(InitialArgs()) && Pending() == old(Pending()) + [text]
      ensures old(Exact()) && chars == |text| + 1 ==> Exact()
    {
      ghost var args := Texts(cmdArgv);
      cmdArgv := cmdArgv + [Arg(text)];
      argvChars := argvChars + chars;
      assert Texts(cmdArgv) == args + [text];
      assert (args + [text])[..initialArgc] == args[..initialArgc];
      CharsConcat(args, [text]);
      assert Chars([text]) == |text| + 1;
    }
  }

  lemma NoBlocks(ctl: Control, initial: seq<string>)
    ensures Blocks([], |initial|) == [] && AllPrefixed([], initial) && AllWithin([], ctl, |initial|)
  {
  }

  lemma TerminatedLength(ws: seq<Word>, args: seq<string>)
    requires Terminated(ws, args)
    ensures |ws| == |args| + 1
  {
  }

  lemma NoCommands(initial: seq<string>, pending: seq<string>)
    ensures Blocks([], |initial|) == [] && AllLaunched([], initial, pending)
  {
  }

  lemma BlockLaunched(args: seq<string>, k: nat, from: nat, to: nat)
    requires k <= from <= to <= |args| && (k < |args| ==> from < to)
    ensures Launched(args[..k] + args[from..to], args[..k], args[k..])
  {
    hide Chars;
    CharsSlice(args, k, from, to);
    assert args[..k] + args[k..] == args;
    assert (args[..k] + args[from..to])[..k] == args[..k];
  }

  // A successful attempt adds the next block.
  lemma NewCommand(args: seq<string>, k: nat, done: nat, n: nat, news: seq<seq<string>>)
    requires k + done + n <= |args| + 1 && 0 < n && (done == 0 || k + done < |args|)
    requires AllLaunched(news, args[..k], args[k..]) && Blocks(news, k) == args[k..Min(k + done, |args|)]
    ensures var c := args[..k] + args[Min(k + done, |args|)..Min(k + done + n, |args|)];
      AllLaunched(news + [c], args[..k], args[k..]) && Blocks(news + [c], k) == args[k..Min(k + done + n, |args|)]
  {
    hide Blocks, Launched;
    var from, to := Min(k + done, |args|), Min(k + done + n, |args|);
    var c := args[..k] + args[from..to];
    BlocksPush(news, c, k);
    assert c[k..] == args[from..to];
    assert args[k..from] + args[from..to] == args[k..to];
    BlockLaunched(args, k, from, to);
  }
}
