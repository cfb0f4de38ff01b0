// The pool of children of xargs/xargs.c. What waitpid and fork return and which signals arrive is a script that can
// be any finite sequence, so what is proved holds for every interleaving.
module ProcPool {
  import opened Wrappers
  import opened PoolHistory

  // Halted: the script has no more to say.
  datatype Outcome = Running | Exit(code: nat) | Halted {
    // The exits forced by a call with this outcome.
    function Exits(): seq<nat> { if Exit? then [code] else [] }
  }

  // Every running child has one slot of the table, and the other slots are zero.
  predicate Table(pids: seq<int>, live: set<int>)
  {
    && 0 !in live && (forall p :: p in live ==> p in pids)
    && (forall i :: 0 <= i < |pids| && pids[i] != 0 ==> pids[i] in live)
    && (forall i, j :: 0 <= i < j < |pids| && pids[i] != 0 ==> pids[i] != pids[j])
  }

  lemma TableAdd(pids: seq<int>, live: set<int>, i: nat, pid: int)
    requires Table(pids, live) && i < |pids| && pids[i] == 0 && pid != 0 && pid !in live
    ensures Table(pids[i := pid], live + {pid}) && |live + {pid}| == |live| + 1
  {
    var more := pids[i := pid];
    assert more[i] == pid;
    forall p | p in live
      ensures p in more
    {
      var j :| 0 <= j < |pids| && pids[j] == p;
      assert more[j] == p;
    }
  }

  lemma TableRemove(pids: seq<int>, live: set<int>, i: nat)
    requires Table(pids, live) && i < |pids| && pids[i] != 0
    ensures Table(pids[i := 0], live - {pids[i]}) && |live - {pids[i]}| == |live| - 1
  {
    var fewer := pids[i := 0];
    forall p | p in live - {pids[i]}
      ensures p in fewer
    {
      var j :| 0 <= j < |pids| && pids[j] == p;
      assert fewer[j] == p;
    }
  }

  lemma TableGrow(pids: seq<int>, zeros: seq<int>, live: set<int>)
    requires Table(pids, live) && forall i :: 0 <= i < |zeros| ==> zeros[i] == 0
    ensures Table(pids + zeros, live)
  {
  }

  lemma CancelRight<T>(a: seq<T>, b: seq<T>, c: seq<T>)
    requires a + c == b + c
    ensures a == b
  {
    assert a == (a + c)[..|a|] && b == (b + c)[..|b|];
  }

  // The last waitpid returned zero.
  predicate Idle(log: seq<Event>, noHang: bool)
  {
    log != [] && log[|log| - 1].Waited? && log[|log| - 1].wait.Zero() && log[|log| - 1].noHang == noHang
  }

  class Pool {
    var pids: array<int>
    var procsExecuting: nat
    var procsExecuted: bool
    var procMax: nat
    var stopWaiting: bool
    var childError: nat

    // The surroundings. A batch of signals is delivered before every access to a volatile variable.
    var waits: seq<Wait>
    var forks: seq<Fork>
    var batches: seq<seq<Signal>>

    // What they were at the start, what of them is used up, and where that leads.
    ghost const max0: nat
    ghost const script: Script
    ghost var log: seq<Event>
    ghost var past: Past
    // The call of wait_for_proc under way, or the last one, and where it began.
    ghost var call: Call
    ghost var since: nat
    // The number of events before the call of xargs_do_exec under way, whether it has tested for room since, and
    // whether there is a limit.
    ghost var begun: nat
    ghost var tested: bool
    ghost var limited: bool

    constructor (procMax: nat, waits: seq<Wait>, forks: seq<Fork>, batches: seq<seq<Signal>>)
      ensures Valid() && log == [] && this.procMax == max0 == procMax && fresh(pids)
      ensures script == Script(waits, forks, batches) == Left()
    {
      pids := new int[0];
      procsExecuting, procsExecuted, this.procMax, stopWaiting, childError := 0, false, procMax, false, 0;
      this.waits, this.forks, this.batches := waits, forks, batches;
      max0, script := procMax, Script(waits, forks, batches);
      log, past, since, begun, tested, limited := [], Play(procMax, []), 0, 0, false, false;
      call := Call(true, 0, 0, false, false, true);
    }

    ghost function Left(): Script
      reads `waits, `forks, `batches
    {
      Script(waits, forks, batches)
    }

    // The history is what has been used up of the script, and every launch so far had room.
    ghost predicate Told()
      reads `waits, `forks, `batches, `procMax, `log, `past, `call, `since, `begun, `tested, `limited
    {
      Uses(log, Left(), script) && Traced() && past.procMax == procMax
    }

    ghost predicate Traced()
      reads `log, `past, `call, `since, `begun, `tested, `limited
    {
      && past == Play(max0, log) && Follows(max0, log, since, call)
      && past.checked && past.room <= past.steps == |log| && (past.Room() ==> past.room == past.steps)
      && begun <= |log| && past.launch <= |log| && (tested ==> begun <= past.room && past.launch <= past.room)
      && (limited ==> past.procMax > 0)
    }

    ghost method Record(e: Event)
      requires Uses(log, Left(), script) && Traced() && Left().Starts(e)
      requires Launches(past, e) ==> past.launch <= past.room && !tested
      modifies `log, `past, `call
      ensures Uses(log, old(Left()).Rest(e), script) && Traced()
      ensures log == old(log) + [e] && past == Next(old(past), e) && call == old(call).Step(old(past), e)
    {
      hide Uses, Play, Follows, Next, Launches;
      UsesPush(log, Left(), script, e);
      HistoryPush(max0, log, since, call, e);
      NextMoves(past, e);
      log := log + [e];
      call := call.Step(past, e);
      past := Next(past, e);
    }

    ghost predicate Holds(live: set<int>)
      reads `pids, pids
    {
      Table(pids[..], live) && 0 !in live
    }

    ghost predicate Matches(live: set<int>, reaped: seq<(int, Status)>)
      reads `pids, pids, `procsExecuting, `childError
    {
      Holds(live) && procsExecuting == |live| && childError == ErrorOf(reaped)
    }

    ghost predicate Valid()
      reads this, pids
    {
      Told() && Matches(past.live, past.reaped)
    }

    // increment_proc_max and decrement_proc_max.
    method Handle(s: Signal)
      modifies `procMax, `stopWaiting
      ensures s.Usr1? ==> procMax == old(procMax) + 1 && stopWaiting
      ensures s.Usr2? ==> stopWaiting == old(stopWaiting)
      ensures s.Usr2? ==> procMax == if old(procMax) > 1 then old(procMax) - 1 else old(procMax)
    {
      if s.Usr1? {
        procMax := procMax + 1;
        stopWaiting := true;
      } else if procMax > 1 {
        procMax := procMax - 1;
      }
    }

    method HandleAll(batch: seq<Signal>)
      modifies `procMax, `stopWaiting
      ensures procMax == AfterSignals(old(procMax), batch)
      ensures stopWaiting <==> old(stopWaiting) || Usr1 in batch
    {
      var i := 0;
      while i < |batch|
        invariant i <= |batch| && procMax == AfterSignals(old(procMax), batch[..i])
        invariant stopWaiting <==> old(stopWaiting) || Usr1 in batch[..i]
      {
        assert batch[..i + 1][..i] == batch[..i] && batch[..i + 1] == batch[..i] + [batch[i]];
        Handle(batch[i]);
        i := i + 1;
      }
      assert batch[..i] == batch;
    }

    // Signals change nothing but the limit, and the flag of a call that has begun to wait.
    method Deliver() returns (ghost usr1: bool)
      requires Told()
      modifies `procMax, `stopWaiting, `batches, `log, `past, `call
      ensures old(log) <= log && (old(batches) == [] ==> batches == [])
      ensures Told() && Keeps(old(past), past)
      ensures old(batches) == [] ==> log == old(log) && past == old(past)
      ensures batches == if old(batches) == [] then [] else old(batches)[1..]
      ensures usr1 <==> old(batches) != [] && Usr1 in old(batches)[0]
      ensures stopWaiting <==> old(stopWaiting) || usr1
      ensures call == old(call).(woken := old(call.woken) || (old(call.asked) && usr1))
    {
      hide Uses, Traced, AfterSignals, Next, Keeps;
      if batches == [] {
        Same(past);
        return false;
      }
      var batch := batches[0];
      NextSignal(past, batch);
      Record(Signalled(batch));
      batches := batches[1..];
      HandleAll(batch);
      usr1 := Usr1 in batch;
    }

    // One call of waitpid. It removes a child of the pool from those running, and changes nothing else.
    method WaitPid(noHang: bool) returns (w: Option<Wait>)
      requires Told() && call.right && noHang == call.Due()
      modifies `waits, `log, `past, `call
      ensures old(log) <= log && (old(batches) == [] ==> batches == [])
      ensures Told()
      ensures old(waits) == [] ==> w == None && waits == [] && log == old(log) && past == old(past) && call == old(call)
      ensures old(waits) != [] ==>
        w == Some(old(waits)[0]) && waits == old(waits)[1..] && log == old(log) + [Waited(w.value, noHang)]
      ensures w.Some? && !Removes(old(past), Waited(w.value, noHang)) ==>
        && call == old(call).(asked := true)
        && if w.value.WaitFailed? then Fails(old(past), past, 1) else Keeps(old(past), past)
      ensures w.Some? && Removes(old(past), Waited(w.value, noHang)) ==>
        && call == old(call).(asked := false, woken := false, count := old(call.count) + 1)
        && Loses(old(past), past, w.value.pid, w.value.status)
    {
      hide Uses, Traced, Next, Keeps, Fails, Loses;
      if waits == [] { return None; }
      w := Some(waits[0]);
      NextWait(past, w.value, noHang);
      NextMoves(past, Waited(w.value, noHang));
      Record(Waited(w.value, noHang));
      waits := waits[1..];
    }

    // The test has been passed; it holds for one launch.
    ghost method UseTest()
      requires Told() && tested
      modifies `tested
      ensures Told() && !tested && past.launch <= past.room && begun <= past.room && past == Play(max0, log)
    {
      hide Uses, Play, Follows;
      tested := false;
    }

    ghost method KeepTest(before: Past)
      requires Told() && before.launch <= before.room && begun <= before.room
      requires before.room <= past.room && past.launch == before.launch
      modifies `tested
      ensures Told() && tested
    {
      hide Uses, Play, Follows;
      tested := true;
    }

    // One call of fork. There must have been room since the call of xargs_do_exec began and since the last launch.
    method NextFork() returns (f: Option<Fork>)
      requires Told() && tested
      modifies `forks, `log, `past, `call, `tested
      ensures Told()
      ensures old(forks) == [] ==> f == None && forks == [] && log == old(log) && past == old(past)
      ensures old(forks) != [] ==>
        && f == Some(old(forks)[0]) && forks == old(forks)[1..] && log == old(log) + [Forked(f.value)]
        && past == Next(old(past), Forked(f.value)) && begun <= old(past).room && old(past) == Play(max0, old(log))
      ensures f != None && !f.value.Child? ==> tested
    {
      hide Uses, Traced, Next, Play;
      UseTest();
      if forks == [] { return None; }
      ghost var before := past;
      f := Some(forks[0]);
      NextMoves(past, Forked(f.value));
      RoomIs(max0, log);
      Record(Forked(f.value));
      forks := forks[1..];
      if !f.value.Child? { KeepTest(before); }
    }

    // The slot of a child in the table, or the table's length.
    method Slot(pid: int, ghost live: set<int>) returns (i: nat)
      requires Holds(live) && pid != 0
      ensures i <= pids.Length && (i < pids.Length ==> pids[i] == pid)
      ensures i < pids.Length <==> pid in live
    {
      i := 0;
      while i < pids.Length && pid != pids[i]
        invariant i <= pids.Length && pid !in pids[..i]
      {
        i := i + 1;
      }
      assert pids[..pids.Length] == pids[..];
    }

    // waitpid, again and again while it is interrupted. SIGUSR1 stops the wait unless all are waited for.
    method AwaitAny(all: bool, noHang0: bool) returns (o: Outcome, w: Wait, noHang: bool)
      requires Told() && call.right && call.all == all && noHang0 == call.Due() && (stopWaiting <==> call.woken)
      modifies `waits, `procMax, `stopWaiting, `batches, `log, `past, `call
      ensures old(log) <= log && (old(batches) == [] ==> batches == [])
      ensures Told() && call.right && call.all == all && call.minReap == old(call.minReap)
      ensures |waits| <= |old(waits)| && (o != Halted ==> |waits| < |old(waits)|)
      ensures o == Halted ==> Keeps(old(past), past) && waits == []
      ensures o.Exit? ==> o.code == 1 && Fails(old(past), past, 1)
      ensures all ==> !noHang
      ensures o == Running ==>
        && (w.Zero() || w.Reaped?) && (w.Zero() ==> Idle(log, noHang))
        && if Removes(old(past), Waited(w, noHang)) then
             Loses(old(past), past, w.pid, w.status) && call.count == old(call.count) + 1 && !call.asked && !call.woken
           else
             && Keeps(old(past), past) && call.count == old(call.count)
             && noHang == call.Due() && (stopWaiting <==> call.woken)
    {
      hide Told;
      noHang := noHang0;
      while true
        invariant old(log) <= log && (old(batches) == [] ==> batches == [])
        invariant Told() && Keeps(old(past), past) && |waits| <= |old(waits)|
        invariant call.right && call.all == all && call.count == old(call.count) && call.minReap == old(call.minReap)
        invariant (stopWaiting <==> call.woken) && (noHang <==> call.Due())
        decreases |waits|
      {
        var next := WaitPid(noHang);
        if next.None? { return Halted, NotReady, noHang; }
        w := next.value;
        if w.WaitFailed? { return Exit(1), w, noHang; }
        if !w.Interrupted? { return Running, w, noHang; }
        ghost var usr1 := Deliver();
        if stopWaiting && !all { noHang := true; }
      }
    }

    lemma Parts()
      requires Valid()
      ensures Told() && Holds(past.live) && 0 !in past.live
    {
    }

    // stop_waiting = 0.
    method Reset()
      requires Told() && !call.asked && !call.woken
      modifies `procMax, `stopWaiting, `batches, `log, `past, `call
      ensures old(log) <= log && (old(batches) == [] ==> batches == [])
      ensures Told() && Keeps(old(past), past) && call == old(call) && !stopWaiting
    {
      hide Told, Keeps;
      ghost var usr1 := Deliver();
      stopWaiting := false;
    }

    // One turn of the loop of wait_for_proc up to its end: until a child of this table is reaped, whose slot is
    // i, or waitpid returns zero. Children that are not in the table are passed over.
    method AwaitChild(all: bool, noHang0: bool) returns (o: Outcome, w: Wait, i: nat, noHang: bool)
      requires Valid() && call.all == all && noHang0 == call.Due() && !call.asked && !call.woken && call.right
      modifies `waits, `procMax, `stopWaiting, `batches, `log, `past, `call
      ensures old(log) <= log && (old(batches) == [] ==> batches == [])
      ensures Told() && call.right && call.all == all && call.minReap == old(call.minReap)
      ensures |waits| <= |old(waits)| && (o != Halted ==> |waits| < |old(waits)|)
      ensures o == Halted ==> Keeps(old(past), past) && waits == []
      ensures o.Exit? ==> o.code == 1 && Fails(old(past), past, 1)
      ensures o == Running && w.Zero() ==> Keeps(old(past), past) && Idle(log, noHang) && (all ==> !noHang)
      ensures o == Running && !w.Zero() ==>
        && w.Reaped? && w.pid in old(past.live) && Loses(old(past), past, w.pid, w.status)
        && i < pids.Length && pids[i] == w.pid
        && call.count == old(call.count) + 1 && !call.asked && !call.woken
    {
      hide Valid, Told, Holds, Idle;
      Parts();
      i, noHang := 0, noHang0;
      Reset();
      while true
        invariant old(log) <= log && (old(batches) == [] ==> batches == [])
        invariant Told() && Keeps(old(past), past) && |waits| <= |old(waits)|
        invariant call.right && call.all == all && call.count == old(call.count) && call.minReap == old(call.minReap)
        invariant (stopWaiting <==> call.woken) && (noHang <==> call.Due())
        decreases |waits|
      {
        o, w, noHang := AwaitAny(all, noHang);
        if o != Running || w.Zero() { return; }
        i := Slot(w.pid, old(past.live));
        if i < pids.Length { return; }
      }
    }

    // The end of a turn of wait_for_proc: the child leaves the table, and its status is judged.
    method Remove(i: nat, status: Status, ghost before: Past) returns (o: Outcome)
      requires i < pids.Length && pids[i] in before.live && Matches(before.live, before.reaped)
      requires Loses(before, past, pids[i], status)
      modifies pids, `procsExecuting, `childError
      ensures Matches(past.live, past.reaped) && procsExecuting == old(procsExecuting) - 1
      ensures o == if Forced(status).Some? then Exit(Forced(status).value) else Running
    {
      TableRemove(pids[..], before.live, i);
      ErrorOfPush(before.reaped, (pids[i], status));
      ghost var was := pids[..];
      pids[i] := 0;
      assert pids[..] == was[i := 0];
      procsExecuting := procsExecuting - 1;
      if ExitStatus(status) == 255 { return Exit(124); }
      if status.Stopped? { return Exit(125); }
      if status.Killed? { return Exit(125); }
      if ExitStatus(status) != 0 {
        childError := 123;
      }
      o := Running;
    }

    // A whole turn; more is whether a child was reaped and xargs goes on. lost is whether zero came without WNOHANG,
    // which draws a warning.
    method Turn(all: bool, minReap: nat, count: nat) returns (o: Outcome, more: bool, lost: bool)
      requires Valid() && call == Call(all, minReap, count, false, false, true)
      modifies `waits, `procMax, `stopWaiting, `batches, `log, `past, `call, pids, `procsExecuting, `childError
      ensures old(log) <= log && (old(batches) == [] ==> batches == [])
      ensures Valid() && Shrinks(old(past), past, o.Exits()) && call.right && call.all == all && call.minReap == minReap
      ensures |waits| <= |old(waits)| && (o == Running ==> |waits| < |old(waits)|)
      ensures more ==> o == Running && !lost && call == Call(all, minReap, count + 1, false, false, true)
      ensures o == Running && !more ==> Idle(log, !lost) && (all ==> lost) && procsExecuting == old(procsExecuting)
      ensures o != Running ==> !lost
      ensures o == Halted ==> waits == []
    {
      hide Told, Table;
      ghost var before := past;
      var w, i, noHang;
      more, lost := false, false;
      o, w, i, noHang := AwaitChild(all, !all && count >= minReap);
      if o != Running { return; }
      if w.Zero() { lost := !noHang; return; }
      o := Remove(i, w.status, before);
      more := o == Running;
    }

    ghost method Begin(all: bool, minReap: nat)
      requires Valid()
      modifies `since, `call
      ensures Valid() && since == |log| && call == Call(all, minReap, 0, false, false, true)
    {
      hide Uses, Matches, Play;
      since, call := |log|, Call(all, minReap, 0, false, false, true);
    }

    // Follows in terms of the call under way.
    lemma FlagsOfCall()
      requires Valid() && call.right
      ensures FlagsRight(max0, log, since, call.all, call.minReap) && since <= |log|
    {
    }

    // The forks and signals that are used up and those that are left.
    lemma ScriptsUsed()
      requires Valid()
      ensures Forks(log) + forks == script.forks && Batches(log) + batches == script.batches
    {
    }

    lemma ScriptsLeft(was: seq<Event>, f: seq<Fork>, b: seq<seq<Signal>>)
      requires Valid() && Forks(was) + f == script.forks && Batches(was) + b == script.batches && forks == f
      ensures batches == b ==> Forks(log) == Forks(was) && Batches(log) == Batches(was)
    {
      ScriptsUsed();
      CancelRight(Forks(log), Forks(was), f);
      if batches == b { CancelRight(Batches(log), Batches(was), b); }
    }

    // wait_for_proc. lost is whether zero came without WNOHANG, which draws a warning.
    method WaitForProc(all: bool, minReap: nat) returns (o: Outcome, lost: bool)
      requires Valid()
      modifies `waits, `procMax, `stopWaiting, `batches, `log, `past, `call, `since, pids,
        `procsExecuting, `childError
      ensures old(log) <= log && (old(batches) == [] ==> batches == [])
      ensures Valid() && Shrinks(old(past), past, o.Exits())
      ensures |old(log)| <= |log| && FlagsRight(max0, log, |old(log)|, all, minReap)
      ensures old(batches) == [] ==> Forks(log) == Forks(old(log)) && Batches(log) == Batches(old(log))
      ensures |waits| <= |old(waits)| && (o == Running && old(procsExecuting) > 0 ==> |waits| < |old(waits)|)
      ensures if o == Running && procsExecuting > 0 then Idle(log, !lost) && (all ==> lost) else !lost
      ensures o == Halted ==> waits == []
    {
      hide Valid, Idle, FlagsRight, Shrinks;
      var count := 0;
      o, lost := Running, false;
      Same(past);
      ScriptsUsed();
      Begin(all, minReap);
      while procsExecuting != 0
        invariant old(log) <= log && (old(batches) == [] ==> batches == [])
        invariant Valid() && Shrinks(old(past), past, []) && |waits| <= |old(waits)|
        invariant if count == 0 then procsExecuting == old(procsExecuting) else |waits| < |old(waits)|
        invariant o == Running && !lost && since == |old(log)| && call == Call(all, minReap, count, false, false, true)
        decreases |waits|
      {
        ghost var before := past;
        var more;
        o, more, lost := Turn(all, minReap, count);
        ShrinksAgain(old(past), before, past, o.Exits());
        FlagsOfCall();
        if !more {
          ScriptsLeft(old(log), old(forks), old(batches));
          return;
        }
        count := count + 1;
      }
      FlagsOfCall();
      ScriptsLeft(old(log), old(forks), old(batches));
    }

    // What can be read off the counters.
    lemma Counters()
      requires Valid()
      ensures |past.live| == procsExecuting && past.procMax == procMax && (limited ==> procMax > 0)
    {
    }

    ghost method Limit()
      requires Valid() && procMax > 0
      modifies `limited
      ensures Valid() && limited
    {
      limited := true;
    }

    ghost method PassTest()
      requires Valid() && (procMax == 0 || procsExecuting < procMax)
      modifies `tested
      ensures Valid() && tested
    {
      tested := true;
    }

    // A signal between two turns.
    method Test() returns (full: bool)
      requires Valid()
      modifies `procMax, `stopWaiting, `batches, `log, `past, `call
      ensures old(log) <= log && (old(batches) == [] ==> batches == [])
      ensures Valid() && Shrinks(old(past), past, [])
      ensures old(batches) == [] ==> log == old(log) && past == old(past) && batches == []
      ensures full <==> procsExecuting >= procMax
    {
      hide Uses, Traced, Next;
      ghost var usr1 := Deliver();
      full := procsExecuting >= procMax;
    }

    lemma FullNow()
      requires Valid() && procMax > 0 && procsExecuting >= procMax
      ensures !Play(max0, log).Room()
    {
    }

    // A wait with every slot taken, for one child at least; calm is whether no signals arrive.
    method AwaitOne(ghost from: nat, ghost calm: bool) returns (o: Outcome)
      requires Valid() && procMax > 0 && procsExecuting >= procMax && from <= |log|
      requires calm ==> batches == [] && WaitsWhenFull(max0, log, from)
      modifies `waits, `procMax, `stopWaiting, `batches, `log, `past, `call, `since, pids,
        `procsExecuting, `childError
      ensures old(log) <= log && (old(batches) == [] ==> batches == [])
      ensures Valid() && Shrinks(old(past), past, o.Exits()) && (o == Halted ==> waits == [])
      ensures |waits| <= |old(waits)| && (o == Running ==> |waits| < |old(waits)|)
      ensures calm ==> WaitsWhenFull(max0, log, from)
    {
      hide Valid, Shrinks, Idle, FlagsRight, WaitsWhenFull, Forks, Batches;
      FullNow();
      var lost;
      o, lost := WaitForProc(false, 1);
      if calm {
        WaitsForOne(max0, old(log), log, 1);
        FullConcat(max0, old(log), log, from);
      }
    }

    // The wait for a free slot at the head of xargs_do_exec.
    method AwaitSlot() returns (o: Outcome)
      requires Valid()
      modifies `waits, `procMax, `stopWaiting, `batches, `log, `past, `call, `since, pids,
        `procsExecuting, `childError, `tested, `limited
      ensures old(log) <= log && (old(batches) == [] ==> batches == [])
      ensures Valid() && Shrinks(old(past), past, o.Exits()) && |waits| <= |old(waits)|
      ensures o == Running ==> (procMax == 0 || procsExecuting < procMax) && tested
      ensures old(batches == [] && past.Room()) ==> o == Running && log == old(log)
      ensures o == Halted ==> waits == []
      ensures old(batches) == [] ==> WaitsWhenFull(max0, log, |old(log)|)
    {
      hide Valid, Shrinks, Idle, FlagsRight, WaitsWhenFull, Forks, Batches, Play;
      FullNothing(max0, log);
      o := Running;
      Counters();
      var full := Test();
      Counters();
      if procMax == 0 {
        PassTest();
        return;
      }
      Limit();
      ghost var first := past;
      full := Test();
      ShrinksAgain(old(past), first, past, []);
      Counters();
      while full
        invariant old(log) <= log && (old(batches) == [] ==> batches == [])
        invariant Valid() && Shrinks(old(past), past, []) && |waits| <= |old(waits)|
        invariant o == Running && limited && procMax > 0
        invariant full <==> procsExecuting >= procMax
        invariant old(batches == [] && past.Room()) ==> !full && log == old(log)
        invariant old(batches) == [] ==> WaitsWhenFull(max0, log, |old(log)|)
        decreases |waits|
      {
        ghost var before := past;
        o := AwaitOne(|old(log)|, old(batches) == []);
        ShrinksAgain(old(past), before, past, o.Exits());
        if o != Running { return; }
        before := past;
        full := Test();
        Counters();
        ShrinksAgain(old(past), before, past, []);
      }
      PassTest();
    }

    // What fork returned, after the history before.
    ghost predicate Asked(f: Option<Fork>, before: Past)
      reads this, pids
    {
      && Told() && Matches(before.live, before.reaped)
      && if f.Some? then
           && past == Next(before, Forked(f.value)) && begun <= before.room
           && log != [] && log[|log| - 1] == Forked(f.value) && before == Play(max0, log[..|log| - 1])
         else past == before
    }

    // A fork that has to be tried again leaves the pool as it was.
    lemma AskedAgain(before: Past)
      requires Asked(Some(Again), before) && procsExecuting > 0
      ensures Valid() && Shrinks(before, past, [])
    {
      NextAgain(before);
    }

    lemma AskedIdle(f: Option<Fork>, before: Past)
      requires Asked(f, before) && procsExecuting == 0
      ensures before.live == {}
    {
    }

    method AskFork() returns (f: Option<Fork>)
      requires Valid() && tested
      modifies `forks, `log, `past, `call, `tested
      ensures Asked(f, old(past)) && (f == Some(Again) ==> tested)
      ensures if f.Some? then old(forks) != [] && old(forks)[0] == f.value && forks == old(forks)[1..]
              else forks == old(forks) == []
      ensures Called(old(log), log, f)
    {
      hide Told, Holds, Next, Play;
      f := NextFork();
      if f.Some? { assert log[..|log| - 1] == old(log); }
    }

    // One more fork after a wait.
    method Retry(ghost before: Past) returns (o: Outcome, f: Option<Fork>, ghost next: Past)
      requires Asked(Some(Again), before) && procsExecuting > 0 && tested
      modifies `waits, `procMax, `stopWaiting, `batches, `log, `past, `call, `since, pids,
        `procsExecuting, `childError, `tested, `forks
      ensures Asked(f, next) && Shrinks(before, next, o.Exits())
      ensures (f.Some? ==> o == Running) && (f == Some(Again) ==> tested)
      ensures if f.Some? then old(forks) != [] && old(forks)[0] == f.value && forks == old(forks)[1..]
              else forks == old(forks)
      ensures f.None? ==> if o == Running then forks == [] else o == Halted ==> waits == []
    {
      hide Told, Holds, Idle, FlagsRight, Shrinks, Next;
      AskedAgain(before);
      ghost var forked := past;
      var lost;
      o, lost := WaitForProc(false, 1);
      ShrinksAgain(before, forked, past, o.Exits());
      next, f := past, None;
      if o == Running { f := AskFork(); }
    }

    // fork, again while there are no processes to be had and a child may still end. before is where the history leads
    // before the last call of fork.
    method AwaitFork() returns (o: Outcome, f: Option<Fork>, ghost before: Past)
      requires Valid() && tested
      modifies `waits, `procMax, `stopWaiting, `batches, `log, `past, `call, `since, pids,
        `procsExecuting, `childError, `tested, `forks
      ensures Asked(f, before) && Shrinks(old(past), before, o.Exits()) && Tried(old(forks), forks, f)
      ensures f.Some? ==> o == Running
      ensures f == Some(Again) ==> before.live == {}
      ensures f.None? ==> if o == Running then forks == [] else o == Halted ==> waits == []
      ensures old(forks == [] || forks[0] != Again) ==> Called(old(log), log, f)
    {
      hide Asked, Valid, Tried, Shrinks, Called;
      o, before := Running, past;
      Same(past);
      f := AskFork();
      TriedOnce(old(forks), f);
      while f == Some(Again) && procsExecuting > 0
        invariant Asked(f, before) && Shrinks(old(past), before, []) && Tried(old(forks), forks, f) && o == Running
        invariant (f == Some(Again) ==> tested) && (f.None? ==> forks == [])
        invariant old(forks == [] || forks[0] != Again) ==> f != Some(Again) && Called(old(log), log, f)
        decreases |forks|, f.Some?
      {
        ghost var b, was := before, forks;
        o, f, before := Retry(b);
        ShrinksAgain(old(past), b, before, o.Exits());
        TriedAgain(old(forks), was, f);
        if o != Running { return; }
      }
      if procsExecuting == 0 { AskedIdle(f, before); }
    }

    // add_proc.
    method AddProc(pid: int, ghost live: set<int>)
      requires Holds(live) && pid != 0 && pid !in live
      modifies `pids, pids, `procsExecuting, `procsExecuted
      ensures Holds(live + {pid}) && procsExecuting == old(procsExecuting) + 1 && procsExecuted
      ensures |live + {pid}| == |live| + 1
      ensures pids == old(pids) || fresh(pids)
    {
      var i := 0;
      while i < pids.Length && pids[i] != 0
        invariant i <= pids.Length
      {
        i := i + 1;
      }
      if i == pids.Length { Grow(live); }
      TableAdd(pids[..], live, i, pid);
      ghost var was := pids[..];
      pids[i] := pid;
      assert pids[..] == was[i := pid];
      procsExecuting := procsExecuting + 1;
      procsExecuted := true;
    }

    // x2nrealloc, and zeros in the new slots.
    method Grow(ghost live: set<int>)
      requires Holds(live)
      modifies `pids
      ensures Holds(live) && fresh(pids)
      ensures pids.Length == if old(pids.Length) == 0 then 16 else old(pids.Length) + (old(pids.Length) + 1) / 2
      ensures pids[..] == old(pids[..]) + seq(pids.Length - old(pids.Length), i => 0)
    {
      var before := pids;
      var n := pids.Length;
      var more := new int[if n == 0 then 16 else n + (n + 1) / 2];
      var j := 0;
      while j < more.Length
        invariant j <= more.Length && pids == before && before[..] == old(pids[..])
        invariant forall k :: 0 <= k < j ==> more[k] == if k < n then before[k] else 0
      {
        more[j] := if j < n then before[j] else 0;
        j := j + 1;
      }
      ghost var zeros := seq(more.Length - n, i => 0);
      TableGrow(pids[..], zeros, live);
      assert more[..] == pids[..] + zeros;
      pids := more;
    }

    // There was room since the call began.
    lemma RoomSince(f: Fork, before: Past)
      requires Asked(Some(f), before)
      ensures exists i :: begun <= i < |log| && Play(max0, log[..i]).Room()
    {
      var init := log[..|log| - 1];
      RoomIs(max0, init);
      assert log[..before.room] == init[..before.room];
    }

    lemma AskedChild(pid: int, exec: ExecResult, before: Past)
      requires Asked(Some(Child(pid, exec)), before)
      ensures Told() && Matches(before.live, before.reaped) && 0 !in before.live
      ensures past == Next(before, Forked(Child(pid, exec)))
      ensures pid == 0 || pid in before.live ==> Keeps(before, past)
    {
    }

    // What the parent reads from the pipe: the child goes into the table exactly when there is nothing to read.
    method Judge(pid: int, exec: ExecResult, ghost live: set<int>) returns (o: Outcome, accepted: bool)
      requires Holds(live) && procsExecuting == |live| && pid != 0 && pid !in live
      modifies `pids, pids, `procsExecuting, `procsExecuted
      ensures if exec.Launched? then Holds(live + {pid}) && procsExecuting == |live + {pid}| && procsExecuted
              else Holds(live) && procsExecuting == |live|
      ensures (pids == old(pids) || fresh(pids)) && o != Halted
      ensures o.Exits() ==
        if exec.NotFound? then [127] else if exec.CannotRun? then [126] else if exec.OddRead? then [1] else []
      ensures o == Running ==> exec in {Launched, TooBig, ReadFailed} && (accepted <==> !exec.TooBig?)
    {
      hide Holds;
      match exec {
        case ReadFailed => return Running, true;
        case TooBig => return Running, false;
        case NotFound => return Exit(127), false;
        case CannotRun => return Exit(126), false;
        case OddRead => return Exit(1), false;
        case Launched =>
          AddProc(pid, live);
          return Running, true;
      }
    }

    // The parent's side after fork.
    method Parent(pid: int, exec: ExecResult, ghost before: Past) returns (o: Outcome, accepted: bool)
      requires Asked(Some(Child(pid, exec)), before)
      modifies `pids, pids, `procsExecuting, `procsExecuted
      ensures Valid() && past.exits == before.exits + o.Exits() && (pids == old(pids) || fresh(pids))
      ensures o == Halted <==> pid == 0 || pid in before.live
      ensures past.launched == before.launched + if o == Running && exec.Launched? then [pid] else []
      ensures past.live == before.live + if o == Running && exec.Launched? then {pid} else {}
      ensures o == Running ==> exec in {Launched, TooBig, ReadFailed} && (accepted <==> !exec.TooBig?)
    {
      hide Told, Asked, Holds, Next, Play;
      AskedChild(pid, exec, before);
      accepted := false;
      if pid == 0 { return Halted, false; }
      var i := Slot(pid, before.live);
      if i < pids.Length { return Halted, false; }
      NextChild(before, pid, exec);
      o, accepted := Judge(pid, exec, before.live);
    }

    // fork returned no child.
    lemma AskedFailed(f: Fork, before: Past)
      requires Asked(Some(f), before) && !f.Child? && (f == Again ==> before.live == {})
      ensures Valid() && Shrinks(before, past, [1])
    {
    }

    // A script whose fork returns zero in the parent or the pid of an unreaped child is no kernel's, and halts.
    ghost predicate Stuck()
      reads `waits, `forks, `log
    {
      waits == [] || forks == [] || (log != [] && !Possible(max0, log))
    }

    // The end of the history when a command has been tried: the child forked, and what came of its exec.
    ghost predicate Ended(launched: seq<int>, accepted: bool)
      reads `log, `past
    {
      && log != [] && log[|log| - 1].Forked? && log[|log| - 1].fork.Child?
      && var f := log[|log| - 1].fork;
      && f.exec in {Launched, TooBig, ReadFailed} && (accepted <==> !f.exec.TooBig?)
      && past.launched == launched + (if f.exec.Launched? then [f.pid] else [])
      && (f.exec.Launched? ==> f.pid in past.live)
    }

    // The switches on the results of fork and read.
    method Switch(f: Fork, ghost before: Past, ghost launched: seq<int>) returns (o: Outcome, accepted: bool)
      requires Asked(Some(f), before) && (f == Again ==> before.live == {}) && before.launched == launched
      modifies `pids, pids, `procsExecuting, `procsExecuted
      ensures Valid() && past.exits == before.exits + o.Exits() && (pids == old(pids) || fresh(pids))
      ensures o == Running ==> Ended(launched, accepted) && log[|log| - 1].fork == f
      ensures o != Running ==> past.launched == launched
      ensures o == Halted ==> Stuck()
    {
      hide Valid, Asked;
      LastAsked(f, before);
      if f.Child? {
        o, accepted := Parent(f.pid, f.exec, before);
      } else {
        AskedFailed(f, before);
        o, accepted := Exit(1), false;
      }
    }

    ghost method OpenCall()
      requires Valid()
      modifies `begun, `tested
      ensures Valid() && begun == |log| && !tested
    {
      hide Uses, Matches, Play, Follows;
      begun, tested := |log|, false;
    }

    lemma AskedNone(before: Past)
      requires Asked(None, before)
      ensures Valid() && past == before
    {
    }

    lemma LastAsked(f: Fork, before: Past)
      requires Asked(Some(f), before)
      ensures log != [] && log[|log| - 1] == Forked(f)
      ensures f.Child? && (f.pid == 0 || f.pid in before.live) ==> Stuck()
    {
    }

    // The head of xargs_do_exec: the wait for a free slot, and then one for children that have ended already.
    method Prepare() returns (o: Outcome)
      requires Valid()
      modifies `waits, `procMax, `stopWaiting, `batches, `log, `past, `call, `since, pids,
        `procsExecuting, `childError, `begun, `tested, `limited
      ensures old(log) <= log && (old(batches) == [] ==> batches == [])
      ensures Valid() && Shrinks(old(past), past, o.Exits()) && (o == Halted ==> waits == [])
      ensures begun == |old(log)| && (o == Running ==> tested)
      ensures o == Running && procsExecuting > 0 ==> Idle(log, true) || Idle(log, false)
      ensures old(batches) == [] ==> WaitsWhenFull(max0, log, |old(log)|)
    {
      hide Valid, Shrinks, Idle, FlagsRight, WaitsWhenFull, Forks, Batches;
      OpenCall();
      o := AwaitSlot();
      if o != Running { return; }
      ghost var p, was := past, log;
      var lost;
      o, lost := WaitForProc(false, 0);
      ShrinksAgain(old(past), p, past, o.Exits());
      if old(batches) == [] {
        WaitsForOne(max0, was, log, 0);
        FullConcat(max0, was, log, |old(log)|);
      }
    }

    // xargs_do_exec.
    method DoExec() returns (o: Outcome, accepted: bool)
      requires Valid()
      modifies this, pids
      ensures Valid() && past.exits == old(past.exits) + o.Exits() && (pids == old(pids) || fresh(pids))
      ensures o == Running ==>
        Ended(old(past.launched), accepted) && Tried(old(forks), forks, Some(log[|log| - 1].fork))
      ensures o == Running ==> exists i :: |old(log)| <= i < |log| && Play(max0, log[..i]).Room()
      ensures o != Running ==> past.launched == old(past.launched)
      ensures o == Halted ==> Stuck()
      ensures old(batches == [] && (forks == [] || forks[0] != Again)) ==> WaitsWhenFull(max0, log, |old(log)|)
    {
      hide Valid, Asked, Tried, Ended, Play, WaitsWhenFull;
      accepted := false;
      o := Prepare();
      if o != Running { return; }
      var f;
      ghost var before, was := past, log;
      o, f, before := AwaitFork();
      if f.Some? && old(batches) == [] { FullPush(max0, was, |old(log)|, Forked(f.value)); }
      if o == Running && f.Some? {
        RoomSince(f.value, before);
        o, accepted := Switch(f.value, before, old(past.launched));
      } else {
        AskedNone(before);
        if o == Running { o := Halted; }
      }
    }

    // exit, where wait_for_proc_all runs. original is original_exit_value.
    method AtExit(code: nat, original: nat) returns (o: Outcome, lost: bool)
      requires Valid()
      modifies `waits, `procMax, `stopWaiting, `batches, `log, `past, `call, `since, pids,
        `procsExecuting, `childError
      ensures Valid() && past.launched == old(past.launched) && o != Running && (o == Halted ==> waits == [])
      ensures o.Exit? ==>
        || (&& past.exits == old(past.exits) && (!lost ==> past.live == {})
            && o.code == if original != ErrorOf(past.reaped) then ErrorOf(past.reaped) else code)
        || past.exits == old(past.exits) + [o.code]
    {
      hide Idle, FlagsRight, Told, Holds;
      o, lost := WaitForProc(true, 0);
      if o == Running {
        o := Exit(if original != childError then childError else code);
      }
    }

    // The commands of main, one after another.
    method Commands(commands: nat) returns (o: Outcome)
      requires Valid() && past.exits == []
      modifies this, pids
      ensures Valid() && past.exits == o.Exits() && (pids == old(pids) || fresh(pids))
      ensures o == Halted ==> Stuck()
      ensures o == Running ==>
        && |forks| <= |old(forks)| && forks == old(forks)[|old(forks)| - |forks|..]
        && Children(old(forks)[..|old(forks)| - |forks|]) == commands
    {
      hide Valid, Tried, Stuck, Play, WaitsWhenFull;
      var n := 0;
      o := Running;
      while n < commands
        invariant n <= commands && Valid() && past.exits == [] && o == Running
        invariant pids == old(pids) || fresh(pids)
        invariant |forks| <= |old(forks)| && forks == old(forks)[|old(forks)| - |forks|..]
        invariant Children(old(forks)[..|old(forks)| - |forks|]) == n
      {
        ghost var was := forks;
        var accepted;
        o, accepted := DoExec();
        if o != Running { return; }
        TriedCounts(old(forks), was, forks, log[|log| - 1].fork);
        n := n + 1;
      }
    }

    // main, which returns child_error when all commands have run; any other exit comes sooner and with its own code.
    method Run(commands: nat) returns (o: Outcome, lost: bool, completed: bool)
      requires Valid() && past.exits == []
      modifies this, pids
      ensures Valid() && o != Running && (o == Halted ==> Stuck())
      ensures completed ==>
        && |forks| <= |old(forks)| && forks == old(forks)[|old(forks)| - |forks|..]
        && Children(old(forks)[..|old(forks)| - |forks|]) == commands
      ensures o.Exit? && !completed ==> past.exits != []
      ensures o.Exit? ==> o.code == FinalStatus(past, completed)
      ensures o.Exit? && !lost && |past.exits| == (if completed then 0 else 1) ==> past.live == {}
    {
      hide Valid, Play, ErrorOf;
      lost := false;
      o := Commands(commands);
      completed := o == Running;
      if o == Halted { return; }
      if completed {
        ReadError();
        o, lost := AtExit(childError, childError);
      } else {
        o, lost := AtExit(o.code, 0);
      }
    }

    lemma ReadError()
      requires Valid()
      ensures childError == ErrorOf(past.reaped)
    {
    }

    // What the pool's history means, at any moment between two calls.
    lemma Meaning()
      requires Valid()
      ensures Waits(log) + waits == script.waits && Forks(log) + forks == script.forks
      ensures Batches(log) + batches == script.batches
      ensures forall p :: Times(past.launched, p) == Times(Pids(past.reaped), p) + if p in past.live then 1 else 0
      ensures Fresh(max0, log) ==> past.launched == LaunchedBy(Forks(log))
      ensures forall i :: 0 <= i < |log| && Launches(Play(max0, log[..i]), log[i]) ==> HadRoom(max0, log, i)
      ensures max0 > 0 ==> procsExecuting <= past.peak && (NoDecrements(log) ==> procsExecuting <= procMax)
      ensures childError == 123 <==> exists i :: 0 <= i < |past.reaped| && Failed(past.reaped[i].1)
    {
      hide Play, Launches, HadRoom;
      forall p
        ensures Times(past.launched, p) == Times(Pids(past.reaped), p) + if p in past.live then 1 else 0
      {
        Balanced(max0, log, p);
      }
      if Fresh(max0, log) { LaunchedIs(max0, log); }
      CheckedMeans(max0, log);
      if max0 > 0 {
        NeverMoreThanPeak(max0, log);
        if NoDecrements(log) { NeverMoreThanMax(max0, log); }
      }
    }
  }
}
