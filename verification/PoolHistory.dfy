// What happens to the pool of children of xargs/xargs.c, as a history of events, and what any history comes to.
// Nothing here depends on the code of the pool.
module PoolHistory {
  import opened Wrappers

  // How a child ended; a stopped or killed one has no exit code.
  datatype Status = Exited(code: nat) | Killed(signal: nat) | Stopped(signal: nat)

  datatype Signal = Usr1 | Usr2

  // What one call of waitpid returns: a child, zero, or -1 with EINTR or another error.
  datatype Wait = Reaped(pid: int, status: Status) | NotReady | Interrupted | WaitFailed {
    predicate Zero() { NotReady? || (Reaped? && pid == 0) }
  }

  // What fork returns, and for a child what the parent then reads from the pipe: nothing if the exec succeeded,
  // an errno, an error of read, or an odd number of bytes.
  datatype Fork = Child(pid: int, exec: ExecResult) | Again | ForkFailed
  datatype ExecResult = Launched | TooBig | NotFound | CannotRun | ReadFailed | OddRead

  datatype Event = Waited(wait: Wait, noHang: bool) | Forked(fork: Fork) | Signalled(batch: seq<Signal>)

  // WEXITSTATUS.
  function ExitStatus(s: Status): nat
  {
    match s
    case Exited(code) => code
    case Killed(_) => 0
    case Stopped(signal) => signal
  }

  // The exit a status forces on xargs at once.
  function Forced(s: Status): Option<nat>
  {
    if ExitStatus(s) == 255 then Some(124) else if !s.Exited? then Some(125) else None
  }

  // Whether a child failed without forcing an exit.
  predicate Failed(s: Status) { Forced(s).None? && ExitStatus(s) != 0 }

  // The exit status that POSIX asks for when no child forced an exit.
  ghost function ErrorOf(reaped: seq<(int, Status)>): nat
  {
    if exists i :: 0 <= i < |reaped| && Failed(reaped[i].1) then 123 else 0
  }

  function AfterSignal(max: nat, s: Signal): nat
  {
    if s.Usr1? then max + 1 else if max > 1 then max - 1 else max
  }

  function AfterSignals(max: nat, batch: seq<Signal>): nat
  {
    if batch == [] then max else AfterSignal(AfterSignals(max, batch[..|batch| - 1]), batch[|batch| - 1])
  }

  // Where a history leads: the children running, those launched and those reaped so far in order, the exits forced,
  // the limit and its highest value, the number of events, the number before the last moment with room for one more
  // child and that up to the last launch, and whether there was such a moment between every launch and the one before
  // it. A limit of 0 is no limit.
  datatype Past = Past(live: set<int>, launched: seq<int>, reaped: seq<(int, Status)>, exits: seq<nat>,
    procMax: nat, peak: nat, steps: nat, room: nat, launch: nat, checked: bool)
  {
    predicate Room() { procMax == 0 || |live| < procMax }
  }

  // The children and exits are the same.
  predicate Keeps(p: Past, q: Past)
  {
    q.live == p.live && q.launched == p.launched && q.reaped == p.reaped && q.exits == p.exits
  }

  // An exit has been forced besides.
  predicate Fails(p: Past, q: Past, code: nat)
  {
    q.live == p.live && q.launched == p.launched && q.reaped == p.reaped && q.exits == p.exits + [code]
  }

  // A child has been reaped besides.
  predicate Loses(p: Past, q: Past, pid: int, status: Status)
  {
    && q.live == p.live - {pid} && q.launched == p.launched && q.reaped == p.reaped + [(pid, status)]
    && q.exits == p.exits + CauseSeq(Forced(status))
  }

  // Children may have been reaped besides, and exits forced.
  predicate Shrinks(p: Past, q: Past, exits: seq<nat>)
  {
    q.live <= p.live && q.launched == p.launched && q.exits == p.exits + exits
  }

  lemma Same(p: Past)
    ensures Keeps(p, p) && Shrinks(p, p, [])
  {
  }

  lemma ShrinksAgain(p: Past, q: Past, r: Past, exits: seq<nat>)
    requires Shrinks(p, q, []) && Shrinks(q, r, exits)
    ensures Shrinks(p, r, exits)
  {
  }

  predicate Launches(p: Past, e: Event)
  {
    e.Forked? && e.fork.Child? && e.fork.exec.Launched? && e.fork.pid != 0 && e.fork.pid !in p.live
  }

  predicate Removes(p: Past, e: Event) { e.Waited? && e.wait.Reaped? && e.wait.pid in p.live }

  // The exit an event forces.
  function Cause(p: Past, e: Event): Option<nat>
  {
    match e
    case Waited(WaitFailed, _) => Some(1)
    case Waited(Reaped(_, status), _) => if Removes(p, e) then Forced(status) else None
    case Forked(ForkFailed) => Some(1)
    case Forked(Again) => if p.live == {} then Some(1) else None
    case Forked(Child(pid, exec)) =>
      if pid == 0 || pid in p.live then None
      else if exec.NotFound? then Some(127)
      else if exec.CannotRun? then Some(126)
      else if exec.OddRead? then Some(1)
      else None
    case _ => None
  }

  function CauseSeq(c: Option<nat>): seq<nat> { if c.Some? then [c.value] else [] }

  function Effect(p: Past, e: Event): Past
  {
    if Removes(p, e) then
      p.(live := p.live - {e.wait.pid}, reaped := p.reaped + [(e.wait.pid, e.wait.status)])
    else if Launches(p, e) then
      p.(live := p.live + {e.fork.pid}, launched := p.launched + [e.fork.pid])
    else if e.Signalled? then
      var max := AfterSignals(p.procMax, e.batch);
      p.(procMax := max, peak := if max > p.peak then max else p.peak)
    else p
  }

  function Next(p: Past, e: Event): Past
  {
    var q := Effect(p, e).(exits := p.exits + CauseSeq(Cause(p, e)), steps := p.steps + 1);
    q.(room := if q.Room() then q.steps else p.room, launch := if Launches(p, e) then q.steps else p.launch,
       checked := p.checked && (Launches(p, e) ==> p.launch <= p.room))
  }

  lemma NextWait(p: Past, wait: Wait, noHang: bool)
    ensures !Removes(p, Waited(wait, noHang)) ==>
      if wait.WaitFailed? then Fails(p, Next(p, Waited(wait, noHang)), 1) else Keeps(p, Next(p, Waited(wait, noHang)))
    ensures Removes(p, Waited(wait, noHang)) ==> Loses(p, Next(p, Waited(wait, noHang)), wait.pid, wait.status)
  {
  }

  lemma NextSignal(p: Past, batch: seq<Signal>)
    ensures Keeps(p, Next(p, Signalled(batch)))
    ensures Next(p, Signalled(batch)).procMax == AfterSignals(p.procMax, batch)
  {
  }

  lemma NextChild(p: Past, pid: int, exec: ExecResult)
    requires pid != 0 && pid !in p.live
    ensures var q := Next(p, Forked(Child(pid, exec)));
      && q.reaped == p.reaped
      && q.exits == p.exits +
        (if exec.NotFound? then [127] else if exec.CannotRun? then [126] else if exec.OddRead? then [1] else [])
      && q.launched == p.launched + (if exec.Launched? then [pid] else [])
      && q.live == p.live + (if exec.Launched? then {pid} else {})
  {
  }

  lemma NextAgain(p: Past)
    requires p.live != {}
    ensures Keeps(p, Next(p, Forked(Again))) && Shrinks(p, Next(p, Forked(Again)), [])
  {
  }

  // Time runs on, and a limit is never lifted.
  lemma NextMoves(p: Past, e: Event)
    ensures Next(p, e).steps == p.steps + 1
    ensures Next(p, e).Room() ==> Next(p, e).room == Next(p, e).steps
    ensures p.room <= p.steps ==> p.room <= Next(p, e).room <= Next(p, e).steps
    ensures Next(p, e).launch == if Launches(p, e) then Next(p, e).steps else p.launch
    ensures (p.procMax > 0 ==> Next(p, e).procMax > 0) && (!e.Signalled? ==> Next(p, e).procMax == p.procMax)
    ensures Next(p, e).checked <==> p.checked && (Launches(p, e) ==> p.launch <= p.room)
  {
    if p.procMax > 0 && e.Signalled? { SignalsKeepPositive(p.procMax, e.batch); }
  }

  function Play(max0: nat, log: seq<Event>): Past
  {
    if log == [] then Past({}, [], [], [], max0, max0, 0, 0, 0, true)
    else Next(Play(max0, log[..|log| - 1]), log[|log| - 1])
  }

  // ----- The three scripts a history uses up -----

  function Waits(log: seq<Event>): seq<Wait>
  {
    if log == [] then []
    else
      var last := log[|log| - 1];
      Waits(log[..|log| - 1]) + if last.Waited? then [last.wait] else []
  }

  function Forks(log: seq<Event>): seq<Fork>
  {
    if log == [] then []
    else
      var last := log[|log| - 1];
      Forks(log[..|log| - 1]) + if last.Forked? then [last.fork] else []
  }

  function Batches(log: seq<Event>): seq<seq<Signal>>
  {
    if log == [] then []
    else
      var last := log[|log| - 1];
      Batches(log[..|log| - 1]) + if last.Signalled? then [last.batch] else []
  }

  datatype Script = Script(waits: seq<Wait>, forks: seq<Fork>, batches: seq<seq<Signal>>)
  {
    predicate Starts(e: Event)
    {
      match e
      case Waited(wait, _) => waits != [] && waits[0] == wait
      case Forked(fork) => forks != [] && forks[0] == fork
      case Signalled(batch) => batches != [] && batches[0] == batch
    }

    function Rest(e: Event): Script
      requires Starts(e)
    {
      match e
      case Waited(_, _) => Script(waits[1..], forks, batches)
      case Forked(_) => Script(waits, forks[1..], batches)
      case Signalled(_) => Script(waits, forks, batches[1..])
    }
  }

  // The history has used up the whole script but the rest.
  predicate Uses(log: seq<Event>, rest: Script, all: Script)
  {
    && Waits(log) + rest.waits == all.waits && Forks(log) + rest.forks == all.forks
    && Batches(log) + rest.batches == all.batches
  }

  lemma UsesPush(log: seq<Event>, rest: Script, all: Script, e: Event)
    requires Uses(log, rest, all) && rest.Starts(e)
    ensures Uses(log + [e], rest.Rest(e), all)
  {
    assert (log + [e])[..|log|] == log;
    match e
    case Waited(wait, _) => Shift(Waits(log), rest.waits, all.waits);
    case Forked(fork) => Shift(Forks(log), rest.forks, all.forks);
    case Signalled(batch) => Shift(Batches(log), rest.batches, all.batches);
  }

  // The first of a script goes over to what is used up.
  lemma Shift<T>(done: seq<T>, todo: seq<T>, all: seq<T>)
    requires done + todo == all && todo != []
    ensures done + [todo[0]] + todo[1..] == all
  {
    Assoc(done, [todo[0]], todo[1..]);
    assert [todo[0]] + todo[1..] == todo;
  }

  // ----- Every child launched is running or has been reaped -----

  function Times(s: seq<int>, p: int): (n: nat)
    ensures n == 0 <==> p !in s
  {
    if s == [] then 0 else Times(s[..|s| - 1], p) + if s[|s| - 1] == p then 1 else 0
  }

  lemma TimesPush(s: seq<int>, x: int, p: int)
    ensures Times(s + [x], p) == Times(s, p) + if x == p then 1 else 0
  {
    assert (s + [x])[..|s|] == s;
  }

  function Pids(reaped: seq<(int, Status)>): seq<int>
  {
    seq(|reaped|, i requires 0 <= i < |reaped| => reaped[i].0)
  }

  lemma {:induction false} Balanced(max0: nat, log: seq<Event>, p: int)
    ensures Times(Play(max0, log).launched, p) ==
      Times(Pids(Play(max0, log).reaped), p) + if p in Play(max0, log).live then 1 else 0
  {
    if log != [] {
      var before, e := Play(max0, log[..|log| - 1]), log[|log| - 1];
      Balanced(max0, log[..|log| - 1], p);
      if Removes(before, e) {
        assert Pids(before.reaped + [(e.wait.pid, e.wait.status)]) == Pids(before.reaped) + [e.wait.pid];
        TimesPush(Pids(before.reaped), e.wait.pid, p);
      } else if Launches(before, e) {
        TimesPush(before.launched, e.fork.pid, p);
      }
    }
  }

  lemma AllReaped(max0: nat, log: seq<Event>)
    requires Play(max0, log).live == {}
    ensures forall p :: Times(Play(max0, log).launched, p) == Times(Pids(Play(max0, log).reaped), p)
  {
    forall p
      ensures Times(Play(max0, log).launched, p) == Times(Pids(Play(max0, log).reaped), p)
    {
      Balanced(max0, log, p);
    }
  }

  // The children launched are those whose exec succeeded, if no fork returns the pid of a child still running.
  function LaunchedBy(forks: seq<Fork>): seq<int>
  {
    if forks == [] then []
    else
      var last := forks[|forks| - 1];
      LaunchedBy(forks[..|forks| - 1]) + if last.Child? && last.exec.Launched? then [last.pid] else []
  }

  predicate Possible(max0: nat, log: seq<Event>)
    requires log != []
  {
    var e := log[|log| - 1];
    e.Forked? && e.fork.Child? ==> e.fork.pid != 0 && e.fork.pid !in Play(max0, log[..|log| - 1]).live
  }

  predicate Fresh(max0: nat, log: seq<Event>)
  {
    log == [] || (Possible(max0, log) && Fresh(max0, log[..|log| - 1]))
  }

  lemma {:induction false} LaunchedIs(max0: nat, log: seq<Event>)
    requires Fresh(max0, log)
    ensures Play(max0, log).launched == LaunchedBy(Forks(log))
  {
    if log != [] {
      var init, e := log[..|log| - 1], log[|log| - 1];
      LaunchedIs(max0, init);
      if e.Forked? {
        assert Forks(log)[..|Forks(init)|] == Forks(init);
      } else {
        assert Forks(log) == Forks(init);
      }
    }
  }

  // ----- Calls of fork -----

  function Children(forks: seq<Fork>): nat
  {
    if forks == [] then 0 else Children(forks[..|forks| - 1]) + if forks[|forks| - 1].Child? then 1 else 0
  }

  // Only the last of the forks called, if any, was not told to try again.
  predicate Tried(was: seq<Fork>, now: seq<Fork>, f: Option<Fork>)
  {
    var n := |was| - |now| - if f.Some? then 1 else 0;
    && 0 <= n && now == was[|was| - |now|..] && (f.Some? ==> was[n] == f.value)
    && forall i :: 0 <= i < n ==> was[i] == Again
  }

  // Fork has been called once, if it returned.
  predicate Called(was: seq<Event>, log: seq<Event>, f: Option<Fork>)
  {
    log == if f.Some? then was + [Forked(f.value)] else was
  }

  lemma TriedOnce(was: seq<Fork>, f: Option<Fork>)
    requires f.Some? ==> was != [] && was[0] == f.value
    ensures Tried(was, if f.Some? then was[1..] else was, f)
  {
  }

  lemma TriedAgain(was: seq<Fork>, now: seq<Fork>, f: Option<Fork>)
    requires Tried(was, now, Some(Again)) && (f.Some? ==> now != [] && now[0] == f.value)
    ensures Tried(was, if f.Some? then now[1..] else now, f)
  {
  }

  lemma {:induction false} AllAgain(all: seq<Fork>, a: nat, b: nat)
    requires a <= b <= |all| && forall i :: a <= i < b ==> all[i] == Again
    ensures Children(all[..b]) == Children(all[..a])
  {
    if a < b {
      AllAgain(all, a, b - 1);
      assert all[..b][..b - 1] == all[..b - 1];
    }
  }

  lemma TriedCounts(all: seq<Fork>, was: seq<Fork>, now: seq<Fork>, f: Fork)
    requires |was| <= |all| && was == all[|all| - |was|..] && Tried(was, now, Some(f)) && f.Child?
    ensures |now| <= |all| && now == all[|all| - |now|..]
    ensures Children(all[..|all| - |now|]) == Children(all[..|all| - |was|]) + 1
  {
    var a, b := |all| - |was|, |all| - |now|;
    assert forall i :: a <= i < b ==> all[i] == was[i - a];
    AllAgain(all, a, b - 1);
    assert all[..b][..b - 1] == all[..b - 1];
  }

  // ----- No launch without room -----

  ghost predicate NoLaunch(max0: nat, log: seq<Event>, j: nat, i: nat)
    requires j <= i <= |log|
  {
    forall k :: j <= k < i ==> !Launches(Play(max0, log[..k]), log[k])
  }

  // Before event i there was room at some moment since the last launch.
  ghost predicate HadRoom(max0: nat, log: seq<Event>, i: nat)
    requires i <= |log|
  {
    exists j :: 0 <= j <= i && Play(max0, log[..j]).Room() && NoLaunch(max0, log, j, i)
  }

  lemma RoomStep(max0: nat, log: seq<Event>)
    ensures log == [] ==> Play(max0, log).Room() && Play(max0, log).steps == Play(max0, log).room == 0
    ensures log != [] ==>
      var p, q := Play(max0, log[..|log| - 1]), Play(max0, log);
      q.steps == p.steps + 1 && q.room == if q.Room() then q.steps else p.room
  {
  }

  lemma {:induction false} RoomIs(max0: nat, log: seq<Event>)
    ensures Play(max0, log).steps == |log| && Play(max0, log).room <= |log|
    ensures Play(max0, log[..Play(max0, log).room]).Room()
    ensures forall j :: Play(max0, log).room < j <= |log| ==> !Play(max0, log[..j]).Room()
  {
    hide Play;
    RoomStep(max0, log);
    assert log[..|log|] == log;
    if log != [] {
      var init := log[..|log| - 1];
      RoomIs(max0, init);
      forall j | 0 <= j < |log|
        ensures init[..j] == log[..j]
      {
      }
    }
  }

  lemma LaunchStep(max0: nat, log: seq<Event>)
    ensures log == [] ==> Play(max0, log).launch == 0
    ensures log != [] ==>
      var p, q := Play(max0, log[..|log| - 1]), Play(max0, log);
      q.launch == if Launches(p, log[|log| - 1]) then p.steps + 1 else p.launch
  {
  }

  lemma {:induction false} LaunchIs(max0: nat, log: seq<Event>)
    ensures var n := Play(max0, log).launch;
      && n <= |log| && NoLaunch(max0, log, n, |log|)
      && (n > 0 ==> Launches(Play(max0, log[..n - 1]), log[n - 1]))
  {
    hide Play, Launches;
    LaunchStep(max0, log);
    if log != [] {
      var init := log[..|log| - 1];
      RoomIs(max0, init);
      LaunchIs(max0, init);
      forall j | 0 <= j < |log|
        ensures init[..j] == log[..j]
      {
      }
    }
  }

  lemma SlotMeans(max0: nat, log: seq<Event>)
    ensures Play(max0, log).launch <= Play(max0, log).room <==> HadRoom(max0, log, |log|)
  {
    var room, launch := Play(max0, log).room, Play(max0, log).launch;
    hide Play, Launches;
    RoomIs(max0, log);
    LaunchIs(max0, log);
    if launch <= room {
      assert NoLaunch(max0, log, room, |log|);
    }
    if HadRoom(max0, log, |log|) {
      var j :| 0 <= j <= |log| && Play(max0, log[..j]).Room() && NoLaunch(max0, log, j, |log|);
      assert j <= room;
    }
  }

  lemma HadRoomPrefix(max0: nat, log: seq<Event>, i: nat)
    requires i <= |log|
    ensures HadRoom(max0, log[..i], i) <==> HadRoom(max0, log, i)
  {
    hide Play, Launches;
    forall j | 0 <= j <= i
      ensures log[..i][..j] == log[..j] && (NoLaunch(max0, log[..i], j, i) <==> NoLaunch(max0, log, j, i))
    {
      assert forall k :: j <= k < i ==> log[..i][..k] == log[..k];
    }
  }

  lemma CheckedStep(max0: nat, log: seq<Event>)
    ensures log == [] ==> Play(max0, log).checked
    ensures log != [] ==>
      var p := Play(max0, log[..|log| - 1]);
      Play(max0, log).checked <==> p.checked && (Launches(p, log[|log| - 1]) ==> p.launch <= p.room)
  {
  }

  // Every child was launched with room at some moment since the launch before it.
  lemma {:induction false} CheckedMeans(max0: nat, log: seq<Event>)
    ensures Play(max0, log).checked <==>
      forall i :: 0 <= i < |log| && Launches(Play(max0, log[..i]), log[i]) ==> HadRoom(max0, log, i)
  {
    hide Play, Launches, HadRoom;
    CheckedStep(max0, log);
    if log != [] {
      var n := |log| - 1;
      var init := log[..n];
      CheckedMeans(max0, init);
      SlotMeans(max0, init);
      HadRoomPrefix(max0, log, n);
      forall i | 0 <= i < n
        ensures init[..i] == log[..i] && init[i] == log[i] && (HadRoom(max0, init, i) <==> HadRoom(max0, log, i))
      {
        HadRoomPrefix(max0, init, i);
        HadRoomPrefix(max0, log, i);
      }
    }
  }

  // ----- How many children run at a time -----

  lemma {:induction false} SignalsKeepPositive(max: nat, batch: seq<Signal>)
    requires max > 0
    ensures AfterSignals(max, batch) > 0 && (Usr2 !in batch ==> AfterSignals(max, batch) >= max)
  {
    if batch != [] {
      SignalsKeepPositive(max, batch[..|batch| - 1]);
    }
  }

  // With a limit there is always one, and whatever the signals there are never more children than its highest value.
  lemma {:induction false} NeverMoreThanPeak(max0: nat, log: seq<Event>)
    requires max0 > 0 && Play(max0, log).checked
    ensures 0 < Play(max0, log).procMax <= Play(max0, log).peak
    ensures |Play(max0, log).live| <= Play(max0, log).peak
    ensures Play(max0, log).launch <= Play(max0, log).room ==> |Play(max0, log).live| < Play(max0, log).peak
    ensures Play(max0, log).room <= Play(max0, log).steps
  {
    if log != [] {
      var e := log[|log| - 1];
      NeverMoreThanPeak(max0, log[..|log| - 1]);
      if e.Signalled? { SignalsKeepPositive(Play(max0, log[..|log| - 1]).procMax, e.batch); }
    }
  }

  // SIGUSR1 adds a slot each time, and SIGUSR2 takes one away each time but never the last.
  lemma {:induction false} SignalsCount(max: nat, batch: seq<Signal>)
    ensures Usr2 !in batch ==> AfterSignals(max, batch) == max + |batch|
    ensures Usr1 !in batch && max > 0 ==> AfterSignals(max, batch) == if max > |batch| then max - |batch| else 1
  {
    if batch != [] {
      assert batch == batch[..|batch| - 1] + [batch[|batch| - 1]];
      SignalsCount(max, batch[..|batch| - 1]);
    }
  }

  predicate NoDecrements(log: seq<Event>)
  {
    forall i :: 0 <= i < |log| && log[i].Signalled? ==> Usr2 !in log[i].batch
  }

  lemma {:induction false} NeverMoreThanMax(max0: nat, log: seq<Event>)
    requires max0 > 0 && Play(max0, log).checked && NoDecrements(log)
    ensures Play(max0, log).peak == Play(max0, log).procMax && |Play(max0, log).live| <= Play(max0, log).procMax
  {
    NeverMoreThanPeak(max0, log);
    if log != [] {
      var init, e := log[..|log| - 1], log[|log| - 1];
      NeverMoreThanPeak(max0, init);
      NeverMoreThanMax(max0, init);
      if e.Signalled? { SignalsKeepPositive(Play(max0, init).procMax, e.batch); }
    }
  }

  // ----- One call of wait_for_proc -----

  // What decides whether the next waitpid of a call may block: how many children the call has reaped, and whether
  // SIGUSR1 came after the first waitpid since the last of them. right is whether all flags so far were as they
  // should be.
  datatype Call = Call(all: bool, minReap: nat, count: nat, asked: bool, woken: bool, right: bool) {
    predicate Due() { !all && (count >= minReap || woken) }

    function Step(p: Past, e: Event): Call
    {
      var ok := right && (e.Waited? ==> (e.noHang <==> Due()));
      if Removes(p, e) then this.(right := ok, count := count + 1, asked := false, woken := false)
      else this.(right := ok, asked := asked || e.Waited?, woken := woken || (asked && e.Signalled? && Usr1 in e.batch))
    }
  }

  // The call that began after the first since events.
  function Follow(max0: nat, log: seq<Event>, since: nat, all: bool, minReap: nat): Call
  {
    if |log| <= since then Call(all, minReap, 0, false, false, true)
    else
      var init := log[..|log| - 1];
      Follow(max0, init, since, all, minReap).Step(Play(max0, init), log[|log| - 1])
  }

  predicate Follows(max0: nat, log: seq<Event>, since: nat, call: Call)
  {
    since <= |log| && call == Follow(max0, log, since, call.all, call.minReap)
  }

  // In the part of the history since the call began, waitpid was called without WNOHANG exactly while all children
  // were waited for, or fewer than minReap had been reaped and no SIGUSR1 had come.
  predicate FlagsRight(max0: nat, log: seq<Event>, since: nat, all: bool, minReap: nat)
  {
    Follow(max0, log, since, all, minReap).right
  }

  lemma HistoryPush(max0: nat, log: seq<Event>, since: nat, call: Call, e: Event)
    requires Follows(max0, log, since, call)
    ensures Play(max0, log + [e]) == Next(Play(max0, log), e)
    ensures Follows(max0, log + [e], since, call.Step(Play(max0, log), e))
  {
    assert (log + [e])[..|log|] == log;
  }

  // How many children events since to i of the history reap.
  function Reaps(max0: nat, log: seq<Event>, since: nat, i: nat): nat
    requires i <= |log|
  {
    if i <= since then 0
    else Reaps(max0, log, since, i - 1) + if Removes(Play(max0, log[..i - 1]), log[i - 1]) then 1 else 0
  }

  // Since event w and before event i no child was reaped.
  ghost predicate NoneReaped(max0: nat, log: seq<Event>, w: nat, i: nat)
    requires i <= |log|
  {
    forall k :: w <= k < i ==> !Removes(Play(max0, log[..k]), log[k])
  }

  // Since the last child was reaped waitpid has been called.
  ghost predicate AskedAt(max0: nat, log: seq<Event>, since: nat, w: nat, i: nat)
    requires i <= |log|
  {
    since <= w < i && log[w].Waited? && NoneReaped(max0, log, w, i)
  }

  // And SIGUSR1 has come after that.
  ghost predicate WokenAt(max0: nat, log: seq<Event>, since: nat, w: nat, k: nat, i: nat)
    requires i <= |log|
  {
    AskedAt(max0, log, since, w, i) && w < k < i && log[k].Signalled? && Usr1 in log[k].batch
  }

  ghost predicate Asked(max0: nat, log: seq<Event>, since: nat, i: nat)
    requires i <= |log|
  {
    exists w :: AskedAt(max0, log, since, w, i)
  }

  ghost predicate Woken(max0: nat, log: seq<Event>, since: nat, i: nat)
    requires i <= |log|
  {
    exists w, k :: WokenAt(max0, log, since, w, k, i)
  }

  // Every waitpid since then could block as long as all children were waited for, or fewer than minReap had been
  // reaped and no SIGUSR1 had come, and no longer.
  ghost predicate BlocksRight(max0: nat, log: seq<Event>, since: nat, all: bool, minReap: nat, n: nat)
    requires n <= |log|
  {
    forall i :: since <= i < n && log[i].Waited? ==>
      (log[i].noHang <==> !all && (Reaps(max0, log, since, i) >= minReap || Woken(max0, log, since, i)))
  }

  lemma AskedStep(max0: nat, log: seq<Event>, since: nat, i: nat)
    requires since < i <= |log|
    ensures var reaped := Removes(Play(max0, log[..i - 1]), log[i - 1]);
      && (Asked(max0, log, since, i) <==> !reaped && (Asked(max0, log, since, i - 1) || log[i - 1].Waited?))
      && (Woken(max0, log, since, i) <==>
            !reaped && (Woken(max0, log, since, i - 1)
                        || (Asked(max0, log, since, i - 1) && log[i - 1].Signalled? && Usr1 in log[i - 1].batch)))
  {
    hide Removes, Play;
    var reaped := Removes(Play(max0, log[..i - 1]), log[i - 1]);
    if Asked(max0, log, since, i) {
      var w: nat :| AskedAt(max0, log, since, w, i);
      assert !reaped;
      if w < i - 1 { assert AskedAt(max0, log, since, w, i - 1); }
    }
    if Woken(max0, log, since, i) {
      var w: nat, k: nat :| WokenAt(max0, log, since, w, k, i);
      assert !reaped && AskedAt(max0, log, since, w, i - 1);
      if k < i - 1 { assert WokenAt(max0, log, since, w, k, i - 1); }
    }
    if !reaped {
      if log[i - 1].Waited? { assert AskedAt(max0, log, since, i - 1, i); }
      if Asked(max0, log, since, i - 1) {
        var w: nat :| AskedAt(max0, log, since, w, i - 1);
        assert AskedAt(max0, log, since, w, i);
        if log[i - 1].Signalled? && Usr1 in log[i - 1].batch { assert WokenAt(max0, log, since, w, i - 1, i); }
      }
      if Woken(max0, log, since, i - 1) {
        var w: nat, k: nat :| WokenAt(max0, log, since, w, k, i - 1);
        assert AskedAt(max0, log, since, w, i);
        assert WokenAt(max0, log, since, w, k, i);
      }
    }
  }

  lemma BlocksStep(max0: nat, log: seq<Event>, since: nat, all: bool, minReap: nat, n: nat)
    requires since < n <= |log|
    ensures BlocksRight(max0, log, since, all, minReap, n) <==>
      && BlocksRight(max0, log, since, all, minReap, n - 1)
      && (log[n - 1].Waited? ==>
            (log[n - 1].noHang <==>
              !all && (Reaps(max0, log, since, n - 1) >= minReap || Woken(max0, log, since, n - 1))))
  {
    hide Reaps, Woken;
  }

  lemma FollowStep(max0: nat, log: seq<Event>, since: nat, all: bool, minReap: nat, n: nat)
    requires since < n <= |log|
    ensures Follow(max0, log[..n], since, all, minReap)
      == Follow(max0, log[..n - 1], since, all, minReap).Step(Play(max0, log[..n - 1]), log[n - 1])
  {
    hide Play;
    assert log[..n][..n - 1] == log[..n - 1] && log[..n][n - 1] == log[n - 1];
  }

  // What the flags of one call of wait_for_proc mean.
  lemma {:induction false} FlagsMean(max0: nat, log: seq<Event>, since: nat, all: bool, minReap: nat, n: nat)
    requires since <= n <= |log|
    ensures var call := Follow(max0, log[..n], since, all, minReap);
      && call.all == all && call.minReap == minReap && call.count == Reaps(max0, log, since, n)
      && (call.asked <==> Asked(max0, log, since, n)) && (call.woken <==> Woken(max0, log, since, n))
      && (call.right <==> BlocksRight(max0, log, since, all, minReap, n))
  {
    if n > since {
      hide Removes, Play, Follow, Asked, Woken, BlocksRight;
      FlagsMean(max0, log, since, all, minReap, n - 1);
      AskedStep(max0, log, since, n);
      BlocksStep(max0, log, since, all, minReap, n);
      FollowStep(max0, log, since, all, minReap, n);
    } else {
      hide Removes, Play;
    }
  }

  lemma FlagsRightIff(max0: nat, log: seq<Event>, since: nat, all: bool, minReap: nat)
    requires since <= |log|
    ensures FlagsRight(max0, log, since, all, minReap) <==> BlocksRight(max0, log, since, all, minReap, |log|)
  {
    FlagsMean(max0, log, since, all, minReap, |log|);
    assert log[..|log|] == log;
  }

  // A waitpid since then blocks only where there is no room for one more child.
  predicate WaitsWhenFull(max0: nat, log: seq<Event>, since: nat)
  {
    forall i :: since <= i < |log| && log[i].Waited? && !log[i].noHang ==> !Play(max0, log[..i]).Room()
  }

  // Nothing but waitpid is called in the part of the history since then.
  predicate OnlyWaits(log: seq<Event>, since: nat)
  {
    forall i :: since <= i < |log| ==> log[i].Waited?
  }

  lemma {:induction false} SameScripts(was: seq<Event>, log: seq<Event>)
    requires was <= log && Forks(log) == Forks(was) && Batches(log) == Batches(was)
    ensures OnlyWaits(log, |was|)
  {
    if |was| < |log| {
      var init := log[..|log| - 1];
      Grows(was, init);
      SameScripts(was, init);
    }
  }

  lemma {:induction false} Grows(was: seq<Event>, log: seq<Event>)
    requires was <= log
    ensures Forks(was) <= Forks(log) && Batches(was) <= Batches(log)
  {
    if was != log {
      Grows(was, log[..|log| - 1]);
    }
  }

  lemma WaitKeepsRoom(p: Past, e: Event)
    requires e.Waited? && !Removes(p, e)
    ensures Next(p, e).Room() == p.Room()
  {
  }

  lemma PlayNext(max0: nat, log: seq<Event>, i: nat)
    requires 0 < i <= |log|
    ensures Play(max0, log[..i]) == Next(Play(max0, log[..i - 1]), log[i - 1])
  {
    hide Next;
    assert log[..i][..i - 1] == log[..i - 1] && log[..i][i - 1] == log[i - 1];
  }

  // As long as no child is reaped there is as much room as before.
  lemma {:induction false} StillFull(max0: nat, log: seq<Event>, since: nat, i: nat)
    requires since <= i <= |log| && OnlyWaits(log, since) && Reaps(max0, log, since, i) == 0
    ensures Play(max0, log[..i]).Room() == Play(max0, log[..since]).Room()
  {
    hide Next, Play, Removes;
    if since < i {
      StillFull(max0, log, since, i - 1);
      PlayNext(max0, log, i);
      WaitKeepsRoom(Play(max0, log[..i - 1]), log[i - 1]);
    }
  }

  // One call of wait_for_proc that asks for one child at most, and for none if there is room, blocks only without room.
  lemma WaitsForOne(max0: nat, was: seq<Event>, log: seq<Event>, minReap: nat)
    requires was <= log && Forks(log) == Forks(was) && Batches(log) == Batches(was)
    requires FlagsRight(max0, log, |was|, false, minReap) && minReap <= 1
    requires minReap == 1 ==> !Play(max0, was).Room()
    ensures WaitsWhenFull(max0, log, |was|)
  {
    hide FlagsRight, Play, Reaps;
    SameScripts(was, log);
    FlagsRightIff(max0, log, |was|, false, minReap);
    assert log[..|was|] == was;
    forall i | |was| <= i < |log| && log[i].Waited? && !log[i].noHang
      ensures !Play(max0, log[..i]).Room()
    {
      StillFull(max0, log, |was|, i);
    }
  }

  lemma FullNothing(max0: nat, log: seq<Event>)
    ensures WaitsWhenFull(max0, log, |log|)
  {
  }

  lemma FullConcat(max0: nat, was: seq<Event>, log: seq<Event>, since: nat)
    requires since <= |was| && was <= log && WaitsWhenFull(max0, was, since) && WaitsWhenFull(max0, log, |was|)
    ensures WaitsWhenFull(max0, log, since)
  {
    hide Play;
    assert forall i :: since <= i < |was| ==> log[..i] == was[..i];
  }

  lemma FullPush(max0: nat, log: seq<Event>, since: nat, e: Event)
    requires since <= |log| && WaitsWhenFull(max0, log, since) && !e.Waited?
    ensures WaitsWhenFull(max0, log + [e], since)
  {
    hide Play;
    assert forall i :: 0 <= i <= |log| ==> (log + [e])[..i] == log[..i];
  }

  // ----- The end of the run -----

  // What the process exits with. completed is whether every command was run, so that main returned child_error;
  // otherwise the first exit forced began the end. wait_for_proc_all then waits, where a second exit may be forced,
  // and it puts child_error in the place of any status that is not the one main returned.
  ghost function FinalStatus(past: Past, completed: bool): nat
    requires !completed ==> past.exits != []
  {
    if |past.exits| > (if completed then 0 else 1) then past.exits[|past.exits| - 1]
    else if completed || ErrorOf(past.reaped) != 0 then ErrorOf(past.reaped)
    else past.exits[0]
  }

  lemma {:induction false} ExitsAre(max0: nat, log: seq<Event>)
    ensures forall i :: 0 <= i < |Play(max0, log).exits| ==> Play(max0, log).exits[i] in {1, 124, 125, 126, 127}
  {
    if log != [] { ExitsAre(max0, log[..|log| - 1]); }
  }

  predicate Says255(s: Status) { s == Exited(255) || s == Stopped(255) }

  predicate Dies(s: Status) { s.Killed? || (s.Stopped? && s.signal != 255) }

  // A stopped or killed child and one that exits with 255 force an exit; any other failure is remembered.
  lemma StatusTable(s: Status)
    ensures (Forced(s) == Some(124) <==> Says255(s)) && (Forced(s) == Some(125) <==> Dies(s))
    ensures Failed(s) <==> s.Exited? && s.code != 0 && s.code != 255
  {
  }

  ghost predicate SomeReaped(p: Past, want: Status -> bool)
  {
    exists i :: 0 <= i < |p.reaped| && want(p.reaped[i].1)
  }

  ghost predicate SomeExec(log: seq<Event>, exec: ExecResult)
  {
    exists f :: f in Forks(log) && f.Child? && f.exec == exec
  }

  lemma ReapedPush(p: Past, q: Past, r: (int, Status), want: Status -> bool)
    requires q.reaped == p.reaped + [r]
    ensures SomeReaped(q, want) <==> SomeReaped(p, want) || want(r.1)
  {
    assert q.reaped[|p.reaped|] == r;
    assert forall i :: 0 <= i < |p.reaped| ==> q.reaped[i] == p.reaped[i];
  }

  lemma ExecPush(log: seq<Event>, exec: ExecResult)
    requires log != []
    ensures var e := log[|log| - 1];
      SomeExec(log, exec) <==> SomeExec(log[..|log| - 1], exec) || (e.Forked? && e.fork.Child? && e.fork.exec == exec)
  {
    var init, e := log[..|log| - 1], log[|log| - 1];
    if e.Forked? { assert e.fork in Forks(log); }
    assert forall f :: f in Forks(log) <==> f in Forks(init) || (e.Forked? && f == e.fork);
  }

  // Which exits are forced, if no fork returns the pid of a child still running: 124 for a child that exits with 255,
  // 125 for one that is killed or stopped, 126 and 127 for a command that cannot be run.
  lemma {:induction false} ExitsMean(max0: nat, log: seq<Event>)
    requires Fresh(max0, log)
    ensures var p := Play(max0, log);
      && (124 in p.exits <==> SomeReaped(p, Says255))
      && (125 in p.exits <==> SomeReaped(p, Dies))
      && (126 in p.exits <==> SomeExec(log, CannotRun)) && (127 in p.exits <==> SomeExec(log, NotFound))
  {
    if log != [] {
      var init, e := log[..|log| - 1], log[|log| - 1];
      var p, q := Play(max0, init), Play(max0, log);
      ExitsMean(max0, init);
      ExecPush(log, CannotRun);
      ExecPush(log, NotFound);
      assert q == Next(p, e);
      if Removes(p, e) {
        StatusTable(e.wait.status);
        ReapedPush(p, q, (e.wait.pid, e.wait.status), Says255);
        ReapedPush(p, q, (e.wait.pid, e.wait.status), Dies);
      } else {
        assert q.reaped == p.reaped;
      }
    }
  }

  // The documented status of a forced exit is kept exactly when no child had failed before or failed while xargs
  // waited for the others.
  lemma ForcedStatusKeptIff(max0: nat, log: seq<Event>)
    requires |Play(max0, log).exits| == 1
    ensures FinalStatus(Play(max0, log), false) == Play(max0, log).exits[0] <==>
      forall i :: 0 <= i < |Play(max0, log).reaped| ==> !Failed(Play(max0, log).reaped[i].1)
  {
    ExitsAre(max0, log);
  }

  // Two children are launched; one exits with 1, and then the other with 255, for which the manual promises 124.
  function LostStatus(noHang: bool): seq<Event>
  {
    [Forked(Child(1, Launched))] + [Forked(Child(2, Launched))]
      + [Waited(Reaped(1, Exited(1)), noHang)] + [Waited(Reaped(2, Exited(255)), noHang)]
  }

  lemma PlayPush(max0: nat, log: seq<Event>, e: Event)
    ensures Play(max0, log + [e]) == Next(Play(max0, log), e)
  {
    assert (log + [e])[..|log|] == log;
  }

  lemma TwoLaunched(p: Past)
    requires p.live == {} && p.exits == [] && p.reaped == []
    ensures var q := Next(Next(p, Forked(Child(1, Launched))), Forked(Child(2, Launched)));
      q.live == {1, 2} && q.exits == [] && q.reaped == []
  {
  }

  lemma BothEnd(p: Past, noHang: bool)
    requires p.live == {1, 2} && p.exits == [] && p.reaped == []
    ensures var q := Next(Next(p, Waited(Reaped(1, Exited(1)), noHang)), Waited(Reaped(2, Exited(255)), noHang));
      q.exits == [124] && q.reaped == [(1, Exited(1)), (2, Exited(255))]
  {
  }

  lemma PlayFour(max0: nat, a: Event, b: Event, c: Event, d: Event)
    ensures Play(max0, [a] + [b] + [c] + [d]) == Next(Next(Next(Next(Play(max0, []), a), b), c), d)
    ensures Play(max0, []).live == {} && Play(max0, []).exits == [] && Play(max0, []).reaped == []
  {
    hide Next;
    assert [] + [a] == [a];
    PlayPush(max0, [], a);
    PlayPush(max0, [a], b);
    PlayPush(max0, [a] + [b], c);
    PlayPush(max0, [a] + [b] + [c], d);
  }

  lemma StatusIsLost(noHang: bool)
    ensures var past := Play(0, LostStatus(noHang)); past.exits == [124] && FinalStatus(past, false) == 123
  {
    hide Play, Next;
    var a, b: Event := Forked(Child(1, Launched)), Forked(Child(2, Launched));
    var c, d: Event := Waited(Reaped(1, Exited(1)), noHang), Waited(Reaped(2, Exited(255)), noHang);
    PlayFour(0, a, b, c, d);
    TwoLaunched(Play(0, []));
    BothEnd(Next(Next(Play(0, []), a), b), noHang);
    assert Failed(Play(0, LostStatus(noHang)).reaped[0].1);
  }

  lemma ErrorOfPush(reaped: seq<(int, Status)>, r: (int, Status))
    ensures ErrorOf(reaped + [r]) == if Failed(r.1) then 123 else ErrorOf(reaped)
  {
    var more := reaped + [r];
    assert more[|reaped|] == r;
    assert forall i :: 0 <= i < |reaped| ==> more[i] == reaped[i];
  }
}
