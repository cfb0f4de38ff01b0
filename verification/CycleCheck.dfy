// gnulib/lib/cycle-check.c: a cycle of directories is noticed by comparing with the one recorded last, which is
// replaced whenever the number of calls is a power of two.
module CycleCheck {
  import opened Wrappers

  const WIDTH := 0x1_0000_0000_0000_0000

  // struct cycle_check_state, without the magic number.
  datatype Memory = Memory(recorded: DevIno, counter: nat)

  // The bitwise and of two unsigned integers.
  function And(a: nat, b: nat): (r: nat)
  {
    if a == 0 || b == 0 then 0 else 2 * And(a / 2, b / 2) + (if a % 2 == 1 && b % 2 == 1 then 1 else 0)
  }

  // i & (i - 1) in uintmax_t arithmetic.
  predicate IsZeroOrPowerOfTwo(i: nat)
  {
    And(i, (i - 1) % WIDTH) == 0
  }

  function Pow2(k: nat): (p: nat)
    ensures p > 0
  {
    if k == 0 then 1 else 2 * Pow2(k - 1)
  }

  ghost predicate IsPower(i: nat) { exists k: nat :: i == Pow2(k) }

  lemma {:induction false} HalfPower(h: nat)
    ensures IsPower(2 * h) <==> IsPower(h)
  {
    if IsPower(2 * h) {
      var k: nat :| 2 * h == Pow2(k);
      assert k > 0;
      assert h == Pow2(k - 1);
    }
    if IsPower(h) {
      var k: nat :| h == Pow2(k);
      assert 2 * h == Pow2(k + 1);
    }
  }

  lemma {:induction false} AndPredecessor(i: nat)
    requires i > 0
    ensures And(i, i - 1) == 0 <==> IsPower(i)
  {
    var h := i / 2;
    if i == 1 {
      assert 1 == Pow2(0);
    } else if i % 2 == 1 {
      assert And(i, i - 1) == 2 * And(h, h);
      AndSelf(h);
      assert forall k: nat :: i == Pow2(k) ==> k > 0;
    } else {
      AndPredecessor(h);
      assert (i - 1) / 2 == h - 1;
      HalfPower(h);
    }
  }

  lemma {:induction false} AndSelf(a: nat)
    ensures And(a, a) == a
  {
    if a != 0 {
      AndSelf(a / 2);
    }
  }

  lemma PowerTest(i: nat)
    requires i < WIDTH
    ensures IsZeroOrPowerOfTwo(i) <==> i == 0 || IsPower(i)
  {
    if i > 0 {
      AndPredecessor(i);
    }
  }

  // cycle_check on the state.
  function Step(m: Memory, d: DevIno): (bool, Memory)
  {
    if m.counter != 0 && d == m.recorded then (true, m)
    else
      var counter := (m.counter + 1) % WIDTH;
      if IsZeroOrPowerOfTwo(counter) then
        if counter == 0 then (true, m.(counter := 0)) else (false, Memory(d, counter))
      else (false, m.(counter := counter))
  }

  class Checker {
    var recorded: DevIno
    var counter: nat

    ghost function State(): Memory
      reads this
    {
      Memory(recorded, counter)
    }

    // cycle_check_init leaves dev_ino as it was.
    method Init()
      modifies `counter
      ensures counter == 0
    {
      counter := 0;
    }

    method Check(sb: DevIno) returns (found: bool)
      requires counter < WIDTH
      modifies this
      ensures (found, State()) == Step(old(State()), sb) && counter < WIDTH
    {
      if counter != 0 && sb == recorded { return true; }
      counter := (counter + 1) % WIDTH;
      if IsZeroOrPowerOfTwo(counter) {
        if counter == 0 { return true; }
        recorded := sb;
      }
      found := false;
    }

    // The calls of one descent into d(1), d(2), ..., up to the first that finds a cycle, and no more than calls.
    method Descend(d: nat -> DevIno, calls: nat) returns (found: bool, n: nat)
      requires counter == 0
      modifies this
      ensures n <= calls
      ensures !found ==> Quiet(d, old(recorded), calls)
      ensures found ==> 1 <= n && Fires(d, old(recorded), n) && Quiet(d, old(recorded), n - 1)
    {
      hide IsZeroOrPowerOfTwo;
      n := 0;
      found := false;
      while n < calls
        invariant n <= calls && counter < WIDTH && State() == After(d, old(recorded), n) && !found
        invariant Quiet(d, old(recorded), n)
      {
        n := n + 1;
        found := Check(d(n));
        assert found == Fires(d, old(recorded), n);
        if found { return; }
      }
    }
  }

  // The state after n calls, for any stale contents of dev_ino, and whether call n returns true.
  function After(d: nat -> DevIno, stale: DevIno, n: nat): Memory
  {
    if n == 0 then Memory(stale, 0) else Step(After(d, stale, n - 1), d(n)).1
  }

  predicate Fires(d: nat -> DevIno, stale: DevIno, n: nat)
    requires n > 0
  {
    Step(After(d, stale, n - 1), d(n)).0
  }

  ghost predicate Quiet(d: nat -> DevIno, stale: DevIno, n: nat)
  {
    forall i :: 1 <= i <= n ==> !Fires(d, stale, i)
  }

  // While no call has returned true, the recorded directory is the one of the last call whose number is a power of two.
  lemma {:induction false} Recorded(d: nat -> DevIno, stale: DevIno, n: nat, k: nat)
    requires Quiet(d, stale, n) && Pow2(k) <= n < 2 * Pow2(k)
    ensures n < WIDTH && After(d, stale, n) == Memory(d(Pow2(k)), n)
  {
    hide IsZeroOrPowerOfTwo;
    var p := Pow2(k);
    assert Quiet(d, stale, n - 1);
    Counted(d, stale, n);
    PowerTest(n);
    if n == p {
      assert IsPower(n);
    } else {
      assert !IsPower(n) by {
        forall j: nat
          ensures n != Pow2(j)
        {
          Between(n, k, j);
        }
      }
      Recorded(d, stale, n - 1, k);
    }
  }

  // While no call has returned true the counter is the number of calls, and has not wrapped.
  lemma {:induction false} Counted(d: nat -> DevIno, stale: DevIno, n: nat)
    requires Quiet(d, stale, n)
    ensures n < WIDTH && After(d, stale, n).counter == n
  {
    hide IsZeroOrPowerOfTwo;
    if n > 0 {
      assert Quiet(d, stale, n - 1);
      Counted(d, stale, n - 1);
      assert !Fires(d, stale, n);
      PowerTest(0);
    }
  }

  lemma {:induction false} Monotone(j: nat, k: nat)
    requires j <= k
    ensures Pow2(j) <= Pow2(k)
  {
    if j < k { Monotone(j, k - 1); }
  }

  lemma Between(n: nat, k: nat, j: nat)
    requires Pow2(k) < n < 2 * Pow2(k)
    ensures n != Pow2(j)
  {
    if j <= k { Monotone(j, k); } else { Monotone(k + 1, j); }
  }

  // Sound: before the counter wraps, true means the directory is that of an earlier call.
  lemma {:induction false} Sound(d: nat -> DevIno, stale: DevIno, n: nat)
    requires 1 <= n < WIDTH && Quiet(d, stale, n - 1) && Fires(d, stale, n)
    ensures exists i :: 1 <= i < n && d(i) == d(n)
  {
    hide IsZeroOrPowerOfTwo;
    if n > 1 {
      Recorded(d, stale, n - 1, Log(n - 1));
    }
  }

  function Log(n: nat): (k: nat)
    requires n > 0
    ensures Pow2(k) <= n < 2 * Pow2(k)
  {
    if n == 1 then 0 else Log(n / 2) + 1
  }

  // Complete: a descent that repeats with period l from call m on is noticed by call p + l, where p is the least
  // power of two that is at least m and l.
  lemma Complete(d: nat -> DevIno, stale: DevIno, m: nat, l: nat, k: nat)
    requires l > 0 && (forall i :: i >= m ==> d(i + l) == d(i)) && Pow2(k) >= m && Pow2(k) >= l
    ensures exists n :: 1 <= n <= Pow2(k) + l && Fires(d, stale, n)
  {
    var p := Pow2(k);
    if Quiet(d, stale, p + l - 1) {
      Recorded(d, stale, p + l - 1, k);
      assert d(p + l) == d(p);
      assert Fires(d, stale, p + l);
    }
  }
}
