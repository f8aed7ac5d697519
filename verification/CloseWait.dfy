/** The wait for outstanding I/O when a file is closed: the same loop in src/iocp_context.cpp
    (1133-1143, 1202-1215) and src/backends/thread_io_backend.cpp (544-555). */
module CloseWait {
  const CLOSE_ALL_TIMEOUT_MS: nat := 500

  /** The length of the next sleep after one of w. */
  function NextSleep(w: nat): (w': nat)
    ensures w <= 32 ==> w' <= 32
  {
    if w * 2 < 32 then w * 2 else 32
  }

  /** The length of sleep k: 1, 2, 4, 8, 16, 32, 32, ... */
  function SleepTime(k: nat): nat {
    if k == 0 then 1 else if k == 1 then 2 else if k == 2 then 4 else if k == 3 then 8 else if k == 4 then 16 else 32
  }

  /** The time slept before sleep k. */
  function Slept(k: nat): nat {
    if k == 0 then 0 else Slept(k - 1) + SleepTime(k - 1)
  }

  lemma {:induction false} SleptClosedForm(k: nat)
    ensures k >= 5 ==> Slept(k) == 31 + 32 * (k - 5)
    ensures k < 5 ==> Slept(k) == SleepTime(k) - 1
  {
    if k > 0 {
      SleptClosedForm(k - 1);
    }
  }

  /** The loop goes to sleep k. */
  predicate GoesOn(timeoutMs: nat, pending: nat -> int, k: nat) {
    Slept(k) < timeoutMs && pending(k) > 0
  }

  lemma NextSleepTime(k: nat)
    ensures NextSleep(SleepTime(k)) == SleepTime(k + 1) && 1 <= SleepTime(k) <= 32
    ensures Slept(k + 1) == Slept(k) + SleepTime(k)
  {
  }

  /** `pending(k)` is the counter seen before sleep k. The wait stops at the first moment it sees
      none pending or has slept for the timeout, and overshoots that by at most 31 ms. */
  method Wait(timeoutMs: nat, pending: nat -> int) returns (elapsed: nat, sleeps: nat)
    ensures elapsed == Slept(sleeps) <= timeoutMs + 31
    ensures pending(sleeps) <= 0 || elapsed >= timeoutMs
    ensures forall k: nat :: k < sleeps ==> GoesOn(timeoutMs, pending, k)
  {
    hide Slept, SleepTime, NextSleep;
    var w := 1;
    elapsed, sleeps := 0, 0;
    SleptZero();
    while elapsed < timeoutMs && pending(sleeps) > 0
      invariant elapsed == Slept(sleeps) <= timeoutMs + 31 && w == SleepTime(sleeps)
      invariant forall k: nat :: k < sleeps ==> GoesOn(timeoutMs, pending, k)
      decreases timeoutMs + 31 - elapsed
    {
      NextSleepTime(sleeps);
      elapsed := elapsed + w;
      w := NextSleep(w);
      sleeps := sleeps + 1;
    }
  }

  lemma SleptZero()
    ensures Slept(0) == 0 && SleepTime(0) == 1
  {
  }
}
