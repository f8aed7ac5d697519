/** The dispatch protocol of ResultBatcher (src/result_batcher.cpp) as a transition system.

    Each locked section is one step. Scheduling the drain callback happens outside the lock and
    may fail; the flag is then cleared in another locked section. The event loop runs one drain
    callback at a time: the swap of the batch is one step, each dispatch another. */
module BatchProtocol {
  /** What the mutex guards. */
  datatype Shared<E> = Shared(batch: seq<E>, dispatchPending: bool, hasPending: bool) {
    function Push(e: E): Shared<E> {
      Shared(batch + [e], dispatchPending, true)
    }

    /** The locked section of `flush`: the new state and whether this thread has to schedule. */
    function Flush(): (Shared<E>, bool) {
      if batch == [] || dispatchPending then (this, false) else (this.(dispatchPending := true), true)
    }

    /** The locked section of the drain callback. */
    function Drain(): (Shared<E>, seq<E>) {
      (Shared([], false, false), batch)
    }

    /** The locked section after scheduling failed. */
    function Reset(): Shared<E> {
      this.(dispatchPending := false)
    }
  }

  /** `scheduling`: threads between setting the flag and the outcome of call_soon_threadsafe;
      `failed`: threads whose scheduling failed and that have not cleared the flag yet;
      `queued`: callbacks the loop has accepted; `draining`: what the running callback has
      swapped out and not yet dispatched. `pushed` is history. */
  datatype State<E> = State(shared: Shared<E>, scheduling: set<nat>, failed: set<nat>, queued: nat,
                            draining: seq<E>, dispatched: seq<E>, pushed: seq<E>)

  datatype Step<E> =
    | Push(thread: nat, entry: E)
    | Flush(thread: nat)
    | ScheduleOk(thread: nat)
    | ScheduleFails(thread: nat)
    | ResetFlag(thread: nat)
    | DrainStart
    | DispatchOne

  predicate Initial<E(==)>(s: State<E>) {
    s == State(Shared([], false, false), {}, {}, 0, [], [], [])
  }

  predicate Enabled<E(==)>(s: State<E>, step: Step<E>) {
    match step
    case Push(t, _) => t !in s.scheduling && t !in s.failed
    case Flush(t) => t !in s.scheduling && t !in s.failed
    case ScheduleOk(t) => t in s.scheduling
    case ScheduleFails(t) => t in s.scheduling
    case ResetFlag(t) => t in s.failed
    case DrainStart => s.queued > 0 && s.draining == []
    case DispatchOne => s.draining != []
  }

  function Do<E(==)>(s: State<E>, step: Step<E>): State<E>
    requires Enabled(s, step)
  {
    match step
    case Push(_, e) => s.(shared := s.shared.Push(e), pushed := s.pushed + [e])
    case Flush(t) =>
      var (shared, need) := s.shared.Flush();
      s.(shared := shared, scheduling := if need then s.scheduling + {t} else s.scheduling)
    case ScheduleOk(t) => s.(scheduling := s.scheduling - {t}, queued := s.queued + 1)
    case ScheduleFails(t) => s.(scheduling := s.scheduling - {t}, failed := s.failed + {t})
    case ResetFlag(t) => s.(failed := s.failed - {t}, shared := s.shared.Reset())
    case DrainStart =>
      var (shared, batch) := s.shared.Drain();
      s.(shared := shared, queued := s.queued - 1, draining := batch)
    case DispatchOne => s.(draining := s.draining[1..], dispatched := s.dispatched + [s.draining[0]])
  }

  /** Who is responsible for the entries in the batch. */
  function Tokens<E>(s: State<E>): nat {
    |s.scheduling| + |s.failed| + s.queued
  }

  /** Results leave in the order they came; one party is responsible for dispatching, if any. */
  predicate Inv<E(==)>(s: State<E>) {
    InOrder(s) && OneToken(s)
  }

  predicate InOrder<E(==)>(s: State<E>) {
    && s.pushed == s.dispatched + s.draining + s.shared.batch
    && (s.shared.hasPending <==> s.shared.batch != [])
  }

  predicate OneToken<E>(s: State<E>) {
    Tokens(s) == (if s.shared.dispatchPending then 1 else 0)
  }

  lemma StepKeepsInv<E>(s: State<E>, step: Step<E>)
    requires Inv(s) && Enabled(s, step)
    ensures Inv(Do(s, step))
  {
    StepKeepsOrder(s, step);
    StepKeepsToken(s, step);
  }

  lemma StepKeepsOrder<E>(s: State<E>, step: Step<E>)
    requires InOrder(s) && Enabled(s, step)
    ensures InOrder(Do(s, step))
  {
    if step.DispatchOne? {
      assert s.draining == [s.draining[0]] + s.draining[1..];
    }
  }

  lemma StepKeepsToken<E>(s: State<E>, step: Step<E>)
    requires OneToken(s) && Enabled(s, step)
    ensures OneToken(Do(s, step))
  {
    match step {
      case Flush(t) => assert |s.scheduling + {t}| == |s.scheduling| + 1;
      case ScheduleOk(t) => assert |s.scheduling - {t}| == |s.scheduling| - 1;
      case ScheduleFails(t) =>
        assert |s.scheduling - {t}| == |s.scheduling| - 1;
        assert s.failed == {};
      case ResetFlag(t) => assert |s.failed - {t}| == |s.failed| - 1;
      case _ =>
    }
  }

  predicate Runs<E(==)>(s: State<E>, steps: seq<Step<E>>)
    decreases |steps|
  {
    steps == [] || (Enabled(s, steps[0]) && Runs(Do(s, steps[0]), steps[1..]))
  }

  function Final<E(==)>(s: State<E>, steps: seq<Step<E>>): State<E>
    requires Runs(s, steps)
    decreases |steps|
  {
    if steps == [] then s else Final(Do(s, steps[0]), steps[1..])
  }

  /** Every interleaving of every number of threads, with any scheduling failures. */
  lemma {:induction false} EveryRun<E>(s: State<E>, steps: seq<Step<E>>)
    requires Inv(s) && Runs(s, steps)
    ensures Inv(Final(s, steps))
    decreases |steps|
  {
    if steps != [] {
      StepKeepsInv(s, steps[0]);
      EveryRun(Do(s, steps[0]), steps[1..]);
    }
  }

  /** What the invariant means: results reach their futures in the order they were pushed, none
      lost or repeated; and the flag is set exactly while one single thread is about to
      schedule, or has failed and not yet cleared it, or one callback is queued. */
  lemma RunsDeliverInOrder<E>(init: State<E>, steps: seq<Step<E>>)
    requires Initial(init) && Runs(init, steps)
    ensures var s := Final(init, steps);
            && s.dispatched <= s.pushed && s.pushed == s.dispatched + s.draining + s.shared.batch
            && (s.shared.hasPending <==> s.shared.batch != [])
            && (s.shared.dispatchPending ==>
                  || (|s.scheduling| == 1 && s.failed == {} && s.queued == 0)
                  || (s.scheduling == {} && |s.failed| == 1 && s.queued == 0)
                  || (s.scheduling == {} && s.failed == {} && s.queued == 1))
            && (!s.shared.dispatchPending ==> s.scheduling == {} && s.failed == {} && s.queued == 0)
  {
    EveryRun(init, steps);
    var s := Final(init, steps);
    assert |s.scheduling| > 0 || s.scheduling == {};
    assert |s.failed| > 0 || s.failed == {};
  }

  /** A failed schedule leaves the batch and its order alone, and once the flag is cleared the
      next flush by any free thread takes over. */
  lemma FailureIsRetried<E>(s: State<E>, t: nat, u: nat)
    requires Inv(s) && t in s.scheduling && s.shared.batch != []
    requires u == t || (u !in s.scheduling && u !in s.failed)
    ensures var s1 := Do(s, ScheduleFails(t));
            && s1.shared == s.shared && Enabled(s1, ResetFlag(t))
            && var s2 := Do(s1, ResetFlag(t));
               && s2.shared == s.shared.(dispatchPending := false) && Enabled(s2, Step.Flush(u))
               && Do(s2, Step.Flush(u)) == s.(scheduling := {u}, failed := {})
  {
    assert |s.scheduling - {t}| == |s.scheduling| - 1;
    assert s.failed == {} && s.scheduling - {t} == {};
    assert {} + {u} == {u} && ({} + {t}) - {t} == {};
  }

  // ------------------------------------------------------------------ nothing gets stuck

  predicate NoFailure<E(==)>(steps: seq<Step<E>>) {
    forall i :: 0 <= i < |steps| ==> !steps[i].ScheduleFails? && !steps[i].Push?
  }

  lemma {:induction false} RunsConcat<E>(s: State<E>, a: seq<Step<E>>, b: seq<Step<E>>)
    requires Runs(s, a) && Runs(Final(s, a), b)
    ensures Runs(s, a + b) && Final(s, a + b) == Final(Final(s, a), b)
    decreases |a|
  {
    if a == [] {
      assert a + b == b;
    } else {
      assert (a + b)[1..] == a[1..] + b && (a + b)[0] == a[0];
      RunsConcat(Do(s, a[0]), a[1..], b);
    }
  }

  lemma {:induction false} DispatchAll<E>(s: State<E>) returns (steps: seq<Step<E>>)
    ensures Runs(s, steps) && NoFailure(steps)
    ensures Final(s, steps) == s.(draining := [], dispatched := s.dispatched + s.draining)
    decreases |s.draining|
  {
    if s.draining == [] {
      steps := [];
      assert s.dispatched + s.draining == s.dispatched;
    } else {
      var rest := DispatchAll(Do(s, DispatchOne));
      steps := [DispatchOne] + rest;
      assert steps[1..] == rest;
      assert s.dispatched + [s.draining[0]] + s.draining[1..] == s.dispatched + s.draining;
    }
  }

  /** From every reachable state, if scheduling stops failing and one free thread flushes, all
      that has been pushed is dispatched. */
  lemma NothingIsStuck<E>(s: State<E>, t: nat) returns (steps: seq<Step<E>>)
    requires Inv(s) && t !in s.scheduling && t !in s.failed
    ensures Runs(s, steps) && NoFailure(steps)
    ensures Final(s, steps).dispatched == s.pushed == Final(s, steps).pushed
    ensures Final(s, steps).shared == Shared([], false, false)
  {
    var clear := ReachQueuedOrFree(s);
    var s1 := Final(s, clear);
    EveryRun(s, clear);
    var sched := EnsureQueued(s1, t);
    var s2 := Final(s1, sched);
    EveryRun(s1, sched);
    var out := DrainQueued(s2);
    RunsConcat(s1, sched, out);
    RunsConcat(s, clear, sched + out);
    steps := clear + (sched + out);
  }

  /** A batch nobody is responsible for gets a queued callback by one flush. */
  lemma EnsureQueued<E>(s: State<E>, t: nat) returns (steps: seq<Step<E>>)
    requires Inv(s) && s.scheduling == {} && s.failed == {}
    ensures Runs(s, steps) && NoFailure(steps)
    ensures var s' := Final(s, steps);
            && s'.scheduling == {} && s'.failed == {} && s'.pushed == s.pushed
            && (s'.queued > 0 || s'.shared.batch == [])
  {
    steps := [];
    if s.shared.batch != [] && !s.shared.dispatchPending {
      var flush, ok: Step<E> := Step.Flush(t), ScheduleOk(t);
      steps := [flush, ok];
      var s1 := Do(s, flush);
      assert t in s1.scheduling && Enabled(s1, ok);
      var s2 := Do(s1, ok);
      assert Runs(s2, []) && steps[1..] == [ok] && [ok][1..] == [];
      assert Runs(s1, [ok]);
      assert Final(s1, [ok]) == s2;
    }
  }

  /** The queued callback, if any, empties the batch. */
  lemma DrainQueued<E>(s: State<E>) returns (steps: seq<Step<E>>)
    requires Inv(s) && s.scheduling == {} && s.failed == {} && (s.queued > 0 || s.shared.batch == [])
    ensures Runs(s, steps) && NoFailure(steps)
    ensures var s' := Final(s, steps);
            s'.dispatched == s.pushed == s'.pushed && s'.shared == Shared([], false, false)
  {
    steps := DispatchAll(s);
    var s1 := Final(s, steps);
    EveryRun(s, steps);
    if s1.queued > 0 {
      var drain: seq<Step<E>> := [DrainStart];
      var s2 := Do(s1, DrainStart);
      assert drain[1..] == [] && Runs(s2, []) && Runs(s1, drain) && Final(s1, drain) == s2;
      var last := DispatchAll(s2);
      RunsConcat(s1, drain, last);
      EveryRun(s1, drain + last);
      RunsConcat(s, steps, drain + last);
      steps := steps + (drain + last);
    }
  }

  lemma TokensZero<E>(s: State<E>)
    requires Inv(s)
    ensures !s.shared.dispatchPending ==> s.scheduling == {} && s.failed == {} && s.queued == 0
    ensures s.shared.dispatchPending && s.queued > 0 ==> s.scheduling == {} && s.failed == {} && s.queued == 1
  {
    assert s.scheduling != {} ==> |s.scheduling| > 0;
    assert s.failed != {} ==> |s.failed| > 0;
  }

  /** A thread that is about to schedule succeeds, or one that failed clears the flag. */
  lemma ReachQueuedOrFree<E>(s: State<E>) returns (steps: seq<Step<E>>)
    requires Inv(s)
    ensures Runs(s, steps) && NoFailure(steps)
    ensures var s' := Final(s, steps);
            && s'.scheduling == {} && s'.failed == {} && s'.shared.batch == s.shared.batch && s'.pushed == s.pushed
            && s'.queued == (if s'.shared.dispatchPending then 1 else 0)
  {
    steps := [];
    if t :| t in s.scheduling {
      steps := [ScheduleOk(t)];
      assert steps[1..] == [];
      assert |s.scheduling - {t}| == |s.scheduling| - 1;
    } else if t :| t in s.failed {
      steps := [ResetFlag(t)];
      assert steps[1..] == [];
      assert |s.failed - {t}| == |s.failed| - 1;
    }
    EveryRun(s, steps);
    var s' := Final(s, steps);
    if s.scheduling == {} && s.failed == {} { TokensZero(s); }
  }

  // ------------------------------------------------------------------ whichever way it goes on

  predicate Quiet<E>(s: State<E>) {
    s.scheduling == {} && s.failed == {} && s.queued == 0 && s.draining == []
  }

  /** Some flush comes at a moment when no failed thread has yet to clear the flag. */
  predicate FlushedFree<E(==)>(s: State<E>, steps: seq<Step<E>>)
    requires Runs(s, steps)
    decreases |steps|
  {
    steps != [] && ((steps[0].Flush? && s.failed == {}) || FlushedFree(Do(s, steps[0]), steps[1..]))
  }

  /** A callback is queued or will be. */
  predicate InMotion<E(==)>(s: State<E>) {
    s.shared.dispatchPending && s.failed == {}
  }

  lemma StepMovesTowards<E>(s: State<E>, step: Step<E>)
    requires Inv(s) && Enabled(s, step) && !step.ScheduleFails? && !step.Push?
    ensures var s' := Do(s, step);
            && (s'.shared.batch == [] || InMotion(s') <==>
                  s.shared.batch == [] || InMotion(s) || (step.Flush? && s.failed == {}))
            && s'.pushed == s.pushed
  {
    TokensZero(s);
    match step {
      case ScheduleOk(t) => assert |s.scheduling| > 0 && |s.failed| == 0;
      case ResetFlag(t) => assert |s.failed - {t}| == |s.failed| - 1;
      case DrainStart =>
      case _ =>
    }
  }

  /** Every run without further failures or pushes, however it interleaves, that comes to rest has
      dispatched everything if and only if the batch was empty or in motion at the start, or some
      flush came while no failed thread had yet to clear the flag. */
  lemma {:induction false} RestIsCompleteIff<E>(s: State<E>, steps: seq<Step<E>>)
    requires Inv(s) && Runs(s, steps) && NoFailure(steps) && Quiet(Final(s, steps))
    ensures Final(s, steps).pushed == s.pushed
    ensures Final(s, steps).dispatched == s.pushed <==> s.shared.batch == [] || InMotion(s) || FlushedFree(s, steps)
    decreases |steps|
  {
    if steps == [] {
      TokensZero(s);
      assert s.pushed == s.dispatched + s.shared.batch;
      assert |s.pushed| == |s.dispatched| + |s.shared.batch|;
    } else {
      StepMovesTowards(s, steps[0]);
      StepKeepsInv(s, steps[0]);
      NoFailureTail(steps);
      hide Inv, Do, Enabled, InMotion, NoFailure;
      RestIsCompleteIff(Do(s, steps[0]), steps[1..]);
    }
  }

  lemma NoFailureTail<E>(steps: seq<Step<E>>)
    requires NoFailure(steps) && steps != []
    ensures NoFailure(steps[1..]) && !steps[0].ScheduleFails? && !steps[0].Push?
  {
  }
}
