/** Closing gets done (src/iocp_context.cpp, submit_close and close_all_sessions): whoever clears the
    `running` flag of a session needs a bounded number of steps of its own, whatever happens between them,
    until the handle has been given up, closed once if it is owned, and the session is out of the map.

    What is said here holds over every run, however late completions are repeated. */
module Closers {
  import opened CloseWait
  import opened Iocp
  import opened Options
  import opened Quarantines

  /** How many steps a closer has still to take at most; the last ones close and remove. */
  function Left(closer: Closer): nat {
    match closer.phase
    case Won => closer.timeout + 4
    case Waiting => 3 + if closer.elapsed < closer.timeout then closer.timeout - closer.elapsed else 0
    case Closing => 2
    case Removing => 1
    case Gone => 0
  }

  function OwnSteps(steps: seq<Step>, c: nat): nat {
    if steps == [] then 0 else (if steps[0] == CloserStep(c) then 1 else 0) + OwnSteps(steps[1..], c)
  }

  predicate SameJob(closer: Closer, closer': Closer) {
    closer'.session == closer.session && closer'.timeout == closer.timeout && closer'.sweep == closer.sweep
  }

  /** A closer's own step brings it nearer to its end, and no other step concerns it. */
  predicate Nearer(closer: Closer, closer': Closer, own: bool) {
    && SameJob(closer, closer')
    && if own then closer'.phase.Gone? || Left(closer') < Left(closer) else closer' == closer
  }

  /** A session never runs again, nor does it come back into the map. */
  predicate Onward(session: Session, session': Session) {
    && session'.owned == session.owned
    && (session'.running ==> session.running) && (session'.inMap ==> session.inMap)
  }

  ghost predicate Goes(w: World, step: Step, w': World) {
    && |w'.sessions| >= |w.sessions| && |w'.closers| >= |w.closers|
    && (forall c: nat :: c < |w.closers| ==> Nearer(w.closers[c], w'.closers[c], step == CloserStep(c)))
    && (forall s: nat :: s < |w.sessions| ==> Onward(w.sessions[s], w'.sessions[s]))
  }

  /** Handles are closed at most once and closers are where they should be; neither depends on what is done
      to requests. */
  ghost predicate Shut(w: World) {
    CloseInv(w) && forall s: nat :: s < |w.sessions| ==> ClosedOnce(w.sessions[s])
  }

  lemma AdvanceNearer(w: World, c: nat)
    requires Enabled(w, CloserStep(c)) && CloserOk(w, w.closers[c])
    ensures |Advance(w, c).closers| == |w.closers| && Nearer(w.closers[c], Advance(w, c).closers[c], true)
  {
  }

  lemma AdvanceGoes(w: World, c: nat)
    requires Shut(w) && Enabled(w, CloserStep(c))
    ensures Goes(w, CloserStep(c), Advance(w, c))
  {
    assert CloserOk(w, w.closers[c]);
    AdvanceNearer(w, c);
    hide Shut, Left;
  }

  /** What a delivery, be it a repetition that comes too late, does to sessions and closers: the counter of
      the session in its packet may go down. */
  ghost predicate OnlyCounts(w: World, w': World) {
    && w'.closers == w.closers && w'.sweeps == w.sweeps && |w'.sessions| == |w.sessions|
    && forall s: nat :: s < |w.sessions| ==> LosesOne(w.sessions[s], w'.sessions[s])
  }

  predicate LosesOne(session: Session, session': Session) {
    session' == session.(pending := session'.pending) && session'.pending <= session.pending
  }

  lemma ProcessOnlyCounts(w: World, i: nat, s: nat, k: Worker)
    requires i < |w.requests| && s < |w.sessions|
    ensures OnlyCounts(w, Process(w, i, s, k))
  {
    hide Pushed, Free;
  }

  lemma DeliverOnlyCounts(w: World, i: nat, k: Worker)
    requires Enabled(w, Deliver(i, k))
    ensures OnlyCounts(w, Do(w, Deliver(i, k)))
  {
    var o := Occupant(w.requests, w.requests[i].addr);
    if o.Some? { ProcessOnlyCounts(Wakened(w, k), o.value, w.requests[i].session, k); }
    hide Process, Occupant;
  }

  lemma StepGoes(w: World, step: Step)
    requires Shut(w) && Enabled(w, step)
    ensures Goes(w, step, Do(w, step))
  {
    match step {
      case Deliver(i, k) =>
        DeliverOnlyCounts(w, i, k);
        hide Do, Shut;
      case CloserStep(c) =>
        AdvanceGoes(w, c);
        hide Goes;
      case _ =>
        QuietGoes(w, step);
        hide Goes;
    }
  }

  lemma StepKeepsShut(w: World, step: Step)
    requires Shut(w) && Enabled(w, step)
    ensures Shut(Do(w, step))
  {
    StepKeepsHandles(w, step);
    match step {
      case CloserStep(c) =>
        assert ClosedOnce(w.sessions[w.closers[c].session]);
        AdvanceKeepsClosers(w, c);
      case Close(s, timeout, sweep) => WinKeepsClosers(w, s, timeout, sweep);
      case Deliver(i, k) =>
        DeliverOnlyCounts(w, i, k);
        hide Do;
        ShrinkKeepsClosers(w, Do(w, step));
      case Submit(_, _, _) => SubmitKeepsClosers(w, step);
      case _ => OthersKeepClosers(w, step);
    }
  }

  lemma StepKeepsHandles(w: World, step: Step)
    requires Shut(w) && Enabled(w, step)
    ensures forall s: nat :: s < |Do(w, step).sessions| ==> ClosedOnce(Do(w, step).sessions[s])
  {
    match step {
      case Deliver(i, k) =>
        DeliverOnlyCounts(w, i, k);
        hide Do;
        forall s: nat | s < |w.sessions| ensures ClosedOnce(Do(w, step).sessions[s]) {
          assert LosesOne(w.sessions[s], Do(w, step).sessions[s]) && ClosedOnce(w.sessions[s]);
        }
      case CloserStep(c) => assert CloserOk(w, w.closers[c]) && ClosedOnce(w.sessions[w.closers[c].session]);
      case _ =>
    }
  }

  lemma QuietGoes(w: World, step: Step)
    requires Enabled(w, step) && !step.Deliver? && !step.CloserStep?
    ensures Goes(w, step, Do(w, step))
  {
    hide Free, Kept, Expired, Occupant;
  }

  // ------------------------------------------------------------------ over whole runs

  lemma {:induction false} ShutOverRuns(w: World, steps: seq<Step>)
    requires Shut(w) && Runs(w, steps)
    ensures Shut(Reached(w, steps))
    decreases |steps|
  {
    if steps != [] {
      StepKeepsShut(w, steps[0]);
      hide Shut, Do, Enabled;
      ShutOverRuns(Do(w, steps[0]), steps[1..]);
    }
  }

  lemma {:induction false} OnwardOverRuns(w: World, steps: seq<Step>, s: nat)
    requires Shut(w) && Runs(w, steps) && s < |w.sessions|
    ensures s < |Reached(w, steps).sessions| && Onward(w.sessions[s], Reached(w, steps).sessions[s])
    decreases |steps|
  {
    if steps != [] {
      StepGoes(w, steps[0]);
      StepKeepsShut(w, steps[0]);
      hide Shut, Do, Enabled;
      OnwardOverRuns(Do(w, steps[0]), steps[1..], s);
    }
  }

  lemma {:induction false} NearerOverRuns(w: World, steps: seq<Step>, c: nat)
    requires Shut(w) && Runs(w, steps) && c < |w.closers|
    ensures c < |Reached(w, steps).closers| && SameJob(w.closers[c], Reached(w, steps).closers[c])
    ensures var closer := Reached(w, steps).closers[c];
            closer.phase.Gone? || Left(closer) + OwnSteps(steps, c) <= Left(w.closers[c])
    decreases |steps|
  {
    if steps != [] {
      StepGoes(w, steps[0]);
      StepKeepsShut(w, steps[0]);
      hide Shut, Do, Enabled;
      var w1 := Do(w, steps[0]);
      assert Nearer(w.closers[c], w1.closers[c], steps[0] == CloserStep(c));
      NearerOverRuns(w1, steps[1..], c);
    }
  }

  // ------------------------------------------------------------------ who closes a session

  ghost predicate WorksOn(w: World, c: nat, s: nat) {
    c < |w.closers| && w.closers[c].session == s
  }

  /** Some closer works, or has worked, on the session. */
  ghost predicate Claimed(w: World, s: nat) {
    exists c: nat :: WorksOn(w, c, s)
  }

  /** The closer has slept k times, 1, 2, 4, ... milliseconds. */
  ghost predicate HasSlept(closer: Closer) {
    exists k: nat :: SleptTimes(closer, k)
  }

  predicate SleptTimes(closer: Closer, k: nat) {
    closer.elapsed == Slept(k) && closer.w == SleepTime(k)
  }

  /** No flag is cleared without a closer, and closers wait as the loop of `CloseWait` does. */
  ghost predicate ClaimInv(w: World) {
    && (forall s: nat :: s < |w.sessions| && !w.sessions[s].running ==> Claimed(w, s))
    && (forall c: nat :: c < |w.closers| ==> HasSlept(w.closers[c]))
  }

  /** The flag of a session is cleared only by a close, which adds its closer. */
  lemma StepClaims(w: World, step: Step, s: nat)
    requires Shut(w) && Enabled(w, step)
    requires s < |Do(w, step).sessions| && !Do(w, step).sessions[s].running
    ensures (s < |w.sessions| && !w.sessions[s].running) || WorksOn(Do(w, step), |w.closers|, s)
  {
    hide CloseInv;
    match step {
      case Deliver(i, k) =>
        DeliverOnlyCounts(w, i, k);
        hide Do;
        assert LosesOne(w.sessions[s], Do(w, step).sessions[s]);
      case DrainQuarantine(_) => hide Free, Kept, Expired;
      case _ =>
    }
  }

  lemma AdvanceSleeps(w: World, c: nat)
    requires Enabled(w, CloserStep(c)) && HasSlept(w.closers[c])
    ensures HasSlept(Advance(w, c).closers[c])
  {
    var closer, closer' := w.closers[c], Advance(w, c).closers[c];
    var k: nat :| SleptTimes(closer, k);
    NextSleepTime(k);
    assert Slept(0) == 0 && SleepTime(0) == 1;
    hide Slept, SleepTime, NextSleep;
    if closer.phase.Won? {
      assert SleptTimes(closer', 0);
    } else if closer'.elapsed != closer.elapsed || closer'.w != closer.w {
      assert SleptTimes(closer', k + 1);
    } else {
      assert SleptTimes(closer', k);
    }
  }

  lemma NewCloserSleeps(closer: Closer)
    requires closer.elapsed == 0 && closer.w == 1
    ensures HasSlept(closer)
  {
    assert SleptTimes(closer, 0);
  }

  lemma StepKeepsSleep(w: World, step: Step, c: nat)
    requires Shut(w) && ClaimInv(w) && Enabled(w, step) && c < |Do(w, step).closers|
    ensures HasSlept(Do(w, step).closers[c])
  {
    StepGoes(w, step);
    hide Shut, HasSlept;
    if c < |w.closers| {
      assert Nearer(w.closers[c], Do(w, step).closers[c], step == CloserStep(c));
      if step == CloserStep(c) { AdvanceSleeps(w, c); }
    } else {
      OnlyClosesAdd(w, step);
      NewCloserSleeps(Do(w, step).closers[c]);
    }
  }

  lemma OnlyClosesAdd(w: World, step: Step)
    requires Enabled(w, step)
    ensures var closers := Do(w, step).closers;
            && |w.closers| <= |closers| <= |w.closers| + 1
            && (|closers| > |w.closers| ==> var closer := closers[|w.closers|]; closer.elapsed == 0 && closer.w == 1)
  {
    match step {
      case Deliver(i, k) =>
        DeliverOnlyCounts(w, i, k);
        hide Do;
      case _ => hide Free, Kept, Expired;
    }
  }

  lemma StepKeepsClaims(w: World, step: Step)
    requires Shut(w) && ClaimInv(w) && Enabled(w, step)
    ensures ClaimInv(Do(w, step))
  {
    var w' := Do(w, step);
    StepGoes(w, step);
    forall s: nat | s < |w'.sessions| && !w'.sessions[s].running ensures Claimed(w', s) {
      StepClaims(w, step, s);
      hide Shut, Do;
      if s < |w.sessions| && !w.sessions[s].running {
        var c: nat :| WorksOn(w, c, s);
        assert Nearer(w.closers[c], w'.closers[c], step == CloserStep(c));
        assert WorksOn(w', c, s);
      }
    }
    forall c: nat | c < |w'.closers| ensures HasSlept(w'.closers[c]) { StepKeepsSleep(w, step, c); }
  }

  lemma {:induction false} ClaimsOverRuns(w: World, steps: seq<Step>)
    requires Shut(w) && ClaimInv(w) && Runs(w, steps)
    ensures ClaimInv(Reached(w, steps))
    decreases |steps|
  {
    if steps != [] {
      StepKeepsShut(w, steps[0]);
      StepKeepsClaims(w, steps[0]);
      hide Shut, ClaimInv, Do, Enabled;
      ClaimsOverRuns(Do(w, steps[0]), steps[1..]);
    }
  }

  // ------------------------------------------------------------------ closing

  /** The handle is given up, and was closed exactly once if the session owns it, else never. */
  predicate GivenUp(session: Session) {
    !session.running && !session.handleValid && session.closes == if session.owned then 1 else 0
  }

  /** A call of `close` does nothing if and only if the session is gone from the map or closing already;
      a round of a sweep, if and only if it is closing already. */
  lemma CloseDoesNothingIff(w: World, s: nat, timeout: nat, sweep: Option<nat>)
    requires Enabled(w, Close(s, timeout, sweep))
    ensures Do(w, Close(s, timeout, sweep)) == w <==>
              !w.sessions[s].running || (sweep.None? && !w.sessions[s].inMap)
  {
    var w' := Do(w, Close(s, timeout, sweep));
    if w.sessions[s].running && (sweep.Some? || w.sessions[s].inMap) { assert |w'.closers| == |w.closers| + 1; }
  }

  /** Else it is the only closer of the session, from now on no submission is accepted, and the handle is
      given up no sooner than nothing is counted as pending or the timeout has run out; but after timeout + 4
      steps of its own at most, whatever others do between them, it has been given up, and a close by the
      user has taken the session out of the map. A sweep waits half a second. */
  lemma CloseEnds(w: World, s: nat, timeout: nat, sweep: Option<nat>, steps: seq<Step>, addr: nat, outcome: Outcome)
    requires Shut(w) && Enabled(w, Close(s, timeout, sweep))
    requires w.sessions[s].running && (sweep.Some? || w.sessions[s].inMap)
    requires Runs(Do(w, Close(s, timeout, sweep)), steps)
    ensures var w', c := Reached(Do(w, Close(s, timeout, sweep)), steps), |w.closers|;
            && s < |w'.sessions| && !w'.sessions[s].running && w'.sessions[s].owned == w.sessions[s].owned
            && (forall d: nat :: WorksOn(w', d, s) <==> d == c)
            && (Enabled(w', Submit(s, addr, outcome)) ==> Do(w', Submit(s, addr, outcome)) == w')
            && Enabled(w', CloserStep(c))
            && w'.closers[c].timeout == (if sweep.Some? then 500 else timeout)
            && (!w'.sessions[s].handleValid ==>
                  w'.sessions[s].pending <= 0 || w'.closers[c].elapsed >= w'.closers[c].timeout)
            && (OwnSteps(steps, c) >= (if sweep.Some? then 500 else timeout) + 4 ==>
                  GivenUp(w'.sessions[s]) && (sweep.None? ==> !w'.sessions[s].inMap))
  {
    var w1, c := Do(w, Close(s, timeout, sweep)), |w.closers|;
    StepKeepsShut(w, Close(s, timeout, sweep));
    ShutOverRuns(w1, steps);
    OnwardOverRuns(w1, steps, s);
    NearerOverRuns(w1, steps, c);
    hide Shut, Runs, Reached, OwnSteps;
    CloserAt(Reached(w1, steps), c);
  }

  /** What a closer's phase says of its session. */
  lemma CloserAt(w: World, c: nat)
    requires Shut(w) && c < |w.closers|
    ensures var closer := w.closers[c];
            && Enabled(w, CloserStep(c)) && !w.sessions[closer.session].running
            && (forall d: nat :: WorksOn(w, d, closer.session) <==> d == c)
            && (closer.phase.Gone? ==> GivenUp(w.sessions[closer.session])
                                       && (closer.sweep.None? ==> !w.sessions[closer.session].inMap))
            && (!w.sessions[closer.session].handleValid ==>
                  w.sessions[closer.session].pending <= 0 || closer.elapsed >= closer.timeout)
  {
    assert CloserOk(w, w.closers[c]);
  }

  /** So over every run a session that does not run any more has exactly one closer, which has waited as
      the loop does; and if that takes the steps it has left, whatever others do, the handle is closed
      exactly once if it is owned, and never if it is not. */
  lemma ClosedExactlyOnce(init: World, steps: seq<Step>, s: nat, more: seq<Step>) returns (c: nat)
    requires Initial(init) && Runs(init, steps) && s < |Reached(init, steps).sessions|
    requires !Reached(init, steps).sessions[s].running
    requires Runs(Reached(init, steps), more)
    ensures var w, w' := Reached(init, steps), Reached(Reached(init, steps), more);
            && s < |w'.sessions| && c < |w.closers| && (forall d: nat :: WorksOn(w, d, s) <==> d == c)
            && HasSlept(w.closers[c])
            && (OwnSteps(more, c) >= Left(w.closers[c]) ==> GivenUp(w'.sessions[s]))
  {
    var w := Reached(init, steps);
    ShutOverRuns(init, steps);
    ClaimsOverRuns(init, steps);
    c :| WorksOn(w, c, s);
    CloserAt(w, c);
    ShutOverRuns(w, more);
    OnwardOverRuns(w, more, s);
    NearerOverRuns(w, more, c);
    hide Shut, Runs, Reached, OwnSteps, HasSlept;
    CloserAt(Reached(w, more), c);
  }

  /** When a sweep is over, every session it saw in the map has stopped, is out of the map, and has been
      given up if the sweep won it; the others are their closers' business. */
  lemma SweepEnds(init: World, steps: seq<Step>, k: nat, s: nat) returns (c: nat)
    requires Initial(init) && Runs(init, steps) && Enabled(Reached(init, steps), ClearMap(k))
    requires s in Reached(init, steps).sweeps[k] && s < |Reached(init, steps).sessions|
    ensures var w' := Do(Reached(init, steps), ClearMap(k));
            && s < |w'.sessions| && !w'.sessions[s].running && !w'.sessions[s].inMap
            && WorksOn(w', c, s) && (w'.closers[c].sweep == Some(k) ==> GivenUp(w'.sessions[s]))
  {
    var w := Reached(init, steps);
    ShutOverRuns(init, steps);
    ClaimsOverRuns(init, steps);
    c :| WorksOn(w, c, s);
    CloserAt(w, c);
    hide Shut, ClaimInv, Runs, Reached;
  }
}
