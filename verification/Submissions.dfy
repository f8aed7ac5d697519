/** What one submission and one first completion do (src/iocp_context.cpp): every accepted submission
    leaves one request, and its first completion settles it. */
module Submissions {
  import opened Iocp
  import opened Options
  import opened Quarantines

  /** The new request: answered or not, counted or not. */
  ghost predicate OneMore(w: World, s: nat, addr: nat, outcome: Outcome, w': World)
    requires s < |w.sessions|
  {
    var n, before, counted := |w.requests|, w.sessions[s], if outcome.Failure? then 0 else 1;
    && |w'.requests| == n + 1 && w'.requests[..n] == w.requests
    && w'.requests[n].session == s && w'.requests[n].addr == addr
    && w'.requests[n].resolutions == (if outcome.Async? then 0 else 1)
    && (Live(w'.requests[n]) <==> !outcome.Failure?)
    && (w'.requests[n].state == PENDING <==> !outcome.Failure?)
    && InFlight(w'.requests, s) == InFlight(w.requests, s) + counted
    && w'.sessions == w.sessions[s := before.(pending := before.pending + counted)]
    && w' == w.(requests := w'.requests, sessions := w'.sessions)
  }

  lemma AcceptsOneMore(w: World, s: nat, addr: nat, outcome: Outcome)
    requires s < |w.sessions|
    ensures OneMore(w, s, addr, outcome, Accept(w, s, addr, outcome))
  {
    hide InFlight;
    InFlightAppend(w.requests, Accept(w, s, addr, outcome).requests[|w.requests|], s);
  }

  /** An opened file is a session of its own, owned or not as asked for, whose next submission is accepted. */
  lemma OpenedIsReady(w: World, owned: bool, addr: nat)
    requires Inv(w) && Occupant(w.requests, addr).None?
    ensures var w', n := Do(w, Open(owned)), |w.sessions|;
            && |w'.sessions| == n + 1 && w'.sessions[..n] == w.sessions && w'.sessions[n].owned == owned
            && w'.sessions[n].closes == 0 && w'.requests == w.requests
            && Enabled(w', Submit(n, addr, Async))
            && |Do(w', Submit(n, addr, Async)).requests| == |w.requests| + 1
  {
    StepKeepsInv(w, Open(owned));
    var w' := Do(w, Open(owned));
    assert Enabled(w', Submit(|w.sessions|, addr, Async));
    hide Inv, Occupant;
    SubmissionLeavesARequest(w', |w.sessions|, addr, Async);
  }

  /** A submission is accepted if and only if the session is in the map and runs. Then there is one request
      more, answered at once if the kernel completed or refused it, and counted as pending unless it was
      refused; nothing else changes. Otherwise nothing changes at all. */
  lemma SubmissionLeavesARequest(w: World, s: nat, addr: nat, outcome: Outcome)
    requires Inv(w) && Enabled(w, Submit(s, addr, outcome))
    ensures var w', before := Do(w, Submit(s, addr, outcome)), w.sessions[s];
            if before.inMap && before.running then OneMore(w, s, addr, outcome, w') else w' == w
  {
    assert ClosedOnce(w.sessions[s]);
    hide Inv, Occupant, OneMore;
    if w.sessions[s].inMap && w.sessions[s].running { AcceptsOneMore(w, s, addr, outcome); }
  }

  /** The request of a first completion while its session is in the map: settled, answered exactly once, and
      counted down; without the session it is settled silently. It is then held, and no other request is
      answered or settled. */
  lemma FirstCompletionSettles(w: World, i: nat, k: Worker)
    requires Inv(w) && Enabled(w, Deliver(i, k)) && w.requests[i].state == PENDING
    ensures var w', s := Do(w, Deliver(i, k)), w.requests[i].session;
            var found := w.sessions[s].inMap;
            && |w'.requests| == |w.requests| && |w'.sessions| == |w.sessions|
            && w'.requests[i].state == RESOLVED && w'.requests[i].delivery == First(w.now, found)
            && w'.requests[i].resolutions == (if found || w.requests[i].sync then 1 else 0)
            && w'.requests[i].frees == 0 && Count(Queue(w', k), i) == 1
            && w'.sessions[s].pending == w.sessions[s].pending - (if found then 1 else 0)
            && (forall j :: 0 <= j < |w.requests| && j != i ==>
                  && w'.requests[j].state == w.requests[j].state
                  && w'.requests[j].resolutions == w.requests[j].resolutions)
  {
    var step := Deliver(i, k);
    GuardedDelivery(w, i, k);
    StepKeepsInv(w, step);
    var w' := Do(w, step);
    SettledOnly(Wakened(w, k), i, w.requests[i].session, k);
    assert OneLife(w, i) && OneLife(w', i) && HeldLongEnough(w', i) && AnsweredOnce(w'.requests[i]);
    hide Inv, Do, Process, Occupant;
    OthersDoNotHold(w, i, k);
  }

  lemma SettledOnly(w: World, i: nat, s: nat, k: Worker)
    requires i < |w.requests| && s < |w.sessions|
    ensures var w', found := Process(w, i, s, k), w.sessions[s].inMap;
            && |w'.requests| == |w.requests| && |w'.sessions| == |w.sessions|
            && w'.requests[i].state == RESOLVED && w'.requests[i].delivery == First(w.now, found)
            && w'.requests[i].sync == w.requests[i].sync && w'.now == w.now && w'.dropped == w.dropped
            && w'.sessions[s].pending == w.sessions[s].pending - (if found then 1 else 0)
            && Queue(w', if k.ReadWorker? then WriteWorker else ReadWorker)
               == Queue(w, if k.ReadWorker? then WriteWorker else ReadWorker)
            && (forall j :: 0 <= j < |w.requests| && j != i ==>
                  && w'.requests[j].state == w.requests[j].state
                  && w'.requests[j].resolutions == w.requests[j].resolutions)
  {
    hide Pushed;
  }

  /** A pending request is held by nobody and was not dropped. */
  lemma OthersDoNotHold(w: World, i: nat, k: Worker)
    requires i < |w.requests| && OneLife(w, i) && w.requests[i].state == PENDING
    ensures Count(Queue(w, k), i) == 0 && Count(w.dropped, i) == 0
    ensures Count(Queue(w, if k.ReadWorker? then WriteWorker else ReadWorker), i) == 0
  {
  }
}
