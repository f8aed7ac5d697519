/** The life of asynchronous requests and sessions (src/iocp_context.cpp, src/io_request.hpp) as a
    transition system: submissions, completions and repeated completions, the quarantine, and
    concurrent closers.

    A submission holds the interpreter lock and is one step, and so is one `process_one` of a
    worker. The kernel delivers the packet of an accepted request at any time and any number of
    times. Memory is explicit: a request lives at an address, and a packet carries only the
    address and the session id. */
module Iocp {
  import opened CloseWait
  import opened Options
  import opened Quarantines

  datatype IOState = PENDING | RESOLVED | REJECTED

  /** History: when the first delivery was processed and whether the session was still there. */
  datatype Delivery = NotYet | First(time: nat, found: bool)

  /** `sync`: completed inline by the submission, its future pointer is null. `resolutions` counts
      what was sent to the future, `frees` how often the object was deleted; both are history. */
  datatype Request = Request(session: nat, addr: nat, state: IOState, sync: bool,
                             resolutions: nat, delivery: Delivery, frees: nat)

  /** `handleValid`: the handle is not INVALID_HANDLE_VALUE. `closes` counts CloseHandle calls. */
  datatype Session = Session(running: bool, pending: int, handleValid: bool, owned: bool, inMap: bool, closes: nat)

  datatype Phase = Won | Waiting | Closing | Removing | Gone

  /** A thread that won the `running` flag; `sweep` names its `close_all_sessions`, if it runs one. */
  datatype Closer = Closer(session: nat, timeout: nat, sweep: Option<nat>, phase: Phase, elapsed: nat, w: nat)

  datatype Worker = ReadWorker | WriteWorker

  /** `sweeps`: for each `close_all_sessions`, the sessions it saw in the map when it began. `busy`:
      workers inside a batch of packets, at the end of which they drain. `dropped`: what workers
      still held when they ended; the list of a thread dies with it. */
  datatype World = World(sessions: seq<Session>, requests: seq<Request>, closers: seq<Closer>, sweeps: seq<set<nat>>,
                         readQ: seq<Entry>, writeQ: seq<Entry>, now: nat, touchedFreed: bool,
                         busy: set<Worker>, exited: set<Worker>, dropped: seq<Entry>)

  datatype Outcome = SyncDone | Async | Failure

  datatype Step =
    | Open(owned: bool)
    | Submit(session: nat, addr: nat, outcome: Outcome)
    | Deliver(request: nat, worker: Worker)
    | Wake(worker: Worker)
    | DrainQuarantine(worker: Worker)
    | Exit(worker: Worker)
    | Tick(ms: nat)
    | Close(session: nat, timeout: nat, sweep: Option<nat>)
    | CloserStep(closer: nat)
    | BeginSweep
    | ClearMap(finished: nat)

  // ------------------------------------------------------------------ the steps

  predicate Live(r: Request) {
    r.frees == 0
  }

  /** The request whose object lives at the address. */
  function Occupant(requests: seq<Request>, addr: nat): (o: Option<nat>)
    ensures o.Some? ==> o.value < |requests| && requests[o.value].addr == addr && Live(requests[o.value])
    ensures o.None? ==> forall i :: 0 <= i < |requests| && Live(requests[i]) ==> requests[i].addr != addr
  {
    if requests == [] then None
    else
      var k := |requests| - 1;
      if requests[k].addr == addr && Live(requests[k]) then Some(k) else Occupant(requests[..k], addr)
  }

  function Queue(w: World, k: Worker): seq<Entry> {
    if k.ReadWorker? then w.readQ else w.writeQ
  }

  function WithQueue(w: World, k: Worker, q: seq<Entry>): World {
    if k.ReadWorker? then w.(readQ := q) else w.(writeQ := q)
  }

  /** Delete the requests of these entries. */
  function Free(requests: seq<Request>, freed: seq<Entry>): (rs: seq<Request>)
    ensures |rs| == |requests|
    ensures forall i :: 0 <= i < |rs| ==> rs[i] == requests[i].(frees := requests[i].frees + Count(freed, i))
  {
    seq(|requests|, i requires 0 <= i < |requests| => requests[i].(frees := requests[i].frees + Count(freed, i)))
  }

  function PushQuarantine(w: World, k: Worker, i: nat): World {
    var (q, freed) := Pushed(Queue(w, k), i, w.now);
    WithQueue(w, k, q).(requests := Free(w.requests, freed))
  }

  /** `process_one` up to the quarantine, after its compare-and-swap succeeded on the object of
      request i, for a packet that carries session id s. */
  function Mark(w: World, i: nat, s: nat): World
    requires i < |w.requests| && s < |w.sessions|
  {
    var r := w.requests[i];
    var found := w.sessions[s].inMap;
    var r' := r.(state := RESOLVED, delivery := First(w.now, found),
                 resolutions := if found && !r.sync then r.resolutions + 1 else r.resolutions);
    w.(requests := w.requests[i := r'],
       sessions := if found then w.sessions[s := w.sessions[s].(pending := w.sessions[s].pending - 1)] else w.sessions)
  }

  function Process(w: World, i: nat, s: nat, k: Worker): World
    requires i < |w.requests| && s < |w.sessions|
  {
    PushQuarantine(Mark(w, i, s), k, i)
  }

  predicate Enabled(w: World, step: Step) {
    match step
    case Submit(s, addr, _) => s < |w.sessions| && Occupant(w.requests, addr).None?
    case Deliver(i, k) =>
      i < |w.requests| && w.requests[i].state != REJECTED && w.requests[i].session < |w.sessions| && k !in w.exited
    case Wake(k) => k !in w.exited
    case DrainQuarantine(k) => k in w.busy
    case Exit(k) => k !in w.exited && k !in w.busy
    case Close(s, _, sweep) =>
      s < |w.sessions| && (sweep.Some? ==> sweep.value < |w.sweeps| && s in w.sweeps[sweep.value])
    case CloserStep(c) => c < |w.closers| && w.closers[c].session < |w.sessions|
    case ClearMap(k) => k < |w.sweeps| && SweptAll(w, k)
    case _ => true
  }

  /** A sweep has been through its sessions: each is closing, and those it won itself it has done. */
  predicate SweptAll(w: World, k: nat)
    requires k < |w.sweeps|
  {
    && (forall s :: s in w.sweeps[k] && s < |w.sessions| ==> !w.sessions[s].running)
    && (forall c :: 0 <= c < |w.closers| && w.closers[c].sweep == Some(k) ==> w.closers[c].phase.Gone?)
  }

  /** Past the closed-file checks. */
  function Accept(w: World, s: nat, addr: nat, outcome: Outcome): World
    requires s < |w.sessions|
  {
    var before := w.sessions[s];
    match outcome
    case Failure =>
      // Counted and uncounted again, answered with an error and deleted.
      w.(requests := w.requests + [Request(s, addr, REJECTED, false, 1, NotYet, 1)])
    case SyncDone =>
      w.(sessions := w.sessions[s := before.(pending := before.pending + 1)],
         requests := w.requests + [Request(s, addr, PENDING, true, 1, NotYet, 0)])
    case Async =>
      w.(sessions := w.sessions[s := before.(pending := before.pending + 1)],
         requests := w.requests + [Request(s, addr, PENDING, false, 0, NotYet, 0)])
  }

  /** One step of `submit_close` or of one round of `close_all_sessions`. */
  function Advance(w: World, c: nat): World
    requires c < |w.closers| && w.closers[c].session < |w.sessions|
  {
    var closer := w.closers[c];
    var s := closer.session;
    var session := w.sessions[s];
    match closer.phase
    case Won =>
      var next := if !session.handleValid then (if closer.sweep.Some? then Gone else Removing)
                  else if session.pending > 0 then Waiting else Closing;
      w.(closers := w.closers[c := closer.(phase := next, elapsed := 0, w := 1)])
    case Waiting =>
      if closer.elapsed < closer.timeout && session.pending > 0
      then w.(closers := w.closers[c := closer.(elapsed := closer.elapsed + closer.w, w := NextSleep(closer.w))])
      else w.(closers := w.closers[c := closer.(phase := Closing)])
    case Closing =>
      w.(sessions := w.sessions[s := session.(handleValid := false,
                                              closes := if session.owned then session.closes + 1 else session.closes)],
         closers := w.closers[c := closer.(phase := if closer.sweep.Some? then Gone else Removing)])
    case Removing =>
      w.(sessions := w.sessions[s := session.(inMap := false)], closers := w.closers[c := closer.(phase := Gone)])
    case Gone => w
  }

  /** A packet has come, be it one that only wakes the worker up. */
  function Wakened(w: World, k: Worker): World {
    w.(busy := w.busy + {k})
  }

  function DeliverTo(w: World, i: nat, k: Worker): World
    requires i < |w.requests| && w.requests[i].session < |w.sessions|
  {
    var occupant := Occupant(w.requests, w.requests[i].addr);
    if occupant.None? then w.(touchedFreed := true)
    else if w.requests[occupant.value].state != PENDING then w
    else Process(w, occupant.value, w.requests[i].session, k)
  }

  function Drained(w: World, k: Worker): World {
    WithQueue(w, k, Kept(Queue(w, k), w.now)).(requests := Free(w.requests, Expired(Queue(w, k), w.now)))
  }

  function Do(w: World, step: Step): World
    requires Enabled(w, step)
  {
    match step
    case Open(owned) => w.(sessions := w.sessions + [Session(true, 0, true, owned, true, 0)])
    case Submit(s, addr, outcome) =>
      var session := w.sessions[s];
      if !session.inMap || !session.running || !session.handleValid then w else Accept(w, s, addr, outcome)
    case Deliver(i, k) => DeliverTo(Wakened(w, k), i, k)
    case Wake(k) => Wakened(w, k)
    case DrainQuarantine(k) => Drained(w.(busy := w.busy - {k}), k)
    case Exit(k) => WithQueue(w, k, []).(exited := w.exited + {k}, dropped := w.dropped + Queue(w, k))
    case Tick(ms) => w.(now := w.now + ms)
    case Close(s, timeout, sweep) =>
      // A sweep works on the sessions it saw in the map when it began.
      if (sweep.None? && !w.sessions[s].inMap) || !w.sessions[s].running then w
      else w.(sessions := w.sessions[s := w.sessions[s].(running := false)],
              closers := w.closers +
                [Closer(s, if sweep.Some? then CLOSE_ALL_TIMEOUT_MS else timeout, sweep, Won, 0, 1)])
    case CloserStep(c) => Advance(w, c)
    case BeginSweep => w.(sweeps := w.sweeps + [set s | 0 <= s < |w.sessions| && w.sessions[s].inMap])
    case ClearMap(_) =>
      w.(sessions := seq(|w.sessions|, s requires 0 <= s < |w.sessions| => w.sessions[s].(inMap := false)))
  }

  function Start(now: nat): World {
    World([], [], [], [], [], [], now, false, {}, {}, [])
  }

  predicate Initial(w: World) {
    w == Start(w.now)
  }

  // ------------------------------------------------------------------ invariants: requests

  function Held(w: World, i: nat): nat {
    Count(w.readQ, i) + Count(w.writeQ, i)
  }

  /** A request is deleted, held or dropped exactly once, from the moment its first completion has been
      processed (or its submission has failed); before that it is neither. */
  predicate OneLife(w: World, i: nat)
    requires i < |w.requests|
  {
    var r := w.requests[i];
    && r.frees + Held(w, i) + Count(w.dropped, i) == (if r.state == PENDING then 0 else 1)
    && (r.state == REJECTED ==> r.frees == 1)
    && (r.state == RESOLVED <==> r.delivery.First?)
  }

  /** It is deleted a full second after the first delivery at the earliest. */
  predicate HeldLongEnough(w: World, i: nat)
    requires i < |w.requests|
  {
    var r := w.requests[i];
    r.delivery.First? ==> r.delivery.time <= w.now && (r.frees > 0 ==> r.delivery.time + QUARANTINE_MS <= w.now)
  }

  /** An entry was pushed when its request was first delivered. */
  predicate EntryInTime(w: World, e: Entry) {
    e.req < |w.requests| && w.requests[e.req].delivery.First? && w.requests[e.req].delivery.time == e.when <= w.now
  }

  /** The future is answered at once if the submission completed or failed inline, else by the
      first delivery if the session is still there, and never again. */
  predicate AnsweredOnce(r: Request) {
    r.resolutions == if r.sync || r.state == REJECTED || (r.delivery.First? && r.delivery.found) then 1 else 0
  }

  ghost predicate LifeInv(w: World) {
    && (forall i: nat :: i < |w.requests| ==> OneLife(w, i) && HeldLongEnough(w, i) && AnsweredOnce(w.requests[i]))
    && (forall e :: e in w.readQ || e in w.writeQ || e in w.dropped ==> EntryInTime(w, e))
    && !w.touchedFreed
  }

  /** Objects alive at the same time have different addresses. */
  ghost predicate NoAlias(w: World) {
    forall i, j :: 0 <= i < j < |w.requests| && Live(w.requests[i]) && Live(w.requests[j]) ==>
                     w.requests[i].addr != w.requests[j].addr
  }

  // ------------------------------------------------------------------ invariants: sessions

  predicate Outstanding(r: Request, s: nat) {
    r.session == s && r.state == PENDING
  }

  /** Accepted requests of a session whose first delivery has not been processed. */
  function InFlight(requests: seq<Request>, s: nat): nat {
    if requests == [] then 0
    else InFlight(requests[..|requests| - 1], s) + if Outstanding(requests[|requests| - 1], s) then 1 else 0
  }

  /** `pending` counts exactly the outstanding requests while the session is in the map. Once it
      is gone nobody counts down any more. */
  predicate Counted(w: World, s: nat)
    requires s < |w.sessions|
  {
    && InFlight(w.requests, s) <= w.sessions[s].pending
    && (w.sessions[s].inMap ==> w.sessions[s].pending == InFlight(w.requests, s))
  }

  /** The handle is closed at most once, and only if it is owned. */
  predicate ClosedOnce(session: Session) {
    && (session.running ==> session.handleValid)
    && (session.handleValid ==> session.closes == 0)
    && session.closes <= 1 && (session.closes == 1 ==> session.owned)
  }

  ghost predicate CountInv(w: World) {
    && (forall i :: 0 <= i < |w.requests| ==> w.requests[i].session < |w.sessions|)
    && (forall s: nat :: s < |w.sessions| ==> Counted(w, s) && ClosedOnce(w.sessions[s]))
  }

  /** The wait overshoots by at most 31 ms; the handle is given up only with nothing outstanding
      or after the whole timeout; a close by the user ends with the session out of the map. */
  predicate CloserOk(w: World, closer: Closer) {
    && closer.session < |w.sessions|
    && var session := w.sessions[closer.session];
       && !session.running
       && closer.elapsed <= closer.timeout + 31 && 1 <= closer.w <= 32
       && (closer.phase.Removing? || closer.phase.Gone? <==> !session.handleValid)
       && (!session.handleValid ==> session.closes == if session.owned then 1 else 0)
       && (closer.phase.Gone? && closer.sweep.None? ==> !session.inMap)
       && (closer.phase.Won? || closer.phase.Waiting? || session.pending <= 0 || closer.elapsed >= closer.timeout)
  }

  ghost predicate CloseInv(w: World) {
    && (forall c: nat :: c < |w.closers| ==> CloserOk(w, w.closers[c]))
    && (forall c, d :: 0 <= c < d < |w.closers| ==> w.closers[c].session != w.closers[d].session)
  }

  /** A worker that has ended holds nothing. */
  predicate ExitInv(w: World) {
    && (ReadWorker in w.exited ==> w.readQ == []) && (WriteWorker in w.exited ==> w.writeQ == [])
    && w.busy !! w.exited && (w.exited == {} ==> w.dropped == [])
  }

  ghost predicate Inv(w: World) {
    LifeInv(w) && NoAlias(w) && CountInv(w) && CloseInv(w) && ExitInv(w)
  }

  // ------------------------------------------------------------------ deliveries reach their own request

  /** The second request lives where the first one lived. */
  predicate SameObject(r: Request, r': Request) {
    Live(r') && r'.addr == r.addr
  }

  /** A repeated completion of request i meets the guard: its object has not been deleted, or its
      address now belongs to another request that has been processed. */
  predicate MeetsGuard(w: World, i: nat)
    requires i < |w.requests|
  {
    || Held(w, i) + Count(w.dropped, i) > 0
    || exists j :: 0 <= j < |w.requests| && SameObject(w.requests[i], w.requests[j]) && w.requests[j].state != PENDING
  }

  predicate Guarded(w: World, step: Step) {
    step.Deliver? && step.request < |w.requests| && w.requests[step.request].delivery.First? ==>
      MeetsGuard(w, step.request)
  }

  lemma OccupantIs(w: World, i: nat)
    requires NoAlias(w) && i < |w.requests| && Live(w.requests[i])
    ensures Occupant(w.requests, w.requests[i].addr) == Some(i)
  {
    var o := Occupant(w.requests, w.requests[i].addr);
    assert o.Some?;
  }

  /** The first completion finds its own request alive and is processed; a repeated one that meets
      the guard fails the compare-and-swap and changes nothing. */
  lemma GuardedDelivery(w: World, i: nat, k: Worker)
    requires LifeInv(w) && NoAlias(w) && Enabled(w, Deliver(i, k)) && Guarded(w, Deliver(i, k))
    ensures Do(w, Deliver(i, k)) ==
              if w.requests[i].state == PENDING then Process(Wakened(w, k), i, w.requests[i].session, k)
              else Wakened(w, k)
  {
    assert OneLife(w, i);
    if Live(w.requests[i]) {
      OccupantIs(w, i);
    } else {
      var j :| 0 <= j < |w.requests| && SameObject(w.requests[i], w.requests[j]) && w.requests[j].state != PENDING;
      OccupantIs(w, j);
    }
  }

  /** A repeated completion arrives within a second of the first. */
  predicate Prompt(w: World, step: Step) {
    step.Deliver? && step.request < |w.requests| && w.requests[step.request].delivery.First? ==>
      w.now < w.requests[step.request].delivery.time + QUARANTINE_MS
  }

  /** Then it meets the guard, because it finds its own request undeleted. */
  lemma PromptIsGuarded(w: World, step: Step)
    requires LifeInv(w) && Prompt(w, step)
    ensures Guarded(w, step)
    ensures step.Deliver? && step.request < |w.requests| && w.requests[step.request].state != REJECTED ==>
              Live(w.requests[step.request])
  {
    if step.Deliver? && step.request < |w.requests| {
      assert OneLife(w, step.request) && HeldLongEnough(w, step.request);
    }
  }

  // ------------------------------------------------------------------ lives

  ghost predicate Outcomes(all: seq<Entry>, q: seq<Entry>, freed: seq<Entry>, now: nat) {
    && (forall i: nat :: Count(q, i) + Count(freed, i) == Count(all, i))
    && (forall e :: e in q ==> e in all)
    && (forall e :: e in freed ==> e in all && Due(e, now))
  }

  lemma DrainOutcomes(all: seq<Entry>, now: nat)
    ensures Outcomes(all, Kept(all, now), Expired(all, now), now)
  {
    forall i: nat ensures Count(Kept(all, now), i) + Count(Expired(all, now), i) == Count(all, i) {
      DrainSplits(all, now, i);
    }
  }

  lemma PushOutcomes(q: seq<Entry>, i: nat, now: nat)
    ensures var (q', freed) := Pushed(q, i, now); Outcomes(q + [Entry(i, now)], q', freed, now)
  {
    DrainOutcomes(q + [Entry(i, now)], now);
  }

  function AfterQueue(w: World, k: Worker, q: seq<Entry>, freed: seq<Entry>): World {
    WithQueue(w, k, q).(requests := Free(w.requests, freed))
  }

  lemma QueueKeepsLife(w: World, k: Worker, q: seq<Entry>, freed: seq<Entry>)
    requires LifeInv(w) && Outcomes(Queue(w, k), q, freed, w.now)
    ensures LifeInv(AfterQueue(w, k, q, freed))
  {
    var w' := AfterQueue(w, k, q, freed);
    forall i: nat | i < |w'.requests| ensures OneLife(w', i) && HeldLongEnough(w', i) && AnsweredOnce(w'.requests[i]) {
      QueueKeepsOneLife(w, k, q, freed, i);
    }
    forall e | e in w'.readQ || e in w'.writeQ || e in w'.dropped ensures EntryInTime(w', e) {
      assert EntryInTime(w, e);
    }
  }

  lemma QueueKeepsOneLife(w: World, k: Worker, q: seq<Entry>, freed: seq<Entry>, i: nat)
    requires LifeInv(w) && Outcomes(Queue(w, k), q, freed, w.now) && i < |w.requests|
    ensures var w' := AfterQueue(w, k, q, freed);
            OneLife(w', i) && HeldLongEnough(w', i) && AnsweredOnce(w'.requests[i])
  {
    assert OneLife(w, i) && HeldLongEnough(w, i) && AnsweredOnce(w.requests[i]);
    assert Count(q, i) + Count(freed, i) == Count(Queue(w, k), i);
    if Count(freed, i) > 0 {
      CountedIsThere(freed, i);
      var e :| e in freed && e.req == i;
      assert EntryInTime(w, e) && Due(e, w.now);
    }
  }

  /** Request i marked processed and pushed, before any drain. */
  function MarkAndHold(w: World, i: nat, s: nat, k: Worker): World
    requires i < |w.requests| && s < |w.sessions|
  {
    WithQueue(Mark(w, i, s), k, Queue(w, k) + [Entry(i, w.now)])
  }

  lemma MarkKeepsLife(w: World, i: nat, s: nat, k: Worker)
    requires LifeInv(w) && i < |w.requests| && s < |w.sessions| && w.requests[i].state == PENDING
    ensures LifeInv(MarkAndHold(w, i, s, k))
  {
    var w' := MarkAndHold(w, i, s, k);
    var e := Entry(i, w.now);
    forall j: nat | j < |w'.requests| ensures OneLife(w', j) && HeldLongEnough(w', j) && AnsweredOnce(w'.requests[j]) {
      assert OneLife(w, j) && HeldLongEnough(w, j) && AnsweredOnce(w.requests[j]);
      CountAppend(Queue(w, k), e, j);
    }
    forall x | x in w'.readQ || x in w'.writeQ || x in w'.dropped ensures EntryInTime(w', x) {
      if x != e {
        assert EntryInTime(w, x);
        assert x.req != i;
      }
    }
  }

  lemma ProcessKeepsLife(w: World, i: nat, s: nat, k: Worker)
    requires LifeInv(w) && i < |w.requests| && s < |w.sessions| && w.requests[i].state == PENDING
    ensures LifeInv(Process(w, i, s, k))
  {
    MarkKeepsLife(w, i, s, k);
    var w1 := MarkAndHold(w, i, s, k);
    var (q, freed) := Pushed(Queue(w, k), i, w.now);
    PushOutcomes(Queue(w, k), i, w.now);
    QueueKeepsLife(w1, k, q, freed);
    assert Process(w, i, s, k) == AfterQueue(w1, k, q, freed);
  }

  lemma NewIsNotHeld(w: World)
    requires LifeInv(w)
    ensures Held(w, |w.requests|) == 0 && Count(w.dropped, |w.requests|) == 0
  {
    CountedIsThere(w.readQ, |w.requests|);
    CountedIsThere(w.writeQ, |w.requests|);
    CountedIsThere(w.dropped, |w.requests|);
    forall e | e in w.readQ || e in w.writeQ || e in w.dropped ensures e.req != |w.requests| {
      assert EntryInTime(w, e);
    }
  }

  lemma AcceptKeepsLife(w: World, s: nat, addr: nat, outcome: Outcome)
    requires LifeInv(w) && s < |w.sessions|
    ensures LifeInv(Accept(w, s, addr, outcome))
  {
    var w', n := Accept(w, s, addr, outcome), |w.requests|;
    NewIsNotHeld(w);
    forall i: nat | i < |w'.requests| ensures OneLife(w', i) && HeldLongEnough(w', i) && AnsweredOnce(w'.requests[i]) {
      if i < n { assert OneLife(w, i) && HeldLongEnough(w, i) && AnsweredOnce(w.requests[i]); }
    }
    forall e | e in w'.readQ || e in w'.writeQ || e in w'.dropped ensures EntryInTime(w', e) {
      assert EntryInTime(w, e);
    }
  }

  /** Steps that do not touch requests or quarantines. */
  lemma OthersKeepLife(w: World, w': World)
    requires LifeInv(w) && w'.requests == w.requests
    requires w'.readQ == w.readQ && w'.writeQ == w.writeQ && w'.dropped == w.dropped
    requires w'.now >= w.now && w'.touchedFreed == w.touchedFreed
    ensures LifeInv(w')
  {
    forall i: nat | i < |w'.requests| ensures OneLife(w', i) && HeldLongEnough(w', i) && AnsweredOnce(w'.requests[i]) {
      assert OneLife(w, i) && HeldLongEnough(w, i) && AnsweredOnce(w.requests[i]);
    }
    forall e | e in w'.readQ || e in w'.writeQ || e in w'.dropped ensures EntryInTime(w', e) {
      assert EntryInTime(w, e);
    }
  }

  lemma ExitKeepsLife(w: World, k: Worker)
    requires LifeInv(w) && Enabled(w, Exit(k))
    ensures LifeInv(Do(w, Exit(k)))
  {
    var w' := Do(w, Exit(k));
    forall i: nat | i < |w'.requests| ensures OneLife(w', i) && HeldLongEnough(w', i) && AnsweredOnce(w'.requests[i]) {
      assert OneLife(w, i) && HeldLongEnough(w, i) && AnsweredOnce(w.requests[i]);
      CountConcat(w.dropped, Queue(w, k), i);
    }
    forall e | e in w'.readQ || e in w'.writeQ || e in w'.dropped ensures EntryInTime(w', e) {
      assert EntryInTime(w, e);
    }
  }

  lemma StepKeepsLife(w: World, step: Step)
    requires LifeInv(w) && NoAlias(w) && Enabled(w, step) && Guarded(w, step)
    ensures LifeInv(Do(w, step))
  {
    hide LifeInv, NoAlias;
    match step {
      case Submit(s, addr, outcome) => AcceptKeepsLife(w, s, addr, outcome);
      case Deliver(i, k) =>
        GuardedDelivery(w, i, k);
        OthersKeepLife(w, Wakened(w, k));
        if w.requests[i].state == PENDING { ProcessKeepsLife(Wakened(w, k), i, w.requests[i].session, k); }
      case DrainQuarantine(k) =>
        var w1 := w.(busy := w.busy - {k});
        OthersKeepLife(w, w1);
        DrainOutcomes(Queue(w1, k), w1.now);
        QueueKeepsLife(w1, k, Kept(Queue(w1, k), w1.now), Expired(Queue(w1, k), w1.now));
        assert Do(w, step) == AfterQueue(w1, k, Kept(Queue(w1, k), w1.now), Expired(Queue(w1, k), w1.now));
      case Exit(k) => ExitKeepsLife(w, k);
      case _ => OthersKeepLife(w, Do(w, step));
    }
  }

  // ------------------------------------------------------------------ addresses

  /** No object comes to life and none moves, except new ones. */
  lemma FewerLivesKeepNoAlias(w: World, w': World)
    requires NoAlias(w) && |w'.requests| == |w.requests|
    requires forall i :: 0 <= i < |w.requests| ==>
               w'.requests[i].addr == w.requests[i].addr && (Live(w'.requests[i]) ==> Live(w.requests[i]))
    ensures NoAlias(w')
  {
  }

  lemma AcceptKeepsNoAlias(w: World, s: nat, addr: nat, outcome: Outcome)
    requires NoAlias(w) && s < |w.sessions| && Occupant(w.requests, addr).None?
    ensures NoAlias(Accept(w, s, addr, outcome))
  {
  }

  lemma ProcessKeepsNoAlias(w: World, i: nat, s: nat, k: Worker)
    requires NoAlias(w) && i < |w.requests| && s < |w.sessions|
    ensures NoAlias(Process(w, i, s, k))
  {
    FewerLivesKeepNoAlias(w, Process(w, i, s, k));
  }

  lemma StepKeepsNoAlias(w: World, step: Step)
    requires LifeInv(w) && NoAlias(w) && Enabled(w, step) && Guarded(w, step)
    ensures NoAlias(Do(w, step))
  {
    hide LifeInv, NoAlias;
    match step {
      case Submit(s, addr, outcome) => AcceptKeepsNoAlias(w, s, addr, outcome);
      case Deliver(i, k) =>
        GuardedDelivery(w, i, k);
        FewerLivesKeepNoAlias(w, Wakened(w, k));
        if w.requests[i].state == PENDING { ProcessKeepsNoAlias(Wakened(w, k), i, w.requests[i].session, k); }
      case _ => FewerLivesKeepNoAlias(w, Do(w, step));
    }
  }

  // ------------------------------------------------------------------ counting

  lemma InFlightAppend(requests: seq<Request>, r: Request, s: nat)
    ensures InFlight(requests + [r], s) == InFlight(requests, s) + if Outstanding(r, s) then 1 else 0
  {
    assert (requests + [r])[..|requests|] == requests;
  }

  lemma {:induction false} InFlightUpdate(requests: seq<Request>, i: nat, r: Request, s: nat)
    requires i < |requests|
    ensures InFlight(requests[i := r], s) + (if Outstanding(requests[i], s) then 1 else 0)
         == InFlight(requests, s) + if Outstanding(r, s) then 1 else 0
    decreases |requests|
  {
    var k := |requests| - 1;
    if i == k {
      assert requests[i := r][..k] == requests[..k];
    } else {
      assert requests[i := r][..k] == requests[..k][i := r];
      InFlightUpdate(requests[..k], i, r, s);
    }
  }

  lemma {:induction false} InFlightSame(a: seq<Request>, b: seq<Request>, s: nat)
    requires |a| == |b| && forall i :: 0 <= i < |a| ==> a[i].session == b[i].session && a[i].state == b[i].state
    ensures InFlight(a, s) == InFlight(b, s)
    decreases |a|
  {
    if a != [] {
      InFlightSame(a[..|a| - 1], b[..|b| - 1], s);
    }
  }

  lemma MarkKeepsCount(w: World, i: nat)
    requires CountInv(w) && i < |w.requests| && w.requests[i].state == PENDING
    ensures CountInv(Mark(w, i, w.requests[i].session))
  {
    var w' := Mark(w, i, w.requests[i].session);
    forall s: nat | s < |w'.sessions| ensures Counted(w', s) && ClosedOnce(w'.sessions[s]) {
      assert Counted(w, s) && ClosedOnce(w.sessions[s]);
      InFlightUpdate(w.requests, i, w'.requests[i], s);
    }
  }

  lemma SameStatesKeepCount(w: World, w': World)
    requires CountInv(w) && w'.sessions == w.sessions && |w'.requests| == |w.requests|
    requires forall i :: 0 <= i < |w.requests| ==>
               w'.requests[i].session == w.requests[i].session && w'.requests[i].state == w.requests[i].state
    ensures CountInv(w')
  {
    forall s: nat | s < |w'.sessions| ensures Counted(w', s) && ClosedOnce(w'.sessions[s]) {
      assert Counted(w, s) && ClosedOnce(w.sessions[s]);
      InFlightSame(w'.requests, w.requests, s);
    }
  }

  lemma AcceptKeepsCount(w: World, s: nat, addr: nat, outcome: Outcome)
    requires CountInv(w) && s < |w.sessions|
    ensures CountInv(Accept(w, s, addr, outcome))
  {
    hide InFlight;
    var w' := Accept(w, s, addr, outcome);
    forall t: nat | t < |w'.sessions| ensures Counted(w', t) && ClosedOnce(w'.sessions[t]) {
      assert Counted(w, t) && ClosedOnce(w.sessions[t]);
      InFlightAppend(w.requests, w'.requests[|w.requests|], t);
    }
  }

  lemma {:induction false} NoneInFlight(requests: seq<Request>, s: nat)
    requires forall i :: 0 <= i < |requests| ==> requests[i].session != s
    ensures InFlight(requests, s) == 0
    decreases |requests|
  {
    if requests != [] {
      NoneInFlight(requests[..|requests| - 1], s);
    }
  }

  /** Steps of sessions and closers: requests and counters stay. */
  lemma OthersKeepCount(w: World, w': World)
    requires CountInv(w) && w'.requests == w.requests && |w'.sessions| == |w.sessions|
    requires forall s: nat :: s < |w.sessions| ==>
               && w'.sessions[s].pending == w.sessions[s].pending && (w'.sessions[s].inMap ==> w.sessions[s].inMap)
               && ClosedOnce(w'.sessions[s])
    ensures CountInv(w')
  {
    forall s: nat | s < |w'.sessions| ensures Counted(w', s) { assert Counted(w, s); }
  }

  lemma StepKeepsCount(w: World, step: Step)
    requires LifeInv(w) && NoAlias(w) && CountInv(w) && CloseInv(w) && Enabled(w, step) && Guarded(w, step)
    ensures CountInv(Do(w, step))
  {
    hide LifeInv, NoAlias, CountInv, CloseInv;
    match step {
      case Open(owned) => OpenKeepsCount(w, owned);
      case Submit(s, addr, outcome) => AcceptKeepsCount(w, s, addr, outcome);
      case Deliver(i, k) =>
        GuardedDelivery(w, i, k);
        SameStatesKeepCount(w, Wakened(w, k));
        if w.requests[i].state == PENDING { ProcessKeepsCount(Wakened(w, k), i, k); }
      case CloserStep(c) => AdvanceKeepsCount(w, c);
      case _ => QuietKeepsCount(w, step);
    }
  }

  lemma OpenKeepsCount(w: World, owned: bool)
    requires CountInv(w)
    ensures CountInv(Do(w, Open(owned)))
  {
    var w' := Do(w, Open(owned));
    forall s: nat | s < |w'.sessions| ensures Counted(w', s) && ClosedOnce(w'.sessions[s]) {
      if s < |w.sessions| { assert Counted(w, s) && ClosedOnce(w.sessions[s]); } else { NoneInFlight(w.requests, s); }
    }
  }

  lemma ProcessKeepsCount(w: World, i: nat, k: Worker)
    requires CountInv(w) && i < |w.requests| && w.requests[i].state == PENDING && w.requests[i].session < |w.sessions|
    ensures CountInv(Process(w, i, w.requests[i].session, k))
  {
    MarkKeepsCount(w, i);
    hide CountInv;
    SameStatesKeepCount(Mark(w, i, w.requests[i].session), Process(w, i, w.requests[i].session, k));
  }

  lemma AdvanceKeepsCount(w: World, c: nat)
    requires CountInv(w) && CloseInv(w) && c < |w.closers| && w.closers[c].session < |w.sessions|
    ensures CountInv(Advance(w, c))
  {
    assert CloserOk(w, w.closers[c]) && ClosedOnce(w.sessions[w.closers[c].session]);
    OthersKeepCount(w, Advance(w, c));
  }

  lemma QuietKeepsCount(w: World, step: Step)
    requires CountInv(w) && Enabled(w, step)
    requires || step.DrainQuarantine? || step.Wake? || step.Exit? || step.Tick? || step.Close?
             || step.BeginSweep? || step.ClearMap?
    ensures CountInv(Do(w, step))
  {
    if step.DrainQuarantine? {
      SameStatesKeepCount(w, Do(w, step));
    } else {
      OthersKeepCount(w, Do(w, step));
    }
  }

  // ------------------------------------------------------------------ closers

  /** Sessions only ever lose: no closed session runs again, and the counter of one that does not
      run never grows. */
  ghost predicate Shrinks(w: World, w': World) {
    && |w'.sessions| >= |w.sessions|
    && forall s: nat :: s < |w.sessions| && !w.sessions[s].running ==>
         && !w'.sessions[s].running && w'.sessions[s].pending <= w.sessions[s].pending
         && w'.sessions[s].handleValid == w.sessions[s].handleValid && w'.sessions[s].owned == w.sessions[s].owned
         && w'.sessions[s].closes == w.sessions[s].closes && (w'.sessions[s].inMap ==> w.sessions[s].inMap)
  }

  lemma ShrinkKeepsClosers(w: World, w': World)
    requires CloseInv(w) && Shrinks(w, w') && w'.closers == w.closers
    ensures CloseInv(w')
  {
    forall c: nat | c < |w'.closers| ensures CloserOk(w', w'.closers[c]) { assert CloserOk(w, w.closers[c]); }
  }

  lemma AdvanceKeepsClosers(w: World, c: nat)
    requires CloseInv(w) && c < |w.closers| && w.closers[c].session < |w.sessions|
    requires ClosedOnce(w.sessions[w.closers[c].session])
    ensures CloseInv(Advance(w, c))
  {
    var w' := Advance(w, c);
    forall d: nat | d < |w'.closers| ensures CloserOk(w', w'.closers[d]) {
      if d == c { AdvancedIsOk(w, c); } else { OthersStayOk(w, c, d); }
    }
  }

  lemma AdvancedIsOk(w: World, c: nat)
    requires CloseInv(w) && c < |w.closers| && w.closers[c].session < |w.sessions|
    requires ClosedOnce(w.sessions[w.closers[c].session])
    ensures CloserOk(Advance(w, c), Advance(w, c).closers[c])
  {
    assert CloserOk(w, w.closers[c]);
    hide CloseInv;
  }

  lemma OthersStayOk(w: World, c: nat, d: nat)
    requires CloseInv(w) && c < |w.closers| && d < |w.closers| && d != c && w.closers[c].session < |w.sessions|
    ensures Advance(w, c).closers[d] == w.closers[d] && CloserOk(Advance(w, c), w.closers[d])
  {
    assert CloserOk(w, w.closers[d]) && w.closers[d].session != w.closers[c].session;
    hide CloseInv;
  }

  lemma WinKeepsClosers(w: World, s: nat, timeout: nat, sweep: Option<nat>)
    requires CloseInv(w) && Enabled(w, Close(s, timeout, sweep)) && ClosedOnce(w.sessions[s])
    ensures CloseInv(Do(w, Close(s, timeout, sweep)))
  {
    var w' := Do(w, Close(s, timeout, sweep));
    if w' != w {
      forall d: nat | d < |w'.closers| ensures CloserOk(w', w'.closers[d]) {
        if d < |w.closers| { assert CloserOk(w, w.closers[d]); }
      }
      forall d: nat | d < |w.closers| ensures w.closers[d].session != s { assert CloserOk(w, w.closers[d]); }
    }
  }

  lemma StepKeepsClosers(w: World, step: Step)
    requires Inv(w) && Enabled(w, step) && Guarded(w, step)
    ensures CloseInv(Do(w, step))
  {
    assert forall s: nat :: s < |w.sessions| ==> ClosedOnce(w.sessions[s]);
    hide LifeInv, NoAlias, CountInv, CloseInv, ClosedOnce;
    match step {
      case CloserStep(c) => AdvanceKeepsClosers(w, c);
      case Close(s, timeout, sweep) => WinKeepsClosers(w, s, timeout, sweep);
      case Deliver(i, k) =>
        GuardedDelivery(w, i, k);
        ShrinkKeepsClosers(w, Wakened(w, k));
        if w.requests[i].state == PENDING { ProcessKeepsClosers(Wakened(w, k), i, w.requests[i].session, k); }
      case Submit(s, addr, outcome) => SubmitKeepsClosers(w, step);
      case _ => OthersKeepClosers(w, step);
    }
  }

  lemma ProcessKeepsClosers(w: World, i: nat, s: nat, k: Worker)
    requires CloseInv(w) && i < |w.requests| && s < |w.sessions|
    ensures CloseInv(Process(w, i, s, k))
  {
    var w' := Process(w, i, s, k);
    assert w'.sessions == Mark(w, i, s).sessions && w'.closers == w.closers;
    hide Process, CloseInv;
    ShrinkKeepsClosers(w, w');
  }

  lemma SubmitKeepsClosers(w: World, step: Step)
    requires CloseInv(w) && step.Submit? && Enabled(w, step)
    ensures CloseInv(Do(w, step))
  {
    ShrinkKeepsClosers(w, Do(w, step));
  }

  lemma OthersKeepClosers(w: World, step: Step)
    requires CloseInv(w) && Enabled(w, step)
    requires || step.Open? || step.DrainQuarantine? || step.Wake? || step.Exit? || step.Tick?
             || step.BeginSweep? || step.ClearMap?
    ensures CloseInv(Do(w, step))
  {
    ShrinkKeepsClosers(w, Do(w, step));
  }

  lemma StepKeepsInv(w: World, step: Step)
    requires Inv(w) && Enabled(w, step) && Guarded(w, step)
    ensures Inv(Do(w, step))
  {
    hide LifeInv, NoAlias, CountInv, CloseInv, ExitInv, Do;
    StepKeepsLife(w, step);
    StepKeepsNoAlias(w, step);
    StepKeepsCount(w, step);
    StepKeepsClosers(w, step);
    StepKeepsExit(w, step);
  }

  lemma StepKeepsExit(w: World, step: Step)
    requires LifeInv(w) && NoAlias(w) && ExitInv(w) && Enabled(w, step) && Guarded(w, step)
    ensures ExitInv(Do(w, step))
  {
    hide LifeInv, NoAlias;
    match step {
      case Deliver(i, k) =>
        GuardedDelivery(w, i, k);
        ProcessQueues(Wakened(w, k), i, k);
        hide Process, DeliverTo;
      case DrainQuarantine(k) => KeptOfNothing(w.now);
      case Exit(_) =>
      case _ => hide Accept, Advance;
    }
  }

  /** Only the worker's own queue grows. */
  lemma ProcessQueues(w: World, i: nat, k: Worker)
    requires i < |w.requests| && w.requests[i].session < |w.sessions|
    ensures var w' := Process(w, i, w.requests[i].session, k);
            && w'.busy == w.busy && w'.exited == w.exited && w'.dropped == w.dropped
            && (k != ReadWorker ==> w'.readQ == w.readQ) && (k != WriteWorker ==> w'.writeQ == w.writeQ)
  {
  }

  lemma KeptOfNothing(now: nat)
    ensures Kept([], now) == []
  {
  }

  // ------------------------------------------------------------------ whole runs

  predicate GuardedRun(w: World, steps: seq<Step>)
    decreases |steps|
  {
    steps == [] || (Enabled(w, steps[0]) && Guarded(w, steps[0]) && GuardedRun(Do(w, steps[0]), steps[1..]))
  }

  function Final(w: World, steps: seq<Step>): World
    requires GuardedRun(w, steps)
    decreases |steps|
  {
    if steps == [] then w else Final(Do(w, steps[0]), steps[1..])
  }

  lemma {:induction false} EveryRun(w: World, steps: seq<Step>)
    requires Inv(w) && GuardedRun(w, steps)
    ensures Inv(Final(w, steps))
    decreases |steps|
  {
    if steps != [] {
      StepKeepsInv(w, steps[0]);
      hide Inv, Do, Enabled, Guarded;
      EveryRun(Do(w, steps[0]), steps[1..]);
    }
  }

  lemma InitialInv(w: World)
    requires Initial(w)
    ensures Inv(w)
  {
  }

  predicate PromptRun(w: World, steps: seq<Step>)
    decreases |steps|
  {
    steps == [] || (Enabled(w, steps[0]) && Prompt(w, steps[0]) && PromptRun(Do(w, steps[0]), steps[1..]))
  }

  lemma {:induction false} PromptRunIsGuarded(w: World, steps: seq<Step>)
    requires Inv(w) && PromptRun(w, steps)
    ensures GuardedRun(w, steps)
    decreases |steps|
  {
    if steps != [] {
      PromptIsGuarded(w, steps[0]);
      StepKeepsInv(w, steps[0]);
      hide Inv, Do, Enabled, Prompt, Guarded;
      PromptRunIsGuarded(Do(w, steps[0]), steps[1..]);
    }
  }

  /** No deleted object is touched, as long as every repetition meets the guard; those that come
      within a second do. */
  lemma NothingDeletedIsTouched(init: World, steps: seq<Step>)
    requires Initial(init) && (GuardedRun(init, steps) || PromptRun(init, steps))
    ensures GuardedRun(init, steps) && !Final(init, steps).touchedFreed
  {
    InitialInv(init);
    if PromptRun(init, steps) { PromptRunIsGuarded(init, steps); }
    EveryRun(init, steps);
  }

  // ------------------------------------------------------------------ any run at all

  predicate Runs(w: World, steps: seq<Step>)
    decreases |steps|
  {
    steps == [] || (Enabled(w, steps[0]) && Runs(Do(w, steps[0]), steps[1..]))
  }

  function Reached(w: World, steps: seq<Step>): World
    requires Runs(w, steps)
    decreases |steps|
  {
    if steps == [] then w else Reached(Do(w, steps[0]), steps[1..])
  }

  function Unmarked(w: World): World {
    w.(touchedFreed := false)
  }

  /** What no repetition can break, however late. */
  ghost predicate Lives(w: World) {
    LifeInv(Unmarked(w)) && NoAlias(w)
  }

  lemma StepKeepsLives(w: World, step: Step)
    requires Lives(w) && Enabled(w, step)
    ensures Lives(Do(w, step))
  {
    var u := Unmarked(w);
    FewerLivesKeepNoAlias(w, u);
    if step.Deliver? {
      AnyDeliveryKeepsLives(w, step.request, step.worker);
    } else {
      hide LifeInv, NoAlias;
      StepKeepsLife(u, step);
      StepKeepsNoAlias(u, step);
      SameUnmarked(w, step);
      hide Do;
      NoAliasUnmarked(Do(w, step));
    }
  }

  lemma SameUnmarked(w: World, step: Step)
    requires Enabled(w, step) && !step.Deliver?
    ensures Enabled(Unmarked(w), step) && Do(Unmarked(w), step) == Unmarked(Do(w, step))
  {
    match step {
      case Submit(s, addr, outcome) => SameAccept(w, s, addr, outcome);
        hide Accept, Occupant;
      case CloserStep(c) => SameAdvance(w, c);
        hide Advance;
      case DrainQuarantine(_) => hide Kept, Expired, Free;
      case _ =>
    }
  }

  lemma SameAccept(w: World, s: nat, addr: nat, outcome: Outcome)
    requires s < |w.sessions|
    ensures Accept(Unmarked(w), s, addr, outcome) == Unmarked(Accept(w, s, addr, outcome))
  {
  }

  lemma SameAdvance(w: World, c: nat)
    requires c < |w.closers| && w.closers[c].session < |w.sessions|
    ensures Advance(Unmarked(w), c) == Unmarked(Advance(w, c))
  {
  }

  lemma NoAliasUnmarked(w: World)
    ensures NoAlias(Unmarked(w)) <==> NoAlias(w)
  {
  }

  lemma AnyDeliveryKeepsLives(w: World, i: nat, k: Worker)
    requires Lives(w) && Enabled(w, Deliver(i, k))
    ensures Lives(Do(w, Deliver(i, k)))
  {
    var w1 := Wakened(w, k);
    WakenedLives(w, k);
    hide Lives;
    var o := Occupant(w1.requests, w1.requests[i].addr);
    if o.None? {
      TouchKeepsLives(w1);
    } else if w1.requests[o.value].state == PENDING {
      ProcessKeepsLives(w1, o.value, w1.requests[i].session, k);
      hide Process;
    }
  }

  lemma WakenedLives(w: World, k: Worker)
    requires Lives(w)
    ensures Lives(Wakened(w, k))
  {
    hide LifeInv;
    OthersKeepLife(Unmarked(w), Unmarked(Wakened(w, k)));
  }

  lemma TouchKeepsLives(w: World)
    requires Lives(w)
    ensures Lives(w.(touchedFreed := true))
  {
    hide LifeInv;
    assert Unmarked(w.(touchedFreed := true)) == Unmarked(w);
  }

  lemma ProcessKeepsLives(w: World, i: nat, s: nat, k: Worker)
    requires Lives(w) && i < |w.requests| && s < |w.sessions| && w.requests[i].state == PENDING
    ensures Lives(Process(w, i, s, k))
  {
    hide LifeInv, NoAlias;
    ProcessKeepsLife(Unmarked(w), i, s, k);
    ProcessKeepsNoAlias(w, i, s, k);
    SameProcess(w, i, s, k);
    hide Process;
  }

  lemma SameProcess(w: World, i: nat, s: nat, k: Worker)
    requires i < |w.requests| && s < |w.sessions|
    ensures Process(Unmarked(w), i, s, k) == Unmarked(Process(w, i, s, k))
  {
    hide Pushed, Free;
  }

  lemma {:induction false} LivesOverEveryRun(w: World, steps: seq<Step>)
    requires Lives(w) && Runs(w, steps)
    ensures Lives(Reached(w, steps))
    decreases |steps|
  {
    if steps != [] {
      StepKeepsLives(w, steps[0]);
      hide Lives, Do, Enabled;
      LivesOverEveryRun(Do(w, steps[0]), steps[1..]);
    }
  }

  /** Requests over every run, however often and late completions are repeated: a future is answered
      at most once, and exactly once if its completion was processed while the session was in the
      map; an object is deleted at most once, never while pending, and not within a second of the
      first delivery. */
  lemma RequestsOverEveryRun(init: World, steps: seq<Step>, i: nat)
    requires Initial(init) && Runs(init, steps) && i < |Reached(init, steps).requests|
    ensures var w := Reached(init, steps);
            var r := w.requests[i];
            && r.resolutions <= 1 && r.frees <= 1
            && (r.delivery.First? && r.delivery.found ==> r.resolutions == 1)
            && (r.delivery.First? && !r.delivery.found ==> r.resolutions == if r.sync then 1 else 0)
            && (r.state == PENDING ==> r.frees == 0)
            && (r.delivery.First? && r.frees == 1 ==> r.delivery.time + 1000 <= w.now)
  {
    assert Lives(init);
    LivesOverEveryRun(init, steps);
    var w := Unmarked(Reached(init, steps));
    assert OneLife(w, i) && HeldLongEnough(w, i) && AnsweredOnce(w.requests[i]);
  }

  /** A repeated completion is harmless if and only if it meets the guard, in every state that any
      run reaches without having touched a deleted object. Otherwise it touches one, or is taken
      for the completion of a request the kernel is still at work on. */
  lemma RepetitionIsHarmlessIff(init: World, steps: seq<Step>, i: nat, k: Worker)
    requires Initial(init) && Runs(init, steps) && !Reached(init, steps).touchedFreed
    requires Enabled(Reached(init, steps), Deliver(i, k)) && Reached(init, steps).requests[i].delivery.First?
    ensures var w := Reached(init, steps); Do(w, Deliver(i, k)) == Wakened(w, k) <==> MeetsGuard(w, i)
  {
    assert Lives(init);
    LivesOverEveryRun(init, steps);
    HarmlessIff(Reached(init, steps), i, k);
  }

  lemma HarmlessIff(w: World, i: nat, k: Worker)
    requires Lives(w) && !w.touchedFreed && Enabled(w, Deliver(i, k)) && w.requests[i].delivery.First?
    ensures Do(w, Deliver(i, k)) == Wakened(w, k) <==> MeetsGuard(w, i)
  {
    assert Unmarked(w) == w && OneLife(w, i);
    if MeetsGuard(w, i) {
      GuardedDelivery(w, i, k);
    } else {
      var o := Occupant(w.requests, w.requests[i].addr);
      if o.Some? {
        assert SameObject(w.requests[i], w.requests[o.value]);
        assert Do(w, Deliver(i, k)).requests[o.value].state == RESOLVED;
      }
    }
  }

  /** Sessions over every run whose repetitions meet the guard: the counter of a session in the map
      is the number of its requests whose first delivery is unprocessed, and no counter underflows;
      the handle is closed at most once and only if owned. */
  lemma SessionsOverEveryRun(init: World, steps: seq<Step>, s: nat)
    requires Initial(init) && GuardedRun(init, steps) && s < |Final(init, steps).sessions|
    ensures var w := Final(init, steps);
            var session := w.sessions[s];
            && session.pending >= InFlight(w.requests, s) >= 0
            && (session.inMap ==> session.pending == InFlight(w.requests, s))
            && session.closes <= 1
            && (session.closes == 1 ==> session.owned && !session.running && !session.handleValid)
  {
    InitialInv(init);
    EveryRun(init, steps);
    assert Counted(Final(init, steps), s) && ClosedOnce(Final(init, steps).sessions[s]);
  }

  /** Closers over every such run: two never work on the same session; the wait overshoots its timeout
      by at most 31 ms; and whoever gave up the handle saw no request in flight or had waited for
      the whole timeout. */
  lemma ClosersOverEveryRun(init: World, steps: seq<Step>, c: nat, d: nat)
    requires Initial(init) && GuardedRun(init, steps) && c < |Final(init, steps).closers|
    ensures var w := Final(init, steps);
            var closer := w.closers[c];
            && closer.session < |w.sessions| && !w.sessions[closer.session].running
            && (d < |w.closers| && d != c ==> w.closers[d].session != closer.session)
            && closer.elapsed <= closer.timeout + 31
            && (!w.sessions[closer.session].handleValid ==>
                  InFlight(w.requests, closer.session) == 0 || closer.elapsed >= closer.timeout)
  {
    InitialInv(init);
    EveryRun(init, steps);
    var w := Final(init, steps);
    assert CloserOk(w, w.closers[c]) && Counted(w, w.closers[c].session);
  }

  /** Nothing is kept for ever by a worker at work: if each processes one more packet a second
      later, the drains that follow delete every request that has been processed, each exactly
      once. */
  lemma EverythingIsFreed(w: World)
    requires Inv(w) && w.exited == {}
    ensures var w' := LastBatch(LastBatch(Do(w, Tick(1000)), ReadWorker), WriteWorker);
            && w'.readQ == [] && w'.writeQ == []
            && forall i :: 0 <= i < |w'.requests| && w'.requests[i].state != PENDING ==> w'.requests[i].frees == 1
  {
    var w1 := Do(w, Tick(QUARANTINE_MS));
    StepKeepsInv(w, Tick(QUARANTINE_MS));
    BatchKeepsInv(w1, ReadWorker);
    var w2 := LastBatch(w1, ReadWorker);
    BatchKeepsInv(w2, WriteWorker);
    var w3 := LastBatch(w2, WriteWorker);
    hide NoAlias, CountInv, CloseInv;
    forall e | e in w.readQ || e in w.writeQ ensures Due(e, w1.now) { assert EntryInTime(w, e); }
    AllDue(w.readQ, w1.now);
    AllDue(w.writeQ, w1.now);
    forall i: nat | i < |w3.requests| && w3.requests[i].state != PENDING ensures w3.requests[i].frees == 1 {
      assert OneLife(w3, i);
    }
  }

  /** A packet that only wakes the worker, and the drain at the end of that batch. */
  function LastBatch(w: World, k: Worker): World
    requires k !in w.exited
  {
    Do(Do(w, Wake(k)), Step.DrainQuarantine(k))
  }

  lemma BatchKeepsInv(w: World, k: Worker)
    requires Inv(w) && k !in w.exited
    ensures Inv(LastBatch(w, k))
  {
    StepKeepsInv(w, Wake(k));
    StepKeepsInv(Do(w, Wake(k)), Step.DrainQuarantine(k));
  }

  /** When both workers have ended, a processed request has been deleted, exactly once, if and only
      if no worker still held it when it ended; the others are never deleted. */
  lemma FreedUnlessHeldAtExit(w: World, i: nat)
    requires Inv(w) && ReadWorker in w.exited && WriteWorker in w.exited
    requires i < |w.requests| && w.requests[i].delivery.First?
    ensures w.requests[i].frees == 1 <==> !(exists e :: e in w.dropped && e.req == i)
    ensures w.requests[i].frees <= 1
  {
    assert OneLife(w, i);
    CountedIsThere(w.dropped, i);
  }

  predicate IsOf(step: Step, k: Worker) {
    match step
    case Deliver(_, j) => j == k
    case Wake(j) => j == k
    case DrainQuarantine(j) => j == k
    case Exit(j) => j == k
    case _ => false
  }

  /** What a worker holds changes only by its own steps. */
  lemma OthersKeepQueue(w: World, step: Step, k: Worker)
    requires LifeInv(w) && NoAlias(w) && Enabled(w, step) && Guarded(w, step) && !IsOf(step, k)
    ensures Queue(Do(w, step), k) == Queue(w, k)
  {
    hide LifeInv, NoAlias;
    match step {
      case Deliver(i, j) =>
        GuardedDelivery(w, i, j);
        ProcessQueues(Wakened(w, j), i, j);
        hide Process, DeliverTo;
      case _ => hide Accept, Advance;
    }
  }

  lemma {:induction false} IdleWorkerHolds(w: World, steps: seq<Step>, k: Worker)
    requires Inv(w) && GuardedRun(w, steps) && forall step :: step in steps ==> !IsOf(step, k)
    ensures Queue(Final(w, steps), k) == Queue(w, k)
    decreases |steps|
  {
    if steps != [] {
      OthersKeepQueue(w, steps[0], k);
      StepKeepsInv(w, steps[0]);
      hide Inv, Do, Enabled, Guarded, Queue;
      IdleWorkerHolds(Do(w, steps[0]), steps[1..], k);
    }
  }

  function AfterDrain(w: World, k: Worker): World
    requires k in w.busy
  {
    Do(w, Step.DrainQuarantine(k))
  }

  lemma DrainKeeps(w: World, k: Worker)
    requires Inv(w) && k in w.busy
    ensures Inv(AfterDrain(w, k)) && Queue(AfterDrain(w, k), k) == Kept(Queue(w, k), w.now)
  {
    StepKeepsInv(w, Step.DrainQuarantine(k));
    hide Inv;
  }

  function AfterExit(w: World, k: Worker): World
    requires k !in w.exited && k !in w.busy
  {
    Do(w, Exit(k))
  }

  lemma ExitDrops(w: World, k: Worker)
    requires k !in w.exited && k !in w.busy
    ensures AfterExit(w, k).dropped == w.dropped + Queue(w, k)
  {
  }

  /** What the end of a worker drops, told by its last batch: whatever others do in between, exactly
      the requests that were pushed less than a second before its last drain. */
  lemma DroppedAtExitIff(w: World, k: Worker, steps: seq<Step>, i: nat)
    requires Inv(w) && k in w.busy
    requires GuardedRun(AfterDrain(w, k), steps) && forall step :: step in steps ==> !IsOf(step, k)
    requires var last := Final(AfterDrain(w, k), steps); k !in last.exited && k !in last.busy
    ensures var last := Final(AfterDrain(w, k), steps);
            Count(AfterExit(last, k).dropped, i) > Count(last.dropped, i)
            <==> exists e :: e in Queue(w, k) && e.req == i && w.now < e.when + QUARANTINE_MS
  {
    hide Inv, AfterDrain, AfterExit, Final, GuardedRun, Queue, Kept, IsOf;
    DrainKeeps(w, k);
    IdleWorkerHolds(AfterDrain(w, k), steps, k);
    var last := Final(AfterDrain(w, k), steps);
    ExitDrops(last, k);
    CountConcat(last.dropped, Queue(last, k), i);
    KeptCountIff(Queue(w, k), w.now, i);
  }

  lemma {:induction false} DroppedIsNeverFreed(w: World, steps: seq<Step>, e: Entry)
    requires Inv(w) && GuardedRun(w, steps) && e in w.dropped
    ensures var w' := Final(w, steps); e.req < |w'.requests| && w'.requests[e.req].frees == 0
    decreases |steps|
  {
    if steps == [] {
      assert EntryInTime(w, e) && OneLife(w, e.req);
      CountedIsThere(w.dropped, e.req);
    } else {
      StepKeepsInv(w, steps[0]);
      DroppedStays(w, steps[0]);
      hide Inv, Do, Enabled, Guarded;
      DroppedIsNeverFreed(Do(w, steps[0]), steps[1..], e);
    }
  }

  lemma DroppedStays(w: World, step: Step)
    requires Inv(w) && Enabled(w, step) && Guarded(w, step)
    ensures forall e :: e in w.dropped ==> e in Do(w, step).dropped
  {
    match step {
      case Deliver(i, k) => GuardedDelivery(w, i, k);
      case _ =>
    }
  }

  lemma AllDue(q: seq<Entry>, now: nat)
    requires forall e :: e in q ==> Due(e, now)
    ensures Kept(q, now) == []
  {
    if Kept(q, now) != [] {
      assert Kept(q, now)[0] in Kept(q, now);
    }
  }

  // ------------------------------------------------------------------ where the guard ends

  lemma RunCons(w: World, step: Step, steps: seq<Step>)
    requires Enabled(w, step) && Guarded(w, step) && GuardedRun(Do(w, step), steps)
    ensures GuardedRun(w, [step] + steps) && Final(w, [step] + steps) == Final(Do(w, step), steps)
  {
    assert ([step] + steps)[1..] == steps;
  }

  /** A second after the only request of a file has completed, and after a drain, the allocator
      hands out its address again. */
  function Reused(addr: nat): World {
    Start(QUARANTINE_MS).(
      sessions := [Session(true, 1, true, true, true, 0)],
      requests := [Request(0, addr, RESOLVED, false, 1, First(0, true), 1),
                   Request(0, addr, PENDING, false, 0, NotYet, 0)])
  }

  lemma FirstCompletion(session: Session, r: Request)
    requires session.inMap && r.session == 0 && r.state == PENDING && !r.sync && Live(r)
    ensures var r' := r.(state := RESOLVED, delivery := First(0, true), resolutions := r.resolutions + 1);
            Do(Start(0).(sessions := [session], requests := [r]), Deliver(0, ReadWorker)) ==
              Start(0).(sessions := [session.(pending := session.pending - 1)], requests := [r'],
                        readQ := [Entry(0, 0)], busy := {ReadWorker})
  {
    var w := Start(0).(sessions := [session], requests := [r]);
    assert Occupant(w.requests, r.addr) == Some(0);
    var none: seq<Entry> := [];
    assert none + [Entry(0, 0)] == [Entry(0, 0)];
    assert Pushed(none, 0, 0) == ([Entry(0, 0)], none);
    var m := Mark(w, 0, 0);
    assert Free(m.requests, none) == m.requests;
  }

  lemma FirstDrain(session: Session, r: Request)
    ensures var w := Start(QUARANTINE_MS).(sessions := [session], requests := [r]);
            Do(w.(readQ := [Entry(0, 0)], busy := {ReadWorker}), Step.DrainQuarantine(ReadWorker)) ==
              w.(requests := [r.(frees := r.frees + 1)])
  {
    var none: seq<Entry> := [];
    DrainStep(none, Entry(0, 0), QUARANTINE_MS);
    DrainNothing(QUARANTINE_MS);
    CountAppend(none, Entry(0, 0), 0);
    assert none + [Entry(0, 0)] == [Entry(0, 0)];
    assert Free([r], [Entry(0, 0)]) == [r.(frees := r.frees + 1)];
  }

  /** The first three steps: open, read, complete. */
  lemma CompletedOnce(addr: nat, later: seq<Step>)
    requires GuardedRun(Completed(addr), later)
    ensures var steps := [Open(true)] + ([Submit(0, addr, Async)] + ([Deliver(0, ReadWorker)] + later));
            GuardedRun(Start(0), steps) && Final(Start(0), steps) == Final(Completed(addr), later)
  {
    var r, session := Request(0, addr, PENDING, false, 0, NotYet, 0), Session(true, 0, true, true, true, 0);
    var w1 := Start(0).(sessions := [session]);
    var w2 := Start(0).(sessions := [session.(pending := 1)], requests := [r]);
    assert Do(Start(0), Open(true)) == w1;
    assert Do(w1, Submit(0, addr, Async)) == w2;
    FirstCompletion(session.(pending := 1), r);
    hide Do, Final, GuardedRun;
    RunCons(w2, Deliver(0, ReadWorker), later);
    RunCons(w1, Submit(0, addr, Async), [Deliver(0, ReadWorker)] + later);
    RunCons(Start(0), Open(true), [Submit(0, addr, Async)] + ([Deliver(0, ReadWorker)] + later));
  }

  /** The worker drains, too early for the request, and ends. */
  function Ended(addr: nat): World {
    Completed(addr).(busy := {}, readQ := [], exited := {ReadWorker}, dropped := [Entry(0, 0)])
  }

  lemma EndedAfter(addr: nat)
    ensures var steps := [Step.DrainQuarantine(ReadWorker)] + ([Exit(ReadWorker)] + []);
            GuardedRun(Completed(addr), steps) && Final(Completed(addr), steps) == Ended(addr)
  {
    var w3 := Completed(addr);
    var w4 := w3.(busy := {});
    EarlyDrain(w3);
    ExitHolding(w4);
    assert GuardedRun(Ended(addr), []) && Final(Ended(addr), []) == Ended(addr);
    hide Do, Final, GuardedRun;
    RunCons(w4, Exit(ReadWorker), []);
    RunCons(w3, Step.DrainQuarantine(ReadWorker), [Exit(ReadWorker)] + []);
  }

  lemma EarlyDrain(w: World)
    requires w.readQ == [Entry(0, 0)] && w.now == 0 && w.busy == {ReadWorker}
    ensures Do(w, Step.DrainQuarantine(ReadWorker)) == w.(busy := {})
  {
    DrainsNothing();
    hide Kept, Expired;
    FreesNothing(w.requests);
    hide Free;
    assert w.busy - {ReadWorker} == {};
  }

  lemma FreesNothing(requests: seq<Request>)
    ensures Free(requests, []) == requests
  {
  }

  lemma ExitHolding(w: World)
    requires w.busy == {} && w.exited == {} && w.dropped == []
    ensures Do(w, Exit(ReadWorker)) == w.(readQ := [], exited := {ReadWorker}, dropped := w.readQ)
  {
    assert w.dropped + w.readQ == w.readQ;
  }

  /** Shutting down right after a read leaks its request: open, read, complete, drain, end. */
  lemma DroppedIsReachable(addr: nat) returns (steps: seq<Step>)
    ensures GuardedRun(Start(0), steps) && Final(Start(0), steps) == Ended(addr)
    ensures Ended(addr).dropped == [Entry(0, 0)] && Ended(addr).requests[0].state == RESOLVED
    ensures Ended(addr).requests[0].frees == 0
  {
    hide Do, Final, GuardedRun;
    EndedAfter(addr);
    var later := [Step.DrainQuarantine(ReadWorker)] + ([Exit(ReadWorker)] + []);
    CompletedOnce(addr, later);
    steps := [Open(true)] + ([Submit(0, addr, Async)] + ([Deliver(0, ReadWorker)] + later));
  }

  lemma DrainsNothing()
    ensures Kept([Entry(0, 0)], 0) == [Entry(0, 0)] && Expired([Entry(0, 0)], 0) == []
  {
    var none: seq<Entry> := [];
    assert none + [Entry(0, 0)] == [Entry(0, 0)];
    DrainStep(none, Entry(0, 0), 0);
    DrainNothing(0);
    hide Kept, Expired;
  }

  function Completed(addr: nat): World {
    Start(0).(sessions := [Session(true, 0, true, true, true, 0)],
              requests := [Request(0, addr, RESOLVED, false, 1, First(0, true), 0)],
              readQ := [Entry(0, 0)], busy := {ReadWorker})
  }

  /** The next three: a second passes, the worker drains, and a read gets the same address. */
  lemma ReusedAfter(addr: nat)
    ensures var steps := [Tick(QUARANTINE_MS)] + ([Step.DrainQuarantine(ReadWorker)] + ([Submit(0, addr, Async)] + []));
            GuardedRun(Completed(addr), steps) && Final(Completed(addr), steps) == Reused(addr)
  {
    var w3 := Completed(addr);
    var w4 := w3.(now := QUARANTINE_MS);
    var w5 := w4.(requests := [w3.requests[0].(frees := 1)], readQ := [], busy := {});
    var submit, drain := Submit(0, addr, Async), Step.DrainQuarantine(ReadWorker);
    assert Do(w3, Tick(QUARANTINE_MS)) == w4;
    FirstDrain(w3.sessions[0], w3.requests[0]);
    assert Do(w5, submit) == Reused(addr);
    assert GuardedRun(Reused(addr), []) && Final(Reused(addr), []) == Reused(addr);
    hide Do, Final, GuardedRun;
    RunCons(w5, submit, []);
    RunCons(w4, drain, [submit] + []);
    RunCons(w3, Tick(QUARANTINE_MS), [drain] + ([submit] + []));
  }

  lemma ReusedIsReachable(addr: nat) returns (steps: seq<Step>)
    ensures Initial(Start(0)) && GuardedRun(Start(0), steps) && Final(Start(0), steps) == Reused(addr)
  {
    hide Do, Final, GuardedRun;
    ReusedAfter(addr);
    var later := [Tick(QUARANTINE_MS)] + ([Step.DrainQuarantine(ReadWorker)] + ([Submit(0, addr, Async)] + []));
    CompletedOnce(addr, later);
    steps := [Open(true)] + ([Submit(0, addr, Async)] + ([Deliver(0, ReadWorker)] + later));
  }

  /** A completion repeated only then is taken for the completion of the new request: its future is
      answered and the counter drops to zero while the kernel is still at work on it. */
  lemma LateRepetitionHitsAnotherRequest(addr: nat)
    ensures var w, late := Reused(addr), Deliver(0, ReadWorker);
            && Enabled(w, late) && !Guarded(w, late) && !Prompt(w, late)
            && |Do(w, late).requests| == 2 && |Do(w, late).sessions| == 1
            && Do(w, late).requests[1].resolutions == 1 && Do(w, late).sessions[0].pending == 0
  {
    var w := Reused(addr);
    assert Occupant(w.requests, addr) == Some(1);
  }

  // ------------------------------------------------------------------ sessions a sweep forgets

  /** A running session that is neither in the map nor on the list of any sweep. */
  ghost predicate Stranded(w: World, s: nat) {
    s < |w.sessions| && w.sessions[s].running && w.sessions[s].handleValid && !w.sessions[s].inMap && Unlisted(w, s)
  }

  ghost predicate Unlisted(w: World, s: nat) {
    forall k :: 0 <= k < |w.sweeps| ==> s !in w.sweeps[k]
  }

  /** Exactly one thing strands a session: the end of a sweep, when the session is running and no
      sweep has it on its list. */
  lemma StrandedOnlyByClear(w: World, step: Step, s: nat)
    requires Inv(w) && Enabled(w, step) && Guarded(w, step)
    ensures Stranded(Do(w, step), s) <==>
              Stranded(w, s) || (step.ClearMap? && s < |w.sessions| && w.sessions[s].running && Unlisted(w, s))
  {
    assert s < |w.sessions| ==> ClosedOnce(w.sessions[s]);
    hide LifeInv, NoAlias, CountInv, CloseInv;
    match step {
      case Deliver(i, k) =>
        DeliverKeepsSessions(w, i, k);
        hide DeliverTo;
      case CloserStep(c) => AdvanceStrandsNone(w, c, s);
      case BeginSweep => BeginKeepsUnlisted(w, s);
      case Submit(t, addr, outcome) => AcceptStrandsNone(w, t, addr, outcome, s);
      case DrainQuarantine(_) => hide Free, Kept, Expired;
      case _ =>
    }
  }

  /** The end of a sweep strands exactly the running sessions that no sweep has on its list. */
  lemma DroppedByClear(w: World, s: nat, k: nat)
    requires Inv(w) && Enabled(w, ClearMap(k)) && s < |w.sessions|
    ensures Stranded(Do(w, ClearMap(k)), s) <==> w.sessions[s].running && Unlisted(w, s)
  {
    hide Inv, Do;
    StrandedOnlyByClear(w, ClearMap(k), s);
  }

  lemma AcceptStrandsNone(w: World, t: nat, addr: nat, outcome: Outcome, s: nat)
    requires t < |w.sessions|
    ensures Stranded(Accept(w, t, addr, outcome), s) <==> Stranded(w, s)
  {
  }

  lemma AdvanceStrandsNone(w: World, c: nat, s: nat)
    requires CloseInv(w) && Enabled(w, CloserStep(c))
    ensures Stranded(Advance(w, c), s) <==> Stranded(w, s)
  {
    assert CloserOk(w, w.closers[c]);
    hide CloseInv;
  }

  lemma DeliverKeepsSessions(w: World, i: nat, k: Worker)
    requires LifeInv(w) && NoAlias(w) && Enabled(w, Deliver(i, k)) && Guarded(w, Deliver(i, k))
    ensures var w' := Do(w, Deliver(i, k));
            && w'.sweeps == w.sweeps && |w'.sessions| == |w.sessions|
            && forall s :: 0 <= s < |w.sessions| ==> w'.sessions[s] == w.sessions[s].(pending := w'.sessions[s].pending)
  {
    GuardedDelivery(w, i, k);
    ProcessSessions(Wakened(w, k), i, w.requests[i].session, k);
    hide Process, DeliverTo, LifeInv, NoAlias, Guarded;
  }

  lemma ProcessSessions(w: World, i: nat, s: nat, k: Worker)
    requires i < |w.requests| && s < |w.sessions|
    ensures var w' := Process(w, i, s, k);
            && w'.sweeps == w.sweeps && |w'.sessions| == |w.sessions|
            && forall t :: 0 <= t < |w.sessions| ==> w'.sessions[t] == w.sessions[t].(pending := w'.sessions[t].pending)
  {
    hide Pushed, Free;
  }

  lemma BeginKeepsUnlisted(w: World, s: nat)
    ensures Unlisted(Do(w, BeginSweep), s) <==> Unlisted(w, s) && !(s < |w.sessions| && w.sessions[s].inMap)
  {
    var w' := Do(w, BeginSweep);
    var n := |w.sweeps|;
    assert forall k :: 0 <= k < n ==> w'.sweeps[k] == w.sweeps[k];
    assert s in w'.sweeps[n] <==> s < |w.sessions| && w.sessions[s].inMap;
  }

  /** A condition a caller can meet: as long as nothing is opened after a sweep has begun, every
      running session is in the map, or on the list of the first sweep. */
  ghost predicate AllListed(w: World) {
    forall s: nat :: s < |w.sessions| && w.sessions[s].running ==>
      if w.sweeps == [] then w.sessions[s].inMap else s in w.sweeps[0]
  }

  predicate NoOpenAfterSweep(swept: bool, steps: seq<Step>)
    decreases |steps|
  {
    steps == [] || (!(swept && steps[0].Open?) && NoOpenAfterSweep(swept || steps[0].BeginSweep?, steps[1..]))
  }

  lemma StepKeepsListed(w: World, step: Step)
    requires Inv(w) && AllListed(w) && Enabled(w, step) && Guarded(w, step)
    requires step.Open? ==> w.sweeps == []
    ensures AllListed(Do(w, step))
    ensures Do(w, step).sweeps == [] <==> w.sweeps == [] && !step.BeginSweep?
  {
    var w' := Do(w, step);
    hide LifeInv, NoAlias, CountInv, CloseInv;
    match step {
      case Deliver(i, k) =>
        DeliverKeepsSessions(w, i, k);
        hide DeliverTo;
      case CloserStep(c) => AdvanceKeepsListed(w, c);
      case BeginSweep =>
        if w.sweeps != [] { assert w'.sweeps[0] == w.sweeps[0]; }
      case DrainQuarantine(_) => hide Free, Kept, Expired;
      case _ =>
    }
  }

  lemma AdvanceKeepsListed(w: World, c: nat)
    requires CloseInv(w) && AllListed(w) && Enabled(w, CloserStep(c))
    ensures AllListed(Advance(w, c)) && Advance(w, c).sweeps == w.sweeps
  {
    assert CloserOk(w, w.closers[c]);
    hide CloseInv;
  }

  /** Then no session is ever stranded. */
  lemma {:induction false} NoneIsStranded(w: World, steps: seq<Step>, s: nat)
    requires Inv(w) && AllListed(w) && GuardedRun(w, steps) && NoOpenAfterSweep(w.sweeps != [], steps)
    ensures !Stranded(Final(w, steps), s)
    decreases |steps|
  {
    if steps == [] {
      assert w.sweeps != [] && Unlisted(w, s) ==> s !in w.sweeps[0];
    } else {
      StepKeepsInv(w, steps[0]);
      StepKeepsListed(w, steps[0]);
      hide Inv, AllListed, Do, Enabled, Guarded, Stranded;
      NoneIsStranded(Do(w, steps[0]), steps[1..], s);
    }
  }

  lemma NoneIsStrandedFromTheStart(init: World, steps: seq<Step>, s: nat)
    requires Initial(init) && GuardedRun(init, steps) && NoOpenAfterSweep(false, steps)
    ensures !Stranded(Final(init, steps), s)
  {
    InitialInv(init);
    NoneIsStranded(init, steps, s);
  }

  /** It happens otherwise: a file opened and read while the sweep of an empty map is finishing. */
  lemma StrandedIsReachable(addr: nat) returns (steps: seq<Step>)
    ensures GuardedRun(Start(0), steps) && !NoOpenAfterSweep(false, steps)
    ensures var w' := Final(Start(0), steps);
            Stranded(w', 0) && w'.requests == [Request(0, addr, PENDING, false, 0, NotYet, 0)]
  {
    var w0 := Start(0);
    var session, r := Session(true, 0, true, true, true, 0), Request(0, addr, PENDING, false, 0, NotYet, 0);
    var w1 := w0.(sweeps := [{}]);
    var w2 := w1.(sessions := [session]);
    var w3 := w2.(sessions := [session.(pending := 1)], requests := [r]);
    var w4 := w3.(sessions := [session.(pending := 1, inMap := false)]);
    var seen := Do(w0, BeginSweep).sweeps;
    assert |seen| == 1 && seen[0] == {};
    assert Do(w0, BeginSweep) == w1;
    assert Do(w1, Open(true)) == w2;
    assert Do(w2, Submit(0, addr, Async)) == w3;
    assert Do(w3, ClearMap(0)) == w4;
    assert GuardedRun(w4, []) && Final(w4, []) == w4;
    hide Do, Final, GuardedRun;
    RunCons(w3, ClearMap(0), []);
    var last := [Submit(0, addr, Async)] + ([ClearMap(0)] + []);
    RunCons(w2, Submit(0, addr, Async), [ClearMap(0)] + []);
    RunCons(w1, Open(true), last);
    steps := [BeginSweep] + ([Open(true)] + last);
    RunCons(w0, BeginSweep, [Open(true)] + last);
    assert steps[1..] == [Open(true)] + last && steps[0] == BeginSweep;
  }

  /** The requests of the session keep their place and what they were answered. */
  ghost predicate AnswersKept(w: World, w': World, s: nat) {
    |w'.requests| >= |w.requests| &&
    forall i :: 0 <= i < |w.requests| && w.requests[i].session == s ==>
      w'.requests[i].session == s && w'.requests[i].resolutions == w.requests[i].resolutions
  }

  lemma StrandedStep(w: World, step: Step, s: nat)
    requires Inv(w) && Stranded(w, s) && Enabled(w, step) && Guarded(w, step)
    ensures Stranded(Do(w, step), s) && AnswersKept(w, Do(w, step), s)
  {
    StrandedOnlyByClear(w, step, s);
    hide LifeInv, NoAlias, CountInv, CloseInv;
    match step {
      case Deliver(i, k) =>
        GuardedDelivery(w, i, k);
        if w.requests[i].state == PENDING { StrandedProcess(Wakened(w, k), i, k, s); }
        hide DeliverTo, Process;
      case Submit(t, addr, outcome) => StrandedAccept(w, t, addr, outcome, s);
      case DrainQuarantine(k) => hide Kept, Expired;
      case _ => SameRequests(w, step);
    }
  }

  lemma StrandedProcess(w: World, i: nat, k: Worker, s: nat)
    requires Stranded(w, s) && i < |w.requests| && w.requests[i].session < |w.sessions|
    ensures AnswersKept(w, Process(w, i, w.requests[i].session, k), s)
  {
  }

  lemma StrandedAccept(w: World, t: nat, addr: nat, outcome: Outcome, s: nat)
    requires t < |w.sessions|
    ensures AnswersKept(w, Accept(w, t, addr, outcome), s)
  {
  }

  lemma SameRequests(w: World, step: Step)
    requires Enabled(w, step) && !step.Deliver? && !step.Submit? && !step.DrainQuarantine?
    ensures Do(w, step).requests == w.requests
  {
  }

  /** Its handle is never closed, and its unanswered futures stay unanswered. */
  lemma {:induction false} StrandedForEver(w: World, steps: seq<Step>, s: nat)
    requires Inv(w) && Stranded(w, s) && GuardedRun(w, steps)
    ensures var w' := Final(w, steps);
            Stranded(w', s) && w'.sessions[s].closes == 0 && AnswersKept(w, w', s)
    decreases |steps|
  {
    EveryRun(w, steps);
    assert CountInv(Final(w, steps)) && (s < |Final(w, steps).sessions| ==> ClosedOnce(Final(w, steps).sessions[s]));
    if steps != [] {
      StepKeepsInv(w, steps[0]);
      StrandedStep(w, steps[0], s);
      hide Inv, Do, Enabled, Guarded;
      StrandedForEver(Do(w, steps[0]), steps[1..], s);
    }
  }
}
