/** The code of IOCPContext that runs under the interpreter lock (src/iocp_context.cpp), proved to
    take the steps of the transition system. */
module IocpContexts {
  import opened CloseWait
  import opened Iocp
  import opened Options
  import opened Quarantines

  function PacketStep(k: Worker, packet: Option<nat>): Step {
    if packet.Some? then Deliver(packet.value, k) else Wake(k)
  }

  predicate CanTake(w: World, k: Worker, packets: seq<Option<nat>>)
    decreases |packets|
  {
    packets == [] ||
    (Enabled(w, PacketStep(k, packets[0])) && CanTake(Do(w, PacketStep(k, packets[0])), k, packets[1..]))
  }

  /** The packets of a batch taken one after the other. */
  function Taken(w: World, k: Worker, packets: seq<Option<nat>>): World
    requires CanTake(w, k, packets)
    decreases |packets|
  {
    if packets == [] then w else Taken(Do(w, PacketStep(k, packets[0])), k, packets[1..])
  }

  lemma PacketKeepsBusy(w: World, k: Worker, packet: Option<nat>)
    requires Enabled(w, PacketStep(k, packet))
    ensures k in Do(w, PacketStep(k, packet)).busy
  {
  }

  lemma {:induction false} TakenBusy(w: World, k: Worker, packets: seq<Option<nat>>)
    requires CanTake(w, k, packets) && (packets != [] || k in w.busy)
    ensures k in Taken(w, k, packets).busy
    decreases |packets|
  {
    if packets != [] {
      PacketKeepsBusy(w, k, packets[0]);
      hide Do, Enabled;
      TakenBusy(Do(w, PacketStep(k, packets[0])), k, packets[1..]);
    }
  }

  lemma TakenNothing(w: World, k: Worker, packets: seq<Option<nat>>)
    ensures packets[0..] == packets && packets[|packets|..] == []
  {
  }

  lemma DrainAllowed(w: World, k: Worker)
    requires k in w.busy
    ensures Enabled(w, Step.DrainQuarantine(k))
  {
  }

  class Context {
    var sessions: seq<Session>
    var requests: seq<Request>
    var closers: seq<Closer>
    var sweeps: seq<set<nat>>
    const readWorker: Quarantine
    const writeWorker: Quarantine
    var now: nat
    var touchedFreed: bool
    ghost var busy: set<Worker>
    ghost var exited: set<Worker>
    ghost var dropped: seq<Entry>

    constructor ()
      ensures Valid() && fresh(readWorker) && fresh(writeWorker) && Initial(View())
    {
      sessions, requests, closers, sweeps := [], [], [], [];
      now, touchedFreed := 0, false;
      busy, exited, dropped := {}, {}, [];
      readWorker := new Quarantine();
      writeWorker := new Quarantine();
    }

    predicate Valid()
      reads this
    {
      readWorker != writeWorker && forall i :: 0 <= i < |requests| ==> requests[i].session < |sessions|
    }

    ghost function View(): World
      reads this, readWorker, writeWorker
    {
      World(sessions, requests, closers, sweeps, readWorker.entries, writeWorker.entries,
            now, touchedFreed, busy, exited, dropped)
    }

    /** quarantine_push: the request is held, and what is due is deleted. */
    method Push(k: Worker, i: nat)
      requires Valid()
      modifies this`requests, readWorker, writeWorker
      ensures Valid() && View() == PushQuarantine(old(View()), k, i)
    {
      hide Pushed;
      var freed;
      if k.ReadWorker? {
        freed := readWorker.Push(i, now);
      } else {
        freed := writeWorker.Push(i, now);
      }
      requests := Free(requests, freed);
    }

    method DrainQuarantine(k: Worker)
      requires Valid() && Enabled(View(), Step.DrainQuarantine(k))
      modifies this`requests, this`busy, readWorker, writeWorker
      ensures Valid() && View() == Do(old(View()), Step.DrainQuarantine(k))
    {
      hide Kept, Expired;
      busy := busy - {k};
      var freed;
      if k.ReadWorker? {
        freed := readWorker.Drain(now);
      } else {
        freed := writeWorker.Drain(now);
      }
      requests := Free(requests, freed);
    }

    /** The packet of request i is taken from the port: it carries the address and the session id. */
    method ProcessOne(i: nat, k: Worker)
      requires Valid() && Enabled(View(), Deliver(i, k))
      modifies this, readWorker, writeWorker
      ensures Valid() && View() == Do(old(View()), Deliver(i, k))
    {
      hide PushQuarantine, Mark;
      busy := busy + {k};
      var sid := requests[i].session;
      var occupant := Occupant(requests, requests[i].addr);
      if occupant.None? {
        touchedFreed := true;
        return;
      }
      var o := occupant.value;
      if requests[o].state != PENDING { return; }
      Settle(o, sid);
      Push(k, o);
    }

    /** This completion is the first of request o: count it down and answer it. */
    method Settle(o: nat, sid: nat)
      requires Valid() && o < |requests| && sid < |sessions|
      modifies this`requests, this`sessions
      ensures Valid() && View() == Mark(old(View()), o, sid)
    {
      var found := sessions[sid].inMap;
      var r := requests[o].(state := RESOLVED, delivery := First(now, found));
      if r.sync {
        // Already answered by the submission.
        requests := requests[o := r];
        if found { CountDown(sid); }
        return;
      }
      if !found {
        requests := requests[o := r];
        return;
      }
      CountDown(sid);
      requests := requests[o := r.(resolutions := r.resolutions + 1)];
    }

    method CountDown(sid: nat)
      requires sid < |sessions|
      modifies `sessions
      ensures sessions == old(sessions)[sid := old(sessions[sid]).(pending := old(sessions[sid]).pending - 1)]
    {
      sessions := sessions[sid := sessions[sid].(pending := sessions[sid].pending - 1)];
    }

    /** One round of worker_proc: the packets of a batch, some of which only wake the worker, and
        the drain at its end. */
    method Batch(k: Worker, packets: seq<Option<nat>>)
      requires Valid() && packets != [] && CanTake(View(), k, packets)
      modifies this, readWorker, writeWorker
      ensures Valid() && k in Taken(old(View()), k, packets).busy
      ensures View() == Do(Taken(old(View()), k, packets), Step.DrainQuarantine(k))
    {
      hide Do, Enabled;
      ghost var before := View();
      TakenBusy(before, k, packets);
      TakenNothing(before, k, packets);
      for n := 0 to |packets|
        invariant Valid() && CanTake(View(), k, packets[n..])
        invariant Taken(View(), k, packets[n..]) == Taken(before, k, packets)
      {
        assert packets[n..][0] == packets[n] && packets[n..][1..] == packets[n + 1..];
        if packets[n].Some? {
          ProcessOne(packets[n].value, k);
        } else {
          Wakeup(k);
        }
      }
      assert View() == Taken(before, k, packets);
      DrainAllowed(View(), k);
      DrainQuarantine(k);
    }

    method Wakeup(k: Worker)
      requires Valid() && Enabled(View(), Wake(k))
      modifies `busy
      ensures Valid() && View() == Do(old(View()), Wake(k))
    {
      busy := busy + {k};
    }

    /** The common course of submit_read, submit_read_at, submit_write and submit_readinto once the
        range is reserved, for whatever the kernel answers. */
    method SubmitTransfer(sid: nat, addr: nat, outcome: Outcome)
      requires Valid() && Enabled(View(), Submit(sid, addr, outcome))
      modifies this`sessions, this`requests
      ensures Valid() && View() == Do(old(View()), Submit(sid, addr, outcome))
    {
      if !sessions[sid].inMap { return; }
      if !sessions[sid].running || !sessions[sid].handleValid { return; }
      var r := Request(sid, addr, PENDING, false, 0, NotYet, 0);
      var pending := sessions[sid].pending;
      sessions := sessions[sid := sessions[sid].(pending := pending + 1)];
      match outcome {
        case SyncDone =>
          r := r.(resolutions := 1, sync := true);
        case Failure =>
          sessions := sessions[sid := sessions[sid].(pending := pending)];
          r := r.(resolutions := 1, state := REJECTED, frees := 1);
        case Async =>
      }
      requests := requests + [r];
    }

    /** submit_close up to its first look at the counter: the winner of the flag goes on. */
    method BeginClose(sid: nat, timeout: nat)
      requires Valid() && sid < |sessions|
      modifies this`sessions, this`closers
      ensures Valid() && View() == Do(old(View()), Close(sid, timeout, None))
    {
      if !sessions[sid].inMap { return; }
      if !sessions[sid].running { return; }
      sessions := sessions[sid := sessions[sid].(running := false)];
      closers := closers + [Closer(sid, timeout, None, Won, 0, 1)];
    }

    /** The list a close_all_sessions goes through. */
    method BeginSweep()
      requires Valid()
      modifies this`sweeps
      ensures Valid() && View() == Do(old(View()), Step.BeginSweep)
    {
      sweeps := sweeps + [set s | 0 <= s < |sessions| && sessions[s].inMap];
    }

    /** The beginning of one of its rounds. */
    method BeginRound(k: nat, sid: nat)
      requires Valid() && sid < |sessions| && k < |sweeps| && sid in sweeps[k]
      modifies this`sessions, this`closers
      ensures Valid() && forall timeout: nat :: View() == Do(old(View()), Close(sid, timeout, Some(k)))
    {
      if !sessions[sid].running { return; }
      sessions := sessions[sid := sessions[sid].(running := false)];
      closers := closers + [Closer(sid, CLOSE_ALL_TIMEOUT_MS, Some(k), Won, 0, 1)];
    }

    /** What a closer does between two places where others may come in: its sleeps, and the two ends. */
    method CloserStep(c: nat)
      requires Valid() && Enabled(View(), Step.CloserStep(c))
      modifies this`sessions, this`closers
      ensures Valid() && View() == Do(old(View()), Step.CloserStep(c))
    {
      var closer := closers[c];
      var sid := closer.session;
      match closer.phase {
        case Won =>
          closer := closer.(elapsed := 0, w := 1);
          if !sessions[sid].handleValid {
            closer := closer.(phase := if closer.sweep.Some? then Gone else Removing);
          } else if sessions[sid].pending > 0 {
            closer := closer.(phase := Waiting);
          } else {
            closer := closer.(phase := Closing);
          }
        case Waiting =>
          if closer.elapsed < closer.timeout && sessions[sid].pending > 0 {
            closer := closer.(elapsed := closer.elapsed + closer.w, w := NextSleep(closer.w));
          } else {
            closer := closer.(phase := Closing);
          }
        case Closing =>
          CloseHandle(sid);
          closer := closer.(phase := if closer.sweep.Some? then Gone else Removing);
        case Removing =>
          sessions := sessions[sid := sessions[sid].(inMap := false)];
          closer := closer.(phase := Gone);
        case Gone =>
      }
      closers := closers[c := closer];
    }

    method CloseHandle(sid: nat)
      requires sid < |sessions|
      modifies `sessions
      ensures var session := old(sessions)[sid];
              sessions == old(sessions)[sid := session.(handleValid := false,
                                                        closes := session.closes + if session.owned then 1 else 0)]
    {
      var session := sessions[sid];
      if session.owned { session := session.(closes := session.closes + 1); }
      sessions := sessions[sid := session.(handleValid := false)];
    }

    /** The end of close_all_sessions. */
    method ClearMap(k: nat)
      requires Valid() && Enabled(View(), Step.ClearMap(k))
      modifies this`sessions
      ensures Valid() && View() == Do(old(View()), Step.ClearMap(k))
    {
      var open := sessions;
      sessions := seq(|open|, s requires 0 <= s < |open| => open[s].(inMap := false));
    }
  }
}
