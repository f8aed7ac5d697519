/** The per-worker quarantine of processed requests (src/iocp_context.cpp 31-55): a request is
    freed only when it has been held for a second, so that a repeated completion still finds it. */
module Quarantines {
  const QUARANTINE_MS: nat := 1000
  const DRAIN_SIZE: nat := 256

  /** `req` stands for the request object, `when` is the time it was pushed, in milliseconds. */
  datatype Entry = Entry(req: nat, when: nat)

  predicate Due(e: Entry, now: nat) {
    e.when + QUARANTINE_MS <= now
  }

  /** What a drain at time `now` leaves, in order. */
  function Kept(q: seq<Entry>, now: nat): (r: seq<Entry>)
    ensures forall e :: e in r <==> e in q && !Due(e, now)
  {
    if q == [] then []
    else
      var last := q[|q| - 1];
      assert q == q[..|q| - 1] + [last];
      Kept(q[..|q| - 1], now) + if Due(last, now) then [] else [last]
  }

  /** What it frees, in order. */
  function Expired(q: seq<Entry>, now: nat): (r: seq<Entry>)
    ensures forall e :: e in r <==> e in q && Due(e, now)
  {
    if q == [] then []
    else
      var last := q[|q| - 1];
      assert q == q[..|q| - 1] + [last];
      Expired(q[..|q| - 1], now) + if Due(last, now) then [last] else []
  }

  /** How often a request is held. */
  function Count(q: seq<Entry>, req: nat): nat {
    if q == [] then 0
    else Count(q[..|q| - 1], req) + if q[|q| - 1].req == req then 1 else 0
  }

  lemma CountAppend(q: seq<Entry>, e: Entry, req: nat)
    ensures Count(q + [e], req) == Count(q, req) + if e.req == req then 1 else 0
  {
    assert (q + [e])[..|q|] == q;
  }

  lemma {:induction false} CountConcat(a: seq<Entry>, b: seq<Entry>, req: nat)
    ensures Count(a + b, req) == Count(a, req) + Count(b, req)
    decreases |b|
  {
    if b == [] {
      assert a + b == a;
    } else {
      var last, before := b[|b| - 1], b[..|b| - 1];
      CountConcat(a, before, req);
      assert (a + b)[..|a + b| - 1] == a + before;
    }
  }

  /** A drain frees or keeps every entry: none is lost and none both freed and kept. */
  lemma {:induction false} DrainSplits(q: seq<Entry>, now: nat, req: nat)
    ensures Count(Kept(q, now), req) + Count(Expired(q, now), req) == Count(q, req)
    decreases |q|
  {
    if q != [] {
      var last, before := q[|q| - 1], q[..|q| - 1];
      assert q == before + [last];
      DrainSplits(before, now, req);
      DrainStep(before, last, now);
      CountAppend(Kept(before, now), last, req);
      CountAppend(Expired(before, now), last, req);
      CountAppend(before, last, req);
      hide Kept, Expired, Count;
    }
  }

  lemma DrainStep(q: seq<Entry>, e: Entry, now: nat)
    ensures Kept(q + [e], now) == if Due(e, now) then Kept(q, now) else Kept(q, now) + [e]
    ensures Expired(q + [e], now) == if Due(e, now) then Expired(q, now) + [e] else Expired(q, now)
  {
    assert (q + [e])[..|q|] == q;
  }

  lemma {:induction false} CountedIsThere(q: seq<Entry>, req: nat)
    ensures Count(q, req) > 0 <==> exists e :: e in q && e.req == req
    decreases |q|
  {
    if q != [] {
      var last, before := q[|q| - 1], q[..|q| - 1];
      CountedIsThere(before, req);
      assert q == before + [last];
      if Count(before, req) > 0 {
        var e :| e in before && e.req == req;
        assert e in q;
      } else if last.req == req {
        assert last in q;
      }
    }
  }

  lemma KeptCountIff(q: seq<Entry>, now: nat, req: nat)
    ensures Count(Kept(q, now), req) > 0 <==> exists e :: e in q && e.req == req && now < e.when + QUARANTINE_MS
  {
    hide Kept, Count;
    CountedIsThere(Kept(q, now), req);
    if e :| e in q && e.req == req && now < e.when + QUARANTINE_MS {
      assert e in Kept(q, now);
    }
  }

  /** After a push: what is kept and what is freed. The list is drained when it has grown to 256. */
  function Pushed(q: seq<Entry>, req: nat, now: nat): (seq<Entry>, seq<Entry>) {
    var q' := q + [Entry(req, now)];
    if |q'| >= DRAIN_SIZE then (Kept(q', now), Expired(q', now)) else (q', [])
  }

  lemma DrainNothing(now: nat)
    ensures Kept([], now) == [] && Expired([], now) == []
  {
  }

  lemma EraseOrSkip(seen: seq<Entry>, front: seq<Entry>, rest: seq<Entry>)
    requires rest != []
    ensures (front + rest)[|front|] == rest[0]
    ensures (front + rest)[..|front|] + (front + rest)[|front| + 1..] == front + rest[1..]
    ensures front + rest == (front + [rest[0]]) + rest[1..] && seen + rest == (seen + [rest[0]]) + rest[1..]
  {
  }

  /** The pushed entry is kept behind the others. Below 256 entries nothing else happens; from there on
      nothing that is due is left. */
  lemma PushedIsHeld(q: seq<Entry>, req: nat, now: nat)
    ensures var (q', freed) := Pushed(q, req, now);
            && q' != [] && q'[|q'| - 1] == Entry(req, now)
            && (|q| + 1 < 256 ==> q' == q + [Entry(req, now)] && freed == [])
            && (|q| + 1 >= 256 ==>
                  q' == Kept(q, now) + [Entry(req, now)] && forall e :: e in freed <==> e in q && Due(e, now))
  {
    DrainStep(q, Entry(req, now), now);
    hide Kept, Expired;
  }

  class Quarantine {
    var entries: seq<Entry>

    constructor ()
      ensures entries == []
    {
      entries := [];
    }

    method Drain(now: nat) returns (freed: seq<Entry>)
      modifies this
      ensures entries == Kept(old(entries), now) && freed == Expired(old(entries), now)
    {
      hide Kept, Expired;
      freed := [];
      ghost var all := entries;
      ghost var seen, rest: seq<Entry> := [], entries;
      var it := 0;
      DrainNothing(now);
      while it < |entries|
        invariant all == seen + rest && entries == Kept(seen, now) + rest
        invariant it == |Kept(seen, now)| && freed == Expired(seen, now)
        decreases |entries| - it
      {
        var e := entries[it];
        DrainStep(seen, e, now);
        EraseOrSkip(seen, Kept(seen, now), rest);
        seen, rest := seen + [e], rest[1..];
        if now - e.when >= QUARANTINE_MS {
          freed := freed + [e];
          entries := entries[..it] + entries[it + 1..];
        } else {
          it := it + 1;
        }
      }
      assert seen == all && entries == Kept(seen, now);
    }

    method Push(req: nat, now: nat) returns (freed: seq<Entry>)
      modifies this
      ensures (entries, freed) == Pushed(old(entries), req, now)
    {
      entries := entries + [Entry(req, now)];
      freed := [];
      if |entries| >= DRAIN_SIZE {
        freed := Drain(now);
      }
    }
  }
}
