/** Who holds a buffer, over every run of several threads (src/pool.hpp). Threads acquire and
    release through their own caches and the shared pool; each call is one step, since the part on
    the thread's own cache concerns nobody else and the rest holds the pool's mutex. */
module PoolOwnership {
  import opened Pools
  import opened Options

  datatype Place = InUse | InCache(thread: nat) | InBucket(size: nat) | Deleted | Lost

  /** `place` is history: where each buffer ever allocated went last. `ended`: threads that are gone;
      what their caches held is lost, since a cache is a list of plain pointers. */
  datatype World = World(pool: Pool, caches: seq<seq<Buf>>, inUse: set<Buf>, nextId: nat, place: map<Buf, Place>,
                         ended: set<nat>)

  datatype Step =
    | Acquire(thread: nat, size: nat)
    | Release(thread: nat, buf: Buf)
    | End(thread: nat)
    | Clear
    | Refresh(max: nat)

  predicate Enabled(w: World, step: Step) {
    match step
    case Acquire(t, _) => t < |w.caches| && t !in w.ended
    case Release(t, b) => t < |w.caches| && t !in w.ended && b in w.inUse
    case End(t) => t < |w.caches| && t !in w.ended
    case _ => true
  }

  function AfterAcquire(w: World, t: nat, size: nat): (World, Buf)
    requires t < |w.caches|
  {
    var (cache, pool, b) := ThreadAcquire(w.caches[t], w.pool, size, w.nextId);
    (World(pool, w.caches[t := cache], w.inUse + {b}, w.nextId + 1, w.place[b := InUse], w.ended), b)
  }

  function ReleasePlace(w: World, t: nat, b: Buf): Place
    requires t < |w.caches|
  {
    if |w.caches[t]| < TC_MAX then InCache(t) else if w.pool.total >= w.pool.cap then Deleted else InBucket(b.size)
  }

  function Do(w: World, step: Step): World
    requires Enabled(w, step)
  {
    match step
    case Acquire(t, size) => AfterAcquire(w, t, size).0
    case Release(t, b) =>
      var (cache, pool, _) := ThreadRelease(w.caches[t], w.pool, b);
      World(pool, w.caches[t := cache], w.inUse - {b}, w.nextId,
            w.place[b := ReleasePlace(w, t, b)], w.ended)
    case End(t) =>
      w.(caches := w.caches[t := []], ended := w.ended + {t},
         place := map b | b in w.place :: if w.place[b] == InCache(t) then Lost else w.place[b])
    case Clear =>
      w.(pool := w.pool.(buckets := map[], total := 0),
         place := map b | b in w.place :: if w.place[b].InBucket? then Deleted else w.place[b])
    case Refresh(max) => w.(pool := w.pool.(cap := max))
  }

  predicate NoDuplicates(s: seq<Buf>) {
    forall i, j :: 0 <= i < j < |s| ==> s[i] != s[j]
  }

  predicate At(w: World, b: Buf, p: Place) {
    b in w.place && w.place[b] == p
  }

  /** Bucket k holds exactly the buffers that went there, once each, and they have size k. */
  predicate BucketOk(w: World, k: nat)
    requires k in w.pool.buckets
  {
    && NoDuplicates(w.pool.buckets[k])
    && forall b :: b in w.pool.buckets[k] ==> b.size == k && At(w, b, InBucket(k))
  }

  predicate CacheOk(w: World, t: nat)
    requires t < |w.caches|
  {
    NoDuplicates(w.caches[t]) && |w.caches[t]| <= TC_MAX && forall b :: b in w.caches[t] ==> At(w, b, InCache(t))
  }

  /** Each place holds only what went there last, so no buffer is in two places. */
  ghost predicate Placed(w: World) {
    && (forall k :: k in w.pool.buckets ==> BucketOk(w, k))
    && (forall t: nat :: t < |w.caches| ==> CacheOk(w, t))
    && (forall b :: b in w.inUse ==> At(w, b, InUse))
  }

  predicate Holds(w: World, b: Buf) {
    b in w.place &&
    match w.place[b]
    case InUse => b in w.inUse
    case InCache(t) => t < |w.caches| && b in w.caches[t]
    case InBucket(k) => k in w.pool.buckets && b in w.pool.buckets[k]
    case Deleted | Lost => true
  }

  /** And every buffer is still where it went, with a power of two of at least 4096 as its size. */
  ghost predicate Kept(w: World) {
    forall b :: b in w.place ==> Holds(w, b) && b.id < w.nextId && PoolSizeClass(b.size) == b.size
  }

  // ------------------------------------------------------------------ the total

  ghost function SumOf(buckets: map<nat, seq<Buf>>): nat
    decreases |buckets|
  {
    if buckets == map[] then 0
    else
      var k :| k in buckets;
      |buckets[k]| + SumOf(buckets - {k})
  }

  lemma {:induction false} SumWithout(buckets: map<nat, seq<Buf>>, k: nat)
    requires k in buckets
    ensures SumOf(buckets) == |buckets[k]| + SumOf(buckets - {k})
    decreases |buckets|
  {
    var x :| x in buckets && SumOf(buckets) == |buckets[x]| + SumOf(buckets - {x});
    if x != k {
      SumWithout(buckets - {x}, k);
      SumWithout(buckets - {k}, x);
      assert buckets - {x} - {k} == buckets - {k} - {x};
    }
  }

  lemma SumUpdate(buckets: map<nat, seq<Buf>>, k: nat, bucket: seq<Buf>)
    ensures SumOf(buckets[k := bucket]) == SumOf(buckets) + |bucket| - if k in buckets then |buckets[k]| else 0
  {
    var after := buckets[k := bucket];
    SumWithout(after, k);
    if k in buckets {
      SumWithout(buckets, k);
      assert after - {k} == buckets - {k};
    } else {
      assert after - {k} == buckets;
    }
  }

  ghost predicate Total(w: World) {
    w.pool.total == SumOf(w.pool.buckets)
  }

  ghost predicate Inv(w: World) {
    Placed(w) && Kept(w) && Total(w)
  }

  lemma AcquireKeepsTotal(p: Pool, required: nat, newId: nat)
    requires p.total == SumOf(p.buckets)
    ensures var (p', _) := PoolAcquire(p, required, newId); p'.total == SumOf(p'.buckets)
  {
    var k := Serving(p.buckets, required);
    if k.Some? {
      var bucket := p.buckets[k.value];
      SumUpdate(p.buckets, k.value, bucket[..|bucket| - 1]);
    }
  }

  /** A release never raises the total beyond the cap. */
  lemma ReleaseKeepsTotal(p: Pool, b: Buf)
    requires p.total == SumOf(p.buckets)
    ensures var (p', deleted) := PoolRelease(p, b);
            && p'.total == SumOf(p'.buckets) && p'.total == p.total + (if deleted then 0 else 1)
            && (p.total <= p.cap ==> p'.total <= p'.cap) && (deleted <==> p.total >= p.cap)
  {
    var bucket := if b.size in p.buckets then p.buckets[b.size] else [];
    SumUpdate(p.buckets, b.size, bucket + [b]);
  }

  // ------------------------------------------------------------------ acquiring

  lemma FreshBuf(w: World, b: Buf)
    requires Kept(w) && b.id >= w.nextId
    ensures b !in w.place
  {
  }

  lemma WithoutMembers(cache: seq<Buf>, i: nat)
    requires i < |cache| && NoDuplicates(cache)
    ensures NoDuplicates(Without(cache, i))
    ensures forall b :: b in Without(cache, i) <==> b in cache && b != cache[i]
  {
    var c := Without(cache, i);
    forall b | b in cache && b != cache[i] ensures b in c {
      var j :| 0 <= j < |cache| && cache[j] == b;
      assert b == if j < i then c[j] else c[j - 1];
    }
    forall b | b in c ensures b in cache && b != cache[i] {
      var j :| 0 <= j < |c| && c[j] == b;
      assert b == if j < i then cache[j] else cache[j + 1];
    }
  }

  /** What an acquire hands out: from the own cache, from the bucket that serves, or new. */
  lemma AcquiredFrom(w: World, t: nat, size: nat)
    requires Inv(w) && t < |w.caches|
    ensures var (w', b) := AfterAcquire(w, t, size);
            && b.size >= size && PoolSizeClass(b.size) == b.size
            && b !in w.inUse && b.id < w'.nextId
            && (At(w, b, InCache(t)) || At(w, b, InBucket(b.size)) || b !in w.place)
            && (At(w, b, InCache(t)) <==> exists x :: x in w.caches[t] && x.size >= size)
            && (At(w, b, InBucket(b.size)) ==> forall k :: k in w.pool.buckets && k >= size ==> b.size <= k)
            && (b !in w.place ==> Tight(b.size, size))
  {
    var (cache, pool, b) := ThreadAcquire(w.caches[t], w.pool, size, w.nextId);
    hide Tight;
    var i := FirstFit(w.caches[t], size);
    if i.Some? {
      assert CacheOk(w, t) && b in w.caches[t];
    } else {
      var k := Serving(w.pool.buckets, size);
      if k.Some? {
        assert BucketOk(w, k.value) && b in w.pool.buckets[k.value];
      } else {
        SizeClassIsLeast(size);
        SizeClassIdempotent(size);
        FreshBuf(w, b);
      }
    }
  }

  lemma AcquireKeepsBuckets(w: World, t: nat, size: nat)
    requires Inv(w) && t < |w.caches|
    ensures var (w', b) := AfterAcquire(w, t, size);
            && (forall k :: k in w'.pool.buckets ==> k in w.pool.buckets && BucketOk(w', k))
            && (forall k, x :: k in w.pool.buckets && x in w.pool.buckets[k] && x != b ==>
                 k in w'.pool.buckets && x in w'.pool.buckets[k])
  {
    var (w', b) := AfterAcquire(w, t, size);
    AcquiredFrom(w, t, size);
    var served := Serving(w.pool.buckets, size);
    if FirstFit(w.caches[t], size).None? && served.Some? {
      assert BucketOk(w, served.value);
      LastTaken(w.pool.buckets[served.value]);
    }
    forall k | k in w'.pool.buckets ensures k in w.pool.buckets && BucketOk(w', k) {
      assert BucketOk(w, k);
      forall x | x in w'.pool.buckets[k] ensures x != b { TakenIsGone(w, t, size, k, x); }
    }
  }

  lemma TakenIsGone(w: World, t: nat, size: nat, k: nat, x: Buf)
    requires Inv(w) && t < |w.caches|
    requires var p := AfterAcquire(w, t, size).0.pool; k in p.buckets && x in p.buckets[k]
    ensures x != AfterAcquire(w, t, size).1
  {
    assert k in w.pool.buckets && BucketOk(w, k);
    var served := Serving(w.pool.buckets, size);
    if FirstFit(w.caches[t], size).Some? {
      assert w.caches[t][FirstFit(w.caches[t], size).value] in w.caches[t];
      assert CacheOk(w, t) && At(w, x, InBucket(k));
    } else if served == Some(k) {
      LastTaken(w.pool.buckets[k]);
    } else {
      assert At(w, x, InBucket(k));
      AcquiredFrom(w, t, size);
      assert served.Some? ==> BucketOk(w, served.value);
    }
  }

  lemma LastTaken(s: seq<Buf>)
    requires s != [] && NoDuplicates(s)
    ensures NoDuplicates(s[..|s| - 1])
    ensures forall b :: b in s[..|s| - 1] <==> b in s && b != s[|s| - 1]
  {
    assert s == s[..|s| - 1] + [s[|s| - 1]];
  }

  lemma AcquireKeepsCaches(w: World, t: nat, size: nat)
    requires Inv(w) && t < |w.caches|
    ensures var (w', b) := AfterAcquire(w, t, size);
            && (forall u: nat :: u < |w'.caches| ==> CacheOk(w', u))
            && (forall u: nat, x :: u < |w.caches| && x in w.caches[u] && x != b ==> x in w'.caches[u])
  {
    var (w', b) := AfterAcquire(w, t, size);
    AcquiredFrom(w, t, size);
    var i := FirstFit(w.caches[t], size);
    assert CacheOk(w, t);
    if i.Some? { WithoutMembers(w.caches[t], i.value); }
    forall u: nat | u < |w'.caches| ensures CacheOk(w', u) {
      assert CacheOk(w, u);
    }
  }

  lemma AcquireKeepsInv(w: World, t: nat, size: nat)
    requires Inv(w) && t < |w.caches|
    ensures Inv(AfterAcquire(w, t, size).0)
  {
    var (w', b) := AfterAcquire(w, t, size);
    AcquiredFrom(w, t, size);
    AcquireKeepsBuckets(w, t, size);
    AcquireKeepsCaches(w, t, size);
    AcquireKeepsTotal(w.pool, size, w.nextId);
    AcquireKeepsKept(w, t, size);
    hide BucketOk, CacheOk, ThreadAcquire, Kept;
    assert Total(w');
    forall x | x in w'.inUse ensures At(w', x, InUse) { assert x == b || At(w, x, InUse); }
  }

  lemma AcquireKeepsKept(w: World, t: nat, size: nat)
    requires Inv(w) && t < |w.caches|
    ensures Kept(AfterAcquire(w, t, size).0)
  {
    var (w', b) := AfterAcquire(w, t, size);
    AcquiredFrom(w, t, size);
    AcquireKeepsBuckets(w, t, size);
    AcquireKeepsCaches(w, t, size);
    hide BucketOk, CacheOk, ThreadAcquire, Placed, Total;
    forall x | x in w'.place ensures Holds(w', x) && x.id < w'.nextId && PoolSizeClass(x.size) == x.size {
      if x != b { assert Holds(w, x); }
    }
  }

  // ------------------------------------------------------------------ releasing

  lemma AppendMember(s: seq<Buf>, b: Buf)
    requires NoDuplicates(s) && b !in s
    ensures NoDuplicates(s + [b]) && forall x :: x in s + [b] <==> x in s || x == b
  {
  }

  lemma ReleaseKeepsPlaced(w: World, t: nat, b: Buf)
    requires Inv(w) && Enabled(w, Release(t, b))
    ensures Placed(Do(w, Release(t, b)))
  {
    var w' := Do(w, Release(t, b));
    assert At(w, b, InUse);
    forall k | k in w'.pool.buckets ensures BucketOk(w', k) {
      if k in w.pool.buckets {
        assert BucketOk(w, k);
        AppendMember(w.pool.buckets[k], b);
      }
    }
    forall u: nat | u < |w'.caches| ensures CacheOk(w', u) {
      assert CacheOk(w, u);
      AppendMember(w.caches[u], b);
    }
  }

  lemma ReleaseKeepsKept(w: World, t: nat, b: Buf)
    requires Inv(w) && Enabled(w, Release(t, b))
    ensures Kept(Do(w, Release(t, b)))
  {
    var w' := Do(w, Release(t, b));
    assert At(w, b, InUse) && Holds(w, b);
    hide Placed;
    forall x | x in w'.place ensures Holds(w', x) && x.id < w'.nextId && PoolSizeClass(x.size) == x.size {
      assert x in w.place && Holds(w, x);
    }
  }

  lemma ClearKeepsInv(w: World)
    requires Inv(w)
    ensures Inv(Do(w, Clear))
  {
    var w' := Do(w, Clear);
    forall t: nat | t < |w'.caches| ensures CacheOk(w', t) { assert CacheOk(w, t); }
    forall x | x in w'.place ensures Holds(w', x) && x.id < w'.nextId && PoolSizeClass(x.size) == x.size {
      assert Holds(w, x);
    }
  }

  lemma EndKeepsInv(w: World, t: nat)
    requires Inv(w) && Enabled(w, End(t))
    ensures Inv(Do(w, End(t)))
  {
    var w' := Do(w, End(t));
    forall k | k in w'.pool.buckets ensures BucketOk(w', k) { assert BucketOk(w, k); }
    forall u: nat | u < |w'.caches| ensures CacheOk(w', u) { assert CacheOk(w, u); }
    forall x | x in w'.place ensures Holds(w', x) && x.id < w'.nextId && PoolSizeClass(x.size) == x.size {
      assert Holds(w, x);
    }
  }

  lemma RefreshKeepsInv(w: World, max: nat)
    requires Inv(w)
    ensures Inv(Do(w, Refresh(max)))
  {
    var w' := Do(w, Refresh(max));
    forall k | k in w'.pool.buckets ensures BucketOk(w', k) { assert BucketOk(w, k); }
    forall t: nat | t < |w'.caches| ensures CacheOk(w', t) { assert CacheOk(w, t); }
    forall x | x in w'.place ensures Holds(w', x) { assert Holds(w, x); }
  }

  lemma StepKeepsInv(w: World, step: Step)
    requires Inv(w) && Enabled(w, step)
    ensures Inv(Do(w, step))
  {
    hide Placed, Kept;
    match step {
      case Acquire(t, size) => AcquireKeepsInv(w, t, size);
      case Release(t, b) =>
        ReleaseKeepsPlaced(w, t, b);
        ReleaseKeepsKept(w, t, b);
        ReleaseKeepsTotal(w.pool, b);
      case End(t) => EndKeepsInv(w, t);
      case Clear => ClearKeepsInv(w);
      case Refresh(max) => RefreshKeepsInv(w, max);
    }
  }

  // ------------------------------------------------------------------ whole runs

  predicate Runs(w: World, steps: seq<Step>)
    decreases |steps|
  {
    steps == [] || (Enabled(w, steps[0]) && Runs(Do(w, steps[0]), steps[1..]))
  }

  function Final(w: World, steps: seq<Step>): World
    requires Runs(w, steps)
    decreases |steps|
  {
    if steps == [] then w else Final(Do(w, steps[0]), steps[1..])
  }

  lemma {:induction false} EveryRun(w: World, steps: seq<Step>)
    requires Inv(w) && Runs(w, steps)
    ensures Inv(Final(w, steps))
    decreases |steps|
  {
    if steps != [] {
      StepKeepsInv(w, steps[0]);
      hide Inv, Do, Enabled;
      EveryRun(Do(w, steps[0]), steps[1..]);
    }
  }

  /** The buffer is where its last place says, and nowhere else. */
  ghost predicate OnlyAt(w: World, b: Buf)
    requires b in w.place
  {
    && (b in w.inUse <==> w.place[b] == InUse)
    && (forall t: nat :: t < |w.caches| ==> (b in w.caches[t] <==> w.place[b] == InCache(t)))
    && (forall k :: k in w.pool.buckets ==> (b in w.pool.buckets[k] <==> w.place[b] == InBucket(k)))
    && (w.place[b].InBucket? ==> w.place[b].size == b.size)
  }

  /** No place holds a buffer twice, and caches stay small. */
  ghost predicate HeldOnce(w: World) {
    && (forall t: nat :: t < |w.caches| ==> NoDuplicates(w.caches[t]) && |w.caches[t]| <= TC_MAX)
    && (forall k :: k in w.pool.buckets ==> NoDuplicates(w.pool.buckets[k]))
  }

  /** Every buffer that was ever allocated is in use, in one thread's cache, in the bucket of its
      size, deleted, or lost with a thread: exactly one of these, once. */
  lemma OneOwner(w: World, b: Buf)
    requires Inv(w) && b in w.place
    ensures OnlyAt(w, b) && HeldOnce(w)
  {
    assert Holds(w, b);
    forall t: nat | t < |w.caches|
      ensures (b in w.caches[t] <==> w.place[b] == InCache(t)) && NoDuplicates(w.caches[t]) && |w.caches[t]| <= TC_MAX
    {
      assert CacheOk(w, t);
    }
    forall k | k in w.pool.buckets
      ensures (b in w.pool.buckets[k] <==> w.place[b] == InBucket(k)) && NoDuplicates(w.pool.buckets[k])
    {
      assert BucketOk(w, k);
    }
  }

  predicate Initial(w: World) {
    && w.pool.buckets == map[] && w.pool.total == 0 && w.inUse == {} && w.place == map[] && w.ended == {}
    && forall t :: 0 <= t < |w.caches| ==> w.caches[t] == []
  }

  /** Over every run of every number of threads: one owner for every buffer, `m_total` the number
      of pooled buffers, and every acquire gets a large enough buffer nobody else has. */
  lemma OwnershipOverEveryRun(init: World, steps: seq<Step>, b: Buf, t: nat, size: nat)
    requires Initial(init) && Runs(init, steps)
    ensures var w := Final(init, steps);
            && w.pool.total == SumOf(w.pool.buckets)
            && (b in w.place ==> Holds(w, b) && OnlyAt(w, b) && HeldOnce(w) && IsPow2(b.size) && b.size >= MIN_CLASS)
            && (t < |w.caches| ==>
                  var got := AfterAcquire(w, t, size).1;
                  && got.size >= size && got !in w.inUse
                  && (got in w.place ==> w.place[got] == InCache(t) || w.place[got] == InBucket(got.size))
                  && (got !in w.place ==> Tight(got.size, size)))
  {
    assert Inv(init);
    EveryRun(init, steps);
    var w := Final(init, steps);
    SizeClassIsLeast(b.size);
    if b in w.place { OneOwner(w, b); }
    if t < |w.caches| {
      AcquiredFrom(w, t, size);
      hide Inv, Tight, AfterAcquire;
    }
  }

  /** Where a release goes: to the own cache if and only if that holds fewer than eight, else to the bucket
      of its size if and only if the pool holds fewer than its cap, else it is deleted. */
  lemma ReleaseGoes(w: World, t: nat, b: Buf)
    requires Inv(w) && Enabled(w, Release(t, b))
    ensures var w' := Do(w, Release(t, b));
            && b !in w'.inUse && t < |w'.caches| && b in w'.place
            && (b in w'.caches[t] <==> |w.caches[t]| < 8)
            && (Pooled(w'.pool.buckets, b) <==> |w.caches[t]| == 8 && SumOf(w.pool.buckets) < w.pool.cap)
            && (w'.place[b] == Deleted <==> |w.caches[t]| == 8 && SumOf(w.pool.buckets) >= w.pool.cap)
  {
    var w' := Do(w, Release(t, b));
    assert At(w, b, InUse) && CacheOk(w, t);
    StepKeepsInv(w, Release(t, b));
    OneOwner(w', b);
    hide Inv;
    if w'.place[b].InBucket? { assert Holds(w', b); }
  }

  /** A thread that ends loses exactly the buffers in its cache ... */
  lemma EndLosesItsCache(w: World, t: nat, b: Buf)
    requires Inv(w) && Enabled(w, End(t)) && b in w.place
    ensures b in Do(w, End(t)).place
    ensures Do(w, End(t)).place[b] == Lost <==> w.place[b] == Lost || b in w.caches[t]
  {
    OneOwner(w, b);
  }

  /** ... and they are neither used nor deleted by any later run. */
  lemma {:induction false} LostForEver(w: World, steps: seq<Step>, b: Buf)
    requires Inv(w) && Runs(w, steps) && At(w, b, Lost)
    ensures At(Final(w, steps), b, Lost)
    decreases |steps|
  {
    if steps != [] {
      StepKeepsInv(w, steps[0]);
      LostStays(w, steps[0], b);
      hide Inv, Do, Enabled, At;
      LostForEver(Do(w, steps[0]), steps[1..], b);
    }
  }

  lemma LostStays(w: World, step: Step, b: Buf)
    requires Inv(w) && Enabled(w, step) && At(w, b, Lost)
    ensures At(Do(w, step), b, Lost)
  {
    match step {
      case Acquire(t, size) => AcquiredFrom(w, t, size);
      case Release(t, x) => assert At(w, x, InUse);
      case _ =>
    }
  }

  predicate CapNeverChanges(steps: seq<Step>) {
    forall step :: step in steps ==> !step.Refresh?
  }

  /** The pool stays within its cap as long as the cap is not lowered: releases never exceed it. */
  lemma {:induction false} PoolStaysWithinCap(w: World, steps: seq<Step>)
    requires Inv(w) && Runs(w, steps) && CapNeverChanges(steps) && w.pool.total <= w.pool.cap
    ensures Final(w, steps).pool.cap == w.pool.cap && SumOf(Final(w, steps).pool.buckets) <= w.pool.cap
    decreases |steps|
  {
    if steps != [] {
      StepKeepsInv(w, steps[0]);
      if steps[0].Release? { ReleaseKeepsTotal(w.pool, steps[0].buf); }
      assert Do(w, steps[0]).pool.total <= w.pool.cap == Do(w, steps[0]).pool.cap;
      hide Inv, Do, Enabled;
      PoolStaysWithinCap(Do(w, steps[0]), steps[1..]);
    }
  }

  /** The cap the last reconfiguration has set. */
  function CapAfter(cap: nat, steps: seq<Step>): nat
    decreases |steps|
  {
    if steps == [] then cap else CapAfter(if steps[0].Refresh? then steps[0].max else cap, steps[1..])
  }

  /** When the cap does change, the pool stays within any bound on all the caps, and the last one holds. */
  lemma {:induction false} PoolStaysWithinAllCaps(w: World, steps: seq<Step>, bound: nat)
    requires Inv(w) && Runs(w, steps) && w.pool.total <= bound && w.pool.cap <= bound
    requires forall step :: step in steps && step.Refresh? ==> step.max <= bound
    ensures SumOf(Final(w, steps).pool.buckets) <= bound
    ensures Final(w, steps).pool.cap == CapAfter(w.pool.cap, steps)
    decreases |steps|
  {
    if steps != [] {
      StepKeepsInv(w, steps[0]);
      if steps[0].Release? { ReleaseKeepsTotal(w.pool, steps[0].buf); }
      assert Do(w, steps[0]).pool.total <= bound;
      assert Do(w, steps[0]).pool.cap == if steps[0].Refresh? then steps[0].max else w.pool.cap;
      hide Inv, Do, Enabled;
      PoolStaysWithinAllCaps(Do(w, steps[0]), steps[1..], bound);
    }
  }

  /** When some pooled buffer is large enough, an acquire takes a pooled one if and only if the
      bucket of the least size that would do is not empty. */
  lemma PooledIsUsedIff(p: Pool, size: nat, newId: nat)
    requires exists k :: k in p.buckets && k >= size && p.buckets[k] != []
    ensures var least := LowerBound(p.buckets.Keys, size);
            && least.Some?
            && (PoolAcquire(p, size, newId).0.total == p.total - 1 <==> p.buckets[least.value] != [])
  {
    var k :| k in p.buckets && k >= size && p.buckets[k] != [];
    assert k in p.buckets.Keys;
  }

  /** So an empty bucket hides every larger buffer, and a new one is allocated. */
  lemma EmptyBucketHidesLargerOnes(size: nat, larger: Buf, newId: nat)
    requires size <= MIN_CLASS < larger.size
    ensures var p := Pool(map[MIN_CLASS := [], larger.size := [larger]], 1, 1);
            PoolAcquire(p, size, newId) == (p, Buf(newId, MIN_CLASS))
  {
    var p := Pool(map[MIN_CLASS := [], larger.size := [larger]], 1, 1);
    assert MIN_CLASS in p.buckets.Keys;
  }
}
