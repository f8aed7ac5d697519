/** The buffer pool (src/pool.hpp): size classes, the shared buckets and the per-thread caches.

    A buffer is named by the allocation it came from. */
module Pools {
  import opened Options

  const MIN_CLASS: nat := 4096
  const TC_MAX: nat := 8

  // ------------------------------------------------------------------ size classes

  function Pow2(k: nat): (p: nat)
    ensures p > 0
  {
    if k == 0 then 1 else 2 * Pow2(k - 1)
  }

  lemma {:induction false} Pow2Monotone(j: nat, k: nat)
    requires j <= k
    ensures Pow2(j) <= Pow2(k)
    decreases k
  {
    if j < k {
      Pow2Monotone(j, k - 1);
    }
  }

  /** std::bit_ceil from 2^k on. */
  function BitCeilFrom(k: nat, n: nat): nat
    decreases if Pow2(k) < n then n - Pow2(k) else 0
  {
    if Pow2(k) >= n then Pow2(k) else BitCeilFrom(k + 1, n)
  }

  function BitCeil(n: nat): nat {
    BitCeilFrom(0, n)
  }

  lemma {:induction false} BitCeilFromIsLeast(k: nat, n: nat) returns (e: nat)
    requires k == 0 || Pow2(k - 1) < n
    ensures e >= k && BitCeilFrom(k, n) == Pow2(e) >= n && (e == 0 || Pow2(e - 1) < n)
    decreases if Pow2(k) < n then n - Pow2(k) else 0
  {
    if Pow2(k) >= n {
      e := k;
    } else {
      e := BitCeilFromIsLeast(k + 1, n);
    }
  }

  function PoolSizeClass(n: nat): nat {
    if n <= MIN_CLASS then MIN_CLASS else BitCeil(n)
  }

  predicate IsPow2(p: nat) {
    exists k: nat :: k <= p && p == Pow2(k)
  }

  lemma {:induction false} ExponentBelow(k: nat)
    ensures k < Pow2(k)
  {
    if k > 0 {
      ExponentBelow(k - 1);
    }
  }

  lemma MinClassIsPow2()
    ensures MIN_CLASS == Pow2(12)
  {
    assert Pow2(6) == 64;
    assert Pow2(10) == 16 * Pow2(6) == 1024;
  }

  /** A size no power of two from 4096 on that holds the request falls below, and less than twice a
      request above 4096. */
  ghost predicate Tight(size: nat, required: nat) {
    && IsPow2(size) && size >= required && size >= 4096
    && (forall q: nat :: IsPow2(q) && q >= required && q >= 4096 ==> size <= q)
    && (required > 4096 ==> size < 2 * required)
  }

  /** The size class is the least power of two that is at least 4096 and holds n; above 4096 it
      wastes less than half. */
  lemma SizeClassIsLeast(n: nat)
    ensures Tight(PoolSizeClass(n), n)
  {
    MinClassIsPow2();
    var e := 12;
    if n > MIN_CLASS {
      e := BitCeilFromIsLeast(0, n);
    }
    ExponentBelow(e);
    assert PoolSizeClass(n) == Pow2(e);
    if n > MIN_CLASS {
      forall q: nat | IsPow2(q) && q >= n ensures Pow2(e) <= q {
        var k: nat :| k <= q && q == Pow2(k);
        if k < e { Pow2Monotone(k, e - 1); } else { Pow2Monotone(e, k); }
      }
    }
  }

  lemma SizeClassMonotone(m: nat, n: nat)
    requires m <= n
    ensures PoolSizeClass(m) <= PoolSizeClass(n)
  {
    SizeClassIsLeast(m);
    SizeClassIsLeast(n);
  }

  /** A buffer's own size is its class, so it goes back to the bucket it is looked up in. */
  lemma SizeClassIdempotent(n: nat)
    ensures PoolSizeClass(PoolSizeClass(n)) == PoolSizeClass(n)
  {
    SizeClassIsLeast(n);
    SizeClassIsLeast(PoolSizeClass(n));
  }

  // ------------------------------------------------------------------ the shared pool

  datatype Buf = Buf(id: nat, size: nat)

  datatype Pool = Pool(buckets: map<nat, seq<Buf>>, total: int, cap: nat)

  predicate IsLeast(s: set<nat>, x: nat) {
    x in s && forall y :: y in s ==> x <= y
  }

  lemma {:induction false} LeastExists(s: set<nat>) returns (x: nat)
    requires s != {}
    ensures IsLeast(s, x)
    decreases |s|
  {
    x :| x in s;
    var rest := s - {x};
    if rest != {} {
      var y := LeastExists(rest);
      LeastOf(s, x, y);
      x := if x <= y then x else y;
    } else {
      assert s == {x};
    }
  }

  lemma LeastOf(s: set<nat>, x: nat, y: nat)
    requires x in s && IsLeast(s - {x}, y)
    ensures IsLeast(s, if x <= y then x else y)
  {
    forall z | z in s ensures (if x <= y then x else y) <= z { assert z == x || z in s - {x}; }
  }

  /** std::map::lower_bound: the smallest key that is at least n. */
  function LowerBound(keys: set<nat>, n: nat): (k: Option<nat>)
    ensures k.Some? ==> k.value in keys && k.value >= n && forall x :: x in keys && x >= n ==> k.value <= x
    ensures k.None? ==> forall x :: x in keys ==> x < n
  {
    var s := set x | x in keys && x >= n;
    if s == {} then
      assert forall x :: x in keys && x >= n ==> x in s;
      None
    else
      assert exists x :: IsLeast(s, x) by { var x := LeastExists(s); }
      var x :| IsLeast(s, x);
      assert forall y :: y in keys && y >= n ==> y in s;
      Some(x)
  }

  /** The bucket an acquire looks at, if it has something to give. */
  function Serving(buckets: map<nat, seq<Buf>>, required: nat): (k: Option<nat>)
    ensures k.Some? ==> k.value in buckets && k.value >= required && buckets[k.value] != []
  {
    var k := LowerBound(buckets.Keys, required);
    if k.Some? && buckets[k.value] != [] then k else None
  }

  function PoolAcquire(p: Pool, required: nat, newId: nat): (Pool, Buf) {
    var k := Serving(p.buckets, required);
    if k.Some? then
      var bucket := p.buckets[k.value];
      (p.(buckets := p.buckets[k.value := bucket[..|bucket| - 1]], total := p.total - 1), bucket[|bucket| - 1])
    else (p, Buf(newId, PoolSizeClass(required)))
  }

  predicate Pooled(buckets: map<nat, seq<Buf>>, b: Buf) {
    exists k :: k in buckets && b in buckets[k]
  }

  /** A pooled buffer comes off the end of the bucket of the least size that would do; a new one is no
      larger than it has to be. */
  lemma AcquiredSize(p: Pool, required: nat, newId: nat)
    ensures var (p', b) := PoolAcquire(p, required, newId);
            if p' == p then Tight(b.size, required)
            else exists k :: && k in p.buckets && k >= required && p.buckets[k] != []
                             && (forall x :: x in p.buckets && x >= required ==> k <= x)
                             && b == p.buckets[k][|p.buckets[k]| - 1]
                             && p'.buckets == p.buckets[k := p.buckets[k][..|p.buckets[k]| - 1]]
    ensures var (p', b) := PoolAcquire(p, required, newId);
            p' != p ==> Pooled(p.buckets, b)
  {
    SizeClassIsLeast(required);
    hide Tight, PoolSizeClass;
    var k := Serving(p.buckets, required);
    if k.Some? {
      assert k.value in p.buckets.Keys;
    }
  }

  /** The new pool and whether the buffer is deleted. */
  function PoolRelease(p: Pool, b: Buf): (Pool, bool) {
    if p.total >= p.cap then (p, true)
    else
      var bucket := if b.size in p.buckets then p.buckets[b.size] else [];
      (p.(buckets := p.buckets[b.size := bucket + [b]], total := p.total + 1), false)
  }

  /** Below the cap, what is released is what the next acquire of a size gets that no other bucket serves
      better, and the pool is as it was; at the cap it is deleted and the pool stays as it is. */
  lemma ReleaseThenAcquire(p: Pool, b: Buf, required: nat, newId: nat)
    requires required <= b.size && forall k :: k in p.buckets && k >= required ==> b.size <= k
    ensures var (p', deleted) := PoolRelease(p, b);
            if p.total >= p.cap then deleted && p' == p
            else
              var (back, got) := PoolAcquire(p', required, newId);
              && !deleted && p'.total == p.total + 1 && got == b && back.total == p.total
              && back.buckets == (if b.size in p.buckets then p.buckets else p.buckets[b.size := []])
  {
    var p' := PoolRelease(p, b).0;
    if p.total < p.cap {
      assert b.size in p'.buckets.Keys;
      assert Serving(p'.buckets, required) == Some(b.size);
    }
  }

  class BufferPool {
    var pools: map<nat, seq<Buf>>
    var total: int
    var cachedMax: nat

    constructor (max: nat)
      ensures View() == Pool(map[], 0, max)
    {
      pools, total, cachedMax := map[], 0, max;
    }

    function View(): Pool
      reads this
    {
      Pool(pools, total, cachedMax)
    }

    /** `newId` names the allocation made if none is reused. */
    method Acquire(required: nat, newId: nat) returns (buf: Buf)
      modifies this
      ensures (View(), buf) == PoolAcquire(old(View()), required, newId)
      ensures !Pooled(old(pools), buf) ==> Tight(buf.size, required)
    {
      AcquiredSize(View(), required, newId);
      hide Tight, PoolSizeClass;
      var it := LowerBound(pools.Keys, required);
      if it.Some? && |pools[it.value]| != 0 {
        var bucket := pools[it.value];
        buf := bucket[|bucket| - 1];
        pools := pools[it.value := bucket[..|bucket| - 1]];
        total := total - 1;
        return;
      }
      buf := Buf(newId, PoolSizeClass(required));
    }

    method Release(buf: Buf) returns (deleted: bool)
      modifies this
      ensures (View(), deleted) == PoolRelease(old(View()), buf)
    {
      if total >= cachedMax { return true; }
      if buf.size !in pools { pools := pools[buf.size := []]; }
      pools := pools[buf.size := pools[buf.size] + [buf]];
      assert pools == PoolRelease(old(View()), buf).0.buckets;
      total := total + 1;
      deleted := false;
    }

    method RefreshConfig(max: nat)
      modifies this
      ensures View() == old(View()).(cap := max)
    {
      cachedMax := max;
    }

    method Clear()
      modifies this
      ensures View() == old(View()).(buckets := map[], total := 0)
    {
      pools, total := map[], 0;
    }
  }

  // ------------------------------------------------------------------ the cache of a thread

  /** The first cached buffer that is large enough. */
  function FirstFit(cache: seq<Buf>, size: nat): (i: Option<nat>)
    ensures i.Some? ==> i.value < |cache| && cache[i.value].size >= size
    ensures i.Some? ==> forall j :: 0 <= j < i.value ==> cache[j].size < size
    ensures i.None? ==> forall j :: 0 <= j < |cache| ==> cache[j].size < size
  {
    if cache == [] then None
    else if cache[0].size >= size then Some(0)
    else
      var rest := FirstFit(cache[1..], size);
      if rest.Some? then Some(rest.value + 1) else None
  }

  function Without(cache: seq<Buf>, i: nat): (c: seq<Buf>)
    requires i < |cache|
    ensures |c| == |cache| - 1
  {
    cache[..i] + cache[i + 1..]
  }

  function ThreadAcquire(cache: seq<Buf>, p: Pool, size: nat, newId: nat): (seq<Buf>, Pool, Buf) {
    var i := FirstFit(cache, size);
    if i.Some? then (Without(cache, i.value), p, cache[i.value])
    else
      var (p', b) := PoolAcquire(p, size, newId);
      (cache, p', b)
  }

  function ThreadRelease(cache: seq<Buf>, p: Pool, b: Buf): (seq<Buf>, Pool, bool) {
    if |cache| < TC_MAX then (cache + [b], p, false)
    else
      var (p', deleted) := PoolRelease(p, b);
      (cache, p', deleted)
  }

  class ThreadCache {
    const pool: BufferPool
    var tlc: seq<Buf>

    constructor (pool: BufferPool)
      ensures tlc == [] && this.pool == pool
    {
      this.pool, tlc := pool, [];
    }

    method AcquireWithSize(size: nat, newId: nat) returns (buf: Buf)
      modifies this, pool
      ensures (tlc, pool.View(), buf) == ThreadAcquire(old(tlc), old(pool.View()), size, newId)
      ensures buf !in old(tlc) && !Pooled(old(pool.pools), buf) ==> Tight(buf.size, size)
    {
      hide Tight, PoolAcquire;
      var it := 0;
      while it < |tlc|
        invariant it <= |tlc| && unchanged(this, pool)
        invariant forall j :: 0 <= j < it ==> tlc[j].size < size
      {
        if tlc[it].size >= size {
          buf := tlc[it];
          tlc := tlc[..it] + tlc[it + 1..];
          return;
        }
        it := it + 1;
      }
      buf := pool.Acquire(size, newId);
    }

    method Release(buf: Buf) returns (deleted: bool)
      modifies this, pool
      ensures (tlc, pool.View(), deleted) == ThreadRelease(old(tlc), old(pool.View()), buf)
      ensures deleted <==> |old(tlc)| >= 8 && old(pool.total) >= old(pool.cachedMax)
      ensures tlc == if |old(tlc)| < 8 then old(tlc) + [buf] else old(tlc)
    {
      if |tlc| < TC_MAX {
        tlc := tlc + [buf];
        return false;
      }
      deleted := pool.Release(buf);
    }
  }
}
