/** ResultBatcher (src/result_batcher.cpp): the batch, the idle timer and the adaptive controller.

    Times are steady-clock microseconds handed in by the caller. `push` reads the clock before it
    takes the lock, so it may come with an earlier time than the push recorded before it; the
    queries read the clock inside the lock, after every recorded push. */
module Batchers {
  import opened BatchProtocol
  import opened Medians
  import opened Options

  const RING_SIZE: nat := 128
  const ADAPTIVE_UPDATE_INTERVAL: nat := 16
  const SAMPLE_CAP: nat := 1_000_000
  const INFINITE: nat := 0xFFFF_FFFF

  // ------------------------------------------------------------------ the controller's arithmetic

  /** llround of target / median, the median being at least 1. */
  function RoundedQuotient(target: nat, median: nat): nat
    requires median > 0
  {
    (2 * target + median) / (2 * median)
  }

  function Clamp(x: nat, max: nat): nat {
    var y := if x < 1 then 1 else x;
    if y > max then max else y
  }

  function NonZero(median: nat): nat {
    if median == 0 then 1 else median
  }

  function Threshold(target: nat, median: nat, max: nat): nat {
    Clamp(RoundedQuotient(target, NonZero(median)), max)
  }

  function IdleMs(median: nat, max: nat): nat {
    Clamp(NonZero(median) * 4 / 1000, max)
  }

  /** The threshold stays in [1, max]. Unless the quotient is clamped, a batch of that many results at
      the median interval misses the target by at most half a median, 2 |t m - target| <= m; clamped
      from below it takes longer than that, clamped from above it stops that early at least. */
  lemma ThresholdBounds(target: nat, median: nat, max: nat)
    requires max >= 1
    ensures var t, m := Threshold(target, median, max), NonZero(median);
            && 1 <= t <= max && m > 0 && (median > 0 ==> m == median) && (median == 0 ==> m == 1)
            && (1 <= RoundedQuotient(target, m) <= max ==> 0 - m <= 2 * (t * m - target) <= m)
            && (RoundedQuotient(target, m) < 1 ==> t == 1 && 2 * (t * m - target) > m)
            && (RoundedQuotient(target, m) > max ==> t == max && 2 * (t * m - target) <= 0 - m)
  {
    var m := NonZero(median);
    QuotientSpan(target, m);
    hide RoundedQuotient;
    var q := RoundedQuotient(target, m);
    if q > max {
      MulLess(max + 1, q, m);
      assert (max + 1) * m == max * m + m;
    }
  }

  lemma QuotientSpan(target: nat, m: nat)
    requires m > 0
    ensures var q := RoundedQuotient(target, m); 0 - m <= 2 * (q * m - target) <= m
    ensures RoundedQuotient(target, m) == 0 ==> 2 * target < m
  {
    var q := RoundedQuotient(target, m);
    var r := (2 * target + m) % (2 * m);
    assert 2 * target + m == 2 * m * q + r && 0 <= r < 2 * m;
    assert 2 * m * q == 2 * (q * m);
  }

  /** The idle time stays in [1, max] and is four times the median interval, in whole milliseconds rounded
      down, unless that is less than one or more than the maximum. */
  lemma IdleBounds(median: nat, max: nat)
    requires max >= 1
    ensures var t, m := IdleMs(median, max), NonZero(median);
            && 1 <= t <= max && m > 0 && (median > 0 ==> m == median) && (median == 0 ==> m == 1)
            && (1000 <= 4 * m < 1000 * (max + 1) ==> 1000 * t <= 4 * m < 1000 * (t + 1))
            && (4 * m < 1000 ==> t == 1)
            && (4 * m >= 1000 * (max + 1) ==> t == max)
  {
    var m := NonZero(median);
    assert m * 4 == 1000 * (m * 4 / 1000) + m * 4 % 1000;
  }

  lemma SettingsInRange(target: nat, median: nat, max: nat, idleMax: nat)
    ensures max >= 1 ==> 1 <= Threshold(target, median, max) <= max
    ensures idleMax >= 1 ==> 1 <= IdleMs(median, idleMax) <= idleMax
  {
  }

  lemma MulLess(a: nat, b: nat, c: nat)
    requires a <= b
    ensures a * c <= b * c
  {
  }

  /** Slower completions never raise the threshold. */
  lemma ThresholdAntitone(target: nat, m1: nat, m2: nat, max: nat)
    requires m1 <= m2
    ensures Threshold(target, m2, max) <= Threshold(target, m1, max)
  {
    QuotientAntitone(target, NonZero(m1), NonZero(m2));
    hide RoundedQuotient;
  }

  lemma QuotientAntitone(target: nat, a: nat, b: nat)
    requires 0 < a <= b
    ensures RoundedQuotient(target, b) <= RoundedQuotient(target, a)
  {
    var q := RoundedQuotient(target, b);
    if q >= 1 {
      // 2 b q <= 2 target + b, and subtracting b from both sides, b (2 q - 1) <= 2 target.
      QuotientBound(2 * target + b, 2 * b);
      assert b * (2 * q - 1) == 2 * b * q - b;
      MulLess(a, b, 2 * q - 1);
      assert a * (2 * q - 1) == 2 * a * q - a;
      QuotientAtLeast(2 * target + a, 2 * a, q);
    }
  }

  lemma QuotientBound(n: nat, d: nat)
    requires d > 0
    ensures d * (n / d) <= n
  {
  }

  lemma QuotientAtLeast(n: nat, d: nat, q: nat)
    requires d > 0 && d * q <= n
    ensures q <= n / d
  {
    if q > n / d {
      MulLess(n / d + 1, q, d);
    }
  }

  // ------------------------------------------------------------------ the sample window

  /** The interval a push records: unsigned, so a time that runs backwards is a huge one. */
  function Interval(last: nat, now: nat): (us: nat)
    ensures us <= SAMPLE_CAP
  {
    if now < last || now - last > SAMPLE_CAP then SAMPLE_CAP else now - last
  }

  /** The first sample is the neutral one, and none exceeds the cap. */
  predicate Capped(samples: seq<nat>) {
    (samples != [] ==> samples[0] == 1000) && forall s :: s in samples ==> s <= SAMPLE_CAP
  }

  function Sample(samples: seq<nat>, last: nat, now: nat): (us: nat)
    ensures Capped(samples) ==> Capped(samples + [us])
  {
    if samples == [] then 1000 else Interval(last, now)
  }

  /** Sample j tells how long before push j the push before it was: the time between them in full, or a
      second when it was longer or the clock ran backwards. */
  predicate Tells(samples: seq<nat>, times: seq<nat>, j: nat)
    requires 0 < j < |samples| == |times|
  {
    if times[j - 1] <= times[j] <= times[j - 1] + 1_000_000 then times[j - 1] + samples[j] == times[j]
    else samples[j] == 1_000_000
  }

  /** The samples recorded by pushes at these times. */
  ghost predicate Recorded(samples: seq<nat>, times: seq<nat>) {
    && |samples| == |times| && (samples != [] ==> samples[0] == 1000)
    && forall j: nat :: 0 < j < |samples| ==> Tells(samples, times, j)
  }

  lemma SampleIsRecorded(samples: seq<nat>, times: seq<nat>, last: nat, now: nat)
    requires Recorded(samples, times) && (times != [] ==> times[|times| - 1] == last)
    ensures Recorded(samples + [Sample(samples, last, now)], times + [now])
  {
    var samples', times' := samples + [Sample(samples, last, now)], times + [now];
    forall j: nat | 0 < j < |samples'| ensures Tells(samples', times', j) {
      if j < |samples| { assert Tells(samples, times, j); }
    }
  }

  function Sum(samples: seq<nat>): nat {
    if samples == [] then 0 else Sum(samples[..|samples| - 1]) + samples[|samples| - 1]
  }

  /** No second passes without a push, and the clock does not run backwards. */
  predicate Steady(times: seq<nat>) {
    forall j :: 0 < j < |times| ==> times[j - 1] <= times[j] <= times[j - 1] + 1_000_000
  }

  /** Over a run of steady pushes nothing of the elapsed time is lost or counted twice: behind the neutral
      first sample, the samples add up to the time from the first push to the last. */
  lemma {:induction false} SamplesAddUp(samples: seq<nat>, times: seq<nat>)
    requires Recorded(samples, times) && samples != [] && Steady(times)
    ensures Sum(samples) + times[0] == 1000 + times[|times| - 1]
    decreases |samples|
  {
    var n := |samples| - 1;
    if n == 0 {
      assert samples[..0] == [];
    } else {
      assert Tells(samples, times, n);
      var samples', times' := samples[..n], times[..n];
      forall j: nat | 0 < j < n ensures Tells(samples', times', j) { assert Tells(samples, times, j); }
      SamplesAddUp(samples', times');
    }
  }

  /** The last min(k, 128) of the samples taken so far. */
  function Window(samples: seq<nat>): seq<nat> {
    if |samples| <= 128 then samples else samples[|samples| - 128..]
  }

  /** Where sample j is stored. */
  function Slot(j: nat): (i: nat)
    ensures i < RING_SIZE
  {
    j % RING_SIZE
  }

  /** The ring holds the window: each of the last 128 samples stands in its slot. */
  ghost predicate RingHolds(ring: seq<nat>, pos: nat, count: nat, samples: seq<nat>) {
    && |ring| == RING_SIZE
    && count == |Window(samples)| && pos == Slot(|samples|)
    && forall j :: 0 <= j < |samples| && |samples| <= j + RING_SIZE ==> ring[Slot(j)] == samples[j]
  }

  /** Capped samples keep both casts in range: the idle time fits easily and the quotient never
      exceeds the target. */
  lemma SettingsFit(target: nat, samples: seq<nat>)
    requires Capped(samples) && samples != []
    ensures var m := NonZero(Median(Window(samples)));
            m <= SAMPLE_CAP && m * 4 / 1000 <= 4000 && RoundedQuotient(target, m) <= target
  {
    hide Window, Median, RoundedQuotient;
    WindowCapped(samples);
    MedianAtMost(Window(samples), SAMPLE_CAP);
    RoundedQuotientAtMost(target, NonZero(Median(Window(samples))));
  }

  lemma WindowCapped(samples: seq<nat>)
    requires Capped(samples) && samples != []
    ensures Window(samples) != [] && forall y :: y in Window(samples) ==> y <= SAMPLE_CAP
  {
    forall y | y in Window(samples) ensures y <= SAMPLE_CAP { assert y in samples; }
  }

  lemma RoundedQuotientAtMost(target: nat, m: nat)
    requires m > 0
    ensures RoundedQuotient(target, m) <= target
  {
    MulLess(1, m, 2 * target);
    assert 2 * m * (target + 1) == m * (2 * target) + 2 * m;
    QuotientBelow(2 * target + m, 2 * m, target + 1);
  }

  lemma QuotientBelow(n: nat, d: nat, q: nat)
    requires d > 0 && n < d * q
    ensures n / d < q
  {
    if n / d >= q {
      MulLess(q, n / d, d);
      QuotientBound(n, d);
    }
  }

  lemma RingStart(ring: seq<nat>, pos: nat, count: nat, samples: seq<nat>)
    requires RingHolds(ring, pos, count, samples)
    ensures pos < RING_SIZE == |ring| && count <= RING_SIZE
    ensures |samples| >= RING_SIZE ==> count == RING_SIZE
    ensures count == 0 <==> samples == []
    ensures count < 4 <==> |samples| < 4
    ensures count == 0 ==> pos == 0
  {
  }

  /** The window stands in the ring, as it is until the ring is full and then rotated. */
  lemma RingIsWindow(ring: seq<nat>, pos: nat, count: nat, samples: seq<nat>)
    requires RingHolds(ring, pos, count, samples)
    ensures count <= |ring| && multiset(ring[..count]) == multiset(Window(samples))
  {
    if |samples| <= RING_SIZE {
      RingNotFull(ring, pos, count, samples);
    } else {
      RingFull(ring, pos, count, samples);
      assert ring[..count] == ring;
    }
  }

  lemma RingNotFull(ring: seq<nat>, pos: nat, count: nat, samples: seq<nat>)
    requires RingHolds(ring, pos, count, samples) && |samples| <= RING_SIZE
    ensures count <= |ring| && ring[..count] == Window(samples)
  {
    hide Slot;
    forall i | 0 <= i < count ensures ring[i] == samples[i] {
      SlotOf(0, i);
      assert ring[Slot(i)] == samples[i];
    }
  }

  lemma RingFull(ring: seq<nat>, pos: nat, count: nat, samples: seq<nat>)
    requires RingHolds(ring, pos, count, samples) && |samples| > RING_SIZE
    ensures count == |ring| && multiset(ring) == multiset(Window(samples))
  {
    hide RingHolds, Window, Slot;
    RingStart(ring, pos, count, samples);
    var n := |samples| - pos;
    forall i | 0 <= i < RING_SIZE ensures ring[i] == samples[n + i - if i < pos then 0 else RING_SIZE] {
      RingAt(ring, pos, count, samples, i);
    }
    Rotated(ring, samples, pos);
  }

  lemma RingAt(ring: seq<nat>, pos: nat, count: nat, samples: seq<nat>, i: nat)
    requires RingHolds(ring, pos, count, samples) && |samples| > RING_SIZE && i < RING_SIZE
    ensures pos < RING_SIZE
    ensures ring[i] == samples[|samples| - pos + i - if i < pos then 0 else RING_SIZE]
  {
    var k := |samples|;
    var q := k / RING_SIZE;
    assert k == RING_SIZE * q + pos;
    hide Slot, Window;
    if i < pos {
      SlotOf(q, i);
      assert ring[Slot(k - pos + i)] == samples[k - pos + i];
    } else {
      SlotOf(q - 1, i);
      assert ring[Slot(k - RING_SIZE + i - pos)] == samples[k - RING_SIZE + i - pos];
    }
  }

  lemma Rotated(ring: seq<nat>, samples: seq<nat>, pos: nat)
    requires |ring| == RING_SIZE > pos && |samples| > RING_SIZE
    requires forall i :: 0 <= i < RING_SIZE ==>
               ring[i] == samples[|samples| - pos + i - if i < pos then 0 else RING_SIZE]
    ensures multiset(ring) == multiset(Window(samples))
  {
    var k := |samples|;
    var newer, older := samples[k - pos..], samples[k - RING_SIZE..k - pos];
    assert ring == newer + older;
    assert Window(samples) == older + newer;
  }

  lemma SlotOf(q: nat, i: nat)
    requires i < RING_SIZE
    ensures Slot(RING_SIZE * q + i) == i
  {
  }

  function NextPos(pos: nat): nat {
    (pos + 1) % RING_SIZE
  }

  function NextCount(count: nat): nat {
    if count < RING_SIZE then count + 1 else count
  }

  lemma RingPush(ring: seq<nat>, pos: nat, count: nat, samples: seq<nat>, x: nat)
    requires RingHolds(ring, pos, count, samples)
    ensures pos < RING_SIZE
    ensures RingHolds(ring[pos := x], NextPos(pos), NextCount(count), samples + [x])
  {
    hide Slot, Window;
    var k := |samples|;
    NextSlot(k);
    WindowGrows(samples, x);
    var ring', samples' := ring[pos := x], samples + [x];
    forall j | 0 <= j < |samples'| && |samples'| <= j + RING_SIZE ensures ring'[Slot(j)] == samples'[j] {
      if j < k {
        OtherSlot(k, j);
        assert samples'[j] == samples[j];
      } else {
        assert j == k;
      }
    }
  }

  lemma WindowGrows(samples: seq<nat>, x: nat)
    ensures |Window(samples)| <= RING_SIZE
    ensures |Window(samples + [x])| == if |Window(samples)| < RING_SIZE then |Window(samples)| + 1 else RING_SIZE
  {
  }

  lemma NextSlot(k: nat)
    ensures Slot(k + 1) == (Slot(k) + 1) % RING_SIZE
  {
  }

  lemma OtherSlot(k: nat, j: nat)
    requires j < k < j + RING_SIZE
    ensures Slot(j) != Slot(k)
  {
  }

  lemma FirstSlot()
    ensures NextPos(0) == 1 && NextCount(0) == 1
  {
  }

  method Store(ring: array<nat>, i: nat, x: nat)
    requires i < ring.Length
    modifies ring
    ensures ring[..] == old(ring[..])[i := x]
  {
    ring[i] := x;
  }

  // ------------------------------------------------------------------ the batcher

  class ResultBatcher<E(==)> {
    const thresholdMax: nat
    const idleTimeoutMaxMs: nat
    const intervals: array<nat>
    var adaptive: bool
    var targetLatencyUs: nat
    var currentThreshold: nat
    var currentIdleMs: nat

    var batch: seq<E>
    var dispatchPending: bool
    var hasPending: bool
    var firstPush: nat
    var lastPush: nat
    var ringPos: nat
    var ringCount: nat
    var pushesSinceUpdate: nat
    ghost var samples: seq<nat>
    ghost var times: seq<nat>

    constructor (threshold: nat, idleTimeoutMs: nat)
      ensures Valid() && fresh(intervals) && thresholdMax == threshold && idleTimeoutMaxMs == idleTimeoutMs
      ensures Guarded() == Shared([], false, false) && samples == []
    {
      thresholdMax, idleTimeoutMaxMs := threshold, idleTimeoutMs;
      intervals := new nat[RING_SIZE](_ => 0);
      adaptive, targetLatencyUs := true, 1000;
      currentThreshold, currentIdleMs := threshold, idleTimeoutMs;
      batch, dispatchPending, hasPending := [], false, false;
      firstPush, lastPush := 0, 0;
      ringPos, ringCount, pushesSinceUpdate := 0, 0, 0;
      samples, times := [], [];
    }

    ghost predicate Valid()
      reads this, intervals
    {
      && intervals.Length == RING_SIZE
      && RingHolds(intervals[..], ringPos, ringCount, samples)
      && Capped(samples) && Clocked()
      && pushesSinceUpdate < ADAPTIVE_UPDATE_INTERVAL
      && (hasPending <==> batch != [])
      && (thresholdMax >= 1 ==> 1 <= currentThreshold <= thresholdMax)
      && (idleTimeoutMaxMs >= 1 ==> 1 <= currentIdleMs <= idleTimeoutMaxMs)
    }

    /** What the samples are, by the times of all pushes so far. */
    ghost predicate Clocked()
      reads this
    {
      Recorded(samples, times) && (times != [] ==> times[|times| - 1] == lastPush)
    }

    /** The protocol's view of the guarded fields. */
    function Guarded(): Shared<E>
      reads this
    {
      Shared(batch, dispatchPending, hasPending)
    }

    function EffectiveThreshold(): nat
      reads this
    {
      if adaptive then currentThreshold else thresholdMax
    }

    function EffectiveIdleMs(): nat
      reads this
    {
      if adaptive then currentIdleMs else idleTimeoutMaxMs
    }

    /** The controller's settings are those the median of the current window asks for. */
    ghost predicate Tuned()
      requires samples != []
      reads this
    {
      var median := Median(Window(samples));
      && currentThreshold == Threshold(targetLatencyUs, median, thresholdMax)
      && currentIdleMs == IdleMs(median, idleTimeoutMaxMs)
    }

    method MedianOfRing() returns (median: nat)
      requires Valid() && samples != []
      ensures median == Median(Window(samples))
    {
      hide Median, Capped, Recorded;
      RingStart(intervals[..], ringPos, ringCount, samples);
      hide RingHolds, Window;
      RingIsWindow(intervals[..], ringPos, ringCount, samples);
      assert intervals[..][..ringCount] == intervals[..ringCount];
      median := MedianBySelection(intervals, ringCount);
      MedianOfPermutation(intervals[..ringCount], Window(samples));
    }

    /** `update_adaptive_locked`: threshold and idle time from the median of the window. */
    method UpdateAdaptive()
      requires Valid()
      modifies `currentThreshold, `currentIdleMs
      ensures Valid()
      ensures !adaptive || |samples| < 4 ==> unchanged(this)
      ensures adaptive && |samples| >= 4 ==> Tuned()
    {
      if !adaptive { return; }
      RingStart(intervals[..], ringPos, ringCount, samples);
      if ringCount < 4 { return; }
      hide RingHolds, Median, Capped, Recorded, Window, Threshold, IdleMs;
      var median := MedianOfRing();
      SettingsInRange(targetLatencyUs, median, thresholdMax, idleTimeoutMaxMs);
      SetFrom(median);
    }

    method SetFrom(m: nat)
      modifies `currentThreshold, `currentIdleMs
      ensures currentThreshold == Threshold(targetLatencyUs, m, thresholdMax)
      ensures currentIdleMs == IdleMs(m, idleTimeoutMaxMs)
    {
      hide RoundedQuotient;
      var median := m;
      if median == 0 { median := 1; }
      var dynThreshold := RoundedQuotient(targetLatencyUs, median);
      if dynThreshold < 1 { dynThreshold := 1; }
      if dynThreshold > thresholdMax { dynThreshold := thresholdMax; }
      currentThreshold := dynThreshold;
      var dynIdle := median * 4 / 1000;
      if dynIdle < 1 { dynIdle := 1; }
      if dynIdle > idleTimeoutMaxMs { dynIdle := idleTimeoutMaxMs; }
      currentIdleMs := dynIdle;
    }

    method StoreNext(delta: nat, ghost taken: seq<nat>)
      requires intervals.Length == RING_SIZE && RingHolds(intervals[..], ringPos, ringCount, taken)
      modifies `ringPos, `ringCount, intervals
      ensures RingHolds(intervals[..], ringPos, ringCount, taken + [delta])
    {
      RingPush(intervals[..], ringPos, ringCount, taken, delta);
      hide RingHolds, NextPos, NextCount;
      Store(intervals, ringPos, delta);
      ringPos := NextPos(ringPos);
      ringCount := NextCount(ringCount);
    }

    /** The first push has no interval to record and leaves a neutral value. */
    method Seed(ghost taken: seq<nat>)
      requires intervals.Length == RING_SIZE && RingHolds(intervals[..], ringPos, ringCount, taken) && ringCount == 0
      modifies `ringPos, `ringCount, intervals
      ensures RingHolds(intervals[..], ringPos, ringCount, taken + [1000])
    {
      RingStart(intervals[..], ringPos, ringCount, taken);
      RingPush(intervals[..], ringPos, ringCount, taken, 1000);
      FirstSlot();
      hide RingHolds, NextPos, NextCount;
      Store(intervals, 0, 1000);
      ringPos := 1;
      ringCount := 1;
    }

    /** Record the interval since the last push, capped at one second; the first one is neutral. */
    method RecordInterval(now: nat)
      requires Valid()
      modifies `ringPos, `ringCount, `samples, `times, `lastPush, intervals
      ensures Valid() && times == old(times) + [now] && lastPush == now
      ensures samples == old(samples) + [Sample(old(samples), old(lastPush), now)]
    {
      ghost var taken := samples;
      RingStart(intervals[..], ringPos, ringCount, samples);
      SampleIsRecorded(samples, times, lastPush, now);
      hide RingHolds, Capped, Interval, Recorded;
      samples, times := samples + [Sample(samples, lastPush, now)], times + [now];
      if ringCount > 0 {
        StoreNext(Interval(lastPush, now), taken);
      } else {
        Seed(taken);
      }
      lastPush := now;
    }

    /** The median moves slowly: the settings are recomputed on every sixteenth push only. */
    twostate predicate Counted()
      requires samples != []
      reads this
    {
      && pushesSinceUpdate == (old(pushesSinceUpdate) + 1) % 16
      && if pushesSinceUpdate == 0 && adaptive && |samples| >= 4 then Tuned()
         else currentThreshold == old(currentThreshold) && currentIdleMs == old(currentIdleMs)
    }

    method CountPush()
      requires Valid() && samples != []
      modifies `pushesSinceUpdate, `currentThreshold, `currentIdleMs
      ensures Valid() && Counted()
    {
      hide RingHolds, Capped, Recorded, Tuned;
      pushesSinceUpdate := pushesSinceUpdate + 1;
      if pushesSinceUpdate >= ADAPTIVE_UPDATE_INTERVAL {
        pushesSinceUpdate := 0;
        UpdateAdaptive();
      }
    }

    method Enqueue(value: E, now: nat)
      requires Valid()
      modifies `batch, `hasPending, `firstPush
      ensures Valid() && Guarded() == old(Guarded()).Push(value)
      ensures firstPush == if old(hasPending) then old(firstPush) else now
    {
      hide RingHolds, Capped, Recorded;
      if !hasPending {
        firstPush := now;
        hasPending := true;
      }
      batch := batch + [value];
    }

    /** What a push does to the batch, the samples and the settings. */
    twostate predicate PushedAt(value: E, now: nat)
      reads this
    {
      && Guarded() == old(Guarded()).Push(value)
      && firstPush == (if old(hasPending) then old(firstPush) else now) && lastPush == now
      && samples == old(samples) + [Sample(old(samples), old(lastPush), now)] && times == old(times) + [now]
      && Counted()
    }

    /** The locked section of `push`. */
    method PushValue(value: E, now: nat)
      requires Valid()
      modifies `batch, `hasPending, `firstPush, `lastPush, `samples, `times, `ringPos, `ringCount,
               `pushesSinceUpdate, `currentThreshold, `currentIdleMs, intervals
      ensures Valid() && PushedAt(value, now)
    {
      hide RingHolds, Capped, Recorded, Sample, Tuned;
      RecordInterval(now);
      Enqueue(value, now);
      CountPush();
    }

    /** `push`: whether the threshold is reached. A missing setter or value is dropped. */
    method Push(entry: Option<E>, now: nat) returns (reached: bool)
      requires Valid()
      modifies this, intervals
      ensures Valid()
      ensures entry.None? ==> !reached && unchanged(this, intervals)
      ensures entry.Some? ==> PushedAt(entry.value, now) && batch == old(batch) + [entry.value] && hasPending
      ensures entry.Some? && adaptive ==> reached == (|batch| >= currentThreshold)
      ensures entry.Some? && !adaptive ==> reached == (|batch| >= thresholdMax)
      ensures unchanged(`adaptive, `targetLatencyUs)
    {
      hide RingHolds, Capped, Recorded, Sample, Tuned;
      if entry.None? { return false; }
      PushValue(entry.value, now);
      reached := |batch| >= EffectiveThreshold();
    }

    /** The locked section of `flush`. */
    method Flush() returns (needSchedule: bool)
      requires Valid()
      modifies `dispatchPending
      ensures Valid() && (Guarded(), needSchedule) == old(Guarded()).Flush()
      ensures needSchedule <==> batch != [] && !old(dispatchPending)
      ensures dispatchPending <==> old(dispatchPending) || needSchedule
    {
      if batch == [] { return false; }
      needSchedule := false;
      if !dispatchPending {
        dispatchPending := true;
        needSchedule := true;
      }
    }

    /** `has_pending`. */
    predicate HasPending()
      reads this
    {
      hasPending && batch != []
    }

    /** `idle_expired`. */
    predicate IdleExpired(now: nat)
      reads this
    {
      hasPending && batch != [] && firstPush <= now && (now - firstPush) / 1000 >= EffectiveIdleMs()
    }

    /** The idle time has expired as many milliseconds after the first pending push as the controller
        has set, or, with the controller off, as the batcher was built with. */
    lemma IdleExpiredIff(now: nat)
      requires HasPending()
      ensures IdleExpired(now) <==>
                firstPush + 1000 * (if adaptive then currentIdleMs else idleTimeoutMaxMs) <= now
    {
      if firstPush <= now { WholeMs(now - firstPush, EffectiveIdleMs()); }
    }

    lemma WholeMs(us: nat, ms: nat)
      ensures us / 1000 >= ms <==> us >= 1000 * ms
    {
    }

    /** The locked section of `flush_if_idle`: as documented, the same as `flush` when there is
        something pending and its idle time has expired, else nothing. */
    method FlushIfIdle(now: nat) returns (needSchedule: bool)
      requires Valid() && (hasPending ==> firstPush <= now)
      modifies `dispatchPending
      ensures Valid()
      ensures (Guarded(), needSchedule) ==
                if old(HasPending()) && old(IdleExpired(now)) then old(Guarded()).Flush() else (old(Guarded()), false)
      ensures needSchedule <==> batch != [] && IdleExpired(now) && !old(dispatchPending)
    {
      if !hasPending || batch == [] { return false; }
      if (now - firstPush) / 1000 < EffectiveIdleMs() { return false; }
      needSchedule := false;
      if !dispatchPending {
        dispatchPending := true;
        needSchedule := true;
      }
    }

    /** The locked section after call_soon_threadsafe failed. */
    method ResetDispatch()
      requires Valid()
      modifies `dispatchPending
      ensures Valid() && Guarded() == old(Guarded()).Reset() && !dispatchPending
    {
      dispatchPending := false;
    }

    /** The locked section of the drain callback. */
    method Drain() returns (local: seq<E>)
      requires Valid()
      modifies `batch, `dispatchPending, `hasPending
      ensures Valid() && (Guarded(), local) == old(Guarded()).Drain()
      ensures local == old(batch) && batch == [] && !dispatchPending && !hasPending
    {
      hide RingHolds, Capped, Recorded;
      local, batch := batch, [];
      dispatchPending := false;
      hasPending := false;
    }

    /** `get_timeout_ms`: a worker that sleeps this long wakes up when the idle time has expired,
        and not a whole millisecond late. It waits for ever exactly when nothing is pending. */
    method GetTimeoutMs(now: nat) returns (ms: nat)
      requires Valid() && (hasPending ==> firstPush <= now)
      ensures ms == 0xFFFF_FFFF <==> !HasPending()
      ensures ms <= INFINITE
      ensures HasPending() ==> (ms == 0 <==> IdleExpired(now))
      ensures HasPending() && ms < INFINITE - 1 ==> IdleExpired(now + 1000 * ms)
      ensures HasPending() && ms > 0 ==> !IdleExpired(now + 1000 * (ms - 1))
    {
      if !hasPending || batch == [] { return INFINITE; }
      var elapsedMs := (now - firstPush) / 1000;
      var remaining := EffectiveIdleMs() - elapsedMs;
      if remaining <= 0 { return 0; }
      ms := if remaining > INFINITE - 1 then INFINITE - 1 else remaining;
      Later(now - firstPush, ms);
      Later(now - firstPush, ms - 1);
    }

    lemma Later(us: nat, ms: nat)
      ensures (us + 1000 * ms) / 1000 == us / 1000 + ms
    {
    }
  }
}
