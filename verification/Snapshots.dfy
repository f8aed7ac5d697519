/** Chunked checksums of a block and their incremental update
    (src/utils/yuyuko_memlife.hpp, crc32_chunked and the functions built on it). */
module Snapshots {
  import opened Crc32c

  const CRC_CHUNK_SIZE: nat := 4096

  function Crc(data: seq<Octet>): bv32 {
    Update(0xFFFF_FFFF, data)
  }

  function Min(a: nat, b: nat): nat {
    if a <= b then a else b
  }

  /** A chunk size of 0 stands for the default. */
  function Effective(chunkSize: nat): (cs: nat)
    ensures cs > 0
  {
    if chunkSize == 0 then CRC_CHUNK_SIZE else chunkSize
  }

  /** One checksum per chunk; the last chunk may be partial. */
  function Chunked(data: seq<Octet>, cs: nat): seq<bv32>
    requires cs > 0
  {
    if data == [] then []
    else [Crc(data[..Min(cs, |data|)])] + Chunked(data[Min(cs, |data|)..], cs)
  }

  /** Where chunk i starts. */
  function Start(i: nat, cs: nat): nat {
    i * cs
  }

  lemma NextStart(i: nat, cs: nat)
    ensures Start(i + 1, cs) == Start(i, cs) + cs && Start(0, cs) == 0
  {
  }

  /** The i-th chunk. */
  function ChunkOf(data: seq<Octet>, cs: nat, i: nat): seq<Octet>
    requires Start(i, cs) <= |data|
  {
    data[Start(i, cs)..Min(Start(i, cs) + cs, |data|)]
  }

  /** There are more than i chunks exactly when chunk i starts inside the block. */
  lemma {:induction false} ChunkedAt(data: seq<Octet>, cs: nat, i: nat)
    requires cs > 0
    ensures i < |Chunked(data, cs)| <==> Start(i, cs) < |data|
    ensures i < |Chunked(data, cs)| ==> Chunked(data, cs)[i] == Crc(ChunkOf(data, cs, i))
    decreases |data|
  {
    hide Crc, Start;
    NextStart(0, cs);
    if data != [] && i > 0 {
      var rest := data[Min(cs, |data|)..];
      NextStart(i - 1, cs);
      ChunkedAt(rest, cs, i - 1);
      if Start(i - 1, cs) < |rest| {
        SliceOfTail(data, cs, Start(i - 1, cs), Min(Start(i - 1, cs) + cs, |rest|));
      }
    }
  }

  lemma SliceOfTail(data: seq<Octet>, n: nat, x: nat, y: nat)
    requires n <= |data| && x <= y <= |data| - n
    ensures data[n..][x..y] == data[n + x..n + y]
  {
  }

  lemma SameChunkCount(a: seq<Octet>, b: seq<Octet>, cs: nat)
    requires cs > 0 && |a| == |b|
    ensures |Chunked(a, cs)| == |Chunked(b, cs)|
  {
    hide Chunked, Start;
    ChunkedAt(a, cs, |Chunked(a, cs)|);
    ChunkedAt(b, cs, |Chunked(a, cs)|);
    ChunkedAt(a, cs, |Chunked(b, cs)|);
    ChunkedAt(b, cs, |Chunked(b, cs)|);
  }

  /** `crc32_chunked`. */
  method CrcChunked(data: seq<Octet>, chunkSize: nat) returns (crcs: seq<bv32>)
    ensures crcs == Chunked(data, Effective(chunkSize))
  {
    hide Chunked, Update;
    var cs := if chunkSize == 0 then CRC_CHUNK_SIZE else chunkSize;
    crcs := [];
    var off := 0;
    NoChunks(data, cs);
    while off < |data|
      invariant Chunked(data, cs) == crcs + Chunked(data[Min(off, |data|)..], cs)
      decreases |data| - off
    {
      var len := if off + cs <= |data| then cs else |data| - off;
      var c := UpdateByTable(0xFFFF_FFFF, data[off..off + len]);
      NextChunk(data, cs, off);
      Prepend(crcs, c, Chunked(data[Min(off + cs, |data|)..], cs));
      crcs := crcs + [c];
      off := off + cs;
    }
  }

  lemma NoChunks(data: seq<Octet>, cs: nat)
    requires cs > 0
    ensures data[0..] == data && Chunked(data[|data|..], cs) == []
  {
  }

  lemma NextChunk(data: seq<Octet>, cs: nat, off: nat)
    requires cs > 0 && off < |data|
    ensures var next := Min(off + cs, |data|);
            Chunked(data[off..], cs) == [Crc(data[off..next])] + Chunked(data[next..], cs)
  {
    var rest := data[off..];
    assert rest[..Min(cs, |rest|)] == data[off..Min(off + cs, |data|)];
    assert rest[Min(cs, |rest|)..] == data[Min(off + cs, |data|)..];
  }

  lemma Prepend(a: seq<bv32>, c: bv32, b: seq<bv32>)
    ensures a + ([c] + b) == (a + [c]) + b
  {
  }

  /** Recompute the checksums of chunks first..last of a stored vector. */
  function Refreshed(crcs: seq<bv32>, data: seq<Octet>, cs: nat, first: nat, last: nat): (r: seq<bv32>)
    ensures |r| == |crcs|
    ensures forall i :: 0 <= i < |r| ==>
              r[i] == if first <= i < last && Start(i, cs) <= |data| then Crc(ChunkOf(data, cs, i)) else crcs[i]
  {
    seq(|crcs|, i requires 0 <= i < |crcs| =>
      if first <= i < last && Start(i, cs) <= |data| then Crc(ChunkOf(data, cs, i)) else crcs[i])
  }

  lemma RefreshedCapped(crcs: seq<bv32>, data: seq<Octet>, cs: nat, first: nat, last: nat)
    ensures Refreshed(crcs, data, cs, first, if last > |crcs| then |crcs| else last)
         == Refreshed(crcs, data, cs, first, last)
  {
    hide Crc, Start;
  }

  /** The chunks `mem_snapshot_update` recomputes for a change of len bytes at offset; the sum is
      a 64-bit one. */
  function FirstChunk(offset: nat, cs: nat): nat
    requires cs > 0
  {
    offset / cs
  }

  function LastChunk(offset: nat, len: nat, cs: nat): nat
    requires cs > 0
  {
    ((offset + len + cs - 1) % 0x1_0000_0000_0000_0000) / cs
  }

  /** No refreshed chunk starts beyond a block of this size; n is the number of stored checksums. */
  predicate RefreshFits(offset: nat, len: nat, cs: nat, n: nat, size: nat)
    requires cs > 0
  {
    forall i :: FirstChunk(offset, cs) <= i < LastChunk(offset, len, cs) && i < n ==> Start(i, cs) <= size
  }

  /** It is met by every range inside the block, whatever snapshot is stored. */
  lemma RangeInsideFits(offset: nat, len: nat, cs: nat, n: nat, size: nat)
    requires cs > 0 && offset + len <= size && offset + len + cs - 1 < 0x1_0000_0000_0000_0000
    ensures RefreshFits(offset, len, cs, n, size)
  {
    hide Start;
    forall i | FirstChunk(offset, cs) <= i < LastChunk(offset, len, cs) && i < n ensures Start(i, cs) <= size {
      DivBound(offset + len + cs - 1, cs, i + 1);
      NextStart(i, cs);
    }
  }

  predicate SameOutside(a: seq<Octet>, b: seq<Octet>, offset: nat, len: nat) {
    && |a| == |b|
    && forall i :: 0 <= i < |a| && !(offset <= i < offset + len) ==> a[i] == b[i]
  }

  /** Refreshing the touched chunks gives the checksums of the whole new content. */
  lemma IncrementalIsFull(before: seq<Octet>, after: seq<Octet>, cs: nat, offset: nat, len: nat)
    requires cs > 0 && offset + len + cs - 1 < 0x1_0000_0000_0000_0000
    requires SameOutside(before, after, offset, len)
    ensures Refreshed(Chunked(before, cs), after, cs, FirstChunk(offset, cs), LastChunk(offset, len, cs))
            == Chunked(after, cs)
  {
    hide Crc, Start, Chunked, FirstChunk, LastChunk;
    SameChunkCount(before, after, cs);
    forall i | 0 <= i < |Chunked(after, cs)|
      ensures Refreshed(Chunked(before, cs), after, cs, FirstChunk(offset, cs), LastChunk(offset, len, cs))[i]
              == Chunked(after, cs)[i]
    {
      ChunkedAt(before, cs, i);
      ChunkedAt(after, cs, i);
      if !(FirstChunk(offset, cs) <= i < LastChunk(offset, len, cs)) {
        Untouched(offset, len, cs, i);
        assert ChunkOf(before, cs, i) == ChunkOf(after, cs, i);
      }
    }
  }

  /** A chunk that is not refreshed lies wholly before or wholly behind the changed range. */
  lemma Untouched(offset: nat, len: nat, cs: nat, i: nat)
    requires cs > 0 && offset + len + cs - 1 < 0x1_0000_0000_0000_0000
    requires !(FirstChunk(offset, cs) <= i < LastChunk(offset, len, cs))
    ensures Start(i, cs) + cs <= offset || offset + len <= Start(i, cs)
  {
    hide Start;
    NextStart(i, cs);
    if i < offset / cs {
      DivBound(offset, cs, i + 1);
    } else {
      DivBound(offset + len + cs - 1, cs, i + 1);
    }
  }

  lemma DivBound(n: nat, cs: nat, k: nat)
    requires cs > 0
    ensures n / cs >= k <==> n >= Start(k, cs)
  {
    assert n == (n / cs) * cs + n % cs;
    if n / cs >= k {
      MulMono(k, n / cs, cs);
    } else {
      MulMono(n / cs + 1, k, cs);
      assert (n / cs + 1) * cs == (n / cs) * cs + cs;
    }
  }

  lemma MulMono(a: int, b: int, c: nat)
    requires a <= b
    ensures a * c <= b * c
  {
  }

  /** One checksum for every started chunk. */
  lemma ChunkCount(data: seq<Octet>, cs: nat)
    requires cs > 0
    ensures |Chunked(data, cs)| == (|data| + cs - 1) / cs
  {
    hide Chunked, Start;
    var n := |Chunked(data, cs)|;
    ChunkedAt(data, cs, n);
    NextStart(n, cs);
    DivBound(|data| + cs - 1, cs, n + 1);
    if n > 0 {
      ChunkedAt(data, cs, n - 1);
      NextStart(n - 1, cs);
      DivBound(|data| + cs - 1, cs, n);
    }
  }

  /** A corruption confined to four adjacent bytes always changes the checksum vector. */
  lemma BurstChangesChunks(before: seq<Octet>, after: seq<Octet>, cs: nat, at: nat)
    requires cs > 0 && DifferInBurst(before, after, at)
    ensures Chunked(before, cs) != Chunked(after, cs)
  {
    hide Update, Chunked, Start;
    var k :| 0 <= k < |before| && before[k] != after[k];
    var i := ChunkHolding(before, cs, k);
    ChunkedAt(before, cs, i);
    ChunkedAt(after, cs, i);
    var start := Start(i, cs);
    var p, q := ChunkOf(before, cs, i), ChunkOf(after, cs, i);
    assert p[k - start] == before[k] && q[k - start] == after[k];
    // Seen from inside the chunk the burst still spans at most four bytes.
    var at' := if at >= start then at - start else 0;
    assert DifferInBurst(p, q, at');
    BurstDetected(0xFFFF_FFFF, p, q, at');
  }

  /** The chunk that byte k lies in. */
  lemma ChunkHolding(data: seq<Octet>, cs: nat, k: nat) returns (i: nat)
    requires cs > 0 && k < |data|
    ensures Start(i, cs) <= k < Start(i, cs) + cs
  {
    i := k / cs;
    DivBound(k, cs, i);
    DivBound(k, cs, i + 1);
    NextStart(i, cs);
  }

  /** Every chunk whose checksum changed holds a changed byte. */
  lemma ChangedChunk(before: seq<Octet>, after: seq<Octet>, cs: nat, i: nat)
    requires cs > 0 && |before| == |after|
    requires i < |Chunked(before, cs)| && i < |Chunked(after, cs)| && Chunked(before, cs)[i] != Chunked(after, cs)[i]
    ensures exists k :: Start(i, cs) <= k < Start(i, cs) + cs && k < |before| && before[k] != after[k]
  {
    hide Crc, Chunked, Start;
    ChunkedAt(before, cs, i);
    ChunkedAt(after, cs, i);
    var p, q := ChunkOf(before, cs, i), ChunkOf(after, cs, i);
    assert p != q && |p| == |q|;
    var j :| 0 <= j < |p| && p[j] != q[j];
    assert before[Start(i, cs) + j] != after[Start(i, cs) + j];
  }

  /** A change of one byte is picked up exactly when its chunk is among the refreshed ones. */
  lemma RefreshPicksUp(before: seq<Octet>, after: seq<Octet>, cs: nat, k: nat, first: nat, last: nat)
    requires cs > 0 && k < |before| == |after| && before[k] != after[k]
    requires forall i :: 0 <= i < |before| && i != k ==> before[i] == after[i]
    ensures Refreshed(Chunked(before, cs), after, cs, first, last) == Chunked(after, cs) <==> first <= k / cs < last
  {
    hide Update, Chunked, Start;
    var c := ChunkHolding(before, cs, k);
    assert c == k / cs by { DivBound(k, cs, c); DivBound(k, cs, c + 1); NextStart(c, cs); }
    SameChunkCount(before, after, cs);
    forall i | 0 <= i < |Chunked(after, cs)|
      ensures Start(i, cs) < |after| && Chunked(after, cs)[i] == Crc(ChunkOf(after, cs, i))
      ensures Chunked(before, cs)[i] == Chunked(after, cs)[i] <==> i != c
    {
      ChunkedAt(before, cs, i);
      ChunkedAt(after, cs, i);
      var p, q := ChunkOf(before, cs, i), ChunkOf(after, cs, i);
      if i != c {
        OtherChunk(cs, k, c, i);
        assert p == q;
      } else {
        var j := k - Start(c, cs);
        assert p[j] == before[k] && q[j] == after[k];
        assert DifferInBurst(p, q, j);
        BurstDetected(0xFFFF_FFFF, p, q, j);
      }
    }
    ChunkedAt(after, cs, c);
  }

  lemma OtherChunk(cs: nat, k: nat, c: nat, i: nat)
    requires Start(c, cs) <= k < Start(c, cs) + cs && i != c
    ensures k < Start(i, cs) || Start(i, cs) + cs <= k
  {
    NextStart(c, cs);
    NextStart(i, cs);
    if i < c { MulMono(i + 1, c, cs); } else { MulMono(c + 1, i, cs); }
  }

  /** Whether an update of this range refreshes the chunk of the last byte it may have changed in a
      block of this size. Only a sum that wraps can make it miss that. */
  predicate ReachesLast(size: nat, offset: nat, len: nat, cs: nat)
    requires cs > 0
  {
    len == 0 || offset >= size || (Min(offset + len, size) - 1) / cs < LastChunk(offset, len, cs)
  }

  /** The incremental update of this range is right for every content of this size. */
  ghost predicate AlwaysFull(size: nat, offset: nat, len: nat, cs: nat)
    requires cs > 0
  {
    forall before, after :: |before| == size && SameOutside(before, after, offset, len) ==>
      FullAfter(before, after, offset, len, cs)
  }

  predicate FullAfter(before: seq<Octet>, after: seq<Octet>, offset: nat, len: nat, cs: nat)
    requires cs > 0
  {
    Refreshed(Chunked(before, cs), after, cs, FirstChunk(offset, cs), LastChunk(offset, len, cs)) == Chunked(after, cs)
  }

  /** Exactly when the incremental update agrees with the full recompute. */
  lemma IncrementalIsFullIff(size: nat, offset: nat, len: nat, cs: nat)
    requires cs > 0
    ensures AlwaysFull(size, offset, len, cs) <==> ReachesLast(size, offset, len, cs)
  {
    hide FullAfter;
    if ReachesLast(size, offset, len, cs) {
      forall before, after | |before| == size && SameOutside(before, after, offset, len)
        ensures FullAfter(before, after, offset, len, cs)
      {
        ReachingIsFull(before, after, cs, offset, len);
      }
    } else {
      var before, after := MissedChange(size, offset, len, cs);
      assert |before| == size && SameOutside(before, after, offset, len);
    }
  }

  lemma ReachingIsFull(before: seq<Octet>, after: seq<Octet>, cs: nat, offset: nat, len: nat)
    requires cs > 0 && SameOutside(before, after, offset, len) && ReachesLast(|before|, offset, len, cs)
    ensures FullAfter(before, after, offset, len, cs)
  {
    hide Crc, Start, Chunked, FirstChunk, LastChunk, ReachesLast;
    SameChunkCount(before, after, cs);
    forall i | 0 <= i < |Chunked(after, cs)|
      ensures Refreshed(Chunked(before, cs), after, cs, FirstChunk(offset, cs), LastChunk(offset, len, cs))[i]
              == Chunked(after, cs)[i]
    {
      ChunkedAt(before, cs, i);
      ChunkedAt(after, cs, i);
      if !(FirstChunk(offset, cs) <= i < LastChunk(offset, len, cs)) {
        UntouchedInside(|before|, offset, len, cs, i);
        assert ChunkOf(before, cs, i) == ChunkOf(after, cs, i);
      }
    }
  }

  /** A chunk that is not refreshed holds none of the bytes that may have changed. */
  lemma UntouchedInside(size: nat, offset: nat, len: nat, cs: nat, i: nat)
    requires cs > 0 && ReachesLast(size, offset, len, cs)
    requires !(FirstChunk(offset, cs) <= i < LastChunk(offset, len, cs))
    ensures len == 0 || offset >= size || Start(i, cs) + cs <= offset || Min(offset + len, size) <= Start(i, cs)
  {
    hide Start;
    NextStart(i, cs);
    if len > 0 && offset < size {
      if i < offset / cs {
        DivBound(offset, cs, i + 1);
      } else {
        DivBound(Min(offset + len, size) - 1, cs, i);
      }
    }
  }

  lemma MissedChange(size: nat, offset: nat, len: nat, cs: nat) returns (before: seq<Octet>, after: seq<Octet>)
    requires cs > 0 && !ReachesLast(size, offset, len, cs)
    ensures |before| == size && SameOutside(before, after, offset, len) && !FullAfter(before, after, offset, len, cs)
  {
    hide Chunked, Refreshed, Crc;
    var k := Min(offset + len, size) - 1;
    before := seq(size, _ => 0);
    after := before[k := 1];
    RefreshPicksUp(before, after, cs, k, FirstChunk(offset, cs), LastChunk(offset, len, cs));
  }

  /** The 64-bit sum can wrap: a range of 2^64 - 1 bytes from offset 1 refreshes nothing, so a
      change of byte 1 inside it is missed. */
  lemma WrappedRangeMisses(before: seq<Octet>, after: seq<Octet>)
    requires 1 < |before| == |after| && before[1] != after[1]
    requires forall i :: 0 <= i < |before| && i != 1 ==> before[i] == after[i]
    ensures var len := 0xFFFF_FFFF_FFFF_FFFF;
            && SameOutside(before, after, 1, len)
            && Refreshed(Chunked(before, 4096), after, 4096, FirstChunk(1, 4096), LastChunk(1, len, 4096))
               != Chunked(after, 4096)
  {
    hide Chunked, Refreshed;
    RefreshPicksUp(before, after, 4096, 1, FirstChunk(1, 4096), LastChunk(1, 0xFFFF_FFFF_FFFF_FFFF, 4096));
  }
}
