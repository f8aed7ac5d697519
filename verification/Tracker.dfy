/** The memory tracker (src/utils/yuyuko_memlife.hpp): the books of live and released blocks,
    their ordered address indexes, and the checksum snapshots of live blocks. */
module Tracker {
  import opened Crc32c
  import opened Options
  import opened Snapshots

  datatype Source = OperatorNew | StdMalloc

  datatype Soul = Soul(size: nat, source: Source)

  datatype Checkpoint = Checkpoint(crcs: seq<bv32>, chunkSize: nat)

  // ------------------------------------------------------------------ the address index

  /** The largest key not above p: what stepping back from `upper_bound(p)` finds. */
  function Predecessor(keys: set<nat>, p: nat): (r: Option<nat>)
    ensures r.None? ==> forall k :: k in keys ==> k > p
    ensures r.Some? ==> r.value in keys && r.value <= p && forall k :: k in keys && k <= p ==> k <= r.value
    decreases p
  {
    if p in keys then Some(p) else if p == 0 then None else Predecessor(keys, p - 1)
  }

  predicate Contains(start: nat, s: Soul, from: nat, to: nat) {
    start <= from && to <= start + s.size
  }

  /** No block reaches beyond the start of a later one. */
  predicate Apart(blocks: map<nat, Soul>) {
    forall a, b :: a in blocks && b in blocks && a < b ==> a + blocks[a].size <= b
  }

  const ADDRESS_SPACE: nat := 0x1_0000_0000_0000_0000

  /** One half of `find_containing_soul`. */
  function Lookup(index: set<nat>, blocks: map<nat, Soul>, from: nat, to: nat): Option<nat> {
    match Predecessor(index, from)
    case None => None
    case Some(start) =>
      if start in blocks && Contains(start, blocks[start], from, to) then Some(start) else None
  }

  /** With blocks apart from each other the predecessor lookup finds a block around [from, to)
      exactly when a scan of all blocks does. */
  lemma LookupIsScan(blocks: map<nat, Soul>, from: nat, to: nat)
    requires Apart(blocks) && from <= to
    ensures var r := Lookup(blocks.Keys, blocks, from, to);
            && (r.Some? <==> exists a :: a in blocks && Contains(a, blocks[a], from, to))
            && (r.Some? ==> r.value in blocks && Contains(r.value, blocks[r.value], from, to))
  {
    if a :| a in blocks && Contains(a, blocks[a], from, to) {
      assert a in blocks.Keys;
      var p := Predecessor(blocks.Keys, from);
      assert p.Some?;
      if a != p.value { assert a + blocks[a].size <= p.value; }
    }
  }

  /** What the live half of `check_bounds` answers. The end of the range is a 64-bit sum. */
  function LiveAnswer(alive: map<nat, Soul>, ptr: nat, size: nat): bool {
    var end := (ptr + size) % ADDRESS_SPACE;
    if ptr in alive then end <= ptr + alive[ptr].size else Lookup(alive.Keys, alive, ptr, end).Some?
  }

  predicate InLiveBlock(alive: map<nat, Soul>, ptr: nat, size: nat) {
    exists a :: a in alive && Contains(a, alive[a], ptr, ptr + size)
  }

  /** No block reaches the end of the address space. */
  predicate BlocksFit(alive: map<nat, Soul>) {
    forall a :: a in alive ==> a + alive[a].size < ADDRESS_SPACE
  }

  /** The answer is right, for live blocks apart, if and only if the end does not wrap, or no live
      block starts at or below the pointer, or the last one that does ends before the wrapped end. */
  lemma LiveAnswerRightIff(alive: map<nat, Soul>, ptr: nat, size: nat)
    requires Apart(alive) && BlocksFit(alive) && ptr < ADDRESS_SPACE && size < ADDRESS_SPACE
    ensures (LiveAnswer(alive, ptr, size) <==> InLiveBlock(alive, ptr, size)) <==>
              || ptr + size < ADDRESS_SPACE
              || (match Predecessor(alive.Keys, ptr)
                  case None => true
                  case Some(a) => a in alive && a + alive[a].size < ptr + size - ADDRESS_SPACE)
  {
    LookupIsScan(alive, ptr, ptr + size);
    var p := Predecessor(alive.Keys, ptr);
    if ptr in alive {
      assert ptr in alive.Keys && p == Some(ptr);
    }
    if ptr + size < ADDRESS_SPACE {
      assert (ptr + size) % ADDRESS_SPACE == ptr + size;
      if ptr in alive {
        assert Lookup(alive.Keys, alive, ptr, ptr + size).Some? <==> ptr + size <= ptr + alive[ptr].size;
      }
    } else {
      assert (ptr + size) % ADDRESS_SPACE == ptr + size - ADDRESS_SPACE;
      assert !InLiveBlock(alive, ptr, size);
    }
  }

  /** The whole answer; behind a live block the released table is asked too. */
  function BoundsAnswer(b: Book, ptr: nat, size: nat): bool {
    || ptr == 0 || LiveAnswer(b.alive, ptr, size)
    || (ptr !in b.alive && Lookup(b.releasedRange, b.released, ptr, (ptr + size) % ADDRESS_SPACE).Some?)
  }

  /** With nothing released that is all there is to the answer. */
  lemma BoundsRightIff(b: Book, ptr: nat, size: nat)
    requires Consistent(b) && b.released == map[] && Apart(b.alive) && BlocksFit(b.alive)
    requires 0 < ptr < ADDRESS_SPACE && size < ADDRESS_SPACE
    ensures (BoundsAnswer(b, ptr, size) <==> InLiveBlock(b.alive, ptr, size)) <==>
              || ptr + size < ADDRESS_SPACE
              || (match Predecessor(b.alive.Keys, ptr)
                  case None => true
                  case Some(a) => a in b.alive && a + b.alive[a].size < ptr + size - ADDRESS_SPACE)
  {
    hide LiveAnswer, InLiveBlock, Apart, BlocksFit;
    LiveAnswerRightIff(b.alive, ptr, size);
    assert b.releasedRange == {};
  }

  // ------------------------------------------------------------------ histories

  datatype Event =
    | Register(ptr: nat, size: nat, source: Source)
    | Release(ptr: nat, source: Source)
    | MarkPermanent(ptr: nat)

  /** The three tables and the two indexes. */
  datatype Book = Book(alive: map<nat, Soul>, released: map<nat, Soul>, permanent: set<nat>,
                       aliveRange: set<nat>, releasedRange: set<nat>)

  const EMPTY := Book(map[], map[], {}, {}, {})

  /** A release takes effect on a live block that the same allocator registered. */
  predicate Accepts(b: Book, ptr: nat, source: Source) {
    ptr != 0 && ptr !in b.released && ptr in b.alive && b.alive[ptr].source == source
  }

  function Apply(b: Book, e: Event): Book {
    match e
    case Register(ptr, size, source) =>
      Book(b.alive[ptr := Soul(size, source)], b.released - {ptr}, b.permanent - {ptr},
           b.aliveRange + {ptr}, b.releasedRange - (if ptr in b.released then {ptr} else {}))
    case Release(ptr, source) =>
      if !Accepts(b, ptr, source) then b
      else Book(b.alive - {ptr}, b.released[ptr := b.alive[ptr]], b.permanent,
                b.aliveRange - {ptr}, b.releasedRange + {ptr})
    case MarkPermanent(ptr) =>
      if ptr != 0 && ptr in b.alive then b.(permanent := b.permanent + {ptr}) else b
  }

  function After(history: seq<Event>): Book {
    if history == [] then EMPTY else Apply(After(history[..|history| - 1]), history[|history| - 1])
  }

  /** The indexes are the key sets of the maps, and no block is both alive and released. */
  predicate Consistent(b: Book) {
    b.aliveRange == b.alive.Keys && b.releasedRange == b.released.Keys && b.alive.Keys !! b.released.Keys
  }

  lemma ApplyKeepsConsistent(b: Book, e: Event)
    requires Consistent(b)
    ensures Consistent(Apply(b, e))
  {
  }

  lemma {:induction false} AlwaysConsistent(history: seq<Event>)
    ensures Consistent(After(history))
    decreases |history|
  {
    if history != [] {
      AlwaysConsistent(history[..|history| - 1]);
      ApplyKeepsConsistent(After(history[..|history| - 1]), history[|history| - 1]);
    }
  }

  /** The registration in force for ptr: the latest one not followed by an accepted release. It
      is read off the events alone, without the tables. */
  function InForce(history: seq<Event>, ptr: nat): Option<Soul> {
    if history == [] then None
    else
      var e, earlier := history[|history| - 1], InForce(history[..|history| - 1], ptr);
      match e
      case Register(p, size, source) => if p == ptr then Some(Soul(size, source)) else earlier
      case Release(p, source) =>
        if p == ptr && ptr != 0 && earlier.Some? && earlier.value.source == source then None else earlier
      case MarkPermanent(_) => earlier
  }

  /** A block is alive exactly while a registration is in force, with that size and allocator;
      so a release is accepted exactly when the latest accepted event for the pointer is a
      registration by the same allocator, and the pointer is not null. */
  lemma {:induction false} AliveIsInForce(history: seq<Event>, ptr: nat, source: Source)
    ensures InForce(history, ptr) == if ptr in After(history).alive then Some(After(history).alive[ptr]) else None
    ensures Accepts(After(history), ptr, source) <==>
              ptr != 0 && InForce(history, ptr).Some? && InForce(history, ptr).value.source == source
    decreases |history|
  {
    AlwaysConsistent(history);
    if history != [] {
      AliveIsInForce(history[..|history| - 1], ptr, source);
      AlwaysConsistent(history[..|history| - 1]);
    }
  }

  /** What was last released at ptr, if nothing has been registered there since; read off the events. */
  function LastReleased(history: seq<Event>, ptr: nat): Option<Soul> {
    if history == [] then None
    else
      var e, before := history[|history| - 1], history[..|history| - 1];
      match e
      case Register(p, _, _) => if p == ptr then None else LastReleased(before, ptr)
      case Release(p, source) =>
        if p == ptr && InForce(before, ptr).Some? && InForce(history, ptr).None? then InForce(before, ptr)
        else LastReleased(before, ptr)
      case MarkPermanent(_) => LastReleased(before, ptr)
  }

  /** Whether the block was marked permanent since it was registered; a release keeps the mark. */
  predicate Marked(history: seq<Event>, ptr: nat) {
    if history == [] then false
    else
      var e, before := history[|history| - 1], history[..|history| - 1];
      match e
      case Register(p, _, _) => p != ptr && Marked(before, ptr)
      case MarkPermanent(p) => (p == ptr && ptr != 0 && InForce(before, ptr).Some?) || Marked(before, ptr)
      case Release(_, _) => Marked(before, ptr)
  }

  /** The released table is what the events say, ... */
  lemma {:induction false} ReleasedIsLast(history: seq<Event>, ptr: nat)
    ensures LastReleased(history, ptr) ==
              if ptr in After(history).released then Some(After(history).released[ptr]) else None
    decreases |history|
  {
    if history != [] {
      var before := history[..|history| - 1];
      ReleasedIsLast(before, ptr);
      AlwaysConsistent(before);
      AliveIsInForce(before, ptr, OperatorNew);
      AliveIsInForce(history, ptr, OperatorNew);
      AfterLast(history);
      hide After, InForce;
    }
  }

  /** ... and so are the marks. */
  lemma {:induction false} MarkedIsPermanent(history: seq<Event>, ptr: nat)
    ensures Marked(history, ptr) <==> ptr in After(history).permanent
    decreases |history|
  {
    if history != [] {
      var before := history[..|history| - 1];
      MarkedIsPermanent(before, ptr);
      AliveIsInForce(before, ptr, OperatorNew);
      AfterLast(history);
      hide After, InForce;
    }
  }

  lemma AfterLast(history: seq<Event>)
    requires history != []
    ensures After(history) == Apply(After(history[..|history| - 1]), history[|history| - 1])
  {
  }

  /** Registering a block and releasing it through the same allocator leaves it released, and a
      second release of it changes nothing. */
  lemma ReleaseTwice(b: Book, ptr: nat, size: nat, source: Source, other: Source)
    requires Consistent(b) && ptr != 0
    ensures var once := Apply(Apply(b, Register(ptr, size, source)), Release(ptr, source));
            && ptr in once.released && ptr !in once.alive
            && !Accepts(once, ptr, other) && Apply(once, Release(ptr, other)) == once
  {
  }

  // ------------------------------------------------------------------ snapshots of a block

  /** The data match the snapshot when cut by chunkSize. */
  predicate Intact(cp: Checkpoint, chunkSize: nat, data: seq<Octet>) {
    Chunked(data, Effective(chunkSize)) == cp.crcs
  }

  function ChunkSizeUsed(cp: Checkpoint, chunkSize: nat): nat {
    if cp.chunkSize != 0 then cp.chunkSize else chunkSize
  }

  predicate FirstMismatch(now: seq<bv32>, was: seq<bv32>, i: nat)
    requires |now| == |was|
  {
    i < |now| && now[i] != was[i] && forall j :: 0 <= j < i ==> now[j] == was[j]
  }

  /** The snapshot `mem_snapshot_ex` takes. */
  function Taken(data: seq<Octet>, chunkSize: nat): Checkpoint {
    Checkpoint(Chunked(data, Effective(chunkSize)), chunkSize)
  }

  /** Corruption confined to four adjacent bytes never passes `mem_verify`, nor `mem_check_ex` when
      that uses the snapshot's own chunk size, or one chunk of either size covers the block, or the
      two sizes make different numbers of chunks. With the snapshot's own chunk size the chunk
      reported holds a corrupted byte. */
  lemma BurstNeverPasses(before: seq<Octet>, after: seq<Octet>, chunkSize: nat, checkSize: nat, at: nat, i: nat)
    requires DifferInBurst(before, after, at)
    ensures var cs, cp := Effective(chunkSize), Taken(before, chunkSize);
            var used := Effective(ChunkSizeUsed(cp, checkSize));
            && !Intact(cp, chunkSize, after)
            && |Chunked(after, cs)| == |cp.crcs|
            && (FirstMismatch(Chunked(after, cs), cp.crcs, i) ==>
                  exists k :: Start(i, cs) <= k < Start(i, cs) + cs && k < |before| && before[k] != after[k])
            && (|| used == cs || (|after| <= used && |after| <= cs)
                || (|after| + used - 1) / used != (|after| + cs - 1) / cs
                ==> !Intact(cp, ChunkSizeUsed(cp, checkSize), after))
  {
    hide Chunked, Start, Crc;
    var cs := Effective(chunkSize);
    var used := Effective(ChunkSizeUsed(Taken(before, chunkSize), checkSize));
    BurstChangesChunks(before, after, cs, at);
    SameChunkCount(before, after, cs);
    if i < |Chunked(after, cs)| && Chunked(after, cs)[i] != Chunked(before, cs)[i] {
      ChangedChunk(before, after, cs, i);
    }
    ChunkCount(before, cs);
    ChunkCount(after, used);
    if |after| <= used && |after| <= cs {
      OneChunk(before, cs);
      OneChunk(after, cs);
      OneChunk(after, used);
    }
  }

  /** Otherwise a corruption can pass: a block whose first 4096 bytes are four 0xFF and zeros,
      snapshot with chunk size 0, passes the check under chunk size 4092 after its bytes 4092 to
      4095 have been overwritten, whatever follows them. */
  lemma CorruptionCanPass(tail: seq<Octet>)
    requires 0 < |tail| <= 4088
    ensures var before, after := ZEROING + Zeros(4088) + Zeros(4) + tail, ZEROING + Zeros(4088) + NEUTRAL + tail;
            && DifferInBurst(before, after, 4092)
            && Intact(Taken(before, 0), ChunkSizeUsed(Taken(before, 0), 4092), after)
  {
    hide Crc, Chunked;
    var lead := ZEROING + Zeros(4088);
    var before, after := lead + Zeros(4) + tail, lead + NEUTRAL + tail;
    assert before[4092] != after[4092];
    TwoChunks(before, 4096);
    TwoChunks(after, 4092);
    assert before[..4096] == ZEROING + Zeros(4092) && before[4096..] == tail;
    assert after[..4092] == lead && after[4092..] == NEUTRAL + tail;
    ZeroChecksum(4092);
    ZeroChecksum(4088);
    NeutralFront(tail);
  }

  function Zeros(n: nat): (z: seq<Octet>)
    ensures |z| == n && forall i :: 0 <= i < n ==> z[i] == 0
  {
    seq(n, _ => 0)
  }

  lemma TwoChunks(data: seq<Octet>, cs: nat)
    requires 0 < cs < |data| <= 2 * cs
    ensures Chunked(data, cs) == [Crc(data[..cs]), Crc(data[cs..])]
  {
    hide Crc;
    OneChunk(data[cs..], cs);
  }

  lemma ZeroChecksum(n: nat)
    ensures Crc(ZEROING + Zeros(n)) == 0
  {
    UpdateConcat(0xFFFF_FFFF, ZEROING, Zeros(n));
    ZeroingZeroes();
    ZerosKeepZero(n);
  }

  lemma NeutralFront(tail: seq<Octet>)
    ensures Crc(NEUTRAL + tail) == Crc(tail)
  {
    UpdateConcat(0xFFFF_FFFF, NEUTRAL, tail);
    NeutralIsNeutral();
  }

  /** An unchanged block passes `mem_verify`. It passes `mem_check_ex` too, unless the snapshot
      was taken with chunk size 0 and the check names another size: then it passes if one chunk
      of either size covers the block, and fails if the two sizes make different numbers of
      chunks. (Otherwise it depends on the content; see AlwaysPassesIff.) */
  lemma UnchangedBlock(data: seq<Octet>, chunkSize: nat, checkSize: nat)
    ensures var cp := Taken(data, chunkSize);
            var own, used := Effective(chunkSize), Effective(ChunkSizeUsed(cp, checkSize));
            && Intact(cp, chunkSize, data)
            && (used == own || (|data| <= used && |data| <= own) ==> Intact(cp, ChunkSizeUsed(cp, checkSize), data))
            && ((|data| + used - 1) / used != (|data| + own - 1) / own ==>
                  !Intact(cp, ChunkSizeUsed(cp, checkSize), data))
  {
    hide Crc, Start, Chunked;
    var own, used := Effective(chunkSize), Effective(ChunkSizeUsed(Taken(data, chunkSize), checkSize));
    ChunkCount(data, own);
    ChunkCount(data, used);
    if data != [] && |data| <= used && |data| <= own {
      OneChunk(data, used);
      OneChunk(data, own);
    } else if data == [] {
      NoChunks(data, used);
      NoChunks(data, own);
    }
  }

  /** Whether `mem_check_ex` passes unchanged blocks of a given size for certain: if and only if it
      uses the snapshot's own chunk size, or one chunk of either size covers the block. In every
      other case some content of that size fails although nothing has changed. */
  lemma AlwaysPassesIff(size: nat, chunkSize: nat, checkSize: nat)
    ensures var own, used := Effective(chunkSize), Effective(if chunkSize != 0 then chunkSize else checkSize);
            (forall data: seq<Octet> :: |data| == size ==> Passes(data, chunkSize, checkSize))
            <==> used == own || (size <= used && size <= own)
  {
    var own, used := Effective(chunkSize), Effective(if chunkSize != 0 then chunkSize else checkSize);
    if used == own || (size <= used && size <= own) {
      forall data: seq<Octet> | |data| == size ensures Passes(data, chunkSize, checkSize) {
        UnchangedBlock(data, chunkSize, checkSize);
      }
    } else {
      var data := FailingBlock(size, own, used);
      hide Chunked;
      assert !Passes(data, chunkSize, checkSize);
    }
  }

  /** An unchanged block passes the check. */
  predicate Passes(data: seq<Octet>, chunkSize: nat, checkSize: nat) {
    var cp := Taken(data, chunkSize);
    Intact(cp, ChunkSizeUsed(cp, checkSize), data)
  }

  /** Of two contents that differ only behind the shorter first chunk, one is cut into chunks whose
      first checksums differ. */
  lemma FailingBlock(size: nat, own: nat, used: nat) returns (data: seq<Octet>)
    requires own > 0 && used > 0 && own != used && (size > own || size > used)
    ensures |data| == size && Chunked(data, own) != Chunked(data, used)
  {
    hide Crc, Start, Chunked;
    var a := if own < used then own else used;
    var b := Min(if own < used then used else own, size);
    data := seq(size, _ => 0);
    var other := data[a := 1];
    if Crc(data[..a]) == Crc(data[..b]) {
      assert other[..a] == data[..a];
      assert DifferInBurst(data[..b], other[..b], a) by { assert data[..b][a] != other[..b][a]; }
      BurstInCrc(data[..b], other[..b], a);
      data := other;
    }
    FirstChecksum(data, own);
    FirstChecksum(data, used);
  }

  lemma BurstInCrc(p: seq<Octet>, q: seq<Octet>, at: nat)
    requires DifferInBurst(p, q, at)
    ensures Crc(p) != Crc(q)
  {
    hide Update;
    BurstDetected(0xFFFF_FFFF, p, q, at);
  }

  lemma FirstChecksum(data: seq<Octet>, cs: nat)
    requires cs > 0 && data != []
    ensures Chunked(data, cs) != [] && Chunked(data, cs)[0] == Crc(data[..Min(cs, |data|)])
  {
    hide Crc;
  }

  lemma OneChunk(data: seq<Octet>, cs: nat)
    requires data != [] && |data| <= cs
    ensures Chunked(data, cs) == [Crc(data)]
  {
    hide Crc;
    assert data[..|data|] == data && data[|data|..] == [];
  }

  /** A snapshot kept up to date by `mem_snapshot_update` is the snapshot of the new content. */
  lemma UpdateKeepsSnapshot(before: seq<Octet>, after: seq<Octet>, chunkSize: nat, offset: nat, len: nat)
    requires SameOutside(before, after, offset, len)
    requires offset + len + Effective(chunkSize) - 1 < 0x1_0000_0000_0000_0000
    ensures var cs, cp := Effective(chunkSize), Taken(before, chunkSize);
            cp.(crcs := Refreshed(cp.crcs, after, cs, FirstChunk(offset, cs), LastChunk(offset, len, cs)))
            == Taken(after, chunkSize)
  {
    IncrementalIsFull(before, after, Effective(chunkSize), offset, len);
  }

  // ------------------------------------------------------------------ the tracker

  class SoulBook {
    var alive: map<nat, Soul>
    var released: map<nat, Soul>
    var permanent: set<nat>
    var aliveRange: set<nat>
    var releasedRange: set<nat>
    var checkpoints: map<nat, Checkpoint>

    constructor ()
      ensures View() == EMPTY && checkpoints == map[] && Valid()
    {
      alive, released, permanent := map[], map[], {};
      aliveRange, releasedRange, checkpoints := {}, {}, map[];
    }

    function View(): Book
      reads this
    {
      Book(alive, released, permanent, aliveRange, releasedRange)
    }

    predicate Valid()
      reads this
    {
      Consistent(View())
    }

    /** `register_soul_impl`. */
    method RegisterSoul(ptr: nat, size: nat, source: Source)
      requires Valid()
      modifies this
      ensures Valid() && View() == Apply(old(View()), Event.Register(ptr, size, source))
      ensures unchanged(`checkpoints)
    {
      if ptr in released {
        releasedRange := releasedRange - {ptr};
        released := released - {ptr};
      }
      permanent := permanent - {ptr};
      alive := alive[ptr := Soul(size, source)];
      aliveRange := aliveRange + {ptr};
    }

    /** `release_soul_impl`: whether the caller may free the memory. */
    method ReleaseSoul(ptr: nat, source: Source) returns (ok: bool)
      requires Valid()
      modifies this
      ensures Valid() && View() == Apply(old(View()), Event.Release(ptr, source))
      ensures ok == Accepts(old(View()), ptr, source)
      ensures unchanged(`checkpoints)
    {
      if ptr == 0 { return false; }
      if ptr in released { return false; }
      if ptr !in alive { return false; }
      var s := alive[ptr];
      if s.source != source { return false; }
      released := released[ptr := s];
      alive := alive - {ptr};
      aliveRange := aliveRange - {ptr};
      releasedRange := releasedRange + {ptr};
      ok := true;
    }

    /** `check_bounds`. */
    method CheckBounds(ptr: nat, size: nat) returns (ok: bool)
      requires Valid()
      ensures ok == BoundsAnswer(View(), ptr, size) && (ptr == 0 ==> ok)
      ensures ptr != 0 && Apart(alive) && ptr + size < 0x1_0000_0000_0000_0000 ==>
                (ok <==> || InLiveBlock(alive, ptr, size)
                         || (ptr !in alive && Lookup(releasedRange, released, ptr, ptr + size).Some?))
    {
      if ptr == 0 { return true; }
      if Apart(alive) { LookupIsScan(alive, ptr, ptr + size); }
      var end := (ptr + size) % ADDRESS_SPACE;
      if ptr in alive {
        return end <= ptr + alive[ptr].size;
      }
      var s := Lookup(aliveRange, alive, ptr, end);
      if s.None? { s := Lookup(releasedRange, released, ptr, end); }
      ok := s.Some?;
    }

    /** `mem_snapshot_ex`; data are the bytes at ptr. */
    method Snapshot(ptr: nat, chunkSize: nat, data: seq<Octet>)
      requires ptr in alive ==> |data| == alive[ptr].size
      modifies `checkpoints
      ensures checkpoints == if ptr != 0 && ptr in alive
                             then old(checkpoints)[ptr := Checkpoint(Chunked(data, Effective(chunkSize)), chunkSize)]
                             else old(checkpoints)
    {
      if ptr == 0 || ptr !in alive { return; }
      var crcs := CrcChunked(data, chunkSize);
      checkpoints := checkpoints[ptr := Checkpoint(crcs, chunkSize)];
    }

    predicate Updatable(ptr: nat, offset: nat, len: nat)
      reads this
    {
      && ptr != 0 && len != 0 && ptr in alive && offset < alive[ptr].size && ptr in checkpoints
      && FirstChunk(offset, Effective(checkpoints[ptr].chunkSize)) < |checkpoints[ptr].crcs|
    }

    /** `mem_snapshot_update`. A snapshot is not erased with its block, so one of an earlier, larger
        block at the address may be refreshed. Where a refreshed chunk starts beyond the present
        block the length the code computes is below zero, and what it then does is undefined. */
    method SnapshotUpdate(ptr: nat, offset: nat, len: nat, data: seq<Octet>) returns (ok: bool, undefined: bool)
      requires ptr in alive ==> |data| == alive[ptr].size
      modifies `checkpoints
      ensures undefined == (old(Updatable(ptr, offset, len)) && !old(UpdateFits(ptr, offset, len)))
      ensures !undefined ==> ok == old(Updatable(ptr, offset, len))
      ensures !ok && !undefined ==> checkpoints == old(checkpoints)
      ensures ok && !undefined ==>
                var cp := old(checkpoints)[ptr];
                var cs := Effective(cp.chunkSize);
                checkpoints == old(checkpoints)[ptr := cp.(crcs :=
                  Refreshed(cp.crcs, data, cs, FirstChunk(offset, cs), LastChunk(offset, len, cs)))]
    {
      undefined := false;
      if ptr == 0 || len == 0 { return false, false; }
      if ptr !in alive { return false, false; }
      var sz := alive[ptr].size;
      if offset >= sz { return false, false; }
      if ptr !in checkpoints { return false, false; }
      var cp := checkpoints[ptr];
      var cs := if cp.chunkSize != 0 then cp.chunkSize else CRC_CHUNK_SIZE;
      if cp.crcs == [] { return false, false; }
      hide Refreshed, Start, FirstChunk, LastChunk;
      assert cs == Effective(cp.chunkSize);
      var chunkStart := FirstChunk(offset, cs);
      var chunkEnd := LastChunk(offset, len, cs);
      RefreshedCapped(cp.crcs, data, cs, chunkStart, chunkEnd);
      if chunkEnd > |cp.crcs| { chunkEnd := |cp.crcs|; }
      if chunkStart >= |cp.crcs| { return false, false; }
      var crcs;
      crcs, undefined := RefreshLoop(cp.crcs, data, cs, chunkStart, chunkEnd);
      if undefined { return true, true; }
      checkpoints := checkpoints[ptr := cp.(crcs := crcs)];
      ok := true;
    }

    predicate UpdateFits(ptr: nat, offset: nat, len: nat)
      requires Updatable(ptr, offset, len)
      reads this
    {
      var cp := checkpoints[ptr];
      RefreshFits(offset, len, Effective(cp.chunkSize), |cp.crcs|, alive[ptr].size)
    }

    /** `mem_verify`. */
    method Verify(ptr: nat, data: seq<Octet>) returns (ok: bool)
      requires ptr in alive ==> |data| == alive[ptr].size
      ensures ok <==> ptr == 0 || (ptr in alive && (ptr in checkpoints ==>
                        Intact(checkpoints[ptr], checkpoints[ptr].chunkSize, data)))
    {
      if ptr == 0 { return true; }
      if ptr !in alive { return false; }
      if ptr !in checkpoints { return true; }
      var cp := checkpoints[ptr];
      var cs := if cp.chunkSize != 0 then cp.chunkSize else CRC_CHUNK_SIZE;
      var now := CrcChunked(data, cs);
      ok := now == cp.crcs;
    }

    /** `mem_check_ex`: also which chunk is the first that does not match. A snapshot that was
        taken with chunk size 0 is compared under the chunk size of this call. */
    method Check(ptr: nat, chunkSize: nat, data: seq<Octet>) returns (ok: bool, corrupt: Option<nat>)
      requires ptr in alive ==> |data| == alive[ptr].size
      ensures ok <==> ptr == 0 || (ptr in alive && ptr in checkpoints &&
                        Intact(checkpoints[ptr], ChunkSizeUsed(checkpoints[ptr], chunkSize), data))
      ensures corrupt.Some? ==>
                && !ok && ptr in checkpoints
                && var cp := checkpoints[ptr];
                   var now := Chunked(data, Effective(ChunkSizeUsed(checkpoints[ptr], chunkSize)));
                   |now| == |cp.crcs| && FirstMismatch(now, cp.crcs, corrupt.value)
      ensures !ok && ptr in alive && ptr in checkpoints && corrupt.None? ==>
                |Chunked(data, Effective(ChunkSizeUsed(checkpoints[ptr], chunkSize)))| != |checkpoints[ptr].crcs|
    {
      if ptr == 0 { return true, None; }
      if ptr !in alive { return false, None; }
      if ptr !in checkpoints { return false, None; }
      hide Chunked;
      var was := checkpoints[ptr].crcs;
      var cs := if checkpoints[ptr].chunkSize != 0 then checkpoints[ptr].chunkSize else chunkSize;
      var now := CrcChunked(data, cs);
      if |now| != |was| { return false, None; }
      for i := 0 to |now|
        invariant forall j :: 0 <= j < i ==> now[j] == was[j]
      {
        if now[i] != was[i] { return false, Some(i); }
      }
      ok, corrupt := true, None;
    }

    static method RefreshLoop(crcs0: seq<bv32>, data: seq<Octet>, cs: nat, chunkStart: nat, chunkEnd: nat)
      returns (crcs: seq<bv32>, undefined: bool)
      requires cs > 0 && chunkEnd <= |crcs0|
      ensures undefined <==> exists i :: chunkStart <= i < chunkEnd && Start(i, cs) > |data|
      ensures !undefined ==> crcs == Refreshed(crcs0, data, cs, chunkStart, chunkEnd)
    {
      hide Crc32c.Update, Start;
      crcs, undefined := crcs0, false;
      var i := chunkStart;
      while i < chunkEnd
        invariant chunkStart <= i && (i <= chunkEnd || i == chunkStart)
        invariant crcs == Refreshed(crcs0, data, cs, chunkStart, i)
        invariant forall j :: chunkStart <= j < i ==> Start(j, cs) <= |data|
      {
        var off := Start(i, cs);
        if off > |data| { return crcs, true; }
        var len := if off + cs <= |data| then cs else |data| - off;
        var c := UpdateByTable(0xFFFF_FFFF, data[off..off + len]);
        crcs := crcs[i := c];
        i := i + 1;
      }
    }
  }
}
