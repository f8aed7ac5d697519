/** Positions, reserved ranges and the cached file size of the asynchronous backends
    (src/iocp_context.cpp, src/backends/io_uring_backend.cpp).

    A submission reserves its range at once, under the position lock; the kernel transfers the
    bytes later, in any order. The size used for the reservation is a cache, raised by a write
    as soon as it is submitted. */
module Positions {
  import opened Newlines
  import opened Options
  import opened RawFile

  /** What is handed to the kernel. `advances`: a read at the position, not a positional one. */
  datatype Request =
    | ReadRequest(offset: int, size: nat, advances: bool)
    | WriteRequest(offset: int, data: Bytes)

  /** What a future is resolved with. For `readinto`: the bytes put into the caller's buffer. */
  datatype Answer =
    | Data(bytes: Bytes)
    | Count(n: nat)
    | Position(pos: int)
    | Nothing
    | Failed(error: Error)

  datatype Submitted =
    | Now(answer: Answer)
    | Accepted(request: Request)

  /** How many of the remaining bytes a read of n (negative: all) reserves. */
  function Reserve(rem: int, n: int): (k: nat)
    ensures n >= 0 ==> k <= n
    ensures k == 0 <==> rem <= 0 || n == 0
    ensures rem >= 0 ==> k <= rem
  {
    if rem <= 0 then 0 else if n < 0 || n > rem then rem else n
  }

  /** Both are unsigned 64-bit in the code; here their signed reading, which is what remaining
      sizes are computed with. */
  datatype Cursor = Cursor(pos: int, size: int) {
    function Read(n: int): (Cursor, Submitted) {
      var k := Reserve(size - pos, n);
      if k == 0 then (this, Now(Data([]))) else (this.(pos := pos + k), Accepted(ReadRequest(pos, k, true)))
    }

    function ReadAt(offset: int, n: int): Submitted {
      if offset < 0 then Now(Failed(NegativeOffset))
      else
        var k := Reserve(size - offset, n);
        if k == 0 then Now(Data([])) else Accepted(ReadRequest(offset, k, false))
    }

    function Write(append: bool, data: Bytes): (Cursor, Submitted) {
      if data == [] then (this, Now(Count(0)))
      else
        var offset := if append then size else pos;
        var end := offset + |data|;
        (Cursor(end, if Unsigned(end) > Unsigned(size) then end else size), Accepted(WriteRequest(offset, data)))
    }

    function Seek(offset: int, whence: int): (Cursor, Answer) {
      if !ValidWhence(whence) then (this, Failed(InvalidWhence))
      else
        var target := (if whence == 0 then 0 else if whence == 1 then pos else size) + offset;
        (this.(pos := target), Position(Unsigned(target)))
    }

    function Truncate(newSize: nat): Cursor {
      Cursor(if newSize < Unsigned(pos) then newSize else pos, newSize)
    }
  }

  /** The position state of an open file and its submission functions, up to the point where the
      request is passed to the kernel. */
  class Session {
    var filePos: int
    var cachedFileSize: int
    const appendMode: bool

    constructor (size: nat, append: bool)
      ensures View() == Cursor(0, size) && appendMode == append
    {
      filePos, cachedFileSize, appendMode := 0, size, append;
    }

    function View(): Cursor
      reads this
    {
      Cursor(filePos, cachedFileSize)
    }

    method SubmitRead(n: int) returns (r: Submitted)
      modifies `filePos
      ensures (View(), r) == old(View()).Read(n)
    {
      var rem := cachedFileSize - filePos;
      if rem <= 0 { return Now(Data([])); }
      var readSize := if n < 0 || n > rem then rem else n;
      if readSize == 0 { return Now(Data([])); }
      var offset := filePos;
      filePos := filePos + readSize;
      r := Accepted(ReadRequest(offset, readSize, true));
    }

    method SubmitReadAt(offset: int, n: int) returns (r: Submitted)
      ensures r == View().ReadAt(offset, n)
    {
      if offset < 0 { return Now(Failed(NegativeOffset)); }
      var rem := cachedFileSize - offset;
      if rem <= 0 { return Now(Data([])); }
      var readSize := if n < 0 || n > rem then rem else n;
      if readSize == 0 { return Now(Data([])); }
      r := Accepted(ReadRequest(offset, readSize, false));
    }

    /** A read of as many bytes as the buffer holds. */
    method SubmitReadInto(bufferLen: nat) returns (r: Submitted)
      modifies `filePos
      ensures (View(), r) == old(View()).Read(bufferLen)
    {
      if bufferLen == 0 { return Now(Data([])); }
      var rem := cachedFileSize - filePos;
      if rem <= 0 { return Now(Data([])); }
      var readSize := if bufferLen < rem then bufferLen else rem;
      var offset := filePos;
      filePos := filePos + readSize;
      r := Accepted(ReadRequest(offset, readSize, true));
    }

    method SubmitWrite(data: Bytes) returns (r: Submitted)
      modifies this
      ensures (View(), r) == old(View()).Write(appendMode, data)
    {
      if |data| == 0 { return Now(Count(0)); }
      var offset := if appendMode then cachedFileSize else filePos;
      filePos := offset + |data|;
      if Unsigned(filePos) > Unsigned(cachedFileSize) { cachedFileSize := filePos; }
      r := Accepted(WriteRequest(offset, data));
    }

    method SubmitSeek(offset: int, whence: int) returns (r: Answer)
      modifies `filePos
      ensures (View(), r) == old(View()).Seek(offset, whence)
    {
      if whence == 0 { filePos := offset; }
      else if whence == 1 { filePos := filePos + offset; }
      else if whence == 2 { filePos := cachedFileSize + offset; }
      else { return Failed(InvalidWhence); }
      r := Position(Unsigned(filePos));
    }

    /** The file itself has just been cut or grown to `size`. */
    method NoteTruncated(size: nat)
      modifies this
      ensures View() == old(View()).Truncate(size)
    {
      cachedFileSize := size;
      if size < Unsigned(filePos) { filePos := size; }
    }
  }

  // ------------------------------------------------------------------ the session and the kernel

  datatype Slot = Waiting | Finished(answer: Answer)

  /** Requests in the order of submission, each with what the kernel made of it. `intended` is
      history: the file as it would be had every accepted write been done at once. */
  datatype World = World(file: Bytes, cursor: Cursor, append: bool,
                         requests: seq<Request>, slots: seq<Slot>, intended: Bytes)

  datatype Step =
    | Read(n: int)
    | ReadAt(offset: int, n: int)
    | Write(data: Bytes)
    | Seek(offset: int, whence: int)
    | Truncate(size: int)
    | Complete(i: nat, at: Option<nat>)

  /** Where the kernel carries a transfer out, if at all. It refuses negative offsets, except that
      -1 has a meaning of its own (the end of the file for WriteFile, the current position of the
      file for io_uring): there it may refuse or pick any place. */
  predicate MayLand(r: Request, at: Option<nat>) {
    if r.offset >= 0 then at == Some(r.offset) else r.offset == -1 || at == None
  }

  /** The place the request means. */
  function Home(r: Request): (at: Option<nat>)
    ensures MayLand(r, at)
  {
    if r.offset >= 0 then Some(r.offset) else None
  }

  function Landed(file: Bytes, r: Request, at: Option<nat>): Bytes {
    if r.WriteRequest? && at.Some? then Overwrite(file, at.value, r.data) else file
  }

  /** Reads stop at the end of the file. */
  function Transfer(file: Bytes, r: Request, at: Option<nat>): Answer {
    match at
    case None => Failed(InvalidArgument)
    case Some(place) =>
      match r
      case WriteRequest(_, data) => Count(|data|)
      case ReadRequest(_, size, _) => Data(Slice(file, place, place + size))
  }

  function Slice(file: Bytes, a: nat, b: nat): Bytes {
    var hi := if b < |file| then b else |file|;
    if a < hi then file[a..hi] else []
  }

  function Enter(w: World, cursor: Cursor, s: Submitted): World {
    match s
    case Now(_) => w.(cursor := cursor)
    case Accepted(r) => w.(cursor := cursor, requests := w.requests + [r], slots := w.slots + [Waiting],
                           intended := Landed(w.intended, r, Home(r)))
  }

  predicate Enabled(w: World, step: Step) {
    step.Complete? ==>
      step.i < |w.requests| == |w.slots| && w.slots[step.i] == Waiting && MayLand(w.requests[step.i], step.at)
  }

  function Do(w: World, step: Step): World
    requires Enabled(w, step)
  {
    match step
    case Read(n) => var (c, s) := w.cursor.Read(n); Enter(w, c, s)
    case ReadAt(offset, n) => Enter(w, w.cursor, w.cursor.ReadAt(offset, n))
    case Write(data) => var (c, s) := w.cursor.Write(w.append, data); Enter(w, c, s)
    case Seek(offset, whence) => w.(cursor := w.cursor.Seek(offset, whence).0)
    case Truncate(size) =>
      if size < 0 then w
      else w.(file := Resize(w.file, size), intended := Resize(w.intended, size), cursor := w.cursor.Truncate(size))
    case Complete(i, at) =>
      var r := w.requests[i];
      w.(file := Landed(w.file, r, at), slots := w.slots[i := Finished(Transfer(w.file, r, at))])
  }

  // ------------------------------------------------------------------ the cache is exact

  predicate Pending(w: World, i: nat) {
    && i < |w.requests| == |w.slots| && w.slots[i] == Waiting
    && w.requests[i].WriteRequest? && w.requests[i].offset >= 0
  }

  /** The end of the range write i has reserved. */
  function End(w: World, i: nat): int {
    if i < |w.requests| && w.requests[i].WriteRequest? then w.requests[i].offset + |w.requests[i].data| else 0
  }

  ghost predicate NoneBeyond(w: World, size: int) {
    forall i: nat :: Pending(w, i) ==> End(w, i) <= size
  }

  /** An outstanding write at offset -1: only the kernel knows where it goes. */
  predicate Adrift(w: World, i: nat) {
    && i < |w.requests| == |w.slots| && w.slots[i] == Waiting
    && w.requests[i].WriteRequest? && w.requests[i].offset == -1
  }

  ghost predicate NoneAdrift(w: World) {
    forall i: nat :: !Adrift(w, i)
  }

  /** The cached size is the maximum of the real size and the ends of all outstanding writes. */
  ghost predicate SizeExact(w: World) {
    && |w.requests| == |w.slots|
    && |w.file| <= w.cursor.size && NoneBeyond(w, w.cursor.size)
    && (w.cursor.size == |w.file| || exists i: nat :: Pending(w, i) && End(w, i) == w.cursor.size)
  }

  /** And it will be, since it is known where every outstanding write goes. */
  ghost predicate CacheExact(w: World) {
    SizeExact(w) && NoneAdrift(w)
  }

  /** What the cache relies on: no write at a negative position, no truncation below the end of
      an outstanding write. */
  ghost predicate Careful(w: World, step: Step) {
    match step
    case Write(data) => w.append || data == [] || w.cursor.pos >= 0
    case Truncate(size) => size < 0 || NoneBeyond(w, size)
    case _ => true
  }

  lemma EnterKeepsPending(w: World, c: Cursor, r: Request)
    requires |w.requests| == |w.slots|
    ensures var w' := Enter(w, c, Accepted(r));
            && |w'.requests| == |w'.slots| == |w.requests| + 1
            && (forall i: nat :: i < |w.requests| ==> (Pending(w', i) <==> Pending(w, i)) && End(w', i) == End(w, i))
            && (forall i: nat :: i < |w.requests| ==> (Adrift(w', i) <==> Adrift(w, i)))
            && w'.requests[|w.requests|] == r
            && (Pending(w', |w.requests|) <==> r.WriteRequest? && r.offset >= 0)
            && (Adrift(w', |w.requests|) <==> r.WriteRequest? && r.offset == -1)
  {
  }

  lemma EnterKeepsAdrift(w: World, c: Cursor, r: Request)
    requires |w.requests| == |w.slots| && NoneAdrift(w)
    ensures NoneAdrift(Enter(w, c, Accepted(r))) <==> !(r.WriteRequest? && r.offset == -1)
  {
    EnterKeepsPending(w, c, r);
    var w' := Enter(w, c, Accepted(r));
    forall i: nat | i != |w.requests| ensures !Adrift(w', i) {
      assert i < |w.requests| ==> !Adrift(w, i);
    }
  }

  lemma ReadKeepsCache(w: World, c: Cursor, r: Request)
    requires CacheExact(w) && r.ReadRequest? && c.size == w.cursor.size
    ensures CacheExact(Enter(w, c, Accepted(r)))
  {
    EnterKeepsPending(w, c, r);
    EnterKeepsAdrift(w, c, r);
    hide Pending, End, Adrift, NoneAdrift;
    var w' := Enter(w, c, Accepted(r));
    if w.cursor.size != |w.file| {
      var i: nat :| Pending(w, i) && End(w, i) == w.cursor.size;
      PendingIndex(w, i);
      assert Pending(w', i);
    }
    forall i: nat | Pending(w', i) ensures End(w', i) <= c.size { PendingIndex(w', i); }
  }

  lemma PendingIndex(w: World, i: nat)
    requires Pending(w, i)
    ensures i < |w.requests| && w.requests[i].WriteRequest? && w.requests[i].offset >= 0
  {
  }

  const INT64_LIMIT := 0x8000_0000_0000_0000

  /** A write keeps the cache exact if and only if its offset is not negative, or it is below -1 and
      its end falls back inside the cached size. */
  lemma WriteKeepsCache(w: World, data: Bytes)
    requires CacheExact(w) && data != []
    requires w.append || w.cursor.pos >= 0 || (w.cursor.pos >= -INT64_LIMIT && w.cursor.size < INT64_LIMIT)
    ensures var offset := if w.append then w.cursor.size else w.cursor.pos;
            CacheExact(Do(w, Write(data))) <==> offset >= 0 || (offset < -1 && 0 <= offset + |data| <= w.cursor.size)
  {
    var (c, s) := w.cursor.Write(w.append, data);
    EnterKeepsAdrift(w, c, s.request);
    WriteKeepsSize(w, data);
    hide NoneAdrift, SizeExact;
  }

  lemma WriteKeepsSize(w: World, data: Bytes)
    requires SizeExact(w) && data != []
    requires w.append || w.cursor.pos >= 0 || (w.cursor.pos >= -INT64_LIMIT && w.cursor.size < INT64_LIMIT)
    ensures var offset := if w.append then w.cursor.size else w.cursor.pos;
            SizeExact(Do(w, Write(data))) <==> offset >= 0 || 0 <= offset + |data| <= w.cursor.size
  {
    var (c, s) := w.cursor.Write(w.append, data);
    var w', k := Do(w, Write(data)), |w.requests|;
    EnterKeepsPending(w, c, s.request);
    assert End(w', k) == c.pos;
    hide Pending, End, Adrift;
    forall i: nat | Pending(w', i) && i < k ensures End(w', i) <= w.cursor.size { assert Pending(w, i); }
    if c.size == w.cursor.size {
      if w.cursor.size != |w.file| {
        var i: nat :| Pending(w, i) && End(w, i) == w.cursor.size;
        PendingIndex(w, i);
        assert Pending(w', i);
      }
      forall i: nat | Pending(w', i) ensures End(w', i) <= c.size { PendingIndex(w', i); }
    } else if s.request.offset >= 0 {
      assert Pending(w', k) && End(w', k) == c.size;
      forall i: nat | Pending(w', i) ensures End(w', i) <= c.size { PendingIndex(w', i); }
    } else {
      // The new size is neither the real one nor the end of an outstanding write.
      assert c.size < 0 || c.size > w.cursor.size;
      forall i: nat | Pending(w', i) ensures End(w', i) != c.size { PendingIndex(w', i); }
    }
  }

  /** A truncation makes the cached size right if and only if no outstanding write ends beyond it. */
  lemma TruncateKeepsCache(w: World, size: nat)
    requires |w.requests| == |w.slots|
    ensures SizeExact(Do(w, Truncate(size))) <==> NoneBeyond(w, size)
    ensures NoneAdrift(Do(w, Truncate(size))) <==> NoneAdrift(w)
  {
    var w' := Do(w, Truncate(size));
    assert forall i: nat :: Pending(w', i) <==> Pending(w, i);
    assert forall i: nat :: Adrift(w', i) <==> Adrift(w, i);
  }

  /** Completing a request keeps the cached size right, unless it is a write at -1 that the kernel
      has put somewhere beyond it. */
  lemma CompleteKeepsSize(w: World, i: nat, at: Option<nat>)
    requires SizeExact(w) && Enabled(w, Complete(i, at))
    ensures SizeExact(Do(w, Complete(i, at))) <==>
              (Adrift(w, i) && at.Some? ==> at.value + |w.requests[i].data| <= w.cursor.size)
  {
    var w' := Do(w, Complete(i, at));
    assert Pending(w, i) ==> End(w, i) <= w.cursor.size;
    assert forall j: nat :: Pending(w', j) <==> Pending(w, j) && j != i;
    if w.cursor.size != |w.file| {
      var j: nat :| Pending(w, j) && End(w, j) == w.cursor.size;
      assert j == i || Pending(w', j);
    }
  }

  lemma CompleteKeepsCache(w: World, i: nat, at: Option<nat>)
    requires CacheExact(w) && Enabled(w, Complete(i, at))
    ensures CacheExact(Do(w, Complete(i, at)))
  {
    CompleteKeepsSize(w, i, at);
    forall j: nat ensures !Adrift(Do(w, Complete(i, at)), j) { assert !Adrift(w, j); }
  }

  lemma StepKeepsCache(w: World, step: Step)
    requires CacheExact(w) && Enabled(w, step) && Careful(w, step)
    ensures CacheExact(Do(w, step))
  {
    match step {
      case Read(n) =>
        var (c, s) := w.cursor.Read(n);
        if s.Accepted? { ReadKeepsCache(w, c, s.request); }
      case ReadAt(offset, n) =>
        var s := w.cursor.ReadAt(offset, n);
        if s.Accepted? { ReadKeepsCache(w, w.cursor, s.request); }
      case Write(data) => if data != [] { WriteKeepsCache(w, data); }
      case Seek(_, _) =>
        assert forall i: nat :: Pending(Do(w, step), i) <==> Pending(w, i);
        assert forall i: nat :: Adrift(Do(w, step), i) <==> Adrift(w, i);
      case Truncate(size) => if size >= 0 { TruncateKeepsCache(w, size); }
      case Complete(i, at) => CompleteKeepsCache(w, i, at);
    }
  }

  ghost predicate CarefulRun(w: World, steps: seq<Step>)
    decreases |steps|
  {
    steps == [] || (Enabled(w, steps[0]) && Careful(w, steps[0]) && CarefulRun(Do(w, steps[0]), steps[1..]))
  }

  ghost function Final(w: World, steps: seq<Step>): World
    requires CarefulRun(w, steps)
    decreases |steps|
  {
    if steps == [] then w else Final(Do(w, steps[0]), steps[1..])
  }

  /** Over every run, with the kernel completing requests in any order. */
  lemma {:induction false} CacheStaysExact(w: World, steps: seq<Step>)
    requires CacheExact(w) && CarefulRun(w, steps)
    ensures CacheExact(Final(w, steps))
    decreases |steps|
  {
    if steps != [] {
      StepKeepsCache(w, steps[0]);
      CacheStaysExact(Do(w, steps[0]), steps[1..]);
    }
  }

  ghost predicate NoWritePending(w: World) {
    NoneAdrift(w) && forall i: nat :: !Pending(w, i)
  }

  /** With no write outstanding the cached size is the size of the file. */
  lemma QuietCache(w: World)
    requires CacheExact(w) && NoWritePending(w)
    ensures w.cursor.size == |w.file|
  {
  }

  predicate OnlyMoves(steps: seq<Step>) {
    forall step :: step in steps ==> !step.Write? && !step.Truncate?
  }

  /** The file has outgrown the cached size, or will when a write completes. */
  ghost predicate Outgrown(w: World) {
    && |w.requests| == |w.slots|
    && (|w.file| > w.cursor.size || exists i: nat :: Pending(w, i) && End(w, i) > w.cursor.size)
  }

  lemma StepKeepsOutgrown(w: World, step: Step)
    requires Outgrown(w) && Enabled(w, step) && !step.Write? && !step.Truncate?
    ensures Outgrown(Do(w, step))
  {
    var w' := Do(w, step);
    if step.Complete? {
      assert forall j: nat :: Pending(w', j) <==> Pending(w, j) && j != step.i;
      assert |w'.file| >= |w.file|;
      if |w.file| <= w.cursor.size {
        var i: nat :| Pending(w, i) && End(w, i) > w.cursor.size;
        assert i == step.i || Pending(w', i);
      }
    } else if |w'.requests| > |w.requests| {
      EnterKeepsPending(w, w'.cursor, w'.requests[|w.requests|]);
      assert w' == Enter(w, w'.cursor, Accepted(w'.requests[|w.requests|]));
      OutgrownEntered(w, w');
    } else {
      assert forall j: nat :: Pending(w', j) <==> Pending(w, j);
      OutgrownEntered(w, w');
    }
  }

  lemma OutgrownEntered(w: World, w': World)
    requires Outgrown(w) && |w'.requests| == |w'.slots| && w'.file == w.file && w'.cursor.size == w.cursor.size
    requires forall i: nat :: i < |w.requests| && Pending(w, i) ==> Pending(w', i) && End(w', i) == End(w, i)
    ensures Outgrown(w')
  {
    if |w.file| <= w.cursor.size {
      var i: nat :| Pending(w, i) && End(w, i) > w.cursor.size;
      assert Pending(w', i);
    }
  }

  lemma {:induction false} OutgrownForEver(w: World, steps: seq<Step>)
    requires Outgrown(w) && CarefulRun(w, steps) && OnlyMoves(steps)
    ensures Outgrown(Final(w, steps))
    decreases |steps|
  {
    if steps != [] {
      StepKeepsOutgrown(w, steps[0]);
      hide Outgrown, Do, Enabled, Careful;
      OutgrownForEver(Do(w, steps[0]), steps[1..]);
    }
  }

  /** What a truncation under outstanding writes comes to: however they complete, and whatever is
      read and sought meanwhile, once none is outstanding the cached size is the size of the file
      if and only if none of them ended beyond the cut. */
  lemma TruncateEndsRightIff(w: World, size: nat, steps: seq<Step>)
    requires |w.requests| == |w.slots| && NoneAdrift(w)
    requires CarefulRun(Do(w, Truncate(size)), steps) && OnlyMoves(steps)
    requires NoWritePending(Final(Do(w, Truncate(size)), steps))
    ensures var last := Final(Do(w, Truncate(size)), steps);
            last.cursor.size == |last.file| <==> NoneBeyond(w, size)
  {
    var w1 := Do(w, Truncate(size));
    TruncateKeepsCache(w, size);
    if NoneBeyond(w, size) {
      CacheStaysExact(w1, steps);
      QuietCache(Final(w1, steps));
    } else {
      var i: nat :| Pending(w, i) && End(w, i) > size;
      assert Pending(w1, i) && End(w1, i) == End(w, i);
      OutgrownForEver(w1, steps);
    }
  }
}
