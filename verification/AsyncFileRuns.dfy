/** Whole runs of a handle: any sequence of calls behaves as on the plain file, whatever was
    read ahead in between and however the backend cut its reads. */
module AsyncFileRuns {
  import opened Newlines
  import opened RawFile
  import opened AsyncFiles

  datatype Op =
    | Read(size: int)
    | ReadLine
    | ReadLines(hint: int)
    | ReadInto(len: nat)
    | Chunk(chunkSize: int)
    | ChunkNext(blockLen: nat)
    | Seek(offset: int, whence: int)
    | Tell
    | Write(data: Bytes)
    | Truncate(size: int)
    | ReadAt(offset: int, size: int)
    | Close

  datatype Out =
    | Data(r: Result<Bytes>)
    | Pieces(rs: Result<seq<Bytes>>)
    | Count(n: Result<nat>)
    | Position(pos: Result<int>)
    | Done(u: Result<()>)

  /** What never changes while the handle is open. */
  datatype Config = Config(isText: bool, newline: Newline, linesep: Bytes, append: bool, exact: bool, cached: bool)

  /** What the user can know: the plain file and whether the handle is closed. */
  datatype View = View(file: Plain, closed: bool)

  /** What one call may do to the plain file. There is no read-ahead in this relation. A read is
      exact when the backend is; `readinto` may stop early, at the end of what was read ahead; a
      seek with an invalid whence fails and may lose bytes that were read ahead. */
  ghost predicate Allowed(c: Config, v: View, op: Op, v': View, out: Out) {
    var f, f' := v.file, v'.file;
    && (!op.Close? ==> v'.closed == v.closed)
    && match op
       case Close => v' == View(f, true) && out == Done(Ok(()))
       case Tell => f' == f && out == Position(Ok(Unsigned(f.pos)))
       case Read(size) =>
         if v.closed then f' == f && out == Data(Err(ClosedFile))
         else exists raw :: f.ReadOutcome(size, c.exact, f', raw) && out == Data(ReadAs(raw, c.isText, c.newline))
       case ReadLine =>
         if v.closed then f' == f && out == Data(Err(ClosedFile))
         else out.Data? && LineOutcome(f, c.newline, c.isText, f', out.r)
       case ReadLines(hint) =>
         if v.closed then f' == f && out == Pieces(Err(ClosedFile))
         else out.Pieces? && LinesOutcome(f, hint, c.newline, c.isText, f', out.rs)
       case ReadInto(len) =>
         if v.closed then f' == f && out == Data(Err(ClosedFile))
         else if c.isText then f' == f && out == Data(Err(TextModeOnly))
         else out.Data? && f.ReadOutcome(len, false, f', out.r)
       case ChunkNext(size) =>
         if v.closed then f' == f && out == Data(Err(ClosedFile))
         else if c.isText then f' == f && out == Data(Err(TextModeOnly))
         else out.Data? && f.ReadOutcome(size, false, f', out.r)
       case Chunk(size) =>
         if v.closed then f' == f && out == Pieces(Err(ClosedFile))
         else if c.isText then f' == f && out == Pieces(Err(TextModeOnly))
         else if size <= 0 then f' == f && out == Pieces(Err(ChunkSize))
         else out.Pieces? && ChunkOutcome(f, size, f', out.rs)
       case Seek(offset, whence) =>
         if v.closed then f' == f && out == Position(Err(ClosedFile))
         else if !ValidWhence(whence) then
           out == Position(Err(InvalidWhence)) &&
           (f' == f || (f.pos < f'.pos <= |f.content| && f' == f.(pos := f'.pos)))
         else (f', out) == (f.Seek(offset, whence).0, Position(f.Seek(offset, whence).1))
       case Write(data) =>
         if v.closed then f' == f && out == Count(Err(ClosedFile))
         else
           exists sent :: && SentAs(data, c.isText, c.newline, c.linesep, sent)
                          && (f', out) == (f.Write(c.append, sent).0, Count(f.Write(c.append, sent).1))
       case Truncate(size) =>
         if v.closed then f' == f && out == Done(Err(ClosedFile))
         else f' == f.Truncate(size).0 && out == Done(f.Truncate(size).1)
       case ReadAt(offset, size) =>
         f' == f && out == Data(if v.closed then Err(ClosedFile) else if c.isText then Err(TextModeOnly)
                                else f.ReadAt(offset, size))
  }

  function ConfigOf(h: AsyncFile): Config {
    Config(h.isText, h.newline, h.linesep, h.impl.append, h.impl.exact, h.impl.cached)
  }

  function ViewOf(h: AsyncFile): View
    reads h, h.impl
  {
    View(h.Logical(), h.closed)
  }

  /** A write at a negative position by way of a cached backend, after which its size may be wrong. */
  predicate Breaks(c: Config, v: View, op: Op) {
    && op.Write? && c.cached && !c.append && !v.closed && v.file.pos < 0
    && (if c.isText then TranslateForWrite(op.data, c.newline, c.linesep) else op.data) != []
  }

  method Perform(h: AsyncFile, op: Op) returns (out: Out)
    requires h.Valid()
    modifies h, h.impl
    ensures Allowed(ConfigOf(h), old(ViewOf(h)), op, ViewOf(h), out)
    ensures !Breaks(ConfigOf(h), old(ViewOf(h)), op) ==> h.Valid()
  {
    hide LineOutcome, LinesOutcome, ChunkOutcome, Plain.ReadOutcome, Breaks;
    match op
    case Read(size) => out := PerformRead(h, size);
    case ReadLine => var r := h.ReadLine(); out := Data(r);
    case ReadLines(hint) => var r := h.ReadLines(hint); out := Pieces(r);
    case ReadInto(len) => out := PerformReadInto(h, len);
    case Chunk(size) => var r := h.Chunk(size, null); out := Pieces(r);
    case ChunkNext(size) => out := PerformChunkNext(h, size);
    case Seek(offset, whence) => out := PerformSeek(h, offset, whence);
    case Tell => var pos := h.Tell(); out := Position(Ok(pos));
    case Write(data) => out := PerformWrite(h, data);
    case Truncate(size) => out := PerformTruncate(h, size);
    case ReadAt(offset, size) => var r := h.ReadAt(offset, size); out := Data(r);
    case Close => h.Close(); out := Done(Ok(()));
  }

  method PerformSeek(h: AsyncFile, offset: int, whence: int) returns (out: Out)
    requires h.Valid()
    modifies h, h.impl
    ensures h.Valid()
    ensures Allowed(ConfigOf(h), old(ViewOf(h)), Seek(offset, whence), ViewOf(h), out)
  {
    hide Plain.Seek;
    var r := h.Seek(offset, whence);
    out := Position(r);
  }

  method PerformWrite(h: AsyncFile, data: Bytes) returns (out: Out)
    requires h.Valid()
    modifies h, h.impl
    ensures Allowed(ConfigOf(h), old(ViewOf(h)), Write(data), ViewOf(h), out)
    ensures !Breaks(ConfigOf(h), old(ViewOf(h)), Write(data)) ==> h.Valid()
  {
    hide Plain.Write, SentAs;
    ghost var sent := h.Encoded(data);
    var r := h.Write(data);
    assert SentAs(data, h.isText, h.newline, h.linesep, sent);
    out := Count(r);
  }

  method PerformTruncate(h: AsyncFile, size: int) returns (out: Out)
    requires h.Valid()
    modifies h, h.impl
    ensures h.Valid()
    ensures Allowed(ConfigOf(h), old(ViewOf(h)), Truncate(size), ViewOf(h), out)
  {
    hide Plain.Truncate;
    var r := h.Truncate(size);
    out := Done(r);
  }

  method PerformRead(h: AsyncFile, size: int) returns (out: Out)
    requires h.Valid()
    modifies h, h.impl
    ensures h.Valid()
    ensures Allowed(ConfigOf(h), old(ViewOf(h)), Read(size), ViewOf(h), out)
  {
    hide Plain.ReadOutcome;
    var r, raw := h.Read(size);
    assert r == if h.closed then Err(ClosedFile) else ReadAs(raw, h.isText, h.newline);
    out := Data(r);
  }

  method PerformReadInto(h: AsyncFile, len: nat) returns (out: Out)
    requires h.Valid()
    modifies h, h.impl
    ensures h.Valid()
    ensures Allowed(ConfigOf(h), old(ViewOf(h)), ReadInto(len), ViewOf(h), out)
  {
    var buf := new byte[len];
    var r := h.ReadInto(buf, len);
    out := Data(if r.Ok? then Ok(buf[..r.value]) else Err(r.error));
  }

  method PerformChunkNext(h: AsyncFile, size: nat) returns (out: Out)
    requires h.Valid()
    modifies h, h.impl
    ensures h.Valid()
    ensures Allowed(ConfigOf(h), old(ViewOf(h)), ChunkNext(size), ViewOf(h), out)
  {
    var buf := new byte[size];
    var r := h.ChunkNext(buf, size);
    out := Data(r);
  }

  /** Every run of calls on a handle is a run of the plain file, whether the backend asks for the
      size every time or caches it. With a caching backend it is followed up to the first write at
      a negative position, if there is one. */
  method Run(h: AsyncFile, ops: seq<Op>) returns (outs: seq<Out>, ghost views: seq<View>)
    requires h.Valid()
    modifies h, h.impl
    ensures |outs| <= |ops| && |views| == |outs| + 1 && h.Valid()
    ensures views[0] == old(ViewOf(h)) && views[|outs|] == ViewOf(h)
    ensures forall i :: 0 <= i < |outs| ==> Allowed(ConfigOf(h), views[i], ops[i], views[i + 1], outs[i])
    ensures |outs| < |ops| ==> Breaks(ConfigOf(h), views[|outs|], ops[|outs|])
    ensures !h.impl.cached ==> |outs| == |ops|
  {
    hide Allowed;
    outs, views := [], [ViewOf(h)];
    for k := 0 to |ops|
      invariant h.Valid() && |outs| == k && |views| == k + 1
      invariant views[0] == old(ViewOf(h)) && views[k] == ViewOf(h)
      invariant forall i :: 0 <= i < k ==> Allowed(ConfigOf(h), views[i], ops[i], views[i + 1], outs[i])
    {
      if Breaks(ConfigOf(h), ViewOf(h), ops[k]) { return; }
      var out := Perform(h, ops[k]);
      outs, views := outs + [out], views + [ViewOf(h)];
    }
  }
}
