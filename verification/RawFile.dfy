/** The file a handle stands for: contents and one position, no buffering.

    This is the position logic of src/backends/thread_io_backend.cpp, which asks the file for
    its size on every call, together with the reads and writes the kernel does at the chosen
    offset. Positions are the signed 64-bit view the code computes with; a seek may leave a
    negative one, which the kernel then refuses. */
module RawFile {
  import opened Newlines

  datatype Error =
    | ClosedFile        // "I/O operation on closed file."
    | TextModeOnly      // a binary-only operation on a text handle
    | BinaryNewline     // "Binary mode does not accept a newline argument."
    | NegativeSize      // "negative size not allowed"
    | NegativeOffset    // "negative offset not allowed"
    | ChunkSize         // "chunk_size must be positive"
    | InvalidWhence     // "Invalid whence value"
    | InvalidArgument   // EINVAL from the kernel: a transfer at a negative offset

  datatype Result<+T> = Ok(value: T) | Err(error: Error)

  /** How many bytes a read of n (negative: all) at pos covers in a file of this size. */
  function ReadSpan(size: nat, pos: int, n: int): (k: nat)
    ensures pos >= 0 ==> (k == 0 <==> pos >= size || n == 0) && (k > 0 ==> pos + k <= size)
    ensures n >= 0 ==> k <= n
  {
    var rem := size - pos;
    if rem <= 0 then 0 else if n < 0 || n > rem then rem else n
  }

  /** The file system fills a gap before the written range, or a grown tail, with zeros. */
  function Zeros(n: nat): (z: Bytes)
    ensures |z| == n && forall i :: 0 <= i < n ==> z[i] == 0
  {
    seq(n, _ => 0)
  }

  function Resize(content: Bytes, size: nat): (c: Bytes)
    ensures |c| == size
    ensures forall i :: 0 <= i < size ==> c[i] == if i < |content| then content[i] else 0
  {
    if size <= |content| then content[..size] else content + Zeros(size - |content|)
  }

  function Overwrite(content: Bytes, offset: nat, data: Bytes): (c: Bytes)
    ensures |c| == if offset + |data| > |content| then offset + |data| else |content|
    ensures c[offset..offset + |data|] == data
    ensures forall i :: 0 <= i < |c| && !(offset <= i < offset + |data|) ==>
              c[i] == if i < |content| then content[i] else 0
  {
    var whole := if offset + |data| > |content| then Resize(content, offset + |data|) else content;
    whole[..offset] + data + whole[offset + |data|..]
  }

  /** The unsigned 64-bit value Python gets for a position. */
  function Unsigned(pos: int): int {
    if pos < 0 then pos + 0x1_0000_0000_0000_0000 else pos
  }

  predicate ValidWhence(whence: int) {
    0 <= whence <= 2
  }

  datatype Plain = Plain(content: Bytes, pos: int) {
    /** What a read of n may do: nothing at the end of the file, EINVAL at a negative position,
        else deliver the bytes at the position and step over them: all of the span when `exact`,
        any non-empty part of it otherwise. */
    predicate ReadOutcome(n: int, exact: bool, f': Plain, r: Result<Bytes>) {
      var k := ReadSpan(|content|, pos, n);
      if k == 0 then f' == this && r == Ok([])
      else if pos < 0 then f' == this.(pos := pos + k) && r == Err(InvalidArgument)
      else
        && r.Ok? && 0 < |r.value| <= k && (exact ==> |r.value| == k)
        && f' == this.(pos := pos + |r.value|)
        && r.value == content[pos..f'.pos]
    }

    /** `read_at`: the same span at a given offset, the position untouched. */
    function ReadAt(offset: int, n: int): Result<Bytes> {
      if offset < 0 then Err(NegativeOffset)
      else
        var k := ReadSpan(|content|, offset, n);
        Ok(if k == 0 then [] else content[offset..offset + k])
    }

    function Write(append: bool, data: Bytes): (Plain, Result<nat>) {
      if data == [] then (this, Ok(0))
      else
        var offset := if append then |content| else pos;
        if offset < 0 then (this.(pos := offset + |data|), Err(InvalidArgument))
        else (Plain(Overwrite(content, offset, data), offset + |data|), Ok(|data|))
    }

    function Seek(offset: int, whence: int): (Plain, Result<int>) {
      if !ValidWhence(whence) then (this, Err(InvalidWhence))
      else
        var base := if whence == 0 then 0 else if whence == 1 then pos else |content|;
        (this.(pos := base + offset), Ok(Unsigned(base + offset)))
    }

    /** `truncate` pulls a position beyond the new end back to it; a negative position compares
        as a huge unsigned number. */
    function Truncate(size: int): (Plain, Result<()>) {
      if size < 0 then (this, Err(NegativeSize))
      else (Plain(Resize(content, size), if size < Unsigned(pos) then size else pos), Ok(()))
    }
  }

  /** Reading back from where a write began gives what was written and ends where the write ended; an
      append leaves the data behind the old content. */
  lemma WriteThenRead(f: Plain, data: Bytes, f': Plain, r: Result<Bytes>)
    requires data != []
    requires f.Write(false, data).0.Seek(f.pos, 0).0.ReadOutcome(|data|, true, f', r)
    ensures f.pos >= 0 ==> r == Ok(data) && f' == f.Write(false, data).0
    ensures f.Write(true, data) == (Plain(f.content + data, |f.content| + |data|), Ok(|data|))
  {
    assert Overwrite(f.content, |f.content|, data) == f.content + data;
  }

  /** What a seek into the file means: everything read behind it is the file from the offset counted from
      the start, from the old position, or from the end. */
  lemma SeekThenRead(f: Plain, offset: int, whence: int, f': Plain, r: Result<Bytes>)
    requires f.Seek(offset, whence).0.ReadOutcome(-1, true, f', r)
    ensures whence == 0 && 0 <= offset <= |f.content| ==> r == Ok(f.content[offset..])
    ensures whence == 1 && 0 <= f.pos + offset <= |f.content| ==> r == Ok(f.content[f.pos + offset..])
    ensures whence == 2 && 0 <= -offset <= |f.content| ==> r == Ok(f.content[|f.content| + offset..])
  {
    var g := f.Seek(offset, whence).0;
    if ValidWhence(whence) && 0 <= g.pos <= |f.content| { assert f.content[g.pos..|f.content|] == f.content[g.pos..]; }
  }

  /** After a truncation a position inside the file is where it was, and any other is at the end; what was
      kept is read as before, and what was added as zeros. */
  lemma TruncateThenRead(f: Plain, size: nat, f': Plain, r: Result<Bytes>)
    requires f.Truncate(size).0.Seek(0, 0).0.ReadOutcome(-1, true, f', r)
    requires -0x8000_0000_0000_0000 <= f.pos && size < 0x8000_0000_0000_0000
    ensures f.Truncate(size).0.pos == if 0 <= f.pos <= size then f.pos else size
    ensures r.Ok? && |r.value| == size
    ensures forall i :: 0 <= i < size ==> r.value[i] == if i < |f.content| then f.content[i] else 0
  {
  }

  /** The backend object behind a handle. With `exact` unset it may deliver any non-empty part
      of a requested span, so that a reader sees the file cut into arbitrary chunks. With `cached`
      set it goes by a size of its own instead of asking the file system
      (src/backends/io_uring_backend.cpp, src/iocp_context.cpp); the contracts hold while that size
      is right. Every call is awaited, and the kernel refuses negative offsets. */
  class Backend {
    var content: Bytes
    var pos: int
    var cachedSize: int
    const append: bool
    const exact: bool
    const cached: bool

    constructor (content: Bytes, append: bool, exact: bool, cached: bool)
      ensures View() == Plain(content, 0) && Sound()
      ensures this.append == append && this.exact == exact && this.cached == cached
    {
      this.content, this.pos, this.cachedSize := content, 0, |content|;
      this.append, this.exact, this.cached := append, exact, cached;
    }

    function View(): Plain
      reads this
    {
      Plain(content, pos)
    }

    predicate Sound()
      reads this
    {
      cached ==> cachedSize == |content|
    }

    function Size(): int
      reads this
    {
      if cached then cachedSize else |content|
    }

    method Read(n: int) returns (r: Result<Bytes>)
      requires Sound()
      modifies this
      ensures old(View()).ReadOutcome(n, exact, View(), r)
      ensures Sound() && cachedSize == old(cachedSize)
    {
      var rem := Size() - pos;
      if rem <= 0 { return Ok([]); }
      var readSize := if n < 0 || n > rem then rem else n;
      if readSize == 0 { return Ok([]); }
      var offset := pos;
      if offset < 0 {
        pos := pos + readSize;
        return Err(InvalidArgument);
      }
      var got := readSize;
      if !exact { got :| 0 < got <= readSize; }
      pos := offset + got;
      r := Ok(content[offset..offset + got]);
    }

    method ReadAt(offset: int, n: int) returns (r: Result<Bytes>)
      requires Sound()
      ensures r == View().ReadAt(offset, n)
    {
      if offset < 0 { return Err(NegativeOffset); }
      var rem := Size() - offset;
      if rem <= 0 { return Ok([]); }
      var readSize := if n < 0 || n > rem then rem else n;
      if readSize == 0 { return Ok([]); }
      r := Ok(content[offset..offset + readSize]);
    }

    /** A write at a negative position leaves the position and the answer as they should be, but a
        cached size may be wrong from then on. */
    predicate KeepsSound(data: Bytes)
      reads this
    {
      !cached || append || pos >= 0 || data == []
    }

    method Write(data: Bytes) returns (r: Result<nat>)
      requires Sound()
      modifies this
      ensures (View(), r) == old(View()).Write(append, data)
      ensures old(KeepsSound(data)) ==> Sound()
      ensures cached ==>
                cachedSize == if data != [] && Unsigned(pos) > Unsigned(old(cachedSize)) then pos else old(cachedSize)
    {
      if data == [] { return Ok(0); }
      var offset := if append then Size() else pos;
      pos := offset + |data|;
      if cached && Unsigned(pos) > Unsigned(cachedSize) { cachedSize := pos; }
      if offset < 0 { return Err(InvalidArgument); }
      content := Overwrite(content, offset, data);
      r := Ok(|data|);
    }

    method Seek(offset: int, whence: int) returns (r: Result<int>)
      requires Sound()
      modifies this
      ensures (View(), r) == old(View()).Seek(offset, whence)
      ensures Sound() && cachedSize == old(cachedSize)
    {
      if whence == 0 { pos := offset; }
      else if whence == 1 { pos := pos + offset; }
      else if whence == 2 { pos := Size() + offset; }
      else { return Err(InvalidWhence); }
      r := Ok(Unsigned(pos));
    }

    method Truncate(size: int) returns (r: Result<()>)
      requires Sound()
      modifies this
      ensures (View(), r) == old(View()).Truncate(size)
      ensures Sound() && (cached ==> cachedSize == if size < 0 then old(cachedSize) else size)
    {
      if size < 0 { return Err(NegativeSize); }
      content := Resize(content, size);
      if cached { cachedSize := size; }
      if size < Unsigned(pos) { pos := size; }
      r := Ok(());
    }
  }
}
