/** Writes that are not awaited (src/iocp_context.cpp 793-814, src/backends/io_uring_backend.cpp
    376-388): as long as no accepted write overlaps an outstanding one, every order in which the
    kernel completes them leaves the file of the submission order. */
module WriteOrder {
  import opened Newlines
  import opened Options
  import opened RawFile
  import opened Positions

  function ByteAt(file: Bytes, j: nat): byte {
    if j < |file| then file[j] else 0
  }

  predicate Covers(w: World, i: nat, j: nat) {
    Pending(w, i) && w.requests[i].offset <= j < End(w, i)
  }

  /** Byte j of the file is already what is intended, or a write that sets it is outstanding. */
  ghost predicate Settled(w: World, j: nat)
    requires j < |w.intended|
  {
    ByteAt(w.file, j) == w.intended[j] || exists i: nat :: Covers(w, i, j)
  }

  /** An outstanding write will put exactly the intended bytes. */
  ghost predicate WillSet(w: World, i: nat) {
    Pending(w, i) ==> End(w, i) <= |w.intended| && w.intended[w.requests[i].offset..End(w, i)] == w.requests[i].data
  }

  ghost predicate OnTrack(w: World) {
    && CacheExact(w) && |w.intended| == w.cursor.size
    && (forall i: nat :: WillSet(w, i))
    && (forall j: nat | j < |w.intended| :: Settled(w, j))
  }

  /** No outstanding write overlaps the range. */
  ghost predicate Apart(w: World, offset: int, end: int) {
    forall i: nat :: Pending(w, i) ==> End(w, i) <= offset || end <= w.requests[i].offset
  }

  ghost predicate NoOverlap(w: World, step: Step) {
    && Careful(w, step)
    && (step.Write? ==> var offset := if w.append then w.cursor.size else w.cursor.pos;
                        Apart(w, offset, offset + |step.data|))
  }

  lemma SettledAtOnce(w: World, w': World, j: nat)
    requires j < |w.intended| && j < |w'.intended| && Settled(w, j) && w'.intended[j] == w.intended[j]
    requires ByteAt(w'.file, j) == ByteAt(w.file, j)
    requires forall i: nat :: Covers(w, i, j) ==> Covers(w', i, j)
    ensures Settled(w', j)
  {
    if ByteAt(w.file, j) != w.intended[j] {
      var i: nat :| Covers(w, i, j);
      assert Covers(w', i, j);
    }
  }

  lemma ReadKeepsTrack(w: World, c: Cursor, r: Request)
    requires OnTrack(w) && r.ReadRequest? && c.size == w.cursor.size
    ensures OnTrack(Enter(w, c, Accepted(r)))
  {
    var w' := Enter(w, c, Accepted(r));
    ReadKeepsCache(w, c, r);
    EnterKeepsPending(w, c, r);
    forall i: nat ensures WillSet(w', i) { assert WillSet(w, i); }
    forall j: nat | j < |w'.intended| ensures Settled(w', j) {
      hide Pending, CacheExact;
      SettledAtOnce(w, w', j);
    }
  }

  lemma WriteKeepsTrack(w: World, data: Bytes)
    requires OnTrack(w) && data != [] && NoOverlap(w, Write(data))
    ensures OnTrack(Do(w, Write(data)))
  {
    var (c, s) := w.cursor.Write(w.append, data);
    var r, w', k := s.request, Do(w, Write(data)), |w.requests|;
    WriteKeepsCache(w, data);
    EnterKeepsPending(w, c, r);
    hide CacheExact, Pending;
    forall i: nat ensures WillSet(w', i) { WriteWillSet(w, c, r, i); }
    assert Pending(w', k) && End(w', k) == r.offset + |data|;
    forall j: nat | j < |w'.intended| ensures Settled(w', j) {
      if r.offset <= j < r.offset + |data| {
        assert Covers(w', k, j);
      } else if j < |w.intended| {
        SettledAtOnce(w, w', j);
      } else {
        // The gap between the old end and the write is zero.
        assert ByteAt(w'.file, j) == 0 == w'.intended[j];
      }
    }
  }

  lemma WriteWillSet(w: World, c: Cursor, r: Request, i: nat)
    requires OnTrack(w) && r.WriteRequest? && r.offset >= 0 && Apart(w, r.offset, r.offset + |r.data|)
    ensures WillSet(Enter(w, c, Accepted(r)), i)
  {
    var w' := Enter(w, c, Accepted(r));
    EnterKeepsPending(w, c, r);
    if Pending(w', i) && i < |w.requests| {
      assert Pending(w, i) && WillSet(w, i);
      assert w'.intended[w.requests[i].offset..End(w, i)] == w.intended[w.requests[i].offset..End(w, i)];
    }
  }

  lemma TruncateKeepsTrack(w: World, size: nat)
    requires OnTrack(w) && NoneBeyond(w, size)
    ensures OnTrack(Do(w, Truncate(size)))
  {
    var w' := Do(w, Truncate(size));
    TruncateKeepsCache(w, size);
    hide CacheExact;
    forall i: nat ensures WillSet(w', i) {
      assert WillSet(w, i) && (Pending(w', i) ==> Pending(w, i));
      if Pending(w', i) {
        assert w'.intended[w.requests[i].offset..End(w, i)] == w.intended[w.requests[i].offset..End(w, i)];
      }
    }
    forall j: nat | j < |w'.intended| ensures Settled(w', j) {
      if j < |w.intended| {
        SettledAtOnce(w, w', j);
      } else {
        assert ByteAt(w'.file, j) == 0 == w'.intended[j];
      }
    }
  }

  lemma CompleteKeepsTrack(w: World, i: nat, at: Option<nat>)
    requires OnTrack(w) && Enabled(w, Complete(i, at))
    ensures OnTrack(Do(w, Complete(i, at)))
  {
    var w' := Do(w, Complete(i, at));
    CompleteKeepsCache(w, i, at);
    hide CacheExact;
    forall k: nat ensures WillSet(w', k) {
      assert WillSet(w, k) && (Pending(w', k) ==> Pending(w, k));
    }
    assert WillSet(w, i);
    forall j: nat | j < |w'.intended| ensures Settled(w', j) {
      CompleteSettles(w, i, at, j);
    }
  }

  lemma CompleteSettles(w: World, i: nat, at: Option<nat>, j: nat)
    requires Enabled(w, Complete(i, at)) && !Adrift(w, i) && WillSet(w, i) && j < |w.intended| && Settled(w, j)
    ensures Settled(Do(w, Complete(i, at)), j)
  {
    var w' := Do(w, Complete(i, at));
    if Covers(w, i, j) {
      var o := w.requests[i].offset;
      assert w.intended[o..End(w, i)][j - o] == w.requests[i].data[j - o];
      assert w'.file[o..End(w, i)][j - o] == w.requests[i].data[j - o];
    } else {
      assert ByteAt(w'.file, j) == ByteAt(w.file, j);
      SettledAtOnce(w, w', j);
    }
  }

  lemma StepKeepsTrack(w: World, step: Step)
    requires OnTrack(w) && Enabled(w, step) && NoOverlap(w, step)
    ensures OnTrack(Do(w, step))
  {
    match step {
      case Read(n) =>
        var (c, s) := w.cursor.Read(n);
        if s.Accepted? { ReadKeepsTrack(w, c, s.request); }
      case ReadAt(offset, n) =>
        var s := w.cursor.ReadAt(offset, n);
        if s.Accepted? { ReadKeepsTrack(w, w.cursor, s.request); }
      case Write(data) => if data != [] { WriteKeepsTrack(w, data); }
      case Seek(_, _) => SeekKeepsTrack(w, step);
      case Truncate(size) => if size >= 0 { TruncateKeepsTrack(w, size); }
      case Complete(i, at) => CompleteKeepsTrack(w, i, at);
    }
  }

  lemma SeekKeepsTrack(w: World, step: Step)
    requires OnTrack(w) && step.Seek?
    ensures OnTrack(Do(w, step))
  {
    var w' := Do(w, step);
    StepKeepsCache(w, step);
    hide CacheExact;
    forall i: nat ensures WillSet(w', i) { assert WillSet(w, i); }
    forall j: nat | j < |w'.intended| ensures Settled(w', j) { SettledAtOnce(w, w', j); }
  }

  ghost predicate NoOverlaps(w: World, steps: seq<Step>)
    decreases |steps|
  {
    steps == [] || (Enabled(w, steps[0]) && NoOverlap(w, steps[0]) && NoOverlaps(Do(w, steps[0]), steps[1..]))
  }

  lemma {:induction false} NoOverlapsIsCareful(w: World, steps: seq<Step>)
    requires NoOverlaps(w, steps)
    ensures CarefulRun(w, steps)
    decreases |steps|
  {
    if steps != [] {
      NoOverlapsIsCareful(Do(w, steps[0]), steps[1..]);
    }
  }

  lemma {:induction false} RunKeepsTrack(w: World, steps: seq<Step>)
    requires OnTrack(w) && NoOverlaps(w, steps) && CarefulRun(w, steps)
    ensures OnTrack(Final(w, steps))
    decreases |steps|
  {
    if steps != [] {
      StepKeepsTrack(w, steps[0]);
      hide OnTrack;
      RunKeepsTrack(Do(w, steps[0]), steps[1..]);
    }
  }

  lemma QuietTrack(w: World)
    requires OnTrack(w) && NoWritePending(w)
    ensures w.file == w.intended
  {
    QuietCache(w);
    forall j: nat | j < |w.file| ensures w.file[j] == w.intended[j] {
      assert Settled(w, j);
    }
  }

  /** Whatever order the kernel picks: when no write is outstanding any more, the file is the one
      in which every write was done when it was submitted. */
  lemma OrderDoesNotMatter(w: World, steps: seq<Step>)
    requires CacheExact(w) && NoWritePending(w) && w.intended == w.file && NoOverlaps(w, steps)
    ensures CarefulRun(w, steps)
    ensures NoWritePending(Final(w, steps)) ==> Final(w, steps).file == Final(w, steps).intended
  {
    NoOverlapsIsCareful(w, steps);
    QuietCache(w);
    forall j: nat | j < |w.intended| ensures Settled(w, j) { assert ByteAt(w.file, j) == w.intended[j]; }
    RunKeepsTrack(w, steps);
    if NoWritePending(Final(w, steps)) { QuietTrack(Final(w, steps)); }
  }

  function Put(before: byte, a: nat, x: Bytes, j: nat): byte {
    if a <= j < a + |x| then x[j - a] else before
  }

  lemma ByteAfter(file: Bytes, a: nat, x: Bytes, j: nat)
    ensures ByteAt(Overwrite(file, a, x), j) == Put(ByteAt(file, j), a, x, j)
  {
    var c := Overwrite(file, a, x);
    if a <= j < a + |x| {
      assert c[a..a + |x|][j - a] == x[j - a];
    }
  }

  predicate AgreeAt(a: nat, x: Bytes, b: nat, y: Bytes, j: nat) {
    a <= j < a + |x| && b <= j < b + |y| ==> x[j - a] == y[j - b]
  }

  /** Overlapping writes are another matter: two of them can be swapped if and only if they agree
      wherever both write. */
  lemma SwappedIffAgree(file: Bytes, a: nat, x: Bytes, b: nat, y: Bytes)
    ensures Overwrite(Overwrite(file, a, x), b, y) == Overwrite(Overwrite(file, b, y), a, x)
       <==> forall j: nat :: AgreeAt(a, x, b, y, j)
  {
    var fx, fy := Overwrite(file, a, x), Overwrite(file, b, y);
    var xy, yx := Overwrite(fx, b, y), Overwrite(fy, a, x);
    assert |xy| == |yx|;
    hide Overwrite;
    forall j: nat ensures ByteAt(xy, j) == ByteAt(yx, j) <==> AgreeAt(a, x, b, y, j) {
      ByteAfter(file, a, x, j);
      ByteAfter(file, b, y, j);
      ByteAfter(fx, b, y, j);
      ByteAfter(fy, a, x, j);
    }
    hide AgreeAt;
    if forall j: nat :: AgreeAt(a, x, b, y, j) {
      forall j | 0 <= j < |xy| ensures xy[j] == yx[j] { assert ByteAt(xy, j) == ByteAt(yx, j); }
    } else {
      var j: nat :| !AgreeAt(a, x, b, y, j);
      assert ByteAt(xy, j) != ByteAt(yx, j);
    }
  }

  // ------------------------------------------------------------------ writes that follow each other

  function Buffer(step: Step): Bytes {
    if step.Write? then step.data else []
  }

  /** All buffers written, in the order of submission. */
  function Written(steps: seq<Step>): Bytes
    decreases |steps|
  {
    if steps == [] then [] else Buffer(steps[0]) + Written(steps[1..])
  }

  predicate NoTruncate(steps: seq<Step>) {
    forall step :: step in steps ==> !step.Truncate?
  }

  /** In append mode every write goes to the cached end, past every outstanding write. */
  lemma AppendStep(w: World, step: Step)
    requires OnTrack(w) && w.append && Enabled(w, step) && !step.Truncate?
    ensures NoOverlap(w, step) && Do(w, step).append
    ensures Do(w, step).intended == w.intended + Buffer(step)
  {
    hide OnTrack;
    TrackShape(w);
    if step.Write? && step.data != [] {
      AppendAtEnd(w.intended, step.data);
      forall i: nat | Pending(w, i) ensures End(w, i) <= w.cursor.size { assert NoneBeyond(w, w.cursor.size); }
    }
  }

  lemma TrackShape(w: World)
    requires OnTrack(w)
    ensures |w.intended| == w.cursor.size && NoneBeyond(w, w.cursor.size) && |w.requests| == |w.slots|
  {
  }

  lemma AppendAtEnd(file: Bytes, data: Bytes)
    ensures Overwrite(file, |file|, data) == file + data
  {
    var c := Overwrite(file, |file|, data);
    assert c == c[..|file|] + c[|file|..];
  }

  lemma {:induction false} AppendRun(w: World, steps: seq<Step>)
    requires OnTrack(w) && w.append && CarefulRun(w, steps) && NoTruncate(steps)
    ensures OnTrack(Final(w, steps)) && Final(w, steps).intended == w.intended + Written(steps)
    decreases |steps|
  {
    if steps != [] {
      AppendStep(w, steps[0]);
      StepKeepsTrack(w, steps[0]);
      WrittenFrom(w.intended, steps);
      hide OnTrack, Do, Enabled, Careful, Buffer, Written;
      AppendRun(Do(w, steps[0]), steps[1..]);
    } else {
      assert w.intended + [] == w.intended;
    }
  }

  lemma WrittenFrom(base: Bytes, steps: seq<Step>)
    requires steps != []
    ensures base + Written(steps) == base + Buffer(steps[0]) + Written(steps[1..])
  {
    hide Buffer;
    assert base + (Buffer(steps[0]) + Written(steps[1..])) == base + Buffer(steps[0]) + Written(steps[1..]);
  }

  /** Appending: reserved ranges tile the end of the file, whatever is read, sought or completed
      in between and in whatever order. Once all writes have completed the file is the old
      content followed by the buffers in the order of submission, and the cached size is its size. */
  lemma AppendsTile(w: World, steps: seq<Step>)
    requires CacheExact(w) && NoWritePending(w) && w.intended == w.file && w.append
    requires CarefulRun(w, steps) && NoTruncate(steps) && NoWritePending(Final(w, steps))
    ensures Final(w, steps).file == w.file + Written(steps)
    ensures Final(w, steps).cursor.size == |Final(w, steps).file|
  {
    QuietCache(w);
    forall j: nat | j < |w.intended| ensures Settled(w, j) { assert ByteAt(w.file, j) == w.intended[j]; }
    AppendRun(w, steps);
    hide Settled;
    QuietTrack(Final(w, steps));
    QuietCache(Final(w, steps));
  }

  /** Without append mode: as long as nothing seeks or truncates, every outstanding write lies
      behind the position, so no write overlaps one. */
  ghost predicate Behind(w: World) {
    |w.requests| == |w.slots| && w.cursor.pos >= 0 && NoneBeyond(w, w.cursor.pos)
  }

  lemma SequentialStep(w: World, step: Step)
    requires Behind(w) && !w.append && Enabled(w, step) && !step.Truncate? && !step.Seek?
    ensures NoOverlap(w, step) && Behind(Do(w, step)) && !Do(w, step).append
  {
    var w' := Do(w, step);
    if |w'.requests| > |w.requests| {
      EnterKeepsPending(w, w'.cursor, w'.requests[|w.requests|]);
      assert w' == Enter(w, w'.cursor, Accepted(w'.requests[|w.requests|]));
      forall i: nat | Pending(w', i) ensures End(w', i) <= w'.cursor.pos {
        assert i < |w.requests| ==> Pending(w, i) && End(w, i) <= w.cursor.pos;
      }
    } else {
      assert forall i: nat :: Pending(w', i) ==> Pending(w, i) && End(w', i) == End(w, i);
    }
  }

  lemma {:induction false} SequentialWritesNeverOverlap(w: World, steps: seq<Step>)
    requires Behind(w) && !w.append && CarefulRun(w, steps)
    requires forall step :: step in steps ==> !step.Truncate? && !step.Seek?
    ensures NoOverlaps(w, steps)
    decreases |steps|
  {
    if steps != [] {
      SequentialStep(w, steps[0]);
      hide Behind;
      SequentialWritesNeverOverlap(Do(w, steps[0]), steps[1..]);
    }
  }
}
