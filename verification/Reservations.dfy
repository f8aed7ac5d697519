/** What reserving ranges at submission buys (src/iocp_context.cpp, src/backends/io_uring_backend.cpp):
    a caller who awaits each call sees the uncached backend, and for callers who do not, the
    order in which the kernel completes requests does not matter. */
module Reservations {
  import opened Newlines
  import opened Options
  import opened RawFile
  import opened Positions

  // ------------------------------------------------------------------ awaiting every call

  /** The thread backend, which asks the file system for the size on every call. */
  function Uncached(p: Plain, append: bool, step: Step): (Plain, Answer)
    requires !step.Complete?
  {
    match step
    case Read(n) =>
      var k := ReadSpan(|p.content|, p.pos, n);
      if k == 0 then (p, Data([]))
      else if p.pos < 0 then (p.(pos := p.pos + k), Failed(InvalidArgument))
      else (p.(pos := p.pos + k), Data(p.content[p.pos..p.pos + k]))
    case ReadAt(offset, n) =>
      var r := p.ReadAt(offset, n);
      (p, if r.Ok? then Data(r.value) else Failed(r.error))
    case Write(data) =>
      var (p', r) := p.Write(append, data);
      (p', if r.Ok? then Count(r.value) else Failed(r.error))
    case Seek(offset, whence) =>
      var (p', r) := p.Seek(offset, whence);
      (p', if r.Ok? then Position(r.value) else Failed(r.error))
    case Truncate(size) =>
      var (p', r) := p.Truncate(size);
      (p', if r.Ok? then Nothing else Failed(r.error))
  }

  /** What the contracts of `Backend` promise a caller about each operation. */
  predicate BackendStep(p: Plain, append: bool, exact: bool, step: Step, p': Plain, a: Answer)
    requires !step.Complete?
  {
    match step
    case Read(n) =>
      if a.Data? then p.ReadOutcome(n, exact, p', Ok(a.bytes))
      else a.Failed? && p.ReadOutcome(n, exact, p', Err(a.error))
    case ReadAt(offset, n) =>
      var r := p.ReadAt(offset, n);
      p' == p && a == if r.Ok? then Data(r.value) else Failed(r.error)
    case Write(data) =>
      var (f, r) := p.Write(append, data);
      p' == f && a == if r.Ok? then Count(r.value) else Failed(r.error)
    case Seek(offset, whence) =>
      var (f, r) := p.Seek(offset, whence);
      p' == f && a == if r.Ok? then Position(r.value) else Failed(r.error)
    case Truncate(size) =>
      var (f, r) := p.Truncate(size);
      p' == f && a == if r.Ok? then Nothing else Failed(r.error)
  }

  /** The cached size after a call. */
  function NextSize(pos': int, size: int, step: Step): int {
    match step
    case Write(data) => if data != [] && Unsigned(pos') > Unsigned(size) then pos' else size
    case Truncate(n) => if n < 0 then size else n
    case _ => size
  }

  /** They do promise that. */
  method Perform(b: Backend, step: Step) returns (a: Answer)
    requires !step.Complete? && b.Sound()
    modifies b
    ensures BackendStep(old(b.View()), b.append, b.exact, step, b.View(), a)
    ensures b.cached ==> b.cachedSize == NextSize(b.pos, old(b.cachedSize), step)
  {
    hide Plain.ReadOutcome, Plain.Write, Plain.Seek, Plain.Truncate, Plain.ReadAt;
    match step
    case Read(n) => var r := b.Read(n); a := if r.Ok? then Data(r.value) else Failed(r.error);
    case ReadAt(offset, n) => var r := b.ReadAt(offset, n); a := if r.Ok? then Data(r.value) else Failed(r.error);
    case Write(data) => var r := b.Write(data); a := if r.Ok? then Count(r.value) else Failed(r.error);
    case Seek(offset, whence) =>
      var r := b.Seek(offset, whence);
      a := if r.Ok? then Position(r.value) else Failed(r.error);
    case Truncate(size) => var r := b.Truncate(size); a := if r.Ok? then Nothing else Failed(r.error);
  }

  /** The uncached backend keeps these contracts, delivering all it can. */
  lemma UncachedIsBackendStep(p: Plain, append: bool, step: Step)
    requires !step.Complete?
    ensures var (p', a) := Uncached(p, append, step); BackendStep(p, append, true, step, p', a)
  {
  }

  /** A call, and the place the kernel picks should its transfer start at offset -1. */
  datatype Call = Call(step: Step, choice: Option<nat>)

  function Place(r: Request, choice: Option<nat>): (at: Option<nat>)
    ensures MayLand(r, at)
  {
    if r.offset == -1 then choice else Home(r)
  }

  function AnswerNow(w: World, call: Call): Answer
    requires !call.step.Complete?
  {
    match call.step
    case Read(n) => AnswerOf(w, w.cursor.Read(n).1, call.choice)
    case ReadAt(offset, n) => AnswerOf(w, w.cursor.ReadAt(offset, n), call.choice)
    case Write(data) => AnswerOf(w, w.cursor.Write(w.append, data).1, call.choice)
    case Seek(offset, whence) => w.cursor.Seek(offset, whence).1
    case Truncate(size) => if size < 0 then Failed(NegativeSize) else Nothing
  }

  /** What the caller gets who waits for the kernel before doing anything else. */
  function AnswerOf(w: World, s: Submitted, choice: Option<nat>): Answer {
    match s
    case Now(a) => a
    case Accepted(r) => Transfer(w.file, r, Place(r, choice))
  }

  function Await(w: World, call: Call): World
    requires !call.step.Complete? && |w.requests| == |w.slots|
  {
    var w', k := Do(w, call.step), |w.requests|;
    if |w'.requests| > k then Do(w', Complete(k, Place(w'.requests[k], call.choice))) else w'
  }

  /** The call transfers at offset -1 and the kernel carries it out. */
  predicate Misplaced(w: World, call: Call) {
    call.choice.Some? &&
    match call.step
    case Read(n) => w.cursor.pos == -1 && Reserve(w.cursor.size + 1, n) > 0
    case Write(data) => !w.append && w.cursor.pos == -1 && data != []
    case _ => false
  }

  function ViewOf(w: World): Plain {
    Plain(w.file, w.cursor.pos)
  }

  /** The cached backend, awaited, leaves the same file and position and gives the same answer. */
  predicate Agree(w: World, call: Call)
    requires !call.step.Complete? && |w.requests| == |w.slots|
  {
    (ViewOf(Await(w, call)), AnswerNow(w, call)) == Uncached(ViewOf(w), w.append, call.step)
  }

  /** Awaited, a cached call does to the file and the position what the uncached one does and
      answers the same, at every position, if and only if it is not one at offset -1 that the
      kernel carries out. */
  lemma AwaitedIsUncached(w: World, call: Call)
    requires !call.step.Complete? && |w.requests| == |w.slots| && w.cursor.size == |w.file|
    ensures Agree(w, call) <==> !Misplaced(w, call)
  {
    hide Agree, Misplaced;
    match call.step {
      case Read(n) => ReadAwaited(w, n, call.choice);
      case ReadAt(offset, n) => ReadAtAwaited(w, offset, n, call.choice);
      case Write(data) => WriteAwaited(w, data, call.choice);
      case Seek(_, _) => CursorOnlyAwaited(w, call);
      case Truncate(_) => CursorOnlyAwaited(w, call);
    }
  }

  lemma ReadAwaited(w: World, n: int, choice: Option<nat>)
    requires |w.requests| == |w.slots| && w.cursor.size == |w.file|
    ensures Agree(w, Call(Read(n), choice)) <==> !Misplaced(w, Call(Read(n), choice))
  {
    SameReservation(w, w.cursor.pos, n);
    hide Reserve, ReadSpan, Slice;
  }

  lemma ReadAtAwaited(w: World, offset: int, n: int, choice: Option<nat>)
    requires |w.requests| == |w.slots| && w.cursor.size == |w.file|
    ensures Agree(w, Call(ReadAt(offset, n), choice)) && !Misplaced(w, Call(ReadAt(offset, n), choice))
  {
    SameReservation(w, offset, n);
    hide Reserve, ReadSpan, Slice;
  }

  lemma WriteAwaited(w: World, data: Bytes, choice: Option<nat>)
    requires |w.requests| == |w.slots| && w.cursor.size == |w.file|
    ensures Agree(w, Call(Write(data), choice)) <==> !Misplaced(w, Call(Write(data), choice))
  {
    hide Overwrite;
  }

  lemma CursorOnlyAwaited(w: World, call: Call)
    requires |w.requests| == |w.slots| && w.cursor.size == |w.file| && (call.step.Seek? || call.step.Truncate?)
    ensures Agree(w, call) && !Misplaced(w, call)
  {
  }

  lemma SameReservation(w: World, pos: int, n: int)
    requires w.cursor.size == |w.file|
    ensures Reserve(w.cursor.size - pos, n) == ReadSpan(|w.file|, pos, n)
    ensures pos >= 0 && Reserve(w.cursor.size - pos, n) > 0 ==>
              var k := ReadSpan(|w.file|, pos, n);
              pos + k <= |w.file| && Slice(w.file, pos, pos + k) == w.file[pos..pos + k]
  {
  }

  /** Afterwards the cached size is right again, unless the call wrote at a negative position. */
  lemma AwaitKeepsSize(w: World, call: Call)
    requires !call.step.Complete? && |w.requests| == |w.slots| && w.cursor.size == |w.file|
    requires call.step.Write? ==> w.append || call.step.data == [] || w.cursor.pos >= 0
    ensures var w' := Await(w, call);
            |w'.requests| == |w'.slots| && w'.cursor.size == |w'.file| && w'.append == w.append
  {
    hide Overwrite, Resize, Transfer, Slice;
    if call.step.Write? && call.step.data != [] {
      assert Do(w, call.step).requests[|w.requests|].offset == if w.append then w.cursor.size else w.cursor.pos;
    }
  }

  /** Every call is awaited, none writes at a negative position, and none transfers at -1. */
  predicate Awaitable(w: World, calls: seq<Call>)
    requires |w.requests| == |w.slots|
    decreases |calls|
  {
    calls == [] ||
    (&& !calls[0].step.Complete? && !Misplaced(w, calls[0])
     && (calls[0].step.Write? ==> w.append || calls[0].step.data == [] || w.cursor.pos >= 0)
     && |Await(w, calls[0]).requests| == |Await(w, calls[0]).slots|
     && Awaitable(Await(w, calls[0]), calls[1..]))
  }

  function AwaitAll(w: World, calls: seq<Call>): (World, seq<Answer>)
    requires |w.requests| == |w.slots| && Awaitable(w, calls)
    decreases |calls|
  {
    if calls == [] then (w, [])
    else
      var (w', rest) := AwaitAll(Await(w, calls[0]), calls[1..]);
      (w', [AnswerNow(w, calls[0])] + rest)
  }

  function UncachedAll(p: Plain, append: bool, calls: seq<Call>): (Plain, seq<Answer>)
    requires forall call :: call in calls ==> !call.step.Complete?
    decreases |calls|
  {
    if calls == [] then (p, [])
    else
      var (p', a) := Uncached(p, append, calls[0].step);
      var (p'', rest) := UncachedAll(p', append, calls[1..]);
      (p'', [a] + rest)
  }

  /** A caller who awaits each call cannot tell the cached backends from the uncached one. */
  lemma {:induction false} AwaitedRunIsUncached(w: World, calls: seq<Call>)
    requires |w.requests| == |w.slots| && w.cursor.size == |w.file| && Awaitable(w, calls)
    requires forall call :: call in calls ==> !call.step.Complete?
    ensures var (w', answers) := AwaitAll(w, calls);
            (ViewOf(w'), answers) == UncachedAll(ViewOf(w), w.append, calls) && w'.cursor.size == |w'.file|
    decreases |calls|
  {
    if calls != [] {
      AwaitedIsUncached(w, calls[0]);
      AwaitKeepsSize(w, calls[0]);
      hide Await, Uncached, AnswerNow, Misplaced;
      AwaitedRunIsUncached(Await(w, calls[0]), calls[1..]);
    }
  }

  /** The files seen between the steps of a run keep the contracts of `Backend` at every step. */
  ghost predicate BackendRun(ps: seq<Plain>, append: bool, calls: seq<Call>, answers: seq<Answer>) {
    && |ps| == |calls| + 1 && |answers| == |calls|
    && forall i :: 0 <= i < |calls| ==> BackendRunStep(ps, append, calls, answers, i)
  }

  predicate BackendRunStep(ps: seq<Plain>, append: bool, calls: seq<Call>, answers: seq<Answer>, i: nat)
    requires |ps| == |calls| + 1 && |answers| == |calls| && i < |calls|
  {
    !calls[i].step.Complete? && BackendStep(ps[i], append, true, calls[i].step, ps[i + 1], answers[i])
  }

  lemma BackendRunCons(p: Plain, call: Call, a: Answer,
                       ps: seq<Plain>, append: bool, calls: seq<Call>, answers: seq<Answer>)
    requires BackendRun(ps, append, calls, answers) && !call.step.Complete?
    requires BackendStep(p, append, true, call.step, ps[0], a)
    ensures BackendRun([p] + ps, append, [call] + calls, [a] + answers)
  {
    hide BackendStep;
    forall i | 0 <= i < |[call] + calls| ensures BackendRunStep([p] + ps, append, [call] + calls, [a] + answers, i) {
      if i > 0 { assert BackendRunStep(ps, append, calls, answers, i - 1); }
    }
  }

  /** So the cached backends can stand behind the handle: every awaited run of them is one that the
      contracts of `Backend`, which are all the handle relies on, allow. */
  lemma {:induction false} AwaitedRunIsBackendRun(w: World, calls: seq<Call>) returns (ps: seq<Plain>)
    requires |w.requests| == |w.slots| && w.cursor.size == |w.file| && Awaitable(w, calls)
    ensures var (w', answers) := AwaitAll(w, calls);
            BackendRun(ps, w.append, calls, answers) && ps[0] == ViewOf(w) && ps[|calls|] == ViewOf(w')
    decreases |calls|
  {
    if calls == [] {
      ps := [ViewOf(w)];
    } else {
      AwaitedIsUncached(w, calls[0]);
      AwaitKeepsSize(w, calls[0]);
      UncachedIsBackendStep(ViewOf(w), w.append, calls[0].step);
      hide Await, Uncached, AnswerNow, Misplaced, BackendStep, BackendRun;
      var w1 := Await(w, calls[0]);
      var rest := AwaitedRunIsBackendRun(w1, calls[1..]);
      var answers := AwaitAll(w1, calls[1..]).1;
      BackendRunShape(rest, w.append, calls[1..], answers);
      BackendRunCons(ViewOf(w), calls[0], AnswerNow(w, calls[0]), rest, w.append, calls[1..], answers);
      assert calls == [calls[0]] + calls[1..];
      ps := [ViewOf(w)] + rest;
    }
  }

  lemma BackendRunShape(ps: seq<Plain>, append: bool, calls: seq<Call>, answers: seq<Answer>)
    requires BackendRun(ps, append, calls, answers)
    ensures |ps| == |calls| + 1 && |answers| == |calls|
  {
  }

  /** With all delivered, the contracts leave no choice. */
  lemma ExactIsUncached(p: Plain, append: bool, step: Step, p': Plain, a: Answer)
    requires !step.Complete? && BackendStep(p, append, true, step, p', a)
    ensures (p', a) == Uncached(p, append, step)
  {
  }

  ghost predicate Mirrors(b: Backend, w: World)
    reads b
  {
    && b.cached && b.exact && b.append == w.append && |w.requests| == |w.slots|
    && b.View() == ViewOf(w) && b.cachedSize == w.cursor.size
  }

  /** The cached backend that the handle is proved on is a session whose calls are awaited one by
      one: it answers the same and stays in step with it, the cached size included. */
  method PerformMirrored(b: Backend, ghost w: World, step: Step) returns (a: Answer)
    requires !step.Complete? && b.Sound() && Mirrors(b, w)
    modifies b
    ensures a == AnswerNow(w, Call(step, None)) && Mirrors(b, Await(w, Call(step, None)))
  {
    hide Uncached, AnswerNow, Misplaced, BackendStep;
    ghost var before := b.View();
    AwaitedIsUncached(w, Call(step, None));
    NotMisplaced(w, step);
    AwaitedSize(w, step);
    a := Perform(b, step);
    ExactIsUncached(before, b.append, step, b.View(), a);
  }

  lemma NotMisplaced(w: World, step: Step)
    ensures !Misplaced(w, Call(step, None))
  {
  }

  lemma AwaitedSize(w: World, step: Step)
    requires !step.Complete? && |w.requests| == |w.slots|
    ensures var w' := Await(w, Call(step, None));
            && w'.append == w.append && |w'.requests| == |w'.slots|
            && w'.cursor.size == NextSize(w'.cursor.pos, w.cursor.size, step)
  {
    hide Landed, Transfer, Resize;
  }

  /** A write at a position below -1 is refused by the kernel but may still raise the cached size
      (both compare as unsigned): from then on the cached backends read nothing. */
  lemma NegativeWriteBreaksTheCache(file: Bytes, data: Bytes, choice: Option<nat>)
    requires 0 < |file| < INT64_LIMIT && data != []
    ensures var w := World(file, Cursor(-|data| - 1, |file|), false, [], [], file);
            && |w.requests| == |w.slots| && w.cursor.size == |w.file|
            && AnswerNow(w, Call(Write(data), choice)) == Failed(InvalidArgument)
            && var w' := Await(w, Call(Write(data), choice));
               && w'.file == file && AnswerNow(w', Call(ReadAt(0, -1), choice)) == Data([])
               && Uncached(ViewOf(w'), false, ReadAt(0, -1)).1 == Data(file)
  {
    var w := World(file, Cursor(-|data| - 1, |file|), false, [], [], file);
    assert Do(w, Write(data)).cursor.pos == -1;
    assert file[0..|file|] == file;
  }

  // ------------------------------------------------------------------ reads that are not awaited

  predicate OnlyReads(steps: seq<Step>) {
    forall step :: step in steps ==> step.Read? || step.ReadAt? || step.Complete?
  }

  /** The advancing reads among the requests cover from..to without gap or overlap. */
  predicate Consecutive(requests: seq<Request>, from: int, to: int)
    decreases |requests|
  {
    if requests == [] then from == to
    else
      var r, before := requests[|requests| - 1], requests[..|requests| - 1];
      r.ReadRequest? && if r.advances then r.offset + r.size == to && Consecutive(before, from, r.offset)
                        else Consecutive(before, from, to)
  }

  /** What the advancing reads were answered, in the order of submission. */
  function Delivered(requests: seq<Request>, slots: seq<Slot>): Bytes
    requires |requests| == |slots|
    decreases |requests|
  {
    if requests == [] then []
    else
      var k := |requests| - 1;
      Delivered(requests[..k], slots[..k]) +
      if requests[k].ReadRequest? && requests[k].advances && slots[k].Finished? && slots[k].answer.Data?
      then slots[k].answer.bytes else []
  }

  predicate ReadInFile(file: Bytes, r: Request) {
    r.ReadRequest? && 0 <= r.offset && r.offset + r.size <= |file|
  }

  /** A read that is answered has been answered with its own slice. */
  predicate OwnSlice(file: Bytes, r: Request, slot: Slot)
    requires ReadInFile(file, r)
  {
    slot == Waiting || slot == Finished(Data(file[r.offset..r.offset + r.size]))
  }

  /** Since the state w0 only reads have been submitted. */
  ghost predicate ReadingSince(w0: World, w: World) {
    && ReadingHead(w0, w) && AnsweredSo(|w0.requests|, w)
    && Consecutive(w.requests[|w0.requests|..], w0.cursor.pos, w.cursor.pos)
  }

  ghost predicate ReadingHead(w0: World, w: World) {
    var k := |w0.requests|;
    && w.file == w0.file && w.cursor.size == |w.file| && w0.cursor.pos <= w.cursor.pos && 0 <= w.cursor.pos
    && |w.requests| == |w.slots| && k <= |w.requests| && w.requests[..k] == w0.requests
    && forall i: nat :: i < k ==> !Pending(w, i) && !Adrift(w, i)
  }

  ghost predicate AnsweredSo(k: nat, w: World)
    requires |w.requests| == |w.slots|
  {
    forall i :: k <= i < |w.requests| ==>
      ReadInFile(w.file, w.requests[i]) && OwnSlice(w.file, w.requests[i], w.slots[i])
  }

  lemma SubmitKeepsReading(w0: World, w: World, c: Cursor, r: Request)
    requires ReadingSince(w0, w) && ReadInFile(w.file, r) && c.size == w.cursor.size
    requires if r.advances then r.offset == w.cursor.pos && c.pos == r.offset + r.size else c == w.cursor
    ensures ReadingSince(w0, Enter(w, c, Accepted(r)))
  {
    hide Consecutive, AnsweredSo;
    var w', k := Enter(w, c, Accepted(r)), |w0.requests|;
    SubmitKeepsHead(w0, w, c, r);
    SubmitAnswersSo(k, w, c, r);
    hide ReadingHead;
    ConsecutiveStep(w.requests[k..], r, w0.cursor.pos, w.cursor.pos, c.pos);
    assert w'.requests[k..] == w.requests[k..] + [r];
  }

  lemma SubmitKeepsHead(w0: World, w: World, c: Cursor, r: Request)
    requires ReadingHead(w0, w) && c.size == w.cursor.size && c.pos >= w.cursor.pos
    ensures ReadingHead(w0, Enter(w, c, Accepted(r)))
  {
    EnterKeepsPending(w, c, r);
    var w', k := Enter(w, c, Accepted(r)), |w0.requests|;
    hide Pending;
    assert w'.requests[..k] == w.requests[..k];
  }

  lemma SubmitAnswersSo(k: nat, w: World, c: Cursor, r: Request)
    requires |w.requests| == |w.slots| && AnsweredSo(k, w) && ReadInFile(w.file, r)
    ensures AnsweredSo(k, Enter(w, c, Accepted(r)))
  {
  }

  lemma ConsecutiveStep(requests: seq<Request>, r: Request, from: int, mid: int, to: int)
    requires r.ReadRequest? && Consecutive(requests, from, mid)
    requires if r.advances then r.offset == mid && to == mid + r.size else to == mid
    ensures Consecutive(requests + [r], from, to)
  {
    assert (requests + [r])[..|requests|] == requests;
  }

  lemma CompleteKeepsReading(w0: World, w: World, i: nat, at: Option<nat>)
    requires ReadingSince(w0, w) && Enabled(w, Complete(i, at))
    ensures ReadingSince(w0, Do(w, Complete(i, at)))
  {
    hide Consecutive;
    CompleteReadsOnly(w0, w, i, at);
    CompleteKeepsHead(w0, w, i, at);
    hide ReadingHead, AnsweredSo;
    CompleteAnswersSo(|w0.requests|, w, i, at);
  }

  lemma CompleteReadsOnly(w0: World, w: World, i: nat, at: Option<nat>)
    requires ReadingHead(w0, w) && AnsweredSo(|w0.requests|, w) && Enabled(w, Complete(i, at))
    ensures Do(w, Complete(i, at)).file == w.file
  {
    if i < |w0.requests| {
      assert !Pending(w, i) && !Adrift(w, i);
    } else {
      assert ReadInFile(w.file, w.requests[i]);
    }
  }

  lemma CompleteKeepsHead(w0: World, w: World, i: nat, at: Option<nat>)
    requires ReadingHead(w0, w) && Enabled(w, Complete(i, at)) && Do(w, Complete(i, at)).file == w.file
    ensures ReadingHead(w0, Do(w, Complete(i, at)))
  {
    assert forall j: nat :: Pending(Do(w, Complete(i, at)), j) ==> Pending(w, j);
    assert forall j: nat :: Adrift(Do(w, Complete(i, at)), j) ==> Adrift(w, j);
  }

  lemma CompleteAnswersSo(k: nat, w: World, i: nat, at: Option<nat>)
    requires |w.requests| == |w.slots| && AnsweredSo(k, w) && Enabled(w, Complete(i, at))
    requires Do(w, Complete(i, at)).file == w.file
    ensures AnsweredSo(k, Do(w, Complete(i, at)))
  {
    var r := w.requests[i];
    if i >= k {
      assert ReadInFile(w.file, r) && Slice(w.file, r.offset, r.offset + r.size) == w.file[r.offset..r.offset + r.size];
    }
  }

  lemma StepKeepsReading(w0: World, w: World, step: Step)
    requires ReadingSince(w0, w) && Enabled(w, step) && (step.Read? || step.ReadAt? || step.Complete?)
    ensures ReadingSince(w0, Do(w, step))
  {
    hide ReadingSince;
    ReadingShape(w0, w);
    match step {
      case Read(n) =>
        var (c, s) := w.cursor.Read(n);
        if s.Accepted? { SubmitKeepsReading(w0, w, c, s.request); }
      case ReadAt(offset, n) =>
        var s := w.cursor.ReadAt(offset, n);
        if s.Accepted? { SubmitKeepsReading(w0, w, w.cursor, s.request); }
      case Complete(i, at) => CompleteKeepsReading(w0, w, i, at);
    }
  }

  lemma ReadingShape(w0: World, w: World)
    requires ReadingSince(w0, w)
    ensures w.cursor.size == |w.file| && 0 <= w.cursor.pos && w0.cursor.pos <= w.cursor.pos
  {
  }

  lemma {:induction false} ReadingRun(w0: World, w: World, steps: seq<Step>)
    requires ReadingSince(w0, w) && CarefulRun(w, steps) && OnlyReads(steps)
    ensures ReadingSince(w0, Final(w, steps))
    decreases |steps|
  {
    if steps != [] {
      StepKeepsReading(w0, w, steps[0]);
      hide ReadingSince;
      ReadingRun(w0, Do(w, steps[0]), steps[1..]);
    }
  }

  lemma {:induction false} DeliveredIsSlice(file: Bytes, requests: seq<Request>, slots: seq<Slot>, from: nat, to: nat)
    requires |requests| == |slots| && from <= to && (to == from || to <= |file|) && Consecutive(requests, from, to)
    requires forall i :: 0 <= i < |requests| ==>
               ReadInFile(file, requests[i]) && OwnSlice(file, requests[i], slots[i]) && slots[i] != Waiting
    ensures to <= |file| ==> Delivered(requests, slots) == file[from..to]
    ensures to > |file| ==> Delivered(requests, slots) == []
    decreases |requests|
  {
    if requests != [] {
      var k := |requests| - 1;
      var r := requests[k];
      var mid := if r.advances then r.offset else to;
      ConsecutiveOrdered(requests[..k], from, mid);
      assert requests[..k] == requests[..|requests| - 1];
      DeliveredIsSlice(file, requests[..k], slots[..k], from, mid);
      if r.advances {
        assert file[from..mid] + file[mid..to] == file[from..to];
      }
    }
  }

  lemma {:induction false} ConsecutiveOrdered(requests: seq<Request>, from: int, to: int)
    requires Consecutive(requests, from, to)
    ensures from <= to
    decreases |requests|
  {
    if requests != [] {
      var r, before := requests[|requests| - 1], requests[..|requests| - 1];
      ConsecutiveOrdered(before, from, if r.advances then r.offset else to);
    }
  }

  /** However `read`, `readinto` and `read_at` calls and completions interleave: once everything
      has completed, the answers of the advancing reads, put together in the order of submission,
      are the file from the first position to the last; each `read_at` got its own slice. */
  lemma ReadsDeliverTheFile(w0: World, steps: seq<Step>)
    requires CacheExact(w0) && NoWritePending(w0) && w0.cursor.pos >= 0
    requires CarefulRun(w0, steps) && OnlyReads(steps)
    ensures var w, k := Final(w0, steps), |w0.requests|;
            && w.file == w0.file && w0.cursor.pos <= w.cursor.pos && |w.requests| == |w.slots| && k <= |w.requests|
            && AnsweredSo(k, w)
            && ((forall i :: k <= i < |w.slots| ==> w.slots[i] != Waiting) ==>
                  Delivered(w.requests[k..], w.slots[k..]) == Slice(w.file, w0.cursor.pos, w.cursor.pos))
  {
    assert w0.requests[|w0.requests|..] == [];
    QuietCache(w0);
    ReadingRun(w0, w0, steps);
    var w, k := Final(w0, steps), |w0.requests|;
    if forall i :: k <= i < |w.slots| ==> w.slots[i] != Waiting {
      NotPastTheEnd(w.file, w.requests[k..], w0.cursor.pos, w.cursor.pos);
      DeliveredIsSlice(w.file, w.requests[k..], w.slots[k..], w0.cursor.pos, w.cursor.pos);
    }
  }

  lemma {:induction false} NotPastTheEnd(file: Bytes, requests: seq<Request>, from: nat, to: int)
    requires Consecutive(requests, from, to)
    requires forall i :: 0 <= i < |requests| ==> ReadInFile(file, requests[i])
    ensures to == from || to <= |file|
    decreases |requests|
  {
    if requests != [] {
      var r, before := requests[|requests| - 1], requests[..|requests| - 1];
      NotPastTheEnd(file, before, from, if r.advances then r.offset else to);
    }
  }
}
