/** The buffered handle (ayafileio/_async_file.py, class AsyncFile).

    `readline` reads ahead into a private buffer, so the backend stands beyond the position the
    user has reached. Every operation is proved to act exactly as on the plain file at the
    logical position. */
module AsyncFiles {
  import opened Newlines
  import opened RawFile

  const READLINE_BUF: nat := 65536

  // ------------------------------------------------------------------ what lines a reader sees

  /** One returned line: text is translated; a binary line is raw, except that the last line of
      the file gets an LF appended when it ends in a lone CR. */
  function Rendered(line: Bytes, last: bool, m: Newline, isText: bool): Bytes {
    var out := if last && m.Universal? && line != [] && line[|line| - 1] == CR then line + [LF] else line;
    if isText then TranslateForRead(out, m) else out
  }

  /** Only the end of the file reads as an empty line. */
  lemma RenderedNonEmpty(line: Bytes, last: bool, m: Newline, isText: bool)
    ensures Rendered(line, last, m, isText) == [] <==> line == []
  {
    TwoPassesAreOne(line);
    TwoPassesAreOne(line + [LF]);
  }

  /** Everything that repeated `readline` calls return on this remaining content. */
  function AllLines(rest: Bytes, m: Newline, isText: bool): (ls: seq<Bytes>)
    ensures rest != [] ==>
              |ls| > 0 && ls[0] == Rendered(rest[..LineLen(rest, m)], LineLen(rest, m) == |rest|, m, isText)
  {
    if rest == [] then []
    else
      var n := LineLen(rest, m);
      [Rendered(rest[..n], n == |rest|, m, isText)] + AllLines(rest[n..], m, isText)
  }

  lemma TrailingCr(line: Bytes)
    requires line != [] && line[|line| - 1] == CR
    ensures Normalize(line + [LF]) == Normalize(line)
    decreases |line|
  {
    if |line| == 1 {
      assert (line + [LF])[2..] == [] == line[1..];
    } else {
      var n := UnitLen(line);
      assert UnitLen(line + [LF]) == n;
      assert (line + [LF])[n..] == line[n..] + [LF];
      assert (line + [LF])[0] == line[0];
      TrailingCr(line[n..]);
    }
  }

  /** A text line is what reading its bytes gives: the appended LF is invisible, and in every mode
      but the universal one the line is its bytes. */
  lemma RenderedText(line: Bytes, last: bool, m: Newline)
    ensures Rendered(line, last, m, true) == TranslateForRead(line, m)
    ensures Rendered(line, last, m, true) == if m.Universal? then Normalize(line) else line
  {
    TwoPassesAreOne(line);
    if last && m.Universal? && line != [] && line[|line| - 1] == CR {
      TrailingCr(line);
      TwoPassesAreOne(line + [LF]);
    }
  }

  /** The lines of a text file, joined, are what `read(-1)` returns, in every newline mode: the content
      itself in every mode but the universal one. */
  lemma {:induction false} LinesJoinToRead(rest: Bytes, m: Newline)
    ensures Flatten(AllLines(rest, m, true)) == TranslateForRead(rest, m)
    ensures Flatten(AllLines(rest, m, true)) == if m.Universal? then Normalize(rest) else rest
    decreases |rest|
  {
    ReadTranslation(rest, m);
    if rest != [] {
      var n := LineLen(rest, m);
      var line, tail := rest[..n], rest[n..];
      LinesJoinToRead(tail, m);
      RenderedText(line, n == |rest|, m);
      assert AllLines(rest, m, true)[1..] == AllLines(tail, m, true);
      TranslateLine(rest, m);
    }
  }

  /** A line cut never separates a CR from its LF, so translation distributes over it. */
  lemma TranslateLine(rest: Bytes, m: Newline)
    requires rest != []
    ensures var n := LineLen(rest, m);
            TranslateForRead(rest, m) == TranslateForRead(rest[..n], m) + TranslateForRead(rest[n..], m)
  {
    var n := LineLen(rest, m);
    var line, tail := rest[..n], rest[n..];
    assert rest == line + tail;
    if m.Universal? {
      TwoPassesAreOne(rest);
      TwoPassesAreOne(line);
      TwoPassesAreOne(tail);
      if tail != [] { assert EndsAt(rest, n, m) && rest[n] == tail[0] && rest[n - 1] == line[n - 1]; }
      NormalizeSplit(line, tail);
    }
  }

  /** The lines of a binary file, joined, are its content exactly when it does not end in CR;
      otherwise one LF that is not in the file follows. */
  lemma {:induction false} BinaryLinesJoin(rest: Bytes)
    ensures Flatten(AllLines(rest, Universal, false))
            == rest + if rest != [] && rest[|rest| - 1] == CR then [LF] else []
    decreases |rest|
  {
    if rest != [] {
      var n := LineLen(rest, Universal);
      var line, tail := rest[..n], rest[n..];
      BinaryLinesJoin(tail);
      assert rest == line + tail;
      assert AllLines(rest, Universal, false)[1..] == AllLines(tail, Universal, false);
      if tail != [] {
        assert tail[|tail| - 1] == rest[|rest| - 1];
        ConcatAssoc(line, tail, if rest[|rest| - 1] == CR then [LF] else []);
      }
    }
  }

  lemma BinaryLinesAreTheContent(rest: Bytes)
    ensures Flatten(AllLines(rest, Universal, false)) == rest <==> !(rest != [] && rest[|rest| - 1] == CR)
  {
    BinaryLinesJoin(rest);
    if rest != [] && rest[|rest| - 1] == CR { assert |rest + [LF]| != |rest|; }
  }

  function TotalLen(ls: seq<Bytes>): nat {
    if ls == [] then 0 else |ls[0]| + TotalLen(ls[1..])
  }

  lemma TotalLenAppend(ls: seq<Bytes>, l: Bytes)
    ensures TotalLen(ls + [l]) == TotalLen(ls) + |l|
  {
    if ls != [] {
      assert (ls + [l])[1..] == ls[1..] + [l];
      TotalLenAppend(ls[1..], l);
    } else {
      assert ([l])[1..] == [];
    }
  }

  /** The number of lines `readlines(hint)` takes: the fewest that reach a positive hint. */
  predicate HintTakes(ls: seq<Bytes>, hint: int, j: nat) {
    && j <= |ls|
    && (forall i :: 0 < i < j ==> !(0 < hint <= TotalLen(ls[..i])))
    && (j == |ls| || (j > 0 && 0 < hint <= TotalLen(ls[..j])))
  }

  /** The content from the position on. */
  function Rest(f: Plain): Bytes {
    if 0 <= f.pos <= |f.content| then f.content[f.pos..] else []
  }

  /** What a read hands to the caller for these bytes: text in universal mode is translated, and
      everything else is delivered as it is. */
  function ReadAs(raw: Result<Bytes>, isText: bool, m: Newline): Result<Bytes> {
    if raw.Ok? && isText && m.Universal? then Ok(Normalize(raw.value)) else raw
  }

  /** What a write sends to the file for this data. */
  predicate SentAs(data: Bytes, isText: bool, m: Newline, linesep: Bytes, w: Bytes) {
    if isText then WrittenAs(data, m, linesep, w) else w == data
  }

  /** What one `readline` does to the plain file. */
  predicate LineOutcome(f: Plain, m: Newline, isText: bool, f': Plain, r: Result<Bytes>) {
    if f.pos >= |f.content| then f' == f && r == Ok([])
    else if f.pos < 0 then
      f' == f.(pos := f.pos + ReadSpan(|f.content|, f.pos, 65536)) && r == Err(InvalidArgument)
    else
      var rest := Rest(f);
      var n := LineLen(rest, m);
      f' == f.(pos := f.pos + n) && r == Ok(Rendered(rest[..n], n == |rest|, m, isText))
  }

  /** Returning the next n bytes, decoded, is what `readline` does at f. */
  predicate LineReady(f: Plain, m: Newline, isText: bool, n: nat) {
    && n <= |Rest(f)|
    && var line := Rest(f)[..n];
       LineOutcome(f, m, isText, f.(pos := f.pos + n), Ok(if isText then TranslateForRead(line, m) else line))
  }

  /** If the n buffered bytes are all that remains, they are the last line. */
  predicate LastIfAll(f: Plain, m: Newline, n: int) {
    n == |Rest(f)| ==> LineLen(Rest(f), m) == |Rest(f)|
  }

  /** A search of the unconsumed buffer, which is the beginning of what remains at f. */
  lemma SearchedLine(buf: Bytes, start: nat, f: Plain, m: Newline, isText: bool)
    requires start <= |buf| && |buf| - start <= |Rest(f)|
    requires buf[start..] == Rest(f)[..|buf| - start]
    ensures var (p, l) := FindLineEnd(buf, start, m, false);
            if p == -1 then LastIfAll(f, m, |buf| - start)
            else start < p + l <= |buf| && LineReady(f, m, isText, p + l - start)
  {
    hide FindLineEnd, TranslateForRead;
    var rest := Rest(f);
    var more := rest[|buf| - start..];
    assert buf[start..] + more == rest;
    FindLineEndIsFirstLine(buf, start, more, m);
  }

  /** Bytes taken from the buffer and then bytes read behind them are one read. */
  lemma ReadJoins(f: Plain, n: int, k: nat, exact: bool, f': Plain, more: Result<Bytes>)
    requires 0 <= f.pos && 0 < k && f.pos + k <= |f.content| && (n < 0 || k < n)
    requires f.(pos := f.pos + k).ReadOutcome(if n < 0 then -1 else n - k, exact, f', more)
    ensures more.Ok? && f.ReadOutcome(n, exact, f', Ok(Rest(f)[..k] + more.value))
  {
    assert f.content[f.pos..f'.pos] == Rest(f)[..k] + more.value;
  }

  lemma ReadTaken(f: Plain, n: nat, exact: bool)
    requires 0 <= f.pos && f.pos + n <= |f.content|
    requires n == 0 ==> f.pos < |f.content|
    ensures f.ReadOutcome(n, exact, f.(pos := f.pos + n), Ok(Rest(f)[..n]))
  {
  }

  lemma ReadShort(f: Plain, n: nat, k: nat, f': Plain)
    requires k <= n && (k == 0 ==> n == 0) && 0 <= f.pos && f.pos + k <= |f.content| && f.pos < |f.content|
    requires f' == f.(pos := f.pos + k)
    ensures f.ReadOutcome(n, false, f', Ok(Rest(f)[..k]))
  {
  }

  lemma EofIsLine(f: Plain, line: Bytes, m: Newline, isText: bool)
    requires 0 <= f.pos < |f.content| && line == Rest(f) && LineLen(line, m) == |line|
    ensures LineOutcome(f, m, isText, f.(pos := |f.content|), Ok(Rendered(line, true, m, isText)))
  {
    assert line[..|line|] == line;
  }

  /** What `readlines(hint)` does: the first lines of what remains, as many as the hint takes. */
  predicate LinesOutcome(f: Plain, hint: int, m: Newline, isText: bool, f': Plain, r: Result<seq<Bytes>>) {
    if f.pos < 0 then
      f' == f.(pos := f.pos + ReadSpan(|f.content|, f.pos, READLINE_BUF)) && r == Err(InvalidArgument)
    else
      var raw, all := Lines(Rest(f), m), AllLines(Rest(f), m, isText);
      && r.Ok? && HintTakes(all, hint, |r.value|) && r.value == all[..|r.value|]
      && |r.value| <= |raw| && f' == f.(pos := f.pos + TotalLen(raw[..|r.value|]))
  }

  /** The plain files seen between successive `readline` calls that returned these lines. */
  predicate LineTrace(fs: seq<Plain>, m: Newline, isText: bool, lines: seq<Bytes>) {
    && |fs| == |lines| + 1
    && forall i :: 0 <= i < |lines| ==> LineStep(fs, m, isText, lines, i)
  }

  predicate LineStep(fs: seq<Plain>, m: Newline, isText: bool, lines: seq<Bytes>, i: nat)
    requires i < |lines| && |fs| == |lines| + 1
  {
    lines[i] != [] && LineOutcome(fs[i], m, isText, fs[i + 1], Ok(lines[i]))
  }

  lemma TraceTail(fs: seq<Plain>, m: Newline, isText: bool, lines: seq<Bytes>)
    requires LineTrace(fs, m, isText, lines) && lines != []
    ensures lines[0] != [] && LineOutcome(fs[0], m, isText, fs[1], Ok(lines[0]))
    ensures LineTrace(fs[1..], m, isText, lines[1..])
  {
    hide LineOutcome;
    assert LineStep(fs, m, isText, lines, 0);
    forall i | 0 <= i < |lines[1..]| ensures LineStep(fs[1..], m, isText, lines[1..], i) {
      assert LineStep(fs, m, isText, lines, i + 1);
    }
  }

  lemma TraceExtend(fs: seq<Plain>, m: Newline, isText: bool, lines: seq<Bytes>, g: Plain, line: Bytes)
    requires LineTrace(fs, m, isText, lines)
    requires line != [] && LineOutcome(fs[|lines|], m, isText, g, Ok(line))
    ensures LineTrace(fs + [g], m, isText, lines + [line])
  {
    hide LineOutcome;
    forall i | 0 <= i < |lines + [line]| ensures LineStep(fs + [g], m, isText, lines + [line], i) {
      if i < |lines| { assert LineStep(fs, m, isText, lines, i); }
    }
  }

  /** The lines are the first ones of what remains at f, and `last` stands behind them. */
  predicate FirstLines(f: Plain, m: Newline, isText: bool, lines: seq<Bytes>, last: Plain) {
    var raw, all := Lines(Rest(f), m), AllLines(Rest(f), m, isText);
    && |lines| <= |all| == |raw| && lines == all[..|lines|]
    && last == f.(pos := f.pos + TotalLen(raw[..|lines|]))
    && (lines != [] ==> f.pos >= 0)
    && (AllLines(Rest(last), m, isText) == [] ==> |all| == |lines|)
  }

  lemma {:induction false} TracedLines(fs: seq<Plain>, m: Newline, isText: bool, lines: seq<Bytes>)
    requires LineTrace(fs, m, isText, lines)
    ensures |fs| == |lines| + 1 && FirstLines(fs[0], m, isText, lines, fs[|lines|])
    decreases |lines|
  {
    hide Lines, AllLines, Rendered, LineLen, Rest;
    SameCount(Rest(fs[0]), m, isText);
    if lines != [] {
      hide FirstLines, LineOutcome;
      TraceTail(fs, m, isText, lines);
      LineThenRest(fs[0], m, isText, fs[1], lines[0]);
      hide LineTrace;
      TracedLines(fs[1..], m, isText, lines[1..]);
      LinePrepended(fs[0], m, isText, lines, fs[1], fs[|lines|]);
    }
  }

  lemma LinePrepended(f: Plain, m: Newline, isText: bool, lines: seq<Bytes>, g: Plain, last: Plain)
    requires lines != [] && 0 <= f.pos && Rest(f) != [] && FirstLines(g, m, isText, lines[1..], last)
    requires var n := LineLen(Rest(f), m);
             && g == f.(pos := f.pos + n) && Rest(g) == Rest(f)[n..]
             && lines[0] == Rendered(Rest(f)[..n], n == |Rest(f)|, m, isText)
    ensures FirstLines(f, m, isText, lines, last)
  {
    hide Lines, AllLines, Rendered, LineLen, Rest, TotalLen;
    FirstLineOf(Rest(f), m, isText, |lines| - 1);
    assert lines == [lines[0]] + lines[1..];
  }

  lemma LineThenRest(f: Plain, m: Newline, isText: bool, g: Plain, line: Bytes)
    requires LineOutcome(f, m, isText, g, Ok(line)) && line != []
    ensures 0 <= f.pos && Rest(f) != []
    ensures var n := LineLen(Rest(f), m);
            && g == f.(pos := f.pos + n) && Rest(g) == Rest(f)[n..] && |Rest(g)| < |Rest(f)|
            && line == Rendered(Rest(f)[..n], n == |Rest(f)|, m, isText)
  {
    hide Rendered;
    RestStep(f, LineLen(Rest(f), m));
  }

  lemma SameCount(rest: Bytes, m: Newline, isText: bool)
    ensures |Lines(rest, m)| == |AllLines(rest, m, isText)|
    decreases |rest|
  {
    if rest != [] { SameCount(rest[LineLen(rest, m)..], m, isText); }
  }

  lemma FirstLineOf(rest: Bytes, m: Newline, isText: bool, k: nat)
    requires rest != [] && var n := LineLen(rest, m);
             k <= |Lines(rest[n..], m)| == |AllLines(rest[n..], m, isText)|
    ensures var n := LineLen(rest, m);
            && TotalLen(Lines(rest, m)[..k + 1]) == n + TotalLen(Lines(rest[n..], m)[..k])
            && |Lines(rest, m)| == 1 + |Lines(rest[n..], m)| == |AllLines(rest, m, isText)|
            && Lines(rest, m)[..k + 1] == [rest[..n]] + Lines(rest[n..], m)[..k]
            && AllLines(rest, m, isText)[..k + 1]
               == [Rendered(rest[..n], n == |rest|, m, isText)] + AllLines(rest[n..], m, isText)[..k]
  {
    hide Rendered, LineLen;
    var n := LineLen(rest, m);
    assert Lines(rest, m)[..k + 1] == [rest[..n]] + Lines(rest[n..], m)[..k];
    assert ([rest[..n]] + Lines(rest[n..], m)[..k])[1..] == Lines(rest[n..], m)[..k];
  }

  /** The calls stop at the end of the file or when the hint is reached. */
  lemma TraceOutcome(fs: seq<Plain>, hint: int, m: Newline, isText: bool, lines: seq<Bytes>)
    requires LineTrace(fs, m, isText, lines) && fs[0].pos >= 0
    requires || (AllLines(Rest(fs[|lines|]), m, isText) == [] && BelowHint(lines, hint))
             || (|lines| > 0 && BelowHint(lines[..|lines| - 1], hint) && 0 < hint <= TotalLen(lines))
    ensures LinesOutcome(fs[0], hint, m, isText, fs[|lines|], Ok(lines))
  {
    hide AllLines, Lines, LineTrace, Rest, TotalLen;
    TracedLines(fs, m, isText, lines);
    var all := AllLines(Rest(fs[0]), m, isText);
    forall i | 0 < i < |lines| ensures all[..i] == lines[..i] && !(0 < hint <= TotalLen(lines[..i])) {
      assert |lines| > 0 && lines[..|lines| - 1][..i] == lines[..i];
    }
  }

  /** What one more call tells. */
  lemma NextLine(fs: seq<Plain>, m: Newline, isText: bool, lines: seq<Bytes>, g: Plain, r: Result<Bytes>)
    requires LineTrace(fs, m, isText, lines) && LineOutcome(fs[|lines|], m, isText, g, r)
    ensures r.Err? ==> forall hint :: LinesOutcome(fs[0], hint, m, isText, g, Err(r.error))
    ensures r == Ok([]) ==> AllLines(Rest(fs[|lines|]), m, isText) == [] && g == fs[|lines|] && fs[0].pos >= 0
    ensures r.Ok? && r.value != [] ==> LineTrace(fs + [g], m, isText, lines + [r.value])
                                       && fs[0].pos >= 0 && |Rest(g)| < |Rest(fs[|lines|])|
  {
    hide Rendered, LineLen, LineTrace;
    TracedLines(fs, m, isText, lines);
    var f := fs[|lines|];
    if r.Ok? && f.pos < |f.content| {
      RenderedNonEmpty(Rest(f)[..LineLen(Rest(f), m)], LineLen(Rest(f), m) == |Rest(f)|, m, isText);
      LineThenRest(f, m, isText, g, r.value);
      TraceExtend(fs, m, isText, lines, g, r.value);
    }
  }

  lemma NoLinesYet(f: Plain, m: Newline, isText: bool, hint: int)
    ensures LineTrace([f], m, isText, []) && TotalLen([]) == 0 && BelowHint([], hint)
  {
  }

  /** No number of these lines reaches the hint. */
  predicate BelowHint(lines: seq<Bytes>, hint: int) {
    forall i :: 0 < i <= |lines| ==> !(0 < hint <= TotalLen(lines[..i]))
  }

  lemma OneMoreLine(lines: seq<Bytes>, line: Bytes, hint: int)
    requires BelowHint(lines, hint)
    ensures var next := lines + [line];
            && TotalLen(next) == TotalLen(lines) + |line| && next[..|next| - 1] == lines
            && (!(0 < hint <= TotalLen(next)) ==> BelowHint(next, hint))
  {
    TotalLenAppend(lines, line);
    var next := lines + [line];
    assert next[..|next|] == next;
    assert forall i :: 0 < i <= |lines| ==> next[..i] == lines[..i];
  }

  lemma FlattenAppend(ls: seq<Bytes>, l: Bytes)
    ensures Flatten(ls + [l]) == Flatten(ls) + l
  {
    if ls == [] {
      assert ([l])[1..] == [];
    } else {
      assert (ls + [l])[1..] == ls[1..] + [l];
      FlattenAppend(ls[1..], l);
    }
  }

  /** What `chunk` yields: the rest of the file in non-empty blocks of at most `size` bytes. */
  predicate ChunkOutcome(f: Plain, size: nat, f': Plain, r: Result<seq<Bytes>>) {
    if size == 0 then f' == f && r == Ok([])
    else if f.pos < 0 then
      f' == f.(pos := f.pos + ReadSpan(|f.content|, f.pos, size)) && r == Err(InvalidArgument)
    else
      && r.Ok? && Flatten(r.value) == Rest(f) && (forall p :: p in r.value ==> 0 < |p| <= size)
      && f' == f.(pos := if f.pos < |f.content| then |f.content| else f.pos)
  }

  /** Between f and g these blocks were yielded. */
  predicate Yielded(f: Plain, g: Plain, size: nat, pieces: seq<Bytes>) {
    && (if pieces == [] then g == f
        else 0 <= f.pos <= g.pos <= |f.content| && g == f.(pos := g.pos) && Flatten(pieces) == f.content[f.pos..g.pos])
    && forall p :: p in pieces ==> 0 < |p| <= size
  }

  lemma NothingYielded(f: Plain, size: nat)
    ensures Yielded(f, f, size, [])
  {
  }

  lemma YieldNext(f: Plain, g: Plain, size: nat, pieces: seq<Bytes>, exact: bool, g': Plain, r: Result<Bytes>)
    requires Yielded(f, g, size, pieces) && g.ReadOutcome(size, exact, g', r)
    ensures r.Err? ==> ChunkOutcome(f, size, g', Err(r.error))
    ensures r == Ok([]) ==> ChunkOutcome(f, size, g', Ok(pieces))
    ensures r.Ok? && r.value != [] ==> |g'.content| == |f.content| && g.pos < g'.pos <= |f.content|
    ensures r.Ok? && r.value != [] ==> Yielded(f, g', size, pieces + [r.value])
  {
    hide Flatten;
    if pieces != [] { assert 0 < |pieces[0]| <= size; }
    if r.Ok? && r.value != [] {
      FlattenAppend(pieces, r.value);
      if pieces == [] { NoPieces(); }
      assert f.content[f.pos..g'.pos] == f.content[f.pos..g.pos] + f.content[g.pos..g'.pos];
    } else if pieces == [] {
      NoPieces();
    }
  }

  lemma NoPieces()
    ensures Flatten([]) == []
  {
  }

  lemma TakePrefix(buf: Bytes, start: nat, end: nat)
    requires start <= end <= |buf|
    ensures buf[start..end] == buf[start..][..end - start]
    ensures buf[end..] == buf[start..][end - start..]
  {
  }

  lemma TakeOfPrefix(rest: Bytes, k: nat, n: nat)
    requires k <= n <= |rest|
    ensures rest[..n][..k] == rest[..k]
    ensures rest[..n][k..] == rest[k..][..n - k]
  {
  }

  /** Taking bytes off the front of the buffer leaves what lies ahead of the new position. */
  lemma TakenAhead(buf: Bytes, start: nat, end: nat, f: Plain)
    requires start <= end <= |buf| && 0 <= f.pos && f.pos + (|buf| - start) <= |f.content|
    requires |buf| - start <= |Rest(f)| && buf[start..] == Rest(f)[..|buf| - start]
    ensures end - start <= |Rest(f)| && buf[start..end] == Rest(f)[..end - start]
    ensures var f' := f.(pos := f.pos + (end - start));
            |buf| - end <= |Rest(f')| && buf[end..] == Rest(f')[..|buf| - end]
  {
    TakePrefix(buf, start, end);
    RestStep(f, end - start);
    TakeOfPrefix(Rest(f), end - start, |buf| - start);
  }

  lemma RestStep(f: Plain, k: nat)
    requires 0 <= f.pos && f.pos + k <= |f.content|
    ensures |Rest(f)| == |f.content| - f.pos
    ensures Rest(f)[..k] == f.content[f.pos..f.pos + k]
    ensures Rest(f.(pos := f.pos + k)) == Rest(f)[k..]
    ensures Rest(f) == f.content[f.pos..f.pos + k] + Rest(f.(pos := f.pos + k))
  {
  }

  // ------------------------------------------------------------------ the handle

  lemma PrefixGrows(f: Plain, n: nat, pos: nat)
    requires 0 <= f.pos && f.pos + n <= pos <= |f.content|
    ensures n <= |Rest(f)| && pos - f.pos <= |Rest(f)|
    ensures Rest(f)[..n] + f.content[f.pos + n..pos] == Rest(f)[..pos - f.pos]
  {
  }

  class AsyncFile {
    const impl: Backend
    const isText: bool
    const newline: Newline
    const linesep: Bytes
    var lineBuffer: Bytes
    var linePos: nat
    var closed: bool

    constructor (impl: Backend, isText: bool, newline: Newline, linesep: Bytes)
      requires (isText || newline.Universal?) && impl.Sound()
      ensures Valid() && !closed && Logical() == impl.View() && Buffered() == 0
      ensures this.impl == impl && this.isText == isText && this.newline == newline && this.linesep == linesep
    {
      this.impl, this.isText, this.newline, this.linesep := impl, isText, newline, linesep;
      lineBuffer, linePos, closed := [], 0, false;
    }

    /** `open`: binary mode refuses a newline argument. */
    static method Open(impl: Backend, isText: bool, newline: Newline, linesep: Bytes) returns (r: Result<AsyncFile>)
      requires impl.Sound()
      ensures r.Err? <==> !isText && !newline.Universal?
      ensures r.Err? ==> r.error == BinaryNewline
      ensures r.Ok? ==> fresh(r.value) && r.value.Valid() && r.value.impl == impl
                        && r.value.isText == isText && r.value.newline == newline && r.value.linesep == linesep
                        && !r.value.closed && r.value.Logical() == impl.View()
    {
      if !isText && !newline.Universal? { return Err(BinaryNewline); }
      var f := new AsyncFile(impl, isText, newline, linesep);
      r := Ok(f);
    }

    /** The unconsumed buffer is the stretch of file between the logical and the physical position. */
    ghost predicate Valid()
      reads this, impl
    {
      && (isText || newline.Universal?)
      && impl.Sound()
      && linePos <= |lineBuffer|
      && (Buffered() > 0 ==>
            && Buffered() <= impl.pos <= |impl.content|
            && Buffered() <= |Rest(Logical())|
            && Pending() == Rest(Logical())[..Buffered()])
    }

    function Pending(): Bytes
      requires linePos <= |lineBuffer|
      reads this
    {
      lineBuffer[linePos..]
    }

    function Buffered(): int
      reads this
    {
      |lineBuffer| - linePos
    }

    /** The file as the user sees it. */
    function Logical(): Plain
      reads this, impl
    {
      Plain(impl.content, impl.pos - Buffered())
    }

    method TakeBuffered(n: int) returns (out: Bytes)
      requires Valid() && Buffered() > 0
      modifies this
      ensures Valid() && unchanged(`closed)
      ensures var k := if n < 0 || n > old(Buffered()) then old(Buffered()) else n;
              && Buffered() == old(Buffered()) - k && |Rest(old(Logical()))| >= k
              && |out| == k && out == Rest(old(Logical()))[..k]
    {
      var end := if n < 0 || linePos + n > |lineBuffer| then |lineBuffer| else linePos + n;
      out := lineBuffer[linePos..end];
      TakenAhead(lineBuffer, linePos, end, Logical());
      hide Rest;
      if end == |lineBuffer| {
        lineBuffer, linePos := [], 0;
      } else {
        linePos := end;
      }
    }

    method RewindReadahead()
      requires Valid()
      modifies this, impl
      ensures Valid() && Buffered() == 0 && unchanged(`closed)
      ensures Logical() == old(Logical())
    {
      var n := Buffered();
      if n != 0 {
        lineBuffer, linePos := [], 0;
        var _ := impl.Seek(-n, 1);
      }
    }

    /** `raw` is the outcome before decoding. */
    method Read(size: int) returns (r: Result<Bytes>, ghost raw: Result<Bytes>)
      requires Valid()
      modifies this, impl
      ensures Valid() && unchanged(`closed)
      ensures closed ==> r == Err(ClosedFile) && unchanged(this, impl)
      ensures !closed ==> old(Logical()).ReadOutcome(size, impl.exact, Logical(), raw)
      ensures !closed ==> r == ReadAs(raw, isText, newline)
      ensures !closed && !(isText && newline.Universal?) ==>
                old(Logical()).ReadOutcome(size, impl.exact, Logical(), r)
    {
      if closed { return Err(ClosedFile), Ok([]); }
      var data := ReadRaw(size);
      if data.Ok? { ReadTranslation(data.value, newline); }
      r, raw := Decoded(data), data;
    }

    function Decoded(raw: Result<Bytes>): Result<Bytes> {
      if raw.Ok? && isText then Ok(TranslateForRead(raw.value, newline)) else raw
    }

    method ReadRaw(size: int) returns (raw: Result<Bytes>)
      requires Valid()
      modifies this, impl
      ensures Valid() && unchanged(`closed)
      ensures old(Logical()).ReadOutcome(size, impl.exact, Logical(), raw)
    {
      if Buffered() != 0 {
        raw := ReadBuffered(size);
      } else {
        raw := impl.Read(size);
      }
    }

    /** The buffered bytes come first, then the backend is asked for what is missing. */
    method ReadBuffered(size: int) returns (raw: Result<Bytes>)
      requires Valid() && Buffered() > 0
      modifies this, impl
      ensures Valid() && unchanged(`closed)
      ensures old(Logical()).ReadOutcome(size, impl.exact, Logical(), raw)
    {
      hide Rest, Plain.ReadOutcome;
      ghost var before := Logical();
      var prefix := TakeBuffered(size);
      assert impl.View() == before.(pos := before.pos + Buffered() + |prefix|);
      if size < 0 || |prefix| < size {
        var more := impl.Read(if size < 0 then -1 else size - |prefix|);
        ReadJoins(before, size, |prefix|, impl.exact, Logical(), more);
        raw := Ok(prefix + more.value);
      } else {
        ReadTaken(before, size, impl.exact);
        raw := Ok(prefix);
      }
    }

    method ReadLine() returns (r: Result<Bytes>)
      requires Valid()
      modifies this, impl
      ensures Valid() && unchanged(`closed)
      ensures closed ==> r == Err(ClosedFile) && unchanged(this, impl)
      ensures !closed ==> LineOutcome(old(Logical()), newline, isText, Logical(), r)
    {
      if closed { return Err(ClosedFile); }
      hide LineOutcome, LineReady, LastIfAll, Rest;
      ghost var before := Logical();
      while true
        invariant Valid() && !closed
        invariant Logical() == before
        decreases |impl.content| - impl.pos
      {
        var sepStart, sepLen := Search();
        if sepStart != -1 {
          r := FinishLine(sepStart + sepLen - linePos);
          return;
        }
        var chunk := Fill();
        if chunk.Err? { return chunk; }
        if chunk.value == [] {
          r := FinishFile();
          return;
        }
      }
    }

    method Search() returns (sepStart: int, sepLen: nat)
      requires Valid()
      ensures sepStart == -1 ==> LastIfAll(Logical(), newline, Buffered())
      ensures sepStart != -1 ==> linePos < sepStart + sepLen <= |lineBuffer|
                                 && LineReady(Logical(), newline, isText, sepStart + sepLen - linePos)
    {
      hide FindLineEnd, LineReady, LastIfAll;
      SearchedLine(lineBuffer, linePos, Logical(), newline, isText);
      var (p, l) := FindLineEnd(lineBuffer, linePos, newline, false);
      sepStart, sepLen := p, l;
    }

    /** Read the next chunk behind the buffer. */
    method Fill() returns (chunk: Result<Bytes>)
      requires Valid()
      modifies this, impl
      ensures Valid() && unchanged(`closed)
      ensures chunk.Err? ==> LineOutcome(old(Logical()), newline, isText, Logical(), chunk)
      ensures chunk.Ok? ==> Logical() == old(Logical())
      ensures chunk == Ok([]) ==> unchanged(this) && impl.pos >= |impl.content|
      ensures chunk.Ok? && chunk.value != [] ==> old(impl.pos) < impl.pos <= |impl.content|
    {
      ghost var before := Logical();
      chunk := impl.Read(READLINE_BUF);
      if chunk.Ok? && chunk.value != [] {
        Extend(chunk.value, before);
      }
    }

    /** A terminator was found: the line is the next n buffered bytes. */
    method FinishLine(n: nat) returns (r: Result<Bytes>)
      requires Valid() && 0 < n <= Buffered()
      requires LineReady(Logical(), newline, isText, n)
      modifies this
      ensures Valid() && unchanged(`closed)
      ensures LineOutcome(old(Logical()), newline, isText, Logical(), r)
    {
      var line := TakeBuffered(n);
      r := Ok(if isText then TranslateForRead(line, newline) else line);
    }

    /** End of file: whatever is buffered is the last line. A trailing CR is a terminator now. */
    method FinishFile() returns (r: Result<Bytes>)
      requires Valid() && impl.pos >= |impl.content|
      requires LastIfAll(Logical(), newline, Buffered())
      modifies this
      ensures Valid() && unchanged(`closed)
      ensures LineOutcome(old(Logical()), newline, isText, Logical(), r)
    {
      if Buffered() != 0 {
        hide TranslateForRead;
        ghost var before := Logical();
        var out := TakeBuffered(-1);
        assert |out| == |Rest(before)|;
        EofIsLine(before, out, newline, isText);
        if newline.Universal? && out != [] && out[|out| - 1] == CR {
          out := out + [LF];
        }
        r := Ok(if isText then TranslateForRead(out, newline) else out);
      } else {
        r := Ok([]);
      }
    }

    /** Drop the consumed prefix of the buffer and add a freshly read chunk. */
    method Extend(chunk: Bytes, ghost before: Plain)
      requires linePos <= |lineBuffer| && (isText || newline.Universal?) && impl.Sound()
      requires impl.content == before.content && impl.pos == before.pos + Buffered() + |chunk|
      requires 0 <= before.pos && impl.pos <= |before.content|
      requires Pending() == Rest(before)[..Buffered()]
      requires chunk == before.content[before.pos + Buffered()..impl.pos]
      modifies this
      ensures Valid() && Logical() == before && unchanged(`closed)
    {
      PrefixGrows(before, Buffered(), impl.pos);
      if linePos != 0 {
        lineBuffer, linePos := lineBuffer[linePos..], 0;
      }
      assert lineBuffer == lineBuffer[linePos..];
      lineBuffer := lineBuffer + chunk;
      assert lineBuffer == Rest(before)[..Buffered()];
      assert lineBuffer[linePos..] == lineBuffer;
    }

    method ReadLines(hint: int) returns (r: Result<seq<Bytes>>)
      requires Valid()
      modifies this, impl
      ensures Valid() && unchanged(`closed)
      ensures closed ==> r == Err(ClosedFile) && unchanged(this, impl)
      ensures !closed ==> LinesOutcome(old(Logical()), hint, newline, isText, Logical(), r)
    {
      if closed { return Err(ClosedFile); }
      hide LineOutcome, AllLines, Rest, LinesOutcome, LineTrace, BelowHint, TotalLen;
      ghost var fs := [Logical()];
      var lines: seq<Bytes> := [];
      var total := 0;
      NoLinesYet(Logical(), newline, isText, hint);
      while true
        invariant Valid() && !closed && |fs| == |lines| + 1
        invariant fs[0] == old(Logical()) && fs[|lines|] == Logical() && LineTrace(fs, newline, isText, lines)
        invariant total == (if hint > 0 then TotalLen(lines) else 0) && BelowHint(lines, hint)
        decreases |Rest(Logical())|
      {
        var line := ReadLine();
        NextLine(fs, newline, isText, lines, Logical(), line);
        if line.Err? { return Err(line.error); }
        if line.value == [] {
          TraceOutcome(fs, hint, newline, isText, lines);
          break;
        }
        OneMoreLine(lines, line.value, hint);
        fs, lines := fs + [Logical()], lines + [line.value];
        if hint > 0 {
          total := total + |line.value|;
          if total >= hint {
            TraceOutcome(fs, hint, newline, isText, lines);
            break;
          }
        }
      }
      r := Ok(lines);
    }

    /** Fill at most `limit` bytes of buf; buffered bytes come first and end the call. */
    method ReadInto(buf: array<byte>, limit: nat) returns (r: Result<nat>)
      requires Valid() && limit <= buf.Length
      modifies this, impl, buf
      ensures Valid() && unchanged(`closed)
      ensures closed ==> r == Err(ClosedFile)
      ensures !closed && isText ==> r == Err(TextModeOnly)
      ensures closed || isText ==> unchanged(this, impl, buf)
      ensures r.Ok? ==> r.value <= limit && buf[r.value..] == old(buf[r.value..])
      ensures !closed && !isText ==>
                old(Logical()).ReadOutcome(limit, impl.exact && old(Buffered()) == 0, Logical(),
                                           if r.Ok? then Ok(buf[..r.value]) else Err(r.error))
    {
      if closed { return Err(ClosedFile); }
      if isText { return Err(TextModeOnly); }
      ghost var before := Logical();
      if Buffered() != 0 {
        var pending := TakeBuffered(limit);
        hide Rest, Plain.ReadOutcome;
        ReadTaken(before, |pending|, false);
        ReadShort(before, limit, |pending|, Logical());
        CopyInto(buf, pending);
        r := Ok(|pending|);
      } else {
        var got := impl.Read(limit);
        if got.Err? { return Err(got.error); }
        CopyInto(buf, got.value);
        r := Ok(|got.value|);
      }
    }

    method CopyInto(buf: array<byte>, data: Bytes)
      requires |data| <= buf.Length
      modifies buf
      ensures buf[..|data|] == data && buf[|data|..] == old(buf[|data|..])
    {
      for i := 0 to |data|
        invariant buf[..i] == data[..i] && buf[|data|..] == old(buf[|data|..])
      {
        buf[i] := data[i];
      }
    }

    /** One resumption of the generator: the next block, or none at the end of the file. Whatever the
        caller did to the handle since the last one, it is a read at the present logical position. */
    method ChunkNext(buf: array<byte>, size: nat) returns (r: Result<Bytes>)
      requires Valid() && size <= buf.Length
      modifies this, impl, buf
      ensures Valid() && unchanged(`closed)
      ensures closed ==> r == Err(ClosedFile)
      ensures !closed && isText ==> r == Err(TextModeOnly)
      ensures closed || isText ==> unchanged(this, impl, buf)
      ensures !closed && !isText ==>
                old(Logical()).ReadOutcome(size, impl.exact && old(Buffered()) == 0, Logical(), r)
    {
      hide Plain.ReadOutcome, Rest;
      var n := ReadInto(buf, size);
      r := if n.Ok? then Ok(buf[..n.value]) else Err(n.error);
    }

    /** All the blocks the generator yields, each copied before the next call reuses buf. */
    method Chunk(chunkSize: int, userBuf: array?<byte>) returns (r: Result<seq<Bytes>>)
      requires Valid()
      modifies this, impl, userBuf
      ensures Valid() && unchanged(`closed)
      ensures closed ==> r == Err(ClosedFile)
      ensures !closed && isText ==> r == Err(TextModeOnly)
      ensures !closed && !isText && chunkSize <= 0 ==> r == Err(ChunkSize)
      ensures closed || isText || chunkSize <= 0 ==> unchanged(this, impl)
      ensures !closed && !isText && chunkSize > 0 ==>
                var size := if userBuf != null && userBuf.Length < chunkSize then userBuf.Length else chunkSize;
                ChunkOutcome(old(Logical()), size, Logical(), r)
    {
      if closed { return Err(ClosedFile); }
      if isText { return Err(TextModeOnly); }
      if chunkSize <= 0 { return Err(ChunkSize); }
      var buf: array<byte>;
      var size: nat := chunkSize;
      if userBuf == null {
        buf := new byte[size];
      } else {
        buf := userBuf;
        if buf.Length < size { size := buf.Length; }
      }
      hide Yielded, ChunkOutcome, Plain.ReadOutcome, Rest;
      ghost var f := Logical();
      var pieces: seq<Bytes> := [];
      NothingYielded(f, size);
      while true
        invariant Valid() && !closed && Yielded(f, Logical(), size, pieces)
        invariant |impl.content| == |f.content|
        decreases |f.content| - Logical().pos
      {
        ghost var g, exact := Logical(), impl.exact && Buffered() == 0;
        var piece := ChunkNext(buf, size);
        YieldNext(f, g, size, pieces, exact, Logical(), piece);
        if piece.Err? { return Err(piece.error); }
        if piece.value == [] { break; }
        pieces := pieces + [piece.value];
      }
      r := Ok(pieces);
    }

    /** A cached backend behind the handle stays sound. */
    predicate CanWrite(data: Bytes)
      reads this, impl
    {
      closed || !impl.cached || impl.append || Logical().pos >= 0 || Encoded(data) == []
    }

    method Write(data: Bytes) returns (r: Result<nat>)
      requires Valid()
      modifies this, impl
      ensures old(CanWrite(data)) ==> Valid()
      ensures unchanged(`closed)
      ensures closed ==> r == Err(ClosedFile) && unchanged(this, impl)
      ensures !closed ==> (Logical(), r) == old(Logical()).Write(impl.append, Encoded(data)) && Buffered() == 0
      ensures SentAs(data, isText, newline, linesep, Encoded(data))
    {
      WriteTranslation(data, newline, linesep);
      if closed { return Err(ClosedFile); }
      hide WrittenAs;
      RewindReadahead();
      r := impl.Write(Encoded(data));
    }

    function Encoded(data: Bytes): Bytes {
      if isText then TranslateForWrite(data, newline, linesep) else data
    }

    /** A seek the backend rejects has already dropped the buffer: the position jumps over the
        unconsumed bytes, so it stays where it was exactly when nothing was buffered. */
    method Seek(offset: int, whence: int) returns (r: Result<int>)
      requires Valid()
      modifies this, impl
      ensures Valid() && unchanged(`closed)
      ensures closed ==> r == Err(ClosedFile) && unchanged(this, impl)
      ensures !closed && ValidWhence(whence) ==> (Logical(), r) == old(Logical()).Seek(offset, whence)
      ensures !closed && !ValidWhence(whence) ==> r == Err(InvalidWhence) && Logical() == old(impl.View())
      ensures !closed && !ValidWhence(whence) ==> (Logical() == old(Logical()) <==> old(Buffered()) == 0)
    {
      if closed { return Err(ClosedFile); }
      var n := Buffered();
      var target := offset;
      if n != 0 {
        if whence == 1 { target := target - n; }
        lineBuffer, linePos := [], 0;
      }
      r := impl.Seek(target, whence);
    }

    method Tell() returns (pos: int)
      requires Valid()
      ensures pos == Unsigned(Logical().pos)
    {
      pos := Unsigned(impl.pos) - Buffered();
    }

    method Truncate(size: int) returns (r: Result<()>)
      requires Valid()
      modifies this, impl
      ensures Valid() && unchanged(`closed)
      ensures closed ==> r == Err(ClosedFile) && unchanged(this, impl)
      ensures !closed ==> (Logical(), r) == old(Logical()).Truncate(size)
    {
      if closed { return Err(ClosedFile); }
      if size < 0 { return Err(NegativeSize); }
      RewindReadahead();
      r := impl.Truncate(size);
    }

    method ReadAt(offset: int, size: int) returns (r: Result<Bytes>)
      requires Valid()
      ensures r == if closed then Err(ClosedFile)
                   else if isText then Err(TextModeOnly)
                   else Logical().ReadAt(offset, size)
    {
      if closed { return Err(ClosedFile); }
      if isText { return Err(TextModeOnly); }
      r := impl.ReadAt(offset, size);
    }

    method Close()
      requires Valid()
      modifies `closed
      ensures closed && Valid() && Logical() == old(Logical())
    {
      closed := true;
    }
  }
}
