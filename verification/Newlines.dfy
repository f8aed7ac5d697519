/** Line recognition and newline translation (ayafileio/_async_file.py, module functions).

    A byte stands for a character throughout: the encoding is one that decodes byte by byte. */
module Newlines {
  type byte = b: int | 0 <= b < 256
  type Bytes = seq<byte>

  const LF: byte := 10
  const CR: byte := 13

  /** The `newline` argument: None, "", "\n", "\r", "\r\n", or any other string, which the
      constructor does not reject and which then recognises the same lines as "\r". */
  datatype Newline = Universal | Untranslated | OnlyLF | OnlyCR | OnlyCRLF | Unrecognised

  // ------------------------------------------------------------------ searching

  /** `buf.find(bytes([b]), start, end)`. */
  function Find(buf: Bytes, b: byte, start: nat, end: nat): (i: int)
    requires start <= end <= |buf|
    ensures i == -1 ==> forall k :: start <= k < end ==> buf[k] != b
    ensures i != -1 ==> start <= i < end && buf[i] == b && forall k :: start <= k < i ==> buf[k] != b
    decreases end - start
  {
    if start == end then -1
    else if buf[start] == b then start
    else Find(buf, b, start + 1, end)
  }

  predicate CrLfAt(buf: Bytes, k: nat) {
    k + 1 < |buf| && buf[k] == CR && buf[k + 1] == LF
  }

  /** `buf.find(b"\r\n", start)`. */
  function FindCrLf(buf: Bytes, start: nat): (i: int)
    requires start <= |buf|
    ensures i == -1 ==> forall k :: start <= k ==> !CrLfAt(buf, k)
    ensures i != -1 ==> start <= i && CrLfAt(buf, i) && forall k :: start <= k < i ==> !CrLfAt(buf, k)
    decreases |buf| - start
  {
    if |buf| - start < 2 then -1
    else if CrLfAt(buf, start) then start
    else FindCrLf(buf, start + 1)
  }

  /** `_find_line_end`: start and length of the first complete terminator, or (-1, 0). */
  function FindLineEnd(buf: Bytes, start: nat, m: Newline, eof: bool): (r: (int, nat))
    requires start <= |buf|
    ensures r == (-1, 0) || (start <= r.0 && 0 < r.1 && r.0 + r.1 <= |buf|)
  {
    match m
    case Universal | Untranslated =>
      var nl := Find(buf, LF, start, |buf|);
      var cr := Find(buf, CR, start, if nl == -1 then |buf| else nl);
      if cr == -1 then (if nl != -1 then (nl, 1) else (-1, 0))
      else if cr + 1 < |buf| then (if buf[cr + 1] == LF then (cr, 2) else (cr, 1))
      else if eof then (cr, 1) else (-1, 0)
    case OnlyCRLF =>
      var i := FindCrLf(buf, start);
      if i != -1 then (i, 2) else (-1, 0)
    case OnlyLF | OnlyCR | Unrecognised =>
      var i := Find(buf, if m.OnlyLF? then LF else CR, start, |buf|);
      if i != -1 then (i, 1) else (-1, 0)
  }

  /** The length of the terminator that starts at k, 0 if none does. A CR at the very end of the
      buffer starts one in the universal modes only if no LF can follow. */
  function TerminatorLen(buf: Bytes, k: nat, m: Newline, eof: bool): nat
    requires k < |buf|
  {
    match m
    case Universal | Untranslated =>
      if buf[k] == LF then 1
      else if buf[k] != CR then 0
      else if k + 1 < |buf| then (if buf[k + 1] == LF then 2 else 1)
      else if eof then 1 else 0
    case OnlyCRLF => if CrLfAt(buf, k) then 2 else 0
    case OnlyLF => if buf[k] == LF then 1 else 0
    case OnlyCR | Unrecognised => if buf[k] == CR then 1 else 0
  }

  /** The search finds the first position where a terminator starts, and its length; or none starts
      anywhere. */
  lemma FindLineEndIsFirstTerminator(buf: Bytes, start: nat, m: Newline, eof: bool)
    requires start <= |buf|
    ensures var (p, l) := FindLineEnd(buf, start, m, eof);
            && (p == -1 <==> forall k :: start <= k < |buf| ==> TerminatorLen(buf, k, m, eof) == 0)
            && (p != -1 ==> start <= p < |buf| && l == TerminatorLen(buf, p, m, eof) > 0
                            && forall k :: start <= k < p ==> TerminatorLen(buf, k, m, eof) == 0)
  {
    var (p, l) := FindLineEnd(buf, start, m, eof);
    if p != -1 {
      assert l == TerminatorLen(buf, p, m, eof) > 0;
    }
    forall k | start <= k < |buf| && (p == -1 || k < p) ensures TerminatorLen(buf, k, m, eof) == 0 {
      assert !CrLfAt(buf, k) || !m.OnlyCRLF?;
    }
  }

  // ------------------------------------------------------------------ the reference split

  /** A line of s ends just before index i. */
  predicate EndsAt(s: Bytes, i: nat, m: Newline)
    requires 0 < i <= |s|
  {
    match m
    case Universal | Untranslated => s[i - 1] == LF || (s[i - 1] == CR && !(i < |s| && s[i] == LF))
    case OnlyCRLF => i >= 2 && s[i - 2] == CR && s[i - 1] == LF
    case OnlyLF => s[i - 1] == LF
    case OnlyCR | Unrecognised => s[i - 1] == CR
  }

  /** The first line end of s at or after index i, or |s|. */
  function LineLenFrom(s: Bytes, i: nat, m: Newline): (n: nat)
    requires 0 < i <= |s|
    ensures i <= n <= |s|
    ensures forall k :: i <= k < n ==> !EndsAt(s, k, m)
    ensures n < |s| ==> EndsAt(s, n, m)
    decreases |s| - i
  {
    if i == |s| || EndsAt(s, i, m) then i else LineLenFrom(s, i + 1, m)
  }

  /** Length of the first line of s, terminator included. */
  function LineLen(s: Bytes, m: Newline): (n: nat)
    ensures n <= |s| && (s != [] ==> 0 < n)
    ensures forall k :: 0 < k < n ==> !EndsAt(s, k, m)
    ensures 0 < n < |s| ==> EndsAt(s, n, m)
  {
    if s == [] then 0 else LineLenFrom(s, 1, m)
  }

  lemma LineLenUnique(s: Bytes, n: nat, m: Newline)
    requires 0 < n <= |s|
    requires forall k :: 0 < k < n ==> !EndsAt(s, k, m)
    requires n == |s| || EndsAt(s, n, m)
    ensures LineLen(s, m) == n
  {
  }

  /** All the lines of s. */
  function Lines(s: Bytes, m: Newline): (ls: seq<Bytes>)
    ensures forall l :: l in ls ==> l != []
  {
    if s == [] then [] else [s[..LineLen(s, m)]] + Lines(s[LineLen(s, m)..], m)
  }

  function Flatten(ls: seq<Bytes>): Bytes {
    if ls == [] then [] else ls[0] + Flatten(ls[1..])
  }

  /** The positions where one piece stops and the next begins, the end included. */
  function Cuts(ls: seq<Bytes>, at: nat): (c: set<nat>)
    ensures forall i :: i in c ==> at <= i
  {
    if ls == [] then {} else {at + |ls[0]|} + Cuts(ls[1..], at + |ls[0]|)
  }

  lemma EndsAtShift(s: Bytes, n: nat, i: nat, m: Newline)
    requires 0 < n <= |s| && EndsAt(s, n, m)
    requires 0 < i <= |s| - n
    ensures EndsAt(s[n..], i, m) == EndsAt(s, n + i, m)
  {
    assert s[n..][i - 1] == s[n + i - 1];
    if n + i < |s| { assert s[n..][i] == s[n + i]; }
    if i >= 2 { assert s[n..][i - 2] == s[n + i - 2]; }
  }

  /** The split loses nothing ... */
  lemma {:induction false} LinesLoseNothing(s: Bytes, m: Newline)
    ensures Flatten(Lines(s, m)) == s
    decreases |s|
  {
    if s != [] {
      var n := LineLen(s, m);
      LinesLoseNothing(s[n..], m);
      assert Lines(s, m)[1..] == Lines(s[n..], m);
      assert s == s[..n] + s[n..];
    }
  }

  /** ... and it cuts exactly at the line ends of the whole content. */
  lemma {:induction false} LinesAreTheCuts(s: Bytes, m: Newline, i: nat)
    requires 0 < i < |s|
    ensures i in Cuts(Lines(s, m), 0) <==> EndsAt(s, i, m)
    decreases |s|
  {
    hide EndsAt;
    var n := LineLen(s, m);
    var rest := Lines(s[n..], m);
    assert Lines(s, m) == [s[..n]] + rest;
    hide Lines, LineLen;
    FirstCut(s[..n], rest);
    if i > n {
      EndsAtShift(s, n, i - n, m);
      LinesAreTheCuts(s[n..], m, i - n);
      CutsShift(rest, 0, n, i - n);
    }
  }

  lemma FirstCut(l: Bytes, ls: seq<Bytes>)
    ensures Cuts([l] + ls, 0) == {|l|} + Cuts(ls, |l|)
  {
    assert ([l] + ls)[1..] == ls;
  }

  lemma {:induction false} CutsShift(ls: seq<Bytes>, at: nat, d: nat, i: nat)
    ensures i + d in Cuts(ls, at + d) <==> i in Cuts(ls, at)
    decreases |ls|
  {
    if ls != [] {
      CutsShift(ls[1..], at + |ls[0]|, d, i);
      assert at + d + |ls[0]| == (at + |ls[0]|) + d;
    }
  }

  /** What a search of a partly filled buffer tells about the remaining content, however that
      content was cut into chunks: a hit is the end of the first line of everything that is
      still to come, and a miss means that no line ends inside the buffer unless more follows. */
  lemma FindLineEndIsFirstLine(buf: Bytes, start: nat, more: Bytes, m: Newline)
    requires start <= |buf|
    ensures var rest := buf[start..] + more;
            var (p, l) := FindLineEnd(buf, start, m, false);
            if p == -1
            then (more == [] ==> LineLen(rest, m) == |rest|) && (rest != [] ==> LineLen(rest, m) >= |buf| - start)
            else start <= p && p + l <= |buf| && LineLen(rest, m) == p + l - start
                 && (m.Universal? && rest[p + l - start - 1] == CR ==> p + l < |buf|)
  {
    var rest := buf[start..] + more;
    var (p, l) := FindLineEnd(buf, start, m, false);
    assert forall k :: 0 <= k < |buf| - start ==> rest[k] == buf[start + k];
    var here := |buf| - start;
    if p == -1 {
      forall k | 0 < k < here ensures !EndsAt(rest, k, m) {
        assert rest[k - 1] == buf[start + k - 1];
        if k >= 2 { assert !CrLfAt(buf, start + k - 2) || !m.OnlyCRLF?; }
      }
    } else {
      var n := p + l - start;
      forall k | 0 < k < n ensures !EndsAt(rest, k, m) {
        assert rest[k - 1] == buf[start + k - 1];
        if k >= 2 { assert !CrLfAt(buf, start + k - 2) || !m.OnlyCRLF?; }
      }
      LineLenUnique(rest, n, m);
    }
  }

  /** With `eof` set a search of the complete content finds the first line end there is. */
  lemma FindLineEndAtEof(buf: Bytes, start: nat, m: Newline)
    requires start < |buf|
    ensures var s := buf[start..];
            var (p, l) := FindLineEnd(buf, start, m, true);
            (p == -1 <==> forall k :: 0 < k <= |s| ==> !EndsAt(s, k, m))
            && (p != -1 ==> p + l - start == LineLen(s, m))
  {
    var s := buf[start..];
    var (p, l) := FindLineEnd(buf, start, m, true);
    var n := if p == -1 then |s| + 1 else p + l - start;
    forall k | 0 < k < n && k <= |s| ensures !EndsAt(s, k, m) {
      assert s[k - 1] == buf[start + k - 1];
      if k < |s| { assert s[k] == buf[start + k]; }
      if k >= 2 { assert !CrLfAt(buf, start + k - 2) || !m.OnlyCRLF?; }
    }
    if p != -1 {
      assert EndsAt(s, n, m);
      LineLenUnique(s, n, m);
    }
  }

  // ------------------------------------------------------------------ translation

  /** `text.replace(pat, rep)`. */
  function Replace(s: Bytes, pat: Bytes, rep: Bytes): Bytes
    requires pat != []
  {
    if |s| < |pat| then s
    else if s[..|pat|] == pat then rep + Replace(s[|pat|..], pat, rep)
    else [s[0]] + Replace(s[1..], pat, rep)
  }

  /** `_translate_for_read`. */
  function TranslateForRead(text: Bytes, m: Newline): Bytes {
    if m.Universal? then Replace(Replace(text, [CR, LF], [LF]), [CR], [LF]) else text
  }

  /** `_translate_for_write`; `linesep` is `os.linesep`. */
  function TranslateForWrite(text: Bytes, m: Newline, linesep: Bytes): Bytes {
    match m
    case Universal => Replace(text, [LF], linesep)
    case OnlyCR => Replace(text, [LF], [CR])
    case OnlyCRLF => Replace(text, [LF], [CR, LF])
    case Untranslated | OnlyLF | Unrecognised => text
  }

  /** One pass over the text: a pair or a lone CR becomes one LF. */
  function Normalize(s: Bytes): (r: Bytes)
    ensures CR !in r && (s != [] ==> r != [])
  {
    if s == [] then [] else [if s[0] == CR then LF else s[0]] + Normalize(s[UnitLen(s)..])
  }

  /** A CR LF pair is one unit of the text, any other byte is one by itself. */
  function UnitLen(s: Bytes): (n: nat)
    requires s != []
    ensures 1 <= n <= |s|
  {
    if CrLfAt(s, 0) then 2 else 1
  }

  lemma {:induction false} ReplaceOneHead(b: byte, t: Bytes, rep: Bytes, pat: byte)
    ensures Replace([b] + t, [pat], rep) == (if b == pat then rep else [b]) + Replace(t, [pat], rep)
  {
    assert ([b] + t)[..1] == [b];
    assert ([b] + t)[1..] == t;
  }

  lemma {:induction false} TwoPassesAreOne(s: Bytes)
    ensures TranslateForRead(s, Universal) == Normalize(s)
    decreases |s|
  {
    if |s| >= 2 && s[..2] == [CR, LF] {
      assert s[0] == CR && s[1] == LF;
      TwoPassesAreOne(s[2..]);
      ReplaceOneHead(LF, Replace(s[2..], [CR, LF], [LF]), [LF], CR);
    } else if s != [] {
      if |s| >= 2 { assert s[..2] == [s[0], s[1]]; }
      TwoPassesAreOne(s[1..]);
      ReplaceOneHead(s[0], Replace(s[1..], [CR, LF], [LF]), [LF], CR);
      if |s| == 1 { assert s == [s[0]] + []; assert s[1..] == []; }
    }
  }

  /** What reading does to a text in each mode: universal mode runs the scanner, every other mode,
      an empty `newline` among them, hands over the text as it is. */
  lemma ReadTranslation(s: Bytes, m: Newline)
    ensures TranslateForRead(s, m) == if m.Universal? then Normalize(s) else s
  {
    if m.Universal? { TwoPassesAreOne(s); }
  }

  /** Universal translation gives back its input exactly when there is no CR in it. */
  lemma {:induction false} NormalizeFixpoint(s: Bytes)
    ensures Normalize(s) == s <==> CR !in s
    ensures Normalize(Normalize(s)) == Normalize(s)
    decreases |s|
  {
    if CR !in s { NormalizeWithoutCr(s); }
    NormalizeWithoutCr(Normalize(s));
  }

  lemma {:induction false} NormalizeWithoutCr(s: Bytes)
    requires CR !in s
    ensures Normalize(s) == s
    decreases |s|
  {
    if s != [] {
      NormalizeWithoutCr(s[1..]);
      assert s == [s[0]] + s[1..];
    }
  }

  /** Translation distributes over every split that does not separate a CR from its LF. */
  lemma {:induction false} NormalizeSplit(a: Bytes, b: Bytes)
    requires !(a != [] && b != [] && a[|a| - 1] == CR && b[0] == LF)
    ensures Normalize(a + b) == Normalize(a) + Normalize(b)
    decreases |a|
  {
    if a == [] {
      assert a + b == b;
    } else {
      var n := UnitLen(a);
      assert UnitLen(a + b) == n;
      assert (a + b)[n..] == a[n..] + b;
      assert (a + b)[0] == a[0];
      NormalizeSplit(a[n..], b);
      ConcatAssoc([if a[0] == CR then LF else a[0]], Normalize(a[n..]), Normalize(b));
    }
  }

  predicate SplitsPair(a: Bytes, b: Bytes) {
    a != [] && b != [] && a[|a| - 1] == CR && b[0] == LF
  }

  /** It distributes over exactly the splits that do not separate a CR from its LF. */
  lemma NormalizeSplitIff(a: Bytes, b: Bytes)
    ensures Normalize(a + b) == Normalize(a) + Normalize(b) <==> !SplitsPair(a, b)
  {
    if SplitsPair(a, b) {
      var front, back := a[..|a| - 1], b[1..];
      assert a == front + [CR] && b == [LF] + back && a + b == front + ([CR, LF] + back);
      NormalizeSplit(front, [CR]);
      NormalizeSplit([LF], back);
      NormalizeSplit(front, [CR, LF] + back);
      NormalizeUnits(back);
    } else {
      NormalizeSplit(a, b);
    }
  }

  lemma NormalizeUnits(back: Bytes)
    ensures Normalize([CR]) == [LF] && Normalize([LF]) == [LF] && Normalize([CR, LF] + back) == [LF] + Normalize(back)
  {
    var pair := [CR, LF] + back;
    assert pair[2..] == back && [CR][1..] == [] && [LF][1..] == [];
  }

  /** So two successive reads of text in universal mode return what one read would, unless they cut
      a CR LF pair, of which they then make two LFs. */
  lemma ReadsJoinIff(a: Bytes, b: Bytes)
    ensures TranslateForRead(a, Universal) + TranslateForRead(b, Universal) == TranslateForRead(a + b, Universal)
            <==> !SplitsPair(a, b)
  {
    TwoPassesAreOne(a);
    TwoPassesAreOne(b);
    TwoPassesAreOne(a + b);
    NormalizeSplitIff(a, b);
  }

  lemma ConcatAssoc(a: Bytes, b: Bytes, c: Bytes)
    ensures a + (b + c) == (a + b) + c
  {
  }

  lemma {:induction false} NormalizeOfExpanded(t: Bytes, sep: Bytes)
    requires sep == [LF] || sep == [CR] || sep == [CR, LF]
    requires CR !in t
    ensures Normalize(Replace(t, [LF], sep)) == t
    decreases |t|
  {
    if t != [] {
      var rest := Replace(t[1..], [LF], sep);
      NormalizeOfExpanded(t[1..], sep);
      assert t == [t[0]] + t[1..];
      ReplaceOneHead(t[0], t[1..], sep, LF);
      var head := if t[0] == LF then sep else [t[0]];
      // The expansion of the rest starts with LF only when sep is a lone LF.
      ExpandedHead(t[1..], sep);
      NormalizeSplit(head, rest);
      assert Normalize(head) == [t[0]] by {
        if t[0] == LF && sep == [CR, LF] { assert sep[2..] == []; }
        else { assert head[1..] == []; }
      }
    }
  }

  lemma ExpandedHead(t: Bytes, sep: Bytes)
    requires sep != []
    ensures var r := Replace(t, [LF], sep); r != [] ==> r[0] == (if t[0] == LF then sep[0] else t[0])
  {
    if t != [] {
      assert t == [t[0]] + t[1..];
      ReplaceOneHead(t[0], t[1..], sep, LF);
    }
  }

  // ------------------------------------------------------------------ what is written

  /** Where byte i of the text ends up when every LF before it has become a separator. */
  function Moved(t: Bytes, sep: Bytes, i: nat): int
    requires i <= |t|
  {
    i + (|sep| - 1) * multiset(t[..i])[LF]
  }

  /** Byte i of the text stands in w at its place: the separator for an LF, else the byte itself. */
  predicate StandsAt(t: Bytes, sep: Bytes, w: Bytes, i: nat)
    requires i < |t|
  {
    var k := Moved(t, sep, i);
    if t[i] == LF then 0 <= k && k + |sep| <= |w| && w[k..k + |sep|] == sep
    else 0 <= k < |w| && w[k] == t[i]
  }

  /** w is the text with the separator for every LF and nothing else changed. */
  predicate LfBecomes(t: Bytes, sep: Bytes, w: Bytes) {
    |w| == Moved(t, sep, |t|) && forall i: nat :: i < |t| ==> StandsAt(t, sep, w, i)
  }

  /** What a handle in mode m writes for a text. */
  predicate WrittenAs(t: Bytes, m: Newline, linesep: Bytes, w: Bytes) {
    match m
    case Universal => LfBecomes(t, linesep, w)
    case OnlyCR => LfBecomes(t, [CR], w)
    case OnlyCRLF => LfBecomes(t, [CR, LF], w)
    case Untranslated | OnlyLF | Unrecognised => w == t
  }

  lemma MovedTail(t: Bytes, sep: Bytes, i: nat)
    requires 0 < i <= |t|
    ensures Moved(t, sep, i) == (if t[0] == LF then |sep| else 1) + Moved(t[1..], sep, i - 1)
  {
    var front: seq<int> := t[1..][..i - 1];
    assert t[..i] == [t[0]] + front;
    var lfs := multiset(front)[LF];
    assert multiset(t[..i])[LF] == (if t[0] == LF then 1 else 0) + lfs;
    assert (|sep| - 1) * (1 + lfs) == |sep| - 1 + (|sep| - 1) * lfs;
  }

  lemma {:induction false} LfReplaced(t: Bytes, sep: Bytes)
    ensures LfBecomes(t, sep, Replace(t, [LF], sep))
    decreases |t|
  {
    if t != [] {
      var head, rest, w := if t[0] == LF then sep else [t[0]], Replace(t[1..], [LF], sep), Replace(t, [LF], sep);
      assert t == [t[0]] + t[1..];
      ReplaceOneHead(t[0], t[1..], sep, LF);
      LfReplaced(t[1..], sep);
      MovedTail(t, sep, |t|);
      hide Replace, Moved;
      forall i: nat | i < |t| ensures StandsAt(t, sep, w, i) {
        if i == 0 { HeadStands(t, sep, rest); } else { TailStands(t, sep, head, rest, i); }
      }
    }
  }

  lemma HeadStands(t: Bytes, sep: Bytes, rest: Bytes)
    requires t != []
    ensures StandsAt(t, sep, (if t[0] == LF then sep else [t[0]]) + rest, 0)
  {
    assert Moved(t, sep, 0) == 0;
  }

  lemma TailStands(t: Bytes, sep: Bytes, head: Bytes, rest: Bytes, i: nat)
    requires 0 < i < |t| && |head| == (if t[0] == LF then |sep| else 1)
    requires StandsAt(t[1..], sep, rest, i - 1)
    ensures StandsAt(t, sep, head + rest, i)
  {
    MovedTail(t, sep, i);
    hide Moved;
    var k := Moved(t[1..], sep, i - 1);
    assert t[i] == t[1..][i - 1];
    if t[i] == LF { assert (head + rest)[|head| + k..|head| + k + |sep|] == rest[k..k + |sep|]; }
  }

  /** Every mode writes its own separator for each LF, and leaves every other byte alone. */
  lemma WriteTranslation(t: Bytes, m: Newline, linesep: Bytes)
    ensures WrittenAs(t, m, linesep, TranslateForWrite(t, m, linesep))
  {
    hide LfBecomes;
    match m
    case Universal => LfReplaced(t, linesep);
    case OnlyCR => LfReplaced(t, [CR]);
    case OnlyCRLF => LfReplaced(t, [CR, LF]);
    case Untranslated | OnlyLF | Unrecognised =>
  }

  /** In mode "\r" no byte moves: there is a CR where the text has an LF, else the byte of the text. */
  lemma WrittenWithCr(t: Bytes, linesep: Bytes, i: nat)
    requires i < |t|
    ensures var w := TranslateForWrite(t, OnlyCR, linesep);
            |w| == |t| && w[i] == if t[i] == LF then CR else t[i]
  {
    WriteTranslation(t, OnlyCR, linesep);
    var w := TranslateForWrite(t, OnlyCR, linesep);
    assert StandsAt(t, [CR], w, i);
    if t[i] == LF { assert w[i..i + 1][0] == CR; }
  }

  /** Writing in any mode and reading back in universal mode gives the text back exactly when
      the text holds no CR. The separators are those of POSIX and Windows. */
  lemma WriteThenUniversalRead(t: Bytes, m: Newline, linesep: Bytes)
    requires linesep == [LF] || linesep == [CR, LF]
    ensures TranslateForRead(TranslateForWrite(t, m, linesep), Universal) == t <==> CR !in t
  {
    var w := TranslateForWrite(t, m, linesep);
    TwoPassesAreOne(w);
    assert CR !in Normalize(w);
    if CR !in t {
      match m
      case Universal => NormalizeOfExpanded(t, linesep);
      case OnlyCR => NormalizeOfExpanded(t, [CR]);
      case OnlyCRLF => NormalizeOfExpanded(t, [CR, LF]);
      case Untranslated | OnlyLF | Unrecognised => NormalizeWithoutCr(t);
    }
  }
}
