/** CRC-32C as src/utils/yuyuko_memlife.hpp computes it (software path, no final complement). */
module Crc32c {
  type Octet = bv8

  // ------------------------------------------------------------------ the definition

  /** One step of the division by the Castagnoli polynomial of section 12.1 of RFC 3720, most
      significant bit first. */
  function MsbStep(c: bv32): bv32 {
    (c << 1) ^ (if c & 0x8000_0000 == 0x8000_0000 then 0x1EDC_6F41 else 0)
  }

  /** The reversal of the 32 bits of a register. */
  function Reverse(x: bv32): bv32 {
    var a := ((x & 0x5555_5555) << 1) | ((x >> 1) & 0x5555_5555);
    var b := ((a & 0x3333_3333) << 2) | ((a >> 2) & 0x3333_3333);
    var c := ((b & 0x0F0F_0F0F) << 4) | ((b >> 4) & 0x0F0F_0F0F);
    var d := ((c & 0x00FF_00FF) << 8) | ((c >> 8) & 0x00FF_00FF);
    (d << 16) | (d >> 16)
  }

  /** The step the table is built from, on the reversed register. */
  function BitStep(c: bv32): bv32 {
    (c >> 1) ^ Mask(c)
  }

  function Mask(c: bv32): bv32 {
    if c & 1 == 1 then 0x82F6_3B78 else 0
  }

  function Steps(c: bv32, n: nat): bv32
    decreases n
  {
    if n == 0 then c else Steps(BitStep(c), n - 1)
  }

  function MsbSteps(c: bv32, n: nat): bv32
    decreases n
  {
    if n == 0 then c else MsbSteps(MsbStep(c), n - 1)
  }

  lemma BitStepIsReversedMsbStep(c: bv32)
    ensures Reverse(BitStep(c)) == MsbStep(Reverse(c))
    ensures Reverse(Reverse(c)) == c
  {
  }

  lemma {:induction false} StepsAreReversedMsbSteps(c: bv32, n: nat)
    ensures Reverse(Steps(c, n)) == MsbSteps(Reverse(c), n)
    decreases n
  {
    if n > 0 {
      BitStepIsReversedMsbStep(c);
      StepsAreReversedMsbSteps(BitStep(c), n - 1);
    }
  }

  function Step2(c: bv32): bv32 { BitStep(BitStep(c)) }
  function Step4(c: bv32): bv32 { Step2(Step2(c)) }
  function Step8(c: bv32): bv32 { Step4(Step4(c)) }

  // ------------------------------------------------------------------ algebra of the steps

  function Xor(a: bv32, b: bv32): bv32 { a ^ b }

  lemma MaskLinear(a: bv32, b: bv32)
    ensures Mask(a ^ b) == Mask(a) ^ Mask(b)
  {
  }

  lemma ShiftLinear(a: bv32, b: bv32)
    ensures (a ^ b) >> 1 == (a >> 1) ^ (b >> 1)
  {
  }

  lemma XorSwap(a: bv32, b: bv32, c: bv32, d: bv32)
    ensures (a ^ b) ^ (c ^ d) == (a ^ c) ^ (b ^ d)
  {
  }

  lemma BitStepLinear(a: bv32, b: bv32)
    ensures BitStep(Xor(a, b)) == Xor(BitStep(a), BitStep(b))
  {
    hide Mask;
    MaskLinear(a, b);
    ShiftLinear(a, b);
    XorSwap(a >> 1, b >> 1, Mask(a), Mask(b));
  }

  lemma Step8Linear(a: bv32, b: bv32)
    ensures Step8(Xor(a, b)) == Xor(Step8(a), Step8(b))
  {
    hide Step4, Xor;
    Step4Linear(a, b);
    Step4Linear(Step4(a), Step4(b));
  }

  lemma Step4Linear(a: bv32, b: bv32)
    ensures Step4(Xor(a, b)) == Xor(Step4(a), Step4(b))
  {
    hide Step2, Xor;
    Step2Linear(a, b);
    Step2Linear(Step2(a), Step2(b));
  }

  lemma Step2Linear(a: bv32, b: bv32)
    ensures Step2(Xor(a, b)) == Xor(Step2(a), Step2(b))
  {
    hide BitStep, Xor;
    BitStepLinear(a, b);
    BitStepLinear(BitStep(a), BitStep(b));
  }

  lemma BitStepInjective(a: bv32, b: bv32)
    requires BitStep(a) == BitStep(b)
    ensures a == b
  {
  }

  lemma Step8Injective(a: bv32, b: bv32)
    requires Step8(a) == Step8(b)
    ensures a == b
  {
    hide Step4;
    Step4Injective(Step4(a), Step4(b));
    Step4Injective(a, b);
  }

  lemma Step4Injective(a: bv32, b: bv32)
    requires Step4(a) == Step4(b)
    ensures a == b
  {
    hide BitStep;
    BitStepInjective(BitStep(Step2(a)), BitStep(Step2(b)));
    BitStepInjective(Step2(a), Step2(b));
    BitStepInjective(BitStep(a), BitStep(b));
    BitStepInjective(a, b);
  }

  /** A register whose low byte is clear is only shifted. */
  lemma Step8Shift(h: bv32)
    requires h & 0xFF == 0
    ensures Step8(h) == h >> 8
  {
    hide Step4;
    assert h & 0xF == 0 && (h >> 4) & 0xF == 0;
    assert (h >> 4) >> 4 == h >> 8;
    Step4Shift(h);
    Step4Shift(h >> 4);
  }

  lemma Step4Shift(h: bv32)
    requires h & 0xF == 0
    ensures Step4(h) == h >> 4
  {
    hide Step2;
    assert h & 3 == 0 && (h >> 2) & 3 == 0;
    assert (h >> 2) >> 2 == h >> 4;
    Step2Shift(h);
    Step2Shift(h >> 2);
  }

  lemma Step2Shift(h: bv32)
    requires h & 3 == 0
    ensures Step2(h) == h >> 2
  {
    hide BitStep;
    assert h & 1 == 0 && (h >> 1) & 1 == 0;
    assert (h >> 1) >> 1 == h >> 2;
    EvenStep(h);
    EvenStep(h >> 1);
  }

  lemma EvenStep(h: bv32)
    requires h & 1 == 0
    ensures BitStep(h) == h >> 1
  {
  }

  /** Bits above the low byte pass through the next eight steps. */
  lemma Absorb(z: bv32, y: bv32)
    requires y & 0xFF == 0
    ensures Step8(Xor(z, y)) == Xor(Step8(z), y >> 8)
  {
    hide Step8, Xor;
    Step8Linear(z, y);
    Step8Shift(y);
  }

  lemma LowAndHigh(x: bv32)
    ensures x == Xor(x & 0xFF, x & 0xFFFF_FF00)
    ensures (x & 0xFFFF_FF00) & 0xFF == 0 && (x & 0xFFFF_FF00) >> 8 == x >> 8
  {
  }

  // ------------------------------------------------------------------ the table

  /** The register after one more byte, bit by bit. */
  function ByteStep(crc: bv32, b: Octet): bv32 {
    Step8(Xor(crc, b as bv32))
  }

  /** The table index: the low byte of the register combined with the data byte. */
  function Index(crc: bv32, b: Octet): Octet {
    (Xor(crc, b as bv32) & 0xFF) as bv8
  }

  lemma IndexBits(crc: bv32, b: Octet)
    ensures Xor(crc, b as bv32) >> 8 == crc >> 8
    ensures Xor(crc, b as bv32) & 0xFF == Index(crc, b) as bv32
  {
  }

  /** One table look-up does the work of eight steps. */
  lemma TableStep(crc: bv32, b: Octet)
    ensures ByteStep(crc, b) == Xor(Step8(Index(crc, b) as bv32), crc >> 8)
  {
    hide Step8, Xor, Index;
    var x := Xor(crc, b as bv32);
    LowAndHigh(x);
    Absorb(x & 0xFF, x & 0xFFFF_FF00);
    IndexBits(crc, b);
  }

  /** `crc32c_table`: 256 entries of eight steps each. */
  method Table() returns (t: array<bv32>)
    ensures fresh(t) && t.Length == 256
    ensures forall k :: 0 <= k < 256 ==> t[k] == Step8(k as bv32)
  {
    hide BitStep, Step8;
    t := new bv32[256];
    for i := 0 to 256
      invariant forall k :: 0 <= k < i ==> t[k] == Step8(k as bv32)
    {
      var c := i as bv32;
      for j := 0 to 8
        invariant Steps(c, 8 - j) == Steps(i as bv32, 8)
      {
        c := BitStep(c);
      }
      EightSteps(i as bv32);
      t[i] := c;
    }
  }

  lemma OctetAsIndex(b: Octet)
    ensures (b as int) as bv32 == b as bv32
  {
    assert (b as bv32) as int == b as int;
    WordAsIndex(b as bv32);
  }

  lemma WordAsIndex(w: bv32)
    ensures (w as int) as bv32 == w
  {
  }

  lemma EightSteps(c: bv32)
    ensures Steps(c, 8) == Step8(c)
  {
    hide BitStep;
    var c2 := Step2(c);
    assert Steps(c, 8) == Steps(c2, 6);
    var c4 := Step2(c2);
    assert Steps(c2, 6) == Steps(c4, 4);
    var c6 := Step2(c4);
    assert Steps(c4, 4) == Steps(c6, 2);
  }

  // ------------------------------------------------------------------ the running update

  function Update(crc: bv32, data: seq<Octet>): bv32 {
    if data == [] then crc else ByteStep(Update(crc, data[..|data| - 1]), data[|data| - 1])
  }

  /** `crc32c_update`, by table. */
  method UpdateByTable(crc0: bv32, data: seq<Octet>) returns (crc: bv32)
    ensures crc == Update(crc0, data)
  {
    var tbl := Table();
    hide Step8, ByteStep;
    crc := crc0;
    for i := 0 to |data|
      invariant crc == Update(crc0, data[..i])
      modifies {}
    {
      TableStep(crc, data[i]);
      OctetAsIndex(Index(crc, data[i]));
      assert data[..i + 1][..i] == data[..i];
      var k := Index(crc, data[i]) as int;
      crc := Xor(tbl[k], crc >> 8);
    }
    assert data[..|data|] == data;
  }

  lemma {:induction false} UpdateConcat(crc: bv32, a: seq<Octet>, b: seq<Octet>)
    ensures Update(crc, a + b) == Update(Update(crc, a), b)
    decreases |b|
  {
    hide ByteStep;
    if b == [] {
      assert a + b == a;
    } else {
      var n := |b| - 1;
      UpdateConcat(crc, a, b[..n]);
      assert (a + b)[..|a + b| - 1] == a + b[..n];
    }
  }

  /** Different registers stay different, whatever follows. */
  lemma {:induction false} UpdateInjective(c: bv32, d: bv32, data: seq<Octet>)
    requires Update(c, data) == Update(d, data)
    ensures c == d
    decreases |data|
  {
    hide ByteStep;
    if data != [] {
      var n := |data| - 1;
      ByteStepInjective(Update(c, data[..n]), Update(d, data[..n]), data[n]);
      UpdateInjective(c, d, data[..n]);
    }
  }

  lemma ByteStepInjective(x: bv32, y: bv32, b: Octet)
    requires ByteStep(x, b) == ByteStep(y, b)
    ensures x == y
  {
    hide Step8, Xor;
    Step8Injective(Xor(x, b as bv32), Xor(y, b as bv32));
    XorCancels(x, y, b as bv32);
  }

  lemma XorCancels(x: bv32, y: bv32, z: bv32)
    requires Xor(x, z) == Xor(y, z)
    ensures x == y
  {
  }

  /** The definition on whole messages: every byte enters bit-reversed at the top of the
      most-significant-first register, then eight division steps. */
  function MsbUpdate(crc: bv32, data: seq<Octet>): bv32 {
    if data == [] then crc
    else MsbSteps(Xor(MsbUpdate(crc, data[..|data| - 1]), Reverse(data[|data| - 1] as bv32)), 8)
  }

  lemma ReverseLinear(a: bv32, b: bv32)
    ensures Reverse(Xor(a, b)) == Xor(Reverse(a), Reverse(b))
  {
  }

  /** The table-driven checksum is the polynomial division, bit-reversed. */
  lemma {:induction false} UpdateIsDivision(crc: bv32, data: seq<Octet>)
    ensures Reverse(Update(crc, data)) == MsbUpdate(Reverse(crc), data)
    decreases |data|
  {
    hide Step8, Reverse, Xor, MsbStep;
    if data != [] {
      var n := |data| - 1;
      UpdateIsDivision(crc, data[..n]);
      var c, b := Update(crc, data[..n]), data[n] as bv32;
      ReverseLinear(c, b);
      EightSteps(Xor(c, b));
      StepsAreReversedMsbSteps(Xor(c, b), 8);
    }
  }

  // ------------------------------------------------------------------ burst errors

  /** The n-th byte's place in a little-endian word. */
  function Place(b: Octet, n: nat): (y: bv32)
    requires n < 4
    ensures n > 0 ==> y & 0xFF == 0 && y >> 8 == Place(b, n - 1)
    decreases n
  {
    if n == 0 then b as bv32
    else if n == 1 then (b as bv32) << 8
    else if n == 2 then (b as bv32) << 16
    else (b as bv32) << 24
  }

  /** The register with four bytes combined into their places. */
  function Word(c: bv32, w: seq<Octet>): bv32
    requires |w| == 4
  {
    Xor(Xor(Xor(Xor(c, Place(w[0], 0)), Place(w[1], 1)), Place(w[2], 2)), Place(w[3], 3))
  }

  lemma WordInjective(c: bv32, w: seq<Octet>, v: seq<Octet>)
    requires |w| == |v| == 4 && Word(c, w) == Word(c, v)
    ensures w == v
  {
    hide Xor, Place;
    XorAssoc(c, Place(w[0], 0), Place(w[1], 1), Place(w[2], 2), Place(w[3], 3));
    XorAssoc(c, Place(v[0], 0), Place(v[1], 1), Place(v[2], 2), Place(v[3], 3));
    XorCancels(Together(w), Together(v), c);
    BytesOfWord(w);
    BytesOfWord(v);
  }

  function Together(w: seq<Octet>): bv32
    requires |w| == 4
  {
    Xor(Xor(Xor(Place(w[0], 0), Place(w[1], 1)), Place(w[2], 2)), Place(w[3], 3))
  }

  lemma XorAssoc(c: bv32, p: bv32, q: bv32, r: bv32, s: bv32)
    ensures Xor(Xor(Xor(Xor(c, p), q), r), s) == Xor(Xor(Xor(Xor(p, q), r), s), c)
  {
  }

  function ByteAt(x: bv32, n: nat): Octet
    requires n < 4
  {
    if n == 0 then (x & 0xFF) as bv8
    else if n == 1 then ((x >> 8) & 0xFF) as bv8
    else if n == 2 then ((x >> 16) & 0xFF) as bv8
    else ((x >> 24) & 0xFF) as bv8
  }

  lemma BytesOfWord(w: seq<Octet>)
    requires |w| == 4
    ensures forall i :: 0 <= i < 4 ==> w[i] == ByteAt(Together(w), i)
  {
    Extract(w[0], w[1], w[2], w[3]);
  }

  lemma Extract(a: Octet, b: Octet, c: Octet, d: Octet)
    ensures var x := Xor(Xor(Xor(Place(a, 0), Place(b, 1)), Place(c, 2)), Place(d, 3));
            ByteAt(x, 0) == a && ByteAt(x, 1) == b && ByteAt(x, 2) == c && ByteAt(x, 3) == d
  {
  }

  /** Four bytes one after the other are one word followed by 32 steps. */
  lemma FourBytes(c: bv32, w: seq<Octet>)
    requires |w| == 4
    ensures Update(c, w) == Step8(Step8(Step8(Step8(Word(c, w)))))
  {
    hide Step8, Xor, Place;
    var x0 := Xor(c, Place(w[0], 0));
    var x1 := Xor(x0, Place(w[1], 1));
    var x2 := Xor(x1, Place(w[2], 2));
    AbsorbByte(x0, w[1], 1);
    AbsorbByte(Step8(x1), w[2], 1);
    AbsorbByte(x1, w[2], 2);
    AbsorbByte(Step8(Step8(x2)), w[3], 1);
    AbsorbByte(Step8(x2), w[3], 2);
    AbsorbByte(x2, w[3], 3);
    LowPlaces(w);
    UnrollFour(c, w);
  }

  lemma AbsorbByte(z: bv32, b: Octet, n: nat)
    requires 0 < n < 4
    ensures Step8(Xor(z, Place(b, n))) == Xor(Step8(z), Place(b, n - 1))
  {
    hide Step8, Xor, Place;
    Absorb(z, Place(b, n));
  }

  lemma LowPlaces(w: seq<Octet>)
    requires |w| == 4
    ensures forall i :: 0 <= i < 4 ==> Place(w[i], 0) == w[i] as bv32
  {
  }

  lemma UnrollFour(c: bv32, w: seq<Octet>)
    requires |w| == 4
    ensures Update(c, w) == ByteStep(ByteStep(ByteStep(ByteStep(c, w[0]), w[1]), w[2]), w[3])
  {
    hide ByteStep;
    assert w[..3][..2] == w[..2] && w[..2][..1] == w[..1] && w[..1][..0] == [];
    assert Update(c, w[..1]) == ByteStep(c, w[0]);
    assert Update(c, w[..2]) == ByteStep(ByteStep(c, w[0]), w[1]);
    assert Update(c, w[..3]) == ByteStep(Update(c, w[..2]), w[2]);
  }

  lemma BurstInjective(c: bv32, w: seq<Octet>, v: seq<Octet>)
    requires |w| == |v| <= 4 && Update(c, w) == Update(c, v)
    ensures w == v
    decreases 4 - |w|
  {
    hide Step8, ByteStep, Word;
    if |w| < 4 {
      UpdateConcat(c, w, [0]);
      UpdateConcat(c, v, [0]);
      BurstInjective(c, w + [0], v + [0]);
      assert w == (w + [0])[..|w|] && v == (v + [0])[..|v|];
    } else {
      FourBytes(c, w);
      FourBytes(c, v);
      var x, y := Word(c, w), Word(c, v);
      Step8Injective(Step8(Step8(Step8(x))), Step8(Step8(Step8(y))));
      Step8Injective(Step8(Step8(x)), Step8(Step8(y)));
      Step8Injective(Step8(x), Step8(y));
      Step8Injective(x, y);
      WordInjective(c, w, v);
    }
  }

  /** Two contents of one length that differ only in the four bytes from `at` on. */
  predicate DifferInBurst(a: seq<Octet>, b: seq<Octet>, at: nat) {
    && |a| == |b| && a != b
    && forall i :: 0 <= i < |a| && !(at <= i < at + 4) ==> a[i] == b[i]
  }

  /** Every corruption confined to four adjacent bytes changes the checksum. */
  lemma BurstDetected(c: bv32, a: seq<Octet>, b: seq<Octet>, at: nat)
    requires DifferInBurst(a, b, at)
    ensures Update(c, a) != Update(c, b)
  {
    hide ByteStep;
    var lo := if at <= |a| then at else |a|;
    var hi := if at + 4 <= |a| then at + 4 else |a|;
    var w, v := a[lo..hi], b[lo..hi];
    assert a[..lo] == b[..lo] && a[hi..] == b[hi..];
    assert a == a[..lo] + w + a[hi..] && b == a[..lo] + v + a[hi..];
    UpdateConcat(c, a[..lo] + w, a[hi..]);
    UpdateConcat(c, a[..lo] + v, a[hi..]);
    UpdateConcat(c, a[..lo], w);
    UpdateConcat(c, a[..lo], v);
    if Update(c, a) == Update(c, b) {
      UpdateInjective(Update(c, a[..lo] + w), Update(c, a[..lo] + v), a[hi..]);
      BurstInjective(Update(c, a[..lo]), w, v);
      assert false;
    }
  }

  /** Four bytes that bring the initial register to zero, and four that bring it back to itself. */
  const ZEROING: seq<Octet> := [0xFF, 0xFF, 0xFF, 0xFF]
  const NEUTRAL: seq<Octet> := [0xAB, 0x9B, 0xE0, 0x9B]

  lemma ZeroingZeroes()
    ensures Update(0xFFFF_FFFF, ZEROING) == 0
  {
    FourBytes(0xFFFF_FFFF, ZEROING);
    hide Update, Step8;
    assert Word(0xFFFF_FFFF, ZEROING) == 0;
    StepOfZero();
  }

  lemma StepOfZero()
    ensures Step8(0) == 0
  {
  }

  lemma NeutralIsNeutral()
    ensures Update(0xFFFF_FFFF, NEUTRAL) == 0xFFFF_FFFF
  {
    FourBytes(0xFFFF_FFFF, NEUTRAL);
    hide Update, Step8;
    assert Word(0xFFFF_FFFF, NEUTRAL) == 0x641F_6454;
    NeutralSteps();
  }

  lemma NeutralSteps()
    ensures Step8(Step8(Step8(Step8(0x641F_6454)))) == 0xFFFF_FFFF
  {
  }

  /** Zeros leave a zero register alone. */
  lemma {:induction false} ZerosKeepZero(n: nat)
    ensures Update(0, seq(n, _ => 0)) == 0
    decreases n
  {
    var zeros: seq<Octet> := seq(n, _ => 0);
    if n > 0 {
      assert zeros[..n - 1] == seq(n - 1, _ => 0);
      ZerosKeepZero(n - 1);
      StepOfZero();
      hide Step8;
    }
  }
}
