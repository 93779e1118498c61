/** The SAE J1850 checksum: a byte-wise loop on an unmasked machine word, and the remainder of the
    message polynomial over GF(2).  A byte is the polynomial of its bits. */
module Crc8 {

  /** The remainder `r` times x, reduced by x^8 + x^4 + x^3 + x^2 + 1: when the x^8 term appears,
      the divisor 0x11D is subtracted, which leaves 0x1D of it in the byte. */
  function Shift(r: bv8): bv8 {
    (r << 1) ^ (if r & 0x80 != 0 then 0x1D else 0)
  }

  /** One step of long division: the next coefficient enters at the bottom. */
  function DivideStep(r: bv8, bit: bv8): bv8 { Shift(r) ^ bit }

  function Fold(step: (bv8, bv8) -> bv8, items: seq<bv8>, start: bv8): bv8 {
    if items == [] then start else step(Fold(step, items[..|items|-1], start), items[|items|-1])
  }

  /** The remainder of the polynomial with the given coefficients, highest first. */
  function Remainder(bits: seq<bv8>): bv8 { Fold(DivideStep, bits, 0) }

  /** The coefficients of a byte, highest first. */
  function Bits(b: bv8): seq<bv8> {
    [b >> 7, (b >> 6) & 1, (b >> 5) & 1, (b >> 4) & 1, (b >> 3) & 1, (b >> 2) & 1, (b >> 1) & 1, b & 1]
  }

  function Coefficients(data: seq<bv8>): seq<bv8> {
    if data == [] then [] else Coefficients(data[..|data|-1]) + Bits(data[|data|-1])
  }

  /** What the documented parameters define: the remainder of the message times x^8, its first byte
      complemented by the initial value, complemented; the empty message gives zero. */
  function Checksum(data: seq<bv8>): bv8 {
    if data == [] then 0
    else Remainder(Coefficients(data[0 := data[0] ^ 0xFF]) + Bits(0)) ^ 0xFF
  }

  // ---------------------------------------------------------------- division byte by byte

  function Shift8(r: bv8): bv8 {
    Shift(Shift(Shift(Shift(Shift(Shift(Shift(Shift(r))))))))
  }

  lemma FoldSnoc(step: (bv8, bv8) -> bv8, a: seq<bv8>, x: bv8, start: bv8)
    ensures Fold(step, a + [x], start) == step(Fold(step, a, start), x)
  {
    assert (a + [x])[..|a|] == a;
  }

  lemma FoldEight(step: (bv8, bv8) -> bv8, a: seq<bv8>, b: seq<bv8>, start: bv8)
    requires |b| == 8
    ensures Fold(step, a + b, start)
         == step(step(step(step(step(step(step(step(Fold(step, a, start),
              b[0]), b[1]), b[2]), b[3]), b[4]), b[5]), b[6]), b[7])
  {
    assert a + b == (((((((a + [b[0]]) + [b[1]]) + [b[2]]) + [b[3]]) + [b[4]]) + [b[5]]) + [b[6]]) + [b[7]];
    FoldSnoc(step, a, b[0], start);
    FoldSnoc(step, a + [b[0]], b[1], start);
    FoldSnoc(step, (a + [b[0]]) + [b[1]], b[2], start);
    FoldSnoc(step, ((a + [b[0]]) + [b[1]]) + [b[2]], b[3], start);
    FoldSnoc(step, (((a + [b[0]]) + [b[1]]) + [b[2]]) + [b[3]], b[4], start);
    FoldSnoc(step, ((((a + [b[0]]) + [b[1]]) + [b[2]]) + [b[3]]) + [b[4]], b[5], start);
    FoldSnoc(step, (((((a + [b[0]]) + [b[1]]) + [b[2]]) + [b[3]]) + [b[4]]) + [b[5]], b[6], start);
    FoldSnoc(step, ((((((a + [b[0]]) + [b[1]]) + [b[2]]) + [b[3]]) + [b[4]]) + [b[5]]) + [b[6]], b[7], start);
  }

  /** Two coefficients enter below others that are still on their way up. */
  predicate TwoEnter(step: (bv8, bv8) -> bv8, shift: bv8 -> bv8, s: bv8, x: bv8, a: bv8, b: bv8) {
    a < 2 && b < 2 && x < 0x40 ==>
      step(step(s ^ x, a), b) == shift(shift(s)) ^ ((x << 2) | (a << 1) | b)
  }

  lemma TwoDivideSteps(s: bv8, x: bv8, a: bv8, b: bv8)
    requires a < 2 && b < 2 && x < 0x40
    ensures DivideStep(DivideStep(s ^ x, a), b) == Shift(Shift(s)) ^ ((x << 2) | (a << 1) | b)
  {
  }

  lemma TwoCoefficients(s: bv8, x: bv8, a: bv8, b: bv8)
    ensures TwoEnter(DivideStep, Shift, s, x, a, b)
  {
    if a < 2 && b < 2 && x < 0x40 {
      TwoDivideSteps(s, x, a, b);
    }
  }

  lemma AllTwoEnter()
    ensures forall s: bv8, x: bv8, a: bv8, b: bv8 :: TwoEnter(DivideStep, Shift, s, x, a, b)
  {
    forall s: bv8, x: bv8, a: bv8, b: bv8 ensures TwoEnter(DivideStep, Shift, s, x, a, b) {
      TwoCoefficients(s, x, a, b);
    }
  }

  /** Four coefficients entering below `x` make `y` after two and `z` after four. */
  predicate FourAs(x: bv8, a: bv8, b: bv8, a': bv8, b': bv8, y: bv8, z: bv8) {
    && a < 2 && b < 2 && a' < 2 && b' < 2 && x < 0x40 && y < 0x40
    && y == (x << 2) | (a << 1) | b && z == (y << 2) | (a' << 1) | b'
  }

  /** The coefficients `e` of `d`, and what of it has entered after two, four and six of them. */
  predicate EntersAs(e: seq<bv8>, x6: bv8, x4: bv8, x2: bv8, d: bv8) {
    |e| == 8 && FourAs(0, e[0], e[1], e[2], e[3], x6, x4) && FourAs(x4, e[4], e[5], e[6], e[7], x2, d)
  }

  lemma HighBitsEnter(d: bv8)
    ensures FourAs(0, d >> 7, (d >> 6) & 1, (d >> 5) & 1, (d >> 4) & 1, d >> 6, d >> 4)
  {
    PairsOf(d);
  }

  lemma LowBitsEnter(d: bv8)
    ensures FourAs(d >> 4, (d >> 3) & 1, (d >> 2) & 1, (d >> 1) & 1, d & 1, d >> 2, d)
  {
    PairsOf(d);
  }

  lemma BitsEnter(d: bv8)
    ensures EntersAs(Bits(d), d >> 6, d >> 4, d >> 2, d)
  {
    HighBitsEnter(d);
    LowBitsEnter(d);
  }

  /** Eight coefficients enter by twos, for any such step and shift; `x6`, `x4` and `x2` are what
      has entered so far. */
  lemma EnterByTwos(step: (bv8, bv8) -> bv8, shift: bv8 -> bv8, r: bv8, e: seq<bv8>,
                    x6: bv8, x4: bv8, x2: bv8, d: bv8)
    requires forall s: bv8, x: bv8, a: bv8, b: bv8 :: TwoEnter(step, shift, s, x, a, b)
    requires EntersAs(e, x6, x4, x2, d)
    ensures step(step(step(step(step(step(step(step(r, e[0]), e[1]), e[2]), e[3]), e[4]), e[5]), e[6]), e[7])
         == shift(shift(shift(shift(shift(shift(shift(shift(r)))))))) ^ d
  {
    XorLaws(r);
    var v4 := EnterFour(step, shift, r, r, 0, e[0], e[1], e[2], e[3], x6, x4);
    var v0 := EnterFour(step, shift, v4, shift(shift(shift(shift(r)))), x4, e[4], e[5], e[6], e[7], x2, d);
  }

  lemma EnterFour(step: (bv8, bv8) -> bv8, shift: bv8 -> bv8, v: bv8, s: bv8, x: bv8,
                  a: bv8, b: bv8, a': bv8, b': bv8, y: bv8, z: bv8)
      returns (v': bv8)
    requires forall s: bv8, x: bv8, a: bv8, b: bv8 :: TwoEnter(step, shift, s, x, a, b)
    requires FourAs(x, a, b, a', b', y, z) && v == s ^ x
    ensures v' == step(step(step(step(v, a), b), a'), b') && v' == shift(shift(shift(shift(s)))) ^ z
  {
    var mid := EnterTwo(step, shift, v, s, x, a, b, y);
    v' := EnterTwo(step, shift, mid, shift(shift(s)), y, a', b', z);
  }

  lemma EnterTwo(step: (bv8, bv8) -> bv8, shift: bv8 -> bv8, v: bv8, s: bv8, x: bv8, a: bv8, b: bv8, y: bv8)
      returns (v': bv8)
    requires forall s: bv8, x: bv8, a: bv8, b: bv8 :: TwoEnter(step, shift, s, x, a, b)
    requires a < 2 && b < 2 && x < 0x40 && v == s ^ x && y == (x << 2) | (a << 1) | b
    ensures v' == step(step(v, a), b) && v' == shift(shift(s)) ^ y
  {
    assert TwoEnter(step, shift, s, x, a, b);
    v' := step(step(v, a), b);
  }

  lemma PairsOf(d: bv8)
    ensures d >> 7 < 2 && (d >> 6) & 1 < 2 && (d >> 5) & 1 < 2 && (d >> 4) & 1 < 2
    ensures (d >> 3) & 1 < 2 && (d >> 2) & 1 < 2 && (d >> 1) & 1 < 2 && d & 1 < 2
    ensures d >> 6 < 0x40 && d >> 4 < 0x40 && d >> 2 < 0x40
    ensures (0 << 2) | ((d >> 7) << 1) | ((d >> 6) & 1) == d >> 6
    ensures ((d >> 6) << 2) | (((d >> 5) & 1) << 1) | ((d >> 4) & 1) == d >> 4
    ensures ((d >> 4) << 2) | (((d >> 3) & 1) << 1) | ((d >> 2) & 1) == d >> 2
    ensures ((d >> 2) << 2) | (((d >> 1) & 1) << 1) | (d & 1) == d
  {
  }

  predicate IsEightTimes(shift8: bv8 -> bv8, shift: bv8 -> bv8, r: bv8) {
    shift8(r) == shift(shift(shift(shift(shift(shift(shift(shift(r))))))))
  }

  lemma AppendEight(step: (bv8, bv8) -> bv8, shift: bv8 -> bv8, shift8: bv8 -> bv8, bits: seq<bv8>, e: seq<bv8>,
                    x6: bv8, x4: bv8, x2: bv8, d: bv8)
    requires forall s: bv8, x: bv8, a: bv8, b: bv8 :: TwoEnter(step, shift, s, x, a, b)
    requires forall r: bv8 :: IsEightTimes(shift8, shift, r)
    requires EntersAs(e, x6, x4, x2, d)
    ensures Fold(step, bits + e, 0) == shift8(Fold(step, bits, 0)) ^ d
  {
    FoldEight(step, bits, e, 0);
    EnterByTwos(step, shift, Fold(step, bits, 0), e, x6, x4, x2, d);
    assert IsEightTimes(shift8, shift, Fold(step, bits, 0));
  }

  lemma Shift8IsEightTimes()
    ensures forall r: bv8 :: IsEightTimes(Shift8, Shift, r)
  {
  }

  /** Eight coefficients shift the remainder eight times and add the byte. */
  lemma AppendByte(bits: seq<bv8>, d: bv8)
    ensures Remainder(bits + Bits(d)) == Shift8(Remainder(bits)) ^ d
  {
    AllTwoEnter();
    Shift8IsEightTimes();
    BitsEnter(d);
    AppendEight(DivideStep, Shift, Shift8, bits, Bits(d), d >> 6, d >> 4, d >> 2, d);
  }

  // ---------------------------------------------------------------- the register

  function AddThenShift(r: bv8, d: bv8): bv8 { Shift8(r ^ d) }

  function ShiftThenAdd(r: bv8, d: bv8): bv8 { Shift8(r) ^ d }

  /** The register after the bytes of a message, as the source keeps it: each byte is added at the
      top and shifted through. */
  function Register(data: seq<bv8>): bv8 { Fold(AddThenShift, data, 0xFF) }

  /** The remainder of a message, a byte at a time. */
  lemma {:induction false} RemainderByBytes(data: seq<bv8>)
    ensures Remainder(Coefficients(data)) == Fold(ShiftThenAdd, data, 0)
  {
    if data != [] {
      var front := data[..|data|-1];
      RemainderByBytes(front);
      AppendByte(Coefficients(front), data[|data|-1]);
    }
  }

  /** Adding each byte before the shift instead of after it, with the first one complemented: the
      results differ by one shift, whatever the shift is, if it keeps zero. */
  lemma {:induction false} AddFirst(shift: bv8 -> bv8, before: (bv8, bv8) -> bv8, after: (bv8, bv8) -> bv8,
                                    data: seq<bv8>, flipped: seq<bv8>)
    requires data != [] && flipped == data[0 := data[0] ^ 0xFF] && shift(0) == 0
    requires forall r: bv8, d: bv8 :: before(r, d) == shift(r ^ d)
    requires forall r: bv8, d: bv8 :: after(r, d) == shift(r) ^ d
    ensures Fold(before, data, 0xFF) == shift(Fold(after, flipped, 0))
  {
    var last := |data| - 1;
    if last == 0 {
      AddOne(shift, before, after, data[0]);
      assert data == [data[0]] && flipped == [data[0] ^ 0xFF];
    } else {
      assert flipped[..last] == data[..last][0 := data[0] ^ 0xFF];
      AddFirst(shift, before, after, data[..last], flipped[..last]);
      AddNext(shift, before, after, data, flipped);
    }
  }

  lemma AddNext(shift: bv8 -> bv8, before: (bv8, bv8) -> bv8, after: (bv8, bv8) -> bv8,
                data: seq<bv8>, flipped: seq<bv8>)
    requires data != [] && |flipped| == |data| && flipped[|data|-1] == data[|data|-1]
    requires forall r: bv8, d: bv8 :: before(r, d) == shift(r ^ d)
    requires forall r: bv8, d: bv8 :: after(r, d) == shift(r) ^ d
    requires Fold(before, data[..|data|-1], 0xFF) == shift(Fold(after, flipped[..|data|-1], 0))
    ensures Fold(before, data, 0xFF) == shift(Fold(after, flipped, 0))
  {
  }

  lemma AddOne(shift: bv8 -> bv8, before: (bv8, bv8) -> bv8, after: (bv8, bv8) -> bv8, d: bv8)
    requires shift(0) == 0
    requires forall r: bv8, d: bv8 :: before(r, d) == shift(r ^ d)
    requires forall r: bv8, d: bv8 :: after(r, d) == shift(r) ^ d
    ensures Fold(before, [d], 0xFF) == shift(Fold(after, [d ^ 0xFF], 0))
  {
    assert [d][..0] == [] && [d ^ 0xFF][..0] == [];
    assert Fold(after, [d ^ 0xFF], 0) == after(0, d ^ 0xFF) == shift(0) ^ (d ^ 0xFF);
    assert Fold(before, [d], 0xFF) == shift(0xFF ^ d);
    XorLaws(d);
  }

  lemma XorLaws(x: bv8)
    ensures 0 ^ (x ^ 0xFF) == 0xFF ^ x && x ^ (x ^ 0xFF) == 0xFF && x ^ 0 == x
  {
  }

  lemma ZeroStays()
    ensures Shift8(0) == 0
  {
  }

  /** Adding bytes at the top anticipates the eight zero coefficients at the end. */
  lemma RegisterIsRemainder(data: seq<bv8>)
    requires data != []
    ensures Register(data) == Remainder(Coefficients(data[0 := data[0] ^ 0xFF]) + Bits(0))
  {
    var flipped := data[0 := data[0] ^ 0xFF];
    ZeroStays();
    AddFirst(Shift8, AddThenShift, ShiftThenAdd, data, flipped);
    RemainderByBytes(flipped);
    AppendByte(Coefficients(flipped), 0);
    XorLaws(Shift8(Remainder(Coefficients(flipped))));
  }

  /** The residue: a message followed by its checksum always leaves 0xC4 in the register. */
  lemma ResidueIsConstant(data: seq<bv8>)
    ensures Register(data + [Register(data) ^ 0xFF]) == 0xC4
  {
  }

  // ---------------------------------------------------------------- the loop on a machine word

  function LowByte(crc: bv64): bv8 { (crc & 0xFF) as bv8 }

  /** The bits above the low byte, which the source lets grow, never come back down. */
  lemma ShiftWord(crc: bv64)
    ensures LowByte(if crc & 0x80 != 0 then (crc << 1) ^ 0x1D else crc << 1) == Shift(LowByte(crc))
  {
  }

  lemma AddByte(crc: bv64, d: bv8)
    ensures LowByte(crc ^ (d as bv64)) == LowByte(crc) ^ d
  {
  }

  lemma ComplementWord(crc: bv64)
    ensures (!crc & 0xFF) as bv8 == LowByte(crc) ^ 0xFF
  {
  }

  function Shifts(r: bv8, n: nat): bv8 {
    if n == 0 then r else Shift(Shifts(r, n - 1))
  }

  lemma EightShifts(r: bv8)
    ensures Shifts(r, 8) == Shift8(r)
  {
    assert Shifts(r, 1) == Shift(r);
    assert Shifts(r, 3) == Shift(Shift(Shift(r)));
    assert Shifts(r, 5) == Shift(Shift(Shift(Shift(Shift(r)))));
    assert Shifts(r, 7) == Shift(Shift(Shift(Shift(Shift(Shift(Shift(r)))))));
  }

  /** The inner loop: eight rounds on the word shift its low byte eight times. */
  method ShiftThrough(start: bv64) returns (crc: bv64)
    ensures LowByte(crc) == Shift8(LowByte(start))
  {
    crc := start;
    var bit := 0;
    while bit < 8
      invariant bit <= 8 && LowByte(crc) == Shifts(LowByte(start), bit)
    {
      ShiftWord(crc);
      if crc & 0x80 != 0 {
        crc := crc << 1;
        crc := crc ^ 0x1D;
      } else {
        crc := crc << 1;
      }
      bit := bit + 1;
    }
    EightShifts(LowByte(start));
  }

  lemma RegisterStep(data: seq<bv8>, i: nat)
    requires i < |data|
    ensures Register(data[..i + 1]) == Shift8(Register(data[..i]) ^ data[i])
  {
    FoldSnoc(AddThenShift, data[..i], data[i], 0xFF);
    assert data[..i] + [data[i]] == data[..i + 1];
  }

  lemma ChecksumIsRegister(data: seq<bv8>)
    ensures Checksum(data) == Register(data) ^ 0xFF
  {
    if data != [] {
      RegisterIsRemainder(data);
    }
  }

  /** One byte: added at the bottom of the word and shifted through. */
  method ReadByte(start: bv64, data: seq<bv8>, i: nat) returns (crc: bv64)
    requires i < |data| && LowByte(start) == Register(data[..i])
    ensures LowByte(crc) == Register(data[..i + 1])
  {
    AddByte(start, data[i]);
    RegisterStep(data, i);
    crc := start ^ (data[i] as bv64);
    crc := ShiftThrough(crc);
  }

  /** The outer loop: the low byte of the word is the register of what was read. */
  method ReadAll(data: seq<bv8>) returns (crc: bv64)
    ensures LowByte(crc) == Register(data)
  {
    crc := 0xFF;
    assert data[..0] == [];
    var i := 0;
    while i < |data|
      invariant i <= |data| && LowByte(crc) == Register(data[..i])
    {
      crc := ReadByte(crc, data, i);
      i := i + 1;
    }
    assert data[..i] == data;
  }

  /** The checksum of any message, computed in an unsigned long whose upper bits are not masked, is
      the documented remainder. */
  method ComputeCrc8(data: seq<bv8>) returns (result: bv8)
    ensures result == Checksum(data) == Register(data) ^ 0xFF
  {
    var crc := ReadAll(data);
    ChecksumIsRegister(data);
    ComplementWord(crc);
    result := (!crc & 0xFF) as bv8;
  }
}
