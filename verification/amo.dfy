/** What the nine word-sized atomic memory operations compute, on 32-bit words. */
module AmoArithmetic {

  const TWO_31: nat := 0x8000_0000
  const TWO_32: nat := 0x1_0000_0000

  /** The value of a 32-bit word. */
  type word = x: nat | x < 0x1_0000_0000

  /** The value of a word read as a signed number. */
  function Signed(x: word): int { if x < TWO_31 then x else x - TWO_32 }

  predicate Bit(x: nat, i: nat) {
    if i == 0 then x % 2 == 1 else Bit(x / 2, i - 1)
  }

  datatype AmoOp = Swap | Add | Xor | And | Or | Min | Minu | Max | Maxu

  function Pow2(n: nat): nat {
    if n == 0 then 1 else 2 * Pow2(n - 1)
  }

  /** The lowest `n` bits of two numbers combined. */
  function Bitwise(f: (bool, bool) -> bool, a: nat, b: nat, n: nat): (r: nat)
    ensures r < Pow2(n)
  {
    if n == 0 then 0
    else 2 * Bitwise(f, a / 2, b / 2, n - 1) + if f(a % 2 == 1, b % 2 == 1) then 1 else 0
  }

  lemma WordHas32Bits()
    ensures Pow2(32) == TWO_32
  {
    assert Pow2(8) == 0x100;
    assert Pow2(16) == 0x1_0000;
    assert Pow2(24) == 0x100_0000;
  }

  function BitwiseWord(f: (bool, bool) -> bool, a: word, b: word): word {
    WordHas32Bits();
    Bitwise(f, a, b, 32)
  }

  function Operate(op: AmoOp, data: word, operand: word): word {
    match op
    case Swap => operand
    case Add => (data + operand) % TWO_32
    case Xor => BitwiseWord((x: bool, y: bool) => x != y, data, operand)
    case And => BitwiseWord((x: bool, y: bool) => x && y, data, operand)
    case Or => BitwiseWord((x: bool, y: bool) => x || y, data, operand)
    case Min => if Signed(operand) < Signed(data) then operand else data
    case Minu => if operand < data then operand else data
    case Max => if Signed(data) < Signed(operand) then operand else data
    case Maxu => if data < operand then operand else data
  }

  /** The result that the standard asks for: a swap, the sum modulo 2^32, a combination bit by bit, or
      the one of both that bounds both, as signed or as unsigned numbers. */
  ghost predicate Computes(op: AmoOp, data: word, operand: word, r: word) {
    match op
    case Swap => r == operand
    case Add => r == data + operand || r + TWO_32 == data + operand
    case Xor => forall i :: 0 <= i < 32 ==> (Bit(r, i) <==> (Bit(data, i) != Bit(operand, i)))
    case And => forall i :: 0 <= i < 32 ==> (Bit(r, i) <==> (Bit(data, i) && Bit(operand, i)))
    case Or => forall i :: 0 <= i < 32 ==> (Bit(r, i) <==> (Bit(data, i) || Bit(operand, i)))
    case Min => (r == data || r == operand) && Signed(r) <= Signed(data) && Signed(r) <= Signed(operand)
    case Minu => (r == data || r == operand) && r <= data && r <= operand
    case Max => (r == data || r == operand) && Signed(r) >= Signed(data) && Signed(r) >= Signed(operand)
    case Maxu => (r == data || r == operand) && r >= data && r >= operand
  }

  lemma {:induction false} BitwiseBit(f: (bool, bool) -> bool, a: nat, b: nat, n: nat, i: nat)
    requires i < n
    ensures Bit(Bitwise(f, a, b, n), i) <==> f(Bit(a, i), Bit(b, i))
  {
    if i > 0 {
      BitwiseBit(f, a / 2, b / 2, n - 1, i - 1);
    }
  }

  lemma {:induction false} BitsDecide(a: nat, b: nat, n: nat)
    requires a < Pow2(n) && b < Pow2(n)
    requires forall i :: 0 <= i < n ==> (Bit(a, i) <==> Bit(b, i))
    ensures a == b
  {
    if n > 0 {
      assert Bit(a, 0) <==> Bit(b, 0);
      forall i | 0 <= i < n - 1 ensures Bit(a / 2, i) <==> Bit(b / 2, i) {
        assert Bit(a, i + 1) <==> Bit(b, i + 1);
      }
      BitsDecide(a / 2, b / 2, n - 1);
    }
  }

  lemma SameBits(a: word, b: word)
    requires forall i :: 0 <= i < 32 ==> (Bit(a, i) <==> Bit(b, i))
    ensures a == b
  {
    WordHas32Bits();
    BitsDecide(a, b, 32);
  }

  lemma BitwiseWordBits(f: (bool, bool) -> bool, a: word, b: word)
    ensures forall i :: 0 <= i < 32 ==> (Bit(BitwiseWord(f, a, b), i) <==> f(Bit(a, i), Bit(b, i)))
  {
    forall i | 0 <= i < 32 ensures Bit(BitwiseWord(f, a, b), i) <==> f(Bit(a, i), Bit(b, i)) {
      BitwiseBit(f, a, b, 32, i);
    }
  }

  /** Each operation computes what the standard asks for, and that decides its result. */
  lemma OperateComputes(op: AmoOp, data: word, operand: word)
    ensures Computes(op, data, operand, Operate(op, data, operand))
  {
    match op
    case Xor => BitwiseWordBits((x: bool, y: bool) => x != y, data, operand);
    case And => BitwiseWordBits((x: bool, y: bool) => x && y, data, operand);
    case Or => BitwiseWordBits((x: bool, y: bool) => x || y, data, operand);
    case _ =>
  }

  lemma ComputesDecides(op: AmoOp, data: word, operand: word, r: word, r': word)
    requires Computes(op, data, operand, r) && Computes(op, data, operand, r')
    ensures r == r'
  {
    if op.Xor? || op.And? || op.Or? {
      SameBits(r, r');
    }
  }
}
