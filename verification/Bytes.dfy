/** Machine integers as bounded numbers, and the bitwise operations on them, bit by bit. */
module Bytes {
  const TWO_16 := 0x1_0000
  const TWO_32 := 0x1_0000_0000
  const TWO_64 := 0x1_0000_0000_0000_0000

  type byte = x: int | 0 <= x < 256
  type uint16 = x: int | 0 <= x < TWO_16
  type uint32 = x: int | 0 <= x < TWO_32

  function Fill(b: byte, n: nat): seq<byte>
  {
    seq(n, _ => b)
  }

  /** `v << k` without truncation: v times 2^k. */
  function ShiftLeft(v: nat, k: nat): nat
  {
    if k == 0 then v else 2 * ShiftLeft(v, k - 1)
  }

  /** `v >> k` */
  function ShiftRight(v: nat, k: nat): nat
  {
    if k == 0 then v else ShiftRight(v / 2, k - 1)
  }

  /** 2^k */
  function Pow2(k: nat): nat
  {
    ShiftLeft(1, k)
  }

  lemma {:induction false} ShiftLeftAdd(a: nat, b: nat, k: nat)
    ensures ShiftLeft(a + b, k) == ShiftLeft(a, k) + ShiftLeft(b, k)
  {
    if k > 0 {
      ShiftLeftAdd(a, b, k - 1);
    }
  }

  lemma {:induction false} ShiftLeftTwice(v: nat, j: nat, k: nat)
    ensures ShiftLeft(ShiftLeft(v, j), k) == ShiftLeft(v, j + k)
  {
    if k > 0 {
      ShiftLeftTwice(v, j, k - 1);
    }
  }

  lemma {:induction false} Pow2Positive(k: nat)
    ensures Pow2(k) >= 1
  {
    if k > 0 {
      Pow2Positive(k - 1);
    }
  }

  /** Larger multiples of 2^k are larger by at least 2^k. */
  lemma ShiftLeftOrder(p: nat, q: nat, k: nat)
    requires p < q
    ensures ShiftLeft(p, k) + Pow2(k) <= ShiftLeft(q, k)
  {
    ShiftLeftAdd(p, 1, k);
    ShiftLeftAdd(p + 1, q - p - 1, k);
  }

  lemma ShiftLeftEight(v: nat)
    ensures ShiftLeft(v, 8) == 256 * v
  {
    assert ShiftLeft(v, 1) == 2 * v;
    assert ShiftLeft(v, 2) == 4 * v;
    assert ShiftLeft(v, 3) == 8 * v;
    assert ShiftLeft(v, 4) == 16 * v;
    assert ShiftLeft(v, 5) == 32 * v;
    assert ShiftLeft(v, 6) == 64 * v;
    assert ShiftLeft(v, 7) == 128 * v;
  }

  /** Shifting right is dividing by 2^k, rounding down. */
  lemma {:induction false} ShiftRightBounds(v: nat, k: nat)
    ensures ShiftLeft(ShiftRight(v, k), k) <= v < ShiftLeft(ShiftRight(v, k), k) + Pow2(k)
  {
    if k > 0 {
      ShiftRightBounds(v / 2, k - 1);
    }
  }

  lemma ShiftRightIs(v: nat, k: nat, q: nat)
    ensures ShiftRight(v, k) == q <==> ShiftLeft(q, k) <= v < ShiftLeft(q, k) + Pow2(k)
  {
    ShiftRightBounds(v, k);
    var p := ShiftRight(v, k);
    if p < q {
      ShiftLeftOrder(p, q, k);
    } else if q < p {
      ShiftLeftOrder(q, p, k);
    }
  }

  /** `a | b` on the lowest `bits` bits. */
  function BitOr(a: nat, b: nat, bits: nat): nat
  {
    if bits == 0 then 0
    else (if a % 2 == 1 || b % 2 == 1 then 1 else 0) + 2 * BitOr(a / 2, b / 2, bits - 1)
  }

  /** `a ^ b` on the lowest `bits` bits. */
  function BitXor(a: nat, b: nat, bits: nat): nat
  {
    if bits == 0 then 0
    else (if a % 2 != b % 2 then 1 else 0) + 2 * BitXor(a / 2, b / 2, bits - 1)
  }

  lemma {:induction false} BitOrBound(a: nat, b: nat, bits: nat)
    ensures BitOr(a, b, bits) < Pow2(bits)
  {
    if bits > 0 {
      BitOrBound(a / 2, b / 2, bits - 1);
    }
  }

  lemma {:induction false} BitXorBound(a: nat, b: nat, bits: nat)
    ensures BitXor(a, b, bits) < Pow2(bits)
  {
    if bits > 0 {
      BitXorBound(a / 2, b / 2, bits - 1);
    }
  }

  lemma BitXorHalves(a: nat, b: nat, bits: nat)
    requires bits > 0
    ensures BitXor(a, b, bits) % 2 == (if a % 2 != b % 2 then 1 else 0)
    ensures BitXor(a, b, bits) / 2 == BitXor(a / 2, b / 2, bits - 1)
  {
    LowBit(if a % 2 != b % 2 then 1 else 0, BitXor(a / 2, b / 2, bits - 1));
  }

  /** Exclusive or with the same value twice changes nothing. */
  lemma {:induction false} BitXorTwice(a: nat, b: nat, bits: nat)
    requires a < Pow2(bits)
    ensures BitXor(BitXor(a, b, bits), b, bits) == a
  {
    if bits > 0 {
      var x := BitXor(a, b, bits);
      BitXorHalves(a, b, bits);
      BitXorHalves(x, b, bits);
      BitXorTwice(a / 2, b / 2, bits - 1);
    }
  }

  lemma {:induction false} BitXorZero(a: nat, bits: nat)
    requires a < Pow2(bits)
    ensures BitXor(0, a, bits) == a
  {
    if bits > 0 {
      BitXorZero(a / 2, bits - 1);
    }
  }

  /** Bit `i` of a number. */
  function Bit(a: nat, i: nat): nat
  {
    ShiftRight(a, i) % 2
  }

  /** Both operations work bit by bit. */
  lemma {:induction false} BitwiseAt(a: nat, b: nat, bits: nat, i: nat)
    requires i < bits
    ensures Bit(BitOr(a, b, bits), i) == if Bit(a, i) == 1 || Bit(b, i) == 1 then 1 else 0
    ensures Bit(BitXor(a, b, bits), i) == if Bit(a, i) == Bit(b, i) then 0 else 1
  {
    BitXorHalves(a, b, bits);
    BitOrHalves(a, b, bits);
    if i > 0 {
      BitwiseAt(a / 2, b / 2, bits - 1, i - 1);
    }
  }

  lemma BitOrHalves(a: nat, b: nat, bits: nat)
    requires bits > 0
    ensures BitOr(a, b, bits) % 2 == (if a % 2 == 1 || b % 2 == 1 then 1 else 0)
    ensures BitOr(a, b, bits) / 2 == BitOr(a / 2, b / 2, bits - 1)
  {
    LowBit(if a % 2 == 1 || b % 2 == 1 then 1 else 0, BitOr(a / 2, b / 2, bits - 1));
  }

  lemma LowBit(bit: nat, high: nat)
    requires bit <= 1
    ensures (bit + 2 * high) % 2 == bit && (bit + 2 * high) / 2 == high
  {
  }

  lemma {:induction false} BitOrZero(a: nat, bits: nat)
    requires a < Pow2(bits)
    ensures BitOr(a, 0, bits) == a
  {
    if bits > 0 {
      BitOrZero(a / 2, bits - 1);
    }
  }

  /** Or-ing the `k` lowest ones keeps the bits above and fills those below. */
  lemma {:induction false} BitOrLowOnes(a: nat, k: nat, bits: nat, q: nat, r: nat)
    requires k <= bits && a < Pow2(bits) && a == ShiftLeft(q, k) + r && r < Pow2(k)
    ensures BitOr(a, Pow2(k) - 1, bits) == ShiftLeft(q, k) + Pow2(k) - 1
  {
    if k == 0 {
      BitOrZero(a, bits);
    } else {
      HalfSplit(a, ShiftLeft(q, k - 1), r);
      Pow2Positive(k - 1);
      HalfSplit(Pow2(k) - 1, Pow2(k - 1) - 1, 1);
      BitOrLowOnes(a / 2, k - 1, bits - 1, q, r / 2);
    }
  }

  lemma HalfSplit(a: nat, x: nat, r: nat)
    requires a == 2 * x + r
    ensures a / 2 == x + r / 2 && a % 2 == r % 2
  {
  }
}
