/** The in-place byte arithmetic of internals.h. */
module BufferArithmetic {
  import opened Bytes
  import opened BigEndian

  /** Counting up carries over a run of 0xff bytes. */
  lemma CarryOver(prefix: seq<byte>, c: byte, n: nat)
    requires c < 255
    ensures ToNat(prefix + [c + 1] + Fill(0, n)) == ToNat(prefix + [c] + Fill(255, n)) + 1
  {
    ToNatConcat(prefix + [c + 1], Fill(0, n));
    ToNatConcat(prefix + [c], Fill(255, n));
    ToNatZeros(n);
    ToNatOnes(n);
    assert (prefix + [c + 1])[..|prefix|] == prefix && (prefix + [c])[..|prefix|] == prefix;
    ShiftLeftAdd(256 * ToNat(prefix) + c, 1, 8 * n);
    Pow256IsPow2(n);
  }

  /** `increment_buffer`: plus one modulo 256^n, true exactly on wrap-around. */
  method IncrementBuffer(addr: array<byte>) returns (wrapped: bool)
    modifies addr
    ensures wrapped <==> ToNat(old(addr[..])) == Pow256(addr.Length) - 1
    ensures ToNat(addr[..]) == if wrapped then 0 else ToNat(old(addr[..])) + 1
  {
    ghost var was := addr[..];
    var it := addr.Length - 1;
    while it >= 0 && addr[it] == 0xff
      invariant -1 <= it < addr.Length
      invariant addr[..it + 1] == was[..it + 1]
      invariant was[it + 1..] == Fill(255, addr.Length - 1 - it)
      invariant addr[it + 1..] == Fill(0, addr.Length - 1 - it)
    {
      addr[it] := 0;
      it := it - 1;
    }
    if it < 0 {
      assert was == Fill(255, addr.Length) && addr[..] == Fill(0, addr.Length);
      ToNatOnes(addr.Length);
      ToNatZeros(addr.Length);
      return true;
    }
    ghost var prefix, n := was[..it], addr.Length - 1 - it;
    addr[it] := addr[it] + 1;
    assert was == prefix + [was[it]] + Fill(255, n);
    assert addr[..] == prefix + [was[it] + 1] + Fill(0, n);
    CarryOver(prefix, was[it], n);
    ToNatBound(addr[..]);
    return false;
  }

  /** `decrement_buffer`: minus one modulo 256^n, true exactly on wrap-around. */
  method DecrementBuffer(addr: array<byte>) returns (wrapped: bool)
    modifies addr
    ensures wrapped <==> ToNat(old(addr[..])) == 0
    ensures ToNat(addr[..]) == if wrapped then Pow256(addr.Length) - 1 else ToNat(old(addr[..])) - 1
  {
    ghost var was := addr[..];
    var it := addr.Length - 1;
    while it >= 0 && addr[it] == 0
      invariant -1 <= it < addr.Length
      invariant addr[..it + 1] == was[..it + 1]
      invariant was[it + 1..] == Fill(0, addr.Length - 1 - it)
      invariant addr[it + 1..] == Fill(255, addr.Length - 1 - it)
    {
      addr[it] := 0xff;
      it := it - 1;
    }
    if it < 0 {
      assert was == Fill(0, addr.Length) && addr[..] == Fill(255, addr.Length);
      ToNatOnes(addr.Length);
      ToNatZeros(addr.Length);
      return true;
    }
    ghost var prefix, n := was[..it], addr.Length - 1 - it;
    addr[it] := addr[it] - 1;
    assert was == prefix + [was[it]] + Fill(0, n);
    assert addr[..] == prefix + [was[it] - 1] + Fill(255, n);
    CarryOver(prefix, was[it] - 1, n);
    return false;
  }

  /** Incrementing and then decrementing restores every address, and the other way round; both report the same wrap. */
  method IncrementThenDecrement(addr: array<byte>) returns (up: bool, down: bool)
    modifies addr
    ensures addr[..] == old(addr[..]) && up == down
  {
    ghost var was := addr[..];
    up := IncrementBuffer(addr);
    ghost var mid := addr[..];
    down := DecrementBuffer(addr);
    ToNatInjective(addr[..], was);
  }

  method DecrementThenIncrement(addr: array<byte>) returns (down: bool, up: bool)
    modifies addr
    ensures addr[..] == old(addr[..]) && up == down
  {
    ghost var was := addr[..];
    ToNatBound(was);
    down := DecrementBuffer(addr);
    up := IncrementBuffer(addr);
    ToNatInjective(addr[..], was);
  }

  /** `a | ~m` on one byte. */
  function OrNot(a: byte, m: byte): (r: byte)
  {
    BitOrBound(a, 255 - m, 8);
    ShiftLeftEight(1);
    BitOr(a, 255 - m, 8)
  }

  /** A bit of the result is set exactly when it is set in the address or clear in the mask. */
  lemma OrNotAt(a: byte, m: byte, i: nat)
    requires i < 8
    ensures Bit(OrNot(a, m), i) == 1 <==> Bit(a, i) == 1 || Bit(m, i) == 0
  {
    BitwiseAt(a, 255 - m, 8, i);
    ComplementBit(m, 8, i);
    ShiftLeftEight(1);
  }

  lemma {:induction false} ComplementBit(m: nat, bits: nat, i: nat)
    requires m < Pow2(bits) && i < bits
    ensures Bit(Pow2(bits) - 1 - m, i) == 1 - Bit(m, i)
  {
    var c := Pow2(bits) - 1 - m;
    var half := Pow2(bits - 1);
    assert c == 2 * (half - 1 - m / 2) + (1 - m % 2);
    if i > 0 {
      ComplementBit(m / 2, bits - 1, i - 1);
    }
  }

  function OrNots(addr: seq<byte>, mask: seq<byte>): seq<byte>
    requires |addr| == |mask|
  {
    seq(|addr|, i requires 0 <= i < |addr| => OrNot(addr[i], mask[i]))
  }

  /** `last_address_from_mask`, on the caller's copy of the address. */
  method LastAddressFromMask(addr: array<byte>, mask: seq<byte>)
    requires addr.Length == |mask|
    modifies addr
    ensures addr[..] == OrNots(old(addr[..]), mask)
  {
    for i := 0 to |mask|
      invariant forall k :: 0 <= k < i ==> addr[k] == OrNot(old(addr[k]), mask[k])
      invariant forall k :: i <= k < |mask| ==> addr[k] == old(addr[k])
    {
      addr[i] := OrNot(addr[i], mask[i]);
    }
  }
}
