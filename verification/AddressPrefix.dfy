/** `operator/` on hardware addresses: the range that a base address and a prefix length stand for. */
module AddressPrefix {
  import opened Bytes
  import opened BigEndian
  import opened BufferArithmetic
  import opened Wrappers
  import opened AddressRange

  /** The number of addresses that share their `prefix` highest of 48 bits. */
  function BlockSize(prefix: nat): nat
    requires prefix <= 48
  {
    Pow2(48 - prefix)
  }

  /** The value of the `prefix` highest bits. */
  function TopBits(addr: seq<byte>, prefix: nat): nat
    requires prefix <= 48
  {
    ShiftRight(ToNat(addr), 48 - prefix)
  }

  /** The last address with the top bits of `addr`. */
  function BlockEnd(addr: seq<byte>, prefix: nat): int
    requires prefix <= 48
  {
    ShiftLeft(TopBits(addr, prefix), 48 - prefix) + BlockSize(prefix) - 1
  }

  /** A negative prefix length stands for none. */
  function Bits(prefix: int): nat
  {
    if prefix < 0 then 0 else prefix
  }

  /** `addr / prefix`: never the invalid-range error, whatever the base. */
  method PrefixRange(addr: seq<byte>, prefix: int) returns (r: Result<Range, RangeError>)
    requires |addr| == 6 && -24 < prefix
    ensures prefix > 48 ==> r == Err(PrefixTooLong)
    ensures prefix <= 48 ==> r.Ok? && r.value.first == addr && r.value.onlyHosts && |r.value.last| == 6
    ensures prefix <= 48 ==> Constructible(r.value) && ToNat(r.value.last) == BlockEnd(addr, Bits(prefix))
  {
    if prefix > 48 {
      return Err(PrefixTooLong);
    }
    var mask := BuildMask(prefix);
    r := FromMask(addr, mask);
    MaskedLast(addr, Bits(prefix));
  }

  /** The masked address ends the base's block. */
  lemma MaskedLast(addr: seq<byte>, prefix: nat)
    requires |addr| == 6 && prefix <= 48
    ensures var last := OrNots(addr, PrefixMask(WholeBytes(prefix), ZeroBits(prefix)));
      |last| == 6 && ToNat(last) == BlockEnd(addr, prefix) && !Less(last, addr)
  {
    var it, k := WholeBytes(prefix), ZeroBits(prefix);
    MaskedParts(addr, it, k, 8 * (5 - it));
    OrNotMiddle(addr[it], k);
    LastOfBlock(addr, OrNots(addr, PrefixMask(it, k)), it, k, 8 * (5 - it), OrNot(addr[it], MiddleMask(k)), prefix);
  }

  /** The number of bytes before the one in which the prefix ends. */
  function WholeBytes(prefix: nat): (it: nat)
    requires prefix <= 48
    ensures it <= 5 && 8 * it <= prefix <= 8 * it + 8
  {
    if prefix == 0 then 0 else (prefix - 1) / 8
  }

  /** The number of zero bits in that byte. */
  function ZeroBits(prefix: nat): (k: nat)
    requires prefix <= 48
    ensures k <= 8 && prefix + k + 8 * (5 - WholeBytes(prefix)) == 48
  {
    8 * WholeBytes(prefix) + 8 - prefix
  }

  /** Its loop: whole 0xff bytes while more than eight bits are left, then the rest of the bits. */
  method BuildMask(prefix: int) returns (bytes: seq<byte>)
    requires -24 < prefix <= 48
    ensures bytes == PrefixMask(WholeBytes(Bits(prefix)), ZeroBits(Bits(prefix)))
  {
    var lastAddr := new byte[6](_ => 0);
    var i, mask := 0, prefix;
    while mask > 8
      invariant 0 <= i <= 5 && mask + 8 * i == prefix && (i > 0 ==> mask > 0)
      invariant lastAddr[..] == Fill(255, i) + Fill(0, 6 - i)
    {
      lastAddr[i] := 0xff;
      FillNext(i);
      i := i + 1;
      mask := mask - 8;
    }
    lastAddr[i] := ShiftLeft(0xff, 8 - mask) % 256;
    LastMaskByte(prefix, i, mask);
    return lastAddr[..];
  }

  lemma FillNext(i: nat)
    requires i < 6
    ensures (Fill(255, i) + Fill(0, 6 - i))[i := 0xff] == Fill(255, i + 1) + Fill(0, 6 - (i + 1))
  {
  }

  /** What the loop leaves for the last byte. */
  lemma LastMaskByte(prefix: int, i: nat, mask: int)
    requires -24 < prefix <= 48 && mask + 8 * i == prefix && i <= 5 && mask <= 8 && (i > 0 ==> mask > 0)
    ensures (Fill(255, i) + Fill(0, 6 - i))[i := ShiftLeft(0xff, 8 - mask) % 256]
         == PrefixMask(WholeBytes(Bits(prefix)), ZeroBits(Bits(prefix)))
  {
    assert WholeBytes(Bits(prefix)) == i && ZeroBits(Bits(prefix)) == 8 - Bits(mask);
    CutShift(mask);
    LastByteSet(i, MiddleMask(8 - Bits(mask)));
  }

  lemma LastByteSet(i: nat, b: byte)
    requires i < 6
    ensures (Fill(255, i) + Fill(0, 6 - i))[i := b] == Fill(255, i) + [b] + Fill(0, 5 - i)
  {
  }

  lemma CutShift(mask: int)
    requires mask <= 8
    ensures ShiftLeft(0xff, 8 - mask) % 256 == MiddleMask(8 - Bits(mask))
  {
    ShiftedMask(8 - Bits(mask));
    if mask < 0 {
      ShiftedOut(8 - mask);
      ShiftLeftEight(1);
    }
  }

  /** Shifted by eight bits or more, nothing is left in the byte. */
  lemma ShiftedOut(k: nat)
    requires k >= 8
    ensures ShiftLeft(0xff, k) % 256 == 0
  {
    ShiftLeftTwice(0xff, k - 8, 8);
    ShiftLeftEight(ShiftLeft(0xff, k - 8));
  }

  /** `from_mask` */
  method FromMask(first: seq<byte>, mask: seq<byte>) returns (r: Result<Range, RangeError>)
    requires |first| == |mask|
    ensures r == MakeRange(first, OrNots(first, mask), true)
  {
    var addr := new byte[|first|](i requires 0 <= i < |first| => first[i]);
    assert addr[..] == first;
    LastAddressFromMask(addr, mask);
    return MakeRange(first, addr[..], true);
  }

  /** `0xff << k` cut to a byte. */
  lemma ShiftedMask(k: nat)
    requires k <= 8
    ensures 1 <= Pow2(k) <= 256 && ShiftLeft(0xff, k) % 256 == 256 - Pow2(k)
  {
    ShiftedOnes(k);
    Pow2AtMost256(k);
    CutToByte(ShiftLeft(0xff, k), Pow2(k));
  }

  lemma Pow2AtMost256(k: nat)
    requires k <= 8
    ensures 1 <= Pow2(k) <= 256
  {
    Pow2Positive(k);
    ShiftLeftEight(1);
    ShiftLeftTwice(1, k, 8 - k);
    ShiftLeftGrows(Pow2(k), 8 - k);
  }

  lemma CutToByte(x: nat, p: nat)
    requires x + p == 256 * p && 1 <= p <= 256
    ensures x % 256 == 256 - p
  {
    assert x == 256 * (p - 1) + (256 - p);
  }

  lemma ShiftedOnes(k: nat)
    ensures ShiftLeft(0xff, k) + Pow2(k) == 256 * Pow2(k)
  {
    ShiftLeftAdd(0xff, 1, k);
    ShiftLeftEight(1);
    ShiftLeftTwice(1, 8, k);
    ShiftLeftTwice(1, k, 8);
    ShiftLeftEight(Pow2(k));
  }

  lemma {:induction false} ShiftLeftGrows(v: nat, k: nat)
    ensures v <= ShiftLeft(v, k)
  {
    if k > 0 {
      ShiftLeftGrows(v, k - 1);
    }
  }

  lemma OrNotEdges(a: byte)
    ensures OrNot(a, 255) == a && OrNot(a, 0) == 255
  {
    ShiftLeftEight(1);
    BitOrZero(a, 8);
    BitOrLowOnes(a, 8, 8, 0, a);
  }

  /** The mask byte whose `k` low bits are zero. */
  function MiddleMask(k: nat): byte
    requires k <= 8
  {
    ShiftedMask(k);
    256 - Pow2(k)
  }

  /** The byte in which the prefix ends: its low `k` bits are filled. */
  lemma OrNotMiddle(a: byte, k: nat)
    requires k <= 8
    ensures OrNot(a, MiddleMask(k)) == ShiftLeft(ShiftRight(a, k), k) + Pow2(k) - 1
  {
    ShiftRightBounds(a, k);
    ShiftLeftEight(1);
    BitOrLowOnes(a, k, 8, ShiftRight(a, k), a - ShiftLeft(ShiftRight(a, k), k));
  }

  function PrefixMask(it: nat, k: nat): seq<byte>
    requires it <= 5 && k <= 8
  {
    Fill(255, it) + [MiddleMask(k)] + Fill(0, 5 - it)
  }

  /** As a number of 48 bits the mask is `prefix` ones followed by zeros. */
  lemma MaskValue(prefix: nat)
    requires prefix <= 48
    ensures ToNat(PrefixMask(WholeBytes(prefix), ZeroBits(prefix))) == Pow2(48) - Pow2(48 - prefix)
  {
    var it, k := WholeBytes(prefix), ZeroBits(prefix);
    ToNatConcat(Fill(255, it) + [MiddleMask(k)], Fill(0, 5 - it));
    ToNatZeros(5 - it);
    TopValue(it, k);
    Pow256IsPow2(it + 1);
    ShiftedTop(8 * (it + 1), k, 8 * (5 - it));
  }

  lemma TopValue(it: nat, k: nat)
    requires it <= 5 && k <= 8
    ensures ToNat(Fill(255, it) + [MiddleMask(k)]) == Pow256(it + 1) - Pow2(k)
  {
    LastByte(Fill(255, it), MiddleMask(k));
    ToNatOnes(it);
    ShiftedMask(k);
  }

  lemma ShiftedTop(m: nat, k: nat, n: nat)
    requires Pow2(m) >= Pow2(k)
    ensures ShiftLeft(Pow2(m) - Pow2(k), n) == Pow2(m + n) - Pow2(k + n)
  {
    ShiftLeftAdd(Pow2(m) - Pow2(k), Pow2(k), n);
    ShiftLeftTwice(1, m, n);
    ShiftLeftTwice(1, k, n);
  }

  /** Applying the mask keeps the first bytes, changes one and fills the rest. */
  lemma MaskedBytes(addr: seq<byte>, it: nat, k: nat)
    requires |addr| == 6 && it <= 5 && k <= 8
    ensures OrNots(addr, PrefixMask(it, k)) == addr[..it] + [OrNot(addr[it], MiddleMask(k))] + Fill(255, 5 - it)
  {
    forall a: byte ensures OrNot(a, 255) == a && OrNot(a, 0) == 255 {
      OrNotEdges(a);
    }
  }

  lemma LastByte(hi: seq<byte>, b: byte)
    ensures ToNat(hi + [b]) == 256 * ToNat(hi) + b
  {
    assert (hi + [b])[..|hi|] == hi;
  }

  /** The address, cut after the byte in which the prefix ends. */
  lemma AddressParts(addr: seq<byte>, it: nat, n: nat)
    requires |addr| == 6 && it <= 5 && n == 8 * (5 - it)
    ensures ToNat(addr) == ShiftLeft(256 * ToNat(addr[..it]) + addr[it], n) + ToNat(addr[it + 1..])
    ensures ToNat(addr[it + 1..]) < Pow2(n)
  {
    var top, low := addr[..it] + [addr[it]], addr[it + 1..];
    assert addr == top + low && |low| == 5 - it;
    LastByte(addr[..it], addr[it]);
    ToNatConcat(top, low);
    ToNatBound(low);
    Pow256IsPow2(|low|);
  }

  /** Its masked form, cut at the same place. */
  lemma MaskedParts(addr: seq<byte>, it: nat, k: nat, n: nat)
    requires |addr| == 6 && it <= 5 && k <= 8 && n == 8 * (5 - it)
    ensures ToNat(OrNots(addr, PrefixMask(it, k))) ==
              ShiftLeft(256 * ToNat(addr[..it]) + OrNot(addr[it], MiddleMask(k)), n) + Pow2(n) - 1
  {
    var mid := OrNot(addr[it], MiddleMask(k));
    var top, low := addr[..it] + [mid], Fill(255, 5 - it);
    MaskedBytes(addr, it, k);
    LastByte(addr[..it], mid);
    ToNatConcat(top, low);
    ToNatOnes(5 - it);
    Pow256IsPow2(5 - it);
  }

  /** The masked address, known by its value, is the last of the base's block. */
  lemma LastOfBlock(addr: seq<byte>, last: seq<byte>, it: nat, k: nat, n: nat, filled: byte, prefix: nat)
    requires |addr| == 6 == |last| && it <= 5 && k <= 8 && n == 8 * (5 - it) && prefix + k + n == 48
    requires filled == ShiftLeft(ShiftRight(addr[it], k), k) + Pow2(k) - 1
    requires ToNat(last) == ShiftLeft(256 * ToNat(addr[..it]) + filled, n) + Pow2(n) - 1
    ensures ToNat(last) == BlockEnd(addr, prefix) && !Less(last, addr)
  {
    AddressParts(addr, it, n);
    ShiftRightBounds(addr[it], k);
    BlockEnds(ToNat(addr[..it]), ShiftRight(addr[it], k), k, n, 48 - prefix, ToNat(addr[it + 1..]), addr[it], filled,
              ToNat(addr), ToNat(last));
    ShiftRightBounds(ToNat(addr), 48 - prefix);
    LessIsNumeric(last, addr);
  }

  /** If `u` has the `8 - k` top bits `q`, then filling `u` and the `n` bits below it with ones
      gives the end of the block of 2^(k+n) numbers in which 256 h + u and those bits lie. */
  lemma BlockEnds(h: nat, q: nat, k: nat, n: nat, kn: nat, low: nat, u: nat, filled: nat, v: nat, end: int)
    requires k <= 8 && kn == k + n && low < Pow2(n) && ShiftLeft(q, k) <= u < ShiftLeft(q, k) + Pow2(k)
    requires v == ShiftLeft(256 * h + u, n) + low
    requires filled == ShiftLeft(q, k) + Pow2(k) - 1 && end == ShiftLeft(256 * h + filled, n) + Pow2(n) - 1
    ensures end == ShiftLeft(ShiftRight(v, kn), kn) + Pow2(kn) - 1
  {
    var top := ShiftLeft(h, 8 - k) + q;
    BlockBase(h, q, k);
    InBlock(ShiftLeft(top, k), u - ShiftLeft(q, k), k, n, low, v);
    BlockFilled(ShiftLeft(top, k), k, n, end);
    ShiftLeftTwice(top, k, n);
    ShiftLeftTwice(1, k, n);
    ShiftRightIs(v, kn, top);
  }

  lemma InBlock(base: nat, t: nat, k: nat, n: nat, low: nat, v: nat)
    requires t < Pow2(k) && low < Pow2(n) && v == ShiftLeft(base + t, n) + low
    ensures ShiftLeft(base, n) <= v < ShiftLeft(base, n) + ShiftLeft(Pow2(k), n)
  {
    ShiftLeftAdd(base, t, n);
    ShiftLeftOrder(t, Pow2(k), n);
  }

  lemma BlockFilled(base: nat, k: nat, n: nat, end: int)
    requires Pow2(k) >= 1 && end == ShiftLeft(base + (Pow2(k) - 1), n) + Pow2(n) - 1
    ensures end == ShiftLeft(base, n) + ShiftLeft(Pow2(k), n) - 1
  {
    ShiftLeftAdd(base, Pow2(k) - 1, n);
    ShiftLeftAdd(Pow2(k) - 1, 1, n);
  }

  lemma BlockBase(h: nat, q: nat, k: nat)
    requires k <= 8
    ensures ShiftLeft(ShiftLeft(h, 8 - k) + q, k) == 256 * h + ShiftLeft(q, k)
  {
    ShiftLeftAdd(ShiftLeft(h, 8 - k), q, k);
    ShiftLeftTwice(h, 8 - k, k);
    ShiftLeftEight(h);
  }

  /** Membership is being no smaller than the base and agreeing with it on the top bits. */
  lemma PrefixMembers(r: Range, prefix: nat, x: seq<byte>)
    requires prefix <= 48 && Constructible(r) && |r.first| == 6 == |x|
    requires ToNat(r.last) == BlockEnd(r.first, prefix)
    ensures Contains(r, x) <==> ToNat(r.first) <= ToNat(x) && TopBits(x, prefix) == TopBits(r.first, prefix)
  {
    ContainsIsNumeric(r, x);
    ShiftRightBounds(ToNat(r.first), 48 - prefix);
    ShiftRightIs(ToNat(x), 48 - prefix, TopBits(r.first, prefix));
  }

  /** A base without host bits. */
  predicate Aligned(addr: seq<byte>, prefix: nat)
    requires prefix <= 48
  {
    ToNat(addr) == ShiftLeft(TopBits(addr, prefix), 48 - prefix)
  }

  /** Then membership is agreement on the top bits alone, and the range holds 2^(48-p) addresses. */
  lemma AlignedPrefixMembers(r: Range, prefix: nat, x: seq<byte>)
    requires prefix <= 48 && Constructible(r) && |r.first| == 6 == |x|
    requires ToNat(r.last) == BlockEnd(r.first, prefix) && Aligned(r.first, prefix)
    ensures Contains(r, x) <==> TopBits(x, prefix) == TopBits(r.first, prefix)
    ensures ToNat(r.last) - ToNat(r.first) + 1 == BlockSize(prefix)
  {
    PrefixMembers(r, prefix, x);
    ShiftRightBounds(ToNat(x), 48 - prefix);
  }

  /** An aligned prefix range is iterable exactly up to /46, save the one-address range at the all-ones value minus two;
      up to /46 iteration visits all its addresses but the first and the last. */
  lemma PrefixIterableIff(r: Range, prefix: nat)
    requires prefix <= 48 && Constructible(r) && |r.first| == 6 && r.onlyHosts
    requires ToNat(r.last) == BlockEnd(r.first, prefix) && Aligned(r.first, prefix)
    ensures Iterable(r) <==> prefix <= 46 || (prefix == 48 && ToNat(r.first) == Pow256(6) - 3)
    ensures prefix <= 46 ==> VisitCount(r) == BlockSize(prefix) - 2
  {
    assert ToNat(r.last) - ToNat(r.first) + 1 == BlockSize(prefix);
    assert Pow256(6) == 256 * Pow256(5);
    if prefix <= 46 {
      ShiftLeftTwice(1, 2, 46 - prefix);
      assert ShiftLeft(1, 2) == 4;
      ShiftLeftGrows(4, 46 - prefix);
    } else if prefix == 47 {
      assert ToNat(r.first) == 2 * ShiftLeft(TopBits(r.first, prefix), 0);
      assert BlockSize(47) == 2;
    } else {
      assert BlockSize(48) == 1;
    }
  }
}
