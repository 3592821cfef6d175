/** AddressRange and its iterator over hardware addresses of any size. */
module AddressRange {
  import opened Bytes
  import opened BigEndian
  import opened BufferArithmetic
  import opened Wrappers

  /** `HWAddress::operator<`: std::lexicographical_compare on the bytes. */
  predicate Less(a: seq<byte>, b: seq<byte>)
  {
    if a == [] || b == [] then a == [] && b != []
    else a[0] < b[0] || (a[0] == b[0] && Less(a[1..], b[1..]))
  }

  /** On addresses of one size, lexicographic order is numeric order. */
  lemma {:induction false} LessIsNumeric(a: seq<byte>, b: seq<byte>)
    requires |a| == |b|
    ensures Less(a, b) <==> ToNat(a) < ToNat(b)
  {
    if a != [] {
      LessIsNumeric(a[1..], b[1..]);
      HeadFirst(a);
      HeadFirst(b);
      ToNatBound(a[1..]);
      ToNatBound(b[1..]);
      Pow256IsPow2(|a| - 1);
      if a[0] < b[0] {
        ShiftLeftOrder(a[0], b[0], 8 * (|a| - 1));
      } else if b[0] < a[0] {
        ShiftLeftOrder(b[0], a[0], 8 * (|a| - 1));
      }
    }
  }

  lemma HeadFirst(a: seq<byte>)
    requires a != []
    ensures ToNat(a) == ShiftLeft(a[0], 8 * (|a| - 1)) + ToNat(a[1..])
  {
    var head := [a[0]];
    assert a == head + a[1..];
    ToNatConcat(head, a[1..]);
    assert head[..0] == [] && ToNat(head) == a[0];
  }

  datatype RangeError = InvalidRange | PrefixTooLong

  datatype Range = Range(first: seq<byte>, last: seq<byte>, onlyHosts: bool)

  /** A range of addresses of one non-zero size, as the constructor lets it be. */
  predicate Constructible(r: Range)
  {
    |r.first| == |r.last| > 0 && !Less(r.last, r.first)
  }

  /** The constructor. */
  function MakeRange(first: seq<byte>, last: seq<byte>, onlyHosts: bool): Result<Range, RangeError>
  {
    if Less(last, first) then Err(InvalidRange) else Ok(Range(first, last, onlyHosts))
  }

  /** Addresses of one size make a range exactly when the last is not smaller than the first; else the constructor raises. */
  lemma MakeRangeIff(first: seq<byte>, last: seq<byte>, onlyHosts: bool)
    requires |first| == |last| > 0
    ensures MakeRange(first, last, onlyHosts) ==
      if ToNat(first) <= ToNat(last) then Ok(Range(first, last, onlyHosts)) else Err(InvalidRange)
    ensures MakeRange(first, last, onlyHosts).Ok? ==> Constructible(MakeRange(first, last, onlyHosts).value)
  {
    LessIsNumeric(last, first);
  }

  predicate Contains(r: Range, addr: seq<byte>)
  {
    (Less(r.first, addr) && Less(addr, r.last)) || addr == r.first || addr == r.last
  }

  lemma ConstructibleIsNumeric(r: Range)
    requires |r.first| == |r.last| > 0
    ensures Constructible(r) <==> ToNat(r.first) <= ToNat(r.last)
  {
    LessIsNumeric(r.last, r.first);
  }

  lemma ContainsIsNumeric(r: Range, addr: seq<byte>)
    requires Constructible(r) && |addr| == |r.first|
    ensures Contains(r, addr) <==> ToNat(r.first) <= ToNat(addr) <= ToNat(r.last)
  {
    ConstructibleIsNumeric(r);
    LessIsNumeric(r.first, addr);
    LessIsNumeric(addr, r.last);
    if ToNat(addr) == ToNat(r.first) {
      ToNatInjective(addr, r.first);
    }
    if ToNat(addr) == ToNat(r.last) {
      ToNatInjective(addr, r.last);
    }
  }

  // -------------------------------------------------------------------------
  // Iteration
  // -------------------------------------------------------------------------

  /** AddressRangeIterator. */
  class Iterator {
    const addr: array<byte>
    var reachedEnd: bool

    constructor (address: seq<byte>)
      ensures fresh(addr) && addr[..] == address && !reachedEnd
    {
      addr := new byte[|address|](i requires 0 <= i < |address| => address[i]);
      reachedEnd := false;
    }

    /** The end iterator of a range that ends at `address`. */
    constructor AtEnd(address: seq<byte>)
      ensures fresh(addr) && addr.Length == |address|
      ensures reachedEnd <==> ToNat(address) == Pow256(|address|) - 1
      ensures ToNat(addr[..]) == if reachedEnd then 0 else ToNat(address) + 1
    {
      addr := new byte[|address|](i requires 0 <= i < |address| => address[i]);
      new;
      assert addr[..] == address;
      reachedEnd := IncrementBuffer(addr);
    }

    predicate Equals(rhs: Iterator)
      reads this, addr, rhs, rhs.addr
    {
      reachedEnd == rhs.reachedEnd && addr[..] == rhs.addr[..]
    }

    /** `operator++` */
    method Advance()
      modifies this, addr
      ensures reachedEnd <==> ToNat(old(addr[..])) == Pow256(addr.Length) - 1
      ensures ToNat(addr[..]) == if reachedEnd then 0 else ToNat(old(addr[..])) + 1
    {
      reachedEnd := IncrementBuffer(addr);
    }
  }

  /** The value of `v` after one trip round the address space. */
  function Reduce(v: nat, size: nat): nat
  {
    if v >= size then v - size else v
  }

  /** Where iteration starts. */
  function FirstVisited(r: Range): nat
  {
    if r.onlyHosts then Reduce(ToNat(r.first) + 1, Pow256(|r.first|)) else ToNat(r.first)
  }

  /** How many addresses iteration visits. */
  function VisitCount(r: Range): int
  {
    var span := ToNat(r.last) - ToNat(r.first);
    if !r.onlyHosts then span + 1 else if span == 0 then Pow256(|r.first|) - 1 else span - 1
  }

  /** The address visited after `k` steps. */
  function Visited(r: Range, k: nat): seq<byte>
  {
    FromNat(Reduce(FirstVisited(r) + k, Pow256(|r.first|)), |r.first|)
  }

  method Begin(r: Range) returns (it: Iterator)
    requires Constructible(r)
    ensures fresh(it) && fresh(it.addr) && it.addr.Length == |r.first|
    ensures ToNat(it.addr[..]) == FirstVisited(r) && !it.reachedEnd
  {
    var addr := new byte[|r.first|](i requires 0 <= i < |r.first| => r.first[i]);
    assert addr[..] == r.first;
    ToNatBound(r.first);
    if r.onlyHosts {
      var _ := IncrementBuffer(addr);
    }
    it := new Iterator(addr[..]);
  }

  method End(r: Range) returns (it: Iterator)
    requires Constructible(r)
    ensures fresh(it) && fresh(it.addr) && it.addr.Length == |r.first|
    ensures ToNat(it.addr[..]) == if r.onlyHosts then ToNat(r.last) else Reduce(ToNat(r.last) + 1, Pow256(|r.first|))
    ensures it.reachedEnd <==> ToNat(it.addr[..]) == 0
  {
    var addr := new byte[|r.last|](i requires 0 <= i < |r.last| => r.last[i]);
    assert addr[..] == r.last;
    ToNatBound(r.last);
    if r.onlyHosts {
      var _ := DecrementBuffer(addr);
    }
    it := new Iterator.AtEnd(addr[..]);
  }

  /** An iterator that holds value `v` and flag `reachedEnd` after `k` steps. */
  predicate At(r: Range, k: nat, v: nat, reachedEnd: bool)
  {
    v == Reduce(FirstVisited(r) + k, Pow256(|r.first|)) && (reachedEnd <==> k > 0 && v == 0)
  }

  /** The end iterator. */
  predicate IsEnd(r: Range, v: nat, reachedEnd: bool)
  {
    && v == (if r.onlyHosts then ToNat(r.last) else Reduce(ToNat(r.last) + 1, Pow256(|r.first|)))
    && (reachedEnd <==> v == 0)
  }

  lemma AtAdvance(r: Range, k: nat, v: nat, reachedEnd: bool, v': nat, reachedEnd': bool)
    requires Constructible(r) && k < VisitCount(r) && At(r, k, v, reachedEnd)
    requires reachedEnd' <==> v == Pow256(|r.first|) - 1
    requires v' == if reachedEnd' then 0 else v + 1
    ensures At(r, k + 1, v', reachedEnd')
  {
    CountFits(r);
  }

  /** The step at which an iteration meets the end iterator: only the last. */
  lemma MeetsEndIff(r: Range, k: nat, v: nat, reachedEnd: bool, end: nat, endReached: bool)
    requires Constructible(r) && k <= VisitCount(r) && At(r, k, v, reachedEnd) && IsEnd(r, end, endReached)
    ensures v == end && reachedEnd == endReached <==> k == VisitCount(r)
  {
    ConstructibleIsNumeric(r);
    ToNatBound(r.first);
    ToNatBound(r.last);
    assert Pow256(|r.first|) == 256 * Pow256(|r.first| - 1);
  }

  /** Iterating from `begin()` to `end()` terminates and visits exactly the addresses of `Visited`, in order. */
  method Iterate(r: Range) returns (visited: seq<seq<byte>>)
    requires Constructible(r)
    ensures |visited| == VisitCount(r)
    ensures forall k :: 0 <= k < |visited| ==> visited[k] == Visited(r, k)
  {
    var it := Begin(r);
    var end := End(r);
    visited := [];
    CountFits(r);
    while !it.Equals(end)
      invariant fresh(it) && fresh(it.addr) && it != end && it.addr != end.addr
      invariant it.addr.Length == end.addr.Length == |r.first|
      invariant IsEnd(r, ToNat(end.addr[..]), end.reachedEnd)
      invariant |visited| <= VisitCount(r) && At(r, |visited|, ToNat(it.addr[..]), it.reachedEnd)
      invariant forall k :: 0 <= k < |visited| ==> visited[k] == Visited(r, k)
      decreases VisitCount(r) - |visited|
    {
      EqualsAtEnd(r, it, end, |visited|);
      var address := Visit(r, it, |visited|);
      visited := visited + [address];
    }
    EqualsAtEnd(r, it, end, |visited|);
  }

  lemma EqualsAtEnd(r: Range, it: Iterator, end: Iterator, k: nat)
    requires Constructible(r) && k <= VisitCount(r) && it.addr.Length == end.addr.Length
    requires At(r, k, ToNat(it.addr[..]), it.reachedEnd) && IsEnd(r, ToNat(end.addr[..]), end.reachedEnd)
    ensures it.Equals(end) <==> k == VisitCount(r)
  {
    EqualsIsNumeric(it, end);
    MeetsEndIff(r, k, ToNat(it.addr[..]), it.reachedEnd, ToNat(end.addr[..]), end.reachedEnd);
  }

  /** One round of the loop: read the address, move on. */
  method Visit(r: Range, it: Iterator, ghost k: nat) returns (address: seq<byte>)
    requires Constructible(r) && k < VisitCount(r) && it.addr.Length == |r.first|
    requires At(r, k, ToNat(it.addr[..]), it.reachedEnd)
    modifies it, it.addr
    ensures address == Visited(r, k) && At(r, k + 1, ToNat(it.addr[..]), it.reachedEnd)
  {
    ghost var v, flag := ToNat(it.addr[..]), it.reachedEnd;
    address := it.addr[..];
    FromToNat(address);
    it.Advance();
    AtAdvance(r, k, v, flag, ToNat(it.addr[..]), it.reachedEnd);
  }

  lemma EqualsIsNumeric(a: Iterator, b: Iterator)
    requires a.addr.Length == b.addr.Length
    ensures a.Equals(b) <==> a.reachedEnd == b.reachedEnd && ToNat(a.addr[..]) == ToNat(b.addr[..])
  {
    if ToNat(a.addr[..]) == ToNat(b.addr[..]) {
      ToNatInjective(a.addr[..], b.addr[..]);
    }
  }

  lemma CountFits(r: Range)
    requires Constructible(r)
    ensures 0 <= VisitCount(r) <= Pow256(|r.first|)
    ensures FirstVisited(r) < Pow256(|r.first|)
  {
    ConstructibleIsNumeric(r);
    ToNatBound(r.first);
    ToNatBound(r.last);
    assert Pow256(|r.first|) == 256 * Pow256(|r.first| - 1);
  }

  lemma VisitedValue(r: Range, k: nat)
    requires Constructible(r) && k < VisitCount(r)
    ensures |Visited(r, k)| == |r.first|
    ensures ToNat(Visited(r, k)) == Reduce(FirstVisited(r) + k, Pow256(|r.first|))
  {
    CountFits(r);
    ToFromNat(Reduce(FirstVisited(r) + k, Pow256(|r.first|)), |r.first|);
  }

  /** A plain range is visited from first to last, every address once, in increasing order, even when it ends at all-ones. */
  lemma PlainRangeExact(r: Range, x: seq<byte>)
    requires Constructible(r) && !r.onlyHosts && |x| == |r.first|
    ensures forall k :: 0 <= k < VisitCount(r) ==> ToNat(Visited(r, k)) == ToNat(r.first) + k
    ensures Contains(r, x) <==> exists k :: 0 <= k < VisitCount(r) && Visited(r, k) == x
  {
    ConstructibleIsNumeric(r);
    ToNatBound(r.last);
    VisitsInOrder(r, ToNat(r.first));
    ContainsIsNumeric(r, x);
    VisitsExactly(r, ToNat(r.first), x);
  }

  /** A hosts-only range with first < last is visited from first + 1 to last - 1. */
  lemma HostRangeExact(r: Range, x: seq<byte>)
    requires Constructible(r) && r.onlyHosts && r.first != r.last && |x| == |r.first|
    ensures forall k :: 0 <= k < VisitCount(r) ==> ToNat(Visited(r, k)) == ToNat(r.first) + 1 + k
    ensures (Less(r.first, x) && Less(x, r.last)) <==> exists k :: 0 <= k < VisitCount(r) && Visited(r, k) == x
  {
    DistinctEnds(r);
    VisitsInOrder(r, ToNat(r.first) + 1);
    LessIsNumeric(r.first, x);
    LessIsNumeric(x, r.last);
    VisitsExactly(r, ToNat(r.first) + 1, x);
  }

  lemma DistinctEnds(r: Range)
    requires Constructible(r) && r.first != r.last
    ensures ToNat(r.first) < ToNat(r.last) < Pow256(|r.first|)
  {
    ConstructibleIsNumeric(r);
    ToNatBound(r.last);
    if ToNat(r.first) == ToNat(r.last) {
      ToNatInjective(r.first, r.last);
    }
  }

  lemma VisitsInOrder(r: Range, start: nat)
    requires Constructible(r) && FirstVisited(r) == start && start + VisitCount(r) <= Pow256(|r.first|)
    ensures forall k :: 0 <= k < VisitCount(r) ==> ToNat(Visited(r, k)) == start + k
  {
    forall k | 0 <= k < VisitCount(r) ensures ToNat(Visited(r, k)) == start + k {
      VisitedValue(r, k);
    }
  }

  lemma VisitsExactly(r: Range, start: nat, x: seq<byte>)
    requires Constructible(r) && |x| == |r.first|
    requires forall k :: 0 <= k < VisitCount(r) ==> ToNat(Visited(r, k)) == start + k
    ensures start <= ToNat(x) < start + VisitCount(r) <==> exists k :: 0 <= k < VisitCount(r) && Visited(r, k) == x
  {
    if start <= ToNat(x) < start + VisitCount(r) {
      var k := ToNat(x) - start;
      VisitedValue(r, k);
      ToNatInjective(Visited(r, k), x);
    }
  }

  /** Hosts-only iteration over a single address, which the source calls undefined, visits every other address once. */
  lemma SingleHostRangeVisitsTheRest(r: Range, x: seq<byte>)
    requires Constructible(r) && r.onlyHosts && r.first == r.last && |x| == |r.first|
    ensures VisitCount(r) == Pow256(|r.first|) - 1
    ensures forall j, k :: 0 <= j < k < VisitCount(r) ==> Visited(r, j) != Visited(r, k)
    ensures x != r.first <==> exists k :: 0 <= k < VisitCount(r) && Visited(r, k) == x
  {
    CountFits(r);
    ToNatBound(x);
    ToNatBound(r.first);
    var size, first, v := Pow256(|r.first|), ToNat(r.first), ToNat(x);
    forall k | 0 <= k < VisitCount(r) ensures ToNat(Visited(r, k)) == Reduce(FirstVisited(r) + k, size) {
      VisitedValue(r, k);
    }
    if x != r.first {
      if v == first { ToNatInjective(x, r.first); }
      var k := if v > first then v - first - 1 else v + size - first - 1;
      VisitedValue(r, k);
      ToNatInjective(Visited(r, k), x);
    }
  }

  // -------------------------------------------------------------------------
  // is_iterable
  // -------------------------------------------------------------------------

  /** What `is_iterable` answers. */
  predicate Iterable(r: Range)
  {
    !r.onlyHosts || ToNat(r.first) + 3 <= ToNat(r.last) || ToNat(r.first) == Pow256(|r.first|) - 3
  }

  /** `is_iterable` */
  method IsIterable(r: Range) returns (iterable: bool)
    requires Constructible(r)
    ensures iterable <==> Iterable(r)
  {
    if !r.onlyHosts {
      return true;
    }
    ghost var first, size := ToNat(r.first), Pow256(|r.first|);
    var addr := new byte[|r.first|](i requires 0 <= i < |r.first| => r.first[i]);
    assert addr[..] == r.first;
    ToNatBound(r.first);
    ToNatBound(r.last);
    assert size == 256 * Pow256(|r.first| - 1);
    for i := 0 to 3
      invariant ToNat(addr[..]) == Reduce(first + i, size)
      invariant i <= 2 ==> first + i < size
      invariant i == 3 ==> first + 2 < size
    {
      var wrapped := IncrementBuffer(addr);
      if wrapped && i != 2 {
        return false;
      }
    }
    LessIsNumeric(addr[..], r.last);
    if ToNat(addr[..]) == ToNat(r.last) {
      ToNatInjective(addr[..], r.last);
    }
    return Less(addr[..], r.last) || addr[..] == r.last;
  }

  /**
   A plain range is always iterable: iteration visits at least one address, and only contained ones. A hosts-only range
   is iterable if and only if it holds at least four addresses, except that from the all-ones value minus two every
   range is.
   */
  lemma IterableLaw(r: Range)
    requires Constructible(r)
    ensures !r.onlyHosts ==>
      Iterable(r) && VisitCount(r) >= 1 && forall k :: 0 <= k < VisitCount(r) ==> Contains(r, Visited(r, k))
    ensures r.onlyHosts ==>
      (Iterable(r) <==> ToNat(r.last) - ToNat(r.first) + 1 >= 4 || ToNat(r.first) + 3 == Pow256(|r.first|))
  {
    ConstructibleIsNumeric(r);
    if !r.onlyHosts {
      forall k | 0 <= k < VisitCount(r) ensures Contains(r, Visited(r, k)) {
        VisitedValue(r, k);
        PlainRangeExact(r, Visited(r, k));
      }
    }
  }

  /** It means "at least four addresses" exactly when first is not the all-ones value minus two. */
  lemma IterableMeansFourIff(first: seq<byte>)
    requires first != []
    ensures ToNat(first) != Pow256(|first|) - 3 <==>
      forall last {:trigger Iterable(Range(first, last, true))} ::
        Constructible(Range(first, last, true)) ==>
          (Iterable(Range(first, last, true)) <==> ToNat(last) - ToNat(first) + 1 >= 4)
  {
    if ToNat(first) == Pow256(|first|) - 3 {
      var r := Range(first, first, true);
      ConstructibleIsNumeric(r);
      assert Iterable(r) && Constructible(r);
    }
  }

  /** And then iteration yields last - first - 1 hosts, at least two. */
  lemma IterableHostCount(r: Range)
    requires Constructible(r) && r.onlyHosts && Iterable(r) && ToNat(r.first) != Pow256(|r.first|) - 3
    ensures VisitCount(r) == ToNat(r.last) - ToNat(r.first) - 1 >= 2
  {
  }
}
