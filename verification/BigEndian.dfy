/** Byte strings as big-endian numbers. */
module BigEndian {
  import opened Bytes

  function Pow256(n: nat): (r: nat)
    ensures r > 0
  {
    if n == 0 then 1 else 256 * Pow256(n - 1)
  }

  function ToNat(s: seq<byte>): nat
  {
    if s == [] then 0 else 256 * ToNat(s[..|s| - 1]) + s[|s| - 1]
  }

  function FromNat(v: nat, n: nat): (s: seq<byte>)
    ensures |s| == n
  {
    if n == 0 then [] else FromNat(v / 256, n - 1) + [v % 256]
  }

  lemma {:induction false} ToNatBound(s: seq<byte>)
    ensures ToNat(s) < Pow256(|s|)
  {
    if s != [] {
      ToNatBound(s[..|s| - 1]);
    }
  }

  lemma {:induction false} FromToNat(s: seq<byte>)
    ensures FromNat(ToNat(s), |s|) == s
  {
    if s != [] {
      FromToNat(s[..|s| - 1]);
      assert s == s[..|s| - 1] + [s[|s| - 1]];
    }
  }

  lemma {:induction false} ToFromNat(v: nat, n: nat)
    requires v < Pow256(n)
    ensures ToNat(FromNat(v, n)) == v
  {
    if n > 0 {
      ToFromNat(v / 256, n - 1);
      assert FromNat(v, n)[..n - 1] == FromNat(v / 256, n - 1);
    }
  }

  /** A byte string of known length is its value. */
  lemma ToNatInjective(a: seq<byte>, b: seq<byte>)
    requires |a| == |b| && ToNat(a) == ToNat(b)
    ensures a == b
  {
    FromToNat(a);
    FromToNat(b);
  }

  lemma {:induction false} ToNatConcat(a: seq<byte>, b: seq<byte>)
    ensures ToNat(a + b) == ShiftLeft(ToNat(a), 8 * |b|) + ToNat(b)
  {
    if b == [] {
      assert a + b == a;
    } else {
      var b' := b[..|b| - 1];
      assert (a + b)[..|a + b| - 1] == a + b';
      ToNatConcat(a, b');
      ShiftLeftTwice(ToNat(a), 8 * |b'|, 8);
      ShiftLeftEight(ShiftLeft(ToNat(a), 8 * |b'|));
    }
  }

  lemma {:induction false} ToNatZeros(n: nat)
    ensures ToNat(Fill(0, n)) == 0
  {
    if n > 0 {
      assert Fill(0, n)[..n - 1] == Fill(0, n - 1);
      ToNatZeros(n - 1);
    }
  }

  lemma {:induction false} ToNatOnes(n: nat)
    ensures ToNat(Fill(255, n)) == Pow256(n) - 1
  {
    if n > 0 {
      assert Fill(255, n)[..n - 1] == Fill(255, n - 1);
      ToNatOnes(n - 1);
    }
  }

  lemma {:induction false} Pow256IsPow2(n: nat)
    ensures Pow256(n) == Pow2(8 * n)
  {
    if n > 0 {
      Pow256IsPow2(n - 1);
      ShiftLeftTwice(1, 8 * (n - 1), 8);
      ShiftLeftEight(Pow2(8 * (n - 1)));
    }
  }
}
