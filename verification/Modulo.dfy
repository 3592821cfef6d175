/** Remainders by a variable divisor. */
module Modulo {
  lemma NextModulo(i: nat, n: nat, r: nat)
    requires n > 0 && r == i % n
    ensures (i + 1) % n == if r + 1 == n then 0 else r + 1
  {
    var q := i / n;
    assert i == q * n + r;
    if r + 1 == n {
      assert i + 1 == (q + 1) * n;
      ModuloIs(i + 1, n, q + 1, 0);
    } else {
      ModuloIs(i + 1, n, q, r + 1);
    }
  }

  lemma ModuloIs(v: nat, n: nat, q: nat, r: nat)
    requires n > 0 && v == q * n + r && r < n
    ensures v % n == r
  {
    var q', r' := v / n, v % n;
    assert v == q' * n + r';
    MultipleOrder(q, q', n);
    MultipleOrder(q', q, n);
  }

  lemma {:induction false} MultipleOrder(p: nat, q: nat, d: nat)
    ensures p < q ==> p * d + d <= q * d
  {
    if p + 1 < q {
      MultipleOrder(p, q - 1, d);
      assert (q - 1) * d + d == q * d;
    }
  }

  lemma ModuloStep(k: nat, n: nat)
    requires k >= n > 0
    ensures k % n == (k - n) % n
  {
    var q, r := (k - n) / n, (k - n) % n;
    assert k == (q + 1) * n + r;
    ModuloIs(k, n, q + 1, r);
  }

  lemma {:induction false} ModuloOfMultiple(k: nat, n: nat, times: nat)
    requires n > 0 && times > 0
    ensures times * n > 0 && (k % (times * n)) % n == k % n
    decreases k
  {
    var m := times * n;
    assert m >= n;
    if k < m {
      ModuloIs(k, m, 0, k);
    } else {
      ModuloStep(k, m);
      ModuloOfMultiple(k - m, n, times);
      ShiftedModulo(k - m, n, times);
    }
  }

  lemma {:induction false} ShiftedModulo(k: nat, n: nat, times: nat)
    requires n > 0
    ensures (k + times * n) % n == k % n
  {
    if times > 0 {
      ShiftedModulo(k, n, times - 1);
      assert k + times * n == k + (times - 1) * n + n;
      ModuloStep(k + times * n, n);
    }
  }
}
