/** Products and multiples, stated once for the modules that reckon with
    clusters, pages and objects. */
module Arith {

  const MAX_INT: int := 0x7fff_ffff

  lemma Scale(a: nat, b: nat, k: nat)
    requires a <= b
    ensures a * k <= b * k
  {
  }

  lemma NextMultiple(a: nat, k: nat)
    ensures (a + 1) * k == a * k + k
  {
  }

  lemma Steps(a: nat, b: nat, k: nat)
    requires a < b
    ensures a * k + k <= b * k && 0 <= a * k
  {
    Scale(a + 1, b, k);
    NextMultiple(a, k);
  }

  lemma Distribute(a: nat, b: nat, c: nat)
    ensures (a + b) * c == a * c + b * c
  {
  }

  lemma Regroup(a: nat, b: nat, c: nat)
    ensures (a * b) * c == a * (b * c)
  {
  }

  lemma Positive(a: nat, b: nat)
    requires a > 0 && b > 0
    ensures a * b > 0
  {
  }

  lemma NotPositive(d: int, k: nat)
    requires d <= 0
    ensures d * k <= 0
  {
  }

  lemma Multiple(k: nat, s: nat)
    requires s > 0
    ensures (k * s) % s == 0
  {
    var q: nat := (k * s) / s;
    var r := (k * s) % s;
    assert r == (k - q) * s;
    if k - q >= 1 { Steps(0, k - q, s); } else { NotPositive(k - q, s); }
  }

  /** Quotient and remainder of a multiple plus a rest. */
  lemma Quotient(j: nat, rest: nat, step: nat)
    requires rest < step
    ensures (j * step + rest) / step == j && (j * step + rest) % step == rest
  {
    var x := j * step + rest;
    var q := x / step;
    assert x == q * step + x % step;
    if q < j { NextMultiple(q, step); Scale(q + 1, j, step); }
    if j < q { NextMultiple(j, step); Scale(j + 1, q, step); }
  }
}
