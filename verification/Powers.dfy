/** Powers of two and the few nonlinear facts the other modules need. */
module Powers {

  function Pow2(k: nat): (p: nat)
    ensures p >= 1
  {
    if k == 0 then 1 else 2 * Pow2(k - 1)
  }

  lemma {:induction false} Pow2Split(m: nat, k: nat)
    ensures Pow2(m + k) == Pow2(m) * Pow2(k)
  {
    if k > 0 { Pow2Split(m, k - 1); }
  }

  lemma {:induction false} Pow2Mono(j: nat, k: nat)
    requires j < k
    ensures Pow2(j) < Pow2(k)
  {
    if j + 1 < k { Pow2Mono(j, k - 1); }
  }

  lemma MulMono(a: nat, b: nat, c: nat, d: nat)
    requires a <= b && c <= d
    ensures a * c <= b * d
  {
    assert a * c <= b * c;
    assert b * c <= b * d;
  }

  /** x / m, for a variable m. */
  function Quotient(x: nat, m: nat): (q: nat)
    requires m > 0
    ensures m * q <= x < m * q + m
  {
    x / m
  }

  /** A number is divided in only one way. */
  lemma DivModUnique(x: nat, m: nat, q: nat, r: nat)
    requires x == m * q + r && r < m
    ensures x / m == q && x % m == r
  {
    var q' := x / m;
    assert x == m * q' + x % m;
    if q' < q {
      MulMono(m, m, q' + 1, q);
      assert false;
    } else if q' > q {
      MulMono(m, m, q + 1, q');
      assert false;
    }
  }
}
