/** Small facts about natural-number division that the solver does not find alone. */
module NatArith {

  /** Division is determined by any quotient/remainder decomposition. */
  lemma DivModUnique(n: int, d: int, q: int, r: int)
    requires d > 0 && 0 <= r < d && n == q * d + r
    ensures n / d == q && n % d == r
  {
    var k := n / d - q;
    assert k * d == r - n % d;
    SmallMultipleIsZero(k, d);
  }

  lemma SmallMultipleIsZero(k: int, d: int)
    requires d > 0 && -d < k * d < d
    ensures k == 0
  {
  }

  lemma MulMonotone(a: nat, b: nat, c: nat)
    requires a <= b
    ensures a * c <= b * c
  {
  }

  lemma MulSucc(n: nat, g: nat)
    ensures (n + 1) * g == n * g + g
  {
  }

  /** Ceiling division: the least `q` with `q * d >= n`. */
  function CeilDiv(n: nat, d: nat): (q: nat)
    requires d > 0
    ensures q * d >= n
    ensures q == 0 || (q - 1) * d < n
  {
    var q := (n + d - 1) / d;
    assert (n + d - 1) == q * d + (n + d - 1) % d;
    q
  }

  /** A larger numerator never needs a smaller ceiling quotient. */
  lemma CeilDivMonotone(n: nat, m: nat, d: nat)
    requires d > 0 && n <= m
    ensures CeilDiv(n, d) <= CeilDiv(m, d)
  {
    var a := CeilDiv(n, d);
    var b := CeilDiv(m, d);
    if b < a {
      MulMonotone(b, a - 1, d);
    }
  }
}
