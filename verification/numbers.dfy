/** Division with a remainder, for divisors that are not constants. */
module Numbers {

  lemma ScaledBounds(k: int, e: int)
    requires e > 0
    ensures k >= 1 ==> k * e >= e
    ensures k <= -1 ==> k * e <= -e
  {
  }

  /** Quotient and remainder are determined. */
  lemma UniqueMod(n: int, q: int, r: int, e: int)
    requires e > 0 && 0 <= r < e && n == q * e + r
    ensures n % e == r && n / e == q
  {
    var k := n / e - q;
    assert n == (n / e) * e + n % e;
    assert k * e == r - n % e;
    ScaledBounds(k, e);
  }

  /** Adding a multiple does not change the remainder. */
  lemma ModShift(r: int, e: int, t: int)
    requires e > 0
    ensures (r + t * e) % e == r % e
  {
    var q, s := r / e, r % e;
    Distribute(q, t, e);
    UniqueMod(r + t * e, q + t, s, e);
  }

  lemma Distribute(q: int, t: int, e: int)
    ensures (q + t) * e == q * e + t * e
  {
  }

  /** Two numbers with the same remainder are a multiple apart. */
  lemma SameMod(a: int, b: int, e: int)
    requires e > 0 && a % e == b % e
    ensures a == b || a - b >= e || b - a >= e
  {
    var k := a / e - b / e;
    assert a - b == k * e;
    ScaledBounds(k, e);
  }
}
