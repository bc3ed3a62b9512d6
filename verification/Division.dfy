/**
 Quotient and remainder by a variable divisor.
 */
module Division {

  lemma RemainderUnique(x: int, d: int, q: int, r: int)
    requires d > 0 && x == q * d + r && 0 <= r < d
    ensures x % d == r && x / d == q
  {
    var e := x / d - q;
    assert e * d == (x / d) * d - q * d == r - x % d;
    Multiples(e, d);
  }

  lemma Multiples(e: int, d: int)
    requires d > 0
    ensures e >= 1 ==> e * d >= d
    ensures e <= -1 ==> e * d <= -d
  {
    if e >= 1 {
      assert e * d == d + (e - 1) * d;
    } else if e <= -1 {
      assert e * d == -d + (e + 1) * d;
    }
  }
}
