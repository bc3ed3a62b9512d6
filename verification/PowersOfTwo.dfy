/**
 The 64-bit unsigned arithmetic behind the capacity of the ring buffer.

 A `size_t` is a natural number below 2^64; the bitwise operators are written out on
 the binary digits, so that every fact about them is a fact about ordinary integers.
 */
module PowersOfTwo {
  import opened Division

  const WORD_BITS: nat := 64

  function Pow2(k: nat): (p: nat)
    ensures p > 0
  {
    if k == 0 then 1 else 2 * Pow2(k - 1)
  }

  predicate Bit(n: nat, i: nat)
    decreases i
  {
    if i == 0 then n % 2 == 1 else Bit(n / 2, i - 1)
  }

  function And(x: nat, y: nat): nat
    decreases x
  {
    if x == 0 || y == 0 then 0
    else 2 * And(x / 2, y / 2) + (if x % 2 == 1 && y % 2 == 1 then 1 else 0)
  }

  function Or(x: nat, y: nat): nat
    decreases x
  {
    if x == 0 then y else if y == 0 then x
    else 2 * Or(x / 2, y / 2) + (if x % 2 == 1 || y % 2 == 1 then 1 else 0)
  }

  function Shr(n: nat, s: nat): nat
    decreases s
  {
    if s == 0 then n else Shr(n / 2, s - 1)
  }

  // The size computations of the source, on 64-bit words.

  predicate IsPowTwo(n: nat) {
    n != 0 && And(n, n - 1) == 0
  }

  /** The six or-and-shift steps that copy the leading one into every lower digit. */
  function Smear(n0: nat): nat {
    var n1 := Or(n0, Shr(n0, 1));
    var n2 := Or(n1, Shr(n1, 2));
    var n3 := Or(n2, Shr(n2, 4));
    var n4 := Or(n3, Shr(n3, 8));
    var n5 := Or(n4, Shr(n4, 16));
    Or(n5, Shr(n5, 32))
  }

  function WordIncrement(n: nat): nat {
    (n + 1) % Pow2(WORD_BITS)
  }

  function NextPowTwo(n: nat): nat {
    if n == 0 then 1 else WordIncrement(Smear(n - 1))
  }

  function AdjSize(size: nat): nat {
    if IsPowTwo(size) then size else NextPowTwo(size)
  }

  // Digits

  lemma {:induction false} ZeroHasNoBits(i: nat)
    ensures !Bit(0, i)
    decreases i
  {
    if i > 0 { ZeroHasNoBits(i - 1); }
  }

  lemma Halves(h: nat, b: nat)
    requires b < 2
    ensures (2 * h + b) / 2 == h && (2 * h + b) % 2 == b
  {
  }

  lemma OrHalves(x: nat, y: nat)
    ensures Or(x, y) / 2 == Or(x / 2, y / 2)
    ensures Or(x, y) % 2 == 1 <==> x % 2 == 1 || y % 2 == 1
  {
    if x != 0 && y != 0 {
      Halves(Or(x / 2, y / 2), if x % 2 == 1 || y % 2 == 1 then 1 else 0);
    }
  }

  lemma {:induction false} BitOfOr(x: nat, y: nat, i: nat)
    ensures Bit(Or(x, y), i) <==> Bit(x, i) || Bit(y, i)
    decreases i
  {
    OrHalves(x, y);
    if i > 0 { BitOfOr(x / 2, y / 2, i - 1); }
  }

  lemma {:induction false} BitOfShr(n: nat, s: nat, i: nat)
    ensures Bit(Shr(n, s), i) <==> Bit(n, i + s)
    decreases s
  {
    if s > 0 { BitOfShr(n / 2, s - 1, i); }
  }

  /** The digits from `lo` up to `len` are all ones and nothing stands above them. */
  ghost predicate OnesFrom(n: nat, lo: int, len: nat) {
    forall i: nat {:trigger Bit(n, i)} :: (i >= len ==> !Bit(n, i)) && (lo <= i < len ==> Bit(n, i))
  }

  /** One smearing step doubles the run of leading ones. */
  lemma SmearStep(n: nat, len: nat, j: nat)
    requires OnesFrom(n, len - j, len)
    ensures OnesFrom(Or(n, Shr(n, j)), len - 2 * j, len)
  {
    forall i: nat
      ensures (i >= len ==> !Bit(Or(n, Shr(n, j)), i)) && (len - 2 * j <= i < len ==> Bit(Or(n, Shr(n, j)), i))
    {
      BitOfOr(n, Shr(n, j), i);
      BitOfShr(n, j, i);
      assert Bit(n, i) || !Bit(n, i);
      assert Bit(n, i + j) || !Bit(n, i + j);
    }
  }

  lemma {:induction false} BitsAbove(n: nat, len: nat, i: nat)
    requires n < Pow2(len) && i >= len
    ensures !Bit(n, i)
    decreases len
  {
    if len == 0 {
      ZeroHasNoBits(i);
    } else {
      BitsAbove(n / 2, len - 1, i - 1);
    }
  }

  lemma {:induction false} LeadingOne(n: nat, len: nat)
    requires Pow2(len) <= n < Pow2(len + 1)
    ensures Bit(n, len)
    decreases len
  {
    if len > 0 { LeadingOne(n / 2, len - 1); }
  }

  lemma {:induction false} AllOnes(n: nat, len: nat)
    requires OnesFrom(n, 0, len)
    ensures n == Pow2(len) - 1
    decreases n + len
  {
    if len == 0 {
      NoBitsIsZero(n);
    } else {
      assert Bit(n, 0);
      forall i: nat ensures (i >= len - 1 ==> !Bit(n / 2, i)) && (0 <= i < len - 1 ==> Bit(n / 2, i)) {
        assert Bit(n, i + 1) == Bit(n / 2, i);
      }
      AllOnes(n / 2, len - 1);
    }
  }

  lemma {:induction false} NoBitsIsZero(n: nat)
    requires forall i: nat :: !Bit(n, i)
    ensures n == 0
    decreases n
  {
    assert !Bit(n, 0);
    if n != 0 {
      forall i: nat ensures !Bit(n / 2, i) {
        assert Bit(n, i + 1) == Bit(n / 2, i);
      }
      NoBitsIsZero(n / 2);
    }
  }

  // The smear

  lemma SmearFillsAllDigits(n: nat, len: nat)
    requires len <= WORD_BITS && n < Pow2(len)
    requires len > 0 ==> Pow2(len - 1) <= n
    ensures Smear(n) == Pow2(len) - 1
  {
    if len > 0 { LeadingOne(n, len - 1); }
    forall i: nat | i >= len ensures !Bit(n, i) { BitsAbove(n, len, i); }
    assert OnesFrom(n, len - 1, len);
    SmearStep(n, len, 1);
    var n1 := Or(n, Shr(n, 1));
    SmearStep(n1, len, 2);
    var n2 := Or(n1, Shr(n1, 2));
    SmearStep(n2, len, 4);
    var n3 := Or(n2, Shr(n2, 4));
    SmearStep(n3, len, 8);
    var n4 := Or(n3, Shr(n3, 8));
    SmearStep(n4, len, 16);
    var n5 := Or(n4, Shr(n4, 16));
    SmearStep(n5, len, 32);
    AllOnes(Smear(n), len);
  }

  lemma {:induction false} Pow2Increases(a: nat, b: nat)
    requires a < b
    ensures 2 * Pow2(a) <= Pow2(b)
    decreases b
  {
    if a < b - 1 { Pow2Increases(a, b - 1); }
  }

  lemma {:induction false} DigitCount(n: nat, bound: nat) returns (len: nat)
    requires n < Pow2(bound)
    ensures len <= bound && n < Pow2(len) && (len > 0 ==> Pow2(len - 1) <= n)
    decreases bound
  {
    if bound == 0 || Pow2(bound - 1) <= n {
      len := bound;
    } else {
      len := DigitCount(n, bound - 1);
    }
  }

  /** With `len` digits in n - 1, the sum is exactly 2^len unless it overflows the word. */
  lemma NextPowTwoByDigits(n: nat, len: nat)
    requires n > 0 && len <= WORD_BITS && n - 1 < Pow2(len)
    requires len > 0 ==> Pow2(len - 1) <= n - 1
    ensures NextPowTwo(n) == if len < WORD_BITS then Pow2(len) else 0
  {
    var s := Smear(n - 1);
    assert s == Pow2(len) - 1 by { SmearFillsAllDigits(n - 1, len); }
    WordSum(s, len);
  }

  lemma WordSum(s: nat, len: nat)
    requires len <= WORD_BITS && s == Pow2(len) - 1
    ensures WordIncrement(s) == if len < WORD_BITS then Pow2(len) else 0
  {
    if len < WORD_BITS { Pow2Increases(len, WORD_BITS); }
    SmallRemainder(Pow2(len), Pow2(WORD_BITS));
  }

  lemma SmallRemainder(x: nat, m: nat)
    requires 0 < x <= m
    ensures x % m == if x < m then x else 0
  {
    RemainderUnique(x, m, if x < m then 0 else 1, if x < m then x else 0);
  }

  ghost predicate LeastExponent(n: nat, k: nat) {
    n <= Pow2(k) && forall j: nat :: n <= Pow2(j) ==> k <= j
  }

  lemma DigitsAreLeastExponent(n: nat, len: nat)
    requires n > 0 && n - 1 < Pow2(len)
    requires len > 0 ==> Pow2(len - 1) <= n - 1
    ensures LeastExponent(n, len)
  {
    forall j: nat | n <= Pow2(j) ensures len <= j {
      if j < len - 1 { Pow2Increases(j, len - 1); }
    }
  }

  /** For 1 <= n <= 2^63 the result is the least power of two that is at least n. */
  lemma NextPowTwoIsLeast(n: nat) returns (k: nat)
    requires 1 <= n <= Pow2(WORD_BITS - 1)
    ensures k < WORD_BITS && NextPowTwo(n) == Pow2(k) && LeastExponent(n, k)
  {
    k := DigitCount(n - 1, WORD_BITS - 1);
    NextPowTwoByDigits(n, k);
    DigitsAreLeastExponent(n, k);
  }

  /** Past 2^63 no power of two fits in a word: the sum wraps and the result is 0. */
  lemma NextPowTwoWraps(n: nat)
    requires n < Pow2(WORD_BITS)
    ensures NextPowTwo(n) == 0 <==> n > Pow2(WORD_BITS - 1)
  {
    if n > Pow2(WORD_BITS - 1) {
      NextPowTwoByDigits(n, WORD_BITS);
    } else if n > 0 {
      var k := NextPowTwoIsLeast(n);
    }
  }

  // The power-of-two test

  ghost predicate IsPower(n: nat) {
    exists k: nat :: n == Pow2(k)
  }

  lemma PowerHalves(n: nat)
    requires n > 1
    ensures IsPower(n) <==> n % 2 == 0 && IsPower(n / 2)
  {
    if k: nat :| n == Pow2(k) {
      assert n / 2 == Pow2(k - 1);
    }
    if n % 2 == 0 && IsPower(n / 2) {
      var k: nat :| n / 2 == Pow2(k);
      assert n == Pow2(k + 1);
    }
  }

  lemma {:induction false} AndWithPredecessor(n: nat)
    requires n > 0
    ensures And(n, n - 1) == 0 <==> IsPower(n)
    decreases n
  {
    if n == 1 {
      assert n == Pow2(0);
    } else {
      PowerHalves(n);
      if n % 2 == 1 {
        AndWithItself(n / 2);
        assert (n - 1) / 2 == n / 2;
      } else {
        assert (n - 1) / 2 == n / 2 - 1;
        AndWithPredecessor(n / 2);
      }
    }
  }

  lemma {:induction false} AndWithItself(n: nat)
    ensures And(n, n) == n
    decreases n
  {
    if n > 0 { AndWithItself(n / 2); }
  }

  lemma IsPowTwoExact(n: nat)
    ensures IsPowTwo(n) <==> IsPower(n)
  {
    if n > 0 { AndWithPredecessor(n); }
  }

  /** Every size up to 2^63 gets a usable capacity, and adjusting twice changes nothing. */
  lemma AdjSizeSettles(size: nat)
    requires size < Pow2(WORD_BITS)
    ensures IsPowTwo(AdjSize(size)) && AdjSize(size) >= size <==> size <= Pow2(WORD_BITS - 1)
    ensures size <= Pow2(WORD_BITS - 1) ==> AdjSize(AdjSize(size)) == AdjSize(size) <= Pow2(WORD_BITS - 1)
  {
    IsPowTwoExact(AdjSize(size));
    IsPowTwoExact(size);
    NextPowTwoWraps(size);
    if size == 0 {
      assert AdjSize(size) == Pow2(0);
    } else if size <= Pow2(WORD_BITS - 1) {
      var k := NextPowTwoIsLeast(size);
      if k < WORD_BITS - 1 { Pow2Increases(k, WORD_BITS - 1); }
    } else if IsPowTwo(size) {
      var k: nat :| size == Pow2(k);
      if k < WORD_BITS - 1 { Pow2Increases(k, WORD_BITS - 1); }
      if k >= WORD_BITS && k > WORD_BITS { Pow2Increases(WORD_BITS, k); }
      assert false;
    }
  }

  /** Up to 2^63 that capacity is the least power of two that is no smaller than the request. */
  lemma AdjSizeIsLeast(size: nat) returns (k: nat)
    requires size <= Pow2(WORD_BITS - 1)
    ensures AdjSize(size) == Pow2(k) && LeastExponent(size, k)
  {
    IsPowTwoExact(size);
    if IsPowTwo(size) {
      k :| size == Pow2(k);
      forall j: nat | size <= Pow2(j) ensures k <= j {
        if j < k { Pow2Increases(j, k); }
      }
    } else if size == 0 {
      k := 0;
    } else {
      k := NextPowTwoIsLeast(size);
    }
  }

  // Masking

  /** `x & (c - 1)` is `x % c` for every power of two c. */
  lemma {:induction false} MaskIsMod(x: nat, k: nat)
    ensures And(x, Pow2(k) - 1) == x % Pow2(k)
    decreases k
  {
    if k > 0 {
      MaskIsMod(x / 2, k - 1);
      MaskOneMore(x, Pow2(k - 1));
    }
  }

  lemma MaskOneMore(x: nat, p: nat)
    requires p > 0 && And(x / 2, p - 1) == x / 2 % p
    ensures And(x, 2 * p - 1) == x % (2 * p)
  {
    AndOddMask(x, p);
    HalvedRemainder(x, p);
  }

  lemma AndOddMask(x: nat, p: nat)
    requires p > 0
    ensures And(x, 2 * p - 1) == 2 * And(x / 2, p - 1) + x % 2
  {
    assert (2 * p - 1) / 2 == p - 1;
  }

  lemma HalvedRemainder(x: nat, p: nat)
    requires p > 0
    ensures x % (2 * p) == 2 * (x / 2 % p) + x % 2
  {
    var q, r := x / 2 / p, x / 2 % p;
    assert x == q * (2 * p) + (2 * r + x % 2) by {
      assert x / 2 == q * p + r;
    }
    RemainderUnique(x, 2 * p, q, 2 * r + x % 2);
  }
}
