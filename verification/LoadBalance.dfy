/**
 The arithmetic of load balancing, on the loads of the loops (or workers) of a pool.
 */
module LoadBalance {
  import opened Division

  // The scans

  /** The first position of the smallest load. */
  function LeastIdx(loads: seq<int>): (i: nat)
    requires loads != []
    ensures i < |loads|
  {
    if |loads| == 1 then 0
    else
      var last := |loads| - 1;
      var i := LeastIdx(loads[..last]);
      if loads[last] < loads[i] then last else i
  }

  /** The first position of the largest load. */
  function MostIdx(loads: seq<int>): (i: nat)
    requires loads != []
    ensures i < |loads|
  {
    if |loads| == 1 then 0
    else
      var last := |loads| - 1;
      var i := MostIdx(loads[..last]);
      if loads[last] > loads[i] then last else i
  }

  /** One step of the scan for the first smallest load. */
  lemma LeastStep(loads: seq<int>, i: nat)
    requires 0 < i < |loads|
    ensures LeastIdx(loads[..i + 1]) == if loads[i] < loads[LeastIdx(loads[..i])] then i else LeastIdx(loads[..i])
  {
    assert loads[..i + 1][..i] == loads[..i];
  }

  /** One step of the scan for the first largest load. */
  lemma MostStep(loads: seq<int>, i: nat)
    requires 0 < i < |loads|
    ensures MostIdx(loads[..i + 1]) == if loads[i] > loads[MostIdx(loads[..i])] then i else MostIdx(loads[..i])
  {
    assert loads[..i + 1][..i] == loads[..i];
  }

  function Low(loads: seq<int>): int
    requires loads != []
  {
    loads[LeastIdx(loads)]
  }

  function Top(loads: seq<int>): int
    requires loads != []
  {
    loads[MostIdx(loads)]
  }

  lemma {:induction false} LeastIdxIsLeftmost(loads: seq<int>)
    requires loads != []
    ensures forall j :: 0 <= j < |loads| ==> Low(loads) <= loads[j]
    ensures forall j :: 0 <= j < LeastIdx(loads) ==> Low(loads) < loads[j]
  {
    if |loads| > 1 {
      var init := loads[..|loads| - 1];
      LeastIdxIsLeftmost(init);
      assert forall j :: 0 <= j < |init| ==> loads[j] == init[j];
    }
  }

  lemma {:induction false} MostIdxIsLeftmost(loads: seq<int>)
    requires loads != []
    ensures forall j :: 0 <= j < |loads| ==> loads[j] <= Top(loads)
    ensures forall j :: 0 <= j < MostIdx(loads) ==> loads[j] < Top(loads)
  {
    if |loads| > 1 {
      var init := loads[..|loads| - 1];
      MostIdxIsLeftmost(init);
      assert forall j :: 0 <= j < |init| ==> loads[j] == init[j];
    }
  }

  // Sums

  function Sum(loads: seq<int>): int {
    if loads == [] then 0 else Sum(loads[..|loads| - 1]) + loads[|loads| - 1]
  }

  lemma {:induction false} SumUpdate(loads: seq<int>, i: nat, x: int)
    requires i < |loads|
    ensures Sum(loads[i := x]) == Sum(loads) - loads[i] + x
  {
    var last := |loads| - 1;
    if i == last {
      assert loads[i := x][..last] == loads[..last];
    } else {
      assert loads[i := x][..last] == loads[..last][i := x];
      SumUpdate(loads[..last], i, x);
    }
  }

  /** Smaller everywhere means a smaller sum, and equal sums then mean equal loads. */
  lemma {:induction false} SumMonotone(a: seq<int>, b: seq<int>)
    requires |a| == |b| && forall i :: 0 <= i < |a| ==> a[i] <= b[i]
    ensures Sum(a) <= Sum(b)
    ensures Sum(a) == Sum(b) ==> a == b
  {
    if a != [] {
      var last := |a| - 1;
      SumMonotone(a[..last], b[..last]);
      if Sum(a) == Sum(b) {
        assert a == a[..last] + [a[last]] && b == b[..last] + [b[last]];
      }
    }
  }

  // Least-loaded placement of unit events

  function PlaceOne(loads: seq<int>): seq<int>
    requires loads != []
  {
    loads[LeastIdx(loads) := Low(loads) + 1]
  }

  function Greedy(loads: seq<int>, k: nat): (r: seq<int>)
    requires loads != []
    ensures |r| == |loads|
    decreases k
  {
    if k == 0 then loads else PlaceOne(Greedy(loads, k - 1))
  }

  /** b is the outcome of some placement of k unit events on loads a. */
  ghost predicate Placement(a: seq<int>, k: nat, b: seq<int>) {
    |a| == |b| && (forall i :: 0 <= i < |a| ==> a[i] <= b[i]) && Sum(b) == Sum(a) + k
  }

  /** One placement: the sum grows by one, the minimum does not fall, and the maximum
      either stays or is the old minimum plus one. */
  lemma PlaceOneShape(g: seq<int>)
    requires g != []
    ensures Sum(PlaceOne(g)) == Sum(g) + 1 && Low(g) <= Low(PlaceOne(g))
    ensures Top(PlaceOne(g)) == if Low(g) + 1 > Top(g) then Low(g) + 1 else Top(g)
  {
    var g' := PlaceOne(g);
    SumUpdate(g, LeastIdx(g), Low(g) + 1);
    LeastIdxIsLeftmost(g);
    MostIdxIsLeftmost(g);
    MostIdxIsLeftmost(g');
    assert g'[LeastIdx(g)] == Low(g) + 1;
    assert g'[MostIdx(g)] >= Top(g);
  }

  lemma LowIsBelowTop(g: seq<int>)
    requires g != []
    ensures Low(g) <= Top(g)
  {
    MostIdxIsLeftmost(g);
  }

  /** Either the maximum has not moved yet, or all loads are within one of it. */
  lemma {:induction false} GreedyShape(loads: seq<int>, k: nat)
    requires loads != []
    ensures Placement(loads, k, Greedy(loads, k))
    ensures Low(loads) <= Low(Greedy(loads, k))
    ensures Top(Greedy(loads, k)) == Top(loads) || Top(Greedy(loads, k)) - 1 <= Low(Greedy(loads, k))
    decreases k
  {
    if k > 0 {
      GreedyShape(loads, k - 1);
      PlaceOneShape(Greedy(loads, k - 1));
      LowIsBelowTop(Greedy(loads, k - 1));
    }
  }

  /** After k rounds of least-loaded dispatch the largest load is the least that any
      placement of the same k events could give. */
  lemma LeastLoadedIsOptimal(loads: seq<int>, k: nat, other: seq<int>)
    requires loads != [] && Placement(loads, k, other)
    ensures Top(Greedy(loads, k)) <= Top(other)
  {
    var g := Greedy(loads, k);
    GreedyShape(loads, k);
    MostIdxIsLeftmost(other);
    LeastIdxIsLeftmost(g);
    if Top(g) == Top(loads) {
      assert loads[MostIdx(loads)] <= other[MostIdx(loads)];
    } else if Top(other) < Top(g) {
      SumMonotone(other, g);
    }
  }

  /** The spread between loads never exceeds what it was, or one. */
  lemma LeastLoadedSpread(loads: seq<int>, k: nat)
    requires loads != []
    ensures var g := Greedy(loads, k);
      Top(g) - Low(g) <= (if Top(loads) - Low(loads) > 1 then Top(loads) - Low(loads) else 1)
  {
    GreedyShape(loads, k);
  }

  // Round robin

  /** The next position in turn. */
  function Turn(next: nat, n: nat): nat
    requires n > 0
  {
    (next + 1) % n
  }

  /** How often position j is hit by m dispatches when `next` was hit last. */
  function Hits(next: nat, n: nat, m: nat, j: nat): nat
    requires n > 0
    decreases m
  {
    if m == 0 then 0
    else (if Turn(next, n) == j then 1 else 0) + Hits(Turn(next, n), n, m - 1, j)
  }

  /** The position hit last after m more dispatches. */
  function After(next: nat, n: nat, m: nat): nat
    requires n > 0
    decreases m
  {
    if m == 0 then next else After(Turn(next, n), n, m - 1)
  }

  lemma {:induction false} OneMoreDispatch(next: nat, n: nat, m: nat, j: nat)
    requires n > 0
    ensures After(next, n, m + 1) == Turn(After(next, n, m), n)
    ensures Hits(next, n, m + 1, j) == Hits(next, n, m, j) + (if After(next, n, m + 1) == j then 1 else 0)
    decreases m
  {
    if m > 0 {
      var x := Turn(next, n);
      OneMoreDispatch(x, n, m - 1, j);
      assert Hits(next, n, m + 1, j) == (if x == j then 1 else 0) + Hits(x, n, m, j);
      assert Hits(next, n, m, j) == (if x == j then 1 else 0) + Hits(x, n, m - 1, j);
      assert After(next, n, m + 1) == After(x, n, m);
    }
  }

  /** How many dispatches until j is hit for the first time. */
  function Until(next: nat, n: nat, j: nat): int {
    if j > next then j - next else j - next + n
  }

  lemma StepMod(next: nat, n: nat)
    requires next < n
    ensures Turn(next, n) == if next + 1 == n then 0 else next + 1
  {
    if next + 1 < n {
      assert (next + 1) % n == next + 1;
    }
  }

  /** After a removal the turn may stand one past the last position; it then counts from
      its remainder. */
  lemma TurnFromRemainder(next: nat, n: nat)
    requires n > 0
    ensures Turn(next, n) == Turn(next % n, n)
  {
    var q, r := next / n, next % n;
    assert next + 1 == q * n + (r + 1);
    if r + 1 < n {
      RemainderUnique(next + 1, n, q, r + 1);
    } else {
      assert next + 1 == (q + 1) * n;
      RemainderUnique(next + 1, n, q + 1, 0);
    }
    StepMod(r, n);
  }

  lemma DivUp(a: int, n: nat)
    requires n > 0
    ensures (a + n) / n == a / n + 1
    ensures 0 <= a < n ==> a / n == 0
  {
    var q, r := a / n, a % n;
    assert a + n == (q + 1) * n + r;
    RemainderUnique(a + n, n, q + 1, r);
    if 0 <= a < n { RemainderUnique(a, n, 0, a); }
  }

  lemma HitsFromRemainder(next: nat, n: nat, m: nat, j: nat)
    requires n > 0
    ensures Hits(next, n, m, j) == Hits(next % n, n, m, j)
  {
    TurnFromRemainder(next, n);
  }

  lemma {:induction false} HitsExactly(next: nat, n: nat, m: nat, j: nat)
    requires next < n && j < n
    ensures Hits(next, n, m, j) == if m < Until(next, n, j) then 0 else 1 + (m - Until(next, n, j)) / n
    decreases m
  {
    if m > 0 {
      StepMod(next, n);
      var x := Turn(next, n);
      HitsExactly(x, n, m - 1, j);
      if x == j {
        if m - 1 >= n { DivUp(m - 1 - n, n); } else { DivUp(m - 1, n); }
      }
    }
  }

  lemma NotHitUntil(next: nat, n: nat, m: nat, j: nat)
    requires j < n
    ensures Hits(next, n, m, j) == 0 <==> m < Until(next % n, n, j)
  {
    HitsFromRemainder(next, n, m, j);
    HitsExactly(next % n, n, m, j);
  }

  lemma RoundedUp(m: nat, n: nat)
    requires n > 0
    ensures (m + n - 1) / n == if m % n == 0 then m / n else m / n + 1
  {
    var q, r := m / n, m % n;
    assert m == q * n + r;
    if r == 0 {
      RemainderUnique(m + n - 1, n, q, n - 1);
    } else {
      assert m + n - 1 == (q + 1) * n + (r - 1);
      RemainderUnique(m + n - 1, n, q + 1, r - 1);
    }
  }

  lemma FirstThenEveryNth(m: nat, n: nat, d: nat)
    requires 1 <= d <= n
    ensures (if m < d then 0 else 1 + (m - d) / n) == if m % n >= d then m / n + 1 else m / n
  {
    var q, r := m / n, m % n;
    assert m == q * n + r;
    if m < d {
      RemainderUnique(m, n, 0, m);
    } else if r >= d {
      RemainderUnique(m - d, n, q, r - d);
    } else {
      assert m - d == (q - 1) * n + (n + r - d);
      RemainderUnique(m - d, n, q - 1, n + r - d);
    }
  }

  /** m/n, rounded down or rounded up. */
  predicate FairShare(got: int, m: nat, n: nat) {
    n > 0 && m / n <= got <= (m + n - 1) / n
  }

  /** Any m consecutive dispatches hit each of n loops m/n times, rounded down or up. */
  lemma RoundRobinIsFair(next: nat, n: nat, m: nat, j: nat)
    requires j < n
    ensures FairShare(Hits(next, n, m, j), m, n)
  {
    HitsFromRemainder(next, n, m, j);
    HitsExactly(next % n, n, m, j);
    FirstThenEveryNth(m, n, Until(next % n, n, j));
    RoundedUp(m, n);
  }

  // Emptying the busiest loop

  function Headroom(loads: seq<int>): int
    requires loads != []
  {
    |loads| * Top(loads) - Sum(loads)
  }

  function Level(n: nat, x: int): seq<int> {
    seq(n, _ => x)
  }

  lemma {:induction false} SumLevel(n: nat, x: int)
    ensures Sum(Level(n, x)) == n * x
    decreases n
  {
    if n > 0 {
      assert Level(n, x)[..n - 1] == Level(n - 1, x);
      SumLevel(n - 1, x);
    }
  }

  lemma {:induction false} GreedyAddsUp(loads: seq<int>, a: nat, b: nat)
    requires loads != []
    ensures Greedy(loads, a + b) == Greedy(Greedy(loads, a), b)
    decreases b
  {
    if b > 0 { GreedyAddsUp(loads, a, b - 1); }
  }

  lemma {:induction false} GreedyGrows(loads: seq<int>, k: nat, i: nat)
    requires loads != [] && i < |loads|
    ensures loads[i] <= Greedy(loads, k)[i]
    decreases k
  {
    if k > 0 { GreedyGrows(loads, k - 1, i); }
  }

  /** Loads that are nowhere above x and somewhere below it have their minimum below x. */
  lemma SomeBelow(g: seq<int>, x: int)
    requires g != [] && Sum(g) < |g| * x
    ensures Low(g) < x
  {
    if Low(g) >= x {
      LeastIdxIsLeftmost(g);
      SumLevel(|g|, x);
      SumMonotone(Level(|g|, x), g);
      assert false;
    }
  }

  /** While there is headroom the other loops fill up to the busiest one, which keeps out. */
  lemma {:induction false} HeadroomIsUsedFirst(loads: seq<int>, k: nat)
    requires loads != [] && k <= Headroom(loads)
    ensures var g := Greedy(loads, k);
      g[MostIdx(loads)] == Top(loads) && (forall i :: 0 <= i < |g| ==> g[i] <= Top(loads)) && Sum(g) == Sum(loads) + k
    decreases k
  {
    if k == 0 {
      MostIdxIsLeftmost(loads);
    } else {
      HeadroomIsUsedFirst(loads, k - 1);
      var g := Greedy(loads, k - 1);
      SomeBelow(g, Top(loads));
      SumUpdate(g, LeastIdx(g), Low(g) + 1);
    }
  }

  lemma FillsNext(n: nat, x: int, m: nat)
    requires m < n
    ensures PlaceOne(Level(m, x + 1) + Level(n - m, x)) == Level(m + 1, x + 1) + Level(n - m - 1, x)
  {
    var g := Level(m, x + 1) + Level(n - m, x);
    LeastIdxIsLeftmost(g);
    assert g[m] == x;
    assert LeastIdx(g) == m;
  }

  /** From equal loads, the loops are taken from left to right. */
  lemma {:induction false} LevelFillsFromLeft(n: nat, x: int, m: nat)
    requires 0 < n && m <= n
    ensures Greedy(Level(n, x), m) == Level(m, x + 1) + Level(n - m, x)
    decreases m
  {
    if m > 0 {
      LevelFillsFromLeft(n, x, m - 1);
      FillsNext(n, x, m - 1);
    }
  }

  lemma HeadroomLevels(loads: seq<int>)
    requires loads != []
    ensures Headroom(loads) >= 0
    ensures Greedy(loads, Headroom(loads)) == Level(|loads|, Top(loads))
  {
    var level := Level(|loads|, Top(loads));
    MostIdxIsLeftmost(loads);
    SumLevel(|loads|, Top(loads));
    SumMonotone(loads, level);
    HeadroomIsUsedFirst(loads, Headroom(loads));
    SumMonotone(Greedy(loads, Headroom(loads)), level);
  }

  lemma LevelSparesUntil(n: nat, x: int, m: nat, v: nat)
    requires v < n
    ensures Greedy(Level(n, x), m)[v] == x <==> m <= v
  {
    if m <= v {
      LevelFillsFromLeft(n, x, m);
    } else {
      LevelFillsFromLeft(n, x, v + 1);
      GreedyAddsUp(Level(n, x), v + 1, m - v - 1);
      GreedyGrows(Greedy(Level(n, x), v + 1), m - v - 1, v);
    }
  }

  /** The busiest loop, whose load still counts while its events are handed out again, gets
      none of k events back exactly when k is at most the headroom plus its position. */
  lemma BusiestIsSpared(loads: seq<int>, k: nat)
    requires loads != []
    ensures Greedy(loads, k)[MostIdx(loads)] == Top(loads) <==> k <= Headroom(loads) + MostIdx(loads)
  {
    var h := Headroom(loads);
    HeadroomLevels(loads);
    if k <= h {
      HeadroomIsUsedFirst(loads, k);
    } else {
      GreedyAddsUp(loads, h, k - h);
      LevelSparesUntil(|loads|, Top(loads), k - h, MostIdx(loads));
    }
  }

  // The scale of the resize controllers

  /** Integer division as the source's language does it: towards zero. */
  function TruncDiv(a: int, b: int): int
    requires b != 0
  {
    if a >= 0 || a % b == 0 then a / b
    else if b > 0 then a / b + 1 else a / b - 1
  }

  /** The remainder it leaves is smaller than the divisor and has the sign of the dividend. */
  lemma TruncDivIsTowardsZero(a: int, b: int)
    requires b != 0
    ensures var r := a - TruncDiv(a, b) * b;
      && (if b > 0 then -b < r < b else b < r < -b) && (a >= 0 ==> r >= 0) && (a <= 0 ==> r <= 0)
  {
    var q, r := a / b, a % b;
    assert a == q * b + r;
    assert (q + 1) * b == q * b + b && (q - 1) * b == q * b - b;
  }

  /** Average load over the sum of all loads, times 100, in integers throughout. */
  function Scale(loads: seq<int>, n: int): int
    requires n != 0
  {
    if Sum(loads) == 0 then 0 else TruncDiv(TruncDiv(Sum(loads), n), Sum(loads)) * 100
  }

  lemma QuotientBelow(s: nat, n: nat, q: int, r: nat)
    requires s > 0 && n > 1 && r < n && s == q * n + r
    ensures 0 <= q < s
  {
    if q < 0 {
      Multiples(q, n);
    } else if q > 0 {
      Multiples(q, n - 1);
      assert q * n == q * (n - 1) + q;
    }
  }

  /** Any quotient that leaves such a remainder is the one. */
  lemma TruncDivUnique(a: int, b: int, q: int)
    requires b != 0
    requires var r := a - q * b;
      (if b > 0 then -b < r < b else b < r < -b) && (a >= 0 ==> r >= 0) && (a <= 0 ==> r <= 0)
    ensures TruncDiv(a, b) == q
  {
    var p := TruncDiv(a, b);
    TruncDivIsTowardsZero(a, b);
    assert (p - q) * b == (a - q * b) - (a - p * b);
    if b > 0 {
      Multiples(p - q, b);
    } else {
      assert (p - q) * b == (q - p) * -b;
      Multiples(q - p, -b);
    }
  }

  /** An average over more than one loop is closer to zero than the sum. */
  lemma AverageIsSmaller(s: int, n: nat)
    requires s != 0 && n > 1
    ensures if s > 0 then 0 <= TruncDiv(s, n) < s else s < TruncDiv(s, n) <= 0
  {
    var q := TruncDiv(s, n);
    var r := s - q * n;
    TruncDivIsTowardsZero(s, n);
    if s > 0 {
      QuotientBelow(s, n, q, r);
    } else {
      assert -s == -q * n + -r;
      QuotientBelow(-s, n, -q, -r);
    }
  }

  /** So the scale says nothing but whether there is a single loop with any load at all. */
  lemma ScaleIsAllOrNothing(loads: seq<int>)
    requires loads != []
    ensures Scale(loads, |loads|) == if |loads| == 1 && Sum(loads) != 0 then 100 else 0
  {
    var s, n := Sum(loads), |loads|;
    if s != 0 {
      if n == 1 {
        TruncDivUnique(s, n, s);
        TruncDivUnique(s, s, 1);
      } else {
        AverageIsSmaller(s, n);
        TruncDivUnique(TruncDiv(s, n), s, 0);
      }
    }
  }
}
