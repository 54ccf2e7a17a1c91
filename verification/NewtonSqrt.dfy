/** The integer square root of exercise 20: Newton's iteration, always 20 rounds. */
module NewtonSqrt {
  import opened CInt
  import opened Powers

  const ROUNDS: nat := 20

  datatype Outcome = Root(r: int) | NegativeSqrt | Overflow

  /** One round, on mathematical integers. */
  function Round(x: nat, r: nat): nat
    requires r > 0
  {
    (r + x / r) / 2
  }

  ghost predicate IsFloorSqrt(x: nat, s: nat) {
    s * s <= x < (s + 1) * (s + 1)
  }

  ghost predicate IsSquare(x: nat) {
    exists k: nat :: k * k == x
  }

  // ---------- one round ----------

  lemma DivBounds(x: nat, r: nat)
    requires r > 0
    ensures (x / r) * r <= x < (x / r) * r + r
  {
  }

  lemma MulLe(r: nat, a: nat, b: nat)
    requires a <= b
    ensures r * a <= r * b && a * r <= b * r
  {
  }

  lemma MulCancel(r: nat, a: nat, b: nat)
    requires r * a < r * b
    ensures a < b
  {
    if b <= a {
      MulLe(r, b, a);
    }
  }

  lemma SquareLe(a: nat, b: nat)
    requires a <= b
    ensures a * a <= b * b
  {
    MulLe(a, a, b);
    MulLe(b, a, b);
  }

  lemma SquareCancel(a: nat, b: nat)
    requires a * a < b * b
    ensures a < b
  {
    if b <= a {
      SquareLe(b, a);
    }
  }

  lemma SumSquared(a: nat, b: nat)
    ensures 4 * (a * b) <= (a + b) * (a + b)
  {
    var d := a - b;
    assert (a + b) * (a + b) - 4 * (a * b) == d * d;
    assert d * d >= 0;
  }

  lemma DoubleSquared(s: nat)
    ensures (2 * s) * (2 * s) == 4 * (s * s)
  {
  }

  lemma AmGm(a: nat, b: nat, s: nat)
    requires a + b <= 2 * s
    ensures a * b <= s * s
  {
    SumSquared(a, b);
    SquareLe(a + b, 2 * s);
    DoubleSquared(s);
  }

  /** No round falls below the floor of the square root, from any positive start. */
  lemma RoundAbove(x: nat, r: nat, s: nat)
    requires r >= 1 && IsFloorSqrt(x, s)
    ensures Round(x, r) >= s
  {
    var q := x / r;
    DivBounds(x, r);
    assert r * (q + 1) == q * r + r;
    if r + (q + 1) <= 2 * s {
      AmGm(r, q + 1, s);
    }
  }

  /** Above s + 1 the distance d to w = s + 1 obeys 2 * r * d' < d * d. */
  lemma RoundContracts(x: nat, r: nat, w: nat)
    requires w * w > x && r > w
    ensures 2 * r * (Round(x, r) - w) < (r - w) * (r - w)
  {
    var q := x / r;
    DivBounds(x, r);
    var n := Round(x, r);
    assert 2 * n <= r + q;
    calc {
      2 * r * (n - w);
    ==
      r * (2 * n) - 2 * r * w;
    <= { assert r * (2 * n) <= r * (r + q); }
      r * (r + q) - 2 * r * w;
    ==
      r * r + q * r - 2 * r * w;
    <
      r * r + w * w - 2 * r * w;
    ==
      (r - w) * (r - w);
    }
  }

  lemma RoundFromAbove(x: nat, s: nat)
    requires s >= 1 && IsFloorSqrt(x, s)
    ensures Round(x, s + 1) == s
  {
    var q := x / (s + 1);
    DivBounds(x, s + 1);
    assert (s + 1) * q < (s + 1) * (s + 1);
    MulCancel(s + 1, q, s + 1);
    assert (s + 1) * (s - 1) == s * s - 1;
    assert (s + 1) * (s - 1) < (s + 1) * (q + 1);
    MulCancel(s + 1, s - 1, q + 1);
  }

  lemma RootProducts(s: nat)
    ensures s * (s + 2) == s * s + 2 * s && s * (s + 3) == s * s + 3 * s
    ensures (s + 1) * (s + 1) == s * s + 2 * s + 1
  {
  }

  lemma QuotientByRoot(x: nat, s: nat)
    requires s >= 1 && IsFloorSqrt(x, s)
    ensures s <= x / s <= s + 2
    ensures x / s == s + 2 <==> x + 1 == (s + 1) * (s + 1)
  {
    var q, y := x / s, s * s;
    DivBounds(x, s);
    RootProducts(s);
    assert s * (q + 1) == q * s + s;
    MulCancel(s, s, q + 1);
    MulCancel(s, q, s + 3);
    if x + 1 == (s + 1) * (s + 1) {
      MulCancel(s, s + 2, q + 1);
    } else {
      MulCancel(s, q, s + 2);
    }
  }

  lemma RoundFromRoot(x: nat, s: nat)
    requires s >= 1 && IsFloorSqrt(x, s)
    ensures Round(x, s) == if x + 1 == (s + 1) * (s + 1) then s + 1 else s
  {
    QuotientByRoot(x, s);
  }

  /** Once at s or s + 1 the iteration stays there; it leaves s only if x + 1 is a square. */
  lemma RoundAbsorbs(x: nat, r: nat, s: nat)
    requires s >= 1 && IsFloorSqrt(x, s) && s <= r <= s + 1
    ensures r == s + 1 ==> Round(x, r) == s
    ensures r == s ==> Round(x, r) == if x + 1 == (s + 1) * (s + 1) then s + 1 else s
  {
    RoundFromAbove(x, s);
    RoundFromRoot(x, s);
  }

  lemma RoundPositive(x: nat, r: nat)
    requires x >= 1 && r >= 1
    ensures Round(x, r) >= 1
  {
    if r == 1 {
      assert x / 1 == x;
    }
  }

  // ---------- n rounds ----------

  function Rounds(x: nat, r: nat, n: nat): (v: nat)
    requires x >= 1 && r >= 1
    ensures v >= 1
  {
    if n == 0 then r
    else
      var v := Rounds(x, r, n - 1);
      RoundPositive(x, v);
      Round(x, v)
  }

  /** From x on, r never drops below floor(sqrt x), whatever the number of rounds. */
  lemma {:induction false} NeverBelow(x: nat, s: nat, n: nat)
    requires x >= 1 && IsFloorSqrt(x, s)
    ensures Rounds(x, x, n) >= s
  {
    if n == 0 {
      assert s == 0 || s <= s * s;
    } else {
      RoundAbove(x, Rounds(x, x, n - 1), s);
    }
  }

  /** {s, s + 1} is never left once entered. */
  lemma {:induction false} StaysNear(x: nat, s: nat, n: nat, m: nat)
    requires x >= 1 && IsFloorSqrt(x, s) && n <= m && Rounds(x, x, n) <= s + 1
    ensures Rounds(x, x, m) <= s + 1
    decreases m
  {
    NeverBelow(x, s, m);
    if n < m {
      StaysNear(x, s, n, m - 1);
      NeverBelow(x, s, m - 1);
      assert s >= 1;
      RoundAbsorbs(x, Rounds(x, x, m - 1), s);
    }
  }

  /** The distance to w after n rounds, zero once w is reached. */
  function Distance(x: nat, w: nat, n: nat): nat
    requires x >= 1
  {
    var r := Rounds(x, x, n);
    if r > w then r - w else 0
  }

  /** Each round squares the distance, relative to 2w. */
  lemma DistanceSquares(x: nat, s: nat, n: nat)
    requires x >= 1 && IsFloorSqrt(x, s)
    ensures var w := s + 1;
      var d, d' := Distance(x, w, n), Distance(x, w, n + 1);
      2 * (w + d) * d' <= d * d
  {
    var w, r := s + 1, Rounds(x, x, n);
    var d, d' := Distance(x, w, n), Distance(x, w, n + 1);
    if r <= w {
      StaysNear(x, s, n, n + 1);
    } else {
      RoundContracts(x, r, w);
      if d' == 0 {
        assert 2 * (w + d) * d' == 0 <= d * d;
      }
    }
  }

  lemma HalfOf(w: nat, d: nat, d': nat)
    requires w > 0 && 2 * (w + d) * d' <= d * d
    ensures 2 * d' <= d
  {
    assert (w + d) * (2 * d') == 2 * (w + d) * d';
    assert (w + d) * (d + 1) == w * d + w + d * d + d;
    assert w * d >= 0;
    MulCancel(w + d, 2 * d', d + 1);
  }

  lemma HalveStep(d0: nat, d: nat, d': nat, p: nat)
    requires d * p <= d0 && 2 * d' <= d
    ensures d' * (2 * p) <= d0
  {
    MulLe(p, 2 * d', d);
    assert d' * (2 * p) == (2 * d') * p;
  }

  lemma {:induction false} Halving(x: nat, s: nat, n: nat)
    requires x >= 1 && IsFloorSqrt(x, s)
    ensures Distance(x, s + 1, n) * Pow2(n) <= Distance(x, s + 1, 0)
  {
    if n > 0 {
      Halving(x, s, n - 1);
      DistanceSquares(x, s, n - 1);
      HalfOf(s + 1, Distance(x, s + 1, n - 1), Distance(x, s + 1, n));
      HalveStep(Distance(x, s + 1, 0), Distance(x, s + 1, n - 1), Distance(x, s + 1, n), Pow2(n - 1));
    }
  }

  lemma DropSecondTerm(w: nat, d: nat, d': nat)
    requires 2 * (w + d) * d' <= d * d
    ensures 2 * w * d' <= d * d
  {
    MulLe(2 * d', w, w + d);
    assert 2 * d' * w == 2 * w * d' && 2 * d' * (w + d) == 2 * (w + d) * d';
  }

  /** A distance of at most w / c becomes one of at most w / (2 * c * c). */
  lemma SquareStep(w: nat, d: nat, d': nat, c: nat)
    requires w > 0 && c * d <= w && 2 * (w + d) * d' <= d * d
    ensures 2 * c * c * d' <= w
  {
    DropSecondTerm(w, d, d');
    SquareLe(c * d, w);
    assert (c * d) * (c * d) == (c * c) * (d * d);
    MulLe(c * c, 2 * w * d', d * d);
    assert (c * c) * (2 * w * d') == w * (2 * c * c * d');
    assert w * (2 * c * c * d') < w * (w + 1);
    MulCancel(w, 2 * c * c * d', w + 1);
  }

  /** 46340 / 32768 < 1.42, so 15 halvings leave a distance of at most 1.42 * w. */
  lemma AfterHalvings(w: nat, d0: nat, d: nat)
    requires 1 <= w <= 46341 && d0 <= w * w - w && d * 32768 <= d0
    ensures 100 * d <= 142 * w
  {
    assert w * w - w == w * (w - 1);
    MulLe(w, w - 1, 46340);
  }

  lemma ExpandProduct(w: int, d: int)
    ensures (142 * w - 100 * d) * (1200 * d + 704 * w) == 100000 * (w * d) + 99968 * (w * w) - 120000 * (d * d)
  {
  }

  lemma QuadraticBound(w: nat, d: nat)
    requires 100 * d <= 142 * w
    ensures 12 * (d * d) <= 10 * (w * d) + 10 * (w * w)
  {
    ExpandProduct(w, d);
    MulLe(1200 * d + 704 * w, 0, 142 * w - 100 * d);
    MulLe(w, 0, w);
  }

  /** From a distance of at most 1.42 * w the next one is at most 5/12 * w. */
  lemma FirstSquareStep(w: nat, d: nat, d': nat)
    requires w > 0 && 100 * d <= 142 * w && 2 * (w + d) * d' <= d * d
    ensures 12 * d' <= 5 * w
  {
    QuadraticBound(w, d);
    assert (w + d) * (10 * w + 1) == 10 * (w * d) + 10 * (w * w) + (w + d);
    assert (w + d) * (24 * d') == 12 * (2 * (w + d) * d');
    MulCancel(w + d, 24 * d', 10 * w + 1);
  }

  lemma SecondSquareStep(w: nat, d: nat, d': nat)
    requires w > 0 && 12 * d <= 5 * w && 2 * (w + d) * d' <= d * d
    ensures 11 * d' <= w
  {
    DropSecondTerm(w, d, d');
    SquareLe(12 * d, 5 * w);
    assert (12 * d) * (12 * d) == 144 * (d * d) && (5 * w) * (5 * w) == 25 * (w * w);
    assert w * (288 * d') == 144 * (2 * w * d');
    assert w * (25 * w) == 25 * (w * w);
    assert w * (25 * w) < w * (25 * w + 1);
    MulCancel(w, 288 * d', 25 * w + 1);
  }

  lemma FourSquarings(w: nat, d0: nat, d15: nat, d16: nat, d17: nat, d18: nat, d19: nat)
    requires 1 <= w <= 46341 && d0 <= w * w - w && d15 * 32768 <= d0
    requires 2 * (w + d15) * d16 <= d15 * d15 && 2 * (w + d16) * d17 <= d16 * d16
    requires 2 * (w + d17) * d18 <= d17 * d17 && 2 * (w + d18) * d19 <= d18 * d18
    ensures d19 == 0
  {
    AfterHalvings(w, d0, d15);
    FirstSquareStep(w, d15, d16);
    SecondSquareStep(w, d16, d17);
    SquareStep(w, d17, d18, 11);
    SquareStep(w, d18, d19, 242);
  }

  lemma PowerFifteen()
    ensures Pow2(15) == 32768
  {
    assert Pow2(8) == 256;
  }

  lemma StartDistance(x: nat, s: nat)
    requires x >= 1 && IsFloorSqrt(x, s)
    ensures Distance(x, s + 1, 0) <= (s + 1) * (s + 1) - (s + 1)
  {
    assert (s + 1) * (s + 1) >= s + 1;
  }

  /** 15 halvings and 4 squarings bring every x up to INT_MAX down to s + 1. */
  lemma NineteenRoundsReach(x: nat, s: nat)
    requires 1 <= x <= INT_MAX && IsFloorSqrt(x, s)
    ensures Rounds(x, x, 19) <= s + 1
  {
    var w := s + 1;
    SquareCancel(s, 46341);
    Halving(x, s, 15);
    PowerFifteen();
    StartDistance(x, s);
    DistanceSquares(x, s, 15);
    DistanceSquares(x, s, 16);
    DistanceSquares(x, s, 17);
    DistanceSquares(x, s, 18);
    FourSquarings(w, Distance(x, w, 0), Distance(x, w, 15), Distance(x, w, 16),
                  Distance(x, w, 17), Distance(x, w, 18), Distance(x, w, 19));
  }

  // ---------- what the 20 rounds return ----------

  lemma SquareAfter(x: nat, s: nat)
    requires IsFloorSqrt(x, s)
    ensures IsSquare(x + 1) <==> x + 1 == (s + 1) * (s + 1)
  {
    if k: nat :| k * k == x + 1 {
      SquareCancel(s, k);
      assert (s + 2) * (s + 2) == (s + 1) * (s + 1) + 2 * s + 3;
      SquareCancel(k, s + 2);
    }
  }

  /** From a round that has arrived: constant if x + 1 is no square, alternating if it is. */
  lemma AfterArrival(x: nat, s: nat, n: nat)
    requires x >= 1 && IsFloorSqrt(x, s) && Rounds(x, x, n) <= s + 1
    ensures Rounds(x, x, n) == s || Rounds(x, x, n) == s + 1
    ensures Rounds(x, x, n) == s + 1 ==> Rounds(x, x, n + 1) == s
    ensures Rounds(x, x, n) == s ==> Rounds(x, x, n + 1) == if IsSquare(x + 1) then s + 1 else s
  {
    NeverBelow(x, s, n);
    SquareAfter(x, s);
    RoundAbsorbs(x, Rounds(x, x, n), s);
  }

  /** If x + 1 is not a perfect square the result is floor(sqrt x), after 20 rounds or more. */
  lemma {:induction false} ExactUnlessSquare(x: nat, s: nat, n: nat)
    requires 1 <= x <= INT_MAX && IsFloorSqrt(x, s) && !IsSquare(x + 1) && n >= 20
    ensures Rounds(x, x, n) == s
  {
    NineteenRoundsReach(x, s);
    StaysNear(x, s, 19, n - 1);
    AfterArrival(x, s, n - 1);
  }

  /** The iteration settles on floor(sqrt x) exactly when x + 1 is not a perfect square;
      otherwise it alternates between floor(sqrt x) and one more. */
  lemma SettlesIff(x: nat, s: nat)
    requires 1 <= x <= INT_MAX && IsFloorSqrt(x, s)
    ensures (forall n :: n >= 20 ==> Rounds(x, x, n) == s) <==> !IsSquare(x + 1)
    ensures IsSquare(x + 1) ==> {Rounds(x, x, 20), Rounds(x, x, 21)} == {s, s + 1}
  {
    NineteenRoundsReach(x, s);
    StaysNear(x, s, 19, 20);
    AfterArrival(x, s, 20);
    if !IsSquare(x + 1) {
      forall n | n >= 20
        ensures Rounds(x, x, n) == s
      {
        ExactUnlessSquare(x, s, n);
      }
    }
  }

  // ---------- x + 1 a perfect square: the result depends on a parity ----------

  function Quotient(a: nat, r: nat): nat
    requires r > 0
  {
    a / r
  }

  /** The next distance above w, for x = w * w - 1. */
  function StepDown(w: nat, d: nat): nat
    requires d >= 1
  {
    SquareLe(1, d);
    Quotient(d * d - 1, 2 * (w + d))
  }

  lemma DivUnique(a: nat, r: nat, q: nat, f: nat)
    requires r > 0 && a == r * q + f && f < r
    ensures a / r == q
  {
    var p := a / r;
    DivBounds(a, r);
    assert r * (p + 1) == r * p + r && r * (q + 1) == r * q + r;
    MulCancel(r, q, p + 1);
    MulCancel(r, p, q + 1);
  }

  lemma HalfTimes(r: nat, e: nat)
    ensures r * e == (2 * r) * (e / 2) + r * (e % 2)
  {
    var h, b := e / 2, e % 2;
    assert e == 2 * h + b;
    assert r * (2 * h + b) == (2 * r) * h + r * b;
  }

  lemma HalfQuotient(a: nat, r: nat)
    requires r > 0
    ensures (a / r) / 2 == a / (2 * r)
  {
    var e := a / r;
    var f := a - e * r;
    DivBounds(a, r);
    HalfTimes(r, e);
    var g := if e % 2 == 0 then f else r + f;
    DivUnique(a, 2 * r, e / 2, g);
  }

  lemma NotNegative(r: nat, q: int, f: nat)
    requires r > 0 && f < r && r * q + f >= 0
    ensures q >= 0
  {
    assert q <= -1 ==> r * q + r <= 0;
  }

  lemma ProductAround(w: nat, d: nat)
    ensures w * w - 1 == (w + d) * (w - d) + (d * d - 1)
  {
  }

  /** On x = w * w - 1 the distance d above w becomes (d * d - 1) / (2 * (w + d)). */
  lemma DistanceRecurrence(x: nat, w: nat, d: nat)
    requires w >= 1 && x + 1 == w * w && d >= 1
    ensures Round(x, w + d) == w + StepDown(w, d)
  {
    SquareLe(1, d);
    var r, a := w + d, d * d - 1;
    var e := a / r;
    DivBounds(a, r);
    ProductAround(w, d);
    assert r * (w - d + e) == r * (w - d) + e * r;
    NotNegative(r, w - d + e, a - e * r);
    DivUnique(x, r, w - d + e, a - e * r);
    HalfQuotient(a, r);
  }

  /** How often the distance d steps down until it is zero, at most `fuel` times. */
  function Descent(w: nat, d: int, fuel: nat): (n: nat)
    ensures n <= fuel
    decreases fuel
  {
    if fuel == 0 || d <= 0 then 0 else 1 + Descent(w, StepDown(w, d), fuel - 1)
  }

  lemma {:induction false} RoundsShift(x: nat, r: nat, n: nat)
    requires x >= 1 && r >= 1
    ensures Round(x, r) >= 1
    ensures Rounds(x, r, n + 1) == Rounds(x, Round(x, r), n)
  {
    RoundPositive(x, r);
    if n > 0 {
      RoundsShift(x, r, n - 1);
    }
  }

  /** The descent brings r down to w exactly. */
  lemma {:induction false} DescentArrives(x: nat, w: nat, d: nat, fuel: nat)
    requires w >= 1 && x >= 1 && x + 1 == w * w && Rounds(x, w + d, fuel) <= w
    ensures Rounds(x, w + d, Descent(w, d, fuel)) == w
    decreases fuel
  {
    if fuel > 0 && d > 0 {
      DistanceRecurrence(x, w, d);
      var next := StepDown(w, d);
      RoundsShift(x, w + d, fuel - 1);
      DescentArrives(x, w, next, fuel - 1);
      RoundsShift(x, w + d, Descent(w, next, fuel - 1));
    }
  }

  ghost predicate Flips(v: nat -> nat, s: nat, k: nat) {
    (v(k) == s + 1 ==> v(k + 1) == s) && (v(k) == s ==> v(k + 1) == s + 1)
  }

  lemma {:induction false} FlipsAlternate(v: nat -> nat, s: nat, n: nat, m: nat)
    requires n <= m && v(n) == s + 1 && forall k: nat :: n <= k < m ==> Flips(v, s, k)
    ensures v(m) == if (m - n) % 2 == 0 then s + 1 else s
    decreases m
  {
    if n < m {
      FlipsAlternate(v, s, n, m - 1);
      assert Flips(v, s, m - 1);
    }
  }

  function RoundsFrom(x: nat): nat -> nat
    requires x >= 1
  {
    (n: nat) => Rounds(x, x, n)
  }

  lemma RoundsFlip(x: nat, s: nat, n: nat)
    requires x >= 1 && IsFloorSqrt(x, s) && IsSquare(x + 1) && Rounds(x, x, n) <= s + 1
    ensures Flips(RoundsFrom(x), s, n)
  {
    AfterArrival(x, s, n);
  }

  lemma Alternates(x: nat, s: nat, n: nat, m: nat)
    requires x >= 1 && IsFloorSqrt(x, s) && IsSquare(x + 1) && Rounds(x, x, n) == s + 1 && n <= m
    ensures Rounds(x, x, m) == if (m - n) % 2 == 0 then s + 1 else s
  {
    var v := RoundsFrom(x);
    forall k: nat | n <= k < m
      ensures Flips(v, s, k)
    {
      StaysNear(x, s, n, k);
      RoundsFlip(x, s, k);
    }
    FlipsAlternate(v, s, n, m);
  }

  lemma BelowSquare(x: nat, s: nat)
    requires x >= 1 && x + 1 == (s + 1) * (s + 1)
    ensures s >= 1 && x >= s + 1
  {
    assert x + 1 == s * (s + 1) + s + 1;
    assert s == 0 ==> x + 1 == 1;
    MulLe(s + 1, 1, s);
  }

  /** Is the result right after n rounds?  If x + 1 is not a perfect square; if it is, with root
      w = s + 1, when the number of rounds left after the descent from x to w is odd. */
  ghost predicate RightAfter(x: nat, s: nat, n: nat) {
    !IsSquare(x + 1) || (n - Descent(s + 1, x - (s + 1), n)) % 2 == 1
  }

  /** After n rounds, n = 20 in the program, the root is floor(sqrt x) if and only if x + 1 is not
      a perfect square, or it is and the descent leaves an odd number of rounds. */
  lemma CorrectIff(x: nat, s: nat, n: nat)
    requires 1 <= x <= INT_MAX && IsFloorSqrt(x, s) && n >= 20
    ensures Rounds(x, x, n) == s <==> RightAfter(x, s, n)
  {
    if IsSquare(x + 1) {
      NineteenRoundsReach(x, s);
      StaysNear(x, s, 19, n);
      SquareAfter(x, s);
      BelowSquare(x, s);
      var d := x - (s + 1);
      assert Rounds(x, s + 1 + d, n) == Rounds(x, x, n);
      DescentArrives(x, s + 1, d, n);
      Alternates(x, s, Descent(s + 1, d, n), n);
    } else {
      ExactUnlessSquare(x, s, n);
    }
  }

  /** A wrong result: the root printed for 8 is 3. */
  lemma EightIsWrong(x: nat)
    requires x == 8
    ensures IsFloorSqrt(x, 2) && Rounds(x, x, 20) == 3
  {
    assert 3 * 3 == 9;
    assert Round(x, 8) == 4 && Round(x, 4) == 3;
    assert Rounds(x, x, 1) == 4;
    assert Rounds(x, x, 2) == 3;
    Alternates(x, 2, 2, 20);
  }

  /** For 3 the same situation gives the right result. */
  lemma ThreeIsRight(x: nat)
    requires x == 3
    ensures IsFloorSqrt(x, 1) && Rounds(x, x, 20) == 1
  {
    assert 2 * 2 == 4;
    assert Rounds(x, x, 1) == 2;
    Alternates(x, 1, 1, 20);
  }

  ghost function FloorSqrt(x: nat): (s: nat)
    ensures IsFloorSqrt(x, s)
  {
    if x == 0 then 0
    else
      var s := FloorSqrt(x - 1);
      assert (s + 2) * (s + 2) == (s + 1) * (s + 1) + 2 * s + 3;
      if x < (s + 1) * (s + 1) then s else s + 1
  }

  lemma FloorUnique(x: nat, s: nat, r: nat)
    requires IsFloorSqrt(x, s)
    ensures IsFloorSqrt(x, r) <==> r == s
  {
    if IsFloorSqrt(x, r) {
      SquareCancel(s, r + 1);
      SquareCancel(r, s + 1);
    }
  }

  /** The result of 20 rounds or more: floor(sqrt x), or one more where x + 1 is its square. */
  lemma ResultIs(x: nat, s: nat, n: nat)
    requires 1 <= x <= INT_MAX && IsFloorSqrt(x, s) && n >= 20
    ensures var r := Rounds(x, x, n);
      && (r == s || (r == s + 1 && x + 1 == r * r))
      && (IsFloorSqrt(x, r) <==> RightAfter(x, s, n))
  {
    NineteenRoundsReach(x, s);
    StaysNear(x, s, 19, n);
    NeverBelow(x, s, n);
    CorrectIff(x, s, n);
    FloorUnique(x, s, Rounds(x, x, n));
    if IsSquare(x + 1) {
      SquareAfter(x, s);
    }
  }

  // ---------- the program ----------

  lemma SumOfFactors(r: nat, q: nat)
    requires r >= 1 && q >= 1
    ensures r + q <= q * r + 1
  {
    MulLe(r - 1, 0, q - 1);
    assert (r - 1) * (q - 1) == q * r - r - q + 1;
  }

  /** r + x / r fits an int exactly when x is not INT_MAX: the largest sum is the first, x + 1. */
  lemma SumBound(x: nat, r: nat)
    requires 1 <= r <= x
    ensures r + x / r <= x + 1
  {
    var q := x / r;
    DivBounds(x, r);
    MulCancel(r, 0, q + 1);
    if q >= 1 {
      SumOfFactors(r, q);
    }
  }

  lemma {:induction false} RoundsBound(x: nat, n: nat)
    requires x >= 1
    ensures 1 <= Rounds(x, x, n) <= x
  {
    if n > 0 {
      RoundsBound(x, n - 1);
      SumBound(x, Rounds(x, x, n - 1));
    }
  }

  /** The loop on 32-bit ints.  The error exit of the source is NegativeSqrt; a sum that does not
      fit an int is undefined in C and is reported as Overflow here. */
  method RiskySqrtApprox(x: int) returns (o: Outcome)
    requires x <= INT_MAX
    ensures x < 0 ==> o == NegativeSqrt
    ensures x == 0 ==> o == Root(0)
    ensures x == INT_MAX <==> o == Overflow
    ensures 1 <= x < INT_MAX ==> o == Root(Rounds(x, x, 20))
    ensures 1 <= x < INT_MAX ==> o.r == FloorSqrt(x) || (o.r == FloorSqrt(x) + 1 && x + 1 == o.r * o.r)
    ensures 1 <= x < INT_MAX ==> (IsFloorSqrt(x, o.r) <==> RightAfter(x, FloorSqrt(x), 20))
  {
    if x < 0 {
      return NegativeSqrt;
    }
    if x == 0 {
      return Root(0);
    }
    var r := x;
    var i := 0;
    while i < ROUNDS
      invariant 0 <= i <= ROUNDS && r == Rounds(x, x, i)
      invariant x == INT_MAX ==> i == 0
    {
      RoundsBound(x, i);
      SumBound(x, r);
      if r + x / r > INT_MAX {
        return Overflow;
      }
      r := (r + x / r) / 2;
      i := i + 1;
    }
    ResultIs(x, FloorSqrt(x), ROUNDS);
    return Root(r);
  }
}
