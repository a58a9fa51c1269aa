/** Whole numbers as double-precision floating-point numbers: 53 significant bits, rounding to the
    nearest and to the even one of two equally near. */
module Doubles {

  /** Up to here every whole number is a double. */
  const EXACT: nat := 0x20_0000_0000_0000

  /** The distance between neighbouring doubles at `n`, for whole numbers. */
  function Unit(n: nat): (u: nat)
    ensures 1 <= u
  {
    if n < EXACT then 1 else 2 * Unit(n / 2)
  }

  /** The multiple of `u` nearest to `q * u + r`. */
  function Nearest(q: nat, r: nat, u: nat): nat {
    if 2 * r < u || (2 * r == u && q % 2 == 0) then q * u else (q + 1) * u
  }

  function RoundTo(n: nat, u: nat): nat
    requires 1 <= u
  {
    Nearest(n / u, n % u, u)
  }

  function ToDouble(n: nat): nat {
    RoundTo(n, Unit(n))
  }

  lemma {:induction false} UnitBounds(n: nat)
    ensures n < EXACT * Unit(n)
    ensures Unit(n) == 1 || EXACT / 2 * Unit(n) <= n
  {
    if EXACT <= n {
      UnitBounds(n / 2);
    }
  }

  lemma {:induction false} UnitsDouble(a: nat, b: nat)
    requires a <= b
    ensures Unit(a) == Unit(b) || 2 * Unit(a) <= Unit(b)
  {
    if EXACT <= a {
      UnitsDouble(a / 2, b / 2);
    }
  }

  lemma Scaled(a: nat, b: nat, u: nat)
    requires a <= b
    ensures a * u <= b * u
  {
    assert 0 <= (b - a) * u == b * u - a * u;
  }

  lemma Cancelled(a: nat, b: nat, u: nat)
    requires a * u < b * u
    ensures a < b
  {
    assert b <= a ==> 0 <= (a - b) * u == a * u - b * u;
  }

  lemma NearestIsNear(q: nat, r: nat, u: nat)
    ensures q * u <= Nearest(q, r, u) <= (q + 1) * u == q * u + u
    ensures forall more: nat | r <= more :: Nearest(q, r, u) <= Nearest(q, more, u)
  {
    assert (q + 1) * u == q * u + u;
  }

  lemma QuotientOrdered(a: nat, b: nat, u: nat)
    requires 1 <= u && a <= b
    ensures a / u < b / u || (a / u == b / u && a % u <= b % u)
  {
    var q, q' := a / u, b / u;
    assert a == q * u + a % u && b == q' * u + b % u && (q' + 1) * u == q' * u + u;
    Cancelled(q, q' + 1, u);
  }

  lemma RoundToOrdered(a: nat, b: nat, u: nat)
    requires 1 <= u && a <= b
    ensures RoundTo(a, u) <= RoundTo(b, u)
  {
    hide Nearest;
    QuotientOrdered(a, b, u);
    NearestIsNear(a / u, a % u, u);
    NearestIsNear(b / u, b % u, u);
    if a / u < b / u {
      Scaled(a / u + 1, b / u, u);
    }
  }

  lemma QuotientBetween(n: nat, u: nat, low: nat, high: nat)
    requires 1 <= u && low * u <= n < high * u
    ensures low <= n / u < high
  {
    var q := n / u;
    assert n == q * u + n % u && (q + 1) * u == q * u + u;
    Cancelled(q, high, u);
    Cancelled(low, q + 1, u);
  }

  lemma RoundToBetween(n: nat, u: nat, low: nat, high: nat)
    requires 1 <= u && low * u <= n < high * u
    ensures low * u <= RoundTo(n, u) <= high * u
  {
    hide Nearest;
    QuotientBetween(n, u, low, high);
    NearestIsNear(n / u, n % u, u);
    Scaled(low, n / u, u);
    Scaled(n / u + 1, high, u);
  }

  /** What the rounding of a number lies between. */
  lemma ToDoubleBounds(n: nat)
    ensures ToDouble(n) <= EXACT * Unit(n)
    ensures Unit(n) == 1 || EXACT / 2 * Unit(n) <= ToDouble(n)
  {
    UnitBounds(n);
    RoundToBetween(n, Unit(n), if Unit(n) == 1 then 0 else EXACT / 2, EXACT);
  }

  /** Rounding keeps order. */
  lemma ToDoubleOrdered(a: nat, b: nat)
    requires a <= b
    ensures ToDouble(a) <= ToDouble(b)
  {
    UnitsDouble(a, b);
    if Unit(a) == Unit(b) {
      RoundToOrdered(a, b, Unit(a));
    } else {
      ToDoubleBounds(a);
      ToDoubleBounds(b);
    }
  }

  lemma NearestError(q: nat, r: nat, u: nat)
    requires r <= u
    ensures 2 * (q * u + r) - u <= 2 * Nearest(q, r, u) <= 2 * (q * u + r) + u
  {
    assert (q + 1) * u == q * u + u;
  }

  /** No double is nearer: the error is at most half the distance between neighbouring doubles. */
  lemma ToDoubleIsNear(n: nat)
    ensures 2 * n - Unit(n) <= 2 * ToDouble(n) <= 2 * n + Unit(n)
  {
    hide Nearest, Unit;
    NearestError(n / Unit(n), n % Unit(n), Unit(n));
    assert n == n / Unit(n) * Unit(n) + n % Unit(n);
  }

  lemma SmallIsExact(n: nat)
    requires n <= EXACT
    ensures ToDouble(n) == n
  {
    if n < EXACT {
      assert RoundTo(n, 1) == n;
    } else {
      assert Unit(n) == 2;
    }
  }

  /** When two neighbours round to different doubles, the gap is more than a 2^54th part of the
      greater, so their quotient rounds to less than one. */
  lemma DistinctNeighbours(n: nat)
    requires 0 < n && ToDouble(n - 1) < ToDouble(n)
    ensures 2 * EXACT * (ToDouble(n) - ToDouble(n - 1)) > ToDouble(n)
  {
    var u, v := Unit(n), Unit(n - 1);
    UnitBounds(n);
    UnitBounds(n - 1);
    UnitsDouble(n - 1, n);
    ToDoubleBounds(n);
    if v == u {
      MultiplesApart(n, n - 1, u);
    } else {
      LastBeforeStep(n, u, v);
    }
  }

  lemma MultiplesApart(a: nat, b: nat, u: nat)
    requires 1 <= u && RoundTo(b, u) < RoundTo(a, u)
    ensures u <= RoundTo(a, u) - RoundTo(b, u)
  {
    var x := MultipleOf(a, u);
    var y := MultipleOf(b, u);
    Cancelled(y, x, u);
    assert (y + 1) * u == y * u + u;
    Scaled(y + 1, x, u);
  }

  lemma MultipleOf(n: nat, u: nat) returns (x: nat)
    requires 1 <= u
    ensures RoundTo(n, u) == x * u
  {
    x := if RoundTo(n, u) == n / u * u then n / u else n / u + 1;
  }

  /** Where the distance between doubles grows, it grows at a double, and the number before it rounds
      up to that double unless it is a double itself. */
  lemma LastBeforeStep(n: nat, u: nat, v: nat)
    requires 0 < n && u == Unit(n) && v == Unit(n - 1) && 2 * v <= u && ToDouble(n - 1) < ToDouble(n)
    ensures ToDouble(n) - ToDouble(n - 1) == 1 && ToDouble(n) == EXACT
  {
    UnitBounds(n);
    UnitBounds(n - 1);
    assert n == EXACT * v && u == 2 * v;
    if v == 1 {
      SmallIsExact(n);
      SmallIsExact(n - 1);
    } else {
      assert n == EXACT / 2 * u + 0;
      assert n - 1 == (EXACT - 1) * v + (v - 1);
      QuotientIs(n, u, EXACT / 2, 0);
      QuotientIs(n - 1, v, EXACT - 1, v - 1);
    }
  }

  lemma QuotientIs(n: nat, u: nat, q: nat, r: nat)
    requires 1 <= u && r < u && n == q * u + r
    ensures n / u == q && n % u == r
  {
    assert (q + 1) * u == q * u + u;
    QuotientBetween(n, u, q, q + 1);
  }
}
