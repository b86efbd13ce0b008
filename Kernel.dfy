/**
 The escape-iteration kernel `mandelbrot(c)`. The complex arithmetic is
 abstracted: `Z` is the type of orbit points, `step(z, c)` stands for
 `z * z + c` and `diverged(z)` for `norm(z) >= 4`. The loop starts with
 `z = c`, so the orbit tested is c, c*c + c, ... and the result is the first
 index whose orbit point diverges, or the limit 256 when none of the first
 256 does.
 */
module Kernel {
  /** The iteration limit of the loop; a count that reaches it means "in the set". */
  const IterationLimit: int := 256

  /** The n-th orbit point: orbit point 0 is `c` itself. */
  function Orbit<Z>(c: Z, step: (Z, Z) -> Z, n: nat): (z: Z)
    ensures n == 0 ==> z == c
  {
    if n == 0 then c else step(Orbit(c, step, n - 1), c)
  }

  /**
   Reference definition of the count: scan the orbit from index `i` and
   stop at the first divergent point or at the limit.
   */
  function EscapeFrom<Z>(c: Z, step: (Z, Z) -> Z, diverged: Z -> bool, i: nat): (r: nat)
    requires i <= IterationLimit
    ensures i <= r <= IterationLimit
    decreases IterationLimit - i
  {
    if i == IterationLimit || diverged(Orbit(c, step, i)) then i
    else EscapeFrom(c, step, diverged, i + 1)
  }

  function EscapeCount<Z>(c: Z, step: (Z, Z) -> Z, diverged: Z -> bool): (r: nat)
    ensures r <= IterationLimit
  {
    EscapeFrom(c, step, diverged, 0)
  }

  /** `r` is the first divergent orbit index below the limit, or the limit if there is none. */
  ghost predicate IsFirstEscape<Z>(c: Z, step: (Z, Z) -> Z, diverged: Z -> bool, r: int) {
    && 0 <= r <= IterationLimit
    && (forall j :: 0 <= j < r ==> !diverged(Orbit(c, step, j)))
    && (r < IterationLimit ==> diverged(Orbit(c, step, r)))
  }

  /** The reference scan from `i` finds the first escape provided none occurs before `i`. */
  lemma {:induction false} EscapeFromIsFirst<Z>(c: Z, step: (Z, Z) -> Z, diverged: Z -> bool, i: nat)
    requires i <= IterationLimit
    requires forall j :: 0 <= j < i ==> !diverged(Orbit(c, step, j))
    ensures IsFirstEscape(c, step, diverged, EscapeFrom(c, step, diverged, i))
    decreases IterationLimit - i
  {
    if i < IterationLimit && !diverged(Orbit(c, step, i)) {
      EscapeFromIsFirst(c, step, diverged, i + 1);
    }
  }

  /** The count is in [0, 256], every orbit point before it stays bounded, and it is divergent unless it is 256. */
  lemma EscapeCountIsFirst<Z>(c: Z, step: (Z, Z) -> Z, diverged: Z -> bool)
    ensures IsFirstEscape(c, step, diverged, EscapeCount(c, step, diverged))
  {
    EscapeFromIsFirst(c, step, diverged, 0);
  }

  /** The first-escape property determines the count: any index that has it is the count. */
  lemma FirstEscapeUnique<Z>(c: Z, step: (Z, Z) -> Z, diverged: Z -> bool, r: int)
    requires IsFirstEscape(c, step, diverged, r)
    ensures r == EscapeCount(c, step, diverged)
  {
    EscapeCountIsFirst(c, step, diverged);
  }

  /** The count is 256 exactly when none of orbit points 0..255 diverges. */
  lemma EscapeCountAtLimit<Z>(c: Z, step: (Z, Z) -> Z, diverged: Z -> bool)
    ensures EscapeCount(c, step, diverged) == IterationLimit
            <==> forall j :: 0 <= j < IterationLimit ==> !diverged(Orbit(c, step, j))
  {
    EscapeCountIsFirst(c, step, diverged);
    var e := EscapeCount(c, step, diverged);
    assert e < IterationLimit ==> diverged(Orbit(c, step, e));
  }

  /** Since `z` starts at `c`, an input that has itself diverged gives count 0. */
  lemma DivergedInputGivesZero<Z>(c: Z, step: (Z, Z) -> Z, diverged: Z -> bool)
    requires diverged(c)
    ensures EscapeCount(c, step, diverged) == 0
  {
  }

  /**
   `mandelbrot(c)`: the counting loop, with `z` starting at `c`. It stops at
   the limit or at the first orbit point whose squared magnitude reaches 4,
   and otherwise moves `z` on to its next orbit point.
   */
  method Mandelbrot<Z>(c: Z, step: (Z, Z) -> Z, diverged: Z -> bool) returns (i: int)
    ensures 0 <= i <= IterationLimit
    ensures forall j :: 0 <= j < i ==> !diverged(Orbit(c, step, j))
    ensures i < IterationLimit ==> diverged(Orbit(c, step, i))
    ensures i == EscapeCount(c, step, diverged)
  {
    i := 0;
    var z := c;
    while i != IterationLimit && !diverged(z)
      invariant 0 <= i <= IterationLimit
      invariant z == Orbit(c, step, i)
      invariant forall j :: 0 <= j < i ==> !diverged(Orbit(c, step, j))
    {
      z := step(z, c);
      i := i + 1;
    }
    FirstEscapeUnique(c, step, diverged, i);
  }

  // ---------------------------------------------------------------------
  // The kernel instantiated with exact complex arithmetic over the reals.
  // For the small integral inputs below, every intermediate value is a small
  // integer, which double arithmetic represents exactly, so these counts are
  // the ones the floating-point kernel computes.

  datatype Complex = Complex(re: real, im: real)

  /** `z * z + c` for `std::complex`; on the real axis it is `x * x + a` and stays on the axis. */
  function SquarePlus(z: Complex, c: Complex): (r: Complex)
    ensures z.im == 0.0 && c.im == 0.0 ==> r == Complex(z.re * z.re + c.re, 0.0)
  {
    Complex(z.re * z.re - z.im * z.im + c.re, 2.0 * z.re * z.im + c.im)
  }

  /** `std::norm(z)`: the squared magnitude, never negative. */
  function Norm(z: Complex): (n: real)
    ensures n >= 0.0
  {
    z.re * z.re + z.im * z.im
  }

  /** On the real axis, `x * x >= 4` exactly when x lies outside (-2, 2). */
  lemma SquareAtLeastFour(x: real)
    ensures x * x >= 4.0 <==> x <= -2.0 || 2.0 <= x
  {
    if x >= 2.0 {
      assert x * x >= 2.0 * x;
    } else if x <= -2.0 {
      assert (-x) * (-x) >= 2.0 * (-x);
      assert (-x) * (-x) == x * x;
    } else if x >= 0.0 {
      assert x * x <= 2.0 * x;
    } else {
      assert (-x) * (-x) <= 2.0 * (-x);
      assert (-x) * (-x) == x * x;
    }
  }

  /**
   The negation of the loop test `norm(z) < 4.`: the point has left the
   disc of radius 2. On the real axis that is |x| >= 2.
   */
  predicate Diverged(z: Complex): (b: bool)
    ensures z.im == 0.0 ==> (b <==> z.re <= -2.0 || 2.0 <= z.re)
  {
    SquareAtLeastFour(z.re);
    Norm(z) >= 4.0
  }

  /** `mandelbrot(c)` with exact complex arithmetic. */
  function CountOf(c: Complex): (k: nat)
    ensures k <= IterationLimit
    ensures Diverged(c) ==> k == 0
  {
    EscapeCount(c, SquarePlus, Diverged)
  }

  /** A scan over an orbit that never diverges from `i` on reaches the limit. */
  lemma {:induction false} BoundedOrbitReachesLimit<Z>(c: Z, step: (Z, Z) -> Z, diverged: Z -> bool, i: nat)
    requires i <= IterationLimit
    requires forall j :: i <= j < IterationLimit ==> !diverged(Orbit(c, step, j))
    ensures EscapeFrom(c, step, diverged, i) == IterationLimit
    decreases IterationLimit - i
  {
    if i < IterationLimit {
      BoundedOrbitReachesLimit(c, step, diverged, i + 1);
    }
  }

  lemma {:induction false} OriginOrbit(n: nat)
    ensures Orbit(Complex(0.0, 0.0), SquarePlus, n) == Complex(0.0, 0.0)
  {
    if n > 0 {
      OriginOrbit(n - 1);
    }
  }

  /** `mandelbrot(0 + 0i)` is 256: the orbit stays at 0. */
  lemma OriginNeverEscapes()
    ensures CountOf(Complex(0.0, 0.0)) == IterationLimit
  {
    forall j | 0 <= j < IterationLimit
      ensures !Diverged(Orbit(Complex(0.0, 0.0), SquarePlus, j))
    {
      OriginOrbit(j);
    }
    BoundedOrbitReachesLimit(Complex(0.0, 0.0), SquarePlus, Diverged, 0);
  }

  /** `(-1)^2 - 1 = 0`. */
  lemma MinusOneToZero()
    ensures SquarePlus(Complex(-1.0, 0.0), Complex(-1.0, 0.0)) == Complex(0.0, 0.0)
  {
  }

  /** `0^2 - 1 = -1`. */
  lemma ZeroToMinusOne()
    ensures SquarePlus(Complex(0.0, 0.0), Complex(-1.0, 0.0)) == Complex(-1.0, 0.0)
  {
  }

  /**
   An orbit whose first step goes from `c` to `b` and whose next step goes
   back to `c` alternates: its even points are `c` and its odd points `b`.
   */
  lemma {:induction false} TwoCycleOrbit(c: Complex, b: Complex, m: nat)
    requires SquarePlus(c, c) == b && SquarePlus(b, c) == c
    ensures Orbit(c, SquarePlus, 2 * m) == c
    ensures Orbit(c, SquarePlus, 2 * m + 1) == b
  {
    if m > 0 {
      TwoCycleOrbit(c, b, m - 1);
      assert 2 * m == (2 * (m - 1) + 1) + 1;
    }
  }

  /** The orbit of -1 alternates: even points are -1, odd points are 0. */
  lemma MinusOneOrbit(m: nat)
    ensures Orbit(Complex(-1.0, 0.0), SquarePlus, 2 * m) == Complex(-1.0, 0.0)
    ensures Orbit(Complex(-1.0, 0.0), SquarePlus, 2 * m + 1) == Complex(0.0, 0.0)
  {
    MinusOneToZero();
    ZeroToMinusOne();
    TwoCycleOrbit(Complex(-1.0, 0.0), Complex(0.0, 0.0), m);
  }

  /** -1 and 0 both have norm below 4. */
  lemma NotDiverged(z: Complex)
    requires z == Complex(-1.0, 0.0) || z == Complex(0.0, 0.0)
    ensures !Diverged(z)
  {
  }

  /** `mandelbrot(-1 + 0i)` is 256: the orbit cycles -1, 0, -1, ... with norm at most 1. */
  lemma MinusOneNeverEscapes()
    ensures CountOf(Complex(-1.0, 0.0)) == IterationLimit
  {
    forall j | 0 <= j < IterationLimit
      ensures !Diverged(Orbit(Complex(-1.0, 0.0), SquarePlus, j))
    {
      MinusOneOrbit(j / 2);
      assert j == 2 * (j / 2) || j == 2 * (j / 2) + 1;
      NotDiverged(Orbit(Complex(-1.0, 0.0), SquarePlus, j));
    }
    BoundedOrbitReachesLimit(Complex(-1.0, 0.0), SquarePlus, Diverged, 0);
  }

  /** `mandelbrot(3 + 0i)` is 0: the orbit's first point is `c` itself, with norm 9. */
  lemma ThreeEscapesAtOnce()
    ensures CountOf(Complex(3.0, 0.0)) == 0
  {
    DivergedInputGivesZero(Complex(3.0, 0.0), SquarePlus, Diverged);
  }

  /** `mandelbrot(1 + 0i)` is 1: the orbit is 1, 2, ..., and 2 is the first point with norm at least 4. */
  lemma OneEscapesAtOne()
    ensures CountOf(Complex(1.0, 0.0)) == 1
  {
    var c := Complex(1.0, 0.0);
    assert Orbit(c, SquarePlus, 1) == Complex(2.0, 0.0);
    FirstEscapeUnique(c, SquarePlus, Diverged, 1);
  }
}
