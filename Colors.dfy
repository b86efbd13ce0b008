/**
 The colour mapper `to_color`: an escape-iteration count becomes an RGB
 colour. Counts below the iteration limit give a red ramp whose channel is
 the 8-bit truncation of `10 * k`; the limit itself (and anything above it)
 gives black.
 */
module Colors {
  import opened Kernel

  /** An unsigned 8-bit channel value, as `sf::Uint8`. */
  type Byte = x: int | 0 <= x < 256

  /** `sf::Color` restricted to its three colour channels. */
  datatype Color = Color(red: Byte, green: Byte, blue: Byte)

  /** `sf::Color::Black`. */
  const Black: Color := Color(0, 0, 0)

  const Int32Min: int := -0x8000_0000
  const Int32Max: int := 0x7fff_ffff

  predicate InInt32(x: int) {
    Int32Min <= x <= Int32Max
  }

  /**
   `static_cast<sf::Uint8>(v)`: conversion to an unsigned 8-bit type keeps
   the value modulo 256 (it never saturates). Dafny's `%` is Euclidean, so
   the remainder is in [0, 256) also for negative `v`, as the C++ rule
   demands.
   */
  function ToUint8(v: int): (b: Byte)
    ensures (v - b) % 256 == 0
    ensures 0 <= v < 256 ==> b == v
  {
    v % 256
  }

  /**
   `to_color(k)`. The product `10 * k` is computed in C++ `int`, and only on
   the branch below the limit; a signed overflow there is undefined
   behaviour, so a count below the limit must keep it in range (every count
   the kernel produces, 0..256, does). Counts at or above the limit, up to
   the largest `int`, are all well defined and give black.
   */
  function ToColor(k: int): (c: Color)
    requires k < IterationLimit ==> InInt32(10 * k)
    ensures c.green == 0 && c.blue == 0
    ensures k >= IterationLimit ==> c == Black
  {
    if k < IterationLimit then Color(ToUint8(10 * k), 0, 0) else Black
  }

  /** Below the limit the red channel is the 8-bit truncation of `10 * k`. */
  lemma ToColorRed(k: int)
    requires InInt32(10 * k) && k < IterationLimit
    ensures ToColor(k).red == (10 * k) % 256
  {
  }

  /** Counts 0..25 give the undistorted linear ramp 0, 10, ..., 250. */
  lemma ToColorLinearRamp(k: int)
    requires 0 <= k <= 25
    ensures ToColor(k) == Color(10 * k, 0, 0)
  {
  }

  /** The largest `int` is a valid count: the product is never formed, and the colour is black. */
  lemma ToColorOfInt32Max()
    ensures ToColor(Int32Max) == Black
  {
  }

  /** Count 26 already wraps: 260 truncates to 4. */
  lemma ToColorWrapsAt26()
    ensures ToColor(26) == Color(4, 0, 0)
    ensures ToColor(255) == Color(246, 0, 0)
  {
  }

  /**
   The ramp is periodic with period 128 below the limit: since
   10 * 128 = 5 * 256, adding 128 to a count does not change its colour.
   */
  lemma ToColorPeriodic(k: int)
    requires 0 <= k && k + 128 < IterationLimit
    ensures ToColor(k + 128) == ToColor(k)
  {
    assert 10 * (k + 128) == 10 * k + 5 * 256;
    ModAddMultiple(10 * k, 5);
  }

  lemma {:induction false} ModAddMultiple(a: int, m: nat)
    ensures (a + m * 256) % 256 == a % 256
  {
    if m > 0 {
      ModAddMultiple(a, m - 1);
      assert a + m * 256 == (a + (m - 1) * 256) + 256;
    }
  }

  /**
   Exactly which counts are rendered black: the in-set counts (at or above
   the limit) and, because of the wrap-around, every count divisible by 128
   (0 and 128 among the kernel's results), whose red channel truncates to 0.
   */
  lemma ToColorBlackIff(k: int)
    requires k < IterationLimit ==> InInt32(10 * k)
    ensures ToColor(k) == Black <==> k >= IterationLimit || k % 128 == 0
  {
    if k < IterationLimit {
      RedZeroIff(k);
    }
  }

  /** `10 * k` is a multiple of 256 exactly when `k` is a multiple of 128. */
  lemma RedZeroIff(k: int)
    ensures (10 * k) % 256 == 0 <==> k % 128 == 0
  {
    var q := 10 * k / 256;
    var r := 10 * k % 256;
    assert 10 * k == 256 * q + r;
    if r == 0 {
      // 5k = 128q, and 385 = 3 * 128 + 1, so k = 77 * 5k - 384k = 128 (77q - 3k)
      assert 5 * k == 128 * q;
      assert k == 128 * (77 * q - 3 * k);
      MultipleMod(77 * q - 3 * k);
    }
    var m := k / 128;
    var s := k % 128;
    assert k == 128 * m + s;
    if s == 0 {
      assert 10 * k == 256 * (5 * m);
      MultipleMod(2 * 5 * m);
    }
  }

  lemma MultipleMod(m: int)
    ensures (128 * m) % 128 == 0
    ensures (128 * m) % 256 == if m % 2 == 0 then 0 else 128
  {
    var h, t := m / 2, m % 2;
    assert m == 2 * h + t;
    assert 128 * m == 256 * h + 128 * t;
  }
}
