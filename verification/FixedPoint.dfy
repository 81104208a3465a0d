/**
  Integer square root, reciprocal square root and vector normalisation (include/math/fixed_point.h, vec3_q16.h).

  A Q16.16 number is a 32-bit integer counting 2^-16ths. Machine words are integers with their ranges stated.
*/
module FixedPoint {
  import opened Arith

  const TWO16 := 0x1_0000
  const TWO31 := 0x8000_0000
  const TWO32 := 0x1_0000_0000
  const TWO48 := 0x1_0000_0000_0000
  const TWO63 := 0x8000_0000_0000_0000
  const TWO64 := 0x1_0000_0000_0000_0000

  predicate Int32(x: int) {
    -TWO31 <= x < TWO31
  }

  predicate Int64(x: int) {
    -TWO63 <= x < TWO63
  }

  /** Conversion to int32_t. */
  function Wrap32(x: int): (r: int)
    ensures Int32(r) && (Int32(x) ==> r == x)
  {
    (x + TWO31) % TWO32 - TWO31
  }

  /** Signed 64-bit arithmetic keeps the low 64 bits. */
  function Wrap64(x: int): (r: int)
    ensures Int64(r) && (Int64(x) ==> r == x)
  {
    (x + TWO63) % TWO64 - TWO63
  }

  /** Unsigned 64-bit words: every operation on them below is proved to stay in range. */
  newtype u64 = x: int | 0 <= x < 0x1_0000_0000_0000_0000

  // ---- the square root ----

  /** r is the floor of the square root of x. */
  predicate IsRoot(r: int, x: int) {
    0 <= r && r * r <= x < (r + 1) * (r + 1)
  }

  lemma RootUnique(r: int, s: int, x: int)
    requires IsRoot(r, x) && IsRoot(s, x)
    ensures r == s
  {
    SquareMonotone(r + 1, s);
    SquareMonotone(s + 1, r);
  }

  lemma SquareMonotone(a: int, b: int)
    requires 0 <= a
    ensures a <= b ==> a * a <= b * b
  {
    if a <= b {
      MulMonotone(a, b, a);
      MulMonotone(a, b, b);
    }
  }

  /** A root of a bounded number is bounded. */
  lemma RootBound(r: int, x: int, b: int)
    requires IsRoot(r, x) && 0 <= b && x < b * b
    ensures r < b
  {
    SquareMonotone(b, r);
  }

  /** The partial root is `root`, its next bit is worth p/2, and the code's registers say so: res = root*p,
      bit = p*p/4, x = n - root^2. */
  ghost predicate Partial(n: int, root: int, p: int, x: int, res: int, bit: int) {
    && 0 <= root && 1 <= p && root + p <= TWO32
    && res == root * p && x == n - root * root && 0 <= x && n < (root + p) * (root + p)
    && (bit == 0 ==> p == 1) && (bit > 0 ==> 4 * bit == p * p)
    && 0 <= bit && Power2(p)
  }

  predicate Power2(p: int) {
    p == 1 || (p > 1 && p % 2 == 0 && Power2(p / 2))
  }

  lemma FourProduct(a: int, b: int)
    ensures 4 * (a * b) <= (a + b) * (a + b)
  {
    var d := a - b;
    SquareMonotone(0, if d < 0 then -d else d);
    assert a == b + d;
    assert (a + b) * (a + b) == 4 * (a * b) + d * d;
  }

  lemma ProductBound(root: int, p: int)
    requires 0 <= root && 0 <= p && root + p <= TWO32
    ensures root * p <= 0x4000_0000_0000_0000 && p * p <= TWO64
  {
    SquareMonotone(root + p, TWO32);
    SquareMonotone(p, TWO32);
    FourProduct(root, p);
  }

  /** One turn of the second loop decides one bit of the root. */
  lemma DecideBit(n: int, root: int, p: int, x: int, res: int, bit: int)
    requires Partial(n, root, p, x, res, bit) && bit > 0
    ensures p % 2 == 0
    ensures res + bit < TWO64
    ensures x >= res + bit ==> Partial(n, root + p / 2, p / 2, x - (res + bit), res / 2 + bit, bit / 4)
    ensures x < res + bit ==> Partial(n, root, p / 2, x, res / 2, bit / 4)
  {
    ProductBound(root, p);
    var t := p / 2;
    if p == 1 {
      assert false;
    }
    assert p == 2 * t;
    assert bit == t * t by {
      assert p * p == 4 * (t * t);
    }
    assert res == 2 * (root * t) by {
      assert root * p == 2 * (root * t);
    }
    assert (root + t) * (root + t) == root * root + res + bit;
    NextBit(bit, t);
    assert (root + t) * t == root * t + t * t;
    assert (root + t) + t == root + p;
  }

  lemma NextBit(bit: int, t: int)
    requires bit == t * t && t >= 1 && Power2(t)
    ensures bit / 4 == 0 ==> t == 1
    ensures bit / 4 > 0 ==> 4 * (bit / 4) == t * t
  {
    if t > 1 {
      QuarterOfSquare(t / 2, t, bit);
    }
  }

  lemma QuarterOfSquare(h: int, t: int, bit: int)
    requires h >= 1 && t == 2 * h && bit == t * t
    ensures bit / 4 == h * h >= 1 && 4 * (h * h) == bit
  {
    var q := h * h;
    assert t * t == 4 * q;
    SquareMonotone(1, h);
  }

  /** fx_isqrt64. */
  method Isqrt64(n: u64) returns (r: u64)
    ensures IsRoot(r as int, n as int) && r < 0x1_0000_0000
    ensures r as int * r as int <= n as int < (r as int + 1) * (r as int + 1)
  {
    var x, res, bit: u64 := n, 0, 0x4000_0000_0000_0000;
    ghost var p := TWO32;
    TopBit();
    while bit > x
      invariant x == n && res == 0 && Partial(n as int, 0, p, x as int, 0, bit as int)
    {
      FirstBit(n as int, p, bit as int);
      bit := bit / 4;
      p := p / 2;
    }
    ghost var root := 0;
    while bit != 0
      invariant Partial(n as int, root, p, x as int, res as int, bit as int)
    {
      DecideBit(n as int, root, p, x as int, res as int, bit as int);
      if x >= res + bit {
        x := x - (res + bit);
        res := res / 2 + bit;
        root := root + p / 2;
      } else {
        res := res / 2;
      }
      bit := bit / 4;
      p := p / 2;
    }
    r := res;
  }

  lemma Twice(p: int)
    requires p >= 1 && Power2(p)
    ensures Power2(2 * p)
  {
  }

  lemma SixteenTimes(p: int)
    requires p >= 1 && Power2(p)
    ensures Power2(16 * p)
  {
    Twice(p);
    Twice(2 * p);
    Twice(4 * p);
    Twice(8 * p);
  }

  lemma TopBit()
    ensures Power2(TWO32)
  {
    SixteenTimes(1);
    SixteenTimes(0x10);
    SixteenTimes(0x100);
    SixteenTimes(0x1000);
    SixteenTimes(0x1_0000);
    SixteenTimes(0x10_0000);
    SixteenTimes(0x100_0000);
    SixteenTimes(0x1000_0000);
  }

  /** A turn of the first loop: a bit above the number cannot be in its root. */
  lemma FirstBit(n: int, p: int, bit: int)
    requires Partial(n, 0, p, n, 0, bit) && bit > n
    ensures Partial(n, 0, p / 2, n, 0, bit / 4)
  {
    DecideBit(n, 0, p, n, 0, bit);
  }

  // ---- q16_sqrt and q16_rsqrt ----

  /** q16_sqrt: the floor of the root in 2^-16ths. */
  method Sqrt(x: int) returns (r: int)
    requires Int32(x)
    ensures x <= 0 ==> r == 0
    ensures x > 0 ==> IsRoot(r, x * TWO16)
    ensures x > 0 ==> r >= 0 && r * r <= x * 0x1_0000 < (r + 1) * (r + 1)
    ensures Int32(r)
  {
    if x <= 0 {
      return 0;
    }
    var s := Isqrt64((x * TWO16) as u64);
    r := s as int;
    RootBound(r, x * TWO16, 0x100_0000);
  }

  /** The root of a perfect square is exact: (k/256)^2 for k below 2^23 has the root k/256. */
  lemma PerfectSquareExact(k: nat, r: int)
    requires IsRoot(r, k * k * TWO16)
    ensures r == 256 * k
  {
    assert (256 * k) * (256 * k) == k * k * TWO16;
    assert (256 * k + 1) * (256 * k + 1) == k * k * TWO16 + 512 * k + 1;
    RootUnique(r, 256 * k, k * k * TWO16);
  }

  /** Rooting the floored quotient n/d brackets n between r^2*d and (r+1)^2*d. */
  lemma RootOfQuotient(r: int, n: nat, d: nat)
    requires d > 0 && IsRoot(r, n / d)
    ensures r * r * d <= n < (r + 1) * (r + 1) * d
  {
    var q := n / d;
    DivBounds(n, d);
    MulMonotone(r * r, q, d);
    MulMonotone(q + 1, (r + 1) * (r + 1), d);
    assert (q + 1) * d == q * d + d;
  }

  /** q16_rsqrt: the largest r whose square times x is at most 2^48. It never falls below 362, so one unit more is at
      most 1 part in 362 more: the promised one per cent. */
  method Rsqrt(x: int) returns (r: int)
    requires Int32(x)
    ensures x <= 0 ==> r == TWO31 - 1
    ensures x > 0 ==> r * r * x <= TWO48 < (r + 1) * (r + 1) * x
    ensures x > 0 ==> 362 <= r <= 0x100_0000
  {
    if x <= 0 {
      return TWO31 - 1;
    }
    ReciprocalRange(x);
    var s := Isqrt64((TWO48 / x) as u64);
    r := s as int;
    RootOfQuotient(r, TWO48, x);
    RootBound(r, TWO48 / x, 0x100_0001);
    SquareMonotone(r + 1, 362);
  }

  lemma ReciprocalRange(x: int)
    requires 0 < x < TWO31
    ensures 0x2_0000 <= TWO48 / x <= TWO48
  {
    DivBounds(TWO48, x);
    MulMonotone(TWO48 / x + 1, 0x2_0000, x);
    if TWO48 / x > TWO48 {
      MulStrict(TWO48, TWO48 / x, x);
      MulMonotone(1, x, TWO48);
    }
  }

  // ---- vec3_q16_normalize ----

  datatype Vec3 = Vec3(x: int, y: int, z: int)

  predicate VecOk(v: Vec3) {
    Int32(v.x) && Int32(v.y) && Int32(v.z)
  }

  /** q16_mul: the product's 64 bits shifted down (rounding toward minus infinity), cut to 32. */
  function Mul(a: int, b: int): (r: int)
    ensures Int32(r)
  {
    Wrap32(a * b / TWO16)
  }

  /** vec3_q16_scale. */
  function Scale(v: Vec3, s: int): Vec3 {
    Vec3(Mul(v.x, s), Mul(v.y, s), Mul(v.z, s))
  }

  /** The squared length in 2^-32ths, before any rounding. */
  function Norm2(v: Vec3): (n: int)
    ensures n >= 0
  {
    v.x * v.x + v.y * v.y + v.z * v.z
  }

  lemma SquareBound(x: int)
    requires Int32(x)
    ensures 0 <= x * x <= 0x4000_0000_0000_0000
  {
    SquareMonotone(if x < 0 then -x else x, TWO31);
    assert (-x) * (-x) == x * x;
  }

  lemma Norm2Bound(v: Vec3)
    requires VecOk(v)
    ensures Norm2(v) <= 0xC000_0000_0000_0000
    ensures Wrap64(Norm2(v)) == if Norm2(v) < TWO63 then Norm2(v) else Norm2(v) - TWO64
  {
    SquareBound(v.x);
    SquareBound(v.y);
    SquareBound(v.z);
  }

  /** How vec3_q16_normalize scales: r is the reciprocal root of the squared length's 2^-16ths. */
  predicate ReciprocalLength(v: Vec3, r: int) {
    var s := Norm2(v) / TWO16;
    1 <= r && r * r * s <= TWO48 < (r + 1) * (r + 1) * s
  }

  /** vec3_q16_normalize. The sum of squares is a signed 64-bit word: from 2^63 on it turns negative and the vector comes
      back as it was, like one shorter than 2^-8. */
  method Normalize(v: Vec3) returns (u: Vec3, ghost r: int)
    requires VecOk(v)
    ensures Norm2(v) < TWO16 || Norm2(v) >= TWO63 ==> u == v
    ensures TWO16 <= Norm2(v) < TWO63 ==> ReciprocalLength(v, r) && u == Scale(v, r)
  {
    Norm2Bound(v);
    var s := Wrap64(Norm2(v)) / TWO16;
    if s <= 0 {
      return v, 1;
    }
    var q := TWO48 / s;
    DivBounds(TWO48, s);
    LengthRange(s);
    var w := Isqrt64(q as u64);
    r := w as int;
    RootOfQuotient(r, TWO48, s);
    SquareMonotone(r + 1, 1);
    u := Scale(v, w as int);
  }

  lemma LengthRange(s: int)
    requires 1 <= s < 0x8000_0000_0000
    ensures 1 <= TWO48 / s <= TWO48
  {
    DivBounds(TWO48, s);
    if TWO48 / s > TWO48 {
      MulStrict(TWO48, TWO48 / s, s);
      MulMonotone(1, s, TWO48);
    }
    MulMonotone(TWO48 / s, 0, s);
  }

  lemma ScaleNotTooLong(n: int, s: int, q: int)
    requires s >= 1 && 0 <= q && q * s <= TWO48 && 0 <= n <= (s + 1) * TWO16
    ensures s * (q * n) <= (s + 1) * TWO64
  {
    MulMonotone(q * s, TWO48, n);
    assert s * (q * n) == q * s * n;
  }

  lemma ScaleLongEnough(n: int, s: int, q: int)
    requires 0 <= q && q * s > TWO48 && n >= s * TWO16
    ensures q * n > TWO64
  {
    MulMonotone(s * TWO16, n, q);
    assert s * TWO16 * q == q * s * TWO16;
  }

  /** The scaled vector before rounding has length at most one, up to the rounding of s; a scale one unit larger has
      length more than one. Lengths are in 2^-32ths. */
  lemma NormalizeIsTight(v: Vec3, r: int, s: int)
    requires s == Norm2(v) / TWO16 && s >= 1 && ReciprocalLength(v, r)
    ensures s * Norm2(Scaled(v, r)) <= (s + 1) * TWO64
    ensures Norm2(Scaled(v, r + 1)) > TWO64
  {
    var n := Norm2(v);
    DivBounds(n, TWO16);
    ScaledNorm(v, r);
    ScaledNorm(v, r + 1);
    SquareMonotone(0, r);
    SquareMonotone(0, r + 1);
    ScaleNotTooLong(n, s, r * r);
    ScaleLongEnough(n, s, (r + 1) * (r + 1));
  }

  /** The vector times an integer, before any rounding. */
  function Scaled(v: Vec3, r: int): Vec3 {
    Vec3(v.x * r, v.y * r, v.z * r)
  }

  lemma RootAtLeastIff(r: int, k: int, s: int)
    requires 1 <= k && 0 <= r && 0 <= s && r * r * s <= TWO48 < (r + 1) * (r + 1) * s
    ensures r >= k <==> k * k * s <= TWO48
  {
    SquareMonotone(k, r);
    SquareMonotone(r + 1, k);
    MulMonotone(k * k, r * r, s);
    MulMonotone((r + 1) * (r + 1), k * k, s);
  }

  lemma CrossSquares(k: int, r: int)
    requires 1 <= k <= r
    ensures k * k * ((r + 1) * (r + 1)) <= (k + 1) * (k + 1) * (r * r)
  {
    ProductSquare(k, r + 1);
    ProductSquare(k + 1, r);
    assert k * (r + 1) == k * r + k && (k + 1) * r == k * r + r;
    MulMonotone(0, k, r + 1);
    SquareMonotone(k * (r + 1), (k + 1) * r);
  }

  lemma CrossTimes(p: int, q: int, a: int, b: int, n: int)
    requires p >= 1 && q >= 0 && p * q <= a * b && q * n > TWO64
    ensures p * TWO64 < a * (b * n)
  {
    if n < 0 {
      MulMonotone(n, 0, q);
    }
    MulStrict(TWO64, q * n, p);
    MulMonotone(p * q, a * b, n);
    assert q * n * p == p * q * n && a * b * n == a * (b * n);
  }

  /** With a scale of at least k, one unit more is at most 1 part in k more. */
  lemma OneUnitLess(n: int, r: int, k: int)
    requires 1 <= k <= r && (r + 1) * (r + 1) * n > TWO64
    ensures k * k * TWO64 < (k + 1) * (k + 1) * (r * r * n)
  {
    SquareMonotone(1, k);
    SquareMonotone(0, r + 1);
    CrossSquares(k, r);
    CrossTimes(k * k, (r + 1) * (r + 1), (k + 1) * (k + 1), r * r, n);
  }

  lemma ProductSquare(a: int, b: int)
    ensures (a * b) * (a * b) == a * a * (b * b)
  {
  }

  /** How close a normalised vector comes to length one, from its squared length s in 2^-16ths alone: the scale is k or
      more exactly if k * k * s <= 2^48, and then the scaled vector is longer than k / (k + 1). */
  lemma NormalizePrecisionIff(v: Vec3, r: int, k: int, s: int)
    requires s == Norm2(v) / TWO16 && k >= 1 && ReciprocalLength(v, r)
    ensures r >= k <==> k * k * s <= TWO48
    ensures k * k * s <= TWO48 ==> k * k * TWO64 < (k + 1) * (k + 1) * Norm2(Scaled(v, r))
  {
    DivBounds(Norm2(v), TWO16);
    RootAtLeastIff(r, k, s);
    if r >= k {
      NormalizeIsTight(v, r, s);
      ScaledNorm(v, r);
      ScaledNorm(v, r + 1);
      OneUnitLess(Norm2(v), r, k);
    }
  }

  /** Above a quarter of the range the scale has one digit, 1: the vector is only shifted, and its squared length stays
      below one half. */
  lemma NormalizeOneDigit(v: Vec3, r: int, s: int)
    requires s == Norm2(v) / TWO16 && ReciprocalLength(v, r)
    ensures r == 1 <==> 4 * s > TWO48
    ensures 4 * s > TWO48 && Norm2(v) < TWO63 ==> 2 * Norm2(Scaled(v, r)) < TWO64
  {
    NormalizePrecisionIff(v, r, 2, s);
  }

  lemma ScaledNorm(v: Vec3, r: int)
    ensures Norm2(Scaled(v, r)) == r * r * Norm2(v)
  {
    SquareProduct(v.x, r);
    SquareProduct(v.y, r);
    SquareProduct(v.z, r);
    assert r * r * Norm2(v) == r * r * (v.x * v.x) + r * r * (v.y * v.y) + r * r * (v.z * v.z);
  }

  lemma SquareProduct(x: int, r: int)
    ensures (x * r) * (x * r) == r * r * (x * x)
  {
  }

  /** Each component of a normalised vector is its scaled value rounded down: the cut to 32 bits loses nothing. */
  lemma NormalizeOutputs(v: Vec3, r: int)
    requires VecOk(v) && TWO16 <= Norm2(v) && ReciprocalLength(v, r)
    ensures Scale(v, r) == Vec3(v.x * r / TWO16, v.y * r / TWO16, v.z * r / TWO16)
  {
    var s := Norm2(v) / TWO16;
    NormalizeIsTight(v, r, s);
    var n := Norm2(Scaled(v, r));
    MulMonotone(2 * TWO64 + 1, n, s);
    assert (s + 1) * TWO64 < s * (2 * TWO64 + 1);
    ComponentFits(v.x * r, n);
    ComponentFits(v.y * r, n);
    ComponentFits(v.z * r, n);
  }

  lemma ComponentFits(c: int, n: int)
    requires c * c <= n <= 2 * TWO64
    ensures Int32(c / TWO16)
  {
    var a := if c < 0 then -c else c;
    assert a * a == c * c;
    SquareMonotone(0x2_0000_0000, a);
  }

  /** Two witnesses. Two large equal components overflow the sum of squares and come back unscaled; a little smaller,
      and the one-digit scale leaves a vector of length 0.7071. */
  lemma NormalizeFallsShort(r: int)
    ensures Norm2(Vec3(-TWO31, -TWO31, 0)) == TWO63
    ensures var v := Vec3(TWO31 - 1, TWO31 - 1, 0);
            && TWO16 <= Norm2(v) < TWO63 && 4 * (Norm2(v) / TWO16) > TWO48
            && (ReciprocalLength(v, r) ==> Scale(v, r) == Vec3(32767, 32767, 0))
  {
    var v := Vec3(TWO31 - 1, TWO31 - 1, 0);
    assert Norm2(v) / TWO16 == 0x8000_0000_0000 - 0x2_0000;
    if ReciprocalLength(v, r) {
      NormalizeOneDigit(v, r, Norm2(v) / TWO16);
    }
  }
}
