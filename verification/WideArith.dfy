/**
  64-bit fixed-point products from 32-bit halves, and long division (q32_mul, q48_mul, q32_scale_q16, q32_div and q48_div
  of include/math/fixed_point.h).
*/
module WideArith {
  import opened Arith
  import opened FixedPoint

  // ---- words ----

  function Add64(x: int, y: int): int {
    Wrap64(x + y)
  }

  /** x << k with f = 2^k. */
  function Shl64(x: int, f: int): int {
    Wrap64(x * f)
  }

  /** The high half of a word, signed, and the low half, unsigned: a >> 32 and a & 0xFFFFFFFF. */
  function High(a: int): (h: int)
    requires Int64(a)
    ensures Int32(h)
  {
    a / TWO32
  }

  function Low(a: int): (l: int)
    ensures 0 <= l < TWO32
  {
    a % TWO32
  }

  lemma Halves(a: int)
    requires Int64(a)
    ensures a == High(a) * TWO32 + Low(a)
  {
  }

  // ---- products ----

  /** The four partial products put together by q32_mul. */
  function Join32(hiHi: int, hiLo: int, loHi: int, loLo: int): int {
    Add64(Add64(Add64(Shl64(hiHi, TWO32), hiLo), loHi), loLo / TWO32)
  }

  /** The four partial products put together by q48_mul. */
  function Join16(hiHi: int, hiLo: int, loHi: int, loLo: int): int {
    Add64(Add64(Shl64(hiHi, TWO48), Shl64(Add64(hiLo, loHi), TWO16)), loLo / TWO16)
  }

  /** q32_mul: signed 64-bit products of the halves, an unsigned one of the two low halves. */
  function Q32Mul(a: int, b: int): int
    requires Int64(a) && Int64(b)
  {
    Join32(Wrap64(High(a) * High(b)), Wrap64(High(a) * Low(b)), Wrap64(Low(a) * High(b)), Low(a) * Low(b) % TWO64)
  }

  /** q48_mul. */
  function Q48Mul(a: int, b: int): int
    requires Int64(a) && Int64(b)
  {
    Join16(Wrap64(High(a) * High(b)), Wrap64(High(a) * Low(b)), Wrap64(Low(a) * High(b)), Low(a) * Low(b) % TWO64)
  }

  lemma HalfProduct(x: int, y: int)
    requires Int32(x) && -TWO31 <= y < TWO32
    ensures Int64(x * y)
  {
    if x >= 0 {
      MulMonotone(y, TWO32 - 1, x);
      MulMonotone(-TWO31, y, x);
    } else {
      MulMonotone(y, TWO32 - 1, -x);
      MulMonotone(-TWO31, y, -x);
    }
  }

  lemma LowProduct(x: int, y: int)
    requires 0 <= x < TWO32 && 0 <= y < TWO32
    ensures 0 <= x * y < TWO64
  {
    MulMonotone(x, TWO32 - 1, y);
    MulMonotone(0, x, y);
  }

  /** The comment's claim: none of the four partial products leaves its word. */
  lemma PartialsFit(a: int, b: int)
    requires Int64(a) && Int64(b)
    ensures Int64(High(a) * High(b)) && Int64(High(a) * Low(b)) && Int64(Low(a) * High(b))
    ensures 0 <= Low(a) * Low(b) < TWO64
  {
    HalfProduct(High(a), High(b));
    HalfProduct(High(a), Low(b));
    HalfProduct(High(b), Low(a));
    LowProduct(Low(a), Low(b));
  }

  lemma Expand(ah: int, al: int, bh: int, bl: int)
    ensures (ah * TWO32 + al) * (bh * TWO32 + bl) == ah * bh * TWO64 + (ah * bl + al * bh) * TWO32 + al * bl
  {
    assert (ah * TWO32 + al) * (bh * TWO32 + bl) ==
           (ah * TWO32) * (bh * TWO32) + (ah * TWO32) * bl + al * (bh * TWO32) + al * bl;
    assert (ah * TWO32) * (bh * TWO32) == ah * bh * TWO64;
    assert (ah * TWO32) * bl == ah * bl * TWO32;
    assert al * (bh * TWO32) == al * bh * TWO32;
  }

  lemma ProductOfHalves(a: int, b: int)
    requires Int64(a) && Int64(b)
    ensures a * b == High(a) * High(b) * TWO64 + (High(a) * Low(b) + Low(a) * High(b)) * TWO32 + Low(a) * Low(b)
  {
    Halves(a);
    Halves(b);
    Expand(High(a), Low(a), High(b), Low(b));
  }

  lemma WrapPeriod(x: int, k: int)
    ensures Wrap64(x + k * TWO64) == Wrap64(x)
  {
    DivAddMultiple(x + TWO63, k, TWO64);
  }

  lemma WrapAdd(x: int, y: int)
    ensures Add64(Wrap64(x), y) == Wrap64(x + y)
  {
  }

  lemma WrapTimes16(x: int)
    ensures Shl64(Wrap64(x), TWO16) == Shl64(x, TWO16)
  {
    var k := (x + TWO63) / TWO64;
    assert Wrap64(x) == x - k * TWO64;
    WrapPeriod(x * TWO16, -k * TWO16);
  }

  lemma WordsExact(hh: int, hl: int, lh: int, ll: int)
    requires Int64(hh) && Int64(hl) && Int64(lh) && 0 <= ll < TWO64
    ensures Wrap64(hh) == hh && Wrap64(hl) == hl && Wrap64(lh) == lh && ll % TWO64 == ll
  {
  }

  lemma JoinsToFloor32(hh: int, hl: int, lh: int, ll: int)
    ensures Join32(hh, hl, lh, ll) == Wrap64((hh * TWO64 + (hl + lh) * TWO32 + ll) / TWO32)
  {
    WrapAdd(hh * TWO32, hl);
    WrapAdd(hh * TWO32 + hl, lh);
    WrapAdd(hh * TWO32 + hl + lh, ll / TWO32);
    DivAddMultiple(ll, hh * TWO32 + hl + lh, TWO32);
  }

  lemma JoinsToFloor16(hh: int, hl: int, lh: int, ll: int)
    ensures Join16(hh, hl, lh, ll) == Wrap64((hh * TWO64 + (hl + lh) * TWO32 + ll) / TWO16)
  {
    WrapTimes16(hl + lh);
    WrapAdd(hh * TWO48, Shl64(hl + lh, TWO16));
    WrapAdd((hl + lh) * TWO16, hh * TWO48);
    WrapAdd(hh * TWO48 + (hl + lh) * TWO16, ll / TWO16);
    DivAddMultiple(ll, hh * TWO48 + (hl + lh) * TWO16, TWO16);
  }

  /** q32_mul is the floor of a*b/2^32, cut to 64 bits, for all words. */
  lemma Q32MulIsFloor(a: int, b: int)
    requires Int64(a) && Int64(b)
    ensures Q32Mul(a, b) == Wrap64(a * b / TWO32)
  {
    PartialsFit(a, b);
    WordsExact(High(a) * High(b), High(a) * Low(b), Low(a) * High(b), Low(a) * Low(b));
    ProductOfHalves(a, b);
    JoinsToFloor32(High(a) * High(b), High(a) * Low(b), Low(a) * High(b), Low(a) * Low(b));
  }

  /** q48_mul is the floor of a*b/2^16, cut to 64 bits, for all words. */
  lemma Q48MulIsFloor(a: int, b: int)
    requires Int64(a) && Int64(b)
    ensures Q48Mul(a, b) == Wrap64(a * b / TWO16)
  {
    PartialsFit(a, b);
    WordsExact(High(a) * High(b), High(a) * Low(b), Low(a) * High(b), Low(a) * Low(b));
    ProductOfHalves(a, b);
    JoinsToFloor16(High(a) * High(b), High(a) * Low(b), Low(a) * High(b), Low(a) * Low(b));
  }

  // ---- scaling by a Q16.16 factor ----

  /** hi_part << 16 plus the low part. */
  function JoinScaled(hi: int, lo: int): int {
    Add64(Shl64(hi, TWO16), lo)
  }

  /** q32_scale_q16: the low half is multiplied by the magnitude of the scale, as an unsigned word, and signed after. */
  function Q32Scale(a: int, scale: int): int
    requires Int64(a) && Int32(scale)
  {
    var hi := Wrap64(High(a) * scale);
    var m := if scale < 0 then -scale else scale;
    var lo := Low(a) * m % TWO64 / TWO16;
    JoinScaled(hi, if scale < 0 then -lo else lo)
  }

  function Floor16(x: int): int {
    x / TWO16
  }

  function Ceil16(x: int): int {
    -(-x / TWO16)
  }

  lemma ScaledParts(ah: int, al: int, m: int)
    requires Int32(ah) && 0 <= al < TWO32 && 0 <= m <= TWO31
    ensures Int64(ah * m) && 0 <= al * m < TWO64
    ensures (ah * TWO32 + al) * m / TWO16 == ah * m * TWO16 + al * m / TWO16
  {
    HalfProduct(ah, m);
    LowProduct(al, m);
    assert (ah * TWO32 + al) * m == al * m + ah * m * TWO16 * TWO16;
    DivAddMultiple(al * m, ah * m * TWO16, TWO16);
  }

  lemma JoinsScaled(hi: int, lo: int)
    ensures JoinScaled(hi, lo) == Wrap64(hi * TWO16 + lo)
  {
    WrapAdd(hi * TWO16, lo);
  }

  lemma ScaledWords(hi: int, lo: int)
    requires Int64(hi) && 0 <= lo < TWO64
    ensures Wrap64(hi) == hi && lo % TWO64 == lo
  {
  }

  lemma ScaleUp(a: int, m: int)
    requires Int64(a) && 0 <= m < TWO31
    ensures Q32Scale(a, m) == Wrap64(a * m / TWO16)
  {
    Halves(a);
    ScaledParts(High(a), Low(a), m);
    ScaledWords(High(a) * m, Low(a) * m);
    JoinsScaled(High(a) * m, Low(a) * m / TWO16);
  }

  lemma ScaleDown(a: int, m: int)
    requires Int64(a) && 0 < m <= TWO31
    ensures Q32Scale(a, -m) == Wrap64(-(a * m / TWO16))
  {
    Halves(a);
    ScaledParts(High(a), Low(a), m);
    HalfProduct(High(a), -m);
    assert High(a) * -m == -(High(a) * m);
    ScaledWords(High(a) * -m, Low(a) * m);
    JoinsScaled(High(a) * -m, -(Low(a) * m / TWO16));
  }

  /** q32_scale_q16 rounds toward the sign of the scale: the floor for a positive scale, the ceiling for a negative. */
  lemma Q32ScaleRounds(a: int, scale: int)
    requires Int64(a) && Int32(scale)
    ensures Q32Scale(a, scale) == Wrap64(if scale >= 0 then Floor16(a * scale) else Ceil16(a * scale))
  {
    if scale >= 0 {
      ScaleUp(a, scale);
    } else {
      ScaleDown(a, -scale);
      assert a * -scale == -(a * scale);
    }
  }

  /** So it is odd in the scale. */
  lemma Q32ScaleOdd(a: int, scale: int)
    requires Int64(a) && Int32(scale) && Int32(-scale)
    ensures Q32Scale(a, -scale) == Wrap64(-Q32Scale(a, scale))
  {
    Q32ScaleRounds(a, scale);
    Q32ScaleRounds(a, -scale);
    assert a * -scale == -(a * scale);
    WrapNegated(if scale >= 0 then Floor16(a * scale) else Ceil16(a * scale));
  }

  lemma WrapNegated(x: int)
    ensures Wrap64(-Wrap64(x)) == Wrap64(-x)
  {
    var k := (x + TWO63) / TWO64;
    assert Wrap64(x) == x - k * TWO64;
    WrapPeriod(-x, k);
  }

  // ---- division ----

  /** C's integer division and remainder, which truncate toward zero. */
  function Trunc(a: int, b: int): (q: int)
    requires b != 0
  {
    if (a >= 0) == (b > 0) then Abs(a) / Abs(b) else -(Abs(a) / Abs(b))
  }

  function Rem(a: int, b: int): int
    requires b != 0
  {
    if a >= 0 then a % Abs(b) else -(Abs(a) % Abs(b))
  }

  /** q32_div (f = 2^32) and q48_div (f = 2^16). */
  function Div(a: int, b: int, f: int): int
    requires Int64(a) && Int64(b) && b != 0
  {
    Add64(Shl64(Trunc(a, b), f), Trunc(Shl64(Rem(a, b), f), b))
  }

  lemma LongDivisionNat(m: nat, d: nat, f: nat)
    requires d > 0
    ensures m * f / d == m / d * f + m % d * f / d
  {
    var q, r := m / d, m % d;
    DivBounds(m, d);
    assert m * f == r * f + q * d * f;
    assert q * d * f == q * f * d;
    DivAddMultiple(r * f, q * f, d);
  }

  function Signed(plus: bool, n: int): int {
    if plus then n else -n
  }

  lemma ScaledQuotient(a: int, b: int, f: nat)
    requires b != 0 && f > 0
    ensures Trunc(a * f, b) == Signed((a >= 0) == (b > 0), Abs(a) * f / Abs(b))
  {
    SignedProduct(a, f);
  }

  lemma ScaledRemainder(a: int, b: int, f: nat)
    requires b != 0 && f > 0
    ensures Trunc(Rem(a, b) * f, b) == Signed((a >= 0) == (b > 0), Abs(a) % Abs(b) * f / Abs(b))
  {
    if Rem(a, b) == 0 {
      DivUnique(0, 0, Abs(b));
    } else {
      ScaledQuotient(Rem(a, b), b, f);
    }
  }

  /** Long division: the truncated quotient of a*f is the quotient of a, times f, plus the quotient of the remainder. */
  lemma LongDivision(a: int, b: int, f: nat)
    requires b != 0 && f > 0
    ensures Trunc(a * f, b) == Trunc(a, b) * f + Trunc(Rem(a, b) * f, b)
  {
    LongDivisionNat(Abs(a), Abs(b), f);
    ScaledQuotient(a, b, f);
    ScaledRemainder(a, b, f);
    SignedTimes((a >= 0) == (b > 0), Abs(a) / Abs(b), f);
  }

  lemma SignedTimes(plus: bool, q: int, f: nat)
    ensures Signed(plus, q) * f == Signed(plus, q * f)
  {
    assert -q * f == -(q * f);
  }

  lemma SignedProduct(a: int, f: nat)
    requires f > 0
    ensures Abs(a * f) == Abs(a) * f
    ensures a * f >= 0 <==> a >= 0
  {
    MulStrict(a, 0, f);
    assert (-a) * f == -(a * f);
  }

  lemma TruncBound(x: int, b: int)
    requires b != 0
    ensures Abs(x - Trunc(x, b) * b) < Abs(b)
    ensures Abs(Trunc(x, b)) == Abs(x) / Abs(b)
  {
    var m, d := Abs(x), Abs(b);
    DivBounds(m, d);
    MulStrict(-1, m / d, d);
    assert -(m / d) * -d == m / d * d && (m / d) * -d == -(m / d * d) && -(m / d) * d == -(m / d * d);
  }

  /** Numbers more than twice the divisor apart have different quotients. */
  lemma TruncApart(x: int, y: int, b: int)
    requires b != 0 && Abs(x - y) >= 2 * Abs(b)
    ensures Trunc(x, b) != Trunc(y, b)
  {
    TruncBound(x, b);
    TruncBound(y, b);
  }

  lemma QuotientBelow(x: nat, d: nat, f: nat)
    requires d > 0 && x < d * f
    ensures x / d < f
  {
    DivBounds(x, d);
    MulStrict(x / d, f, d);
  }

  lemma WrapDistinct(x: int, y: int)
    requires x != y && -TWO64 < x - y < TWO64
    ensures Wrap64(x) != Wrap64(y)
  {
  }

  lemma WrapMoves(x: int)
    requires !Int64(x)
    ensures Abs(x - Wrap64(x)) >= TWO64
  {
  }

  lemma RemBound(a: int, b: int, f: nat)
    requires b != 0 && f > 0
    ensures Abs(Rem(a, b) * f) < Abs(b) * f
    ensures Abs(Trunc(Rem(a, b) * f, b)) < f
  {
    SignedProduct(Rem(a, b), f);
    MulStrict(Abs(Rem(a, b)), Abs(b), f);
    TruncBound(Rem(a, b) * f, b);
    QuotientBelow(Abs(Rem(a, b) * f), Abs(b), f);
  }

  lemma QuotientShrinks(x: nat, d: nat)
    requires d > 0
    ensures x / d <= x
  {
    DivBounds(x, d);
    if x / d > x {
      MulStrict(x, x / d, d);
      MulMonotone(1, d, x);
    }
  }

  /** The quotient of the shifted remainder is right exactly if the shift does not overflow. */
  lemma RemainderQuotient(a: int, b: int, f: nat)
    requires Int64(a) && Int64(b) && b != 0 && 0 < f <= TWO32
    ensures Trunc(Shl64(Rem(a, b), f), b) == Trunc(Rem(a, b) * f, b) <==> Int64(Rem(a, b) * f)
    ensures Abs(Trunc(Shl64(Rem(a, b), f), b) - Trunc(Rem(a, b) * f, b)) < TWO64
  {
    var x := Rem(a, b) * f;
    RemBound(a, b, f);
    TruncBound(Wrap64(x), b);
    QuotientShrinks(Abs(Wrap64(x)), Abs(b));
    if !Int64(x) {
      WrapMoves(x);
      TruncApart(x, Wrap64(x), b);
    }
  }

  /** The division is the truncated quotient of a*f by b, cut to 64 bits, exactly if the remainder times f is a 64-bit
      word. (The smallest word divided by -1 traps and is left out.) */
  lemma DivExactIff(a: int, b: int, f: nat)
    requires Int64(a) && Int64(b) && b != 0 && !(a == -TWO63 && b == -1) && 0 < f <= TWO32
    ensures Div(a, b, f) == Wrap64(Trunc(a * f, b)) <==> Int64(Rem(a, b) * f)
  {
    LongDivision(a, b, f);
    RemainderQuotient(a, b, f);
    var q, t, u := Trunc(a, b) * f, Trunc(Rem(a, b) * f, b), Trunc(Shl64(Rem(a, b), f), b);
    WrapAdd(q, u);
    if t != u {
      WrapDistinct(q + t, q + u);
    }
  }

  /** q32_div needs a remainder of at most 32 signed bits. */
  lemma Q32DivExactIff(a: int, b: int)
    requires Int64(a) && Int64(b) && b != 0 && !(a == -TWO63 && b == -1)
    ensures Div(a, b, TWO32) == Wrap64(Trunc(a * TWO32, b)) <==> Int32(Rem(a, b))
  {
    DivExactIff(a, b, TWO32);
  }

  /** q48_div needs a remainder of at most 48 signed bits. */
  lemma Q48DivExactIff(a: int, b: int)
    requires Int64(a) && Int64(b) && b != 0 && !(a == -TWO63 && b == -1)
    ensures Div(a, b, TWO16) == Wrap64(Trunc(a * TWO16, b)) <==> -0x8000_0000_0000 <= Rem(a, b) < 0x8000_0000_0000
  {
    DivExactIff(a, b, TWO16);
  }

  /** The comment promises exactness for |a| < 2^32. That is twice too wide: half, or a divisor of at most 2^31, does. */
  lemma Q32DivSafe(a: int, b: int)
    requires Int64(a) && Int64(b) && b != 0 && !(a == -TWO63 && b == -1)
    requires Abs(a) < TWO31 || Abs(b) <= TWO31
    ensures Div(a, b, TWO32) == Wrap64(Trunc(a * TWO32, b))
  {
    var r := Abs(a) % Abs(b);
    if Abs(a) < Abs(b) {
      RemSmall(Abs(a), Abs(b));
    }
    Q32DivExactIff(a, b);
  }

  lemma RemSmall(m: nat, d: nat)
    requires m < d
    ensures m % d == m
  {
    DivUnique(m, 0, d);
  }

  lemma Q32DivCommentTooWide()
    ensures Div(TWO31, TWO32, TWO32) == -TWO31
    ensures Trunc(TWO31 * TWO32, TWO32) == TWO31
  {
    DivUnique(TWO63, TWO31, TWO32);
    RemSmall(TWO31, TWO32);
    DivUnique(TWO31, 0, TWO32);
    assert Shl64(TWO31, TWO32) == -TWO63;
  }
}
