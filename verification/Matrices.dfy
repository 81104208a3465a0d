/**
  3x3 matrices and affine maps over Q16.16 (include/math/mat_q16.h): composing two maps against applying them in turn.
*/
module Matrices {
  import opened Arith
  import opened FixedPoint

  /** Row-major: entry (i, j) is m[3*i + j]. */
  type Mat3 = m: seq<int> | |m| == 9 witness [0, 0, 0, 0, 0, 0, 0, 0, 0]

  datatype Map3 = Map3(m: Mat3, t: Vec3)

  function At(m: seq<int>, i: nat, j: nat): int
    requires |m| == 9 && i < 3 && j < 3
  {
    m[3 * i + j]
  }

  function Get(v: Vec3, i: nat): int {
    if i == 0 then v.x else if i == 1 then v.y else v.z
  }

  /** The 32-bit sum of three products, q16_mul(a, x) + q16_mul(b, y) + q16_mul(c, z). */
  function Dot(a: int, b: int, c: int, x: int, y: int, z: int): (r: int)
    ensures Int32(r)
  {
    Wrap32(Mul(a, x) + Mul(b, y) + Mul(c, z))
  }

  function RowDot(m: Mat3, i: nat, v: Vec3): int
    requires i < 3
  {
    Dot(At(m, i, 0), At(m, i, 1), At(m, i, 2), v.x, v.y, v.z)
  }

  /** mat3_q16_mul_vec3. */
  function MulVec(m: Mat3, v: Vec3): Vec3 {
    Vec3(RowDot(m, 0, v), RowDot(m, 1, v), RowDot(m, 2, v))
  }

  /** vec3_q16_add. */
  function AddVec(v: Vec3, w: Vec3): Vec3 {
    Vec3(Wrap32(v.x + w.x), Wrap32(v.y + w.y), Wrap32(v.z + w.z))
  }

  /** affine3_q16_apply. */
  function Apply(a: Map3, v: Vec3): Vec3 {
    AddVec(MulVec(a.m, v), a.t)
  }

  /** Column j of a matrix. */
  function Column(m: Mat3, j: nat): Vec3
    requires j < 3
  {
    Vec3(At(m, 0, j), At(m, 1, j), At(m, 2, j))
  }

  /** The matrix whose columns are a's images of b's columns. */
  ghost predicate IsProduct(p: seq<int>, a: Mat3, b: Mat3) {
    && |p| == 9
    && forall i, j :: 0 <= i < 3 && 0 <= j < 3 ==> At(p, i, j) == RowDot(a, i, Column(b, j))
  }

  ghost predicate FilledTo(p: seq<int>, a: Mat3, b: Mat3, row: nat, col: nat) {
    && |p| == 9
    && forall i, j :: 0 <= i < 3 && 0 <= j < 3 && (i < row || (i == row && j < col)) ==>
         At(p, i, j) == RowDot(a, i, Column(b, j))
  }

  lemma FillOne(p: seq<int>, a: Mat3, b: Mat3, row: nat, col: nat, e: int)
    requires FilledTo(p, a, b, row, col) && row < 3 && col < 3 && e == RowDot(a, row, Column(b, col))
    ensures FilledTo(p[3 * row + col := e], a, b, row, col + 1)
  {
  }

  lemma FillRow(p: seq<int>, a: Mat3, b: Mat3, row: nat)
    requires FilledTo(p, a, b, row, 3)
    ensures FilledTo(p, a, b, row + 1, 0)
  {
  }

  /** mat3_q16_mul. */
  method MatMul(a: Mat3, b: Mat3) returns (p: Mat3)
    ensures IsProduct(p, a, b)
  {
    var r := new int[9](_ => 0);
    var row := 0;
    while row < 3
      invariant row <= 3 && FilledTo(r[..], a, b, row, 0)
    {
      var col := 0;
      while col < 3
        invariant col <= 3 && FilledTo(r[..], a, b, row, col)
      {
        var e := Wrap32(Mul(a[3 * row], b[col]) + Mul(a[3 * row + 1], b[3 + col]) + Mul(a[3 * row + 2], b[6 + col]));
        FillOne(r[..], a, b, row, col, e);
        r[3 * row + col] := e;
        col := col + 1;
      }
      FillRow(r[..], a, b, row);
      row := row + 1;
    }
    p := r[..];
  }

  /** affine3_q16_compose. */
  method Compose(a: Map3, b: Map3) returns (c: Map3)
    ensures IsComposed(c, a, b)
  {
    var m := MatMul(a.m, b.m);
    c := Map3(m, AddVec(MulVec(a.m, b.t), a.t));
  }

  ghost predicate IsComposed(c: Map3, a: Map3, b: Map3) {
    IsProduct(c.m, a.m, b.m) && c.t == Apply(a, b.t)
  }

  // ---- sums without wrap-around ----

  /** The sum of three products, each rounded down, before it is cut to 32 bits. */
  function Sum(a: int, b: int, c: int, x: int, y: int, z: int): int {
    a * x / TWO16 + b * y / TWO16 + c * z / TWO16
  }

  function RowSum(m: Mat3, i: nat, v: Vec3): int
    requires i < 3
  {
    Sum(At(m, i, 0), At(m, i, 1), At(m, i, 2), v.x, v.y, v.z)
  }

  lemma Wrap32Adds(x: int, y: int)
    ensures Wrap32(Wrap32(x) + y) == Wrap32(x + y)
  {
  }

  lemma DotWraps(p: int, q: int, r: int)
    ensures Wrap32(Wrap32(p) + Wrap32(q) + Wrap32(r)) == Wrap32(p + q + r)
  {
    Wrap32Adds(p, Wrap32(q) + Wrap32(r));
    Wrap32Adds(q, p + Wrap32(r));
    Wrap32Adds(r, p + q);
  }

  lemma RowDotIs(m: Mat3, i: nat, v: Vec3)
    requires i < 3
    ensures RowDot(m, i, v) == Wrap32(RowSum(m, i, v))
  {
    DotWraps(At(m, i, 0) * v.x / TWO16, At(m, i, 1) * v.y / TWO16, At(m, i, 2) * v.z / TWO16);
  }

  /** Component i of an applied map, cut to 32 bits once, at the end. */
  lemma ApplyIs(a: Map3, v: Vec3, i: nat)
    requires i < 3
    ensures Get(Apply(a, v), i) == Wrap32(RowSum(a.m, i, v) + Get(a.t, i))
  {
    ApplyRow(a, v, i);
    RowDotIs(a.m, i, v);
    Wrap32Adds(RowSum(a.m, i, v), Get(a.t, i));
  }

  /** The same for the three components and the nine stored entries, which stand row by row. */
  lemma ApplyEntries(a: Map3, v: Vec3)
    ensures Apply(a, v).x == Wrap32(a.m[0] * v.x / TWO16 + a.m[1] * v.y / TWO16 + a.m[2] * v.z / TWO16 + a.t.x)
    ensures Apply(a, v).y == Wrap32(a.m[3] * v.x / TWO16 + a.m[4] * v.y / TWO16 + a.m[5] * v.z / TWO16 + a.t.y)
    ensures Apply(a, v).z == Wrap32(a.m[6] * v.x / TWO16 + a.m[7] * v.y / TWO16 + a.m[8] * v.z / TWO16 + a.t.z)
  {
    ApplyIs(a, v, 0);
    ApplyIs(a, v, 1);
    ApplyIs(a, v, 2);
  }

  /** An entry of a product, over the stored entries. */
  lemma ProductEntry(p: Mat3, a: Mat3, b: Mat3, i: nat, j: nat)
    requires IsProduct(p, a, b) && i < 3 && j < 3
    ensures p[3 * i + j] ==
            Wrap32(a[3 * i] * b[j] / TWO16 + a[3 * i + 1] * b[3 + j] / TWO16 + a[3 * i + 2] * b[6 + j] / TWO16)
  {
    assert At(p, i, j) == RowDot(a, i, Column(b, j));
    RowDotIs(a, i, Column(b, j));
  }

  lemma ApplyRow(a: Map3, v: Vec3, i: nat)
    requires i < 3
    ensures Get(Apply(a, v), i) == Wrap32(RowDot(a.m, i, v) + Get(a.t, i))
  {
  }

  // ---- rounding ----

  lemma SumError(a: int, b: int, c: int, x: int, y: int, z: int)
    ensures a * x + b * y + c * z - 3 * TWO16 < TWO16 * Sum(a, b, c, x, y, z) <= a * x + b * y + c * z
  {
  }

  /** `m` is x / 2^16 up to three roundings down. */
  predicate Rounded(m: int, x: int) {
    x - 3 * TWO16 < TWO16 * m <= x
  }

  lemma TermError(m: int, x: int, v: int)
    requires Rounded(m, x)
    ensures Abs(TWO16 * (m * v) - x * v) <= 3 * TWO16 * Abs(v)
  {
    var e := x - TWO16 * m;
    assert TWO16 * (m * v) - x * v == -(e * v);
    if v >= 0 {
      MulMonotone(0, e, v);
      MulMonotone(e, 3 * TWO16, v);
    } else {
      MulMonotone(0, e, -v);
      MulMonotone(e, 3 * TWO16, -v);
    }
  }

  lemma WeightedError(m: Vec3, x: Vec3, v: Vec3)
    requires Rounded(m.x, x.x) && Rounded(m.y, x.y) && Rounded(m.z, x.z)
    ensures Abs(TWO16 * (m.x * v.x + m.y * v.y + m.z * v.z) - (x.x * v.x + x.y * v.y + x.z * v.z)) <=
            3 * TWO16 * Size(v)
  {
    TermError(m.x, x.x, v.x);
    TermError(m.y, x.y, v.y);
    TermError(m.z, x.z, v.z);
  }

  function Size(v: Vec3): nat {
    Abs(v.x) + Abs(v.y) + Abs(v.z)
  }

  function Inner(a: Vec3, x: Vec3): int {
    a.x * x.x + a.y * x.y + a.z * x.z
  }

  /** A row times a matrix times a column, associated either way. */
  lemma Associates(a: Vec3, b0: Vec3, b1: Vec3, b2: Vec3, v: Vec3)
    ensures Inner(Vec3(Inner(a, b0), Inner(a, b1), Inner(a, b2)), v) ==
            Inner(a, Vec3(b0.x * v.x + b1.x * v.y + b2.x * v.z, b0.y * v.x + b1.y * v.y + b2.y * v.z,
                          b0.z * v.x + b1.z * v.y + b2.z * v.z))
  {
    Spread(a, b0, v.x);
    Spread(a, b1, v.y);
    Spread(a, b2, v.z);
    Collect(a.x, b0.x, b1.x, b2.x, v);
    Collect(a.y, b0.y, b1.y, b2.y, v);
    Collect(a.z, b0.z, b1.z, b2.z, v);
  }

  lemma Spread(a: Vec3, b: Vec3, w: int)
    ensures Inner(a, b) * w == a.x * (b.x * w) + a.y * (b.y * w) + a.z * (b.z * w)
  {
    assert Inner(a, b) * w == a.x * b.x * w + a.y * b.y * w + a.z * b.z * w;
  }

  lemma Collect(a: int, p: int, q: int, r: int, v: Vec3)
    ensures a * (p * v.x + q * v.y + r * v.z) == a * (p * v.x) + a * (q * v.y) + a * (r * v.z)
  {
  }

  // ---- composing against applying in turn ----

  function SumOf(a: Vec3, x: Vec3): int {
    Sum(a.x, a.y, a.z, x.x, x.y, x.z)
  }

  lemma SumOfError(a: Vec3, x: Vec3)
    ensures Inner(a, x) - 3 * TWO16 < TWO16 * SumOf(a, x) <= Inner(a, x)
  {
    SumError(a.x, a.y, a.z, x.x, x.y, x.z);
  }

  /** Row k of the matrix with columns b0, b1 and b2. */
  function Rows(b0: Vec3, b1: Vec3, b2: Vec3): (Vec3, Vec3, Vec3) {
    (Vec3(b0.x, b1.x, b2.x), Vec3(b0.y, b1.y, b2.y), Vec3(b0.z, b1.z, b2.z))
  }

  lemma ProductSide(a: Vec3, b0: Vec3, b1: Vec3, b2: Vec3, v: Vec3)
    ensures Abs(TWO16 * Inner(Vec3(SumOf(a, b0), SumOf(a, b1), SumOf(a, b2)), v) -
                Inner(Vec3(Inner(a, b0), Inner(a, b1), Inner(a, b2)), v)) <= 3 * TWO16 * Size(v)
  {
    SumOfError(a, b0);
    SumOfError(a, b1);
    SumOfError(a, b2);
    WeightedError(Vec3(SumOf(a, b0), SumOf(a, b1), SumOf(a, b2)),
                  Vec3(Inner(a, b0), Inner(a, b1), Inner(a, b2)), v);
  }

  lemma InnerCommutes(a: Vec3, x: Vec3)
    ensures Inner(a, x) == Inner(x, a)
  {
  }

  /** The image of v under the rows r0, r1 and r2. */
  function Image(r: (Vec3, Vec3, Vec3), v: Vec3): Vec3 {
    Vec3(SumOf(r.0, v), SumOf(r.1, v), SumOf(r.2, v))
  }

  function ExactImage(r: (Vec3, Vec3, Vec3), v: Vec3): Vec3 {
    Vec3(Inner(r.0, v), Inner(r.1, v), Inner(r.2, v))
  }

  lemma ImageSide(a: Vec3, r: (Vec3, Vec3, Vec3), v: Vec3)
    ensures Abs(TWO16 * Inner(a, Image(r, v)) - Inner(a, ExactImage(r, v))) <= 3 * TWO16 * Size(a)
  {
    SumOfError(r.0, v);
    SumOfError(r.1, v);
    SumOfError(r.2, v);
    WeightedError(Image(r, v), ExactImage(r, v), a);
    InnerCommutes(a, Image(r, v));
    InnerCommutes(a, ExactImage(r, v));
  }

  function Plus(v: Vec3, w: Vec3): Vec3 {
    Vec3(v.x + w.x, v.y + w.y, v.z + w.z)
  }

  lemma InnerPlus(a: Vec3, v: Vec3, w: Vec3)
    ensures Inner(a, Plus(v, w)) == Inner(a, v) + Inner(a, w)
  {
  }

  /** One component of the two results, before any cut to 32 bits: `a` is a row of A, b0 to b2 are B's columns. */
  lemma RowError(a: Vec3, b0: Vec3, b1: Vec3, b2: Vec3, t: Vec3, v: Vec3)
    ensures TWO16 * Abs(SumOf(Vec3(SumOf(a, b0), SumOf(a, b1), SumOf(a, b2)), v) + SumOf(a, t) -
                        SumOf(a, Plus(Image(Rows(b0, b1, b2), v), t))) <
            3 * Size(v) + 3 * Size(a) + 6 * TWO16
  {
    var m, w := Vec3(SumOf(a, b0), SumOf(a, b1), SumOf(a, b2)), Image(Rows(b0, b1, b2), v);
    ProductSide(a, b0, b1, b2, v);
    ImageSide(a, Rows(b0, b1, b2), v);
    Associates(a, b0, b1, b2, v);
    SumOfError(m, v);
    SumOfError(a, t);
    SumOfError(a, Plus(w, t));
    InnerPlus(a, w, t);
    Close(SumOf(m, v), SumOf(a, t), SumOf(a, Plus(w, t)), Inner(m, v), Inner(a, t), Inner(a, w),
          Inner(a, ExactImage(Rows(b0, b1, b2), v)), Size(v), Size(a));
  }

  lemma Close(mv: int, at: int, aw: int, mvExact: int, atExact: int, awExact: int, both: int, v: nat, a: nat)
    requires mvExact - 3 * TWO16 < TWO16 * mv <= mvExact
    requires atExact - 3 * TWO16 < TWO16 * at <= atExact
    requires awExact + atExact - 3 * TWO16 < TWO16 * aw <= awExact + atExact
    requires Abs(TWO16 * mvExact - both) <= 3 * TWO16 * v
    requires Abs(TWO16 * awExact - both) <= 3 * TWO16 * a
    ensures TWO16 * Abs(mv + at - aw) < 3 * v + 3 * a + 6 * TWO16
  {
  }

  function Row(m: Mat3, i: nat): Vec3
    requires i < 3
  {
    Vec3(At(m, i, 0), At(m, i, 1), At(m, i, 2))
  }

  /** No sum overflows 32 bits on the way to component i of the two results. */
  predicate NoWrap(c: Map3, a: Map3, b: Map3, v: Vec3, i: nat)
    requires i < 3
  {
    var w := Plus(Image(Rows(Column(b.m, 0), Column(b.m, 1), Column(b.m, 2)), v), b.t);
    && VecOk(w)
    && Int32(RowSum(a.m, i, Column(b.m, 0))) && Int32(RowSum(a.m, i, Column(b.m, 1)))
    && Int32(RowSum(a.m, i, Column(b.m, 2)))
    && Int32(RowSum(a.m, i, w) + Get(a.t, i)) && Int32(RowSum(a.m, i, b.t) + Get(a.t, i))
    && Int32(RowSum(c.m, i, v) + RowSum(a.m, i, b.t) + Get(a.t, i))
  }

  lemma InnerApply(b: Map3, v: Vec3)
    requires VecOk(Plus(Image(Rows(Column(b.m, 0), Column(b.m, 1), Column(b.m, 2)), v), b.t))
    ensures Apply(b, v) == Plus(Image(Rows(Column(b.m, 0), Column(b.m, 1), Column(b.m, 2)), v), b.t)
  {
    ApplyIs(b, v, 0);
    ApplyIs(b, v, 1);
    ApplyIs(b, v, 2);
  }

  lemma ComposedRow(c: Map3, a: Map3, b: Map3, v: Vec3, i: nat)
    requires i < 3 && IsComposed(c, a, b) && NoWrap(c, a, b, v, i)
    ensures Row(c.m, i) == Vec3(RowSum(a.m, i, Column(b.m, 0)), RowSum(a.m, i, Column(b.m, 1)),
                                RowSum(a.m, i, Column(b.m, 2)))
    ensures Get(c.t, i) == RowSum(a.m, i, b.t) + Get(a.t, i)
  {
    RowDotIs(a.m, i, Column(b.m, 0));
    RowDotIs(a.m, i, Column(b.m, 1));
    RowDotIs(a.m, i, Column(b.m, 2));
    ApplyIs(a, b.t, i);
  }

  /** Applying a composed map agrees with applying the two maps in turn up to 6 units of the last place, 3 * 2^-16 of
      the vector's size and 3 * 2^-16 of the row's. */
  lemma ComposeIsClose(c: Map3, a: Map3, b: Map3, v: Vec3, i: nat)
    requires i < 3 && IsComposed(c, a, b) && NoWrap(c, a, b, v, i)
    ensures TWO16 * Abs(Get(Apply(c, v), i) - Get(Apply(a, Apply(b, v)), i)) <
            3 * Size(v) + 3 * Size(Row(a.m, i)) + 6 * TWO16
  {
    ComposedRow(c, a, b, v, i);
    InnerApply(b, v);
    ApplyIs(c, v, i);
    ApplyIs(a, Apply(b, v), i);
    RowError(Row(a.m, i), Column(b.m, 0), Column(b.m, 1), Column(b.m, 2), b.t, v);
  }

  // ---- maps that do not wrap ----

  predicate VecWithin(v: Vec3, n: int) {
    Abs(v.x) <= n && Abs(v.y) <= n && Abs(v.z) <= n
  }

  /** Matrix entries up to 2.0 and offsets up to 256.0, as for any rotation within the scene. */
  predicate SmallMap(a: Map3) {
    (forall i :: 0 <= i < 9 ==> Abs(a.m[i]) <= 0x2_0000) && VecWithin(a.t, 0x100_0000)
  }

  lemma ProductWithin(a: int, x: int, m: nat, n: nat)
    requires Abs(a) <= m && Abs(x) <= n
    ensures -(m * n) <= a * x <= m * n
  {
    MulMonotone(Abs(a), m, Abs(x));
    MulMonotone(Abs(x), n, m);
    assert Abs(a) * Abs(x) == a * x || Abs(a) * Abs(x) == -(a * x);
  }

  lemma TermWithin(a: int, x: int, m: nat, n: nat, p: nat)
    requires Abs(a) <= m && Abs(x) <= n && m * n == p * TWO16
    ensures Abs(a * x / TWO16) <= p
  {
    ProductWithin(a, x, m, n);
    var y := a * x;
    DivBounds(y, TWO16);
    assert Abs(y) <= p * TWO16;
  }

  lemma ThreeTerms(x: int, y: int, z: int, p: nat)
    requires Abs(x) <= p && Abs(y) <= p && Abs(z) <= p
    ensures Abs(x + y + z) <= 3 * p
  {
  }

  lemma SumWithin(a: Vec3, x: Vec3, m: nat, n: nat, p: nat)
    requires VecWithin(a, m) && VecWithin(x, n) && m * n == p * TWO16
    ensures Abs(SumOf(a, x)) <= 3 * p
  {
    TermWithin(a.x, x.x, m, n, p);
    TermWithin(a.y, x.y, m, n, p);
    TermWithin(a.z, x.z, m, n, p);
    ThreeTerms(a.x * x.x / TWO16, a.y * x.y / TWO16, a.z * x.z / TWO16, p);
  }

  lemma SmallRow(a: Map3, i: nat)
    requires SmallMap(a) && i < 3
    ensures VecWithin(Row(a.m, i), 0x2_0000) && VecWithin(Column(a.m, i), 0x2_0000)
  {
  }

  lemma SmallImage(b: Map3, v: Vec3)
    requires SmallMap(b) && VecWithin(v, 0x100_0000)
    ensures VecWithin(Plus(Image(Rows(Column(b.m, 0), Column(b.m, 1), Column(b.m, 2)), v), b.t), 0x700_0000)
  {
    SmallRow(b, 0);
    SmallRow(b, 1);
    SmallRow(b, 2);
    SumWithin(Row(b.m, 0), v, 0x2_0000, 0x100_0000, 0x200_0000);
    SumWithin(Row(b.m, 1), v, 0x2_0000, 0x100_0000, 0x200_0000);
    SumWithin(Row(b.m, 2), v, 0x2_0000, 0x100_0000, 0x200_0000);
  }

  lemma SmallEntry(a: Map3, b: Map3, i: nat, j: nat)
    requires SmallMap(a) && SmallMap(b) && i < 3 && j < 3
    ensures Abs(RowSum(a.m, i, Column(b.m, j))) <= 0xC_0000
    ensures RowDot(a.m, i, Column(b.m, j)) == RowSum(a.m, i, Column(b.m, j))
  {
    SmallRow(a, i);
    SmallRow(b, j);
    SumWithin(Row(a.m, i), Column(b.m, j), 0x2_0000, 0x2_0000, 0x4_0000);
    RowDotIs(a.m, i, Column(b.m, j));
  }

  /** For such maps, and vectors up to 256.0, no sum wraps. */
  lemma SmallMapsDoNotWrap(c: Map3, a: Map3, b: Map3, v: Vec3, i: nat)
    requires i < 3 && IsComposed(c, a, b) && SmallMap(a) && SmallMap(b) && VecWithin(v, 0x100_0000)
    ensures NoWrap(c, a, b, v, i)
  {
    SmallImage(b, v);
    SmallEntry(a, b, i, 0);
    SmallEntry(a, b, i, 1);
    SmallEntry(a, b, i, 2);
    SmallRow(a, i);
    var w := Plus(Image(Rows(Column(b.m, 0), Column(b.m, 1), Column(b.m, 2)), v), b.t);
    SumWithin(Row(a.m, i), w, 0x2_0000, 0x700_0000, 0xE00_0000);
    SumWithin(Row(a.m, i), b.t, 0x2_0000, 0x100_0000, 0x200_0000);
    SumWithin(Row(c.m, i), v, 0xC_0000, 0x100_0000, 0xC00_0000);
  }
}
