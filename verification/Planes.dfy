/**
  Bit-planar tiles and the de-duplicated tile table (swizzle_tile and main of tools/gen_probe_dog.c; the same packing
  closes quantize in tools/fmv_encode.c).

  A tile is 32 bytes: row y has its plane-0 and plane-1 bits in bytes 2y and 2y + 1 and its plane-2 and plane-3 bits
  in bytes 16 + 2y and 17 + 2y, leftmost pixel in the top bit.
*/
module Planes {

  /** Bit number of the pixel in column x, 7 - x. */
  function Shift(x: nat): (s: bv8)
    requires x < 8
    ensures s < 8
  {
    if x == 0 then 7 else if x == 1 then 6 else if x == 2 then 5 else if x == 3 then 4
    else if x == 4 then 3 else if x == 5 then 2 else if x == 6 then 1 else 0
  }

  lemma ShiftInjective(x: nat, y: nat)
    requires x < 8 && y < 8
    ensures Shift(x) == Shift(y) <==> x == y
  {
  }

  function Bit(b: bv8, s: bv8): bv8
    requires s < 8
  {
    (b >> s) & 1
  }

  /** Bit p of a pixel value, moved to bit s. */
  function PlaneBit(c: bv8, p: bv8, s: bv8): bv8
    requires p < 4 && s < 8
  {
    ((c >> p) & 1) << s
  }

  lemma OrBit(b: bv8, c: bv8, p: bv8, s: bv8, t: bv8)
    requires p < 4 && s < 8 && t < 8
    ensures Bit(b | PlaneBit(c, p, s), t) == if s == t then Bit(b, t) | ((c >> p) & 1) else Bit(b, t)
  {
  }

  /** A pixel value from its four bits. */
  function Combine(b0: bv8, b1: bv8, b2: bv8, b3: bv8): bv8 {
    b0 | (b1 << 1) | (b2 << 2) | (b3 << 3)
  }

  /** The pixel in row y, column x of a packed tile. */
  function Unpack(t: seq<bv8>, y: nat, x: nat): bv8
    requires |t| == 32 && y < 8 && x < 8
  {
    Combine(Bit(t[2 * y], Shift(x)), Bit(t[2 * y + 1], Shift(x)),
            Bit(t[16 + 2 * y], Shift(x)), Bit(t[17 + 2 * y], Shift(x)))
  }

  /** Each bit of the four planes is visible in the pixels. */
  lemma CombineInjective(a0: bv8, a1: bv8, a2: bv8, a3: bv8, b0: bv8, b1: bv8, b2: bv8, b3: bv8)
    requires a0 <= 1 && a1 <= 1 && a2 <= 1 && a3 <= 1 && b0 <= 1 && b1 <= 1 && b2 <= 1 && b3 <= 1
    ensures Combine(a0, a1, a2, a3) == Combine(b0, b1, b2, b3) <==> a0 == b0 && a1 == b1 && a2 == b2 && a3 == b3
  {
  }

  lemma ByteFromBits(a: bv8, b: bv8)
    requires Bit(a, 7) == Bit(b, 7) && Bit(a, 6) == Bit(b, 6) && Bit(a, 5) == Bit(b, 5) && Bit(a, 4) == Bit(b, 4)
    requires Bit(a, 3) == Bit(b, 3) && Bit(a, 2) == Bit(b, 2) && Bit(a, 1) == Bit(b, 1) && Bit(a, 0) == Bit(b, 0)
    ensures a == b
  {
  }

  lemma BitIsBit(a: bv8, s: bv8)
    requires s < 8
    ensures Bit(a, s) <= 1
  {
  }

  /** Two packed tiles with the same pixels are the same bytes. */
  lemma TileFromPixels(t: seq<bv8>, u: seq<bv8>)
    requires |t| == |u| == 32
    requires forall y, x :: 0 <= y < 8 && 0 <= x < 8 ==> Unpack(t, y, x) == Unpack(u, y, x)
    ensures t == u
  {
    forall y | 0 <= y < 8
      ensures t[2 * y] == u[2 * y] && t[2 * y + 1] == u[2 * y + 1]
      ensures t[16 + 2 * y] == u[16 + 2 * y] && t[17 + 2 * y] == u[17 + 2 * y]
    {
      RowFromPixels(t, u, y);
    }
    forall i | 0 <= i < 32
      ensures t[i] == u[i]
    {
      var y := i / 2 % 8;
      assert i == 2 * y || i == 2 * y + 1 || i == 16 + 2 * y || i == 17 + 2 * y;
    }
  }

  lemma RowFromPixels(t: seq<bv8>, u: seq<bv8>, y: nat)
    requires |t| == |u| == 32 && y < 8
    requires forall x :: 0 <= x < 8 ==> Unpack(t, y, x) == Unpack(u, y, x)
    ensures t[2 * y] == u[2 * y] && t[2 * y + 1] == u[2 * y + 1]
    ensures t[16 + 2 * y] == u[16 + 2 * y] && t[17 + 2 * y] == u[17 + 2 * y]
  {
    forall i | i == 2 * y || i == 2 * y + 1 || i == 16 + 2 * y || i == 17 + 2 * y
      ensures t[i] == u[i]
    {
      forall x | 0 <= x < 8
        ensures Bit(t[i], Shift(x)) == Bit(u[i], Shift(x))
      {
        PixelBits(t, u, y, x);
      }
      assert Shift(0) == 7 && Shift(1) == 6 && Shift(2) == 5 && Shift(3) == 4;
      assert Shift(4) == 3 && Shift(5) == 2 && Shift(6) == 1 && Shift(7) == 0;
      ByteFromBits(t[i], u[i]);
    }
  }

  lemma PixelBits(t: seq<bv8>, u: seq<bv8>, y: nat, x: nat)
    requires |t| == |u| == 32 && y < 8 && x < 8 && Unpack(t, y, x) == Unpack(u, y, x)
    ensures Bit(t[2 * y], Shift(x)) == Bit(u[2 * y], Shift(x))
    ensures Bit(t[2 * y + 1], Shift(x)) == Bit(u[2 * y + 1], Shift(x))
    ensures Bit(t[16 + 2 * y], Shift(x)) == Bit(u[16 + 2 * y], Shift(x))
    ensures Bit(t[17 + 2 * y], Shift(x)) == Bit(u[17 + 2 * y], Shift(x))
  {
    var s := Shift(x);
    BitIsBit(t[2 * y], s);
    BitIsBit(t[2 * y + 1], s);
    BitIsBit(t[16 + 2 * y], s);
    BitIsBit(t[17 + 2 * y], s);
    BitIsBit(u[2 * y], s);
    BitIsBit(u[2 * y + 1], s);
    BitIsBit(u[16 + 2 * y], s);
    BitIsBit(u[17 + 2 * y], s);
    CombineInjective(Bit(t[2 * y], s), Bit(t[2 * y + 1], s), Bit(t[16 + 2 * y], s), Bit(t[17 + 2 * y], s),
                     Bit(u[2 * y], s), Bit(u[2 * y + 1], s), Bit(u[16 + 2 * y], s), Bit(u[17 + 2 * y], s));
  }

  /** In masks: the leftmost pixel is in the top bit, and the four bits of its value are in bytes 2y, 2y + 1, 16 + 2y and
      17 + 2y. */
  lemma PlanesOf(t: seq<bv8>, y: nat, x: nat)
    requires |t| == 32 && y < 8 && x < 8
    ensures var c, m: bv8 := Unpack(t, y, x),
                  if x == 0 then 0x80 else if x == 1 then 0x40 else if x == 2 then 0x20 else if x == 3 then 0x10
                  else if x == 4 then 0x08 else if x == 5 then 0x04 else if x == 6 then 0x02 else 0x01;
            && (t[2 * y] & m != 0 <==> c & 1 != 0) && (t[2 * y + 1] & m != 0 <==> c & 2 != 0)
            && (t[16 + 2 * y] & m != 0 <==> c & 4 != 0) && (t[17 + 2 * y] & m != 0 <==> c & 8 != 0)
  {
    var s := Shift(x);
    BitMask(t[2 * y], s);
    BitMask(t[2 * y + 1], s);
    BitMask(t[16 + 2 * y], s);
    BitMask(t[17 + 2 * y], s);
    CombineBits(Bit(t[2 * y], s), Bit(t[2 * y + 1], s), Bit(t[16 + 2 * y], s), Bit(t[17 + 2 * y], s));
  }

  lemma BitMask(b: bv8, s: bv8)
    requires s < 8
    ensures Bit(b, s) <= 1
    ensures Bit(b, s) == 1 <==> b & (if s == 7 then 0x80 else if s == 6 then 0x40 else if s == 5 then 0x20 else if s == 4 then 0x10
                                     else if s == 3 then 0x08 else if s == 2 then 0x04 else if s == 1 then 0x02 else 0x01) != 0
  {
  }

  lemma CombineBits(b0: bv8, b1: bv8, b2: bv8, b3: bv8)
    requires b0 <= 1 && b1 <= 1 && b2 <= 1 && b3 <= 1
    ensures var c := Combine(b0, b1, b2, b3);
            && (c & 1 != 0 <==> b0 == 1) && (c & 2 != 0 <==> b1 == 1)
            && (c & 4 != 0 <==> b2 == 1) && (c & 8 != 0 <==> b3 == 1)
  {
  }

  // ---- packing ----

  /** The tile with the pixel `c` OR-ed in at row y, column x. */
  function OrPixel(t: seq<bv8>, y: nat, x: nat, c: bv8): (u: seq<bv8>)
    requires |t| == 32 && y < 8 && x < 8
    ensures |u| == 32
  {
    var s := Shift(x);
    t[2 * y := t[2 * y] | PlaneBit(c, 0, s)][2 * y + 1 := t[2 * y + 1] | PlaneBit(c, 1, s)]
     [16 + 2 * y := t[16 + 2 * y] | PlaneBit(c, 2, s)][17 + 2 * y := t[17 + 2 * y] | PlaneBit(c, 3, s)]
  }

  lemma ZeroOr(b0: bv8, b1: bv8, b2: bv8, b3: bv8, c: bv8)
    requires b0 <= 1 && b1 <= 1 && b2 <= 1 && b3 <= 1 && Combine(b0, b1, b2, b3) == 0
    ensures Combine(b0 | ((c >> 0) & 1), b1 | ((c >> 1) & 1), b2 | ((c >> 2) & 1), b3 | ((c >> 3) & 1)) == c & 15
  {
  }

  lemma OrRow(b0: bv8, b1: bv8, b2: bv8, b3: bv8, c: bv8, s: bv8, t: bv8)
    requires s < 8 && t < 8
    requires Combine(Bit(b0, s), Bit(b1, s), Bit(b2, s), Bit(b3, s)) == 0
    ensures Combine(Bit(b0 | PlaneBit(c, 0, s), t), Bit(b1 | PlaneBit(c, 1, s), t),
                    Bit(b2 | PlaneBit(c, 2, s), t), Bit(b3 | PlaneBit(c, 3, s), t)) ==
            if s == t then c & 15 else Combine(Bit(b0, t), Bit(b1, t), Bit(b2, t), Bit(b3, t))
  {
    OrBit(b0, c, 0, s, t);
    OrBit(b1, c, 1, s, t);
    OrBit(b2, c, 2, s, t);
    OrBit(b3, c, 3, s, t);
    if s == t {
      BitIsBit(b0, s);
      BitIsBit(b1, s);
      BitIsBit(b2, s);
      BitIsBit(b3, s);
      ZeroOr(Bit(b0, s), Bit(b1, s), Bit(b2, s), Bit(b3, s), c);
    }
  }

  /** OrPixel changes the four bytes of its row and no others. */
  lemma OrPixelBytes(t: seq<bv8>, y: nat, x: nat, c: bv8)
    requires |t| == 32 && y < 8 && x < 8
    ensures OrPixel(t, y, x, c)[2 * y] == t[2 * y] | PlaneBit(c, 0, Shift(x))
    ensures OrPixel(t, y, x, c)[2 * y + 1] == t[2 * y + 1] | PlaneBit(c, 1, Shift(x))
    ensures OrPixel(t, y, x, c)[16 + 2 * y] == t[16 + 2 * y] | PlaneBit(c, 2, Shift(x))
    ensures OrPixel(t, y, x, c)[17 + 2 * y] == t[17 + 2 * y] | PlaneBit(c, 3, Shift(x))
    ensures forall i :: 0 <= i < 32 && i / 2 % 8 != y ==> OrPixel(t, y, x, c)[i] == t[i]
  {
  }

  lemma RowStays(t: seq<bv8>, t': seq<bv8>, v: nat, u: nat)
    requires |t| == |t'| == 32 && v < 8 && u < 8
    requires t'[2 * v] == t[2 * v] && t'[2 * v + 1] == t[2 * v + 1]
    requires t'[16 + 2 * v] == t[16 + 2 * v] && t'[17 + 2 * v] == t[17 + 2 * v]
    ensures Unpack(t', v, u) == Unpack(t, v, u)
  {
  }

  lemma RowChanges(t: seq<bv8>, t': seq<bv8>, y: nat, x: nat, c: bv8, u: nat)
    requires |t| == |t'| == 32 && y < 8 && x < 8 && u < 8 && Unpack(t, y, x) == 0
    requires t'[2 * y] == t[2 * y] | PlaneBit(c, 0, Shift(x))
    requires t'[2 * y + 1] == t[2 * y + 1] | PlaneBit(c, 1, Shift(x))
    requires t'[16 + 2 * y] == t[16 + 2 * y] | PlaneBit(c, 2, Shift(x))
    requires t'[17 + 2 * y] == t[17 + 2 * y] | PlaneBit(c, 3, Shift(x))
    ensures Unpack(t', y, u) == if u == x then c & 15 else Unpack(t, y, u)
  {
    ShiftInjective(x, u);
    OrRow(t[2 * y], t[2 * y + 1], t[16 + 2 * y], t[17 + 2 * y], c, Shift(x), Shift(u));
  }

  /** OR-ing a pixel into an empty place puts it there and leaves every other pixel alone. */
  lemma OrPixelPlaces(t: seq<bv8>, t': seq<bv8>, y: nat, x: nat, c: bv8, v: nat, u: nat)
    requires |t| == 32 && y < 8 && x < 8 && v < 8 && u < 8
    requires Unpack(t, y, x) == 0 && t' == OrPixel(t, y, x, c)
    ensures Unpack(t', v, u) == if v == y && u == x then c & 15 else Unpack(t, v, u)
  {
    OrPixelBytes(t, y, x, c);
    if v == y {
      RowChanges(t, t', y, x, c, u);
    } else {
      RowStays(t, t', v, u);
    }
  }

  /** An image of palette indices, at least `h` rows of at least `w` pixels. */
  predicate IsImage(img: seq<seq<bv8>>, w: nat, h: nat) {
    |img| >= h && forall y :: 0 <= y < h ==> |img[y]| >= w
  }

  /** A palette index, as four bits. */
  function Pixel(img: seq<seq<bv8>>, y: nat, x: nat): bv8
    requires y < |img| && x < |img[y]|
  {
    img[y][x] & 15
  }

  /** `t` is the cell at (tx, ty) of the image, packed. */
  ghost predicate Packs(t: seq<bv8>, img: seq<seq<bv8>>, tx: nat, ty: nat) {
    && |t| == 32 && IsImage(img, tx + 8, ty + 8)
    && forall y, x :: 0 <= y < 8 && 0 <= x < 8 ==> Unpack(t, y, x) == Pixel(img, ty + y, tx + x)
  }

  /** Pixels before row y, column x are packed; the others are still empty. */
  ghost predicate PackedUpTo(t: seq<bv8>, img: seq<seq<bv8>>, tx: nat, ty: nat, y: nat, x: nat) {
    && |t| == 32 && IsImage(img, tx + 8, ty + 8)
    && forall v, u :: 0 <= v < 8 && 0 <= u < 8 ==>
         Unpack(t, v, u) == if v < y || (v == y && u < x) then Pixel(img, ty + v, tx + u) else 0
  }

  lemma PackStep(t: seq<bv8>, img: seq<seq<bv8>>, tx: nat, ty: nat, y: nat, x: nat)
    requires PackedUpTo(t, img, tx, ty, y, x) && y < 8 && x < 8
    ensures PackedUpTo(OrPixel(t, y, x, Pixel(img, ty + y, tx + x)), img, tx, ty, y, x + 1)
  {
    var c := img[ty + y][tx + x];
    assert (c & 15) & 15 == c & 15;
    var t' := OrPixel(t, y, x, c & 15);
    forall v, u | 0 <= v < 8 && 0 <= u < 8
      ensures Unpack(t', v, u) == if v < y || (v == y && u < x + 1) then Pixel(img, ty + v, tx + u) else 0
    {
      OrPixelPlaces(t, t', y, x, c & 15, v, u);
    }
  }

  lemma ZeroTile(t: seq<bv8>, img: seq<seq<bv8>>, tx: nat, ty: nat)
    requires |t| == 32 && IsImage(img, tx + 8, ty + 8) && forall i :: 0 <= i < 32 ==> t[i] == 0
    ensures PackedUpTo(t, img, tx, ty, 0, 0)
  {
  }

  /** The four OR-assignments of the inner loop of swizzle_tile. */
  method OrInto(out: array<bv8>, y: nat, x: nat, c: bv8)
    requires out.Length == 32 && y < 8 && x < 8
    modifies out
    ensures out[..] == OrPixel(old(out[..]), y, x, c)
  {
    var bit := Shift(x);
    ghost var t := out[..];
    OrByte(out, 2 * y, PlaneBit(c, 0, bit));
    OrByte(out, 2 * y + 1, PlaneBit(c, 1, bit));
    OrByte(out, 16 + 2 * y, PlaneBit(c, 2, bit));
    OrByte(out, 17 + 2 * y, PlaneBit(c, 3, bit));
    FourSet(out[..], t, 2 * y, t[2 * y] | PlaneBit(c, 0, bit), t[2 * y + 1] | PlaneBit(c, 1, bit),
            t[16 + 2 * y] | PlaneBit(c, 2, bit), t[17 + 2 * y] | PlaneBit(c, 3, bit));
  }

  method OrByte(out: array<bv8>, i: nat, b: bv8)
    requires i < out.Length
    modifies out
    ensures out[i] == old(out[i]) | b
    ensures forall j :: 0 <= j < out.Length && j != i ==> out[j] == old(out[j])
  {
    out[i] := out[i] | b;
  }

  lemma FourSet<T>(u: seq<T>, t: seq<T>, i: nat, a: T, b: T, c: T, d: T)
    requires |u| == |t| == 32 && i < 15 && u[i] == a && u[i + 1] == b && u[16 + i] == c && u[17 + i] == d
    requires forall j :: 0 <= j < 32 && j != i && j != i + 1 && j != 16 + i && j != 17 + i ==> u[j] == t[j]
    ensures u == t[i := a][i + 1 := b][16 + i := c][17 + i := d]
  {
  }

  /** swizzle_tile: unpacking the result gives back every pixel's low four bits. */
  method SwizzleTile(img: seq<seq<bv8>>, tx: nat, ty: nat, out: array<bv8>)
    requires IsImage(img, tx + 8, ty + 8) && out.Length == 32
    modifies out
    ensures Packs(out[..], img, tx, ty)
  {
    forall i | 0 <= i < 32 {
      out[i] := 0;
    }
    ZeroTile(out[..], img, tx, ty);
    var yy := 0;
    while yy < 8
      invariant yy <= 8 && PackedUpTo(out[..], img, tx, ty, yy, 0)
    {
      var xx := 0;
      while xx < 8
        invariant xx <= 8 && PackedUpTo(out[..], img, tx, ty, yy, xx)
      {
        PackStep(out[..], img, tx, ty, yy, xx);
        OrInto(out, yy, xx, img[ty + yy][tx + xx] & 15);
        xx := xx + 1;
      }
      RowDone(out[..], img, tx, ty, yy);
      yy := yy + 1;
    }
    AllPacked(out[..], img, tx, ty);
  }

  lemma RowDone(t: seq<bv8>, img: seq<seq<bv8>>, tx: nat, ty: nat, y: nat)
    requires PackedUpTo(t, img, tx, ty, y, 8)
    ensures PackedUpTo(t, img, tx, ty, y + 1, 0)
  {
  }

  lemma AllPacked(t: seq<bv8>, img: seq<seq<bv8>>, tx: nat, ty: nat)
    requires PackedUpTo(t, img, tx, ty, 8, 0)
    ensures Packs(t, img, tx, ty)
  {
  }

  // ---- the de-duplicated table ----

  /** No tile occurs twice. */
  ghost predicate AllDistinct(uniq: seq<seq<bv8>>) {
    forall i, j :: 0 <= i < j < |uniq| ==> uniq[i] != uniq[j]
  }

  /** The tile map has 32 entries a row, however wide the image. */
  const STRIDE := 32

  /** The map entry of the cell in row r, column c names a tile with that cell's pixels. */
  ghost predicate CellMapped(uniq: seq<seq<bv8>>, tiles: seq<nat>, img: seq<seq<bv8>>, r: nat, c: nat) {
    && STRIDE * r + c < |tiles| && tiles[STRIDE * r + c] < |uniq|
    && Packs(uniq[tiles[STRIDE * r + c]], img, 8 * c, 8 * r)
  }

  /** The two cells show the same pixels. */
  ghost predicate SameCell(img: seq<seq<bv8>>, r: nat, c: nat, r': nat, c': nat)
    requires IsImage(img, 8 * c + 8, 8 * r + 8) && IsImage(img, 8 * c' + 8, 8 * r' + 8)
  {
    forall y, x :: 0 <= y < 8 && 0 <= x < 8 ==> SamePixel(img, r, c, r', c', y, x)
  }

  ghost predicate SamePixel(img: seq<seq<bv8>>, r: nat, c: nat, r': nat, c': nat, y: nat, x: nat)
    requires IsImage(img, 8 * c + 8, 8 * r + 8) && IsImage(img, 8 * c' + 8, 8 * r' + 8) && y < 8 && x < 8
  {
    Pixel(img, 8 * r + y, 8 * c + x) == Pixel(img, 8 * r' + y, 8 * c' + x)
  }

  lemma PixelOfTile(t: seq<bv8>, img: seq<seq<bv8>>, tx: nat, ty: nat, y: nat, x: nat)
    requires Packs(t, img, tx, ty) && y < 8 && x < 8
    ensures Unpack(t, y, x) == Pixel(img, ty + y, tx + x)
  {
  }

  /** Equal cells pack to equal bytes. */
  lemma PackedAlike(t: seq<bv8>, u: seq<bv8>, img: seq<seq<bv8>>, r: nat, c: nat, r': nat, c': nat)
    requires Packs(t, img, 8 * c, 8 * r) && Packs(u, img, 8 * c', 8 * r')
    ensures t == u <==> SameCell(img, r, c, r', c')
  {
    forall y, x | 0 <= y < 8 && 0 <= x < 8
      ensures Unpack(t, y, x) == Unpack(u, y, x) <==> SamePixel(img, r, c, r', c', y, x)
    {
      PixelOfTile(t, img, 8 * c, 8 * r, y, x);
      PixelOfTile(u, img, 8 * c', 8 * r', y, x);
    }
    if SameCell(img, r, c, r', c') {
      TileFromPixels(t, u);
    }
  }

  /** Two cells share a table entry exactly if they have the same pixels. */
  lemma SharedIffEqual(uniq: seq<seq<bv8>>, tiles: seq<nat>, img: seq<seq<bv8>>, r: nat, c: nat, r': nat, c': nat)
    requires AllDistinct(uniq)
    requires CellMapped(uniq, tiles, img, r, c) && CellMapped(uniq, tiles, img, r', c')
    ensures tiles[STRIDE * r + c] == tiles[STRIDE * r' + c'] <==> SameCell(img, r, c, r', c')
  {
    PackedAlike(uniq[tiles[STRIDE * r + c]], uniq[tiles[STRIDE * r' + c']], img, r, c, r', c');
  }

  /** Cell number i of the map belongs to the first `w` columns of the rows before r, or of row r before column c. */
  predicate Visited(i: nat, w: nat, r: nat, c: nat) {
    i % STRIDE < w && (i / STRIDE < r || (i / STRIDE == r && i % STRIDE < c))
  }

  /** The table and the map after the cells before (r, c): no tile twice, each of those cells mapped, each tile used,
      and the entries of all other cells still 0. */
  ghost predicate Tabled(uniq: seq<seq<bv8>>, tiles: seq<nat>, img: seq<seq<bv8>>, w: nat, r: nat, c: nat) {
    && |tiles| == STRIDE * STRIDE && AllDistinct(uniq) && |uniq| <= STRIDE * r + c
    && (forall i :: 0 <= i < |tiles| && !Visited(i, w, r, c) ==> tiles[i] == 0)
    && (forall i :: 0 <= i < |tiles| && Visited(i, w, r, c) ==> CellMapped(uniq, tiles, img, i / STRIDE, i % STRIDE))
    && (forall u :: 0 <= u < |uniq| ==> Used(tiles, w, r, c, u))
  }

  ghost predicate Used(tiles: seq<nat>, w: nat, r: nat, c: nat, u: nat) {
    exists i :: 0 <= i < |tiles| && Visited(i, w, r, c) && tiles[i] == u
  }

  lemma NextCell(i: nat, w: nat, r: nat, c: nat)
    requires c < w <= STRIDE
    ensures Visited(i, w, r, c + 1) <==> Visited(i, w, r, c) || i == STRIDE * r + c
    ensures !Visited(STRIDE * r + c, w, r, c)
    ensures (STRIDE * r + c) / STRIDE == r && (STRIDE * r + c) % STRIDE == c
  {
  }

  lemma UsedStep(tiles: seq<nat>, tiles': seq<nat>, w: nat, r: nat, c: nat, idx: nat, u: nat)
    requires |tiles'| == |tiles| == STRIDE * STRIDE && r < STRIDE && c < w <= STRIDE
    requires tiles'[STRIDE * r + c] == idx
    requires forall i :: 0 <= i < |tiles| && i != STRIDE * r + c ==> tiles'[i] == tiles[i]
    requires Used(tiles, w, r, c, u) || u == idx
    ensures Used(tiles', w, r, c + 1, u)
  {
    NextCell(STRIDE * r + c, w, r, c);
    if u == idx {
      assert tiles'[STRIDE * r + c] == u;
    } else {
      var i :| 0 <= i < |tiles| && Visited(i, w, r, c) && tiles[i] == u;
      NextCell(i, w, r, c);
      assert tiles'[i] == u;
    }
  }

  lemma MappedStep(uniq: seq<seq<bv8>>, tiles: seq<nat>, uniq': seq<seq<bv8>>, tiles': seq<nat>, img: seq<seq<bv8>>,
                   r: nat, c: nat)
    requires CellMapped(uniq, tiles, img, r, c) && |tiles'| == |tiles| && uniq <= uniq'
    requires tiles'[STRIDE * r + c] == tiles[STRIDE * r + c]
    ensures CellMapped(uniq', tiles', img, r, c)
  {
  }

  lemma DistinctStep(uniq: seq<seq<bv8>>, t: seq<bv8>)
    requires AllDistinct(uniq) && t !in uniq
    ensures AllDistinct(uniq + [t])
  {
  }

  /** Mapping one more cell, to an old tile or to a new last one, keeps the table in order. */
  lemma TableStep(uniq: seq<seq<bv8>>, tiles: seq<nat>, uniq': seq<seq<bv8>>, tiles': seq<nat>, img: seq<seq<bv8>>,
                  w: nat, r: nat, c: nat, idx: nat)
    requires Tabled(uniq, tiles, img, w, r, c) && r < STRIDE && c < w <= STRIDE
    requires |tiles'| == |tiles| && tiles'[STRIDE * r + c] == idx
    requires forall i :: 0 <= i < |tiles| && i != STRIDE * r + c ==> tiles'[i] == tiles[i]
    requires idx < |uniq'| && Packs(uniq'[idx], img, 8 * c, 8 * r)
    requires uniq' == uniq || (idx == |uniq| && uniq' == uniq + [uniq'[idx]] && uniq'[idx] !in uniq)
    ensures Tabled(uniq', tiles', img, w, r, c + 1)
  {
    var next, k := c + 1, STRIDE * r + c;
    NextCell(k, w, r, c);
    assert CellMapped(uniq', tiles', img, r, c);
    forall i | 0 <= i < |tiles|
      ensures !Visited(i, w, r, next) ==> tiles'[i] == 0
      ensures Visited(i, w, r, next) ==> CellMapped(uniq', tiles', img, i / STRIDE, i % STRIDE)
    {
      NextCell(i, w, r, c);
      if Visited(i, w, r, c) {
        MappedStep(uniq, tiles, uniq', tiles', img, i / STRIDE, i % STRIDE);
      }
    }
    forall u | 0 <= u < |uniq'|
      ensures Used(tiles', w, r, next, u)
    {
      UsedStep(tiles, tiles', w, r, c, idx, u);
    }
    if uniq' != uniq {
      DistinctStep(uniq, uniq'[idx]);
    }
  }

  lemma TableRow(uniq: seq<seq<bv8>>, tiles: seq<nat>, img: seq<seq<bv8>>, w: nat, r: nat)
    requires Tabled(uniq, tiles, img, w, r, w) && w <= STRIDE
    ensures Tabled(uniq, tiles, img, w, r + 1, 0)
  {
    var next := r + 1;
    forall i: nat
      ensures Visited(i, w, next, 0) <==> Visited(i, w, r, w)
    {
    }
    forall u | 0 <= u < |uniq|
      ensures Used(tiles, w, next, 0, u)
    {
      assert Used(tiles, w, r, w, u);
      var i :| 0 <= i < |tiles| && Visited(i, w, r, w) && tiles[i] == u;
      assert Visited(i, w, next, 0);
    }
  }

  /** The search for a known tile with the same bytes. */
  method FindTile(uniq: seq<seq<bv8>>, t: seq<bv8>) returns (idx: int)
    ensures -1 <= idx < |uniq|
    ensures idx >= 0 ==> uniq[idx] == t
    ensures idx < 0 ==> t !in uniq
  {
    var u := 0;
    while u < |uniq|
      invariant u <= |uniq| && t !in uniq[..u]
    {
      if uniq[u] == t {
        return u;
      }
      u := u + 1;
    }
    return -1;
  }

  /** One turn of the inner loop of main. */
  method MapCell(uniq: seq<seq<bv8>>, tiles: array<nat>, img: seq<seq<bv8>>, w: nat, r: nat, c: nat)
    returns (uniq': seq<seq<bv8>>)
    requires IsImage(img, 8 * c + 8, 8 * r + 8) && r < STRIDE && c < w <= STRIDE
    requires Tabled(uniq, tiles[..], img, w, r, c)
    modifies tiles
    ensures Tabled(uniq', tiles[..], img, w, r, c + 1)
  {
    var t := new bv8[32];
    SwizzleTile(img, 8 * c, 8 * r, t);
    var idx := FindTile(uniq, t[..]);
    uniq' := uniq;
    ghost var before := tiles[..];
    if idx < 0 {
      assert |uniq| < STRIDE * STRIDE;
      idx := |uniq|;
      uniq' := uniq + [t[..]];
    }
    tiles[STRIDE * r + c] := idx;
    TableStep(uniq, before, uniq', tiles[..], img, w, r, c, idx);
  }

  /** The table-building loops of main, for any image of at most 32 by 32 cells. */
  method BuildMap(img: seq<seq<bv8>>, w: nat, h: nat) returns (uniq: seq<seq<bv8>>, tiles: array<nat>)
    requires IsImage(img, 8 * w, 8 * h) && w <= STRIDE && h <= STRIDE
    ensures fresh(tiles) && tiles.Length == STRIDE * STRIDE
    ensures Tabled(uniq, tiles[..], img, w, h, 0)
  {
    uniq := [];
    tiles := new nat[STRIDE * STRIDE](_ => 0);
    var r := 0;
    while r < h
      invariant r <= h && fresh(tiles) && tiles.Length == STRIDE * STRIDE
      invariant Tabled(uniq, tiles[..], img, w, r, 0)
    {
      var c := 0;
      while c < w
        invariant c <= w && fresh(tiles) && tiles.Length == STRIDE * STRIDE
        invariant Tabled(uniq, tiles[..], img, w, r, c)
      {
        uniq := MapCell(uniq, tiles, img, w, r, c);
        c := c + 1;
      }
      TableRow(uniq, tiles[..], img, w, r);
      r := r + 1;
    }
  }

  lemma EveryCellMapped(uniq: seq<seq<bv8>>, tiles: seq<nat>, img: seq<seq<bv8>>, w: nat, h: nat, r: nat, c: nat)
    requires Tabled(uniq, tiles, img, w, h, 0) && r < h <= STRIDE && c < w <= STRIDE
    ensures CellMapped(uniq, tiles, img, r, c)
  {
    var i := STRIDE * r + c;
    NextCell(i, w, r, c);
    assert Visited(i, w, h, 0) && 0 <= i < |tiles|;
    assert CellMapped(uniq, tiles, img, i / STRIDE, i % STRIDE);
  }

  /** Looking a cell up in the finished table gives back its pixels, whatever the image. */
  lemma LookupReproduces(uniq: seq<seq<bv8>>, tiles: seq<nat>, img: seq<seq<bv8>>, w: nat, h: nat, r: nat, c: nat,
                         y: nat, x: nat)
    requires Tabled(uniq, tiles, img, w, h, 0) && r < h <= STRIDE && c < w <= STRIDE && y < 8 && x < 8
    ensures CellMapped(uniq, tiles, img, r, c)
    ensures Unpack(uniq[tiles[STRIDE * r + c]], y, x) == Pixel(img, 8 * r + y, 8 * c + x)
  {
    EveryCellMapped(uniq, tiles, img, w, h, r, c);
    PixelOfTile(uniq[tiles[STRIDE * r + c]], img, 8 * c, 8 * r, y, x);
  }
}
