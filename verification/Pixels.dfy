/** Colours and their distance, shared by the quantizer's modules (tools/fmv_encode.c). */
module Pixels {

  datatype Col = Col(r: int, g: int, b: int)

  const BLACK := Col(0, 0, 0)

  function Chan(c: Col, a: nat): int {
    if a == 0 then c.r else if a == 1 then c.g else c.b
  }

  function Square(x: int): (s: int)
    ensures s >= 0
  {
    x * x
  }

  /** cdist. */
  function Dist(x: Col, y: Col): nat {
    Square(x.r - y.r) + Square(x.g - y.g) + Square(x.b - y.b)
  }

  function SumChan(s: seq<Col>, a: nat): int {
    if s == [] then 0 else Chan(s[0], a) + SumChan(s[1..], a)
  }

  /** The truncated mean the encoder uses for a box and for a cluster. */
  function Mean(s: seq<Col>): Col
    requires s != []
  {
    Col(SumChan(s, 0) / |s|, SumChan(s, 1) / |s|, SumChan(s, 2) / |s|)
  }

  lemma {:induction false} SumChanAppend(s: seq<Col>, c: Col, a: nat)
    ensures SumChan(s + [c], a) == SumChan(s, a) + Chan(c, a)
  {
    if s != [] {
      assert (s + [c])[1..] == s[1..] + [c];
      SumChanAppend(s[1..], c, a);
    } else {
      assert s + [c] == [c];
    }
  }

  /** Distance to the nearest of the backdrop and a palette's colours. */
  function Nearest(x: Col, pal: seq<Col>, bg: Col): nat {
    if pal == [] then Dist(x, bg)
    else
      var d := Nearest(x, pal[..|pal| - 1], bg);
      var e := Dist(x, pal[|pal| - 1]);
      if e < d then e else d
  }

  lemma {:induction false} NearestIsLeast(x: Col, pal: seq<Col>, bg: Col)
    ensures Nearest(x, pal, bg) <= Dist(x, bg)
    ensures forall k :: 0 <= k < |pal| ==> Nearest(x, pal, bg) <= Dist(x, pal[k])
    ensures Nearest(x, pal, bg) == Dist(x, bg) || exists k :: 0 <= k < |pal| && Nearest(x, pal, bg) == Dist(x, pal[k])
  {
    if pal != [] {
      var p := pal[..|pal| - 1];
      NearestIsLeast(x, p, bg);
      assert forall k :: 0 <= k < |p| ==> pal[k] == p[k];
    }
  }

  /** Error of a pool of pixels, or of one tile (tile_err), against a palette. */
  function PoolErr(pool: seq<Col>, pal: seq<Col>, bg: Col): nat {
    if pool == [] then 0 else Nearest(pool[0], pal, bg) + PoolErr(pool[1..], pal, bg)
  }

  lemma {:induction false} PoolErrAppend(pool: seq<Col>, x: Col, pal: seq<Col>, bg: Col)
    ensures PoolErr(pool + [x], pal, bg) == PoolErr(pool, pal, bg) + Nearest(x, pal, bg)
  {
    if pool == [] {
      assert pool + [x] == [x] && [x][1..] == [];
    } else {
      assert (pool + [x])[1..] == pool[1..] + [x];
      PoolErrAppend(pool[1..], x, pal, bg);
    }
  }
}
