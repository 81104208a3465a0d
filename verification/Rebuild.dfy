/**
  Rebuilding the palettes (build_palette in tools/fmv_encode.c): the pixels of a palette's tiles are gathered, median cut
  seeds the colours, Lloyd passes refine them.
*/
module Rebuild {
  import opened Arith
  import opened Pixels
  import opened Cuts = MedianCut
  import opened Lloyd
  import opened Refine

  /** A history of Lloyd passes, from one palette to another: every colour of each palette is where the pass moves the
      same colour of the palette before. */
  ghost predicate IsRefinement(pals: seq<seq<Col>>, pool: seq<Col>, bg: Col) {
    && pals != []
    && forall i :: 0 <= i < |pals| - 1 ==> |pals[i + 1]| == |pals[i]| && Refined(pool, pals[i], pals[i + 1], bg)
  }

  /** Each colour with pixels has moved to their mean, the others have stayed. */
  ghost predicate Refined(pool: seq<Col>, p: seq<Col>, q: seq<Col>, bg: Col) {
    && |p| == |q|
    && forall k :: 0 <= k < |p| ==>
         q[k] == if Members(pool, p, bg, k) == [] then p[k] else Mean(Members(pool, p, bg, k))
  }

  /** `pal` comes out of n passes over `seed`. */
  ghost predicate AfterPasses(pool: seq<Col>, seed: seq<Col>, pal: seq<Col>, bg: Col, n: nat) {
    exists pals: seq<seq<Col>> ::
      |pals| == n + 1 && IsRefinement(pals, pool, bg) && pals[0] == seed && pals[n] == pal
  }

  /** The palette p is at most n * d worse than `pal`. */
  ghost predicate Within(pool: seq<Col>, p: seq<Col>, pal: seq<Col>, bg: Col, n: nat, d: nat) {
    PoolErr(pool, p, bg) <= PoolErr(pool, pal, bg) + Times(n, d)
  }

  lemma OnePass(pool: seq<Col>, p: seq<Col>, pal: seq<Col>, bg: Col, n: nat, d: nat)
    requires p != [] && d == 3 * |pool| && Within(pool, p, pal, bg, n, d)
    ensures Within(pool, Pass(pool, p, bg), pal, bg, n + 1, d)
  {
    PassNearlyMonotone(pool, p, bg);
  }

  /** n passes raise the error by at most d = 3 per pixel each. */
  lemma {:induction false} PassesNearlyMonotone(pool: seq<Col>, pals: seq<seq<Col>>, bg: Col, n: nat, d: nat)
    requires IsRefinement(pals, pool, bg) && n < |pals| && pals[0] != [] && d == 3 * |pool|
    ensures |pals[n]| == |pals[0]| && Within(pool, pals[n], pals[0], bg, n, d)
  {
    if n > 0 {
      PassesNearlyMonotone(pool, pals, bg, n - 1, d);
      assert Refined(pool, pals[n - 1], pals[n], bg);
      assert pals[n] == Pass(pool, pals[n - 1], bg);
      OnePass(pool, pals[n - 1], pals[0], bg, n - 1, d);
    }
  }

  lemma {:induction false} PoolErrWithout(pool: seq<Col>, i: nat, pal: seq<Col>, bg: Col)
    requires i < |pool|
    ensures PoolErr(pool, pal, bg) == PoolErr(pool[..i] + pool[i + 1..], pal, bg) + Nearest(pool[i], pal, bg)
  {
    var rest := pool[..i] + pool[i + 1..];
    if i == 0 {
      assert rest == pool[1..];
    } else {
      PoolErrWithout(pool[1..], i - 1, pal, bg);
      assert rest[1..] == pool[1..][..i - 1] + pool[1..][i..];
    }
  }

  /** The error of a pool does not depend on the order of its pixels, so sorting them for the cut does no harm. */
  lemma {:induction false} PoolErrPermutes(a: seq<Col>, b: seq<Col>, pal: seq<Col>, bg: Col)
    requires multiset(a) == multiset(b)
    ensures PoolErr(a, pal, bg) == PoolErr(b, pal, bg)
  {
    if a == [] {
      assert |multiset(b)| == 0;
    } else {
      var i := Match(a, b);
      PoolErrPermutes(a[1..], b[..i] + b[i + 1..], pal, bg);
      PoolErrWithout(b, i, pal, bg);
    }
  }

  lemma Match(a: seq<Col>, b: seq<Col>) returns (i: nat)
    requires multiset(a) == multiset(b) && a != []
    ensures i < |b| && b[i] == a[0] && multiset(a[1..]) == multiset(b[..i] + b[i + 1..])
  {
    i := Find(b, a[0]);
    Removed(b, i);
    assert a == [a[0]] + a[1..];
  }

  lemma Find(s: seq<Col>, x: Col) returns (i: nat)
    requires x in multiset(s)
    ensures i < |s| && s[i] == x
  {
    i :| i < |s| && s[i] == x;
  }

  lemma Removed(s: seq<Col>, i: nat)
    requires i < |s|
    ensures multiset(s[..i] + s[i + 1..]) == multiset(s) - multiset{s[i]}
  {
    assert s == s[..i] + [s[i]] + s[i + 1..];
    assert multiset(s) == multiset(s[..i] + s[i + 1..]) + multiset{s[i]};
  }

  /** A cut of the pool, from one box over all of it to k boxes or to single pixels. */
  ghost predicate IsCut(trace: seq<Cut>, before: seq<Col>, after: seq<Col>, k: nat) {
    && IsTrace(trace) && trace[0] == Cut(before, [Range(0, |before|)])
    && var last := trace[|trace| - 1];
       last.px == after && Partition(last) && (|last.box| == k || (|last.box| < k && Best(last) == -1))
  }

  /** build_palette once the pool is gathered: the cut's colours after `passes` Lloyd passes, none for an empty
      pool. The error is at most that of the cut's colours plus 3 per pixel and pass. */
  method FitPalette(pool: array<Col>, pal: array<Col>, bg: Col, passes: nat)
    returns (ghost trace: seq<Cut>, ghost seed: seq<Col>)
    requires 1 <= pal.Length <= 256 && pool != pal
    modifies pool, pal
    ensures multiset(pool[..]) == multiset(old(pool[..])) && |seed| == pal.Length
    ensures pool.Length == 0 ==> forall i :: 0 <= i < pal.Length ==> pal[i] == BLACK
    ensures pool.Length > 0 ==>
              IsCut(trace, old(pool[..]), pool[..], pal.Length) && seed == Palette(trace[|trace| - 1], pal.Length)
    ensures pool.Length > 0 ==> AfterPasses(pool[..], seed, pal[..], bg, passes)
    ensures PoolErr(old(pool[..]), pal[..], bg) <= PoolErr(old(pool[..]), seed, bg) + Times(passes, 3 * pool.Length)
  {
    trace := Cuts.MedianCut(pool, pal.Length, pal);
    seed := pal[..];
    if pool.Length > 0 {
      ghost var pals := LloydPasses(pool, pal, bg, passes);
      PassesKeepError(old(pool[..]), pool[..], pals, bg, passes);
    }
  }

  lemma PassesKeepError(before: seq<Col>, after: seq<Col>, pals: seq<seq<Col>>, bg: Col, n: nat)
    requires multiset(before) == multiset(after) && |before| == |after|
    requires IsRefinement(pals, after, bg) && |pals| == n + 1 && pals[0] != []
    ensures PoolErr(before, pals[n], bg) <= PoolErr(before, pals[0], bg) + Times(n, 3 * |before|)
  {
    PassesNearlyMonotone(after, pals, bg, n, 3 * |before|);
    PoolErrPermutes(before, after, pals[0], bg);
    PoolErrPermutes(before, after, pals[n], bg);
  }

  /** The Lloyd loop of build_palette, with the palettes it goes through. */
  method LloydPasses(pool: array<Col>, pal: array<Col>, bg: Col, passes: nat) returns (ghost pals: seq<seq<Col>>)
    requires pal.Length > 0 && pool != pal
    modifies pal
    ensures |pals| == passes + 1 && pals[0] == old(pal[..]) && pals[passes] == pal[..]
    ensures IsRefinement(pals, pool[..], bg)
  {
    ghost var px := pool[..];
    pals := [pal[..]];
    var it := 0;
    while it < passes
      invariant it <= passes && pool[..] == px && |pals| == it + 1
      invariant pals[0] == old(pal[..]) && pals[it] == pal[..] && IsRefinement(pals, px, bg)
    {
      assert pool[..pool.Length] == px;
      LloydPass(pool, pool.Length, pal, bg);
      RefinementGrows(pals, px, pal[..], bg);
      pals := pals + [pal[..]];
      it := it + 1;
    }
  }

  lemma RefinementGrows(pals: seq<seq<Col>>, pool: seq<Col>, q: seq<Col>, bg: Col)
    requires IsRefinement(pals, pool, bg) && q == Pass(pool, pals[|pals| - 1], bg)
    ensures IsRefinement(pals + [q], pool, bg)
  {
    var more := pals + [q];
    forall i | 0 <= i < |more| - 1
      ensures |more[i + 1]| == |more[i]| && Refined(pool, more[i], more[i + 1], bg)
    {
      assert i < |pals| - 1 ==> Refined(pool, pals[i], pals[i + 1], bg);
    }
  }

  // ---- the pools of all palettes ----

  /** The pixels of palette c's tiles, from tile t on, in tile order. */
  function PoolOf(tiles: seq<seq<Col>>, assign: seq<nat>, c: nat, t: nat): seq<Col>
    requires t <= |assign| == |tiles|
    decreases |assign| - t
  {
    if t == |assign| then []
    else if assign[t] == c then tiles[t] + PoolOf(tiles, assign, c, t + 1)
    else PoolOf(tiles, assign, c, t + 1)
  }

  /** The pools of n palettes. */
  function Pools(tiles: seq<seq<Col>>, assign: seq<nat>, n: nat, t: nat): (p: seq<seq<Col>>)
    requires t <= |assign| == |tiles|
    ensures |p| == n
  {
    seq(n, c requires 0 <= c < n => PoolOf(tiles, assign, c, t))
  }

  /** The summed errors of pools c and up, each against its palette. */
  function ErrSum(pools: seq<seq<Col>>, pals: seq<seq<Col>>, bg: Col, c: nat): nat
    requires c <= |pools| == |pals|
    decreases |pools| - c
  {
    if c == |pools| then 0 else PoolErr(pools[c], pals[c], bg) + ErrSum(pools, pals, bg, c + 1)
  }

  /** The summed sizes of sequences c and up. */
  function SizeSum(s: seq<seq<Col>>, c: nat): nat
    requires c <= |s|
    decreases |s| - c
  {
    if c == |s| then 0 else |s[c]| + SizeSum(s, c + 1)
  }

  lemma {:induction false} PoolErrConcat(a: seq<Col>, b: seq<Col>, pal: seq<Col>, bg: Col)
    ensures PoolErr(a + b, pal, bg) == PoolErr(a, pal, bg) + PoolErr(b, pal, bg)
  {
    if a == [] {
      assert a + b == b;
    } else {
      assert (a + b)[1..] == a[1..] + b;
      PoolErrConcat(a[1..], b, pal, bg);
    }
  }

  /** Pool p gains the pixels x and the other pools stay. */
  ghost predicate Gains(ps: seq<seq<Col>>, qs: seq<seq<Col>>, p: nat, x: seq<Col>) {
    p < |ps| == |qs| && forall k :: 0 <= k < |ps| ==> ps[k] == if k == p then x + qs[k] else qs[k]
  }

  lemma {:induction false} SumsGain(ps: seq<seq<Col>>, qs: seq<seq<Col>>, p: nat, x: seq<Col>, pals: seq<seq<Col>>, bg: Col, c: nat)
    requires Gains(ps, qs, p, x) && c <= |pals| == |ps|
    ensures ErrSum(ps, pals, bg, c) == ErrSum(qs, pals, bg, c) + if p >= c then PoolErr(x, pals[p], bg) else 0
    ensures SizeSum(ps, c) == SizeSum(qs, c) + if p >= c then |x| else 0
    decreases |ps| - c
  {
    if c < |ps| {
      SumsGain(ps, qs, p, x, pals, bg, c + 1);
      PoolErrConcat(x, qs[c], pals[c], bg);
    }
  }

  lemma {:induction false} NothingPooled(ps: seq<seq<Col>>, pals: seq<seq<Col>>, bg: Col, c: nat)
    requires c <= |pals| == |ps| && forall k :: 0 <= k < |ps| ==> ps[k] == []
    ensures ErrSum(ps, pals, bg, c) == SizeSum(ps, c) == 0
    decreases |ps| - c
  {
    if c < |ps| {
      NothingPooled(ps, pals, bg, c + 1);
    }
  }

  /** The pools hold every tile's pixels once: their errors add up to the tiles' error, their sizes to the image. */
  lemma {:induction false} PoolsPartition(f: Frame, assign: seq<nat>, t: nat)
    requires Assigned(f, assign) && t <= |assign|
    ensures ErrSum(Pools(f.tiles, assign, |f.pals|, t), f.pals, f.bg, 0) == TotalErr(f, assign, t)
    ensures SizeSum(Pools(f.tiles, assign, |f.pals|, t), 0) == SizeSum(f.tiles, t)
    decreases |assign| - t
  {
    var ps := Pools(f.tiles, assign, |f.pals|, t);
    if t == |assign| {
      NothingPooled(ps, f.pals, f.bg, 0);
    } else {
      SumsGain(ps, Pools(f.tiles, assign, |f.pals|, t + 1), assign[t], f.tiles[t], f.pals, f.bg, 0);
      PoolsPartition(f, assign, t + 1);
    }
  }

  /** The pixels come tile by tile, in the order of the tiles: a tile more at the end appends its pixels or nothing. */
  lemma {:induction false} PoolAppends(tiles: seq<seq<Col>>, assign: seq<nat>, c: nat, t: nat, x: seq<Col>, a: nat)
    requires t <= |assign| == |tiles|
    ensures PoolOf(tiles + [x], assign + [a], c, t) == PoolOf(tiles, assign, c, t) + if a == c then x else []
    decreases |assign| - t
  {
    if t == |assign| {
      assert PoolOf(tiles + [x], assign + [a], c, t + 1) == [];
    } else {
      PoolAppends(tiles, assign, c, t + 1, x, a);
    }
  }

  /** The gathering loop of build_palette. */
  method GatherPool(tiles: seq<seq<Col>>, tilepal: array<nat>, c: nat) returns (pool: array<Col>)
    requires tilepal.Length == |tiles|
    ensures fresh(pool) && pool[..] == PoolOf(tiles, tilepal[..], c, 0)
  {
    var px: seq<Col> := [];
    var t := 0;
    while t < |tiles|
      invariant t <= |tiles| && px + PoolOf(tiles, tilepal[..], c, t) == PoolOf(tiles, tilepal[..], c, 0)
    {
      if tilepal[t] == c {
        px := px + tiles[t];
      }
      t := t + 1;
    }
    pool := new Col[|px|](i requires 0 <= i < |px| => px[i]);
    assert pool[..] == px;
  }

  /** What the passes may cost at most: 3 per pixel and pass. */
  function Slack(passes: nat, pixels: nat): nat {
    Times(passes, 3 * pixels)
  }

  /** The seed is some cut of the pool, and the palette is what the passes make of it. */
  ghost predicate IsFit(pool: seq<Col>, seed: seq<Col>, pal: seq<Col>, bg: Col, passes: nat) {
    exists trace, px ::
      IsCut(trace, pool, px, |seed|) && multiset(px) == multiset(pool) &&
      seed == Palette(trace[|trace| - 1], |seed|) && AfterPasses(px, seed, pal, bg, passes)
  }

  /** One palette fits its pool up to the loss of the passes. */
  ghost predicate Near(pool: seq<Col>, pal: seq<Col>, seed: seq<Col>, bg: Col, passes: nat) {
    PoolErr(pool, pal, bg) <= PoolErr(pool, seed, bg) + Slack(passes, |pool|)
  }

  /** A palette after build_palette: black for an empty pool, and otherwise a cut after the passes. */
  ghost predicate Rebuilt(pool: seq<Col>, pal: seq<Col>, seed: seq<Col>, bg: Col, passes: nat) {
    && |seed| == |pal| && Near(pool, pal, seed, bg, passes)
    && if pool == [] then forall i :: 0 <= i < |pal| ==> pal[i] == BLACK else IsFit(pool, seed, pal, bg, passes)
  }

  /** build_palette(c): the error of the palette's tiles is at most that of the cut's colours plus 3 per pixel and
      pass. */
  method BuildPalette(tiles: seq<seq<Col>>, tilepal: array<nat>, c: nat, pal: array<Col>, bg: Col, passes: nat)
    returns (ghost seed: seq<Col>)
    requires tilepal.Length == |tiles| && 1 <= pal.Length <= 256
    modifies pal
    ensures Rebuilt(PoolOf(tiles, tilepal[..], c, 0), pal[..], seed, bg, passes)
  {
    var pool := GatherPool(tiles, tilepal, c);
    ghost var was := pool[..];
    ghost var trace;
    trace, seed := FitPalette(pool, pal, bg, passes);
    assert |was| > 0 ==> IsCut(trace, was, pool[..], pal.Length);
  }

  // ---- all palettes ----

  function Contents(palette: seq<array<Col>>): (s: seq<seq<Col>>)
    reads palette
    ensures |s| == |palette| && forall c :: 0 <= c < |s| ==> s[c] == palette[c][..]
  {
    seq(|palette|, c requires 0 <= c < |palette| reads palette => palette[c][..])
  }

  lemma {:induction false} SlackAdds(n: nat, a: nat, b: nat)
    ensures Slack(n, a + b) == Slack(n, a) + Slack(n, b)
  {
    if n > 0 {
      SlackAdds(n - 1, a, b);
    }
  }

  /** If every palette is near its seed, so are the sums. */
  lemma {:induction false} NearAll(pools: seq<seq<Col>>, pals: seq<seq<Col>>, seeds: seq<seq<Col>>, bg: Col, passes: nat, c: nat)
    requires c <= |pools| == |pals| == |seeds|
    requires forall k :: c <= k < |pools| ==> Near(pools[k], pals[k], seeds[k], bg, passes)
    ensures ErrSum(pools, pals, bg, c) <= ErrSum(pools, seeds, bg, c) + Slack(passes, SizeSum(pools, c))
    decreases |pools| - c
  {
    if c < |pools| {
      assert Near(pools[c], pals[c], seeds[c], bg, passes);
      NearAll(pools, pals, seeds, bg, passes, c + 1);
      SlackAdds(passes, |pools[c]|, SizeSum(pools, c + 1));
    }
  }

  lemma WholeImage(f: Frame, assign: seq<nat>, pals: seq<seq<Col>>, seeds: seq<seq<Col>>, passes: nat)
    requires Assigned(f, assign) && |pals| == |seeds| == |f.pals|
    requires forall k :: 0 <= k < |pals| ==> Near(PoolOf(f.tiles, assign, k, 0), pals[k], seeds[k], f.bg, passes)
    ensures TotalErr(f.(pals := pals), assign, 0) <=
            TotalErr(f.(pals := seeds), assign, 0) + Slack(passes, SizeSum(f.tiles, 0))
  {
    NearAll(Pools(f.tiles, assign, |pals|, 0), pals, seeds, f.bg, passes, 0);
    PoolsPartition(f.(pals := pals), assign, 0);
    PoolsPartition(f.(pals := seeds), assign, 0);
  }

  /** Rebuilding every palette in turn: the error of the whole image is at most that of the cuts' colours plus 3 per
      pixel and pass. */
  method BuildAll(f: Frame, tilepal: array<nat>, palette: seq<array<Col>>, passes: nat) returns (ghost seeds: seq<seq<Col>>)
    requires Assigned(f, tilepal[..]) && |palette| == |f.pals|
    requires forall c :: 0 <= c < |palette| ==> 1 <= palette[c].Length <= 256
    requires forall c, d :: 0 <= c < d < |palette| ==> palette[c] != palette[d]
    modifies palette
    ensures |seeds| == |palette|
    ensures forall c :: 0 <= c < |seeds| ==>
              Rebuilt(PoolOf(f.tiles, tilepal[..], c, 0), palette[c][..], seeds[c], f.bg, passes)
    ensures TotalErr(f.(pals := Contents(palette)), tilepal[..], 0) <=
            TotalErr(f.(pals := seeds), tilepal[..], 0) + Slack(passes, SizeSum(f.tiles, 0))
  {
    seeds := [];
    ghost var assign, done: seq<seq<Col>> := tilepal[..], [];
    var c := 0;
    while c < |palette|
      invariant c <= |palette| && |seeds| == |done| == c
      invariant forall k :: 0 <= k < c ==> palette[k][..] == done[k]
      invariant forall k :: 0 <= k < c ==> Rebuilt(PoolOf(f.tiles, assign, k, 0), done[k], seeds[k], f.bg, passes)
    {
      ghost var seed := BuildPalette(f.tiles, tilepal, c, palette[c], f.bg, passes);
      seeds, done := seeds + [seed], done + [palette[c][..]];
      c := c + 1;
    }
    WholeImage(f, assign, done, seeds, passes);
    assert Contents(palette) == done;
  }
}
