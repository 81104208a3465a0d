/**
  The refinement pass of quantize in tools/fmv_encode.c: every tile moves to the palette that quantizes it best, then
  every palette left without tiles is given one.
*/
module Refine {
  import opened Pixels

  /** The tiles' pixels, the palettes and the backdrop, fixed during a pass. */
  datatype Frame = Frame(tiles: seq<seq<Col>>, pals: seq<seq<Col>>, bg: Col)

  function Err(f: Frame, t: nat, c: nat): nat
    requires t < |f.tiles| && c < |f.pals|
  {
    PoolErr(f.tiles[t], f.pals[c], f.bg)
  }

  /** Every tile has a palette. */
  predicate Assigned(f: Frame, assign: seq<nat>) {
    |assign| == |f.tiles| && forall t :: 0 <= t < |assign| ==> assign[t] < |f.pals|
  }

  // ---- reassignment ----

  /** The search of the reassignment loop from palette c on: the first palette of least error. */
  function BestPalette(f: Frame, t: nat, c: nat, best: int, bc: nat): (r: nat)
    requires t < |f.tiles| && c <= |f.pals| && bc < |f.pals|
    ensures r < |f.pals|
    decreases |f.pals| - c
  {
    if c == |f.pals| then bc
    else if best < 0 || Err(f, t, c) < best then BestPalette(f, t, c + 1, Err(f, t, c), c)
    else BestPalette(f, t, c + 1, best, bc)
  }

  lemma {:induction false} BestPaletteIsBest(f: Frame, t: nat, c: nat, best: int, bc: nat)
    requires t < |f.tiles| && c <= |f.pals| && bc < |f.pals|
    requires if c == 0 then best == -1 else bc < c && best == Err(f, t, bc)
    requires forall k :: 0 <= k < c ==> best <= Err(f, t, k) && (best == Err(f, t, k) ==> bc <= k)
    ensures var r := BestPalette(f, t, c, best, bc);
            && r < |f.pals|
            && forall k :: 0 <= k < |f.pals| ==> Err(f, t, r) <= Err(f, t, k) && (Err(f, t, r) == Err(f, t, k) ==> r <= k)
    decreases |f.pals| - c
  {
    if c < |f.pals| {
      if best < 0 || Err(f, t, c) < best {
        BestPaletteIsBest(f, t, c + 1, Err(f, t, c), c);
      } else {
        BestPaletteIsBest(f, t, c + 1, best, bc);
      }
    }
  }

  /** The assignment after the loop. */
  function Reassigned(f: Frame, assign: seq<nat>): (a: seq<nat>)
    requires Assigned(f, assign) && |f.pals| > 0
    ensures Assigned(f, a)
  {
    seq(|assign|, t requires 0 <= t < |assign| =>
      BestPalette(f, t, 0, -1, assign[t]))
  }

  function TotalErr(f: Frame, assign: seq<nat>, t: nat): nat
    requires Assigned(f, assign) && t <= |assign|
    decreases |assign| - t
  {
    if t == |assign| then 0 else Err(f, t, assign[t]) + TotalErr(f, assign, t + 1)
  }

  /** Each tile ends on a palette of least error, the first of them. */
  lemma ReassignedToBest(f: Frame, assign: seq<nat>, t: nat, c: nat)
    requires Assigned(f, assign) && t < |assign| && c < |f.pals|
    ensures var r := Reassigned(f, assign)[t];
            Err(f, t, r) <= Err(f, t, c) && (Err(f, t, r) == Err(f, t, c) ==> r <= c)
  {
    BestPaletteIsBest(f, t, 0, -1, assign[t]);
  }

  /** Reassignment never raises the summed error, and reaches the least any assignment can have. */
  lemma {:induction false} ReassignmentIsOptimal(f: Frame, assign: seq<nat>, other: seq<nat>, t: nat)
    requires Assigned(f, assign) && Assigned(f, other) && |f.pals| > 0 && t <= |assign|
    ensures TotalErr(f, Reassigned(f, assign), t) <= TotalErr(f, other, t)
    decreases |assign| - t
  {
    if t < |assign| {
      ReassignedToBest(f, assign, t, other[t]);
      ReassignmentIsOptimal(f, assign, other, t + 1);
    }
  }

  /** How many tiles move. */
  function Moves(a: seq<nat>, b: seq<nat>, t: nat): nat
    requires t <= |a| == |b|
    decreases |a| - t
  {
    if t == |a| then 0 else (if a[t] != b[t] then 1 else 0) + Moves(a, b, t + 1)
  }

  /** Moves counts the places where two assignments differ. */
  lemma {:induction false} MovesIs(a: seq<nat>, b: seq<nat>, t: nat)
    requires t <= |a| == |b|
    ensures Moves(a, b, t) == |set u | t <= u < |a| && a[u] != b[u]|
    decreases |a| - t
  {
    var d := set u | t <= u < |a| && a[u] != b[u];
    if t == |a| {
      assert d == {};
    } else {
      var e := set u | t + 1 <= u < |a| && a[u] != b[u];
      MovesIs(a, b, t + 1);
      assert d == if a[t] != b[t] then {t} + e else e;
    }
  }

  lemma {:induction false} MovesUpdate(a: seq<nat>, b: seq<nat>, t: nat, w: nat, v: nat)
    requires t <= |a| == |b| && w < |a| && b[w] == a[w] != v
    ensures Moves(a, b[w := v], t) == Moves(a, b, t) + if t <= w then 1 else 0
    decreases |a| - t
  {
    if t < |a| {
      MovesUpdate(a, b, t + 1, w, v);
    }
  }

  // ---- re-seeding ----

  datatype Groups = Groups(assign: seq<nat>, cnt: seq<int>)

  function CountOf(assign: seq<nat>, c: nat): nat {
    if assign == [] then 0 else (if assign[0] == c then 1 else 0) + CountOf(assign[1..], c)
  }

  /** `cnt` holds the true member counts. */
  ghost predicate Counted(f: Frame, g: Groups) {
    && Assigned(f, g.assign) && |g.cnt| == |f.pals|
    && forall c :: 0 <= c < |g.cnt| ==> g.cnt[c] == CountOf(g.assign, c)
  }

  /** Every palette has a tile. */
  ghost predicate AllFilled(cnt: seq<int>) {
    forall c :: 0 <= c < |cnt| ==> cnt[c] > 0
  }

  /** The search for the worst-fit tile of a group with more than one member, from tile t on; -1 for none. */
  function WorstFrom(f: Frame, g: Groups, t: nat, worst: int, wt: int): int
    requires Assigned(f, g.assign) && |g.cnt| == |f.pals| && t <= |g.assign|
    decreases |g.assign| - t
  {
    if t == |g.assign| then wt
    else if g.cnt[g.assign[t]] > 1 && Err(f, t, g.assign[t]) > worst then
      WorstFrom(f, g, t + 1, Err(f, t, g.assign[t]), t)
    else WorstFrom(f, g, t + 1, worst, wt)
  }

  /** The tile found comes from a group of several and is the first of those that fit worst among all such tiles. */
  lemma {:induction false} WorstIsWorst(f: Frame, g: Groups, t: nat, worst: int, wt: int)
    requires Assigned(f, g.assign) && |g.cnt| == |f.pals| && t <= |g.assign| && -1 <= wt < t
    requires if wt == -1 then worst == -1 else g.cnt[g.assign[wt]] > 1 && worst == Err(f, wt, g.assign[wt])
    requires forall u :: 0 <= u < t && g.cnt[g.assign[u]] > 1 ==>
               wt >= 0 && Err(f, u, g.assign[u]) <= worst && (u < wt ==> Err(f, u, g.assign[u]) < worst)
    ensures var w := WorstFrom(f, g, t, worst, wt);
            && -1 <= w < |g.assign| && (w >= 0 ==> g.cnt[g.assign[w]] > 1)
            && forall u :: 0 <= u < |g.assign| && g.cnt[g.assign[u]] > 1 ==>
                 && w >= 0 && Err(f, u, g.assign[u]) <= Err(f, w, g.assign[w])
                 && (u < w ==> Err(f, u, g.assign[u]) < Err(f, w, g.assign[w]))
    decreases |g.assign| - t
  {
    if t < |g.assign| {
      if g.cnt[g.assign[t]] > 1 && Err(f, t, g.assign[t]) > worst {
        WorstIsWorst(f, g, t + 1, Err(f, t, g.assign[t]), t);
      } else {
        WorstIsWorst(f, g, t + 1, worst, wt);
      }
    }
  }

  function Worst(f: Frame, g: Groups): (w: int)
    requires Assigned(f, g.assign) && |g.cnt| == |f.pals|
    ensures -1 <= w < |g.assign|
  {
    WorstIsWorst(f, g, 0, -1, -1);
    WorstFrom(f, g, 0, -1, -1)
  }

  function Steal(g: Groups, w: nat, c: nat): Groups
    requires w < |g.assign| && g.assign[w] < |g.cnt| && c < |g.cnt|
  {
    var cnt := g.cnt[g.assign[w] := g.cnt[g.assign[w]] - 1];
    Groups(g.assign[w := c], cnt[c := cnt[c] + 1])
  }

  /** One turn of the re-seeding loop. */
  function ReseedOne(f: Frame, g: Groups, c: nat): (g': Groups)
    requires Assigned(f, g.assign) && |g.cnt| == |f.pals| && c < |f.pals|
    ensures Assigned(f, g'.assign) && |g'.cnt| == |f.pals|
  {
    if g.cnt[c] != 0 || Worst(f, g) < 0 then g else Steal(g, Worst(f, g), c)
  }

  function ReseedFrom(f: Frame, g: Groups, c: nat): (g': Groups)
    requires Assigned(f, g.assign) && |g.cnt| == |f.pals| && c <= |f.pals|
    ensures Assigned(f, g'.assign) && |g'.cnt| == |f.pals|
    decreases |f.pals| - c
  {
    if c == |f.pals| then g else ReseedFrom(f, ReseedOne(f, g, c), c + 1)
  }

  lemma {:induction false} CountOfUpdate(assign: seq<nat>, w: nat, c: nat, k: nat)
    requires w < |assign|
    ensures CountOf(assign[w := c], k) ==
            CountOf(assign, k) - (if assign[w] == k then 1 else 0) + (if c == k then 1 else 0)
  {
    if w == 0 {
      assert assign[w := c][1..] == assign[1..];
    } else {
      assert assign[w := c][1..] == assign[1..][w - 1 := c];
      CountOfUpdate(assign[1..], w - 1, c, k);
    }
  }

  lemma StealKeepsCounts(f: Frame, g: Groups, w: nat, c: nat)
    requires Counted(f, g) && w < |g.assign| && c < |g.cnt|
    ensures Counted(f, Steal(g, w, c))
  {
    forall k | 0 <= k < |g.cnt|
      ensures Steal(g, w, c).cnt[k] == CountOf(g.assign[w := c], k)
    {
      CountOfUpdate(g.assign, w, c, k);
    }
  }

  // ---- what re-seeding leaves alone ----

  /** Against the assignment `a` the loop started from, at palette c: a moved tile is alone in a palette below c that had
      no tile, every palette that had tiles still has one, and no palette from c on has been filled. */
  ghost predicate Reseeding(f: Frame, a: seq<nat>, g: Groups, c: nat) {
    && Counted(f, g) && Assigned(f, a) && c <= |f.pals|
    && (forall t :: 0 <= t < |a| && g.assign[t] != a[t] ==> MovedIn(a, g, g.assign[t], c))
    && (forall k :: 0 <= k < |g.cnt| && CountOf(a, k) > 0 ==> g.cnt[k] > 0)
    && (forall k :: c <= k < |g.cnt| && CountOf(a, k) == 0 ==> g.cnt[k] == 0)
  }

  /** Palette p below c had no tile under `a` and has one now. */
  predicate MovedIn(a: seq<nat>, g: Groups, p: nat, c: nat) {
    p < |g.cnt| && p < c && CountOf(a, p) == 0 && g.cnt[p] == 1
  }

  lemma {:induction false} IsCounted(assign: seq<nat>, t: nat)
    requires t < |assign|
    ensures CountOf(assign, assign[t]) > 0
  {
    if t > 0 {
      IsCounted(assign[1..], t - 1);
    }
  }

  lemma ReseedingStep(f: Frame, a: seq<nat>, g: Groups, c: nat)
    requires Reseeding(f, a, g, c) && c < |f.pals|
    ensures Reseeding(f, a, ReseedOne(f, g, c), c + 1)
  {
    var g' := ReseedOne(f, g, c);
    if g' != g {
      WorstIsWorst(f, g, 0, -1, -1);
      var w := Worst(f, g);
      StealKeepsCounts(f, g, w, c);
      IsCounted(a, w);
      assert g.assign[w] == a[w];
      forall t | 0 <= t < |a| && g'.assign[t] != a[t]
        ensures MovedIn(a, g', g'.assign[t], c + 1)
      {
        assert t != w ==> MovedIn(a, g, g.assign[t], c);
      }
    } else {
      StaysPut(f, a, g, c);
    }
  }

  lemma StaysPut(f: Frame, a: seq<nat>, g: Groups, c: nat)
    requires Reseeding(f, a, g, c) && c < |f.pals|
    ensures Reseeding(f, a, g, c + 1)
  {
    forall t | 0 <= t < |a| && g.assign[t] != a[t]
      ensures MovedIn(a, g, g.assign[t], c + 1)
    {
      assert MovedIn(a, g, g.assign[t], c);
    }
  }

  lemma {:induction false} ReseedingRun(f: Frame, a: seq<nat>, g: Groups, c: nat)
    requires Reseeding(f, a, g, c)
    ensures Reseeding(f, a, ReseedFrom(f, g, c), |f.pals|)
    decreases |f.pals| - c
  {
    if c < |f.pals| {
      ReseedingStep(f, a, g, c);
      ReseedingRun(f, a, ReseedOne(f, g, c), c + 1);
    }
  }

  lemma {:induction false} AloneIn(assign: seq<nat>, t: nat, u: nat)
    requires t < u < |assign| && assign[t] == assign[u]
    ensures CountOf(assign, assign[t]) >= 2
  {
    if t == 0 {
      IsCounted(assign[1..], u - 1);
    } else {
      AloneIn(assign[1..], t - 1, u - 1);
    }
  }

  /** From `a` to `b`, a tile has moved only to a palette that had none, at most one tile to each; if every one of the n
      palettes had a tile, none has moved. */
  ghost predicate OnlyEmptyFilled(a: seq<nat>, b: seq<nat>, n: nat) {
    && |b| == |a|
    && (forall t :: 0 <= t < |a| && b[t] != a[t] ==> CountOf(a, b[t]) == 0)
    && (forall t, u :: 0 <= t < u < |a| && b[t] != a[t] && b[u] != a[u] ==> b[t] != b[u])
    && ((forall c :: 0 <= c < n ==> CountOf(a, c) > 0) ==> b == a)
  }

  /** Re-seeding moves a tile only to a palette that had none, at most one tile to each; if every palette has a tile, it
      moves none. */
  lemma ReseedMovesFew(f: Frame, g: Groups)
    requires Counted(f, g)
    ensures OnlyEmptyFilled(g.assign, ReseedFrom(f, g, 0).assign, |f.pals|)
  {
    var a := g.assign;
    ReseedingRun(f, a, g, 0);
    var h := ReseedFrom(f, g, 0);
    forall t | 0 <= t < |a| && h.assign[t] != a[t]
      ensures CountOf(a, h.assign[t]) == 0 && CountOf(h.assign, h.assign[t]) == 1
    {
      assert MovedIn(a, h, h.assign[t], |f.pals|);
    }
    forall t, u | 0 <= t < u < |a| && h.assign[t] != a[t] && h.assign[u] != a[u]
      ensures h.assign[t] != h.assign[u]
    {
      if h.assign[t] == h.assign[u] {
        AloneIn(h.assign, t, u);
      }
    }
  }

  /** No tile is taken twice: the count of re-seeded palettes is the number of tiles that end elsewhere. */
  lemma {:induction false} StealsAreMoves(f: Frame, a: seq<nat>, g: Groups, c: nat)
    requires Reseeding(f, a, g, c)
    ensures Moves(a, ReseedFrom(f, g, c).assign, 0) == Moves(a, g.assign, 0) + Steals(f, g, c)
    decreases |f.pals| - c
  {
    if c < |f.pals| {
      ReseedingStep(f, a, g, c);
      StealIsMove(f, a, g, c);
      StealsAreMoves(f, a, ReseedOne(f, g, c), c + 1);
    }
  }

  lemma StealIsMove(f: Frame, a: seq<nat>, g: Groups, c: nat)
    requires Reseeding(f, a, g, c) && c < |f.pals|
    ensures var g' := ReseedOne(f, g, c);
            Moves(a, g'.assign, 0) == Moves(a, g.assign, 0) + if g' == g then 0 else 1
  {
    var w := Worst(f, g);
    if g.cnt[c] == 0 && w >= 0 {
      WorstIsWorst(f, g, 0, -1, -1);
      assert g.assign[w] == a[w];
      MovesUpdate(a, g.assign, 0, w, c);
      assert ReseedOne(f, g, c).assign[w] == c;
    }
  }

  /** How many palettes from c on take a tile. */
  function Steals(f: Frame, g: Groups, c: nat): nat
    requires Assigned(f, g.assign) && |g.cnt| == |f.pals| && c <= |f.pals|
    decreases |f.pals| - c
  {
    if c == |f.pals| then 0
    else
      var g' := ReseedOne(f, g, c);
      (if g' == g then 0 else 1) + Steals(f, g', c + 1)
  }

  lemma ReseedCounts(f: Frame, g: Groups)
    requires Counted(f, g)
    ensures Moves(g.assign, ReseedFrom(f, g, 0).assign, 0) == Steals(f, g, 0)
  {
    NoMoves(g.assign, g.assign, 0);
    StealsAreMoves(f, g.assign, g, 0);
  }

  // ---- a donor always exists ----

  /** Members of the groups c and up. */
  function MembersFrom(assign: seq<nat>, n: nat, c: nat): nat
    requires c <= n
    decreases n - c
  {
    if c == n then 0 else CountOf(assign, c) + MembersFrom(assign, n, c + 1)
  }

  lemma {:induction false} MembersCons(assign: seq<nat>, n: nat, c: nat)
    requires c <= n && assign != [] && assign[0] < n
    ensures MembersFrom(assign, n, c) == MembersFrom(assign[1..], n, c) + (if assign[0] >= c then 1 else 0)
    decreases n - c
  {
    if c < n {
      MembersCons(assign, n, c + 1);
    }
  }

  lemma {:induction false} MembersEmpty(n: nat, c: nat)
    requires c <= n
    ensures MembersFrom([], n, c) == 0
    decreases n - c
  {
    if c < n {
      MembersEmpty(n, c + 1);
    }
  }

  lemma {:induction false} MembersAreAll(assign: seq<nat>, n: nat)
    requires forall t :: 0 <= t < |assign| ==> assign[t] < n
    ensures MembersFrom(assign, n, 0) == |assign|
  {
    if assign == [] {
      MembersEmpty(n, 0);
    } else {
      MembersCons(assign, n, 0);
      MembersAreAll(assign[1..], n);
    }
  }

  lemma {:induction false} FewMembers(assign: seq<nat>, n: nat, c: nat, e: nat)
    requires c <= n && forall k :: c <= k < n ==> CountOf(assign, k) <= 1
    requires c <= e < n ==> CountOf(assign, e) == 0
    ensures MembersFrom(assign, n, c) <= n - c - (if c <= e < n then 1 else 0)
    decreases n - c
  {
    if c < n {
      FewMembers(assign, n, c + 1, e);
    }
  }

  lemma {:induction false} SomeMember(assign: seq<nat>, c: nat)
    requires CountOf(assign, c) > 0
    ensures exists t :: 0 <= t < |assign| && assign[t] == c
  {
    if assign[0] != c {
      SomeMember(assign[1..], c);
      var t :| 0 <= t < |assign[1..]| && assign[1..][t] == c;
      assert assign[t + 1] == c;
    }
  }

  /** With at least as many tiles as palettes, an empty palette always finds a tile to take. */
  lemma DonorExists(f: Frame, g: Groups, c: nat)
    requires Counted(f, g) && c < |f.pals| && g.cnt[c] == 0 && |f.tiles| >= |f.pals|
    ensures Worst(f, g) >= 0
  {
    MembersAreAll(g.assign, |f.pals|);
    if forall k :: 0 <= k < |f.pals| ==> CountOf(g.assign, k) <= 1 {
      FewMembers(g.assign, |f.pals|, 0, c);
    }
    var k :| 0 <= k < |f.pals| && CountOf(g.assign, k) > 1;
    SomeMember(g.assign, k);
    var t :| 0 <= t < |g.assign| && g.assign[t] == k;
    WorstIsWorst(f, g, 0, -1, -1);
    assert g.cnt[g.assign[t]] > 1;
  }

  lemma ReseedOneFills(f: Frame, g: Groups, c: nat, k: nat)
    requires Counted(f, g) && c < |f.pals| && k < |f.pals|
    ensures Counted(f, ReseedOne(f, g, c))
    ensures g.cnt[k] > 0 ==> ReseedOne(f, g, c).cnt[k] > 0
    ensures |f.tiles| >= |f.pals| ==> ReseedOne(f, g, c).cnt[c] > 0
  {
    if g.cnt[c] == 0 {
      WorstIsWorst(f, g, 0, -1, -1);
      if |f.tiles| >= |f.pals| {
        DonorExists(f, g, c);
      }
      if Worst(f, g) >= 0 {
        StealKeepsCounts(f, g, Worst(f, g), c);
      }
    }
  }

  lemma {:induction false} ReseedKeeps(f: Frame, g: Groups, c: nat)
    requires Counted(f, g) && c <= |f.pals|
    requires |f.tiles| >= |f.pals| ==> forall k :: 0 <= k < c ==> g.cnt[k] > 0
    ensures Counted(f, ReseedFrom(f, g, c))
    ensures |f.tiles| >= |f.pals| ==> AllFilled(ReseedFrom(f, g, c).cnt)
    decreases |f.pals| - c
  {
    if c < |f.pals| {
      forall k | 0 <= k < |f.pals|
        ensures Counted(f, ReseedOne(f, g, c))
        ensures g.cnt[k] > 0 ==> ReseedOne(f, g, c).cnt[k] > 0
        ensures |f.tiles| >= |f.pals| ==> ReseedOne(f, g, c).cnt[c] > 0
      {
        ReseedOneFills(f, g, c, k);
      }
      ReseedKeeps(f, ReseedOne(f, g, c), c + 1);
    }
  }

  /** After re-seeding, every palette has a tile exactly if there are at least as many tiles as palettes. */
  lemma ReseedFillsIff(f: Frame, g: Groups)
    requires Counted(f, g)
    ensures Counted(f, ReseedFrom(f, g, 0))
    ensures AllFilled(ReseedFrom(f, g, 0).cnt) <==> |f.tiles| >= |f.pals|
  {
    ReseedKeeps(f, g, 0);
    if AllFilled(ReseedFrom(f, g, 0).cnt) {
      FilledNeedsTiles(f, ReseedFrom(f, g, 0));
    }
  }

  lemma FilledNeedsTiles(f: Frame, g: Groups)
    requires Counted(f, g) && AllFilled(g.cnt)
    ensures |f.tiles| >= |f.pals|
  {
    forall c | 0 <= c < |f.pals|
      ensures CountOf(g.assign, c) >= 1
    {
      assert g.cnt[c] > 0;
    }
    ManyMembers(g.assign, |f.pals|, 0);
    MembersAreAll(g.assign, |f.pals|);
  }

  lemma {:induction false} ManyMembers(assign: seq<nat>, n: nat, c: nat)
    requires c <= n && forall k :: c <= k < n ==> CountOf(assign, k) >= 1
    ensures MembersFrom(assign, n, c) >= n - c
    decreases n - c
  {
    if c < n {
      ManyMembers(assign, n, c + 1);
    }
  }

  // ---- the code ----

  /** tile_err. */
  method TileErr(px: seq<Col>, pal: seq<Col>, bg: Col) returns (e: nat)
    ensures e == PoolErr(px, pal, bg)
  {
    e := 0;
    var i := 0;
    while i < |px|
      invariant i <= |px| && e == PoolErr(px[..i], pal, bg)
    {
      var d := Dist(px[i], bg);
      var k := 0;
      while k < |pal|
        invariant k <= |pal| && d == Nearest(px[i], pal[..k], bg)
      {
        assert pal[..k + 1][..k] == pal[..k];
        var dd := Dist(px[i], pal[k]);
        if dd < d {
          d := dd;
        }
        k := k + 1;
      }
      assert pal[..|pal|] == pal;
      assert px[..i + 1] == px[..i] + [px[i]];
      PoolErrAppend(px[..i], px[i], pal, bg);
      e := e + d;
      i := i + 1;
    }
    assert px[..|px|] == px;
  }

  method FindBestPalette(f: Frame, t: nat, old_c: nat) returns (bc: nat)
    requires t < |f.tiles| && old_c < |f.pals|
    ensures bc == BestPalette(f, t, 0, -1, old_c)
  {
    var best: int := -1;
    bc := old_c;
    var c := 0;
    while c < |f.pals|
      invariant c <= |f.pals| && bc < |f.pals|
      invariant BestPalette(f, t, c, best, bc) == BestPalette(f, t, 0, -1, old_c)
    {
      var e := TileErr(f.tiles[t], f.pals[c], f.bg);
      if best < 0 || e < best {
        best, bc := e, c;
      }
      c := c + 1;
    }
  }

  /** The reassignment loop. */
  method Reassign(f: Frame, tilepal: array<nat>) returns (changed: nat)
    requires Assigned(f, tilepal[..]) && |f.pals| > 0
    modifies tilepal
    ensures tilepal[..] == Reassigned(f, old(tilepal[..]))
    ensures changed == Moves(old(tilepal[..]), tilepal[..], 0)
  {
    changed := 0;
    ghost var a0 := tilepal[..];
    ghost var goal := Reassigned(f, a0);
    var t := 0;
    while t < tilepal.Length
      invariant t <= tilepal.Length
      invariant forall u :: 0 <= u < t ==> tilepal[u] == goal[u]
      invariant forall u :: t <= u < tilepal.Length ==> tilepal[u] == a0[u]
      invariant changed + Moves(a0, goal, t) == Moves(a0, goal, 0)
    {
      var bc := FindBestPalette(f, t, tilepal[t]);
      if bc != tilepal[t] {
        tilepal[t] := bc;
        changed := changed + 1;
      }
      t := t + 1;
    }
    assert tilepal[..] == goal;
  }

  /** The counting loop. */
  method CountTiles(f: Frame, tilepal: array<nat>) returns (cnt: seq<int>)
    requires Assigned(f, tilepal[..])
    ensures Counted(f, Groups(tilepal[..], cnt))
  {
    cnt := seq(|f.pals|, _ => 0);
    var t := 0;
    while t < tilepal.Length
      invariant t <= tilepal.Length && |cnt| == |f.pals|
      invariant forall c :: 0 <= c < |cnt| ==> cnt[c] == CountOf(tilepal[..t], c)
    {
      assert tilepal[..t + 1] == tilepal[..t] + [tilepal[t]];
      forall c {
        CountOfAppend(tilepal[..t], tilepal[t], c);
      }
      cnt := cnt[tilepal[t] := cnt[tilepal[t]] + 1];
      t := t + 1;
    }
    assert tilepal[..tilepal.Length] == tilepal[..];
  }

  lemma {:induction false} CountOfAppend(assign: seq<nat>, x: nat, c: nat)
    ensures CountOf(assign + [x], c) == CountOf(assign, c) + (if x == c then 1 else 0)
  {
    if assign == [] {
      assert assign + [x] == [x] && [x][1..] == [];
    } else {
      assert (assign + [x])[1..] == assign[1..] + [x];
      CountOfAppend(assign[1..], x, c);
    }
  }

  method FindWorst(f: Frame, tilepal: array<nat>, cnt: seq<int>) returns (wt: int)
    requires Assigned(f, tilepal[..]) && |cnt| == |f.pals|
    ensures wt == Worst(f, Groups(tilepal[..], cnt))
  {
    ghost var g := Groups(tilepal[..], cnt);
    var worst: int := -1;
    wt := -1;
    var t := 0;
    while t < tilepal.Length
      invariant t <= tilepal.Length
      invariant WorstFrom(f, g, t, worst, wt) == WorstFrom(f, g, 0, -1, -1)
    {
      if cnt[tilepal[t]] > 1 {
        var e := TileErr(f.tiles[t], f.pals[tilepal[t]], f.bg);
        if e > worst {
          worst, wt := e, t;
        }
      }
      t := t + 1;
    }
  }

  /** One turn of the re-seeding loop. */
  method ReseedTurn(f: Frame, tilepal: array<nat>, cnt: seq<int>, c: nat) returns (cnt': seq<int>, stolen: nat)
    requires Assigned(f, tilepal[..]) && |cnt| == |f.pals| && c < |f.pals|
    modifies tilepal
    ensures Groups(tilepal[..], cnt') == ReseedOne(f, Groups(old(tilepal[..]), cnt), c)
    ensures stolen == if tilepal[..] == old(tilepal[..]) && cnt' == cnt then 0 else 1
  {
    cnt', stolen := cnt, 0;
    if cnt[c] == 0 {
      var wt := FindWorst(f, tilepal, cnt);
      if wt >= 0 {
        WorstIsWorst(f, Groups(tilepal[..], cnt), 0, -1, -1);
        cnt' := cnt[tilepal[wt] := cnt[tilepal[wt]] - 1];
        tilepal[wt] := c;
        cnt' := cnt'[c := cnt'[c] + 1];
        stolen := 1;
      }
    }
  }

  /** The re-seeding loop; `changed` counts the tiles it moves. */
  method Reseed(f: Frame, tilepal: array<nat>, cnt0: seq<int>) returns (cnt: seq<int>, changed: nat)
    requires Counted(f, Groups(tilepal[..], cnt0))
    modifies tilepal
    ensures Groups(tilepal[..], cnt) == ReseedFrom(f, Groups(old(tilepal[..]), cnt0), 0)
    ensures changed == Steals(f, Groups(old(tilepal[..]), cnt0), 0)
  {
    ghost var g0 := Groups(tilepal[..], cnt0);
    cnt, changed := cnt0, 0;
    var c := 0;
    while c < |f.pals|
      invariant c <= |f.pals| && Assigned(f, tilepal[..]) && |cnt| == |f.pals|
      invariant ReseedFrom(f, Groups(tilepal[..], cnt), c) == ReseedFrom(f, g0, 0)
      invariant changed + Steals(f, Groups(tilepal[..], cnt), c) == Steals(f, g0, 0)
    {
      var stolen;
      cnt, stolen := ReseedTurn(f, tilepal, cnt, c);
      changed := changed + stolen;
      c := c + 1;
    }
  }

  /** One refinement pass up to the rebuilding of the palettes. */
  method RefinePass(f: Frame, tilepal: array<nat>) returns (cnt: seq<int>, changed: nat)
    requires Assigned(f, tilepal[..]) && |f.pals| > 0
    modifies tilepal
    ensures Counted(f, Groups(tilepal[..], cnt))
    ensures AllFilled(cnt) <==> |f.tiles| >= |f.pals|
    ensures exists g :: Counted(f, g) && g.assign == Reassigned(f, old(tilepal[..])) &&
                        Groups(tilepal[..], cnt) == ReseedFrom(f, g, 0)
    ensures changed == Moves(old(tilepal[..]), Reassigned(f, old(tilepal[..])), 0) +
                       Moves(Reassigned(f, old(tilepal[..])), tilepal[..], 0)
    ensures changed == 0 ==> tilepal[..] == old(tilepal[..]) == Reassigned(f, old(tilepal[..]))
    ensures OnlyEmptyFilled(Reassigned(f, old(tilepal[..])), tilepal[..], |f.pals|)
  {
    var moved := Reassign(f, tilepal);
    cnt := CountTiles(f, tilepal);
    ghost var g := Groups(tilepal[..], cnt);
    var stolen;
    ReseedFillsIff(f, g);
    ReseedMovesFew(f, g);
    ReseedCounts(f, g);
    cnt, stolen := Reseed(f, tilepal, cnt);
    changed := moved + stolen;
    if changed == 0 {
      NoMoves(old(tilepal[..]), g.assign, 0);
      NoMoves(g.assign, tilepal[..], 0);
    }
  }

  lemma {:induction false} NoMoves(a: seq<nat>, b: seq<nat>, t: nat)
    requires t <= |a| == |b|
    ensures Moves(a, b, t) == 0 <==> forall u :: t <= u < |a| ==> a[u] == b[u]
    decreases |a| - t
  {
    if t < |a| {
      NoMoves(a, b, t + 1);
    }
  }
}
