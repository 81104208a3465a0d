/**
  Median cut (box_range and median_cut of tools/fmv_encode.c).

  A `Cut` is the pixel array and the boxes over it; `SplitStep` is one turn of the splitting loop, a relation because
  qsort may order equal keys either way. The lemmas say what every chain of turns keeps; the method is the code.
*/
module MedianCut {
  import opened Arith
  import opened Pixels

  datatype Range = Range(lo: nat, hi: nat)

  datatype Cut = Cut(px: seq<Col>, box: seq<Range>)

  // ---- box_range ----

  /** Least value of a channel, 255 if there is no pixel. */
  function MinChan(s: seq<Col>, a: nat): int {
    if s == [] then 255 else
      var m := MinChan(s[..|s| - 1], a);
      var v := Chan(s[|s| - 1], a);
      if v < m then v else m
  }

  /** Greatest value of a channel, 0 if there is no pixel. */
  function MaxChan(s: seq<Col>, a: nat): int {
    if s == [] then 0 else
      var m := MaxChan(s[..|s| - 1], a);
      var v := Chan(s[|s| - 1], a);
      if v > m then v else m
  }

  function Spread(s: seq<Col>, a: nat): int {
    MaxChan(s, a) - MinChan(s, a)
  }

  function Extent(s: seq<Col>): int {
    Spread(s, 0) + Spread(s, 1) + Spread(s, 2)
  }

  /** `a` is the widest channel, the first one on a tie. */
  predicate IsWidest(s: seq<Col>, a: nat) {
    && a < 3 && (forall b :: 0 <= b < 3 ==> Spread(s, b) <= Spread(s, a))
    && forall b :: 0 <= b < a ==> Spread(s, b) < Spread(s, a)
  }

  lemma {:induction false} ChanBounds(s: seq<Col>, a: nat, i: nat)
    requires i < |s|
    ensures MinChan(s, a) <= Chan(s[i], a) <= MaxChan(s, a)
  {
    if i < |s| - 1 {
      ChanBounds(s[..|s| - 1], a, i);
    }
  }

  /** The extremes are values of pixels, if there are any and they are RGB. */
  lemma {:induction false} ExtremesAttained(s: seq<Col>, a: nat)
    ensures MinChan(s, a) == 255 || exists i :: 0 <= i < |s| && Chan(s[i], a) == MinChan(s, a)
    ensures MaxChan(s, a) == 0 || exists i :: 0 <= i < |s| && Chan(s[i], a) == MaxChan(s, a)
  {
    if s != [] {
      var r := s[..|s| - 1];
      ExtremesAttained(r, a);
      assert forall i :: 0 <= i < |r| ==> s[i] == r[i];
    }
  }

  /** A box's range is the sum of the differences of pixels' values in the three channels, and no two pixels differ by
      more in any: for RGB pixels the spread is the greatest difference of two of them. */
  lemma SpreadIs(s: seq<Col>, a: nat)
    requires s != [] && forall i :: 0 <= i < |s| ==> 0 <= Chan(s[i], a) <= 255
    ensures forall i, j :: 0 <= i < |s| && 0 <= j < |s| ==> Chan(s[i], a) - Chan(s[j], a) <= Spread(s, a)
    ensures exists i, j :: 0 <= i < |s| && 0 <= j < |s| && Chan(s[i], a) - Chan(s[j], a) == Spread(s, a)
  {
    forall i | 0 <= i < |s|
      ensures MinChan(s, a) <= Chan(s[i], a) <= MaxChan(s, a)
    {
      ChanBounds(s, a, i);
    }
    ExtremesAttained(s, a);
    var i := if MaxChan(s, a) == 0 then 0 else var k :| 0 <= k < |s| && Chan(s[k], a) == MaxChan(s, a); k;
    var j := if MinChan(s, a) == 255 then 0 else var k :| 0 <= k < |s| && Chan(s[k], a) == MinChan(s, a); k;
    assert Chan(s[i], a) - Chan(s[j], a) == Spread(s, a);
  }

  function Mins(s: seq<Col>): Col {
    Col(MinChan(s, 0), MinChan(s, 1), MinChan(s, 2))
  }

  function Maxs(s: seq<Col>): Col {
    Col(MaxChan(s, 0), MaxChan(s, 1), MaxChan(s, 2))
  }

  lemma ExtremesAppend(s: seq<Col>, v: Col, a: nat)
    ensures MinChan(s + [v], a) == if Chan(v, a) < MinChan(s, a) then Chan(v, a) else MinChan(s, a)
    ensures MaxChan(s + [v], a) == if Chan(v, a) > MaxChan(s, a) then Chan(v, a) else MaxChan(s, a)
  {
    assert (s + [v])[..|s + [v]| - 1] == s;
  }

  method BoxRange(px: array<Col>, lo: nat, hi: nat) returns (rng: int, amax: nat)
    requires lo <= hi <= px.Length
    ensures rng == Spread(px[lo..hi], 0) + Spread(px[lo..hi], 1) + Spread(px[lo..hi], 2) && IsWidest(px[lo..hi], amax)
  {
    var mn, mx := Col(255, 255, 255), Col(0, 0, 0);
    var j := lo;
    while j < hi
      invariant lo <= j <= hi
      invariant mn == Mins(px[lo..j]) && mx == Maxs(px[lo..j])
    {
      var v := px[j];
      assert px[lo..j + 1] == px[lo..j] + [v];
      ExtremesAppend(px[lo..j], v, 0);
      ExtremesAppend(px[lo..j], v, 1);
      ExtremesAppend(px[lo..j], v, 2);
      mn := Col(if v.r < mn.r then v.r else mn.r, if v.g < mn.g then v.g else mn.g, if v.b < mn.b then v.b else mn.b);
      mx := Col(if v.r > mx.r then v.r else mx.r, if v.g > mx.g then v.g else mx.g, if v.b > mx.b then v.b else mx.b);
      j := j + 1;
    }
    rng := (mx.r - mn.r) + (mx.g - mn.g) + (mx.b - mn.b);
    amax := if mx.r - mn.r >= mx.g - mn.g && mx.r - mn.r >= mx.b - mn.b then 0
            else if mx.g - mn.g >= mx.b - mn.b then 1 else 2;
  }

  // ---- one split ----

  predicate BoxesFit(s: Cut) {
    forall i :: 0 <= i < |s.box| ==> s.box[i].lo < s.box[i].hi <= |s.px|
  }

  function BoxExtent(s: Cut, i: nat): int
    requires BoxesFit(s) && i < |s.box|
  {
    Extent(s.px[s.box[i].lo..s.box[i].hi])
  }

  /** The box the loop would split looking at boxes `i` on, given the best one so far; -1 for none. */
  function BestFrom(s: Cut, i: nat, best: int, bestr: int): int
    requires BoxesFit(s) && i <= |s.box|
    decreases |s.box| - i
  {
    if i == |s.box| then best
    else if s.box[i].hi - s.box[i].lo < 2 || BoxExtent(s, i) <= bestr then BestFrom(s, i + 1, best, bestr)
    else BestFrom(s, i + 1, i, BoxExtent(s, i))
  }

  function Best(s: Cut): int
    requires BoxesFit(s)
  {
    BestFrom(s, 0, -1, -1)
  }

  lemma ExtentNonNegative(s: seq<Col>)
    requires s != []
    ensures Extent(s) >= 0
  {
    ChanBounds(s, 0, 0);
    ChanBounds(s, 1, 0);
    ChanBounds(s, 2, 0);
  }

  /** The chosen box has at least two pixels and is the first of the greatest extent among all such boxes; none is chosen
      only if every box is a single pixel. */
  lemma {:induction false} BestFromIsWidest(s: Cut, i: nat, best: int, bestr: int)
    requires BoxesFit(s) && i <= |s.box| && -1 <= best < i
    requires if best == -1 then bestr == -1 else bestr == BoxExtent(s, best) && s.box[best].hi - s.box[best].lo >= 2
    requires forall j :: 0 <= j < i && s.box[j].hi - s.box[j].lo >= 2 ==>
               best >= 0 && BoxExtent(s, j) <= bestr && (j < best ==> BoxExtent(s, j) < bestr)
    ensures var b := BestFrom(s, i, best, bestr);
            && -1 <= b < |s.box|
            && (b >= 0 ==> s.box[b].hi - s.box[b].lo >= 2)
            && forall j :: 0 <= j < |s.box| && s.box[j].hi - s.box[j].lo >= 2 ==>
                 b >= 0 && BoxExtent(s, j) <= BoxExtent(s, b) && (j < b ==> BoxExtent(s, j) < BoxExtent(s, b))
    decreases |s.box| - i
  {
    if i < |s.box| {
      ExtentNonNegative(s.px[s.box[i].lo..s.box[i].hi]);
      if s.box[i].hi - s.box[i].lo < 2 || BoxExtent(s, i) <= bestr {
        BestFromIsWidest(s, i + 1, best, bestr);
      } else {
        BestFromIsWidest(s, i + 1, i, BoxExtent(s, i));
      }
    }
  }

  /** Over the pixels: no box of two pixels or more has a greater sum of spreads than the chosen one, no earlier one as
      great a sum. */
  lemma BestIsWidest(s: Cut, j: nat)
    requires BoxesFit(s) && j < |s.box| && s.box[j].hi - s.box[j].lo >= 2
    ensures 0 <= Best(s) < |s.box| && s.box[Best(s)].hi - s.box[Best(s)].lo >= 2
    ensures var b := Best(s);
            var u, v := s.px[s.box[j].lo..s.box[j].hi], s.px[s.box[b].lo..s.box[b].hi];
            && Spread(u, 0) + Spread(u, 1) + Spread(u, 2) <= Spread(v, 0) + Spread(v, 1) + Spread(v, 2)
            && (j < b ==> Spread(u, 0) + Spread(u, 1) + Spread(u, 2) < Spread(v, 0) + Spread(v, 1) + Spread(v, 2))
  {
    BestFromIsWidest(s, 0, -1, -1);
    assert BoxExtent(s, j) <= BoxExtent(s, Best(s));
  }

  predicate SortedBy(s: seq<Col>, a: nat) {
    forall i, j :: 0 <= i < j < |s| ==> Chan(s[i], a) <= Chan(s[j], a)
  }

  /** One turn: the chosen box is sorted along its widest channel and halved, the upper half one larger if need be. */
  ghost predicate SplitStep(s: Cut, s': Cut)
    requires BoxesFit(s)
  {
    var b := Best(s);
    && 0 <= b < |s.box| == |s'.box| - 1
    && var lo, mid, hi := s.box[b].lo, s'.box[b].hi, s.box[b].hi;
       && lo <= mid <= hi && mid - lo <= hi - mid <= mid - lo + 1
       && |s'.px| == |s.px| && s'.px[..lo] == s.px[..lo] && s'.px[hi..] == s.px[hi..]
       && multiset(s'.px[lo..hi]) == multiset(s.px[lo..hi])
       && (exists a :: IsWidest(s.px[lo..hi], a) && SortedBy(s'.px[lo..hi], a))
       && s'.box == s.box[b := Range(lo, mid)] + [Range(mid, hi)]
  }

  predicate In(r: Range, j: nat) {
    r.lo <= j < r.hi
  }

  predicate Covered(box: seq<Range>, j: nat) {
    exists i :: 0 <= i < |box| && In(box[i], j)
  }

  /** The boxes are non-empty and every pixel position lies in exactly one. */
  ghost predicate Partition(s: Cut) {
    && BoxesFit(s)
    && (forall j :: 0 <= j < |s.px| ==> Covered(s.box, j))
    && (forall i, k, j :: 0 <= i < |s.box| && 0 <= k < |s.box| && In(s.box[i], j) && In(s.box[k], j) ==> i == k)
  }

  lemma SplitCovers(s: Cut, s': Cut, j: nat)
    requires Partition(s) && SplitStep(s, s') && j < |s.px|
    ensures Covered(s'.box, j)
  {
    assert Covered(s.box, j);
    var i :| 0 <= i < |s.box| && In(s.box[i], j);
    if i != Best(s) {
      assert In(s'.box[i], j);
    } else {
      assert In(s'.box[i], j) || In(s'.box[|s.box|], j);
    }
  }

  lemma SplitKeepsPixels(s: Cut, s': Cut)
    requires BoxesFit(s) && SplitStep(s, s')
    ensures multiset(s'.px) == multiset(s.px)
  {
    var lo, hi := s.box[Best(s)].lo, s.box[Best(s)].hi;
    assert s.px == s.px[..lo] + s.px[lo..hi] + s.px[hi..];
    assert s'.px == s'.px[..lo] + s'.px[lo..hi] + s'.px[hi..];
  }

  lemma SplitKeepsPartition(s: Cut, s': Cut)
    requires Partition(s) && SplitStep(s, s')
    ensures Partition(s') && |s'.box| == |s.box| + 1
  {
    BestFromIsWidest(s, 0, -1, -1);
    forall j | 0 <= j < |s'.px|
      ensures Covered(s'.box, j)
    {
      SplitCovers(s, s', j);
    }
    forall i, k, j | 0 <= i < |s'.box| && 0 <= k < |s'.box| && In(s'.box[i], j) && In(s'.box[k], j)
      ensures i == k
    {
      SplitDisjoint(s, s', i, k, j);
    }
  }

  lemma SplitDisjoint(s: Cut, s': Cut, i: nat, k: nat, j: nat)
    requires Partition(s) && SplitStep(s, s')
    requires i < |s'.box| && k < |s'.box| && In(s'.box[i], j) && In(s'.box[k], j)
    ensures i == k
  {
    var b := Best(s);
    var m, n := if i == |s.box| then b else i, if k == |s.box| then b else k;
    assert In(s.box[m], j) && In(s.box[n], j);
    assert m == n;
  }

  /** The two halves of a split differ by at most one pixel, and along the channel in which the box's pixels differ most,
      the first one on a tie, no pixel of the lower half exceeds one of the upper half. */
  lemma SplitSeparates(s: Cut, s': Cut, a: nat, i: nat, j: nat)
    requires BoxesFit(s) && SplitStep(s, s') && In(s'.box[Best(s)], i) && In(s'.box[|s.box|], j)
    requires var bx := s.px[s.box[Best(s)].lo..s.box[Best(s)].hi];
             a < 3 && forall b :: 0 <= b < 3 ==> Spread(bx, b) < Spread(bx, a) || (Spread(bx, b) == Spread(bx, a) && a <= b)
    ensures i < |s'.px| && j < |s'.px| && Chan(s'.px[i], a) <= Chan(s'.px[j], a)
    ensures var lower, upper := s'.box[Best(s)], s'.box[|s.box|];
            && lower.lo == s.box[Best(s)].lo && lower.hi == upper.lo && upper.hi == s.box[Best(s)].hi
            && lower.hi - lower.lo <= upper.hi - upper.lo <= lower.hi - lower.lo + 1
  {
    var lo, hi := s.box[Best(s)].lo, s.box[Best(s)].hi;
    var w :| IsWidest(s.px[lo..hi], w) && SortedBy(s'.px[lo..hi], w);
    assert w == a;
    assert s'.px[lo..hi][i - lo] == s'.px[i] && s'.px[lo..hi][j - lo] == s'.px[j];
  }

  // ---- whole runs ----

  /** A history of the splitting loop. */
  ghost predicate IsTrace(trace: seq<Cut>) {
    && trace != []
    && forall i :: 0 <= i < |trace| - 1 ==> BoxesFit(trace[i]) && SplitStep(trace[i], trace[i + 1])
  }

  lemma WholeIsPartition(s: Cut)
    requires s.px != [] && s.box == [Range(0, |s.px|)]
    ensures Partition(s)
  {
    assert s.box[0] == Range(0, |s.px|);
    forall j: nat | j < |s.px|
      ensures Covered(s.box, j)
    {
      assert In(s.box[0], j);
    }
  }

  /** Every history that starts with one box over all pixels keeps a partition into non-empty boxes, one more a turn,
      and the multiset of pixels. */
  lemma {:induction false} TraceKeeps(trace: seq<Cut>, i: nat)
    requires IsTrace(trace) && i < |trace| && trace[0].px != [] && trace[0].box == [Range(0, |trace[0].px|)]
    ensures Partition(trace[i]) && |trace[i].box| == i + 1
    ensures |trace[i].px| == |trace[0].px| && multiset(trace[i].px) == multiset(trace[0].px)
  {
    if i == 0 {
      WholeIsPartition(trace[0]);
    } else {
      TraceKeeps(trace, i - 1);
      assert SplitStep(trace[i - 1], trace[i]);
      SplitKeepsPartition(trace[i - 1], trace[i]);
      SplitKeepsPixels(trace[i - 1], trace[i]);
    }
  }

  // ---- colours of the boxes ----

  lemma {:induction false} SumBounds(s: seq<Col>, a: nat, lo: int, hi: int)
    requires forall i :: 0 <= i < |s| ==> lo <= Chan(s[i], a) <= hi
    ensures lo * |s| <= SumChan(s, a) <= hi * |s|
  {
    if s != [] {
      SumBounds(s[1..], a, lo, hi);
      assert lo * |s| == lo + lo * |s[1..]| && hi * |s| == hi + hi * |s[1..]|;
    }
  }

  /** The colour of a box lies, channel by channel, between the least and the greatest value in the box. */
  lemma MeanBetween(s: seq<Col>, a: nat)
    requires s != [] && a < 3
    ensures MinChan(s, a) <= Chan(Mean(s), a) <= MaxChan(s, a)
  {
    forall i | 0 <= i < |s|
      ensures MinChan(s, a) <= Chan(s[i], a) <= MaxChan(s, a)
    {
      ChanBounds(s, a, i);
    }
    SumBounds(s, a, MinChan(s, a), MaxChan(s, a));
    DivBetween(SumChan(s, a), |s|, MinChan(s, a), MaxChan(s, a));
  }

  lemma DivBetween(x: int, d: int, lo: int, hi: int)
    requires d > 0 && lo * d <= x <= hi * d
    ensures lo <= x / d <= hi
  {
    DivBounds(x, d);
    assert (x / d + 1) * d == x / d * d + d;
    MulStrict(lo, x / d + 1, d);
    MulStrict(hi, x / d, d);
  }

  /** The colours the encoder takes from a cut: the mean of each box, black where there is no box. */
  function Palette(s: Cut, k: nat): (p: seq<Col>)
    requires BoxesFit(s)
    ensures |p| == k
  {
    seq(k, i requires 0 <= i < k => if i < |s.box| then Mean(s.px[s.box[i].lo..s.box[i].hi]) else BLACK)
  }

  /** Each colour of the palette lies in its box, channel by channel. */
  lemma PaletteInBoxes(s: Cut, k: nat, i: nat, a: nat)
    requires BoxesFit(s) && i < k && i < |s.box| && a < 3
    ensures var b := s.px[s.box[i].lo..s.box[i].hi];
            MinChan(b, a) <= Chan(Palette(s, k)[i], a) <= MaxChan(b, a)
  {
    MeanBetween(s.px[s.box[i].lo..s.box[i].hi], a);
  }

  /** The loop gives up early only when every box is down to a single pixel. */
  lemma StopsAtSingletons(s: Cut)
    requires BoxesFit(s)
    ensures Best(s) == -1 <==> forall i :: 0 <= i < |s.box| ==> s.box[i].hi == s.box[i].lo + 1
  {
    BestFromIsWidest(s, 0, -1, -1);
    assert Best(s) == -1 ==> forall j :: 0 <= j < |s.box| ==> s.box[j].hi - s.box[j].lo < 2;
  }

  // ---- the code ----

  function Insert(s: seq<Col>, c: Col, a: nat): (r: seq<Col>) {
    if s == [] || Chan(c, a) <= Chan(s[0], a) then [c] + s else [s[0]] + Insert(s[1..], c, a)
  }

  function Sort(s: seq<Col>, a: nat): (r: seq<Col>) {
    if s == [] then [] else Insert(Sort(s[1..], a), s[0], a)
  }

  lemma {:induction false} InsertKeeps(s: seq<Col>, c: Col, a: nat)
    ensures multiset(Insert(s, c, a)) == multiset(s) + multiset{c} && |Insert(s, c, a)| == |s| + 1
  {
    if s != [] && Chan(c, a) > Chan(s[0], a) {
      assert s == [s[0]] + s[1..];
      InsertKeeps(s[1..], c, a);
    }
  }

  lemma {:induction false} InsertSorts(s: seq<Col>, c: Col, a: nat)
    requires SortedBy(s, a)
    ensures SortedBy(Insert(s, c, a), a)
    ensures Insert(s, c, a)[0] == c || (s != [] && Insert(s, c, a)[0] == s[0])
  {
    if s != [] && Chan(c, a) > Chan(s[0], a) {
      InsertSorts(s[1..], c, a);
      assert Chan(s[0], a) <= Chan(Insert(s[1..], c, a)[0], a);
    }
  }

  lemma {:induction false} SortSorts(s: seq<Col>, a: nat)
    ensures SortedBy(Sort(s, a), a) && multiset(Sort(s, a)) == multiset(s) && |Sort(s, a)| == |s|
  {
    if s != [] {
      assert s == [s[0]] + s[1..];
      SortSorts(s[1..], a);
      InsertSorts(Sort(s[1..], a), s[0], a);
      InsertKeeps(Sort(s[1..], a), s[0], a);
    }
  }

  /** qsort on px[lo..hi] with mc_cmp: any sorting routine will do. */
  method QSort(px: array<Col>, lo: nat, hi: nat, a: nat)
    requires lo <= hi <= px.Length
    modifies px
    ensures px[..lo] == old(px[..lo]) && px[hi..] == old(px[hi..])
    ensures SortedBy(px[lo..hi], a) && multiset(px[lo..hi]) == multiset(old(px[lo..hi]))
  {
    ghost var was := px[..];
    var s := Sort(px[lo..hi], a);
    SortSorts(px[lo..hi], a);
    PutBack(px, lo, s);
    Spliced(was, px[..], lo, s);
    assert px[lo..hi] == s;
  }

  method PutBack(px: array<Col>, lo: nat, s: seq<Col>)
    requires lo + |s| <= px.Length
    modifies px
    ensures IsSpliced(old(px[..]), px[..], lo, s)
  {
    forall i | 0 <= i < |s| {
      px[lo + i] := s[i];
    }
  }

  ghost predicate IsSpliced(was: seq<Col>, now: seq<Col>, lo: nat, s: seq<Col>) {
    && lo + |s| <= |was| == |now|
    && forall i :: 0 <= i < |was| ==> now[i] == if lo <= i < lo + |s| then s[i - lo] else was[i]
  }

  lemma Spliced(was: seq<Col>, now: seq<Col>, lo: nat, s: seq<Col>)
    requires IsSpliced(was, now, lo, s)
    ensures now[..lo] == was[..lo] && now[lo..lo + |s|] == s && now[lo + |s|..] == was[lo + |s|..]
  {
  }

  /** The search for the box to split. */
  method FindBest(px: array<Col>, box: seq<Range>) returns (best: int)
    requires BoxesFit(Cut(px[..], box))
    ensures best == Best(Cut(px[..], box))
  {
    ghost var s := Cut(px[..], box);
    best := -1;
    var bestr := -1;
    var i := 0;
    while i < |box|
      invariant i <= |box|
      invariant BestFrom(s, i, best, bestr) == Best(s)
    {
      best, bestr := LookAt(px, box, i, best, bestr);
      i := i + 1;
    }
  }

  /** One turn of the search: box i is the best so far if it has two pixels or more and a greater extent. */
  method LookAt(px: array<Col>, box: seq<Range>, i: nat, best: int, bestr: int) returns (best': int, bestr': int)
    requires BoxesFit(Cut(px[..], box)) && i < |box|
    ensures var s := Cut(px[..], box); BestFrom(s, i + 1, best', bestr') == BestFrom(s, i, best, bestr)
  {
    best', bestr' := best, bestr;
    var r := box[i];
    if r.hi - r.lo < 2 {
      return;
    }
    assert px[..][r.lo..r.hi] == px[r.lo..r.hi];
    var rng, ax := BoxRange(px, r.lo, r.hi);
    if rng > bestr {
      bestr', best' := rng, i;
    }
  }

  /** One turn of the splitting loop on the chosen box. */
  method SplitBox(px: array<Col>, box: seq<Range>, best: nat) returns (box': seq<Range>)
    requires BoxesFit(Cut(px[..], box)) && best == Best(Cut(px[..], box)) && best < |box|
    modifies px
    ensures SplitStep(Cut(old(px[..]), box), Cut(px[..], box'))
  {
    var lo, hi := box[best].lo, box[best].hi;
    var rng, ax := BoxRange(px, lo, hi);
    QSort(px, lo, hi, ax);
    assert px[..][..lo] == px[..lo] && px[..][hi..] == px[hi..] && px[..][lo..hi] == px[lo..hi];
    assert old(px[..])[..lo] == old(px[..lo]) && old(px[..])[hi..] == old(px[hi..]) && old(px[..])[lo..hi] == old(px[lo..hi]);
    var mid := (lo + hi) / 2;
    box' := box[best := Range(lo, mid)] + [Range(mid, hi)];
  }

  /** The colour of one box. */
  method BoxMean(px: array<Col>, lo: nat, hi: nat) returns (c: Col)
    requires lo < hi <= px.Length
    ensures c == Mean(px[lo..hi])
  {
    var sr, sg, sb := 0, 0, 0;
    var j := lo;
    while j < hi
      invariant lo <= j <= hi
      invariant sr == SumChan(px[lo..j], 0) && sg == SumChan(px[lo..j], 1) && sb == SumChan(px[lo..j], 2)
    {
      assert px[lo..j + 1] == px[lo..j] + [px[j]];
      SumChanAppend(px[lo..j], px[j], 0);
      SumChanAppend(px[lo..j], px[j], 1);
      SumChanAppend(px[lo..j], px[j], 2);
      sr, sg, sb := sr + px[j].r, sg + px[j].g, sb + px[j].b;
      j := j + 1;
    }
    var cnt := hi - lo;
    c := Col(sr / cnt, sg / cnt, sb / cnt);
  }

  /** median_cut on a whole pool of pixels, k colours into `out`. */
  method MedianCut(px: array<Col>, k: nat, out: array<Col>) returns (ghost trace: seq<Cut>)
    requires 1 <= k <= 256 && k <= out.Length && px != out
    modifies px, out
    ensures px.Length == 0 ==> forall i :: 0 <= i < k ==> out[i] == BLACK
    ensures px.Length > 0 ==>
              && IsTrace(trace) && trace[0] == Cut(old(px[..]), [Range(0, px.Length)])
              && var last := trace[|trace| - 1];
                 && last.px == px[..] && Partition(last)
                 && multiset(px[..]) == multiset(old(px[..]))
                 && (|last.box| == k || (|last.box| < k && Best(last) == -1))
                 && out[..k] == Palette(last, k)
                 && forall i :: 0 <= i < k ==>
                      out[i] == if i < |last.box| then Mean(px[last.box[i].lo..last.box[i].hi]) else BLACK
    ensures out[k..] == old(out[k..])
  {
    trace := [];
    if px.Length == 0 {
      forall i | 0 <= i < k {
        out[i] := BLACK;
      }
      return;
    }
    var box;
    box, trace := SplitAll(px, k);
    ghost var last := Cut(px[..], box);
    var i := 0;
    while i < k
      invariant i <= k && px[..] == last.px
      invariant out[..i] == Palette(last, k)[..i] && out[k..] == old(out[k..])
    {
      if i < |box| {
        out[i] := BoxMean(px, box[i].lo, box[i].hi);
        assert px[box[i].lo..box[i].hi] == last.px[box[i].lo..box[i].hi];
      } else {
        out[i] := BLACK;
      }
      assert out[..i + 1] == out[..i] + [Palette(last, k)[i]];
      i := i + 1;
    }
  }

  /** The splitting loop. */
  method SplitAll(px: array<Col>, k: nat) returns (box: seq<Range>, ghost trace: seq<Cut>)
    requires 1 <= k && px.Length > 0
    modifies px
    ensures IsTrace(trace) && trace[0] == Cut(old(px[..]), [Range(0, px.Length)])
    ensures trace[|trace| - 1] == Cut(px[..], box) && Partition(Cut(px[..], box))
    ensures multiset(px[..]) == multiset(old(px[..]))
    ensures |box| == k || (|box| < k && Best(Cut(px[..], box)) == -1)
  {
    box := [Range(0, px.Length)];
    trace := [Cut(px[..], box)];
    while |box| < k
      invariant 1 <= |box| <= k && IsTrace(trace) && |trace| == |box|
      invariant trace[0] == Cut(old(px[..]), [Range(0, px.Length)])
      invariant trace[|trace| - 1] == Cut(px[..], box)
      decreases k - |box|
    {
      TraceKeeps(trace, |trace| - 1);
      var best := FindBest(px, box);
      BestFromIsWidest(Cut(px[..], box), 0, -1, -1);
      if best < 0 {
        return;
      }
      box := SplitBox(px, box, best);
      trace := trace + [Cut(px[..], box)];
    }
    TraceKeeps(trace, |trace| - 1);
  }
}
