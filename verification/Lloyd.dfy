/**
  Lloyd refinement of one palette (the loop of build_palette in tools/fmv_encode.c).

  Each pixel belongs to its nearest colour, or to the backdrop if that is strictly nearer; each colour with pixels
  moves to the truncated mean of its pixels. Truncation makes a single move lose a little; the lemmas say exactly how
  much, and that a whole pass never raises the pool's error by more than that.
*/
module Lloyd {
  import opened Arith
  import opened Pixels

  // ---- one cluster ----

  /** Squared error of one channel against the value v. */
  function SumSquares(m: seq<Col>, a: nat, v: int): int {
    if m == [] then 0 else Square(Chan(m[0], a) - v) + SumSquares(m[1..], a, v)
  }

  /** Squared error of a cluster against the centre y. */
  function ClusterErr(m: seq<Col>, y: Col): int {
    if m == [] then 0 else Dist(m[0], y) + ClusterErr(m[1..], y)
  }

  lemma {:induction false} ClusterErrByChannel(m: seq<Col>, y: Col)
    ensures ClusterErr(m, y) == SumSquares(m, 0, y.r) + SumSquares(m, 1, y.g) + SumSquares(m, 2, y.b)
  {
    if m != [] {
      ClusterErrByChannel(m[1..], y);
    }
  }

  lemma ShiftSquare(x: int, v: int, d: int)
    ensures Square(x - (v + d)) == Square(x - v) - 2 * d * (x - v) + d * d
  {
  }

  lemma Distribute(k: int, x: int, y: int)
    ensures k * (x + y) == k * x + k * y
  {
  }

  lemma ShiftSums(n: int, v: int, d: int, x: int, t: int)
    ensures 2 * d * (x - v) + 2 * d * (t - (n - 1) * v) == 2 * d * (x + t - n * v)
    ensures d * d + (n - 1) * (d * d) == n * (d * d)
  {
    assert (n - 1) * v == n * v - v;
    Distribute(2 * d, x - v, t - (n - 1) * v);
  }

  /** Moving a centre by d changes the error by n * d * d - 2 * d * (sum - n * v). */
  lemma {:induction false} ShiftCentre(m: seq<Col>, a: nat, v: int, d: int)
    ensures SumSquares(m, a, v + d) ==
            SumSquares(m, a, v) - 2 * d * (SumChan(m, a) - |m| * v) + |m| * (d * d)
  {
    if m != [] {
      ShiftCentre(m[1..], a, v, d);
      ShiftSquare(Chan(m[0], a), v, d);
      ShiftSums(|m|, v, d, Chan(m[0], a), SumChan(m[1..], a));
    }
  }

  /** What the truncated mean of a channel loses against the best integer centre. */
  function Loss(m: seq<Col>, a: nat): int
    requires m != []
  {
    var f := SumChan(m, a) % |m|;
    if 2 * f > |m| then 2 * f - |m| else 0
  }

  lemma LossBounds(m: seq<Col>, a: nat)
    requires m != []
    ensures 0 <= Loss(m, a) < |m|
  {
  }

  /** What it costs n values of remainder f to be measured from d above their truncated mean. */
  function ShiftCost(n: int, f: int, d: int): int {
    n * (d * d) - 2 * d * f
  }

  lemma CostFactors(n: int, f: int, d: int)
    ensures ShiftCost(n, f, d) == d * (n * d - 2 * f)
  {
    assert d * (n * d - 2 * f) == d * (n * d) - d * (2 * f);
    assert d * (n * d) == n * (d * d);
  }

  lemma SameSigns(x: int, y: int)
    ensures (x >= 0 && y >= 0) || (x <= 0 && y <= 0) ==> x * y >= 0
  {
  }

  /** Only the step to the next integer can pay off. */
  lemma ShiftPays(n: int, f: int, d: int)
    requires 0 <= f < n
    ensures ShiftCost(n, f, d) < 0 <==> d == 1 && 2 * f > n
    ensures d == 1 ==> ShiftCost(n, f, d) == n - 2 * f
  {
    CostFactors(n, f, d);
    if d != 1 {
      if d >= 2 {
        MulMonotone(2, d, n);
      } else if d <= -1 {
        MulMonotone(d, -1, n);
      }
      SameSigns(d, n * d - 2 * f);
    }
  }

  /** In one channel the truncated mean is within Loss of every integer centre, and the next integer attains it: the
      truncated mean is the best integer centre exactly if the remainder of the division is at most half the count. */
  lemma TruncatedMeanLoss(m: seq<Col>, a: nat, v: int)
    requires m != []
    ensures var c := SumChan(m, a) / |m|;
            && SumSquares(m, a, c) <= SumSquares(m, a, v) + Loss(m, a)
            && (Loss(m, a) > 0 ==> SumSquares(m, a, c) == SumSquares(m, a, c + 1) + Loss(m, a))
  {
    var n, c := |m|, SumChan(m, a) / |m|;
    var f := SumChan(m, a) % n;
    DivBounds(SumChan(m, a), n);
    assert SumChan(m, a) - n * c == f;
    ShiftCentre(m, a, c, v - c);
    ShiftPays(n, f, v - c);
    ShiftCentre(m, a, c, 1);
  }

  lemma TruncatedMeanOptimalIff(m: seq<Col>, a: nat)
    requires m != []
    ensures (forall v :: SumSquares(m, a, SumChan(m, a) / |m|) <= SumSquares(m, a, v)) <==>
            2 * (SumChan(m, a) % |m|) <= |m|
  {
    forall v {
      TruncatedMeanLoss(m, a, v);
    }
    if 2 * (SumChan(m, a) % |m|) > |m| {
      assert SumSquares(m, a, SumChan(m, a) / |m|) > SumSquares(m, a, SumChan(m, a) / |m| + 1);
    }
  }

  /** The truncated mean's error exceeds that of any other integer centre by less than 3 per pixel. */
  lemma MeanNearlyOptimal(m: seq<Col>, y: Col)
    requires m != []
    ensures ClusterErr(m, Mean(m)) <= ClusterErr(m, y) + Loss(m, 0) + Loss(m, 1) + Loss(m, 2)
    ensures ClusterErr(m, Mean(m)) < ClusterErr(m, y) + 3 * |m|
  {
    ClusterErrByChannel(m, Mean(m));
    ClusterErrByChannel(m, y);
    TruncatedMeanLoss(m, 0, y.r);
    TruncatedMeanLoss(m, 1, y.g);
    TruncatedMeanLoss(m, 2, y.b);
    LossBounds(m, 0);
    LossBounds(m, 1);
    LossBounds(m, 2);
  }

  /** What channel `a` of a cluster gains by standing at its truncated mean instead of at y. */
  function Gain(m: seq<Col>, y: Col, a: nat): int
    requires m != []
  {
    ShiftCost(|m|, SumChan(m, a) % |m|, Chan(y, a) - Chan(Mean(m), a))
  }

  /** A channel loses only to the next integer above the truncated mean, and to that one exactly if the remainder is
      more than half the count. */
  lemma GainIs(m: seq<Col>, y: Col, a: nat)
    requires m != [] && a < 3
    ensures SumSquares(m, a, Chan(y, a)) - SumSquares(m, a, Chan(Mean(m), a)) == Gain(m, y, a)
    ensures Gain(m, y, a) < 0 <==> Chan(y, a) == Chan(Mean(m), a) + 1 && 2 * (SumChan(m, a) % |m|) > |m|
    ensures Gain(m, y, a) >= -Loss(m, a)
  {
    var n, c, v := |m|, SumChan(m, a) / |m|, Chan(y, a);
    DivBounds(SumChan(m, a), n);
    assert Chan(Mean(m), a) == c;
    ShiftCentre(m, a, c, v - c);
    ShiftPays(n, SumChan(m, a) % n, v - c);
  }

  /** Moving a cluster's colour from y to the truncated mean raises its error exactly if the three channels' gains add
      up to less than 0. */
  lemma MeanRaisesErrorIff(m: seq<Col>, y: Col)
    requires m != []
    ensures ClusterErr(m, y) - ClusterErr(m, Mean(m)) == Gain(m, y, 0) + Gain(m, y, 1) + Gain(m, y, 2)
    ensures ClusterErr(m, Mean(m)) > ClusterErr(m, y) <==> Gain(m, y, 0) + Gain(m, y, 1) + Gain(m, y, 2) < 0
  {
    ClusterErrByChannel(m, Mean(m));
    ClusterErrByChannel(m, y);
    GainIs(m, y, 0);
    GainIs(m, y, 1);
    GainIs(m, y, 2);
  }

  // ---- one pass over the pool ----

  /** The nearest colour, the first one on a tie, given the best among the first k. */
  function BestFrom(x: Col, pal: seq<Col>, k: nat, bk: nat): (r: nat)
    requires bk < |pal| && k <= |pal|
    ensures r < |pal|
    ensures Dist(x, pal[r]) <= Dist(x, pal[bk]) && forall j :: k <= j < |pal| ==> Dist(x, pal[r]) <= Dist(x, pal[j])
    decreases |pal| - k
  {
    if k == |pal| then bk
    else BestFrom(x, pal, k + 1, if Dist(x, pal[k]) < Dist(x, pal[bk]) then k else bk)
  }

  /** Where a pixel belongs: a colour's index, or -1 for the backdrop. */
  function Label(x: Col, pal: seq<Col>, bg: Col): (l: int)
    requires pal != []
    ensures -1 <= l < |pal|
  {
    var bk := BestFrom(x, pal, 1, 0);
    if Dist(x, bg) < Dist(x, pal[bk]) then -1 else bk
  }

  /** A pixel belongs to the backdrop exactly if that is strictly nearer than every colour, and otherwise to the first of
      the nearest colours. */
  lemma LabelIs(x: Col, pal: seq<Col>, bg: Col)
    requires pal != []
    ensures var l := Label(x, pal, bg);
            && (l == -1 <==> forall k :: 0 <= k < |pal| ==> Dist(x, bg) < Dist(x, pal[k]))
            && (l >= 0 ==> forall k :: 0 <= k < |pal| ==>
                  Dist(x, pal[l]) <= Dist(x, pal[k]) && (k < l ==> Dist(x, pal[l]) < Dist(x, pal[k])))
  {
    FirstNearest(x, pal, 1, 0);
  }

  lemma {:induction false} FirstNearest(x: Col, pal: seq<Col>, k: nat, bk: nat)
    requires bk < k <= |pal|
    requires forall j :: 0 <= j < k ==> Dist(x, pal[bk]) <= Dist(x, pal[j]) && (j < bk ==> Dist(x, pal[bk]) < Dist(x, pal[j]))
    ensures var r := BestFrom(x, pal, k, bk);
            forall j :: 0 <= j < |pal| ==> Dist(x, pal[r]) <= Dist(x, pal[j]) && (j < r ==> Dist(x, pal[r]) < Dist(x, pal[j]))
    decreases |pal| - k
  {
    if k < |pal| {
      FirstNearest(x, pal, k + 1, if Dist(x, pal[k]) < Dist(x, pal[bk]) then k else bk);
    }
  }

  /** The pixel x as a member of cluster k: itself or nothing. */
  function Share(x: Col, pal: seq<Col>, bg: Col, k: nat): seq<Col>
    requires pal != []
  {
    if Label(x, pal, bg) == k then [x] else []
  }

  function Members(pool: seq<Col>, pal: seq<Col>, bg: Col, k: nat): seq<Col>
    requires pal != []
  {
    if pool == [] then [] else Share(pool[0], pal, bg, k) + Members(pool[1..], pal, bg, k)
  }

  lemma {:induction false} MembersAppend(pool: seq<Col>, x: Col, pal: seq<Col>, bg: Col, k: nat)
    requires pal != []
    ensures Members(pool + [x], pal, bg, k) == Members(pool, pal, bg, k) + Share(x, pal, bg, k)
  {
    if pool == [] {
      assert pool + [x] == [x] && [x][1..] == [];
    } else {
      assert (pool + [x])[1..] == pool[1..] + [x];
      MembersAppend(pool[1..], x, pal, bg, k);
      Associate(Share(pool[0], pal, bg, k), Members(pool[1..], pal, bg, k), Share(x, pal, bg, k));
    }
  }

  /** Cluster k holds the pool's pixels with label k, each as often as the pool does, and no others. */
  lemma {:induction false} MembersAre(pool: seq<Col>, pal: seq<Col>, bg: Col, k: nat, x: Col)
    requires pal != []
    ensures multiset(Members(pool, pal, bg, k))[x] == if Label(x, pal, bg) == k then multiset(pool)[x] else 0
  {
    if pool != [] {
      MembersAre(pool[1..], pal, bg, k, x);
      assert pool == [pool[0]] + pool[1..];
      var m := Share(pool[0], pal, bg, k);
      assert multiset(m + Members(pool[1..], pal, bg, k)) == multiset(m) + multiset(Members(pool[1..], pal, bg, k));
    }
  }

  lemma Associate(a: seq<Col>, b: seq<Col>, c: seq<Col>)
    ensures a + (b + c) == (a + b) + c
  {
  }

  /** A colour's new place: the mean of its pixels, or its old place if it has none. */
  function Moved(pool: seq<Col>, pal: seq<Col>, bg: Col, k: nat): Col
    requires k < |pal|
  {
    var m := Members(pool, pal, bg, k);
    if m == [] then pal[k] else Mean(m)
  }

  /** Effect of one Lloyd pass on the palette. */
  function Pass(pool: seq<Col>, pal: seq<Col>, bg: Col): (p: seq<Col>)
    ensures |p| == |pal|
  {
    seq(|pal|, k requires 0 <= k < |pal| => Moved(pool, pal, bg, k))
  }

  /** The error if every pixel keeps the label it has under `pal` while the colours stand at `ys`. */
  function AssignedErr(pool: seq<Col>, pal: seq<Col>, bg: Col, ys: seq<Col>): int
    requires pal != [] && |ys| == |pal|
  {
    if pool == [] then 0
    else
      var l := Label(pool[0], pal, bg);
      (if l < 0 then Dist(pool[0], bg) else Dist(pool[0], ys[l])) + AssignedErr(pool[1..], pal, bg, ys)
  }

  lemma {:induction false} AssignedIsPoolErr(pool: seq<Col>, pal: seq<Col>, bg: Col)
    requires pal != []
    ensures AssignedErr(pool, pal, bg, pal) == PoolErr(pool, pal, bg)
  {
    if pool != [] {
      NearestIsLeast(pool[0], pal, bg);
      AssignedIsPoolErr(pool[1..], pal, bg);
    }
  }

  lemma {:induction false} ReassigningHelps(pool: seq<Col>, pal: seq<Col>, bg: Col, ys: seq<Col>)
    requires pal != [] && |ys| == |pal|
    ensures PoolErr(pool, ys, bg) <= AssignedErr(pool, pal, bg, ys)
  {
    if pool != [] {
      NearestIsLeast(pool[0], ys, bg);
      ReassigningHelps(pool[1..], pal, bg, ys);
    }
  }

  /** Moving one colour changes the error by the change of its own cluster's. */
  lemma {:induction false} MoveOne(pool: seq<Col>, pal: seq<Col>, bg: Col, ys: seq<Col>, k: nat, c: Col)
    requires pal != [] && |ys| == |pal| && k < |ys|
    ensures var m := Members(pool, pal, bg, k);
            AssignedErr(pool, pal, bg, ys[k := c]) ==
            AssignedErr(pool, pal, bg, ys) - ClusterErr(m, ys[k]) + ClusterErr(m, c)
  {
    if pool != [] {
      MoveOne(pool[1..], pal, bg, ys, k, c);
      var rest := Members(pool[1..], pal, bg, k);
      if Label(pool[0], pal, bg) == k {
        assert Members(pool, pal, bg, k)[1..] == rest;
      } else {
        assert Members(pool, pal, bg, k) == rest;
      }
    }
  }

  /** The loss of a pass from colour k on, and the pixels those colours own. */
  function TotalLoss(pool: seq<Col>, pal: seq<Col>, bg: Col, k: nat): int
    requires pal != [] && k <= |pal|
    decreases |pal| - k
  {
    if k == |pal| then 0
    else
      var m := Members(pool, pal, bg, k);
      (if m == [] then 0 else Loss(m, 0) + Loss(m, 1) + Loss(m, 2)) + TotalLoss(pool, pal, bg, k + 1)
  }

  function Owned(pool: seq<Col>, pal: seq<Col>, bg: Col, k: nat): nat
    requires pal != [] && k <= |pal|
    decreases |pal| - k
  {
    if k == |pal| then 0 else |Members(pool, pal, bg, k)| + Owned(pool, pal, bg, k + 1)
  }

  /** The palette with its first k colours moved. */
  function Mixed(pool: seq<Col>, pal: seq<Col>, bg: Col, k: nat): (p: seq<Col>)
    requires k <= |pal|
    ensures |p| == |pal|
  {
    Pass(pool, pal, bg)[..k] + pal[k..]
  }

  /** Moving the next colour of a half-moved palette costs at most that colour's loss. */
  lemma MoveNext(pool: seq<Col>, pal: seq<Col>, bg: Col, k: nat)
    requires k < |pal|
    ensures var m := Members(pool, pal, bg, k);
            AssignedErr(pool, pal, bg, Mixed(pool, pal, bg, k + 1)) <=
            AssignedErr(pool, pal, bg, Mixed(pool, pal, bg, k)) + (if m == [] then 0 else Loss(m, 0) + Loss(m, 1) + Loss(m, 2))
  {
    var ys, c, m := Mixed(pool, pal, bg, k), Moved(pool, pal, bg, k), Members(pool, pal, bg, k);
    assert Mixed(pool, pal, bg, k + 1) == ys[k := c];
    MoveOne(pool, pal, bg, ys, k, c);
    if m != [] {
      MeanNearlyOptimal(m, ys[k]);
    }
  }

  lemma {:induction false} MoveAll(pool: seq<Col>, pal: seq<Col>, bg: Col, k: nat)
    requires pal != [] && k <= |pal|
    ensures AssignedErr(pool, pal, bg, Mixed(pool, pal, bg, |pal|)) <=
            AssignedErr(pool, pal, bg, Mixed(pool, pal, bg, k)) + TotalLoss(pool, pal, bg, k)
    decreases |pal| - k
  {
    if k < |pal| {
      MoveAll(pool, pal, bg, k + 1);
      MoveNext(pool, pal, bg, k);
    }
  }

  lemma {:induction false} TotalLossBounds(pool: seq<Col>, pal: seq<Col>, bg: Col, k: nat)
    requires pal != [] && k <= |pal|
    ensures 0 <= TotalLoss(pool, pal, bg, k) <= 3 * Owned(pool, pal, bg, k)
    ensures Owned(pool, pal, bg, k) > 0 ==> TotalLoss(pool, pal, bg, k) < 3 * Owned(pool, pal, bg, k)
    decreases |pal| - k
  {
    if k < |pal| {
      var m := Members(pool, pal, bg, k);
      TotalLossBounds(pool, pal, bg, k + 1);
      if m != [] {
        LossBounds(m, 0);
        LossBounds(m, 1);
        LossBounds(m, 2);
      }
    }
  }

  lemma {:induction false} OwnedCons(pool: seq<Col>, pal: seq<Col>, bg: Col, k: nat)
    requires pal != [] && k <= |pal| && pool != []
    ensures Owned(pool, pal, bg, k) == Owned(pool[1..], pal, bg, k) + (if Label(pool[0], pal, bg) >= k then 1 else 0)
    decreases |pal| - k
  {
    if k < |pal| {
      OwnedCons(pool, pal, bg, k + 1);
    }
  }

  lemma {:induction false} OwnedAtMost(pool: seq<Col>, pal: seq<Col>, bg: Col)
    requires pal != []
    ensures Owned(pool, pal, bg, 0) <= |pool|
  {
    if pool == [] {
      OwnedNone(pal, bg, 0);
    } else {
      OwnedCons(pool, pal, bg, 0);
      OwnedAtMost(pool[1..], pal, bg);
    }
  }

  lemma {:induction false} OwnedNone(pal: seq<Col>, bg: Col, k: nat)
    requires pal != [] && k <= |pal|
    ensures Owned([], pal, bg, k) == 0
    decreases |pal| - k
  {
    if k < |pal| {
      OwnedNone(pal, bg, k + 1);
    }
  }

  /** The pass costs at most the losses of the colours that move. */
  lemma PassCosts(pool: seq<Col>, pal: seq<Col>, bg: Col)
    requires pal != []
    ensures PoolErr(pool, Pass(pool, pal, bg), bg) <= PoolErr(pool, pal, bg) + TotalLoss(pool, pal, bg, 0)
  {
    ReassigningHelps(pool, pal, bg, Pass(pool, pal, bg));
    MoveAll(pool, pal, bg, 0);
    assert Mixed(pool, pal, bg, 0) == pal && Mixed(pool, pal, bg, |pal|) == Pass(pool, pal, bg);
    AssignedIsPoolErr(pool, pal, bg);
  }

  /** A pass puts every colour that has pixels where, up to 3 per pixel, no other integer colour serves them better. */
  lemma PassServesBest(pool: seq<Col>, pal: seq<Col>, bg: Col, k: nat, y: Col)
    requires k < |pal| && Members(pool, pal, bg, k) != []
    ensures var m := Members(pool, pal, bg, k); ClusterErr(m, Pass(pool, pal, bg)[k]) < ClusterErr(m, y) + 3 * |m|
  {
    MeanNearlyOptimal(Members(pool, pal, bg, k), y);
  }

  /** A whole Lloyd pass, with the pixels free to choose again afterwards, raises the pool's error by less than 3 per
      pixel that owns a colour, and not at all where the means divide evenly enough. */
  lemma PassNearlyMonotone(pool: seq<Col>, pal: seq<Col>, bg: Col)
    requires pal != []
    ensures PoolErr(pool, Pass(pool, pal, bg), bg) <= PoolErr(pool, pal, bg) + TotalLoss(pool, pal, bg, 0)
    ensures TotalLoss(pool, pal, bg, 0) <= 3 * Owned(pool, pal, bg, 0) <= 3 * |pool|
    ensures pool != [] ==> PoolErr(pool, Pass(pool, pal, bg), bg) < PoolErr(pool, pal, bg) + 3 * |pool|
  {
    PassCosts(pool, pal, bg);
    TotalLossBounds(pool, pal, bg, 0);
    OwnedAtMost(pool, pal, bg);
  }

  /** A pass can raise the error: pixels 10, 11 and 11 with the colour at 11 cost 1, and after the pass, with the colour
      at the truncated mean 10, they cost 2. */
  lemma PassRaisesError(x: Col, y: Col)
    requires x == Col(10, 0, 0) && y == Col(11, 0, 0)
    ensures Pass([x, y, y], [y], BLACK) == [x]
    ensures PoolErr([x, y, y], [y], BLACK) == 1 && PoolErr([x, y, y], [x], BLACK) == 2
  {
    MovesTo(x, y);
    SingleColourPass([x, y, y], y, x, BLACK);
    NearOwn(x);
    NearOwn(y);
    NearOther(x, y);
    ErrOfThree(x, y, y, [y], BLACK);
    ErrOfThree(x, y, y, [x], BLACK);
  }

  lemma SingleColourPass(pool: seq<Col>, y: Col, x: Col, bg: Col)
    requires Moved(pool, [y], bg, 0) == x
    ensures Pass(pool, [y], bg) == [x]
  {
  }

  lemma MovesTo(x: Col, y: Col)
    requires x == Col(10, 0, 0) && y == Col(11, 0, 0)
    ensures Moved([x, y, y], [y], BLACK, 0) == x
  {
    AllMembers(x, y);
    MeanOfThree(x, y, y);
  }

  lemma NearOwn(x: Col)
    ensures Nearest(x, [x], BLACK) == 0
  {
    OneColour(x, x, BLACK);
  }

  lemma NearOther(x: Col, y: Col)
    requires x == Col(10, 0, 0) && y == Col(11, 0, 0)
    ensures Nearest(x, [y], BLACK) == 1 && Nearest(y, [x], BLACK) == 1
  {
    RedDistances(x, y);
    OneColour(x, y, BLACK);
    OneColour(y, x, BLACK);
  }

  lemma RedDistances(x: Col, y: Col)
    requires x == Col(10, 0, 0) && y == Col(11, 0, 0)
    ensures Dist(x, y) == Dist(y, x) == 1 && Dist(x, BLACK) == 100 && Dist(y, BLACK) == 121
  {
  }

  lemma AllMembers(x: Col, y: Col)
    requires x == Col(10, 0, 0) && y == Col(11, 0, 0)
    ensures Members([x, y, y], [y], BLACK, 0) == [x, y, y]
  {
    assert Label(x, [y], BLACK) == 0 && Label(y, [y], BLACK) == 0;
    assert [x, y, y][1..] == [y, y] && [y, y][1..] == [y] && [y][1..] == [];
    assert Members([y], [y], BLACK, 0) == [y];
    assert Members([y, y], [y], BLACK, 0) == [y, y];
  }

  lemma OneColour(x: Col, c: Col, bg: Col)
    ensures Nearest(x, [c], bg) == if Dist(x, c) < Dist(x, bg) then Dist(x, c) else Dist(x, bg)
  {
    assert [c][..0] == [];
  }

  lemma SumOfThree(x: Col, y: Col, z: Col, a: nat)
    ensures SumChan([x, y, z], a) == Chan(x, a) + Chan(y, a) + Chan(z, a)
  {
    assert [x, y, z][1..] == [y, z] && [y, z][1..] == [z] && [z][1..] == [];
    assert SumChan([z], a) == Chan(z, a);
    assert SumChan([y, z], a) == Chan(y, a) + Chan(z, a);
  }

  lemma MeanOfThree(x: Col, y: Col, z: Col)
    ensures Mean([x, y, z]) == Col((x.r + y.r + z.r) / 3, (x.g + y.g + z.g) / 3, (x.b + y.b + z.b) / 3)
  {
    SumOfThree(x, y, z, 0);
    SumOfThree(x, y, z, 1);
    SumOfThree(x, y, z, 2);
  }

  lemma ErrOfThree(x: Col, y: Col, z: Col, pal: seq<Col>, bg: Col)
    ensures PoolErr([x, y, z], pal, bg) == Nearest(x, pal, bg) + Nearest(y, pal, bg) + Nearest(z, pal, bg)
  {
    assert [x, y, z][1..] == [y, z] && [y, z][1..] == [z] && [z][1..] == [];
    assert PoolErr([z], pal, bg) == Nearest(z, pal, bg);
    assert PoolErr([y, z], pal, bg) == Nearest(y, pal, bg) + Nearest(z, pal, bg);
  }

  // ---- the code ----

  predicate TallyOf(m: seq<Col>, sr: int, sg: int, sb: int, cn: int) {
    sr == SumChan(m, 0) && sg == SumChan(m, 1) && sb == SumChan(m, 2) && cn == |m|
  }

  /** Per-colour sums and counts over the pixels seen so far. */
  ghost predicate Tally(pool: seq<Col>, pal: seq<Col>, bg: Col, sr: seq<int>, sg: seq<int>, sb: seq<int>, cn: seq<int>)
    requires pal != []
  {
    && |sr| == |sg| == |sb| == |cn| == |pal|
    && forall k :: 0 <= k < |pal| ==> TallyOf(Members(pool, pal, bg, k), sr[k], sg[k], sb[k], cn[k])
  }

  lemma TallyAppend(m: seq<Col>, x: Col, sr: int, sg: int, sb: int, cn: int)
    requires TallyOf(m, sr, sg, sb, cn)
    ensures TallyOf(m + [x], sr + x.r, sg + x.g, sb + x.b, cn + 1)
  {
    SumChanAppend(m, x, 0);
    SumChanAppend(m, x, 1);
    SumChanAppend(m, x, 2);
  }

  lemma TallySkip(pool: seq<Col>, x: Col, pal: seq<Col>, bg: Col, sr: seq<int>, sg: seq<int>, sb: seq<int>, cn: seq<int>)
    requires pal != [] && Tally(pool, pal, bg, sr, sg, sb, cn) && Label(x, pal, bg) < 0
    ensures Tally(pool + [x], pal, bg, sr, sg, sb, cn)
  {
    forall k | 0 <= k < |pal|
      ensures TallyOf(Members(pool + [x], pal, bg, k), sr[k], sg[k], sb[k], cn[k])
    {
      MembersAppend(pool, x, pal, bg, k);
      assert Members(pool, pal, bg, k) + [] == Members(pool, pal, bg, k);
    }
  }

  lemma TallyAdd(pool: seq<Col>, x: Col, pal: seq<Col>, bg: Col, sr: seq<int>, sg: seq<int>, sb: seq<int>, cn: seq<int>)
    requires pal != [] && Tally(pool, pal, bg, sr, sg, sb, cn) && Label(x, pal, bg) >= 0
    ensures var k := Label(x, pal, bg);
            Tally(pool + [x], pal, bg, sr[k := sr[k] + x.r], sg[k := sg[k] + x.g], sb[k := sb[k] + x.b], cn[k := cn[k] + 1])
  {
    var l := Label(x, pal, bg);
    var sr', sg', sb', cn' := sr[l := sr[l] + x.r], sg[l := sg[l] + x.g], sb[l := sb[l] + x.b], cn[l := cn[l] + 1];
    forall k | 0 <= k < |pal|
      ensures TallyOf(Members(pool + [x], pal, bg, k), sr'[k], sg'[k], sb'[k], cn'[k])
    {
      MembersAppend(pool, x, pal, bg, k);
      assert TallyOf(Members(pool, pal, bg, k), sr[k], sg[k], sb[k], cn[k]);
      if k == l {
        TallyAppend(Members(pool, pal, bg, k), x, sr[k], sg[k], sb[k], cn[k]);
      } else {
        assert Members(pool, pal, bg, k) + [] == Members(pool, pal, bg, k);
      }
    }
  }

  /** The search for a pixel's colour. */
  method FindColour(x: Col, pal: array<Col>) returns (bk: nat, bd: nat)
    requires pal.Length > 0
    ensures bk == BestFrom(x, pal[..], 1, 0) && bd == Dist(x, pal[bk])
  {
    bk, bd := 0, Dist(x, pal[0]);
    var k := 1;
    while k < pal.Length
      invariant 1 <= k <= pal.Length && bk < pal.Length && bd == Dist(x, pal[bk])
      invariant BestFrom(x, pal[..], k, bk) == BestFrom(x, pal[..], 1, 0)
    {
      var d := Dist(x, pal[k]);
      if d < bd {
        bd, bk := d, k;
      }
      k := k + 1;
    }
  }

  /** One Lloyd pass over the first `n` pixels of the pool, moving the palette's colours in place. */
  method LloydPass(pool: array<Col>, n: nat, pal: array<Col>, bg: Col)
    requires n <= pool.Length && pal.Length > 0 && pool != pal
    modifies pal
    ensures pal[..] == Pass(pool[..n], old(pal[..]), bg)
    ensures forall k :: 0 <= k < pal.Length ==>
              var m := Members(pool[..n], old(pal[..]), bg, k);
              pal[k] == if m == [] then old(pal[..])[k] else Mean(m)
  {
    var sr, sg, sb, cn := CollectSums(pool, n, pal, bg);
    ghost var p0 := pal[..];
    var k := 0;
    while k < pal.Length
      invariant k <= pal.Length && pool[..n] == old(pool[..n])
      invariant forall j :: 0 <= j < k ==> pal[j] == Moved(pool[..n], p0, bg, j)
      invariant forall j :: k <= j < pal.Length ==> pal[j] == p0[j]
    {
      MoveColour(pal, k, sr[k], sg[k], sb[k], cn[k], Members(pool[..n], p0, bg, k));
      k := k + 1;
    }
  }

  /** A colour that owns pixels moves to their mean. */
  method MoveColour(pal: array<Col>, k: nat, sr: int, sg: int, sb: int, cn: int, ghost m: seq<Col>)
    requires k < pal.Length && TallyOf(m, sr, sg, sb, cn)
    modifies pal
    ensures pal[k] == if m == [] then old(pal[k]) else Mean(m)
    ensures forall j :: 0 <= j < pal.Length && j != k ==> pal[j] == old(pal[j])
  {
    if cn != 0 {
      pal[k] := Col(sr / cn, sg / cn, sb / cn);
    }
  }

  /** The accumulation loop of a pass. */
  method CollectSums(pool: array<Col>, n: nat, pal: array<Col>, bg: Col)
    returns (sr: seq<int>, sg: seq<int>, sb: seq<int>, cn: seq<int>)
    requires n <= pool.Length && pal.Length > 0
    ensures Tally(pool[..n], pal[..], bg, sr, sg, sb, cn)
  {
    var zero := seq(pal.Length, _ => 0);
    sr, sg, sb, cn := zero, zero, zero, zero;
    var i := 0;
    while i < n
      invariant i <= n && Tally(pool[..i], pal[..], bg, sr, sg, sb, cn)
    {
      var x := pool[i];
      assert pool[..i + 1] == pool[..i] + [x];
      var bk, bd := FindColour(x, pal);
      if Dist(x, bg) < bd {
        TallySkip(pool[..i], x, pal[..], bg, sr, sg, sb, cn);
      } else {
        TallyAdd(pool[..i], x, pal[..], bg, sr, sg, sb, cn);
        sr, sg, sb, cn := sr[bk := sr[bk] + x.r], sg[bk := sg[bk] + x.g], sb[bk := sb[bk] + x.b], cn[bk := cn[bk] + 1];
      }
      i := i + 1;
    }
  }
}
