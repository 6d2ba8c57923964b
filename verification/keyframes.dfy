/**
 Keyframe times and the frame list both scripts build from them. Each
 F-curve point contributes its time `x`; `ceil(x)` is appended unless the
 RAW `x` is already numerically equal to a listed frame. Because the list
 holds ceiled values, a fractional time is never "already listed", so it
 can be appended twice; whole-number times are appended once each.
 */
module Keyframes {

  /** An F-curve keyframe point `co = (x, y)`: time and value. */
  datatype KeyframePoint = KeyframePoint(time: real, value: real)

  datatype FCurve = FCurve(points: seq<KeyframePoint>)

  datatype Action = Action(name: string, fcurves: seq<FCurve>)

  /** The times of one curve's points, in order. */
  function PointTimes(points: seq<KeyframePoint>): (ts: seq<real>)
    ensures |ts| == |points|
    ensures forall i :: 0 <= i < |points| ==> ts[i] == points[i].time
  {
    seq(|points|, i requires 0 <= i < |points| => points[i].time)
  }

  /** Every keyframe time in visiting order: curve by curve, and within a
      curve point by point. */
  function CurveTimes(curves: seq<FCurve>): (ts: seq<real>)
    ensures |ts| == 0 <==> forall c :: c in curves ==> |c.points| == 0
    decreases |curves|
  {
    if |curves| == 0 then []
    else
      var init := curves[..|curves| - 1];
      assert forall c :: c in curves <==> c in init || c == curves[|curves| - 1];
      CurveTimes(init) + PointTimes(curves[|curves| - 1].points)
  }

  /** One more curve appends its point times. */
  lemma CurveTimesSnoc(curves: seq<FCurve>, c: nat)
    requires c < |curves|
    ensures CurveTimes(curves[..c + 1]) == CurveTimes(curves[..c]) + PointTimes(curves[c].points)
  {
    assert curves[..c + 1][..c] == curves[..c];
  }

  /** The keyframe times of an action. */
  function Times(a: Action): seq<real> {
    CurveTimes(a.fcurves)
  }

  /** The action has at least one keyframe point on some curve. */
  predicate HasKeyframes(a: Action) {
    exists c :: c in a.fcurves && |c.points| > 0
  }

  /** `x` is a whole number. */
  predicate Whole(x: real) {
    x.Floor as real == x
  }

  /** Python's `math.ceil`: the least integer not below `x`. */
  function Ceil(x: real): (n: int)
    ensures x <= n as real < x + 1.0
  {
    if Whole(x) then x.Floor else x.Floor + 1
  }

  lemma CeilMonotone(x: real, y: real)
    requires x <= y
    ensures Ceil(x) <= Ceil(y)
  {
  }

  /** Python's `x in frames` for a float `x` and a list of ints: `x` equals
      some listed integer, which can only happen when `x` is whole. */
  predicate Listed(x: real, frames: seq<int>) {
    Whole(x) && x.Floor in frames
  }

  /** `Listed` is exactly Python's numeric membership test. */
  lemma ListedIsNumericMembership(x: real, frames: seq<int>)
    ensures Listed(x, frames) <==> exists i :: 0 <= i < |frames| && frames[i] as real == x
  {
    if exists i :: 0 <= i < |frames| && frames[i] as real == x {
      var i :| 0 <= i < |frames| && frames[i] as real == x;
      assert x.Floor == frames[i];
    }
  }

  /** One visit: append `ceil(x)` unless the raw `x` is listed. */
  function Admit(frames: seq<int>, x: real): seq<int> {
    if Listed(x, frames) then frames else frames + [Ceil(x)]
  }

  /** After a visit `ceil(x)` is listed whether or not it was appended; the
      old list is kept as a prefix, and the list grows by one frame exactly
      when the raw `x` was not listed. */
  lemma AdmitListsCeil(frames: seq<int>, x: real)
    ensures Ceil(x) in Admit(frames, x)
    ensures |frames| <= |Admit(frames, x)| <= |frames| + 1
    ensures Admit(frames, x)[..|frames|] == frames
    ensures |Admit(frames, x)| == |frames| + 1 <==> !Listed(x, frames)
  {
  }

  /** The frame list built from the times `ts` visited in order. */
  function Collect(ts: seq<real>): (frames: seq<int>)
    ensures |frames| <= |ts|
    ensures |frames| == 0 <==> |ts| == 0
    decreases |ts|
  {
    if |ts| == 0 then [] else Admit(Collect(ts[..|ts| - 1]), ts[|ts| - 1])
  }

  /** Visiting one more time only ever appends. */
  lemma CollectSnoc(ts: seq<real>, x: real)
    ensures Collect(ts + [x]) == Admit(Collect(ts), x)
  {
    assert (ts + [x])[..|ts|] == ts;
  }

  /** Visiting the next point of the current curve. */
  lemma CollectNextPoint(done: seq<real>, points: seq<KeyframePoint>, p: nat)
    requires p < |points|
    ensures Collect(done + PointTimes(points[..p + 1]))
         == Admit(Collect(done + PointTimes(points[..p])), points[p].time)
  {
    assert PointTimes(points[..p + 1]) == PointTimes(points[..p]) + [points[p].time];
    assert done + PointTimes(points[..p + 1]) == (done + PointTimes(points[..p])) + [points[p].time];
    CollectSnoc(done + PointTimes(points[..p]), points[p].time);
  }

  /** The list built from a prefix of the times is a prefix of the full list. */
  lemma {:induction false} CollectPrefix(ts: seq<real>, m: nat)
    requires m <= |ts|
    ensures |Collect(ts[..m])| <= |Collect(ts)|
    ensures Collect(ts[..m]) == Collect(ts)[..|Collect(ts[..m])|]
    decreases |ts| - m
  {
    if m < |ts| {
      var init := ts[..|ts| - 1];
      assert init[..m] == ts[..m];
      CollectPrefix(init, m);
      assert ts[..|ts|] == ts;
    } else {
      assert ts[..m] == ts;
    }
  }

  /** The bake range opens at the ceiling of the FIRST time visited, not at
      the earliest time. */
  lemma FirstFrameIsFirstTime(ts: seq<real>)
    requires |ts| > 0
    ensures Collect(ts)[0] == Ceil(ts[0])
  {
    CollectPrefix(ts, 1);
    assert ts[..1] == [] + [ts[0]];
    CollectSnoc([], ts[0]);
  }

  /** The visiting positions whose time was appended, in order. */
  function Sources(ts: seq<real>): seq<int>
    decreases |ts|
  {
    if |ts| == 0 then []
    else
      var init := ts[..|ts| - 1];
      if Listed(ts[|ts| - 1], Collect(init)) then Sources(init) else Sources(init) + [|ts| - 1]
  }

  /** Every appending position is a visited position. */
  lemma {:induction false} SourcesInRange(ts: seq<real>)
    ensures forall k :: k in Sources(ts) ==> 0 <= k < |ts|
    decreases |ts|
  {
    if |ts| > 0 {
      SourcesInRange(ts[..|ts| - 1]);
    }
  }

  /** First-encounter order: the k-th collected frame is the ceiling of the
      time at the k-th appending position, and positions increase. */
  lemma {:induction false} CollectFollowsEncounterOrder(ts: seq<real>)
    ensures |Sources(ts)| == |Collect(ts)|
    ensures forall k :: 0 <= k < |Sources(ts)| ==>
      0 <= Sources(ts)[k] < |ts| && Collect(ts)[k] == Ceil(ts[Sources(ts)[k]])
    ensures forall k, l :: 0 <= k < l < |Sources(ts)| ==> Sources(ts)[k] < Sources(ts)[l]
    decreases |ts|
  {
    if |ts| > 0 {
      var n := |ts| - 1;
      var init := ts[..n];
      CollectFollowsEncounterOrder(init);
      var acc, src := Collect(init), Sources(init);
      assert Collect(ts) == Admit(acc, ts[n]);
      forall k | 0 <= k < |src|
        ensures acc[k] == Ceil(ts[src[k]])
      {
        assert init[src[k]] == ts[src[k]];
      }
      if Listed(ts[n], acc) {
        assert Sources(ts) == src;
      } else {
        assert Sources(ts) == src + [n];
        assert Collect(ts) == acc + [Ceil(ts[n])];
      }
    }
  }

  /** A position appends exactly when its raw time is not yet listed. */
  lemma {:induction false} AppendsIffUnlisted(ts: seq<real>, j: nat)
    requires j < |ts|
    ensures j in Sources(ts) <==> !Listed(ts[j], Collect(ts[..j]))
    decreases |ts|
  {
    var n := |ts| - 1;
    var init := ts[..n];
    var src := Sources(init);
    SourcesInRange(init);
    assert n !in src;
    assert Sources(ts) == if Listed(ts[n], Collect(init)) then src else src + [n];
    if j < n {
      assert j in Sources(ts) <==> j in src;
      assert init[j] == ts[j];
      assert init[..j] == ts[..j];
      AppendsIffUnlisted(init, j);
    } else {
      assert ts[..j] == init;
    }
  }

  /** Visiting position `k` appends: its raw time was not yet listed. */
  predicate Appends(ts: seq<real>, k: int) {
    0 <= k < |ts| && !Listed(ts[k], Collect(ts[..k]))
  }

  /** Position `j` is the last one whose time was appended: every later
      time was already listed when it was visited. */
  predicate IsLastAppend(ts: seq<real>, j: int) {
    Appends(ts, j) && forall k :: j < k < |ts| ==> !Appends(ts, k)
  }

  /** The last collected frame is the ceiling of the last time that was
      appended, which need not be the latest or the largest time. */
  lemma {:induction false} LastFrameIsLastAppendedTime(ts: seq<real>)
    requires |ts| > 0
    ensures exists j {:trigger IsLastAppend(ts, j)} :: IsLastAppend(ts, j) && Collect(ts)[|Collect(ts)| - 1] == Ceil(ts[j])
    decreases |ts|
  {
    var n := |ts| - 1;
    var init := ts[..n];
    if !Listed(ts[n], Collect(init)) {
      assert Collect(ts) == Collect(init) + [Ceil(ts[n])];
      assert IsLastAppend(ts, n);
    } else {
      assert Collect(ts) == Collect(init);
      LastFrameIsLastAppendedTime(init);
      var j :| IsLastAppend(init, j) && Collect(init)[|Collect(init)| - 1] == Ceil(init[j]);
      forall k | 0 <= k < n
        ensures Appends(ts, k) == Appends(init, k)
      {
        assert ts[k] == init[k] && ts[..k] == init[..k];
      }
      assert ts[..n] == init;
      assert !Appends(ts, n);
      assert IsLastAppend(ts, j);
    }
  }

  /** The same fact for a frame `x` known to close the list. */
  lemma ClosingFrameIsLastAppendedTime(ts: seq<real>, x: int)
    requires |ts| > 0 && x == Collect(ts)[|Collect(ts)| - 1]
    ensures exists j {:trigger IsLastAppend(ts, j)} :: IsLastAppend(ts, j) && x == Ceil(ts[j])
  {
    LastFrameIsLastAppendedTime(ts);
  }

  /** Soundness: every collected frame is the ceiling of a visited time. */
  lemma CollectedFramesComeFromTimes(ts: seq<real>)
    ensures forall i :: 0 <= i < |Collect(ts)| ==> exists j :: 0 <= j < |ts| && Collect(ts)[i] == Ceil(ts[j])
  {
    CollectFollowsEncounterOrder(ts);
    forall i | 0 <= i < |Collect(ts)|
      ensures exists j :: 0 <= j < |ts| && Collect(ts)[i] == Ceil(ts[j])
    {
      var j := Sources(ts)[i];
      assert Collect(ts)[i] == Ceil(ts[j]);
    }
  }

  /** Completeness: the ceiling of every visited time ends up in the list. */
  lemma {:induction false} EveryTimeIsCollected(ts: seq<real>)
    ensures forall j :: 0 <= j < |ts| ==> Ceil(ts[j]) in Collect(ts)
    decreases |ts|
  {
    if |ts| > 0 {
      var n := |ts| - 1;
      var init := ts[..n];
      EveryTimeIsCollected(init);
      assert forall j :: 0 <= j < n ==> init[j] == ts[j];
    }
  }

  /** The list holds the same frame values as the ceilings of the times. */
  lemma CollectedFrameValues(ts: seq<real>)
    ensures forall f :: f in Collect(ts) <==> exists j :: 0 <= j < |ts| && f == Ceil(ts[j])
  {
    EveryTimeIsCollected(ts);
    CollectedFramesComeFromTimes(ts);
  }

  /** Distinct values. */
  predicate Distinct(fs: seq<int>) {
    forall i, j :: 0 <= i < j < |fs| ==> fs[i] != fs[j]
  }

  predicate AllWhole(ts: seq<real>) {
    forall j :: 0 <= j < |ts| ==> Whole(ts[j])
  }

  /** When every time is a whole number the "only add them once" intent
      holds: no frame is listed twice. */
  lemma {:induction false} WholeTimesCollectDistinct(ts: seq<real>)
    requires AllWhole(ts)
    ensures Distinct(Collect(ts))
    decreases |ts|
  {
    if |ts| > 0 {
      var n := |ts| - 1;
      var init := ts[..n];
      assert forall j :: 0 <= j < n ==> init[j] == ts[j];
      WholeTimesCollectDistinct(init);
      var acc := Collect(init);
      if !Listed(ts[n], acc) {
        assert Ceil(ts[n]) !in acc;
      }
    }
  }

  /** The raw-versus-ceiled comparison lets a fractional time in twice. */
  lemma FractionalTimeListedTwice()
    ensures Collect([2.5, 2.5]) == [3, 3]
    ensures !Distinct(Collect([2.5, 2.5]))
  {
    CollectSnoc([], 2.5);
    assert [2.5, 2.5] == [2.5] + [2.5];
    CollectSnoc([2.5], 2.5);
    assert !Listed(2.5, [3]);
    assert Collect([2.5, 2.5])[0] == Collect([2.5, 2.5])[1];
  }

  predicate NonDecreasing(ts: seq<real>) {
    forall i, j :: 0 <= i < j < |ts| ==> ts[i] <= ts[j]
  }

  predicate SortedFrames(fs: seq<int>) {
    forall i, j :: 0 <= i < j < |fs| ==> fs[i] <= fs[j]
  }

  /** Times visited in non-decreasing order give a sorted list, so its first
      and last entries are its minimum and maximum. */
  lemma SortedTimesCollectSorted(ts: seq<real>)
    requires NonDecreasing(ts)
    ensures SortedFrames(Collect(ts))
  {
    CollectFollowsEncounterOrder(ts);
    var fs, src := Collect(ts), Sources(ts);
    forall i, j | 0 <= i < j < |fs|
      ensures fs[i] <= fs[j]
    {
      assert src[i] < src[j];
      CeilMonotone(ts[src[i]], ts[src[j]]);
    }
  }

  /** The loop of both scripts over `fcurves` and `keyframe_points`. */
  method CollectKeyframes(curves: seq<FCurve>) returns (frames: seq<int>)
    ensures frames == Collect(CurveTimes(curves))
    ensures |frames| == 0 <==> forall c :: c in curves ==> |c.points| == 0
  {
    frames := [];
    var c := 0;
    while c < |curves|
      invariant 0 <= c <= |curves|
      invariant frames == Collect(CurveTimes(curves[..c]))
    {
      var points := curves[c].points;
      var p := 0;
      assert CurveTimes(curves[..c]) + PointTimes(points[..0]) == CurveTimes(curves[..c]);
      while p < |points|
        invariant 0 <= p <= |points|
        invariant frames == Collect(CurveTimes(curves[..c]) + PointTimes(points[..p]))
      {
        var x := points[p].time;
        CollectNextPoint(CurveTimes(curves[..c]), points, p);
        if !Listed(x, frames) {
          frames := frames + [Ceil(x)];
        }
        p := p + 1;
      }
      assert points[..p] == points;
      CurveTimesSnoc(curves, c);
      c := c + 1;
    }
    assert curves[..c] == curves;
  }
}
