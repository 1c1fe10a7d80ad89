/**
 * The sampling engine: the rotation of each axis at a given time.  A track is
 * sorted (a copy), held flat before its first and after its last keypoint, and
 * otherwise interpolated over the first segment that contains the time, eased
 * by the segment's arriving keypoint.
 */
module Sampling {
  import opened Wrappers
  import opened Easing
  import opened Sorting
  import opened Keypoints

  /** The rotation triple, in degrees. */
  datatype Rotation = Rotation(x: real, y: real, z: real)

  /**
   * The easing of the segment that ends at kp: its custom curve when it has
   * one, otherwise its preset name, an empty name standing for linear.
   */
  function SegmentEasingOf(kp: Keypoint): (e: SegmentEasing)
    ensures kp.curve.Some? ==> e == Custom(kp.curve.value)
    ensures kp.curve.None? ==> e.Named? && forall t :: Eased(e, t) == EaseNamed(kp.easing, t)
    ensures KeypointValid(kp) ==> WellFormed(e)
  {
    if kp.curve.Some? then Custom(kp.curve.value)
    else Named(if kp.easing == "" then "linear" else kp.easing)
  }

  /** The segment (s[j], s[j + 1]) contains time. */
  predicate Contains(s: seq<Keypoint>, j: nat, time: real)
    requires j + 1 < |s|
  {
    s[j].time <= time <= s[j + 1].time
  }

  /** The scan from index i for the first segment that contains time. */
  function FindSegment(s: seq<Keypoint>, time: real, i: nat): (r: Option<nat>)
    ensures r.Some? ==> i <= r.value && r.value + 1 < |s| && Contains(s, r.value, time)
    ensures r.Some? ==> forall j :: i <= j < r.value ==> !Contains(s, j, time)
    ensures r.None? ==> forall j :: i <= j && j + 1 < |s| ==> !Contains(s, j, time)
    decreases |s| - i
  {
    if i + 1 >= |s| then None
    else if s[i].time <= time <= s[i + 1].time then Some(i)
    else FindSegment(s, time, i + 1)
  }

  /**
   * When the scan starts strictly after the keypoint at i, the segment it finds
   * starts strictly before time, so its width is positive and the division by
   * it is defined.
   */
  lemma {:induction false} SegmentStartsBefore(s: seq<Keypoint>, time: real, i: nat)
    requires i < |s| && s[i].time < time
    requires FindSegment(s, time, i).Some?
    ensures var j := FindSegment(s, time, i).value;
      s[j].time < time <= s[j + 1].time
    decreases |s| - i
  {
    if !(s[i].time <= time <= s[i + 1].time) {
      SegmentStartsBefore(s, time, i + 1);
    }
  }

  /** Between the first and the last keypoint's times the scan always finds a segment. */
  lemma {:induction false} SegmentFound(s: seq<Keypoint>, time: real, i: nat)
    requires i < |s| && s[i].time <= time < s[|s| - 1].time
    ensures FindSegment(s, time, i).Some?
    decreases |s| - i
  {
    if time > s[i + 1].time {
      SegmentFound(s, time, i + 1);
    }
  }

  /** The local fraction of time within the segment from cur to next. */
  function Fraction(cur: Keypoint, next: Keypoint, time: real): (t: real)
    requires cur.time < next.time
    ensures cur.time < time <= next.time ==> 0.0 < t <= 1.0
    ensures time == next.time ==> t == 1.0
  {
    (time - cur.time) / (next.time - cur.time)
  }

  /** getRotationAtTime for one axis, on the keypoints in the order given. */
  function SampleTrack(s: seq<Keypoint>, time: real): real
  {
    if |s| == 0 then 0.0
    else if time <= s[0].time then s[0].value
    else if time >= s[|s| - 1].time then s[|s| - 1].value
    else match FindSegment(s, time, 0)
      case None => 0.0
      case Some(i) =>
        SegmentStartsBefore(s, time, 0);
        Interpolate(s[i].value, s[i + 1].value, Fraction(s[i], s[i + 1], time), SegmentEasingOf(s[i + 1]))
  }

  /** getRotationAtTime for one axis: the track is sorted (a copy) before it is sampled. */
  function SampleAt(track: seq<Keypoint>, time: real): real
  {
    SampleTrack(SortByTime(track), time)
  }

  /** getRotationAtTime: the three axes sampled independently. */
  function RotationAt(t: Tracks, time: real): Rotation
  {
    Rotation(SampleAt(t.x, time), SampleAt(t.y, time), SampleAt(t.z, time))
  }

  /** The loop of getRotationAtTime for one axis, over a sorted copy of the track. */
  method SampleAxis(track: seq<Keypoint>, time: real) returns (angle: real)
    ensures angle == SampleAt(track, time)
  {
    if |track| == 0 {
      return 0.0;
    }
    var sorted := SortByTime(track);
    if time <= sorted[0].time {
      return sorted[0].value;
    }
    if time >= sorted[|sorted| - 1].time {
      return sorted[|sorted| - 1].value;
    }
    angle := ScanSegments(sorted, time);
  }

  /** The segment scan of getRotationAtTime, strictly between the first and the last keypoint. */
  method ScanSegments(s: seq<Keypoint>, time: real) returns (angle: real)
    requires |s| > 0 && s[0].time < time < s[|s| - 1].time
    ensures angle == SampleTrack(s, time)
  {
    ghost var segment := FindSegment(s, time, 0);
    angle := 0.0;
    var i := 0;
    while i < |s| - 1
      invariant 0 <= i <= |s| - 1
      invariant FindSegment(s, time, i) == segment
    {
      var cur, next := s[i], s[i + 1];
      if time >= cur.time && time <= next.time {
        assert segment == Some(i);
        SegmentStartsBefore(s, time, 0);
        var t := (time - cur.time) / (next.time - cur.time);
        var easing := Named(if next.easing == "" then "linear" else next.easing);
        if next.curve.Some? {
          easing := Custom(next.curve.value);
        }
        assert easing == SegmentEasingOf(next);
        return Interpolate(cur.value, next.value, t, easing);
      }
      i := i + 1;
    }
  }

  /** getRotationAtTime. */
  method GetRotationAtTime(t: Tracks, time: real) returns (r: Rotation)
    ensures r == RotationAt(t, time)
  {
    var x := SampleAxis(t.x, time);
    var y := SampleAxis(t.y, time);
    var z := SampleAxis(t.z, time);
    r := Rotation(x, y, z);
  }

  // ------------------------------------------------------------ properties

  /** An axis without keypoints samples to 0 at every time. */
  lemma SampleEmpty(time: real)
    ensures SampleAt([], time) == 0.0
  {
  }

  /** On a sorted track, at or before the first keypoint the first value holds. */
  lemma SampleBeforeFirst(track: seq<Keypoint>, time: real)
    requires SortedByTime(track) && |track| > 0
    requires time <= track[0].time
    ensures SampleAt(track, time) == track[0].value
  {
    SortBySortedIsIdentity(track, TimeOf);
  }

  /**
   * On a sorted track, at or after the last keypoint the last value holds,
   * unless the time is also at or before the first keypoint (all keypoints
   * share one time): the first-keypoint test comes first and wins.
   */
  lemma SampleAfterLast(track: seq<Keypoint>, time: real)
    requires SortedByTime(track) && |track| > 0
    requires time >= track[|track| - 1].time
    ensures SampleAt(track, time) == if time <= track[0].time then track[0].value else track[|track| - 1].value
  {
    SortBySortedIsIdentity(track, TimeOf);
  }

  /**
   * Strictly between the first and the last keypoint the scan finds a segment
   * (cur, next) with cur.time < time <= next.time; the sample is the
   * interpolation from cur's value to next's value, eased by next, at a
   * fraction in (0,1]; and with next's handles in the unit square it lies
   * between the two values.
   */
  lemma SampleInterior(s: seq<Keypoint>, time: real)
    requires |s| > 0 && s[0].time < time < s[|s| - 1].time
    ensures FindSegment(s, time, 0).Some?
    ensures var i := FindSegment(s, time, 0).value;
      && s[i].time < time <= s[i + 1].time
      && var t := Fraction(s[i], s[i + 1], time);
      && 0.0 < t <= 1.0
      && SampleTrack(s, time) == Interpolate(s[i].value, s[i + 1].value, t, SegmentEasingOf(s[i + 1]))
      && (KeypointValid(s[i + 1]) ==>
            (s[i].value <= s[i + 1].value ==> s[i].value <= SampleTrack(s, time) <= s[i + 1].value) &&
            (s[i + 1].value <= s[i].value ==> s[i + 1].value <= SampleTrack(s, time) <= s[i].value))
  {
    SegmentFound(s, time, 0);
    SegmentStartsBefore(s, time, 0);
    var i := FindSegment(s, time, 0).value;
    var t := Fraction(s[i], s[i + 1], time);
    if KeypointValid(s[i + 1]) {
      InterpolateBetween(s[i].value, s[i + 1].value, t, SegmentEasingOf(s[i + 1]));
    }
  }

  /**
   * On a sorted track, sampling at the time of a keypoint that is the first
   * with its time, and earlier than the last keypoint, gives exactly its value.
   */
  lemma SampleHitsKeypoint(s: seq<Keypoint>, k: nat)
    requires SortedByTime(s) && k < |s|
    requires k == 0 || s[k - 1].time < s[k].time
    requires s[k].time < s[|s| - 1].time
    ensures SampleTrack(s, s[k].time) == s[k].value
  {
    var time := s[k].time;
    if k > 0 {
      SampleInterior(s, time);
      var i := FindSegment(s, time, 0).value;
      assert TimeOf(s[i]) < TimeOf(s[k]) && TimeOf(s[k - 1]) < TimeOf(s[i + 1]);
      assert i + 1 == k;
      InterpolateEndpoints(s[i].value, s[i + 1].value, SegmentEasingOf(s[i + 1]));
    }
  }

  /** Three linear keypoints at 0, 1, 2 s with values 0, 45, 90: halfway samples are 22.5 and 67.5. */
  lemma LinearScenario()
    ensures var track := [NewKeypoint(0, 0.0, 0.0), NewKeypoint(1, 1.0, 45.0), NewKeypoint(2, 2.0, 90.0)];
      SampleAt(track, 0.5) == 22.5 && SampleAt(track, 1.5) == 67.5
  {
    var track := [NewKeypoint(0, 0.0, 0.0), NewKeypoint(1, 1.0, 45.0), NewKeypoint(2, 2.0, 90.0)];
    assert SortedByTime(track);
    SortBySortedIsIdentity(track, TimeOf);
    assert FindSegment(track, 0.5, 0) == Some(0);
    assert FindSegment(track, 1.5, 1) == Some(1);
    assert FindSegment(track, 1.5, 0) == Some(1);
  }
}
