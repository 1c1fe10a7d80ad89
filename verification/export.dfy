/**
 * The step list of the CSS export: one (percentage, rotation) step for every
 * distinct keypoint time across the three tracks, in ascending time order.
 * The CSS text around the steps is not modelled.
 */
module Export {
  import opened Wrappers
  import opened Sorting
  import opened Keypoints
  import opened Sampling
  import opened Duration

  /** One keyframe block: its percentage of the animation and the rotation it sets. */
  datatype Step = Step(percent: real, rotation: Rotation)

  /** The exported animation: its duration in seconds and its ordered steps. */
  datatype Animation = Animation(duration: real, steps: seq<Step>)

  /** A JavaScript number as the percentage division can produce it. */
  datatype JsNumber = Finite(v: real) | NaN | Infinity | NegativeInfinity

  function RealKey(x: real): real { x }

  /** The times of s, in order. */
  function Times(s: seq<Keypoint>): seq<real> { Project(s, TimeOf) }

  /** Adding values to a JavaScript Set, one by one: first occurrences kept, in insertion order. */
  function Dedup(s: seq<real>): seq<real>
    decreases |s|
  {
    if |s| == 0 then []
    else
      var d := Dedup(s[..|s| - 1]);
      if s[|s| - 1] in d then d else d + [s[|s| - 1]]
  }

  /** The set of all keypoint times, as an ascending array (Array.from(set).sort((a, b) => a - b)). */
  function ExportTimes(t: Tracks): seq<real>
  {
    SortBy(Dedup(Times(t.All())), RealKey)
  }

  /**
   * The step percentage (time / duration) * 100, with a zero duration (every
   * keypoint at 0 s) giving 0 % instead of dividing by zero.
   */
  function Percent(time: real, duration: real): real
  {
    if duration == 0.0 then 0.0 else time / duration * 100.0
  }

  /** The percentage line 1036 computes, as a JavaScript number: 0/0 is NaN. */
  function PercentAsWritten(time: real, duration: real): (r: JsNumber)
    ensures duration != 0.0 ==> r == Finite(Percent(time, duration))
    ensures duration == 0.0 ==> !r.Finite?
  {
    if duration != 0.0 then Finite(time / duration * 100.0)
    else if time == 0.0 then NaN
    else if time > 0.0 then Infinity
    else NegativeInfinity
  }

  function StepAt(t: Tracks, time: real, duration: real): Step
  {
    Step(Percent(time, duration), RotationAt(t, time))
  }

  /**
   * generateCSSAnimation's result: the duration and one step per distinct time,
   * with the corrected percentage (0 % at duration 0, where the source gives NaN %).
   */
  function ExportAnimation(t: Tracks): Animation
  {
    var d := LastKeyframeTime(t);
    var ts := ExportTimes(t);
    Animation(d, seq(|ts|, i requires 0 <= i < |ts| => StepAt(t, ts[i], d)))
  }

  /** The first loop of generateCSSAnimation: every keypoint time added to a Set. */
  method CollectTimes(all: seq<Keypoint>) returns (seen: seq<real>)
    ensures seen == Dedup(Times(all))
  {
    seen := [];
    for i := 0 to |all|
      invariant seen == Dedup(Times(all[..i]))
    {
      ghost var ts := Times(all[..i + 1]);
      assert ts[..i] == Times(all[..i]);
      assert ts[i] == all[i].time;
      if all[i].time !in seen {
        seen := seen + [all[i].time];
      }
    }
    assert all[..|all|] == all;
  }

  /** The second loop of generateCSSAnimation: one step per time, sampled with getRotationAtTime, at the corrected percentage. */
  method BuildSteps(t: Tracks, times: seq<real>, duration: real) returns (steps: seq<Step>)
    ensures |steps| == |times|
    ensures forall i :: 0 <= i < |times| ==> steps[i] == StepAt(t, times[i], duration)
  {
    steps := [];
    for j := 0 to |times|
      invariant |steps| == j
      invariant forall i :: 0 <= i < j ==> steps[i] == StepAt(t, times[i], duration)
    {
      var rotation := GetRotationAtTime(t, times[j]);
      steps := steps + [Step(Percent(times[j], duration), rotation)];
    }
  }

  /** generateCSSAnimation without the CSS text: collect the times in a set, sort them, emit the steps at the corrected percentage. */
  method GenerateAnimation(t: Tracks) returns (a: Animation)
    ensures a == ExportAnimation(t)
  {
    var duration := GetLastKeyframeTime(t);
    var seen := CollectTimes(t.All());
    var times := SortBy(seen, RealKey);
    var steps := BuildSteps(t, times, duration);
    a := Animation(duration, steps);
    assert a.steps == ExportAnimation(t).steps;
  }

  // ------------------------------------------------------------ properties

  /** The set keeps one copy of every value and nothing else. */
  lemma {:induction false} DedupProperties(s: seq<real>)
    ensures NoDuplicates(Dedup(s))
    ensures forall x :: x in Dedup(s) <==> x in s
    decreases |s|
  {
    if |s| > 0 {
      var p := s[..|s| - 1];
      DedupProperties(p);
      assert s == p + [s[|s| - 1]];
    }
  }

  /** A value is among the times of s exactly when some keypoint of s is at that time. */
  lemma TimesMembers(s: seq<Keypoint>, x: real)
    ensures x in Times(s) <==> exists k :: k in s && k.time == x
  {
    if x in Times(s) {
      var j :| 0 <= j < |s| && Times(s)[j] == x;
      assert s[j] in s;
    }
    if exists k :: k in s && k.time == x {
      var k :| k in s && k.time == x;
      var j :| 0 <= j < |s| && s[j] == k;
      assert Times(s)[j] == x;
    }
  }

  /** The export times are strictly ascending: sorted, and no time twice. */
  lemma ExportTimesAscending(t: Tracks)
    ensures var ts := ExportTimes(t);
      forall i, j :: 0 <= i < j < |ts| ==> ts[i] < ts[j]
  {
    var d := Dedup(Times(t.All()));
    var ts := ExportTimes(t);
    DedupProperties(Times(t.All()));
    SortByNoDuplicates(d, RealKey);
    forall i, j | 0 <= i < j < |ts| ensures ts[i] < ts[j] {
      assert RealKey(ts[i]) <= RealKey(ts[j]);
    }
  }

  /** The export times are exactly the times that occur on some track. */
  lemma ExportTimesMembers(t: Tracks)
    ensures var ts := ExportTimes(t);
      forall x :: x in ts <==> exists k :: k in t.All() && k.time == x
  {
    var all := t.All();
    var d := Dedup(Times(all));
    var ts := ExportTimes(t);
    DedupProperties(Times(all));
    forall x ensures x in ts <==> exists k :: k in all && k.time == x {
      assert x in ts <==> x in multiset(d);
      TimesMembers(all, x);
    }
  }

  /**
   * The export times are strictly ascending (no time twice) and are exactly
   * the times that occur on some track.
   */
  lemma ExportTimesProperties(t: Tracks)
    ensures var ts := ExportTimes(t);
      && (forall i, j :: 0 <= i < j < |ts| ==> ts[i] < ts[j])
      && (forall x :: x in ts <==> exists k :: k in t.All() && k.time == x)
  {
    ExportTimesAscending(t);
    ExportTimesMembers(t);
  }

  /**
   * The step list: one step per export time, in ascending time order, each
   * carrying that time's percentage and the rotation sampled at that time;
   * the duration is the last keyframe time.
   */
  lemma ExportSteps(t: Tracks)
    ensures var a := ExportAnimation(t);
      var ts := ExportTimes(t);
      && a.duration == LastKeyframeTime(t)
      && |a.steps| == |ts|
      && (forall i :: 0 <= i < |ts| ==>
            a.steps[i].rotation == RotationAt(t, ts[i]) && a.steps[i].percent == Percent(ts[i], a.duration))
      && (forall i, j :: 0 <= i < j < |ts| ==> ts[i] < ts[j])
  {
    ExportTimesProperties(t);
  }

  /**
   * With non-negative keypoint times every export time lies in [0, duration],
   * and when the duration is positive the last export time is the duration.
   */
  lemma ExportTimesBounded(t: Tracks)
    requires forall k :: k in t.All() ==> 0.0 <= k.time
    ensures var ts := ExportTimes(t);
      var d := LastKeyframeTime(t);
      && (forall i :: 0 <= i < |ts| ==> 0.0 <= ts[i] <= d)
      && (d > 0.0 ==> |ts| > 0 && ts[|ts| - 1] == d)
  {
    var ts := ExportTimes(t);
    var d := LastKeyframeTime(t);
    ExportTimesProperties(t);
    LastKeyframeTimeIsMax(t);
    forall i | 0 <= i < |ts| ensures 0.0 <= ts[i] <= d {
      assert ts[i] in ts;
      var k :| k in t.All() && k.time == ts[i];
    }
    if d > 0.0 {
      var k :| k in t.All() && d == k.time;
      assert d in ts;
      var m :| 0 <= m < |ts| && ts[m] == d;
      var last := |ts| - 1;
      assert ts[last] in ts;
      assert ts[m] <= ts[last];
    }
  }

  /**
   * With non-negative keypoint times every percentage lies in [0, 100]; when
   * the duration is positive the last step is at exactly 100 %.
   */
  lemma ExportPercentsInRange(t: Tracks)
    requires forall k :: k in t.All() ==> 0.0 <= k.time
    ensures var a := ExportAnimation(t);
      && (forall i :: 0 <= i < |a.steps| ==> 0.0 <= a.steps[i].percent <= 100.0)
      && (a.duration > 0.0 ==> |a.steps| > 0 && a.steps[|a.steps| - 1].percent == 100.0)
  {
    var a := ExportAnimation(t);
    var ts := ExportTimes(t);
    var d := a.duration;
    ExportSteps(t);
    ExportTimesBounded(t);
    forall i | 0 <= i < |a.steps| ensures 0.0 <= a.steps[i].percent <= 100.0 {
      PercentInRange(ts[i], d);
    }
    if d > 0.0 {
      PercentInRange(d, d);
    }
  }

  /** A time within [0, duration] is at a percentage within [0, 100]; the duration itself is at 100 %. */
  lemma PercentInRange(time: real, duration: real)
    requires 0.0 <= time <= duration
    ensures 0.0 <= Percent(time, duration) <= 100.0
    ensures duration > 0.0 && time == duration ==> Percent(time, duration) == 100.0
  {
    if duration > 0.0 {
      assert time / duration <= 1.0;
    }
  }

  /**
   * Every keypoint at 0 s (here a single one, on X): the duration is 0 and the
   * percentage line 1036 computes for the one step is 0/0, NaN.  The corrected
   * step is at 0 %.
   */
  lemma AllAtZeroExportsNaN()
    ensures var t := Tracks([NewKeypoint(0, 0.0, 10.0)], [], []);
      && LastKeyframeTime(t) == 0.0
      && ExportTimes(t) == [0.0]
      && PercentAsWritten(ExportTimes(t)[0], LastKeyframeTime(t)) == NaN
      && ExportAnimation(t).steps == [Step(0.0, Rotation(10.0, 0.0, 0.0))]
  {
    var t := Tracks([NewKeypoint(0, 0.0, 10.0)], [], []);
    assert t.All() == [NewKeypoint(0, 0.0, 10.0)];
    assert Times(t.All()) == [0.0];
    assert Dedup([0.0]) == [0.0];
    SortBySortedIsIdentity([0.0], RealKey);
    SortBySortedIsIdentity(t.x, TimeOf);
  }

  /** Two keypoints on X, (0 s, 0) and (2 s, 90): exactly two steps, 0 % and 100 %, over 2 s. */
  lemma TwoKeypointScenario()
    ensures var t := Tracks([NewKeypoint(0, 0.0, 0.0), NewKeypoint(1, 2.0, 90.0)], [], []);
      ExportAnimation(t) == Animation(2.0, [Step(0.0, Rotation(0.0, 0.0, 0.0)), Step(100.0, Rotation(90.0, 0.0, 0.0))])
  {
    var t := Tracks([NewKeypoint(0, 0.0, 0.0), NewKeypoint(1, 2.0, 90.0)], [], []);
    TwoKeypointTimes(t);
    TwoKeypointDuration(t);
    TwoKeypointRotations(t);
    TwoStepAnimation(t, Rotation(0.0, 0.0, 0.0), Rotation(90.0, 0.0, 0.0));
  }

  lemma TwoStepAnimation(t: Tracks, r0: Rotation, r1: Rotation)
    requires ExportTimes(t) == [0.0, 2.0] && LastKeyframeTime(t) == 2.0
    requires RotationAt(t, 0.0) == r0 && RotationAt(t, 2.0) == r1
    ensures ExportAnimation(t) == Animation(2.0, [Step(0.0, r0), Step(100.0, r1)])
  {
    var a := ExportAnimation(t);
    assert a.steps[0] == Step(0.0, r0);
    assert a.steps[1] == Step(100.0, r1);
    assert a.steps == [a.steps[0], a.steps[1]];
  }

  lemma TwoKeypointTimes(t: Tracks)
    requires t == Tracks([NewKeypoint(0, 0.0, 0.0), NewKeypoint(1, 2.0, 90.0)], [], [])
    ensures ExportTimes(t) == [0.0, 2.0]
  {
    assert t.All() == t.x;
    var ts := Times(t.All());
    assert ts == [0.0, 2.0];
    assert ts[..1] == [0.0];
    assert [0.0][..0] == [];
    assert Dedup([0.0]) == [0.0];
    assert Dedup(ts) == [0.0, 2.0];
    assert SortedBy([0.0, 2.0], RealKey);
    SortBySortedIsIdentity([0.0, 2.0], RealKey);
  }

  lemma TwoKeypointDuration(t: Tracks)
    requires t == Tracks([NewKeypoint(0, 0.0, 0.0), NewKeypoint(1, 2.0, 90.0)], [], [])
    ensures LastKeyframeTime(t) == 2.0
  {
    assert t.All() == t.x;
    assert t.x[..1] == [NewKeypoint(0, 0.0, 0.0)];
    assert t.x[..1][..0] == [];
    assert LatestTime(t.x[..1], 0.0) == 0.0;
  }

  lemma TwoKeypointRotations(t: Tracks)
    requires t == Tracks([NewKeypoint(0, 0.0, 0.0), NewKeypoint(1, 2.0, 90.0)], [], [])
    ensures RotationAt(t, 0.0) == Rotation(0.0, 0.0, 0.0)
    ensures RotationAt(t, 2.0) == Rotation(90.0, 0.0, 0.0)
  {
    assert SortedByTime(t.x);
    SortBySortedIsIdentity(t.x, TimeOf);
  }
}
