/**
 * The timeline duration policy and the last keyframe time: two left-to-right
 * maximum loops over every keypoint of the three tracks.
 */
module Duration {
  import opened Keypoints

  /** The maximum of init and the times in s, folded left to right as the source's loops do. */
  function LatestTime(s: seq<Keypoint>, init: real): real
    decreases |s|
  {
    if |s| == 0 then init
    else
      var m := LatestTime(s[..|s| - 1], init);
      if s[|s| - 1].time > m then s[|s| - 1].time else m
  }

  /** getLastKeyframeTime: the latest keypoint time, 0 when there are none. */
  function LastKeyframeTime(t: Tracks): real
  {
    LatestTime(t.All(), 0.0)
  }

  /** The duration updateTimelineDuration stores: the current one raised to every keypoint time, and at least 2 s. */
  function UpdatedDuration(t: Tracks, current: real): real
  {
    var m := LatestTime(t.All(), current);
    if m > 2.0 then m else 2.0
  }

  /** A marker's position on the timeline, as a percentage of the duration. */
  function MarkerPercent(time: real, duration: real): real
    requires duration > 0.0
  {
    time / duration * 100.0
  }

  /** The maximum loop shared by updateTimelineDuration and getLastKeyframeTime. */
  method MaxKeypointTime(t: Tracks, start: real) returns (m: real)
    ensures m == LatestTime(t.All(), start)
  {
    var all := t.All();
    m := start;
    for i := 0 to |all|
      invariant m == LatestTime(all[..i], start)
    {
      assert all[..i + 1][..i] == all[..i];
      if all[i].time > m {
        m := all[i].time;
      }
    }
    assert all[..|all|] == all;
  }

  /** getLastKeyframeTime. */
  method GetLastKeyframeTime(t: Tracks) returns (m: real)
    ensures m == LastKeyframeTime(t)
  {
    m := MaxKeypointTime(t, 0.0);
  }

  /** The fold is the maximum: at least init and every time, and equal to init or to one of the times. */
  lemma {:induction false} LatestTimeIsMax(s: seq<Keypoint>, init: real)
    ensures init <= LatestTime(s, init)
    ensures forall j :: 0 <= j < |s| ==> s[j].time <= LatestTime(s, init)
    ensures LatestTime(s, init) == init || exists j :: 0 <= j < |s| && LatestTime(s, init) == s[j].time
    decreases |s|
  {
    if |s| > 0 {
      var p := s[..|s| - 1];
      LatestTimeIsMax(p, init);
      forall j | 0 <= j < |s| - 1 ensures s[j].time <= LatestTime(s, init) {
        assert s[j] == p[j];
      }
      if LatestTime(s, init) != init && LatestTime(s, init) != s[|s| - 1].time {
        var j :| 0 <= j < |p| && LatestTime(p, init) == p[j].time;
        assert s[j] == p[j];
      }
    }
  }

  /**
   * The new timeline duration is max(current, 2, every keypoint time): it never
   * shrinks, is at least 2 s, covers every keypoint, and is one of those values.
   */
  lemma UpdatedDurationIsMax(t: Tracks, current: real)
    ensures var d := UpdatedDuration(t, current);
      && current <= d && 2.0 <= d
      && (forall k :: k in t.All() ==> k.time <= d)
      && (d == current || d == 2.0 || exists k :: k in t.All() && d == k.time)
  {
    LatestTimeIsMax(t.All(), current);
  }

  /** The exported duration is the latest keypoint time, or 0 with no keypoints. */
  lemma LastKeyframeTimeIsMax(t: Tracks)
    ensures var d := LastKeyframeTime(t);
      && 0.0 <= d
      && (forall k :: k in t.All() ==> k.time <= d)
      && (t.All() == [] ==> d == 0.0)
      && (d == 0.0 || exists k :: k in t.All() && d == k.time)
  {
    LatestTimeIsMax(t.All(), 0.0);
  }

  /** With every keypoint time in [0, duration], every marker sits within [0%, 100%] of the timeline. */
  lemma MarkersOnTimeline(t: Tracks, duration: real)
    requires duration > 0.0
    requires forall k :: k in t.All() ==> 0.0 <= k.time <= duration
    ensures forall k :: k in t.All() ==> 0.0 <= MarkerPercent(k.time, duration) <= 100.0
  {
    forall k | k in t.All() ensures 0.0 <= MarkerPercent(k.time, duration) <= 100.0 {
      assert k.time / duration <= 1.0;
    }
  }
}
