/**
 * The pure decisions of playback: whether play may start, and what one
 * animation frame shows at a given elapsed time.  The frame loop itself
 * (requestAnimationFrame, the clock) is outside the model; elapsed time is a
 * parameter.
 */
module Playback {
  import opened Sorting
  import opened Keypoints
  import opened Sampling
  import opened Duration

  /**
   * One frame: while running, the rotation at the elapsed time with the pointer
   * there; once finished, the rotation at the duration with the pointer there.
   */
  datatype Frame = Running(rotation: Rotation, pointer: real) | Finished(rotation: Rotation, pointer: real)

  /** The rotation about one axis. */
  function Component(r: Rotation, a: Axis): real
  {
    match a
    case X => r.x
    case Y => r.y
    case Z => r.z
  }

  /** The number of keypoints over the three tracks. */
  function KeypointCount(t: Tracks): (n: nat)
    ensures n == |t.All()|
  {
    |t.x| + |t.y| + |t.z|
  }

  /** Play (button or space key) starts only with at least two keypoints in total, on any axes. */
  function CanPlay(t: Tracks): (r: bool)
    ensures r <==> |t.All()| >= 2
    ensures r <==> |t.x| >= 2 || |t.y| >= 2 || |t.z| >= 2
                   || (t.x != [] && t.y != []) || (t.x != [] && t.z != []) || (t.y != [] && t.z != [])
  {
    KeypointCount(t) >= 2
  }

  /** One step of animate: finished once the elapsed time reaches the duration. */
  function FrameAt(t: Tracks, duration: real, elapsed: real): (f: Frame)
  {
    if elapsed >= duration then Finished(RotationAt(t, duration), duration)
    else Running(RotationAt(t, elapsed), elapsed)
  }

  /** The value an axis holds at the end of its sorted track, when sampled at or after every keypoint. */
  lemma AxisSettles(track: seq<Keypoint>, time: real)
    requires forall k :: k in track ==> k.time <= time
    requires |track| > 0 && SortByTime(track)[0].time < time
    ensures var s := SortByTime(track);
      SampleAt(track, time) == s[|s| - 1].value
  {
    var s := SortByTime(track);
    assert s[|s| - 1] in multiset(track);
  }

  /** The value an axis holds when sampled at or before every keypoint. */
  lemma AxisStarts(track: seq<Keypoint>, time: real)
    requires forall k :: k in track ==> time <= k.time
    requires |track| > 0
    ensures SampleAt(track, time) == SortByTime(track)[0].value
  {
    var s := SortByTime(track);
    assert s[0] in multiset(track);
  }

  /** A rotation's component for an axis is that axis's track sampled on its own. */
  lemma ComponentOfRotation(t: Tracks, time: real, a: Axis)
    ensures Component(RotationAt(t, time), a) == SampleAt(t.Get(a), time)
  {
  }

  /** Every keypoint of one track is a keypoint of the whole store. */
  lemma TrackInAll(t: Tracks, a: Axis, k: Keypoint)
    requires k in t.Get(a)
    ensures k in t.All()
  {
  }

  /**
   * Playback ends at the last keyframe time: every elapsed time at or beyond
   * it gives the same finished frame, with the pointer at the duration, each
   * empty axis at 0, and each axis whose keypoints do not all sit at the
   * duration at the value of its latest keypoint.
   */
  lemma PlaybackEnd(t: Tracks, elapsed: real)
    requires elapsed >= LastKeyframeTime(t)
    ensures var d := LastKeyframeTime(t);
      var f := FrameAt(t, d, elapsed);
      && f == Finished(RotationAt(t, d), d)
      && (forall a :: t.Get(a) == [] ==> Component(f.rotation, a) == 0.0)
      && (forall a :: |t.Get(a)| > 0 && SortByTime(t.Get(a))[0].time < d ==>
            Component(f.rotation, a) == SortByTime(t.Get(a))[|t.Get(a)| - 1].value)
  {
    var d := LastKeyframeTime(t);
    var f := FrameAt(t, d, elapsed);
    assert f.rotation == RotationAt(t, d);
    LastKeyframeTimeIsMax(t);
    forall a | |t.Get(a)| > 0 && SortByTime(t.Get(a))[0].time < d
      ensures Component(f.rotation, a) == SortByTime(t.Get(a))[|t.Get(a)| - 1].value
    {
      forall k | k in t.Get(a) ensures k.time <= d {
        TrackInAll(t, a, k);
      }
      AxisSettles(t.Get(a), d);
      ComponentOfRotation(t, d, a);
    }
    forall a | t.Get(a) == [] ensures Component(f.rotation, a) == 0.0 {
      ComponentOfRotation(t, d, a);
    }
  }

  /**
   * Playback starts from the first keypoints: with no negative keypoint time
   * and a positive duration, the frame at elapsed 0 is running, with the
   * pointer at 0, every empty axis at 0 and every other axis at the value of
   * its earliest keypoint.
   */
  lemma PlaybackStart(t: Tracks)
    requires forall k :: k in t.All() ==> 0.0 <= k.time
    requires LastKeyframeTime(t) > 0.0
    ensures var f := FrameAt(t, LastKeyframeTime(t), 0.0);
      && f == Running(RotationAt(t, 0.0), 0.0)
      && (forall a :: t.Get(a) == [] ==> Component(f.rotation, a) == 0.0)
      && (forall a :: |t.Get(a)| > 0 ==> Component(f.rotation, a) == SortByTime(t.Get(a))[0].value)
  {
    var f := FrameAt(t, LastKeyframeTime(t), 0.0);
    forall a | |t.Get(a)| > 0
      ensures Component(f.rotation, a) == SortByTime(t.Get(a))[0].value
    {
      forall k | k in t.Get(a) ensures 0.0 <= k.time {
        TrackInAll(t, a, k);
      }
      AxisStarts(t.Get(a), 0.0);
      ComponentOfRotation(t, 0.0, a);
    }
    forall a | t.Get(a) == [] ensures Component(f.rotation, a) == 0.0 {
      ComponentOfRotation(t, 0.0, a);
    }
  }

  /**
   * Two keypoints that share one time on one axis are enough to start play,
   * and the duration is 0: the first frame is already the finished one.
   */
  lemma ZeroLengthPlayback(v1: real, v2: real)
    ensures var t := Tracks([NewKeypoint(0, 0.0, v1), NewKeypoint(1, 0.0, v2)], [], []);
      && CanPlay(t)
      && LastKeyframeTime(t) == 0.0
      && FrameAt(t, LastKeyframeTime(t), 0.0).Finished?
  {
    var t := Tracks([NewKeypoint(0, 0.0, v1), NewKeypoint(1, 0.0, v2)], [], []);
    assert t.All() == t.x;
    assert t.x[..1] == [NewKeypoint(0, 0.0, v1)];
    assert t.x[..1][..0] == [];
    assert LatestTime(t.x[..1], 0.0) == 0.0;
    assert LatestTime(t.x, 0.0) == 0.0;
  }
}
