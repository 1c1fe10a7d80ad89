/**
 * Keypoints and the three per-axis tracks that hold them, the 0.2-second time
 * grid, and the pure track operations the editor's handlers are built from.
 */
module Keypoints {
  import opened Wrappers
  import opened Easing
  import opened Sorting

  datatype Axis = X | Y | Z

  /**
   * One keypoint of one axis.  The id is the counter value n of the source's
   * string id `kp-n`; `curve` is the custom Bezier handles, absent for a preset.
   */
  datatype Keypoint = Keypoint(id: nat, time: real, value: real, easing: string, curve: Option<Curve>)

  function TimeOf(k: Keypoint): real { k.time }

  function IdOf(k: Keypoint): nat { k.id }

  predicate SortedByTime(s: seq<Keypoint>) { SortedBy(s, TimeOf) }

  /** The stable sort by time applied after every insertion and retime. */
  function SortByTime(s: seq<Keypoint>): (r: seq<Keypoint>)
    ensures SortedByTime(r) && multiset(r) == multiset(s)
  {
    SortBy(s, TimeOf)
  }

  /** The three tracks, one per rotation axis. */
  datatype Tracks = Tracks(x: seq<Keypoint>, y: seq<Keypoint>, z: seq<Keypoint>) {

    function Get(a: Axis): seq<Keypoint> {
      match a
      case X => x
      case Y => y
      case Z => z
    }

    /** The tracks with axis a's track replaced by s; the other two are kept. */
    function With(a: Axis, s: seq<Keypoint>): (r: Tracks)
      ensures r.Get(a) == s
      ensures forall b :: b != a ==> r.Get(b) == Get(b)
    {
      match a
      case X => this.(x := s)
      case Y => this.(y := s)
      case Z => this.(z := s)
    }

    /** Every keypoint, axis by axis in the order x, y, z. */
    function All(): seq<Keypoint> { x + y + z }
  }

  const NoTracks := Tracks([], [], [])

  /** Math.round: round half up, so Round(v) == floor(v + 1/2). */
  function Round(v: real): int { (v + 0.5).Floor }

  /** A time that is a whole multiple of 0.2 seconds. */
  predicate OnGrid(t: real) { (t / 0.2).Floor as real == t / 0.2 }

  /** The time addKeypoint stores: Math.round(p / 0.2) * 0.2 (toFixed(1) keeps it as it is). */
  function SnapToGrid(p: real): (r: real)
    ensures OnGrid(r)
    ensures p - 0.1 < r <= p + 0.1
    ensures 0.0 <= p ==> 0.0 <= r
    ensures OnGrid(p) ==> r == p
  {
    var k := Round(p / 0.2);
    assert p / 0.2 == 5.0 * p;
    assert k as real * 0.2 / 0.2 == k as real;
    assert OnGrid(p) ==> k == (p / 0.2).Floor;
    k as real * 0.2
  }

  /** The time a keypoint drag stores: below 0.1 it snaps to 0, otherwise to the nearest grid time. */
  function DragSnap(p: real): (r: real)
    ensures OnGrid(r) && 0.0 <= r
    ensures p < 0.1 ==> r == 0.0
    ensures 0.1 <= p ==> p - 0.1 < r <= p + 0.1 && 0.2 <= r
  {
    if p < 0.1 then 0.0 else SnapToGrid(p)
  }

  /** Snapping a snapped time again changes nothing. */
  lemma DragSnapIdempotent(p: real)
    ensures DragSnap(DragSnap(p)) == DragSnap(p)
  {
  }

  /** On non-negative times the drag's clamp below 0.1 agrees with plain rounding. */
  lemma DragSnapAgreesOnNonNegative(p: real)
    requires 0.0 <= p
    ensures DragSnap(p) == SnapToGrid(p)
  {
    if p < 0.1 {
      assert 0.5 <= p / 0.2 + 0.5 < 1.0;
    }
  }

  /** The worked quantization examples: 0.07 snaps to 0 and 0.31 (1.55 steps) to 0.4. */
  lemma QuantizationExamples()
    ensures SnapToGrid(0.07) == 0.0 && DragSnap(0.07) == 0.0
    ensures SnapToGrid(0.31) == 0.4 && DragSnap(0.31) == 0.4
  {
    assert Round(0.07 / 0.2) == 0;
    assert Round(0.31 / 0.2) == 2;
  }

  /** A keypoint as addKeypoint creates it: linear easing and no custom curve. */
  function NewKeypoint(id: nat, time: real, value: real): (k: Keypoint)
  {
    Keypoint(id, time, value, "linear", None)
  }

  /** keypoints.filter(kp => kp.id !== id). */
  function RemoveId(s: seq<Keypoint>, id: nat): (r: seq<Keypoint>)
    ensures |r| <= |s|
  {
    if |s| == 0 then []
    else (if s[0].id == id then [] else [s[0]]) + RemoveId(s[1..], id)
  }

  /** The filter keeps exactly the keypoints whose id differs. */
  lemma {:induction false} RemoveIdMembers(s: seq<Keypoint>, id: nat, k: Keypoint)
    ensures k in RemoveId(s, id) <==> k in s && k.id != id
    decreases |s|
  {
    if |s| > 0 {
      RemoveIdMembers(s[1..], id, k);
      assert s == [s[0]] + s[1..];
    }
  }

  /** keypoints.findIndex(kp => kp.id === id), with None for -1. */
  function FindIndex(s: seq<Keypoint>, id: nat): (r: Option<nat>)
    ensures r.Some? ==> r.value < |s| && s[r.value].id == id
    ensures r.Some? ==> forall j :: 0 <= j < r.value ==> s[j].id != id
    ensures r.None? ==> forall j :: 0 <= j < |s| ==> s[j].id != id
  {
    if |s| == 0 then None
    else if s[0].id == id then Some(0)
    else match FindIndex(s[1..], id)
      case None => None
      case Some(i) => Some(i + 1)
  }

  /** The multiset of ids on one track. */
  function TrackIds(s: seq<Keypoint>): multiset<nat> { multiset(Project(s, IdOf)) }

  /** The multiset of ids on all three tracks. */
  function IdBag(t: Tracks): multiset<nat> { TrackIds(t.x) + TrackIds(t.y) + TrackIds(t.z) }

  /** What every stored keypoint satisfies: a non-negative grid time and handles in the unit square. */
  predicate KeypointValid(k: Keypoint) {
    0.0 <= k.time && OnGrid(k.time) && (k.curve.Some? ==> CurveInUnit(k.curve.value))
  }

  predicate TrackValid(s: seq<Keypoint>) {
    SortedByTime(s) && forall k :: k in s ==> KeypointValid(k)
  }

  /**
   * The store invariant: every track sorted by time with valid keypoints, every
   * id below the counter, and no id used twice across the three tracks.
   */
  ghost predicate StoreValid(t: Tracks, counter: nat) {
    TrackValid(t.x) && TrackValid(t.y) && TrackValid(t.z) && IdsFresh(IdBag(t), counter)
  }

  /** Every id in the bag is below the counter and occurs once. */
  ghost predicate IdsFresh(bag: multiset<nat>, counter: nat) {
    && (forall id :: id in bag ==> id < counter)
    && (forall id :: bag[id] <= 1)
  }

  /** Taking the counter as a new id keeps the ids fresh under the next counter. */
  lemma IdsFreshAdd(bag: multiset<nat>, counter: nat)
    requires IdsFresh(bag, counter)
    ensures counter !in bag
    ensures IdsFresh(bag + multiset{counter}, counter + 1)
  {
    var bag' := bag + multiset{counter};
    forall id ensures bag'[id] <= 1 {
      assert bag'[id] == bag[id] + (if id == counter then 1 else 0);
    }
  }

  /** Removing ids keeps the rest fresh. */
  lemma IdsFreshShrink(bag: multiset<nat>, bag': multiset<nat>, counter: nat)
    requires IdsFresh(bag, counter)
    requires forall id :: bag'[id] <= bag[id]
    ensures IdsFresh(bag', counter)
  {
    forall id | id in bag' ensures id < counter {
      assert bag'[id] <= bag[id];
    }
  }

  /** Multiset cancellation for a bag that gained x where a replaced track gained it. */
  lemma BagGained(bag: multiset<nat>, bag': multiset<nat>, ids: multiset<nat>, ids': multiset<nat>, x: nat)
    requires bag' + ids == bag + ids'
    requires ids' == ids + multiset{x}
    ensures bag' == bag + multiset{x}
  {
    forall id ensures bag'[id] == (bag + multiset{x})[id] {
      assert (bag' + ids)[id] == (bag + ids')[id];
    }
  }

  /** Multiset cancellation for a bag whose replaced track lost an id. */
  lemma BagLost(bag: multiset<nat>, bag': multiset<nat>, ids: multiset<nat>, ids': multiset<nat>, x: nat)
    requires bag' + ids == bag + ids'
    requires ids' == ids[x := 0]
    ensures forall id :: bag'[id] <= bag[id]
    ensures forall id :: id != x ==> bag'[id] == bag[id]
  {
    forall id ensures bag'[id] + ids[id] == bag[id] + ids'[id] {
      assert (bag' + ids)[id] == (bag + ids')[id];
    }
  }

  // ---------------------------------------------------------------- id bags

  /** The ids of a concatenation are the ids of its two parts. */
  lemma TrackIdsConcat(a: seq<Keypoint>, b: seq<Keypoint>)
    ensures TrackIds(a + b) == TrackIds(a) + TrackIds(b)
  {
    assert Project(a + b, IdOf) == Project(a, IdOf) + Project(b, IdOf);
  }

  lemma TrackIdsAppend(s: seq<Keypoint>, k: Keypoint)
    ensures TrackIds(s + [k]) == TrackIds(s) + multiset{k.id}
  {
    TrackIdsConcat(s, [k]);
    assert Project([k], IdOf) == [k.id];
  }

  /** Replacing one track changes the id bag by exactly that track's ids. */
  lemma IdBagWith(t: Tracks, a: Axis, s: seq<Keypoint>)
    ensures IdBag(t.With(a, s)) + TrackIds(t.Get(a)) == IdBag(t) + TrackIds(s)
  {
  }

  /** An id occurs on a track exactly when the track's id bag holds it. */
  lemma TrackIdsMembership(s: seq<Keypoint>, id: nat)
    ensures id in TrackIds(s) <==> exists j :: 0 <= j < |s| && s[j].id == id
  {
    var p := Project(s, IdOf);
    if id in TrackIds(s) {
      assert id in p;
      var j :| 0 <= j < |p| && p[j] == id;
      assert s[j].id == id;
    } else {
      forall j | 0 <= j < |s| ensures s[j].id != id {
        assert p[j] in p;
      }
    }
  }

  /** A value at two positions is counted at least twice by the multiset. */
  lemma CountedTwice(p: seq<nat>, i: nat, j: nat)
    requires i < j < |p|
    ensures p[i] == p[j] ==> multiset(p)[p[i]] >= 2
  {
    assert p == p[..j] + [p[j]] + p[j + 1..];
    assert p[..j][i] == p[i];
    assert p[i] in multiset(p[..j]);
  }

  /** A track whose id bag counts every id at most once has no two keypoints with one id. */
  lemma TrackIdsUnique(s: seq<Keypoint>, i: nat, j: nat)
    requires forall id :: TrackIds(s)[id] <= 1
    requires i < j < |s|
    ensures s[i].id != s[j].id
  {
    var p := Project(s, IdOf);
    CountedTwice(p, i, j);
    assert TrackIds(s)[p[i]] <= 1;
    assert p[i] == s[i].id && p[j] == s[j].id;
  }

  /** Filtering out an id removes every copy of it from the id bag and nothing else. */
  lemma {:induction false} TrackIdsRemoveId(s: seq<Keypoint>, id: nat)
    ensures TrackIds(RemoveId(s, id)) == TrackIds(s)[id := 0]
    decreases |s|
  {
    if |s| > 0 {
      var head := if s[0].id == id then [] else [s[0]];
      var rest := RemoveId(s[1..], id);
      TrackIdsRemoveId(s[1..], id);
      TrackIdsConcat(head, rest);
      TrackIdsConcat([s[0]], s[1..]);
      assert s == [s[0]] + s[1..];
      assert TrackIds([s[0]]) == multiset{s[0].id} by {
        assert Project([s[0]], IdOf) == [s[0].id];
      }
      assert TrackIds([]) == multiset{} by {
        assert Project([], IdOf) == [];
      }
      RemoveHeadCount(s[0].id, id, TrackIds(s[1..]), TrackIds(rest));
    }
  }

  /** Multiset arithmetic behind deleting by id: the head's id is dropped exactly when it is the deleted one. */
  lemma RemoveHeadCount(x: nat, id: nat, before: multiset<nat>, after: multiset<nat>)
    requires after == before[id := 0]
    ensures (multiset{x} + before)[id := 0] == (if x == id then multiset{} else multiset{x}) + after
  {
  }

  /** Writing a keypoint with the same id over another keeps the id bag. */
  lemma TrackIdsUpdate(s: seq<Keypoint>, i: nat, k: Keypoint)
    requires i < |s| && k.id == s[i].id
    ensures TrackIds(s[i := k]) == TrackIds(s)
  {
    assert Project(s[i := k], IdOf) == Project(s, IdOf);
  }

  // ------------------------------------------------------------- filtering

  /** Filtering an absent id is a no-op. */
  lemma {:induction false} RemoveIdAbsent(s: seq<Keypoint>, id: nat)
    requires forall j :: 0 <= j < |s| ==> s[j].id != id
    ensures RemoveId(s, id) == s
    decreases |s|
  {
    if |s| > 0 {
      RemoveIdAbsent(s[1..], id);
      assert s == [s[0]] + s[1..];
    }
  }

  /** Filtering keeps the order of the keypoints that remain, so a sorted track stays sorted. */
  lemma {:induction false} RemoveIdSorted(s: seq<Keypoint>, id: nat)
    requires SortedByTime(s)
    ensures SortedByTime(RemoveId(s, id))
    decreases |s|
  {
    if |s| > 0 {
      var rest := RemoveId(s[1..], id);
      RemoveIdSorted(s[1..], id);
      forall j | 0 <= j < |rest| ensures s[0].time <= rest[j].time {
        RemoveIdMembers(s[1..], id, rest[j]);
        var m :| 0 <= m < |s[1..]| && s[1..][m] == rest[j];
        assert s[m + 1] == rest[j];
      }
      var head := if s[0].id == id then [] else [s[0]];
      forall i, j | 0 <= i < j < |head + rest| ensures (head + rest)[i].time <= (head + rest)[j].time {
        if |head| == 1 && i == 0 {
          assert (head + rest)[j] == rest[j - 1];
        }
      }
    }
  }

  /** With ids unique on the track, deleting an id removes the one keypoint found for it and keeps the rest in order. */
  lemma {:induction false} RemoveIdFound(s: seq<Keypoint>, id: nat, i: nat)
    requires forall a, b :: 0 <= a < b < |s| ==> s[a].id != s[b].id
    requires FindIndex(s, id) == Some(i)
    ensures RemoveId(s, id) == s[..i] + s[i + 1..]
    decreases |s|
  {
    var tail := s[1..];
    assert RemoveId(s, id) == (if s[0].id == id then [] else [s[0]]) + RemoveId(tail, id);
    if s[0].id == id {
      assert i == 0;
      forall j | 0 <= j < |tail| ensures tail[j].id != id {
        assert tail[j] == s[j + 1];
      }
      RemoveIdAbsent(tail, id);
    } else {
      assert FindIndex(tail, id) == Some(i - 1);
      forall a, b | 0 <= a < b < |tail| ensures tail[a].id != tail[b].id {
        assert tail[a] == s[a + 1] && tail[b] == s[b + 1];
      }
      RemoveIdFound(tail, id, i - 1);
      assert s[..i] == [s[0]] + s[1..][..i - 1];
      assert s[i + 1..] == s[1..][i..];
    }
  }

  // ------------------------------------------------------- store operations

  /** The track after addKeypoint: the new keypoint pushed, then the track re-sorted. */
  function AddToTrack(s: seq<Keypoint>, k: Keypoint): (r: seq<Keypoint>)
  {
    SortByTime(s + [k])
  }

  /** The track after a drag: the keypoint at i gets time t, then the track is re-sorted. */
  function RetimeAt(s: seq<Keypoint>, i: nat, t: real): (r: seq<Keypoint>)
    requires i < |s|
  {
    SortByTime(s[i := s[i].(time := t)])
  }

  /**
   * On a sorted track, adding lands the new keypoint after every keypoint with
   * an equal or earlier time and before every later one; nothing else moves.
   */
  lemma AddToTrackPlacement(s: seq<Keypoint>, k: Keypoint)
    requires SortedByTime(s)
    ensures var i := InsertionIndex(s, k, TimeOf);
      && AddToTrack(s, k) == s[..i] + [k] + s[i..]
      && (forall j :: 0 <= j < i ==> s[j].time <= k.time)
      && (forall j :: i <= j < |s| ==> k.time < s[j].time)
  {
    SortByAppend(s, k, TimeOf);
    InsertBySplit(s, k, TimeOf);
  }

  /** Replacing a track by a valid one with the same ids keeps the store invariant and the id bag. */
  lemma ReplaceTrackSameIds(t: Tracks, counter: nat, a: Axis, s': seq<Keypoint>)
    requires StoreValid(t, counter)
    requires TrackValid(s') && TrackIds(s') == TrackIds(t.Get(a))
    ensures IdBag(t.With(a, s')) == IdBag(t)
    ensures StoreValid(t.With(a, s'), counter)
  {
    IdBagWith(t, a, s');
  }

  /** Adding a keypoint with a fresh id and a valid grid time keeps the store invariant and uses one more id. */
  lemma AddPreservesStore(t: Tracks, counter: nat, a: Axis, time: real, value: real)
    requires StoreValid(t, counter)
    requires 0.0 <= time && OnGrid(time)
    ensures var k := NewKeypoint(counter, time, value);
      && counter !in IdBag(t)
      && IdBag(t.With(a, AddToTrack(t.Get(a), k))) == IdBag(t) + multiset{counter}
      && StoreValid(t.With(a, AddToTrack(t.Get(a), k)), counter + 1)
  {
    var k := NewKeypoint(counter, time, value);
    var s := t.Get(a);
    var s' := AddToTrack(s, k);
    var t' := t.With(a, s');
    AddTrackValid(s, k);
    IdBagWith(t, a, s');
    BagGained(IdBag(t), IdBag(t'), TrackIds(s), TrackIds(s'), counter);
    IdsFreshAdd(IdBag(t), counter);
    assert TrackValid(t'.Get(a));
    assert forall b :: b != a ==> t'.Get(b) == t.Get(b);
  }

  /** Adding a valid keypoint to a valid track gives a valid track with one more id. */
  lemma AddTrackValid(s: seq<Keypoint>, k: Keypoint)
    requires TrackValid(s) && KeypointValid(k)
    ensures TrackValid(AddToTrack(s, k))
    ensures TrackIds(AddToTrack(s, k)) == TrackIds(s) + multiset{k.id}
  {
    var s' := AddToTrack(s, k);
    ProjectSortBy(s + [k], TimeOf, IdOf);
    TrackIdsAppend(s, k);
    forall k' | k' in s' ensures KeypointValid(k') {
      assert k' in multiset(s + [k]);
    }
  }

  /** Deleting by id keeps the store invariant and drops that id from the bag. */
  lemma DeletePreservesStore(t: Tracks, counter: nat, a: Axis, id: nat)
    requires StoreValid(t, counter)
    ensures StoreValid(t.With(a, RemoveId(t.Get(a), id)), counter)
    ensures id !in TrackIds(RemoveId(t.Get(a), id))
    ensures forall other :: other != id ==> IdBag(t.With(a, RemoveId(t.Get(a), id)))[other] == IdBag(t)[other]
  {
    var s := t.Get(a);
    var s' := RemoveId(s, id);
    var t' := t.With(a, s');
    RemoveTrackValid(s, id);
    IdBagWith(t, a, s');
    BagLost(IdBag(t), IdBag(t'), TrackIds(s), TrackIds(s'), id);
    IdsFreshShrink(IdBag(t), IdBag(t'), counter);
    assert TrackValid(t'.Get(a));
    assert forall b :: b != a ==> t'.Get(b) == t.Get(b);
  }

  /** Filtering an id out of a valid track gives a valid track without that id. */
  lemma RemoveTrackValid(s: seq<Keypoint>, id: nat)
    requires TrackValid(s)
    ensures TrackValid(RemoveId(s, id))
    ensures TrackIds(RemoveId(s, id)) == TrackIds(s)[id := 0]
  {
    RemoveIdSorted(s, id);
    TrackIdsRemoveId(s, id);
    forall k | k in RemoveId(s, id) ensures KeypointValid(k) {
      RemoveIdMembers(s, id, k);
    }
  }

  /** Retiming a keypoint to a valid grid time keeps the store invariant and the id bag. */
  lemma RetimePreservesStore(t: Tracks, counter: nat, a: Axis, i: nat, time: real)
    requires StoreValid(t, counter)
    requires i < |t.Get(a)|
    requires 0.0 <= time && OnGrid(time)
    ensures IdBag(t.With(a, RetimeAt(t.Get(a), i, time))) == IdBag(t)
    ensures StoreValid(t.With(a, RetimeAt(t.Get(a), i, time)), counter)
  {
    RetimeTrackValid(t.Get(a), i, time);
    ReplaceTrackSameIds(t, counter, a, RetimeAt(t.Get(a), i, time));
  }

  /** Retiming one keypoint of a valid track to a valid grid time gives a valid track with the same ids. */
  lemma RetimeTrackValid(s: seq<Keypoint>, i: nat, time: real)
    requires TrackValid(s) && i < |s|
    requires 0.0 <= time && OnGrid(time)
    ensures TrackValid(RetimeAt(s, i, time))
    ensures TrackIds(RetimeAt(s, i, time)) == TrackIds(s)
  {
    var u := s[i := s[i].(time := time)];
    var s' := RetimeAt(s, i, time);
    TrackIdsUpdate(s, i, u[i]);
    ProjectSortBy(u, TimeOf, IdOf);
    assert s[i] in s;
    forall k' | k' in s' ensures KeypointValid(k') {
      assert k' in multiset(u);
      if k' != u[i] {
        var m :| 0 <= m < |u| && u[m] == k';
        assert s[m] == k';
      }
    }
  }

  /** A track with one keypoint retimed to t, before the re-sort, split around that keypoint. */
  lemma RetimeSplit(s: seq<Keypoint>, i: nat, t: real, v: real)
    requires i < |s|
    ensures WithKey(s[i := s[i].(time := t)], TimeOf, v) ==
      WithKey(s[..i], TimeOf, v) + (if t == v then [s[i].(time := t)] else []) + WithKey(s[i + 1..], TimeOf, v)
  {
    var k := s[i].(time := t);
    assert s[i := k] == s[..i] + [k] + s[i + 1..];
    assert WithKey([k], TimeOf, v) == (if t == v then [k] else []) by {
      assert [k][1..] == [];
    }
    WithKeyConcat(s[..i] + [k], s[i + 1..], TimeOf, v);
    WithKeyConcat(s[..i], [k], TimeOf, v);
  }

  /**
   * Where a drag to time t lands the moved keypoint: among the keypoints at t
   * it comes after those that preceded it on the track and before those that
   * followed it.
   */
  lemma RetimePlacement(s: seq<Keypoint>, i: nat, t: real)
    requires i < |s|
    ensures WithKey(RetimeAt(s, i, t), TimeOf, t) ==
      WithKey(s[..i], TimeOf, t) + [s[i].(time := t)] + WithKey(s[i + 1..], TimeOf, t)
  {
    SortByStable(s[i := s[i].(time := t)], TimeOf, t);
    RetimeSplit(s, i, t, t);
  }

  /** A drag keeps the order of the keypoints at every other time. */
  lemma RetimeKeepsOtherTimes(s: seq<Keypoint>, i: nat, t: real, v: real)
    requires i < |s| && v != t
    ensures WithKey(RetimeAt(s, i, t), TimeOf, v) == WithKey(s[..i] + s[i + 1..], TimeOf, v)
  {
    SortByStable(s[i := s[i].(time := t)], TimeOf, v);
    RetimeSplit(s, i, t, v);
    WithKeyConcat(s[..i], s[i + 1..], TimeOf, v);
  }

  /**
   * Replacing the easing fields of the keypoint at i (its time and id kept)
   * keeps the store invariant and the id bag, provided any new curve has its
   * handles in the unit square.
   */
  lemma EasingEditPreservesStore(t: Tracks, counter: nat, a: Axis, i: nat, easing: string, curve: Option<Curve>)
    requires StoreValid(t, counter)
    requires i < |t.Get(a)|
    requires curve.Some? ==> CurveInUnit(curve.value)
    ensures var s := t.Get(a);
      && IdBag(t.With(a, s[i := s[i].(easing := easing, curve := curve)])) == IdBag(t)
      && StoreValid(t.With(a, s[i := s[i].(easing := easing, curve := curve)]), counter)
  {
    var s := t.Get(a);
    EasingEditTrackValid(s, i, easing, curve);
    ReplaceTrackSameIds(t, counter, a, s[i := s[i].(easing := easing, curve := curve)]);
  }

  /** Replacing the easing fields of one keypoint of a valid track gives a valid track with the same ids. */
  lemma EasingEditTrackValid(s: seq<Keypoint>, i: nat, easing: string, curve: Option<Curve>)
    requires TrackValid(s) && i < |s|
    requires curve.Some? ==> CurveInUnit(curve.value)
    ensures TrackValid(s[i := s[i].(easing := easing, curve := curve)])
    ensures TrackIds(s[i := s[i].(easing := easing, curve := curve)]) == TrackIds(s)
  {
    var k := s[i].(easing := easing, curve := curve);
    var s' := s[i := k];
    TrackIdsUpdate(s, i, k);
    assert s[i] in s;
    forall m | 0 <= m < |s'| ensures KeypointValid(s'[m]) {
      if m != i { assert s'[m] == s[m] && s[m] in s; }
    }
    forall p, q | 0 <= p < q < |s'| ensures TimeOf(s'[p]) <= TimeOf(s'[q]) {
      assert s'[p].time == s[p].time && s'[q].time == s[q].time;
    }
  }

  /** Under the store invariant no track holds two keypoints with one id. */
  lemma StoreIdsUnique(t: Tracks, counter: nat, a: Axis, i: nat, j: nat)
    requires StoreValid(t, counter)
    requires i < j < |t.Get(a)|
    ensures t.Get(a)[i].id != t.Get(a)[j].id
  {
    var s := t.Get(a);
    forall id ensures TrackIds(s)[id] <= 1 {
      assert TrackIds(s)[id] <= IdBag(t)[id];
    }
    TrackIdsUnique(s, i, j);
  }
}
