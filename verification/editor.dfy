/**
 * The editor's state and the handlers that change it: the keypoint store, the
 * id counter, the timeline duration, the selected keypoint and the two handles
 * of the curve editor.  Rendering is reduced to its one effect on this state:
 * re-rendering a track re-reads the handles from the selected keypoint.
 */
module Editor {
  import opened Wrappers
  import opened Easing
  import opened Sorting
  import opened Keypoints
  import opened Duration

  /** The selected keypoint, by axis and id. */
  datatype Selection = Selection(axis: Axis, id: nat)

  /** The handles the curve editor starts with, and shows for any name outside the preset table. */
  const DefaultHandles := Curve(Point(0.25, 0.25), Point(0.75, 0.75))

  /** The handles the curve editor shows for a keypoint: its custom curve, else its preset's handles. */
  function EditorPoints(kp: Keypoint): (c: Curve)
    ensures kp.curve.Some? ==> c == kp.curve.value
    ensures kp.curve.None? ==> c == PresetControlPoints(kp.easing)
    ensures KeypointValid(kp) ==> CurveInUnit(c)
  {
    if kp.curve.Some? then kp.curve.value else PresetControlPoints(kp.easing)
  }

  /** getKeypointById for the selection: the first keypoint on the selected axis with the selected id. */
  function SelectedKeypoint(t: Tracks, sel: Option<Selection>): (r: Option<Keypoint>)
    ensures sel.None? ==> r.None?
    ensures r.Some? ==> r.value in t.Get(sel.value.axis) && r.value.id == sel.value.id
    ensures sel.Some? && r.None? ==> forall k :: k in t.Get(sel.value.axis) ==> k.id != sel.value.id
  {
    if sel.None? then None
    else
      var s := t.Get(sel.value.axis);
      match FindIndex(s, sel.value.id)
      case None => None
      case Some(i) => Some(s[i])
  }

  /** The handles after renderKeypoints: re-read from the selected keypoint when it is found, else kept. */
  function Refreshed(t: Tracks, sel: Option<Selection>, cp: Curve): Curve
  {
    match SelectedKeypoint(t, sel)
    case None => cp
    case Some(kp) => EditorPoints(kp)
  }

  /** The curve editor shows the selected keypoint's handles whenever that keypoint exists. */
  predicate ShowsSelected(t: Tracks, sel: Option<Selection>, cp: Curve)
  {
    SelectedKeypoint(t, sel).Some? ==> cp == EditorPoints(SelectedKeypoint(t, sel).value)
  }

  /** The tracks after the selected keypoint's easing fields are replaced; unchanged when it is not found. */
  function EditEasing(t: Tracks, sel: Option<Selection>, easing: string, curve: Option<Curve>): Tracks
  {
    if sel.None? then t
    else
      var s := t.Get(sel.value.axis);
      match FindIndex(s, sel.value.id)
      case None => t
      case Some(i) => t.With(sel.value.axis, s[i := s[i].(easing := easing, curve := curve)])
  }

  /** Dragging handle index (0 or 1) of the curve editor to (x, y), each clamped into [0, 1]. */
  function MoveHandle(cp: Curve, index: nat, x: real, y: real): (r: Curve)
    requires index < 2
    ensures index == 0 ==> r.p1 == Point(Clamp01(x), Clamp01(y)) && r.p2 == cp.p2
    ensures index == 1 ==> r.p2 == Point(Clamp01(x), Clamp01(y)) && r.p1 == cp.p1
    ensures CurveInUnit(cp) ==> CurveInUnit(r)
  {
    var p := Point(Clamp01(x), Clamp01(y));
    if index == 0 then cp.(p1 := p) else cp.(p2 := p)
  }

  /**
   * The time a keypoint drag stores: the pointer's time clamped onto the
   * timeline [0, duration], then snapped (to 0 below 0.1 s, else to the grid).
   */
  function DragTarget(pointerTime: real, duration: real): (r: real)
    ensures OnGrid(r) && 0.0 <= r
    ensures 0.0 <= duration ==> r <= duration + 0.1
    ensures 0.1 <= pointerTime <= duration ==> pointerTime - 0.1 < r <= pointerTime + 0.1
    ensures pointerTime < 0.1 ==> r == 0.0
  {
    var clamped := if pointerTime < 0.0 then 0.0 else if pointerTime > duration then duration else pointerTime;
    DragSnap(clamped)
  }

  // ---------------------------------------------------------------- lemmas

  /** Two tracks with the same ids position by position answer every findIndex alike. */
  lemma {:induction false} FindIndexSameIds(s: seq<Keypoint>, s': seq<Keypoint>, id: nat)
    requires |s| == |s'|
    requires forall j :: 0 <= j < |s| ==> s[j].id == s'[j].id
    ensures FindIndex(s, id) == FindIndex(s', id)
    decreases |s|
  {
    if |s| > 0 && s[0].id != id {
      FindIndexSameIds(s[1..], s'[1..], id);
    }
  }

  /**
   * Dragging a keypoint of a valid track to its own time, within the timeline,
   * leaves the track exactly as it was.
   */
  lemma RetimeToOwnTime(s: seq<Keypoint>, i: nat, d: real)
    requires TrackValid(s) && i < |s| && s[i].time <= d
    ensures RetimeAt(s, i, DragTarget(s[i].time, d)) == s
  {
    var t := s[i].time;
    assert s[i] in s;
    if t < 0.1 {
      assert (t / 0.2).Floor == 0;
    }
    assert DragTarget(t, d) == t;
    assert s[i := s[i].(time := t)] == s;
    SortBySortedIsIdentity(s, TimeOf);
  }

  /**
   * Re-reading the handles keeps them in the unit square and makes the editor
   * show the selected keypoint; when it already did, nothing changes.
   */
  lemma RefreshedShows(t: Tracks, counter: nat, sel: Option<Selection>, cp: Curve)
    requires StoreValid(t, counter) && CurveInUnit(cp)
    ensures CurveInUnit(Refreshed(t, sel, cp))
    ensures ShowsSelected(t, sel, Refreshed(t, sel, cp))
    ensures ShowsSelected(t, sel, cp) ==> Refreshed(t, sel, cp) == cp
  {
    var found := SelectedKeypoint(t, sel);
    if found.Some? {
      var s := t.Get(sel.value.axis);
      assert found.value in s;
      assert TrackValid(s);
      assert KeypointValid(found.value);
    }
  }

  /**
   * Editing the selected keypoint's easing keeps the store invariant and the id
   * bag, and the selection then resolves to the edited keypoint.
   */
  lemma EditEasingPreserves(t: Tracks, counter: nat, sel: Option<Selection>, easing: string, curve: Option<Curve>)
    requires StoreValid(t, counter)
    requires curve.Some? ==> CurveInUnit(curve.value)
    ensures StoreValid(EditEasing(t, sel, easing, curve), counter)
    ensures IdBag(EditEasing(t, sel, easing, curve)) == IdBag(t)
    ensures SelectedKeypoint(t, sel).None? ==> EditEasing(t, sel, easing, curve) == t
    ensures SelectedKeypoint(t, sel).Some? ==>
      SelectedKeypoint(EditEasing(t, sel, easing, curve), sel) ==
        Some(SelectedKeypoint(t, sel).value.(easing := easing, curve := curve))
  {
    if sel.Some? {
      var a := sel.value.axis;
      var s := t.Get(a);
      var found := FindIndex(s, sel.value.id);
      if found.Some? {
        var i := found.value;
        var s' := s[i := s[i].(easing := easing, curve := curve)];
        EasingEditPreservesStore(t, counter, a, i, easing, curve);
        FindIndexSameIds(s, s', sel.value.id);
        assert EditEasing(t, sel, easing, curve).Get(a) == s';
      }
    }
  }

  /** Editing easing fields moves no keypoint in time: a bound on every time still holds. */
  lemma EditEasingKeepsTimes(t: Tracks, sel: Option<Selection>, easing: string, curve: Option<Curve>, bound: real)
    requires forall k :: k in t.All() ==> k.time <= bound
    ensures forall k :: k in EditEasing(t, sel, easing, curve).All() ==> k.time <= bound
  {
    var t' := EditEasing(t, sel, easing, curve);
    if t' != t {
      var a := sel.value.axis;
      var s := t.Get(a);
      var i := FindIndex(s, sel.value.id).value;
      var s' := s[i := s[i].(easing := easing, curve := curve)];
      forall m | 0 <= m < |s'| ensures s'[m].time <= bound {
        assert s[m] in t.Get(a);
        assert s[m] in t.All();
      }
      forall k | k in t'.All() ensures k.time <= bound {
        forall b ensures k in t'.Get(b) ==> k.time <= bound {
          if k in t'.Get(b) && b != a {
            assert k in t.Get(b);
            assert k in t.All();
          }
        }
        assert k in t'.Get(X) || k in t'.Get(Y) || k in t'.Get(Z);
      }
    }
  }

  /**
   * Once a handle drag has stored the handles cp as the selected keypoint's
   * custom curve, the curve editor shows that keypoint; with no keypoint found
   * there is nothing it must show.
   */
  lemma CustomEditShows(t: Tracks, counter: nat, sel: Option<Selection>, cp: Curve)
    requires StoreValid(t, counter) && CurveInUnit(cp)
    ensures ShowsSelected(EditEasing(t, sel, "custom", Some(cp)), sel, cp)
  {
    EditEasingPreserves(t, counter, sel, "custom", Some(cp));
  }

  /**
   * Once a preset edit has stored name on the selected keypoint and dropped its
   * custom curve, the curve editor shows that keypoint when it shows the
   * preset's handles.
   */
  lemma PresetEditShows(t: Tracks, counter: nat, sel: Option<Selection>, name: string)
    requires StoreValid(t, counter) && SelectedKeypoint(t, sel).Some?
    ensures ShowsSelected(EditEasing(t, sel, name, None), sel, PresetControlPoints(name))
  {
    EditEasingPreserves(t, counter, sel, name, None);
  }

  /** Deleting an id the selection does not name leaves the selected keypoint as it was. */
  lemma DeleteKeepsOtherSelection(t: Tracks, counter: nat, a: Axis, id: nat, sel: Option<Selection>)
    requires StoreValid(t, counter)
    requires sel.Some? && sel.value.id != id
    ensures SelectedKeypoint(t.With(a, RemoveId(t.Get(a), id)), sel) == SelectedKeypoint(t, sel)
  {
    var b := sel.value.axis;
    if b == a {
      var s := t.Get(a);
      var s' := RemoveId(s, id);
      var old_ := SelectedKeypoint(t, sel);
      var new_ := SelectedKeypoint(t.With(a, s'), sel);
      if old_.Some? {
        RemoveIdMembers(s, id, old_.value);
        assert new_.Some?;
        RemoveIdMembers(s, id, new_.value);
        SameIdSameKeypoint(t, counter, a, old_.value, new_.value);
      } else if new_.Some? {
        RemoveIdMembers(s, id, new_.value);
      }
    }
  }

  /** Under the store invariant a track holds at most one keypoint with a given id. */
  lemma SameIdSameKeypoint(t: Tracks, counter: nat, a: Axis, k1: Keypoint, k2: Keypoint)
    requires StoreValid(t, counter)
    requires k1 in t.Get(a) && k2 in t.Get(a) && k1.id == k2.id
    ensures k1 == k2
  {
    var s := t.Get(a);
    var i :| 0 <= i < |s| && s[i] == k1;
    var j :| 0 <= j < |s| && s[j] == k2;
    if i < j {
      StoreIdsUnique(t, counter, a, i, j);
    } else if j < i {
      StoreIdsUnique(t, counter, a, j, i);
    }
  }

  // ------------------------------------------------------ editor invariant

  /**
   * The editor invariant on the state's values: the store is valid with every
   * id below the counter; the timeline is at least 2 s long and covers every
   * keypoint; the handles lie in the unit square and show the selected keypoint.
   */
  ghost predicate EditorInvariant(t: Tracks, counter: nat, duration: real, sel: Option<Selection>, cp: Curve)
  {
    && StoreValid(t, counter)
    && 2.0 <= duration
    && (forall k :: k in t.All() ==> k.time <= duration)
    && CurveInUnit(cp)
    && ShowsSelected(t, sel, cp)
  }

  /** The state on page load satisfies the invariant. */
  lemma InitialInvariant()
    ensures EditorInvariant(NoTracks, 0, 10.0, None, DefaultHandles)
  {
    assert Project([], IdOf) == [];
  }

  /** The duration update after a change to the tracks restores the timeline part of the invariant. */
  lemma UpdatedDurationCovers(t: Tracks, d: real)
    ensures 2.0 <= UpdatedDuration(t, d)
    ensures forall k :: k in t.All() ==> k.time <= UpdatedDuration(t, d)
  {
    UpdatedDurationIsMax(t, d);
  }

  /**
   * addKeypoint keeps the invariant: the new keypoint takes the counter as its
   * id, the counter moves on, the duration covers the new time, and the
   * handles are re-read from the selection.
   */
  lemma AddKeepsInvariant(t: Tracks, counter: nat, d: real, sel: Option<Selection>, cp: Curve,
                          a: Axis, time: real, value: real)
    requires EditorInvariant(t, counter, d, sel, cp)
    requires 0.0 <= time && OnGrid(time)
    ensures var t' := t.With(a, AddToTrack(t.Get(a), NewKeypoint(counter, time, value)));
      EditorInvariant(t', counter + 1, UpdatedDuration(t', d), sel, Refreshed(t', sel, cp))
  {
    var t' := t.With(a, AddToTrack(t.Get(a), NewKeypoint(counter, time, value)));
    AddPreservesStore(t, counter, a, time, value);
    RefreshedShows(t', counter + 1, sel, cp);
    UpdatedDurationCovers(t', d);
  }

  /**
   * deleteKeypoint keeps the invariant: the store stays valid, the duration
   * covers what is left, and a selection naming the deleted id is cleared.
   */
  lemma DeleteKeepsInvariant(t: Tracks, counter: nat, d: real, sel: Option<Selection>, cp: Curve, a: Axis, id: nat)
    requires EditorInvariant(t, counter, d, sel, cp)
    ensures var t' := t.With(a, RemoveId(t.Get(a), id));
      var sel' := if sel.Some? && sel.value.id == id then None else sel;
      EditorInvariant(t', counter, UpdatedDuration(t', d), sel', Refreshed(t', sel, cp))
  {
    var t' := t.With(a, RemoveId(t.Get(a), id));
    DeletePreservesStore(t, counter, a, id);
    RefreshedShows(t', counter, sel, cp);
    UpdatedDurationCovers(t', d);
  }

  /** A keypoint drag keeps the invariant: the retimed track is valid and the duration covers the new time. */
  lemma RetimeKeepsInvariant(t: Tracks, counter: nat, d: real, sel: Option<Selection>, cp: Curve,
                             a: Axis, i: nat, time: real)
    requires EditorInvariant(t, counter, d, sel, cp)
    requires i < |t.Get(a)| && 0.0 <= time && OnGrid(time)
    ensures var t' := t.With(a, RetimeAt(t.Get(a), i, time));
      EditorInvariant(t', counter, UpdatedDuration(t', d), sel, Refreshed(t', sel, cp))
  {
    var t' := t.With(a, RetimeAt(t.Get(a), i, time));
    RetimePreservesStore(t, counter, a, i, time);
    RefreshedShows(t', counter, sel, cp);
    UpdatedDurationCovers(t', d);
  }

  /** Selecting any axis and id keeps the invariant once the handles are re-read. */
  lemma SelectKeepsInvariant(t: Tracks, counter: nat, d: real, sel: Option<Selection>, cp: Curve, sel': Option<Selection>)
    requires EditorInvariant(t, counter, d, sel, cp)
    ensures EditorInvariant(t, counter, d, sel', Refreshed(t, sel', cp))
  {
    RefreshedShows(t, counter, sel', cp);
  }

  /**
   * A preset change keeps the invariant, and re-rendering afterwards leaves the
   * preset's handles in place: the edited keypoint shows exactly them.
   */
  lemma PresetKeepsInvariant(t: Tracks, counter: nat, d: real, sel: Option<Selection>, cp: Curve, name: string)
    requires EditorInvariant(t, counter, d, sel, cp)
    ensures var t' := EditEasing(t, sel, name, None);
      var cp' := if SelectedKeypoint(t, sel).Some? then PresetControlPoints(name) else cp;
      && EditorInvariant(t', counter, d, sel, cp')
      && Refreshed(t', sel, cp') == cp'
  {
    var t' := EditEasing(t, sel, name, None);
    var cp' := if SelectedKeypoint(t, sel).Some? then PresetControlPoints(name) else cp;
    EditEasingPreserves(t, counter, sel, name, None);
    EditEasingKeepsTimes(t, sel, name, None, d);
    RefreshedShows(t', counter, sel, cp');
  }

  /**
   * A handle drag keeps the invariant, and re-rendering afterwards leaves the
   * moved handles in place: the edited keypoint's custom curve is exactly them.
   */
  lemma HandleDragKeepsInvariant(t: Tracks, counter: nat, d: real, sel: Option<Selection>, cp: Curve,
                                 index: nat, x: real, y: real)
    requires EditorInvariant(t, counter, d, sel, cp)
    requires index < 2
    ensures var cp' := MoveHandle(cp, index, x, y);
      var t' := EditEasing(t, sel, "custom", Some(cp'));
      && EditorInvariant(t', counter, d, sel, cp')
      && Refreshed(t', sel, cp') == cp'
  {
    var cp' := MoveHandle(cp, index, x, y);
    var t' := EditEasing(t, sel, "custom", Some(cp'));
    EditEasingPreserves(t, counter, sel, "custom", Some(cp'));
    EditEasingKeepsTimes(t, sel, "custom", Some(cp'), d);
    CustomEditShows(t, counter, sel, cp');
    RefreshedShows(t', counter, sel, cp');
  }

  // ----------------------------------------------------------------- state

  class KeyframeEditor {
    /** keypoints: the three tracks. */
    var keypoints: Tracks
    /** keypointIdCounter: the number of the next id. */
    var idCounter: nat
    /** timelineDuration, in seconds. */
    var timelineDuration: real
    /** selectedKeypoint. */
    var selected: Option<Selection>
    /** controlPoints: the two handles of the curve editor. */
    var controlPoints: Curve

    /** The editor invariant, on the current state. */
    ghost predicate Valid()
      reads this
    {
      EditorInvariant(keypoints, idCounter, timelineDuration, selected, controlPoints)
    }

    /** The state on page load: no keypoints, a 10 s timeline, nothing selected, default handles. */
    constructor()
      ensures Valid()
      ensures keypoints == NoTracks && idCounter == 0 && timelineDuration == 10.0
      ensures selected == None && controlPoints == DefaultHandles
    {
      keypoints := NoTracks;
      idCounter := 0;
      timelineDuration := 10.0;
      selected := None;
      controlPoints := DefaultHandles;
      InitialInvariant();
    }

    /** renderKeypoints' effect on the state, through updateSelectedKeypointUI and updateEasingCurveEditor. */
    method RenderSelection()
      modifies this
      ensures controlPoints == Refreshed(old(keypoints), old(selected), old(controlPoints))
      ensures keypoints == old(keypoints) && idCounter == old(idCounter)
      ensures timelineDuration == old(timelineDuration) && selected == old(selected)
    {
      if selected.Some? {
        var s := keypoints.Get(selected.value.axis);
        var found := FindIndex(s, selected.value.id);
        if found.Some? {
          var kp := s[found.value];
          controlPoints := PresetControlPoints(kp.easing);
          if kp.curve.Some? {
            controlPoints := kp.curve.value;
          }
        }
      }
    }

    /** updateTimelineDuration: the duration raised to every keypoint time, and to at least 2 s. */
    method UpdateTimelineDuration()
      modifies this
      ensures timelineDuration == UpdatedDuration(old(keypoints), old(timelineDuration))
      ensures keypoints == old(keypoints) && idCounter == old(idCounter)
      ensures selected == old(selected) && controlPoints == old(controlPoints)
    {
      var m := MaxKeypointTime(keypoints, timelineDuration);
      timelineDuration := if m > 2.0 then m else 2.0;
    }

    /**
     * addKeypoint: a linear keypoint with the next id, the pointer's time
     * snapped to the grid and the current value, pushed onto the axis's track,
     * which is re-sorted; then the track is re-rendered and the duration updated.
     */
    method AddKeypoint(axis: Axis, pointerTime: real, value: real)
      requires Valid() && 0.0 <= pointerTime
      modifies this
      ensures Valid()
      ensures keypoints == old(keypoints).With(axis,
        AddToTrack(old(keypoints).Get(axis), NewKeypoint(old(idCounter), SnapToGrid(pointerTime), value)))
      ensures idCounter == old(idCounter) + 1
      ensures timelineDuration == UpdatedDuration(keypoints, old(timelineDuration))
      ensures selected == old(selected)
      ensures controlPoints == Refreshed(keypoints, selected, old(controlPoints))
    {
      var kp := NewKeypoint(idCounter, SnapToGrid(pointerTime), value);
      AddKeepsInvariant(keypoints, idCounter, timelineDuration, selected, controlPoints, axis, kp.time, value);
      var t := keypoints.With(axis, SortByTime(keypoints.Get(axis) + [kp]));
      assert t == keypoints.With(axis, AddToTrack(keypoints.Get(axis), kp));
      idCounter := idCounter + 1;
      keypoints := t;
      RenderSelection();
      UpdateTimelineDuration();
    }

    /**
     * deleteKeypoint: the id filtered out of the axis's track, the track
     * re-rendered, the duration updated, and the selection cleared when it
     * named that id.
     */
    method DeleteKeypoint(axis: Axis, id: nat)
      requires Valid()
      modifies this
      ensures Valid()
      ensures keypoints == old(keypoints).With(axis, RemoveId(old(keypoints).Get(axis), id))
      ensures idCounter == old(idCounter)
      ensures timelineDuration == UpdatedDuration(keypoints, old(timelineDuration))
      ensures controlPoints == Refreshed(keypoints, old(selected), old(controlPoints))
      ensures selected == if old(selected).Some? && old(selected).value.id == id then None else old(selected)
    {
      DeleteKeepsInvariant(keypoints, idCounter, timelineDuration, selected, controlPoints, axis, id);
      var t := keypoints.With(axis, RemoveId(keypoints.Get(axis), id));
      var sel := if selected.Some? && selected.value.id == id then None else selected;
      keypoints := t;
      RenderSelection();
      UpdateTimelineDuration();
      selected := sel;
    }

    /**
     * onDrag: when the dragged id is on the axis's track, its time becomes the
     * snapped pointer time, the track is re-sorted and re-rendered and the
     * duration updated; otherwise nothing changes.
     */
    method DragKeypoint(axis: Axis, id: nat, pointerTime: real)
      requires Valid()
      modifies this
      ensures Valid()
      ensures var s := old(keypoints).Get(axis);
        var found := FindIndex(s, id);
        if found.None? then
          keypoints == old(keypoints) && timelineDuration == old(timelineDuration) && controlPoints == old(controlPoints)
        else
          && keypoints == old(keypoints).With(axis, RetimeAt(s, found.value, DragTarget(pointerTime, old(timelineDuration))))
          && timelineDuration == UpdatedDuration(keypoints, old(timelineDuration))
          && controlPoints == Refreshed(keypoints, old(selected), old(controlPoints))
      ensures idCounter == old(idCounter) && selected == old(selected)
    {
      var newTime := DragTarget(pointerTime, timelineDuration);
      var s := keypoints.Get(axis);
      var found := FindIndex(s, id);
      if found.Some? {
        var i := found.value;
        RetimeKeepsInvariant(keypoints, idCounter, timelineDuration, selected, controlPoints, axis, i, newTime);
        keypoints := keypoints.With(axis, SortByTime(s[i := s[i].(time := newTime)]));
        RenderSelection();
        UpdateTimelineDuration();
      }
    }

    /** selectKeypoint: the selection is set and the handles re-read from it. */
    method SelectKeypoint(axis: Axis, id: nat)
      requires Valid()
      modifies this
      ensures Valid()
      ensures selected == Some(Selection(axis, id))
      ensures controlPoints == Refreshed(keypoints, selected, old(controlPoints))
      ensures keypoints == old(keypoints) && idCounter == old(idCounter) && timelineDuration == old(timelineDuration)
    {
      SelectKeepsInvariant(keypoints, idCounter, timelineDuration, selected, controlPoints, Some(Selection(axis, id)));
      selected := Some(Selection(axis, id));
      RenderSelection();
    }

    /**
     * The preset dropdown's change handler: the selected keypoint, when found,
     * takes the preset name and loses its custom curve, and the editor shows
     * the preset's handles; without a found selection nothing changes.
     */
    method SetEasingPreset(name: string)
      requires Valid()
      modifies this
      ensures Valid()
      ensures keypoints == EditEasing(old(keypoints), old(selected), name, None)
      ensures controlPoints ==
        if SelectedKeypoint(old(keypoints), old(selected)).Some? then PresetControlPoints(name) else old(controlPoints)
      ensures idCounter == old(idCounter) && timelineDuration == old(timelineDuration) && selected == old(selected)
    {
      PresetKeepsInvariant(keypoints, idCounter, timelineDuration, selected, controlPoints, name);
      if selected.Some? {
        var s := keypoints.Get(selected.value.axis);
        var found := FindIndex(s, selected.value.id);
        if found.Some? {
          var i := found.value;
          keypoints := keypoints.With(selected.value.axis, s[i := s[i].(easing := name, curve := None)]);
          controlPoints := PresetControlPoints(name);
          RenderSelection();
        }
      }
    }

    /**
     * Dragging a handle of the curve editor: the handle moves to the clamped
     * point, and the selected keypoint, when found, takes the two handles as
     * its custom curve under the name "custom".
     */
    method DragControlPoint(index: nat, x: real, y: real)
      requires Valid() && index < 2
      modifies this
      ensures Valid()
      ensures controlPoints == MoveHandle(old(controlPoints), index, x, y)
      ensures keypoints == EditEasing(old(keypoints), old(selected), "custom", Some(controlPoints))
      ensures idCounter == old(idCounter) && timelineDuration == old(timelineDuration) && selected == old(selected)
    {
      HandleDragKeepsInvariant(keypoints, idCounter, timelineDuration, selected, controlPoints, index, x, y);
      controlPoints := MoveHandle(controlPoints, index, x, y);
      if selected.Some? {
        var s := keypoints.Get(selected.value.axis);
        var found := FindIndex(s, selected.value.id);
        if found.Some? {
          var i := found.value;
          keypoints := keypoints.With(selected.value.axis, s[i := s[i].(easing := "custom", curve := Some(controlPoints))]);
          RenderSelection();
        }
      }
    }
  }
}
