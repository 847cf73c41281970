/** The older revision of the main window (shotboard_app.py): the same shot
    widgets and shot list, a selection kept as two indices with -1 for "none",
    a split and a merge that leave the selection alone, and a scan that
    rebuilds the list from a frame counter. Qt widgets, the media player, the
    progress dialogs and the OpenCV decoder are outside the model; the
    per-frame change test and the cancel buttons are parameters. */
module BoardApp {
  import opened PyList
  import opened ShotDb
  import opened ShotWidgets

  /** get_selection_index_min_max: the anchor and the extent in increasing
      order. */
  function SelectionMinMax(first: int, last: int): (r: (int, int))
    ensures r.0 <= r.1
    ensures (r.0 == first && r.1 == last) || (r.0 == last && r.1 == first)
    ensures r == (Min(first, last), Max(first, last))
  {
    if first <= last then (first, last) else (last, first)
  }

  /** The shot starts detect_shots adds after frame 0 once `n` frames are
      read: `changed[k]` is the outcome of the histogram and pixel test
      between frame k - 1 and frame k, and frame 0 has nothing to be compared
      with. */
  function DetectedCuts(changed: seq<bool>, n: nat): seq<int>
    requires n <= |changed|
    decreases n
  {
    if n <= 1 then [] else DetectedCuts(changed, n - 1) + (if changed[n - 1] then [n - 1] else [])
  }

  /** The cuts increase, and they are exactly the frames 1..n-1 whose test
      passed. */
  lemma {:induction false} DetectedCutsMembers(changed: seq<bool>, n: nat)
    requires n <= |changed|
    ensures StrictlyIncreasing(DetectedCuts(changed, n))
    ensures forall x :: x in DetectedCuts(changed, n) <==> 1 <= x < n && changed[x]
    decreases n
  {
    if n > 1 {
      DetectedCutsMembers(changed, n - 1);
      var c := DetectedCuts(changed, n - 1);
      if changed[n - 1] {
        var d := c + [n - 1];
        forall i, j | 0 <= i < j < |d| ensures d[i] < d[j] {
          if j == |c| {
            assert d[i] == c[i] && c[i] in c;
          } else {
            assert d[i] == c[i] && d[j] == c[j];
          }
        }
      }
    }
  }

  /** The list detect_shots builds starts at frame 0 and increases: every
      cut comes after frame 0. */
  lemma DetectedListStrict(changed: seq<bool>, n: nat)
    requires n <= |changed|
    ensures StrictlyIncreasing([0] + DetectedCuts(changed, n))
  {
    DetectedCutsMembers(changed, n);
    var c := DetectedCuts(changed, n);
    forall i | 0 <= i < |c| ensures 1 <= c[i] {
      assert c[i] in c;
    }
  }

  /** Every entry of that list is a frame already read. */
  lemma DetectedListBounded(changed: seq<bool>, n: nat)
    requires n <= |changed|
    ensures forall i :: 0 <= i < |[0] + DetectedCuts(changed, n)| ==>
              0 <= ([0] + DetectedCuts(changed, n))[i] && ([0] + DetectedCuts(changed, n))[i] < Max(n, 1)
  {
    DetectedCutsMembers(changed, n);
    var c := DetectedCuts(changed, n);
    forall i | 0 <= i < |c| ensures 1 <= c[i] < n {
      assert c[i] in c;
    }
  }

  /** add_frame of a frame counter above every entry of the list puts it at
      the end. */
  method AddDetectedCut(db: ShotBoardDb, counter: nat, ghost changed: seq<bool>)
    requires 1 <= counter < |changed| && changed[counter]
    requires db.frames == [0] + DetectedCuts(changed, counter)
    modifies db
    ensures db.frames == [0] + DetectedCuts(changed, counter + 1)
    ensures db.frameCount == old(db.frameCount)
  {
    ghost var f := db.frames;
    var index := db.AddFrame(counter);
    DetectedCutGoesLast(changed, counter, f, index);
  }

  /** bisect_left of a counter above every entry is the end of the list. */
  lemma DetectedCutGoesLast(changed: seq<bool>, counter: nat, f: seq<int>, index: nat)
    requires 1 <= counter < |changed| && changed[counter]
    requires f == [0] + DetectedCuts(changed, counter)
    requires index <= |f| && (index < |f| ==> counter <= f[index])
    ensures InsertAt(f, index, counter) == [0] + DetectedCuts(changed, counter + 1)
  {
    assert index == |f| by {
      DetectedListBounded(changed, counter);
    }
    var r := InsertAt(f, index, counter);
    assert r == r[..index] + [r[index]];
  }

  /** The widget for entry `i`, unhighlighted, over the interval
      get_start_end_frames gives for that entry: on a strictly increasing
      list, entry `i`'s own shot. */
  method NewShotWidget(db: ShotBoardDb, i: nat) returns (w: ShotWidget)
    requires i < |db.frames| && db.frames[i] >= 0
    ensures !w.selected
    ensures StrictlyIncreasing(db.frames) ==> w == ShotWidget(db.frames[i], ShotEnd(db.frames, db.frameCount, i), false)
  {
    var start, end := db.GetStartEndFrames(db.frames[i]);
    if StrictlyIncreasing(db.frames) {
      ShotOfEntry(db.frames, i);
    }
    w := ShotWidget(start, end, false);
  }

  /** create_and_display_shot_widgets: how many widgets are built when the
      progress dialog's cancel is found pressed from widget `cancelAt` on. */
  function BuiltCount(count: nat, cancelAt: Option<nat>): nat {
    if cancelAt.Some? then Min(count, cancelAt.value) else count
  }

  class ShotBoard {
    const db: ShotBoardDb
    var widgets: seq<ShotWidget>
    /** The anchor of the selection, -1 when there is none. */
    var first: int
    /** The extent of the selection, -1 when there is none. */
    var last: int

    /** The shot list is strictly increasing and the widgets show its shots. */
    predicate InStep()
      reads this, db
    {
      AscendingPairs(db.frames) && Coherent(widgets, db.frames, db.frameCount)
    }

    /** -1 for both or for neither; otherwise both on a widget, and exactly the
        widgets between them (inclusive) are highlighted. */
    predicate SelectionValid()
      reads this
    {
      && (first == -1 <==> last == -1)
      && (first == -1 ==> NoneSelected(widgets))
      && (first != -1 ==>
            && 0 <= first < |widgets| && 0 <= last < |widgets|
            && SelectedExactly(widgets, Min(first, last), Max(first, last)))
    }

    /** The indices the deselect loop visits lie on widgets. */
    predicate ClearInRange()
      reads this
    {
      first > -1 ==> 0 <= Min(first, last) && Max(first, last) < |widgets|
    }

    constructor ()
      ensures fresh(db) && db.frames == [] && db.frameCount == 0
      ensures widgets == [] && first == -1 && last == -1
      ensures InStep() && SelectionValid()
    {
      db := new ShotBoardDb();
      widgets := [];
      first := -1;
      last := -1;
    }

    /** IsSelectionEmpty: the anchor is -1; with a valid selection, that is
        exactly when no widget is highlighted. */
    function IsSelectionEmpty(): (r: bool)
      reads this
      ensures r <==> first == -1
      ensures SelectionValid() ==> (r <==> NoneSelected(widgets))
    {
      if first == -1 then true
      else
        assert SelectionValid() ==> widgets[Min(first, last)].selected;
        false
    }

    /** Unhighlights the widgets from min to max of anchor and extent when the
        anchor is above -1, and resets both to -1. */
    method ClearShotWidgetSelection()
      requires ClearInRange()
      modifies this
      ensures first == -1 && last == -1
      ensures SameShots(widgets, old(widgets))
      ensures forall i :: 0 <= i < |widgets| ==>
                widgets[i].selected ==
                  (old(widgets)[i].selected &&
                   !(old(first) > -1 && Min(old(first), old(last)) <= i <= Max(old(first), old(last))))
      ensures old(SelectionValid()) ==> NoneSelected(widgets) && SelectionValid()
    {
      if first > -1 {
        var mm := SelectionMinMax(first, last);
        widgets := SetSelectedRange(widgets, mm.0, mm.1 + 1, false);
      }
      first, last := -1, -1;
    }

    /** Clears the selection and selects widget `i` alone. */
    method SelectShotWidget(i: int)
      requires ClearInRange() && 0 <= i < |widgets|
      modifies this
      ensures first == i && last == i
      ensures SameShots(widgets, old(widgets)) && widgets[i].selected
      ensures forall k :: 0 <= k < |widgets| && k != i ==>
                widgets[k].selected ==
                  (old(widgets)[k].selected &&
                   !(old(first) > -1 && Min(old(first), old(last)) <= k <= Max(old(first), old(last))))
      ensures old(SelectionValid()) ==> SelectedExactly(widgets, i, i) && SelectionValid()
    {
      ClearShotWidgetSelection();
      first, last := i, i;
      widgets := widgets[i := widgets[i].(selected := true)];
    }

    /** Shift-click on widget `k`: the anchor stays (or becomes widget 0 when
        nothing was selected), the extent moves to `k`, and the highlight
        grows or shrinks to match. Clicking the extent again changes
        nothing. */
    method ExtendSelection(k: int)
      requires SelectionValid() && 0 <= k < |widgets|
      modifies this
      ensures old(last) == k ==> widgets == old(widgets) && first == old(first) && last == old(last)
      ensures old(last) != k ==> last == k && SelectedExactly(widgets, Min(first, k), Max(first, k))
      ensures old(last) != k && old(first) == -1 ==> first == 0 && SelectedExactly(widgets, 0, k)
      ensures old(last) != k && old(first) != -1 ==> first == old(first)
      ensures SameShots(widgets, old(widgets)) && SelectionValid()
    {
      if k == last {
        return;
      }
      if first == -1 {
        widgets := SetSelectedRange(widgets, 0, k + 1, true);
        first, last := 0, k;
        return;
      }
      if first <= last {
        widgets := MoveExtentFromAbove(widgets, first, last, k);
      } else {
        widgets := MoveExtentFromBelow(widgets, first, last, k);
      }
      last := k;
    }

    /** split_video of this revision: the shot holding `cut` is split there
        when the cut lies after its start and before its last frame, and
        the selection indices are left as they were. */
    method SplitVideo(cut: int)
      requires cut >= 0
      requires InStep()
      modifies this, db
      ensures InStep() && db.frameCount == old(db.frameCount)
      ensures first == old(first) && last == old(last)
      ensures old(|widgets|) == 0 || !SplitAccepted(old(db.frames), old(db.frameCount), cut) ==>
                widgets == old(widgets) && db.frames == old(db.frames)
      ensures old(|widgets|) > 0 && SplitAccepted(old(db.frames), old(db.frameCount), cut) ==>
                && db.frames == InsertAt(old(db.frames), ShotOf(old(db.frames), cut) + 1, cut)
                && widgets == SplitAt(old(widgets), ShotOf(old(db.frames), cut), cut)
    {
      if |widgets| == 0 {
        return;
      }
      ghost var frames0 := db.frames;
      AscendingPairsAreStrict(frames0);
      var start, end := db.GetStartEndFrames(cut);
      SplitGuard(frames0, db.frameCount, cut, start, end);
      if cut <= start || cut >= end - 1 {
        return;
      }
      ghost var j := ShotOf(frames0, cut);
      ghost var ws0 := widgets;
      SplitShot(cut, end, j);
      assert db.frames == InsertAt(frames0, j + 1, cut) && widgets == SplitAt(ws0, j, cut);
    }

    /** The accepted part of split_video: the cut is added after entry `j`
        and widget `j` is split there. */
    method SplitShot(cut: int, end: int, ghost j: nat)
      requires StrictlyIncreasing(db.frames) && Coherent(widgets, db.frames, db.frameCount)
      requires j < |db.frames| && db.frames[j] < cut < ShotEnd(db.frames, db.frameCount, j) == end
      modifies this, db
      ensures db.frames == InsertAt(old(db.frames), j + 1, cut) && db.frameCount == old(db.frameCount)
      ensures widgets == SplitAt(old(widgets), j, cut)
      ensures first == old(first) && last == old(last)
      ensures InStep()
    {
      var ws, _ := AddCut(db, widgets, cut, end, j);
      StrictHasAscendingPairs(db.frames);
      widgets := ws;
    }

    /** merge_selected_shots of this revision: the first selected shot now
        ends where the last selected one ended, the entries after it up to
        the last selected are deleted from the list and the widgets, and
        nothing is selected afterwards. Without a selection nothing changes.
        The two deletions take the same positions whether or not the
        widgets show the list's shots; a board in step stays in step. */
    method MergeSelectedShots()
      requires SelectionValid()
      modifies this, db
      ensures SelectionValid() && first == -1 && last == -1
      ensures db.frameCount == old(db.frameCount)
      ensures old(first) == -1 ==> widgets == old(widgets) && db.frames == old(db.frames)
      ensures old(first) != -1 ==>
                MergedFrom(db.frames, widgets, old(db.frames), old(widgets),
                           Min(old(first), old(last)), Max(old(first), old(last)))
      ensures old(InStep()) ==> InStep()
      ensures old(InStep()) && old(first) != -1 ==>
                MergedShotSpans(widgets, old(db.frames), old(db.frameCount), Min(old(first), old(last)), Max(old(first), old(last)))
    {
      if |widgets| == 0 || IsSelectionEmpty() {
        return;
      }
      var mm := SelectionMinMax(first, last);
      MergeShots(mm.0, mm.1);
    }

    /** The merge of shots lo..hi once the selection is known to span them. */
    method MergeShots(lo: nat, hi: nat)
      requires SelectionValid()
      requires first != -1 && lo == Min(first, last) && hi == Max(first, last)
      modifies this, db
      ensures SelectionValid() && first == -1 && last == -1
      ensures db.frameCount == old(db.frameCount)
      ensures MergedFrom(db.frames, widgets, old(db.frames), old(widgets), lo, hi)
      ensures old(InStep()) ==> InStep() && MergedShotSpans(widgets, old(db.frames), old(db.frameCount), lo, hi)
    {
      ghost var ws0, frames0 := widgets, db.frames;
      widgets := widgets[lo := widgets[lo].(end := widgets[hi].end)];
      ExtendEndKeepsSelection(ws0, lo, ws0[hi].end, lo, hi);
      assert SelectionValid();
      ClearShotWidgetSelection();
      DeleteMerged(lo, hi, ws0, frames0);
    }

    /** The deletions of the merge, on an unhighlighted board whose widget
        `lo` already ends where widget `hi` did. */
    method DeleteMerged(lo: nat, hi: nat, ghost ws0: seq<ShotWidget>, ghost frames0: seq<int>)
      requires lo <= hi < |ws0|
      requires db.frames == frames0 && first == -1 && last == -1
      requires SameShots(widgets, ws0[lo := ws0[lo].(end := ws0[hi].end)]) && NoneSelected(widgets)
      modifies this, db
      ensures SelectionValid() && first == -1 && last == -1
      ensures db.frameCount == old(db.frameCount)
      ensures MergedFrom(db.frames, widgets, frames0, ws0, lo, hi)
      ensures AscendingPairs(frames0) && Coherent(ws0, frames0, db.frameCount) ==>
                InStep() && MergedShotSpans(widgets, frames0, db.frameCount, lo, hi)
    {
      MergeDeletion(ws0, widgets, frames0, db.frameCount, lo, hi);
      widgets := DelSlice(widgets, lo + 1, hi + 1);
      db.DeleteSlice(lo + 1, hi + 1);
    }

    /** Rebuilds one widget per entry of the shot list, each showing the
        interval get_start_end_frames gives for its entry, until the cancel
        of the progress dialog is found pressed before widget `cancelAt`
        (None: never). The selection indices are left as they were. */
    method CreateAndDisplayShotWidgets(cancelAt: Option<nat>)
      requires forall i :: 0 <= i < |db.frames| ==> db.frames[i] >= 0
      modifies this
      ensures |widgets| == BuiltCount(|db.frames|, cancelAt)
      ensures NoneSelected(widgets)
      ensures StrictlyIncreasing(db.frames) ==>
                forall i :: 0 <= i < |widgets| ==>
                  widgets[i] == ShotWidget(db.frames[i], ShotEnd(db.frames, db.frameCount, i), false)
      ensures StrictlyIncreasing(db.frames) && |widgets| == |db.frames| ==> InStep()
      ensures first == old(first) && last == old(last)
    {
      widgets := [];
      var i := 0;
      while i < |db.frames|
        invariant i <= |db.frames| && |widgets| == i
        invariant cancelAt.Some? ==> i <= cancelAt.value
        invariant NoneSelected(widgets)
        invariant StrictlyIncreasing(db.frames) ==>
                    forall k :: 0 <= k < i ==>
                      widgets[k] == ShotWidget(db.frames[k], ShotEnd(db.frames, db.frameCount, k), false)
        invariant first == old(first) && last == old(last)
      {
        if cancelAt.Some? && i >= cancelAt.value {
          break;
        }
        var w := NewShotWidget(db, i);
        widgets := widgets + [w];
        i := i + 1;
      }
    }

    /** The rebuild with the selection dropped first, as set_video of the
        later revision does when it calls clear_shot_widgets (shotboard.py:889,
        which deselects at 780-781) before it builds the new widget:
        afterwards nothing is selected, whatever the new list holds. The
        later revision's Open Shot List does not do this: it rebuilds through
        create_and_display_shot_widgets (shotboard.py:485), which resets only
        the widget list (796-798) and keeps the same stale indices. */
    method RebuildShotWidgets(cancelAt: Option<nat>)
      requires SelectionValid()
      requires forall i :: 0 <= i < |db.frames| ==> db.frames[i] >= 0
      modifies this
      ensures first == -1 && last == -1 && NoneSelected(widgets) && SelectionValid()
      ensures |widgets| == BuiltCount(|db.frames|, cancelAt)
      ensures StrictlyIncreasing(db.frames) ==>
                forall i :: 0 <= i < |widgets| ==>
                  widgets[i] == ShotWidget(db.frames[i], ShotEnd(db.frames, db.frameCount, i), false)
      ensures StrictlyIncreasing(db.frames) && |widgets| == |db.frames| ==> InStep()
    {
      ClearShotWidgetSelection();
      CreateAndDisplayShotWidgets(cancelAt);
    }

    /** detect_shots: without a video nothing happens. Otherwise the list is
        reset to [0] and the frames are read one by one; from the second
        frame on, a frame whose change test passed starts a shot at the
        frame counter. Reading stops when no frame is left or when the
        cancel, checked after each frame, is found pressed: `cancelAfter` is
        the number of frames read before the first check that finds it
        pressed. The widgets are then rebuilt from the list. Returns the
        number of frames read. */
    method DetectShots(videoOpened: bool, changed: seq<bool>, cancelAfter: Option<nat>, widgetCancelAt: Option<nat>)
        returns (counter: nat)
      modifies this, db
      ensures !videoOpened ==>
                counter == 0 && widgets == old(widgets) && db.frames == old(db.frames)
      ensures db.frameCount == old(db.frameCount) && first == old(first) && last == old(last)
      ensures videoOpened ==>
                && counter <= |changed|
                && (cancelAfter.Some? ==> counter <= Max(cancelAfter.value, 1))
                && (counter == |changed| || (cancelAfter.Some? && counter == Max(cancelAfter.value, 1)))
                && db.frames == [0] + DetectedCuts(changed, counter)
                && |widgets| == BuiltCount(|db.frames|, widgetCancelAt)
                && (forall i :: 0 <= i < |widgets| ==>
                      widgets[i] == ShotWidget(db.frames[i], ShotEnd(db.frames, db.frameCount, i), false))
      ensures videoOpened && widgetCancelAt.None? ==> InStep() && NoneSelected(widgets)
    {
      if !videoOpened {
        return 0;
      }
      db.Clear();
      var _ := db.AddFrame(0);
      counter := ReadFrames(changed, cancelAfter);
      DetectedListStrict(changed, counter);
      DetectedListBounded(changed, counter);
      if db.Len() > 0 {
        CreateAndDisplayShotWidgets(widgetCancelAt);
      }
    }

    /** The frame loop of detect_shots, on the list [0]: one frame per turn
        until no frame is left or the cancel is found pressed. */
    method ReadFrames(changed: seq<bool>, cancelAfter: Option<nat>) returns (counter: nat)
      requires db.frames == [0]
      modifies db
      ensures counter <= |changed|
      ensures cancelAfter.Some? ==> counter <= Max(cancelAfter.value, 1)
      ensures counter == |changed| || (cancelAfter.Some? && counter == Max(cancelAfter.value, 1))
      ensures db.frames == [0] + DetectedCuts(changed, counter)
      ensures db.frameCount == old(db.frameCount)
    {
      var hasPrevFrame := false;
      counter := 0;
      assert DetectedCuts(changed, 0) == [];
      while counter < |changed|
        invariant counter <= |changed|
        invariant hasPrevFrame <==> counter > 0
        invariant cancelAfter.Some? ==> counter < Max(cancelAfter.value, 1)
        invariant db.frames == [0] + DetectedCuts(changed, counter)
        invariant db.frameCount == old(db.frameCount)
        decreases |changed| - counter
      {
        if hasPrevFrame && changed[counter] {
          AddDetectedCut(db, counter, changed);
        }
        hasPrevFrame := true;
        counter := counter + 1;
        if cancelAfter.Some? && counter >= cancelAfter.value {
          break;
        }
      }
    }
  }

  /** A board showing the four shots [0, 10, 20, 30] of a 100-frame video,
      with shots 2..3 selected by a click on shot 2 and a shift-click on
      shot 3. */
  method SelectedFourShotBoard() returns (b: ShotBoard)
    ensures fresh(b) && fresh(b.db)
    ensures b.db.frames == [0, 10, 20, 30] && |b.widgets| == 4
    ensures b.first == 2 && b.last == 3 && b.SelectionValid()
  {
    b := new ShotBoard();
    var four := [0, 10, 20, 30];
    SortedDistinctOfStrict(four);
    b.db.SetFrames(100, four);
    b.CreateAndDisplayShotWidgets(None);
    assert |b.widgets| == 4 && b.first == -1 && b.SelectionValid();
    b.SelectShotWidget(2);
    b.ExtendSelection(3);
  }

  /** Shots 2..3 of a four-shot list are selected, then Open Shot List loads
      a list of two shots and create_and_display_shot_widgets rebuilds the
      widgets. The selection indices stay at 2 and 3, so the next
      clear_shot_widget_selection (a click on the scroll area) visits widget
      2 of 2, which Python refuses with IndexError; extend and merge read the
      same indices. */
  method StaleSelectionAfterReload() returns (b: ShotBoard)
    ensures b.db.frames == [0, 50] && |b.widgets| == 2
    ensures b.first == 2 && b.last == 3
    ensures !b.ClearInRange() && !b.SelectionValid()
  {
    b := SelectedFourShotBoard();
    LoadTwoShots(b.db);
    b.CreateAndDisplayShotWidgets(None);
  }

  /** load_from_json of the document holding the two shots [0, 50) and
      [50, 100). */
  method LoadTwoShots(db: ShotBoardDb)
    modifies db
    ensures db.frames == [0, 50] && db.frameCount == 100
  {
    SortedDistinctOfStrict([0, 50]);
    db.LoadFromJson(Some(ShotList(100, [0, 50])));
  }

  /** On the board [0, 10), [10, 20) with the second shot selected, a split
      at frame 5 is accepted and moves the selected widget to index 2, while
      the selection indices stay on index 1, now the new unhighlighted shot
      [5, 10): the selection no longer matches the highlight. */
  lemma SplitLeavesSelectionStale()
    ensures var frames, ws := [0, 10], [ShotWidget(0, 10, false), ShotWidget(10, 20, true)];
            && Coherent(ws, frames, 20) && SelectedExactly(ws, 1, 1)
            && SplitAccepted(frames, 20, 5) && ShotOf(frames, 5) == 0
            && !SelectedExactly(SplitAt(ws, 0, 5), 1, 1)
            && SplitAt(ws, 0, 5)[2] == ShotWidget(10, 20, true)
  {
    var frames, ws := [0, 10], [ShotWidget(0, 10, false), ShotWidget(10, 20, true)];
    assert ShotOf(frames, 5) == ShotOf(frames[..1], 5) == 0;
    assert SplitAt(ws, 0, 5) == [ShotWidget(0, 5, false), ShotWidget(5, 10, false), ShotWidget(10, 20, true)];
  }
}
