/** The shot-board editing logic of the main window (shotboard.py): the
    selection of shot widgets, splitting a shot at the current frame, merging
    the selected shots, and the scan that adds a cut wherever the similarity
    of consecutive frames dips and recovers. The selection is an anchor
    (`first`) and an extent (`last`), or none. Qt widgets, the media player,
    the progress dialog and the decoder are outside the model; the frame
    similarities the scan reads and the cancel button are parameters. */
module Board {
  import opened PyList
  import opened ShotDb
  import opened ShotWidgets

  const MIN_SSIM_DROP_THRESHOLD: real := 0.05
  const MAX_SSIM_DROP_THRESHOLD: real := 0.30

  /** get_selection_index_min_max: nothing for an empty selection, the anchor
      alone when there is no extent, and otherwise the same two indices in
      increasing order. */
  function SelectionMinMax(first: Option<int>, last: Option<int>): (r: (Option<int>, Option<int>))
    ensures first.None? ==> r == (None, None)
    ensures first.Some? && last.None? ==> r == (first, None)
    ensures first.Some? && last.Some? ==>
              && r.0 == Some(Min(first.value, last.value))
              && r.1 == Some(Max(first.value, last.value))
              && r.0.value <= r.1.value
              && {r.0.value, r.1.value} == {first.value, last.value}
  {
    if first.None? then (None, None)
    else if last.None? then (first, None)
    else if first.value <= last.value then (first, last)
    else (last, first)
  }

  /** The dip-and-recover rule: the previous similarity `p` is lower than the
      one before it (`pp`) and the current one (`c`) by the threshold `t`, or
      by at least MAX_SSIM_DROP_THRESHOLD before and MIN_SSIM_DROP_THRESHOLD
      after. */
  predicate CutRule(pp: real, p: real, c: real, t: real) {
    || (pp - p >= t && c - p >= t)
    || (pp - p >= MAX_SSIM_DROP_THRESHOLD && c - p >= MIN_SSIM_DROP_THRESHOLD)
  }

  /** The cuts the scan of a range starting at `start` adds while it reads
      the first `m` frames. `ssims[k]` is the similarity of frame k of the
      range with frame k-1 (`ssims[0]` is never used); the frame at offset k
      is judged once ssims[k-2] and ssims[k-1] exist, so from k = 3 on, and a
      cut goes on the frame before it. */
  function SsimCuts(ssims: seq<real>, t: real, start: int, m: nat): seq<int>
    requires m <= |ssims|
  {
    if m < 4 then []
    else SsimCuts(ssims, t, start, m - 1) +
         (if CutRule(ssims[m - 3], ssims[m - 2], ssims[m - 1], t) then [start + m - 2] else [])
  }

  /** The cuts increase and lie strictly inside the range read, away from
      its first frame: each is at least start + 2 and at most start + m - 2. */
  lemma {:induction false} SsimCutsBounds(ssims: seq<real>, t: real, start: int, m: nat)
    requires m <= |ssims|
    ensures StrictlyIncreasing(SsimCuts(ssims, t, start, m))
    ensures forall i :: 0 <= i < |SsimCuts(ssims, t, start, m)| ==>
              start + 2 <= SsimCuts(ssims, t, start, m)[i] <= start + m - 2
  {
    if m >= 4 {
      SsimCutsBounds(ssims, t, start, m - 1);
    }
  }

  /** A frame is cut exactly when the rule holds at the offset after it. */
  lemma {:induction false} SsimCutsMembership(ssims: seq<real>, t: real, start: int, m: nat, x: int)
    requires m <= |ssims|
    ensures x in SsimCuts(ssims, t, start, m) <==>
              exists k :: 3 <= k < m && x == start + k - 1 && CutRule(ssims[k - 2], ssims[k - 1], ssims[k], t)
  {
    if m >= 4 {
      SsimCutsMembership(ssims, t, start, m - 1, x);
      if x == start + m - 2 && CutRule(ssims[m - 3], ssims[m - 2], ssims[m - 1], t) {
        assert 3 <= m - 1 < m;
      }
    }
  }

  /** A one-frame dip in similarity at offset 3 gives one cut, on frame 3 of
      the range. */
  lemma SsimCutsExample(start: int)
    ensures SsimCuts([1.0, 1.0, 1.0, 0.5, 1.0, 1.0], 0.2, start, 6) == [start + 3]
  {
    var s := [1.0, 1.0, 1.0, 0.5, 1.0, 1.0];
    assert SsimCuts(s, 0.2, start, 3) == [];
    assert !CutRule(s[1], s[2], s[3], 0.2);
    assert SsimCuts(s, 0.2, start, 4) == [];
    assert CutRule(s[2], s[3], s[4], 0.2);
    assert SsimCuts(s, 0.2, start, 5) == [start + 3];
    assert !CutRule(s[3], s[4], s[5], 0.2);
  }

  class ShotBoard {
    const db: ShotBoardDb
    var widgets: seq<ShotWidget>
    var first: Option<int>
    var last: Option<int>

    /** The shot list is strictly increasing and the widgets show its shots. */
    predicate InStep()
      reads this, db
    {
      AscendingPairs(db.frames) && Coherent(widgets, db.frames, db.frameCount)
    }

    /** An anchor exactly when an extent, both on a widget, and the widgets
        between them (inclusive) are the highlighted ones. */
    predicate SelectionValid()
      reads this
    {
      && (first.None? <==> last.None?)
      && (first.None? ==> NoneSelected(widgets))
      && (first.Some? ==>
            && 0 <= first.value < |widgets| && 0 <= last.value < |widgets|
            && SelectedExactly(widgets, Min(first.value, last.value), Max(first.value, last.value)))
    }

    /** The board during the scan of shot `w` after `n` frames: the list is
        the one before the scan with the cuts of those frames after entry `w`,
        the widgets show its shots, the selection indices do not move, and a
        selection that ended at or before shot `w` stays valid. */
    predicate Scanning(frames0: seq<int>, frameCount0: int, w: nat, start: int, ssims: seq<real>, t: real, n: nat,
                       first0: Option<int>, last0: Option<int>, selKept: bool)
      reads this, db
    {
      && w < |frames0| && n <= |ssims|
      && db.frames == frames0[..w + 1] + SsimCuts(ssims, t, start, n) + frames0[w + 1..]
      && db.frameCount == frameCount0 && Coherent(widgets, db.frames, db.frameCount)
      && first == first0 && last == last0
      && (selKept ==> SelectionValid() && (first.None? || Max(first.value, last.value) <= w))
    }

    constructor ()
      ensures fresh(db) && db.frames == [] && db.frameCount == 0
      ensures widgets == [] && first == None && last == None
      ensures InStep() && SelectionValid()
    {
      db := new ShotBoardDb();
      widgets := [];
      first := None;
      last := None;
    }

    /** No anchor; with a valid selection, that is exactly when no widget is
        highlighted. */
    function IsSelectionEmpty(): (r: bool)
      reads this
      ensures r <==> first.None?
      ensures SelectionValid() ==> (r <==> NoneSelected(widgets))
    {
      if first.None? then true
      else
        assert SelectionValid() ==> widgets[Min(first.value, last.value)].selected;
        false
    }

    /** Highlights every widget, anchored on the first and extended to the
        last. An empty board keeps an empty selection. The old selection is
        never read, so this also repairs indices left stale by a rebuild. */
    method SelectAll()
      modifies this
      ensures |widgets| > 0 ==> first == Some(0) && last == Some(|widgets| - 1)
      ensures |widgets| == 0 ==> first == None && last == None
      ensures SameShots(widgets, old(widgets)) && SelectedExactly(widgets, 0, |widgets| - 1)
      ensures SelectionValid()
    {
      if |widgets| == 0 {
        first, last := None, None;
        return;
      }
      first := Some(0);
      last := Some(|widgets| - 1);
      widgets := SetSelectedRange(widgets, 0, |widgets|, true);
    }

    /** select_all as written: anchor 0 and extent len - 1 however many
        widgets there are. On an empty board that leaves a selection that
        is_selection_empty reports as not empty, and the next deselect_all
        starts at index -1, which Python refuses on an empty list with
        IndexError. */
    method SelectAllAsWritten()
      modifies this
      ensures first == Some(0) && last == Some(|widgets| - 1)
      ensures SameShots(widgets, old(widgets)) && SelectedExactly(widgets, 0, |widgets| - 1)
      ensures |widgets| == 0 ==> !SelectionValid() && !IsSelectionEmpty()
      ensures |widgets| == 0 ==> SelectionMinMax(first, last) == (Some(-1), Some(0))
    {
      first := Some(0);
      last := Some(|widgets| - 1);
      widgets := SetSelectedRange(widgets, 0, |widgets|, true);
    }

    /** Unhighlights the widgets between anchor and extent and drops the
        selection. */
    method DeselectAll()
      requires SelectionValid()
      modifies this
      ensures first == None && last == None
      ensures SameShots(widgets, old(widgets)) && NoneSelected(widgets)
      ensures SelectionValid()
    {
      if first.Some? {
        var mm := SelectionMinMax(first, last);
        widgets := SetSelectedRange(widgets, mm.0.value, mm.1.value + 1, false);
      }
      first, last := None, None;
    }

    /** Selects exactly widget `i`. */
    method SelectShotWidget(i: int)
      requires SelectionValid() && 0 <= i < |widgets|
      modifies this
      ensures first == Some(i) && last == Some(i)
      ensures SameShots(widgets, old(widgets)) && SelectedExactly(widgets, i, i)
      ensures SelectionValid()
    {
      DeselectAll();
      first, last := Some(i), Some(i);
      widgets := widgets[i := widgets[i].(selected := true)];
    }

    /** Shift-click on widget `k`: the anchor stays (or becomes widget 0 when
        nothing was selected), the extent moves to `k`, and the highlight
        grows or shrinks to match. Clicking the extent again changes
        nothing. */
    method ExtendSelection(k: int)
      requires SelectionValid() && 0 <= k < |widgets|
      modifies this
      ensures old(last) == Some(k) ==> widgets == old(widgets) && first == old(first) && last == old(last)
      ensures old(last) != Some(k) ==> last == Some(k)
      ensures old(last) != Some(k) && old(first).None? ==> first == Some(0) && SelectedExactly(widgets, 0, k)
      ensures old(last) != Some(k) && old(first).Some? ==> first == old(first)
      ensures SameShots(widgets, old(widgets)) && SelectionValid()
    {
      if last == Some(k) {
        return;
      }
      if first.None? {
        widgets := SetSelectedRange(widgets, 0, k + 1, true);
        first, last := Some(0), Some(k);
        return;
      }
      var f, l := first.value, last.value;
      if f <= l {
        widgets := MoveExtentFromAbove(widgets, f, l, k);
      } else {
        widgets := MoveExtentFromBelow(widgets, f, l, k);
      }
      last := Some(k);
    }

    /** Splits the shot holding `cut` there, when the cut lies after its
        start and before its last frame; the new shot, which starts at the
        cut, becomes the selection. The selection is dropped first, so a
        refused split still leaves nothing selected. */
    method SplitVideo(cut: int)
      requires cut >= 0
      requires InStep() && SelectionValid()
      modifies this, db
      ensures InStep() && SelectionValid()
      ensures db.frameCount == old(db.frameCount)
      ensures old(|widgets|) == 0 ==>
                widgets == old(widgets) && db.frames == old(db.frames) && first == old(first) && last == old(last)
      ensures old(|widgets|) > 0 && !SplitAccepted(old(db.frames), old(db.frameCount), cut) ==>
                db.frames == old(db.frames) && NoneSelected(widgets) && first == None && last == None
      ensures old(|widgets|) > 0 && SplitAccepted(old(db.frames), old(db.frameCount), cut) ==>
                && db.frames == InsertAt(old(db.frames), ShotOf(old(db.frames), cut) + 1, cut)
                && first == Some(ShotOf(old(db.frames), cut) + 1) && first == last
                && SelectedExactly(widgets, first.value, first.value)
    {
      if |widgets| == 0 {
        return;
      }
      ghost var frames0 := db.frames;
      AscendingPairsAreStrict(frames0);
      DeselectAll();
      var start, end := db.GetStartEndFrames(cut);
      SplitGuard(frames0, db.frameCount, cut, start, end);
      if cut <= start || cut >= end - 1 {
        return;
      }
      ghost var j := ShotOf(frames0, cut);
      SplitShot(cut, end, j);
      assert db.frames == InsertAt(frames0, j + 1, cut) && first == Some(j + 1);
    }

    /** The accepted part of split_video, on an unhighlighted board: the cut
        is added after entry `j`, widget `j` is split there and the new shot
        becomes the selection. */
    method SplitShot(cut: int, end: int, ghost j: nat)
      requires StrictlyIncreasing(db.frames) && |widgets| == |db.frames|
      requires forall i :: 0 <= i < |widgets| ==>
                 widgets[i].start == db.frames[i] && widgets[i].end == ShotEnd(db.frames, db.frameCount, i)
      requires NoneSelected(widgets) && first == None && last == None
      requires j < |db.frames| && db.frames[j] < cut < ShotEnd(db.frames, db.frameCount, j) == end
      modifies this, db
      ensures db.frames == InsertAt(old(db.frames), j + 1, cut) && db.frameCount == old(db.frameCount)
      ensures InStep() && SelectionValid()
      ensures first == Some(j + 1) && last == Some(j + 1) && SelectedExactly(widgets, j + 1, j + 1)
    {
      var ws, shotIndex := AddCut(db, widgets, cut, end, j);
      SplitKeepsNoneSelected(widgets, j, cut);
      widgets := ws;
      SelectShotWidget(shotIndex);
      SameShotsCoherent(widgets, ws, db.frames, db.frameCount);
    }

    /** Merges the selected shots into the first of them: it now ends where
        the last selected shot ended, the entries lo+1..hi are deleted from
        the list and widgets lo+1..hi from the widgets, and it becomes the
        selection. Returns that widget, or nothing when no shot is selected.
        The two deletions take the same positions whether or not the widgets
        show the list's shots; on a board that is in step it stays in step
        and the merged widget spans shots lo..hi of the list. */
    method MergeSelectedShots() returns (r: Option<ShotWidget>)
      requires SelectionValid()
      modifies this, db
      ensures SelectionValid() && db.frameCount == old(db.frameCount)
      ensures old(first).None? ==>
                r == None && widgets == old(widgets) && db.frames == old(db.frames) &&
                first == old(first) && last == old(last)
      ensures old(first).Some? ==>
                var lo, hi := Min(old(first).value, old(last).value), Max(old(first).value, old(last).value);
                && MergedFrom(db.frames, widgets, old(db.frames), old(widgets), lo, hi)
                && first == Some(lo) && last == Some(lo) && SelectedExactly(widgets, lo, lo)
                && r == Some(widgets[lo])
      ensures old(InStep()) ==> InStep()
      ensures old(InStep()) && old(first).Some? ==>
                MergedShotSpans(widgets, old(db.frames), old(db.frameCount),
                                Min(old(first).value, old(last).value), Max(old(first).value, old(last).value))
    {
      if |widgets| == 0 || IsSelectionEmpty() {
        return None;
      }
      var mm := SelectionMinMax(first, last);
      r := MergeShots(mm.0.value, mm.1.value);
    }

    /** The merge of shots lo..hi once the selection is known to span them. */
    method MergeShots(lo: nat, hi: nat) returns (r: Option<ShotWidget>)
      requires SelectionValid()
      requires first.Some? && lo == Min(first.value, last.value) && hi == Max(first.value, last.value)
      modifies this, db
      ensures SelectionValid() && db.frameCount == old(db.frameCount)
      ensures MergedFrom(db.frames, widgets, old(db.frames), old(widgets), lo, hi)
      ensures first == Some(lo) && last == Some(lo) && SelectedExactly(widgets, lo, lo)
      ensures r == Some(widgets[lo])
      ensures old(InStep()) ==> InStep() && MergedShotSpans(widgets, old(db.frames), old(db.frameCount), lo, hi)
    {
      ghost var ws0, frames0 := widgets, db.frames;
      widgets := widgets[lo := widgets[lo].(end := widgets[hi].end)];
      ExtendEndKeepsSelection(ws0, lo, ws0[hi].end, lo, hi);
      DeselectAll();
      DeleteMerged(lo, hi, ws0, frames0);
      ghost var ws2 := widgets;
      SelectShotWidget(lo);
      SameShotsTrans(widgets, ws2, MergeRange(ws0, lo, hi));
      assert widgets[lo].start == ws2[lo].start && widgets[lo].end == ws2[lo].end;
      if AscendingPairs(frames0) && Coherent(ws0, frames0, db.frameCount) {
        SameShotsCoherent(widgets, ws2, db.frames, db.frameCount);
      }
      r := Some(widgets[lo]);
    }

    /** The deletions of the merge, on an unhighlighted board whose widget
        `lo` already ends where widget `hi` did. */
    method DeleteMerged(lo: nat, hi: nat, ghost ws0: seq<ShotWidget>, ghost frames0: seq<int>)
      requires lo <= hi < |ws0|
      requires db.frames == frames0 && first == None && last == None
      requires SameShots(widgets, ws0[lo := ws0[lo].(end := ws0[hi].end)]) && NoneSelected(widgets)
      modifies this, db
      ensures first == None && last == None && NoneSelected(widgets)
      ensures db.frameCount == old(db.frameCount)
      ensures MergedFrom(db.frames, widgets, frames0, ws0, lo, hi)
      ensures AscendingPairs(frames0) && Coherent(ws0, frames0, db.frameCount) ==>
                InStep() && MergedShotSpans(widgets, frames0, db.frameCount, lo, hi)
    {
      MergeDeletion(ws0, widgets, frames0, db.frameCount, lo, hi);
      widgets := DelSlice(widgets, lo + 1, hi + 1);
      db.DeleteSlice(lo + 1, hi + 1);
    }

    /** The board after the cuts `cuts` of a scan that started on list
        `frames0` and widgets `ws0`: when that list was sorted, it is still
        sorted and the board is what ScanCuts gives. */
    predicate ScannedFrom(frames0: seq<int>, ws0: seq<ShotWidget>, cuts: seq<int>, end: int)
      reads this, db
    {
      NonDecreasing(frames0) ==> NonDecreasing(db.frames) && ScanCuts(frames0, ws0, cuts, end) == Some((db.frames, widgets))
    }

    /** The board after `n` frames of a scan that started on list `frames0`
        and widgets `ws0`: the selection indices and the frame count are as
        they were; when `ok`, the board is the one the cuts found so far
        give; otherwise the cut of frame n - 1 failed where the ones before
        it did not. On a scan of shot `w` of a board in step no cut fails
        and the board is Scanning. */
    predicate ScanReached(frames0: seq<int>, ws0: seq<ShotWidget>, fc0: int, first0: Option<int>, last0: Option<int>,
                          w: nat, start: int, end: int, ssims: seq<real>, t: real, n: nat, ok: bool,
                          selKept: bool, inStep: bool)
      reads this, db
    {
      && first == first0 && last == last0 && db.frameCount == fc0 && n <= |ssims|
      && (ok ==> ScannedFrom(frames0, ws0, SsimCuts(ssims, t, start, n), end))
      && (!ok ==> 0 < n && (NonDecreasing(frames0) ==>
                             && ScanCuts(frames0, ws0, SsimCuts(ssims, t, start, n - 1), end).Some?
                             && ScanCuts(frames0, ws0, SsimCuts(ssims, t, start, n), end) == None))
      && (inStep ==> ok && Scanning(frames0, fc0, w, start, ssims, t, n, first0, last0, selKept))
    }

    /** Scans the frames [start, end) and cuts them wherever CutRule holds.
        `ssims` are the similarities the decoder delivers, one per frame
        read. The cancel button of the progress dialog stays pressed once
        pressed: `cancelAfter` is the number of frames read before its first
        check that finds it pressed (None: never). `processed` is the number
        of frames read. On any board whose list is sorted the board becomes
        what ScanCuts gives for the cuts found so far; `ok` is false where a
        cut raised IndexError, which ends the scan. When the range is shot
        `w` of a board in step, no cut fails, each one splits the last
        segment of shot `w`, the board stays in step, and a valid selection
        that ends at or before shot `w` stays valid. */
    method DetectShotsSsim(start: int, end: int, ssims: seq<real>, t: real, cancelAfter: Option<nat>, ghost w: nat)
        returns (processed: nat, ok: bool)
      modifies this, db
      ensures processed <= |ssims| && (processed > 0 ==> start + processed <= end)
      ensures cancelAfter.Some? ==> processed <= Max(cancelAfter.value, 1)
      ensures ok ==> || start + processed >= end || processed == |ssims|
                     || (cancelAfter.Some? && processed == Max(cancelAfter.value, 1))
      ensures first == old(first) && last == old(last) && db.frameCount == old(db.frameCount)
      ensures ok ==> ScannedFrom(old(db.frames), old(widgets), SsimCuts(ssims, t, start, processed), end)
      ensures !ok ==> 0 < processed
      ensures !ok && NonDecreasing(old(db.frames)) ==>
                && ScanCuts(old(db.frames), old(widgets), SsimCuts(ssims, t, start, processed - 1), end).Some?
                && ScanCuts(old(db.frames), old(widgets), SsimCuts(ssims, t, start, processed), end) == None
      ensures old(InStep()) && w < |old(db.frames)| && old(db.frames)[w] == start
              && ShotEnd(old(db.frames), old(db.frameCount), w) == end ==>
                && ok && InStep()
                && Scanning(old(db.frames), old(db.frameCount), w, start, ssims, t, processed, old(first), old(last),
                            old(SelectionValid()) && (old(first).None? || Max(old(first).value, old(last).value) <= w))
    {
      ghost var frames0, ws0, fc0, first0, last0 := db.frames, widgets, db.frameCount, first, last;
      ghost var inStep := InStep() && w < |db.frames| && db.frames[w] == start && ShotEnd(db.frames, db.frameCount, w) == end;
      ghost var selKept := SelectionValid() && (first.None? || Max(first.value, last.value) <= w);
      ScanStartsWithoutCuts(frames0, ws0, w, ssims, t, start, end);
      processed, ok := ScanLoop(start, end, ssims, t, cancelAfter, frames0, ws0, fc0, w, first0, last0, selKept, inStep);
      if inStep {
        AscendingPairsAreStrict(frames0);
        ScanListStrict(frames0, fc0, w, start, end, ssims, t, processed);
      }
    }

    /** The frame loop of the scan, started on the list `frames0` and the
        widgets `ws0` with no frame read: one frame per turn until the end
        of the range, the last similarity, the cancel, or a failed cut. */
    method ScanLoop(start: int, end: int, ssims: seq<real>, t: real, cancelAfter: Option<nat>,
                    ghost frames0: seq<int>, ghost ws0: seq<ShotWidget>, ghost fc0: int, ghost w: nat,
                    ghost first0: Option<int>, ghost last0: Option<int>, ghost selKept: bool, ghost inStep: bool)
        returns (processed: nat, ok: bool)
      requires ScanReached(frames0, ws0, fc0, first0, last0, w, start, end, ssims, t, 0, true, selKept, inStep)
      requires inStep ==> w < |frames0| && frames0[w] == start && ShotEnd(frames0, fc0, w) == end && AscendingPairs(frames0)
      modifies this, db
      ensures processed <= |ssims| && (processed > 0 ==> start + processed <= end)
      ensures cancelAfter.Some? ==> processed <= Max(cancelAfter.value, 1)
      ensures ok ==> || start + processed >= end || processed == |ssims|
                     || (cancelAfter.Some? && processed == Max(cancelAfter.value, 1))
      ensures ScanReached(frames0, ws0, fc0, first0, last0, w, start, end, ssims, t, processed, ok, selKept, inStep)
    {
      var frameIndex := start;
      var hasPrevFrame := false;
      var prevSsim: Option<real> := None;
      var prevPrevSsim: Option<real> := None;
      processed, ok := 0, true;
      while frameIndex < end && processed < |ssims|
        invariant frameIndex == start + processed
        invariant processed <= |ssims| && (processed > 0 ==> frameIndex <= end)
        invariant hasPrevFrame <==> processed > 0
        invariant prevSsim.Some? <==> processed >= 2
        invariant prevSsim.Some? ==> prevSsim.value == ssims[processed - 1]
        invariant prevPrevSsim.Some? <==> processed >= 3
        invariant prevPrevSsim.Some? ==> prevPrevSsim.value == ssims[processed - 2]
        invariant cancelAfter.Some? ==> processed < Max(cancelAfter.value, 1)
        invariant ok && ScanReached(frames0, ws0, fc0, first0, last0, w, start, end, ssims, t, processed, true, selKept, inStep)
        decreases end - frameIndex
      {
        prevPrevSsim, prevSsim, ok := ReadFrame(start, end, ssims, t, processed, hasPrevFrame, prevSsim, prevPrevSsim,
                                                frames0, ws0, fc0, w, first0, last0, selKept, inStep);
        hasPrevFrame := true;
        frameIndex := frameIndex + 1;
        processed := processed + 1;
        if !ok || (cancelAfter.Some? && processed >= cancelAfter.value) {
          break;
        }
      }
    }

    /** Frame `k` of the scan, once read: from the fourth frame on its
        similarity is tested with the two before it; the similarities
        remembered move on by one. */
    method ReadFrame(start: int, end: int, ssims: seq<real>, t: real, k: nat, hasPrevFrame: bool,
                     prevSsim: Option<real>, prevPrevSsim: Option<real>,
                     ghost frames0: seq<int>, ghost ws0: seq<ShotWidget>, ghost frameCount0: int, ghost w: nat,
                     ghost first0: Option<int>, ghost last0: Option<int>, ghost selKept: bool, ghost inStep: bool)
        returns (prevPrevSsim': Option<real>, prevSsim': Option<real>, ok: bool)
      requires k < |ssims| && start + k < end
      requires hasPrevFrame <==> k > 0
      requires prevSsim.Some? <==> k >= 2
      requires prevSsim.Some? ==> prevSsim.value == ssims[k - 1]
      requires prevPrevSsim.Some? <==> k >= 3
      requires prevPrevSsim.Some? ==> prevPrevSsim.value == ssims[k - 2]
      requires ScanReached(frames0, ws0, frameCount0, first0, last0, w, start, end, ssims, t, k, true, selKept, inStep)
      requires inStep ==> w < |frames0| && frames0[w] == start && ShotEnd(frames0, frameCount0, w) == end && AscendingPairs(frames0)
      modifies this, db
      ensures prevSsim'.Some? <==> k + 1 >= 2
      ensures prevSsim'.Some? ==> prevSsim'.value == ssims[k]
      ensures prevPrevSsim'.Some? <==> k + 1 >= 3
      ensures prevPrevSsim'.Some? ==> prevPrevSsim'.value == ssims[k - 1]
      ensures ScanReached(frames0, ws0, frameCount0, first0, last0, w, start, end, ssims, t, k + 1, ok, selKept, inStep)
    {
      prevPrevSsim', prevSsim', ok := prevPrevSsim, prevSsim, true;
      if inStep {
        AscendingPairsAreStrict(frames0);
        ScanListStrict(frames0, frameCount0, w, start, end, ssims, t, k);
      }
      if hasPrevFrame {
        var currentSsim := ssims[k];
        if prevSsim.Some? && prevPrevSsim.Some? {
          ok := ScanFrame(start, end, ssims, t, k, frames0, ws0, w, selKept, inStep);
        } else {
          assert SsimCuts(ssims, t, start, k + 1) == SsimCuts(ssims, t, start, k);
        }
        prevPrevSsim', prevSsim' := prevSsim, Some(currentSsim);
      }
    }

    /** The test on frame `k` of the scan (k >= 3): when CutRule holds on
        the last three similarities, the frame before it starts a new
        shot. */
    method ScanFrame(start: int, end: int, ssims: seq<real>, t: real, k: nat,
                     ghost frames0: seq<int>, ghost ws0: seq<ShotWidget>, ghost w: nat, ghost selKept: bool, ghost inStep: bool)
        returns (ok: bool)
      requires 3 <= k < |ssims| && start + k < end
      requires ScannedFrom(frames0, ws0, SsimCuts(ssims, t, start, k), end)
      requires inStep ==>
                 && w < |frames0| && frames0[w] == start && ShotEnd(frames0, db.frameCount, w) == end
                 && db.frames == frames0[..w + 1] + SsimCuts(ssims, t, start, k) + frames0[w + 1..]
                 && InStep()
                 && (selKept ==> SelectionValid() && (first.None? || Max(first.value, last.value) <= w))
      modifies this, db
      ensures first == old(first) && last == old(last) && db.frameCount == old(db.frameCount)
      ensures ok ==> ScannedFrom(frames0, ws0, SsimCuts(ssims, t, start, k + 1), end)
      ensures !ok && NonDecreasing(frames0) ==> ScanCuts(frames0, ws0, SsimCuts(ssims, t, start, k + 1), end) == None
      ensures inStep ==>
                && ok && db.frames == frames0[..w + 1] + SsimCuts(ssims, t, start, k + 1) + frames0[w + 1..]
                && InStep() && (selKept ==> SelectionValid())
    {
      if CutRule(ssims[k - 2], ssims[k - 1], ssims[k], t) {
        ghost var j := w + |SsimCuts(ssims, t, start, k)|;
        ghost var next := if w < |frames0| then frames0[..w + 1] + SsimCuts(ssims, t, start, k + 1) + frames0[w + 1..] else [];
        var cutFrameIndex := start + k - 1;
        if inStep {
          AscendingPairsAreStrict(db.frames);
          ScanCutStep(frames0, db.frameCount, w, start, end, ssims, t, k, db.frames, j, cutFrameIndex);
        }
        assert SsimCuts(ssims, t, start, k + 1) == SsimCuts(ssims, t, start, k) + [cutFrameIndex];
        ScanCutsSnoc(frames0, ws0, SsimCuts(ssims, t, start, k), cutFrameIndex, end);
        ok := AddScanCut(cutFrameIndex, end, j, w, selKept, inStep, next);
      } else {
        ok := true;
        assert SsimCuts(ssims, t, start, k + 1) == SsimCuts(ssims, t, start, k);
      }
    }

    /** One cut of the scan inside the last segment `j` of shot `w`, as
        InsertScanCut makes it: on a board in step it does not fail, it is
        the split of widget `j`, and a selection that ends at or before shot
        `w` is untouched. */
    method AddScanCut(cut: int, end: int, ghost j: nat, ghost w: nat, ghost selKept: bool, ghost inStep: bool,
                      ghost next: seq<int>)
        returns (ok: bool)
      requires inStep ==>
                 && InStep()
                 && w <= j < |db.frames| && db.frames[j] < cut < ShotEnd(db.frames, db.frameCount, j) == end
                 && (selKept ==> SelectionValid() && (first.None? || Max(first.value, last.value) <= w))
                 && next == InsertAt(db.frames, j + 1, cut)
      modifies this, db
      ensures first == old(first) && last == old(last) && db.frameCount == old(db.frameCount)
      ensures NonDecreasing(old(db.frames)) ==>
                ScanStep(old(db.frames), old(widgets), cut, end) == if ok then Some((db.frames, widgets)) else None
      ensures ok && NonDecreasing(old(db.frames)) ==> NonDecreasing(db.frames)
      ensures inStep ==> ok && db.frames == next && InStep() && (selKept ==> SelectionValid())
    {
      if inStep {
        ghost var lo, hi := if selKept && first.Some? then Min(first.value, last.value) else 0,
                            if selKept && first.Some? then Max(first.value, last.value) else -1;
        ScanCutInStep(db.frames, widgets, db.frameCount, j, cut, end, lo, hi);
      }
      ok := InsertScanCut(cut, end);
    }

    /** One cut of the scan: add_shot puts it at its place in the list, a
        widget for [cut, end) is inserted at the same position, and the
        widget before it then ends at the cut; ScanStep says the same on
        values, and `ok` is false where that widget does not exist. */
    method InsertScanCut(cut: int, end: int) returns (ok: bool)
      modifies this, db
      ensures first == old(first) && last == old(last) && db.frameCount == old(db.frameCount)
      ensures NonDecreasing(old(db.frames)) ==>
                ScanStep(old(db.frames), old(widgets), cut, end) == if ok then Some((db.frames, widgets)) else None
      ensures ok && NonDecreasing(old(db.frames)) ==> NonDecreasing(db.frames)
    {
      ghost var f0 := db.frames;
      var shotIndex := db.AddFrame(cut);
      if NonDecreasing(f0) {
        SortedPositionOf(f0, cut, shotIndex);
      }
      widgets := ListInsert(widgets, shotIndex, ShotWidget(cut, end, false));
      if shotIndex > 0 {
        if shotIndex - 1 >= |widgets| {
          ok := false;
          return;
        }
        widgets := widgets[shotIndex - 1 := widgets[shotIndex - 1].(end := cut)];
      }
      ok := true;
    }
  }

  /** One cut of the scan on values, for a sorted list `frames` and any
      widgets `ws`: the cut goes to its sorted position `i` in the list, a
      widget for [cut, end), not highlighted, is inserted at position `i`
      of the widgets (appended when they are fewer), and when `i` is not 0
      widget i - 1 then ends at the cut. None where widget i - 1 does not
      exist, where Python raises IndexError: exactly when the position is
      at least two past the last widget. */
  function ScanStep(frames: seq<int>, ws: seq<ShotWidget>, cut: int, end: int): (r: Option<(seq<int>, seq<ShotWidget>)>)
    ensures r.None? <==> |ws| + 2 <= SortedPosition(frames, cut)
    ensures |frames| <= |ws| + 1 ==> r.Some?
    ensures r.Some? ==> |r.value.0| == |frames| + 1 && |r.value.1| == |ws| + 1
  {
    var i := SortedPosition(frames, cut);
    var ws1 := ListInsert(ws, i, ShotWidget(cut, end, false));
    if i == 0 then Some((InsertAt(frames, i, cut), ws1))
    else if i - 1 < |ws1| then Some((InsertAt(frames, i, cut), ws1[i - 1 := ws1[i - 1].(end := cut)]))
    else None
  }

  /** The cuts `cuts` of one scan, in order, from list `frames` and widgets
      `ws`, each ending at `end`; None once one of them fails. */
  function ScanCuts(frames: seq<int>, ws: seq<ShotWidget>, cuts: seq<int>, end: int): (r: Option<(seq<int>, seq<ShotWidget>)>)
    ensures r.Some? ==> |r.value.0| == |frames| + |cuts|
    decreases |cuts|
  {
    if |cuts| == 0 then Some((frames, ws))
    else
      var b := ScanCuts(frames, ws, cuts[..|cuts| - 1], end);
      assert cuts == cuts[..|cuts| - 1] + [cuts[|cuts| - 1]];
      if b.None? then None else ScanStep(b.value.0, b.value.1, cuts[|cuts| - 1], end)
  }

  /** A scan that does not fail adds exactly its cuts to the list and one
      widget per cut. */
  lemma {:induction false} ScanCutsAddsCuts(frames: seq<int>, ws: seq<ShotWidget>, cuts: seq<int>, end: int)
    requires ScanCuts(frames, ws, cuts, end).Some?
    ensures multiset(ScanCuts(frames, ws, cuts, end).value.0) == multiset(frames) + multiset(cuts)
    ensures |ScanCuts(frames, ws, cuts, end).value.1| == |ws| + |cuts|
    decreases |cuts|
  {
    if |cuts| > 0 {
      var init, c := cuts[..|cuts| - 1], cuts[|cuts| - 1];
      assert cuts == init + [c];
      ScanCutsAddsCuts(frames, ws, init, end);
      var b := ScanCuts(frames, ws, init, end).value;
      var r := ScanStep(b.0, b.1, c, end);
      assert ScanCuts(frames, ws, cuts, end) == r;
      assert r.value.0 == InsertAt(b.0, SortedPosition(b.0, c), c);
      assert multiset(cuts) == multiset(init) + multiset{c};
    }
  }

  /** One more cut at the end of the scan is one more ScanStep. */
  lemma ScanCutsSnoc(frames: seq<int>, ws: seq<ShotWidget>, cuts: seq<int>, cut: int, end: int)
    ensures ScanCuts(frames, ws, cuts + [cut], end) ==
              var b := ScanCuts(frames, ws, cuts, end);
              if b.None? then None else ScanStep(b.value.0, b.value.1, cut, end)
  {
    assert (cuts + [cut])[..|cuts|] == cuts;
  }

  /** On a board in step, a cut strictly inside shot `j` that ends where
      that shot ends goes right after entry `j`, and the scan step is the
      split of widget `j` there; the board stays in step. */
  lemma ScanStepSplits(frames: seq<int>, ws: seq<ShotWidget>, frameCount: int, j: nat, cut: int, end: int)
    requires StrictlyIncreasing(frames) && Coherent(ws, frames, frameCount)
    requires j < |frames| && frames[j] < cut < ShotEnd(frames, frameCount, j) == end
    ensures NonDecreasing(frames) && SortedPosition(frames, cut) == j + 1
    ensures ScanStep(frames, ws, cut, end) == Some((InsertAt(frames, j + 1, cut), SplitAt(ws, j, cut)))
    ensures StrictlyIncreasing(InsertAt(frames, j + 1, cut)) && Coherent(SplitAt(ws, j, cut), InsertAt(frames, j + 1, cut), frameCount)
  {
    StrictIsNonDecreasing(frames);
    SortedPositionOf(frames, cut, j + 1);
    assert ws[j].end == end;
    InsertThenShortenIsSplit(ws, j, cut);
    SplitKeepsCoherent(ws, frames, frameCount, j, cut);
  }

  /** The scan step inside shot `j` of a board in step, with the highlighted
      run lo..hi (empty when hi < lo) at or before shot `j`: it succeeds,
      the list stays strictly increasing, the widgets stay in step, and the
      same run stays highlighted. */
  lemma ScanCutInStep(frames: seq<int>, ws: seq<ShotWidget>, frameCount: int, j: nat, cut: int, end: int, lo: int, hi: int)
    requires AscendingPairs(frames) && Coherent(ws, frames, frameCount)
    requires j < |frames| && frames[j] < cut < ShotEnd(frames, frameCount, j) == end
    requires hi <= j
    ensures NonDecreasing(frames)
    ensures ScanStep(frames, ws, cut, end) == Some((InsertAt(frames, j + 1, cut), SplitAt(ws, j, cut)))
    ensures AscendingPairs(InsertAt(frames, j + 1, cut)) && Coherent(SplitAt(ws, j, cut), InsertAt(frames, j + 1, cut), frameCount)
    ensures SelectedExactly(ws, lo, hi) ==> SelectedExactly(SplitAt(ws, j, cut), lo, hi)
  {
    AscendingPairsAreStrict(frames);
    ScanStepSplits(frames, ws, frameCount, j, cut, end);
    StrictHasAscendingPairs(InsertAt(frames, j + 1, cut));
    if SelectedExactly(ws, lo, hi) {
      SplitKeepsSelection(ws, j, cut, lo, hi);
    }
  }

  /** A cut past the last widget but one fails: after Open Shot List loads
      a three-shot list whose widgets are never built, the first cut after
      the last entry raises IndexError. */
  lemma ScanStepIndexError()
    ensures ScanStep([0, 10, 20], [], 25, 30) == None
  {
    SortedPositionOf([0, 10, 20], 25, 3);
  }

  /** One frame read by the scan of shot `w` at offset `k` when the rule
      adds a cut: with the cuts found so far after entry `w`, the cut at
      start + k - 1 lies inside the segment still being scanned, and adding
      it after that segment's entry gives the list with the cuts of k + 1
      frames. */
  lemma ScanCutStep(frames0: seq<int>, frameCount: int, w: nat, start: int, end: int, ssims: seq<real>, t: real, k: nat,
                    f: seq<int>, j: nat, cut: int)
    requires w < |frames0| && frames0[w] == start && ShotEnd(frames0, frameCount, w) == end
    requires 3 <= k < |ssims| && start + k < end
    requires CutRule(ssims[k - 2], ssims[k - 1], ssims[k], t)
    requires f == frames0[..w + 1] + SsimCuts(ssims, t, start, k) + frames0[w + 1..] && StrictlyIncreasing(f)
    requires j == w + |SsimCuts(ssims, t, start, k)| && cut == start + k - 1
    ensures j < |f| && f[j] < cut < ShotEnd(f, frameCount, j) && ShotEnd(f, frameCount, j) == end
    ensures InsertAt(f, j + 1, cut) == frames0[..w + 1] + SsimCuts(ssims, t, start, k + 1) + frames0[w + 1..]
  {
    var cuts := SsimCuts(ssims, t, start, k);
    SsimCutsBounds(ssims, t, start, k);
    ScanSegment(frames0, frameCount, w, start, end, cuts, cut);
    assert SsimCuts(ssims, t, start, k + 1) == cuts + [cut];
    assert InsertAt(f, j + 1, cut) == frames0[..w + 1] + (cuts + [cut]) + frames0[w + 1..];
  }

  /** The list during a scan of shot `w` stays strictly increasing: the cuts
      of the first n frames increase and lie strictly between the shot's
      first frame and its end. */
  lemma ScanListStrict(frames0: seq<int>, frameCount: int, w: nat, start: int, end: int, ssims: seq<real>, t: real, n: nat)
    requires StrictlyIncreasing(frames0) && w < |frames0| && frames0[w] == start
    requires ShotEnd(frames0, frameCount, w) == end
    requires n <= |ssims| && (n == 0 || start + n <= end)
    ensures StrictlyIncreasing(frames0[..w + 1] + SsimCuts(ssims, t, start, n) + frames0[w + 1..])
  {
    var a, b, c := frames0[..w + 1], SsimCuts(ssims, t, start, n), frames0[w + 1..];
    SsimCutsBounds(ssims, t, start, n);
    var f := a + b + c;
    forall i, j | 0 <= i < j < |f| ensures f[i] < f[j] {
      if j < |a| {
        assert f[i] == frames0[i] && f[j] == frames0[j];
      } else if j < |a| + |b| {
        assert f[j] == b[j - |a|];
        if i >= |a| {
          assert f[i] == b[i - |a|];
        } else {
          assert f[i] == frames0[i] && frames0[i] <= frames0[w];
        }
      } else {
        assert f[j] == frames0[j - |b|] && frames0[w + 1] <= frames0[j - |b|];
        if i < |a| {
          assert f[i] == frames0[i];
        } else if i < |a| + |b| {
          assert f[i] == b[i - |a|] && b[i - |a|] < end;
        } else {
          assert f[i] == frames0[i - |b|];
        }
      }
    }
  }

  /** Before the first frame no cut has been found: the list is unchanged
      and the scan has not changed the board. */
  lemma ScanStartsWithoutCuts(frames0: seq<int>, ws0: seq<ShotWidget>, w: nat, ssims: seq<real>, t: real, start: int, end: int)
    ensures SsimCuts(ssims, t, start, 0) == []
    ensures ScanCuts(frames0, ws0, SsimCuts(ssims, t, start, 0), end) == Some((frames0, ws0))
    ensures w < |frames0| ==> frames0[..w + 1] + SsimCuts(ssims, t, start, 0) + frames0[w + 1..] == frames0
  {
    assert SsimCuts(ssims, t, start, 0) == [];
  }

  /** The list during a scan of shot `w`: the cuts found so far follow entry
      `w`. The last of them (or the start, before any) begins the segment
      still being scanned, which ends at `end`, and a later cut lies inside
      it. */
  lemma ScanSegment(frames0: seq<int>, frameCount: int, w: nat, start: int, end: int, cuts: seq<int>, cut: int)
    requires w < |frames0| && frames0[w] == start && ShotEnd(frames0, frameCount, w) == end
    requires StrictlyIncreasing(frames0[..w + 1] + cuts + frames0[w + 1..])
    requires forall i :: 0 <= i < |cuts| ==> cuts[i] < cut
    requires start < cut < end
    ensures var f := frames0[..w + 1] + cuts + frames0[w + 1..];
            && w + |cuts| < |f|
            && f[w + |cuts|] < cut < ShotEnd(f, frameCount, w + |cuts|)
            && ShotEnd(f, frameCount, w + |cuts|) == end
  {
    var f := frames0[..w + 1] + cuts + frames0[w + 1..];
    var j := w + |cuts|;
    assert f[j] == if |cuts| == 0 then start else cuts[|cuts| - 1];
    if j + 1 < |f| {
      assert f[j + 1] == frames0[w + 1];
    }
  }
}
