/** The shot widgets of the main window, as values: the frame interval each
    one shows and whether it is highlighted. Both window revisions
    (shotboard.py and shotboard_app.py) keep one widget per entry of the shot
    list, split a widget in two and merge a run of widgets into one; both lay
    the widgets out on the same grid. */
module ShotWidgets {
  import opened PyList
  import opened ShotDb

  const SHOT_WIDGET_IMAGE_WIDTH: int := 296
  const SHOT_WIDGET_MARGIN: int := 4
  /** The fixed width of a widget: the thumbnail, a margin on both sides and
      the 2-pixel frame. */
  const SHOT_WIDGET_WIDTH: int := SHOT_WIDGET_IMAGE_WIDTH + 2 * SHOT_WIDGET_MARGIN + 2

  /** A shot widget: frames [start, end) and its highlight. */
  datatype ShotWidget = ShotWidget(start: int, end: int, selected: bool)

  /** The widgets show exactly the shots of the list: widget `i` starts at
      entry `i` and ends where the next shot starts, or at the frame count. */
  predicate Coherent(ws: seq<ShotWidget>, frames: seq<int>, frameCount: int) {
    && |ws| == |frames|
    && forall i :: 0 <= i < |ws| ==> ws[i].start == frames[i] && ws[i].end == ShotEnd(frames, frameCount, i)
  }

  /** The two lists show the same intervals; only highlights may differ. */
  predicate SameShots(a: seq<ShotWidget>, b: seq<ShotWidget>) {
    && |a| == |b|
    && forall i :: 0 <= i < |a| ==> a[i].start == b[i].start && a[i].end == b[i].end
  }

  /** Highlights do not matter to Coherent. */
  lemma SameShotsCoherent(a: seq<ShotWidget>, b: seq<ShotWidget>, frames: seq<int>, frameCount: int)
    requires SameShots(a, b) && Coherent(b, frames, frameCount)
    ensures Coherent(a, frames, frameCount)
  {
  }

  lemma SameShotsTrans(a: seq<ShotWidget>, b: seq<ShotWidget>, c: seq<ShotWidget>)
    requires SameShots(a, b) && SameShots(b, c)
    ensures SameShots(a, c)
  {
  }

  /** Exactly the widgets with index in [lo, hi] are highlighted (none when
      lo > hi). */
  predicate SelectedExactly(ws: seq<ShotWidget>, lo: int, hi: int) {
    forall i :: 0 <= i < |ws| ==> (ws[i].selected <==> lo <= i <= hi)
  }

  predicate NoneSelected(ws: seq<ShotWidget>) {
    forall i :: 0 <= i < |ws| ==> !ws[i].selected
  }

  /** `for i in range(lo, hi): ws[i].set_selected(v)`; Python's range is
      empty when lo >= hi. */
  method SetSelectedRange(ws: seq<ShotWidget>, lo: int, hi: int, v: bool) returns (r: seq<ShotWidget>)
    requires lo < hi ==> 0 <= lo && hi <= |ws|
    ensures |r| == |ws|
    ensures forall i :: 0 <= i < |ws| ==>
              r[i].start == ws[i].start && r[i].end == ws[i].end &&
              r[i].selected == (if lo <= i < hi then v else ws[i].selected)
  {
    r := ws;
    if lo >= hi {
      return;
    }
    for i := lo to hi
      invariant |r| == |ws|
      invariant forall k :: 0 <= k < |ws| ==>
                  r[k].start == ws[k].start && r[k].end == ws[k].end &&
                  r[k].selected == (if lo <= k < i then v else ws[k].selected)
    {
      r := r[i := r[i].(selected := v)];
    }
  }

  /** Shot `j` cut at `cut`: it now ends at the cut, and a widget for
      [cut, old end), not highlighted, follows it. */
  function SplitAt(ws: seq<ShotWidget>, j: nat, cut: int): (r: seq<ShotWidget>)
    requires j < |ws|
    ensures |r| == |ws| + 1
    ensures r[j] == ws[j].(end := cut) && r[j + 1] == ShotWidget(cut, ws[j].end, false)
    ensures r[..j] == ws[..j] && r[j + 2..] == ws[j + 1..]
  {
    ws[..j] + [ws[j].(end := cut), ShotWidget(cut, ws[j].end, false)] + ws[j + 1..]
  }

  /** Shots lo..hi merged: shot `lo` now ends where shot `hi` ended, and the
      widgets after it up to `hi` are gone. */
  function MergeRange(ws: seq<ShotWidget>, lo: nat, hi: nat): (r: seq<ShotWidget>)
    requires lo <= hi < |ws|
    ensures |r| == |ws| - (hi - lo)
    ensures r[lo] == ws[lo].(end := ws[hi].end)
    ensures r[..lo] == ws[..lo] && r[lo + 1..] == ws[hi + 1..]
  {
    ws[..lo] + [ws[lo].(end := ws[hi].end)] + ws[hi + 1..]
  }

  /** A cut strictly inside shot `j` keeps the list strictly increasing once
      it is inserted after entry `j`. */
  lemma InsertCutKeepsStrict(frames: seq<int>, frameCount: int, j: nat, cut: int)
    requires StrictlyIncreasing(frames)
    requires j < |frames| && frames[j] < cut < ShotEnd(frames, frameCount, j)
    ensures StrictlyIncreasing(InsertAt(frames, j + 1, cut))
  {
    var f := InsertAt(frames, j + 1, cut);
    forall a, b | 0 <= a < b < |f| ensures f[a] < f[b] {
      if b <= j {
        assert f[a] == frames[a] && f[b] == frames[b];
      } else if b == j + 1 {
        assert f[a] == frames[a] && frames[a] <= frames[j];
      } else if a <= j {
        assert f[a] == frames[a] && f[b] == frames[b - 1];
      } else if a == j + 1 {
        assert f[b] == frames[b - 1] && cut < frames[j + 1] <= frames[b - 1];
      } else {
        assert f[a] == frames[a - 1] && f[b] == frames[b - 1];
      }
    }
  }

  /** Splitting widget `j` at a cut strictly inside its shot keeps the
      widgets in step with the list in which the cut follows entry `j`. */
  lemma SplitKeepsCoherent(ws: seq<ShotWidget>, frames: seq<int>, frameCount: int, j: nat, cut: int)
    requires Coherent(ws, frames, frameCount) && StrictlyIncreasing(frames)
    requires j < |frames| && frames[j] < cut < ShotEnd(frames, frameCount, j)
    ensures StrictlyIncreasing(InsertAt(frames, j + 1, cut))
    ensures Coherent(SplitAt(ws, j, cut), InsertAt(frames, j + 1, cut), frameCount)
  {
    InsertCutKeepsStrict(frames, frameCount, j, cut);
    var f := InsertAt(frames, j + 1, cut);
    var w := SplitAt(ws, j, cut);
    forall i | 0 <= i < |w|
      ensures w[i].start == f[i] && w[i].end == ShotEnd(f, frameCount, i)
    {
      if i < j {
        assert w[i] == ws[i] && f[i] == frames[i] && f[i + 1] == frames[i + 1];
      } else if i == j {
        assert f[j] == frames[j] && f[j + 1] == cut;
      } else if i == j + 1 {
        if j + 1 < |frames| {
          assert f[j + 2] == frames[j + 1];
        }
      } else {
        assert w[i] == ws[i - 1] && f[i] == frames[i - 1];
        if i < |frames| {
          assert f[i + 1] == frames[i];
        }
      }
    }
  }

  /** Merging widgets lo..hi keeps the widgets in step with the list once the
      entries lo+1..hi are deleted, and the merged widget covers the whole
      run: from the start of shot `lo` to the end of shot `hi`. */
  lemma MergeKeepsCoherent(ws: seq<ShotWidget>, frames: seq<int>, frameCount: int, lo: nat, hi: nat)
    requires Coherent(ws, frames, frameCount)
    requires lo <= hi < |frames|
    ensures Coherent(MergeRange(ws, lo, hi), DelSlice(frames, lo + 1, hi + 1), frameCount)
    ensures MergeRange(ws, lo, hi)[lo].start == frames[lo]
    ensures MergeRange(ws, lo, hi)[lo].end == ShotEnd(frames, frameCount, hi)
  {
    var f := DelSlice(frames, lo + 1, hi + 1);
    var w := MergeRange(ws, lo, hi);
    var d := hi - lo;
    assert f == frames[..lo + 1] + frames[hi + 1..];
    forall i | 0 <= i < |w|
      ensures w[i].start == f[i] && w[i].end == ShotEnd(f, frameCount, i)
    {
      if i < lo {
        assert w[i] == ws[i] && f[i] == frames[i] && f[i + 1] == frames[i + 1];
      } else if i == lo {
        assert f[lo] == frames[lo];
        if lo + 1 < |f| {
          assert f[lo + 1] == frames[hi + 1];
        }
      } else {
        assert w[i] == ws[i + d] && f[i] == frames[i + d];
        if i + 1 < |f| {
          assert f[i + 1] == frames[i + 1 + d];
        }
      }
    }
  }

  /** Adds `cut`, which lies strictly inside shot `j`, to the shot list and
      splits widget `j` there: the store inserts it where bisect_left puts
      it, a widget for [cut, end) is inserted at that position and the widget
      before it now ends at the cut. `end` is the end of shot `j`. */
  method AddCut(db: ShotBoardDb, ws: seq<ShotWidget>, cut: int, end: int, ghost j: nat)
      returns (ws': seq<ShotWidget>, shotIndex: nat)
    requires StrictlyIncreasing(db.frames) && Coherent(ws, db.frames, db.frameCount)
    requires j < |db.frames| && db.frames[j] < cut < ShotEnd(db.frames, db.frameCount, j)
    requires end == ShotEnd(db.frames, db.frameCount, j)
    modifies db
    ensures shotIndex == j + 1
    ensures db.frames == InsertAt(old(db.frames), j + 1, cut) && db.frameCount == old(db.frameCount)
    ensures ws' == SplitAt(ws, j, cut)
    ensures StrictlyIncreasing(db.frames) && Coherent(ws', db.frames, db.frameCount)
  {
    ghost var frames := db.frames;
    StrictIsNonDecreasing(frames);
    shotIndex := db.AddFrame(cut);
    InsertedAfterShot(frames, db.frameCount, j, cut, shotIndex);
    ws' := InsertAt(ws, shotIndex, ShotWidget(cut, end, false));
    if shotIndex > 0 {
      ws' := ws'[shotIndex - 1 := ws'[shotIndex - 1].(end := cut)];
    }
    InsertThenShortenIsSplit(ws, j, cut);
    SplitKeepsCoherent(ws, frames, db.frameCount, j, cut);
  }

  /** bisect_left puts a cut lying strictly inside shot `j` right after
      entry `j`. */
  lemma InsertedAfterShot(frames: seq<int>, frameCount: int, j: nat, cut: int, index: nat)
    requires StrictlyIncreasing(frames)
    requires j < |frames| && frames[j] < cut < ShotEnd(frames, frameCount, j)
    requires index <= |frames|
    requires forall k :: 0 <= k < index ==> InsertAt(frames, index, cut)[k] < cut
    requires forall k :: index < k < |frames| + 1 ==> cut <= InsertAt(frames, index, cut)[k]
    ensures index == j + 1
  {
    var f := InsertAt(frames, index, cut);
    var y := f[j + 1];
  }

  /** Inserting the new widget after widget `j` and then ending widget `j`
      at the cut is SplitAt. */
  lemma InsertThenShortenIsSplit(ws: seq<ShotWidget>, j: nat, cut: int)
    requires j < |ws|
    ensures var w := InsertAt(ws, j + 1, ShotWidget(cut, ws[j].end, false));
            w[j := w[j].(end := cut)] == SplitAt(ws, j, cut)
  {
    var w := InsertAt(ws, j + 1, ShotWidget(cut, ws[j].end, false));
    var v := w[j := w[j].(end := cut)];
    var r := SplitAt(ws, j, cut);
    assert |v| == |r|;
    forall i | 0 <= i < |v| ensures v[i] == r[i] {
      if i < j {
        assert v[i] == ws[i] && r[i] == ws[i];
      } else if i > j + 1 {
        assert v[i] == ws[i - 1] && r[i] == ws[i - 1];
      }
    }
  }

  /** Splitting or merging two lists that show the same intervals gives two
      lists that show the same intervals. */
  lemma SplitSameShots(a: seq<ShotWidget>, b: seq<ShotWidget>, j: nat, cut: int)
    requires SameShots(a, b) && j < |a|
    ensures SameShots(SplitAt(a, j, cut), SplitAt(b, j, cut))
  {
    var ra, rb := SplitAt(a, j, cut), SplitAt(b, j, cut);
    forall i | 0 <= i < |ra| ensures ra[i].start == rb[i].start && ra[i].end == rb[i].end {
      if i < j {
        assert ra[i] == a[i] && rb[i] == b[i];
      } else if i > j + 1 {
        assert ra[i] == a[i - 1] && rb[i] == b[i - 1];
      }
    }
  }

  lemma MergeSameShots(a: seq<ShotWidget>, b: seq<ShotWidget>, lo: nat, hi: nat)
    requires SameShots(a, b) && lo <= hi < |a|
    ensures SameShots(MergeRange(a, lo, hi), MergeRange(b, lo, hi))
  {
    var ra, rb := MergeRange(a, lo, hi), MergeRange(b, lo, hi);
    forall i | 0 <= i < |ra| ensures ra[i].start == rb[i].start && ra[i].end == rb[i].end {
      if i < lo {
        assert ra[i] == a[i] && rb[i] == b[i];
      } else if i > lo {
        assert ra[i] == a[i + hi - lo] && rb[i] == b[i + hi - lo];
      }
    }
  }

  /** A split after the highlighted run leaves the same run highlighted. */
  lemma SplitKeepsSelection(ws: seq<ShotWidget>, j: nat, cut: int, lo: int, hi: int)
    requires j < |ws| && hi <= j
    requires SelectedExactly(ws, lo, hi)
    ensures SelectedExactly(SplitAt(ws, j, cut), lo, hi)
  {
    var r := SplitAt(ws, j, cut);
    forall i | 0 <= i < |r| ensures r[i].selected <==> lo <= i <= hi {
      if i < j {
        assert r[i] == ws[i];
      } else if i > j + 1 {
        assert r[i] == ws[i - 1];
      }
    }
  }

  /** A split of an unhighlighted list highlights nothing. */
  lemma SplitKeepsNoneSelected(ws: seq<ShotWidget>, j: nat, cut: int)
    requires j < |ws| && NoneSelected(ws)
    ensures NoneSelected(SplitAt(ws, j, cut))
  {
    var r := SplitAt(ws, j, cut);
    forall i | 0 <= i < |r| ensures !r[i].selected {
      if i < j {
        assert r[i] == ws[i];
      } else if i > j + 1 {
        assert r[i] == ws[i - 1];
      }
    }
  }

  /** Merging a shot with the one split off it gives back the widgets before
      the split, and deleting the cut gives back the list. */
  lemma MergeUndoesSplit(ws: seq<ShotWidget>, frames: seq<int>, j: nat, cut: int)
    requires j < |ws| && j < |frames|
    ensures MergeRange(SplitAt(ws, j, cut), j, j + 1) == ws
    ensures DelSlice(InsertAt(frames, j + 1, cut), j + 1, j + 2) == frames
  {
    var w := SplitAt(ws, j, cut);
    assert MergeRange(w, j, j + 1) == ws[..j] + [ws[j]] + ws[j + 1..];
    assert ws == ws[..j] + [ws[j]] + ws[j + 1..];
    var f := InsertAt(frames, j + 1, cut);
    assert DelSlice(f, j + 1, j + 2) == f[..j + 1] + f[j + 2..];
    assert frames == frames[..j + 1] + frames[j + 1..];
  }

  /** A split at `cut` goes ahead: the cut lies after the start of its shot
      and before the shot's last frame. */
  predicate SplitAccepted(frames: seq<int>, frameCount: int, cut: int)
    requires |frames| > 0
  {
    frames[0] <= cut &&
    var j := ShotOf(frames, cut);
    frames[j] < cut < ShotEnd(frames, frameCount, j) - 1
  }

  /** The refusal test of split_video, on the interval get_start_end_frames
      gives, is SplitAccepted failing; when the split goes ahead the interval
      is the cut's shot. */
  lemma SplitGuard(frames: seq<int>, frameCount: int, cut: int, start: int, end: int)
    requires StrictlyIncreasing(frames) && |frames| > 0
    requires frames[0] <= cut ==>
               start == frames[ShotOf(frames, cut)] && end == ShotEnd(frames, frameCount, ShotOf(frames, cut))
    requires cut < frames[0] ==> start == frames[|frames| - 1]
    ensures (cut <= start || cut >= end - 1) <==> !SplitAccepted(frames, frameCount, cut)
    ensures SplitAccepted(frames, frameCount, cut) ==>
              start == frames[ShotOf(frames, cut)] && end == ShotEnd(frames, frameCount, ShotOf(frames, cut))
  {
    if cut < frames[0] {
      assert frames[0] <= frames[|frames| - 1];
    }
  }

  /** The highlight update of a shift-click on `k` when the extent `l` is
      at or after the anchor `f`: the widgets between the anchor and `k`
      end up highlighted, exactly. */
  method MoveExtentFromAbove(ws: seq<ShotWidget>, f: int, l: int, k: int) returns (r: seq<ShotWidget>)
    requires 0 <= f <= l < |ws| && 0 <= k < |ws| && SelectedExactly(ws, f, l)
    ensures SameShots(r, ws) && SelectedExactly(r, Min(f, k), Max(f, k))
  {
    if k < f {
      r := SetSelectedRange(ws, k, f, true);
      r := SetSelectedRange(r, f + 1, l + 1, false);
    } else if k < l {
      r := SetSelectedRange(ws, k + 1, l + 1, false);
    } else {
      r := SetSelectedRange(ws, l + 1, k + 1, true);
    }
  }

  /** The same when the extent `l` lies before the anchor `f`. */
  method MoveExtentFromBelow(ws: seq<ShotWidget>, f: int, l: int, k: int) returns (r: seq<ShotWidget>)
    requires 0 <= l < f < |ws| && 0 <= k < |ws| && SelectedExactly(ws, l, f)
    ensures SameShots(r, ws) && SelectedExactly(r, Min(f, k), Max(f, k))
  {
    if k > f {
      r := SetSelectedRange(ws, l, f, false);
      r := SetSelectedRange(r, f + 1, k + 1, true);
    } else if k > l {
      r := SetSelectedRange(ws, l, k, false);
    } else {
      r := SetSelectedRange(ws, k, l, true);
    }
  }

  /** Moving a widget's end keeps every highlight. */
  lemma ExtendEndKeepsSelection(ws: seq<ShotWidget>, i: nat, e: int, lo: int, hi: int)
    requires i < |ws| && SelectedExactly(ws, lo, hi)
    ensures SelectedExactly(ws[i := ws[i].(end := e)], lo, hi)
  {
  }

  /** The widget side of merge_selected_shots on values: `ws1` is `ws0` with
      shot `lo` extended to the end of shot `hi` and every highlight cleared;
      deleting widgets lo+1..hi from it leaves an unhighlighted list in step
      with the list once its entries lo+1..hi are deleted. */
  lemma MergeStep(ws0: seq<ShotWidget>, ws1: seq<ShotWidget>, frames: seq<int>, frameCount: int, lo: nat, hi: nat)
    requires Coherent(ws0, frames, frameCount) && lo <= hi < |ws0|
    requires SameShots(ws1, ws0[lo := ws0[lo].(end := ws0[hi].end)]) && NoneSelected(ws1)
    ensures SameShots(DelSlice(ws1, lo + 1, hi + 1), MergeRange(ws0, lo, hi))
    ensures NoneSelected(DelSlice(ws1, lo + 1, hi + 1))
    ensures Coherent(MergeRange(ws0, lo, hi), DelSlice(frames, lo + 1, hi + 1), frameCount)
    ensures MergeRange(ws0, lo, hi)[lo].start == frames[lo]
    ensures MergeRange(ws0, lo, hi)[lo].end == ShotEnd(frames, frameCount, hi)
  {
    MergeKeepsCoherent(ws0, frames, frameCount, lo, hi);
    DelSliceOfMerged(ws0, ws1, lo, hi);
  }

  /** The board after shots lo..hi of shot list `frames0` and widgets `ws0`
      are merged: entries lo+1..hi are gone from the list, and widget lo
      spans from its own start to the end of widget hi, whose successors up
      to hi are gone. */
  predicate MergedFrom(frames: seq<int>, ws: seq<ShotWidget>, frames0: seq<int>, ws0: seq<ShotWidget>, lo: int, hi: int)
  {
    && 0 <= lo <= hi < |ws0| && lo < |ws|
    && frames == DelSlice(frames0, lo + 1, hi + 1)
    && SameShots(ws, MergeRange(ws0, lo, hi))
  }

  /** On a board in step, the merged widget lo covers shots lo..hi of the
      list `frames0`. */
  predicate MergedShotSpans(ws: seq<ShotWidget>, frames0: seq<int>, count0: int, lo: int, hi: int)
  {
    0 <= lo <= hi < |frames0| && lo < |ws| && ws[lo].start == frames0[lo] && ws[lo].end == ShotEnd(frames0, count0, hi)
  }

  /** Both deletions of a merge on values: `ws1` is `ws0` with widget lo
      extended to the end of widget hi and nothing highlighted. Deleting
      positions lo+1..hi from it and from the list gives the merged board,
      unhighlighted; a board in step before is in step after, and its widget
      lo spans shots lo..hi. */
  lemma MergeDeletion(ws0: seq<ShotWidget>, ws1: seq<ShotWidget>, frames0: seq<int>, frameCount: int, lo: nat, hi: nat)
    requires lo <= hi < |ws0|
    requires SameShots(ws1, ws0[lo := ws0[lo].(end := ws0[hi].end)]) && NoneSelected(ws1)
    ensures MergedFrom(DelSlice(frames0, lo + 1, hi + 1), DelSlice(ws1, lo + 1, hi + 1), frames0, ws0, lo, hi)
    ensures NoneSelected(DelSlice(ws1, lo + 1, hi + 1))
    ensures AscendingPairs(frames0) && Coherent(ws0, frames0, frameCount) ==>
              && AscendingPairs(DelSlice(frames0, lo + 1, hi + 1))
              && Coherent(DelSlice(ws1, lo + 1, hi + 1), DelSlice(frames0, lo + 1, hi + 1), frameCount)
              && MergedShotSpans(DelSlice(ws1, lo + 1, hi + 1), frames0, frameCount, lo, hi)
  {
    var nw, nf, m := DelSlice(ws1, lo + 1, hi + 1), DelSlice(frames0, lo + 1, hi + 1), MergeRange(ws0, lo, hi);
    DelSliceOfMerged(ws0, ws1, lo, hi);
    assert nw[lo].start == m[lo].start && nw[lo].end == m[lo].end;
    if AscendingPairs(frames0) && Coherent(ws0, frames0, frameCount) {
      AscendingPairsAreStrict(frames0);
      MergeStep(ws0, ws1, frames0, frameCount, lo, hi);
      DelSliceKeepsStrict(frames0, lo + 1, hi + 1);
      StrictHasAscendingPairs(nf);
      SameShotsCoherent(nw, m, nf, frameCount);
    }
  }

  /** Deleting widgets lo+1..hi from the extended, unhighlighted list gives
      the merged shots, unhighlighted. */
  lemma DelSliceOfMerged(ws0: seq<ShotWidget>, ws1: seq<ShotWidget>, lo: nat, hi: nat)
    requires lo <= hi < |ws0|
    requires SameShots(ws1, ws0[lo := ws0[lo].(end := ws0[hi].end)]) && NoneSelected(ws1)
    ensures SameShots(DelSlice(ws1, lo + 1, hi + 1), MergeRange(ws0, lo, hi))
    ensures NoneSelected(DelSlice(ws1, lo + 1, hi + 1))
  {
    var d := DelSlice(ws1, lo + 1, hi + 1);
    var m := MergeRange(ws0, lo, hi);
    assert d == ws1[..lo + 1] + ws1[hi + 1..];
    forall i | 0 <= i < |d| ensures d[i].start == m[i].start && d[i].end == m[i].end && !d[i].selected {
      if i <= lo {
        assert d[i] == ws1[i];
      } else {
        assert d[i] == ws1[i + hi - lo] && m[i] == ws0[i + hi - lo];
      }
    }
  }

  /** The available width of the scroll area: its width less the layout's
      left and right margins and the 2-pixel frame. */
  function AvailableWidth(scrollWidth: int, leftMargin: int, rightMargin: int): int {
    scrollWidth - (leftMargin + rightMargin) - 2
  }

  /** `n` widgets and the spacing between them fit in `available` pixels. */
  predicate Fits(available: int, hSpacing: int, n: int) {
    n * SHOT_WIDGET_WIDTH + (n - 1) * hSpacing <= available
  }

  /** The column count of update_grid_layout: always at least one, and
      otherwise the largest number of columns that fits. */
  function NumColumns(available: int, hSpacing: int): (n: int)
    requires SHOT_WIDGET_WIDTH + hSpacing > 0
    ensures n >= 1
    ensures available < SHOT_WIDGET_WIDTH ==> n == 1
    ensures available >= SHOT_WIDGET_WIDTH ==> Fits(available, hSpacing, n) && !Fits(available, hSpacing, n + 1)
  {
    if available < SHOT_WIDGET_WIDTH then 1
    else
      var step := SHOT_WIDGET_WIDTH + hSpacing;
      var q := (available - SHOT_WIDGET_WIDTH) / step;
      assert q * step <= available - SHOT_WIDGET_WIDTH < (q + 1) * step;
      assert (q + 1) * SHOT_WIDGET_WIDTH + q * hSpacing == SHOT_WIDGET_WIDTH + q * step;
      assert (q + 2) * SHOT_WIDGET_WIDTH + (q + 1) * hSpacing == SHOT_WIDGET_WIDTH + (q + 1) * step;
      1 + q
  }

  /** The grid cells of `count` widgets over `numCols` columns, in order:
      row-major, so each column index is below `numCols` and the cell
      number `row * numCols + col` is the widget's index. */
  method PlaceWidgets(count: nat, numCols: int) returns (cells: seq<(int, int)>)
    requires numCols >= 1
    ensures |cells| == count
    ensures forall i :: 0 <= i < count ==>
              0 <= cells[i].0 && 0 <= cells[i].1 < numCols && cells[i].0 * numCols + cells[i].1 == i
  {
    cells := [];
    for idx := 0 to count
      invariant |cells| == idx
      invariant forall i :: 0 <= i < idx ==>
                  0 <= cells[i].0 && 0 <= cells[i].1 < numCols && cells[i].0 * numCols + cells[i].1 == i
    {
      var row := idx / numCols;
      var col := idx % numCols;
      cells := cells + [(row, col)];
    }
  }

  /** No two widgets share a cell, and a later widget is placed later in
      reading order. */
  lemma CellsDistinct(cells: seq<(int, int)>, numCols: int)
    requires numCols >= 1
    requires forall i :: 0 <= i < |cells| ==>
               0 <= cells[i].0 && 0 <= cells[i].1 < numCols && cells[i].0 * numCols + cells[i].1 == i
    ensures forall i, j :: 0 <= i < j < |cells| ==>
              cells[i] != cells[j] &&
              (cells[i].0 < cells[j].0 || (cells[i].0 == cells[j].0 && cells[i].1 < cells[j].1))
  {
    forall i, j | 0 <= i < j < |cells|
      ensures cells[i].0 < cells[j].0 || (cells[i].0 == cells[j].0 && cells[i].1 < cells[j].1)
    {
      if cells[j].0 < cells[i].0 {
        RowMajorOrder(cells[j].0, cells[j].1, cells[i].0, cells[i].1, numCols);
      }
    }
  }

  /** A cell on an earlier row has a smaller cell number. */
  lemma RowMajorOrder(r1: int, c1: int, r2: int, c2: int, n: int)
    requires n >= 1 && 0 <= c1 < n && 0 <= c2 < n && r1 < r2
    ensures r1 * n + c1 < r2 * n + c2
  {
    var d := r2 - r1;
    assert r2 * n == r1 * n + d * n;
    assert (d - 1) * n >= 0;
    assert d * n == (d - 1) * n + n;
  }
}
