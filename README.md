# ShotBoard shot-list core in Dafny

ShotBoard is a desktop tool for cutting a video into shots. The user opens a
video, lets a scan propose shot boundaries, and then fixes them by hand:
splitting a shot at the current frame, merging a run of selected shots, and
undoing or redoing edits. The durable result is the shot list: the start
frame of every shot plus the frame count of the video, saved as a small JSON
document.

This project models the logic under the Qt window and proves properties of
it:

- `PyList`: the Python list operations the code relies on. These are slice
  bounds, `insert`, `del s[a:b]`, `index`, `remove`, and CPython's
  `bisect_left` as a method with a loop.
- `ShotDb`: the shot list (`ShotBoardDb`, shotboard_db.py), as a class whose
  methods update `frames` and `frameCount` in place, and its JSON record.
- `Commands`: the bounded undo/redo history (shotboard_cmd.py). Callbacks are
  named values, and the history logs the callbacks it runs.
- `MediaPlayer`: the Stopped/Playing/Paused machine of `SBMediaPlayer`
  (shotboard_med.py).
- `FilterTooShort`: the minimum-gap filter script (Utils/filter_too_short.py).
- `ShotWidgets`: the shot widgets as values, meaning a frame interval and a
  highlight. It also holds the split and merge of widgets shared by both
  window revisions, and the grid column arithmetic. shotboard.py:827-838 and
  shotboard_app.py:631-642 use the same column formula.
- `Board`: the current main window (shotboard.py). Its selection is
  `Option<int>` anchor and extent. It covers split, merge, and the SSIM scan
  with its dip-and-recover cut rule.
- `BoardApp`: the older main window (shotboard_app.py). Its selection uses -1
  for "none". It covers split, merge, and the frame-counter scan of
  `detect_shots`.

Each window is a class whose fields are the shot list, the widget list and
the two selection indices. Its methods change them as the source does. Two
invariants describe a well-formed board:

- `InStep`: the list is strictly increasing and widget `i` shows shot `i`.
- `SelectionValid`: exactly the widgets between anchor and extent are
  highlighted.

Not every operation keeps them, and the code reaches boards without them:

- An Open Shot List rebuild (`CreateAndDisplayShotWidgets`) and the older
  scan (`DetectShots`) keep the selection indices of the old widgets, so
  `SelectionValid` can fail afterwards (see Findings).
- A rebuild cancelled part way leaves fewer widgets than entries.
- An Open Shot List whose frame count does not match the video empties the
  list but keeps the widgets.
- In the older revision, File > New empties the list but keeps the widgets.
- In the older revision, Open Video (set_video) empties the list and sets
  the new frame count (shotboard_app.py:675-676). It neither rebuilds nor
  clears the widgets, and it keeps the selection.

Merge and the SSIM scan are modelled on such boards as well. They keep
`InStep` when it held before. Split and the selection operations require
the invariants (see Left out).

Where the code and its documentation disagree, this model follows the code:

- The cut rule is the two-threshold test of shotboard.py:1071-1072.
- `add_frame` does not de-duplicate.
- The database writes the key `frames` (shotboard_db.py:102), while the
  filter script reads `shots` (Utils/filter_too_short.py:18).
- shotboard.py calls `add_shot` and `get_start_end_frame_indexes`, while
  shotboard_db.py defines `add_frame` and `get_start_end_frames`, and those
  are modelled.

## Model

| member | source | states |
|---|---|---|
| PyList.SliceBound | shotboard_cmd.py:59 | Python's slice bound: a position within the list, equal to a bound already inside it, counted from the end for a negative bound |
| PyList.SliceBoundClamps | shotboard_cmd.py:59 | a bound past the end is the end, and a negative bound reaching before the start is the start |
| PyList.Take | shotboard_cmd.py:59 | `s[:k]` is a prefix of `s`, of length `k` when `0 <= k <= len(s)` |
| PyList.DelSlice | shotboard_db.py:79-80 | `del s[a:b]` with in-range bounds leaves `s[:a] + s[b:]` |
| PyList.InsertAt | shotboard_db.py:36 | `insert` grows the list by one, puts `x` at position `i`, keeps both sides in order and adds exactly one `x` to the multiset |
| PyList.ListInsert | shotboard.py:1081 | `insert` at any non-negative position: inside the list or at its end as InsertAt, past the end an append |
| PyList.Index | shotboard_db.py:45-46 | `index` is None exactly when the value is absent; otherwise it is the first position holding it |
| PyList.RemoveFirst | shotboard_db.py:40-42 | `remove` deletes the first occurrence only: one shorter, one `x` fewer, the rest in order |
| PyList.DelSliceKeepsStrict | shotboard_db.py:79-80 | deleting any slice of a strictly increasing list leaves it strictly increasing |
| PyList.BisectLeft | shotboard_db.py:35 | the binary search returns a position with smaller entries before it and entries not smaller from it on (on a sorted list: every entry) |
| PyList.SortedPositionOf | shotboard_db.py:34-37 | on a sorted list, the position with smaller entries before it and a not smaller entry at it is unique: it is SortedPosition, the number of entries below the value |
| ShotDb.ShotOf | shotboard_db.py:59-70 | the shot holding a frame is the last entry at or before it |
| ShotDb.ShotOfEntry | shotboard_db.py:59-62 | on a strictly increasing list an entry lies in its own shot |
| ShotDb.InsertUnique | shotboard_db.py:31 | adding a value to a strictly increasing list keeps it strictly increasing with that value added to its elements |
| ShotDb.SortedDistinct | shotboard_db.py:31 | `sorted(list(set(s)))` is strictly increasing with exactly the values of `s` |
| ShotDb.StrictByElements | shotboard_db.py:31 | two strictly increasing lists with the same values are equal |
| ShotDb.SortedDistinctOfStrict | shotboard_db.py:31 | `sorted(list(set(s)))` leaves a strictly increasing list unchanged |
| ShotDb.Loaded | shotboard_db.py:108-119 | a failed load leaves an empty list and the old frame count; a successful one takes the document's frame count and its distinct frames in order |
| ShotDb.SaveLoadRoundTrip | shotboard_db.py:99-113 | loading a saved document with strictly increasing frames gives back exactly that document, whatever was loaded before |
| ShotDb.ShotBoardDb.constructor | shotboard_db.py:11-13 | a new database has frame count 0 and no frames |
| ShotDb.ShotBoardDb.Clear | shotboard_db.py:17-18 | the list is emptied and the frame count kept |
| ShotDb.ShotBoardDb.SetFrameCount | shotboard_db.py:21-22 | only the frame count changes |
| ShotDb.ShotBoardDb.GetFrameCount | shotboard_db.py:25-26 | returns the frame count |
| ShotDb.ShotBoardDb.SetFrames | shotboard_db.py:29-31 | sets the frame count; the list becomes strictly increasing with exactly the input's values |
| ShotDb.ShotBoardDb.AddFrame | shotboard_db.py:34-37 | inserts at the bisect_left position and returns it: one more copy of the frame (a duplicate too), smaller entries before it, a sorted list stays sorted |
| ShotDb.ShotBoardDb.DelFrame | shotboard_db.py:40-42 | a present frame loses its first occurrence; an absent one changes nothing |
| ShotDb.ShotBoardDb.GetFrameIndex | shotboard_db.py:45-46 | the first position of the frame, or None (ValueError) exactly when it is absent |
| ShotDb.ShotBoardDb.GetStartEndFrames | shotboard_db.py:49-70 | at or after the last entry: (last entry, frame count); on a strictly increasing list: the start and end of the shot holding the frame; on a sorted list that holds the frame more than once: from its first copy to the next entry, an empty interval; on a sorted list without the frame: the two entries around it; before the first entry, the negative index wraps to the last entry |
| ShotDb.ShotBoardDb.Contains | shotboard_db.py:74-75 | `frame in db` holds exactly when some entry equals the frame |
| ShotDb.ShotBoardDb.Len | shotboard_db.py:84-85 | `len(db)` is the length of the list |
| ShotDb.ShotBoardDb.DeleteSlice | shotboard_db.py:79-80 | `del db[a:b]` removes the slice and keeps a strictly increasing list strictly increasing |
| ShotDb.ShotBoardDb.DeleteItem | shotboard_db.py:79-80 | `del db[i]` removes one position (negative counts from the end) and refuses exactly the out-of-range indices |
| ShotDb.ShotBoardDb.SaveToJson | shotboard_db.py:99-105 | the document written holds the frame count and the frames |
| ShotDb.ShotBoardDb.LoadFromJson | shotboard_db.py:108-119 | the state after loading is Loaded of the state before and of the document read (or its failure) |
| ShotDb.SaveThenLoad | shotboard_db.py:99-113 | save followed by load restores the frame count and a strictly increasing list |
| ShotDb.InsertAtSortedPosition | shotboard_db.py:34-37 | inserting at the bisect position keeps a non-decreasing list non-decreasing |
| Commands.Command.constructor | shotboard_cmd.py:5-9 | a new command has no undo and no redo callback |
| Commands.Command.SetUndo | shotboard_cmd.py:12-14 | sets the undo callback only |
| Commands.Command.SetRedo | shotboard_cmd.py:17-19 | sets the redo callback only |
| Commands.Command.Undo | shotboard_cmd.py:22-25 | runs the undo callback, which must be set |
| Commands.Command.Redo | shotboard_cmd.py:28-31 | runs the redo callback, which must be set |
| Commands.PushKeepsInvariant | shotboard_cmd.py:41-61 | push keeps `-1 <= index < len <= 50` |
| Commands.PushCutsRedoTail | shotboard_cmd.py:54-61 | with room left or the cursor on a command, push cuts the redo tail, appends the command and puts the cursor on it; a full list also loses its oldest command |
| Commands.PushFullHistoryAtBottom | shotboard_cmd.py:56-61 | a full list with cursor -1 ends as entries 1..48 plus the new command with cursor -1, so the next redo runs an old command |
| Commands.PushIntendedCutsRedoTail | shotboard_cmd.py:54-61 | with the cursor kept at -1 or above, push always leaves the cursor on the new command, with no redo tail, within the cap |
| Commands.CommandHistory.constructor | shotboard_cmd.py:43-49 | a new history is empty with cursor -1 |
| Commands.CommandHistory.Clear | shotboard_cmd.py:47-49 | empties the list and sets the cursor to -1 |
| Commands.CommandHistory.Push | shotboard_cmd.py:54-61 | the new list and cursor are Pushed of the old ones; no callback runs; the invariant is kept |
| Commands.CommandHistory.Undo | shotboard_cmd.py:66-73 | with the cursor on a command, runs its undo once and moves back; at -1 nothing happens |
| Commands.CommandHistory.Redo | shotboard_cmd.py:76-83 | below the top, moves forward and runs that command's redo; at the top nothing happens |
| Commands.UndoThenRedo | shotboard_cmd.py:66-83 | undo then redo restores list and cursor, running the undo and then the redo |
| Commands.ModuleExample | shotboard_cmd.py:107-129 | push c1, push c2, undo, push c3, undo leaves `[c1, c3]` with cursor 0, having run the undos of items 2 and 3 |
| Commands.ExampleCommand | shotboard_cmd.py:111-121 | the session's commands add an item on redo and remove it on undo |
| Commands.PushThenUndo | shotboard_cmd.py:128-129 | with room left, push then undo leaves the cut list plus the command, the cursor back, and the command's undo in the log |
| MediaPlayer.RunKeepsStoppedIffNoPlayer | shotboard_med.py:87-115 | any run of play, pause, resume and stop keeps "Stopped exactly when no player" |
| MediaPlayer.SBMediaPlayer.constructor | shotboard_med.py:42-50 | starts Stopped with no player over [0, 0) |
| MediaPlayer.SBMediaPlayer.SetVideo | shotboard_med.py:59-64 | the range becomes [0, frame_count) |
| MediaPlayer.SBMediaPlayer.SetState | shotboard_med.py:67-74 | a State is set and emitted only when it differs; anything else raises ValueError and changes nothing |
| MediaPlayer.SBMediaPlayer.Play | shotboard_med.py:87-96 | a missing file changes nothing; otherwise a player over [start, end) is created and the state becomes Playing |
| MediaPlayer.SBMediaPlayer.Pause | shotboard_med.py:99-102 | with a player: Paused; without: nothing |
| MediaPlayer.SBMediaPlayer.Resume | shotboard_med.py:105-108 | with a player: Playing; without: nothing |
| MediaPlayer.SBMediaPlayer.Stop | shotboard_med.py:111-115 | with a player: dropped and Stopped; without: nothing |
| MediaPlayer.SBMediaPlayer.OnFrameLoaded | shotboard_med.py:153-159 | a non-empty queue hands its oldest frame to the display; an empty one changes nothing |
| MediaPlayer.StopTwice | shotboard_med.py:111-115 | two stops end Stopped without a player; the emitted states grow by Stopped only when the first stop found a player not already Stopped, so the second stop emits nothing; the display is untouched |
| FilterTooShort.FilteredIsKeptSubsequence | Utils/filter_too_short.py:21-24 | the output is the input at increasing kept positions, and a position is kept exactly when it is the first or at least 3 after its original predecessor |
| FilterTooShort.FilteredBounds | Utils/filter_too_short.py:21-24 | the output starts with the first entry and has between 1 and len(shots) entries |
| FilterTooShort.FilteredSpacing | Utils/filter_too_short.py:20-24 | on non-decreasing input, consecutive kept entries differ by at least 3 |
| FilterTooShort.FilterShots | Utils/filter_too_short.py:21-24 | the loop computes Filtered; an empty list is the IndexError of `shots[0]` |
| FilterTooShort.FilterDocument | Utils/filter_too_short.py:17-31 | only the shot list is replaced; the frame count is kept |
| ShotWidgets.SameShotsCoherent | shotboard.py:1217-1218 | highlights do not affect which shots the widgets show |
| ShotWidgets.SameShotsTrans | shotboard.py:1217-1218 | "same intervals" is transitive |
| ShotWidgets.SetSelectedRange | shotboard.py:1228-1229 | `for i in range(lo, hi): set_selected(v)` changes exactly the highlights in [lo, hi) |
| ShotWidgets.SplitAt | shotboard.py:1147-1153 | a split shot ends at the cut and is followed by an unhighlighted shot from the cut to its old end; the rest is unchanged |
| ShotWidgets.MergeRange | shotboard.py:1178-1187 | a merge leaves shot lo ending where shot hi ended and removes lo+1..hi; the rest is unchanged |
| ShotWidgets.InsertCutKeepsStrict | shotboard.py:1140-1144 | a cut strictly inside shot j, inserted after entry j, keeps the list strictly increasing |
| ShotWidgets.SplitKeepsCoherent | shotboard.py:1144-1153 | after a split the widgets again show exactly the shots of the new list |
| ShotWidgets.MergeKeepsCoherent | shotboard.py:1178-1189 | after a merge the widgets show exactly the shots of the list with lo+1..hi deleted; the merged widget runs from the start of shot lo to the end of shot hi |
| ShotWidgets.AddCut | shotboard.py:1144-1153 | add_frame puts the cut right after entry j, and the widgets become SplitAt of widget j, in step with the new list |
| ShotWidgets.InsertedAfterShot | shotboard.py:1144 | bisect_left places a cut lying inside shot j at position j + 1 |
| ShotWidgets.InsertThenShortenIsSplit | shotboard.py:1149-1153 | inserting the new widget and then shortening the one before it is SplitAt |
| ShotWidgets.SplitSameShots | shotboard.py:1147-1153 | split does not depend on highlights |
| ShotWidgets.MergeSameShots | shotboard.py:1178-1187 | merge does not depend on highlights |
| ShotWidgets.SplitKeepsSelection | shotboard.py:1079-1086 | a split after the highlighted run leaves that run highlighted |
| ShotWidgets.SplitKeepsNoneSelected | shotboard.py:1135-1153 | a split of an unhighlighted board highlights nothing |
| ShotWidgets.MergeUndoesSplit | shotboard.py:1144-1189 | merging a split shot with its new neighbour gives back the widgets and the list before the split |
| ShotWidgets.SplitGuard | shotboard.py:1139-1141 | the test `cut <= start or cut >= end - 1` on the interval get_start_end_frames returns is the refusal of SplitAccepted, including the wrapped interval before the first entry |
| ShotWidgets.MoveExtentFromAbove | shotboard.py:1261-1272 | with the extent at or after the anchor, the three loops leave exactly anchor..k highlighted |
| ShotWidgets.MoveExtentFromBelow | shotboard.py:1273-1284 | with the extent before the anchor, the three loops leave exactly anchor..k highlighted |
| ShotWidgets.ExtendEndKeepsSelection | shotboard.py:1178 | moving a widget's end keeps every highlight |
| ShotWidgets.MergeStep | shotboard.py:1178-1189 | deleting lo+1..hi from the extended, deselected widgets gives the merged shots, unhighlighted and in step with the shortened list |
| ShotWidgets.DelSliceOfMerged | shotboard.py:1187 | the widget deletion of the merge gives MergeRange, unhighlighted |
| ShotWidgets.MergeDeletion | shotboard.py:1178-1189 | the deletions of the merge, on widgets whose lo was extended and then deselected, give DelSlice of the list and MergeRange of the widgets, unhighlighted; when the board was in step, it stays in step and widget lo spans shots lo..hi |
| ShotWidgets.NumColumns | shotboard.py:827-832 | at least one column; when a widget fits, the largest number of columns whose widgets and spacing fit |
| ShotWidgets.PlaceWidgets | shotboard.py:835-838 | widget idx goes to row idx // cols and column idx % cols, with the column below the column count |
| ShotWidgets.CellsDistinct | shotboard.py:835-838 | no two widgets share a cell, and later widgets come later in reading order |
| ShotWidgets.RowMajorOrder | shotboard.py:836-837 | a cell on an earlier row has a smaller cell number |
| Board.SelectionMinMax | shotboard.py:1291-1301 | (None, None) without an anchor, (anchor, None) without an extent, otherwise the two indices low to high |
| Board.SsimCutsBounds | shotboard.py:1069-1090 | the scan's cuts increase and lie in [start + 2, start + m - 2] |
| Board.SsimCutsMembership | shotboard.py:1068-1074 | a frame is cut exactly when the rule holds on the three similarities of the frame after it |
| Board.SsimCutsExample | shotboard.py:1068-1090 | a one-frame dip gives exactly one cut |
| Board.ShotBoard.constructor | shotboard.py:96-101 | an empty board with an empty list and no selection satisfies both invariants |
| Board.ShotBoard.IsSelectionEmpty | shotboard.py:1209-1210 | empty exactly without an anchor; with a valid selection, exactly when nothing is highlighted |
| Board.ShotBoard.SelectAll | shotboard.py:1214-1219 | the corrected select_all, from any board, including one whose indices a rebuild left stale: everything highlighted and the selection valid, empty on an empty board |
| Board.ShotBoard.SelectAllAsWritten | shotboard.py:1214-1219 | select_all as written: anchor 0 and extent len - 1; on an empty board the selection is invalid and min/max gives (-1, 0) |
| Board.ShotBoard.DeselectAll | shotboard.py:1223-1232 | nothing highlighted and no selection; the intervals are unchanged |
| Board.ShotBoard.SelectShotWidget | shotboard.py:1236-1241 | exactly widget i highlighted, anchor and extent i |
| Board.ShotBoard.ExtendSelection | shotboard.py:1245-1287 | clicking the extent does nothing; from no selection [0, k] is selected; otherwise the anchor stays, the extent becomes k and the selection stays valid |
| Board.ShotBoard.SplitVideo | shotboard.py:1130-1160 | both invariants kept; a refused split changes only the selection, to none; an accepted one inserts the cut after its shot and selects exactly the new shot |
| Board.ShotBoard.SplitShot | shotboard.py:1144-1160 | the accepted split inserts the cut after entry j and selects exactly the new shot |
| Board.ShotBoard.MergeSelectedShots | shotboard.py:1164-1200 | without a widget or a selection: None and no change; otherwise, on any board, lo+1..hi are deleted by position from both the widgets and the list, widget lo ends where widget hi ended, it alone is selected and it is returned; a board in step stays in step, and the merged widget spans shots lo..hi of the old list |
| Board.ShotBoard.MergeShots | shotboard.py:1172-1200 | the merge of the selected range lo..hi on any board, selecting lo; InStep is kept when it held |
| Board.ShotBoard.DeleteMerged | shotboard.py:1182-1189 | the two deletions remove positions lo+1..hi from the widgets and the list alike; on a board that was in step they leave it in step, with widget lo spanning shots lo..hi |
| Board.ShotBoard.DetectShotsSsim | shotboard.py:966-1105 | the scan reads at most one frame per frame of the range and stops at its end, on the last frame, on cancel, or on a cut that raises IndexError; the selection indices and frame count are kept; on a sorted list the board becomes ScanCuts of the cuts found, and a failure is exactly the first cut ScanCuts refuses; when the range is shot `w` of a board in step no cut fails, the list becomes the old one with the cuts inserted after entry `w`, the widgets stay in step, and a valid selection ending at or before shot `w` stays valid |
| Board.ShotBoard.ScanLoop | shotboard.py:1037-1105 | the loop with its stop reasons, keeping ScanReached after each frame: the fold so far, or the failed cut |
| Board.ShotBoard.ReadFrame | shotboard.py:1047-1094 | one frame: the test from the fourth frame on, the shift of the two remembered similarities, and one more frame of ScanReached |
| Board.ShotBoard.ScanFrame | shotboard.py:1069-1086 | when the rule holds, the frame before is added as a cut: one more ScanStep of the fold, which on a board in step does not fail and puts the cut after the scanned segment |
| Board.ShotBoard.AddScanCut | shotboard.py:1074-1086 | one scan cut as ScanStep on a sorted list; inside the last segment of shot `w` of a board in step it succeeds, inserts the cut after that segment, keeps the board in step and leaves a selection before the scanned shot valid |
| Board.ShotBoard.InsertScanCut | shotboard.py:1074-1086 | the code of one scan cut: on a sorted list the new board is ScanStep of the old one, and `ok` is false exactly where ScanStep refuses; the list stays sorted |
| Board.ScanStep | shotboard.py:1074-1086 | one scan cut on values: None (IndexError) exactly when the cut's sorted position is at least two past the last widget, always Some when the list has at most one entry more than the widgets; a success adds one entry and one widget |
| Board.ScanCuts | shotboard.py:1037-1094 | a scan on values that does not fail adds one entry per cut |
| Board.ScanCutsAddsCuts | shotboard.py:1037-1094 | a scan that does not fail adds exactly its cuts to the list, as a multiset, and one widget per cut |
| Board.ScanCutsSnoc | shotboard.py:1037-1094 | one more cut of the scan is one more ScanStep |
| Board.ScanStepSplits | shotboard.py:1074-1086 | on a board in step a cut strictly inside shot j that ends with that shot goes to position j + 1, and the scan step is SplitAt of widget j, in step with the new list |
| Board.ScanCutInStep | shotboard.py:1074-1086 | the same step keeps the list ascending and leaves a highlighted run that ends at or before shot j highlighted |
| Board.ScanStepIndexError | shotboard.py:1084-1086 | on the list [0, 10, 20] with no widgets, a cut at 25 fails: widget 2 does not exist |
| Board.ScanCutStep | shotboard.py:1074-1086 | a scan cut falls inside the segment still being scanned, and inserting it extends the cut list by one |
| Board.ScanListStrict | shotboard.py:1037-1094 | the list stays strictly increasing during the scan |
| Board.ScanStartsWithoutCuts | shotboard.py:1012-1015 | before the first frame there are no cuts: the fold gives back the board and the list is unchanged |
| Board.ScanSegment | shotboard.py:1079-1086 | the last cut found begins the segment being scanned, which ends at the shot's end |
| BoardApp.SelectionMinMax | shotboard_app.py:969-973 | the anchor and extent low to high |
| BoardApp.DetectedCutsMembers | shotboard_app.py:842-866 | the detected cuts increase and are exactly the frames 1..n-1 whose test passed |
| BoardApp.DetectedListStrict | shotboard_app.py:815-866 | the list detect_shots builds starts at 0 and increases strictly |
| BoardApp.DetectedListBounded | shotboard_app.py:815-866 | every entry of that list is a frame already read |
| BoardApp.AddDetectedCut | shotboard_app.py:857-860 | add_frame of the frame counter appends it as the next detected cut |
| BoardApp.DetectedCutGoesLast | shotboard_app.py:860 | bisect_left of a counter above every entry is the end of the list |
| BoardApp.NewShotWidget | shotboard_app.py:616 | the widget for entry i is unhighlighted and, on a strictly increasing list, shows shot i |
| BoardApp.ShotBoard.constructor | shotboard_app.py:83-88 | an empty board with selection -1 satisfies both invariants |
| BoardApp.ShotBoard.IsSelectionEmpty | shotboard_app.py:887-888 | empty exactly when the anchor is -1; with a valid selection, exactly when nothing is highlighted |
| BoardApp.ShotBoard.ClearShotWidgetSelection | shotboard_app.py:892-899 | unhighlights exactly min..max when the anchor is above -1 and sets both indices to -1 |
| BoardApp.ShotBoard.SelectShotWidget | shotboard_app.py:903-908 | clears the selection and highlights widget i, with anchor and extent i |
| BoardApp.ShotBoard.ExtendSelection | shotboard_app.py:912-954 | clicking the extent does nothing; from -1 [0, k] is selected; otherwise the anchor stays and exactly anchor..k is highlighted |
| BoardApp.ShotBoard.SplitVideo | shotboard_app.py:754-779 | as written: a refused split changes nothing; an accepted one inserts the cut after its shot and splits its widget, leaving the selection indices unchanged |
| BoardApp.ShotBoard.SplitShot | shotboard_app.py:766-776 | the accepted split inserts the cut after entry j and splits widget j |
| BoardApp.ShotBoard.MergeSelectedShots | shotboard_app.py:783-803 | without a selection nothing changes; otherwise, on any board, lo+1..hi are deleted by position from both lists, widget lo ends where widget hi ended, and nothing stays selected; a board in step stays in step, and the merged widget spans shots lo..hi of the old list |
| BoardApp.ShotBoard.MergeShots | shotboard_app.py:791-799 | the merge of lo..hi on any board, ending with no selection; InStep is kept when it held |
| BoardApp.ShotBoard.DeleteMerged | shotboard_app.py:797-799 | the deletions remove positions lo+1..hi from both lists alike; on a board that was in step they leave it in step, with widget lo spanning shots lo..hi |
| BoardApp.ShotBoard.CreateAndDisplayShotWidgets | shotboard_app.py:601-622 | one unhighlighted widget per entry, up to the cancel, each showing its own shot on a strictly increasing list |
| BoardApp.ShotBoard.DetectShots | shotboard_app.py:807-878 | without a video nothing changes; otherwise the list becomes [0] plus the detected cuts of the frames read, the loop stops at the last frame or on cancel, and the widgets show the new list |
| BoardApp.ShotBoard.ReadFrames | shotboard_app.py:831-871 | the loop: at most one cut per frame read, the counter's stop reasons, and the list [0] plus the detected cuts |
| BoardApp.ShotBoard.RebuildShotWidgets | shotboard.py:888-891 | dropping the selection before the rebuild, as set_video does through clear_shot_widgets: afterwards nothing is selected and the indices are valid, whatever the new list holds; the widgets show the new list |
| BoardApp.SelectedFourShotBoard | shotboard_app.py:903-954 | a click on shot 2 and a shift-click on shot 3 of a four-shot board select 2..3 |
| BoardApp.StaleSelectionAfterReload | shotboard_app.py:372-386 | after shots 2..3 of four are selected, Open Shot List with two shots leaves the indices at 2 and 3, beyond the two widgets |
| BoardApp.LoadTwoShots | shotboard_db.py:108-119 | loading the document of a 100-frame video with the shots [0, 50] sets exactly that frame count and list |
| BoardApp.SplitLeavesSelectionStale | shotboard_app.py:754-776 | on a concrete board an accepted split moves the highlighted widget while the selection indices stay, so they no longer match |

## Left out

- The Qt user interface is not modelled. This covers windows, menus, sliders, style sheets, event filters, the status bar, the window title, progress-dialog labels and `update_ui_state`. It is presentation, not logic.
- Decoding is not modelled: ffmpeg and cv2 frame reading, SSIM (skimage), histograms, pixel differences and matplotlib plotting. They are foreign calls. The scan instead takes the per-frame similarities (`ssims`) or the per-frame change test (`changed`) as inputs.
- The progress dialog's cancel button is user input. It is modelled as the number of frames (or widgets) handled before the first check that finds it pressed.
- The `VideoPlayer` thread (shotboard_vid.py), its frame queue filling, `set_frame` and the ffmpeg still-frame extraction are not modelled. They are I/O and concurrency. The queue is a field, and frames are handed over in order.
- Floating-point position conversions are not modelled: frame to Qt position, slider value to threshold, the ETA and the elapsed time. The threshold is a `real` input.
- File and JSON I/O are not modelled. The document is the `{frame_count, frames}` record, and a failed open or parse is `None`.
- ShotDb.Loaded: a document whose `set_frames` fails part way is not modelled. `set_frame_count` would already have run, which would change the frame count of an emptied list.
- `__iter__` and `__str__` of the database and of the history, and the `DEBUG_COMMAND_HISTORY` prints, are not modelled. They are output only.
- Running a command's callbacks is not modelled. A callback is a name and the item it is given, and the history logs which ones ran. The example's `remove_item` of an item never added would raise in Python.
- Media player setPosition and pause calls made by split, merge and the scans are not modelled. They only move the playhead.
- MediaPlayer.SBMediaPlayer.Play: the file check is the input `fileExists`. A `video_path` of None, for which `os.path.isfile` raises, is not modelled.
- MediaPlayer.SBMediaPlayer.SetVideo: the `set_frame(0)` display call at the end is not modelled.
- MediaPlayer.SBMediaPlayer.Play follows the evidently intended `VideoPlayer` constructor and keeps only the frame range. As written, shotboard_med.py:92 passes eight arguments (volume, speed and edge detection as well) to a constructor that takes `video_path, fps, start_frame, end_frame, parent` (shotboard_vid.py:11), so Python would raise TypeError at that call.
- `_selected_shot_widget` is not modelled. It is reset but never read in the modelled code.
- The merge button's enabled state is not modelled.
- The dirty flag called by shotboard.py is not defined in the shown shotboard_db.py and is not modelled.
- shotboard_vid.py, Utils/tag_video_frames.py and Utils/simple_media_player.py are not part of this model.
- ShotWidgets.NumColumns requires `SHOT_WIDGET_WIDTH + spacing > 0`, that is a spacing above -306. At -306 Python divides by zero. Below it, floor division by a negative step gives a column count the layout cannot use.
- BoardApp.ShotBoard.ClearShotWidgetSelection and BoardApp.ShotBoard.SelectShotWidget require the visited indices to lie on widgets. A Python negative index, which would wrap to the end of the list, is not modelled.
- Board.ShotBoard.SelectShotWidget and Board.ShotBoard.ExtendSelection require `0 <= index < len`. The index comes from the clicked widget's own position (shotboard.py:685).
- Board.ShotBoard.SplitVideo and BoardApp.ShotBoard.SplitVideo require `InStep`. The code still runs on a board out of step, and the model does not follow it there. Such boards are a rebuild cancelled part way (shotboard.py:809-810, shotboard_app.py:614-615), an Open Shot List whose frame count does not match, which empties the list but keeps the widgets (shotboard.py:488, shotboard_app.py:386), File > New in the older revision (shotboard_app.py:357-359), and Open Video in the older revision, whose set_video empties the list and sets the new frame count but keeps the old widgets and the selection (shotboard_app.py:675-676).
- Board.ShotBoard.MergeSelectedShots and BoardApp.ShotBoard.MergeSelectedShots are modelled on those boards too. Both deletions go by position, as the code does, and InStep and the span of the merged widget are stated only when the board was in step. The requires that remains is SelectionValid (see below).
- Board.ShotBoard.DetectShotsSsim: on a list that is not sorted, the model states only the bounds, the stop reasons and the unchanged selection, not what the cuts do. add_frame and set_frames never build such a list. The `w` of the in-step promise is a ghost parameter: the scan button passes the interval of the widget the merge returned (shotboard.py:609-612), which on a board in step is that shot.
- Board.ShotBoard.DetectShotsSsim: an IndexError ends the model's scan with `ok` false, at the frame whose cut raised it. The ffmpeg process and the progress dialog it leaves open are not modelled.
- Board.ShotBoard.DeselectAll, Board.ShotBoard.SelectShotWidget, Board.ShotBoard.ExtendSelection, Board.ShotBoard.SplitVideo and Board.ShotBoard.MergeSelectedShots require SelectionValid. The code reaches boards without it. shotboard.py's Open Shot List rebuilds through create_and_display_shot_widgets (shotboard.py:485), which resets only the widget list (796-798) and keeps the selection indices. On such a board deselect_all visits the old indices and raises IndexError (shotboard.py:1228-1229), and the model does not follow it there.
- shotboard.py's create_and_display_shot_widgets (shotboard.py:796-815) is not modelled apart from the older one, BoardApp.ShotBoard.CreateAndDisplayShotWidgets. It treats the widget list and the selection indices the same way.
- BoardApp.ShotBoard.DetectShots treats `cap.isOpened()` as true while frames remain. A capture that closes mid-read is the end of `changed`.
- BoardApp.ShotBoard.CreateAndDisplayShotWidgets leaves the selection indices as they were, as the code does, so after Open Shot List or Scan Shots they can point past the new widgets (see Findings). The invariant that they are valid is only restored when nothing was selected. RebuildShotWidgets is the corrected rebuild.
- BoardApp.ShotBoard.ClearShotWidgetSelection: its requires excludes the stale indices create_and_display_shot_widgets can leave. On those the code raises IndexError (a click on the scroll area, shotboard_app.py:338), and the model does not follow it there.
- BoardApp.ShotBoard.SelectShotWidget: its requires excludes the same stale indices, for which the code's first step, clear_shot_widget_selection, raises IndexError.
- BoardApp.ShotBoard.ExtendSelection: its requires excludes the same stale indices, for which the code raises IndexError or highlights from an anchor that is no longer a widget.
- BoardApp.ShotBoard.MergeSelectedShots: its requires excludes the same stale indices, for which the code raises IndexError or merges shots that were never highlighted.
- The `assert` at the head of split, merge and the scans is not modelled. The model uses the explicit empty checks that follow it.
- ShotDb.ShotBoardDb.GetStartEndFrames models the asserts `frame >= 0` and a non-empty list (shotboard_db.py:50-51) as its requires. With asserts on, Python raises AssertionError there, and the model does not follow that case. The `if not self._frames: return` after them (shotboard_db.py:52-53) is therefore never reached in the model.
- BoardApp.ShotBoard.CreateAndDisplayShotWidgets and BoardApp.ShotBoard.RebuildShotWidgets require every entry to be at least 0, because each entry is passed to get_start_end_frames. A loaded document with a negative frame would raise AssertionError during the rebuild, and the model does not follow that case.

## Findings

| source | as written | input that shows it | evidently intended | confidence | as-written member | corrected member |
|---|---|---|---|---|---|---|
| shotboard_cmd.py:56-61 | the drop loop moves the cursor below -1, and the slice `[:index + 1]` then reads `[: -1]` | a full history (50 commands) with every command undone (index -1), then push | the new command is the only one left after the cursor, at index 0 | not executed | Commands.PushFullHistoryAtBottom | Commands.PushIntendedCutsRedoTail |
| shotboard.py:1214-1219 | select_all sets anchor 0 and extent `len - 1` on an empty board | select_all with no shot widgets, then deselect_all (Ctrl+D at shotboard.py:260, a scroll-area click at :441, or loading a video, through clear_shot_widgets at :781) visits index -1 of an empty list: IndexError; merge and split stop earlier, at their assert on the widget list (:1131, :1165) | an empty board keeps an empty selection | not executed | Board.ShotBoard.SelectAllAsWritten | Board.ShotBoard.SelectAll |
| shotboard_app.py:754-776 | split_video inserts a widget but leaves the selection indices where they were | shots [0, 10) and [10, 20) with the second selected, split at frame 5: index 1 is now the new, unhighlighted shot | deselect before the split, as shotboard.py:1135 does, so the selection matches the highlight | not executed | BoardApp.SplitLeavesSelectionStale | Board.ShotBoard.SplitVideo |
| shotboard_app.py:601-622 | create_and_display_shot_widgets rebuilds the widgets and keeps the selection indices | shots 2..3 of [0, 10, 20, 30] selected, then Open Shot List loads [0, 50]: the indices stay 2 and 3, and a click on the scroll area visits widget 2 of 2 (IndexError) | deselect before the rebuild, as set_video does through clear_shot_widgets (shotboard.py:889, deselecting at 780-781); the later revision's Open Shot List has the same defect, since it rebuilds through create_and_display_shot_widgets (:485), which resets only the widget list (:796-798) | not executed | BoardApp.StaleSelectionAfterReload | BoardApp.ShotBoard.RebuildShotWidgets |
