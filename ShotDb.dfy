/** The shot list of shotboard_db.py: the start frame of every shot, kept in a
    Python list, and the frame count of the video. */
module ShotDb {
  import opened PyList

  /** The JSON document `{frame_count, frames}` that save_to_json writes and
      load_from_json reads. */
  datatype ShotList = ShotList(frameCount: int, frames: seq<int>)

  /** End (excluded) of shot `j`: the next shot's start, or the frame count
      for the last shot. */
  function ShotEnd(frames: seq<int>, frameCount: int, j: nat): int
    requires j < |frames|
  {
    if j + 1 < |frames| then frames[j + 1] else frameCount
  }

  /** The shot holding `frame`: the last entry at or before it. */
  function ShotOf(frames: seq<int>, frame: int): (j: nat)
    requires |frames| > 0 && frames[0] <= frame
    ensures j < |frames| && frames[j] <= frame
    ensures forall k :: j < k < |frames| ==> frame < frames[k]
    decreases |frames|
  {
    if frames[|frames| - 1] <= frame then |frames| - 1
    else ShotOf(frames[..|frames| - 1], frame)
  }

  /** On a strictly increasing list, the shot holding an entry is that
      entry's own shot. */
  lemma ShotOfEntry(frames: seq<int>, i: nat)
    requires StrictlyIncreasing(frames) && i < |frames|
    ensures frames[0] <= frames[i] && ShotOf(frames, frames[i]) == i
  {
    assert 0 < i ==> frames[0] < frames[i];
  }

  /** Adds `x` to a strictly increasing list unless it is already there. */
  function InsertUnique(r: seq<int>, x: int): (r': seq<int>)
    requires StrictlyIncreasing(r)
    ensures StrictlyIncreasing(r')
    ensures forall y :: y in r' <==> y in r || y == x
    ensures |r'| > 0 && (r'[0] == x || (|r| > 0 && r'[0] == r[0]))
  {
    if |r| == 0 || x < r[0] then [x] + r
    else if x == r[0] then r
    else [r[0]] + InsertUnique(r[1..], x)
  }

  /** `sorted(list(set(s)))` */
  function SortedDistinct(s: seq<int>): (r: seq<int>)
    ensures StrictlyIncreasing(r)
    ensures forall x :: x in r <==> x in s
  {
    if |s| == 0 then []
    else
      var r := InsertUnique(SortedDistinct(s[..|s| - 1]), s[|s| - 1]);
      assert forall x :: x in s <==> x in s[..|s| - 1] || x == s[|s| - 1] by {
        assert s == s[..|s| - 1] + [s[|s| - 1]];
      }
      r
  }

  /** A strictly increasing list is determined by the values it holds. */
  lemma {:induction false} StrictByElements(a: seq<int>, b: seq<int>)
    requires StrictlyIncreasing(a) && StrictlyIncreasing(b)
    requires forall x :: x in a <==> x in b
    ensures a == b
  {
    if |a| == 0 {
      assert forall x :: x !in b;
      assert forall x :: x in multiset(b) <==> x in b;
      assert multiset(b) == multiset{};
    } else {
      assert a[0] in a && a[0] in b;
      assert b[0] in b;
      assert a[0] == b[0];
      assert a == [a[0]] + a[1..] && b == [b[0]] + b[1..];
      forall x ensures x in a[1..] <==> x in b[1..] {
        if x in a[1..] { assert x in a && x > a[0]; }
        if x in b[1..] { assert x in b && x > b[0]; }
      }
      StrictByElements(a[1..], b[1..]);
    }
  }

  /** `sorted(list(set(s)))` leaves a strictly increasing list unchanged. */
  lemma SortedDistinctOfStrict(s: seq<int>)
    requires StrictlyIncreasing(s)
    ensures SortedDistinct(s) == s
  {
    StrictByElements(SortedDistinct(s), s);
  }

  /** The list and frame count after load_from_json: the list is emptied
      first, and only a document that was read successfully is applied. */
  function Loaded(before: ShotList, doc: Option<ShotList>): (after: ShotList)
    ensures doc.None? ==> after == ShotList(before.frameCount, [])
    ensures doc.Some? ==> after.frameCount == doc.value.frameCount
    ensures StrictlyIncreasing(after.frames)
    ensures doc.Some? ==> forall x :: x in after.frames <==> x in doc.value.frames
  {
    match doc
    case None => ShotList(before.frameCount, [])
    case Some(d) => ShotList(d.frameCount, SortedDistinct(d.frames))
  }

  /** Saving a list with distinct sorted frames and loading the document
      back restores it exactly, whatever the state before the load. */
  lemma SaveLoadRoundTrip(saved: ShotList, before: ShotList)
    requires StrictlyIncreasing(saved.frames)
    ensures Loaded(before, Some(saved)) == saved
  {
    SortedDistinctOfStrict(saved.frames);
  }

  class ShotBoardDb {
    var frameCount: int
    var frames: seq<int>

    function State(): ShotList
      reads this
    {
      ShotList(frameCount, frames)
    }

    constructor ()
      ensures frameCount == 0 && frames == []
    {
      frameCount := 0;
      frames := [];
    }

    /** Empties the shot list; the frame count is kept. */
    method Clear()
      modifies this
      ensures frames == [] && frameCount == old(frameCount)
    {
      frames := [];
    }

    method SetFrameCount(n: int)
      modifies this
      ensures frameCount == n && frames == old(frames)
    {
      frameCount := n;
    }

    method GetFrameCount() returns (n: int)
      ensures n == frameCount
    {
      n := frameCount;
    }

    method SetFrames(n: int, input: seq<int>)
      modifies this
      ensures frameCount == n && frames == SortedDistinct(input)
      ensures StrictlyIncreasing(frames) && forall x :: x in frames <==> x in input
    {
      SetFrameCount(n);
      frames := SortedDistinct(input);
    }

    /** Inserts `frame` where bisect_left puts it and returns that position.
        A frame already present is inserted a second time. */
    method AddFrame(frame: int) returns (index: nat)
      modifies this
      ensures index <= |old(frames)| && frames == InsertAt(old(frames), index, frame)
      ensures 0 < index ==> old(frames)[index - 1] < frame
      ensures index < |old(frames)| ==> frame <= old(frames)[index]
      ensures multiset(frames) == multiset(old(frames)) + multiset{frame}
      ensures frameCount == old(frameCount)
      ensures NonDecreasing(old(frames)) ==>
                NonDecreasing(frames) &&
                (forall j :: 0 <= j < index ==> frames[j] < frame) &&
                (forall j :: index < j < |frames| ==> frame <= frames[j])
    {
      index := BisectLeft(frames, frame);
      ghost var was := frames;
      frames := InsertAt(frames, index, frame);
      if NonDecreasing(was) {
        InsertAtSortedPosition(was, index, frame);
      }
    }

    /** Removes the first occurrence of `frame`; a missing frame is ignored. */
    method DelFrame(frame: int)
      modifies this
      ensures frame in old(frames) ==> frames == RemoveFirst(old(frames), frame)
      ensures frame !in old(frames) ==> frames == old(frames)
      ensures frameCount == old(frameCount)
    {
      if frame in frames {
        frames := RemoveFirst(frames, frame);
      }
    }

    /** `frames.index(frame)`; None stands for the ValueError of a missing
        frame. */
    method GetFrameIndex(frame: int) returns (r: Option<nat>)
      ensures r.None? <==> frame !in frames
      ensures r.Some? ==> r.value < |frames| && frames[r.value] == frame
      ensures r.Some? ==> forall j :: 0 <= j < r.value ==> frames[j] != frame
    {
      r := Index(frames, frame);
    }

    /** The shot interval [start, end) containing `frame`. On a sorted list
        that holds `frame` more than once (add_frame does not de-duplicate)
        the interval runs from its first copy to the next entry, the second
        copy: for [0, 5, 5, 10] and frame 5 it is the empty (5, 5). */
    method GetStartEndFrames(frame: int) returns (start: int, end: int)
      requires frame >= 0 && |frames| > 0
      ensures frame >= frames[|frames| - 1] ==> start == frames[|frames| - 1] && end == frameCount
      ensures StrictlyIncreasing(frames) && frames[0] <= frame ==>
                start == frames[ShotOf(frames, frame)] && end == ShotEnd(frames, frameCount, ShotOf(frames, frame))
      ensures NonDecreasing(frames) && frame < frames[0] ==> start == frames[|frames| - 1] && end == frames[0]
      ensures NonDecreasing(frames) && frame < frames[|frames| - 1] && frame in frames ==>
                var k := Index(frames, frame).value;
                k + 1 < |frames| && start == frame && end == frames[k + 1]
      ensures NonDecreasing(frames) && frames[0] <= frame < frames[|frames| - 1] && frame !in frames ==>
                exists i :: 0 <= i < |frames| - 1 && frames[i] < frame < frames[i + 1] && start == frames[i] && end == frames[i + 1]
    {
      var n := |frames|;
      if frame >= frames[n - 1] {
        return frames[n - 1], frameCount;
      }
      var index := BisectLeft(frames, frame);
      var startIndex: int, endIndex: int;
      if frames[index] == frame {
        startIndex, endIndex := index, index + 1;
      } else {
        startIndex, endIndex := index as int - 1, index;
      }
      // Python's frames[-1] is the last entry
      start := if startIndex < 0 then frames[n - 1] else frames[startIndex];
      end := if endIndex < n then frames[endIndex] else frameCount;
      if StrictlyIncreasing(frames) && frames[0] <= frame {
        assert 0 <= startIndex && start == frames[startIndex];
        assert startIndex == ShotOf(frames, frame);
      }
      if NonDecreasing(frames) && frame in frames {
        var k := Index(frames, frame).value;
        assert frames[index] == frame by {
          assert frames[k] == frame;
        }
        assert k == index;
      }
      if NonDecreasing(frames) && frames[0] <= frame && frame !in frames {
        assert frames[index] != frame;
        assert 0 < index && frames[index - 1] < frame < frames[index];
      }
    }

    /** `frame in db` */
    function Contains(frame: int): (b: bool)
      reads this
      ensures b <==> exists j :: 0 <= j < |frames| && frames[j] == frame
    {
      frame in frames
    }

    /** `len(db)` */
    function Len(): (n: nat)
      reads this
      ensures n == |frames|
    {
      |frames|
    }

    /** `del db[a:b]`; on a strictly increasing list the result stays
        strictly increasing. */
    method DeleteSlice(a: int, b: int)
      modifies this
      ensures frames == DelSlice(old(frames), a, b) && frameCount == old(frameCount)
      ensures StrictlyIncreasing(old(frames)) ==> StrictlyIncreasing(frames)
    {
      if StrictlyIncreasing(frames) {
        DelSliceKeepsStrict(frames, a, b);
      }
      frames := DelSlice(frames, a, b);
    }

    /** `del db[i]`; `ok` is false where Python raises IndexError. */
    method DeleteItem(i: int) returns (ok: bool)
      modifies this
      ensures ok <==> -|old(frames)| <= i < |old(frames)|
      ensures !ok ==> frames == old(frames)
      ensures ok ==> var k := if i < 0 then |old(frames)| + i else i;
                     frames == old(frames)[..k] + old(frames)[k + 1..]
      ensures frameCount == old(frameCount)
    {
      var n := |frames|;
      ok := -n <= i < n;
      if ok {
        var k := if i < 0 then n + i else i;
        frames := frames[..k] + frames[k + 1..];
      }
    }

    /** The document save_to_json writes. */
    method SaveToJson() returns (doc: ShotList)
      ensures doc.frameCount == frameCount && doc.frames == frames
    {
      doc := ShotList(frameCount, frames);
    }

    /** `doc` is the document read from the file, or None when opening or
        parsing it failed; either way the list is emptied first. */
    method LoadFromJson(doc: Option<ShotList>)
      modifies this
      ensures State() == Loaded(old(State()), doc)
    {
      Clear();
      if doc.Some? {
        SetFrames(doc.value.frameCount, doc.value.frames);
      }
    }
  }

  /** Saving and then loading through the database object gives back the
      same frame count and frames when the frames are strictly increasing. */
  method SaveThenLoad(db: ShotBoardDb)
    requires StrictlyIncreasing(db.frames)
    modifies db
    ensures db.frameCount == old(db.frameCount) && db.frames == old(db.frames)
  {
    var doc := db.SaveToJson();
    db.LoadFromJson(Some(doc));
    SaveLoadRoundTrip(doc, ShotList(doc.frameCount, []));
  }

  /** Inserting `x` at a position with only smaller entries before it and
      no smaller ones after it keeps a non-decreasing list non-decreasing. */
  lemma InsertAtSortedPosition(s: seq<int>, index: nat, x: int)
    requires index <= |s| && NonDecreasing(s)
    requires forall j :: 0 <= j < index ==> s[j] < x
    requires forall j :: index <= j < |s| ==> x <= s[j]
    ensures var r := InsertAt(s, index, x);
            && NonDecreasing(r)
            && (forall j :: 0 <= j < index ==> r[j] < x)
            && (forall j :: index < j < |r| ==> x <= r[j])
  {
    var r := InsertAt(s, index, x);
    forall i, j | 0 <= i < j < |r| ensures r[i] <= r[j] {
      if j < index {
        assert r[i] == s[i] && r[j] == s[j];
      } else if i > index {
        assert r[i] == s[i - 1] && r[j] == s[j - 1];
      } else if i < index {
        assert r[i] == s[i];
      } else {
        assert r[j] == s[j - 1];
      }
    }
    forall j | 0 <= j < index ensures r[j] < x {
      assert r[j] == s[j];
    }
    forall j | index < j < |r| ensures x <= r[j] {
      assert r[j] == s[j - 1];
    }
  }
}
