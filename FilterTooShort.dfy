/** Utils/filter_too_short.py: drops the shots that start fewer than 3 frames
    after the entry before them in the original list. Reading and writing the
    JSON file and renaming the original are outside the model; the document is
    the record it holds. */
module FilterTooShort {
  import opened PyList

  /** The smallest gap, in frames, between an entry and its predecessor for
      the entry to be kept. */
  const MIN_GAP: int := 3

  /** The document the script reads: `{frame_count, shots}`. */
  datatype ShotDoc = ShotDoc(frameCount: int, shots: seq<int>)

  /** Entry `i` survives: the first one always does; any other one when it is
      at least MIN_GAP after its original predecessor. */
  predicate Kept(shots: seq<int>, i: nat)
    requires i < |shots|
  {
    i == 0 || shots[i] - shots[i - 1] >= MIN_GAP
  }

  /** The filtered list after the loop has looked at the first `n` entries. */
  function Filtered(shots: seq<int>, n: nat): seq<int>
    requires 1 <= n <= |shots|
  {
    if n == 1 then [shots[0]]
    else Filtered(shots, n - 1) + (if Kept(shots, n - 1) then [shots[n - 1]] else [])
  }

  /** The positions of the entries `Filtered(shots, n)` keeps, in order. */
  function KeptPositions(shots: seq<int>, n: nat): seq<nat>
    requires 1 <= n <= |shots|
  {
    if n == 1 then [0]
    else KeptPositions(shots, n - 1) + (if Kept(shots, n - 1) then [n - 1] else [])
  }

  /** The filtered list is the entries at the kept positions, which increase,
      and exactly the positions satisfying Kept are among them. */
  lemma {:induction false} FilteredIsKeptSubsequence(shots: seq<int>, n: nat)
    requires 1 <= n <= |shots|
    ensures var f, p := Filtered(shots, n), KeptPositions(shots, n);
            && |p| == |f|
            && (forall k :: 0 <= k < |p| ==> p[k] < n && f[k] == shots[p[k]])
            && (forall k, l :: 0 <= k < l < |p| ==> p[k] < p[l])
            && (forall i :: 0 <= i < n ==> (i in p <==> Kept(shots, i)))
    decreases n
  {
    if n > 1 {
      FilteredIsKeptSubsequence(shots, n - 1);
      var p := KeptPositions(shots, n - 1);
      forall i | 0 <= i < n
        ensures i in KeptPositions(shots, n) <==> Kept(shots, i)
      {
        if i == n - 1 {
          assert i !in p;
        }
      }
    }
  }

  /** The first entry is always kept, and at most every entry is. */
  lemma {:induction false} FilteredBounds(shots: seq<int>, n: nat)
    requires 1 <= n <= |shots|
    ensures 1 <= |Filtered(shots, n)| <= n
    ensures Filtered(shots, n)[0] == shots[0]
    decreases n
  {
    if n > 1 {
      FilteredBounds(shots, n - 1);
    }
  }

  /** On a non-decreasing list, consecutive kept entries are at least MIN_GAP
      apart: the next kept entry is MIN_GAP past its predecessor, which is no
      smaller than the previous kept entry. */
  lemma FilteredSpacing(shots: seq<int>, n: nat)
    requires 1 <= n <= |shots|
    requires NonDecreasing(shots)
    ensures forall k :: 0 <= k < |Filtered(shots, n)| - 1 ==>
              Filtered(shots, n)[k + 1] - Filtered(shots, n)[k] >= MIN_GAP
  {
    FilteredIsKeptSubsequence(shots, n);
    var f, p := Filtered(shots, n), KeptPositions(shots, n);
    forall k | 0 <= k < |f| - 1
      ensures f[k + 1] - f[k] >= MIN_GAP
    {
      var i, j := p[k], p[k + 1];
      assert i < j && j in p && Kept(shots, j);
      assert shots[i] <= shots[j - 1];
    }
  }

  /** The script's loop; None stands for the IndexError that `shots[0]`
      raises on an empty list. */
  method FilterShots(shots: seq<int>) returns (r: Option<seq<int>>)
    ensures r.None? <==> |shots| == 0
    ensures r.Some? ==> r.value == Filtered(shots, |shots|)
  {
    if |shots| == 0 {
      return None;
    }
    var filtered := [shots[0]];
    for i := 1 to |shots|
      invariant filtered == Filtered(shots, i)
    {
      if shots[i] - shots[i - 1] >= MIN_GAP {
        filtered := filtered + [shots[i]];
      }
    }
    r := Some(filtered);
  }

  /** The document written back: only the shot list is replaced. */
  method FilterDocument(doc: ShotDoc) returns (r: Option<ShotDoc>)
    ensures r.None? <==> |doc.shots| == 0
    ensures r.Some? ==> r.value == doc.(shots := Filtered(doc.shots, |doc.shots|))
    ensures r.Some? ==> r.value.frameCount == doc.frameCount
  {
    var filtered := FilterShots(doc.shots);
    match filtered
    case None => r := None;
    case Some(s) => r := Some(doc.(shots := s));
  }
}
