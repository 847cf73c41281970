/** Python list operations the shot board relies on: slicing with Python's
    bound normalisation, `insert`, `del` on a slice, `index`, `remove` and
    the binary search of `bisect.bisect_left`. */
module PyList {

  datatype Option<T> = None | Some(value: T)

  function Min(a: int, b: int): int { if a <= b then a else b }
  function Max(a: int, b: int): int { if a <= b then b else a }

  predicate NonDecreasing(s: seq<int>) {
    forall i, j :: 0 <= i < j < |s| ==> s[i] <= s[j]
  }

  predicate StrictlyIncreasing(s: seq<int>) {
    forall i, j :: 0 <= i < j < |s| ==> s[i] < s[j]
  }

  /** `s[i] < s[j]`, named so that a fact about every pair is used only
      where a pair is named. */
  predicate Ascends(s: seq<int>, i: nat, j: nat)
    requires i < j < |s|
  {
    s[i] < s[j]
  }

  /** StrictlyIncreasing stated through Ascends. */
  predicate AscendingPairs(s: seq<int>) {
    forall i, j :: 0 <= i < j < |s| ==> Ascends(s, i, j)
  }

  lemma StrictHasAscendingPairs(s: seq<int>)
    requires StrictlyIncreasing(s)
    ensures AscendingPairs(s)
  {
  }

  lemma AscendingPairsAreStrict(s: seq<int>)
    requires AscendingPairs(s)
    ensures StrictlyIncreasing(s)
  {
    forall i, j | 0 <= i < j < |s| ensures s[i] < s[j] {
      assert Ascends(s, i, j);
    }
  }

  lemma StrictIsNonDecreasing(s: seq<int>)
    requires StrictlyIncreasing(s)
    ensures NonDecreasing(s)
  {
  }

  /** How Python turns a slice bound `i` into a position of a list of length
      `n`: a negative bound counts from the end, and both ends are clamped. */
  function SliceBound(i: int, n: nat): (b: nat)
    ensures b <= n
    ensures 0 <= i <= n ==> b == i
    ensures i < 0 && 0 <= n + i ==> b == n + i
  {
    if i < 0 then (if n + i < 0 then 0 else n + i)
    else if i > n then n
    else i
  }

  /** The clamping half of Python's slice bound: past the end is the end,
      and a negative bound reaching before the start is the start. */
  lemma SliceBoundClamps(i: int, n: nat)
    ensures i > n ==> SliceBound(i, n) == n
    ensures n + i < 0 ==> SliceBound(i, n) == 0
  {
  }

  /** `s[:k]` */
  function Take<T>(s: seq<T>, k: int): (r: seq<T>)
    ensures |r| <= |s|
    ensures r == s[..|r|]
    ensures 0 <= k <= |s| ==> |r| == k
  {
    s[..SliceBound(k, |s|)]
  }

  /** `del s[a:b]`: the positions from the first bound up to (excluding) the
      second are removed; a slice whose bounds cross removes nothing. */
  function DelSlice<T>(s: seq<T>, a: int, b: int): (r: seq<T>)
    ensures 0 <= a <= b <= |s| ==> r == s[..a] + s[b..]
  {
    var lo := SliceBound(a, |s|);
    var hi := SliceBound(b, |s|);
    if hi <= lo then s else s[..lo] + s[hi..]
  }

  /** `s.insert(i, x)` for a position inside the list or at its end */
  function InsertAt<T>(s: seq<T>, i: nat, x: T): (r: seq<T>)
    requires i <= |s|
    ensures |r| == |s| + 1 && r[i] == x
    ensures r[..i] == s[..i] && r[i + 1..] == s[i..]
    ensures multiset(r) == multiset(s) + multiset{x}
  {
    assert s == s[..i] + s[i..];
    s[..i] + [x] + s[i..]
  }

  /** `s.insert(i, x)` for any non-negative position: Python appends when
      the position is past the end. */
  function ListInsert<T>(s: seq<T>, i: nat, x: T): (r: seq<T>)
    ensures |r| == |s| + 1
    ensures i <= |s| ==> r == InsertAt(s, i, x)
    ensures |s| <= i ==> r == s + [x]
  {
    if i <= |s| then InsertAt(s, i, x)
    else
      assert InsertAt(s, |s|, x) == s + [x];
      InsertAt(s, |s|, x)
  }

  /** The number of entries below `x` in a sorted list, which is where
      bisect_left puts `x`. It is counted from the end of the list. */
  function SortedPosition(a: seq<int>, x: int): (n: nat)
    ensures n <= |a|
  {
    if |a| == 0 || a[|a| - 1] < x then |a| else SortedPosition(a[..|a| - 1], x)
  }

  /** On a sorted list only one position has every entry before it below
      `x` and the entry at it (if any) at least `x`: the sorted position. */
  lemma {:induction false} SortedPositionOf(a: seq<int>, x: int, i: nat)
    requires NonDecreasing(a) && i <= |a|
    requires 0 < i ==> a[i - 1] < x
    requires i < |a| ==> x <= a[i]
    ensures i == SortedPosition(a, x)
  {
    if |a| > 0 && x <= a[|a| - 1] {
      var b := a[..|a| - 1];
      assert i < |a|;
      assert i < |b| ==> b[i] == a[i];
      SortedPositionOf(b, x, i);
    }
  }

  /** `s.index(x)`: the first position holding `x`, or None where Python
      raises ValueError. */
  function Index<T(==)>(s: seq<T>, x: T): (r: Option<nat>)
    ensures r.None? <==> x !in s
    ensures r.Some? ==> r.value < |s| && s[r.value] == x && x !in s[..r.value]
  {
    if |s| == 0 then None
    else if s[0] == x then Some(0)
    else match Index(s[1..], x)
      case None => None
      case Some(i) => assert s[..i + 1] == [s[0]] + s[1..][..i]; Some(i + 1)
  }

  /** `s.remove(x)` for an element that is present: the first occurrence is
      deleted and everything else keeps its order. */
  function RemoveFirst<T(==)>(s: seq<T>, x: T): (r: seq<T>)
    requires x in s
    ensures |r| == |s| - 1
    ensures multiset(r) == multiset(s) - multiset{x}
    ensures exists i :: 0 <= i < |s| && s[i] == x && x !in s[..i] && r == s[..i] + s[i + 1..]
  {
    var i := Index(s, x).value;
    assert s == s[..i] + [s[i]] + s[i + 1..];
    s[..i] + s[i + 1..]
  }

  /** Removing a slice from a strictly increasing list leaves it strictly
      increasing. */
  lemma DelSliceKeepsStrict(s: seq<int>, a: int, b: int)
    requires StrictlyIncreasing(s)
    ensures StrictlyIncreasing(DelSlice(s, a, b))
  {
    var lo := SliceBound(a, |s|);
    var hi := SliceBound(b, |s|);
    if lo < hi {
      var r := s[..lo] + s[hi..];
      forall i, j | 0 <= i < j < |r| ensures r[i] < r[j] {
        var si := if i < lo then i else i - lo + hi;
        var sj := if j < lo then j else j - lo + hi;
        assert r[i] == s[si] && r[j] == s[sj] && si < sj;
      }
    }
  }

  /** `bisect.bisect_left(a, x)` as CPython runs it. On a sorted list the
      result is the leftmost position where `x` can be inserted keeping the
      list sorted. */
  method BisectLeft(a: seq<int>, x: int) returns (i: nat)
    ensures i <= |a|
    ensures NonDecreasing(a) ==> forall j :: 0 <= j < i ==> a[j] < x
    ensures NonDecreasing(a) ==> forall j :: i <= j < |a| ==> x <= a[j]
    ensures 0 < i ==> a[i - 1] < x
    ensures i < |a| ==> x <= a[i]
  {
    var lo, hi := 0, |a|;
    while lo < hi
      invariant 0 <= lo <= hi <= |a|
      invariant NonDecreasing(a) ==> forall j :: 0 <= j < lo ==> a[j] < x
      invariant NonDecreasing(a) ==> forall j :: hi <= j < |a| ==> x <= a[j]
      invariant 0 < lo ==> a[lo - 1] < x
      invariant hi < |a| ==> x <= a[hi]
    {
      var mid := (lo + hi) / 2;
      if a[mid] < x {
        lo := mid + 1;
      } else {
        hi := mid;
      }
    }
    i := lo;
  }
}
