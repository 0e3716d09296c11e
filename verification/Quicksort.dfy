/** The non-recursive quicksort of benchmark/qsort.c: insertion sort below M elements,
    median-of-three partition with sentinels, and an explicit stack of segments.  The
    floats are modelled as reals, a total order. */
module Quicksort {

  const M := 7
  const STACK_SIZE := 100

  // ---------- Orderings on the array's contents ----------

  /** Positions below `c` hold nothing larger than positions from `c` on. */
  ghost predicate Cut(s: seq<real>, n: int, c: int)
    requires n < |s|
  {
    forall x, y :: 1 <= x < c <= y <= n ==> s[x] <= s[y]
  }

  ghost predicate Sorted(s: seq<real>, lo: int, hi: int)
    requires 0 <= lo && hi < |s|
  {
    forall x, y :: lo <= x < y <= hi ==> s[x] <= s[y]
  }

  /** `t` rearranges positions `lo..hi` of `s` and leaves the others alone. */
  ghost predicate Rearranged(s: seq<real>, t: seq<real>, lo: int, hi: int)
    requires 0 <= lo <= hi + 1 <= |s|
  {
    && |t| == |s|
    && (forall k :: 0 <= k < |s| && !(lo <= k <= hi) ==> t[k] == s[k])
    && multiset(t[lo..hi + 1]) == multiset(s[lo..hi + 1])
  }

  lemma RearrangedHas(s: seq<real>, t: seq<real>, lo: int, hi: int, k: int) returns (j: int)
    requires 0 <= lo <= hi + 1 <= |s| && Rearranged(s, t, lo, hi) && lo <= k <= hi
    ensures lo <= j <= hi && t[k] == s[j]
  {
    assert t[lo..hi + 1][k - lo] in multiset(t[lo..hi + 1]);
    assert t[k] in s[lo..hi + 1];
    j :| lo <= j <= hi && s[j] == t[k];
  }

  lemma MultisetParts(s: seq<real>, t: seq<real>, lo: int, hi: int, a: int, b: int)
    requires 0 <= lo <= a <= b + 1 <= hi + 1 <= |s| && Rearranged(s, t, a, b)
    ensures Rearranged(s, t, lo, hi)
  {
    assert s[lo..hi + 1] == s[lo..a] + s[a..b + 1] + s[b + 1..hi + 1];
    assert t[lo..hi + 1] == t[lo..a] + t[a..b + 1] + t[b + 1..hi + 1];
    assert s[lo..a] == t[lo..a] && s[b + 1..hi + 1] == t[b + 1..hi + 1];
  }

  lemma RearrangedTwice(s: seq<real>, t: seq<real>, u: seq<real>, lo: int, hi: int)
    requires 0 <= lo <= hi + 1 <= |s| && Rearranged(s, t, lo, hi) && Rearranged(t, u, lo, hi)
    ensures Rearranged(s, u, lo, hi)
  {
  }

  function Swapped(s: seq<real>, x: int, y: int): seq<real>
    requires 0 <= x < |s| && 0 <= y < |s|
  {
    s[x := s[y]][y := s[x]]
  }

  lemma SwapRearranges(s: seq<real>, lo: int, hi: int, x: int, y: int)
    requires 0 <= lo <= x <= hi < |s| && lo <= y <= hi
    ensures Rearranged(s, Swapped(s, x, y), lo, hi)
  {
    if x < y {
      SwapParts(s, lo, hi, x, y);
    } else if y < x {
      SwapParts(s, lo, hi, y, x);
      assert Swapped(s, x, y) == Swapped(s, y, x);
    }
  }

  lemma SliceParts(s: seq<real>, lo: int, hi: int, x: int, y: int)
    requires 0 <= lo <= x < y <= hi < |s|
    ensures s[lo..hi + 1] == s[lo..x] + [s[x]] + s[x + 1..y] + [s[y]] + s[y + 1..hi + 1]
  {
  }

  lemma ExchangeParts(a: seq<real>, x: real, b: seq<real>, y: real, c: seq<real>)
    ensures multiset(a + [x] + b + [y] + c) == multiset(a + [y] + b + [x] + c)
  {
  }

  lemma SwapParts(s: seq<real>, lo: int, hi: int, x: int, y: int)
    requires 0 <= lo <= x < y <= hi < |s|
    ensures Rearranged(s, Swapped(s, x, y), lo, hi)
  {
    var t := Swapped(s, x, y);
    SliceParts(s, lo, hi, x, y);
    SliceParts(t, lo, hi, x, y);
    assert t[lo..x] == s[lo..x] && t[x + 1..y] == s[x + 1..y] && t[y + 1..hi + 1] == s[y + 1..hi + 1];
    ExchangeParts(s[lo..x], s[x], s[x + 1..y], s[y], s[y + 1..hi + 1]);
  }

  /** Rearranging a segment keeps every cut that does not run through it. */
  lemma RearrangedKeepsCut(s: seq<real>, t: seq<real>, n: int, lo: int, hi: int, c: int)
    requires 1 <= lo <= hi <= n < |s| && Rearranged(s, t, lo, hi) && Cut(s, n, c) && (c <= lo || hi < c)
    ensures Cut(t, n, c)
  {
    forall x, y | 1 <= x < c <= y <= n ensures t[x] <= t[y] {
      var x', y' := x, y;
      if lo <= x <= hi {
        x' := RearrangedHas(s, t, lo, hi, x);
      }
      if lo <= y <= hi {
        y' := RearrangedHas(s, t, lo, hi, y);
      }
      assert s[x'] <= s[y'];
    }
  }

  // ---------- Insertion sort of a short segment ----------

  /** `s` with `s[j]` taken out and put in at `i`. */
  function Moved(s: seq<real>, i: int, j: int): seq<real>
    requires 0 <= i <= j < |s|
  {
    s[..i] + [s[j]] + s[i..j] + s[j + 1..]
  }

  /** `s` while the elements above `i` are shifted up to make room: `s[i + 1]` is there
      twice and `s[j]` is in hand. */
  function Shifted(s: seq<real>, i: int, j: int): seq<real>
    requires 0 <= i + 1 <= j < |s|
  {
    s[..i + 2] + s[i + 1..j] + s[j + 1..]
  }

  lemma ShiftOn(s: seq<real>, i: int, j: int)
    requires 0 <= i < j < |s|
    ensures |Shifted(s, i, j)| == |s| && Shifted(s, i, j)[i] == s[i]
    ensures Shifted(s, i, j)[i + 1 := s[i]] == Shifted(s, i - 1, j)
  {
  }

  lemma NothingShifted(s: seq<real>, j: int)
    requires 0 <= j < |s|
    ensures Shifted(s, j - 1, j) == s
  {
  }

  lemma ShiftEnds(s: seq<real>, i: int, j: int)
    requires 0 <= i + 1 <= j < |s|
    ensures |Shifted(s, i, j)| == |s|
    ensures Shifted(s, i, j)[i + 1 := s[j]] == Moved(s, i + 1, j)
  {
  }

  lemma MovedRearranges(s: seq<real>, i: int, j: int)
    requires 0 <= i <= j < |s|
    ensures Rearranged(s, Moved(s, i, j), i, j)
  {
    assert s[i..j + 1] == s[i..j] + [s[j]];
    assert Moved(s, i, j)[i..j + 1] == [s[j]] + s[i..j];
  }

  lemma MovedSorts(s: seq<real>, l: int, i: int, j: int)
    requires 0 <= l <= i <= j < |s| && Sorted(s, l, j - 1)
    requires i > l ==> s[i - 1] <= s[j]
    requires forall k :: i <= k < j ==> s[k] > s[j]
    ensures Sorted(Moved(s, i, j), l, j)
  {
    var t := Moved(s, i, j);
    forall x, y | l <= x < y <= j ensures t[x] <= t[y] {
      assert t[x] == if x < i then s[x] else if x == i then s[j] else s[x - 1];
      assert t[y] == if y < i then s[y] else if y == i then s[j] else s[y - 1];
    }
  }

  /** Shifts position `i` up if it is larger than `a`. */
  method ShiftUp(arr: array<real>, i: int, j: int, a: real, ghost s: seq<real>) returns (moved: bool)
    requires 0 <= i < j < |s| && arr[..] == Shifted(s, i, j)
    modifies arr
    ensures moved <==> s[i] > a
    ensures arr[..] == if moved then Shifted(s, i - 1, j) else Shifted(s, i, j)
  {
    ShiftOn(s, i, j);
    assert arr[..][i] == s[i];
    if arr[i] <= a {
      return false;
    }
    arr[i + 1] := arr[i];
    return true;
  }

  /** Moves position `j` down past the larger ones of `l..j-1`. */
  method InsertOne(arr: array<real>, l: int, j: int) returns (ghost at: int)
    requires 1 <= l < j < arr.Length
    modifies arr
    ensures l <= at <= j && arr[..] == Moved(old(arr[..]), at, j)
    ensures at > l ==> old(arr[at - 1]) <= old(arr[j])
    ensures forall k :: at <= k < j ==> old(arr[k]) > old(arr[j])
  {
    ghost var s := arr[..];
    var a := arr[j];
    assert a == s[j];
    var i := j - 1;
    NothingShifted(s, j);
    while i >= l
      invariant l - 1 <= i <= j - 1 && arr[..] == Shifted(s, i, j)
      invariant forall k :: i < k < j ==> s[k] > a
    {
      var moved := ShiftUp(arr, i, j, a, s);
      if !moved {
        break;
      }
      i := i - 1;
    }
    PutBack(arr, i, j, a, s);
    at := i + 1;
  }

  /** The element in hand goes to its place. */
  method PutBack(arr: array<real>, i: int, j: int, a: real, ghost s: seq<real>)
    requires 0 <= i + 1 <= j < |s| && arr[..] == Shifted(s, i, j) && a == s[j]
    modifies arr
    ensures arr[..] == Moved(s, i + 1, j)
  {
    ShiftEnds(s, i, j);
    assert arr.Length == |s|;
    arr[i + 1] := a;
  }

  /** Sorts positions `l..ir` by insertion. */
  method InsertionSort(arr: array<real>, l: int, ir: int)
    requires 1 <= l <= ir < arr.Length
    modifies arr
    ensures Rearranged(old(arr[..]), arr[..], l, ir) && Sorted(arr[..], l, ir)
  {
    for j := l + 1 to ir + 1
      invariant Rearranged(old(arr[..]), arr[..], l, ir)
      invariant Sorted(arr[..], l, j - 1)
    {
      ghost var s := arr[..];
      ghost var at := InsertOne(arr, l, j);
      MovedRearranges(s, at, j);
      MultisetParts(s, arr[..], l, ir, at, j);
      RearrangedTwice(old(arr[..]), s, arr[..], l, ir);
      MovedSorts(s, l, at, j);
    }
  }

  // ---------- Partition ----------

  /** Exchanges two positions of a segment that rearranges the ghost contents `s`. */
  method Swap(arr: array<real>, x: int, y: int, ghost s: seq<real>, ghost lo: int, ghost hi: int)
    requires 0 <= lo <= x <= hi < arr.Length && lo <= y <= hi
    requires |s| == arr.Length && Rearranged(s, arr[..], lo, hi)
    modifies arr
    ensures arr[..] == Swapped(old(arr[..]), x, y)
    ensures Rearranged(s, arr[..], lo, hi)
  {
    SwapRearranges(arr[..], lo, hi, x, y);
    ghost var before := arr[..];
    var temp := arr[x];
    arr[x] := arr[y];
    arr[y] := temp;
    RearrangedTwice(s, before, arr[..], lo, hi);
  }

  /** Exchanges two positions if they are out of order. */
  method Order(arr: array<real>, x: int, y: int, ghost s: seq<real>, ghost lo: int, ghost hi: int)
    requires 0 <= lo <= x <= hi < arr.Length && lo <= y <= hi && x != y
    requires |s| == arr.Length && Rearranged(s, arr[..], lo, hi)
    modifies arr
    ensures Rearranged(s, arr[..], lo, hi)
    ensures old(arr[x]) <= old(arr[y]) ==> arr[x] == old(arr[x]) && arr[y] == old(arr[y])
    ensures old(arr[x]) > old(arr[y]) ==> arr[x] == old(arr[y]) && arr[y] == old(arr[x])
    ensures forall k :: 0 <= k < arr.Length && k != x && k != y ==> arr[k] == old(arr[k])
  {
    if arr[x] > arr[y] {
      Swap(arr, x, y, s, lo, hi);
    }
  }

  /** Puts the median of the first, middle and last element at `l + 1`, so that the two
      ends become sentinels for the scans. */
  method MedianOfThree(arr: array<real>, l: int, ir: int)
    requires 1 <= l && l + M <= ir < arr.Length
    modifies arr
    ensures Rearranged(old(arr[..]), arr[..], l, ir)
    ensures arr[l] <= arr[l + 1] <= arr[ir]
  {
    ghost var s := arr[..];
    var k := (l + ir) / 2;
    Swap(arr, k, l + 1, s, l, ir);
    Order(arr, l, ir, s, l, ir);
    Order(arr, l + 1, ir, s, l, ir);
    Order(arr, l, l + 1, s, l, ir);
  }

  /** `lo..hi` holds nothing above `a`, respectively nothing below. */
  ghost predicate AtMost(s: seq<real>, lo: int, hi: int, a: real)
    requires 0 <= lo && hi < |s|
  {
    forall k :: lo <= k <= hi ==> s[k] <= a
  }

  ghost predicate AtLeast(s: seq<real>, lo: int, hi: int, a: real)
    requires 0 <= lo && hi < |s|
  {
    forall k :: lo <= k <= hi ==> s[k] >= a
  }

  /** The two inner scans: the indexes never leave `l..ir` although only the values of
      the array stop them. */
  method ScanOnce(arr: array<real>, l: int, ir: int, i0: int, j0: int, a: real) returns (i: int, j: int)
    requires 1 <= l && l + 1 <= i0 <= j0 <= ir < arr.Length && i0 < ir && l + 2 <= j0
    requires AtMost(arr[..], l, i0, a) && AtLeast(arr[..], j0, ir, a)
    ensures i0 < i <= ir && l + 1 <= j < j0
    ensures AtMost(arr[..], l, i - 1, a) && AtLeast(arr[..], j + 1, ir, a)
    ensures arr[i] >= a && arr[j] <= a
  {
    i := i0 + 1;
    while arr[i] < a
      invariant i0 < i <= ir && (i <= j0 || i == i0 + 1)
      invariant AtMost(arr[..], l, i - 1, a)
      decreases ir - i
    {
      assert i < j0;
      i := i + 1;
    }
    j := j0 - 1;
    while arr[j] > a
      invariant l + 1 <= j < j0 && (i0 <= j || j == j0 - 1)
      invariant AtLeast(arr[..], j + 1, ir, a)
      decreases j
    {
      assert i0 < j;
      j := j - 1;
    }
  }

  /** Scans and exchanges until the indexes cross. */
  method Scan(arr: array<real>, l: int, ir: int) returns (i: int, j: int)
    requires 1 <= l && l + M <= ir < arr.Length && arr[l] <= arr[l + 1] <= arr[ir]
    modifies arr
    ensures l + 1 <= j < i <= ir
    ensures arr[l + 1] == old(arr[l + 1])
    ensures Rearranged(old(arr[..]), arr[..], l, ir)
    ensures AtMost(arr[..], l, i - 1, arr[l + 1]) && AtLeast(arr[..], j + 1, ir, arr[l + 1])
    ensures arr[j] <= arr[l + 1]
  {
    i, j := l + 1, ir;
    var a := arr[l + 1];
    while true
      invariant l + 1 <= i <= j <= ir && i < ir && l + 2 <= j && arr[l + 1] == a
      invariant Rearranged(old(arr[..]), arr[..], l, ir)
      invariant AtMost(arr[..], l, i, a) && AtLeast(arr[..], j, ir, a)
      decreases j - i
    {
      i, j := ScanOnce(arr, l, ir, i, j, a);
      if j < i {
        break;
      }
      Swap(arr, i, j, old(arr[..]), l, ir);
    }
  }

  /** Partitions `l..ir` around the median: up to `j - 1` nothing above the pivot, from
      `j` to `i - 1` the pivot, from `i` nothing below it; no part is empty. */
  method Partition(arr: array<real>, l: int, ir: int) returns (i: int, j: int)
    requires 1 <= l && l + M <= ir < arr.Length
    modifies arr
    ensures l < j < i <= ir
    ensures Rearranged(old(arr[..]), arr[..], l, ir)
    ensures AtMost(arr[..], l, i - 1, arr[j]) && AtLeast(arr[..], j, ir, arr[j])
  {
    ghost var s := arr[..];
    MedianOfThree(arr, l, ir);
    ghost var t := arr[..];
    i, j := Scan(arr, l, ir);
    RearrangedTwice(s, t, arr[..], l, ir);
    PlacePivot(arr, l, j, s, ir);
  }

  method PlacePivot(arr: array<real>, l: int, j: int, ghost s: seq<real>, ghost ir: int)
    requires 1 <= l < j <= ir < arr.Length && |s| == arr.Length && Rearranged(s, arr[..], l, ir)
    modifies arr
    ensures arr[..] == Swapped(old(arr[..]), l + 1, j) && Rearranged(s, arr[..], l, ir)
  {
    SwapRearranges(arr[..], l, ir, l + 1, j);
    ghost var t := arr[..];
    var a := arr[l + 1];
    arr[l + 1] := arr[j];
    arr[j] := a;
    RearrangedTwice(s, t, arr[..], l, ir);
  }

  // ---------- The segments still to be sorted ----------

  datatype Segment = Segment(lo: int, hi: int) {
    function Size(): int {
      hi - lo + 1
    }
  }

  function Pow2(k: nat): (p: int)
    ensures p >= 1
  {
    if k == 0 then 1 else 2 * Pow2(k - 1)
  }

  lemma FiveMore(k: nat)
    ensures Pow2(k + 5) == 32 * Pow2(k)
  {
    assert Pow2(k + 2) == 4 * Pow2(k);
    assert Pow2(k + 4) == 4 * Pow2(k + 2);
  }

  lemma TenMore(k: nat)
    ensures Pow2(k + 10) == 1024 * Pow2(k)
  {
    FiveMore(k);
    FiveMore(k + 5);
  }

  lemma FiftyMore(k: nat)
    ensures Pow2(k + 50) == 0x4_0000_0000_0000 * Pow2(k)
  {
    TenMore(k);
    TenMore(k + 10);
    TenMore(k + 20);
    TenMore(k + 30);
    TenMore(k + 40);
  }

  /** The segment at depth `k` has at most `n / 2^k` elements and lies between cuts. */
  ghost predicate SegmentOk(s: seq<real>, n: int, g: Segment, k: nat)
    requires n < |s|
  {
    1 <= g.lo <= g.hi <= n && Cut(s, n, g.lo) && Cut(s, n, g.hi + 1) && Pow2(k) * g.Size() <= n
  }

  ghost predicate Apart(g: Segment, h: Segment) {
    g.hi < h.lo || h.hi < g.lo
  }

  ghost predicate Within(c: int, g: Segment) {
    g.lo < c <= g.hi
  }

  ghost predicate Covered(all: seq<Segment>, c: int) {
    exists k :: 0 <= k < |all| && Within(c, all[k])
  }

  /** `all` is the stack from the bottom, the current segment last: disjoint segments
      that hold every place where the array is not yet cut. */
  ghost predicate Pending(s: seq<real>, n: int, all: seq<Segment>)
    requires n < |s|
  {
    && (forall k {:trigger SegmentOk(s, n, all[k], k)} :: 0 <= k < |all| ==> SegmentOk(s, n, all[k], k))
    && (forall j, k {:trigger Apart(all[j], all[k])} :: 0 <= j < k < |all| ==> Apart(all[j], all[k]))
    && forall c :: 2 <= c <= n ==> Cut(s, n, c) || Covered(all, c)
  }

  ghost function Total(all: seq<Segment>): int {
    if all == [] then 0 else Total(all[..|all| - 1]) + all[|all| - 1].Size()
  }

  lemma {:induction false} PendingPrefix(s: seq<real>, n: int, all: seq<Segment>)
    requires n < |s| && all != []
    requires forall k :: 0 <= k < |all| ==> SegmentOk(s, n, all[k], k)
    ensures Total(all[..|all| - 1]) >= 0 && Total(all) >= 1
  {
    var t := all[..|all| - 1];
    if t != [] {
      PendingPrefix(s, n, t);
    }
    assert SegmentOk(s, n, all[|all| - 1], |all| - 1);
  }

  /** Sorting or partitioning one segment leaves the others as they are. */
  lemma OthersStay(s: seq<real>, t: seq<real>, n: int, g: Segment, h: Segment, k: nat)
    requires n < |s| && 1 <= g.lo <= g.hi <= n && Rearranged(s, t, g.lo, g.hi)
    requires SegmentOk(s, n, h, k) && Apart(g, h)
    ensures SegmentOk(t, n, h, k)
  {
    RearrangedKeepsCut(s, t, n, g.lo, g.hi, h.lo);
    RearrangedKeepsCut(s, t, n, g.lo, g.hi, h.hi + 1);
  }

  /** All places of a sorted segment between cuts are cuts. */
  lemma SortedSegmentIsCut(t: seq<real>, n: int, g: Segment, c: int)
    requires n < |t| && 1 <= g.lo <= g.hi <= n && Cut(t, n, g.lo) && Cut(t, n, g.hi + 1)
    requires Sorted(t, g.lo, g.hi) && Within(c, g)
    ensures Cut(t, n, c)
  {
    forall x, y | 1 <= x < c <= y <= n ensures t[x] <= t[y] {
      assert x < g.lo || y > g.hi || t[x] <= t[y];
    }
  }

  lemma PopKeeps(s: seq<real>, t: seq<real>, n: int, all: seq<Segment>)
    requires n < |s| && Pending(s, n, all) && all != []
    requires var g := all[|all| - 1];
      0 <= g.lo <= g.hi + 1 <= |s| && Rearranged(s, t, g.lo, g.hi) && Sorted(t, g.lo, g.hi)
    ensures Pending(t, n, all[..|all| - 1])
  {
    var d := |all| - 1;
    var g, rest := all[d], all[..d];
    assert SegmentOk(s, n, g, d);
    forall k | 0 <= k < d ensures SegmentOk(t, n, rest[k], k) {
      assert Apart(all[k], all[d]);
      OthersStay(s, t, n, g, all[k], k);
    }
    RearrangedKeepsCut(s, t, n, g.lo, g.hi, g.lo);
    RearrangedKeepsCut(s, t, n, g.lo, g.hi, g.hi + 1);
    forall c | 2 <= c <= n ensures Cut(t, n, c) || Covered(rest, c) {
      if Within(c, g) {
        SortedSegmentIsCut(t, n, g, c);
      } else if Cut(s, n, c) {
        RearrangedKeepsCut(s, t, n, g.lo, g.hi, c);
      } else {
        var k :| 0 <= k < |all| && Within(c, all[k]);
        assert rest[k] == all[k];
      }
    }
  }

  /** After the partition every place from `j` to `i` is a cut. */
  lemma PivotIsCut(t: seq<real>, n: int, g: Segment, i: int, j: int, c: int)
    requires n < |t| && 1 <= g.lo < j < i <= g.hi <= n && Cut(t, n, g.lo) && Cut(t, n, g.hi + 1)
    requires AtMost(t, g.lo, i - 1, t[j]) && AtLeast(t, j, g.hi, t[j]) && j <= c <= i
    ensures Cut(t, n, c)
  {
    forall x, y | 1 <= x < c <= y <= n ensures t[x] <= t[y] {
      assert x < g.lo || y > g.hi || t[x] <= t[j] <= t[y];
    }
  }

  /** What a partition of `g` gives: the parts, the larger one first. */
  ghost predicate Parted(s: seq<real>, t: seq<real>, n: int, g: Segment, i: int, j: int, big: Segment, small: Segment)
    requires n < |s|
  {
    && 1 <= g.lo < j < i <= g.hi <= n && Rearranged(s, t, g.lo, g.hi)
    && AtMost(t, g.lo, i - 1, t[j]) && AtLeast(t, j, g.hi, t[j])
    && ((big == Segment(i, g.hi) && small == Segment(g.lo, j - 1))
        || (big == Segment(g.lo, j - 1) && small == Segment(i, g.hi)))
    && small.Size() <= big.Size()
  }

  lemma PartsOk(s: seq<real>, t: seq<real>, n: int, g: Segment, d: nat, i: int, j: int, big: Segment, small: Segment)
    requires n < |s| && SegmentOk(s, n, g, d) && Parted(s, t, n, g, i, j, big, small)
    ensures SegmentOk(t, n, big, d) && SegmentOk(t, n, small, d + 1) && Apart(big, small)
    ensures Cut(t, n, g.lo) && Cut(t, n, g.hi + 1)
  {
    RearrangedKeepsCut(s, t, n, g.lo, g.hi, g.lo);
    RearrangedKeepsCut(s, t, n, g.lo, g.hi, g.hi + 1);
    PivotIsCut(t, n, g, i, j, i);
    PivotIsCut(t, n, g, i, j, j);
    HalfFits(d, g.Size(), big.Size(), small.Size(), n);
  }

  lemma PushKeeps(s: seq<real>, t: seq<real>, n: int, all: seq<Segment>, i: int, j: int, big: Segment, small: Segment)
    requires n < |s| && Pending(s, n, all) && all != []
    requires Parted(s, t, n, all[|all| - 1], i, j, big, small)
    ensures Pending(t, n, all[..|all| - 1] + [big, small])
  {
    var d := |all| - 1;
    var g, new_ := all[d], all[..d] + [big, small];
    assert SegmentOk(s, n, g, d);
    PartsOk(s, t, n, g, d, i, j, big, small);
    forall k | 0 <= k < |new_| ensures SegmentOk(t, n, new_[k], k) {
      if k < d {
        assert Apart(all[k], all[d]) && SegmentOk(s, n, all[k], k);
        OthersStay(s, t, n, g, all[k], k);
      }
    }
    forall x, y | 0 <= x < y < |new_| ensures Apart(new_[x], new_[y]) {
      if x < d {
        assert Apart(all[x], all[d]) && (y < d ==> Apart(all[x], all[y]));
      }
    }
    forall c | 2 <= c <= n ensures Cut(t, n, c) || Covered(new_, c) {
      NewCover(s, t, n, all, i, j, big, small, c);
    }
  }

  lemma PushShrinks(all: seq<Segment>, big: Segment, small: Segment)
    requires all != [] && big.Size() + small.Size() < all[|all| - 1].Size()
    ensures Total(all[..|all| - 1] + [big, small]) < Total(all)
  {
    var d := |all| - 1;
    var new_ := all[..d] + [big, small];
    assert new_[..d + 1] == all[..d] + [big];
    assert new_[..d + 1][..d] == all[..d];
  }

  lemma NewCover(s: seq<real>, t: seq<real>, n: int, all: seq<Segment>, i: int, j: int, big: Segment,
                 small: Segment, c: int)
    requires n < |s| && Pending(s, n, all) && all != [] && 2 <= c <= n
    requires var g := all[|all| - 1];
      Parted(s, t, n, g, i, j, big, small) && Cut(t, n, g.lo) && Cut(t, n, g.hi + 1)
    ensures Cut(t, n, c) || Covered(all[..|all| - 1] + [big, small], c)
  {
    var d := |all| - 1;
    var g, new_ := all[d], all[..d] + [big, small];
    assert new_[d] == big && new_[d + 1] == small;
    if Within(c, g) {
      if j <= c <= i {
        PivotIsCut(t, n, g, i, j, c);
      } else {
        assert Within(c, big) || Within(c, small);
      }
    } else if Cut(s, n, c) {
      RearrangedKeepsCut(s, t, n, g.lo, g.hi, c);
    } else {
      var k :| 0 <= k < |all| && Within(c, all[k]);
      assert new_[k] == all[k];
    }
  }

  /** The smaller part has less than half of the elements: the pivot is in neither. */
  lemma HalfFits(d: nat, whole: int, big: int, small: int, n: int)
    requires 0 <= small <= big && big + small < whole && Pow2(d) * whole <= n
    ensures Pow2(d) * big <= n && Pow2(d + 1) * small <= n
  {
    Scaled(Pow2(d), big, whole);
    Scaled(Pow2(d), 2 * small, whole);
    TwiceScaled(Pow2(d), small);
  }

  lemma Scaled(p: int, a: int, b: int)
    requires 0 <= p && a <= b
    ensures p * a <= p * b
  {
  }

  lemma TwiceScaled(p: int, a: int)
    ensures 2 * p * a == p * (2 * a)
  {
  }

  /** With nothing pending the array is sorted. */
  lemma NothingPending(s: seq<real>, n: int)
    requires n < |s| && Pending(s, n, []) && n >= 1
    ensures Sorted(s, 1, n)
  {
    forall x, y | 1 <= x < y <= n ensures s[x] <= s[y] {
      assert Cut(s, n, y) || Covered([], y);
    }
  }

  // ---------- The sort ----------

  /** Storing an unsigned long into an int of 32 bits. */
  function ToInt(x: int): int {
    var r := x % 0x1_0000_0000;
    if r < 0x8000_0000 then r else r - 0x1_0000_0000
  }

  /** The stack array holds the segments but the current one, two entries each, from
      index 1 on. */
  ghost predicate Stacked(st: seq<int>, all: seq<Segment>) {
    && |st| == STACK_SIZE && 2 * |all| <= STACK_SIZE
    && forall k :: 0 <= k < |all| - 1 ==> st[2 * k + 1] == all[k].lo && st[2 * k + 2] == all[k].hi
  }

  /** A stack as deep as `d` segments is used only for 2^d elements or more, so that
      100 entries suffice below 2^50. */
  lemma StackSuffices(d: nat, n: int)
    requires Pow2(d) <= n < 0x4_0000_0000_0000
    ensures 2 * d <= STACK_SIZE - 2
  {
    if d >= 50 {
      FiftyMore(d - 50);
    }
  }

  lemma DepthFits(s: seq<real>, n: int, all: seq<Segment>)
    requires n < |s| && Pending(s, n, all) && all != [] && n < 0x4_0000_0000_0000
    ensures Pow2(|all| - 1) <= n && 2 * (|all| - 1) <= STACK_SIZE - 2
    ensures forall k :: 0 <= k < |all| ==> 1 <= all[k].lo <= all[k].hi <= n
  {
    var d := |all| - 1;
    assert forall k :: 0 <= k < |all| ==> SegmentOk(s, n, all[k], k);
    Scaled(Pow2(d), 1, all[d].Size());
    StackSuffices(d, n);
  }

  lemma StackPushed(st: seq<int>, all: seq<Segment>, big: Segment, small: Segment)
    requires Stacked(st, all) && all != [] && 2 * |all| <= STACK_SIZE - 2
    ensures var j := 2 * |all|;
      Stacked(st[j := big.hi][j - 1 := big.lo], all[..|all| - 1] + [big, small])
  {
  }

  lemma StackPopped(st: seq<int>, all: seq<Segment>)
    requires Stacked(st, all) && |all| >= 2
    ensures var j := 2 * (|all| - 1); st[j] == all[|all| - 2].hi && st[j - 1] == all[|all| - 2].lo
    ensures Stacked(st, all[..|all| - 1])
  {
    var k := |all| - 2;
    assert st[2 * k + 1] == all[k].lo && st[2 * k + 2] == all[k].hi;
  }

  /** One turn on a short segment: sort it and take the next from the stack. */
  lemma TurnShrinks(s: seq<real>, n: int, all: seq<Segment>)
    requires n < |s| && Pending(s, n, all) && all != []
    ensures 0 <= Total(all[..|all| - 1]) < Total(all)
  {
    PendingPrefix(s, n, all);
    assert SegmentOk(s, n, all[|all| - 1], |all| - 1);
  }

  /** The part that is pushed: the right one unless it is smaller. */
  function Larger(l: int, ir: int, i: int, j: int): Segment {
    if ir - i + 1 >= j - l then Segment(i, ir) else Segment(l, j - 1)
  }

  function Smaller(l: int, ir: int, i: int, j: int): Segment {
    if ir - i + 1 >= j - l then Segment(l, j - 1) else Segment(i, ir)
  }

  /** The array is the original `s0` rearranged, and only `all` is left to be sorted. */
  ghost predicate Progress(s0: seq<real>, s: seq<real>, n: int, all: seq<Segment>)
    requires 1 <= n < |s0|
  {
    |s| == |s0| && Rearranged(s0, s, 1, n) && Pending(s, n, all)
  }

  method ShortTurn(arr: array<real>, l: int, ir: int, n: int, ghost s0: seq<real>, ghost all: seq<Segment>)
    requires 1 <= n < |s0| && |s0| == arr.Length && Progress(s0, arr[..], n, all)
    requires all != [] && all[|all| - 1] == Segment(l, ir)
    modifies arr
    ensures Progress(s0, arr[..], n, all[..|all| - 1])
    ensures 0 <= Total(all[..|all| - 1]) < Total(all)
  {
    ghost var s := arr[..];
    TurnShrinks(s, n, all);
    assert SegmentOk(s, n, all[|all| - 1], |all| - 1);
    InsertionSort(arr, l, ir);
    MultisetParts(s, arr[..], 1, n, l, ir);
    RearrangedTwice(s0, s, arr[..], 1, n);
    PopKeeps(s, arr[..], n, all);
  }

  method LongTurn(arr: array<real>, l: int, ir: int, n: int, ghost s0: seq<real>, ghost all: seq<Segment>)
    returns (i: int, j: int)
    requires 1 <= n < |s0| && |s0| == arr.Length && Progress(s0, arr[..], n, all)
    requires all != [] && all[|all| - 1] == Segment(l, ir) && l + M <= ir
    modifies arr
    ensures 1 <= l < j < i <= ir <= n
    ensures Progress(s0, arr[..], n, all[..|all| - 1] + [Larger(l, ir, i, j), Smaller(l, ir, i, j)])
    ensures 0 <= Total(all[..|all| - 1] + [Larger(l, ir, i, j), Smaller(l, ir, i, j)]) < Total(all)
    ensures n < 0x4_0000_0000_0000 ==> Pow2(|all|) <= n && 2 * |all| <= STACK_SIZE - 2
  {
    ghost var s := arr[..];
    assert SegmentOk(s, n, all[|all| - 1], |all| - 1);
    i, j := Partition(arr, l, ir);
    MultisetParts(s, arr[..], 1, n, l, ir);
    RearrangedTwice(s0, s, arr[..], 1, n);
    PushKeeps(s, arr[..], n, all, i, j, Larger(l, ir, i, j), Smaller(l, ir, i, j));
    PushShrinks(all, Larger(l, ir, i, j), Smaller(l, ir, i, j));
    ghost var all' := all[..|all| - 1] + [Larger(l, ir, i, j), Smaller(l, ir, i, j)];
    TurnShrinks(arr[..], n, all');
    if n < 0x4_0000_0000_0000 {
      DepthFits(arr[..], n, all');
    }
  }

  /** Stores a segment in the two entries below and at `jstack`. */
  method Push(istack: array<int>, jstack: int, lo: int, hi: int, ghost all: seq<Segment>, ghost small: Segment)
    requires Stacked(istack[..], all) && all != [] && jstack == 2 * |all| <= STACK_SIZE - 2
    requires 0 <= lo < 0x8000_0000 && 0 <= hi < 0x8000_0000
    modifies istack
    ensures Stacked(istack[..], all[..|all| - 1] + [Segment(lo, hi), small])
  {
    StackPushed(istack[..], all, Segment(lo, hi), small);
    istack[jstack] := ToInt(hi);
    istack[jstack - 1] := ToInt(lo);
    assert istack[..] == old(istack[..])[jstack := hi][jstack - 1 := lo];
  }

  /** Takes the topmost segment off the stack. */
  method Pop(istack: array<int>, jstack: int, ghost all: seq<Segment>) returns (l: int, ir: int, jstack': int)
    requires Stacked(istack[..], all) && |all| >= 2 && jstack == 2 * (|all| - 1)
    ensures Segment(l, ir) == all[|all| - 2] && jstack' == jstack - 2
    ensures Stacked(istack[..], all[..|all| - 1])
  {
    StackPopped(istack[..], all);
    jstack' := jstack;
    ir := istack[jstack'];
    jstack' := jstack' - 1;
    l := istack[jstack'];
    jstack' := jstack' - 1;
  }

  /** One turn on a long segment: partition it, push the larger part and go on with the
      smaller. */
  method Divide(arr: array<real>, istack: array<int>, l: int, ir: int, jstack: int, n: int,
                ghost s0: seq<real>, ghost all: seq<Segment>)
    returns (l': int, ir': int, jstack': int, ghost all': seq<Segment>)
    requires 1 <= n < |s0| && |s0| == arr.Length && n < 0x8000_0000 && Progress(s0, arr[..], n, all)
    requires all != [] && all[|all| - 1] == Segment(l, ir) && l + M <= ir
    requires Stacked(istack[..], all) && jstack == 2 * (|all| - 1)
    modifies arr, istack
    ensures Progress(s0, arr[..], n, all') && Stacked(istack[..], all')
    ensures |all'| == |all| + 1 && all'[|all|] == Segment(l', ir') && jstack' == jstack + 2
    ensures 0 <= Total(all') < Total(all)
    ensures Pow2(|all|) <= n && 2 * |all| <= STACK_SIZE - 2
  {
    var i, j := LongTurn(arr, l, ir, n, s0, all);
    ghost var small := Smaller(l, ir, i, j);
    all' := all[..|all| - 1] + [Larger(l, ir, i, j), small];
    l', ir', jstack' := l, ir, jstack + 2;
    if ir - i + 1 >= j - l {
      Push(istack, jstack', i, ir, all, small);
      ir' := j - 1;
    } else {
      Push(istack, jstack', l, j - 1, all, small);
      l' := i;
    }
  }

  /** Sorts positions 1 to `n`; `depth` is the largest number of segments stacked, two
      entries each. */
  method Sort(arr: array<real>, istack: array<int>, n: int) returns (ghost depth: nat)
    requires 1 <= n < arr.Length && n < 0x8000_0000 && istack.Length == STACK_SIZE
    modifies arr, istack
    ensures Sorted(arr[..], 1, n)
    ensures Rearranged(old(arr[..]), arr[..], 1, n)
    ensures Pow2(depth) <= n && 2 * depth <= STACK_SIZE - 2
  {
    var ir, l := n, 1;
    var jstack := 0;
    depth := 0;
    ghost var s0, all := arr[..], [Segment(1, n)];
    assert forall c :: 2 <= c <= n ==> Within(c, all[0]);
    while true
      invariant all != [] && all[|all| - 1] == Segment(l, ir)
      invariant jstack == 2 * (|all| - 1) <= 2 * depth <= STACK_SIZE - 2
      invariant Progress(s0, arr[..], n, all) && Stacked(istack[..], all)
      invariant Pow2(depth) <= n
      decreases Total(all)
    {
      if ir - l < M {
        ShortTurn(arr, l, ir, n, s0, all);
        if jstack == 0 {
          all := [];
          break;
        }
        l, ir, jstack := Pop(istack, jstack, all);
        all := all[..|all| - 1];
      } else {
        depth := if depth < |all| then |all| else depth;
        l, ir, jstack, all := Divide(arr, istack, l, ir, jstack, n, s0, all);
      }
    }
    NothingPending(arr[..], n);
  }
}
