/** Three-way quicksort in place (Sort/quick_sort.c, `better_quick_sort3`): the smaller side is sorted
    by a recursive call, the larger one by the loop, so that calls nest at most log2(n) + 1 deep. */
module QuickSort {
  import opened Common
  import opened Reordering

  // ---- Methods on the array ----

  /** `Swap`, on an array that is so far a reordering of `s`. */
  method Swap(a: array<int>, i: int, j: int, ghost s: seq<int>, ghost lo: int, ghost hi: int, ghost other: int)
    requires Shuffled(s, a[..], lo, hi) && lo <= i <= j < hi
    modifies a
    ensures Shuffled(s, a[..], lo, hi) && a[..] == Swapped(old(a[..]), i, j)
    ensures a[i] == old(a[j]) && a[j] == old(a[i])
    ensures 0 <= other < a.Length && other != i && other != j ==> a[other] == old(a[other])
  {
    SwapAgain(s, a[..], i, j, lo, hi);
    var temp := a[i];
    a[i] := a[j];
    a[j] := temp;
    assert a[..] == Swapped(old(a[..]), i, j);
  }

  /** `choose_right`: the median of the first, middle and last element goes to the right end. */
  method ChooseRight(a: array<int>, left: int, right: int)
    requires 0 <= left && left + 2 <= right < a.Length
    modifies a
    ensures Shuffled(old(a[..]), a[..], left, right + 1)
    ensures a[left] <= a[right] <= a[left + (right - left) / 2]
  {
    hide Shuffled, Swapped;
    var mid := left + (right - left) / 2;
    ghost var s := a[..];
    OrderThree(a, left, mid, right);
    Swap(a, mid, right, s, left, right + 1, left);
  }

  method OrderThree(a: array<int>, left: int, mid: int, right: int)
    requires 0 <= left < mid < right < a.Length
    modifies a
    ensures Shuffled(old(a[..]), a[..], left, right + 1) && a[left] <= a[mid] <= a[right]
  {
    hide Shuffled, Swapped;
    ghost var s := a[..];
    ShuffledSelf(s, left, right + 1);
    if a[mid] < a[left] {
      Swap(a, left, mid, s, left, right + 1, right);
    }
    if a[right] < a[mid] {
      Swap(a, mid, right, s, left, right + 1, left);
      if a[mid] < a[left] {
        Swap(a, left, mid, s, left, right + 1, right);
      }
    }
  }

  /** With the pivot put into the hole, the array is a reordering of `s`. */
  ghost predicate Holed(s: seq<int>, t: seq<int>, hole: int, pivot: int, lo: int, hi: int) {
    lo <= hole < hi && 0 <= hole < |t| && Shuffled(s, t[hole := pivot], lo, hi)
  }

  lemma HoleMoves(s: seq<int>, t: seq<int>, hole: int, from: int, pivot: int, lo: int, hi: int)
    requires Holed(s, t, hole, pivot, lo, hi) && lo <= from < hi && from != hole && hi <= |t|
    ensures Holed(s, t[hole := t[from]], from, pivot, lo, hi)
  {
    HoleSwap(t, hole, from, pivot);
    hide Swapped, Shuffled;
    if hole < from {
      SwapAgain(s, t[hole := pivot], hole, from, lo, hi);
    } else {
      SwapAgain(s, t[hole := pivot], from, hole, lo, hi);
    }
  }

  /** Moving an element into the hole is exchanging it with the pivot. */
  lemma HoleSwap(t: seq<int>, hole: int, from: int, pivot: int)
    requires 0 <= hole < |t| && 0 <= from < |t| && hole != from
    ensures var u := t[hole := pivot];
      Swapped(u, hole, from) == Swapped(u, from, hole) == t[hole := t[from]][from := pivot]
  {
  }

  /** Left half of the loop of `partition`: the hole is on the right; the first element greater than the
      pivot goes into it and leaves the hole on the left. */
  method FillRightHole(a: array<int>, pivot: int, from: int, to: int, left: int, right: int, ghost s: seq<int>)
      returns (start1: int, start2: int)
    requires 0 <= left <= from < to <= right < a.Length && Holed(s, a[..], to, pivot, left, right + 1)
    requires AtMost(a[..], left, from, pivot) && AtLeast(a[..], to + 1, right + 1, pivot)
    modifies a
    ensures from <= start1 <= start2 <= to && start2 - start1 < to - from
    ensures Holed(s, a[..], start1, pivot, left, right + 1)
    ensures AtMost(a[..], left, start1, pivot) && AtLeast(a[..], start2 + 1, right + 1, pivot)
  {
    hide Holed;
    start1, start2 := from, to;
    while start1 < start2 && a[start1] <= pivot
      invariant from <= start1 <= start2 && AtMost(a[..], left, start1, pivot)
    {
      start1 := start1 + 1;
    }
    if start1 < start2 {
      HoleMoves(s, a[..], start2, start1, pivot, left, right + 1);
      a[start2] := a[start1];
      start2 := start2 - 1;
    }
  }

  /** Right half: the hole is on the left; the last element less than the pivot goes into it. */
  method FillLeftHole(a: array<int>, pivot: int, from: int, to: int, left: int, right: int, ghost s: seq<int>)
      returns (start1: int, start2: int)
    requires 0 <= left <= from <= to <= right < a.Length && Holed(s, a[..], from, pivot, left, right + 1)
    requires AtMost(a[..], left, from, pivot) && AtLeast(a[..], to + 1, right + 1, pivot)
    modifies a
    ensures from <= start1 <= start2 <= to && Holed(s, a[..], start2, pivot, left, right + 1)
    ensures AtMost(a[..], left, start1, pivot) && AtLeast(a[..], start2 + 1, right + 1, pivot)
  {
    hide Holed;
    start1, start2 := from, to;
    while start1 < start2 && a[start2] >= pivot
      invariant start1 <= start2 <= to && AtLeast(a[..], start2 + 1, right + 1, pivot)
    {
      start2 := start2 - 1;
    }
    if start1 < start2 {
      HoleMoves(s, a[..], start1, start2, pivot, left, right + 1);
      a[start1] := a[start2];
      start1 := start1 + 1;
    }
  }

  /** `partition`: a hole moves between the two ends. */
  method Partition(a: array<int>, left: int, right: int) returns (pos: int)
    requires 0 <= left && left + 2 <= right < a.Length
    modifies a
    ensures left <= pos <= right && Shuffled(old(a[..]), a[..], left, right + 1)
    ensures AtMost(a[..], left, pos, a[pos]) && AtLeast(a[..], pos + 1, right + 1, a[pos])
  {
    hide Shuffled;
    ChooseRight(a, left, right);
    var pivot := a[right];
    var start1, start2 := left, right;
    ghost var s := old(a[..]);
    assert a[..][right := pivot] == a[..];
    while start1 < start2
      invariant left <= start1 <= start2 <= right && Holed(s, a[..], start2, pivot, left, right + 1)
      invariant AtMost(a[..], left, start1, pivot) && AtLeast(a[..], start2 + 1, right + 1, pivot)
      decreases start2 - start1
    {
      start1, start2 := FillRightHole(a, pivot, start1, start2, left, right, s);
      start1, start2 := FillLeftHole(a, pivot, start1, start2, left, right, s);
    }
    ghost var t := a[..];
    a[start1] := pivot;
    assert a[..] == t[start1 := pivot];
    pos := start1;
  }

  /** The left side while its elements equal to `v` are gathered: untouched up to `i`, then less than `v`,
      then equal to it. */
  ghost predicate GatheringLeft(s: seq<int>, left: int, i: int, posLeft: int, pos: int, v: int) {
    && left - 1 <= i <= posLeft < pos
    && AtMost(s, left, i + 1, v) && AtMost(s, i + 1, posLeft + 1, v - 1) && All(s, posLeft + 1, pos, v)
  }

  lemma GatherStepLeft(s: seq<int>, t: seq<int>, left: int, i: int, posLeft: int, pos: int, v: int)
    requires GatheringLeft(s, left, i, posLeft, pos, v) && 0 <= left <= i
    requires s[i] == v ==> t == if posLeft != i then Swapped(s, i, posLeft) else s
    ensures s[i] == v ==> GatheringLeft(t, left, i - 1, posLeft - 1, pos, v)
    ensures s[i] != v ==> GatheringLeft(s, left, i - 1, posLeft, pos, v)
  {
  }

  /** First loop of `deal_repeat`: what equals the pivot on its left is gathered next to it. */
  method GatherLeft(a: array<int>, left: int, pos: int, right: int) returns (posLeft: int)
    requires 0 <= left <= pos <= right < a.Length && AtMost(a[..], left, pos, a[pos])
    modifies a
    ensures Shuffled(old(a[..]), a[..], left, pos) && a[pos] == old(a[pos])
    ensures GatheringLeft(a[..], left, left - 1, posLeft, pos, a[pos])
  {
    ghost var s := a[..];
    ShuffledSelf(s, left, pos);
    var v := a[pos];
    posLeft := pos - 1;
    var i := pos - 1;
    assert GatheringLeft(s, left, i, posLeft, pos, v);
    assert i <= posLeft < pos;
    hide Shuffled, GatheringLeft, Swapped, AtMost;
    while i >= left
      invariant left - 1 <= i <= posLeft < pos && Shuffled(s, a[..], left, pos) && a[pos] == v
      invariant GatheringLeft(a[..], left, i, posLeft, pos, v)
    {
      ghost var t := a[..];
      if a[pos] == a[i] {
        if posLeft != i { Swap(a, i, posLeft, s, left, pos, pos); }
        GatherStepLeft(t, a[..], left, i, posLeft, pos, v);
        posLeft := posLeft - 1;
      } else {
        GatherStepLeft(t, t, left, i, posLeft, pos, v);
      }
      i := i - 1;
    }
  }

  ghost predicate GatheringRight(s: seq<int>, pos: int, posRight: int, i: int, right: int, v: int) {
    && pos < posRight <= i <= right + 1
    && All(s, pos + 1, posRight, v) && AtLeast(s, posRight, i, v + 1) && AtLeast(s, i, right + 1, v)
  }

  lemma GatherStepRight(s: seq<int>, t: seq<int>, pos: int, posRight: int, i: int, right: int, v: int)
    requires GatheringRight(s, pos, posRight, i, right, v) && 0 <= pos && i <= right
    requires s[i] == v ==> t == if posRight != i then Swapped(s, posRight, i) else s
    ensures s[i] == v ==> GatheringRight(t, pos, posRight + 1, i + 1, right, v)
    ensures s[i] != v ==> GatheringRight(s, pos, posRight, i + 1, right, v)
  {
  }

  lemma GatherRightBegins(s: seq<int>, pos: int, right: int, v: int)
    requires 0 <= pos <= right < |s| && AtLeast(s, pos + 1, right + 1, v)
    ensures GatheringRight(s, pos, pos + 1, pos + 1, right, v)
  {
  }

  /** Second loop of `deal_repeat`. */
  method GatherRight(a: array<int>, left: int, pos: int, right: int) returns (posRight: int)
    requires 0 <= left <= pos <= right < a.Length && AtLeast(a[..], pos + 1, right + 1, a[pos])
    modifies a
    ensures Shuffled(old(a[..]), a[..], pos + 1, right + 1) && a[pos] == old(a[pos])
    ensures GatheringRight(a[..], pos, posRight, right + 1, right, a[pos])
  {
    hide Shuffled, GatheringRight, Swapped, AtLeast;
    ghost var s := a[..];
    ShuffledSelf(s, pos + 1, right + 1);
    var v := a[pos];
    posRight := pos + 1;
    var i := pos + 1;
    GatherRightBegins(s, pos, right, v);
    while i <= right
      invariant pos < posRight <= i <= right + 1 && Shuffled(s, a[..], pos + 1, right + 1) && a[pos] == v
      invariant GatheringRight(a[..], pos, posRight, i, right, v)
    {
      ghost var t := a[..];
      if a[pos] == a[i] {
        if posRight != i { Swap(a, posRight, i, s, pos + 1, right + 1, pos); }
        GatherStepRight(t, a[..], pos, posRight, i, right, v);
        posRight := posRight + 1;
      } else {
        GatherStepRight(t, t, pos, posRight, i, right, v);
      }
      i := i + 1;
    }
  }

  /** Three regions: strictly below, equal to and strictly above `v`. */
  ghost predicate Regions(s: seq<int>, left: int, posLeft: int, posRight: int, right: int, v: int) {
    && left - 1 <= posLeft < posLeft + 1 < posRight <= right + 1
    && AtMost(s, left, posLeft + 1, v - 1) && All(s, posLeft + 1, posRight, v) && AtLeast(s, posRight, right + 1, v + 1)
  }

  lemma RegionsJoin(t: seq<int>, u: seq<int>, left: int, posLeft: int, pos: int, posRight: int, right: int, v: int)
    requires GatheringLeft(t, left, left - 1, posLeft, pos, v) && GatheringRight(u, pos, posRight, right + 1, right, v)
    requires Shuffled(t, u, pos + 1, right + 1) && 0 <= pos < |u| && u[pos] == v
    ensures Regions(u, left, posLeft, posRight, right, v)
  {
    OutsideKept(t, u, pos + 1, right + 1);
    hide Shuffled;
  }

  lemma GatheringsJoin(s: seq<int>, t: seq<int>, u: seq<int>, left: int, posLeft: int, pos: int, posRight: int,
                       right: int, v: int)
    requires 0 <= left <= pos <= right < |s| && pos < |u| && u[pos] == v
    requires Shuffled(s, t, left, pos) && GatheringLeft(t, left, left - 1, posLeft, pos, v)
    requires Shuffled(t, u, pos + 1, right + 1) && GatheringRight(u, pos, posRight, right + 1, right, v)
    ensures Shuffled(s, u, left, right + 1) && Regions(u, left, posLeft, posRight, right, v)
  {
    hide Shuffled, GatheringLeft, GatheringRight, Regions;
    ShuffledWiden(s, t, left, pos, left, right + 1);
    ShuffledWiden(t, u, pos + 1, right + 1, left, right + 1);
    ShuffledTrans(s, t, u, left, right + 1);
    RegionsJoin(t, u, left, posLeft, pos, posRight, right, v);
  }

  lemma RightUntouched(s: seq<int>, t: seq<int>, left: int, pos: int, right: int, v: int)
    requires Shuffled(s, t, left, pos) && AtLeast(s, pos + 1, right + 1, v)
    ensures AtLeast(t, pos + 1, right + 1, v)
  {
    OutsideKept(s, t, left, pos);
    hide Shuffled;
  }

  /** `deal_repeat`. */
  method DealRepeat(a: array<int>, left: int, pos: int, right: int) returns (posLeft: int, posRight: int)
    requires 0 <= left <= pos <= right < a.Length
    requires AtMost(a[..], left, pos, a[pos]) && AtLeast(a[..], pos + 1, right + 1, a[pos])
    modifies a
    ensures Shuffled(old(a[..]), a[..], left, right + 1)
    ensures a[pos] == old(a[pos]) && Regions(a[..], left, posLeft, posRight, right, a[pos])
  {
    hide Shuffled, GatheringLeft, GatheringRight, Regions, AtMost, AtLeast, All;
    ghost var s := a[..];
    ghost var v := a[pos];
    posLeft := GatherLeft(a, left, pos, right);
    ghost var t := a[..];
    assert t[pos] == v;
    RightUntouched(s, t, left, pos, right, v);
    posRight := GatherRight(a, left, pos, right);
    ghost var u := a[..];
    assert u[pos] == v;
    GatheringsJoin(s, t, u, left, posLeft, pos, posRight, right, v);
  }

  // ---- Sorting ----

  /** Outside `[left, end)` the range `[lo, hi)` is sorted, and what lies to the left is at most what lies
      to the right. */
  ghost predicate Framed(s: seq<int>, lo: int, left: int, end: int, hi: int) {
    && 0 <= lo <= left <= end <= hi <= |s|
    && Sorted(s, lo, left) && Sorted(s, end, hi)
    && (forall i, j :: lo <= i < left <= j < hi ==> s[i] <= s[j])
    && (forall i, j :: lo <= i < end <= j < hi ==> s[i] <= s[j])
  }

  lemma FramedShuffled(s: seq<int>, t: seq<int>, lo: int, left: int, end: int, hi: int)
    requires Framed(s, lo, left, end, hi) && Shuffled(s, t, left, end)
    ensures Framed(t, lo, left, end, hi)
  {
    hide Shuffled;
    assert |t| == |s| by { SameLength(s, t, left, end); }
    forall i | 0 <= i < |s| && (i < left || end <= i) ensures t[i] == s[i] {
      ShuffledOutside(s, t, left, end, i);
    }
    forall i, j | lo <= i < left <= j < hi ensures t[i] <= t[j] {
      if j < end { var k := ShuffledMember(s, t, left, end, j); }
    }
    forall i, j | lo <= i < end <= j < hi ensures t[i] <= t[j] {
      if left <= i { var k := ShuffledMember(s, t, left, end, i); }
    }
  }

  /** The left region is sorted: the frame moves up to the right region. */
  lemma FrameRight(s: seq<int>, lo: int, left: int, posLeft: int, posRight: int, right: int, hi: int, v: int)
    requires Framed(s, lo, left, right + 1, hi) && Regions(s, left, posLeft, posRight, right, v)
    requires Sorted(s, left, posLeft + 1)
    ensures Framed(s, lo, posRight, right + 1, hi)
  {
  }

  lemma FrameLeft(s: seq<int>, lo: int, left: int, posLeft: int, posRight: int, right: int, hi: int, v: int)
    requires Framed(s, lo, left, right + 1, hi) && Regions(s, left, posLeft, posRight, right, v)
    requires Sorted(s, posRight, right + 1)
    ensures Framed(s, lo, left, posLeft + 1, hi)
  {
  }

  /** Calls nested this deep fit `n` elements: depth is at most log2(n) + 1. */
  ghost predicate Shallow(depth: int, n: int) {
    depth >= 1 && (depth == 1 || Pow2(depth - 1) <= n)
  }

  lemma OneDeeper(depth: int, m: int, n: int)
    requires Shallow(depth, m) && 2 * m + 1 <= n && n >= 2
    ensures Shallow(depth + 1, n)
  {
  }

  lemma Beginning(s: seq<int>, lo: int, hi: int)
    requires 0 <= lo <= hi <= |s|
    ensures Framed(s, lo, lo, hi, hi) && Shuffled(s, s, lo, hi) && Shallow(1, hi - lo)
  {
  }

  /** At most one element is left between the sorted ends. */
  lemma Ending(s: seq<int>, lo: int, left: int, end: int, hi: int)
    requires Framed(s, lo, left, end, hi) && end <= left + 1
    ensures Sorted(s, lo, hi)
  {
    forall i, j | lo <= i < j < hi ensures s[i] <= s[j] {}
  }

  lemma Within(s: seq<int>, t: seq<int>, u: seq<int>, lo: int, left: int, end: int, hi: int)
    requires Framed(t, lo, left, end, hi) && Shuffled(s, t, lo, hi) && Shuffled(t, u, left, end)
    ensures Framed(u, lo, left, end, hi) && Shuffled(s, u, lo, hi)
  {
    FramedShuffled(t, u, lo, left, end, hi);
    ShuffledWiden(t, u, left, end, lo, hi);
    ShuffledTrans(s, t, u, lo, hi);
  }

  /** The two-element case. */
  method SortTwo(a: array<int>, left: int, right: int, ghost s: seq<int>, ghost lo: int, ghost hi: int)
    requires Framed(a[..], lo, left, right + 1, hi) && Shuffled(s, a[..], lo, hi) && right == left + 1
    modifies a
    ensures Sorted(a[..], lo, hi) && Shuffled(s, a[..], lo, hi)
  {
    hide Shuffled, Swapped;
    ghost var t := a[..];
    ShuffledSelf(t, left, right + 1);
    if a[left] > a[right] {
      Swap(a, left, right, t, left, right + 1, left);
    }
    Within(s, t, a[..], lo, left, right + 1, hi);
    TwoEnding(a[..], lo, left, hi);
  }

  lemma TwoEnding(s: seq<int>, lo: int, left: int, hi: int)
    requires Framed(s, lo, left, left + 2, hi) && s[left] <= s[left + 1]
    ensures Sorted(s, lo, hi)
  {
  }

  /** Partition the range and gather what equals the pivot. */
  method Split(a: array<int>, left: int, right: int, ghost s: seq<int>, ghost lo: int, ghost hi: int)
      returns (ghost v: int, posLeft: int, posRight: int)
    requires Framed(a[..], lo, left, right + 1, hi) && Shuffled(s, a[..], lo, hi) && left + 2 <= right
    modifies a
    ensures Framed(a[..], lo, left, right + 1, hi) && Shuffled(s, a[..], lo, hi)
    ensures Regions(a[..], left, posLeft, posRight, right, v)
  {
    hide Shuffled, AtMost, AtLeast, All, Sorted;
    ghost var t := a[..];
    var pos := Partition(a, left, right);
    ghost var u := a[..];
    posLeft, posRight := DealRepeat(a, left, pos, right);
    v := a[pos];
    ShuffledTrans(t, u, a[..], left, right + 1);
    Within(s, t, a[..], lo, left, right + 1, hi);
  }

  /** Sorting one outer region keeps all three. */
  lemma RegionsKept(s: seq<int>, t: seq<int>, left: int, posLeft: int, posRight: int, right: int, v: int)
    requires Regions(s, left, posLeft, posRight, right, v)
    requires Shuffled(s, t, left, posLeft + 1) || Shuffled(s, t, posRight, right + 1)
    ensures Regions(t, left, posLeft, posRight, right, v)
    ensures Shuffled(s, t, left, right + 1)
  {
    hide Shuffled;
    if Shuffled(s, t, left, posLeft + 1) {
      SameLength(s, t, left, posLeft + 1);
      ShuffledBounds(s, t, left, posLeft + 1, v - 1);
      ShuffledWiden(s, t, left, posLeft + 1, left, right + 1);
      forall i | posLeft < i <= right ensures t[i] == s[i] {
        ShuffledOutside(s, t, left, posLeft + 1, i);
      }
    } else {
      SameLength(s, t, posRight, right + 1);
      ShuffledBounds(s, t, posRight, right + 1, v + 1);
      ShuffledWiden(s, t, posRight, right + 1, left, right + 1);
      forall i | left <= i < posRight ensures t[i] == s[i] {
        ShuffledOutside(s, t, posRight, right + 1, i);
      }
    }
  }

  /** The recursive call on the smaller, left side. */
  method SortLeft(a: array<int>, left: int, posLeft: int, posRight: int, right: int, ghost v: int,
                  ghost s: seq<int>, ghost lo: int, ghost hi: int, ghost depth: int) returns (ghost deeper: int)
    requires Framed(a[..], lo, left, right + 1, hi) && Shuffled(s, a[..], lo, hi) && Shallow(depth, hi - lo)
    requires Regions(a[..], left, posLeft, posRight, right, v) && left < right && posLeft - left < right - posRight
    modifies a
    ensures Framed(a[..], lo, posRight, right + 1, hi) && Shuffled(s, a[..], lo, hi) && Shallow(deeper, hi - lo)
    decreases hi - lo, 0
  {
    hide Shuffled, Sorted, AtMost, AtLeast, All, Shallow;
    ghost var t := a[..];
    ghost var d := Sort3(a, left, posLeft);
    OneDeeper(d, posLeft + 1 - left, hi - lo);
    deeper := if d + 1 > depth then d + 1 else depth;
    RegionsKept(t, a[..], left, posLeft, posRight, right, v);
    Within(s, t, a[..], lo, left, right + 1, hi);
    FrameRight(a[..], lo, left, posLeft, posRight, right, hi, v);
  }

  method SortRight(a: array<int>, left: int, posLeft: int, posRight: int, right: int, ghost v: int,
                   ghost s: seq<int>, ghost lo: int, ghost hi: int, ghost depth: int) returns (ghost deeper: int)
    requires Framed(a[..], lo, left, right + 1, hi) && Shuffled(s, a[..], lo, hi) && Shallow(depth, hi - lo)
    requires Regions(a[..], left, posLeft, posRight, right, v) && left < right && posLeft - left >= right - posRight
    modifies a
    ensures Framed(a[..], lo, left, posLeft + 1, hi) && Shuffled(s, a[..], lo, hi) && Shallow(deeper, hi - lo)
    decreases hi - lo, 0
  {
    hide Shuffled, Sorted, AtMost, AtLeast, All, Shallow;
    ghost var t := a[..];
    ghost var d := Sort3(a, posRight, right);
    OneDeeper(d, right + 1 - posRight, hi - lo);
    deeper := if d + 1 > depth then d + 1 else depth;
    RegionsKept(t, a[..], left, posLeft, posRight, right, v);
    Within(s, t, a[..], lo, left, right + 1, hi);
    FrameLeft(a[..], lo, left, posLeft, posRight, right, hi, v);
  }

  /** `_better_quick_sort3`, with the depth to which its calls nest. */
  method Sort3(a: array<int>, first: int, last: int) returns (ghost depth: int)
    requires 0 <= first <= last + 1 <= a.Length
    modifies a
    ensures Sorted(a[..], first, last + 1) && Shuffled(old(a[..]), a[..], first, last + 1)
    ensures Shallow(depth, last + 1 - first)
    decreases last + 1 - first, 1
  {
    hide Shuffled, Sorted, Shallow, AtMost, AtLeast, All;
    var left, right := first, last;
    ghost var s := a[..];
    depth := 1;
    Beginning(s, first, last + 1);
    while left < right
      invariant first <= left <= right + 1 <= last + 1
      invariant Framed(a[..], first, left, right + 1, last + 1) && Shuffled(s, a[..], first, last + 1)
      invariant Shallow(depth, last + 1 - first)
      decreases right + 1 - left
    {
      if right - left <= 1 {
        SortTwo(a, left, right, s, first, last + 1);
        return;
      }
      ghost var v;
      var posLeft, posRight;
      v, posLeft, posRight := Split(a, left, right, s, first, last + 1);
      if posLeft - left < right - posRight {
        depth := SortLeft(a, left, posLeft, posRight, right, v, s, first, last + 1, depth);
        left := posRight;
      } else {
        depth := SortRight(a, left, posLeft, posRight, right, v, s, first, last + 1, depth);
        right := posLeft;
      }
    }
    Ending(a[..], first, left, right + 1, last + 1);
  }

  /** `better_quick_sort3`. */
  method BetterQuickSort3(a: array<int>) returns (ghost depth: nat)
    requires a.Length > 0
    modifies a
    ensures forall i, j :: 0 <= i < j < a.Length ==> a[i] <= a[j]
    ensures multiset(a[..]) == multiset(old(a[..]))
    ensures depth >= 1 && Pow2(depth - 1) <= a.Length
  {
    ghost var s := a[..];
    depth := Sort3(a, 0, a.Length - 1);
    assert s[0..a.Length] == s && a[..][0..a.Length] == a[..];
  }
}
