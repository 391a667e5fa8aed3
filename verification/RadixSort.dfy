/** Radix sort from the last digit and from the first (Sort/radix_sort.c). One counting pass is a stable
    reordering by one decimal digit; both sorts are built from such passes. */
module RadixSort {
  import opened Common
  import opened Reordering

  const RADIX := 10

  function Digit(v: int, n: nat): (d: nat)
    requires v >= 0 && n > 0
    ensures d < RADIX
  {
    v / n % RADIX
  }

  ghost predicate NonNegative(s: seq<int>) {
    forall i :: 0 <= i < |s| ==> s[i] >= 0
  }

  // ---- What a pass does ----

  /** The elements with digit `d`, in their order. */
  ghost function Bucket(s: seq<int>, n: nat, d: nat): seq<int>
    requires NonNegative(s) && n > 0
  {
    if s == [] then [] else Bucket(s[..|s| - 1], n, d) + if Digit(s[|s| - 1], n) == d then [s[|s| - 1]] else []
  }

  /** The first `d` buckets one after the other; with all ten, the result of a pass. */
  ghost function Pass(s: seq<int>, n: nat, d: nat): seq<int>
    requires NonNegative(s) && n > 0
  {
    if d == 0 then [] else Pass(s, n, d - 1) + Bucket(s, n, d - 1)
  }

  lemma {:induction false} PassMonotone(s: seq<int>, n: nat, d: nat, e: nat)
    requires NonNegative(s) && n > 0 && d <= e
    ensures |Pass(s, n, d)| <= |Pass(s, n, e)| && Pass(s, n, e)[..|Pass(s, n, d)|] == Pass(s, n, d)
  {
    if d < e { PassMonotone(s, n, d, e - 1); }
  }

  lemma {:induction false} BucketSnoc(s: seq<int>, n: nat, m: nat, d: nat)
    requires NonNegative(s) && n > 0 && m < |s|
    ensures Bucket(s[..m + 1], n, d) == Bucket(s[..m], n, d) + if Digit(s[m], n) == d then [s[m]] else []
  {
    assert s[..m + 1][..m] == s[..m];
  }

  /** A bucket grows as more of the sequence is looked at. */
  lemma {:induction false} BucketPrefix(s: seq<int>, n: nat, m: nat, d: nat)
    requires NonNegative(s) && n > 0 && m <= |s|
    ensures |Bucket(s[..m], n, d)| <= |Bucket(s, n, d)|
    ensures Bucket(s, n, d)[..|Bucket(s[..m], n, d)|] == Bucket(s[..m], n, d)
    decreases |s| - m
  {
    hide Digit;
    if m == |s| {
      assert s[..m] == s;
    } else {
      BucketPrefix(s, n, m + 1, d);
      BucketSnoc(s, n, m, d);
    }
  }

  /** How often `x` occurs. */
  function Count(s: seq<int>, x: int): nat {
    multiset(s)[x]
  }

  lemma CountJoin(a: seq<int>, b: seq<int>, x: int)
    ensures Count(a + b, x) == Count(a, x) + Count(b, x)
  {
  }

  /** How the buckets grow by one element. */
  lemma {:induction false} PassCount(s: seq<int>, n: nat, d: nat, x: int)
    requires NonNegative(s) && n > 0 && s != []
    ensures var init, last := s[..|s| - 1], s[|s| - 1];
      Count(Pass(s, n, d), x) == Count(Pass(init, n, d), x) + if Digit(last, n) < d && last == x then 1 else 0
  {
    hide Digit, Count;
    if d > 0 {
      PassCount(s, n, d - 1, x);
      var init, last := s[..|s| - 1], s[|s| - 1];
      CountJoin(Pass(s, n, d - 1), Bucket(s, n, d - 1), x);
      CountJoin(Pass(init, n, d - 1), Bucket(init, n, d - 1), x);
      CountJoin(Bucket(init, n, d - 1), if Digit(last, n) == d - 1 then [last] else [], x);
      CountOne(last, x);
    }
  }

  lemma CountOne(v: int, x: int)
    ensures Count([v], x) == (if v == x then 1 else 0) && Count([], x) == 0
  {
  }

  lemma {:induction false} PassCounts(s: seq<int>, n: nat, x: int)
    requires NonNegative(s) && n > 0
    ensures Count(Pass(s, n, RADIX), x) == Count(s, x)
  {
    hide Count, Pass, Digit;
    if s == [] {
      PassEmpty(n, RADIX);
    } else {
      var init, last := s[..|s| - 1], s[|s| - 1];
      PassCounts(init, n, x);
      PassCount(s, n, RADIX, x);
      CountJoin(init, [last], x);
      CountOne(last, x);
      assert s == init + [last];
    }
  }

  lemma SameSize(a: seq<int>, b: seq<int>)
    requires multiset(a) == multiset(b)
    ensures |a| == |b|
  {
    assert |multiset(a)| == |a| && |multiset(b)| == |b|;
  }

  /** A pass loses and invents nothing. */
  lemma PassPermutes(s: seq<int>, n: nat)
    requires NonNegative(s) && n > 0
    ensures multiset(Pass(s, n, RADIX)) == multiset(s) && |Pass(s, n, RADIX)| == |s|
  {
    hide Pass;
    forall x ensures multiset(Pass(s, n, RADIX))[x] == multiset(s)[x] {
      PassCounts(s, n, x);
    }
    assert multiset(Pass(s, n, RADIX)) == multiset(s);
    SameSize(Pass(s, n, RADIX), s);
  }

  lemma {:induction false} PassEmpty(n: nat, d: nat)
    requires n > 0
    ensures Pass([], n, d) == []
  {
    if d > 0 { PassEmpty(n, d - 1); }
  }

  // ---- Order ----

  /** Sorted by the value modulo `n`. */
  ghost predicate SortedMod(s: seq<int>, n: nat)
    requires NonNegative(s) && n > 0
  {
    forall i, j :: 0 <= i < j < |s| ==> s[i] % n <= s[j] % n
  }

  lemma {:induction false} BucketMembers(s: seq<int>, n: nat, d: nat)
    requires NonNegative(s) && n > 0
    ensures forall i :: 0 <= i < |Bucket(s, n, d)| ==>
        Bucket(s, n, d)[i] in s && Bucket(s, n, d)[i] >= 0 && Digit(Bucket(s, n, d)[i], n) == d
  {
    if s != [] {
      BucketMembers(s[..|s| - 1], n, d);
      assert forall x :: x in s[..|s| - 1] ==> x in s;
    }
  }

  /** Stability: a bucket keeps the order of lower digits. */
  lemma {:induction false} BucketSorted(s: seq<int>, n: nat, d: nat)
    requires NonNegative(s) && n > 0 && SortedMod(s, n)
    ensures NonNegative(Bucket(s, n, d)) && SortedMod(Bucket(s, n, d), n)
  {
    if s != [] {
      var init, last := s[..|s| - 1], s[|s| - 1];
      BucketSorted(init, n, d);
      BucketMembers(init, n, d);
      forall i | 0 <= i < |Bucket(init, n, d)| ensures Bucket(init, n, d)[i] % n <= last % n {
        var k :| 0 <= k < |init| && init[k] == Bucket(init, n, d)[i];
        assert s[k] == init[k];
      }
    }
  }

  /** The value modulo ten times `n`, from the digit and the value modulo `n`. */
  lemma ModSplit(v: int, n: nat)
    requires v >= 0 && n > 0
    ensures v % (10 * n) == Digit(v, n) * n + v % n
  {
    var q, r := v / n, v % n;
    var a, b := q / 10, q % 10;
    SplitTwice(v, n, q, r, a, b);
  }

  lemma SplitTwice(v: int, n: nat, q: nat, r: nat, a: nat, b: nat)
    requires n > 0 && v == q * n + r && q == 10 * a + b && b < 10 && r < n
    ensures v % (10 * n) == b * n + r
  {
    Distribute10(a, b, n);
    DigitBound(b, n, r);
    Quotient(v, 10 * n, a, b * n + r);
  }

  lemma Distribute10(a: int, b: int, n: int)
    ensures (10 * a + b) * n == a * (10 * n) + b * n
  {
  }

  lemma DigitBound(d: int, n: int, r: int)
    requires 0 <= d < 10 && 0 <= r < n
    ensures 0 <= d * n + r < 10 * n
  {
    assert d * n <= 9 * n;
  }

  lemma DigitOrder(d: int, e: int, n: int, r: int, t: int)
    requires 0 <= d < e && 0 <= r < n && 0 <= t
    ensures d * n + r <= e * n + t
  {
    assert (d + 1) * n <= e * n;
  }

  /** After a pass over a list sorted modulo `n`, it is sorted modulo ten times `n`. */
  lemma {:induction false} PassSorts(s: seq<int>, n: nat, d: nat)
    requires NonNegative(s) && n > 0 && SortedMod(s, n) && d <= RADIX
    ensures var p := Pass(s, n, d);
      NonNegative(p) && SortedMod(p, 10 * n) && forall i :: 0 <= i < |p| ==> Digit(p[i], n) < d
  {
    if d > 0 {
      PassSorts(s, n, d - 1);
      BucketSorted(s, n, d - 1);
      BucketMembers(s, n, d - 1);
      JoinSorted(Pass(s, n, d - 1), Bucket(s, n, d - 1), n, d - 1);
    }
  }

  lemma JoinSorted(a: seq<int>, b: seq<int>, n: nat, d: nat)
    requires NonNegative(a) && NonNegative(b) && n > 0 && SortedMod(a, 10 * n) && SortedMod(b, n)
    requires (forall i :: 0 <= i < |a| ==> Digit(a[i], n) < d) && (forall i :: 0 <= i < |b| ==> Digit(b[i], n) == d)
    ensures NonNegative(a + b) && SortedMod(a + b, 10 * n)
  {
    hide Digit;
    forall i, j | 0 <= i < j < |a + b| ensures (a + b)[i] % (10 * n) <= (a + b)[j] % (10 * n) {
      if j >= |a| {
        ModSplit((a + b)[i], n);
        ModSplit((a + b)[j], n);
        if i < |a| { DigitOrder(Digit(a[i], n), d, n, a[i] % n, b[j - |a|] % n); }
      }
    }
  }

  // ---- The counting pass ----

  /** First loop: how many elements have each digit. */
  method CountDigits(a: array<int>, start: nat, end: nat, n: nat) returns (count: array<nat>)
    requires start <= end <= a.Length && n > 0 && NonNegative(a[start..end])
    ensures fresh(count) && count.Length == RADIX
    ensures forall d :: 0 <= d < RADIX ==> count[d] == |Bucket(a[start..end], n, d)|
  {
    hide Digit;
    ghost var s := a[start..end];
    count := new nat[RADIX](_ => 0);
    var i := start;
    assert s[..0] == [];
    while i < end
      invariant start <= i <= end
      invariant forall d :: 0 <= d < RADIX ==> count[d] == |Bucket(s[..i - start], n, d)|
    {
      var digit := Digit(a[i], n);
      ghost var m := i - start;
      ghost var seen, more := s[..m], s[..m + 1];
      forall d: nat | d < RADIX ensures |Bucket(more, n, d)| == |Bucket(seen, n, d)| + if digit == d then 1 else 0 {
        BucketSnoc(s, n, m, d);
      }
      count[digit] := count[digit] + 1;
      i := i + 1;
    }
    assert s[..end - start] == s;
  }

  /** Second loop: where each bucket ends. */
  method Accumulate(count: array<nat>, ghost s: seq<int>, n: nat)
    requires count.Length == RADIX && NonNegative(s) && n > 0
    requires forall d :: 0 <= d < RADIX ==> count[d] == |Bucket(s, n, d)|
    modifies count
    ensures forall d :: 0 <= d < RADIX ==> count[d] == |Pass(s, n, d + 1)|
  {
    hide Bucket;
    assert |Pass(s, n, 1)| == |Pass(s, n, 0)| + |Bucket(s, n, 0)| && |Pass(s, n, 0)| == 0;
    var i := 1;
    while i < RADIX
      invariant 1 <= i <= RADIX
      invariant forall d :: 0 <= d < i ==> count[d] == |Pass(s, n, d + 1)|
      invariant forall d :: i <= d < RADIX ==> count[d] == |Bucket(s, n, d)|
    {
      count[i] := count[i] + count[i - 1];
      assert |Pass(s, n, i + 1)| == |Pass(s, n, i)| + |Bucket(s, n, i)|;
      i := i + 1;
    }
  }

  /** Bucket `d` while the elements from `m` on have been placed: its end part is in the result. */
  ghost predicate Placed(res: seq<int>, s: seq<int>, n: nat, m: nat, d: nat, c: nat)
    requires NonNegative(s) && n > 0 && m <= |s|
  {
    var lo, done := |Pass(s, n, d)|, |Bucket(s[..m], n, d)|;
    && c == lo + done <= |Pass(s, n, d + 1)| <= |res|
    && res[c..|Pass(s, n, d + 1)|] == Bucket(s, n, d)[done..]
  }

  lemma PlacedBegins(res: seq<int>, s: seq<int>, n: nat, d: nat, c: nat)
    requires NonNegative(s) && n > 0 && |res| >= |s| && d < RADIX && c == |Pass(s, n, d + 1)|
    ensures Placed(res, s, n, |s|, d, c)
  {
    assert s[..|s|] == s;
    PassMonotone(s, n, d + 1, RADIX);
    PassPermutes(s, n);
  }

  /** The next element, from the back, goes just before what is already in its bucket. */
  lemma PlaceOne(res: seq<int>, s: seq<int>, n: nat, m: nat, d: nat, c: nat, res': seq<int>, at: nat, e: nat, ce: nat)
    requires NonNegative(s) && n > 0 && m < |s| && d < RADIX && e < RADIX && Placed(res, s, n, m + 1, d, c)
    requires e == Digit(s[m], n) && Placed(res, s, n, m + 1, e, ce) && ce > 0 && at == ce - 1
    requires at < |res| && res' == res[at := s[m]]
    ensures Placed(res', s, n, m, d, if d == e then c - 1 else c)
  {
    hide Digit, Pass;
    BucketSnoc(s, n, m, d);
    BucketPrefix(s, n, m + 1, d);
    BucketPrefix(s, n, m, d);
    if d == e {
      var k := |Bucket(s[..m], n, d)|;
      assert c == ce;
      assert Bucket(s, n, d)[k] == Bucket(s[..m + 1], n, d)[k] == s[m];
      assert res'[c - 1..|Pass(s, n, d + 1)|] == [s[m]] + res[c..|Pass(s, n, d + 1)|];
      assert Bucket(s, n, d)[k..] == [s[m]] + Bucket(s, n, d)[k + 1..];
    } else {
      BucketSnoc(s, n, m, e);
      Apart(s, n, d, e);
      assert res'[c..|Pass(s, n, d + 1)|] == res[c..|Pass(s, n, d + 1)|];
    }
  }

  /** Buckets lie apart. */
  lemma Apart(s: seq<int>, n: nat, d: nat, e: nat)
    requires NonNegative(s) && n > 0 && d != e
    ensures |Pass(s, n, d)| <= |Pass(s, n, d + 1)| && |Pass(s, n, e)| <= |Pass(s, n, e + 1)|
    ensures |Pass(s, n, d + 1)| <= |Pass(s, n, e)| || |Pass(s, n, e + 1)| <= |Pass(s, n, d)|
  {
    hide Pass;
    PassMonotone(s, n, d, d + 1);
    PassMonotone(s, n, e, e + 1);
    if d < e { PassMonotone(s, n, d + 1, e); } else { PassMonotone(s, n, e + 1, d); }
  }

  /** All placed: the result is the pass. */
  lemma {:induction false} AllPlaced(res: seq<int>, s: seq<int>, n: nat, d: nat)
    requires NonNegative(s) && n > 0 && d <= RADIX
    requires forall e :: 0 <= e < RADIX ==> Placed(res, s, n, 0, e, |Pass(s, n, e)|)
    ensures |Pass(s, n, d)| <= |res| && res[..|Pass(s, n, d)|] == Pass(s, n, d)
  {
    hide Placed, Bucket;
    if d > 0 {
      AllPlaced(res, s, n, d - 1);
      PlacedWhole(res, s, n, d - 1);
      var k, l := |Pass(s, n, d - 1)|, |Pass(s, n, d)|;
      assert res[..l] == res[..k] + res[k..l];
    }
  }

  lemma PlacedWhole(res: seq<int>, s: seq<int>, n: nat, d: nat)
    requires NonNegative(s) && n > 0 && Placed(res, s, n, 0, d, |Pass(s, n, d)|)
    ensures |Pass(s, n, d)| <= |Pass(s, n, d + 1)| <= |res|
    ensures res[|Pass(s, n, d)|..|Pass(s, n, d + 1)|] == Bucket(s, n, d)
  {
    hide Pass;
    assert s[..0] == [];
  }

  /** Third loop: from the back, each element to its place. `count` ends up with the bucket's beginnings. */
  method Place(a: array<int>, start: nat, end: nat, n: nat, count: array<nat>, result: array<int>)
    requires start <= end <= a.Length && n > 0 && NonNegative(a[start..end]) && result.Length >= end - start
    requires count.Length == RADIX && a != result
    requires forall d :: 0 <= d < RADIX ==> count[d] == |Pass(a[start..end], n, d + 1)|
    modifies count, result
    ensures result[..end - start] == Pass(a[start..end], n, RADIX)
    ensures forall d :: 0 <= d < RADIX ==> count[d] == |Pass(a[start..end], n, d)|
  {
    hide Digit, Pass, Bucket, Placed;
    ghost var s := a[start..end];
    forall d: nat | d < RADIX ensures Placed(result[..], s, n, |s|, d, count[d]) {
      PlacedBegins(result[..], s, n, d, count[d]);
    }
    var i := end;
    while i > start
      invariant start <= i <= end && a[start..end] == s
      invariant forall d: nat :: d < RADIX ==> Placed(result[..], s, n, i - start, d, count[d])
    {
      i := i - 1;
      PlaceStep(a[i], result[..], s, n, i - start, count[..]);
      var e := Digit(a[i], n);
      count[e] := count[e] - 1;
      result[count[e]] := a[i];
    }
    forall d: nat | d < RADIX ensures count[d] == |Pass(s, n, d)| && Placed(result[..], s, n, 0, d, |Pass(s, n, d)|) {
      PlacedCount(result[..], s, n, d, count[d]);
    }
    AllPlaced(result[..], s, n, RADIX);
    PassPermutes(s, n);
  }

  /** One turn of the third loop. */
  lemma PlaceStep(x: int, res: seq<int>, s: seq<int>, n: nat, m: nat, count: seq<nat>)
    requires NonNegative(s) && n > 0 && m < |s| && x == s[m] && |count| == RADIX
    requires forall d: nat :: d < RADIX ==> Placed(res, s, n, m + 1, d, count[d])
    ensures var e := Digit(x, n);
      && 0 < count[e] <= |res|
      && forall d: nat :: d < RADIX ==>
          Placed(res[count[e] - 1 := x], s, n, m, d, if d == e then count[d] - 1 else count[d])
  {
    var e := Digit(x, n);
    hide Pass, Bucket, Placed;
    PlacePositive(res, s, n, m, e, count[e]);
    hide Digit;
    forall d: nat | d < RADIX
      ensures Placed(res[count[e] - 1 := x], s, n, m, d, if d == e then count[d] - 1 else count[d])
    {
      PlaceOne(res, s, n, m, d, count[d], res[count[e] - 1 := x], count[e] - 1, e, count[e]);
    }
  }

  lemma PlacePositive(res: seq<int>, s: seq<int>, n: nat, m: nat, e: nat, c: nat)
    requires NonNegative(s) && n > 0 && m < |s| && e == Digit(s[m], n) && Placed(res, s, n, m + 1, e, c)
    ensures 0 < c <= |res|
  {
    BucketSnoc(s, n, m, e);
    hide Pass, Bucket, Digit;
  }

  lemma PlacedCount(res: seq<int>, s: seq<int>, n: nat, d: nat, c: nat)
    requires NonNegative(s) && n > 0 && Placed(res, s, n, 0, d, c)
    ensures c == |Pass(s, n, d)|
  {
    hide Pass;
    assert s[..0] == [];
  }

  /** The three loops together: a stable reordering by one digit. */
  method Distribute(a: array<int>, start: nat, end: nat, n: nat, result: array<int>) returns (count: array<nat>)
    requires start <= end <= a.Length && n > 0 && NonNegative(a[start..end]) && result.Length >= end - start
    requires a != result
    modifies result
    ensures fresh(count) && count.Length == RADIX
    ensures result[..end - start] == Pass(a[start..end], n, RADIX)
    ensures forall d :: 0 <= d < RADIX ==> count[d] == |Pass(a[start..end], n, d)|
  {
    hide Digit, Pass, Bucket;
    count := CountDigits(a, start, end, n);
    Accumulate(count, a[start..end], n);
    Place(a, start, end, n, count, result);
  }

  // ---- From the last digit ----

  ghost predicate IsSorted(s: seq<int>) {
    forall i, j :: 0 <= i < j < |s| ==> s[i] <= s[j]
  }

  function Shifted(s: seq<int>, delta: int): (t: seq<int>)
    ensures |t| == |s| && forall i :: 0 <= i < |s| ==> t[i] == s[i] + delta
  {
    seq(|s|, i requires 0 <= i < |s| => s[i] + delta)
  }

  lemma {:induction false} ShiftedCount(s: seq<int>, delta: int, x: int)
    ensures Count(Shifted(s, delta), x) == Count(s, x - delta)
  {
    if s != [] {
      var init, last := s[..|s| - 1], s[|s| - 1];
      assert s == init + [last] && Shifted(s, delta) == Shifted(init, delta) + [last + delta];
      assert Count([last], x - delta) == Count([last + delta], x);
      hide Count, Shifted;
      ShiftedCount(init, delta, x);
      CountJoin(init, [last], x - delta);
      CountJoin(Shifted(init, delta), [last + delta], x);
    }
  }

  /** Shifting there and back is the identity; shifted reorderings are reorderings. */
  lemma ShiftedPermutes(s: seq<int>, t: seq<int>, delta: int)
    requires multiset(t) == multiset(Shifted(s, delta))
    ensures multiset(Shifted(t, -delta)) == multiset(s)
  {
    forall x ensures multiset(Shifted(t, -delta))[x] == multiset(s)[x] {
      ShiftedCount(t, -delta, x);
      ShiftedCount(s, delta, x + delta);
    }
  }

  /** The smallest and largest element. */
  method MinMax(a: array<int>) returns (min: int, max: int)
    requires a.Length > 0
    ensures forall i :: 0 <= i < a.Length ==> min <= a[i] <= max
    ensures (exists i :: 0 <= i < a.Length && a[i] == min) && exists i :: 0 <= i < a.Length && a[i] == max
  {
    min, max := a[0], a[0];
    var i := 1;
    while i < a.Length
      invariant 1 <= i <= a.Length
      invariant forall j :: 0 <= j < i ==> min <= a[j] <= max
      invariant (exists j :: 0 <= j < i && a[j] == min) && exists j :: 0 <= j < i && a[j] == max
    {
      if a[i] > max { max := a[i]; }
      if a[i] < min { min := a[i]; }
      i := i + 1;
    }
  }

  method Shift(a: array<int>, delta: int)
    modifies a
    ensures a[..] == Shifted(old(a[..]), delta)
  {
    var i := 0;
    while i < a.Length
      invariant 0 <= i <= a.Length
      invariant forall j :: 0 <= j < i ==> a[j] == old(a[j]) + delta
      invariant forall j :: i <= j < a.Length ==> a[j] == old(a[j])
    {
      a[i] := a[i] + delta;
      i := i + 1;
    }
  }

  /** The digit passes of `radix_sort_LSD` on non-negative values at most `max`. The two buffers change
      places after each pass; the answer is copied back if it ends in the other one. */
  method SortDigits(ptr: array<int>, max: int)
    requires max >= 0 && AllIn(ptr[..], max)
    modifies ptr
    ensures IsSorted(ptr[..]) && multiset(ptr[..]) == multiset(old(ptr[..]))
  {
    ghost var s := ptr[..];
    var n: nat := 1;
    var other := new int[ptr.Length];
    var a, result := ptr, other;
    BeginMod(a[..], max);
    hide SortedMod, NonNegative, IsSorted, Higher, AllIn;
    while Higher(max, n) > 0
      invariant n >= 1 && ((a == ptr && result == other) || (a == other && result == ptr))
      invariant NonNegative(a[..]) && SortedMod(a[..], n) && multiset(a[..]) == multiset(s)
      decreases max - n
    {
      DivPositive(max, n);
      OnePass(a, n, result);
      a, result := result, a;
      n := n * 10;
    }
    SortedBelow(a[..], s, max, n);
    if a != ptr { Copy(a, 0, ptr, 0, ptr.Length); }
  }

  /** `memcpy`. */
  method Copy(src: array<int>, at: nat, dst: array<int>, start: nat, len: nat)
    requires src != dst && at + len <= src.Length && start + len <= dst.Length
    modifies dst
    ensures dst[..] == old(dst[..start]) + src[at..at + len] + old(dst[start + len..])
    ensures at == start == 0 && len == src.Length == dst.Length ==> dst[..] == src[..]
  {
    forall i | 0 <= i < len {
      dst[start + i] := src[at + i];
    }
    assert dst[start..start + len] == src[at..at + len];
    assert dst[..] == dst[..start] + dst[start..start + len] + dst[start + len..];
  }

  /** One turn of the loop. */
  method OnePass(a: array<int>, n: nat, result: array<int>)
    requires n > 0 && NonNegative(a[..]) && SortedMod(a[..], n) && result.Length == a.Length && a != result
    modifies result
    ensures NonNegative(result[..]) && SortedMod(result[..], 10 * n) && multiset(result[..]) == multiset(a[..])
  {
    hide Pass, Digit, SortedMod;
    assert a[0..a.Length] == a[..];
    PassPermutes(a[..], n);
    PassSorts(a[..], n, RADIX);
    var count := Distribute(a, 0, a.Length, n, result);
    assert result[..result.Length] == result[..];
  }

  lemma BeginMod(s: seq<int>, max: int)
    requires AllIn(s, max)
    ensures NonNegative(s) && SortedMod(s, 1)
  {
  }

  /** The digits of `v` from the place of `n` on. */
  function Higher(v: int, n: nat): (h: int)
    requires v >= 0 && n > 0
    ensures h >= 0
  {
    v / n
  }

  lemma DivPositive(max: int, n: nat)
    requires n > 0 && max >= 0 && Higher(max, n) > 0
    ensures n <= max
  {
  }

  /** When every value is below `n`, sorted modulo `n` is sorted. */
  lemma SortedBelow(t: seq<int>, s: seq<int>, max: int, n: nat)
    requires n > 0 && max >= 0 && Higher(max, n) == 0 && NonNegative(t) && SortedMod(t, n) && multiset(t) == multiset(s)
    requires AllIn(s, max)
    ensures IsSorted(t)
  {
    NoHigherPart(max, n);
    forall i | 0 <= i < |t| ensures t[i] % n == t[i] {
      assert t[i] in multiset(t);
      assert t[i] in s;
      OwnRemainder(t[i], n);
    }
    hide Higher, AllIn;
  }

  lemma NoHigherPart(max: int, n: nat)
    requires n > 0 && max >= 0 && Higher(max, n) == 0
    ensures max < n
  {
    assert max == max / n * n + max % n;
  }

  lemma OwnRemainder(v: int, n: nat)
    requires 0 <= v < n
    ensures v % n == v
  {
  }

  ghost predicate AllIn(s: seq<int>, max: int) {
    forall i :: 0 <= i < |s| ==> 0 <= s[i] <= max
  }

  const INT_MAX := 0x7fff_ffff

  /** Values of the source's `int`. */
  ghost predicate Ints(s: seq<int>) {
    forall i :: 0 <= i < |s| ==> -INT_MAX - 1 <= s[i] <= INT_MAX
  }

  /** Subtracting a negative least value from all others stays within `int`. */
  ghost predicate RangeFits(s: seq<int>) {
    forall i, j :: 0 <= i < |s| && 0 <= j < |s| && s[i] < 0 ==> s[j] - s[i] <= INT_MAX
  }

  /** How both sorts begin: when there are negative values, the least one is subtracted from all. The
      subtraction may overflow, and then nothing can be said of what follows. */
  method RaiseToZero(ptr: array<int>) returns (min: int, max: int, fits: bool)
    requires ptr.Length > 0 && Ints(ptr[..])
    modifies ptr
    ensures fits <==> RangeFits(old(ptr[..]))
    ensures fits ==> 0 <= max <= INT_MAX && AllIn(ptr[..], max)
    ensures fits ==> ptr[..] == if min < 0 then Shifted(old(ptr[..]), -min) else old(ptr[..])
  {
    min, max := MinMax(ptr);
    LeastAndGreatest(ptr[..], min, max);
    fits := min >= 0 || max - min <= INT_MAX;
    if fits && min < 0 {
      max := max - min;
      Shift(ptr, -min);
    }
  }

  /** The range fits when the difference of the greatest and the least value does. */
  lemma LeastAndGreatest(s: seq<int>, min: int, max: int)
    requires (forall i :: 0 <= i < |s| ==> min <= s[i] <= max) && min in s && max in s
    ensures RangeFits(s) <==> min >= 0 || max - min <= INT_MAX
  {
  }

  /** How they end. */
  method LowerBack(ptr: array<int>, min: int, ghost s: seq<int>)
    requires IsSorted(ptr[..]) && multiset(ptr[..]) == multiset(if min < 0 then Shifted(s, -min) else s)
    modifies ptr
    ensures IsSorted(ptr[..]) && multiset(ptr[..]) == multiset(s)
  {
    hide IsSorted;
    if min < 0 {
      ShiftedPermutes(s, ptr[..], -min);
      ShiftedSorted(ptr[..], min);
      Shift(ptr, min);
    }
  }

  /** `radix_sort_LSD`: negative values are shifted up first and back at the end. The answer, which the
      source does not give, says whether the shift stays within `int`; if so, the array is sorted. */
  method RadixSortLSD(ptr: array<int>) returns (fits: bool)
    requires Ints(ptr[..])
    modifies ptr
    ensures fits <==> RangeFits(old(ptr[..]))
    ensures fits ==> IsSorted(ptr[..]) && multiset(ptr[..]) == multiset(old(ptr[..]))
  {
    if ptr.Length <= 1 {
      ShortIsSorted(ptr[..]);
      return true;
    }
    hide IsSorted, AllIn, PowerOfTen, RangeFits;
    ghost var s := ptr[..];
    var min, max;
    min, max, fits := RaiseToZero(ptr);
    if !fits { return; }
    SortDigits(ptr, max);
    LowerBack(ptr, min, s);
  }

  lemma ShortIsSorted(s: seq<int>)
    requires |s| <= 1
    ensures IsSorted(s)
  {
  }

  lemma ShiftedSorted(s: seq<int>, delta: int)
    requires IsSorted(s)
    ensures IsSorted(Shifted(s, delta))
  {
  }

  // ---- From the first digit ----

  ghost predicate PowerOfTen(exp: nat) {
    exp <= 1 || (exp % 10 == 0 && PowerOfTen(exp / 10))
  }

  /** How many values share all digits above the place `exp`; at place 0, all digits. */
  function Width(exp: nat): (w: nat)
    ensures w >= 1
  {
    if exp == 0 then 1 else 10 * exp
  }

  predicate Aligned(base: int, width: int) {
    width > 0 && base % width == 0
  }

  /** The range holds values from `base` on, `width` of them. */
  ghost predicate Block(t: seq<int>, lo: int, hi: int, base: int, width: int) {
    AtLeast(t, lo, hi, base) && AtMost(t, lo, hi, base + width - 1)
  }

  lemma PlaceBelow(exp: nat)
    requires exp > 0 && PowerOfTen(exp)
    ensures PowerOfTen(exp / 10) && Width(exp / 10) == exp && exp / 10 < exp
  {
  }

  /** Among values sharing the higher digits, the digit says in which tenth a value lies. */
  lemma DigitRange(v: int, base: int, exp: nat)
    requires exp > 0 && base >= 0 && Aligned(base, 10 * exp) && base <= v < base + 10 * exp
    ensures base + Digit(v, exp) * exp <= v < base + (Digit(v, exp) + 1) * exp
  {
    var q := base / (10 * exp);
    assert base == q * (10 * exp);
    Quotient(v, 10 * exp, q, v - base);
    ModSplit(v, exp);
    Distribute1(Digit(v, exp), exp);
  }

  lemma Distribute1(d: int, n: int)
    ensures (d + 1) * n == d * n + n
  {
  }

  /** Where the buckets begin after a pass. */
  ghost function Bounds(s: seq<int>, n: nat): (b: seq<nat>)
    requires NonNegative(s) && n > 0
    ensures |b| == RADIX + 1
  {
    seq(RADIX + 1, d requires 0 <= d <= RADIX => |Pass(s, n, d)|)
  }

  ghost predicate BlockAt(t: seq<int>, start: nat, b: seq<nat>, base: int, exp: int, d: nat)
    requires d + 1 < |b|
  {
    b[d] <= b[d + 1] && Block(t, start + b[d], start + b[d + 1], base + d * exp, exp)
  }

  /** Every tenth of the values is in its own block. */
  ghost predicate Blocks(t: seq<int>, start: nat, b: seq<nat>, base: int, exp: int) {
    |b| == RADIX + 1 && forall d: nat :: d < RADIX ==> BlockAt(t, start, b, base, exp, d)
  }

  lemma BlocksOrdered(t: seq<int>, start: nat, b: seq<nat>, base: int, exp: int)
    requires Blocks(t, start, b, base, exp)
    ensures forall d {:trigger b[d]} :: 0 <= d < RADIX ==> b[d] <= b[d + 1]
  {
    forall d {:trigger b[d]} | 0 <= d < RADIX ensures b[d] <= b[d + 1] { assert BlockAt(t, start, b, base, exp, d); }
  }

  lemma PassBlock(s: seq<int>, t: seq<int>, start: nat, base: int, exp: nat, d: nat)
    requires exp > 0 && base >= 0 && Aligned(base, 10 * exp) && d < RADIX && NonNegative(s)
    requires forall i :: 0 <= i < |s| ==> base <= s[i] < base + 10 * exp
    requires start + |s| <= |t| && t[start..start + |s|] == Pass(s, exp, RADIX)
    ensures |Pass(s, exp, d)| <= |Pass(s, exp, d + 1)|
    ensures Block(t, start + |Pass(s, exp, d)|, start + |Pass(s, exp, d + 1)|, base + d * exp, exp)
  {
    hide Digit;
    var p, bucket, whole := Pass(s, exp, d), Bucket(s, exp, d), Pass(s, exp, RADIX);
    var b := base + d * exp;
    assert Pass(s, exp, d + 1) == p + bucket;
    PassMonotone(s, exp, d + 1, RADIX);
    BucketRange(s, base, exp, d, b);
    hide Pass, Bucket;
    forall k | start + |p| <= k < start + |p + bucket| ensures b <= t[k] < b + exp {
      assert t[k] == t[start..start + |s|][k - start]
          == whole[k - start] == (p + bucket)[k - start] == bucket[k - start - |p|];
    }
  }

  lemma BucketRange(s: seq<int>, base: int, exp: nat, d: nat, b: int)
    requires exp > 0 && base >= 0 && Aligned(base, 10 * exp) && NonNegative(s) && b == base + d * exp
    requires forall i :: 0 <= i < |s| ==> base <= s[i] < base + 10 * exp
    ensures forall k :: 0 <= k < |Bucket(s, exp, d)| ==> b <= Bucket(s, exp, d)[k] < b + exp
  {
    hide Digit;
    BucketMembers(s, exp, d);
    hide Bucket;
    forall k | 0 <= k < |Bucket(s, exp, d)| ensures b <= Bucket(s, exp, d)[k] < b + exp {
      DigitRange(Bucket(s, exp, d)[k], base, exp);
      Distribute1(d, exp);
    }
  }

  lemma PassBlocks(s: seq<int>, t: seq<int>, start: nat, base: int, exp: nat)
    requires exp > 0 && base >= 0 && Aligned(base, 10 * exp) && NonNegative(s)
    requires forall i :: 0 <= i < |s| ==> base <= s[i] < base + 10 * exp
    requires start + |s| <= |t| && t[start..start + |s|] == Pass(s, exp, RADIX)
    ensures Blocks(t, start, Bounds(s, exp), base, exp) && Bounds(s, exp)[0] == 0 && Bounds(s, exp)[RADIX] == |s|
  {
    hide Pass, Block, NonNegative, Aligned;
    PassPermutes(s, exp);
    assert |Pass(s, exp, 0)| == 0 by { PassNone(s, exp); }
    var b := Bounds(s, exp);
    forall d: nat | d < RADIX ensures BlockAt(t, start, b, base, exp, d) {
      PassBlock(s, t, start, base, exp, d);
    }
  }

  lemma PassNone(s: seq<int>, n: nat)
    requires NonNegative(s) && n > 0
    ensures Pass(s, n, 0) == []
  {
  }

  /** Reordering one block keeps them all. */
  lemma BlocksKept(t: seq<int>, u: seq<int>, start: nat, b: seq<nat>, base: int, exp: int, i: nat)
    requires Blocks(t, start, b, base, exp) && i < RADIX && Shuffled(t, u, start + b[i], start + b[i + 1])
    ensures Blocks(u, start, b, base, exp)
  {
    BlocksOrdered(t, start, b, base, exp);
    OutsideKept(t, u, start + b[i], start + b[i + 1]);
    forall d: nat | d < RADIX ensures BlockAt(u, start, b, base, exp, d) {
      assert BlockAt(t, start, b, base, exp, d);
      if d == i { BlockShuffled(t, u, start, b, base, exp, i); } else { BlocksApart(b, d, i); }
    }
  }

  lemma BlockShuffled(t: seq<int>, u: seq<int>, start: nat, b: seq<nat>, base: int, exp: int, i: nat)
    requires i + 1 < |b| && BlockAt(t, start, b, base, exp, i) && Shuffled(t, u, start + b[i], start + b[i + 1])
    ensures BlockAt(u, start, b, base, exp, i)
  {
    hide Shuffled;
    ShuffledBounds(t, u, start + b[i], start + b[i + 1], base + i * exp);
    ShuffledBounds(t, u, start + b[i], start + b[i + 1], base + i * exp + exp - 1);
  }

  lemma {:induction false} BoundsAscend(b: seq<nat>, d: nat, e: nat)
    requires |b| == RADIX + 1 && d <= e <= RADIX && forall k {:trigger b[k]} :: 0 <= k < RADIX ==> b[k] <= b[k + 1]
    ensures b[d] <= b[e]
  {
    if d < e { BoundsAscend(b, d, e - 1); }
  }

  lemma BlocksApart(b: seq<nat>, d: nat, i: nat)
    requires |b| == RADIX + 1 && d < RADIX && i < RADIX && d != i
    requires forall k {:trigger b[k]} :: 0 <= k < RADIX ==> b[k] <= b[k + 1]
    ensures b[d + 1] <= b[i] || b[i + 1] <= b[d]
  {
    if d < i { BoundsAscend(b, d + 1, i); } else { BoundsAscend(b, i + 1, d); }
  }

  /** Everything before block `i` is sorted and below the block. */
  ghost predicate SortedUpTo(t: seq<int>, start: nat, b: seq<nat>, base: int, exp: int, i: nat)
    requires i < |b|
  {
    Sorted(t, start, start + b[i]) && AtMost(t, start, start + b[i], base + i * exp - 1)
  }

  lemma NextBlockSorted(t: seq<int>, u: seq<int>, start: nat, b: seq<nat>, base: int, exp: nat, i: nat)
    requires exp > 0 && Blocks(t, start, b, base, exp) && i < RADIX && SortedUpTo(t, start, b, base, exp, i)
    requires Shuffled(t, u, start + b[i], start + b[i + 1]) && Sorted(u, start + b[i], start + b[i + 1])
    ensures SortedUpTo(u, start, b, base, exp, i + 1)
  {
    BlocksKept(t, u, start, b, base, exp, i);
    OneBlock(t, start, b, base, exp, i);
    OutsideKept(t, u, start + b[i], start + b[i + 1]);
    Distribute1(i, exp);
    hide Shuffled, Blocks;
    assert Block(u, start + b[i], start + b[i + 1], base + i * exp, exp) by { OneBlock(u, start, b, base, exp, i); }
    var lo := base + i * exp;
    assert AtMost(u, start, start + b[i], lo - 1);
    SortedJoin(u, start, start + b[i], start + b[i + 1], lo, exp);
  }

  lemma OneBlock(t: seq<int>, start: nat, b: seq<nat>, base: int, exp: int, i: nat)
    requires Blocks(t, start, b, base, exp) && i < RADIX
    ensures b[i] <= b[i + 1] && Block(t, start + b[i], start + b[i + 1], base + i * exp, exp)
  {
    assert BlockAt(t, start, b, base, exp, i);
  }

  lemma SortedJoin(t: seq<int>, lo: int, mid: int, hi: int, v: int, width: int)
    requires lo <= mid <= hi && Sorted(t, lo, mid) && Sorted(t, mid, hi) && AtMost(t, lo, mid, v - 1)
    requires Block(t, mid, hi, v, width) && width >= 0
    ensures Sorted(t, lo, hi) && AtMost(t, lo, hi, v + width - 1)
  {
  }

  /** A pass copied back over its range reorders the range. */
  lemma PassShuffles(s: seq<int>, t: seq<int>, start: nat, end: nat, exp: nat)
    requires exp > 0 && start <= end <= |s| && NonNegative(s[start..end])
    requires t == s[..start] + Pass(s[start..end], exp, RADIX) + s[end..]
    ensures Shuffled(s, t, start, end) && t[start..end] == Pass(s[start..end], exp, RADIX)
  {
    PassPermutes(s[start..end], exp);
    hide Pass;
    assert t[start..end] == Pass(s[start..end], exp, RADIX) && t[..start] == s[..start] && t[end..] == s[end..];
  }

  lemma BlockIsNonNegative(s: seq<int>, start: nat, end: nat, base: int, width: int)
    requires start <= end <= |s| && Block(s, start, end, base, width) && base >= 0
    ensures NonNegative(s[start..end]) && forall i :: 0 <= i < end - start ==> base <= s[start..end][i] < base + width
  {
  }

  /** The counting pass of `_radix_sort_MSD_recursive`: afterwards every tenth of the values has its block. */
  method Spread(ptr: array<int>, start: nat, end: nat, exp: nat, ghost base: int)
    returns (count: array<nat>, ghost b: seq<nat>)
    requires start <= end <= ptr.Length && exp > 0 && base >= 0 && Aligned(base, 10 * exp)
    requires Block(ptr[..], start, end, base, 10 * exp)
    modifies ptr
    ensures Shuffled(old(ptr[..]), ptr[..], start, end) && Blocks(ptr[..], start, b, base, exp)
    ensures |b| == RADIX + 1 && b[0] == 0 && b[RADIX] == end - start
    ensures fresh(count) && count.Length == RADIX && forall d :: 0 <= d < RADIX ==> count[d] == b[d]
  {
    hide Pass, Digit, Shuffled, Blocks, Bucket, Aligned;
    ghost var s := ptr[..];
    BlockIsNonNegative(s, start, end, base, 10 * exp);
    hide Block, NonNegative;
    var bucket := new int[end - start];
    count := Distribute(ptr, start, end, exp, bucket);
    assert s[start..end] == ptr[start..end];
    b := Bounds(s[start..end], exp);
    assert bucket[0..end - start] == bucket[..end - start];
    Copy(bucket, 0, ptr, start, end - start);
    PassShuffles(s, ptr[..], start, end, exp);
    PassBlocks(s[start..end], ptr[..], start, base, exp);
  }

  /** `_radix_sort_MSD_recursive` on a range whose values share all digits above the place `exp`. */
  method MsdRecursive(ptr: array<int>, start: nat, end: int, exp: nat, ghost base: int)
    requires start <= end + 1 <= ptr.Length && PowerOfTen(exp) && base >= 0 && Aligned(base, Width(exp))
    requires Block(ptr[..], start, end + 1, base, Width(exp))
    modifies ptr
    ensures Sorted(ptr[..], start, end + 1) && Shuffled(old(ptr[..]), ptr[..], start, end + 1)
    decreases exp, 2
  {
    hide Shuffled, Blocks, Block, PowerOfTen, Sorted, AtMost, AtLeast, Swapped, Aligned;
    ghost var s := ptr[..];
    ShuffledSelf(s, start, end + 1);
    if exp <= 0 {
      OneValueSorted(s, start, end + 1, base);
      return;
    }
    if end - start <= 1 {
      if end - start == 1 && ptr[start] > ptr[end] {
        SwapShuffles(s, start, end, start, end + 1);
        ptr[start], ptr[end] := ptr[end], ptr[start];
        assert ptr[..] == Swapped(s, start, end) by { SwappedIs(s, ptr[..], start, end); }
      }
      TwoSorted(ptr[..], start, end);
      return;
    }
    var count, b := Spread(ptr, start, end + 1, exp, base);
    SortBlocks(ptr, start, end, exp, base, count, b, s);
  }

  lemma OneValueSorted(t: seq<int>, lo: int, hi: int, base: int)
    requires Block(t, lo, hi, base, 1)
    ensures Sorted(t, lo, hi)
  {
  }

  lemma SwappedIs(s: seq<int>, t: seq<int>, i: int, j: int)
    requires 0 <= i < j < |s| && t == s[i := s[j]][j := s[i]]
    ensures t == Swapped(s, i, j)
  {
  }

  lemma TwoSorted(t: seq<int>, start: int, end: int)
    requires 0 <= start <= end + 1 <= |t| && end - start <= 1 && (end - start == 1 ==> t[start] <= t[end])
    ensures Sorted(t, start, end + 1)
  {
  }

  /** The loop over the buckets. */
  method SortBlocks(ptr: array<int>, start: nat, end: nat, exp: nat, ghost base: int, count: array<nat>,
                    ghost b: seq<nat>, ghost s: seq<int>)
    requires start <= end < ptr.Length && exp > 0 && PowerOfTen(exp) && base >= 0 && Aligned(base, 10 * exp)
    requires Shuffled(s, ptr[..], start, end + 1) && Blocks(ptr[..], start, b, base, exp) && |b| == RADIX + 1
    requires b[0] == 0 && b[RADIX] == end + 1 - start
    requires count.Length == RADIX && forall d :: 0 <= d < RADIX ==> count[d] == b[d]
    modifies ptr
    ensures Sorted(ptr[..], start, end + 1) && Shuffled(s, ptr[..], start, end + 1)
    decreases exp, 1
  {
    NothingSorted(ptr[..], start, b, base, exp);
    hide Shuffled, Blocks, Block, PowerOfTen, Sorted, AtMost, AtLeast, SortedUpTo, Aligned;
    var i := 0;
    while i < RADIX
      invariant 0 <= i <= RADIX && count.Length == RADIX && forall d :: 0 <= d < RADIX ==> count[d] == b[d]
      invariant Shuffled(s, ptr[..], start, end + 1) && Blocks(ptr[..], start, b, base, exp)
      invariant SortedUpTo(ptr[..], start, b, base, exp, i)
    {
      SortBlock(ptr, start, end, exp, base,
                start + count[i], if i + 1 < RADIX then start + count[i + 1] - 1 else end, b, i, s);
      i := i + 1;
    }
    AllSorted(ptr[..], start, b, base, exp);
  }

  /** One bucket. */
  method SortBlock(ptr: array<int>, start: nat, end: nat, exp: nat, ghost base: int, start1: nat, end1: int,
                   ghost b: seq<nat>, ghost i: nat, ghost s: seq<int>)
    requires start <= end < ptr.Length && exp > 0 && PowerOfTen(exp) && base >= 0 && Aligned(base, 10 * exp)
    requires Shuffled(s, ptr[..], start, end + 1) && Blocks(ptr[..], start, b, base, exp) && |b| == RADIX + 1
    requires b[RADIX] == end + 1 - start && i < RADIX && start1 == start + b[i] && end1 + 1 == start + b[i + 1]
    requires SortedUpTo(ptr[..], start, b, base, exp, i)
    modifies ptr
    ensures Shuffled(s, ptr[..], start, end + 1) && Blocks(ptr[..], start, b, base, exp)
    ensures SortedUpTo(ptr[..], start, b, base, exp, i + 1)
    decreases exp, 0
  {
    hide Shuffled, Blocks, Block, PowerOfTen, Sorted, AtMost, AtLeast, SortedUpTo, Aligned;
    ghost var t := ptr[..];
    OneBlock(t, start, b, base, exp, i);
    BlockInside(t, b, start, end, base, exp, i);
    if start1 < end1 {
      PlaceBelow(exp);
      BlockBase(base, exp, i);
      MsdRecursive(ptr, start1, end1, exp / 10, base + i * exp);
    } else {
      ShuffledSelf(t, start1, end1 + 1);
      ShortSorted(t, start1, end1 + 1);
    }
    NextBlockSorted(t, ptr[..], start, b, base, exp, i);
    BlocksKept(t, ptr[..], start, b, base, exp, i);
    ShuffledWiden(t, ptr[..], start1, end1 + 1, start, end + 1);
    ShuffledTrans(s, t, ptr[..], start, end + 1);
  }

  lemma NothingSorted(t: seq<int>, start: nat, b: seq<nat>, base: int, exp: int)
    requires |b| == RADIX + 1 && b[0] == 0 && start <= |t|
    ensures SortedUpTo(t, start, b, base, exp, 0)
  {
  }

  lemma AllSorted(t: seq<int>, start: nat, b: seq<nat>, base: int, exp: int)
    requires |b| == RADIX + 1 && SortedUpTo(t, start, b, base, exp, RADIX)
    ensures Sorted(t, start, start + b[RADIX])
  {
  }

  lemma ShortSorted(t: seq<int>, lo: int, hi: int)
    requires 0 <= lo && hi <= |t| && hi <= lo + 1
    ensures Sorted(t, lo, hi)
  {
  }

  lemma BlockInside(t: seq<int>, b: seq<nat>, start: nat, end: nat, base: int, exp: int, i: nat)
    requires Blocks(t, start, b, base, exp) && i < RADIX && b[RADIX] == end + 1 - start && start <= end < |t|
    ensures b[i] <= b[i + 1] <= b[RADIX]
  {
    BlocksOrdered(t, start, b, base, exp);
    BoundsAscend(b, i + 1, RADIX);
  }

  lemma BlockBase(base: int, exp: nat, i: nat)
    requires exp > 0 && base >= 0 && Aligned(base, 10 * exp)
    ensures base + i * exp >= 0 && Aligned(base + i * exp, exp)
  {
    var q := base / (10 * exp);
    assert base == q * (10 * exp);
    Distribute10(q, i, exp);
    Quotient(base + i * exp, exp, 10 * q + i, 0);
  }

  /** `radix_sort_MSD`. */
  method RadixSortMSD(ptr: array<int>) returns (fits: bool)
    requires Ints(ptr[..])
    modifies ptr
    ensures fits <==> RangeFits(old(ptr[..]))
    ensures fits ==> IsSorted(ptr[..]) && multiset(ptr[..]) == multiset(old(ptr[..]))
  {
    if ptr.Length <= 1 {
      ShortIsSorted(ptr[..]);
      return true;
    }
    hide IsSorted, AllIn, PowerOfTen, RangeFits;
    ghost var s := ptr[..];
    var min, max;
    min, max, fits := RaiseToZero(ptr);
    if !fits { return; }
    var n := FirstPlace(max);
    SortFromFirst(ptr, max, n);
    LowerBack(ptr, min, s);
  }

  /** The place of the first digit of `max`. */
  method FirstPlace(max: int) returns (n: nat)
    requires max >= 0
    ensures n > 0 && PowerOfTen(n) && max < 10 * n
  {
    n := 1;
    var m := max / 10;
    while m != 0
      invariant m >= 0 && n > 0 && PowerOfTen(n) && m * (10 * n) <= max < (m + 1) * (10 * n)
      decreases m
    {
      NextPlace(max, m, n);
      n := n * 10;
      m := m / 10;
    }
  }

  lemma NextPlace(max: int, m: int, n: nat)
    requires m >= 0 && n > 0 && m * (10 * n) <= max < (m + 1) * (10 * n)
    ensures (m / 10) * (10 * (n * 10)) <= max < (m / 10 + 1) * (10 * (n * 10))
    ensures PowerOfTen(n) ==> PowerOfTen(n * 10)
  {
    TenFold(max, m, m / 10, m % 10, 10 * n);
  }

  lemma TenFold(v: int, m: int, q: int, r: int, w: int)
    requires m == 10 * q + r && 0 <= r < 10 && w > 0 && m * w <= v < (m + 1) * w
    ensures q * (10 * w) <= v < (q + 1) * (10 * w)
  {
    Distribute10(q, r, w);
    Distribute10(q, r + 1, w);
    DigitBound(r, w, 0);
    DigitBound(r, w, w - 1);
    Distribute1(q, 10 * w);
    Distribute1(r, w);
  }

  method SortFromFirst(ptr: array<int>, max: int, n: nat)
    requires ptr.Length > 0 && max >= 0 && AllIn(ptr[..], max) && n > 0 && PowerOfTen(n) && max < 10 * n
    modifies ptr
    ensures IsSorted(ptr[..]) && multiset(ptr[..]) == multiset(old(ptr[..]))
  {
    ghost var s := ptr[..];
    assert Block(s, 0, ptr.Length, 0, Width(n));
    MsdRecursive(ptr, 0, ptr.Length - 1, n, 0);
    assert s[0..ptr.Length] == s && ptr[..][0..ptr.Length] == ptr[..];
  }

  lemma LastSplit(s: seq<int>)
    requires s != []
    ensures multiset(s) == multiset(s[..|s| - 1]) + multiset{s[|s| - 1]}
  {
    assert s == s[..|s| - 1] + [s[|s| - 1]];
  }

  lemma LastAtLeast(s: seq<int>, t: seq<int>)
    requires s != [] && t != [] && IsSorted(s) && multiset(s) == multiset(t)
    ensures s[|s| - 1] >= t[|t| - 1]
  {
    assert t[|t| - 1] in multiset(t);
    assert t[|t| - 1] in s;
  }

  lemma Cancel(a: multiset<int>, b: multiset<int>, c: multiset<int>)
    requires a + c == b + c
    ensures a == b
  {
    assert a + c - c == a && b + c - c == b;
  }

  /** Both sorts give the same array: there is only one sorted arrangement. */
  lemma {:induction false} SortedIsUnique(s: seq<int>, t: seq<int>)
    requires IsSorted(s) && IsSorted(t) && multiset(s) == multiset(t)
    ensures s == t
  {
    SameSize(s, t);
    if s != [] {
      var k := |s| - 1;
      LastAtLeast(s, t);
      LastAtLeast(t, s);
      LastSplit(s);
      LastSplit(t);
      Cancel(multiset(s[..k]), multiset(t[..k]), multiset{s[k]});
      PrefixSorted(s);
      PrefixSorted(t);
      hide IsSorted;
      SortedIsUnique(s[..k], t[..k]);
      assert s == s[..k] + [s[k]] && t == t[..k] + [t[k]];
    }
  }

  lemma PrefixSorted(s: seq<int>)
    requires s != [] && IsSorted(s)
    ensures IsSorted(s[..|s| - 1])
  {
  }
}
