/** Reorderings of a range of a sequence, used by the sorting modules. */
module Reordering {

  /** `t` is `s` with the elements of `[lo, hi)` reordered. */
  ghost predicate Shuffled(s: seq<int>, t: seq<int>, lo: int, hi: int) {
    && |s| == |t| && 0 <= lo <= hi <= |s| && s[..lo] == t[..lo] && s[hi..] == t[hi..]
    && multiset(s[lo..hi]) == multiset(t[lo..hi])
  }

  predicate Sorted(s: seq<int>, lo: int, hi: int) {
    0 <= lo && hi <= |s| && forall i, j :: lo <= i < j < hi ==> s[i] <= s[j]
  }

  predicate AtMost(s: seq<int>, lo: int, hi: int, v: int) {
    0 <= lo && hi <= |s| && forall i :: lo <= i < hi ==> s[i] <= v
  }

  predicate AtLeast(s: seq<int>, lo: int, hi: int, v: int) {
    0 <= lo && hi <= |s| && forall i :: lo <= i < hi ==> s[i] >= v
  }

  predicate All(s: seq<int>, lo: int, hi: int, v: int) {
    AtMost(s, lo, hi, v) && AtLeast(s, lo, hi, v)
  }

  lemma ShuffledTrans(s: seq<int>, t: seq<int>, u: seq<int>, lo: int, hi: int)
    requires Shuffled(s, t, lo, hi) && Shuffled(t, u, lo, hi)
    ensures Shuffled(s, u, lo, hi)
  {
  }

  lemma ShuffledWiden(s: seq<int>, t: seq<int>, lo: int, hi: int, lo': int, hi': int)
    requires Shuffled(s, t, lo, hi) && 0 <= lo' <= lo && hi <= hi' <= |s|
    ensures Shuffled(s, t, lo', hi')
  {
    assert s[..lo'] == s[..lo][..lo'] && t[..lo'] == t[..lo][..lo'];
    assert s[hi'..] == s[hi..][hi' - hi..] && t[hi'..] == t[hi..][hi' - hi..];
    assert s[lo'..lo] == s[..lo][lo'..] && t[lo'..lo] == t[..lo][lo'..];
    assert s[hi..hi'] == s[hi..][..hi' - hi] && t[hi..hi'] == t[hi..][..hi' - hi];
    ThreeParts(s, lo', lo, hi, hi');
    ThreeParts(t, lo', lo, hi, hi');
  }

  lemma ThreeParts(s: seq<int>, a: int, b: int, c: int, d: int)
    requires 0 <= a <= b <= c <= d <= |s|
    ensures s[a..d] == s[a..b] + s[b..c] + s[c..d]
  {
  }

  function Swapped(s: seq<int>, i: int, j: int): seq<int>
    requires 0 <= i < |s| && 0 <= j < |s|
  {
    s[i := s[j]][j := s[i]]
  }

  lemma SwapShuffles(s: seq<int>, i: int, j: int, lo: int, hi: int)
    requires 0 <= lo <= i <= j < hi <= |s|
    ensures Shuffled(s, Swapped(s, i, j), lo, hi)
  {
    var t := Swapped(s, i, j);
    if i == j {
      assert t == s;
    } else {
      assert s[lo..hi] == s[lo..i] + [s[i]] + s[i + 1..j] + [s[j]] + s[j + 1..hi];
      assert t[lo..hi] == s[lo..i] + [s[j]] + s[i + 1..j] + [s[i]] + s[j + 1..hi];
    }
  }

  /** One more exchange. */
  lemma SwapAgain(s: seq<int>, t: seq<int>, i: int, j: int, lo: int, hi: int)
    requires Shuffled(s, t, lo, hi) && lo <= i <= j < hi
    ensures Shuffled(s, Swapped(t, i, j), lo, hi)
  {
    SwapShuffles(t, i, j, lo, hi);
    ShuffledTrans(s, t, Swapped(t, i, j), lo, hi);
  }

  lemma ShuffledMember(s: seq<int>, t: seq<int>, lo: int, hi: int, i: int) returns (j: int)
    requires Shuffled(s, t, lo, hi) && lo <= i < hi
    ensures lo <= j < hi && s[j] == t[i]
  {
    assert t[i] in multiset(t[lo..hi]) by { assert t[lo..hi][i - lo] == t[i]; }
    assert t[i] in s[lo..hi];
    var k :| 0 <= k < hi - lo && s[lo..hi][k] == t[i];
    j := lo + k;
  }

  /** Reordering keeps bounds on the reordered range and all values outside. */
  lemma ShuffledBounds(s: seq<int>, t: seq<int>, lo: int, hi: int, v: int)
    requires Shuffled(s, t, lo, hi)
    ensures AtMost(s, lo, hi, v) ==> AtMost(t, lo, hi, v)
    ensures AtLeast(s, lo, hi, v) ==> AtLeast(t, lo, hi, v)
  {
    forall i | lo <= i < hi ensures AtMost(s, lo, hi, v) ==> t[i] <= v {
      var j := ShuffledMember(s, t, lo, hi, i);
    }
    forall i | lo <= i < hi ensures AtLeast(s, lo, hi, v) ==> t[i] >= v {
      var j := ShuffledMember(s, t, lo, hi, i);
    }
  }

  lemma ShuffledOutside(s: seq<int>, t: seq<int>, lo: int, hi: int, i: int)
    requires Shuffled(s, t, lo, hi) && 0 <= i < |s| && (i < lo || hi <= i)
    ensures t[i] == s[i]
  {
    if i < lo {
      assert s[..lo][i] == t[..lo][i];
    } else {
      assert s[hi..][i - hi] == t[hi..][i - hi];
    }
  }

  lemma ShuffledSelf(s: seq<int>, lo: int, hi: int)
    requires 0 <= lo <= hi <= |s|
    ensures Shuffled(s, s, lo, hi)
  {
  }

  lemma OutsideKept(s: seq<int>, t: seq<int>, lo: int, hi: int)
    requires Shuffled(s, t, lo, hi)
    ensures |s| == |t| && forall i :: 0 <= i < lo || hi <= i < |s| ==> t[i] == s[i]
  {
    forall i | 0 <= i < lo || hi <= i < |s| ensures t[i] == s[i] {
      ShuffledOutside(s, t, lo, hi, i);
    }
  }

  lemma SameLength(s: seq<int>, t: seq<int>, lo: int, hi: int)
    requires Shuffled(s, t, lo, hi)
    ensures |s| == |t|
  {
  }
}
