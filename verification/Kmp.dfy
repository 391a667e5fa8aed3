/** Substring search by Knuth, Morris and Pratt (Algorithm/KMP_Algorithm.cpp). */
module Kmp {

  /** The first `k` characters of the prefix of length `n` are also its last `k`, and `k < n`. */
  predicate IsBorder(p: string, n: int, k: int) {
    0 <= k < n <= |p| && p[..k] == p[n - k..n]
  }

  ghost predicate IsLongestBorder(p: string, n: int, k: int) {
    IsBorder(p, n, k) && BordersUpTo(p, n, k)
  }

  /** No border of the prefix is longer than `bound`. */
  ghost predicate BordersUpTo(p: string, n: int, bound: int) {
    forall j :: IsBorder(p, n, j) ==> j <= bound
  }

  /** The prefix table: the longest border of every prefix. */
  ghost predicate IsTable(p: string, next: seq<nat>, upTo: nat) {
    upTo <= |p| <= |next| && forall i :: 0 <= i < upTo ==> IsLongestBorder(p, i + 1, next[i])
  }

  predicate OccursAt(h: string, p: string, s: int) {
    0 <= s && s + |p| <= |h| && h[s..s + |p|] == p
  }

  /** Below a border, the borders of the prefix and those of the border itself are the same. */
  lemma BorderOfBorder(p: string, n: int, k: int, j: int)
    requires IsBorder(p, n, k) && 0 <= j < k
    ensures IsBorder(p, n, j) <==> IsBorder(p, k, j)
  {
    var pre, suf := p[..k], p[n - k..n];
    assert p[k - j..k] == pre[k - j..] && p[n - j..n] == suf[k - j..];
  }

  lemma BorderGrows(p: string, n: int, k: int)
    requires IsBorder(p, n, k) && n < |p|
    ensures IsBorder(p, n + 1, k + 1) <==> p[k] == p[n]
  {
    assert p[..k + 1] == p[..k] + [p[k]];
    assert p[n - k..n + 1] == p[n - k..n] + [p[n]];
    if p[k] != p[n] { assert p[..k + 1][k] != p[n - k..n + 1][k]; }
  }

  lemma BorderShrinks(p: string, n: int, k: int)
    requires IsBorder(p, n + 1, k) && k > 0 && n > 0
    ensures IsBorder(p, n, k - 1)
  {
    assert p[..k - 1] == p[..k][..k - 1];
    assert p[n - (k - 1)..n] == p[n + 1 - k..n + 1][..k - 1];
  }

  /** After a mismatch the longest border of the border is the next candidate. */
  lemma Fallback(p: string, n: int, k: int, k': int)
    requires 0 < n < |p| && 0 < k && IsBorder(p, n, k) && p[k] != p[n] && IsLongestBorder(p, k, k')
    requires BordersUpTo(p, n + 1, k + 1)
    ensures IsBorder(p, n, k') && BordersUpTo(p, n + 1, k' + 1)
  {
    BorderOfBorder(p, n, k, k');
    var n' := n + 1;
    forall j | IsBorder(p, n', j) ensures j <= k' + 1 {
      BorderGrows(p, n, k);
      if j > 0 {
        BorderShrinks(p, n, j);
        BorderOfBorder(p, n, k, j - 1);
      }
    }
  }

  /** `getNext`, with the number of turns its loop takes. */
  method GetNext(pattern: string) returns (next: array<nat>, ghost turns: nat)
    ensures next.Length == |pattern| && IsTable(pattern, next[..], |pattern|)
    ensures turns <= 2 * |pattern|
  {
    next := new nat[|pattern|](_ => 0);
    turns := 0;
    if |pattern| == 0 { return; }
    var i, k := 1, 0;
    assert IsLongestBorder(pattern, 1, 0);
    NextCandidates(pattern, 1, 0);
    hide IsBorder, BordersUpTo;
    while i < |pattern|
      invariant 1 <= i <= |pattern| && 0 <= k < i && IsTable(pattern, next[..], i)
      invariant IsBorder(pattern, i, k) && BordersUpTo(pattern, i + 1, k + 1)
      invariant turns <= 2 * (i - 1) - k
      decreases 2 * |pattern| - (2 * i - k)
    {
      turns := turns + 1;
      ghost var before := next[..];
      if pattern[i] == pattern[k] {
        BorderGrows(pattern, i, k);
        next[i] := k + 1;
        TableGrows(pattern, before, next[..], i);
        NextCandidates(pattern, i + 1, k + 1);
        k := k + 1;
        i := i + 1;
      } else if k > 0 {
        assert IsLongestBorder(pattern, k, before[k - 1]);
        Fallback(pattern, i, k, next[k - 1]);
        k := next[k - 1];
      } else {
        NoBorder(pattern, i, k);
        next[i] := 0;
        TableGrows(pattern, before, next[..], i);
        NextCandidates(pattern, i + 1, 0);
        i := i + 1;
      }
    }
  }

  lemma TableGrows(p: string, before: seq<nat>, next: seq<nat>, i: nat)
    requires IsTable(p, before, i) && i < |p| == |before| == |next| && next == before[i := next[i]]
    requires IsLongestBorder(p, i + 1, next[i])
    ensures IsTable(p, next, i + 1)
  {
  }

  /** A border of the next prefix extends a border of this one. */
  lemma NextCandidates(p: string, n: int, k: int)
    requires IsLongestBorder(p, n, k) && n > 0
    ensures BordersUpTo(p, n + 1, k + 1)
  {
    var n' := n + 1;
    forall j | IsBorder(p, n', j) ensures j <= k + 1 {
      if j > 0 { BorderShrinks(p, n, j); }
    }
  }

  lemma LastCharacter(p: string, n: int, k: int)
    requires IsBorder(p, n + 1, k) && k > 0
    ensures p[k - 1] == p[n]
  {
    assert p[..k][k - 1] == p[n + 1 - k..n + 1][k - 1];
  }

  lemma NoBorder(p: string, n: int, k: int)
    requires 0 < n < |p| && k == 0 && p[k] != p[n] && BordersUpTo(p, n + 1, k + 1)
    ensures IsLongestBorder(p, n + 1, 0)
  {
    if IsBorder(p, n + 1, 1) { LastCharacter(p, n, 1); }
  }

  /** `strStr`: the first occurrence, or -1 exactly when there is none. */
  method StrStr(haystack: string, needle: string) returns (pos: int, ghost turns: nat)
    ensures if pos == -1 then forall s :: !OccursAt(haystack, needle, s)
            else OccursAt(haystack, needle, pos) && forall s :: 0 <= s < pos ==> !OccursAt(haystack, needle, s)
    ensures turns <= 2 * |haystack|
  {
    turns := 0;
    if |needle| == 0 || haystack == needle {
      assert haystack[0..0 + |needle|] == needle;
      return 0, 0;
    }
    var next, _ := GetNext(needle);
    pos := -1;
    var j, i := 0, 0;
    while i < |haystack|
      invariant 0 <= j <= i <= |haystack| && j < |needle|
      invariant needle[..j] == haystack[i - j..i]
      invariant forall s :: 0 <= s < i - j ==> !OccursAt(haystack, needle, s)
      invariant next.Length == |needle| && IsTable(needle, next[..], |needle|)
      invariant turns <= 2 * i - j && pos == -1
      decreases 2 * |haystack| - (2 * i - j)
    {
      turns := turns + 1;
      if haystack[i] == needle[j] {
        Extends(haystack, needle, i, j);
        j := j + 1;
        i := i + 1;
      } else if j > 0 {
        assert IsLongestBorder(needle, j, next[..][j - 1]);
        Shift(haystack, needle, i, j, next[j - 1]);
        j := next[j - 1];
      } else {
        NotHere(haystack, needle, i, 0);
        i := i + 1;
      }
      if |needle| == j {
        pos := i - |needle|;
        return;
      }
    }
  }

  lemma Extends(h: string, p: string, i: int, j: int)
    requires 0 <= j <= i < |h| && j < |p| && p[..j] == h[i - j..i] && h[i] == p[j]
    ensures p[..j + 1] == h[i - j..i + 1]
  {
    assert h[i - j..i + 1] == h[i - j..i] + [h[i]];
  }

  lemma MatchAt(h: string, p: string, s: int, k: int)
    requires OccursAt(h, p, s) && 0 <= k < |p|
    ensures h[s + k] == p[k]
  {
    assert h[s..s + |p|][k] == p[k];
  }

  /** A mismatch rules out the start it belongs to. */
  lemma NotHere(h: string, p: string, i: int, j: int)
    requires 0 <= j <= i < |h| && j < |p| && h[i] != p[j]
    ensures !OccursAt(h, p, i - j)
  {
    if OccursAt(h, p, i - j) { MatchAt(h, p, i - j, j); }
  }

  /** Between the old start and the new one nothing can match: it would be a longer border. */
  lemma Shift(h: string, p: string, i: int, j: int, k: int)
    requires 0 < j <= i < |h| && j < |p| && p[..j] == h[i - j..i] && h[i] != p[j] && IsLongestBorder(p, j, k)
    requires forall s :: 0 <= s < i - j ==> !OccursAt(h, p, s)
    ensures p[..k] == h[i - k..i] && forall s :: 0 <= s < i - k ==> !OccursAt(h, p, s)
  {
    assert p[j - k..j] == p[..j][j - k..] == h[i - j..i][j - k..] == h[i - k..i];
    NotHere(h, p, i, j);
    forall s | i - j < s < i - k ensures !OccursAt(h, p, s) {
      if OccursAt(h, p, s) { OverlapIsBorder(h, p, i, j, s); }
    }
  }

  /** An occurrence beginning inside the matched part makes what is left of that part a border. */
  lemma OverlapIsBorder(h: string, p: string, i: int, j: int, s: int)
    requires 0 < j <= i < |h| && j < |p| && p[..j] == h[i - j..i] && i - j < s < i && OccursAt(h, p, s)
    ensures IsBorder(p, j, i - s)
  {
    var b := i - s;
    assert p[..b] == h[s..s + |p|][..b] == h[s..i];
    assert p[j - b..j] == p[..j][j - b..] == h[i - j..i][j - b..] == h[s..i];
  }
}
