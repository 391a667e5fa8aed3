/** Lists of key-value pairs with ascending keys: what an in-order walk of a search tree yields.
    `Put` and `Without` say what inserting and deleting a key mean, on the list and on the map. */
module SortedEntries {

  type Entry<V> = (int, V)

  /** Strictly ascending keys. */
  ghost predicate Sorted<V>(s: seq<Entry<V>>) {
    forall i, j :: 0 <= i < j < |s| ==> s[i].0 < s[j].0
  }

  ghost predicate Below<V>(s: seq<Entry<V>>, k: int) {
    forall i :: 0 <= i < |s| ==> s[i].0 < k
  }

  ghost predicate Above<V>(s: seq<Entry<V>>, k: int) {
    forall i :: 0 <= i < |s| ==> k < s[i].0
  }

  ghost function ToMap<V>(s: seq<Entry<V>>): map<int, V> {
    if s == [] then map[] else map[s[0].0 := s[0].1] + ToMap(s[1..])
  }

  lemma AddRegroup<V>(a: map<int, V>, b: map<int, V>, c: map<int, V>)
    ensures a + (b + c) == a + b + c
  {
  }

  lemma {:induction false} ToMapConcat<V>(a: seq<Entry<V>>, b: seq<Entry<V>>)
    ensures ToMap(a + b) == ToMap(a) + ToMap(b)
  {
    if a == [] {
      assert a + b == b;
    } else {
      var m := map[a[0].0 := a[0].1];
      assert (a + b)[1..] == a[1..] + b && (a + b)[0] == a[0];
      assert ToMap(a + b) == m + ToMap(a[1..] + b) && ToMap(a) == m + ToMap(a[1..]);
      hide ToMap;
      ToMapConcat(a[1..], b);
      AddRegroup(m, ToMap(a[1..]), ToMap(b));
    }
  }

  lemma {:induction false} ToMapKeys<V>(s: seq<Entry<V>>, k: int)
    ensures k in ToMap(s) <==> exists i :: 0 <= i < |s| && s[i].0 == k
  {
    if s != [] {
      ToMapKeys(s[1..], k);
      if i :| 0 <= i < |s| && s[i].0 == k { assert i > 0 ==> s[1..][i - 1].0 == k; }
      if i :| 0 <= i < |s[1..]| && s[1..][i].0 == k { assert s[i + 1].0 == k; }
    }
  }

  lemma SortedParts<V>(a: seq<Entry<V>>, x: Entry<V>, b: seq<Entry<V>>)
    ensures Sorted(a + [x] + b) <==> Sorted(a) && Sorted(b) && Below(a, x.0) && Above(b, x.0)
  {
    var s := a + [x] + b;
    if Sorted(s) {
      forall i | 0 <= i < |a| ensures a[i].0 < x.0 { assert s[i].0 < s[|a|].0; }
      forall i | 0 <= i < |b| ensures x.0 < b[i].0 { assert s[|a|].0 < s[|a| + 1 + i].0; }
      forall i, j | 0 <= i < j < |a| ensures a[i].0 < a[j].0 { assert s[i].0 < s[j].0; }
      forall i, j | 0 <= i < j < |b| ensures b[i].0 < b[j].0 { assert s[|a| + 1 + i].0 < s[|a| + 1 + j].0; }
    }
  }

  lemma SortedPrefix<V>(s: seq<Entry<V>>, n: nat)
    requires Sorted(s) && n <= |s|
    ensures Sorted(s[..n])
  {
  }

  lemma SortedSuffix<V>(s: seq<Entry<V>>, n: nat)
    requires Sorted(s) && n <= |s|
    ensures Sorted(s[n..])
  {
  }

  /** Setting one key in the middle of a sorted list. */
  ghost function Put<V>(s: seq<Entry<V>>, k: int, v: V): seq<Entry<V>> {
    if s == [] then [(k, v)]
    else if s[0].0 < k then [s[0]] + Put(s[1..], k, v)
    else if s[0].0 == k then [(k, v)] + s[1..]
    else [(k, v)] + s
  }

  ghost function Without<V>(s: seq<Entry<V>>, k: int): seq<Entry<V>> {
    if s == [] then [] else if s[0].0 == k then s[1..] else [s[0]] + Without(s[1..], k)
  }

  lemma Regroup<V>(a: seq<Entry<V>>, b: seq<Entry<V>>, c: seq<Entry<V>>)
    ensures a + (b + c) == a + b + c
  {
  }

  lemma {:induction false} PutRight<V>(a: seq<Entry<V>>, b: seq<Entry<V>>, k: int, v: V)
    requires Below(a, k)
    ensures Put(a + b, k, v) == a + Put(b, k, v)
  {
    if a == [] {
      assert a + b == b;
    } else {
      PutRight(a[1..], b, k, v);
      assert (a + b)[1..] == a[1..] + b && (a + b)[0] == a[0];
    }
  }

  lemma {:induction false} PutLeft<V>(a: seq<Entry<V>>, b: seq<Entry<V>>, k: int, v: V)
    requires b != [] && k < b[0].0
    ensures Put(a + b, k, v) == Put(a, k, v) + b
  {
    if a == [] {
      assert a + b == b;
    } else {
      var rest := a[1..];
      assert (a + b)[1..] == rest + b && (a + b)[0] == a[0];
      Regroup([a[0]], Put(rest, k, v), b);
      Regroup([(k, v)], a, b);
      Regroup([(k, v)], rest, b);
      PutLeft(rest, b, k, v);
    }
  }

  lemma {:induction false} WithoutRight<V>(a: seq<Entry<V>>, b: seq<Entry<V>>, k: int)
    requires Below(a, k)
    ensures Without(a + b, k) == a + Without(b, k)
  {
    if a == [] {
      assert a + b == b;
    } else {
      WithoutRight(a[1..], b, k);
      assert (a + b)[1..] == a[1..] + b && (a + b)[0] == a[0];
    }
  }

  lemma {:induction false} WithoutLeft<V>(a: seq<Entry<V>>, b: seq<Entry<V>>, k: int)
    requires Above(b, k)
    ensures Without(a + b, k) == Without(a, k) + b
  {
    if a == [] {
      assert a + b == b;
      WithoutAbsent(b, k);
    } else {
      var rest := a[1..];
      assert (a + b)[1..] == rest + b && (a + b)[0] == a[0];
      Regroup([a[0]], Without(rest, k), b);
      hide Above;
      WithoutLeft(rest, b, k);
    }
  }

  lemma {:induction false} WithoutAbsent<V>(s: seq<Entry<V>>, k: int)
    requires Above(s, k)
    ensures Without(s, k) == s
  {
    if s != [] { WithoutAbsent(s[1..], k); }
  }

  /** Where `Put` acts when the list is seen as left part, middle entry, right part. */
  lemma PutInThree<V>(a: seq<Entry<V>>, x: Entry<V>, b: seq<Entry<V>>, k: int, v: V)
    requires Sorted(a + [x] + b)
    ensures Sorted(a) && Sorted(b)
    ensures k == x.0 ==> Put(a + [x] + b, k, v) == a + [(k, v)] + b
    ensures k > x.0 ==> Put(a + [x] + b, k, v) == a + [x] + Put(b, k, v)
    ensures k < x.0 ==> Put(a + [x] + b, k, v) == Put(a, k, v) + [x] + b
  {
    SortedParts(a, x, b);
    assert a + [x] + b == a + ([x] + b);
    if k == x.0 {
      PutRight(a, [x] + b, k, v);
      assert ([x] + b)[1..] == b;
    } else if k > x.0 {
      PutRight(a + [x], b, k, v);
    } else {
      PutLeft(a, [x] + b, k, v);
      assert Put(a, k, v) + ([x] + b) == Put(a, k, v) + [x] + b;
    }
  }

  lemma WithoutInThree<V>(a: seq<Entry<V>>, x: Entry<V>, b: seq<Entry<V>>, k: int)
    requires Sorted(a + [x] + b)
    ensures Sorted(a) && Sorted(b)
    ensures k == x.0 ==> Without(a + [x] + b, k) == a + b
    ensures k > x.0 ==> Without(a + [x] + b, k) == a + [x] + Without(b, k)
    ensures k < x.0 ==> Without(a + [x] + b, k) == Without(a, k) + [x] + b
  {
    SortedParts(a, x, b);
    assert a + [x] + b == a + ([x] + b);
    if k == x.0 {
      WithoutRight(a, [x] + b, k);
      assert ([x] + b)[1..] == b;
    } else if k > x.0 {
      WithoutRight(a + [x], b, k);
    } else {
      WithoutLeft(a, [x] + b, k);
      assert Without(a, k) + ([x] + b) == Without(a, k) + [x] + b;
    }
  }

  /** A key larger than all may stand in for the last entry, and taking it away leaves the rest. */
  lemma ReplacedLast<V>(a: seq<Entry<V>>, x: Entry<V>)
    requires Sorted(a) && a != [] && Below(a, x.0)
    ensures Sorted(a[|a| - 1 := x]) && Without(a[|a| - 1 := x], x.0) == a[..|a| - 1]
  {
    var n := |a| - 1;
    assert a[n := x] == a[..n] + [x] + [];
    SortedPrefix(a, n);
    SortedParts(a[..n], x, []);
    WithoutInThree(a[..n], x, [], x.0);
  }

  lemma ReplacedFirst<V>(b: seq<Entry<V>>, x: Entry<V>)
    requires Sorted(b) && b != [] && Above(b, x.0)
    ensures Sorted(b[0 := x]) && Without(b[0 := x], x.0) == b[1..]
  {
    assert b[0 := x] == [] + [x] + b[1..];
    SortedSuffix(b, 1);
    SortedParts([], x, b[1..]);
    WithoutInThree([], x, b[1..], x.0);
  }

  lemma {:induction false} PutSorted<V>(s: seq<Entry<V>>, k: int, v: V)
    requires Sorted(s)
    ensures Sorted(Put(s, k, v))
    ensures forall lo :: Above(s, lo) && lo < k ==> Above(Put(s, k, v), lo)
  {
    if s != [] && s[0].0 < k {
      PutSorted(s[1..], k, v);
      assert Above(s[1..], s[0].0);
    }
  }

  lemma ToMapCons<V>(e: Entry<V>, s: seq<Entry<V>>)
    ensures ToMap([e] + s) == map[e.0 := e.1] + ToMap(s)
  {
    assert ([e] + s)[1..] == s;
  }

  /** A key not above the least one is none of the others. */
  lemma LeastIsNew<V>(s: seq<Entry<V>>, k: int)
    requires Sorted(s) && s != [] && k <= s[0].0
    ensures k !in ToMap(s[1..]) && (k < s[0].0 ==> k !in ToMap(s))
  {
    ToMapKeys(s[1..], k);
    ToMapKeys(s, k);
  }

  lemma SetNew<V>(m: map<int, V>, k: int, v: V)
    requires k !in m
    ensures map[k := v] + m == m[k := v]
  {
  }

  lemma SetBehind<V>(e: Entry<V>, m: map<int, V>, k: int, v: V)
    requires e.0 != k
    ensures map[e.0 := e.1] + m[k := v] == (map[e.0 := e.1] + m)[k := v]
  {
  }

  lemma SetFront<V>(e: Entry<V>, m: map<int, V>, v: V)
    requires e.0 !in m
    ensures map[e.0 := v] + m == (map[e.0 := e.1] + m)[e.0 := v]
  {
  }

  lemma {:induction false} PutMap<V>(s: seq<Entry<V>>, k: int, v: V)
    requires Sorted(s)
    ensures ToMap(Put(s, k, v)) == ToMap(s)[k := v]
  {
    if s == [] {
      assert ToMap([(k, v)]) == map[k := v] + ToMap([(k, v)][1..]);
    } else {
      var e, rest := s[0], s[1..];
      assert s == [e] + rest;
      SortedSuffix(s, 1);
      ToMapCons(e, rest);
      if e.0 < k {
        PutMap(rest, k, v);
        hide Sorted, ToMap;
        ToMapCons(e, Put(rest, k, v));
        SetBehind(e, ToMap(rest), k, v);
      } else {
        LeastIsNew(s, k);
        hide Sorted, ToMap;
        if e.0 == k {
          ToMapCons((k, v), rest);
          SetFront(e, ToMap(rest), v);
        } else {
          ToMapCons((k, v), s);
          SetNew(ToMap(s), k, v);
        }
      }
    }
  }

  lemma {:induction false} PutLength<V>(s: seq<Entry<V>>, k: int, v: V)
    requires Sorted(s)
    ensures |Put(s, k, v)| == |s| + if k in ToMap(s) then 0 else 1
  {
    if s != [] {
      SortedSuffix(s, 1);
      ToMapCons(s[0], s[1..]);
      assert s == [s[0]] + s[1..];
      if s[0].0 < k { PutLength(s[1..], k, v); } else { LeastIsNew(s, k); }
    }
  }

  /** `Put` is a map update that keeps the list sorted. */
  lemma PutMeaning<V>(s: seq<Entry<V>>, k: int, v: V)
    requires Sorted(s)
    ensures Sorted(Put(s, k, v)) && ToMap(Put(s, k, v)) == ToMap(s)[k := v]
    ensures |Put(s, k, v)| == |s| + if k in ToMap(s) then 0 else 1
  {
    PutSorted(s, k, v);
    PutMap(s, k, v);
    PutLength(s, k, v);
  }

  lemma {:induction false} WithoutSorted<V>(s: seq<Entry<V>>, k: int)
    requires Sorted(s)
    ensures Sorted(Without(s, k))
    ensures forall lo :: Above(s, lo) ==> Above(Without(s, k), lo)
  {
    if s != [] {
      SortedSuffix(s, 1);
      WithoutSorted(s[1..], k);
      assert Above(s[1..], s[0].0);
    }
  }

  lemma TakeBehind<V>(e: Entry<V>, m: map<int, V>, k: int)
    requires e.0 != k
    ensures map[e.0 := e.1] + (m - {k}) == (map[e.0 := e.1] + m) - {k}
  {
  }

  lemma TakeFront<V>(e: Entry<V>, m: map<int, V>)
    requires e.0 !in m
    ensures m == (map[e.0 := e.1] + m) - {e.0}
  {
  }

  lemma {:induction false} WithoutMap<V>(s: seq<Entry<V>>, k: int)
    requires Sorted(s)
    ensures ToMap(Without(s, k)) == ToMap(s) - {k}
    ensures |Without(s, k)| == |s| - if k in ToMap(s) then 1 else 0
  {
    if s != [] {
      var e, rest := s[0], s[1..];
      assert s == [e] + rest;
      SortedSuffix(s, 1);
      ToMapCons(e, rest);
      if e.0 == k {
        LeastIsNew(s, k);
        hide Sorted, ToMap;
        TakeFront(e, ToMap(rest));
      } else {
        WithoutMap(rest, k);
        hide Sorted, ToMap;
        ToMapCons(e, Without(rest, k));
        TakeBehind(e, ToMap(rest), k);
      }
    }
  }

  /** `Without` takes exactly the key away. */
  lemma WithoutMeaning<V>(s: seq<Entry<V>>, k: int)
    requires Sorted(s)
    ensures Sorted(Without(s, k)) && ToMap(Without(s, k)) == ToMap(s) - {k}
    ensures forall lo :: Above(s, lo) ==> Above(Without(s, k), lo)
    ensures |Without(s, k)| == |s| - if k in ToMap(s) then 1 else 0
  {
    WithoutSorted(s, k);
    WithoutMap(s, k);
  }
}
