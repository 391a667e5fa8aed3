/** Chained hash table that doubles its bucket array (hash_table.c). The table refines a finite map for
    any hash function on keys; chains are lists, new entries at the front. */
module HashTable {
  import opened Common

  datatype Entry<K, V> = Entry(key: K, val: V)

  type Chain<K, V> = seq<Entry<K, V>>

  // ---- Slots ----

  /** Bitwise and of `bits` bits. */
  function AndBits(a: nat, b: nat, bits: nat): nat {
    if bits == 0 then 0 else (if a % 2 == 1 && b % 2 == 1 then 1 else 0) + 2 * AndBits(a / 2, b / 2, bits - 1)
  }

  /** Masking with a power of two less one is the remainder: why the size must be a power of two. */
  lemma {:induction false} MaskIsRemainder(h: nat, k: nat, bits: nat)
    requires k <= bits
    ensures AndBits(h, Pow2(k) - 1, bits) == h % Pow2(k)
  {
    if bits > 0 {
      if k > 0 {
        MaskIsRemainder(h / 2, k - 1, bits - 1);
        OneMoreBit(h, Pow2(k - 1), bits, Pow2(k));
      } else {
        AndZero(h, bits);
      }
    }
  }

  lemma OneMoreBit(h: nat, p: nat, bits: nat, q: nat)
    requires p > 0 && bits > 0 && AndBits(h / 2, p - 1, bits - 1) == h / 2 % p && q == 2 * p
    ensures AndBits(h, q - 1, bits) == h % q
  {
    LowOnes(p);
    HalfRemainder(h, p);
    assert AndBits(h, q - 1, bits) == (if h % 2 == 1 then 1 else 0) + 2 * AndBits(h / 2, (q - 1) / 2, bits - 1);
    hide AndBits;
  }

  lemma LowOnes(p: nat)
    requires p > 0
    ensures (2 * p - 1) / 2 == p - 1 && (2 * p - 1) % 2 == 1
  {
  }

  lemma {:induction false} AndZero(h: nat, bits: nat)
    ensures AndBits(h, 0, bits) == 0
  {
    if bits > 0 { AndZero(h / 2, bits - 1); }
  }

  lemma HalfRemainder(h: nat, m: nat)
    requires m > 0
    ensures h % (2 * m) == h % 2 + 2 * (h / 2 % m)
  {
    var q, r := h / 2 / m, h / 2 % m;
    assert h == 2 * (q * m + r) + h % 2 == q * (2 * m) + (2 * r + h % 2);
    Quotient(h, 2 * m, q, 2 * r + h % 2);
  }

  predicate IsSize(n: nat) {
    n == 0 || exists k :: 5 <= k <= 31 && n == Pow2(k)
  }

  /** `hash_(key) & (size_ - 1)`, both 32 bits wide. */
  function Slot(hash: nat, size: nat): (s: nat)
    requires size > 0
    ensures s < size
  {
    AndAtMost(hash, size - 1, 32);
    AndBits(hash, size - 1, 32)
  }

  lemma {:induction false} AndAtMost(a: nat, b: nat, bits: nat)
    ensures AndBits(a, b, bits) <= b
  {
    if bits > 0 { AndAtMost(a / 2, b / 2, bits - 1); }
  }

  lemma SlotIsRemainder(hash: nat, size: nat)
    requires size > 0 && IsSize(size)
    ensures Slot(hash, size) == hash % size
  {
    var k :| 5 <= k <= 31 && size == Pow2(k);
    MaskIsRemainder(hash, k, 32);
  }

  // ---- Tables and maps ----

  ghost predicate DistinctKeys<K, V>(c: Chain<K, V>) {
    forall i, j :: 0 <= i < j < |c| ==> c[i].key != c[j].key
  }

  /** An entry of bucket `i` is the map's entry for its key, and this is the key's bucket. */
  ghost predicate Placed<K(!new), V>(e: Entry<K, V>, i: nat, size: nat, hash: K -> nat, m: map<K, V>)
    requires size > 0
  {
    e.key in m && m[e.key] == e.val && Slot(hash(e.key), size) == i
  }

  /** The map's entry for a key is in the key's bucket. */
  ghost predicate Stored<K(!new), V>(k: K, t: seq<Chain<K, V>>, hash: K -> nat, m: map<K, V>)
    requires k in m && |t| > 0
  {
    Entry(k, m[k]) in t[Slot(hash(k), |t|)]
  }

  /** The buckets hold exactly the map. */
  ghost predicate Holds<K(!new), V>(t: seq<Chain<K, V>>, hash: K -> nat, m: map<K, V>)
    requires |t| > 0
  {
    && (forall i, e {:trigger Placed(e, i, |t|, hash, m)} :: 0 <= i < |t| && e in t[i] ==> Placed(e, i, |t|, hash, m))
    && (forall k {:trigger Stored(k, t, hash, m)} :: k in m ==> Stored(k, t, hash, m))
    && (forall i {:trigger DistinctKeys(t[i])} :: 0 <= i < |t| ==> DistinctKeys(t[i]))
  }

  lemma EmptyHolds<K(!new), V>(t: seq<Chain<K, V>>, hash: K -> nat)
    requires |t| > 0 && forall i :: 0 <= i < |t| ==> t[i] == []
    ensures Holds(t, hash, map[])
  {
  }

  /** A new key goes to the front of its chain. */
  lemma PrependHolds<K(!new), V>(t: seq<Chain<K, V>>, hash: K -> nat, m: map<K, V>, k: K, v: V)
    requires |t| > 0 && Holds(t, hash, m) && k !in m
    ensures var s := Slot(hash(k), |t|); Holds(t[s := [Entry(k, v)] + t[s]], hash, m[k := v])
  {
    var s := Slot(hash(k), |t|);
    var t', m' := t[s := [Entry(k, v)] + t[s]], m[k := v];
    forall i, e | 0 <= i < |t'| && e in t'[i] ensures Placed(e, i, |t'|, hash, m') {
      if e != Entry(k, v) || i != s { assert e in t[i] && Placed(e, i, |t|, hash, m); }
    }
    forall x | x in m' ensures Stored(x, t', hash, m') {
      if x != k { assert Stored(x, t, hash, m); }
    }
    forall i | 0 <= i < |t'| ensures DistinctKeys(t'[i]) {
      assert DistinctKeys(t[i]);
      if i == s {
        forall j | 0 <= j < |t[s]| ensures t[s][j].key != k {
          assert t[s][j] in t[s] && Placed(t[s][j], s, |t|, hash, m);
        }
      }
    }
  }

  /** A found entry gets a new value. */
  lemma OverwriteHolds<K(!new), V>(t: seq<Chain<K, V>>, hash: K -> nat, m: map<K, V>, k: K, v: V, n: nat)
    requires |t| > 0 && Holds(t, hash, m) && n < |t[Slot(hash(k), |t|)]| && t[Slot(hash(k), |t|)][n].key == k
    ensures var s := Slot(hash(k), |t|); k in m && Holds(t[s := t[s][n := Entry(k, v)]], hash, m[k := v])
  {
    var s := Slot(hash(k), |t|);
    var c := t[s];
    var t', m' := t[s := c[n := Entry(k, v)]], m[k := v];
    assert c[n] in c && Placed(c[n], s, |t|, hash, m) && DistinctKeys(c);
    forall i, e | 0 <= i < |t'| && e in t'[i] ensures Placed(e, i, |t'|, hash, m') {
      if i == s {
        var j :| 0 <= j < |c| && t'[i][j] == e;
        if j != n { assert e == c[j] && c[j] in c && Placed(e, s, |t|, hash, m) && e.key != k; }
      } else {
        assert Placed(e, i, |t|, hash, m);
      }
    }
    forall x | x in m' ensures Stored(x, t', hash, m') {
      OverwriteStored(t, hash, m, k, v, n, x);
    }
    forall i | 0 <= i < |t'| ensures DistinctKeys(t'[i]) {
      assert DistinctKeys(t[i]);
    }
  }

  lemma OverwriteStored<K(!new), V>(t: seq<Chain<K, V>>, hash: K -> nat, m: map<K, V>, k: K, v: V, n: nat, x: K)
    requires |t| > 0 && Holds(t, hash, m) && n < |t[Slot(hash(k), |t|)]| && t[Slot(hash(k), |t|)][n].key == k
    requires x in m[k := v]
    ensures var s := Slot(hash(k), |t|); Stored(x, t[s := t[s][n := Entry(k, v)]], hash, m[k := v])
  {
    var s := Slot(hash(k), |t|);
    var c' := t[s][n := Entry(k, v)];
    if x == k {
      assert c'[n] == Entry(k, v);
    } else {
      assert Stored(x, t, hash, m);
      var i := Slot(hash(x), |t|);
      var j :| 0 <= j < |t[i]| && t[i][j] == Entry(x, m[x]);
      if i == s { assert j != n && c'[j] == t[i][j]; }
    }
  }

  /** A found entry is unlinked. */
  lemma UnlinkHolds<K(!new), V>(t: seq<Chain<K, V>>, hash: K -> nat, m: map<K, V>, k: K, n: nat)
    requires |t| > 0 && Holds(t, hash, m) && n < |t[Slot(hash(k), |t|)]| && t[Slot(hash(k), |t|)][n].key == k
    ensures var s := Slot(hash(k), |t|); k in m && Holds(t[s := t[s][..n] + t[s][n + 1..]], hash, m - {k})
  {
    var s := Slot(hash(k), |t|);
    var c := t[s];
    var c', m' := c[..n] + c[n + 1..], m - {k};
    var t' := t[s := c'];
    assert c[n] in c && Placed(c[n], s, |t|, hash, m) && DistinctKeys(c);
    forall i, e | 0 <= i < |t'| && e in t'[i] ensures Placed(e, i, |t'|, hash, m') {
      assert e in t[i] && Placed(e, i, |t|, hash, m);
      if i == s {
        var j :| 0 <= j < |c'| && c'[j] == e;
        assert e == c[if j < n then j else j + 1];
      } else {
        assert Placed(e, i, |t|, hash, m);
      }
    }
    forall x | x in m' ensures Stored(x, t', hash, m') {
      assert Stored(x, t, hash, m);
      var i := Slot(hash(x), |t|);
      if i == s {
        var j :| 0 <= j < |c| && c[j] == Entry(x, m[x]);
        assert c'[if j < n then j else j - 1] == c[j];
      }
    }
    forall i | 0 <= i < |t'| ensures DistinctKeys(t'[i]) {
      assert DistinctKeys(t[i]);
    }
  }

  // ---- All entries ----

  ghost function All<K, V>(t: seq<Chain<K, V>>): Chain<K, V> {
    if t == [] then [] else All(t[..|t| - 1]) + t[|t| - 1]
  }

  ghost function MapOf<K, V>(es: Chain<K, V>): map<K, V> {
    if es == [] then map[] else MapOf(es[..|es| - 1])[es[|es| - 1].key := es[|es| - 1].val]
  }

  lemma AllSnoc<K, V>(t: seq<Chain<K, V>>, n: nat)
    requires n < |t|
    ensures All(t[..n + 1]) == All(t[..n]) + t[n]
  {
    assert t[..n + 1][..n] == t[..n];
  }

  lemma MapSnoc<K, V>(es: Chain<K, V>, e: Entry<K, V>)
    ensures MapOf(es + [e]) == MapOf(es)[e.key := e.val]
  {
    assert (es + [e])[..|es|] == es;
  }

  lemma {:induction false} AllMember<K, V>(t: seq<Chain<K, V>>, e: Entry<K, V>)
    ensures e in All(t) <==> exists i :: 0 <= i < |t| && e in t[i]
  {
    if t != [] {
      var n := |t| - 1;
      AllMember(t[..n], e);
      assert forall i :: 0 <= i < n ==> t[..n][i] == t[i];
      if e in All(t[..n]) { var i :| 0 <= i < n && e in t[..n][i]; assert e in t[i]; }
    }
  }

  /** No key twice in the buckets read so far. */
  lemma {:induction false} AllDistinct<K(!new), V>(t: seq<Chain<K, V>>, hash: K -> nat, m: map<K, V>, n: nat)
    requires |t| > 0 && Holds(t, hash, m) && n <= |t|
    ensures DistinctKeys(All(t[..n]))
  {
    if n > 0 {
      AllDistinct(t, hash, m, n - 1);
      AllSnoc(t, n - 1);
      var a, c := All(t[..n - 1]), t[n - 1];
      assert DistinctKeys(c);
      forall i, j | 0 <= i < |a| && 0 <= j < |c| ensures a[i].key != c[j].key {
        assert a[i] in a && c[j] in c;
        AllMember(t[..n - 1], a[i]);
        var b :| 0 <= b < n - 1 && a[i] in t[..n - 1][b];
        assert Placed(a[i], b, |t|, hash, m) && Placed(c[j], n - 1, |t|, hash, m);
      }
    }
  }

  /** A list without repeated keys spells out its map, entry for entry. */
  lemma {:induction false} MapOfDistinct<K(!new), V>(es: Chain<K, V>)
    requires DistinctKeys(es)
    ensures |MapOf(es)| == |es|
    ensures forall i :: 0 <= i < |es| ==> es[i].key in MapOf(es) && MapOf(es)[es[i].key] == es[i].val
    ensures forall k :: k in MapOf(es) ==> exists i :: 0 <= i < |es| && es[i].key == k
  {
    if es != [] {
      var n := |es| - 1;
      var init, last := es[..n], es[n];
      assert MapOf(es) == MapOf(init)[last.key := last.val];
      assert forall i :: 0 <= i < n ==> init[i] == es[i];
      hide MapOf;
      MapOfDistinct(init);
      assert forall i :: 0 <= i < n ==> init[i].key != last.key;
      forall k | k in MapOf(es) ensures exists i :: 0 <= i < |es| && es[i].key == k {
        if k == last.key {
          assert es[n].key == k;
        } else {
          var i :| 0 <= i < n && init[i].key == k;
          assert es[i].key == k;
        }
      }
    }
  }

  /** The entries of a table are its map: as many, each key once. */
  lemma AllIsMap<K(!new), V>(t: seq<Chain<K, V>>, hash: K -> nat, m: map<K, V>)
    requires |t| > 0 && Holds(t, hash, m)
    ensures DistinctKeys(All(t)) && MapOf(All(t)) == m && |All(t)| == |m|
  {
    assert t[..|t|] == t;
    AllDistinct(t, hash, m, |t|);
    var es := All(t);
    MapOfDistinct(es);
    forall k | k in m ensures k in MapOf(es) {
      assert Stored(k, t, hash, m);
      AllMember(t, Entry(k, m[k]));
      assert Entry(k, m[k]) in es;
    }
    forall k | k in MapOf(es) ensures k in m && MapOf(es)[k] == m[k] {
      var i :| 0 <= i < |es| && es[i].key == k;
      AllMember(t, es[i]);
      var b :| 0 <= b < |t| && es[i] in t[b];
      assert Placed(es[i], b, |t|, hash, m);
    }
    assert MapOf(es) == m;
  }

  lemma KeyStored<K(!new), V>(t: seq<Chain<K, V>>, hash: K -> nat, m: map<K, V>, k: K)
    requires |t| > 0 && Holds(t, hash, m) && k in m
    ensures var s := Slot(hash(k), |t|); exists j :: 0 <= j < |t[s]| && t[s][j].key == k
  {
    assert Stored(k, t, hash, m);
    var s := Slot(hash(k), |t|);
    var j :| 0 <= j < |t[s]| && t[s][j] == Entry(k, m[k]);
    assert t[s][j].key == k;
  }

  // ---- The table ----

  class Table<K(==,!new), V> {
    const hash: K -> nat
    var table: seq<Chain<K, V>>
    var use: nat
    ghost var contents: map<K, V>

    /** Sizes are powers of two, `use` counts the entries, and the load stays below three quarters, the
        entry put in last not counted. */
    ghost predicate Valid()
      reads this
    {
      && IsSize(|table|) && use == |contents|
      && (|table| == 0 ==> contents == map[])
      && (|table| > 0 ==> Holds(table, hash, contents) && 4 * (use - 1) < 3 * |table|)
    }

    constructor (hash: K -> nat)
      ensures Valid() && contents == map[] && this.hash == hash
    {
      this.hash := hash;
      table, use, contents := [], 0, map[];
    }

    /** `hash_table_find`: the bucket and the place in its chain. */
    method Find(key: K) returns (found: bool, s: nat, n: nat)
      requires Valid()
      ensures found <==> key in contents
      ensures found ==> |table| > 0 && s == Slot(hash(key), |table|)
      ensures found ==> n < |table[s]| && table[s][n] == Entry(key, contents[key])
    {
      found, s, n := false, 0, 0;
      if |table| == 0 { return; }
      s := Slot(hash(key), |table|);
      while n < |table[s]|
        invariant n <= |table[s]| && forall j :: 0 <= j < n ==> table[s][j].key != key
      {
        if table[s][n].key == key {
          assert table[s][n] in table[s] && Placed(table[s][n], s, |table|, hash, contents);
          found := true;
          return;
        }
        n := n + 1;
      }
      if key in contents { KeyStored(table, hash, contents, key); }
    }

    /** `hash_table_insert`. */
    method Insert(key: K, val: V)
      requires Valid() && |contents| < 0x6000_0000
      modifies this
      ensures Valid() && contents == old(contents)[key := val]
    {
      hide Holds, IsSize;
      var found, s, n := Find(key);
      if found {
        OverwriteHolds(table, hash, contents, key, val, n);
        table := table[s := table[s][n := Entry(key, val)]];
        contents := contents[key := val];
        return;
      }
      GrowUp();
      s := Slot(hash(key), |table|);
      PrependHolds(table, hash, contents, key, val);
      table := table[s := [Entry(key, val)] + table[s]];
      contents := contents[key := val];
      use := use + 1;
    }

    /** `hash_table_growup`: every entry is linked into the bucket it has in the larger table. */
    method GrowUp()
      requires Valid() && |contents| < 0x6000_0000
      modifies `table
      ensures |table| > 0 && IsSize(|table|) && Holds(table, hash, contents) && 4 * use < 3 * |table|
    {
      var capacity;
      if |table| == 0 {
        capacity := 32;
        assert Pow2(5) == 32;
      } else if 4 * use >= 3 * |table| {
        capacity := |table| * 2;
        DoubleSize(|table|, use);
      } else {
        return;
      }
      hide IsSize;
      Move(capacity);
    }

    method Move(capacity: nat)
      requires capacity > 0 && (|table| == 0 ==> contents == map[]) && (|table| > 0 ==> Holds(table, hash, contents))
      modifies `table
      ensures |table| == capacity && Holds(table, hash, contents)
    {
      var newTable: seq<Chain<K, V>> := seq(capacity, _ => []);
      EmptyHolds(newTable, hash);
      ghost var t := table;
      AllIsContents();
      NothingMapped<K, V>();
      hide Holds, MapOf, All, DistinctKeys;
      var idx := 0;
      assert t[..0] == [];
      while idx < |table|
        invariant idx <= |table| && |newTable| == capacity && table == t
        invariant Holds(newTable, hash, MapOf(All(t[..idx])))
      {
        newTable := MoveChain(newTable, idx, capacity);
        idx := idx + 1;
      }
      assert t[..idx] == t;
      table := newTable;
    }

    lemma AllIsContents()
      requires (|table| == 0 ==> contents == map[]) && (|table| > 0 ==> Holds(table, hash, contents))
      ensures DistinctKeys(All(table)) && MapOf(All(table)) == contents
    {
      if |table| > 0 { AllIsMap(table, hash, contents); }
    }

    /** The inner loop: one chain, from its head. */
    method MoveChain(oldTable: seq<Chain<K, V>>, idx: nat, capacity: nat) returns (newTable: seq<Chain<K, V>>)
      requires capacity > 0 && idx < |table| && |oldTable| == capacity && DistinctKeys(All(table))
      requires Holds(oldTable, hash, MapOf(All(table[..idx])))
      ensures |newTable| == capacity && Holds(newTable, hash, MapOf(All(table[..idx + 1])))
    {
      hide Holds, MapOf, All, DistinctKeys;
      newTable := oldTable;
      var chain := table[idx];
      ghost var before := All(table[..idx]);
      var n := 0;
      assert before + chain[..0] == before;
      while n < |chain|
        invariant n <= |chain| && |newTable| == capacity
        invariant Holds(newTable, hash, MapOf(before + chain[..n]))
      {
        var et := chain[n];
        NotYetMoved(table, idx, n);
        var s := Slot(hash(et.key), capacity);
        PrependHolds(newTable, hash, MapOf(before + chain[..n]), et.key, et.val);
        assert before + chain[..n + 1] == before + chain[..n] + [et];
        MapSnoc(before + chain[..n], et);
        assert et == Entry(et.key, et.val);
        newTable := newTable[s := [et] + newTable[s]];
        n := n + 1;
      }
      assert chain[..n] == chain;
      AllSnoc(table, idx);
    }

    /** `hash_table_del`; on a table that never held anything the source would fail. */
    method Del(key: K)
      requires Valid() && |table| > 0
      modifies this
      ensures Valid() && contents == old(contents) - {key}
    {
      hide Holds, IsSize;
      var found, s, n := Find(key);
      if !found {
        assert contents - {key} == contents;
        return;
      }
      UnlinkHolds(table, hash, contents, key, n);
      table := table[s := table[s][..n] + table[s][n + 1..]];
      contents := contents - {key};
      use := use - 1;
    }
  }

  lemma NothingMapped<K, V>()
    ensures MapOf<K, V>(All([])) == map[]
  {
  }

  lemma DoubleSize(size: nat, use: nat)
    requires IsSize(size) && size > 0 && 4 * use >= 3 * size && use < 0x6000_0000 && 4 * (use - 1) < 3 * size
    ensures IsSize(size * 2) && 4 * use < 3 * (size * 2)
  {
    var k :| 5 <= k <= 31 && size == Pow2(k);
    if k == 31 { Pow2Of31(); }
    assert Pow2(k + 1) == size * 2;
    Pow2AtLeast(k);
  }

  lemma Pow2Of31()
    ensures Pow2(31) == 0x8000_0000
  {
    assert Pow2(8) == 256;
    assert Pow2(16) == 65536;
    assert Pow2(24) == 0x100_0000;
  }

  lemma Pow2AtLeast(k: nat)
    requires k >= 5
    ensures Pow2(k) >= 32
  {
    if k > 5 { Pow2AtLeast(k - 1); }
  }

  /** The next entry's key has not been moved. */
  lemma NotYetMoved<K(!new), V>(t: seq<Chain<K, V>>, idx: nat, n: nat)
    requires idx < |t| && n < |t[idx]| && DistinctKeys(All(t))
    ensures t[idx][n].key !in MapOf(All(t[..idx]) + t[idx][..n])
  {
    var a, c := All(t[..idx]), t[idx];
    AllPrefix(t, idx + 1);
    AllSnoc(t, idx);
    var es := a + c[..n];
    assert DistinctKeys(a + c);
    assert forall i :: 0 <= i < |es| ==> es[i] == (a + c)[i];
    assert (a + c)[|es|] == c[n];
    MapOfDistinct(es);
  }

  lemma {:induction false} AllPrefix<K, V>(t: seq<Chain<K, V>>, n: nat)
    requires n <= |t|
    ensures All(t[..n]) <= All(t)
    decreases |t| - n
  {
    if n == |t| {
      assert t[..n] == t;
    } else {
      AllPrefix(t, n + 1);
      AllSnoc(t, n);
    }
  }

  // ---- Iteration ----

  /** A walk over a table that is not changed meanwhile. */
  class Iterator<K(==,!new), V> {
    const table: Table<K, V>
    var index: int               // -1 before the first step
    var place: Option<nat>       // the current entry's place in its chain

    constructor (table: Table<K, V>)
      ensures this.table == table && index == -1 && place == None
    {
      this.table := table;
      index, place := -1, None;
    }

    /** How many entries have been returned. */
    ghost function Visited(): nat
      reads this, table
      requires -1 <= index && (place.Some? ==> index >= 0)
    {
      if index >= |table.table| then |All(table.table)|
      else if place.Some? then |All(table.table[..index])| + place.value + 1
      else |All(table.table[..index + 1])|
    }

    ghost predicate Valid()
      reads this, table
    {
      -1 <= index && (place.Some? ==> 0 <= index < |table.table| && place.value < |table.table[index]|)
    }

    /** `hash_table_next`: the entries of all buckets, in order, each once, and then nothing more. */
    method Next() returns (entry: Option<Entry<K, V>>)
      requires Valid()
      modifies this
      ensures Valid()
      ensures var all := All(table.table);
        if old(Visited()) < |all| then entry == Some(all[old(Visited())]) && Visited() == old(Visited()) + 1
        else entry == None && Visited() == old(Visited())
    {
      hide All;
      ghost var visited := Visited();
      while true
        invariant Valid() && Visited() == visited
        decreases |table.table| - index, if place.Some? then 1 else 0
      {
        if place.None? {
          index := index + 1;
          if index >= |table.table| {
            Whole(table.table, index - 1);
            return None;
          }
          place := if |table.table[index]| > 0 then Some(0) else None;
        } else {
          place := if place.value + 1 < |table.table[index]| then Some(place.value + 1) else None;
        }
        AllSnoc(table.table, index);
        if place.Some? {
          EntryAt(table.table, index, place.value);
          return Some(table.table[index][place.value]);
        }
      }
      entry := None;
    }
  }

  lemma Whole<K, V>(t: seq<Chain<K, V>>, index: int)
    requires -1 <= index && index + 1 >= |t|
    ensures index + 1 == |t| ==> All(t[..index + 1]) == All(t)
  {
    if index + 1 == |t| { assert t[..index + 1] == t; }
  }

  lemma EntryAt<K, V>(t: seq<Chain<K, V>>, i: nat, p: nat)
    requires i < |t| && p < |t[i]|
    ensures |All(t[..i])| + p < |All(t)| && All(t)[|All(t[..i])| + p] == t[i][p]
  {
    AllPrefix(t, i + 1);
    AllSnoc(t, i);
    hide All;
    var a := All(t[..i]);
    assert (a + t[i])[|a| + p] == t[i][p];
  }
}
