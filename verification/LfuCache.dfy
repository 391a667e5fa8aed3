/** Cache that evicts the least frequently used key, the oldest among equals (LFU_Cache.h). The
    specification is a map with a use count and a last-touch time per key; the class keeps a list of
    keys per frequency and the smallest frequency, and is proved to behave the same on every run. */
module LfuCache {
  import opened Common

  // ---- Specification ----

  /** `last` is the time of the last touch: touches are numbered through. */
  datatype Use<V> = Use(count: nat, last: nat, val: V)

  type Uses<K, V> = map<K, Use<V>>

  /** Less often used, or as often but longer ago. */
  predicate Before<V>(a: Use<V>, b: Use<V>) {
    a.count < b.count || (a.count == b.count && a.last < b.last)
  }

  /** The key to evict. */
  ghost predicate IsVictim<K, V>(m: Uses<K, V>, k: K) {
    k in m && forall j :: j in m && j != k ==> Before(m[k], m[j])
  }

  lemma OneVictim<K, V>(m: Uses<K, V>, a: K, b: K)
    requires IsVictim(m, a) && IsVictim(m, b)
    ensures a == b
  {
  }

  ghost function Touched<K, V>(m: Uses<K, V>, key: K, val: V, now: nat): Uses<K, V> {
    m[key := Use(if key in m then m[key].count + 1 else 1, now, val)]
  }

  /** One `put` at time `now`. */
  ghost predicate Puts<K, V>(m: Uses<K, V>, capacity: nat, key: K, val: V, now: nat, m': Uses<K, V>) {
    if key in m || |m| < capacity then m' == Touched(m, key, val, now)
    else exists v :: v in m && IsVictim(m, v) && m' == Touched(m - {v}, key, val, now)
  }

  /** One `get`. */
  ghost predicate Gets<K, V>(m: Uses<K, V>, key: K, now: nat, m': Uses<K, V>) {
    m' == if key in m then Touched(m, key, m[key].val, now) else m
  }

  datatype Op<K, V> = DoPut(key: K, val: V) | DoGet(key: K)

  ghost predicate Acts<K, V>(m: Uses<K, V>, capacity: nat, op: Op<K, V>, now: nat, m': Uses<K, V>) {
    match op
    case DoPut(k, v) => Puts(m, capacity, k, v, now, m')
    case DoGet(k) => Gets(m, k, now, m')
  }

  /** A miss touches nothing. */
  ghost predicate Touches<K, V>(m: Uses<K, V>, op: Op<K, V>) {
    op.DoPut? || op.key in m
  }

  /** A history of the cache: its contents and the number of touches before each call. */
  ghost predicate IsHistory<K, V>(capacity: nat, ops: seq<Op<K, V>>, ms: seq<Uses<K, V>>, times: seq<nat>) {
    && |ms| == |times| == |ops| + 1 && ms[0] == map[] && times[0] == 0
    && forall i :: 0 <= i < |ops| ==>
      && Acts(ms[i], capacity, ops[i], times[i], ms[i + 1])
      && times[i + 1] == times[i] + if Touches(ms[i], ops[i]) then 1 else 0
  }

  /** The specification leaves no choice, the evicted key included: the calls decide what is cached. */
  lemma {:induction false} CallsDecide<K, V>(capacity: nat, ops: seq<Op<K, V>>, ms: seq<Uses<K, V>>, times: seq<nat>,
                                             ms': seq<Uses<K, V>>, times': seq<nat>, n: nat)
    requires IsHistory(capacity, ops, ms, times) && IsHistory(capacity, ops, ms', times') && n < |ms|
    ensures ms'[n] == ms[n] && times'[n] == times[n]
  {
    if n > 0 {
      CallsDecide(capacity, ops, ms, times, ms', times', n - 1);
      ActsOnce(ms[n - 1], capacity, ops[n - 1], times[n - 1], ms[n], ms'[n]);
    }
  }

  lemma ActsOnce<K, V>(m: Uses<K, V>, capacity: nat, op: Op<K, V>, now: nat, a: Uses<K, V>, b: Uses<K, V>)
    requires Acts(m, capacity, op, now, a) && Acts(m, capacity, op, now, b)
    ensures a == b
  {
    if op.DoPut? && op.key !in m && |m| >= capacity {
      var v :| v in m && IsVictim(m, v) && a == Touched(m - {v}, op.key, op.val, now);
      var w :| w in m && IsVictim(m, w) && b == Touched(m - {w}, op.key, op.val, now);
      OneVictim(m, v, w);
    }
  }

  // ---- What a cache holds, read off the calls ----

  /** How many calls from number `i` on, before number `n`, name the key. */
  function CallsOn<K(==), V>(ops: seq<Op<K, V>>, k: K, i: nat, n: nat): nat
    requires n <= |ops|
  {
    if n <= i then 0 else CallsOn(ops, k, i, n - 1) + if ops[n - 1].key == k then 1 else 0
  }

  /** The key came in with call `e` and has been there since; call `t` was the last one to name it. */
  ghost predicate Stays<K, V>(ops: seq<Op<K, V>>, ms: seq<Uses<K, V>>, n: nat, k: K, e: nat, t: nat)
    requires n <= |ops| < |ms|
  {
    && e <= t < n && ops[e].DoPut? && ops[e].key == ops[t].key == k && k !in ms[e]
    && (forall j :: e < j <= n ==> k in ms[j]) && forall i :: t < i < n ==> ops[i].key != k
  }

  /** A cached key's count is the number of calls that named it since it came in; its time, that of the
      last one. */
  lemma {:induction false} UsesCounted<K, V>(capacity: nat, ops: seq<Op<K, V>>, ms: seq<Uses<K, V>>, times: seq<nat>,
                                             n: nat, k: K)
    returns (e: nat, t: nat)
    requires IsHistory(capacity, ops, ms, times) && n < |ms| && k in ms[n]
    ensures Stays(ops, ms, n, k, e, t) && ms[n][k].count == CallsOn(ops, k, e, n) && ms[n][k].last == times[t]
  {
    var op, m := ops[n - 1], ms[n - 1];
    OneCall(m, capacity, op, times[n - 1], ms[n], k);
    if k in m {
      e, t := UsesCounted(capacity, ops, ms, times, n - 1, k);
      if op.key == k { t := n - 1; }
    } else {
      e, t := n - 1, n - 1;
      assert CallsOn(ops, k, n - 1, n - 1) == 0;
    }
  }

  lemma OneCall<K, V>(m: Uses<K, V>, capacity: nat, op: Op<K, V>, now: nat, m': Uses<K, V>, k: K)
    requires Acts(m, capacity, op, now, m') && k in m'
    ensures k in m && op.key != k ==> m'[k] == m[k]
    ensures k in m && op.key == k ==> m'[k].count == m[k].count + 1 && m'[k].last == now
    ensures k !in m ==> op.DoPut? && op.key == k && m'[k].count == 1 && m'[k].last == now
    ensures op.DoPut? && op.key == k ==> m'[k].val == op.val
    ensures !(op.DoPut? && op.key == k) ==> k in m && m'[k].val == m[k].val
  {
  }

  /** A cached key has the value it was last put with. */
  lemma {:induction false} ValueLastPut<K, V>(capacity: nat, ops: seq<Op<K, V>>, ms: seq<Uses<K, V>>, times: seq<nat>,
                                              n: nat, i: nat)
    requires IsHistory(capacity, ops, ms, times) && i < n < |ms| && ops[i].DoPut? && ops[i].key in ms[n]
    requires forall j :: i < j < n && ops[j].DoPut? ==> ops[j].key != ops[i].key
    ensures ms[n][ops[i].key].val == ops[i].val
  {
    OneCall(ms[n - 1], capacity, ops[n - 1], times[n - 1], ms[n], ops[i].key);
    if i < n - 1 { ValueLastPut(capacity, ops, ms, times, n - 1, i); }
  }

  /** A key leaves only a full cache, for a new one, and only if every other key was named more often since
      it came in, or as often and later. */
  lemma OnlyLeastLeaves<K, V>(capacity: nat, ops: seq<Op<K, V>>, ms: seq<Uses<K, V>>, times: seq<nat>, n: nat, k: K)
    requires IsHistory(capacity, ops, ms, times) && n < |ops| && k in ms[n] && k !in ms[n + 1]
    ensures ops[n].DoPut? && ops[n].key !in ms[n] && |ms[n]| >= capacity
    ensures forall j, ej, tj, ek, tk :: j != k && Stays(ops, ms, n, j, ej, tj) && Stays(ops, ms, n, k, ek, tk) ==>
      var a, b := CallsOn(ops, k, ek, n), CallsOn(ops, j, ej, n);
      a < b || (a == b && tk < tj)
  {
    forall j, ej, tj, ek, tk | j != k && Stays(ops, ms, n, j, ej, tj) && Stays(ops, ms, n, k, ek, tk)
      ensures var a, b := CallsOn(ops, k, ek, n), CallsOn(ops, j, ej, n);
        a < b || (a == b && tk < tj)
    {
      var ek', tk' := UsesCounted(capacity, ops, ms, times, n, k);
      var ej', tj' := UsesCounted(capacity, ops, ms, times, n, j);
      OneStay(ops, ms, n, k, ek, tk, ek', tk');
      OneStay(ops, ms, n, j, ej, tj, ej', tj');
      if tj <= tk { TimesAscend(capacity, ops, ms, times, tj, tk); }
      assert Before(ms[n][k], ms[n][j]);
    }
  }

  lemma OneStay<K, V>(ops: seq<Op<K, V>>, ms: seq<Uses<K, V>>, n: nat, k: K, e: nat, t: nat, e': nat, t': nat)
    requires n <= |ops| < |ms| && Stays(ops, ms, n, k, e, t) && Stays(ops, ms, n, k, e', t')
    ensures e == e' && t == t'
  {
  }

  lemma {:induction false} TimesAscend<K, V>(capacity: nat, ops: seq<Op<K, V>>, ms: seq<Uses<K, V>>, times: seq<nat>,
                                             i: nat, j: nat)
    requires IsHistory(capacity, ops, ms, times) && i <= j < |times|
    ensures times[i] <= times[j]
  {
    if i < j { TimesAscend(capacity, ops, ms, times, i, j - 1); }
  }

  ghost function KeysPut<K, V>(ops: seq<Op<K, V>>, n: nat): set<K>
    requires n <= |ops|
  {
    set i | 0 <= i < n && ops[i].DoPut? :: ops[i].key
  }

  /** The cache holds as many keys as it can of those that have been put. */
  lemma {:induction false} CachedCount<K, V>(capacity: nat, ops: seq<Op<K, V>>, ms: seq<Uses<K, V>>, times: seq<nat>,
                                             n: nat)
    requires capacity >= 1 && IsHistory(capacity, ops, ms, times) && n < |ms|
    ensures ms[n].Keys <= KeysPut(ops, n)
    ensures |ms[n]| == if |KeysPut(ops, n)| < capacity then |KeysPut(ops, n)| else capacity
  {
    if n > 0 {
      CachedCount(capacity, ops, ms, times, n - 1);
      var op, m, before := ops[n - 1], ms[n - 1], KeysPut(ops, n - 1);
      assert KeysPut(ops, n) == before + if op.DoPut? then {op.key} else {};
      KeysAfter(m, capacity, op, times[n - 1], ms[n]);
      hide KeysPut;
      SubsetSize(m.Keys, before);
    }
  }

  lemma KeysAfter<K, V>(m: Uses<K, V>, capacity: nat, op: Op<K, V>, now: nat, m': Uses<K, V>)
    requires capacity >= 1 && Acts(m, capacity, op, now, m') && |m| <= capacity
    ensures m'.Keys <= m.Keys + if op.DoPut? then {op.key} else {}
    ensures |m'| == if op.DoPut? && op.key !in m && |m| < capacity then |m| + 1 else |m|
  {
  }

  // ---- Lists ----

  /** A list cell; its iterator is a number, larger for cells made later. */
  datatype Cell<K> = Cell(it: nat, key: K)

  type List<K> = seq<Cell<K>>

  ghost predicate Ascending<K>(s: List<K>) {
    forall i, j :: 0 <= i < j < |s| ==> s[i].it < s[j].it
  }

  /** `list::erase` of the cell an iterator points to. */
  function Erase<K>(s: List<K>, it: nat): List<K> {
    if s == [] then [] else if s[0].it == it then s[1..] else [s[0]] + Erase(s[1..], it)
  }

  lemma {:induction false} ErasePicks<K>(s: List<K>, it: nat, c: Cell<K>)
    requires Ascending(s)
    ensures c in Erase(s, it) <==> c in s && c.it != it
  {
    if s != [] {
      ErasePicks(s[1..], it, c);
      assert c in s <==> c == s[0] || c in s[1..];
    }
  }

  lemma {:induction false} EraseAscending<K>(s: List<K>, it: nat)
    requires Ascending(s)
    ensures Ascending(Erase(s, it))
  {
    if s != [] && s[0].it != it {
      var rest := Erase(s[1..], it);
      EraseAscending(s[1..], it);
      forall j | 0 <= j < |rest| ensures s[0].it < rest[j].it {
        ErasePicks(s[1..], it, rest[j]);
      }
    }
  }

  // ---- Keys and lists ----

  datatype Node<V> = Node(freq: nat, it: nat, val: V)

  type Nodes<K, V> = map<K, Node<V>>
  type Lists<K> = map<nat, List<K>>

  /** `m_freq2Key[f]`. */
  function KeysOf<K>(lists: Lists<K>, f: nat): List<K> {
    if f in lists then lists[f] else []
  }

  /** A key is in the list of its frequency, by its own cell. */
  ghost predicate Listed<K, V>(nodes: Nodes<K, V>, lists: Lists<K>, next: nat, k: K)
    requires k in nodes
  {
    nodes[k].freq >= 1 && nodes[k].it < next && Cell(nodes[k].it, k) in KeysOf(lists, nodes[k].freq)
  }

  /** A cell of list `f` is the current cell of its key. */
  ghost predicate Current<K, V>(nodes: Nodes<K, V>, f: nat, c: Cell<K>) {
    c.key in nodes && nodes[c.key].freq == f && nodes[c.key].it == c.it
  }

  /** The lists partition the keys, each from the oldest touch to the newest. */
  ghost predicate Partition<K, V>(nodes: Nodes<K, V>, lists: Lists<K>, next: nat) {
    && (forall k {:trigger Listed(nodes, lists, next, k)} :: k in nodes ==> Listed(nodes, lists, next, k))
    && (forall f, c {:trigger Current(nodes, f, c)} :: c in KeysOf(lists, f) ==> Current(nodes, f, c))
    && (forall f {:trigger Ascending(KeysOf(lists, f))} :: Ascending(KeysOf(lists, f)))
  }

  lemma EraseStep<K, V>(nodes: Nodes<K, V>, lists: Lists<K>, next: nat, key: K, nodes': Nodes<K, V>, lists': Lists<K>)
    requires Partition(nodes, lists, next) && key in nodes && nodes' == nodes - {key}
    requires lists' == lists[nodes[key].freq := Erase(KeysOf(lists, nodes[key].freq), nodes[key].it)]
    ensures Partition(nodes', lists', next)
  {
    var f, it := nodes[key].freq, nodes[key].it;
    var list := KeysOf(lists, f);
    assert Listed(nodes, lists, next, key) && Ascending(list);
    EraseAscending(list, it);
    forall k | k in nodes' ensures Listed(nodes', lists', next, k) {
      assert Listed(nodes, lists, next, k);
      if nodes[k].freq == f {
        SameCell(nodes, lists, next, f, key, k);
        ErasePicks(list, it, Cell(nodes[k].it, k));
      }
    }
    forall g, c | c in KeysOf(lists', g) ensures Current(nodes', g, c) {
      if g == f { ErasePicks(list, it, c); }
      assert Current(nodes, g, c);
    }
    forall g ensures Ascending(KeysOf(lists', g)) {
      assert Ascending(KeysOf(lists, g));
    }
  }

  /** Different keys of a list have different iterators. */
  lemma SameCell<K, V>(nodes: Nodes<K, V>, lists: Lists<K>, next: nat, f: nat, a: K, b: K)
    requires Partition(nodes, lists, next) && a in nodes && b in nodes && nodes[a].freq == nodes[b].freq == f
    ensures nodes[a].it == nodes[b].it ==> a == b
  {
    assert Listed(nodes, lists, next, a) && Listed(nodes, lists, next, b) && Ascending(KeysOf(lists, f));
  }

  lemma AppendStep<K, V>(nodes: Nodes<K, V>, lists: Lists<K>, next: nat, f: nat, key: K, val: V, nodes': Nodes<K, V>,
                         lists': Lists<K>)
    requires Partition(nodes, lists, next) && key !in nodes && f >= 1
    requires nodes' == nodes[key := Node(f, next, val)] && lists' == lists[f := KeysOf(lists, f) + [Cell(next, key)]]
    ensures Partition(nodes', lists', next + 1)
  {
    forall k | k in nodes' ensures Listed(nodes', lists', next + 1, k) {
      if k != key { assert Listed(nodes, lists, next, k); }
    }
    forall g, c | c in KeysOf(lists', g) ensures Current(nodes', g, c) {
      if c != Cell(next, key) || g != f { assert Current(nodes, g, c); }
    }
    AppendAscending(nodes, lists, next, f, key);
    forall g ensures Ascending(KeysOf(lists', g)) {
      if g != f { assert Ascending(KeysOf(lists, g)); }
    }
  }

  lemma AppendAscending<K, V>(nodes: Nodes<K, V>, lists: Lists<K>, next: nat, f: nat, key: K)
    requires Partition(nodes, lists, next)
    ensures Ascending(KeysOf(lists, f) + [Cell(next, key)])
  {
    assert Ascending(KeysOf(lists, f));
    forall c | c in KeysOf(lists, f) ensures c.it < next {
      assert Current(nodes, f, c);
      assert Listed(nodes, lists, next, c.key);
    }
  }

  /** `minFreq` is the smallest frequency of a non-empty cache. */
  ghost predicate TrueMinimum<K, V>(nodes: Nodes<K, V>, lists: Lists<K>, minFreq: nat) {
    nodes.Keys != {} ==> KeysOf(lists, minFreq) != [] && forall k :: k in nodes ==> nodes[k].freq >= minFreq
  }

  /** The head of the smallest list is the one key to evict. */
  lemma HeadIsVictim<K, V>(nodes: Nodes<K, V>, lists: Lists<K>, next: nat, minFreq: nat)
    requires Partition(nodes, lists, next) && TrueMinimum(nodes, lists, minFreq) && nodes.Keys != {}
    ensures var c := KeysOf(lists, minFreq)[0];
      Current(nodes, minFreq, c) && IsVictim(Abs(nodes), c.key)
  {
    var list := KeysOf(lists, minFreq);
    var c := list[0];
    assert Current(nodes, minFreq, c) && Ascending(list);
    forall j | j in nodes && j != c.key ensures Before(Abs(nodes)[c.key], Abs(nodes)[j]) {
      assert Listed(nodes, lists, next, j);
      if nodes[j].freq == minFreq { SameCell(nodes, lists, next, minFreq, c.key, j); }
    }
  }

  /** What the cache holds, in the specification's terms. */
  ghost function Abs<K, V>(nodes: Nodes<K, V>): Uses<K, V> {
    map k | k in nodes :: Use(nodes[k].freq, nodes[k].it, nodes[k].val)
  }

  lemma SameSize<K, V>(nodes: Nodes<K, V>)
    ensures |Abs(nodes)| == |nodes|
  {
    assert Abs(nodes).Keys == nodes.Keys;
  }

  lemma Reused<K, V>(nodes: Nodes<K, V>, key: K, next: nat, nodes': Nodes<K, V>)
    requires key in nodes && nodes' == nodes[key := Node(nodes[key].freq + 1, next, nodes[key].val)]
    ensures Abs(nodes') == Touched(Abs(nodes), key, nodes[key].val, next) && |nodes'| == |nodes|
    ensures nodes' == (nodes - {key})[key := Node(nodes[key].freq + 1, next, nodes[key].val)]
  {
    assert nodes'.Keys == nodes.Keys;
  }

  // ---- The cache ----

  class LFUCache<K(==), V> {
    const capacity: nat
    var minFreq: nat
    var contains: Nodes<K, V>
    var freq2Key: Lists<K>
    var next: nat                    // the number of the next list cell

    ghost predicate Valid()
      reads this
    {
      Partition(contains, freq2Key, next) && TrueMinimum(contains, freq2Key, minFreq) && |contains| <= capacity
          && capacity >= 1
    }

    constructor (maxSize: nat)
      requires maxSize >= 1
      ensures Valid() && Abs(contains) == map[] && capacity == maxSize && next == 0
    {
      capacity, contains, freq2Key, next, minFreq := maxSize, map[], map[], 0, 0;
    }

    method Get(key: K) returns (val: Option<V>)
      requires Valid()
      modifies this
      ensures Valid() && Gets(old(Abs(contains)), key, old(next), Abs(contains))
      ensures next == old(next) + if key in old(Abs(contains)) then 1 else 0
      ensures val == if key in old(Abs(contains)) then Some(old(Abs(contains))[key].val) else None
    {
      hide Partition, TrueMinimum;
      if key !in contains { return None; }
      IncreaseFreq(key);
      return Some(contains[key].val);
    }

    method Put(key: K, val: V)
      requires Valid()
      modifies this
      ensures Valid() && Puts(old(Abs(contains)), capacity, key, val, old(next), Abs(contains)) && next == old(next) + 1
    {
      hide Partition, TrueMinimum, IsVictim, KeysOf;
      if key in contains {
        SameLists(contains, freq2Key, next, minFreq, key, val);
        contains := contains[key := contains[key].(val := val)];
        IncreaseFreq(key);
        return;
      }
      SameSize(contains);
      ghost var uses := Abs(contains);
      if |contains| >= capacity {
        ghost var v := RemoveMinFreq();
        assert Abs(contains) == uses - {v};
        Store(key, val);
        assert v in uses && IsVictim(uses, v) && Abs(contains) == Touched(uses - {v}, key, val, old(next));
      } else {
        Store(key, val);
      }
    }

    /** The end of `put`: a new key has been used once. */
    method Store(key: K, val: V)
      requires Partition(contains, freq2Key, next) && key !in contains && |contains| < capacity
      modifies `minFreq, `contains, `freq2Key, `next
      ensures Valid() && Abs(contains) == Touched(old(Abs(contains)), key, val, old(next)) && next == old(next) + 1
    {
      hide Partition, TrueMinimum;
      minFreq := 1;
      freq2Key := freq2Key[1 := KeysOf(freq2Key, 1) + [Cell(next, key)]];
      AppendStep(contains, old(freq2Key), next, 1, key, val, contains[key := Node(1, next, val)], freq2Key);
      contains := contains[key := Node(1, next, val)];
      next := next + 1;
      OneIsLeast(contains, freq2Key, next);
    }

    /** `increaseFreq`: the key moves to the end of the next list. */
    method IncreaseFreq(key: K)
      requires Valid() && key in contains
      modifies `minFreq, `contains, `freq2Key, `next
      ensures Valid() && next == old(next) + 1 && key in contains && contains[key].val == old(contains)[key].val
      ensures Abs(contains) == Touched(old(Abs(contains)), key, old(contains)[key].val, old(next))
    {
      hide Partition, TrueMinimum, Erase, KeysOf, Abs, Touched;
      var node := contains[key];
      var freq := node.freq;
      freq2Key := freq2Key[freq := Erase(KeysOf(freq2Key, freq), node.it)];
      ghost var lists, others := freq2Key, contains - {key};
      EraseStep(contains, old(freq2Key), next, key, others, lists);
      if KeysOf(freq2Key, freq) == [] && freq == minFreq { minFreq := minFreq + 1; }
      freq2Key := freq2Key[freq + 1 := KeysOf(freq2Key, freq + 1) + [Cell(next, key)]];
      contains := contains[key := Node(freq + 1, next, node.val)];
      Reused(old(contains), key, next, contains);
      AppendStep(others, lists, next, freq + 1, key, node.val, contains, freq2Key);
      next := next + 1;
      StillLeast(old(contains), old(freq2Key), old(next), old(minFreq), key, contains, freq2Key, minFreq);
    }

    /** `removeMinFre`. */
    method RemoveMinFreq() returns (ghost victim: K)
      requires Valid() && contains.Keys != {}
      modifies `contains, `freq2Key
      ensures Partition(contains, freq2Key, next) && IsVictim(old(Abs(contains)), victim) && victim in old(contains)
      ensures contains == old(contains) - {victim} && |contains| == |old(contains)| - 1
    {
      hide Partition, TrueMinimum, IsVictim;
      HeadIsVictim(contains, freq2Key, next, minFreq);
      assert KeysOf(freq2Key, minFreq) != [] by { MinimumListed(); }
      var list := KeysOf(freq2Key, minFreq);
      var key := list[0].key;
      EraseStep(contains, freq2Key, next, key, contains - {key}, freq2Key[minFreq := list[1..]]);
      contains := contains - {key};
      freq2Key := freq2Key[minFreq := list[1..]];
      victim := key;
    }

    lemma MinimumListed()
      requires Valid() && contains.Keys != {}
      ensures KeysOf(freq2Key, minFreq) != []
    {
    }
  }

  /** Changing a value moves nothing. */
  lemma SameLists<K, V>(nodes: Nodes<K, V>, lists: Lists<K>, next: nat, minFreq: nat, key: K, val: V)
    requires Partition(nodes, lists, next) && TrueMinimum(nodes, lists, minFreq) && key in nodes
    ensures var nodes' := nodes[key := nodes[key].(val := val)];
      Partition(nodes', lists, next) && TrueMinimum(nodes', lists, minFreq) && |nodes'| == |nodes|
  {
    var nodes' := nodes[key := nodes[key].(val := val)];
    assert nodes'.Keys == nodes.Keys;
    forall k | k in nodes' ensures Listed(nodes', lists, next, k) {
      assert Listed(nodes, lists, next, k);
    }
    forall f, c | c in KeysOf(lists, f) ensures Current(nodes', f, c) {
      assert Current(nodes, f, c);
    }
  }

  lemma OneIsLeast<K, V>(nodes: Nodes<K, V>, lists: Lists<K>, next: nat)
    requires Partition(nodes, lists, next) && KeysOf(lists, 1) != []
    ensures TrueMinimum(nodes, lists, 1)
  {
    forall k | k in nodes ensures nodes[k].freq >= 1 {
      assert Listed(nodes, lists, next, k);
    }
  }

  /** The minimum moves up by one exactly when the key was the last one at it. */
  lemma StillLeast<K, V>(nodes: Nodes<K, V>, lists: Lists<K>, next: nat, minFreq: nat, key: K, nodes': Nodes<K, V>,
                         lists': Lists<K>, minFreq': nat)
    requires Partition(nodes, lists, next) && TrueMinimum(nodes, lists, minFreq) && key in nodes
    requires nodes' == nodes[key := Node(nodes[key].freq + 1, next, nodes[key].val)]
    requires var f := nodes[key].freq;
      var erased := lists[f := Erase(KeysOf(lists, f), nodes[key].it)];
      && lists' == erased[f + 1 := KeysOf(erased, f + 1) + [Cell(next, key)]]
      && minFreq' == if KeysOf(erased, f) == [] && f == minFreq then minFreq + 1 else minFreq
    ensures TrueMinimum(nodes', lists', minFreq')
  {
    var f := nodes[key].freq;
    var shorter := Erase(KeysOf(lists, f), nodes[key].it);
    if shorter == [] && f == minFreq {
      forall k | k in nodes' ensures nodes'[k].freq >= minFreq + 1 {
        if k != key && nodes[k].freq == f {
          assert Listed(nodes, lists, next, k) && Ascending(KeysOf(lists, f));
          SameCell(nodes, lists, next, f, key, k);
          ErasePicks(KeysOf(lists, f), nodes[key].it, Cell(nodes[k].it, k));
        }
      }
    }
  }

}
