/** Cache that evicts the least recently used key (LRU_Cache.h). The specification is a list of keys,
    last touched first, and a map; the class keeps list iterators in its map and is proved to behave the
    same. On the specification: a larger cache always holds what a smaller one holds. */
module LruCache {
  import opened Common

  // ---- Specification ----

  datatype Cache<!K, V> = Cache(order: seq<K>, vals: map<K, V>)

  ghost predicate Distinct<K(!new)>(s: seq<K>) {
    forall i, j :: 0 <= i < j < |s| ==> s[i] != s[j]
  }

  ghost predicate Proper<K(!new), V>(c: Cache<K, V>) {
    Distinct(c.order) && (forall k :: k in c.vals ==> k in c.order) && forall k :: k in c.order ==> k in c.vals
  }

  function Remove<K(==,!new)>(s: seq<K>, k: K): seq<K> {
    if s == [] then [] else if s[0] == k then s[1..] else [s[0]] + Remove(s[1..], k)
  }

  /** The key is the last touched one. */
  ghost function ToFront<K(!new), V>(c: Cache<K, V>, k: K, v: V): Cache<K, V> {
    Cache([k] + Remove(c.order, k), c.vals[k := v])
  }

  ghost function DropLast<K(!new), V>(c: Cache<K, V>): Cache<K, V>
    requires c.order != []
  {
    Cache(c.order[..|c.order| - 1], c.vals - {c.order[|c.order| - 1]})
  }

  /** `Add`: a new key in a full cache drives out the last one in the list. */
  ghost function Added<K(!new), V>(capacity: nat, c: Cache<K, V>, k: K, v: V): Cache<K, V>
    requires capacity >= 1
  {
    if k in c.order || |c.order| < capacity || c.order == [] then ToFront(c, k, v) else ToFront(DropLast(c), k, v)
  }

  /** `GetVal`: a hit touches the key, a miss changes nothing. */
  ghost function Got<K(!new), V>(c: Cache<K, V>, k: K): Cache<K, V> {
    if k in c.order && k in c.vals then ToFront(c, k, c.vals[k]) else c
  }

  datatype Op<K, V> = AddOp(key: K, val: V) | GetOp(key: K)

  ghost function Apply<K(!new), V>(capacity: nat, c: Cache<K, V>, op: Op<K, V>): Cache<K, V>
    requires capacity >= 1
  {
    match op case AddOp(k, v) => Added(capacity, c, k, v) case GetOp(k) => Got(c, k)
  }

  ghost function Run<K(!new), V>(capacity: nat, ops: seq<Op<K, V>>): Cache<K, V>
    requires capacity >= 1
  {
    if ops == [] then Cache([], map[]) else Apply(capacity, Run(capacity, ops[..|ops| - 1]), ops[|ops| - 1])
  }

  lemma {:induction false} Removed<K(!new)>(s: seq<K>, k: K)
    requires Distinct(s)
    ensures Distinct(Remove(s, k)) && (forall x :: x in Remove(s, k) <==> x in s && x != k)
    ensures |Remove(s, k)| == |s| - if k in s then 1 else 0
  {
    if s != [] {
      Removed(s[1..], k);
      assert s == [s[0]] + s[1..];
      assert s[0] !in s[1..];
    }
  }

  lemma FrontProper<K(!new), V>(c: Cache<K, V>, k: K, v: V)
    requires Proper(c)
    ensures Proper(ToFront(c, k, v)) && |ToFront(c, k, v).order| == |c.order| + if k in c.order then 0 else 1
  {
    Removed(c.order, k);
    var rest := Remove(c.order, k);
    assert forall x :: x in rest ==> x in c.order;
    forall x | x in [k] + rest ensures x == k || x in c.vals {
      assert x == k || x in rest;
    }
  }

  lemma DropProper<K(!new), V>(c: Cache<K, V>)
    requires Proper(c) && c.order != []
    ensures Proper(DropLast(c))
    ensures forall k :: k in DropLast(c).order <==> k in c.order && k != c.order[|c.order| - 1]
  {
    var n := |c.order| - 1;
    assert c.order == c.order[..n] + [c.order[n]];
  }

  lemma ApplyProper<K(!new), V>(capacity: nat, c: Cache<K, V>, op: Op<K, V>)
    requires capacity >= 1 && Proper(c) && |c.order| <= capacity
    ensures Proper(Apply(capacity, c, op)) && |Apply(capacity, c, op).order| <= capacity
  {
    hide ToFront, DropLast, Proper;
    match op
    case AddOp(k, v) =>
      FrontProper(c, k, v);
      if c.order != [] {
        DropProper(c);
        assert |DropLast(c).order| == |c.order| - 1 by { Dropped(c); }
        FrontProper(DropLast(c), k, v);
      }
    case GetOp(k) =>
      if k in c.vals { FrontProper(c, k, c.vals[k]); }
  }

  lemma Dropped<K(!new), V>(c: Cache<K, V>)
    requires c.order != []
    ensures |DropLast(c).order| == |c.order| - 1
  {
  }

  // ---- Inclusion ----

  /** `a` can be got from `b` by leaving elements out. */
  ghost predicate Within<K(!new)>(a: seq<K>, b: seq<K>) {
    a == [] || (b != [] && ((a[0] == b[0] && Within(a[1..], b[1..])) || Within(a, b[1..])))
  }

  lemma {:induction false} WithinMember<K(!new)>(a: seq<K>, b: seq<K>, k: K)
    requires Within(a, b) && k in a
    ensures k in b
  {
    if a[0] == b[0] && Within(a[1..], b[1..]) {
      if k != a[0] { WithinMember(a[1..], b[1..], k); }
    } else {
      WithinMember(a, b[1..], k);
    }
  }

  lemma {:induction false} WithinSelf<K(!new)>(a: seq<K>)
    ensures Within(a, a)
  {
    if a != [] { WithinSelf(a[1..]); }
  }

  lemma {:induction false} RemoveAbsent<K(!new)>(a: seq<K>, k: K)
    requires k !in a
    ensures Remove(a, k) == a
  {
    if a != [] { RemoveAbsent(a[1..], k); }
  }

  lemma {:induction false} WithinRemove<K(!new)>(a: seq<K>, b: seq<K>, k: K)
    requires Within(a, b) && Distinct(b)
    ensures Within(Remove(a, k), Remove(b, k))
    decreases |b|
  {
    if a == [] {
    } else if a[0] == b[0] && Within(a[1..], b[1..]) {
      if a[0] != k { WithinRemove(a[1..], b[1..], k); }
    } else {
      WithinRemove(a, b[1..], k);
      if b[0] == k {
        if k in a { WithinMember(a, b[1..], k); }
        RemoveAbsent(a, k);
      }
    }
  }

  lemma {:induction false} WithinInit<K(!new)>(a: seq<K>, b: seq<K>)
    requires Within(a, b) && a != []
    ensures Within(a[..|a| - 1], b)
    decreases |b|
  {
    if a[0] == b[0] && Within(a[1..], b[1..]) {
      if |a| > 1 {
        WithinInit(a[1..], b[1..]);
        assert a[..|a| - 1][1..] == a[1..][..|a[1..]| - 1];
      }
    } else {
      WithinInit(a, b[1..]);
    }
  }

  lemma {:induction false} WithinInits<K(!new)>(a: seq<K>, b: seq<K>)
    requires Within(a, b) && a != []
    ensures Within(a[..|a| - 1], b[..|b| - 1])
    decreases |b|
  {
    if |a| > 1 {
      assert b[..|b| - 1][1..] == b[1..][..|b[1..]| - 1];
      if a[0] == b[0] && Within(a[1..], b[1..]) {
        WithinInits(a[1..], b[1..]);
        assert a[..|a| - 1][1..] == a[1..][..|a[1..]| - 1];
      } else {
        WithinInits(a, b[1..]);
      }
    }
  }

  /** What relates the states of a small and a large cache on the same trace. */
  ghost predicate Included<K(!new), V>(cs: nat, a: Cache<K, V>, b: Cache<K, V>) {
    && Proper(a) && Proper(b) && Within(a.order, b.order)
    && (forall k :: k in a.vals ==> k in b.vals && a.vals[k] == b.vals[k])
    && (|a.order| < cs ==> a.order == b.order)
  }

  lemma IncludedFront<K(!new), V>(cs: nat, a: Cache<K, V>, b: Cache<K, V>, k: K, v: V)
    requires Proper(a) && Proper(b) && Within(a.order, b.order)
    requires forall x :: x in a.vals ==> x in b.vals && a.vals[x] == b.vals[x]
    requires |ToFront(a, k, v).order| >= cs || a.order == b.order
    ensures Included(cs, ToFront(a, k, v), ToFront(b, k, v))
  {
    FrontProper(a, k, v);
    FrontProper(b, k, v);
    WithinRemove(a.order, b.order, k);
    var a', b' := ToFront(a, k, v), ToFront(b, k, v);
    assert a'.order[1..] == Remove(a.order, k) && b'.order[1..] == Remove(b.order, k);
  }

  lemma IncludedAdd<K(!new), V>(cs: nat, cl: nat, a: Cache<K, V>, b: Cache<K, V>, k: K, v: V)
    requires 1 <= cs <= cl && Included(cs, a, b) && |a.order| <= cs && |b.order| <= cl
    ensures Included(cs, Added(cs, a, k, v), Added(cl, b, k, v))
  {
    hide ToFront, DropLast;
    if k in a.order { WithinMember(a.order, b.order, k); }
    if k in a.order || |a.order| < cs {
      FrontProper(a, k, v);
      IncludedFront(cs, a, b, k, v);
    } else {
      var a1 := DropLast(a);
      DropProper(a);
      Dropped(a);
      FrontProper(a1, k, v);
      DroppedWithin(a, b);
      if k in b.order || |b.order| < cl {
        IncludedFront(cs, a1, b, k, v);
      } else {
        DropProper(b);
        IncludedFront(cs, a1, DropLast(b), k, v);
      }
    }
  }

  lemma DroppedWithin<K(!new), V>(a: Cache<K, V>, b: Cache<K, V>)
    requires Proper(a) && Proper(b) && Within(a.order, b.order) && a.order != []
    requires forall x :: x in a.vals ==> x in b.vals && a.vals[x] == b.vals[x]
    ensures b.order != [] && Within(DropLast(a).order, b.order) && Within(DropLast(a).order, DropLast(b).order)
    ensures forall x :: x in DropLast(a).vals ==> x in b.vals && DropLast(a).vals[x] == b.vals[x]
    ensures forall x :: x in DropLast(a).vals ==> x in DropLast(b).vals && DropLast(a).vals[x] == DropLast(b).vals[x]
  {
    WithinInit(a.order, b.order);
    WithinInits(a.order, b.order);
    DropProper(a);
    DropProper(b);
    forall x | x in DropLast(a).vals ensures x in DropLast(b).vals {
      WithinMember(DropLast(a).order, DropLast(b).order, x);
    }
  }

  lemma IncludedGet<K(!new), V>(cs: nat, a: Cache<K, V>, b: Cache<K, V>, k: K)
    requires cs >= 1 && Included(cs, a, b)
    ensures Included(cs, Got(a, k), Got(b, k))
  {
    hide ToFront;
    if k in a.order {
      WithinMember(a.order, b.order, k);
      FrontProper(a, k, a.vals[k]);
      IncludedFront(cs, a, b, k, a.vals[k]);
    } else if k in b.order {
      OnlyLargeHit(a, b, k);
    }
  }

  /** Hits in the large cache alone move a key the small one does not hold. */
  lemma OnlyLargeHit<K(!new), V>(a: Cache<K, V>, b: Cache<K, V>, k: K)
    requires Proper(a) && Proper(b) && Within(a.order, b.order) && k !in a.order && k in b.order
    ensures Proper(ToFront(b, k, b.vals[k])) && Within(a.order, ToFront(b, k, b.vals[k]).order)
    ensures ToFront(b, k, b.vals[k]).vals == b.vals
  {
    FrontProper(b, k, b.vals[k]);
    WithinRemove(a.order, b.order, k);
    RemoveAbsent(a.order, k);
    assert ToFront(b, k, b.vals[k]).order[1..] == Remove(b.order, k);
  }

  lemma {:induction false} RunProper<K(!new), V>(capacity: nat, ops: seq<Op<K, V>>)
    requires capacity >= 1
    ensures Proper(Run(capacity, ops)) && |Run(capacity, ops).order| <= capacity
  {
    if ops != [] {
      RunProper(capacity, ops[..|ops| - 1]);
      ApplyProper(capacity, Run(capacity, ops[..|ops| - 1]), ops[|ops| - 1]);
    }
  }

  lemma {:induction false} RunIncluded<K(!new), V>(cs: nat, cl: nat, ops: seq<Op<K, V>>)
    requires 1 <= cs <= cl
    ensures Included(cs, Run(cs, ops), Run(cl, ops))
  {
    if ops != [] {
      var before := ops[..|ops| - 1];
      RunIncluded(cs, cl, before);
      RunProper(cs, before);
      RunProper(cl, before);
      match ops[|ops| - 1]
      case AddOp(k, v) => IncludedAdd(cs, cl, Run(cs, before), Run(cl, before), k, v);
      case GetOp(k) => IncludedGet(cs, Run(cs, before), Run(cl, before), k);
    }
  }

  /** On every trace, what the smaller cache holds the larger one holds with the same value: a hit in the
      small cache is a hit in the large one. */
  lemma SmallerIsIncluded<K(!new), V>(cs: nat, cl: nat, ops: seq<Op<K, V>>, k: K)
    requires 1 <= cs <= cl && k in Run(cs, ops).vals
    ensures k in Run(cl, ops).vals && Run(cl, ops).vals[k] == Run(cs, ops).vals[k]
  {
    RunIncluded(cs, cl, ops);
  }

  // ---- The order is the order of last touch ----

  ghost predicate Touches<K(!new), V>(c: Cache<K, V>, op: Op<K, V>, k: K) {
    op.key == k && (op.AddOp? || k in c.order)
  }

  /** The number of the last operation that touched the key, -1 if none did. */
  ghost function LastTouch<K(!new), V>(capacity: nat, ops: seq<Op<K, V>>, k: K): (t: int)
    requires capacity >= 1
    ensures -1 <= t < |ops|
  {
    if ops == [] then -1
    else if Touches(Run(capacity, ops[..|ops| - 1]), ops[|ops| - 1], k) then |ops| - 1
    else LastTouch(capacity, ops[..|ops| - 1], k)
  }

  ghost predicate ByTouch<K(!new), V>(capacity: nat, ops: seq<Op<K, V>>, s: seq<K>)
    requires capacity >= 1
  {
    forall i, j :: 0 <= i < j < |s| ==> LastTouch(capacity, ops, s[i]) > LastTouch(capacity, ops, s[j])
  }

  lemma {:induction false} RemoveSplices<K(!new)>(s: seq<K>, k: K) returns (p: nat)
    requires k in s
    ensures p < |s| && s[p] == k && Remove(s, k) == s[..p] + s[p + 1..]
  {
    if s[0] == k { return 0; }
    p := RemoveSplices(s[1..], k);
    p := p + 1;
  }

  lemma RemoveByTouch<K(!new), V>(capacity: nat, ops: seq<Op<K, V>>, s: seq<K>, k: K)
    requires capacity >= 1 && ByTouch(capacity, ops, s)
    ensures ByTouch(capacity, ops, Remove(s, k))
  {
    hide LastTouch, Remove;
    if k in s {
      var p := RemoveSplices(s, k);
    } else {
      RemoveAbsent(s, k);
    }
  }

  /** Untouched keys keep their places relative to each other. */
  lemma LaterByTouch<K(!new), V>(capacity: nat, ops: seq<Op<K, V>>, s: seq<K>)
    requires capacity >= 1 && ops != [] && ByTouch(capacity, ops[..|ops| - 1], s)
    requires forall x :: x in s ==> !Touches(Run(capacity, ops[..|ops| - 1]), ops[|ops| - 1], x)
    ensures ByTouch(capacity, ops, s)
  {
    hide Touches;
    forall i | 0 <= i < |s| ensures LastTouch(capacity, ops, s[i]) == LastTouch(capacity, ops[..|ops| - 1], s[i]) {
      assert s[i] in s;
    }
  }

  /** In every reachable state each key is in the list once, and the list runs from the key touched last
      to the key touched longest ago. */
  lemma {:induction false} InTouchOrder<K(!new), V>(capacity: nat, ops: seq<Op<K, V>>)
    requires capacity >= 1
    ensures Distinct(Run(capacity, ops).order) && ByTouch(capacity, ops, Run(capacity, ops).order)
  {
    RunProper(capacity, ops);
    if ops != [] {
      var before, op := ops[..|ops| - 1], ops[|ops| - 1];
      InTouchOrder(capacity, before);
      RunProper(capacity, before);
      OrderStep(capacity, ops, Run(capacity, before), op.key);
    }
  }

  /** The rest of the list after an operation: what was there, without the key and perhaps the last one. */
  lemma OrderStep<K(!new), V>(capacity: nat, ops: seq<Op<K, V>>, c: Cache<K, V>, k: K)
    requires capacity >= 1 && ops != [] && c == Run(capacity, ops[..|ops| - 1]) && k == ops[|ops| - 1].key
    requires Proper(c) && ByTouch(capacity, ops[..|ops| - 1], c.order)
    ensures ByTouch(capacity, ops, Run(capacity, ops).order)
  {
    hide LastTouch, Remove;
    var before, c' := ops[..|ops| - 1], Run(capacity, ops);
    if Touches(c, ops[|ops| - 1], k) {
      var s := if c'.order[1..] == Remove(c.order, k) then c.order else c.order[..|c.order| - 1];
      assert c'.order == [k] + Remove(s, k);
      assert Distinct(s) && ByTouch(capacity, before, s);
      Removed(s, k);
      RemoveByTouch(capacity, before, s, k);
      LaterByTouch(capacity, ops, Remove(s, k));
      FrontByTouch(capacity, ops, k, Remove(s, k));
    } else {
      LaterByTouch(capacity, ops, c.order);
    }
  }

  lemma FrontByTouch<K(!new), V>(capacity: nat, ops: seq<Op<K, V>>, k: K, s: seq<K>)
    requires capacity >= 1 && ops != [] && k !in s && ByTouch(capacity, ops, s)
    requires Touches(Run(capacity, ops[..|ops| - 1]), ops[|ops| - 1], k)
    ensures ByTouch(capacity, ops, [k] + s)
  {
    assert LastTouch(capacity, ops, k) == |ops| - 1;
    forall x | x in s ensures LastTouch(capacity, ops, x) < |ops| - 1 {
      assert !Touches(Run(capacity, ops[..|ops| - 1]), ops[|ops| - 1], x);
    }
  }

  // ---- What a cache holds, read off the operations ----

  ghost function AddedKeys<K(!new), V>(ops: seq<Op<K, V>>): set<K> {
    set i | 0 <= i < |ops| && ops[i].AddOp? :: ops[i].key
  }

  /** The keys touched after the key's last touch. */
  ghost function TouchedAfter<K(!new), V>(capacity: nat, ops: seq<Op<K, V>>, k: K): set<K>
    requires capacity >= 1
  {
    set x | x in AddedKeys(ops) && LastTouch(capacity, ops, x) > LastTouch(capacity, ops, k)
  }

  /** An evicted key left a full cache, and was touched before all that is in it. */
  ghost predicate Evicted<K(!new), V>(capacity: nat, ops: seq<Op<K, V>>, s: seq<K>, x: K)
    requires capacity >= 1
  {
    |s| == capacity && forall k :: k in s ==> LastTouch(capacity, ops, k) > LastTouch(capacity, ops, x)
  }

  ghost predicate OnlyEvictedMissing<K(!new), V>(capacity: nat, ops: seq<Op<K, V>>, s: seq<K>)
    requires capacity >= 1
  {
    && (forall k :: k in s ==> k in AddedKeys(ops))
    && forall x :: x in AddedKeys(ops) && x !in s ==> Evicted(capacity, ops, s, x)
  }

  lemma OneMoreOp<K(!new), V>(ops: seq<Op<K, V>>, x: K)
    requires ops != []
    ensures var op := ops[|ops| - 1];
      x in AddedKeys(ops) <==> x in AddedKeys(ops[..|ops| - 1]) || (op.AddOp? && x == op.key)
  {
    var before := ops[..|ops| - 1];
    if x in AddedKeys(ops) {
      var i :| 0 <= i < |ops| && ops[i].AddOp? && ops[i].key == x;
      if i < |before| { assert before[i] == ops[i]; }
    }
    if x in AddedKeys(before) {
      var i :| 0 <= i < |before| && before[i].AddOp? && before[i].key == x;
      assert ops[i] == before[i];
    }
  }

  /** The keys in the list after an operation, and how many. */
  lemma HeldAfter<K(!new), V>(capacity: nat, c: Cache<K, V>, op: Op<K, V>)
    requires capacity >= 1 && Proper(c) && |c.order| <= capacity
    ensures var c' := Apply(capacity, c, op); var full := op.AddOp? && op.key !in c.order && |c.order| == capacity;
      && (forall x :: x in c'.order <==>
            (x in c.order && !(full && x == c.order[|c.order| - 1])) || (op.AddOp? && x == op.key))
      && |c'.order| == |c.order| + if op.AddOp? && op.key !in c.order && !full then 1 else 0
  {
    var k := op.key;
    Removed(c.order, k);
    if c.order != [] {
      DropProper(c);
      Removed(DropLast(c).order, k);
      Dropped(c);
    }
  }

  lemma LastTouchAfter<K(!new), V>(capacity: nat, ops: seq<Op<K, V>>, x: K)
    requires capacity >= 1 && ops != []
    ensures var before, op := ops[..|ops| - 1], ops[|ops| - 1];
      LastTouch(capacity, ops, x) == if op.key == x && (op.AddOp? || x in Run(capacity, before).order) then |ops| - 1
                                     else LastTouch(capacity, before, x)
  {
  }

  lemma {:induction false} MissingWereEvicted<K(!new), V>(capacity: nat, ops: seq<Op<K, V>>)
    requires capacity >= 1
    ensures OnlyEvictedMissing(capacity, ops, Run(capacity, ops).order)
  {
    if ops != [] {
      var before, op := ops[..|ops| - 1], ops[|ops| - 1];
      var s, s' := Run(capacity, before).order, Run(capacity, ops).order;
      MissingWereEvicted(capacity, before);
      RunProper(capacity, before);
      InTouchOrder(capacity, before);
      HeldAfter(capacity, Run(capacity, before), op);
      hide Run, LastTouch, AddedKeys, Apply;
      forall k | k in s' ensures k in AddedKeys(ops) { OneMoreOp(ops, k); }
      forall x | x in AddedKeys(ops) && x !in s' ensures Evicted(capacity, ops, s', x) {
        OneMoreOp(ops, x);
        StillEvicted(capacity, ops, s, s', x);
      }
    }
  }

  lemma StillEvicted<K(!new), V>(capacity: nat, ops: seq<Op<K, V>>, s: seq<K>, s': seq<K>, x: K)
    requires capacity >= 1 && ops != [] && s == Run(capacity, ops[..|ops| - 1]).order && x !in s'
    requires Distinct(s) && ByTouch(capacity, ops[..|ops| - 1], s) && |s| <= capacity
    requires x !in s ==> Evicted(capacity, ops[..|ops| - 1], s, x)
    requires var op := ops[|ops| - 1]; var full := op.AddOp? && op.key !in s && |s| == capacity;
      && (forall y :: y in s' <==> (y in s && !(full && y == s[|s| - 1])) || (op.AddOp? && y == op.key))
      && |s'| == |s| + if op.AddOp? && op.key !in s && !full then 1 else 0
    ensures Evicted(capacity, ops, s', x)
  {
    var before := ops[..|ops| - 1];
    hide Run, LastTouch;
    LastTouchAfter(capacity, ops, x);
    forall k | k in s' ensures LastTouch(capacity, ops, k) > LastTouch(capacity, ops, x) {
      LastTouchAfter(capacity, ops, k);
      if k in s && x in s {
        var i :| 0 <= i < |s| && s[i] == k;
        assert x == s[|s| - 1];
      }
    }
  }

  /** So many different elements. */
  lemma {:induction false} SizeOfSet<K(!new)>(s: seq<K>)
    requires Distinct(s)
    ensures |set k | k in s| == |s|
  {
    if s == [] {
      assert (set k | k in s) == {};
    } else {
      var last, init := s[|s| - 1], s[..|s| - 1];
      SizeOfSet(init);
      assert s == init + [last];
      assert (set k | k in s) == (set k | k in init) + {last};
    }
  }

  /** A cache holds a key exactly if the key has been added and fewer than `capacity` others have been
      touched since its last touch. */
  lemma HeldIfRecent<K(!new), V>(capacity: nat, ops: seq<Op<K, V>>, k: K)
    requires capacity >= 1
    ensures k in Run(capacity, ops).vals <==> k in Run(capacity, ops).order
    ensures k in Run(capacity, ops).vals <==> k in AddedKeys(ops) && |TouchedAfter(capacity, ops, k)| < capacity
  {
    var s := Run(capacity, ops).order;
    RunProper(capacity, ops);
    InTouchOrder(capacity, ops);
    MissingWereEvicted(capacity, ops);
    hide Run, LastTouch, AddedKeys;
    if k in s {
      var p :| 0 <= p < |s| && s[p] == k;
      SizeOfSet(s[..p]);
      LaterAreBefore(capacity, ops, s, p);
    } else if k in AddedKeys(ops) {
      SizeOfSet(s);
      assert Evicted(capacity, ops, s, k);
      SubsetSize((set x | x in s), TouchedAfter(capacity, ops, k));
    }
  }

  lemma LaterAreBefore<K(!new), V>(capacity: nat, ops: seq<Op<K, V>>, s: seq<K>, p: nat)
    requires capacity >= 1 && p < |s| && ByTouch(capacity, ops, s) && OnlyEvictedMissing(capacity, ops, s)
    ensures TouchedAfter(capacity, ops, s[p]) == set x | x in s[..p]
  {
    hide LastTouch, AddedKeys;
    forall x ensures x in TouchedAfter(capacity, ops, s[p]) <==> x in s[..p] {
      if x in s[..p] {
        var i :| 0 <= i < p && s[i] == x;
      }
      if x in TouchedAfter(capacity, ops, s[p]) {
        LaterIsHeld(capacity, ops, s, p, x);
        var i :| 0 <= i < |s| && s[i] == x;
        assert i < p && s[..p][i] == x;
      }
    }
  }

  lemma LaterIsHeld<K(!new), V>(capacity: nat, ops: seq<Op<K, V>>, s: seq<K>, p: nat, x: K)
    requires capacity >= 1 && p < |s| && OnlyEvictedMissing(capacity, ops, s)
    requires x in TouchedAfter(capacity, ops, s[p])
    ensures x in s
  {
    assert s[p] in s && (x in s || Evicted(capacity, ops, s, x));
  }

  /** It holds as many keys as it can of those that have been added. */
  lemma HeldCount<K(!new), V>(capacity: nat, ops: seq<Op<K, V>>)
    requires capacity >= 1
    ensures |Run(capacity, ops).order| == if |AddedKeys(ops)| < capacity then |AddedKeys(ops)| else capacity
  {
    var s := Run(capacity, ops).order;
    RunProper(capacity, ops);
    MissingWereEvicted(capacity, ops);
    hide Run, AddedKeys;
    SizeOfSet(s);
    SubsetSize((set k | k in s), AddedKeys(ops));
    if |s| < capacity {
      assert forall x :: x in AddedKeys(ops) && x !in s ==> Evicted(capacity, ops, s, x);
      assert (set k | k in s) == AddedKeys(ops);
    }
  }

  /** A key keeps the value it was last added with. */
  lemma {:induction false} HeldValue<K(!new), V>(capacity: nat, ops: seq<Op<K, V>>, i: nat)
    requires capacity >= 1 && i < |ops| && ops[i].AddOp?
    requires forall j :: i < j < |ops| && ops[j].AddOp? ==> ops[j].key != ops[i].key
    requires ops[i].key in Run(capacity, ops).vals
    ensures Run(capacity, ops).vals[ops[i].key] == ops[i].val
    decreases |ops|
  {
    var before, op, k := ops[..|ops| - 1], ops[|ops| - 1], ops[i].key;
    RunProper(capacity, before);
    if i < |ops| - 1 {
      assert before[i] == ops[i];
      KeepsValue(capacity, Run(capacity, before), op, k);
      HeldValue(capacity, before, i);
    }
  }

  lemma KeepsValue<K(!new), V>(capacity: nat, c: Cache<K, V>, op: Op<K, V>, k: K)
    requires capacity >= 1 && k in Apply(capacity, c, op).vals && (op.AddOp? ==> op.key != k)
    ensures k in c.vals && Apply(capacity, c, op).vals[k] == c.vals[k]
  {
  }

  // ---- The class ----

  /** A list cell; its iterator is a number, larger for cells made later. */
  datatype Cell<K> = Cell(it: nat, key: K)

  datatype Entry<V> = Entry(val: V, it: nat)

  function KeysOf<K(!new)>(list: seq<Cell<K>>): (s: seq<K>)
    ensures |s| == |list| && forall i :: 0 <= i < |s| ==> s[i] == list[i].key
  {
    seq(|list|, i requires 0 <= i < |list| => list[i].key)
  }

  function Erase<K(!new)>(list: seq<Cell<K>>, it: nat): seq<Cell<K>> {
    if list == [] then [] else if list[0].it == it then list[1..] else [list[0]] + Erase(list[1..], it)
  }

  ghost function Abs<K(!new), V>(list: seq<Cell<K>>, entries: map<K, Entry<V>>): Cache<K, V> {
    Cache(KeysOf(list), map k | k in entries :: entries[k].val)
  }

  ghost predicate Own<K(!new), V>(entries: map<K, Entry<V>>, next: nat, c: Cell<K>) {
    c.key in entries && entries[c.key].it == c.it < next
  }

  ghost predicate Has<K(!new), V>(list: seq<Cell<K>>, entries: map<K, Entry<V>>, k: K)
    requires k in entries
  {
    Cell(entries[k].it, k) in list
  }

  ghost predicate Descending<K>(list: seq<Cell<K>>) {
    forall i, j :: 0 <= i < j < |list| ==> list[i].it > list[j].it
  }

  /** Each cell is the one its key's entry points to and each entry points to a cell; the first cell is
      the newest. */
  ghost predicate Linked<K(!new), V>(list: seq<Cell<K>>, entries: map<K, Entry<V>>, next: nat) {
    && (forall c {:trigger Own(entries, next, c)} :: c in list ==> Own(entries, next, c))
    && (forall k {:trigger Has(list, entries, k)} :: k in entries ==> Has(list, entries, k))
    && Descending(list) && |entries| == |list|
  }

  lemma SameCell<K(!new)>(list: seq<Cell<K>>, a: Cell<K>, b: Cell<K>)
    requires Descending(list) && a in list && b in list && a.it == b.it
    ensures a == b
  {
  }

  lemma OtherCell<K(!new)>(list: seq<Cell<K>>, a: Cell<K>, b: Cell<K>)
    requires Descending(list) && a in list && b in list && a != b
    ensures a.it != b.it
  {
  }

  lemma KeyHasCell<K(!new), V>(list: seq<Cell<K>>, entries: map<K, Entry<V>>, next: nat, k: K)
    requires Linked(list, entries, next)
    ensures k in entries <==> k in KeysOf(list)
  {
    if k in entries {
      assert Has(list, entries, k);
      var i :| 0 <= i < |list| && list[i] == Cell(entries[k].it, k);
      assert KeysOf(list)[i] == k;
    }
    if k in KeysOf(list) {
      var i :| 0 <= i < |list| && KeysOf(list)[i] == k;
      assert list[i] in list && Own(entries, next, list[i]);
    }
  }

  lemma LinkedProper<K(!new), V>(list: seq<Cell<K>>, entries: map<K, Entry<V>>, next: nat)
    requires Linked(list, entries, next)
    ensures Proper(Abs(list, entries))
  {
    forall i, j | 0 <= i < j < |list| ensures list[i].key != list[j].key {
      assert Own(entries, next, list[i]) && Own(entries, next, list[j]);
    }
    forall k ensures k in entries <==> k in KeysOf(list) {
      KeyHasCell(list, entries, next, k);
    }
  }

  lemma {:induction false} ErasePicks<K(!new)>(s: seq<Cell<K>>, it: nat, c: Cell<K>)
    requires Descending(s)
    ensures c in Erase(s, it) <==> c in s && c.it != it
  {
    if s != [] {
      ErasePicks(s[1..], it, c);
      assert c in s <==> c == s[0] || c in s[1..];
    }
  }

  lemma {:induction false} EraseDescending<K(!new)>(s: seq<Cell<K>>, it: nat)
    requires Descending(s)
    ensures Descending(Erase(s, it))
  {
    if s != [] && s[0].it != it {
      var rest := Erase(s[1..], it);
      EraseDescending(s[1..], it);
      forall j | 0 <= j < |rest| ensures s[0].it > rest[j].it {
        ErasePicks(s[1..], it, rest[j]);
      }
    }
  }

  /** Erasing a cell is removing its key. */
  lemma {:induction false} EraseIsRemove<K(!new)>(s: seq<Cell<K>>, a: Cell<K>)
    requires a in s && forall i {:trigger s[i]} :: 0 <= i < |s| ==> (s[i].it == a.it <==> s[i].key == a.key)
    ensures KeysOf(Erase(s, a.it)) == Remove(KeysOf(s), a.key) && |Erase(s, a.it)| == |s| - 1
  {
    assert KeysOf(s)[1..] == KeysOf(s[1..]);
    if s[0].it != a.it { EraseIsRemove(s[1..], a); }
  }

  lemma EraseLinked<K(!new), V>(list: seq<Cell<K>>, entries: map<K, Entry<V>>, next: nat, key: K)
    requires Linked(list, entries, next) && key in entries
    ensures Linked(Erase(list, entries[key].it), entries - {key}, next)
    ensures KeysOf(Erase(list, entries[key].it)) == Remove(KeysOf(list), key)
  {
    var cell, others := Cell(entries[key].it, key), entries - {key};
    var list' := Erase(list, cell.it);
    assert Has(list, entries, key);
    EraseDescending(list, cell.it);
    hide Erase;
    forall i {:trigger list[i]} | 0 <= i < |list| ensures list[i].it == cell.it <==> list[i].key == key {
      assert Own(entries, next, list[i]);
      if list[i].it == cell.it { SameCell(list, list[i], cell); }
    }
    EraseIsRemove(list, cell);
    forall c | c in list' ensures Own(others, next, c) {
      ErasePicks(list, cell.it, c);
      assert Own(entries, next, c);
    }
    forall k | k in others ensures Has(list', others, k) {
      assert Has(list, entries, k);
      OtherCell(list, Cell(entries[k].it, k), cell);
      ErasePicks(list, cell.it, Cell(entries[k].it, k));
    }
    assert others.Keys == entries.Keys - {key};
  }

  lemma PushLinked<K(!new), V>(list: seq<Cell<K>>, entries: map<K, Entry<V>>, next: nat, key: K, val: V)
    requires Linked(list, entries, next) && key !in entries
    ensures Linked([Cell(next, key)] + list, entries[key := Entry(val, next)], next + 1)
    ensures KeysOf([Cell(next, key)] + list) == [key] + KeysOf(list)
  {
    var list', entries' := [Cell(next, key)] + list, entries[key := Entry(val, next)];
    assert KeysOf(list') == [key] + KeysOf(list);
    hide KeysOf;
    forall c | c in list' ensures Own(entries', next + 1, c) {
      if c != Cell(next, key) { assert c in list && Own(entries, next, c); }
    }
    forall k | k in entries' ensures Has(list', entries', k) {
      if k != key { assert Has(list, entries, k); }
    }
    PushDescending(list, entries, next, key);
  }

  lemma PushDescending<K(!new), V>(list: seq<Cell<K>>, entries: map<K, Entry<V>>, next: nat, key: K)
    requires Linked(list, entries, next)
    ensures Descending([Cell(next, key)] + list)
  {
    forall i | 0 <= i < |list| ensures list[i].it < next {
      assert list[i] in list && Own(entries, next, list[i]);
    }
  }

  /** Erased from its place and put in front. */
  lemma Moved<K(!new), V>(list: seq<Cell<K>>, entries: map<K, Entry<V>>, next: nat, key: K, val: V)
    requires Linked(list, entries, next) && key in entries
    ensures var list', entries' := [Cell(next, key)] + Erase(list, entries[key].it), entries[key := Entry(val, next)];
      Linked(list', entries', next + 1) && |list'| == |list|
          && Abs(list', entries') == ToFront(Abs(list, entries), key, val)
  {
    hide Linked, Remove, Erase, KeysOf;
    var others, list' := entries - {key}, [Cell(next, key)] + Erase(list, entries[key].it);
    EraseLinked(list, entries, next, key);
    PushLinked(Erase(list, entries[key].it), others, next, key, val);
    assert others[key := Entry(val, next)] == entries[key := Entry(val, next)];
    SameCount(list, entries, next);
    SameCount(list', entries[key := Entry(val, next)], next + 1);
    assert entries[key := Entry(val, next)].Keys == entries.Keys;
  }

  lemma SameCount<K(!new), V>(list: seq<Cell<K>>, entries: map<K, Entry<V>>, next: nat)
    requires Linked(list, entries, next)
    ensures |entries.Keys| == |list|
  {
  }

  /** Erasing the last cell cuts it off. */
  lemma {:induction false} EraseAtEnd<K(!new)>(s: seq<Cell<K>>)
    requires Descending(s) && s != []
    ensures Erase(s, s[|s| - 1].it) == s[..|s| - 1]
  {
    if |s| > 1 { EraseAtEnd(s[1..]); }
  }

  /** The last cell's key goes. */
  lemma LastErased<K(!new), V>(list: seq<Cell<K>>, entries: map<K, Entry<V>>, next: nat)
    requires Linked(list, entries, next) && list != []
    ensures var last := list[|list| - 1]; var list' := Erase(list, last.it);
      && last.key in entries && Linked(list', entries - {last.key}, next) && |list'| == |list| - 1
      && Abs(list', entries - {last.key}) == DropLast(Abs(list, entries))
  {
    var last := list[|list| - 1];
    assert last in list && Own(entries, next, last);
    EraseLinked(list, entries, next, last.key);
    EraseAtEnd(list);
    hide Linked, Erase;
    assert KeysOf(list[..|list| - 1]) == KeysOf(list)[..|list| - 1];
  }

  /** The key's cell is the first one exactly when the key is the last one touched. */
  lemma FrontCell<K(!new), V>(list: seq<Cell<K>>, entries: map<K, Entry<V>>, next: nat, key: K)
    requires Linked(list, entries, next) && key in entries
    ensures list != []
    ensures entries[key].it == list[0].it ==> ToFront(Abs(list, entries), key, entries[key].val) == Abs(list, entries)
  {
    assert Has(list, entries, key);
    if entries[key].it == list[0].it {
      SameCell(list, list[0], Cell(entries[key].it, key));
      assert [key] + KeysOf(list)[1..] == KeysOf(list);
    }
  }

  class LRUCache<K(==,!new), V> {
    const capacity: nat
    var list: seq<Cell<K>>
    var entries: map<K, Entry<V>>
    var next: nat                    // the number of the next list cell

    ghost predicate Valid()
      reads this
    {
      capacity >= 1 && Linked(list, entries, next) && |list| <= capacity
    }

    constructor (maxCount: nat)
      requires maxCount >= 1
      ensures Valid() && capacity == maxCount && Abs(list, entries) == Cache([], map[])
    {
      capacity, list, entries, next := maxCount, [], map[], 0;
    }

    /** What the class holds is a proper cache: each key once, and no more keys than it may hold. */
    lemma ValidIsProper()
      requires Valid()
      ensures Proper(Abs(list, entries)) && |Abs(list, entries).order| <= capacity
    {
      LinkedProper(list, entries, next);
    }

    method Add(key: K, val: V)
      requires Valid()
      modifies this
      ensures Valid() && Abs(list, entries) == Added(capacity, old(Abs(list, entries)), key, val)
    {
      hide Linked, ToFront, Erase, DropLast;
      KeyHasCell(list, entries, next, key);
      SameCount(list, entries, next);
      if key in entries {
        MoveToFront(key, val);
        return;
      }
      if |entries| < capacity {
        Insert(key, val);
        return;
      }
      var last := list[|list| - 1];
      LastErased(list, entries, next);
      entries := entries - {last.key};
      list := Erase(list, last.it);
      Insert(key, val);
    }

    /** The key's cell is erased and a new one made at the front. */
    method MoveToFront(key: K, val: V)
      requires Valid() && key in entries
      modifies `list, `entries, `next
      ensures Valid() && Abs(list, entries) == ToFront(old(Abs(list, entries)), key, val)
    {
      hide Linked, ToFront, Erase, Abs;
      Moved(list, entries, next, key, val);
      list := [Cell(next, key)] + Erase(list, entries[key].it);
      entries := entries[key := Entry(val, next)];
      next := next + 1;
    }

    method Insert(key: K, val: V)
      requires Valid() && key !in entries && |list| < capacity
      modifies `list, `entries, `next
      ensures Valid() && Abs(list, entries) == ToFront(old(Abs(list, entries)), key, val)
    {
      hide Linked, KeysOf;
      PushLinked(list, entries, next, key, val);
      KeyHasCell(list, entries, next, key);
      RemoveAbsent(KeysOf(list), key);
      list := [Cell(next, key)] + list;
      entries := entries[key := Entry(val, next)];
      next := next + 1;
    }

    method GetVal(key: K) returns (val: Option<V>)
      requires Valid()
      modifies this
      ensures Valid() && Abs(list, entries) == Got(old(Abs(list, entries)), key)
      ensures val == if key in old(Abs(list, entries)).vals then Some(old(Abs(list, entries)).vals[key]) else None
    {
      hide Linked, Erase, ToFront;
      KeyHasCell(list, entries, next, key);
      if key !in entries { return None; }
      var v := entries[key].val;
      FrontCell(list, entries, next, key);
      if entries[key].it != list[0].it {
        MoveToFront(key, v);
      }
      return Some(v);
    }
  }
}
