/** Insertion and deletion in the plain binary search tree (DataStruct/BinarySearchTree.hpp): loops that
    walk down with the parent at hand and then change one link. Nodes live in a store from pointers to
    cells; a ghost shape says how they hang together. */
module BstNodes {
  import opened SortedEntries
  import Search = BinarySearchTree

  type Ptr = nat
  const NULL: Ptr := 0

  datatype Cell<V> = Cell(key: int, val: V, left: Ptr, right: Ptr)

  type Store<V> = map<Ptr, Cell<V>>

  datatype Shape = Nil | At(p: Ptr, left: Shape, right: Shape)

  /** The nodes in order. */
  ghost function Nodes(sh: Shape): seq<Ptr> {
    if sh.Nil? then [] else Nodes(sh.left) + [sh.p] + Nodes(sh.right)
  }

  ghost predicate Distinct(ps: seq<Ptr>) {
    forall i, j :: 0 <= i < j < |ps| ==> ps[i] != ps[j]
  }

  /** The links from `p` on spell out the shape. */
  ghost predicate Laid<V>(s: Store<V>, p: Ptr, sh: Shape)
    decreases sh
  {
    if sh.Nil? then p == NULL
    else p == sh.p && p != NULL && p in s && Laid(s, s[p].left, sh.left) && Laid(s, s[p].right, sh.right)
  }

  ghost predicate AllIn<V>(s: Store<V>, ps: seq<Ptr>) {
    forall i :: 0 <= i < |ps| ==> ps[i] in s
  }

  /** What the nodes hold. */
  ghost function Held<V>(s: Store<V>, ps: seq<Ptr>): (es: seq<Entry<V>>)
    requires AllIn(s, ps)
    ensures |es| == |ps|
  {
    seq(|ps|, i requires 0 <= i < |ps| && ps[i] in s => (s[ps[i]].key, s[ps[i]].val))
  }

  lemma {:induction false} LaidIn<V>(s: Store<V>, p: Ptr, sh: Shape)
    requires Laid(s, p, sh)
    ensures AllIn(s, Nodes(sh)) && NULL !in Nodes(sh)
    decreases sh
  {
    if sh.At? {
      LaidIn(s, s[p].left, sh.left);
      LaidIn(s, s[p].right, sh.right);
    }
  }

  lemma DistinctParts(a: seq<Ptr>, x: Ptr, b: seq<Ptr>)
    requires Distinct(a + [x] + b)
    ensures Distinct(a) && Distinct(b) && x !in a && x !in b && forall y :: y in a ==> y !in b
  {
    var all := a + [x] + b;
    assert forall i :: 0 <= i < |a| ==> all[i] == a[i];
    assert all[|a|] == x;
    assert forall i :: 0 <= i < |b| ==> all[|a| + 1 + i] == b[i];
  }

  ghost predicate SameLinks<V>(s: Store<V>, s': Store<V>, x: Ptr) {
    x in s && x in s' && s'[x].left == s[x].left && s'[x].right == s[x].right
  }

  /** Changes to other nodes' links do not matter. */
  lemma {:induction false} LaidFrame<V>(s: Store<V>, s': Store<V>, p: Ptr, sh: Shape)
    requires Laid(s, p, sh)
    requires forall x {:trigger SameLinks(s, s', x)} :: x in Nodes(sh) ==> SameLinks(s, s', x)
    ensures Laid(s', p, sh)
    decreases sh
  {
    if sh.At? {
      assert SameLinks(s, s', sh.p);
      LaidFrame(s, s', s[p].left, sh.left);
      LaidFrame(s, s', s[p].right, sh.right);
    }
  }

  // ---- A place in the tree ----

  /** `cur` hangs below node `q`, on its left if `side`; its first node is number `lo` in order. */
  ghost predicate Under(sh: Shape, q: Ptr, side: bool, cur: Shape, lo: nat) {
    sh.At? &&
    var n := |Nodes(sh.left)|;
    || (q == sh.p && side && cur == sh.left && lo == 0)
    || (q == sh.p && !side && cur == sh.right && lo == n + 1)
    || Under(sh.left, q, side, cur, lo)
    || (lo > n && Under(sh.right, q, side, cur, lo - n - 1))
  }

  /** The same, where no parent means the root. */
  ghost predicate Place(sh: Shape, q: Ptr, side: bool, cur: Shape, lo: nat) {
    if q == NULL then cur == sh && lo == 0 else Under(sh, q, side, cur, lo)
  }

  lemma GroupLeft(a: seq<Ptr>, c: seq<Ptr>, b: seq<Ptr>, p: Ptr, r: seq<Ptr>)
    ensures a + c + b + [p] + r == a + c + (b + [p] + r)
  {
  }

  lemma GroupRight(l: seq<Ptr>, p: Ptr, a: seq<Ptr>, c: seq<Ptr>, b: seq<Ptr>)
    ensures l + [p] + (a + c + b) == l + [p] + a + c + b
  {
  }

  /** The nodes before the place, and those after it. */
  lemma {:induction false} UnderNodes(sh: Shape, q: Ptr, side: bool, cur: Shape, lo: nat)
    returns (a: seq<Ptr>, b: seq<Ptr>)
    requires Under(sh, q, side, cur, lo)
    ensures |a| == lo && Nodes(sh) == a + Nodes(cur) + b && q in Nodes(sh)
  {
    var l, r, n := Nodes(sh.left), Nodes(sh.right), |Nodes(sh.left)|;
    assert Nodes(sh) == l + [sh.p] + r;
    if q == sh.p && side && cur == sh.left && lo == 0 {
      a, b := [], [sh.p] + r;
    } else if q == sh.p && !side && cur == sh.right && lo == n + 1 {
      a, b := l + [sh.p], [];
    } else if Under(sh.left, q, side, cur, lo) {
      a, b := UnderNodes(sh.left, q, side, cur, lo);
      hide Nodes, Under;
      GroupLeft(a, Nodes(cur), b, sh.p, r);
      b := b + [sh.p] + r;
    } else {
      a, b := UnderNodes(sh.right, q, side, cur, lo - n - 1);
      hide Nodes, Under;
      GroupRight(l, sh.p, a, Nodes(cur), b);
      a := l + [sh.p] + a;
    }
  }

  lemma PlaceNodes(sh: Shape, q: Ptr, side: bool, cur: Shape, lo: nat) returns (a: seq<Ptr>, b: seq<Ptr>)
    requires Place(sh, q, side, cur, lo)
    ensures |a| == lo && Nodes(sh) == a + Nodes(cur) + b
    ensures cur.At? ==> lo + |Nodes(cur.left)| < |Nodes(sh)| && Nodes(sh)[lo + |Nodes(cur.left)|] == cur.p
  {
    a, b := [], [];
    if q != NULL { a, b := UnderNodes(sh, q, side, cur, lo); }
    if cur.At? { assert Nodes(cur)[|Nodes(cur.left)|] == cur.p; }
  }

  lemma {:induction false} UnderDown(sh: Shape, q: Ptr, side: bool, cur: Shape, lo: nat)
    requires Under(sh, q, side, cur, lo) && cur.At?
    ensures Under(sh, cur.p, true, cur.left, lo) && Under(sh, cur.p, false, cur.right, lo + |Nodes(cur.left)| + 1)
  {
    var n := |Nodes(sh.left)|;
    if q == sh.p && side && cur == sh.left && lo == 0 {
    } else if q == sh.p && !side && cur == sh.right && lo == n + 1 {
    } else if Under(sh.left, q, side, cur, lo) {
      UnderDown(sh.left, q, side, cur, lo);
    } else {
      UnderDown(sh.right, q, side, cur, lo - n - 1);
    }
  }

  /** One step down. */
  lemma PlaceDown(sh: Shape, q: Ptr, side: bool, cur: Shape, lo: nat)
    requires Place(sh, q, side, cur, lo) && cur.At? && cur.p != NULL
    ensures Place(sh, cur.p, true, cur.left, lo) && Place(sh, cur.p, false, cur.right, lo + |Nodes(cur.left)| + 1)
  {
    if q != NULL { UnderDown(sh, q, side, cur, lo); }
  }

  /** The parent's link leads to the place. */
  lemma {:induction false} UnderLaid<V>(s: Store<V>, p: Ptr, sh: Shape, q: Ptr, side: bool, cur: Shape, lo: nat)
    requires Laid(s, p, sh) && Under(sh, q, side, cur, lo)
    ensures q in s && Laid(s, if side then s[q].left else s[q].right, cur)
    decreases sh
  {
    var n := |Nodes(sh.left)|;
    if Under(sh.left, q, side, cur, lo) {
      UnderLaid(s, s[p].left, sh.left, q, side, cur, lo);
    } else if lo > n && Under(sh.right, q, side, cur, lo - n - 1) {
      UnderLaid(s, s[p].right, sh.right, q, side, cur, lo - n - 1);
    }
  }

  // ---- Putting something else there ----

  ghost function Replace(sh: Shape, q: Ptr, side: bool, new': Shape): Shape {
    if sh.Nil? then Nil
    else if sh.p == q then if side then At(q, new', sh.right) else At(q, sh.left, new')
    else At(sh.p, Replace(sh.left, q, side, new'), Replace(sh.right, q, side, new'))
  }

  lemma {:induction false} ReplaceAbsent(sh: Shape, q: Ptr, side: bool, new': Shape)
    requires q !in Nodes(sh)
    ensures Replace(sh, q, side, new') == sh
  {
    if sh.At? {
      ReplaceAbsent(sh.left, q, side, new');
      ReplaceAbsent(sh.right, q, side, new');
    }
  }

  lemma {:induction false} ReplaceNodes(sh: Shape, q: Ptr, side: bool, cur: Shape, lo: nat, new': Shape)
    returns (a: seq<Ptr>, b: seq<Ptr>)
    requires Under(sh, q, side, cur, lo) && Distinct(Nodes(sh))
    ensures |a| == lo && Nodes(sh) == a + Nodes(cur) + b && Nodes(Replace(sh, q, side, new')) == a + Nodes(new') + b
  {
    var l, r, n := Nodes(sh.left), Nodes(sh.right), |Nodes(sh.left)|;
    assert Nodes(sh) == l + [sh.p] + r;
    hide Nodes, Replace, Distinct;
    DistinctParts(l, sh.p, r);
    if q == sh.p {
      AtParent(sh, q, side, cur, lo);
      hide Under;
      a, b := ReplaceAtTop(sh, side, cur, new');
    } else if Under(sh.left, q, side, cur, lo) {
      hide Under;
      var c, d := UnderNodes(sh.left, q, side, cur, lo);
      a, b := ReplaceNodes(sh.left, q, side, cur, lo, new');
      ReplaceInLeft(sh, q, side, cur, new', a, b);
      b := b + [sh.p] + r;
    } else {
      assert lo > n && Under(sh.right, q, side, cur, lo - n - 1);
      hide Under;
      var c, d := UnderNodes(sh.right, q, side, cur, lo - n - 1);
      a, b := ReplaceNodes(sh.right, q, side, cur, lo - n - 1, new');
      ReplaceInRight(sh, q, side, cur, new', a, b);
      a := l + [sh.p] + a;
    }
  }

  lemma ReplaceAtTop(sh: Shape, side: bool, cur: Shape, new': Shape) returns (a: seq<Ptr>, b: seq<Ptr>)
    requires sh.At? && cur == if side then sh.left else sh.right
    ensures |a| == (if side then 0 else |Nodes(sh.left)| + 1) && Nodes(sh) == a + Nodes(cur) + b
    ensures Nodes(Replace(sh, sh.p, side, new')) == a + Nodes(new') + b
  {
    var l, r := Nodes(sh.left), Nodes(sh.right);
    ReplaceHere(sh, side, new');
    assert Nodes(sh) == l + [sh.p] + r;
    hide Nodes, Replace;
    if side {
      a, b := [], [sh.p] + r;
      assert l + [sh.p] + r == [] + l + ([sh.p] + r);
    } else {
      a, b := l + [sh.p], [];
    }
  }

  lemma ReplaceInLeft(sh: Shape, q: Ptr, side: bool, cur: Shape, new': Shape, a: seq<Ptr>, b: seq<Ptr>)
    requires sh.At? && sh.p != q && q !in Nodes(sh.right)
    requires Nodes(sh.left) == a + Nodes(cur) + b && Nodes(Replace(sh.left, q, side, new')) == a + Nodes(new') + b
    ensures var c := b + [sh.p] + Nodes(sh.right);
      Nodes(sh) == a + Nodes(cur) + c && Nodes(Replace(sh, q, side, new')) == a + Nodes(new') + c
  {
    ReplacedLeft(sh, q, side, new');
    hide Nodes, Replace;
    ReplaceAbsent(sh.right, q, side, new');
    GroupLeft(a, Nodes(cur), b, sh.p, Nodes(sh.right));
    GroupLeft(a, Nodes(new'), b, sh.p, Nodes(sh.right));
  }

  lemma ReplaceInRight(sh: Shape, q: Ptr, side: bool, cur: Shape, new': Shape, a: seq<Ptr>, b: seq<Ptr>)
    requires sh.At? && sh.p != q && q !in Nodes(sh.left)
    requires Nodes(sh.right) == a + Nodes(cur) + b && Nodes(Replace(sh.right, q, side, new')) == a + Nodes(new') + b
    ensures var c := Nodes(sh.left) + [sh.p] + a;
      Nodes(sh) == c + Nodes(cur) + b && Nodes(Replace(sh, q, side, new')) == c + Nodes(new') + b
  {
    ReplacedLeft(sh, q, side, new');
    hide Nodes, Replace;
    ReplaceAbsent(sh.left, q, side, new');
    GroupRight(Nodes(sh.left), sh.p, a, Nodes(cur), b);
    GroupRight(Nodes(sh.left), sh.p, a, Nodes(new'), b);
  }

  lemma ReplaceHere(sh: Shape, side: bool, new': Shape)
    requires sh.At?
    ensures Nodes(Replace(sh, sh.p, side, new'))
         == if side then [] + Nodes(new') + ([sh.p] + Nodes(sh.right)) else Nodes(sh.left) + [sh.p] + Nodes(new') + []
  {
    var t := Replace(sh, sh.p, side, new');
    assert t == if side then At(sh.p, new', sh.right) else At(sh.p, sh.left, new');
    assert Nodes(t) == Nodes(t.left) + [sh.p] + Nodes(t.right);
  }

  lemma ReplacedLeft(sh: Shape, q: Ptr, side: bool, new': Shape)
    requires sh.At? && sh.p != q
    ensures Nodes(Replace(sh, q, side, new'))
        == Nodes(Replace(sh.left, q, side, new')) + [sh.p] + Nodes(Replace(sh.right, q, side, new'))
    ensures Nodes(sh) == Nodes(sh.left) + [sh.p] + Nodes(sh.right)
  {
  }

  /** In a tree without repeated nodes, the place below the root node is one of its children. */
  lemma AtParent(sh: Shape, q: Ptr, side: bool, cur: Shape, lo: nat)
    requires Under(sh, q, side, cur, lo) && q == sh.p && q !in Nodes(sh.left) && q !in Nodes(sh.right)
    ensures if side then cur == sh.left && lo == 0 else cur == sh.right && lo == |Nodes(sh.left)| + 1
  {
    if Under(sh.left, q, side, cur, lo) {
      var a, b := UnderNodes(sh.left, q, side, cur, lo);
    } else if lo > |Nodes(sh.left)| && Under(sh.right, q, side, cur, lo - |Nodes(sh.left)| - 1) {
      var a, b := UnderNodes(sh.right, q, side, cur, lo - |Nodes(sh.left)| - 1);
    }
  }

  /** The store after the change: one link of `q` leads to `n`, and other nodes, save those of the part
      replaced, keep their links. */
  ghost predicate Relinks<V>(s: Store<V>, s': Store<V>, ps: seq<Ptr>, q: Ptr, side: bool, cur: Shape, n: Ptr) {
    && (q in ps ==> NewLink(s, s', q, side, n))
    && forall x {:trigger SameLinks(s, s', x)} :: x in ps && x != q && x !in Nodes(cur) ==> SameLinks(s, s', x)
  }

  ghost predicate NewLink<V>(s: Store<V>, s': Store<V>, q: Ptr, side: bool, n: Ptr) {
    q in s && q in s' && s'[q].left == (if side then n else s[q].left) && s'[q].right == if side then s[q].right else n
  }

  lemma RelinksPart<V>(s: Store<V>, s': Store<V>, ps: seq<Ptr>, part: seq<Ptr>, q: Ptr, side: bool, cur: Shape, n: Ptr)
    requires Relinks(s, s', ps, q, side, cur, n) && forall x :: x in part ==> x in ps
    ensures Relinks(s, s', part, q, side, cur, n)
    ensures q !in part && (forall x :: x in part ==> x !in Nodes(cur)) ==>
        forall x {:trigger SameLinks(s, s', x)} :: x in part ==> SameLinks(s, s', x)
  {
  }

  lemma {:induction false} Relinked<V>(s: Store<V>, s': Store<V>, p: Ptr, sh: Shape, q: Ptr, side: bool, cur: Shape,
                                       lo: nat, n: Ptr, new': Shape)
    requires Laid(s, p, sh) && Distinct(Nodes(sh)) && Under(sh, q, side, cur, lo)
    requires Relinks(s, s', Nodes(sh), q, side, cur, n) && Laid(s', n, new')
    ensures Laid(s', p, Replace(sh, q, side, new'))
    decreases sh
  {
    var l, r, m := Nodes(sh.left), Nodes(sh.right), |Nodes(sh.left)|;
    assert Nodes(sh) == l + [sh.p] + r;
    DistinctParts(l, sh.p, r);
    hide Distinct, Relinks;
    RelinksPart(s, s', Nodes(sh), l, q, side, cur, n);
    RelinksPart(s, s', Nodes(sh), r, q, side, cur, n);
    RelinksPart(s, s', Nodes(sh), [sh.p], q, side, cur, n);
    if q == sh.p {
      AtParent(sh, q, side, cur, lo);
      RootRelinked(s, s', p, sh, side, cur, n, new');
    } else if Under(sh.left, q, side, cur, lo) {
      var a, b := UnderNodes(sh.left, q, side, cur, lo);
      hide Under, Nodes;
      assert forall x :: x in Nodes(cur) ==> x in l;
      Relinked(s, s', s[p].left, sh.left, q, side, cur, lo, n, new');
      ReplaceAbsent(sh.right, q, side, new');
      LaidFrame(s, s', s[p].right, sh.right);
      assert SameLinks(s, s', sh.p) by { OneRelinked(s, s', sh.p, q, side, cur, n); }
    } else {
      var a, b := UnderNodes(sh.right, q, side, cur, lo - m - 1);
      hide Under, Nodes;
      assert forall x :: x in Nodes(cur) ==> x in r;
      Relinked(s, s', s[p].right, sh.right, q, side, cur, lo - m - 1, n, new');
      ReplaceAbsent(sh.left, q, side, new');
      LaidFrame(s, s', s[p].left, sh.left);
      assert SameLinks(s, s', sh.p) by { OneRelinked(s, s', sh.p, q, side, cur, n); }
    }
  }

  lemma OneRelinked<V>(s: Store<V>, s': Store<V>, x: Ptr, q: Ptr, side: bool, cur: Shape, n: Ptr)
    requires Relinks(s, s', [x], q, side, cur, n) && x != q && x !in Nodes(cur)
    ensures SameLinks(s, s', x)
  {
    assert x in [x];
  }

  lemma RootRelinked<V>(s: Store<V>, s': Store<V>, p: Ptr, sh: Shape, side: bool, cur: Shape, n: Ptr, new': Shape)
    requires sh.At? && Laid(s, p, sh) && cur == (if side then sh.left else sh.right) && Laid(s', n, new')
    requires Distinct(Nodes(sh))
    requires Relinks(s, s', Nodes(sh), sh.p, side, cur, n)
    ensures Laid(s', p, Replace(sh, sh.p, side, new'))
  {
    var l, r := Nodes(sh.left), Nodes(sh.right);
    DistinctParts(l, sh.p, r);
    RelinksPart(s, s', Nodes(sh), l, sh.p, side, cur, n);
    RelinksPart(s, s', Nodes(sh), r, sh.p, side, cur, n);
    hide Distinct;
    assert sh.p in Nodes(sh) && NewLink(s, s', sh.p, side, n);
    hide Relinks, Nodes;
    if side { LaidFrame(s, s', s[p].right, sh.right); } else { LaidFrame(s, s', s[p].left, sh.left); }
  }

  // ---- The walk down ----

  /** The keys before number `lo` are smaller than `key`, those from number `hi` on larger. */
  ghost predicate Between<V>(es: seq<Entry<V>>, lo: int, hi: int, key: int) {
    (forall i :: 0 <= i < lo && i < |es| ==> es[i].0 < key) && (forall i :: 0 <= i && hi <= i < |es| ==> key < es[i].0)
  }

  lemma Narrow<V>(es: seq<Entry<V>>, lo: int, hi: int, m: int, key: int)
    requires Sorted(es) && Between(es, lo, hi, key) && 0 <= m < |es|
    ensures key > es[m].0 ==> Between(es, m + 1, hi, key)
    ensures key < es[m].0 ==> Between(es, lo, m, key)
  {
  }

  /** One turn of a walk towards `key`. */
  lemma StepDown<V>(s: Store<V>, sh: Shape, q: Ptr, side: bool, cur: Shape, lo: nat, key: int) returns (m: nat)
    requires Place(sh, q, side, cur, lo) && cur.At? && Laid(s, cur.p, cur)
    requires AllIn(s, Nodes(sh)) && Sorted(Held(s, Nodes(sh)))
    requires Between(Held(s, Nodes(sh)), lo, lo + |Nodes(cur)|, key)
    ensures m == lo + |Nodes(cur.left)| && m < |Held(s, Nodes(sh))| && Nodes(sh)[m] == cur.p
    ensures Held(s, Nodes(sh))[m].0 == s[cur.p].key
    ensures Place(sh, cur.p, true, cur.left, lo) && Place(sh, cur.p, false, cur.right, m + 1)
    ensures key > s[cur.p].key ==> Between(Held(s, Nodes(sh)), m + 1, m + 1 + |Nodes(cur.right)|, key)
    ensures key < s[cur.p].key ==> Between(Held(s, Nodes(sh)), lo, m, key)
  {
    var a, b := PlaceNodes(sh, q, side, cur, lo);
    PlaceDown(sh, q, side, cur, lo);
    m := lo + |Nodes(cur.left)|;
    var es := Held(s, Nodes(sh));
    assert lo + |Nodes(cur)| == m + 1 + |Nodes(cur.right)|;
    hide Place, Laid, Sorted, Between;
    Narrow(es, lo, lo + |Nodes(cur)|, m, key);
  }

  /** At the end of an unsuccessful walk. */
  lemma NotThere<V>(es: seq<Entry<V>>, lo: nat, key: int)
    requires Between(es, lo, lo, key)
    ensures key !in ToMap(es)
  {
    ToMapKeys(es, key);
  }

  lemma There<V>(es: seq<Entry<V>>, m: nat, key: int)
    requires m < |es| && es[m].0 == key
    ensures key in ToMap(es)
  {
    ToMapKeys(es, key);
  }

  // ---- What the two operations mean on the entries ----

  lemma PutMid<V>(a: seq<Entry<V>>, b: seq<Entry<V>>, key: int, val: V)
    requires Between(a + b, |a|, |a|, key)
    ensures Put(a + b, key, val) == a + [(key, val)] + b
  {
    var es := a + b;
    assert forall i :: 0 <= i < |a| ==> es[i] == a[i];
    PutRight(a, b, key, val);
    if b != [] { assert es[|a|] == b[0]; }
    assert Put(b, key, val) == [(key, val)] + b;
  }

  lemma WithoutMid<V>(es: seq<Entry<V>>, m: nat)
    requires Sorted(es) && m < |es|
    ensures Without(es, es[m].0) == es[..m] + es[m + 1..]
  {
    hide Sorted, Without;
    assert es == es[..m] + [es[m]] + es[m + 1..];
    WithoutInThree(es[..m], es[m], es[m + 1..], es[m].0);
  }

  ghost predicate SameEntry<V>(s: Store<V>, s': Store<V>, x: Ptr) {
    x in s && x in s' && s'[x].key == s[x].key && s'[x].val == s[x].val
  }

  lemma HeldConcat<V>(s: Store<V>, a: seq<Ptr>, b: seq<Ptr>)
    requires AllIn(s, a) && AllIn(s, b)
    ensures AllIn(s, a + b) && Held(s, a + b) == Held(s, a) + Held(s, b)
  {
  }

  lemma HeldSplit<V>(s: Store<V>, a: seq<Ptr>, b: seq<Ptr>)
    requires AllIn(s, a + b)
    ensures AllIn(s, a) && AllIn(s, b) && Held(s, a + b) == Held(s, a) + Held(s, b)
  {
    var ps := a + b;
    assert forall i :: 0 <= i < |a| ==> ps[i] == a[i];
    assert forall i :: 0 <= i < |b| ==> ps[|a| + i] == b[i];
  }

  lemma HeldSame<V>(s: Store<V>, s': Store<V>, ps: seq<Ptr>)
    requires AllIn(s, ps) && forall x {:trigger SameEntry(s, s', x)} :: x in ps ==> SameEntry(s, s', x)
    ensures AllIn(s', ps) && Held(s', ps) == Held(s, ps)
  {
    assert forall i :: 0 <= i < |ps| ==> SameEntry(s, s', ps[i]);
  }

  lemma HeldInsert<V>(s: Store<V>, s': Store<V>, a: seq<Ptr>, b: seq<Ptr>, n: Ptr)
    requires AllIn(s, a + b) && n in s' && forall x {:trigger SameEntry(s, s', x)} :: x in a + b ==> SameEntry(s, s', x)
    ensures AllIn(s', a + [n] + b) && AllIn(s, a) && AllIn(s, b) && Held(s, a + b) == Held(s, a) + Held(s, b)
    ensures Held(s', a + [n] + b) == Held(s, a) + [(s'[n].key, s'[n].val)] + Held(s, b)
  {
    HeldSplit(s, a, b);
    HeldSame(s, s', a);
    HeldSame(s, s', b);
    assert AllIn(s', [n]) && Held(s', [n]) == [(s'[n].key, s'[n].val)];
    hide AllIn, Held;
    HeldConcat(s', a, [n]);
    HeldConcat(s', a + [n], b);
  }

  lemma DistinctInsert(a: seq<Ptr>, b: seq<Ptr>, n: Ptr)
    requires Distinct(a + b) && n !in a && n !in b
    ensures Distinct(a + [n] + b)
  {
    var ps, all := a + b, a + [n] + b;
    forall i, j | 0 <= i < j < |all| ensures all[i] != all[j] {
      var i', j' := if i > |a| then i - 1 else i, if j > |a| then j - 1 else j;
      assert i == |a| || all[i] == ps[i'];
      assert j == |a| || all[j] == ps[j'];
    }
  }

  lemma DistinctRemove(ps: seq<Ptr>, m: nat)
    requires Distinct(ps) && m < |ps|
    ensures Distinct(ps[..m] + ps[m + 1..])
    ensures forall x :: x in ps[..m] + ps[m + 1..] <==> x in ps && x != ps[m]
  {
    var a, b := ps[..m], ps[m + 1..];
    assert ps == a + [ps[m]] + b;
    DistinctParts(a, ps[m], b);
    DistinctApart(a, b);
    hide Distinct;
    assert forall x :: x in ps <==> x in a || x == ps[m] || x in b;
  }

  lemma DistinctApart(a: seq<Ptr>, b: seq<Ptr>)
    requires Distinct(a) && Distinct(b) && forall x :: x in a ==> x !in b
    ensures Distinct(a + b)
  {
    var all := a + b;
    forall i, j | 0 <= i < j < |all| ensures all[i] != all[j] {
      if i < |a| <= j { assert all[i] in a && all[j] in b; }
    }
  }

  // ---- One link changed ----

  /** Neither the parent nor the root is below the place. */
  lemma {:induction false} UnderApart(sh: Shape, q: Ptr, side: bool, cur: Shape, lo: nat)
    requires Under(sh, q, side, cur, lo) && Distinct(Nodes(sh))
    ensures q !in Nodes(cur) && sh.p !in Nodes(cur)
  {
    var l, r, n := Nodes(sh.left), Nodes(sh.right), |Nodes(sh.left)|;
    assert Nodes(sh) == l + [sh.p] + r;
    hide Nodes, Distinct;
    DistinctParts(l, sh.p, r);
    if Under(sh.left, q, side, cur, lo) {
      hide Under;
      UnderApart(sh.left, q, side, cur, lo);
      var a, b := UnderNodes(sh.left, q, side, cur, lo);
      assert forall x :: x in Nodes(cur) ==> x in l;
    } else if lo > n && Under(sh.right, q, side, cur, lo - n - 1) {
      hide Under;
      UnderApart(sh.right, q, side, cur, lo - n - 1);
      var a, b := UnderNodes(sh.right, q, side, cur, lo - n - 1);
      assert forall x :: x in Nodes(cur) ==> x in r;
    }
  }

  /** The parent's left link tells which side the place is on. */
  lemma {:induction false} UnderSide<V>(s: Store<V>, p: Ptr, sh: Shape, q: Ptr, side: bool, cur: Shape, lo: nat)
    requires Laid(s, p, sh) && Distinct(Nodes(sh)) && Under(sh, q, side, cur, lo) && cur.At?
    ensures q in s && (s[q].left == cur.p <==> side)
    decreases sh
  {
    var l, r, n := Nodes(sh.left), Nodes(sh.right), |Nodes(sh.left)|;
    assert Nodes(sh) == l + [sh.p] + r;
    DistinctParts(l, sh.p, r);
    if Under(sh.left, q, side, cur, lo) {
      hide Under, Distinct, Nodes;
      UnderSide(s, s[p].left, sh.left, q, side, cur, lo);
    } else if lo > n && Under(sh.right, q, side, cur, lo - n - 1) {
      hide Under, Distinct, Nodes;
      UnderSide(s, s[p].right, sh.right, q, side, cur, lo - n - 1);
    } else {
      hide Distinct;
      assert cur.p in Nodes(cur);
      LaidIn(s, s[p].right, sh.right);
      assert sh.left.At? ==> sh.left.p in l;
    }
  }

  lemma LeafLaid<V>(s: Store<V>, n: Ptr)
    requires n != NULL && n in s && s[n].left == s[n].right == NULL
    ensures Laid(s, n, At(n, Nil, Nil)) && Nodes(At(n, Nil, Nil)) == [n] && Nodes(Nil) == []
  {
    assert Laid(s, s[n].left, Nil) && Laid(s, s[n].right, Nil);
  }

  /** A new leaf in an empty place. */
  lemma Grown<V>(s: Store<V>, s': Store<V>, p: Ptr, sh: Shape, q: Ptr, side: bool, lo: nat, n: Ptr)
    returns (sh': Shape, a: seq<Ptr>, b: seq<Ptr>)
    requires Laid(s, p, sh) && Distinct(Nodes(sh)) && Place(sh, q, side, Nil, lo) && n !in Nodes(sh)
    requires n != NULL && n in s' && s'[n].left == s'[n].right == NULL
    requires q != NULL ==> Relinks(s, s', Nodes(sh), q, side, Nil, n)
    ensures Laid(s', if q == NULL then n else p, sh') && Distinct(Nodes(sh'))
    ensures |a| == lo && Nodes(sh) == a + b && Nodes(sh') == a + [n] + b
  {
    var leaf := At(n, Nil, Nil);
    LeafLaid(s', n);
    if q == NULL {
      sh', a, b := leaf, [], [];
      assert Nodes(sh) == [];
    } else {
      hide Nodes, Laid;
      sh' := Replace(sh, q, side, leaf);
      a, b := ReplaceNodes(sh, q, side, Nil, lo, leaf);
      assert a + [] + b == a + b;
      Relinked(s, s', p, sh, q, side, Nil, lo, n, leaf);
    }
    DistinctInsert(a, b, n);
  }

  /** The only child, if any. */
  ghost function ChildOf(cur: Shape): Shape
    requires cur.At?
  {
    if cur.left.At? then cur.left else cur.right
  }

  /** A node with at most one child gives its place to that child. */
  lemma Shrunk<V>(s: Store<V>, s': Store<V>, p: Ptr, sh: Shape, q: Ptr, side: bool, cur: Shape, lo: nat, n: Ptr)
    returns (sh': Shape, m: nat)
    requires Laid(s, p, sh) && Distinct(Nodes(sh)) && Place(sh, q, side, cur, lo)
    requires cur.At? && (cur.left.Nil? || cur.right.Nil?) && Laid(s, n, ChildOf(cur))
    requires q != NULL ==> Relinks(s, s', Nodes(sh), q, side, cur, n)
    requires forall x {:trigger SameLinks(s, s', x)} :: x in Nodes(ChildOf(cur)) ==> SameLinks(s, s', x)
    ensures Laid(s', if q == NULL then n else p, sh')
    ensures m == lo + |Nodes(cur.left)| && WithoutNumber(Nodes(sh), Nodes(sh'), m)
  {
    hide Nodes, Laid, ChildOf, Distinct, Relinks, Under, WithoutNumber, Replace, SameLinks;
    var ch, x := ChildOf(cur), |Nodes(cur.left)|;
    ChildNodes(cur);
    m := lo + x;
    LaidFrame(s, s', n, ch);
    if q == NULL {
      sh' := ch;
    } else {
      sh' := Replace(sh, q, side, ch);
      var a, b := ReplaceNodes(sh, q, side, cur, lo, ch);
      Relinked(s, s', p, sh, q, side, cur, lo, n, ch);
      WithoutInPart(a, Nodes(cur), Nodes(ch), b, x);
    }
  }

  ghost predicate WithoutNumber(ps: seq<Ptr>, ps': seq<Ptr>, m: nat) {
    m < |ps| && ps' == ps[..m] + ps[m + 1..]
  }

  lemma ChildNodes(cur: Shape)
    requires cur.At? && (cur.left.Nil? || cur.right.Nil?)
    ensures WithoutNumber(Nodes(cur), Nodes(ChildOf(cur)), |Nodes(cur.left)|)
  {
  }

  lemma WithoutInPart(a: seq<Ptr>, c: seq<Ptr>, c': seq<Ptr>, b: seq<Ptr>, x: nat)
    requires WithoutNumber(c, c', x)
    ensures WithoutNumber(a + c + b, a + c' + b, |a| + x)
  {
  }

  // ---- The whole change ----

  /** The store holds these nodes and no others. */
  ghost predicate Exact<V>(s: Store<V>, ps: seq<Ptr>) {
    forall x :: x in s <==> x in ps
  }

  lemma ExactIn<V>(s: Store<V>, ps: seq<Ptr>)
    requires Exact(s, ps)
    ensures AllIn(s, ps)
  {
  }

  /** A new leaf `n` was made and hung on `q`, if there is one. */
  ghost predicate Hung<V>(s: Store<V>, s': Store<V>, q: Ptr, side: bool, n: Ptr) {
    && s'.Keys == s.Keys + {n} && s'[n].left == s'[n].right == NULL
    && (q != NULL ==> NewLink(s, s', q, side, n))
    && (forall x {:trigger SameEntry(s, s', x)} :: x in s ==> SameEntry(s, s', x))
    && (forall x {:trigger SameLinks(s, s', x)} :: x in s && x != q ==> SameLinks(s, s', x))
  }

  lemma Inserted<V>(s: Store<V>, s': Store<V>, p: Ptr, sh: Shape, q: Ptr, side: bool, lo: nat, n: Ptr)
    returns (sh': Shape)
    requires Laid(s, p, sh) && Distinct(Nodes(sh)) && Exact(s, Nodes(sh)) && AllIn(s, Nodes(sh))
    requires Place(sh, q, side, Nil, lo)
    requires n != NULL && n !in s && Hung(s, s', q, side, n)
    requires Sorted(Held(s, Nodes(sh))) && Between(Held(s, Nodes(sh)), lo, lo, s'[n].key)
    ensures Laid(s', if q == NULL then n else p, sh') && Distinct(Nodes(sh')) && Exact(s', Nodes(sh'))
    ensures AllIn(s', Nodes(sh'))
    ensures Held(s', Nodes(sh')) == Put(Held(s, Nodes(sh)), s'[n].key, s'[n].val) && |Nodes(sh')| == |Nodes(sh)| + 1
  {
    hide Laid, Nodes, Place, Distinct, Sorted, Between, Put, Held;
    var ps := Nodes(sh);
    HungRelinks(s, s', ps, q, side, n);
    var a, b;
    sh', a, b := Grown(s, s', p, sh, q, side, lo, n);
    hide NewLink, SameLinks;
    HeldInsert(s, s', a, b, n);
    PutMid(Held(s, a), Held(s, b), s'[n].key, s'[n].val);
    hide Hung;
    assert forall x :: x in Nodes(sh') <==> x in ps || x == n;
  }

  lemma HungRelinks<V>(s: Store<V>, s': Store<V>, ps: seq<Ptr>, q: Ptr, side: bool, n: Ptr)
    requires Exact(s, ps) && Hung(s, s', q, side, n)
    ensures q != NULL ==> Relinks(s, s', ps, q, side, Nil, n)
  {
  }

  /** Node `d` was unlinked from `q`, if there is one, and freed. */
  ghost predicate Cut<V>(s: Store<V>, s': Store<V>, q: Ptr, side: bool, d: Ptr, n: Ptr) {
    && s'.Keys == s.Keys - {d}
    && (q != NULL ==> NewLink(s, s', q, side, n))
    && (forall x {:trigger SameEntry(s, s', x)} :: x in s' ==> SameEntry(s, s', x))
    && (forall x {:trigger SameLinks(s, s', x)} :: x in s' && x != q ==> SameLinks(s, s', x))
  }

  /** What the code can see of a place with a node in it. */
  lemma PlaceSeen<V>(s: Store<V>, p: Ptr, sh: Shape, q: Ptr, side: bool, cur: Shape, lo: nat)
    requires Laid(s, p, sh) && Distinct(Nodes(sh)) && Place(sh, q, side, cur, lo) && cur.At?
    ensures (q == NULL <==> cur.p == p) && Laid(s, cur.p, cur) && q !in Nodes(cur)
    ensures q != NULL ==> q in s && (s[q].left == cur.p <==> side)
  {
    if q == NULL {
      LaidIn(s, p, sh);
    } else {
      assert cur.p in Nodes(cur) && sh.p == p;
      hide Nodes, Distinct, Under;
      UnderApart(sh, q, side, cur, lo);
      UnderSide(s, p, sh, q, side, cur, lo);
      UnderLaid(s, p, sh, q, side, cur, lo);
    }
  }

  lemma CutRelinks<V>(s: Store<V>, s': Store<V>, ps: seq<Ptr>, q: Ptr, side: bool, cur: Shape, n: Ptr)
    requires Exact(s, ps) && cur.At? && Cut(s, s', q, side, cur.p, n)
    ensures q != NULL ==> Relinks(s, s', ps, q, side, cur, n)
  {
  }

  lemma Removed<V>(s: Store<V>, s': Store<V>, p: Ptr, sh: Shape, q: Ptr, side: bool, cur: Shape, lo: nat, n: Ptr)
    returns (sh': Shape, m: nat)
    requires Laid(s, p, sh) && Distinct(Nodes(sh)) && Exact(s, Nodes(sh)) && Place(sh, q, side, cur, lo)
    requires cur.At? && (cur.left.Nil? || cur.right.Nil?) && Laid(s, n, ChildOf(cur)) && Cut(s, s', q, side, cur.p, n)
    requires q !in Nodes(cur)
    ensures Laid(s', if q == NULL then n else p, sh') && Distinct(Nodes(sh')) && Exact(s', Nodes(sh'))
    ensures m == lo + |Nodes(cur.left)| && WithoutNumber(Nodes(sh), Nodes(sh'), m) && Nodes(sh)[m] == cur.p
  {
    hide Laid, Nodes, Distinct, ChildOf, Place, Relinks, SameLinks, NewLink, Under, SameEntry;
    var ps := Nodes(sh);
    ChildKept(s, s', sh, q, side, cur, lo, n);
    var a, b := PlaceNodes(sh, q, side, cur, lo);
    CutRelinks(s, s', ps, q, side, cur, n);
    sh', m := Shrunk(s, s', p, sh, q, side, cur, lo, n);
    DistinctRemove(ps, m);
    var d := cur.p;
    assert ps[m] == d && s'.Keys == s.Keys - {d};
    ExactWithout(s, s', ps, Nodes(sh'), d);
  }

  lemma ExactWithout<V>(s: Store<V>, s': Store<V>, ps: seq<Ptr>, ps': seq<Ptr>, d: Ptr)
    requires Exact(s, ps) && s'.Keys == s.Keys - {d} && forall x :: x in ps' <==> x in ps && x != d
    ensures Exact(s', ps')
  {
  }

  lemma ChildApart(sh: Shape, q: Ptr, side: bool, cur: Shape, lo: nat)
    requires Distinct(Nodes(sh)) && Place(sh, q, side, cur, lo) && cur.At?
    ensures forall x :: x in Nodes(ChildOf(cur)) ==> x in Nodes(sh) && x in Nodes(cur) && x != cur.p
  {
    var l, r, c, ps := Nodes(cur.left), Nodes(cur.right), Nodes(cur), Nodes(sh);
    assert c == l + [cur.p] + r;
    hide Nodes, Under, Distinct;
    var a, b := PlaceNodes(sh, q, side, cur, lo);
    hide Place;
    assert ps == (a + l) + [cur.p] + (r + b);
    DistinctParts(a + l, cur.p, r + b);
  }

  lemma ChildKept<V>(s: Store<V>, s': Store<V>, sh: Shape, q: Ptr, side: bool, cur: Shape, lo: nat, n: Ptr)
    requires Distinct(Nodes(sh)) && Exact(s, Nodes(sh)) && Place(sh, q, side, cur, lo) && cur.At?
    requires Cut(s, s', q, side, cur.p, n) && q !in Nodes(cur)
    ensures forall x {:trigger SameLinks(s, s', x)} :: x in Nodes(ChildOf(cur)) ==> SameLinks(s, s', x)
  {
    hide Nodes, Under, Distinct, Place, ChildOf;
    ChildApart(sh, q, side, cur, lo);
  }

  /** Number `m` taken away, on the entries. */
  lemma HeldRemove<V>(s: Store<V>, s': Store<V>, ps: seq<Ptr>, ps': seq<Ptr>, m: nat)
    requires AllIn(s, ps) && WithoutNumber(ps, ps', m)
    requires forall x {:trigger SameEntry(s, s', x)} :: x in ps' ==> SameEntry(s, s', x)
    ensures AllIn(s', ps') && Held(s', ps') == Held(s, ps)[..m] + Held(s, ps)[m + 1..]
  {
    forall i | 0 <= i < |ps'| ensures SameEntry(s, s', ps'[i]) && ps'[i] == ps[if i < m then i else i + 1] {
      assert ps'[i] in ps';
    }
  }

  /** The contents of numbers `m - 1` and `m` swapped. */
  lemma HeldSwap<V>(s: Store<V>, s': Store<V>, ps: seq<Ptr>, m: nat)
    requires AllIn(s, ps) && Distinct(ps) && 0 < m < |ps| && s'.Keys == s.Keys
    requires forall x :: x in s && x != ps[m - 1] && x != ps[m] ==> s'[x] == s[x]
    requires s'[ps[m]].key == s[ps[m - 1]].key && s'[ps[m]].val == s[ps[m - 1]].val
    requires s'[ps[m - 1]].key == s[ps[m]].key && s'[ps[m - 1]].val == s[ps[m]].val
    ensures AllIn(s', ps)
    ensures Held(s', ps)[..m - 1] + Held(s', ps)[m..] == Held(s, ps)[..m] + Held(s, ps)[m + 1..]
  {
    var es, es' := Held(s, ps), Held(s', ps);
    assert forall i :: 0 <= i < |ps| && i != m - 1 && i != m ==> es'[i] == es[i];
    assert es'[m] == es[m - 1];
  }

  /** One list without number `m - 1` is the other without number `m`. */
  ghost predicate OneLess<V>(es: seq<Entry<V>>, es0: seq<Entry<V>>, m: nat) {
    0 < m < |es| && m < |es0| && es[..m - 1] + es[m..] == es0[..m] + es0[m + 1..]
  }

  lemma SwapTraced<V>(s: Store<V>, s': Store<V>, p: Ptr, sh: Shape, m: nat, c: Ptr, t: Ptr)
    requires Laid(s, p, sh) && Distinct(Nodes(sh)) && Exact(s, Nodes(sh)) && AllIn(s, Nodes(sh))
    requires 0 < m < |Nodes(sh)| && Nodes(sh)[m] == c && Nodes(sh)[m - 1] == t && c in s && t in s && c != t
    requires s' == s[t := s[t].(key := s[c].key, val := s[c].val)][c := s[c].(key := s[t].key, val := s[t].val)]
    ensures Laid(s', p, sh) && Exact(s', Nodes(sh)) && AllIn(s', Nodes(sh))
    ensures OneLess(Held(s', Nodes(sh)), Held(s, Nodes(sh)), m)
  {
    hide Laid, Nodes, Distinct, Held, AllIn;
    HeldSwap(s, s', Nodes(sh), m);
    LaidFrame(s, s', p, sh);
  }

  class BinarySearchTree<V> {
    var store: Store<V>
    var root: Ptr
    var size: int
    var next: Ptr
    ghost var shape: Shape

    /** The links make up a tree, and the store holds its nodes and no others. */
    ghost predicate Linked()
      reads this
    {
      && Laid(store, root, shape) && Distinct(Nodes(shape)) && Exact(store, Nodes(shape)) && AllIn(store, Nodes(shape))
      && size == |Nodes(shape)| && next > NULL && forall x :: x in store ==> x < next
    }

    ghost predicate Valid()
      reads this
    {
      Linked() && Sorted(Held(store, Nodes(shape)))
    }

    /** What the tree holds, in order. */
    ghost function Entries(): seq<Entry<V>>
      requires Valid()
      reads this
    {
      Held(store, Nodes(shape))
    }

    constructor ()
      ensures Valid() && Entries() == [] && size == 0
    {
      store, root, size, next, shape := map[], NULL, 0, 1, Nil;
    }

    /** `insert`: a key already there is refused and keeps its value. */
    method Insert(key: int, val: V) returns (added: bool)
      requires Valid()
      modifies this
      ensures Valid() && (added <==> key !in ToMap(old(Entries())))
      ensures Entries() == if added then Put(old(Entries()), key, val) else old(Entries())
      ensures ToMap(Entries()) == if added then ToMap(old(Entries()))[key := val] else ToMap(old(Entries()))
      ensures size == old(size) + if added then 1 else 0
      ensures !added ==> unchanged(this)
    {
      hide Laid, Nodes, Place, Sorted, Between, Held, AllIn, Exact, Distinct, Put, ToMap, Hung;
      ghost var es := Entries();
      ghost var s, sh, p := store, shape, root;
      var temp, parent := root, NULL;
      ghost var side, cur, lo: nat := true, sh, 0;
      StartOf(s, p, sh, key);
      while temp != NULL
        invariant unchanged(this) && Place(sh, parent, side, cur, lo) && Laid(s, temp, cur)
        invariant Between(es, lo, lo + |Nodes(cur)|, key)
        invariant parent != NULL ==> parent in s && s[parent].key != key && (side <==> key < s[parent].key)
        decreases cur
      {
        LaidTop(s, temp, cur);
        ghost var m := StepDown(s, sh, parent, side, cur, lo, key);
        parent := temp;
        if store[temp].key == key {
          There(es, m, key);
          return false;
        }
        if key < store[temp].key {
          temp := store[temp].left;
          side, cur := true, cur.left;
        } else {
          temp := store[temp].right;
          side, cur, lo := false, cur.right, m + 1;
        }
      }
      LaidTop(s, temp, cur);
      NotThere(es, lo, key);
      PutMeaning(es, key, val);
      var n := next;
      store, next := store[n := Cell(key, val, NULL, NULL)], next + 1;
      if parent == NULL {
        root := n;
      } else if store[parent].key > key {
        store := store[parent := store[parent].(left := n)];
      } else {
        store := store[parent := store[parent].(right := n)];
      }
      size := size + 1;
      added := true;
      NowHung(s, store, parent, side, n, Cell(key, val, NULL, NULL));
      shape := Inserted(s, store, p, sh, parent, side, lo, n);
    }

    /** The end of `deletenode`: a node with at most one child is taken out. */
    method Unlink(parent: Ptr, current: Ptr, ghost side: bool, ghost cur: Shape, ghost lo: nat)
      requires Linked() && Place(shape, parent, side, cur, lo) && cur.At? && cur.p == current
      requires (cur.left.Nil? || cur.right.Nil?)
      modifies this
      ensures Linked() && size == old(size) - 1
      ensures WithoutNumber(old(Nodes(shape)), Nodes(shape), lo + |Nodes(cur.left)|)
      ensures AllIn(old(store), old(Nodes(shape)))
      ensures forall x {:trigger SameEntry(old(store), store, x)} :: x in Nodes(shape) ==>
          SameEntry(old(store), store, x)
    {
      hide Laid, Nodes, Place, Held, AllIn, Exact, Distinct, Cut, WithoutNumber;
      ghost var s, sh, p := store, shape, root;
      PlaceSeen(s, p, sh, parent, side, cur, lo);
      LaidTop(s, current, cur);
      LaidTop(s, store[current].left, cur.left);
      NodesTop(cur);
      var child := store[current].left;
      if child == NULL { child := store[current].right; }
      if current == root {
        root := child;
      } else if store[parent].left == current {
        store := store[parent := store[parent].(left := child)];
      } else {
        store := store[parent := store[parent].(right := child)];
      }
      store := store - {current};
      size := size - 1;
      assert Laid(s, child, ChildOf(cur));
      NowCut(s, store, parent, side, current, child);
      ghost var m;
      shape, m := Removed(s, store, p, sh, parent, side, cur, lo, child);
      ExactIn(store, Nodes(shape));
      WithoutOne(Nodes(sh), Nodes(shape), m);
      CutEntries(s, store, Nodes(shape), parent, side, current, child);
    }

    /** Number `m` exchanges key and value with the node before it, the rightmost one on its left. */
    method SwapWithPredecessor(current: Ptr, ghost q: Ptr, ghost side0: bool, ghost cur: Shape, ghost lo0: nat)
      returns (parent: Ptr, preNode: Ptr, ghost side: bool, ghost pre: Shape, ghost lo: nat)
      requires Linked() && Place(shape, q, side0, cur, lo0) && cur.At? && cur.p == current && cur.left.At?
      modifies `store
      ensures Linked() && Place(shape, parent, side, pre, lo) && pre.At? && pre.p == preNode && pre.right.Nil?
      ensures AllIn(old(store), Nodes(shape))
      ensures lo + |Nodes(pre.left)| + 1 == lo0 + |Nodes(cur.left)| < |Nodes(shape)|
      ensures OneLess(Held(store, Nodes(shape)), Held(old(store), Nodes(shape)), lo0 + |Nodes(cur.left)|)
    {
      hide Laid, Nodes, Place, Held, AllIn, Exact, Distinct;
      ghost var s, sh := store, shape;
      ghost var m := lo0 + |Nodes(cur.left)|;
      PlaceSeen(s, root, sh, q, side0, cur, lo0);
      LaidTop(s, current, cur);
      PlaceDown(sh, q, side0, cur, lo0);
      ghost var a, b := PlaceNodes(sh, q, side0, cur, lo0);
      preNode := store[current].left;
      parent := current;
      side, pre, lo := true, cur.left, lo0;
      LaidTop(s, preNode, pre);
      while preNode != NULL && store[preNode].right != NULL
        invariant store == s && Place(sh, parent, side, pre, lo) && Laid(s, preNode, pre) && pre.At? && preNode in s
        invariant pre.p == preNode
        invariant lo + |Nodes(pre)| == m
        decreases pre
      {
        LaidTop(s, preNode, pre);
        PlaceDown(sh, parent, side, pre, lo);
        NodesTop(pre);
        parent := preNode;
        preNode := store[preNode].right;
        side, lo, pre := false, lo + |Nodes(pre.left)| + 1, pre.right;
        LaidTop(s, preNode, pre);
      }
      LaidTop(s, preNode, pre);
      NodesTop(pre);
      var c, d := PlaceNodes(sh, parent, side, pre, lo);
      DistinctPair(Nodes(sh), m - 1, m);
      var k, v := store[preNode].key, store[preNode].val;
      store := store[preNode := store[preNode].(key := store[current].key, val := store[current].val)];
      store := store[current := store[current].(key := k, val := v)];
      SwapTraced(s, store, root, sh, m, current, preNode);
    }

    /** `deletenode`: a node with two children takes over its predecessor's contents, and the predecessor
        goes instead. */
    method DeleteNode(key: int) returns (removed: bool)
      requires Valid()
      modifies this
      ensures Valid() && (removed <==> key in ToMap(old(Entries())))
      ensures Entries() == Without(old(Entries()), key)
      ensures ToMap(Entries()) == ToMap(old(Entries())) - {key}
      ensures size == old(size) - if removed then 1 else 0
    {
      hide Laid, Nodes, Place, Sorted, Between, Held, AllIn, Exact, Distinct, Without, ToMap, WithoutNumber;
      ghost var es := Entries();
      ghost var s, sh, p := store, shape, root;
      WithoutMeaning(es, key);
      var parent, current := NULL, root;
      ghost var side, cur, lo: nat := true, sh, 0;
      StartOf(s, p, sh, key);
      LaidTop(s, current, cur);
      while current != NULL && store[current].key != key
        invariant unchanged(this) && Place(sh, parent, side, cur, lo) && Laid(s, current, cur)
        invariant Between(es, lo, lo + |Nodes(cur)|, key)
        invariant current != NULL ==> current in s
        decreases cur
      {
        LaidTop(s, current, cur);
        ghost var m := StepDown(s, sh, parent, side, cur, lo, key);
        parent := current;
        if key > store[current].key {
          current := store[current].right;
          side, cur, lo := false, cur.right, m + 1;
        } else {
          current := store[current].left;
          side, cur := true, cur.left;
        }
        LaidTop(s, current, cur);
      }
      LaidTop(s, current, cur);
      if current == NULL {
        NotThere(es, lo, key);
        WithoutNothing(es, lo, key);
        return false;
      }
      ghost var m := StepDown(s, sh, parent, side, cur, lo, key);
      There(es, m, key);
      WithoutMid(es, m);
      removed := true;
      if store[current].left != NULL && store[current].right != NULL {
        parent, current, side, cur, lo := SwapWithPredecessor(current, parent, side, cur, lo);
        ghost var s1 := store;
        ghost var n := lo + |Nodes(cur.left)|;
        Unlink(parent, current, side, cur, lo);
        HeldRemove(s1, store, Nodes(sh), Nodes(shape), n);
      } else {
        Unlink(parent, current, side, cur, lo);
        HeldRemove(s, store, Nodes(sh), Nodes(shape), m);
      }
    }
  }

  lemma NowHung<V>(s: Store<V>, s': Store<V>, q: Ptr, side: bool, n: Ptr, leaf: Cell<V>)
    requires n !in s && leaf.left == leaf.right == NULL && (q != NULL ==> q in s)
    requires s' == if q == NULL then s[n := leaf] else if side then s[n := leaf][q := s[q].(left := n)]
        else s[n := leaf][q := s[q].(right := n)]
    ensures Hung(s, s', q, side, n)
  {
  }

  lemma NowCut<V>(s: Store<V>, s': Store<V>, q: Ptr, side: bool, d: Ptr, n: Ptr)
    requires d in s && (q != NULL ==> q in s && q != d)
    requires s' == (if q == NULL then s else if side then s[q := s[q].(left := n)] else s[q := s[q].(right := n)]) - {d}
    ensures Cut(s, s', q, side, d, n)
  {
  }

  lemma WithoutNothing<V>(es: seq<Entry<V>>, lo: nat, key: int)
    requires Between(es, lo, lo, key)
    ensures Without(es, key) == es
  {
    var n := if lo < |es| then lo else |es|;
    assert es == es[..n] + es[n..];
    WithoutRight(es[..n], es[n..], key);
    WithoutAbsent(es[n..], key);
  }

  lemma NodesTop(sh: Shape)
    requires sh.At?
    ensures |Nodes(sh)| == |Nodes(sh.left)| + 1 + |Nodes(sh.right)| && |Nodes(Nil)| == 0 && sh.p in Nodes(sh)
  {
  }

  lemma WithoutOne(ps: seq<Ptr>, ps': seq<Ptr>, m: nat)
    requires WithoutNumber(ps, ps', m)
    ensures |ps'| == |ps| - 1
  {
  }

  lemma CutEntries<V>(s: Store<V>, s': Store<V>, ps: seq<Ptr>, q: Ptr, side: bool, d: Ptr, n: Ptr)
    requires Cut(s, s', q, side, d, n) && Exact(s', ps)
    ensures forall x {:trigger SameEntry(s, s', x)} :: x in ps ==> SameEntry(s, s', x)
  {
  }

  lemma DistinctPair(ps: seq<Ptr>, i: nat, j: nat)
    requires Distinct(ps) && i < j < |ps|
    ensures ps[i] != ps[j]
  {
  }

  lemma LaidTop<V>(s: Store<V>, p: Ptr, sh: Shape)
    requires Laid(s, p, sh)
    ensures sh.Nil? <==> p == NULL
    ensures sh.At? ==> sh.p == p && p in s && Laid(s, s[p].left, sh.left) && Laid(s, s[p].right, sh.right)
    ensures sh.Nil? ==> Nodes(sh) == []
  {
  }

  lemma StartOf<V>(s: Store<V>, p: Ptr, sh: Shape, key: int)
    requires Laid(s, p, sh) && AllIn(s, Nodes(sh))
    ensures Place(sh, NULL, true, sh, 0) && Between(Held(s, Nodes(sh)), 0, |Nodes(sh)|, key)
  {
  }

  // ---- The tree that is walked and searched ----

  lemma AllInParts<V>(s: Store<V>, sh: Shape)
    requires AllIn(s, Nodes(sh)) && sh.At?
    ensures sh.p in s && AllIn(s, Nodes(sh.left)) && AllIn(s, Nodes(sh.right))
    ensures Held(s, Nodes(sh)) == Held(s, Nodes(sh.left)) + [(s[sh.p].key, s[sh.p].val)] + Held(s, Nodes(sh.right))
  {
    var l, r := Nodes(sh.left), Nodes(sh.right);
    assert Nodes(sh) == l + [sh.p] + r;
    hide Nodes, Held, AllIn;
    HeldSplit(s, l + [sh.p], r);
    HeldSplit(s, l, [sh.p]);
    HeldOne(s, sh.p);
  }

  lemma HeldOne<V>(s: Store<V>, x: Ptr)
    requires AllIn(s, [x])
    ensures x in s && Held(s, [x]) == [(s[x].key, s[x].val)]
  {
    assert [x][0] in s;
  }

  /** The nodes as a tree value. */
  ghost function TreeOf<V>(s: Store<V>, sh: Shape): Search.Tree<V>
    requires AllIn(s, Nodes(sh))
  {
    if sh.Nil? then Search.Leaf
    else AllInParts(s, sh); Search.Bin(TreeOf(s, sh.left), s[sh.p].key, s[sh.p].val, TreeOf(s, sh.right))
  }

  ghost function KeysOf<V>(es: seq<Entry<V>>): (ks: seq<int>)
    ensures |ks| == |es| && forall i :: 0 <= i < |es| ==> ks[i] == es[i].0
  {
    seq(|es|, i requires 0 <= i < |es| => es[i].0)
  }

  lemma KeysOfThree<V>(a: seq<Entry<V>>, x: Entry<V>, b: seq<Entry<V>>)
    ensures KeysOf(a + [x] + b) == KeysOf(a) + [x.0] + KeysOf(b)
  {
  }

  lemma {:induction false} KeysInorder<V>(t: Search.Tree<V>, k: int)
    ensures k in Search.Keys(t) <==> k in Search.Inorder(t)
  {
    if t.Bin? {
      KeysInorder(t.left, k);
      KeysInorder(t.right, k);
    }
  }

  /** Walking the nodes in order gives the keys of the entries, and where these ascend the searches for
      neighbours may rely on the order. */
  lemma {:induction false} TreeOfOrdered<V>(s: Store<V>, sh: Shape)
    requires AllIn(s, Nodes(sh)) && Sorted(Held(s, Nodes(sh)))
    ensures Search.Inorder(TreeOf(s, sh)) == KeysOf(Held(s, Nodes(sh))) && Search.Ordered(TreeOf(s, sh))
  {
    if sh.At? {
      AllInParts(s, sh);
      var t, x := TreeOf(s, sh), (s[sh.p].key, s[sh.p].val);
      var a, b := Held(s, Nodes(sh.left)), Held(s, Nodes(sh.right));
      assert t == Search.Bin(TreeOf(s, sh.left), x.0, x.1, TreeOf(s, sh.right));
      hide Nodes, Held, AllIn, TreeOf, Sorted;
      SortedParts(a, x, b);
      TreeOfOrdered(s, sh.left);
      TreeOfOrdered(s, sh.right);
      KeysOfThree(a, x, b);
      forall k | k in Search.Keys(t.left) ensures k < t.key { KeysInorder(t.left, k); }
      forall k | k in Search.Keys(t.right) ensures k > t.key { KeysInorder(t.right, k); }
    }
  }
}
