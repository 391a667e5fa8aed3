/** Red-black tree with parent pointers and a black sentinel in place of every missing child
    (DataStruct/RBTree.hpp). `Tree` and `IsRedBlack` are the textbook side: a plain binary tree and
    the five properties of the header comment. `RBTree` is the pointer structure: its nodes live in a
    store from pointers to cells, and an assignment through a pointer updates the store. A ghost note
    per node (the open interval its keys lie in, and its black height) makes every invariant a
    statement about one node and its neighbours, so a rotation disturbs only the nodes it touches. */
module RbTree {
  import opened Common

  datatype Tree<V> = Leaf | Bin(black: bool, left: Tree<V>, key: int, val: V, right: Tree<V>)

  ghost function Keys<V>(t: Tree<V>): set<int> {
    if t.Leaf? then {} else Keys(t.left) + {t.key} + Keys(t.right)
  }

  /** Left to right; the order in which an in-order walk meets the keys. */
  ghost predicate Ordered<V>(t: Tree<V>) {
    t.Bin? ==>
      && Ordered(t.left) && Ordered(t.right)
      && (forall k :: k in Keys(t.left) ==> k < t.key)
      && (forall k :: k in Keys(t.right) ==> t.key < k)
  }

  ghost function Contents<V>(t: Tree<V>): map<int, V> {
    if t.Leaf? then map[] else Contents(t.left) + Contents(t.right) + map[t.key := t.val]
  }

  ghost predicate IsBlack<V>(t: Tree<V>) {
    t.Leaf? || t.black
  }

  ghost predicate NoRedRed<V>(t: Tree<V>) {
    t.Bin? ==>
      && NoRedRed(t.left) && NoRedRed(t.right)
      && (t.black || (IsBlack(t.left) && IsBlack(t.right)))
  }

  /** Black nodes on the leftmost path, the external leaf included. */
  ghost function BlackCount<V>(t: Tree<V>): nat {
    if t.Leaf? then 1 else BlackCount(t.left) + if t.black then 1 else 0
  }

  /** Every path down from any node meets the same number of black nodes. */
  ghost predicate EqualBlack<V>(t: Tree<V>) {
    t.Bin? ==> EqualBlack(t.left) && EqualBlack(t.right) && BlackCount(t.left) == BlackCount(t.right)
  }

  ghost predicate IsRedBlack<V>(t: Tree<V>) {
    Ordered(t) && IsBlack(t) && NoRedRed(t) && EqualBlack(t)
  }

  ghost function Count<V>(t: Tree<V>): nat {
    if t.Leaf? then 0 else Count(t.left) + 1 + Count(t.right)
  }

  ghost function Height<V>(t: Tree<V>): nat {
    if t.Leaf? then 0
    else 1 + if Height(t.left) > Height(t.right) then Height(t.left) else Height(t.right)
  }

  lemma {:induction false} ColouredBounds<V>(t: Tree<V>)
    requires NoRedRed(t) && EqualBlack(t)
    ensures Pow2(BlackCount(t) - 1) <= Count(t) + 1
    ensures Height(t) <= 2 * (BlackCount(t) - 1) + if IsBlack(t) then 0 else 1
  {
    if t.Bin? {
      ColouredBounds(t.left);
      ColouredBounds(t.right);
    }
  }

  lemma {:induction false} Pow2Add(a: nat, b: nat)
    ensures Pow2(a + b) == Pow2(a) * Pow2(b)
  {
    if a > 0 { Pow2Add(a - 1, b); }
  }

  /** The search bound: 2^height <= (n+1)^2, that is, height <= 2*log2(n+1). */
  lemma HeightIsLogarithmic<V>(t: Tree<V>)
    requires IsRedBlack(t)
    ensures Pow2(Height(t)) <= (Count(t) + 1) * (Count(t) + 1)
  {
    ColouredBounds(t);
    var b: nat := BlackCount(t) - 1;
    Pow2Monotone(Height(t), 2 * b);
    Pow2Add(b, b);
    SquareMonotone(Pow2(b), Count(t) + 1);
  }

  lemma SquareMonotone(a: nat, b: nat)
    requires a <= b
    ensures a * a <= b * b
  {
    assert a * a <= a * b <= b * b;
  }

  type Ptr = nat
  const NULL: Ptr := 0
  const SENTINEL: Ptr := 1

  datatype Cell<V> = Cell(key: int, val: V, left: Ptr, right: Ptr, parent: Ptr, black: bool) {
    function Child(d: bool): Ptr {
      if d then left else right
    }

    function WithChild(d: bool, c: Ptr): Cell<V> {
      if d then this.(left := c) else this.(right := c)
    }

    /** The child link that held `x` now holds `y`. */
    function Redirected(x: Ptr, y: Ptr): Cell<V> {
      if left == x then this.(left := y) else this.(right := y)
    }
  }

  /** A bound on the keys below a node: none, or strictly beyond a key. */
  datatype Bound = Open | Past(k: int)

  /** Ghost notes on a node: its interval, and the black nodes on any path strictly below it. */
  datatype Note = Note(lo: Bound, hi: Bound, bh: nat) {
    function Side(d: bool): Bound {
      if d then lo else hi
    }

    function WithSide(d: bool, b: Bound): Note {
      if d then this.(lo := b) else this.(hi := b)
    }
  }

  type Store<V> = map<Ptr, Cell<V>>
  type Notes = map<Ptr, Note>

  ghost predicate Within(lo: Bound, k: int, hi: Bound) {
    (lo.Past? ==> lo.k < k) && (hi.Past? ==> k < hi.k)
  }

  /** The child on side `d` is the sentinel, or points back and owns the gap on that side. */
  ghost predicate ChildOk<V>(s: Store<V>, i: Notes, n: Ptr, d: bool)
    requires n in s && s.Keys == i.Keys
  {
    var c := s[n].Child(d);
    c == SENTINEL ||
    (c in s && s[c].parent == n && i[c].Side(d) == i[n].Side(d) && i[c].Side(!d) == Past(s[n].key))
  }

  ghost predicate ParentOk<V>(s: Store<V>, n: Ptr, root: Ptr)
    requires n in s
  {
    var p := s[n].parent;
    if n == root then p == NULL else p in s && p != SENTINEL && (s[p].left == n || s[p].right == n)
  }

  ghost predicate InGap<V>(s: Store<V>, i: Notes, n: Ptr)
    requires n in s && n in i
  {
    Within(i[n].lo, s[n].key, i[n].hi)
  }

  /** Everything but the colours of real nodes. */
  ghost predicate Linked<V>(s: Store<V>, i: Notes, root: Ptr) {
    && s.Keys == i.Keys && NULL !in s
    && SENTINEL in s && s[SENTINEL].black && i[SENTINEL].bh == 0
    && root in s && (root == SENTINEL ==> s.Keys == {SENTINEL})
    && (root != SENTINEL ==> i[root].lo == Open && i[root].hi == Open)
    && (forall n, d {:trigger ChildOk(s, i, n, d)} :: n in s && n != SENTINEL ==> ChildOk(s, i, n, d))
    && (forall n {:trigger ParentOk(s, n, root)} :: n in s && n != SENTINEL ==> ParentOk(s, n, root))
    && (forall n {:trigger InGap(s, i, n)} :: n in s && n != SENTINEL ==> InGap(s, i, n))
  }

  /** The facts a rotation at `x` relies on: links hold around it and the nodes involved differ. */
  ghost predicate Site<V>(s: Store<V>, i: Notes, root: Ptr, x: Ptr, d: bool) {
    && s.Keys == i.Keys && NULL !in s && SENTINEL in s
    && x in s && x != SENTINEL && s[x].Child(!d) in s && s[x].Child(!d) != SENTINEL
    && var y, p := s[x].Child(!d), s[x].parent;
    && var b := s[y].Child(d);
    && x != y && p != y && p != x && y != root && b in s && b != x && b != y && (b != SENTINEL ==> b != p)
    && ChildOk(s, i, x, d) && ChildOk(s, i, x, !d) && ChildOk(s, i, y, d) && ChildOk(s, i, y, !d)
    && ParentOk(s, x, root)
    && (x != root ==> ChildOk(s, i, p, true) && ChildOk(s, i, p, false) && s[p].left != s[p].right)
    && s[x].left != s[x].right && (b != SENTINEL ==> s[y].left != s[y].right)
  }

  /** Intervals shrink going down, so the nodes around a rotation are all different. */
  lemma LinkedSite<V>(s: Store<V>, i: Notes, root: Ptr, x: Ptr, d: bool)
    requires Linked(s, i, root) && x in s && x != SENTINEL && s[x].Child(!d) != SENTINEL
    ensures Site(s, i, root, x, d)
  {
    var y, p := s[x].Child(!d), s[x].parent;
    assert ChildOk(s, i, x, !d) && ChildOk(s, i, x, d);
    assert ParentOk(s, x, root) && ParentOk(s, y, root);
    assert ChildOk(s, i, y, d) && ChildOk(s, i, y, !d);
    assert InGap(s, i, x) && InGap(s, i, y);
    if x != root { assert ChildOk(s, i, p, true) && ChildOk(s, i, p, false) && InGap(s, i, p); }
  }

  /** The cell and note of `n` after a rotation at `x`, whose far child is `y`: links move, while keys,
      values, colours and black heights stay where they are. */
  ghost predicate Turned<V>(s: Store<V>, i: Notes, s': Store<V>, i': Notes, x: Ptr, d: bool, n: Ptr)
    requires s.Keys == i.Keys == s'.Keys == i'.Keys && x in s && s[x].Child(!d) in s && n in s
  {
    var y, p := s[x].Child(!d), s[x].parent;
    var b := s[y].Child(d);
    && s'[n].key == s[n].key && s'[n].val == s[n].val && s'[n].black == s[n].black && i'[n].bh == i[n].bh
    && s'[n].Child(d) == (if n == y then x else if n == p && s[p].Child(d) == x then y else s[n].Child(d))
    && s'[n].Child(!d) == (if n == x then b else if n == p && s[p].Child(d) != x then y else s[n].Child(!d))
    && s'[n].parent == (if n == x then y else if n == y then p else if n == b && b != SENTINEL then x else s[n].parent)
    && i'[n] == (if n == x then i[x].WithSide(!d, Past(s[y].key)) else if n == y then Note(i[x].lo, i[x].hi, i[y].bh)
        else i[n])
  }

  /** `s'` is `s` after `x`'s child on the far side of `d` took its place and `x` became its `d`-child. */
  ghost predicate Rotation<V>(s: Store<V>, i: Notes, root: Ptr, s': Store<V>, i': Notes, root': Ptr, x: Ptr, d: bool) {
    && Site(s, i, root, x, d) && s.Keys == s'.Keys == i'.Keys
    && root' == (if root == x then s[x].Child(!d) else root)
    && (forall n {:trigger Turned(s, i, s', i', x, d, n)} :: n in s ==> Turned(s, i, s', i', x, d, n))
  }

  /** The same as the sequence of assignments in `leftRotate` (`d`) and `rightRotate` (`!d`). */
  function Rotated<V>(s: Store<V>, x: Ptr, d: bool): Store<V>
    requires x in s && s[x].Child(!d) in s
  {
    var y, p := s[x].Child(!d), s[x].parent;
    var s1 := s[x := s[x].WithChild(!d, s[y].Child(d))];
    var s2 := s1[y := s1[y].WithChild(d, x)];
    var moved := s2[x].Child(!d);
    var s3 := if moved == SENTINEL || moved !in s2 then s2 else s2[moved := s2[moved].(parent := x)];
    var s4 := if p !in s3 then s3 else s3[p := s3[p].Redirected(x, y)];
    var s5 := s4[y := s4[y].(parent := p)];
    s5[x := s5[x].(parent := y)]
  }

  ghost function RotatedNotes<V>(s: Store<V>, i: Notes, x: Ptr, d: bool): Notes
    requires s.Keys == i.Keys && x in s && s[x].Child(!d) in s
  {
    var y := s[x].Child(!d);
    i[y := Note(i[x].lo, i[x].hi, i[y].bh)][x := i[x].WithSide(!d, Past(s[y].key))]
  }

  lemma RotatedCell<V>(s: Store<V>, i: Notes, root: Ptr, x: Ptr, d: bool, n: Ptr)
    requires Site(s, i, root, x, d) && n in s
    ensures Rotated(s, x, d).Keys == s.Keys
    ensures Turned(s, i, Rotated(s, x, d), RotatedNotes(s, i, x, d), x, d, n)
  {
  }

  lemma RotatedIsRotation<V>(s: Store<V>, i: Notes, root: Ptr, s': Store<V>, i': Notes, root': Ptr, x: Ptr, d: bool)
    requires Site(s, i, root, x, d) && s' == Rotated(s, x, d) && i' == RotatedNotes(s, i, x, d)
    requires root' == if root == x then s[x].Child(!d) else root
    ensures Rotation(s, i, root, s', i', root', x, d)
  {
    RotatedCell(s, i, root, x, d, x);
    forall n | n in s ensures Turned(s, i, s', i', x, d, n) {
      RotatedCell(s, i, root, x, d, n);
    }
  }

  lemma RotatedChild<V>(s: Store<V>, i: Notes, root: Ptr, s': Store<V>, i': Notes, root': Ptr, x: Ptr, d: bool, n: Ptr,
                        e: bool)
    requires Rotation(s, i, root, s', i', root', x, d)
    requires n in s && n != SENTINEL && ChildOk(s, i, n, e)
    ensures ChildOk(s', i', n, e)
  {
    var y := s[x].Child(!d);
    assert Turned(s, i, s', i', x, d, n) && Turned(s, i, s', i', x, d, s[n].Child(e));
    assert Turned(s, i, s', i', x, d, x) && Turned(s, i, s', i', x, d, y) && Turned(s, i, s', i', x, d, s[y].Child(d));
  }

  lemma RotatedParent<V>(s: Store<V>, i: Notes, root: Ptr, s': Store<V>, i': Notes, root': Ptr, x: Ptr, d: bool, n: Ptr)
    requires Rotation(s, i, root, s', i', root', x, d)
    requires n in s && n != SENTINEL && ParentOk(s, n, root)
    ensures ParentOk(s', n, root')
  {
    assert Turned(s, i, s', i', x, d, n) && Turned(s, i, s', i', x, d, x) && Turned(s, i, s', i', x, d, s[x].Child(!d));
    if x != root { assert Turned(s, i, s', i', x, d, s[x].parent); }
    if n != root {
      assert Turned(s, i, s', i', x, d, s[n].parent);
      assert s[s[n].parent].Child(d) == n || s[s[n].parent].Child(!d) == n;
    }
  }

  /** A rotation keeps links, parents and key intervals right. */
  lemma RotatedLinked<V>(s: Store<V>, i: Notes, root: Ptr, s': Store<V>, i': Notes, root': Ptr, x: Ptr, d: bool)
    requires Linked(s, i, root) && Rotation(s, i, root, s', i', root', x, d)
    ensures Linked(s', i', root')
  {
    var y := s[x].Child(!d);
    assert Turned(s, i, s', i', x, d, x) && Turned(s, i, s', i', x, d, y);
    assert Turned(s, i, s', i', x, d, SENTINEL) && Turned(s, i, s', i', x, d, root);
    forall n, e | n in s' && n != SENTINEL ensures ChildOk(s', i', n, e) {
      assert ChildOk(s, i, n, e);
      RotatedChild(s, i, root, s', i', root', x, d, n, e);
    }
    forall n | n in s' && n != SENTINEL ensures ParentOk(s', n, root') {
      assert ParentOk(s, n, root);
      RotatedParent(s, i, root, s', i', root', x, d, n);
    }
    forall n | n in s' && n != SENTINEL ensures InGap(s', i', n) {
      assert InGap(s, i, n) && InGap(s, i, x) && InGap(s, i, y) && Turned(s, i, s', i', x, d, n);
    }
  }

  // ---- Colours ----

  ghost function Blacks<V>(s: Store<V>, i: Notes, n: Ptr): nat
    requires n in s && n in i
  {
    i[n].bh + if s[n].black then 1 else 0
  }

  /** Both children are seen with the same black height, the one noted. */
  ghost predicate BlackOk<V>(s: Store<V>, i: Notes, n: Ptr)
    requires n in s && s.Keys == i.Keys
  {
    && s[n].left in s && s[n].right in s
    && i[n].bh == Blacks(s, i, s[n].left) == Blacks(s, i, s[n].right)
  }

  /** A red node below the root has a black parent, unless it is `z`. */
  ghost predicate RedOk<V>(s: Store<V>, root: Ptr, z: Ptr, n: Ptr)
    requires n in s
  {
    n != z && n != root && !s[n].black ==> s[n].parent in s && s[s[n].parent].black
  }

  /** The colour rules with at most one breach, at `z`; none when `z` is the sentinel. */
  ghost predicate Coloured<V>(s: Store<V>, i: Notes, root: Ptr, z: Ptr) {
    && s.Keys == i.Keys && root in s && (root == z || s[root].black)
    && (forall n {:trigger BlackOk(s, i, n)} :: n in s && n != SENTINEL ==> BlackOk(s, i, n))
    && (forall n {:trigger RedOk(s, root, z, n)} :: n in s && n != SENTINEL ==> RedOk(s, root, z, n))
  }

  /** What the loop of `reBalance_Insert` meets: `z` and its parent `p` red, the grandparent `g` black. */
  ghost predicate Clash<V>(s: Store<V>, i: Notes, root: Ptr, z: Ptr) {
    && Linked(s, i, root) && Coloured(s, i, root, z)
    && z in s && z != SENTINEL && z != root && !s[z].black
    && s[z].parent in s && !s[s[z].parent].black
  }

  /** The named nodes around a clash: `p` is `g`'s child on side `d`, `u` the other one. */
  ghost predicate Family<V>(s: Store<V>, i: Notes, root: Ptr, z: Ptr, p: Ptr, g: Ptr, u: Ptr, d: bool) {
    && s.Keys == i.Keys && NULL !in s && SENTINEL in s && s[SENTINEL].black
    && z in s && p in s && g in s && u in s && z != SENTINEL && p != SENTINEL && g != SENTINEL
    && z != root && p != root && p != z && g != z && g != p && u != p && u != z && u != g
    && !s[z].black && !s[p].black && s[g].black
    && s[z].parent == p && s[p].parent == g && s[g].Child(d) == p && s[g].Child(!d) == u
    && (s[p].left == z || s[p].right == z) && s[p].left != s[p].right
    && (u != SENTINEL ==> s[u].parent == g)
    && BlackOk(s, i, z) && BlackOk(s, i, p) && BlackOk(s, i, g)
  }

  lemma ClashFamily<V>(s: Store<V>, i: Notes, root: Ptr, z: Ptr, d: bool)
    requires Clash(s, i, root, z)
    ensures s[s[z].parent].parent in s
    ensures d == (s[s[s[z].parent].parent].left == s[z].parent)
      ==> Family(s, i, root, z, s[z].parent, s[s[z].parent].parent, s[s[s[z].parent].parent].Child(!d), d)
  {
    var p := s[z].parent;
    assert ParentOk(s, z, root) && ParentOk(s, p, root) && RedOk(s, root, z, p);
    var g := s[p].parent;
    assert ChildOk(s, i, g, true) && ChildOk(s, i, g, false) && ChildOk(s, i, p, true) && ChildOk(s, i, p, false);
    assert InGap(s, i, g) && InGap(s, i, p);
    assert ParentOk(s, g, root);
    assert BlackOk(s, i, z) && BlackOk(s, i, p) && BlackOk(s, i, g);
  }

  function Painted<V>(s: Store<V>, n: Ptr, black: bool): Store<V>
    requires n in s
  {
    s[n := s[n].(black := black)]
  }

  lemma PaintedLinked<V>(s: Store<V>, i: Notes, root: Ptr, n: Ptr, black: bool)
    requires Linked(s, i, root) && n in s && n != SENTINEL
    ensures Linked(Painted(s, n, black), i, root)
  {
    var s' := Painted(s, n, black);
    forall m, d | m in s' && m != SENTINEL ensures ChildOk(s', i, m, d) { assert ChildOk(s, i, m, d); }
    forall m | m in s' && m != SENTINEL ensures InGap(s', i, m) { assert InGap(s, i, m); }
    forall m | m in s' && m != SENTINEL ensures ParentOk(s', m, root) { assert ParentOk(s, m, root); }
  }

  lemma NotedLinked<V>(s: Store<V>, i: Notes, root: Ptr, n: Ptr, bh: nat)
    requires Linked(s, i, root) && n in s && n != SENTINEL
    ensures Linked(s, i[n := i[n].(bh := bh)], root)
  {
    var i' := i[n := i[n].(bh := bh)];
    forall m, d | m in s && m != SENTINEL ensures ChildOk(s, i', m, d) { assert ChildOk(s, i, m, d); }
    forall m | m in s && m != SENTINEL ensures InGap(s, i', m) { assert InGap(s, i, m); }
  }

  /** Parent and uncle black, grandparent red. */
  function Recoloured<V>(s: Store<V>, p: Ptr, g: Ptr, u: Ptr): Store<V>
    requires p in s && g in s && u in s
  {
    Painted(Painted(Painted(s, p, true), u, true), g, false)
  }

  lemma RecolouredNode<V>(s: Store<V>, i: Notes, root: Ptr, z: Ptr, p: Ptr, g: Ptr, u: Ptr, d: bool, n: Ptr)
    requires Family(s, i, root, z, p, g, u, d) && !s[u].black
    requires n in s && n != SENTINEL && BlackOk(s, i, n) && RedOk(s, root, z, n)
    requires ChildOk(s, i, n, true) && ChildOk(s, i, n, false) && ParentOk(s, n, root)
    ensures BlackOk(Recoloured(s, p, g, u), i[g := i[g].(bh := i[g].bh + 1)], n)
    ensures RedOk(Recoloured(s, p, g, u), root, g, n)
  {
  }

  lemma RecolourLinked<V>(s: Store<V>, i: Notes, root: Ptr, p: Ptr, g: Ptr, u: Ptr)
    requires Linked(s, i, root) && p in s && g in s && u in s && p != SENTINEL && g != SENTINEL && u != SENTINEL
    ensures Linked(Recoloured(s, p, g, u), i[g := i[g].(bh := i[g].bh + 1)], root)
  {
    hide Linked;
    PaintedLinked(s, i, root, p, true);
    PaintedLinked(Painted(s, p, true), i, root, u, true);
    PaintedLinked(Painted(Painted(s, p, true), u, true), i, root, g, false);
    NotedLinked(Recoloured(s, p, g, u), i, root, g, i[g].bh + 1);
  }

  /** Red uncle: repainting moves the only possible breach two levels up and one black height higher. */
  lemma RecolourStep<V>(s: Store<V>, i: Notes, root: Ptr, z: Ptr, p: Ptr, g: Ptr, u: Ptr, d: bool)
    requires Clash(s, i, root, z) && Family(s, i, root, z, p, g, u, d) && !s[u].black
    ensures var s', i' := Recoloured(s, p, g, u), i[g := i[g].(bh := i[g].bh + 1)];
      Linked(s', i', root) && Coloured(s', i', root, g) && i'[g].bh == i[z].bh + 1
  {
    var s', i' := Recoloured(s, p, g, u), i[g := i[g].(bh := i[g].bh + 1)];
    RecolourLinked(s, i, root, p, g, u);
    hide InGap, Within;
    forall n | n in s' && n != SENTINEL ensures BlackOk(s', i', n) && RedOk(s', root, g, n) {
      assert ChildOk(s, i, n, true) && ChildOk(s, i, n, false) && ParentOk(s, n, root);
      assert BlackOk(s, i, n) && RedOk(s, root, z, n);
      RecolouredNode(s, i, root, z, p, g, u, d, n);
    }
  }

  // ---- The two rotation steps ----

  /** Black heights after a rotation are right when they are for the new neighbours. */
  lemma RotatedBlack<V>(s: Store<V>, i: Notes, root: Ptr, s': Store<V>, i': Notes, root': Ptr, x: Ptr, d: bool, n: Ptr)
    requires Rotation(s, i, root, s', i', root', x, d) && n in s && s[n].left in s && s[n].right in s
    requires var y := s[x].Child(!d); var b := s[y].Child(d);
      && (n == x ==> i[x].bh == Blacks(s, i, b) == Blacks(s, i, s[x].Child(d)))
      && (n == y ==> i[y].bh == Blacks(s, i, x) == Blacks(s, i, s[y].Child(!d)))
      && (n != x && n != y ==> forall e :: i[n].bh == Blacks(s, i, if s[n].Child(e) == x then y else s[n].Child(e)))
      && (n != x && n != y && n != s[x].parent ==> s[n].left != x && s[n].right != x)
    ensures BlackOk(s', i', n)
  {
    var y := s[x].Child(!d);
    assert Turned(s, i, s', i', x, d, n) && Turned(s, i, s', i', x, d, s[n].left)
        && Turned(s, i, s', i', x, d, s[n].right);
    assert Turned(s, i, s', i', x, d, x) && Turned(s, i, s', i', x, d, y) && Turned(s, i, s', i', x, d, s[y].Child(d));
    assert s'[n].Child(d) in s && s'[n].Child(!d) in s;
    if n == s[x].parent {
      assert i[n].bh == Blacks(s, i, if s[n].Child(d) == x then y else s[n].Child(d));
      assert i[n].bh == Blacks(s, i, if s[n].Child(!d) == x then y else s[n].Child(!d));
    }
  }

  lemma InnerNode<V>(s: Store<V>, i: Notes, root: Ptr, s': Store<V>, i': Notes, z: Ptr, p: Ptr, g: Ptr, u: Ptr, d: bool,
                     n: Ptr)
    requires Family(s, i, root, z, p, g, u, d) && s[p].Child(!d) == z && Rotation(s, i, root, s', i', root, p, d)
    requires n in s && n != SENTINEL && BlackOk(s, i, n) && RedOk(s, root, z, n)
    requires ChildOk(s, i, n, true) && ChildOk(s, i, n, false) && ParentOk(s, n, root)
    ensures BlackOk(s', i', n) && RedOk(s', root, p, n)
  {
    forall e ensures i[n].bh == Blacks(s, i, s[n].Child(e)) { }
    RotatedBlack(s, i, root, s', i', root, p, d, n);
    assert Turned(s, i, s', i', p, d, n) && Turned(s, i, s', i', p, d, g);
    if n != root { assert Turned(s, i, s', i', p, d, s[n].parent); }
  }

  /** `z` on the inner side: rotating at `p` swaps the two red nodes, and `p` becomes the breach. */
  lemma InnerStep<V>(s: Store<V>, i: Notes, root: Ptr, s': Store<V>, i': Notes, z: Ptr, p: Ptr, g: Ptr, u: Ptr, d: bool)
    requires Clash(s, i, root, z) && Family(s, i, root, z, p, g, u, d) && s[p].Child(!d) == z && s[u].black
    requires Rotation(s, i, root, s', i', root, p, d)
    ensures Clash(s', i', root, p) && Family(s', i', root, p, z, g, u, d) && s'[z].Child(d) == p && s'[u].black
  {
    RotatedLinked(s, i, root, s', i', root, p, d);
    assert Turned(s, i, s', i', p, d, root) && Turned(s, i, s', i', p, d, p) && Turned(s, i, s', i', p, d, z);
    assert Turned(s, i, s', i', p, d, g) && Turned(s, i, s', i', p, d, u);
    forall n | n in s' && n != SENTINEL ensures BlackOk(s', i', n) && RedOk(s', root, p, n) {
      assert ChildOk(s, i, n, true) && ChildOk(s, i, n, false) && ParentOk(s, n, root);
      assert BlackOk(s, i, n) && RedOk(s, root, z, n);
      InnerNode(s, i, root, s', i', z, p, g, u, d, n);
    }
    ClashFamily(s', i', root, p, d);
  }

  /** Grandparent red and parent black: the colours just before the outer rotation. */
  function Flipped<V>(s: Store<V>, p: Ptr, g: Ptr): Store<V>
    requires p in s && g in s
  {
    Painted(Painted(s, g, false), p, true)
  }

  lemma FlippedSite<V>(s: Store<V>, i: Notes, root: Ptr, z: Ptr, p: Ptr, g: Ptr, u: Ptr, d: bool)
    requires Clash(s, i, root, z) && Family(s, i, root, z, p, g, u, d) && s[p].Child(d) == z
    ensures Linked(Flipped(s, p, g), i, root) && Site(Flipped(s, p, g), i, root, g, !d)
  {
    PaintedLinked(s, i, root, g, false);
    PaintedLinked(Painted(s, g, false), i, root, p, true);
    LinkedSite(Flipped(s, p, g), i, root, g, !d);
  }

  /** The other nodes see no difference in black height when `p` takes the place of `g`. */
  lemma OuterOthers<V>(s: Store<V>, i: Notes, root: Ptr, z: Ptr, p: Ptr, g: Ptr, u: Ptr, d: bool, n: Ptr)
    requires Family(s, i, root, z, p, g, u, d) && s[p].Child(d) == z && s[u].black
    requires n in s && n != SENTINEL && n != g && n != p && BlackOk(s, i, n)
    requires ChildOk(s, i, n, true) && ChildOk(s, i, n, false) && ParentOk(s, n, root)
    ensures var s1 := Flipped(s, p, g);
      forall e :: i[n].bh == Blacks(s1, i, if s1[n].Child(e) == g then p else s1[n].Child(e))
  {
    var s1 := Flipped(s, p, g);
    forall e ensures i[n].bh == Blacks(s1, i, if s1[n].Child(e) == g then p else s1[n].Child(e)) {
      assert s1[n].Child(e) == s[n].Child(e) && i[n].bh == Blacks(s, i, s[n].Child(e));
    }
  }

  lemma OuterBlack<V>(s: Store<V>, i: Notes, s1: Store<V>, root: Ptr, s': Store<V>, i': Notes, root': Ptr,
                      z: Ptr, p: Ptr, g: Ptr, u: Ptr, d: bool, n: Ptr)
    requires Family(s, i, root, z, p, g, u, d) && s[p].Child(d) == z && s[u].black
    requires s1 == Flipped(s, p, g) && Rotation(s1, i, root, s', i', root', g, !d)
    requires n in s && n != SENTINEL && BlackOk(s, i, n)
    requires ChildOk(s, i, n, true) && ChildOk(s, i, n, false) && ParentOk(s, n, root)
    ensures BlackOk(s', i', n)
  {
    if n != g && n != p {
      OuterOthers(s, i, root, z, p, g, u, d, n);
    }
    assert s1[g].Child(d) == p && s1[p].Child(!d) == s[p].Child(!d);
    RotatedBlack(s1, i, root, s', i', root', g, !d, n);
  }

  lemma OuterRed<V>(s: Store<V>, i: Notes, s1: Store<V>, root: Ptr, s': Store<V>, i': Notes, root': Ptr,
                    z: Ptr, p: Ptr, g: Ptr, u: Ptr, d: bool, n: Ptr)
    requires Family(s, i, root, z, p, g, u, d) && s[p].Child(d) == z && s[u].black
    requires s1 == Flipped(s, p, g) && Rotation(s1, i, root, s', i', root', g, !d)
    requires n in s && n != SENTINEL && RedOk(s, root, z, n) && ParentOk(s, n, root)
    ensures RedOk(s', root', SENTINEL, n)
  {
    assert Turned(s1, i, s', i', g, !d, n) && Turned(s1, i, s', i', g, !d, p);
    if n != root { assert Turned(s1, i, s', i', g, !d, s[n].parent); }
  }

  /** `z` on the outer side under a black uncle: after the rotation at the grandparent no breach is left. */
  lemma OuterStep<V>(s: Store<V>, i: Notes, s1: Store<V>, root: Ptr, s': Store<V>, i': Notes, root': Ptr,
                     z: Ptr, p: Ptr, g: Ptr, u: Ptr, d: bool)
    requires Clash(s, i, root, z) && Family(s, i, root, z, p, g, u, d) && s[p].Child(d) == z && s[u].black
    requires s1 == Flipped(s, p, g) && Rotation(s1, i, root, s', i', root', g, !d)
    ensures Linked(s', i', root') && Coloured(s', i', root', SENTINEL)
    ensures z in s' && !s'[z].black && s'[z].parent == p && p in s' && s'[p].black
  {
    FlippedSite(s, i, root, z, p, g, u, d);
    RotatedLinked(s1, i, root, s', i', root', g, !d);
    assert Turned(s1, i, s', i', g, !d, root) && Turned(s1, i, s', i', g, !d, p) && Turned(s1, i, s', i', g, !d, z);
    forall n | n in s' && n != SENTINEL ensures BlackOk(s', i', n) && RedOk(s', root', SENTINEL, n) {
      assert ChildOk(s, i, n, true) && ChildOk(s, i, n, false) && ParentOk(s, n, root);
      assert BlackOk(s, i, n) && RedOk(s, root, z, n);
      OuterBlack(s, i, s1, root, s', i', root', z, p, g, u, d, n);
      OuterRed(s, i, s1, root, s', i', root', z, p, g, u, d, n);
    }
  }

  // ---- Attaching a leaf, and the tree read off the store ----

  ghost predicate NodeIndexed<V>(s: Store<V>, at: map<int, Ptr>, n: Ptr)
    requires n in s
  {
    s[n].key in at && at[s[n].key] == n
  }

  ghost predicate KeyHeld<V>(s: Store<V>, at: map<int, Ptr>, k: int)
    requires k in at
  {
    at[k] in s && at[k] != SENTINEL && s[at[k]].key == k
  }

  /** `at` finds the node of every key. */
  ghost predicate Indexed<V>(s: Store<V>, at: map<int, Ptr>) {
    && (forall n {:trigger NodeIndexed(s, at, n)} :: n in s && n != SENTINEL ==> NodeIndexed(s, at, n))
    && (forall k {:trigger KeyHeld(s, at, k)} :: k in at ==> KeyHeld(s, at, k))
  }

  ghost predicate Sound<V>(s: Store<V>, i: Notes, root: Ptr, at: map<int, Ptr>) {
    Linked(s, i, root) && Coloured(s, i, root, SENTINEL) && Indexed(s, at) && (root == SENTINEL ==> at == map[])
  }

  ghost function Entries<V>(s: Store<V>, at: map<int, Ptr>): map<int, V> {
    map k | k in at && at[k] in s :: s[at[k]].val
  }

  function Attached<V>(s: Store<V>, p: Ptr, d: bool, z: Ptr, key: int, val: V): Store<V>
    requires p in s
  {
    s[z := Cell(key, val, SENTINEL, SENTINEL, p, false)][p := s[p].WithChild(d, z)]
  }

  ghost function LeafNote<V>(s: Store<V>, i: Notes, p: Ptr, d: bool): Note
    requires p in s && p in i
  {
    if d then Note(i[p].lo, Past(s[p].key), 1) else Note(Past(s[p].key), i[p].hi, 1)
  }

  lemma AttachNode<V>(s: Store<V>, i: Notes, root: Ptr, p: Ptr, d: bool, z: Ptr, key: int, val: V, n: Ptr)
    requires s.Keys == i.Keys && SENTINEL in s && s[SENTINEL].black && i[SENTINEL].bh == 0
    requires p in s && p != SENTINEL && s[p].Child(d) == SENTINEL && z !in s && z != NULL && root in s && n in s
    requires n != SENTINEL
    requires ChildOk(s, i, n, true) && ChildOk(s, i, n, false) && ParentOk(s, n, root)
    requires BlackOk(s, i, n) && RedOk(s, root, SENTINEL, n)
    ensures var s', i' := Attached(s, p, d, z, key, val), i[z := LeafNote(s, i, p, d)];
      && ChildOk(s', i', n, true) && ChildOk(s', i', n, false) && ParentOk(s', n, root)
      && BlackOk(s', i', n) && RedOk(s', root, z, n)
  {
  }

  /** A red leaf in a free place breaks at most the colour rule at itself. */
  lemma AttachStep<V>(s: Store<V>, i: Notes, root: Ptr, at: map<int, Ptr>, p: Ptr, d: bool, z: Ptr, key: int, val: V)
    requires Sound(s, i, root, at) && p in s && p != SENTINEL && s[p].Child(d) == SENTINEL
    requires z !in s && z != NULL && key !in at
    requires Within(LeafNote(s, i, p, d).lo, key, LeafNote(s, i, p, d).hi)
    ensures var s', i' := Attached(s, p, d, z, key, val), i[z := LeafNote(s, i, p, d)];
      Linked(s', i', root) && Coloured(s', i', root, z) && Indexed(s', at[key := z])
  {
    var s', i' := Attached(s, p, d, z, key, val), i[z := LeafNote(s, i, p, d)];
    forall n | n in s' && n != SENTINEL
      ensures ChildOk(s', i', n, true) && ChildOk(s', i', n, false) && ParentOk(s', n, root)
              && BlackOk(s', i', n) && RedOk(s', root, z, n)
    {
      if n != z {
        assert ChildOk(s, i, n, true) && ChildOk(s, i, n, false) && ParentOk(s, n, root);
        assert BlackOk(s, i, n) && RedOk(s, root, SENTINEL, n);
        AttachNode(s, i, root, p, d, z, key, val, n);
      }
    }
    forall n, e | n in s' && n != SENTINEL ensures ChildOk(s', i', n, e) {
      assert ChildOk(s', i', n, true) && ChildOk(s', i', n, false);
    }
    forall n | n in s' && n != SENTINEL ensures InGap(s', i', n) {
      if n != z { assert InGap(s, i, n); }
    }
    forall n | n in s' && n != SENTINEL ensures NodeIndexed(s', at[key := z], n) {
      if n != z { assert NodeIndexed(s, at, n); }
    }
    var at' := at[key := z];
    forall k | k in at' ensures KeyHeld(s', at', k) {
      if k != key { assert KeyHeld(s, at, k); }
    }
  }

  /** Falls on the way down: a black child has a smaller black height, a red one a black parent. */
  ghost function Depth<V>(s: Store<V>, i: Notes, n: Ptr): nat
    requires n in s && n in i
  {
    2 * i[n].bh + if s[n].black then 1 else 0
  }

  lemma ChildBelow<V>(s: Store<V>, i: Notes, root: Ptr, n: Ptr, d: bool)
    requires Linked(s, i, root) && Coloured(s, i, root, SENTINEL) && n in s && n != SENTINEL
    ensures s[n].Child(d) in s && (s[n].Child(d) != SENTINEL ==> Depth(s, i, s[n].Child(d)) < Depth(s, i, n))
  {
    var c := s[n].Child(d);
    assert ChildOk(s, i, n, d) && BlackOk(s, i, n);
    if c != SENTINEL { assert RedOk(s, root, SENTINEL, c) && ParentOk(s, c, root); }
  }

  /** The tree below `n`. */
  ghost function TreeOf<V>(s: Store<V>, i: Notes, root: Ptr, n: Ptr): Tree<V>
    requires Linked(s, i, root) && Coloured(s, i, root, SENTINEL) && n in s
    decreases if n == SENTINEL then 0 else Depth(s, i, n) + 1
  {
    if n == SENTINEL then Leaf
    else
      ChildBelow(s, i, root, n, true);
      ChildBelow(s, i, root, n, false);
      Bin(s[n].black, TreeOf(s, i, root, s[n].left), s[n].key, s[n].val, TreeOf(s, i, root, s[n].right))
  }

  /** One unfolding of `TreeOf`. */
  lemma TreeOfNode<V>(s: Store<V>, i: Notes, root: Ptr, n: Ptr)
    requires Linked(s, i, root) && Coloured(s, i, root, SENTINEL) && n in s && n != SENTINEL
    ensures s[n].left in s && s[n].right in s
    ensures TreeOf(s, i, root, n)
         == Bin(s[n].black, TreeOf(s, i, root, s[n].left), s[n].key, s[n].val, TreeOf(s, i, root, s[n].right))
    ensures ChildOk(s, i, n, true) && ChildOk(s, i, n, false) && BlackOk(s, i, n) && InGap(s, i, n)
    ensures forall d :: s[n].Child(d) != SENTINEL ==> Depth(s, i, s[n].Child(d)) < Depth(s, i, n)
    ensures forall d :: s[n].Child(d) != SENTINEL && !s[s[n].Child(d)].black ==> s[n].black
  {
    forall d ensures s[n].Child(d) in s ensures s[n].Child(d) != SENTINEL ==>
      Depth(s, i, s[n].Child(d)) < Depth(s, i, n) && (s[s[n].Child(d)].black || s[n].black)
    {
      ChildBelow(s, i, root, n, d);
      assert ChildOk(s, i, n, d);
      var c := s[n].Child(d);
      if c != SENTINEL { assert RedOk(s, root, SENTINEL, c) && ParentOk(s, c, root); }
    }
    ChildBelow(s, i, root, n, true);
    ChildBelow(s, i, root, n, false);
    assert ChildOk(s, i, n, true) && ChildOk(s, i, n, false) && BlackOk(s, i, n);
  }

  /** Node-by-node colour rules add up to the textbook ones. */
  lemma {:induction false} SubtreeColours<V>(s: Store<V>, i: Notes, root: Ptr, n: Ptr)
    requires Linked(s, i, root) && Coloured(s, i, root, SENTINEL) && n in s
    ensures var t := TreeOf(s, i, root, n);
      NoRedRed(t) && EqualBlack(t) && BlackCount(t) == Blacks(s, i, n) && IsBlack(t) == s[n].black
    decreases if n == SENTINEL then 0 else Depth(s, i, n) + 1
  {
    if n != SENTINEL {
      TreeOfNode(s, i, root, n);
      assert s[n].Child(true) == s[n].left && s[n].Child(false) == s[n].right;
      SubtreeColours(s, i, root, s[n].left);
      SubtreeColours(s, i, root, s[n].right);
    }
  }

  /** Keys below a node keep to its interval, so the subtree is ordered. */
  lemma {:induction false} SubtreeOrdered<V>(s: Store<V>, i: Notes, root: Ptr, n: Ptr)
    requires Linked(s, i, root) && Coloured(s, i, root, SENTINEL) && n in s
    ensures var t := TreeOf(s, i, root, n);
      Ordered(t) && (n != SENTINEL ==> forall k :: k in Keys(t) ==> Within(i[n].lo, k, i[n].hi))
    decreases if n == SENTINEL then 0 else Depth(s, i, n) + 1
  {
    if n != SENTINEL {
      TreeOfNode(s, i, root, n);
      assert s[n].Child(true) == s[n].left && s[n].Child(false) == s[n].right;
      SubtreeOrdered(s, i, root, s[n].left);
      SubtreeOrdered(s, i, root, s[n].right);
    }
  }

  lemma {:induction false} ContentsKeys<V>(t: Tree<V>)
    ensures Contents(t).Keys == Keys(t)
  {
    if t.Bin? {
      ContentsKeys(t.left);
      ContentsKeys(t.right);
    }
  }

  /** Every entry of the subtree is the index's entry for that key. */
  lemma {:induction false} SubtreeEntry<V>(s: Store<V>, i: Notes, root: Ptr, at: map<int, Ptr>, n: Ptr, k: int)
    requires Sound(s, i, root, at) && n in s && k in Contents(TreeOf(s, i, root, n))
    ensures k in at && at[k] in s && Contents(TreeOf(s, i, root, n))[k] == s[at[k]].val
    decreases if n == SENTINEL then 0 else Depth(s, i, n) + 1
  {
    if n != SENTINEL {
      TreeOfNode(s, i, root, n);
      assert NodeIndexed(s, at, n);
      assert s[n].Child(true) == s[n].left && s[n].Child(false) == s[n].right;
      if k == s[n].key {
      } else if k in Contents(TreeOf(s, i, root, s[n].right)) {
        SubtreeEntry(s, i, root, at, s[n].right, k);
      } else {
        SubtreeEntry(s, i, root, at, s[n].left, k);
      }
    }
  }

  lemma {:induction false} DepthBound<V>(s: Store<V>, i: Notes, part: set<Ptr>) returns (b: nat)
    requires s.Keys == i.Keys && part <= s.Keys
    ensures forall n :: n in part ==> Depth(s, i, n) <= b
    decreases |part|
  {
    if part == {} { return 0; }
    var n :| n in part;
    b := DepthBound(s, i, part - {n});
    if b < Depth(s, i, n) { b := Depth(s, i, n); }
  }

  /** Climbing parents from any node ends at the root. */
  lemma {:induction false} SubtreeInWhole<V>(s: Store<V>, i: Notes, root: Ptr, n: Ptr, b: nat)
    requires Linked(s, i, root) && Coloured(s, i, root, SENTINEL) && n in s && n != SENTINEL
    requires forall m :: m in s ==> Depth(s, i, m) <= b
    ensures Keys(TreeOf(s, i, root, n)) <= Keys(TreeOf(s, i, root, root))
    decreases b - Depth(s, i, n)
  {
    if n != root {
      assert ParentOk(s, n, root);
      var p := s[n].parent;
      ChildBelow(s, i, root, p, s[p].left == n);
      TreeOfNode(s, i, root, p);
      SubtreeInWhole(s, i, root, p, b);
    }
  }

  lemma WholeKeys<V>(s: Store<V>, i: Notes, root: Ptr, at: map<int, Ptr>, k: int)
    requires Sound(s, i, root, at) && k in at
    ensures at[k] in s && k in Keys(TreeOf(s, i, root, root))
  {
    assert KeyHeld(s, at, k);
    var b := DepthBound(s, i, s.Keys);
    TreeOfNode(s, i, root, at[k]);
    SubtreeInWhole(s, i, root, at[k], b);
  }

  /** The whole tree is a red-black tree that holds exactly the indexed entries. */
  lemma WholeTree<V>(s: Store<V>, i: Notes, root: Ptr, at: map<int, Ptr>)
    requires Sound(s, i, root, at)
    ensures IsRedBlack(TreeOf(s, i, root, root))
    ensures Keys(TreeOf(s, i, root, root)) == Contents(TreeOf(s, i, root, root)).Keys == at.Keys
    ensures Contents(TreeOf(s, i, root, root)) == Entries(s, at)
  {
    SubtreeColours(s, i, root, root);
    SubtreeOrdered(s, i, root, root);
    var t := TreeOf(s, i, root, root);
    ContentsKeys(t);
    forall k | k in at ensures k in Keys(t) && at[k] in s {
      WholeKeys(s, i, root, at, k);
    }
    forall k | k in Contents(t) ensures k in at && at[k] in s && Contents(t)[k] == s[at[k]].val {
      SubtreeEntry(s, i, root, at, root, k);
    }
    var c, e := Contents(t), Entries(s, at);
    assert c.Keys == e.Keys;
    assert c == e;
  }

  lemma {:induction false} CountKeys<V>(t: Tree<V>)
    requires Ordered(t)
    ensures Count(t) == |Keys(t)|
  {
    if t.Bin? {
      CountKeys(t.left);
      CountKeys(t.right);
      forall k | k in Keys(t.left) ensures k !in Keys(t.right) && k != t.key { }
      assert t.key !in Keys(t.left) + Keys(t.right) && Keys(t.left) !! Keys(t.right);
      assert |Keys(t)| == |Keys(t.left) + Keys(t.right)| + 1;
    }
  }

  // ---- Searching ----

  /** A search step loses nothing: the key is below the chosen child if it is below `n`. */
  lemma Descend<V>(s: Store<V>, i: Notes, root: Ptr, n: Ptr, key: int)
    requires Linked(s, i, root) && Coloured(s, i, root, SENTINEL) && n in s && n != SENTINEL && key != s[n].key
    ensures var c := s[n].Child(key < s[n].key);
      && c in s && (c != SENTINEL ==> Depth(s, i, c) < Depth(s, i, n))
      && (key in Keys(TreeOf(s, i, root, n)) <==> key in Keys(TreeOf(s, i, root, c)))
    ensures var c := s[n].Child(key < s[n].key);
      Within(i[n].lo, key, i[n].hi) ==>
        Within(LeafNote(s, i, n, key < s[n].key).lo, key, LeafNote(s, i, n, key < s[n].key).hi)
        && (c != SENTINEL ==> Within(i[c].lo, key, i[c].hi))
  {
    TreeOfNode(s, i, root, n);
    SubtreeOrdered(s, i, root, n);
    assert s[n].Child(true) == s[n].left && s[n].Child(false) == s[n].right;
    assert ChildOk(s, i, n, key < s[n].key);
  }

  lemma KeyInside<V>(s: Store<V>, i: Notes, root: Ptr, n: Ptr)
    requires Linked(s, i, root) && Coloured(s, i, root, SENTINEL) && n in s
    ensures n != SENTINEL ==> s[n].key in Keys(TreeOf(s, i, root, n))
    ensures n == SENTINEL ==> Keys(TreeOf(s, i, root, n)) == {}
  {
    if n != SENTINEL { TreeOfNode(s, i, root, n); }
  }

  lemma PlantStep<V>(s: Store<V>, i: Notes, z: Ptr, key: int, val: V)
    requires Sound(s, i, SENTINEL, map[]) && z !in s && z != NULL
    ensures var s', i' := s[z := Cell(key, val, SENTINEL, SENTINEL, NULL, true)], i[z := Note(Open, Open, 1)];
      Sound(s', i', z, map[key := z])
  {
  }

  lemma PlantedEntries<V>(s: Store<V>, z: Ptr, key: int, val: V)
    ensures Entries(s, map[]) == map[]
    ensures Entries(s[z := Cell(key, val, SENTINEL, SENTINEL, NULL, true)], map[key := z]) == map[key := val]
  {
  }

  lemma OverwriteNode<V>(s: Store<V>, i: Notes, root: Ptr, n: Ptr, val: V, m: Ptr)
    requires s.Keys == i.Keys && n in s && m in s
    requires ChildOk(s, i, m, true) && ChildOk(s, i, m, false) && ParentOk(s, m, root)
    requires InGap(s, i, m) && BlackOk(s, i, m) && RedOk(s, root, SENTINEL, m)
    ensures var s' := s[n := s[n].(val := val)];
      && ChildOk(s', i, m, true) && ChildOk(s', i, m, false) && ParentOk(s', m, root)
      && InGap(s', i, m) && BlackOk(s', i, m) && RedOk(s', root, SENTINEL, m)
  {
  }

  /** Assigning a value changes one entry and nothing else. */
  lemma OverwriteStep<V>(s: Store<V>, i: Notes, root: Ptr, at: map<int, Ptr>, n: Ptr, val: V)
    requires Sound(s, i, root, at) && n in s && n != SENTINEL
    ensures var s' := s[n := s[n].(val := val)]; Sound(s', i, root, at)
  {
    var s' := s[n := s[n].(val := val)];
    forall m | m in s' && m != SENTINEL
      ensures ChildOk(s', i, m, true) && ChildOk(s', i, m, false) && ParentOk(s', m, root)
      ensures InGap(s', i, m) && BlackOk(s', i, m) && RedOk(s', root, SENTINEL, m) && NodeIndexed(s', at, m)
    {
      assert ChildOk(s, i, m, true) && ChildOk(s, i, m, false) && ParentOk(s, m, root) && InGap(s, i, m);
      assert BlackOk(s, i, m) && RedOk(s, root, SENTINEL, m) && NodeIndexed(s, at, m);
      OverwriteNode(s, i, root, n, val, m);
    }
    forall m, d | m in s' && m != SENTINEL ensures ChildOk(s', i, m, d) {
      assert ChildOk(s', i, m, true) && ChildOk(s', i, m, false);
    }
    forall k | k in at ensures KeyHeld(s', at, k) { assert KeyHeld(s, at, k); }
  }

  lemma OverwriteEntries<V>(s: Store<V>, at: map<int, Ptr>, n: Ptr, val: V)
    requires Indexed(s, at) && n in s && n != SENTINEL
    ensures Entries(s[n := s[n].(val := val)], at) == Entries(s, at)[s[n].key := val]
  {
    assert NodeIndexed(s, at, n);
    forall k | k in at ensures at[k] in s && (k != s[n].key ==> at[k] != n) { assert KeyHeld(s, at, k); }
  }

  lemma AttachedEntries<V>(s: Store<V>, i: Notes, root: Ptr, at: map<int, Ptr>, p: Ptr, d: bool, z: Ptr, key: int,
                           val: V)
    requires Sound(s, i, root, at) && p in s && z !in s && key !in at
    ensures Entries(Attached(s, p, d, z, key, val), at[key := z]) == Entries(s, at)[key := val]
  {
    forall k | k in at ensures at[k] in s && at[k] != z { assert KeyHeld(s, at, k); }
  }

  // ---- What the fix-up loop keeps and why it ends ----

  /** The same nodes with the same keys and values. */
  ghost predicate SameEntries<V>(s: Store<V>, s': Store<V>) {
    s.Keys == s'.Keys && forall n {:trigger s'[n]} :: n in s ==> s'[n].key == s[n].key && s'[n].val == s[n].val
  }

  lemma RotatedEntries<V>(s: Store<V>, i: Notes, root: Ptr, s': Store<V>, i': Notes, root': Ptr, x: Ptr, d: bool)
    requires Rotation(s, i, root, s', i', root', x, d)
    ensures SameEntries(s, s')
  {
    forall n | n in s ensures s'[n].key == s[n].key && s'[n].val == s[n].val {
      assert Turned(s, i, s', i', x, d, n);
    }
  }

  lemma SameEntriesIndexed<V>(s: Store<V>, s': Store<V>, at: map<int, Ptr>)
    requires SameEntries(s, s') && Indexed(s, at)
    ensures Indexed(s', at) && Entries(s', at) == Entries(s, at)
  {
    forall n | n in s' && n != SENTINEL ensures NodeIndexed(s', at, n) { assert NodeIndexed(s, at, n); }
    forall k | k in at ensures KeyHeld(s', at, k) { assert KeyHeld(s, at, k); }
  }

  ghost function Reds<V>(s: Store<V>): set<Ptr> {
    set n | n in s && !s[n].black
  }

  /** Each repainting leaves one red node fewer, so the loop ends. */
  lemma RecolouredReds<V>(s: Store<V>, p: Ptr, g: Ptr, u: Ptr)
    requires p in s && g in s && u in s && p != u && p != g && g != u
    requires !s[p].black && !s[u].black && s[g].black
    ensures |Reds(Recoloured(s, p, g, u))| == |Reds(s)| - 1
  {
    assert Reds(Recoloured(s, p, g, u)) == Reds(s) - {p, u} + {g};
    assert Reds(s) == (Reds(s) - {p, u}) + {p, u};
  }

  lemma PaintedEntries<V>(s: Store<V>, n: Ptr, black: bool)
    requires n in s
    ensures SameEntries(s, Painted(s, n, black))
  {
  }

  lemma SameEntriesTrans<V>(s: Store<V>, s': Store<V>, s'': Store<V>)
    requires SameEntries(s, s') && SameEntries(s', s'')
    ensures SameEntries(s, s'')
  {
    forall n | n in s ensures s''[n].key == s[n].key && s''[n].val == s[n].val { assert s'[n].key == s[n].key; }
  }

  lemma FlippedEntries<V>(s: Store<V>, p: Ptr, g: Ptr)
    requires p in s && g in s
    ensures SameEntries(s, Flipped(s, p, g))
  {
    PaintedEntries(s, g, false);
    PaintedEntries(Painted(s, g, false), p, true);
    SameEntriesTrans(s, Painted(s, g, false), Flipped(s, p, g));
  }

  /** The whole effect of the red-uncle branch on the loop's invariant. */
  lemma RecolourTurn<V>(s: Store<V>, i: Notes, root: Ptr, s': Store<V>, i': Notes, z: Ptr, p: Ptr, g: Ptr, u: Ptr,
                        d: bool)
    requires Clash(s, i, root, z) && Family(s, i, root, z, p, g, u, d) && !s[u].black
    requires s' == Recoloured(s, p, g, u) && i' == i[g := i[g].(bh := i[g].bh + 1)]
    ensures Linked(s', i', root) && Coloured(s', i', root, g) && g in s' && !s'[g].black
    ensures g != root ==> s'[g].parent in s'
    ensures SameEntries(s, s') && |Reds(s')| < |Reds(s)|
  {
    RecolourStep(s, i, root, z, p, g, u, d);
    RecolouredReds(s, p, g, u);
    assert ParentOk(s', g, root);
    PaintedEntries(s, p, true);
    PaintedEntries(Painted(s, p, true), u, true);
    SameEntriesTrans(s, Painted(s, p, true), Painted(Painted(s, p, true), u, true));
    PaintedEntries(Painted(Painted(s, p, true), u, true), g, false);
    SameEntriesTrans(s, Painted(Painted(s, p, true), u, true), s');
  }

  lemma ColouredAnywhere<V>(s: Store<V>, i: Notes, root: Ptr, z: Ptr)
    requires Coloured(s, i, root, SENTINEL) && (root == SENTINEL ==> s[root].black)
    ensures Coloured(s, i, root, z)
  {
    forall n | n in s && n != SENTINEL ensures RedOk(s, root, z, n) { assert RedOk(s, root, SENTINEL, n); }
    forall n | n in s && n != SENTINEL ensures BlackOk(s, i, n) { }
  }

  /** The last statement: painting the root black ends any breach the loop left there. */
  lemma BlackRoot<V>(s: Store<V>, i: Notes, root: Ptr, z: Ptr)
    requires Linked(s, i, root) && Coloured(s, i, root, z) && z in s && z != SENTINEL && root != SENTINEL
    requires z == root || (s[z].parent in s && s[s[z].parent].black)
    ensures Linked(Painted(s, root, true), i, root) && Coloured(Painted(s, root, true), i, root, SENTINEL)
  {
    PaintedLinked(s, i, root, root, true);
    var s' := Painted(s, root, true);
    forall n | n in s' && n != SENTINEL ensures RedOk(s', root, SENTINEL, n) { assert RedOk(s, root, z, n); }
    forall n | n in s' && n != SENTINEL ensures BlackOk(s', i, n) {
      assert BlackOk(s, i, n) && ChildOk(s, i, n, true) && ChildOk(s, i, n, false) && ParentOk(s, root, root);
    }
  }

  // ---- The tree as the program keeps it ----

  class RBTree<V> {
    var store: Store<V>
    var root: Ptr
    var size: nat
    var next: Ptr             // the pointer the next `new` returns
    ghost var notes: Notes
    ghost var at: map<int, Ptr>

    ghost predicate Valid()
      reads this
    {
      Sound(store, notes, root, at) && size == |at| && 1 < next && forall n :: n in store ==> n < next
    }

    ghost function Tree(): Tree<V>
      requires Valid()
      reads this
    {
      TreeOf(store, notes, root, root)
    }

    constructor (defaultVal: V)
      ensures Valid() && Tree() == Leaf && size == 0
    {
      store := map[SENTINEL := Cell(0, defaultVal, NULL, NULL, NULL, true)];
      root, size, next := SENTINEL, 0, 2;
      notes := map[SENTINEL := Note(Open, Open, 0)];
      at := map[];
    }

    /** Only links move; `notes` follows them. */
    method LeftRotate(node: Ptr)
      requires Site(store, notes, root, node, true)
      modifies `store, `root, `notes
      ensures Rotation(old(store), old(notes), old(root), store, notes, root, node, true)
    {
      hide Rotation, InGap, Within, ChildOk;
      var right := store[node].right;
      notes := notes[right := Note(notes[node].lo, notes[node].hi, notes[right].bh)]
                    [node := notes[node].(hi := Past(store[right].key))];
      store := store[node := store[node].(right := store[right].left)];
      store := store[right := store[right].(left := node)];
      var moved := store[node].right;
      if moved != SENTINEL {
        store := store[moved := store[moved].(parent := node)];
      }
      var above := store[node].parent;
      if above == NULL {
        root := right;
      } else if node == store[above].left {
        store := store[above := store[above].(left := right)];
      } else {
        store := store[above := store[above].(right := right)];
      }
      store := store[right := store[right].(parent := above)];
      store := store[node := store[node].(parent := right)];
      assert store == Rotated(old(store), node, true);
      RotatedIsRotation(old(store), old(notes), old(root), store, notes, root, node, true);
    }

    method RightRotate(node: Ptr)
      requires Site(store, notes, root, node, false)
      modifies `store, `root, `notes
      ensures Rotation(old(store), old(notes), old(root), store, notes, root, node, false)
    {
      hide Rotation, InGap, Within, ChildOk;
      var left := store[node].left;
      notes := notes[left := Note(notes[node].lo, notes[node].hi, notes[left].bh)]
                    [node := notes[node].(lo := Past(store[left].key))];
      store := store[node := store[node].(left := store[left].right)];
      store := store[left := store[left].(right := node)];
      var moved := store[node].left;
      if moved != SENTINEL {
        store := store[moved := store[moved].(parent := node)];
      }
      var above := store[node].parent;
      if above == NULL {
        root := left;
      } else if node == store[above].left {
        store := store[above := store[above].(left := left)];
      } else {
        store := store[above := store[above].(right := left)];
      }
      store := store[left := store[left].(parent := above)];
      store := store[node := store[node].(parent := left)];
      assert store == Rotated(old(store), node, false);
      RotatedIsRotation(old(store), old(notes), old(root), store, notes, root, node, false);
    }

    ghost predicate InBreach(node: Ptr)
      reads this
    {
      && node in store && node != SENTINEL && !store[node].black && root != SENTINEL
      && (node != root ==> store[node].parent in store)
      && Linked(store, notes, root) && Coloured(store, notes, root, node)
    }

    method ReBalanceInsert(z: Ptr)
      requires InBreach(z)
      modifies `store, `root, `notes
      ensures Linked(store, notes, root) && Coloured(store, notes, root, SENTINEL)
      ensures SameEntries(old(store), store)
    {
      var node := z;
      while node != root && !store[store[node].parent].black
        invariant InBreach(node) && SameEntries(old(store), store)
        decreases if node != root && !store[store[node].parent].black then |Reds(store)| + 1 else 0
      {
        ghost var before := store;
        node := FixUnder(node);
        SameEntriesTrans(old(store), before, store);
      }
      BlackRoot(store, notes, root, node);
      PaintedEntries(store, root, true);
      SameEntriesTrans(old(store), store, Painted(store, root, true));
      store := store[root := store[root].(black := true)];
    }

    /** One turn of the loop. Its two halves mirror each other; `onLeft` says which one runs. */
    method FixUnder(z: Ptr) returns (node: Ptr)
      requires InBreach(z) && z != root && !store[store[z].parent].black
      modifies `store, `root, `notes
      ensures InBreach(node) && SameEntries(old(store), store)
      ensures |Reds(store)| < |Reds(old(store))| || (node != root ==> store[store[node].parent].black)
    {
      node := z;
      var parent := store[node].parent;
      ClashFamily(store, notes, root, node, true);
      ClashFamily(store, notes, root, node, false);
      var gp := store[parent].parent;
      var onLeft := parent == store[gp].left;
      var uncle := store[gp].Child(!onLeft);
      if !store[uncle].black {
        Recolour(node, parent, gp, uncle, onLeft);
        node := gp;
      } else {
        if node == store[parent].Child(!onLeft) {
          TurnInner(node, parent, gp, uncle, onLeft);
          node := parent;
        }
        ghost var between := store;
        TurnOuter(node, store[node].parent, gp, uncle, onLeft);
        SameEntriesTrans(old(store), between, store);
      }
    }

    /** Red uncle: the loop goes on from the grandparent. */
    method Recolour(node: Ptr, parent: Ptr, gp: Ptr, uncle: Ptr, ghost d: bool)
      requires Clash(store, notes, root, node) && root != SENTINEL
      requires Family(store, notes, root, node, parent, gp, uncle, d) && !store[uncle].black
      modifies `store, `notes
      ensures InBreach(gp) && SameEntries(old(store), store) && |Reds(store)| < |Reds(old(store))|
    {
      ghost var s, i := store, notes;
      store := store[parent := store[parent].(black := true)];
      store := store[uncle := store[uncle].(black := true)];
      store := store[gp := store[gp].(black := false)];
      notes := notes[gp := notes[gp].(bh := notes[gp].bh + 1)];
      assert store == Recoloured(s, parent, gp, uncle);
      RecolourTurn(s, i, root, store, notes, node, parent, gp, uncle, d);
    }

    /** Inner child: the first of the two rotations. */
    method TurnInner(ghost z: Ptr, parent: Ptr, ghost gp: Ptr, ghost uncle: Ptr, d: bool)
      requires Clash(store, notes, root, z) && Family(store, notes, root, z, parent, gp, uncle, d)
      requires store[parent].Child(!d) == z && store[uncle].black
      modifies `store, `root, `notes
      ensures Clash(store, notes, root, parent) && Family(store, notes, root, parent, z, gp, uncle, d)
      ensures store[z].Child(d) == parent && store[uncle].black && SameEntries(old(store), store)
    {
      LinkedSite(store, notes, root, parent, d);
      ghost var s, i := store, notes;
      if d { LeftRotate(parent); } else { RightRotate(parent); }
      InnerStep(s, i, root, store, notes, z, parent, gp, uncle, d);
      RotatedEntries(s, i, root, store, notes, root, parent, d);
    }

    /** Outer child: repaint, then rotate the grandparent down. */
    method TurnOuter(node: Ptr, parent: Ptr, gp: Ptr, ghost uncle: Ptr, d: bool)
      requires Clash(store, notes, root, node) && root != SENTINEL
      requires Family(store, notes, root, node, parent, gp, uncle, d)
      requires store[parent].Child(d) == node && store[uncle].black
      modifies `store, `root, `notes
      ensures InBreach(node) && SameEntries(old(store), store)
      ensures store[node].parent in store && store[store[node].parent].black
    {
      ghost var s, i, r := store, notes, root;
      FlippedSite(store, notes, root, node, parent, gp, uncle, d);
      store := store[gp := store[gp].(black := false)];
      store := store[parent := store[parent].(black := true)];
      ghost var s1 := store;
      assert s1 == Flipped(s, parent, gp);
      if d { RightRotate(gp); } else { LeftRotate(gp); }
      OuterStep(s, i, s1, r, store, notes, root, node, parent, gp, uncle, d);
      RotatedEntries(s1, i, r, store, notes, root, gp, !d);
      FlippedEntries(s, parent, gp);
      SameEntriesTrans(s, s1, store);
      ColouredAnywhere(store, notes, root, node);
    }

    /** A leaf with this key may hang on that side of `parent`. */
    ghost predicate Fits(parent: Ptr, onLeft: bool, key: int)
      requires Valid()
      reads this
    {
      && parent in store && parent != SENTINEL
      && Within(LeafNote(store, notes, parent, onLeft).lo, key, LeafNote(store, notes, parent, onLeft).hi)
    }

    /** An empty tree gets a black root. */
    method PlantRoot(key: int, val: V)
      requires Valid() && root == SENTINEL
      modifies this
      ensures Valid() && size == old(size) + 1
      ensures Entries(store, at) == old(Entries(store, at))[key := val]
    {
      hide Linked, Coloured, Indexed, Entries;
      assert at == map[] && |at| == 0 && next !in store;
      PlantStep(store, notes, next, key, val);
      PlantedEntries(store, next, key, val);
      hide Sound;
      ghost var s := store;
      var node := next;
      store := store[node := Cell(key, val, SENTINEL, SENTINEL, NULL, false)];
      root, next := node, next + 1;
      store := store[node := store[node].(black := true)];
      assert store == s[node := Cell(key, val, SENTINEL, SENTINEL, NULL, true)];
      notes, at := notes[node := Note(Open, Open, 1)], map[key := node];
      size := size + 1;
    }

    /** The key is there: only its value changes. */
    method Overwrite(node: Ptr, key: int, val: V)
      requires Valid() && node in store && node != SENTINEL && store[node].key == key
      modifies `store
      ensures Valid() && Entries(store, at) == old(Entries(store, at))[key := val]
    {
      OverwriteStep(store, notes, root, at, node, val);
      OverwriteEntries(store, at, node, val);
      store := store[node := store[node].(val := val)];
    }

    /** A new red leaf under `parent`, then the fix-up. */
    method Grow(parent: Ptr, onLeft: bool, key: int, val: V)
      requires Valid() && key !in at && root != SENTINEL
      requires Fits(parent, onLeft, key) && store[parent].Child(onLeft) == SENTINEL
      modifies this
      ensures Valid() && size == old(size) + 1
      ensures Entries(store, at) == old(Entries(store, at))[key := val]
    {
      hide Coloured, Entries, Indexed, SameEntries, LeafNote;
      AttachStep(store, notes, root, at, parent, onLeft, next, key, val);
      AttachedEntries(store, notes, root, at, parent, onLeft, next, key, val);
      var node := next;
      next := next + 1;
      notes := notes[node := LeafNote(store, notes, parent, onLeft)];
      at := at[key := node];
      store := store[node := Cell(key, val, SENTINEL, SENTINEL, parent, false)];
      store := store[parent := store[parent].WithChild(onLeft, node)];
      ghost var planted := store;
      ReBalanceInsert(node);
      SameEntriesIndexed(planted, store, at);
      size := size + 1;
    }

    method Find(key: int) returns (found: bool, val: V)
      requires Valid()
      ensures found <==> key in Contents(Tree())
      ensures found ==> val == Contents(Tree())[key]
    {
      WholeTree(store, notes, root, at);
      var node := root;
      while node != SENTINEL && store[node].key != key
        invariant node in store
        invariant key in at <==> key in Keys(TreeOf(store, notes, root, node))
        decreases if node == SENTINEL then 0 else Depth(store, notes, node) + 1
      {
        Descend(store, notes, root, node, key);
        node := if key > store[node].key then store[node].right else store[node].left;
      }
      KeyInside(store, notes, root, node);
      if node != SENTINEL { assert NodeIndexed(store, at, node); }
      val := store[node].val;
      found := node != SENTINEL;
    }

    /** The descent of `insert`: the node holding the key, or the free place where it belongs. */
    method Locate(key: int) returns (node: Ptr, parent: Ptr, onLeft: bool)
      requires Valid() && root != SENTINEL
      ensures node in store && (node != SENTINEL ==> store[node].key == key)
      ensures node != SENTINEL <==> key in at
      ensures node == SENTINEL ==> Fits(parent, onLeft, key) && store[parent].Child(onLeft) == SENTINEL
    {
      WholeTree(store, notes, root, at);
      node, parent, onLeft := root, NULL, false;
      while node != SENTINEL && store[node].key != key
        invariant node in store && (node == SENTINEL ==> parent != NULL)
        invariant key in at <==> key in Keys(TreeOf(store, notes, root, node))
        invariant node != SENTINEL ==> Within(notes[node].lo, key, notes[node].hi)
        invariant parent != NULL ==> Fits(parent, onLeft, key) && store[parent].Child(onLeft) == node
        decreases if node == SENTINEL then 0 else Depth(store, notes, node) + 1
      {
        Descend(store, notes, root, node, key);
        parent := node;
        onLeft := !(key > store[node].key);
        node := store[node].Child(onLeft);
      }
      KeyInside(store, notes, root, node);
    }

    /** A map update that keeps the tree red-black; the answer says whether the key is new. */
    method Insert(key: int, val: V) returns (added: bool)
      requires Valid()
      modifies this
      ensures Valid() && IsRedBlack(Tree())
      ensures Contents(Tree()) == old(Contents(Tree()))[key := val]
      ensures added <==> key !in old(Contents(Tree()))
      ensures size == old(size) + (if added then 1 else 0)
    {
      WholeTree(store, notes, root, at);
      if root == SENTINEL {
        PlantRoot(key, val);
        added := true;
      } else {
        var node, parent, onLeft := Locate(key);
        added := node == SENTINEL;
        if node != SENTINEL {
          Overwrite(node, key, val);
        } else {
          Grow(parent, onLeft, key, val);
        }
      }
      WholeTree(store, notes, root, at);
    }

    /** `size` counts the tree's nodes, and searching takes at most 2*log2(size+1) steps. */
    lemma SizeAndHeight()
      requires Valid()
      ensures size == Count(Tree()) == |Contents(Tree())|
      ensures Pow2(Height(Tree())) <= (size + 1) * (size + 1)
    {
      hide Linked, Coloured, Indexed, TreeOf, IsRedBlack, Keys, Contents, Count, Height, Pow2;
      WholeTree(store, notes, root, at);
      SizedHeight(Tree(), size, at.Keys);
    }
  }

  lemma SizedHeight<V>(t: Tree<V>, size: nat, keys: set<int>)
    requires IsRedBlack(t) && Keys(t) == keys && size == |keys|
    ensures size == Count(t) == |Keys(t)| && Pow2(Height(t)) <= (size + 1) * (size + 1)
  {
    assert Ordered(t);
    hide *;
    CountKeys(t);
    HeightIsLogarithmic(t);
    assert Count(t) == size;
  }
}
