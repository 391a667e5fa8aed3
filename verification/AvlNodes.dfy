/** The AVL tree as linked nodes (DataStruct/AVL_Tree.hpp). Nodes live in a store from pointers to cells;
    a ghost shape says which nodes make up a subtree. Every method is proved to turn the tree that its
    nodes spell out into the one the functions of module AvlTree compute, touching no other node. */
module AvlNodes {
  import opened Common
  import opened SortedEntries
  import opened AvlTree

  type Ptr = nat
  const NULL: Ptr := 0

  datatype Cell<V> = Cell(key: int, val: V, left: Ptr, right: Ptr, height: nat)

  type Store<V> = map<Ptr, Cell<V>>

  /** Which nodes make up a tree, and how they hang together. */
  datatype Shape = Nil | At(p: Ptr, left: Shape, right: Shape)

  ghost function Ptrs(sh: Shape): set<Ptr> {
    if sh.Nil? then {} else {sh.p} + Ptrs(sh.left) + Ptrs(sh.right)
  }

  /** The links from `p` on spell out the shape, and no node occurs twice. */
  ghost predicate Laid<V>(s: Store<V>, p: Ptr, sh: Shape)
    decreases sh
  {
    if sh.Nil? then p == NULL
    else
      && p == sh.p && p != NULL && p in s
      && Laid(s, s[p].left, sh.left) && Laid(s, s[p].right, sh.right)
      && p !in Ptrs(sh.left) && p !in Ptrs(sh.right) && Ptrs(sh.left) !! Ptrs(sh.right)
  }

  ghost function TreeAt<V>(s: Store<V>, sh: Shape): Tree<V>
    requires Ptrs(sh) <= s.Keys
  {
    if sh.Nil? then Leaf
    else Bin(s[sh.p].height, TreeAt(s, sh.left), s[sh.p].key, s[sh.p].val, TreeAt(s, sh.right))
  }

  lemma {:induction false} LaidInStore<V>(s: Store<V>, p: Ptr, sh: Shape)
    requires Laid(s, p, sh)
    ensures Ptrs(sh) <= s.Keys && NULL !in Ptrs(sh)
    decreases sh
  {
    if sh.At? {
      LaidInStore(s, s[p].left, sh.left);
      LaidInStore(s, s[p].right, sh.right);
    }
  }

  /** A tree of nodes in the store. */
  ghost predicate Stands<V>(s: Store<V>, p: Ptr, sh: Shape) {
    Laid(s, p, sh) && Ptrs(sh) <= s.Keys
  }

  /** Changes elsewhere do not touch a tree. */
  lemma {:induction false} Frame<V>(s: Store<V>, s': Store<V>, p: Ptr, sh: Shape)
    requires Stands(s, p, sh) && forall q :: q in Ptrs(sh) ==> q in s' && s'[q] == s[q]
    ensures Stands(s', p, sh) && TreeAt(s', sh) == TreeAt(s, sh)
    decreases sh
  {
    if sh.At? {
      Frame(s, s', s[p].left, sh.left);
      Frame(s, s', s[p].right, sh.right);
    }
  }

  /** Nothing outside the tree changed, and nothing else was freed. */
  ghost predicate OnlyIn<V>(s: Store<V>, s': Store<V>, ps: set<Ptr>) {
    forall q :: q in s && q !in ps ==> q in s' && s'[q] == s[q]
  }

  /** The parts of a standing tree stand, apart from each other. */
  ghost predicate Over<V>(s: Store<V>, p: Ptr, l: Shape, r: Shape) {
    && p != NULL && p in s && Stands(s, s[p].left, l) && Stands(s, s[p].right, r)
    && p !in Ptrs(l) && p !in Ptrs(r) && Ptrs(l) !! Ptrs(r)
  }

  ghost function TreeOver<V>(s: Store<V>, p: Ptr, l: Shape, r: Shape): Tree<V>
    requires Over(s, p, l, r)
  {
    Bin(s[p].height, TreeAt(s, l), s[p].key, s[p].val, TreeAt(s, r))
  }

  lemma StandsOver<V>(s: Store<V>, p: Ptr, l: Shape, r: Shape)
    ensures Stands(s, p, At(p, l, r)) <==> Over(s, p, l, r)
    ensures Over(s, p, l, r) ==> TreeAt(s, At(p, l, r)) == TreeOver(s, p, l, r)
  {
    if Over(s, p, l, r) {
      LaidInStore(s, s[p].left, l);
      LaidInStore(s, s[p].right, r);
    }
  }

  lemma ShapeMatches<V>(s: Store<V>, sh: Shape)
    requires Ptrs(sh) <= s.Keys
    ensures TreeAt(s, sh).Bin? <==> sh.At?
    ensures sh.At? ==> (TreeAt(s, sh).left.Bin? <==> sh.left.At?) && (TreeAt(s, sh).right.Bin? <==> sh.right.At?)
  {
    if sh.At? {
      assert TreeAt(s, sh.left).Bin? <==> sh.left.At?;
      assert TreeAt(s, sh.right).Bin? <==> sh.right.At?;
    }
  }

  ghost function Rightmost(sh: Shape): Ptr
    requires sh.At?
  {
    if sh.right.Nil? then sh.p else Rightmost(sh.right)
  }

  ghost function Leftmost(sh: Shape): Ptr
    requires sh.At?
  {
    if sh.left.Nil? then sh.p else Leftmost(sh.left)
  }

  /** Overwriting the rightmost node is `WithMax` on the tree. */
  lemma {:induction false} SwapAtMax<V>(s: Store<V>, s': Store<V>, p: Ptr, sh: Shape, key: int, val: V)
    requires Stands(s, p, sh) && sh.At? && Rightmost(sh) in s
    requires s' == s[Rightmost(sh) := s[Rightmost(sh)].(key := key, val := val)]
    ensures Rightmost(sh) in Ptrs(sh) && TreeAt(s, sh).Bin?
    ensures MaxEntry(TreeAt(s, sh)) == (s[Rightmost(sh)].key, s[Rightmost(sh)].val)
    ensures Stands(s', p, sh) && TreeAt(s', sh) == WithMax(TreeAt(s, sh), key, val)
    decreases sh
  {
    StandsOver(s, p, sh.left, sh.right);
    ShapeMatches(s, sh);
    if sh.right.Nil? {
      Frame(s, s', s[p].left, sh.left);
    } else {
      SwapAtMax(s, s', s[p].right, sh.right, key, val);
      Frame(s, s', s[p].left, sh.left);
    }
    StandsOver(s', p, sh.left, sh.right);
  }

  lemma {:induction false} SwapAtMin<V>(s: Store<V>, s': Store<V>, p: Ptr, sh: Shape, key: int, val: V)
    requires Stands(s, p, sh) && sh.At? && Leftmost(sh) in s
    requires s' == s[Leftmost(sh) := s[Leftmost(sh)].(key := key, val := val)]
    ensures Leftmost(sh) in Ptrs(sh) && TreeAt(s, sh).Bin?
    ensures MinEntry(TreeAt(s, sh)) == (s[Leftmost(sh)].key, s[Leftmost(sh)].val)
    ensures Stands(s', p, sh) && TreeAt(s', sh) == WithMin(TreeAt(s, sh), key, val)
    decreases sh
  {
    StandsOver(s, p, sh.left, sh.right);
    ShapeMatches(s, sh);
    if sh.left.Nil? {
      Frame(s, s', s[p].right, sh.right);
    } else {
      SwapAtMin(s, s', s[p].left, sh.left, key, val);
      Frame(s, s', s[p].right, sh.right);
    }
    StandsOver(s', p, sh.left, sh.right);
  }

  class AVLTree<V> {
    var store: Store<V>
    var root: Ptr
    var size: int
    var next: Ptr
    ghost var shape: Shape

    function GetHeight(p: Ptr): nat
      reads this
    {
      if p == NULL || p !in store then 0 else store[p].height
    }

    /** `node->height_ = max(...) + 1`. */
    method SetHeight(p: Ptr, ghost l: Shape, ghost r: Shape)
      requires Over(store, p, l, r)
      modifies `store
      ensures store.Keys == old(store.Keys) && store == old(store)[p := store[p]] && Over(store, p, l, r)
      ensures Stands(store, p, At(p, l, r))
      ensures TreeAt(store, At(p, l, r))
          == Reheight(Bin(0, old(TreeAt(store, l)), old(store[p].key), old(store[p].val), old(TreeAt(store, r))))
    {
      ghost var s := store;
      var h := Max(GetHeight(store[p].left), GetHeight(store[p].right)) + 1;
      store := store[p := store[p].(height := h)];
      Frame(s, store, store[p].left, l);
      Frame(s, store, store[p].right, r);
      StandsOver(store, p, l, r);
    }

    /** The two height updates at the end of `leftRotate`: `n` is on top now, `node` below on its left. */
    method SettleLeft(n: Ptr, node: Ptr, ghost a: Shape, ghost b: Shape, ghost c: Shape)
      requires Over(store, node, a, b) && n != NULL && n in store && n != node && store[n].left == node
      requires Stands(store, store[n].right, c)
      requires n !in Ptrs(a) + Ptrs(b) + Ptrs(c) && node !in Ptrs(c) && Ptrs(a) + Ptrs(b) !! Ptrs(c)
      modifies `store
      ensures Stands(store, n, At(n, At(node, a, b), c)) && store.Keys == old(store.Keys)
      ensures OnlyIn(old(store), store, {n, node})
      ensures TreeAt(store, At(n, At(node, a, b), c)) == old(Reheight(Bin(0,
        Reheight(Bin(0, TreeAt(store, a), store[node].key, store[node].val, TreeAt(store, b))),
        store[n].key, store[n].val, TreeAt(store, c))))
    {
      ghost var s := store;
      SetHeight(node, a, b);
      hide Laid, TreeAt;
      Frame(s, store, store[n].right, c);
      SetHeight(n, At(node, a, b), c);
    }

    method SettleRight(n: Ptr, node: Ptr, ghost a: Shape, ghost b: Shape, ghost c: Shape)
      requires Over(store, node, b, c) && n != NULL && n in store && n != node && store[n].right == node
      requires Stands(store, store[n].left, a)
      requires n !in Ptrs(a) + Ptrs(b) + Ptrs(c) && node !in Ptrs(a) && Ptrs(a) !! Ptrs(b) + Ptrs(c)
      modifies `store
      ensures Stands(store, n, At(n, a, At(node, b, c))) && store.Keys == old(store.Keys)
      ensures OnlyIn(old(store), store, {n, node})
      ensures TreeAt(store, At(n, a, At(node, b, c)))
          == old(Reheight(Bin(0, TreeAt(store, a), store[n].key, store[n].val,
        Reheight(Bin(0, TreeAt(store, b), store[node].key, store[node].val, TreeAt(store, c))))))
    {
      ghost var s := store;
      SetHeight(node, b, c);
      hide Laid, TreeAt;
      Frame(s, store, store[n].left, a);
      SetHeight(n, a, At(node, b, c));
    }

    /** `leftRotate` at the node over `l` and `r`; the answer is the new top of the subtree. */
    method RotateLeft(node: Ptr, ghost l: Shape, ghost r: Shape) returns (n: Ptr, ghost sh: Shape)
      requires Over(store, node, l, r) && r.At?
      modifies `store
      ensures Stands(store, n, sh) && sh.At? && Ptrs(sh) == {node} + Ptrs(l) + Ptrs(r)
      ensures old(store).Keys == store.Keys && OnlyIn(old(store), store, Ptrs(sh))
      ensures TreeAt(store, sh) == LeftRotate(old(TreeOver(store, node, l, r)))
    {
      StandsOver(store, node, l, r);
      ghost var s := store;
      n := store[node].right;
      assert n == r.p;
      hide Laid;
      StandsOver(store, n, r.left, r.right);
      hide TreeAt;
      store := store[node := store[node].(right := store[n].left)];
      store := store[n := store[n].(left := node)];
      Frame(s, store, store[node].left, l);
      Frame(s, store, store[node].right, r.left);
      Frame(s, store, store[n].right, r.right);
      SettleLeft(n, node, l, r.left, r.right);
      sh := At(n, At(node, l, r.left), r.right);
    }

    method RotateRight(node: Ptr, ghost l: Shape, ghost r: Shape) returns (n: Ptr, ghost sh: Shape)
      requires Over(store, node, l, r) && l.At?
      modifies `store
      ensures Stands(store, n, sh) && sh.At? && Ptrs(sh) == {node} + Ptrs(l) + Ptrs(r)
      ensures old(store).Keys == store.Keys && OnlyIn(old(store), store, Ptrs(sh))
      ensures TreeAt(store, sh) == RightRotate(old(TreeOver(store, node, l, r)))
    {
      StandsOver(store, node, l, r);
      ghost var s := store;
      n := store[node].left;
      assert n == l.p;
      hide Laid;
      StandsOver(store, n, l.left, l.right);
      hide TreeAt;
      store := store[node := store[node].(left := store[n].right)];
      store := store[n := store[n].(right := node)];
      Frame(s, store, store[node].right, r);
      Frame(s, store, store[node].left, l.right);
      Frame(s, store, store[n].left, l.left);
      SettleRight(n, node, l.left, l.right, r);
      sh := At(n, l.left, At(node, l.right, r));
    }

    method RotateRightLeft(node: Ptr, ghost l: Shape, ghost r: Shape) returns (n: Ptr, ghost sh: Shape)
      requires Over(store, node, l, r) && r.At? && r.left.At? && TreeAt(store, r).Bin? && TreeAt(store, r).left.Bin?
      modifies `store
      ensures Stands(store, n, sh) && sh.At? && Ptrs(sh) == {node} + Ptrs(l) + Ptrs(r)
      ensures old(store).Keys == store.Keys && OnlyIn(old(store), store, Ptrs(sh))
      ensures TreeAt(store, sh) == RightAndLeftRotate(old(TreeOver(store, node, l, r)))
    {
      StandsOver(store, node, l, r);
      ghost var s := store;
      var right := store[node].right;
      StandsOver(store, right, r.left, r.right);
      var n0, r' := RotateRight(right, r.left, r.right);
      Frame(s, store, store[node].left, l);
      ghost var s1 := store;
      store := store[node := store[node].(right := n0)];
      Frame(s1, store, store[node].left, l);
      Frame(s1, store, n0, r');
      StandsOver(store, node, l, r');
      n, sh := RotateLeft(node, l, r');
    }

    method RotateLeftRight(node: Ptr, ghost l: Shape, ghost r: Shape) returns (n: Ptr, ghost sh: Shape)
      requires Over(store, node, l, r) && l.At? && l.right.At? && TreeAt(store, l).Bin? && TreeAt(store, l).right.Bin?
      modifies `store
      ensures Stands(store, n, sh) && sh.At? && Ptrs(sh) == {node} + Ptrs(l) + Ptrs(r)
      ensures old(store).Keys == store.Keys && OnlyIn(old(store), store, Ptrs(sh))
      ensures TreeAt(store, sh) == LeftAndRightRotate(old(TreeOver(store, node, l, r)))
    {
      StandsOver(store, node, l, r);
      ghost var s := store;
      var left := store[node].left;
      StandsOver(store, left, l.left, l.right);
      var n0, l' := RotateLeft(left, l.left, l.right);
      Frame(s, store, store[node].right, r);
      ghost var s1 := store;
      store := store[node := store[node].(left := n0)];
      Frame(s1, store, store[node].right, r);
      Frame(s1, store, n0, l');
      StandsOver(store, node, l', r);
      n, sh := RotateRight(node, l', r);
    }

    method BalanceOf(p: Ptr, ghost l: Shape, ghost r: Shape) returns (b: nat)
      requires Over(store, p, l, r)
      ensures b == BalanceFactor(TreeOver(store, p, l, r))
    {
      StandsOver(store, p, l, r);
      var lh, rh := GetHeight(store[p].left), GetHeight(store[p].right);
      b := if lh > rh then lh - rh else rh - lh;
    }

    /** The refreshed height at the end, on whatever node is now on top. */
    method Refresh(p: Ptr, ghost sh: Shape)
      requires Stands(store, p, sh) && sh.At?
      modifies `store
      ensures Stands(store, p, sh) && store.Keys == old(store.Keys) && OnlyIn(old(store), store, Ptrs(sh))
      ensures TreeAt(store, sh) == Reheight(old(TreeAt(store, sh)))
    {
      StandsOver(store, p, sh.left, sh.right);
      SetHeight(p, sh.left, sh.right);
    }

    /** After the recursive call on the right. */
    method FixRightAt(p: Ptr, key: int, ghost l: Shape, ghost r: Shape) returns (q: Ptr, ghost sh: Shape)
      requires Over(store, p, l, r)
      requires FixRight.requires(TreeOver(store, p, l, r), key) && FixRight(TreeOver(store, p, l, r), key).Some?
      modifies `store
      ensures Stands(store, q, sh) && sh.At? && Ptrs(sh) == {p} + Ptrs(l) + Ptrs(r)
      ensures old(store).Keys == store.Keys && OnlyIn(old(store), store, Ptrs(sh))
      ensures TreeAt(store, sh) == FixRight(old(TreeOver(store, p, l, r)), key).value
    {
      StandsOver(store, p, l, r);
      var b := BalanceOf(p, l, r);
      if b > 1 {
        ShapeMatches(store, r);
        var right := store[p].right;
        if key > store[right].key {
          q, sh := RotateLeft(p, l, r);
        } else {
          q, sh := RotateRightLeft(p, l, r);
        }
      } else {
        q, sh := p, At(p, l, r);
      }
      Refresh(q, sh);
    }

    method FixLeftAt(p: Ptr, key: int, ghost l: Shape, ghost r: Shape) returns (q: Ptr, ghost sh: Shape)
      requires Over(store, p, l, r)
      requires FixLeft.requires(TreeOver(store, p, l, r), key) && FixLeft(TreeOver(store, p, l, r), key).Some?
      modifies `store
      ensures Stands(store, q, sh) && sh.At? && Ptrs(sh) == {p} + Ptrs(l) + Ptrs(r)
      ensures old(store).Keys == store.Keys && OnlyIn(old(store), store, Ptrs(sh))
      ensures TreeAt(store, sh) == FixLeft(old(TreeOver(store, p, l, r)), key).value
    {
      StandsOver(store, p, l, r);
      var b := BalanceOf(p, l, r);
      if b > 1 {
        ShapeMatches(store, l);
        var left := store[p].left;
        if key > store[left].key {
          q, sh := RotateLeftRight(p, l, r);
        } else {
          q, sh := RotateRight(p, l, r);
        }
      } else {
        q, sh := p, At(p, l, r);
      }
      Refresh(q, sh);
    }

    ghost predicate Room()
      reads this
    {
      next > NULL && forall q :: q in store ==> q < next
    }

    method NewLeaf(key: int, val: V) returns (q: Ptr)
      requires Room()
      modifies `store, `size, `next
      ensures q == old(next) && Stands(store, q, At(q, Nil, Nil)) && Room() && next == old(next) + 1
      ensures size == old(size) + 1
      ensures TreeAt(store, At(q, Nil, Nil)) == Bin(1, Leaf, key, val, Leaf) && OnlyIn(old(store), store, {})
    {
      q := next;
      store := store[q := Cell(key, val, NULL, NULL, 0)];
      next, size := next + 1, size + 1;
      SetHeight(q, Nil, Nil);
    }

    /** `node->right_ = c`, where `c` stands for the shape `r` and the left child is as before. */
    method LinkRight(p: Ptr, c: Ptr, ghost l: Shape, ghost r: Shape)
      requires p != NULL && p in store && Stands(store, store[p].left, l) && Stands(store, c, r)
      requires p !in Ptrs(l) && p !in Ptrs(r) && Ptrs(l) !! Ptrs(r)
      modifies `store
      ensures Over(store, p, l, r) && store == old(store)[p := old(store)[p].(right := c)]
      ensures TreeOver(store, p, l, r)
           == old(Bin(store[p].height, TreeAt(store, l), store[p].key, store[p].val, TreeAt(store, r)))
    {
      ghost var s := store;
      store := store[p := store[p].(right := c)];
      Frame(s, store, store[p].left, l);
      Frame(s, store, c, r);
    }

    method LinkLeft(p: Ptr, c: Ptr, ghost l: Shape, ghost r: Shape)
      requires p != NULL && p in store && Stands(store, c, l) && Stands(store, store[p].right, r)
      requires p !in Ptrs(l) && p !in Ptrs(r) && Ptrs(l) !! Ptrs(r)
      modifies `store
      ensures Over(store, p, l, r) && store == old(store)[p := old(store)[p].(left := c)]
      ensures TreeOver(store, p, l, r)
           == old(Bin(store[p].height, TreeAt(store, l), store[p].key, store[p].val, TreeAt(store, r)))
    {
      ghost var s := store;
      store := store[p := store[p].(left := c)];
      Frame(s, store, store[p].right, r);
      Frame(s, store, c, l);
    }

    method Assign(p: Ptr, key: int, val: V, ghost l: Shape, ghost r: Shape)
      requires Over(store, p, l, r)
      modifies `store
      ensures Over(store, p, l, r) && store == old(store)[p := old(store)[p].(key := key, val := val)]
      ensures TreeOver(store, p, l, r) == old(Bin(store[p].height, TreeAt(store, l), key, val, TreeAt(store, r)))
    {
      ghost var s := store;
      store := store[p := store[p].(key := key, val := val)];
      Frame(s, store, store[p].left, l);
      Frame(s, store, store[p].right, r);
    }

    /** The recursive `insert` from `p` down. */
    method InsertAt(p: Ptr, key: int, val: V, ghost sh: Shape) returns (q: Ptr, ghost sh': Shape)
      requires Stands(store, p, sh) && TrueHeights(TreeAt(store, sh)) && Room()
      requires AvlTree.Insert(TreeAt(store, sh), key, val).Some?
      modifies `store, `size, `next
      ensures Stands(store, q, sh') && TreeAt(store, sh') == AvlTree.Insert(old(TreeAt(store, sh)), key, val).value
      ensures Room() && next >= old(next) && OnlyIn(old(store), store, Ptrs(sh))
      ensures forall x :: x in Ptrs(sh') ==> x in Ptrs(sh) || x >= old(next)
      ensures size - old(size) == |Entries(TreeAt(store, sh'))| - |Entries(old(TreeAt(store, sh)))|
      decreases sh, 1
    {
      if p == NULL {
        q := NewLeaf(key, val);
        return q, At(q, Nil, Nil);
      }
      StandsOver(store, p, sh.left, sh.right);
      if key == store[p].key {
        Assign(p, key, val, sh.left, sh.right);
        StandsOver(store, p, sh.left, sh.right);
        return p, sh;
      }
      if key > store[p].key {
        q, sh' := InsertRight(p, key, val, sh.left, sh.right);
      } else {
        q, sh' := InsertLeft(p, key, val, sh.left, sh.right);
      }
    }

    method InsertRight(p: Ptr, key: int, val: V, ghost l: Shape, ghost r: Shape) returns (q: Ptr, ghost sh: Shape)
      requires Over(store, p, l, r) && key > store[p].key && Room()
      requires TrueHeights(TreeOver(store, p, l, r)) && AvlTree.Insert(TreeOver(store, p, l, r), key, val).Some?
      modifies `store, `size, `next
      ensures Stands(store, q, sh) && TreeAt(store, sh) == AvlTree.Insert(old(TreeOver(store, p, l, r)), key, val).value
      ensures Room() && next >= old(next) && OnlyIn(old(store), store, {p} + Ptrs(l) + Ptrs(r))
      ensures forall x :: x in Ptrs(sh) ==> x == p || x in Ptrs(l) || x in Ptrs(r) || x >= old(next)
      ensures size - old(size) == |Entries(TreeAt(store, sh))| - |Entries(old(TreeOver(store, p, l, r)))|
      decreases r, 2
    {
      hide FixRight, Entries, TrueHeights, AvlTree.Insert, Laid, TreeAt, Ptrs;
      InsertToRight(TreeOver(store, p, l, r), key, val);
      ghost var s := store;
      var c, r' := InsertAt(store[p].right, key, val, r);
      Frame(s, store, store[p].left, l);
      LinkRight(p, c, l, r');
      q, sh := FixRightAt(p, key, l, r');
    }

    method InsertLeft(p: Ptr, key: int, val: V, ghost l: Shape, ghost r: Shape) returns (q: Ptr, ghost sh: Shape)
      requires Over(store, p, l, r) && key < store[p].key && Room()
      requires TrueHeights(TreeOver(store, p, l, r)) && AvlTree.Insert(TreeOver(store, p, l, r), key, val).Some?
      modifies `store, `size, `next
      ensures Stands(store, q, sh) && TreeAt(store, sh) == AvlTree.Insert(old(TreeOver(store, p, l, r)), key, val).value
      ensures Room() && next >= old(next) && OnlyIn(old(store), store, {p} + Ptrs(l) + Ptrs(r))
      ensures forall x :: x in Ptrs(sh) ==> x == p || x in Ptrs(l) || x in Ptrs(r) || x >= old(next)
      ensures size - old(size) == |Entries(TreeAt(store, sh))| - |Entries(old(TreeOver(store, p, l, r)))|
      decreases l, 2
    {
      hide FixLeft, Entries, TrueHeights, AvlTree.Insert, Laid, TreeAt, Ptrs;
      InsertToLeft(TreeOver(store, p, l, r), key, val);
      ghost var s := store;
      var c, l' := InsertAt(store[p].left, key, val, l);
      Frame(s, store, store[p].right, r);
      LinkLeft(p, c, l', r);
      q, sh := FixLeftAt(p, key, l', r);
    }

    /** The end of `deletenode`. */
    method FixAt(p: Ptr, ghost l: Shape, ghost r: Shape) returns (q: Ptr, ghost sh: Shape)
      requires Over(store, p, l, r) && TrueHeights(TreeAt(store, l)) && TrueHeights(TreeAt(store, r))
      modifies `store
      ensures Stands(store, q, sh) && sh.At? && Ptrs(sh) == {p} + Ptrs(l) + Ptrs(r)
      ensures old(store).Keys == store.Keys && OnlyIn(old(store), store, Ptrs(sh))
      ensures TreeAt(store, sh) == Fix(old(TreeOver(store, p, l, r)))
    {
      hide TrueHeights, LeftRotate, RightRotate;
      SetHeight(p, l, r);
      StandsOver(store, p, l, r);
      var b := BalanceOf(p, l, r);
      if b < 2 {
        q, sh := p, At(p, l, r);
      } else if GetHeight(store[p].left) > GetHeight(store[p].right) {
        q, sh := FixTallLeft(p, l, r);
      } else {
        q, sh := FixTallRight(p, l, r);
      }
    }

    method FixTallLeft(p: Ptr, ghost l: Shape, ghost r: Shape) returns (q: Ptr, ghost sh: Shape)
      requires Over(store, p, l, r) && TrueHeights(TreeAt(store, l)) && TrueHeights(TreeAt(store, r))
      requires var t := TreeOver(store, p, l, r); t == Reheight(t) && H(t.left) >= H(t.right) + 2
      modifies `store
      ensures Stands(store, q, sh) && sh.At? && Ptrs(sh) == {p} + Ptrs(l) + Ptrs(r)
      ensures old(store).Keys == store.Keys && OnlyIn(old(store), store, Ptrs(sh))
      ensures TreeAt(store, sh) == Fix(old(TreeOver(store, p, l, r)))
    {
      HeightsBelow(TreeOver(store, p, l, r));
      ShapeMatches(store, l);
      var left := store[p].left;
      StandsOver(store, left, l.left, l.right);
      if GetHeight(store[left].left) > GetHeight(store[left].right) {
        q, sh := RotateRight(p, l, r);
      } else {
        q, sh := RotateLeftRight(p, l, r);
      }
    }

    method FixTallRight(p: Ptr, ghost l: Shape, ghost r: Shape) returns (q: Ptr, ghost sh: Shape)
      requires Over(store, p, l, r) && TrueHeights(TreeAt(store, l)) && TrueHeights(TreeAt(store, r))
      requires var t := TreeOver(store, p, l, r); t == Reheight(t) && H(t.right) >= H(t.left) + 2
      modifies `store
      ensures Stands(store, q, sh) && sh.At? && Ptrs(sh) == {p} + Ptrs(l) + Ptrs(r)
      ensures old(store).Keys == store.Keys && OnlyIn(old(store), store, Ptrs(sh))
      ensures TreeAt(store, sh) == Fix(old(TreeOver(store, p, l, r)))
    {
      HeightsBelow(TreeOver(store, p, l, r));
      ShapeMatches(store, r);
      var right := store[p].right;
      StandsOver(store, right, r.left, r.right);
      if GetHeight(store[right].left) > GetHeight(store[right].right) {
        q, sh := RotateRightLeft(p, l, r);
      } else {
        q, sh := RotateLeft(p, l, r);
      }
    }

    method FindMax(p: Ptr, ghost sh: Shape) returns (m: Ptr)
      requires Stands(store, p, sh) && sh.At?
      ensures m == Rightmost(sh) && m in Ptrs(sh)
    {
      m := p;
      ghost var rest := sh;
      while store[m].right != NULL
        invariant Stands(store, m, rest) && rest.At? && Rightmost(rest) == Rightmost(sh) && Ptrs(rest) <= Ptrs(sh)
        decreases rest
      {
        StandsOver(store, m, rest.left, rest.right);
        m, rest := store[m].right, rest.right;
      }
      StandsOver(store, m, rest.left, rest.right);
    }

    method FindMin(p: Ptr, ghost sh: Shape) returns (m: Ptr)
      requires Stands(store, p, sh) && sh.At?
      ensures m == Leftmost(sh) && m in Ptrs(sh)
    {
      m := p;
      ghost var rest := sh;
      while store[m].left != NULL
        invariant Stands(store, m, rest) && rest.At? && Leftmost(rest) == Leftmost(sh) && Ptrs(rest) <= Ptrs(sh)
        decreases rest
      {
        StandsOver(store, m, rest.left, rest.right);
        m, rest := store[m].left, rest.left;
      }
      StandsOver(store, m, rest.left, rest.right);
    }

    /** The swap with the largest entry on the left. */
    method SwapWithMax(p: Ptr, ghost l: Shape, ghost r: Shape)
      requires Over(store, p, l, r) && l.At?
      modifies `store
      ensures Over(store, p, l, r) && store.Keys == old(store.Keys) && OnlyIn(old(store), store, {p} + Ptrs(l))
      ensures old(TreeAt(store, l)).Bin? && store[p].key == MaxEntry(old(TreeAt(store, l))).0
      ensures TreeOver(store, p, l, r)
          == old(Bin(store[p].height, WithMax(TreeAt(store, l), store[p].key, store[p].val),
        MaxEntry(TreeAt(store, l)).0, MaxEntry(TreeAt(store, l)).1, TreeAt(store, r)))
    {
      var temp := FindMax(store[p].left, l);
      var k, v := store[p].key, store[p].val;
      var k', v' := store[temp].key, store[temp].val;
      ghost var s := store;
      store := store[temp := store[temp].(key := k, val := v)];
      SwapAtMax(s, store, store[p].left, l, k, v);
      Frame(s, store, store[p].right, r);
      Assign(p, k', v', l, r);
    }

    method SwapWithMin(p: Ptr, ghost l: Shape, ghost r: Shape)
      requires Over(store, p, l, r) && r.At?
      modifies `store
      ensures Over(store, p, l, r) && store.Keys == old(store.Keys) && OnlyIn(old(store), store, {p} + Ptrs(r))
      ensures old(TreeAt(store, r)).Bin? && store[p].key == MinEntry(old(TreeAt(store, r))).0
      ensures TreeOver(store, p, l, r) == old(Bin(store[p].height, TreeAt(store, l),
        MinEntry(TreeAt(store, r)).0, MinEntry(TreeAt(store, r)).1,
            WithMin(TreeAt(store, r), store[p].key, store[p].val)))
    {
      var temp := FindMin(store[p].right, r);
      var k, v := store[p].key, store[p].val;
      var k', v' := store[temp].key, store[temp].val;
      ghost var s := store;
      store := store[temp := store[temp].(key := k, val := v)];
      SwapAtMin(s, store, store[p].right, r, k, v);
      Frame(s, store, store[p].left, l);
      Assign(p, k', v', l, r);
    }

    /** The recursive `deletenode` from `p` down. */
    method DeleteAt(p: Ptr, key: int, ghost sh: Shape) returns (q: Ptr, ghost sh': Shape)
      requires Stands(store, p, sh) && TrueHeights(TreeAt(store, sh))
      modifies `store, `size
      ensures Stands(store, q, sh') && TreeAt(store, sh') == AvlTree.Delete(old(TreeAt(store, sh)), key)
      ensures store.Keys <= old(store).Keys && OnlyIn(old(store), store, Ptrs(sh)) && Ptrs(sh') <= Ptrs(sh)
      ensures size - old(size) == |Entries(TreeAt(store, sh'))| - |Entries(old(TreeAt(store, sh)))|
      decreases sh, 1
    {
      if p == NULL { return NULL, sh; }
      ghost var l, r := sh.left, sh.right;
      StandsOver(store, p, l, r);
      ShapeMatches(store, sh);
      if key > store[p].key {
        q, sh' := DeleteRightAt(p, key, l, r);
      } else if key < store[p].key {
        q, sh' := DeleteLeftAt(p, key, l, r);
      } else if store[p].left != NULL && store[p].right != NULL {
        var lp, rp := store[p].left, store[p].right;
        StandsOver(store, lp, l.left, l.right);
        StandsOver(store, rp, r.left, r.right);
        if store[lp].height > store[rp].height {
          SwapWithMax(p, l, r);
          q, sh' := DeleteLeftAt(p, key, l, r);
        } else {
          SwapWithMin(p, l, r);
          q, sh' := DeleteRightAt(p, key, l, r);
        }
      } else if store[p].left != NULL {
        q, sh' := Splice(p, store[p].left, l);
      } else if store[p].right != NULL {
        q, sh' := Splice(p, store[p].right, r);
      } else {
        store, size := store - {p}, size - 1;
        q, sh' := NULL, Nil;
      }
    }

    method DeleteRightAt(p: Ptr, key: int, ghost l: Shape, ghost r: Shape) returns (q: Ptr, ghost sh: Shape)
      requires Over(store, p, l, r) && TrueHeights(TreeAt(store, l)) && TrueHeights(TreeAt(store, r))
      modifies `store, `size
      ensures Stands(store, q, sh) && Ptrs(sh) <= {p} + Ptrs(l) + Ptrs(r)
      ensures store.Keys <= old(store).Keys && OnlyIn(old(store), store, {p} + Ptrs(l) + Ptrs(r))
      ensures var t := old(TreeOver(store, p, l, r));
        && TreeAt(store, sh) == Fix(t.(right := AvlTree.Delete(t.right, key)))
        && size - old(size) == |Entries(TreeAt(store, sh))| - |Entries(t)|
      decreases r, 2
    {
      ghost var s := store;
      var c, r' := DeleteAt(store[p].right, key, r);
      Frame(s, store, store[p].left, l);
      LinkRight(p, c, l, r');
      FixEntries(TreeOver(store, p, l, r'));
      q, sh := FixAt(p, l, r');
    }

    method DeleteLeftAt(p: Ptr, key: int, ghost l: Shape, ghost r: Shape) returns (q: Ptr, ghost sh: Shape)
      requires Over(store, p, l, r) && TrueHeights(TreeAt(store, l)) && TrueHeights(TreeAt(store, r))
      modifies `store, `size
      ensures Stands(store, q, sh) && Ptrs(sh) <= {p} + Ptrs(l) + Ptrs(r)
      ensures store.Keys <= old(store).Keys && OnlyIn(old(store), store, {p} + Ptrs(l) + Ptrs(r))
      ensures var t := old(TreeOver(store, p, l, r));
        && TreeAt(store, sh) == Fix(t.(left := AvlTree.Delete(t.left, key)))
        && size - old(size) == |Entries(TreeAt(store, sh))| - |Entries(t)|
      decreases l, 2
    {
      ghost var s := store;
      var c, l' := DeleteAt(store[p].left, key, l);
      Frame(s, store, store[p].right, r);
      LinkLeft(p, c, l', r);
      FixEntries(TreeOver(store, p, l', r));
      q, sh := FixAt(p, l', r);
    }

    /** The only child takes the deleted node's place. */
    method Splice(p: Ptr, c: Ptr, ghost ch: Shape) returns (q: Ptr, ghost sh: Shape)
      requires p in store && p !in Ptrs(ch) && Stands(store, c, ch) && ch.At? && TreeAt(store, ch).Bin?
      requires TrueHeights(TreeAt(store, ch))
      modifies `store, `size
      ensures Stands(store, q, sh) && Ptrs(sh) == Ptrs(ch)
      ensures store.Keys <= old(store).Keys && OnlyIn(old(store), store, {p} + Ptrs(ch))
      ensures TreeAt(store, sh) == Fix(old(TreeAt(store, ch))) && size == old(size) - 1
      ensures Entries(TreeAt(store, sh)) == Entries(old(TreeAt(store, ch)))
    {
      ghost var s := store;
      store, size := store - {p}, size - 1;
      Frame(s, store, c, ch);
      StandsOver(store, c, ch.left, ch.right);
      FixEntries(TreeAt(store, ch));
      q, sh := FixAt(c, ch.left, ch.right);
    }

    ghost predicate Valid()
      reads this
    {
      && Stands(store, root, shape) && Room()
      && Ordered(TreeAt(store, shape)) && TrueHeights(TreeAt(store, shape))
      && size == |Entries(TreeAt(store, shape))|
    }

    ghost function Tree(): Tree<V>
      requires Valid()
      reads this
    {
      TreeAt(store, shape)
    }

    constructor ()
      ensures Valid() && Tree() == Leaf && size == 0
    {
      store, root, size, next, shape := map[], NULL, 0, 1, Nil;
    }

    /** `insert`; the answer says whether the key is new. Any tree that deletions have left is admitted,
        unless the insertion would rotate through a missing child. */
    method Insert(key: int, val: V) returns (added: bool)
      requires Valid() && !Breaks(Tree(), key)
      modifies this
      ensures Valid() && AvlTree.Insert(old(Tree()), key, val) == Some(Tree())
      ensures ToMap(Entries(Tree())) == ToMap(Entries(old(Tree())))[key := val]
      ensures added <==> key !in ToMap(Entries(old(Tree())))
      ensures old(Balanced(Tree())) ==> Balanced(Tree())
    {
      InsertRefinesMap(Tree(), key, val);
      if Balanced(Tree()) { InsertKeepsAvl(Tree(), key, val); }
      var temp := size;
      root, shape := InsertAt(root, key, val, shape);
      added := temp != size;
    }

    /** `deletenode`; balance survives exactly when the deletion meets no bad tie. */
    method Delete(key: int) returns (removed: bool)
      requires Valid()
      modifies this
      ensures Valid() && Tree() == AvlTree.Delete(old(Tree()), key)
      ensures ToMap(Entries(Tree())) == ToMap(Entries(old(Tree()))) - {key}
      ensures removed <==> key in ToMap(Entries(old(Tree())))
      ensures old(Balanced(Tree())) ==> (Balanced(Tree()) <==> !MeetsBadTie(old(Tree()), key))
    {
      DeleteRefinesMap(Tree(), key);
      if Balanced(Tree()) { DeleteBalance(Tree(), key); }
      var temp := size;
      root, shape := DeleteAt(root, key, shape);
      removed := temp != size;
    }
  }
}
