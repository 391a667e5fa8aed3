/** Plain binary search trees (DataStruct/BinarySearchTree.hpp): the three stack-based traversals visit
    what the recursive ones visit, and the one-pass neighbour searches find the true neighbours. */
module BinarySearchTree {
  import opened Common

  datatype Tree<V> = Leaf | Bin(left: Tree<V>, key: int, val: V, right: Tree<V>)

  // ---- The recursive traversals ----

  function Preorder<V>(t: Tree<V>): seq<int> {
    if t.Leaf? then [] else [t.key] + Preorder(t.left) + Preorder(t.right)
  }

  function Inorder<V>(t: Tree<V>): seq<int> {
    if t.Leaf? then [] else Inorder(t.left) + [t.key] + Inorder(t.right)
  }

  function Postorder<V>(t: Tree<V>): seq<int> {
    if t.Leaf? then [] else Postorder(t.left) + Postorder(t.right) + [t.key]
  }

  function Count<V>(t: Tree<V>): nat {
    if t.Leaf? then 0 else Count(t.left) + 1 + Count(t.right)
  }

  lemma {:induction false} Lengths<V>(t: Tree<V>)
    ensures |Preorder(t)| == |Inorder(t)| == |Postorder(t)| == Count(t)
  {
    if t.Bin? {
      Lengths(t.left);
      Lengths(t.right);
    }
  }

  // ---- In order ----

  ghost predicate AllBin<V>(st: seq<Tree<V>>) {
    forall i :: 0 <= i < |st| ==> st[i].Bin?
  }

  lemma PushBin<V>(st: seq<Tree<V>>, t: Tree<V>)
    requires AllBin(st) && t.Bin?
    ensures AllBin(st + [t]) && (st + [t])[..|st|] == st
  {
  }

  lemma TopBin<V>(st: seq<Tree<V>>)
    requires AllBin(st) && st != []
    ensures st[|st| - 1].Bin? && AllBin(st[..|st| - 1]) && st == st[..|st| - 1] + [st[|st| - 1]]
  {
  }

  /** What is still to be visited from `node` and for the nodes on the stack, the top one first. */
  ghost function RestIn<V>(node: Tree<V>, st: seq<Tree<V>>): seq<int>
    requires AllBin(st)
  {
    Inorder(node) + StackIn(st)
  }

  ghost function StackIn<V>(st: seq<Tree<V>>): seq<int>
    requires AllBin(st)
  {
    if st == [] then [] else TopBin(st); [st[|st| - 1].key] + (Inorder(st[|st| - 1].right) + StackIn(st[..|st| - 1]))
  }

  lemma {:induction false} StackInLength<V>(st: seq<Tree<V>>)
    requires AllBin(st)
    ensures |StackIn(st)| >= |st|
  {
    if st != [] {
      TopBin(st);
      StackInLength(st[..|st| - 1]);
    }
  }

  /** Going left with the node on the stack changes nothing, and there is room for it. */
  lemma DescendIn<V>(node: Tree<V>, st: seq<Tree<V>>)
    requires AllBin(st) && node.Bin?
    ensures AllBin(st + [node]) && RestIn(node.left, st + [node]) == RestIn(node, st) && |RestIn(node, st)| > |st|
  {
    PushBin(st, node);
    StackInLength(st);
    assert StackIn(st + [node]) == [node.key] + (Inorder(node.right) + StackIn(st));
    hide AllBin, StackIn;
  }

  /** With nothing to its left, the top of the stack is next. */
  lemma PopIn<V>(st: seq<Tree<V>>)
    requires AllBin(st) && st != []
    ensures var t, below := st[|st| - 1], st[..|st| - 1];
      AllBin(below) && t.Bin? && RestIn(Leaf, st) == [t.key] + RestIn(t.right, below)
  {
    TopBin(st);
  }

  lemma BeginIn<V>(root: Tree<V>)
    ensures AllBin<V>([]) && RestIn(root, []) == Inorder(root) && |Inorder(root)| == Count(root)
  {
    Lengths(root);
  }

  /** `no_recursive_inorder`: the index of the stack stays within the tree's size. */
  method NoRecursiveInorder<V>(root: Tree<V>, size: nat) returns (visited: seq<int>)
    requires size == Count(root)
    ensures visited == Inorder(root)
  {
    hide AllBin, RestIn, Inorder, Count;
    visited := [];
    BeginIn(root);
    if size == 0 { return; }
    var st := new Tree<V>[size](_ => Leaf);
    var top := 0;
    var node := root;
    assert st[..0] == [];
    while top > 0 || node.Bin?
      invariant 0 <= top <= size && AllBin(st[..top]) && visited + RestIn(node, st[..top]) == Inorder(root)
      decreases |RestIn(node, st[..top])|
    {
      ghost var rest := RestIn(node, st[..top]);
      while node.Bin?
        invariant 0 <= top <= size && AllBin(st[..top]) && RestIn(node, st[..top]) == rest && |rest| <= size
        invariant top > 0 || node.Bin?
        decreases node
      {
        ghost var below := st[..top];
        DescendIn(node, below);
        st[top] := node;
        top := top + 1;
        assert st[..top] == below + [node];
        node := node.left;
      }
      if top > 0 {
        PopIn(st[..top]);
        assert st[..top][..top - 1] == st[..top - 1];
        top := top - 1;
        node := st[top];
        assert visited + ([node.key] + RestIn(node.right, st[..top]))
            == visited + [node.key] + RestIn(node.right, st[..top]);
        visited := visited + [node.key];
        node := node.right;
      }
    }
    assert node == Leaf && st[..top] == [];
    BeginIn(node);
    assert RestIn(Leaf, st[..top]) == [] by { EmptyRest<V>(); }
  }

  lemma EmptyRest<V>()
    ensures AllBin<V>([]) && RestIn<V>(Leaf, []) == [] && RestPre<V>(Leaf, []) == [] && RestPost<V>(Leaf, [], []) == []
  {
  }

  // ---- Pre-order ----

  ghost function RestPre<V>(node: Tree<V>, st: seq<Tree<V>>): seq<int>
    requires AllBin(st)
  {
    Preorder(node) + StackPre(st)
  }

  ghost function StackPre<V>(st: seq<Tree<V>>): seq<int>
    requires AllBin(st)
  {
    if st == [] then [] else TopBin(st); Preorder(st[|st| - 1].right) + StackPre(st[..|st| - 1])
  }

  lemma DescendPre<V>(node: Tree<V>, st: seq<Tree<V>>)
    requires AllBin(st) && node.Bin?
    ensures AllBin(st + [node]) && RestPre(node, st) == [node.key] + RestPre(node.left, st + [node])
  {
    PushBin(st, node);
    assert StackPre(st + [node]) == Preorder(node.right) + StackPre(st);
    hide AllBin, StackPre;
  }

  lemma PopPre<V>(st: seq<Tree<V>>)
    requires AllBin(st) && st != []
    ensures var t, below := st[|st| - 1], st[..|st| - 1];
      AllBin(below) && t.Bin? && RestPre(Leaf, st) == RestPre(t.right, below)
  {
    TopBin(st);
  }

  lemma BeginPre<V>(root: Tree<V>)
    ensures AllBin<V>([]) && RestPre(root, []) == Preorder(root) && |Preorder(root)| == Count(root)
  {
    Lengths(root);
  }

  /** `no_recursive_preorder`. */
  method NoRecursivePreorder<V>(root: Tree<V>, size: nat) returns (visited: seq<int>)
    requires size == Count(root)
    ensures visited == Preorder(root)
  {
    hide AllBin, RestPre, Preorder, Count;
    visited := [];
    BeginPre(root);
    if size == 0 { return; }
    var node := root;
    var st := new Tree<V>[size](_ => Leaf);
    var top := 0;
    assert st[..0] == [];
    while node.Bin? || top > 0
      invariant 0 <= top <= |visited| && top <= size && AllBin(st[..top])
      invariant visited + RestPre(node, st[..top]) == Preorder(root)
      decreases |RestPre(node, st[..top])|, top
    {
      ghost var before, top0 := |RestPre(node, st[..top])|, top;
      while node.Bin?
        invariant 0 <= top <= |visited| && top <= size && AllBin(st[..top])
        invariant visited + RestPre(node, st[..top]) == Preorder(root)
        invariant |RestPre(node, st[..top])| < before || (|RestPre(node, st[..top])| == before && top == top0)
        invariant top > 0 || node.Bin?
        decreases node
      {
        ghost var below := st[..top];
        DescendPre(node, below);
        assert visited + ([node.key] + RestPre(node.left, below + [node]))
            == visited + [node.key] + RestPre(node.left, below + [node]);
        visited := visited + [node.key];
        st[top] := node;
        top := top + 1;
        assert st[..top] == below + [node];
        node := node.left;
      }
      if top > 0 {
        PopPre(st[..top]);
        assert st[..top][..top - 1] == st[..top - 1];
        node := st[top - 1];
        top := top - 1;
        node := node.right;
      }
    }
    assert st[..top] == [];
    EmptyRest<V>();
  }

  // ---- Post-order ----

  /** Flag 1: the left side of a node on the stack is being visited; flag 2: the right side is. */
  ghost function RestPost<V>(node: Tree<V>, st: seq<Tree<V>>, flags: seq<int>): seq<int>
    requires |st| == |flags| && AllBin(st)
  {
    Postorder(node) + StackPost(st, flags)
  }

  ghost function StackPost<V>(st: seq<Tree<V>>, flags: seq<int>): seq<int>
    requires |st| == |flags| && AllBin(st)
    decreases st
  {
    if st == [] then []
    else
      TopBin(st);
      var n := |st| - 1;
      (if flags[n] == 1 then Postorder(st[n].right) else []) + ([st[n].key] + StackPost(st[..n], flags[..n]))
  }

  lemma {:induction false} StackPostLength<V>(st: seq<Tree<V>>, flags: seq<int>)
    requires |st| == |flags| && AllBin(st)
    ensures |StackPost(st, flags)| >= |st|
    decreases st
  {
    if st != [] {
      TopBin(st);
      StackPostLength(st[..|st| - 1], flags[..|st| - 1]);
    }
  }

  /** Turns still to come: three for a node not yet met, two or one for one on the stack. */
  ghost function Work<V>(node: Tree<V>, st: seq<Tree<V>>, flags: seq<int>): nat
    requires |st| == |flags| && AllBin(st)
  {
    3 * Count(node) + StackWork(st, flags)
  }

  ghost function StackWork<V>(st: seq<Tree<V>>, flags: seq<int>): nat
    requires |st| == |flags| && AllBin(st)
    decreases st
  {
    if st == [] then 0
    else
      TopBin(st);
      var n := |st| - 1;
      (if flags[n] == 1 then 2 + 3 * Count(st[n].right) else 1) + StackWork(st[..n], flags[..n])
  }

  lemma DescendPost<V>(node: Tree<V>, st: seq<Tree<V>>, flags: seq<int>)
    requires |st| == |flags| && AllBin(st) && node.Bin?
    ensures AllBin(st + [node]) && |RestPost(node, st, flags)| > |st|
    ensures RestPost(node.left, st + [node], flags + [1]) == RestPost(node, st, flags)
    ensures Work(node.left, st + [node], flags + [1]) < Work(node, st, flags)
  {
    PushBin(st, node);
    StackPostLength(st, flags);
    assert (flags + [1])[..|st|] == flags;
    assert StackPost(st + [node], flags + [1]) == Postorder(node.right) + ([node.key] + StackPost(st, flags));
    assert StackWork(st + [node], flags + [1]) == 2 + 3 * Count(node.right) + StackWork(st, flags);
    hide AllBin, StackPost, StackWork;
  }

  /** Nothing left below the top of the stack: its right side is next... */
  lemma TurnRight<V>(st: seq<Tree<V>>, flags: seq<int>)
    requires |st| == |flags| && AllBin(st) && st != [] && flags[|st| - 1] == 1
    ensures var n := |st| - 1; var t, above := st[n], flags[..n];
      && t.Bin? && RestPost(Leaf, st, flags) == RestPost(t.right, st, above + [2])
      && Work(t.right, st, above + [2]) < Work(Leaf, st, flags)
  {
    TopBin(st);
    var n := |st| - 1;
    var above := flags[..n];
    assert (above + [2])[..n] == above;
    hide AllBin;
    assert StackPost(st, above + [2]) == [] + ([st[n].key] + StackPost(st[..n], above));
    assert StackPost(st, flags) == Postorder(st[n].right) + ([st[n].key] + StackPost(st[..n], above));
    assert StackWork(st, above + [2]) == 1 + StackWork(st[..n], above);
    hide StackPost, StackWork;
  }

  /** ... or it is visited itself. */
  lemma TurnUp<V>(st: seq<Tree<V>>, flags: seq<int>)
    requires |st| == |flags| && AllBin(st) && st != [] && flags[|st| - 1] != 1
    ensures var n := |st| - 1; var t, below, above := st[n], st[..n], flags[..n];
      && t.Bin? && AllBin(below)
      && RestPost(Leaf, st, flags) == [t.key] + RestPost(Leaf, below, above)
      && Work(Leaf, below, above) < Work(Leaf, st, flags)
  {
    TopBin(st);
    hide AllBin;
    var n := |st| - 1;
    assert StackPost(st, flags) == [] + ([st[n].key] + StackPost(st[..n], flags[..n]));
  }

  lemma BeginPost<V>(root: Tree<V>)
    ensures AllBin<V>([]) && RestPost(root, [], []) == Postorder(root) && |Postorder(root)| == Count(root)
  {
    Lengths(root);
  }

  /** `no_recursive_postorder`. */
  method NoRecursivePostorder<V>(root: Tree<V>, size: nat) returns (visited: seq<int>)
    requires size == Count(root)
    ensures visited == Postorder(root)
  {
    hide AllBin, RestPost, Postorder, Count, Work;
    visited := [];
    BeginPost(root);
    var st := new Tree<V>[size](_ => Leaf);
    var top := 0;
    var flags := new int[size](_ => 0);
    var node := root;
    assert st[..0] == [] && flags[..0] == [];
    while node.Bin? || top > 0
      invariant 0 <= top <= size && AllBin(st[..top]) && flags.Length == size
      invariant visited + RestPost(node, st[..top], flags[..top]) == Postorder(root)
      decreases Work(node, st[..top], flags[..top])
    {
      ghost var rest, work := RestPost(node, st[..top], flags[..top]), Work(node, st[..top], flags[..top]);
      while node.Bin?
        invariant 0 <= top <= size && AllBin(st[..top]) && RestPost(node, st[..top], flags[..top]) == rest
        invariant |rest| <= size
        invariant Work(node, st[..top], flags[..top]) <= work && (top > 0 || node.Bin?)
        decreases node
      {
        ghost var below, above := st[..top], flags[..top];
        DescendPost(node, below, above);
        st[top] := node;
        top := top + 1;
        flags[top - 1] := 1;
        assert st[..top] == below + [node] && flags[..top] == above + [1];
        node := node.left;
      }
      if top > 0 {
        ghost var below, above := st[..top - 1], flags[..top - 1];
        assert st[..top][..top - 1] == below && flags[..top][..top - 1] == above;
        if flags[top - 1] == 1 {
          TurnRight(st[..top], flags[..top]);
          node := st[top - 1];
          node := node.right;
          flags[top - 1] := 2;
          assert flags[..top] == above + [2];
        } else {
          TurnUp(st[..top], flags[..top]);
          top := top - 1;
          node := st[top];
          assert visited + ([node.key] + RestPost(Leaf, below, above))
              == visited + [node.key] + RestPost(Leaf, below, above);
          visited := visited + [node.key];
          node := Leaf;
        }
      }
    }
    assert st[..top] == [] && flags[..top] == [];
    EmptyRest<V>();
  }

  // ---- Neighbours ----

  ghost function Keys<V>(t: Tree<V>): set<int> {
    if t.Leaf? then {} else Keys(t.left) + {t.key} + Keys(t.right)
  }

  ghost predicate Ordered<V>(t: Tree<V>) {
    t.Bin? ==>
      && Ordered(t.left) && Ordered(t.right)
      && (forall k :: k in Keys(t.left) ==> k < t.key) && (forall k :: k in Keys(t.right) ==> k > t.key)
  }

  /** `t` holds `x` with the value `v`. */
  ghost predicate HasEntry<V>(t: Tree<V>, x: int, v: V) {
    t.Bin? && ((t.key == x && t.val == v) || HasEntry(t.left, x, v) || HasEntry(t.right, x, v))
  }

  /** `p` is the largest key below `key`. */
  ghost predicate IsPredecessor<V>(t: Tree<V>, key: int, p: int) {
    p in Keys(t) && p < key && forall k :: k in Keys(t) && k < key ==> k <= p
  }

  ghost predicate IsSuccessor<V>(t: Tree<V>, key: int, p: int) {
    p in Keys(t) && p > key && forall k :: k in Keys(t) && k > key ==> k >= p
  }

  /** `find_max`. */
  method FindMax<V(!new)>(t: Tree<V>) returns (node: Tree<V>)
    requires Ordered(t) && t.Bin?
    ensures node.Bin? && node.key in Keys(t) && HasEntry(t, node.key, node.val)
    ensures forall k :: k in Keys(t) ==> k <= node.key
  {
    node := t;
    while node.right.Bin?
      invariant node.Bin? && Ordered(node) && Keys(node) <= Keys(t)
      invariant HasEntry(node, node.key, node.val)
      invariant forall x, v :: HasEntry(node, x, v) ==> HasEntry(t, x, v)
      invariant forall k :: k in Keys(t) ==> k in Keys(node) || k < node.key
      decreases node
    {
      node := node.right;
    }
  }

  method FindMin<V(!new)>(t: Tree<V>) returns (node: Tree<V>)
    requires Ordered(t) && t.Bin?
    ensures node.Bin? && node.key in Keys(t) && HasEntry(t, node.key, node.val)
    ensures forall k :: k in Keys(t) ==> k >= node.key
  {
    node := t;
    while node.left.Bin?
      invariant node.Bin? && Ordered(node) && Keys(node) <= Keys(t)
      invariant HasEntry(node, node.key, node.val)
      invariant forall x, v :: HasEntry(node, x, v) ==> HasEntry(t, x, v)
      invariant forall k :: k in Keys(t) ==> k in Keys(node) || k > node.key
      decreases node
    {
      node := node.left;
    }
  }

  datatype Pair<V> = Pair(key: int, val: V)

  /** `getprenode`: one pass down, remembering the last turn to the right. Nothing is found for a key that
      is not in the tree. */
  method GetPreNode<V(!new)>(root: Tree<V>, key: int) returns (r: Option<Pair<V>>)
    requires Ordered(root)
    ensures r.Some? <==> key in Keys(root) && exists k :: k in Keys(root) && k < key
    ensures r.Some? ==> IsPredecessor(root, key, r.value.key) && HasEntry(root, r.value.key, r.value.val)
  {
    var last: Option<Pair<V>> := None;
    var current := root;
    while current.Bin? && current.key != key
      invariant Ordered(current) && Keys(current) <= Keys(root) && (key in Keys(root) <==> key in Keys(current))
      invariant forall x, v :: HasEntry(current, x, v) ==> HasEntry(root, x, v)
      invariant last.Some? ==>
        && last.value.key in Keys(root) && last.value.key < key
        && HasEntry(root, last.value.key, last.value.val)
      invariant last.Some? ==> forall k :: k in Keys(current) ==> k > last.value.key
      invariant forall k :: k in Keys(root) && k < key ==> k in Keys(current) || (last.Some? && k <= last.value.key)
      decreases current
    {
      assert HasEntry(current, current.key, current.val);
      if key > current.key {
        last := Some(Pair(current.key, current.val));
        current := current.right;
      } else {
        current := current.left;
      }
    }
    if current.Leaf? { return None; }
    if current.left.Bin? {
      var node := FindMax(current.left);
      assert node.key < key && HasEntry(current, node.key, node.val);
      return Some(Pair(node.key, node.val));
    }
    return last;
  }

  /** `getnextnode`. */
  method GetNextNode<V(!new)>(root: Tree<V>, key: int) returns (r: Option<Pair<V>>)
    requires Ordered(root)
    ensures r.Some? <==> key in Keys(root) && exists k :: k in Keys(root) && k > key
    ensures r.Some? ==> IsSuccessor(root, key, r.value.key) && HasEntry(root, r.value.key, r.value.val)
  {
    var last: Option<Pair<V>> := None;
    var node := root;
    while node.Bin? && node.key != key
      invariant Ordered(node) && Keys(node) <= Keys(root) && (key in Keys(root) <==> key in Keys(node))
      invariant forall x, v :: HasEntry(node, x, v) ==> HasEntry(root, x, v)
      invariant last.Some? ==>
        && last.value.key in Keys(root) && last.value.key > key
        && HasEntry(root, last.value.key, last.value.val)
      invariant last.Some? ==> forall k :: k in Keys(node) ==> k < last.value.key
      invariant forall k :: k in Keys(root) && k > key ==> k in Keys(node) || (last.Some? && k >= last.value.key)
      decreases node
    {
      assert HasEntry(node, node.key, node.val);
      if key < node.key {
        last := Some(Pair(node.key, node.val));
        node := node.left;
      } else {
        node := node.right;
      }
    }
    if node.Leaf? { return None; }
    if node.right.Bin? {
      var next := FindMin(node.right);
      assert next.key > key && HasEntry(node, next.key, next.val);
      return Some(Pair(next.key, next.val));
    }
    return last;
  }
}
