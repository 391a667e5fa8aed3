/** AVL tree with cached heights (DataStruct/AVL_Tree.hpp). `Insert` and `Delete` are the recursive
    functions of the source on trees as values, cached heights included, so that their contracts can be
    compared with the plain meaning of a tree. Module AvlNodes updates nodes in place and is proved to
    compute exactly these functions. */
module AvlTree {
  import opened Common
  import opened SortedEntries

  datatype Tree<V> = Leaf | Bin(h: nat, left: Tree<V>, key: int, val: V, right: Tree<V>)

  function Max(a: nat, b: nat): nat {
    if a > b then a else b
  }

  /** `GetHeight`: what the node has cached. */
  function H<V>(t: Tree<V>): nat {
    if t.Leaf? then 0 else t.h
  }

  ghost function Height<V>(t: Tree<V>): nat {
    if t.Leaf? then 0 else Max(Height(t.left), Height(t.right)) + 1
  }

  ghost predicate TrueHeights<V>(t: Tree<V>) {
    t.Bin? ==> t.h == Height(t) && TrueHeights(t.left) && TrueHeights(t.right)
  }

  ghost predicate Balanced<V>(t: Tree<V>) {
    t.Bin? ==>
      && Balanced(t.left) && Balanced(t.right)
      && Height(t.left) <= Height(t.right) + 1 && Height(t.right) <= Height(t.left) + 1
  }

  /** The in-order walk. */
  ghost function Entries<V>(t: Tree<V>): seq<Entry<V>> {
    if t.Leaf? then [] else Entries(t.left) + [(t.key, t.val)] + Entries(t.right)
  }

  ghost predicate Ordered<V>(t: Tree<V>) {
    Sorted(Entries(t))
  }

  ghost predicate IsAvl<V>(t: Tree<V>) {
    Ordered(t) && TrueHeights(t) && Balanced(t)
  }

  // ---- Rotations ----

  function Reheight<V>(t: Tree<V>): Tree<V>
    requires t.Bin?
  {
    t.(h := Max(H(t.left), H(t.right)) + 1)
  }

  function BalanceFactor<V>(t: Tree<V>): nat {
    if t.Leaf? then 0
    else if H(t.left) > H(t.right) then H(t.left) - H(t.right) else H(t.right) - H(t.left)
  }

  function LeftRotate<V>(t: Tree<V>): Tree<V>
    requires t.Bin? && t.right.Bin?
  {
    Reheight(t.right.(left := Reheight(t.(right := t.right.left))))
  }

  function RightRotate<V>(t: Tree<V>): Tree<V>
    requires t.Bin? && t.left.Bin?
  {
    Reheight(t.left.(right := Reheight(t.(left := t.left.right))))
  }

  function RightAndLeftRotate<V>(t: Tree<V>): Tree<V>
    requires t.Bin? && t.right.Bin? && t.right.left.Bin?
  {
    LeftRotate(t.(right := RightRotate(t.right)))
  }

  function LeftAndRightRotate<V>(t: Tree<V>): Tree<V>
    requires t.Bin? && t.left.Bin? && t.left.right.Bin?
  {
    RightRotate(t.(left := LeftRotate(t.left)))
  }

  /** Rotations change the shape only. */
  lemma RotationsKeepEntries<V>(t: Tree<V>)
    requires t.Bin?
    ensures t.right.Bin? ==> Entries(LeftRotate(t)) == Entries(t)
    ensures t.left.Bin? ==> Entries(RightRotate(t)) == Entries(t)
    ensures t.right.Bin? && t.right.left.Bin? ==> Entries(RightAndLeftRotate(t)) == Entries(t)
    ensures t.left.Bin? && t.left.right.Bin? ==> Entries(LeftAndRightRotate(t)) == Entries(t)
  {
    LeftRotateKeeps(t);
    RightRotateKeeps(t);
    if t.right.Bin? && t.right.left.Bin? {
      RightRotateKeeps(t.right);
      LeftRotateKeeps(t.(right := RightRotate(t.right)));
    }
    if t.left.Bin? && t.left.right.Bin? {
      LeftRotateKeeps(t.left);
      RightRotateKeeps(t.(left := LeftRotate(t.left)));
    }
  }

  lemma LeftRotateKeeps<V>(t: Tree<V>)
    requires t.Bin?
    ensures t.right.Bin? ==> Entries(LeftRotate(t)) == Entries(t)
  {
    if t.right.Bin? {
      var a, b, c := Entries(t.left), Entries(t.right.left), Entries(t.right.right);
      var x, y := (t.key, t.val), (t.right.key, t.right.val);
      assert (a + [x] + b) + [y] + c == a + [x] + (b + [y] + c);
    }
  }

  lemma RightRotateKeeps<V>(t: Tree<V>)
    requires t.Bin?
    ensures t.left.Bin? ==> Entries(RightRotate(t)) == Entries(t)
  {
    if t.left.Bin? {
      var a, b, c := Entries(t.left.left), Entries(t.left.right), Entries(t.right);
      var x, y := (t.left.key, t.left.val), (t.key, t.val);
      assert (a + [x] + b) + [y] + c == a + [x] + (b + [y] + c);
    }
  }

  ghost predicate Rotatable<V>(t: Tree<V>) {
    && t.Bin? && TrueHeights(t.left) && TrueHeights(t.right)
    && (t.left.Bin? ==> TrueHeights(t.left.left) && TrueHeights(t.left.right))
    && (t.right.Bin? ==> TrueHeights(t.right.left) && TrueHeights(t.right.right))
  }

  lemma HeightsBelow<V>(t: Tree<V>)
    requires t.Bin? && TrueHeights(t.left) && TrueHeights(t.right)
    ensures Rotatable(t) && H(t.left) == Height(t.left) && H(t.right) == Height(t.right)
    ensures t.left.Bin? ==> H(t.left.left) == Height(t.left.left) && H(t.left.right) == Height(t.left.right)
    ensures t.right.Bin? ==> H(t.right.left) == Height(t.right.left) && H(t.right.right) == Height(t.right.right)
  {
    assert TrueHeights(t.left) && TrueHeights(t.right);
  }

  lemma BalanceBelow<V>(t: Tree<V>)
    requires Balanced(t) && t.Bin?
    ensures Balanced(t.left) && Balanced(t.right)
    ensures Height(t.left) <= Height(t.right) + 1 && Height(t.right) <= Height(t.left) + 1
  {
  }

  lemma LeftRotateHeights<V>(t: Tree<V>)
    requires Rotatable(t) && t.right.Bin?
    ensures TrueHeights(LeftRotate(t))
    ensures Height(LeftRotate(t)) == Max(Max(Height(t.left), Height(t.right.left)) + 1, Height(t.right.right)) + 1
  {
    HeightsBelow(t);
  }

  lemma RightRotateHeights<V>(t: Tree<V>)
    requires Rotatable(t) && t.left.Bin?
    ensures TrueHeights(RightRotate(t))
    ensures Height(RightRotate(t)) == Max(Height(t.left.left), Max(Height(t.left.right), Height(t.right)) + 1) + 1
  {
    HeightsBelow(t);
  }

  lemma DoubleRotateHeights<V>(t: Tree<V>)
    requires Rotatable(t)
    ensures t.right.Bin? && t.right.left.Bin? ==> TrueHeights(RightAndLeftRotate(t))
    ensures t.left.Bin? && t.left.right.Bin? ==> TrueHeights(LeftAndRightRotate(t))
  {
    if t.right.Bin? && t.right.left.Bin? {
      HeightsBelow(t.right);
      RightRotateHeights(t.right);
      HeightsBelow(t.(right := RightRotate(t.right)));
      LeftRotateHeights(t.(right := RightRotate(t.right)));
    }
    if t.left.Bin? && t.left.right.Bin? {
      HeightsBelow(t.left);
      LeftRotateHeights(t.left);
      HeightsBelow(t.(left := LeftRotate(t.left)));
      RightRotateHeights(t.(left := LeftRotate(t.left)));
    }
  }

  /** Right side two higher, and its outer part at least as high as its inner one. */
  lemma LeftRotateBalances<V>(t: Tree<V>)
    requires Rotatable(t) && Balanced(t.left) && Balanced(t.right)
    requires Height(t.right) == Height(t.left) + 2 && Height(t.right.left) <= Height(t.right.right)
    ensures t.right.Bin? && Balanced(LeftRotate(t)) && TrueHeights(LeftRotate(t))
    ensures Height(LeftRotate(t)) == Height(t.right) + if Height(t.right.left) == Height(t.right.right) then 1 else 0
  {
    BalanceBelow(t.right);
    LeftRotateHeights(t);
  }

  lemma RightRotateBalances<V>(t: Tree<V>)
    requires Rotatable(t) && Balanced(t.left) && Balanced(t.right)
    requires Height(t.left) == Height(t.right) + 2 && Height(t.left.right) <= Height(t.left.left)
    ensures t.left.Bin? && Balanced(RightRotate(t)) && TrueHeights(RightRotate(t))
    ensures Height(RightRotate(t)) == Height(t.left) + if Height(t.left.left) == Height(t.left.right) then 1 else 0
  {
    BalanceBelow(t.left);
    RightRotateHeights(t);
  }

  /** Right side two higher because of its inner part. */
  lemma RightAndLeftBalances<V>(t: Tree<V>)
    requires Rotatable(t) && Balanced(t.left) && Balanced(t.right)
    requires Height(t.right) == Height(t.left) + 2 && Height(t.right.left) > Height(t.right.right)
    ensures t.right.Bin? && t.right.left.Bin?
    ensures var r := RightAndLeftRotate(t); Balanced(r) && TrueHeights(r) && Height(r) == Height(t.right)
  {
    BalanceBelow(t.right);
    BalanceBelow(t.right.left);
    DoubleRotateHeights(t);
  }

  lemma LeftAndRightBalances<V>(t: Tree<V>)
    requires Rotatable(t) && Balanced(t.left) && Balanced(t.right)
    requires Height(t.left) == Height(t.right) + 2 && Height(t.left.right) > Height(t.left.left)
    ensures t.left.Bin? && t.left.right.Bin?
    ensures var r := LeftAndRightRotate(t); Balanced(r) && TrueHeights(r) && Height(r) == Height(t.left)
  {
    BalanceBelow(t.left);
    BalanceBelow(t.left.right);
    DoubleRotateHeights(t);
  }

  // ---- Insert ----

  /** The lines after the recursive call into the right subtree. No result: the rotation goes through a
      missing child, which the source does not survive. */
  function FixRight<V>(n: Tree<V>, key: int): Option<Tree<V>>
    requires n.Bin? && n.right.Bin?
  {
    if BalanceFactor(n) > 1 then
      if key > n.right.key then Some(Reheight(LeftRotate(n)))
      else if n.right.left.Leaf? then None
      else Some(Reheight(RightAndLeftRotate(n)))
    else Some(Reheight(n))
  }

  /** The lines after the recursive call into the left subtree. */
  function FixLeft<V>(n: Tree<V>, key: int): Option<Tree<V>>
    requires n.Bin? && n.left.Bin?
  {
    if BalanceFactor(n) > 1 then
      if key <= n.left.key then Some(Reheight(RightRotate(n)))
      else if n.left.right.Leaf? then None
      else Some(Reheight(LeftAndRightRotate(n)))
    else Some(Reheight(n))
  }

  /** `insert`, on any tree: on the way back every node out of balance is rotated, the rotation chosen by
      comparing keys. */
  function Insert<V>(t: Tree<V>, key: int, val: V): (r: Option<Tree<V>>)
    ensures r.Some? ==> r.value.Bin?
  {
    if t.Leaf? then Some(Reheight(Bin(0, Leaf, key, val, Leaf)))
    else if key == t.key then Some(t.(val := val))
    else if key > t.key then
      var r := Insert(t.right, key, val);
      if r.None? then None else FixRight(t.(right := r.value), key)
    else
      var l := Insert(t.left, key, val);
      if l.None? then None else FixLeft(t.(left := l.value), key)
  }

  lemma FixRightKeeps<V>(n: Tree<V>, key: int)
    requires n.Bin? && n.right.Bin? && TrueHeights(n.left) && TrueHeights(n.right) && FixRight(n, key).Some?
    ensures TrueHeights(FixRight(n, key).value) && Entries(FixRight(n, key).value) == Entries(n)
  {
    HeightsBelow(n);
    hide TrueHeights, Entries, LeftRotate, RightAndLeftRotate;
    RotationsKeepEntries(n);
    DoubleRotateHeights(n);
    LeftRotateHeights(n);
    TrueTop(n);
    if n.right.left.Bin? { ReheightTrue(RightAndLeftRotate(n)); }
    ReheightTrue(LeftRotate(n));
  }

  lemma FixLeftKeeps<V>(n: Tree<V>, key: int)
    requires n.Bin? && n.left.Bin? && TrueHeights(n.left) && TrueHeights(n.right) && FixLeft(n, key).Some?
    ensures TrueHeights(FixLeft(n, key).value) && Entries(FixLeft(n, key).value) == Entries(n)
  {
    HeightsBelow(n);
    hide TrueHeights, Entries, RightRotate, LeftAndRightRotate;
    RotationsKeepEntries(n);
    DoubleRotateHeights(n);
    RightRotateHeights(n);
    TrueTop(n);
    if n.left.right.Bin? { ReheightTrue(LeftAndRightRotate(n)); }
    ReheightTrue(RightRotate(n));
  }

  lemma TrueTop<V>(n: Tree<V>)
    requires n.Bin? && TrueHeights(n.left) && TrueHeights(n.right)
    ensures TrueHeights(Reheight(n)) && Entries(Reheight(n)) == Entries(n)
  {
    HeightsBelow(n);
  }

  lemma ReheightTrue<V>(t: Tree<V>)
    ensures t.Bin? && TrueHeights(t) ==> Reheight(t) == t
  {
    if t.Bin? && TrueHeights(t) { HeightsBelow(t); }
  }

  /** One level of the recursion: what the side the key goes to gains, the tree gains. */
  lemma InsertToRight<V>(t: Tree<V>, key: int, val: V)
    requires TrueHeights(t) && t.Bin? && key > t.key && Insert(t, key, val).Some?
    ensures TrueHeights(t.right) && Insert(t.right, key, val).Some?
    ensures var n := t.(right := Insert(t.right, key, val).value);
      && Insert(t, key, val) == FixRight(n, key) && TrueHeights(n.left) && TrueHeights(n.right)
      && |Entries(Insert(t, key, val).value)| - |Entries(t)| == |Entries(n.right)| - |Entries(t.right)|
  {
    hide FixRight;
    InsertHeights(t.right, key, val);
    FixRightKeeps(t.(right := Insert(t.right, key, val).value), key);
  }

  lemma InsertToLeft<V>(t: Tree<V>, key: int, val: V)
    requires TrueHeights(t) && t.Bin? && key < t.key && Insert(t, key, val).Some?
    ensures TrueHeights(t.left) && Insert(t.left, key, val).Some?
    ensures var n := t.(left := Insert(t.left, key, val).value);
      && Insert(t, key, val) == FixLeft(n, key) && TrueHeights(n.left) && TrueHeights(n.right)
      && |Entries(Insert(t, key, val).value)| - |Entries(t)| == |Entries(n.left)| - |Entries(t.left)|
  {
    hide FixLeft;
    InsertHeights(t.left, key, val);
    FixLeftKeeps(t.(left := Insert(t.left, key, val).value), key);
  }

  lemma {:induction false} InsertHeights<V>(t: Tree<V>, key: int, val: V)
    requires TrueHeights(t) && Insert(t, key, val).Some?
    ensures TrueHeights(Insert(t, key, val).value)
  {
    if t.Bin? && key > t.key {
      InsertHeights(t.right, key, val);
      FixRightKeeps(t.(right := Insert(t.right, key, val).value), key);
    } else if t.Bin? && key < t.key {
      InsertHeights(t.left, key, val);
      FixLeftKeeps(t.(left := Insert(t.left, key, val).value), key);
    }
  }

  lemma {:induction false} InsertEntries<V>(t: Tree<V>, key: int, val: V)
    requires Ordered(t) && TrueHeights(t) && Insert(t, key, val).Some?
    ensures Entries(Insert(t, key, val).value) == Put(Entries(t), key, val)
  {
    if t.Bin? {
      hide FixRight, FixLeft;
      PutInThree(Entries(t.left), (t.key, t.val), Entries(t.right), key, val);
      if key > t.key {
        InsertToRight(t, key, val);
        InsertEntries(t.right, key, val);
        FixRightKeeps(t.(right := Insert(t.right, key, val).value), key);
      } else if key < t.key {
        InsertToLeft(t, key, val);
        InsertEntries(t.left, key, val);
        FixLeftKeeps(t.(left := Insert(t.left, key, val).value), key);
      }
    }
  }

  // ---- When insertion survives ----

  predicate Uneven(a: nat, b: nat) {
    a > b + 1 || b > a + 1
  }

  /** If inserting brings the key's node to the top of the tree without a left child: the height of its
      right child then. The node gets there when it has no left child, lies on a path of left turns only,
      and every node of the path is uneven, so that a single right rotation lifts it each time. Only the
      tree's keys and cached heights are looked at. */
  function Lifted<V>(t: Tree<V>, key: int): Option<nat> {
    if t.Leaf? then Some(0)
    else if key == t.key then if t.left.Leaf? then Some(H(t.right)) else None
    else if key > t.key then None
    else
      var b := Lifted(t.left, key);
      if b.Some? && Uneven(b.value + 1, H(t.right)) then Some(Max(b.value, H(t.right)) + 1) else None
  }

  /** The path to the key has a right turn at an uneven node, and that node's right child will then hold
      the key and lack the inner child that the double rotation needs. */
  predicate Breaks<V>(t: Tree<V>, key: int) {
    t.Bin? && key != t.key &&
    if key < t.key then Breaks(t.left, key)
    else Breaks(t.right, key) || (Lifted(t.right, key).Some? && Uneven(H(t.left), Lifted(t.right, key).value + 1))
  }

  /** The key is on the side where a search finds it. */
  lemma KeyHasSide<V>(t: Tree<V>, key: int)
    requires Ordered(t) && t.Bin? && key in ToMap(Entries(t))
    ensures (key < t.key ==> t.left.Bin?) && (key > t.key ==> t.right.Bin?)
  {
    ToMapKeys(Entries(t), key);
    SortedParts(Entries(t.left), (t.key, t.val), Entries(t.right));
  }

  /** The map of `r` is the map of `t` with the key updated; order and true heights are kept. */
  ghost predicate Updated<V>(t: Tree<V>, r: Tree<V>, key: int, val: V) {
    && Ordered(r) && TrueHeights(r) && ToMap(Entries(r)) == ToMap(Entries(t))[key := val]
    && |Entries(r)| == |Entries(t)| + if key in ToMap(Entries(t)) then 0 else 1
  }

  lemma InsertHolds<V>(t: Tree<V>, key: int, val: V)
    requires Ordered(t) && TrueHeights(t) && Insert(t, key, val).Some?
    ensures Updated(t, Insert(t, key, val).value, key, val)
  {
    InsertHeights(t, key, val);
    InsertEntries(t, key, val);
    PutMeaning(Entries(t), key, val);
  }

  /** The key's node is on top without a left child. */
  predicate Topped<V>(r: Tree<V>, key: int) {
    r.Bin? && r.key == key && r.left.Leaf?
  }

  ghost predicate LiftedAs<V>(r: Tree<V>, key: int, b: Option<nat>) {
    (b.Some? <==> Topped(r, key)) && (b.Some? ==> H(r.right) == b.value && H(r) == b.value + 1)
  }

  lemma FixRightLifts<V>(n: Tree<V>, key: int, b: Option<nat>)
    requires n.Bin? && n.right.Bin? && key > n.key && LiftedAs(n.right, key, b)
    requires (key < n.right.key ==> n.right.left.Bin?)
    ensures FixRight(n, key).None? <==> b.Some? && Uneven(H(n.left), b.value + 1)
    ensures FixRight(n, key).Some? ==> LiftedAs(FixRight(n, key).value, key, None)
  {
  }

  lemma FixLeftLifts<V>(n: Tree<V>, key: int, b: Option<nat>)
    requires n.Bin? && n.left.Bin? && key < n.key && LiftedAs(n.left, key, b)
    requires (key > n.left.key ==> n.left.right.Bin?)
    ensures FixLeft(n, key).Some?
    ensures LiftedAs(FixLeft(n, key).value, key,
      if b.Some? && Uneven(b.value + 1, H(n.right)) then Some(Max(b.value, H(n.right)) + 1) else None)
  {
  }

  ghost predicate LiftsWell<V>(t: Tree<V>, key: int, r: Option<Tree<V>>) {
    (r.Some? <==> !Breaks(t, key)) && (r.Some? ==> LiftedAs(r.value, key, Lifted(t, key)))
  }

  lemma {:induction false} InsertLifts<V>(t: Tree<V>, key: int, val: V)
    requires Ordered(t) && TrueHeights(t)
    ensures LiftsWell(t, key, Insert(t, key, val))
  {
    if t.Bin? {
      SortedParts(Entries(t.left), (t.key, t.val), Entries(t.right));
      assert TrueHeights(t.left) && TrueHeights(t.right);
      hide LiftsWell;
      if key > t.key {
        InsertLifts(t.right, key, val);
        LiftsRight(t, key, val);
      } else if key < t.key {
        InsertLifts(t.left, key, val);
        LiftsLeft(t, key, val);
      } else {
        SameTop(t, key, val);
      }
    } else {
      NewTop(key, val);
    }
  }

  lemma LiftsRight<V>(t: Tree<V>, key: int, val: V)
    requires t.Bin? && key > t.key && Ordered(t.right) && TrueHeights(t.right)
    requires LiftsWell(t.right, key, Insert(t.right, key, val))
    ensures LiftsWell(t, key, Insert(t, key, val))
  {
    hide FixRight, LiftedAs, Updated, Ordered, TrueHeights;
    var r := Insert(t.right, key, val);
    if r.Some? {
      InsertHolds(t.right, key, val);
      UpdatedHolds(t.right, r.value, key, val);
      KeyHasSide(r.value, key);
      FixRightLifts(t.(right := r.value), key, Lifted(t.right, key));
    }
  }

  lemma LiftsLeft<V>(t: Tree<V>, key: int, val: V)
    requires t.Bin? && key < t.key && Ordered(t.left) && TrueHeights(t.left)
    requires LiftsWell(t.left, key, Insert(t.left, key, val))
    ensures LiftsWell(t, key, Insert(t, key, val))
  {
    hide FixLeft, LiftedAs, Updated, Ordered, TrueHeights;
    var l := Insert(t.left, key, val);
    if l.Some? {
      InsertHolds(t.left, key, val);
      UpdatedHolds(t.left, l.value, key, val);
      KeyHasSide(l.value, key);
      FixLeftLifts(t.(left := l.value), key, Lifted(t.left, key));
    }
  }

  lemma UpdatedHolds<V>(t: Tree<V>, r: Tree<V>, key: int, val: V)
    requires Updated(t, r, key, val)
    ensures Ordered(r) && key in ToMap(Entries(r))
  {
  }

  lemma SameTop<V>(t: Tree<V>, key: int, val: V)
    requires TrueHeights(t) && t.Bin? && t.key == key
    ensures LiftsWell(t, key, Insert(t, key, val))
  {
    HeightsBelow(t);
  }

  lemma NewTop<V>(key: int, val: V)
    ensures LiftsWell(Leaf, key, Insert(Leaf, key, val))
  {
  }

  /** On every ordered tree with true heights, balanced or not, insertion comes to an end if and only if
      its path does not break; then it is a map update that keeps order and true heights. */
  lemma InsertRefinesMap<V>(t: Tree<V>, key: int, val: V)
    requires Ordered(t) && TrueHeights(t)
    ensures Insert(t, key, val).Some? <==> !Breaks(t, key)
    ensures Insert(t, key, val).Some? ==> Updated(t, Insert(t, key, val).value, key, val)
  {
    InsertLifts(t, key, val);
    if Insert(t, key, val).Some? { InsertHolds(t, key, val); }
  }

  // ---- Insertion into a balanced tree ----

  /** The right side grew by at most one, on the side of the key. */
  lemma FixRightBalances<V>(n: Tree<V>, key: int)
    requires n.Bin? && n.right.Bin? && TrueHeights(n.left) && TrueHeights(n.right) && Balanced(n.left)
    requires Balanced(n.right)
    requires Height(n.left) <= Height(n.right) + 1 && Height(n.right) <= Height(n.left) + 2
    requires Height(n.right) == Height(n.left) + 2 ==>
      if key > n.right.key then Height(n.right.right) == Height(n.right.left) + 1
          else Height(n.right.left) == Height(n.right.right) + 1
    ensures FixRight(n, key).Some? && var r := FixRight(n, key).value;
      r.Bin? && TrueHeights(r) && Balanced(r)
      && if Height(n.right) == Height(n.left) + 2 then Height(r) == Height(n.right) else r == Reheight(n)
  {
    HeightsBelow(n);
    if BalanceFactor(n) > 1 {
      if key > n.right.key { LeftRotateBalances(n); } else { RightAndLeftBalances(n); }
    }
  }

  lemma FixLeftBalances<V>(n: Tree<V>, key: int)
    requires n.Bin? && n.left.Bin? && TrueHeights(n.left) && TrueHeights(n.right) && Balanced(n.left)
    requires Balanced(n.right)
    requires Height(n.right) <= Height(n.left) + 1 && Height(n.left) <= Height(n.right) + 2
    requires Height(n.left) == Height(n.right) + 2 ==>
      if key > n.left.key then Height(n.left.right) == Height(n.left.left) + 1
          else Height(n.left.left) == Height(n.left.right) + 1
    ensures FixLeft(n, key).Some? && var r := FixLeft(n, key).value;
      r.Bin? && TrueHeights(r) && Balanced(r)
      && if Height(n.left) == Height(n.right) + 2 then Height(r) == Height(n.left) else r == Reheight(n)
  {
    HeightsBelow(n);
    if BalanceFactor(n) > 1 {
      if key > n.left.key { LeftAndRightBalances(n); } else { RightRotateBalances(n); }
    }
  }

  /** A tree that grew kept its root and leans to the side the key went to. */
  ghost predicate GrewTowards<V>(t: Tree<V>, r: Tree<V>, key: int) {
    && r.Bin? && Height(t) <= Height(r) <= Height(t) + 1 && (t.Leaf? ==> r.key == key && Height(r) == 1)
    && (t.Bin? && Height(r) == Height(t) + 1 ==>
      r.key == t.key && r.key != key
      && if key > r.key then Height(r.right) == Height(r.left) + 1 else Height(r.left) == Height(r.right) + 1)
  }

  lemma {:induction false} InsertBalances<V>(t: Tree<V>, key: int, val: V)
    requires TrueHeights(t) && Balanced(t)
    ensures Insert(t, key, val).Some?
    ensures var r := Insert(t, key, val).value;
      TrueHeights(r) && Balanced(r) && GrewTowards(t, r, key)
  {
    if t.Bin? {
      BalanceBelow(t);
      HeightsBelow(t);
      hide FixRight, FixLeft;
      if key > t.key {
        InsertBalances(t.right, key, val);
        GrowsRight(t, Insert(t.right, key, val).value, key);
      } else if key < t.key {
        InsertBalances(t.left, key, val);
        GrowsLeft(t, Insert(t.left, key, val).value, key);
      } else {
        SameShape(t, val);
      }
    } else {
      OneLeaf(key, val);
    }
  }

  lemma OneLeaf<V>(key: int, val: V)
    ensures var r := Reheight(Bin(0, Leaf, key, val, Leaf)); TrueHeights(r) && Balanced(r) && GrewTowards(Leaf, r, key)
  {
  }

  lemma SameShape<V>(t: Tree<V>, val: V)
    requires t.Bin? && TrueHeights(t) && Balanced(t)
    ensures var r := t.(val := val); TrueHeights(r) && Balanced(r) && GrewTowards(t, r, t.key)
  {
  }

  lemma GrowsRight<V>(t: Tree<V>, r: Tree<V>, key: int)
    requires TrueHeights(t) && Balanced(t) && t.Bin? && key > t.key && TrueHeights(r) && Balanced(r)
    requires GrewTowards(t.right, r, key)
    ensures var f := FixRight(t.(right := r), key);
      f.Some? && TrueHeights(f.value) && Balanced(f.value) && GrewTowards(t, f.value, key)
  {
    BalanceBelow(t);
    HeightsBelow(t);
    HeightsBelow(t.(right := r));
    hide FixRight, Balanced;
    FixRightBalances(t.(right := r), key);
  }

  lemma GrowsLeft<V>(t: Tree<V>, l: Tree<V>, key: int)
    requires TrueHeights(t) && Balanced(t) && t.Bin? && key < t.key && TrueHeights(l) && Balanced(l)
    requires GrewTowards(t.left, l, key)
    ensures var f := FixLeft(t.(left := l), key);
      f.Some? && TrueHeights(f.value) && Balanced(f.value) && GrewTowards(t, f.value, key)
  {
    BalanceBelow(t);
    HeightsBelow(t);
    HeightsBelow(t.(left := l));
    hide FixLeft, Balanced;
    FixLeftBalances(t.(left := l), key);
  }

  /** Insertion keeps an AVL tree an AVL tree and raises it by at most one; it never breaks. */
  lemma InsertKeepsAvl<V>(t: Tree<V>, key: int, val: V)
    requires IsAvl(t)
    ensures !Breaks(t, key) && Insert(t, key, val).Some?
    ensures var r := Insert(t, key, val).value; IsAvl(r) && Height(t) <= Height(r) <= Height(t) + 1
  {
    InsertBalances(t, key, val);
    InsertRefinesMap(t, key, val);
  }

  ghost function Fib(n: nat): nat {
    if n < 2 then n else Fib(n - 1) + Fib(n - 2)
  }

  lemma {:induction false} FibMonotone(m: nat, n: nat)
    requires m <= n
    ensures Fib(m) <= Fib(n)
  {
    if m < n { FibMonotone(m, n - 1); }
  }

  /** Why balance bounds the height: a tree of height h has at least Fib(h+2) - 1 nodes. */
  lemma {:induction false} SizeAtLeastFib<V>(t: Tree<V>)
    requires Balanced(t)
    ensures |Entries(t)| + 1 >= Fib(Height(t) + 2)
  {
    if t.Bin? {
      SizeAtLeastFib(t.left);
      SizeAtLeastFib(t.right);
      var h := Height(t);
      FibMonotone(h, Height(t.left) + 2);
      FibMonotone(h, Height(t.right) + 2);
      assert |Entries(t)| == |Entries(t.left)| + 1 + |Entries(t.right)|;
      assert Height(t.left) == h - 1 || Height(t.right) == h - 1;
      assert Fib(h + 2) == Fib(h + 1) + Fib(h);
    }
  }

  // ---- Delete ----

  /** The last lines of `deletenode`: refresh the height and rotate if the sides differ by two or more. */
  function Fix<V>(t: Tree<V>): (r: Tree<V>)
    requires t.Bin? && TrueHeights(t.left) && TrueHeights(t.right)
    ensures TrueHeights(r)
  {
    var n := Reheight(t);
    HeightsBelow(n);
    if BalanceFactor(n) < 2 then n
    else if H(n.left) > H(n.right) then
      if H(n.left.left) > H(n.left.right) then RightRotateHeights(n); RightRotate(n)
      else DoubleRotateHeights(n); LeftAndRightRotate(n)
    else
      if H(n.right.left) > H(n.right.right) then DoubleRotateHeights(n); RightAndLeftRotate(n)
      else LeftRotateHeights(n); LeftRotate(n)
  }

  function MaxEntry<V>(t: Tree<V>): Entry<V>
    requires t.Bin?
  {
    if t.right.Leaf? then (t.key, t.val) else MaxEntry(t.right)
  }

  function MinEntry<V>(t: Tree<V>): Entry<V>
    requires t.Bin?
  {
    if t.left.Leaf? then (t.key, t.val) else MinEntry(t.left)
  }

  /** The tree after `std::swap` has put another entry into its rightmost node. */
  function WithMax<V>(t: Tree<V>, key: int, val: V): (r: Tree<V>)
    requires t.Bin?
    ensures r.Bin? && Height(r) == Height(t) && H(r) == H(t)
    ensures (TrueHeights(t) ==> TrueHeights(r)) && (Balanced(t) ==> Balanced(r))
    ensures Entries(t) != [] && Entries(r) == Entries(t)[|Entries(t)| - 1 := (key, val)]
    ensures MaxEntry(t) == Entries(t)[|Entries(t)| - 1]
  {
    if t.right.Leaf? then t.(key := key, val := val) else t.(right := WithMax(t.right, key, val))
  }

  function WithMin<V>(t: Tree<V>, key: int, val: V): (r: Tree<V>)
    requires t.Bin?
    ensures r.Bin? && Height(r) == Height(t) && H(r) == H(t)
    ensures (TrueHeights(t) ==> TrueHeights(r)) && (Balanced(t) ==> Balanced(r))
    ensures Entries(t) != [] && Entries(r) == Entries(t)[0 := (key, val)]
    ensures MinEntry(t) == Entries(t)[0]
  {
    if t.left.Leaf? then t.(key := key, val := val) else t.(left := WithMin(t.left, key, val))
  }

  /** `deletenode`. Heights are all it relies on, so no rotation ever goes through a missing child. */
  function Delete<V>(t: Tree<V>, key: int): (r: Tree<V>)
    requires TrueHeights(t)
    ensures TrueHeights(r)
    decreases |Entries(t)|
  {
    if t.Leaf? then Leaf
    else if key > t.key then Fix(t.(right := Delete(t.right, key)))
    else if key < t.key then Fix(t.(left := Delete(t.left, key)))
    else if t.left.Bin? && t.right.Bin? then
      if t.left.h > t.right.h then
        var m := MaxEntry(t.left);
        Fix(t.(key := m.0, val := m.1, left := Delete(WithMax(t.left, t.key, t.val), key)))
      else
        var m := MinEntry(t.right);
        Fix(t.(key := m.0, val := m.1, right := Delete(WithMin(t.right, t.key, t.val), key)))
    else if t.left.Bin? then assert TrueHeights(t.left); Fix(t.left)
    else if t.right.Bin? then assert TrueHeights(t.right); Fix(t.right)
    else Leaf
  }

  lemma FixEntries<V>(t: Tree<V>)
    requires t.Bin? && TrueHeights(t.left) && TrueHeights(t.right)
    ensures Entries(Fix(t)) == Entries(t)
  {
    HeightsBelow(Reheight(t));
    RotationsKeepEntries(Reheight(t));
  }

  lemma {:induction false} DeleteEntries<V>(t: Tree<V>, key: int)
    requires TrueHeights(t) && Ordered(t)
    ensures Entries(Delete(t, key)) == Without(Entries(t), key)
    decreases |Entries(t)|, 1
  {
    if t.Bin? {
      WithoutInThree(Entries(t.left), (t.key, t.val), Entries(t.right), key);
      if key > t.key {
        DeleteEntries(t.right, key);
        FixEntries(t.(right := Delete(t.right, key)));
      } else if key < t.key {
        DeleteEntries(t.left, key);
        FixEntries(t.(left := Delete(t.left, key)));
      } else if t.left.Bin? && t.right.Bin? {
        if t.left.h > t.right.h { DeleteByMax(t); } else { DeleteByMin(t); }
      } else {
        assert TrueHeights(t.left) && TrueHeights(t.right);
        if t.left.Bin? { FixEntries(t.left); } else if t.right.Bin? { FixEntries(t.right); }
      }
    }
  }

  lemma FixedBin<V>(h: nat, l: Tree<V>, m: Entry<V>, r: Tree<V>)
    requires TrueHeights(l) && TrueHeights(r)
    ensures Entries(Fix(Bin(h, l, m.0, m.1, r))) == Entries(l) + [m] + Entries(r)
  {
    FixEntries(Bin(h, l, m.0, m.1, r));
  }

  /** Two children, left one higher: its largest entry moves up, the key is deleted one level down. */
  lemma {:induction false} DeleteByMax<V>(t: Tree<V>)
    requires TrueHeights(t) && Ordered(t) && t.Bin? && t.left.Bin? && t.right.Bin? && t.left.h > t.right.h
    ensures Entries(Delete(t, t.key)) == Entries(t.left) + Entries(t.right)
    decreases |Entries(t)|, 0
  {
    hide Fix, WithMax;
    var a := Entries(t.left);
    SortedParts(a, (t.key, t.val), Entries(t.right));
    ReplacedLast(a, (t.key, t.val));
    DeleteEntries(WithMax(t.left, t.key, t.val), t.key);
    var m, l := MaxEntry(t.left), Delete(WithMax(t.left, t.key, t.val), t.key);
    FixedBin(t.h, l, m, t.right);
    assert Entries(l) == a[..|a| - 1];
    assert a[..|a| - 1] + [m] == a;
  }

  lemma {:induction false} DeleteByMin<V>(t: Tree<V>)
    requires TrueHeights(t) && Ordered(t) && t.Bin? && t.left.Bin? && t.right.Bin? && t.left.h <= t.right.h
    ensures Entries(Delete(t, t.key)) == Entries(t.left) + Entries(t.right)
    decreases |Entries(t)|, 0
  {
    hide Fix, WithMin;
    var a, b := Entries(t.left), Entries(t.right);
    SortedParts(a, (t.key, t.val), b);
    ReplacedFirst(b, (t.key, t.val));
    DeleteEntries(WithMin(t.right, t.key, t.val), t.key);
    var m, r := MinEntry(t.right), Delete(WithMin(t.right, t.key, t.val), t.key);
    FixedBin(t.h, t.left, m, r);
    assert Entries(r) == b[1..];
    assert a + [m] + b[1..] == a + b;
  }

  /** Deletion takes exactly the key away, on every ordered tree whose cached heights are true. */
  lemma DeleteRefinesMap<V>(t: Tree<V>, key: int)
    requires TrueHeights(t) && Ordered(t)
    ensures var r := Delete(t, key);
      Ordered(r) && TrueHeights(r) && ToMap(Entries(r)) == ToMap(Entries(t)) - {key}
      && |Entries(r)| == |Entries(t)| - if key in ToMap(Entries(t)) then 1 else 0
  {
    DeleteEntries(t, key);
    WithoutMeaning(Entries(t), key);
  }

  // ---- When deletion keeps the balance ----

  /** Deleting the key makes a balanced tree lower by one. Only keys and cached heights are looked at: a
      side that shrinks lowers the tree if it was the higher one, or if the other was higher and its own
      two sides differ, so that the rotation that follows takes a level away. */
  predicate Shrinks<V>(t: Tree<V>, key: int)
    decreases |Entries(t)|
  {
    if t.Leaf? then false
    else if key > t.key then Shrinks(t.right, key) && LowersRight(t)
    else if key < t.key then Shrinks(t.left, key) && LowersLeft(t)
    else if t.left.Leaf? || t.right.Leaf? then true
    else if t.left.h > t.right.h then Shrinks(WithMax(t.left, t.key, t.val), key) && LowersLeft(t)
    else Shrinks(WithMin(t.right, t.key, t.val), key) && LowersRight(t)
  }

  predicate LowersRight<V>(t: Tree<V>)
    requires t.Bin?
  {
    H(t.right) > H(t.left) || (H(t.left) > H(t.right) && t.left.Bin? && H(t.left.left) != H(t.left.right))
  }

  predicate LowersLeft<V>(t: Tree<V>)
    requires t.Bin?
  {
    H(t.left) > H(t.right) || (H(t.right) > H(t.left) && t.right.Bin? && H(t.right.left) != H(t.right.right))
  }

  /** The tie the source resolves the wrong way: the left side is higher and its two parts are level, so
      the double rotation will run when the right side shrinks, while the inner part leans outward and
      leaves a gap behind. */
  predicate TieAhead<V>(t: Tree<V>) {
    && t.Bin? && t.left.Bin? && H(t.left) > H(t.right) && H(t.left.left) == H(t.left.right)
    && t.left.right.Bin? && H(t.left.right.left) < H(t.left.right.right)
  }

  /** Somewhere on the path to the key the right side of such a tie will shrink. */
  predicate MeetsBadTie<V>(t: Tree<V>, key: int)
    decreases |Entries(t)|
  {
    if t.Leaf? then false
    else if key > t.key then MeetsBadTie(t.right, key) || (TieAhead(t) && Shrinks(t.right, key))
    else if key < t.key then MeetsBadTie(t.left, key)
    else if t.left.Leaf? || t.right.Leaf? then false
    else if t.left.h > t.right.h then MeetsBadTie(WithMax(t.left, t.key, t.val), key)
    else MeetsBadTie(WithMin(t.right, t.key, t.val), key)
  }

  /** The tie as the rotation finds it. */
  ghost predicate BadTie<V>(n: Tree<V>) {
    && n.Bin? && n.left.Bin? && H(n.left) >= H(n.right) + 2 && H(n.left.left) == H(n.left.right)
    && n.left.right.Bin? && H(n.left.right.left) < H(n.left.right.right)
  }

  /** The height that the last lines of `deletenode` leave when the sides differ by at most two. */
  function FixedHeight<V>(n: Tree<V>): nat
    requires n.Bin?
  {
    if H(n.left) == H(n.right) + 2 then H(n.left) + if n.left.Bin? && H(n.left.left) == H(n.left.right) then 1 else 0
    else if H(n.right) == H(n.left) + 2 then
      H(n.right) + if n.right.Bin? && H(n.right.left) == H(n.right.right) then 1 else 0
    else Max(H(n.left), H(n.right)) + 1
  }

  /** One step of the way back from balanced sides. */
  lemma FixBalance<V>(t: Tree<V>)
    requires t.Bin? && TrueHeights(t.left) && TrueHeights(t.right) && Balanced(t.left) && Balanced(t.right)
    requires Height(t.left) <= Height(t.right) + 2 && Height(t.right) <= Height(t.left) + 2
    ensures Balanced(Fix(t)) <==> !BadTie(t)
    ensures Height(Fix(t)) == FixedHeight(t)
  {
    var n := Reheight(t);
    HeightsBelow(n);
    if Height(t.left) == Height(t.right) + 2 {
      BalanceBelow(t.left);
      if Height(t.left.left) > Height(t.left.right) {
        RightRotateBalances(n);
      } else if Height(t.left.left) < Height(t.left.right) {
        LeftAndRightBalances(n);
      } else {
        TieRotation(n);
      }
    } else if Height(t.right) == Height(t.left) + 2 {
      BalanceBelow(t.right);
      if Height(t.right.left) > Height(t.right.right) { RightAndLeftBalances(n); } else { LeftRotateBalances(n); }
    }
  }

  /** A side already out of balance kept its height, so nothing above it rotates or repairs it. */
  lemma FixUnbalanced<V>(t: Tree<V>)
    requires t.Bin? && TrueHeights(t.left) && TrueHeights(t.right) && !(Balanced(t.left) && Balanced(t.right))
    requires Height(t.left) <= Height(t.right) + 1 && Height(t.right) <= Height(t.left) + 1
    ensures !Balanced(Fix(t)) && Height(Fix(t)) == Max(Height(t.left), Height(t.right)) + 1
  {
    HeightsBelow(Reheight(t));
  }

  /** What the double rotation makes of a tie. */
  lemma TieRotation<V>(n: Tree<V>)
    requires Rotatable(n) && Balanced(n.left) && Balanced(n.right)
    requires Height(n.left) == Height(n.right) + 2 && n.left.Bin? && Height(n.left.left) == Height(n.left.right)
    ensures n.left.right.Bin?
    ensures Balanced(LeftAndRightRotate(n)) <==> !BadTie(n)
    ensures Height(LeftAndRightRotate(n)) == Height(n.left) + 1
  {
    HeightsBelow(n);
    BalanceBelow(n.left);
    BalanceBelow(n.left.right);
    HeightsBelow(n.left);
  }

  /** `n` is the balanced `t` after its right side was replaced. `shrunk`: that side is lower by one now;
      `met`: it lost its balance, and then it kept its height. */
  lemma FixedOnRight<V>(t: Tree<V>, n: Tree<V>, shrunk: bool, met: bool)
    requires t.Bin? && TrueHeights(t) && Balanced(t) && n.Bin? && n.left == t.left && TrueHeights(n.right)
    requires Height(n.right) == Height(t.right) - (if shrunk then 1 else 0) && (met ==> !shrunk)
    requires (met <==> !Balanced(n.right))
    ensures TrueHeights(n.left) && (Balanced(Fix(n)) <==> !(met || (shrunk && TieAhead(t))))
    ensures Height(Fix(n)) == Height(t) - if shrunk && LowersRight(t) then 1 else 0
  {
    BalanceBelow(t);
    HeightsBelow(t);
    HeightsBelow(n);
    if met { FixUnbalanced(n); } else { FixBalance(n); }
  }

  lemma FixedOnLeft<V>(t: Tree<V>, n: Tree<V>, shrunk: bool, met: bool)
    requires t.Bin? && TrueHeights(t) && Balanced(t) && n.Bin? && n.right == t.right && TrueHeights(n.left)
    requires Height(n.left) == Height(t.left) - (if shrunk then 1 else 0) && (met ==> !shrunk)
    requires (met <==> !Balanced(n.left))
    ensures TrueHeights(n.right) && (Balanced(Fix(n)) <==> !met)
    ensures Height(Fix(n)) == Height(t) - if shrunk && LowersLeft(t) then 1 else 0
  {
    BalanceBelow(t);
    HeightsBelow(t);
    HeightsBelow(n);
    if met { FixUnbalanced(n); } else { FixBalance(n); }
  }

  lemma FixIdle<V>(t: Tree<V>)
    requires t.Bin? && TrueHeights(t) && Balanced(t)
    ensures Fix(t) == t
  {
    HeightsBelow(t);
    BalanceBelow(t);
  }

  /** Deletion from an AVL tree leaves an AVL tree if and only if it meets no bad tie. It lowers the
      tree by one exactly when the heights on the path say so. */
  lemma {:induction false} DeleteBalance<V>(t: Tree<V>, key: int)
    requires TrueHeights(t) && Balanced(t)
    ensures Balanced(Delete(t, key)) <==> !MeetsBadTie(t, key)
    ensures Height(Delete(t, key)) == Height(t) - if Shrinks(t, key) then 1 else 0
    ensures MeetsBadTie(t, key) ==> !Shrinks(t, key)
    decreases |Entries(t)|, 1
  {
    if t.Bin? {
      BalanceBelow(t);
      HeightsBelow(t);
      hide Fix, LowersLeft, LowersRight, TieAhead, Balanced;
      TieDoesNotLower(t);
      if key > t.key {
        DeleteBalance(t.right, key);
        FixedOnRight(t, t.(right := Delete(t.right, key)), Shrinks(t.right, key), MeetsBadTie(t.right, key));
      } else if key < t.key {
        DeleteBalance(t.left, key);
        FixedOnLeft(t, t.(left := Delete(t.left, key)), Shrinks(t.left, key), MeetsBadTie(t.left, key));
      } else if t.left.Bin? && t.right.Bin? {
        DeleteInside(t);
      } else {
        OneSide(t);
      }
    }
  }

  lemma TieDoesNotLower<V>(t: Tree<V>)
    requires t.Bin?
    ensures TieAhead(t) ==> !LowersRight(t) && H(t.left) > H(t.right)
  {
  }

  lemma {:induction false} DeleteInside<V>(t: Tree<V>)
    requires TrueHeights(t) && Balanced(t) && t.Bin? && t.left.Bin? && t.right.Bin?
    ensures Balanced(Delete(t, t.key)) <==> !MeetsBadTie(t, t.key)
    ensures Height(Delete(t, t.key)) == Height(t) - if Shrinks(t, t.key) then 1 else 0
    ensures MeetsBadTie(t, t.key) ==> !Shrinks(t, t.key)
    decreases |Entries(t)|, 0
  {
    BalanceBelow(t);
    HeightsBelow(t);
    hide Fix, LowersLeft, LowersRight, TieAhead, Balanced;
    TieDoesNotLower(t);
    if t.left.h > t.right.h {
      var l, m := WithMax(t.left, t.key, t.val), MaxEntry(t.left);
      DeleteBalance(l, t.key);
      FixedOnLeft(t, t.(key := m.0, val := m.1, left := Delete(l, t.key)), Shrinks(l, t.key), MeetsBadTie(l, t.key));
    } else {
      var r, m := WithMin(t.right, t.key, t.val), MinEntry(t.right);
      DeleteBalance(r, t.key);
      FixedOnRight(t, t.(key := m.0, val := m.1, right := Delete(r, t.key)), Shrinks(r, t.key), MeetsBadTie(r, t.key));
    }
  }

  lemma OneSide<V>(t: Tree<V>)
    requires TrueHeights(t) && Balanced(t) && t.Bin? && (t.left.Leaf? || t.right.Leaf?)
    ensures Balanced(Delete(t, t.key)) && Height(Delete(t, t.key)) == Height(t) - 1
  {
    BalanceBelow(t);
    assert TrueHeights(t.left) && TrueHeights(t.right);
    if t.left.Bin? { FixIdle(t.left); } else if t.right.Bin? { FixIdle(t.right); }
  }

  // ---- A deletion that loses balance ----

  function Grown(l: Tree<int>, key: int, r: Tree<int>): Tree<int> {
    Reheight(Bin(0, l, key, 0, r))
  }

  function One(key: int): Tree<int> {
    Grown(Leaf, key, Leaf)
  }

  /** A nine-node AVL tree on which deleting 60 runs into the bad tie. */
  function TieExample(): Tree<int> {
    Grown(Grown(Grown(One(5), 10, Leaf), 20, Grown(Leaf, 30, One(35))), 40, Grown(Leaf, 50, One(60)))
  }

  lemma DeleteCanUnbalance()
    ensures IsAvl(TieExample()) && !Balanced(Delete(TieExample(), 60))
  {
    var x, y, z := Grown(One(5), 10, Leaf), Grown(Leaf, 30, One(35)), Grown(Leaf, 50, One(60));
    var l := Grown(x, 20, y);
    assert TieExample() == Grown(l, 40, z);
    TieIsMet(l, z);
    hide Fits, Grown, TieExample;
    OneFits(0, 5, 10); LeafFits(10, 20); GrownFits(One(5), 10, Leaf, 1, 0, 0, 20);
    LeafFits(20, 30); OneFits(30, 35, 40); GrownFits(Leaf, 30, One(35), 0, 1, 20, 40);
    GrownFits(x, 20, y, 2, 2, 0, 40);
    LeafFits(40, 50); OneFits(50, 60, 70); GrownFits(Leaf, 50, One(60), 0, 1, 40, 70);
    GrownFits(l, 40, z, 3, 2, 0, 70);
    FitsTrue(TieExample(), 4, 0, 70);
    DeleteBalance(TieExample(), 60);
  }

  lemma GrownIsTrue(l: Tree<int>, key: int, r: Tree<int>)
    requires TrueHeights(l) && TrueHeights(r) && Balanced(l) && Balanced(r)
    requires Height(l) <= Height(r) + 1 && Height(r) <= Height(l) + 1
    ensures TrueHeights(Grown(l, key, r)) && Balanced(Grown(l, key, r))
    ensures Height(Grown(l, key, r)) == Max(Height(l), Height(r)) + 1
  {
  }

  lemma TieIsMet(l: Tree<int>, r: Tree<int>)
    requires r == Grown(Leaf, 50, One(60)) && l == Grown(Grown(One(5), 10, Leaf), 20, Grown(Leaf, 30, One(35)))
    ensures MeetsBadTie(Grown(l, 40, r), 60)
  {
    assert Shrinks(One(60), 60);
    assert Shrinks(r, 60);
    assert TieAhead(Grown(l, 40, r));
  }

  // ---- A deletion after which an insertion breaks ----

  function LowKeys(): Tree<int> {
    Grown(Grown(Leaf, 3, One(6)), 9, Grown(Leaf, 17, Leaf))
  }

  function BreakBefore(a: Tree<int>): Tree<int> {
    Grown(Grown(a, 27, Grown(One(28), 29, Grown(Leaf, 30, One(34)))), 36, Grown(One(46), 53, Grown(Leaf, 58, One(59))))
  }

  function BreakAfter(a: Tree<int>): Tree<int> {
    Grown(Grown(a, 27, One(28)), 29, Grown(Grown(Leaf, 30, One(34)), 36, Grown(One(46), 53, One(59))))
  }

  /** An AVL tree of this height with keys strictly between `lo` and `hi`. */
  ghost predicate Fits(t: Tree<int>, h: nat, lo: int, hi: int) {
    IsAvl(t) && H(t) == Height(t) == h && Above(Entries(t), lo) && Below(Entries(t), hi)
  }

  lemma LeafFits(lo: int, hi: int)
    ensures Fits(Leaf, 0, lo, hi)
  {
  }

  lemma OneFits(lo: int, key: int, hi: int)
    requires lo < key < hi
    ensures Fits(One(key), 1, lo, hi)
  {
    assert Entries(One(key)) == [(key, 0)];
  }

  lemma GrownFits(l: Tree<int>, key: int, r: Tree<int>, m: nat, n: nat, lo: int, hi: int)
    requires Fits(l, m, lo, key) && Fits(r, n, key, hi) && m <= n + 1 && n <= m + 1 && lo < key < hi
    ensures Fits(Grown(l, key, r), Max(m, n) + 1, lo, hi)
  {
    GrownIsTrue(l, key, r);
    SortedParts(Entries(l), (key, 0), Entries(r));
    var a, b := Entries(l), Entries(r);
    assert Entries(Grown(l, key, r)) == a + [(key, 0)] + b;
    hide Entries, Grown, TrueHeights, Balanced, Height, Sorted;
    WithinThree(a, (key, 0), b, lo, hi);
  }

  lemma WithinThree(a: seq<Entry<int>>, x: Entry<int>, b: seq<Entry<int>>, lo: int, hi: int)
    requires Above(a, lo) && Below(a, x.0) && Above(b, x.0) && Below(b, hi) && lo < x.0 < hi
    ensures Above(a + [x] + b, lo) && Below(a + [x] + b, hi)
  {
  }

  lemma LowKeysFit()
    ensures Fits(LowKeys(), 3, 0, 27)
  {
    hide Fits;
    LeafFits(0, 3);
    OneFits(3, 6, 9);
    OneFits(9, 17, 27);
    assert One(17) == Grown(Leaf, 17, Leaf);
    hide Grown;
    GrownFits(Leaf, 3, One(6), 0, 1, 0, 9);
    GrownFits(Grown(Leaf, 3, One(6)), 9, One(17), 2, 1, 0, 27);
  }

  lemma BreakBeforeFits(a: Tree<int>)
    requires Fits(a, 3, 0, 27)
    ensures Fits(BreakBefore(a), 5, 0, 60)
  {
    hide Fits, Grown;
    var x, y := Grown(Leaf, 30, One(34)), Grown(Leaf, 58, One(59));
    LeafFits(29, 30);
    OneFits(30, 34, 36);
    GrownFits(Leaf, 30, One(34), 0, 1, 29, 36);
    OneFits(27, 28, 29);
    GrownFits(One(28), 29, x, 1, 2, 27, 36);
    GrownFits(a, 27, Grown(One(28), 29, x), 3, 3, 0, 36);
    LeafFits(53, 58);
    OneFits(58, 59, 60);
    GrownFits(Leaf, 58, One(59), 0, 1, 53, 60);
    OneFits(36, 46, 53);
    GrownFits(One(46), 53, y, 1, 2, 36, 60);
    GrownFits(Grown(a, 27, Grown(One(28), 29, x)), 36, Grown(One(46), 53, y), 4, 3, 0, 60);
  }

  /** The double rotation that follows the deletion. */
  lemma DoubleTurn(h: nat, a: Tree<int>, y: Tree<int>, x: Tree<int>, r: Tree<int>)
    requires TrueHeights(a) && TrueHeights(y) && TrueHeights(x) && TrueHeights(r) && H(a) == 3 && H(y) == 1
    requires H(x) == H(r) == 2
    requires TrueHeights(Grown(a, 27, Grown(y, 29, x)))
    ensures Fix(Bin(h, Grown(a, 27, Grown(y, 29, x)), 36, 0, r)) == Grown(Grown(a, 27, y), 29, Grown(x, 36, r))
  {
  }

  lemma GrownTrue(l: Tree<int>, key: int, r: Tree<int>)
    requires TrueHeights(l) && TrueHeights(r)
    ensures var t := Grown(l, key, r);
      && t.Bin? && t.left == l && t.right == r && t.key == key && t.val == 0
      && TrueHeights(t) && H(t) == Max(H(l), H(r)) + 1
  {
    HeightsBelow(Bin(0, l, key, 0, r));
  }

  lemma OneIsTrue(key: int)
    ensures One(key).Bin? && One(key).left == One(key).right == Leaf && One(key).key == key
    ensures TrueHeights(One(key)) && Balanced(One(key)) && H(One(key)) == 1
  {
    GrownTrue(Leaf, key, Leaf);
  }

  /** Between level sides nothing is rotated. */
  lemma FixLevel(h: nat, l: Tree<int>, key: int, r: Tree<int>)
    requires TrueHeights(l) && TrueHeights(r) && H(l) == H(r)
    ensures Fix(Bin(h, l, key, 0, r)) == Grown(l, key, r)
  {
    HeightsBelow(Bin(h, l, key, 0, r));
  }

  lemma DeletedTop()
    ensures TrueHeights(Grown(Leaf, 58, One(59))) && Delete(Grown(Leaf, 58, One(59)), 58) == One(59)
  {
    OneIsTrue(59);
    GrownTrue(Leaf, 58, One(59));
    FixIdle(One(59));
    hide One, Grown, Fix;
  }

  lemma DeletedFromRight()
    ensures var r := Grown(One(46), 53, Grown(Leaf, 58, One(59)));
      TrueHeights(r) && Delete(r, 58) == Grown(One(46), 53, One(59))
  {
    var y := Grown(Leaf, 58, One(59));
    DeletedTop();
    OneIsTrue(46);
    OneIsTrue(59);
    GrownTrue(One(46), 53, y);
    var r := Grown(One(46), 53, y);
    hide One, Grown, Fix, TrueHeights;
    FixLevel(r.h, One(46), 53, One(59));
  }

  lemma DeletedFromBefore(a: Tree<int>)
    requires Fits(a, 3, 0, 27) && TrueHeights(BreakBefore(a))
    ensures Delete(BreakBefore(a), 58) == BreakAfter(a)
  {
    FitsTrue(a, 3, 0, 27);
    hide Fix, Grown, One, Fits, TrueHeights;
    var x, r := Grown(Leaf, 30, One(34)), Grown(One(46), 53, Grown(Leaf, 58, One(59)));
    var r' := Grown(One(46), 53, One(59));
    OneIsTrue(28);
    OneIsTrue(34);
    OneIsTrue(46);
    OneIsTrue(59);
    LeafIsTrue();
    GrownTrue(Leaf, 30, One(34));
    GrownTrue(One(28), 29, x);
    var l := Grown(a, 27, Grown(One(28), 29, x));
    GrownTrue(a, 27, Grown(One(28), 29, x));
    GrownTrue(One(46), 53, One(59));
    DeletedFromRight();
    GrownTrue(l, 36, r);
    var t := Grown(l, 36, r);
    assert Delete(t, 58) == Fix(Bin(t.h, l, 36, 0, r'));
    DoubleTurn(t.h, a, One(28), x, r');
  }

  lemma LeafIsTrue()
    ensures TrueHeights<int>(Leaf)
  {
  }

  lemma FitsTrue(t: Tree<int>, h: nat, lo: int, hi: int)
    requires Fits(t, h, lo, hi)
    ensures TrueHeights(t) && IsAvl(t) && H(t) == h
  {
  }

  lemma AfterBreaks(a: Tree<int>)
    requires H(a) == 3
    ensures Breaks(BreakAfter(a), 28)
  {
    assert Lifted(One(28), 28) == Some(0);
    var l := Grown(a, 27, One(28));
    assert l.left == a && l.right == One(28) && l.key == 27;
    assert Breaks(l, 28);
  }

  /** A balanced tree of fourteen keys: after 58 is deleted, inserting the key 28, which is there, makes
      the source rotate through a missing child. */
  lemma InsertCanBreak()
    ensures var t := BreakBefore(LowKeys()); IsAvl(t) && Breaks(Delete(t, 58), 28) && Insert(Delete(t, 58), 28, 0).None?
  {
    var a := LowKeys();
    LowKeysFit();
    hide LowKeys, Insert, Breaks;
    BreakBeforeFits(a);
    FitsTrue(a, 3, 0, 27);
    FitsTrue(BreakBefore(a), 5, 0, 60);
    DeletedFromBefore(a);
    AfterBreaks(a);
    DeleteRefinesMap(BreakBefore(a), 58);
    hide BreakBefore, BreakAfter;
    InsertRefinesMap(BreakAfter(a), 28, 0);
  }
}
