/** The AVL tree of lib/avl/avl.c: its shapes as values, and the operations on its linked nodes. */
module AvlTree {
  import opened Bytes
  import opened AvlOrder

  class AVLNode {
    var key: Pointer
    var value: Pointer
    var height: int
    var left: AVLNode?
    var right: AVLNode?

    constructor (k: Pointer, v: Pointer)
      ensures key == k && value == v && left == null && right == null && height == 1
    {
      key, value, height, left, right := k, v, 1, null, null;
    }
  }

  /** The nodes below a link, with the contents of their fields. */
  datatype Tree = Leaf | Node(n: AVLNode, key: Pointer, value: Pointer, height: int, left: Tree, right: Tree)

  function Nodes(t: Tree): (r: set<AVLNode>) {
    if t.Leaf? then {} else Nodes(t.left) + {t.n} + Nodes(t.right)
  }

  predicate Distinct(t: Tree) {
    t.Node? ==>
      && Distinct(t.left) && Distinct(t.right) && Nodes(t.left) !! Nodes(t.right)
      && t.n !in Nodes(t.left) && t.n !in Nodes(t.right)
  }

  function Entries(t: Tree): (r: seq<Entry>) {
    if t.Leaf? then [] else Entries(t.left) + [(t.key, t.value)] + Entries(t.right)
  }

  /** Every stored height is positive: all that the rotations rely on. */
  predicate Positive(t: Tree) {
    t.Node? ==> t.height >= 1 && Positive(t.left) && Positive(t.right)
  }

  function Max(a: int, b: int): (r: int) { if a > b then a else b }

  function GetHeight(t: Tree): (h: int) { if t.Leaf? then 0 else t.height }

  function GetBalance(t: Tree): (b: int) { if t.Leaf? then 0 else GetHeight(t.right) - GetHeight(t.left) }

  // ---------------------------------------------------------------- rotations

  /** RotateSingleRight: the new height of the old root is taken from b alone. */
  function SingleRight(t: Tree): (r: Tree)
    requires t.Node? && t.left.Node?
    ensures r.Node?
  {
    var d := t.left;
    var e := t.(left := d.right, height := GetHeight(d.right) + 1);
    d.(right := e, height := e.height + 1)
  }

  /** RotateSingleLeft */
  function SingleLeft(t: Tree): (r: Tree)
    requires t.Node? && t.right.Node?
    ensures r.Node?
  {
    var e := t.right;
    var d := t.(right := e.left, height := Max(GetHeight(t.left), GetHeight(e.left)) + 1);
    e.(left := d, height := d.height + 1)
  }

  function DoubleRight(t: Tree): (r: Tree)
    requires t.Node? && t.left.Node? && t.left.right.Node?
    ensures r.Node?
  {
    SingleRight(t.(left := SingleLeft(t.left)))
  }

  function DoubleLeft(t: Tree): (r: Tree)
    requires t.Node? && t.right.Node? && t.right.left.Node?
    ensures r.Node?
  {
    SingleLeft(t.(right := SingleRight(t.right)))
  }

  /** The rotation that the stored heights ask for. */
  function Rotate(t: Tree): (r: Tree)
    requires t.Node? && Positive(t.left) && Positive(t.right)
    ensures r.Node? && Positive(r.left) && Positive(r.right)
  {
    PositiveParts(t.left);
    PositiveParts(t.right);
    if GetBalance(t) < -1 then if GetBalance(t.left) > 0 then DoubleRight(t) else SingleRight(t)
    else if GetBalance(t) > 1 then if GetBalance(t.right) < 0 then DoubleLeft(t) else SingleLeft(t)
    else t
  }

  lemma PositiveParts(t: Tree)
    requires Positive(t)
    ensures GetHeight(t) >= 0 && (GetHeight(t) > 0 ==> t.Node?)
    ensures t.Node? ==> Positive(t.left) && Positive(t.right) && GetHeight(t.left) >= 0 && GetHeight(t.right) >= 0
    ensures t.Node? && GetHeight(t.left) > 0 ==> t.left.Node? && Positive(t.left.left) && Positive(t.left.right)
    ensures t.Node? && GetHeight(t.right) > 0 ==> t.right.Node? && Positive(t.right.left) && Positive(t.right.right)
  {
  }

  function Balance(t: Tree): (r: Tree)
    requires t.Node? && Positive(t.left) && Positive(t.right)
    ensures r.Node? && Positive(r)
  {
    var r := Rotate(t);
    r.(height := Max(GetHeight(r.left), GetHeight(r.right)) + 1)
  }

  /** a and b have the same entries, in the same order, in the same nodes. */
  ghost predicate SameOrder(a: Tree, b: Tree) {
    Entries(a) == Entries(b) && Nodes(a) == Nodes(b) && (Distinct(a) ==> Distinct(b))
  }

  lemma NodeParts(t: Tree)
    requires t.Node?
    ensures Nodes(t) == Nodes(t.left) + {t.n} + Nodes(t.right)
    ensures Entries(t) == Entries(t.left) + [(t.key, t.value)] + Entries(t.right)
    ensures Distinct(t) <==> (
      && Distinct(t.left) && Distinct(t.right) && Nodes(t.left) !! Nodes(t.right)
      && t.n !in Nodes(t.left) && t.n !in Nodes(t.right))
  {
  }

  lemma SingleRightKeeps(t: Tree)
    requires t.Node? && t.left.Node?
    ensures SameOrder(t, SingleRight(t))
  {
    var d := t.left;
    NodeParts(t);
    NodeParts(d);
    var r := SingleRight(t);
    assert r.right == t.(left := d.right, height := r.right.height) && r.left == d.left && r.n == d.n;
    NodeParts(r);
    NodeParts(r.right);
    var a, x, b, y, c := Entries(d.left), [(d.key, d.value)], Entries(d.right), [(t.key, t.value)], Entries(t.right);
    assert (a + x + b) + y + c == a + x + (b + y + c);
  }

  lemma SingleLeftKeeps(t: Tree)
    requires t.Node? && t.right.Node?
    ensures SameOrder(t, SingleLeft(t))
  {
    var e := t.right;
    NodeParts(t);
    NodeParts(e);
    var r := SingleLeft(t);
    assert r.left == t.(right := e.left, height := r.left.height) && r.right == e.right && r.n == e.n;
    NodeParts(r);
    NodeParts(r.left);
    var a, x, b, y, c := Entries(t.left), [(t.key, t.value)], Entries(e.left), [(e.key, e.value)], Entries(e.right);
    assert a + x + (b + y + c) == (a + x + b) + y + c;
  }

  lemma RotateKeeps(t: Tree)
    requires t.Node? && Positive(t.left) && Positive(t.right)
    ensures SameOrder(t, Rotate(t))
  {
    hide SingleRight, SingleLeft;
    if GetBalance(t) < -1 {
      if GetBalance(t.left) > 0 {
        var s := t.(left := SingleLeft(t.left));
        SingleLeftKeeps(t.left);
        SingleRightKeeps(s);
      } else {
        SingleRightKeeps(t);
      }
    } else if GetBalance(t) > 1 {
      if GetBalance(t.right) < 0 {
        var s := t.(right := SingleRight(t.right));
        SingleRightKeeps(t.right);
        SingleLeftKeeps(s);
      } else {
        SingleLeftKeeps(t);
      }
    }
  }

  lemma BalanceKeeps(t: Tree)
    requires t.Node? && Positive(t.left) && Positive(t.right)
    ensures SameOrder(t, Balance(t))
  {
    RotateKeeps(t);
    NodeParts(Rotate(t));
    hide Rotate;
    NodeParts(Balance(t));
  }

  // ---------------------------------------------------------------- insertion

  /** What Insert makes of a tree, with the new node n. */
  function Insert(cmp: Comparator, t: Tree, k: Pointer, v: Pointer, n: AVLNode): (r: Tree)
    requires Positive(t)
    ensures r.Node? && Positive(r)
  {
    if t.Leaf? then Node(n, k, v, 1, Leaf, Leaf)
    else if cmp(k, t.key) < 0 then Balance(t.(left := Insert(cmp, t.left, k, v, n)))
    else if cmp(k, t.key) > 0 then Balance(t.(right := Insert(cmp, t.right, k, v, n)))
    else t
  }

  /** Insertion puts the entry into the map, and the node into the tree if the key is new. */
  lemma {:induction false} InsertPuts(cmp: Comparator, t: Tree, k: Pointer, v: Pointer, n: AVLNode)
    requires IsOrder(cmp) && Positive(t) && Ascending(cmp, Entries(t)) && Distinct(t)
    requires Lookup(cmp, Entries(t), k) == None ==> n !in Nodes(t)
    ensures var r := Insert(cmp, t, k, v, n);
      && Entries(r) == Put(cmp, Entries(t), k, v) && Distinct(r)
      && Nodes(r) == Nodes(t) + if Lookup(cmp, Entries(t), k) == None then {n} else {}
  {
    hide IsOrder, Balance, Put, Lookup, Ascending, Below, Drop;
    if t.Leaf? {
      PutFirst(cmp, k, v);
    } else {
      NodeParts(t);
      hide Entries, Nodes, Distinct;
      var a, e, b := Entries(t.left), (t.key, t.value), Entries(t.right);
      NodeAscends(cmp, a, e, b);
      if cmp(k, t.key) < 0 {
        GoLeft(cmp, a, e, b, k, v);
        InsertPuts(cmp, t.left, k, v, n);
        var s := t.(left := Insert(cmp, t.left, k, v, n));
        NodeParts(s);
        BalanceKeeps(s);
      } else {
        LeftIsBelow(cmp, a, e, b, k);
        AtNode(cmp, a, e, b, k, v);
        if cmp(k, t.key) > 0 {
          InsertPuts(cmp, t.right, k, v, n);
          var s := t.(right := Insert(cmp, t.right, k, v, n));
          NodeParts(s);
          BalanceKeeps(s);
        }
      }
    }
  }

  lemma PutFirst(cmp: Comparator, k: Pointer, v: Pointer)
    ensures Put(cmp, [], k, v) == [] + [(k, v)] + [] && Lookup(cmp, [], k) == None
  {
  }

  lemma NodeAscends(cmp: Comparator, a: seq<Entry>, e: Entry, b: seq<Entry>)
    requires Ascending(cmp, a + [e] + b)
    ensures Ascending(cmp, a) && Ascending(cmp, b)
  {
    PartsAscend(cmp, a + [e], b);
    PartsAscend(cmp, a, [e]);
  }

  /** A key that is not below an entry. */
  lemma AtNode(cmp: Comparator, a: seq<Entry>, e: Entry, b: seq<Entry>, k: Pointer, v: Pointer)
    requires Below(cmp, a, k) && cmp(k, e.0) >= 0
    ensures var s := a + [e] + b;
      if cmp(k, e.0) > 0 then
        && Put(cmp, s, k, v) == a + [e] + Put(cmp, b, k, v) && Drop(cmp, s, k) == a + [e] + Drop(cmp, b, k)
        && Lookup(cmp, s, k) == Lookup(cmp, b, k)
      else
        Put(cmp, s, k, v) == s && Drop(cmp, s, k) == a + b && Lookup(cmp, s, k) == Some(e.1)
  {
    var s := [e] + b;
    Assoc(a, [e], b);
    GoRight(cmp, a, s, k, v);
    assert s[0] == e && s[1..] == b;
    Assoc(a, [e], Put(cmp, b, k, v));
    Assoc(a, [e], Drop(cmp, b, k));
  }

  lemma SingleSetsHeight(t: Tree, h: int)
    requires t.Node?
    ensures t.left.Node? ==> SingleRight(t.(height := h)) == SingleRight(t)
    ensures t.right.Node? ==> SingleLeft(t.(height := h)) == SingleLeft(t)
  {
  }

  /** The height that a node has before it is balanced does not matter. */
  lemma BalanceSetsHeight(t: Tree, h: int)
    requires t.Node? && Positive(t.left) && Positive(t.right)
    ensures Balance(t.(height := h)) == Balance(t)
  {
    PositiveParts(t.left);
    PositiveParts(t.right);
    SingleSetsHeight(t, h);
    hide SingleRight, SingleLeft, Positive;
    var s := t.(height := h);
    if GetBalance(t) < -1 && GetBalance(t.left) > 0 {
      SingleSetsHeight(t.(left := SingleLeft(t.left)), h);
      assert DoubleRight(s) == DoubleRight(t);
    } else if GetBalance(t) > 1 && GetBalance(t.right) < 0 {
      SingleSetsHeight(t.(right := SingleRight(t.right)), h);
      assert DoubleLeft(s) == DoubleLeft(t);
    }
  }

  // ---------------------------------------------------------------- removal

  /** The height that RemoveLeftMost and RemoveRightMost set before they balance. */
  function Rough(t: Tree): (h: int)
    requires t.Node?
  {
    Max(if t.right.Node? then t.right.height + 1 else 0, if t.left.Node? then t.left.height + 1 else 0)
  }

  function LeftMost(t: Tree): (m: Tree)
    requires t.Node?
    ensures m.Node?
  {
    if t.left.Node? then LeftMost(t.left) else t
  }

  function RightMost(t: Tree): (m: Tree)
    requires t.Node?
    ensures m.Node?
  {
    if t.right.Node? then RightMost(t.right) else t
  }

  function RemoveLeftMost(t: Tree): (r: Tree)
    requires t.Node? && Positive(t)
    ensures Positive(r)
  {
    if t.left.Node? then
      var s := t.(left := RemoveLeftMost(t.left));
      Balance(s.(height := Rough(s)))
    else t.right
  }

  function RemoveRightMost(t: Tree): (r: Tree)
    requires t.Node? && Positive(t)
    ensures Positive(r)
  {
    if t.right.Node? then
      var s := t.(right := RemoveRightMost(t.right));
      Balance(s.(height := Rough(s)))
    else t.left
  }

  /** The root's own data goes, and the next entry, or else the one before, takes its place. */
  function RemoveRoot(t: Tree): (r: Tree)
    requires t.Node? && Positive(t)
    ensures Positive(r)
  {
    if t.right.Node? then
      var m := LeftMost(t.right);
      Balance(t.(key := m.key, value := m.value, right := RemoveLeftMost(t.right)))
    else if t.left.Node? then
      var m := RightMost(t.left);
      Balance(t.(key := m.key, value := m.value, left := RemoveRightMost(t.left)))
    else Leaf
  }

  function Remove(cmp: Comparator, t: Tree, k: Pointer): (r: Tree)
    requires Positive(t)
    ensures Positive(r)
  {
    if t.Leaf? then Leaf
    else if cmp(k, t.key) < 0 then Balance(t.(left := Remove(cmp, t.left, k)))
    else if cmp(k, t.key) > 0 then Balance(t.(right := Remove(cmp, t.right, k)))
    else RemoveRoot(t)
  }

  lemma {:induction false} LeftMostGone(t: Tree)
    requires t.Node? && Positive(t) && Distinct(t)
    ensures var r, m := RemoveLeftMost(t), LeftMost(t);
      && Entries(t) == [(m.key, m.value)] + Entries(r) && Distinct(r)
      && Nodes(t) == {m.n} + Nodes(r) && m.n !in Nodes(r)
  {
    hide Balance;
    if t.left.Node? {
      LeftMostGone(t.left);
      var s := t.(left := RemoveLeftMost(t.left));
      BalanceKeeps(s.(height := Rough(s)));
      var m := LeftMost(t);
      Assoc([(m.key, m.value)], Entries(s.left), [(t.key, t.value)]);
      Assoc([(m.key, m.value)], Entries(s.left) + [(t.key, t.value)], Entries(t.right));
    } else {
      assert Entries(t) == [(t.key, t.value)] + Entries(t.right);
    }
  }

  lemma {:induction false} RightMostGone(t: Tree)
    requires t.Node? && Positive(t) && Distinct(t)
    ensures var r, m := RemoveRightMost(t), RightMost(t);
      && Entries(t) == Entries(r) + [(m.key, m.value)] && Distinct(r)
      && Nodes(t) == {m.n} + Nodes(r) && m.n !in Nodes(r)
  {
    hide Balance;
    if t.right.Node? {
      RightMostGone(t.right);
      var s := t.(right := RemoveRightMost(t.right));
      BalanceKeeps(s.(height := Rough(s)));
      var m := RightMost(t);
      Assoc(Entries(t.left) + [(t.key, t.value)], Entries(s.right), [(m.key, m.value)]);
    } else {
      assert Entries(t) == Entries(t.left) + [(t.key, t.value)];
    }
  }

  lemma RootGone(t: Tree)
    requires t.Node? && Positive(t) && Distinct(t)
    ensures var r := RemoveRoot(t);
      Entries(r) == Entries(t.left) + Entries(t.right) && Distinct(r) && Nodes(r) < Nodes(t)
  {
    hide Balance;
    var a, b := Entries(t.left), Entries(t.right);
    if t.right.Node? {
      LeftMostGone(t.right);
      var m := LeftMost(t.right);
      BalanceKeeps(t.(key := m.key, value := m.value, right := RemoveLeftMost(t.right)));
      Assoc(a, [(m.key, m.value)], Entries(RemoveLeftMost(t.right)));
    } else if t.left.Node? {
      RightMostGone(t.left);
      var m := RightMost(t.left);
      BalanceKeeps(t.(key := m.key, value := m.value, left := RemoveRightMost(t.left)));
      assert a + b == a;
    } else {
      assert a + b == [];
      assert t.n in Nodes(t);
    }
  }

  /** Removal takes the entry out of the map, and one node out of the tree if there was one. */
  lemma {:induction false} RemoveDrops(cmp: Comparator, t: Tree, k: Pointer)
    requires IsOrder(cmp) && Positive(t) && Ascending(cmp, Entries(t)) && Distinct(t)
    ensures var r := Remove(cmp, t, k); Entries(r) == Drop(cmp, Entries(t), k) && Distinct(r) && Nodes(r) <= Nodes(t)
  {
    hide IsOrder, Balance, RemoveRoot;
    if t.Node? {
      var a, e, b := Entries(t.left), (t.key, t.value), Entries(t.right);
      NodeAscends(cmp, a, e, b);
      if cmp(k, t.key) < 0 {
        RemoveDrops(cmp, t.left, k);
        BalanceKeeps(t.(left := Remove(cmp, t.left, k)));
        GoLeft(cmp, a, e, b, k, 0);
      } else {
        LeftIsBelow(cmp, a, e, b, k);
        AtNode(cmp, a, e, b, k, 0);
        if cmp(k, t.key) > 0 {
          RemoveDrops(cmp, t.right, k);
          BalanceKeeps(t.(right := Remove(cmp, t.right, k)));
        } else {
          RootGone(t);
        }
      }
    }
  }

  // ---------------------------------------------------------------- stored heights

  function TrueHeight(t: Tree): (h: nat) {
    if t.Leaf? then 0 else Max(TrueHeight(t.left), TrueHeight(t.right)) + 1
  }

  /** Every stored height is the true one. */
  predicate Exact(t: Tree) {
    t.Node? ==> t.height == TrueHeight(t) && Exact(t.left) && Exact(t.right)
  }

  /** The AVL property: the subtrees of a node differ by at most one in height. */
  predicate Even(t: Tree) {
    t.Node? ==> -1 <= TrueHeight(t.right) - TrueHeight(t.left) <= 1 && Even(t.left) && Even(t.right)
  }

  /**
    A double rotation leaves a wrong height behind exactly when the right subtree of its middle
    node is lower than what stays to the right of it: RotateSingleRight reads the left one twice.
   */
  predicate Stale(t: Tree)
    requires t.Node? && Positive(t.left) && Positive(t.right)
  {
    PositiveParts(t.left);
    PositiveParts(t.right);
    if GetBalance(t) < -1 then GetBalance(t.left) > 0 && GetHeight(t.left.right.right) < GetHeight(t.right)
    else GetBalance(t) > 1 && GetBalance(t.right) < 0 && GetHeight(t.right.left.right) < GetHeight(t.right.right)
  }

  lemma {:induction false} ExactIsPositive(t: Tree)
    requires Exact(t)
    ensures Positive(t) && GetHeight(t) == TrueHeight(t)
  {
    if t.Node? {
      ExactIsPositive(t.left);
      ExactIsPositive(t.right);
    }
  }

  /** A balanced subtree with true heights. */
  predicate Sound(t: Tree) { Exact(t) && Even(t) }

  lemma SoundParts(t: Tree)
    requires Sound(t)
    ensures Positive(t) && GetHeight(t) == TrueHeight(t)
    ensures t.Node? ==> Sound(t.left) && Sound(t.right) && -1 <= TrueHeight(t.right) - TrueHeight(t.left) <= 1
    ensures t.Node? ==> TrueHeight(t) == Max(TrueHeight(t.left), TrueHeight(t.right)) + 1
  {
    ExactIsPositive(t);
  }

  lemma Unfold(t: Tree)
    requires t.Node?
    ensures TrueHeight(t) == Max(TrueHeight(t.left), TrueHeight(t.right)) + 1
    ensures Even(t) <==> -1 <= TrueHeight(t.right) - TrueHeight(t.left) <= 1 && Even(t.left) && Even(t.right)
    ensures Exact(t) <==> t.height == TrueHeight(t) && Exact(t.left) && Exact(t.right)
    ensures Sound(t) <==> Exact(t) && Even(t)
    ensures Sound(t.left) <==> Exact(t.left) && Even(t.left)
    ensures Sound(t.right) <==> Exact(t.right) && Even(t.right)
  {
  }

  /** What the stored heights below a node say of it: its true height, and that it is balanced. */
  predicate Tight(t: Tree) {
    && t.Node? && Max(GetHeight(t.left), GetHeight(t.right)) + 1 == TrueHeight(t)
    && -1 <= GetHeight(t.right) - GetHeight(t.left) <= 1
  }

  lemma DoubleRightExact(t: Tree)
    requires t.Node? && Sound(t.left) && Sound(t.right)
    requires TrueHeight(t.left) == TrueHeight(t.right) + 2 && GetBalance(t.left) > 0
    ensures Positive(t.left) && Positive(t.right) && t.left.Node? && t.left.right.Node?
    ensures var r := DoubleRight(t);
      && Even(r) && TrueHeight(r) == TrueHeight(t.left) && Tight(r)
      && Sound(r.left) && (Exact(r.right) <==> GetHeight(t.left.right.right) >= GetHeight(t.right))
  {
    assert TrueHeight(t.left) >= 0 && TrueHeight(t.right) >= 0 && t.left.Node?;
    hide Exact, Even, TrueHeight, Sound, Positive;
    SoundParts(t.left);
    SoundParts(t.right);
    SoundParts(t.left.left);
    SoundParts(t.left.right);
    SoundParts(t.left.right.left);
    SoundParts(t.left.right.right);
    var r := DoubleRight(t);
    Unfold(r.left);
    Unfold(r.right);
    Unfold(r);
  }

  lemma DoubleLeftExact(t: Tree)
    requires t.Node? && Sound(t.left) && Sound(t.right)
    requires TrueHeight(t.right) == TrueHeight(t.left) + 2 && GetBalance(t.right) < 0
    ensures Positive(t.left) && Positive(t.right) && t.right.Node? && t.right.left.Node?
    ensures var r := DoubleLeft(t);
      && Even(r) && TrueHeight(r) == TrueHeight(t.right) && Tight(r)
      && Sound(r.left) && (Exact(r.right) <==> GetHeight(t.right.left.right) >= GetHeight(t.right.right))
  {
    assert TrueHeight(t.left) >= 0 && TrueHeight(t.right) >= 0 && t.right.Node?;
    hide Exact, Even, TrueHeight, Sound, Positive;
    SoundParts(t.left);
    SoundParts(t.right);
    SoundParts(t.right.left);
    SoundParts(t.right.right);
    SoundParts(t.right.left.left);
    SoundParts(t.right.left.right);
    var r := DoubleLeft(t);
    Unfold(r.left);
    Unfold(r.right);
    Unfold(r);
  }

  lemma SingleRightExact(t: Tree)
    requires t.Node? && Sound(t.left) && Sound(t.right)
    requires TrueHeight(t.left) == TrueHeight(t.right) + 2 && GetBalance(t.left) <= 0
    ensures Positive(t.left) && Positive(t.right) && t.left.Node?
    ensures var r := SingleRight(t);
      && Even(r) && TrueHeight(t.left) <= TrueHeight(r) <= TrueHeight(t.left) + 1
      && Sound(r.left) && Sound(r.right) && Tight(r)
  {
    SoundParts(t.left);
    SoundParts(t.right);
    SoundParts(t.left.left);
    SoundParts(t.left.right);
    hide Exact, Even, TrueHeight, Sound, Positive;
    var r := SingleRight(t);
    Unfold(r.right);
    Unfold(r);
  }

  lemma SingleLeftExact(t: Tree)
    requires t.Node? && Sound(t.left) && Sound(t.right)
    requires TrueHeight(t.right) == TrueHeight(t.left) + 2 && GetBalance(t.right) >= 0
    ensures Positive(t.left) && Positive(t.right) && t.right.Node?
    ensures var r := SingleLeft(t);
      && Even(r) && TrueHeight(t.right) <= TrueHeight(r) <= TrueHeight(t.right) + 1
      && Sound(r.left) && Sound(r.right) && Tight(r)
  {
    SoundParts(t.left);
    SoundParts(t.right);
    SoundParts(t.right.left);
    SoundParts(t.right.right);
    hide Exact, Even, TrueHeight, Sound, Positive;
    var r := SingleLeft(t);
    Unfold(r.left);
    Unfold(r);
  }

  /** Balance sets the height of the root once more. */
  lemma Resized(s: Tree)
    requires Even(s) && Tight(s)
    ensures var r := s.(height := Max(GetHeight(s.left), GetHeight(s.right)) + 1);
      && Even(r) && Tight(r) && TrueHeight(r) == TrueHeight(s) == GetHeight(r)
      && (Exact(r) <==> Exact(s.left) && Exact(s.right))
  {
  }

  /** One level of rebalancing: always balanced, and exact if and only if the rotation is not a stale one. */
  lemma BalanceExact(t: Tree)
    requires t.Node? && Sound(t.left) && Sound(t.right) && -2 <= TrueHeight(t.right) - TrueHeight(t.left) <= 2
    ensures Positive(t.left) && Positive(t.right)
    ensures var r, h := Balance(t), Max(TrueHeight(t.left), TrueHeight(t.right));
      && Even(r) && Tight(r) && GetHeight(r) == TrueHeight(r) && h <= TrueHeight(r) <= h + 1
      && (Exact(r) <==> !Stale(t)) && (Stale(t) ==> TrueHeight(r) == h)
      && (-1 <= GetBalance(t) <= 1 ==> TrueHeight(r) == h + 1)
  {
    SoundParts(t.left);
    SoundParts(t.right);
    PositiveParts(t.left);
    PositiveParts(t.right);
    hide Exact, Even, TrueHeight, Sound, Positive, DoubleRight, DoubleLeft, SingleRight, SingleLeft;
    if GetBalance(t) < -1 {
      if GetBalance(t.left) > 0 { DoubleRightExact(t); } else { SingleRightExact(t); }
    } else if GetBalance(t) > 1 {
      if GetBalance(t.right) < 0 { DoubleLeftExact(t); } else { SingleLeftExact(t); }
    } else {
      Unfold(t);
    }
    Resized(Rotate(t));
  }

  // ---------------------------------------------------------------- the AVL property

  /** Whether a stale rotation happens on the way back from an insertion. */
  predicate StaleInsert(cmp: Comparator, t: Tree, k: Pointer, v: Pointer, n: AVLNode)
    requires Positive(t)
  {
    t.Node? && cmp(k, t.key) != 0 &&
    if cmp(k, t.key) < 0 then StaleInsert(cmp, t.left, k, v, n) || Stale(t.(left := Insert(cmp, t.left, k, v, n)))
    else StaleInsert(cmp, t.right, k, v, n) || Stale(t.(right := Insert(cmp, t.right, k, v, n)))
  }

  /**
    Insertion into a sound tree leaves a balanced one that is at most one higher; its stored
    heights are true if and only if there was no stale rotation.
   */
  lemma {:induction false} InsertSound(cmp: Comparator, t: Tree, k: Pointer, v: Pointer, n: AVLNode)
    requires Sound(t)
    ensures Positive(t)
    ensures var r := Insert(cmp, t, k, v, n);
      && Even(r) && Tight(r) && GetHeight(r) == TrueHeight(r) && TrueHeight(t) <= TrueHeight(r) <= TrueHeight(t) + 1
      && (Exact(r) <==> !StaleInsert(cmp, t, k, v, n))
      && (StaleInsert(cmp, t, k, v, n) ==> TrueHeight(r) == TrueHeight(t))
  {
    SoundParts(t);
    if t.Node? && cmp(k, t.key) != 0 {
      SoundParts(t.left);
      SoundParts(t.right);
      if cmp(k, t.key) < 0 {
        InsertSound(cmp, t.left, k, v, n);
        Regrown(t, t.(left := Insert(cmp, t.left, k, v, n)));
      } else {
        InsertSound(cmp, t.right, k, v, n);
        Regrown(t, t.(right := Insert(cmp, t.right, k, v, n)));
      }
    }
  }

  /** One level of InsertSound: s has a subtree that may have grown, or else may hold a wrong height. */
  lemma Regrown(t: Tree, s: Tree)
    requires t.Node? && Sound(t) && s.Node? && Positive(s.left) && Positive(s.right) && Even(s.left) && Even(s.right)
    requires GetHeight(s.left) == TrueHeight(s.left) && GetHeight(s.right) == TrueHeight(s.right)
    requires 0 <= TrueHeight(s.left) - TrueHeight(t.left) && 0 <= TrueHeight(s.right) - TrueHeight(t.right)
    requires TrueHeight(s.left) - TrueHeight(t.left) + TrueHeight(s.right) - TrueHeight(t.right) <= 1
    requires
      || (Exact(s.left) && Exact(s.right))
      || (TrueHeight(s.left) == TrueHeight(t.left) && TrueHeight(s.right) == TrueHeight(t.right))
    ensures var r := Balance(s);
      && Even(r) && Tight(r) && GetHeight(r) == TrueHeight(r) && TrueHeight(t) <= TrueHeight(r) <= TrueHeight(t) + 1
      && (Exact(r) <==> Exact(s.left) && Exact(s.right) && !Stale(s))
      && (!Exact(r) ==> TrueHeight(r) == TrueHeight(t))
  {
    SoundParts(t);
    Unfold(s);
    if Exact(s.left) && Exact(s.right) {
      BalanceExact(s);
    } else {
      hide Exact, Even, TrueHeight, Sound, Positive;
      Resized(s);
    }
  }

  /** InsertAVL balances the root once more. */
  function InsertAvl(cmp: Comparator, t: Tree, k: Pointer, v: Pointer, n: AVLNode): (r: Tree)
    requires Positive(t)
    ensures r.Node? && Positive(r)
  {
    Balance(Insert(cmp, t, k, v, n))
  }

  function InsertKeys(cmp: Comparator, t: Tree, ks: seq<Pointer>, n: AVLNode): (r: Tree)
    requires Positive(t)
    ensures Positive(r)
    decreases |ks|
  {
    if ks == [] then t else InsertKeys(cmp, InsertAvl(cmp, t, ks[0], 0, n), ks[1..], n)
  }

  /** Balancing the root once more finds nothing to do. */
  lemma TightStays(t: Tree)
    requires Even(t) && Tight(t) && Positive(t) && GetHeight(t) == TrueHeight(t)
    ensures Balance(t) == t
  {
  }

  /** InsertSound for the whole operation. */
  lemma InsertAvlSound(cmp: Comparator, t: Tree, k: Pointer, v: Pointer, n: AVLNode)
    requires Sound(t)
    ensures Positive(t)
    ensures var r := InsertAvl(cmp, t, k, v, n);
      && Even(r) && GetHeight(r) == TrueHeight(r) && TrueHeight(t) <= TrueHeight(r) <= TrueHeight(t) + 1
      && (Exact(r) <==> !StaleInsert(cmp, t, k, v, n))
  {
    hide Balance, StaleInsert;
    InsertSound(cmp, t, k, v, n);
    TightStays(Insert(cmp, t, k, v, n));
  }

  /** Whether a stale rotation happens in any of the insertions. */
  predicate SomeStale(cmp: Comparator, t: Tree, ks: seq<Pointer>, n: AVLNode)
    requires Positive(t)
    decreases |ks|
  {
    ks != [] && (StaleInsert(cmp, t, ks[0], 0, n) || SomeStale(cmp, InsertAvl(cmp, t, ks[0], 0, n), ks[1..], n))
  }

  /** The tree after the first m insertions. */
  function After(cmp: Comparator, t: Tree, ks: seq<Pointer>, n: AVLNode, m: nat): (r: Tree)
    requires Positive(t) && m <= |ks|
  {
    InsertKeys(cmp, t, ks[..m], n)
  }

  lemma AfterFirst(cmp: Comparator, t: Tree, ks: seq<Pointer>, n: AVLNode, m: nat)
    requires Positive(t) && m < |ks|
    ensures After(cmp, t, ks, n, m + 1) == After(cmp, InsertAvl(cmp, t, ks[0], 0, n), ks[1..], n, m)
  {
    hide InsertAvl;
    assert ks[..m + 1][1..] == ks[1..][..m];
  }

  /** As long as no insertion before it was stale, the tree is balanced after every insertion. */
  lemma {:induction false} KeysEven(cmp: Comparator, t: Tree, ks: seq<Pointer>, n: AVLNode, m: nat)
    requires Sound(t) && m < |ks|
    ensures Positive(t) && (!SomeStale(cmp, t, ks[..m], n) ==> Even(After(cmp, t, ks, n, m + 1)))
    decreases m
  {
    hide Sound, Even, Exact, InsertAvl, StaleInsert;
    InsertAvlSound(cmp, t, ks[0], 0, n);
    var r := InsertAvl(cmp, t, ks[0], 0, n);
    AfterFirst(cmp, t, ks, n, m);
    if m == 0 {
      assert After(cmp, r, ks[1..], n, 0) == r;
    } else if !StaleInsert(cmp, t, ks[0], 0, n) {
      assert Sound(r) by { Joined(r); }
      KeysEven(cmp, r, ks[1..], n, m - 1);
      assert ks[..m][1..] == ks[1..][..m - 1];
    }
  }

  lemma Joined(t: Tree)
    requires Exact(t) && Even(t)
    ensures Sound(t)
  {
  }

  /** The tree is sound after every insertion if and only if none of them is stale. */
  lemma {:induction false} KeysSound(cmp: Comparator, t: Tree, ks: seq<Pointer>, n: AVLNode)
    requires Sound(t)
    ensures Positive(t)
    ensures !SomeStale(cmp, t, ks, n) <==> forall m :: 0 <= m <= |ks| ==> Sound(After(cmp, t, ks, n, m))
    decreases |ks|
  {
    hide Even, Exact, InsertAvl, StaleInsert;
    SoundParts(t);
    if ks != [] {
      InsertAvlSound(cmp, t, ks[0], 0, n);
      var r := InsertAvl(cmp, t, ks[0], 0, n);
      AfterFirst(cmp, t, ks, n, 0);
      assert After(cmp, r, ks[1..], n, 0) == r;
      if StaleInsert(cmp, t, ks[0], 0, n) {
        assert !Sound(After(cmp, t, ks, n, 1));
      } else {
        KeysSound(cmp, r, ks[1..], n);
        forall m | 0 <= m < |ks|
          ensures After(cmp, t, ks, n, m + 1) == After(cmp, r, ks[1..], n, m)
        {
          AfterFirst(cmp, t, ks, n, m);
        }
        if forall m :: 0 <= m <= |ks| ==> Sound(After(cmp, t, ks, n, m)) {
          forall m | 0 <= m <= |ks| - 1 ensures Sound(After(cmp, r, ks[1..], n, m)) {
            assert Sound(After(cmp, t, ks, n, m + 1));
          }
        }
        if !SomeStale(cmp, t, ks, n) {
          forall m | 0 <= m <= |ks| ensures Sound(After(cmp, t, ks, n, m)) {
            if m > 0 { assert Sound(After(cmp, r, ks[1..], n, m - 1)); }
          }
        }
      }
    }
  }

  // ---------------------------------------------------------------- removals

  predicate StaleLeftMost(t: Tree)
    requires t.Node? && Positive(t)
  {
    t.left.Node? && (StaleLeftMost(t.left) || Stale(t.(left := RemoveLeftMost(t.left))))
  }

  predicate StaleRightMost(t: Tree)
    requires t.Node? && Positive(t)
  {
    t.right.Node? && (StaleRightMost(t.right) || Stale(t.(right := RemoveRightMost(t.right))))
  }

  predicate StaleRoot(t: Tree)
    requires t.Node? && Positive(t)
  {
    if t.right.Node? then StaleLeftMost(t.right) || Stale(t.(right := RemoveLeftMost(t.right)))
    else t.left.Node? && (StaleRightMost(t.left) || Stale(t.(left := RemoveRightMost(t.left))))
  }

  /** Whether a stale rotation happens on the way back from a removal. */
  predicate StaleRemove(cmp: Comparator, t: Tree, k: Pointer)
    requires Positive(t)
  {
    t.Node? &&
    if cmp(k, t.key) < 0 then StaleRemove(cmp, t.left, k) || Stale(t.(left := Remove(cmp, t.left, k)))
    else if cmp(k, t.key) > 0 then StaleRemove(cmp, t.right, k) || Stale(t.(right := Remove(cmp, t.right, k)))
    else StaleRoot(t)
  }

  /** r is sound and at most one lower than t. */
  predicate Lower(t: Tree, r: Tree) {
    Sound(r) && TrueHeight(t) - 1 <= TrueHeight(r) <= TrueHeight(t)
  }

  /** One level: a subtree is at most one lower, and the rotation is not stale. */
  lemma Shrunk(t: Tree, s: Tree)
    requires t.Node? && Sound(t) && s.Node?
    requires (Lower(t.left, s.left) && s.right == t.right) || (Lower(t.right, s.right) && s.left == t.left)
    ensures Positive(s.left) && Positive(s.right) && (!Stale(s) ==> Lower(t, Balance(s)))
  {
    SoundParts(t);
    SoundParts(s.left);
    SoundParts(s.right);
    hide Exact, Even, TrueHeight;
    BalanceExact(s);
    hide Balance, Stale;
    if !Stale(s) { Joined(Balance(s)); }
  }

  lemma {:induction false} LeftMostSound(t: Tree)
    requires t.Node? && Sound(t)
    ensures Positive(t) && (!StaleLeftMost(t) ==> Lower(t, RemoveLeftMost(t)))
  {
    hide Even, Exact, Stale, Balance;
    SoundParts(t);
    if t.left.Node? {
      LeftMostSound(t.left);
      var s := t.(left := RemoveLeftMost(t.left));
      if !StaleLeftMost(t) {
        Shrunk(t, s);
        BalanceSetsHeight(s, Rough(s));
      }
    }
  }

  lemma {:induction false} RightMostSound(t: Tree)
    requires t.Node? && Sound(t)
    ensures Positive(t) && (!StaleRightMost(t) ==> Lower(t, RemoveRightMost(t)))
  {
    hide Even, Exact, Stale, Balance;
    SoundParts(t);
    if t.right.Node? {
      RightMostSound(t.right);
      var s := t.(right := RemoveRightMost(t.right));
      if !StaleRightMost(t) {
        Shrunk(t, s);
        BalanceSetsHeight(s, Rough(s));
      }
    }
  }

  /** Removal from a sound tree without a stale rotation leaves a sound one, at most one lower. */
  lemma {:induction false} RemoveSound(cmp: Comparator, t: Tree, k: Pointer)
    requires Sound(t)
    ensures Positive(t) && (!StaleRemove(cmp, t, k) ==> Lower(t, Remove(cmp, t, k)))
  {
    hide Even, Exact, Stale, Balance;
    SoundParts(t);
    if t.Node? && !StaleRemove(cmp, t, k) {
      if cmp(k, t.key) < 0 {
        RemoveSound(cmp, t.left, k);
        Shrunk(t, t.(left := Remove(cmp, t.left, k)));
      } else if cmp(k, t.key) > 0 {
        RemoveSound(cmp, t.right, k);
        Shrunk(t, t.(right := Remove(cmp, t.right, k)));
      } else {
        RootSound(t);
      }
    }
  }

  lemma RootSound(t: Tree)
    requires t.Node? && Sound(t) && Positive(t) && !StaleRoot(t)
    ensures Lower(t, RemoveRoot(t))
  {
    hide Even, Exact, Stale, Balance;
    SoundParts(t);
    if t.right.Node? {
      LeftMostSound(t.right);
      var m, s := LeftMost(t.right), t.(right := RemoveLeftMost(t.right));
      SameRoot(t, m.key, m.value);
      Shrunk(t.(key := m.key, value := m.value), s.(key := m.key, value := m.value));
      SameStale(s, m.key, m.value);
    } else if t.left.Node? {
      RightMostSound(t.left);
      var m, s := RightMost(t.left), t.(left := RemoveRightMost(t.left));
      SameRoot(t, m.key, m.value);
      Shrunk(t.(key := m.key, value := m.value), s.(key := m.key, value := m.value));
      SameStale(s, m.key, m.value);
    }
  }

  /** Heights do not depend on the data. */
  lemma SameRoot(t: Tree, k: Pointer, v: Pointer)
    requires t.Node? && Sound(t)
    ensures var s := t.(key := k, value := v); Sound(s) && TrueHeight(s) == TrueHeight(t)
  {
  }

  lemma SameStale(t: Tree, k: Pointer, v: Pointer)
    requires t.Node? && Positive(t.left) && Positive(t.right)
    ensures Stale(t.(key := k, value := v)) <==> Stale(t)
  {
  }

  // ---------------------------------------------------------------- a run that fails

  function Cell(n: AVLNode, k: Pointer, h: int, l: Tree, r: Tree): (t: Tree) { Node(n, k, 0, h, l, r) }

  function Subtract(a: Pointer, b: Pointer): (c: int) { a - b }

  function Lone(n: AVLNode, k: Pointer): (t: Tree) { Cell(n, k, 1, Leaf, Leaf) }

  /** The first five of the insertions below build a sound tree. */
  lemma FiveInsertions(n: AVLNode)
    ensures InsertKeys(Subtract, Leaf, [0, 1, 4, 5, 6], n) ==
      Cell(n, 1, 3, Lone(n, 0), Cell(n, 5, 2, Lone(n, 4), Lone(n, 6)))
  {
    var t2, t3 := Cell(n, 0, 2, Leaf, Lone(n, 1)), Cell(n, 1, 2, Lone(n, 0), Lone(n, 4));
    var t4 := Cell(n, 1, 3, Lone(n, 0), Cell(n, 4, 2, Leaf, Lone(n, 5)));
    var t5 := Cell(n, 1, 3, Lone(n, 0), Cell(n, 5, 2, Lone(n, 4), Lone(n, 6)));
    assert InsertAvl(Subtract, Leaf, 0, 0, n) == Lone(n, 0);
    assert Insert(Subtract, Lone(n, 0), 1, 0, n) == t2;
    assert InsertAvl(Subtract, Lone(n, 0), 1, 0, n) == t2;
    assert Insert(Subtract, Lone(n, 1), 4, 0, n) == Cell(n, 1, 2, Leaf, Lone(n, 4));
    assert InsertAvl(Subtract, t2, 4, 0, n) == t3;
    assert Insert(Subtract, Lone(n, 4), 5, 0, n) == t4.right;
    assert InsertAvl(Subtract, t3, 5, 0, n) == t4;
    assert Insert(Subtract, Lone(n, 5), 6, 0, n) == Cell(n, 5, 2, Leaf, Lone(n, 6));
    assert Insert(Subtract, t4.right, 6, 0, n) == t5.right;
    assert InsertAvl(Subtract, t4, 6, 0, n) == t5;
    hide InsertAvl;
    assert InsertKeys(Subtract, t4, [6], n) == t5;
    assert InsertKeys(Subtract, t3, [5, 6], n) == t5;
    assert InsertKeys(Subtract, t2, [4, 5, 6], n) == t5;
    assert InsertKeys(Subtract, Lone(n, 0), [1, 4, 5, 6], n) == t5;
  }

  /** The sixth insertion rotates twice and leaves a wrong height in the node of 5. */
  lemma SixthInsertion(n: AVLNode)
    ensures var t5 := Cell(n, 1, 3, Lone(n, 0), Cell(n, 5, 2, Lone(n, 4), Lone(n, 6)));
      InsertAvl(Subtract, t5, 3, 0, n) ==
      Cell(n, 4, 3, Cell(n, 1, 2, Lone(n, 0), Lone(n, 3)), Cell(n, 5, 1, Leaf, Lone(n, 6)))
  {
    var t5 := Cell(n, 1, 3, Lone(n, 0), Cell(n, 5, 2, Lone(n, 4), Lone(n, 6)));
    var t6 := Cell(n, 4, 3, Cell(n, 1, 2, Lone(n, 0), Lone(n, 3)), Cell(n, 5, 1, Leaf, Lone(n, 6)));
    var grown := Cell(n, 5, 3, Cell(n, 4, 2, Lone(n, 3), Leaf), Lone(n, 6));
    assert Insert(Subtract, Lone(n, 4), 3, 0, n) == grown.left;
    assert Insert(Subtract, t5.right, 3, 0, n) == grown;
    assert DoubleLeft(t5.(right := grown)) == t6;
    assert Insert(Subtract, t5, 3, 0, n) == t6;
  }

  /** So the seventh does not see that it has to rotate the other way. */
  lemma SeventhInsertion(n: AVLNode)
    ensures var t6 := Cell(n, 4, 3, Cell(n, 1, 2, Lone(n, 0), Lone(n, 3)), Cell(n, 5, 1, Leaf, Lone(n, 6)));
      Positive(t6.left) && Positive(t6.right) && InsertAvl(Subtract, t6, 2, 0, n) ==
      Cell(n, 3, 3, Cell(n, 1, 2, Lone(n, 0), Lone(n, 2)), Cell(n, 4, 1, Leaf, Cell(n, 5, 1, Leaf, Lone(n, 6))))
  {
    var t6 := Cell(n, 4, 3, Cell(n, 1, 2, Lone(n, 0), Lone(n, 3)), Cell(n, 5, 1, Leaf, Lone(n, 6)));
    var low := Cell(n, 1, 2, Lone(n, 0), Lone(n, 2));
    var t7 := Cell(n, 3, 3, low, Cell(n, 4, 1, Leaf, Cell(n, 5, 1, Leaf, Lone(n, 6))));
    var grown := Cell(n, 1, 3, Lone(n, 0), Cell(n, 3, 2, Lone(n, 2), Leaf));
    assert Insert(Subtract, Lone(n, 3), 2, 0, n) == grown.right;
    assert Insert(Subtract, t6.left, 2, 0, n) == grown;
    assert DoubleRight(t6.(left := grown)) == t7.(height := 2);
    assert Insert(Subtract, t6, 2, 0, n) == t7;
  }

  /** Seven insertions into an empty tree after which it is not balanced. */
  lemma Unbalanced(n: AVLNode)
    ensures !Even(InsertKeys(Subtract, Leaf, [0, 1, 4, 5, 6, 3, 2], n))
  {
    var t5 := Cell(n, 1, 3, Lone(n, 0), Cell(n, 5, 2, Lone(n, 4), Lone(n, 6)));
    var t6 := Cell(n, 4, 3, Cell(n, 1, 2, Lone(n, 0), Lone(n, 3)), Cell(n, 5, 1, Leaf, Lone(n, 6)));
    var low := Cell(n, 1, 2, Lone(n, 0), Lone(n, 2));
    var t7 := Cell(n, 3, 3, low, Cell(n, 4, 1, Leaf, Cell(n, 5, 1, Leaf, Lone(n, 6))));
    FiveInsertions(n);
    SixthInsertion(n);
    SeventhInsertion(n);
    assert !Even(t7) by {
      assert TrueHeight(Lone(n, 6)) == 1;
      assert TrueHeight(t7.right.right) == 2;
    }
    hide InsertAvl;
    InsertMore(Leaf, [0, 1, 4, 5, 6], [3, 2], n);
    assert [0, 1, 4, 5, 6] + [3, 2] == [0, 1, 4, 5, 6, 3, 2];
    assert InsertKeys(Subtract, t6, [2], n) == t7;
  }

  lemma {:induction false} InsertMore(t: Tree, a: seq<Pointer>, b: seq<Pointer>, n: AVLNode)
    requires Positive(t)
    ensures InsertKeys(Subtract, t, a + b, n) == InsertKeys(Subtract, InsertKeys(Subtract, t, a, n), b, n)
    decreases |a|
  {
    hide InsertAvl;
    if a == [] {
      assert a + b == b;
    } else {
      assert (a + b)[1..] == a[1..] + b;
      InsertMore(InsertAvl(Subtract, t, a[0], 0, n), a[1..], b, n);
    }
  }
}
