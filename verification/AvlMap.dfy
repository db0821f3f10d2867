/** The AVL tree of lib/avl/avl.c as linked nodes: every operation works in place. */
module AvlMap {
  import opened Bytes
  import opened AvlOrder
  import opened AvlTree

  /** The links and fields below a link are those of t. */
  ghost predicate Shape(t: Tree, link: AVLNode?)
    reads Nodes(t)
  {
    match t
    case Leaf => link == null
    case Node(n, key, value, height, left, right) =>
      && link == n && n.key == key && n.value == value && n.height == height
      && Shape(left, n.left) && Shape(right, n.right)
  }

  lemma ShapeNode(t: Tree, node: AVLNode)
    requires t.Node? && node == t.n && node.key == t.key && node.value == t.value && node.height == t.height
    requires Shape(t.left, node.left) && Shape(t.right, node.right)
    ensures Shape(t, node)
  {
  }

  lemma ShapeParts(t: Tree, node: AVLNode)
    requires Shape(t, node)
    ensures t.Node? && node == t.n && node.key == t.key && node.value == t.value && node.height == t.height
    ensures Shape(t.left, node.left) && Shape(t.right, node.right)
    ensures (node.left == null <==> t.left.Leaf?) && (node.right == null <==> t.right.Leaf?)
  {
  }

  /** GetHeight */
  function HeightOf(node: AVLNode?): (h: int)
    reads node
  {
    if node == null then 0 else node.height
  }

  method RotateSingleRight(node: AVLNode, ghost t: Tree) returns (link: AVLNode)
    requires t.Node? && t.left.Node? && Shape(t, node) && Distinct(t)
    modifies t.n, t.left.n
    ensures Shape(SingleRight(t), link)
  {
    NodeParts(t);
    NodeParts(t.left);
    hide Distinct, Entries;
    var a, b, c, d, e := node.left.left, node.left.right, node.right, node.left, node;
    link := d;
    link.right := e;
    link.left := a;
    link.right.left := b;
    link.right.right := c;
    var left, right := HeightOf(b), HeightOf(b);
    e.height := Max(left, right) + 1;
    d.height := e.height + 1;
    assert Shape(t.left.left, a) && Shape(t.left.right, b) && Shape(t.right, c);
    assert Shape(SingleRight(t).right, e);
  }

  method RotateSingleLeft(node: AVLNode, ghost t: Tree) returns (link: AVLNode)
    requires t.Node? && t.right.Node? && Shape(t, node) && Distinct(t)
    modifies t.n, t.right.n
    ensures Shape(SingleLeft(t), link)
  {
    NodeParts(t);
    NodeParts(t.right);
    hide Distinct, Entries;
    var a, b, c, d, e := node.left, node.right.left, node.right.right, node, node.right;
    link := e;
    link.left := d;
    link.left.left := a;
    link.left.right := b;
    link.right := c;
    var left, right := HeightOf(a), HeightOf(b);
    d.height := Max(left, right) + 1;
    e.height := d.height + 1;
    assert Shape(t.left, a) && Shape(t.right.left, b) && Shape(t.right.right, c);
    assert Shape(SingleLeft(t).left, d);
  }

  method RotateDoubleRight(node: AVLNode, ghost t: Tree, ghost all: set<AVLNode>) returns (link: AVLNode)
    requires t.Node? && t.left.Node? && t.left.right.Node? && Shape(t, node) && Distinct(t) && Nodes(t) <= all
    modifies Nodes(t)
    ensures Shape(DoubleRight(t), link)
  {
    hide SingleLeft, SingleRight;
    NodeParts(t);
    NodeParts(t.left);
    NodeParts(t.left.right);
    SingleLeftKeeps(t.left);
    hide Distinct, Entries;
    node.left := RotateSingleLeft(node.left, t.left);
    assert Shape(SingleLeft(t.left), node.left) && Shape(t.right, node.right);
    ghost var s := t.(left := SingleLeft(t.left));
    NodeParts(s);
    link := RotateSingleRight(node, s);
  }

  method RotateDoubleLeft(node: AVLNode, ghost t: Tree, ghost all: set<AVLNode>) returns (link: AVLNode)
    requires t.Node? && t.right.Node? && t.right.left.Node? && Shape(t, node) && Distinct(t) && Nodes(t) <= all
    modifies Nodes(t)
    ensures Shape(DoubleLeft(t), link)
  {
    hide SingleLeft, SingleRight;
    NodeParts(t);
    NodeParts(t.right);
    NodeParts(t.right.left);
    SingleRightKeeps(t.right);
    hide Distinct, Entries;
    node.right := RotateSingleRight(node.right, t.right);
    assert Shape(SingleRight(t.right), node.right) && Shape(t.left, node.left);
    ghost var s := t.(right := SingleRight(t.right));
    NodeParts(s);
    link := RotateSingleLeft(node, s);
  }

  /** GetBalance */
  function BalanceOf(node: AVLNode?): (b: int)
    reads node, if node == null then {} else {node.left, node.right}
  {
    if node == null then 0 else HeightOf(node.right) - HeightOf(node.left)
  }

  lemma BalanceIs(t: Tree, node: AVLNode?)
    requires Shape(t, node)
    ensures HeightOf(node) == GetHeight(t) && BalanceOf(node) == GetBalance(t) && (node == null <==> t.Leaf?)
  {
  }

  /** The rotation that Balance chooses by the stored heights, if any. */
  method Turn(node: AVLNode, ghost t: Tree, ghost all: set<AVLNode>) returns (link: AVLNode)
    requires t.Node? && Shape(t, node) && Distinct(t) && Positive(t.left) && Positive(t.right) && Nodes(t) <= all
    modifies Nodes(t)
    ensures Shape(Rotate(t), link)
  {
    hide SingleLeft, SingleRight, DoubleLeft, DoubleRight, Entries, BalanceOf;
    PositiveParts(t.left);
    PositiveParts(t.right);
    NodeParts(t);
    BalanceIs(t, node);
    BalanceIs(t.left, node.left);
    BalanceIs(t.right, node.right);
    link := node;
    var balance := BalanceOf(node);
    if balance < -1 {
      NodeParts(t.left);
      balance := BalanceOf(node.left);
      if balance > 0 { link := RotateDoubleRight(node, t, all); } else { link := RotateSingleRight(node, t); }
    } else if balance > 1 {
      NodeParts(t.right);
      balance := BalanceOf(node.right);
      if balance < 0 { link := RotateDoubleLeft(node, t, all); } else { link := RotateSingleLeft(node, t); }
    }
  }

  /** Balance */
  method Rebalance(node: AVLNode, ghost t: Tree, ghost all: set<AVLNode>) returns (link: AVLNode)
    requires t.Node? && Shape(t, node) && Distinct(t) && Positive(t.left) && Positive(t.right) && Nodes(t) <= all
    modifies Nodes(t)
    ensures Shape(Balance(t), link)
  {
    RotateKeeps(t);
    ghost var r := Rotate(t);
    NodeParts(r);
    hide Rotate, Entries, Distinct;
    link := Turn(node, t, all);
    var left, right := HeightOf(link.left), HeightOf(link.right);
    link.height := Max(left, right) + 1;
    assert Shape(r.left, link.left) && Shape(r.right, link.right);
  }

  /** The null pointer stands for no value. */
  function OrNull(o: Option<Pointer>): (p: Pointer) {
    match o
    case None => 0
    case Some(v) => v
  }

  /** AVLTreeData */
  class AVLTree {
    const comparator: Comparator
    var root: AVLNode?
    var size: int
    /** The shape below the root, and nodes that it is made of. */
    ghost var tree: Tree
    ghost var nodes: set<AVLNode>

    ghost predicate Valid()
      reads this, Nodes(tree)
    {
      && Nodes(tree) <= nodes && Shape(tree, root) && Distinct(tree) && Positive(tree)
      && IsOrder(comparator) && Ascending(comparator, Entries(tree)) && size == |Entries(tree)|
    }

    ghost function Contents(): (s: seq<Entry>)
      reads this
    {
      Entries(tree)
    }

    /** CreateAVL */
    constructor (cmp: Comparator)
      requires IsOrder(cmp)
      ensures Valid() && Contents() == [] && comparator == cmp && Nodes(tree) == {}
    {
      comparator, root, size := cmp, null, 0;
      tree, nodes := Leaf, {};
    }

    /** FindAVL */
    method FindAVL(key: Pointer) returns (result: Pointer)
      requires Valid()
      ensures result == OrNull(Lookup(comparator, Contents(), key))
    {
      var np := root;
      ghost var sub := tree;
      while np != null
        invariant Shape(sub, np) && Ascending(comparator, Entries(sub))
        invariant Lookup(comparator, Entries(sub), key) == Lookup(comparator, Contents(), key)
        decreases sub
      {
        ghost var a, e, b := Entries(sub.left), (sub.key, sub.value), Entries(sub.right);
        NodeAscends(comparator, a, e, b);
        var rc := comparator(key, np.key);
        if rc < 0 {
          GoLeft(comparator, a, e, b, key, 0);
          np, sub := np.left, sub.left;
        } else {
          LeftIsBelow(comparator, a, e, b, key);
          AtNode(comparator, a, e, b, key, 0);
          if rc == 0 { return np.value; }
          np, sub := np.right, sub.right;
        }
      }
      result := 0;
    }

    /** A new node, counted. */
    method NewNode(key: Pointer, value: Pointer) returns (np: AVLNode)
      modifies `size
      ensures fresh(np) && size == old(size) + 1 && Shape(Node(np, key, value, 1, Leaf, Leaf), np)
    {
      np := new AVLNode(key, value);
      size := size + 1;
    }

    /** Insert: n is the new node, if one is needed. */
    method InsertAt(node: AVLNode?, key: Pointer, value: Pointer, ghost t: Tree, ghost all: set<AVLNode>)
      returns (result: Pointer, link: AVLNode, ghost n: AVLNode)
      requires Shape(t, node) && Nodes(t) <= all && Distinct(t) && Positive(t)
      requires IsOrder(comparator) && Ascending(comparator, Entries(t))
      modifies `size, Nodes(t)
      ensures Shape(Insert(comparator, t, key, value, n), link)
      ensures var found := Lookup(comparator, Entries(t), key);
        && result == OrNull(found) && (if found == None then fresh(n) && size == old(size) + 1 else size == old(size))
      decreases t
    {
      if node == null {
        link := NewNode(key, value);
        return 0, link, link;
      }
      hide Balance, Shape;
      ShapeParts(t, node);
      ghost var a, e, b := Entries(t.left), (t.key, t.value), Entries(t.right);
      NodeAscends(comparator, a, e, b);
      var rc := comparator(key, node.key);
      if rc < 0 {
        GoLeft(comparator, a, e, b, key, value);
        result, link, n := InsertLeft(node, key, value, t, all);
      } else {
        LeftIsBelow(comparator, a, e, b, key);
        AtNode(comparator, a, e, b, key, value);
        if rc > 0 {
          result, link, n := InsertRight(node, key, value, t, all);
        } else {
          result, link, n := node.value, node, node;
        }
      }
    }

    lemma EmptySide(key: Pointer, value: Pointer)
      ensures Lookup(comparator, Entries(Leaf), key) == None
      ensures forall n: AVLNode :: Insert(comparator, Leaf, key, value, n) == Node(n, key, value, 1, Leaf, Leaf)
    {
    }

    /** Insert, on the side of the smaller keys. */
    method InsertLeft(node: AVLNode, key: Pointer, value: Pointer, ghost t: Tree, ghost all: set<AVLNode>)
      returns (result: Pointer, link: AVLNode, ghost n: AVLNode)
      requires t.Node? && Shape(t, node) && Nodes(t) <= all && Distinct(t) && Positive(t)
      requires IsOrder(comparator) && Ascending(comparator, Entries(t.left))
      modifies `size, Nodes(t)
      ensures Shape(Balance(t.(left := Insert(comparator, t.left, key, value, n))), link)
      ensures var found := Lookup(comparator, Entries(t.left), key);
        && result == OrNull(found) && (if found == None then fresh(n) && size == old(size) + 1 else size == old(size))
      decreases t, 0
    {
      hide IsOrder, Lookup, Ascending, Balance, Entries, Shape;
      ShapeParts(t, node);
      NodeParts(t);
      if node.left != null {
        var l;
        result, l, n := InsertAt(node.left, key, value, t.left, all);
        node.left := l;
        InsertPuts(comparator, t.left, key, value, n);
        ghost var s := t.(left := Insert(comparator, t.left, key, value, n));
        NodeParts(s);
        ShapeNode(s, node);
        link := Rebalance(node, s, all + {n});
      } else {
        EmptySide(key, value);
        var np := NewNode(key, value);
        node.left := np;
        n, result := np, 0;
        if (node.right != null && node.left == null) || (node.left != null && node.right == null) {
          node.height := node.height + 1;
        }
        ghost var s := t.(left := Node(n, key, value, 1, Leaf, Leaf), height := node.height);
        NodeParts(s);
        BalanceSetsHeight(t.(left := s.left), node.height);
        ShapeNode(s, node);
        link := Rebalance(node, s, all + {n});
      }
    }

    /** Insert, on the side of the greater keys. */
    method InsertRight(node: AVLNode, key: Pointer, value: Pointer, ghost t: Tree, ghost all: set<AVLNode>)
      returns (result: Pointer, link: AVLNode, ghost n: AVLNode)
      requires t.Node? && Shape(t, node) && Nodes(t) <= all && Distinct(t) && Positive(t)
      requires IsOrder(comparator) && Ascending(comparator, Entries(t.right))
      modifies `size, Nodes(t)
      ensures Shape(Balance(t.(right := Insert(comparator, t.right, key, value, n))), link)
      ensures var found := Lookup(comparator, Entries(t.right), key);
        && result == OrNull(found) && (if found == None then fresh(n) && size == old(size) + 1 else size == old(size))
      decreases t, 0
    {
      hide IsOrder, Lookup, Ascending, Balance, Entries, Shape;
      ShapeParts(t, node);
      NodeParts(t);
      if node.right != null {
        var l;
        result, l, n := InsertAt(node.right, key, value, t.right, all);
        node.right := l;
        InsertPuts(comparator, t.right, key, value, n);
        ghost var s := t.(right := Insert(comparator, t.right, key, value, n));
        NodeParts(s);
        ShapeNode(s, node);
        link := Rebalance(node, s, all + {n});
      } else {
        EmptySide(key, value);
        var np := NewNode(key, value);
        node.right := np;
        n, result := np, 0;
        if (node.right != null && node.left == null) || (node.left != null && node.right == null) {
          node.height := node.height + 1;
        }
        ghost var s := t.(right := Node(n, key, value, 1, Leaf, Leaf), height := node.height);
        NodeParts(s);
        BalanceSetsHeight(t.(right := s.right), node.height);
        ShapeNode(s, node);
        link := Rebalance(node, s, all + {n});
      }
    }

    /** The root of InsertAVL's recursion. */
    method Enter(key: Pointer, value: Pointer) returns (result: Pointer, ghost n: AVLNode)
      requires Valid()
      modifies this, Nodes(tree)
      ensures Valid() && fresh(Nodes(tree) - old(Nodes(tree)))
      ensures result == OrNull(Lookup(comparator, old(Contents()), key))
      ensures Contents() == Put(comparator, old(Contents()), key, value)
      ensures tree == Insert(comparator, old(tree), key, value, n)
    {
      hide Lookup, Put, Ascending, IsOrder, Insert, Entries, Shape, Distinct, Positive;
      ghost var t := tree;
      result, root, n := InsertAt(root, key, value, t, nodes);
      InsertPuts(comparator, t, key, value, n);
      PutKeepsOrder(comparator, Entries(t), key, value);
      nodes := nodes + {n};
      tree := Insert(comparator, t, key, value, n);
    }

    method BalanceRoot()
      requires Valid() && tree.Node?
      modifies `root, `tree, Nodes(tree)
      ensures Valid() && tree == Balance(old(tree)) && Contents() == old(Contents()) && Nodes(tree) == old(Nodes(tree))
    {
      BalanceKeeps(tree);
      hide IsOrder, Ascending, Entries, Balance;
      root := Rebalance(root, tree, nodes);
      tree := Balance(tree);
    }

    /** InsertAVL: a new key is entered with its value; a key that is there keeps its own. */
    method InsertAVL(key: Pointer, value: Pointer) returns (result: Pointer, ghost n: AVLNode)
      requires Valid()
      modifies this, Nodes(tree)
      ensures Valid() && fresh(Nodes(tree) - old(Nodes(tree)))
      ensures result == OrNull(Lookup(comparator, old(Contents()), key))
      ensures Contents() == Put(comparator, old(Contents()), key, value)
      ensures tree == InsertAvl(comparator, old(tree), key, value, n)
    {
      hide Valid, Lookup, Put, Insert, Balance, Entries;
      result, n := Enter(key, value);
      BalanceRoot();
    }

    /** The height that is set before a node is balanced after a removal. */
    static method SetRough(node: AVLNode, ghost s: Tree)
      requires s.Node? && Shape(s.left, node.left) && Shape(s.right, node.right)
      modifies node`height
      ensures node.height == Rough(s)
    {
      BalanceIs(s.left, node.left);
      BalanceIs(s.right, node.right);
      var lh := if node.left != null then node.left.height + 1 else 0;
      var rh := if node.right != null then node.right.height + 1 else 0;
      node.height := if rh > lh then rh else lh;
    }

    /** RemoveLeftMost: takes the left-most node out of the tree. */
    static method TakeLeftMost(node: AVLNode, ghost t: Tree, ghost all: set<AVLNode>)
      returns (left: AVLNode, link: AVLNode?)
      requires t.Node? && Shape(t, node) && Nodes(t) <= all && Distinct(t) && Positive(t)
      modifies Nodes(t)
      ensures Shape(RemoveLeftMost(t), link)
      ensures var m := LeftMost(t); left == m.n && left.key == m.key && left.value == m.value
      decreases t
    {
      hide Balance, Entries, Shape;
      ShapeParts(t, node);
      NodeParts(t);
      if node.left != null {
        LeftMostGone(t.left);
        var l;
        left, l := TakeLeftMost(node.left, t.left, all);
        node.left := l;
        ghost var s := t.(left := RemoveLeftMost(t.left));
        NodeParts(s);
        SetRough(node, s);
        ghost var r := s.(height := Rough(s));
        NodeParts(r);
        ShapeNode(r, node);
        link := Rebalance(node, r, all);
      } else {
        left, link := node, node.right;
        left.right := null;
      }
    }

    /** RemoveRightMost */
    static method TakeRightMost(node: AVLNode, ghost t: Tree, ghost all: set<AVLNode>)
      returns (right: AVLNode, link: AVLNode?)
      requires t.Node? && Shape(t, node) && Nodes(t) <= all && Distinct(t) && Positive(t)
      modifies Nodes(t)
      ensures Shape(RemoveRightMost(t), link)
      ensures var m := RightMost(t); right == m.n && right.key == m.key && right.value == m.value
      decreases t
    {
      hide Balance, Entries, Shape;
      ShapeParts(t, node);
      NodeParts(t);
      if node.right != null {
        RightMostGone(t.right);
        var l;
        right, l := TakeRightMost(node.right, t.right, all);
        node.right := l;
        ghost var s := t.(right := RemoveRightMost(t.right));
        NodeParts(s);
        SetRough(node, s);
        ghost var r := s.(height := Rough(s));
        NodeParts(r);
        ShapeNode(r, node);
        link := Rebalance(node, r, all);
      } else {
        right, link := node, node.left;
        right.left := null;
      }
    }

    /** The part of Remove at the node of the key; what was taken from the tree would be freed. */
    static method RemoveHere(node: AVLNode, ghost t: Tree, ghost all: set<AVLNode>) returns (link: AVLNode?)
      requires t.Node? && Shape(t, node) && Nodes(t) <= all && Distinct(t) && Positive(t)
      modifies Nodes(t)
      ensures Shape(RemoveRoot(t), link)
    {
      hide Balance, Entries, Shape;
      ShapeParts(t, node);
      NodeParts(t);
      if node.right != null {
        LeftMostGone(t.right);
        var np, l := TakeLeftMost(node.right, t.right, all);
        node.right := l;
        node.key, node.value := np.key, np.value;
        ghost var s := t.(key := np.key, value := np.value, right := RemoveLeftMost(t.right));
        NodeParts(s);
        ShapeNode(s, node);
        link := Rebalance(node, s, all);
      } else if node.left != null {
        RightMostGone(t.left);
        var np, l := TakeRightMost(node.left, t.left, all);
        node.left := l;
        node.key, node.value := np.key, np.value;
        ghost var s := t.(key := np.key, value := np.value, left := RemoveRightMost(t.left));
        NodeParts(s);
        ShapeNode(s, node);
        link := Rebalance(node, s, all);
      } else {
        link := null;
      }
    }

    /** The value of the key, and one entry less if it has one. */
    ghost predicate Taken(s: seq<Entry>, key: Pointer, result: Pointer, was: int, now: int) {
      var found := Lookup(comparator, s, key);
      result == OrNull(found) && now == was - if found == None then 0 else 1
    }

    lemma NothingThere(t: Tree, key: Pointer)
      requires Shape(t, null)
      ensures t.Leaf? && Shape(Remove(comparator, t, key), null) && Taken(Entries(t), key, 0, size, size)
    {
    }

    /** Remove */
    method RemoveAt(node: AVLNode?, key: Pointer, ghost t: Tree, ghost all: set<AVLNode>)
      returns (result: Pointer, link: AVLNode?)
      requires Shape(t, node) && Nodes(t) <= all && Distinct(t) && Positive(t)
      requires IsOrder(comparator) && Ascending(comparator, Entries(t))
      modifies `size, Nodes(t)
      ensures Shape(Remove(comparator, t, key), link)
      ensures Taken(Entries(t), key, result, old(size), size)
      decreases t
    {
      hide Balance, RemoveRoot, Shape;
      if node == null {
        NothingThere(t, key);
        return 0, null;
      }
      ShapeParts(t, node);
      ghost var a, e, b := Entries(t.left), (t.key, t.value), Entries(t.right);
      NodeAscends(comparator, a, e, b);
      var rc := comparator(key, node.key);
      if rc < 0 {
        GoLeft(comparator, a, e, b, key, 0);
        result, link := RemoveLeft(node, key, t, all);
      } else {
        LeftIsBelow(comparator, a, e, b, key);
        AtNode(comparator, a, e, b, key, 0);
        if rc > 0 {
          result, link := RemoveRight(node, key, t, all);
        } else {
          RootGone(t);
          result := node.value;
          link := RemoveHere(node, t, all);
          size := size - 1;
        }
      }
    }

    /** Remove, on the side of the smaller keys. */
    method RemoveLeft(node: AVLNode, key: Pointer, ghost t: Tree, ghost all: set<AVLNode>)
      returns (result: Pointer, link: AVLNode)
      requires t.Node? && Shape(t, node) && Nodes(t) <= all && Distinct(t) && Positive(t)
      requires IsOrder(comparator) && Ascending(comparator, Entries(t.left))
      modifies `size, Nodes(t)
      ensures Shape(Balance(t.(left := Remove(comparator, t.left, key))), link)
      ensures Taken(Entries(t.left), key, result, old(size), size)
      decreases t, 0
    {
      hide IsOrder, Lookup, Ascending, Balance, Entries, Taken, Shape;
      ShapeParts(t, node);
      NodeParts(t);
      RemoveDrops(comparator, t.left, key);
      var l;
      result, l := RemoveAt(node.left, key, t.left, all);
      node.left := l;
      ghost var s := t.(left := Remove(comparator, t.left, key));
      NodeParts(s);
      ShapeNode(s, node);
      link := Rebalance(node, s, all);
    }

    /** Remove, on the side of the greater keys. */
    method RemoveRight(node: AVLNode, key: Pointer, ghost t: Tree, ghost all: set<AVLNode>)
      returns (result: Pointer, link: AVLNode)
      requires t.Node? && Shape(t, node) && Nodes(t) <= all && Distinct(t) && Positive(t)
      requires IsOrder(comparator) && Ascending(comparator, Entries(t.right))
      modifies `size, Nodes(t)
      ensures Shape(Balance(t.(right := Remove(comparator, t.right, key))), link)
      ensures Taken(Entries(t.right), key, result, old(size), size)
      decreases t, 0
    {
      hide IsOrder, Lookup, Ascending, Balance, Entries, Taken, Shape;
      ShapeParts(t, node);
      NodeParts(t);
      RemoveDrops(comparator, t.right, key);
      var l;
      result, l := RemoveAt(node.right, key, t.right, all);
      node.right := l;
      ghost var s := t.(right := Remove(comparator, t.right, key));
      NodeParts(s);
      ShapeNode(s, node);
      link := Rebalance(node, s, all);
    }

    /** RemoveAVL: the entry of the key, if there is one, is gone. */
    method RemoveAVL(key: Pointer) returns (result: Pointer)
      requires Valid()
      modifies this, Nodes(tree)
      ensures Valid() && Nodes(tree) <= old(Nodes(tree))
      ensures result == OrNull(Lookup(comparator, old(Contents()), key))
      ensures Contents() == Drop(comparator, old(Contents()), key)
      ensures tree == Remove(comparator, old(tree), key)
    {
      hide Lookup, Drop, Ascending, IsOrder, Balance, Remove, Entries;
      ghost var t := tree;
      result, root := RemoveAt(root, key, t, nodes);
      RemoveDrops(comparator, t, key);
      DropKeepsOrder(comparator, Entries(t), key);
      tree := Remove(comparator, t, key);
    }
  }
}
