/** struct capn: the list of segments and its red-black index, as capn_init_malloc sets it up. */
module CapnSession {
  import opened Bytes
  import opened CapnTree

  /** The path that always goes right, from the empty link of the last node up. */
  function RightPath(t: Tree, up: Path): (r: Path) {
    if t.Leaf? then up else RightPath(t.right, Up(t.n, t.red, 1, t.left, up))
  }

  lemma {:induction false} RightPathPure(t: Tree, up: Path)
    ensures Plug(RightPath(t, up), Leaf) == Plug(up, t)
    ensures Before(RightPath(t, up)) == Before(up) + InOrder(t) && After(RightPath(t, up)) == After(up)
    ensures PathNodes(RightPath(t, up)) == PathNodes(up) + Nodes(t)
    ensures t.Node? ==> Below(RightPath(t, up)) == InOrder(t)[|InOrder(t)| - 1]
    ensures t.Node? || up.Up? ==> PathRoot(RightPath(t, up)) == if up.Up? then PathRoot(up) else Root(t)
    decreases t
  {
    if t.Node? {
      RightPathPure(t.right, Up(t.n, t.red, 1, t.left, up));
      Assoc(Before(up), InOrder(t.left) + [t.n], InOrder(t.right));
    }
  }

  lemma {:induction false} RightPathShape(t: Tree, up: Path)
    requires Shape(t, Below(up)) && Distinct(t) && PathDistinct(up) && PathNodes(up) !! Nodes(t)
    requires PathShape(up, Root(t))
    ensures var c := RightPath(t, up); PathShape(c, null) && PathDistinct(c)
    ensures t.Node? ==> RightPath(t, up).Up? && RightPath(t, up).dir == 1
    ensures t.Leaf? ==> RightPath(t, up) == up
    decreases t
  {
    if t.Node? {
      RightPathShape(t.right, Up(t.n, t.red, 1, t.left, up));
    }
  }

  ghost function Elems(q: seq<Segment>): (r: set<Segment>) {
    set i | 0 <= i < |q| :: q[i]
  }

  lemma ElemsConcat(a: seq<Segment>, b: seq<Segment>)
    ensures Elems(a + b) == Elems(a) + Elems(b)
  {
    var c := a + b;
    forall x | x in Elems(a) + Elems(b) ensures x in Elems(c) {
      if x in Elems(a) { var i :| 0 <= i < |a| && a[i] == x; assert c[i] == x; }
      else { var i :| 0 <= i < |b| && b[i] == x; assert c[|a| + i] == x; }
    }
  }

  ghost predicate NoRepeats(q: seq<Segment>) {
    forall i, j :: 0 <= i < j < |q| ==> q[i] != q[j]
  }

  /** The in-order list has exactly the tree's nodes, each once. */
  lemma {:induction false} NodesInOrder(t: Tree)
    ensures Nodes(t) == Elems(InOrder(t))
    ensures Distinct(t) ==> NoRepeats(InOrder(t))
    decreases t
  {
    if t.Node? {
      NodesInOrder(t.left);
      NodesInOrder(t.right);
      var l, r := InOrder(t.left), InOrder(t.right);
      ElemsConcat(l, [t.n]);
      ElemsConcat(l + [t.n], r);
      assert Elems([t.n]) == {t.n} by { assert [t.n][0] == t.n; }
      if Distinct(t) { Apart(l, t.n, r); }
    }
  }

  lemma NodesAreListed(t: Tree)
    ensures forall o :: o in Nodes(t) ==> o in InOrder(t)
  {
    NodesInOrder(t);
  }

  lemma Apart(l: seq<Segment>, n: Segment, r: seq<Segment>)
    requires NoRepeats(l) && NoRepeats(r)
    requires n !in Elems(l) && n !in Elems(r) && Elems(l) !! Elems(r)
    ensures NoRepeats(l + [n] + r)
  {
    var all := l + [n] + r;
    forall i, j | 0 <= i < j < |all| ensures all[i] != all[j] {
      if i < |l| { assert all[i] == l[i] && l[i] in Elems(l); }
      if j > |l| { assert all[j] == r[j - |l| - 1] && r[j - |l| - 1] in Elems(r); }
    }
  }

  /** The empty link at the right end of an index. */
  lemma RightEnd(root: Segment?, t: Tree)
    requires Index(root, t)
    ensures var c := RightPath(t, Top);
      && Plug(c, Leaf) == t && Before(c) == InOrder(t) && After(c) == []
      && PathNodes(c) == Nodes(t) && PathDistinct(c) && PathShape(c, null)
      && (c.Up? <==> t.Node?) && (c.Top? ==> root == null)
      && (c.Up? ==> c.dir == 1 && PathRoot(c) == root && c.n == InOrder(t)[|InOrder(t)| - 1])
      && RedBlack(Plug(c, Leaf)) && !IsRed(Plug(c, Leaf))
    ensures t.Leaf? <==> InOrder(t) == []
    ensures Nodes(t) == Elems(InOrder(t)) && NoRepeats(InOrder(t))
  {
    assert t.Leaf? ==> InOrder(t) == [];
    assert t.Node? ==> |InOrder(t)| > 0;
    assert Before(Top) + InOrder(t) == InOrder(t) && PathNodes(Top) + Nodes(t) == Nodes(t);
    hide Nodes, InOrder, Distinct, NoRepeats, Elems, RedBlack, BlackHeight, Shape, Before, After, PathNodes;
    NodesInOrder(t);
    RightPathPure(t, Top);
    RightPathShape(t, Top);
  }

  lemma TopShape(c: Path, s: Segment?)
    requires c.Top?
    ensures PathShape(c, s)
  {
  }

  /** Links s behind the last segment: in the list, and at the end of the right path. */
  method LinkLast(last: Segment, s: Segment, ghost c: Path)
    requires c.Up? && c.n == last && c.dir == 1 && PathShape(c, null) && PathDistinct(c) && s !in PathNodes(c)
    modifies last`next, last`link, s`parent
    ensures PathShape(c, s) && s.parent == last && last.next == s
  {
    OpenPath(c, null);
    last.next := s;
    last.link := last.link[1 := s];
    s.parent := last;
  }

  class Capn {
    var segnum: nat
    var segtree: Segment?
    var seglist: Segment?
    var lastseg: Segment?
    const creates: bool // whether there is a create handler
    ghost var segs: seq<Segment>
    ghost var tree: Tree

    /** The list in creation order, with its ids. */
    ghost predicate Listed()
      reads this`segnum, this`segs, this`seglist, this`lastseg, segs`id, segs`next, segs`capn
    {
      && segnum == |segs|
      && (forall i :: 0 <= i < |segs| ==> segs[i].id == i && segs[i].capn == this)
      && (forall i :: 0 <= i < |segs| ==> segs[i].next == if i + 1 < |segs| then segs[i + 1] else null)
      && seglist == (if segs == [] then null else segs[0])
      && lastseg == (if segs == [] then null else segs[|segs| - 1])
    }

    /** An index that holds exactly the listed segments, in id order. */
    ghost predicate Valid()
      reads this, segs`id, segs`next, segs`capn, segs`parent, segs`link, segs`red
    {
      Listed() && InOrder(tree) == segs && (NodesAreListed(tree); Index(segtree, tree))
    }

    /** capn_init_malloc */
    constructor ()
      ensures Valid() && segs == [] && creates
    {
      creates := true;
      segnum, segtree, seglist, lastseg := 0, null, null, null;
      segs, tree := [], Leaf;
    }

    /** Adds s to the list and hangs it at the right end of the index, not yet balanced. */
    method LinkSegment(s: Segment, ghost c: Path)
      requires Listed() && s !in segs && NoRepeats(segs)
      requires PathNodes(c) == Elems(segs) && PathDistinct(c) && PathShape(c, null)
      requires if segs == [] then c.Top? else c.Up? && c.dir == 1 && c.n == segs[|segs| - 1]
      modifies this`segnum, this`seglist, this`lastseg, this`segs, segs`next, segs`link, s`id, s`capn, s`next, s`parent
      ensures Listed() && segs == old(segs) + [s]
      ensures PathShape(c, s) && s.parent == Below(c)
    {
      hide PathDistinct, PathNodes, PathShape;
      s.id := segnum;
      segnum := segnum + 1;
      s.capn := this;
      s.next := null;
      if lastseg != null {
        LinkLast(lastseg, s, c);
      } else {
        seglist := s;
        s.parent := null;
        TopShape(c, s);
      }
      lastseg := s;
      segs := segs + [s];
    }

    /** capn_append_segment */
    method AppendSegment(s: Segment)
      requires Valid() && s !in segs
      modifies this, segs`next, segs`link, segs`parent, segs`red, s
      ensures Valid() && segs == old(segs) + [s]
      ensures s.len == old(s.len)
    {
      hide Shape, PathShape, Distinct, PathDistinct, PathNodes, Nodes, InOrder, RightPath, PathRoot, RedBlack, Plug,
        Before, After, Index, IsRed, NoRepeats, Listed;
      RightEnd(segtree, tree);
      ghost var c := RightPath(tree, Top);
      LinkSegment(s, c);
      ghost var all := Elems(segs);
      ElemsConcat(old(segs), [s]);
      assert Elems([s]) == {s} by { assert [s][0] == s; }
      assert Before(c) + [s] + After(c) == segs;
      segtree, tree := TreeInsert(segtree, s, c, all);
    }

    /**
      lookup_segment: the hint if it has the id, else the id-th segment of the list for every id in
      use, and null for any other.  Every id in use is found, so that the lookup handler behind the
      loop is never reached.  `steps` counts the nodes visited: at most twice the logarithm of the
      number of segments.
     */
    method LookupSegment(hint: Segment?, id: nat) returns (r: Segment?, ghost steps: nat)
      requires Valid()
      ensures r == if hint != null && hint.id == id then hint else if id < segnum then segs[id] else null
      ensures hint != null && hint in segs ==> r == if id < segnum then segs[id] else null
      ensures exists h: nat :: steps <= 2 * h && Pow2(h) <= segnum + 1
    {
      hide RedBlack, Distinct, InOrder, Height, Pow2;
      steps := 0;
      ghost var h := ShallowIndex();
      if hint != null && hint.id == id { return hint, 0; }
      if id >= segnum { return null, 0; }
      var x := segtree;
      ghost var sub: Tree, parent: Segment?, lo: nat := tree, null, 0;
      assert segs[0..|segs|] == segs;
      while x != null
        invariant x == Root(sub) && Shape(sub, parent)
        invariant lo <= id < lo + |InOrder(sub)| <= |segs| && segs[lo..lo + |InOrder(sub)|] == InOrder(sub)
        invariant steps + Height(sub) <= 2 * h
        decreases sub
      {
        ghost var l := |InOrder(sub.left)|;
        Middle(segs, lo, sub);
        HalvesAreLower(sub);
        parent := x;
        steps := steps + 1;
        if id == x.id {
          return x, steps;
        } else if id < x.id {
          x := x.link[0];
          sub := sub.left;
        } else {
          x := x.link[1];
          sub := sub.right;
          lo := lo + l + 1;
        }
      }
      NothingIn(sub);
      r := null;
    }

    lemma ShallowIndex() returns (h: nat)
      requires Valid()
      ensures Height(tree) <= 2 * h && Pow2(h) <= segnum + 1
    {
      IndexIsShallow(tree);
      h := BlackHeight(tree);
    }
  }

  lemma NothingIn(t: Tree)
    requires t.Leaf?
    ensures InOrder(t) == []
  {
  }

  /** Where a subtree's root and halves lie in the list. */
  lemma Middle(segs: seq<Segment>, lo: nat, t: Tree)
    requires t.Node? && lo + |InOrder(t)| <= |segs| && segs[lo..lo + |InOrder(t)|] == InOrder(t)
    ensures var l, r := |InOrder(t.left)|, |InOrder(t.right)|;
      && |InOrder(t)| == l + 1 + r && segs[lo + l] == t.n
      && segs[lo..lo + l] == InOrder(t.left) && segs[lo + l + 1..lo + l + 1 + r] == InOrder(t.right)
  {
    var l, r := InOrder(t.left), InOrder(t.right);
    assert InOrder(t) == l + [t.n] + r;
    hide InOrder;
    SliceOfThree(segs, lo, l, t.n, r);
  }

  lemma SliceOfThree(segs: seq<Segment>, lo: nat, l: seq<Segment>, n: Segment, r: seq<Segment>)
    requires lo + |l| + 1 + |r| <= |segs| && segs[lo..lo + |l + [n] + r|] == l + [n] + r
    ensures segs[lo + |l|] == n && segs[lo..lo + |l|] == l && segs[lo + |l| + 1..lo + |l| + 1 + |r|] == r
  {
    var q := l + [n] + r;
    assert forall k {:trigger q[k]} :: 0 <= k < |q| ==> q[k] == segs[lo + k];
    assert q[|l|] == n;
    assert forall k :: 0 <= k < |l| ==> l[k] == q[k];
    assert forall k :: 0 <= k < |r| ==> r[k] == q[|l| + 1 + k];
  }

  function Height(t: Tree): (r: nat) {
    if t.Leaf? then 0 else 1 + if Height(t.left) > Height(t.right) then Height(t.left) else Height(t.right)
  }

  lemma HalvesAreLower(t: Tree)
    requires t.Node?
    ensures Height(t.left) < Height(t) && Height(t.right) < Height(t)
  {
  }

  /** A red-black tree of n nodes has a height of at most 2 * log2(n + 1), or one more under a red root. */
  lemma {:induction false} IndexIsShallow(t: Tree)
    requires RedBlack(t)
    ensures Height(t) <= 2 * BlackHeight(t) + if IsRed(t) then 1 else 0
    ensures Pow2(BlackHeight(t)) <= |InOrder(t)| + 1
    decreases t
  {
    if t.Node? {
      IndexIsShallow(t.left);
      IndexIsShallow(t.right);
    }
  }
}
