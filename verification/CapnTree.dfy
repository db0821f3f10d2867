/** The red-black index of segments in lib/capnp/capn.c: nodes with parent links, on the heap. */
module CapnTree {
  import opened Bytes

  /** struct capn_segment, with the struct capn_tree that heads it. */
  class Segment {
    var parent: Segment?
    var link: seq<Segment?>
    var red: bool
    var next: Segment?
    var id: nat
    var capn: object?
    const data: array<byte>
    var len: nat

    /** A zeroed segment with room for `cap` bytes. */
    constructor (cap: nat)
      ensures fresh(data) && data.Length == cap && len == 0
      ensures forall k :: 0 <= k < cap ==> data[k] == 0
    {
      data := new byte[cap](_ => 0);
      parent, link, red, next, id, capn, len := null, [null, null], false, null, 0, null, 0;
    }
  }

  /** An index into link[2]. */
  type Dir = d: int | 0 <= d <= 1

  /** What the heap stands for. */
  datatype Tree = Leaf | Node(left: Tree, n: Segment, red: bool, right: Tree)

  /** The way from an empty or occupied position up to the root; `other` hangs on the other side. */
  datatype Path = Top | Up(n: Segment, red: bool, dir: Dir, other: Tree, up: Path)

  /** A node whose subtree in direction dir is a, and whose other subtree is b. */
  function Join(dir: Dir, a: Tree, n: Segment, red: bool, b: Tree): (r: Tree) {
    if dir == 1 then Node(b, n, red, a) else Node(a, n, red, b)
  }

  function Plug(c: Path, t: Tree): (r: Tree) {
    match c
    case Top => t
    case Up(n, red, dir, other, up) => Plug(up, Join(dir, t, n, red, other))
  }

  function Root(t: Tree): (r: Segment?) {
    if t.Leaf? then null else t.n
  }

  function Below(c: Path): (r: Segment?) {
    if c.Top? then null else c.n
  }

  function PathRoot(c: Path): (r: Segment?)
  {
    if c.Top? then null else if c.up.Top? then c.n else PathRoot(c.up)
  }

  ghost function Nodes(t: Tree): (r: set<Segment>) {
    if t.Leaf? then {} else Nodes(t.left) + {t.n} + Nodes(t.right)
  }

  ghost function PathNodes(c: Path): (r: set<Segment>) {
    if c.Top? then {} else {c.n} + Nodes(c.other) + PathNodes(c.up)
  }

  function InOrder(t: Tree): (r: seq<Segment>) {
    if t.Leaf? then [] else InOrder(t.left) + [t.n] + InOrder(t.right)
  }

  /** In-order nodes before and after the position. */
  function Before(c: Path): (r: seq<Segment>) {
    if c.Top? then []
    else if c.dir == 1 then Before(c.up) + (InOrder(c.other) + [c.n])
    else Before(c.up)
  }

  function After(c: Path): (r: seq<Segment>) {
    if c.Top? then []
    else if c.dir == 1 then After(c.up)
    else ([c.n] + InOrder(c.other)) + After(c.up)
  }

  lemma Regroup(b: seq<Segment>, o: seq<Segment>, i: seq<Segment>, a: seq<Segment>)
    ensures b + (o + i) + a == (b + o) + i + a
    ensures b + (i + o) + a == b + i + (o + a)
  {
  }

  lemma {:induction false} PlugInOrder(c: Path, t: Tree)
    ensures InOrder(Plug(c, t)) == Before(c) + InOrder(t) + After(c)
  {
    match c
    case Top =>
    case Up(n, red, dir, other, up) =>
      PlugInOrder(up, Join(dir, t, n, red, other));
      var i, o := InOrder(t), InOrder(other);
      if dir == 1 {
        Regroup(Before(up), o + [n], i, After(up));
      } else {
        Regroup(Before(up), [n] + o, i, After(up));
        assert i + [n] + o == i + ([n] + o);
      }
  }

  // ---------------------------------------------------------------- heap and ghost tree agree

  /** No node occurs twice. */
  ghost predicate Distinct(t: Tree) {
    t.Leaf? || (
      && t.n !in Nodes(t.left) && t.n !in Nodes(t.right) && Nodes(t.left) !! Nodes(t.right)
      && Distinct(t.left) && Distinct(t.right))
  }

  ghost predicate PathDistinct(c: Path) {
    c.Top? || (
      && c.n !in Nodes(c.other) && c.n !in PathNodes(c.up) && Nodes(c.other) !! PathNodes(c.up)
      && Distinct(c.other) && PathDistinct(c.up))
  }

  ghost predicate Shape(t: Tree, parent: Segment?)
    reads Nodes(t)`parent, Nodes(t)`link, Nodes(t)`red
  {
    t.Leaf? || (
      && t.n.parent == parent && t.n.red == t.red
      && t.n.link == [Root(t.left), Root(t.right)]
      && Shape(t.left, t.n) && Shape(t.right, t.n))
  }

  ghost predicate PathShape(c: Path, child: Segment?)
    reads PathNodes(c)`parent, PathNodes(c)`link, PathNodes(c)`red
  {
    c.Top? || (
      && c.n.parent == Below(c.up) && c.n.red == c.red
      && |c.n.link| == 2 && c.n.link[c.dir] == child && c.n.link[1 - c.dir] == Root(c.other)
      && Shape(c.other, c.n) && PathShape(c.up, c.n))
  }

  lemma {:induction false} PlugNodes(c: Path, t: Tree)
    ensures Nodes(Plug(c, t)) == PathNodes(c) + Nodes(t)
  {
    if c.Up? { PlugNodes(c.up, Join(c.dir, t, c.n, c.red, c.other)); }
  }

  lemma {:induction false} PlugShape(c: Path, t: Tree)
    requires PathShape(c, Root(t)) && Shape(t, Below(c))
    requires PathDistinct(c) && Distinct(t) && PathNodes(c) !! Nodes(t)
    ensures Shape(Plug(c, t), null) && Distinct(Plug(c, t))
    ensures Root(Plug(c, t)) == if c.Top? then Root(t) else PathRoot(c)
  {
    if c.Up? { PlugShape(c.up, Join(c.dir, t, c.n, c.red, c.other)); }
  }

  // ---------------------------------------------------------------- red-black rules

  function IsRed(t: Tree): (r: bool) { t.Node? && t.red }

  function BlackHeight(t: Tree): (r: nat) {
    if t.Leaf? then 0 else BlackHeight(t.left) + if t.red then 0 else 1
  }

  /** No red node has a red child; every way down has the same number of black nodes. */
  ghost predicate RedBlack(t: Tree) {
    t.Leaf? || (
      && RedBlack(t.left) && RedBlack(t.right) && BlackHeight(t.left) == BlackHeight(t.right)
      && (t.red ==> !IsRed(t.left) && !IsRed(t.right)))
  }

  ghost predicate PathRed(c: Path) { c.Up? && c.red }

  /** The surroundings of a position that wants a tree of black height h; the root is black. */
  ghost predicate PathRedBlack(c: Path, h: nat) {
    c.Top? || (
      && RedBlack(c.other) && BlackHeight(c.other) == h
      && (c.red ==> !IsRed(c.other) && c.up.Up? && !c.up.red)
      && PathRedBlack(c.up, if c.red then h else h + 1))
  }

  lemma {:induction false} PlugRedBlack(c: Path, t: Tree)
    requires PathRedBlack(c, BlackHeight(t)) && RedBlack(t)
    requires IsRed(t) ==> c.Up? && !c.red
    ensures RedBlack(Plug(c, t)) && !IsRed(Plug(c, t))
  {
    if c.Up? { PlugRedBlack(c.up, Join(c.dir, t, c.n, c.red, c.other)); }
  }

  lemma {:induction false} UnplugRedBlack(c: Path, t: Tree)
    requires RedBlack(Plug(c, t)) && !IsRed(Plug(c, t))
    ensures RedBlack(t) && PathRedBlack(c, BlackHeight(t)) && (IsRed(t) ==> c.Up? && !c.red)
  {
    if c.Up? { UnplugRedBlack(c.up, Join(c.dir, t, c.n, c.red, c.other)); }
  }

  // ---------------------------------------------------------------- insertion

  /** The heap holds `sub` at the end of path c, and nothing else reaches these nodes. */
  ghost predicate Placed(c: Path, sub: Tree)
    reads PathNodes(c)`parent, PathNodes(c)`link, PathNodes(c)`red, Nodes(sub)`parent, Nodes(sub)`link, Nodes(sub)`red
  {
    && PathDistinct(c) && Distinct(sub) && PathNodes(c) !! Nodes(sub)
    && PathShape(c, Root(sub)) && Shape(sub, Below(c))
  }

  /** A well-formed index: the heap shape of t, without parent above the root, and red-black. */
  ghost predicate Index(root: Segment?, t: Tree)
    reads Nodes(t)`parent, Nodes(t)`link, Nodes(t)`red
  {
    root == Root(t) && Shape(t, null) && Distinct(t) && RedBlack(t) && !IsRed(t)
  }

  /** Overwrites the link that leads to g: the root variable, or a link of g's parent. */
  method Relink(root: Segment?, g: Segment, s: Segment, ghost up: Path) returns (r: Segment?)
    requires g.parent == Below(up) && g !in PathNodes(up)
    requires PathShape(up, g) && PathDistinct(up)
    modifies PathNodes(up)`link
    ensures PathShape(up, s) && r == if up.Top? then s else root
  {
    r := root;
    if g.parent == null {
      r := s;
    } else {
      ghost var gg := g.parent;
      if g.parent.link[1] == g {
        g.parent.link := g.parent.link[1 := s];
      } else {
        g.parent.link := g.parent.link[0 := s];
      }
      assert Shape(up.other, gg) && PathShape(up.up, gg);
    }
  }

  /** Hands a possibly empty subtree over to a new parent. */
  method Adopt(child: Segment?, parent: Segment, ghost t: Tree, ghost was: Segment?)
    requires child == Root(t) && Shape(t, was) && Distinct(t)
    modifies Nodes(t)`parent
    ensures Shape(t, parent)
  {
    if child != null {
      child.parent := parent;
      assert Shape(t.left, t.n) && Shape(t.right, t.n);
    }
  }

  /** One node of the heap, seen from direction dir: its parent, colour and both links. */
  ghost predicate Cell(n: Segment, parent: Segment?, red: bool, dir: Dir, a: Segment?, b: Segment?)
    reads n
  {
    n.parent == parent && n.red == red && |n.link| == 2 && n.link[dir] == a && n.link[1 - dir] == b
  }

  lemma JoinShape(dir: Dir, a: Tree, n: Segment, red: bool, b: Tree, parent: Segment?)
    ensures Shape(Join(dir, a, n, red, b), parent) <==>
      Cell(n, parent, red, dir, Root(a), Root(b)) && Shape(a, n) && Shape(b, n)
    ensures Distinct(Join(dir, a, n, red, b)) <==>
      n !in Nodes(a) && n !in Nodes(b) && Nodes(a) !! Nodes(b) && Distinct(a) && Distinct(b)
    ensures Nodes(Join(dir, a, n, red, b)) == Nodes(a) + {n} + Nodes(b)
  {
  }

  /**
    Case 4: n is the inner grandchild of g.  Rotate on p, then on g.  `all` holds every node of
    the index.
   */
  method RotateTwice(root: Segment?, g: Segment, p: Segment, n: Segment, dir: Dir, ghost all: set<Segment>,
                     ghost up: Path, ghost one: Tree, ghost two: Tree, ghost three: Tree, ghost u: Tree)
    returns (r: Segment?)
    requires g != p && g != n && p != n
    requires {g, p, n} !! PathNodes(up) !! Nodes(one) !! Nodes(two) !! Nodes(three) !! Nodes(u)
    requires {g, p, n} + PathNodes(up) + Nodes(one) + Nodes(two) + Nodes(three) + Nodes(u) <= all
    requires PathShape(up, g) && PathDistinct(up) && Distinct(two) && Distinct(three)
    requires Cell(g, Below(up), false, dir, p, Root(u)) && Shape(u, g)
    requires Cell(p, g, true, dir, Root(one), n) && Shape(one, p)
    requires Cell(n, p, true, dir, Root(two), Root(three)) && Shape(two, n) && Shape(three, n)
    modifies all`parent, all`link, all`red
    ensures PathShape(up, n) && r == if up.Top? then n else root
    ensures Cell(n, Below(up), false, dir, p, g)
    ensures Cell(p, n, true, dir, Root(one), Root(two)) && Shape(one, p) && Shape(two, p)
    ensures Cell(g, n, true, dir, Root(three), Root(u)) && Shape(three, g) && Shape(u, g)
  {
    hide Shape, PathShape, Nodes, PathNodes, Distinct, PathDistinct, Below;
    var two', three' := n.link[dir], n.link[1 - dir];
    r := RotateTwiceLinks(root, g, p, n, dir, up);
    AdoptBoth(two', p, three', g, n, two, three, all);
    n.red := false;
    g.red := true;
  }

  /** The links of case 4, between g, p, n and above them. */
  method RotateTwiceLinks(root: Segment?, g: Segment, p: Segment, n: Segment, dir: Dir, ghost up: Path)
    returns (r: Segment?)
    requires g != p && g != n && p != n && {g, p, n} !! PathNodes(up)
    requires |g.link| == |p.link| == |n.link| == 2
    requires g.parent == Below(up) && PathShape(up, g) && PathDistinct(up)
    modifies PathNodes(up)`link, {g, p, n}`link, {p, n, g}`parent
    ensures Cell(g, n, old(g.red), dir, old(n.link)[1 - dir], old(g.link)[1 - dir])
    ensures Cell(p, n, old(p.red), dir, old(p.link)[dir], old(n.link)[dir])
    ensures Cell(n, Below(up), old(n.red), dir, p, g)
    ensures PathShape(up, n) && r == if up.Top? then n else root
  {
    hide Shape, PathShape, Nodes, PathNodes, Distinct, PathDistinct;
    var two, three := n.link[dir], n.link[1 - dir];
    p.link := p.link[1 - dir := two];
    g.link := g.link[dir := three];
    n.link := n.link[dir := p];
    n.link := n.link[1 - dir := g];
    r := Relink(root, g, n, up);
    n.parent := g.parent;
    p.parent := n;
    g.parent := n;
  }

  /** The links of case 5, between g, p and above them. */
  method RotateOnceLinks(root: Segment?, g: Segment, p: Segment, dir: Dir, ghost up: Path)
    returns (r: Segment?)
    requires g != p && {g, p} !! PathNodes(up)
    requires |g.link| == |p.link| == 2
    requires g.parent == Below(up) && PathShape(up, g) && PathDistinct(up)
    modifies PathNodes(up)`link, {g, p}`link, {g, p}`parent
    ensures Cell(g, p, old(g.red), dir, old(p.link)[1 - dir], old(g.link)[1 - dir])
    ensures Cell(p, Below(up), old(p.red), dir, old(p.link)[dir], g)
    ensures PathShape(up, p) && r == if up.Top? then p else root
  {
    hide Shape, PathShape, Nodes, PathNodes, Distinct, PathDistinct;
    var three := p.link[1 - dir];
    g.link := g.link[dir := three];
    p.link := p.link[1 - dir := g];
    r := Relink(root, g, p, up);
    p.parent := g.parent;
    g.parent := p;
  }

  method AdoptBoth(two': Segment?, p: Segment, three': Segment?, g: Segment, ghost n: Segment,
                   ghost two: Tree, ghost three: Tree, ghost all: set<Segment>)
    requires Nodes(two) + Nodes(three) <= all
    requires two' == Root(two) && Shape(two, n) && Distinct(two)
    requires three' == Root(three) && Shape(three, n) && Distinct(three)
    requires Nodes(two) !! Nodes(three)
    modifies Nodes(two)`parent, Nodes(three)`parent
    ensures Shape(two, p) && Shape(three, g)
  {
    hide Shape, Distinct;
    Adopt(two', p, two, n);
    Adopt(three', g, three, n);
  }

  /** Case 5: n, the root of t, is the outer grandchild of g.  Rotate on g. */
  method RotateOnce(root: Segment?, g: Segment, p: Segment, dir: Dir, ghost all: set<Segment>,
                    ghost up: Path, ghost t: Tree, ghost three: Tree, ghost u: Tree)
    returns (r: Segment?)
    requires g != p
    requires {g, p} !! PathNodes(up) !! Nodes(t) !! Nodes(three) !! Nodes(u)
    requires {g, p} + PathNodes(up) + Nodes(t) + Nodes(three) + Nodes(u) <= all
    requires PathShape(up, g) && PathDistinct(up) && Distinct(three)
    requires Cell(g, Below(up), false, dir, p, Root(u)) && Shape(u, g)
    requires Cell(p, g, true, dir, Root(t), Root(three)) && Shape(t, p) && Shape(three, p)
    modifies all`parent, all`link, all`red
    ensures PathShape(up, p) && r == if up.Top? then p else root
    ensures Cell(p, Below(up), false, dir, Root(t), g) && Shape(t, p)
    ensures Cell(g, p, true, dir, Root(three), Root(u)) && Shape(three, g) && Shape(u, g)
  {
    hide Shape, PathShape, Nodes, PathNodes, Distinct, PathDistinct, Below;
    var three' := p.link[1 - dir];
    r := RotateOnceLinks(root, g, p, dir, up);
    Adopt(three', g, three, p);
    g.red := true;
    p.red := false;
  }

  lemma JoinInOrder(dir: Dir, a: Tree, n: Segment, red: bool, b: Tree)
    ensures InOrder(Join(dir, a, n, red, b)) ==
      if dir == 1 then InOrder(b) + [n] + InOrder(a) else InOrder(a) + [n] + InOrder(b)
  {
  }

  lemma RotateOnceKeepsOrder(dir: Dir, t: Tree, three: Tree, u: Tree, g: Segment, p: Segment)
    ensures InOrder(Join(dir, Join(dir, t, p, true, three), g, false, u))
         == InOrder(Join(dir, t, p, false, Join(dir, three, g, true, u)))
  {
    hide InOrder, Join;
    JoinInOrder(dir, t, p, true, three);
    JoinInOrder(dir, three, g, true, u);
    JoinInOrder(dir, Join(dir, t, p, true, three), g, false, u);
    JoinInOrder(dir, t, p, false, Join(dir, three, g, true, u));
    var a, c, d := InOrder(t), InOrder(three), InOrder(u);
    assert if dir == 1 then d + [g] + (c + [p] + a) == (d + [g] + c) + [p] + a
      else (a + [p] + c) + [g] + d == a + [p] + (c + [g] + d);
  }

  lemma FlattenLeft(a: seq<Segment>, p: seq<Segment>, b: seq<Segment>, n: seq<Segment>,
                    c: seq<Segment>, g: seq<Segment>, d: seq<Segment>)
    ensures (a + p + (b + n + c)) + g + d == (a + p + b) + n + (c + g + d)
    ensures a + p + ((b + n + c) + g + d) == (a + p + b) + n + (c + g + d)
  {
    var m := a + p + b + n;
    Assoc(a + p, b + n, c);
    Assoc(a + p, b, n);
    Assoc(m, c + g, d);
    Assoc(m, c, g);
    Assoc(a + p, (b + n + c) + g, d);
    Assoc(a + p, b + n + c, g);
  }

  lemma BeforeTwice(dir: Dir, one: Tree, two: Tree, three: Tree, u: Tree, g: Segment, p: Segment, n: Segment)
    ensures InOrder(Join(dir, Join(1 - dir, Join(dir, two, n, true, three), p, true, one), g, false, u)) ==
      if dir == 1
      then InOrder(u) + [g] + ((InOrder(three) + [n] + InOrder(two)) + [p] + InOrder(one))
      else (InOrder(one) + [p] + (InOrder(two) + [n] + InOrder(three))) + [g] + InOrder(u)
  {
    hide InOrder, Join;
    var tn := Join(dir, two, n, true, three);
    JoinInOrder(dir, two, n, true, three);
    JoinInOrder(1 - dir, tn, p, true, one);
    JoinInOrder(dir, Join(1 - dir, tn, p, true, one), g, false, u);
  }

  lemma AfterTwice(dir: Dir, one: Tree, two: Tree, three: Tree, u: Tree, g: Segment, p: Segment, n: Segment)
    ensures InOrder(Join(dir, Join(1 - dir, two, p, true, one), n, false, Join(dir, three, g, true, u))) ==
      if dir == 1
      then (InOrder(u) + [g] + InOrder(three)) + [n] + (InOrder(two) + [p] + InOrder(one))
      else (InOrder(one) + [p] + InOrder(two)) + [n] + (InOrder(three) + [g] + InOrder(u))
  {
    hide InOrder, Join;
    JoinInOrder(1 - dir, two, p, true, one);
    JoinInOrder(dir, three, g, true, u);
    JoinInOrder(dir, Join(1 - dir, two, p, true, one), n, false, Join(dir, three, g, true, u));
  }

  /** A double rotation is a rotation on p followed by one on g. */
  lemma RotateTwiceKeepsOrder(dir: Dir, one: Tree, two: Tree, three: Tree, u: Tree, g: Segment, p: Segment, n: Segment)
    ensures InOrder(Join(dir, Join(1 - dir, Join(dir, two, n, true, three), p, true, one), g, false, u))
         == InOrder(Join(dir, Join(1 - dir, two, p, true, one), n, false, Join(dir, three, g, true, u)))
  {
    hide *;
    BeforeTwice(dir, one, two, three, u, g, p, n);
    AfterTwice(dir, one, two, three, u, g, p, n);
    var a, b, c, d := InOrder(one), InOrder(two), InOrder(three), InOrder(u);
    if dir == 1 {
      FlattenLeft(d, [g], c, [n], b, [p], a);
    } else {
      FlattenLeft(a, [p], b, [n], c, [g], d);
    }
  }

  method Blacken(n: Segment, ghost t: Tree, ghost parent: Segment?)
    requires t.Node? && t.n == n && Distinct(t) && Shape(t, parent)
    modifies n`red
    ensures Shape(t.(red := false), parent)
  {
    assert Shape(t.left, n) && Shape(t.right, n);
    n.red := false;
  }

  /** Case 3: p and its sibling u are red; g takes the red of both. */
  method Recolor(g: Segment, p: Segment, u: Segment, ghost all: set<Segment>,
                 ghost up: Path, ghost t: Tree, ghost tu: Tree)
    requires t.Node? && t.n == p && tu.Node? && tu.n == u && Distinct(t) && Distinct(tu)
    requires {g} !! PathNodes(up) !! Nodes(t) !! Nodes(tu)
    requires PathNodes(up) + Nodes(t) + Nodes(tu) + {g} <= all
    requires PathShape(up, g) && Shape(t, g) && Shape(tu, g)
    modifies g`red, p`red, u`red
    ensures PathShape(up, g) && Shape(t.(red := false), g) && Shape(tu.(red := false), g)
    ensures g.red && g.link == old(g.link) && g.parent == old(g.parent)
  {
    hide Shape, PathShape, Nodes, PathNodes, Distinct, InOrder, RedBlack;
    RecolorKeeps(t);
    RecolorKeeps(tu);
    Blacken(p, t, g);
    Blacken(u, tu, g);
    g.red := true;
  }

  /** Changing the colour of the root changes neither nodes nor order. */
  lemma RecolorKeeps(t: Tree)
    requires t.Node?
    ensures var t' := t.(red := false);
      && t.n in Nodes(t) && Nodes(t') == Nodes(t) && InOrder(t') == InOrder(t)
      && (Distinct(t) ==> Distinct(t')) && (RedBlack(t) ==> RedBlack(t'))
  {
  }

  /** What the insertion loop keeps: all is well except for a red child of a red node at n. */
  ghost predicate Pending(root: Segment?, c: Path, sub: Tree, all: set<Segment>, order: seq<Segment>)
    reads PathNodes(c)`parent, PathNodes(c)`link, PathNodes(c)`red, Nodes(sub)`parent, Nodes(sub)`link, Nodes(sub)`red
  {
    && sub.Node? && sub.red && Placed(c, sub) && PathNodes(c) + Nodes(sub) == all
    && RedBlack(sub) && PathRedBlack(c, BlackHeight(sub))
    && Before(c) + InOrder(sub) + After(c) == order
    && (c.Up? ==> root == PathRoot(c))
  }

  /** A black tree in place of the pending one completes the index. */
  lemma Complete(root: Segment?, c: Path, t: Tree)
    requires Placed(c, t) && RedBlack(t) && PathRedBlack(c, BlackHeight(t)) && (IsRed(t) ==> c.Up? && !c.red)
    requires if c.Up? then root == PathRoot(c) else root == Root(t)
    ensures Index(root, Plug(c, t)) && Nodes(Plug(c, t)) == PathNodes(c) + Nodes(t)
    ensures InOrder(Plug(c, t)) == Before(c) + InOrder(t) + After(c)
  {
    PlugShape(c, t);
    PlugRedBlack(c, t);
    PlugNodes(c, t);
    PlugInOrder(c, t);
  }

  /** Opens one step of a path. */
  lemma OpenPath(c: Path, child: Segment?)
    requires c.Up? && PathShape(c, child) && PathDistinct(c)
    ensures Cell(c.n, Below(c.up), c.red, c.dir, child, Root(c.other)) && Shape(c.other, c.n)
    ensures PathShape(c.up, c.n) && PathDistinct(c.up) && Distinct(c.other)
    ensures {c.n} !! PathNodes(c.up) !! Nodes(c.other) && PathNodes(c) == PathNodes(c.up) + Nodes(c.other) + {c.n}
    ensures child != null && child !in Nodes(c.other) ==> (c.n.link[1] == child <==> c.dir == 1)
  {
    assert c.other.Node? ==> c.other.n in Nodes(c.other);
  }

  /** The neighbourhood of a pending node whose parent is red, spelled out. */
  lemma Neighbourhood(root: Segment?, c: Path, sub: Tree, all: set<Segment>, order: seq<Segment>)
    requires Pending(root, c, sub, all, order) && c.Up? && c.red && c.up.Up?
    ensures var p, g, up, one, u := c.n, c.up.n, c.up.up, c.other, c.up.other;
      && Cell(g, Below(up), c.up.red, c.up.dir, p, Root(u)) && Shape(u, g)
      && Cell(p, g, true, c.dir, sub.n, Root(one)) && Shape(one, p) && Shape(sub, p)
      && g != p && {g, p} !! PathNodes(up) !! Nodes(sub) !! Nodes(one) !! Nodes(u)
      && PathShape(up, g) && PathDistinct(up) && Distinct(sub) && Distinct(one) && Distinct(u)
      && PathNodes(up) + Nodes(sub) + Nodes(one) + Nodes(u) + {g, p} == all
    ensures (c.up.n.link[1] == c.n <==> c.up.dir == 1) && (c.n.link[1] == sub.n <==> c.dir == 1)
  {
    assert sub.n in Nodes(sub);
    hide Shape, PathShape, PathDistinct, Distinct, Nodes, PathNodes, RedBlack, PathRedBlack, InOrder, Before, After,
      BlackHeight;
    OpenPath(c, sub.n);
    OpenPath(c.up, c.n);
  }

  lemma NeighbourhoodColours(root: Segment?, c: Path, sub: Tree, all: set<Segment>, order: seq<Segment>)
    requires Pending(root, c, sub, all, order) && c.Up? && c.red
    ensures c.up.Up? && !c.up.red
    ensures var up, one, u, h := c.up.up, c.other, c.up.other, BlackHeight(sub);
      && RedBlack(one) && RedBlack(u) && BlackHeight(one) == h && BlackHeight(u) == h && !IsRed(one)
      && PathRedBlack(up, h + 1)
    ensures var p, g, up, one, u := c.n, c.up.n, c.up.up, c.other, c.up.other;
      Before(up) + InOrder(Join(c.up.dir, Join(c.dir, sub, p, true, one), g, false, u)) + After(up) == order
    ensures root == if c.up.up.Top? then c.up.n else PathRoot(c.up.up)
  {
    hide Shape, PathShape, PathDistinct, Distinct, Nodes, PathNodes, InOrder, Before, After;
    var h := BlackHeight(sub);
    assert PathRedBlack(c, h);
    assert PathRedBlack(c.up, h);
    assert PathRoot(c) == PathRoot(c.up);
    RegroupPath(c, sub);
  }

  /** Opening the two innermost steps of a path does not change the order. */
  lemma RegroupPath(c: Path, sub: Tree)
    requires c.Up? && c.up.Up?
    ensures Before(c) + InOrder(sub) + After(c) ==
      Before(c.up.up)
      + InOrder(Join(c.up.dir, Join(c.dir, sub, c.n, c.red, c.other), c.up.n, c.up.red, c.up.other))
      + After(c.up.up)
  {
    PlugInOrder(c, sub);
    PlugInOrder(c.up.up, Join(c.up.dir, Join(c.dir, sub, c.n, c.red, c.other), c.up.n, c.up.red, c.up.other));
  }

  lemma JoinRedBlack(dir: Dir, a: Tree, n: Segment, red: bool, b: Tree)
    ensures RedBlack(Join(dir, a, n, red, b)) <==>
      RedBlack(a) && RedBlack(b) && BlackHeight(a) == BlackHeight(b) && (red ==> !IsRed(a) && !IsRed(b))
    ensures BlackHeight(a) == BlackHeight(b) ==>
      BlackHeight(Join(dir, a, n, red, b)) == BlackHeight(a) + if red then 0 else 1
    ensures IsRed(Join(dir, a, n, red, b)) == red && Root(Join(dir, a, n, red, b)) == n
  {
  }

  lemma Assemble(up: Path, dir: Dir, a: Tree, n: Segment, red: bool, b: Tree)
    requires {n} !! PathNodes(up) !! Nodes(a) !! Nodes(b)
    requires PathShape(up, n) && PathDistinct(up) && Distinct(a) && Distinct(b)
    requires Cell(n, Below(up), red, dir, Root(a), Root(b)) && Shape(a, n) && Shape(b, n)
    ensures Placed(up, Join(dir, a, n, red, b))
    ensures Nodes(Join(dir, a, n, red, b)) == Nodes(a) + {n} + Nodes(b)
  {
    JoinShape(dir, a, n, red, b, Below(up));
  }

  lemma JoinNode(dir: Dir, a: Tree, n: Segment, red: bool, b: Tree)
    ensures var t := Join(dir, a, n, red, b);
      t.Node? && t.n == n && t.red == red && t.(red := false) == Join(dir, a, n, false, b)
  {
  }

  lemma BlackerHeight(t: Tree)
    requires IsRed(t)
    ensures BlackHeight(t.(red := false)) == BlackHeight(t) + 1
  {
  }

  /** The pending node's uncle is red: recolour and move two levels up. */
  method FixRecolor(root: Segment?, p: Segment, g: Segment, u: Segment,
                    ghost c: Path, ghost sub: Tree, ghost all: set<Segment>, ghost order: seq<Segment>)
    returns (ghost sub': Tree)
    requires Pending(root, c, sub, all, order) && c.Up? && c.red && c.up.Up? && p == c.n && g == c.up.n
    requires IsRed(c.up.other) && u == c.up.other.n
    modifies all`parent, all`link, all`red
    ensures Pending(root, c.up.up, sub', all, order) && Root(sub') == g
  {
    hide Shape, PathShape, Distinct, PathDistinct, PathNodes, Nodes, InOrder, Before, After, PathRoot, RedBlack,
      PathRedBlack, BlackHeight, Join;
    ghost var up, tu, one := c.up.up, c.up.other, c.other;
    Neighbourhood(root, c, sub, all, order);
    NeighbourhoodColours(root, c, sub, all, order);
    ghost var tp := Join(c.dir, sub, p, true, one);
    JoinShape(c.dir, sub, p, true, one, g);
    JoinNode(c.dir, sub, p, true, one);
    RecolorKeeps(tp);
    RecolorKeeps(tu);
    Recolor(g, p, u, all, up, tp, tu);
    ghost var tp', tu' := tp.(red := false), tu.(red := false);
    sub' := Join(c.up.dir, tp', g, true, tu');
    JoinNode(c.up.dir, tp', g, true, tu');
    JoinRedBlack(c.dir, sub, p, false, one);
    JoinRedBlack(c.up.dir, tp', g, true, tu');
    BlackerHeight(tu);
    Assemble(up, c.up.dir, tp', g, true, tu');
    JoinInOrder(c.up.dir, tp', g, true, tu');
    JoinInOrder(c.up.dir, tp, g, false, tu);
  }

  /** The pending node's uncle is black: one or two rotations finish the insertion. */
  method FixRotate(root: Segment?, n: Segment, p: Segment, g: Segment, dir: Dir,
                   ghost c: Path, ghost sub: Tree, ghost all: set<Segment>, ghost order: seq<Segment>)
    returns (r: Segment?, ghost t: Tree)
    requires Pending(root, c, sub, all, order) && c.Up? && c.red && c.up.Up?
    requires n == sub.n && p == c.n && g == c.up.n && dir == c.up.dir && !IsRed(c.up.other)
    modifies all`parent, all`link, all`red
    ensures Index(r, t) && InOrder(t) == order && Nodes(t) == all
  {
    hide Shape, PathShape, Distinct, PathDistinct, PathNodes, Nodes, InOrder, Before, After, RedBlack, PathRedBlack,
      BlackHeight, Join, PathRoot;
    ghost var up, u, one := c.up.up, c.up.other, c.other;
    Neighbourhood(root, c, sub, all, order);
    NeighbourhoodColours(root, c, sub, all, order);
    ghost var top;
    if dir != if p.link[1] == n then 1 else 0 {
      r, top := FixInner(root, n, p, g, dir, up, one, sub, u, all);
    } else {
      r, top := FixOuter(root, p, g, dir, up, sub, one, u, all);
    }
    Complete(r, up, top);
    t := Plug(up, top);
  }

  lemma SplitTree(t: Tree, dir: Dir) returns (a: Tree, b: Tree)
    requires t.Node?
    ensures t == Join(dir, a, t.n, t.red, b)
  {
    if dir == 1 { a, b := t.right, t.left; } else { a, b := t.left, t.right; }
  }

  method FixInner(root: Segment?, n: Segment, p: Segment, g: Segment, dir: Dir,
                  ghost up: Path, ghost one: Tree, ghost sub: Tree, ghost u: Tree, ghost all: set<Segment>)
    returns (r: Segment?, ghost top: Tree)
    requires Cell(g, Below(up), false, dir, p, Root(u)) && Shape(u, g)
    requires Cell(p, g, true, 1 - dir, n, Root(one)) && Shape(one, p) && Shape(sub, p)
    requires g != p && {g, p} !! PathNodes(up) !! Nodes(sub) !! Nodes(one) !! Nodes(u)
    requires PathShape(up, g) && PathDistinct(up) && Distinct(sub) && Distinct(one) && Distinct(u)
    requires PathNodes(up) + Nodes(sub) + Nodes(one) + Nodes(u) + {g, p} == all
    requires sub.Node? && sub.red && sub.n == n && RedBlack(sub) && RedBlack(one) && RedBlack(u)
    requires BlackHeight(one) == BlackHeight(u) == BlackHeight(sub) && !IsRed(one) && !IsRed(u)
    modifies all`parent, all`link, all`red
    ensures Placed(up, top) && !IsRed(top) && RedBlack(top) && BlackHeight(top) == BlackHeight(sub) + 1
    ensures InOrder(top) == InOrder(Join(dir, Join(1 - dir, sub, p, true, one), g, false, u))
    ensures PathNodes(up) + Nodes(top) == all && Root(top) == n && r == if up.Top? then n else root
  {
    hide Shape, PathShape, Distinct, PathDistinct, PathNodes, Nodes, InOrder, Join, RedBlack, BlackHeight, IsRed,
      Placed;
    ghost var two, three := SplitTree(sub, dir);
    JoinShape(dir, two, n, true, three, p);
    r := RotateTwice(root, g, p, n, dir, all, up, one, two, three, u);
    ghost var tp', tg' := Join(1 - dir, two, p, true, one), Join(dir, three, g, true, u);
    top := Join(dir, tp', n, false, tg');
    JoinShape(1 - dir, two, p, true, one, n);
    JoinShape(dir, three, g, true, u, n);
    JoinNode(1 - dir, two, p, true, one);
    JoinNode(dir, three, g, true, u);
    JoinNode(dir, tp', n, false, tg');
    Assemble(up, dir, tp', n, false, tg');
    InnerColours(dir, one, two, three, u, g, p, n);
    RotateTwiceKeepsOrder(dir, one, two, three, u, g, p, n);
  }

  lemma InnerColours(dir: Dir, one: Tree, two: Tree, three: Tree, u: Tree, g: Segment, p: Segment, n: Segment)
    ensures RedBlack(Join(dir, two, n, true, three)) && RedBlack(one) && RedBlack(u) && !IsRed(one) && !IsRed(u)
            && BlackHeight(one) == BlackHeight(u) == BlackHeight(Join(dir, two, n, true, three))
            ==> var top := Join(dir, Join(1 - dir, two, p, true, one), n, false, Join(dir, three, g, true, u));
              !IsRed(top) && RedBlack(top) && BlackHeight(top) == BlackHeight(one) + 1
  {
    hide RedBlack, Join, BlackHeight, IsRed;
    var tp', tg' := Join(1 - dir, two, p, true, one), Join(dir, three, g, true, u);
    JoinRedBlack(dir, two, n, true, three);
    JoinRedBlack(1 - dir, two, p, true, one);
    JoinRedBlack(dir, three, g, true, u);
    JoinRedBlack(dir, tp', n, false, tg');
  }

  method FixOuter(root: Segment?, p: Segment, g: Segment, dir: Dir,
                  ghost up: Path, ghost sub: Tree, ghost three: Tree, ghost u: Tree, ghost all: set<Segment>)
    returns (r: Segment?, ghost top: Tree)
    requires Cell(g, Below(up), false, dir, p, Root(u)) && Shape(u, g)
    requires Cell(p, g, true, dir, Root(sub), Root(three)) && Shape(three, p) && Shape(sub, p)
    requires g != p && {g, p} !! PathNodes(up) !! Nodes(sub) !! Nodes(three) !! Nodes(u)
    requires PathShape(up, g) && PathDistinct(up) && Distinct(sub) && Distinct(three) && Distinct(u)
    requires PathNodes(up) + Nodes(sub) + Nodes(three) + Nodes(u) + {g, p} == all
    requires RedBlack(sub) && RedBlack(three) && RedBlack(u)
    requires BlackHeight(three) == BlackHeight(u) == BlackHeight(sub) && !IsRed(three) && !IsRed(u)
    modifies all`parent, all`link, all`red
    ensures Placed(up, top) && !IsRed(top) && RedBlack(top) && BlackHeight(top) == BlackHeight(sub) + 1
    ensures InOrder(top) == InOrder(Join(dir, Join(dir, sub, p, true, three), g, false, u))
    ensures PathNodes(up) + Nodes(top) == all && Root(top) == p && r == if up.Top? then p else root
  {
    hide Shape, PathShape, Distinct, PathDistinct, PathNodes, Nodes, InOrder, Join, RedBlack, BlackHeight, IsRed;
    r := RotateOnce(root, g, p, dir, all, up, sub, three, u);
    ghost var tg' := Join(dir, three, g, true, u);
    top := Join(dir, sub, p, false, tg');
    JoinShape(dir, three, g, true, u, p);
    JoinRedBlack(dir, three, g, true, u);
    JoinRedBlack(dir, sub, p, false, tg');
    Assemble(up, dir, sub, p, false, tg');
    RotateOnceKeepsOrder(dir, sub, three, u, g, p);
  }

  /**
    capn_tree_insert: n has just been linked at the end of path c, an empty position of a valid
    index.  The result is the root of a valid index with n added at that place.
   */
  method TreeInsert(root0: Segment?, n0: Segment, ghost c0: Path, ghost all: set<Segment>)
    returns (root: Segment?, ghost t: Tree)
    requires n0 !in PathNodes(c0) && PathDistinct(c0) && PathShape(c0, n0) && n0.parent == Below(c0)
    requires RedBlack(Plug(c0, Leaf)) && !IsRed(Plug(c0, Leaf))
    requires root0 == if c0.Up? then PathRoot(c0) else null
    requires all == PathNodes(c0) + {n0}
    modifies all`parent, all`link, all`red
    ensures Index(root, t) && InOrder(t) == Before(c0) + [n0] + After(c0) && Nodes(t) == all
  {
    hide PathShape, Distinct, PathDistinct, PathNodes, Nodes, InOrder, Before, After, RedBlack, PathRedBlack,
      BlackHeight, PathRoot, Shape, Plug;
    root := root0;
    n0.red := true;
    n0.link := [null, null];
    var n := n0;
    ghost var c, sub := c0, Node(Leaf, n0, true, Leaf);
    ghost var order := Before(c0) + [n0] + After(c0);
    StartPending(root0, c0, n0, all);
    while true
      invariant Pending(root, c, sub, all, order) && sub.n == n
      decreases c
    {
      var p := n.parent;
      AtParent(root, c, sub, all, order);
      if p == null {
        AtTop(root, c, sub, all, order);
        RecolorKeeps(sub);
        Blacken(n, sub, null);
        root := n;
        t := sub.(red := false);
        return;
      }
      if !p.red {
        t := Plug(c, sub);
        Complete(root, c, sub);
        return;
      }
      NeighbourhoodColours(root, c, sub, all, order);
      Neighbourhood(root, c, sub, all, order);
      var g := p.parent;
      var dir: Dir := if p == g.link[1] then 1 else 0;
      var u := g.link[1 - dir];
      if u != null && u.red {
        sub := FixRecolor(root, p, g, u, c, sub, all, order);
        c := c.up.up;
        n := g;
      } else {
        root, t := FixRotate(root, n, p, g, dir, c, sub, all, order);
        return;
      }
    }
  }

  lemma StartPending(root: Segment?, c: Path, n: Segment, all: set<Segment>)
    requires n !in PathNodes(c) && PathDistinct(c) && PathShape(c, n) && n.parent == Below(c)
    requires RedBlack(Plug(c, Leaf)) && !IsRed(Plug(c, Leaf))
    requires root == if c.Up? then PathRoot(c) else null
    requires all == PathNodes(c) + {n} && n.red && n.link == [null, null]
    ensures Pending(root, c, Node(Leaf, n, true, Leaf), all, Before(c) + [n] + After(c))
  {
    UnplugRedBlack(c, Leaf);
    assert InOrder(Node(Leaf, n, true, Leaf)) == [n];
  }

  /** What the loop's first tests see. */
  lemma AtParent(root: Segment?, c: Path, sub: Tree, all: set<Segment>, order: seq<Segment>)
    requires Pending(root, c, sub, all, order)
    ensures sub.n.parent == Below(c) && (c.Up? ==> c.n.red == c.red && c.n in all)
    ensures c.Up? && c.red && c.up.Up? ==>
      && |c.up.n.link| == 2
      && Root(c.up.other) == c.up.n.link[1 - c.up.dir] && (c.up.other.Node? ==> c.up.other.n.red == c.up.other.red)
  {
    if c.Up? {
      OpenPath(c, sub.n);
      if c.up.Up? { OpenPath(c.up, c.n); }
    }
  }

  lemma AtTop(root: Segment?, c: Path, sub: Tree, all: set<Segment>, order: seq<Segment>)
    requires Pending(root, c, sub, all, order) && c.Top?
    ensures Nodes(sub) == all && InOrder(sub) == order && Shape(sub, null) && Distinct(sub) && RedBlack(sub)
  {
  }
}
