/** The cells of the fe interpreter's heap and what can be reached in it. */
module FeHeap {
  // The numbers by which the code knows the types; KidsByNumber has them written out.
  const FE_TPAIR := 0
  const FE_TFREE := 1
  const FE_TNIL := 2
  const FE_TSYMBOL := 4
  const FE_TSTRING := 5
  const FE_TFUNC := 6
  const FE_TMACRO := 7
  const FE_TPTR := 10

  /** The type of a cell is in the low byte of its car word; an even word is a pair's pointer. */
  function Type(w: nat): (r: nat) {
    if w % 2 == 1 then w % 256 / 4 else 0
  }

  /** GCMARKBIT is bit 1 of the car word. */
  predicate Marked(w: nat) { w / 2 % 2 == 1 }

  function Mark(w: nat): (r: nat) { if Marked(w) then w else w + 2 }

  function Unmark(w: nat): (r: nat) { if Marked(w) then w - 2 else w }

  function SetType(w: nat, t: nat): (r: nat) { w - w % 256 + t * 4 + 1 }

  /** The fields of a word: the mark is bit 1, bit 0 says whether bits 2-7 are a type. */
  lemma Bits(q: nat, r: nat)
    requires r < 4
    ensures Marked(4 * q + r) <==> r >= 2
    ensures Type(4 * q + r) == if r % 2 == 1 then q % 64 else 0
  {
    var w, a, b := 4 * q + r, q / 64, q % 64;
    assert w == 256 * a + (4 * b + r);
    Rem256(a, 4 * b + r);
    Quot4(b, r);
    Half(q, r);
  }

  lemma Rem256(a: nat, r: nat)
    requires r < 256
    ensures (256 * a + r) % 256 == r
  {
  }

  lemma Rem64(a: nat, r: nat)
    requires r < 64
    ensures (64 * a + r) % 64 == r
  {
  }

  lemma Quot4(b: nat, r: nat)
    requires r < 4
    ensures (4 * b + r) / 4 == b
  {
  }

  lemma Half(q: nat, r: nat)
    requires r < 4
    ensures (4 * q + r) % 2 == r % 2
    ensures (4 * q + r) / 2 % 2 == r / 2
  {
    assert (4 * q + r) / 2 == 2 * q + r / 2;
  }

  lemma MarkBits(w: nat)
    ensures Type(Mark(w)) == Type(w) && Marked(Mark(w)) && Type(Unmark(w)) == Type(w) && !Marked(Unmark(w))
    ensures Unmark(Mark(w)) == Unmark(w)
    ensures !Marked(w) ==> Unmark(w) == w
    ensures Marked(w) ==> w == Unmark(w) + 2
  {
    hide Type, Marked;
    var q, r := w / 4, w % 4;
    assert w == 4 * q + r;
    Bits(q, r);
    if r >= 2 { Bits(q, r - 2); } else { Bits(q, r + 2); }
  }

  lemma SetTypeBits(w: nat, t: nat)
    requires t < 64
    ensures Type(SetType(w, t)) == t && !Marked(SetType(w, t))
  {
    hide Type, Marked;
    var q := w / 256;
    assert w - w % 256 == 256 * q;
    assert SetType(w, t) == 4 * (64 * q + t) + 1;
    hide SetType;
    Rem64(q, t);
    Bits(64 * q + t, 1);
  }

  /** The word that points to cell i; cells are 16 bytes, so its low bits are free. */
  function Addr(i: nat): (r: nat) { 16 * (i + 1) }

  /** A word that points to one of cells 0..count, where cell 0 is the static nil. */
  predicate IsRef(w: nat, count: nat) { w % 16 == 0 && 1 <= w / 16 <= count + 1 }

  function Deref(w: nat, count: nat): (i: nat)
    requires IsRef(w, count)
    ensures i <= count && Addr(i) == w
  {
    w / 16 - 1
  }

  lemma DerefAddr(i: nat, count: nat)
    requires i <= count
    ensures IsRef(Addr(i), count) && Deref(Addr(i), count) == i && !Marked(Addr(i)) && Type(Addr(i)) == 0
  {
    Bits(4 * (i + 1), 0);
    hide Type, Marked;
  }

  /** The words of all cells, without mark bits. */
  datatype Cells = Cells(car: seq<nat>, cdr: seq<nat>)

  predicate UsesCdr(t: nat) {
    t == FE_TPAIR || t == FE_TFUNC || t == FE_TMACRO || t == FE_TSYMBOL || t == FE_TSTRING
  }

  /** Every pointer that marking follows points to a cell. */
  ghost predicate WellFormed(h: Cells, count: nat) {
    && |h.car| == |h.cdr| == count + 1
    && Type(h.car[0]) == 2
    && (forall i :: 0 <= i <= count ==> !Marked(h.car[i]))
    && (forall i :: 0 <= i <= count && Type(h.car[i]) == 0 ==> IsRef(h.car[i], count))
    && (forall i :: 0 <= i <= count && UsesCdr(Type(h.car[i])) ==> IsRef(h.cdr[i], count))
  }

  /** The cells a cell refers to, by its type. */
  ghost function Kids(h: Cells, count: nat, i: nat): (r: set<nat>)
    requires WellFormed(h, count) && i <= count
    ensures forall k :: k in r ==> k <= count
  {
    var t := Type(h.car[i]);
    if t == FE_TPAIR then {Deref(h.car[i], count), Deref(h.cdr[i], count)}
    else if UsesCdr(t) then {Deref(h.cdr[i], count)}
    else {}
  }

  /**
    By the numbers of the types: pairs (0) refer by both words, symbols, strings, functions and macros
    (4 to 7) by their cdr, and others by none.
   */
  lemma KidsByNumber(h: Cells, count: nat, i: nat)
    requires WellFormed(h, count) && i <= count
    ensures Type(h.car[i]) == 0 ==> IsRef(h.car[i], count) && IsRef(h.cdr[i], count)
    ensures Type(h.car[i]) == 0 ==> Kids(h, count, i) == {Deref(h.car[i], count), Deref(h.cdr[i], count)}
    ensures Type(h.car[i]) in {4, 5, 6, 7} ==> IsRef(h.cdr[i], count) && Kids(h, count, i) == {Deref(h.cdr[i], count)}
    ensures Type(h.car[i]) !in {0, 4, 5, 6, 7} ==> Kids(h, count, i) == {}
  {
    hide Type, IsRef;
  }

  /** A way through the heap, each cell referring to the next. */
  ghost predicate Path(h: Cells, count: nat, p: seq<nat>)
    requires WellFormed(h, count)
  {
    && |p| > 0 && (forall k :: 0 <= k < |p| ==> p[k] <= count)
    && (forall j, k {:trigger p[j], p[k]} :: 0 <= j && k == j + 1 < |p| ==> p[k] in Kids(h, count, p[j]))
  }

  ghost predicate Reachable(h: Cells, count: nat, roots: set<nat>, i: nat)
    requires WellFormed(h, count)
  {
    exists p :: Path(h, count, p) && p[0] in roots && p[|p| - 1] == i
  }

  lemma RootReachable(h: Cells, count: nat, roots: set<nat>, i: nat)
    requires WellFormed(h, count) && i in roots && i <= count
    ensures Reachable(h, count, roots, i)
  {
    assert Path(h, count, [i]);
  }

  lemma KidReachable(h: Cells, count: nat, roots: set<nat>, i: nat, k: nat)
    requires WellFormed(h, count) && i <= count && Reachable(h, count, roots, i) && k in Kids(h, count, i)
    ensures Reachable(h, count, roots, k)
  {
    var p :| Path(h, count, p) && p[0] in roots && p[|p| - 1] == i;
    var q := p + [k];
    assert Path(h, count, q) && q[0] in roots && q[|q| - 1] == k;
  }

  lemma KidsReachable(h: Cells, count: nat, roots: set<nat>, i: nat)
    requires WellFormed(h, count) && i <= count && Reachable(h, count, roots, i)
    ensures forall k :: k in Kids(h, count, i) ==> Reachable(h, count, roots, k)
  {
    forall k | k in Kids(h, count, i) ensures Reachable(h, count, roots, k) {
      KidReachable(h, count, roots, i, k);
    }
  }

  /** The cells 0..n. */
  ghost function UpTo(n: nat): (r: set<nat>)
    ensures forall k: nat :: k in r <==> k <= n
  {
    if n == 0 then {0} else UpTo(n - 1) + {n}
  }

  /** Contains the roots and every kid of its members. */
  ghost predicate ClosedFrom(h: Cells, count: nat, roots: set<nat>, m: set<nat>)
    requires WellFormed(h, count)
  {
    roots <= m && forall i :: i in m && i <= count ==> Kids(h, count, i) <= m
  }

  lemma {:induction false} ClosedHasReachable(h: Cells, count: nat, roots: set<nat>, m: set<nat>, p: seq<nat>)
    requires WellFormed(h, count) && ClosedFrom(h, count, roots, m)
    requires Path(h, count, p) && p[0] in roots
    ensures p[|p| - 1] in m
    decreases |p|
  {
    hide Kids, WellFormed;
    if |p| > 1 {
      var n := |p| - 1;
      var q := p[..n];
      assert p[n] in Kids(h, count, p[n - 1]);
      assert forall k :: 0 <= k < n ==> q[k] == p[k];
      ClosedHasReachable(h, count, roots, m, q);
    }
  }

  /** The cells that can be reached from the roots. */
  ghost function ReachSet(h: Cells, count: nat, roots: set<nat>): (r: set<nat>)
    requires WellFormed(h, count)
  {
    set i: nat | i <= count && Reachable(h, count, roots, i)
  }

  /** It is the least set that has the roots and is closed. */
  lemma ReachWithin(h: Cells, count: nat, roots: set<nat>, m: set<nat>)
    requires WellFormed(h, count) && ClosedFrom(h, count, roots, m)
    ensures ReachSet(h, count, roots) <= m
  {
    forall i | i in ReachSet(h, count, roots) ensures i in m {
      var p :| Path(h, count, p) && p[0] in roots && p[|p| - 1] == i;
      ClosedHasReachable(h, count, roots, m, p);
    }
  }

  lemma ReachSetClosed(h: Cells, count: nat, roots: set<nat>)
    requires WellFormed(h, count) && forall i :: i in roots ==> i <= count
    ensures ClosedFrom(h, count, roots, ReachSet(h, count, roots))
  {
    hide WellFormed, Kids, Reachable;
    forall i | i in roots ensures Reachable(h, count, roots, i) {
      RootReachable(h, count, roots, i);
    }
    forall i | i in ReachSet(h, count, roots) ensures Kids(h, count, i) <= ReachSet(h, count, roots) {
      KidsReachable(h, count, roots, i);
    }
  }

  /** What such a cell refers to can be reached when it can. */
  lemma NextReached(h: Cells, count: nat, roots: set<nat>, i: nat)
    requires WellFormed(h, count) && i in ReachSet(h, count, roots)
    ensures i <= count
    ensures Type(h.car[i]) in {0, 4, 5, 6, 7} && IsRef(h.cdr[i], count) ==>
      Deref(h.cdr[i], count) in ReachSet(h, count, roots)
    ensures Type(h.car[i]) == 0 && IsRef(h.car[i], count) ==> Deref(h.car[i], count) in ReachSet(h, count, roots)
  {
    hide WellFormed, Kids, Reachable, Type, IsRef;
    KidsByNumber(h, count, i);
    KidsReachable(h, count, roots, i);
  }

  /** Cells that refer to the same cells reach the same. */
  lemma SameKidsReach(h: Cells, h2: Cells, count: nat, roots: set<nat>)
    requires WellFormed(h, count) && WellFormed(h2, count) && forall i :: i in roots ==> i <= count
    requires forall i: nat :: i <= count ==> Kids(h2, count, i) == Kids(h, count, i)
    ensures ReachSet(h2, count, roots) == ReachSet(h, count, roots)
  {
    hide WellFormed, Kids, Reachable;
    ReachSetClosed(h, count, roots);
    ReachSetClosed(h2, count, roots);
    ReachWithin(h2, count, roots, ReachSet(h, count, roots));
    ReachWithin(h, count, roots, ReachSet(h2, count, roots));
  }

  /** The heaps agree on the cells of m. */
  ghost predicate Agree(h: Cells, h2: Cells, count: nat, m: set<nat>)
    requires |h.car| == |h.cdr| == |h2.car| == |h2.cdr| == count + 1
  {
    forall i :: i in m && i <= count ==> h.car[i] == h2.car[i] && h.cdr[i] == h2.cdr[i]
  }

  lemma SameKids(h: Cells, h2: Cells, count: nat, i: nat)
    requires WellFormed(h, count) && WellFormed(h2, count) && i <= count
    requires h.car[i] == h2.car[i] && h.cdr[i] == h2.cdr[i]
    ensures Kids(h2, count, i) == Kids(h, count, i)
  {
    hide Type;
  }

  lemma ClosedElsewhere(h: Cells, h2: Cells, count: nat, roots: set<nat>, m: set<nat>)
    requires WellFormed(h, count) && WellFormed(h2, count) && Agree(h, h2, count, m)
    requires ClosedFrom(h, count, roots, m)
    ensures ClosedFrom(h2, count, roots, m)
  {
    hide WellFormed, Kids;
    forall i | i in m && i <= count ensures Kids(h2, count, i) == Kids(h, count, i) {
      SameKids(h, h2, count, i);
    }
  }

  /** What cannot be reached may be overwritten. */
  lemma SameReach(h: Cells, h2: Cells, count: nat, roots: set<nat>)
    requires WellFormed(h, count) && WellFormed(h2, count) && forall i :: i in roots ==> i <= count
    requires Agree(h, h2, count, ReachSet(h, count, roots))
    ensures ReachSet(h2, count, roots) == ReachSet(h, count, roots)
  {
    hide WellFormed, Kids, Reachable;
    var m, m2 := ReachSet(h, count, roots), ReachSet(h2, count, roots);
    ReachSetClosed(h, count, roots);
    ClosedElsewhere(h, h2, count, roots, m);
    ReachWithin(h2, count, roots, m);
    ReachSetClosed(h2, count, roots);
    ClosedElsewhere(h2, h, count, roots, m2);
    ReachWithin(h, count, roots, m2);
  }

  /** More roots reach more. */
  lemma ReachMonotone(h: Cells, count: nat, roots: set<nat>, more: set<nat>)
    requires WellFormed(h, count) && roots <= more && forall i :: i in more ==> i <= count
    ensures ReachSet(h, count, roots) <= ReachSet(h, count, more)
  {
    ReachSetClosed(h, count, more);
    ReachWithin(h, count, roots, ReachSet(h, count, more));
  }

  /** A new root obj whose kids can be reached already adds only itself. */
  lemma ReachOneMore(h: Cells, h2: Cells, count: nat, roots: set<nat>, obj: nat)
    requires WellFormed(h, count) && WellFormed(h2, count) && obj <= count && forall i :: i in roots ==> i <= count
    requires Agree(h, h2, count, ReachSet(h, count, roots))
    requires Kids(h2, count, obj) <= ReachSet(h, count, roots)
    ensures ReachSet(h2, count, roots + {obj}) == ReachSet(h, count, roots) + {obj}
  {
    hide WellFormed, Kids, Reachable;
    var m, m2 := ReachSet(h, count, roots), ReachSet(h2, count, roots + {obj});
    SameReach(h, h2, count, roots);
    ReachSetClosed(h2, count, roots);
    ReachWithin(h2, count, roots + {obj}, m + {obj});
    ReachMonotone(h2, count, roots, roots + {obj});
    ReachSetClosed(h2, count, roots + {obj});
  }

  /** Giving a childless cell kids that can be reached already adds nothing. */
  lemma ReachFilled(h: Cells, h2: Cells, count: nat, roots: set<nat>, obj: nat)
    requires WellFormed(h, count) && WellFormed(h2, count) && obj <= count && forall i :: i in roots ==> i <= count
    requires Agree(h, h2, count, UpTo(count) - {obj})
    requires Kids(h, count, obj) == {} && Kids(h2, count, obj) <= ReachSet(h, count, roots)
    ensures ReachSet(h2, count, roots) == ReachSet(h, count, roots)
  {
    hide WellFormed, Reachable, Kids;
    var m, m2 := ReachSet(h, count, roots), ReachSet(h2, count, roots);
    ReachSetClosed(h, count, roots);
    ReachSetClosed(h2, count, roots);
    forall i: nat | i <= count && i != obj ensures Kids(h2, count, i) == Kids(h, count, i) {
      SameKids(h, h2, count, i);
    }
    ReachWithin(h2, count, roots, m);
    ReachWithin(h, count, roots, m2);
  }

  /** head starts the chain of the cells `free`, each pointing to the next by its entry in `next`. */
  ghost predicate Chain(next: seq<nat>, head: nat, free: seq<nat>) {
    && head == (if free == [] then 0 else free[0])
    && (forall k :: 0 <= k < |free| ==> 1 <= free[k] < |next|)
    && (forall j, k :: 0 <= j < k < |free| ==> free[j] != free[k])
    && (forall j, k {:trigger free[j], free[k]} :: 0 <= j && k == j + 1 < |free| ==> next[free[j]] == Addr(free[k]))
    && (free != [] ==> next[free[|free| - 1]] == Addr(0))
  }

  lemma ChainPush(next: seq<nat>, head: nat, free: seq<nat>, c: nat)
    requires Chain(next, head, free) && 1 <= c < |next| && c !in free
    ensures Chain(next[c := Addr(head)], c, [c] + free)
  {
    hide Addr;
  }

  lemma ChainPop(next: seq<nat>, head: nat, free: seq<nat>)
    requires Chain(next, head, free) && head != 0
    ensures head < |next| && next[head] == Addr(if |free| > 1 then free[1] else 0)
    ensures Chain(next, if |free| > 1 then free[1] else 0, free[1..]) && head !in free[1..]
    ensures free == [head] + free[1..]
  {
    hide Addr;
  }

  lemma ChainElsewhere(next: seq<nat>, head: nat, free: seq<nat>, c: nat, w: nat)
    requires Chain(next, head, free) && c < |next| && c !in free
    ensures Chain(next[c := w], head, free)
  {
    hide Addr;
  }
}
