/** The mark-sweep collector of lib/fe/fe.c: fe_mark, collectgarbage, object and what calls it. */
module FeCollector {
  import opened FeHeap

  const GCSTACKSIZE := 256

  /** Members of m that are not waiting in gray have all their kids in m or next in line. */
  ghost predicate Settled(h: Cells, count: nat, m: set<nat>, gray: set<nat>, next: set<nat>)
    requires WellFormed(h, count)
  {
    forall i :: i in m && i !in gray && i <= count ==> Kids(h, count, i) <= m + next
  }

  ghost function UnmarkAll(s: seq<nat>): (r: seq<nat>)
    ensures |r| == |s| && forall i :: 0 <= i < |s| ==> r[i] == Unmark(s[i])
  {
    seq(|s|, i requires 0 <= i < |s| => Unmark(s[i]))
  }

  datatype Result = Cell(obj: nat) | OutOfMemory | StackOverflow

  class Context {
    const count: nat
    const car: array<nat>
    const cdr: array<nat>
    const gcstack: array<nat>
    var gcstackIdx: nat
    var freelist: nat
    var symlist: nat
    ghost var free: seq<nat> // the cells of the freelist
    ghost var lost: set<nat> // cells of free type that are not on it

    ghost predicate Arrays()
    {
      && car.Length == cdr.Length == count + 1 && gcstack.Length == 256
      && car != cdr && car != gcstack && cdr != gcstack
    }

    /** The cells hold h, apart from mark bits. */
    ghost predicate Holds(h: Cells)
      requires Arrays()
      reads car, cdr
    {
      && |h.car| == |h.cdr| == count + 1
      && (forall i :: 0 <= i <= count ==> Unmark(car[i]) == h.car[i])
      && (forall i :: 0 <= i <= count ==> cdr[i] == h.cdr[i])
    }

    ghost function MarkedSet(): (r: set<nat>)
      requires Arrays()
      reads car
    {
      set i: nat | i <= count && Marked(car[i])
    }

    /** The cells as they are, without mark bits. */
    ghost function Snapshot(): (h: Cells)
      requires Arrays()
      reads car, cdr
      ensures Holds(h)
    {
      Cells(UnmarkAll(car[..]), cdr[..])
    }

    /** What the program can still name: nil, the gc stack and the symbol list. */
    ghost function Roots(): (r: set<nat>)
      requires gcstackIdx <= gcstack.Length
      reads this`gcstackIdx, this`symlist, gcstack
    {
      (set i | i in gcstack[..gcstackIdx]) + {symlist, 0}
    }

    /** freelist heads the chain of cells `free` through their cdrs. */
    ghost predicate Chained()
      requires Arrays()
      reads this`freelist, this`free, cdr
    {
      Chain(cdr[..], freelist, free)
    }

    /** A heap at rest: no cell marked, and the freelist has every free cell that is not lost. */
    ghost predicate Valid()
      reads this, car, cdr, gcstack
    {
      && Arrays() && gcstackIdx <= 256 && symlist <= count
      && (forall i :: 0 <= i < gcstackIdx ==> gcstack[i] <= count)
      && (forall i :: 1 <= i <= count ==> !Marked(car[i]))
      && WellFormed(Snapshot(), count) && Chained()
      && (forall i :: 1 <= i <= count ==> (Type(car[i]) == 1 <==> i in free || i in lost))
      && (forall k :: 0 <= k < |free| ==> free[k] !in lost)
    }

    /** The cells the program can still reach. */
    ghost function Live(): (r: set<nat>)
      requires Valid()
      reads this, car, cdr, gcstack
    {
      ReachSet(Snapshot(), count, Roots())
    }

    /** No free cell can be reached. */
    ghost predicate Sound()
      requires Valid()
      reads this, car, cdr, gcstack
    {
      forall i :: i in Live() && 1 <= i <= count ==> Type(car[i]) != 1
    }

    /** Sets the mark bit of a cell. */
    method SetMark(obj: nat, ghost h: Cells)
      requires Arrays() && Holds(h) && obj <= count && !Marked(car[obj])
      modifies car
      ensures Holds(h) && MarkedSet() == old(MarkedSet()) + {obj} && Type(car[obj]) == Type(h.car[obj])
    {
      MarkBits(car[obj]);
      car[obj] := Mark(car[obj]);
    }

    /**
      fe_mark: marks everything that can be reached from obj, going into cars and along cdrs.
      `gray` are marked cells whose kids the callers still have to finish.
     */
    method FeMark(obj0: nat, ghost h: Cells, ghost roots: set<nat>, ghost gray: set<nat>)
      requires Arrays() && WellFormed(h, count) && Holds(h) && obj0 <= count
      requires gray <= MarkedSet() && Settled(h, count, MarkedSet(), gray, {})
      requires Reachable(h, count, roots, obj0)
      modifies car
      ensures Holds(h) && old(MarkedSet()) + {obj0} <= MarkedSet()
      ensures Settled(h, count, MarkedSet(), gray, {})
      ensures forall i :: i in MarkedSet() - old(MarkedSet()) ==> Reachable(h, count, roots, i)
      decreases UpTo(count) - MarkedSet()
    {
      hide WellFormed, Reachable, Kids, Type, Marked, Mark, Unmark, MarkedSet;
      var obj: nat := obj0;
      ghost var before := MarkedSet();
      while true
        invariant Holds(h) && obj <= count && Reachable(h, count, roots, obj)
        invariant before <= MarkedSet() && (obj == obj0 || obj0 in MarkedSet())
        invariant Settled(h, count, MarkedSet(), gray, {obj})
        invariant forall i :: i in MarkedSet() - before ==> Reachable(h, count, roots, i)
        decreases UpTo(count) - MarkedSet()
      {
        ghost var m := MarkedSet();
        MarkedMember(obj);
        if Marked(car[obj]) { return; }
        var c := car[obj];
        UnmarkedWord(h, obj);
        SetMark(obj, h);
        CellRules(h, count, obj);
        KidsReachable(h, count, roots, obj);
        var t := Type(car[obj]);
        if t == FE_TPAIR {
          FeMark(Deref(c, count), h, roots, gray + {obj});
          obj := Deref(cdr[obj], count);
        } else if UsesCdr(t) {
          obj := Deref(cdr[obj], count);
        } else {
          return;
        }
      }
    }

    /** The mark phase: afterwards exactly the reachable cells are marked, and maybe nil. */
    method MarkRoots(ghost h: Cells, ghost live: set<nat>)
      requires Valid() && h == Snapshot() && live == Live()
      modifies car
      ensures Holds(h)
      ensures forall i: nat :: 1 <= i <= count ==> (i in MarkedSet() <==> i in live)
    {
      hide WellFormed, Reachable, Kids, Type, Marked, Mark, Unmark, MarkedSet;
      ghost var roots := Roots();
      NilHasNoKids(h);
      for i := 0 to gcstackIdx
        invariant Holds(h) && Settled(h, count, MarkedSet(), {}, {})
        invariant forall j :: 0 <= j < i ==> gcstack[j] in MarkedSet()
        invariant forall j :: j in MarkedSet() ==> j == 0 || Reachable(h, count, roots, j)
      {
        assert gcstack[i] in gcstack[..gcstackIdx];
        RootReachable(h, count, roots, gcstack[i]);
        FeMark(gcstack[i], h, roots, {});
      }
      RootReachable(h, count, roots, symlist);
      FeMark(symlist, h, roots, {});
      MarkedMember(0);
      ReachWithin(h, count, roots, MarkedSet() + {0});
    }

    lemma NilHasNoKids(h: Cells)
      requires Valid() && h == Snapshot()
      ensures MarkedSet() <= {0} && Kids(h, count, 0) == {}
    {
    }

    /** Cell j when the sweep is at i: not yet visited, kept because it is in m, or free. */
    ghost predicate SweptCell(h: Cells, m: set<nat>, i: nat, j: nat)
      requires Arrays() && |h.car| == |h.cdr| == count + 1 && j <= count
      reads car, cdr
    {
      if j == 0 then Unmark(car[j]) == h.car[j] && cdr[j] == h.cdr[j]
      else if i <= j then Unmark(car[j]) == h.car[j] && cdr[j] == h.cdr[j] && (Marked(car[j]) <==> j in m)
      else if j in m then car[j] == h.car[j] && cdr[j] == h.cdr[j] && !Marked(car[j])
      else Type(car[j]) == 1 && !Marked(car[j])
    }

    ghost predicate Swept(h: Cells, m: set<nat>, i: nat)
      requires Arrays() && |h.car| == |h.cdr| == count + 1
      reads car, cdr
    {
      forall j :: 0 <= j <= count ==> SweptCell(h, m, i, j)
    }

    /** Puts a cell on the freelist. */
    method Release(obj: nat)
      requires Arrays() && Chained() && 1 <= obj <= count && obj !in free
      modifies car, cdr, this`freelist, this`free
      ensures Chained() && free == [obj] + old(free)
      ensures Type(car[obj]) == 1 && !Marked(car[obj])
      ensures forall j :: 0 <= j <= count && j != obj ==> car[j] == old(car[j]) && cdr[j] == old(cdr[j])
    {
      SetTypeBits(car[obj], FE_TFREE);
      car[obj] := SetType(car[obj], FE_TFREE);
      ChainPush(cdr[..], freelist, free, obj);
      ghost var next := cdr[..][obj := Addr(freelist)];
      cdr[obj] := Addr(freelist);
      assert cdr[..] == next;
      freelist := obj;
      free := [obj] + free;
    }

    /** One turn of the sweep. */
    method SweepCell(i: nat, ghost h: Cells, ghost m: set<nat>) returns (final: bool)
      requires Arrays() && 1 <= i <= count && |h.car| == |h.cdr| == count + 1
      requires Swept(h, m, i) && Chained() && !Marked(h.car[i])
      requires Type(h.car[i]) == 1 ==> i !in m
      requires i in free ==> Type(h.car[i]) == 1
      modifies car, cdr, this`freelist, this`free
      ensures Swept(h, m, i + 1) && Chained()
      ensures free == if i in m || Type(h.car[i]) == 1 then old(free) else [i] + old(free)
      ensures final <==> i !in m && Type(h.car[i]) == 10
    {
      hide Type, Marked, Unmark, SetType, Mark;
      MarkBits(car[i]);
      assert SweptCell(h, m, i, i);
      final := false;
      if Type(car[i]) != FE_TFREE {
        if !Marked(car[i]) {
          final := Type(car[i]) == FE_TPTR;
          Release(i);
        } else {
          car[i] := Unmark(car[i]);
        }
      }
      forall j {:trigger SweptCell(h, m, i + 1, j)} | 0 <= j <= count ensures SweptCell(h, m, i + 1, j) {
        assert old(SweptCell(h, m, i, j));
      }
    }

    /**
      collectgarbage: afterwards the freelist holds exactly the cells that cannot be reached, each
      once, apart from lost ones; every reachable cell is as before, and none is left marked.
      `finalized` are the pointer cells handed to the gc handler.
     */
    method CollectGarbage() returns (finalized: seq<nat>)
      requires Valid() && Sound()
      modifies car, cdr, this`freelist, this`free
      ensures Valid() && Sound() && Live() == old(Live())
      ensures forall i: nat :: 1 <= i <= count ==> (i in free <==> i !in Live() && i !in lost)
      ensures forall i: nat :: 1 <= i <= count && i in Live() ==> car[i] == old(car[i]) && cdr[i] == old(cdr[i])
      ensures forall i: nat :: i in finalized <==> 1 <= i <= count && old(Type(car[i]) == 10 && i !in Live())
      ensures forall j, k :: 0 <= j < k < |finalized| ==> finalized[j] != finalized[k]
      ensures forall i :: i in Live() && 1 <= i <= count && Type(car[i]) in {0, 4, 5, 6, 7} ==>
        IsRef(cdr[i], count) && Deref(cdr[i], count) !in free
    {
      hide Valid, Sound, Swept, Chained, Snapshot, WellFormed, Type, ReachSet, Reachable, Agree, MarkedSet, Holds;
      AtRest();
      ghost var h, live := Snapshot(), Live();
      MarkRoots(h, live);
      AfterMarking(h, live);
      finalized := Sweep(h, live);
      AllSwept(h, live);
      AtRest();
      SameReach(h, Snapshot(), count, Roots());
      SoundNow(h, live);
      TailsKept();
    }

    /** The cdr of a live pair, symbol, string, function or macro is not free. */
    lemma TailsKept()
      requires Valid() && Sound()
      ensures forall i :: i in Live() && 1 <= i <= count && Type(car[i]) in {0, 4, 5, 6, 7} ==>
        IsRef(cdr[i], count) && Deref(cdr[i], count) in Live() && Deref(cdr[i], count) !in free
    {
      hide Type, IsRef, ReachSet, Kids, WellFormed, Valid, Sound;
      AtRest();
      forall i | i in Live() && 1 <= i <= count && Type(car[i]) in {0, 4, 5, 6, 7}
        ensures IsRef(cdr[i], count) && Deref(cdr[i], count) in Live() && Deref(cdr[i], count) !in free
      {
        KidsByNumber(Snapshot(), count, i);
        NextReached(Snapshot(), count, Roots(), i);
      }
    }

    /** The sweep phase, when `live` are the marked cells. */
    method Sweep(ghost h: Cells, ghost live: set<nat>) returns (finalized: seq<nat>)
      requires Arrays() && |h.car| == |h.cdr| == count + 1 && Swept(h, live, 1) && Chained()
      requires forall j :: 1 <= j <= count ==> !Marked(h.car[j])
      requires forall j :: 1 <= j <= count ==> (Type(h.car[j]) == 1 <==> j in free || j in lost)
      requires forall j :: 1 <= j <= count && (j in free || j in lost) ==> j !in live
      requires forall j :: j in free ==> j !in lost
      modifies car, cdr, this`freelist, this`free
      ensures Swept(h, live, count + 1) && Chained()
      ensures forall j :: 1 <= j <= count ==> (j in free <==> j !in live && j !in lost)
      ensures forall j: nat :: j in finalized <==> 1 <= j <= count && j !in live && Type(h.car[j]) == 10
      ensures forall j, k :: 0 <= j < k < |finalized| ==> finalized[j] != finalized[k]
    {
      hide Swept, Chained, Type, Marked;
      finalized := [];
      ghost var was := free;
      for i: nat := 1 to count + 1
        invariant Swept(h, live, i) && Chained()
        invariant forall j :: 1 <= j <= count ==> (j in free <==> j in was || (j < i && j !in live && j !in lost))
        invariant forall j: nat :: j in finalized <==> 1 <= j < i && j !in live && Type(h.car[j]) == 10
        invariant forall j, k :: 0 <= j < k < |finalized| ==> finalized[j] != finalized[k]
      {
        var final := SweepCell(i, h, live);
        if final { finalized := finalized + [i]; }
      }
    }

    /** fe_open's lists: every cell is free and on the freelist, the last one first. */
    constructor (n: nat)
      ensures Valid() && Sound() && count == n && lost == {} && gcstackIdx == 0 && symlist == 0
      ensures |free| == n && forall k :: 0 <= k < n ==> free[k] == n - k
      ensures fresh(car) && fresh(cdr) && fresh(gcstack)
    {
      count := n;
      car, cdr, gcstack := new nat[n + 1], new nat[n + 1], new nat[GCSTACKSIZE](_ => 0);
      gcstackIdx, freelist, symlist, free, lost := 0, 0, 0, [], {};
      new;
      PopulateFreelist();
      AllFree();
    }

    method PopulateFreelist()
      requires Arrays() && free == [] && freelist == 0
      modifies car, cdr, this`freelist, this`free
      ensures Chained() && |free| == count && forall k :: 0 <= k < count ==> free[k] == count - k
      ensures Type(car[0]) == 2 && !Marked(car[0])
      ensures forall j :: 1 <= j <= count ==> Type(car[j]) == 1 && !Marked(car[j])
    {
      hide Type, Marked, SetType;
      SetTypeBits(0, FE_TNIL);
      car[0], cdr[0] := SetType(0, FE_TNIL), 0;
      for i := 1 to count + 1
        invariant Chained() && |free| == i - 1 && forall k :: 0 <= k < i - 1 ==> free[k] == i - 1 - k
        invariant Type(car[0]) == 2 && !Marked(car[0])
        invariant forall j :: 1 <= j < i ==> Type(car[j]) == 1 && !Marked(car[j])
      {
        Release(i);
      }
    }

    lemma AllFree()
      requires Arrays() && Chained() && gcstackIdx == symlist == 0 && lost == {}
      requires |free| == count && forall k :: 0 <= k < count ==> free[k] == count - k
      requires Type(car[0]) == 2 && !Marked(car[0])
      requires forall j :: 1 <= j <= count ==> Type(car[j]) == 1 && !Marked(car[j])
      ensures Valid() && Sound()
    {
      hide Type, Marked;
      forall j | 0 <= j <= count ensures Unmark(car[j]) == car[j] {
        MarkBits(car[j]);
      }
      forall j: nat | 1 <= j <= count ensures j in free {
        assert free[count - j] == j;
      }
      ReachWithin(Snapshot(), count, Roots(), {0});
    }

    /** fe_pushgc. */
    method PushGc(obj: nat) returns (ok: bool)
      requires Valid() && obj <= count
      modifies this`gcstackIdx, gcstack
      ensures Valid() && ok == (old(gcstackIdx) < 256)
      ensures gcstack[..gcstackIdx] == old(gcstack[..gcstackIdx]) + (if ok then [obj] else [])
      ensures Roots() == if ok then old(Roots()) + {obj} else old(Roots())
      ensures !ok ==> gcstackIdx == 256
      ensures old(Sound()) && obj in old(Live()) ==> Sound() && Live() == old(Live())
    {
      hide WellFormed, Type, Marked, ReachSet, Kids, Chain;
      if gcstackIdx == GCSTACKSIZE { return false; }
      gcstack[gcstackIdx] := obj;
      gcstackIdx := gcstackIdx + 1;
      ok := true;
      RootAgain(old(Roots()), obj);
    }

    lemma RootAgain(roots: set<nat>, obj: nat)
      requires Valid() && forall i :: i in roots ==> i <= count
      ensures obj in ReachSet(Snapshot(), count, roots) ==>
        ReachSet(Snapshot(), count, roots + {obj}) == ReachSet(Snapshot(), count, roots)
    {
      hide ReachSet, Kids;
      var h := Snapshot();
      ReachSetClosed(h, count, roots);
      if obj in ReachSet(h, count, roots) {
        ReachWithin(h, count, roots + {obj}, ReachSet(h, count, roots));
        LiveBelow(h, roots, obj);
        ReachMonotone(h, count, roots, roots + {obj});
      }
    }

    lemma LiveBelow(h: Cells, roots: set<nat>, obj: nat)
      requires WellFormed(h, count) && obj in ReachSet(h, count, roots)
      ensures obj <= count
    {
    }

    /** fe_restoregc to an index that fe_savegc gave. */
    method RestoreGc(idx: nat)
      requires Valid() && Sound() && idx <= gcstackIdx
      modifies this`gcstackIdx
      ensures Valid() && Sound() && gcstackIdx == idx && Live() <= old(Live())
    {
      hide WellFormed, Type, Marked, ReachSet;
      gcstackIdx := idx;
      ReachMonotone(Snapshot(), count, Roots(), old(Roots()));
    }

    /**
      object: takes a cell from the freelist, collecting first if there is none, and roots it.
      A cell taken when the gc stack is full is lost.
     */
    method Object() returns (r: Result)
      requires Valid() && Sound()
      modifies this`freelist, this`free, this`lost, this`gcstackIdx, car, cdr, gcstack
      ensures Valid()
      ensures forall i: nat :: 1 <= i <= count && i in old(Live()) ==> car[i] == old(car[i]) && cdr[i] == old(cdr[i])
      ensures r.OutOfMemory? ==> Live() == old(Live()) && lost == old(lost) && gcstackIdx == old(gcstackIdx)
      ensures r.OutOfMemory? ==> forall i: nat :: 1 <= i <= count ==> i in Live() || i in lost
      ensures r.StackOverflow? ==> Live() == old(Live()) && old(gcstackIdx) == gcstackIdx == 256
      ensures r.StackOverflow? ==>
        exists c: nat :: 1 <= c <= count && c !in Live() && c !in old(lost) && lost == old(lost) + {c}
      ensures !r.Cell? ==> Sound()
      ensures r.Cell? ==> 1 <= r.obj <= count && r.obj !in old(Live()) && r.obj !in old(lost)
      ensures r.Cell? ==> Type(car[r.obj]) == 1 && lost == old(lost) + {r.obj} && Live() == old(Live()) + {r.obj}
      ensures r.Cell? ==> gcstack[..gcstackIdx] == old(gcstack[..gcstackIdx]) + [r.obj]
      ensures r.Cell? ==> forall i :: i in Live() && 1 <= i <= count && i != r.obj ==> Type(car[i]) != 1
    {
      hide Valid, WellFormed, Type, Marked, ReachSet, Roots, Snapshot, Chained, Kids, Holds;
      var some := Refill();
      if !some { return OutOfMemory; }
      AtRest();
      ghost var roots := Roots();
      var obj := TakeFree();
      ghost var h := Snapshot();
      var ok := PushGc(obj);
      if !ok { return StackOverflow; }
      AtRest();
      FreeCellHasNoKids(obj);
      ReachOneMore(h, h, count, roots, obj);
      r := Cell(obj);
    }

    lemma FreeCellHasNoKids(obj: nat)
      requires Valid() && 1 <= obj <= count && Type(car[obj]) == 1
      ensures Kids(Snapshot(), count, obj) == {}
      ensures forall i :: i in Roots() ==> i <= count
    {
    }

    /** Collects if the freelist is empty; fails if that does not help. */
    method Refill() returns (some: bool)
      requires Valid() && Sound()
      modifies this`freelist, this`free, car, cdr
      ensures Valid() && Sound() && Live() == old(Live()) && some == (freelist != 0)
      ensures forall i: nat :: 1 <= i <= count && i in Live() ==> car[i] == old(car[i]) && cdr[i] == old(cdr[i])
      ensures !some ==> forall i: nat :: 1 <= i <= count ==> i in Live() || i in lost
    {
      if freelist == 0 {
        var _ := CollectGarbage();
      }
      some := freelist != 0;
    }

    /** Takes the first cell of the freelist; for now it is lost. */
    method TakeFree() returns (obj: nat)
      requires Valid() && Sound() && freelist != 0
      modifies this`freelist, this`free, this`lost
      ensures Valid() && Sound() && Live() == old(Live())
      ensures 1 <= obj <= count && obj !in Live() && obj !in old(lost) && lost == old(lost) + {obj}
      ensures Type(car[obj]) == 1
    {
      hide WellFormed, Type, Marked, ReachSet, Chained;
      AtRest();
      obj := PopChain();
      assert obj in old(free) && forall i :: i in free ==> i in old(free);
      assert forall i :: i in old(free) ==> i == obj || i in free;
      lost := lost + {obj};
    }

    method PopChain() returns (obj: nat)
      requires Arrays() && Chained() && freelist != 0
      modifies this`freelist, this`free
      ensures Chained() && 1 <= obj <= count && obj !in free && old(free) == [obj] + free
    {
      obj := freelist;
      ChainPop(cdr[..], freelist, free);
      DerefAddr(if |free| > 1 then free[1] else 0, count);
      freelist := Deref(cdr[obj], count);
      free := free[1..];
    }

    /**
      fe_cons: a pair of two reachable cells.  Whatever object had to do to find a cell, every cell
      that could be reached before is as it was, and only the pair can be reached besides.
     */
    method Cons(a: nat, d: nat) returns (r: Result)
      requires Valid() && Sound() && a in Live() && d in Live()
      modifies this`freelist, this`free, this`lost, this`gcstackIdx, car, cdr, gcstack
      ensures Valid() && Sound()
      ensures forall i: nat :: 1 <= i <= count && i in old(Live()) ==> car[i] == old(car[i]) && cdr[i] == old(cdr[i])
      ensures r.Cell? ==> 1 <= r.obj <= count && r.obj !in old(Live()) && lost == old(lost)
      ensures r.Cell? ==> car[r.obj] == Addr(a) && cdr[r.obj] == Addr(d) && Live() == old(Live()) + {r.obj}
      ensures r.Cell? ==> gcstack[..gcstackIdx] == old(gcstack[..gcstackIdx]) + [r.obj]
      ensures !r.Cell? ==> Live() == old(Live())
      ensures r.OutOfMemory? ==> forall i: nat :: 1 <= i <= count ==> i in Live() || i in lost
      ensures r.StackOverflow? ==> old(gcstackIdx) == 256
    {
      hide Valid, Sound, Type, Live;
      AtRest();
      ghost var was := lost;
      LiveBounds();
      r := Object();
      if r.Cell? {
        FillPair(r.obj, a, d);
        assert lost == was;
      }
    }

    /** Makes a fresh cell a pair. */
    method FillPair(obj: nat, a: nat, d: nat)
      requires Valid() && 1 <= obj <= count && Type(car[obj]) == 1 && obj in lost
      requires a in Live() && d in Live() && obj in Live() && a <= count && d <= count
      requires forall i :: i in Live() && 1 <= i <= count && i != obj ==> Type(car[i]) != 1
      modifies car, cdr, this`lost
      ensures Valid() && Sound() && Live() == old(Live()) && lost == old(lost) - {obj}
      ensures car[obj] == Addr(a) && cdr[obj] == Addr(d)
      ensures forall i :: 0 <= i <= count && i != obj ==> car[i] == old(car[i]) && cdr[i] == old(cdr[i])
    {
      hide WellFormed, Type, Marked, ReachSet, Kids, Unmark, IsRef, Chain, Addr, Deref;
      ghost var h := Snapshot();
      AtRest();
      FreeCellHasNoKids(obj);
      DerefAddr(a, count);
      DerefAddr(d, count);
      MarkBits(Addr(a));
      car[obj] := Addr(a);
      ChainElsewhere(cdr[..], freelist, free, obj, Addr(d));
      ghost var next := cdr[..][obj := Addr(d)];
      cdr[obj] := Addr(d);
      assert cdr[..] == next;
      lost := lost - {obj};
      PairStored(h, obj, a, d);
      ReachFilled(h, Snapshot(), count, Roots(), obj);
    }

    lemma PairStored(h: Cells, obj: nat, a: nat, d: nat)
      requires Arrays() && WellFormed(h, count) && 1 <= obj <= count && a <= count && d <= count
      requires car[obj] == Addr(a) && cdr[obj] == Addr(d) && Unmark(Addr(a)) == Addr(a)
      requires forall i :: 0 <= i <= count && i != obj ==> Unmark(car[i]) == h.car[i] && cdr[i] == h.cdr[i]
      ensures WellFormed(Snapshot(), count) && Kids(Snapshot(), count, obj) == {a, d}
      ensures Agree(h, Snapshot(), count, UpTo(count) - {obj})
    {
      hide Type, Unmark, IsRef, Deref, Addr;
      DerefAddr(a, count);
      DerefAddr(d, count);
    }

    lemma NilLive()
      requires Valid()
      ensures 0 in Live()
    {
      RootReachable(Snapshot(), count, Roots(), 0);
    }

    lemma StackBounds()
      requires Valid()
      ensures gcstackIdx <= gcstack.Length == 256
    {
    }

    /** Live cells are cells. */
    lemma LiveBounds()
      requires Valid()
      ensures forall i :: i in Live() ==> i <= count
    {
    }

    /** fe_close: with nothing rooted every cell that is not lost is freed. */
    method Close() returns (finalized: seq<nat>)
      requires Valid() && Sound()
      modifies this`gcstackIdx, this`symlist, this`freelist, this`free, car, cdr
      ensures Valid() && Sound()
      ensures forall i: nat :: 1 <= i <= count ==> (i in free <==> i !in lost)
      ensures forall i: nat :: i in finalized <==> 1 <= i <= count && old(Type(car[i])) == 10
      ensures forall j, k :: 0 <= j < k < |finalized| ==> finalized[j] != finalized[k]
    {
      hide WellFormed, Type, Marked, ReachSet, Kids, Chain;
      gcstackIdx := 0;
      symlist := 0;
      NothingRooted();
      finalized := CollectGarbage();
    }

    lemma NothingRooted()
      requires Valid() && gcstackIdx == symlist == 0
      ensures Sound() && Live() <= {0}
    {
      ReachWithin(Snapshot(), count, Roots(), {0});
    }

    /** Agreeing with a sound heap on its live cells is sound. */
    lemma SoundNow(h: Cells, live: set<nat>)
      requires Valid() && WellFormed(h, count) && Agree(h, Snapshot(), count, live)
      requires live == Live() && forall j :: 1 <= j <= count && j in live ==> Type(h.car[j]) != 1
      ensures Sound()
      ensures forall i: nat :: 1 <= i <= count && i in live ==> car[i] == h.car[i] && cdr[i] == h.cdr[i]
    {
    }

    lemma AtRest()
      requires Valid()
      ensures Arrays() && WellFormed(Snapshot(), count) && Chained() && Holds(Snapshot())
      ensures |Snapshot().car| == |Snapshot().cdr| == count + 1
      ensures gcstackIdx <= 256 && symlist <= count
      ensures forall i :: 0 <= i < gcstackIdx ==> gcstack[i] <= count
      ensures forall i :: 1 <= i <= count ==> car[i] == Snapshot().car[i] && cdr[i] == Snapshot().cdr[i]
      ensures forall i :: 1 <= i <= count ==> !Marked(Snapshot().car[i])
      ensures forall i :: 1 <= i <= count ==> (Type(car[i]) == 1 <==> i in free || i in lost)
      ensures forall i :: i in free ==> 1 <= i <= count && i !in lost
      ensures Sound() ==> forall i :: i in Live() && 1 <= i <= count ==> i !in free && i !in lost
    {
    }

    lemma AfterMarking(h: Cells, m: set<nat>)
      requires Arrays() && Holds(h) && forall i: nat :: 1 <= i <= count ==> (i in MarkedSet() <==> i in m)
      ensures Swept(h, m, 1)
    {
      forall j {:trigger SweptCell(h, m, 1, j)} | 0 <= j <= count ensures SweptCell(h, m, 1, j) {
        MarkedMember(j);
      }
    }

    lemma TypeOfCell(h: Cells, i: nat)
      requires Arrays() && i <= count && |h.car| == count + 1 && Unmark(car[i]) == h.car[i]
      ensures Type(car[i]) == Type(h.car[i])
    {
      MarkBits(car[i]);
    }

    /** After the sweep the cells in m are as they were, and the heap is at rest. */
    lemma AllSwept(h: Cells, m: set<nat>)
      requires Arrays() && WellFormed(h, count) && Swept(h, m, count + 1) && Chained()
      requires gcstackIdx <= 256 && symlist <= count
      requires forall i :: 0 <= i < gcstackIdx ==> gcstack[i] <= count
      requires forall j :: 1 <= j <= count ==> (j in free <==> j !in m && j !in lost)
      requires forall j :: 1 <= j <= count && j in m ==> Type(h.car[j]) != 1 && j !in lost
      ensures Valid() && Agree(h, Snapshot(), count, m)
    {
      hide Type, Marked, Unmark;
      forall i | 0 <= i <= count
        ensures UsesCdr(Type(car[i])) ==> Unmark(car[i]) == h.car[i] && cdr[i] == h.cdr[i]
        ensures Type(Unmark(car[i])) == Type(car[i]) && !Marked(Unmark(car[i]))
        ensures i == 0 || !Marked(car[i])
        ensures 0 < i ==> (Type(car[i]) == 1 <==> i !in m)
        ensures i in m || i == 0 ==> Unmark(car[i]) == h.car[i] && cdr[i] == h.cdr[i]
      {
        assert SweptCell(h, m, count + 1, i);
        MarkBits(car[i]);
      }
    }

    lemma MarkedMember(i: nat)
      requires Arrays() && i <= count
      ensures i in MarkedSet() <==> Marked(car[i])
      ensures MarkedSet() <= UpTo(count)
    {
    }

    lemma UnmarkedWord(h: Cells, i: nat)
      requires Arrays() && Holds(h) && i <= count && !Marked(car[i])
      ensures car[i] == h.car[i]
    {
    }
  }

  /** Fills the gc stack of a new context with nil; nothing else can be reached then. */
  method FullStack(n: nat) returns (ctx: Context)
    ensures fresh(ctx) && fresh(ctx.car) && fresh(ctx.cdr) && fresh(ctx.gcstack)
    ensures ctx.Valid() && ctx.Sound() && ctx.count == n
    ensures ctx.gcstackIdx == 256 && ctx.lost == {} && ctx.Live() == {0}
  {
    hide Context.Sound, Context.Live, Context.Chained, WellFormed, Type, Marked;
    ctx := new Context(n);
    ctx.NothingRooted();
    ctx.NilLive();
    var full := false;
    for i := 0 to GCSTACKSIZE
      invariant ctx.Valid() && ctx.Sound() && ctx.Live() == {0}
      invariant ctx.gcstackIdx == i && ctx.lost == {}
      invariant fresh(ctx) && fresh(ctx.car) && fresh(ctx.cdr) && fresh(ctx.gcstack)
    {
      var ok := ctx.PushGc(0);
    }
  }

  /**
    With the gc stack full, object uses the heap up without giving out a cell: each of n calls
    fails and loses one, and the call after them finds no memory although nothing is in use.
   */
  method FullStackLosesAll(n: nat) returns (ctx: Context, r: Result)
    ensures ctx.Valid() && ctx.count == n && ctx.Live() == {0} && r == OutOfMemory
    ensures forall i: nat :: 1 <= i <= n <==> i in ctx.lost
  {
    hide *;
    ctx := FullStack(n);
    for k := 0 to n
      invariant fresh(ctx) && fresh(ctx.car) && fresh(ctx.cdr) && fresh(ctx.gcstack)
      invariant ctx.Valid() && ctx.Sound() && ctx.count == n && ctx.Live() == {0}
      invariant ctx.gcstackIdx == 256 && |ctx.lost| == k
      invariant forall i: nat :: i in ctx.lost ==> 1 <= i <= n
    {
      ghost var was := ctx.lost;
      r := ctx.Object();
      SomeLeft(was, n);
      if r.Cell? {
        ctx.StackBounds();
      }
      assert r.StackOverflow?;
    }
    NoneLeft(ctx.lost, n);
    r := ctx.Object();
  }

  lemma SomeLeft(lost: set<nat>, n: nat)
    requires |lost| < n && forall i :: i in lost ==> 1 <= i <= n
    ensures exists i: nat :: 1 <= i <= n && i !in lost
  {
    if forall i: nat :: 1 <= i <= n ==> i in lost {
      Counted(lost, n);
    }
  }

  lemma NoneLeft(lost: set<nat>, n: nat)
    requires |lost| == n && forall i :: i in lost ==> 1 <= i <= n
    ensures forall i: nat :: 1 <= i <= n ==> i in lost
  {
    forall i: nat | 1 <= i <= n ensures i in lost {
      if i !in lost {
        var all := UpTo(n) - {0};
        Counted(all, n);
        SmallerSet(lost, all - {i});
      }
    }
  }

  lemma {:induction false} Counted(s: set<nat>, n: nat)
    requires forall i: nat :: i in s <==> 1 <= i <= n
    ensures |s| == n
    decreases n
  {
    if n == 0 {
      assert s == {};
    } else {
      Counted(s - {n}, n - 1);
    }
  }

  lemma {:induction false} SmallerSet(a: set<nat>, b: set<nat>)
    requires a <= b
    ensures |a| <= |b|
  {
    if a != {} {
      var x :| x in a;
      SmallerSet(a - {x}, b - {x});
    }
  }

  /** What marking may do with a cell, by its type; its kids become reachable. */
  lemma CellRules(h: Cells, count: nat, i: nat)
    requires WellFormed(h, count) && i <= count
    ensures Type(h.car[i]) == 0 ==>
      && IsRef(h.car[i], count) && IsRef(h.cdr[i], count)
      && Kids(h, count, i) == {Deref(h.car[i], count), Deref(h.cdr[i], count)}
    ensures Type(h.car[i]) != 0 && UsesCdr(Type(h.car[i])) ==>
      IsRef(h.cdr[i], count) && Kids(h, count, i) == {Deref(h.cdr[i], count)}
    ensures !UsesCdr(Type(h.car[i])) ==> Kids(h, count, i) == {}
  {
  }
}
