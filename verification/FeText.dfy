/** The strings of the fe interpreter: buildstring and fe_string, and what a collection leaves of a string. */
module FeText {
  import opened Bytes
  import opened FeHeap
  import opened FeCollector

  // ---------------------------------------------------------------- the bytes of a word

  /** Byte k of a word. */
  function ByteOf(w: nat, k: nat): (b: byte)
    decreases k
  {
    if k == 0 then w % 256 else ByteOf(w / 256, k - 1)
  }

  function PutByte(w: nat, k: nat, b: byte): (r: nat)
    decreases k
  {
    if k == 0 then w - w % 256 + b else w % 256 + 256 * PutByte(w / 256, k - 1, b)
  }

  /** Bytes as a number, the first one lowest. */
  function Little(c: seq<byte>): (r: nat) {
    if c == [] then 0 else c[0] + 256 * Little(c[1..])
  }

  lemma Split(b: byte, q: nat)
    ensures (b + 256 * q) % 256 == b && (b + 256 * q) / 256 == q
  {
  }

  lemma {:induction false} ByteOfLittle(c: seq<byte>, k: nat)
    ensures ByteOf(Little(c), k) == if k < |c| then c[k] else 0
    decreases k
  {
    if c != [] {
      Split(c[0], Little(c[1..]));
      if k > 0 { ByteOfLittle(c[1..], k - 1); }
    } else if k > 0 {
      ByteOfLittle(c, k - 1);
    }
  }

  /** A byte behind the others. */
  lemma {:induction false} PutByteLittle(c: seq<byte>, b: byte)
    ensures PutByte(Little(c), |c|, b) == Little(c + [b])
    decreases |c|
  {
    if c == [] {
      assert [b][1..] == [];
    } else {
      Split(c[0], Little(c[1..]));
      PutByteLittle(c[1..], b);
      assert (c + [b])[1..] == c[1..] + [b];
    }
  }

  // ---------------------------------------------------------------- string cells

  /** What a string cell holds: at most seven characters, none of them 0. */
  ghost predicate Chunk(c: seq<byte>) { |c| <= 7 && 0 !in c }

  /** The car word of a string cell: its type 5 in the low byte, and then the characters. */
  function StringWord(c: seq<byte>): (w: nat) { 5 * 4 + 1 + 256 * Little(c) }

  lemma StringType(c: seq<byte>)
    ensures Type(StringWord(c)) == 5 && !Marked(StringWord(c))
  {
    var l := Little(c);
    Rem64(l, 5);
    Bits(64 * l + 5, 1);
    hide Type, Marked;
    assert StringWord(c) == 4 * (64 * l + 5) + 1;
  }

  /** strbuf: the characters follow the tag byte. */
  lemma StringBytes(c: seq<byte>, k: nat)
    ensures ByteOf(StringWord(c), k + 1) == if k < |c| then c[k] else 0
  {
    Split(21, Little(c));
    ByteOfLittle(c, k);
  }

  lemma StringPut(c: seq<byte>, b: byte)
    ensures PutByte(StringWord(c), |c| + 1, b) == StringWord(c + [b])
  {
    Split(21, Little(c));
    PutByteLittle(c, b);
    PutNext(StringWord(c), |c|, b);
    hide PutByte;
  }

  lemma PutNext(w: nat, k: nat, b: byte)
    ensures PutByte(w, k + 1, b) == w % 256 + 256 * PutByte(w / 256, k, b)
  {
  }

  function Joined(chunks: seq<seq<byte>>): (r: seq<byte>) {
    if chunks == [] then [] else Joined(chunks[..|chunks| - 1]) + chunks[|chunks| - 1]
  }

  /** The text that is read from a string: of each cell the characters before the first 0, and then on by its cdr. */
  ghost predicate StringAt(h: Cells, count: nat, cells: seq<nat>, chunks: seq<seq<byte>>)
    requires |h.car| == |h.cdr| == count + 1
  {
    && |cells| == |chunks| > 0
    && (forall k :: 0 <= k < |cells| ==>
      1 <= cells[k] <= count && Chunk(chunks[k]) && h.car[cells[k]] == StringWord(chunks[k]))
    && (forall j, k :: 0 <= j < k < |cells| ==> cells[j] != cells[k])
    && (forall j, k {:trigger cells[j], cells[k]} :: 0 <= j && k == j + 1 < |cells| ==>
      h.cdr[cells[j]] == Addr(cells[k]))
    && h.cdr[cells[|cells| - 1]] == Addr(0)
  }

  /** All cells of a string can be reached when its first one can, in any heap with these links. */
  lemma {:induction false} ChainReached(h: Cells, count: nat, roots: set<nat>, cells: seq<nat>, n: nat)
    requires WellFormed(h, count) && n < |cells| && cells[0] in ReachSet(h, count, roots)
    requires forall k :: 0 <= k <= n ==> cells[k] <= count && Type(h.car[cells[k]]) == 5
    requires forall j, k {:trigger cells[j], cells[k]} :: 0 <= j && k == j + 1 <= n ==>
      h.cdr[cells[j]] == Addr(cells[k])
    ensures cells[n] in ReachSet(h, count, roots)
  {
    assert |h.car| == |h.cdr| == count + 1;
    hide WellFormed, ReachSet, Type, Addr;
    if n > 0 {
      ChainReached(h, count, roots, cells, n - 1);
      NextReached(h, count, roots, cells[n - 1]);
      DerefAddr(cells[n], count);
      assert h.cdr[cells[n - 1]] == Addr(cells[n]);
    }
  }

  lemma StringReached(h: Cells, count: nat, roots: set<nat>, cells: seq<nat>, chunks: seq<seq<byte>>)
    requires WellFormed(h, count) && StringAt(h, count, cells, chunks) && cells[0] in ReachSet(h, count, roots)
    ensures forall k :: 0 <= k < |cells| ==> cells[k] in ReachSet(h, count, roots)
  {
    assert |h.car| == |h.cdr| == count + 1;
    hide WellFormed, ReachSet, Addr, StringWord;
    forall k | 0 <= k < |cells| ensures cells[k] in ReachSet(h, count, roots) {
      forall j | 0 <= j <= k ensures Type(h.car[cells[j]]) == 5 { StringType(chunks[j]); }
      ChainReached(h, count, roots, cells, k);
    }
  }

  /** A string is what its cells are. */
  lemma StringKept(h: Cells, h2: Cells, count: nat, cells: seq<nat>, chunks: seq<seq<byte>>)
    requires |h.car| == |h.cdr| == |h2.car| == |h2.cdr| == count + 1 && StringAt(h, count, cells, chunks)
    requires forall k :: 0 <= k < |cells| ==> h2.car[cells[k]] == h.car[cells[k]] && h2.cdr[cells[k]] == h.cdr[cells[k]]
    ensures StringAt(h2, count, cells, chunks)
  {
    hide StringWord, Addr;
  }

  // ---------------------------------------------------------------- a collection

  /** The text of a string that can be reached survives a collection, and none of its cells is freed. */
  method CollectKeepsText(ctx: Context, ghost cells: seq<nat>, ghost chunks: seq<seq<byte>>)
    requires ctx.Valid() && ctx.Sound()
    requires |ctx.Snapshot().car| == |ctx.Snapshot().cdr| == ctx.count + 1
    requires StringAt(ctx.Snapshot(), ctx.count, cells, chunks) && cells[0] in ctx.Live()
    modifies ctx.car, ctx.cdr, ctx`freelist, ctx`free
    ensures ctx.Valid() && ctx.Sound() && ctx.Live() == old(ctx.Live())
    ensures |ctx.Snapshot().car| == |ctx.Snapshot().cdr| == ctx.count + 1
    ensures StringAt(ctx.Snapshot(), ctx.count, cells, chunks)
    ensures forall k :: 0 <= k < |cells| ==> cells[k] !in ctx.free
  {
    hide *;
    ctx.AtRest();
    ghost var h := ctx.Snapshot();
    LiveString(ctx, cells, chunks);
    var _ := ctx.CollectGarbage();
    ctx.AtRest();
    StringKept(h, ctx.Snapshot(), ctx.count, cells, chunks);
  }

  lemma LiveString(ctx: Context, cells: seq<nat>, chunks: seq<seq<byte>>)
    requires ctx.Valid() && |ctx.Snapshot().car| == |ctx.Snapshot().cdr| == ctx.count + 1
    requires StringAt(ctx.Snapshot(), ctx.count, cells, chunks) && cells[0] in ctx.Live()
    ensures |cells| == |chunks| > 0
    ensures forall k :: 0 <= k < |cells| ==> 1 <= cells[k] <= ctx.count && cells[k] in ctx.Live()
  {
    hide Context.Valid, WellFormed, ReachSet, Addr, StringWord;
    ctx.AtRest();
    StringReached(ctx.Snapshot(), ctx.count, ctx.Roots(), cells, chunks);
  }

  // ---------------------------------------------------------------- buildstring

  /** The words of a cell that is a string cell from now on. */
  method StoreString(ctx: Context, obj: nat, w: nat, d: nat)
    requires ctx.Valid() && 1 <= obj <= ctx.count && obj !in ctx.free
    requires Type(w) == 5 && !Marked(w) && IsRef(d, ctx.count)
    modifies ctx.car, ctx.cdr, ctx`lost
    ensures ctx.Valid() && ctx.lost == old(ctx.lost) - {obj} && ctx.car[obj] == w && ctx.cdr[obj] == d
    ensures forall i :: 0 <= i <= ctx.count && i != obj ==>
      ctx.car[i] == old(ctx.car[i]) && ctx.cdr[i] == old(ctx.cdr[i])
    ensures WellFormed(old(ctx.Snapshot()), ctx.count) && WellFormed(ctx.Snapshot(), ctx.count)
    ensures Kids(ctx.Snapshot(), ctx.count, obj) == {Deref(d, ctx.count)}
    ensures Agree(old(ctx.Snapshot()), ctx.Snapshot(), ctx.count, UpTo(ctx.count) - {obj})
  {
    hide WellFormed, Type, Marked, Kids, Unmark, IsRef, Chain, Addr, Deref;
    ghost var h := ctx.Snapshot();
    ctx.AtRest();
    MarkBits(w);
    ctx.car[obj] := w;
    ChainElsewhere(ctx.cdr[..], ctx.freelist, ctx.free, obj, d);
    ghost var next := ctx.cdr[..][obj := d];
    ctx.cdr[obj] := d;
    assert ctx.cdr[..] == next;
    ctx.lost := ctx.lost - {obj};
    Stored(ctx, h, obj, w, d);
  }

  lemma Stored(ctx: Context, h: Cells, obj: nat, w: nat, d: nat)
    requires ctx.Arrays() && WellFormed(h, ctx.count) && 1 <= obj <= ctx.count
    requires ctx.car[obj] == w && ctx.cdr[obj] == d && Unmark(w) == w
    requires Type(w) == 5 && !Marked(w) && IsRef(d, ctx.count)
    requires forall i :: 0 <= i <= ctx.count && i != obj ==> Unmark(ctx.car[i]) == h.car[i] && ctx.cdr[i] == h.cdr[i]
    ensures WellFormed(ctx.Snapshot(), ctx.count) && Kids(ctx.Snapshot(), ctx.count, obj) == {Deref(d, ctx.count)}
    ensures Agree(h, ctx.Snapshot(), ctx.count, UpTo(ctx.count) - {obj})
  {
    hide Type, Unmark, Marked, IsRef, Deref;
  }

  /** fe_cons with NULL and nil, and settype: an empty string in a fresh cell. */
  method FillString(ctx: Context, obj: nat)
    requires ctx.Valid() && 1 <= obj <= ctx.count && Type(ctx.car[obj]) == 1 && obj in ctx.lost && obj in ctx.Live()
    requires forall i :: i in ctx.Live() && 1 <= i <= ctx.count && i != obj ==> Type(ctx.car[i]) != 1
    modifies ctx.car, ctx.cdr, ctx`lost
    ensures ctx.Valid() && ctx.Sound() && ctx.Live() == old(ctx.Live()) && ctx.lost == old(ctx.lost) - {obj}
    ensures ctx.car[obj] == StringWord([]) && ctx.cdr[obj] == Addr(0)
    ensures forall i :: 0 <= i <= ctx.count && i != obj ==>
      ctx.car[i] == old(ctx.car[i]) && ctx.cdr[i] == old(ctx.cdr[i])
  {
    hide Context.Valid, WellFormed, Type, Marked, ReachSet, Kids, Unmark, IsRef, Addr, Deref;
    ctx.AtRest();
    ghost var h := ctx.Snapshot();
    ctx.FreeCellHasNoKids(obj);
    ctx.NilLive();
    DerefAddr(0, ctx.count);
    StringType([]);
    StoreString(ctx, obj, SetType(0, FE_TSTRING), Addr(0));
    ReachFilled(h, ctx.Snapshot(), ctx.count, ctx.Roots(), obj);
  }

  /** The last cell refers to a new one, which need not be rooted any more. */
  lemma ReachLinked(h: Cells, h2: Cells, count: nat, roots: set<nat>, cells: seq<nat>, chunks: seq<seq<byte>>, obj: nat)
    requires WellFormed(h, count) && WellFormed(h2, count) && StringAt(h, count, cells, chunks) && obj <= count
    requires var tail := cells[|cells| - 1];
      && Agree(h, h2, count, UpTo(count) - {tail}) && h2.car[tail] == h.car[tail] && Kids(h2, count, tail) == {obj}
    requires 0 in roots && cells[0] in roots && forall i :: i in roots ==> i <= count
    ensures ReachSet(h2, count, roots) == ReachSet(h, count, roots + {obj})
  {
    TailReached(h, h2, count, roots, cells, chunks);
    TailKids(h, count, cells, chunks);
    hide StringAt, WellFormed, ReachSet, Kids;
    ReachMoved(h, h2, count, roots, cells[|cells| - 1], obj);
  }

  lemma ReachMoved(h: Cells, h2: Cells, count: nat, roots: set<nat>, tail: nat, obj: nat)
    requires WellFormed(h, count) && WellFormed(h2, count) && obj <= count && tail <= count
    requires Agree(h, h2, count, UpTo(count) - {tail}) && Kids(h2, count, tail) == {obj} && Kids(h, count, tail) == {0}
    requires 0 in roots && tail in ReachSet(h2, count, roots) && forall i :: i in roots ==> i <= count
    ensures ReachSet(h2, count, roots) == ReachSet(h, count, roots + {obj})
  {
    hide WellFormed, Reachable, ReachSet, Kids;
    var all := roots + {obj};
    var m, m2 := ReachSet(h, count, all), ReachSet(h2, count, roots);
    ReachSetClosed(h, count, all);
    ReachSetClosed(h2, count, roots);
    forall i: nat | i <= count && i != tail ensures Kids(h2, count, i) == Kids(h, count, i) {
      SameKids(h, h2, count, i);
    }
    assert ClosedFrom(h2, count, roots, m);
    ReachWithin(h2, count, roots, m);
    assert ClosedFrom(h, count, all, m2);
    ReachWithin(h, count, all, m2);
  }

  lemma TailKids(h: Cells, count: nat, cells: seq<nat>, chunks: seq<seq<byte>>)
    requires WellFormed(h, count) && StringAt(h, count, cells, chunks)
    ensures Kids(h, count, cells[|cells| - 1]) == {0}
  {
    hide WellFormed, Addr, StringWord, Type;
    var n := |cells| - 1;
    StringType(chunks[n]);
    KidsByNumber(h, count, cells[n]);
    DerefAddr(0, count);
  }

  lemma TailReached(h: Cells, h2: Cells, count: nat, roots: set<nat>, cells: seq<nat>, chunks: seq<seq<byte>>)
    requires WellFormed(h2, count) && |h.car| == |h.cdr| == count + 1 && StringAt(h, count, cells, chunks)
    requires var tail := cells[|cells| - 1]; Agree(h, h2, count, UpTo(count) - {tail}) && h2.car[tail] == h.car[tail]
    requires cells[0] in roots
    ensures cells[|cells| - 1] in ReachSet(h2, count, roots)
  {
    assert |h2.car| == |h2.cdr| == count + 1;
    hide WellFormed, Reachable, Addr, StringWord, Type;
    RootReachable(h2, count, roots, cells[0]);
    forall j | 0 <= j < |cells| ensures Type(h2.car[cells[j]]) == 5 { StringType(chunks[j]); }
    ChainReached(h2, count, roots, cells, |cells| - 1);
  }

  /** cdr(tail) = obj; gcstack_idx--: the head, which is rooted below obj, keeps it alive. */
  method Link(ctx: Context, obj: nat, ghost cells: seq<nat>, ghost chunks: seq<seq<byte>>, tail: nat)
    requires ctx.Valid() && ctx.Sound() && 2 <= ctx.gcstackIdx
    requires ctx.gcstackIdx <= ctx.gcstack.Length && |ctx.Snapshot().car| == |ctx.Snapshot().cdr| == ctx.count + 1
    requires StringAt(ctx.Snapshot(), ctx.count, cells, chunks) && tail == cells[|cells| - 1] && obj !in cells
    requires ctx.gcstack[ctx.gcstackIdx - 1] == obj && ctx.gcstack[ctx.gcstackIdx - 2] == cells[0]
    requires 1 <= obj <= ctx.count && ctx.car[obj] == StringWord([]) && ctx.cdr[obj] == Addr(0)
    modifies ctx.car, ctx.cdr, ctx`lost, ctx`gcstackIdx
    ensures ctx.Valid() && ctx.Sound() && ctx.Live() == old(ctx.Live()) && ctx.lost == old(ctx.lost)
    ensures ctx.gcstackIdx == old(ctx.gcstackIdx) - 1
    ensures |ctx.Snapshot().car| == |ctx.Snapshot().cdr| == ctx.count + 1
    ensures StringAt(ctx.Snapshot(), ctx.count, cells + [obj], chunks + [[]])
    ensures forall i :: 0 <= i <= ctx.count && i != tail ==>
      ctx.car[i] == old(ctx.car[i]) && ctx.cdr[i] == old(ctx.cdr[i])
  {
    hide Context.Valid, WellFormed, Type, Marked, ReachSet, Kids, Unmark, IsRef, Addr, Deref, StringWord;
    ctx.AtRest();
    ghost var h, roots := ctx.Snapshot(), ctx.Roots();
    RootLive(ctx, ctx.gcstackIdx - 2);
    TailLive(ctx, cells, chunks);
    DerefAddr(obj, ctx.count);
    StoreString(ctx, tail, ctx.car[tail], Addr(obj));
    StringLinked(h, ctx.Snapshot(), ctx.count, cells, chunks, obj);
    ghost var h2 := ctx.Snapshot();
    Unrooted(ctx, obj);
    ReachLinked(h, h2, ctx.count, ctx.Roots(), cells, chunks, obj);
  }

  /** gcstack_idx-- */
  method Unrooted(ctx: Context, ghost obj: nat)
    requires ctx.Valid() && 2 <= ctx.gcstackIdx <= ctx.gcstack.Length && ctx.gcstack[ctx.gcstackIdx - 1] == obj
    modifies ctx`gcstackIdx
    ensures ctx.Valid() && ctx.gcstackIdx == old(ctx.gcstackIdx) - 1 && ctx.Roots() + {obj} == old(ctx.Roots())
    ensures 0 in ctx.Roots() && ctx.gcstack[ctx.gcstackIdx - 1] in ctx.Roots()
    ensures forall i :: i in ctx.Roots() ==> i <= ctx.count
  {
    hide WellFormed, Type, Marked;
    ghost var roots := ctx.Roots();
    Popped(ctx);
    ctx.gcstackIdx := ctx.gcstackIdx - 1;
    assert ctx.gcstack[ctx.gcstackIdx - 1] in ctx.gcstack[..ctx.gcstackIdx];
    assert ctx.Roots() + {obj} == roots;
  }

  lemma StringLinked(h: Cells, h2: Cells, count: nat, cells: seq<nat>, chunks: seq<seq<byte>>, obj: nat)
    requires |h.car| == |h.cdr| == |h2.car| == |h2.cdr| == count + 1 && StringAt(h, count, cells, chunks)
    requires var tail := cells[|cells| - 1];
      && (forall i: nat :: i <= count && i != tail ==> h2.car[i] == h.car[i] && h2.cdr[i] == h.cdr[i])
      && h2.car[tail] == h.car[tail] && h2.cdr[tail] == Addr(obj)
    requires 1 <= obj <= count && obj !in cells && h.car[obj] == StringWord([]) && h.cdr[obj] == Addr(0)
    ensures StringAt(h2, count, cells + [obj], chunks + [[]])
  {
    hide StringWord, Addr;
  }

  lemma TailLive(ctx: Context, cells: seq<nat>, chunks: seq<seq<byte>>)
    requires ctx.Valid() && ctx.Sound() && |ctx.Snapshot().car| == |ctx.Snapshot().cdr| == ctx.count + 1
    requires StringAt(ctx.Snapshot(), ctx.count, cells, chunks) && cells[0] in ctx.Live()
    ensures |cells| == |chunks| > 0
    ensures forall k :: 0 <= k < |cells| ==>
      && 1 <= cells[k] <= ctx.count && cells[k] in ctx.Live() && cells[k] !in ctx.free && cells[k] !in ctx.lost
      && Type(ctx.car[cells[k]]) == 5 && !Marked(ctx.car[cells[k]])
  {
    hide Context.Valid, WellFormed, ReachSet, Addr, StringWord, Type, Marked;
    ctx.AtRest();
    LiveString(ctx, cells, chunks);
    forall k | 0 <= k < |cells| ensures Type(ctx.car[cells[k]]) == 5 && !Marked(ctx.car[cells[k]]) {
      StringType(chunks[k]);
    }
  }

  lemma RootLive(ctx: Context, k: nat)
    requires ctx.Valid() && k < ctx.gcstackIdx
    ensures ctx.gcstackIdx <= ctx.gcstack.Length && ctx.gcstack[k] in ctx.Live() && ctx.gcstack[k] in ctx.Roots()
  {
    hide WellFormed;
    assert ctx.gcstack[k] in ctx.gcstack[..ctx.gcstackIdx];
    RootReachable(ctx.Snapshot(), ctx.count, ctx.Roots(), ctx.gcstack[k]);
  }

  /** The roots without the top of the gc stack. */
  lemma Popped(ctx: Context)
    requires ctx.gcstackIdx <= ctx.gcstack.Length && ctx.gcstackIdx > 0
    ensures forall x :: x in ctx.Roots() <==>
      x in ctx.gcstack[..ctx.gcstackIdx - 1] || x == ctx.symlist || x == 0 || x == ctx.gcstack[ctx.gcstackIdx - 1]
  {
    var n := ctx.gcstackIdx - 1;
    assert ctx.gcstack[..n + 1] == ctx.gcstack[..n] + [ctx.gcstack[n]];
  }

  /** strlen(strbuf), from character k on. */
  function StrLen(w: nat, k: nat): (n: nat)
    requires k <= 7
    decreases 7 - k
  {
    if k == 7 || ByteOf(w, k + 1) == 0 then k else StrLen(w, k + 1)
  }

  lemma {:induction false} StrLenIs(c: seq<byte>, k: nat)
    requires Chunk(c) && k <= |c|
    ensures StrLen(StringWord(c), k) == |c|
    decreases |c| - k
  {
    hide StringWord, ByteOf;
    StringBytes(c, k);
    if k < |c| {
      assert c[k] in c;
      StrLenIs(c, k + 1);
    }
  }

  /** One character more in the last cell. */
  method PutChar(ctx: Context, tail: nat, chr: byte, ghost cells: seq<nat>, ghost chunks: seq<seq<byte>>)
    requires ctx.Valid() && ctx.Sound() && |ctx.Snapshot().car| == |ctx.Snapshot().cdr| == ctx.count + 1
    requires StringAt(ctx.Snapshot(), ctx.count, cells, chunks) && cells[0] in ctx.Live()
    requires tail == cells[|cells| - 1] && |chunks[|chunks| - 1]| < 7 && chr != 0
    modifies ctx.car, ctx.cdr, ctx`lost
    ensures ctx.Valid() && ctx.Sound() && ctx.Live() == old(ctx.Live()) && ctx.lost == old(ctx.lost)
    ensures |ctx.Snapshot().car| == |ctx.Snapshot().cdr| == ctx.count + 1
    ensures var n := |chunks| - 1; StringAt(ctx.Snapshot(), ctx.count, cells, chunks[n := chunks[n] + [chr]])
    ensures forall i :: 0 <= i <= ctx.count && i != tail ==>
      ctx.car[i] == old(ctx.car[i]) && ctx.cdr[i] == old(ctx.cdr[i])
  {
    hide Context.Valid, WellFormed, Type, Marked, ReachSet, Kids, Unmark, IsRef, Addr, Deref, StringWord, PutByte,
      StrLen;
    ctx.AtRest();
    ghost var h, c := ctx.Snapshot(), chunks[|chunks| - 1];
    TailLive(ctx, cells, chunks);
    TailKids(h, ctx.count, cells, chunks);
    DerefAddr(0, ctx.count);
    var w := ctx.car[tail];
    StrLenIs(c, 0);
    StringPut(c, chr);
    StringType(c + [chr]);
    StoreString(ctx, tail, PutByte(w, StrLen(w, 0) + 1, chr), ctx.cdr[tail]);
    ctx.AtRest();
    ghost var h2 := ctx.Snapshot();
    StringGrown(h, h2, ctx.count, cells, chunks, chr);
    KidsStay(h, h2, ctx.count, tail);
    SameKidsReach(h, h2, ctx.count, ctx.Roots());
  }

  lemma KidsStay(h: Cells, h2: Cells, count: nat, tail: nat)
    requires WellFormed(h, count) && WellFormed(h2, count) && tail <= count
    requires Agree(h, h2, count, UpTo(count) - {tail}) && Kids(h2, count, tail) == Kids(h, count, tail)
    ensures forall i: nat :: i <= count ==> Kids(h2, count, i) == Kids(h, count, i)
  {
    hide WellFormed, Kids;
    forall i: nat | i <= count ensures Kids(h2, count, i) == Kids(h, count, i) {
      if i != tail { SameKids(h, h2, count, i); }
    }
  }

  lemma StringGrown(h: Cells, h2: Cells, count: nat, cells: seq<nat>, chunks: seq<seq<byte>>, chr: byte)
    requires |h.car| == |h.cdr| == |h2.car| == |h2.cdr| == count + 1 && StringAt(h, count, cells, chunks)
    requires var n := |cells| - 1;
      && (forall i: nat :: i <= count && i != cells[n] ==> h2.car[i] == h.car[i] && h2.cdr[i] == h.cdr[i])
      && h2.car[cells[n]] == StringWord(chunks[n] + [chr]) && h2.cdr[cells[n]] == h.cdr[cells[n]]
      && |chunks[n]| < 7 && chr != 0
    ensures var n := |chunks| - 1; StringAt(h2, count, cells, chunks[n := chunks[n] + [chr]])
  {
    hide StringWord, Addr;
  }

  /** The text with the last chunk as it is now. */
  lemma JoinedPut(chunks: seq<seq<byte>>, b: seq<byte>)
    requires chunks != []
    ensures var n := |chunks| - 1; Joined(chunks[n := chunks[n] + b]) == Joined(chunks) + b
  {
    var n := |chunks| - 1;
    var more := chunks[n := chunks[n] + b];
    assert more[..n] == chunks[..n];
    assert Joined(chunks[..n]) + (chunks[n] + b) == Joined(chunks[..n]) + chunks[n] + b;
  }

  lemma JoinedEmpty(chunks: seq<seq<byte>>)
    ensures Joined(chunks + [[]]) == Joined(chunks)
  {
    assert (chunks + [[]])[..|chunks|] == chunks;
  }

  /** The string so far: none yet, or one whose head is on top of the gc stack. */
  ghost predicate Building(ctx: Context, tail: nat, cells: seq<nat>, chunks: seq<seq<byte>>)
    reads ctx, ctx.car, ctx.cdr, ctx.gcstack
  {
    && ctx.Arrays() && ctx.gcstackIdx <= ctx.gcstack.Length
    && if tail == 0 then cells == [] && chunks == []
       else
         && StringAt(ctx.Snapshot(), ctx.count, cells, chunks) && tail == cells[|cells| - 1]
         && ctx.gcstackIdx > 0 && ctx.gcstack[ctx.gcstackIdx - 1] == cells[0]
  }

  /** fe_cons(ctx, NULL, &nil) and settype: an empty string in a new cell, which is on the gc stack. */
  method NewString(ctx: Context) returns (r: Result)
    requires ctx.Valid() && ctx.Sound()
    modifies ctx`freelist, ctx`free, ctx`lost, ctx`gcstackIdx, ctx.car, ctx.cdr, ctx.gcstack
    ensures ctx.Valid() && ctx.Sound()
    ensures forall i: nat :: 1 <= i <= ctx.count && i in old(ctx.Live()) ==>
      ctx.car[i] == old(ctx.car[i]) && ctx.cdr[i] == old(ctx.cdr[i])
    ensures !r.Cell? ==> ctx.Live() == old(ctx.Live()) && ctx.gcstackIdx == old(ctx.gcstackIdx)
    ensures r.Cell? ==> 1 <= r.obj <= ctx.count && r.obj !in old(ctx.Live()) && ctx.lost == old(ctx.lost)
    ensures r.Cell? ==> ctx.car[r.obj] == StringWord([]) && ctx.cdr[r.obj] == Addr(0)
    ensures r.Cell? ==> ctx.Live() == old(ctx.Live()) + {r.obj}
    ensures r.Cell? ==> ctx.gcstackIdx <= ctx.gcstack.Length
    ensures r.Cell? ==> ctx.gcstack[..ctx.gcstackIdx] == old(ctx.gcstack[..ctx.gcstackIdx]) + [r.obj]
  {
    hide Context.Valid, Context.Sound, Type, Context.Live, StringWord, Addr;
    ctx.AtRest();
    ghost var was := ctx.lost;
    ctx.LiveBounds();
    r := ctx.Object();
    if r.Cell? {
      FillString(ctx, r.obj);
      assert ctx.lost == was;
      ctx.StackBounds();
    }
  }

  /** A new empty cell behind the others, or the first one. */
  method Extend(ctx: Context, tail: nat, ghost cells0: seq<nat>, ghost chunks0: seq<seq<byte>>)
    returns (r: Result, ghost cells: seq<nat>, ghost chunks: seq<seq<byte>>)
    requires ctx.Valid() && ctx.Sound() && Building(ctx, tail, cells0, chunks0)
    modifies ctx`freelist, ctx`free, ctx`lost, ctx`gcstackIdx, ctx.car, ctx.cdr, ctx.gcstack
    ensures ctx.Valid() && ctx.Sound()
    ensures forall i: nat :: 1 <= i <= ctx.count && i in old(ctx.Live()) && i !in cells0 ==>
      ctx.car[i] == old(ctx.car[i]) && ctx.cdr[i] == old(ctx.cdr[i])
    ensures !r.Cell? ==> ctx.Live() == old(ctx.Live())
    ensures r.Cell? ==> r.obj !in old(ctx.Live()) && ctx.Live() == old(ctx.Live()) + {r.obj}
    ensures r.Cell? ==> ctx.lost == old(ctx.lost)
    ensures r.Cell? ==> r.obj != 0 && Building(ctx, r.obj, cells, chunks) && cells == cells0 + [r.obj]
    ensures r.Cell? ==> chunks == chunks0 + [[]]
    ensures r.Cell? ==>
      ctx.gcstack[..ctx.gcstackIdx] == old(ctx.gcstack[..ctx.gcstackIdx]) + (if tail == 0 then [r.obj] else [])
  {
    hide Context.Valid, Context.Sound, Type, Context.Live, StringWord, Addr, WellFormed, StringAt, Context.Snapshot;
    ctx.AtRest();
    ghost var h, stack := ctx.Snapshot(), ctx.gcstack[..ctx.gcstackIdx];
    cells, chunks := cells0, chunks0;
    if tail != 0 { HeadLive(ctx, tail, cells0, chunks0); }
    r := NewString(ctx);
    if !r.Cell? { return; }
    ctx.AtRest();
    cells, chunks := cells0 + [r.obj], chunks0 + [[]];
    if tail == 0 {
      FirstCell(ctx.Snapshot(), ctx.count, r.obj);
      assert ctx.gcstack[ctx.gcstackIdx - 1] == ctx.gcstack[..ctx.gcstackIdx][|stack|];
    } else {
      StringKept(h, ctx.Snapshot(), ctx.count, cells0, chunks0);
      LinkNew(ctx, r.obj, cells0, chunks0, tail, stack);
    }
  }

  /** The same, with the gc stack as it was before the new cell was on it. */
  method LinkNew(ctx: Context, obj: nat, ghost cells: seq<nat>, ghost chunks: seq<seq<byte>>, tail: nat,
                 ghost stack: seq<nat>)
    requires ctx.Valid() && ctx.Sound() && ctx.gcstackIdx <= ctx.gcstack.Length
    requires |ctx.Snapshot().car| == |ctx.Snapshot().cdr| == ctx.count + 1
    requires StringAt(ctx.Snapshot(), ctx.count, cells, chunks) && tail == cells[|cells| - 1] && obj !in cells
    requires stack != [] && ctx.gcstack[..ctx.gcstackIdx] == stack + [obj] && stack[|stack| - 1] == cells[0]
    requires 1 <= obj <= ctx.count && ctx.car[obj] == StringWord([]) && ctx.cdr[obj] == Addr(0)
    modifies ctx.car, ctx.cdr, ctx`lost, ctx`gcstackIdx
    ensures ctx.Valid() && ctx.Sound() && ctx.Live() == old(ctx.Live()) && ctx.lost == old(ctx.lost)
    ensures ctx.gcstackIdx == |stack| <= ctx.gcstack.Length && ctx.gcstack[..ctx.gcstackIdx] == stack
    ensures Building(ctx, obj, cells + [obj], chunks + [[]])
    ensures forall i :: 0 <= i <= ctx.count && i != tail ==>
      ctx.car[i] == old(ctx.car[i]) && ctx.cdr[i] == old(ctx.cdr[i])
  {
    hide Context.Valid, Context.Sound, Type, Context.Live, StringWord, Addr, WellFormed, Context.Snapshot;
    ghost var all, n := ctx.gcstack[..ctx.gcstackIdx], |stack|;
    assert all[n] == obj && all[n - 1] == stack[n - 1];
    Link(ctx, obj, cells, chunks, tail);
    ctx.AtRest();
    assert ctx.gcstack[..ctx.gcstackIdx] == all[..n] == stack;
    assert ctx.gcstack[ctx.gcstackIdx - 1] == stack[n - 1];
  }

  lemma HeadLive(ctx: Context, tail: nat, cells: seq<nat>, chunks: seq<seq<byte>>)
    requires ctx.Valid() && ctx.Sound() && tail != 0 && Building(ctx, tail, cells, chunks)
    ensures |cells| == |chunks| > 0 && |ctx.Snapshot().car| == |ctx.Snapshot().cdr| == ctx.count + 1
    ensures forall k :: 0 <= k < |cells| ==> 1 <= cells[k] <= ctx.count && cells[k] in ctx.Live()
  {
    hide Context.Valid, Context.Sound, WellFormed, ReachSet;
    ctx.AtRest();
    RootLive(ctx, ctx.gcstackIdx - 1);
    LiveString(ctx, cells, chunks);
  }

  lemma FirstCell(h: Cells, count: nat, obj: nat)
    requires |h.car| == |h.cdr| == count + 1 && 1 <= obj <= count
    requires h.car[obj] == StringWord([]) && h.cdr[obj] == Addr(0)
    ensures StringAt(h, count, [] + [obj], [] + [[]])
  {
  }

  /** Whether the last cell of a string is full: its last character is not 0. */
  lemma FullCell(h: Cells, count: nat, cells: seq<nat>, chunks: seq<seq<byte>>)
    requires |h.car| == |h.cdr| == count + 1 && StringAt(h, count, cells, chunks)
    ensures ByteOf(h.car[cells[|cells| - 1]], 7) == 0 <==> |chunks[|chunks| - 1]| < 7
  {
    hide StringWord, ByteOf, Addr;
    var c := chunks[|chunks| - 1];
    StringBytes(c, 6);
    if |c| == 7 { assert c[6] in c; }
  }

  /**
    buildstring: one character more (none if it is 0) at the end of the string that ends with `tail`,
    in a new cell if the last one is full.  Only the string's own cells change.
   */
  method BuildString(ctx: Context, tail: nat, chr: byte, ghost cells0: seq<nat>, ghost chunks0: seq<seq<byte>>)
    returns (r: Result, ghost cells: seq<nat>, ghost chunks: seq<seq<byte>>)
    requires ctx.Valid() && ctx.Sound() && Building(ctx, tail, cells0, chunks0)
    modifies ctx`freelist, ctx`free, ctx`lost, ctx`gcstackIdx, ctx.car, ctx.cdr, ctx.gcstack
    ensures ctx.Valid() && ctx.Sound()
    ensures forall i: nat :: 1 <= i <= ctx.count && i in old(ctx.Live()) && i !in cells0 ==>
      ctx.car[i] == old(ctx.car[i]) && ctx.cdr[i] == old(ctx.cdr[i])
    ensures !r.Cell? ==> ctx.Live() == old(ctx.Live())
    ensures r.Cell? ==> r.obj != 0 && Building(ctx, r.obj, cells, chunks) && ctx.lost == old(ctx.lost)
    ensures r.Cell? ==> Joined(chunks) == Joined(chunks0) + (if chr == 0 then [] else [chr])
    ensures r.Cell? ==> cells == cells0 || (cells == cells0 + [r.obj] && r.obj !in old(ctx.Live()))
    ensures r.Cell? ==> ctx.Live() == old(ctx.Live()) + {r.obj} && (tail == 0 ==> |cells| == 1)
    ensures r.Cell? ==>
      ctx.gcstack[..ctx.gcstackIdx] == old(ctx.gcstack[..ctx.gcstackIdx]) + (if tail == 0 then [r.obj] else [])
  {
    hide Context.Valid, Context.Sound, Context.Live, StringAt, Context.Snapshot, Joined, ByteOf;
    ctx.AtRest();
    cells, chunks := cells0, chunks0;
    r := Cell(tail);
    if tail != 0 {
      HeadLive(ctx, tail, cells0, chunks0);
      FullCell(ctx.Snapshot(), ctx.count, cells0, chunks0);
    }
    if tail == 0 || ByteOf(ctx.car[tail], 7) != 0 {
      r, cells, chunks := Extend(ctx, tail, cells0, chunks0);
      if !r.Cell? { return; }
      JoinedEmpty(chunks0);
    }
    if chr != 0 {
      AddChar(ctx, r.obj, chr, cells, chunks);
      JoinedPut(chunks, [chr]);
      chunks := chunks[|chunks| - 1 := chunks[|chunks| - 1] + [chr]];
    }
  }

  method AddChar(ctx: Context, tail: nat, chr: byte, ghost cells: seq<nat>, ghost chunks: seq<seq<byte>>)
    requires ctx.Valid() && ctx.Sound() && tail != 0 && Building(ctx, tail, cells, chunks)
    requires chunks != [] && |chunks[|chunks| - 1]| < 7 && chr != 0
    modifies ctx.car, ctx.cdr, ctx`lost
    ensures ctx.Valid() && ctx.Sound() && ctx.Live() == old(ctx.Live()) && ctx.lost == old(ctx.lost)
    ensures var n := |chunks| - 1; Building(ctx, tail, cells, chunks[n := chunks[n] + [chr]])
    ensures forall i :: 0 <= i <= ctx.count && i != tail ==>
      ctx.car[i] == old(ctx.car[i]) && ctx.cdr[i] == old(ctx.cdr[i])
  {
    hide Context.Valid, Context.Sound, Context.Live, StringAt, Context.Snapshot;
    ctx.AtRest();
    HeadLive(ctx, tail, cells, chunks);
    PutChar(ctx, tail, chr, cells, chunks);
    ctx.AtRest();
  }

  /**
    fe_string: a string of new cells with the given text.  Only its head is put on the gc stack, and
    whatever could be reached before is as it was, although any of its cells may have cost a collection.
   */
  method FeString(ctx: Context, str: seq<byte>) returns (r: Result, ghost cells: seq<nat>, ghost chunks: seq<seq<byte>>)
    requires ctx.Valid() && ctx.Sound() && 0 !in str
    modifies ctx`freelist, ctx`free, ctx`lost, ctx`gcstackIdx, ctx.car, ctx.cdr, ctx.gcstack
    ensures ctx.Valid() && ctx.Sound()
    ensures forall i: nat :: 1 <= i <= ctx.count && i in old(ctx.Live()) ==>
      ctx.car[i] == old(ctx.car[i]) && ctx.cdr[i] == old(ctx.cdr[i])
    ensures r.Cell? ==> |ctx.Snapshot().car| == |ctx.Snapshot().cdr| == ctx.count + 1
    ensures r.Cell? ==> StringAt(ctx.Snapshot(), ctx.count, cells, chunks) && cells[0] == r.obj && Joined(chunks) == str
    ensures r.Cell? ==> cells[0] in ctx.Live() && forall k :: 0 <= k < |cells| ==> cells[k] !in old(ctx.Live())
    ensures r.Cell? ==> ctx.gcstack[..ctx.gcstackIdx] == old(ctx.gcstack[..ctx.gcstackIdx]) + [r.obj]
  {
    hide Context.Valid, Context.Sound, Context.Live, StringAt, Context.Snapshot, Joined;
    ctx.AtRest();
    ghost var live, car, cdr, stack := ctx.Live(), ctx.car[..], ctx.cdr[..], ctx.gcstack[..ctx.gcstackIdx];
    NoText();
    r, cells, chunks := BuildString(ctx, 0, 0, [], []);
    if !r.Cell? { return; }
    var head := r.obj;
    assert str[..0] == [];
    for i := 0 to |str|
      invariant ctx.Valid() && ctx.Sound() && r.Cell? && r.obj != 0 && Building(ctx, r.obj, cells, chunks)
      invariant |cells| > 0 && cells[0] == head && Joined(chunks) == str[..i] && live <= ctx.Live()
      invariant forall k :: 0 <= k < |cells| ==> cells[k] !in live
      invariant ctx.gcstack[..ctx.gcstackIdx] == stack + [head]
      invariant forall i: nat :: 1 <= i <= ctx.count && i in live ==> ctx.car[i] == car[i] && ctx.cdr[i] == cdr[i]
    {
      assert str[i] in str && str[..i + 1] == str[..i] + [str[i]];
      r, cells, chunks := BuildString(ctx, r.obj, str[i], cells, chunks);
      if !r.Cell? { return; }
    }
    assert str[..|str|] == str;
    HeadLive(ctx, r.obj, cells, chunks);
    ctx.AtRest();
    r := Cell(head);
  }

  lemma NoText()
    ensures Joined([]) == []
  {
  }
}
