/** The finite map that the AVL tree of lib/avl/avl.c stands for: its entries in ascending order. */
module AvlOrder {
  import opened Bytes

  /** A void pointer; only the comparator looks at what it points to. */
  type Pointer = nat

  type Entry = (Pointer, Pointer)

  type Comparator = (Pointer, Pointer) -> int

  /** A comparator that orders keys, and may take different keys for the same. */
  ghost predicate IsOrder(cmp: Comparator) {
    && (forall a, b :: cmp(a, b) < 0 <==> cmp(b, a) > 0)
    && (forall a :: cmp(a, a) == 0)
    && (forall a, b, c :: cmp(a, b) <= 0 && cmp(b, c) <= 0 ==> cmp(a, c) <= 0)
  }

  predicate Ascending(cmp: Comparator, s: seq<Entry>) {
    |s| <= 1 || (cmp(s[0].0, s[1].0) < 0 && Ascending(cmp, s[1..]))
  }

  /** The value of the entry whose key is the same as k. */
  function Lookup(cmp: Comparator, s: seq<Entry>, k: Pointer): (r: Option<Pointer>) {
    if s == [] then None
    else if cmp(k, s[0].0) == 0 then Some(s[0].1)
    else Lookup(cmp, s[1..], k)
  }

  /** A new entry at its place, unless the key has one. */
  function Put(cmp: Comparator, s: seq<Entry>, k: Pointer, v: Pointer): (r: seq<Entry>) {
    if s == [] then [(k, v)]
    else if cmp(k, s[0].0) < 0 then [(k, v)] + s
    else if cmp(k, s[0].0) == 0 then s
    else [s[0]] + Put(cmp, s[1..], k, v)
  }

  /** Without the entry of the key. */
  function Drop(cmp: Comparator, s: seq<Entry>, k: Pointer): (r: seq<Entry>) {
    if s == [] then []
    else if cmp(k, s[0].0) == 0 then s[1..]
    else [s[0]] + Drop(cmp, s[1..], k)
  }

  // ---------------------------------------------------------------- it is a map

  lemma Between(cmp: Comparator, a: Pointer, b: Pointer, c: Pointer)
    requires IsOrder(cmp)
    ensures cmp(a, b) < 0 && cmp(b, c) <= 0 ==> cmp(a, c) < 0
    ensures cmp(a, b) <= 0 && cmp(b, c) < 0 ==> cmp(a, c) < 0
  {
    if cmp(a, c) >= 0 { assert cmp(c, a) <= 0; }
  }

  /** The same key: above and below the same keys. */
  lemma Same(cmp: Comparator, a: Pointer, b: Pointer, c: Pointer)
    requires IsOrder(cmp) && cmp(a, b) == 0
    ensures cmp(b, a) == 0 && (cmp(a, c) < 0 <==> cmp(b, c) < 0) && (cmp(a, c) > 0 <==> cmp(b, c) > 0)
  {
    assert cmp(b, a) == 0;
    assert cmp(b, c) <= 0 ==> cmp(a, c) <= 0;
    assert cmp(a, c) <= 0 ==> cmp(b, c) <= 0;
    assert cmp(c, b) <= 0 ==> cmp(c, a) <= 0;
    assert cmp(c, a) <= 0 ==> cmp(c, b) <= 0;
  }

  lemma Flip(cmp: Comparator, a: Pointer, b: Pointer)
    requires IsOrder(cmp)
    ensures (cmp(a, b) < 0 <==> cmp(b, a) > 0) && (cmp(a, b) == 0 <==> cmp(b, a) == 0)
  {
    assert cmp(b, a) < 0 <==> cmp(a, b) > 0;
  }

  /** A key below the first is below all. */
  lemma {:induction false} NoneBelow(cmp: Comparator, s: seq<Entry>, k: Pointer)
    requires IsOrder(cmp) && Ascending(cmp, s) && (s == [] || cmp(k, s[0].0) < 0)
    ensures Lookup(cmp, s, k) == None
  {
    hide IsOrder;
    if |s| > 1 { Between(cmp, k, s[0].0, s[1].0); }
    if s != [] { NoneBelow(cmp, s[1..], k); }
  }

  /** Keys that are the same find the same. */
  lemma {:induction false} SameKey(cmp: Comparator, s: seq<Entry>, j: Pointer, k: Pointer)
    requires IsOrder(cmp) && cmp(j, k) == 0
    ensures Lookup(cmp, s, j) == Lookup(cmp, s, k)
  {
    hide IsOrder;
    if s != [] {
      Same(cmp, j, k, s[0].0);
      SameKey(cmp, s[1..], j, k);
    }
  }

  /** The order is kept, and there is one entry more exactly if the key had none. */
  lemma {:induction false} PutKeepsOrder(cmp: Comparator, s: seq<Entry>, k: Pointer, v: Pointer)
    requires IsOrder(cmp) && Ascending(cmp, s)
    ensures Ascending(cmp, Put(cmp, s, k, v))
    ensures |Put(cmp, s, k, v)| == |s| + if Lookup(cmp, s, k) == None then 1 else 0
  {
    hide IsOrder;
    if s != [] {
      var r, more := Put(cmp, s, k, v), Put(cmp, s[1..], k, v);
      PutKeepsOrder(cmp, s[1..], k, v);
      if cmp(k, s[0].0) < 0 {
        NoneBelow(cmp, s, k);
        assert r[1..] == s;
      } else if cmp(k, s[0].0) > 0 {
        Flip(cmp, k, s[0].0);
        assert r[1..] == more && (more[0] == (k, v) || more[0] == s[1]);
      }
    }
  }

  /** The key has the new value if it had none; all others have theirs. */
  lemma {:induction false} PutFinds(cmp: Comparator, s: seq<Entry>, k: Pointer, v: Pointer, j: Pointer)
    requires IsOrder(cmp) && Ascending(cmp, s)
    ensures Lookup(cmp, Put(cmp, s, k, v), j) ==
      if cmp(j, k) == 0 && Lookup(cmp, s, k) == None then Some(v) else Lookup(cmp, s, j)
  {
    hide IsOrder;
    if cmp(j, k) == 0 { SameKey(cmp, s, j, k); }
    if s == [] {
      assert Put(cmp, s, k, v)[1..] == [];
    } else if cmp(k, s[0].0) < 0 {
      NoneBelow(cmp, s, k);
      assert Put(cmp, s, k, v)[1..] == s;
    } else if cmp(k, s[0].0) > 0 {
      PutFinds(cmp, s[1..], k, v, j);
      assert Put(cmp, s, k, v)[1..] == Put(cmp, s[1..], k, v);
      if cmp(j, k) == 0 { Same(cmp, j, k, s[0].0); }
    }
  }

  /** The order is kept, and there is one entry less exactly if the key had one. */
  lemma {:induction false} DropKeepsOrder(cmp: Comparator, s: seq<Entry>, k: Pointer)
    requires IsOrder(cmp) && Ascending(cmp, s)
    ensures Ascending(cmp, Drop(cmp, s, k))
    ensures |Drop(cmp, s, k)| == |s| - if Lookup(cmp, s, k) == None then 0 else 1
  {
    hide IsOrder;
    if s != [] && cmp(k, s[0].0) != 0 {
      var r, more := Drop(cmp, s, k), Drop(cmp, s[1..], k);
      DropKeepsOrder(cmp, s[1..], k);
      assert r[1..] == more;
      if |s| > 2 && more[0] != s[1] { Between(cmp, s[0].0, s[1].0, s[2].0); }
    }
  }

  /** The key has no value; all others have theirs. */
  lemma {:induction false} DropFinds(cmp: Comparator, s: seq<Entry>, k: Pointer, j: Pointer)
    requires IsOrder(cmp) && Ascending(cmp, s)
    ensures Lookup(cmp, Drop(cmp, s, k), j) == if cmp(j, k) == 0 then None else Lookup(cmp, s, j)
  {
    hide IsOrder;
    if s != [] && cmp(k, s[0].0) == 0 {
      Same(cmp, k, s[0].0, j);
      Flip(cmp, j, s[0].0);
      Flip(cmp, j, k);
      if cmp(j, k) == 0 {
        if |s| > 1 { Same(cmp, s[0].0, j, s[1].0); }
        NoneBelow(cmp, s[1..], j);
      }
    } else if s != [] {
      DropFinds(cmp, s[1..], k, j);
      assert Drop(cmp, s, k)[1..] == Drop(cmp, s[1..], k);
      if cmp(j, k) == 0 { Same(cmp, j, k, s[0].0); }
    }
  }

  // ---------------------------------------------------------------- around an entry

  /** Every key of s is below k. */
  predicate Below(cmp: Comparator, s: seq<Entry>, k: Pointer) {
    s == [] || (cmp(k, s[0].0) > 0 && Below(cmp, s[1..], k))
  }

  /** What is left of an entry of an ascending sequence is below any key that is not below the entry. */
  lemma {:induction false} LeftIsBelow(cmp: Comparator, a: seq<Entry>, e: Entry, b: seq<Entry>, k: Pointer)
    requires IsOrder(cmp) && Ascending(cmp, a + [e] + b) && cmp(k, e.0) >= 0
    ensures Below(cmp, a, k)
  {
    hide IsOrder;
    if a != [] {
      var s := a + [e] + b;
      assert s[1..] == a[1..] + [e] + b;
      LeftIsBelow(cmp, a[1..], e, b, k);
      Flip(cmp, k, e.0);
      if |a| == 1 {
        Between(cmp, a[0].0, e.0, k);
        Flip(cmp, a[0].0, k);
      } else {
        Flip(cmp, a[1].0, k);
        Between(cmp, a[0].0, a[1].0, k);
        Flip(cmp, a[0].0, k);
      }
    }
  }

  lemma {:induction false} PartsAscend(cmp: Comparator, a: seq<Entry>, b: seq<Entry>)
    requires Ascending(cmp, a + b)
    ensures Ascending(cmp, a) && Ascending(cmp, b)
  {
    if a == [] {
      assert a + b == b;
    } else {
      assert (a + b)[1..] == a[1..] + b;
      PartsAscend(cmp, a[1..], b);
    }
  }

  /** A key below e concerns only what is left of e. */
  lemma {:induction false} GoLeft(cmp: Comparator, a: seq<Entry>, e: Entry, b: seq<Entry>, k: Pointer, v: Pointer)
    requires IsOrder(cmp) && Ascending(cmp, a + [e] + b) && cmp(k, e.0) < 0
    ensures Put(cmp, a + [e] + b, k, v) == Put(cmp, a, k, v) + [e] + b
    ensures Drop(cmp, a + [e] + b, k) == Drop(cmp, a, k) + [e] + b
    ensures Lookup(cmp, a + [e] + b, k) == Lookup(cmp, a, k)
  {
    hide IsOrder;
    var s := a + [e] + b;
    if a == [] {
      assert s == [e] + b;
      NoneBelow(cmp, s, k);
      DropNothing(cmp, s, k);
    } else {
      assert s[1..] == a[1..] + [e] + b;
      GoLeft(cmp, a[1..], e, b, k, v);
      Front(a[0], Put(cmp, a[1..], k, v), e, b);
      Front(a[0], Drop(cmp, a[1..], k), e, b);
      if cmp(k, a[0].0) < 0 { Front((k, v), a, e, b); }
    }
  }

  lemma Front(x: Entry, a: seq<Entry>, e: Entry, b: seq<Entry>)
    ensures [x] + (a + [e] + b) == ([x] + a) + [e] + b && ([x] + a)[1..] == a
  {
  }

  lemma {:induction false} DropNothing(cmp: Comparator, s: seq<Entry>, k: Pointer)
    requires Lookup(cmp, s, k) == None
    ensures Drop(cmp, s, k) == s
  {
    if s != [] { DropNothing(cmp, s[1..], k); }
  }

  /** A key above all of a concerns only what is right of it. */
  lemma {:induction false} GoRight(cmp: Comparator, a: seq<Entry>, b: seq<Entry>, k: Pointer, v: Pointer)
    requires Below(cmp, a, k)
    ensures Put(cmp, a + b, k, v) == a + Put(cmp, b, k, v)
    ensures Drop(cmp, a + b, k) == a + Drop(cmp, b, k)
    ensures Lookup(cmp, a + b, k) == Lookup(cmp, b, k)
  {
    if a == [] {
      assert a + b == b;
    } else {
      assert (a + b)[1..] == a[1..] + b && (a + b)[0] == a[0];
      GoRight(cmp, a[1..], b, k, v);
      assert a == [a[0]] + a[1..];
      Assoc([a[0]], a[1..], Put(cmp, b, k, v));
      Assoc([a[0]], a[1..], Drop(cmp, b, k));
    }
  }
}
