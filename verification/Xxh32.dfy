/** XXH32 of lib/lz4/xxhash.c: the hash, and its streaming state. */
module Xxh32 {
  import opened Bytes
  import opened Words32

  const PRIME32_1: u32 := 2654435761
  const PRIME32_2: u32 := 2246822519
  const PRIME32_3: u32 := 3266489917
  const PRIME32_4: u32 := 668265263
  const PRIME32_5: u32 := 374761393

  // ---------------------------------------------------------------- the hash

  function Round(seed: u32, input: u32): (r: u32) {
    (seed + input * PRIME32_2).RotateLeft(13) * PRIME32_1
  }

  /** The little-endian word at i. */
  function Word(b: seq<byte>, i: nat): (w: u32)
    requires i + 4 <= |b|
  {
    AsWord(LE32(b[i], b[i + 1], b[i + 2], b[i + 3]))
  }

  datatype Lanes = Lanes(v1: u32, v2: u32, v3: u32, v4: u32)

  function Start(seed: u32): (a: Lanes) {
    Lanes(seed + PRIME32_1 + PRIME32_2, seed + PRIME32_2, seed, seed - PRIME32_1)
  }

  function Stripe(a: Lanes, b: seq<byte>, at: nat): (r: Lanes)
    requires at + 16 <= |b|
  {
    Lanes(Round(a.v1, Word(b, at)), Round(a.v2, Word(b, at + 4)),
          Round(a.v3, Word(b, at + 8)), Round(a.v4, Word(b, at + 12)))
  }

  /** The lanes behind the first n stripes of 16 bytes. */
  function Stripes(a: Lanes, b: seq<byte>, n: nat): (r: Lanes)
    requires 16 * n <= |b|
  {
    if n == 0 then a else Stripe(Stripes(a, b, n - 1), b, 16 * (n - 1))
  }

  function Merge(a: Lanes): (h: u32) {
    a.v1.RotateLeft(1) + a.v2.RotateLeft(7) + a.v3.RotateLeft(12) + a.v4.RotateLeft(18)
  }

  function WordStep(h: u32, w: u32): (r: u32) { (h + w * PRIME32_3).RotateLeft(17) * PRIME32_4 }

  function ByteStep(h: u32, b: byte): (r: u32) { (h + AsWord(b) * PRIME32_5).RotateLeft(11) * PRIME32_1 }

  /** The bytes from p on: words as long as there are any, then single bytes. */
  function Tail(h: u32, b: seq<byte>, p: nat): (r: u32)
    requires p <= |b|
    decreases |b| - p
  {
    if p + 4 <= |b| then Tail(WordStep(h, Word(b, p)), b, p + 4)
    else if p < |b| then Tail(ByteStep(h, b[p]), b, p + 1)
    else h
  }

  function Avalanche(h0: u32): (r: u32) {
    var h1 := (h0 ^ (h0 >> 15)) * PRIME32_2;
    var h2 := (h1 ^ (h1 >> 13)) * PRIME32_3;
    h2 ^ (h2 >> 16)
  }

  function Small(seed: u32): (h: u32) { seed + PRIME32_5 }

  function AddLength(h: u32, n: nat): (r: u32)
    requires n < TWO32
  {
    h + AsWord(n)
  }

  /** The lanes, if there was a stripe at all, and the length. */
  function Head(a: Lanes, seed: u32, n: nat): (h: u32) {
    AddLength(if n >= 16 then Merge(a) else Small(seed), n % TWO32)
  }

  /** The hash of b. */
  function Hash(b: seq<byte>, seed: u32): (r: u32) {
    var n := |b| / 16;
    Avalanche(Tail(Head(Stripes(Start(seed), b, n), seed, |b|), b[16 * n..], 0))
  }

  /** The hash as a number. */
  function Checksum(b: seq<byte>): (r: nat)
    ensures r < TWO32
  {
    Hash(b, 0) as int
  }

  lemma WordSame(b: seq<byte>, i: nat, c: seq<byte>, j: nat)
    requires i + 4 <= |b| && j + 4 <= |c| && b[i..i + 4] == c[j..j + 4]
    ensures Word(b, i) == Word(c, j)
  {
    var x, y := b[i..i + 4], c[j..j + 4];
    assert b[i] == x[0] && b[i + 1] == x[1] && b[i + 2] == x[2] && b[i + 3] == x[3];
    assert c[j] == y[0] && c[j + 1] == y[1] && c[j + 2] == y[2] && c[j + 3] == y[3];
  }

  lemma StripeSame(a: Lanes, b: seq<byte>, i: nat, c: seq<byte>, j: nat)
    requires i + 16 <= |b| && j + 16 <= |c| && b[i..i + 16] == c[j..j + 16]
    ensures Stripe(a, b, i) == Stripe(a, c, j)
  {
    hide Round, Word;
    StripeWord(b, i, c, j, 0);
    StripeWord(b, i, c, j, 4);
    StripeWord(b, i, c, j, 8);
    StripeWord(b, i, c, j, 12);
  }

  lemma StripeWord(b: seq<byte>, i: nat, c: seq<byte>, j: nat, k: nat)
    requires i + 16 <= |b| && j + 16 <= |c| && b[i..i + 16] == c[j..j + 16] && k <= 12
    ensures Word(b, i + k) == Word(c, j + k)
  {
    var x, y := b[i..i + 16], c[j..j + 16];
    assert b[i + k] == x[k] && b[i + (k + 1)] == x[k + 1] && b[i + (k + 2)] == x[k + 2] && b[i + (k + 3)] == x[k + 3];
    assert c[j + k] == y[k] && c[j + (k + 1)] == y[k + 1] && c[j + (k + 2)] == y[k + 2] && c[j + (k + 3)] == y[k + 3];
  }

  /** What follows has no influence on the lanes. */
  lemma {:induction false} StripesPrefix(a: Lanes, b: seq<byte>, more: seq<byte>, n: nat)
    requires 16 * n <= |b|
    ensures Stripes(a, b + more, n) == Stripes(a, b, n)
  {
    hide Stripe;
    if n > 0 {
      StripesPrefix(a, b, more, n - 1);
      assert (b + more)[16 * (n - 1)..16 * n] == b[16 * (n - 1)..16 * n];
      StripeSame(Stripes(a, b, n - 1), b + more, 16 * (n - 1), b, 16 * (n - 1));
    }
  }

  // ---------------------------------------------------------------- working in place

  /** XXH_readLE32 */
  method ReadLE32(b: array<byte>, p: nat) returns (w: u32)
    requires p + 4 <= b.Length
    ensures w == Word(b[..], p)
  {
    w := AsWord(LE32(b[p], b[p + 1], b[p + 2], b[p + 3]));
  }

  /** One stripe of the array; where it stands does not matter. */
  method RoundsAt(a: Lanes, b: array<byte>, p: nat, ghost s: seq<byte>, ghost at: nat) returns (r: Lanes)
    requires p + 16 <= b.Length && at + 16 <= |s| && b[p..p + 16] == s[at..at + 16]
    ensures r == Stripe(a, s, at)
  {
    hide Word, Round;
    var w1 := ReadLE32(b, p);
    var w2 := ReadLE32(b, p + 4);
    var w3 := ReadLE32(b, p + 8);
    var w4 := ReadLE32(b, p + 12);
    r := Lanes(Round(a.v1, w1), Round(a.v2, w2), Round(a.v3, w3), Round(a.v4, w4));
    StripeSame(a, b[..], p, s, at);
  }

  /** Whole stripes of the input from p on, those of s from number k on. */
  method RoundsOver(a: Lanes, b: array<byte>, p0: nat, end: nat, ghost s: seq<byte>, ghost k0: nat, ghost a0: Lanes)
    returns (r: Lanes, p: nat)
    requires p0 <= end <= b.Length && 16 * k0 + (end - p0) == |s| && s[16 * k0..] == b[p0..end]
    requires a == Stripes(a0, s, k0)
    ensures p0 <= p <= end < p + 16 && (p - p0) % 16 == 0
    ensures r == Stripes(a0, s, k0 + (p - p0) / 16) && 16 * (k0 + (p - p0) / 16) + (end - p) == |s|
  {
    hide Stripe;
    r, p := a, p0;
    ghost var k := k0;
    while p + 16 <= end
      invariant p0 <= p <= end && k0 <= k && p - p0 == 16 * (k - k0) && r == Stripes(a0, s, k)
    {
      StripeThere(b[..], p0, end, s, 16 * k0, p);
      r := RoundsAt(r, b, p, s, 16 * k);
      p, k := p + 16, k + 1;
    }
  }

  lemma StripeThere(b: seq<byte>, p0: nat, end: nat, s: seq<byte>, at: nat, p: nat)
    requires p0 <= p && p + 16 <= end <= |b| && at + (end - p0) == |s| && s[at..] == b[p0..end]
    ensures b[p..p + 16] == s[at + (p - p0)..at + (p - p0) + 16]
  {
    var d := p - p0;
    SubSlice(b, p0, end, d, 16);
    SubSlice(s, at, |s|, d, 16);
    assert s[at..|s|] == s[at..];
    assert p0 + d == p;
  }

  lemma TailWord(h: u32, b: seq<byte>, p: nat)
    requires p + 4 <= |b|
    ensures Tail(h, b, p) == Tail(WordStep(h, Word(b, p)), b, p + 4)
  {
    hide WordStep, ByteStep, Word;
  }

  lemma TailByte(h: u32, b: seq<byte>, p: nat)
    requires p < |b| < p + 4
    ensures Tail(h, b, p) == Tail(ByteStep(h, b[p]), b, p + 1)
  {
    hide WordStep, ByteStep, Word;
  }

  lemma TailEnd(h: u32, b: seq<byte>)
    ensures Tail(h, b, |b|) == h
  {
  }

  /** The end of both forms of the hash: the last bytes b[from..end], and the mixing of the result. */
  method Finish(h0: u32, b: array<byte>, from: nat, end: nat) returns (r: u32)
    requires from <= end <= b.Length
    ensures r == Avalanche(Tail(h0, b[from..end], 0))
  {
    hide Word, WordStep, ByteStep, Avalanche, Tail;
    ghost var s := b[from..end];
    var h, p := h0, from;
    while p + 4 <= end
      invariant from <= p <= end && Tail(h, s, p - from) == Tail(h0, s, 0)
    {
      var w := ReadLE32(b, p);
      assert b[..][p..p + 4] == s[p - from..p - from + 4];
      WordSame(b[..], p, s, p - from);
      TailWord(h, s, p - from);
      h, p := WordStep(h, w), p + 4;
    }
    while p < end
      invariant from <= p <= end < p + 4 && Tail(h, s, p - from) == Tail(h0, s, 0)
    {
      TailByte(h, s, p - from);
      h, p := ByteStep(h, b[p]), p + 1;
    }
    TailEnd(h, s);
    r := Avalanche(h);
  }

  /** XXH32_endian_align: the hash in one go. */
  method OneShot(b: array<byte>, from: nat, len: nat, seed: u32) returns (r: u32)
    requires from + len <= b.Length
    ensures r == Hash(b[from..from + len], seed)
  {
    hide Start, Stripes, Merge, Small, AddLength, Avalanche, Tail;
    ghost var s := b[from..from + len];
    var h, p := Small(seed), from;
    var a := Start(seed);
    NoStripes(a, s);
    if len >= 16 {
      a, p := RoundsOver(a, b, from, from + len, s, 0, a);
      h := Merge(a);
    }
    h := AddLength(h, len % TWO32);
    assert h == Head(a, seed, len);
    hide Head;
    Sixteenth(len, p - from);
    assert b[p..from + len] == s[p - from..];
    r := Finish(h, b, p, from + len);
  }

  /** XXH32 with seed 0, the only one the frame format uses. */
  method XXH32(b: array<byte>, from: nat, len: nat) returns (r: nat)
    requires from + len <= b.Length
    ensures r == Checksum(b[from..from + len])
  {
    hide Hash;
    var h := OneShot(b, from, len, 0);
    r := h as int;
  }

  lemma NoStripes(a: Lanes, s: seq<byte>)
    ensures Stripes(a, s, 0) == a
  {
  }

  lemma Sixteenth(len: nat, d: nat)
    requires d <= len < d + 16 && d % 16 == 0
    ensures len / 16 == d / 16 && 16 * (len / 16) == d
  {
  }

  // ---------------------------------------------------------------- streaming

  /** XXH32_state_t */
  class State {
    var totalLen32: nat
    var largeLen: bool
    var lanes: Lanes
    const mem: array<byte>
    var memsize: nat
    /** What has been hashed, and from which seed. */
    ghost var content: seq<byte>
    ghost var seed: u32

    /** The lanes have taken all whole stripes of c, and the rest is in the buffer. */
    ghost predicate Holds(c: seq<byte>)
      reads `lanes, `memsize, `seed, mem
    {
      && mem.Length == 16 && memsize < 16 && |c| % 16 == memsize
      && lanes == Stripes(Start(seed), c, |c| / 16)
      && mem[..memsize] == c[16 * (|c| / 16)..]
    }

    ghost predicate Valid()
      reads this, mem
    {
      Holds(content) && totalLen32 == |content| % TWO32 && largeLen == (|content| >= 16)
    }

    constructor ()
      ensures Valid() && mem.Length == 16 && fresh(this) && fresh(mem) && content == [] && seed == 0
    {
      mem := new byte[16](_ => 0);
      totalLen32, largeLen, memsize, content, seed, lanes := 0, false, 0, [], 0, Start(0);
      new;
      Empty();
    }

    lemma Empty()
      requires mem.Length == 16 && memsize == 0 && content == [] && lanes == Start(seed) && totalLen32 == 0 && !largeLen
      ensures Valid()
    {
      hide Start, Stripes;
      NoStripes(lanes, content);
    }

    /** XXH32_reset */
    method Reset(seed0: u32)
      requires mem.Length == 16
      modifies this
      ensures Valid() && content == [] && seed == seed0
    {
      hide *;
      var a := Start(seed0);
      totalLen32, largeLen, memsize, lanes := 0, false, 0, a;
      content, seed := [], seed0;
      Empty();
    }

    /** Bytes that do not complete a stripe. */
    method Keep(input: array<byte>, from: nat, end: nat, ghost c: seq<byte>)
      requires Holds(c) && from <= end <= input.Length && input != mem && memsize + (end - from) < 16
      modifies this`memsize, mem
      ensures Holds(c + input[from..end])
    {
      hide Start, Stripes;
      ghost var add := input[from..end];
      StripesPrefix(Start(seed), c, add, |c| / 16);
      CopyBytes(mem, memsize, input, from, end - from);
      memsize := memsize + (end - from);
      Pieces(c, add, mem[..memsize]);
    }

    /** Fills up the buffer, which then is a stripe. */
    method FillUp(input: array<byte>, from: nat, end: nat, ghost c: seq<byte>) returns (p: nat)
      requires Holds(c) && from <= end <= input.Length && input != mem && 0 < memsize && 16 <= memsize + (end - from)
      modifies this`lanes, this`memsize, mem
      ensures from <= p <= end && memsize == 0
      ensures var s, n := c + input[from..end], |c| / 16 + 1;
        16 * n + (end - p) == |s| && s[16 * n..] == input[p..end] && lanes == Stripes(Start(seed), s, n)
    {
      hide Start, Stripes, Stripe;
      ghost var add, n := input[from..end], |c| / 16;
      ghost var s := c + add;
      StripesPrefix(Start(seed), c, add, n);
      var room := 16 - memsize;
      CopyBytes(mem, memsize, input, from, room);
      FirstStripe(c, add, mem[..], room);
      lanes := RoundsAt(lanes, mem, 0, s, 16 * n);
      NextStripe(Start(seed), s, n);
      p := from + room;
      memsize := 0;
      assert input[p..end] == add[room..];
    }

    /** Whole stripes of the input, and the rest of it to the buffer. */
    method Absorb(input: array<byte>, p: nat, end: nat, ghost s: seq<byte>, ghost n: nat)
      requires mem.Length == 16 && p <= end <= input.Length && input != mem && memsize == 0
      requires 16 * n + (end - p) == |s| && s[16 * n..] == input[p..end] && lanes == Stripes(Start(seed), s, n)
      modifies this`lanes, this`memsize, mem
      ensures Holds(s)
    {
      hide Start, Stripes, Stripe;
      var a, q := RoundsOver(lanes, input, p, end, s, n, Start(seed));
      lanes := a;
      ghost var m := n + (q - p) / 16;
      RestThere(input[..], p, end, s, 16 * n, q);
      if q < end {
        CopyBytes(mem, 0, input, q, end - q);
        memsize := end - q;
      }
      WholeStripes(|s|, m, end - q);
    }

    /** The bytes input[from..end], by way of the buffer as far as need be. */
    method Take(input: array<byte>, from: nat, end: nat, ghost c: seq<byte>)
      requires Holds(c) && from <= end <= input.Length && input != mem
      modifies this`lanes, this`memsize, mem
      ensures Holds(c + input[from..end])
    {
      hide Start, Stripes;
      ghost var s, n := c + input[from..end], |c| / 16;
      if memsize + (end - from) < 16 {
        Keep(input, from, end, c);
      } else if memsize > 0 {
        var p := FillUp(input, from, end, c);
        Absorb(input, p, end, s, n + 1);
      } else {
        StripesPrefix(Start(seed), c, input[from..end], n);
        assert s[16 * n..] == input[from..end];
        Absorb(input, from, end, s, n);
      }
    }

    /** XXH32_update, with the bytes input[from..end]. */
    method Update(input: array<byte>, from: nat, end: nat)
      requires Valid() && from <= end <= input.Length && input != mem
      modifies this`totalLen32, this`largeLen, this`lanes, this`memsize, this`content, mem
      ensures Valid() && content == old(content) + input[from..end]
    {
      hide Holds;
      var len := end - from;
      Lengths(content, len);
      totalLen32 := (totalLen32 + len % TWO32) % TWO32;
      largeLen := largeLen || len >= 16 || totalLen32 >= 16;
      Take(input, from, end, content);
      content := content + old(input[from..end]);
    }

    /** XXH32_digest */
    method Digest() returns (r: u32)
      requires Valid()
      ensures r == Hash(content, seed)
    {
      hide Start, Stripes, Merge, Small, AddLength, Avalanche, Tail;
      SeedKept(seed, content);
      var h := Small(lanes.v3);
      if largeLen { h := Merge(lanes); }
      h := AddLength(h, totalLen32);
      r := Finish(h, mem, 0, memsize);
      assert mem[0..memsize] == mem[..memsize];
    }
  }

  /** The digest of a hash with seed 0, as a number. */
  method Result(s: State) returns (r: nat)
    requires s.Valid() && s.seed == 0
    ensures r == Checksum(s.content)
  {
    hide Hash;
    var h := s.Digest();
    r := h as int;
  }

  /** The wrapped length counter, and the flag that outlives its wrapping. */
  lemma Lengths(c: seq<byte>, len: nat)
    ensures (|c| % TWO32 + len % TWO32) % TWO32 == (|c| + len) % TWO32
    ensures (|c| >= 16 || len >= 16 || (|c| + len) % TWO32 >= 16) <==> |c| + len >= 16
  {
    if |c| < 16 && len < 16 {
      assert (|c| + len) % TWO32 == |c| + len;
    }
  }

  /** Bytes that do not complete a stripe. */
  lemma Pieces(c: seq<byte>, add: seq<byte>, m: seq<byte>)
    requires |c| % 16 + |add| < 16 && m == c[16 * (|c| / 16)..] + add
    ensures var s := c + add; |s| / 16 == |c| / 16 && |s| % 16 == |c| % 16 + |add| && m == s[16 * (|s| / 16)..]
  {
    WholeStripes(|c| + |add|, |c| / 16, |c| % 16 + |add|);
  }

  lemma WholeStripes(len: nat, n: nat, rest: nat)
    requires 16 * n + rest == len && rest < 16
    ensures len / 16 == n && len % 16 == rest
  {
  }

  /** The buffer, filled up, is the next stripe. */
  lemma FirstStripe(c: seq<byte>, add: seq<byte>, m: seq<byte>, room: nat)
    requires 0 < room <= |add| && room == 16 - |c| % 16
    requires m == c[16 * (|c| / 16)..] + add[..room]
    ensures var s, at := c + add, 16 * (|c| / 16);
      at + 16 <= |s| && m[0..16] == s[at..at + 16] && s[at + 16..] == add[room..]
  {
  }

  lemma NextStripe(a: Lanes, s: seq<byte>, n: nat)
    requires 16 * n + 16 <= |s|
    ensures Stripes(a, s, n + 1) == Stripe(Stripes(a, s, n), s, 16 * n)
  {
  }

  lemma RestThere(b: seq<byte>, p: nat, end: nat, s: seq<byte>, at: nat, q: nat)
    requires p <= q <= end <= |b| && at + (end - p) == |s| && s[at..] == b[p..end]
    ensures b[q..end] == s[at + (q - p)..]
  {
    assert b[q..end] == b[p..end][q - p..] && s[at + (q - p)..] == s[at..][q - p..];
  }

  /** Before the first stripe the third lane is the seed. */
  lemma SeedKept(seed: u32, c: seq<byte>)
    ensures |c| < 16 ==> Stripes(Start(seed), c, |c| / 16).v3 == seed
  {
  }
}
