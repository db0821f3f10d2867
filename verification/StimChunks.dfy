/** A stim: its chunks for each unit, loaded and filled one after another (stim.c). */
module StimChunks {
  import opened Bytes
  import opened StimRecord
  import opened StimProgram
  import opened StimDots
  import opened StimCompiler

  datatype Select = Neither | Only(unit: Unit) | Both

  predicate Uses(s: Select, u: Unit) { s.Both? || (s.Only? && s.unit == u) }

  /** Whether one of the first n pins is in the unit. */
  predicate Touches(pins: seq<nat>, u: Unit, n: nat)
    requires n <= |pins|
  {
    n > 0 && (InUnit(pins[n - 1], u) || Touches(pins, u, n - 1))
  }

  lemma {:induction false} TouchesMore(pins: seq<nat>, u: Unit, m: nat, n: nat)
    requires m <= n <= |pins| && Touches(pins, u, m)
    ensures Touches(pins, u, n)
  {
    if m < n { TouchesMore(pins, u, m, n - 1); }
  }

  /** Unit A1 has the pins below 200, and unit A2 those from there to 400. */
  lemma {:induction false} TouchesIs(pins: seq<nat>, n: nat)
    requires n <= |pins|
    ensures Touches(pins, A1, n) <==> exists i :: 0 <= i < n && pins[i] < 200
    ensures Touches(pins, A2, n) <==> exists i :: 0 <= i < n && 200 <= pins[i] < 400
  {
    if n > 0 { TouchesIs(pins, n - 1); }
  }

  /** get_artix_select_by_profile_pins */
  method SelectUnits(pins: seq<nat>) returns (s: Select)
    ensures forall u :: Uses(s, u) <==> Touches(pins, u, |pins|)
  {
    s := Neither;
    for i := 0 to |pins|
      invariant !s.Both?
      invariant forall u :: Uses(s, u) <==> Touches(pins, u, i)
    {
      if InUnit(pins[i], A1) {
        if s == Only(A2) {
          TouchesMore(pins, A1, i + 1, |pins|);
          TouchesMore(pins, A2, i, |pins|);
          return Both;
        }
        s := Only(A1);
      } else if InUnit(pins[i], A2) {
        if s == Only(A1) {
          TouchesMore(pins, A1, i, |pins|);
          TouchesMore(pins, A2, i + 1, |pins|);
          return Both;
        }
        s := Only(A2);
      }
    }
  }

  /** init_stim's number of chunks, and whether the last one may be smaller. */
  method CountChunks(total: nat) returns (n: nat, lastPartial: bool)
    requires total > 0
    ensures n == NumChunks(total) && n > 0
    ensures lastPartial == (total < CHUNK_VECS || total % CHUNK_VECS != 0 || total == CHUNK_VECS)
  {
    var vecsSize := total * STIM_VEC_SIZE;
    n, lastPartial := 1, true;
    ByteChunks(total);
    if vecsSize > STIM_CHUNK_SIZE {
      n, lastPartial := vecsSize / STIM_CHUNK_SIZE, false;
      if vecsSize % STIM_CHUNK_SIZE != 0 {
        n, lastPartial := n + 1, true;
      }
    }
  }

  lemma ByteChunks(total: nat)
    ensures total * STIM_VEC_SIZE / STIM_CHUNK_SIZE == total / CHUNK_VECS
    ensures total * STIM_VEC_SIZE % STIM_CHUNK_SIZE == total % CHUNK_VECS * STIM_VEC_SIZE
  {
    var q, r := total / CHUNK_VECS, total % CHUNK_VECS;
    assert total * STIM_VEC_SIZE == STIM_CHUNK_SIZE * q + r * STIM_VEC_SIZE;
  }

  /** The vectors of chunk i. */
  method VecsPerChunk(total: nat, i: nat, n: nat, lastPartial: bool) returns (k: nat)
    requires total > 0 && n == NumChunks(total) && i < n
    requires lastPartial == (total < CHUNK_VECS || total % CHUNK_VECS != 0 || total == CHUNK_VECS)
    ensures k == ChunkVecs(total, i)
  {
    var vecsSize := total * STIM_VEC_SIZE;
    ByteChunks(total);
    ChunksCover(total, i);
    if i == n - 1 && lastPartial {
      if vecsSize > STIM_CHUNK_SIZE {
        k := vecsSize % STIM_CHUNK_SIZE / STIM_VEC_SIZE;
        LastChunk(total);
      } else {
        k := vecsSize / STIM_VEC_SIZE;
      }
    } else {
      k := STIM_CHUNK_SIZE / STIM_VEC_SIZE;
      if i == n - 1 { FullLast(total); }
    }
  }

  lemma LastChunk(total: nat)
    requires total > CHUNK_VECS && total % CHUNK_VECS != 0
    ensures ChunkVecs(total, NumChunks(total) - 1) == total % CHUNK_VECS
  {
    var q, r := total / CHUNK_VECS, total % CHUNK_VECS;
    assert total == CHUNK_VECS * q + r;
    assert NumChunks(total) == q + 1;
  }

  lemma FullLast(total: nat)
    requires total > CHUNK_VECS && total % CHUNK_VECS == 0
    ensures ChunkVecs(total, NumChunks(total) - 1) == CHUNK_VECS
  {
    var q := total / CHUNK_VECS;
    assert total == CHUNK_VECS * q;
    assert NumChunks(total) == q;
  }

  /** The chunks of a unit, when the one numbered cur is loaded. */
  ghost predicate ChunkList(chunks: seq<Chunk>, u: Unit, total: nat, cur: int)
    reads chunks
  {
    && -1 <= cur < |chunks|
    && (chunks != [] ==> |chunks| == NumChunks(total))
    && (forall i :: 0 <= i < |chunks| ==>
      && chunks[i].id == i && chunks[i].unit == u && chunks[i].numVecs == ChunkVecs(total, i)
      && chunks[i].vecDataSize == STIM_VEC_SIZE * chunks[i].numVecs
      && if i == cur then chunks[i].isLoaded else chunks[i].Unloaded())
  }

  lemma ListParts(chunks: seq<Chunk>, u: Unit, total: nat, cur: int)
    requires ChunkList(chunks, u, total, cur)
    ensures -1 <= cur < |chunks| && (chunks != [] ==> |chunks| == NumChunks(total))
    ensures forall i :: 0 <= i < |chunks| ==>
      chunks[i].id == i && chunks[i].unit == u && chunks[i].numVecs == ChunkVecs(total, i)
  {
  }

  method CreateChunks(u: Unit, total: nat) returns (chunks: seq<Chunk>)
    requires total > 0 && total % 8 == 0
    ensures ChunkList(chunks, u, total, -1) && chunks != [] && fresh(chunks)
  {
    hide ChunkVecs, NumChunks;
    var n, lastPartial := CountChunks(total);
    chunks := [];
    for i := 0 to n
      invariant |chunks| == i && fresh(chunks)
      invariant forall j :: 0 <= j < i ==>
        && chunks[j].id == j && chunks[j].unit == u && chunks[j].numVecs == ChunkVecs(total, j)
        && chunks[j].vecDataSize == STIM_VEC_SIZE * chunks[j].numVecs && chunks[j].Unloaded()
    {
      var k := VecsPerChunk(total, i, n, lastPartial);
      ChunksCover(total, i);
      var c := new Chunk(i, u, k);
      chunks := chunks + [c];
    }
  }

  /** Behind the first n vectors there are only NOPs. */
  ghost predicate PaddedFrom(vs: seq<Vec>, n: nat, numPins: nat) {
    |vs| >= n && forall i :: n <= i < |vs| ==> vs[i] == Nop(numPins)
  }

  method ChunksFor(s: Select, u: Unit, total: nat, ghost d: Dots) returns (chunks: seq<Chunk>)
    requires total > 0 && total % 8 == 0 && Compilable(d)
    ensures ChunkList(chunks, u, total, -1) && fresh(chunks) && (chunks != [] <==> Uses(s, u))
    ensures Compilable(d)
  {
    hide Compilable, ChunkList;
    chunks := [];
    NoChunks(u, total);
    if Uses(s, u) { chunks := CreateChunks(u, total); }
  }

  method CountUnrolled(d: Dots) returns (n: nat)
    requires Compilable(d)
    modifies d.dotsVecs`hasClk
    ensures Compilable(d) && n == UnrolledTotal(d.Pattern(), |d.Pattern()|)
  {
    n := d.GetNumUnrolled();
  }

  class Stim {
    const dots: Dots
    const numVecs: nat
    const numPaddingVecs: nat
    const numUnrolledVecs: nat
    const a1Chunks: seq<Chunk>
    const a2Chunks: seq<Chunk>
    var curA1: int
    var curA2: int
    ghost const base: seq<Vec> // the program before padding

    function Chunks(u: Unit): (r: seq<Chunk>) { if u.A1? then a1Chunks else a2Chunks }

    function Current(u: Unit): (r: int)
      reads this`curA1, this`curA2
    {
      if u.A1? then curA1 else curA2
    }

    ghost function Total(): (r: nat) { numVecs + numPaddingVecs }

    /** What each unit is to run. */
    ghost function Program(): (r: seq<Vec>)
      ensures |r| == |base| + numPaddingVecs
    {
      Padded(base, numPaddingVecs, |dots.pins|)
    }

    /** Where unit u will go on in the program: behind its loaded chunk. */
    ghost predicate Advanced(u: Unit)
      reads this`curA1, this`curA2, dots`curA1, dots`curA2
    {
      && Cursor(dots, u) <= Total()
      && (Current(u) >= 0 ==> Cursor(dots, u) == Min(CHUNK_VECS * (Current(u) + 1), Total()))
    }

    ghost predicate ProgramHeld()
      reads dots`numDotsVecs, dots`dotsVecs, dots`curAppended, dots.dotsVecs
    {
      && Compilable(dots) && |base| == numVecs > 0 && numPaddingVecs == Padding(numVecs)
      && numVecs <= |dots.Pattern()| && dots.Pattern()[..numVecs] == base
      && PaddedFrom(dots.Pattern(), numVecs, |dots.pins|)
    }

    ghost predicate Valid()
      reads this`curA1, this`curA2, a1Chunks, a2Chunks
      reads dots`curA1, dots`curA2, dots`numDotsVecs, dots`dotsVecs, dots`curAppended, dots.dotsVecs
    {
      && ProgramHeld() && numUnrolledVecs == UnrolledTotal(base, |base|)
      && ChunkList(a1Chunks, A1, Total(), curA1) && ChunkList(a2Chunks, A2, Total(), curA2)
      && (curA1 < 0 || curA2 < 0)
      && Advanced(A1) && Advanced(A2)
    }

    /**
      get_stim_by_dots and init_stim: chunks for the units that the pins are on, none loaded.  The
      limits are those that the source dies at.
     */
    constructor (dots: Dots)
      requires Compilable(dots) && 0 < |dots.pins| <= 400 && 0 < dots.numDotsVecs <= 67108864
      modifies dots`curA1, dots`curA2, dots.dotsVecs`hasClk
      ensures Valid() && this.dots == dots && base == old(dots.Pattern()) && curA1 == curA2 == -1
      ensures numUnrolledVecs == UnrolledTotal(base, |base|)
      ensures Cursor(dots, A1) == Cursor(dots, A2) == 0
      ensures forall u :: Chunks(u) != [] <==> Touches(dots.pins, u, |dots.pins|)
      ensures fresh(a1Chunks) && fresh(a2Chunks)
    {
      hide Compilable, ChunkList, UnrolledTotal, Padding, NumChunks, ChunkVecs;
      dots.curA1, dots.curA2 := 0, 0;
      CompilableParts(dots, 0);
      var unrolled := CountUnrolled(dots);
      var padding := CalcNumPaddingVecs(dots.numDotsVecs);
      var select := SelectUnits(dots.pins);
      var chunks1 := ChunksFor(select, A1, dots.numDotsVecs + padding, dots);
      var chunks2 := ChunksFor(select, A2, dots.numDotsVecs + padding, dots);
      this.dots, numVecs, numPaddingVecs, numUnrolledVecs := dots, dots.numDotsVecs, padding, unrolled;
      a1Chunks, a2Chunks, curA1, curA2 := chunks1, chunks2, -1, -1;
      base := dots.Pattern();
      new;
      NewProgram();
    }

    lemma NewProgram()
      requires Compilable(dots) && base == dots.Pattern() && numVecs == dots.numDotsVecs > 0
      requires numPaddingVecs == Padding(numVecs)
      ensures ProgramHeld()
    {
    }

    /** append_dots_vec_by_nop_vecs before the last chunk of a unit; the second unit pads once more. */
    method PadProgram()
      requires ProgramHeld()
      modifies dots`numDotsVecs, dots`dotsVecs, dots`curAppended
      ensures ProgramHeld() && |dots.Pattern()| >= Total()
      ensures old(dots.dotsVecs) <= dots.dotsVecs
      ensures forall i :: |old(dots.dotsVecs)| <= i < |dots.dotsVecs| ==> fresh(dots.dotsVecs[i])
    {
      hide Nop, Padding, HasClk, Fits;
      ghost var p := dots.Pattern();
      dots.AppendNops(numPaddingVecs);
      PaddedStill(p, numPaddingVecs, base, |dots.pins|);
    }

    /** stim_fill_chunk for a dots stim; before the last chunk the program is padded. */
    method FillChunk(chunk: Chunk, data: array<byte>)
      requires ProgramHeld() && !chunk.isFilled && chunk.curVecId == 0 && chunk.vecData == data
      requires Chunks(chunk.unit) != [] && |Chunks(chunk.unit)| == NumChunks(Total()) && chunk.id < NumChunks(Total())
      requires chunk.numVecs == ChunkVecs(Total(), chunk.id) && data.Length == STIM_VEC_SIZE * chunk.numVecs
      requires Cursor(dots, chunk.unit) == CHUNK_VECS * chunk.id
      modifies chunk`curVecId, chunk`isFilled, data
      modifies dots`curA1, dots`curA2, dots`numDotsVecs, dots`dotsVecs, dots`curAppended, dots.dotsVecs
      ensures old(dots.dotsVecs) <= dots.dotsVecs
      ensures forall i :: |old(dots.dotsVecs)| <= i < |dots.dotsVecs| ==> fresh(dots.dotsVecs[i])
      ensures ProgramHeld() && chunk.isFilled
      ensures Cursor(dots, chunk.unit) == Min(CHUNK_VECS * (chunk.id + 1), Total())
      ensures chunk.unit.A1? ==> dots.curA2 == old(dots.curA2)
      ensures chunk.unit.A2? ==> dots.curA1 == old(dots.curA1)
      ensures CHUNK_VECS * chunk.id + chunk.numVecs <= Total() && AllFit(Program(), |dots.pins|)
      ensures data[..] == Records(dots.pins, chunk.unit, Program()[CHUNK_VECS * chunk.id..], chunk.numVecs)
    {
      hide Compilable, Records, ChunkVecs, NumChunks, Nop, Padding, Padded, PaddedFrom, AllFit;
      var isLast := chunk.id == |Chunks(chunk.unit)| - 1;
      ChunkPlace(numVecs, chunk.id);
      if isLast {
        PadProgram();
      }
      FillProgram(chunk, data);
    }

    /**
      stim_load_next_chunk, for a unit that is read for the first time: unloads the current chunk and
      loads the next, or none after the last.  The other unit must not be in between.
     */
    method LoadNextChunk(u: Unit) returns (r: Chunk?)
      requires Valid() && Current(Other(u)) < 0
      requires Current(u) < 0 && Chunks(u) != [] ==> Cursor(dots, u) == 0
      modifies this`curA1, this`curA2, Chunks(u)
      modifies dots`curA1, dots`curA2, dots`numDotsVecs, dots`dotsVecs, dots`curAppended, dots.dotsVecs
      ensures Valid() && Current(Other(u)) == old(Current(Other(u)))
      ensures Cursor(dots, Other(u)) == old(Cursor(dots, Other(u)))
      ensures old(dots.dotsVecs) <= dots.dotsVecs
      ensures forall i :: |old(dots.dotsVecs)| <= i < |dots.dotsVecs| ==> fresh(dots.dotsVecs[i])
      ensures old(Current(u)) == |Chunks(u)| - 1 ==> r == null && Current(u) == -1
      ensures old(Current(u)) == |Chunks(u)| - 1 ==> Cursor(dots, u) == old(Cursor(dots, u))
      ensures old(Current(u)) != |Chunks(u)| - 1 ==>
        Current(u) == old(Current(u)) + 1 && r == Chunks(u)[Current(u)] && Filled(r)
    {
      hide ProgramHeld, ChunkVecs, NumChunks, Padding, Nop, UnrolledTotal, ChunkList, Filled, AllFit, Records;
      NextPlace(u);
      var cur := Advance(u);
      if cur == -1 { return null; }
      r := Chunks(u)[cur];
      LoadChunk(u, r);
    }

    /** The unit goes on where its next chunk starts. */
    lemma NextPlace(u: Unit)
      requires Valid() && (Current(u) < 0 && Chunks(u) != [] ==> Cursor(dots, u) == 0)
      ensures -1 <= Current(u) < |Chunks(u)| && forall c :: c in Chunks(Other(u)) ==> c !in Chunks(u)
      ensures Current(u) < |Chunks(u)| - 1 ==> Cursor(dots, u) == CHUNK_VECS * (Current(u) + 1)
    {
      hide ProgramHeld, NumChunks, UnrolledTotal, ChunkList;
      ListParts(Chunks(u), u, Total(), Current(u));
      ListParts(Chunks(Other(u)), Other(u), Total(), Current(Other(u)));
      ProgramSize();
      ChunkCount(Total());
    }

    /** Unloads the unit's current chunk and goes on to the next number. */
    method Advance(u: Unit) returns (cur: int)
      requires ChunkList(Chunks(u), u, Total(), Current(u))
      requires ChunkList(Chunks(Other(u)), Other(u), Total(), Current(Other(u)))
      modifies this`curA1, this`curA2, Chunks(u)
      ensures ChunkList(Chunks(Other(u)), Other(u), Total(), Current(Other(u)))
      ensures ChunkList(Chunks(u), u, Total(), -1) && Current(Other(u)) == old(Current(Other(u)))
      ensures cur == Current(u) == if old(Current(u)) == |Chunks(u)| - 1 then -1 else old(Current(u)) + 1
    {
      hide ChunkVecs, NumChunks;
      cur := Current(u);
      if cur != -1 {
        if Chunks(u)[cur].isLoaded { Chunks(u)[cur].Unload(); }
      }
      cur := if cur == |Chunks(u)| - 1 then -1 else cur + 1;
      if u.A1? { curA1 := cur; } else { curA2 := cur; }
    }

    /** Gives the chunk its memory, all ones, and fills it. */
    method LoadChunk(u: Unit, r: Chunk)
      requires ProgramHeld() && ChunkList(Chunks(u), u, Total(), -1)
      requires ChunkList(Chunks(Other(u)), Other(u), Total(), Current(Other(u)))
      requires 0 <= Current(u) < |Chunks(u)| && r == Chunks(u)[Current(u)] && Cursor(dots, u) == CHUNK_VECS * Current(u)
      modifies r, dots`curA1, dots`curA2, dots`numDotsVecs, dots`dotsVecs, dots`curAppended, dots.dotsVecs
      ensures ProgramHeld() && ChunkList(Chunks(u), u, Total(), Current(u)) && Filled(r)
      ensures ChunkList(Chunks(Other(u)), Other(u), Total(), Current(Other(u)))
      ensures old(dots.dotsVecs) <= dots.dotsVecs
      ensures forall i :: |old(dots.dotsVecs)| <= i < |dots.dotsVecs| ==> fresh(dots.dotsVecs[i])
      ensures Cursor(dots, u) == Min(CHUNK_VECS * (Current(u) + 1), Total())
      ensures Cursor(dots, Other(u)) == old(Cursor(dots, Other(u)))
    {
      hide ProgramHeld, ChunkVecs, NumChunks, Padding, Nop, Records;
      var data := new byte[r.vecDataSize](_ => 0xFF);
      r.vecData := data;
      r.isLoaded := true;
      FillChunk(r, data);
      ProgramSize();
    }

    lemma ProgramSize()
      requires ProgramHeld()
      ensures |Program()| == Total() && numVecs > 0 && numPaddingVecs == Padding(numVecs) && AllFit(base, |dots.pins|)
    {
      hide Nop, Fits;
      forall i | 0 <= i < |base| ensures Fits(base[i], |dots.pins|) {
        assert base[i] == dots.Pattern()[..numVecs][i];
      }
    }

    /**
      The first pass over a unit, chunk by chunk, as the serializer and the board driver make it: the
      chunks together are the records of the whole padded program, and what they run is the number of
      vectors that the runner expects, and one for each vector that is repeated no times.
     */
    method CompileUnit(u: Unit) returns (out: seq<byte>)
      requires Valid() && curA1 == curA2 == -1 && Cursor(dots, u) == 0
      modifies this`curA1, this`curA2, Chunks(u)
      modifies dots`curA1, dots`curA2, dots`numDotsVecs, dots`dotsVecs, dots`curAppended, dots.dotsVecs
      ensures Valid() && curA1 == curA2 == -1 && Cursor(dots, Other(u)) == old(Cursor(dots, Other(u)))
      ensures AllFit(Program(), |dots.pins|) && |Program()| == Total()
      ensures Chunks(u) == [] ==> out == []
      ensures Chunks(u) != [] ==> out == Records(dots.pins, u, Program(), Total())
      ensures ExecutedTotal(dots.pins, u, Program(), Total()) ==
        numUnrolledVecs + UncountedTotal(base, |base|) + numPaddingVecs
    {
      hide Valid, Collected, Filled, Records, AllFit, Program, Padded;
      Runs(u);
      out := [];
      NotLoaded(u);
      var chunk := LoadNextChunk(u);
      FirstLoaded(u, chunk);
      while chunk != null
        invariant Valid() && Current(Other(u)) == -1 && Cursor(dots, Other(u)) == old(Cursor(dots, Other(u)))
        invariant old(dots.dotsVecs) <= dots.dotsVecs
        invariant forall i :: |old(dots.dotsVecs)| <= i < |dots.dotsVecs| ==> fresh(dots.dotsVecs[i])
        invariant Collected(u, out, chunk) && (chunk != null ==> 0 <= Current(u) < |Chunks(u)|)
        decreases if chunk == null then 0 else |Chunks(u)| - Current(u)
      {
        chunk, out := Collect(u, chunk, out);
      }
      AllCollected(u, out);
    }

    /** `chunk` is the loaded chunk, and out has the records before it; all records if there is none. */
    ghost predicate Collected(u: Unit, out: seq<byte>, chunk: Chunk?)
      reads this`curA1, this`curA2, Chunks(u), set c | c in Chunks(u) && c.vecData != null :: c.vecData
    {
      AllFit(Program(), |dots.pins|) && |Program()| == Total() &&
      if chunk == null then
        Current(u) == -1 && out == if Chunks(u) == [] then [] else Records(dots.pins, u, Program(), Total())
      else
        && 0 <= Current(u) < |Chunks(u)| && chunk == Chunks(u)[Current(u)] && Filled(chunk)
        && CHUNK_VECS * Current(u) <= Total() && out == Records(dots.pins, u, Program(), CHUNK_VECS * Current(u))
    }

    lemma NotLoaded(u: Unit)
      requires Valid() && curA1 == curA2 == -1
      ensures Current(u) == Current(Other(u)) == -1
    {
    }

    lemma FirstLoaded(u: Unit, chunk: Chunk?)
      requires Valid() && AllFit(Program(), |dots.pins|) && |Program()| == Total()
      requires if Chunks(u) == [] then chunk == null && Current(u) == -1
               else Current(u) == 0 && chunk == Chunks(u)[0] && Filled(chunk)
      ensures Collected(u, [], chunk) && (chunk != null ==> 0 <= Current(u) < |Chunks(u)|)
    {
      hide Filled, Padded;
    }

    lemma AllCollected(u: Unit, out: seq<byte>)
      requires Collected(u, out, null) && AllFit(Program(), |dots.pins|) && |Program()| == Total()
      requires Current(Other(u)) == -1
      ensures curA1 == curA2 == -1
      ensures out == if Chunks(u) == [] then [] else Records(dots.pins, u, Program(), Total())
    {
    }

    /** Takes the loaded chunk's records and loads the next chunk. */
    method Collect(u: Unit, chunk: Chunk, out: seq<byte>) returns (next: Chunk?, all: seq<byte>)
      requires Valid() && Current(Other(u)) == -1 && Collected(u, out, chunk)
      modifies this`curA1, this`curA2, Chunks(u)
      modifies dots`curA1, dots`curA2, dots`numDotsVecs, dots`dotsVecs, dots`curAppended, dots.dotsVecs
      ensures Valid() && Current(Other(u)) == -1 && Cursor(dots, Other(u)) == old(Cursor(dots, Other(u)))
      ensures old(dots.dotsVecs) <= dots.dotsVecs
      ensures forall i :: |old(dots.dotsVecs)| <= i < |dots.dotsVecs| ==> fresh(dots.dotsVecs[i])
      ensures Collected(u, all, next) && (next == null || old(Current(u)) < Current(u) < |Chunks(u)|)
    {
      hide ProgramHeld, ChunkVecs, NumChunks, Padding, Nop, UnrolledTotal, Records, Fits, ChunkList, Padded;
      ghost var k := Current(u);
      ListParts(Chunks(u), u, Total(), k);
      ProgramSize();
      ChunkPlace(numVecs, k);
      RecordsAppend(dots.pins, u, Program(), CHUNK_VECS * k, chunk.numVecs);
      all := out + chunk.vecData[..];
      next := LoadNextChunk(u);
    }

    lemma Runs(u: Unit)
      requires Valid()
      ensures AllFit(Program(), |dots.pins|) && |Program()| == Total()
      ensures ExecutedTotal(dots.pins, u, Program(), Total()) ==
        numUnrolledVecs + UncountedTotal(base, |base|) + numPaddingVecs
    {
      hide Padded, Fits, UnrolledTotal, UncountedTotal, ExecutedTotal, Records;
      ProgramSize();
      ExecutedIs(dots.pins, u, base, numPaddingVecs, Total());
    }

    /** The chunk is loaded with the records of its part of the program. */
    ghost predicate Filled(c: Chunk)
      reads c, c.vecData
    {
      && c.isLoaded && c.isFilled && c.vecData != null
      && AllFit(Program(), |dots.pins|) && CHUNK_VECS * c.id + c.numVecs <= |Program()|
      && c.vecData[..] == Records(dots.pins, c.unit, Program()[CHUNK_VECS * c.id..], c.numVecs)
    }

    /** Fills an empty chunk that the program has enough vectors for. */
    method FillProgram(chunk: Chunk, data: array<byte>)
      requires ProgramHeld() && !chunk.isFilled && chunk.curVecId == 0 && chunk.vecData == data
      requires data.Length == STIM_VEC_SIZE * chunk.numVecs && chunk.numVecs > 0
      requires Cursor(dots, chunk.unit) + chunk.numVecs <= Min(|dots.Pattern()|, Total())
      modifies chunk`curVecId, chunk`isFilled, data, dots`curA1, dots`curA2, dots.dotsVecs
      ensures ProgramHeld() && chunk.isFilled
      ensures Cursor(dots, chunk.unit) == old(Cursor(dots, chunk.unit)) + chunk.numVecs
      ensures chunk.unit.A1? ==> dots.curA2 == old(dots.curA2)
      ensures chunk.unit.A2? ==> dots.curA1 == old(dots.curA1)
      ensures AllFit(Program(), |dots.pins|)
      ensures data[..] == Records(dots.pins, chunk.unit, Program()[old(Cursor(dots, chunk.unit))..], chunk.numVecs)
    {
      hide Compilable, Records, Nop, Padding, Padded, PaddedFrom;
      CompilableParts(dots, 0);
      ProgramRecords(dots.Pattern(), base, numPaddingVecs, dots.pins, chunk.unit,
                     Cursor(dots, chunk.unit), chunk.numVecs);
      PutWhole(data[..], Records(dots.pins, chunk.unit, dots.Pattern()[Cursor(dots, chunk.unit)..], chunk.numVecs));
      FillChunkByDots(chunk, data, dots);
    }
  }

  function Other(u: Unit): (r: Unit) { if u.A1? then A2 else A1 }

  /** All chunks but the last lie within the program proper; the last one ends with the padding. */
  lemma ChunkPlace(numVecs: nat, i: nat)
    requires numVecs > 0 && i < NumChunks(numVecs + Padding(numVecs))
    ensures var total := numVecs + Padding(numVecs);
      && 0 < ChunkVecs(total, i) && CHUNK_VECS * i + ChunkVecs(total, i) == Min(CHUNK_VECS * (i + 1), total)
      && (i + 1 < NumChunks(total) ==> CHUNK_VECS * i + ChunkVecs(total, i) == CHUNK_VECS * (i + 1) <= numVecs)
      && (i + 1 == NumChunks(total) ==> CHUNK_VECS * i + ChunkVecs(total, i) == total)
  {
    hide NumChunks, ChunkVecs, Padding;
    var total := numVecs + Padding(numVecs);
    PaddingAligns(numVecs);
    ChunksCover(total, i);
    if i + 1 < NumChunks(total) {
      Multiple(i + 1);
      LessByEight(CHUNK_VECS * (i + 1), total);
    } else {
      Reached(total, i);
    }
  }

  lemma LessByEight(a: nat, b: nat)
    requires a % 8 == 0 && b % 8 == 0 && a < b
    ensures a + 8 <= b
  {
  }

  lemma Reached(total: nat, i: nat)
    requires total > 0 && i + 1 == NumChunks(total)
    ensures total <= CHUNK_VECS * (i + 1)
  {
    ChunkCount(total);
  }

  /** No chunk is loaded to begin with. */
  lemma NoChunks(u: Unit, total: nat)
    ensures ChunkList([], u, total, -1)
  {
  }

  lemma PutWhole(b: seq<byte>, m: seq<byte>)
    requires |b| == |m|
    ensures PutAt(b, 0, m) == m
  {
  }

  lemma PaddedStill(p: seq<Vec>, n: nat, base: seq<Vec>, numPins: nat)
    requires |base| <= |p| && p[..|base|] == base && PaddedFrom(p, |base|, numPins) && AllFit(p, numPins)
    ensures var q := Padded(p, n, numPins); q[..|base|] == base && PaddedFrom(q, |base|, numPins) && AllFit(q, numPins)
  {
    hide Nop, Fits;
    var q := Padded(p, n, numPins);
    assert q[..|base|] == q[..|p|][..|base|];
    forall i | 0 <= i < |q| ensures Fits(q[i], numPins) && (i >= |base| ==> q[i] == Nop(numPins)) {
      if i < |p| { assert q[i] == q[..|p|][i]; } else { NopFits(numPins); }
    }
  }

  lemma NopFits(numPins: nat)
    ensures Fits(Nop(numPins), numPins)
  {
  }

  /** A program padded further than need be has the same records. */
  lemma ProgramRecords(p: seq<Vec>, base: seq<Vec>, pad: nat, pins: seq<nat>, u: Unit, start: nat, n: nat)
    requires AllFit(p, |pins|) && |base| <= |p| && p[..|base|] == base && PaddedFrom(p, |base|, |pins|)
    requires start + n <= |p| && start + n <= |base| + pad
    ensures var q := Padded(base, pad, |pins|);
      AllFit(q, |pins|) && Records(pins, u, p[start..], n) == Records(pins, u, q[start..], n)
  {
    hide Nop, Fits, Records;
    var q := Padded(base, pad, |pins|);
    forall i | 0 <= i < |q| ensures Fits(q[i], |pins|) && (i < |p| ==> q[i] == p[i]) {
      if i < |base| { assert q[i] == q[..|base|][i] == p[..|base|][i]; } else { NopFits(|pins|); }
    }
    assert p[start..][..n] == q[start..][..n];
    RecordsPrefix(pins, u, p[start..], q[start..], n);
  }

  lemma PaddingAligns(n: nat)
    ensures Padding(n) < 8 && (n + Padding(n)) % 8 == 0
  {
  }
}
