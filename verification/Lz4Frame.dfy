/** The LZ4 frame compressor of lib/lz4/lz4frame.c, for independent blocks and no dictionary. */
module Lz4Frame {
  import opened Bytes
  import opened Words32
  import opened Xxh32
  import opened Lz4FrameFormat

  datatype Error = ERROR_GENERIC | ERROR_dstMaxSize_tooSmall | ERROR_frameSize_wrong

  datatype Result = Ok(size: nat) | Err(error: Error)

  /** LZ4F_preferences_t; the compression level is the choice of a block compressor. */
  datatype Preferences = Preferences(info: Info, autoFlush: bool)

  /** Block size 0 stands for the default. */
  function Normal(i: Info): (r: Info) { if i.blockSizeID == 0 then i.(blockSizeID := 4) else i }

  // ---------------------------------------------------------------- the bound

  /** The bytes that blocks for n bytes of input take at most; a last one only when it is flushed. */
  function BlocksBound(i: Info, flush: bool, n: nat): (r: nat) {
    var blockSize := BlockSize(i.blockSizeID);
    var full, partial := n / blockSize, if flush then n % blockSize else 0;
    (4 + 4 * Bit(i.blockChecksum)) * (full + Bit(partial > 0)) + blockSize * full + partial
  }

  function FrameEnd(i: Info): (r: nat) { 4 + 4 * Bit(i.contentChecksum) }

  /** LZ4F_compressBound_internal */
  function CompressBound(srcSize: nat, p: Preferences, alreadyBuffered: nat): (r: nat) {
    var buffered := Min(alreadyBuffered, BlockSize(p.info.blockSizeID) - 1);
    BlocksBound(p.info, p.autoFlush || srcSize == 0, srcSize + buffered) + FrameEnd(p.info)
  }

  /** One full block less. */
  lemma BoundStep(i: Info, flush: bool, n: nat)
    requires n >= BlockSize(i.blockSizeID)
    ensures var size := BlockSize(i.blockSizeID);
      BlocksBound(i, flush, n) == 4 + 4 * Bit(i.blockChecksum) + size + BlocksBound(i, flush, n - size)
  {
    var size := BlockSize(i.blockSizeID);
    DivStep(n, size);
    var c, full := 4 + 4 * Bit(i.blockChecksum), (n - size) / size;
    var last := Bit((if flush then n % size else 0) > 0);
    assert c * (full + 1 + last) == c + c * (full + last);
    assert size * (full + 1) == size + size * full;
  }

  lemma DivStep(n: nat, size: nat)
    requires n >= size > 0
    ensures (n - size) / size == n / size - 1 && (n - size) % size == n % size
  {
    var q, q1 := n / size, (n - size) / size;
    var k := q - 1 - q1;
    assert size * k == (n - size) % size - n % size;
    SmallMultiple(size, k);
  }

  lemma SmallMultiple(size: int, k: int)
    requires -size < size * k < size
    ensures k == 0
  {
    if k >= 1 { Grows(size, k); }
    if k <= -1 { Grows(size, -k); }
  }

  lemma Grows(size: int, k: int)
    requires size > 0 && k >= 1
    ensures size * k >= size
  {
  }

  /** Less than a block. */
  lemma BoundRest(i: Info, flush: bool, n: nat)
    requires n < BlockSize(i.blockSizeID)
    ensures BlocksBound(i, flush, n) == if flush && n > 0 then 4 + 4 * Bit(i.blockChecksum) + n else 0
  {
  }

  // ---------------------------------------------------------------- writing

  /** LZ4F_writeLE32 */
  method WriteLE32(dst: array<byte>, at: nat, v: nat)
    requires at + 4 <= dst.Length && v < TWO32
    modifies dst
    ensures dst[..at + 4] == old(dst[..at]) + Bytes32(v)
  {
    var b := Bytes32(v);
    dst[at], dst[at + 1], dst[at + 2], dst[at + 3] := b[0], b[1], b[2], b[3];
  }

  /** LZ4F_writeLE64, as two halves. */
  method WriteLE64(dst: array<byte>, at: nat, v: nat)
    requires at + 8 <= dst.Length && v < TWO64
    modifies dst
    ensures dst[..at + 8] == old(dst[..at]) + Bytes64(v)
  {
    hide Bytes32;
    WriteLE32(dst, at, v % TWO32);
    WriteLE32(dst, at + 4, v / TWO32);
    Assoc(old(dst[..at]), Bytes32(v % TWO32), Bytes32(v / TWO32));
  }

  /** Bytes that the block compressor puts at a place. */
  method WriteBytes(dst: array<byte>, at: nat, b: seq<byte>)
    requires at + |b| <= dst.Length
    modifies dst
    ensures dst[..at + |b|] == old(dst[..at]) + b
  {
    forall k | 0 <= k < |b| { dst[at + k] := b[k]; }
  }

  /** FLG and BD, and what else is to be said. */
  method WriteDescriptor(dst: array<byte>, at: nat, i: Info) returns (p: nat)
    requires at + 14 <= dst.Length && ValidInfo(i)
    modifies dst
    ensures p == at + |Descriptor(i)| && dst[..p] == old(dst[..at]) + Descriptor(i)
  {
    hide Bytes32, Bytes64, Flags;
    ghost var d := dst[..at];
    dst[at], dst[at + 1] := Flags(i), i.blockSizeID * 16;
    p := at + 2;
    ghost var e := d + [Flags(i), i.blockSizeID * 16];
    assert dst[..p] == e;
    ghost var length := if i.contentSize > 0 then Bytes64(i.contentSize) else [];
    if i.contentSize > 0 {
      WriteLE64(dst, p, i.contentSize);
      p := p + 8;
    }
    assert dst[..p] == e + length;
    if i.dictID > 0 {
      WriteLE32(dst, p, i.dictID);
      p := p + 4;
    }
    ghost var dict := if i.dictID > 0 then Bytes32(i.dictID) else [];
    assert dst[..p] == e + length + dict;
    Joined(d, [Flags(i), i.blockSizeID * 16], length, dict);
  }

  lemma Joined(a: seq<byte>, b: seq<byte>, c: seq<byte>, d: seq<byte>)
    ensures a + b + c + d == a + (b + c + d)
  {
  }

  /** The header of a frame. */
  method WriteHeader(dst: array<byte>, at: nat, i: Info) returns (n: nat)
    requires at + MAX_FH_SIZE <= dst.Length && ValidInfo(i)
    modifies dst
    ensures n == |Header(i)| && dst[..at + n] == old(dst[..at]) + Header(i)
  {
    hide Bytes32, Descriptor, Checksum;
    ghost var d := dst[..at];
    WriteLE32(dst, at, LZ4F_MAGICNUMBER);
    ghost var e := d + Bytes32(LZ4F_MAGICNUMBER);
    var p := WriteDescriptor(dst, at + 4, i);
    assert dst[at + 4..p] == Descriptor(i);
    var h := XXH32(dst, at + 4, p - (at + 4));
    dst[p] := h / 256 % 256;
    n := p + 1 - at;
    assert dst[..p + 1] == d + Header(i);
  }

  lemma Smaller(f: Compressor, b: seq<byte>)
    requires IsBlock(f, b)
    ensures |f(b)| < |b|
  {
  }

  /** A size field and data. */
  method WriteSized(dst: array<byte>, at: nat, field: nat, b: seq<byte>)
    requires at + 4 + |b| <= dst.Length && field < TWO32
    modifies dst
    ensures dst[..at] == old(dst[..at]) && dst[..at + 4 + |b|] == old(dst[..at]) + Bytes32(field) + b
  {
    hide Bytes32;
    ghost var d := dst[..at];
    WriteLE32(dst, at, field);
    WriteBytes(dst, at + 4, b);
    assert dst[..at] == dst[..at + 4 + |b|][..at] == d;
  }

  /** Size and data of a block, compressed if that makes it smaller. */
  method MakeBody(dst: array<byte>, at: nat, b: seq<byte>, f: Compressor) returns (cSize: nat)
    requires IsBlock(f, b) && at + 4 + |b| <= dst.Length
    modifies dst
    ensures cSize == |Body(f, b)| <= |b|
    ensures dst[..at + 4 + cSize] == old(dst[..at]) + Bytes32(SizeField(f, b)) + Body(f, b)
  {
    hide Bytes32, IsCompressor;
    ghost var d := dst[..at];
    var c := f(b);
    cSize := |c|;
    assert cSize < |b| by { Smaller(f, b); }
    WriteSized(dst, at, cSize, c);
    if cSize == 0 {
      cSize := |b|;
      assert dst[..at] == d;
      WriteSized(dst, at, cSize + LZ4F_BLOCKUNCOMPRESSED_FLAG, b);
    }
  }

  /** LZ4F_makeBlock: the block src[from..from + n]. */
  method MakeBlock(dst: array<byte>, at: nat, src: array<byte>, from: nat, n: nat, i: Info, f: Compressor)
    returns (size: nat)
    requires dst != src && from + n <= src.Length && IsBlock(f, src[from..from + n])
    requires at + 4 + n + 4 * Bit(i.blockChecksum) <= dst.Length
    modifies dst
    ensures size == |Block(i, f, src[from..from + n])| <= 4 + n + 4 * Bit(i.blockChecksum)
    ensures dst[..at + size] == old(dst[..at]) + Block(i, f, src[from..from + n])
  {
    hide Bytes32, Checksum, IsCompressor, SizeField, Body;
    ghost var d, b := dst[..at], src[from..from + n];
    var cSize := MakeBody(dst, at, src[from..from + n], f);
    if i.blockChecksum {
      assert dst[at + 4..at + 4 + cSize] == Body(f, b);
      var crc := XXH32(dst, at + 4, cSize);
      WriteLE32(dst, at + 4 + cSize, crc);
    }
    Joined(d, Bytes32(SizeField(f, b)), Body(f, b), ChecksumOf(i.blockChecksum, Body(f, b)));
    size := 4 + cSize + 4 * Bit(i.blockChecksum);
  }

  // ---------------------------------------------------------------- the context

  /** What has been put out so far is the header and the given blocks. */
  ghost predicate Written(i: Info, f: Compressor, bs: seq<seq<byte>>, out: seq<byte>) {
    ValidInfo(i) && IsCompressor(f) && AreBlocks(bs, BlockSize(i.blockSizeID)) && out == Header(i) + Blocks(i, f, bs)
  }

  lemma OneMore(i: Info, f: Compressor, bs: seq<seq<byte>>, out: seq<byte>, b: seq<byte>)
    requires Written(i, f, bs, out) && 0 < |b| <= BlockSize(i.blockSizeID)
    ensures Written(i, f, bs + [b], out + Block(i, f, b)) && Flatten(bs + [b]) == Flatten(bs) + b
  {
    hide Block, Header, Flatten, Blocks, IsCompressor, ValidInfo;
    FlattenSnoc(bs, b);
    BlocksSnoc(i, f, bs, b);
    Assoc(Header(i), Blocks(i, f, bs), Block(i, f, b));
  }

  /** The content checksum's state is that of c. */
  ghost predicate Hashed(x: State, c: seq<byte>)
    reads x, x.mem
  {
    x.Valid() && x.content == c && x.seed == 0
  }

  method ResetHash(x: State)
    requires x.mem.Length == 16
    modifies x
    ensures Hashed(x, [])
  {
    hide State.Valid, State.Holds;
    x.Reset(0);
  }

  method UpdateHash(x: State, src: array<byte>, srcSize: nat, ghost c: seq<byte>)
    requires Hashed(x, c) && srcSize <= src.Length && src != x.mem
    modifies x, x.mem
    ensures Hashed(x, c + src[..srcSize])
  {
    hide State.Valid, State.Holds;
    x.Update(src, 0, srcSize);
  }

  method DigestOf(x: State, ghost c: seq<byte>) returns (r: nat)
    requires Hashed(x, c)
    ensures r == Checksum(c)
  {
    r := Xxh32.Result(x);
  }

  function NeverSmaller(b: seq<byte>): (r: seq<byte>) { [] }

  /** LZ4F_cctx_t */
  class Cctx {
    var prefs: Preferences
    /** The block compressor that the compression level selects. */
    var compress: Compressor
    var cStage: nat
    var maxBlockSize: nat
    var maxBufferSize: nat
    var tmpBuff: array<byte>
    var tmpInSize: nat
    var totalInSize: nat
    const xxh: State
    /** The input of the frame, the blocks that were written of it, and all that was put out. */
    ghost var content: seq<byte>
    ghost var blocks: seq<seq<byte>>
    ghost var out: seq<byte>

    ghost predicate Valid()
      reads this, tmpBuff, xxh, xxh.mem
    {
      && xxh.mem.Length == 16 && tmpBuff != xxh.mem && maxBufferSize <= tmpBuff.Length && Counted()
      && if cStage == 1 then Open() else tmpInSize == 0
    }

    /** Input is awaited: what is not in a block yet is in the buffer, and is less than a block. */
    ghost predicate Open()
      reads this, tmpBuff
    {
      && Buffered() && Written(prefs.info, compress, blocks, out)
      && Flatten(blocks) + tmpBuff[..tmpInSize] == content
    }

    /** Hash and length of the input, where they will be needed. */
    ghost predicate Counted()
      reads `prefs, `content, `totalInSize, xxh, xxh.mem
    {
      && (prefs.info.contentChecksum ==> Hashed(xxh, content))
      && (prefs.info.contentSize > 0 ==> totalInSize == |content| % TWO64)
    }

    ghost predicate Buffered()
      reads `tmpInSize, `tmpBuff, `maxBlockSize, `maxBufferSize, `prefs
    {
      && maxBlockSize == BlockSize(prefs.info.blockSizeID) && tmpInSize < maxBlockSize && tmpInSize <= tmpBuff.Length
      && if prefs.autoFlush then tmpInSize == 0 else maxBlockSize <= maxBufferSize <= tmpBuff.Length
    }

    /** Only full blocks so far. */
    ghost predicate Even()
      reads `blocks, `maxBlockSize
    {
      forall k :: 0 <= k < |blocks| ==> |blocks[k]| == maxBlockSize
    }

    /** Blocks and buffer are the input cut into full blocks, and what is left of it. */
    ghost predicate Regular()
      reads `blocks, `maxBlockSize, `tmpInSize, `tmpBuff, `content, tmpBuff
    {
      && 0 < maxBlockSize && tmpInSize <= tmpBuff.Length
      && Chop(content, maxBlockSize) == if tmpInSize == 0 then blocks else blocks + [tmpBuff[..tmpInSize]]
    }

    /** a is none of the context's own arrays. */
    ghost predicate Apart(a: array<byte>)
      reads `tmpBuff
    {
      a != tmpBuff && a != xxh.mem
    }

    /** LZ4F_createCompressionContext */
    constructor ()
      ensures Valid() && cStage == 0 && fresh(this) && fresh(tmpBuff) && fresh(xxh) && fresh(xxh.mem)
    {
      hide Open, State.Valid, State.Holds;
      prefs := Preferences(Info(0, false, false, 0, 0), false);
      compress := NeverSmaller;
      cStage, maxBlockSize, maxBufferSize, tmpInSize, totalInSize := 0, 0, 0, 0, 0;
      tmpBuff := new byte[0];
      xxh := new State();
      content, blocks, out := [], [], [];
    }

    lemma EvenIsRegular()
      requires Open() && Even()
      ensures Regular()
    {
      FullBlocks(blocks, tmpBuff[..tmpInSize], maxBlockSize);
    }

    /** Preferences, and a large enough buffer. */
    method Prepare(p: Preferences, f: Compressor)
      requires Valid()
      modifies `prefs, `compress, `maxBlockSize, `maxBufferSize, `tmpBuff, `tmpInSize
      ensures prefs == p && compress == f && tmpInSize == 0 && Buffered() && maxBufferSize <= tmpBuff.Length
      ensures xxh.mem.Length == 16 && tmpBuff != xxh.mem
      ensures tmpBuff == old(tmpBuff) || fresh(tmpBuff)
    {
      hide Open, Hashed;
      prefs, compress := p, f;
      maxBlockSize := BlockSize(p.info.blockSizeID);
      var required := if p.autoFlush then 0 else maxBlockSize;
      if maxBufferSize < required {
        tmpBuff := new byte[required];
        maxBufferSize := required;
      }
      tmpInSize := 0;
    }

    /** Nothing is in the frame but its header. */
    lemma Opened()
      requires cStage == 1 && tmpInSize == 0 && Buffered() && maxBufferSize <= tmpBuff.Length
      requires tmpBuff != xxh.mem && xxh.mem.Length == 16
      requires Hashed(xxh, [])
      requires content == [] && blocks == [] && ValidInfo(prefs.info) && IsCompressor(compress)
      requires out == Header(prefs.info)
      requires prefs.info.contentSize > 0 ==> totalInSize == 0
      ensures Valid()
    {
      hide Header, IsCompressor, Hashed;
      assert Counted();
      assert out == Header(prefs.info) + [];
    }

    /** The work of a begin that has room enough. */
    method Start(dst: array<byte>, at: nat, i: Info, autoFlush: bool, f: Compressor) returns (n: nat)
      requires Valid() && Apart(dst) && at + MAX_FH_SIZE <= dst.Length && ValidInfo(i) && IsCompressor(f)
      modifies this, xxh, dst
      ensures Valid() && (tmpBuff == old(tmpBuff) || fresh(tmpBuff))
      ensures prefs == Preferences(i, autoFlush) && compress == f && cStage == 1
      ensures content == [] && blocks == [] && out == Header(i)
      ensures n == |out| && dst[..at + n] == old(dst[..at]) + out
    {
      hide Header, ValidInfo, IsCompressor, Hashed, Buffered, Valid, Open;
      Prepare(Preferences(i, autoFlush), f);
      ResetHash(xxh);
      n := WriteHeader(dst, at, i);
      if i.contentSize > 0 { totalInSize := 0; }
      cStage := 1;
      content, blocks, out := [], [], Header(i);
      Opened();
    }

    /** LZ4F_compressBegin: the header of a new frame. */
    method Begin(dst: array<byte>, at: nat, cap: nat, p: Preferences, f: Compressor) returns (r: Result)
      requires Valid() && Apart(dst) && at + cap <= dst.Length
      requires ValidInfo(Normal(p.info)) && IsCompressor(f)
      modifies this, xxh, dst
      ensures Valid() && (tmpBuff == old(tmpBuff) || fresh(tmpBuff))
      ensures r == if cap < 19 then Err(ERROR_dstMaxSize_tooSmall) else Ok(|Header(Normal(p.info))|)
      ensures r.Ok? ==> prefs == p.(info := Normal(p.info)) && compress == f && cStage == 1 && content == []
      ensures r.Ok? ==> blocks == []
      ensures r.Ok? ==> out == Header(prefs.info) && dst[..at + r.size] == old(dst[..at]) + out
    {
      assert MAX_FH_SIZE == 19;
      hide *;
      if cap < MAX_FH_SIZE { return Err(ERROR_dstMaxSize_tooSmall); }
      var n := Start(dst, at, Normal(p.info), p.autoFlush, f);
      r := Ok(n);
    }

    // -------------------------------------------------------------- LZ4F_compressUpdate

    /** In the middle of an update: sp bytes of the source are done, and the rest still fits. */
    ghost predicate Midway(dst: array<byte>, at: nat, op: nat, limit: nat, src: array<byte>, sp: nat, srcSize: nat,
                           flush: bool, out0: seq<byte>, total: seq<byte>)
      reads `prefs, `compress, `maxBlockSize, `maxBufferSize, `tmpBuff, `tmpInSize, `blocks, tmpBuff, dst, src
    {
      && Buffered() && (tmpInSize > 0 ==> sp == srcSize)
      && at <= op && sp <= srcSize <= src.Length && limit <= dst.Length
      && op + BlocksBound(prefs.info, flush, srcSize - sp) <= limit
      && Written(prefs.info, compress, blocks, out0 + dst[at..op])
      && Flatten(blocks) + tmpBuff[..tmpInSize] + src[sp..srcSize] == total
    }

    /** One block more at op. */
    method PutBlock(dst: array<byte>, at: nat, op: nat, src: array<byte>, from: nat, n: nat, ghost out0: seq<byte>)
      returns (op': nat)
      requires dst != src && at <= op && from + n <= src.Length && 0 < n <= BlockSize(prefs.info.blockSizeID)
      requires op + 4 + n + 4 * Bit(prefs.info.blockChecksum) <= dst.Length
      requires Written(prefs.info, compress, blocks, out0 + dst[at..op])
      modifies `blocks, dst
      ensures op' == op + 4 + |Body(compress, src[from..from + n])| + 4 * Bit(prefs.info.blockChecksum)
      ensures op <= op' <= op + 4 + n + 4 * Bit(prefs.info.blockChecksum) && dst[..at] == old(dst[..at])
      ensures blocks == old(blocks) + [src[from..from + n]]
      ensures Flatten(blocks) == old(Flatten(blocks)) + src[from..from + n]
      ensures Written(prefs.info, compress, blocks, out0 + dst[at..op'])
    {
      hide Block, Blocks, Flatten, Header, IsCompressor;
      ghost var d, b := dst[..op], src[from..from + n];
      var size := MakeBlock(dst, op, src, from, n, prefs.info, compress);
      op' := op + size;
      ghost var block := Block(prefs.info, compress, b);
      assert dst[at..op'] == d[at..op] + block by { Sliced(d, block, at, op); }
      OneMore(prefs.info, compress, blocks, out0 + d[at..op], b);
      Assoc(out0, d[at..op], block);
      blocks := blocks + [b];
      assert dst[..at] == dst[..op'][..at] == d[..at];
    }

    /** The whole source goes to the buffer. */
    method Fill(src: array<byte>, srcSize: nat)
      requires Buffered() && !prefs.autoFlush && Apart(src) && srcSize <= src.Length
      requires tmpInSize + srcSize < maxBlockSize
      modifies `tmpInSize, tmpBuff
      ensures Buffered() && tmpInSize == old(tmpInSize) + srcSize
      ensures tmpBuff[..tmpInSize] == old(tmpBuff[..tmpInSize]) + src[..srcSize]
    {
      CopyBytes(tmpBuff, tmpInSize, src, 0, srcSize);
      tmpInSize := tmpInSize + srcSize;
    }

    /** The buffer is filled up and written as a block. */
    method PutTmp(dst: array<byte>, at: nat, src: array<byte>, n: nat, ghost out0: seq<byte>) returns (op: nat)
      requires Buffered() && !prefs.autoFlush && Apart(dst) && Apart(src) && dst != src && n <= src.Length
      requires tmpInSize + n == maxBlockSize
      requires at + 4 + maxBlockSize + 4 * Bit(prefs.info.blockChecksum) <= dst.Length
      requires Written(prefs.info, compress, blocks, out0)
      modifies `blocks, `tmpInSize, tmpBuff, dst
      ensures Buffered() && tmpInSize == 0 && (old(Even()) ==> Even())
      ensures at <= op <= at + 4 + maxBlockSize + 4 * Bit(prefs.info.blockChecksum) && dst[..at] == old(dst[..at])
      ensures Flatten(blocks) == old(Flatten(blocks)) + (old(tmpBuff[..tmpInSize]) + src[..n])
      ensures Written(prefs.info, compress, blocks, out0 + dst[at..op])
    {
      hide Flatten, Written, Body;
      ghost var tmp := tmpBuff[..tmpInSize];
      CopyBytes(tmpBuff, tmpInSize, src, 0, n);
      assert tmpBuff[0..maxBlockSize] == tmp + src[..n];
      assert out0 + dst[at..at] == out0;
      op := PutBlock(dst, at, at, tmpBuff, 0, maxBlockSize, out0);
      tmpInSize := 0;
    }

    /** Completes the buffer, and writes its block when it is full. */
    method CompleteTmp(dst: array<byte>, at: nat, ghost limit: nat, src: array<byte>, srcSize: nat,
                       ghost flush: bool, ghost total: seq<byte>)
      returns (op: nat, sp: nat)
      requires Open() && Apart(dst) && Apart(src) && dst != src && srcSize <= src.Length
      requires at + BlocksBound(prefs.info, flush, tmpInSize + srcSize) <= limit <= dst.Length
      requires total == content + src[..srcSize]
      modifies `blocks, `tmpInSize, tmpBuff, dst
      ensures Midway(dst, at, op, limit, src, sp, srcSize, flush, out, total)
      ensures dst[..at] == old(dst[..at]) && (old(Even()) ==> Even())
    {
      hide Flatten, Written, BlocksBound, Hashed;
      op, sp := at, 0;
      assert out + dst[at..at] == out;
      ghost var tmp, s := tmpBuff[..tmpInSize], src[..srcSize];
      Assoc(Flatten(blocks), tmp, s);
      if tmpInSize > 0 {
        var sizeToCopy := maxBlockSize - tmpInSize;
        if sizeToCopy > srcSize {
          BoundRest(prefs.info, flush, 0);
          Fill(src, srcSize);
          sp := srcSize;
          assert Flatten(blocks) + (tmp + s) + src[sp..srcSize] == total;
        } else {
          BoundStep(prefs.info, flush, tmpInSize + srcSize);
          Refill(Flatten(blocks), tmp, s, sizeToCopy);
          op := PutTmp(dst, at, src, sizeToCopy, out);
          sp := sizeToCopy;
          assert src[sp..srcSize] == s[sp..] && src[..sp] == s[..sp] && tmpBuff[..0] == [];
        }
      }
    }

    /** Full blocks straight from the source. */
    method SourceBlocks(dst: array<byte>, at: nat, op0: nat, ghost limit: nat, src: array<byte>, sp0: nat, srcSize: nat,
                        ghost flush: bool, ghost out0: seq<byte>, ghost total: seq<byte>)
      returns (op: nat, sp: nat)
      requires Apart(dst) && Apart(src) && dst != src
      requires Midway(dst, at, op0, limit, src, sp0, srcSize, flush, out0, total)
      modifies `blocks, dst
      ensures Midway(dst, at, op, limit, src, sp, srcSize, flush, out0, total) && srcSize - sp < maxBlockSize
      ensures dst[..at] == old(dst[..at]) && (old(Even()) ==> Even())
    {
      hide Flatten, Written, BlocksBound, Body;
      op, sp := op0, sp0;
      while srcSize - sp >= maxBlockSize
        invariant Midway(dst, at, op, limit, src, sp, srcSize, flush, out0, total)
        invariant dst[..at] == old(dst[..at]) && (old(Even()) ==> Even())
        decreases srcSize - sp
      {
        BoundStep(prefs.info, flush, srcSize - sp);
        NextBlock(Flatten(blocks), src[sp..srcSize], maxBlockSize);
        SubSlice(src[..], sp, srcSize, 0, maxBlockSize);
        SubSlice(src[..], sp, srcSize, maxBlockSize, srcSize - sp - maxBlockSize);
        op := PutBlock(dst, at, op, src, sp, maxBlockSize, out0);
        sp := sp + maxBlockSize;
      }
    }

    /** With autoFlush, what is left of the source is a block of its own. */
    method FlushRest(dst: array<byte>, at: nat, op0: nat, ghost limit: nat, src: array<byte>, sp0: nat, srcSize: nat,
                     ghost flush: bool, ghost out0: seq<byte>, ghost total: seq<byte>)
      returns (op: nat, sp: nat)
      requires Apart(dst) && Apart(src) && dst != src && prefs.autoFlush && flush
      requires Midway(dst, at, op0, limit, src, sp0, srcSize, flush, out0, total) && srcSize - sp0 < maxBlockSize
      modifies `blocks, dst
      ensures Midway(dst, at, op, limit, src, sp, srcSize, flush, out0, total) && sp == srcSize
      ensures dst[..at] == old(dst[..at]) && (old(Even()) ==> Chop(total, maxBlockSize) == blocks)
    {
      hide Flatten, Written, BlocksBound, Chop, Body;
      op, sp := op0, sp0;
      ghost var rest := src[sp..srcSize];
      assert tmpBuff[..0] == [] && Flatten(blocks) + [] == Flatten(blocks);
      if Even() { FullBlocks(blocks, rest, maxBlockSize); }
      BoundRest(prefs.info, flush, srcSize - sp);
      BoundRest(prefs.info, flush, 0);
      NextBlock(Flatten(blocks), rest, |rest|);
      if sp < srcSize {
        op := PutBlock(dst, at, op, src, sp, srcSize - sp, out0);
        sp := srcSize;
      }
    }

    /** Without it, the rest goes to the buffer. */
    method KeepRest(src: array<byte>, sp: nat, srcSize: nat, ghost total: seq<byte>)
      requires Buffered() && Apart(src) && sp <= srcSize <= src.Length && srcSize - sp < maxBlockSize
      requires (prefs.autoFlush || tmpInSize > 0) ==> sp == srcSize
      requires Flatten(blocks) + tmpBuff[..tmpInSize] + src[sp..srcSize] == total
      modifies `tmpInSize, tmpBuff
      ensures Buffered() && Flatten(blocks) + tmpBuff[..tmpInSize] == total
    {
      hide Flatten;
      ghost var rest := src[sp..srcSize];
      if sp < srcSize {
        assert tmpBuff[..0] == [] && Flatten(blocks) + [] == Flatten(blocks);
        CopyBytes(tmpBuff, 0, src, sp, srcSize - sp);
        tmpInSize := srcSize - sp;
        assert tmpBuff[..tmpInSize] == rest;
      } else {
        assert rest == [];
      }
    }

    /** All but the hash: blocks, and what is left over. */
    method Consume(dst: array<byte>, at: nat, ghost limit: nat, src: array<byte>, srcSize: nat,
                   ghost flush: bool, ghost total: seq<byte>)
      returns (op: nat)
      requires Open() && Apart(dst) && Apart(src) && dst != src && srcSize <= src.Length && (prefs.autoFlush ==> flush)
      requires at + BlocksBound(prefs.info, flush, tmpInSize + srcSize) <= limit <= dst.Length
      requires total == content + src[..srcSize]
      modifies `blocks, `tmpInSize, tmpBuff, dst
      ensures Buffered() && Flatten(blocks) + tmpBuff[..tmpInSize] == total
      ensures at <= op <= limit && Written(prefs.info, compress, blocks, out + dst[at..op])
      ensures dst[..at] == old(dst[..at])
      ensures old(Even()) ==> if prefs.autoFlush then Chop(total, maxBlockSize) == blocks else Even()
    {
      hide Flatten, Written, BlocksBound, Chop, Hashed;
      var sp;
      op, sp := CompleteTmp(dst, at, limit, src, srcSize, flush, total);
      op, sp := SourceBlocks(dst, at, op, limit, src, sp, srcSize, flush, out, total);
      if prefs.autoFlush {
        op, sp := FlushRest(dst, at, op, limit, src, sp, srcSize, flush, out, total);
      }
      KeepRest(src, sp, srcSize, total);
    }

    method Count(src: array<byte>, srcSize: nat)
      requires Counted() && xxh.mem != src && srcSize <= src.Length
      modifies `content, `totalInSize, xxh, xxh.mem
      ensures Counted() && content == old(content) + src[..srcSize]
    {
      hide Hashed;
      if prefs.info.contentChecksum { UpdateHash(xxh, src, srcSize, content); }
      WrapAdd(|content|, srcSize);
      totalInSize := (totalInSize + srcSize) % TWO64;
      content := content + src[..srcSize];
    }

    /** The work of an update that has room enough. */
    method Compress(dst: array<byte>, at: nat, src: array<byte>, srcSize: nat) returns (n: nat)
      requires Valid() && cStage == 1 && Apart(dst) && Apart(src) && dst != src && srcSize <= src.Length
      requires at + CompressBound(srcSize, prefs, tmpInSize) <= dst.Length + FrameEnd(prefs.info)
      modifies `content, `totalInSize, `blocks, `tmpInSize, `out, tmpBuff, xxh, xxh.mem, dst
      ensures Valid() && dst[..at] == old(dst[..at])
      ensures at + n <= dst.Length && n + FrameEnd(prefs.info) <= CompressBound(srcSize, prefs, old(tmpInSize))
      ensures content == old(content) + src[..srcSize] && out == old(out) + dst[at..at + n]
      ensures old(Even()) ==> Regular() && (!prefs.autoFlush ==> Even())
    {
      hide Flatten, Written, BlocksBound, Chop, Counted;
      ghost var flush := prefs.autoFlush || srcSize == 0;
      ghost var limit := at + BlocksBound(prefs.info, flush, tmpInSize + srcSize);
      var op := Consume(dst, at, limit, src, srcSize, flush, content + src[..srcSize]);
      Count(src, srcSize);
      out := out + dst[at..op];
      if Even() { EvenIsRegular(); }
      n := op - at;
    }

    /** LZ4F_compressUpdate */
    method Update(dst: array<byte>, at: nat, cap: nat, src: array<byte>, srcSize: nat) returns (r: Result)
      requires Valid() && Apart(dst) && Apart(src) && dst != src && at + cap <= dst.Length && srcSize <= src.Length
      modifies `content, `totalInSize, `blocks, `tmpInSize, `out, tmpBuff, xxh, xxh.mem, dst
      ensures Valid() && dst[..at] == old(dst[..at])
      ensures r.Ok? <==> cStage == 1 && CompressBound(srcSize, prefs, old(tmpInSize)) <= cap
      ensures r.Err? ==> r.error == if cStage != 1 then ERROR_GENERIC else ERROR_dstMaxSize_tooSmall
      ensures r.Ok? ==> r.size + FrameEnd(prefs.info) <= CompressBound(srcSize, prefs, old(tmpInSize))
      ensures r.Ok? ==> content == old(content) + src[..srcSize] && out == old(out) + dst[at..at + r.size]
      ensures r.Ok? && old(Even()) ==> Regular() && (!prefs.autoFlush ==> Even())
      ensures r.Err? ==> content == old(content) && blocks == old(blocks) && out == old(out)
      ensures r.Err? ==> tmpInSize == old(tmpInSize)
    {
      hide *;
      if cStage != 1 { return Err(ERROR_GENERIC); }
      if cap < CompressBound(srcSize, prefs, tmpInSize) { return Err(ERROR_dstMaxSize_tooSmall); }
      var n := Compress(dst, at, src, srcSize);
      r := Ok(n);
    }

    // -------------------------------------------------------------- LZ4F_flush and LZ4F_compressEnd

    /** The bytes that a flush takes. */
    ghost function FlushSize(): (n: nat)
      reads `tmpInSize, `prefs
    {
      if tmpInSize == 0 then 0 else 4 + tmpInSize + 4 * Bit(prefs.info.blockChecksum)
    }

    /** What a flush writes: size field, data and checksum of what is in the buffer. */
    ghost function RestSize(): (n: nat)
      requires tmpInSize <= tmpBuff.Length
      reads `tmpInSize, `prefs, `compress, `tmpBuff, tmpBuff
    {
      if tmpInSize == 0 then 0
      else 4 + |Body(compress, tmpBuff[..tmpInSize])| + 4 * Bit(prefs.info.blockChecksum)
    }

    /** The buffer becomes a block. */
    method PutRest(dst: array<byte>, at: nat) returns (n: nat)
      requires Valid() && cStage == 1 && tmpInSize > 0 && Apart(dst) && at + FlushSize() <= dst.Length
      modifies `blocks, `tmpInSize, `out, dst
      ensures Valid() && tmpInSize == 0 && n == old(RestSize()) <= old(FlushSize()) && dst[..at] == old(dst[..at])
      ensures blocks == old(blocks) + [old(tmpBuff[..tmpInSize])] && out == old(out) + dst[at..at + n]
    {
      hide Flatten, Written, Counted;
      assert out + dst[at..at] == out && tmpBuff[0..tmpInSize] == tmpBuff[..tmpInSize];
      var op := PutBlock(dst, at, at, tmpBuff, 0, tmpInSize, out);
      tmpInSize := 0;
      out, n := out + dst[at..op], op - at;
      assert tmpBuff[..0] == [];
    }

    /**
      LZ4F_flush, into memory that is large enough.  Its check of the capacity leaves out the block
      checksum, so it writes more exactly if there is one and no room for it behind the data.
     */
    method Flush(dst: array<byte>, at: nat, cap: nat) returns (r: Result)
      requires Valid() && Apart(dst) && at + FlushSize() <= dst.Length
      modifies `blocks, `tmpInSize, `out, dst
      ensures Valid() && dst[..at] == old(dst[..at])
      ensures if old(tmpInSize) > 0 && (cStage != 1 || cap < old(tmpInSize) + 4) then
          && r == Err(if cStage != 1 then ERROR_GENERIC else ERROR_dstMaxSize_tooSmall)
          && blocks == old(blocks) && out == old(out) && tmpInSize == old(tmpInSize)
        else
          && r == Ok(old(RestSize())) && r.size <= old(FlushSize()) && tmpInSize == 0
          && out == old(out) + dst[at..at + r.size]
          && blocks == old(if tmpInSize == 0 then blocks else blocks + [tmpBuff[..tmpInSize]])
      ensures r.Ok? ==> (r.size > cap <==> old(tmpInSize > 0 && prefs.info.blockChecksum && cap < RestSize()))
    {
      hide Valid, Body;
      Rest();
      if tmpInSize == 0 {
        assert out + dst[at..at + 0] == out;
        return Ok(0);
      }
      if cStage != 1 { return Err(ERROR_GENERIC); }
      if cap < tmpInSize + 4 { return Err(ERROR_dstMaxSize_tooSmall); }
      var n := PutRest(dst, at);
      r := Ok(n);
    }

    /** What is in the buffer does not get longer as a block. */
    lemma Rest()
      requires Valid()
      ensures tmpInSize <= tmpBuff.Length
      ensures tmpInSize > 0 ==> |Body(compress, tmpBuff[..tmpInSize])| <= tmpInSize
    {
      hide Written, Counted;
      if tmpInSize > 0 { assert IsCompressor(compress) by { WrittenBy(); } }
    }

    lemma WrittenBy()
      requires Open()
      ensures IsCompressor(compress)
    {
      hide IsCompressor;
    }

    /** End mark and content checksum. */
    method PutSuffix(dst: array<byte>, at: nat) returns (n: nat)
      requires Counted() && at + FrameEnd(prefs.info) <= dst.Length && dst != xxh.mem
      modifies dst
      ensures n == FrameEnd(prefs.info) && dst[..at + n] == old(dst[..at]) + Suffix(prefs.info, content)
    {
      hide Hashed, Bytes32, Checksum;
      ghost var d := dst[..at];
      WriteLE32(dst, at, 0);
      n := 4;
      if prefs.info.contentChecksum {
        var h := DigestOf(xxh, content);
        WriteLE32(dst, at + 4, h);
        n := 8;
      }
      Assoc(d, Bytes32(0), ChecksumOf(prefs.info.contentChecksum, content));
    }

    /** The frame is ended; nothing was left in the buffer. */
    method Close(dst: array<byte>, at: nat) returns (n: nat)
      requires Valid() && tmpInSize == 0 && Apart(dst) && at + FrameEnd(prefs.info) <= dst.Length
      modifies `cStage, `maxBufferSize, `out, dst
      ensures Valid() && cStage == 0 && dst[..at] == old(dst[..at])
      ensures n == FrameEnd(prefs.info) && out == old(out) + dst[at..at + n]
      ensures out == old(out) + Suffix(prefs.info, content)
      ensures old(cStage) == 1 ==> Ended(prefs.info, compress, blocks, content, out)
    {
      hide Header, Blocks, Flatten, Suffix, IsCompressor, Counted;
      if cStage == 1 { assert tmpBuff[..0] == [] && Flatten(blocks) + [] == Flatten(blocks); }
      ghost var d := dst[..at];
      n := PutSuffix(dst, at);
      assert dst[..at] == dst[..at + n][..at] == d;
      assert dst[at..at + n] == dst[..at + n][at..] == Suffix(prefs.info, content);
      out := out + dst[at..at + n];
      cStage, maxBufferSize := 0, 0;
    }

    /**
      LZ4F_compressEnd, into memory that is large enough; n is what it wrote.  It checks the capacity
      for the last block only.  Outside a frame it writes an end mark all the same.
     */
    method End(dst: array<byte>, at: nat, cap: nat) returns (r: Result, ghost n: nat)
      requires Valid() && Apart(dst) && at + FlushSize() + FrameEnd(prefs.info) <= dst.Length
      modifies `blocks, `tmpInSize, `cStage, `maxBufferSize, `out, dst
      ensures Valid() && dst[..at] == old(dst[..at])
      ensures at + n <= dst.Length && out == old(out) + dst[at..at + n]
      ensures if old(tmpInSize) > 0 && cap < old(tmpInSize) + 4 then
          r == Err(ERROR_dstMaxSize_tooSmall) && cStage == 1 && n == 0
        else
          && r == EndResult(prefs.info, |content|, n) && cStage == 0 && n == old(RestSize()) + FrameEnd(prefs.info)
          && (old(cStage) == 1 ==> Ended(prefs.info, compress, blocks, content, out))
          && (old(cStage) != 1 ==> out == old(out) + Suffix(prefs.info, content))
          && (old(cStage) == 1 && old(Regular()) ==> Chopped(prefs.info, content, blocks))
    {
      hide Valid, Ended, Chopped, RestSize, FlushSize, Suffix, Body, Regular, Checksum;
      Ending();
      n := 0;
      var flushed := Flush(dst, at, cap);
      if flushed.Err? {
        assert out + dst[at..at + 0] == out;
        return flushed, 0;
      }
      var op := at + flushed.size;
      ghost var o, d := out, dst[..op];
      if old(cStage) != 1 { assert dst[at..op] == [] && o == old(out); }
      var m := Close(dst, op);
      n := op + m - at;
      Joins(old(out), o, out, d, dst[..], at, op, m);
      if prefs.info.contentSize > 0 && prefs.info.contentSize != totalInSize {
        return Err(ERROR_frameSize_wrong), n;
      }
      r := Ok(op + m - at);
    }

    /** What is known before the last block: the length, and how the blocks are cut. */
    lemma Ending()
      requires Valid()
      ensures tmpInSize <= tmpBuff.Length && (cStage != 1 ==> tmpInSize == 0) && (tmpInSize == 0 ==> RestSize() == 0)
      ensures prefs.info.contentSize > 0 ==> totalInSize == |content| % TWO64
      ensures cStage == 1 && Regular() ==>
        Chopped(prefs.info, content, if tmpInSize == 0 then blocks else blocks + [tmpBuff[..tmpInSize]])
    {
      hide Header, Blocks, Flatten, IsCompressor, Hashed, Chop;
    }
  }

  lemma Joins(o0: seq<byte>, o1: seq<byte>, o2: seq<byte>, d: seq<byte>, e: seq<byte>, at: nat, op: nat, m: nat)
    requires at <= op == |d| && op + m <= |e| && e[..op] == d
    requires o1 == o0 + d[at..] && o2 == o1 + e[op..op + m]
    ensures o2 == o0 + e[at..op + m] && e[..at] == d[..at]
  {
    assert e[at..op + m] == d[at..] + e[op..op + m];
    assert e[..at] == e[..op][..at];
  }

  /** The content has to have the announced size. */
  function EndResult(i: Info, len: nat, n: nat): (r: Result) {
    if SizeRight(i, len) then Ok(n) else Err(ERROR_frameSize_wrong)
  }

  ghost predicate Chopped(i: Info, content: seq<byte>, bs: seq<seq<byte>>) {
    bs == Chop(content, BlockSize(i.blockSizeID))
  }

  /** A whole frame of the content, cut into the given blocks. */
  ghost predicate Ended(i: Info, f: Compressor, bs: seq<seq<byte>>, content: seq<byte>, out: seq<byte>) {
    && ValidInfo(i) && IsCompressor(f) && AreBlocks(bs, BlockSize(i.blockSizeID)) && Flatten(bs) == content
    && out == Header(i) + Blocks(i, f, bs) + Suffix(i, content)
  }

  lemma WrapAdd(a: nat, b: nat)
    ensures (a % TWO64 + b) % TWO64 == (a + b) % TWO64
  {
  }

  lemma NextBlock(f: seq<byte>, s: seq<byte>, k: nat)
    requires k <= |s|
    ensures f + [] + s == (f + s[..k]) + [] + s[k..]
  {
    assert s == s[..k] + s[k..];
  }

  lemma Sliced(d: seq<byte>, b: seq<byte>, at: nat, op: nat)
    requires at <= op == |d|
    ensures (d + b)[at..] == d[at..op] + b
  {
  }

  lemma Refill(f: seq<byte>, tmp: seq<byte>, s: seq<byte>, k: nat)
    requires k <= |s|
    ensures (f + (tmp + s[..k])) + [] + s[k..] == f + (tmp + s)
  {
    assert s == s[..k] + s[k..];
  }

  lemma EndedIsFrame(i: Info, f: Compressor, bs: seq<seq<byte>>, content: seq<byte>, out: seq<byte>)
    requires Ended(i, f, bs, content, out) && Chopped(i, content, bs)
    ensures out == Frame(i, f, content)
  {
    hide Header, Blocks, Suffix, Chop, IsCompressor, Flatten;
  }

  /** A frame that was ended can be read, unless it was ended with an error. */
  lemma EndedReads(i: Info, f: Compressor, bs: seq<seq<byte>>, content: seq<byte>, out: seq<byte>, tail: seq<byte>)
    requires Ended(i, f, bs, content, out) && IsFaithful(f)
    ensures ReadFrame(out + tail) == if EndResult(i, |content|, 0).Ok? then Some(Parsed(content, tail)) else None
  {
    hide Header, Blocks, Suffix, ReadFrame, IsCompressor, IsFaithful, Flatten;
    FrameReads(i, f, bs, tail);
  }

  // ---------------------------------------------------------------- whole runs

  /**
    A frame from any number of updates, each with as much room as LZ4F_compressBound asks for:
    the bytes depend on the whole input only, not on the pieces it comes in.
   */
  method CompressPieces(p: Preferences, f: Compressor, pieces: seq<seq<byte>>) returns (ok: bool, bytes: seq<byte>)
    requires ValidInfo(Normal(p.info)) && IsCompressor(f) && !p.autoFlush
    ensures ok <==> SizeRight(Normal(p.info), |Flatten(pieces)|)
    ensures ok ==> bytes == Frame(Normal(p.info), f, Flatten(pieces))
  {
    hide Frame, ValidInfo, IsCompressor, SizeRight, Flatten, Header, Ended, Chopped, Cctx.Valid;
    var c := new Cctx();
    var dst := new byte[MAX_FH_SIZE];
    var r := c.Begin(dst, 0, dst.Length, p, f);
    bytes := AllPieces(c, pieces, dst[..r.size]);
    ok, bytes := LastPiece(c, bytes);
    if ok { EndedIsFrame(c.prefs.info, f, c.blocks, c.content, bytes); }
  }

  /** The updates. */
  method AllPieces(c: Cctx, pieces: seq<seq<byte>>, bytes: seq<byte>) returns (r: seq<byte>)
    requires c.Valid() && c.cStage == 1 && !c.prefs.autoFlush && c.out == bytes && c.content == [] && c.Even()
    modifies c`content, c`totalInSize, c`blocks, c`tmpInSize, c`out, c.tmpBuff, c.xxh, c.xxh.mem
    ensures c.Valid() && c.content == Flatten(pieces) && c.out == r && c.Even()
  {
    hide *;
    r := bytes;
    FlattenPieces(pieces);
    for k := 0 to |pieces|
      invariant c.Valid() && c.content == Flatten(pieces[..k]) && c.out == r && c.Even()
    {
      r := NextPiece(c, pieces[k], r);
      FlattenNext(pieces, k);
    }
  }

  lemma FlattenPieces(pieces: seq<seq<byte>>)
    ensures Flatten(pieces[..0]) == [] && pieces[..|pieces|] == pieces
  {
  }

  lemma FlattenNext(pieces: seq<seq<byte>>, k: nat)
    requires k < |pieces|
    ensures Flatten(pieces[..k + 1]) == Flatten(pieces[..k]) + pieces[k]
  {
    FlattenSnoc(pieces[..k], pieces[k]);
    assert pieces[..k] + [pieces[k]] == pieces[..k + 1];
  }

  /** One update. */
  method NextPiece(c: Cctx, piece: seq<byte>, bytes: seq<byte>) returns (r: seq<byte>)
    requires c.Valid() && c.cStage == 1 && !c.prefs.autoFlush && c.out == bytes && c.Even()
    modifies c`content, c`totalInSize, c`blocks, c`tmpInSize, c`out, c.tmpBuff, c.xxh, c.xxh.mem
    ensures c.Valid() && c.content == old(c.content) + piece && c.out == r && c.Even()
  {
    hide Cctx.Valid, CompressBound, FrameEnd, Cctx.Even, Cctx.Regular;
    var src := new byte[|piece|](i requires 0 <= i < |piece| => piece[i]);
    var dst := new byte[CompressBound(|piece|, c.prefs, c.tmpInSize)];
    assert src[..|piece|] == piece;
    var n := c.Update(dst, 0, dst.Length, src, |piece|);
    r := bytes + dst[0..n.size];
  }

  /** The end of the frame. */
  method LastPiece(c: Cctx, bytes: seq<byte>) returns (ok: bool, r: seq<byte>)
    requires c.Valid() && c.cStage == 1 && c.out == bytes && c.Even()
    modifies c`blocks, c`tmpInSize, c`cStage, c`maxBufferSize, c`out
    ensures ok ==> Ended(c.prefs.info, c.compress, c.blocks, c.content, r) && Chopped(c.prefs.info, c.content, c.blocks)
    ensures ok <==> SizeRight(c.prefs.info, |c.content|)
  {
    hide Cctx.Valid, Ended, Chopped, SizeRight, Cctx.Even, Cctx.Regular;
    EvenOne(c);
    var dst := new byte[c.tmpInSize + 16];
    var e, n := c.End(dst, 0, dst.Length);
    ok := e.Ok?;
    r := bytes;
    if ok { r := bytes + dst[0..e.size]; }
  }

  lemma EvenOne(c: Cctx)
    requires c.Valid() && c.cStage == 1 && c.Even()
    ensures c.Regular()
  {
    hide Cctx.Counted, Written, Cctx.Even, Cctx.Regular, Cctx.Buffered;
    c.EvenIsRegular();
  }

  /** LZ4F_optimalBSID: the smallest block size that takes the input at once, if it is below the wanted one. */
  method OptimalBSID(requested: nat, srcSize: nat) returns (id: nat)
    requires requested <= 7
    ensures id == requested || (4 <= id < requested && srcSize <= BlockSize(id))
    ensures forall k :: 4 <= k < id ==> srcSize > BlockSize(k)
  {
    var proposed, maxBlockSize := 4, 0x1_0000;
    while requested > proposed
      invariant 4 <= proposed && (proposed <= requested || proposed == 4) && maxBlockSize == BlockSize(proposed)
      invariant forall k :: 4 <= k < proposed ==> srcSize > BlockSize(k)
    {
      if srcSize <= maxBlockSize { return proposed; }
      proposed, maxBlockSize := proposed + 1, 4 * maxBlockSize;
    }
    id := requested;
  }

  /** The preferences that LZ4F_compressFrame works with. */
  function FrameInfo(i: Info, srcSize: nat, id: nat): (r: Info) {
    i.(contentSize := if i.contentSize != 0 then srcSize else 0, blockSizeID := id)
  }

  /** LZ4F_compressFrameBound */
  function CompressFrameBound(srcSize: nat, i: Info): (r: nat) {
    19 + CompressBound(srcSize, Preferences(i, true), 0)
  }

  /**
    LZ4F_compressFrame: with room for the bound it never fails, and gives the same frame as
    updates with any pieces of the input would, under the preferences it works with.
   */
  method CompressFrame(dst: array<byte>, src: array<byte>, i: Info, f: Compressor) returns (r: Result, ghost j: Info)
    requires dst != src && ValidInfo(Normal(i)) && IsCompressor(f) && src.Length < TWO64
    modifies dst
    ensures j == FrameInfo(i, src.Length, j.blockSizeID) && ValidInfo(Normal(j))
    ensures j.blockSizeID == i.blockSizeID || src.Length <= BlockSize(j.blockSizeID)
    ensures r.Ok? <==> CompressFrameBound(src.Length, j) <= dst.Length
    ensures r.Ok? ==> r.size <= dst.Length && dst[..r.size] == Frame(Normal(j), f, src[..])
  {
    var id := OptimalBSID(i.blockSizeID, src.Length);
    var info := FrameInfo(i, src.Length, id);
    j := info;
    if dst.Length < CompressFrameBound(src.Length, info) { return Err(ERROR_dstMaxSize_tooSmall), j; }
    assert ValidInfo(Normal(j)) && SizeRight(Normal(j), src.Length);
    BoundNormal(info, src.Length);
    r := FrameAtOnce(dst, src, Preferences(info, true), f);
  }

  /** Block size 0 is bounded as the default it stands for. */
  lemma BoundNormal(i: Info, n: nat)
    ensures CompressBound(n, Preferences(Normal(i), true), 0) == CompressBound(n, Preferences(i, true), 0)
  {
  }

  lemma NothingBuffered(c: Cctx)
    requires c.Valid() && c.cStage == 1 && c.prefs.autoFlush
    ensures c.tmpInSize == 0 && c.FlushSize() == 0
  {
  }

  lemma EvenAtFirst(c: Cctx)
    requires c.blocks == []
    ensures c.Even()
  {
  }

  /** Begin, one update, end. */
  method FrameAtOnce(dst: array<byte>, src: array<byte>, p: Preferences, f: Compressor) returns (r: Result)
    requires dst != src && ValidInfo(Normal(p.info)) && IsCompressor(f) && p.autoFlush
    requires 19 + CompressBound(src.Length, p.(info := Normal(p.info)), 0) <= dst.Length
    requires SizeRight(Normal(p.info), src.Length)
    modifies dst
    ensures r.Ok? && r.size <= dst.Length && dst[..r.size] == Frame(Normal(p.info), f, src[..])
  {
    hide Frame, ValidInfo, IsCompressor, SizeRight, Header, Ended, Chopped, Cctx.Valid, Cctx.Even, Cctx.Regular,
      Cctx.FlushSize, CompressBound, Normal;
    var c := new Cctx();
    r := c.Begin(dst, 0, dst.Length, p, f);
    var op := r.size;
    assert c.out == dst[..op];
    NothingBuffered(c);
    EvenAtFirst(c);
    assert src[..src.Length] == src[..] && [] + src[..] == src[..];
    r := c.Update(dst, op, dst.Length - op, src, src.Length);
    assert c.out == dst[..op] + dst[op..op + r.size] == dst[..op + r.size];
    r := EndAtOnce(c, dst, op + r.size);
  }

  /** The end of a frame that one buffer holds. */
  method EndAtOnce(c: Cctx, dst: array<byte>, op: nat) returns (r: Result)
    requires c.Valid() && c.cStage == 1 && c.prefs.autoFlush && c.Regular() && c.Apart(dst)
    requires op + FrameEnd(c.prefs.info) <= dst.Length && c.out == dst[..op] && SizeRight(c.prefs.info, |c.content|)
    requires ValidInfo(c.prefs.info) && IsCompressor(c.compress)
    modifies c`blocks, c`tmpInSize, c`cStage, c`maxBufferSize, c`out, dst
    ensures r.Ok? && r.size <= dst.Length && dst[..r.size] == Frame(c.prefs.info, c.compress, c.content)
  {
    hide Frame, ValidInfo, IsCompressor, SizeRight, Ended, Chopped, Cctx.Valid, Cctx.Regular, Cctx.FlushSize;
    NothingBuffered(c);
    var e, n := c.End(dst, op, dst.Length - op);
    r := Ok(op + e.size);
    assert c.out == dst[..op] + dst[op..op + e.size] == dst[..r.size];
    EndedIsFrame(c.prefs.info, c.compress, c.blocks, c.content, c.out);
  }

  // ---------------------------------------------------------------- past the capacity

  /** A single byte in a frame of full blocks can only be in the buffer. */
  lemma ByteInBuffer(c: Cctx)
    requires c.Valid() && c.cStage == 1 && c.Even() && |c.content| == 1
    requires c.prefs.info.blockChecksum && c.compress == NeverSmaller
    ensures c.tmpInSize == 1 && c.RestSize() == c.FlushSize() == 9
  {
    hide Header, Blocks, IsCompressor, Cctx.Counted;
  }

  lemma EmptyBuffer(c: Cctx)
    requires c.Valid() && c.cStage == 1 && |c.content| == 0
    ensures c.tmpInSize == 0 && c.RestSize() == c.FlushSize() == 0
  {
    hide Header, Blocks, IsCompressor, Cctx.Counted;
  }

  lemma NeverSmallerIsCompressor()
    ensures IsCompressor(NeverSmaller)
  {
  }

  lemma BoundOfOne(p: Preferences)
    requires !p.autoFlush && !p.info.contentChecksum
    ensures CompressBound(1, p, 0) == 4
  {
    BoundRest(p.info, false, 1);
  }

  /** With block checksums a flush of one byte takes a capacity of five for enough, and writes nine. */
  method FlushOfOneByte() returns (r: Result)
    ensures r == Ok(9)
  {
    hide Cctx.Valid, Cctx.Even, Cctx.Regular, Cctx.RestSize, Cctx.FlushSize, IsCompressor, Header, Body,
      CompressBound, NeverSmaller;
    var p := Preferences(Info(4, true, false, 0, 0), false);
    NeverSmallerIsCompressor();
    BoundOfOne(p);
    var c := new Cctx();
    var dst, src := new byte[MAX_FH_SIZE], new byte[1];
    r := c.Begin(dst, 0, MAX_FH_SIZE, p, NeverSmaller);
    EvenAtFirst(c);
    EmptyBuffer(c);
    r := c.Update(dst, 0, MAX_FH_SIZE, src, 1);
    assert c.content == src[..1];
    ByteInBuffer(c);
    r := c.Flush(dst, 0, 5);
  }

  /** An empty frame is ended with a capacity of nothing, and four bytes are written. */
  method EndOfNothing() returns (r: Result)
    ensures r == Ok(4)
  {
    hide Cctx.Valid, Cctx.Even, Cctx.Regular, Cctx.RestSize, Cctx.FlushSize, IsCompressor, Header, Body, Ended,
      Chopped, Suffix, NeverSmaller;
    NeverSmallerIsCompressor();
    var c := new Cctx();
    var dst := new byte[MAX_FH_SIZE];
    r := c.Begin(dst, 0, MAX_FH_SIZE, Preferences(Info(4, false, false, 0, 0), false), NeverSmaller);
    EmptyBuffer(c);
    ghost var n;
    r, n := c.End(dst, 0, 0);
  }
}
