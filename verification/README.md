# Verified model of the tester library's core

The tester library compiles text test patterns into packed 128-byte vector records, chunks them,
compresses each chunk with LZ4, frames the result as a Cap'n Proto message, and reads it back; an
embedded interpreter, fe, drives it.  This project models the components that carry the data and
proves what each promises.

* `Lz4*.dfy`: the LZ4 block codec.  `Lz4Format` defines the block format by a byte-at-a-time
  interpreter; the decoder with its shortcut, over-copying and table-driven overlap copies is proved
  to agree with it, and the compressor to emit blocks that it expands to the source within the
  published bound.  `Lz4Optimal` is the optimal parser of the HC compressor.
* `CapnTree`, `CapnSession`: the red-black index of segments with parent links, and the segment list.
* `CapnWords`, `CapnPointer`, `CapnMemory`, `CapnBuilder`: allocation over several segments, and near,
  tagged, landing-pad and double far pointers.  The first three define on values what the words of a
  message mean and what writing does to them; `CapnBuilder` has the operations that work in place.
* `CapnFraming`, `CapnMalloc`: the stream framing of a message, written to and read from memory.
* `CapnPacking`, `CapnStream`: the packed encoding and its resumable encoder and decoder.
* `FeHeap`, `FeCollector`, `FeText`: the mark-sweep collector of the interpreter, on the words of its
  cells, and the strings that are built in them.
* `Stim*.dfy`: the pattern compiler, from a dots program to the chunks of records for each unit.
* `Words32`, `Xxh32`: 32-bit words; the XXH32 hash and its streaming state.
* `Lz4FrameFormat`, `Lz4Frame`: the LZ4 frame as a format with a reader, and the streaming frame
  compressor for independent blocks, whatever its block compressor does.
* `AvlOrder`, `AvlTree`, `AvlMap`: the AVL tree: the finite map it stands for, its shapes with their
  stored heights, and the operations on linked nodes.
* `JsmnSteps`, `Jsmn`: the JSON tokenizer as a run of steps, and on its array of tokens.
* `Sha256Spec`, `Sha256`: SHA-256 as FIPS 180-4 defines it, and the streaming implementation.

* `Lz4Vectors`, `CapnVectors`, `Xxh32Vectors`, `Lz4FrameVectors`, `Sha256Vectors`: blocks, messages,
  frames and digests written out in bytes.

The code's constants keep their names.  What is said about words, bytes and limits is said in numbers,
so that a constant or a table that is not the source's contradicts a theorem.

An array-manipulating routine is a method on `array<byte>` proved against a function on the contents;
a C struct that is updated in place is a class.  Where the source dies or has undefined behaviour the
model has a precondition.

## Findings

* Packing loses data on runs of 257 or more words without a zero byte: the count of raw words is one
  byte and wraps (`CapnPacking.LongRunBreaks`, and `CountsFitIff` for the exact condition).
* A Cap'n Proto list of 2^29 or more elements is read back shortened, and no other object is
  (`CapnMemory.WholeIff`; `CapnMemory.LongListLost` is an example).  A struct without fields is read
  back as a null pointer.
* A bit list of more than 8 * 0x7FFFF bits gets less memory than its bits need, as its size in bytes has
  19 bits in struct capn_ptr (`CapnBuilder.NewList1`); struct sizes are cut to 19 and 16 bits
  (`CapnBuilder.NewStruct`).
* read_ptr goes on with a null segment exactly when a far pointer names a segment that does not exist
  (`CapnPointer.FarFails`, and `CapnBuilder.ReadPtr` in general).
* For exactly 1024 segments reading a framed message stores the header's padding word behind the
  array that holds the header (`CapnFraming.FrameThenParse`, outcome `Overrun`).
* fe's object() takes a cell off the freelist before it finds the gc stack full, so that each such
  error loses a cell for good (`FeCollector.Context.Object`, ghost set `lost`), until the whole heap is
  lost (`FeCollector.FullStackLosesAll`).
* The second unit's last chunk pads the dots program once more; the records are not affected
  (`StimChunks.ProgramRecords`).
* A vector whose repeat is 0 and which has no clock is not counted by get_num_unrolled_dots_vecs, but its
  record runs once (`StimRecord.ExecutedIsUnrolled`, `StimProgram.AllCounted` for the exact condition).
* AVL: RotateSingleRight reads one subtree's height twice (avl.c:457-458), so double rotations can store
  a wrong height (`AvlTree.BalanceExact` says exactly when, `AvlTree.KeysSound` for whole sequences of
  insertions) and the tree can lose its balance (`AvlTree.Unbalanced`), though not by the first such
  rotation (`AvlTree.KeysEven`).  The map it stands for is not affected.
* LZ4F_compressEnd reports a wrong content size only after it has written a frame that cannot be read back
  (`Lz4Frame.EndedReads`).
* LZ4F_flush checks for the buffered bytes and four more (lz4frame.c:827), not for the block checksum, and
  LZ4F_compressEnd (859-886) neither for that nor for end mark and content checksum.  `Lz4Frame.Cctx.Flush`
  says exactly when more is written than the room given; `Lz4Frame.FlushOfOneByte` and
  `Lz4Frame.EndOfNothing` do so.

## Model
| member | source | states |
|---|---|---|
| Lz4Format.CopyMatchUnique | lib/lz4/lz4.c:1305-1331 | the bytes a match appends are the only ones that repeat with its distance: any output with that period is the byte-at-a-time copy |
| Lz4Format.StrictLeavesRoom | lib/lz4/lz4.c:1260-1300 | a block that keeps the end rules (matches start twelve and end five bytes before the end of the output) leaves at least five literal bytes behind every match, in the input as well as in the output |
| Lz4Memory.WildCopy | lib/lz4/lz4.c:275-282 | copies in steps of eight: the bytes up to the end asked for are the source's, the overshoot stays below eight, and what is behind it is untouched |
| Lz4Decompress.Shortcut | lib/lz4/lz4.c:1209-1228 | the speculative 16/18-byte path is taken only where its over-copies stay in both buffers, and then decodes the same literals and match as the long path |
| Lz4Decompress.ReadLiteralLength | lib/lz4/lz4.c:1230-1239 | the length loop reads the run of the format, and stops early only where the block cannot be complete |
| Lz4Decompress.CopyFirstEight | lib/lz4/lz4.c:1305-1316 | with the inc32/dec64 tables the first eight bytes repeat the match distance, and the source is moved to a distance that is a multiple of it |
| Lz4Decompress.DistanceKeepsPeriod | lib/lz4/lz4.c:1189-1190 | copying from the moved distance keeps the period for every offset from 1 to 7 |
| Lz4Decompress.CopyNearEnd | lib/lz4/lz4.c:1318-1326 | near the end of the buffer the wild copy stops where it may, the rest goes byte by byte, and each byte is the one a whole distance back |
| Lz4Decompress.AppendMatch | lib/lz4/lz4.c:1293-1331 | a match is appended exactly as the byte-at-a-time copy does, or rejected when it would come too near to the end |
| Lz4Decompress.CopyLiterals | lib/lz4/lz4.c:1241-1259 | literals are copied, the block ends, or the block is rejected, by the three end conditions |
| Lz4Decompress.DecompressSafe | lib/lz4/lz4.c:1165-1350 | an accepted block's output is the format's interpretation of it; a block that fits and whose matches start at least twelve and end at least five bytes before the end is accepted, with its exact length |
| Lz4Encoding.ReadSequence | lib/lz4/lz4.c:620-679 | the format reads back the literals, offset and length of an encoded sequence, wherever it stands |
| Lz4Encoding.DecodeFrom | lib/lz4/lz4.c:620-725 | decoding from any sequence of an encoded block on continues the expansion of the sequences before it |
| Lz4Encoding.EncodedBlockConforms | lib/lz4/lz4.c:620-725 | sequences whose matches start twelve and end five bytes before the end encode to a block that keeps the end rules and decodes to their expansion |
| Lz4Encoding.EncodedCost | lib/lz4/lz4.h:156 | amortised: 255 times the encoded size of the sequences is at most 256 times what they stand for |
| Lz4Compress.PutPosition | lib/lz4/lz4.c:495-509 | the entry holds the position itself, whatever its width, because positions are below the range of the table's entries; other entries are kept |
| Lz4Compress.Count | lib/lz4/lz4.c:411-456 | the length of the common run of two positions, up to the limit |
| Lz4Compress.FindMatch | lib/lz4/lz4.c:588-615 | a found match has four equal bytes at a distance from 1 to 65535, and starts twelve bytes before the end |
| Lz4Compress.CatchUp | lib/lz4/lz4.c:618 | the match is moved back over equal bytes, not before the anchor or the start |
| Lz4Compress.EncodeMatch | lib/lz4/lz4.c:639-679 | offset and length are written as the format reads them, the token's nibble included |
| Lz4Compress.EncodeLastLiterals | lib/lz4/lz4.c:709-725 | the last literals are written as the format reads them |
| Lz4Compress.EmitMatches | lib/lz4/lz4.c:639-706 | each match found in a row is one valid sequence more, and the output stays the encoding of the sequences within the bound |
| Lz4Compress.CompressMatches | lib/lz4/lz4.c:566-706 | the main loop leaves valid sequences that expand to the source up to the anchor |
| Lz4Compress.CompressGeneric | lib/lz4/lz4.c:527-729 | the block decodes to the source, keeps the end rules, and its size stays within the bound; no store goes beyond the bound either |
| Lz4Compress.CompressDefault | lib/lz4/lz4.c:732-773 | both table widths: for inputs below the 64 KB limit the 16-bit table needs no distance check |
| Lz4RoundTrip.RoundTrip | stim.c:1556-1561 | compressing and then decompressing restores every input, for every output buffer the bound allows and every restore buffer that is long enough |
| Lz4Vectors.SeventeenLetters | lib/lz4/lz4.c:1241-1259 | the ten bytes that 17 equal letters are compressed to keep the end rules, with their last match ending just five bytes before the end, and stand for these letters |
| Lz4Vectors.LongMatch | lib/lz4/lz4.c:1260-1300 | a match of 4 + 15 + 255 + 3 bytes, whose length goes on in two more bytes |
| Lz4Vectors.CompressBounds | lib/lz4/lz4.h:156 | the bound at some sizes, and 0 just above 0x7E000000 |
| Lz4Vectors.Hashes | lib/lz4/lz4.c:470-493 | both hashes of one input |
| Lz4Optimal.EncodeSequence | lib/lz4/lz4hc.c:318-385 | the literals since the anchor and the match become one more valid sequence of the block, within the bound |
| Lz4Optimal.FindLongerMatch | lib/lz4/lz4hc.c:931-948 | whatever the chains hold, no match or one longer than asked for that repeats input bytes at most 65535 back and ends in time |
| Lz4Optimal.InitPrices | lib/lz4/lz4hc.c:1001-1035 | every entry of the price table leads back to an earlier position by a literal or by a match that is in the input |
| Lz4Optimal.UseMatch | lib/lz4/lz4hc.c:1088-1119 | the table keeps that property for every length of the new match, and reaches as far as the match does |
| Lz4Optimal.Search | lib/lz4/lz4hc.c:1037-1134 | ends with a literal or match that can be taken from the position `cur`, and a table that leads back from there to the start |
| Lz4Optimal.Reverse | lib/lz4/lz4hc.c:1141-1155 | the entries that led back now lead forward from the start to the end of the last step, without gap or overlap |
| Lz4Optimal.EncodePath | lib/lz4/lz4hc.c:1157-1169 | each match on the way becomes a valid sequence; literals wait for the next one |
| Lz4Optimal.CompressOptimal | lib/lz4/lz4hc.c:951-1201 | whatever matches the finder offers and whatever the prices are, the block decodes to the source, keeps the end rules and stays within the bound |
| Words32.LeftRotations | lib/lz4/xxhash.c:187-190 | a rotation is the two shifts of the source, whose bits are apart, for the amounts that XXH32 uses |
| Words32.RightRotations | lib/sha2/sha-256.c:16-23 | likewise, for the amounts that SHA-256 uses |
| Xxh32.OneShot | lib/lz4/xxhash.c:269-323 | XXH32 of the bytes, wherever they stand |
| Xxh32.Lengths | lib/lz4/xxhash.c:392-393 | the length counter wraps at 32 bits; the flag that chooses the lanes outlives the wrapping |
| Xxh32.State.Reset | lib/lz4/xxhash.c:371-381 | nothing hashed, from the given seed |
| Xxh32.State.Update | lib/lz4/xxhash.c:384-440 | whatever is in the buffer, the state is that of all bytes so far: whole stripes are in the lanes, the rest in the buffer |
| Xxh32.State.Digest | lib/lz4/xxhash.c:454-487 | the hash of all the updates' bytes, as one call on their concatenation would give it |
| Xxh32Vectors.KnownHash | lib/lz4/xxhash.c:269-323 | the hash of a text of 39 bytes: two stripes, a word and three bytes |
| Xxh32Vectors.HeadNumbers | lib/lz4/xxhash.c:282-306 | which lanes count, and the length modulo 2^32, in numbers |
| Lz4FrameFormat.HeaderReads | lib/lz4/lz4frame.c:999-1083 | a header, with whatever follows, is read as the fields it was written for |
| Lz4FrameFormat.BlockReads | lib/lz4/lz4frame.c:1329-1378 | a block, compressed or not, is read as its bytes |
| Lz4FrameFormat.FrameReads | lib/lz4/lz4frame.c:999-1083 | whatever blocks a content is cut into, the frame is read back, exactly if the size it announces is right |
| Lz4FrameFormat.FullBlocks | lib/lz4/lz4frame.c:766-774 | full blocks and a shorter rest are the only way to cut the input they are the parts of |
| Lz4Frame.BoundStep | lib/lz4/lz4frame.c:277-303 | a full block takes from the bound exactly its size, header and checksum |
| Lz4Frame.MakeBlock | lib/lz4/lz4frame.c:632-651 | the block of the format, within four bytes, its size and the checksum |
| Lz4Frame.Cctx.Begin | lib/lz4/lz4frame.c:499-596 | writes the header, or fails for lack of room; the context then awaits input and its buffer, if it needs one, holds a block |
| Lz4Frame.Cctx.Update | lib/lz4/lz4frame.c:713-808 | fails exactly outside a frame or without room for the bound; otherwise what was put out is header and blocks of the input but for less than a block that is in the buffer, and at most the bound was written |
| Lz4Frame.Cctx.Flush | lib/lz4/lz4frame.c:819-847 | what is in the buffer becomes a block, unless the check for room fails; more than the given room is written exactly for a block checksum that no longer fits |
| Lz4Frame.Cctx.End | lib/lz4/lz4frame.c:859-886 | ends the frame of all the input, or writes a bare suffix outside a frame; an error exactly if the announced size is wrong or the check for the last block's room fails |
| Lz4Frame.FlushOfOneByte | lib/lz4/lz4frame.c:827 | with room for five bytes, flushing one byte writes nine |
| Lz4Frame.EndOfNothing | lib/lz4/lz4frame.c:859-886 | with no room at all, ending an empty frame writes four bytes |
| Lz4Frame.EndedReads | lib/lz4/lz4frame.c:859-886 | every ended frame decodes to the input, with autoFlush and flushes as well, exactly if no error was reported |
| Lz4Frame.CompressPieces | lib/lz4/lz4frame.c:713-886 | the frame depends on the preferences and the whole input only, not on the updates it came in |
| Lz4Frame.OptimalBSID | lib/lz4/lz4frame.c:257-269 | the smallest block size that takes the input at once, or the one asked for |
| Lz4Frame.CompressFrame | lib/lz4/lz4frame.c:327-383 | succeeds exactly with room for the bound, and gives the frame any updates would give |
| Lz4FrameVectors.EmptyFrame | lib/lz4/lz4frame.c:499-596 | the frame of no bytes, byte by byte: magic number, descriptor, check byte, end mark and checksum |
| Lz4FrameVectors.HeaderBits | lib/lz4/lz4frame.c:564-578 | the bits of the flag byte and of the block descriptor, for all preferences |
| Lz4FrameVectors.HeaderFields | lib/lz4/lz4frame.c:579-592 | content size and dictionary id stand behind them, low bytes first |
| Lz4FrameVectors.BlockLayout | lib/lz4/lz4frame.c:632-651 | a block is four bytes of size, its data and maybe four bytes of checksum of that data |
| Lz4FrameVectors.SizeFieldBits | lib/lz4/lz4frame.c:640-645 | the highest bit of the size says that the data is not compressed |
| Lz4FrameVectors.AnnouncedSize | lib/lz4/lz4frame.c:348-351 | the content size of the one-call form is the real one where a size was asked for |
| Lz4FrameVectors.Bounds | lib/lz4/lz4frame.c:277-303 | the bounds for some sizes around a block of 64 KB, in numbers |
| CapnTree.RotateTwiceKeepsOrder | lib/capnp/capn.c:105-131 | the double rotation keeps the in-order list |
| CapnTree.RotateTwice | lib/capnp/capn.c:105-131 | the double rotation on the heap: every link and parent link of the nodes involved is that of the rotated tree |
| CapnTree.RotateOnce | lib/capnp/capn.c:132-153 | the single rotation on the heap, likewise |
| CapnTree.TreeInsert | lib/capnp/capn.c:55-159 | inserting at any empty position of a valid index gives the root of a valid index (parent links, black root, no red-red edge, equal black heights) with the node added at that place of the order |
| CapnSession.Capn.AppendSegment | lib/capnp/capn.c:161-177 | the segment gets the next id and is the last of the list and of the index, which stays valid |
| CapnSession.Capn.LookupSegment | lib/capnp/capn.c:202-226 | the hint if it has the id, else exactly the id-th segment of the list for every id in use and none for others (so the lookup handler is never reached); visits at most twice log2(segments + 1) nodes |
| CapnWords.OffsetKept | lib/capnp/capn.c:484 | a signed word offset survives its 30 bits beside the tag, and never looks like a far pointer |
| CapnWords.FarKept | lib/capnp/capn.c:533-539 | offset and segment number of a far pointer are read back; its low three bits are 2, or 6 for a double one, and the offset in words is above them |
| CapnPointer.TagFields | lib/capnp/capn.c:483-531 | the fields of a pointer word in numbers (kind, offset, sizes, element code and count), for every kind of object |
| CapnPointer.DecodeTag | lib/capnp/capn.c:322-424 | the tag written for an object is decoded as that object from any place it can be reached from |
| CapnPointer.NearReads | lib/capnp/capn.c:322-345 | a near pointer leads to its object |
| CapnPointer.FarReads | lib/capnp/capn.c:284-297 | a far pointer with a landing pad leads to its object, which has a tag in front of it exactly if the pad is there |
| CapnPointer.FarFails | lib/capnp/capn.c:284-297 | a far pointer leaves read_ptr without a segment exactly if the message does not have the one it names |
| CapnPointer.DoubleReads | lib/capnp/capn.c:248-282 | a double far pointer leads to its object, whatever segment the two words are in |
| CapnPointer.ReadWithin | lib/capnp/capn.c:322-424 | whatever the words of a message are, an object that is read lies in its segment |
| CapnVectors.ReadsStruct | lib/capnp/capn.c:345-354 | a word with the numbers of a struct is read as that struct, whatever is around it |
| CapnVectors.ReadsList | lib/capnp/capn.c:356-408 | likewise for a list of each element code |
| CapnVectors.FarMessage | lib/capnp/capn.c:284-297 | two segments in bytes: a far pointer to the tag of a list of five bytes |
| CapnVectors.DoubleFarMessage | lib/capnp/capn.c:248-282 | three segments in bytes: a double far pointer to a far word and the tag of a struct |
| CapnVectors.CompositeMessage | lib/capnp/capn.c:389-407 | a composite list of two elements with a data word and a pointer each |
| CapnVectors.BackwardMessage | lib/capnp/capn.c:339-343 | a pointer whose offset is negative |
| CapnMemory.WriteThenRead | lib/capnp/capn.c:543-600 | whichever of the forms is chosen, the slot leads to the object that was written, no other allocated byte changes, and segments still end at words; never asks for a copy of an object of the message |
| CapnMemory.WriteLayout | lib/capnp/capn.c:543-600 | which of the four forms is chosen, and every word it leaves, in numbers: a tag; a far word (2) to a tag there is or to a new one; a double far word (6) to a far word and a tag |
| CapnMemory.PadsPlace | lib/capnp/capn.c:578-587 | the two words of a double far pointer go to the slot's segment even if they fill it |
| CapnMemory.ClippedOrNot | lib/capnp/capn.c:496 | clipping changes nothing exactly for lists of less than 2^29 elements, bit lists among them, and whatever has a count of its own |
| CapnMemory.WholeIff | lib/capnp/capn.c:496 | what is written and read back is the object itself, exactly if its element count fits 29 bits |
| CapnMemory.ReadBack | lib/capnp/capn.c:543-600 | the slot holds the object, or null for an empty struct, unless a message that cannot make segments has no room for the pointer |
| CapnMemory.LongListLost | lib/capnp/capn.c:496 | a list of 2^29 bytes in a message that holds just it is read back without any element |
| CapnMemory.ReadKept | lib/capnp/capn.c:543-600 | a write leaves every other pointer of the message leading where it led, if none of the words on its way is the slot |
| CapnMemory.NewIsClear | lib/capnp/capn.c:944-980 | a slot that was there before an object was allocated is none of the object's tags |
| CapnBuilder.NewData | lib/capnp/capn.c:179-200 | the first segment with room, or a new one of whole pages; the bytes handed out are zero and nothing else changes |
| CapnBuilder.WritePtr | lib/capnp/capn.c:543-600 | the message ends as Write says, and slot and pads hold the words of the layout in numbers; NEED_TO_COPY for objects of other messages, -1 without room |
| CapnBuilder.LookupFarPtr | lib/capnp/capn.c:284-297 | follows a far pointer through the segment index |
| CapnBuilder.LookupDoublePtr | lib/capnp/capn.c:248-282 | follows a double far pointer, with its checks of both words |
| CapnBuilder.ReadPtr | lib/capnp/capn.c:322-424 | reads what Read says, or has no segment to read from exactly if Read has none |
| CapnBuilder.NewObject | lib/capnp/capn.c:944-980 | zeroed room of its own, at the end of the segment where it fits, and otherwise elsewhere behind a tag that is noted |
| CapnBuilder.NewStruct | lib/capnp/capn.c:997-1004 | a struct of its own with the sizes asked for, as far as 19 and 16 bits can hold them: pointers to it can be written, and its fields are zero |
| CapnBuilder.NewList | lib/capnp/capn.c:1006-1033 | a list of its own: composite or not by the element's shape, with the element sizes 0, 1, 2, 4 and 8 |
| CapnBuilder.ListSteps | lib/capnp/capn.c:1007-1031 | elements with pointers or nine bytes and more are structs; others take 0, 1, 2, 4 or 8 bytes |
| CapnBuilder.NewList1 | lib/capnp/capn.c:1035-1042 | a bit list of its own; its memory is enough for its bits exactly up to 8 * 0x7FFFF of them |
| CapnBuilder.NewPtrList | lib/capnp/capn.c:1044-1052 | a pointer list of its own |
| CapnBuilder.Root | lib/capnp/capn.c:982-995 | the slot at the start of segment 0, allocated when it was not |
| CapnBuilder.WriteAndRead | lib/capnp/capn.c:543-600 | at any slot of any message: the object whose pointer is written is the one that is read, wherever it lies; a message that makes segments always has room |
| CapnBuilder.RootAndStruct | lib/capnp/capn.c:982-1004 | a fresh message has its root slot, and a new struct in it can be pointed to from there |
| CapnBuilder.RootRoundTrip | lib/capnp/capn.c:982-1004 | from nothing to the struct read back from the root: the same segment, offset and sizes |
| CapnFraming.FrameThenParse | lib/capnp/capn-malloc.c:117-178 | reading back a framed message gives its segments exactly for fewer than 1024 of them of 32-bit size in all, and stores past its header array exactly for 1024 |
| CapnFraming.AnnouncedIs | lib/capnp/capn-malloc.c:147-153 | the sizes a header announces are accepted exactly when they add up to 32 bits, and then are those of the segments |
| CapnVectors.OneSegment | lib/capnp/capn-malloc.c:201-231 | the frame of one segment in bytes |
| CapnVectors.TwoSegments | lib/capnp/capn-malloc.c:201-231 | the frame of two segments in bytes, with the padding word |
| CapnMalloc.HeaderRender | lib/capnp/capn-malloc.c:215-231 | the header of all segments, padding included, and the sum of their sizes |
| CapnMalloc.WriteMem | lib/capnp/capn-malloc.c:277-314 | the framed message and its length, exactly when there is a message, its first segment can hold a root and the buffer is large enough |
| CapnMalloc.InitMem | lib/capnp/capn-malloc.c:117-178 | a message with exactly the segments that the buffer frames, all full and indexed, or null exactly when the frame is bad; the header array is overrun exactly for 1024 segments |
| CapnMalloc.WrittenIsRead | lib/capnp/capn-malloc.c:192-198 | what WriteMem leaves in a buffer InitMem reads back, exactly for fewer than 1024 segments of 32 bits in all |
| CapnPacking.PackRoundTrip | lib/capnp/capn-stream.c:18-216 | unpacking the packed form of any message without 257 zero-free words in a row gives the message back, whatever packed bytes follow |
| CapnPacking.CountsFitIff | lib/capnp/capn-stream.c:82-87 | the one-byte raw counts are right exactly when no 257 words in a row are free of zero bytes |
| CapnPacking.RoundTripIff | lib/capnp/capn-stream.c:82-87 | unless the first raw word that a wrapped count leaves behind is all ones, a message survives packing exactly if it has no 257 words in a row without a zero byte |
| CapnPacking.LongRunBreaks | lib/capnp/capn-stream.c:82-87 | 257 words of ones do not survive packing |
| CapnPacking.GroupIs | lib/capnp/capn-stream.c:54-105 | each group has one of the three forms of the encoding, and takes as many words as that form can |
| CapnVectors.TaggedWord | lib/capnp/capn-stream.c:46-106 | the packed form of a word with some zero bytes |
| CapnVectors.ZeroWords | lib/capnp/capn-stream.c:54-69 | the packed form of three zero words |
| CapnVectors.TwoFullWords | lib/capnp/capn-stream.c:71-88 | the packed form of two words without a zero byte |
| CapnPacking.SpreadTag | lib/capnp/capn-stream.c:188-207 | the nonzero bytes of a word under its tag give the word back |
| CapnStream.Stream.Deflate | lib/capnp/capn-stream.c:18-110 | succeeds exactly when the output has room for the packed form, and then has written it; otherwise reports misalignment or lack of room |
| CapnStream.Stream.Inflate | lib/capnp/capn-stream.c:112-216 | whatever windows of input and output it is called with, what it has written and what is pending is the unpacked form of the whole stream; it stops exactly when the output is full or a group is incomplete |
| CapnStream.Stream.DeflateGroup | lib/capnp/capn-stream.c:46-106 | one group is written exactly as the format groups the words |
| CapnStream.Stream.ReadGroup | lib/capnp/capn-stream.c:159-212 | one group is read exactly when it is complete |
| FeHeap.ReachWithin | lib/fe/fe.c:154-173 | the reachable cells are the least set that has the roots and the cells its members refer to |
| FeHeap.KidsByNumber | lib/fe/fe.c:151-173 | by the numbers of the types: a pair refers by both words, symbols, strings, functions and macros by their cdr, and no other cell refers to any |
| FeHeap.NextReached | lib/fe/fe.c:151-173 | what such a cell refers to can be reached when the cell can |
| FeHeap.SameReach | lib/fe/fe.c:176-198 | overwriting cells that cannot be reached does not change what can be reached |
| FeHeap.ReachOneMore | lib/fe/fe.c:228-248 | a new root whose fields are reachable already adds only itself |
| FeHeap.MarkBits | lib/fe/fe.c:41 | the mark bit of a tag word leaves its type and its pointer alone |
| FeCollector.Context.FeMark | lib/fe/fe.c:154-173 | marks cells that can be reached and leaves no marked cell with an unmarked one it refers to; ends on cyclic heaps because every step marks another cell |
| FeCollector.Context.MarkRoots | lib/fe/fe.c:176-183 | exactly the cells reachable from the gc stack and the symbol list are marked |
| FeCollector.Context.SweepCell | lib/fe/fe.c:184-197 | an unmarked cell goes to the freelist, a marked one is restored, a free one is left alone |
| FeCollector.Context.CollectGarbage | lib/fe/fe.c:176-198 | afterwards the freelist holds exactly once each cell that cannot be reached (but lost ones), every reachable cell is as before, no cell is marked, the cdr of a reachable pair, symbol, string, function or macro is not free, and the dead pointer cells were handed to the gc handler once each |
| FeCollector.Context.Object | lib/fe/fe.c:228-240 | a free cell that was not reachable, rooted; out of memory only if every cell is reachable or lost; on a full gc stack the cell is lost; reachable cells are never disturbed |
| FeCollector.FullStackLosesAll | lib/fe/fe.c:228-240 | with a full gc stack each of n calls on a heap of n unused cells fails and loses one, after which there is no memory although nothing is in use |
| FeCollector.Context.Cons | lib/fe/fe.c:243-248 | a pair of two reachable cells; exactly the pair can be reached besides what could be before |
| FeText.CollectKeepsText | lib/fe/fe.c:176-198 | the text of a string that can be reached is the same after a collection, and none of its cells is free |
| FeText.BuildString | lib/fe/fe.c:264-276 | one character more, in a new cell of seven if the last one is full; the new cell is rooted by the string, and every other cell in use is as before |
| FeText.FeString | lib/fe/fe.c:279-286 | a string with the text, of new cells, only its head on the gc stack, whatever collections happen on the way |
| FeCollector.Context.PushGc | lib/fe/fe.c:136-141 | one root more, or overflow at 256 |
| FeCollector.Context.RestoreGc | lib/fe/fe.c:144-146 | dropping roots reaches no more than before |
| FeCollector.Context.constructor | lib/fe/fe.c:796-810 | every cell is free and on the freelist, the last one first |
| FeCollector.Context.Close | lib/fe/fe.c:830-835 | every cell that is not lost is freed, and every pointer cell handed to the gc handler |
| AvlOrder.PutFinds | lib/avl/avl.h:37-45 | after an insertion the key has the new value if it had none before, and all other keys have theirs |
| AvlOrder.PutKeepsOrder | lib/avl/avl.h:37-45 | the entries stay in ascending order, with one more exactly if the key is new |
| AvlOrder.DropFinds | lib/avl/avl.h:47-52 | after a removal the key has no value, and all other keys have theirs |
| AvlOrder.DropKeepsOrder | lib/avl/avl.h:47-52 | the entries stay in ascending order, with one less exactly if the key was there |
| AvlTree.BalanceKeeps | lib/avl/avl.c:365-395 | whatever the stored heights are, if only positive, balancing follows no null link and keeps entries, order and nodes |
| AvlTree.InsertPuts | lib/avl/avl.c:102-163 | insertion with its rotations does to the entries what a map insertion does, and adds the new node if one is needed |
| AvlTree.RemoveDrops | lib/avl/avl.c:174-248 | removal does to the entries what a map removal does |
| AvlTree.BalanceExact | lib/avl/avl.c:365-503 | over subtrees with true heights that differ by at most two the result is balanced, and its stored heights are true if and only if it is not a double rotation whose middle node has a right subtree lower than its new neighbour |
| AvlTree.InsertSound | lib/avl/avl.c:102-163 | insertion into a tree with true heights leaves a balanced tree at most one higher; its stored heights are true if and only if no such rotation happened |
| AvlTree.InsertAvlSound | lib/avl/avl.c:90-99 | the operation on the whole tree: from true heights the result is balanced, its root's height is true and at most one more, and all its heights are true if and only if no such rotation happened |
| AvlTree.KeysEven | lib/avl/avl.c:90-163 | any number of insertions: the tree stays balanced up to and including the first insertion with such a rotation |
| AvlTree.KeysSound | lib/avl/avl.c:90-163 | the trees after all prefixes of the insertions are balanced with true heights if and only if no insertion had such a rotation |
| AvlTree.RemoveSound | lib/avl/avl.c:174-316 | a removal in whose rebalancing no such rotation happens leaves a balanced tree with true heights, at most one lower |
| AvlTree.Unbalanced | lib/avl/avl.c:457-458 | seven insertions into an empty tree after which it is not balanced |
| AvlMap.RotateSingleRight | lib/avl/avl.c:440-462 | links, fields and heights end as the source leaves them |
| AvlMap.RotateSingleLeft | lib/avl/avl.c:465-487 | likewise |
| AvlMap.Rebalance | lib/avl/avl.c:365-395 | the linked nodes become those of the balanced tree |
| AvlMap.AVLTree.InsertAVL | lib/avl/avl.c:90-99 | the entries are those before with the key's added, unless it was there; its old value, or null, is the result; the size is the number of entries |
| AvlMap.AVLTree.RemoveAVL | lib/avl/avl.c:166-171 | the entries are those before without the key's; its value, or null, is the result |
| AvlMap.AVLTree.TakeLeftMost | lib/avl/avl.c:251-282 | takes the first entry's node out of the subtree |
| AvlMap.AVLTree.FindAVL | lib/avl/avl.c:319-339 | the value of the key, or null |
| JsmnSteps.NestedOrApart | lib/jsmn/jsmn.c:151-303 | after a successful run all spans lie in the text and any two are apart or nested |
| JsmnSteps.RunKeepsSpans | lib/jsmn/jsmn.c:151-303 | at every point of a run a later token is inside an earlier one or behind it, so that the open containers are a stack; on success none is open |
| JsmnSteps.RunKeepsSizes | lib/jsmn/jsmn.c:173-177 | the size of a token is the number of later tokens that were put below it |
| JsmnSteps.SizesAddUp | lib/jsmn/jsmn.c:151-303 | all sizes and the tokens below no other add up to the count |
| JsmnSteps.CountAgrees | lib/jsmn/jsmn.c:151-303 | counting without an array gives the number of tokens of any successful run, and an array of that size is never too small |
| JsmnSteps.Restart | lib/jsmn/jsmn.c:168-171 | after NOMEM going on with a larger array gives what that array would have given from the beginning |
| JsmnTokens.PrimitiveIs | lib/jsmn/jsmn.c:36-76 | a primitive holds printable characters but no delimiter (colon, tab, return, newline, space, comma, closing brackets), and one of these or the end of the text is behind it |
| JsmnTokens.PrimitiveEndsThere | lib/jsmn/jsmn.c:36-76 | such a stretch is always accepted |
| JsmnTokens.StringIs | lib/jsmn/jsmn.c:84-146 | a string goes up to the first quote that no backslash escapes, and each escape in it is one of JSON's |
| JsmnTokens.StringEndsThere | lib/jsmn/jsmn.c:84-146 | such a stretch is always accepted |
| JsmnTokens.RunReads | lib/jsmn/jsmn.c:151-303 | after any run every token is what its type says of the text, and nothing but brackets, quotes, separators and space is in no token |
| JsmnTokens.Example | lib/jsmn/jsmn.c:151-303 | the five tokens of an object with two keys |
| JsmnTokens.MixedExample | lib/jsmn/jsmn.c:151-303 | the three tokens of an array with an object and a string |
| JsmnTokens.CommaOutside | lib/jsmn/jsmn.c:243-260 | outside of all containers a comma changes nothing |
| JsmnTokens.BracketErrors | lib/jsmn/jsmn.c:182-231 | wrong and missing brackets, and too little room |
| JsmnTokens.StringErrors | lib/jsmn/jsmn.c:84-146 | a string without end, and one with a wrong escape |
| Jsmn.JsmnParser.ScanString | lib/jsmn/jsmn.c:84-146 | finds the closing quote, or restores the position and says what is wrong |
| Jsmn.JsmnParser.CloseBracket | lib/jsmn/jsmn.c:182-231 | closes the innermost open container if it is of that type; the next one out becomes the superior token |
| Jsmn.JsmnParser.Parse | lib/jsmn/jsmn.c:151-303 | parser and tokens end as the run of steps does, with its result code: the number of tokens, or -1, -2 or -3 |
| Jsmn.CountAndParse | lib/jsmn/jsmn.c:151-303 | counting first and then parsing never runs out of tokens, and fails only where no array would do; each token is then what its type says of the text |
| Jsmn.ParseAgain | lib/jsmn/jsmn.c:168-171 | a second call with a copied, larger array has the result of one call with that array |
| Sha256Spec.BlocksPrefix | lib/sha2/sha-256.c:135-166 | what follows has no influence on the hash value of the blocks before |
| Sha256.NextWord | lib/sha2/sha-256.c:58-70 | sixteen words, overwritten in turn, are the last sixteen of the standard's schedule of sixty-four (section 6.2.2 of FIPS 180-4) |
| Sha256.ConsumeChunk | lib/sha2/sha-256.c:31-109 | the hash value after one block as in section 6.2.2 of FIPS 180-4, wherever the block stands |
| Sha256.BlockDone | lib/sha2/sha-256.c:143-165 | a block that the next bytes complete is the next block of everything written |
| Sha256.Sha_256.Write | lib/sha2/sha-256.c:135-166 | whatever is in the chunk, all whole blocks of what was written are hashed and the rest is in the chunk |
| Sha256.Sha_256.Finish | lib/sha2/sha-256.c:180-203 | one more block or two: together with the chunk they are the padding of section 5.1.1 of FIPS 180-4 |
| Sha256.Sha_256.Close | lib/sha2/sha-256.c:168-214 | the digest of all that was written, in whatever pieces |
| Sha256.CalcSha256 | lib/sha2/sha-256.c:216-222 | the digest of the input |
| Sha256Vectors.AbcDigest | lib/sha2/sha-256.c:216-222 | the digest of the three letters abc |
| StimRecord.PackedNibbles | subvec.c:17-45 | with pins of different numbers each pin of the unit has its subvec in its nibble, and every other nibble is NONE |
| StimRecord.RecordDecodes | stim.c:917-985 | a record decodes to its vector projected to the unit: subvecs, opcode and little-endian operand |
| StimRecord.OpcodeByte | stim.c:970-982 | byte 127 is 3 for a vector with a clock, else 2 for a repeat above 1, else 255 if no pin of the unit is 0, 1, H or L, else 1 |
| StimRecord.OperandBytes | subvec.c:55-80 | bytes 100 to 107 are the repeat, low byte first, and those up to 126 are 0 |
| StimRecord.PinNibbles | subvec.c:17-45 | a pin's nibble is that of its slot, the low one for even slots, and those of unused pins are 15 |
| StimRecord.SubvecNumbers | dots.c:268-291 | 0, 1, X, H, L and C are 0 to 5 |
| StimRecord.UnrolledNumber | dots.c:380-391 | a vector with a clock counts twice |
| StimRecord.ExecutedIsUnrolled | stim.c:970-982 | a record runs what get_num_unrolled_dots_vecs counts for its vector, exactly unless its repeat is 0 and it has no clock: then it is not counted but runs once |
| StimProgram.ExecutedIs | board/artix.c:1137 | a unit runs the unrolled program, the vectors that are not counted and one vector for each padding NOP, the same number on both units |
| StimProgram.AllCounted | dots.c:366-396 | every vector is counted exactly if each has a clock or a repeat above 0 |
| StimProgram.NopIsIdle | dots.c:166-212 | a padding vector compiles to a NOP record that runs once |
| StimProgram.NopIs | dots.c:166-212 | a padding vector has repeat 1 and X for every pin |
| StimProgram.CalcNumPaddingVecs | stim.c:77-83 | the distance to the next multiple of eight |
| StimProgram.ChunksCover | stim.c:505-523 | every chunk is a positive number of whole bursts, at most STIM_CHUNK_SIZE bytes, and only the last ends with the program |
| StimProgram.ChunkSumIs | stim.c:473-523 | the chunks together hold the program and its padding |
| StimDots.DotsVec.Expand | dots.c:218-313 | the subvec of every character; a clock is noticed |
| StimDots.Dots.AppendNops | dots.c:166-212 | the program is followed by the given number of vectors that drive nothing |
| StimDots.Dots.GetNumUnrolled | dots.c:366-396 | the sum of the repeats, doubled for vectors with a clock; every vector then knows whether it has one |
| StimCompiler.PackSubvec | subvec.c:17-45 | only the pin's nibble changes |
| StimCompiler.PackOpcode | subvec.c:55-80 | operand in bytes 100 to 107, zeros up to 126, opcode in 127, and the nibbles untouched |
| StimCompiler.PackVec | stim.c:915-968 | the record of a vector for a unit |
| StimCompiler.FillChunkByDots | stim.c:835-1018 | as many records as the program still has and the chunk can take, in order, from the unit's cursor on |
| StimChunks.SelectUnits | profile.c:891-916 | a unit is selected exactly when one of its pins is used |
| StimChunks.TouchesIs | profile.c:891-916 | pins below 200 are the first unit's, those from there to 400 the second's |
| StimChunks.VecsPerChunk | stim.c:505-518 | the arithmetic on bytes gives full chunks and the rest in the last one |
| StimChunks.ProgramRecords | stim.c:802-811 | padding the program once more, as the second unit's last chunk does, changes none of its records |
| StimChunks.Stim.constructor | stim.c:1345-1400 | chunks for exactly the units whose pins are used, none of them loaded, and both cursors at the start |
| StimChunks.Stim.FillChunk | stim.c:697-828 | the records of the chunk's part of the padded program |
| StimChunks.Stim.LoadNextChunk | stim.c:557-644 | unloads the current chunk and loads and fills the next, so that at most one chunk of both units is ever loaded; none after the last |
| StimChunks.Stim.CompileUnit | stim.c:1543-1560 | the chunks of a first pass are, in order, the records of the whole program followed by its NOPs, and what they run is the number the runner checks, and one for each vector that is not counted |

## Left out

LZ4
* acceleration other than 1, and the limitedOutput, destSize and dictionary modes.
* the HC compressor's hash chains: its finder may offer any match that is in the input.  The HC
  parser of the lower levels (LZ4HC_compress_hashChain).
* `LZ4_NbCommonBytes` is modelled as the first differing byte, not as a bit scan of the difference word.
* the hash and how soon the search skips ahead (LZ4_skipTrigger) decide which of the valid blocks is produced; nothing is said about the choice.
* integer widths and pointer overflow checks; 32-bit and big-endian variants of the word accesses.

Cap'n Proto
* capn.c:228-246, the lookup handler's part of lookup_segment: for a session that is built here it is never reached, since every id in use is found and others return early.
- CapnSession.Capn.LookupSegment: is called on a session; the call without one (capn.c:207), which returns null, is not modelled.
* `capn_setp`'s deep copy and its copy tree (write_ptr's NEED_TO_COPY is a result here), `capn_getp` and the accessors of list elements.
* overflow of 32-bit products and offsets in read_ptr for hostile counts: the model computes with integers.
- CapnBuilder.NewList: products and sizes beyond a C int are excluded, and 2^30 or more struct elements of no size, whose count does not fit the element word.
- CapnPacking.RoundTripIff: whether a long run whose second word is all ones can survive by chance is not decided.
- CapnMalloc.InitMem: for 1024 segments the model stops, with `overrun`, where the source writes past its header array.
* the order of the three stores of a landing pad, which nothing can observe.
* read messages share one allocation in the source; here each segment has its own buffer.
* the packed variants of capn_write_mem and capn_init_mem, and writing to file descriptors.
* resuming capn_deflate after it stopped in the middle of a raw run, which its alignment check rules out.

fe
* evaluation, reading, printing and symbols; comparing and writing strings; the mark handler of pointer cells.
* fe_error's unwinding: an error is a result, and the state is that at the call of fe_error.

Pattern compiler
* bitstream and raw stims; parsing of dots files (`Dots.Append` gets the repeat as a number).
* a second pass over the same stim: the dots cursors are not rewound.
* `get_subvec_by_pin_id`, which reads the opposite nibble from the one that is packed.
* vectors and pins beyond the limits at which the source dies.

LZ4 frame and hash
* linked blocks, dictionaries, and LZ4F_decompress as a state machine: the format's reader takes a whole frame.
* the block compressor: any function of the block that returns fewer bytes, or nothing when it cannot.
- Lz4Frame.Cctx.Flush: the array must have room for all that is written, even where the given capacity has not; writing past the memory itself is not modelled.
- Lz4Frame.Cctx.End: likewise.
- Lz4Frame.Cctx.Begin: block size ids outside the enumeration of lz4frame.h are excluded; the error LZ4F_getBlockSize has for them would become the size of a buffer.
* failures of allocation.
* XXH64, which nothing in the library calls, and which repeats XXH32 with wider words.

JSON tokenizer and SHA-256
* the strict mode and the parent links of jsmn; positions beyond the range of int.
* sha_256_init on a structure that was used before.

AVL
* destroying and traversing a tree; that what a removal unlinks is freed.
- AvlTree.RemoveSound: one direction only; when a removal does rotate with a stale height, what its heights then are is not said.

Other components of the library
* hardware access, the database and configuration files, logging and memory-mapped files.
