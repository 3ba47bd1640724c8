# Verified models of the engine's bundled algorithms

The engine itself glues OpenGL, SDL and YAML together; what is deep in it is code it bundles and
builds. Each of these components is modelled as the state machine it is, with its own branches,
constants and error cases, and proved against a description that does not mention them.

- **The allocator of LuaJIT** (`Alloc*.dfy`, `lj_alloc.c`). Memory is a map of head words and foot
  fields; beside it a ghost map of tiles says what the chunks are. `AllocTiles`, `AllocMoves` and
  `AllocSegments` prove that every way of cutting up, merging, adding and dropping memory keeps the
  boundary tags, the tiles and the segments in agreement. `AllocTrie` and `AllocTreeBins` hold the
  tries of same-size rings, `AllocSmallBins` the circular lists, `AllocBestFit` and `AllocSearch`
  the searches. `AllocServe` says which free memory a request has to be served from. `AllocState` puts them together; `AllocMalloc`, `AllocFree` and `AllocRealloc` are
  the operations, and `AllocRun.Run` any sequence of them,
  with reads and writes of the client in between (`AllocStore`): the invariant holds that every word
  a client has stored in a block it still has is there. The maps of bins are words of 32 bits (`BitWords`, `BinMaps`). mmap, munmap and mremap are oracles.
- **The red-black tree of EASTL** (`RbTreeModel`, `RedBlackTree`, `RbTreeErase`, `RbTreeIterate`).
  Heap nodes with parent, child and colour fields represent a ghost tree, seen through a zipper at
  the place where the code works.
- **The decoders of stb_image.h**: inflate (`Reverse16`, `BitReversal`, `HuffmanCode`,
  `HuffmanTable`, `InflateBits`, `InflateTokens`, `InflateEnds`, `Inflate`), GIF (`GifRows`,
  `GifLzw`, `GifCompress`, `Gif`), PNG (`PngFilter`, `Png`, `PngImage`, `PngUnpack`, `PngDecode`)
  and JPEG entropy decoding (`JpegHuffman`, `JpegTable`, `JpegStream`, `JpegFastAc`,
  `JpegZigzag`, `JpegDecode`). `InflateRoundTrip`, `GifCompress` and `JpegRoundTrip` hold compressors as the
  standards describe them, with no reference to the decoders, and prove that what they write is
  read back; `BitWriter` packs bits into bytes.
- **DynASM for x86** (`Dasm*.dfy`). `DasmLabels` says which definition a branch means, `DasmLayout`
  where code ends up, `DasmPut`, `DasmLink` and `DasmEncode` are the invariants of the three passes,
  and `Dasm` holds the state and the passes themselves. `DasmJump` is the processor that reads the jumps.
- **The bytecode dump of LuaJIT** (`BcFormat`, `BcReader`, `BcRoundTrip`, `BcBuffer`, `BcWriter`).
  The grammar of the dump as a printer, a reader with a stack of prototypes, and the writer.
- **Lua patterns and table.sort** (`LuaClass`, `LuaPattern`, `LuaLanguage`, `LuaCaptures`,
  `LuaSyntax`, `LuaMatch`, `LuaSort`),
  and **the intrusive list of EASTL** (`IntrusiveList`).

`Shifts` is the arithmetic of shifting they share.

Where the code does otherwise than one would expect, the model follows it:

- **PNG, fewer than eight bits.** The pointer to the row above is taken before the pointer to the
  row is moved to the end of its output row (`stb_image.h:4032-4042`), so filters that look at the
  row above read bytes that were never written. `PngImage.ExactlyWhen` gives the exact condition
  under which images still come out right, and `PngImage.WrongRow` the memory with which they do not.
- **GIF.** When the table has 4096 entries the next code is refused unless it clears the table
  (`stb_image.h:5888`), although the GIF89a specification lets a compressor go on with a full
  table. `GifCompress.Decompresses` gives the exact condition on the codes under which the text
  comes back, `GifCompress.PlainFails` the first input of its kind that fails. The test `code == avail` after `avail` has been incremented is never true; the entry comes
  out right because its own first symbol has been written just before.
- **Inflate.** The reserved length codes 286 and 287 and distance codes 30 and 31 are not refused.
  `Inflate.ZBuf.ParseHuffmanBlock` says when one was met, and agrees with RFC 1951 up to there.
  Zeros are assumed after the end of the data. In bounded memory the loop always ends without
  reserved codes; with them it may go on for ever, adding nothing, so that the method takes the
  number of rounds. `InflateEnds.HangsIff` says exactly when, `InflateEnds.ReservedHangs` gives
  codes, and `InflateEnds.NeverEnds` does the same for the tokens of RFC 1951 in unbounded memory.
- **DynASM.** A backward branch to a local label is refused while a forward branch waits for the
  next definition of the same number, even though a definition before exists
  (`Dasm.RefusedBranch`).
- **Lua patterns.** In a set such as `[a-%%]` the range takes the first `%`, so that the second one
  escapes the closing bracket itself, which then belongs to the set (`LuaClass.EscapedBracket`).
  `LuaClass.ScansAgree` says for which sets that happens, and for no others: those with `%` right
  before the bracket, where the first `%` of that run is the upper bound of a range.
- **The intrusive list.** `validate` cannot fail at its loop checks: symmetric links alone rule
  loops out.
- **The fast JPEG table** uses 255 for "no short code", so that a short codeword of symbol 255 is
  overlooked and ten bits are taken instead. `JpegFastAc.CompleteIff` says which tables are right on
  all streams, `JpegFastAc.Example` gives one that a file may contain and that is not.

## Model

| member | source | states |
|---|---|---|
| RbErase.Erase | depends/EASTL/source/red_black_tree.cpp:292-488 | erasing any node of a valid tree leaves a valid one (black root, no red-red edge, equal black heights, symmetric links, exact anchor); its in-order sequence is the old one without that node |
| RbErase.EraseRebalance | depends/EASTL/source/red_black_tree.cpp:396-487 | the fix-up loop ends, and gives back the black node that is missing on one side without changing the in-order sequence |
| RbErase.UnlinkSuccessor | depends/EASTL/source/red_black_tree.cpp:361-394 | a node with two children is replaced by its successor: the links of the whole tree are those of the tree with the successor in its place |
| RbErase.TakePlace | depends/EASTL/source/red_black_tree.cpp:364-393 | the successor takes over the children, the parent, the place below it and the colour of the erased node |
| RbErase.EraseEnds | depends/EASTL/source/red_black_tree.cpp:335-359 | leftmost and rightmost of the anchor stay exact when a node with at most one child goes |
| RedBlackTree.Insert | depends/EASTL/source/red_black_tree.cpp:188-284 | a fresh node at a free child position ends up exactly there in the in-order sequence, in a valid tree with an exact anchor |
| RedBlackTree.InsertRebalance | depends/EASTL/source/red_black_tree.cpp:221-282 | the loop that repairs a red-red edge ends in a red-black tree with the same in-order sequence |
| RedBlackTree.RotateLeft | depends/EASTL/source/red_black_tree.cpp:129-152 | a left rotation turns the links of a subtree into those of the rotated subtree and leaves the rest of the heap alone |
| RedBlackTree.RotateRight | depends/EASTL/source/red_black_tree.cpp:156-179 | the same for a right rotation |
| RedBlackTree.RotatedLeftFacts | depends/EASTL/source/red_black_tree.cpp:129-152 | a left rotation keeps the in-order sequence, and the right rotation undoes it |
| RbModel.HeightBound | depends/EASTL/source/red_black_tree.cpp:188-284 | a valid tree with n nodes has a height of at most 2*log2(n+1) |
| RbModel.PlugRedBlack | depends/EASTL/source/red_black_tree.cpp:188-488 | a subtree may be exchanged for one of the same black height that is no redder, and the whole stays a red-black tree |
| RbModel.InorderDistinct | depends/EASTL/source/red_black_tree.cpp:44-98 | no node occurs twice in the order of iteration |
| RbIterate.Increment | depends/EASTL/source/red_black_tree.cpp:44-68 | goes to the next node in order, and from the last one to the anchor |
| RbIterate.Decrement | depends/EASTL/source/red_black_tree.cpp:75-98 | goes to the previous node in order, from the anchor to the last one: it undoes Increment |
| AllocTreeBins.TreeBins.Insert | depends/LuaJIT-2.0.5/src/lj_alloc.c:647-683 | a large chunk joins its treebin: bitwise tries on size, one node per size with the other chunks in its ring, treemap bits set exactly for non-empty bins, nothing else lost or added |
| AllocTreeBins.TreeBins.Unlink | depends/LuaJIT-2.0.5/src/lj_alloc.c:685-727 | a large chunk leaves its treebin, whether ring member, leaf or inner node; the tries, rings, parents and map stay right and exactly that chunk is gone |
| AllocTreeBins.TreeBins.CutLeaf | depends/LuaJIT-2.0.5/src/lj_alloc.c:695-706 | the leaf that replaces an inner node is found below it and cut off |
| AllocSmallBins.SmallBins.Insert | depends/LuaJIT-2.0.5/src/lj_alloc.c:595-607 | a small chunk becomes the first of the circular list of its own size, and the map bit is set |
| AllocSmallBins.SmallBins.Unlink | depends/LuaJIT-2.0.5/src/lj_alloc.c:610-620 | a chunk leaves its list; the map bit is cleared exactly when the list gets empty |
| AllocSmallBins.SmallBins.TakeFirst | depends/LuaJIT-2.0.5/src/lj_alloc.c:623-631 | the first chunk of a non-empty smallbin leaves it |
| AllocSmallBins.SmallBins.MapExact | depends/LuaJIT-2.0.5/src/lj_alloc.c:595-631 | smallmap bit i is set if and only if smallbin i holds a chunk, and all of them have the size 8*i |
| AllocIndex.IndexShape | depends/LuaJIT-2.0.5/src/lj_alloc.c:533-544 | the size range of each treebin: the two bits below the highest one select it |
| AllocIndex.IndexOrder | depends/LuaJIT-2.0.5/src/lj_alloc.c:533-544 | treebins are ordered by size: a smaller index means smaller chunks |
| AllocIndex.RegisterBits | depends/LuaJIT-2.0.5/src/lj_alloc.c:551-558 | the shifted size register has the next bit of the size as its sign bit at each level |
| BinMaps.LeftBitsSpec | depends/LuaJIT-2.0.5/src/lj_alloc.c:574-575 | left_bits of a bin's bit, and-ed with a map, marks exactly the marked bins above that bin; the search for the next treebin uses it |
| BinMaps.SmallBits | depends/LuaJIT-2.0.5/src/lj_alloc.c:1187-1206 | the shifted smallmap of malloc tells whether a bin or the next one is marked, whether any at or above it is, and shifted back exactly the marked ones above |
| BinMaps.FfsSpec | depends/LuaJIT-2.0.5/src/lj_alloc.c:1083-1117 | lj_ffs gives the lowest bin that a map marks |
| BinMaps.MarkSpec | depends/LuaJIT-2.0.5/src/lj_alloc.c:563-571 | marking adds exactly one bin to those of the word, clearing removes exactly one |
| AllocSearch.BestFit | depends/LuaJIT-2.0.5/src/lj_alloc.c:1050-1093 | the search of tmalloc_large finds a smallest chunk of at least the requested size over all treebins, and none only if there is none; the wrap-around of the unsigned remainder is modelled |
| AllocSearch.Smallest | depends/LuaJIT-2.0.5/src/lj_alloc.c:1112-1128 | the search of tmalloc_small finds a smallest chunk of all treebins |
| AllocSearch.TowardsRequest | depends/LuaJIT-2.0.5/src/lj_alloc.c:1057-1081 | the descent along the bits of the request keeps the best chunk so far and the deepest untaken right subtree, which together beat every chunk that was passed by |
| AllocSearch.AlongLeftmost | depends/LuaJIT-2.0.5/src/lj_alloc.c:1089-1096 | the walk along leftmost children meets a smallest chunk of a subtree |
| AllocBestFit.DescendStep | depends/LuaJIT-2.0.5/src/lj_alloc.c:1063-1081 | one step of the descent loses no better chunk |
| AllocBestFit.ChoiceBeatsLaterBins | depends/LuaJIT-2.0.5/src/lj_alloc.c:1084-1088 | a chunk found in the first bin is no larger than any in a later one |
| AllocTiles.TilesExactly | depends/LuaJIT-2.0.5/src/lj_alloc.c:1180-1382 | each byte of a segment, up to its trailer, belongs to exactly one chunk |
| AllocTiles.FreeBefore | depends/LuaJIT-2.0.5/src/lj_alloc.c:1271-1281 | when PINUSE is clear, the foot field leads to the free chunk right in front |
| AllocTiles.Retile | depends/LuaJIT-2.0.5/src/lj_alloc.c:574-592 | memory and chunks still agree, everywhere, after one stretch has been cut up differently |
| AllocMoves.FreeMerge | depends/LuaJIT-2.0.5/src/lj_alloc.c:1271-1318 | freeing and merging with both neighbours keeps boundary tags and tiles in agreement, with no two free chunks adjacent |
| AllocMoves.UseFront | depends/LuaJIT-2.0.5/src/lj_alloc.c:1100-1106 | splitting a free chunk keeps them in agreement |
| AllocMoves.TakeFromTop | depends/LuaJIT-2.0.5/src/lj_alloc.c:1359-1369 | growing a chunk into top keeps them in agreement |
| AllocSegments.AddSegment | depends/LuaJIT-2.0.5/src/lj_alloc.c:853-896 | pushing a segment record into the old top and fencing it off keeps tags, tiles and segments in agreement |
| AllocSegments.LowerBase | depends/LuaJIT-2.0.5/src/lj_alloc.c:938-944 | a segment that grows at its start stays exactly tiled |
| AllocSegments.DropSegment | depends/LuaJIT-2.0.5/src/lj_alloc.c:974-990 | a segment can go that is a single free chunk |
| AllocBooks.GiveBack | depends/LuaJIT-2.0.5/src/lj_alloc.c:1263-1332 | the freed block is the only one that is gone, and every free chunk is accounted for: top, the designated victim, or in a bin |
| AllocState.MState.constructor | depends/LuaJIT-2.0.5/src/lj_alloc.c:1144-1166 | a new allocator is in order and has no blocks |
| AllocState.MState.InsertChunk | depends/LuaJIT-2.0.5/src/lj_alloc.c:731-734 | a free chunk that is in no bin gets into the bin of its size |
| AllocState.MState.UnlinkChunk | depends/LuaJIT-2.0.5/src/lj_alloc.c:736-739 | a binned chunk leaves its bin |
| AllocState.MState.ReplaceDv | depends/LuaJIT-2.0.5/src/lj_alloc.c:634-641 | the old designated victim is binned, the new one takes its place |
| AllocState.MState.UseTop | depends/LuaJIT-2.0.5/src/lj_alloc.c:1249-1256 | a block from top is new, large enough, and the only change to the client's blocks |
| AllocSystem.DirectAlloc | depends/LuaJIT-2.0.5/src/lj_alloc.c:744-761 | a directly mapped block lies in memory that nothing else uses; sizes that wrap around are refused |
| AllocSystem.Append | depends/LuaJIT-2.0.5/src/lj_alloc.c:923-926 | new memory behind the first segment joins top |
| AllocSystem.PrependAlloc | depends/LuaJIT-2.0.5/src/lj_alloc.c:820-850 | new memory in front of a segment: the block is at its start and the rest merges with what was first, be it top, the designated victim, free or in use |
| AllocSystem.AddSegment | depends/LuaJIT-2.0.5/src/lj_alloc.c:853-896 | memory that touches no segment becomes the first one; the client's blocks are untouched |
| AllocMalloc.AllocSys | depends/LuaJIT-2.0.5/src/lj_alloc.c:901-958 | a request to the system gives a new block of at least the size and changes no other; or nothing, and then the system has refused every request that could be made |
| AllocMalloc.AsksNothing | depends/LuaJIT-2.0.5/src/lj_alloc.c:744-747 | no request is made exactly if the size wraps around when it is rounded up to pages |
| AllocMalloc.TmallocLarge | depends/LuaJIT-2.0.5/src/lj_alloc.c:1048-1109 | exact best fit: a smallest chunk that fits, unless the designated victim fits at least as well; NULL exactly if there is none or the victim is no worse |
| AllocMalloc.TmallocSmall | depends/LuaJIT-2.0.5/src/lj_alloc.c:1112-1140 | a small request is cut from a smallest chunk of all treebins |
| AllocMalloc.SmallFit | depends/LuaJIT-2.0.5/src/lj_alloc.c:1190-1199 | a request that a smallbin fits without a remainder, or with one too small to keep |
| AllocMalloc.SmallNext | depends/LuaJIT-2.0.5/src/lj_alloc.c:1200-1220 | a request from the next non-empty smallbin; the remainder becomes the designated victim |
| AllocMalloc.FromDv | depends/LuaJIT-2.0.5/src/lj_alloc.c:1235-1248 | a request from the designated victim, split or used up |
| AllocMalloc.Malloc | depends/LuaJIT-2.0.5/src/lj_alloc.c:1180-1261 | every request gives a new block of at least its size, disjoint from all others which keep theirs, or NULL; NULL only if no free chunk is large enough and the system has just refused every request for memory that does not wrap around. Which memory serves it is fixed by what was free: a smallest fitting chunk of a bin if one goes first, else the designated victim, else top, else new memory; and so is what becomes of the rest |
| AllocServe.TopIsLast | depends/LuaJIT-2.0.5/src/lj_alloc.c:1180-1261 | a block is cut from top, or from new memory, only if every other free chunk, in a bin or the designated victim, is too small |
| AllocServe.ExactFirst | depends/LuaJIT-2.0.5/src/lj_alloc.c:1187-1199 | if a bin holds a chunk of the size of a small request or eight bytes more, one of these serves it as a whole, of the smaller of these sizes that is there, and the designated victim stays as it is |
| AllocServe.ElseVictim | depends/LuaJIT-2.0.5/src/lj_alloc.c:1200-1248 | if no such chunk is there, the designated victim serves a small request that it fits, and otherwise a smallest chunk of the bins that fits |
| AllocServe.LargeBest | depends/LuaJIT-2.0.5/src/lj_alloc.c:1048-1109 | a large request is served by the best fit among the bins and the designated victim |
| AllocFree.Free | depends/LuaJIT-2.0.5/src/lj_alloc.c:1263-1332 | exactly the freed block goes, whatever merging, trimming and unmapping that brings, and every word stored in another block is still there; the chunk merges with its free neighbours into one free chunk, which is binned, top or the designated victim as the neighbours were, and unless it is time to give memory back nothing else changes |
| AllocFree.AllocTrim | depends/LuaJIT-2.0.5/src/lj_alloc.c:1005-1043 | trimming changes no block; top shrinks by exactly the whole pages it does not need, unless the segment holds a segment record or the system refuses |
| AllocFree.ReleaseUnusedSegments | depends/LuaJIT-2.0.5/src/lj_alloc.c:963-1003 | changes no block, and afterwards a segment without a block, other than the first, is still there only if the system has refused to take it back |
| AllocRealloc.ReallocInPlace | depends/LuaJIT-2.0.5/src/lj_alloc.c:1344-1369 | a block that is shrunk, grown into top or remapped stays the client's and is large enough: shrunk to the request if the rest makes a chunk, kept if not, grown to the request if it lies in front of top |
| AllocRealloc.DirectResize | depends/LuaJIT-2.0.5/src/lj_alloc.c:763-788 | a direct mapping is kept if it is neither too small nor far too large, remapped to the pages of the request, or refused |
| AllocRealloc.Realloc | depends/LuaJIT-2.0.5/src/lj_alloc.c:1334-1382 | the block moves or stays, with at least the new size, all others keep theirs, and the words stored in the block are where it is now, as far as they fit; it moves only if it cannot be resized where it is, and then to memory that would serve a new request; on failure nothing changes, and that happens only if the size is too large, or the block cannot be resized where it is, no free chunk is large enough and the system has refused every request |
| AllocRealloc.CopyBlock | depends/LuaJIT-2.0.5/src/lj_alloc.c:1374-1376 | the copy into a new block takes every whole word, and disturbs no other block |
| AllocRealloc.AllocF | depends/LuaJIT-2.0.5/src/lj_alloc.c:1384-1394 | allocate, free or resize, by the arguments; a resize gives NULL only in the cases of Realloc |
| AllocRun.Run | depends/LuaJIT-2.0.5/src/lj_alloc.c:1384-1394 | after any sequence of calls and of reads and writes of the client, with any answers of the system, the allocator is in order and holds exactly the blocks the client owns, each with the bytes asked for and apart from the others; every read gives what was last written there, also after the block has been moved |
| AllocStore.BlocksApart | depends/LuaJIT-2.0.5/src/lj_alloc.c:1180-1382 | blocks never overlap, in segments or mapped directly |
| AllocState.StillThere | depends/LuaJIT-2.0.5/src/lj_alloc.c:574-592 | a change of memory at heads of chunks, behind a free chunk and in the trailer of top leaves every word that a client has stored as it was |
| AllocSystem.AddSpares | depends/LuaJIT-2.0.5/src/lj_alloc.c:853-896 | so does the change that add_segment makes |
| AllocStore.ClientCannotHarm | depends/LuaJIT-2.0.5/src/lj_alloc.c:1263-1332 | whatever a client writes into its own block, mapped directly or not, the whole invariant of the allocator survives, although a block covers the foot field of the next chunk |
| BitReversal.BitReverse16Spec | include/util/stb_image.h:3497-3504 | the four mask-and-shift steps reverse sixteen bits |
| BitReversal.BitReverseIs | include/util/stb_image.h:3506-3512 | reversing sixteen bits and shifting gives the low bits of a number in reverse; both the table and the slow path use it |
| HuffmanCode.KraftIffFits | include/util/stb_image.h:3525-3535 | the lengths satisfy the Kraft inequality if and only if no length runs out of codes, which is what the code checks |
| HuffmanCode.PrefixFree | include/util/stb_image.h:3514-3559 | at most one codeword of section 3.2.2 of RFC 1951 begins any bit string |
| HuffmanCode.CanonicalRules | include/util/stb_image.h:3514-3559 | the two rules of section 3.2.2 of RFC 1951: codewords of one length are consecutive numbers in the order of their symbols, and shorter codewords come before longer ones |
| HuffmanTable.Huffman.Build | include/util/stb_image.h:3514-3559 | a list of code lengths is accepted if and only if it satisfies the Kraft inequality, complete or not, and then all tables are those of the canonical code |
| HuffmanTable.FastStep | include/util/stb_image.h:3548-3554 | entering a symbol writes exactly the fast-table entries whose low bits are its reversed codeword, none of which was filled before |
| HuffmanTable.SlotsDiffer | include/util/stb_image.h:3544-3547 | no two symbols get the same slot of the symbol tables |
| InflateBits.FastHit | include/util/stb_image.h:3628-3634 | a fast-table entry is the next symbol of the canonical code |
| InflateBits.FastMiss | include/util/stb_image.h:3628-3636 | an empty entry means a longer code or none |
| InflateBits.SlowHit | include/util/stb_image.h:3606-3622 | the first length whose limit exceeds the next 16 bits gives the next symbol |
| InflateBits.SlowMiss | include/util/stb_image.h:3612-3615 | beyond the last limit no codeword begins the stream |
| Inflate.ZBuf.FillBits | include/util/stb_image.h:3587-3594 | the bit buffer grows and still represents the unread stream, zeros after its end |
| Inflate.ZBuf.Receive | include/util/stb_image.h:3596-3604 | the next n bits of the stream, lowest first |
| Inflate.ZBuf.Decode | include/util/stb_image.h:3624-3636 | the symbol whose codeword is next, with exactly its bits consumed; -1 if and only if no codeword is a prefix of the stream |
| Inflate.ZBuf.DecodeSlow | include/util/stb_image.h:3606-3622 | the same when the fast table has no entry |
| Inflate.ZBuf.Grow | include/util/stb_image.h:3638-3655 | growing the output keeps what was written; it doubles the buffer until the bytes fit, and fails exactly if the buffer may not grow or that is more than there is |
| Inflate.ZBuf.Copy | include/util/stb_image.h:3697-3708 | a match appends its LZ77 expansion, also when it overlaps itself and when the distance is one; a distance beyond the output is refused, exactly |
| Inflate.ZBuf.ParseHuffmanBlock | include/util/stb_image.h:3671-3711 | the output and the position after a block are those of the tokens of sections 3.2.3 to 3.2.5 of RFC 1951, errors included, up to the first reserved code if there is one; without room the output is that of the tokens before; the loop ends within the memory there is, unless it hangs |
| InflateRoundTrip.RoundTrip | include/util/stb_image.h:3671-3711 | literals and copies that a compressor has written by section 3.2.5 of RFC 1951, with any code that has the codewords and between any other bits, are read as exactly those literals and copies, up to the bit behind the block |
| InflateRoundTrip.ReadsBlock | include/util/stb_image.h:3671-3711 | so they are wherever these bits are in the data |
| InflateRoundTrip.InflateWritten | include/util/stb_image.h:3671-3711 | on data with such a block the method itself gives the text of the items and stops behind the block, or runs out of room; it reports no error |
| InflateRoundTrip.StoredRoundTrip | include/util/stb_image.h:3759-3786 | bytes written as a stored block come back, and reading goes on behind them |
| InflateEnds.NeverEnds | include/util/stb_image.h:3671-3711 | the tokens go on for ever if and only if they run over the end of the data and zeros stand for a literal or an allowed match there |
| InflateEnds.ZerosForEver | include/util/stb_image.h:3671-3711 | a code and data for which they do: one literal of one bit, and no data |
| InflateEnds.HangsIff | include/util/stb_image.h:3671-3711 | the rounds of the code, reserved codes included, go on for ever with a bounded output if and only if behind the end of the data zeros stand for a match of no bytes |
| InflateEnds.ReservedHangs | include/util/stb_image.h:3671-3711 | codes for which they do: the reserved length code 286 and distance code 30, and no data |
| Inflate.ZBuf.ParseUncompressedBlock | include/util/stb_image.h:3759-3786 | no byte held in the bit buffer is lost: a stored block is copied from the next byte boundary, and is refused exactly if its length check or its length is wrong |
| InflateTokens.LengthTable | include/util/stb_image.h:3657-3663 | the tables of length codes are those of RFC 1951 |
| InflateTokens.DistTable | include/util/stb_image.h:3665-3669 | the tables of distance codes are those of RFC 1951 |
| InflateTokens.EveryLength | include/util/stb_image.h:3657-3663 | each length from 3 to 258 lies in the range of some length code |
| InflateTokens.EveryDistance | include/util/stb_image.h:3665-3669 | each distance from 1 to 32768 lies in the range of some distance code |
| InflateTokens.ExpandRepeats | include/util/stb_image.h:3706-3708 | a copy is the last dist bytes over and over, however it overlaps itself |
| InflateTokens.ExpandRun | include/util/stb_image.h:3703-3705 | a copy at distance one is a run of the last byte |
| InflateTokens.TokensEnough | include/util/stb_image.h:3671-3711 | once a block has ended, more rounds do not change its outcome |
| InflateTokens.TokensGrow | include/util/stb_image.h:3671-3711 | every token adds to the output: as many tokens as there are bytes fill any buffer |
| Gif.GifImage.Process | include/util/stb_image.h:5830-5908 | the symbols drawn are exactly those of the variable-length-code LZW over the concatenated sub-blocks, and it reports an error in exactly the cases where that has one |
| Gif.GifImage.OutCode | include/util/stb_image.h:5796-5828 | the recursion over prefix links draws the string of a code, first symbol first, and ends |
| Gif.GifImage.Plot | include/util/stb_image.h:5805-5827 | after each symbol the canvas shows exactly the symbols so far, each at its place in the row order; a surplus changes nothing |
| Gif.GifImage.AddEntry | include/util/stb_image.h:5886-5891 | the new table entry is string(old) + first(string(code)), also when code is the entry itself |
| Gif.GifImage.Fetch | include/util/stb_image.h:5858-5866 | one more byte of the payload, across the borders of sub-blocks |
| Gif.ParseColortable | include/util/stb_image.h:5743-5752 | entry i of the colour table is made of bytes 3i to 3i+2; only the transparent index gets alpha 0 |
| Gif.DrawnColour | include/util/stb_image.h:5743-5816 | a pixel drawn with entry i shows red, green and blue in the order of the file, and the transparent index leaves what was there |
| GifCompress.Decompresses | include/util/stb_image.h:5830-5908 | what a compressor of Appendix F of the GIF89a specification sends for a text is decoded to the text if and only if no string code comes when the decoder's table is full; otherwise decoding fails behind a prefix of it |
| GifCompress.PlainFails | include/util/stb_image.h:5880-5888 | an input that fails: a row of zeros, one code each; with eight bits it fails from 3840 symbols on, and not before |
| GifCompress.WidthsAgree | include/util/stb_image.h:5894-5897 | a compressor that widens its codes when its next entry does not fit, and the decoder's test on a table that is one entry behind, use the same width for every code |
| GifCompress.PackedRaster | include/util/stb_image.h:5857-5870 | a bit stream packed with the compressor's widths is read as the codes that were sent |
| GifCompress.RoundTrip | include/util/stb_image.h:5830-5908 | from text to codes to bytes and back, if and only if no code comes when the table is full |
| GifRows.EachRowOnce | include/util/stb_image.h:5818-5827 | interlaced or not, each row is drawn exactly once |
| GifRows.RowOrder | include/util/stb_image.h:5818-5827 | in the order of the four passes of appendix E of the GIF89a specification, from the top down in each pass; without interlacing from the top down |
| GifRows.SettledRows | include/util/stb_image.h:5822-5826 | passes without rows are skipped without losing one |
| PngFilter.ReconUndoes | include/util/stb_image.h:4048-4113 | reconstruction undoes each filter of section 6 of RFC 2083 |
| PngFilter.ReconAt | include/util/stb_image.h:4087-4096 | each byte is its filtered byte plus what the filter predicts from the reconstructed neighbours |
| PngFilter.PredictIs | include/util/stb_image.h:3991-4000 | the average is rounded down, and the Paeth predictor is the neighbour nearest to left + up - corner, a tie going to left and then to up |
| Png.PngRaw.FlatRow | include/util/stb_image.h:4045-4098 | a row without alpha is reconstructed from the bytes the code takes for the row above, and nothing else is written |
| Png.PngRaw.AlphaRow | include/util/stb_image.h:4045-4113 | a row with an interleaved alpha: the colour bytes are the reconstruction, every alpha is 255 |
| PngImage.CreateRows | include/util/stb_image.h:4005-4125 | every row of the output holds what the rows before and its filter determine; it fails exactly for data of the wrong length or an unknown filter |
| PngImage.DecodesRows | include/util/stb_image.h:4030-4125 | decoding an encoded image gives its rows, for any choice of filters, wherever the row above is found where the code looks |
| PngImage.ExactlyWhen | include/util/stb_image.h:4030-4125 | the code decodes an image, whatever was in memory before, if and only if no row after the first uses a filter that looks above, or the packed row starts where the output row does; with eight bits it always does |
| PngImage.WrongRow | include/util/stb_image.h:4030-4042 | otherwise there is a memory content with which the image comes out wrong |
| PngUnpack.UnpackRow | include/util/stb_image.h:4144-4178 | unpacking 1, 2 or 4 bit samples in place never overwrites a packed byte before its last use: sample i of the row is the i-th one of its packed byte, high bits first, times the scale |
| PngUnpack.NotAhead | include/util/stb_image.h:4144-4178 | the place written is never behind the byte still to be read |
| PngUnpack.InsertAlpha | include/util/stb_image.h:4183-4187 | alpha bytes are inserted from the right without losing a sample |
| PngUnpack.ExpandRows | include/util/stb_image.h:4130-4198 | after the second pass every row shows its samples |
| PngDecode.CreateImage | include/util/stb_image.h:4005-4212 | both passes together: every row of the output shows its reconstructed bytes, with alpha or unpacked |
| PngDecode.DecodeEncoded | include/util/stb_image.h:4005-4212 | an image that was encoded with any filters comes back row by row in the output array, for eight bits always, below when no row needs a row above that is not found |
| PngUnpack.ScaleIsFull | include/util/stb_image.h:4002 | scaling maps the largest grey sample to 255 |
| JpegTable.Table.Build | include/util/stb_image.h:1521-1560 | the table is built if and only if the codewords fit into their lengths, and then sizes, limits, offsets and the fast table are those of Annex C of ITU-T T.81 |
| JpegHuffman.OneBegins | include/util/stb_image.h:1521-1560 | no codeword is a prefix of another |
| JpegHuffman.ByLength | include/util/stb_image.h:1636-1650 | the first length whose limit exceeds the next 16 bits gives the symbol |
| JpegHuffman.NextCodeword | include/util/stb_image.h:1533-1544 | codewords count up within a length and shift between lengths |
| JpegTable.FastStep | include/util/stb_image.h:1549-1558 | entering a symbol writes exactly the fast-table entries that begin with its codeword |
| JpegFastAc.BuildFastAc | include/util/stb_image.h:1564-1587 | an entry of the fast AC table is filled if and only if nine bits hold a whole code and its bits with a value from -128 to 127, and then packs run, value and length |
| JpegFastAc.FastIsSlow | include/util/stb_image.h:1742-1764 | an entry of the table gives the same run and the same value and leaves the same place in the stream as decoding the code and then extending its bits (sections F.2.2.1 and F.2.2.2 of ITU-T T.81) |
| JpegFastAc.CompleteIff | include/util/stb_image.h:1546-1560 | no stream makes the table overlook a symbol, if and only if it has fewer than 256 symbols or its last codeword has more than nine bits |
| JpegFastAc.Example | include/util/stb_image.h:1546-1560 | a table with 255 codewords of eight bits and one of nine overlooks the last symbol |
| JpegDecode.Bits.Grow | include/util/stb_image.h:1589-1606 | refilling keeps the place in the stream, removes stuffing and stops at a marker, behind which there are zeros |
| JpegDecode.Bits.HuffDecode | include/util/stb_image.h:1610-1657 | the symbol whose codeword comes next in the stream, with its bits gone, unless it is overlooked: then always the wrong number of bits; -1 only if no codeword comes or it is cut off by the end |
| JpegDecode.Bits.ExtendReceive | include/util/stb_image.h:1664-1677 | the rotation and the sign trick compute RECEIVE and EXTEND |
| JpegDecode.Bits.AcStep | include/util/stb_image.h:1742-1764 | one AC code, by either path and with any number of buffered bits, gives what the standard says and leaves the rest of the stream |
| JpegDecode.Bits.FastStep | include/util/stb_image.h:1744-1750 | the fast path gives what the codeword and the bits behind it stand for |
| JpegDecode.Bits.SlowStep | include/util/stb_image.h:1752-1764 | so does decoding the code and then receiving and extending its bits |
| JpegDecode.Bits.AcBlock | include/util/stb_image.h:1736-1767 | the coefficients of a block, and the places where they are stored, are those of the runs and values of the stream; with a table that overlooks a symbol, up to the first code that is overlooked, and nothing is promised behind it; before that, a failure means that the stream has a bad code or is near its end |
| JpegZigzag.ZigzagIs | include/util/stb_image.h:1703-1716 | the table is the walk along the antidiagonals of the block, up those with an even sum of row and column and down the others; it comes to each place once, and past the end it stays at the last |
| JpegRoundTrip.BlockRoundTrip | include/util/stb_image.h:1736-1767 | the coefficients that an encoder has written by section F.1.2.2 of ITU-T T.81, as run lengths and magnitudes, packed into bytes with stuffing, come back, dequantized, in their places of the block; the others keep what was there |
| JpegRoundTrip.DecodeWritten | include/util/stb_image.h:1736-1767 | on such a stream the method itself restores these coefficients and stops behind them; it fails only near the end of the data |
| JpegRoundTrip.StuffedPayload | include/util/stb_image.h:1589-1606 | stuffing is undone: the bytes written come back up to the marker |
| JpegFastAc.ExtendCategory | include/util/stb_image.h:1660-1677 | EXTEND gives each value of a magnitude category exactly once |
| Dasm.DasmState.Put | depends/LuaJIT-2.0.5/dynasm/dasm_x86.h:167-263 | a put appends its actions with upper-bound offsets and links its branches; it fails exactly for a local label used backwards that is undefined or still waited for |
| Dasm.RefusedBranch | depends/LuaJIT-2.0.5/dynasm/dasm_x86.h:214-237 | a list of actions whose branch back is refused although its label has been defined before, and is accepted without the forward branch in between |
| Dasm.DasmState.Collapse | depends/LuaJIT-2.0.5/dynasm/dasm_x86.h:241-243 | collapsing a chain visits each pending reference once and sets it to the definition |
| Dasm.DasmState.SetSection | depends/LuaJIT-2.0.5/dynasm/dasm_x86.h:252-253 | later puts go on at the end of the chosen section, and no section changes |
| DasmPut.AppendRel | depends/LuaJIT-2.0.5/dynasm/dasm_x86.h:214-237 | a branch joins the chain of its label or takes the position of the definition, and every other branch and label keeps its state |
| DasmPut.AppendLab | depends/LuaJIT-2.0.5/dynasm/dasm_x86.h:238-244 | a label gives its position to all branches that wait for it and to no other |
| DasmLabels.GoalSnoc | depends/LuaJIT-2.0.5/dynasm/dasm_x86.h:214-244 | what a branch refers to never changes once it is known: the latest definition before for backward locals, the next one for forward locals, the only one otherwise |
| Dasm.DasmState.Link | depends/LuaJIT-2.0.5/dynasm/dasm_x86.h:267-347 | with every label defined, each label cell gets the final offset of its label and the code size is the end of the last section; it fails exactly for an undefined PC label |
| DasmLink.ShortReaches | depends/LuaJIT-2.0.5/dynasm/dasm_x86.h:305-325 | each branch chosen for shrinking has a final displacement in [-128,127], forward or backward, across sections and shrinking alignments |
| DasmLayout.Distance | depends/LuaJIT-2.0.5/dynasm/dasm_x86.h:309-326 | later shrinking only ever brings places closer together, and never past the estimate of pass 2 |
| DasmLink.AddrOfExtend | depends/LuaJIT-2.0.5/dynasm/dasm_x86.h:305-325 | shrinking a branch does not move what is in front of it |
| DasmLayout.RoundUpFacts | depends/LuaJIT-2.0.5/dynasm/dasm_x86.h:332 | adjusting an alignment in place gives the next aligned offset |
| Dasm.DasmState.Encode | depends/LuaJIT-2.0.5/dynasm/dasm_x86.h:361-440 | the encoder emits exactly the code size of pass 2, never a phase error, and every action's bytes are where pass 2 put them; a shrunk branch is rewritten to its short form |
| DasmEncode.BranchLands | depends/LuaJIT-2.0.5/dynasm/dasm_x86.h:399-406 | a processor that reads the emitted displacement of a branch goes on at the emitted offset of its label |
| DasmJump.JumpKept | depends/LuaJIT-2.0.5/dynasm/dasm_x86.h:305-406 | what a processor reads at a branch, long or shrunk, is the jump that was put: unconditional or on the same condition, leading to the emitted offset of its label |
| DasmEncode.EncodeShort | depends/LuaJIT-2.0.5/dynasm/dasm_x86.h:403-405 | shrinking rewrites the opcode bytes of this branch only |
| DasmEncode.SignedRound | depends/LuaJIT-2.0.5/dynasm/dasm_x86.h:349-358 | a number written in two's complement, low byte first, reads back |
| Dasm.DasmState.GetPcLabel | depends/LuaJIT-2.0.5/dynasm/dasm_x86.h:443-452 | the emitted offset of the latest definition of a PC label, -2 if there is none |
| BcWriter.Writer.Write | depends/LuaJIT-2.0.5/src/lj_bcwrite.c:379-396 | if no answer of the callback was an error, it has been given exactly the dump, and a reader of the grammar recovers prototypes, name and flags; otherwise it has been given a prefix |
| BcWriter.Writer.WriteProto | depends/LuaJIT-2.0.5/src/lj_bcwrite.c:272-333 | children first, those of later constants before those of earlier ones, then the size and the body |
| BcWriter.Writer.Finish | depends/LuaJIT-2.0.5/src/lj_bcwrite.c:324-332 | the size fills the bytes right in front of the body: the assertion after it holds |
| BcWriter.Writer.Ktab | depends/LuaJIT-2.0.5/src/lj_bcwrite.c:112-148 | trailing nils of the array part and unused hash nodes are left out, the other nodes are written last to first |
| BcWriter.Writer.Kgc | depends/LuaJIT-2.0.5/src/lj_bcwrite.c:151-203 | type and data of an object constant; the space asked for is enough |
| BcWriter.Writer.Knum | depends/LuaJIT-2.0.5/src/lj_bcwrite.c:206-239 | an integer or a number as 33 bits of ULEB128 and a high word |
| BcBuffer.PatchIsExact | depends/LuaJIT-2.0.5/src/lj_bcwrite.c:222-235 | patching the last byte of a 32 bit ULEB128 number gives that of the 33 bit number |
| BcBuffer.Buffer.Uleb128 | depends/LuaJIT-2.0.5/src/lj_bcwrite.c:67-75 | appends the ULEB128 form and nothing else |
| BcBuffer.Buffer.Need | depends/LuaJIT-2.0.5/src/lj_bcwrite.c:37-49 | there is room afterwards, and what was written is still there |
| BcFormat.UlebFormula | depends/LuaJIT-2.0.5/src/lj_bcwrite.c:326-330 | (fls(n)+8)*9>>6 is the length of n in ULEB128 for every n from 1 to 2^32-1 |
| BcRoundTrip.ReadsDump | depends/LuaJIT-2.0.5/src/lj_bcdump.h:15-28 | reading a dump along the grammar gives back the prototype tree, less the debug information if stripped, the chunk name and the flag |
| BcRoundTrip.ReadsProto | depends/LuaJIT-2.0.5/src/lj_bcread.c:329-420 | reading a prototype behind its children replaces them on the stack by the prototype |
| BcRoundTrip.ReadsKgcs | depends/LuaJIT-2.0.5/src/lj_bcread.c:244-280 | each child constant finds its own prototype on top of the stack |
| BcRoundTrip.ReadsKnum | depends/LuaJIT-2.0.5/src/lj_bcread.c:283-297 | the lowest of the 33 bits tells integers from numbers |
| BcRoundTrip.ReadsUleb | depends/LuaJIT-2.0.5/src/lj_bcread.c:136-151 | reading undoes ULEB128, whatever follows |
| BcRoundTrip.CanonKeeps | depends/LuaJIT-2.0.5/src/lj_bcread.c:220-241 | a template table holds the same values for the same keys after it has been written and read |
| LuaMatch.MatchState.Match | depends/LuaJIT-2.0.5/src/lib_string.c:368-451 | the outcome is the first match in the order of alternatives, with its captures, or the error the pattern has; on failure level, depth and captures are as before; too complex only with 200 nested items |
| LuaMatch.MatchState.MaxExpand | depends/LuaJIT-2.0.5/src/lib_string.c:302-315 | as many repetitions as let the rest match, from the longest run down |
| LuaMatch.MatchState.MinExpand | depends/LuaJIT-2.0.5/src/lib_string.c:317-329 | as few as let the rest match |
| LuaMatch.MatchState.StartCapture | depends/LuaJIT-2.0.5/src/lib_string.c:331-343 | a capture that leads to no match is undone |
| LuaMatch.MatchState.EndCapture | depends/LuaJIT-2.0.5/src/lib_string.c:345-354 | closing the last open capture is undone if it leads to no match |
| LuaCaptures.FirstRun | depends/LuaJIT-2.0.5/src/lib_string.c:281-451 | for every well-formed pattern, with captures and back references: what is found is the first run of the pattern in the order of alternatives, with the captures of that run; nothing is found exactly if there is no run; there is no error |
| LuaCaptures.CaptureIs | depends/LuaJIT-2.0.5/src/lib_string.c:331-354 | capture number n is the text between the places where the n-th opening parenthesis and the closing one that encloses it were met: captures are numbered by their opening parentheses |
| LuaCaptures.ClosesIts | depends/LuaJIT-2.0.5/src/lib_string.c:196-203 | a closing parenthesis finishes the capture of the opening one that it encloses with, everything in between being balanced |
| LuaCaptures.FindsFirstRun | depends/LuaJIT-2.0.5/src/lib_string.c:536-558 | a search finds the first run from the leftmost place that has one |
| LuaSyntax.ParseShow | depends/LuaJIT-2.0.5/src/lib_string.c:205-451 | items written in the syntax of the Lua manual are read back as these items |
| LuaClass.ClassesPart | depends/LuaJIT-2.0.5/src/lib_string.c:226-244 | the classes fit together: each character of ASCII is a control character, the blank, a letter, a digit or punctuation, and only one of these |
| LuaClass.UpperLower | depends/LuaJIT-2.0.5/src/lib_string.c:226-244 | an upper case letter is 32 below its lower case one, and the classes of the two cases match each other so |
| LuaMatch.MatchState.MatchBracketClass | depends/LuaJIT-2.0.5/src/lib_string.c:246-267 | a character is accepted if and only if some item of the set accepts it, or none if the set is negated |
| LuaMatch.MatchState.ClassEnd | depends/LuaJIT-2.0.5/src/lib_string.c:205-224 | where a pattern item ends, or that it does not |
| LuaClass.ScansAgree | depends/LuaJIT-2.0.5/src/lib_string.c:211-267 | the scan for the end of a set and the scan of its items end at the same bracket, unless one or more % stand right before it and the first of them is the upper bound of a range; exactly then the item scan goes one past it, with the bracket as its last escape |
| LuaClass.EscapedBracket | depends/LuaJIT-2.0.5/src/lib_string.c:211-267 | a set for which they disagree, so that it accepts its own closing bracket |
| LuaMatch.MatchState.MatchBalance | depends/LuaJIT-2.0.5/src/lib_string.c:281-300 | the first place where the brackets balance |
| LuaMatch.Find | depends/LuaJIT-2.0.5/src/lib_string.c:536-558 | the first place from which the pattern matches, or none; with an anchor only the first place |
| LuaMatch.FindsLanguage | depends/LuaJIT-2.0.5/src/lib_string.c:536-558 | for patterns without captures a search succeeds if and only if some text is in the language of the pattern, and finds the leftmost |
| LuaLanguage.BestIsExact | depends/LuaJIT-2.0.5/src/lib_string.c:281-451 | a match exists exactly if a text from that place on is in the language, and is one |
| LuaLanguage.StarIsGreedy | depends/LuaJIT-2.0.5/src/lib_string.c:302-315 | a star takes the most repetitions after which the rest can match |
| LuaLanguage.MinusIsLazy | depends/LuaJIT-2.0.5/src/lib_string.c:317-329 | a minus takes the fewest |
| LuaLanguage.BalanceIs | depends/LuaJIT-2.0.5/src/lib_string.c:281-300 | the scan finds the one end at which as many closing as opening characters have come for the first time |
| LuaSort.Sorter.AuxSort | depends/LuaJIT-2.0.5/src/lib_table.c:195-256 | for every comparator, also inconsistent or failing ones, the range keeps its elements and nothing outside is read or written; for a strict weak order it ends sorted and without an error; it recurses at most log2(n) deep |
| LuaSort.Sorter.Partition | depends/LuaJIT-2.0.5/src/lib_table.c:221-243 | the two scans part the range around the pivot; with an honest comparator they never run past the range |
| LuaSort.Sorter.Median | depends/LuaJIT-2.0.5/src/lib_table.c:199-220 | three elements are put in order |
| LuaSort.Sorter.Sort | depends/LuaJIT-2.0.5/src/lib_table.c:258-267 | the table keeps its elements, and is sorted if the comparator is a strict weak order |
| LuaSort.LeftDone | depends/LuaJIT-2.0.5/src/lib_table.c:246-255 | with one side of the pivot sorted only the other one is left to do |
| LuaSort.WasInPart | depends/LuaJIT-2.0.5/src/lib_table.c:173-177 | elements only move within the part that is being sorted |
| IntrusiveList.IntrusiveListBase.Reverse | depends/EASTL/source/intrusive_list.cpp:12-22 | a valid ring becomes the ring of the reversed sequence behind the same anchor |
| IntrusiveList.IntrusiveListBase.Validate | depends/EASTL/source/intrusive_list.cpp:26-67 | ends on every finite heap, and is true if and only if the next links from the anchor form a ring with symmetric links |
| IntrusiveList.PathDistinct | depends/EASTL/source/intrusive_list.cpp:31-62 | symmetric links cannot run into a loop behind the anchor: the loop check can never be what fails |
| IntrusiveList.PathOnRing | depends/EASTL/source/intrusive_list.cpp:40-66 | any walk from the anchor follows the ring, if there is one |

## Left out

- Rendering, windows, shaders, physics, sprites, logging and `include/world/Scene.h`: foreign calls and floating point, or not settled enough to specify.
- Allocator: sizes and addresses are those of a 64-bit build that keeps memory in the low 2 GB; the wrappers of mmap for each system (lines 75-308) are the oracle methods of `AllocState.MState`, which may refuse at any time.
- Allocator: mremap never moves a mapping, as its 64-bit flags demand; `lj_alloc_destroy` is not modelled.
- AllocRealloc.CopyBlock: does not model single bytes; the client's data are words, and of a size that is no multiple of eight the last bytes are not followed.
- AllocState.MState.constructor: models the state after the first segment has been mapped; the failure of that first mapping is left out.
- Allocator: the fd, bk, child and parent fields of free chunks are maps of the bin structures instead of words of the chunks, and the linked list of segment records is a sequence; that a block covers these fields of a chunk once it is in use is therefore not part of the model.
- Red-black tree: finding the insert position by key (`red_black_tree.h`) is not part of this model; `RBTreeGetBlackCount` and the node destructors add only easy members.
- Inflate: the reader of dynamic code lengths, the zlib header, stdio and the fixed tables; `Inflate.ZBuf.Grow` takes the amount of memory there is as a parameter.
- GIF: headers, disposal between frames and image descriptors of width zero; the canvas is two-dimensional instead of a byte offset per row and column.
- GifLzw.Next: models the widening test as the code has it, the table size being a multiple of two to the width; minimum code sizes below two have no counterpart in the specification; with a size of zero compressor and decoder do not agree on the widths, which is why `GifCompress.RoundTrip` starts at one.
- PNG: sixteen bits per component, interlacing as a whole, palettes, transparency and the chunk layer.
- JpegTable.Table.Build: requires at most 256 symbols; counts with a larger sum, which the marker reader passes on and which overrun the table of sizes, are not modelled.
- JPEG: restart intervals, the DC coefficient of a block, progressive scans, the inverse transform and colour conversion.
- DynASM: the action list as bytes; a put is a list of actions instead, and one loop runs over a section instead of one over puts and one over actions. Displacement and register patching (DISP, MARK, VREG, IMM_DB, IMM_WB), EXTERN, IMM_LG, IMM_PC, SETLABEL, the array of global addresses and `dasm_checkstep` are not modelled.
- Dasm.DasmState.Link: requires every local and global label to be defined; globals of other translation units are left out.
- Dasm.DasmState.Put: requires positions to fit the 24 bits of a section, which the code does not check, and each branch to follow its opcode byte, which is what its preprocessor writes.
- BcWriter.Writer.Write: does not model the protected call around it, sizes beyond 32 bits, unpatching of traced bytecode or narrowing of numbers (the dual-number variant is modelled), nor byte order other than little-endian.
- BcReader: reads along the grammar as a function; buffering and refilling of input, and dumps of the other byte order, are left out.
- LuaMatch.Find: does not model the plain search for patterns without special characters, nor gmatch and gsub, which call the same matcher.
- LuaCaptures.FirstRun: patterns that are not well-formed (unbalanced parentheses, a back reference to a capture that is not finished, more than 32 captures) are errors only if the search comes to the place in question; `LuaMatch.MatchState.Match` and the parser say when.
- LuaSyntax.ParseShow: sets are written with an escape for each of the characters ^ ] % -, although the code also reads some of them unescaped.
- LuaSort.Sorter.Sort: comparators that change the table while it is being sorted are not modelled; the comparator is a function or an oracle that may answer anything and may raise an error.
- IntrusiveList.IntrusiveListBase.Validate: requires the nodes reached by next links to be a finite set, which every heap is, and no null links.
- EASTL's string, hash table and allocator files, and the remaining library files of LuaJIT: wrappers around parts that are not shown, or lighter facts.
