# Verified models of FBReader's core

Three parts of FBReader are modelled here, and what they promise is proved for all inputs and all runs.

**Compressed CHM sections.** Four layers: a 32-bit shift register over 16-bit words (`BitStream.dfy`), canonical Huffman
tables (`Huffman.dfy`), the LZX decoder with its delta-coded trees and remembered offsets (`CodeLengths.dfy`,
`Offsets.dfy`, `Lzx.dfy`, `LzxDecompressor.dfy`), and the stream that reads any part of a section (`ChmInputStream.dfy`).
Each object is a class whose methods are proved against functions on bit and byte sequences. On these functions rest the
main results: decompressing any encoding of a token list gives its LZ77 expansion (`LzxIntervals.dfy`, and for frames laid
down bit by bit `LzxLiterals.dfy`), a reset makes all earlier use irrelevant (`LzxReset.dfy`), the range checks of the
decoder never fire (`LzxInvariants.dfy`), and reading a part equals cutting it out of the whole (`ChmRandomAccess.dfy`,
`ChmCompressed.dfy`); any content that does not end with a full frame can be stored, and what is stored is read back from
any place (`ChmLayout.dfy`).

**Tags, books and the views that show them.** Interned tags and the order the comparator gives them (`Tags.dfy`,
`TagForest.dfy`), the queries that are right only because of that order (`TagQueries.dfy`), renaming and cloning
(`BookTags.dfy`), the Tags table (`TagTable.dfy`), the order of books and their grouping by series (`BookOrder.dfy`,
`SeriesGroups.dfy`), the library's maps (`LibraryMaps.dfy`), and the in-place updates of the author view and the tag view
(`AuthorSubtree.dfy`, `AuthorView.dfy`, `TagView.dfy`, `TagViewInput.dfy`).

**Three state machines.** The style sheet parser (`StyleSheet.dfy`, `StyleSheetText.dfy`, `StyleSheetRules.dfy`), undo and
redo of page moves (`PageMoves.dfy`), and the reader of CHM tables of contents (`TocReader.dfy`, `TocContents.dfy`,
`TocTrees.dfy`, `TocOutline.dfy`).

Input, clocks and the data base appear as parameters. Where the code does not do what one might expect, the model follows
the code, except for what a stream delivers after a frame that cannot be decoded and the other limits listed under "Left
out". In each of these places a lemma says exactly when the code does what is expected, and another gives an input where
it does not:

- sections whose size is a multiple of the frame size: `ChmSection.ContentSize`, `ChmRandomAccess.DeliveredInFull` and
  `ChmLayouts.StorableExactly`; `ChmSection.FullLastFrameIsLost`, `ChmRandomAccess.FullLastFrameIsNotDelivered`;
- backward seeks: `ChmRandomAccess.SeekArrivesExactly`; `ChmRandomAccess.BackwardSeekMisses`;
- bytes older than a reset: `LzxReset.OldContentsMatterExactlyBeyondReach`; `LzxReset.StaleByteShows`;
- full names: `FullNames.FullNameRoundTrip`, `TagForests.TagForest.ThereAndBack`; `FullNames.SlashSplitsName`;
- renaming there and back: `BookTags.Book.RenameThereAndBack`; `BookTags.NewNameIsCarriedAway`;
- stale subtrees accepted: `AuthorSubtrees.AcceptedIsRightExactly`; `AuthorSubtrees.StaleGroupingAccepted`;
- fresh subtrees rejected: `AuthorSubtrees.FreshPassesExactly`; `AuthorSubtrees.FreshSubtreeRejected`;
- comments in style sheets: `StyleSheetTexts.CommentIsIgnoredExactly`; `StyleSheetTexts.SemicolonInComment`;
- selectors of several words: `StyleSheetTexts.SelectorIsTakenExactly`; `StyleSheetTexts.LeadingClassIsLost`;
- a final empty chunk: `StyleSheets.FinalChunkExactly`; `StyleSheets.LastWordIsLeftOver`;
- series numbers far apart: `BookOrder.MachineLessExactly`; `BookOrder.MachineLessCycles`;
- tags known by name before their table is loaded: `TagTables.LoadedExactly`; `TagTables.NameHidesRow`;
- undo before the text has been laid out: `PageMoves.UndoIndexExactly`; `PageMoves.UndoNeedNotFit`;
- lists below blank entries of a table of contents: `TocTrees.ParentsAreRightExactly`, `TocOutlines.TreeIsRightExactly`;
  `TocOutlines.BlankParentMisplaces`.

`dafny verify dfyconfig.toml` checks the whole project.

## Model

| member | source | states |
|---|---|---|
| `BitStreams.BitStream.SetData` | fbreader/src/formats/chm/BitStream.h:59-64 | a stream given data has exactly the bits of its 16-bit words left to read, low byte first in the data, high bit first in the word; a trailing odd byte is never read |
| `BitStreams.LoadWord` | fbreader/src/formats/chm/BitStream.h:72-79 | or-ing the next word into the buffer behind the bits in use appends its 16 bits to what is held, and the bits below stay zero |
| `BitStreams.BitStream.Ensure` | fbreader/src/formats/chm/BitStream.h:72-79 | loading words never changes what is left to read; it succeeds exactly when that many bits are left, and otherwise fewer than two bytes remain unloaded |
| `BitStreams.BitStream.Peek` | fbreader/src/formats/chm/BitStream.h:81-84 | the value of the next bits, padded with zeros when the data runs out; nothing is consumed |
| `BitStreams.BitStream.Remove` | fbreader/src/formats/chm/BitStream.h:86-91 | drops exactly that many bits when they are there, and nothing otherwise |
| `BitStreams.BitStream.Get` | fbreader/src/formats/chm/BitStream.h:93-105 | any request up to 32 bits, also the split ones above 16, against the same bit-sequence function |
| `BitReading.GetAvailable` | fbreader/src/formats/chm/BitStream.h:93-105 | when enough bits are left, `get` returns the number they denote and drops exactly them |
| `BitReading.GetPrinted` | fbreader/src/formats/chm/BitStream.h:93-105 | a number written with n bits is read back by `get(n)`, whatever follows it |
| `BitReading.GetBound` | fbreader/src/formats/chm/BitStream.h:93-105 | the value always fits into the number of bits asked for, also when the input has run out |
| `BitReading.PackedBits` | fbreader/src/formats/chm/BitStream.h:72-79 | packing a bit sequence into bytes loses nothing: the reader sees the bits again, followed by fewer than 16 zeros |
| `HuffmanDecoders.HuffmanDecoder.BuildTable` | fbreader/src/formats/chm/HuffmanDecoder.cpp:31-60 | succeeds exactly when no length is above 16 and the Kraft sum fits; then the longest length and the finished table are in place |
| `HuffmanDecoders.HuffmanDecoder.AppendRow` | fbreader/src/formats/chm/HuffmanDecoder.cpp:44-53 | the inner loop appends the row of one code length and stops exactly when the table overflows |
| `HuffmanDecoders.HuffmanDecoder.Reset` | fbreader/src/formats/chm/HuffmanDecoder.cpp:27-29 | forgets the code lengths and nothing else |
| `HuffmanDecoders.HuffmanDecoder.GetSymbol` | fbreader/src/formats/chm/HuffmanDecoder.h:47-51 | the symbol and what is left are those of the bit-sequence decoder |
| `HuffmanCodes.RowsAreKraft` | fbreader/src/formats/chm/HuffmanDecoder.cpp:40-53 | filling the table length by length takes exactly the Kraft sum of entries, so the overflow test is the Kraft inequality |
| `HuffmanCodes.MaxLengthExactly` | fbreader/src/formats/chm/HuffmanDecoder.cpp:31-39 | the number of bits of the table index is the longest code length |
| `HuffmanCodes.UsableIsShort` | fbreader/src/formats/chm/HuffmanDecoder.cpp:31-39 | no table is built for a length above 16 |
| `HuffmanCodes.TableShape` | fbreader/src/formats/chm/HuffmanDecoder.cpp:40-59 | a built table has exactly 2^max entries, and each names a symbol |
| `HuffmanCodes.SymbolInterval` | fbreader/src/formats/chm/HuffmanDecoder.cpp:44-53 | each symbol with a code owns the aligned interval of all 2^(max - length) completions of its canonical code |
| `HuffmanCodes.EntryLiesInInterval` | fbreader/src/formats/chm/HuffmanDecoder.cpp:44-59 | conversely every entry up to the Kraft sum lies in the interval of the symbol it names, and the entries behind it name symbol 0 |
| `HuffmanCodes.CodeValueFits` | fbreader/src/formats/chm/HuffmanDecoder.cpp:44-53 | under the Kraft inequality every canonical code fits into its length |
| `HuffmanCodes.PrefixFree` | fbreader/src/formats/chm/HuffmanDecoder.cpp:31-60 | no code is a prefix of another symbol's code |
| `HuffmanCodes.DecodeCode` | fbreader/src/formats/chm/HuffmanDecoder.h:47-51 | decoding bits that start with a symbol's code gives that symbol and consumes exactly its length, also at the very end of the input where the peek is padded |
| `CodeLengthReader.Fill` | fbreader/src/formats/chm/LZXDecompressor.cpp:55-64 | a run is written exactly when it fits into the vector; nothing else changes, and a refused run changes nothing |
| `CodeLengthReader.ReadItem` | fbreader/src/formats/chm/LZXDecompressor.cpp:83-101 | one round of the loop: every symbol of the pre-tree, with the wrap around 17, against the specification of one item |
| `CodeLengthReader.ReadPreTree` | fbreader/src/formats/chm/LZXDecompressor.cpp:67-74 | the twenty 4-bit lengths of the pre-tree, and whether they make a usable tree |
| `CodeLengthReader.ReadLengthsInto` | fbreader/src/formats/chm/LZXDecompressor.cpp:66-105 | the whole call: accepted, refused, or a run past the wanted range, exactly as the specification says; the bits left are the specification's |
| `CodeLengths.ReadPlanBits` | fbreader/src/formats/chm/LZXDecompressor.cpp:66-105 | whatever mixture of differences, zero runs and repeat runs an encoder chooses for the new lengths, reading them back gives the new lengths in the wanted range, leaves all other lengths alone and leaves the bits that follow |
| `CodeLengths.EveryVectorHasAPlan` | fbreader/src/formats/chm/LZXDecompressor.cpp:66-105 | for any old and any new lengths up to 16 there is such a choice |
| `CodeLengths.ReadFirstLengths` | fbreader/src/formats/chm/LZXDecompressor.cpp:66-105 | lengths sent for new entries of a vector, each as itself when 0 and as what is missing to 17 otherwise, come out as they are behind the old ones: new entries start from 0, and a pre-tree is twenty lengths of 4 bits |
| `CodeLengths.LongRunRefused` | fbreader/src/formats/chm/LZXDecompressor.cpp:55-92 | a run of zeros, printed with symbol 17 or 18 and its counter, is refused when it does not fit into the vector |
| `CodeLengths.DifferenceStaysSmall` | fbreader/src/formats/chm/LZXDecompressor.cpp:93-101 | a length up to 16 stays up to 16 exactly when the symbol is not more than 17 above it |
| `CodeLengths.DifferenceSymbol` | fbreader/src/formats/chm/LZXDecompressor.cpp:98-101 | for old and new lengths up to 16 there is a symbol up to 16 that turns the one into the other |
| `CodeLengths.ReadItemBits` | fbreader/src/formats/chm/LZXDecompressor.cpp:83-101 | one item is read back from its bits, whatever follows |
| `Offsets.SlotRange` | fbreader/src/formats/chm/LZXDecompressor.cpp:107-115 | the range of a slot in the position table ends where the next slot's range begins |
| `Offsets.SlotsCoverWindow` | fbreader/src/formats/chm/LZXDecompressor.cpp:24-32 | the slots of a window of size 2^w, for w in 15..21, end exactly at 2^w |
| `Offsets.SplitIsBijective` | fbreader/src/formats/chm/LZXDecompressor.cpp:161-177 | slot and footer bits determine the offset, and every slot and footer are those of exactly one offset |
| `Offsets.WindowSlots` | fbreader/src/formats/chm/LZXDecompressor.cpp:24-32 | an offset written out in full has a slot of the window exactly when it is at most the window size less three |
| `LzxDecompressors.LZXDecompressor.constructor` | fbreader/src/formats/chm/LZXDecompressor.cpp:34-36 | a new decompressor is in the state after a reset |
| `LzxDecompressors.LZXDecompressor.Reset` | fbreader/src/formats/chm/LZXDecompressor.cpp:38-53 | forgets block, trees and remembered offsets; the window keeps its bytes and the aligned tree its lengths |
| `LzxDecompressors.LZXDecompressor.DecodeFooter` | fbreader/src/formats/chm/LZXDecompressor.cpp:165-176 | the footer of an explicit offset, in verbatim and aligned blocks |
| `LzxDecompressors.LZXDecompressor.DecodeOffset` | fbreader/src/formats/chm/LZXDecompressor.cpp:143-182 | the four cases of the match offset and the rotation of the three remembered offsets |
| `LzxDecompressors.LZXDecompressor.CopyMatch` | fbreader/src/formats/chm/LZXDecompressor.cpp:184-196 | the byte-by-byte copy inside the window, with its wrap of the source and both refusals |
| `LzxDecompressors.LZXDecompressor.DecodeSymbolAt` | fbreader/src/formats/chm/LZXDecompressor.cpp:126-182 | one literal or match from the bits; a match longer than what may still be written is refused |
| `LzxDecompressors.LZXDecompressor.DecodeBytesAt` | fbreader/src/formats/chm/LZXDecompressor.cpp:126-199 | decodes exactly the number of bytes asked for, or fails, as the specification does |
| `LzxDecompressors.LZXDecompressor.ReadAllLengths` | fbreader/src/formats/chm/LZXDecompressor.cpp:246-250 | the main tree in two parts and the length tree are read before any table is built |
| `LzxDecompressors.LZXDecompressor.StartBlockNow` | fbreader/src/formats/chm/LZXDecompressor.cpp:215-258 | a block header: kind, 24-bit size, the trees of a verbatim or aligned block, and refusal of anything else |
| `LzxDecompressors.LZXDecompressor.DecodePartNow` | fbreader/src/formats/chm/LZXDecompressor.cpp:260-272 | a part of a block is decoded only if the window has room for it |
| `LzxDecompressors.LZXDecompressor.DecodeBlocksNow` | fbreader/src/formats/chm/LZXDecompressor.cpp:214-273 | the two loops over blocks and parts end on every input (bytes still to write, then bits left) and give what the specification gives |
| `LzxDecompressors.LZXDecompressor.LastBytes` | fbreader/src/formats/chm/LZXDecompressor.cpp:275-277 | the bytes just written, in front of the position |
| `LzxDecompressors.LZXDecompressor.DecompressFrame` | fbreader/src/formats/chm/LZXDecompressor.cpp:202-284 | one call of `decompress`: on success the new state and the last bytes of the window are those of the specification; on failure the committed state is unchanged |
| `Lzx.Decompress` | fbreader/src/formats/chm/LZXDecompressor.cpp:202-284 | success delivers exactly the number of bytes asked for and keeps the decoder well-formed |
| `Lzx.EmptyBlockConsumes` | fbreader/src/formats/chm/LZXDecompressor.cpp:215-258 | a block of size zero still consumes input, so reading blocks ends |
| `LzxEncoder.ReadTokenBits` | fbreader/src/formats/chm/LZXDecompressor.cpp:126-182 | one token sent with any tree that has the codes it needs is read back, whatever follows |
| `LzxEncoder.DecodeTokensBits` | fbreader/src/formats/chm/LZXDecompressor.cpp:117-200 | the tokens of a piece of a block decode to their LZ77 expansion, with overlapping copies and remembered offsets |
| `LzxRoundTrip.StartBlockOfHeader` | fbreader/src/formats/chm/LZXDecompressor.cpp:223-258 | a printed block header is read back, whatever trees the decoder held before |
| `LzxRoundTrip.FrameDecodes` | fbreader/src/formats/chm/LZXDecompressor.cpp:202-284 | one call on a packed frame appends exactly the frame's bytes to those written before |
| `LzxIntervals.RoundTrip` | fbreader/src/formats/chm/LZXDecompressor.cpp:202-284 | main result: after a reset, whatever the decompressor was used for before, decompressing any encoding of a token list into verbatim and aligned blocks, over any number of frames, gives the LZ77 expansion of all tokens |
| `LzxLiterals.PlainFrameDecodes` | fbreader/src/formats/chm/LZXDecompressor.cpp:202-284 | a frame laid down bit by bit with the numbers of the format (flag, kind 1 or 2, 24-bit size, eight 3-bit lengths for kind 2, 256 literals, 8 symbols a slot, 249 length symbols, pre-trees of twenty 4-bit lengths) decompresses to its bytes after a reset |
| `LzxLiterals.DecodePlainFrame` | fbreader/src/formats/chm/LZXDecompressor.cpp:202-284 | the same on the object, whatever it was used for before |
| `LzxLiterals.SomePlain` | fbreader/src/formats/chm/LZXDecompressor.cpp:202-284 | for any data there are trees for such a frame |
| `LzxEncodable.EveryTokenListIsEncodable` | fbreader/src/formats/chm/LZXDecompressor.cpp:117-200 | every token list that stays inside a window of size 2^w and reaches back at most 2^w - 3 has such an encoding |
| `LzxEncodable.LongerOffsetsHaveNoSymbol` | fbreader/src/formats/chm/LZXDecompressor.cpp:24-32 | conversely an offset beyond 2^w - 3 cannot be sent |
| `LzxInvariants.RangeChecksNeverFail` | fbreader/src/formats/chm/LZXDecompressor.cpp:184-194 | with offsets in range neither test of the source position ever refuses a match |
| `LzxInvariants.ResetIsInRange` | fbreader/src/formats/chm/LZXDecompressor.cpp:38-53 | a reset puts the remembered offsets into [1, 2^w - 3] |
| `LzxInvariants.EveryRunKeepsRange` | fbreader/src/formats/chm/LZXDecompressor.cpp:202-284 | from there, over any number of frames and for any input data, they stay in it |
| `LzxInvariants.RefusedForLength` | fbreader/src/formats/chm/LZXDecompressor.cpp:126-182 | with offsets in range the next symbol is refused exactly when it is a match longer than what may still be written |
| `LzxInvariants.LongestMatch` | fbreader/src/formats/chm/LZXDecompressor.cpp:126-142 | with 249 length symbols every match has 2 to 257 bytes, and the last symbol stands for 257 |
| `LzxInvariants.EveryRunIsAccepted` | fbreader/src/formats/chm/LZXDecompressor.cpp:117-284 | in no frame of any run, for any data and also in a frame that fails, is a symbol refused by a check of its slot or of the source position; only for its length |
| `LzxReset.ResetForgets` | fbreader/src/formats/chm/LZXDecompressor.cpp:38-53 | whatever two decompressors were used for, after a reset they give the same bytes, or fail alike, on every sequence of frames that stays inside its own output |
| `LzxReset.OldContentsMatterExactlyBeyondReach` | fbreader/src/formats/chm/LZXDecompressor.cpp:184-196 | a match writes the same bytes whatever the window held before exactly when it reaches only bytes written since the reset |
| `LzxReset.StaleByteShows` | fbreader/src/formats/chm/LZXDecompressor.cpp:38-53 | beyond that, changing the one old byte a match starts from changes the output |
| `ChmSection.CheckResetTable` | fbreader/src/formats/chm/CHMFile.cpp:400-408 | the entry loop accepts exactly the tables that start at 0 and ascend strictly |
| `ChmSection.ZerosBehindBase` | fbreader/src/formats/chm/CHMFile.cpp:119-122 | the bytes of a frame are those of the base stream from its table entry on; a base stream that ends early is read as if zeros followed |
| `ChmSection.ContentAtFrame` | fbreader/src/formats/chm/CHMFile.cpp:70-75 | frame i starts at byte 32768 i of the decompressed section |
| `ChmSection.ContentSize` | fbreader/src/formats/chm/CHMFile.cpp:116 | the decompressed section has its announced size exactly when that is not a multiple of 32768; otherwise the tail frame is taken to be empty |
| `ChmSection.FullLastFrameIsLost` | fbreader/src/formats/chm/CHMFile.cpp:116 | so a section that announces one full frame passes all checks, is well-formed whatever is stored, and comes out empty |
| `ChmSection.FrameDecodesAnywhere` | fbreader/src/formats/chm/CHMFile.cpp:106-142 | a frame decodes to its own content from any state a reader can be in, not only from the sequential one |
| `ChmInputStreams.CHMInputStream.constructor` | fbreader/src/formats/chm/CHMFile.cpp:70-75 | the start frame is the reset at or before the offset, and the bytes to skip make up the difference |
| `ChmInputStreams.CHMInputStream.Open` | fbreader/src/formats/chm/CHMFile.cpp:82-94 | an opened stream will deliver its range of the section, whether its decompressor is new or was used before |
| `ChmInputStreams.CHMInputStream.NextFrame` | fbreader/src/formats/chm/CHMFile.cpp:109-131 | decoding the next frame, after a reset if one is due, moves bytes from the frames still to come into the buffer and changes nothing about what is left |
| `ChmInputStreams.CHMInputStream.DoRead` | fbreader/src/formats/chm/CHMFile.cpp:106-142 | delivers the next bytes, as many as asked for or as there are, and leaves the rest |
| `ChmInputStreams.CHMInputStream.Read` | fbreader/src/formats/chm/CHMFile.cpp:96-104 | the first read skips up to the offset; every read delivers the next bytes, never beyond the stream's size |
| `ChmInputStreams.CHMInputStream.Seek` | fbreader/src/formats/chm/CHMFile.cpp:148-158 | a forward seek skips that many bytes; a backward seek always ends at the start |
| `ChmRandomAccess.RandomAccess` | fbreader/src/formats/chm/CHMFile.cpp:70-142 | a range inside the section's content is delivered as it stands in the sequentially decompressed section |
| `ChmRandomAccess.DeliveredInFull` | fbreader/src/formats/chm/CHMFile.cpp:116 | of the ranges the directory may name, exactly those are delivered in full that do not need the last frame of a section whose size is a multiple of 32768 |
| `ChmRandomAccess.FullLastFrameIsNotDelivered` | fbreader/src/formats/chm/CHMFile.cpp:70-142 | so nothing is delivered of a section that announces one full frame |
| `ChmRandomAccess.ReadEntry` | fbreader/src/formats/chm/CHMFile.cpp:96-142 | reading a part in pieces of any sizes gives, joined, its first bytes |
| `ChmRandomAccess.SeekArrivesExactly` | fbreader/src/formats/chm/CHMFile.cpp:148-158 | a seek inside an entry arrives at its target exactly when it goes forward or to the start |
| `ChmRandomAccess.BackwardSeekMisses` | fbreader/src/formats/chm/CHMFile.cpp:148-158 | a seek from the third byte of an entry back to the second ends at the first |
| `ChmRandomAccess.ReadThenSeek` | fbreader/src/formats/chm/CHMFile.cpp:96-158 | after any read and any absolute seek, what is left is determined by the two places alone; for a target inside the entry it is what stands behind the target exactly when the seek goes forward or to the start |
| `ChmCompressed.ReadBackAnywhere` | fbreader/src/formats/chm/CHMFile.cpp:70-142 | a section whose frames were packed from token lists, interval by interval, is well-formed; its content is the expansion of the tokens, and what a stream opened for a range of it has to deliver is that range of the expansion |
| `ChmLayouts.SectionIsOk` | fbreader/src/formats/chm/CHMFile.cpp:376-410 | frames laid out one after the other, full but for the last, have tables that pass all checks |
| `ChmLayouts.TableOkExactly` | fbreader/src/formats/chm/CHMFile.cpp:400-408 | the tables the reader accepts are exactly those of non-empty frames laid out one after the other |
| `ChmLayouts.FrameIsStored` | fbreader/src/formats/chm/CHMFile.cpp:106-131 | the reader finds each of them where the tables say, as it was packed and with its size |
| `ChmLayouts.StoredIsReadBack` | fbreader/src/formats/chm/CHMFile.cpp:70-142 | main result, an unconditional round trip: intervals of encoded frames, laid out as a section, pass the checks on the tables (the limit of 2048 frames is apart), and any range of the section is that range of the expansion of their tokens |
| `ChmLayouts.ReadStored` | fbreader/src/formats/chm/CHMFile.cpp:70-142 | the whole stack through the stream object: open a range of a section laid out from packed intervals, read it in pieces of any sizes, and they are, joined, the first bytes of that range of the expansion |
| `ChmLayouts.StorableExactly` | fbreader/src/formats/chm/CHMFile.cpp:70-142 | for any content whatsoever: there is a section of at most 2048 frames that announces its size and decompresses to it exactly when the size is not a multiple of 32768 and at most 2048 times that |
| `Tags.SamePathSameTag` | fbreader/src/library/Tag.cpp:32-48 | among interned tags a name path names at most one tag |
| `Tags.Tag.IsAncestorOf` | fbreader/src/library/Tag.cpp:123-131 | walking up by level decides exactly whether the path is a proper prefix |
| `Tags.Less` | fbreader/src/library/Comparators.cpp:71-104 | the comparator's walks end, and its answer is the lexicographic order on name paths, no tag first |
| `Order.StringsDiverge` | fbreader/src/library/Comparators.cpp:103 | two strings are ordered by the first symbol in which they differ |
| `Order.StringPrefixFirst` | fbreader/src/library/Comparators.cpp:103 | a proper prefix comes first |
| `Tags.SiblingsDiverge` | fbreader/src/library/Comparators.cpp:99-103 | so tags under one parent are ordered by the first symbol in which their names differ |
| `Tags.ComparatorIsStrictTotal` | fbreader/src/library/Comparators.cpp:71-104 | that order is a strict total order on every interned set of tags |
| `TagForests.TagForest.ValidIsInterned` | fbreader/src/library/Tag.cpp:32-48 | different names in every child list make all tags interned |
| `TagForests.TagForest.GetTag` | fbreader/src/library/Tag.cpp:32-48 | the tag of that name under that parent, made only if there is none; an empty name gives none; the id map changes only for a new tag with an id |
| `TagForests.TagForest.GetTagByFullName` | fbreader/src/library/Tag.cpp:50-61 | leads to the tag whose path the full name parses to |
| `TagForests.TagForest.CloneSubTag` | fbreader/src/library/Tag.cpp:68-89 | the tag that stands to the new parent as the given one stands to the old; none exactly when it does not lie below it |
| `TagForests.TagForest.SetTagId` | fbreader/src/library/Tag.cpp:133-139 | an id is set once and enters the id map; nothing else changes |
| `FullNames.ParseJoin` | fbreader/src/library/Tag.cpp:50-61 | reading a full name back gives the path it was made from when all components are non-empty, slash-free and stripped |
| `FullNames.ParseIsClean` | fbreader/src/library/Tag.cpp:50-61 | whatever is read, the components that come out are of that kind |
| `FullNames.FullNameRoundTrip` | fbreader/src/library/Tag.cpp:113-121 | `getTagByFullName(fullName(t))` leads back to the path exactly when every component is of that kind |
| `FullNames.SlashSplitsName` | fbreader/src/library/Tag.cpp:50-61 | so a name with a slash is read back as two |
| `Basics.IsSpaceExactly` | fbreader/src/library/Tag.cpp:52-58 | white space is tab, line feed, vertical tab, form feed, carriage return and blank |
| `FullNames.StripWhite` | fbreader/src/library/Tag.cpp:52-58 | stripping takes off the white space around a name and nothing else |
| `FullNames.ParseIgnoresWhite` | fbreader/src/library/Tag.cpp:50-61 | white space around a full name means nothing |
| `FullNames.ParseExactly` | fbreader/src/library/Tag.cpp:50-61 | whatever is written, with white space around any component: the path is the names behind the last empty component |
| `Tags.Tag.FullName` | fbreader/src/library/Tag.cpp:113-121 | the full name, computed once over the parents and kept, is the names of the path joined with slashes; a name that is kept is always the right one |
| `TagForests.TagForest.ThereAndBack` | fbreader/src/library/Tag.cpp:50-121 | the full name of a tag leads back to that very tag exactly when every name on its path is clean |
| `TagQueries.UpperBound` | fbreader/src/library/Library.cpp:374-379 | the first element after the tag in the order |
| `TagQueries.HasSubtags` | fbreader/src/library/Library.cpp:374-379 | looking at that one element decides exactly whether some listed tag is a proper descendant |
| `TagQueries.NewBranch` | fbreader/src/libraryActions/BooksUtil.cpp:78-84 | the inner loop: the ancestors not collected yet, from the top down |
| `TagQueries.CollectTags` | fbreader/src/libraryActions/BooksUtil.cpp:69-88 | the ancestor closure of the listed tags, each once, in the comparator's order (so parents before children), and "no tag" exactly when it is listed |
| `BookTags.Book.AddTag` | fbreader/src/library/Book.cpp:82-92 | appends the tag exactly when it is not null and not there yet |
| `BookTags.Book.RenameTag` | fbreader/src/library/Book.cpp:111-147 | with subtags: the paths become their images under replacing the prefix, and the answer says whether any tag lay at or below it; alone: one tag is replaced in its place, or dropped when the other is there |
| `BookTags.Book.ReplaceOne` | fbreader/src/library/Book.cpp:134-145 | alone, the tag is replaced in its place, or dropped when the other one is there already |
| `BookTags.Book.CloneTag` | fbreader/src/library/Book.cpp:149-179 | with subtags: the old paths and the images of those at or below the tag; alone: the other tag is added when the one is there and it is not |
| `BookTags.Book.RemoveTag` | fbreader/src/library/Book.cpp:98-109 | drops exactly the tag, or exactly the tag and its descendants, and keeps the order of the rest |
| `BookTags.Book.RenameThereAndBack` | fbreader/src/library/Book.cpp:111-147 | two calls that rename a tag with its subtags and back give the book exactly its old tags if and only if every tag it had at the new name or below was at the old name or below |
| `BookTags.NewNameIsCarriedAway` | fbreader/src/library/Book.cpp:111-147 | a tag that had the new name before has the old one afterwards |
| `TagTables.RowPathInjective` | fbreader/src/database/booksdb/BooksDB_BookTag.cpp:211-242 | when (parent, name) is a key and parents have smaller ids, different rows stand for different paths |
| `TagTables.RowAdded` | fbreader/src/database/booksdb/BooksDB_BookTag.cpp:232-239 | a new last row keeps the table in order and moves no path |
| `TagTables.TagStore.FindOrAdd` | fbreader/src/database/booksdb/BooksDB_BookTag.cpp:229-239 | the row of that name under that parent, made only if there is none |
| `TagTables.TagStore.FindTagId` | fbreader/src/database/booksdb/BooksDB_BookTag.cpp:211-242 | gives the tag and its ancestors ids of rows with their paths, keeps the table in order, and changes no id that was set |
| `TagTables.TagStore.LoadRow` | fbreader/src/database/booksdb/BooksDB_BookTag.cpp:113-128 | one row, in any registry: nothing if its id is known; otherwise its name is looked up under the tag of its parent id, or at the top, and only a new tag gets the id |
| `TagTables.StepLoads` | fbreader/src/database/booksdb/BooksDB_BookTag.cpp:113-128 | if all rows before are in their places, and tags of the table are known by their ids only, this row ends up in its place too |
| `TagTables.TagStore.LoadAllTagsById` | fbreader/src/database/booksdb/BooksDB_BookTag.cpp:108-129 | for every registry: after loading in ascending order each id leads to the tag with its row's path if and only if the registry knew tags of the table by their ids only; ids known before keep their tags |
| `TagTables.LoadedExactly` | fbreader/src/database/booksdb/BooksDB_BookTag.cpp:108-129 | the argument for it on what loading adds: ids keep their tags, and new ids lead to new tags |
| `TagTables.NameHidesRow` | fbreader/src/database/booksdb/BooksDB_BookTag.cpp:108-129 | a tag that came into the registry by its name is not given the id of its row |
| `TagTables.SaveThenLoad` | fbreader/src/database/booksdb/BooksDB_BookTag.cpp:108-242 | any run of saves followed by loading into an empty registry rebuilds the same path for every saved id |
| `BookOrder.BookLessByHeading` | fbreader/src/library/Comparators.cpp:24-47 | the comparator files by series title or, without one, by title; under one heading books of the series come first, by number and title |
| `BookOrder.BooksDiverge` | fbreader/src/library/Comparators.cpp:24-47 | books are ordered by the first symbol in which their series titles, or titles if they have no series, differ; a prefix comes first |
| `BookOrder.BookLessIsStrictWeak` | fbreader/src/library/Comparators.cpp:24-47 | irreflexive, asymmetric, transitive, and ties are transitive: what `std::sort` needs |
| `BookOrder.MachineLessExactly` | fbreader/src/library/Comparators.cpp:24-47 | with the difference of the series numbers taken in 32 bits, two books are ordered by the numbers themselves exactly when the difference fits |
| `BookOrder.MachineLessIsStrictWeak` | fbreader/src/library/Comparators.cpp:24-47 | on books of which no two overflow that comparator is a strict weak order, and a list is sorted by it exactly when it is sorted by the numbers |
| `BookOrder.MachineLessCycles` | fbreader/src/library/Comparators.cpp:24-47 | three books of one series, each before the next, and the last before the first |
| `BookOrder.TiedMeansEqual` | fbreader/src/library/Comparators.cpp:24-47 | two books tie exactly when they agree in all the comparator looks at |
| `BookOrder.SeriesAreAdjacent` | fbreader/src/library/Comparators.cpp:24-47 | in a sorted list nothing stands between two books of one series |
| `BookOrder.SortBooks` | fbreader/src/library/Library.cpp:226-233 | a sorted permutation |
| `SeriesGroups.GroupedFlattens` | fbreader/src/libraryTree/LibraryByAuthorView.cpp:35-61 | grouping keeps every book and the order |
| `SeriesGroups.GroupedIsRight` | fbreader/src/libraryTree/LibraryByAuthorView.cpp:35-61 | a series node holds all books of its series and at least two; a book alone is the only one of its series or has none |
| `SeriesGroups.SeriesNodeExactlyForSeveral` | fbreader/src/libraryTree/LibraryByAuthorView.cpp:35-61 | a series has a node exactly when two of its books are in the list |
| `SeriesGroups.SeriesNodesDiffer` | fbreader/src/libraryTree/LibraryByAuthorView.cpp:35-61 | no series has two nodes |
| `SeriesGroups.SortedListIsGroupedRight` | fbreader/src/libraryTree/LibraryByAuthorView.cpp:35-61 | all of this for every sorted list |
| `AuthorSubtrees.AuthorNode.FillAuthorSubtree` | fbreader/src/libraryTree/LibraryByAuthorView.cpp:35-61 | the loop with its open series node and one book of look-ahead appends exactly the grouping of the list |
| `AuthorSubtrees.AuthorNode.IsSubtreeUpToDate` | fbreader/src/libraryTree/LibraryByAuthorView.cpp:63-88 | true exactly when the nodes show the books in order, books outside series nodes have no series and books inside have one |
| `AuthorSubtrees.AuthorNode.UpdateAuthorSubtree` | fbreader/src/libraryTree/LibraryByAuthorView.cpp:90-108 | afterwards the subtree is the grouping of the list |
| `AuthorSubtrees.AcceptedIsRightExactly` | fbreader/src/libraryTree/LibraryByAuthorView.cpp:63-88 | an accepted subtree is the one that would be built now exactly when its series nodes are whole: the up-to-date check does not compare the series inside a node |
| `AuthorSubtrees.StaleGroupingAccepted` | fbreader/src/libraryTree/LibraryByAuthorView.cpp:63-88 | a concrete stale grouping that is accepted |
| `AuthorSubtrees.FreshPassesExactly` | fbreader/src/libraryTree/LibraryByAuthorView.cpp:35-88 | the subtree just built from a sorted list passes the up-to-date check exactly when every book of a series has another book of that series beside it in the list |
| `AuthorSubtrees.FreshSubtreeRejected` | fbreader/src/libraryTree/LibraryByAuthorView.cpp:35-88 | the subtree just built for a single book of a series is found to be out of date |
| `AuthorViews.AuthorTrichotomy` | fbreader/src/library/Comparators.cpp:56-69 | the order of authors is total and asymmetric |
| `AuthorViews.AuthorsDiverge` | fbreader/src/library/Comparators.cpp:56-69 | no author comes first; others are ordered by the first symbol in which their sort keys differ, or their names when the sort keys are equal |
| `AuthorViews.AuthorTransitive` | fbreader/src/library/Comparators.cpp:56-69 | and transitive |
| `AuthorViews.AuthorView.AddAuthorSubtree` | fbreader/src/libraryTree/LibraryByAuthorView.cpp:30-33 | a new node, filled, goes to its place in the root list |
| `AuthorViews.AuthorView.DeleteNodes` | fbreader/src/libraryTree/LibraryByAuthorView.cpp:170-172 | deleting a set of nodes, in whatever order the set is visited, leaves the other nodes in their order |
| `AuthorViews.AuthorView.MakeUpToDate` | fbreader/src/libraryTree/LibraryByAuthorView.cpp:110-173 | for any old list sorted by author: one node per listed author, in order; nodes whose author stays are the same nodes, left alone when the up-to-date check accepts them and rebuilt otherwise; every subtree shows the author's books in order |
| `LibraryMaps.FileBooks` | fbreader/src/library/Library.cpp:203-225 | every book is filed under each of its keys, as often as the key is listed, or under none |
| `LibraryMaps.InFiled` | fbreader/src/library/Library.cpp:203-225 | a book is filed under just its keys |
| `LibraryMaps.FiledCount` | fbreader/src/library/Library.cpp:203-225 | a book is filed under a key as often as it comes up times as often as it has the key |
| `LibraryMaps.FileAndSort` | fbreader/src/library/Library.cpp:203-233 | the keys in use, ascending, and under each exactly the books that have it, sorted |
| `LibraryMaps.Library.RebuildMaps` | fbreader/src/library/Library.cpp:197-234 | every author and every tag of a book is listed with the book under it, a book without any under none, and nothing else is listed; the lists of authors and tags are strictly ascending, the books of each sorted |
| `LibraryMaps.ShowAuthors` | fbreader/src/libraryTree/LibraryByAuthorView.cpp:110-173 | from the library to the screen: after rebuilding the maps, the view shows the authors in order with their sorted books, and newly built nodes have one whole node for each series of several books |
| `TagViews.PositionToInsert` | fbreader/src/libraryTree/TagNode.cpp:38-48 | the scan from the end stops behind a book or a smaller tag |
| `TagViews.InsertKeepsShape` | fbreader/src/libraryTree/TagNode.cpp:38-48 | inserting there keeps books first and tag nodes sorted |
| `TagViews.UpdateBookList` | fbreader/src/libraryTree/LibraryByTagView.cpp:42-68 | the book nodes become the old ones as far as the files agree and new ones from there on; the tag nodes do not move |
| `TagViews.Updated` | fbreader/src/libraryTree/LibraryByTagView.cpp:42-68 | so the books agree with the library's list by file |
| `TagViews.UpdatedKeeps` | fbreader/src/libraryTree/LibraryByTagView.cpp:42-68 | book nodes stay as far as the files agree, and from the first difference on they are new |
| `TagViews.TagView.CollectTagNodes` | fbreader/src/libraryTree/LibraryByTagView.cpp:31-40 | enters exactly the nodes below the given one, each under its tag |
| `TagViews.BelowThroughChild` | fbreader/src/libraryTree/LibraryByTagView.cpp:31-40 | a node is below another exactly when it is within one of its tag nodes |
| `TagViews.TagView.AddNode` | fbreader/src/libraryTree/TagNode.cpp:50-54 | a new node takes its place under its parent; the tree stays a tree and no book list changes |
| `TagViews.LastIsLeaf` | fbreader/src/libraryTree/LibraryByTagView.cpp:94-96 | the last remaining tag in the order has nothing below it: descendants come later, and a tag that stays keeps its parents |
| `TagViews.TagView.DeleteUnlisted` | fbreader/src/libraryTree/LibraryByTagView.cpp:90-96 | the reverse pass only ever deletes leaves and leaves exactly the nodes of listed tags |
| `TagViews.TagView.MakeUpToDate` | fbreader/src/libraryTree/LibraryByTagView.cpp:70-97 | from any tree to the tree of the given tags: one node per tag under its parent's node, siblings sorted, books matching by file; nodes whose tag stays are the same nodes |
| `TagViewInput.CollectedParentsFirst` | fbreader/src/libraryActions/BooksUtil.cpp:69-88 | the collected tags of a library meet what that update needs: every tag once, its parent before it |
| `TagViewInput.CollectedAreShown` | fbreader/src/libraryActions/BooksUtil.cpp:69-88 | the collected tags are exactly the tags of books and their ancestors, and "no tag" if a book has none |
| `TagViewInput.ShowTags` | fbreader/src/libraryTree/LibraryByTagView.cpp:70-97 | from the library to the screen: after rebuilding the maps and collecting the tags, the view has a node for each of these tags and no other, and each node shows, by file, the sorted books of its tag |
| `StyleSheets.StyleSheetParser.ProcessWordWithoutComments` | fbreader/src/formats/css/StyleSheetParser.cpp:162-195 | a plain word in each of the four states, with the dot in a selector |
| `StyleSheets.StyleSheetParser.ProcessWord` | fbreader/src/formats/css/StyleSheetParser.cpp:144-160 | the loop over comment marks inside one word |
| `StyleSheets.StyleSheetParser.ProcessControl` | fbreader/src/formats/css/StyleSheetParser.cpp:119-142 | braces, colons and semicolons; a rule is stored at its closing brace unless it is broken |
| `StyleSheets.StyleSheetParser.Parse` | fbreader/src/formats/css/StyleSheetParser.cpp:74-102 | the loop with its pending piece of a word equals feeding the text symbol by symbol; a final call ends the last word only if it brings a piece of it |
| `StyleSheets.ParseStream` | fbreader/src/formats/css/StyleSheetParser.cpp:59-72 | reading a stream chunk by chunk equals feeding the whole text |
| `StyleSheets.FeedConcat` | fbreader/src/formats/css/StyleSheetParser.cpp:74-102 | feeding two texts one after the other is feeding their concatenation |
| `StyleSheets.ChunksDoNotMatter` | fbreader/src/formats/css/StyleSheetParser.cpp:59-72 | any split of the text into non-final calls gives the same state and the same stored rules |
| `StyleSheets.FinalChunkExactly` | fbreader/src/formats/css/StyleSheetParser.cpp:95-101 | splitting off the final call changes nothing exactly when that call brings something or no word was left over |
| `StyleSheets.LastWordIsLeftOver` | fbreader/src/formats/css/StyleSheetParser.cpp:95-101 | a text of one word followed by an empty final call leaves that word unprocessed |
| `StyleSheetTexts.PrintedRulesAreStored` | fbreader/src/formats/css/StyleSheetParser.cpp:119-195 | parsing any printed list of clean rules, with selectors of any number of words, stores exactly those rules, in order, and leaves the parser between two rules |
| `StyleSheetTexts.FeedDeclaration` | fbreader/src/formats/css/StyleSheetParser.cpp:185-191 | a printed declaration sets its attribute to its values, replacing earlier ones |
| `StyleSheetTexts.CommentActsAsItsControls` | fbreader/src/formats/css/StyleSheetParser.cpp:144-160 | a comment without its end mark inside acts exactly as the control symbols in it: words in it are passed over, braces, colons and semicolons are not |
| `StyleSheetTexts.CommentIsIgnoredExactly` | fbreader/src/formats/css/StyleSheetParser.cpp:74-160 | a comment leaves every parser that is between words as it was exactly when there is no brace, colon or semicolon in it |
| `StyleSheetTexts.SemicolonInComment` | fbreader/src/formats/css/StyleSheetParser.cpp:119-160 | a semicolon in a comment behind a selector breaks the rule |
| `StyleSheetTexts.SelectorIsTakenExactly` | fbreader/src/formats/css/StyleSheetParser.cpp:162-184 | a printed selector of any number of words is taken as it was meant, tags and classes, exactly when it has one word or its first word has a tag |
| `StyleSheetTexts.LeadingClassIsLost` | fbreader/src/formats/css/StyleSheetParser.cpp:162-184 | the class of a first word without a tag is replaced by that of the second word |
| `StyleSheetRules.WhiteSpaceIsBlank` | fbreader/src/formats/css/StyleSheetParser.cpp:74-102 | any white space in a style sheet is read as a blank is |
| `StyleSheetRules.OneBlank` | fbreader/src/formats/css/StyleSheetParser.cpp:74-102 | and any other symbol but the four control symbols is part of a word |
| `StyleSheetRules.RuleStoredExactly` | fbreader/src/formats/css/StyleSheetParser.cpp:119-142 | at a closing brace a rule is stored exactly when what stands before it holds no control symbol, or first one opening brace, no second one, and a semicolon between any two colons; in either case the parser starts anew |
| `StyleSheetRules.BrokenRuleIsDropped` | fbreader/src/formats/css/StyleSheetParser.cpp:119-142 | a broken rule stores nothing, and all rules after it are stored |
| `StyleSheetRules.ColonInSelector` | fbreader/src/formats/css/StyleSheetParser.cpp:119-142 | for example a rule whose selector holds a colon |
| `StyleSheetRules.CommentIsABlank` | fbreader/src/formats/css/StyleSheetParser.cpp:144-160 | a comment without control symbols is read as a blank, also in the middle of a word |
| `StyleSheetRules.ValueWithoutName` | fbreader/src/formats/css/StyleSheetParser.cpp:188-191 | a value of an attribute that has none becomes its only value |
| `PageMoves.BookTextView.SetModel` | fbreader/src/fbreader/BookTextView.cpp:111-139 | opening a book: the saved stack trimmed to its newest 20 entries, the saved point if it fits |
| `PageMoves.TrimmedIsNewest` | fbreader/src/fbreader/BookTextView.cpp:131-137 | trimming keeps the newest entries, and the point stays with its entry or goes to the oldest one |
| `PageMoves.BookTextView.SaveState` | fbreader/src/fbreader/BookTextView.cpp:145-164 | saves the stack exactly when it has changed and the place is known |
| `PageMoves.BookTextView.PushCurrentPositionIntoStack` | fbreader/src/fbreader/BookTextView.cpp:170-190 | a push is skipped without a place or for the place on top; otherwise it drops the oldest entries of a full stack |
| `PageMoves.BookTextView.ReplaceCurrentPositionInStack` | fbreader/src/fbreader/BookTextView.cpp:192-198 | the entry at the point becomes the place shown, if that is known |
| `PageMoves.BookTextView.GotoParagraph` | fbreader/src/fbreader/BookTextView.cpp:200-215 | a jump cuts what could be redone, pushes the place, and stands at the end of the stack |
| `PageMoves.BookTextView.UndoPageMove` | fbreader/src/fbreader/BookTextView.cpp:234-252 | undo, with its push at the end of the stack, its double step when the push is skipped, and its replacement inside |
| `PageMoves.BookTextView.RedoPageMove` | fbreader/src/fbreader/BookTextView.cpp:259-275 | redo, with the top entry dropped when it is reached |
| `PageMoves.EveryRunIsValid` | fbreader/src/fbreader/BookTextView.cpp:170-275 | in every run the point stays within the stack, the stack within 20 entries, and a stack that differs from the saved one is marked as changed |
| `PageMoves.UndoIndexExactly` | fbreader/src/fbreader/BookTextView.cpp:234-245 | the entry that undo goes to exists exactly when the place is known or there are more entries than one |
| `PageMoves.UndoNeedNotFit` | fbreader/src/fbreader/BookTextView.cpp:217-245 | a state in which it does not exist, reached by one jump to the end of a text |
| `PageMoves.UndoThenRedo` | fbreader/src/fbreader/BookTextView.cpp:234-275 | what one undo and one redo leave: the place, and the stack but for a dropped oldest entry, a duplicate on top, or the entry the place has replaced |
| `PageMoves.UndosThenRedos` | fbreader/src/fbreader/BookTextView.cpp:217-275 | k permitted undos can be followed by k redos; they pass the same places in reverse and end at the place shown at first |
| `PageMoves.JumpThenUndo` | fbreader/src/fbreader/BookTextView.cpp:200-252 | a jump to another place can be undone, and undo leads back to where it started, also with a full stack |
| `PageMoves.JumpCutsRedo` | fbreader/src/fbreader/BookTextView.cpp:200-215 | after a jump nothing can be redone; the stack is what was behind the point, with the place it started from on top unless it is there already, and without the oldest of twenty entries |
| `PageMoves.JumpThenUndos` | fbreader/src/fbreader/BookTextView.cpp:200-252 | a second undo after a jump leads to the entry before |
| `PageMoves.RedoExactly` | fbreader/src/fbreader/BookTextView.cpp:259-275 | redo shows the next entry; the place it leaves takes its place in the stack, also after pages have been turned; nothing else changes but a top entry that is taken off |
| `PageMoves.RedoThenUndo` | fbreader/src/fbreader/BookTextView.cpp:234-275 | undo takes back redo |
| `PageMoves.OpenedExactly` | fbreader/src/fbreader/BookTextView.cpp:121-130 | a stack of up to twenty entries is opened as it was saved, at the saved point, or behind its end |
| `PageMoves.LongOpened` | fbreader/src/fbreader/BookTextView.cpp:124-139 | of a longer one the newest twenty entries are kept, and the point stays with its entry |
| `PageMoves.SaveAndReopen` | fbreader/src/fbreader/BookTextView.cpp:111-164 | saving and opening the book again changes nothing but the note that something has to be saved |
| `TocReaders.BookReader.BeginContentsParagraph` | fbreader/src/bookmodel/BookReader.cpp:225-247 | writes out the buffer, then makes a paragraph under the top of the stack and pushes it |
| `TocReaders.BookReader.EndContentsParagraph` | fbreader/src/bookmodel/BookReader.cpp:249-264 | writes out the buffer, with dots for a paragraph without text, and pops the stack; nothing on an empty stack |
| `TocReaders.BookReader.AddContentsData` | fbreader/src/bookmodel/BookReader.cpp:176-180 | buffers a non-empty text while a paragraph is open |
| `TocReaders.BookReader.SetReference` | fbreader/src/bookmodel/BookReader.cpp:266-272 | sets the reference of that paragraph, and of no other |
| `TocReaders.HHCReader.TagHandler` | fbreader/src/formats/chm/HHCReader.cpp:53-97 | each tag of the table of contents, with the flag for first children |
| `TocReaders.HHCReader.SetReferences` | fbreader/src/formats/chm/HHCReader.cpp:103-107 | each paragraph gets the target of the reference with its number |
| `TocContents.OthersAreIgnored` | fbreader/src/formats/chm/HHCReader.cpp:53-97 | any document is read as if it had only its UL, OBJECT and PARAM tags |
| `TocContents.ParameterMeans` | fbreader/src/formats/chm/HHCReader.cpp:59-75 | a parameter named Name or Local sets text or reference to its value, the last one given; any other means nothing |
| `TocContents.JoinConcat` | fbreader/src/bookmodel/BookReader.cpp:176-180 | pieces of text are joined in their order |
| `TocContents.EveryParagraphHasText` | fbreader/src/bookmodel/BookReader.cpp:176-264 | after any calls of the contents model, when no paragraph is open none is without a text |
| `TocContents.TextOfParagraph` | fbreader/src/bookmodel/BookReader.cpp:176-264 | a paragraph has the text it was given, or three dots when it was given none, its reference, and the paragraph that was open as its parent |
| `TocContents.Perform` | fbreader/src/bookmodel/BookReader.cpp:176-264 | the book reader does what the calls do |
| `TocContents.PiecesAreBuffered` | fbreader/src/bookmodel/BookReader.cpp:176-180 | calls with pieces of text buffer them in their order |
| `TocTrees.EntriesAreRead` | fbreader/src/formats/chm/HHCReader.cpp:53-97 | reading the entries of a list that find their parents open, from any state of the reader, makes their paragraphs in preorder with the right parents, and leaves the reader on the level the tree alone determines |
| `TocTrees.EverythingIsMade` | fbreader/src/formats/chm/HHCReader.cpp:53-97 | whatever the tree: every entry that is not blank makes its paragraph, with its text and its reference, in order |
| `TocTrees.DocumentIsRead` | fbreader/src/formats/chm/HHCReader.cpp:53-97 | a whole document, whatever its tree: all entries that are not blank have their paragraphs, with text or dots, in order; stack and buffer are empty, and paragraph i has reference i |
| `TocTrees.ParentsAreRightExactly` | fbreader/src/formats/chm/HHCReader.cpp:53-97 | for every tree: the paragraphs have the right parents exactly when every entry finds its parent open, which is read off the tree |
| `TocTrees.PlacedIsReadable` | fbreader/src/formats/chm/HHCReader.cpp:53-97 | for trees in which every list has something to show: that is so exactly when no list hangs below an entry with neither text nor reference |
| `TocTrees.HarmlessList` | fbreader/src/formats/chm/HHCReader.cpp:53-97 | with empty lists allowed it is not: an empty list below such an entry does no harm |
| `TocOutlines.TreeIsRightExactly` | fbreader/src/formats/chm/HHCReader.cpp:53-97 | for every tree: the tree rebuilt from the paragraphs is the printed one exactly when every entry finds its parent open |
| `TocOutlines.ReadTableOfContents` | fbreader/src/formats/chm/HHCReader.cpp:53-107 | the whole reader on any printed tree: every paragraph has its text and leads where its reference leads, and reading inverts printing exactly when every entry finds its parent open |
| `TocOutlines.BlankParentMisplaces` | fbreader/src/formats/chm/HHCReader.cpp:80-93 | a list below an entry with neither text nor reference makes the reader lose the parent of the entry after it |

## Left out

- Uncompressed LZX blocks, `BitStream::reset` and direct byte access: byte-level rewinding has no counterpart in the sequence of word-swapped bits; the model refuses such a block with an error of its own, so the round trip is about verbatim and aligned blocks.
- The E8 translation of output bytes: the model's output is that of the window before it.
- LzxDecompressors.LZXDecompressor.DecompressFrame: after a failure the model says nothing about the trees and the block in progress, and asks for a reset before the next call; only the committed state is stated.
- CodeLengthReader.ReadLengthsInto: a run that leaves the wanted range but fits the vector, after which the original's loop condition no longer holds the iterator, ends the model's call with an outcome of its own.
- HuffmanDecoders.HuffmanDecoder.BuildTable: asks for at most 65535 lengths, because the original counts symbols in 16 bits; every caller has at most 656.
- ChmInputStreams.CHMInputStream.DoRead: stops at a frame that cannot be decoded and reports it; the original goes on to deliver what its buffer held before.
- ChmInputStreams.CHMInputStream.Read: delivers bytes rather than a count, and shares that limit.
- ChmInputStreams.CHMInputStream.Seek: 64-bit and 32-bit conversions of the way to go are left out.
- ChmInputStreams.CHMInputStream.constructor: takes for granted a reset interval above 0, a window of at most 2^31 bytes and an end of the data behind the start of the last frame; reading the tables checks none of these (`ChmSection.TakenForGranted`, apart from what is checked in `ChmSection.TablesOk`).
- Directory parsing, file names and stream input of CHM files: a section and its tables are given; `readEncodedInteger` would only add an easy member.
- TagForests.TagForest.GetTag: reference counting is left out; a tag lives as long as the registry.
- BookTags.Book.RenameTag: the original's set is ordered by address, so the order of the tags after renaming with subtags is left open, here as there.
- BookTags.Book.CloneTag: likewise.
- BookOrder.BookLessIsStrictWeak: about unbounded series numbers; BookOrder.MachineLessExactly says when a difference that wraps in 32 bits gives the same. That a compiler may do something else on an overflow is left out.
- TagTables.TagStore.FindOrAdd: SQL text and failures of the data base are left out; a new row gets the largest id plus one.
- `SaveTagsRunnable::run`, which compares a book's rows with its tags: it would add easy members.
- AuthorViews.AuthorView.MakeUpToDate: which nodes are open and which node is the first visible one are left out.
- LibraryMaps.Library.RebuildMaps: reading directories, file state and the revision counter around it are left out; the order in which the set of books is visited is a parameter.
- TagViews.TagView.MakeUpToDate: a tag is given by its name path, which the results on interned tags justify; memory is not reclaimed.
- StyleSheets.StyleSheetParser.Parse: `isspace` is that of the C locale.
- PageMoves.BookTextView.UndoPageMove: asks that the entry it goes to exists; PageMoves.UndoIndexExactly says exactly when, and the original reads outside its stack otherwise. A position taken from the stack is reached exactly.
- TocTrees.DocumentIsRead: about a contents model that is empty at first, as a new book's is.
- Painting, cover images, dialogs, options, the network library, the other book formats and the migrations: mostly input and output.
