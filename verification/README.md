# Models and proofs of the packet tools

This project models the parts of the repository whose correctness rests on an argument rather than on reading one
function, and proves that argument for every input.

- **JPEG re-coder** (`chgksuite/imgconv/jpegopt.go`): bits, bytes and byte stuffing (`BitStream`), code lengths by
  merging the two least frequent symbols (`HuffmanMerge`, `HuffmanOptimal`, `HuffmanDepth`), limiting them to 16
  (`LengthLimit`), canonical codes and decoding (`CanonicalCode`, `HuffmanTable`), scans (`JpegScan`), segments
  (`JpegSegments`), the whole re-coding (`JpegRecoder`) and what it guarantees (`JpegLossless`, `JpegLimits`), what
  headers, blocks and segments are (`JpegHeaders`, `JpegBlocks`, `JpegKept`), and files on which it goes wrong
  (`JpegWitnesses`). The code follows ITU-T T.81: Annex K.2 for the code sizes, Annex C for the codes, sections B.2.2 to
  B.2.4.2 for headers and tables, sections F.1.2.2, F.1.2.3 and F.2.2.3 for blocks, stuffing and decoding.
- **4s source** (`chgksuite/fsource`): lines and white space (`SourceText`), markers and their escaping
  (`SourceMarkers`), counter macros and decimal numbers (`SourceCounters`, `SourceCounting`), the parser
  (`SourceParser`), the printer (`SourceComposer`), the law that joins them (`SourceValues`, `SourceRoundTrip`,
  `SourceReparse`, `SourceKeeps`), which numbers are written (`SourceNumbers`), fields in several pieces
  (`SourceMerge`) and sources the printer would write otherwise (`SourceLaws`).
- **Compound files** (`chgksuite/docread/cfb.go`): sector chains (`CompoundFile`), the directory tree
  (`CompoundDirectory`), the FAT and opening a file (`CompoundOpen`), directory entries byte by byte (`CompoundNames`),
  how large a stream can be (`CompoundWitness`).
  The layout is that of [MS-CFB], sections 2.3 to 2.6.
- **Handouts** (`chgksuite/handout`): row steps and cutting into teams (`HandoutLayout`), page counts in double
  precision (`Floats`, `HandoutPages`), the row search and the trade of image size for rows (`HandoutFit`).
- **Credits** (`chgksuite/credits/credits.go`): numbering questions, tours and paragraphs (`CreditsNumbering`,
  `CreditsPacket`), what the credits of a document hold (`CreditsContents`), joining the files of a packet
  (`CreditsMerge`, `CreditsJoined`) and where its paragraphs then point (`CreditsPointers`).
- **Presentations** (`chgksuite/pptx`): the package and its unique names and ids (`SlidePackage`), service slides
  (`ServiceSlides`), breaking lines (`LineWrapping`).
- **Warm-up questions** (`chgksuite/dbtext/dbtext.go`): a list rearranged while it is walked (`WarmupHoisting`).

`Numbers`, `Sequences` and `Outcomes` hold arithmetic, sequences and result types. Where the source updates objects and
arrays in place, so do the classes and methods here; each is proved equal to a function, and the properties are proved
about the function.
`Outcome` tells an error the caller is told about (`Refused`) from an index out of range (`Panicked`).

## What the proofs found

- A table is built without an index out of range for every choice of frequencies with a given sum if and only if the
  sum, the reserved symbol's 1 included, is below 9227465, the 35th Fibonacci number (`HuffmanDepth.DepthBoundIsExact`).
- Re-coding is lossless, and re-coding again gives the same bytes, for a file with at most one frame header before its
  scan; with more of them the output, which keeps the last one only, is refused when read again
  (`JpegLossless.RecodingIsIdempotent`). A file with two is re-coded (`JpegWitnesses.TwoFramesAreRefused`).
- Table selectors above 3 are not checked where the scan header is read. A file stops the program if and only if its
  scan comes to a block with such a selector, or a table that is built gets a code of more than 32 bits
  (`JpegLimits.PanicsExactly`); below about 1.1 MB only the first can happen (`JpegLimits.SmallFilesNeverPanic`), and
  25 bytes are enough for it (`JpegWitnesses.BadSelectorPanics`).
- `chgksuite/fsource/compose.go:133` promises that parsing a printed document gives it back. With all numbers written
  that holds for every document in normal form. With the default numbers it holds exactly when no question writes
  what to count from, and every question whose number is left out has no handout and the number that the parser counts
  to (`SourceKeeps.RoundTrip`); one question with a handout already fails (`SourceKeeps.HandoutIsLost`).
- A field label with a blank, which the parser itself makes from a tilde, is printed with the blank and cut there when
  read (`SourceKeeps.BlankInLabelIsLost`).
- A label on a list without an introduction, which the parser can make too, is read back as the introduction
  (`SourceKeeps.ListLabelIsLost`).
- A field given in several pieces, each behind its own mark, comes back whole when the pieces are texts, or lists with
  introductions (`SourceMerge.PiecesAreWhole`). Two pieces of other kinds lose items if and only if the second is a list
  without an introduction that stands behind a list, or behind a text and has more than two items, or the first is such
  a list and the second has an introduction (`SourceMerge.PiecesAreKept`).
- Questions numbered from 1 on without handouts, and warm-ups numbered 0 among them, come back with the default numbers
  (`SourceNumbers.DefaultRoundTrip`); numbered from a later number on they come back too, but the first also keeps what
  it was counted from (`SourceNumbers.CountedRoundTrip`).
- The turn limit on the list of FAT sectors (`chgksuite/docread/cfb.go:90`) can never be reached
  (`CompoundOpen.DifatWalk`).
- `chgksuite/docread/cfb.go:54-57` promises that nothing larger than the file is read from it. That holds for every table
  and every large stream. A small stream is followed along the mini FAT even in a circle, and one that is read is larger
  than the file exactly when its declared size is; then it is still less than about sixteen times the file
  (`CompoundWitness.StreamIsBounded`). A file of 2560 bytes gives 8256 (`CompoundWitness.StreamLargerThanFile`).
- The page count is computed with two rounded divisions and can be one too many: seven handouts on a page, five to a
  team, twenty teams give 16 pages where 15 are enough (`HandoutPages.SixteenForFifteen`). It is the fewest if and only
  if `Overcounts` does not hold: the pages are filled exactly and the first quotient was rounded down too far
  (`HandoutPages.PagesAreFewest`). A page of whole teams is always counted right (`HandoutPages.WholeTeamPages`).
- Shrinking an image comes to its least size, when that is not negative, if and only if the percentage is above 0
  (`HandoutFit.ShrinkingEndsExactly`, which also says when it does for a negative one); at 0 or below no number
  of steps makes the image smaller (`HandoutFit.NoShrinkNoProgress`).
- Warm-up questions directly under a tour's heading come out in their order, and later ones of the same tour are put
  right behind those, the last one first (`WarmupHoisting.HoistWarmups`).
- A paragraph's `Next` is a question of its own tour (`chgksuite/credits/credits.go:46-51`). In a joined packet that is so
  if and only if no later file has a paragraph before its first tour that is followed by a question outside that tour
  (`CreditsPointers.JoinedPointsExactly`). A credit before a warm-up heading goes wrong
  (`CreditsPointers.PreambleStrays`).
- Cutting a joined packet to its limits takes a paragraph's tour away if and only if there are more than 100 tours and
  one of the first 500 paragraphs stands beyond the hundredth (`CreditsMerge.CappedKeeps`). One credit under the last of
  101 headings does (`CreditsPointers.CreditIsCutLoose`).

## Model

| member | source | states |
|---|---|---|
| `BitStream.FromBitsToBits` | chgksuite/imgconv/jpegopt.go:289-299 | a number written in n bits is read back from them |
| `BitStream.ByteBound` | chgksuite/imgconv/jpegopt.go:553-566 | eight bits make a byte, and writing the byte in eight bits gives them back |
| `BitStream.ScanBitsOfStuff` | chgksuite/imgconv/jpegopt.go:266-287 | reading stuffed bytes gives exactly the bits of the bytes before stuffing, whatever follows |
| `BitStream.BytesOfBitsOf` | chgksuite/imgconv/jpegopt.go:553-573 | cutting the bits of bytes into bytes gives the bytes back |
| `BitStream.PaddedExtends` | chgksuite/imgconv/jpegopt.go:569-573 | padding reaches the next whole byte, keeps the bits, and adds only ones, fewer than eight |
| `BitStream.BitReader.ReadBit` | chgksuite/imgconv/jpegopt.go:266-287 | succeeds exactly while bits are left, and takes the first of them off |
| `BitStream.BitReader.ReadBits` | chgksuite/imgconv/jpegopt.go:289-299 | succeeds exactly when so many bits are left, gives their number and takes them off |
| `BitStream.BitWriter.Put` | chgksuite/imgconv/jpegopt.go:553-566 | appends one bit, emitting and stuffing the byte that becomes full |
| `BitStream.BitWriter.Write` | chgksuite/imgconv/jpegopt.go:553-566 | appends the low bits of the code, the highest first |
| `BitStream.BitWriter.Flush` | chgksuite/imgconv/jpegopt.go:569-573 | pads with ones to a whole byte; the bytes out are the stuffed bytes of all bits written |
| `HuffmanMerge.LeastFrequent` | chgksuite/imgconv/jpegopt.go:503-515 | the used symbol of least frequency other than the excluded one, the last of equals, or -1 when there is none |
| `HuffmanMerge.LeastIsUnique` | chgksuite/imgconv/jpegopt.go:503-515 | there is only one such answer |
| `HuffmanMerge.FindLeastFrequent` | chgksuite/imgconv/jpegopt.go:503-515 | the scan over the array finds it |
| `HuffmanMerge.Deepen` | chgksuite/imgconv/jpegopt.go:430-450 | walking a linked chain adds one to the code size of each of its members and of no other, and ends at the last |
| `HuffmanMerge.MergePair` | chgksuite/imgconv/jpegopt.go:421-452 | joining two live trees on the arrays is joining them as trees: frequencies, sizes and the linked lists agree |
| `HuffmanMerge.MergeLeast` | chgksuite/imgconv/jpegopt.go:421-452 | the loop over the arrays leaves the code sizes of merging the two least trees until one is left |
| `HuffmanOptimal.HuffmanIsOptimal` | chgksuite/imgconv/jpegopt.go:421-452 | no assignment of lengths to the used symbols with Kraft sum at most 1 has a smaller sum of frequency times length |
| `HuffmanOptimal.HuffmanIsComplete` | chgksuite/imgconv/jpegopt.go:421-452 | the code sizes have Kraft sum exactly 1 |
| `HuffmanOptimal.HuffmanDepth` | chgksuite/imgconv/jpegopt.go:430-459 | a symbol of depth d needs a total frequency of at least Fibonacci(d + 2) |
| `HuffmanOptimal.HuffmanIsPositive` | chgksuite/imgconv/jpegopt.go:421-452 | with two used symbols each has a code of at least one bit |
| `HuffmanOptimal.MergeAllSkipsUnused` | chgksuite/imgconv/jpegopt.go:430-450 | merging never lengthens the code of an unused symbol |
| `HuffmanOptimal.MergeSaves` | chgksuite/imgconv/jpegopt.go:421-452 | merging the two least weights saves their sum against the best lengths: the exchange step of optimality |
| `HuffmanDepth.SmallTotalsFit` | chgksuite/imgconv/jpegopt.go:454-459 | a table whose frequencies sum to less than 9227465 is built without an index out of range |
| `HuffmanDepth.DeepTotal` | chgksuite/imgconv/jpegopt.go:454-459 | for every larger total there are frequencies with that sum, those of the next lemma |
| `HuffmanDepth.DepthBoundIsExact` | chgksuite/imgconv/jpegopt.go:454-459 | every table of a given total is built if and only if the total is below 9227465 |
| `LengthLimit.LimitNeverSticks` | chgksuite/imgconv/jpegopt.go:520-543 | above length 16 a complete code always has a shorter code to lengthen and two to shorten, so the way out for j = 0 is never taken |
| `LengthLimit.SpreadKeeps` | chgksuite/imgconv/jpegopt.go:520-533 | one adjustment keeps the Kraft sum and the number of codes |
| `LengthLimit.LimitKeepsCompleteness` | chgksuite/imgconv/jpegopt.go:520-543 | the result is a complete code of at most 16 bits with as many codes, and spilling and clamping change nothing |
| `LengthLimit.LimitOne` | chgksuite/imgconv/jpegopt.go:520-533 | the inner loop on the array is the adjustment of one length |
| `LengthLimit.LimitTo16` | chgksuite/imgconv/jpegopt.go:520-543 | the array ends as the limited lengths |
| `CanonicalCode.CodeInRange` | chgksuite/imgconv/jpegopt.go:488-500 | every assigned code fits its length and is not all ones |
| `CanonicalCode.CodesArePrefixFree` | chgksuite/imgconv/jpegopt.go:488-500 | no code is a prefix of another |
| `CanonicalCode.BuildDecoder` | chgksuite/imgconv/jpegopt.go:311-327 | the loops over lengths build the decoder of the counts |
| `CanonicalCode.SymbolIndexInRange` | chgksuite/imgconv/jpegopt.go:329-342 | a code between the least and the largest of its length indexes an existing symbol |
| `CanonicalCode.Decode` | chgksuite/imgconv/jpegopt.go:329-342 | reads exactly the bits of the code and gives its symbol, or fails after 16 bits |
| `CanonicalCode.DecodeOwnCode` | chgksuite/imgconv/jpegopt.go:311-342 | decoding a symbol's own code gives the symbol and leaves exactly the bits after it |
| `HuffmanTable.HuffSpec.MergeSizes` | chgksuite/imgconv/jpegopt.go:421-452 | the sizes of the symbols with the reserved one counted once |
| `HuffmanTable.HuffSpec.CountSizes` | chgksuite/imgconv/jpegopt.go:454-459 | counts the codes of each length, and stops exactly on a code longer than 32 |
| `HuffmanTable.HuffSpec.DropReserved` | chgksuite/imgconv/jpegopt.go:462-468 | takes one code of the longest length away |
| `HuffmanTable.HuffSpec.CollectUsed` | chgksuite/imgconv/jpegopt.go:473-486 | the symbols with a code, ascending, without the reserved one |
| `HuffmanTable.HuffSpec.AssignCodes` | chgksuite/imgconv/jpegopt.go:488-500 | gives every listed symbol the canonical code and length of its rank, and no other symbol any |
| `HuffmanTable.HuffSpec.Build` | chgksuite/imgconv/jpegopt.go:418-501 | builds the table of the frequencies, or stops on an index out of range when that table is none |
| `HuffmanTable.StableIsSorted` | chgksuite/imgconv/jpegopt.go:473-486 | the listed symbols are the used ones, shorter codes first and ascending among equals |
| `HuffmanTable.LengthsAreComplete` | chgksuite/imgconv/jpegopt.go:421-459 | a table that is built comes from a complete code with one code more than it has symbols |
| `HuffmanTable.DropLeavesSlack` | chgksuite/imgconv/jpegopt.go:462-471 | without the reserved code the Kraft sum is below 1 and every count fits a byte |
| `HuffmanTable.TableIsSound` | chgksuite/imgconv/jpegopt.go:418-501 | counts fit bytes and leave slack, the symbols are exactly the used ones, each once, sorted by code size |
| `JpegScan.DecodeRecord` | chgksuite/imgconv/jpegopt.go:363-405 | a record takes at least one bit and belongs to its table |
| `JpegScan.ReadRecord` | chgksuite/imgconv/jpegopt.go:363-405 | reads a symbol and its extra bits, as the record they spell |
| `JpegScan.ReadAC` | chgksuite/imgconv/jpegopt.go:385-405 | reads the AC records of a block: none but the last ends the block or brings the coefficients passed to 63, and the last does |
| `JpegScan.ReadBlock` | chgksuite/imgconv/jpegopt.go:363-383 | reads one block, refusing a missing table and stopping on a selector out of range |
| `JpegScan.ReadScan` | chgksuite/imgconv/jpegopt.go:345-361 | reads the blocks of every MCU in order |
| `JpegScan.ACIsFilled` | chgksuite/imgconv/jpegopt.go:385-405 | what is decoded from a coefficient on fills the rest of the block so: a run of sixteen zeros does not end it |
| `JpegScan.DecodedAreBlocks` | chgksuite/imgconv/jpegopt.go:345-405 | what is decoded of a plan is a block for each of its entries: a DC record of its table and AC records that fill the block, each with as many raw bits as its symbol says |
| `JpegScan.SpelledPlan` | chgksuite/imgconv/jpegopt.go:345-405 | blocks of a plan, spelled, decode to exactly themselves and leave what follows |
| `JpegScan.DecodedExactly` | chgksuite/imgconv/jpegopt.go:345-405 | spelled records decode to themselves if and only if they are the blocks of the plan |
| `JpegScan.RespellPlan` | chgksuite/imgconv/jpegopt.go:345-405 | records spelled with tables that answer them decode to themselves through the new decoders, leaving what follows |
| `JpegBlocks.RecordsAreBlocks` | chgksuite/imgconv/jpegopt.go:345-405 | the records of every file that can be decoded are the blocks of its MCUs |
| `JpegBlocks.ScanPlanAt` | chgksuite/imgconv/jpegopt.go:346-360 | block b of component c in MCU m stands where the MCUs and components before it leave it |
| `JpegHeaders.HeaderIsRead` | chgksuite/imgconv/jpegopt.go:168-195 | a frame header is read as what it was written from: ids, sampling factors, a block for each sample, and the least MCUs that cover the pixels |
| `JpegHeaders.HeadersExactly` | chgksuite/imgconv/jpegopt.go:168-195 | a payload is taken as a frame header if and only if it begins with one of factors 1 to 4 |
| `JpegHeaders.TablesFollow` | chgksuite/imgconv/jpegopt.go:197-215 | each of several tables in a segment is installed, and the next ones after it |
| `JpegHeaders.ScanHeaderIsRead` | chgksuite/imgconv/jpegopt.go:217-245 | a scan header gives every component the DC and AC tables of the entry that names it |
| `JpegHeaders.ScanHeadersExactly` | chgksuite/imgconv/jpegopt.go:217-245 | a scan header is taken if and only if it has an entry for as many components as there are, each named in the file, and one scan of all coefficients |
| `JpegKept.SegmentsAreRead` | chgksuite/imgconv/jpegopt.go:108-162 | a file that is read is its segments, the scan header and the scan; none is progressive or restarts, and all others are kept by kind in order |
| `JpegKept.SegmentsAreKept` | chgksuite/imgconv/jpegopt.go:575-601 | the output is all segments but headers, tables and restarts, then quantization tables, the last frame header, the new tables, the scan header and the scan |
| `JpegRecoder.JpegFile.ReadSOF` | chgksuite/imgconv/jpegopt.go:168-195 | refuses or takes over the frame header: sampling factors, blocks and MCU counts |
| `JpegRecoder.JpegFile.ReadDHT` | chgksuite/imgconv/jpegopt.go:197-215 | refuses or installs the decoders of all tables in the segment |
| `JpegRecoder.JpegFile.ReadSOS` | chgksuite/imgconv/jpegopt.go:217-245 | refuses or sets the table selectors of the components, the last of equal ids winning |
| `JpegRecoder.JpegFile.TakeSegment` | chgksuite/imgconv/jpegopt.go:126-159 | what each kind of segment does to the file |
| `JpegRecoder.JpegFile.Read` | chgksuite/imgconv/jpegopt.go:108-162 | reads the segments up to the scan, or refuses |
| `JpegRecoder.CountSymbols` | chgksuite/imgconv/jpegopt.go:67-73 | every table's frequencies are the counts of its symbols among the records |
| `JpegRecoder.BuildTables` | chgksuite/imgconv/jpegopt.go:74-78 | builds the tables that are used, and no others |
| `JpegRecoder.JpegFile.SpellScan` | chgksuite/imgconv/jpegopt.go:575-596 | spells the records with the tables, failing exactly on a record without a code |
| `JpegRecoder.JpegFile.Reassemble` | chgksuite/imgconv/jpegopt.go:575-601 | writes the segments and the spelled scan, failing exactly on a record without a code |
| `JpegRecoder.OptimizeJPEG` | chgksuite/imgconv/jpegopt.go:58-80 | the whole re-coding: the new file, a refusal, or an index out of range; JpegScan.DecodedAreBlocks and JpegKept.SegmentsAreKept say of what |
| `JpegRecoder.ReadNeverPanics` | chgksuite/imgconv/jpegopt.go:108-245 | reading the segments of any bytes never runs out of range |
| `JpegRecoder.BuildNeverRefuses` | chgksuite/imgconv/jpegopt.go:74-78 | building tables never ends in an error |
| `JpegLossless.FreqCounts` | chgksuite/imgconv/jpegopt.go:67-73 | a table counts every symbol its records use, never the reserved one, and is used by a record when it counts any |
| `JpegLossless.TableReadsBack` | chgksuite/imgconv/jpegopt.go:311-342 | every used symbol has a code of 1 to 16 bits that the decoder of the emitted counts and symbols reads as the symbol |
| `JpegLossless.BuiltTablesAnswer` | chgksuite/imgconv/jpegopt.go:575-596 | the tables built from the records have a code for each of them, so the missing-code error cannot occur, and decode each to itself |
| `JpegLossless.ReadDhtSegment` | chgksuite/imgconv/jpegopt.go:603-611 | an emitted table segment is read as exactly the decoder of its table |
| `JpegLossless.SpelledReadsBack` | chgksuite/imgconv/jpegopt.go:547-596 | the bits read from the spelled scan up to the end marker are the bits spelled, padded with ones |
| `JpegLossless.NewScanKeepsRecords` | chgksuite/imgconv/jpegopt.go:345-361 | the new scan decodes to the same records, and less than a byte of padding is left |
| `JpegLossless.ReadAssembled` | chgksuite/imgconv/jpegopt.go:108-162 | the new file is read as the old one with the new tables and scan, if it had at most one frame header, and refused otherwise |
| `JpegLossless.RecodingIsLossless` | chgksuite/imgconv/jpegopt.go:58-80 | the new file has the same segments but the tables, and its scan the same records: table, symbol and extra bits |
| `JpegLossless.RecodingIsIdempotent` | chgksuite/imgconv/jpegopt.go:58-80 | re-coding the new file gives it back unchanged, if the old one had at most one frame header, and is refused otherwise |
| `JpegLimits.RecordsTakeBits` | chgksuite/imgconv/jpegopt.go:345-361 | there are no more records than bits read |
| `JpegLimits.FreqTotal` | chgksuite/imgconv/jpegopt.go:67-73 | the frequencies of a table sum to at most the number of records |
| `JpegLimits.PlanPanicsOnSelectors` | chgksuite/imgconv/jpegopt.go:363-383 | decoding runs out of range if and only if the blocks before one with a table selector out of range are decoded: the scan comes to it |
| `JpegLimits.BuildPanicsExactly` | chgksuite/imgconv/jpegopt.go:454-459 | building tables runs out of range if and only if a table that is used has a code of more than 32 bits |
| `JpegLimits.PanicsExactly` | chgksuite/imgconv/jpegopt.go:58-80 | any file stops the program if and only if its scan comes to a selector out of range, or is decoded and a table has such a code |
| `JpegLimits.SmallFilesNeverPanic` | chgksuite/imgconv/jpegopt.go:58-80 | a file below the size that could spell 9227464 records does if and only if its scan comes to a selector out of range |
| `JpegWitnesses.BadSelectorPanics` | chgksuite/imgconv/jpegopt.go:217-245 | a file of 25 bytes whose scan header selects table 15 stops the program |
| `JpegWitnesses.TwoFramesAreRefused` | chgksuite/imgconv/jpegopt.go:168-195 | a file with two frame headers is re-coded, and its new form is refused |
| `CompoundFile.LegalChainIsDistinct` | chgksuite/docread/cfb.go:195-222 | a chain that reaches the end mark never visits a sector twice |
| `CompoundFile.LegalChainIsShort` | chgksuite/docread/cfb.go:195-222 | it has no more sectors than the file and the FAT |
| `CompoundFile.ChainReadsLegalChains` | chgksuite/docread/cfb.go:195-222 | without a size, reading succeeds exactly on a legal chain, and gives its sectors in order; the step limit refuses none |
| `CompoundFile.SizedChainExactly` | chgksuite/docread/cfb.go:195-222 | with a size, reading succeeds exactly when the sectors followed until enough hold that many bytes, and gives the first so many |
| `CompoundFile.SizedStream` | chgksuite/docread/cfb.go:195-222 | on a legal chain the first bytes asked for are read, or it is refused as too short |
| `CompoundFile.MiniStreamReadsLegalChains` | chgksuite/docread/cfb.go:224-238 | the same for a small stream and the mini FAT |
| `CompoundFile.MiniStreamHasSize` | chgksuite/docread/cfb.go:224-238 | a small stream that is read has exactly the size asked for, whatever the mini FAT holds |
| `CompoundFile.MiniStreamExactly` | chgksuite/docread/cfb.go:224-238 | a small stream is read exactly when the mini sectors followed within the limit hold enough, and is their first bytes; a circle is followed too |
| `CompoundFile.MiniStreamIsBounded` | chgksuite/docread/cfb.go:224-238 | it is no larger than one mini sector more than the mini FAT has entries |
| `CompoundFile.Cfb.ReadSector` | chgksuite/docread/cfb.go:185-191 | a sector lies behind the header, and is refused past the end of the file |
| `CompoundFile.Cfb.ReadFatChain` | chgksuite/docread/cfb.go:195-222 | the loop reads the chain |
| `CompoundFile.Cfb.ReadMiniChain` | chgksuite/docread/cfb.go:224-238 | the loop reads the chain of the mini stream |
| `CompoundDirectory.ReadDirectory` | chgksuite/docread/cfb.go:136-164 | the stack walk visits the entries as its recursive form does |
| `CompoundDirectory.DirectoryIsRead` | chgksuite/docread/cfb.go:136-164 | the walk succeeds exactly when the links form a tree without sharing whose streams have legal names, and then indexes every one |
| `CompoundDirectory.IndexedNames` | chgksuite/docread/cfb.go:136-164 | the names found are exactly those of the streams visited |
| `CompoundDirectory.StreamIsFound` | chgksuite/docread/cfb.go:136-164 | a name leads to its entry's chain, the last visited of equal names winning |
| `CompoundOpen.DifatWalk` | chgksuite/docread/cfb.go:76-97 | the list of FAT sectors is refused only where its chain leaves the file before there are enough ids; the limit on turns never fires |
| `CompoundOpen.DifatIsRead` | chgksuite/docread/cfb.go:76-97 | where the chain is whole, the ids are those of the header and then of its sectors, as many as the header says |
| `CompoundOpen.FatIsRead` | chgksuite/docread/cfb.go:98-106 | the FAT is read exactly when all its sectors lie in the file, and has all their words |
| `CompoundOpen.FatEntry` | chgksuite/docread/cfb.go:98-106 | the i-th word of the j-th FAT sector is in its place |
| `CompoundOpen.ListFatSectors` | chgksuite/docread/cfb.go:76-97 | the loops over header and DIFAT sectors build that list |
| `CompoundOpen.LoadFat` | chgksuite/docread/cfb.go:98-106 | the loop loads the FAT of the listed sectors |
| `CompoundOpen.OpenCfb` | chgksuite/docread/cfb.go:58-166 | opening reads header, FAT, directory and mini stream, or tells a foreign file from a broken one |
| `CompoundNames.OpenedHeader` | chgksuite/docread/cfb.go:58-75 | a file that opens begins with the signature, a version and its sector size, and the size of the mini sectors |
| `CompoundNames.Utf16InvertsUnits` | chgksuite/docread/cfb.go:158-163 | decoding the 16-bit units of a text gives the text |
| `CompoundNames.UnitsInvertUtf16` | chgksuite/docread/cfb.go:158-163 | units come back from the text they decode to if and only if no half of a pair stands alone |
| `CompoundNames.WordsInvertBytes` | chgksuite/docread/cfb.go:136-163 | 16- and 32-bit words are read with the low byte first |
| `CompoundNames.StreamEntryIsRead` | chgksuite/docread/cfb.go:148-163 | the bytes of a stream entry are read as its name, links, start and size |
| `CompoundNames.NamesAreIndexed` | chgksuite/docread/cfb.go:132-166 | the streams of an opened file are those its directory tree visits |
| `CompoundNames.WrittenIsIndexed` | chgksuite/docread/cfb.go:132-166 | a stream entry that is visited is indexed by opening under exactly its text, with its start and size, unless one visited later has the same name |
| `CompoundOpen.ChainIsShort` | chgksuite/docread/cfb.go:195-222 | a chain gives no more bytes than the file has, whatever the FAT holds |
| `CompoundOpen.OpenIsBounded` | chgksuite/docread/cfb.go:54-57 | no table an opened file takes is larger than the file |
| `CompoundWitness.StreamIsBounded` | chgksuite/docread/cfb.go:54-57 | a stream that is read is larger than the file exactly when its declared size is; only a small one can be, and by sixteen times at most |
| `CompoundWitness.StreamLargerThanFile` | chgksuite/docread/cfb.go:224-238 | a file of 2560 bytes has a small stream of 8256 bytes |
| `CompoundOpen.LargeStreamIsRead` | chgksuite/docread/cfb.go:169-183 | a large stream of an opened file is the first bytes of its chain, or refused when the chain is too short |
| `CompoundOpen.SmallStreamIsRead` | chgksuite/docread/cfb.go:169-183 | the same for a small stream |
| `HandoutLayout.GcdLoop` | chgksuite/handout/splitfit.go:293-301 | the loop computes the greatest common divisor |
| `HandoutLayout.GcdDivides` | chgksuite/handout/splitfit.go:293-301 | it divides both |
| `HandoutLayout.CommonDivides` | chgksuite/handout/splitfit.go:293-301 | every common divisor divides it |
| `HandoutLayout.WholeTeams` | chgksuite/handout/splitfit.go:285-291 | columns times rows hold whole teams if and only if the row step divides the rows |
| `HandoutLayout.GetCutDirection` | chgksuite/handout/handout.go:320-354 | finds the layout of the preferred direction that tiles the grid with whole teams, and none only when there is none |
| `HandoutLayout.TeamBlock` | chgksuite/handout/handout.go:320-354 | on a grid of whole teams that layout is (gcd(c,n), n/gcd(c,n)), or vertically (n/gcd(r,n), gcd(r,n)) |
| `HandoutLayout.AllQ` | chgksuite/handout/splitfit.go:303-320 | one team's grid holds exactly its handouts in the widest divisor not above the columns |
| `HandoutPages.PackPages` | chgksuite/handout/pack.go:34-67 | counts pages for a single block, the fewest unless it counts one too many, three to a team unless said otherwise, and tells several blocks, none and an empty grid apart |
| `Floats.FloatIsNear` | chgksuite/handout/pack.go:65-66 | rounding to double precision is off by half a unit in the last place at most |
| `Floats.FloatIsAbove` | chgksuite/handout/pack.go:65-66 | a quotient just above a whole number rounds above it exactly when it is more than half a unit away |
| `HandoutPages.Computed` | chgksuite/handout/pack.go:65-66 | when n pages are needed the two rounded divisions give n, or n + 1 exactly on an overcounted grid |
| `HandoutPages.PagesAreFewest` | chgksuite/handout/pack.go:65-66 | the pages are the fewest that hold the handouts of one team more if and only if the grid is not overcounted, and one too many if it is |
| `HandoutPages.WholeTeamPages` | chgksuite/handout/pack.go:65-66 | a page of whole teams is never overcounted: the pages are the fewest whose teams are enough |
| `HandoutPages.SixteenForFifteen` | chgksuite/handout/pack.go:65-66 | seven on a page, five to a team, twenty teams: 16 pages where 15 hold the handouts |
| `HandoutFit.Probe` | chgksuite/handout/splitfit.go:387-398 | asks the typesetter once for each number of steps, and remembers the answer |
| `HandoutFit.FitRows` | chgksuite/handout/splitfit.go:377-435 | the rows fit and one step more fails or is past 256; the errors for too large a step and a smallest count that does not fit are exact, a compile error comes only of an unanswered question; at most 2 log2(256/step) + 1 questions |
| `HandoutFit.BlankIsShareOfRow` | chgksuite/handout/splitfit.go:535-553 | shrinking is tried when the blank strip under the one page is more than the given share of a row, which is what the rows take up divided among them |
| `HandoutFit.FittedIsLargest` | chgksuite/handout/splitfit.go:377-435 | when page counts grow with rows, it is the largest number of rows that fits, and every smaller one fits |
| `HandoutFit.FittedRowsCutIntoTeams` | chgksuite/handout/splitfit.go:285-291 | the rows found always cut into whole teams, and a layout is found |
| `HandoutFit.MaxResizeForRows` | chgksuite/handout/splitfit.go:555-572 | the size found still fits the rows, and the next size known to be too large is as near as the halvings allow |
| `HandoutFit.ShrinkForRow` | chgksuite/handout/splitfit.go:506-523 | tries the sizes of the shrinking sequence in order until one fits another row or the least size is reached |
| `HandoutFit.ShrinkStep` | chgksuite/handout/splitfit.go:506-509 | a step takes off at least a fixed amount, or reaches the least size: why shrinking ends |
| `HandoutFit.NoShrinkNoProgress` | chgksuite/handout/splitfit.go:493-509 | with a percentage of 0 or less no number of steps makes the image smaller |
| `HandoutFit.ShrinkingEndsExactly` | chgksuite/handout/splitfit.go:493-521 | some trial size comes within the tolerance of the least one if and only if the percentage is above 0; for a least size below 0, if and only if the sizes descend to it |
| `HandoutFit.FitBlock` | chgksuite/handout/splitfit.go:477-533 | ends with rows strictly growing; the size stays within its bounds; the rows fit; it stops only when nothing is left to gain, and fails only when an answer is missing |
| `LineWrapping.GreedyIsOptimal` | chgksuite/pptx/layout.go:106-150 | full lines are no more than the lines of any cutting that lets only single words be too wide |
| `LineWrapping.BrokenLinesAreBest` | chgksuite/pptx/layout.go:106-150 | breaking keeps every unbreakable token once and in order, only a line of one is too wide, and no cutting has fewer lines |
| `LineWrapping.TokenWidth` | chgksuite/pptx/layout.go:152-162 | the sum of the widths, if all can be measured |
| `LineWrapping.BreakLine` | chgksuite/pptx/layout.go:112-147 | cuts one explicit line into full lines and tracks the widest token |
| `LineWrapping.LayoutLines` | chgksuite/pptx/layout.go:106-150 | breaks every explicit line in order, failing exactly on a token that cannot be measured; the lines of the paragraph are the best |
| `LineWrapping.WidestIsLargest` | chgksuite/pptx/layout.go:106-150 | the second result is the largest width of a token that cannot be broken, or 0 |
| `LineWrapping.ParagraphIsBest` | chgksuite/pptx/layout.go:106-150 | over the whole paragraph every token comes once and in order, only a line of one is too wide, and no cutting that keeps the explicit lines apart has fewer lines |
| `SlidePackage.LowestFree` | chgksuite/pptx/pkg.go:169-177 | the lowest number from 1 on whose name is free, found within one more than the names taken |
| `SlidePackage.Package.NextPartName` | chgksuite/pptx/pkg.go:169-177 | the first slide name no part has |
| `SlidePackage.Package.NextImageName` | chgksuite/pptx/pkg.go:179-200 | the first number no picture has, whatever its extension; the name is free |
| `SlidePackage.Package.NextSlideId` | chgksuite/pptx/pkg.go:202-214 | one past the highest slide id, and at least 256 |
| `SlidePackage.Package.NextPresRelId` | chgksuite/pptx/pkg.go:216-223 | the first relationship id the presentation does not use |
| `SlidePackage.Package.AddSlide` | chgksuite/pptx/pkg.go:148-167 | adds a slide with a fresh part, slide id and relationship, and keeps every name and id unique |
| `SlidePackage.Package.RemoveSlide` | chgksuite/pptx/pkg.go:225-241 | takes out the slide, its relationship and its two parts, and nothing else; the package stays sound |
| `SlidePackage.Package.Put` | chgksuite/pptx/pkg.go:318-323 | stores a part; the order lists exactly the parts, each once |
| `SlidePackage.Package.AddImage` | chgksuite/pptx/pkg.go:258-277 | equal bytes share one part; the slide refers to it once, by the id returned |
| `SlidePackage.Slide.AddRel` | chgksuite/pptx/pkg.go:279-283 | relationship ids of an added slide stay 1, 2, ... |
| `SlidePackage.NumberedAreDistinct` | chgksuite/pptx/pkg.go:279-283 | so they are distinct |
| `SlidePackage.RelatedOnce` | chgksuite/pptx/pkg.go:258-283 | an id of an added slide stands for one picture only |
| `SlidePackage.SlideRemoved` | chgksuite/pptx/pkg.go:225-241 | the slides left still resolve to parts of their own |
| `SlidePackage.MediaStays` | chgksuite/pptx/pkg.go:225-241 | removing a slide never removes a picture |
| `SlidePackage.ImageNumberOf` | chgksuite/pptx/pkg.go:179-200 | the number in a picture's name is read back |
| `ServiceSlides.CloneSlide` | chgksuite/pptx/slides.go:514-529 | a clone has the same layout, pictures and links under new ids, and the map leads from the old ids to the new |
| `ServiceSlides.SortDesc` | chgksuite/pptx/slides.go:549-557 | sorts in place, highest first, keeping every element |
| `ServiceSlides.PrepareIndices` | chgksuite/pptx/slides.go:471-499 | refuses exactly a position that is none; otherwise gives each configured one once, highest first |
| `ServiceSlides.DropLower` | chgksuite/pptx/slides.go:531-535 | dropping a position below all those dropped is dropping it from what is left |
| `ServiceSlides.RemoveServiceSlides` | chgksuite/pptx/slides.go:531-535 | leaves the other slides of the template, then those added, in order, in a sound package |
| `WarmupHoisting.HoistWarmups` | chgksuite/dbtext/dbtext.go:59-87 | ends, though the list grows and is rewound: every warm-up has its own numbered heading and stands right after it, the pair before the heading of the tour it was in, in a determined order, renumbered; the rest keeps its order with info blocks merged |
| `WarmupHoisting.RunBecomesOne` | chgksuite/dbtext/dbtext.go:66-73 | a run of info blocks becomes one with their texts on lines of their own in order, and any other element stays |
| `WarmupHoisting.WarmupNumbers` | chgksuite/fsource/compose.go:99-112 | a number makes a warm-up if and only if it is 0, or a text that begins with 0 or with the beginning of the word |
| `WarmupHoisting.HoistNext` | chgksuite/dbtext/dbtext.go:74-84 | taking the question out and putting it back with its heading at the tour's start keeps the walk's invariant |
| `WarmupHoisting.OrderedInserted` | chgksuite/dbtext/dbtext.go:77-83 | the new pair stands after the pairs that lead its tour or belong to earlier ones, and before the others |
| `WarmupHoisting.WarmupIsQuestion` | chgksuite/fsource/compose.go:99-112 | a warm-up is a question, and is none once renumbered |
| `SourceText.LinesOfJoined` | chgksuite/fsource/parse.go:352-352 | splitting joined lines gives the lines |
| `SourceText.JoinedLines` | chgksuite/fsource/parse.go:217-226 | joining the lines of a text gives the text |
| `SourceText.TidyStays` | chgksuite/fsource/parse.go:161-174 | trimming leaves lines without outer white space as they are, also after a blank |
| `SourceText.RaggedIsTidied` | chgksuite/fsource/parse.go:161-174 | lines with white space around them and around the breaks between them are trimmed to the lines |
| `SourceText.FirstFieldIs` | chgksuite/fsource/parse.go:176-183 | the first token of a line is what stands before its first space |
| `SourceMarkers.PrefixIsRead` | chgksuite/fsource/compose.go:10-19 | every printed marker is read as its type, except that tours are read as sections |
| `SourceMarkers.MarkersArePlain` | chgksuite/fsource/parse.go:111-135 | markers are single tokens without backslashes |
| `SourceMarkers.UnescapeInvertsEscape` | chgksuite/fsource/parse.go:202-227 | on every line the parser takes back exactly the backslash the printer added |
| `SourceMarkers.EscapedIsNoMarker` | chgksuite/fsource/parse.go:213-227 | no escaped line begins with a marker |
| `SourceMarkers.EscapeIsInjective` | chgksuite/fsource/parse.go:213-227 | different lines are escaped differently |
| `SourceMarkers.EscapeValue` | chgksuite/fsource/parse.go:216-227 | the loop escapes every line but the first |
| `SourceCounters.AtoiOfDecimal` | chgksuite/fsource/parse.go:279-289 | every 64-bit number is read back as written |
| `SourceCounters.AtoiIsClamped` | chgksuite/fsource/parse.go:279-289 | a number that does not fit 64 bits is none, and a counter is set to the nearest that does |
| `SourceCounters.ReplacingShrinks` | chgksuite/fsource/parse.go:262-271 | replacing a macro leaves fewer letters S: why expansion ends |
| `SourceCounters.ReplaceCounters` | chgksuite/fsource/parse.go:258-290 | expansion ends and leaves no counter, even one formed by an expansion |
| `SourceCounters.NoCounterStays` | chgksuite/fsource/parse.go:262-271 | text without counters is left alone |
| `SourceCounting.UsesAreNumbered` | chgksuite/fsource/parse.go:262-290 | uses of a counter become its numbers one after the other, from 1 when it is not set, and the text around them stays |
| `SourceCounting.SetThenNumbered` | chgksuite/fsource/parse.go:262-290 | after a setting, which leaves nothing, the counter goes on from the number it was set to |
| `SourceParser.ProcessList` | chgksuite/fsource/parse.go:295-334 | cuts text into the items that its dash lines open |
| `SourceParser.DeleteUndoesSet` | chgksuite/fsource/parse.go:58-77 | keys stay the fields, each once; deleting a new field undoes setting it |
| `SourceParser.Draft.Set` | chgksuite/fsource/parse.go:72-77 | sets a field, and appends its key when it is new |
| `SourceParser.Draft.Delete` | chgksuite/fsource/parse.go:58-70 | removes a field and its key, keeping the order of the others |
| `SourceParser.Emit` | chgksuite/fsource/parse.go:376-395 | finishes a question that has a question and an answer, numbering and counting it, and leaves any other |
| `SourceParser.ReadLines` | chgksuite/fsource/parse.go:350-369 | the loop reads the raw elements of the lines |
| `SourceParser.ApplyOverrides` | chgksuite/fsource/parse.go:518-565 | takes the labels off the fields of every question |
| `SourceParser.Parse` | chgksuite/fsource/parse.go:341-439 | the loops give the document that the phases give one after another |
| `SourceMerge.RunPieces` | chgksuite/fsource/parse.go:441-482 | a field given in pieces of text, or of lists with introductions, is the field given at once |
| `SourceMerge.PiecesAreWhole` | chgksuite/fsource/parse.go:441-482 | such a field may be cut into pieces behind marks of their own anywhere in a source: what is parsed is the same |
| `SourceMerge.SplitQuestionComesBack` | chgksuite/fsource/parse.go:441-482 | a printed question, one of its fields in pieces behind marks of their own, comes back with the whole value |
| `SourceMerge.PairsOfPieces` | chgksuite/fsource/parse.go:441-482 | what two pieces of any kinds give: texts and introductions are joined by line breaks, items run on, and a list without introduction joins its first item to what is beside it |
| `SourceMerge.PiecesAreKept` | chgksuite/fsource/parse.go:441-482 | two pieces lose nothing if and only if no list stands without an introduction beside another list, or behind a text with more than two items |
| `SourceLaws.OneItemIsText` | chgksuite/fsource/parse.go:295-334 | lines of which only one opens with a dash are no list: the dash goes and the text stays |
| `SourceLaws.LastBreakIsFree` | chgksuite/fsource/parse.go:431-435 | a source means the same with and without a line break at its end |
| `SourceLaws.MarkIsFree` | chgksuite/fsource/parse.go:342-346 | a byte order mark at the head of a source changes nothing |
| `SourceLaws.LabelOnList` | chgksuite/fsource/parse.go:518-565 | a label on a list is the first word of its introduction or first item, and a tilde in it is a blank |
| `SourceLaws.NumberAfter` | chgksuite/fsource/parse.go:417-428 | numbers start again at 10 after a theme, at 1 where the game has it so, and otherwise go on |
| `SourceLaws.SqueezedIs` | chgksuite/fsource/compose.go:55-57 | printing loses the empty lines of a value and nothing else |
| `SourceComposer.ComposeQuestion` | chgksuite/fsource/compose.go:152-186 | writes the number line that SourceNumbers.NumberLineExactly describes, then the fields in their fixed order |
| `SourceComposer.Compose` | chgksuite/fsource/compose.go:133-189 | the loop writes the elements, tracking whether a number other than zero has been seen |
| `SourceNumbers.NumberExactly` | chgksuite/fsource/compose.go:116-131 | trimming and reading a text as a number finds the number it spells, and none when it spells none |
| `SourceNumbers.NumberLineExactly` | chgksuite/fsource/compose.go:157-170 | a text that begins with 0 or spells no number is written as the number; a number above 1 on the first question that counts as what to count from; no other |
| `SourceNumbers.CountedLine` | chgksuite/fsource/compose.go:157-170 | so 0 is always written, a first number above 1 as what to count from, and 1 never |
| `SourceNumbers.ComposedIs` | chgksuite/fsource/compose.go:136-189 | the source is the text of the elements one after the other, each told whether a number has counted before it |
| `SourceNumbers.DefaultRoundTrip` | chgksuite/fsource/compose.go:133-135 | with default numbers, warm-ups numbered 0 and questions numbered from 1 on without handouts come back |
| `SourceNumbers.CountedRoundTrip` | chgksuite/fsource/compose.go:165-170 | numbered from a later number on they come back too, and the first that counts says from where |
| `SourceValues.FormatLines` | chgksuite/fsource/compose.go:59-87 | a value in normal form is written on its own lines, escaped after the first |
| `SourceValues.NothingToSqueeze` | chgksuite/fsource/compose.go:55-57 | text without empty lines inside is not changed by dropping double line breaks |
| `SourceValues.ValueIsRead` | chgksuite/fsource/parse.go:350-369 | those lines are read as one raw element with the value's own text |
| `SourceValues.ChunksAreItems` | chgksuite/fsource/parse.go:305-325 | the items of a list are cut apart where they were joined |
| `SourceValues.ListedReadsBack` | chgksuite/fsource/parse.go:295-334 | text, list and introduced list are read back as what they were |
| `SourceRoundTrip.FieldLinesAre` | chgksuite/fsource/compose.go:175-185 | a printed field has the lines of its value with the label in front |
| `SourceRoundTrip.ElementIsRead` | chgksuite/fsource/parse.go:350-369 | the lines of a printed element are read as its raw elements |
| `SourceReparse.DocTextLines` | chgksuite/fsource/compose.go:136-189 | the lines of a printed document are those of its elements, each ended by an empty line |
| `SourceReparse.PrintedIsRead` | chgksuite/fsource/parse.go:343-369 | no mark is stripped and no counter expanded in a printed document; its raw elements are those of its elements |
| `SourceReparse.RunUnnumbered` | chgksuite/fsource/parse.go:400-408 | without a number line the handout of a question becomes an element of its own |
| `SourceReparse.ParsePrinted` | chgksuite/fsource/parse.go:343-439 | what parsing makes of a printed document, under each way of writing numbers |
| `SourceKeeps.LabelComesOff` | chgksuite/fsource/parse.go:518-565 | a label without blank and tilde is read back as written |
| `SourceKeeps.BlankInLabelIsLost` | chgksuite/fsource/parse.go:544-561 | a label with a blank is not |
| `SourceKeeps.ListLabelIsLost` | chgksuite/fsource/parse.go:544-561 | a label on a list without an introduction is read as the introduction |
| `SourceKeeps.QuestionComesBack` | chgksuite/fsource/compose.go:152-186 | a question comes back exactly when its number is written, or is the one counted to |
| `SourceKeeps.RoundTrip` | chgksuite/fsource/compose.go:133-135 | a document in normal form comes back, up to the order of fields and numbers as text, if and only if every question keeps its number |
| `SourceKeeps.RoundTripWithNumbers` | chgksuite/fsource/compose.go:133-135 | with all numbers written every document in normal form comes back |
| `SourceKeeps.PrintingIsStable` | chgksuite/fsource/compose.go:133-135 | printing what was parsed back gives the same source |
| `SourceKeeps.HandoutIsLost` | chgksuite/fsource/parse.go:402-403 | with default numbers a question numbered 1 with a handout does not come back |
| `CreditsNumbering.RangesPartition` | chgksuite/credits/credits.go:576-589 | consecutive tours: a question belongs to a tour exactly when it lies between the ends, and to one only |
| `CreditsNumbering.RangesFollow` | chgksuite/credits/credits.go:576-589 | the ranges of tours follow one another |
| `CreditsNumbering.HeadingKeeps` | chgksuite/credits/credits.go:558-574 | a heading keeps the invariant, taking back a false tour before it |
| `CreditsNumbering.CountKeeps` | chgksuite/credits/credits.go:576-595 | numbering a question keeps the invariant |
| `CreditsNumbering.StepKeeps` | chgksuite/credits/credits.go:534-554 | every step of the walk keeps the invariant |
| `CreditsNumbering.FileIsWellNumbered` | chgksuite/credits/credits.go:527-556 | tours partition the questions after the leading ones, authors increase, and a paragraph points to the question after it exactly when its tour has that question |
| `CreditsPacket.Packet.OpenTour` | chgksuite/credits/credits.go:558-574 | opens a tour and says which paragraphs still wait |
| `CreditsPacket.Packet.AddQuestion` | chgksuite/credits/credits.go:576-595 | numbers the waiting paragraphs, the tour's range and the author |
| `CreditsPacket.FromDoc` | chgksuite/credits/credits.go:527-556 | the loop walks the document, keeping the invariant |
| `CreditsContents.FileTells` | chgksuite/credits/credits.go:527-595 | what a document gives: exactly its questions outside warm-ups and not numbered 0, its headings but the false ones as tours with the numbers under them, and its credits with their texts, places and the questions before them, in order |
| `CreditsContents.AuthorsExactly` | chgksuite/credits/credits.go:586-594 | the authors are exactly those of numbered questions that have one, each with the question's number, in order |
| `CreditsContents.OneAuthor` | chgksuite/credits/credits.go:590-594 | a single question is numbered and its author kept |
| `CreditsPacket.NextLiesInTour` | chgksuite/credits/credits.go:46-57 | a tour paragraph's next question lies in its tour; the preamble's is at most the first of the tours |
| `CreditsPacket.DropAuthors` | chgksuite/credits/credits.go:636-647 | forgets the authors of the first questions and renumbers the others |
| `CreditsPacket.KeptExactly` | chgksuite/credits/credits.go:636-647 | the authors kept are exactly those of later questions, with their new numbers |
| `CreditsPacket.CountBeforeTours` | chgksuite/credits/credits.go:626-634 | the questions before the first tour that has any |
| `CreditsPacket.DropLeadingWarmup` | chgksuite/credits/credits.go:597-624 | drops the leading questions when it should, and leaves the file well numbered |
| `CreditsPacket.DroppingKeeps` | chgksuite/credits/credits.go:597-624 | after dropping, the ranges partition all questions from 1, and paragraphs and authors agree |
| `CreditsMerge.Merge` | chgksuite/credits/credits.go:664-717 | the loops join the files and cut the result to its limits |
| `CreditsJoined.JoinedSources` | chgksuite/credits/credits.go:674-707 | the joined packet has the questions of all files, and their names in order |
| `CreditsJoined.JoinedAuthors` | chgksuite/credits/credits.go:701-705 | its authors are exactly those of the files, with questions numbered through and texts cut to 500 |
| `CreditsJoined.JoinedTours` | chgksuite/credits/credits.go:674-687 | its tours are those of the files in order, moved and cut to 200; a later file without headings is a tour named after it |
| `CreditsJoined.JoinedTexts` | chgksuite/credits/credits.go:688-700 | its paragraphs are those of the files in order, but for those of more than 3000 characters |
| `CreditsPointers.MovedPoints` | chgksuite/credits/credits.go:688-700 | a moved paragraph points into the tour it is in, except one of a later preamble that was followed by a question outside the first tour |
| `CreditsPointers.JoinedPointsExactly` | chgksuite/credits/credits.go:46-51 | every paragraph of a tour in the joined packet points to a question of that tour or to none, if and only if no later file has a preamble paragraph that strays |
| `CreditsPointers.PreambleStrays` | chgksuite/credits/credits.go:692-697 | two files whose packet has a credit in the warm-up that points into the next tour |
| `CreditsMerge.JoinedIsSound` | chgksuite/credits/credits.go:674-707 | ranges increase within the questions, authors increase, every paragraph stands in a tour there is and points to a question there is |
| `CreditsMerge.JoinedPartition` | chgksuite/credits/credits.go:674-707 | when every file begins with a tour, the ranges partition all questions |
| `CreditsMerge.CappedKeeps` | chgksuite/credits/credits.go:708-717 | cutting keeps order and bounds; paragraphs keep their tours if and only if there are no more than 100 tours or none of the first 500 paragraphs stands beyond the hundredth |
| `CreditsPointers.CreditIsCutLoose` | chgksuite/credits/credits.go:708-717 | a credit under the last of 101 headings loses its tour |

## Left out

- Frequencies are unbounded numbers: the 32-bit counters of `chgksuite/imgconv/jpegopt.go:409-417` cannot wrap below
  2^31 records, that is in files under 256 MB.
- Progressive scans, restart intervals and everything else the JPEG reader refuses are refused here too; pixel data and
  the image codec are not modelled.
- `sort.SliceStable` in `chgksuite/imgconv/jpegopt.go:483` is a function that inserts each symbol behind those of equal
  size, proved sorted and stable.
- Floating point: page counts are computed in double precision, without overflow; widths and sizes are real numbers, so
  rounding is not covered there.
- HandoutPages.PagesAreFewest: for up to 2^50 handouts on a page and in all, where whole numbers are exact.
- The typesetter, its measurement and token widths are arbitrary functions; rendering, `upsertMeta`, `with`,
  `formatFloat` and the parsing of block headers are not modelled.
- HandoutPages.PackPages: takes blocks as maps of their integer settings; parsing the text of a block is not modelled.
- HandoutFit.FitBlock: requires a positive shrink percentage, without which the loop of the source does not come to the
  least size (HandoutFit.ShrinkingEndsExactly), and a least size that is not negative.
- HandoutFit.ShrinkForRow: requires the same.
- HandoutFit.FitRows: which unanswered question leads to a compile error is not said.
- LineWrapping: the splitting of runs into tokens, `fits`, `shrink` and `setSizes` depend on font measurement.
- CompoundOpen: storages below the root are not indexed in the source, nor here.
- CompoundOpen.LargeStreamIsRead: for files below 4 GB, whose sectors have 32-bit numbers.
- CompoundOpen.SmallStreamIsRead: for files below 4 GB, in the same way.
- CompoundWitness.StreamIsBounded: for files below 4 GB, in the same way.
- SourceCounting.UsesAreNumbered: for texts in which something other than a letter, digit or underscore follows each use,
  and none ends in what would make a use a setting; that expansion ends is proved for all texts.
- SourceNumbers.NumberLineExactly: for numbers given by the parser that fit 64 bits, as all of the source's do.
- SourceMerge.PiecesAreWhole: for sources without counters and byte order mark.
- JpegHeaders.HeaderIsRead: for the first frame header of a file.
- SourceParser.Parse: a theme keeps its text; the objects that `numberThemes` (`chgksuite/fsource/parse.go:488-516`) makes
  of themes are not modelled, and themes are not part of the normal form.
- SourceParser.Draft: the loops of the parser set fields on the object; finished questions are kept as values.
- SourceComposer.Compose: an element of an unknown type, which the source skips, has no counterpart in the types here.
- SourceKeeps.RoundTrip: normal form means a question, an answer and a number; tidy lines without counters, none of them
  opening with a dash but the first of an item; lists of two items or more; labels without blank and tilde, not on a
  list without an introduction; texts that do not begin with a label by themselves.
- Strings are sequences of code points, and text that is not valid UTF-8 is not modelled.
- CreditsPacket.DropLeadingWarmup: takes a file that the walk has numbered, as its only callers do.
- CreditsMerge.Merge: begins after the files are ordered, because the comparison at `chgksuite/credits/credits.go:656-663`
  is not transitive when only some files have a tour number; a file's name without folders and extension is given.
- Reading documents into entries, choosing files in an archive and detecting the language are not modelled.
- SlidePackage.Package.AddImage: the digest of the bytes is given; that different bytes have different digests is not
  claimed.
- SlidePackage: reading a template's XML is left out; a template must begin with distinct slide ids of at least 256 and
  with slides that are parts under `ppt/slides/`. Writing XML and the content types are left out.
- ServiceSlides.CloneSlide: replacing ids inside the copied XML is left out.
- WarmupHoisting: the content of an info block is its text, and of a question only its number is looked at.
- Exporters that only concatenate markup, network, processes and user interfaces are not modelled.
