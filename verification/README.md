# Models of five hard corners of busybox 1.1.3

The project models code of busybox 1.1.3 whose results are hard to see from the code alone, and proves what that code
is for. Each group of modules follows one applet.

* **gzip** (`archival/gzip.c`), whole: reading the input in pieces, the sliding window with its hash chains, the
  search for matches and the lazy choice between them, the buffer of literals and pairs, the three Huffman trees, the
  run-length code for the code lengths, the choice of the block type, the bit buffer, the CRC and the gzip file. The
  decoder in `Inflate`, which follows RFC 1951, and the file format in `GzipFormat`, which follows RFC 1952, are
  written independently of the compressor and are the reference for it. Main result: whatever the input and however
  the reads cut it up, decompressing the output gives the input back (`Zip.ZipFile`); and the tokens and blocks of the
  whole run are those that the lazy rule and `ct_tally` call for (`Deflate.DeflateAll`).
* **fsck -A** (`e2fsprogs/fsck.c`): the scheduler that runs checks of several disks at the same time. The trace of
  starts and exits is the reference; `CheckAll` is proved for every order in which the children end and for an
  interrupt at any point: no two checks share a disk, and none that could run has to wait.
* **awk** (`editors/awk.c`): the operator-precedence parser, which links nodes through parent pointers, against a
  grammar that only says which trees the priorities allow; and the allocator of temporary variables.
* **dpkg** (`archival/dpkg.c`): the three open hash tables and the test of dependencies, against a declarative meaning
  of "this dependency is met".
* **expr** (`coreutils/expr.c`): the evaluator that works on the argument list as it goes, against parsing to a tree
  and evaluating the tree.

Classes and methods stand for the code that updates variables, arrays and linked nodes; functions, predicates and
lemmas say what they are for. Many predicates about large states are sealed: they read `forall k :: Sealed(k) ==> ...`
and are opened with `assert Opened(...)`. The seal is a true condition, so a sealed predicate says exactly what stands
behind the arrow; it only keeps the solver from looking inside where that is not needed.

## Findings

Properties that one would expect and that the code does not have, each with the exact condition.

* **Comparing integers in expr.** `cmp_common` keeps the difference of two integers in an `int`, so 4294967296 equals
  0 (`ExprValue.ComparisonWraps`). All comparisons are right if and only if the difference keeps its sign in the low
  32 bits (`ExprValue.ComparisonExact`); differences that fit in 32 bits do.
* **Empty groups in awk.** `()` where an operand is wanted makes `parse_expr` write through a null pointer
  (`AwkShape.EmptyGroupCrashes`). It happens if and only if an empty group stands where a scan from left to right,
  which keeps no more than the number of open groups and what may come next, wants an operand (`AwkScan.CrashIff`).
* **Shortest block in gzip.** `flush_block` does not count the padding in front of a stored block. A file of the
  fifteen bytes 241 to 255 is stored although the fixed codes take at least ten bits less
  (`StoredExample.StoredTooSoon`). The block sent ends no later than the other two if and only if the tests that chose
  it also hold with the padding counted (`BlockCoder.BestIff`), and it never ends more than two bytes after the
  shortest (`BlockCoder.BestWithinTwoBytes`).
* **Optimal Huffman codes in gzip.** Code lengths over the limit are cut off and repaired, which loses optimality. It
  happens if and only if no cheapest code keeps to the limit (`HuffmanHeight.CutIff`), so wherever the limit leaves a
  cheapest code, `build_tree` finds one (`HuffmanCoder.BuildTree`). A total frequency below Fib(limit + 3) is enough
  for that.
* **Comments that do not hold.** The comment in `build_tree` that a forced code is 0 or 1 is wrong, code 2 is forced
  as well when only symbol 1 occurs. The loop in `build_bl_tree` never runs down to its limit
  (`BlockHeader.SomeRank`). The priority byte of awk's `^` is odd, so it groups to the left.

One property that the code relies on without testing it:

* **A block never vanishes.** `flush_block` cannot store a block that began before the window does. It never needs to:
  with the buffer sizes of this build such a block is always longer stored than coded (`BlockCoder.NeverVanishes`).

## Model

Paths are relative to the root of the source tree.

| member | source | states |
|---|---|---|
| `Zip.ZipFile` | Src/busybox-1.1.3/archival/gzip.c:2438-2480 | for every file, time stamp and plan of reads, gunzip of the output is defined and gives exactly the bytes delivered; those are what the reads of the plan deliver up to the end of the file or the first one that fails, and the whole file if none fails; the header has the time stamp, and the codes for the slowest method and for Unix |
| `Input.WholeFile` | Src/busybox-1.1.3/archival/gzip.c:2488-2501 | if every read delivers something until the end, all of the file is delivered |
| `Zip.PutTrailer` | Src/busybox-1.1.3/archival/gzip.c:2472-2475 | CRC and length behind a finished stream complete a gzip file that unpacks to the data read |
| `Input.Reader.Read` | Src/busybox-1.1.3/archival/gzip.c:2488-2501 | the next bytes go to their place in the buffer and nowhere else; CRC and size go along with what has been delivered |
| `Crc.InitTable` | Src/busybox-1.1.3/archival/gzip.c:347-382 | every entry of the table is eight steps of the shift register, for any polynomial |
| `Crc.PolyTerms` | Src/busybox-1.1.3/archival/gzip.c:355 | the constant is the reflected polynomial of CRC-32: its terms one by one |
| `Crc.TableFeed` | Src/busybox-1.1.3/archival/gzip.c:376-378 | one table step is the same as feeding eight bits into the shift register |
| `Crc.UpdCrc` | Src/busybox-1.1.3/archival/gzip.c:347-382 | the register after a chunk is that of the bit-by-bit CRC |
| `Crc.FeedAppend` | Src/busybox-1.1.3/archival/gzip.c:347-382 | chunks fed one after the other give the CRC of the whole |
| `BitWriter.Writer.PutByte` | Src/busybox-1.1.3/archival/gzip.c:2507-2514 | the bytes output grow by this one, whether or not the buffer is written out |
| `BitWriter.Writer.SendBits` | Src/busybox-1.1.3/archival/gzip.c:486-506 | the stream grows by exactly the low bits of the value, lowest first, across the 16-bit buffer |
| `BitWriter.Writer.Windup` | Src/busybox-1.1.3/archival/gzip.c:527-539 | zero bits up to the byte boundary, after which stream and bytes agree |
| `BitWriter.Writer.CopyBlock` | Src/busybox-1.1.3/archival/gzip.c:545-562 | padding, the length and its complement, and the bytes |
| `MatchHash.RollHash` | Src/busybox-1.1.3/archival/gzip.c:793 | after three updates the hash depends on the last three bytes only |
| `MatchHash.ThirdByte` | Src/busybox-1.1.3/archival/gzip.c:901-907 | equal hashes and two equal bytes imply a third: the comparison may skip it |
| `MatchIndex.Inserted` | Src/busybox-1.1.3/archival/gzip.c:803-806 | after INSERT_STRING every chain still links each position to the last earlier one with the same hash |
| `MatchIndex.ChainsSlide` | Src/busybox-1.1.3/archival/gzip.c:987-1003 | moving the window by half keeps the chains of what remains |
| `MatchIndex.NoneBetween` | Src/busybox-1.1.3/archival/gzip.c:929-930 | following a chain misses no string that agrees in three bytes |
| `LongestMatch.Compare` | Src/busybox-1.1.3/archival/gzip.c:907-918 | the length found is that of the agreement, up to 258, though only bytes 0, 1 and 3 on are compared |
| `LongestMatch.LongestMatch` | Src/busybox-1.1.3/archival/gzip.c:860-933 | an improvement is a genuine match, the nearest of its length, among the last 4096 positions of the chain in reach (1024 after a good match); none of those is longer |
| `LongestMatch.SearchComplete` | Src/busybox-1.1.3/archival/gzip.c:860-933 | with no more positions of this hash in reach than that, no match in reach at all is longer: the result is that of a search of the whole window |
| `Matcher.Finder.InsertString` | Src/busybox-1.1.3/archival/gzip.c:803-806 | the index grows by one position, and the head returned is the last earlier position with this hash |
| `Matcher.Finder.Slide` | Src/busybox-1.1.3/archival/gzip.c:981-1004 | all positions drop by WSIZE and mean the same bytes of the input as before |
| `Matcher.Finder.FillWindow` | Src/busybox-1.1.3/archival/gzip.c:966-1015 | the window holds the end of the input, the index stays right, at least one byte is added unless the input has ended |
| `Matcher.Finder.LmInit` | Src/busybox-1.1.3/archival/gzip.c:811-845 | the window is filled and, unless the input is empty, indexed |
| `Lazy.FindMatch` | Src/busybox-1.1.3/archival/gzip.c:1043-1068 | a match longer than the previous one repeats bytes of the input; no candidate has a longer one, except those of three bytes that are given up as too distant |
| `MatchChoice.NoneInReach` | Src/busybox-1.1.3/archival/gzip.c:860-933 | when few enough positions share the hash, that holds of every position in reach, in terms of the input alone |
| `MatchChoice.SearchedInput` | Src/busybox-1.1.3/archival/gzip.c:1056-1067 | what the search in the window promises, cut to the bytes that are there, is true of the input |
| `Lazy.Next` | Src/busybox-1.1.3/archival/gzip.c:1039-1117 | an iteration emits nothing, a literal that is the next byte, or a pair that repeats the next bytes; a pair only if nothing longer was found where it begins nor at the next position; a literal only where no candidate has a match, or where something longer than the pending match was found at the next position |
| `LazyRule.NextRuled` | Src/busybox-1.1.3/archival/gzip.c:1039-1117 | the same rule as a property of the token and the input alone, without the state of the search |
| `LazyRule.RuledGrow` | Src/busybox-1.1.3/archival/gzip.c:1120-1126 | with the lookahead that the loop keeps, input that is read later does not change whether a token keeps to the rule |
| `Deflate.Iterate` | Src/busybox-1.1.3/archival/gzip.c:1039-1127 | blocks sent and tokens collected always stand for exactly the input up to the current position |
| `Deflate.DeflateAll` | Src/busybox-1.1.3/archival/gzip.c:1030-1132 | the stream becomes blocks, the last one marked, that decode to all that has been read; every other block ends after the first token at which ct_tally asks for it, each is sent in the best way for its tokens, and every token of the whole run keeps to the lazy rule in terms of the whole input |
| `TokenBuffer.Buffer.Add` | Src/busybox-1.1.3/archival/gzip.c:2289-2312 | the three buffers hold the tokens so far, and the flag bits tell them apart |
| `Coder.BlockEncoder.Tally` | Src/busybox-1.1.3/archival/gzip.c:2287-2337 | the token is kept and counted; the block ends when the buffer is full or the source's estimate is met |
| `Tables.InitLengths` | Src/busybox-1.1.3/archival/gzip.c:1654-1667 | every match length gets the code whose range, by RFC 1951, contains it |
| `Tables.InitDists` | Src/busybox-1.1.3/archival/gzip.c:1669-1685 | every distance gets, through the two halves of the table, the code whose range contains it |
| `Tables.InitStaticLits` | Src/busybox-1.1.3/archival/gzip.c:1687-1703 | the fixed lengths and codes of RFC 1951 |
| `Tables.FixedLitsComplete` | Src/busybox-1.1.3/archival/gzip.c:1687-1703 | the fixed literal lengths are a complete code |
| `HuffmanHeap.PqDownHeap` | Src/busybox-1.1.3/archival/gzip.c:1766-1788 | same nodes, and a heap from here on |
| `HuffmanMerge.MergeTwo` | Src/busybox-1.1.3/archival/gzip.c:1989-2007 | the first two nodes in the order of frequency and depth get a father with the sum of their frequencies and one more than the greater depth, and stand in front of the order of the tree |
| `HuffmanTies.TiedStep` | Src/busybox-1.1.3/archival/gzip.c:1752-1758 | merging keeps the queue order of all nodes, the depths, and frequencies at least as large as Fibonacci numbers of the depth, so that the depth fits in its byte |
| `HuffmanMerge.MergeAll` | Src/busybox-1.1.3/archival/gzip.c:1985-2011 | the heap becomes one tree over all symbols that occur, listed by falling frequency and depth, with the depth of every node |
| `HuffmanLeaves.ForceTwo` | Src/busybox-1.1.3/archival/gzip.c:1967-1976 | at least two symbols have a code, and the totals are corrected by what the forced ones cost |
| `HuffmanOptimal.TreeOptimal` | Src/busybox-1.1.3/archival/gzip.c:1938-2020 | no prefix code for these frequencies is cheaper than the depths of the tree |
| `HuffmanDepth.ShallowTree` | Src/busybox-1.1.3/archival/gzip.c:1823-1828 | with a total below Fib(m + 3) no depth exceeds m, so nothing is cut off |
| `HuffmanHeight.LeastHeight` | Src/busybox-1.1.3/archival/gzip.c:1752-1758 | of all cheapest code lengths those of the tree have the least maximum: what breaking ties by depth is for |
| `HuffmanHeight.CutIff` | Src/busybox-1.1.3/archival/gzip.c:1823-1828 | lengths are cut off if and only if no cheapest lengths keep to the limit |
| `HuffmanLengths.FirstPass` | Src/busybox-1.1.3/archival/gzip.c:1821-1843 | lengths are depths cut off at the limit, counted, with the number cut off and both totals |
| `HuffmanCounts.Repair` | Src/busybox-1.1.3/archival/gzip.c:1851-1862 | the loop ends with counts of a complete code for the same number of symbols within the limit, after half as many rounds as codes were cut off, each of which splits one of the longest codes below the limit |
| `HuffmanCounts.RoundsUnique` | Src/busybox-1.1.3/archival/gzip.c:1851-1862 | these rounds have one outcome |
| `HuffmanLengths.Reassign` | Src/busybox-1.1.3/archival/gzip.c:1869-1884 | the repaired counts are handed out, longer lengths to less frequent symbols, and the total follows |
| `HuffmanCoder.GenBitlen` | Src/busybox-1.1.3/archival/gzip.c:1800-1885 | a complete code of at most m bits for exactly the symbols that occur; optimal if nothing was cut off, otherwise never longer for a more frequent symbol; totals are the exact cost |
| `HuffmanCode.GenCodes` | Src/busybox-1.1.3/archival/gzip.c:1895-1928 | each symbol gets the canonical code of RFC 1951, bits reversed |
| `HuffmanCode.BiReverse` | Src/busybox-1.1.3/archival/gzip.c:513-522 | the bits in reverse order |
| `HuffmanCode.PrefixFree` | Src/busybox-1.1.3/archival/gzip.c:1895-1928 | no code begins with the code of another symbol |
| `HuffmanCode.DecodeOwnCode` | Src/busybox-1.1.3/archival/gzip.c:1895-1928 | the decoder gives back the symbol of a code, whatever follows |
| `HuffmanCode.CompleteDecodes` | Src/busybox-1.1.3/archival/gzip.c:1895-1928 | with a complete code every bit string that is long enough begins with a symbol |
| `HuffmanCoder.BuildTree` | Src/busybox-1.1.3/archival/gzip.c:1938-2020 | from frequencies to codes: complete, within the limit, for exactly the symbols that occur (two where fewer do); cheapest of all prefix codes if any cheapest one keeps to the limit, otherwise never longer for a more frequent symbol; totals exact |
| `BlockTrees.TreeLengths` | Src/busybox-1.1.3/archival/gzip.c:1938-2020 | the same of the code lengths of a block, in terms of the frequencies of its tokens |
| `BlockTrees.BuildData` | Src/busybox-1.1.3/archival/gzip.c:2205-2213 | the codes that build_tree makes for the tokens collected; the totals are the exact numbers of bits with these codes and with the fixed ones |
| `BlockTrees.BuildBl` | Src/busybox-1.1.3/archival/gzip.c:2131-2158 | the code that build_tree makes for the code lengths, its last used rank, and the exact number of bits of the header |
| `BlockHeader.SomeRank` | Src/busybox-1.1.3/archival/gzip.c:2149-2152 | some length of rank 3 or more is used, so the loop finds one |
| `CodeLengths.EncodeExpands` | Src/busybox-1.1.3/archival/gzip.c:2074-2125 | the symbols chosen for a list of lengths expand to that list |
| `CodeLengths.ScanTree` | Src/busybox-1.1.3/archival/gzip.c:2028-2068 | counts exactly the symbols that will be sent, and sets the guard |
| `CodeLengths.SendTree` | Src/busybox-1.1.3/archival/gzip.c:2074-2125 | sends exactly those symbols with their extra bits |
| `BlockHeader.SendAllTrees` | Src/busybox-1.1.3/archival/gzip.c:2165-2187 | the stream grows by the header |
| `BlockHeader.DecodeHeaderBits` | Src/busybox-1.1.3/archival/gzip.c:2165-2187 | the decoder gets both lists of lengths back from the header |
| `BlockData.CompressBlock` | Src/busybox-1.1.3/archival/gzip.c:2342-2386 | the stream grows by the codes of the buffered tokens and of the end of the block |
| `TokenCode.DecodeTokens` | Src/busybox-1.1.3/archival/gzip.c:2342-2386 | the decoder turns those bits into what the tokens stand for |
| `TokenCost.DataLength` | Src/busybox-1.1.3/archival/gzip.c:2205-2213 | frequencies times weights are the exact number of bits |
| `BlockDecode.StoredCarries` | Src/busybox-1.1.3/archival/gzip.c:2253-2257 | a stored block decodes to its data at any bit position |
| `BlockDecode.FixedCarries` | Src/busybox-1.1.3/archival/gzip.c:2260-2261 | so does a block with fixed codes |
| `BlockDecode.DynamicCarries` | Src/busybox-1.1.3/archival/gzip.c:2264-2267 | and one with codes of its own |
| `StoredBound.StoredFits` | Src/busybox-1.1.3/archival/gzip.c:2245-2257 | a block that is no longer stored than coded has at most twice as many bytes as tokens |
| `BlockCoder.NeverVanishes` | Src/busybox-1.1.3/archival/gzip.c:2236-2257 | a block to be stored is still in the window and its length fits in 16 bits |
| `BlockCoder.BestWithinTwoBytes` | Src/busybox-1.1.3/archival/gzip.c:2220-2269 | the block chosen ends at most two bytes after the shortest |
| `BlockCoder.BestIff` | Src/busybox-1.1.3/archival/gzip.c:2220-2269 | exactly when the block chosen ends no later than the other two |
| `StoredExample.StoredTooSoon` | Src/busybox-1.1.3/archival/gzip.c:2245-2257 | whatever tokens stand for the bytes 241 to 255 at the start of a file, flush_block stores them, which takes at least ten bits more than the fixed codes |
| `StoredExample.DynamicLong` | Src/busybox-1.1.3/archival/gzip.c:2205-2218 | the codes that build_tree makes for these bytes take at least 147 bits, the fixed ones 142 |
| `BlockCoder.SendBest` | Src/busybox-1.1.3/archival/gzip.c:2220-2269 | sends the block that the comparison of the totals prefers, and keeps count of the bits |
| `Coder.BlockEncoder.FlushBlock` | Src/busybox-1.1.3/archival/gzip.c:2194-2281 | one block that decodes to the data of the tokens, of the preferred kind, a dynamic one with the codes that build_tree makes for exactly these tokens; the length is right and everything is empty again |
| `Fsck.Scheduler.DeviceAlreadyActive` | Src/busybox-1.1.3/e2fsprogs/fsck.c:1032-1063 | true if and only if the check would share a disk with a running one |
| `Fsck.Scheduler.FsckDevice` | Src/busybox-1.1.3/e2fsprogs/fsck.c:830-853 | the child joins the end of the list, or is not started if and only if its program cannot be run |
| `Fsck.Scheduler.WaitOne` | Src/busybox-1.1.3/e2fsprogs/fsck.c:685-793 | one running child leaves the list with its status, or none had ended |
| `Fsck.Scheduler.WaitMany` | Src/busybox-1.1.3/e2fsprogs/fsck.c:801-818 | all children have left, or at least one, and the result is the OR of their statuses; the run records what was waited for and when |
| `Fsck.Scheduler.Round` | Src/busybox-1.1.3/e2fsprogs/fsck.c:1114-1170 | a walk and a wait bring the run closer to its end, a later pass begins only when the lower ones are over, and the walk starts everything that is due and may run beside what is running before it waits |
| `Fsck.Scheduler.CheckAll` | Src/busybox-1.1.3/e2fsprogs/fsck.c:1066-1177 | for every order of exits and every interrupt: disks never shared, limits kept, each wanted entry tried at most once and in pass order, result the OR of all statuses; without an interrupt all are tried and waited for, unless the root came out bad. Checks of different disks run at the same time: at every wait, nothing that is due could have been started beside the running ones, and all children are waited for only when nothing is due |
| `FsckTrace.SoundNeverTogether` | Src/busybox-1.1.3/e2fsprogs/fsck.c:1032-1063 | rules on single steps imply that at no moment two checks share a disk or exceed the limit |
| `FsckTrace.SoundPassOrder` | Src/busybox-1.1.3/e2fsprogs/fsck.c:1114-1170 | they imply that a check starts after all of lower passes have ended |
| `FsckTrace.SoundOnlyOnce` | Src/busybox-1.1.3/e2fsprogs/fsck.c:1114-1170 | and that nothing is tried twice or without being wanted |
| `AwkGrammar.ReadShaped` | Src/busybox-1.1.3/editors/awk.c:1020-1133 | what is read is a tree over exactly the tokens, of the shape that the priorities fix; the numbers behind that shape are in AwkRank |
| `AwkShape.ReadsBack` | Src/busybox-1.1.3/editors/awk.c:1020-1133 | reading is a left inverse of writing out, on trees of that shape |
| `AwkShape.ReadIff` | Src/busybox-1.1.3/editors/awk.c:1020-1133 | a tree is read if and only if it has that shape and the tokens are its tokens and the terminator |
| `AwkShape.ReadAll` | Src/busybox-1.1.3/editors/awk.c:1020-1133 | tokens that have any tree at all, of whatever shape, are read |
| `AwkShape.ShapeUnique` | Src/busybox-1.1.3/editors/awk.c:1044-1046 | tokens have one tree of that shape |
| `AwkShape.Grouping` | Src/busybox-1.1.3/editors/awk.c:217-223 | between any operands that bind tighter, an operator groups to the left if and only if its priority is odd |
| `AwkRank.ShapedByRank` | Src/busybox-1.1.3/editors/awk.c:1044-1046 | an expression of binary operators has the shape if and only if each operator takes over all operators of its left operand and none of its right one, where taking over is an inequality of the two priority numbers |
| `AwkRank.ReadRanked` | Src/busybox-1.1.3/editors/awk.c:1020-1133 | so the parser reads such an expression as a tree if and only if the tree is of that kind |
| `AwkRank.TwoBinary` | Src/busybox-1.1.3/editors/awk.c:1041-1046 | two binary operators: the second takes over the first if its class number is greater, or equal and its priority odd, and otherwise gets the operand between them |
| `AwkRank.PrefixBinary` | Src/busybox-1.1.3/editors/awk.c:1041-1073 | the same for a prefix operator and a binary one |
| `AwkRank.BinaryPostfix` | Src/busybox-1.1.3/editors/awk.c:1041-1073 | for a binary operator and a postfix one |
| `AwkRank.PrefixPostfix` | Src/busybox-1.1.3/editors/awk.c:1041-1073 | and for a prefix operator and a postfix one |
| `AwkShape.EmptyGroupCrashes` | Src/busybox-1.1.3/editors/awk.c:1115-1117 | an empty group in place of an operand is an access through a null pointer |
| `AwkScan.CrashIff` | Src/busybox-1.1.3/editors/awk.c:1115-1117 | that happens if and only if an empty group stands where a scan from left to right wants an operand |
| `AwkScan.DoneIff` | Src/busybox-1.1.3/editors/awk.c:1020-1133 | an expression is read up to a terminator if and only if the scan may end there |
| `AwkParser.Parser.Climbed` | Src/busybox-1.1.3/editors/awk.c:1041-1046 | following parent links ends at the operand that the grammar gives the operator |
| `AwkParser.Parser.Take` | Src/busybox-1.1.3/editors/awk.c:1040-1073 | the linked nodes show the state of the reading after the token |
| `AwkParser.Parser.ParseExpr` | Src/busybox-1.1.3/editors/awk.c:1020-1133 | syntax error, null access, no tree or a root of linked nodes that hold the tree, as the reading says; older nodes untouched |
| `AwkTemps.Disjoint` | Src/busybox-1.1.3/editors/awk.c:774-806 | stretches in use do not overlap |
| `AwkTemps.Temps.Nvalloc` | Src/busybox-1.1.3/editors/awk.c:774-806 | blank variables that nothing else uses; those in use keep place and value; the first block with room is taken |
| `AwkTemps.Temps.Nvfree` | Src/busybox-1.1.3/editors/awk.c:808-831 | the newest stretch is taken back, others are untouched, the internal error never happens |
| `OpenHash.EverySlot` | Src/busybox-1.1.3/archival/dpkg.c:140-179 | with a prime size every slot is probed |
| `OpenHash.NameSize` | Src/busybox-1.1.3/archival/dpkg.c:60 | 16381 is prime |
| `OpenHash.PackageSize` | Src/busybox-1.1.3/archival/dpkg.c:71 | 10007 is prime |
| `OpenHash.StatusSize` | Src/busybox-1.1.3/archival/dpkg.c:90 | 8191 is prime |
| `DpkgNames.MakeHash` | Src/busybox-1.1.3/archival/dpkg.c:140-157 | the first slot and a step below the prime and above zero |
| `DpkgNames.NameTable.Search` | Src/busybox-1.1.3/archival/dpkg.c:160-179 | the slot holds the key, was free or held it before, and no other slot changes |
| `DpkgNames.SearchAll` | Src/busybox-1.1.3/archival/dpkg.c:160-179 | in any run of searches, equal numbers if and only if equal names |
| `DpkgTables.PackageFound` | Src/busybox-1.1.3/archival/dpkg.c:369-390 | a search finds a package that fits if and only if one is stored |
| `DpkgTables.StatusFound` | Src/busybox-1.1.3/archival/dpkg.c:184-201 | a search finds the one status of a name, or there is none |
| `DpkgTables.ReachedKept` | Src/busybox-1.1.3/archival/dpkg.c:160-201 | filling a slot takes nothing off its path |
| `DpkgStore.Store.AddPackage` | Src/busybox-1.1.3/archival/dpkg.c:619-625 | a package is stored unless one that fits is there; everything stored stays findable, with edges that are whole groups |
| `DpkgStore.Store.FillPackage` | Src/busybox-1.1.3/archival/dpkg.c:552-626 | the package of a control file is stored with its name, its version and the groups of its lines as edges, unless it has no version or one of that name and version is there, and nothing else changes |
| `DpkgStore.Store.AddProvided` | Src/busybox-1.1.3/archival/dpkg.c:1021-1037 | a package that is only provided is added without edges unless one that fits is there, and no stored package changes |
| `DpkgStore.Store.AddStatus` | Src/busybox-1.1.3/archival/dpkg.c:712-742 | the status of this name changes and that of no other |
| `DpkgTables.SearchForProvides` | Src/busybox-1.1.3/archival/dpkg.c:408-419 | the next package that provides the name, none before it |
| `DpkgTables.PackageSatisfies` | Src/busybox-1.1.3/archival/dpkg.c:983-998 | the status of the package's name is the one its kind of dependency needs |
| `DpkgTables.CheckEdge` | Src/busybox-1.1.3/archival/dpkg.c:1141-1174 | true if and only if some package that fits, or some provider, has the status needed |
| `DpkgLaws.EarlierIs` | Src/busybox-1.1.3/archival/dpkg.c:344-347 | for a comparison that orders the versions, `<<` holds of the older versions: it is closed under them and does not hold of the version itself |
| `DpkgLaws.EqualIs` | Src/busybox-1.1.3/archival/dpkg.c:340-343 | `=` holds exactly of versions neither earlier nor later |
| `DpkgLaws.RelationsAgree` | Src/busybox-1.1.3/archival/dpkg.c:335-365 | `<=` is `<<` or `=`, `>>` the opposite of `<=`, `>=` that of `<<`, and later is the converse of earlier |
| `DpkgLaws.SuitsMeans` | Src/busybox-1.1.3/archival/dpkg.c:369-390 | a package fits a dependency when it has the name and its version, on the left, satisfies the relation to the one asked for |
| `DpkgLaws.StatusNeeded` | Src/busybox-1.1.3/archival/dpkg.c:983-998 | a pre-dependency needs the package installed, a dependency that it is to be installed |
| `DpkgLaws.MarkedOnly` | Src/busybox-1.1.3/archival/dpkg.c:993-996 | a package only marked to be installed meets a dependency on it and no pre-dependency |
| `DpkgLaws.NoStatus` | Src/busybox-1.1.3/archival/dpkg.c:985-991 | without a status of the name, and without a provider, nothing is met |
| `DpkgEdges.GroupsWellFormed` | Src/busybox-1.1.3/archival/dpkg.c:441-538 | the edges of the fields of a line are whole groups of alternatives |
| `DpkgEdges.AddSplit` | Src/busybox-1.1.3/archival/dpkg.c:441-538 | the edges of a package grow by the groups of the fields |
| `DpkgEdges.EdgesOf` | Src/busybox-1.1.3/archival/dpkg.c:566-613 | so the edges of a control file are the groups of its lines, one after another |
| `DpkgDeps.CheckEdges` | Src/busybox-1.1.3/archival/dpkg.c:1127-1203 | accepts if and only if every group has an edge that is met; the report of corrupt alternatives never fires |
| `DpkgDeps.CheckDeps` | Src/busybox-1.1.3/archival/dpkg.c:1086-1204 | accepts if and only if all groups of all packages to be installed are met |
| `DpkgStore.Store.Check` | Src/busybox-1.1.3/archival/dpkg.c:1086-1204 | that holds of every table that these operations can fill, and the report of corrupt alternatives never fires on one |
| `ExprSyntax.ParseIff` | Src/busybox-1.1.3/coreutils/expr.c:305-538 | an argument list has at most one tree, and the parser finds it if there is one |
| `ExprSyntax.ParseWhole` | Src/busybox-1.1.3/coreutils/expr.c:305-538 | a tree of a level is read whole in front of anything that does not go on with it |
| `ExprSyntax.ClassifyText` | Src/busybox-1.1.3/coreutils/expr.c:193-199 | telling arguments apart loses nothing of their text |
| `ExprValue.DecimalReads` | Src/busybox-1.1.3/coreutils/expr.c:161-187 | an integer printed and read again is itself |
| `ExprValue.DivisionLaw` | Src/busybox-1.1.3/coreutils/expr.c:231-253 | quotient and remainder, truncated as in C, belong together |
| `ExprValue.StrCmpSign` | Src/busybox-1.1.3/coreutils/expr.c:206-210 | strings are ordered as in a dictionary |
| `ExprValue.Compared` | Src/busybox-1.1.3/coreutils/expr.c:202-227 | values that are not both integers compare as their texts do in that order |
| `ExprValue.ComparisonExact` | Src/busybox-1.1.3/coreutils/expr.c:202-227 | exactly when comparisons of integers are right |
| `ExprValue.ComparisonWraps` | Src/busybox-1.1.3/coreutils/expr.c:202-227 | two different integers that compare as equal |
| `ExprLaws.NumberWritten` | Src/busybox-1.1.3/coreutils/expr.c:171-187 | a text of blanks, perhaps a sign, and digits is the number of the digits with that sign |
| `ExprLaws.WrittenNumber` | Src/busybox-1.1.3/coreutils/expr.c:171-187 | only such texts are numbers |
| `ExprLaws.FirstDigit` | Src/busybox-1.1.3/coreutils/expr.c:171-187 | place values: the first of n + 1 digits counts ten to the n |
| `ExprLaws.ArithmeticOnTexts` | Src/busybox-1.1.3/coreutils/expr.c:231-253 | arithmetic works on the numbers that the two texts stand for; if one is none, the error is that of a non-numeric argument |
| `ExprLaws.ArithmeticFails` | Src/busybox-1.1.3/coreutils/expr.c:239-240 | on numbers, an error if and only if the divisor of `/` or `%` is zero |
| `ExprLaws.SumAndDifference` | Src/busybox-1.1.3/coreutils/expr.c:241-245 | a sum less a summand is the other one; a difference and the subtrahend make the minuend |
| `ExprLaws.ProductLaw` | Src/busybox-1.1.3/coreutils/expr.c:246-247 | a product is repeated addition |
| `ExprLaws.QuotientLaw` | Src/busybox-1.1.3/coreutils/expr.c:248-251 | quotient and remainder give back the dividend; the remainder is smaller than the divisor and has the sign of the dividend |
| `ExprLaws.ComparesNumbers` | Src/busybox-1.1.3/coreutils/expr.c:202-227 | numbers whose difference fits in 32 bits compare as numbers, and the answer is 1 or 0 |
| `ExprLaws.ComparesTexts` | Src/busybox-1.1.3/coreutils/expr.c:202-227 | anything else compares as texts do in a dictionary |
| `ExprLaws.Choices` | Src/busybox-1.1.3/coreutils/expr.c:501-538 | `|` gives its first operand that is not empty or 0, or else the second; `&` the first, or 0 if either is empty or 0 |
| `ExprLaws.IndexLaw` | Src/busybox-1.1.3/coreutils/expr.c:329-391 | `index` gives the first position of a character that the second text has, or 0 |
| `ExprLaws.SubstrLaw` | Src/busybox-1.1.3/coreutils/expr.c:329-391 | `substr` gives the part from a position on, as long as asked for or as the text goes; nothing if the numbers make no sense |
| `ExprLaws.LevelsAre` | Src/busybox-1.1.3/coreutils/expr.c:396-538 | which operators stand on which level, from the loosest to the tightest |
| `ExprLaws.TwoOperators` | Src/busybox-1.1.3/coreutils/expr.c:396-538 | two operators in a row: the tighter one first, and from left to right between equals |
| `Expr.Evaluator.EvalLevel` | Src/busybox-1.1.3/coreutils/expr.c:396-538 | evaluating while reading gives what parsing and then evaluating the tree gives, and stops at the same place |
| `Expr.Evaluator.EvalTop` | Src/busybox-1.1.3/coreutils/expr.c:305-391 | the same for keywords, parentheses and operands |
| `Expr.ExprMain` | Src/busybox-1.1.3/coreutils/expr.c:92-112 | a value comes from the tree of the arguments, the answer for arguments that have a tree is that of the tree, and the exit status follows from the value; what the operators of the tree compute is in ExprLaws |

## Left out

gzip:

- The command line, file names, time stamps and modes, signals, and the attribute guess `set_file_type`: easy members,
  or effects outside the program.
- Input is a file and a plan of how many bytes each read delivers; a plan entry of zero before the end is a read
  error, which the source takes for the end of the input. The branch for 16-bit windows in `fill_window` is not there.
- The branch of `flush_block` for output that can be rewritten, which this build switches off.
- The output goes to a growing sequence of bytes; partial writes and write errors are not modelled.
- Sizes are those of the build with SMALL_MEM, which the file defines: 8192 tokens, 13 hash bits.
- The flag bytes and the CRC are kept as in the source; 16-bit and 8-bit casts are written out where they could matter
  (codes, frequencies, depths) and are proved to lose nothing.
- `BlockCoder.SendBest`: states the source's own comparison of lengths, which ignores the padding; how far that is
  from the shortest block is `BlockCoder.BestIff` and `BlockCoder.BestWithinTwoBytes`.
- `Lazy.FindMatch`: a match of three bytes may also be given up when exactly three bytes of input are left, though a
  near one exists: the source then tests the distance of a match that goes on beyond the end of the input.

fsck:

- Options, fstab parsing, `base_device` and the program that a child runs: the disk of a device is a field of the
  entry, and which entries have a program that cannot be run is part of the setup.
- `Fsck.Scheduler.WaitOne`: which child ends, with which status, and when a signal arrives is arbitrary; every child
  of which a wait tells is on the list. The progress bar that is handed from one e2fsck to the next is not modelled.
- Pass numbers are unbounded.

awk:

- The tokenizer with its choice between division and regular expression, and with concatenation inserted between
  operands; the ternary operator, getline, pipes, subscripts and the arguments of calls, which `parse_expr` handles
  with the same climbing or by calling itself.
- An operand right behind a regular expression: the source accepts it, since a regular expression is not in the class
  after which concatenation is inserted, and overwrites a link of the node. In the model two operands in a row are a
  syntax error.
- Evaluation of the tree, variables, arrays and output.
- `AwkTemps.Temps.Nvalloc`: at least one variable is asked for, as in all calls.

dpkg:

- Control files: fields arrive split at commas and bars, with the relation sign told apart, statuses split into their
  words; `version_compare` is a parameter, of which only the laws about versions suppose that it is an order.
- `DpkgNames.MakeHash`: characters are not negative and a `long` has 32 bits, as on the machines the package is for.
- `DpkgNames.NameTable.Search`: asks for a free slot or a key that is there, without which the source's loop does not
  end.
- The count of alternatives in 14 bits does not wrap around.
- The conflicts half of `check_deps`, and installing and removing packages.

expr:

- Regular expressions: matching is an uninterpreted function.
- Integers are unbounded except for the `int` in comparisons.
- `Expr.ExprMain`: on arguments that have no tree the result is some error; which one is not stated.
