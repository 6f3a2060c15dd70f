# A Dafny model of three cores of MiNiFi C++

The project models the parts of MiNiFi C++ where the program's own logic is most intricate, and proves what these
parts are for:

* **bsdiff and bspatch** (`thirdparty/bsdiff`): the Larsson-Sadakane suffix sort with its in-place marks, the binary
  search over the sorted suffixes, the scan loop that cuts the new file into blocks, the eight-byte number code, and the
  patcher that replays the blocks. The main result is that patching with what the differ wrote rebuilds the new file.
  Modules `SuffixOrder`, `SuffixGroups`, `SuffixPartition`, `SuffixMarks`, `SuffixBuckets`, `SuffixSort`, `SuffixArray`,
  `MatchSearch`, `OffsetCodec`, `PatchFormat`, `DiffPlan`, `BsDiff`, `BsPatch`, `PatchRoundTrip`.
* **The bin packer behind MergeContent** (`extensions/libarchive`): bins, the bin manager with its map of queues, ready
  bins and separate counter, concurrent triggers, defragmentation and binary concatenation, and the routing of every
  file. The main results are about all runs and all interleavings: conservation and first-in-first-out order per group,
  the exact counter, the bound on the number of bins, the size and entry limits, the reassembly of fragments.
  Modules `FlowFiles`, `Numerals`, `BinModel`, `BinRuns`, `BinOrder`, `BinKeys`, `BinLimits`, `BinTight`, `BinCounts`,
  `BinThreads`, `BinErase`, `BinObjects`, `MergeContent`, `MergeProcessor`, `TriggerExact`, `TriggerRuns`,
  `DefragmentRuns`.
* **Expression language** (`extensions/expression-language`): the compilation of call chains into closures, the base64
  codec, and the field splitter. The main results are that compiled chains keep their direct left-to-right meaning, that
  base64 decoding inverts encoding, and that the fields of a line rejoin to the line.
  Modules `Expressions`, `ExpressionLaws`, `FoldLaws`, `Base64`, `FieldSplitter`.

`Words`, `Options` and `Sequences` hold what all parts share.

Code that changes arrays, buffers or objects in place is modelled by methods on arrays and classes; each such method is
proved against a specification on values, and the laws are lemmas about those values. `BinManager` carries a ghost
value `state` that `Valid()` ties to its real fields and bins. Integers are unbounded except where the original's width
matters: bytes are 0..255, sizes and dates are 64-bit and wrap, entry limits are 32-bit and are compared as unsigned
64-bit numbers, block lengths become ints when they are read. Shifts, masks and disjoint bitwise ors of the original are
written as division, remainder and addition.

Time, the archive library, the functions of the expression language and the conversions of its values are parameters.

## Where the code differs from what it is said to do

* `search` in `bsdiff.c` does not always return the longest match: a suffix of the old file that is a proper prefix of
  the input counts as not smaller, so the search turns left (`MatchSearch.SearchCanMiss`). `MatchSearch.SearchLongestIff`
  says exactly when a longer match is lost.
* `bspatch` passes 64-bit lengths to a reader that takes an int. The round trip therefore holds when no block is longer
  than an int can say; below 2^32 bytes that condition is exact, and for an empty old file it is the length of the new
  one (`PatchRoundTrip.DiffThenPatch`). A negative control number passes the sanity checks; for one whose conversion to
  int is not negative (`BsPatch.NegativeAsked`) the original's behaviour is not defined, the model stops with a result
  of its own, and `BsPatch.NegativeIff` says on exactly which streams.
* `EXPRESSIONS.md` says that the escape character of `getDelimitedField` protects a delimiter or a quote. In the code
  an escaped delimiter splits (`FieldSplitter.EscapeDoesNotProtect`) and an escaped quote opens or closes a quotation,
  and is dropped when stripping (`FieldSplitter.EscapedQuoteDropped`). `FieldSplitter.Documented` says exactly when the
  documented fields come out all the same, with and without stripping.
* `base64Decode` fails on the empty string, so the round trip holds exactly for non-empty values
  (`Base64.EncodeThenDecode`).
* The copy loop of the binary concatenation reads whole pages and stops only once the announced size is reached, so a
  file whose stored content is longer than its announced size is copied beyond it; `MergeContent.CopyExact` says
  exactly when it is not.
* An offer to a bin with a count attribute changes the entry limits of the bin even if the file is then refused, so a
  bin can hold more files than it may (`BinCounts.CountBreaksLimit`). `BinCounts.EntriesIff` says which offers do that,
  and `BinCounts.RunCounted` that none does when all files of a key say the same count.
* The size of a bin is a 64-bit sum that wraps when there is no maximum size (`BinLimits.SizeWraps`);
  `BinLimits.OfferPacked` says exactly which offers make it wrap.

## Model

| member | source | states |
|---|---|---|
| `SuffixPartition.Median3` | thirdparty/bsdiff/bsdiff.c:34-36 | the pivot is one of the three keys and lies between the other two |
| `SuffixPartition.PickPivot` | thirdparty/bsdiff/bsdiff.c:62-73 | the pivot of a long segment is always a key that occurs in the segment |
| `SuffixPartition.SelectLeast` | thirdparty/bsdiff/bsdiff.c:44-54 | the smallest keys, and no others, are swapped to the front, by swaps inside the segment only |
| `SuffixPartition.CountKeys` | thirdparty/bsdiff/bsdiff.c:75-80 | the two boundaries are the numbers of keys below and at the pivot |
| `SuffixPartition.Partition` | thirdparty/bsdiff/bsdiff.c:75-102 | the segment is permuted by swaps inside it into keys below, at and above the pivot, and the middle part is not empty |
| `SuffixGroups.KeyLess` | thirdparty/bsdiff/bsdiff.c:44-55 | two suffixes of one group whose keys h further on differ are ordered like these keys |
| `SuffixGroups.KeyEqual` | thirdparty/bsdiff/bsdiff.c:44-55 | two suffixes of one group with equal keys h further on share 2h bytes |
| `SuffixGroups.RenumberedOrdered` | thirdparty/bsdiff/bsdiff.c:55-56 | giving the front part of a group a smaller number keeps numbers ordered like suffixes although later keys read the new numbers |
| `SuffixSort.AssignGroup` | thirdparty/bsdiff/bsdiff.c:55-56 | renumbering a run gives each of its suffixes the last index of the run and marks a run of one |
| `SuffixSort.SplitShort` | thirdparty/bsdiff/bsdiff.c:42-59 | a short segment ends refined: groups ordered by suffix, equal numbers share 2h bytes, nothing outside changes |
| `SuffixSort.Split` | thirdparty/bsdiff/bsdiff.c:38-110 | any segment ends refined, only its own entries of I and V change, every key read is in bounds, and the recursion ends |
| `SuffixSort.Pass` | thirdparty/bsdiff/bsdiff.c:130-145 | one pass turns the order by h bytes into the order by 2h bytes although numbers change during the pass |
| `SuffixMarks.PassSkip` | thirdparty/bsdiff/bsdiff.c:133-135 | a negative mark covers a run of finished suffixes that may be skipped and merged |
| `SuffixMarks.PassGroup` | thirdparty/bsdiff/bsdiff.c:136-139 | the first unmarked entry starts a group that ends at its number and still needs splitting |
| `SuffixBuckets.BucketedOrdered` | thirdparty/bsdiff/bsdiff.c:117-126 | the counting sort by first byte orders numbers like suffixes and equal numbers share a byte |
| `SuffixArray.CountBuckets` | thirdparty/bsdiff/bsdiff.c:117-121 | after counting, summing and shifting, each bucket holds the number of smaller bytes |
| `SuffixArray.BucketSort` | thirdparty/bsdiff/bsdiff.c:117-128 | the state before the first pass is ready for h equal to one |
| `SuffixArray.AllSingle` | thirdparty/bsdiff/bsdiff.c:130 | when the first mark covers the array, every group is a single suffix and the numbers are the sorted positions |
| `SuffixArray.QSufSort` | thirdparty/bsdiff/bsdiff.c:112-148 | for every byte string, terminates with a permutation of 0..n that lists all suffixes in strictly increasing order |
| `MatchSearch.MatchLen` | thirdparty/bsdiff/bsdiff.c:150-158 | the length of the longest common prefix |
| `MatchSearch.SearchArray` | thirdparty/bsdiff/bsdiff.c:160-184 | the search on the array computes the search function and stays in bounds |
| `MatchSearch.Search` | thirdparty/bsdiff/bsdiff.c:160-184 | the position is a suffix start whose common prefix with the input is exactly the returned length |
| `MatchSearch.SearchFinds` | thirdparty/bsdiff/bsdiff.c:160-184 | a range that holds a suffix with the input's first byte gives a match that is not empty |
| `MatchSearch.SearchEmpty` | thirdparty/bsdiff/bsdiff.c:160-184 | the match is empty if and only if the first input byte occurs nowhere in the old file |
| `MatchSearch.SearchLongestIff` | thirdparty/bsdiff/bsdiff.c:160-184 | the match found is the longest one in the range if and only if no probe of the search ends inside the input while a longer match lies behind it |
| `MatchSearch.SearchLongest` | thirdparty/bsdiff/bsdiff.c:160-184 | nothing is lost when no suffix of the old file ends inside the input |
| `MatchSearch.SearchCanMiss` | thirdparty/bsdiff/bsdiff.c:178-183 | a suffix array and an input on which the longest match is lost |
| `OffsetCodec.OffTOut` | thirdparty/bsdiff/bsdiff.c:186-202 | writes the sign-magnitude code into eight bytes and nothing else |
| `OffsetCodec.CodeRoundTrip` | thirdparty/bsdiff/bspatch.c:30-46 | decoding a coded number gives it back for every magnitude below 2^63 |
| `OffsetCodec.CodeCanonical` | thirdparty/bsdiff/bspatch.c:30-46 | coding a decoded number gives the same bytes except for the negative zero |
| `OffsetCodec.CodedBytes` | thirdparty/bsdiff/bsdiff.c:186-202 | the first byte is the lowest digit of the magnitude and the top bit of the last one is the sign |
| `PatchFormat.BlockLayout` | thirdparty/bsdiff/bspatch.c:57-91 | a coded block is three numbers, the lengths of its parts and the move, followed by the difference bytes and the extra bytes |
| `PatchFormat.WriteData` | thirdparty/bsdiff/bsdiff.c:204-223 | writes the whole buffer in chunks an int can measure, or reports the failed write |
| `BsDiff.ExtendForward` | thirdparty/bsdiff/bsdiff.c:280-285 | the forward extension is the best one in the block and stays inside both files |
| `BsDiff.ExtendBackward` | thirdparty/bsdiff/bsdiff.c:287-294 | the backward extension is the best one and stays inside both files |
| `BsDiff.CutOverlap` | thirdparty/bsdiff/bsdiff.c:296-309 | the overlap is cut at the place with the best score |
| `BsDiff.CountAligned` | thirdparty/bsdiff/bsdiff.c:266-269 | the score counts exactly the bytes that still match at the last offset, with indices in range |
| `BsDiff.ScanAhead` | thirdparty/bsdiff/bsdiff.c:260-277 | the scan stops at the first position whose match is as good as the old alignment or better by more than eight bytes, or else at the end, and its score is the number of bytes the old alignment gets right up to the furthest match seen |
| `BsDiff.PlanBlock` | thirdparty/bsdiff/bsdiff.c:280-309 | after resolving the overlap both lengths are non-negative and the two parts of the block do not overlap |
| `BsDiff.WriteBlock` | thirdparty/bsdiff/bsdiff.c:311-329 | control numbers, difference bytes and extra bytes are the code of the planned block |
| `BsDiff.ScanAndWrite` | thirdparty/bsdiff/bsdiff.c:236-338 | the loop ends, the blocks written tile the new file, and they are the planned blocks of a scan: one for every match that does not just continue the old alignment, each starting where the last one ended in both files |
| `BsDiff.Diff` | thirdparty/bsdiff/bsdiff.c:340-366 | whatever the files, a stream that does not fail receives the blocks of such a scan, which rebuild the new file without gap or overlap; identical files give one block of zero differences and no extra bytes, and an empty old file one block of extra bytes only |
| `BsDiff.Turn` | thirdparty/bsdiff/bsdiff.c:259-335 | one turn moves to the next match worth using and writes a planned block up to it unless it continues the old alignment |
| `DiffPlan.OneBlockAlike` | thirdparty/bsdiff/bsdiff.c:236-338 | when the new file starts like the old one and none of its later bytes occurs there, one block results: zero differences for exactly the common start and extra bytes for exactly the rest |
| `DiffPlan.OneBlockEdited` | thirdparty/bsdiff/bsdiff.c:236-338 | when every byte of the new file is new to the old one or stands in its old place, one block results whose difference part is the best forward extension |
| `DiffPlan.TwoBlocksInserted` | thirdparty/bsdiff/bsdiff.c:236-338 | new bytes in front of at least nine old ones cost one block of exactly these extra bytes; whatever follows the shifted alignment, with new bytes here and there, is one more block |
| `DiffPlan.ShortIgnored` | thirdparty/bsdiff/bsdiff.c:271-272 | an old file of at most eight bytes of which none stands in its old place is not used at all |
| `BsPatch.ReadControl` | thirdparty/bsdiff/bspatch.c:57-62 | reads three numbers if and only if 24 bytes are left |
| `BsPatch.ReadInto` | thirdparty/bsdiff/bspatch.c:68-70 | which lengths are read after the conversion to int; a negative length that turns positive is told apart |
| `BsPatch.ReplayBody` | thirdparty/bsdiff/bspatch.c:64-91 | both sanity checks, and for every pair of lengths whether the bytes are taken, the stream is rejected, or a negative length is met |
| `BsPatch.Patch` | thirdparty/bsdiff/bspatch.c:48-95 | for every stream and size the result, what is left unread and, when all lengths fit an int, the buffer are those of the stream as it is taken block by block |
| `BsPatch.AcceptsIff` | thirdparty/bsdiff/bspatch.c:48-95 | below 2^32 bytes a stream is accepted if and only if blocks at its start, however coded, fit an int each and fill the buffer with the last one |
| `BsPatch.NegativeIff` | thirdparty/bsdiff/bspatch.c:64-91 | below 2^32 bytes a negative length is met if and only if the stream asks for one behind sound blocks that leave room; every other stream is accepted or rejected |
| `BsPatch.NegativeAsked` | thirdparty/bsdiff/bspatch.c:64-70 | a control number that is negative, passes the sanity check and asks for one byte |
| `BsPatch.TilesTaken` | thirdparty/bsdiff/bspatch.c:48-95 | a patch whose lengths fit an int is taken as exactly its blocks, whatever follows it |
| `BsPatch.TilesRejected` | thirdparty/bsdiff/bspatch.c:48-95 | below 2^32 bytes a patch with a longer block is rejected |
| `PatchRoundTrip.DiffThenPatch` | thirdparty/bsdiff/bspatch.c:48-95 | patching with what the differ wrote rebuilds the new file and leaves nothing unread whenever it has at most INT_MAX bytes; below 2^32 bytes exactly when no block is longer than that, and for an empty old file exactly then |
| `BinObjects.Bin.Offer` | extensions/libarchive/BinFiles.h:88-111 | the bin takes the file if both limits allow it, after a count attribute replaced the entry limits |
| `BinObjects.BinManager.Offer` | extensions/libarchive/BinFiles.cpp:190-235 | keeps the manager valid and computes the offer on values; a file too large gets a ready bin of its own |
| `BinObjects.BinManager.GatherReadyBins` | extensions/libarchive/BinFiles.cpp:126-151 | moves the due bins at the front of all queues to the ready bins and erases emptied groups, keeping the manager valid; which bins these are is `BinLimits.GatherExact` |
| `BinObjects.BinManager.RemoveOldestBin` | extensions/libarchive/BinFiles.cpp:153-179 | moves the oldest front bin to the ready bins and erases its group if it was the last one |
| `BinObjects.BinManager.GetReadyBin` | extensions/libarchive/BinFiles.cpp:181-188 | hands out all ready bins in order, each once, none of them still queued |
| `BinObjects.BinManager.Purge` | extensions/libarchive/BinFiles.h:188-192 | drops all queued bins and keeps the ready ones |
| `BinErase.SweepAll` | extensions/libarchive/BinFiles.cpp:126-151 | stripping the queues one by one and erasing the collected keys afterwards is the same as removing due bins and emptied groups at once |
| `BinErase.DropByKey` | extensions/libarchive/BinFiles.cpp:167-176 | popping the queue and erasing by the bin's group id removes the queue that was popped |
| `BinRuns.OfferConsistent` | extensions/libarchive/BinFiles.cpp:190-235 | an offer keeps the counter exact, the keys distinct, no queue empty and every bin under its own group id |
| `BinRuns.RunConsistent` | extensions/libarchive/BinFiles.cpp:126-235 | any sequence of operations, purge included, keeps that invariant |
| `BinKeys.RunSorted` | extensions/libarchive/BinFiles.cpp:126-235 | over every run the groups stay strictly sorted by name, in textbook string order, as the map keeps them |
| `BinOrder.RunKeepsOrder` | extensions/libarchive/BinFiles.cpp:126-235 | over every run without purge and for every group, delivered, then ready, then queued files are exactly the accepted offers, in offer order among the files within the size limit and among the larger ones |
| `BinLimits.RunDated` | extensions/libarchive/BinFiles.cpp:201-232 | with a clock that never goes back, dates are sorted along every queue in every reachable state |
| `BinLimits.EvictsOldest` | extensions/libarchive/BinFiles.cpp:153-179 | looking only at the fronts, the evicted bin is the oldest of all queued bins |
| `BinLimits.GatherExact` | extensions/libarchive/BinFiles.cpp:129-141 | every queue is cut in front of its first bin that is at no maximum, not at both minima and not over age, by the fields of the bins alone; exactly what lies in front is moved, in the order of the groups, and exactly the rest stays |
| `BinLimits.FullIff` | extensions/libarchive/BinFiles.h:66-72 | a bin is full if and only if it refuses a file of one byte |
| `BinLimits.OfferPacked` | extensions/libarchive/BinFiles.cpp:190-235 | an offer keeps the limits of all bins if and only if it does not make the size of a bin wrap; in bin packing it fails exactly when no entry is allowed at all |
| `BinLimits.RunPacked` | extensions/libarchive/BinFiles.h:66-111 | over every run in which no size wraps, each bin knows the sum of its sizes and respects the size limit, and in bin packing the entry limit as well, or holds one single file that is too large |
| `BinLimits.HalfNeverWraps` | extensions/libarchive/BinFiles.h:66-111 | with a maximum size below 2^63 no size ever wraps |
| `BinLimits.SizeWraps` | extensions/libarchive/BinFiles.h:103-107 | without a maximum size two files of 2^63 bytes make a bin of size zero |
| `BinTight.RunTight` | extensions/libarchive/BinFiles.cpp:190-235 | over every run of bin packing in which no size wraps, the first file of each queued bin had no room, by size or by entries, in the bin before it |
| `BinCounts.EntriesIff` | extensions/libarchive/BinFiles.h:88-111 | after an offer a bin holds no more files than it may if and only if the count of the offered file allows what it held before |
| `BinCounts.CountBreaksLimit` | extensions/libarchive/BinFiles.h:89-104 | two files without a count and one that says one leave a queued bin of two files that may hold one |
| `BinCounts.RunCounted` | extensions/libarchive/BinFiles.h:88-111 | over every run in which all files offered under a key say the same count, each bin of the key has both entry limits at it and holds no more files |
| `BinThreads.RunBounded` | extensions/libarchive/BinFiles.cpp:237-262 | under every interleaving of triggers the number of bins exceeds the maximum by at most the calls that opened a bin and have not finished their check |
| `BinThreads.RunEventsInOrder` | extensions/libarchive/BinFiles.cpp:237-283 | interleaved triggers neither lose nor reorder the files of a group |
| `Numerals.ReadsNumber` | extensions/libarchive/BinFiles.h:94 | blanks, a sign, zeros, a number in decimal and any text that does not start with a digit stand for the signed number, or for nothing if it leaves the int range |
| `Numerals.ReadsWritten` | extensions/libarchive/MergeContent.cpp:177-195 | every int is read back from its decimal text, also behind blanks and in front of other text |
| `Numerals.ReadsAny` | extensions/libarchive/BinFiles.h:92-99 | every text is a number in that sense or has no digit behind blanks and sign, and then it stands for nothing |
| `MergeContent.CheckDefragment` | extensions/libarchive/MergeContent.cpp:165-208 | true if and only if the bin is not empty and all its files are pieces of one whole with indices in range |
| `MergeContent.LabelsPass` | extensions/libarchive/MergeContent.cpp:165-208 | files with decimal counts and indices pass if and only if they agree on identifier and count and every index lies from zero to below the count |
| `MergeContent.MissingFails` | extensions/libarchive/MergeContent.cpp:165-208 | a file without identifier, count or index fails the check |
| `MergeContent.SortByIndex` | extensions/libarchive/MergeContent.cpp:224-237 | a permutation sorted by fragment index |
| `MergeContent.SortedInPlace` | extensions/libarchive/MergeContent.cpp:224-237 | sorted fragments stand at their own index if and only if the indices are distinct |
| `MergeContent.CopyContent` | extensions/libarchive/MergeContent.h:76-91 | copies a prefix of the content in whole pages until the announced size is reached |
| `MergeContent.CopyExact` | extensions/libarchive/MergeContent.h:76-91 | exactly the announced size is copied if and only if nothing follows it or it is a whole number of pages |
| `MergeContent.CopyRounds` | extensions/libarchive/MergeContent.h:76-91 | the copy ends with the page in which the announced size ends, or with the content |
| `MergeContent.WriteMerged` | extensions/libarchive/MergeContent.h:106-134 | header, the files separated by the demarcator, footer |
| `MergeContent.JoinSplits` | extensions/libarchive/MergeContent.h:115-127 | one demarcator stands between any two neighbours and nowhere else |
| `MergeContent.Reassembles` | extensions/libarchive/MergeContent.cpp:214-237 | fragments that arrived in any order, sorted and concatenated, are the original bytes |
| `MergeProcessor.PreprocessFills` | extensions/libarchive/BinFiles.cpp:112-124 | missing fragment attributes come from segment attributes, existing ones and all others stay |
| `MergeProcessor.SameGroup` | extensions/libarchive/MergeContent.cpp:151-163 | files with correlation values share a group if and only if the values agree; without, in defragmentation, if and only if the identifiers do, and otherwise always |
| `MergeProcessor.ProcessBin` | extensions/libarchive/MergeContent.cpp:214-271 | succeeds exactly when strategy and format are known, the fragments pass and the archive succeeds; then the merged content and all files go out, otherwise nothing |
| `MergeProcessor.TransferFlowsToFail` | extensions/libarchive/BinFiles.cpp:285-291 | all files of the bin go to failure and the bin is emptied |
| `MergeProcessor.OnTrigger` | extensions/libarchive/BinFiles.cpp:237-283 | one trigger keeps the manager valid and makes of it, and sends, what a call makes: offer, gathering, at most one eviction, and the routing of every ready bin; a refused file goes to failure and nothing else happens |
| `MergeProcessor.RoutedExactly` | extensions/libarchive/BinFiles.cpp:264-291 | over all delivered bins every file goes to exactly one of original and failure, exactly once |
| `MergeProcessor.TriggerBounded` | extensions/libarchive/BinFiles.cpp:237-262 | with one thread the number of bins is at most the maximum after every trigger |
| `MergeProcessor.TriggerIsRun` | extensions/libarchive/BinFiles.cpp:237-283 | a trigger is a run of manager operations, so all run properties hold of triggers |
| `TriggerExact.TriggerDelivers` | extensions/libarchive/BinFiles.cpp:237-283 | a call delivers exactly the ready bins, the due bins in front of each queue, and one more, an oldest front, only if more bins than the maximum are left; within the maximum every other bin stays queued |
| `TriggerExact.TriggerIsEvents` | extensions/libarchive/BinFiles.cpp:237-283 | a call is the same five events of its thread whatever happens in it: offer, gathering, check, eviction if the check asks for it, delivery |
| `TriggerRuns.TriggersConserve` | extensions/libarchive/BinFiles.cpp:237-291 | over any number of triggers the files sent to original and failure and the files still held are exactly those held at the start and those that arrived |
| `TriggerRuns.TriggersBounded` | extensions/libarchive/BinFiles.cpp:237-262 | over any number of triggers the number of bins stays within its maximum |
| `MergeProcessor.DefragmentRestores` | extensions/libarchive/MergeContent.cpp:214-262 | a bin with one fragment for each piece of some content is merged to exactly that content, whatever the order of arrival |
| `MergeProcessor.PackedConcatenates` | extensions/libarchive/MergeContent.cpp:214-271 | bin packing by concatenation sends header, contents with demarcators between them and footer, and then the files in order of arrival |
| `MergeProcessor.FailedBin` | extensions/libarchive/BinFiles.cpp:264-291 | a bin with an unknown strategy or format, or with fragments that do not pass, goes to failure as a whole |
| `DefragmentRuns.DeliveredPieces` | extensions/libarchive/BinFiles.cpp:126-235 | over every run a delivered bin of a key that gets only fragments of one content holds accepted fragments only, no more than there are |
| `DefragmentRuns.RunRestores` | extensions/libarchive/MergeContent.cpp:214-262 | over every run without purge, a delivered bin that holds as many distinct fragments as there are is merged to the original content |
| `DefragmentRuns.RunRestoresWritten` | extensions/libarchive/MergeContent.cpp:165-262 | the same for fragments that say, in decimal, the number of pieces and the index of their piece |
| `Base64.SixesAreTheBits` | extensions/expression-language/base64.h:152-157 | the four six-bit values are the 24 bits of the three bytes (section 4 of RFC 4648) |
| `Base64.TableExact` | extensions/expression-language/base64.h:28-29 | the characters are those of the 64-character table, each found at its own index, and no other character is |
| `Base64.Fits` | extensions/expression-language/base64.h:136 | text and terminator fit the allocation of n*4/3+4 bytes, with no byte to spare exactly when n leaves remainder one |
| `Base64.EncodedText` | extensions/expression-language/base64.h:159-178 | the text consists of table characters and ends in the padding its length calls for |
| `Base64.Encode` | extensions/expression-language/base64.h:120-185 | the encoding of length 4*ceil(n/3) and its terminator, all writes inside the buffer; a size of zero means a terminated string |
| `Base64.DecodeQuantum` | extensions/expression-language/base64.h:31-49 | three bytes from four characters: equals signs are zero, unknown characters are skipped |
| `Base64.Decode` | extensions/expression-language/base64.h:58-110 | the whole quanta cut by the equals signs, no read behind the terminator, no write outside the buffer, no buffer without a whole quantum |
| `Base64.RoundTrip` | extensions/expression-language/base64.h:58-185 | decoding the encoded text gives every non-empty value back |
| `Base64.Canonical` | extensions/expression-language/base64.h:58-185 | encoding a decoded well-formed text gives it back if and only if its spare bits are zero (section 3.5 of RFC 4648) |
| `Base64.EncodeThenDecode` | extensions/expression-language/Expression.cpp:1399-1424 | the two expression functions are inverse on every value except the empty one |
| `FieldSplitter.Put` | extensions/expression-language/Expression.cpp:246-252 | the growing buffer is never indexed out of range and keeps what it holds |
| `FieldSplitter.GetDelimitedField` | extensions/expression-language/Expression.cpp:203-321 | the field with the given number, empty for zero and for any number beyond the last field |
| `FieldSplitter.FieldsRejoin` | extensions/expression-language/Expression.cpp:203-321 | without stripping, the fields joined by the delimiter are the line, for any delimiter, quote and escape |
| `FieldSplitter.DocumentedIff` | extensions/expression-language/Expression.cpp:241-316 | without stripping, the fields, and all answers, are the documented ones if and only if both readings split at the same delimiters |
| `FieldSplitter.StrippedIff` | extensions/expression-language/Expression.cpp:241-316 | with stripping, they are if and only if no quote is escaped and a delimiter is escaped only inside quotes |
| `FieldSplitter.Documented` | extensions/expression-language/Expression.cpp:203-321 | for every line and all marks, stripping or not, every field number gets the documented answer exactly under these conditions |
| `FieldSplitter.DocumentedWhenPlain` | extensions/expression-language/Expression.cpp:241-316 | they are when no escape stands in front of a delimiter or quote, with and without stripping |
| `FieldSplitter.EscapeDoesNotProtect` | extensions/expression-language/Expression.cpp:244-270 | a line with an escaped delimiter is split at it |
| `FieldSplitter.EscapedQuoteDropped` | extensions/expression-language/Expression.cpp:244-300 | with stripping an escaped quote disappears |
| `Expressions.MakeFunctionComposition` | extensions/expression-language/Expression.cpp:2290-2302 | the loop compiles the chain call by call and fails when one call does |
| `ExpressionLaws.CallArguments` | extensions/expression-language/Expression.cpp:1641-1650 | a call gets the values of its arguments in their order |
| `ExpressionLaws.SingularChain` | extensions/expression-language/Expression.cpp:1614-1652 | a chain on a singular expression compiles exactly when every call has enough arguments, and evaluates from left to right |
| `ExpressionLaws.ChainSubs` | extensions/expression-language/Expression.cpp:2365-2393 | on a multi-expression every sub-value goes through the whole chain and the fold is kept |
| `ExpressionLaws.MultiChain` | extensions/expression-language/Expression.cpp:2365-2393 | the value is the expression's own fold of the chain's results |
| `ExpressionLaws.FoldedMeans` | extensions/expression-language/Expression.cpp:1753-1853 | the short-circuiting loops compute all, any, count and join of the outcomes |
| `ExpressionLaws.AllOfMeans` | extensions/expression-language/Expression.cpp:1753-1853 | all is true exactly when every outcome is true, any is false exactly when every outcome is false |
| `FoldLaws.FoldsCompile` | extensions/expression-language/Expression.cpp:1753-2110 | how many arguments each fold takes, and that count and join compile only on multi-expressions |
| `FoldLaws.AttributesMean` | extensions/expression-language/Expression.cpp:1753-1853 | allAttributes and a chain is true if and only if every named attribute, put through the chain, converts to true, and false if and only if the first that does not converts to false; anyAttribute is its dual |
| `FoldLaws.DelineatedMean` | extensions/expression-language/Expression.cpp:1977-2051 | the same over the pieces of a text; without any piece both forms are false, and they fail when the text or the delimiter does |
| `FoldLaws.SplitUnique` | libminifi/include/utils/StringUtils.h:111-129 | however a text is written as maximal runs without the delimiter, these runs are its pieces, in order |
| `FoldLaws.SplitRuns` | libminifi/include/utils/StringUtils.h:111-129 | every text is made of such runs and gaps of delimiters |
| `FoldLaws.CountMeans` | extensions/expression-language/Expression.cpp:2053-2084 | a final count over attributes is the number of them that convert to true |
| `FoldLaws.JoinSplits` | extensions/expression-language/Expression.cpp:2086-2125 | a join has one delimiter between any two neighbours and nowhere else |
| `ExpressionLaws.FinalFold` | extensions/expression-language/Expression.cpp:2053-2125 | a final count or join compiles exactly on a multi-expression, folds the chain's results and gives a singular expression |
| `ExpressionLaws.PlusConcatenates` | extensions/expression-language/Expression.cpp:2312-2355 | in all four static and dynamic cases the value is the concatenation of the two texts |

## Left out

- Files, bzip2 and memory allocation around the differ: the stream is a byte sequence that a reliable or unreliable sink
  receives, and allocation succeeds.
- BsPatch.Patch: from 2^32 bytes on, where a length that does not fit an int may be read in part, the result and the
  rest of the stream are exact but the buffer is not described; 64-bit overflow of `newpos` plus a control number is not
  modelled.
- BsDiff.Diff: says which blocks are planned and that they rebuild the new file, not that the patch is the smallest one;
  its blocks are known for the families of files named in the rows of `DiffPlan`.
- BinThreads.RunBounded: clock readings are below the largest 64-bit number, which the eviction reserves for "no bin";
  the same holds of `MergeProcessor.TriggerBounded` and `BinLimits.EvictsOldest`.
- MergeContent.SortByIndex: stands for `std::sort` by the same order; which permutation results among equal indices is
  left open, as in the original.
- MergeContent.WriteMerged: the output stream does not fail.
- Clock: one reading per manager operation; a bin made by an offer and the test for age inside one gathering see one time.
- The counters of the manager and 64-bit sums other than bin sizes and dates do not wrap.
- TAR and ZIP archives: the archive library is a function from files to an archive or a failure.
- Attributes of the merged flow file other than the fragment count, sessions, provenance, scheduling and properties of
  the processors.
- Regular expressions, dates, HTML, XML and JSON escaping, host names, random numbers and UUIDs in expressions: ordinary
  functions are one parameter that maps argument values to a value or an exception; the folds over attributes that match
  a regular expression differ from the modelled ones only in their generator.
- The parser of expressions and the conversions of values, which are not part of this model.
- Expression arguments of `getDelimitedField` are characters; an empty argument stands for the character zero in the
  original.
- Connections, queues between processors, resource claims, the flow file and provenance repositories, site-to-site,
  flow control, the other processors, configuration and logging.
