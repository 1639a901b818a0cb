# Verified models of three algorithms and one protocol

This project models four parts of the repository in Dafny and proves what they
are for:

- **Binary deltas** (`Sparkle/bsdiff.c`, `Sparkle/bspatch.c`): a suffix sort by
  prefix doubling with in-place ternary splitting, a search in the sorted
  suffixes, the matching and extension loop that emits control triples, and the
  replay of a patch.  Main results: `SuffixArrays.QSufSort` sorts every byte
  string, `PrefixSearch.Search` finds a longest match exactly when its bisection
  is not misled, what `Delta.Bsdiff` promises is met by one patch only
  (`DeltaUnique.PatchUnique`), and `RoundTrip.DiffThenPatch` gives back the new file exactly when
  no run of bytes in the patch reaches 2^31, so for every new file below that size.
- **LZO1X** (`distcc/lzo/minilzo.c`, `distcc/src/compress.c`): the compressor with
  a dictionary memory that may hold anything at first, the byte format, the
  decoder with its goto structure as a state machine, the retry loop of the
  receiver with its 32-bit sizes, and the Adler-32 checksum.  Main results:
  `LzoStream.StreamDecodes`, `LzoEnds.ExtraInput`, `LzoUnique.StreamUnique`,
  `LzoBounds.NeverOverruns`, `Adler.Adler32`, and
  `LzoTransfer.SendAndReceive`, which says for every text whether it arrives or the
  retry loop does not end.
- **Memoising include analysis** (`distcc/include_server`): the cyclic summary
  graph built by `FindNode`, the include closure, the set-valued macro evaluator,
  symbol supports, and the stat cache.  Main results: `FindNode` ends on every
  include graph, `IncludeClosure.RunAlgorithm` returns the files that plain,
  unmemoised inclusion reaches, whatever earlier runs left in the caches, and the
  values of a macro expression are bounded from both sides
  (`MacroChoices.JointlyReplaced`, `MacroSound.ValuesDerive`).
- **Cleanup of temporary files** (`distcc/src/cleanup.c`): every statement is a
  step, and a signal may come between any two.  Main results:
  `Cleanup.SignalAnywhere` and `Cleanup.NothingLeaks`.

Where the original updates arrays or fields in place, so does the model: `I` and
`V` are arrays rewritten by `Split`, the decoder writes and copies within its
output array, and the include server's dictionaries are fields of classes.
Functions and predicates marked `ghost` are specifications.  Recurring names:
`P` and `Q` are the current order of the suffixes and its inverse, `wants` says
what each graph node stands for, `open` is the set of nodes whose children are
still being collected.

`dafny verify dfyconfig.toml` checks the whole project.

## Where the code differs from its comments

- `search` is said to find the longest prefix of the new file that occurs in the
  old one (`Sparkle/bsdiff.c:190-196`).  It need not: comparing only as many bytes as
  the shorter side has, it takes a suffix that is a proper prefix of what is looked
  up for an upper bound.  `Search` states exactly when the answer is a longest
  match, `NotMisledByContents` gives a condition on the two files, and
  `MisledExample` is a failing input.
- The round trip of bsdiff and bspatch holds exactly when no run of diff or extra
  bytes in the patch reaches 2^31, because the stream reader of bspatch takes an
  `int` length (`Sparkle/bspatch.c:92`).  The runs can be read off the patch in
  only one way (`PiecesUnique`), and a new file below 2 GiB has none that long.
  `LongRunFails` is a failing input, an empty old file with any larger new one;
  more generally, for files with no byte in common the size of the new file alone
  decides.
- The retry loop of the receiver is there to make a buffer that is big enough, and
  need not.  Its first size, 8 times the input, is computed in an `unsigned`, and every
  size is passed to the decoder as a 32-bit `lzo_uint` (`distcc/src/compress.c:184`,
  `212`, `223`, `distcc/lzo/lzoconf.h:169-176`), so the decoder is told that size modulo
  2^32, and 0 from the 29th doubling on at the latest.  `HalfGigabyteFails` is a failing
  input, a stream of exactly 2^29 bytes, for which every size is 0.  `EndlessIff` and
  `StreamEndless` say exactly when the loop does not end, and `SendAndReceive` that
  every text of at most 2^31 bytes that compresses to less than 2^29 arrives.  (The
  comment also speaks of a ratio of 10 where the code starts with 8, lines `175` and
  `212`.)
- The values of an expression are meant to be those of all choices of definitions
  (`distcc/include_server/macro_eval.py:20-44`).  Those of every choice made once, at all
  symbols jointly, are found (`JointlyReplaced`).  But a symbol that may not be replaced
  again ends the scan (`distcc/include_server/macro_eval.py:352-363`), so what
  follows it is missed: with A defined as "A B" and B as "1", "A 1" is no value of A
  (`MissedExample`).  Nothing is missed where no macro stands behind such a symbol
  (`NothingMissed`), as when no macro leads back to itself (`RankedIsUnmissed`).
- `_ParseArgs` compares one character with a string of two backslashes
  (`distcc/include_server/macro_eval.py:196`, `208`), which is never equal, so a
  backslash does not protect a quote.  `BackslashExample` is a call that is missed
  for that reason.  `AgreeIff` says exactly when the arguments found are those of
  the reading that was meant, `IntendedWhenUnaffected` that this is so whenever no
  parenthesis or comma follows an odd number of quotes after backslashes.

## Model

| member | source | states |
|---|---|---|
| SuffixSort.Split | Sparkle/bsdiff.c:42-109 | On a stretch of suffixes tied on h bytes, ends with the arrays in a state where the stretch is split by 2h bytes, every number in V is still right about the true suffix order, settled entries are marked, nothing outside the stretch moved, and every read of `V[I[k]+h]` was in range |
| Partition.ThreeWay | Sparkle/bsdiff.c:67-97 | The counting pass and the two sweeps only permute the stretch and leave the smaller, equal and larger keys side by side at the counted places |
| Partition.SelectLeast | Sparkle/bsdiff.c:48-58 | Gathers exactly the entries with the least key at the front of a short stretch, permuting it |
| SortState.SplitsCompose | Sparkle/bsdiff.c:46-108 | Splitting one part of a stretch and then the next is splitting both, although V is rewritten in between |
| SuffixOrder.LessTransitive | Sparkle/bsdiff.c:111-114 | The order to sort by is transitive (with LessTotal and LessIrreflexive: a strict total order on suffixes) |
| SuffixOrder.LessMeans | Sparkle/bsdiff.c:111-114 | A suffix is below another iff at the first place where they differ it has ended or has the smaller byte |
| SuffixOrder.LessByTails | Sparkle/bsdiff.c:48-57 | The doubling step: two suffixes that agree on h bytes are ordered as their h-th successors are |
| SuffixSort.PivotSplit | Sparkle/bsdiff.c:67-105 | After the partition, the entries below the pivot key are smaller suffixes than all others, and those with the pivot key are the least of the rest |
| Buckets.FirstOrder | Sparkle/bsdiff.c:117-150 | Bucketing by first byte sets up the sort at depth one, including the singleton marks that leave out bucket 0 |
| SortPass.Pass | Sparkle/bsdiff.c:153-168 | One pass takes the sort from depth h to depth 2h, and merges everything into one run once h exceeds the length |
| SuffixArrays.AllSettled | Sparkle/bsdiff.c:152 | The exit test is right: a first entry of -(oldsize+1) means that the order is the strict suffix order and that V is its inverse |
| SuffixArrays.QSufSort | Sparkle/bsdiff.c:115-172 | For every byte string, ends with I a permutation of 0..oldsize and the suffixes strictly increasing |
| SuffixArrays.SuffixArrayUnique | Sparkle/bsdiff.c:115-172 | There is only one such order for a byte string |
| PrefixSearch.MatchLen | Sparkle/bsdiff.c:177-188 | The length of the longest common prefix |
| PrefixSearch.CommonIsLongest | Sparkle/bsdiff.c:174-188 | A common prefix that cannot be extended is the longest |
| PrefixSearch.MemcmpTruncated | Sparkle/bsdiff.c:216 | The truncated comparison is negative exactly for a suffix that sorts before the new bytes without being a proper prefix of them |
| PrefixSearch.Search | Sparkle/bsdiff.c:197-221 | Returns the position at which the bisection ends, ties going to the upper neighbour, with its exact match length; the length is positive iff some suffix in the range matches at all, and is the longest iff the bisection is not misled |
| PrefixSearch.MisledIffDerailed | Sparkle/bsdiff.c:345-346 | A search of the whole array is misled iff at one of its probes a suffix of the old file is a proper prefix of the new bytes and the old file contains the prefix of the new bytes one longer |
| PrefixSearch.NeverMisled | Sparkle/bsdiff.c:190-221 | If no non-empty suffix of the old file is a proper prefix of the new bytes, the search is never misled |
| PrefixSearch.NotMisledByContents | Sparkle/bsdiff.c:190-221 | If the old file contains, for none of its suffixes that are proper prefixes of the new bytes, the prefix of the new bytes one longer, then a search of the whole array is not misled, whatever its probes are |
| PrefixSearch.MisledExample | Sparkle/bsdiff.c:215-220 | Looking up "ab" in "aba" gives a match of one byte although two match |
| Delta.MatchesIffOccurs | Sparkle/bsdiff.c:345-346 | A search over the whole array is positive iff the first byte occurs in the old file |
| Delta.ScanStep | Sparkle/bsdiff.c:345-367 | `oldscore` is the number of bytes in [scan, scsc) predicted by the last offset, also when scsc is behind scan, before and after a step, and never negative; the step stops iff the match equals that number and is not empty, or exceeds it by more than 8 |
| Delta.Scan | Sparkle/bsdiff.c:339-368 | The scan loop stops at the first byte whose match meets that criterion, every earlier one having been searched for and rejected with `oldscore` exact, or at the end of the new file |
| Extension.Forwards | Sparkle/bsdiff.c:375-386 | The forward extension is the shortest of those that maximise twice the matching bytes less the length |
| Extension.Backwards | Sparkle/bsdiff.c:389-401 | Likewise for the backward extension |
| Extension.Divide | Sparkle/bsdiff.c:407-421 | The dividing point is the first that keeps most matching bytes of the overlap |
| Delta.Extend | Sparkle/bsdiff.c:373-425 | Both extensions are the best ones, cut back only where they overlap; after an overlap they meet with no byte between |
| Delta.EmitMatch | Sparkle/bsdiff.c:373-463 | One triple with its bytes: the emitted pieces still replay to the first lastscan bytes with the source at lastpos, diff bytes lie inside the old file, dblen + eblen equals lastscan, and the header is untouched; the length of the diff and what is left to the next match are the best extensions |
| Delta.WriteDifferences | Sparkle/bsdiff.c:333-465 | The loop ends with pieces that replay to the whole new file and with dblen + eblen equal to newsize; the pieces are exactly those that the scans of the new file end, each with the best extensions; scan and len always make progress |
| Delta.Bsdiff | Sparkle/bsdiff.c:320-489 | The file written is the patch, with its magic and header lengths, of pieces that replay to the new file and that the scans of the new file end with the best extensions; for two equal files it is one piece of zero diff bytes, for files with nothing in common one of extra bytes only |
| Pieces.JustifiedNew | Sparkle/bsdiff.c:370-463 | A piece ends at the end of the new file or for a match that agrees on more than 8 bytes more than the previous match would if continued |
| Pieces.AppendedIsOnePiece | Sparkle/bsdiff.c:333-465 | If the new file is the old one with bytes appended that do not occur in it, or with none, the patch is one piece: as many zero diff bytes as the old file has, and the appended bytes as extra |
| Pieces.EmittedBytes | Sparkle/bsdiff.c:427-433 | Every diff byte plus the old byte opposite, modulo 256, is the new byte, and extra bytes are the new bytes |
| DeltaUnique.PatchUnique | Sparkle/bsdiff.c:320-489 | No two patches meet all that is promised: the two files determine it to the last byte |
| PatchFormat.OffTOut | Sparkle/bsdiff.c:226-247 | Writes the eight sign-magnitude bytes of the value |
| PatchFormat.OffTIn | Sparkle/bspatch.c:108-124 | Reads them |
| PatchFormat.OffRoundTrip | Sparkle/bspatch.c:108-124 | Reading what was written gives the value back, for every off_t but the least |
| PatchFormat.OffBytesMean | Sparkle/bsdiff.c:226-247 | The top bit of the eighth byte is set iff the value is negative, and the other 63 bits, least byte first, are its magnitude |
| PatchFormat.OffValueMeans | Sparkle/bspatch.c:108-124 | The same of any eight bytes read |
| PatchApply.Read | Sparkle/bspatch.c:92-95 | A stream read succeeds iff all bytes are there and the length fits an int, and then delivers exactly those bytes |
| PatchApply.AddOld | Sparkle/bspatch.c:232-235 | Adds old bytes modulo 256 in place, leaving bytes whose source lies outside the old file |
| PatchApply.ReplayTriple | Sparkle/bspatch.c:214-253 | One round of the loop is one step of the replay, or its rejection, on the same output, positions and streams |
| PatchApply.Bspatch | Sparkle/bspatch.c:161-253 | Returns what the patch means, or rejects it, for every byte string; a file without the magic is rejected, and a file that is returned has the length in the header |
| RoundTrip.PatchReplays | Sparkle/bspatch.c:213-253 | Replaying an emitted patch ends with exactly the new file, having consumed exactly the triples, diff bytes and extra bytes written, iff every run is below 2^31 |
| RoundTrip.HeaderReads | Sparkle/bsdiff.c:326-331 | An emitted file starts with the magic, 24 for each triple, the number of diff bytes, and the new size |
| RoundTrip.TripleAt | Sparkle/bsdiff.c:439-455 | Triple k stands at 32 + 24k: the lengths of its diff and extra bytes, and the seek |
| RoundTrip.DiffBytesAt | Sparkle/bsdiff.c:472-474 | Its diff bytes stand behind all triples and those of the pieces before it |
| RoundTrip.ExtraBytesAt | Sparkle/bsdiff.c:481-483 | Its extra bytes likewise behind all diff bytes |
| RoundTrip.TrailingIgnored | Sparkle/bspatch.c:213-253 | A patch with anything behind it still gives the new file |
| RoundTrip.TruncatedRejected | Sparkle/bspatch.c:213-253 | A patch that is cut short anywhere is rejected |
| RoundTrip.PiecesUnique | Sparkle/bspatch.c:176-253 | A patch file can be read as triples and bytes in only one way |
| RoundTrip.LongRunFails | Sparkle/bspatch.c:92-95 | With an empty old file and a new one of 2^31 bytes or more, the patch is rejected |
| RoundTrip.DiffThenPatch | Sparkle/bspatch.c:161-253 | bspatch after bsdiff returns the new file iff every run of the patch that bsdiff wrote is below 2^31, and rejects the patch otherwise; always the file when the new file is below 2^31, and for files with no byte in common only then |
| LzoCompress.FindMatch | distcc/lzo/minilzo.c:1675-1702 | For any dictionary contents, a match is found iff the entry decided on lies in the input within reach, is near or agrees on the fourth byte, and agrees on three bytes; the second entry is decided on iff the first is within reach, far and does not agree on the fourth byte |
| LzoCompress.WriteLiterals | distcc/lzo/minilzo.c:1752-1777 | Pending literals go into the last offset bytes, or into a run of any length |
| LzoCompress.WriteMatch | distcc/lzo/minilzo.c:1780-1874 | Each of the four token classes is the encoding of the measured match |
| LzoCompress.DoCompress | distcc/lzo/minilzo.c:1643-1886 | What was written encodes the input up to ii as well-formed items, for any dictionary contents; the items are those of the rounds, in each of which a match found is taken at its full length and the entry decided on is replaced |
| LzoCompress.Compress | distcc/lzo/minilzo.c:1888-1941 | The output is a valid stream whose text is the input, for any dictionary contents, and the one that comes of these rounds; at least 19 bytes that are all the same become at most 14 and a 255th of their number |
| LzoCompress.HashExamples | distcc/lzo/minilzo.c:1366 | Three values of the hash of four bytes before it is cut to 14 bits |
| LzoUnique.StreamUnique | distcc/lzo/minilzo.c:1643-1941 | The input and the dictionary contents determine the stream |
| LzoDecoder.CopyBackFast | distcc/lzo/minilzo.c:2860-2884 | The four-byte copy of a match, overlapping ones included, equals the byte-wise copy |
| LzoDecoder.CopyRun | distcc/lzo/minilzo.c:2620-2651 | The four-byte copy of a literal run equals the byte-wise copy |
| LzoDecoder.Decompress | distcc/lzo/minilzo.c:2541-2932 | On every input and every capacity, the in-place decoder ends with the status and output of the state machine, with or without four-byte copies |
| LzoStream.MatchReads | distcc/lzo/minilzo.c:2684-2825 | The decoder reads each match encoding back as its offset, length and literal count |
| LzoStream.CopyAdvances | distcc/lzo/minilzo.c:2860-2902 | Executing a match and its trailing literals extends the output by them, or overruns it exactly when they do not fit |
| LzoStream.StreamDecodes | distcc/lzo/minilzo.c:2541-2932 | A valid stream decodes to its text with LZO_E_OK for every capacity at least its length, and to LZO_E_OUTPUT_OVERRUN for every smaller one |
| LzoEnds.ExtraInput | distcc/lzo/minilzo.c:2909-2913 | An input that decodes with LZO_E_OK, with anything behind it, gives the same bytes and LZO_E_INPUT_NOT_CONSUMED |
| LzoEnds.TrailingRejected | distcc/lzo/minilzo.c:2909-2913 | So a valid stream with anything behind it is not accepted |
| LzoEnds.TruncatedRejected | distcc/lzo/minilzo.c:2541-2932 | No valid stream that is cut short is accepted, whatever the capacity |
| LzoEnds.OkEnds | distcc/lzo/minilzo.c:2770-2813 | What is accepted ends with an end marker: an instruction byte of 16 to 23, its length, and an offset of 0 |
| LzoEnds.TooFarBack | distcc/lzo/minilzo.c:2858 | A match that reaches back behind the start of the output ends the decoding with LZO_E_LOOKBEHIND_OVERRUN and the output so far, whatever follows |
| LzoEnds.RunCutShort | distcc/lzo/minilzo.c:2619 | A run with fewer bytes left than it announces and one more ends it with LZO_E_INPUT_OVERRUN |
| LzoEnds.TailCutShort | distcc/lzo/minilzo.c:2897-2907 | So do the literals behind a match; an input that is used up where an instruction should stand gives LZO_E_EOF_NOT_FOUND |
| LzoEnds.EndlessRun | distcc/lzo/minilzo.c:2609-2618 | A run whose length consists of zeros up to the end gives LZO_E_INPUT_OVERRUN |
| LzoEnds.EndlessMatch | distcc/lzo/minilzo.c:2743-2794 | So does each of the two matches that have such a length |
| LzoEnds.TwoByteMatch | distcc/lzo/minilzo.c:2826-2849 | An instruction byte below 16 after a match copies two bytes from 1 to 1024 back |
| LzoEnds.FarAfterRun | distcc/lzo/minilzo.c:2653-2681 | After a run it copies three bytes from 2049 to 3072 back |
| LzoBounds.MatchSaves | distcc/lzo/minilzo.c:1680-1687 | A match token is shorter than its text |
| LzoBounds.CompressedSize | distcc/lzo/minilzo.c:1752-1941 | The output is at most n + (n + 3)/22 + 4 bytes |
| LzoBounds.LargestAttained | distcc/lzo/minilzo.c:1752-1941 | That bound is exact for the format: from 19 bytes up, some stream of every size attains it |
| LzoBounds.BufferSuffices | distcc/src/compress.c:139 | The allocated buffer holds every such stream for a text of n bytes iff it holds the largest |
| LzoBounds.BufferLimits | distcc/src/compress.c:139 | It does for texts of up to 502 bytes and of 512 to 524, and for no others |
| LzoBounds.NeverOverruns | distcc/lzo/minilzo.c:2604-2902 | On any input whatever, a capacity of 256 times its length never overruns |
| LzoBounds.LengthsFit | distcc/lzo/minilzo.c:2612-2618 | On inputs below 2^24 bytes no length that the decoder counts reaches 2^32 |
| LzoTransfer.NextCapacity | distcc/src/compress.c:212-243 | The size that the decoder is told for n bytes is doubled modulo 2^32 by each attempt |
| LzoTransfer.CapacityVanishes | distcc/src/compress.c:212-243 | It is 0 from the 29th doubling on, whatever the input |
| LzoTransfer.Receive | distcc/src/compress.c:183-254 | On any input of 32-bit length the retry loop doubles only after overruns and ends with the decoder's answer for the first size that does not overrun, which it writes out iff the status is LZO_E_OK; it does not end iff every size overruns; it never doubles if 8 times the input is enough, and below 2^24 bytes doubles at most five times |
| LzoTransfer.EndlessIff | distcc/src/compress.c:212-243 | The loop does not end iff each of the first thirty sizes overruns |
| LzoTransfer.StreamEndless | distcc/src/compress.c:212-243 | On a valid stream it does not end iff every size is below that of the text |
| LzoTransfer.HalfGigabyteFails | distcc/src/compress.c:212 | There is a valid stream of exactly 2^29 bytes on which it does not end |
| LzoTransfer.SendAndReceive | distcc/src/compress.c:125-254 | For every text, taken modulo the 32 bits of its length, and any dictionary contents: if it compresses to less than 2^32 bytes, exactly that text is received when some size is large enough, and the loop does not end otherwise; it is received after at most five doublings when it has at most 2^31 bytes and compresses to less than 2^29 |
| Adler.ChecksumContinues | distcc/lzo/minilzo.c:775-803 | Checksumming x and going on with y is checksumming x + y, from any starting value |
| Adler.RawReduces | distcc/lzo/minilzo.c:784-801 | Reducing once per block equals reducing after every byte |
| Adler.RawFits | distcc/lzo/minilzo.c:766 | Within a block of 5552 bytes no sum exceeds 2^32-1, from any starting value |
| Adler.NmaxIsLargest | distcc/lzo/minilzo.c:766 | A block of 5553 bytes can exceed it |
| Adler.ChecksumIs | distcc/lzo/minilzo.c:765-803 | The checksum in that closed form |
| Adler.Adler32 | distcc/lzo/minilzo.c:774-803 | Equals the per-byte definition of section 2.2 of RFC 1950, all arithmetic within 32 bits; for n >= 1 bytes the low half is the old low half and all bytes modulo 65521, the high half the old high half, n times the old low half, and the bytes weighted n, n - 1, ..., 1, modulo 65521 |
| IncludeWorld.FirstHitIsFirst | distcc/include_server/cache_basics.py:715-724 | Plain resolution yields the first directory that has the file, or none if no directory has it |
| IncludeWorld.QuoteMeans | distcc/include_server/include_analyzer_memoizing_node.py:421-436 | A quoted name leads to the file in the directory of the including file, or else to that in the first quote directory that has one |
| IncludeWorld.AngleMeans | distcc/include_server/include_analyzer_memoizing_node.py:421-436 | A name in angle brackets leads to the file in the first angle directory that has one |
| IncludeWorld.NextMeans | distcc/include_server/include_analyzer_memoizing_node.py:466-480 | An include_next leads to the files in all quote directories that have one |
| IncludeGraph.Analyzer.FindNode | distcc/include_server/include_analyzer_memoizing_node.py:332-597 | Ends on every include graph; the node returned stands for what the key resolves to and is the one the cache keeps for it; keys keep their nodes, and nodes still open are untouched |
| IncludeGraph.Analyzer.Follow | distcc/include_server/include_analyzer_memoizing_node.py:543-597 | The children of a file's node stand for what its directives lead to, kind by kind and in order |
| IncludeGraph.Analyzer.FollowNext | distcc/include_server/include_analyzer_memoizing_node.py:466-484 | The dummy node of an include_next has a child for every directory that has the file |
| IncludeGraph.Analyzer.FollowFile | distcc/include_server/include_analyzer_memoizing_node.py:486-541 | A file not met before gets a node under its name and its real place before its directives are followed; a system file's are not |
| IncludeGraph.NameResolves | distcc/include_server/include_analyzer_memoizing_node.py:421-436 | Resolving a name along the search directories finds what plain inclusion means by it |
| IncludeGraph.FewerLeft | distcc/include_server/include_analyzer_memoizing_node.py:508-520 | A new key among the finitely many real places and resolved names leaves fewer, which is why the descent ends |
| IncludeClosure.StepIsMet | distcc/include_server/include_analyzer_memoizing_node.py:599-648 | A child of a node reached by plain inclusion stands for something reached by plain inclusion |
| IncludeClosure.AllSeen | distcc/include_server/include_analyzer_memoizing_node.py:599-648 | A set of nodes that holds the root and all children of its members has a node for every place plain inclusion reaches |
| IncludeClosure.ClosureExceptSystem | distcc/include_server/include_analyzer_memoizing_node.py:599-648 | The files found are exactly the non-system files reachable without passing through a system file, each with exactly the absolute names under which nodes reachable in the graph found it, one entry for each such node |
| IncludeClosure.RunAlgorithm | distcc/include_server/include_analyzer_memoizing_node.py:301-330 | The same files for a translation unit analysed with whatever caches earlier ones left, which stay usable for the next; each file comes with exactly the absolute names by which nodes reachable from the node of the translation unit found it, one for each such node, all of which lead to it; the translation unit itself, unless it is a system file, is listed under the name asked for if that is absolute |
| SupportSets.UnionCache.SetId | distcc/include_server/include_analyzer_memoizing_node.py:72-80 | Ids and sets stay one to one; a set seen before keeps its id |
| SupportSets.UnionCache.Union | distcc/include_server/include_analyzer_memoizing_node.py:86-94 | The id of the true union, cached or not |
| SupportSets.UnionCache.SameSet | distcc/include_server/include_analyzer_memoizing_node.py:126-135 | Comparing ids compares sets |
| SupportSets.SupportRecord.Update | distcc/include_server/include_analyzer_memoizing_node.py:126-135 | Adds the set to this record's support and to no other, and keeps the reverse map exact |
| SupportSets.SupportMaster.SupportRecordDependencyAdd | distcc/include_server/include_analyzer_memoizing_node.py:162-167 | Adds the record under exactly the given symbols |
| SupportSets.SupportMaster.InvalidateRecords | distcc/include_server/include_analyzer_memoizing_node.py:169-173 | Makes invalid exactly the records whose support contains the symbol |
| MacroArgs.ParseArgs | distcc/include_server/macro_eval.py:173-216 | The loop over counters returns the arguments between the outer commas, or nothing if the parenthesis is absent or never closed |
| MacroArgs.ArgsAreText | distcc/include_server/macro_eval.py:176-180 | The arguments joined by commas and parenthesised are the text consumed, which ends where the parenthesis is first closed |
| MacroArgs.ArgsLater | distcc/include_server/macro_eval.py:173-216 | The arguments of a call do not depend on the text before it |
| MacroNesting.ArgsBalanced | distcc/include_server/macro_eval.py:173-216 | In every argument found quotes are paired, parentheses outside quotes are balanced and never close more than were opened, and every comma outside quotes is inside parentheses |
| MacroNesting.DocumentedExample | distcc/include_server/macro_eval.py:173-182 | The example of the documentation: (a,m(c, n(d)), c) has three arguments and ends at 17 |
| MacroQuotes.BackslashExample | distcc/include_server/macro_eval.py:196-208 | A call whose first argument is a quoted string holding an escaped quote is not recognised, though the reading that was meant finds two arguments |
| MacroQuotes.QuotedDiffers | distcc/include_server/macro_eval.py:196-208 | The code and the reading that was meant differ on being inside quotes exactly after an odd number of quotes that follow a backslash |
| MacroQuotes.ReadingsAgree | distcc/include_server/macro_eval.py:196-208 | They agree at every position of a stretch iff no quote in it follows a backslash |
| MacroQuotes.AgreeIff | distcc/include_server/macro_eval.py:173-216 | The arguments are the intended ones iff both readings close the call at the same place, or neither does, and see the same commas before it |
| MacroQuotes.IntendedWhenUnaffected | distcc/include_server/macro_eval.py:173-216 | So whenever no parenthesis or comma read comes after an odd number of such quotes |
| MacroQuotes.IntendedWithoutEscapes | distcc/include_server/macro_eval.py:173-216 | And whenever there is no such quote in the text of the call |
| MacroText.SubstituteWeaves | distcc/include_server/macro_eval.py:164-171 | The result is the text between the occurrences of the parameter, joined by the argument |
| MacroText.HitsOccur | distcc/include_server/macro_eval.py:169 | What is replaced are occurrences of the parameter between word boundaries, from left to right, that do not overlap |
| MacroText.AllHit | distcc/include_server/macro_eval.py:169 | And no occurrence is passed over, unless it overlaps one that is replaced |
| MacroText.SubstituteAbsent | distcc/include_server/macro_eval.py:164-171 | A text in which the parameter does not occur is left alone |
| MacroText.SubstituteSelf | distcc/include_server/macro_eval.py:164-171 | Substituting a parameter for itself changes nothing |
| MacroNesting.WordCharacters | distcc/include_server/macro_eval.py:146 | Words consist of ASCII letters, digits and the underscore, by their codes |
| MacroNesting.WordOccurs | distcc/include_server/macro_eval.py:169 | A word occurs where its text stands and no word character is next to it |
| MacroNesting.UnderscoreExample | distcc/include_server/macro_eval.py:169 | Substituting y for x in "x_ x" changes the second x only |
| MacroNesting.SpaceCharacters | distcc/include_server/macro_eval.py:144 | Blanks are the six ASCII space characters, by their codes |
| MacroPound.MassageNothing | distcc/include_server/macro_eval.py:219-221 | A text without pound signs is left alone |
| MacroPound.MassageJoins | distcc/include_server/macro_eval.py:219-221 | Two pound signs disappear, and what is on either side is joined |
| MacroPound.MassageQuotes | distcc/include_server/macro_eval.py:144 | One that is not behind a word disappears with the blanks after it, the next non-blank text is put in double quotes, the text before stays, and the rest is massaged on its own |
| MacroPound.MassageKeeps | distcc/include_server/macro_eval.py:144 | One directly behind a word stays |
| MacroEval.Values | distcc/include_server/macro_eval.py:226-363 | The expression itself is always one of its values; the recursion ends on every table |
| MacroEval.EvalExprHelper | distcc/include_server/macro_eval.py:226-363 | The evaluator that accumulates sets ends on every table and computes exactly those values |
| MacroEval.EvalMacro | distcc/include_server/macro_eval.py:288-330 | One definition contributes the unexpanded symbol and, for a call with the right number of arguments, every choice of argument values |
| MacroEval.ReplacedAnywhere | distcc/include_server/macro_eval.py:20-44 | Wherever an object-like macro stands in the expression, the text with it replaced by any one of its definitions is a value; this is about one macro at a time |
| MacroEval.CallReplaced | distcc/include_server/macro_eval.py:308-330 | Wherever a function-like macro is called with the right number of arguments, the text with the call replaced by its right-hand side, arguments put in and pound signs worked off, is a value |
| MacroPound.JoinedExample | distcc/include_server/macro_eval.py:308-330 | With A(x) defined as x##a.c, "ya.c" is a value of A(y) |
| MacroSound.ValuesDerive | distcc/include_server/macro_eval.py:226-363 | Every value is reached from the expression by replacing one macro at a time, somewhere in the text, by one of its definitions, with arguments that are reached likewise: nothing else is ever a value |
| MacroEval.Monotone | distcc/include_server/macro_eval.py:20-44 | More definitions never take a value away, self- and mutually recursive macros included |
| MacroChoices.JointlyReplaced | distcc/include_server/macro_eval.py:20-44 | Every text got from the expression by leaving alone or replacing each of its macros, calls with arguments treated likewise included, is a value |
| MacroChoices.NothingMissed | distcc/include_server/macro_eval.py:20-44 | With object-like definitions and the choices made again inside what was put in, every result is a value if nothing that can be replaced stands behind a symbol that is just being replaced |
| MacroChoices.RankedIsUnmissed | distcc/include_server/macro_eval.py:20-44 | That is so wherever the right-hand sides hold only macros of lower rank, so that none leads back to itself |
| MacroChoices.MissedExample | distcc/include_server/macro_eval.py:352-363 | With A defined as "A B" and B as "1", the values of A are "A" and "A B", without "A 1" |
| MacroEval.DefineKeepsValues | distcc/include_server/parse_file.py:131-159 | A definition inserted later never removes a value found before |
| StatCache.MapToIndex.Index | distcc/include_server/cache_basics.py:454-462 | Indices and strings stay inverse to each other, and an index once given stands |
| StatCache.MapToIndex.Unique | distcc/include_server/cache_basics.py:433-457 | Two indices stand for the same string only if they are equal |
| StatCache.Grow | distcc/include_server/cache_basics.py:829-831 | Both arrays become long enough for the directory and keep what they held |
| StatCache.FirstIsFirst | distcc/include_server/cache_basics.py:715-724 | The uncached search yields the first directory that has the file |
| StatCache.BuildStatCache.Probe | distcc/include_server/cache_basics.py:809-889 | The answer for one directory is the file system's, all cells stay truthful, and a known cell is not asked again |
| StatCache.BuildStatCache.Resolve | distcc/include_server/cache_basics.py:698-891 | After any calls before, the answer is that of the uncached search along [searchdir] + searchlist, with the index of the real path |
| Cleanup.StepKeeps | distcc/src/cleanup.c:85-163 | No statement uses freed memory, and after each one the list is fit for a signal handler |
| Cleanup.HandlesAll | distcc/src/cleanup.c:95-120 | The handler tries the pending names in reverse order, and reads nothing freed |
| Cleanup.ReversedAt | distcc/src/cleanup.c:95-120 | The k-th name tried is the k-th from the end of those pending |
| Cleanup.SignalAnywhere | distcc/src/cleanup.c:85-163 | After any sequence of additions and cleanups, cut short anywhere, every name added has had its removal tried before or by the handler |
| Cleanup.CleanRuns | distcc/src/cleanup.c:85-123 | A cleanup that is not interrupted tries every pending name and leaves none |
| Cleanup.AddRuns | distcc/src/cleanup.c:130-164 | An addition that is not interrupted and gets its memory, with the array full or not, adds exactly that name and keeps the others |
| Cleanup.NothingLeaks | distcc/src/cleanup.c:85-164 | Between operations, after any sequence of them, nothing is allocated but the list and the names on it |

## Left out

- Files, sockets, processes, logging and malloc failures outside `cleanup.c`: buffers are arrays and sequences, and error exits of the system calls are dropped.
- The bzip2 format (BSDIFF40) of bspatch: only the raw BSDIFN40 format is modelled.
- Delta.Bsdiff: the old file is taken to be shorter than 2^63 bytes and the new one than 2^58, so that every length in the patch is an off_t.
- PatchApply.Read: a negative length or one of 2^31 or more is a read that fails, where the C library is asked for a huge number of bytes.
- PatchApply.ReplayTriple: a triple with a negative length is a rejection, where the original lets it past its two sanity checks.
- PatchApply.Bspatch: negative lengths and lengths of 2^31 or more in a triple are plain rejections; what the C library does with them is not modelled.
- LzoDecoder.Decompress: bytes the decoder reads without a bounds check are an error status of their own, ReadPastEnd, when they lie beyond the input; length counters are unbounded, where those of the original wrap at 2^32 after more than 16 million zero bytes (not on inputs below 2^24 bytes, by LengthsFit).
- LzoCompress.Compress: the compressed size is bounded for single-byte runs and by the format only; the output is a growing sequence, not a buffer of fixed size.
- LzoBounds.BufferSuffices: speaks of every stream of the format whose far matches have four bytes; which of them the compressor chooses for a text is not said, and so not whether it ever writes past the buffer.
- LzoCompress.FindMatch: dictionary entries are arbitrary integers checked against the input, in place of comparisons of stale pointers; the compressor variants LZO1Y, LZO1Z and COPY_DICT are not compiled and not modelled.
- LzoTransfer.Receive: allocations always succeed; a receiver that has been told 0 once stops as unending, where the original goes round with 0 for ever, and one that is refused memory for a huge size before that gives up.
- LzoTransfer.SendAndReceive: when the compressed bytes are 2^32 or more and only a part of them is sent, what the receiver makes of that part; an empty file, which is sent as a length of 0 without being compressed.
- Adler.Adler32: the answer 1 for a null buffer.
- IncludeGraph.Analyzer.FindNode: computed includes and with them invalid support records, header maps, frameworks and mirroring; one include configuration at a time; the file system is fixed, and two names of one real directory lead to the same files.
- IncludeClosure.ClosureExceptSystem: the order in which the nodes are visited, and with it that of the names in a list.
- SupportSets.SupportRecord.Update: when nodes call it is not modelled, nor that the symbols passed are all that the node's includes depend on.
- MacroChoices.NothingMissed: speaks of object-like definitions; choices made again inside the right-hand side of a call, and calls that only arise there, are left out.
- MacroEval.EvalExprHelper: definitions with an empty right-hand side, which the parser stores as None, and non-ASCII letters in symbols.
- macro_eval.ResolveExpr and parse_file: matching of file names in values, and the parsing of directives.
- StatCache.BuildStatCache.Resolve: header maps, the framework fallback, path observations and the debugging re-check of cached answers; the dictionaries of dictionaries are one dictionary on pairs; indices start at 1, so that "no search directory" is an Option.
- Cleanup.AddRuns: the size of the array is an unbounded integer, where tripling an `int` overflows with about 10^9 names.
- Cleanup.SignalAnywhere: DISTCC_SAVE_TEMPS, and whether a removal succeeds; the handler runs once, to its end, and the process then exits.
- email and time quotas of the include server, the other client and server code, and the Sparkle user interface, which would add only easy members.
