# Verified model of llm-cc

llm-cc scores source files: it cuts them into blocks at tokens that a language model found surprising, nests the blocks
into a tree, and sums breadth and depth. This project models the logic of that program that does not depend on foreign
libraries, in Dafny, and proves what the code is meant to guarantee. `dafny verify dfyconfig.toml` checks all of it.

The files follow the program:

- **Globs** (`src/glob.cc`): `Utf8`, `Wildcard`, `GlobSegment`, `Glob`. Two greedy matchers that remember one star, and a
  validator and a matcher that scan brackets separately, against a declarative meaning of patterns.
- **From source to score** (`src/offset_map.h`, `src/lang.cc`, `src/jsonl.cc`, `src/core.cc`, `src/analyze.cc`):
  `OffsetMap`, `Cleaning`, `Prepare`, `Records`, `Tokens`, `Threshold`, `Sweep`, `Units`, `Cuts`, `Forest`, `Hierarchy`,
  `CoreAnalysis`, `FunctionScores`, `FileAnalysis`. Each stage is proved against a specification of its own, and what it
  guarantees is what the next one requires: `FileAnalysis.AnalyzePrepared` puts them together.
- **Inference** (`src/score_cmd.cc`, `src/scoring.cc`): `ReductionPool` is the thread pool as a state machine whose
  every interleaving is a run. `Windows` and `Inference` are the overlapping windows, the batches, and what a cache hit
  can tell from the records. `Scoring` is the streaming softmax over exact reals.
- **Cache accounting** (`src/entropy_cache.cc`): `CacheEntries`, `EntropyCache`. A class whose ghost history has the disk
  after every single file operation, so that "a crash between any two operations" is a statement about that history.
- **Formats and arithmetic** (`src/sha256.h`, `tools/embed_payloads.cc`, `src/payload.cc`, `src/cache.cc`): `Sha256Block`,
  `Sha256`, `Sha256Hash`, `LittleEndian`, `Payload`, `Bundle`, `Standalone`, `CivilDate`.
- `Wrappers`, `Sequences`, `Arithmetic`, `Pieces` and `Sorting` hold what several of them share.

Code that only computes is a function. A loop or an object that the program updates in place is a method or a class,
proved against a specification function or predicate, about which the lemmas speak. An exception is a result: `None`,
`false`, or a constructor of its own.

Four things the proofs brought out:

- `PrunesDirectory` prunes only for patterns that end in `**`. That is exact for those, and conservative for the others:
  with `**/*` everything beneath every directory matches, yet none is pruned (`Glob.PruningIsConservative`).
- Of the reader's limits the bundle packer enforces only that paths are safe. A bundle without entries, with an empty file
  or with a path of more than 4096 bytes is packed without complaint and refused when it is read
  (`Bundle.PackedButRefused` has the exact condition, `Bundle.EmptyBundleRefused` the smallest input).
- Records whose first piece is nothing but the tokenizer's dummy prefix can be scored but never published
  (`Records.NormalizedComplete`); all others that align can.
- A cache write is refused for lack of room only when deletions fail (`EntropyCache.Cache.Write`).

## Model

| member | source | states |
|---|---|---|
| `Utf8.NextCodePoint` | src/glob.cc:15-58 | the loop returns exactly the code point and length that sections 3 and 4 of RFC 3629 give, or one byte as U+DC80..U+DCFF when no valid sequence starts there |
| `Utf8.DecodeEncoded` | src/glob.cc:22-57 | every Unicode scalar value decodes back from its RFC 3629 encoding, whatever follows it |
| `Utf8.EncodeDecoded` | src/glob.cc:25-57 | whatever decodes as a multi-byte sequence is the encoding of a scalar value: no overlong form, no surrogate, nothing past U+10FFFF |
| `Wildcard.MatchesIffSplits` | src/glob.cc:111-177 | the item-by-item definition of a match equals the declarative one: there is a cut of the text into one piece per item |
| `Wildcard.LatestStarSuffices` | src/glob.cc:117-140 | remembering only the last star loses no match: if the rest of the pattern from the later star can be reached at all, every earlier choice is subsumed |
| `Wildcard.ForgetStar` | src/glob.cc:117-124 | when a later star is met, the earlier one can be dropped from the search state without changing whether a match exists |
| `Wildcard.LengthenStar` | src/glob.cc:133-139 | letting the last star take one more character, when the current attempt fails, keeps every match reachable |
| `Wildcard.StepOne` | src/glob.cc:125-132 | taking a matching character keeps the set of reachable matches |
| `Wildcard.TextExhausted` | src/glob.cc:141-144 | once the text is spent, a longer run for the star cannot help: a match is reachable exactly when the rest of the pattern matches nothing |
| `Wildcard.ContentsOf` | src/glob.cc:253-260 | replacing a trailing `**` by `*` and `**` means: whatever the prefix matches, plus at least one more segment |
| `GlobSegment.SameBracket` | src/glob.cc:62-91 | a bracket set is read by the matcher up to exactly the `]` at which the validator's separate scan stopped |
| `GlobSegment.ValidIffReadable` | src/glob.cc:193-227 | a segment passes the validator exactly when it reads as a list of pattern items, so the matcher never runs past its end |
| `GlobSegment.ValidateSegment` | src/glob.cc:193-227 | the validator's loop accepts exactly the segments that are not empty, `.` or `..`, end in no lone backslash and close every bracket |
| `GlobSegment.MatchClass` | src/glob.cc:60-91 | on a bracket set that reads, the loop ends behind it, inside the pattern, and answers whether the value is in the set, negation included |
| `GlobSegment.MatchOne` | src/glob.cc:93-109 | one pattern item is matched against the next code point, and both positions move to what follows |
| `GlobSegment.MatchSegment` | src/glob.cc:111-145 | for every valid pattern segment and every byte string the greedy loop ends in bounds and is true exactly when some assignment of code-point runs to the stars matches |
| `GlobSegment.WildcardMeaning` | src/glob.cc:93-145 | `?` matches any one character and `*` every text |
| `GlobSegment.LiteralMeaning` | src/glob.cc:93-109 | a plain ASCII character matches itself, and so does any behind a backslash |
| `GlobSegment.RangeMeaning` | src/glob.cc:60-91 | a set with a range matches the characters in it, and negated by `!` or `^` all others |
| `GlobSegment.CharactersSpell` | src/glob.cc:15-58 | the characters of a text spell the text again, valid UTF-8 or not, so different texts never read alike |
| `Glob.SplitPath` | src/glob.cc:179-191 | the segments are the non-empty pieces between slashes |
| `Glob.SplitJoin` | src/glob.cc:179-191 | splitting a joined list of slash-free pieces gives the list back |
| `Glob.JoinSplit` | src/glob.cc:179-191 | joining the pieces of a path gives the path back |
| `Glob.SegmentsBeneath` | src/glob.cc:179-191 | the segments of directory/rest are those of the directory and then those of the rest |
| `Glob.MatchSegments` | src/glob.cc:147-177 | the greedy loop over segments is true exactly when some assignment of segment runs to the `**` matches |
| `Glob.PlainSegments` | src/glob.cc:147-177 | without `**` a pattern matches segment by segment |
| `Glob.GlobstarMatches` | src/glob.cc:153-176 | and `**` alone matches every path |
| `Glob.Compile` | src/glob.cc:231-262 | a pattern compiles exactly when it is acceptable, and the compiled fields are those of the pattern, trailing `**` rewritten |
| `Glob.CompiledReadable` | src/glob.cc:242-260 | every segment of a compiled glob is valid, so matching never meets a malformed one |
| `Glob.Glob.MatchesPath` | src/glob.cc:264-267 | Matches is true exactly when the path is in the language that the pattern denotes |
| `Glob.PrunesExactly` | src/glob.cc:253-281 | for a pattern with a trailing `**`, some ancestor-or-self matching the prefix is the same as everything strictly beneath the directory matching |
| `Glob.InsideDirectory` | src/glob.cc:269-281 | if an ancestor-or-self of a directory matches the prefix, every path strictly beneath the directory matches the pattern |
| `Glob.Glob.PrunesDirectory` | src/glob.cc:269-281 | PrunesDirectory is true exactly when the pattern ends in `**` and every path strictly beneath the directory matches |
| `Glob.PruningIsConservative` | src/glob.cc:269-272 | the restriction to a trailing `**` is needed: for `**/*`, a pattern that compiles, everything beneath every directory matches, and no directory is pruned |
| `ReductionPool.Keeps` | src/score_cmd.cc:941-1032 | every step of every thread keeps the pool's invariant |
| `ReductionPool.RunInv` | src/score_cmd.cc:941-1032 | so it holds in every state of every run, whatever the interleaving and however often Reduce is called |
| `ReductionPool.ReduceScoresEachRowOnce` | src/score_cmd.cc:941-975 | in every run a Reduce called on n rows that returns without an error has had each of rows 0 to n - 1 assigned exactly once; with an error some row is missing; none is ever assigned twice |
| `ReductionPool.CallOf` | src/score_cmd.cc:941-975 | whenever Reduce is under way, and so when it returns, there is the one call that it answers |
| `ReductionPool.NoWorkerTouchesClearedSpans` | src/score_cmd.cc:963-971 | while no task is active, no worker is anywhere in ReduceRows |
| `ReductionPool.AssignsInsideSpans` | src/score_cmd.cc:1013-1031 | an assignment is inside the spans published for the very call the thread is serving, and no other thread holds that row |
| `ReductionPool.EveryWorkerServesEveryCall` | src/score_cmd.cc:989-1011 | when a call returns, every worker has served each of the calls made so far exactly once, in order |
| `ReductionPool.SomeWorkerCanMove` | src/score_cmd.cc:966-1010 | while Reduce waits, some worker still owes its decrement, and each such worker has an enabled step: no wake-up is lost |
| `ReductionPool.NeverStuck` | src/score_cmd.cc:941-1010 | no interleaving leaves Reduce stuck: it returns with the next step, or a thread that it needs can move |
| `ReductionPool.StepsMakeProgress` | src/score_cmd.cc:966-1031 | while Reduce is under way no step adds work, and every step of a thread that it still needs, caller or worker, brings the return strictly closer |
| `ReductionPool.StoppedWorkersLeave` | src/score_cmd.cc:978-998 | once StopWorkers has notified, each worker still there can only leave, so every join returns |
| `CacheEntries.SortedListing` | src/entropy_cache.cc:560-561 | sorting a directory listing by last use gives a listing of the same entries, oldest first, unknown times first |
| `EntropyCache.AccurateAfterRemoval` | src/entropy_cache.cc:564-567 | subtracting a removed entry keeps count, byte sum and expiry bound accurate, without underflow |
| `EntropyCache.AccurateAfterInsert` | src/entropy_cache.cc:577-585 | adding an entry and taking the earlier expiry keeps the accounting accurate |
| `EntropyCache.ExpiredMeaning` | src/entropy_cache.cc:282-285 | an entry whose time is readable has expired exactly when its recorded expiry has come |
| `EntropyCache.EvictionOrder` | src/entropy_cache.cc:560-568 | with deletions working, no entry that was evicted was used later than one that stayed |
| `EntropyCache.AllOthersGone` | src/entropy_cache.cc:559-576 | if evicting does not make room although deletions work, nothing but the target is left |
| `EntropyCache.Cache.constructor` | src/entropy_cache.cc:222-245 | any directory and any record that is not a wrong clean one is a starting point, over the limit or not |
| `EntropyCache.Cache.Now` | src/entropy_cache.cc:45-49 | assumed of the environment: wherever the program reads the clock, it has not gone back |
| `EntropyCache.Cache.Commit` | src/entropy_cache.cc:246-280 | each file operation adds one disk to the history; a crash leaves the last one |
| `EntropyCache.Cache.SaveAccounting` | src/entropy_cache.cc:246-255 | a record is replaced in one step or not at all; a clean one has to be accurate |
| `EntropyCache.Cache.InvalidateAccounting` | src/entropy_cache.cc:256-264 | the record is removed or stays |
| `EntropyCache.Cache.RemoveEntry` | src/entropy_cache.cc:265-269 | one entry goes, or none when deletions fail; allowed only while no clean record is on disk |
| `EntropyCache.Cache.WriteEntry` | src/entropy_cache.cc:577-578 | the target is replaced in one step, with the time of the write, provided the sum stays within the limit |
| `EntropyCache.Cache.RebuildAccounting` | src/entropy_cache.cc:212-221 | what is counted from the directory is accurate and clean |
| `EntropyCache.Cache.LoadAccounting` | src/entropy_cache.cc:222-245 | whatever record is on disk, dirty, absent, malformed or clean, what is loaded is accurate |
| `EntropyCache.Cache.Sweep` | src/entropy_cache.cc:314-322 | nothing but expired entries goes, with deletions working all of them, and the accounting is accurate again |
| `EntropyCache.Cache.Evict` | src/entropy_cache.cc:559-569 | entries other than the target go oldest first, no more than needed, until there is room; the accounting stays accurate even when deletions fail |
| `EntropyCache.Cache.ForgetTarget` | src/entropy_cache.cc:549-558 | taking out the entry to be replaced never underflows and leaves the accounting of the others |
| `EntropyCache.Cache.Write` | src/entropy_cache.cc:518-588 | a write is skipped, refused, failed or stored; what it removes had expired or was evicted, with working deletions oldest first, and nothing more than the new entry needs; if stored, the entry is fresh, the record clean and accurate, the sum within the limit, with working deletions nothing expired at its start is left, and a sweep that was due is done; it fails only when an operation fails, and is refused only when deletions do |
| `EntropyCache.Cache.Read` | src/entropy_cache.cc:483-516 | a lookup hits exactly the acceptable entries that have not expired; when touches work, the entry is then as fresh as the lookup; besides it, nothing goes but what had expired, and nothing changes; maintenance that was due is done |
| `EntropyCache.Cache.Refresh` | src/entropy_cache.cc:503-510 | the reader's touch changes the time of one entry only, never that of an expired one, and when touches work always that of any other |
| `EntropyCache.Cache.Maintain` | src/entropy_cache.cc:330-343 | maintenance runs only when a sweep is due, and then, if nothing fails, leaves nothing expired, a record of the sweep and a clean accounting; it removes expired entries only |
| `EntropyCache.Cache.Prune` | src/entropy_cache.cc:615-638 | what is removed had expired or was evicted, with working deletions oldest first, and no more than the limit asks for; a prune that is forced or due and succeeds with working deletions leaves the sum within the limit and nothing expired; one that is neither changes nothing; it fails only when an operation fails |
| `EntropyCache.Cache.Clear` | src/entropy_cache.cc:639-658 | clearing that reports success leaves no entry, and it succeeds unless an operation fails |
| `EntropyCache.Cache.Status` | src/entropy_cache.cc:589-599 | the status read from the accounting equals the directory's count and byte sum |
| `EntropyCache.Cache.Run` | src/entropy_cache.cc:205-343 | over every sequence of operations and crashes, on every disk in between: a present clean record equals the directory's count and byte sum, its expiry bound is no later than any entry's, and the bytes never exceed the larger of the limit and the initial sum |
| `OffsetMap.DenseShape` | src/offset_map.h:12-22 | the dense list that the spans stand for has one entry per cleaned boundary and never decreases |
| `OffsetMap.DenseAt` | src/offset_map.h:54-59 | span start plus relative position times stride is the entry of the dense list |
| `OffsetMap.LowerBoundInside` | src/offset_map.h:76-81 | rounding the distance up to whole strides finds the first boundary that reaches the offset, zero strides included |
| `OffsetMap.OffsetMap.constructor` | src/offset_map.h:153-156 | a new map stands for the empty list |
| `OffsetMap.OffsetMap.OriginalOffset` | src/offset_map.h:46-60 | indexing into the dense list; an error exactly behind its end |
| `OffsetMap.OffsetMap.CleanedOffset` | src/offset_map.h:62-82 | lower_bound on the dense list |
| `OffsetMap.OffsetMap.Append` | src/offset_map.h:84-117 | accepted exactly when the offset fits 32 bits and does not go back; then the dense list grows by it, and every stored field fits 32 bits |
| `OffsetMap.OffsetMap.AppendRun` | src/offset_map.h:119-151 | accepted exactly when the whole run fits and does not go back; then the dense list grows by the run, else it is unchanged |
| `Cleaning.DisjointAllAccepted` | src/lang.cc:921-930 | of ranges inside the source that do not overlap, given in any order, all are removed |
| `Cleaning.CleanedFaithful` | src/lang.cc:915-952 | cleaning keeps every byte outside the accepted ranges and every newline, once and in order; all it adds are spaces at removal starts; each byte stays on its original line and offsets never go back |
| `Cleaning.KeptExactly` | src/lang.cc:931-949 | the kept offsets are, in increasing order, those outside the accepted ranges and those of newlines |
| `Cleaning.SpacesLeft` | src/lang.cc:937-947 | a space is left exactly where a removal without newlines would join two words: bytes that touch and are no spaces touched before, and no space is idle |
| `Cleaning.RemoveRanges` | src/lang.cc:915-953 | the loops build that text and, in the map, exactly its offsets followed by the source length; within the source size limit this never fails |
| `Prepare.PlaceKeepsBytes` | src/lang.cc:911-913 | a remapped stretch holds exactly the cleaned boundaries whose originals are in the original stretch |
| `Prepare.RemapEvents` | src/lang.cc:1004-1022 | the events are exactly the non-empty images of the original ones, each once, in order of start, end and depth |
| `Prepare.RemappedMeaning` | src/lang.cc:1004-1022 | a remapped event keeps its depth and covers exactly the boundaries that come from its scope |
| `Prepare.RemapFunctions` | src/lang.cc:1024-1033 | the functions are the non-empty images, in order |
| `Prepare.PreparedFunctions` | src/lang.cc:1024-1033 | each function with code left is listed once, in order, under its name and for exactly the boundaries that come from it, and no other is |
| `Prepare.FunctionsInside` | src/lang.cc:1024-1033 | every remapped function is non-empty and inside the cleaned source |
| `Prepare.CollectLineStarts` | src/lang.cc:955-966 | the line starts are zero and what follows each newline |
| `Prepare.LineNumber` | src/analyze.cc:66-69 | the line looked up for a byte is one more than the newlines before it |
| `Prepare.OriginalLine` | src/lang.cc:1002-1002 | and therefore its line in the original source, comments or not |
| `Prepare.MeaningfulRanges` | src/lang.cc:1035-1059 | one trimmed range per line with text: ordered, on one line each, beginning and ending in text, together covering every byte that is not space |
| `Prepare.PreparedFit` | src/lang.cc:1004-1059 | whatever was removed, events, functions, line starts and ranges of the prepared source are valid for the analysis |
| `Prepare.PrepareSource` | src/lang.cc:982-1062 | the whole step from the ranges, events and functions of a syntax tree, which never fails within the source size limit |
| `Records.AlignTokens` | src/jsonl.cc:147-187 | records align exactly when none is empty and their bytes, dummy prefix aside, spell the source; the tokens then tile it, one per record with bytes |
| `Records.AlignsMeaning` | src/jsonl.cc:147-187 | what aligns spells the source, or the source behind one space, unless the source begins with the first piece all the same |
| `Records.TokensListed` | src/jsonl.cc:160-186 | each record with bytes left has one token, in order, with the record's score |
| `Records.TokenSpells` | src/jsonl.cc:160-186 | and the token covers the record's bytes in the source, behind those of the records before it |
| `Records.TokensTile` | src/jsonl.cc:170-178 | tokens are non-empty and follow on from each other from zero to the end of what is spelled |
| `Records.NormalizeDummyPrefix` | src/jsonl.cc:189-208 | the space is erased in place exactly when the first piece has a dummy prefix and more than that |
| `Records.AlignNormalized` | src/jsonl.cc:189-208 | normalizing never changes whether records align, nor their tokens |
| `Records.IsComplete` | src/entropy_cache.cc:150-168 | records are complete exactly when positions count up from zero, all but perhaps the first have a valid score, none is empty, and their bytes spell the source |
| `Records.NormalizedComplete` | src/jsonl.cc:199-204 | aligned and validly scored records are complete once normalized, except exactly when the first piece is nothing but the prefix |
| `Tokens.ValidateInputs` | src/core.cc:43-78 | the checks accept exactly the ordered inputs: tokens, events, line starts and ranges |
| `Tokens.TokenIndexMeaning` | src/core.cc:104-113 | the index found for a byte is the first token that starts at it or later |
| `Tokens.FirstOverlappingMeaning` | src/core.cc:36-41 | from the first overlapping token on, all end behind the byte |
| `Threshold.PercentileOf` | src/core.cc:82-102 | for n values in order and a percentage from 100 i / (n - 1) to 100 (i + 1) / (n - 1), the value is on the line between the i-th and the next, at that place |
| `Threshold.PercentileUnique` | src/core.cc:94-101 | that determines it |
| `Threshold.PercentileEnds` | src/core.cc:94-101 | at 0 it is the smallest value and at 100 the greatest |
| `Threshold.PercentileAmong` | src/core.cc:94-101 | a percentile lies among the scores: some score is at most it and some is at least it |
| `Threshold.PercentileMonotone` | src/core.cc:95-101 | a higher percentile never gives a smaller threshold |
| `Threshold.Resolve` | src/core.cc:122-141 | a rule gives a threshold exactly when it is in range, and then the one given or the percentile asked for; valid scores never give a negative one |
| `Sweep.DepthMeaning` | src/core.cc:262-263 | the depth at a position is the greatest among the events whose scopes cover it, or zero |
| `Sweep.Advance` | src/core.cc:248-261 | moving the sweep to a later position keeps heap and multiset in step with the events, although ended events leave the multiset by depth value |
| `Sweep.SweptDepth` | src/core.cc:262-263 | after a sweep the greatest active depth is exactly the depth at the position |
| `Units.FirstTokensOnLines` | src/core.cc:154-173 | for each token, the first token that starts on its line |
| `Units.Boundaries` | src/core.cc:175-208 | the boundary set is exactly: both edges, the line openings of tokens at or over the threshold, and in structural mode the ends of events |
| `Units.SweepIntervals` | src/core.cc:211-267 | the interval loop with its heap, multiset and skipped intervals yields the units that each interval has by itself |
| `Units.UnitsPartition` | src/core.cc:227-267 | units are non-empty, strictly ordered and disjoint, and as deep as their first bytes |
| `Units.UnitsOfCut` | src/core.cc:146-267 | in structural mode every meaningful byte of a token lies in exactly one unit; in reference mode every one from the first marked line on |
| `Units.UnitsEnd` | src/core.cc:264-266 | the units end with the tokens |
| `Cuts.BoundaryIsCut` | src/core.cc:175-208 | inside the source the boundaries are the cuts: before the first token on the line of a marked token and, in structural mode, before the first token behind the end of an event |
| `Cuts.FirstKept` | src/core.cc:219-226 | the reference tree leaves out exactly what precedes the first cut |
| `Cuts.CutsExactly` | src/core.cc:175-267 | two meaningful bytes that are kept lie in one unit exactly when there is no cut between their tokens |
| `Cuts.CutCovers` | src/core.cc:211-267 | every meaningful byte that is kept lies in exactly one unit, and every other in none |
| `Cuts.UnitsEdges` | src/core.cc:227-267 | every unit begins with a meaningful byte, and ends with the last token before a cut or with the meaningful source |
| `Cuts.CutUnitsOk` | src/core.cc:115-269 | all of this of the inputs alone: tokens, ranges, events, line starts, threshold and mode say what the units are |
| `Units.DetectSemanticUnits` | src/core.cc:115-269 | inputs are accepted exactly when valid, and then the units are those of the cut that boundaries and ranges define |
| `Forest.ParentMeaning` | src/core.cc:298-316 | a unit's parent is the latest earlier unit of strictly smaller depth, and a root has none |
| `Forest.LevelCounts` | src/core.cc:301-302 | a unit's level is two more than the number of earlier units that all lie shallower than everything from behind them up to it |
| `Forest.ChildrenOfUnit` | src/core.cc:311-316 | the children of a unit are the siblings right behind it, up to the end of its subtree |
| `Hierarchy.FillArena` | src/core.cc:298-318 | the stack loop gives every unit its level and children as the parents define them, and the roots in order |
| `Hierarchy.SettleEnds` | src/core.cc:319-324 | after the backward loop each unit ends with the last end in its subtree |
| `Hierarchy.EndOfUnit` | src/core.cc:319-324 | the largest of a unit's own end and its children's ends is the last end in its subtree |
| `Hierarchy.LastEndMeaning` | src/core.cc:317-322 | which is one of the ends in the subtree, and no end there is greater |
| `Hierarchy.BuildHierarchy` | src/core.cc:279-345 | the arena algorithm builds the tree that the depths define; a single unit may be left to the implicit root |
| `Hierarchy.ForestReadsBack` | src/core.cc:279-345 | read in preorder the forest is the input sequence, every unit once and in place |
| `Hierarchy.Totals` | src/core.cc:14-31 | draining the work list gives the sums over all units of the tree |
| `Hierarchy.TotalsOfForest` | src/core.cc:14-31 | the sum of branchings plus the roots is the number of units, and the levels add up to those of the units |
| `Hierarchy.AnalyzeTotals` | src/core.cc:357-368 | the totals are one branch per unit that is not left to the implicit root, and the sum of their levels plus one for the source |
| `CoreAnalysis.Analyze` | src/core.cc:349-368 | the analysis is refused exactly for invalid inputs, scores or settings; otherwise the units are cut exactly where threshold, lines and events say, the tree is theirs, the totals count them, and the score weighs the totals |
| `CoreAnalysis.ScoreBetween` | src/core.cc:369-370 | with weight 0 the score is the levels, with weight 1 the branches, and it moves evenly between the two |
| `FunctionScores.FunctionEvents` | src/analyze.cc:25-38 | the loop, which stops early, still finds exactly the events nested in the function |
| `FunctionScores.FunctionRanges` | src/analyze.cc:40-57 | the loop finds the clipped ranges of the function |
| `FunctionScores.ClippedCovers` | src/analyze.cc:40-57 | the clipped ranges hold exactly the function's meaningful bytes |
| `FunctionScores.FunctionTokens` | src/analyze.cc:108-113 | tokens that tile the source leave no function without tokens: the first holds its start and the last reaches its end |
| `FunctionScores.LinesBetweenMeaning` | src/analyze.cc:76-82 | the re-based line starts are zero and the line starts behind the first byte, up to the last token |
| `FunctionScores.CallFits` | src/analyze.cc:59-94 | clipped first token, filtered events, re-based line starts and clipped ranges always meet every demand of the analysis |
| `FunctionScores.FileFits` | src/analyze.cc:333-336 | so do the inputs of the call for the whole file |
| `FunctionScores.StartsSource` | src/analyze.cc:102-117 | a function counts as starting the source exactly when no earlier token has any code |
| `FunctionScores.FunctionCovered` | src/analyze.cc:59-94 | in structural mode every meaningful byte of the function lies in exactly one unit of its call, clipped tokens and ranges notwithstanding |
| `FunctionScores.ScoreFunctions` | src/analyze.cc:96-119 | no function of a prepared source is skipped and no call is refused; each one is analyzed with the file threshold into units that hold every meaningful byte of the function once, with their totals; reported lines count the newlines before its first and last byte |
| `FileAnalysis.MapUnit` | src/jsonl.cc:51-71 | a tree is mapped exactly when all its offsets are in the map, and then it keeps its shape, levels and counts, node by node at the original offsets |
| `FileAnalysis.ForestInside` | src/jsonl.cc:57-59 | the tree of ordered units has no offset behind their last end |
| `FileAnalysis.CompleteUsable` | src/entropy_cache.cc:150-168 | records complete enough for the cache are never refused by the analysis |
| `FileAnalysis.AnalyzePrepared` | src/analyze.cc:308-352 | for a prepared source only unusable records and options out of range are refused; otherwise the threshold is the one the rule asks for, the units hold every meaningful byte of the file once, the tree is theirs at original offsets with its totals, and there is one such analysis per function |
| `Windows.WindowsFit` | src/score_cmd.cc:1737-1758 | each window fits the context and scores at least one target; all but the first give exactly half a context, rounded up, of history, and all but the last fill the context |
| `Windows.WindowsChain` | src/score_cmd.cc:1745-1757 | each window's targets begin where those of the one before end, from the second token to the last |
| `Windows.WindowsPartition` | src/score_cmd.cc:1706-1758 | for every token count and context, every token but the first is the target of exactly one window |
| `Windows.PlanScoreWindows` | src/score_cmd.cc:1706-1735 | there is a plan exactly for a context of at least two, or of one when there is nothing to score, and it is for the tokens and context given |
| `Windows.ContextRequestCapacity` | src/score_cmd.cc:1696-1704 | the capacity is the smallest that holds the required tokens and a batch, or the limit where a batch does not fit |
| `Inference.DecodeBatch` | src/score_cmd.cc:1305-1340 | a batch stays within its window and limit, is full unless the warm-up or the window ends with it, and asks for the scores of all of its targets or of none; unless a call fails or a target is outside the vocabulary it yields exactly those |
| `Inference.DecodeWindow` | src/score_cmd.cc:1293-1390 | a window's tokens but the last are decoded once each in order, and exactly its targets are emitted, or the first of them if a call fails or a target is outside the vocabulary |
| `Inference.ScoreInput` | src/score_cmd.cc:1222-1398 | a run is rejected exactly for an empty batch or context, or a context of one with something to score; a completed run has the records of all tokens contiguously, each once with its own bytes and score, after at most one unscored first record; whatever fails before, what has been written is the beginning of that; with every target in the vocabulary and no failing call a run is completed |
| `Inference.MetadataAgrees` | src/analyze.cc:186-209 | the stride and window count read back from the records are those the plan computed, with and without a synthetic first token |
| `Inference.CacheHitReproducesRun` | src/analyze.cc:255-286 | what a run publishes is complete unless the first piece is only the prefix, and reading it back gives the run's tokens and metadata |
| `Scoring.ShiftWeighted` | src/scoring.cc:113-119 | moving the reference point rescales the weighted sum and adds the distance times the denominator |
| `Scoring.StreamMaximum` | src/scoring.cc:113-121 | a new maximum keeps denominator and weighted sum equal to the sums over the prefix read |
| `Scoring.StreamOther` | src/scoring.cc:122-129 | so does any other value, and the denominator stays at least one |
| `Scoring.EntropyFormula` | src/scoring.cc:137-141 | log denominator minus the weighted mean is the entropy of the probabilities, whichever the reference point |
| `Scoring.EntropyNonNegative` | src/scoring.cc:137-141 | the entropy is never negative |
| `Scoring.ProbabilitiesSumToOne` | src/scoring.cc:142-144 | the probabilities of the finite logits add up to one |
| `Scoring.OrderIrrelevant` | src/scoring.cc:97-130 | neither probabilities nor entropy depend on the order of the row |
| `Scoring.ScoreToken` | src/scoring.cc:88-145 | a row is scored exactly when the token is in it, no logit is refused and one is finite; the one-pass result is the two-pass softmax probability, its logarithm and the row's entropy |
| `LittleEndian.Read` | src/payload.cc:211-223 | the bytes' value, or an error exactly when they are not all there |
| `LittleEndian.Write` | tools/embed_payloads.cc:68-76 | the low bytes of the value, least significant first |
| `LittleEndian.ValueOfEncoded` | src/payload.cc:211-223 | reading what was written gives the value modulo the width |
| `LittleEndian.EncodedValue` | tools/embed_payloads.cc:68-76 | writing what was read gives the bytes back |
| `Payload.SafeDestination` | tools/embed_payloads.cc:185-196 | a path is safe exactly when it is relative and no component is empty, `.` or `..` |
| `Payload.SafeMeaning` | src/payload.cc:361-369 | safe paths neither start nor end with a slash, and none of their segments is `.` or `..` |
| `Payload.ReadWritten` | src/payload.cc:391-428 | a written entry is read back exactly when it is within the reader's limits |
| `Payload.ReadIsWritten` | src/payload.cc:391-428 | the bytes behind an entry that is read are those of an entry within the limits |
| `Bundle.ReadArchiveEntries` | src/payload.cc:371-431 | the loop, whose cursor never passes the payload's end, reads the announced entries and refuses anything behind them |
| `Bundle.ArchiveRoundTrip` | src/payload.cc:371-431 | a packed bundle is read back with the same paths, modes, sizes, hashes and data positions, exactly when it is within the limits |
| `Bundle.PackedButRefused` | src/payload.cc:386-425 | with paths the packer accepts, a packed bundle is refused exactly when it has no entries or too many, an empty file, or a path that is too long |
| `Bundle.EmptyBundleRefused` | src/payload.cc:386-390 | the smallest such bundle: one without entries |
| `Bundle.ArchiveAccepted` | src/payload.cc:371-431 | an accepted payload is, byte for byte, the bundle of the entries read: they tile it |
| `Standalone.Output.WriteBundle` | tools/embed_payloads.cc:198-230 | the bytes written are the bundle of the entries, the digest is over exactly those, and it fails exactly when an input is no longer as long as listed |
| `Standalone.Output.WriteFooterEntry` | tools/embed_payloads.cc:169-183 | the padded name, offset, length and hash; refused exactly for a name too long |
| `Standalone.Output.WriteStandalone` | tools/embed_payloads.cc:368-383 | a standalone bundle is the archive and its footer |
| `Standalone.FindStandalonePayload` | src/payload.cc:317-360 | a file that starts with the magic is accepted exactly when it ends with the footer of all that precedes it, hash included if verified |
| `Standalone.StandaloneFound` | src/payload.cc:317-360 | what is written is found, its hash verified or not, at its place and with its hash |
| `Standalone.FoundMeaning` | src/payload.cc:326-359 | a bundle is found exactly when the file is what precedes its footer and the footer belonging to that, hash included if verified |
| `Standalone.CorruptionRefused` | src/payload.cc:354-357 | packed bytes changed so that their hash changes are refused |
| `Standalone.StandaloneRoundTrip` | src/payload.cc:317-431 | what is written is found and read back, exactly when it is within the reader's limits |
| `Sha256Block.ExpandWords` | src/sha256.h:48-63 | the message schedule of section 6.2.2 of FIPS 180-4 |
| `Sha256Block.NextRound` | src/sha256.h:73-90 | one round of section 6.2.2, with the functions of section 4.1.2 |
| `Sha256Block.CompressOne` | src/sha256.h:45-100 | compressing a block is the hash computation of section 6.2.2 |
| `Sha256.PaddedLength` | src/sha256.h:230-246 | a padded message is a number of blocks and begins with the message |
| `Sha256.FewestZeros` | src/sha256.h:233-242 | the padding of section 5.1.1 has as few zeros as possible |
| `Sha256.LengthMeaning` | src/sha256.h:243-246 | the length field is the number of bits, most significant byte first |
| `Sha256.OutputMeaning` | src/sha256.h:249-255 | the digest read as big-endian words is the hash value |
| `Sha256.AbsorbBlock` | src/sha256.h:205-217 | a full buffer compressed is one more block of the message |
| `Sha256.Hasher.constructor` | src/sha256.h:259-267 | the initial hash value of section 5.3.3, nothing taken in |
| `Sha256.Hasher.Update` | src/sha256.h:198-228 | state and buffer always stand for the concatenation of all chunks, and the buffer is never full or overrun |
| `Sha256.Hasher.Finish` | src/sha256.h:230-256 | the digest of the whole message padded once, in both padding branches |
| `Sha256.HashChunks` | src/sha256.h:198-256 | however a message is cut into chunks, the digest is the same |
| `Sha256Hash.CompressPortable` | src/sha256.h:26-100 | with the constants of section 4.2.2, the compression of the standard |
| `Sha256Hash.ConstantsAreCubeRoots` | src/sha256.h:26-44 | the constants are the first 32 fractional bits of the cube roots of the first 64 primes |
| `Sha256Hash.InitialIsSquareRoots` | src/sha256.h:260-263 | the initial hash value holds those of the square roots of the first eight |
| `Sha256Hash.Hash` | src/sha256.h:198-256 | chunked hashing with it is SHA-256 |
| `CivilDate.FromDaysValid` | src/cache.cc:121-139 | every day number gives a valid Gregorian date, whose day count is that number |
| `CivilDate.ToDaysInjective` | src/cache.cc:121-139 | no other date has the same day count |
| `CivilDate.FromDaysInverse` | src/cache.cc:121-139 | every valid date is found from its day count |
| `CivilDate.ConsecutiveDates` | src/cache.cc:121-139 | consecutive day numbers give consecutive dates, across months, leap years, centuries and eras |
| `CivilDate.Epoch` | src/cache.cc:121-139 | day zero is 1 January 1970 |
| `CivilDate.ConsecutiveTimes` | src/cache.cc:267-285 | timestamps print as valid times that advance by the second, across days as well |
| `CivilDate.PartsValue` | src/cache.cc:275-283 | the time printed is that many seconds after midnight on 1 January 1970, and zero prints as just that |

## Left out

Deliberately weaker, or stated under an assumption:

- ReductionPool.RunInv: memory is sequentially consistent and a claim is atomic; the relaxed ordering of the row counter is not modelled, nor is the mismatch error for row counts, a thread that fails to start, or the values of the scores.
- EntropyCache.Cache.Run: byte sums are unbounded integers, so 64-bit wrap-around is not modelled; each atomic file replacement is one step and the lock is mutual exclusion; temporary files, symbolic links and the contents of entries are not modelled, and a listing of the directory cannot fail halfway.
- EntropyCache.Cache.Read: whether an entry's contents decode for the source and model is an input.
- Inference.ScoreInput: what the model yields is an input, and why a call of it fails is not modelled, only that it may.
- Scoring.ScoreToken: over exact reals, with exp and ln known by their laws; rounding and overflow of doubles are not modelled.
- Threshold.PercentileOf: over exact reals, so the rounding of the rank is not modelled.
- Hierarchy.Materialize: children are copied, so that the program moves them out of the arena is not captured.
- FileAnalysis.MapUnit: recursion over a value instead of a work list of pointers into the tree, so updating it in place is not captured.
- CoreAnalysis.Analyze: over exact reals; the counts of scored and of marked tokens and the ratios per token are one-line arithmetic on sums over the tokens, and not modelled.
- Prepare.PrepareSource: the removed ranges, events and functions that a syntax tree gives are inputs, inside the source as tree nodes are.
- Cleaning.RemoveRanges: of overlapping ranges the program skips the later one in sorted order; what that means for nested comments is not stated beyond which ranges are accepted.
- CivilDate.ConsecutiveTimes: unbounded integers; the program's days come from a timestamp below 2^63 seconds, far from any 64-bit limit. The formatting of the parts as text is not modelled.
- Sha256.Hasher.Update: the byte count is unbounded; the program's wraps at 2^64, which leaves the 64-bit length field the same.
- LittleEndian.Read: or-ing shifted bytes is addition, as they do not overlap.
- Bundle.ArchiveRoundTrip: paths are shorter than 2^32 bytes, modes below 2^32 and files below 2^64 bytes, as the header fields hold them.
- Standalone.FindStandalonePayload: the file is shorter than 2^64 bytes.

Not modelled:

- The SHA instructions of x86 processors: intrinsics, for the same function.
- Payloads embedded in the executable itself: their footer table is read with the same primitives.
- Hotspots (`FindHotspots`): sums and maxima per line, then a sort; easy beside the rest.
- Downloading models, probing devices, loading backends, Git, S3 and subprocesses: process, network and device plumbing.
- Syntax trees, tokenizers, logits, JSON and CBOR: foreign libraries, whose results are inputs here.
- Command lines, rules files, usage text, progress and report rendering: mostly validation with one branch.
- Time budgets: they stop a run but do not change a result.
