# A verified model of the cache's data structures

This project models the data structures a Redis 4.0 style cache library is built on and proves
that each of them, whatever its layout in memory, behaves as the plain map, set or sequence it
stands for. The classes and methods follow the C functions branch by branch, with their loops,
constants and error cases; every method is proved against a value (a `map`, a `set`, a `seq`),
and what the library promises is then proved about those values and over whole runs of
operations.

`dafny verify dfyconfig.toml` checks everything.

## The components

**Hash table** (`Bits`, `Dict`, `DictOps`, `DictScan`, `DictGrowth`, `DictIter`; dict.c). Two tables
of chains with a rehash index, a mask and exact `used` counts, the hash any function from keys to
64-bit words. Find, add, replace, delete, resize and rehash steps refine a finite map. The scan's
cursor is a 64-bit word whose bits are compared in reverse: one call covers an interval of reversed
hashes, so a key present throughout a scan is emitted however the tables changed between the calls.
The cursor a call returns is fixed: a scan of a table at rest takes as many calls as there are
buckets, a scan during a rehash as many as the smaller table has, and either emits every key exactly
once. Growth begins exactly when the table is full enough, an addition that may resize leaves a
rehash running or a bucket for every entry, and a rehash so started finishes before the new table
can fill up. A safe iterator neither misses nor repeats a key while its user adds keys, looks keys
up, replaces values and deletes the key just returned.

**Skip list and sorted set** (`ZKeys`, `SkipOrder`, `SkipLinks`, `SkipList`, `Zset`; zset.c,
t_zset.c). Where each level's links and spans must point is defined from the list of nodes and their
heights alone; insertion and deletion are proved to write exactly that, for any height the random
level gives. The sorted set keeps the hash table above and the skip list in agreement, each index
entry leading to the live node. Ranks, selection by rank, range deletion and counting are stated as
sizes and contents of sets of elements. Elements of one score are ranked in the order of a
dictionary, and a range of scores is the interval its ends name, open or closed at either end.

**Ziplist** (`Endian`, `Memory`, `Util`, `ZipEntry`, `ZipLayout`, `ZipCascade`, `Ziplist`,
`ZipInsert`, `ZipDelete`, `ZipMerge`, `ZipTexts`; ziplist.c, util.c). A block is a sequence of
bytes: header, entries with back-links of one or five bytes, end byte. `Rep` says which entries a
block holds and includes the whole layout: byte count, tail offset, count saturating at 65535, each
back-link the size of the entry before, end byte; `Stores` names the texts. The operations read and
rewrite bytes with moves and copies as in C (memory a reallocation adds holds anything) and are
proved to insert, delete and concatenate texts through cascades and forced five-byte links. Which
entries an operation leaves is fixed, a text that spells an integer stored as one; lengths, links
and integers are written in the shortest form that reads back, forced links aside. The integer
printer and parser are proved to be inverse, hence comparing an entry with a string is comparing
texts, whatever the encoding.

**LZF** (`Lzf`; lzf_c.c, lzf_d.c). The compressor with its uninitialised match table, literal runs,
matches and output checks; the decompressor with overlapping back-references and its errors. The
decompressor computes a decoding function for every input; the compressor writes what the greedy
parse of its input gives, the longest match wherever the table names one. That decodes to the input,
whatever the table holds, and is no longer than n + n/32 + 1 bytes; n equal bytes become at most 9 +
3 * ((n - 5) / 264) bytes, the division rounding down.

**Quicklist and list commands** (`Seqs`, `QuickChain`, `Quicklist`, `QuickBlocks`, `TList`;
quicklist.c, t_list.c). Nodes linked by address, changed in place, each holding the texts of a
ziplist and the size it has recorded for it. A ziplist takes any number of bytes its texts can come
to, so the results hold whatever the size tests answer. The sizes recorded are the ziplists' own,
except where an insertion without a node leaves a new one at 0; every list operation says that it
makes no other such node (`Unsized`). `QuickBlocks` carries the steps a list takes on a node down to
ziplist blocks: pushing, inserting, deleting, splitting and merging on the block are the steps on
its texts, and the size tests keep the blocks far from the limits the ziplist operations ask for.
The list of all texts is changed as a plain sequence would be, by every branch; no node is empty,
counts add up, and a positive fill is never exceeded; a split that merges nothing leaves no two
neighbours around it that could be merged. `RcLTrim`, `RcLRem` and `RcLInsert` are proved on top,
over iterators whose node may vanish under them.

Some functions do not do what their comments say for every input. The model is the code as it is,
and each contract says exactly when it works:

- `quicklistDelRange`: when the range starts inside a node, is shorter than that node and yet ends
  behind it, quicklist.c:992-1013 asks that node for more entries than it has and stops.
  `Quicklist.Quicklist.DelRange` works exactly when the range does not overrun in this way
  (`Quicklist.DeleteOverrun` is a run where it does), and `Quicklist.NeverOverruns` says that a
  trim's ranges do not.
- `quicklistInsertBefore` and `quicklistInsertAfter`: an entry found from the end has a negative
  offset, and splitting a full node with it loses entries or puts the value on the wrong side
  (`Quicklist.SplitWrong`, `Quicklist.SplitLoses`). An insertion without a node, meant for empty
  lists, breaks the chain of any other, and does not record the size of the node it makes
  (quicklist.c:839-848); splitting that node copies no bytes of it and goes on with memory nobody has
  written (`Quicklist.Quicklist.SplitNode`, `Quicklist.SplitUnsized`, `QuickBlocks.SplitNode`).
  `Quicklist.Quicklist.Insert` says when it is right. The list commands make nodes with pushes and
  use offsets from the front, so that none of this touches them (`TList.LInsert`).
- `ziplistMerge`: the tail offset is wrong when only the second list is empty, and the block is then
  no ziplist (`ZipMerge.Merge`, `ZipMerge.MergeWithEmpty`). Lists have no empty
  nodes to merge, unless a negative offset has left one.
- `zslGetRank`: asked for an element under a larger score than its own, it may return the element's
  rank instead of 0 (`SkipList.List.GetRank`, `SkipList.RankUnderOtherScore`). Its callers pass the
  element's own score.

**Intset** (`Intset`; intset.c). A sorted array of 2, 4 or 8 byte integers in one byte sequence,
widened in place from the back; a set of 64-bit integers.

**Eviction pool** (`Evict`; evict.c, db.c). Sixteen slots over string buffers named by address.
After any samples the pool holds the best of everything offered; the buffers stay the same ones, and
no key ever shares memory with another slot.

**Quoting** (`Sds`; sds.c). The argument splitter gives back any list of byte strings from forms in
double quotes, in single quotes or bare, mixed in any way.

Random levels, hash values, samples and their idle times, contents of fresh memory and of the
match table are parameters or left open, so the results hold for all of them. Blocks handed over
by pointer and returned after a reallocation are passed and returned as values.

## Model

| member | source | states |
|---|---|---|
| Bits.Reverse | dict.c:743-751 | the loop of swaps by halves returns the word with its 64 bits in reverse order, for every word |
| Bits.RevBit | dict.c:743-751 | what reversing means, bit by bit: the i-th bit from the bottom is the i-th from the top of the result |
| Bits.AdvanceGrows | dict.c:862-869 | incrementing the reversed cursor under any mask moves it strictly up in reversed order, or to 0 |
| Bits.AdvanceCovers | dict.c:853-869 | every hash whose reversed value lies between a cursor and the next one falls into the bucket just visited |
| Bits.AdvanceStays | dict.c:893-912 | while the bits that only the larger mask has are not all wrapped, the cursor stays in the same bucket of the smaller table |
| Bits.AdvanceOrder | dict.c:893-912 | a cursor advanced under the larger mask never passes the one advanced under the smaller mask |
| Bits.AdvanceMeets | dict.c:893-912 | once none of those bits is set, the cursor advanced under the larger mask is the one advanced under the smaller mask |
| Bits.AdvanceBy | dict.c:862-869 | from a cursor of the table a step goes on by the places of one bucket, to the table's next cursor, or to 0 exactly at the end |
| Bits.SpanTimes | dict.c:862-869 | the buckets of a table share out the 2^64 places evenly |
| Bits.LargestVal | dict.c:743-751 | the word of all ones is worth 2^64 - 1, the last place a cursor can have |
| DictState.MoveHeadStands | dict.c:203-216 | moving one entry to the other table keeps the whole invariant and the map the two tables stand for |
| DictState.RehashFinishedStands | dict.c:221-228 | when the old table is empty the new one may take its place without changing the map |
| DictState.RehashStartedStands | dict.c:148-178 | a new empty table, as the first or beside it, changes no lookup and keeps the invariant |
| DictState.AddedStands | dict.c:293-319 | an entry pushed in the table that takes insertions gives the map with that key added; each key stays in one table, at the bucket of its hash, and the counts are exact |
| DictState.RemovedStands | dict.c:365-400 | unlinking any entry of any chain of either table gives the map without its key, invariant kept |
| DictState.RewrittenStands | dict.c:326-350 | overwriting an entry's value in place gives the map with that key's value replaced, invariant kept |
| DictState.BucketAheadStands | dict.c:196-202 | while entries are left in the old table, a non-empty bucket lies at or after the rehash index, so the search for one cannot run off the table |
| DictOps.PowerForIsPower | dict.c:943-953 | the size chosen is a power of two between 4 and 2^63, for every request |
| DictOps.NextPower | dict.c:943-953 | the doubling loop computes that size, including the cut-off for requests of LONG_MAX and more |
| DictOps.PowerForLeast | dict.c:943-953 | and it is the least power of two from 4 on that is not below the request |
| DictOps.Dict.constructor | dict.c:112-134 | a new dictionary is well formed and empty |
| DictOps.Dict.Expand | dict.c:148-178 | succeeds exactly when no rehash runs, the entries fit and the size changes; the map is kept and the new table is empty with a power-of-two size |
| DictOps.Dict.MoveBucket | dict.c:203-218 | all entries of one bucket move, the map stays, the index goes on by one |
| DictOps.Dict.Rehash | dict.c:189-232 | n steps keep the map and pass at least n buckets or finish; at most n buckets with entries and 10n without are passed, and work is left only when one of the two bounds is reached; the result says whether work is left |
| DictOps.Dict.RehashStep | dict.c:261-263 | one step if no safe iterator is open, none otherwise; the map is kept |
| DictOps.Dict.Resize | dict.c:136-146 | a resize starts exactly when allowed, no rehash runs, the number of entries survives its conversion to int and the size changes; the map is kept |
| DictOps.Dict.NeedsResize | dict.c:1031-1038 | a table is worth shrinking exactly when it has more than four buckets and fewer entries than a tenth of them |
| DictOps.Dict.ExpandIfNeeded | dict.c:921-939 | afterwards there is a table to insert in; making room starts exactly if no rehash runs and there is no table, or it has as many entries as buckets and resizing is allowed, or six times as many; otherwise nothing changes; the map is kept |
| DictOps.Dict.Walk | dict.c:974-981 | the position of the key in its chain, or -1 when it is not there |
| DictOps.Dict.Locate | dict.c:962-985 | finds the entry wherever it is, or names the table and bucket a new entry belongs in |
| DictOps.Dict.Find | dict.c:477-496 | the value the map has for the key, none if it has none; a rehash step on the way keeps the map |
| DictOps.Dict.AddRaw | dict.c:293-319 | adds exactly when the key is new, otherwise returns the place of the existing entry; says which steps led to the new state; with resizing allowed an addition that finds no rehash running leaves one running or no more entries than buckets |
| DictOps.Dict.Add | dict.c:266-274 | the map gains the key exactly when it was new and is otherwise unchanged; the same about room |
| DictOps.Dict.Replace | dict.c:326-350 | the map has the key with the new value afterwards; the result says whether it was new; says which steps led to the new state |
| DictOps.Dict.SetVal | dict.h:108-113 | the value of a stored key is replaced in the entry and in the map |
| DictOps.Dict.Delete | dict.c:365-400 | the map loses the key, wherever it was stored; what is returned is the entry it had, none for a missing key |
| DictOps.Dict.Scan | dict.c:837-916 | one call with cursor v: the next cursor is that of the table, or of the smaller of two; every stored key whose reversed hash lies from v up to it is emitted, only stored entries of v's bucket are, and none twice |
| DictScan.ScanTwo | dict.c:871-913 | with two tables, whichever is larger, the buckets visited in both hold every key of the covered range and only keys of v's bucket in the smaller table, each once, and the cursor ends at the smaller table's next one |
| DictScan.ScanComplete | dict.c:837-916 | over a run from cursor 0 to cursor 0 with any well-formed states at the calls (so any additions, deletions, resizes and rehash steps between them), a key present throughout is emitted |
| DictScan.ScanEnds | dict.c:837-916 | the reversed cursor rises with every call and stays a 64-bit word, so after n calls that have not ended it is at least n and at most 2^64 - 1: a run has at most 2^64 calls |
| DictScan.ScanTakes | dict.c:837-916 | while nothing changes, at rest or during a rehash, a scan makes exactly as many calls as the table, or the smaller of two, has buckets; one if nothing is stored |
| DictScan.ScanOnce | dict.c:837-916 | and it emits each stored key exactly once, with its value, and nothing else |
| DictGrowth.FindIsOperation | dict.c:477-496 | a lookup is a step of the runs GrowthFinishes speaks of, the early return on an empty dictionary included |
| DictGrowth.AddIsOperation | dict.c:293-319 | so is an addition, or the attempt to add a key that is there |
| DictGrowth.ReplaceIsOperation | dict.c:326-350 | and a replacement, whether or not the key is new |
| DictGrowth.DeleteIsOperation | dict.c:365-400 | and a deletion, found or not; the early return on an empty dictionary is one that makes no rehash step |
| DictGrowth.RehashAdvances | dict.c:189-232 | after n further operations a rehash that is still going on has passed n buckets; the table sizes are unchanged, and at most n entries have gone and n + 1 come, so the dictionary is never empty meanwhile and no operation returns without its rehash step |
| DictGrowth.GrowthFinishes | dict.c:921-939 | a rehash started by growth ends within as many further operations as the old table has buckets, and until then the entries never exceed the new table's size |
| DictIter.SafeIterator.constructor | dict.c:543-561 | a new iterator has everything ahead of it |
| DictIter.SafeIterator.EnterBucket | dict.c:566-584 | going on to the next bucket returns a key that was ahead, passes an empty bucket without losing one, or ends with none left |
| DictIter.SafeIterator.TakeBucket | dict.c:583-592 | the bucket reached: its first entry is returned and its second saved, or the iterator stands behind an empty bucket with the same keys ahead |
| DictIter.SafeIterator.FollowChain | dict.c:585-593 | the saved successor is returned and everything else keeps its side |
| DictIter.SafeIterator.Next | dict.c:563-596 | a key that was ahead and no longer is, or nothing when none was ahead; registers the iterator at its first call |
| DictIter.AddIsEvent | dict.c:293-319 | an addition while a safe iterator is open is an event of the runs below |
| DictIter.DeleteIsEvent | dict.c:365-400 | a deletion of an entry other than the saved successor is one too |
| DictIter.VisitIsEvent | dict.c:293-319 | so is a lookup, or the attempt to add a key that is there, though it may make room |
| DictIter.WriteIsEvent | dict.c:326-350 | and the new value a replacement stores for a key that is there |
| DictIter.WriteKeeps | dict.c:326-350 | a new value in an entry leaves the same keys ahead of the iterator |
| DictIter.RunCounts | dict.c:563-596 | along any run a key is returned no more often than it was stored at the start or added, and one stored at the start is returned, still ahead, or was deleted before its turn |
| DictIter.IterationComplete | dict.c:563-596 | at the end, a key stored from the start and not deleted before its turn has been returned; exactly once if it was not added again meanwhile |
| ZKeys.LessTotal | zset.c:149-152 | the order by score, then by bytes, is total and strict |
| ZKeys.LessTransitive | zset.c:149-152 | and transitive |
| ZKeys.CompareZero | sds.c:777-789 | comparing prefixes and then lengths gives 0 for equal strings only |
| ZKeys.CompareTransitive | sds.c:777-789 | it is transitive |
| ZKeys.CompareAtByte | sds.c:777-789 | of two strings that differ first in some byte the one with the smaller byte comes first, whatever follows |
| ZKeys.ComparePrefix | sds.c:777-789 | a proper prefix comes first |
| ZKeys.CompareIsLexicographic | sds.c:777-789 | so the comparison is the lexicographic order of byte strings |
| ZKeys.ScoreOrder | zset.c:149-152 | scores are ordered as reals, with an infinity at either end |
| ZKeys.FiniteRange | zset.c:254-260 | a range with finite ends is the interval of reals with these ends, open or closed at either, and holds no infinity |
| ZKeys.HalfRange | zset.c:254-260 | with an infinite end it is the half line, and the infinity if its end is inclusive |
| ZKeys.WholeRange | zset.c:254-260 | between the infinities every finite score is in it |
| ZKeys.OtherRanges | zset.c:264-270 | a range that does not fail the test for empty ranges has a score in it |
| ZKeys.InclusiveEnds | zset.c:254-260 | making an end inclusive adds just the score at that end |
| SkipOrder.NextInserted | zset.c:173-185 | where each level's next node is after an insertion, in terms of where it was |
| SkipOrder.NextRemoved | zset.c:199-206 | the same after a removal |
| SkipOrder.PrevNext | zset.c:145-158 | the nodes a descent stops at are exactly those whose level link passes the place searched for |
| SkipLinks.SplicedLinks | zset.c:173-185 | after an insertion the links and spans of every node at every level are those of the longer list: each level skips exactly the lower nodes and each span is a difference of ranks |
| SkipLinks.UnsplicedLinks | zset.c:197-206 | the same after a removal |
| SkipLinks.InsertedOrder | zset.c:139-194 | a new pair put behind all smaller ones keeps the strict order |
| SkipLinks.LowerOne | zset.c:212-213 | dropping an empty top level keeps all links of the levels below |
| SkipList.List.constructor | zset.c:87-102 | an empty list is well formed |
| SkipList.List.Forward | zset.c:149-156 | walking one level stops at the last node before the place and knows its rank |
| SkipList.List.Descend | zset.c:145-158 | the nodes recorded on all levels are those whose links cross the place searched for, with their ranks |
| SkipList.List.Raise | zset.c:163-171 | levels not in use before get the span of the whole list, and the recorded path goes on through the header on them |
| SkipList.List.LinkLevels | zset.c:173-180 | the first loop: on each level the new node is on, it takes over the link behind it and the spans are divided at its place |
| SkipList.List.LengthenLevels | zset.c:182-185 | the second loop: on each level above, the span that passes over the new node is one longer |
| SkipList.List.Splice | zset.c:173-185 | both loops together: new links below the new node's height, longer spans above |
| SkipList.List.Insert | zset.c:139-194 | for every height from 1 to 32, the list has the new node behind the smaller ones and keeps order, levels, spans, back pointers, tail, length and top level |
| SkipList.List.Unsplice | zset.c:199-206 | what the loop of zslDeleteNode writes in every level |
| SkipList.List.Lower | zset.c:212-213 | the top level comes down to the highest one in use |
| SkipList.List.DeleteNode | zset.c:197-215 | the list without that node, whole invariant kept; the recorded path still leads to the same place |
| SkipList.List.Delete | zset.c:225-252 | the node with exactly this score and element goes, if there is one; otherwise nothing changes |
| SkipList.List.IsInRange | zset.c:263-277 | when it says no, no node's score is in the range |
| SkipList.List.FirstInRange | zset.c:281-303 | the first node in the range, none exactly when no node is in it |
| SkipList.List.LastInRange | zset.c:307-329 | the last node in the range, none exactly when no node is in it |
| SkipList.List.GetRank | zset.c:428-449 | with p the last node not behind the key asked for, the rank is positive exactly when on some level the last node up to p has the element; it is then the rank of a node with this element; 0 only if no node has this score and element |
| SkipList.RankUnderOtherScore | zset.c:418-427 | so the 0 the comment promises is not always returned: a list of one element of score 0, asked for its rank under score 1, answers 1 |
| SkipList.List.DescendRank | zset.c:401-408 | following spans up to a rank finds the nodes crossing that place |
| SkipList.List.GetElementByRank | zset.c:452-469 | the node at that rank (the header at 0), none past the end |
| Zset.Zset.constructor | object.c:254-263 | a new sorted set has no scores |
| Zset.Zset.Add | zset.c:1333-1383 | for all NX, XX and INCR flags and any addition the machine makes: new scores, reported flag and new score as documented, not-a-number refused, index and list agree |
| Zset.Zset.ChangeScore | zset.c:1357-1371 | moving an element to another score keeps index and list in agreement; the index leads to the new node's score |
| Zset.Zset.AddNew | zset.c:1373-1379 | a new element is in both, with its score |
| Zset.Zset.Del | zset.c:1400-1423 | the scores lose exactly this element, and the result says whether it was there |
| Zset.Zset.ResizeIfNeeded | zset.c:1421 | after deletions the index starts to shrink exactly when it is at rest, resizing is allowed and it has fewer entries than a tenth of its buckets; its map is kept |
| Zset.Zset.Rank | zset.c:1472-1490 | how many elements come before it (or, reversed, behind it), -1 if it is not there; of two elements with one score the lexicographically smaller has the smaller rank |
| Zset.Zset.RankOfElementByRank | zset.c:428-469 | rank of the node selected by rank r is r |
| Zset.Zset.DeleteRangeByScore | zset.c:334-363 | index and list lose exactly the elements with a score in the range, and their number is returned; between finite ends those in the interval of reals |
| Zset.Zset.DeleteRangeByRank | zset.c:396-422 | the list loses exactly the nodes at the ranks asked for, the index their elements, and their number is returned |
| Zset.Zset.DropNext | zset.c:355-360 | one node leaves list and index together |
| Zset.Zset.Count | t_zset.c:723-745 | the difference of two ranks is the number of elements with a score in the range; from a score to itself that of the elements with that score; between finite ends that of the elements in the interval of reals |
| Zset.DroppedScores | zset.c:334-363 | taking out the consecutive nodes of a score range takes out exactly the range's elements |
| Zset.RankCounts | zset.c:1480-1487 | the node at rank q has q - 1 elements before it |
| Zset.RanksInOrder | zset.c:1480-1487 | ranks rise with scores, and with the lexicographic order of elements with one score; reversed ranks fall |
| Zset.WithinMeans | zset.c:254-260 | which elements a range selects, in terms of equal scores and intervals of reals |
| Zset.InclusiveEndAdds | zset.c:254-260 | an inclusive end adds exactly the elements whose score is that end, if the other end lets them in |
| Endian.LERoundTrip | intset.c:81-94 | little-endian bytes read back to the number |
| Endian.SignedRoundTrip | ziplist.c:506-565 | two's complement in 1, 2, 4 or 8 bytes reads back to the signed number |
| Util.Digits10 | util.c:234-252 | the tree of comparisons counts the decimal digits of every number |
| Util.SDigits10 | util.c:255-264 | the length of the decimal text with its sign, down to the smallest 64-bit number |
| Util.LL2String | util.c:277-329 | writes the decimal text and a zero byte and leaves the rest, or writes nothing and returns 0 when the buffer is too small, for all 64-bit numbers |
| Util.WriteDigits | util.c:305-327 | two digits at a time from the right, the loop fills exactly the digits' places |
| Util.String2LL | util.c:343-404 | accepts exactly the decimal texts of 64-bit numbers and returns the number |
| Util.TextInjective | util.c:277-329 | different numbers have different texts |
| Util.LengthIs | util.c:234-252 | a number between two powers of ten has that many digits |
| Util.PrintThenParse | util.c:277-404 | parsing what was printed gives the number back |
| ZipEntry.IntegerRoundTrip | ziplist.c:506-565 | each integer read back from the encoding chosen for it is the same, one-byte immediates included |
| ZipEntry.EncodingShortest | ziplist.c:479-503 | and no encoding that reads back as the integer takes fewer bytes |
| ZipEntry.LengthShortest | ziplist.c:332-368 | nor does any header that reads back as a string length |
| ZipEntry.LinkShortest | ziplist.c:396-414 | nor any back-link that reads back as a length |
| ZipEntry.LengthRoundTrip | ziplist.c:332-392 | a string length read back from its 1, 2 or 5 byte header is the same |
| ZipEntry.LinkRead | ziplist.c:396-444 | a back-link written in either width reads back to the same length and is not the end byte |
| ZipEntry.BodyRead | ziplist.c:371-392 | an entry's header and content decode to what was encoded |
| ZipEntry.EntryRead | ziplist.c:568-574 | decoding a stored entry yields its fields and its full size |
| ZipLayout.SuffixUnique | ziplist.c:470-475 | the bytes from an offset on determine the entries |
| ZipLayout.ChainedAppend | ziplist.c:595-614 | back-links of two runs of entries are right together exactly when both are, the second one starting from the first one's last size |
| Ziplist.New | ziplist.c:577-585 | an empty list's block represents no entries, its count 0 |
| Ziplist.RepUnique | ziplist.c:964-984 | a block represents at most one list of entries |
| Ziplist.StoresOne | ziplist.c:964-1050 | a block stores one list of texts only, so the contracts below that name the texts stored say all there is to read back |
| Ziplist.Index | ziplist.c:964-984 | the offset of the entry asked for, from either end, none outside the list |
| Ziplist.IndexBothWays | ziplist.c:964-984 | index i walked forward and i - n walked back over the links reach the same entry |
| Ziplist.Next | ziplist.c:992-1008 | the following entry, none at the last one and at the end byte |
| Ziplist.Prev | ziplist.c:1011-1027 | the entry before, also from the end byte, none at the first one |
| Ziplist.Get | ziplist.c:1033-1050 | the content stored there |
| Ziplist.TryEncoding | ziplist.c:479-503 | a string becomes an integer exactly when it is the text of one |
| Ziplist.EncodedText | ziplist.c:479-503 | whatever the encoding, the text that is read back is the one stored |
| Ziplist.EncodedNumber | ziplist.c:479-503 | the text of a 64-bit number is always stored as that number |
| Ziplist.Compare | ziplist.c:1080-1103 | true exactly when the entry's text is the bytes given, whatever its encoding |
| Ziplist.Len | ziplist.c:1167-1182 | the number of entries, even when the 16-bit count is saturated; a count that fits again is stored |
| ZipCascade.Resize | ziplist.c:588-593 | old bytes kept, total and end byte written, anything in between |
| ZipCascade.Step | ziplist.c:621-671 | one round of the cascade: the next entry's link grows, is rewritten in place, or is right already; bytes, total and tail offset are those of the changed entries; with no entry behind it the block stays as it is |
| ZipCascade.CascadeUpdate | ziplist.c:615-674 | all rounds together leave the block of the entries with their links put right |
| ZipCascade.FixChained | ziplist.c:615-674 | putting the links right from one stale entry on makes the whole chain right |
| ZipCascade.FixContents | ziplist.c:615-674 | no content changes |
| ZipCascade.FixGrowth | ziplist.c:615-674 | no more than four bytes an entry are added |
| ZipCascade.FixedStep | ziplist.c:621-671 | stopping at the first entry whose link did not grow loses nothing |
| ZipInsert.PrevLenAt | ziplist.c:753-761 | the size of the entry before the place, wherever the place is |
| ZipInsert.Shift | ziplist.c:787-801 | the block after the move: a gap of the new entry's size and the follower's link refitted, never narrower when room is forced |
| ZipInsert.Open | ziplist.c:787-814 | total and tail offset right again around the gap |
| ZipInsert.MakeRoom | ziplist.c:780-826 | room in the middle, the cascade behind it done; a wide link is kept exactly where a narrow one would leave the block smaller than before |
| ZipInsert.Extend | ziplist.c:788-818 | room at the end |
| ZipInsert.Fill | ziplist.c:828-836 | writing link, header and content in the gap and counting gives a represented list |
| ZipInsert.Insert | ziplist.c:742-838 | the texts with the new one put in at that place, all of the layout invariant kept through forced wide links and cascades; which entries these are is fixed: a text that spells an integer is stored as one, and a wide link stays wide exactly before an entry of less than four bytes; the stored count goes up by one unless it is at its maximum |
| ZipInsert.InsertsContents | ziplist.c:742-838 | the entries before the place stay as they are, those behind it keep their encoding, and the new one has the encoding chosen for its text |
| ZipInsert.InsertedTexts | ziplist.c:742-838 | the refitted and cascaded entries hold the old texts and the new one |
| ZipInsert.InsertedChain | ziplist.c:742-838 | and all their back-links are right |
| ZipInsert.NoCascade | ziplist.c:820-826 | when the follower keeps its size, leaving the cascade out changes nothing |
| ZipInsert.Push | ziplist.c:955-959 | the text at the head or the tail, in the entries an insertion there gives |
| ZipDelete.LinkOver | ziplist.c:691-716 | the link of the first entry kept is written for the entry before the gap, in the bytes of the gap or its own |
| ZipDelete.Close | ziplist.c:718-731 | moving the tail down closes the gap; the offset of the last entry is right |
| ZipDelete.CutOff | ziplist.c:721-731 | deleting up to the end leaves the tail at the last entry kept |
| ZipDelete.Delete | ziplist.c:677-739 | the texts without num of them from there on (or without all the rest), layout invariant kept; the links left are as wide as they were or have to be; the stored count goes down by as many unless it is at its maximum |
| ZipDelete.DeletedTexts | ziplist.c:677-739 | refitting and cascading after a deletion keeps the other texts |
| ZipDelete.DeletedChain | ziplist.c:677-739 | and makes all back-links right |
| ZipDelete.DeleteRange | ziplist.c:1073-1076 | the same from an index, negative ones from the end; nothing outside the list |
| ZipMerge.Join | ziplist.c:876-922 | appending to the longer block and prepending to it give the same bytes |
| ZipMerge.Merge | ziplist.c:855-953 | the result stores the texts of the first list followed by those of the second exactly when the second has an entry or the first has none, layout invariant kept across the seam, both merge directions; otherwise it stores no texts at all; the entries are those of both, with the cascade from the first list's last one on; the stored count is the sum, cut at its maximum |
| ZipMerge.MergeWithEmpty | ziplist.c:927-934 | such an input: a list of one entry merged with an empty one gives a block that is no ziplist |
| ZipMerge.NoTexts | ziplist.c:927-940 | a block of some entries with a tail offset that is not their last one's stores nothing |
| ZipMerge.Seam | ziplist.c:936-940 | starting the cascade at the first list's last entry puts every link of the joined list right |
| ZipMerge.MergedTail | ziplist.c:927-934 | the tail offset a merge writes is that of the last entry exactly when the second list has an entry or the first has none |
| Lzf.MatchLength | lzf_c.c:162-206 | the match found is a real repetition within the input, as long as the bytes agree up to the bound, which the sixteen unrolled comparisons may pass by two |
| Lzf.Probe | lzf_c.c:144-160 | whatever the table holds, a match is taken exactly if the slot of the three bytes names an earlier position other than the first, at most 8192 back, with the same three bytes; the slot then names the current position and no other changes |
| Lzf.Reseed | lzf_c.c:229-243 | behind a match its last two positions enter the table, each at the slot of its three bytes |
| Lzf.NextThree | lzf_c.c:47-53 | the running hash depends on the last three bytes alone |
| Lzf.IndexSpreads | lzf_c.c:47-53 | triples that differ in their first two bytes only never share a slot |
| Lzf.Literal | lzf_c.c:256-269 | a literal keeps the output decodable, and a full run is closed and no other |
| Lzf.CloseOrUndo | lzf_c.c:171-172 | closing a run or taking back an unused header leaves output that decodes to the input so far |
| Lzf.EmitMatch | lzf_c.c:206-221 | the open run and the back-reference are appended and nothing else; that decodes to the input with the match added, and keeps the size bound |
| Lzf.Match | lzf_c.c:161-255 | it fails exactly if the output has no room; a match taken has the longest length and is written as its token behind the closed run, in two or three bytes |
| Lzf.MatchStep | lzf_c.c:160-255 | a match brings output, table and hash to where the greedy parse goes on behind it |
| Lzf.Scan | lzf_c.c:139-270 | to the end of the scan, the output decodes to the input read and is the start of what the greedy parse of the input writes; it fails only if the output has less than three bytes more than that takes |
| Lzf.LastLiterals | lzf_c.c:275-284 | the last bytes are written as the parse has them, literals in the run that is open |
| Lzf.Compress | lzf_c.c:98-290 | for every input and every content of the match table: output of positive length decodes to the input and is what the greedy parse writes, the longest match wherever the table names one; four bytes more room than that is enough; at most n + n/32 + 1 bytes and at most the room given; n >= 5 equal bytes take at most 9 + 3 * ((n - 5) / 264) bytes, and that with one byte more is room enough |
| Lzf.WrittenDecodes | lzf_c.c:98-290 | what the greedy parse writes decodes to the input, whatever the table holds |
| Lzf.WrittenLength | lzf_c.c:160-269 | and never takes less than the open run and what the next byte or match costs |
| Lzf.LiteralRun | lzf_d.c:68-101 | one run of literals, or the error the decoder gives |
| Lzf.BackReference | lzf_d.c:102-179 | one back-reference of any length, or the error the decoder gives |
| Lzf.CopyFromBehind | lzf_d.c:145-177 | the copy reads bytes it has written itself when the ranges overlap |
| Lzf.CopyBackDisjoint | lzf_d.c:150-155 | a reference that does not reach into its own output is a plain copy |
| Lzf.Decompress | lzf_d.c:55-184 | the decoded bytes and their number, or the right error and nothing, for every input |
| Lzf.DecodeAppend | lzf_d.c:55-184 | decoding a concatenation continues where decoding the first part ended |
| Lzf.CopyBackMatches | lzf_d.c:156-162 | copying a repetition byte by byte extends the input's own prefix |
| Lzf.RoundTrip | lzf_d.c:55-184 | decompressing into a buffer of the original length what compression produced gives the input back |
| QuickChain.FlattenAt | quicklist.c:94-104 | a list of nodes is what comes before a node, the node, and what comes behind it |
| QuickChain.LinkedWith | quicklist.c:352-385 | links, ends and length are right after a node is linked in anywhere |
| QuickChain.LinkedWithout | quicklist.c:579-603 | and after one is unlinked |
| QuickChain.NodeLost | quicklist.c:352-385 | a node linked to no other, which a list with nodes gets when there is no node to put it beside, is in no chain: the list is corrupt |
| Quicklist.Quicklist.constructor | quicklist.c:94-104 | a new list is empty and well formed |
| Quicklist.InsertFits | quicklist.c:420-450 | an insertion that is allowed does not exceed a positive fill, whatever the sizes |
| Quicklist.MergeFits | quicklist.c:452-469 | nor does a merge that is allowed |
| Quicklist.FillBySize | quicklist.c:47-49 | for fill -1 to -5 a node takes an entry, or two are merged, exactly up to 4, 8, 16, 32 or 64 kB |
| Quicklist.FillByCount | quicklist.c:420-469 | for a positive fill exactly up to that many entries and 8 kB |
| Quicklist.Quicklist.InsertNode | quicklist.c:352-385 | the chain gains the node at that place with links, ends and length right; with no node to put it beside, that is so only for an empty list |
| Quicklist.Quicklist.DelNode | quicklist.c:579-603 | the chain without the node, the count less its entries |
| Quicklist.Quicklist.PushHead | quicklist.c:480-497 | the value before all others; a node is made exactly when the first one does not take it, and reported; the node that has it has its size recorded |
| Quicklist.Quicklist.PushTail | quicklist.c:503-520 | the value behind all others; a node is made exactly when the last one does not take it, and reported; the node that has it has its size recorded |
| Quicklist.Quicklist.DelIndex | quicklist.c:613-628 | the list without that entry; the node goes with its last one, otherwise its size is recorded |
| Quicklist.Quicklist.Pop | quicklist.c:1324-1369 | the first or last value, and the list without it; none from an empty list |
| Quicklist.Quicklist.Index | quicklist.c:1225-1279 | node and offset of the entry at that index from either end, none outside the list |
| Quicklist.Quicklist.ReplaceAtIndex | quicklist.c:667-680 | the list with that value replaced in its node and the node's size recorded, unchanged outside the list |
| Quicklist.Quicklist.MergePair | quicklist.c:695-723 | two neighbours become one node with the entries of both, the node with more of them, or the first, being kept, unless only the second one is empty: its block is then no ziplist |
| Quicklist.Quicklist.MergeNodes | quicklist.c:735-776 | the up to three merges around a node keep the list, leave no empty node and respect the fill; only a node without entries can make one of them fail; a pair before the node is left apart only if it may not be merged, and if the nodes behind it are as many as before, none of them can be merged with it or with each other; if no merge is made, none of the four pairs may be |
| Quicklist.Quicklist.SplitNode | quicklist.c:797-826 | there is a new node exactly when the node's recorded size is that of its ziplist, which says how much is copied; for an offset that is not negative, node and new node are then the parts before and behind the cut, for a negative one what SplitNegative says |
| Quicklist.SplitRanges | quicklist.c:807-822 | for an offset that is not negative the two deletions, with -1 as an unlimited count, leave the parts in front of and behind the cut |
| Quicklist.SplitNegative | quicklist.c:807-822 | what they leave for a negative offset: entries are lost, or the whole node comes behind the cut |
| Quicklist.SplitWrong | quicklist.c:925-936 | with a negative offset the list after the split is the one with the value put in exactly if the value was to go behind the last entry of a node of copies of it |
| Quicklist.SplitLoses | quicklist.c:925-936 | such a run: pushes of two entries, which fill a node, and an insertion behind the first one, found from the end, leave a list without the second one |
| Quicklist.MergesBack | quicklist.c:735-776 | a run in which a merge has to be made: a value put behind the second of four entries in nodes of three leaves two nodes |
| Quicklist.Quicklist.Insert | quicklist.c:835-940 | through every branch (room, neighbour with room, new node, split and merge): it fails if it splits a node without a size, and otherwise, for an offset that is not negative or no split, the list has the value before or behind the entry; with a negative offset at a split that is so exactly behind the last entry of a node of copies of the value; without a node the list has to be empty, or its chain is broken, and its first node is then without a size; without a split the nodes are fixed: the value is in the node if that takes it, else in the neighbour it is next to, else in a node of its own |
| Quicklist.SplitUnsized | quicklist.c:797-805 | such a run: an insertion without a node and one of a long value behind the first entry fail for every value of 8192 bytes or more |
| Quicklist.Quicklist.DelPart | quicklist.c:1019-1028 | a part of a node goes, and the node if nothing is left; asking for more entries than there are breaks the node's count |
| Quicklist.Quicklist.DelRange | quicklist.c:958-1039 | for all starts and counts, the same deletion as on one plain sequence, and the list stays well formed, exactly when the range does not overrun its first node; recorded sizes stay right |
| Quicklist.OverrunsHere | quicklist.c:990-1013 | only the node the range starts in decides: the range overruns it when it starts inside it, is shorter than it and ends behind it |
| Quicklist.NeverOverruns | t_list.c:471-472 | the two calls a trim makes never overrun |
| Quicklist.OverrunExample | quicklist.c:990-1013 | two nodes of three and one entries, deleting the last two: a range that overruns |
| Quicklist.DeleteOverrun | quicklist.c:990-1013 | such a run: four pushes, which make these nodes, and the deletion leave a broken list |
| QuickBlocks.AllowedIsSmall | quicklist.c:420-450 | a node whose size test lets a value in is far enough from the 32-bit limit of its block, and so is the node with the value |
| QuickBlocks.MergedIsSmall | quicklist.c:452-469 | the same for two nodes that may be merged; their blocks together have at most 65547 bytes if both sizes are recorded |
| QuickBlocks.NewNode | quicklist.c:486-492 | a ziplist made for one value: the block stores that text, and count and size are the block's; also while its size is still 0 |
| QuickBlocks.RecordedBy | quicklist.c:471-474 | what a node can record of its block: its size lies between 11 and 11 more than the most its texts can take |
| QuickBlocks.PushNode | quicklist.c:482-485 | a push on the block of a node that takes it is the push on the node's texts |
| QuickBlocks.InsertInNode | quicklist.c:871-891 | an insertion into the block at any entry or at its end is the insertion into the texts |
| QuickBlocks.DeleteFromNode | quicklist.c:815-822 | a range deletion on the block is the one on the texts |
| QuickBlocks.SplitNode | quicklist.c:797-826 | a range deletion on the block and one on the copy of as many bytes as the recorded size says leave blocks of the halves that the split of the texts leaves, for offsets from either end; a copy of no bytes stores no texts at all |
| QuickBlocks.MergeNodes | quicklist.c:700-713 | merging the blocks of two nodes that may be merged joins their texts; if only the second node is empty, no node is held by the result |
| QuickBlocks.BackedOne | quicklist.c:94-104 | the blocks of the nodes, in order, determine the list of texts |
| QuickBlocks.BackedStep | quicklist.c:352-385 | changing one node with its block, linking a new one in anywhere and unlinking one keep every node of the list backed by its block |
| TList.Iter.constructor | quicklist.c:1071-1085 | an iterator at an entry stands before it, in its direction |
| TList.Iter.NextInNode | quicklist.c:1136-1159 | the next entry of the node, or the node's end |
| TList.Iter.Next | quicklist.c:1117-1178 | the next value of the sequence in either direction, none exactly at its end, over node borders |
| TList.Iter.DelEntry | quicklist.c:634-661 | the entry just returned goes, and the iterator goes on with the one after it even when the node is gone |
| TList.LTrim | t_list.c:438-482 | exactly the slice asked for is left, for all bounds; the key goes with the last value; recorded sizes stay right |
| TList.TrimIs | t_list.c:446-472 | the two range deletions leave that slice |
| TList.LInsert | t_list.c:245-268 | the value next to the first occurrence of the pivot, the list unchanged if there is none; in a list of nodes with recorded sizes it never fails, and it leaves the sizes recorded |
| TList.LRem | t_list.c:374-410 | the first \|count\| matches go, the last ones for a negative count, all for 0, and nothing else |
| TList.RemForward | t_list.c:374-410 | the loop from the head, though nodes vanish under its iterator |
| TList.RemBackward | t_list.c:374-410 | the loop from the tail |
| TList.RemoveLastReverses | t_list.c:387-389 | removing the last matches is removing the first ones of the reversed list |
| TList.RemoveFirstCounts | t_list.c:374-410 | a removal takes away min(n, occurrences) of the value and none of any other |
| Intset.SetGet | intset.c:55-94 | a value stored in an element reads back in every width |
| Intset.Intset.constructor | intset.c:97-102 | a new set is empty, in the narrowest encoding |
| Intset.Intset.Get | intset.c:76-78 | the member at that position |
| Intset.Intset.Resize | intset.c:105-109 | the bytes both sizes have are kept |
| Intset.Intset.Search | intset.c:115-154 | the position of a member, or the one place where a value that is not one belongs |
| Intset.Intset.UpgradeAndAdd | intset.c:157-180 | all members in the wider encoding with the new one at its end, from a back-to-front rewrite in place; the encoding is the new member's own |
| Intset.WidenStep | intset.c:167-171 | widening one element does not overwrite any that is still to be read |
| Intset.WidenDone | intset.c:173-178 | when all are widened, the members are the old ones and the new value at its end |
| Intset.OutOfRange | intset.c:209-212 | a value too wide for the encoding is smaller or larger than every member |
| Intset.NarrowestEncoding | intset.c:45-52 | the encoding of a value is the narrowest it fits |
| Intset.Intset.MoveTail | intset.c:182-201 | afterwards each slot from the new position on reads what the slot as far behind the old position read, up to the last element, and every other slot of the block reads what it did; the block keeps its size |
| Intset.Intset.Add | intset.c:204-231 | the set with the value; the result says whether it was new; sorted without repetitions; the encoding becomes the value's own if that is wider and stays otherwise |
| Intset.ValsInserted | intset.c:224-229 | moving the tail up and writing the value inserts it in the sequence |
| Intset.Intset.Remove | intset.c:234-251 | the set without the value; the result says whether it was there; the encoding stays |
| Intset.ValsRemoved | intset.c:245-248 | moving the tail down removes one element from the sequence |
| Intset.Intset.Find | intset.c:254-257 | membership |
| Evict.Pool.constructor | evict.c:113-124 | an empty pool with sixteen buffers |
| Evict.Pool.MoveRight | evict.c:209-217 | the last slot's buffer comes to the free place |
| Evict.Pool.MoveLeft | evict.c:218-227 | the first slot's buffer comes to the free place, its key is let go |
| Evict.Pool.Put | evict.c:230-242 | a key of at most 255 bytes goes into the slot's own buffer, a longer one into new memory; the slot then reads back the key, every other slot what it did, the buffers are the same ones, and no key shares memory with another slot or is too long for its buffer |
| Evict.Pool.Offer | evict.c:193-242 | the sample enters at the place of its idle time, driving out the worst if the pool is full, or is refused; the buffers are the same ones in another order and no key shares memory with another slot |
| Evict.Pool.Populate | evict.c:146-244 | the pool holds sixteen of the largest idle times of old pool and samples together, as a multiset, sorted |
| Evict.OfferedBest | evict.c:193-242 | one sample: the best sixteen of what was there and the sample |
| Evict.OfferedAllBest | evict.c:146-244 | all samples, whatever their number and order |
| Evict.PutEmpty | evict.c:204-205 | filling the first free slot keeps order, buffers and separation |
| Evict.PutRight | evict.c:206-217 | so does making room towards the right |
| Evict.PutLeft | evict.c:218-227 | and towards the left, over the worst entry |
| Evict.Pool.TakeBest | db.c:433-456 | the best candidate that still exists is returned; it and the better ones, which no longer exist, leave the pool, the others stay |
| Evict.Cleared | db.c:442-446 | taking the last entry out keeps order, buffers and separation |
| Sds.CatRepr | sds.c:869-892 | appends the quoted form |
| Sds.EscapePrintable | sds.c:869-892 | the quoted form is of printable bytes, and those stand for themselves but for the quote and the backslash |
| Sds.GetToken | sds.c:944-1052 | reads one argument: quotes of both kinds, escapes, and the errors for a quote not closed or closed before another character |
| Sds.SplitArgs | sds.c:944-1052 | all arguments of a line or an error |
| Sds.ReadRepr | sds.c:944-1052 | a quoted form followed by a space or the end is read back as the string it was made from |
| Sds.HexDigits | sds.c:896-925 | hexadecimal digits of either case stand for their values, and nothing else is one |
| Sds.ReadForm | sds.c:944-1052 | an argument in double quotes, between apostrophes, or without quotes is read as its text |
| Sds.ReadJoined | sds.c:944-1052 | any number of them, each in any of the three ways, from any position of a line |
| Sds.SplitWritten | sds.c:944-1052 | for every list of arguments so written, joined by spaces, splitting gives their texts |
| Sds.SplitRoundTrip | sds.c:869-1052 | for every list of byte strings, splitting their quoted forms joined by spaces gives the list |

## Left out

- Quicklist.Quicklist.Insert: nodes are bounded below 2^32 - 1 entries, the count -1 stands for in a split, and below 2^31 for offsets from the end. Where the C code goes on with bytes that are no ziplist the model stops and says so. Whether a negative offset that leaves a node without entries ends that way depends on whether the size tests let it be merged. The test for the tail, offset equal to count, never holds for an existing entry; the contract also covers that place behind the last entry.
- Quicklist.Quicklist.SplitNode: the comment above the C function describes the offsets differently from its code for `after` 0; the code is followed.
- Quicklist.Quicklist.MergeNodes: LZF compression of nodes is not modelled, as `compress` is 0 in use; the 16-bit count field is an unbounded number.
- QuickBlocks.PushNode: values are at most 2^29 bytes, the limit t_string.c:22 sets for strings; a node's texts then never come to more than 1.5 * 2^30 bytes. The iterator's positions inside a block are not carried down.
- TList.LRem: counts are unbounded, so negating the smallest long is not modelled.
- ZipInsert.Insert: blocks are bounded so that the 32-bit sizes do not overflow; so are those of ZipDelete and ZipMerge.
- ZipDelete.Delete: requires an entry at the position; called at the end byte the C code would decode the bytes behind the block.
- ZipMerge.Merge: the null results for missing or equal arguments carry no data and are not modelled.
- Lzf.Compress: input lengths are 32-bit. The first hash of a one-byte input, made from the byte behind it, is any number.
- Lzf.Decompress: requires at least one input byte, which the do-while loop reads before any test.
- DictOps.Dict.AddRaw: additions are bounded by LONG_MAX / 2 entries, so that doubling the size does not overflow.
- DictOps.Dict.Scan: the callbacks are modelled as collecting the entries in a sequence, and bucket callbacks are left out.
- DictIter.DeleteIsEvent: deleting the saved successor, rather than the entry just returned, is not a permitted event of an iteration.
- Intset.Intset.Add: the 32-bit length and size do not wrap in the model.
- Zset.Zset.Add: a score is a real number or one of two infinities, not-a-number an outcome of the addition; a sum is whatever function of two scores the machine computes, rounding and overflow included. The sign of a zero is not modelled.
- Evict.Pool.Populate: how idle times are computed from clocks and counters, and which entries are sampled, are inputs.
- Evict.Pool.TakeBest: the loops of freeMemoryIfNeeded around it and the accounting of memory are not modelled.
- Sds.SplitArgs: isprint and isspace are those of ASCII.
- Heap cells of the skip list and the quicklist are maps from node addresses to contents inside the list object, not separate objects; freeing memory is not modelled.
- Unsafe iterators and their fingerprint, dictGetRandomKey, dictGetSomeKeys, dictEmpty and the time-limited rehash would add members of the kind proved here.
- Sorted sets encoded as ziplists, zsetConvert and the lexicographic ranges, whose comparison with the texts for minimum and maximum is no total order.
- ziplistFind, quicklistDup, quicklistRotate, quicklistAppendZiplist, intsetRandom, zipmap, bitops, adlist and the t_string, t_hash and t_set commands.
- Floating-point text, reference counts of objects, the command wrappers, siphash and sha1.
