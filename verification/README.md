# Models of the native layer of a skynet game server

Dafny models of the algorithmic cores in the C libraries of the server, and proofs about them:

* `Zset*`, `SkipTable`, `SkipList`: the ranked skip list behind sorted sets. The nodes are objects whose links are rewritten in place; the abstract value is a sorted sequence of (score, member).
* `Bignum`, `Bigint*`, `Dtoa*`, `Decimals`: the multi-word arithmetic of dtoa with its free lists and its cache of powers of 5, one-digit division, and correctly rounded digits. `JsonNumber`, `GFormat` and `PrintNumber` turn the digits into text.
* `Crab*`: the sensitive-word filter, a trie whose nodes are chained hash tables with displacement, and the older filter with length-sorted buckets on zero-terminated strings. `CrabMeaning` says what masking is without running over the text. `Utf8` is the codec that feeds it.
* `Json*`: the JSON codec of lua-cjson, printer, tokenizer and parser, with depth limits. `JsonGrammar` is the grammar of RFC 8259 on its own, and `JsonRead` proves printer and parser against it.
* `StructLayout`, `StructSizes`, `BitFields`, `Bits`: the layout of C structs with bit-fields (the GCC rules) and access to bit-fields.
* `SnapshotGraph`, `Snapshot`: the marker that walks the heap graph of a Lua state, and the order in which it meets the objects. `SnapshotEdges` says what is followed, on the graph alone.
* `Sha2Spec`, `Sha2`, `XxHash`: streaming hashes against their one-shot definitions; `Sha256` and `XxHashAnswers` give known digests.

Operations that change state are methods on classes or arrays. Each is tied to a specification function on values, and the promises are lemmas about those functions. `dafny verify dfyconfig.toml` checks everything.

Results that need a condition, each with the exact condition and an input that fails:

* The member comparator truncates a length difference to `int`: `ZsetOrder.CompareExact`; it fails in `ZsetOrder.PrefixMisordered`.
* The rank range loop truncates its length to `int` and starts at its first argument: `ZsetSpec.RankRangeExact`; it fails in `ZsetSpec.RankRangeTruncates` and `ZsetSpec.RankRangeStarts`.
* `slGetRank` compares members only, so a wrong score can have a rank: `SkipList.SkipList.RankMeaning`; it has one in `SkipList.WrongScore`.
* The UTF-8 decoder accepts more than RFC 3629 allows: `Utf8.EncodeBack`; the round trip fails in `Utf8.OverlongZero`.
* The two word filters agree only as far as zeros allow: `CrabBuckets.FiltersAgree` with `CrabTerminator.SameMaskingExact`; they disagree in `CrabTerminator.BehindZero`, and `CrabTerminator.CutAtZero` is a word they take differently.
* A union sizes a bit-field by its alignment: `StructLayout.UnionHolds`; it is too small in `StructLayout.PackedNineTooWide`.
* The masks of a bit-field shift by its end: `BitFields.WriteInStruct`; they are undefined in `BitFields.WholeWordNotWritable`.
* The stack of the thread that takes a snapshot is walked only if that thread is first met from another one: `Snapshot.TakeSnapshot`, with `SnapshotGraph.CallerBehindWalked` where it is.
* Every user value is walked as a table: `Snapshot.TakeSnapshot`; the walk is undefined in `SnapshotGraph.FunctionIsMisused`.
* xxHash takes lengths as `int`: `XxHash.State.Update` and `XxHash.StreamExact`; a chunk is too large in `XxHash.ChunkTooLarge`.

## Model

| member | source | states |
|---|---|---|
| `ZsetOrder.CompareExact` | lualib-src/lua-zset/skiplist.c:81-85 | the comparator is the lexicographic order on byte strings if and only if the length difference keeps its sign when it is truncated to `int` |
| `ZsetOrder.PrefixMisordered` | lualib-src/lua-zset/skiplist.c:81-85 | a prefix that is 2^31 + 1 bytes shorter is smaller, and the comparator calls it larger |
| `ZsetOrder.CompareMembers` | lualib-src/lua-zset/skiplist.c:81-89 | for members shorter than 2^31 bytes the comparator is a three-way lexicographic comparison, and 0 means equal bytes |
| `ZsetOrder.LettersInOrder` | lualib-src/lua-zset/skiplist.c:81-89 | "a" is before "b", and "b" before "ba" |
| `ZsetOrder.PrecedesTotal` | lualib-src/lua-zset/skiplist.c:100-103 | (score, member) is a strict total order, and the test that steps over equal elements is its negated converse |
| `ZsetOrder.PrecedesMeans` | lualib-src/lua-zset/skiplist.c:100-103 | the test of the searches is: a smaller score, or the same score and a lexicographically smaller member; the test of slGetRank also passes equal elements |
| `SkipList.SkipList.constructor` | lualib-src/lua-zset/skiplist.c:22-37 | a new list is valid and empty |
| `SkipList.SkipList.Descend` | lualib-src/lua-zset/skiplist.c:91-106 | the search yields on every level the last node before the key, and its rank |
| `SkipList.SkipList.Insert` | lualib-src/lua-zset/skiplist.c:91-143 | for every height 1..32 the list stays valid (each level an ordered sublist of the one below, spans exact also where the forward link is null, back pointers, tail, length and level exact), and its sequence is the old one with the element at its place |
| `SkipTable.TableAfterInsert` | lualib-src/lua-zset/skiplist.c:123-133 | from the search path on, the two linking loops give exact links and spans on every level |
| `SkipList.SkipList.DeleteNode` | lualib-src/lua-zset/skiplist.c:146-164 | removing the node at a position keeps validity, lowers the level exactly, removes just that element, and leaves the same search path usable for the next node |
| `SkipTable.TableAfterRemove` | lualib-src/lua-zset/skiplist.c:146-155 | unlinking a node leaves exact links and spans for the remaining nodes |
| `SkipTable.LowerLevel` | lualib-src/lua-zset/skiplist.c:161-162 | an empty top level can be dropped without changing any link below it |
| `SkipList.SkipList.Delete` | lualib-src/lua-zset/skiplist.c:167-191 | finds the element if and only if it occurs, and removes exactly it |
| `SkipList.SkipList.DeleteByRank` | lualib-src/lua-zset/skiplist.c:195-221 | removes exactly the ranks max(start,1)..min(end,length), reports them in rank order, and returns their number, with one search path for all removals |
| `ZsetSpec.RankRemovedSplits` | lualib-src/lua-zset/skiplist.c:195-221 | what is removed by rank and what stays are together the old multiset |
| `ZsetSpec.RankRemovedKeepsOrder` | lualib-src/lua-zset/skiplist.c:195-221 | removal by rank keeps the order, strict or not |
| `ZsetSpec.InsertedKeepsOrder` | lualib-src/lua-zset/skiplist.c:91-143 | insertion keeps the sequence sorted and adds exactly one occurrence |
| `ZsetSpec.InsertedKeepsStrictOrder` | lualib-src/lua-zset/skiplist.c:109-111 | insertion of an absent element keeps the sequence strictly sorted |
| `ZsetSpec.HoldsIfOccurs` | lualib-src/lua-zset/skiplist.c:183-190 | the test after the search of slDelete succeeds if and only if the element is in the list |
| `ZsetSpec.DeletedRemovesOne` | lualib-src/lua-zset/skiplist.c:167-191 | deletion keeps the order and takes away one occurrence if there is one |
| `ZsetSpec.DeleteUndoesInsert` | lualib-src/lua-zset/skiplist.c:91-191 | deleting what was just inserted restores the sequence |
| `SkipList.Run` | lualib-src/lua-zset/skiplist.c:91-221 | after every run of insertions, deletions and removals by rank, with any heights, the list is valid, holds what the run makes of the empty sequence, and is ranked: scores never fall, and members of one score never fall in lexicographic order |
| `SkipList.RunStaysSorted` | lualib-src/lua-zset/skiplist.c:91-221 | every run keeps the sequence sorted |
| `SkipList.RunIsRanked` | lualib-src/lua-zset/skiplist.c:91-221 | the outcome of every run is ranked by score and then by member |
| `ZsetSpec.SortedIsRanked` | lualib-src/lua-zset/skiplist.c:91-221 | sorted by the test of the searches is ranked by score and then by member |
| `ZsetSpec.RankedUnique` | lualib-src/lua-zset/skiplist.c:91-221 | a collection of elements can be ranked in one way only, so what a list holds is determined by which elements it holds |
| `SkipList.TiesByMember` | lualib-src/lua-zset/skiplist.c:100-103 | two members of one score end up in lexicographic order, whichever is inserted first |
| `SkipList.RunStaysStrict` | lualib-src/lua-zset/skiplist.c:91-221 | a run that never inserts a present element keeps it strictly sorted |
| `SkipList.RunStaysDistinct` | lualib-src/lua-zset/skiplist.c:91-221 | a run that never inserts a present member keeps the members distinct |
| `SkipList.SkipList.GetNodeByRank` | lualib-src/lua-zset/skiplist.c:251-266 | returns the element at each 1-based rank, null for every other rank |
| `SkipList.SkipList.GetRank` | lualib-src/lua-zset/skiplist.c:227-248 | returns the rank of the first visited node with the member, 0 if there is none |
| `SkipList.SkipList.RankMeaning` | lualib-src/lua-zset/skiplist.c:227-248 | with distinct members the rank is the inverse of the lookup by rank on present elements and 0 for absent members; with the wrong score it is the rank exactly when the search lands on the node |
| `SkipList.WrongScore` | lualib-src/lua-zset/skiplist.c:227-248 | a list that holds (1, m) gives (2, m), which it does not hold, the rank 1 |
| `SkipList.SkipList.IsInRange` | lualib-src/lua-zset/skiplist.c:277-292 | true if and only if the range is not empty and overlaps the scores of the list |
| `SkipList.SkipList.FirstInRange` | lualib-src/lua-zset/skiplist.c:296-313 | the first element with a score of at least min when the range overlaps the list |
| `SkipList.SkipList.LastInRange` | lualib-src/lua-zset/skiplist.c:317-334 | the last element with a score of at most max when the range overlaps the list |
| `ZsetSpec.ScoreSliceExact` | lualib-src/lua-zset/lua-skiplist.c:122-153 | the slice of a score range is exactly the elements in the closed range |
| `SkipList.SkipList.GetScoreRange` | lualib-src/lua-zset/lua-skiplist.c:122-153 | returns exactly the members with scores in the closed range, ascending or descending by the order of the arguments |
| `SkipList.SkipList.GetRankRange` | lualib-src/lua-zset/lua-skiplist.c:95-119 | returns what the loop with its `int` length returns, for all ranks |
| `ZsetSpec.RankRangeExact` | lualib-src/lua-zset/lua-skiplist.c:95-119 | that result is the closed range, ascending or descending, if and only if the range meets no element, or the first argument is a rank in use and the truncated length covers the elements |
| `ZsetSpec.RankRangeStarts` | lualib-src/lua-zset/lua-skiplist.c:95-119 | on every non-empty list the ranges from 0 to 1 and from length + 1 to 1 return nothing, although they meet elements |
| `ZsetSpec.RankRangeTruncates` | lualib-src/lua-zset/lua-skiplist.c:95-119 | on every non-empty list the range 1..2^31 returns nothing |
| `BigintPool.Pool.Balloc` | lualib-src/lua-cjson/dtoa.c:545-583 | hands out a number of capacity 2^k that no free list and no cache holds |
| `BigintPool.Pool.Bfree` | lualib-src/lua-cjson/dtoa.c:586-607 | returns it to the free list of its size; the cache is not touched |
| `BigintPool.Pool.Extend` | lualib-src/lua-cjson/dtoa.c:956-969 | a square linked behind the last cached power leaves every cached node with its power 5^(4*2^i), linked to the next one and on no free list |
| `BigintArith.MultAdd` | lualib-src/lua-cjson/dtoa.c:612-667 | computes b*m + a exactly and keeps a normal number normal |
| `BigintArith.I2b` | lualib-src/lua-cjson/dtoa.c:789-802 | a one-word number with the given value |
| `BigintArith.Mult` | lualib-src/lua-cjson/dtoa.c:805-913 | computes the exact product within the capacity it allocates, normalised, leaving the factors alone; zero without words is accepted |
| `BigintArith.Pow5Mult` | lualib-src/lua-cjson/dtoa.c:917-971 | returns b*5^k for every b and every k >= 0, normalised unless it is 0, and only ever extends the cache |
| `BigintArith.NextPower` | lualib-src/lua-cjson/dtoa.c:956-969 | the next cached power is found or made by squaring |
| `BigintDivide.LShift` | lualib-src/lua-cjson/dtoa.c:974-1031 | returns b*2^k for every b and every k >= 0, normalised unless it is 0 |
| `BigintDivide.Cmp` | lualib-src/lua-cjson/dtoa.c:1034-1065 | the sign of the difference of the denoted integers |
| `BigintDivide.Diff` | lualib-src/lua-cjson/dtoa.c:1068-1160 | the absolute difference, normalised, with the sign of a - b |
| `BigintDivide.Hi0Bits` | lualib-src/lua-cjson/dtoa.c:707-737 | the number of leading zero bits |
| `BigintDivide.DShift` | lualib-src/lua-cjson/dtoa.c:2106-2116 | the shift that leaves four leading zero bits in the top word |
| `BigintDivide.AlignedRange` | lualib-src/lua-cjson/dtoa.c:2106-2116 | after that shift the number lies between 2^27 and 2^28 times a power of the word base |
| `BigintDivide.Quorem` | lualib-src/lua-cjson/dtoa.c:2119-2241 | for a divisor with four leading zero bits and b < 10*S: returns floor(b/S) and leaves b mod S, normalised |
| `BigintDivide.Correct` | lualib-src/lua-cjson/dtoa.c:2198-2239 | an estimate low by at most one is corrected by one subtraction |
| `Bignum.EstimateClose` | lualib-src/lua-cjson/dtoa.c:2143-2149 | the quotient of the top words, with the divisor rounded up, is the quotient or one less |
| `DtoaDigits.RoundedIsNearest` | lualib-src/lua-cjson/dtoa.c:4306-4313 | half-even rounding gives a nearest integer, the even one of two |
| `DtoaDigits.RoundOff` | lualib-src/lua-cjson/dtoa.c:4314-4322 | adding one to the last digit drops nines; all nines become 1 with the next exponent |
| `DtoaDigits.TrimZeros` | lualib-src/lua-cjson/dtoa.c:4323-4329 | dropping trailing zeros keeps the number |
| `Dtoa.Generate` | lualib-src/lua-cjson/dtoa.c:4285-4296 | the digit loop emits the digits of the quotient, ends early exactly when it is exact, and then with a digit that is not 0 |
| `Dtoa.RoundLast` | lualib-src/lua-cjson/dtoa.c:4306-4329 | the last digit is rounded half to even |
| `Dtoa.Print` | lualib-src/lua-cjson/dtoa.c:4160-4330 | with the exponent check, the digits and k denote b/S * 10^k0, where k0 is the estimate, rounded half to even to ilim significant digits, without leading or trailing zeros |
| `Dtoa.Mode2` | lualib-src/lua-cjson/dtoa.c:4103-4330 | the same from the integer mantissa on, for v * 2^b2 * 5^b5 / (2^s2 * 5^s5) * 10^k0, through the common shift, the powers of 5 and the alignment: no decimal with ilim significant digits is nearer, and of two as near the one with an even last digit is printed |
| `Dtoa.PrintedIsNearest` | lualib-src/lua-cjson/dtoa.c:4160-4330 | the decimal 0.d1d2... * 10^(k+1) is the number rounded half to even to ilim significant digits |
| `Decimals.RoundedNearest` | lualib-src/lua-cjson/dtoa.c:4306-4329 | rounding the quotient to an integer rounds the number to that many significant digits, against decimals with any exponent |
| `Decimals.NearestUnique` | lualib-src/lua-cjson/dtoa.c:4306-4329 | a number has one decimal it rounds to |
| `JsonNumber.ReadNumberText` | lualib-src/lua-cjson/g_fmt.c:51-110 | every number written from its parts is read back by a reader for the grammar of section 6 of RFC 8259, with its value |
| `GFormat.ExponentDigits` | lualib-src/lua-cjson/g_fmt.c:76-84 | the exponent loop writes exactly the exponent, with at least two digits, at most three below 1000, and no needless leading zero |
| `GFormat.Format` | lualib-src/lua-cjson/g_fmt.c:36-111 | the digits of the special exponent 9999 are copied; for every other exponent the text is a JSON number that denotes exactly 0.d1d2...*10^decpt with the sign; it has an exponent if and only if decpt is -4 or less or above the precision, and a point if and only if there are digits behind it; for the exponents of a double it has at most precision+7 characters |
| `PrintNumber.FewDigits` | lualib-src/lua-cjson/dtoa.c:4314-4322 | rounding never gives more digits than asked for |
| `PrintNumber.PrintRatio` | lualib-src/lua-cjson/g_fmt.c:36-111 | digits and text together: the text of x/s * 10^k0 reads back as that number rounded half to even to `precision` significant digits, with its sign, in at most precision+7 characters for the exponents of a double |
| `CrabTable.Table.Get` | lualib-src/crab/lua-crab.c:131-143 | finds a key exactly when the map of the table has it |
| `CrabTable.Table.GetFree` | lualib-src/crab/lua-crab.c:53-61 | fails if and only if every slot is occupied |
| `CrabTable.Table.NewKey` | lualib-src/crab/lua-crab.c:102-128 | adds the key to the map through all three placements; a table that is not full is not expanded, and the recursion ends |
| `CrabTable.Table.Expand` | lualib-src/crab/lua-crab.c:67-99 | keeps the map, doubles the capacity, leaves room, and triggers no further expansion |
| `CrabTable.Table.Insert` | lualib-src/crab/lua-crab.c:146-152 | the returned slot holds the key; the map grows by it or is unchanged |
| `CrabTable.Table.Write` | lualib-src/crab/lua-crab.c:224-233 | writing the flag and the value of a returned slot changes only that entry of the map |
| `CrabHash.PlaceFreeChained` | lualib-src/crab/lua-crab.c:103-127 | a key put into its free main position keeps all chains exact |
| `CrabHash.PlaceBehindChained` | lualib-src/crab/lua-crab.c:119-127 | a key chained behind its main position keeps all chains exact |
| `CrabHash.DisplacingChained` | lualib-src/crab/lua-crab.c:110-127 | moving a node that is not in its main position keeps all chains exact |
| `CrabDict.Dict.Insert` | lualib-src/crab/lua-crab.c:201-235 | adds the word to the words of the trie; an empty word adds nothing |
| `CrabDict.Dict.Match` | lualib-src/crab/lua-crab.c:272-287 | the walk returns the length of the longest word at a position |
| `CrabDict.Open` | lualib-src/crab/lua-crab.c:238-257 | a dictionary has exactly the non-empty words of the list |
| `CrabDict.Dict.Filter` | lualib-src/crab/lua-crab.c:260-301 | the text becomes its leftmost-longest masking, and the flag says whether anything was masked |
| `CrabSpec.HitIffOccurs` | lualib-src/crab/lua-crab.c:260-301 | something is masked if and only if some word occurs in the text |
| `CrabSpec.UnhitUnchanged` | lualib-src/crab/lua-crab.c:260-301 | without an occurrence the text is unchanged |
| `CrabMeaning.MaskMeans` | lualib-src/crab/lua-crab.c:260-301 | the masked text has a star at each position inside some spans and is unchanged elsewhere; the spans are words in order, each the longest at its start, and no word starts outside them |
| `CrabMeaning.LeftmostUnique` | lualib-src/crab/lua-crab.c:260-301 | there is one such choice of spans |
| `CrabBuckets.Buckets.AddWord` | lualib-src/crab/crab.c:60-84 | the word, cut at its first zero, goes into the bucket of its first rune, which stays sorted by falling length; an empty one is ignored |
| `CrabBuckets.Buckets.FirstMatch` | lualib-src/crab/crab.c:97-109 | the first match in a bucket is the longest word at the position |
| `CrabBuckets.Buckets.Crab` | lualib-src/crab/crab.c:91-113 | the text up to its first zero becomes its leftmost-longest masking, the rest is unchanged, and the flag says whether anything was masked |
| `CrabBuckets.FiltersAgree` | lualib-src/crab/crab.c:60-113 | what both filters do with the same words and text; for words without zeros they agree on text and flag if and only if masking up to the first zero is masking, so on all texts without zeros |
| `CrabTerminator.MaskSplits` | lualib-src/crab/crab.c:91-113 | for words without zeros, what lies before a zero and what lies behind it are masked apart |
| `CrabTerminator.SameMaskingExact` | lualib-src/crab/crab.c:91-113 | masking up to the first zero is masking if and only if masking leaves what lies behind it as it is, and hits nothing there unless something before it is hit |
| `CrabTerminator.SameMaskingIff` | lualib-src/crab/crab.c:91-113 | if no word consists of stars alone: if and only if no word occurs behind the first zero |
| `CrabTerminator.BehindZero` | lualib-src/crab/crab.c:95-96 | with the word "a" and the text of a zero and "a" the two filters disagree |
| `CrabTerminator.CutAtZero` | lualib-src/crab/crab.c:60-84 | a word with a zero is another word to crab.c |
| `Utf8.Decode` | lualib-src/crab/lua-utf8.c:28-37 | the loop computes the value of the announced bytes |
| `Utf8.Encode` | lualib-src/crab/lua-utf8.c:39-59 | writes the layout of section 3 of RFC 3629 at the position and nothing before it |
| `Utf8.EncodedExamples` | lualib-src/crab/lua-utf8.c:39-59 | the bytes of the first and the last rune of each length, and of examples of RFC 3629 |
| `Utf8.DecodeEncoded` | lualib-src/crab/lua-utf8.c:8-59 | the bytes of every rune below 0x110000 announce their number and decode to the rune |
| `Utf8.EncodeDecoded` | lualib-src/crab/lua-utf8.c:8-59 | encoding what was decoded gives the bytes back if and only if they are continuation bytes in the shortest form below 0x110000 |
| `Utf8.RoundTrip` | lualib-src/crab/lua-utf8.c:62-128 | decoding the encoding of every sequence of runes gives the sequence |
| `Utf8.EncodeBack` | lualib-src/crab/lua-utf8.c:62-128 | encoding the decoding of a string gives the string back if and only if all of it is canonical |
| `Utf8.OverlongZero` | lualib-src/crab/lua-utf8.c:28-37 | the bytes C0 80 are read as the rune 0, which is written as one byte |
| `Utf8.ToUtf32` | lualib-src/crab/lua-utf8.c:62-90 | returns the runes if every first byte announces bytes that are there |
| `Utf8.ToUtf8` | lualib-src/crab/lua-utf8.c:93-128 | refuses a rune out of range, otherwise returns the concatenated encodings |
| `Utf8.Len` | lualib-src/crab/lua-utf8.c:131-153 | accepts the same strings as the decoder with the same count |
| `JsonCodec.Encoder.AppendString` | lualib-src/lua-cjson/lua_cjson.c:479-503 | appends the quoted string with every byte escaped as the table says |
| `JsonRead.EscapeTable` | lualib-src/lua-cjson/lua_cjson.c:147-190 | the escape of each byte, in characters: the eight short escapes, \u00 with two lower-case digits, or the byte itself |
| `JsonRead.QuotedString` | lualib-src/lua-cjson/lua_cjson.c:479-503 | the text of a byte string is a string by section 7 of RFC 8259 that denotes it |
| `JsonCodec.StringTextLength` | lualib-src/lua-cjson/lua_cjson.c:488-502 | the text of a string takes at most six bytes for each of its bytes and two more, the room that is asked for before the unsafe appends |
| `JsonCodec.RoomIsNeeded` | lualib-src/lua-cjson/lua_cjson.c:488-502 | strings of zero bytes need exactly that room |
| `JsonCodec.Encoder.AppendArray` | lualib-src/lua-cjson/lua_cjson.c:582-603 | appends the text of the items if and only if they fit into the depth limit |
| `JsonCodec.Encoder.AppendObject` | lualib-src/lua-cjson/lua_cjson.c:651-690 | the same for the pairs of an object |
| `JsonCodec.Encoder.AppendData` | lualib-src/lua-cjson/lua_cjson.c:693-745 | appends the text of a value; refused if and only if it is nested deeper than the limit |
| `JsonLex.LexString` | lualib-src/lua-cjson/lua_cjson.c:929-987 | the decoded token is shorter than the text consumed |
| `JsonRead.LexQuoted` | lualib-src/lua-cjson/lua_cjson.c:929-987 | the token of every string of section 7 of RFC 8259, with any escapes in any case and surrogate pairs, is what the string denotes |
| `JsonRead.LexStringText` | lualib-src/lua-cjson/lua_cjson.c:929-987 | the token of the text of every byte string is that string |
| `JsonRead.LexNumber` | lualib-src/lua-cjson/lua_cjson.c:1040-1057 | the token of every integer of the grammar is the nearest 64-bit integer |
| `JsonRead.LexIntText` | lualib-src/lua-cjson/lua_cjson.c:1040-1057 | the token of the text of every 64-bit integer is that integer |
| `JsonCodec.Parser.NextString` | lualib-src/lua-cjson/lua_cjson.c:929-987 | the token loop, with the temporary buffer always shorter than the text; for a string of RFC 8259 the token is what it denotes by `JsonRead.LexQuoted` |
| `JsonCodec.Parser.NextToken` | lualib-src/lua-cjson/lua_cjson.c:1063-1140 | moves to the end of the token the text has at the pointer |
| `JsonCodec.Parser.ProcessValue` | lualib-src/lua-cjson/lua_cjson.c:1273-1303 | parses a value and is back at the depth it started from |
| `JsonCodec.Parser.ParseArrayContext` | lualib-src/lua-cjson/lua_cjson.c:1235-1270 | the loop over the items; an empty array is an empty table; refused beyond the depth limit |
| `JsonCodec.Parser.ParseObjectContext` | lualib-src/lua-cjson/lua_cjson.c:1184-1232 | the loop over the pairs; refused beyond the depth limit |
| `JsonCodec.Parser.Run` | lualib-src/lua-cjson/lua_cjson.c:1305-1343 | decodes or refuses every byte string, and ends at depth 0 when it decodes |
| `JsonRead.ReadTree` | lualib-src/lua-cjson/lua_cjson.c:1184-1303 | the same for every value of the grammar of RFC 8259 with integers for numbers, however it is written |
| `JsonRead.DecodeText` | lualib-src/lua-cjson/lua_cjson.c:1305-1343 | decoding such a text, with any blanks, gives what it denotes if its depth is within the limit, and is refused for its depth otherwise |
| `JsonGrammar.TableMeans` | lualib-src/lua-cjson/lua_cjson.c:1184-1232 | in an object a key has the value it was given last |
| `JsonRead.EncodedText` | lualib-src/lua-cjson/lua_cjson.c:479-745 | the encoder's text of a value is a text of the grammar that denotes the value and is nested as deeply |
| `JsonRead.ParseText` | lualib-src/lua-cjson/lua_cjson.c:1184-1303 | inside any text, the text of a value at depth d is parsed to the value if and only if d plus its depth is within the limit |
| `JsonRead.RoundTrip` | lualib-src/lua-cjson/lua_cjson.c:479-1343 | decoding the encoding of a value gives the value if its depth is within the limit, and is refused for its depth otherwise |
| `JsonCodec.Recode` | lualib-src/lua-cjson/lua_cjson.c:747-1343 | encoding and then decoding, as the methods run, gives the value back exactly within both limits |
| `JsonUnicode.EscapedCodePoint` | lualib-src/lua-cjson/lua_cjson.c:863-919 | every code point that is no surrogate, escaped as one unit or a surrogate pair, is read as its UTF-8 bytes; a low surrogate alone is refused |
| `JsonUnicode.WritersAgree` | lualib-src/lua-cjson/lua_cjson.c:819-852 | the UTF-8 writer of the JSON decoder agrees with the one of crab below 0x110000 |
| `StructLayout.AlignByMask` | lualib-src/luaffifb/ffi.h:215-218 | the mask macros round down to a multiple of the alignment |
| `StructLayout.Record.PlaceBits` | lualib-src/luaffifb/parser.c:351-436 | a bit-field goes to the first bit where it does not run over its storage unit (`:0` to the next multiple of the alignment, a packed one to the next bit) |
| `StructLayout.Record.PlaceBytes` | lualib-src/luaffifb/parser.c:439-470 | any other member goes to the first aligned byte behind the last member, and the next one can follow where it ends |
| `StructLayout.Record.PlaceMember` | lualib-src/luaffifb/parser.c:323-482 | both, with the alignment and the bit-field mark of the struct or union; a named bit-field of length 0 is the only error |
| `StructLayout.Record.PlaceMembers` | lualib-src/luaffifb/parser.c:637-693 | the whole struct or union: every member at its first place, an array ending where its elements end, unnamed structs flattened, and the size the least positive multiple of the alignment that holds all members; a union holds its members if and only if no bit-field is wider than the largest of the other members and the alignments of the bit-fields, rounded up |
| `StructLayout.ArrayWidth` | lualib-src/luaffifb/parser.c:462-466 | an array takes its count times what its element takes, the array being one pointer level |
| `StructSizes.RoomIsSize` | lualib-src/luaffifb/ctype.c:117-134 | the room a member gets is the size ctype_size gives its type |
| `StructSizes.PlainWidth` | lualib-src/luaffifb/parser.c:467-469 | a pointer takes 64 bits, another plain member the size of its type |
| `StructSizes.ElementsInOrder` | lualib-src/luaffifb/parser.c:462-466 | the elements of an array lie one behind the other, and the next member is at the first place behind the last one |
| `StructSizes.CharsThenInt` | lualib-src/luaffifb/parser.c:439-470 | in `struct { char a[3]; int b; }` b is at byte 4, and the size is 8 |
| `StructLayout.InOrder` | lualib-src/luaffifb/parser.c:323-482 | members are in order and share no bit |
| `StructLayout.LayoutUnique` | lualib-src/luaffifb/parser.c:637-693 | the members determine the layout |
| `StructLayout.InOneUnit` | lualib-src/luaffifb/parser.c:410-430 | an unpacked bit-field lies within one storage unit of its type, which starts aligned |
| `StructLayout.FlattenedApart` | lualib-src/luaffifb/parser.c:484-526 | the members a user sees, those of unnamed structs and unions included, lie within the struct, and those that come from different declared members share no bit |
| `StructLayout.FlattenedAllApart` | lualib-src/luaffifb/parser.c:484-526 | no two of them share a bit if and only if that holds in each unnamed member |
| `StructLayout.StructIsContained` | lualib-src/luaffifb/parser.c:484-526 | a finished struct can be nested: its members lie within it |
| `StructLayout.UnionIsContained` | lualib-src/luaffifb/parser.c:484-526 | so can a finished union that holds its members |
| `StructLayout.AlignedInArray` | lualib-src/luaffifb/parser.c:637-693 | in an array of structs every member of every element is aligned |
| `StructLayout.MaskCovers` | lualib-src/luaffifb/parser.c:472-475 | the alignment of the struct is at least that of every member that asks for one |
| `StructSizes.MaskAttained` | lualib-src/luaffifb/parser.c:472-475 | and it is no more than that of some member or what it had to begin with |
| `StructLayout.UnionHolds` | lualib-src/luaffifb/parser.c:327-349 | a union holds all its members if and only if no bit-field is wider than the largest of the other members and the alignments of the bit-fields, rounded up to the alignment of the union |
| `StructSizes.UnionIsLeast` | lualib-src/luaffifb/parser.c:327-349 | a union has the least positive size that is a multiple of its alignment, holds every member that is no bit-field, and holds the alignment of every bit-field |
| `StructLayout.PackedNineTooWide` | lualib-src/luaffifb/parser.c:334-335 | a union of a packed bit-field of nine bits gets one byte |
| `Bits.MaskedWrite` | lualib-src/luaffifb/ffi.c:1040-1045 | the masked read-modify-write of a word replaces exactly the bits of the field |
| `Bits.FieldOfPut` | lualib-src/luaffifb/ffi.c:1038-1045 | a field reads back what was put there, cut to its width |
| `Bits.OtherField` | lualib-src/luaffifb/ffi.c:1038-1045 | a field that shares no bit with it keeps its value |
| `BitFields.SetBits` | lualib-src/luaffifb/ffi.c:1038-1045 | in memory, the field takes the value cut to its width, and every member that shares no bit with it is unchanged |
| `BitFields.WriteMember` | lualib-src/luaffifb/ffi.c:1038-1045 | writing a bit-field changes no member that comes from another declared member or shares no bit with it |
| `BitFields.WriteInStruct` | lualib-src/luaffifb/ffi.c:1038-1045 | laying out a struct and writing one of its bit-fields: it is written if and only if its masks are defined and its bytes are there, it reads back, and no member from another declared member changes |
| `BitFields.WholeWordNotWritable` | lualib-src/luaffifb/ffi.c:1040-1043 | a bit-field of 64 bits can be declared, and its masks are undefined |
| `BitFields.GetBits` | lualib-src/luaffifb/ffi.c:1786-1815 | reads exactly the bits of the field |
| `BitFields.BitOfValue` | lualib-src/luaffifb/ffi.c:1786-1815 | bit j of a bit-field that starts at bit b of the memory is bit (b+j) mod 8 of byte (b+j)/8 |
| `BitFields.GetBool` | lualib-src/luaffifb/ffi.c:1805-1808 | reads whether the bit of the field is set |
| `Snapshot.Marker.ReadObject` | lualib-src/lua-snapshot/snapshot.c:81-138 | records the parent, marks an object seen for the first time together with the trail it was met along, and pops the value unless it is to be expanded |
| `Snapshot.Marker.MarkObject` | lualib-src/lua-snapshot/snapshot.c:309-329 | pops exactly one slot and keeps what is marked consistent with the graph, each object met along its greedy trail; the recursion ends on cyclic graphs |
| `Snapshot.Marker.MarkTable` | lualib-src/lua-snapshot/snapshot.c:163-204 | the same for tables, whose weak keys and values are not followed |
| `Snapshot.Marker.MarkUserdata` | lualib-src/lua-snapshot/snapshot.c:207-222 | the same for userdata, whose user value may be any value; fails exactly where an object that is no table is walked as one |
| `Snapshot.Marker.MarkFunction` | lualib-src/lua-snapshot/snapshot.c:225-253 | the same for functions and their upvalues |
| `Snapshot.Marker.MarkThread` | lualib-src/lua-snapshot/snapshot.c:256-306 | the same for threads: the stack is walked if and only if the walk is not on that very thread, and then the walk is on it |
| `Snapshot.FinishedIsExact` | lualib-src/lua-snapshot/snapshot.c:162-329 | when nothing is left to follow, the marked objects are exactly the reachable ones, each expanded once, each first met along its greedy trail, each with exactly its marked parents |
| `Snapshot.FinishedIsDefined` | lualib-src/lua-snapshot/snapshot.c:207-222 | and no object but a table is first met as a user value |
| `Snapshot.TakeSnapshot` | lualib-src/lua-snapshot/snapshot.c:408-419 | a snapshot is defined if and only if no object but a table is first met as a user value; it then marks exactly what is reachable from the registry, where the stack of the calling thread counts if and only if the greedy trail to that thread passes another one, and leaves the stack as it was |
| `SnapshotEdges.FollowedExactly` | lualib-src/lua-snapshot/snapshot.c:163-253 | a table is followed to its metatable, to its values under their keys unless the mode of its metatable has a v, and to its keys unless it has a k; a userdata to its metatable and its user value; a function to its upvalues under their names |
| `SnapshotEdges.ThreadFollowed` | lualib-src/lua-snapshot/snapshot.c:256-306 | a thread is followed to its stack slots by number and to its locals; the calling one to its slots, with what the walk holds there, only when its stack is walked |
| `SnapshotEdges.WeakTable` | lualib-src/lua-snapshot/snapshot.c:172-199 | from a table with one pair the key can be reached if and only if the mode has no k, the value if and only if it has no v |
| `SnapshotGraph.GreedyUnique` | lualib-src/lua-snapshot/snapshot.c:309-329 | an object has at most one greedy trail, the one that takes at each object the first edge from which the goal can be reached without coming back |
| `SnapshotGraph.GreedyExists` | lualib-src/lua-snapshot/snapshot.c:309-329 | every reachable object has one |
| `SnapshotGraph.WalkedDecided` | lualib-src/lua-snapshot/snapshot.c:256-274 | whether the stack of the calling thread is walked, and what the walk has left on it by then, is settled by the greedy trail to it in the edges that are followed |
| `SnapshotGraph.NotWalked` | lualib-src/lua-snapshot/snapshot.c:256-274 | it is not walked when no way from the registry to the calling thread crosses another thread |
| `SnapshotGraph.Walked` | lualib-src/lua-snapshot/snapshot.c:256-274 | it is walked when the calling thread can be reached and every way crosses another thread |
| `SnapshotGraph.CallerBehindWalked` | lualib-src/lua-snapshot/snapshot.c:256-274 | when the registry holds a thread whose stack holds the calling thread, what is on the stack of the calling thread is reachable |
| `SnapshotGraph.EdgeInGraph` | lualib-src/lua-snapshot/snapshot.c:162-306 | what is followed leads to objects of the graph |
| `SnapshotGraph.TablesAreDefined` | lualib-src/lua-snapshot/snapshot.c:207-222 | the walk is defined when every user value is a table or no object |
| `SnapshotGraph.FunctionIsMisused` | lualib-src/lua-snapshot/snapshot.c:207-222 | it is not when a function is met as a user value |
| `Sha2.RingStep` | lualib-src/luacrypto/lsha2.c:392-413 | storing the next word in the ring keeps the last 16 words of the schedule |
| `Sha2.RingReads` | lualib-src/luacrypto/lsha2.c:394-401 | the four words read from the ring are those the schedule asks for |
| `Sha2.Context.TakeWord` | lualib-src/luacrypto/lsha2.c:373-378 | a word of the block is read before its place in the ring is written, and the words not yet read are untouched, also when the block is the buffer |
| `Sha2.Context.RingWord` | lualib-src/luacrypto/lsha2.c:394-401 | the in-place update of the ring is the next word of the schedule |
| `Sha2.Context.Transform` | lualib-src/luacrypto/lsha2.c:353-427 | the rolled transform is the compression function of sections 6.2 and 6.4 of FIPS 180-4, for a block that may alias the buffer |
| `Sha2.Context.EightRounds` | lualib-src/luacrypto/lsha2.c:271-335 | eight unrolled rounds with rotated registers are eight rounds |
| `Sha2.Context.TransformUnrolled` | lualib-src/luacrypto/lsha2.c:293-349 | the unrolled transform is the same compression function |
| `Sha2.Context.AddBits` | lualib-src/luacrypto/lsha2.c:104-109 | the bit count is kept modulo 2^64 or 2^128 |
| `Sha2.Context.Update` | lualib-src/luacrypto/lsha2.c:431-475 | any chunk keeps the state equal to the hash of the whole blocks and the buffer equal to the rest |
| `Sha2.Context.PadOut` | lualib-src/luacrypto/lsha2.c:485-513 | the branches for an empty, a short and a long rest give the padding of section 5.1 of FIPS 180-4 |
| `Sha2.Context.Final` | lualib-src/luacrypto/lsha2.c:477-538 | returns the digest of everything given |
| `Sha2.LengthField` | lualib-src/luacrypto/lsha2.c:798-800 | the stored halves of the bit count are the length field |
| `Sha2.HashChunks` | lualib-src/luacrypto/lsha2.c:431-833 | for every message and every split into chunks the result is the one-shot digest |
| `Sha2Spec.PaddingMeans` | lualib-src/luacrypto/lsha2.c:485-513 | the padding completes a block with as few bytes as possible: a bit 1, zeros, and the length in bits |
| `Sha256.AbcDigest` | lualib-src/luacrypto/lsha2.c:133-178 | with the functions and constants of SHA-256 the digest of "abc" is the one of FIPS 180-4 |
| `Sha2Spec.BlocksJoin` | lualib-src/luacrypto/lsha2.c:461-467 | whole blocks can be hashed in parts |
| `XxHash.Xxh32` | lualib-src/lua-xxhash/xxhash.c:158-223 | the one-shot function computes the hash of messages below 2^31 bytes; longer ones are cut to, or replaced by, what the length is as an `int` |
| `XxHashAnswers.EmptyDigest` | lualib-src/lua-xxhash/xxhash.c:158-223 | the digest of no bytes is 02CC5D05 |
| `XxHashAnswers.TextDigest` | lualib-src/lua-xxhash/xxhash.c:158-223 | the digest of "Nobody inspects the spammish repetition" is E2293B2F |
| `XxHashAnswers.SeededDigest` | lualib-src/lua-xxhash/xxhash.c:158-223 | the digest of its first 16 bytes with seed 1 |
| `XxHash.State.Update` | lualib-src/lua-xxhash/xxhash.c:268-330 | fails if and only if the length is negative as an `int` or its sum with memsize overflows; otherwise the lanes are those of the whole stripes and memsize is total_len mod 16; everything is taken if and only if memsize plus the length is below 2^31 |
| `XxHash.State.Digest` | lualib-src/lua-xxhash/xxhash.c:333-373 | a digest is the hash of everything fed, and leaves the state as it was |
| `XxHash.StripesJoin` | lualib-src/lua-xxhash/xxhash.c:301-321 | whole stripes can be mixed in parts |
| `XxHash.Stream` | lualib-src/lua-xxhash/xxhash.c:246-373 | goes through if and only if no chunk overruns the buffer; the digest after every chunk is the one-shot hash of what was taken, which is what was fed when every chunk fits |
| `XxHash.StreamExact` | lualib-src/lua-xxhash/xxhash.c:268-330 | a stream takes exactly its message if and only if every chunk, with what it finds in the buffer, is shorter than 2^31 bytes |
| `XxHash.ChunkTooLarge` | lualib-src/lua-xxhash/xxhash.c:280-285 | 2^31 - 1 bytes fit an empty buffer and do not fit one that holds a byte |

## Left out

- Lua stack and registration glue, userdata, configuration setters, type checks and error messages: replaced by plain arguments and results.
- Allocation failure, printing and dumping, iconv conversion and `main` in crab.c.
- Skip list: scores are reals (no NaN or infinity), spans and lengths are unbounded, members are shorter than 2^31 bytes, the random height is a parameter in 1..32, the local update and rank arrays are sequences, and the deletion callback is the sequence of members it is called with.
- dtoa: all floating-point code (strtod, the quick paths, the estimate of k, gethex, bigcomp), the modes other than 2, and locks. That the estimate of k is right or one too high is a precondition of `Dtoa.Mode2`. The words of a number are a sequence of its capacity, a free list is a sequence, and the private memory arena is not modelled.
- crab: `key & (capacity - 1)` is a remainder; closing and dumping a dictionary are not modelled. In crab.c the comparison of a word with the rest of a message stops at the end of the array, where the original may read past the terminator.
- Utf8: `&`, `|` and shifts on bytes are remainders, sums and quotients; a table that the decoder filled before it refused a string is not modelled.
- JSON: floats, sparse arrays, numeric object keys, `__len` and tables with other keys, none of which come back as they were; growth of the string buffer; the mode that refuses invalid numbers, and the character positions in error messages. A table is given by its pairs in the order of traversal. A zero byte ends the text, as in the original. An array without items cannot be written by default and is read as an empty table.
- JsonCodec.Parser.NextToken: a number with a fraction or an exponent is refused, where the original reads a double with strtod, which is floating-point code.
- JsonCodec.Parser.Run: refuses texts with such numbers for the same reason.
- Struct layout: variable-sized members, the MSVC branch, sizes beyond the machine word, and the parser that reads declarations. An unnamed member of a struct type is taken to be that struct itself, not a pointer to it or an array of it.
- BitFields.SetBits: the eight bytes at the offset of the field are taken to be in the array, as the original reads and writes eight bytes wherever the field is, and bit_offset + bit_size is below 64, since the shift of the mask is undefined from there on. `BitFields.WriteInStruct` tells such fields from the others. Words are little-endian.
- BitFields.GetBits: the eight bytes are taken to be there, and the width is below 64, for the same reasons.
- Snapshot: the report text, the branches for Lua 5.1, and the lookup of light C functions, which are plain values here. Records of all kinds of objects are in one map. Apart from what the walk pushes on the stack of the calling thread, the graph does not change while it is walked. A walk that goes wrong at a user value ends there.
- Sha2: the six logical functions and the constants are parameters, so the result holds for SHA-256, which is given in full, for SHA-512 and for any functions in their place; big-endian machines and the HMAC wrappers are not modelled.
- XxHash: fewer than 2^64 bytes in all; an update that overruns the buffer ends the run; big-endian machines and freeing the state are not modelled.
- lpath.c, the constant-expression evaluator and the tokenizer of parser.c, md5, CRC, the other hashes, fixed-point arithmetic, AES, the codecs and wrappers over libraries that are not part of the repository, and generated machine code: they would add only easy members or have no clean specification.
