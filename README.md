# Set-associative cache simulator with LRU replacement

This project models the core of `cacheSim.cpp`, a simulator for a set-associative cache with least-recently-used replacement, and proves properties of the model in Dafny.

The simulator is configured with a total cache size, a line size and a set size. From these it derives the following:

- the number of sets;
- the widths of the offset and index fields of an address;
- the masks that extract those fields.

It then replays a trace of memory references, one at a time:

1. It splits the address into tag, index and offset.
2. It finds the set whose index matches.
3. It looks the tag up among that set's lines.
4. It counts a hit or a miss.
5. On a miss, it puts the tag into the set. While the set has room the tag is appended. Otherwise the least recently used line is evicted.

The model has four modules:

- `Bits` covers powers of two, the floor base-2 logarithm, the right shift `>>` and the bitwise `&` on naturals. Shifts and masks are defined bit by bit and proved equal to division and remainder by powers of two.
- `Geometry` covers the cache geometry and the `MemRef::calculate_tag/index/offset` decoder. The decoder is proved to lose nothing: tag, index and offset put back together give the address, and the fields fit their widths.
- `CacheLines` holds the lines of one set as values. It covers:
  - the lookup with aging (`Touch`);
  - the append and the eviction (`Insert`);
  - the choice of victim (`LruSlot`);
  - one complete access (`Access`).

  It also defines the invariant every reachable set satisfies: unique tags, and ages that follow recency. Recency is measured against a ghost history of the tags looked up in the set. The central result is that the victim chosen by the age counters is the line whose tag was looked up longest ago.
- `Cache` holds the classes `CacheSet` and `CacheTable`. Their fields are updated in place by methods that follow the source's loops. A set's `lines` is a `seq<CacheLine>` that the methods reassign, and the table's sets, reference log and counters are fields. `CacheSet.Valid()` says that a set's lines are what its lookups made of an empty set. `CacheTable.Balanced()` says that the hit and miss counters add up to the access counter and that the hits are the references logged as hits.

The aging rules are those of the code:

- A lookup that misses changes nothing.
- An append while the set has room ages no other line.
- A hit ages every line and then resets the hit line to age 0.
- An eviction ages every line and then gives the victim the new tag at age 0.

In the code, `check_cache_lines` changes nothing unless some line holds the tag. On a miss the lines are therefore not aged by the scan. `add_new_cache_line` only pushes the new line and leaves the ages of the others alone. So a miss in a set with room ages no line, and a miss in a full set ages each line once, in `update_cache_lines`.

## Model

| member | source | states |
|---|---|---|
| `Bits.Log2` | cacheSim.cpp:359-365 | The integer the truncated `log2` yields: 2^r <= n < 2^(r+1). |
| `Bits.ShrAndLow` | cacheSim.cpp:86-97 | `a >> k` and `a & (2^k - 1)` split `a` into quotient times 2^k plus a remainder below 2^k. |
| `Bits.MiddleMask` | cacheSim.cpp:90-93 | Two ways of getting bits o .. o+i-1 of an address agree. One masks with (2^(i+o) - 1) - (2^o - 1) and then shifts right by o. The other shifts right by o and keeps the i low bits. |
| `Bits.ShrIsDiv` | cacheSim.cpp:86-97 | `a >> k` is `a / 2^k`, and `a & (2^k - 1)` is `a % 2^k`. |
| `Geometry.NumberOfSets` | cacheSim.cpp:351-356 | A number of sets is computed exactly when the line size and the set size are both nonzero. |
| `Geometry.NumberOfSetsIsWholeSets` | cacheSim.cpp:351-356 | The computed number n counts the whole sets of lines that fit: n·lineSize·setSize <= total < (n+1)·lineSize·setSize. |
| `Geometry.IndexSize` | cacheSim.cpp:359-361 | The index width r satisfies 2^r <= numberOfSets < 2^(r+1). |
| `Geometry.OffsetSize` | cacheSim.cpp:363-365 | The offset width r satisfies 2^r <= lineSize < 2^(r+1). |
| `Geometry.PowerOfTwoWidths` | cacheSim.cpp:359-365 | For a line of 2^k bytes the offset width is exactly k, and for 2^k sets the index width is exactly k. |
| `Geometry.IndexMask` | cacheSim.cpp:371-377 | The index mask, the offset mask and 1 add up to 2^(indexSize+offsetSize): the two masks partition the low indexSize+offsetSize bits. |
| `Geometry.CalculateTag` | cacheSim.cpp:86-88 | The tag is at most the address. |
| `Geometry.CalculateIndex` | cacheSim.cpp:90-93 | The index is at most the index mask and at most the address. |
| `Geometry.CalculateOffset` | cacheSim.cpp:95-97 | The offset is at most the offset mask and at most the address. |
| `Geometry.DecodeFields` | cacheSim.cpp:86-97 | Each decoded field is a shift and low-bit mask of the address. The offset is its low o bits. The index is the low i bits of the address shifted right by o. The tag is what lies above both. |
| `Geometry.DecodeRoundTrip` | cacheSim.cpp:86-97 | offset < 2^o, index < 2^i, and tag·2^(i+o) + index·2^o + offset == address. |
| `Geometry.DecodeIsDivMod` | cacheSim.cpp:86-97 | tag = address / 2^(i+o), index = (address / 2^o) % 2^i, offset = address % 2^o. |
| `Geometry.EncodeRoundTrip` | cacheSim.cpp:86-97 | Decoding a tag, index and offset that fit their widths, once put together, gives them back. |
| `Geometry.DecodeFitsGeometry` | cacheSim.cpp:359-377 | With the sizes derived from the geometry, the offset lies inside a line and the index names an existing set. |
| `CacheLines.Aged` | cacheSim.cpp:213-218 | Same length, same tags, and every age exactly one higher. |
| `CacheLines.FirstWithTag` | cacheSim.cpp:196-210 | The first position holding the tag: no earlier line holds it. The result is the length when no line holds it. |
| `CacheLines.Touch` | cacheSim.cpp:200-205 | On a hit at k, line k keeps its tag at age 0. Every other line keeps its tag, and its age goes up by exactly one. The length is unchanged. |
| `CacheLines.LruSlot` | cacheSim.cpp:236-251 | The victim is the lowest position whose age is the maximum. It is position 0 for an empty set. |
| `CacheLines.Insert` | cacheSim.cpp:221-233 | With room, one line (tag, age 0) is appended and the existing lines are untouched. In a full set the victim gets (tag, age 0), every other line ages by one, and the length is unchanged. |
| `CacheLines.Access` | cacheSim.cpp:481-487 | A lookup hits exactly when a line of the set holds the tag. |
| `CacheLines.Replay` | cacheSim.cpp:221-224 | A set built up by lookups never holds more than setSize lines. |
| `CacheLines.FollowsRenew` | cacheSim.cpp:200-205 | Ages still follow recency after one slot becomes the most recent at age 0 and the others age by one. |
| `CacheLines.FollowsAppend` | cacheSim.cpp:189-193 | Ages still follow recency after a new most-recent slot of age 0 is appended and the others keep their ages. |
| `CacheLines.TouchKeepsInvariant` | cacheSim.cpp:200-205 | A hit keeps the tags unique and the ages ordered by recency. |
| `CacheLines.AppendKeepsInvariant` | cacheSim.cpp:221-224 | An append after a miss keeps the tags unique, the length within setSize, and the ages ordered by recency. |
| `CacheLines.EvictKeepsInvariant` | cacheSim.cpp:225-231 | An eviction after a miss keeps the tags unique and the ages ordered by recency. |
| `CacheLines.EvictUnique` | cacheSim.cpp:225-231 | Overwriting the victim with a tag that no line holds leaves no two lines sharing a tag. |
| `CacheLines.InsertKeepsInvariant` | cacheSim.cpp:221-233 | Inserting a missing tag keeps the set invariant, whether the set is full or not. |
| `CacheLines.AccessKeepsInvariant` | cacheSim.cpp:481-487 | Any lookup, hit or miss, keeps the set invariant. |
| `CacheLines.ReplayInvariant` | cacheSim.cpp:196-233 | Every set reached from an empty set by lookups has unique tags and ages ordered by recency. |
| `CacheLines.LruIsLeastRecentlyUsed` | cacheSim.cpp:226-227 | In a set that satisfies the invariant, every other line's tag was looked up after the victim's tag. |
| `CacheLines.ReplayEvictsLeastRecentlyUsed` | cacheSim.cpp:226-227 | In every reachable set, the line chosen for replacement is the one whose tag was looked up longest ago. |
| `CacheLines.AccessThenHit` | cacheSim.cpp:481-487 | After a lookup, whether it hit or missed, repeating it at once is a hit. |
| `Cache.CacheSet.constructor` | cacheSim.cpp:173 | A new set is empty, has the given set size and an empty history, and is valid when the set size is positive. |
| `Cache.CacheSet.AddNewCacheLine` | cacheSim.cpp:189-193 | One line (tag, age 0) is appended, and the existing lines keep their tags and ages. |
| `Cache.CacheSet.UpdateLRUs` | cacheSim.cpp:213-218 | Every line is one access older (`Aged`). |
| `Cache.CacheSet.CheckCacheLines` | cacheSim.cpp:196-210 | It returns true exactly when a line holds the tag. On a hit, the first such line goes to age 0 and the others age by one. On a miss, the lines are unchanged. Validity is kept. |
| `Cache.CacheSet.FindLRU` | cacheSim.cpp:236-251 | The result is the lowest position of maximal age. It is 0 for an empty set. |
| `Cache.CacheSet.UpdateCacheLines` | cacheSim.cpp:221-233 | The lines become `Insert` of the old lines. Validity is kept when the tag was missing. |
| `Cache.CacheSet.SetIndex` | cacheSim.cpp:253-255 | The set's index becomes the given value, and nothing else changes. |
| `Cache.CacheSet.Lookup` | cacheSim.cpp:481-488 | `check_cache_lines`, then `update_cache_lines` on a miss. Together they do what `Access` says, and the set stays valid. |
| `Cache.CacheTable.constructor` | cacheSim.cpp:279-282 | The sizes are stored, and there are no sets and no references. Every counter is zero. The table is valid and balanced. |
| `Cache.CacheTable.CalculateNumberOfSets` | cacheSim.cpp:351-356 | numberOfSets becomes (total / lineSize) / setSize when both divisors are nonzero. Otherwise it keeps its value. |
| `Cache.CacheTable.CalculateIndexSize` | cacheSim.cpp:359-361 | indexSize becomes the floor of log2 of numberOfSets. |
| `Cache.CacheTable.CalculateOffsetSize` | cacheSim.cpp:363-365 | offsetSize becomes the floor of log2 of lineSize. |
| `Cache.CacheTable.CalculateOffsetMask` | cacheSim.cpp:371-373 | offsetMask becomes 2^offsetSize - 1. |
| `Cache.CacheTable.CalculateIndexMask` | cacheSim.cpp:375-377 | indexMask becomes (2^(indexSize+offsetSize) - 1) - offsetMask. |
| `Cache.CacheTable.CreateCacheSets` | cacheSim.cpp:499-504 | Exactly n new, empty sets of setSize lines are appended after the existing ones, and the table stays valid. |
| `Cache.CacheTable.SetIndexForCacheSets` | cacheSim.cpp:507-513 | Set k gets index k. Lines, set sizes and histories are unchanged, and the table stays valid. |
| `Cache.CacheTable.BuildSets` | cacheSim.cpp:584-585 | The start-up yields numberOfSets valid sets, where set k has index k and the table's set size. Every set is a new object with no lines and an empty history. |
| `Cache.CacheTable.DeriveFieldSizes` | cacheSim.cpp:586-590 | The field widths and masks are those the geometry defines. |
| `Cache.CacheTable.Setup` | cacheSim.cpp:583-590 | Setup succeeds exactly when lineSize and setSize are nonzero and at least one set fits. It then leaves numberOfSets = (total / lineSize) / setSize sets with indices 0 .. numberOfSets-1, and field sizes and masks as the geometry gives them. Every set is a new object with no lines and an empty history. |
| `Cache.CacheTable.FindSet` | cacheSim.cpp:473-477 | The result is the first set whose index matches, or the number of sets when none does. |
| `Cache.CacheTable.LookupSet` | cacheSim.cpp:481-488 | The lookup in the chosen set changes only that set, as `Access` says. Afterwards that set holds the tag. |
| `Cache.CacheTable.Count` | cacheSim.cpp:483-494 | Exactly one of totalHits and totalMiss goes up by one, as the outcome says. |
| `Cache.CacheTable.DetermineHitOrMiss` | cacheSim.cpp:469-496 | It returns true exactly when the first set with the matching index already held the tag. That set changes as `Access` says, and every other set is unchanged. Afterwards the set holds the tag, so an immediate repeat hits. Exactly one counter goes up by one. |
| `Cache.CacheTable.ReadMemRef` | cacheSim.cpp:452-463 | k is the first set whose index is the decoded index, or the number of sets when none is. The reference hits exactly when set k exists and held the decoded tag before. Set k changes as `Access` says and its history gains the tag. Every other set is unchanged. One reference is logged with its number, address, decoded tag, index and offset, and its outcome. totalAccess goes up by one, exactly one of the hit and miss counters goes up, and the counters stay balanced. |
| `Cache.CacheTable.ReadMemRefOnValues` | cacheSim.cpp:452-463 | The same step seen through the indices, histories and sizes the sets hold: the outcome is `LookupHits` on the histories before, and the histories move on by `Bump` at the set `FirstSet` picks. The log and the counters change as for `ReadMemRef`. |
| `Cache.CacheTable.ReadMemTrace` | cacheSim.cpp:418-463 | Each set ends with the history `HistoriesAfter` the whole trace, taken from the indices, histories and sizes the sets had on entry. Its lines are therefore the replay of that history. The log and counters satisfy `RunSoFar` over the whole trace. Reference n is logged with number n and its decoded fields. It is logged as a hit exactly when `TraceHit` says its set held its tag after references 0 .. n-1. Hits plus misses and totalAccess go up by the trace length, and the hits counted are the logged hits. From balanced counters, the counters stay balanced. |
| `Cache.FirstSet` | cacheSim.cpp:471-477 | The position of the first set carrying the index: no earlier set carries it. The result is the number of sets when none does. |
| `Cache.HistoriesAfterRouted` | cacheSim.cpp:426-463 | After n references, each set's history is its starting history followed by the tags of exactly the references routed to it (`Routed`), in trace order. |
| `Cache.Routed` | cacheSim.cpp:453-459 | Every tag routed to set j is the decoded tag of some earlier reference whose decoded index selects set j, and there are at most n of them. |
| `Cache.RepeatHits` | cacheSim.cpp:459 | A reference to the same address as the reference just before it hits, whenever its index selects a set. |
| `Cache.LogStep` | cacheSim.cpp:459-463 | Logging reference n with its decoded fields and its outcome, and counting it, carries `RunSoFar` over the first n references to the first n + 1. |
| `Cache.DecodedIndexHasSet` | cacheSim.cpp:469-477 | Once the table is configured, the index decoded from any address names a set that exists and carries that index. |

Some definitions have no contract of their own and no row; what they promise is stated by the members above:

- `Geometry.OffsetMask` (cacheSim.cpp:372) is 2^offsetSize - 1. `Geometry.IndexMask` states that it and the index mask partition the low bits.
- `Geometry.Decode` (cacheSim.cpp:453-455) applies the three field calculations. `Geometry.DecodeFields`, `Geometry.DecodeRoundTrip`, `Geometry.DecodeIsDivMod` and `Geometry.EncodeRoundTrip` state what it yields.
- `Cache.Bump`, `Cache.HistoriesAfter`, `Cache.LookupHits` and `Cache.TraceHit` are the reference definition of how a trace moves the sets' histories and of which references hit. `Cache.TraceLog` and `Cache.RunSoFar` say what the log and the counters hold after part of a trace. `Cache.CacheTable.SetsHold` says which indices, sizes and histories the sets hold.

## Left out

- Reading the configuration and trace files is not modelled: `read_cache_config`, and the tokenising, `atoi` and `strtoul` in `read_mem_trace` (cacheSim.cpp:384-450). These are I/O and C library conversions. `ReadMemTrace` takes the sequence of addresses instead.
- `print_summary` (cacheSim.cpp:284-345) is not modelled. It formats output and computes floating-point hit and miss rates.
- `main` (cacheSim.cpp:576-605) is command-line plumbing. Its `argc != 2` test is inverted, and it reads `argv[2]`. `Setup` models the calls it makes between reading the configuration and reading the trace.
- `calculate_tag_size` and `calculate_tag_mask` (cacheSim.cpp:367-369, 379-381) are not modelled. They take `lineSize * 8` as the address width, and no hit or miss decision uses them.
- `create_cache_lines` (cacheSim.cpp:180-186) is never called and is not modelled.
- `CacheLine::valid_`, `MemRef::newTag_` and the read/write kind and size of a reference affect no decision and are not modelled.
- The floating-point `log2` and `pow` calls are modelled as the exact integer floor of log2 and as 2^k. The two agree for every configuration the source accepts, because its sizes are `int` (cacheSim.cpp:553-563). So lineSize and numberOfSets·lineSize, which is at most totalCacheSize, are below 2^31. Then indexSize + offsetSize <= 30. A double holds log2 of such a number closely enough that truncation gives its floor, and it holds 2^k - 1 exactly for k <= 30.
- Integers are unbounded. The source's `unsigned long` addresses, masks and line ages (`LRUFlag_`, cacheSim.cpp:156-158), its `int` counters and sizes, and its `unsigned int` set sizes and indices can wrap around. A shift by 64 bits or more is undefined in C++. None of this is modelled.
- Heap allocation with `new` and the leaked copies pushed into the vectors are not modelled. The sets of a table are modelled as distinct objects, as the vector's copies are.
- The source never initialises the counters `totalHits`, `totalMiss` and `totalAccess`, nor a new set's `index_`. The model starts them at 0.
- `Cache.CacheTable.Setup` reports a zero line size, a zero set size or a zero number of sets as a failed setup. In the source, `log2(0)` and an unassigned `numberOfSets_` make those cases undefined.
- `Cache.CacheSet.UpdateCacheLines` requires a non-empty set or a positive set size. With an empty set of size 0, the source writes through the end iterator that `find_LRU` returns, which is undefined.
- `Cache.CacheSet.UpdateCacheLines` keeps validity only when the tag was missing. The source calls it only after a miss.
- Some methods are split out of a source function: `Lookup`, `FindSet`, `LookupSet` and `Count` from `determine_hit_or_miss`, `ReadMemRef` from the loop body of `read_mem_trace`, and `BuildSets` and `DeriveFieldSizes` from `main`. Each keeps the order of the source's statements. The loop with `break` in `determine_hit_or_miss` is modelled as a search for the first matching set followed by the lookup in it, which has the same effect.
- The per-set access history (`CacheSet.history`) is ghost state added for the proofs. The source has no such field.
