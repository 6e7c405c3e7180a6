# A verified model of the C "core" library

The library is a set of header-only containers and allocators. This project models the parts with
state or arithmetic worth a proof, and proves what they do over whole runs:

- the hash map (`lib/core/hashmap.h`): `HashTable.dfy` gives the table as a value; `HashTableLemmas.dfy`,
  `HashTableGrowth.dfy` and `HashTableSet.dfy` prove the linear-probing invariant, growth and one
  `hashmap_set`; `HashTableHistory.dfy` tells the state after any run of sets and growth calls from its
  history, and `HashTableRuns.dfy`, `HashTablePuts.dfy` and `HashTableBuckets.dfy` derive what lookups,
  iteration, lookup by identity and the buckets come to; `HashTableCost.dfy` bounds the capacity and what
  growths cost; `HashTableWitnesses.dfy` holds short runs that go wrong; `HashMap.dfy` is the object that updates its arrays in place; `StrKeys.dfy` instantiates it with
  `str_t` keys; `HashTableAddresses.dfy` is about key types that hash the address of a key;
- `align_forward` and the sequential layout (`lib/core/core.h`): `Alignment.dfy`, `Layout.dfy`, and
  `MapLayout.dfy` for the blocks of a hash map;
- the arena over its list of chunks (`lib/core/arena.h`, `lib/core/list.h`): `ArenaModel.dfy`,
  `ArenaSafety.dfy`, `ArenaAlignment.dfy`, `ArenaOverlap.dfy`, `ArenaSpace.dfy`, `ArenaChunks.dfy`, and the linked objects in `Arena.dfy`;
- the UTF-8 codec and string loops (`lib/core/string.h`): `Utf8.dfy`, `Utf8Sequences.dfy`, `Str.dfy`,
  `Transcode.dfy`, against RFC 3629;
- the buffered output stream (`lib/core/io.h`): `StreamModel.dfy`, `OutputStream.dfy`;
- the formatter (`lib/core/fmt/fmt.h`): `FormatModel.dfy`, `FormatLaws.dfy`, `Formatter.dfy`;
- the growable array (`lib/core/array.h`): `DynamicArray.dfy`.

Each class method is proved equal, step by step, to a function on values; the theorems are about that
function and about runs of it. `Arithmetic.dfy` and `Wrappers.dfy` hold shared helpers.

## Where the code departs from its comments

The model follows the code. Where that makes a promised property fail, the project proves exactly when it
holds and shows an input on which it does not.

- `align_forward` adds `ptr % alignment` instead of rounding up. It aligns exactly the addresses that are
  aligned or half an alignment off (`AlignForwardMeaning`). `alloc_sequentially_n` therefore aligns every
  pointer exactly when no alignment is more than twice the one before (`AlignedExactlyWhen`), and the size it
  requests suffices exactly when a block whose pointer is not sure to be aligned is never followed by one that
  asks for more than is sure (`FitsExactlyWhen`). Rounding up would satisfy both always (`RoundingUpFits`).
- `arena_chunk_rest_cap_aligned` subtracts unsigned, so a chunk whose aligned cursor lies past its end passes
  the fit test. A block is inside its chunk exactly when no chunk overshoots before the first one with room
  (`InsideExactlyWhen`, `InsideThroughout`). Blocks of one chunk never overlap, but a block past the end of its
  chunk can overlap a live block of another, even if sizes are multiples of power-of-two alignments and chunks
  start at multiples of the largest: three requests are enough (`OverlapHappens`). Over all such runs, blocks
  stay inside their chunks, and apart, exactly when all ask for the same alignment
  (`AlwaysInsideExactlyWhen`, `AlwaysApartExactlyWhen`); they are aligned exactly when the largest alignment is
  at most twice the smallest (`AlwaysAlignedExactlyWhen`), so being aligned does not make a run safe.
- `hashmap_grow` reinserts all slots of the old `keys` slice, and the spare ones hold the all-zero key. So a
  growth leads the zero key to the last old slot, stored or not, and the next new key written there takes its
  bucket away. For strings that key is the empty string.
  - All other keys are right after every run of sets and growth calls (`OthersAlwaysAgree`).
  - The zero key is right throughout a run exactly as `AgreesThroughout` says; in a run of sets, exactly when
    none makes the map grow while the zero key is stored (`PutsAgreeThroughout`, `StrMapExactlyWhen`,
    `EmptyKeyLost`). A growth call on a new map makes it answer for a key never set (`GrowthInventsEmptyKey`).
  - Iteration and lookup by identity stay right longer: in a run of sets, until the zero key is set once more
    after it was lost, which stores it twice (`PutsIterateThroughout`, `PutsInternThroughout`, `EmptyKeyTwice`).
  - Since the last growth caused by another key, one bucket more is occupied than keys are stored. Then the
    buckets are not in bijection with the slots, a table can be full, and an absent key has a null bucket just
    when setting it makes the map grow (`OccupancyThroughout`, `FullTable`).
  - Reinserting the stored slots alone would keep every lookup (`RehashKeepsLookups`).
- `%%` prints two signs when no literal text precedes it since the last directive, newline or start of the
  format string; a completed print shows one sign for each exactly when that never happens
  (`PercentExactlyWhen`). `%l` reads its second letter at the wrong place and always fails
  (`StringFormatter.DoDirective`).
- The decoder does not check continuation bytes or shortest form, and neither codec function excludes
  surrogates; `WellFormed` is the grammar of RFC 3629, section 4, without the surrogate exclusion.
- Formatting a string in two pieces gives the same exactly when the second piece does not start with a `%%`
  that literal text of the first precedes (`FormatInPieces`).
- The primitive key types hash the address of the key (`lib/core/runtime.h:46-50`), so equal keys may have
  different hashes, and one key another hash in each slot it is copied to. Nothing is said of what such a map
  looks up. Its runs of sets complete whatever the addresses; a growth call that finds two or more slots unused
  may give each of them a bucket, after which a set can write through a null bucket (`SetAbortsExactlyWhen`,
  `CompletesExactlyWhen`, `OverfullAborts`).
- The blocks of a hash map need not be aligned: with keys of five characters and eight-byte values they are not
  (`MapAlignedExactlyWhen`, `CharKeysMisalign`). They fit exactly as `MapFitsExactlyWhen` says.

What callers must provide, because the code has no answer for it: a map capacity of at least one (the code
divides by it), a stream buffer of at least one byte unless only empty data is written (the write loop would
not end, `EmptyBufferStuck`), alignments greater than zero and, for the layout, sizes that are multiples
of power-of-two alignments (`lib/core/core.h:465-468`). Hash map sizes, layouts and counters are unbounded naturals.

The outside world enters as parameters: the address a new chunk gets is part of the request, a file accepts
at each `fwrite` at most the next entry of an arbitrary list of limits, the target of a formatter fails after an
arbitrary number of bytes, number text is an arbitrary function.

## Model

| member | source | states |
|---|---|---|
| HashTableLemmas.ProbeReturns | lib/core/hashmap.h:183-192 | the probe loop returns the first bucket, going cyclically, that is free or holds an equal key, and null only if none of the buckets within reach does |
| HashTableLemmas.GetBucketNone | lib/core/hashmap.h:174-193 | a null bucket means that every bucket of the table is occupied by an unequal key |
| HashTableLemmas.FoundMeaning | lib/core/hashmap.h:174-193 | a key unequal to zero leads to the slot that stores an equal key, and to none exactly if no slot does |
| HashTableLemmas.StoredPath | lib/core/hashmap.h:174-193 | from the home bucket of a stored key, every bucket before the one pointing at its slot is occupied by an unequal key |
| HashTableLemmas.InternExactlyWhen | lib/core/hashmap.h:195-214 | identity lookup of a stored key finds the bucket that lookup by the key finds, unless it is a zero key and zero leads to another slot |
| HashTableLemmas.ForeignIntern | lib/core/hashmap.h:195-214 | a key pointer that does not go into the keys array is never found |
| HashTableLemmas.File | lib/core/hashmap.h:289-304 | filing a key in the bucket found for it keeps the probing invariant, even when an older bucket points at the same slot, and tells what becomes of the zero key and of the number of occupied buckets |
| HashTableGrowth.GrowTotal | lib/core/hashmap.h:238-279 | for every key type, no reinsertion meets a null bucket, so the assertion never fires |
| HashTableGrowth.ReinsertFills | lib/core/hashmap.h:266-273 | reinsertion gives one bucket to each key unequal to zero, and one to all zero keys, which points at the last of them |
| HashTableGrowth.GrowForm | lib/core/hashmap.h:238-279 | a growth keeps the invariant, enlarges the table, occupies one bucket for each other key and one for the zero key, and leads that to the last old slot |
| HashTableGrowth.GrowKeepsOrder | lib/core/hashmap.h:238-279 | a growth succeeds, raises the capacity, and keeps count, keys and values in order |
| HashTableGrowth.GrowMeaning | lib/core/hashmap.h:238-279 | a growth keeps the lookup of every key except the zero key, which afterwards yields a zeroed value |
| HashTableGrowth.RehashKeepsLookups | lib/core/hashmap.h:263-273 | reinserting only the stored slots would keep the lookup of every key, if the zero key leads to the slot that stores it last |
| HashTableSet.AddSucceeds | lib/core/hashmap.h:283-287 | for every key type, the bucket fetched again after growing is not null and there is room for the pair |
| HashTableSet.SetTotal | lib/core/hashmap.h:309-323 | for every key type, no set aborts or writes to a null bucket, and a spare slot remains |
| HashTableSet.SetFound | lib/core/hashmap.h:309-323 | setting a key that is found overwrites its value and nothing else, and keeps the invariant |
| HashTableSet.SetNew | lib/core/hashmap.h:281-307 | setting a key that is not found appends the pair behind the stored ones, in the table or the grown one, and keeps the invariant |
| HashTableSet.SetRests | lib/core/hashmap.h:309-323 | every set keeps the invariant, growth over the stored zero key included |
| HashTableSet.GrowingLosesZero | lib/core/hashmap.h:264-291 | a growth caused by a key unequal to zero makes the zero key unfindable |
| HashTableHistory.RunTotal | lib/core/hashmap.h:309-323 | for every equality and every hash of key values, lawful or not, runs of sets complete, with a spare slot and at most one bucket more occupied than keys are stored |
| HashTableHistory.RunTracks | lib/core/hashmap.h:238-323 | every run of sets and growth calls completes, and its table is the one the history tells of: capacity, count, occupied buckets, zero key's slot and value, and every other key set with its latest value |
| HashTableRuns.OthersAlwaysAgree | lib/core/hashmap.h:216-225 | after every run of sets and growth calls, a key unequal to zero yields the value of its last set, or null if there was none |
| HashTableRuns.AgreesThroughout | lib/core/hashmap.h:216-225 | every lookup throughout a run agrees with the history if and only if no set of a new key is made in the slot the zero key leads to while that is set, and no growth call grows the map unless the zero key is set to a zeroed value |
| HashTableRuns.FirstKeysMeaning | lib/core/hashmap.h:124-130 | the keys of the history in order of first insertion are distinct, and are those that were set |
| HashTableRuns.IteratesThroughout | lib/core/hashmap.h:124-130 | throughout a run iteration visits each distinct key once, in order of first insertion, with its latest value, if and only if the zero key is never set again after it was lost, nor to another value while it leads to a spare slot |
| HashTableRuns.InternsExactlyWhen | lib/core/hashmap.h:228-236 | in every reachable state, lookup by an interned key gives the bucket and value of lookup by that key for all stored keys, if and only if the zero key is not found, or is found in the only slot that stores it, or is not stored |
| HashTablePuts.PutsAgreeThroughout | lib/core/hashmap.h:216-225 | a run of sets agrees with its history throughout if and only if no set makes the map grow while the zero key is stored |
| HashTablePuts.PutsIterateThroughout | lib/core/hashmap.h:124-130 | in a run of sets iteration is right throughout if and only if the zero key is never set after a growth over it |
| HashTablePuts.PutsInternThroughout | lib/core/hashmap.h:228-236 | in a run of sets lookup by identity is right throughout if and only if the zero key is never set after a growth over it |
| HashTableBuckets.BijectionExactlyWhen | lib/core/hashmap.h:289-304 | in every reachable state occupied buckets and stored slots are in bijection if and only if there are as many of both and the zero key, if stored, is stored once and found there |
| HashTableBuckets.NullExactlyWhen | lib/core/hashmap.h:174-193 | in every reachable state the count is below the capacity, and a lookup yields a null bucket if and only if setting the key makes the map grow and one bucket more is occupied than keys are stored |
| HashTableBuckets.OccupancyThroughout | lib/core/hashmap.h:174-193 | in a run of sets that never grows over the zero key, one bucket too many is occupied exactly since a growth caused by a key unequal to zero; that is when there is no bijection, and when keys that make the map grow have a null bucket |
| HashTableWitnesses.ZeroKeyLost | lib/core/hashmap.h:264-291 | for every lawful key type with a key unequal to zero, two sets after which the zero key is lost |
| HashTableWitnesses.ZeroKeyTwice | lib/core/hashmap.h:264-307 | a third set stores the zero key twice: iteration and lookup by identity go wrong |
| HashTableWitnesses.TableFills | lib/core/hashmap.h:174-193 | for every lawful type, three sets of different keys that fill all buckets, and the null bucket of a fourth key |
| HashTableAddresses.SetIsAt | lib/core/hashmap.h:309-323 | if pointers hash as the keys they point at, a set with given pointer hashes is the ordinary set |
| HashTableAddresses.SetAbortsExactlyWhen | lib/core/hashmap.h:281-292 | whatever the pointer hashes, a set writes through a null bucket if and only if the map does not grow, all buckets are occupied and none holds an equal key |
| HashTableAddresses.SoundCompletes | lib/core/hashmap.h:238-323 | whatever the pointer hashes, runs of sets, and of growth calls that find one slot unused, complete |
| HashTableAddresses.OverfullAborts | lib/core/hashmap.h:266-292 | a growth call on a new map of two slots, and three sets of integers, the last of which writes through a null bucket |
| HashTableAddresses.CompletesExactlyWhen | lib/core/hashmap.h:238-323 | for integers hashed by address, runs complete whatever the addresses if and only if growth calls find at most one slot unused |
| HashTableCost.GrowCapacity | lib/core/hashmap.h:239-244 | a growth happens unless more is unused than asked for, and takes the larger of twice the capacity and the capacity plus what is asked for |
| HashTableCost.SetCapacity | lib/core/hashmap.h:281-287 | for every key type, a set keeps the capacity unless it adds a key to a map with one slot unused, which doubles it (from one, to three) |
| HashTableCost.CapacityBound | lib/core/hashmap.h:238-287 | after any run of sets the capacity is at most two more than at first, or at most twice the stored keys |
| HashTableCost.AmortizedGrowth | lib/core/hashmap.h:266-287 | all growths of a run of sets together reinsert at most two slots for every set |
| HashTableCost.CapacityDoubles | lib/core/hashmap.h:244 | the capacity of a run of sets is the first one, if at least two, times a power of two |
| HashTableLemmas.ProbingStarts | lib/core/hashmap.h:175-180 | probing starts at the remainder by the capacity of the hash cut to 32 bits |
| HashTableSet.AddUsesBucket | lib/core/hashmap.h:289-304 | without a growth the pair goes to the next slot and the given bucket points there |
| HashMaps.HashMap.constructor | lib/core/hashmap.h:326-366 | a new map has zeroed arrays of the capacity and satisfies the invariant |
| HashMaps.HashMap.GetBucket | lib/core/hashmap.h:174-193 | the probe loop computes the bucket function |
| HashMaps.HashMap.GetBucketByIntern | lib/core/hashmap.h:195-214 | the identity probe loop computes its bucket function, for pointers into the keys array and others |
| HashMaps.HashMap.Get | lib/core/hashmap.h:216-225 | the value of the equal stored key, null exactly if there is none, for keys unequal to zero; for others what the lookup function gives |
| HashMaps.HashMap.GetByIntern | lib/core/hashmap.h:228-236 | what the identity lookup function gives, which for a stored key unequal to zero is the value in its slot |
| HashMaps.HashMap.ReinsertSlots | lib/core/hashmap.h:266-273 | the loop on the larger map performs the reinsertion, every bucket being non-null |
| HashMaps.HashMap.Enlarge | lib/core/hashmap.h:244-265 | the larger map starts with free buckets and the old dense arrays followed by zeroes |
| HashMaps.HashMap.Grow | lib/core/hashmap.h:238-279 | the map's arrays become those of the growth function, and the invariant is kept if hashes respect equality or one slot is spare |
| HashMaps.HashMap.StoreAt | lib/core/hashmap.h:289-304 | the pair is written to the next dense slot, the bucket points at it, the count rises by one |
| HashMaps.HashMap.AddKeyVal | lib/core/hashmap.h:281-307 | growth if needed, then the store in the given bucket or the one fetched again, with both assertions proved |
| HashMaps.HashMap.Set | lib/core/hashmap.h:309-323 | the map's arrays become those of the set function, and the invariant is kept, for every map and key |
| StrKeys.StrLawful | lib/core/string.h:179-194 | equality of strings is an equivalence and equal strings have equal hashes |
| StrKeys.StrMapExactlyWhen | lib/core/string.h:173-175 | a map from strings agrees with its history throughout a run of sets if and only if it never grows while the empty string is a key |
| StrKeys.StrIteratesExactlyWhen | lib/core/hashmap.h:124-130 | it iterates rightly throughout if and only if the empty string is never set after a growth over it |
| StrKeys.EmptyKeyLost | lib/core/hashmap.h:264-273 | two sets on a map of capacity two after which the empty string is lost |
| StrKeys.EmptyKeyTwice | lib/core/hashmap.h:264-273 | a third set stores the empty string twice: iteration visits it twice, and identity lookup of its first slot differs from lookup by key |
| StrKeys.FullTable | lib/core/hashmap.h:174-193 | three sets on a map of capacity two fill all four buckets, and an absent key has a null bucket |
| StrKeys.GrowthInventsEmptyKey | lib/core/hashmap.h:264-273 | a growth call on a new map makes it answer for the empty string |
| Alignment.AlignForwardMeaning | lib/core/core.h:317-321 | the result is aligned exactly when the address was aligned or half an alignment off |
| Alignment.AlignForwardKeeps | lib/core/core.h:317-321 | an address aligned to a larger power of two is left alone |
| Alignment.AlignForwardDoubles | lib/core/core.h:317-321 | an address aligned to a smaller power of two comes out aligned to twice that, moved by at most the difference of the alignments |
| Alignment.RoundsUpExactlyWhen | lib/core/core.h:317-321 | the function is rounding up exactly on the addresses that it aligns |
| Layout.RequestSize | lib/core/core.h:443-452 | the first loop adds up sizes and reserved paddings |
| Layout.PlaceBlocks | lib/core/core.h:455-461 | the second loop hands out the pointers, each from the end of the previous block |
| Layout.AllocSequentiallyN | lib/core/core.h:428-463 | the size requested and the pointers handed out, for every number of blocks |
| Layout.AllocSequentiallyTwo | lib/core/core.h:469-481 | the two-block version requests and hands out the same as the general one |
| Layout.BlocksOrdered | lib/core/core.h:455-461 | blocks come in order and do not overlap, whatever the alignments |
| Layout.PtrSure | lib/core/core.h:455-461 | the power of two every block pointer is sure to be a multiple of |
| Layout.AlignedExactlyWhen | lib/core/core.h:455-461 | every pointer is aligned in all calls with given alignments if and only if none is more than twice the one before |
| Layout.EndWithin | lib/core/core.h:443-461 | a block ends at most the accumulated excess padding past the space requested up to it |
| Layout.WorstEnd | lib/core/core.h:443-461 | worst-case sizes reach that bound exactly |
| Layout.FitsExactlyWhen | lib/core/core.h:443-461 | the requested size suffices in all calls with given alignments if and only if no block that may be misaligned is followed by one asking for more than is sure |
| Layout.NoMoreThanDoubling | lib/core/core.h:430-463 | alignments that at most double give aligned pointers within the requested size, always |
| MapLayout.MapAlignedExactlyWhen | lib/core/hashmap.h:332-340 | the four blocks of a hash map are aligned for all capacities and addresses if and only if keys are aligned to at most 16, values to at most twice what the keys' start is sure to be a multiple of, and the value alignment divides twice the key size |
| MapLayout.MapFitsExactlyWhen | lib/core/hashmap.h:332-340 | they fit the space requested for all capacities and addresses if and only if keys or values are aligned to at most 16 |
| MapLayout.CharKeysMisalign | lib/core/hashmap.h:332-340 | keys of five characters and eight-byte values: the blocks fit, but the values are misaligned |
| Layout.RoundingUpFits | lib/core/core.h:465-468 | with rounding up, every pointer would be aligned and every block within the requested size |
| Layout.QuadruplingFails | lib/core/core.h:455-461 | alignments 1, 4, 8 at address 2: two pointers misaligned and the last block past the requested size |
| ArenaModel.NewChunkFits | lib/core/arena.h:231-247 | a chunk made for a request has room for it wherever it lies |
| ArenaModel.ChunksPersist | lib/core/arena.h:220-255 | a run of requests moves no chunk and resizes none |
| ArenaModel.ReplayAfterReset | lib/core/arena.h:146-152 | after a reset the same requests get the same addresses, create no chunk and leave the same arena, whatever the inner allocator would answer |
| ArenaSafety.FitsMeaning | lib/core/arena.h:99-103 | the unsigned fit test passes exactly for chunks with room and for chunks that overshoot |
| ArenaSafety.InsideExactlyWhen | lib/core/arena.h:220-255 | a block lies inside its chunk if and only if no chunk overshoots before the first one with room; the arena then stays within bounds |
| ArenaSafety.InsideThroughout | lib/core/arena.h:220-255 | every block of a run lies inside its chunk if and only if that guard holds at every step |
| ArenaSafety.SameChunkDisjoint | lib/core/arena.h:247-252 | two blocks of one chunk never overlap, in any run |
| ArenaSafety.BlocksDisjoint | lib/core/arena.h:220-255 | all blocks of a run in which the guard holds at every step are pairwise disjoint, if the inner allocator keeps chunks apart |
| ArenaSafety.AlignedExactlyWhen | lib/core/arena.h:247-252 | a block is aligned exactly when its chunk's cursor was aligned or half an alignment off |
| ArenaSafety.AlignedThroughout | lib/core/arena.h:220-255 | every block of a run is aligned if and only if that holds of the cursor at every step |
| ArenaSafety.UniformIsSafe | lib/core/arena.h:220-255 | requests in whole units that all alignments divide are always inside their chunks and aligned |
| ArenaSafety.OvershootHappens | lib/core/arena.h:101-103 | two requests on a new arena after which a block lies past the end of its full chunk, misaligned |
| ArenaAlignment.AlwaysAlignedExactlyWhen | lib/core/arena.h:220-255 | with sizes that are multiples of their power-of-two alignments, and chunks at multiples of the largest, every block of every run on a new arena is aligned if and only if the largest alignment is at most twice the smallest |
| ArenaOverlap.AlwaysInsideExactlyWhen | lib/core/arena.h:220-255 | over the same runs, every block lies inside its chunk if and only if all requests ask for one alignment |
| ArenaOverlap.AlwaysApartExactlyWhen | lib/core/arena.h:220-255 | over the same runs, with chunks apart, all blocks are pairwise disjoint if and only if all requests ask for one alignment |
| ArenaOverlap.CrossingOverlaps | lib/core/arena.h:220-255 | where the three blocks lie of a request that fills a chunk, one of the smaller alignment and one of the larger: the last past the end of the first chunk, across the block of the second |
| ArenaOverlap.CrossingRun | lib/core/arena.h:220-255 | for any two alignments and any default size there is such a run, with sizes and chunk addresses as asked |
| ArenaOverlap.OverlapHappens | lib/core/arena.h:101-103 | three requests on a new arena, the last two of which are handed the same eight bytes |
| ArenaSpace.UnfitIsFull | lib/core/arena.h:226-227 | a chunk that fails the fit test has less room than the request's size and worst padding |
| ArenaSpace.SpaceBound | lib/core/arena.h:205-255 | without a reset the total size of the chunks is at most twice the sum of size + alignment - 1 over all requests, plus one default chunk |
| ArenaChunks.ChunkSizes | lib/core/arena.h:231-246 | every chunk that a run opens has the default size, or more, and then the size and worst padding of a request of the run |
| ArenaChunks.OneChunkIsEnough | lib/core/arena.h:220-255 | requests whose sizes and worst paddings fit into the default size together leave a new arena with at most one chunk, and their blocks inside it |
| ArenaChunks.TotalGrows | lib/core/arena.h:205-211 | the total size grows exactly when a request opens a chunk, and by the size of that |
| ArenaChunks.TotalCounts | lib/core/arena.h:205-211 | every chunk counts with its whole size, wherever it stands in the list |
| ArenaChunks.TotalCovers | lib/core/arena.h:205-255 | while the guard holds the total size is at least the sum of all block sizes |
| Arenas.List.PushNode | lib/core/list.h:154-167 | the node becomes the last of the doubly linked list, whose links stay consistent |
| Arenas.Arena.constructor | lib/core/arena.h:133-144 | a new arena has no chunk |
| Arenas.Arena.Reset | lib/core/arena.h:146-152 | every cursor returns to the start of its chunk, the list is unchanged |
| Arenas.Arena.TotalSize | lib/core/arena.h:205-211 | the sum of the chunk sizes |
| Arenas.Arena.FindChunk | lib/core/arena.h:225-228 | the first chunk in list order that passes the fit test, null if there is none |
| Arenas.Arena.ProvideChunk | lib/core/arena.h:225-246 | the chunk found, or a new one of sufficient size at the end of the list |
| Arenas.Arena.PlaceBlock | lib/core/arena.h:247-252 | the aligned cursor is handed out and moved past the block; no other chunk changes |
| Arenas.Arena.Alloc | lib/core/arena.h:220-255 | the list of chunks and the address handed out are those of the allocation function |
| Utf8.DecodeEncode | lib/core/string.h:306-354 | decoding an encoded rune gives the rune and its length back, whatever follows, and encodings are well-formed |
| Utf8.EncodeDecode | lib/core/string.h:242-280 | a decoded rune re-encodes in at most the bytes consumed, and in exactly those bytes if and only if they are well-formed |
| Utf8.WellFormedDecodes | lib/core/string.h:242-280 | a well-formed character is the encoding of the rune it decodes to |
| Utf8.LenientDecodes | lib/core/string.h:242-280 | every lead byte below 0xf8 is taken, whatever three bytes follow it |
| Utf8.ShorterIsIncomplete | lib/core/string.h:242-280 | a rune does not depend on what follows its bytes, and every shorter start of it is incomplete |
| Utf8.ErrorsExactlyWhen | lib/core/string.h:242-280 | a string is empty, or incomplete exactly if it does not decode and some extension does, or invalid exactly if no extension decodes |
| Utf8.PayloadOf2 | lib/core/string.h:254-262 | a two-byte sequence decodes to its payload bits, whether it is well-formed or not |
| Utf8.PayloadOf3 | lib/core/string.h:254-280 | a three-byte sequence decodes to its payload bits |
| Utf8.PayloadOf4 | lib/core/string.h:254-280 | a four-byte sequence decodes to its payload bits |
| Utf8Sequences.RoundTrip | lib/core/string.h:242-354 | decoding the concatenated encodings of any runes yields exactly those runes with nothing left |
| Utf8Sequences.EncodeInjective | lib/core/string.h:389-402 | encoded strings are equal exactly when their runes are |
| Utf8Sequences.PrefixFree | lib/core/string.h:306-354 | no encoding is a prefix of another rune's, whatever follows |
| Utf8Sequences.PrefixExactlyWhen | lib/core/string.h:404-411 | an encoded string is a byte prefix of another exactly when it is a prefix rune by rune |
| Utf8Sequences.OrderPreserved | lib/core/string.h:306-354 | the byte-wise lexicographic order of encoded strings is the order of their runes |
| Utf8Sequences.TranscodeExactlyWhen | lib/core/string.h:242-354 | re-encoding a decodable string fits in its space and reproduces it if and only if it is well-formed text |
| Utf8Sequences.WellFormedIsEncoded | lib/core/string.h:306-354 | well-formed text is the encoding of some runes |
| Utf8Sequences.EncodedIsWellFormed | lib/core/string.h:306-354 | encodings are well-formed text |
| Str.NextRuneOf | lib/core/string.h:242-280 | error code, rune and rest of the string; the out-parameters are untouched on an error |
| Str.RuneLen | lib/core/string.h:222-240 | the number of runes of a string that decodes to its end, the first decoding error otherwise |
| Str.EncodedRuneLen | lib/core/string.h:222-240 | on the encoding of runes the count is their number |
| Str.EncodeNextRune | lib/core/string.h:306-354 | exactly the encoding is written at the offset, or nothing with the right error: too large a rune, or too small a target |
| Str.Eq | lib/core/string.h:389-402 | true exactly for equal strings |
| Str.IsPrefix | lib/core/string.h:404-411 | true exactly for prefixes |
| Str.PHash | lib/core/string.h:179-188 | the loop computes the 32-bit FNV-1a hash that the laws below pin down |
| Str.FnvConcat | lib/core/string.h:179-188 | hashing a concatenation continues the hash of its first part |
| Str.FnvXors | lib/core/string.h:183-186 | a byte enters the hash by exclusive or before the multiplication |
| Str.FnvMultiplies | lib/core/string.h:183-186 | a zero byte multiplies the hash by the prime 0x01000193 modulo 2^32 |
| Str.FnvInjective | lib/core/string.h:179-188 | different hashes stay different whatever string is hashed behind them |
| Str.PublishedHashes | lib/core/string.h:179-188 | the values published for the empty string, "a" and "foobar" |
| Transcode.Transcode | test/test_string.c:66-90 | the decode and encode loop succeeds exactly on decodable strings of encodable runes, never finds an equal-sized target too small, and gives its input back exactly if that is well-formed text |
| StreamModel.FlushKeepsOutput | lib/core/io.h:175-191 | a flush, cut short or not, neither loses nor repeats a byte; it succeeds exactly when nothing is pending afterwards |
| StreamModel.FlushIsOneWrite | lib/core/io.h:175-191 | a flush with pending bytes is one file write of all of them; what the file does not take stays pending where it is, and the flush succeeds exactly if nothing does |
| StreamModel.FlushDelivers | lib/core/io.h:175-191 | on a file that takes the write, a flush succeeds, leaves nothing pending, and the file holds the whole output |
| StreamModel.FlushedRunIsComplete | lib/core/io.h:149-191 | on a file without limits every run that ends in a flush leaves the file with everything written, in order |
| StreamModel.RepeatedFlushDelivers | lib/core/io.h:175-191 | on any file, flushing once more than the file can cut a write short delivers everything |
| StreamModel.WriteThatFits | lib/core/io.h:166-173 | data that fits goes behind the pending bytes, and the file is left alone |
| StreamModel.WriteCutShort | lib/core/io.h:157-165 | data that does not fit fills the buffer; a file write cut short ends the write, with the rest pending |
| StreamModel.WriteGoesOn | lib/core/io.h:157-165 | a file that takes the full buffer lets the write go on with the rest of the data from an empty buffer |
| StreamModel.WriteAppends | lib/core/io.h:149-174 | a write that succeeds appends all its data to file and pending bytes, a failing one a proper prefix of it |
| StreamModel.EmptyBufferStuck | lib/core/io.h:157-166 | with an empty buffer a round of the write loop changes nothing |
| StreamModel.NothingLostOrRepeated | lib/core/io.h:149-191 | for every run of writes and flushes and every way the file cuts them short, file and pending bytes are all that was accepted, in order |
| StreamModel.OneBufferPerWrite | lib/core/io.h:157-166 | in runs of writes on a file that takes full buffers, file writes times buffer size plus pending bytes is the total written, and something stays pending once anything was written |
| OutputStream.OutputFileStream.constructor | lib/core/io.h:140-147 | an empty stream over a buffer of the given size |
| OutputStream.File.FWrite | lib/core/io.h:182 | the file takes a prefix of the data, as long as its next limit allows |
| OutputStream.OutputFileStream.Flush | lib/core/io.h:175-191 | buffer, cursors, file and result become those of the flush function |
| OutputStream.OutputFileStream.Append | lib/core/io.h:170-171 | the data stands behind the pending bytes |
| OutputStream.OutputFileStream.Round | lib/core/io.h:157-166 | a round of the loop leaves a smaller write with the same result, or its failure |
| OutputStream.OutputFileStream.Write | lib/core/io.h:149-174 | the loop ends, and buffer, cursors, file and result become those of the write function |
| FormatModel.PrintSplit | lib/core/fmt/fmt.h:312-425 | formatting a concatenation is formatting its parts in turn, with the arguments and the pending-text flag the first leaves |
| FormatModel.ExtraPercents | lib/core/fmt/fmt.h:329-338 | one percent sign too many is printed for every bare `%%`, and pad level, line flag and arguments are as intended |
| FormatModel.PercentExactlyWhen | lib/core/fmt/fmt.h:329-338 | a completed print is as intended if and only if literal text precedes every `%%` |
| FormatModel.FormatInPieces | lib/core/fmt/fmt.h:302-429 | formatting a string in two pieces gives the same text, state and outcome if and only if the second does not start with a `%%` that literal text of the first precedes, or panics anyway |
| FormatModel.TextInPieces | lib/core/fmt/fmt.h:302-429 | text without percent signs may be formatted in any two pieces split at a rune boundary |
| FormatModel.BarePercentPrintsTwo | lib/core/fmt/fmt.h:318-338 | `%%` alone prints two signs |
| FormatLaws.PrintIsPlay | lib/core/fmt/fmt.h:302-429 | a format of words, `%s`, `%d`, `%u`, unknown letters, `%+`, `%-`, line breaks and `%%` prints what these stand for, for all arguments: text, levels, arguments left and outcome |
| FormatLaws.ArgumentsInOrder | lib/core/fmt/fmt.h:345-385 | literal pieces with `%s`, `%d` and `%u` between them print the pieces with the arguments between them, in order, and leave the arguments behind those |
| FormatLaws.LevelsExactlyWhen | lib/core/fmt/fmt.h:339-344 | with arguments that suit, a format panics exactly if some start of it closes more levels than are open, and otherwise changes the level by those opened less those closed |
| FormatLaws.NextLineIsDeeper | lib/core/fmt/fmt.h:283-420 | after `%+` and a line break, text is padded with one copy of the pad string more |
| FormatLaws.ObjectIsFormat | lib/core/fmt/fmt.h:349-352 | `%v` prints what the format that stands for the object's actions prints, and consumes the object |
| FormatLaws.LongSignLeavesByte | lib/core/fmt/fmt.h:318-328 | a percent sign in two bytes leaves one of them as text |
| Formatter.StringFormatter.PadInc | lib/core/fmt/fmt.h:224-228 | one level more |
| Formatter.StringFormatter.PadDec | lib/core/fmt/fmt.h:229-234 | one level less, from a level above zero |
| Formatter.StringFormatter.PadLine | lib/core/fmt/fmt.h:283-291 | the pad string is written once per level and the line counts as padded, or the target's refusal is reported |
| Formatter.StringFormatter.Write | lib/core/fmt/fmt.h:236-253 | the text is printed on the current line, padded first if it was not; a target that refuses has taken as much as it has room for |
| Formatter.StringFormatter.Writeln | lib/core/fmt/fmt.h:254-263 | the text and a newline are printed and the next line is unpadded, or the target's refusal is reported |
| Formatter.StringFormatter.DoActions | lib/core/fmt/fmt.h:349-352 | an object's formatter writes, changes the pad level and fails as its actions say |
| Formatter.StringFormatter.DoDirective | lib/core/fmt/fmt.h:330-397 | the switch has the outcome, text and state of the directive, or the target's refusal; a long number directive always fails |
| Formatter.StringFormatter.Percent | lib/core/fmt/fmt.h:318-403 | the branch for a percent sign keeps what printing the rest comes to |
| Formatter.StringFormatter.Literal | lib/core/fmt/fmt.h:404-420 | the branch for any other rune keeps what printing the rest comes to |
| Formatter.StringFormatter.WriteFmt | lib/core/fmt/fmt.h:302-429 | for every format string and all arguments the run-buffering loop has the outcome, text and pad state of the interpreter that prints rune by rune; a target with too little room has taken the start of that text, and an error is reported |
| DynamicArray.DArr.constructor | lib/core/array.h:335-365 | an empty array of the given capacity |
| DynamicArray.DArr.PushItem | lib/core/array.h:380-407 | the item is appended, the capacity doubling to at least sixteen when the array is full |
| DynamicArray.DArr.PopItem | lib/core/array.h:409-413 | the last item is dropped |
| DynamicArray.AmortizedPush | lib/core/array.h:380-413 | for every run of pushes and pops from every initial capacity the array holds the list of the run, and reallocation copied fewer than two slots per push |
| DynamicArray.CapacityBound | lib/core/array.h:380-407 | the capacity changes exactly when the array comes to hold more items than at first; it is then at least sixteen, and sixteen or less than twice the most items held |

## Left out

- Running out of memory, and freeing it: every allocation succeeds and gives fresh, zeroed memory where the library asks for it.
- HashTableHistory.RunTotal: hashes are functions of the key, and growth calls are left out, as they are for `HashMaps.HashMap` with a key type that is not lawful; hashes of addresses, and growth calls with them, are in `HashTableAddresses` on values alone.
- ArenaSafety.BlocksDisjoint: one way for a single run, as a block past the end of its chunk overlaps another only if one lies there; the exact condition is over classes of runs, `ArenaOverlap.AlwaysApartExactlyWhen`.
- The 32-bit loop counters of `for_in_range` and the overflow of capacities and sizes other than the arena's.
- Str.NextRuneOf: strings are values, so the aliasing of several views into one buffer is not modelled.
- Memory contents behind the arena's addresses and behind the layout's pointers: addresses are numbers.
- ArenaAlignment.AlwaysAlignedExactlyWhen: alignments are at most 2^62, so that the sizes of the misaligned run are 64-bit values; `ArenaOverlap` bounds the default size in the same way.
- Formatter.StringFormatter.WriteFmt: an argument of the wrong kind gives the outcome `Undefined`; what a call that panics or is undefined has written is not described. A write that fails takes less than its whole text, as those of the library's own streams do.
- The growing `String` and `darr_reserve_cap`, `darr_append_slice`: they never record a new capacity.
- `ring_buff_*`, `str_advance_rune_shift`, `arena_resize`, `slice_clone_in`, `runes_to_string`: no usable behaviour, or not implemented.
- List and slice accessors beyond what the arena needs, string copies, debug printing and primitive formatters: only easy members.
- The type table, vtables, the global context and the include guards: replaced by type parameters and by the equality and hash of a key type.
