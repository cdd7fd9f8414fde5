# Verification of the gateway's slab cache, Avro codec and flow check

This project models three parts of the gateway in Dafny 4.11 and proves what they are meant to do.

**The in-process cache** (`internal/cache`). An index (an 8-way trie of nodes with four inline
slots, a packed filter word and children drawn from a recycling pool) points into slab regions
(fixed-stride slots that are filled in order, doubled, then reused in a circle, and may be
halved). The cache manager joins them through packed 64-bit pointers and keeps byte counters per
tenant. Together they are meant to be a bounded map with expiry.

**The Avro codec** (`internal/avro`). A schema tree is flattened into an op array, which is then
run as a decoder to JSON, as an encoder from JSON, or as a partial decoder that skips fields. The
wire format is that of the "Binary Encoding" section of the Apache Avro 1.11 specification.

**The flow check** of the rate-limit validator (`internal/control`): a depth-first search over
named flows that may refer to each other in cycles.

Layout: each part has value-level modules that say what an operation computes and prove the
theorems, and classes or methods with loops that do it the way the Go code does, each proved
equal to the value-level function.

| modules | part |
|---|---|
| Trie, TrieCompaction, TrieDuplicates, H2Filter | the trie as a value: routing, lookup, set, delete, collapse, tags that occur twice, the filter word |
| NodePool, Index, IndexStats | the mutable index with its node pool, and its statistics |
| LockFree | the index as a state machine of single stores and loads |
| Slabs, Regions | a region as a value, and the object that updates its buffer in place |
| Tags, Pointers | key tags, packed pointers |
| CacheModel, CacheAccounts, CacheRuns, CacheLaps, Manager | the cache manager as a value, its accounting, its runs, two runs that go wrong, and the object |
| Varint, JsonText, JsonParse, JsonUtf8, AvroWire | integers, JSON text, its reader and its encoding, scalar wire values and block headers |
| AvroTree, AvroProgram, AvroExecute | decoding over schema trees, over flat programs, and with loops |
| AvroCompile, AvroCompiler, AvroEnums | the compiler as a function and as an object; the shared symbol table |
| AvroEncode, AvroEncoder, AvroRoundTrip | encoding over trees and flat programs; the round trip, end to end |
| AvroPartial, AvroPartialFit, AvroPartialExact | partial programs, which skips are right, and exactly when marking finds them |
| AvroPartialRun, AvroPartialLimits | marking in place; a schema on which it goes wrong |
| FlowFill | the flow check |

What turned out not to hold as one might expect, each with a concrete case and the exact condition:

- Deleting a tag that was re-inserted above an older copy uncovers the older value
  (`TrieDuplicates.DeleteCanUncover`); a delete forgets the tag exactly when it occurs once
  (`TrieCompaction.DeleteForgetsIffOnce`), and after a set exactly when no free slot lay above its
  old place (`DeleteAfterSetForgetsIff`).
- With such an older copy below, compaction alone can bring the old value back
  (`TrieDuplicates.CompactionCanSwitch`). One collapse changes what a tag's lookup answers exactly
  when a child's copy with another value lands in a free slot before the parent's own first copy
  (`CollapseChangesIff`). A tag that occurs once is never affected, whatever other tags do
  (`TrieCompaction.CompactionPreserves`, `DeleteRemovesExactly`).
- The 12-bit expiry in pointers is said to give false negatives only. It also rejects entries that
  are not expired (`Slabs.TruncRejectsLiveEntry`). It does so at a given moment exactly when adding
  the 32-second units still to go, modulo 2^12, to the clock's twelve bits carries out of them
  (`TruncRejectsIffCarry`). It spares an entry for its whole life exactly when no multiple of 2^17
  seconds lies between the write and the expiry, or the expiry falls into the last 32 seconds before
  one (`TruncSparesIff`).
- A pointer four laps old passes the two-bit generation check and reads the newer entry's bytes
  (`Slabs.ReadsForeignAfterFourLaps`); up to four laps it never does (`RejectedForThreeLaps`). So a
  get can answer another tenant's bytes: `CacheLaps.ForeignRead` is such a run, with the manager's
  own recycling test, which never objects there (`CacheLaps.NeverObjects`). When a get answers other
  bytes than the key's latest put is said exactly by `CacheRuns.ForeignReadIff`.
- The slot's length field has 16 bits: a value reads back cut to its length modulo 2^16, so whole
  exactly when it is shorter than 2^16 bytes (`Slabs.ReadOfWrite`, `Slabs.Cut`); one of 2^16 bytes
  is lost (`Slabs.LongValueLost`).
- Because of that field, and because the size of an evicted entry is computed modulo 2^16, counters
  and slots can drift apart (`CacheLaps.CounterDrifts`). A put leaves them equal exactly when they
  were equal before and neither length is cut (`CacheAccounts.PutBalancedIff`), and a run does
  exactly when that holds of each of its calls (`CacheRuns.RunsBalanceIff`). A counter is never
  below the bytes in the slots.
- The sampled bits of a long key are said to differ between tenants. They do unless the fix-up of 0
  to 1 brings two tenants together (`Tags.TenantsMeet`), exactly when one mixes to 0 and the other
  to 1 (`Tags.TenantsDiffer`).
- The comment on `AppendAvroToJSON` promises valid JSON always. String bytes from 0x80 up are copied
  unchecked, so it is false for a string that is not UTF-8 (`JsonUtf8.PrintsBadString`), and true
  exactly when all strings and keys of the decoded record are (`PrintedIsJsonIff`).
- All enums of a schema share one symbol table without offsets. That is harmless on every input
  exactly when each enum that can show up lists just that table (`AvroEnums.SharedTableHarmless`).
- Partial programs find ops again by field name. With a repeated name the wrong field may be skipped
  (`AvroPartialLimits.WrongFieldsPrinted`). A partial program decodes every input to the restricted
  full decode exactly when the ops its lookups leave off fit the path
  (`AvroPartialExact.PartialDecodesIff`); this asks that every top-level field off the path is the first op of
  its name (`ShadowedFieldShows`), and holds whenever all fields of the records on the path are
  (`PartialDecodes`), however often names are repeated elsewhere.
- The comment on `CompilePartial` describes an index syntax for arrays that the code does not have;
  the model follows the code.

## Model

| member | source | states |
|---|---|---|
| H2Filter.PutGroups | internal/cache/index_inline.go:128-131 | storing a group in the filter word changes that group and no other |
| H2Filter.AnyMatchExact | internal/cache/index_inline.go:135-140 | the word trick is true exactly when some 16-bit group equals the query, with no false positive or negative |
| Trie.InsertSlotChoice | internal/cache/index_inline.go:359-390 | the chosen slot holds the tag, or is free while no slot of the node holds the tag; there is none exactly when all slots hold other live tags |
| Trie.SetWellFormed | internal/cache/index_inline.go:395-425 | a set keeps every tag on its routing path, every node under an existing parent, and the height at most 10 |
| Trie.SetRefinesUpdate | internal/cache/index_inline.go:395-433 | set is map update in every well-formed trie, tombstones included: the tag reads back the value unless all 44 slots on its path hold other live tags, then nothing changes; no other tag's lookup changes |
| Trie.SetKeepsUnique | internal/cache/index_inline.go:376-425 | set keeps every tag in at most one slot exactly when no free slot lies above the tag's current place |
| Trie.LookupIsEntry | internal/cache/index_inline.go:314-342 | where tags occur at most once, lookup gives a value exactly when that entry is somewhere in the trie |
| Trie.FullPathStays | internal/cache/index_inline.go:395-425 | no set ever makes room on a full path |
| TrieCompaction.EraseForgetsIffOnce | internal/cache/index_inline.go:556-584 | tombstoning the first occurrence makes the tag miss exactly when it had no second one |
| TrieCompaction.CollapseWellFormed | internal/cache/index_inline.go:589-661 | pulling the children's live slots into a parent keeps routing and shape |
| TrieCompaction.CollapseEntries | internal/cache/index_inline.go:589-661 | a collapse keeps exactly the same set of entries |
| TrieCompaction.CompactionPreserves | internal/cache/index_inline.go:666-714 | compacting all shards, shallow or deep, keeps the shape, the number of live slots and the entries of every tag; a tag that occurs once, in a trie where others may not, still occurs once and looks up the same |
| TrieCompaction.DeleteRemovesExactly | internal/cache/index_inline.go:449-473 | delete with its upward collapses makes the tag miss if it occurs once, and leaves the lookup of every other tag that occurs once, whatever else occurs twice |
| TrieCompaction.DeleteForgetsIffOnce | internal/cache/index_inline.go:449-473 | in any well-formed trie, delete makes the tag miss exactly when it occurred at most once |
| TrieCompaction.DeleteAfterSetForgetsIff | internal/cache/index_inline.go:376-473 | set then delete forgets the tag exactly when no free slot lay above its old occurrence |
| TrieDuplicates.DeleteCanUncover | internal/cache/index_inline.go:376-388 | a concrete trie on which set then delete leaves an older value visible |
| TrieDuplicates.CollapseChangesIff | internal/cache/index_inline.go:589-661 | a collapse changes a tag's answer exactly when the tag is first found in the collapsed node, a child has a copy with another value, and enough free slots precede the node's own copy for the child's to land there |
| TrieDuplicates.CompactionCanSwitch | internal/cache/index_inline.go:589-677 | a trie with unique tags on which a set, a delete of another tag and a compaction turn the answer from the new value back to the old one |
| NodePool.WriteSlotFilter | internal/cache/index_inline.go:359-390 | writing a slot and its filter group together keeps each group the fingerprint of a live slot, or zero |
| NodePool.AttachLinked | internal/cache/index_inline.go:409-419 | publishing a child index in the parent keeps all links, and adds exactly that node's slots |
| NodePool.DetachLinked | internal/cache/index_inline.go:651-661 | cutting all children of a node without grandchildren keeps all other links |
| Index.InlineIndex.constructor | internal/cache/index_inline.go:275-303 | one blank root per shard (256 shards by default), every pool index accounted for |
| Index.InlineIndex.Ensure | internal/cache/index_inline.go:167-185 | the pool grows chunk by chunk with zeroed nodes |
| Index.InlineIndex.Alloc | internal/cache/index_inline.go:189-211 | the index handed out is never 0 and never reachable; its node is blank; the trie is unchanged; every index stays in exactly one place |
| Index.InlineIndex.ResetNode | internal/cache/index_inline.go:238-247 | slots, children and filter are cleared, the timestamp stays |
| Index.InlineIndex.FreeLater | internal/cache/index_inline.go:221-234 | detached nodes join the end of the ready queue in order; dropping the dead head loses nothing |
| Index.InlineIndex.Get | internal/cache/index_inline.go:314-342 | the filtered, node by node search equals the first occurrence on the tag's path |
| Index.InlineIndex.InsertAt | internal/cache/index_inline.go:359-390 | one node's slots become those the slot choice demands, and the filter word follows |
| Index.InlineIndex.InsertBelow | internal/cache/index_inline.go:404-419 | a new child holding just the entry, published after it is written |
| Index.InlineIndex.UpsertAt | internal/cache/index_inline.go:398-423 | one level of the descent: either the set is complete, or nothing changed, the node is full, and the child on the path is returned |
| Index.InlineIndex.Upsert | internal/cache/index_inline.go:395-425 | the loop computes the trie's set and keeps the pool invariant |
| Index.InlineIndex.BuryAt | internal/cache/index_inline.go:566-580 | tombstones the tag in one node if it is there, which is then the first occurrence; otherwise changes nothing |
| Index.InlineIndex.FindPath | internal/cache/index_inline.go:556-584 | the first occurrence is tombstoned and the node path to it returned |
| Index.InlineIndex.TryCollapseAt | internal/cache/index_inline.go:589-661 | collapses exactly when no child has children and all live slots fit, and hands back the detached nodes |
| Index.InlineIndex.CollapseUpward | internal/cache/index_inline.go:454-464 | collapses the ancestors from the deepest up until one refuses; all detached nodes are handed back |
| Index.InlineIndex.Delete | internal/cache/index_inline.go:449-473 | the loop computes the trie's delete; detached nodes are queued |
| Index.InlineIndex.DeepCompactNode | internal/cache/index_inline.go:700-714 | bottom-up compaction of one subtree |
| Index.InlineIndex.CompactAll | internal/cache/index_inline.go:666-697 | compaction of every shard, shallow or deep |
| IndexStats.StatsNode | internal/cache/index_inline.go:727-742 | counts exactly the nodes and live slots below a node |
| IndexStats.Stats | internal/cache/index_inline.go:719-725 | counts exactly the nodes and live slots of one shard |
| IndexStats.TotalNodes | internal/cache/index_inline.go:745-755 | handed-out minus queued indices equals the number of reachable nodes and the sum of the per-shard counts |
| LockFree.StepKeepsInv | internal/cache/index_inline.go:314-425 | every single store of a writer and every load of a reader keeps the memory invariant |
| LockFree.CompletedSetIsReadable | internal/cache/index_inline.go:395-433 | when a set completes, a scan of that moment's memory finds its value |
| LockFree.StaysReadable | internal/cache/index_inline.go:314-425 | once a tag is readable it stays so under any later stores of any sets |
| LockFree.GetIsLinearizable | internal/cache/index_inline.go:314-342 | whatever an interleaved get returns, hit or miss, a sequential get would have returned in some state of the call |
| LockFree.SetStoresIff | internal/cache/index_inline.go:395-425 | a set that takes the lock goes on to store exactly unless all 44 slots on its tag's path hold other live tags; then the state is unchanged |
| LockFree.GetAfterSetHits | internal/cache/index_inline.go:314-433 | a get begun after the last store of a set of its tag always hits |
| LockFree.SetThenGetHits | internal/cache/index_inline.go:314-433 | whole calls: after a set on a path with room has given the lock back, every later get of the tag hits, whatever runs in between |
| LockFree.HitIsOwnValue | internal/cache/index_inline.go:314-342 | a hit returns the value of an earlier set of the same tag that was not dropped, never another tag's |
| Slabs.WriteLands | internal/cache/regions.go:131-208 | the n-th accepted write goes to slot n mod maxCount with lap number (n / maxCount) mod 256, in bounds, through growth and circulation, and touches no other slot |
| Slabs.WriteMirrors | internal/cache/regions.go:131-208 | the last maxCount accepted writes are all in place; a rejected write changes nothing written |
| Slabs.ReadOfWrite | internal/cache/regions.go:214-254 | a pointer reads the latest write to its slot, cut to its length modulo 2^16, exactly when lap bits, expiry and key byte allow it |
| Slabs.ReadsBackUntilLapped | internal/cache/regions.go:131-254 | until write n + maxCount is accepted the pointer of write n reads exactly its value, cut to its length modulo 2^16, unless it looks expired |
| Slabs.LongValueLost | internal/cache/regions.go:131-254 | a value of 2^16 bytes that is accepted and read back empty |
| Slabs.RejectedForThreeLaps | internal/cache/regions.go:214-254 | for the three laps after that the pointer is rejected |
| Slabs.ReadsForeignAfterFourLaps | internal/cache/regions.go:214-254 | one lap later it reads the newer entry |
| Slabs.TruncRejectsIffCarry | internal/cache/cache_types.go:66-75 | an unexpired entry of any lifetime is rejected by the truncated check exactly when clock bits plus remaining units carry out of twelve bits |
| Slabs.TruncSparesIff | internal/cache/cache_types.go:66-75 | an entry is spared through its whole life exactly when no multiple of 2^17 s lies between write and expiry, or its truncated expiry is the largest |
| Slabs.TruncRejectsLiveEntry | internal/cache/cache_types.go:66-75 | a concrete live entry that is rejected |
| Slabs.GrowKeepsReads | internal/cache/regions.go:106-121 | doubling the buffer changes no read at any slot offset |
| Slabs.ShrinkKeepsReads | internal/cache/regions.go:290-345 | halving at time t changes no read at t or later, at any slot offset, the discarded half included |
| Slabs.WriteUsage | internal/cache/regions.go:131-208 | a write moves exactly the evicted entry's bytes out of its tenant's total and the new entry's in |
| Slabs.ShrinkUsage | internal/cache/regions.go:290-345 | halving never raises a tenant's bytes |
| Regions.Region.constructor | internal/cache/regions.go:82-102 | 64 blank slots, the cap from the argument or 4 MiB, never below 64 |
| Regions.Region.Grow | internal/cache/regions.go:106-121 | a doubled buffer, capped, with every slot copied to its index |
| Regions.Region.Write | internal/cache/regions.go:131-208 | the in-place write equals the slab's write, receipt and eviction included |
| Regions.Region.Read | internal/cache/regions.go:214-254 | the checks in order equal the slab's read |
| Regions.Region.UpdateXSlotPtr | internal/cache/regions.go:258-269 | sets one back-pointer, ignoring offsets out of range |
| Regions.Region.TryShrink | internal/cache/regions.go:290-345 | halves exactly when the region is circular, sparse and its upper half dead |
| Tags.IsHashLane | internal/cache/cache_manager.go:316-328 | true exactly for keys that do not fit the short layouts |
| Tags.MakeTagTiny | internal/cache/hash.go:88-119 | the accumulating loops compute the arithmetic tag |
| Tags.TinyTagInjective | internal/cache/hash.go:88-119 | short tags are lossless and never a sentinel: equal tags mean equal tenant and key, across both layouts and both fix-ups |
| Tags.TenantsDiffer | internal/cache/hash.go:134-160 | two tenants get different sampled bits for one key, except exactly when one mixes to 0 and the other to 1 |
| Tags.TenantsMeet | internal/cache/hash.go:134-160 | a key on which tenants 0 and 1 get the same bits |
| Tags.LongTag | internal/cache/cache_manager.go:552-562 | a long tag is never a sentinel |
| Pointers.PackUnpack | internal/cache/cache_types.go:43-64 | packing fields that fit loses nothing and marks a slab pointer |
| Pointers.PackCuts | internal/cache/cache_types.go:43-64 | any fields come back cut to their widths, so unchanged exactly when all are in range |
| Pointers.BackPointerRoundTrip | internal/cache/cache_types.go:105-128 | a back-pointer survives its six header bytes and gives back its lane and the low 39 tag bits |
| CacheModel.Select | internal/cache/cache_manager.go:341-357 | the first bound not exceeded, or the last index |
| CacheModel.TagLive | internal/cache/cache_manager.go:552-566 | no key's tag is a sentinel |
| CacheAccounts.NoUnderflow | internal/cache/cache_manager.go:543-546 | an eviction never takes more from a counter than it holds |
| CacheAccounts.PutMovesBytes | internal/cache/cache_manager.go:495-589 | for every configuration, a put changes counter minus slot bytes by exactly what the two cut lengths lose, keeps the global counter the sum and every counter within a non-zero limit |
| CacheAccounts.DriftVanishesIff | internal/cache/cache_manager.go:540-560 | the difference is zero for all tenants exactly when value length and evicted size are below 2^16 |
| CacheAccounts.PutBalancedIff | internal/cache/cache_manager.go:495-589 | a put leaves counters equal to slot bytes exactly when they were equal and nothing is cut; they are never below |
| CacheRuns.PutKeepsInv | internal/cache/cache_manager.go:495-577 | every put keeps slots, both indices, pointers and counters tied to the history of puts |
| CacheRuns.GetIsLatestPut | internal/cache/cache_manager.go:598-650 | after any number of laps: a get misses if the index dropped the key, else it answers the latest write to the slot of the key's latest put, exactly when truncated expiry, lap bits, expiry and key byte pass |
| CacheRuns.OwnOrForeign | internal/cache/regions.go:214-254 | that is the put's own value until its slot is written again, a miss for three laps, and then a miss or the value written a multiple of four laps later |
| CacheRuns.ForeignReadIff | internal/cache/cache_manager.go:598-650 | exactly when a get answers bytes that are not the stored bytes of the key's latest put |
| CacheRuns.TinyNeverCollides | internal/cache/cache_manager.go:564-566 | a short key shares its tag with no other key's put |
| CacheRuns.Run | internal/cache/cache_manager.go:469-577 | every run of puts on a new cache keeps the invariant |
| CacheRuns.RunsReadLatestPut | internal/cache/cache_manager.go:469-650 | over every run, of any length, with any configuration, the answer of get is the one the latest put's pointer finds, for short keys and for long keys whose tag is their own, wherever that put's class, tier and offset fit the pointer |
| CacheRuns.RunsAreAddressed | internal/cache/cache_manager.go:126-167 | with at most four classes and tiers and 2^44 bytes of memory every put fits its pointer |
| CacheRuns.RunsBalanceIff | internal/cache/cache_manager.go:495-589 | over every run the counters equal the bytes in the slots exactly when no call of it cuts a length; they always cover them |
| CacheRuns.RunsBalance | internal/cache/cache_manager.go:495-589 | over every run of values with 16 plus length below 2^16 each counter is the sum of 16 plus value length over the tenant's occupied slots, the global one their sum, none over the limit |
| CacheRuns.ShrinkingRunsCover | internal/cache/cache_manager.go:223-255 | with shrinks in between and values of any length, counters are at least the occupied bytes, still add up, stay within the limit and never underflow |
| CacheLaps.NeverObjects | internal/cache/cache_manager.go:526-535 | where all tags put lie above the 39 bits of a back-pointer, the recycling test passes on every slot from the first lap on |
| CacheLaps.ForeignRead | internal/cache/cache_manager.go:495-632 | a run of 257 puts after which a get of tenant 1's key answers tenant 2's bytes |
| CacheLaps.CounterDrifts | internal/cache/cache_manager.go:495-560 | a run of 65 puts of 65520 bytes after which the counter is at least 2^16 above the bytes in the slots |
| Manager.NewCacheManager | internal/cache/cache_manager.go:126-167 | fails exactly without size classes or without tiers, otherwise gives a new, empty cache with the given configuration |
| Manager.CacheManager.constructor | internal/cache/cache_manager.go:126-197 | the memory divided evenly over fresh regions, empty indices, zero counters |
| Manager.SelectBound | internal/cache/cache_manager.go:341-357 | the loop finds the first bound not exceeded |
| Manager.CacheManager.Put | internal/cache/cache_manager.go:495-577 | quota, write, eviction accounting, index, back-pointer and charge, step by step, equal the model's put |
| Manager.CacheManager.Get | internal/cache/cache_manager.go:598-632 | index then slab, equal to the model's get |
| Varint.ZigzagRoundTrip | internal/avro/varint.go:9-12 | zigzag is undone |
| Varint.UnzigzagRoundTrip | internal/avro/varint.go:9-12 | every word is the zigzag of its decoding |
| Varint.AppendVarint | internal/avro/varint.go:17-23 | the loop appends the groups of seven bits |
| Varint.ReadVarint | internal/avro/varint.go:28-44 | the loop equals the reader, at most ten bytes, bits beyond 63 dropped |
| Varint.RoundTrip | internal/avro/varint.go:17-44 | reading an encoded value from the front of any input gives it back with exactly its bytes used |
| Varint.LongRoundTrip | internal/avro/varint.go:47-59 | the same for signed longs |
| JsonText.AppendInt64 | internal/avro/execute.go:618-639 | the 20-byte buffer always suffices and the decimal text is appended |
| JsonText.DigitsReadBack | internal/avro/execute.go:618-639 | the decimal text reads back as the number |
| JsonText.AppendJSONString | internal/avro/execute.go:574-599 | the quoted, escaped text is appended |
| JsonText.AppendJSONBytes | internal/avro/execute.go:602-608 | the quoted hex text is appended |
| JsonText.HexDecodeOrBytes | internal/avro/execute.go:535-561 | even-length hex is decoded, anything else kept |
| JsonText.HexRoundTrip | internal/avro/execute.go:535-615 | hex text decodes to the bytes it was printed from |
| JsonParse.IntIsNumber | internal/avro/execute.go:618-639 | every printed integer meets the JSON number grammar: no plus, no leading zero |
| JsonParse.TextBack | internal/avro/execute.go:13-15 | every printed value is one JSON value: a reader that insists on the JSON number grammar takes it back whole and leaves exactly what followed it, whatever the bytes of its strings |
| JsonParse.PrintedObject | internal/avro/execute.go:13-29 | what is printed for a record reads as one complete object with its members in order |
| JsonParse.TextDetermines | internal/avro/execute.go:568-654 | values that print alike are the same document |
| JsonUtf8.EscapeKeepsUtf8 | internal/avro/execute.go:573-599 | escaping neither breaks nor repairs the encoding of a string |
| JsonUtf8.TextUtf8Iff | internal/avro/execute.go:13-15 | a printed value is UTF-8 exactly when all its strings and keys are |
| JsonUtf8.PrintedIsJsonIff | internal/avro/execute.go:13-29 | what is printed for a record is a JSON object in UTF-8 exactly when its strings and keys are UTF-8 |
| JsonUtf8.PrintsBadString | internal/avro/execute.go:13-29 | a string field of the byte 0xFF decodes without error to text that is no JSON |
| AvroWire.BlockForms | internal/avro/execute.go:229-246 | a positive count, or a negative one with any byte size behind it, announces the same items; the least integer announces none; zero ends the list |
| AvroTree.Decode | internal/avro/execute.go:63-215 | direct decoding over the schema leaves a suffix of its input, on success and on failure |
| AvroProgram.Decode | internal/avro/execute.go:63-215 | the flat decoder terminates on every input, stays in bounds and leaves a suffix |
| AvroProgram.DecodesTree | internal/avro/execute.go:34-345 | a program laid out as a schema decodes every input as the tree does: value, rest and failure |
| AvroExecute.NextRun | internal/avro/execute.go:124-154 | a length and that many bytes, failing behind a bad length |
| AvroExecute.NextBlock | internal/avro/execute.go:229-246 | the block head with 64-bit negation equals the block reader |
| AvroExecute.NextArm | internal/avro/execute.go:199-208 | the arm number in range, or failure behind it |
| AvroExecute.DecodeScalar | internal/avro/execute.go:66-181 | the text of the value is appended, or nothing when skipping |
| AvroExecute.DecodeValue | internal/avro/execute.go:63-215 | success and rest do not depend on skip; skipping leaves the output unchanged, otherwise the value's text is appended |
| AvroExecute.DecodeRecord | internal/avro/execute.go:34-59 | the object text of the fields that are not skipped |
| AvroExecute.DecodeArray | internal/avro/execute.go:219-273 | the array text, under the same skip contract |
| AvroExecute.DecodeMap | internal/avro/execute.go:276-345 | the object text of a map, under the same skip contract |
| AvroExecute.AppendAvroToJSON | internal/avro/execute.go:16-29 | appends the object of the fields below the root; for a record root that is the text of the decoded record |
| AvroCompile.EmitSucceeds | internal/avro/compiler.go:98-279 | the walk succeeds exactly on supported types without a record inside a record of the same name |
| AvroCompile.EmitAdds | internal/avro/compiler.go:98-279 | one op and one child list per schema node in pre-order, symbols in walking order, nothing before is changed |
| AvroCompile.OpEmitted | internal/avro/compiler.go:70-74 | an interned name that fits its widths is read back from its op, whatever is emitted later; so are kind and size |
| AvroCompile.EmitLays | internal/avro/compiler.go:98-279 | the emitted ops are the schema, names and sizes included, when they fit their field widths |
| AvroCompile.BuildFieldIndex | internal/avro/compiler.go:34-56 | the three loops build the slot table |
| AvroCompile.LookupExtSlot | internal/avro/op.go:69-83 | the binary search finds the entry of the op, or none |
| AvroCompile.CompileLayout | internal/avro/compiler.go:19-59 | compilation succeeds exactly on such schemas; children follow parents, child lists stay aligned with ops |
| AvroCompile.CompiledDecodes | internal/avro/compiler.go:19-279 | compiler correctness: on every input the compiled program decodes as the schema tree with the shared symbol table |
| AvroCompile.CompiledSlots | internal/avro/op.go:91-103 | every op's slot is that of its field name, cut to the table's width, past 255 ops too |
| AvroCompiler.Compiler.AllocKeyIdx | internal/avro/compiler.go:78-94 | keys in sequence, the sentinel and an extension entry from 255 on |
| AvroCompiler.Compiler.Walk | internal/avro/compiler.go:98-279 | the recursive walk over mutable state equals the emission function |
| AvroCompiler.CompileSchema | internal/avro/compiler.go:19-59 | the whole compiler equals the function and succeeds exactly on compilable schemas |
| AvroEnums.SharedTableHarmless | internal/avro/compiler.go:171-186 | shared and own symbols decode alike on every input exactly when all enums that can show up agree with the table |
| AvroEnums.CompiledDecodesOwn | internal/avro/execute.go:156-169 | the compiled program prints every enum's own symbols on every input exactly under that condition |
| AvroEnums.TwoEnumsDisagree | internal/avro/compiler.go:171-186 | two enums for which it fails, with the input |
| AvroEncode.PlainIsFaithful | internal/avro/execute.go:385-532 | the plain JSON reader gives the answers the round trip asks for on every well-typed document of a schema whose records name their fields apart |
| AvroEncode.RoundTrip | internal/avro/execute.go:63-532 | for every well-typed document whose own values and names the JSON reader gives back, and every trailing bytes, decoding the encoding gives the document and exactly the trailing bytes |
| AvroEncoder.EncodesTree | internal/avro/execute.go:370-532 | the flat program encodes every value as the tree does |
| AvroEncoder.ProgramRoundTrip | internal/avro/execute.go:16-532 | the round trip with one flat program in both directions |
| AvroRoundTrip.CompiledRoundTrip | internal/avro/compiler.go:19-59 | the round trip with the program compiled from the schema |
| AvroRoundTrip.Transcode | internal/avro/execute.go:16-366 | compiling, encoding and decoding in a row gives the text of the document, and nothing exactly when the schema does not compile |
| AvroEncoder.SymbolIndex | internal/avro/execute.go:423-431 | the first matching symbol |
| AvroEncoder.AppendFixed | internal/avro/execute.go:433-444 | cut or zero-padded to the size |
| AvroEncoder.EncodeValue | internal/avro/execute.go:385-532 | appends exactly the encoding of the value |
| AvroEncoder.EncodeRecord | internal/avro/execute.go:370-382 | appends the encodings of the fields in order |
| AvroEncoder.EncodeListOp | internal/avro/execute.go:454-505 | one counted block with all items, then the end marker |
| AvroEncoder.AppendJSONToAvro | internal/avro/execute.go:362-366 | appends the encodings of the fields below the root; for a record root that is the encoded record |
| AvroPartial.SameConsumption | internal/avro/execute.go:34-345 | whatever flags are set, the same bytes are consumed and the same inputs fail |
| AvroPartialFit.FitDecodes | internal/avro/execute.go:34-345 | skips that fit the path decode every input to the full decode restricted to it, with the same rest and failures |
| AvroPartialFit.MisfitTells | internal/avro/execute.go:34-345 | from skips that do not fit, an input on which the partial decode is something else |
| AvroPartialFit.SkipsRightIff | internal/avro/execute.go:34-345 | for any skipped ops: right on every input exactly when they fit the path wherever an input reaches them |
| AvroPartialExact.MarkFollows | internal/avro/partial.go:50-116 | marking succeeds exactly when its lookups by name do, and each flag is set by the last lookup that lands on its op |
| AvroPartialExact.PathCompilesIff | internal/avro/partial.go:19-116 | a dotted path compiles exactly when it is not empty and each segment names a field below the op its predecessor is found at, however often names are repeated |
| AvroPartialExact.PartialDecodesIff | internal/avro/partial.go:19-116 | a path compiles exactly when its lookups succeed; the partial program is then right on every input exactly when the ops they leave off fit the path |
| AvroPartialExact.CompiledPartialIff | internal/avro/partial.go:19-44 | the same for compiled schemas |
| AvroPartialExact.ShadowedFieldShows | internal/avro/partial.go:62-75 | a field off the path that is not the first op of its name is printed on some input |
| AvroPartialExact.PartialDecodes | internal/avro/partial.go:19-44 | if all fields of the records on the path are the first of their name, the path compiles and the partial program is right on every input |
| AvroPartialExact.DistinctResolves | internal/avro/partial.go:50-104 | distinct names are enough for that |
| AvroPartialRun.ProgramObject.Clone | internal/avro/partial.go:120-158 | a copy in fresh arrays |
| AvroPartialRun.ProgramObject.FindOpByName | internal/avro/partial.go:108-116 | the first op with the name |
| AvroPartialRun.ProgramObject.MarkSkips | internal/avro/partial.go:50-104 | setting flags in place equals the marking function |
| AvroPartialRun.CompilePartialProgram | internal/avro/partial.go:19-44 | works on a copy; the full program's arrays are unchanged |
| AvroPartialLimits.ProgramIsSchema | internal/avro/compiler.go:144-169 | the program of the next two rows is laid out as its schema |
| AvroPartialLimits.MarkingMisses | internal/avro/partial.go:62-75 | with a repeated field name the wrong op is skipped |
| AvroPartialLimits.WrongFieldsPrinted | internal/avro/partial.go:62-75 | the input on which the partial program then prints the wrong fields |
| AvroPartialLimits.RepeatIsHarmless | internal/avro/partial.go:62-75 | a schema with a repeated name whose path resolves all the same |
| FlowFill.SettledNeverFills | internal/control/compiler_rl_validate.go:152-195 | nothing that fills the slot is reachable from a set of names all of which are settled in it |
| FlowFill.Search.Walk | internal/control/compiler_rl_validate.go:152-195 | true only if a reachable step fills the slot; false only if everything reached is visited and settled |
| FlowFill.FlowFillsSlot | internal/control/compiler_rl_validate.go:147-150 | terminates on every flow graph and is true exactly when some reachable step fills the slot |

## Left out

- Disk and Redis backends, the async write queue, the event bus, the clock goroutine and `Submit`: a get that misses in memory answers nothing, and the clock and the backend's verdict are parameters. One clock reading is used for a whole put.
- The cleaner (`sweepBatch`, `TryTombstone`): no entry leaves the index by age. The recycling predicate of a write is arbitrary in the run theorems, and the manager's own in module CacheLaps.
- `Invalidate`, `DeleteTenant`, `Exists`, `Incr` and warming from the backend: not part of the run theorems; index deletion itself is modelled.
- Lock-free readers running against delete, collapse or shrink: the source argues insertion and growth only.
- Slot headers are records rather than sixteen raw bytes; reads and writes are at slot offsets.
- Write counters and byte counters are unbounded except where a subtraction could wrap, which is modelled modulo 2^64.
- `maphash`, `gjson`, `hamba` and `strconv`: the long-key hash, the JSON library's answers, the schema parser and the text of floating-point numbers are parameters; floating-point values are bit patterns.
- CacheRuns.RunsReadLatestPut: says nothing of a put whose class or tier is above 3 or whose offset is 2^44 or more, for its pointer is cut as `Pointers.PackCuts` says; `CacheRuns.RunsAreAddressed` gives configurations without such puts.
- AvroEncode.RoundTrip: union values are null or of the first non-null arm, the one the encoder picks; bytes and fixed values are their lower-case hex text.
- JsonParse.TextBack: the reader knows four-digit escapes below 0x80 only, which is all the printer emits, and keeps numbers as text; the encoding of strings is the subject of module JsonUtf8.
- The text already appended when a decode fails is only known to extend the output; nothing reads it.
- Schema registry, other step compilers, HTTP handlers and configuration: parameter plumbing and ordinary maps.
