# What this project models

The repository is a small chat program that ships with a copy of Protocol Buffers 3.18. Five of its
components are modelled and proved.

**Arena allocator** (`Alignment`, `SerialArenas`, `SerialArenaProperties`, `ArenaGrowth`,
`SerialArenaClass`, `ArenaProtocol`, `ArenaSafety`, `ArenaProgress`, `ArenaRelease`,
`ThreadSafeArenas`, `ArenaBlocks`, `ArenaCleanup`). A `SerialArena` is a bump allocator over a chain
of blocks; objects grow up, cleanup nodes grow down. `SerialArenas` holds its steps and invariant,
`SerialArenaProperties` and `ArenaGrowth` what follows over whole runs, `SerialArenaClass` the
object itself. `ArenaProtocol` is a state machine of any number of threads that find their
`SerialArena` by cache, hint or list, one atomic step at a time, on arenas that come and go and
whose memory is used again; threads end, and new ones take over their cache addresses. `ArenaSafety`
proves it safe in every interleaving, and `ArenaProgress` that every call ends with a `SerialArena`,
lock-free. `ArenaRelease` and `ThreadSafeArenas` free blocks over a heap from which a freed block
disappears, so that a use after free would not verify; `ArenaCleanup` joins them with the
`SerialArena` objects, whose blocks `ArenaBlocks` ties to the list and to the stored policy, and
puts the cleanup pass before the frees.

**Descriptor database** (`Symbols`, `SimpleIndex`, `SymbolOrder`, `OrderedTables`, `EncodedIndex`,
`EncodedRefinement`, `EncodedContents`, `EncodedAcceptance`, `EncodedRefusals`, `MergedDatabase`). A
sorted map in which one predecessor search finds the dotted parent of a name; a second form of it,
split into trees and flat vectors with a comparator that avoids building names, refined to plain
maps that hold exactly what the files declare, with exact conditions for its two failures: a parent
that slips in after its child, and a refused file that answers all the same; and the database that
merges several.

**Dynamic message factory** (`MessageLayout`, `MessagePacking`, `PrototypeFactory`). The byte layout
of a message type, which is safe and tight, and the recursion that builds one prototype for every
type of a possibly cyclic graph.

**Login messages** (`Wire`, `UnknownFields`, `AuthCodec`, `WireMeaning`, `AuthMessages`). The
generated code of the six messages is one template with six field tables; the model is the template,
over every table that the template supports. Varints, tags, sizes, groups and unknown fields follow
the runtime; `WireMeaning` says what the bytes mean without the readers.

**Chat** (`ChatBuffer`, `ChatRooms`, `ChatHistory`, `ChatServers`, `ChatClients`, `ChatSystem`). The
server has rooms, names and one shared buffer; `ChatHistory` reads its state off the messages it
received. `ChatSystem` runs it with any number of client programs and queues both ways: the server
relies on what clients send, and the flags of a client do not suffice for that while it waits to be
told that it left; the exact condition is proved.

Each module is the file of the same name; `Sequences` holds what several of them share. Code that
works step by step is modelled by classes and methods; each method is proved against a specification
function, and the properties are lemmas about those functions.

Where the code and its comments disagree the model follows the code:

- The comment on `next_lifecycle_id` has a thread reserve a new batch when the id is a multiple of
  256; the test is for multiples of 512, since ids go up in twos.
- `AllocationPolicy::IsDefault` compares the start size with the default maximum size.
- "Align the final size" in the layout code is not followed by any alignment.
- The fast path of the symbol comparator stands for comparing whole names; for an entry whose symbol
  is empty it is not the same.
- `CleanupList` rounds the limit of every block to 8, but only the constructor sets it so.
- A packet states four bytes more than are written, and as many are sent; the receive buffer is
  doubled when the packet already fits.

## Model

| member | source | states |
|---|---|---|
| SerialArenas.BlockSize | ChatModuleDemo/dev/include/google/protobuf/arena.cc:53-77 | a new block always has room for its header and the bytes asked for, whatever the policy says; ArenaGrowth states its size |
| SerialArenas.NewSerialInv | ChatModuleDemo/dev/include/google/protobuf/arena.cc:108-120 | a new arena starts in the allocator invariant: blocks apart, objects tiling upwards without gaps, nodes downwards in steps of 16, counters equal to what they count |
| SerialArenas.WithNewBlockInv | ChatModuleDemo/dev/include/google/protobuf/arena.cc:149-164 | chaining a block that overlaps no other keeps the invariant, and freezes the previous block exactly where its objects and nodes ended |
| SerialArenas.AllocatedInv | ChatModuleDemo/dev/include/google/protobuf/arena_impl.h:149-199 | every served request keeps the invariant and returns an 8-aligned range of the length asked for, the newest object of the head block |
| ArenaGrowth.BlockOnlyWhenFull | ChatModuleDemo/dev/include/google/protobuf/arena_impl.h:149-158 | a request takes a new block exactly when it does not fit the head block, and then of the size the policy demands |
| ArenaGrowth.RunGrows | ChatModuleDemo/dev/include/google/protobuf/arena.cc:53-77 | over every run each later block has the larger of the smaller of twice its predecessor and the maximum, and what one request of the run needs; no size changes afterwards |
| ArenaGrowth.SizesDouble | ChatModuleDemo/dev/include/google/protobuf/arena.cc:58-70 | over every run the k-th block is at least as large as the first one doubled k times, or as the maximum |
| ArenaGrowth.SizesDoubleExactly | ChatModuleDemo/dev/include/google/protobuf/arena.cc:58-70 | while requests are small the size of the k-th block is exactly that of the first one doubled k times, capped at the maximum |
| ArenaGrowth.FirstBlockSize | ChatModuleDemo/dev/include/google/protobuf/arena.cc:58-70 | the first block of an arena's own has the start size when that is enough |
| SerialArenaProperties.RegionInBlock | ChatModuleDemo/dev/include/google/protobuf/arena_impl.h:149-199 | objects, nodes, headers and the embedded SerialArena lie inside their block; objects are 8-aligned at both ends |
| SerialArenaProperties.RegionsDisjoint | ChatModuleDemo/dev/include/google/protobuf/arena_impl.h:149-199 | no two of all the objects, cleanup nodes, block headers and the embedded SerialArena overlap, across all blocks |
| SerialArenaProperties.SpaceUsedExact | ChatModuleDemo/dev/include/google/protobuf/arena.cc:171-177 | SpaceUsed is the sum of the sizes handed out since the start, SpaceAllocated the sum of all block sizes |
| SerialArenaProperties.BumpedRegisters | ChatModuleDemo/dev/include/google/protobuf/arena_impl.h:189-207 | a request with a cleanup registers exactly the node it returns, one without registers none |
| SerialArenaProperties.NewBlockRegisters | ChatModuleDemo/dev/include/google/protobuf/arena.cc:149-164 | changing blocks loses no registered node and adds none |
| SerialArenaProperties.RegisteredDistinct | ChatModuleDemo/dev/include/google/protobuf/arena_impl.h:189-207 | no two registrations share a node |
| SerialArenaProperties.CleanupExact | ChatModuleDemo/dev/include/google/protobuf/arena.cc:179-195 | CleanupList visits every registered node once, in reverse order of registration across all blocks, if and only if no later block of a size that is no multiple of 8 holds a single node |
| SerialArenaProperties.RunKeepsInv | ChatModuleDemo/dev/include/google/protobuf/arena_impl.h:149-207 | over every run of requests the invariant holds and ranges handed out stay allocated where they are |
| SerialArenaProperties.RunRegisters | ChatModuleDemo/dev/include/google/protobuf/arena_impl.h:180-207 | over every run the registered nodes are the ones returned to callers, in order |
| SerialArenaProperties.RunCleansUpExactly | ChatModuleDemo/dev/include/google/protobuf/arena.cc:179-195 | for every run on a new arena, the nodes visited are the nodes returned, last first, if and only if no block is passed over |
| SerialArenaProperties.AlignedPolicyCleansUp | ChatModuleDemo/dev/include/google/protobuf/arena.cc:53-77 | when the sizes of the policy are multiples of 8, no run ever passes a node over |
| SerialArenaProperties.OddPolicySkips | ChatModuleDemo/dev/include/google/protobuf/arena.cc:179-195 | the exception is reachable: a 41-byte block with one node is passed over |
| SerialArenaClass.CallsAreTheLog | ChatModuleDemo/dev/include/google/protobuf/arena.cc:179-195 | the cleanups called are the cleanups written, backwards, if and only if no block is passed over |
| SerialArenaClass.LogExtended | ChatModuleDemo/dev/include/google/protobuf/arena_impl.h:202-207 | writing a new node leaves every earlier registration as it was written |
| SerialArenaClass.SerialArena.New | ChatModuleDemo/dev/include/google/protobuf/arena.cc:108-120 | the constructor establishes the state of a new arena with an empty log |
| SerialArenaClass.SerialArena.AllocateNewBlock | ChatModuleDemo/dev/include/google/protobuf/arena.cc:149-164 | performs the block change on the fields, keeps invariant and log |
| SerialArenaClass.SerialArena.AllocateAligned | ChatModuleDemo/dev/include/google/protobuf/arena_impl.h:151-158 | performs the request, directly or through the fallback with a new block, and returns the 8-aligned range it added |
| SerialArenaClass.SerialArena.MaybeAllocateAligned | ChatModuleDemo/dev/include/google/protobuf/arena_impl.h:172-178 | succeeds exactly when the head block has room, and changes nothing otherwise |
| SerialArenaClass.SerialArena.AllocateAlignedWithCleanup | ChatModuleDemo/dev/include/google/protobuf/arena_impl.h:180-199 | performs the request, directly or through the fallback, and hands out the range and the new node, the new end of the registered nodes |
| SerialArenaClass.SerialArena.AddCleanup | ChatModuleDemo/dev/include/google/protobuf/arena_impl.h:202-207 | appends one cleanup to the log and keeps all others |
| SerialArenaClass.SerialArena.AllocateInternal | ChatModuleDemo/dev/include/google/protobuf/arena.h:556-576 | the object is aligned as asked, inside the range obtained for it; its destructor is appended to the log, or nothing is when the destructor is null |
| SerialArenaClass.SerialArena.AllocateAlignedWithHook | ChatModuleDemo/dev/include/google/protobuf/arena.h:771-784 | without a cleanup: the object is aligned as asked inside the range obtained, and the log stays |
| SerialArenaClass.RequestIsLeast | ChatModuleDemo/dev/include/google/protobuf/arena.h:568-574 | no smaller request would do: for some address that may be handed out the object would not fit |
| SerialArenaClass.Served | ChatModuleDemo/dev/include/google/protobuf/arena.cc:134-147 | which branch serves a request, and that the block obtained when one is needed is large enough |
| SerialArenaClass.SerialArena.SpaceUsed | ChatModuleDemo/dev/include/google/protobuf/arena.cc:171-177 | returns the sum of the sizes handed out |
| SerialArenaClass.SerialArena.CleanupList | ChatModuleDemo/dev/include/google/protobuf/arena.cc:179-195 | the calls made are the log backwards if and only if no block is passed over; only `start` of the head block changes |
| Alignment.AlignToBounds | ChatModuleDemo/dev/include/google/protobuf/dynamic_message.cc:209-216 | rounding up reaches a multiple less than one alignment away |
| Alignment.AlignToLeast | ChatModuleDemo/dev/include/google/protobuf/dynamic_message.cc:209-216 | and that multiple is the least one not below the offset |
| Alignment.MaskRoundsDown | ChatModuleDemo/dev/include/google/protobuf/arena.cc:111-112 | masking a word with the negative of a power of two clears exactly the remainder |
| Alignment.MaskingIsAlignTo | ChatModuleDemo/dev/include/google/protobuf/arena.h:101-105 | the masking form of rounding up equals the dividing form, for every power of two and every offset that does not overflow the word |
| Alignment.OverAlignedFits | ChatModuleDemo/dev/include/google/protobuf/arena.h:568-574 | asking for align - 8 bytes more leaves room for the object after its address is rounded up |
| ArenaProtocol.NewIdIsFresh | ChatModuleDemo/dev/include/google/protobuf/arena.cc:261-279 | the lifecycle id Init takes was never handed out before, is even and below the initial last_lifecycle_id_seen, for every batch that 64 bits can number |
| ArenaProtocol.LastTagLooksSeen | ChatModuleDemo/dev/include/google/protobuf/arena_impl.h:391-403 | a thread that has used no arena takes a null SerialArena for its own if and only if the arena records allocations and has the very last id |
| ArenaSafety.CacheHitIsMine | ChatModuleDemo/dev/include/google/protobuf/arena_impl.h:391-403 | a thread cache that matches the arena names this thread's own entry of this arena, never one of an arena reset or destroyed since |
| ArenaSafety.NextIsFurther | ChatModuleDemo/dev/include/google/protobuf/arena.cc:434-439 | following `next` past a foreign entry leaves none of the thread's own entries behind, while other threads push |
| ArenaSafety.PushLinked | ChatModuleDemo/dev/include/google/protobuf/arena.cc:447-451 | the entry a successful compare-and-swap publishes is correctly linked, although addresses of freed entries may be in use again |
| ArenaSafety.PushOneEach | ChatModuleDemo/dev/include/google/protobuf/arena.cc:440-451 | publishing keeps one entry per owner |
| ArenaSafety.DoKeepsInv | ChatModuleDemo/dev/include/google/protobuf/arena.cc:432-456 | every atomic step of every thread - construction, destruction, cache, hint, traversal, push with spurious failures, the three cache writes, the end of a thread and the reuse of its cache address - keeps the invariant |
| ArenaSafety.IdsNeverRepeat | ChatModuleDemo/dev/include/google/protobuf/arena.cc:261-279 | over every run, in whatever order threads take batches, the ids handed out are even and pairwise distinct |
| ArenaSafety.EveryRunIsSafe | ChatModuleDemo/dev/include/google/protobuf/arena_impl.h:365-403 | over every interleaving of any number of threads and arenas, whoever obtained a SerialArena obtained the one entry of the arena's list it owns, and no two threads hold the same |
| ArenaProgress.AskingObtains | ChatModuleDemo/dev/include/google/protobuf/arena.cc:432-456 | over every run: a thread that asks for a SerialArena obtains its own entry by at most 12 moves of its own more than the list has entries, whatever addresses it is given |
| ArenaProgress.OwnMoveIsCloser | ChatModuleDemo/dev/include/google/protobuf/arena.cc:432-456 | every move of its own but a spurious failure brings the thread closer and keeps the invariant |
| ArenaProgress.OnlyPushesDelay | ChatModuleDemo/dev/include/google/protobuf/arena.cc:434-451 | under any interleaving a call is delayed only by successful pushes of others and by spurious failures, each by a bounded number of moves |
| ArenaProgress.CallsAreLockFree | ChatModuleDemo/dev/include/google/protobuf/arena.cc:434-451 | hence from every reachable state, under any schedule, the own moves a call has made are bounded by the list, the pushes of others and the spurious failures |
| ArenaProgress.IdleOnlyWhenDone | ChatModuleDemo/dev/include/google/protobuf/arena.cc:432-456 | a thread stops without a SerialArena only when a call that may fail misses the cache |
| ArenaProgress.FallbackFillsCache | ChatModuleDemo/dev/include/google/protobuf/arena.cc:452-455 | a call that walked the list leaves its entry in the thread cache and in the hint |
| ArenaProgress.CachedCallHits | ChatModuleDemo/dev/include/google/protobuf/arena_impl.h:391-403 | the next call of the thread in that arena takes one move |
| ArenaProgress.CacheIsPrivate | ChatModuleDemo/dev/include/google/protobuf/arena_impl.h:391-403 | whatever others did in between: only the thread itself changes its cache |
| ArenaProgress.HintHits | ChatModuleDemo/dev/include/google/protobuf/arena_impl.h:365-389 | when the hint is the thread's own entry the list is not walked: at most three moves |
| ArenaProgress.FirstCallHits | ChatModuleDemo/dev/include/google/protobuf/arena.cc:261-286 | an arena that starts with a block has one entry, its constructor's, whose first call takes one move |
| ArenaProgress.IdsInTwos | ChatModuleDemo/dev/include/google/protobuf/arena.cc:265-279 | the next id of a thread is two above its last, until its 512 numbers are used up |
| ArenaProgress.DestroyFrees | ChatModuleDemo/dev/include/google/protobuf/arena.cc:288-307 | destruction frees the SerialArenas of the arena and no other |
| ArenaSafety.ListsStayUnique | ChatModuleDemo/dev/include/google/protobuf/arena.cc:432-456 | over every run no list holds two entries of one owner, no entry is in two lists, and no two live arenas share an id |
| ArenaSafety.NothingFreedIsRead | ChatModuleDemo/dev/include/google/protobuf/arena.cc:432-456 | over every run every entry a thread is about to read is live, and an arena lives as long as a thread is inside it |
| ArenaRelease.System.FreeSerial | ChatModuleDemo/dev/include/google/protobuf/arena.cc:122-132 | gives back all blocks of a SerialArena but its first, newest first, and returns that one; every link is read before its block goes |
| ArenaRelease.BlockKept | ChatModuleDemo/dev/include/google/protobuf/arena.cc:126-130 | the block the loop stands on has not been freed when its link is read |
| ArenaRelease.RecordKept | ChatModuleDemo/dev/include/google/protobuf/arena.cc:309-317 | the SerialArena whose `next` is followed still exists: its first block is freed one round later |
| ArenaRelease.FreedIsGone | ChatModuleDemo/dev/include/google/protobuf/arena.cc:309-317 | with a block its SerialArena and its policy go, and nothing else does |
| ThreadSafeArenas.ThreadSafeArena.constructor | ChatModuleDemo/dev/include/google/protobuf/arena.cc:217-226 | uses the block passed in exactly when it is large enough |
| ThreadSafeArenas.ThreadSafeArena.WithPolicy | ChatModuleDemo/dev/include/google/protobuf/arena_impl.h:268-284 | which block is used, by the test the policy selects; the policy is kept for every policy but the one IsDefault accepts |
| ThreadSafeArenas.ThreadSafeArena.InitializeWithPolicy | ChatModuleDemo/dev/include/google/protobuf/arena.cc:228-259 | stores the policy in the first block, which always has room for it |
| ThreadSafeArenas.PolicyFits | ChatModuleDemo/dev/include/google/protobuf/arena.cc:249-256 | the allocation that must not fail never fails |
| ThreadSafeArenas.DefaultIsNotDefault | ChatModuleDemo/dev/include/google/protobuf/arena_impl.h:104-108 | exactly one policy passes for the default, 8192 bytes for both sizes and no hooks, and the default one is not it |
| ThreadSafeArenas.ThreadSafeArena.PushSerial | ChatModuleDemo/dev/include/google/protobuf/arena.cc:443-451 | a thread's first block joins the list with invariant kept |
| ThreadSafeArenas.ThreadSafeArena.GrowSerial | ChatModuleDemo/dev/include/google/protobuf/arena.cc:149-164 | a further block of any SerialArena joins its chain with invariant kept |
| ThreadSafeArenas.ThreadSafeArena.SpaceAllocated | ChatModuleDemo/dev/include/google/protobuf/arena.cc:409-416 | the sum of the sizes of all blocks |
| ThreadSafeArenas.ThreadSafeArena.Free | ChatModuleDemo/dev/include/google/protobuf/arena.cc:309-317 | gives back every block of every SerialArena but the very first block, in list order, and returns that one; counts exactly the bytes given back |
| ThreadSafeArenas.ThreadSafeArena.Reset | ChatModuleDemo/dev/include/google/protobuf/arena.cc:324-352 | after the cleanup pass: gives back every block but a user-owned one, returns the space allocated before, and starts over on the user's block or with the same policy |
| ThreadSafeArenas.ThreadSafeArena.Destroy | ChatModuleDemo/dev/include/google/protobuf/arena.cc:293-306 | after the cleanup pass: gives back every block but a user-owned one |
| ThreadSafeArenas.FreedOnce | ChatModuleDemo/dev/include/google/protobuf/arena.cc:309-317 | no block goes back twice, and the one left over is none of those given back |
| ArenaCleanup.PassIsExact | ChatModuleDemo/dev/include/google/protobuf/arena.cc:427-429 | the pass over all SerialArenas calls every cleanup registered in any of them exactly once, each one's newest first, if and only if none of them has a block that is passed over |
| ArenaCleanup.Arena.CleanupList | ChatModuleDemo/dev/include/google/protobuf/arena.cc:427-429 | follows the list and calls what each SerialArena calls, while the heap with all blocks stays as it is |
| ArenaCleanup.Arena.AddSerial | ChatModuleDemo/dev/include/google/protobuf/arena.cc:440-451 | a thread's first block, of the size the current policy demands, adds a SerialArena with nothing registered; all others stay |
| ArenaCleanup.Arena.AddCleanup | ChatModuleDemo/dev/include/google/protobuf/arena.cc:366-373 | registers one cleanup with a SerialArena of the list, on a further block if its own is full |
| ArenaCleanup.Arena.Reset | ChatModuleDemo/dev/include/google/protobuf/arena.cc:319-352 | first all cleanups of all SerialArenas, then all blocks but a user-owned one, nothing in between; then one new SerialArena over exactly the first block, with nothing registered and, where there is a policy, just that allocated |
| ArenaCleanup.Arena.WithPolicy | ChatModuleDemo/dev/include/google/protobuf/arena.cc:228-259 | starts with one SerialArena over exactly the first block, in which just the policy is allocated |
| ArenaCleanup.Arena.AllocateAligned | ChatModuleDemo/dev/include/google/protobuf/arena_impl.h:295-302 | a request served by any SerialArena of the list, on a further block when needed, returns a range that does not overlap the policy |
| ArenaBlocks.RegionsOfTwoDisjoint | ChatModuleDemo/dev/include/google/protobuf/arena.cc:149-164 | nothing in one SerialArena - object, node, header - overlaps anything in another |
| ArenaBlocks.PolicyIsApart | ChatModuleDemo/dev/include/google/protobuf/arena.cc:249-258 | no object, node or header of any SerialArena overlaps the stored policy |
| ArenaBlocks.TiedServed | ChatModuleDemo/dev/include/google/protobuf/arena_impl.h:149-199 | serving a request keeps list, objects and policy together: the same blocks in both, and the policy the first object of the first block |
| ArenaBlocks.ServedIsApart | ChatModuleDemo/dev/include/google/protobuf/arena.cc:249-258 | what a later request is given does not overlap the policy |
| ArenaCleanup.Arena.Destroy | ChatModuleDemo/dev/include/google/protobuf/arena.cc:288-307 | first all cleanups of all SerialArenas, then all blocks but a user-owned one |
| Symbols.ValidateSymbolName | ChatModuleDemo/dev/include/google/protobuf/descriptor_database.cc:153-162 | accepts exactly the names made of letters, digits, underscores and dots |
| Symbols.PrefixIsConvex | ChatModuleDemo/dev/include/google/protobuf/descriptor_database.h:220-265 | what sorts between a name and an extension of it extends it too |
| Symbols.DottedBetween | ChatModuleDemo/dev/include/google/protobuf/descriptor_database.h:220-265 | between a key and a query under it only names under the key sort, because the dot is the least valid character |
| SimpleIndex.FindLastLessOrEqual | ChatModuleDemo/dev/include/google/protobuf/descriptor_database.cc:164-173 | the last key not above the query; the first key when all are above it |
| SimpleIndex.PredecessorIsMatch | ChatModuleDemo/dev/include/google/protobuf/descriptor_database.cc:298-305 | if a key equals the query or is its dotted parent, the predecessor search lands on it |
| SimpleIndex.LookupCorrect | ChatModuleDemo/dev/include/google/protobuf/descriptor_database.cc:298-305 | on every sorted prefix-free table the lookup returns the unique matching key's value, and nothing when there is none |
| SimpleIndex.LookupCompleteIffPrefixFree | ChatModuleDemo/dev/include/google/protobuf/descriptor_database.h:220-265 | one predecessor search answers every query that has a match if and only if the table is prefix-free |
| SimpleIndex.AdmitsExactly | ChatModuleDemo/dev/include/google/protobuf/descriptor_database.cc:195-250 | a name is accepted if and only if it is valid and conflicts with no key, except when it sorts before every key and only the first lies under it |
| SimpleIndex.InsertedPrefixFree | ChatModuleDemo/dev/include/google/protobuf/descriptor_database.cc:195-250 | the table is prefix-free after an accepted insertion if and only if it was before and the insertion is not that exception |
| SimpleIndex.AddThenFind | ChatModuleDemo/dev/include/google/protobuf/descriptor_database.cc:195-305 | after an accepted add every query under the new name finds the new value and every other query answers as before |
| SimpleIndex.RunInvariant | ChatModuleDemo/dev/include/google/protobuf/descriptor_database.cc:195-250 | over every run of adds, accepted or refused, the table stays sorted, and prefix-free as long as the exception does not occur |
| SimpleIndex.SlippingRun | ChatModuleDemo/dev/include/google/protobuf/descriptor_database.cc:195-250 | the exception is reachable and breaks a lookup, for every valid name added after a name below it |
| SimpleIndex.DescriptorIndex.AddSymbol | ChatModuleDemo/dev/include/google/protobuf/descriptor_database.cc:195-250 | the method performs the insertion when the name is admitted and changes nothing otherwise |
| SimpleIndex.DescriptorIndex.FindSymbol | ChatModuleDemo/dev/include/google/protobuf/descriptor_database.cc:298-305 | the method returns the lookup of the model |
| SymbolOrder.CompareIsNameOrderExactly | ChatModuleDemo/dev/include/google/protobuf/descriptor_database.cc:485-520 | for all keys, the comparator that avoids building names agrees with the order of the full dotted names if and only if it does not compare a package name with an entry of that package whose symbol is empty |
| SymbolOrder.CompareIsNameOrder | ChatModuleDemo/dev/include/google/protobuf/descriptor_database.cc:485-520 | hence it is the name order whenever the entry on the right has a symbol or no package |
| SymbolOrder.CompareIsStrictWeakOrder | ChatModuleDemo/dev/include/google/protobuf/descriptor_database.cc:485-520 | for all keys it is irreflexive; it is transitive, and holds just equal names for equivalent, exactly where no such pair is involved |
| SymbolOrder.EmptySymbolIsConfused | ChatModuleDemo/dev/include/google/protobuf/descriptor_database.cc:485-520 | in every such pair the names differ by a dot, and the comparator holds neither below the other |
| SymbolOrder.ConfusionBreaksTransitivity | ChatModuleDemo/dev/include/google/protobuf/descriptor_database.cc:485-520 | for every package name the comparator is not transitive around such a pair |
| OrderedTables.MergeIntoFlat | ChatModuleDemo/dev/include/google/protobuf/descriptor_database.cc:803-811 | the loop computes std::merge of the tree and the flat vector and empties the tree |
| OrderedTables.MergeElements | ChatModuleDemo/dev/include/google/protobuf/descriptor_database.cc:803-811 | merging loses and duplicates nothing |
| OrderedTables.MergeOrdered | ChatModuleDemo/dev/include/google/protobuf/descriptor_database.cc:803-811 | merging two sorted sequences without common keys gives a sorted one |
| EncodedRefinement.SymbolAddedRefines | ChatModuleDemo/dev/include/google/protobuf/descriptor_database.cc:691-729 | an accepted symbol is new to the plain map, and the index then represents the map with it added |
| EncodedRefinement.ExtensionAddedRefines | ChatModuleDemo/dev/include/google/protobuf/descriptor_database.cc:743-768 | the same for extensions, by extendee and number |
| EncodedRefinement.NameAddedRefines | ChatModuleDemo/dev/include/google/protobuf/descriptor_database.cc:636-643 | the same for file names |
| EncodedRefinement.FileAddedRefines | ChatModuleDemo/dev/include/google/protobuf/descriptor_database.cc:624-661 | a successful AddFile changes index and plain maps alike, operation by operation; EncodedContents states which symbols and extensions those are |
| EncodedContents.FileOpsAre | ChatModuleDemo/dev/include/google/protobuf/descriptor_database.cc:645-661 | the operations of a file are, for every symbol and extension, those of its top-level messages, enums, extensions and services and of the extensions in messages at any depth |
| EncodedContents.PlainFileAddsContents | ChatModuleDemo/dev/include/google/protobuf/descriptor_database.cc:624-661 | the plain maps gain exactly package.name for every message, enum, extension and service at the top of the file, and every fully-qualified extension at its top or in a message at any depth of nesting; everything else stays |
| EncodedContents.AddedFileIsNew | ChatModuleDemo/dev/include/google/protobuf/descriptor_database.cc:645-661 | a successful AddFile declares nothing that the plain maps had |
| EncodedContents.AddedFileAnswers | ChatModuleDemo/dev/include/google/protobuf/descriptor_database.cc:624-661 | afterwards each file name and each extension answers with the new file if the file has it, and as before otherwise |
| EncodedContents.AddedFileAnswersSymbols | ChatModuleDemo/dev/include/google/protobuf/descriptor_database.cc:624-661 | and each query at or under a declared name finds the new file, every other query answers as before, when no stored name is a parent of another |
| EncodedRefinement.FlattenRefines | ChatModuleDemo/dev/include/google/protobuf/descriptor_database.cc:813-819 | EnsureFlat changes no answer and leaves every flat vector strictly sorted |
| EncodedRefinement.FindFileAnswers | ChatModuleDemo/dev/include/google/protobuf/descriptor_database.cc:854-864 | FindFile on the flat vector answers as the plain map |
| EncodedRefinement.FindExtensionAnswers | ChatModuleDemo/dev/include/google/protobuf/descriptor_database.cc:789-801 | FindExtension on the flat vector answers as the plain map |
| EncodedRefinement.FindSymbolAnswers | ChatModuleDemo/dev/include/google/protobuf/descriptor_database.cc:771-787 | on prefix-free symbols FindSymbol answers with the unique parent, or nothing |
| EncodedRefinement.EncodedIndexAnswersAsPlainMaps | ChatModuleDemo/dev/include/google/protobuf/descriptor_database.cc:770-819 | over every run of successful adds interleaved with lookups the tree-plus-flat index answers all three lookups as plain maps |
| EncodedAcceptance.SymbolAcceptedExactly | ChatModuleDemo/dev/include/google/protobuf/descriptor_database.cc:691-729 | a symbol is accepted if and only if it is valid and its full name conflicts with no name in the tree and none in the flat vector, except for a slip past the first name of either part |
| EncodedAcceptance.OpPrefixFree | ChatModuleDemo/dev/include/google/protobuf/descriptor_database.cc:691-729 | an accepted symbol leaves the stored names prefix-free if and only if they were and it did not slip |
| EncodedAcceptance.RunPrefixFree | ChatModuleDemo/dev/include/google/protobuf/descriptor_database.cc:624-661 | over every run of successful adds interleaved with lookups the stored names stay prefix-free if and only if no accepted symbol slipped |
| EncodedAcceptance.SearchCompleteIffPrefixFree | ChatModuleDemo/dev/include/google/protobuf/descriptor_database.cc:771-787 | on a flattened index every query that a stored name covers is answered if and only if the stored names are prefix-free |
| EncodedAcceptance.LookupsCompleteIffNoSlip | ChatModuleDemo/dev/include/google/protobuf/descriptor_database.cc:771-787 | from the empty index, over every such run: every covered query is answered if and only if no accepted symbol slipped |
| EncodedRefusals.NameRefusedExactly | ChatModuleDemo/dev/include/google/protobuf/descriptor_database.cc:636-643 | a file name is refused if and only if the plain map has it, whether it is in the tree or in the flat vector |
| EncodedRefusals.AddFileAnswers | ChatModuleDemo/dev/include/google/protobuf/descriptor_database.cc:624-661 | after every AddFile with a valid package, accepted or refused at any point, each file name answers as before but the new one, which answers with the new file unless it was waiting in the tree |
| EncodedRefusals.RefusedAddKeepsAnswersExactly | ChatModuleDemo/dev/include/google/protobuf/descriptor_database.cc:624-661 | a refused AddFile leaves every answer about files, symbols and extensions as it was if and only if the package is invalid, or the name was waiting in the tree, or the name already had the same file |
| EncodedRefusals.RefusedNameAnswers | ChatModuleDemo/dev/include/google/protobuf/descriptor_database.cc:636-643 | after every run of successful adds and a lookup, adding a stored file name again is refused, and the name then answers with the refused file |
| EncodedRefusals.RefusedRun | ChatModuleDemo/dev/include/google/protobuf/descriptor_database.cc:636-643 | such a run from the empty index: any name, added, looked up, and added again with any other file |
| EncodedIndex.DescriptorIndex.AddFile | ChatModuleDemo/dev/include/google/protobuf/descriptor_database.cc:624-661 | the method performs the operations of the file in the order of its loops, stopping at the first refusal; EncodedContents.FileOpsAre states them |
| EncodedIndex.DescriptorIndex.AddSymbol | ChatModuleDemo/dev/include/google/protobuf/descriptor_database.cc:691-729 | checks tree and flat vector for parents and children, then inserts into the tree |
| EncodedIndex.DescriptorIndex.AddExtension | ChatModuleDemo/dev/include/google/protobuf/descriptor_database.cc:743-768 | inserts a fully-qualified extension unless the flat vector has it; ignores others |
| EncodedIndex.DescriptorIndex.EnsureFlat | ChatModuleDemo/dev/include/google/protobuf/descriptor_database.cc:813-819 | drains all three trees into the flat vectors |
| EncodedIndex.DescriptorIndex.FindSymbol | ChatModuleDemo/dev/include/google/protobuf/descriptor_database.cc:771-787 | flattens, then searches the flat vector |
| MergedDatabase.MergedDescriptorDatabase.FindFileByName | ChatModuleDemo/dev/include/google/protobuf/descriptor_database.cc:953-961 | the first source that knows the name answers |
| MergedDatabase.MergedDescriptorDatabase.FindFileContaining | ChatModuleDemo/dev/include/google/protobuf/descriptor_database.cc:963-1005 | answers with the first match unless an earlier source has a file of that name |
| MergedDatabase.MergedIsConsistent | ChatModuleDemo/dev/include/google/protobuf/descriptor_database.cc:953-982 | over self-consistent sources a file found by content is the file found by its name, so merged databases can be merged again |
| MergedDatabase.NothingIffMasked | ChatModuleDemo/dev/include/google/protobuf/descriptor_database.cc:963-982 | nothing is found exactly when no source matches or an earlier source has another file of the matching file's name |
| MessageLayout.RegionsDisjoint | ChatModuleDemo/dev/include/google/protobuf/dynamic_message.cc:730-810 | for every field list, header, has-bit words, oneof cases, extension set, fields and real oneof slots are pairwise disjoint |
| MessageLayout.RegionInside | ChatModuleDemo/dev/include/google/protobuf/dynamic_message.cc:730-810 | each of them lies inside the computed size and is aligned to the smaller of 8 and its size |
| MessageLayout.HasBitsFit | ChatModuleDemo/dev/include/google/protobuf/dynamic_message.cc:741-764 | every has-bit index is below 32 times the number of words |
| MessageLayout.HasBitsDistinct | ChatModuleDemo/dev/include/google/protobuf/dynamic_message.cc:741-759 | no two fields share a has-bit |
| MessageLayout.SlotIndexInRange | ChatModuleDemo/dev/include/google/protobuf/dynamic_message.cc:794-801 | field_count() + i stays inside the offsets array because synthetic oneofs come last |
| MessageLayout.FinalSizeAligned | ChatModuleDemo/dev/include/google/protobuf/dynamic_message.cc:782-807 | for every message type the final size is a multiple of 8 if and only if there is a real oneof or the fields, packed from a boundary, end on one |
| MessageLayout.FinalSizeUnaligned | ChatModuleDemo/dev/include/google/protobuf/dynamic_message.cc:805-807 | the case where the comment on the final size fails is reachable: a message whose only field is a bool |
| MessagePacking.TrackedCounted | ChatModuleDemo/dev/include/google/protobuf/dynamic_message.cc:116-130 | the fields with a has-bit are those written optional or required that are not weak |
| MessagePacking.HasBitIndices | ChatModuleDemo/dev/include/google/protobuf/dynamic_message.cc:741-759 | the has-bit index of such a field is the number of them in front of it; every other field has all bits set |
| MessagePacking.PartsPresent | ChatModuleDemo/dev/include/google/protobuf/dynamic_message.cc:741-801 | which parts a message has, read off its fields, oneofs and extension ranges |
| MessagePacking.HasBitsAreLeast | ChatModuleDemo/dev/include/google/protobuf/dynamic_message.cc:761-764 | the has-bits take the least number of 32-bit words |
| MessagePacking.PartSizes | ChatModuleDemo/dev/include/google/protobuf/dynamic_message.cc:137-207 | how large each part is: a map field has the size of a map field, a repeated message or string that of a repeated pointer field, a singular field its own |
| MessagePacking.RegionsPacked | ChatModuleDemo/dev/include/google/protobuf/dynamic_message.cc:730-801 | the layout is tight: each part starts less than its alignment behind the one before it |
| MessagePacking.SizeIsTight | ChatModuleDemo/dev/include/google/protobuf/dynamic_message.cc:805-807 | and the message ends where its last part does |
| MessageLayout.FieldSpaceUsed | ChatModuleDemo/dev/include/google/protobuf/dynamic_message.cc:137-207 | no field has size zero, so that rounding to its size is defined |
| MessageLayout.AssignHasBits | ChatModuleDemo/dev/include/google/protobuf/dynamic_message.cc:741-759 | indices count up over the fields that need one, all others are -1, and there is no array when none does |
| MessageLayout.PlaceFields | ChatModuleDemo/dev/include/google/protobuf/dynamic_message.cc:782-792 | each field outside real oneofs gets its aligned start after the one before |
| MessageLayout.PlaceOneofs | ChatModuleDemo/dev/include/google/protobuf/dynamic_message.cc:794-801 | each real oneof gets its aligned slot; field offsets stay |
| MessageLayout.InvalidateOneofFields | ChatModuleDemo/dev/include/google/protobuf/dynamic_message.cc:813-828 | exactly the fields of real oneofs get the invalid tag |
| MessageLayout.ComputeLayout | ChatModuleDemo/dev/include/google/protobuf/dynamic_message.cc:723-828 | the whole computation: size, all offsets and all has-bit indices |
| PrototypeFactory.DynamicMessageFactory.GetPrototype | ChatModuleDemo/dev/include/google/protobuf/dynamic_message.cc:691-694 | ends on every finite type graph, cycles included, and leaves exactly the types reachable from the one asked for added, each with one prototype; exactly the message fields outside the user's oneofs that are maps, or singular and not weak, are linked, each to the prototype of its type; earlier prototypes stay |
| PrototypeFactory.TestsAreExact | ChatModuleDemo/dev/include/google/protobuf/dynamic_message.cc:631-633 | the tests in the code pick exactly these fields |
| PrototypeFactory.LinkedExactly | ChatModuleDemo/dev/include/google/protobuf/dynamic_message.cc:624-646 | when all recorded types are complete, the links are exactly those of their fields, and each names the right prototype |
| PrototypeFactory.DynamicMessageFactory.GetPrototypeNoLock | ChatModuleDemo/dev/include/google/protobuf/dynamic_message.cc:696-857 | also when called again in the middle of building: never a null prototype, new types complete and reachable, old types untouched; the measure is the number of types without an entry |
| PrototypeFactory.DynamicMessageFactory.SharedCtor | ChatModuleDemo/dev/include/google/protobuf/dynamic_message.cc:378-498 | of the fields the constructor sets up, every map field outside a oneof ends up linked to the prototype of its entry type |
| PrototypeFactory.DynamicMessageFactory.CrossLinkPrototypes | ChatModuleDemo/dev/include/google/protobuf/dynamic_message.cc:624-646 | every singular message field that is neither weak nor in a real oneof ends up linked, the other links stay |
| PrototypeFactory.BothPhases | ChatModuleDemo/dev/include/google/protobuf/dynamic_message.cc:345-356 | the two phases together link everything, for a type whose prototype was set before either |
| PrototypeFactory.BuiltIsReachable | ChatModuleDemo/dev/include/google/protobuf/dynamic_message.cc:696-857 | a call from outside adds exactly the reachable types |
| Wire.ParseVarint | ChatModuleDemo/dev/include/google/protobuf/parse_context.cc:320-361 | adding each byte less one, shifted, in 64 or 32 bits computes the base-128 value modulo that width, and fails exactly when the number is too long or cut off |
| Wire.Base128Split | ChatModuleDemo/dev/include/google/protobuf/parse_context.cc:339-350 | past continuation bytes the rest is the number that starts there |
| Wire.ReadBack | ChatModuleDemo/dev/include/google/protobuf/parse_context.h:526-565 | what is written as a 64-bit varint, tag or size is read back, whatever follows |
| Wire.ParseSize | ChatModuleDemo/dev/include/google/protobuf/parse_context.h:620-630 | reading a size computes the base-128 value of at most five bytes, with the 32-bit running sum and the test on the fifth byte, and fails exactly when the value is within 16 of INT_MAX or above, or is cut off or too long |
| Wire.ReadSize | ChatModuleDemo/dev/include/google/protobuf/parse_context.cc:363-380 | a size is never within 16 of INT_MAX |
| Wire.VarintSizeExact | ChatModuleDemo/dev/include/google/protobuf/io/coded_stream.h:1682-1712 | the multiply-and-shift formula is the number of bytes of the encoding, for every 64-bit value |
| Wire.FixedReadBack | ChatModuleDemo/dev/include/google/protobuf/parse_context.h:808-836 | fixed-width numbers are read back |
| WireMeaning.NumbersMean | ChatModuleDemo/dev/include/google/protobuf/parse_context.h:526-630 | a number is bytes with the high bit set and one without, seven bits each, least significant first: at most ten bytes for 64 bits, five for a tag or size; more is refused, excess bits are cut off, sizes next to INT_MAX are refused |
| WireMeaning.CutOffRefused | ChatModuleDemo/dev/include/google/protobuf/parse_context.h:526-630 | bytes that end inside a number are refused |
| WireMeaning.UnknownBytes | ChatModuleDemo/dev/include/google/protobuf/wire_format.cc:192-264 | what unknown fields look like: number times 8 plus 0, 1, 2, 5 in front of a varint, eight bytes, a counted string, four bytes, and 3 and 4 around a group |
| WireMeaning.BadTagsRefused | ChatModuleDemo/dev/include/google/protobuf/parse_context.h:793-840 | field number 0, a stray end of group and wire types 6 and 7 are refused |
| WireMeaning.WrongEndRefused | ChatModuleDemo/dev/include/google/protobuf/parse_context.h:413-422 | a group that ends with the number of another is refused |
| WireMeaning.DeepGroupsRefused | ChatModuleDemo/dev/include/google/protobuf/parse_context.h:413-422 | a hundred groups inside a group are one too many |
| UnknownFields.FieldReadBack | ChatModuleDemo/dev/include/google/protobuf/parse_context.h:793-840 | every well-formed unknown field, nested groups included, is read back from what it is written as |
| UnknownFields.GroupReadBack | ChatModuleDemo/dev/include/google/protobuf/parse_context.h:413-422 | a group is read back up to its own end tag, within the recursion limit |
| UnknownFields.ReadIsWellFormed | ChatModuleDemo/dev/include/google/protobuf/parse_context.h:793-840 | everything read is within the ranges, sizes and depth that can be written and read again |
| UnknownFields.FieldStable | ChatModuleDemo/dev/include/google/protobuf/parse_context.h:793-840 | bytes behind a field do not change how it is read |
| UnknownFields.FieldsSizeExact | ChatModuleDemo/dev/include/google/protobuf/wire_format.cc:266-306 | ComputeUnknownFieldsSize is the number of bytes written, however deeply groups are nested |
| AuthCodec.DeltasAppend | ChatModuleDemo/protoFiles/AuthProtocolMessages.pb.cc:370-432 | reading two complete inputs one after the other reads the fields of both |
| AuthCodec.ApplyAllIsMerge | ChatModuleDemo/protoFiles/AuthProtocolMessages.pb.cc:541-561 | applying fields to a message is merging the message they alone make |
| AuthCodec.ConcatenationIsMerge | ChatModuleDemo/protoFiles/AuthProtocolMessages.pb.cc:541-561 | parsing a concatenation gives the merge of the two parses: fields, has-bits, unknown fields in order |
| AuthCodec.ParsedIsSane | ChatModuleDemo/protoFiles/AuthProtocolMessages.pb.cc:914-965 | whatever was parsed has values in range and no unknown field that reading again would take for a known one |
| AuthCodec.RoundTrip | ChatModuleDemo/protoFiles/AuthProtocolMessages.pb.cc:1769-1848 | a message in range with unknown fields such as a parse leaves is restored by parsing its serialization |
| AuthCodec.RoundTripExactly | ChatModuleDemo/protoFiles/AuthProtocolMessages.pb.cc:1769-1848 | and no other message is |
| AuthCodec.ReparseIsStable | ChatModuleDemo/protoFiles/AuthProtocolMessages.pb.cc:1769-1848 | for every input that parses, writing the message and parsing again gives the same message, invalid enum values among the unknown fields included |
| AuthCodec.ProtocolSchemas | ChatModuleDemo/protoFiles/AuthProtocolMessages.proto:5-57 | the six field tables fit the template: one-byte tags, enum values in range |
| WireMeaning.KnownFieldBytes | ChatModuleDemo/protoFiles/AuthProtocolMessages.pb.cc:434-473 | a known field is one tag byte, number times 8 and plus 2 for a string, and its value |
| WireMeaning.NumberForField | ChatModuleDemo/protoFiles/AuthProtocolMessages.pb.cc:925-944 | what a number does to each kind of field: sets an integer; sets an enum to its low 32 bits when they are one of its values, and else is kept whole as unknown; is kept as unknown for a string |
| WireMeaning.TextForField | ChatModuleDemo/protoFiles/AuthProtocolMessages.pb.cc:384-402 | what a string does to each kind of field: sets a string, is kept as unknown otherwise |
| WireMeaning.OtherFieldsKept | ChatModuleDemo/protoFiles/AuthProtocolMessages.pb.cc:405-420 | fields whose number is not in the table, or with another wire type, are kept as they are |
| WireMeaning.MessageBytes | ChatModuleDemo/protoFiles/AuthProtocolMessages.pb.cc:434-473 | the bytes of each of the six messages with all fields set |
| AuthMessages.SizeExact | ChatModuleDemo/protoFiles/AuthProtocolMessages.pb.cc:500-525 | required, optional and unknown parts add up to the bytes written, for every message whose numbers fit their C++ types, whatever its unknown fields are |
| AuthMessages.SaneIsInTypes | ChatModuleDemo/protoFiles/AuthProtocolMessages.pb.cc:914-965 | every message the round trip is about is such a message |
| AuthMessages.AuthMessage.InternalParse | ChatModuleDemo/protoFiles/AuthProtocolMessages.pb.cc:370-432 | the loop succeeds exactly when the bytes are a whole sequence of fields, and then has applied them in order |
| AuthMessages.AuthMessage.ParseKnown | ChatModuleDemo/protoFiles/AuthProtocolMessages.pb.cc:925-944 | one known field: integer, string, or enum with the invalid value kept whole |
| AuthMessages.AuthMessage.InternalSerialize | ChatModuleDemo/protoFiles/AuthProtocolMessages.pb.cc:434-473 | writes the set fields in order of number, then the unknown fields |
| AuthMessages.AuthMessage.ByteSizeLong | ChatModuleDemo/protoFiles/AuthProtocolMessages.pb.cc:500-525 | is the number of bytes InternalSerialize emits, on the all-required fast path as on the fallback |
| AuthMessages.AuthMessage.RequiredFieldsByteSizeFallback | ChatModuleDemo/protoFiles/AuthProtocolMessages.pb.cc:475-499 | the sum over the required fields that are set |
| AuthMessages.AuthMessage.MergeFrom | ChatModuleDemo/protoFiles/AuthProtocolMessages.pb.cc:541-561 | copies the fields set in the other message and appends its unknown fields |
| AuthMessages.AuthMessage.IsInitialized | ChatModuleDemo/protoFiles/AuthProtocolMessages.pb.cc:570-573 | holds exactly when every required field is set |
| ChatBuffer.MostSignificantFirst | ChatModuleDemo/TCPServer/cBuffer.cpp:60-74 | numbers are written most significant byte first |
| ChatBuffer.FrameParts | ChatModuleDemo/TCPServer/cNetworkManager.cpp:8-24 | the big-endian reads give back type, length and text; the stated size is four more than the bytes written |
| ChatBuffer.Buffer.WriteMessage | ChatModuleDemo/TCPServer/cNetworkManager.cpp:8-24 | puts exactly the packet into the buffer at the write index and states the text length plus 12 |
| ChatBuffer.Buffer.ReadMessage | ChatModuleDemo/TCPServer/cNetworkManager.cpp:259-271 | the reads of the receiver recover the text |
| ChatBuffer.Buffer.ReadUInt16BE | ChatModuleDemo/TCPServer/cBuffer.cpp:19-27 | the two bytes at the read index, most significant first |
| ChatBuffer.Buffer.ReadUInt32BE | ChatModuleDemo/TCPServer/cBuffer.cpp:31-41 | the four bytes at the read index, most significant first |
| ChatBuffer.Buffer.ReadString | ChatModuleDemo/TCPServer/cBuffer.cpp:46-56 | the bytes at the read index |
| ChatBuffer.Buffer.WriteUInt16BE | ChatModuleDemo/TCPServer/cBuffer.cpp:60-64 | overwrites two bytes and nothing else |
| ChatBuffer.Buffer.WriteUInt32BE | ChatModuleDemo/TCPServer/cBuffer.cpp:68-74 | overwrites four bytes and nothing else |
| ChatBuffer.Buffer.WriteString | ChatModuleDemo/TCPServer/cBuffer.cpp:78-86 | overwrites as many bytes as the string has and nothing else |
| ChatBuffer.Buffer.ClearBuffer | ChatModuleDemo/TCPServer/cBuffer.cpp:96-102 | 512 zero bytes and both indices at the start |
| ChatRooms.HandleKeepsConsistent | ChatModuleDemo/TCPServer/cNetworkManager.cpp:284-380 | from agreement between clientRooms and the rooms, a message leads to agreement if and only if it is no second join and no chat outside a room |
| ChatRooms.EveryRunIsConsistent | ChatModuleDemo/TCPServer/cNetworkManager.cpp:284-380 | over every run that keeps to this, clientRooms maps s to r exactly when s is in room r, where it occurs once |
| ChatHistory.NamesAreLast | ChatModuleDemo/TCPServer/cNetworkManager.cpp:276-282 | over every run, whatever the messages, the server knows each client by the name it gave last |
| ChatHistory.RoomsAreLast | ChatModuleDemo/TCPServer/cNetworkManager.cpp:284-380 | over every run that keeps to the rules a client is in the room it joined last, unless it left since |
| ChatHistory.MembersJoinedLast | ChatModuleDemo/TCPServer/cNetworkManager.cpp:284-380 | and is a member of that room alone |
| ChatHistory.MembersInOrder | ChatModuleDemo/TCPServer/cNetworkManager.cpp:284-380 | members are listed in the order in which they joined |
| ChatClients.ServerUnderstands | ChatModuleDemo/TCPServer/cNetworkManager.cpp:274-284 | what the six characters in front of a message make of it |
| ChatClients.KeysAreCommands | ChatModuleDemo/TCPClient/cUserInterface.cpp:98-168 | a key that sends something sends the command it stands for |
| ChatClients.UserInterface.CheckUserInput | ChatModuleDemo/TCPClient/cUserInterface.cpp:73-170 | the method computes the message and the flags for each key |
| ChatClients.UserInterface.PrintReceivedMessage | ChatModuleDemo/TCPClient/cUserInterface.cpp:182-212 | the method shows a text and sets the flags |
| ChatClients.ReadyUnderstood | ChatModuleDemo/TCPClient/cUserInterface.cpp:187-195 | the confirmation of a join lets the user chat and names user and room |
| ChatClients.NewsUnderstood | ChatModuleDemo/TCPClient/cUserInterface.cpp:204-212 | news of others are shown and change nothing |
| ChatClients.OwnWordsUnderstood | ChatModuleDemo/TCPClient/cUserInterface.cpp:208-212 | a client's own words come back with YOU in front, whatever they are |
| ChatClients.LeftUnderstood | ChatModuleDemo/TCPClient/cUserInterface.cpp:196-203 | the confirmation of an exit ends chat and membership at the client |
| ChatSystem.PatienceIsEnough | ChatModuleDemo/TCPClient/cUserInterface.cpp:73-212 | over every run of any number of clients and the server, with messages under way both ways: if no user chats or leaves again while waiting to be told of an exit, rooms and notes agree at all times, and client and server agree once nothing is under way |
| ChatSystem.ServedIsDisciplined | ChatModuleDemo/TCPClient/cUserInterface.cpp:73-212 | then the server serves a run that keeps to its rules |
| ChatSystem.HarmlessIffPatient | ChatModuleDemo/TCPClient/cUserInterface.cpp:131-168 | and nothing less will do: from every state such users lead to, a step leaves all continuations by patient users in agreement if and only if it is itself patient; a chat or a second exit while waiting leads to disagreement |
| ChatRooms.ChatReachesTheRoom | ChatModuleDemo/TCPServer/cNetworkManager.cpp:323-354 | a chat text goes once to each member of the sender's room and to nobody else; the sender alone gets the YOU form |
| ChatRooms.JoinTellsTheOthers | ChatModuleDemo/TCPServer/cNetworkManager.cpp:284-321 | a join is confirmed to the newcomer and told once to each of those already there |
| ChatRooms.ExitTellsTheOthers | ChatModuleDemo/TCPServer/cNetworkManager.cpp:356-380 | an exit is confirmed to the leaver and told once to each of those who stay |
| ChatServers.Decode | ChatModuleDemo/TCPServer/cBuffer.cpp:31-56 | reading what was sent gives the text that was composed |
| ChatServers.Server.SendMessageToClient | ChatModuleDemo/TCPServer/cNetworkManager.cpp:147-162 | from write index 0 one packet goes out that carries the text, four bytes longer than what was written |
| ChatServers.Server.BroadcastToAll | ChatModuleDemo/TCPServer/cNetworkManager.cpp:400-448 | the texts to the other members, or to all who stay, each in a cleared buffer |
| ChatServers.Server.HandleJoin | ChatModuleDemo/TCPServer/cNetworkManager.cpp:284-321 | the join case: room made if missing, member added, confirmation and broadcast |
| ChatServers.Server.HandleChat | ChatModuleDemo/TCPServer/cNetworkManager.cpp:323-354 | the chat case: one packet per member |
| ChatServers.Server.HandleExit | ChatModuleDemo/TCPServer/cNetworkManager.cpp:356-380 | the exit case: member erased, confirmation and broadcast |
| ChatServers.Server.HandleSocket | ChatModuleDemo/TCPServer/cNetworkManager.cpp:244-387 | one received packet changes names and rooms and sends texts as the command demands; every write starts at index 0 and fits; the buffer is clear afterwards |
| ChatServers.Server.LoopThroughClientList | ChatModuleDemo/TCPServer/cNetworkManager.cpp:234-391 | a pass over all sockets handles the waiting packets in order, with all their effects and sends |
| ChatServers.Server.RemoveClientFromList | ChatModuleDemo/TCPServer/cNetworkManager.cpp:221-225 | erases every occurrence of the socket and nothing else |

## Left out

- 64-bit wrap-around of sizes in the allocator, and 32-bit wrap-around of message sizes: sizes are unbounded numbers.
- Lifecycle ids past the last batch of 64 bits: the generator is taken to stop there; and no arena that records allocations takes the very last id, which tagged equals the initial cache value (ArenaProtocol.LastTagLooksSeen).
- The order of memory accesses weaker than sequential consistency, sanitizer hooks, metrics collectors and debug checks of the arena.
- Concurrent Reset or destruction with another thread inside the arena: the interface forbids it, and the state machine allows these steps only when no thread is inside.
- SerialArenaClass.SerialArena.CleanupBlock: the difference of two node pointers is modelled as the floor of the byte difference over 16, where C++ leaves a difference that is no multiple undefined.
- ThreadSafeArena::SpaceUsed; and in ArenaCleanup.Arena.AllocateAligned the choice of the SerialArena, which is a parameter there and the subject of ArenaProtocol.
- SimpleDescriptorDatabase::AddFile, its extension index and all listings (FindAllFileNames, FindAllExtensionNumbers): loops over parts that are modelled.
- Decoding the stored file descriptors of the encoded index: a file is its name and symbols, its content an integer.
- EncodedRefinement.EncodedIndexAnswersAsPlainMaps: symbols are taken to be non-empty, because an entry with an empty symbol breaks the comparator (SymbolOrder.ConfusionBreaksTransitivity); refused adds end a run, because most of them change answers (EncodedRefusals.RefusedAddKeepsAnswersExactly).
- ArenaCleanup.Arena.Reset: the new lifecycle id is the Construct step of ArenaProtocol, not part of the object; cleanups are logged, not executed.
- MessageLayout.FinalSizeAligned: takes the sizes of the runtime's classes to be multiples of 8, as those of classes that hold pointers are.
- MessageLayout.FieldSpaceUsed: one parameter stands for the size of RepeatedField, which is the same for every element type.
- PrototypeFactory.DynamicMessageFactory.SharedCtor: the construction of fields other than map fields.
- Delegation of the message factory to the generated pool, the factory's mutex, message construction outside prototypes, and destructors.
- MessageLayout.ComputeLayout: sizeof of the runtime's classes are parameters.
- AuthCodec.RoundTripExactly: strings and inputs of 2 GB and more; the reader refuses sizes next to INT_MAX.
- AuthMessages.AuthMessage.InternalParse: says nothing about the fields after a failed parse, which callers discard.
- Parsing from chunked streams: the input is one run of bytes, and reading past its end fails at once, not at the next check.
- UTF-8 checks, logging, cached sizes, reflection and accessors of the generated messages.
- Sockets, select and printing of the chat server: a packet arrives whole at the front of the buffer, sending appends to a log and does not fail.
- ChatServers.Server.HandleSocket: packets are well-formed and composed texts are at most 500 bytes, as the code has no check of its own.
- Packets split or joined by TCP, which the server does not reassemble.
- ChatClients.UserInterface.PrintReceivedMessage: of the fixed lines printed on entering and leaving only the one that tells of leaving; the prompts and the console of the client.
- ChatSystem.PatienceIsEnough: connections that are lost or closed; every client stays connected, and each queue keeps its order.
