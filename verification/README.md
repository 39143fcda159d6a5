# Oblivious RAM: a verified model

This project models the four ORAM cores of the repository and proves what they compute.

* **Path ORAM.** A client with a position map and a stash, and a server holding a binary tree of buckets. The client
  methods are proved to perform exactly the transitions of `PathOramModel`; those transitions are proved to refine a
  plain memory over all runs, all leaf draws and all padding, to keep one copy of every live block where the position
  map says, to evict by an exact rule, and to show the server nothing but the leaves accessed and which accesses
  failed; every admissible sequence of leaves arises from equally many draws.
* **Oblivious dictionary.** An AVL tree whose nodes are ORAM blocks linked by id, edited through an LRU cache that is
  written back after every operation. The methods are proved to keep the id-linked store spelling out exactly the tree
  that the functional insertion of `Avl` yields; that insertion is proved to be a balanced search tree with
  first-insert-wins content, one rebalancing at most, and access counts told exactly from the tree before it.
* **Square-root ORAM.** A client and a server that permute in step. Every access is proved to be one step of a memory
  with a single pending block, across any number of reshuffles; the machine itself is compared with a flat memory.
* **Sampling.** Rejection sampling, Fisher-Yates, the swap phase of the random permutation, and `PermuteBy`.
* **Node text.** Printing and parsing a tree node.

How to read it: the classes (`TreeOramServerStorage`, `PathOramController`, `SqrtOramServerStorage`,
`SqrtOramController`, `OdsCache`, `OdictController`) have the source's fields and methods. Each method's contract ties
the new state to a specification function of the old one; the lemmas in `PathOramPlacement`, `PathOramRefinement`,
`PathOramEviction`, `PathOramTranscript`, `PathOramOblivious`, `PathOramFill`, `PathOramInitial`, `SqrtModel`,
`OdsCache`, `Avl`, `PadValue` and `OdictStore` prove what those functions achieve. `dafny verify dfyconfig.toml` checks
everything.

What stands for what:

* A remote call is a method call on the server object. Encryption and compression are the identity.
* Random draws are parameters: `leaf`, `starts` (one leaf per block loaded), `pads`, `permBuf`, `choices`, `raws`. Every
  value of a range is possible (`Sampling.EveryValuePossible`).
* Padding blocks are arbitrary blocks whose type is not kNormal. In the program their type bytes are random too.
* A server string is `Empty` or `Full(block)`. The 512 data bytes of a block are either raw bytes or the memory image of
  a tree node, which is how the dictionary uses them.
* Floating-point logarithms and square roots are the exact integer ceilings.
* The dictionary's backbone is `BackboneOram`, whose accesses are the very `FlatAccess` that Path ORAM is proved to
  refine.

Where the code differs from its comments, or from what a reader may expect, the code is modelled:

* The comments of the write-back loop describe evicting every block whose path intersects the accessed one. The code
  takes a block only if its leaf equals the accessed leaf (core/path_oram_controller.cc:310).
* The comment on the square-root shelter speaks of a cache of recent blocks. Scanning it empties it
  (server/sqrt_oram_storage.cc:101-106) and only the accessed block is written back, so at most one block is ever
  pending and a write is lost if another address is accessed before the next commit. `SqrtModel.LostWriteExample` is such
  a run, `SqrtModel.LostWrite` and `SqrtModel.StepAgainstFlatMemory` say exactly when it happens, and
  `SqrtModel.FlatIffDisciplined` gives the rule a caller has to follow.
* An access to an absent address reads a path and returns without writing it back
  (core/path_oram_controller.cc:414-419). The path's blocks stay in the stash and its buckets stay empty until a later
  access writes them, so the server can tell failed accesses, and the paths they drained, from others
  (`PathOramTranscript.AbsentAccess`, `PathOramTranscript.AnyRunTranscript`).
* The initial leaf of a block is drawn among the leaves below the bucket it was loaded into
  (core/path_oram_controller.cc:176-192), so it is uniform over all leaves only for the root bucket
  (`PathOramInitial.UniformIffRoot`): the first access to a block shows which part of the tree its place in the loaded
  data put it in. `PathOramInitial.FirstLeavesDiffer` is an input; `PathOramInitial.ViewsFromTheFill` is the distribution
  of a view from the fill on, and `PathOramOblivious.EveryViewEquallyLikely` the one given the initial positions.
* The pad value of the dictionary, ceil(4.32 ln x) for x nodes, does not cover every operation. `Avl.PadCovers` gives the
  exact condition on the tree and the key, and `OdictController.Insert` requires just that. The pad value covers every
  find and, from the sixth on, every insertion (`PadValue.PadCoversFind`, `PadValue.PadCoversInsert`); among the first
  five it can fall short, at the third and at the fifth for instance (`PadValue.ThirdInsertExceedsPad`,
  `PadValue.FifthInsertExceedsPad`).
* Padding does not make the operations of the dictionary look alike. Counted reads include those the cache answers, and
  the drain is not counted, so the number of ORAM accesses tells the depth of a find and whether an insertion rotated
  (`OdictStore.FindsAlike`, `OdictStore.InsertLength`).
* The request check of the square-root server lets impossible reads through (server/sqrt_oram_storage.cc:27-40);
  `SqrtStorage.SqrtOramServerStorage.CheckIsTooWide` says which. No such request is ever made:
  `SqrtOramController.Valid` keeps every position below m + sqrt(m) and `nextDummy` below sqrt(m).

## Model

| member | source | states |
|---|---|---|
| Geometry.TreeHoldsAllBlocks | core/path_oram_controller.cc:45-55 | The tree the constructor sizes has at least block_num slots. |
| Geometry.TreeIsLeast | core/path_oram_controller.cc:45-55 | It is the least such tree: one level less would not hold them. |
| Geometry.ServerLevelAgrees | server/tree_oram_storage.cc:33 | The level the server computes from the client's leaf count 2^L is again L. |
| Geometry.OffsetInRange | server/tree_oram_storage.cc:52-56 | Every valid leaf passes through an existing bucket at every level, so no path read or write misses. |
| Geometry.LeafRange | core/path_oram_controller.cc:172-192 | The leaves drawn for initial bucket (i, j) are exactly those whose path goes through it, and all are valid leaves. |
| OramDefs.PadStash | base/oram_utils.cc:105-120 | A bucket grows to the bucket size by padding only; what was in it stays in front. |
| TreeStorage.TreeOramServerStorage.constructor | server/tree_oram_storage.cc:26-47 | Exactly the buckets of a complete tree exist, all empty. |
| TreeStorage.TreeOramServerStorage.ReadPath | server/tree_oram_storage.cc:49-86 | The bucket on the path is handed out in order and every entry of it is cleared; other buckets stay; a missing bucket is reported. |
| TreeStorage.TreeOramServerStorage.WritePath | server/tree_oram_storage.cc:88-93 | The bucket on the path is replaced as a whole; other buckets stay. |
| TreeStorage.TreeOramServerStorage.AccurateWritePath | server/tree_oram_storage.cc:95-146 | Initial writes append to the addressed bucket, ordinary writes replace it, a missing bucket is reported. |
| PathOramController.PathOramController.constructor | core/path_oram_controller.cc:45-61 | The tree is the least that holds the block count in buckets of the given size; the leaf count is its last level; an empty client. |
| PathOramController.PathOramController.InitOram | core/path_oram_controller.cc:120-137 | Client and server agree on the tree. |
| PathOramController.PathOramController.FillWithData | core/path_oram_controller.cc:159-214 | The fill establishes the placement invariant for exactly the normal blocks that fit, each bucket holding its share of the data from the deepest level up, left to right, and being full; the position of every loaded block is the leaf drawn for it, and only loaded blocks have one. |
| PathOramFill.LoadedExactly | core/path_oram_controller.cc:183-199 | With distinct ids the loaded memory holds precisely the normal blocks of the data. |
| PathOramController.PathOramController.ReadBucket | core/path_oram_controller.cc:216-260 | Invalid paths and levels are rejected without effect; otherwise one server read, counted. |
| PathOramController.PathOramController.WriteBucket | core/path_oram_controller.cc:262-300 | One server write, counted; it always finds its bucket. |
| PathOramController.PathOramController.FindSubsetOf | core/path_oram_controller.cc:302-324 | The in-place walk takes exactly the first Z stash blocks mapped to the path and keeps the others in order. |
| PathOramController.PathOramController.InternalAccessDirect | core/path_oram_controller.cc:364-466 | The whole access performs the model transition; `AccessFrame`, `NotFoundExit`, `InvalidLeafExit`, `AnyAccessTranscript` and `EvictionClosedForm` say what each of its exits amounts to. |
| PathOramController.PathOramController.InternalAccess | core/path_oram_controller.cc:330-362 | Refused before initialisation, with nothing touched; otherwise remapping and accessing the old path keeps the invariant and answers like the flat memory. |
| PathOramController.PathOramController.Access | core/oram_controller.h:71-77 | The public access: refused before initialisation, with nothing touched; otherwise the flat memory's answer and update. |
| PathOramController.PathOramController.AccessDirect | core/path_oram_controller.h:77-83 | Refused before initialisation; otherwise access along a leaf named by the caller keeps the invariant and reaches a block exactly when it is visible from that leaf. |
| PathOramPlacement.PullPath | core/path_oram_controller.cc:372-405 | Reading levels 0..n-1 of a path appends exactly their normal blocks to the stash, root first, and keeps the placement invariant at every n. |
| PathOramPlacement.WriteInStash | core/path_oram_controller.cc:425-428 | Updating a stash block is updating its cell of the memory; placement is kept. |
| PathOramPlacement.RemoveFromStash | core/path_oram_controller.cc:432-436 | Erasing a stash block and its position removes exactly that address from the memory; placement is kept. |
| PathOramPlacement.RefillPath | core/path_oram_controller.cc:450-463 | Writing levels L..lo back keeps the placement invariant at every lo. |
| PathOramRefinement.AccessKeeps | core/path_oram_controller.cc:330-466 | One access with any leaf draw: status and data of the flat memory, invariant kept. |
| PathOramRefinement.AccessDirectKeeps | core/path_oram_controller.cc:364-466 | Any leaf at all: the invariant is kept, and the outcome is the flat memory's exactly when the block is visible. |
| PathOramRefinement.RunRefinesMemory | core/path_oram_controller.cc:330-466 | Every run of reads, writes and read-and-removes with every choice of leaves gives the answers of a plain map; kObjectNotFound exactly for absent addresses. |
| PathOramEviction.EvictionClosedForm | core/path_oram_controller.cc:450-463 | The blocks written, from leaf level to root, are the first min(c, Z(L+1)) stash blocks mapped to the leaf, in stash order; the rest of the stash keeps its order. |
| PathOramEviction.AccessEviction | core/path_oram_controller.cc:354-463 | The same for an access that has just remapped its block. |
| PathOramEviction.PathHoldsOnlyItsLeaf | core/path_oram_controller.cc:310 | After a successful access every normal block on the path is mapped to that very leaf. |
| PathOramTranscript.AccessTranscript | core/path_oram_controller.cc:216-300 | In a full tree a successful access shows the server reads of levels 0..L and writes of levels L..0 of one path, Z blocks each, and adds 2Z(L+1) to the traffic; buckets are full again. |
| PathOramTranscript.AnyAccessTranscript | core/path_oram_controller.cc:364-466 | Any access of a valid leaf, found or not: one path read, buckets drained earlier yielding nothing, and written back exactly when the block was found; traffic counts just these blocks; a failed access drains its path, a successful one fills it. |
| PathOramTranscript.NotFoundExit | core/path_oram_controller.cc:407-419 | A failed access has moved the normal blocks of its path to the stash, root first, leaves every bucket on it empty, and changes no position. |
| PathOramTranscript.AbsentAccess | core/path_oram_controller.cc:330-419 | An access to an absent address: kObjectNotFound, Z(L+1) blocks read, nothing written, the path in the stash, its buckets empty, all other buckets as before, the address mapped to the fresh leaf. |
| PathOramTranscript.AccessFrame | core/path_oram_controller.cc:364-466 | No access touches a bucket off its path; the fullest stash is recorded exactly when the access succeeds. |
| PathOramTranscript.InvalidLeafExit | core/path_oram_controller.cc:219-227 | A leaf beyond the tree is refused and nothing has changed. |
| PathOramTranscript.RunTranscript | core/path_oram_controller.cc:364-466 | Over a run of successful accesses the server's view is determined by the leaves alone and the traffic grows by a fixed amount per access. |
| PathOramTranscript.AnyRunTranscript | core/path_oram_controller.cc:330-466 | Over any run, failed accesses included, the server's view and the traffic are a function of the leaves and of which accesses failed. |
| PathOramTranscript.SameLeavesSameView | core/path_oram_controller.cc:364-466 | Two runs over the same leaves, failing at the same accesses, look the same to the server whatever their operations, addresses and data. |
| PathOramOblivious.ViewFromDraws | core/path_oram_controller.cc:347-362 | The leaves of a run are a given view exactly when first accesses show the initial positions and every other access shows the draw of the previous access to its block. |
| PathOramOblivious.EveryViewEquallyLikely | core/path_oram_controller.cc:347-362 | Every admissible view comes from the same number of draw vectors, leaves^(blocks accessed), and every other view from none; so the leaves of repeated accesses are uniform and independent of operations, addresses and data. |
| PathOramOblivious.AllDrawsCount | base/oram_crypto.cc:252-278 | There are leaves^(requests) draw vectors in all, the denominator of that distribution. |
| PathOramInitial.LoadedBelowItsBucket | core/path_oram_controller.cc:176-196 | After the fill every normal block lies in the bucket whose share of the data holds it, and is mapped to a leaf below that bucket. |
| PathOramInitial.UniformIffRoot | core/path_oram_controller.cc:176-192 | The leaves drawn for an initial bucket are all leaves if and only if it is the root. |
| PathOramInitial.OwnStart | core/path_oram_controller.cc:176-196 | Whatever the fill drew is one of the starts counted: one leaf below its bucket for each block. |
| PathOramInitial.FillReaches | core/path_oram_controller.cc:159-214 | Every start counted is reached: a fill that draws those leaves ends in exactly that position map, each block in the bucket its place in the data gives. |
| PathOramInitial.HomesByOrder | core/path_oram_controller.cc:168-196 | The bucket of the k-th block is the one filled as number k / Z, leaves first, left to right, then the levels above. |
| PathOramInitial.ViewFollowsPositions | core/path_oram_controller.cc:347-362 | What a run shows depends on the state after the fill through its positions alone, so a tape stands for its fill. |
| PathOramInitial.ViewsFromTheFill | core/path_oram_controller.cc:159-362 | Counting the draws of the fill with those of the accesses: every admissible view comes from equally many tapes, every other from none; a view is admissible if each first access shows a leaf below the bucket its block was loaded into. |
| PathOramInitial.TapesInAll | core/path_oram_controller.cc:159-362 | The number of all tapes, the denominator of that distribution. |
| PathOramInitial.FirstLeavesDiffer | core/path_oram_controller.cc:176-192 | Three blocks in three one-block buckets: a first access to the first and one to the second never show the same leaf. |
| PathOramInitial.LoadThreeBlocks | core/path_oram_controller.cc:45-214 | The client reaches that state, for either leaf of the root block. |
| OdsCache.OdsCache.Get | core/ods_cache.cc:27-42 | A hit returns the node and moves its id to the front; a miss changes nothing. |
| OdsCache.OdsCache.Put | core/ods_cache.cc:44-69 | The id comes first; at most the last id falls off, and its node is returned. |
| OdsCache.OdsCache.Pop | core/ods_cache.cc:71-79 | Exactly the most recent entry goes. |
| OdsCache.OdsCache.Front | core/ods_cache.cc:81-86 | The node of the most recent id. |
| OdsCache.OdsCache.Clear | core/ods_cache.cc:22-25 | Both tables are emptied. |
| OdsCache.OrderIsRecentHistory | core/ods_cache.cc:27-69 | After any sequence of puts and gets the recency list is the first max_size distinct ids of the history of puts and hits, most recent first. |
| Avl.InsertBalanced | core/odict_controller.cc:33-163 | Insertion with all four rotation cases keeps every balance factor within one; the height stays or grows by one. |
| Avl.RebalancedIsBalanced | core/odict_controller.cc:33-75 | Rebalancing mends any lean of two between balanced subtrees, including ties below the taller child, which take the single rotation. |
| Avl.InsertContent | core/odict_controller.cc:386-412 | Keys stay in search order, and the content becomes the map in which the first insert of a key wins. |
| Avl.InsertIds | core/odict_controller.cc:386-412 | Each id is reached once; the new id appears exactly when the key is new. |
| Avl.SearchIsLookup | core/odict_controller.cc:370-384 | Searching finds exactly the content. |
| Avl.RebalancesAtMostOnce | core/odict_controller.cc:411 | An insertion rebalances at most once, because the mended subtree regains its height. |
| Avl.InsertCost | core/odict_controller.cc:190-231 | At most h+6 counted reads and h+5 counted writes. |
| Avl.InsertCostExactly | core/odict_controller.cc:190-231 | The counts are the search path plus 3/2 for a single or 6/5 for a double rotation, if one happens. |
| Avl.GrowsExactly | core/odict_controller.cc:386-412 | An insertion makes a balanced tree higher, by one, exactly when the key is new and no node on its search path leans either way. |
| Avl.ForeseenIsMet | core/odict_controller.cc:33-75 | The rebalancing an insertion carries out can be told from the tree before it and the key: at the node that leans towards a child which grows. |
| Avl.PadCovers | core/odict_controller.cc:300-325 | A pad value covers an insertion if and only if it is at least the length of the search path plus 0, 3 or 6 for the rebalancing foreseen. |
| Avl.TouchedCount | core/odict_controller.cc:386-412 | An insertion touches at most h+1 distinct ids. |
| Avl.BalanceStaysOnPath | core/odict_controller.cc:33-75 | Rotations touch only nodes of the search path and the new node. |
| Avl.SizeAtLeastFib | core/odict_controller.cc:33-75 | A tree of height h has at least Fib(h+2)-1 nodes. |
| Avl.CacheSuffices | core/odict_controller.cc:205 | A cache of c nodes suffices for every tree of fewer than Fib(c+2)-1 nodes. |
| Avl.DefaultCacheSuffices | base/oram_config.h:78-79 | The default cache of 32 nodes suffices for the default dictionary size. |
| Avl.DictionaryRun | core/odict_controller.cc:418-445 | Every sequence of inserts and finds answers like a partial map and ends in an AVL tree with unique ids. |
| Avl.RunFitsCache | core/odict_controller.cc:418-445 | From the empty dictionary the cache has room for every operation of a run shorter than Fib(c+2)-1. |
| PadValue.PadCoversFind | core/odict_controller.cc:418-428 | The pad value computed from the node count covers every find in every dictionary. |
| PadValue.PadCoversInsert | core/odict_controller.cc:431-445 | The pad value covers every insertion from the sixth on, whatever the tree and the key. |
| PadValue.ThirdInsertExceedsPad | core/odict_controller.cc:29-31 | Inserting keys 3, 1, 2 takes 8 counted reads and 7 counted writes at the third insertion; ceil(4.32 ln 4) is at most 6. |
| PadValue.FifthInsertExceedsPad | core/odict_controller.cc:29-31 | The bound is sharp: inserting keys 2, 1, 6, 4, 5 takes 9 counted reads at the fifth insertion; ceil(4.32 ln 6) is at most 8. |
| OdictStore.SpellsFrame | core/odict_controller.cc:165-188 | A store that agrees on a tree's ids spells the same tree. |
| OdictController.OdictController.OdsAccessRead | core/odict_controller.cc:190-212 | A read returns the node seen through the cache, fetches it on a miss only, and loses nothing. |
| OdictController.OdictController.OdsAccessWrite | core/odict_controller.cc:214-231 | A write changes exactly that node of what is seen. |
| OdictController.OdictController.OdsAccessRemove | core/odict_controller.cc:233-251 | A cached node is dropped, exactly that one, without an access; any other is read from the ORAM and not kept. |
| OdictController.OdictController.OdsAccessInsert | core/odict_controller.cc:253-260 | An insert adds exactly that node to what is seen. |
| OdictController.OdictController.RightRotate | core/odict_controller.cc:103-127 | The store spells the rotated tree; two reads, two writes; only two nodes change. |
| OdictController.OdictController.LeftRotate | core/odict_controller.cc:77-101 | The mirror image. |
| OdictController.OdictController.LeftRightRotate | core/odict_controller.cc:129-145 | The store spells the doubly rotated tree; five reads, five writes. |
| OdictController.OdictController.RightLeftRotate | core/odict_controller.cc:147-163 | The mirror image. |
| OdictController.OdictController.Balance | core/odict_controller.cc:33-75 | The store spells the rebalanced tree, with the counts of the tilt found. |
| OdictController.OdictController.InternalInsert | core/odict_controller.cc:386-412 | The store spells the tree after insertion, with exact read and write counts; the ORAM is asked for the search path and nothing else; nothing outside the tree and the new node changes. |
| OdictController.OdictController.InternalFind | core/odict_controller.cc:370-384 | The node with the key, or none; nothing changes; exactly the search path is fetched. |
| OdictController.OdictController.DoPad | core/odict_controller.cc:279-293 | The given number of accesses, all to block 0. |
| OdictController.OdictController.Drain | core/odict_controller.cc:306-322 | The loop ends with every cached node written back once, most recent first, and memory showing what was seen. |
| OdictController.OdictController.OdsFinalize | core/odict_controller.cc:295-335 | Pad reads, one write per cached id, pad writes; every block but the padding block 0 holds what was seen. |
| OdictController.OdictController.Find | core/odict_controller.cc:418-428 | The value of the key in the dictionary's content, or none; the tree is kept. The ORAM sees exactly the search path read from the root down, pad reads, the path written from the bottom up, pad writes. |
| OdictController.OdictController.Insert | core/odict_controller.cc:431-445 | The memory spells the tree after insertion, and the content is the first-insert-wins update, for every pad value that `PadCovers` admits. The ORAM sees exactly the search path read, pad reads, each node of the path and the new one written once, pad writes. |
| OdictStore.FindsAlike | core/odict_controller.cc:295-335 | With one pad value, two finds make equally many ORAM accesses if and only if their search depths are equal: the drain adds the depth. |
| OdictStore.InsertLength | core/odict_controller.cc:295-335 | An insertion makes 2 pad accesses, plus one for a new node, minus 5 or 11 for a single or double rotation. |
| SqrtStorage.MergeOne | server/sqrt_oram_storage.cc:52-68 | Merging a shelter with one occupied entry changes exactly the tagged word. |
| SqrtStorage.MergeLast | server/sqrt_oram_storage.cc:52-68 | Merging any shelter: each word takes the last content shelved under its tag and keeps its own if there is none. |
| SqrtStorage.SqrtOramServerStorage.Fill | server/sqrt_oram_storage.cc:122-132 | The first m words are main memory, the others dummies, each with a free shelter entry. |
| SqrtStorage.SqrtOramServerStorage.WriteBlockToShelter | server/sqrt_oram_storage.cc:86-99 | The first free entry takes the block; the others stay. |
| SqrtStorage.SqrtOramServerStorage.ReadBlockFromShelter | server/sqrt_oram_storage.cc:101-106 | Reading an entry frees it. |
| SqrtStorage.SqrtOramServerStorage.ReadBlockFromMain | server/sqrt_oram_storage.cc:108-120 | The word at that index of main memory followed by the dummies. |
| SqrtStorage.SqrtOramServerStorage.DoPermute | server/sqrt_oram_storage.cc:42-84 | The shelter is merged by tag in the old layout, then word i moves to perm[i]; the shelter is free. |
| SqrtStorage.SqrtOramServerStorage.CheckIsTooWide | server/sqrt_oram_storage.cc:27-40 | The request check turns no possible read away, and lets through exactly: any shelter or dummy index out of range, and for main memory the one index past the end. |
| SqrtStorage.SqrtOramServerStorage.ReadSqrtMemory | server/oram_server.cc:154-186 | The request is recorded; it is answered from the shelter, main memory or the dummies, or turned away; only a shelter read changes anything. |
| SqrtStorage.SqrtOramServerStorage.WriteSqrtMemory | server/oram_server.cc:210-215 | The request is recorded and the block goes to the first free shelter entry. |
| SqrtStorage.SqrtOramServerStorage.SqrtPermute | server/oram_server.cc:238-240 | The request is recorded, the shelter merged and the words moved. |
| SqrtOramController.LayoutFollowsPermutation | core/square_root_oram_controller.cc:51-63 | Client and server compose the same permutation: the position map stays a bijection and keeps locating every address. |
| SqrtOramController.SqrtOramController.UpdatePosition | core/square_root_oram_controller.cc:51-63 | Fresh entries take perm[i], existing ones are mapped through perm. |
| SqrtOramController.SortById | core/square_root_oram_controller.cc:102-106 | The same blocks in ascending order of their ids. |
| SqrtOramController.SqrtOramController.FillWithData | core/square_root_oram_controller.cc:84-137 | The memory is the padded data in ascending order of ids; the word of address a lies at the index to which the swaps of the drawn buffer send a, and the position map says so; if the ids number the data, every block is found at its id and padding is invalid blocks. |
| SqrtOramController.SqrtOramController.ReadShelter | core/square_root_oram_controller.cc:139-181 | The scan finds the pending block exactly if it is normal and carries the id, and leaves the shelter empty. |
| SqrtOramController.SqrtOramController.PermuteOnFull | core/square_root_oram_controller.cc:264-292 | Every sqrt(m)-th access commits the pending block and reshuffles; the others only count. |
| SqrtOramController.SqrtOramController.DoPermute | core/square_root_oram_controller.cc:294-319 | The pending block is committed to its address and the layout is kept in step. |
| SqrtOramController.SqrtOramController.InternalAccess | core/square_root_oram_controller.cc:321-456 | One access is one step of the pending-block machine; dummies, shelter entries and tags stay in range; what the server is asked is the shelter scan, one main or dummy read, one shelter write and, after a full period, the permutation drawn, which then remaps every position. |
| SqrtModel.StepAgainstFlatMemory | core/square_root_oram_controller.cc:321-456 | Every proper access returns the logical content, and acts on it like a flat memory if and only if it cannot drop an uncommitted block. |
| SqrtModel.StepRefused | core/square_root_oram_controller.cc:363-430 | Exactly when an access is refused: an address beyond the memory changes nothing, a word under a wrong id costs the pending block. |
| SqrtModel.ReadOnlyRun | core/square_root_oram_controller.cc:432-437 | A read-only run of any length returns the blocks loaded and changes none. |
| SqrtModel.CommitsEveryPeriod | core/square_root_oram_controller.cc:264-288 | The counter counts accesses modulo sqrt(m), and nothing is pending after a commit. |
| SqrtModel.DisciplinedRunIsFlat | core/square_root_oram_controller.cc:321-456 | A run that accesses only the written address until the next commit is a run of a flat memory. |
| SqrtModel.FlatIffDisciplined | core/square_root_oram_controller.cc:321-456 | For runs writing new data, being a flat memory throughout is equivalent to following that rule. |
| SqrtModel.LostWrite | core/square_root_oram_controller.cc:432-446 | Write a, access b, read a: the write is seen if and only if b is a, or the write committed, or it changed nothing. |
| SqrtModel.LostWriteExample | server/sqrt_oram_storage.cc:101-106 | A concrete run that loses a write. |
| SqrtModel.MainReadsOnce | core/square_root_oram_controller.cc:369-418 | From the start of a period, no word of main memory is read twice if and only if the accesses to each address follow one another directly. |
| SqrtOramController.IndexReadTwice | core/square_root_oram_controller.cc:369-418 | The same for the indices the server sees. |
| Sampling.UniformRandom | base/oram_crypto.cc:252-278 | The first accepted raw value, reduced into [min, max]; an empty range is an error. |
| Sampling.QuotaBounds | base/oram_crypto.cc:262-263 | The largest acceptable value is q * range - 1 for the largest q with q * range <= 2^32-1. |
| Sampling.SamplingIsUniform | base/oram_crypto.cc:261-275 | Every output of the range has the same number q of accepted raw values, q being the largest with q * range <= 2^32-1, that is floor((2^32-1)/range); nothing else is output. |
| Sampling.AcceptanceAtLeastHalf | base/oram_crypto.cc:262-273 | At least half of all raw values are accepted, and at most `range` of them rejected. |
| Sampling.RangeVanishes | base/oram_crypto.cc:261 | The 32-bit range is 0 exactly for the full range. |
| Permutations.RandomShuffle | base/oram_crypto.h:80-97 | The in-place loop computes the shuffle of its choices; an empty array is an error. |
| Permutations.ShuffleIsBijection | base/oram_crypto.h:87-94 | For distinct elements, choice vectors and rearrangements correspond one to one. |
| Permutations.ShuffleMoves | base/oram_crypto.h:87-94 | Element by element where the shuffle takes what from; the last position gets the element at the index drawn first. |
| Permutations.SwapPhaseIsPermutation | base/oram_crypto.cc:94-97 | Whatever in-range buffer the cipher produced, the swaps permute their input. |
| Permutations.SwapPhaseMoves | base/oram_crypto.cc:94-97 | Element by element what the swaps do: an index is traced back through the buffer from its last entry to its first. |
| Permutations.SwapPhaseIsBijection | base/oram_crypto.cc:94-97 | Every permutation is a possible outcome; buffers whose entries never point back correspond to permutations one to one. |
| Permutations.SwapPhase | base/oram_crypto.cc:94-97 | The in-place loop computes those swaps. |
| Permutations.PermuteBy | base/oram_utils.h:65-77 | For any in-range indices each element goes where its index says, later ones winning; for a permutation the element at i ends at perm[i]. |
| Permutations.PermuteTwice | base/oram_utils.h:65-77 | Permuting by p and then q is permuting by their composition, which is a permutation and determines the result. |
| NodeText.Split | base/oram_utils.cc:336-346 | The loop yields the fields that repeated getline yields. |
| NodeText.NodeAsText | base/ods_objects.cc:24-37 | The text of a node: id, key, value, child ids and child heights, in that order, joined by underscores. |
| NodeText.NodeAsTextExample | base/ods_objects.cc:24-37 | A concrete node and its text. |
| NodeText.StoulReadsDecimal | base/ods_objects.cc:46-52 | A printed number is read back, cut to 32 bits, and refused beyond 64. |
| NodeText.AcceptedText | base/ods_objects.cc:39-55 | Text is accepted only with seven fields, and each field of the node comes from its own. |
| NodeText.FieldCountOfNode | base/ods_objects.cc:24-43 | A value with k underscores splits into 7+k fields. |
| NodeText.RoundTrip | base/ods_objects.cc:24-55 | Parsing the printed node gives it back if and only if its value has no underscore. |

## Left out

- Partition ORAM (core/partition_oram_controller.cc): evicting a block that was read and removed is a write to an absent address, and its dummy accesses empty server buckets.
- Dummy accesses of Path ORAM: they return after the destructive read without writing the path back.
- PathOramController.PathOramController.FillWithData: one call, with distinct ids among the normal blocks; a second fill appends to buckets that are full, and of two blocks with one id only one would have a position.
- SqrtOramController.SqrtOramController.FillWithData: distinct ids, because the sort's comparison (`<=`) is no ordering on equal ones.
- `FromFile`, which changes the block count after initialisation.
- Linear ORAM and flat storage: a single scan, only easy members.
- Remote call plumbing, service request checks, server errors in the middle of a path, client wiring, configuration, logging and timing.
- Cryptography and compression: foreign calls, taken as identity or as an arbitrary in-range buffer. `SquareRootOramController::WriteBlock` encrypts the caller's block in place; a read's result is the block before that.
- Pointers to nodes, leaked nodes and the byte copy of a node that holds a string object: nodes are values.
- PadValue.IsPadVal: the pad value is ceil(4.32 ln x) over exact reals, with nothing used of e but 2.7182 < e < 2.7183; rounding of the floating-point logarithm is not modelled.
- Overflow of 32-bit counters and of `1 << level`: levels, ids and counters are natural numbers, except in `UniformRandom` and the node text.
- Blanks and signs accepted by `std::stoul`: the printed form never contains them.
- `OdictController::InternalRemove`: a stub in the source.
