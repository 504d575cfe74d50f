# Light-wallet server: cache, reorg poller, detection and private retrieval

A Dafny model of the parts of the server that have to agree with something simpler than themselves.

- **Chain and cache.** Blocks with an ideal (injective) hash, and a cache of block rows, coin rows and
  Money-tree snapshots: the live tree, the tip copy, one snapshot every 1024 blocks and one at the tip.
  `CacheStore` gives each operation as a function on a value; the class `Cache` updates its rows in place
  and is proved equal to it. `CacheSoundness` says exactly when an operation leaves every retained tree
  equal to plain replay of everything indexed; `CacheRetention` says which snapshots are kept, on every run;
  `CacheNullifiers` says when the nullifier rows stay right; `CacheHazards` and `PruneHazard` give a run for
  each way the rows and trees can go wrong. `CacheRows` and `TreeLeaves` say, height by height and leaf by
  leaf, what each operation leaves.
- **Reorg poller.** One poll cycle against a node that may answer differently at every call (`Poller`), what
  the poll does for every combination of answers and how far it goes (`PollerTips`), what holds of the cache
  whatever the node does (`PollerSafety`), and convergence onto a node that stands still
  (`PollerConvergence`). With pruning on: which of the cache operations a poll comes down to, what every
  life of polls, restarts and prunes keeps and how long its trees stay right (`PrunedRuns`, `PrunedLife`),
  and when a reorganisation is too deep to come back from (`DeepReorg`).
- **Serving.** The linked range stream, the clue hints merged into every block on its way into the cache,
  padded ranges, the request limiter and the detection-key pool. `ClueHintPlaces`, `RateLimitExact` and
  `PoolInserts` say exactly where a clue ends, which request is granted and which key is taken.
- **Hints and windows together.** `HintedCache` runs the cache and the hint store side by side and shows
  that no clue is lost over any run. `WindowCache` holds the two window caches, with the read of the end
  hash and the scan of the rows as two moments; `WindowOrder` says which windows they hold; `ClueWindow` and
  `PirWindow` say exactly when a hit is what a fresh load would give, and each derives a stale hit from the
  run in `Refetch`. `PirFetch` follows a block that is fetched limb by limb, every limb from a window looked
  up anew.
- **Detection and retrieval.** Ring-LWE clues over the integers modulo x^n + 1, the slotwise gather
  evaluation, the digest frame in bytes, the client's range check, whole-height truncation, and striped
  batch PIR over 16-bit limbs. `ClueDraws` shows that no ternary polynomial is out of reach of the
  generator, `DigestAccept` that the client accepts frames and nothing else. A homomorphic ciphertext is its
  vector of plaintext slots. `DetectionWalk` puts the recipient's walk over a window and the detection of
  each reply together.

Code that updates things step by step is a class or a method with loops, proved against a function; what the
system promises is then proved about that function. Random generators and remote answers are arbitrary
inputs; clocks are parameters; the block hash is a free term, hence injective.

Where the source and its comments differ, the code is followed:

- the request limiter is described as a sliding window of at most `limit` events; it is a fixed bucket. For
  which limits and windows the description holds is `RateLimit.SlidesExactlyWhen`; a peer that never asks
  for more than the limit at once gets up to one credit less than twice the limit in one window's length
  (`RateLimit.WellSizedBound`, reached by `RateLimit.WellSizedBoundIsReached`), and one that does gets twice
  the limit (`RateLimit.TwiceTheLimitIsReached`);
- the decrypted error is described as centred; it is a difference of centred residues that is not reduced
  again (`Clue.DecryptErrorIsNoiseExactlyWhen`), and for every secret that starts with 1 some ciphertext
  decrypts to its noise less q (`Clue.DecryptErrorOffByQ`);
- the padded range is described as ending at `end.min(tip)`; when fewer than a bucket of blocks precede that
  height it is the first bucket of the chain, which may end after it: exactly when is
  `Ranges.PaddedEndsAtRequestExactlyWhen`, and `Ranges.PaddedEndsPastRequest` is one such range;
- the end-block hash is said to drop a cached window after a reorg. The hash covers neither clues nor
  metadata. A clue that arrives between a rewind and the refetch of the same block is missing from the
  cached detection window (`ClueWindow.StaleClueHit`); metadata is consumed by its first merge, so the
  refetched block has less than the cached retrieval window (`PirWindow.StaleMetadataHit`). A load that
  straddles a reorg is stored under the hash of the other fork (`WindowCache.TornLoadHit`).

Conditions the code does not check, each proved exact: no pruned row under a replay, no coinless overwrite
of a block with coins, no change of block 0 while its snapshot is reused (`CacheSoundness.StepSound`), no
overwrite of a block with nullifiers by one without (`CacheNullifiers.StepNullifiers`). The poller never
meets them with pruning off (`PollerSafety.PollerRunsAreSafe`), given that the node answers a request for
height h with a block of height h. With pruning on, its own backfill of block 0 meets the first one
(`PruneHazard.BackfillAfterPruneExactlyWhen`); it and a rewind are all that can
(`PrunedLife.TreesStayRightExactlyWhen`). A retention window below 10,000 blocks has a second danger: a
reorganisation deeper than it can leave the tip on a removed block, where the poller stays for good
(`DeepReorg.PrunedServerStrands`).

## Model

| member | source | states |
|---|---|---|
| Chain.HashFixesBlock | src/continuity.rs:29-34 | equal hashes mean equal height, parent and served content, hence equal coins |
| Chain.OneHistory | src/continuity.rs:29-34 | two runs of linked blocks that end in one hash agree block for block, back to the start of the shorter |
| Chain.CoinAt | src/cache.rs:394-398 | the coins of a block are those of its outputs, each once: output j of transaction i after the outputs of the i transactions before it |
| Chain.NullifierAt | src/cache.rs:376-381 | the nullifiers of a block, position by position in the same way |
| Chain.BareClearsOnly | src/cache.rs:796-836 | bare content is everything the node serves: only clues and metadata, which the merge adds, are cleared |
| Replay.FlattenScan | src/cache.rs:922-946 | the rows of a coin range scan, joined, are the coins of the range in height order |
| Replay.BetweenLost | src/cache.rs:1288-1379 | a replay over rows of which some were lost is never longer, and strictly shorter once a lost row held a coin |
| CacheStore.Greatest | src/cache.rs:1203-1216 | the greatest snapshot height at or below a height, and none exactly when every snapshot is above |
| CacheObject.Cache.StoreTipTree | src/cache.rs:1101-1149 | tip copy, tip snapshot and live tree move together; the previous tip snapshot goes unless it is a boundary |
| CacheObject.Cache.DeleteSnapshotsAtOrAbove | src/cache.rs:1151-1168 | exactly the snapshots at or above the height go |
| CacheObject.Cache.AppendRowsUpto | src/cache.rs:1345-1350 | the inner walk appends the coins of precisely the scanned rows at or below the boundary |
| CacheObject.Cache.VisitBoundary | src/cache.rs:1341-1356 | one step of the boundary walk leaves the tree at replay up to the boundary, with a snapshot if it is a multiple of 1024 |
| CacheObject.Cache.ReplayFromSeed | src/cache.rs:1328-1373 | the boundary walk terminates with the seed followed by every later coin row and a snapshot at every boundary passed |
| CacheObject.Cache.RebuildTipTree | src/cache.rs:1288-1379 | the walk from the greatest snapshot is the seeded-rebuild function; height 0 of a cache without block 0 only clears the trees |
| CacheObject.Cache.AppendCoinsToTipTree | src/cache.rs:1236-1272 | append to the live tree, rebuilding the parent first on a gap, an overwrite or an unreadable tip tree |
| CacheObject.Cache.InsertCompactBlock | src/cache.rs:353-441 | all rows, the tip and the trees after an insert, at or above the tip or below it; which rows and which leaves is `CacheRows.InsertWritesOne` and `TreeLeaves.InsertedLeaf` |
| CacheObject.Cache.RemoveRows | src/cache.rs:977-1004 | removing rows one height at a time removes exactly those heights from every index, hash index included |
| CacheObject.Cache.RewindToHeight | src/cache.rs:977-1029 | every block above the height goes, the tip moves if the height is cached or 0, the trees are rebuilt |
| CacheObject.Cache.PruneBelowHeight | src/cache.rs:1462-1498 | blocks below the height go, trees and tip stay |
| CacheObject.Cache.PruneWithRetention | src/cache.rs:1506-1520 | prunes everything more than the window below the tip, nothing when the tip is not past the window |
| CacheObject.Cache.LoadOnOpen | src/cache.rs:1076-1099 | a reopened cache has the persisted tip tree live, or marks it failed, and its tip row indexed |
| CacheRows.InsertWritesOne | src/cache.rs:353-424 | an insert writes block, hash, height and tip of its block and no row of another height; a block below the tip leaves the tip |
| CacheRows.RewindKeepsUpto | src/cache.rs:977-1012 | a rewind removes exactly the rows above its height, and the tip is the block there if it is cached |
| CacheRows.RetainKeepsWindow | src/cache.rs:1506-1520 | pruning with a retention window removes exactly the rows more than the window below the tip, and no tree |
| CacheRows.ReopenLoadsTip | src/cache.rs:1076-1099 | a restart keeps every row and snapshot, indexes the tip tree as a snapshot if it is not one, and makes it the live tree, or marks the load failed when it cannot be read |
| TreeLeaves.InsertedLeaf | src/cache.rs:429-430 | a block right above the tree adds one leaf an output: leaf number outputs-before plus j is the coin of output j of transaction i, and no earlier leaf moves |
| TreeLeaves.InsertedRow | src/cache.rs:394-407 | whichever way a block is inserted, its coin row holds the coin of every output at that place |
| TreeLeaves.NullifierRow | src/cache.rs:376-391 | where the nullifier rows are right, the row of a height holds every nullifier of every transaction at its place |
| CacheRetention.StepRetains | src/cache.rs:1121-1168 | every operation keeps: no snapshot above the tree, and the kept ones are the tree height and all boundaries from the least kept one |
| CacheRetention.RetentionOnEveryRun | src/cache.rs:1121-1168 | the same after any run of insert, rewind, prune and reopen |
| CacheRetention.NearestSnapshotIsClose | src/cache.rs:1203-1216 | after any run, the checkpoint found for a height from a kept boundary up is less than 1024 below it, or below the tree |
| CacheSoundness.RebuildRefinesReplay | src/cache.rs:1288-1379 | from any sound seed a rebuild is replay from the sentinel with right snapshots at every boundary; if a replayed row was pruned the tree misses leaves |
| CacheSoundness.HistoricalInsertSound | src/cache.rs:411-424 | a backfill keeps the trees right exactly when no row it replays was pruned |
| CacheSoundness.NextInsertSound | src/cache.rs:1236-1272 | inserting right above the tree always keeps the trees right |
| CacheSoundness.OffTipInsertSound | src/cache.rs:1236-1272 | a gap, a tip overwrite or an unreadable tip tree: right exactly when no row below the block was pruned |
| CacheSoundness.GenesisAgainSound | src/cache.rs:1316-1323 | block 0 again at the tip: right exactly when a snapshot at 0, if any, holds the new block's coins |
| CacheSoundness.CoinlessOverwriteUnsound | src/cache.rs:399-406 | a block without coins over one with coins leaves the old coin row |
| CacheSoundness.RewindSound | src/cache.rs:977-1029 | a rewind keeps the trees right exactly when no row it replays was pruned |
| CacheSoundness.PruneSound | src/cache.rs:1462-1498 | pruning never changes what the kept trees are worth |
| CacheSoundness.ReopenSound | src/cache.rs:1076-1099 | neither does a restart, readable tip tree or not |
| CacheSoundness.StepSound | src/cache.rs:353-441 | one operation leaves every retained tree equal to replay of all coins ever indexed if and only if its guard holds |
| CacheSoundness.SoundOnEveryGuardedRun | src/cache.rs:353-441 | over any run whose operations meet their guards, every snapshot, the tip copy and the live tree are plain replay |
| CacheNullifiers.StepNullifiers | src/cache.rs:376-391 | one operation leaves each cached block's nullifier row its nullifiers, and no other row, if and only if it does not put a block without nullifiers over a row |
| CacheHazards.CoinlessOverwriteBreaks | src/cache.rs:399-406 | a two-insert run that leaves a wrong coin row |
| CacheHazards.GenesisOverwriteBreaks | src/cache.rs:1316-1323 | a two-insert run at height 0 that leaves the replaced block's coins in the tree |
| CacheHazards.NullifierlessOverwriteBreaks | src/cache.rs:376-391 | a two-insert run that leaves the nullifiers of the block that was replaced |
| CacheHazards.RewindToAbsentKeepsTip | src/cache.rs:1006-1012 | the tip keys stay on a removed block exactly when the height is not 0 and not cached |
| PruneHazard.BackfillAfterPruneExactlyWhen | src/chain_poller.rs:263-269 | after a prune with any retention window, the poll that backfills height 0 keeps the trees right if and only if no pruned height above 0 had a coin |
| PruneHazard.BackfillAfterPruneBreaks | src/cache.rs:411-424 | two polls fetch heights 0 to 3, retention window 1 prunes below 2, the next poll's backfill of block 0 rebuilds a tree without the coins of height 1 |
| Poller.ChainPoller.RewindToCommonAncestor | src/chain_poller.rs:346-382 | the walk down, with its connection failures, its limit and its stop at 0, as a function of the answers |
| Poller.ChainPoller.FetchBlocks | src/chain_poller.rs:303-343 | the fetch loop, with its reorg exit, as a function of the answers |
| Poller.ChainPoller.Poll | src/chain_poller.rs:249-301 | a whole poll cycle, bootstrap and tip comparison included, as a function of the answers; what that function does is `PollerTips.PollFollowsTips` |
| PollerTips.PollFollowsTips | src/chain_poller.rs:76-128 | whatever the node says, a poll of a started cache walks back from the tip if and only if the node shows another block at that height, from the node's tip if and only if it has no block there and a lower tip that differs, fetches from above the tip if the node is ahead and not otherwise, and else leaves the cache alone |
| PollerTips.PollFromTheStart | src/chain_poller.rs:263-269 | with block 0 missing a poll fetches just that; with no tip, a batch from 0 |
| PollerTips.BatchIsFull | src/chain_poller.rs:303-307 | a batch ends with the node's tip or is full, a batch size of 0 counting as 1 |
| PollerTips.ConfirmedTipKeepsRows | src/chain_poller.rs:249-382 | while the node answers the cached tip's height with the cached tip's block, a poll removes and changes no row, wherever the node says its own tip is |
| PollerTips.WalkEnds | src/chain_poller.rs:346-382 | against any node a walk skips exactly the heights at which it is shown another block or none, and rewinds to the first it is confirmed, to 0, or to 10,000 below its start; only a connection failure leaves the cache alone |
| PollerTips.FetchCounts | src/chain_poller.rs:303-343 | a fetch that ends well adds one row a height and counts them; one that fails keeps what it added; one that meets a broken link counts nothing |
| PollerTips.PollCountsABatch | src/chain_poller.rs:249-343 | no poll reports more blocks than the batch size |
| PollerTips.OnePollToTheFork | src/chain_poller.rs:346-382 | a reorganisation no deeper than 10,000 blocks is rewound in one poll to exactly the last shared block |
| PollerSafety.InsertKeepsInv | src/chain_poller.rs:303-343 | inserting the awaited block keeps heights 0..=tip, links, inverse hash index, nullifier rows and trees right, and block 0 |
| PollerSafety.RewindKeepsInv | src/chain_poller.rs:346-382 | rewinding to a cached height keeps the same |
| PollerSafety.PollSafe | src/chain_poller.rs:249-382 | so does one poll of a node that may reorganise between any two answers |
| PollerSafety.PollerRunsAreSafe | src/chain_poller.rs:249-382 | from an empty cache with pruning off, after any polls and restarts: one linked chain 0..=tip, hash index inverse, nullifier rows those of the held blocks, all trees replay of it |
| PollerSafety.TipTreeIsReplayOfHeldChain | src/cache.rs:1035-1046 | the tip tree a wallet is given is the sentinel and all coins of the held chain |
| TreeLeaves.TipTreeInOrder | src/cache.rs:1035-1046 | leaf by leaf: after the sentinel the coins of the cached blocks by height, in each block by transaction and then output, each once and nothing else, over any polls and restarts with pruning off |
| PrunedRuns.StepKept | src/cache.rs:353-441 | every operation a poller or pruner performs keeps: genuine blocks at their heights, each linked to the row below it if there is one, hash index inverse, nullifier rows right, nothing above the tip |
| PrunedRuns.BackfillLinksExactlyWhen | src/chain_poller.rs:263-269 | block 0 fetched under a cached block 1 links to it if and only if the node still has the block 0 that block 1 was fetched on |
| PrunedRuns.GuardIsReplay | src/cache.rs:1236-1272 | in such a cache the guard of an operation comes down to: a backfill or a rewind replays no pruned row with a coin |
| PrunedLife.PollIsOps | src/chain_poller.rs:249-382 | one poll, whatever the node answers at each call, is a run of allowed inserts and at most one rewind |
| PrunedLife.LifeKeepsRows | src/chain_poller.rs:164-215 | from an empty cache, over any polls of honest nodes that share block 0, restarts and prunes with any window: the cached rows lie on one line with gaps, with all indexes right |
| PrunedLife.TreesStayRightExactlyWhen | src/chain_poller.rs:164-215 | over the same life the trees equal replay of everything indexed and not rewound, after every operation, if and only if no backfill and no rewind replays a pruned row with a coin |
| PollerConvergence.CommonIsForkPoint | src/chain_poller.rs:346-382 | cache and node agree at a height exactly when it is below the fork point |
| PollerConvergence.TipsClassified | src/chain_poller.rs:76-128 | against a node that stands still, the action chosen from the four hashes is the one the two chains call for |
| PollerConvergence.ReorgAdvances | src/chain_poller.rs:346-382 | a rewind never goes below the fork point and removes a block off the node's chain |
| PollerConvergence.FetchStep | src/chain_poller.rs:316-339 | one fetched block, with whatever clues and metadata this merge added, extends the shared part by one height and touches no shared block |
| PollerConvergence.FetchFollowsChain | src/chain_poller.rs:303-343 | fetching a batch extends the cache along the node's chain to the end of the batch, whatever each answer was merged with |
| PollerConvergence.PollAdvances | src/chain_poller.rs:249-301 | a poll leaves a settled cache alone and otherwise lowers the measure; no shared block is touched |
| PollerConvergence.PollingConverges | src/chain_poller.rs:249-382 | as many polls as the measure says settle the cache on the node's chain or an extension of it, though a height may come back with other clues and metadata at every call |
| PollerConvergence.SettlesExactlyWhenGenesisShared | src/chain_poller.rs:249-382 | polling settles the cache if and only if it was empty or shares block 0 with the node |
| PollerConvergence.SettledMeansSameChain | src/chain_poller.rs:76-128 | a settled cache holds the node's blocks, height by height, up to clues and metadata |
| DeepReorg.DanglesExactlyWhen | src/chain_poller.rs:346-382 | a poll that finds another block at the tip leaves the tip on a missing row if and only if the height 10,000 below the tip is above 0 and has no row, and nothing cached above it agrees with the node |
| DeepReorg.DeepReorgStrands | src/chain_poller.rs:346-382 | after such a poll no number of further polls of that node moves the tip or settles the cache |
| DeepReorg.PrunedServerStrands | src/chain_poller.rs:187-193 | a held chain pruned with any window below 10,000, and a node whose taller chain shares none of what is left: stuck from the second poll on |
| Stream.SpawnCompactRange | src/server.rs:337-382 | what is sent is consecutive and linked, and why the stream ended; nothing when the start is past the end |
| Stream.SentIsOneFork | src/server.rs:337-382 | at every moment, all blocks sent are ancestors of the last one on any fork that holds it, however the cache moved |
| Stream.SentIsCached | src/server.rs:337-382 | while the last block sent is cached, every block sent is |
| WindowCache.WindowStore.Insert | src/server.rs:657-678 | refresh in place, or evict the oldest and append: queue and map stay in step, at most the cap |
| WindowCache.PutValid | src/server.rs:716-731 | an insert makes its own entry readable and changes no other that it keeps |
| WindowOrder.KeepsLastQueued | src/server.rs:657-678 | first in, first out over any run: the queue is the last cap windows that were not cached when they came, and a window that comes again keeps its place |
| WindowOrder.DistinctKeepLast | src/server.rs:716-731 | of windows that come once each, exactly the last cap are cached |
| WindowOrder.EntryCameLast | src/server.rs:657-678 | a cached window has the entry that came last for it |
| WindowCache.AlwaysValid | src/server.rs:634-679 | after any loads, on either path and with or without an end-block row, the queue is duplicate-free, lists the map's keys, and is within the cap |
| WindowCache.FinishAddsOnlyItsLoad | src/server.rs:1355-1372 | a finished load leaves every entry that stays as it was, and adds only what it built, under the hash it read first |
| WindowCache.EntriesAreLoaded | src/server.rs:2640-2655 | every cached entry is what one earlier request for that window scanned, under the end hash that request read, however the cache moved between the two reads |
| WindowOrder.LoadsKeepLast | src/server.rs:1350-1373 | after any loads, refused and uncacheable ones included, exactly the last cap queued windows are cached |
| WindowOrder.KeptWithoutEndRowExactlyWhen | src/server.rs:734-743 | with no row at its last height a clue window is cached all the same, a retrieval window if and only if the tip key stands there |
| WindowOrder.WindowShows | src/cache.rs:1442-1448 | a window has an entry for every height: the view of the row of that height for clues, of the last row whose block says it is there for retrieval, or the absent value |
| WindowCache.HeldIsLinked | src/continuity.rs:29-34 | in a chain held from height 0 every window is linked |
| WindowCache.PrunedIsLinked | src/cache.rs:1462-1498 | pruning leaves every linked window that starts at or above the pruned height linked |
| PrunedRuns.LinearIsLinked | src/continuity.rs:29-34 | in the cache of a pruning server every window without a gap is linked |
| WindowCache.SameEndSameBareWindow | src/server.rs:737-745 | two caches in which the window is linked, whatever else they hold, with the same end-block hash hold the same window of blocks |
| WindowCache.HitComesFrom | src/server.rs:2640-2655 | with nothing asked of any request, a hit is what one earlier request loaded under the same end hash; it holds the requested window's blocks up to clues and metadata if both requests found the whole window |
| WindowCache.TornLoadHit | src/server.rs:2640-2655 | a load whose hash and rows come from two forks, pruned or not, answers for the first with the rows of the second: wrong unless the two look the same |
| WindowCache.StaleHit | src/server.rs:654-679 | two caches, pruned or not, with one end hash and a block of the window that looks different: the window loaded in the first is still served in the second, and a fresh load differs |
| ClueWindow.NotesAgreeExactlyWhen | src/cache.rs:1423-1441 | the detection notes of two copies of a block are equal if and only if every output has the same clue |
| ClueWindow.NoteAt | src/cache.rs:1423-1441 | every output of a block has its note at its own place: the clue where there is one, else the encrypted note |
| ClueWindow.NotesOfWindow | src/cache.rs:1398-1448 | a window of more than 10,000 heights is refused; any other has the notes of every height, none where there is no row |
| ClueWindow.ClueHitIsFreshExactlyWhen | src/server.rs:1350-1373 | over any loads and any movement of the cache, if the request and the load behind its hit both found the whole window linked under the end hash they read, the hit equals a fresh load if and only if every output of the window still has the clue it had when loaded |
| ClueWindow.ClueHitOnlyMisses | src/server.rs:1350-1373 | over any run of fetches, rewinds, prunes, restarts and hints in which no hint expires or is withdrawn, such a hit differs from a fresh load only by clues it has not got |
| ClueWindow.StaleClueHit | src/server.rs:1350-1373 | fetch, load the window, rewind, a clue arrives, fetch again: the window still answers without the clue, for every pair of linked blocks and every clue |
| PirWindow.StrippedIsBareAndMeta | src/server.rs:754-763 | two copies of a block are equal once clues are cleared if and only if every output has the same metadata |
| PirWindow.StripsCluesOnly | src/server.rs:745-763 | what goes into a retrieval window is the block with its clues cleared and nothing else changed: coin, note, metadata and nullifiers stay |
| PirWindow.PirHitIsFreshExactlyWhen | src/server.rs:2640-2655 | over any loads and any movement of the cache, if the request and the load behind its hit both found the whole window linked under the end hash they read, the hit equals a fresh load if and only if every output of the window still has the metadata it had when loaded |
| PirWindow.StaleMetadataHit | src/server.rs:2640-2655 | metadata arrives, fetch, load the window, rewind, fetch again: the window still answers with the metadata that no fresh load has, for every pair of linked blocks whose window is within the size limit |
| HintCodec.DecodeHints | src/cache.rs:1567-1585 | the decoding loop, with its early stop on a cut entry, is the recursive decoder |
| HintCodec.RoundTripsExactlyWhen | src/cache.rs:1554-1585 | decoding inverts encoding if and only if no index is the largest one and every clue length fits its field |
| HintCodec.CutTailIsIgnored | src/cache.rs:1567-1585 | a cut entry at the end is ignored and every whole one before it is read |
| HintCodec.EntryLayout | src/cache.rs:1554-1585 | a stored entry is, after the tag, the index, the length and the clue; no index is the largest number |
| HintCodec.LowByteFirst | src/cache.rs:1554-1585 | numbers are stored low byte first |
| ClueHints.MergeOnlyFills | src/cache.rs:783-812 | a merge only fills empty clues |
| ClueHints.MoreHintsKeepClues | src/cache.rs:783-812 | hints stored later never move or replace a clue that earlier ones placed |
| ClueHints.MergeIsIdempotent | src/cache.rs:783-812 | merging a list twice is merging it once |
| ClueHintPlaces.AttachPlaces | src/cache.rs:796-809 | one hint: a clue that is on no output ends on the output its index names if that exists and is free, without an index on the first free one, and on no other; any other hint changes nothing |
| ClueHintPlaces.MergePlaces | src/cache.rs:796-809 | a list with distinct indices and distinct new clues: a clue is on an output if and only if the output is free and named by it and was not taken by an earlier hint without an index, or is the first one neither taken nor named before |
| ClueHintPlaces.NamedCluesLand | src/cache.rs:796-809 | when every hint names its output, each clue is on an output if and only if it names it and it is free |
| ClueHintRuns.PruneIsInvisible | src/cache.rs:722-760 | the once-a-minute sweep changes no list a reader may see |
| ClueHintRuns.StoreAppends | src/cache.rs:448-485 | storing appends the clue unless its output index is taken, and touches no other transaction |
| ClueHintRuns.FirstClueIsNeverReplaced | src/cache.rs:448-485 | over any run within the time to live, the stored list of a transaction only grows at its end |
| ClueHintRuns.ServedAgainRegainsClues | src/cache.rs:783-839 | a block rewound, served and merged again has every clue it had, on the same outputs, whatever was stored meanwhile |
| ClueHintRuns.MergeKeepsBareContent | src/cache.rs:783-839 | a merge changes neither the hashed content nor the coins |
| ClueHintRuns.MetadataIsNotRegained | src/cache.rs:814-839 | without a new store, a block served again shows no metadata beyond what it is served with |
| ClueHintPlaces.MetaIsMerged | src/cache.rs:814-836 | for any block: metadata stored for a transaction is merged into its first occurrence, and every other output keeps what it was served with |
| ClueHintPlaces.MetaPlaces | src/cache.rs:814-836 | metadata goes on the output its index names if that has none, without an index on the first that has none, and nowhere else |
| ClueHintPlaces.MetaStoredExactlyWhen | src/cache.rs:491-521 | stored metadata reads back with its index if and only if that is not the reserved one; empty metadata or more than 4096 bytes change nothing |
| ClueHintPlaces.ClueLastsExactlyTtl | src/cache.rs:722-773 | a stored clue is listed up to 86,400 seconds after it was stored, and not a second longer |
| ClueHintPlaces.SweepForgetsExpired | src/cache.rs:722-760 | a sweep is due 60 seconds after the last one and forgets exactly what has expired; one that is not due changes nothing |
| ClueHintStore.HintStore.StoreOmrClueHint | src/cache.rs:448-485 | the store operation on the trees, sweep first, is the function |
| ClueHintStore.HintStore.StoreOmrMetadata | src/cache.rs:491-521 | metadata is stored with its index prefix, empty is ignored, oversized refused |
| ClueHintStore.HintStore.HasOmrClueHint | src/cache.rs:530-537 | whether an unexpired hint is stored |
| ClueHintStore.HintStore.OmrClueIndexTaken | src/cache.rs:539-551 | whether an unexpired clue is stored for the output |
| ClueHintStore.HintStore.PruneExpiredHints | src/cache.rs:722-760 | the throttled full sweep forgets exactly the expired transactions |
| ClueHintStore.HintStore.MergeHints | src/cache.rs:796-809 | the merge loop over an updated output list is the recursive merge, which puts each clue where `ClueHintPlaces.MergePlaces` says |
| ClueHintStore.HintStore.ApplyOmrClueHints | src/cache.rs:783-839 | hints and metadata of every transaction of a block, in order, each placed as `ClueHintPlaces` says |
| HintedCache.MergedClues | src/cache.rs:353-358 | a block fetched while no hint has expired carries exactly the clues that the stored hints place, and is the served block otherwise |
| ClueHintPlaces.FetchedCluesLand | src/cache.rs:783-812 | a block fetched while no hint has expired: a stored clue is on an output if and only if it lands there by its index, for any stored list of distinct clues |
| HintedCache.NoClueIsLost | src/cache.rs:353-358 | over any run of fetches, rewinds, prunes, restarts and hint operations within the time to live, a block cached at two moments has at the later one every clue it had at the earlier, on the same outputs |
| Refetch.TwiceHeld | src/cache.rs:353-358 | fetched, rewound and fetched again, the same chain with the same hashes is held twice, and only what the two merges added differs |
| Ring.MulCommutes | src/unifomr.rs:256-283 | negacyclic products commute |
| Ring.MulAssociates | src/unifomr.rs:256-283 | and associate |
| Ring.MulCoefficient | src/unifomr.rs:256-283 | Horner's rule gives the negacyclic convolution at every coefficient |
| Ring.MonomialsMultiply | src/unifomr.rs:266-277 | x^i times x^j is x^(i+j), and past the top x^n is -1 |
| Ring.GatherIsScatter | src/unifomr.rs:934-983 | the sum over the secret and the sum over the mask are the same coefficient |
| Ring.MulWithin | src/unifomr.rs:256-283 | a product is bounded by the weight of one factor times the bound of the other |
| Residue.ModQIs | src/unifomr.rs:236-243 | the residue computed by truncating remainder is the mathematical one |
| Residue.CongruentMul | src/unifomr.rs:236-283 | products respect congruence modulo q |
| Clue.PolyMulMod | src/unifomr.rs:256-283 | the scatter double loop with its skipped zeros is the product, reduced |
| Clue.SparseTernary | src/unifomr.rs:286-301 | for every stream of draws, exactly h coefficients in {-1, 1} and the rest 0: the signs drawn, at the indices that the partial shuffle chooses |
| ClueDraws.EveryTernaryIsDrawn | src/unifomr.rs:286-301 | every ternary polynomial comes from some stream, whatever its non-zero places and signs |
| ClueDraws.EveryChoiceIsFed | src/unifomr.rs:286-301 | any distinct places in any order with any signs are chosen by some list of draws, two a place |
| ClueDraws.SignsFixIt | src/unifomr.rs:286-301 | a stream draws one polynomial only |
| ClueDraws.SmallDraw | src/unifomr.rs:286-301 | draws 1, 0, 1, 1 over three places give 0, 1, -1 |
| Clue.FromSecret | src/unifomr.rs:318-329 | the mask is the draws modulo q, and the public key is the masked secret with the errors of the stream, at most 4 a coefficient |
| Clue.EncryptZeros | src/unifomr.rs:332-364 | a fresh encryption of zero: the ephemeral of weight h/2 is the one the draws give, the two errors are the first and the second n of the stream |
| Clue.Decrypt | src/unifomr.rs:309-314 | decryption is the difference of the centred second component and the centred product |
| Clue.FreshZeroDecryptsToNoise | src/unifomr.rs:286-364 | for every key, mask and error, decryption is e*u + e1 - e2*s modulo q at every coefficient |
| Clue.NoiseWithin | src/unifomr.rs:286-364 | that noise is at most 4(h/2) + 4 + 4h |
| Clue.DeployedNoiseWithin | src/unifomr.rs:85-118 | 484 for the deployed weights |
| Clue.EncryptThenDecrypt | src/unifomr.rs:286-364 | for every stream of draws and errors: key, encryption of zero and decryption leave, modulo q, the noise of the secret, ephemeral and errors that the streams give, at most 484 |
| Clue.DecryptErrorIsNoiseExactlyWhen | src/unifomr.rs:309-314 | the decrypted error is the noise itself if and only if centred product plus noise stays in the centred range; otherwise it is off by q |
| Clue.DecryptErrorOffByQ | src/unifomr.rs:309-314 | for every secret that starts with 1 and every odd q above 2, a ciphertext with noise 1 at coefficient 0 decrypts to 1 - q there |
| Detection.BuildDetectionKey | src/unifomr.rs:623-658 | the detection key broadcasts each secret coefficient to all slots, as a residue |
| Detection.PartialDecryptSimd | src/unifomr.rs:934-983 | the gather loop gives, in every slot, the coefficient of b - a*s that the scatter product gives; t/2 in an empty slot |
| Detection.GatherStep | src/unifomr.rs:944-965 | one homomorphic multiply-add adds one convolution term modulo t |
| Detection.GatherEnd | src/unifomr.rs:968-981 | subtracting b and multiplying by t - 1 is b minus the sum |
| Detection.RangeCheckMatches | src/unifomr.rs:752-769 | strictly ascending heights, exactly those with a slot in range |
| DigestFrame.EncodeMessages | src/unifomr.rs:880-931 | the digest bytes: version, chunk count, then for every chunk both ciphertexts of its messages with their lengths; a key of another network is refused |
| DigestFrame.DecryptDigestSlots | src/unifomr.rs:667-744 | the byte loop gives the first error the frame has, short, wrong version, too many chunks, truncated, undecodable, short slots or trailing, and otherwise one flag a slot |
| DigestFrame.DigestRoundTrip | src/unifomr.rs:667-744 | the bytes of any frame parse to that frame, or are refused exactly when it has more chunks than the cap |
| DigestAccept.AcceptsExactlyFrames | src/unifomr.rs:667-744 | for every byte string: it parses to some ciphertexts if and only if it is version, chunk count within the cap and exactly two length-prefixed parts a chunk that decrypt to them, none too short |
| DigestFrame.WrappedIsRefused | src/unifomr.rs:667-744 | a chunk count that wraps in its 32-bit field is refused as well |
| DetectionEndToEnd.SlotMatchesExactlyWhen | src/unifomr.rs:667-769 | a slot matches exactly when its message's first two coefficients are near zero; padding never does |
| DetectionEndToEnd.FlagSaysPertinent | src/unifomr.rs:667-769 | flag k of the decrypted digest answers for message k |
| DetectionEndToEnd.Detect | src/unifomr.rs:667-983 | encode to bytes, decrypt the bytes and range check return exactly the heights with a pertinent clue, ascending and once each, if and only if the clues fill no more chunks than the client accepts |
| DetectionEndToEnd.CapFits | src/unifomr.rs:60-67 | every window within the message cap is within the client's chunk bound, for any packing degree |
| DetectionEndToEnd.FreshClueIsFoundExactlyWhen | src/unifomr.rs:104-118 | the recipient is told of a fresh clue if and only if its first two noise coefficients are within 149 |
| OmrWindow.FlattenMessages | src/unifomr.rs:1034-1061 | the valid clues of the window in packing order with their heights; empty and malformed ones skipped |
| OmrWindow.ValidPlace | src/unifomr.rs:1034-1061 | every clue of a height that parses is there once, after those before it, and nothing else is |
| OmrWindow.FlatPlace | src/unifomr.rs:1034-1061 | the same over a window: every clue that parses has its own place |
| OmrWindow.ClueAtPlace | src/cache.rs:1423-1441 | the clue of every output of every transaction is read, each at its own place |
| OmrWindow.CapMessagesToWholeHeights | src/unifomr.rs:1070-1094 | a non-empty prefix whose heights are all below every dropped one, under the cap unless the first height alone passes it |
| OmrWindow.KeptIsWholeHeights | src/unifomr.rs:1070-1094 | such a prefix of a window is all clues up to its last height, and the rest all clues above it |
| OmrWindow.NextReply | src/unifomr.rs:1034-1094 | a reply holds all clues up to the last height it names, all of the window if not cut, and reaches the end when cut only if the last height alone is over the cap |
| OmrWindow.WalkWindow | src/server.rs:1388-1427 | asking again from the height after the last kept one, over an index with holes: every clue of every output of the evaluable prefix arrives exactly once, at its place, and the last reply says complete if and only if that prefix is the whole window and its last height fits a reply |
| OmrWindow.DigestEvaluableEnd | src/server.rs:194-214 | the longest evaluable prefix below the tip and the first hole, and complete exactly when that is the whole window |
| OmrWindow.EvaluableExactlyWhen | src/server.rs:194-214 | a height of the window is covered if and only if it is at or below the tip and no row from the start to it is missing |
| DetectionWalk.DetectReply | src/server.rs:1388-1427 | one digest tells its recipient exactly the pertinent heights it covers; it is refused only when the clues of one height alone fill too many chunks |
| DetectionWalk.DetectWindow | src/unifomr.rs:1070-1094 | walking a window over an index with holes: told of a height of the evaluable prefix if and only if some output of some transaction there has a clue that parses and is pertinent, if no height there is overfull; else the same of those below the first overfull height, which is where the walk stops |
| PowersOfTwo.SmallerDivides | src/server.rs:268-301 | of two powers of two, twice the smaller divides the larger |
| PirLimbs.PaddedLimbCount | src/pir_server.rs:47-50 | the least power-of-two bucket from 8 to 4096 that fits |
| PirLimbs.BytesToLimbs | src/pir_server.rs:327-340 | the chunk loop gives the length and then every two bytes, the last zero-padded |
| PirLimbs.OnDemandIsMaterialised | src/pir_server.rs:355-373 | the on-demand limb is the materialised one at every index, except the length limb past the cap, and always fits a slot |
| PirLimbs.LimbIsTwoBytes | src/pir_server.rs:327-373 | limb 1 + k is bytes 2k and 2k + 1 of the payload, the first one low, zero past the end |
| PirLimbs.DecodeLengthPrefixedLimbs | src/pir_server.rs:89-98 | a rejected length or too few limbs give nothing |
| PirLimbs.LimbsToBytes | src/pir_server.rs:342-349 | two bytes from the low 16 bits of each limb, cut to the length |
| PirLimbs.FetchedDecodes | src/pir_server.rs:80-98 | fetched limbs decode to the payload exactly when it is empty, or within 8190 bytes and fully fetched, and to nothing otherwise |
| PirLimbs.SpreadDecodes | src/pir_server.rs:80-98 | limbs of several loads decode to nothing, or to the length in limb 0 with every byte from the load its own limb came from, zero past that one's end |
| PirLimbs.FirstComesBackExactlyWhen | src/pir_server.rs:80-98 | the payload of the first load comes back if and only if it is empty, or readable and every other load has the same bytes in the place of its limb |
| PirLimbs.OneLoadPieced | src/pir_server.rs:80-98 | limbs that all come from one payload give it back byte for byte up to 8190 bytes when all its columns were fetched, else nothing |
| PirLimbs.MixedRead | src/pir_server.rs:80-98 | two payloads read as a third: limbs 0 and 1 of 1, 2, 3, 4 with limb 2 of 7, 8, 9, 10 give 1, 2, 9, 10 |
| PirLimbs.DecodeInvertsEncode | src/pir_server.rs:89-98 | the materialised limbs decode to the payload up to 8190 bytes and to nothing beyond |
| Pir.StripesCover | src/pir_server.rs:69-75 | the stripes reach past the window and only the first may be idle |
| Pir.PlaceIsUnique | src/pir_server.rs:225-257 | an index sits in one slot of one stripe |
| Pir.GenerateQueries | src/pir_server.rs:225-257 | one multi-hot query a stripe with exactly the selected slots set; empty sets, too many stripes and outside indices refused |
| Pir.EvaluateStripes | src/pir_server.rs:155-183 | one slotwise product a stripe with the column zero-padded past the window; a wrong number of queries refused |
| Pir.DecryptStripes | src/pir_server.rs:293-319 | the stitched column reads every window index from its stripe; a wrong number of answers refused |
| Pir.ColumnComesBack | src/pir_server.rs:155-183 | after query, evaluation and stitching a selected entry is the column's and any other is zero |
| Pir.AssemblePayloads | src/pir_server.rs:104-115 | each payload is decoded from its own row of the columns, zero where a column is short |
| Pir.ShortAnswerReadsZero | src/pir_server.rs:309-316 | a decrypted stripe too short for a slot reads as zero there, and as it is everywhere else |
| Pir.ShortColumnReadsZero | src/pir_server.rs:104-115 | a short column reads as zero: the payload is empty if it is the length column, and else has zeros for its two bytes |
| Pir.FetchPayloads | src/pir_server.rs:225-372 | end to end, any window up to 8 stripes, any index set and a window looked up anew for every limb: each selected payload is pieced from the limbs at its own place, one load a limb |
| Pir.PaddedColumnsSuffice | src/pir_server.rs:47-87 | the padded number of columns, read off the length limb, always suffices |
| PirFetch.ServedComesFrom | src/server.rs:2640-2655 | the window a request works on, cached or loaded, is one scan made under the end hash the request read |
| PirFetch.FetchedBlock | src/server.rs:2635-2655 | a block fetched by one request a limb, with any other loads in between: the limbs are those of loads of one fork, if the requests read one end hash and every load found the whole window |
| PirFetch.BlockComesBack | src/server.rs:2635-2655 | such a block is read whole if every load had the same metadata for it, and in general exactly when the other loads' encodings agree with the first in the bytes they stand for |
| Ranges.AlignmentIsLeast | src/server.rs:284-288 | the boundary is the least power of two from 1024 that is at least half the span |
| Ranges.AcceptedExactlyWhen | src/server.rs:268-301 | accepted if and only if within tip and cap and either a full power-of-two bucket or on some boundary A with span at most 2A and within 64 of the tip |
| Ranges.RefusedBecause | src/server.rs:268-301 | a refused range gets the first reason that applies: inverted, past the tip, too large, on no boundary, or on one but too far from the tip |
| Ranges.ChooseSpan | src/server.rs:225-239 | the rounding, capping and halving loop ends with the largest useful bucket that fits the chain |
| Ranges.PadBlockRange | src/server.rs:222-248 | the bucket asked for: ending at the clamped end, or the first bucket of the chain |
| Ranges.PaddedHoldsTheEnd | src/server.rs:222-248 | it always holds the clamped end and stays within the tip |
| Ranges.PaddedEndsAtRequestExactlyWhen | src/server.rs:222-248 | it ends at the clamped end if and only if the chain has fewer than 1024 blocks, or the rounded span fits below that end, or the rounded span is over the chain or the cap |
| Ranges.PaddedEndsPastRequest | src/server.rs:222-248 | a request for 100 to 1499 at tip 5000 is padded to 0 to 2047 |
| Ranges.PaddedCoversExactlyWhen | src/server.rs:222-248 | it covers the whole clamped request if and only if some power-of-two bucket within chain and cap is long enough |
| Ranges.PaddedIsAcceptedExactlyWhen | src/server.rs:222-301 | the server accepts it if and only if the tip is at 1023 or more and the end is not the last 32-bit height, or the end is within 64 of a lower tip |
| RateLimit.PeerRateLimiter.CheckN | src/rate_limit.rs:61-89 | the decision and the new table, with the inline sweep, saturating compare, wrapping add and poisoned lock |
| RateLimitExact.GrantedExactlyWhen | src/rate_limit.rs:61-89 | after any run: inside an open bucket a request is granted if and only if it and what the bucket has granted fit the limit, unless an opening request over the limit shut the bucket; outside of one, if and only if it fits the limit |
| RateLimitExact.WellSizedGrantedExactlyWhen | src/rate_limit.rs:61-89 | where no request is over the limit no bucket is ever shut |
| RateLimit.AtMostTwiceTheLimit | src/rate_limit.rs:61-89 | over any run no peer gets more than the limit in a bucket or twice the limit in one window's length, wherever it starts |
| RateLimit.TwiceTheLimitIsReached | src/rate_limit.rs:28-34 | twice the limit is reached, by a peer that first asks for more than the limit and is refused, for every limit and every window longer than one tick |
| RateLimit.WellSizedBound | src/rate_limit.rs:61-89 | over any run in which no request is over the limit, at most one credit less than twice the limit in one window's length |
| RateLimit.WellSizedBoundIsReached | src/rate_limit.rs:28-34 | that is reached, by 1 credit, the rest of the limit at the end of the bucket and the whole limit in the next |
| RateLimit.SlidesExactlyWhen | src/rate_limit.rs:28-34 | for every limit and window: no run grants more than the limit in one window's length if and only if the window is empty, or one tick long with a limit that counts |
| RateLimit.SlidesWhenWellSizedExactlyWhen | src/rate_limit.rs:28-34 | for every limit and window: no run of requests within the limit grants more than it in one window's length if and only if the window is empty, the limit is 0 or 1, or the window is one tick long and the limit below the largest |
| RateLimit.LargestLimitNeverRefuses | src/rate_limit.rs:84-86 | at the largest limit the saturating compare never refuses |
| RateLimit.SweepingChangesNothing | src/rate_limit.rs:74-78 | no choice of sweep thresholds changes an answer while requests are at most the limit, or nothing is counted |
| RateLimit.SweepingLetsIn | src/rate_limit.rs:74-83 | for every other limit and window an over-limit request makes a sweep change an answer |
| DetectionPool.DetectionKeyPool.SweepExpired | src/detection_pool.rs:157-168 | exactly the expired rows go, in any visiting order, and the freed bytes come off saturating |
| DetectionPool.DetectionKeyPool.Insert | src/detection_pool.rs:105-138 | sweep, the three refusals in order, eight draws for a free handle, overwrite accounting |
| DetectionPool.DetectionKeyPool.Lookup | src/detection_pool.rs:141-155 | the lazy sweep and the immediate expiry of the handle asked for |
| DetectionPool.InsertedIsExact | src/detection_pool.rs:105-138 | after an insert the byte count is the sum over the rows and both caps hold |
| DetectionPool.LookedUpIsExact | src/detection_pool.rs:141-155 | the same after a lookup |
| PoolInserts.RetainedIsAllParts | src/detection_pool.rs:72-74 | a key is charged the bytes of all its parts |
| PoolInserts.PooledExactlyWhen | src/detection_pool.rs:105-138 | a key is taken if and only if it has parts, none empty, none and not its declared length over the cap, and it fits beside the live keys in handles and bytes |
| PoolInserts.PickIsFirstFree | src/detection_pool.rs:124-132 | the handle is the first free draw, and the last of the eight if none is free |
| PoolInserts.HandleIsNew | src/detection_pool.rs:105-138 | while one draw is free the handle is not a live one, and every live key stays under its own |
| PoolInserts.FoundUntilExpired | src/detection_pool.rs:141-155 | a key is found until it expires and not after, whether or not a sweep comes first |
| PoolInserts.SweepsKeepUp | src/detection_pool.rs:105-168 | an insert always sweeps, a lookup once a minute has passed; after a sweep no expired row is left |
| DetectionPool.LargestCapLosesCount | src/detection_pool.rs:121-136 | with the largest byte cap an insert is accepted that the count cannot hold |
| DetectionPool.InsertStands | src/detection_pool.rs:105-138 | an insert answers as on an unswept map: refused as full exactly when live handles or live bytes would pass the caps |
| DetectionPool.LookupStands | src/detection_pool.rs:141-155 | a lookup finds exactly the unexpired keys, whether or not a sweep ran |
| DetectionPool.NewPoolStands | src/detection_pool.rs:86-94 | a new pool stands for the empty map |
| DetectionPool.PoolIsPlainMap | src/detection_pool.rs:105-168 | over any calls in time order every answer is the plain map's, whatever the clock made of the sweeps |

## Left out

- gRPC handlers, TLS, configuration, JSON-RPC transport, logging, backoff timing and the poll loop around one cycle: plumbing.
- Crash points between row writes, flushing, cache-format migration and retired names: each cache operation is one step.
- Errors of the row store and undecodable rows, except an unreadable tip tree at reopen; snapshot bytes are never corrupt.
- `src/block_processor.rs`: a found block is already a compact block; its deserializers are not part of this model.
- Heights are unbounded naturals in the cache, the poller and the stream, so height `u32::MAX` and its successor are not modelled there.
- Coins that are not canonical field elements: every coin is a leaf.
- Merkle checkpoints, marks and roots of the tree library: a tree is its sequence of leaves, which is what the cache controls.
- Convergence beside pruning: `PollerConvergence` is for pruning off; with pruning `DeepReorg` says when it fails.
- PrunedLife.LifeKeepsRows: the nodes share block 0, since the backfill does not compare it with block 1 (`PrunedRuns.BackfillLinksExactlyWhen`).
- `check_adjacent_pair` of `src/continuity.rs` and sparse block requests: one comparison, no state.
- CacheObject.Cache.ReplayFromSeed: the drain loop after the boundary walk is not written out, because it is proved to find no row left.
- Windows with holes, the end without a row included: what they hold and when they are kept is stated (`WindowOrder.WindowShows`, `WindowOrder.KeptWithoutEndRowExactlyWhen`), but of a later hit on one only `WindowCache.HitComesFrom`, since the end hash says nothing of rows that are not linked to it.
- WindowCache.EntriesAreLoaded: the scan of one window's rows is one step, though the row store may change under it.
- ClueWindow.ClueHitOnlyMisses: for runs in which no hint expires or is withdrawn; after either, a refetched block may have fewer clues than the cached window.
- ClueHintRuns.FirstClueIsNeverReplaced: covers the operations that store, merge, query and sweep; removal of a hint on request and clocks that run backwards past the start are excluded.
- Single-clue rows written by older versions of the hint codec are not decoded.
- Homomorphic noise, modulus switching, ciphertext bytes and freshness checks: a ciphertext is its exact slot vector.
- DigestFrame.DecryptDigestSlots: the three ways a ciphertext's bytes can be undecodable are one error, and the two texts for too many chunks are one.
- Response-time padding, multi-key digests and key parsing around one digest.
- Clue.SparseTernary: a draw is taken modulo what is left, as the source does; the distribution is not modelled, nor are the Gaussian probabilities and the measured false-positive rates. Only the tail cut at 4 is used.
- OmrWindow.CapMessagesToWholeHeights: the kept prefix is not always the longest that fits, since the height at the cap goes even if it ends exactly there, and a single oversized height is reported as cut with nothing dropped; both are what the source does.
- Reassembly of the wallet around PIR, query ciphertext sizes, and the encoded-size limit of a window (a parameter of the loader).
- RateLimit.AtMostTwiceTheLimit: for limits below `u32::MAX`; at that limit nothing is refused.
- DetectionPool.PoolIsPlainMap: for byte caps below `u64::MAX`, and while wall-clock time does not run backwards.
- Clue directory, ownership proofs, envelope parsing, key derivation, decoys, checksums and CIDR matching.
