# s3disk: verified models

s3disk publishes immutable, content-addressed snapshots through one mutable
compare-and-swap reference. Publishers keep a crash-safe journal, readers keep a
durable watermark against rollback, and a share of a snapshot is published through
a second journaled register. This project models that logic in Dafny 4.11 and
proves it for all inputs, all numbers of processes and all interleavings.
`dafny verify dfyconfig.toml` verifies everything.

## How the models are built

Each protocol has two layers.

- A **machine**: the state that survives crashes as a value, the atomic steps of any
  process, and theorems over every run (`PublicationProtocol`, `UnsignedPublication`,
  `ConsumerProtocol`, `RootProtocol`, `CacheIndex`, `ClosureSteps`). A crash is a
  process that takes no more steps.
- The **code**: classes whose methods follow the Go control flow, branch by branch
  (`SignedPublisher`, `UnsignedPublisher`, `ConsumerRefresh`, `RootPublishing`,
  `DiskCache`, `ClosureWalk`). They act on a shared environment object (`Cloud`,
  `Channel`, `Vault`, `ShareStore`) in which any number of other processes take any
  enabled steps before every request, requests fail, and responses are lost after the
  effect. Every method is shown to take only steps of the machine, so the theorems
  about runs hold of the code.

The environment counts in a ghost field `faults` every failure, lost response, stale
read and step of somebody else. A clause "undisturbed, ..." in the table below is
conditioned on that counter being unchanged over the call: it states that the code
really succeeds, with exactly the stated effect, and is not merely safe.

| files | part of s3disk |
|---|---|
| `Ancestry`, `ReferenceChain` | commit manifests, ancestry walks, what one chain of references implies |
| `PublicationProtocol`, `PublicationCloud`, `SignedPublisher` | journaled publication of signed references |
| `UnsignedPublication`, `UnsignedPublisher` | publication without a journal |
| `ConsumerProtocol`, `ConsumerRefresh` | watermark, adoption and exposure of snapshots |
| `RootProtocol`, `RootStore`, `RootPublishing` | the share root and its write-ahead journal |
| `ReaderRetention` | capabilities retained by the reader of a share |
| `ClosureGraph`, `ClosureSteps`, `ClosureWalk` | resolution of a snapshot's closure |
| `CacheIndex`, `CacheStartup`, `DiskCache` | the bounded chunk cache |
| `RandomRead` | chunked random-access reads |
| `PathSelection`, `Projection` | selective publication |
| `Framing`, `SealedFormats` | length-prefixed envelopes and sealed state |
| `Registers` | the in-memory object store and the watermark file as registers |

## Two results that differ from what one might expect

- **Exposure order across processes.** Consumers that share a durable watermark show
  snapshots of one chain, and each process never goes back. Across processes a later
  exposure can have a lower generation (`TwoProcessesGoBack`): the watermark is
  checked when it is saved, not when a view is activated. Global order holds in every
  run if and only if at most one process uses the watermark
  (`OrderedExactlyForOneProcess`).
- **Preparation of a share journal.** When the first save of an unencrypted share's
  journal fails, the reload finds no journal, and the fresh empty record it returns
  equals the one that was to be saved, so `PrepareRecovery` reports success although
  nothing is durable (`UnsavedPreparationReconciles`). A reconciled save is durable in
  every case if and only if the share is encrypted or the record is not the empty one
  (`ReconciliationExact`).

## Model

| member | source | states |
|---|---|---|
| Ancestry.ValidateDescendant | consumer.go:499-524 | for every graph the answer is the one defined by the first manifest in the way, or by where a complete walk ends; the unsigned distance never underflows |
| Ancestry.WalkMeaning | consumer.go:499-524 | a walk is accepted exactly when following parents (generation difference) times reaches the anchor commit with every generation right and the distance within the bound, and is a split brain exactly when it is complete and ends elsewhere |
| Ancestry.ObstacleExact | publisher.go:659-673 | either the ancestor is reached or there is a first manifest that is unreadable or not the right one, never both |
| Ancestry.ValidatePublicationDescendant | publisher.go:715-748 | the publisher's walk gives the very answer of the consumer's, errors included, for every larger generation, and a split brain otherwise |
| Ancestry.AncestorCompose | consumer.go:499-524 | walking first + second parents is walking first and then second; the reason one memoized walk can stand for the full one |
| Ancestry.AncestorStable | consumer.go:499-524 | a walk that succeeded has the same result in every larger set of commits |
| Ancestry.DescendsTransitive | consumer.go:424-463 | descent composes, so validating back to the last validated watermark proves ancestry to the trusted checkpoint |
| ReferenceChain.ChainDescends | publication_recovery.go:235-372 | in a single-chain history every later reference equals or descends from every earlier one |
| ReferenceChain.ChainUnique | publication_recovery.go:312-371 | one history never holds two commits at one generation |
| ReferenceChain.ChainAncestor | publication_recovery.go:312-371 | every ancestor of a visible commit, down to generation 1, was itself visible |
| ReferenceChain.VerdictsExclude | publication_recovery.go:590-623 | a commit cannot be both visible and beaten at its generation |
| ReferenceChain.VerdictsStable | publication_recovery.go:590-623 | both verdicts stay true however the history grows |
| ReferenceChain.WalkDecides | publication_recovery.go:443-458 | an ancestry walk from any visible tip decides exactly whether a commit was ever visible or its generation was taken by another |
| PublicationProtocol.RunInvariant | publication_recovery.go:220-377 | every run of any number of publishers and journals keeps: one parent chain, journal anchors that were visible, journal saves that follow the transition rule, writes whose bytes were recorded first |
| PublicationProtocol.SingleChain | publication_recovery.go:235-372 | over every interleaving, crash and lost response the reference history is one parent chain from generation 1: each write re-signs the same commit or installs a direct child one generation higher |
| PublicationProtocol.AnchorSafety | publication_recovery.go:556-588 | a journal's committed anchor was visible, stays set, and every later anchor equals or descends from it |
| PublicationProtocol.IntentImmutable | publication_journal.go:525-565 | while an operation stays pending its kind, base, next and bytes never change, its base is the journal's anchor, and a re-sign keeps the envelope it is to replace |
| PublicationProtocol.SettledAnchor | publication_journal.go:525-565 | after a pending operation is cleared the anchor is at least at its generation, at every later save too |
| PublicationProtocol.ClearedHasWinner | publication_recovery.go:287-371 | a journal stops holding an operation only for a winner: for a publish its commit or another one at its generation was visible, for a re-sign its exact bytes or, after the envelope it was to replace, a third one |
| PublicationProtocol.WriteAhead | publication_recovery.go:246-362 | whenever a run makes a reference visible, some journal had recorded exactly its bytes in the state before that write |
| PublicationProtocol.VerdictNeverFlips | publication_recovery.go:590-623 | a commit visible at some moment is never later beaten at its generation, and a beaten one never becomes visible |
| PublicationProtocol.WriteKeepsChain | publisher.go:577-582 | a compare-and-swap that succeeds over the expected ETag extends the chain |
| PublicationProtocol.AnchorsAdvance | publication_journal.go:525-565 | between any two saves of one journal the anchor never goes back and never forks |
| PublicationProtocol.PublishedOrder | publication_recovery.go:679-728 | of two visible watermarks the one with the higher generation equals or descends from the other |
| PublicationCloud.Cloud.CompareAndSwapReference | store.go:62-89 | a conditional write that may be applied, rejected, or applied with its response lost; an acknowledged one is the visible value, an undisturbed one over the expected value succeeds with exactly one new version |
| PublicationCloud.Cloud.CompareAndSwapJournal | publication_journal.go:242-350 | a durable journal save that succeeds only over the revision it was computed from; its response may be lost |
| SignedPublisher.Publisher.ValidateCheckpoint | publisher.go:675-713 | acceptance proves full ancestry to the configured checkpoint although only the part above the last validated watermark is walked; a failure forgets nothing; undisturbed, every true descendant within the bound is accepted |
| SignedPublisher.Publisher.Descends | publication_recovery.go:443-458 | the answer equals ancestry in the whole repository, whatever subset of commits was readable; an undisturbed walk within the bound always answers |
| SignedPublisher.Publisher.ValidSuperseding | publication_recovery.go:460-493 | without a base the complete history is read down to generation 1; with one the answer is descent from it; an undisturbed traceable candidate always gets an answer |
| SignedPublisher.Publisher.LoadJournal | publication_recovery.go:61-120 | a loaded journal is a saved state no older than the one at the call, and its anchor extends the checkpoint |
| SignedPublisher.Publisher.LoadOrInitialize | publication_recovery.go:122-169 | the state returned is durable at the returned revision, through a lost initialization |
| SignedPublisher.Publisher.ValidatePending | publication_recovery.go:379-413 | a pending operation passes only with its commit a direct child of its base, and an authentic one passes when nothing fails |
| SignedPublisher.Publisher.RefreshObservation | publication_recovery.go:495-536 | only the recorded observation of the base changes; everything else of the pending operation is kept, through a lost save |
| SignedPublisher.Publisher.ReloadRecovery | publication_recovery.go:538-554 | the reloaded journal is no older and, if still pending, holds the same operation |
| SignedPublisher.Publisher.Finalize | publication_recovery.go:556-588 | the evidence that the operation may be cleared is demanded; success means the journal durably recorded the proven winner as its anchor with nothing pending |
| SignedPublisher.Publisher.ClassifyPublish | publication_recovery.go:590-623 | for an operation another process cleared: applied exactly if its commit was visible, superseded exactly if another holds its generation |
| SignedPublisher.Publisher.ClassifyResign | publication_recovery.go:625-677 | an applied re-sign was visible with its exact bytes; a superseded one was followed, after its original envelope, by a visible third envelope at or above its generation |
| SignedPublisher.Publisher.WriteTarget | publication_recovery.go:299-309 | writes only recorded bytes under an expectation that stands for the base; undisturbed it writes once and settles as applied |
| SignedPublisher.Publisher.SettleResign | publication_recovery.go:287-328 | a re-sign is applied only by its exact bytes and superseded only by a third envelope visible after its original; while the original is visible it is written again, and undisturbed exactly once |
| SignedPublisher.Publisher.SettleLost | publication_recovery.go:336-371 | a winner is accepted only if its history continues the base; undisturbed, an overtaken operation always settles |
| SignedPublisher.Publisher.SettleBeyond | publication_recovery.go:315-344 | a reference above the target's generation settles the target by ancestry, with the exact verdict |
| SignedPublisher.Publisher.SettlePublish | publication_recovery.go:312-371 | every observed reference leads to the exact verdict or to a retry over the very version observed |
| SignedPublisher.Publisher.Observe | publication_recovery.go:246-285 | what is observed is a visible reference with its commit that does not go back behind the anchor |
| SignedPublisher.Publisher.Recover | publication_recovery.go:220-377 | the verdict on a publish is exact (applied if and only if the target was ever visible, superseded if and only if another commit holds its generation), that on a re-sign has its bytes or a third envelope as evidence, the journal was cleared, a timely operation is written exactly once and an overtaken one is settled without a write |
| SignedPublisher.Publisher.RecoverPublication | publication_recovery.go:199-218 | the public recovery entry has the same exact verdict, for the operation the journal held |
| SignedPublisher.Publisher.PrepareJournal | publication_recovery.go:171-193 | returns a durable state with nothing pending; an idle journal keeps its anchor |
| SignedPublisher.Publisher.AcceptObserved | publication_recovery.go:679-728 | adopts an observed reference as anchor only if it equals or descends from the old anchor, and records it durably |
| SignedPublisher.Publisher.BeginDurably | publication_recovery.go:730-784 | the intent is durably recorded as pending, or was already driven to the end by another process |
| SignedPublisher.Publisher.CommitSigned | publication_recovery.go:730-815 | success means the operation's target was visible; a timely operation of an undisturbed publisher succeeds with exactly one write |
| SignedPublisher.Publisher.Stage | publisher.go:349-553 | a staged snapshot carries the requested tree as a direct child of the anchored visible reference, or is that reference when the tree is unchanged |
| SignedPublisher.Publisher.CommitStaged | publisher.go:557-601 | success means the staged snapshot is in the visible history |
| SignedPublisher.Publisher.PublishTree | publisher.go:758-764 | success means a commit of the requested tree is visible; undisturbed and with tip, anchor and checkpoint within one walk of each other, publication succeeds with exactly one write, or none when the tree is already visible |
| SignedPublisher.Publisher.ResignReference | publisher.go:783-863 | success means the new envelope of the same snapshot was visible; undisturbed it succeeds, with one write unless the bytes are already the visible ones |
| UnsignedPublication.UnsignedSingleChain | publisher.go:409-436 | without journals, over every interleaving every visible reference, the newest included, has its position as generation and descends from all earlier ones |
| UnsignedPublication.RunInvariant | publisher.go:557-601 | every run keeps: each visible reference is a direct child of the one before it |
| UnsignedPublisher.Publisher.Stage | publisher.go:409-436 | stages the requested tree as a direct child of the observed reference, or as that reference when unchanged |
| UnsignedPublisher.Publisher.Reconcile | publisher.go:618-650 | after an unclear write: applied only if the commit is in the history, rejected only if another commit holds its generation; undisturbed and within the walk bound it always decides |
| UnsignedPublisher.Publisher.CommitStaged | publisher.go:557-601 | success means visible, a conflict means beaten for good; undisturbed the answer is exactly whether the commit is in the history |
| UnsignedPublisher.WalkIsVerdict | publisher.go:618-650 | the walk from any visible reference down to the staged generation gives a final verdict |
| ConsumerProtocol.RunInvariant | consumer.go:343-422 | every run of any number of consumers keeps: the durable watermarks are one descending chain, every remembered one is durable, views of one process never go back |
| ConsumerProtocol.ConsumerSafety | consumer.go:214-341 | all exposed snapshots of all processes are durable, lie on one chain, one commit per generation, and those of one process never go back |
| ConsumerProtocol.CoveredAtActivation | consumer.go:465-493 | nothing is exposed before the durable watermark equals or descends from it |
| ConsumerProtocol.OneProcessNeverBack | consumer.go:214-341 | exposed generations never go down while one process uses the watermark |
| ConsumerProtocol.TwoProcessesGoBack | consumer.go:214-341 | with two processes a later exposure can have a lower generation: one activates its remembered watermark after the other has advanced and activated |
| ConsumerProtocol.OrderedExactlyForOneProcess | consumer.go:214-341 | exposure order over all processes never goes back in any run if and only if at most one process uses the watermark |
| ConsumerRefresh.Consumer.ValidateCheckpoint | consumer.go:424-463 | acceptance proves ancestry to the trusted checkpoint by a walk that starts at the last validated watermark; undisturbed, every true descendant within the bound is accepted |
| ConsumerRefresh.Consumer.PersistCheckpoint | consumer.go:343-422 | a first start leaves a durable watermark that equals or descends from the checkpoint, also when another process was first |
| ConsumerRefresh.Consumer.LoadWatermark | consumer.go:343-422 | a loaded watermark is the durable one, extends the checkpoint and is not behind the snapshot already shown |
| ConsumerRefresh.Consumer.PersistWatermark | consumer.go:465-493 | success means the durable watermark is the new one, also when the save's response was lost |
| ConsumerRefresh.Consumer.ValidateCandidate | consumer.go:214-341 | a candidate above the watermark is accepted only if it descends from it |
| ConsumerRefresh.Consumer.CompareReference | consumer.go:214-341 | exactly which authentic references are adopted, ignored as stale, unchanged or a split brain |
| ConsumerRefresh.Consumer.WhenMissing | consumer.go:214-341 | a missing reference is a rollback exactly when something newer than the view was ever accepted |
| ConsumerRefresh.Consumer.AdoptCandidate | consumer.go:214-341 | an adopted snapshot is durable first, descends from the shown one and from the checkpoint; a failure keeps the view |
| ConsumerRefresh.Consumer.Refresh | consumer.go:214-341 | an update shows a durable snapshot that descends from the one shown before, anything else keeps the view; undisturbed and with watermark and checkpoint within one walk, the newest reference ends up shown and durable, also when it was already shown |
| ConsumerRefresh.NewestCovers | consumer.go:465-493 | the newest durable watermark equals or descends from everything ever exposed |
| Registers.MemoryStore.Get | memstore/memstore.go:42-69 | not found, not modified, over the read limit or the current record, each exactly when |
| Registers.MemoryStore.PutIfAbsent | memstore/memstore.go:85-98 | succeeds exactly for an absent key within the size limit; a failure changes nothing, a success touches no other key |
| Registers.MemoryStore.CompareAndSwap | memstore/memstore.go:100-123 | succeeds exactly when the expectation holds; what it replaced has the bytes of every version ever seen under the expected ETag; a failure changes nothing |
| Registers.MemoryStore.Put | memstore/memstore.go:147-161 | appends one numbered version whose ETag is the digest of its bytes |
| Registers.MemoryStore.Delete | memstore/memstore.go:125-133 | removes one key and keeps every other |
| Registers.RecordsAreTold | memstore/memstore.go:147-161 | equal ETags of one key mean equal bytes and equal numbers mean the same write |
| Registers.ReplaceExact | watermark.go:164-186 | the file accepts exactly the replacements of the monotone register rule over the expected value |
| Registers.WatermarkFile.CompareAndSwap | watermark.go:143-238 | whatever callers ask, the values of the file stay in one repository, never go down and never show two commits at one generation; each refusal has its own error and changes nothing |
| RootProtocol.RunInvariant | presignedshare/root_recovery.go:892-1090 | every run of any number of journaled and plain publishers keeps the register discipline, valid and genuine records, and the step rule between records |
| RootProtocol.RegisterDiscipline | presignedshare/root_recovery.go:374-391 | the first root has revision 1; later roots never lower the revision or the snapshot generation, and equal revision or generation means equal content or commit |
| RootProtocol.WriteRaisesRevision | presignedshare/root_recovery.go:1197-1386 | every successful write, journaled or plain, raises the revision by exactly one, and creation gives 1 |
| RootProtocol.OneTarget | presignedshare/root_recovery.go:1114-1416 | over all processes that share a journal at most one exact target is ever recorded per revision |
| RootProtocol.AnchorNeverForks | presignedshare/root_recovery.go:850-868 | the highest revision and the committed anchor of the journal never go back and never fork |
| RootProtocol.RecordsAreGenuine | presignedshare/root_recovery.go:315-399 | every record ever saved passes the record validator and describes roots that were visible |
| RootProtocol.JournaledWriteSucceeds | presignedshare/root_recovery.go:374-391 | a recorded target that still applies directly succeeds the newest root |
| RootPublishing.ObservationExact | presignedshare/root_recovery.go:819-848 | an observed root passes exactly if the anchor may advance to it |
| RootPublishing.MatchesClosure | presignedshare/root_publisher.go:470-486 | the one-sided key scan with a length comparison accepts exactly the bundles that represent the closure |
| RootPublishing.ReplaceExact | presignedshare/root_publisher.go:339-413 | a bundle may be replaced for a closure exactly if some successor bundle of that closure exists |
| RootPublishing.UnsavedPreparationReconciles | presignedshare/root_recovery.go:711-760 | an unencrypted empty record reconciles with a journal that was never written, so a failed first save can be reported as success |
| RootPublishing.ReconciliationExact | presignedshare/root_recovery.go:711-760 | a reconciled save is durable in every case if and only if the share is encrypted or the record is not the empty one |
| RootPublishing.NewestPasses | presignedshare/root_recovery.go:819-848 | the newest root always passes the check against any loaded record |
| RootPublishing.RootPublisher.LoadRecovery | presignedshare/root_recovery.go:681-709 | the loaded record is the newest saved one, or a fresh empty one for an absent journal |
| RootPublishing.RootPublisher.Save | presignedshare/root_recovery.go:711-760 | success means the record is durable, with the one exception above; an undisturbed save over the current revision always succeeds |
| RootPublishing.RootPublisher.PrepareRecovery | presignedshare/root_recovery.go:410-492 | undisturbed, the journal exists afterwards; success with no journal needs a fault and an unencrypted share |
| RootPublishing.RootPublisher.Anchor | presignedshare/root_recovery.go:850-868 | records an observed visible root as the anchor and clears what is pending, or refuses with the anchor's exact error |
| RootPublishing.RootPublisher.Stage | presignedshare/root_recovery.go:1190-1238 | the pending record is a valid successor of the observed root for the requested closure |
| RootPublishing.RootPublisher.Begin | presignedshare/root_recovery.go:1141-1238 | with nothing pending: report an exact match, or record a target over the observed root |
| RootPublishing.RootPublisher.RefreshExpected | presignedshare/root_recovery.go:1332-1351 | only the expected version and its bytes are refreshed; target and anchor stay |
| RootPublishing.RootPublisher.ExaminePending | presignedshare/root_recovery.go:1241-1354 | a root at or above the target's revision settles it (at equal revision only with equal content); otherwise the same target stays pending with a current expectation |
| RootPublishing.RootPublisher.SendTarget | presignedshare/root_recovery.go:1380-1415 | writes exactly the recorded target; an acknowledged write is anchored and visible |
| RootPublishing.RootPublisher.RecoverIdle | presignedshare/root_recovery.go:919-947 | with nothing pending, the visible root becomes the anchor; nothing is written |
| RootPublishing.RootPublisher.SettlePending | presignedshare/root_recovery.go:949-1089 | success means the pending target was settled by a visible root at least at its revision and cleared; undisturbed it is written exactly once |
| RootPublishing.RootPublisher.RecoverPending | presignedshare/root_recovery.go:557-594 | the public recovery: what was pending is cleared and the reported root is the durable anchor |
| RootPublishing.RootPublisher.ConcludeSettled | presignedshare/root_recovery.go:1245-1331 | a settled root is reported as published exactly if it represents the request |
| RootPublishing.RootPublisher.PendingRound | presignedshare/root_recovery.go:1240-1415 | each round publishes, stops, or strictly moves the anchor up or uses a write attempt |
| RootPublishing.RootPublisher.PublishRound | presignedshare/root_recovery.go:1125-1415 | every continue decreases the lexicographic measure of anchor distance, pending flag and attempts left |
| RootPublishing.RootPublisher.PublishFrom | presignedshare/root_recovery.go:1125-1415 | the loop terminates under arbitrary store and journal answers, and success means a visible root represents the closure |
| RootPublishing.RootPublisher.PublishRecoverable | presignedshare/root_recovery.go:1114-1416 | success means a visible root represents the requested closure; undisturbed the call succeeds, with one write unless the newest root already represents it |
| RootPublishing.RootPublisher.WriteOver | presignedshare/root_publisher.go:339-413 | a plain write over the observed root; success is a visible root that represents the closure |
| RootPublishing.RootPublisher.PublishPlain | presignedshare/root_publisher.go:293-443 | the plain loop has the same guarantee as the journaled one |
| ReaderRetention.CapabilityCharge | presignedshare/reader.go:626-644 | the guarded 64-bit sum equals the true charge exactly when that fits, and is refused otherwise |
| ReaderRetention.ValidateCapabilities | presignedshare/reader.go:604-624 | accepts exactly the sets without a fixed If-None-Match header whose charges sum without overflow, and returns the sum |
| ReaderRetention.AcceptedIsFound | presignedshare/reader.go:646-658 | every key of every accepted bundle has a latest capability |
| ReaderRetention.FoundWasAccepted | presignedshare/reader.go:646-658 | what is found came from the last accepted bundle that had the key |
| ReaderRetention.InOrderAppend | presignedshare/reader.go:489-602 | accepted bundles never lower revision or generation, and equal revision means equal content |
| ReaderRetention.ReachedIsSound | presignedshare/reader.go:489-602 | after any sequence of accepted bundles current and retained keys are disjoint, both budgets hold with exact totals, the bundles came in order and every key finds its latest capability |
| ReaderRetention.Reader.FindCapability | presignedshare/reader.go:646-658 | after any sequence of accepted bundles the lookup returns the latest accepted capability of the key |
| ReaderRetention.Reader.Retire | presignedshare/reader.go:489-602 | what is retained is exactly what the new bundle does not replace, with its exact byte total, or the budgets are exceeded; the accounting branches for overflow and underflow are never taken |
| ReaderRetention.Reader.InstallBundle | presignedshare/reader.go:489-602 | accepts exactly the bundles that follow the current one and fit both budgets; the new revision and what is retained beside it are stated in full; a refused install changes nothing |
| ClosureGraph.ClosedHasReachable | snapshot_closure.go:395-468 | a set that holds the root and is closed under edges holds everything reachable, on cyclic graphs too |
| ClosureGraph.Sort | snapshot_closure.go:184-240 | the returned keys are a sorted permutation of the collected ones |
| ClosureSteps.RunInvariant | snapshot_closure.go:308-468 | every worklist run keeps: queue, current and finished nodes partition the scheduled ones, finished nodes are fully followed, counters are the exact totals, recorded sizes are the entries' sizes |
| ClosureWalk.FinishedIsExact | snapshot_closure.go:395-468 | a finished walk has collected exactly the nodes reachable from the root, and every directory entry's size agrees with its manifest |
| ClosureWalk.UnhinderedMeetsNone | snapshot_closure.go:308-468 | if the snapshot is sound, within the limits, and no repetition-free way down is longer than the level limit, no refusal of the walker can occur at any point of any run |
| ClosureWalk.Walker.AddKey | snapshot_closure.go:308-323 | collects a key once; refuses exactly at the object limit |
| ClosureWalk.Walker.GetManifest | snapshot_closure.go:344-366 | a readable manifest is charged exactly and within the byte limit |
| ClosureWalk.Walker.Schedule | snapshot_closure.go:368-393 | the entry's target is listed and its size recorded; a refusal names a real obstacle, for depth a way down of that length |
| ClosureWalk.Walker.ExpandNext | snapshot_closure.go:395-468 | one worklist step finishes a node, and terminates the loop by listing a new key or shrinking the queue |
| ClosureWalk.Walker.Walk | snapshot_closure.go:395-468 | the worklist terminates with an empty queue, or reports an obstacle that really is there; a depth obstacle is a repetition-free way down that is longer than the limit |
| ClosureWalk.Walker.ReadChain | snapshot_closure.go:184-240 | collects every commit back to generation one |
| ClosureWalk.ResolveSnapshotClosure | snapshot_closure.go:108-245 | on success the keys are, sorted and without duplicates, exactly the commits back to generation one and everything reachable from the root, sizes agree, counters are the true totals; it succeeds on every sound snapshot within the object, edge, byte and level limits |
| CacheIndex.RunInvariant | cache.go:299-333 | over every interleaving list and map are in bijection, the byte total is the sum of sizes within both limits, pins are exactly the outstanding readers |
| CacheIndex.EvictedNext | cache.go:565-583 | evicting the found victim is the next step of least-recently-used eviction over the original order |
| DiskCache.Cache.PinEntry | cache.go:299-333 | a read pins exactly a present, valid entry of the expected size and moves it to the front |
| DiskCache.Cache.Unpin | cache.go:404-415 | gives back one pin; an invalid entry goes with its last reader |
| DiskCache.Cache.DiscardPinned | cache.go:417-434 | marks the entry invalid and drops it unless others still read it |
| DiskCache.Cache.RemoveEntry | cache.go:585-615 | drops exactly an unpinned entry; with the total covering it, the clamp at zero is never taken |
| DiskCache.Cache.TotalCovers | cache.go:585-615 | the total is at least every entry's size, so the negative clamp is dead code |
| DiskCache.Cache.HandleKnown | cache.go:404-434 | an entry being read stays indexed and pinned until its reader comes back |
| DiskCache.Cache.MakeRoom | cache.go:565-583 | terminates; evicts only unread entries in least-recently-used order, and none without which there was room; reports no room without error only if every remaining entry is being read |
| DiskCache.Cache.Put | cache.go:436-563 | never touches entries being read; a stored chunk is newest; it is silently not stored only if everything left is being read |
| DiskCache.Cache.IndexExisting | cache.go:648-747 | a new process indexes exactly the selected files, newest most recently used, within the limits |
| CacheStartup.SelectNewest | cache.go:648-728 | the one-pass queue with a running total computes the specified selection |
| CacheStartup.NewestAreKept | cache.go:705-713 | in whatever order files are found, every usable file that fits together with all newer ones is kept |
| CacheStartup.OldestFirstExact | cache.go:705-713 | found oldest first, a usable file is kept if and only if it fits together with all newer ones |
| CacheStartup.KeptFits | cache.go:705-713 | what is kept is usable, was found and is within both limits |
| RandomRead.ValidateFileManifest | consumer.go:824-855 | accepts exactly the manifests whose chunks tile the file from zero without gap, overlap or overflow |
| RandomRead.FirstChunk | consumer.go:909-949 | the binary search finds the one chunk that holds the offset |
| RandomRead.CopyChunk | consumer.go:955-967 | copies exactly the overlap of chunk and range, and nothing else of the buffer changes |
| RandomRead.ContentByte | consumer.go:909-949 | a byte of the file is a byte of the chunk that covers it |
| RandomRead.CopyRange | consumer.go:909-949 | the loop fills the buffer with the file's bytes and fails exactly if a chunk that intersects the range cannot be obtained |
| RandomRead.ReadAt | consumer.go:909-949 | a read returns exactly the matching slice of the concatenated chunks, end of file exactly when short, a failure exactly if a chunk of the range cannot be obtained, and the rest of the buffer is left alone |
| PathSelection.InsertExact | publisher.go:876-954 | insertion succeeds exactly if no selected path is at, above or below the new one |
| PathSelection.InsertConflict | publisher.go:876-954 | in a trie of a list of paths, insertion is refused exactly if the path equals, contains or lies in one of them |
| PathSelection.NewNodesCount | publisher.go:876-954 | the node counter is the number of distinct non-empty prefixes |
| PathSelection.NewSelection | publisher.go:876-954 | a list is accepted exactly if it is non-empty, each path and all of them together are within the byte and count limits, none equals or contains another, and the distinct prefixes are within the limit |
| PathSelection.OrderIndependent | publisher.go:876-954 | two lists of the same paths give the same trie |
| PathSelection.OrderDoesNotMatter | publisher.go:876-954 | two lists that are permutations of each other are both accepted or both refused |
| Projection.CopiedExact | publisher.go:1025-1095 | the recursive scan without a selection returns a subtree unchanged, exactly if nothing in it is of an unsupported kind |
| Projection.WholeIsUnchanged | publisher.go:1025-1095 | publishing a directory without a selection gives exactly its entries, and succeeds exactly if all of them are supported |
| Projection.ProjectionExact | publisher.go:956-1125 | the projection shows selected subtrees unchanged, their ancestors as plain directories with time zero, and nothing else |
| Projection.ProjectableExact | publisher.go:956-1125 | the projection succeeds exactly if every selected path can be obtained |
| Projection.HiddenDoesNotShow | publisher.go:956-1125 | sources that agree on what is selected have the same projection |
| Projection.ProjectDirectory | publisher.go:956-1125 | the one recursive scan, of everything without a selection and of what the selection asks for with one, computes the specified result or fails when there is none |
| Projection.SelectionIsPublished | publisher.go:876-1125 | for an accepted list the publication succeeds exactly if every listed path can be obtained |
| Framing.PartsInjective | presignedshare/root_recovery.go:596-667 | length-prefixed parts determine the list of parts |
| Framing.PutBigEndian | sealed_state_store.go:503-511 | writes exactly the big-endian bytes in place |
| SealedFormats.RootRoundTrip | presignedshare/root_recovery.go:150-233 | decoding an encoded record frame gives back metadata and target |
| SealedFormats.RootCanonical | presignedshare/root_recovery.go:183-233 | every accepted frame is the encoding of what was decoded from it |
| SealedFormats.RecordRoundTrip | presignedshare/root_recovery.go:150-233 | the whole record encoding round-trips over a faithful metadata codec |
| SealedFormats.RecordCanonical | presignedshare/root_recovery.go:183-233 | every accepted record encoding re-encodes to itself |
| SealedFormats.FillRoot | presignedshare/root_recovery.go:150-181 | the buffer filled in place is the specified frame |
| SealedFormats.StateRoundTrip | sealed_state_store.go:478-511 | parsing an encoded state file gives back revision and envelope |
| SealedFormats.StateCanonical | sealed_state_store.go:478-511 | every accepted state file is the encoding of what was parsed from it |
| SealedFormats.StateHeaderIsCanonical | sealed_state_store.go:478-501 | a header with the right preamble is the encoding of its own fields, so the closing header comparison never refuses a file |
| SealedFormats.SealForRevision | sealed_state_store.go:404-476 | success means the header parses back and the envelope opens under the binding of exactly that header; it succeeds whenever the protector has a stable length |
| SealedFormats.EnvelopeRoundTrip | publisherstate/protector.go:225-272 | parsing an encoded envelope gives back key identifier, salt and ciphertext |
| SealedFormats.EnvelopeCanonical | publisherstate/protector.go:225-272 | every accepted envelope is the encoding of what was parsed from it |
| SealedFormats.AssociatedDataInjective | publisherstate/protector.go:274-285 | associated data determine prefix and binding |
| SealedFormats.BindingInjective | sealed_state_store.go:513-524 | the binding input determines caller binding, revision and length |

## Left out

- Cryptography (signatures, AEAD, HKDF, SHA-256): digests are collision-free identifiers, signed bytes are authentic values with an arbitrary seal, protectors are abstract functions; equal ETags of one key mean equal bytes.
- Canonical JSON: metadata codecs are abstract functions; round trips assume that parsing what was rendered gives it back.
- Intent identifiers and reference digests of the publication journal: an intent is compared by kind, base, next and bytes instead.
- Journal revisions: a random revision token is modelled by the length of the journal's history, so equal tokens mean the same save; the publication, share and sealed-state files are atomic durable registers whose response may be lost.
- Several channels and repositories in one store: each model fixes one channel and one repository; the binding of a share record to its share identity and root capability is not modelled.
- Wall-clock expiry, deadlines and context cancellation: each is one of the failures that may happen at any request.
- Byte limits on references, bundles and journal files, and version-token validation beyond ETag and length limits.
- File system mechanics: temporary files, sync, rename, locks, identity checks, protected source files, directory batches; a cache file operation either works or fails.
- A consumer without a watermark store, whose watermark lives in memory only, and the lookup, listing and chunk download paths of the consumer.
- SignedPublisher.Publisher.ResignReference: the sealed bytes of the new envelope are arbitrary; that a fresh signature differs from the old one is not claimed.
- SignedPublisher.Publisher.CommitSigned: a conflict is not claimed to mean that the target lost, because another publisher may have settled the intent and opened a new one.
- PathSelection.NewSelection: paths arrive as lists of components; splitting, cleaning and character rules of path strings are not modelled. The trie is a value, not linked nodes updated in place.
- Projection.ProjectDirectory: the source tree is a value that does not change while it is read; file chunking and the limits on name length, depth, path bytes and entries of the scan are not modelled, nor is which error a missing or unsupported path gives.
- ClosureWalk.ResolveSnapshotClosure: a manifest read either works for the whole call or fails for the whole call; the client-encryption and reference checks before the walk, and the resolution seal after it, are not modelled. The sort of the standard library is an insertion sort here.
- DiskCache.Cache.Put: a file write or removal may fail; that the file's bytes are the chunk is a given; entries have numbers instead of addresses for identity.
- DiskCache.Cache.IndexExisting: the standard library's heap is a sorted list; the scan limit, invalid names and removal of dropped files are not modelled.
- Registers.MemoryStore.Get: statistics counters and the distinction between nil and empty data are not modelled; the write number is unbounded.
- Registers.WatermarkFile.CompareAndSwap: a damaged file, locking and the sync of the parent directory are not modelled.
- RandomRead.ReadAt: chunk leases, caching and concurrent downloads are a map from digests to bytes.
- ReaderRetention.Reader.InstallBundle: HTTP transport, header and URL validation and expiry of capabilities are not modelled.
- Mounting, WebDAV, live polling and timers, the S3 adapter and its commissioning probes, metadata caches, client encryption of objects and share capabilities' construction: outside this model; most would add only easy members.
