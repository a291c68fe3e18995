/**
 The share-root publisher: the recoverable path over its sealed write-ahead log, and the
 plain path without a journal, in the presence of every other process.
 */
module RootPublishing {
  import opened Basics
  import opened RootProtocol
  import opened RootStore

  function CommittedOf(version: Version, bundle: Bundle): Committed {
    Committed(bundle.revision, bundle, bundle.generation, bundle.commit, version)
  }

  /** The check of an authenticated observation against the durable anchor. */
  function ObservationError(anchor: Option<Committed>, bundle: Bundle): Option<Error> {
    if anchor.None? then None
    else if bundle.revision < anchor.value.revision then Some(Rollback)
    else if bundle.revision == anchor.value.revision then
      if bundle != anchor.value.logical then Some(SplitBrain)
      else if bundle.generation != anchor.value.generation
              || bundle.commit != anchor.value.commit then Some(CorruptObject)
      else None
    else if bundle.generation < anchor.value.generation then Some(Rollback)
    else if bundle.generation == anchor.value.generation && bundle.commit != anchor.value.commit then Some(SplitBrain)
    else None
  }

  /** An observation passes exactly when anchoring it is an advance. */
  lemma ObservationExact(history: seq<Entry>, record: Record, version: Version, bundle: Bundle)
    requires Genuine(history, record)
    ensures ObservationError(record.committed, bundle).None?
       <==> AnchorAdvances(record.committed, CommittedOf(version, bundle))
  {
  }

  predicate ValidClosure(closure: Closure) {
    && closure.generation != 0 && !closure.commit.IsZero()
    && forall i, j | 0 <= i < j < |closure.objectKeys| :: closure.objectKeys[i] != closure.objectKeys[j]
  }

  predicate SameReference(bundle: Bundle, closure: Closure) {
    && closure.generation == bundle.generation && closure.commit == bundle.commit
    && bundle.referenceKey == closure.referenceKey && bundle.reference == closure.reference
    && bundle.referenceVersion == closure.referenceVersion
  }

  function Elements(keys: seq<string>): set<string> {
    set key | key in keys
  }

  /** The bundle grants access to exactly the closure: its reference and its keys, no more. */
  predicate Represents(bundle: Bundle, closure: Closure) {
    SameReference(bundle, closure) && bundle.capabilities.Keys == Elements(closure.objectKeys)
  }

  lemma {:induction false} DistinctCount(keys: seq<string>)
    requires forall i, j | 0 <= i < j < |keys| :: keys[i] != keys[j]
    ensures |Elements(keys)| == |keys|
  {
    if keys != [] {
      var last := |keys| - 1;
      DistinctCount(keys[..last]);
      assert keys == keys[..last] + [keys[last]];
      assert Elements(keys) == Elements(keys[..last]) + {keys[last]};
    }
  }

  lemma SubsetOfSameSize(small: set<string>, large: set<string>)
    requires small <= large && |small| == |large|
    ensures small == large
  {
    assert |large - small| == 0;
  }

  /** Counting and one-way membership decide equality of the key sets. */
  method MatchesClosure(bundle: Bundle, closure: Closure) returns (matches: bool)
    requires ValidClosure(closure)
    ensures matches <==> Represents(bundle, closure)
  {
    DistinctCount(closure.objectKeys);
    if !SameReference(bundle, closure) || |bundle.capabilities| != |closure.objectKeys| {
      return false;
    }
    for i := 0 to |closure.objectKeys|
      invariant forall j | 0 <= j < i :: closure.objectKeys[j] in bundle.capabilities
    {
      if closure.objectKeys[i] !in bundle.capabilities {
        assert closure.objectKeys[i] in Elements(closure.objectKeys);
        return false;
      }
    }
    SubsetOfSameSize(Elements(closure.objectKeys), bundle.capabilities.Keys);
    return true;
  }

  datatype Publication = Publication(revision: Uint64, version: Version, updated: bool)

  /** The publication names a root that was really visible and grants exactly the closure. */
  ghost predicate PublicationHolds(w: Share, p: Publication, closure: Closure) {
    exists i | 0 <= i < |w.history| ::
      && w.history[i].version == p.version && w.history[i].raw.bundle.revision == p.revision
      && Represents(w.history[i].raw.bundle, closure)
  }

  lemma PublishedHere(w: Share, version: Version, bundle: Bundle, updated: bool, closure: Closure)
    requires Holds(w.history, version, bundle) && Represents(bundle, closure)
    ensures PublicationHolds(w, Publication(bundle.revision, version, updated), closure)
  {
  }

  /** Whether a reload after a failed save is taken as proof that the save happened. */
  predicate Reconciles(observed: Loaded, next: Record, candidate: Option<nat>) {
    observed.record == next && (candidate.None? || candidate == Some(observed.revision))
  }

  /** The reconciliation needs no journal to be there: a fresh journal loads as prepared. */
  lemma UnsavedPreparationReconciles()
    ensures LoadedHolds(EMPTY, Loaded(Prepared(None), 0)) && Saveable([], [], Prepared(None))
    ensures Reconciles(Loaded(Prepared(None), 0), Prepared(None), None)
  {
  }

  /** What a load after the save can return: an absent journal loads with an unused profile. */
  ghost predicate LoadsLater(w: Share, observed: Loaded, used: nat, encrypted: bool) {
    && LoadedHolds(w, observed)
    && (observed.revision == 0 ==>
          if encrypted then observed.record.profile.Some? && observed.record.profile.value >= used
          else observed.record.profile.None?)
  }

  /**
   When reconciliation is proof: every later load that reconciles shows that `next` is
   durable, if and only if `next` is more than a preparation or the share is encrypted.
   */
  lemma ReconciliationExact(next: Record, used: nat, encrypted: bool)
    requires if encrypted then next.profile.Some? && next.profile.value < used else next.profile.None?
    ensures (forall w, observed | LoadsLater(w, observed, used, encrypted)
                                  && Reconciles(observed, next, None) :: next in w.log)
       <==> (encrypted || next != Prepared(None))
  {
    if encrypted || next != Prepared(None) {
      forall w, observed | LoadsLater(w, observed, used, encrypted) && Reconciles(observed, next, None)
        ensures next in w.log
      {
        assert observed.revision != 0;
        assert w.log[observed.revision - 1] == next;
      }
    } else {
      UnsavedPreparationReconciles();
      assert LoadsLater(EMPTY, Loaded(next, 0), used, encrypted) && next !in EMPTY.log;
    }
  }

  /** Why a root that does not serve the closure cannot be replaced by one that does. */
  function ReplaceError(bundle: Bundle, closure: Closure, allowCreate: bool): Option<Error> {
    if allowCreate then Some(Conflict)
    else if closure.generation < bundle.generation then Some(Rollback)
    else if closure.generation == bundle.generation && closure.commit != bundle.commit then Some(SplitBrain)
    else if bundle.revision == MAX_UINT64 then Some(Exhausted)
    else None
  }

  /** A replacement is refused exactly when it could not succeed the root in the register. */
  lemma ReplaceExact(bundle: Bundle, closure: Closure)
    ensures ReplaceError(bundle, closure, false).None? <==>
            exists next: Bundle :: SameReference(next, closure) && Succeeds(bundle, next)
  {
    if ReplaceError(bundle, closure, false).None? {
      var next := Bundle(
        bundle.revision + 1, closure.generation, closure.commit, closure.referenceKey, closure.reference,
        closure.referenceVersion, map[]);
      assert SameReference(next, closure) && Succeeds(bundle, next);
    }
  }

  lemma AnchorBehindNewest(history: seq<Entry>, record: Record)
    requires Disciplined(history) && Genuine(history, record) && record.committed.Some?
    ensures history != [] && ObservationError(record.committed, history[|history| - 1].raw.bundle).None?
  {
    var committed := record.committed.value;
    var i :| 0 <= i < |history| && history[i].version == committed.version
             && history[i].raw.bundle == committed.logical;
    HistoryOrdered(history, i, |history| - 1);
  }

  /** The newest root is never behind any anchor, and an anchor implies that there is a root. */
  lemma NewestPasses(run: seq<Action>, w: Share, loaded: Loaded)
    requires Reaches(run, w) && LoadedHolds(w, loaded)
    ensures w.history == [] ==> loaded.record.committed.None?
    ensures w.history != [] ==>
              ObservationError(loaded.record.committed, w.history[|w.history| - 1].raw.bundle).None?
  {
    LoadedIsGenuine(run, w, loaded);
    if loaded.record.committed.Some? {
      RunInvariant(run, w);
      AnchorBehindNewest(w.history, loaded.record);
    }
  }

  /** A root with the expected ETag is the base that was recorded, byte for byte. */
  lemma ExpectedIsBase(run: seq<Action>, w: Share, loaded: Loaded, root: Entry)
    requires Reaches(run, w) && LoadedHolds(w, loaded) && root in w.history
    requires loaded.record.pending.Some? && loaded.record.pending.value.expected.Some?
    requires loaded.record.pending.value.expected.value.etag == root.version.etag
    ensures loaded.record.pending.value.base == Some(root.raw)
    ensures loaded.record.committed.Some? && loaded.record.committed.value.logical == root.raw.bundle
  {
    LoadedIsGenuine(run, w, loaded);
    RunInvariant(run, w);
    var pending := loaded.record.pending.value;
    assert ValidPending(loaded.record, pending);
    var i :| 0 <= i < |w.history| && w.history[i] == Entry(pending.expected.value, pending.base.value);
    var j :| 0 <= j < |w.history| && w.history[j] == root;
    assert w.history[i].version.etag == w.history[j].version.etag;
  }

  function Newest(history: seq<Entry>): Option<Entry> {
    if history == [] then None else Some(history[|history| - 1])
  }

  /** The closure can be served: it already is, or the newest root may be replaced. */
  predicate Servable(root: Option<Entry>, closure: Closure, allowCreate: bool) {
    if root.None? then allowCreate
    else Represents(root.value.raw.bundle, closure) || ReplaceError(root.value.raw.bundle, closure, allowCreate).None?
  }

  /** The journal holds a target for this closure over exactly this root. */
  ghost predicate StagedOver(loaded: Loaded, root: Option<Entry>, closure: Closure, allowCreate: bool) {
    && loaded.record.pending.Some?
    && var pending := loaded.record.pending.value;
    && pending.closure == closure && pending.allowCreate == allowCreate
    && Represents(pending.target.bundle, closure)
    && (if root.None? then pending.expected.None? && loaded.record.committed.None?
        else
          && pending.expected == Some(root.value.version) && pending.base == Some(root.value.raw)
          && loaded.record.committed == Some(CommittedOf(root.value.version, root.value.raw.bundle)))
  }

  datatype Begun = Done(publication: Publication) | Staged(loaded: Loaded)

  datatype Examined = Settled(loaded: Loaded, entry: Entry) | Ready(loaded: Loaded)

  datatype Sent = Applied(version: Version, loaded: Loaded) | Retry(ambiguous: bool)

  /** One pass of a recovery; `Spent` when the pass would need a write that is not allowed any more. */
  datatype Attempt = Finished(loaded: Loaded, root: Committed, wrote: bool) | Again(loaded: Loaded, ambiguous: bool)
                   | Spent

  /** One round of a publication. */
  datatype Round = Published(publication: Publication) | Continue(loaded: Loaded, wrote: bool, ambiguous: bool)
                 | OutOfWrites

  /** The result of recovering a share's journal. */
  datatype RecoveryResult = RecoveryResult(
    hadPending: bool,
    pendingCleared: bool,
    root: Option<Committed>,
    wroteRoot: bool)

  /** The first component of the publish loop's measure. */
  function Anchored(record: Record): Uint64 {
    if record.committed.None? then 0 else record.committed.value.revision
  }

  class RootPublisher {
    const store: ShareStore
    const encrypted: bool
    /** Whether a signer and a presigner are configured. */
    const canBuild: bool
    const maxAttempts: nat
    var nonces: nat

    constructor (store: ShareStore, encrypted: bool, canBuild: bool, maxAttempts: nat)
      ensures this.store == store && this.encrypted == encrypted
      ensures this.canBuild == canBuild && this.maxAttempts == maxAttempts
    {
      this.store := store;
      this.encrypted := encrypted;
      this.canBuild := canBuild;
      this.maxAttempts := maxAttempts;
      nonces := 0;
    }

    /** The journal, if there is one, belongs to this publisher's encryption profile. */
    ghost predicate Ours(w: Share) {
      w.log != [] ==> w.log[|w.log| - 1].profile.Some? == encrypted
    }

    ghost predicate Holding(loaded: Loaded)
      reads this, store
    {
      && store.Valid() && LoadedHolds(store.w, loaded)
      && loaded.record.profile.Some? == encrypted
      && (loaded.revision == 0 && encrypted ==> loaded.record.profile.value < nonces)
    }

    twostate predicate Advances()
      reads this, store
    {
      store.Advances() && nonces >= old(nonces)
    }

    twostate lemma HoldingStable(loaded: Loaded)
      requires old(Holding(loaded)) && Advances()
      ensures Holding(loaded)
    {
      LoadedStable(old(store.w), store.w, loaded);
    }

    method LoadRecovery() returns (r: Result<Loaded>)
      requires store.Valid()
      modifies this, store
      ensures Advances() && nonces == old(nonces) + 1
      ensures r.Ok? ==> Holding(r.value) && r.value.revision == |store.w.log|
      ensures r.Ok? && r.value.revision == 0 ==>
                r.value.record == Prepared(if encrypted then Some(old(nonces)) else None)
      ensures store.faults == old(store.faults) && Ours(old(store.w)) ==> r.Ok? && store.w == old(store.w)
    {
      var profile := if encrypted then Some(nonces) else None;
      nonces := nonces + 1;
      var loaded :- store.LoadJournal(profile);
      if loaded.revision != 0 && loaded.record.profile.Some? != encrypted {
        return Err(CorruptObject);
      }
      return Ok(loaded);
    }

    /** Saves a record over the one loaded. The validator never refuses what the protocol builds. */
    method Save(current: Loaded, next: Record) returns (r: Result<Loaded>)
      requires Holding(current) && next.profile == current.record.profile
      requires Saveable(store.w.history, store.w.log[..current.revision], next)
      modifies this, store
      ensures Advances()
      ensures r.Ok? ==> Holding(r.value) && r.value.record == next
      ensures r.Ok? && r.value.revision == 0 ==>
                !encrypted && next == Prepared(None) && store.faults > old(store.faults)
      ensures store.faults == old(store.faults) && current.revision == |old(store.w).log| ==>
                r == Ok(Loaded(next, current.revision + 1)) && store.w == Apply(old(store.w), RootProtocol.Save(next))
    {
      var candidate, error := store.CompareAndSwapJournal(current.revision, next);
      if error.None? {
        return Ok(Loaded(next, candidate.value));
      }
      var observed := LoadRecovery();
      if observed.Ok? && Reconciles(observed.value, next, candidate) {
        return observed;
      }
      return Err(if error.value == Error.Precondition then Conflict else Indeterminate);
    }

    /** Prepares a journal. Its success means a durable record exactly when the share is encrypted or nothing failed. */
    method PrepareRecovery() returns (r: Result<()>)
      requires store.Valid()
      modifies this, store
      ensures Advances()
      ensures r.Ok? && store.w.log == [] ==> !encrypted && store.faults > old(store.faults)
      ensures store.faults == old(store.faults) && Ours(old(store.w)) ==>
                r.Ok? && store.w.log != []
    {
      var loaded :- LoadRecovery();
      if loaded.revision != 0 {
        return Ok(());
      }
      assert store.w.log[..loaded.revision] == [];
      var saved := Save(loaded, loaded.record);
      if saved == Err(Conflict) {
        var observed :- LoadRecovery();
        if observed.revision != 0 {
          return Ok(());
        }
      }
      if saved.Err? {
        return Err(saved.error);
      }
      return Ok(());
    }

    /** Makes an observed root the durable anchor and clears a pending write it settles. */
    method Anchor(current: Loaded, version: Version, bundle: Bundle) returns (r: Result<Loaded>)
      requires Holding(current) && Holds(store.w.history, version, bundle) && ValidBundle(bundle)
               && ValidVersion(version)
      requires current.record.pending.Some? ==>
                 && bundle.revision >= current.record.pending.value.targetRevision
                 && (bundle.revision == current.record.pending.value.targetRevision ==>
                       bundle == current.record.pending.value.logical)
      modifies this, store
      ensures Advances() && Holds(store.w.history, version, bundle)
      ensures ObservationError(current.record.committed, bundle).Some? ==>
                r == Err(ObservationError(current.record.committed, bundle).value)
      ensures r.Ok? ==>
                && Holding(r.value) && r.value.revision != 0
                && r.value.record == current.record.(
                                     highest := bundle.revision, pending := None, target := None,
                                     committed := Some(CommittedOf(version, bundle)))
      ensures store.faults == old(store.faults) && current.revision == |old(store.w).log|
              && ObservationError(current.record.committed, bundle).None? ==>
                r.Ok? && r.value.revision == |store.w.log| && store.w.history == old(store.w).history
    {
      LoadedIsGenuine(store.run, store.w, current);
      ObservationExact(store.w.history, current.record, version, bundle);
      var error := ObservationError(current.record.committed, bundle);
      if error.Some? {
        return Err(error.value);
      }
      var committed := CommittedOf(version, bundle);
      if current.record.pending.None? && current.record.highest == committed.revision
         && current.record.committed == Some(committed) {
        return Ok(current);
      }
      var next := current.record.(highest := committed.revision, committed := Some(committed), pending := None,
      target := None);
      assert Saveable(store.w.history, store.w.log[..current.revision], next);
      r := Save(current, next);
      HoldsStable(old(store.w).history, store.w.history, version, bundle);
    }

    /** Signs and presigns a bundle for the closure; either authority may fail. */
    method Build(closure: Closure, revision: Uint64) returns (r: Result<Raw>)
      requires ValidClosure(closure) && revision != 0
      modifies store`faults
      ensures store.faults >= old(store.faults)
      ensures r.Ok? ==>
                && ValidBundle(r.value.bundle) && r.value.bundle.revision == revision
                && Represents(r.value.bundle, closure)
      ensures store.faults == old(store.faults) ==> r.Ok?
    {
      var failed: bool, grant: nat, nonce: nat := *, *, *;
      if failed {
        store.faults := store.faults + 1;
        return Err(Unavailable);
      }
      var capabilities := map key | key in closure.objectKeys :: grant;
      var bundle := Bundle(
        revision, closure.generation, closure.commit, closure.referenceKey, closure.reference,
        closure.referenceVersion, capabilities);
      return Ok(Raw(bundle, if encrypted then nonce else 0));
    }

    /** Journals a new target over an anchored base, before anything is written. */
    method Stage(base: Loaded, root: Option<Entry>, closure: Closure, allowCreate: bool) returns (r: Result<Loaded>)
      requires Holding(base) && ValidClosure(closure) && base.record.pending.None?
      requires if root.None? then allowCreate && base.record.committed.None?
               else
                 && root.value in store.w.history
                 && base.record.committed == Some(CommittedOf(root.value.version, root.value.raw.bundle))
                 && ReplaceError(root.value.raw.bundle, closure, allowCreate).None?
      modifies this, store
      ensures Advances()
      ensures r.Ok? ==> Holding(r.value) && r.value.revision != 0 && StagedOver(r.value, root, closure, allowCreate)
      ensures store.faults == old(store.faults) && base.revision == |old(store.w).log| && canBuild ==>
                r.Ok? && r.value.revision == |store.w.log| && store.w.history == old(store.w).history
    {
      LoadedIsGenuine(store.run, store.w, base);
      if root.Some? {
        VisibleIsValid(store.run, store.w, root.value);
      }
      if !canBuild {
        return Err(AccessDenied);
      }
      var revision := if root.None? then 1 else root.value.raw.bundle.revision + 1;
      var target :- Build(closure, revision);
      var pending := Pending(
        revision, allowCreate, if root.None? then None else Some(root.value.version),
        if root.None? then None else Some(root.value.raw),
        closure, target, target.bundle, closure.generation, closure.commit);
      var next := base.record.(highest := revision, pending := Some(pending), target := Some(target));
      assert ValidPending(next, pending);
      assert Saveable(store.w.history, store.w.log[..base.revision], next);
      r := Save(base, next);
    }

    /** What Begin promises; undisturbed, it finds the closure served or stages it. */
    twostate predicate BegunHolds(recovery: Loaded, closure: Closure, allowCreate: bool, new root: Option<Entry>,
                                  new r: Result<Begun>)
      reads this, store
    {
      && (r.Ok? && r.value.Done? ==>
            PublicationHolds(store.w, r.value.publication, closure) && !r.value.publication.updated)
      && (r.Ok? && r.value.Staged? ==>
            && Holding(r.value.loaded) && r.value.loaded.revision != 0
            && StagedOver(r.value.loaded, root, closure, allowCreate)
            && Anchored(r.value.loaded.record) >= Anchored(recovery.record))
      && (store.faults == old(store.faults) && recovery.revision == |old(store.w).log| && canBuild
          && Servable(root, closure, allowCreate) ==>
            && r.Ok? && store.w.history == old(store.w).history
            && (r.value.Done? <==> root.Some? && Represents(root.value.raw.bundle, closure))
            && (r.value.Staged? ==> r.value.loaded.revision == |store.w.log|))
    }

    method BeginOver(recovery: Loaded, root: Entry, closure: Closure, allowCreate: bool) returns (r: Result<Begun>)
      requires Holding(recovery) && recovery.record.pending.None? && ValidClosure(closure)
      requires root in store.w.history
      modifies this, store
      ensures Advances()
      ensures ObservationError(recovery.record.committed, root.raw.bundle).None? ==>
                BegunHolds(recovery, closure, allowCreate, Some(root), r)
      ensures ObservationError(recovery.record.committed, root.raw.bundle).Some? ==> r.Err?
    {
      VisibleIsValid(store.run, store.w, root);
      var base :- Anchor(recovery, root.version, root.raw.bundle);
      var matches := MatchesClosure(root.raw.bundle, closure);
      if matches {
        PublishedHere(store.w, root.version, root.raw.bundle, false, closure);
        return Ok(Done(Publication(root.raw.bundle.revision, root.version, false)));
      }
      var error := ReplaceError(root.raw.bundle, closure, allowCreate);
      if error.Some? {
        return Err(error.value);
      }
      var staged :- Stage(base, Some(root), closure, allowCreate);
      return Ok(Staged(staged));
    }

    /** With nothing pending: accept a root that already serves the closure, or stage a new one. */
    method Begin(recovery: Loaded, closure: Closure, allowCreate: bool)
      returns (r: Result<Begun>, ghost root: Option<Entry>)
      requires Holding(recovery) && recovery.record.pending.None? && ValidClosure(closure)
      modifies this, store
      ensures Advances()
      ensures BegunHolds(recovery, closure, allowCreate, root, r)
      ensures store.faults == old(store.faults) ==> root == Newest(old(store.w).history)
    {
      LoadedIsGenuine(store.run, store.w, recovery);
      NewestPasses(store.run, store.w, recovery);
      var observed := store.GetRoot();
      HoldingStable(recovery);
      if observed.Err? {
        return Err(observed.error), None;
      }
      if observed.value.Some? {
        r := BeginOver(recovery, observed.value.value, closure, allowCreate);
        return r, observed.value;
      }
      if recovery.record.committed.Some? || recovery.record.highest != 0 || !allowCreate {
        return Err(Rollback), None;
      }
      var staged := Stage(recovery, None, closure, allowCreate);
      if staged.Err? {
        return Err(staged.error), None;
      }
      return Ok(Staged(staged.value)), None;
    }

    /** Follows a base whose version or bytes changed under the same bundle; the target stays. */
    method RefreshExpected(recovery: Loaded, root: Entry) returns (r: Result<Loaded>)
      requires Holding(recovery) && recovery.record.pending.Some? && root in store.w.history
      requires recovery.record.pending.value.expected.Some? && recovery.record.committed.Some?
      requires root.raw.bundle == recovery.record.committed.value.logical
      modifies this, store
      ensures Advances()
      ensures r.Ok? ==>
                && Holding(r.value) && r.value.revision != 0
                && r.value.record.pending == Some(recovery.record.pending.value.(
                                                  expected := Some(root.version), base := Some(root.raw)))
                && r.value.record.target == recovery.record.target
                && SameAnchor(recovery.record.committed, r.value.record.committed)
      ensures store.faults == old(store.faults) && recovery.revision == |old(store.w).log| ==>
                r.Ok? && r.value.revision == |store.w.log| && store.w.history == old(store.w).history
      ensures recovery.record.pending.value.expected == Some(root.version)
              && recovery.record.pending.value.base == Some(root.raw) ==>
                r == Ok(recovery) && store.w == old(store.w)
    {
      LoadedIsGenuine(store.run, store.w, recovery);
      VisibleIsValid(store.run, store.w, root);
      var pending := recovery.record.pending.value;
      if pending.base == Some(root.raw) && pending.expected == Some(root.version) {
        return Ok(recovery);
      }
      var refreshed := pending.(expected := Some(root.version), base := Some(root.raw));
      var next := recovery.record.(committed := Some(CommittedOf(root.version, root.raw.bundle)),
      pending := Some(refreshed));
      assert ValidPending(next, refreshed);
      assert Saveable(store.w.history, store.w.log[..recovery.revision], next);
      r := Save(recovery, next);
    }

    /**
     Compares a pending write with the root: the write is settled once the root is at or
     beyond its revision, and ready to be sent while the root is still its base.
     */
    method ExaminePending(recovery: Loaded) returns (r: Result<Examined>)
      requires Holding(recovery) && recovery.record.pending.Some?
      modifies this, store
      ensures Advances()
      ensures r.Ok? && r.value.Settled? ==>
                && Holding(r.value.loaded) && r.value.loaded.record.pending.None?
                && r.value.loaded.record.committed == Some(CommittedOf(r.value.entry.version, r.value.entry.raw.bundle))
                && Holds(store.w.history, r.value.entry.version, r.value.entry.raw.bundle)
                && r.value.entry.raw.bundle.revision >= recovery.record.pending.value.targetRevision
                && recovery.record.pending.value.targetRevision > Anchored(recovery.record)
                && (r.value.entry.raw.bundle.revision == recovery.record.pending.value.targetRevision ==>
                      r.value.entry.raw.bundle == recovery.record.pending.value.logical)
      ensures r.Ok? && r.value.Ready? ==>
                && Holding(r.value.loaded) && r.value.loaded.record.pending.Some?
                && SamePending(recovery.record.pending.value, r.value.loaded.record.pending.value)
                && r.value.loaded.record.target == recovery.record.target
                && Anchored(r.value.loaded.record) == Anchored(recovery.record)
                && r.value.loaded.revision != 0
      ensures store.faults == old(store.faults) && recovery.revision == |old(store.w).log|
              && Applies(old(store.w).history, recovery.record.pending.value.expected) ==>
                && r.Ok? && r.value.Ready? && store.w.history == old(store.w).history
                && r.value.loaded.revision == |store.w.log|
                && Applies(store.w.history, r.value.loaded.record.pending.value.expected)
    {
      var observed := store.GetRoot();
      HoldingStable(recovery);
      if observed.Err? {
        return Err(Indeterminate);
      }
      if observed.value.None? {
        if recovery.record.pending.value.expected.Some? {
          return Err(Rollback);
        }
        LoadedIsGenuine(store.run, store.w, recovery);
        return Ok(Ready(recovery));
      }
      r := ExamineOver(recovery, observed.value.value);
    }

    method ExamineOver(recovery: Loaded, root: Entry) returns (r: Result<Examined>)
      requires Holding(recovery) && recovery.record.pending.Some? && root in store.w.history
      modifies this, store
      ensures Advances()
      ensures r.Ok? && r.value.Settled? ==>
                && r.value.entry == root
                && Holding(r.value.loaded) && r.value.loaded.record.pending.None?
                && r.value.loaded.record.committed == Some(CommittedOf(root.version, root.raw.bundle))
                && Holds(store.w.history, root.version, root.raw.bundle)
                && root.raw.bundle.revision >= recovery.record.pending.value.targetRevision > Anchored(recovery.record)
                && (root.raw.bundle.revision == recovery.record.pending.value.targetRevision ==>
                      root.raw.bundle == recovery.record.pending.value.logical)
      ensures r.Ok? && r.value.Ready? ==>
                && Holding(r.value.loaded) && r.value.loaded.record.pending.Some?
                && SamePending(recovery.record.pending.value, r.value.loaded.record.pending.value)
                && r.value.loaded.record.target == recovery.record.target
                && Anchored(r.value.loaded.record) == Anchored(recovery.record)
                && r.value.loaded.revision != 0
      ensures store.faults == old(store.faults) && recovery.revision == |old(store.w).log|
              && recovery.record.pending.value.expected.Some?
              && recovery.record.pending.value.expected.value.etag == root.version.etag ==>
                && r.Ok? && r.value.Ready? && store.w.history == old(store.w).history
                && r.value.loaded.revision == |store.w.log|
                && r.value.loaded.record.pending.value.expected.Some?
                && r.value.loaded.record.pending.value.expected.value.etag == root.version.etag
    {
      LoadedIsGenuine(store.run, store.w, recovery);
      VisibleIsValid(store.run, store.w, root);
      var bundle, pending := root.raw.bundle, recovery.record.pending.value;
      if pending.expected.Some? && pending.expected.value.etag == root.version.etag {
        ExpectedIsBase(store.run, store.w, recovery, root);
      }
      if Some(root.raw) == recovery.record.target {
        var anchored :- Anchor(recovery, root.version, bundle);
        return Ok(Settled(anchored, root));
      }
      var error := ObservationError(recovery.record.committed, bundle);
      if error.Some? {
        return Err(error.value);
      }
      if bundle.revision == pending.targetRevision && bundle != pending.logical {
        return Err(SplitBrain);
      }
      if bundle.revision >= pending.targetRevision {
        var anchored :- Anchor(recovery, root.version, bundle);
        return Ok(Settled(anchored, root));
      }
      if pending.expected.None? || recovery.record.committed.None?
         || bundle.revision != recovery.record.committed.value.revision
         || bundle != recovery.record.committed.value.logical {
        return Err(Rollback);
      }
      var refreshed :- RefreshExpected(recovery, root);
      return Ok(Ready(refreshed));
    }

    /** Sends the journaled target, and anchors it if the store says it was written. */
    method SendTarget(recovery: Loaded) returns (r: Result<Sent>)
      requires Holding(recovery) && recovery.revision != 0 && recovery.record.pending.Some?
      modifies this, store
      ensures Advances()
      ensures r.Ok? && r.value.Applied? ==>
                && Holding(r.value.loaded) && r.value.loaded.record.pending.None?
                && r.value.loaded.record.committed ==
                   Some(CommittedOf(r.value.version, recovery.record.pending.value.logical))
                && recovery.record.pending.value.logical == recovery.record.pending.value.target.bundle
                && recovery.record.pending.value.logical.revision == recovery.record.pending.value.targetRevision
                && Holds(store.w.history, r.value.version, recovery.record.pending.value.logical)
                && |store.w.history| > |old(store.w).history|
      ensures r.Ok? && r.value.Retry? ==> Holding(recovery)
      ensures store.faults == old(store.faults) && recovery.revision == |old(store.w).log|
              && Applies(old(store.w).history, recovery.record.pending.value.expected) ==>
                && r.Ok? && r.value.Applied?
                && store.w.history == old(store.w).history
                                      + [Entry(r.value.version, recovery.record.pending.value.target)]
    {
      LoadedIsGenuine(store.run, store.w, recovery);
      var pending := recovery.record.pending.value;
      assert ValidPending(recovery.record, pending);
      var source := Journaled(recovery.revision - 1);
      assert store.w.log[recovery.revision - 1] == recovery.record;
      assert Sourced(store.w, source, pending.target);
      var put := store.PutRoot(source, pending.target);
      HoldingStable(recovery);
      if put.Ok? {
        VisibleIsValid(store.run, store.w, Entry(put.value, pending.target));
        TargetPasses(recovery);
        var anchored :- Anchor(recovery, put.value, pending.target.bundle);
        return Ok(Applied(put.value, anchored));
      }
      if put.error == Error.Precondition {
        return Ok(Retry(false));
      }
      var cancelled: bool := *;
      if cancelled {
        return Err(Indeterminate);
      }
      return Ok(Retry(true));
    }

    /** A pending target passes the check against its own anchor. */
    lemma TargetPasses(recovery: Loaded)
      requires ValidRecord(recovery.record) && recovery.record.pending.Some?
      ensures ObservationError(recovery.record.committed, recovery.record.pending.value.target.bundle).None?
    {
      assert ValidPending(recovery.record, recovery.record.pending.value);
    }

    /** Reconciles an idle journal with the root; a vanished root is a rollback. */
    method RecoverIdle(recovery: Loaded) returns (r: Result<RecoveryResult>, ghost settled: Loaded)
      requires Holding(recovery) && recovery.record.pending.None?
      modifies this, store
      ensures Advances()
      ensures r.Ok? ==> !r.value.hadPending && !r.value.pendingCleared && !r.value.wroteRoot
      ensures r.Ok? && r.value.root.None? ==> settled == recovery && recovery.record.committed.None?
      ensures r.Ok? && r.value.root.Some? ==>
                && Holding(settled) && settled.record.pending.None? && settled.record.committed == r.value.root
      ensures store.faults == old(store.faults) && recovery.revision == |old(store.w).log| ==> r.Ok?
    {
      settled := recovery;
      LoadedIsGenuine(store.run, store.w, recovery);
      NewestPasses(store.run, store.w, recovery);
      var observed := store.GetRoot();
      HoldingStable(recovery);
      if observed.Err? {
        return Err(observed.error), settled;
      }
      if observed.value.None? {
        if recovery.record.committed.Some? || recovery.record.highest != 0 {
          return Err(Rollback), settled;
        }
        return Ok(RecoveryResult(false, false, None, false)), settled;
      }
      var root := observed.value.value;
      var anchored := Anchor(recovery, root.version, root.raw.bundle);
      if anchored.Err? {
        return Err(anchored.error), settled;
      }
      return Ok(RecoveryResult(false, false, Some(CommittedOf(root.version, root.raw.bundle)), false)), anchored.value;
    }

    /** What a successful recovery of a pending write establishes. */
    twostate predicate RecoveredHolds(start: Loaded, new result: RecoveryResult, new settled: Loaded)
      requires start.record.pending.Some?
      reads this, store
    {
      && result.hadPending && result.pendingCleared && result.root.Some?
      && Holding(settled) && settled.record.pending.None? && settled.record.committed == result.root
      && result.root.value.revision >= start.record.pending.value.targetRevision
      && (result.root.value.revision == start.record.pending.value.targetRevision ==>
            result.root.value.logical == start.record.pending.value.logical)
      && (result.wroteRoot ==>
            && |store.w.history| > |old(store.w).history|
            && result.root.value.logical == start.record.pending.value.logical)
    }

    /** Compares once and writes at most once. */
    method AttemptPending(recovery: Loaded, mayWrite: bool) returns (r: Result<Attempt>)
      requires Holding(recovery) && recovery.record.pending.Some? && recovery.revision != 0
      modifies this, store
      ensures Advances()
      ensures r.Ok? && r.value.Finished? ==>
                RecoveredHolds(recovery, RecoveryResult(true, true, Some(r.value.root), r.value.wrote), r.value.loaded)
      ensures r.Ok? && r.value.Again? ==>
                && mayWrite && Holding(r.value.loaded) && r.value.loaded.revision != 0
                && r.value.loaded.record.pending.Some?
                && SamePending(recovery.record.pending.value, r.value.loaded.record.pending.value)
      ensures store.faults == old(store.faults) && recovery.revision == |old(store.w).log| && mayWrite
              && Applies(old(store.w).history, recovery.record.pending.value.expected) ==>
                && r.Ok? && r.value.Finished? && r.value.wrote
                && |store.w.history| == |old(store.w).history| + 1
                && Newest(store.w.history).value.raw == recovery.record.pending.value.target
    {
      var examined :- ExaminePending(recovery);
      if examined.Settled? {
        var entry := examined.entry;
        return Ok(Finished(examined.loaded, CommittedOf(entry.version, entry.raw.bundle), false));
      }
      if !mayWrite {
        return Ok(Spent);
      }
      var sent :- SendTarget(examined.loaded);
      if sent.Applied? {
        return Ok(Finished(sent.loaded, CommittedOf(sent.version, recovery.record.pending.value.logical), true));
      }
      return Ok(Again(examined.loaded, sent.ambiguous));
    }

    method SettlePending(start: Loaded) returns (r: Result<RecoveryResult>, ghost settled: Loaded)
      requires Holding(start) && start.record.pending.Some? && start.revision != 0
      modifies this, store
      ensures Advances()
      ensures r.Ok? ==> RecoveredHolds(start, r.value, settled)
      ensures store.faults == old(store.faults) && start.revision == |old(store.w).log| && maxAttempts > 0
              && Applies(old(store.w).history, start.record.pending.value.expected) ==>
                && r.Ok? && r.value.wroteRoot
                && |store.w.history| == |old(store.w).history| + 1
                && Newest(store.w.history).value.raw == start.record.pending.value.target
    {
      settled := start;
      var recovery, writeAttempts, ambiguous := start, 0, false;
      while true
        invariant Advances() && Holding(recovery) && recovery.revision != 0
        invariant recovery.record.pending.Some?
                  && SamePending(start.record.pending.value, recovery.record.pending.value)
        invariant writeAttempts <= maxAttempts
        invariant store.faults == old(store.faults) && start.revision == |old(store.w).log| && maxAttempts > 0
                  && Applies(old(store.w).history, start.record.pending.value.expected) ==>
                    store.w == old(store.w) && recovery == start && writeAttempts == 0
        decreases maxAttempts - writeAttempts
      {
        var attempt := AttemptPending(recovery, writeAttempts < maxAttempts);
        if attempt.Err? {
          return Err(attempt.error), settled;
        }
        match attempt.value
        case Finished(loaded, root, wrote) =>
          return Ok(RecoveryResult(true, true, Some(root), wrote)), loaded;
        case Spent =>
          return Err(if ambiguous then Indeterminate else Conflict), settled;
        case Again(loaded, unclear) =>
          recovery, writeAttempts, ambiguous := loaded, writeAttempts + 1, ambiguous || unclear;
      }
    }

    /**
     Settles the one journaled root write without any signing authority. On success the
     journal is idle over a root that was really visible, at or beyond the pending revision,
     and at that revision exactly the journaled bundle.
     */
    method RecoverPending() returns (r: Result<RecoveryResult>, ghost start: Loaded, ghost settled: Loaded)
      requires store.Valid()
      modifies this, store
      ensures Advances()
      ensures r.Ok? ==>
                && LoadedHolds(store.w, start) && start.revision != 0
                && r.value.hadPending == r.value.pendingCleared == start.record.pending.Some?
                && Holding(settled) && settled.record.pending.None? && settled.record.committed == r.value.root
      ensures r.Ok? && r.value.hadPending ==> RecoveredHolds(start, r.value, settled)
      ensures store.faults == old(store.faults) && Ours(old(store.w)) && old(store.w).log != [] ==>
                var pending := old(store.w).log[|old(store.w).log| - 1].pending;
                && (pending.None? ==> r.Ok?)
                && (pending.Some? && maxAttempts > 0 && Applies(old(store.w).history, pending.value.expected) ==>
                      && r.Ok? && r.value.wroteRoot && |store.w.history| == |old(store.w).history| + 1
                      && Newest(store.w.history).value.raw == pending.value.target)
    {
      start, settled := Loaded(Prepared(None), 0), Loaded(Prepared(None), 0);
      var load := LoadRecovery();
      if load.Err? {
        return Err(load.error), start, settled;
      }
      start, settled := load.value, load.value;
      if load.value.revision == 0 {
        return Err(CorruptObject), start, settled;
      }
      if load.value.record.pending.None? {
        r, settled := RecoverIdle(load.value);
      } else {
        r, settled := SettlePending(load.value);
      }
    }

    /** A settled write either serves the closure, or decides whether to go on. */
    method ConcludeSettled(pending: Pending, target: Option<Raw>, entry: Entry, closure: Closure, allowCreate: bool)
      returns (r: Result<Option<Publication>>)
      requires ValidClosure(closure) && Holds(store.w.history, entry.version, entry.raw.bundle)
      ensures r.Ok? && r.value.Some? ==>
                PublicationHolds(store.w, r.value.value, closure)
                && r.value.value.updated == (target == Some(entry.raw))
      ensures r.Ok? && r.value.None? ==> !Represents(entry.raw.bundle, closure)
      ensures Represents(entry.raw.bundle, closure) ==> r.Ok?
    {
      var matches := MatchesClosure(entry.raw.bundle, closure);
      if matches {
        var updated := target == Some(entry.raw);
        PublishedHere(store.w, entry.version, entry.raw.bundle, updated, closure);
        return Ok(Some(Publication(entry.raw.bundle.revision, entry.version, updated)));
      }
      if entry.raw.bundle.revision > pending.targetRevision {
        var error := ReplaceError(entry.raw.bundle, closure, allowCreate);
        if error.Some? && error.value != Exhausted {
          return Err(error.value);
        }
      }
      return Ok(None);
    }

    /** Sends a pending target after proving that it is the one this request asks for. */
    method SendRequested(recovery: Loaded, closure: Closure, allowCreate: bool, mayWrite: bool)
      returns (r: Result<Option<Sent>>)
      requires Holding(recovery) && recovery.revision != 0 && recovery.record.pending.Some? && ValidClosure(closure)
      modifies this, store
      ensures Advances()
      ensures r.Ok? && r.value.None? ==> !mayWrite
      ensures r.Ok? && r.value.Some? && r.value.value.Applied? ==>
                PublicationHolds(
                  store.w, Publication(recovery.record.pending.value.targetRevision, r.value.value.version, true),
                  closure)
      ensures r.Ok? && r.value.Some? && r.value.value.Retry? ==> mayWrite && Holding(recovery)
      ensures store.faults == old(store.faults) && recovery.revision == |old(store.w).log| && mayWrite
              && Applies(old(store.w).history, recovery.record.pending.value.expected)
              && recovery.record.pending.value.closure == closure
              && recovery.record.pending.value.allowCreate == allowCreate
              && Represents(recovery.record.pending.value.target.bundle, closure) ==>
                && r.Ok? && r.value.Some? && r.value.value.Applied?
                && store.w.history == old(store.w).history
                                      + [Entry(r.value.value.version, recovery.record.pending.value.target)]
    {
      var pending := recovery.record.pending.value;
      if pending.allowCreate != allowCreate || pending.closure != closure {
        return Err(CorruptObject);
      }
      var matches := MatchesClosure(pending.target.bundle, closure);
      if !matches {
        return Err(CorruptObject);
      }
      if !mayWrite {
        return Ok(None);
      }
      var sent :- SendTarget(recovery);
      if sent.Applied? {
        PublishedHere(store.w, sent.version, pending.logical, true, closure);
      }
      return Ok(Some(sent));
    }

    /** Nothing stands in the way of serving the closure. */
    ghost predicate Unobstructed(w: Share, closure: Closure, allowCreate: bool) {
      && Ours(w) && (w.log != [] ==> w.log[|w.log| - 1].pending.None?)
      && canBuild && maxAttempts > 0 && Servable(Newest(w.history), closure, allowCreate)
    }

    /** What an undisturbed publication of a servable closure does to the register. */
    ghost predicate Served(before: seq<Entry>, after: seq<Entry>, closure: Closure, publication: Publication) {
      if before != [] && Represents(Newest(before).value.raw.bundle, closure) then
        after == before && !publication.updated
      else
        && publication.updated && |after| == |before| + 1 && after[..|before|] == before
        && Represents(Newest(after).value.raw.bundle, closure)
    }

    /** The journal as it is at the start, or with the closure staged over the newest root. */
    ghost predicate OnCourse(history: seq<Entry>, now: Share, recovery: Loaded, closure: Closure, allowCreate: bool) {
      && now.history == history && recovery.revision == |now.log|
      && (recovery.record.pending.Some? ==>
            && StagedOver(recovery, Newest(history), closure, allowCreate)
            && (history == [] || !Represents(Newest(history).value.raw.bundle, closure)))
    }

    /** A round with a pending write: settle it, or send it if it is the one asked for. */
    method PendingRound(recovery: Loaded, closure: Closure, allowCreate: bool, mayWrite: bool)
      returns (r: Result<Round>)
      requires Holding(recovery) && ValidClosure(closure) && recovery.record.pending.Some? && recovery.revision != 0
      modifies this, store
      ensures Advances()
      ensures r.Ok? && r.value.Published? ==> PublicationHolds(store.w, r.value.publication, closure)
      ensures r.Ok? && r.value.OutOfWrites? ==> !mayWrite
      ensures r.Ok? && r.value.Continue? ==>
                && Holding(r.value.loaded)
                && (r.value.loaded.record.pending.Some? ==> r.value.loaded.revision != 0)
                && (if r.value.wrote then
                      mayWrite && r.value.loaded.record.pending.Some?
                      && Anchored(r.value.loaded.record) == Anchored(recovery.record)
                    else Anchored(r.value.loaded.record) > Anchored(recovery.record))
      ensures store.faults == old(store.faults) && mayWrite
              && OnCourse(old(store.w).history, old(store.w), recovery, closure, allowCreate) ==>
                r.Ok? && r.value.Published?
                && Served(old(store.w).history, store.w.history, closure, r.value.publication)
    {
      var examined :- ExaminePending(recovery);
      if examined.Settled? {
        var concluded :- ConcludeSettled(
          recovery.record.pending.value, recovery.record.target, examined.entry, closure, allowCreate);
        if concluded.Some? {
          return Ok(Published(concluded.value));
        }
        return Ok(Continue(examined.loaded, false, false));
      }
      var sent :- SendRequested(examined.loaded, closure, allowCreate, mayWrite);
      if sent.None? {
        return Ok(OutOfWrites);
      }
      if sent.value.Applied? {
        return Ok(Published(Publication(recovery.record.pending.value.targetRevision, sent.value.version, true)));
      }
      return Ok(Continue(examined.loaded, true, sent.value.ambiguous));
    }

    /** One round of the publish loop, with what it takes off the loop's measure. */
    method PublishRound(recovery: Loaded, closure: Closure, allowCreate: bool, mayWrite: bool)
      returns (r: Result<Round>)
      requires Holding(recovery) && ValidClosure(closure)
      requires recovery.record.pending.Some? ==> recovery.revision != 0
      modifies this, store
      ensures Advances()
      ensures r.Ok? && r.value.Published? ==> PublicationHolds(store.w, r.value.publication, closure)
      ensures r.Ok? && r.value.OutOfWrites? ==> !mayWrite
      ensures r.Ok? && r.value.Continue? ==>
                && Holding(r.value.loaded)
                && (r.value.loaded.record.pending.Some? ==> r.value.loaded.revision != 0)
                && Anchored(r.value.loaded.record) >= Anchored(recovery.record)
                && (Anchored(r.value.loaded.record) == Anchored(recovery.record) ==>
                      && r.value.loaded.record.pending.Some?
                      && (recovery.record.pending.Some? ==> r.value.wrote))
                && (r.value.wrote ==> mayWrite)
      ensures store.faults == old(store.faults) && canBuild && mayWrite
              && OnCourse(old(store.w).history, old(store.w), recovery, closure, allowCreate)
              && Servable(Newest(old(store.w).history), closure, allowCreate) ==>
                && r.Ok? && !r.value.OutOfWrites?
                && (r.value.Published? ==> Served(old(store.w).history, store.w.history, closure, r.value.publication))
                && (r.value.Continue? ==>
                      && recovery.record.pending.None? && !r.value.wrote
                      && r.value.loaded.record.pending.Some?
                      && OnCourse(old(store.w).history, store.w, r.value.loaded, closure, allowCreate))
    {
      if recovery.record.pending.Some? {
        r := PendingRound(recovery, closure, allowCreate, mayWrite);
        return;
      }
      var begun, root := Begin(recovery, closure, allowCreate);
      if begun.Err? {
        return Err(begun.error);
      }
      if begun.value.Done? {
        return Ok(Published(begun.value.publication));
      }
      return Ok(Continue(begun.value.loaded, false, false));
    }

    /**
     The publish loop. It ends under any answers of the store and the journal: every round
     raises the anchored revision, or stages a write, or uses up one of the allowed writes.
     */
    method PublishFrom(start: Loaded, closure: Closure, allowCreate: bool) returns (r: Result<Publication>)
      requires Holding(start) && ValidClosure(closure)
      requires start.record.pending.Some? ==> start.revision != 0
      modifies this, store
      ensures Advances()
      ensures r.Ok? ==> PublicationHolds(store.w, r.value, closure)
      ensures store.faults == old(store.faults) && canBuild && maxAttempts > 0
              && start.revision == |old(store.w).log| && start.record.pending.None?
              && Servable(Newest(old(store.w).history), closure, allowCreate) ==>
                r.Ok? && Served(old(store.w).history, store.w.history, closure, r.value)
    {
      ghost var history := store.w.history;
      ghost var unobstructed :=
        && canBuild && maxAttempts > 0 && start.revision == |store.w.log| && start.record.pending.None?
        && Servable(Newest(history), closure, allowCreate);
      var recovery, writeAttempts, ambiguous := start, 0, false;
      while true
        invariant Advances() && Holding(recovery)
        invariant recovery.record.pending.Some? ==> recovery.revision != 0
        invariant writeAttempts <= maxAttempts
        invariant store.faults == old(store.faults) && unobstructed ==>
                    OnCourse(history, store.w, recovery, closure, allowCreate) && writeAttempts == 0
        decreases MAX_UINT64 - Anchored(recovery.record), if recovery.record.pending.None? then 1 else 0,
                  maxAttempts - writeAttempts
      {
        var round :- PublishRound(recovery, closure, allowCreate, writeAttempts < maxAttempts);
        match round
        case Published(publication) =>
          return Ok(publication);
        case OutOfWrites =>
          return Err(if ambiguous then Indeterminate else Conflict);
        case Continue(loaded, wrote, unclear) =>
          recovery, ambiguous := loaded, ambiguous || unclear;
          if wrote {
            writeAttempts := writeAttempts + 1;
          }
      }
    }

    /**
     Publishes a closure through the write-ahead log. Success names a visible root that
     grants exactly the closure; undisturbed and unobstructed, it succeeds.
     */
    method PublishRecoverable(closure: Closure, allowCreate: bool) returns (r: Result<Publication>)
      requires store.Valid()
      modifies this, store
      ensures Advances()
      ensures r.Ok? ==> PublicationHolds(store.w, r.value, closure)
      ensures store.faults == old(store.faults) && ValidClosure(closure)
              && Unobstructed(old(store.w), closure, allowCreate) ==>
                r.Ok? && Served(old(store.w).history, store.w.history, closure, r.value)
    {
      if !ValidClosure(closure) {
        return Err(CorruptObject);
      }
      var recovery :- LoadRecovery();
      r := PublishFrom(recovery, closure, allowCreate);
    }

    /** One conditional write over an observed root; None means that the next round decides. */
    method WriteOver(root: Option<Entry>, closure: Closure) returns (r: Result<Option<Publication>>, ambiguous: bool)
      requires store.Valid() && ValidClosure(closure)
      requires root.Some? ==> root.value in store.w.history && ReplaceError(root.value.raw.bundle, closure, false).None?
      modifies store
      ensures store.Advances()
      ensures r.Ok? && r.value.Some? ==> PublicationHolds(store.w, r.value.value, closure) && r.value.value.updated
      ensures store.faults == old(store.faults) && root == Newest(old(store.w).history) ==>
                && r.Ok? && r.value.Some? && |store.w.history| == |old(store.w).history| + 1
                && store.w.history[..|old(store.w).history|] == old(store.w).history
                && Represents(Newest(store.w.history).value.raw.bundle, closure)
    {
      ambiguous := false;
      var revision := if root.None? then 1 else root.value.raw.bundle.revision + 1;
      var build := Build(closure, revision);
      if build.Err? {
        return Err(build.error), false;
      }
      var target := build.value;
      assert Sourced(store.w, Plain(root), target);
      var put := store.PutRoot(Plain(root), target);
      if put.Ok? {
        PublishedHere(store.w, put.value, target.bundle, true, closure);
        return Ok(Some(Publication(revision, put.value, true))), false;
      }
      if put.error == Error.Precondition {
        return Ok(None), false;
      }
      var observed := store.GetRoot();
      if observed.Ok? && observed.value.Some? {
        if observed.value.value.raw == target {
          PublishedHere(store.w, observed.value.value.version, target.bundle, true, closure);
          return Ok(Some(Publication(revision, observed.value.value.version, true))), true;
        }
        return Ok(None), true;
      }
      return Err(Indeterminate), true;
    }

    /** One round of the plain path: observe, decide, write. */
    method PlainRound(closure: Closure, allowCreate: bool, unclear: bool)
      returns (r: Result<Option<Publication>>, ambiguous: bool)
      requires store.Valid() && ValidClosure(closure)
      modifies store
      ensures store.Advances()
      ensures r.Ok? && r.value.Some? ==> PublicationHolds(store.w, r.value.value, closure)
      ensures store.faults == old(store.faults) && Servable(Newest(old(store.w).history), closure, allowCreate) ==>
                r.Ok? && r.value.Some? && Served(old(store.w).history, store.w.history, closure, r.value.value)
    {
      ambiguous := unclear;
      var observed := store.GetRoot();
      if observed.Err? {
        return Err(if ambiguous then Indeterminate else observed.error), ambiguous;
      }
      var root := observed.value;
      if root.None? && !allowCreate {
        return Err(Rollback), ambiguous;
      }
      if root.Some? {
        var matches := MatchesClosure(root.value.raw.bundle, closure);
        if matches {
          PublishedHere(store.w, root.value.version, root.value.raw.bundle, false, closure);
          return Ok(Some(Publication(root.value.raw.bundle.revision, root.value.version, false))), ambiguous;
        }
        var error := ReplaceError(root.value.raw.bundle, closure, allowCreate);
        if error.Some? {
          return Err(error.value), ambiguous;
        }
      }
      var lost;
      r, lost := WriteOver(root, closure);
      ambiguous := ambiguous || lost;
    }

    /** Publishes without a journal: a bounded compare-and-swap loop. */
    method PublishPlain(closure: Closure, allowCreate: bool) returns (r: Result<Publication>)
      requires store.Valid()
      modifies store
      ensures store.Advances()
      ensures r.Ok? ==> PublicationHolds(store.w, r.value, closure)
      ensures store.faults == old(store.faults) && ValidClosure(closure) && maxAttempts > 0
              && Servable(Newest(old(store.w).history), closure, allowCreate) ==>
                r.Ok? && Served(old(store.w).history, store.w.history, closure, r.value)
    {
      if !ValidClosure(closure) {
        return Err(CorruptObject);
      }
      ghost var servable := Servable(Newest(store.w.history), closure, allowCreate);
      var ambiguous := false;
      for attempt := 0 to maxAttempts
        invariant store.Advances()
        invariant store.faults == old(store.faults) && servable ==> attempt == 0 && store.w == old(store.w)
      {
        var written;
        written, ambiguous := PlainRound(closure, allowCreate, ambiguous);
        if written.Err? {
          return Err(written.error);
        }
        if written.value.Some? {
          return Ok(written.value.value);
        }
      }
      return Err(if ambiguous then Indeterminate else Conflict);
    }
  }
}
