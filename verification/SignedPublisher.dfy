/**
 The publisher's code over the shared object store and its journal: staging, the durable
 begin, recovery of a pending reference write, and re-signing.
 */
module SignedPublisher {
  import opened Basics
  import opened Ancestry
  import opened ReferenceChain
  import opened PublicationProtocol
  import opened PublicationCloud

  const RECOVERY_ATTEMPTS := 4

  /** Nothing a publisher over `journal` relies on was taken back. */
  ghost predicate Grows(before: World, after: World, journal: nat) {
    && Submap(before.commits, after.commits)
    && HistoryExtends(before.history, after.history)
    && LogExtends(Log(before, journal), Log(after, journal))
  }

  datatype Loaded = Loaded(state: JournalState, revision: nat)

  datatype Snapshot = Snapshot(mark: Watermark, root: Digest)

  datatype Outcome = NothingPending | Applied | Superseded

  /** `intent` is the operation the verdict is about. */
  datatype Recovery = Recovery(outcome: Outcome, intent: Option<Intent>, current: Option<Snapshot>)

  /** What an outcome reported for a publish intent means. */
  ghost predicate VerdictHolds(w: World, intent: Intent, outcome: Outcome) {
    && (outcome == Applied || outcome == Superseded)
    && (outcome == Applied <==> Published(w.history, intent.next))
    && (outcome == Superseded <==> LostTo(w.history, intent.next))
  }

  /** The journal has held a state with nothing pending at or after save number `floor`. */
  ghost predicate Cleared(w: World, journal: nat, floor: nat) {
    exists k :: floor <= k < |Log(w, journal)| && Log(w, journal)[k].pending.None?
  }

  /**
   What an outcome means for the operation it is about. A re-sign is applied by its exact
   bytes, and superseded by a third envelope after the one it was to replace.
   */
  ghost predicate Decided(w: World, intent: Intent, outcome: Outcome) {
    if intent.kind == Publish then VerdictHolds(w, intent, outcome)
    else
      || (outcome == Applied && Shown(w.history, intent.reference))
      || (outcome == Superseded && Overridden(w.history, intent))
  }

  /** Against some recorded attempt of the same re-sign a different winner became visible. */
  ghost predicate Beaten(w: World, journal: nat, intent: Intent) {
    exists k | 0 <= k < |Log(w, journal)| ::
      Log(w, journal)[k].pending.Some? && BeatenAs(w, Log(w, journal)[k].pending.value, intent)
  }

  ghost predicate BeatenAs(w: World, recorded: Intent, intent: Intent) {
    SameIntent(recorded, intent) && Overridden(w.history, recorded)
  }

  /** What recovery reports about a recorded operation. */
  ghost predicate ResolutionHolds(w: World, journal: nat, intent: Intent, outcome: Outcome) {
    if intent.kind == Resign && outcome == Superseded then Beaten(w, journal, intent) else Decided(w, intent, outcome)
  }

  /** A walk over readable commits answers for the whole repository. */
  lemma WalkIsGlobal(readable: Commits, commits: Commits, candidate: Watermark, anchor: Watermark)
    requires Submap(readable, commits) && 0 < anchor.generation < candidate.generation
    requires candidate.repository == anchor.repository
    ensures var walk := WalkAnswer(readable, candidate, anchor);
            && (walk == Accepted ==> Descends(commits, candidate, anchor))
            && (walk == Rejected(SplitBrain) ==> !Descends(commits, candidate, anchor))
    ensures readable == commits && Traceable(commits, candidate, anchor.generation) ==>
              WalkAnswer(readable, candidate, anchor) in {Accepted, Rejected(SplitBrain)}
  {
    var distance := candidate.generation - anchor.generation;
    WalkMeaning(readable, candidate, anchor);
    if Ancestor(readable, candidate.commit, candidate.generation, distance).Some? {
      AncestorStable(readable, commits, candidate.commit, candidate.generation, distance);
    }
  }

  /** A publish intent is decided by any published tip that is not older than its target. */
  lemma TipDecides(w: World, intent: Intent, tip: Watermark, descends: bool)
    requires Inv(w) && Published(w.history, tip) && ValidIntent(intent)
    requires intent.next.generation <= tip.generation
    requires descends == SameOrDescends(w.commits, tip, intent.next)
    ensures VerdictHolds(w, intent, if descends then Applied else Superseded)
  {
    WalkDecides(w.commits, w.history, tip, intent.next);
    VerdictsExclude(w.commits, w.history, intent.next);
  }

  /** `found` was the visible reference object at some time. */
  ghost predicate Seen(w: World, found: Object) {
    && ValidVersion(found.version) && ValidWatermark(MarkOf(found.data))
    && exists i | 0 <= i < |w.history| :: w.history[i] == Entry(found.version.etag, found.data)
  }

  /** `found` was the visible reference object at or after a time at which `original` was. */
  ghost predicate SeenAfter(history: seq<Entry>, original: Envelope, found: Object) {
    exists i, j | 0 <= i <= j < |history| :: history[i].data == original
                                             && history[j] == Entry(found.version.etag, found.data)
  }

  /** What is observed after an operation was recorded is not older than its own observation. */
  lemma RecordedIsOlder(before: seq<Entry>, after: seq<Entry>, intent: Intent, found: Object)
    requires HistoryExtends(before, after) && Witnessed(before, intent) && intent.base.Some?
    requires after != [] && after[|after| - 1] == Entry(found.version.etag, found.data)
    ensures SeenAfter(after, intent.expected.value.reference, found)
  {
    var i :| 0 <= i < |before| && before[i].data == intent.expected.value.reference;
    assert after[i] == before[i] && i <= |after| - 1;
  }

  /** A third envelope observed after the original overrides a re-sign. */
  lemma ThirdOverrides(history: seq<Entry>, intent: Intent, found: Object)
    requires intent.expected.Some? && SeenAfter(history, intent.expected.value.reference, found)
    requires found.data != intent.expected.value.reference && found.data != intent.reference
    requires found.data.generation >= intent.next.generation
    ensures Overridden(history, intent)
  {
    var i, j :| 0 <= i <= j < |history| && history[i].data == intent.expected.value.reference
                && history[j] == Entry(found.version.etag, found.data);
    assert Replaces(history, intent, i, j);
  }

  lemma SeenAfterStable(before: seq<Entry>, after: seq<Entry>, original: Envelope, found: Object)
    requires HistoryExtends(before, after) && SeenAfter(before, original, found)
    ensures SeenAfter(after, original, found)
  {
    var i, j :| 0 <= i <= j < |before| && before[i].data == original
                && before[j] == Entry(found.version.etag, found.data);
    assert after[i] == before[i] && after[j] == before[j];
  }

  /** Every state a journal ever held is well formed and anchored in the visible history. */
  lemma SavedIsSound(run: seq<Action>, w: World, journal: nat, state: JournalState, revision: nat)
    requires Reaches(run, w) && SavedAs(w, journal, state, revision)
    ensures ValidState(state)
    ensures state.committed.Some? ==> Published(w.history, state.committed.value)
    ensures state.pending.Some? ==> Witnessed(w.history, state.pending.value)
  {
    RunInvariant(run, w);
    assert JournalSound(w.history, Log(w, journal));
  }

  lemma CurrentIsSound(run: seq<Action>, w: World)
    requires Reaches(run, w) && w.history != []
    ensures ValidWatermark(MarkOf(w.history[|w.history| - 1].data))
    ensures Published(w.history, MarkOf(w.history[|w.history| - 1].data))
    ensures var tip := w.history[|w.history| - 1].data;
            tip.commit in w.commits && ValidCommit(w.commits[tip.commit], tip.generation)
  {
    RunInvariant(run, w);
    VisibleIsValid(w, |w.history| - 1);
    ChainPositive(w.commits, w.history, |w.history| - 1);
  }

  /** What recovery reports stays true however the run continues. */
  lemma DecidedStable(run: seq<Action>, before: World, after: World, intent: Intent, outcome: Outcome)
    requires Reaches(run, after) && HistoryExtends(before.history, after.history) && ValidIntent(intent)
    requires Decided(before, intent, outcome)
    ensures Decided(after, intent, outcome)
  {
    if intent.kind == Publish {
      RunInvariant(run, after);
      VerdictsStable(before.history, after.history, intent.next);
      VerdictsExclude(after.commits, after.history, intent.next);
    } else if outcome == Applied {
      ShownStable(before.history, after.history, intent.reference);
    } else {
      OverriddenStable(before.history, after.history, intent);
    }
  }

  lemma ResolutionStable(run: seq<Action>, before: World, after: World, journal: nat, intent: Intent, outcome: Outcome)
    requires Reaches(run, after) && HistoryExtends(before.history, after.history) && ValidIntent(intent)
    requires LogExtends(Log(before, journal), Log(after, journal)) && ResolutionHolds(before, journal, intent, outcome)
    ensures ResolutionHolds(after, journal, intent, outcome)
  {
    if intent.kind == Resign && outcome == Superseded {
      var k :| 0 <= k < |Log(before, journal)| && Log(before, journal)[k].pending.Some?
               && BeatenAs(before, Log(before, journal)[k].pending.value, intent);
      assert Log(after, journal)[k] == Log(before, journal)[k];
      OverriddenStable(before.history, after.history, Log(before, journal)[k].pending.value);
      assert BeatenAs(after, Log(after, journal)[k].pending.value, intent);
    } else {
      DecidedStable(run, before, after, intent, outcome);
    }
  }

  /** A verdict on the attempt that is recorded is a verdict on the operation. */
  lemma RecordedResolves(w: World, journal: nat, state: JournalState, revision: nat, intent: Intent, outcome: Outcome)
    requires SavedAs(w, journal, state, revision) && state.pending.Some? && SameIntent(intent, state.pending.value)
    requires Decided(w, state.pending.value, outcome)
    ensures ResolutionHolds(w, journal, intent, outcome)
  {
    if intent.kind == Resign && outcome == Superseded {
      assert BeatenAs(w, Log(w, journal)[revision - 1].pending.value, intent);
    }
  }

  /** A visible target decides every operation as applied. */
  lemma TargetVisible(run: seq<Action>, w: World, intent: Intent)
    requires Reaches(run, w) && ValidIntent(intent)
    requires w.history != [] && w.history[|w.history| - 1].data == intent.reference
    ensures Published(w.history, intent.next) && Shown(w.history, intent.reference) && Decided(w, intent, Applied)
  {
    RunInvariant(run, w);
    assert MarkOf(w.history[|w.history| - 1].data) == intent.next;
    VerdictsExclude(w.commits, w.history, intent.next);
  }

  lemma TipDecidesRun(run: seq<Action>, w: World, intent: Intent, tip: Watermark, descends: bool)
    requires Reaches(run, w) && Published(w.history, tip) && ValidIntent(intent)
    requires intent.next.generation <= tip.generation
    requires descends == SameOrDescends(w.commits, tip, intent.next)
    ensures VerdictHolds(w, intent, if descends then Applied else Superseded)
  {
    RunInvariant(run, w);
    TipDecides(w, intent, tip, descends);
  }

  /** A complete snapshot not yet visible, or proof that the visible one is unchanged. */
  datatype Staged =
    | Unchanged(snapshot: Snapshot, found: Object)
    | Prepared(snapshot: Snapshot, begin: Loaded, intent: Intent)

  ghost predicate StagedHolds(w: World, journal: nat, staged: Staged) {
    && staged.snapshot.mark.commit in w.commits && w.commits[staged.snapshot.mark.commit].root == staged.snapshot.root
    && match staged
       case Unchanged(snapshot, found) => Seen(w, found) && snapshot.mark == MarkOf(found.data)
       case Prepared(snapshot, begin, intent) =>
         && SavedAs(w, journal, begin.state, begin.revision)
         && Authentic(w.commits, intent) && intent.kind == Publish && intent.next == snapshot.mark
         && Witnessed(w.history, intent)
         && begin.state.committed == intent.base && begin.state.pending.None?
  }

  /** A journal that cleared an operation is anchored at or beyond the generation it aimed at. */
  lemma SettledIsReached(run: seq<Action>, w: World, journal: nat, i: nat, k: nat, j: nat)
    requires Reaches(run, w) && i <= k <= j < |Log(w, journal)|
    requires Log(w, journal)[i].pending.Some? && Log(w, journal)[k].pending.None?
    ensures var committed := Log(w, journal)[j].committed;
            && committed.Some? && ValidWatermark(committed.value) && Published(w.history, committed.value)
            && committed.value.generation >= Log(w, journal)[i].pending.value.next.generation
  {
    RunInvariant(run, w);
    var log := Log(w, journal);
    assert JournalSound(w.history, log);
    SettledAnchor(log, i, k, j);
    assert ValidState(log[j]);
  }

  /** An anchor that moved off the intent's base is at or beyond the generation it aims at. */
  lemma MovedAnchorIsReached(run: seq<Action>, w: World, journal: nat, i: nat, j: nat, intent: Intent)
    requires Reaches(run, w) && i <= j < |Log(w, journal)| && ValidIntent(intent)
    requires Log(w, journal)[i].committed == intent.base && Log(w, journal)[j].committed != intent.base
    ensures var committed := Log(w, journal)[j].committed;
            committed.Some? ==>
              && ValidWatermark(committed.value) && Published(w.history, committed.value)
              && committed.value.generation >= intent.next.generation
  {
    RunInvariant(run, w);
    var log := Log(w, journal);
    assert JournalSound(w.history, log);
    AnchorsAdvance(log, i, j);
    assert ValidState(log[j]);
  }

  /** The outcome of one recovery pass: a verdict, or the journal to go round again with. */
  datatype Pass = Settled(recovery: Recovery) | Again(loaded: Loaded)

  ghost predicate PassHolds(w: World, journal: nat, initial: Intent, floor: nat, pass: Pass) {
    match pass
    case Settled(recovery) =>
      && recovery.intent.Some? && SameIntent(initial, recovery.intent.value)
      && ResolutionHolds(w, journal, initial, recovery.outcome)
      && Cleared(w, journal, floor)
    case Again(loaded) =>
      && SavedAs(w, journal, loaded.state, loaded.revision) && loaded.revision >= floor
      && (loaded.state.pending.Some? ==> SameIntent(initial, loaded.state.pending.value))
  }

  /** How a durable begin ended. */
  datatype Begun = Recorded | AlreadyApplied | Moved(loaded: Loaded)

  ghost predicate BegunHolds(w: World, journal: nat, floor: nat, intent: Intent, begun: Begun) {
    match begun
    case Recorded => exists i :: 0 <= i < |Log(w, journal)| && Log(w, journal)[i].pending == Some(intent)
    case AlreadyApplied => Decided(w, intent, Applied)
    case Moved(loaded) =>
      && SavedAs(w, journal, loaded.state, loaded.revision) && loaded.revision >= floor
      && loaded.state.pending.None? && loaded.state.committed == intent.base
  }

  ghost predicate Idle(w: World, journal: nat) {
    var log := Log(w, journal);
    log == [] || log[|log| - 1].pending.None?
  }

  ghost function Tip(history: seq<Entry>): Option<Watermark> {
    if history == [] then None else Some(MarkOf(history[|history| - 1].data))
  }

  ghost function Newest(history: seq<Entry>): Option<Envelope> {
    if history == [] then None else Some(history[|history| - 1].data)
  }

  /** The tip can be proved to extend the anchor within one walk. */
  ghost predicate Near(commits: Commits, tip: Watermark, anchor: Option<Watermark>) {
    anchor.Some? && tip != anchor.value ==>
      Descends(commits, tip, anchor.value) && tip.generation - anchor.value.generation <= MAX_COMMIT_WALK
  }

  lemma NearStable(small: Commits, large: Commits, tip: Watermark, anchor: Option<Watermark>)
    requires Submap(small, large)
    ensures Near(small, tip, anchor) ==> Near(large, tip, anchor)
  {
    if Near(small, tip, anchor) && anchor.Some? && tip != anchor.value {
      DescendsStable(small, large, tip, anchor.value);
    }
  }

  /** The ancestor at this generation, or the whole ancestry for zero, can be reached within one walk. */
  ghost predicate Traceable(commits: Commits, tip: Watermark, generation: nat) {
    && generation < tip.generation && tip.generation - generation <= MAX_COMMIT_WALK
    && var reached := Ancestor(commits, tip.commit, tip.generation,
                               if generation == 0 then tip.generation - 1 else tip.generation - generation);
    reached.Some? && (generation == 0 ==> reached.value in commits && ValidCommit(commits[reached.value], 1))
  }

  /** The visible reference has reached the intent's generation, within one walk of its base. */
  ghost predicate Overtaken(history: seq<Entry>, intent: Intent) {
    && intent.kind == Publish && history != []
    && var tip := history[|history| - 1].data.generation;
    intent.next.generation <= tip
    && tip - (if intent.base.Some? then intent.base.value.generation else 0) <= MAX_COMMIT_WALK
  }

  /** Nothing has moved since the intent was made: its base, or the bytes to re-sign, are current. */
  ghost predicate Timely(commits: Commits, history: seq<Entry>, intent: Intent) {
    && Authentic(commits, intent) && intent.base == Tip(history)
    && (intent.kind == Resign ==>
          && history != [] && intent.reference != history[|history| - 1].data
          && intent.expected.value.reference == history[|history| - 1].data)
  }

  lemma TipIsTraceable(commits: Commits, history: seq<Entry>, generation: nat)
    requires Chain(commits, history) && history != [] && generation < Tip(history).value.generation
    requires Tip(history).value.generation - generation <= MAX_COMMIT_WALK
    ensures Traceable(commits, Tip(history).value, generation)
  {
    var last := |history| - 1;
    var steps := history[last].data.generation - (if generation == 0 then 1 else generation);
    var h := ChainAncestor(commits, history, last, steps);
    ChainPositive(commits, history, h);
  }

  lemma RunIsChain(run: seq<Action>, w: World)
    requires Reaches(run, w)
    ensures Chain(w.commits, w.history)
  {
    RunInvariant(run, w);
  }

  /** A published reference that has overtaken an intent can be traced to the intent and its base. */
  lemma OvertakenIsTraceable(run: seq<Action>, w: World, intent: Intent)
    requires Reaches(run, w) && ValidIntent(intent) && Overtaken(w.history, intent)
    requires intent.base.Some? ==> Published(w.history, intent.base.value)
    ensures var tip := Tip(w.history).value;
            && Traceable(w.commits, tip, if intent.base.Some? then intent.base.value.generation else 0)
            && (intent.base.Some? ==> Descends(w.commits, tip, intent.base.value))
            && (tip.generation > intent.next.generation ==> Traceable(w.commits, tip, intent.next.generation))
  {
    RunIsChain(run, w);
    var tip := Tip(w.history).value;
    TipIsTraceable(w.commits, w.history, if intent.base.Some? then intent.base.value.generation else 0);
    if tip.generation > intent.next.generation {
      TipIsTraceable(w.commits, w.history, intent.next.generation);
    }
    if intent.base.Some? {
      assert Published(w.history, tip);
      PublishedOrder(w.commits, w.history, intent.base.value, tip);
    }
  }

  class Publisher {
    const cloud: Cloud
    const journal: nat
    const checkpoint: Option<Watermark>
    const trustOnFirstUse: bool
    /** The highest journal anchor whose ancestry has been proved back to the checkpoint. */
    var validated: Option<Watermark>
    ghost var proved: Commits
    /** Where in the reference history the checkpoint was visible. */
    ghost const issued: nat

    /** The configured checkpoint, delivered out of band, names a reference that was visible. */
    ghost predicate Valid()
      reads this, cloud
    {
      && cloud.Valid()
      && Submap(proved, cloud.w.commits)
      && (checkpoint.Some? ==>
            && ValidWatermark(checkpoint.value)
            && issued < |cloud.w.history| && MarkOf(cloud.w.history[issued].data) == checkpoint.value)
      && (validated.Some? ==> checkpoint.Some? && SameOrDescends(proved, validated.value, checkpoint.value))
    }

    /** What every operation keeps of the world. */
    twostate predicate Moves()
      reads cloud
    {
      Grows(old(cloud.w), cloud.w, journal) && cloud.faults >= old(cloud.faults)
    }

    /** Nothing failed and nobody else did anything. */
    twostate predicate Calm()
      reads cloud
    {
      cloud.faults == old(cloud.faults)
    }

    /** Neither the references nor the commits changed. */
    twostate predicate SameStore()
      reads cloud
    {
      cloud.w.history == old(cloud.w).history && cloud.w.commits == old(cloud.w).commits
    }

    /** The pending target was written, exactly once, and settled as applied. */
    twostate predicate WroteOnce(new pass: Result<Pass>)
      reads cloud
    {
      && pass.Ok? && pass.value.Settled? && pass.value.recovery.outcome == Applied
      && |cloud.w.history| == |old(cloud.w).history| + 1
    }

    /** What the journal is anchored at, or will be once it is initialized. */
    ghost function AnchorOf(w: World): Option<Watermark> {
      var log := Log(w, journal);
      if log == [] then checkpoint else log[|log| - 1].committed
    }

    /** An anchor that the next load can prove to extend the checkpoint, within one walk. */
    ghost predicate Vouched(commits: Commits, anchor: Option<Watermark>)
      reads this
    {
      checkpoint.Some? ==>
        && anchor.Some?
        && Near(commits, anchor.value, Some(if validated.Some? then validated.value else checkpoint.value))
    }

    /** A publisher that may trust its journal: by first use, by its anchor, or by its checkpoint. */
    ghost predicate Trusting(w: World)
      reads this
    {
      (trustOnFirstUse || AnchorOf(w).Some?) && Vouched(w.commits, AnchorOf(w))
    }

    /** Nothing has been validated since, and an anchor just validated is the one to go on from. */
    twostate predicate SameTrust()
      reads this
    {
      validated == old(validated)
    }

    ghost predicate TrustsAnchor(anchor: Option<Watermark>)
      reads this
    {
      checkpoint.Some? ==> anchor.Some? && validated == anchor
    }

    constructor (cloud: Cloud, journal: nat, checkpoint: Option<Watermark>, trustOnFirstUse: bool)
      requires cloud.Valid()
      requires checkpoint.Some? ==> ValidWatermark(checkpoint.value) && Published(cloud.w.history, checkpoint.value)
      ensures Valid() && this.cloud == cloud
    {
      this.cloud := cloud;
      this.journal := journal;
      this.checkpoint := checkpoint;
      this.trustOnFirstUse := trustOnFirstUse;
      validated := None;
      proved := map[];
      ghost var position: nat := 0;
      if checkpoint.Some? {
        position :| 0 <= position < |cloud.w.history| && MarkOf(cloud.w.history[position].data) == checkpoint.value;
      }
      issued := position;
    }

    /**
     Proves a journal anchor against the checkpoint, walking back only to the last anchor
     already proved; that is enough for full ancestry to the checkpoint over any call sequence.
     */
    method ValidateCheckpoint(watermark: Watermark) returns (r: Result<()>)
      requires Valid() && checkpoint.Some?
      modifies this, cloud
      ensures Valid() && Moves()
      ensures r.Ok? ==> SameOrDescends(cloud.w.commits, watermark, checkpoint.value)
      ensures r.Ok? ==> validated == Some(watermark)
      ensures r.Err? ==> validated == old(validated)
      ensures Calm() && Near(old(cloud.w).commits, watermark,
                             Some(if old(validated).Some? then old(validated).value else checkpoint.value)) ==>
                r.Ok? && cloud.w == old(cloud.w)
    {
      var anchor := checkpoint.value;
      if validated.Some? {
        if watermark.generation < validated.value.generation {
          return Err(Rollback);
        }
        if watermark.generation == validated.value.generation && watermark.commit != validated.value.commit {
          return Err(SplitBrain);
        }
        if watermark == validated.value {
          if watermark != checkpoint.value {
            DescendsStable(proved, cloud.w.commits, watermark, checkpoint.value);
          }
          return Ok(());
        }
        anchor := validated.value;
      }
      if watermark.repository != checkpoint.value.repository {
        return Err(Untrusted);
      }
      if watermark.generation < checkpoint.value.generation {
        return Err(Rollback);
      }
      if watermark.generation == checkpoint.value.generation {
        if watermark.commit != checkpoint.value.commit {
          return Err(SplitBrain);
        }
        validated := Some(watermark);
        return Ok(());
      }
      var readable := cloud.ReadCommits();
      if watermark.commit !in readable {
        return Err(Unavailable);
      }
      var commit := readable[watermark.commit];
      if !ValidCommit(commit, watermark.generation) {
        return Err(CorruptObject);
      }
      var walk := ValidatePublicationDescendant(readable, watermark, commit, anchor);
      WalkIsGlobal(readable, cloud.w.commits, watermark, anchor);
      if walk.Rejected? {
        return Err(walk.error);
      }
      if anchor != checkpoint.value {
        DescendsStable(proved, cloud.w.commits, anchor, checkpoint.value);
        DescendsTransitive(cloud.w.commits, watermark, anchor, checkpoint.value);
      }
      validated := Some(watermark);
      proved := cloud.w.commits;
      return Ok(());
    }

    /** The visible reference together with its commit manifest. */
    method ReadCommit(mark: Watermark) returns (r: Result<Commit>)
      requires Valid()
      modifies cloud
      ensures Valid() && Moves()
      ensures r.Ok? ==>
                && mark.commit in cloud.w.commits && cloud.w.commits[mark.commit] == r.value
                && ValidCommit(r.value, mark.generation)
      ensures Calm() && mark.commit in old(cloud.w).commits
              && ValidCommit(old(cloud.w).commits[mark.commit], mark.generation) ==>
                r.Ok? && cloud.w == old(cloud.w)
    {
      var readable := cloud.ReadCommits();
      if mark.commit !in readable {
        return Err(Unavailable);
      }
      if !ValidCommit(readable[mark.commit], mark.generation) {
        return Err(CorruptObject);
      }
      return Ok(readable[mark.commit]);
    }

    method Descends(candidate: Watermark, commit: Commit, anchor: Watermark) returns (r: Result<bool>)
      requires Valid() && candidate.repository == anchor.repository && 0 < anchor.generation
      requires candidate.commit in cloud.w.commits && cloud.w.commits[candidate.commit] == commit
      requires ValidCommit(commit, candidate.generation)
      modifies cloud
      ensures Valid() && Moves()
      ensures r.Ok? ==> r.value == Ancestry.Descends(cloud.w.commits, candidate, anchor)
      ensures Calm() && Traceable(old(cloud.w).commits, candidate, anchor.generation) ==>
                r.Ok? && cloud.w == old(cloud.w)
    {
      var readable := cloud.ReadCommits();
      assert cloud.w.commits[candidate.commit := commit] == cloud.w.commits;
      readable := readable[candidate.commit := commit];
      var walk := ValidatePublicationDescendant(readable, candidate, commit, anchor);
      if candidate.generation > anchor.generation {
        WalkIsGlobal(readable, cloud.w.commits, candidate, anchor);
      }
      if walk == Accepted {
        return Ok(true);
      }
      if walk == Rejected(SplitBrain) {
        return Ok(false);
      }
      return Err(walk.error);
    }

    /**
     Whether `candidate` may have won against an operation based on `base`. Without a base
     the candidate's history must be readable down to a parentless first generation, and a
     complete read never finds anything else.
     */
    method ValidSuperseding(candidate: Watermark, commit: Commit, base: Option<Watermark>) returns (r: Result<bool>)
      requires Valid() && 0 < candidate.generation
      requires base.Some? ==> candidate.repository == base.value.repository && 0 < base.value.generation
      requires candidate.commit in cloud.w.commits && cloud.w.commits[candidate.commit] == commit
      requires ValidCommit(commit, candidate.generation)
      modifies cloud
      ensures Valid() && Moves()
      ensures r.Ok? && base.Some? ==> r.value == Ancestry.Descends(cloud.w.commits, candidate, base.value)
      ensures r.Ok? && base.None? ==>
                && r.value && candidate.generation <= MAX_COMMIT_WALK
                && Ancestor(cloud.w.commits, candidate.commit, candidate.generation, candidate.generation - 1).Some?
      ensures Calm() && Traceable(old(cloud.w).commits, candidate, if base.Some? then base.value.generation else 0) ==>
                r.Ok? && cloud.w == old(cloud.w)
    {
      if base.Some? {
        if candidate.generation <= base.value.generation {
          return Ok(false);
        }
        r := Descends(candidate, commit, base.value);
        return;
      }
      if candidate.generation == 1 {
        return Ok(commit.parent.None?);
      }
      if candidate.generation > MAX_COMMIT_WALK {
        return Err(ResourceLimit);
      }
      var readable := cloud.ReadCommits();
      var parent := commit.parent;
      var generation := candidate.generation - 1;
      ghost var commits := cloud.w.commits;
      while generation > 0
        invariant 0 <= generation < candidate.generation
        invariant generation > 0 ==> parent.Some? && !parent.value.IsZero()
        invariant generation > 0 ==>
                    Ancestor(commits, candidate.commit, candidate.generation, candidate.generation - 1)
                    == Ancestor(commits, parent.value, generation, generation - 1)
        invariant generation == 0 ==>
                    parent.None? && Ancestor(commits, candidate.commit, candidate.generation,
                                             candidate.generation - 1).Some?
      {
        if parent.None? || parent.value.IsZero() {
          return Ok(false);
        }
        if parent.value !in readable {
          return Err(Unavailable);
        }
        var ancestor := readable[parent.value];
        if !ValidCommit(ancestor, generation) {
          return Err(CorruptObject);
        }
        parent := ancestor.parent;
        generation := generation - 1;
      }
      return Ok(parent.None?);
    }

    /** Journal load with the checks every caller relies on; None when the journal is absent. */
    method LoadJournal() returns (r: Result<Option<Loaded>>)
      requires Valid()
      modifies this, cloud
      ensures Valid() && Moves()
      ensures r.Ok? && r.value.Some? ==>
                && SavedAs(cloud.w, journal, r.value.value.state, r.value.value.revision)
                && r.value.value.revision >= |Log(old(cloud.w), journal)|
      ensures r == Ok(None) ==> Log(old(cloud.w), journal) == []
      ensures r.Ok? && r.value.Some? && checkpoint.Some? ==>
                && r.value.value.state.committed.Some?
                && SameOrDescends(cloud.w.commits, r.value.value.state.committed.value, checkpoint.value)
      ensures r.Ok? && r.value.Some? ==> TrustsAnchor(r.value.value.state.committed)
      ensures Calm() && (Log(old(cloud.w), journal) != [] ==> old(Vouched(cloud.w.commits, AnchorOf(cloud.w)))) ==>
                && r.Ok? && cloud.w == old(cloud.w) && (r.value.None? <==> Log(cloud.w, journal) == [])
                && (r.value.Some? ==> r.value.value.revision == |Log(cloud.w, journal)|)
    {
      var load :- cloud.LoadJournal(journal);
      var (state, revision) := load;
      if revision == 0 {
        return Ok(None);
      }
      SavedIsSound(cloud.run, cloud.w, journal, state, revision);
      if !ValidState(state) {
        return Err(CorruptObject);
      }
      if checkpoint.Some? {
        if state.committed.None? || state.committed.value.generation < checkpoint.value.generation {
          return Err(Rollback);
        }
        if state.committed.value.generation == checkpoint.value.generation
           && state.committed.value.commit != checkpoint.value.commit {
          return Err(SplitBrain);
        }
        var proof :- ValidateCheckpoint(state.committed.value);
      }
      return Ok(Some(Loaded(state, revision)));
    }

    method LoadOrInitialize() returns (r: Result<Loaded>)
      requires Valid()
      modifies this, cloud
      ensures Valid() && Moves()
      ensures r.Ok? ==> SavedAs(cloud.w, journal, r.value.state, r.value.revision)
                        && r.value.revision >= |Log(old(cloud.w), journal)|
      ensures r.Ok? ==> TrustsAnchor(r.value.state.committed)
      ensures Calm() && (old(Trusting(cloud.w)) || !Idle(old(cloud.w), journal))
              && old(Vouched(cloud.w.commits, AnchorOf(cloud.w))) ==>
                && r.Ok? && SameStore() && r.value.revision == |Log(cloud.w, journal)|
                && r.value.state.committed == AnchorOf(old(cloud.w))
                && (Idle(old(cloud.w), journal) <==> r.value.state.pending.None?)
                && (Log(old(cloud.w), journal) != [] ==> cloud.w == old(cloud.w))
    {
      var load :- LoadJournal();
      if load.Some? {
        var state := load.value.state;
        if state.committed.None? && state.pending.None? && checkpoint.None? && !trustOnFirstUse {
          return Err(TrustStateRequired);
        }
        return Ok(load.value);
      }
      r := InitializeJournal();
    }

    /** Creates an absent journal at the checkpoint, through a lost response or another creator. */
    method InitializeJournal() returns (r: Result<Loaded>)
      requires Valid()
      modifies this, cloud
      ensures Valid() && Moves()
      ensures r.Ok? ==> SavedAs(cloud.w, journal, r.value.state, r.value.revision)
                        && TrustsAnchor(r.value.state.committed)
      ensures Calm() && Log(old(cloud.w), journal) == [] && (trustOnFirstUse || checkpoint.Some?) ==>
                && r == Ok(Loaded(JournalState(checkpoint, None), 1)) && SameStore() && |Log(cloud.w, journal)| == 1
    {
      if checkpoint.None? && !trustOnFirstUse {
        return Err(TrustStateRequired);
      }
      var initial := JournalState(checkpoint, None);
      assert Log(cloud.w, journal)[..0] == [];
      var save := cloud.CompareAndSwapJournal(journal, 0, initial);
      if save.Ok? {
        if checkpoint.Some? {
          validated := checkpoint;
        }
        return Ok(Loaded(initial, save.value));
      }
      if save.error == Incompatible {
        return Err(Incompatible);
      }
      var reload :- LoadJournal();
      if reload.None? {
        return Err(save.error);
      }
      return Ok(reload.value);
    }

    /** Authenticates the pending operation and its commit before anything is written. */
    method ValidatePending(intent: Intent) returns (r: Result<Snapshot>)
      requires Valid()
      modifies cloud
      ensures Valid() && Moves()
      ensures r.Ok? ==> Authentic(cloud.w.commits, intent) && r.value.mark == intent.next && !r.value.root.IsZero()
      ensures Calm() && Authentic(old(cloud.w).commits, intent)
              && (intent.kind == Resign ==> intent.base == Tip(old(cloud.w).history)) ==>
                r.Ok? && cloud.w == old(cloud.w)
    {
      if !ValidIntent(intent) {
        return Err(CorruptObject);
      }
      if intent.kind == Resign && cloud.w.history != [] {
        CurrentIsSound(cloud.run, cloud.w);
      }
      var read :- ReadCommit(intent.next);
      var commit := read;
      if intent.kind == Publish {
        if intent.base.None? {
          if commit.parent.Some? {
            return Err(SplitBrain);
          }
        } else if commit.parent.None? || commit.parent.value != intent.base.value.commit {
          return Err(SplitBrain);
        }
      }
      return Ok(Snapshot(intent.next, commit.root));
    }

    /** Records the reference version a based operation will be conditioned on. */
    method RefreshObservation(loaded: Loaded, found: Object) returns (r: Result<Loaded>)
      requires Valid() && SavedAs(cloud.w, journal, loaded.state, loaded.revision)
      requires loaded.state.pending.Some? && ValidState(loaded.state)
      requires Seen(cloud.w, found)
      requires loaded.state.pending.value.base.Some? ==> loaded.state.pending.value.base == Some(MarkOf(found.data))
      requires loaded.state.pending.value.kind == Resign ==>
                 loaded.state.pending.value.expected.value.reference == found.data
      modifies this, cloud
      ensures Valid() && Moves()
      ensures r.Ok? ==>
                && SavedAs(cloud.w, journal, r.value.state, r.value.revision) && r.value.revision >= loaded.revision
                && r.value.state.pending == Some(loaded.state.pending.value.(
                                                 expected := Some(Observation(found.version, found.data))))
      ensures Calm() && loaded.revision == |Log(old(cloud.w), journal)| && loaded.state.pending.value.base.Some? ==>
                r.Ok? && SameStore() && r.value.revision == |Log(cloud.w, journal)|
    {
      var pending := loaded.state.pending.value;
      if pending.base.None? {
        return Err(Precondition);
      }
      var refreshed := pending.(expected := Some(Observation(found.version, found.data)));
      if pending == refreshed {
        return Ok(loaded);
      }
      var desired := loaded.state.(pending := Some(refreshed));
      var save := cloud.CompareAndSwapJournal(journal, loaded.revision, desired);
      if save.Ok? {
        return Ok(Loaded(desired, save.value));
      }
      if save.error == Incompatible {
        return Err(Incompatible);
      }
      var load :- LoadJournal();
      if load.None? {
        return Err(Rollback);
      }
      var observed := load.value;
      if observed.state.pending.None? || !SameIntent(pending, observed.state.pending.value) {
        return Err(Conflict);
      }
      if observed.state.pending.value == refreshed {
        return Ok(observed);
      }
      return Err(Conflict);
    }

    method ReloadRecovery(initial: Intent) returns (r: Result<Loaded>)
      requires Valid()
      modifies this, cloud
      ensures Valid() && Moves()
      ensures r.Ok? ==>
                && SavedAs(cloud.w, journal, r.value.state, r.value.revision)
                && r.value.revision >= |Log(old(cloud.w), journal)|
                && (r.value.state.pending.Some? ==> SameIntent(initial, r.value.state.pending.value))
    {
      var load :- LoadJournal();
      if load.None? {
        return Err(Rollback);
      }
      var loaded := load.value;
      if loaded.state.pending.Some? && !SameIntent(initial, loaded.state.pending.value) {
        return Err(Conflict);
      }
      return Ok(loaded);
    }

    /** Clears the pending operation over a reference that was visible at or above its target. */
    method Finalize(loaded: Loaded, snapshot: Snapshot, outcome: Outcome) returns (r: Result<Recovery>)
      requires Valid() && SavedAs(cloud.w, journal, loaded.state, loaded.revision)
      requires loaded.state.pending.Some?
      requires ValidWatermark(snapshot.mark) && Published(cloud.w.history, snapshot.mark)
      requires AnchorAdvances(loaded.state.committed, Some(snapshot.mark))
      requires Clearable(cloud.w.history, loaded.state.pending.value, Some(snapshot.mark))
      modifies this, cloud
      ensures Valid() && Moves()
      ensures r.Ok? ==> r.value == Recovery(outcome, loaded.state.pending, Some(snapshot))
      ensures r.Ok? ==> exists k :: loaded.revision <= k < |Log(cloud.w, journal)|
                                    && Log(cloud.w, journal)[k] == JournalState(Some(snapshot.mark), None)
      ensures Calm() && loaded.revision == |Log(old(cloud.w), journal)| && !snapshot.root.IsZero() ==>
                r.Ok? && SameStore()
    {
      if snapshot.root.IsZero() {
        return Err(CorruptObject);
      }
      var desired := JournalState(Some(snapshot.mark), None);
      var save := cloud.CompareAndSwapJournal(journal, loaded.revision, desired);
      if save == Err(Incompatible) {
        return Err(Incompatible);
      }
      if save.Err? {
        var load :- LoadJournal();
        if load.None? || load.value.state != desired {
          return Err(Indeterminate);
        }
        assert Log(cloud.w, journal)[load.value.revision - 1] == desired;
      } else {
        assert Log(cloud.w, journal)[save.value - 1] == desired;
      }
      return Ok(Recovery(outcome, loaded.state.pending, Some(snapshot)));
    }

    /** The verdict on a publish intent once its journal has moved past it. */
    method ClassifyPublish(intent: Intent, committed: Option<Watermark>) returns (r: Result<Recovery>)
      requires Valid() && ValidIntent(intent) && intent.kind == Publish
      requires committed.Some? ==>
                 && Published(cloud.w.history, committed.value) && ValidWatermark(committed.value)
                 && committed.value.generation >= intent.next.generation
      modifies cloud
      ensures Valid() && Moves()
      ensures r.Ok? ==> r.value.intent == Some(intent) && VerdictHolds(cloud.w, intent, r.value.outcome)
    {
      if committed.None? {
        return Err(Rollback);
      }
      var tip := committed.value;
      var read :- ReadCommit(tip);
      var snapshot := Snapshot(tip, read.root);
      var outcome := Superseded;
      if tip == intent.next {
        outcome := Applied;
      } else if tip.generation > intent.next.generation {
        var applied :- Descends(tip, read, intent.next);
        if applied {
          outcome := Applied;
        }
      }
      TipDecidesRun(cloud.run, cloud.w, intent, tip, outcome == Applied);
      return Ok(Recovery(outcome, Some(intent), Some(snapshot)));
    }

    /** Finalizes with a verdict already established. */
    method Conclude(initial: Intent, loaded: Loaded, snapshot: Snapshot, outcome: Outcome) returns (pass: Result<Pass>)
      requires Valid() && SavedAs(cloud.w, journal, loaded.state, loaded.revision)
      requires loaded.state.pending.Some? && SameIntent(initial, loaded.state.pending.value) && ValidIntent(initial)
      requires ValidWatermark(snapshot.mark) && Published(cloud.w.history, snapshot.mark)
      requires AnchorAdvances(loaded.state.committed, Some(snapshot.mark))
      requires snapshot.mark.generation >= initial.next.generation
      requires Decided(cloud.w, loaded.state.pending.value, outcome)
      modifies this, cloud
      ensures Valid() && Moves()
      ensures pass.Ok? ==> PassHolds(cloud.w, journal, initial, loaded.revision, pass.value)
      ensures Calm() && loaded.revision == |Log(old(cloud.w), journal)| && !snapshot.root.IsZero() ==>
                pass.Ok? && pass.value.Settled? && pass.value.recovery.outcome == outcome && SameStore()
    {
      RecordedResolves(cloud.w, journal, loaded.state, loaded.revision, initial, outcome);
      var recovery :- Finalize(loaded, snapshot, outcome);
      ResolutionStable(cloud.run, old(cloud.w), cloud.w, journal, initial, outcome);
      return Ok(Settled(recovery));
    }

    /** Writes the exact journaled bytes under `expected`, then finalizes or re-reads the journal. */
    method WriteTarget(initial: Intent, target: Snapshot, loaded: Loaded, expected: Option<string>)
      returns (pass: Result<Pass>)
      requires Valid() && SavedAs(cloud.w, journal, loaded.state, loaded.revision)
      requires loaded.state.pending.Some? && SameIntent(initial, loaded.state.pending.value)
      requires Authentic(cloud.w.commits, initial) && target.mark == initial.next
      requires Expectation(cloud.w.history, initial.base, expected)
      modifies this, cloud
      ensures Valid() && Moves()
      ensures pass.Ok? ==> PassHolds(cloud.w, journal, initial, loaded.revision, pass.value)
      ensures Calm() && loaded.revision == |Log(old(cloud.w), journal)| && !target.root.IsZero()
              && Applies(old(cloud.w).history, expected) ==>
                WroteOnce(pass)
    {
      SavedIsSound(cloud.run, cloud.w, journal, loaded.state, loaded.revision);
      assert Log(cloud.w, journal)[loaded.revision - 1].pending.Some?;
      var write := cloud.CompareAndSwapReference(journal, initial, expected);
      if write.Ok? {
        TargetVisible(cloud.run, cloud.w, initial);
        pass := Conclude(initial, loaded, target, Applied);
        return;
      }
      var reload :- ReloadRecovery(initial);
      return Ok(Again(reload));
    }

    /** Refreshes the recorded observation of `found`, then writes under its version. */
    method RetryOver(initial: Intent, target: Snapshot, loaded: Loaded, found: Object) returns (pass: Result<Pass>)
      requires Valid() && SavedAs(cloud.w, journal, loaded.state, loaded.revision)
      requires loaded.state.pending.Some? && SameIntent(initial, loaded.state.pending.value)
      requires Authentic(cloud.w.commits, initial) && target.mark == initial.next
      requires Seen(cloud.w, found) && initial.base == Some(MarkOf(found.data))
      requires initial.kind == Resign ==>
                 loaded.state.pending.value.expected.Some?
                 && loaded.state.pending.value.expected.value.reference == found.data
      modifies this, cloud
      ensures Valid() && Moves()
      ensures pass.Ok? ==> PassHolds(cloud.w, journal, initial, loaded.revision, pass.value)
      ensures Calm() && loaded.revision == |Log(old(cloud.w), journal)| && !target.root.IsZero()
              && Applies(old(cloud.w).history, Some(found.version.etag)) ==>
                WroteOnce(pass)
    {
      SavedIsSound(cloud.run, cloud.w, journal, loaded.state, loaded.revision);
      ghost var before := cloud.w;
      var refresh :- RefreshObservation(loaded, found);
      assert Expectation(cloud.w.history, initial.base, Some(found.version.etag)) by {
        var k :| 0 <= k < |before.history| && before.history[k] == Entry(found.version.etag, found.data);
        assert cloud.w.history[k] == before.history[k];
      }
      pass := WriteTarget(initial, target, refresh, Some(found.version.etag));
    }

    /** A re-sign against the observed reference: only the exact bytes count as applied. */
    method SettleResign(initial: Intent, target: Snapshot, loaded: Loaded, found: Object, commit: Commit)
      returns (pass: Result<Pass>)
      requires Valid() && SavedAs(cloud.w, journal, loaded.state, loaded.revision)
      requires loaded.state.pending.Some? && SameIntent(initial, loaded.state.pending.value)
      requires initial.kind == Resign && Authentic(cloud.w.commits, initial) && target.mark == initial.next
      requires loaded.state.pending.value.expected.Some?
      requires SeenAfter(cloud.w.history, loaded.state.pending.value.expected.value.reference, found)
      requires Seen(cloud.w, found) && AnchorAdvances(loaded.state.committed, Some(MarkOf(found.data)))
      requires found.data.commit in cloud.w.commits && cloud.w.commits[found.data.commit] == commit
      requires ValidCommit(commit, found.data.generation)
      modifies this, cloud
      ensures Valid() && Moves()
      ensures pass.Ok? ==> PassHolds(cloud.w, journal, initial, loaded.revision, pass.value)
      ensures Calm() && loaded.revision == |Log(old(cloud.w), journal)| && !target.root.IsZero()
              && MarkOf(found.data) == initial.next && found.data != initial.reference
              && found.data == loaded.state.pending.value.expected.value.reference
              && Applies(old(cloud.w).history, Some(found.version.etag)) ==>
                WroteOnce(pass)
    {
      SavedIsSound(cloud.run, cloud.w, journal, loaded.state, loaded.revision);
      var remote := MarkOf(found.data);
      var snapshot := Snapshot(remote, commit.root);
      if remote == initial.next {
        if found.data == initial.reference {
          pass := Conclude(initial, loaded, snapshot, Applied);
          return;
        }
        if found.data != loaded.state.pending.value.expected.value.reference {
          ThirdOverrides(cloud.w.history, loaded.state.pending.value, found);
          pass := Conclude(initial, loaded, snapshot, Superseded);
          return;
        }
        pass := RetryOver(initial, target, loaded, found);
        return;
      }
      ghost var seen := cloud.w;
      var descends :- Descends(remote, commit, initial.next);
      if !descends {
        return Err(SplitBrain);
      }
      SeenAfterStable(seen.history, cloud.w.history, loaded.state.pending.value.expected.value.reference, found);
      ThirdOverrides(cloud.w.history, loaded.state.pending.value, found);
      pass := Conclude(initial, loaded, snapshot, Superseded);
    }

    /** Another commit holds the target's generation; its own history must continue the base. */
    method SettleLost(initial: Intent, loaded: Loaded, found: Object, commit: Commit) returns (pass: Result<Pass>)
      requires Valid() && SavedAs(cloud.w, journal, loaded.state, loaded.revision)
      requires loaded.state.pending.Some? && SameIntent(initial, loaded.state.pending.value)
      requires ValidIntent(initial) && initial.kind == Publish && Decided(cloud.w, initial, Superseded)
      requires found.data.generation >= initial.next.generation
      requires Seen(cloud.w, found) && AnchorAdvances(loaded.state.committed, Some(MarkOf(found.data)))
      requires found.data.commit in cloud.w.commits && cloud.w.commits[found.data.commit] == commit
      requires ValidCommit(commit, found.data.generation)
      modifies this, cloud
      ensures Valid() && Moves()
      ensures pass.Ok? ==> PassHolds(cloud.w, journal, initial, loaded.revision, pass.value)
      ensures Calm() && loaded.revision == |Log(old(cloud.w), journal)|
              && Newest(old(cloud.w).history) == Some(found.data) && Overtaken(old(cloud.w).history, initial) ==>
                pass.Ok? && pass.value.Settled? && SameStore()
    {
      var remote := MarkOf(found.data);
      ghost var decided := cloud.w;
      SavedIsSound(cloud.run, cloud.w, journal, loaded.state, loaded.revision);
      if Overtaken(cloud.w.history, initial) && initial.base == loaded.state.committed {
        OvertakenIsTraceable(cloud.run, cloud.w, initial);
      }
      var winner :- ValidSuperseding(remote, commit, initial.base);
      if winner {
        DecidedStable(cloud.run, decided, cloud.w, initial, Superseded);
        pass := Conclude(initial, loaded, Snapshot(remote, commit.root), Superseded);
        return;
      }
      return Err(SplitBrain);
    }

    /** A reference beyond the target's generation proves whether the target is in its past. */
    method SettleBeyond(initial: Intent, loaded: Loaded, found: Object, commit: Commit) returns (pass: Result<Pass>)
      requires Valid() && SavedAs(cloud.w, journal, loaded.state, loaded.revision)
      requires loaded.state.pending.Some? && SameIntent(initial, loaded.state.pending.value)
      requires initial.kind == Publish && ValidIntent(initial) && found.data.generation > initial.next.generation
      requires Seen(cloud.w, found) && AnchorAdvances(loaded.state.committed, Some(MarkOf(found.data)))
      requires found.data.commit in cloud.w.commits && cloud.w.commits[found.data.commit] == commit
      requires ValidCommit(commit, found.data.generation)
      modifies this, cloud
      ensures Valid() && Moves()
      ensures pass.Ok? ==> PassHolds(cloud.w, journal, initial, loaded.revision, pass.value)
      ensures Calm() && loaded.revision == |Log(old(cloud.w), journal)|
              && Newest(old(cloud.w).history) == Some(found.data) && Overtaken(old(cloud.w).history, initial) ==>
                pass.Ok? && pass.value.Settled? && SameStore()
    {
      var remote := MarkOf(found.data);
      SavedIsSound(cloud.run, cloud.w, journal, loaded.state, loaded.revision);
      if Overtaken(cloud.w.history, initial) {
        OvertakenIsTraceable(cloud.run, cloud.w, initial);
      }
      var includes :- Descends(remote, commit, initial.next);
      TipDecidesRun(cloud.run, cloud.w, initial, remote, includes);
      if includes {
        pass := Conclude(initial, loaded, Snapshot(remote, commit.root), Applied);
      } else {
        pass := SettleLost(initial, loaded, found, commit);
      }
    }

    /** A publish against the observed reference: ancestry decides who holds the generation. */
    method SettlePublish(initial: Intent, target: Snapshot, loaded: Loaded, found: Object, commit: Commit)
      returns (pass: Result<Pass>)
      requires Valid() && SavedAs(cloud.w, journal, loaded.state, loaded.revision)
      requires loaded.state.pending.Some? && SameIntent(initial, loaded.state.pending.value)
      requires initial.kind == Publish && Authentic(cloud.w.commits, initial) && target.mark == initial.next
      requires Seen(cloud.w, found) && AnchorAdvances(loaded.state.committed, Some(MarkOf(found.data)))
      requires found.data.commit in cloud.w.commits && cloud.w.commits[found.data.commit] == commit
      requires ValidCommit(commit, found.data.generation)
      modifies this, cloud
      ensures Valid() && Moves()
      ensures pass.Ok? ==> PassHolds(cloud.w, journal, initial, loaded.revision, pass.value)
      ensures Calm() && loaded.revision == |Log(old(cloud.w), journal)| && !target.root.IsZero()
              && initial.base == Some(MarkOf(found.data)) && Applies(old(cloud.w).history, Some(found.version.etag)) ==>
                WroteOnce(pass)
      ensures Calm() && loaded.revision == |Log(old(cloud.w), journal)|
              && Newest(old(cloud.w).history) == Some(found.data) && Overtaken(old(cloud.w).history, initial) ==>
                pass.Ok? && pass.value.Settled? && SameStore()
    {
      var remote := MarkOf(found.data);
      var snapshot := Snapshot(remote, commit.root);
      if remote == initial.next {
        TipDecidesRun(cloud.run, cloud.w, initial, remote, true);
        pass := Conclude(initial, loaded, snapshot, Applied);
        return;
      }
      if remote.generation > initial.next.generation {
        pass := SettleBeyond(initial, loaded, found, commit);
        return;
      }
      if initial.base == Some(remote) {
        pass := RetryOver(initial, target, loaded, found);
        return;
      }
      SavedIsSound(cloud.run, cloud.w, journal, loaded.state, loaded.revision);
      TipDecidesRun(cloud.run, cloud.w, initial, remote, false);
      pass := SettleLost(initial, loaded, found, commit);
    }

    /** The visible reference and its commit, checked against the journal's anchor. */
    method Observe(committed: Option<Watermark>, ghost recorded: Option<Intent>) returns (r: Result<(Object, Commit)>)
      requires Valid() && (recorded.Some? ==> Witnessed(cloud.w.history, recorded.value) && recorded.value.base.Some?)
      modifies cloud
      ensures Valid() && Moves()
      ensures r.Ok? ==>
                && Seen(cloud.w, r.value.0) && AnchorAdvances(committed, Some(MarkOf(r.value.0.data)))
                && (recorded.Some? ==> SeenAfter(cloud.w.history, recorded.value.expected.value.reference, r.value.0))
                && r.value.0.data.commit in cloud.w.commits && cloud.w.commits[r.value.0.data.commit] == r.value.1
                && ValidCommit(r.value.1, r.value.0.data.generation)
      ensures Calm() && old(cloud.w).history != [] && AnchorAdvances(committed, Tip(old(cloud.w).history)) ==>
                && r.Ok? && cloud.w == old(cloud.w)
                && cloud.w.history[|cloud.w.history| - 1] == Entry(r.value.0.version.etag, r.value.0.data)
      ensures Calm() && old(cloud.w).history == [] ==> r == Err(NotFound) && cloud.w == old(cloud.w)
    {
      var get := cloud.Get();
      if get.Err? {
        return Err(if get.error == NotFound then NotFound else Indeterminate);
      }
      var found := get.value;
      CurrentIsSound(cloud.run, cloud.w);
      assert Seen(cloud.w, found);
      if recorded.Some? {
        RecordedIsOlder(old(cloud.w).history, cloud.w.history, recorded.value, found);
      }
      ghost var seen := cloud.w;
      var remote := MarkOf(found.data);
      var read :- ReadCommit(remote);
      if committed.Some? {
        if remote.generation < committed.value.generation {
          return Err(Rollback);
        }
        if remote.generation == committed.value.generation && remote.commit != committed.value.commit {
          return Err(SplitBrain);
        }
      }
      if recorded.Some? {
        SeenAfterStable(seen.history, cloud.w.history, recorded.value.expected.value.reference, found);
      }
      return Ok((found, read));
    }

    /** One pass of the recovery loop over a still pending operation. */
    method RecoverOnce(initial: Intent, target: Snapshot, loaded: Loaded) returns (pass: Result<Pass>)
      requires Valid() && SavedAs(cloud.w, journal, loaded.state, loaded.revision)
      requires loaded.state.pending.Some? && SameIntent(initial, loaded.state.pending.value)
      requires Authentic(cloud.w.commits, initial) && target.mark == initial.next
      modifies this, cloud
      ensures Valid() && Moves()
      ensures pass.Ok? ==> PassHolds(cloud.w, journal, initial, loaded.revision, pass.value)
      ensures Calm() && loaded.revision == |Log(old(cloud.w), journal)| && !target.root.IsZero()
              && Timely(old(cloud.w).commits, old(cloud.w).history, loaded.state.pending.value) ==>
                WroteOnce(pass)
      ensures Calm() && loaded.revision == |Log(old(cloud.w), journal)| && Overtaken(old(cloud.w).history, initial) ==>
                pass.Ok? && pass.value.Settled? && SameStore()
    {
      SavedIsSound(cloud.run, cloud.w, journal, loaded.state, loaded.revision);
      var observe := Observe(loaded.state.committed, if initial.kind == Resign then loaded.state.pending else None);
      if observe.Err? {
        if observe.error != NotFound {
          return Err(observe.error);
        }
        if initial.base.Some? {
          return Err(Rollback);
        }
        pass := WriteTarget(initial, target, loaded, None);
        return;
      }
      pass := SettleObserved(initial, target, loaded, observe.value.0, observe.value.1);
    }

    method SettleObserved(initial: Intent, target: Snapshot, loaded: Loaded, found: Object, commit: Commit)
      returns (pass: Result<Pass>)
      requires Valid() && SavedAs(cloud.w, journal, loaded.state, loaded.revision)
      requires loaded.state.pending.Some? && SameIntent(initial, loaded.state.pending.value)
      requires Authentic(cloud.w.commits, initial) && target.mark == initial.next
      requires initial.kind == Resign ==>
                 && loaded.state.pending.value.expected.Some?
                 && SeenAfter(cloud.w.history, loaded.state.pending.value.expected.value.reference, found)
      requires Seen(cloud.w, found) && AnchorAdvances(loaded.state.committed, Some(MarkOf(found.data)))
      requires found.data.commit in cloud.w.commits && cloud.w.commits[found.data.commit] == commit
      requires ValidCommit(commit, found.data.generation)
      modifies this, cloud
      ensures Valid() && Moves()
      ensures pass.Ok? ==> PassHolds(cloud.w, journal, initial, loaded.revision, pass.value)
      ensures Calm() && loaded.revision == |Log(old(cloud.w), journal)| && !target.root.IsZero()
              && old(cloud.w).history != []
              && old(cloud.w).history[|old(cloud.w).history| - 1] == Entry(found.version.etag, found.data)
              && Timely(old(cloud.w).commits, old(cloud.w).history, loaded.state.pending.value) ==>
                WroteOnce(pass)
      ensures Calm() && loaded.revision == |Log(old(cloud.w), journal)|
              && Newest(old(cloud.w).history) == Some(found.data) && Overtaken(old(cloud.w).history, initial) ==>
                pass.Ok? && pass.value.Settled? && SameStore()
    {
      if initial.kind == Resign {
        pass := SettleResign(initial, target, loaded, found, commit);
      } else {
        pass := SettlePublish(initial, target, loaded, found, commit);
      }
    }

    /** A re-sign is applied only if its exact bytes are the visible reference now. */
    method ClassifyResign(intent: Intent, committed: Watermark) returns (r: Result<Recovery>)
      requires Valid() && ValidIntent(intent) && intent.kind == Resign && ValidWatermark(committed)
      requires Witnessed(cloud.w.history, intent)
      modifies cloud
      ensures Valid() && Moves()
      ensures r.Ok? ==> r.value.intent == Some(intent) && Decided(cloud.w, intent, r.value.outcome)
    {
      var observe := Observe(Some(committed), Some(intent));
      if observe.Err? {
        return Err(if observe.error == NotFound then Indeterminate else observe.error);
      }
      r := ClassifyObserved(intent, committed, observe.value.0, observe.value.1);
    }

    /** The visible reference must extend the anchor that the operation was cleared for. */
    method ClassifyObserved(intent: Intent, committed: Watermark, found: Object, commit: Commit)
      returns (r: Result<Recovery>)
      requires Valid() && ValidIntent(intent) && intent.kind == Resign && ValidWatermark(committed)
      requires MarkOf(intent.expected.value.reference) == intent.next
      requires SeenAfter(cloud.w.history, intent.expected.value.reference, found)
      requires found.data.commit in cloud.w.commits && cloud.w.commits[found.data.commit] == commit
      requires ValidCommit(commit, found.data.generation)
      modifies cloud
      ensures Valid() && Moves()
      ensures r.Ok? ==> r.value.intent == Some(intent) && Decided(cloud.w, intent, r.value.outcome)
    {
      var remote := MarkOf(found.data);
      ghost var seen := cloud.w;
      if remote.generation > committed.generation {
        var descends :- Descends(remote, commit, committed);
        if !descends {
          return Err(SplitBrain);
        }
      }
      SeenAfterStable(seen.history, cloud.w.history, intent.expected.value.reference, found);
      r := ClassifyEnvelope(intent, found, commit);
    }

    /** The visible envelope decides: the target's own bytes, or a third one after the original. */
    method ClassifyEnvelope(intent: Intent, found: Object, commit: Commit) returns (r: Result<Recovery>)
      requires Valid() && ValidIntent(intent) && intent.kind == Resign
      requires MarkOf(intent.expected.value.reference) == intent.next
      requires SeenAfter(cloud.w.history, intent.expected.value.reference, found)
      requires found.data.commit in cloud.w.commits && cloud.w.commits[found.data.commit] == commit
      requires ValidCommit(commit, found.data.generation)
      modifies cloud
      ensures Valid() && Moves()
      ensures r.Ok? ==> r.value.intent == Some(intent) && Decided(cloud.w, intent, r.value.outcome)
    {
      var remote := MarkOf(found.data);
      ghost var seen := cloud.w;
      if remote.generation < intent.next.generation {
        return Err(Rollback);
      }
      if remote.generation == intent.next.generation && remote.commit != intent.next.commit {
        return Err(SplitBrain);
      }
      var outcome := Superseded;
      if remote == intent.next && found.data == intent.reference {
        outcome := Applied;
      } else if remote == intent.next && found.data == intent.expected.value.reference {
        return Err(Indeterminate);
      } else if remote.generation > intent.next.generation {
        var descends :- Descends(remote, commit, intent.next);
        if !descends {
          return Err(SplitBrain);
        }
      }
      if outcome == Superseded {
        SeenAfterStable(seen.history, cloud.w.history, intent.expected.value.reference, found);
        ThirdOverrides(cloud.w.history, intent, found);
      }
      return Ok(Recovery(outcome, Some(intent), Some(Snapshot(remote, commit.root))));
    }

    /** The verdict on an operation its journal no longer holds as pending. */
    method ClassifyResolved(intent: Intent, committed: Option<Watermark>) returns (r: Result<Recovery>)
      requires Valid() && ValidIntent(intent) && Witnessed(cloud.w.history, intent)
      requires committed.Some? ==>
                 && Published(cloud.w.history, committed.value) && ValidWatermark(committed.value)
                 && committed.value.generation >= intent.next.generation
      modifies cloud
      ensures Valid() && Moves()
      ensures r.Ok? ==> r.value.intent == Some(intent) && Decided(cloud.w, intent, r.value.outcome)
    {
      if committed.None? {
        return Err(Rollback);
      }
      if intent.kind == Resign {
        r := ClassifyResign(intent, committed.value);
      } else {
        r := ClassifyPublish(intent, committed);
      }
    }

    /** One round of recovery: classify an operation that is no longer pending, or drive it on. */
    method RecoverRound(initial: Intent, target: Snapshot, loaded: Loaded, ghost floor: nat)
      returns (pass: Result<Pass>)
      requires Valid() && SavedAs(cloud.w, journal, loaded.state, loaded.revision) && 0 < floor <= loaded.revision
      requires Log(cloud.w, journal)[floor - 1].pending == Some(initial)
      requires loaded.state.pending.Some? ==> SameIntent(initial, loaded.state.pending.value)
      requires Authentic(cloud.w.commits, initial) && target.mark == initial.next
      modifies this, cloud
      ensures Valid() && Moves()
      ensures pass.Ok? ==> PassHolds(cloud.w, journal, initial, floor, pass.value)
      ensures Calm() && loaded.revision == |Log(old(cloud.w), journal)| && loaded.state.pending.Some?
              && !target.root.IsZero()
              && Timely(old(cloud.w).commits, old(cloud.w).history, loaded.state.pending.value) ==>
                WroteOnce(pass)
      ensures Calm() && loaded.revision == |Log(old(cloud.w), journal)| && loaded.state.pending.Some?
              && Overtaken(old(cloud.w).history, initial) ==>
                pass.Ok? && pass.value.Settled? && SameStore()
    {
      if loaded.state.pending.Some? {
        pass := RecoverOnce(initial, target, loaded);
        return;
      }
      SettledIsReached(cloud.run, cloud.w, journal, floor - 1, loaded.revision - 1, loaded.revision - 1);
      assert Log(cloud.w, journal)[loaded.revision - 1].pending.None?;
      SavedIsSound(cloud.run, cloud.w, journal, Log(cloud.w, journal)[floor - 1], floor);
      var recovery :- ClassifyResolved(initial, loaded.state.committed);
      RecordedResolves(cloud.w, journal, Log(cloud.w, journal)[floor - 1], floor, initial, recovery.outcome);
      return Ok(Settled(recovery));
    }

    /**
     Recovery of a pending operation. A reported outcome is exact for a publish (applied if
     and only if the target was ever visible, superseded if and only if another commit holds
     its generation), and an applied re-sign was visible with its exact bytes.
     */
    method Recover(first: Loaded) returns (r: Result<Recovery>)
      requires Valid() && SavedAs(cloud.w, journal, first.state, first.revision)
      modifies this, cloud
      ensures Valid() && Moves()
      ensures r.Ok? && first.state.pending.None? ==> r.value.outcome == NothingPending
      ensures r.Ok? && first.state.pending.Some? ==>
                && r.value.intent.Some? && SameIntent(first.state.pending.value, r.value.intent.value)
                && ResolutionHolds(cloud.w, journal, first.state.pending.value, r.value.outcome)
                && Cleared(cloud.w, journal, first.revision)
      ensures Calm() && first.revision == |Log(old(cloud.w), journal)| && first.state.pending.Some?
              && Timely(old(cloud.w).commits, old(cloud.w).history, first.state.pending.value) ==>
                r.Ok? && r.value.outcome == Applied && |cloud.w.history| == |old(cloud.w).history| + 1
      ensures Calm() && first.revision == |Log(old(cloud.w), journal)| && first.state.pending.Some?
              && Authentic(old(cloud.w).commits, first.state.pending.value)
              && Overtaken(old(cloud.w).history, first.state.pending.value) ==>
                r.Ok? && SameStore()
    {
      if first.state.pending.None? {
        return Ok(Recovery(NothingPending, None, None));
      }
      var target :- ValidatePending(first.state.pending.value);
      r := RecoverLoop(first, target);
    }

    /** A bounded number of rounds; the operation stays recorded if they do not suffice. */
    method RecoverLoop(first: Loaded, target: Snapshot) returns (r: Result<Recovery>)
      requires Valid() && SavedAs(cloud.w, journal, first.state, first.revision) && first.state.pending.Some?
      requires Authentic(cloud.w.commits, first.state.pending.value)
      requires target.mark == first.state.pending.value.next && !target.root.IsZero()
      modifies this, cloud
      ensures Valid() && Moves()
      ensures r.Ok? ==>
                && r.value.intent.Some? && SameIntent(first.state.pending.value, r.value.intent.value)
                && ResolutionHolds(cloud.w, journal, first.state.pending.value, r.value.outcome)
                && Cleared(cloud.w, journal, first.revision)
      ensures Calm() && first.revision == |Log(old(cloud.w), journal)|
              && Timely(old(cloud.w).commits, old(cloud.w).history, first.state.pending.value) ==>
                r.Ok? && r.value.outcome == Applied && |cloud.w.history| == |old(cloud.w).history| + 1
      ensures Calm() && first.revision == |Log(old(cloud.w), journal)|
              && Overtaken(old(cloud.w).history, first.state.pending.value) ==>
                r.Ok? && SameStore()
    {
      var initial, loaded := first.state.pending.value, first;
      ghost var ready :=
        && first.revision == |Log(old(cloud.w), journal)|
        && (Timely(old(cloud.w).commits, old(cloud.w).history, initial) || Overtaken(old(cloud.w).history, initial));
      for attempts := 0 to RECOVERY_ATTEMPTS
        invariant Valid() && Moves()
        invariant SavedAs(cloud.w, journal, loaded.state, loaded.revision) && loaded.revision >= first.revision
        invariant loaded.state.pending.Some? ==> SameIntent(initial, loaded.state.pending.value)
        invariant Authentic(cloud.w.commits, initial)
        invariant Calm() && ready ==> attempts == 0 && cloud.w == old(cloud.w) && loaded == first
      {
        var pass :- RecoverRound(initial, target, loaded, first.revision);
        if pass.Settled? {
          return Ok(pass.recovery);
        }
        loaded := pass.loaded;
      }
      return Err(Indeterminate);
    }

    /** Recovery entry point: with nothing pending it reports the journal state it saw. */
    method RecoverPublication() returns (r: Result<Recovery>)
      requires Valid()
      modifies this, cloud
      ensures Valid() && Moves()
      ensures r.Ok? && r.value.outcome == NothingPending ==>
                exists k :: |Log(old(cloud.w), journal)| - 1 <= k < |Log(cloud.w, journal)| && 0 <= k
                            && Log(cloud.w, journal)[k].pending.None?
      ensures r.Ok? && r.value.outcome != NothingPending ==>
                && r.value.intent.Some? && ValidIntent(r.value.intent.value)
                && ResolutionHolds(cloud.w, journal, r.value.intent.value, r.value.outcome)
      ensures Calm() && Log(old(cloud.w), journal) != [] && old(Vouched(cloud.w.commits, AnchorOf(cloud.w))) ==>
                var pending := Log(old(cloud.w), journal)[|Log(old(cloud.w), journal)| - 1].pending;
                pending.Some? && Timely(old(cloud.w).commits, old(cloud.w).history, pending.value) ==>
                  r.Ok? && r.value.outcome == Applied && r.value.intent == pending
                  && |cloud.w.history| == |old(cloud.w).history| + 1
      ensures Calm() && Log(old(cloud.w), journal) != [] && old(Vouched(cloud.w.commits, AnchorOf(cloud.w))) ==>
                var pending := Log(old(cloud.w), journal)[|Log(old(cloud.w), journal)| - 1].pending;
                pending.Some? && Authentic(old(cloud.w).commits, pending.value)
                && Overtaken(old(cloud.w).history, pending.value) ==>
                  r.Ok? && r.value.outcome != NothingPending && r.value.intent == pending && SameStore()
    {
      var loaded :- LoadOrInitialize();
      SavedIsSound(cloud.run, cloud.w, journal, loaded.state, loaded.revision);
      if loaded.state.pending.None? {
        var current: Option<Snapshot> := None;
        if loaded.state.committed.Some? {
          var read :- ReadCommit(loaded.state.committed.value);
          current := Some(Snapshot(loaded.state.committed.value, read.root));
        }
        assert Log(cloud.w, journal)[loaded.revision - 1].pending.None?;
        return Ok(Recovery(NothingPending, None, current));
      }
      r := Recover(loaded);
      if r.Ok? {
        r := Ok(r.value.(intent := loaded.state.pending));
      }
    }

    /** Brings the journal to a state with nothing pending. */
    method PrepareJournal() returns (r: Result<Loaded>)
      requires Valid()
      modifies this, cloud
      ensures Valid() && Moves()
      ensures r.Ok? ==> SavedAs(cloud.w, journal, r.value.state, r.value.revision) && r.value.state.pending.None?
      ensures r.Ok? ==> TrustsAnchor(r.value.state.committed)
      ensures Calm() && old(Trusting(cloud.w)) && Idle(old(cloud.w), journal) ==>
                && r.Ok? && SameStore() && r.value.revision == |Log(cloud.w, journal)|
                && r.value.state.committed == AnchorOf(old(cloud.w))
    {
      var load := LoadOrInitialize();
      if load.Err? || load.value.state.pending.None? {
        return load;
      }
      var recovery :- Recover(load.value);
      var reload :- LoadJournal();
      if reload.None? || reload.value.state.pending.Some? {
        return Err(Indeterminate);
      }
      return Ok(reload.value);
    }

    /** Moves the anchor to an observed reference that descends from it. */
    method AcceptObserved(loaded: Loaded, found: Object, commit: Commit) returns (r: Result<Loaded>)
      requires Valid() && SavedAs(cloud.w, journal, loaded.state, loaded.revision)
      requires Seen(cloud.w, found)
      requires found.data.commit in cloud.w.commits && cloud.w.commits[found.data.commit] == commit
      requires ValidCommit(commit, found.data.generation)
      modifies this, cloud
      ensures Valid() && Moves()
      ensures r.Ok? ==>
                && SavedAs(cloud.w, journal, r.value.state, r.value.revision)
                && r.value.state == JournalState(Some(MarkOf(found.data)), None)
      ensures r.Ok? && loaded.state.committed.Some? ==>
                SameOrDescends(cloud.w.commits, MarkOf(found.data), loaded.state.committed.value)
      ensures Calm() && loaded.revision == |Log(old(cloud.w), journal)| && loaded.state.pending.None?
              && AnchorAdvances(loaded.state.committed, Some(MarkOf(found.data)))
              && Near(old(cloud.w).commits, MarkOf(found.data), loaded.state.committed) ==>
                r.Ok? && SameStore() && SameTrust() && r.value.revision == |Log(cloud.w, journal)|
    {
      SavedIsSound(cloud.run, cloud.w, journal, loaded.state, loaded.revision);
      if loaded.state.pending.Some? {
        return Err(Indeterminate);
      }
      var candidate := MarkOf(found.data);
      assert Published(cloud.w.history, candidate);
      if loaded.state.committed.Some? {
        var committed := loaded.state.committed.value;
        if candidate.generation < committed.generation {
          return Err(Rollback);
        }
        if candidate.generation == committed.generation && candidate.commit != committed.commit {
          return Err(SplitBrain);
        }
        if candidate == committed {
          return Ok(loaded);
        }
        var descends :- Descends(candidate, commit, committed);
        if !descends {
          return Err(SplitBrain);
        }
        ghost var proved := cloud.w.commits;
        r := AdoptAnchor(loaded, candidate);
        DescendsStable(proved, cloud.w.commits, candidate, committed);
        return;
      }
      r := AdoptAnchor(loaded, candidate);
    }

    method AdoptAnchor(loaded: Loaded, candidate: Watermark) returns (r: Result<Loaded>)
      requires Valid() && SavedAs(cloud.w, journal, loaded.state, loaded.revision) && loaded.state.pending.None?
      requires ValidWatermark(candidate) && Published(cloud.w.history, candidate)
      requires AnchorAdvances(loaded.state.committed, Some(candidate))
      modifies this, cloud
      ensures Valid() && Moves()
      ensures r.Ok? ==>
                && SavedAs(cloud.w, journal, r.value.state, r.value.revision)
                && r.value.state == JournalState(Some(candidate), None)
      ensures Calm() && loaded.revision == |Log(old(cloud.w), journal)| ==>
                r.Ok? && SameStore() && SameTrust() && r.value.revision == |Log(cloud.w, journal)|
    {
      var desired := JournalState(Some(candidate), None);
      var save := cloud.CompareAndSwapJournal(journal, loaded.revision, desired);
      if save.Ok? {
        return Ok(Loaded(desired, save.value));
      }
      if save.error == Incompatible {
        return Err(Incompatible);
      }
      var load :- LoadJournal();
      if load.Some? && load.value.state == desired {
        return Ok(load.value);
      }
      return Err(if save.error == Precondition then Conflict else save.error);
    }

    /**
     The durable begin and the first recovery of a staged operation. Success means the
     target is in the visible history; for a re-sign, with its exact bytes.
     */
    method CommitSigned(begin: Loaded, intent: Intent) returns (r: Result<()>)
      requires Valid() && SavedAs(cloud.w, journal, begin.state, begin.revision) && ValidIntent(intent)
      requires Witnessed(cloud.w.history, intent)
      modifies this, cloud
      ensures Valid() && Moves()
      ensures r.Ok? ==> Decided(cloud.w, intent, Applied)
      ensures Calm() && old(Vouched(cloud.w.commits, intent.base)) && begin.revision == |Log(old(cloud.w), journal)|
              && begin.state.pending.None?
              && begin.state.committed == intent.base && Timely(old(cloud.w).commits, old(cloud.w).history, intent) ==>
                r.Ok? && |cloud.w.history| == |old(cloud.w).history| + 1
    {
      if begin.state.pending.Some? || begin.state.committed != intent.base {
        return Err(Conflict);
      }
      var begun :- BeginDurably(begin, intent);
      if begun.AlreadyApplied? {
        return Ok(());
      }
      ghost var index :| 0 <= index < |Log(cloud.w, journal)| && Log(cloud.w, journal)[index].pending == Some(intent);
      r := DriveRecorded(intent, index);
    }

    /** Recovers the journal of a recorded intent until it is known who won. */
    method DriveRecorded(intent: Intent, ghost index: nat) returns (r: Result<()>)
      requires Valid() && ValidIntent(intent) && index < |Log(cloud.w, journal)|
               && Log(cloud.w, journal)[index].pending == Some(intent)
      modifies this, cloud
      ensures Valid() && Moves()
      ensures r.Ok? ==> Decided(cloud.w, intent, Applied)
      ensures Calm() && Log(old(cloud.w), journal)[|Log(old(cloud.w), journal)| - 1].pending == Some(intent)
              && old(Vouched(cloud.w.commits, intent.base))
              && Timely(old(cloud.w).commits, old(cloud.w).history, intent) ==>
                r.Ok? && |cloud.w.history| == |old(cloud.w).history| + 1
    {
      ghost var last := Log(cloud.w, journal)[|Log(cloud.w, journal)| - 1];
      SavedIsSound(cloud.run, cloud.w, journal, last, |Log(cloud.w, journal)|);
      var recovery :- RecoverPublication();
      if recovery.outcome == Applied && SameIntent(recovery.intent.value, intent) {
        return Ok(());
      }
      if recovery.outcome == NothingPending {
        ghost var k :| index <= k < |Log(cloud.w, journal)| && Log(cloud.w, journal)[k].pending.None?;
        r := ResolveSettled(intent, index, k);
        return;
      }
      return Err(Conflict);
    }

    /** Another publisher cleared the recorded intent: the anchor tells who won. */
    method ResolveSettled(intent: Intent, ghost index: nat, ghost cleared: nat) returns (r: Result<()>)
      requires Valid() && ValidIntent(intent) && index <= cleared < |Log(cloud.w, journal)|
      requires Log(cloud.w, journal)[index].pending == Some(intent) && Log(cloud.w, journal)[cleared].pending.None?
      modifies this, cloud
      ensures Valid() && Moves()
      ensures r.Ok? ==> Decided(cloud.w, intent, Applied)
    {
      var load :- LoadJournal();
      if load.None? {
        return Err(Conflict);
      }
      SettledIsReached(cloud.run, cloud.w, journal, index, cleared, load.value.revision - 1);
      SavedIsSound(cloud.run, cloud.w, journal, Log(cloud.w, journal)[index], index + 1);
      var resolved :- ClassifyResolved(intent, load.value.state.committed);
      if resolved.outcome == Applied {
        return Ok(());
      }
      return Err(Conflict);
    }

    /** One attempt to record the intent. */
    method TryBegin(loaded: Loaded, intent: Intent) returns (r: Result<Begun>)
      requires Valid() && SavedAs(cloud.w, journal, loaded.state, loaded.revision) && ValidIntent(intent)
      requires Witnessed(cloud.w.history, intent)
      requires loaded.state.pending.None? && loaded.state.committed == intent.base
      modifies this, cloud
      ensures Valid() && Moves()
      ensures r.Ok? ==> BegunHolds(cloud.w, journal, loaded.revision, intent, r.value)
      ensures Calm() && loaded.revision == |Log(old(cloud.w), journal)| ==>
                r == Ok(Recorded) && SameStore() && SameTrust()
                && Log(cloud.w, journal) == Log(old(cloud.w), journal) + [loaded.state.(pending := Some(intent))]
    {
      SavedIsSound(cloud.run, cloud.w, journal, loaded.state, loaded.revision);
      var save := cloud.CompareAndSwapJournal(journal, loaded.revision, loaded.state.(pending := Some(intent)));
      if save.Ok? {
        assert Log(cloud.w, journal)[save.value - 1].pending == Some(intent);
        return Ok(Recorded);
      }
      if save.error == Incompatible {
        return Err(Incompatible);
      }
      r := ExamineJournal(loaded, intent);
    }

    /** Records the intent as pending, or finds that it has already been driven to the end. */
    method BeginDurably(begin: Loaded, intent: Intent) returns (r: Result<Begun>)
      requires Valid() && SavedAs(cloud.w, journal, begin.state, begin.revision) && ValidIntent(intent)
      requires Witnessed(cloud.w.history, intent)
      requires begin.state.pending.None? && begin.state.committed == intent.base
      modifies this, cloud
      ensures Valid() && Moves()
      ensures r.Ok? ==> !r.value.Moved? && BegunHolds(cloud.w, journal, begin.revision, intent, r.value)
      ensures Calm() && begin.revision == |Log(old(cloud.w), journal)| ==>
                r == Ok(Recorded) && SameStore() && SameTrust()
                && Log(cloud.w, journal) == Log(old(cloud.w), journal) + [begin.state.(pending := Some(intent))]
    {
      var loaded := begin;
      for attempts := 0 to 2
        invariant Valid() && Moves()
        invariant SavedAs(cloud.w, journal, loaded.state, loaded.revision) && loaded.revision >= begin.revision
        invariant loaded.state.pending.None? && loaded.state.committed == intent.base
        invariant Calm() && begin.revision == |Log(old(cloud.w), journal)| ==>
            attempts == 0 && cloud.w == old(cloud.w) && loaded == begin && SameTrust()
      {
        var begun :- TryBegin(loaded, intent);
        if !begun.Moved? {
          return Ok(begun);
        }
        loaded := begun.loaded;
      }
      return Err(Conflict);
    }

    /** What the journal holds after a begin that was not acknowledged. */
    method ExamineJournal(loaded: Loaded, intent: Intent) returns (r: Result<Begun>)
      requires Valid() && SavedAs(cloud.w, journal, loaded.state, loaded.revision) && ValidIntent(intent)
      requires Witnessed(cloud.w.history, intent)
      requires loaded.state.committed == intent.base
      modifies this, cloud
      ensures Valid() && Moves()
      ensures r.Ok? ==> BegunHolds(cloud.w, journal, loaded.revision, intent, r.value)
    {
      var load :- LoadJournal();
      if load.None? {
        return Err(Rollback);
      }
      var current := load.value;
      if current.state.pending.Some? {
        if current.state.pending.value != intent {
          return Err(Conflict);
        }
        assert Log(cloud.w, journal)[current.revision - 1].pending == Some(intent);
        return Ok(Recorded);
      }
      if current.state.committed == intent.base {
        return Ok(Moved(current));
      }
      MovedAnchorIsReached(cloud.run, cloud.w, journal, loaded.revision - 1, current.revision - 1, intent);
      var resolved :- ClassifyResolved(intent, current.state.committed);
      if resolved.outcome == Applied {
        return Ok(AlreadyApplied);
      }
      return Err(Conflict);
    }

    /** The signed target for a freshly uploaded commit over the journal's anchor. */
    method BuildIntent(begin: Loaded, found: Option<Object>, root: Digest) returns (r: Result<Staged>)
      requires Valid() && SavedAs(cloud.w, journal, begin.state, begin.revision) && !root.IsZero()
      requires begin.state == JournalState(if found.None? then None else Some(MarkOf(found.value.data)), None)
      requires found.Some? ==> Seen(cloud.w, found.value) && found.value.data.generation != MAX_UINT64
      modifies cloud
      ensures Valid() && Moves()
      ensures r.Ok? ==> r.value.Prepared? && StagedHolds(cloud.w, journal, r.value) && r.value.snapshot.root == root
      ensures Calm() ==>
                r.Ok? && cloud.w.history == old(cloud.w).history && cloud.w.logs == old(cloud.w).logs
                && r.value.begin == begin
    {
      var generation: Uint64, parent: Option<Digest> := 1, None;
      if found.Some? {
        generation, parent := found.value.data.generation + 1, Some(found.value.data.commit);
      }
      var commit := Commit(OBJECT_FORMAT, generation, parent, root);
      var put :- cloud.PutManifest(commit);
      var seal: nat := *;
      var reference := Envelope(generation, put, seal);
      var expected := if found.None? then None else Some(Observation(found.value.version, found.value.data));
      var intent := Intent(Publish, begin.state.committed, MarkOf(reference), expected, reference);
      return Ok(Prepared(Snapshot(intent.next, root), begin, intent));
    }

    /** Stages a tree over an observed reference, which first becomes the anchor. */
    method StageOver(prepared: Loaded, found: Object, commit: Commit, root: Digest) returns (r: Result<Staged>)
      requires Valid() && SavedAs(cloud.w, journal, prepared.state, prepared.revision) && !root.IsZero()
      requires Seen(cloud.w, found)
      requires found.data.commit in cloud.w.commits && cloud.w.commits[found.data.commit] == commit
      requires ValidCommit(commit, found.data.generation)
      modifies this, cloud
      ensures Valid() && Moves()
      ensures r.Ok? ==> StagedHolds(cloud.w, journal, r.value) && r.value.snapshot.root == root
      ensures Calm() && prepared.revision == |Log(old(cloud.w), journal)| && prepared.state.pending.None?
              && AnchorAdvances(prepared.state.committed, Some(MarkOf(found.data)))
              && Near(old(cloud.w).commits, MarkOf(found.data), prepared.state.committed)
              && found.data.generation != MAX_UINT64 && old(TrustsAnchor(prepared.state.committed)) ==>
                && r.Ok? && cloud.w.history == old(cloud.w).history && (r.value.Unchanged? <==> commit.root == root)
                && (r.value.Unchanged? ==> r.value.found == found)
                && (r.value.Prepared? ==>
                      r.value.begin.revision == |Log(cloud.w, journal)|
                      && r.value.intent.base == Some(MarkOf(found.data))
                      && Vouched(cloud.w.commits, r.value.intent.base))
    {
      var accept :- AcceptObserved(prepared, found, commit);
      if found.data.generation == MAX_UINT64 {
        return Err(Exhausted);
      }
      if commit.root == root {
        return Ok(Unchanged(Snapshot(MarkOf(found.data), root), found));
      }
      ghost var before := cloud.w.commits;
      r := BuildIntent(accept, Some(found), root);
      NearStable(before, cloud.w.commits, MarkOf(found.data), prepared.state.committed);
    }

    /** An undisturbed publisher can stage: the journal is idle and the tip is near its anchor. */
    ghost predicate Stageable(w: World)
      reads this
    {
      && Trusting(w) && Idle(w, journal)
      && (w.history != [] ==>
            && Near(w.commits, Tip(w.history).value, AnchorOf(w))
            && w.history[|w.history| - 1].data.generation != MAX_UINT64)
    }

    /** An undisturbed publisher can re-sign: there is a visible reference near the idle journal's anchor. */
    ghost predicate Resignable(w: World)
      reads this
    {
      Trusting(w) && Idle(w, journal) && w.history != [] && Near(w.commits, Tip(w.history).value, AnchorOf(w))
    }

    /** The visible tree already is the one to publish. */
    ghost predicate Same(w: World, root: Digest) {
      && w.history != [] && w.history[|w.history| - 1].data.commit in w.commits
      && w.commits[w.history[|w.history| - 1].data.commit].root == root
    }

    /**
     Stages a tree with root manifest `root` on top of the visible snapshot: recovers and
     anchors the journal first, and uploads a commit only if the root changed.
     */
    method Stage(root: Digest) returns (r: Result<Staged>)
      requires Valid() && !root.IsZero()
      modifies this, cloud
      ensures Valid() && Moves()
      ensures r.Ok? ==> StagedHolds(cloud.w, journal, r.value) && r.value.snapshot.root == root
      ensures Calm() && old(Stageable(cloud.w)) ==>
                && r.Ok? && cloud.w.history == old(cloud.w).history
                && (r.value.Unchanged? <==> Same(old(cloud.w), root))
                && (r.value.Unchanged? ==> Applies(cloud.w.history, Some(r.value.found.version.etag)))
                && (r.value.Prepared? ==>
                      r.value.begin.revision == |Log(cloud.w, journal)| && r.value.intent.base == Tip(cloud.w.history)
                      && Vouched(cloud.w.commits, r.value.intent.base))
    {
      var prepared :- PrepareJournal();
      r := StageFrom(prepared, root);
    }

    method StageFrom(prepared: Loaded, root: Digest) returns (r: Result<Staged>)
      requires Valid() && SavedAs(cloud.w, journal, prepared.state, prepared.revision) && prepared.state.pending.None?
               && !root.IsZero()
      modifies this, cloud
      ensures Valid() && Moves()
      ensures r.Ok? ==> StagedHolds(cloud.w, journal, r.value) && r.value.snapshot.root == root
      ensures Calm() && prepared.revision == |Log(old(cloud.w), journal)| && old(TrustsAnchor(prepared.state.committed))
              && (old(cloud.w).history != [] ==>
                    && Near(old(cloud.w).commits, Tip(old(cloud.w).history).value, prepared.state.committed)
                    && old(cloud.w).history[|old(cloud.w).history| - 1].data.generation != MAX_UINT64) ==>
                && r.Ok? && cloud.w.history == old(cloud.w).history
                && (r.value.Unchanged? <==> Same(old(cloud.w), root))
                && (r.value.Unchanged? ==> Applies(cloud.w.history, Some(r.value.found.version.etag)))
                && (r.value.Prepared? ==>
                      r.value.begin.revision == |Log(cloud.w, journal)| && r.value.intent.base == Tip(cloud.w.history)
                      && Vouched(cloud.w.commits, r.value.intent.base))
    {
      SavedIsSound(cloud.run, cloud.w, journal, prepared.state, prepared.revision);
      var observe := Observe(None, None);
      if observe.Err? && observe.error == NotFound {
        if prepared.state.committed.Some? {
          return Err(Rollback);
        }
        r := BuildIntent(prepared, None, root);
        return;
      }
      if observe.Err? {
        return Err(observe.error);
      }
      r := StageOver(prepared, observe.value.0, observe.value.1, root);
    }

    /** Exposes a staged snapshot; success means it is in the visible history. */
    method CommitStaged(staged: Staged) returns (r: Result<Snapshot>)
      requires Valid() && StagedHolds(cloud.w, journal, staged)
      modifies this, cloud
      ensures Valid() && Moves()
      ensures r.Ok? ==> r.value == staged.snapshot && Published(cloud.w.history, staged.snapshot.mark)
      ensures Calm() && staged.Unchanged? && Applies(old(cloud.w).history, Some(staged.found.version.etag)) ==>
                r.Ok? && cloud.w == old(cloud.w)
      ensures Calm() && staged.Prepared? && old(Vouched(cloud.w.commits, staged.intent.base))
              && staged.begin.revision == |Log(old(cloud.w), journal)|
              && staged.intent.base == Tip(old(cloud.w).history) ==>
                r.Ok? && |cloud.w.history| == |old(cloud.w).history| + 1
    {
      if staged.Unchanged? {
        r := ConfirmUnchanged(staged);
        return;
      }
      var commit :- CommitSigned(staged.begin, staged.intent);
      return Ok(staged.snapshot);
    }

    /** Nothing to write: confirm that the reference still is the one staged on. */
    method ConfirmUnchanged(staged: Staged) returns (r: Result<Snapshot>)
      requires Valid() && StagedHolds(cloud.w, journal, staged) && staged.Unchanged?
      modifies cloud
      ensures Valid() && Moves()
      ensures r.Ok? ==> r.value == staged.snapshot && Published(cloud.w.history, staged.snapshot.mark)
      ensures Calm() && Applies(old(cloud.w).history, Some(staged.found.version.etag)) ==>
                r.Ok? && cloud.w == old(cloud.w)
    {
      var get := cloud.Get();
      if get.Ok? && (get.value.version.etag == staged.found.version.etag
                     || MarkOf(get.value.data) == staged.snapshot.mark) {
        return Ok(staged.snapshot);
      }
      return Err(if get.Ok? || get.error == NotFound then Conflict else get.error);
    }

    /**
     Stages and commits. Success means that this tree is in the visible history; undisturbed,
     it succeeds, with one write if the tree is new and none if it is already visible.
     */
    method PublishTree(root: Digest) returns (r: Result<Snapshot>)
      requires Valid() && !root.IsZero()
      modifies this, cloud
      ensures Valid() && Moves()
      ensures r.Ok? ==>
                && r.value.root == root && Published(cloud.w.history, r.value.mark)
                && r.value.mark.commit in cloud.w.commits && cloud.w.commits[r.value.mark.commit].root == root
      ensures Calm() && old(Stageable(cloud.w)) ==>
                r.Ok? && |cloud.w.history| == |old(cloud.w).history| + (if Same(old(cloud.w), root) then 0 else 1)
    {
      var stage :- Stage(root);
      r := CommitStaged(stage);
    }

    /** Replaces the envelope of the visible snapshot; success means the new bytes were visible. */
    method ResignReference() returns (r: Result<(Snapshot, Envelope)>)
      requires Valid()
      modifies this, cloud
      ensures Valid() && Moves()
      ensures r.Ok? ==> Shown(cloud.w.history, r.value.1) && r.value.0.mark == MarkOf(r.value.1)
      ensures Calm() && old(Resignable(cloud.w)) ==>
                && r.Ok? && r.value.0.mark == Tip(old(cloud.w).history).value
                && |cloud.w.history| == |old(cloud.w).history|
                                        + (if Newest(old(cloud.w).history) == Some(r.value.1) then 0 else 1)
    {
      var prepare :- PrepareJournal();
      SavedIsSound(cloud.run, cloud.w, journal, prepare.state, prepare.revision);
      var observe := Observe(None, None);
      if observe.Err? {
        return Err(if observe.error == NotFound && prepare.state.committed.Some? then Rollback else observe.error);
      }
      r := ResignOver(prepare, observe.value.0, observe.value.1);
    }

    method ResignOver(prepared: Loaded, found: Object, commit: Commit) returns (r: Result<(Snapshot, Envelope)>)
      requires Valid() && SavedAs(cloud.w, journal, prepared.state, prepared.revision) && Seen(cloud.w, found)
      requires found.data.commit in cloud.w.commits && cloud.w.commits[found.data.commit] == commit
      requires ValidCommit(commit, found.data.generation)
      modifies this, cloud
      ensures Valid() && Moves()
      ensures r.Ok? ==> Shown(cloud.w.history, r.value.1) && r.value.0.mark == MarkOf(r.value.1)
      ensures Calm() && old(TrustsAnchor(prepared.state.committed)) && prepared.revision == |Log(old(cloud.w), journal)|
              && prepared.state.pending.None?
              && AnchorAdvances(prepared.state.committed, Some(MarkOf(found.data)))
              && Near(old(cloud.w).commits, MarkOf(found.data), prepared.state.committed)
              && old(cloud.w).history[|old(cloud.w).history| - 1] == Entry(found.version.etag, found.data) ==>
                && r.Ok? && r.value.0.mark == MarkOf(found.data)
                && |cloud.w.history| == |old(cloud.w).history| + (if r.value.1 == found.data then 0 else 1)
    {
      ghost var seen := cloud.w;
      var accept :- AcceptObserved(prepared, found, commit);
      var mark := MarkOf(found.data);
      var seal: nat := *;
      var reference := found.data.(seal := seal);
      var snapshot := Snapshot(mark, commit.root);
      if found.data == reference {
        assert Shown(cloud.w.history, reference) by {
          var i :| 0 <= i < |seen.history| && seen.history[i] == Entry(found.version.etag, found.data);
          assert cloud.w.history[i] == seen.history[i];
        }
        return Ok((snapshot, reference));
      }
      var intent := Intent(Resign, Some(mark), mark, Some(Observation(found.version, found.data)), reference);
      var commitSigned :- CommitSigned(accept, intent);
      return Ok((snapshot, reference));
    }
  }
}
