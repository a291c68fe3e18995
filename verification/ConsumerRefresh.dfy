/**
 The consumer's code over a shared durable watermark: loading and checking the watermark,
 and the refresh that adopts a newer snapshot. Between any two of its steps all other
 processes may take any number of steps; the object store may answer with any authentic
 reference, however old, or not at all.
 */
module ConsumerRefresh {
  import opened Basics
  import opened Ancestry
  import opened ConsumerProtocol

  /** A reference the store once served, with a genuine signature where there is one. */
  datatype Served = Served(generation: Uint64, commit: Digest, etag: string)

  /** Equal ETags mean equal references. */
  ghost predicate EtagsIdentify(published: seq<Served>) {
    forall a, b | a in published && b in published && a.etag == b.etag :: a == b
  }

  datatype Answer = Reference(served: Served) | Missing | Same | Failed(error: Error)

  /**
   The durable watermark file, the repository's commits and the references the store can
   serve, newest last, shared by all processes.
   */
  class Vault {
    const commits: Commits
    const published: seq<Served>
    var s: State
    ghost var run: seq<Action>
    /** Counts failures, lost responses, stale answers and steps of other processes. */
    ghost var faults: nat

    ghost predicate Valid()
      reads this
    {
      Reaches(commits, run, s) && EtagsIdentify(published)
    }

    twostate predicate Advances()
      reads this
    {
      Valid() && Evolves(old(s), s) && faults >= old(faults)
    }

    constructor (commits: Commits, published: seq<Served>)
      requires EtagsIdentify(published)
      ensures Valid() && s == INITIAL && this.commits == commits && this.published == published
    {
      this.commits, this.published := commits, published;
      s, run, faults := INITIAL, [], 0;
    }

    method Perform(action: Action)
      requires Valid() && Enabled(commits, s, action)
      modifies this
      ensures Valid() && s == Apply(old(s), action) && faults == old(faults)
    {
      s := Apply(s, action);
      run := run + [action];
      assert run[..|run| - 1] == old(run);
      assert ReachesByStep(commits, run, s);
    }

    /** Any steps of any process but `process`. */
    method Interfere(process: Process)
      requires Valid()
      modifies this
      ensures Advances() && Remembered(s, process) == Remembered(old(s), process)
      ensures faults == old(faults) ==> s == old(s)
    {
      var schedule: seq<Action> := *;
      for i := 0 to |schedule|
        invariant Advances() && Remembered(s, process) == Remembered(old(s), process)
        invariant faults == old(faults) ==> s == old(s)
      {
        if schedule[i].process != process && Enabled(commits, s, schedule[i]) {
          Perform(schedule[i]);
          faults := faults + 1;
        }
      }
    }

    method LoadWatermark(process: Process) returns (r: Result<Option<Watermark>>)
      requires Valid()
      modifies this
      ensures Advances()
      ensures r.Ok? ==> r.value == Remembered(s, process) == Current(s.durable)
      ensures faults == old(faults) ==> r.Ok? && s.durable == old(s).durable
    {
      Interfere(process);
      var failed: bool := *;
      if failed {
        faults := faults + 1;
        return Err(Unavailable);
      }
      Perform(Load(process));
      return Ok(Current(s.durable));
    }

    /** The register's compare-and-swap. A lost response leaves the new value in place. */
    method CompareAndSwap(process: Process, expected: Option<Watermark>, next: Watermark) returns (r: Result<()>)
      requires Valid() && Remembered(s, process) == expected
      requires expected.Some? ==> Descends(commits, next, expected.value)
      modifies this
      ensures Advances()
      ensures r.Ok? ==> Remembered(s, process) == Some(next) && Current(s.durable) == Some(next)
      ensures faults == old(faults) && next.generation != 0 && !next.commit.IsZero()
              && Current(old(s).durable) == expected ==>
                r.Ok? && s.durable == old(s).durable + [next]
    {
      Interfere(process);
      var failed: bool, lost: bool := *, *;
      if failed {
        faults := faults + 1;
        return Err(Unavailable);
      }
      if next.generation == 0 || next.commit.IsZero() {
        return Err(CorruptObject);
      }
      if Current(s.durable) != expected {
        return Err(Error.Precondition);
      }
      Perform(Advance(process, next));
      if lost {
        faults := faults + 1;
        return Err(Unavailable);
      }
      return Ok(());
    }

    /** The commits whose reads succeed during the next walk. */
    method ReadCommits(process: Process) returns (readable: Commits)
      requires Valid()
      modifies this
      ensures Advances() && Remembered(s, process) == Remembered(old(s), process)
      ensures Submap(readable, commits)
      ensures faults == old(faults) ==> s == old(s) && readable == commits
    {
      Interfere(process);
      var unavailable: set<Digest> := *;
      if unavailable != {} {
        faults := faults + 1;
      }
      readable := commits - unavailable;
    }

    /** Any reference that was ever published, or none. */
    method GetReference(ifNoneMatch: Option<string>) returns (answer: Answer)
      modifies this`faults
      ensures faults >= old(faults)
      ensures answer.Reference? ==> answer.served in published
      ensures faults == old(faults) ==>
                answer == if published == [] then Missing
                else if ifNoneMatch == Some(published[|published| - 1].etag) then Same
                else Reference(published[|published| - 1])
    {
      var failed: bool, age: nat := *, *;
      if failed || age != 0 {
        faults := faults + 1;
      }
      if failed {
        return Failed(Unavailable);
      }
      if age >= |published| {
        return Missing;
      }
      var served := published[|published| - 1 - age];
      if ifNoneMatch == Some(served.etag) {
        return Same;
      }
      return Reference(served);
    }

    method Activate(process: Process)
      requires Valid() && process in s.memory
      modifies this
      ensures Advances() && Remembered(s, process) == Remembered(old(s), process)
      ensures |s.exposed| > |old(s.exposed)| && s.exposed[|s.exposed| - 1] == (process, s.memory[process])
      ensures faults == old(faults) ==> s.durable == old(s).durable
    {
      Interfere(process);
      Perform(Expose(process));
    }
  }

  /** Durable values and activations are only ever added. */
  ghost predicate Evolves(before: State, after: State) {
    && |before.durable| <= |after.durable|
    && (forall i | 0 <= i < |before.durable| :: after.durable[i] == before.durable[i])
    && |before.exposed| <= |after.exposed|
    && (forall i | 0 <= i < |before.exposed| :: after.exposed[i] == before.exposed[i])
  }

  /** A walk over readable commits that accepts proves descent in the whole repository. */
  lemma AcceptedDescends(readable: Commits, commits: Commits, candidate: Watermark, anchor: Watermark)
    requires Submap(readable, commits) && 0 < anchor.generation < candidate.generation
    requires candidate.repository == anchor.repository
    ensures WalkAnswer(readable, candidate, anchor) == Accepted ==> Descends(commits, candidate, anchor)
    ensures readable == commits && Descends(commits, candidate, anchor)
            && candidate.generation - anchor.generation <= MAX_COMMIT_WALK ==>
              WalkAnswer(readable, candidate, anchor) == Accepted
  {
    WalkMeaning(readable, candidate, anchor);
    if WalkAnswer(readable, candidate, anchor) == Accepted {
      AncestorStable(readable, commits, candidate.commit, candidate.generation,
                     candidate.generation - anchor.generation);
    }
  }

  /** A process that activates again shows an equal or descending snapshot. */
  lemma LaterActivation(commits: Commits, run: seq<Action>, s: State, i: nat, j: nat)
    requires Reaches(commits, run, s) && i <= j < |s.exposed| && s.exposed[i].0 == s.exposed[j].0
    ensures SameOrDescends(commits, s.exposed[j].1, s.exposed[i].1)
  {
    RunInvariant(commits, run, s);
  }

  /** Only durable watermarks are ever shown. */
  lemma ActivatedIsDurable(commits: Commits, run: seq<Action>, s: State, i: nat)
    requires Reaches(commits, run, s) && i < |s.exposed|
    ensures s.exposed[i].1 in s.durable
  {
    RunInvariant(commits, run, s);
  }

  /** The durable watermark is well formed and covers everything shown. */
  lemma NewestCovers(commits: Commits, run: seq<Action>, s: State)
    requires Reaches(commits, run, s)
    ensures s.durable != [] ==>
              s.durable[|s.durable| - 1].generation != 0 && !s.durable[|s.durable| - 1].commit.IsZero()
    ensures forall i | 0 <= i < |s.exposed| :: CoveredBy(commits, s.durable, s.exposed[i].1)
  {
    RunInvariant(commits, run, s);
    forall i | 0 <= i < |s.exposed|
      ensures CoveredBy(commits, s.durable, s.exposed[i].1)
    {
      NewestDescends(commits, s.durable, s.exposed[i].1);
    }
  }

  ghost predicate CoveredBy(commits: Commits, durable: seq<Watermark>, mark: Watermark) {
    durable != [] && SameOrDescends(commits, durable[|durable| - 1], mark)
  }

  datatype Status = Unchanged | Updated | NoSnapshot | StaleIgnored

  /** Whether a refresh goes on to validate a reference, or how it ends. */
  datatype Verdict = Proceed | Stop(status: Status, error: Option<Error>)

  /** The adopted snapshot and the ETag it was last seen with. */
  datatype Adopted = Adopted(mark: Watermark, root: Digest, etag: string)

  class Consumer {
    const vault: Vault
    const id: Process
    /** The verifier's repository; zero for a consumer of unsigned references. */
    const repository: nat
    const checkpoint: Option<Watermark>
    const trustOnFirstUse: bool

    var state: Option<Adopted>
    var watermark: Option<Watermark>
    var watermarkLoaded: bool
    /** The highest watermark whose ancestry has been proved back to the checkpoint. */
    var validated: Option<Watermark>
    /** The activation that put the adopted snapshot on view. */
    ghost var shown: nat

    ghost predicate Valid()
      reads this, vault
    {
      && vault.Valid()
      && (checkpoint.Some? ==>
            && repository != 0 && checkpoint.value.repository == repository
            && checkpoint.value.generation != 0 && !checkpoint.value.commit.IsZero())
      && (validated.Some? ==>
            checkpoint.Some? && SameOrDescends(vault.commits, validated.value, checkpoint.value))
      && (state.Some? ==>
            && shown < |vault.s.exposed| && vault.s.exposed[shown] == (id, state.value.mark)
            && state.value.mark.repository == repository && AsServed(state.value) in vault.published)
    }

    /** The reference a view came from, as the store last served it. */
    ghost function AsServed(view: Adopted): Served {
      Served(view.mark.generation, view.mark.commit, view.etag)
    }

    constructor (vault: Vault, id: Process, repository: nat, checkpoint: Option<Watermark>, trustOnFirstUse: bool)
      requires vault.Valid()
      requires checkpoint.Some? ==>
                 && repository != 0 && checkpoint.value.repository == repository
                 && checkpoint.value.generation != 0 && !checkpoint.value.commit.IsZero()
      ensures Valid() && state.None? && this.vault == vault
    {
      this.vault := vault;
      this.id := id;
      this.repository := repository;
      this.checkpoint := checkpoint;
      this.trustOnFirstUse := trustOnFirstUse;
      state, watermark, watermarkLoaded, validated, shown := None, None, false, None, 0;
    }

    /** What the watermark is after loading: the durable one, or else the checkpoint. */
    ghost function Opening(durable: seq<Watermark>): Option<Watermark> {
      if durable == [] then checkpoint else Current(durable)
    }

    /** The tip is the anchor or can be proved to extend it within one walk. */
    ghost predicate Near(tip: Watermark, anchor: Watermark) {
      tip == anchor || (Descends(vault.commits, tip, anchor) && tip.generation - anchor.generation <= MAX_COMMIT_WALK)
    }

    /** The durable watermark is ours and provable, or may start from the checkpoint or from nothing. */
    ghost predicate Trusted(durable: seq<Watermark>)
      reads this
    {
      match Current(durable)
      case None => repository == 0 || trustOnFirstUse || checkpoint.Some?
      case Some(mark) =>
        && mark.repository == repository
        && (checkpoint.Some? ==> Near(mark, if validated.Some? then validated.value else checkpoint.value))
    }

    /** What a served reference names, for this consumer. */
    function MarkOf(served: Served): Watermark {
      Watermark(repository, served.generation, served.commit)
    }

    /** The newest reference names a commit that exists. */
    ghost predicate NewestValid() {
      && vault.published != []
      && var served := vault.published[|vault.published| - 1];
      && served.generation != 0 && !served.commit.IsZero() && served.commit in vault.commits
      && ValidCommit(vault.commits[served.commit], served.generation)
    }

    /** The newest reference can be adopted over the watermark. */
    ghost predicate Adoptable(watermark: Option<Watermark>) {
      NewestValid() && (watermark.Some? ==> Near(MarkOf(vault.published[|vault.published| - 1]), watermark.value))
    }

    /**
     Proves a watermark against the checkpoint by walking back only to the last watermark
     already proved. The walk is always entered with a strictly larger generation.
     */
    method ValidateCheckpoint(mark: Watermark) returns (r: Result<()>)
      requires Valid() && checkpoint.Some?
      modifies this`validated, vault
      ensures Valid() && vault.Advances() && Remembered(vault.s, id) == Remembered(old(vault.s), id)
      ensures r.Ok? ==> SameOrDescends(vault.commits, mark, checkpoint.value) && validated == Some(mark)
      ensures r.Err? ==> validated == old(validated)
      ensures var start := if old(validated).Some? then old(validated).value else checkpoint.value;
              vault.faults == old(vault.faults) && Near(mark, start) ==> r.Ok? && vault.s == old(vault.s)
    {
      var anchor := checkpoint.value;
      if validated.Some? {
        if mark.generation < validated.value.generation {
          return Err(Rollback);
        }
        if mark.generation == validated.value.generation && mark.commit != validated.value.commit {
          return Err(SplitBrain);
        }
        if mark == validated.value {
          return Ok(());
        }
        anchor := validated.value;
      }
      if mark.repository != checkpoint.value.repository {
        return Err(Untrusted);
      }
      if mark.generation < checkpoint.value.generation {
        return Err(Rollback);
      }
      if mark.generation == checkpoint.value.generation {
        if mark.commit != checkpoint.value.commit {
          return Err(SplitBrain);
        }
        validated := Some(mark);
        return Ok(());
      }
      var readable := vault.ReadCommits(id);
      if mark.commit !in readable {
        return Err(Unavailable);
      }
      if !ValidCommit(readable[mark.commit], mark.generation) {
        return Err(CorruptObject);
      }
      var walk := ValidateDescendant(readable, mark, readable[mark.commit], anchor);
      AcceptedDescends(readable, vault.commits, mark, anchor);
      if walk.Rejected? {
        return Err(walk.error);
      }
      if anchor != checkpoint.value {
        DescendsTransitive(vault.commits, mark, anchor, checkpoint.value);
      }
      validated := Some(mark);
      return Ok(());
    }

    /** Makes the trusted checkpoint durable, or takes over what another process made durable. */
    method PersistCheckpoint() returns (r: Result<()>)
      requires Valid() && checkpoint.Some? && Remembered(vault.s, id).None?
      modifies this, vault
      ensures Valid() && vault.Advances() && state == old(state)
      ensures r.Ok? ==>
                && watermark == Remembered(vault.s, id) && watermark.Some?
                && watermark.value.repository == repository && watermark.value.generation != 0
                && SameOrDescends(vault.commits, watermark.value, checkpoint.value)
      ensures vault.faults == old(vault.faults) && old(vault.s).durable == [] ==>
                r.Ok? && vault.s.durable == [checkpoint.value] && watermark == checkpoint
    {
      var persist := vault.CompareAndSwap(id, None, checkpoint.value);
      if persist.Ok? {
        watermark := checkpoint;
        return Ok(());
      }
      var load :- vault.LoadWatermark(id);
      if load.None? || load.value.repository != checkpoint.value.repository
         || load.value.generation < checkpoint.value.generation
         || (load.value.generation == checkpoint.value.generation && load.value.commit != checkpoint.value.commit) {
        return Err(Untrusted);
      }
      var _ :- ValidateCheckpoint(load.value);
      watermark := load;
      return Ok(());
    }

    /** The loaded watermark must cover the snapshot on view. */
    method CompareView() returns (r: Result<()>)
      ensures r.Ok? <==>
                (state.Some? ==>
                   && watermark.Some? && watermark.value.generation >= state.value.mark.generation
                   && (watermark.value.generation == state.value.mark.generation ==>
                         watermark.value.commit == state.value.mark.commit))
    {
      if state.Some? && watermark.None? {
        return Err(TrustStateRequired);
      }
      if state.Some? {
        if watermark.value.generation < state.value.mark.generation {
          return Err(Rollback);
        }
        if watermark.value.generation == state.value.mark.generation
           && watermark.value.commit != state.value.mark.commit {
          return Err(SplitBrain);
        }
      }
      return Ok(());
    }

    /** Reads the durable watermark and proves it, or makes the checkpoint durable as the first one. */
    method ReadWatermark() returns (r: Result<()>)
      requires Valid()
      modifies this, vault
      ensures Valid() && vault.Advances() && state == old(state)
      ensures r.Ok? ==> watermark == Remembered(vault.s, id)
      ensures r.Ok? && watermark.Some? ==> watermark.value.repository == repository && watermark.value.generation != 0
      ensures r.Ok? && checkpoint.Some? ==>
                watermark.Some? && SameOrDescends(vault.commits, watermark.value, checkpoint.value)
      ensures vault.faults == old(vault.faults) && old(Trusted(vault.s.durable)) ==>
                r.Ok? && watermark == Current(vault.s.durable) == Opening(old(vault.s).durable)
    {
      NewestCovers(vault.commits, vault.run, vault.s);
      var load :- vault.LoadWatermark(id);
      if load.None? {
        watermark := None;
        if checkpoint.Some? {
          r := PersistCheckpoint();
          return;
        }
        return if repository != 0 && !trustOnFirstUse then Err(TrustStateRequired) else Ok(());
      }
      if load.value.generation == 0 || load.value.commit.IsZero() {
        return Err(CorruptObject);
      }
      if load.value.repository != repository {
        return Err(Untrusted);
      }
      if checkpoint.Some? {
        var _ :- ValidateCheckpoint(load.value);
      }
      watermark := load;
      return Ok(());
    }

    /**
     Loads the durable watermark. On success memory and durable value agree, every trusted
     checkpoint is behind it, and it covers the snapshot on view.
     */
    method LoadWatermark() returns (r: Result<()>)
      requires Valid() && !watermarkLoaded
      modifies this, vault
      ensures Valid() && vault.Advances() && state == old(state)
      ensures r.Ok? ==> watermarkLoaded && watermark == Remembered(vault.s, id)
      ensures r.Ok? && watermark.Some? ==> watermark.value.repository == repository && watermark.value.generation != 0
      ensures r.Ok? && checkpoint.Some? ==>
                watermark.Some? && SameOrDescends(vault.commits, watermark.value, checkpoint.value)
      ensures r.Ok? && state.Some? ==>
                && watermark.Some? && watermark.value.generation >= state.value.mark.generation
                && (watermark.value.generation == state.value.mark.generation ==> watermark.value == state.value.mark)
      ensures vault.faults == old(vault.faults) && old(Trusted(vault.s.durable)) ==>
                r.Ok? && watermark == Current(vault.s.durable) == Opening(old(vault.s).durable)
    {
      NewestCovers(vault.commits, vault.run, vault.s);
      var _ :- ReadWatermark();
      var _ :- CompareView();
      watermarkLoaded := true;
      return Ok(());
    }

    /** Downloads and authenticates the reference. */
    method DownloadReference(ifNoneMatch: Option<string>) returns (answer: Answer)
      modifies vault`faults
      ensures vault.faults >= old(vault.faults)
      ensures answer.Reference? ==>
                answer.served in vault.published && answer.served.generation != 0 && !answer.served.commit.IsZero()
      ensures vault.faults == old(vault.faults) && NewestValid() ==>
                var served := vault.published[|vault.published| - 1];
                answer == if ifNoneMatch == Some(served.etag) then Same else Reference(served)
    {
      answer := vault.GetReference(ifNoneMatch);
      if answer.Reference? && (answer.served.generation == 0 || answer.served.commit.IsZero()) {
        return Failed(Untrusted);
      }
    }

    /** Makes `next` durable over the remembered watermark before anything is exposed. */
    method PersistWatermark(next: Watermark) returns (r: Result<()>)
      requires Valid() && watermark == Remembered(vault.s, id)
      requires watermark.Some? ==> Descends(vault.commits, next, watermark.value)
      modifies this, vault
      ensures Valid() && vault.Advances() && state == old(state)
      ensures r.Ok? ==> Remembered(vault.s, id) == Some(next)
      ensures vault.faults == old(vault.faults) && next.generation != 0 && !next.commit.IsZero()
              && Current(old(vault.s).durable) == old(watermark) ==>
                r.Ok? && Current(vault.s.durable) == Some(next)
    {
      var persist := vault.CompareAndSwap(id, watermark, next);
      if persist.Ok? {
        return Ok(());
      }
      var load := vault.LoadWatermark(id);
      if load.Err? {
        watermarkLoaded := false;
        return Err(load.error);
      }
      if load.value.Some? {
        var observed := load.value.value;
        if observed.repository != next.repository || observed.generation == 0 || observed.commit.IsZero() {
          return Err(Untrusted);
        }
        if observed == next {
          watermark := Some(observed);
          return Ok(());
        }
        if observed.generation == next.generation {
          return Err(SplitBrain);
        }
        if observed.generation > next.generation {
          watermark := Some(observed);
          return Err(Precondition);
        }
      }
      watermarkLoaded := false;
      return Err(persist.error);
    }

    /** Reads the candidate's commit and root and walks its ancestry back to the watermark. */
    method ValidateCandidate(mark: Watermark) returns (r: Result<Digest>)
      requires Valid() && mark.repository == repository
      requires watermark.Some? ==>
                 0 < watermark.value.generation <= mark.generation && watermark.value.repository == repository
      modifies vault
      ensures Valid() && vault.Advances() && Remembered(vault.s, id) == Remembered(old(vault.s), id)
      ensures r.Ok? ==>
                && mark.commit in vault.commits && ValidCommit(vault.commits[mark.commit], mark.generation)
                && r.value == vault.commits[mark.commit].root
      ensures r.Ok? && watermark.Some? && mark.generation > watermark.value.generation ==>
                Descends(vault.commits, mark, watermark.value)
      ensures vault.faults == old(vault.faults) && mark.commit in vault.commits
              && ValidCommit(vault.commits[mark.commit], mark.generation)
              && (watermark.Some? && mark.generation > watermark.value.generation ==>
                    && Descends(vault.commits, mark, watermark.value)
                    && mark.generation - watermark.value.generation <= MAX_COMMIT_WALK) ==>
                r.Ok? && vault.s == old(vault.s)
    {
      var readable := vault.ReadCommits(id);
      if mark.commit !in readable {
        return Err(Unavailable);
      }
      var commit := readable[mark.commit];
      if !ValidCommit(commit, mark.generation) {
        return Err(CorruptObject);
      }
      if watermark.Some? && mark.generation > watermark.value.generation {
        var walk := ValidateDescendant(readable, mark, commit, watermark.value);
        AcceptedDescends(readable, vault.commits, mark, watermark.value);
        if walk.Rejected? {
          return Err(walk.error);
        }
      }
      var rootReadable: bool := *;
      if !rootReadable {
        vault.faults := vault.faults + 1;
        return Err(Unavailable);
      }
      return Ok(commit.root);
    }

    /** What a refresh that did not adopt anything leaves behind. */
    twostate predicate KeepsView()
      reads this
    {
      if old(state).None? then state.None?
      else state.Some? && state.value.mark == old(state).value.mark && state.value.root == old(state).value.root
    }

    /** Adopts a validated candidate: durable first, visible second. */
    method Adopt(mark: Watermark, root: Digest, etag: string) returns (r: Result<()>)
      requires Valid() && watermark == Remembered(vault.s, id)
      requires mark.repository == repository && Served(mark.generation, mark.commit, etag) in vault.published
      requires watermark.Some? ==> watermark.value == mark || Descends(vault.commits, mark, watermark.value)
      modifies this, vault
      ensures Valid() && vault.Advances()
      ensures r.Err? ==> state == old(state)
      ensures r.Ok? ==>
                && state == Some(Adopted(mark, root, etag))
                && shown >= old(|vault.s.exposed|) && mark in vault.s.durable
      ensures vault.faults == old(vault.faults) && mark.generation != 0 && !mark.commit.IsZero()
              && Current(old(vault.s).durable) == old(watermark) ==>
                r.Ok? && Current(vault.s.durable) == Some(mark)
    {
      if watermark.None? || mark.generation > watermark.value.generation {
        var _ :- PersistWatermark(mark);
      }
      watermark := Some(mark);
      vault.Activate(id);
      shown := |vault.s.exposed| - 1;
      state := Some(Adopted(mark, root, etag));
      ActivatedIsDurable(vault.commits, vault.run, vault.s, shown);
      return Ok(());
    }

    /** The comparisons of a downloaded reference with the watermark and the snapshot on view. */
    method CompareReference(mark: Watermark, etag: string) returns (verdict: Verdict)
      requires Valid()
      requires mark.repository == repository && (watermark.Some? ==> watermark.value.repository == repository)
      requires Served(mark.generation, mark.commit, etag) in vault.published
      requires state.Some? ==>
                 && watermark.Some? && watermark.value.generation >= state.value.mark.generation
                 && (watermark.value.generation == state.value.mark.generation ==> watermark.value == state.value.mark)
      modifies this`state
      ensures Valid() && KeepsView()
      ensures verdict.Proceed? <==>
              && (watermark.Some? ==> mark.generation > watermark.value.generation || mark == watermark.value)
              && (state.Some? ==> mark.generation > state.value.mark.generation)
      ensures verdict.Stop? && mark.generation == watermark.value.generation && mark != watermark.value ==>
                verdict == Stop(Unchanged, Some(SplitBrain))
      ensures verdict.Stop? && mark.generation < watermark.value.generation ==> verdict.status == StaleIgnored
      ensures verdict.Stop? && mark.generation >= watermark.value.generation
              && (mark.generation == watermark.value.generation ==> mark == watermark.value) ==>
                verdict == Stop(Unchanged, None) && state.Some? && state.value.mark == mark && state.value.etag == etag
      ensures verdict.Stop? ==> watermark.Some? && verdict.status != Updated && verdict.status != NoSnapshot
    {
      if watermark.Some? && (state.None? || watermark.value.generation > state.value.mark.generation) {
        if mark.generation < watermark.value.generation {
          return Stop(StaleIgnored, Some(Rollback));
        }
        if mark.generation == watermark.value.generation && mark.commit != watermark.value.commit {
          return Stop(Unchanged, Some(SplitBrain));
        }
      }
      if state.Some? {
        if mark.generation < state.value.mark.generation {
          return Stop(StaleIgnored, None);
        }
        if mark.generation == state.value.mark.generation && mark.commit != state.value.mark.commit {
          return Stop(Unchanged, Some(SplitBrain));
        }
        if mark.generation == state.value.mark.generation {
          state := Some(state.value.(etag := etag));
          return Stop(Unchanged, None);
        }
      }
      return Proceed;
    }

    /** A vanished reference is no reason to drop a view, and a rollback below the watermark. */
    method WhenMissing() returns (status: Status, error: Option<Error>)
      requires state.Some? ==> watermark.Some?
      ensures status != Updated
      ensures status == NoSnapshot <==> state.None? && watermark.None?
      ensures error == (if watermark.None? || (state.Some? && watermark.value.generation <= state.value.mark.generation)
                        then None else Some(Rollback))
    {
      if state.None? {
        if watermark.Some? {
          return Unchanged, Some(Rollback);
        }
        return NoSnapshot, None;
      }
      if watermark.value.generation > state.value.mark.generation {
        return StaleIgnored, Some(Rollback);
      }
      return Unchanged, None;
    }

    /** Validates and adopts a reference that the comparisons let through. */
    method AdoptCandidate(mark: Watermark, etag: string) returns (r: Result<()>)
      requires Valid() && mark.repository == repository && watermark == Remembered(vault.s, id)
      requires Served(mark.generation, mark.commit, etag) in vault.published
      requires watermark.Some? ==>
                 && watermark.value.repository == repository && watermark.value.generation != 0
                 && (mark.generation > watermark.value.generation || mark == watermark.value)
      requires state.Some? ==> mark.generation > state.value.mark.generation
      requires checkpoint.Some? ==>
                 watermark.Some? && SameOrDescends(vault.commits, watermark.value, checkpoint.value)
      modifies this, vault
      ensures Valid() && vault.Advances()
      ensures r.Err? ==> state == old(state)
      ensures r.Ok? ==>
                && state.Some? && state.value.mark == mark && mark in vault.s.durable
                && mark.commit in vault.commits && ValidCommit(vault.commits[mark.commit], mark.generation)
                && state.value.root == vault.commits[mark.commit].root
      ensures r.Ok? && old(state).Some? ==> Descends(vault.commits, mark, old(state).value.mark)
      ensures r.Ok? && checkpoint.Some? ==> SameOrDescends(vault.commits, mark, checkpoint.value)
      ensures vault.faults == old(vault.faults) && mark.generation != 0 && !mark.commit.IsZero()
              && Current(old(vault.s).durable) == old(watermark)
              && mark.commit in vault.commits && ValidCommit(vault.commits[mark.commit], mark.generation)
              && (old(watermark).Some? && mark.generation > old(watermark).value.generation ==>
                    && Descends(vault.commits, mark, old(watermark).value)
                    && mark.generation - old(watermark).value.generation <= MAX_COMMIT_WALK) ==>
                r.Ok? && Current(vault.s.durable) == Some(mark)
    {
      ghost var before := watermark;
      var root :- ValidateCandidate(mark);
      var _ :- Adopt(mark, root, etag);
      if old(state).Some? {
        LaterActivation(vault.commits, vault.run, vault.s, old(shown), shown);
      }
      if checkpoint.Some? {
        SameOrDescendsTransitive(vault.commits, mark, before.value, checkpoint.value);
      }
      return Ok(());
    }

    /** What a refresh makes of the store's answer. */
    method Respond(answer: Answer) returns (status: Status, error: Option<Error>)
      requires Valid() && watermark == Remembered(vault.s, id)
      requires watermark.Some? ==> watermark.value.repository == repository && watermark.value.generation != 0
      requires checkpoint.Some? ==>
                 watermark.Some? && SameOrDescends(vault.commits, watermark.value, checkpoint.value)
      requires state.Some? ==>
                 && watermark.Some? && watermark.value.generation >= state.value.mark.generation
                 && (watermark.value.generation == state.value.mark.generation ==> watermark.value == state.value.mark)
      requires answer.Reference? ==>
                 answer.served in vault.published && answer.served.generation != 0 && !answer.served.commit.IsZero()
      modifies this, vault
      ensures Valid() && vault.Advances()
      ensures status != Updated ==> KeepsView()
      ensures status == Updated ==> AdoptedHolds()
      ensures status == NoSnapshot ==> error.None? && state.None? && watermark.None?
      ensures answer.Same? ==> status == Unchanged && error.None? && state == old(state) && vault.s == old(vault.s)
      ensures vault.faults == old(vault.faults) && Current(old(vault.s).durable) == old(watermark)
              && Adoptable(old(watermark))
              && answer == Reference(vault.published[|vault.published| - 1]) ==>
                && error.None? && state.Some? && state.value.mark == MarkOf(answer.served)
                && Current(vault.s.durable) == Some(state.value.mark)
    {
      match answer
      case Same => return Unchanged, None;
      case Missing =>
        status, error := WhenMissing();
      case Failed(failure) => return Unchanged, Some(failure);
      case Reference(served) =>
        var verdict := CompareReference(MarkOf(served), served.etag);
        if verdict.Stop? {
          return verdict.status, verdict.error;
        }
        var adopt := AdoptCandidate(MarkOf(served), served.etag);
        if adopt.Err? {
          return Unchanged, Some(adopt.error);
        }
        return Updated, None;
    }

    /** A newly adopted view is durable, valid, and extends the old one and every checkpoint. */
    twostate predicate AdoptedHolds()
      reads this, vault
    {
      && state.Some? && state.value.mark in vault.s.durable
      && state.value.mark.commit in vault.commits
      && ValidCommit(vault.commits[state.value.mark.commit], state.value.mark.generation)
      && state.value.root == vault.commits[state.value.mark.commit].root
      && (old(state).Some? ==> Descends(vault.commits, state.value.mark, old(state).value.mark))
      && (checkpoint.Some? ==> SameOrDescends(vault.commits, state.value.mark, checkpoint.value))
    }

    /**
     Reads the channel reference and adopts a newer snapshot. Whatever the store answers and
     whatever other processes do meanwhile, the view either stays as it is or moves to a
     snapshot that is already durable and extends the one on view and every trusted
     checkpoint. Undisturbed, it ends with the newest reference on view if it can be adopted.
     */
    method Refresh() returns (status: Status, error: Option<Error>)
      requires Valid()
      modifies this, vault
      ensures Valid() && vault.Advances()
      ensures status != Updated ==> KeepsView()
      ensures status == Updated ==> AdoptedHolds()
      ensures status == NoSnapshot ==> error.None? && state.None? && watermark.None?
      ensures vault.faults == old(vault.faults) && old(Trusted(vault.s.durable))
              && Adoptable(Opening(old(vault.s).durable)) ==>
                && error.None? && state.Some? && state.value.mark == MarkOf(vault.published[|vault.published| - 1])
                && Current(vault.s.durable) == Some(state.value.mark)
    {
      watermarkLoaded := false;
      var load := LoadWatermark();
      if load.Err? {
        return Unchanged, Some(load.error);
      }
      var ifNoneMatch := if state.Some? && watermark == Some(state.value.mark) then Some(state.value.etag) else None;
      var answer := DownloadReference(ifNoneMatch);
      if answer.Same? && state.Some? && ifNoneMatch.Some? && NewestValid() {
        SameEtag(state.value, vault.published[|vault.published| - 1]);
      }
      status, error := Respond(answer);
    }

    /** A view with the ETag of a published reference is a view of that reference. */
    lemma SameEtag(view: Adopted, served: Served)
      requires EtagsIdentify(vault.published) && AsServed(view) in vault.published && served in vault.published
      requires view.mark.repository == repository
      ensures view.etag == served.etag ==> view.mark == MarkOf(served)
    {
    }
  }
}
