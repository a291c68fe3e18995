/**
 The publisher's code for unsigned references, in the presence of every other publisher.
 */
module UnsignedPublisher {
  import opened Basics
  import opened Ancestry
  import opened ReferenceChain
  import opened UnsignedPublication

  lemma StagedStable(before: World, after: World, base: Option<Entry>, next: Envelope)
    requires Extends(before, after) && Staged(before, base, next)
    ensures Staged(after, base, next)
  {
    if base.Some? {
      var i :| 0 <= i < |before.history| && before.history[i] == base.value;
      assert after.history[i] == base.value;
    }
  }

  /** Visible references have a positive generation and a stored, valid commit. */
  lemma VisibleIsValid(run: seq<Action>, w: World, entry: Entry)
    requires Reaches(run, w) && entry in w.history
    ensures entry.data.generation >= 1 && entry.data.commit in w.commits && !entry.data.commit.IsZero()
    ensures ValidCommit(w.commits[entry.data.commit], entry.data.generation)
    ensures Published(w.history, MarkOf(entry.data))
  {
    RunInvariant(run, w);
    InvIsChain(w);
    var i :| 0 <= i < |w.history| && w.history[i] == entry;
    ChainPositive(w.commits, w.history, i);
  }

  /** The channel reference and the commits, shared by all publishers. */
  class Channel {
    var w: World
    ghost var run: seq<Action>
    /** Counts failures, lost responses, stale reads and steps of other publishers. */
    ghost var faults: nat

    ghost predicate Valid()
      reads this
    {
      Reaches(run, w)
    }

    twostate predicate Advances()
      reads this
    {
      Valid() && Extends(old(w), w) && faults >= old(faults)
    }

    constructor ()
      ensures Valid() && w == EMPTY
    {
      w, run, faults := EMPTY, [], 0;
    }

    method Perform(action: Action)
      requires Valid() && Enabled(w, action)
      modifies this
      ensures Advances() && w == Apply(old(w), action) && faults == old(faults)
    {
      StepExtends(w, action);
      w := Apply(w, action);
      run := run + [action];
      assert run[..|run| - 1] == old(run);
      assert ReachesByStep(run, w);
    }

    method Interfere()
      requires Valid()
      modifies this
      ensures Advances() && (faults == old(faults) ==> w == old(w))
    {
      var schedule: seq<Action> := *;
      for i := 0 to |schedule|
        invariant Advances() && (faults == old(faults) ==> w == old(w))
      {
        if Enabled(w, schedule[i]) {
          Perform(schedule[i]);
          faults := faults + 1;
        }
      }
    }

    /** The reference, possibly as it was some time ago. */
    method Get() returns (r: Result<Option<Entry>>)
      requires Valid()
      modifies this
      ensures Advances()
      ensures r.Ok? && r.value.Some? ==> r.value.value in w.history
      ensures faults == old(faults) ==>
                w == old(w) && r == Ok(if w.history == [] then None else Some(w.history[|w.history| - 1]))
    {
      Interfere();
      var failed: bool, age: nat := *, *;
      if failed || age != 0 {
        faults := faults + 1;
      }
      if failed {
        return Err(Unavailable);
      }
      if age >= |w.history| {
        return Ok(None);
      }
      return Ok(Some(w.history[|w.history| - 1 - age]));
    }

    /** The commits whose reads succeed during the next walk. */
    method ReadCommits() returns (readable: Commits)
      requires Valid()
      modifies this
      ensures Advances() && Submap(readable, w.commits)
      ensures faults == old(faults) ==> w == old(w) && readable == w.commits
    {
      Interfere();
      var unavailable: set<Digest> := *;
      if unavailable != {} {
        faults := faults + 1;
      }
      readable := w.commits - unavailable;
    }

    method PutManifest(commit: Commit) returns (r: Result<Digest>)
      requires Valid()
      modifies this
      ensures Advances()
      ensures r.Ok? ==> !r.value.IsZero() && r.value in w.commits && w.commits[r.value] == commit
      ensures faults == old(faults) ==> r.Ok? && w.history == old(w).history
    {
      Interfere();
      var digest: Digest, failed: bool := *, *;
      if failed || !Enabled(w, PutCommit(digest, commit)) {
        faults := faults + 1;
        return Err(Unavailable);
      }
      Perform(PutCommit(digest, commit));
      return Ok(digest);
    }

    method CompareAndSwap(base: Option<Entry>, next: Envelope) returns (r: Result<()>)
      requires Valid() && Staged(w, base, next)
      modifies this
      ensures Advances()
      ensures r.Ok? ==> Published(w.history, MarkOf(next))
      ensures faults == old(faults) && Applies(old(w).history, base) ==>
                r.Ok? && |w.history| == |old(w).history| + 1 && w.history[|old(w).history|].data == next
      ensures faults == old(faults) && !Applies(old(w).history, base) ==> r == Err(Error.Precondition) && w == old(w)
    {
      Interfere();
      StagedStable(old(w), w, base, next);
      var failed: bool, lost: bool, etag: string := *, *, *;
      if failed {
        faults := faults + 1;
        return Err(Unavailable);
      }
      if !Applies(w.history, base) {
        return Err(Error.Precondition);
      }
      if !EtagFits(w.history, Entry(etag, next)) {
        faults := faults + 1;
        return Err(Unavailable);
      }
      Perform(Write(base, next, etag));
      assert w.history[|w.history| - 1] == Entry(etag, next);
      if lost {
        faults := faults + 1;
        return Err(Unavailable);
      }
      return Ok(());
    }
  }

  datatype StagedSnapshot = StagedSnapshot(base: Option<Entry>, next: Envelope, same: bool)

  ghost predicate StagedHolds(w: World, staged: StagedSnapshot) {
    if staged.same then staged.base.Some? && staged.base.value in w.history && staged.base.value.data == staged.next
    else Staged(w, staged.base, staged.next) && staged.next.generation >= 1
  }

  /** The staged commit is one of this tree. */
  ghost predicate Carries(w: World, staged: StagedSnapshot, root: Digest) {
    staged.next.commit in w.commits && w.commits[staged.next.commit].root == root
  }

  /** The newest reference is at the staged generation or within the walk bound above it. */
  ghost predicate Decidable(history: seq<Entry>, staged: StagedSnapshot) {
    && history != []
    && var tip := history[|history| - 1].data.generation;
    staged.next.generation <= tip && tip - staged.next.generation <= MAX_COMMIT_WALK
  }

  datatype CommitOutcome = Unknown | Applied | Rejected

  /** A verdict is final: what it says of the history stays true. */
  ghost predicate OutcomeHolds(history: seq<Entry>, mark: Watermark, outcome: CommitOutcome) {
    match outcome
    case Unknown => true
    case Applied => Published(history, mark)
    case Rejected => LostTo(history, mark) && !Published(history, mark)
  }

  class Publisher {
    const channel: Channel

    constructor (channel: Channel)
      ensures this.channel == channel
    {
      this.channel := channel;
    }

    /** Stages a tree as a direct child of the reference it observed. */
    method Stage(root: Digest) returns (r: Result<StagedSnapshot>)
      requires channel.Valid() && !root.IsZero()
      modifies channel
      ensures channel.Advances()
      ensures r.Ok? ==> StagedHolds(channel.w, r.value) && Carries(channel.w, r.value, root)
      ensures channel.faults == old(channel.faults)
              && (old(channel.w).history != [] ==>
                    old(channel.w).history[|old(channel.w).history| - 1].data.generation != MAX_UINT64) ==>
                && r.Ok? && channel.w.history == old(channel.w).history
                && r.value.base == (if channel.w.history == [] then None
                                    else Some(channel.w.history[|channel.w.history| - 1]))
    {
      var observed :- channel.Get();
      if observed.None? {
        var digest :- channel.PutManifest(Commit(OBJECT_FORMAT, 1, None, root));
        return Ok(StagedSnapshot(None, Envelope(1, digest, 0), false));
      }
      r := StageOn(observed.value, root);
    }

    method StageOn(base: Entry, root: Digest) returns (r: Result<StagedSnapshot>)
      requires channel.Valid() && base in channel.w.history && !root.IsZero()
      modifies channel
      ensures channel.Advances()
      ensures r.Ok? ==> StagedHolds(channel.w, r.value) && r.value.base == Some(base)
                        && Carries(channel.w, r.value, root)
      ensures channel.faults == old(channel.faults) && base.data.generation != MAX_UINT64 ==>
                r.Ok? && channel.w.history == old(channel.w).history
    {
      VisibleIsValid(channel.run, channel.w, base);
      var readable := channel.ReadCommits();
      var current := base.data;
      if current.commit !in readable {
        return Err(Unavailable);
      }
      if !ValidCommit(readable[current.commit], current.generation) {
        return Err(CorruptObject);
      }
      if current.generation == MAX_UINT64 {
        return Err(Exhausted);
      }
      if readable[current.commit].root == root {
        return Ok(StagedSnapshot(Some(base), current, true));
      }
      var digest :- channel.PutManifest(Commit(OBJECT_FORMAT, current.generation + 1, Some(current.commit), root));
      return Ok(StagedSnapshot(Some(base), Envelope(current.generation + 1, digest, 0), false));
    }

    /** Decides from the published chain whether the staged commit is in it. */
    method Reconcile(staged: StagedSnapshot) returns (outcome: CommitOutcome)
      requires channel.Valid() && staged.next.generation >= 1
      modifies channel
      ensures channel.Advances()
      ensures OutcomeHolds(channel.w.history, MarkOf(staged.next), outcome)
      ensures channel.faults == old(channel.faults) && Decidable(old(channel.w).history, staged) ==>
                outcome != Unknown && channel.w == old(channel.w)
    {
      var observed := channel.Get();
      if observed.Err? || observed.value.None? {
        return Unknown;
      }
      var tip := observed.value.value;
      if tip.data.generation < staged.next.generation
         || tip.data.generation - staged.next.generation > MAX_COMMIT_WALK {
        return Unknown;
      }
      var readable := channel.ReadCommits();
      assert tip in channel.w.history;
      VisibleIsValid(channel.run, channel.w, tip);
      var reached := WalkTo(readable, tip.data, staged.next.generation);
      PublishedReachesDown(channel.run, channel.w, tip, staged.next.generation);
      if reached.None? {
        return Unknown;
      }
      WalkIsVerdict(channel.run, channel.w, readable, tip, MarkOf(staged.next));
      return if reached.value == staged.next.commit then Applied else CommitOutcome.Rejected;
    }

    /** Installs a staged snapshot; a conflict is final and a success is in the history. */
    method CommitStaged(staged: StagedSnapshot) returns (r: Result<Watermark>)
      requires channel.Valid() && StagedHolds(channel.w, staged)
      modifies channel
      ensures channel.Advances()
      ensures r.Ok? ==> r.value == MarkOf(staged.next) && Published(channel.w.history, MarkOf(staged.next))
      ensures r == Err(Conflict) && !staged.same ==>
                LostTo(channel.w.history, MarkOf(staged.next)) && !Published(channel.w.history, MarkOf(staged.next))
      ensures channel.faults == old(channel.faults) && !staged.same && Applies(old(channel.w).history, staged.base) ==>
                && r.Ok? && |channel.w.history| == |old(channel.w).history| + 1
                && channel.w.history[|old(channel.w).history|].data == staged.next
      ensures channel.faults == old(channel.faults) && !staged.same && !Applies(old(channel.w).history, staged.base)
              && Decidable(old(channel.w).history, staged) ==>
                r == if Published(old(channel.w).history, MarkOf(staged.next)) then Ok(MarkOf(staged.next))
                else Err(Conflict)
    {
      if staged.same {
        r := CommitUnchanged(staged);
        return;
      }
      var written := channel.CompareAndSwap(staged.base, staged.next);
      if written.Ok? {
        return Ok(MarkOf(staged.next));
      }
      var outcome := Reconcile(staged);
      match outcome
      case Applied => return Ok(MarkOf(staged.next));
      case Rejected => return Err(Conflict);
      case Unknown => return Err(Indeterminate);
    }

    /** Nothing to write: confirm that the reference still is the one staged on. */
    method CommitUnchanged(staged: StagedSnapshot) returns (r: Result<Watermark>)
      requires channel.Valid() && StagedHolds(channel.w, staged) && staged.same
      modifies channel
      ensures channel.Advances()
      ensures r.Ok? ==> r.value == MarkOf(staged.next) && Published(channel.w.history, MarkOf(staged.next))
      ensures channel.faults == old(channel.faults) && Applies(old(channel.w).history, staged.base) ==> r.Ok?
    {
      VisibleIsValid(channel.run, channel.w, staged.base.value);
      var before := channel.w.history;
      var observed := channel.Get();
      VerdictsStable(before, channel.w.history, MarkOf(staged.next));
      if observed.Err? {
        return Err(observed.error);
      }
      if observed.value.None? {
        return Err(Conflict);
      }
      var current := observed.value.value;
      if current.etag == staged.base.value.etag || MarkOf(current.data) == MarkOf(staged.next) {
        return Ok(MarkOf(staged.next));
      }
      return Err(Conflict);
    }
  }

  /** From a published commit, parents lead down to every generation. */
  lemma PublishedReachesDown(run: seq<Action>, w: World, tip: Entry, generation: nat)
    requires Reaches(run, w) && tip in w.history && 1 <= generation <= tip.data.generation
    ensures Ancestor(w.commits, tip.data.commit, tip.data.generation, tip.data.generation - generation).Some?
  {
    RunInvariant(run, w);
    InvIsChain(w);
    var i :| 0 <= i < |w.history| && w.history[i] == tip;
    var h := ChainAncestor(w.commits, w.history, i, tip.data.generation - generation);
  }

  /** Follows parents from a reference to a lower generation; the parent is always there. */
  method WalkTo(readable: Commits, reference: Envelope, generation: nat) returns (reached: Option<Digest>)
    requires 1 <= generation <= reference.generation
    ensures reached == Ancestor(readable, reference.commit, reference.generation, reference.generation - generation)
  {
    var digest, at := reference.commit, reference.generation;
    while at > generation
      invariant generation <= at <= reference.generation
      invariant Ancestor(readable, digest, at, at - generation)
             == Ancestor(readable, reference.commit, reference.generation, reference.generation - generation)
    {
      if digest !in readable || !ValidCommit(readable[digest], at) {
        return None;
      }
      digest, at := readable[digest].parent.value, at - 1;
    }
    return Some(digest);
  }

  /** What a completed walk reached decides the verdict, now and for ever. */
  lemma WalkIsVerdict(run: seq<Action>, w: World, readable: Commits, tip: Entry, mark: Watermark)
    requires Reaches(run, w) && Submap(readable, w.commits) && tip in w.history
    requires mark.repository == REPOSITORY && 0 < mark.generation <= tip.data.generation
    requires Ancestor(readable, tip.data.commit, tip.data.generation, tip.data.generation - mark.generation).Some?
    ensures var reached := Ancestor(readable, tip.data.commit, tip.data.generation,
                                    tip.data.generation - mark.generation).value;
            OutcomeHolds(w.history, mark, if reached == mark.commit then Applied else CommitOutcome.Rejected)
  {
    RunInvariant(run, w);
    InvIsChain(w);
    VisibleIsValid(run, w, tip);
    AncestorStable(readable, w.commits, tip.data.commit, tip.data.generation, tip.data.generation - mark.generation);
    WalkDecides(w.commits, w.history, MarkOf(tip.data), mark);
    VerdictsExclude(w.commits, w.history, mark);
  }
}
