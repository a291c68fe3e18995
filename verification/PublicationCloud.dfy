/**
 The object store and the publication journals as seen from one publisher. Every call first
 lets all other publishers take any number of steps, may fail, and may lose its response
 after taking effect.
 */
module PublicationCloud {
  import opened Basics
  import opened Ancestry
  import opened ReferenceChain
  import opened PublicationProtocol

  datatype Object = Object(version: Version, data: Envelope)

  /** The journal state `state` was durable at revision `revision`. */
  ghost predicate SavedAs(w: World, journal: nat, state: JournalState, revision: nat) {
    0 < revision <= |Log(w, journal)| && Log(w, journal)[revision - 1] == state
  }

  /** A save at `revision` is permitted whenever that revision is still the current one. */
  ghost predicate Justified(w: World, journal: nat, revision: nat, next: JournalState) {
    revision <= |Log(w, journal)| && Saveable(w.history, Log(w, journal)[..revision], next)
  }

  lemma JustifiedStable(before: World, after: World, journal: nat, revision: nat, next: JournalState)
    requires Extends(before, after) && Justified(before, journal, revision, next)
    ensures Justified(after, journal, revision, next)
  {
    assert LogExtends(Log(before, journal), Log(after, journal));
    assert Log(before, journal)[..revision] == Log(after, journal)[..revision];
    if next.committed.Some? {
      VerdictsStable(before.history, after.history, next.committed.value);
    }
    if next.pending.Some? {
      WitnessedStable(before.history, after.history, next.pending.value);
    } else if revision > 0 && Log(before, journal)[revision - 1].pending.Some? {
      ClearableStable(before.history, after.history, Log(before, journal)[revision - 1].pending.value, next.committed);
    }
  }

  /** What a reference write relies on, whenever it reaches the store. */
  ghost predicate Writable(w: World, journal: nat, intent: Intent, expected: Option<string>) {
    && Journaled(Log(w, journal), intent)
    && Authentic(w.commits, intent)
    && Expectation(w.history, intent.base, expected)
  }

  lemma WritableStable(before: World, after: World, journal: nat, intent: Intent, expected: Option<string>)
    requires Extends(before, after) && Writable(before, journal, intent, expected)
    ensures Writable(after, journal, intent, expected)
  {
    assert LogExtends(Log(before, journal), Log(after, journal));
    var i :| 0 <= i < |Log(before, journal)| && Log(before, journal)[i].pending.Some?
             && SameIntent(Log(before, journal)[i].pending.value, intent);
    assert Log(after, journal)[i] == Log(before, journal)[i];
    if intent.base.Some? {
      var k :| 0 <= k < |before.history| && before.history[k].etag == expected.value
               && MarkOf(before.history[k].data) == intent.base.value;
      assert after.history[k] == before.history[k];
    }
  }

  /** Visible references are well formed: they were checked before they were journaled. */
  lemma VisibleIsValid(w: World, i: nat)
    requires Inv(w) && i < |w.history|
    ensures ValidWatermark(MarkOf(w.history[i].data))
  {
    assert Recorded(w, w.history[i].data);
    var journal: nat :| RecordedIn(Log(w, journal), w.history[i].data);
    var log := Log(w, journal);
    var k :| 0 <= k < |log| && log[k].pending.Some? && log[k].pending.value.reference == w.history[i].data;
    assert JournalSound(w.history, log);
    assert ValidState(log[k]);
  }

  /** The object store and all journals, shared by every publisher. */
  class Cloud {
    var w: World
    ghost var run: seq<Action>
    /** Counts failures, lost responses and steps of other publishers. */
    ghost var faults: nat

    ghost predicate Valid()
      reads this
    {
      Reaches(run, w)
    }

    /** What every call keeps; a call without faults has no effect but its own. */
    twostate predicate Advances()
      reads this
    {
      Valid() && Extends(old(w), w) && old(run) <= run && faults >= old(faults)
    }

    constructor ()
      ensures Valid() && w == GENESIS && run == []
    {
      w := GENESIS;
      run := [];
      faults := 0;
    }

    method Perform(action: Action)
      requires Valid() && Enabled(w, action)
      modifies this
      ensures Advances() && w == Apply(old(w), action) && run == old(run) + [action] && faults == old(faults)
    {
      StepExtends(w, action);
      w := Apply(w, action);
      run := run + [action];
      assert run[..|run| - 1] == old(run);
      assert ReachesByStep(run, w);
    }

    /** Any steps of any other publisher. */
    method Interfere()
      requires Valid()
      modifies this
      ensures Advances() && (faults == old(faults) ==> w == old(w))
    {
      var schedule: seq<Action> := *;
      for i := 0 to |schedule|
        invariant Advances() && (faults == old(faults) ==> w == old(w))
      {
        if Enabled(w, schedule[i]) {
          Perform(schedule[i]);
          faults := faults + 1;
        }
      }
    }

    method Get() returns (r: Result<Object>)
      requires Valid()
      modifies this
      ensures Advances()
      ensures r.Ok? ==>
                && ValidVersion(r.value.version) && w.history != []
                && w.history[|w.history| - 1] == Entry(r.value.version.etag, r.value.data)
      ensures r == Err(NotFound) ==> w.history == []
      ensures faults == old(faults) ==> w == old(w) && (if w.history == [] then r == Err(NotFound) else r.Ok?)
    {
      Interfere();
      var failed: bool, versionId: string := *, *;
      if failed {
        faults := faults + 1;
        return Err(Unavailable);
      }
      if w.history == [] {
        return Err(NotFound);
      }
      var current := w.history[|w.history| - 1];
      var version := Version(current.etag, versionId);
      if !ValidVersion(version) {
        faults := faults + 1;
        return Err(Incompatible);
      }
      return Ok(Object(version, current.data));
    }

    /** The commits whose reads succeed during the next walk. */
    method ReadCommits() returns (readable: Commits)
      requires Valid()
      modifies this
      ensures Advances() && Submap(readable, w.commits)
      ensures faults == old(faults) ==> w == old(w) && readable == w.commits
    {
      Interfere();
      var unavailable: set<Digest> := *;
      if unavailable != {} {
        faults := faults + 1;
      }
      readable := w.commits - unavailable;
    }

    method PutManifest(commit: Commit) returns (r: Result<Digest>)
      requires Valid()
      modifies this
      ensures Advances()
      ensures r.Ok? ==> !r.value.IsZero() && r.value in w.commits && w.commits[r.value] == commit
      ensures faults == old(faults) ==> r.Ok? && w.history == old(w).history && w.logs == old(w).logs
    {
      Interfere();
      var digest: Digest, failed: bool := *, *;
      if failed || !Enabled(w, PutCommit(digest, commit)) {
        faults := faults + 1;
        return Err(Unavailable);
      }
      Perform(PutCommit(digest, commit));
      return Ok(digest);
    }

    /** Journal load; revision zero stands for an absent journal. */
    method LoadJournal(journal: nat) returns (r: Result<(JournalState, nat)>)
      requires Valid()
      modifies this
      ensures Advances()
      ensures r.Ok? ==> r.value.1 == |Log(w, journal)|
      ensures r.Ok? && r.value.1 != 0 ==> SavedAs(w, journal, r.value.0, r.value.1)
      ensures faults == old(faults) ==> r.Ok? && w == old(w)
    {
      Interfere();
      var failed: bool := *;
      if failed {
        faults := faults + 1;
        return Err(Unavailable);
      }
      var log := Log(w, journal);
      return Ok((if log == [] then JournalState(None, None) else log[|log| - 1], |log|));
    }

    method CompareAndSwapJournal(journal: nat, revision: nat, next: JournalState) returns (r: Result<nat>)
      requires Valid() && Justified(w, journal, revision, next)
      modifies this
      ensures Advances()
      ensures r.Ok? ==> r.value == revision + 1 && SavedAs(w, journal, next, r.value)
      ensures faults == old(faults) && revision == |Log(old(w), journal)| ==>
                && r.Ok? && w.history == old(w).history && w.commits == old(w).commits
                && Log(w, journal) == Log(old(w), journal) + [next]
    {
      Interfere();
      JustifiedStable(old(w), w, journal, revision, next);
      var failed: bool, lost: bool, zeroRevision: bool := *, *, *;
      if failed {
        faults := faults + 1;
        return Err(Unavailable);
      }
      if |Log(w, journal)| != revision {
        return Err(Precondition);
      }
      assert Log(w, journal)[..revision] == Log(w, journal);
      Perform(SaveJournal(journal, next));
      if lost {
        faults := faults + 1;
        return Err(Unavailable);
      }
      if zeroRevision {
        faults := faults + 1;
        return Err(Incompatible);
      }
      return Ok(revision + 1);
    }

    /** Conditional reference write: create when `expected` is None, else replace that ETag. */
    method CompareAndSwapReference(journal: nat, intent: Intent, expected: Option<string>) returns (r: Result<()>)
      requires Valid() && Writable(w, journal, intent, expected)
      modifies this
      ensures Advances()
      ensures r.Ok? ==> w.history != [] && w.history[|w.history| - 1].data == intent.reference
      ensures faults == old(faults) && Applies(old(w).history, expected) ==>
                && r.Ok? && |w.history| == |old(w).history| + 1
                && w.commits == old(w).commits && w.logs == old(w).logs
    {
      Interfere();
      WritableStable(old(w), w, journal, intent, expected);
      var failed: bool, lost: bool, etag: string := *, *, *;
      if failed {
        faults := faults + 1;
        return Err(Unavailable);
      }
      if !Applies(w.history, expected) {
        return Err(Precondition);
      }
      if !EtagFits(w.history, Entry(etag, intent.reference)) {
        faults := faults + 1;
        return Err(Unavailable);
      }
      var action := WriteReference(journal, intent, expected, etag);
      assert Enabled(w, action);
      Perform(action);
      if lost {
        faults := faults + 1;
        return Err(Unavailable);
      }
      return Ok(());
    }
  }
}
