/**
 The share's root object and its sealed recovery journal as seen from one process. Every
 call first lets all other processes take any number of steps; reads may be stale, calls may
 fail, and a call that took effect may lose its response.
 */
module RootStore {
  import opened Basics
  import opened RootProtocol

  /** What a loaded record rests on: revision zero stands for an absent journal. */
  datatype Loaded = Loaded(record: Record, revision: nat)

  ghost predicate LoadedHolds(w: Share, loaded: Loaded) {
    if loaded.revision == 0 then loaded.record == Prepared(loaded.record.profile)
    else loaded.revision <= |w.log| && loaded.record == w.log[loaded.revision - 1]
  }

  lemma LoadedStable(before: Share, after: Share, loaded: Loaded)
    requires Extends(before, after) && LoadedHolds(before, loaded)
    ensures LoadedHolds(after, loaded)
  {
  }

  lemma SaveableStable(before: Share, after: Share, revision: nat, next: Record)
    requires Extends(before, after) && revision <= |before.log|
             && Saveable(before.history, before.log[..revision], next)
    ensures Saveable(after.history, after.log[..revision], next)
  {
    assert before.log[..revision] == after.log[..revision];
    GenuineStable(before.history, after.history, next);
  }

  lemma SourcedStable(before: Share, after: Share, source: Source, raw: Raw)
    requires Extends(before, after) && Sourced(before, source, raw)
    ensures Sourced(after, source, raw) && ExpectedBy(after, source, raw) == ExpectedBy(before, source, raw)
  {
  }

  /** Everything loaded passed the validator when it was saved, and was true of the root. */
  lemma LoadedIsGenuine(run: seq<Action>, w: Share, loaded: Loaded)
    requires Reaches(run, w) && LoadedHolds(w, loaded)
    ensures ValidRecord(loaded.record) && Genuine(w.history, loaded.record)
  {
    RunInvariant(run, w);
    if loaded.revision != 0 {
      assert loaded.record == w.log[loaded.revision - 1];
    }
  }

  lemma VisibleIsValid(run: seq<Action>, w: Share, entry: Entry)
    requires Reaches(run, w) && entry in w.history
    ensures ValidBundle(entry.raw.bundle) && ValidVersion(entry.version)
    ensures Holds(w.history, entry.version, entry.raw.bundle)
  {
    RunInvariant(run, w);
  }

  class ShareStore {
    var w: Share
    ghost var run: seq<Action>
    /** Counts failures, lost responses, stale reads and steps of other processes. */
    ghost var faults: nat

    ghost predicate Valid()
      reads this
    {
      Reaches(run, w)
    }

    twostate predicate Advances()
      reads this
    {
      Valid() && Extends(old(w), w) && faults >= old(faults)
    }

    constructor ()
      ensures Valid() && w == EMPTY && faults == 0
    {
      w := EMPTY;
      run := [];
      faults := 0;
    }

    method Perform(action: Action)
      requires Valid() && Enabled(w, action)
      modifies this
      ensures Advances() && w == Apply(old(w), action) && faults == old(faults)
    {
      StepExtends(w, action);
      w := Apply(w, action);
      run := run + [action];
      assert run[..|run| - 1] == old(run);
      assert ReachesByStep(run, w);
    }

    method Interfere()
      requires Valid()
      modifies this
      ensures Advances()
      ensures faults == old(faults) ==> w == old(w)
    {
      var schedule: seq<Action> := *;
      for i := 0 to |schedule|
        invariant Advances()
        invariant faults == old(faults) ==> w == old(w)
      {
        if Enabled(w, schedule[i]) {
          Perform(schedule[i]);
          faults := faults + 1;
        }
      }
    }

    /** Journal load; the profile is used only when there is no journal yet. */
    method LoadJournal(profile: Option<nat>) returns (r: Result<Loaded>)
      requires Valid()
      modifies this
      ensures Advances()
      ensures r.Ok? ==> r.value == Loaded(Last(w.log, profile), |w.log|) && LoadedHolds(w, r.value)
      ensures faults == old(faults) ==> r.Ok? && w == old(w)
    {
      Interfere();
      var failed: bool := *;
      if failed {
        faults := faults + 1;
        return Err(Unavailable);
      }
      return Ok(Loaded(Last(w.log, profile), |w.log|));
    }

    /** A failed call may still name the revision it was about to create. */
    method CompareAndSwapJournal(revision: nat, next: Record) returns (candidate: Option<nat>, error: Option<Error>)
      requires Valid() && revision <= |w.log| && Saveable(w.history, w.log[..revision], next)
      modifies this
      ensures Advances()
      ensures candidate.Some? ==> candidate.value == revision + 1
      ensures error.None? ==> candidate.Some? && LoadedHolds(w, Loaded(next, revision + 1))
      ensures faults == old(faults) && revision == |old(w).log| ==> error.None? && w == Apply(old(w), Save(next))
    {
      Interfere();
      SaveableStable(old(w), w, revision, next);
      var failed: bool, lost: bool, known: bool := *, *, *;
      candidate := if known then Some(revision + 1) else None;
      if failed {
        faults := faults + 1;
        return candidate, Some(Unavailable);
      }
      if |w.log| != revision {
        return None, Some(Error.Precondition);
      }
      assert w.log[..revision] == w.log;
      Perform(Save(next));
      if lost {
        faults := faults + 1;
        return candidate, Some(Unavailable);
      }
      return Some(revision + 1), None;
    }

    /** The root, possibly as it was some time ago. */
    method GetRoot() returns (r: Result<Option<Entry>>)
      requires Valid()
      modifies this
      ensures Advances()
      ensures r.Ok? && r.value.Some? ==>
                && r.value.value in w.history && ValidBundle(r.value.value.raw.bundle)
                && ValidVersion(r.value.value.version)
                && Holds(w.history, r.value.value.version, r.value.value.raw.bundle)
      ensures faults == old(faults) ==>
                && w == old(w)
                && r == Ok(if w.history == [] then None else Some(w.history[|w.history| - 1]))
    {
      Interfere();
      var failed: bool, age: nat := *, *;
      if failed {
        faults := faults + 1;
        return Err(Unavailable);
      }
      if age != 0 {
        faults := faults + 1;
      }
      if age >= |w.history| {
        return Ok(None);
      }
      var entry := w.history[|w.history| - 1 - age];
      VisibleIsValid(run, w, entry);
      return Ok(Some(entry));
    }

    /** Conditional root write: create when nothing is expected, else replace that version. */
    method PutRoot(source: Source, raw: Raw) returns (r: Result<Version>)
      requires Valid() && Sourced(w, source, raw)
      modifies this
      ensures Advances()
      ensures r.Ok? ==> Entry(r.value, raw) in w.history && Holds(w.history, r.value, raw.bundle)
                        && |w.history| > |old(w).history|
      ensures r == Err(Error.Precondition) && faults == old(faults) ==> !Applies(w.history, ExpectedBy(w, source, raw))
      ensures faults == old(faults) && Applies(old(w).history, ExpectedBy(old(w), source, raw)) ==>
                r.Ok? && w == Apply(old(w), Write(source, raw, r.value))
    {
      Interfere();
      SourcedStable(old(w), w, source, raw);
      var failed: bool, lost: bool, version: Version := *, *, *;
      if failed {
        faults := faults + 1;
        return Err(Unavailable);
      }
      if !Applies(w.history, ExpectedBy(w, source, raw)) {
        return Err(Error.Precondition);
      }
      if !VersionFits(w.history, Entry(version, raw)) {
        faults := faults + 1;
        return Err(Unavailable);
      }
      Perform(Write(source, raw, version));
      assert w.history[|w.history| - 1] == Entry(version, raw);
      if lost {
        faults := faults + 1;
        return Err(Unavailable);
      }
      return Ok(version);
    }
  }
}
