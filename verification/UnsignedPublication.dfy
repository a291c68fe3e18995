/**
 Publication without signatures or a journal: one compare-and-swap on the channel reference,
 and reconciliation against the commit chain when its outcome is unknown. Reads of the
 reference may be stale.
 */
module UnsignedPublication {
  import opened Basics
  import opened Ancestry
  import opened ReferenceChain

  /** Every commit uploaded, and every reference ever visible, oldest first. */
  datatype World = World(commits: Commits, history: seq<Entry>)

  const EMPTY := World(map[], [])

  datatype Action =
    | PutCommit(digest: Digest, commit: Commit)
    | Write(base: Option<Entry>, next: Envelope, etag: string)

  function BaseMark(base: Option<Entry>): Option<Watermark> {
    if base.None? then None else Some(MarkOf(base.value.data))
  }

  /** A staged reference: a direct child of the reference it was staged on. */
  predicate Staged(w: World, base: Option<Entry>, next: Envelope) {
    Follows(w.commits, BaseMark(base), MarkOf(next)) && (base.Some? ==> base.value in w.history)
  }

  predicate Applies(history: seq<Entry>, base: Option<Entry>) {
    if history == [] then base.None? else base.Some? && history[|history| - 1].etag == base.value.etag
  }

  predicate Enabled(w: World, action: Action) {
    match action
    case PutCommit(digest, commit) => !digest.IsZero() && (digest in w.commits ==> w.commits[digest] == commit)
    case Write(base, next, etag) => Staged(w, base, next) && Applies(w.history, base)
                                    && EtagFits(w.history, Entry(etag, next))
  }

  function Apply(w: World, action: Action): World {
    match action
    case PutCommit(digest, commit) => w.(commits := w.commits[digest := commit])
    case Write(_, next, etag) => w.(history := w.history + [Entry(etag, next)])
  }

  ghost predicate Reaches(actions: seq<Action>, w: World)
    decreases |actions|, 1
  {
    if actions == [] then w == EMPTY else ReachesByStep(actions, w)
  }

  ghost predicate ReachesByStep(actions: seq<Action>, w: World)
    requires actions != []
    decreases |actions|, 0
  {
    var last := |actions| - 1;
    exists before :: Reaches(actions[..last], before) && Enabled(before, actions[last])
                     && w == Apply(before, actions[last])
  }

  ghost predicate Extends(before: World, after: World) {
    Submap(before.commits, after.commits) && HistoryExtends(before.history, after.history)
  }

  /** Write `i` is a direct child of write `i - 1`, and the first one starts the history. */
  ghost predicate ChildOfPrevious(commits: Commits, history: seq<Entry>, i: nat)
    requires i < |history|
  {
    Follows(commits, if i == 0 then None else Some(MarkOf(history[i - 1].data)), MarkOf(history[i].data))
  }

  ghost predicate Inv(w: World) {
    && (forall i | 0 <= i < |w.history| :: ChildOfPrevious(w.commits, w.history, i))
    && EtagsIdentify(w.history) && (forall digest | digest in w.commits :: !digest.IsZero())
  }

  lemma InvIsChain(w: World)
    requires Inv(w)
    ensures Chain(w.commits, w.history)
  {
    forall i | 0 <= i < |w.history|
      ensures Linked(w.commits, w.history, i)
    {
      assert ChildOfPrevious(w.commits, w.history, i);
    }
  }

  lemma StepExtends(w: World, action: Action)
    requires Enabled(w, action)
    ensures Extends(w, Apply(w, action))
  {
  }

  lemma WriteKeeps(w: World, base: Option<Entry>, next: Envelope, etag: string)
    requires Inv(w) && Enabled(w, Write(base, next, etag))
    ensures Inv(Apply(w, Write(base, next, etag)))
  {
    var after := w.history + [Entry(etag, next)];
    forall i | 0 <= i < |after|
      ensures ChildOfPrevious(w.commits, after, i)
    {
      if i < |w.history| {
        assert ChildOfPrevious(w.commits, w.history, i);
      } else if i > 0 {
        var k :| 0 <= k < |w.history| && w.history[k] == base.value;
        assert EtagFits(w.history, w.history[k]);
        assert w.history[|w.history| - 1].data == base.value.data;
      }
    }
    forall i | 0 <= i < |after|
      ensures EtagFits(after, after[i])
    {
      assert i < |w.history| ==> EtagFits(w.history, w.history[i]);
    }
  }

  lemma PutKeeps(w: World, digest: Digest, commit: Commit)
    requires Inv(w) && Enabled(w, PutCommit(digest, commit))
    ensures Inv(Apply(w, PutCommit(digest, commit)))
  {
    var after := Apply(w, PutCommit(digest, commit));
    forall i | 0 <= i < |w.history|
      ensures ChildOfPrevious(after.commits, after.history, i)
    {
      assert ChildOfPrevious(w.commits, w.history, i);
    }
  }

  lemma {:induction false} RunInvariant(actions: seq<Action>, w: World)
    requires Reaches(actions, w)
    ensures Inv(w)
    decreases |actions|
  {
    if actions != [] {
      var last := |actions| - 1;
      assert ReachesByStep(actions, w);
      var before :| Reaches(actions[..last], before) && Enabled(before, actions[last])
                    && w == Apply(before, actions[last]);
      RunInvariant(actions[..last], before);
      match actions[last]
      case PutCommit(digest, commit) => PutKeeps(before, digest, commit);
      case Write(base, next, etag) => WriteKeeps(before, base, next, etag);
    }
  }

  lemma {:induction false} GenerationIsPosition(w: World, i: nat)
    requires Inv(w) && i < |w.history|
    ensures w.history[i].data.generation == i + 1
  {
    assert ChildOfPrevious(w.commits, w.history, i);
    if i > 0 {
      GenerationIsPosition(w, i - 1);
    }
  }

  /**
   Over every interleaving of any number of publishers the reference history is one parent
   chain, one commit per generation, starting at generation one.
   */
  lemma UnsignedSingleChain(actions: seq<Action>, w: World)
    requires Reaches(actions, w)
    ensures forall i | 0 <= i < |w.history| :: w.history[i].data.generation == i + 1
    ensures forall i, j | 0 <= i < j < |w.history| ::
              Descends(w.commits, MarkOf(w.history[j].data), MarkOf(w.history[i].data))
  {
    RunInvariant(actions, w);
    InvIsChain(w);
    forall i | 0 <= i < |w.history| ensures w.history[i].data.generation == i + 1 {
      GenerationIsPosition(w, i);
    }
    forall i, j | 0 <= i < j < |w.history|
      ensures Descends(w.commits, MarkOf(w.history[j].data), MarkOf(w.history[i].data))
    {
      ChainDescends(w.commits, w.history, i, j);
    }
  }
}
