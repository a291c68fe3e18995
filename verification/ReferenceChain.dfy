/**
 The one mutable reference of a channel as a linearizable compare-and-swap register
 (store.go), seen through its complete write history.
 */
module ReferenceChain {
  import opened Basics
  import opened Ancestry

  /** The repository whose references the configured verifier accepts. */
  const REPOSITORY: nat := 1

  /** An authenticated reference envelope; `seal` stands for key ID and signature bytes. */
  datatype Envelope = Envelope(generation: Uint64, commit: Digest, seal: nat)

  datatype Entry = Entry(etag: string, data: Envelope)

  function MarkOf(data: Envelope): Watermark {
    Watermark(REPOSITORY, data.generation, data.commit)
  }

  /** `mark` was the visible reference at some time. */
  predicate Published(history: seq<Entry>, mark: Watermark) {
    exists i | 0 <= i < |history| :: MarkOf(history[i].data) == mark
  }

  /** Another commit holds the generation of `mark`. */
  ghost predicate LostTo(history: seq<Entry>, mark: Watermark) {
    exists i | 0 <= i < |history| ::
      history[i].data.generation == mark.generation && history[i].data.commit != mark.commit
  }

  /** `commit` starts a history (no base) or is a direct child of `base`. */
  predicate Follows(commits: Commits, base: Option<Watermark>, next: Watermark) {
    && next.commit in commits
    && ValidCommit(commits[next.commit], next.generation)
    && match base
       case None => next.generation == 1
       case Some(b) => next.generation == b.generation + 1 && commits[next.commit].parent == Some(b.commit)
  }

  /** Write number `i` re-signs its predecessor or installs a direct child of it. */
  ghost predicate Linked(commits: Commits, history: seq<Entry>, i: nat)
    requires i < |history|
  {
    if i == 0 then Follows(commits, None, MarkOf(history[0].data))
    else
      || MarkOf(history[i].data) == MarkOf(history[i - 1].data)
      || Follows(commits, Some(MarkOf(history[i - 1].data)), MarkOf(history[i].data))
  }

  ghost predicate Chain(commits: Commits, history: seq<Entry>) {
    forall i | 0 <= i < |history| :: Linked(commits, history, i)
  }

  /** Equal ETags on the reference key mean equal bytes. */
  predicate EtagFits(history: seq<Entry>, entry: Entry) {
    forall i | 0 <= i < |history| :: history[i].etag == entry.etag ==> history[i].data == entry.data
  }

  ghost predicate EtagsIdentify(history: seq<Entry>) {
    forall i | 0 <= i < |history| :: EtagFits(history, history[i])
  }

  ghost predicate HistoryExtends(before: seq<Entry>, after: seq<Entry>) {
    && |before| <= |after|
    && forall i | 0 <= i < |before| :: after[i] == before[i]
  }

  /** Every later reference equals or descends from every earlier one. */
  lemma {:induction false} ChainDescends(commits: Commits, history: seq<Entry>, i: nat, j: nat)
    requires Chain(commits, history) && i <= j < |history|
    ensures SameOrDescends(commits, MarkOf(history[j].data), MarkOf(history[i].data))
    decreases j
  {
    if i < j {
      ChainDescends(commits, history, i, j - 1);
      assert Linked(commits, history, j);
      var child, parent := MarkOf(history[j].data), MarkOf(history[j - 1].data);
      if child != parent {
        assert Ancestor(commits, child.commit, child.generation, 1) == Some(parent.commit);
        SameOrDescendsTransitive(commits, child, parent, MarkOf(history[i].data));
      }
    }
  }

  /** A generation is held by one commit only, over the whole history. */
  lemma ChainUnique(commits: Commits, history: seq<Entry>, i: nat, j: nat)
    requires Chain(commits, history) && i < |history| && j < |history|
    requires history[i].data.generation == history[j].data.generation
    ensures history[i].data.commit == history[j].data.commit
  {
    if i <= j {
      ChainDescends(commits, history, i, j);
    } else {
      ChainDescends(commits, history, j, i);
    }
  }

  /** The history is a complete chain: every ancestor of a published commit was published. */
  lemma {:induction false} ChainAncestor(commits: Commits, history: seq<Entry>, i: nat, steps: nat) returns (h: nat)
    requires Chain(commits, history) && i < |history| && steps < history[i].data.generation
    ensures h <= i && history[h].data.generation == history[i].data.generation - steps
    ensures Ancestor(commits, history[i].data.commit, history[i].data.generation, steps) == Some(history[h].data.commit)
    decreases i
  {
    if steps == 0 {
      h := i;
    } else {
      assert Linked(commits, history, i);
      var same := MarkOf(history[i].data) == MarkOf(history[i - 1].data);
      h := ChainAncestor(commits, history, i - 1, if same then steps else steps - 1);
    }
  }

  /** The chain starts at generation one, so no generation is missing or zero. */
  lemma {:induction false} ChainPositive(commits: Commits, history: seq<Entry>, i: nat)
    requires Chain(commits, history) && i < |history|
    ensures history[i].data.generation >= 1
    ensures history[i].data.commit in commits
    ensures ValidCommit(commits[history[i].data.commit], history[i].data.generation)
    decreases i
  {
    assert Linked(commits, history, i);
    if i != 0 {
      ChainPositive(commits, history, i - 1);
    }
  }

  /** Published and LostTo exclude each other, and neither is ever revoked. */
  lemma VerdictsExclude(commits: Commits, history: seq<Entry>, mark: Watermark)
    requires Chain(commits, history) && mark.repository == REPOSITORY
    ensures !(Published(history, mark) && LostTo(history, mark))
  {
    if Published(history, mark) && LostTo(history, mark) {
      var i :| 0 <= i < |history| && MarkOf(history[i].data) == mark;
      var j :| 0 <= j < |history| && history[j].data.generation == mark.generation
               && history[j].data.commit != mark.commit;
      ChainUnique(commits, history, i, j);
      assert false;
    }
  }

  lemma VerdictsStable(before: seq<Entry>, after: seq<Entry>, mark: Watermark)
    requires HistoryExtends(before, after)
    ensures Published(before, mark) ==> Published(after, mark)
    ensures LostTo(before, mark) ==> LostTo(after, mark)
  {
    if Published(before, mark) {
      var i :| 0 <= i < |before| && MarkOf(before[i].data) == mark;
      assert MarkOf(after[i].data) == mark;
    }
    if LostTo(before, mark) {
      var i :| 0 <= i < |before| && before[i].data.generation == mark.generation
               && before[i].data.commit != mark.commit;
      assert after[i].data.generation == mark.generation;
    }
  }

  /** One walk decides the verdict on a mark no newer than a published one. */
  lemma WalkDecides(commits: Commits, history: seq<Entry>, tip: Watermark, mark: Watermark)
    requires Chain(commits, history) && Published(history, tip)
    requires mark.repository == REPOSITORY && 0 < mark.generation <= tip.generation
    ensures SameOrDescends(commits, tip, mark) ==> Published(history, mark)
    ensures !SameOrDescends(commits, tip, mark) ==> LostTo(history, mark)
  {
    var i :| 0 <= i < |history| && MarkOf(history[i].data) == tip;
    var h := ChainAncestor(commits, history, i, tip.generation - mark.generation);
    if SameOrDescends(commits, tip, mark) {
      assert MarkOf(history[h].data) == mark;
    } else {
      assert history[h].data.commit != mark.commit;
    }
  }
}
