/**
 The signed publication protocol as a state machine over its durable effects: commit
 uploads, journal saves and reference writes, by any number of publishers over any
 number of journals. A publisher that crashes, loses a response or is delayed is a run
 in which some of its remaining effects happen later or never.
 */
module PublicationProtocol {
  import opened Basics
  import opened Ancestry
  import opened ReferenceChain

  datatype Kind = Publish | Resign

  /** The reference bytes and version observed together before a write. */
  datatype Observation = Observation(version: Version, reference: Envelope)

  /** One exact reference write. Its identity is everything but the observation. */
  datatype Intent = Intent(
    kind: Kind,
    base: Option<Watermark>,
    next: Watermark,
    expected: Option<Observation>,
    reference: Envelope)

  datatype JournalState = JournalState(committed: Option<Watermark>, pending: Option<Intent>)

  predicate ValidWatermark(mark: Watermark) {
    mark.repository == REPOSITORY && mark.generation != 0 && !mark.commit.IsZero()
  }

  predicate ValidIntent(intent: Intent) {
    && ValidWatermark(intent.next)
    && (match intent.base
        case Some(base) => ValidWatermark(base) && intent.expected.Some? && ValidVersion(intent.expected.value.version)
        case None => intent.expected.None?)
    && (match intent.kind
        case Publish =>
          if intent.base.None? then intent.next.generation == 1
          else intent.base.value.generation != MAX_UINT64 && intent.next.generation == intent.base.value.generation + 1
        case Resign => intent.base == Some(intent.next))
    && MarkOf(intent.reference) == intent.next
  }

  predicate ValidState(state: JournalState) {
    && (state.committed.Some? ==> ValidWatermark(state.committed.value))
    && (state.pending.Some? ==> ValidIntent(state.pending.value) && state.pending.value.base == state.committed)
  }

  predicate SameIntent(left: Intent, right: Intent) {
    left.kind == right.kind && left.base == right.base && left.next == right.next && left.reference == right.reference
  }

  /** The anchor rule of a journal save: no rollback, no second commit at one generation. */
  predicate AnchorAdvances(before: Option<Watermark>, after: Option<Watermark>) {
    before.Some? ==>
      && after.Some?
      && after.value.generation >= before.value.generation
      && (after.value.generation == before.value.generation ==> after.value.commit == before.value.commit)
  }

  /** The rule by which the journal itself accepts a replacement state. */
  predicate ValidTransition(current: JournalState, next: JournalState) {
    && AnchorAdvances(current.committed, next.committed)
    && (current.pending.Some? && next.pending.Some? ==>
          current.committed == next.committed && SameIntent(current.pending.value, next.pending.value))
  }

  /** The pending commit starts a history or is a direct child of the pending base. */
  predicate Authentic(commits: Commits, intent: Intent) {
    && ValidIntent(intent)
    && (intent.kind == Publish ==> Follows(commits, intent.base, intent.next))
  }

  // ---------------------------------------------------------------- state

  /** Everything that survives crashes. A journal's revision is the length of its log. */
  datatype World = World(commits: Commits, history: seq<Entry>, logs: map<nat, seq<JournalState>>)

  const GENESIS := World(map[], [], map[])

  function Log(w: World, journal: nat): seq<JournalState> {
    if journal in w.logs then w.logs[journal] else []
  }

  datatype Action =
    | PutCommit(digest: Digest, commit: Commit)
    | SaveJournal(journal: nat, state: JournalState)
    | WriteReference(journal: nat, intent: Intent, expected: Option<string>, etag: string)

  predicate Journaled(log: seq<JournalState>, intent: Intent) {
    exists i | 0 <= i < |log| :: log[i].pending.Some? && SameIntent(log[i].pending.value, intent)
  }

  /** The exact bytes were visible at some time. */
  predicate Shown(history: seq<Entry>, reference: Envelope) {
    exists i | 0 <= i < |history| :: history[i].data == reference
  }

  /** The envelope at `later` is a third one, neither the original at `earlier` nor the re-signed one. */
  predicate Replaces(history: seq<Entry>, intent: Intent, earlier: nat, later: nat)
    requires earlier < later < |history| && intent.expected.Some?
  {
    && history[earlier].data == intent.expected.value.reference
    && history[later].data != intent.expected.value.reference && history[later].data != intent.reference
    && history[later].data.generation >= intent.next.generation
  }

  /** After the envelope a re-sign was to replace, a different winner became visible. */
  predicate Overridden(history: seq<Entry>, intent: Intent) {
    && intent.expected.Some?
    && exists i, j | 0 <= i < j < |history| :: Replaces(history, intent, i, j)
  }

  /** What a re-sign records as its original was visible, and so was what a based publish observed. */
  predicate Witnessed(history: seq<Entry>, intent: Intent) {
    intent.base.Some? ==>
      && intent.expected.Some? && MarkOf(intent.expected.value.reference) == intent.base.value
      && exists i | 0 <= i < |history| ::
           history[i].etag == intent.expected.value.version.etag && history[i].data == intent.expected.value.reference
  }

  /** Refreshing the observation of a re-sign keeps the envelope it replaces. */
  predicate KeepsOriginal(before: Intent, after: Intent) {
    before.kind == Resign && before.expected.Some? && after.expected.Some? ==>
      before.expected.value.reference == after.expected.value.reference
  }

  /**
   The evidence for clearing `intent` over the new anchor: for a publish, an anchor at or
   beyond its generation; for a re-sign, its exact bytes or a different winner.
   */
  predicate Clearable(history: seq<Entry>, intent: Intent, anchor: Option<Watermark>) {
    && anchor.Some? && anchor.value.generation >= intent.next.generation
    && (intent.kind == Resign ==> Shown(history, intent.reference) || Overridden(history, intent))
  }

  /**
   When a publisher may save `next` over the last state of `log`: the journal's own rules,
   a new anchor only for a reference that was visible, a pending operation only with an
   observation that was visible, and a pending operation cleared only on evidence.
   */
  predicate Saveable(history: seq<Entry>, log: seq<JournalState>, next: JournalState) {
    && ValidState(next)
    && (next.pending.Some? ==> Witnessed(history, next.pending.value))
    && if log == [] then
         next.pending.None? && (next.committed.Some? ==> Published(history, next.committed.value))
       else
         var current := log[|log| - 1];
         && ValidTransition(current, next)
         && (next.committed == current.committed || (next.committed.Some? && Published(history, next.committed.value)))
         && (current.pending.Some? && next.pending.Some? ==> KeepsOriginal(current.pending.value, next.pending.value))
         && (current.pending.Some? && next.pending.None? ==> Clearable(history, current.pending.value, next.committed))
  }

  /** The reference entry a conditional write must still find. */
  predicate Expectation(history: seq<Entry>, base: Option<Watermark>, expected: Option<string>) {
    match base
    case None => expected.None?
    case Some(b) =>
      && expected.Some?
      && exists i | 0 <= i < |history| :: history[i].etag == expected.value && MarkOf(history[i].data) == b
  }

  /** The store applies the write: the current ETag, or absence, is the expected one. */
  predicate Applies(history: seq<Entry>, expected: Option<string>) {
    match expected
    case None => history == []
    case Some(etag) => history != [] && history[|history| - 1].etag == etag
  }

  predicate Enabled(w: World, action: Action) {
    match action
    case PutCommit(digest, commit) =>
      !digest.IsZero() && (digest in w.commits ==> w.commits[digest] == commit)
    case SaveJournal(journal, state) =>
      Saveable(w.history, Log(w, journal), state)
    case WriteReference(journal, intent, expected, etag) =>
      && Journaled(Log(w, journal), intent)
      && Authentic(w.commits, intent)
      && Expectation(w.history, intent.base, expected)
      && Applies(w.history, expected)
      && EtagFits(w.history, Entry(etag, intent.reference))
  }

  function Apply(w: World, action: Action): World {
    match action
    case PutCommit(digest, commit) => w.(commits := w.commits[digest := commit])
    case SaveJournal(journal, state) => w.(logs := w.logs[journal := Log(w, journal) + [state]])
    case WriteReference(_, intent, _, etag) => w.(history := w.history + [Entry(etag, intent.reference)])
  }

  /** `actions` is a possible interleaving of all publishers, and `w` the state after it. */
  ghost predicate Reaches(actions: seq<Action>, w: World)
    decreases |actions|, 1
  {
    if actions == [] then w == GENESIS else ReachesByStep(actions, w)
  }

  ghost predicate ReachesByStep(actions: seq<Action>, w: World)
    requires actions != []
    decreases |actions|, 0
  {
    var last := |actions| - 1;
    exists before :: Reaches(actions[..last], before) && Enabled(before, actions[last])
                     && w == Apply(before, actions[last])
  }

  /** The state before the last action of an interleaving. */
  lemma LastStep(actions: seq<Action>, w: World) returns (before: World)
    requires Reaches(actions, w) && actions != []
    ensures Reaches(actions[..|actions| - 1], before)
    ensures Enabled(before, actions[|actions| - 1]) && w == Apply(before, actions[|actions| - 1])
  {
    assert ReachesByStep(actions, w);
    var last := |actions| - 1;
    before :| Reaches(actions[..last], before) && Enabled(before, actions[last]) && w == Apply(before, actions[last]);
  }

  // ------------------------------------------------------------ invariant

  ghost predicate AnchorsPublished(history: seq<Entry>, log: seq<JournalState>) {
    forall i | 0 <= i < |log| ::
      ValidState(log[i]) && (log[i].committed.Some? ==> Published(history, log[i].committed.value))
  }

  ghost predicate FollowsRules(before: JournalState, after: JournalState) {
    && ValidTransition(before, after)
    && (before.pending.Some? && after.pending.Some? ==> KeepsOriginal(before.pending.value, after.pending.value))
    && (before.pending.Some? && after.pending.None? ==>
          after.committed.Some? && after.committed.value.generation >= before.pending.value.next.generation)
  }

  ghost predicate SavesFollowRules(log: seq<JournalState>) {
    forall i | 0 < i < |log| :: FollowsRules(log[i - 1], log[i])
  }

  /** Every observation that was recorded had been visible. */
  ghost predicate ObservationsSeen(history: seq<Entry>, log: seq<JournalState>) {
    forall i | 0 <= i < |log| :: log[i].pending.Some? ==> Witnessed(history, log[i].pending.value)
  }

  ghost predicate ClearedOn(history: seq<Entry>, before: JournalState, after: JournalState) {
    before.pending.Some? && after.pending.None? ==> Clearable(history, before.pending.value, after.committed)
  }

  /** Every pending operation that was cleared had been cleared on evidence. */
  ghost predicate ClearsProven(history: seq<Entry>, log: seq<JournalState>) {
    forall i | 0 < i < |log| :: ClearedOn(history, log[i - 1], log[i])
  }

  ghost predicate JournalSound(history: seq<Entry>, log: seq<JournalState>) {
    AnchorsPublished(history, log) && SavesFollowRules(log) && ObservationsSeen(history, log)
    && ClearsProven(history, log)
  }

  ghost predicate RecordedIn(log: seq<JournalState>, data: Envelope) {
    exists k | 0 <= k < |log| :: log[k].pending.Some? && log[k].pending.value.reference == data
  }

  /** Some journal has recorded the bytes `data` as a pending target. */
  ghost predicate Recorded(w: World, data: Envelope) {
    exists journal: nat :: RecordedIn(Log(w, journal), data)
  }

  ghost predicate WrittenAhead(w: World) {
    forall i | 0 <= i < |w.history| :: Recorded(w, w.history[i].data)
  }

  ghost predicate Inv(w: World) {
    && Chain(w.commits, w.history)
    && EtagsIdentify(w.history)
    && WrittenAhead(w)
    && forall journal: nat :: JournalSound(w.history, Log(w, journal))
  }

  ghost predicate LogExtends(before: seq<JournalState>, after: seq<JournalState>) {
    && |before| <= |after|
    && forall i | 0 <= i < |before| :: after[i] == before[i]
  }

  /** Nothing durable is ever taken back. */
  ghost predicate Extends(before: World, after: World) {
    && Submap(before.commits, after.commits)
    && HistoryExtends(before.history, after.history)
    && forall journal: nat :: LogExtends(Log(before, journal), Log(after, journal))
  }

  lemma StepExtends(w: World, action: Action)
    requires Enabled(w, action)
    ensures Extends(w, Apply(w, action))
  {
    if action.SaveJournal? {
      forall journal: nat ensures LogExtends(Log(w, journal), Log(Apply(w, action), journal)) {
      }
    }
  }

  lemma ChainAppend(commits: Commits, history: seq<Entry>, entry: Entry)
    requires Chain(commits, history)
    requires if history == [] then Follows(commits, None, MarkOf(entry.data))
             else || MarkOf(entry.data) == MarkOf(history[|history| - 1].data)
                  || Follows(commits, Some(MarkOf(history[|history| - 1].data)), MarkOf(entry.data))
    ensures Chain(commits, history + [entry])
  {
    forall i | 0 <= i <= |history| ensures Linked(commits, history + [entry], i) {
      if i < |history| {
        assert Linked(commits, history, i);
      }
    }
  }

  /** A conditional write that applies finds exactly the base it was prepared for. */
  lemma WriteFindsBase(history: seq<Entry>, base: Option<Watermark>, expected: Option<string>)
    requires EtagsIdentify(history) && Expectation(history, base, expected) && Applies(history, expected)
    ensures base == if history == [] then None else Some(MarkOf(history[|history| - 1].data))
  {
    if base.Some? {
      var k :| 0 <= k < |history| && history[k].etag == expected.value && MarkOf(history[k].data) == base.value;
      assert EtagFits(history, history[k]);
    }
  }

  /** A write extends the chain by a re-sign or a direct child. */
  lemma WriteKeepsChain(w: World, action: Action)
    requires Chain(w.commits, w.history) && EtagsIdentify(w.history)
    requires action.WriteReference? && Enabled(w, action)
    ensures Chain(w.commits, Apply(w, action).history)
  {
    WriteFindsBase(w.history, action.intent.base, action.expected);
    ChainAppend(w.commits, w.history, Entry(action.etag, action.intent.reference));
  }

  lemma ChainSurvivesUpload(small: Commits, large: Commits, history: seq<Entry>)
    requires Submap(small, large) && Chain(small, history)
    ensures Chain(large, history)
  {
    forall i | 0 <= i < |history| ensures Linked(large, history, i) {
      assert Linked(small, history, i);
    }
  }

  lemma WitnessedStable(before: seq<Entry>, after: seq<Entry>, intent: Intent)
    requires HistoryExtends(before, after) && Witnessed(before, intent)
    ensures Witnessed(after, intent)
  {
    if intent.base.Some? {
      var observed := intent.expected.value;
      var i :| 0 <= i < |before| && before[i].etag == observed.version.etag && before[i].data == observed.reference;
      assert after[i] == before[i];
    }
  }

  lemma ShownStable(before: seq<Entry>, after: seq<Entry>, reference: Envelope)
    requires HistoryExtends(before, after) && Shown(before, reference)
    ensures Shown(after, reference)
  {
    var i :| 0 <= i < |before| && before[i].data == reference;
    assert after[i] == before[i];
  }

  lemma OverriddenStable(before: seq<Entry>, after: seq<Entry>, intent: Intent)
    requires HistoryExtends(before, after) && Overridden(before, intent)
    ensures Overridden(after, intent)
  {
    var i, j :| 0 <= i < j < |before| && Replaces(before, intent, i, j);
    assert after[i] == before[i] && after[j] == before[j];
    assert Replaces(after, intent, i, j);
  }

  lemma ClearableStable(before: seq<Entry>, after: seq<Entry>, intent: Intent, anchor: Option<Watermark>)
    requires HistoryExtends(before, after) && Clearable(before, intent, anchor)
    ensures Clearable(after, intent, anchor)
  {
    if Shown(before, intent.reference) {
      ShownStable(before, after, intent.reference);
    }
    if Overridden(before, intent) {
      OverriddenStable(before, after, intent);
    }
  }

  /** What journals say of the history stays true as it grows. */
  lemma JournalSurvivesWrites(before: seq<Entry>, after: seq<Entry>, log: seq<JournalState>)
    requires HistoryExtends(before, after) && JournalSound(before, log)
    ensures JournalSound(after, log)
  {
    forall i | 0 <= i < |log| && log[i].committed.Some? ensures Published(after, log[i].committed.value) {
      VerdictsStable(before, after, log[i].committed.value);
    }
    forall i | 0 <= i < |log| && log[i].pending.Some? ensures Witnessed(after, log[i].pending.value) {
      WitnessedStable(before, after, log[i].pending.value);
    }
    forall i | 0 < i < |log| ensures ClearedOn(after, log[i - 1], log[i]) {
      assert ClearedOn(before, log[i - 1], log[i]);
      if log[i - 1].pending.Some? && log[i].pending.None? {
        ClearableStable(before, after, log[i - 1].pending.value, log[i].committed);
      }
    }
  }

  lemma RecordedStable(before: World, after: World, data: Envelope)
    requires Extends(before, after) && Recorded(before, data)
    ensures Recorded(after, data)
  {
    var journal: nat :| RecordedIn(Log(before, journal), data);
    assert LogExtends(Log(before, journal), Log(after, journal));
    assert RecordedIn(Log(after, journal), data);
  }

  lemma WrittenAheadStep(w: World, action: Action)
    requires WrittenAhead(w) && Enabled(w, action)
    ensures WrittenAhead(Apply(w, action))
  {
    var w' := Apply(w, action);
    StepExtends(w, action);
    forall i | 0 <= i < |w'.history| ensures Recorded(w', w'.history[i].data) {
      if i < |w.history| {
        RecordedStable(w, w', w.history[i].data);
      } else {
        assert RecordedIn(Log(w, action.journal), action.intent.reference);
        RecordedStable(w, w', w'.history[i].data);
      }
    }
  }

  lemma SaveKeepsAnchors(history: seq<Entry>, log: seq<JournalState>, next: JournalState)
    requires AnchorsPublished(history, log) && Saveable(history, log, next)
    ensures AnchorsPublished(history, log + [next])
  {
    var after := log + [next];
    forall i | 0 <= i < |after|
      ensures ValidState(after[i]) && (after[i].committed.Some? ==> Published(history, after[i].committed.value))
    {
      assert i < |log| ==> after[i] == log[i];
      assert i == |log| && log != [] && next.committed == log[|log| - 1].committed && next.committed.Some?
        ==> Published(history, log[|log| - 1].committed.value);
    }
  }

  lemma SaveKeepsRules(history: seq<Entry>, log: seq<JournalState>, next: JournalState)
    requires JournalSound(history, log) && Saveable(history, log, next)
    ensures JournalSound(history, log + [next])
  {
    var after := log + [next];
    SaveKeepsAnchors(history, log, next);
    forall i | 0 < i < |after| ensures FollowsRules(after[i - 1], after[i])
                                       && ClearedOn(history, after[i - 1], after[i]) {
      assert after[i - 1] == log[i - 1];
      if i < |log| {
        assert after[i] == log[i];
        assert FollowsRules(log[i - 1], log[i]) && ClearedOn(history, log[i - 1], log[i]);
      }
    }
  }

  lemma JournalsStep(w: World, action: Action, journal: nat)
    requires Inv(w) && Enabled(w, action)
    ensures JournalSound(Apply(w, action).history, Log(Apply(w, action), journal))
  {
    var log := Log(w, journal);
    assert JournalSound(w.history, log);
    match action {
      case PutCommit(_, _) =>
      case SaveJournal(j, state) =>
        if j == journal {
          SaveKeepsRules(w.history, log, state);
        }
      case WriteReference(_, _, _, _) =>
        JournalSurvivesWrites(w.history, Apply(w, action).history, log);
    }
  }

  /** Every step of every publisher keeps the invariant. */
  lemma StepKeepsInvariant(w: World, action: Action)
    requires Inv(w) && Enabled(w, action)
    ensures Inv(Apply(w, action))
  {
    var w' := Apply(w, action);
    StepExtends(w, action);
    if action.WriteReference? {
      WriteKeepsChain(w, action);
      assert EtagsIdentify(w'.history) by {
        assert EtagFits(w.history, w'.history[|w.history|]);
        forall i, j | 0 <= i < |w'.history| && 0 <= j < |w'.history| && w'.history[j].etag == w'.history[i].etag
          ensures w'.history[j].data == w'.history[i].data
        {
          if i < |w.history| {
            assert EtagFits(w.history, w.history[i]);
          }
        }
      }
    } else if action.PutCommit? {
      ChainSurvivesUpload(w.commits, w'.commits, w.history);
    }
    WrittenAheadStep(w, action);
    forall journal: nat ensures JournalSound(w'.history, Log(w', journal)) {
      JournalsStep(w, action, journal);
    }
  }

  lemma {:induction false} RunInvariant(actions: seq<Action>, w: World)
    requires Reaches(actions, w)
    ensures Inv(w)
    decreases |actions|
  {
    if actions != [] {
      var before := LastStep(actions, w);
      RunInvariant(actions[..|actions| - 1], before);
      StepKeepsInvariant(before, actions[|actions| - 1]);
    }
  }

  /** An earlier moment of a run, and that nothing durable of it was taken back. */
  lemma {:induction false} RunExtends(actions: seq<Action>, w: World, moment: nat, earlier: World)
    requires Reaches(actions, w) && moment <= |actions| && Reaches(actions[..moment], earlier)
    ensures Extends(earlier, w)
    decreases |actions|
  {
    if moment == |actions| {
      assert actions[..moment] == actions;
      ReachesOne(actions, earlier, w);
    } else {
      var before := LastStep(actions, w);
      assert actions[..|actions| - 1][..moment] == actions[..moment];
      RunExtends(actions[..|actions| - 1], before, moment, earlier);
      StepExtends(before, actions[|actions| - 1]);
    }
  }

  lemma {:induction false} ReachesOne(actions: seq<Action>, one: World, other: World)
    requires Reaches(actions, one) && Reaches(actions, other)
    ensures one == other
    decreases |actions|
  {
    if actions != [] {
      var a := LastStep(actions, one);
      var b := LastStep(actions, other);
      ReachesOne(actions[..|actions| - 1], a, b);
    }
  }

  // ------------------------------------------------------------- theorems

  /**
   Single chain. In every run the reference history is one parent chain from generation
   one: each write keeps the snapshot or installs a direct child one generation higher, a
   generation never has two commits, and every later reference descends from every earlier one.
   */
  lemma SingleChain(actions: seq<Action>, w: World)
    requires Reaches(actions, w)
    ensures Chain(w.commits, w.history)
    ensures forall i, j | 0 <= i <= j < |w.history| ::
              SameOrDescends(w.commits, MarkOf(w.history[j].data), MarkOf(w.history[i].data))
    ensures forall i, j | 0 <= i < |w.history| && 0 <= j < |w.history| ::
              w.history[i].data.generation == w.history[j].data.generation ==>
                w.history[i].data.commit == w.history[j].data.commit
  {
    RunInvariant(actions, w);
    forall i, j | 0 <= i <= j < |w.history|
      ensures SameOrDescends(w.commits, MarkOf(w.history[j].data), MarkOf(w.history[i].data))
    {
      ChainDescends(w.commits, w.history, i, j);
    }
    forall i, j | 0 <= i < |w.history| && 0 <= j < |w.history|
                  && w.history[i].data.generation == w.history[j].data.generation
      ensures w.history[i].data.commit == w.history[j].data.commit
    {
      ChainUnique(w.commits, w.history, i, j);
    }
  }

  lemma {:induction false} AnchorsAdvance(log: seq<JournalState>, i: nat, j: nat)
    requires SavesFollowRules(log) && i <= j < |log|
    ensures AnchorAdvances(log[i].committed, log[j].committed)
    decreases j
  {
    if i < j {
      AnchorsAdvance(log, i, j - 1);
      assert FollowsRules(log[j - 1], log[j]);
    }
  }

  lemma PublishedOrder(commits: Commits, history: seq<Entry>, older: Watermark, newer: Watermark)
    requires Chain(commits, history) && Published(history, older) && Published(history, newer)
    requires older.generation <= newer.generation
    ensures SameOrDescends(commits, newer, older)
  {
    var i :| 0 <= i < |history| && MarkOf(history[i].data) == older;
    var j :| 0 <= j < |history| && MarkOf(history[j].data) == newer;
    if i <= j {
      ChainDescends(commits, history, i, j);
    } else {
      ChainDescends(commits, history, j, i);
    }
  }

  /**
   Anchor safety. In every run every anchor a journal ever recorded was really visible,
   and each later anchor of the same journal equals or descends from each earlier one.
   */
  lemma AnchorSafety(actions: seq<Action>, w: World, journal: nat, i: nat, j: nat)
    requires Reaches(actions, w) && i <= j < |Log(w, journal)| && Log(w, journal)[i].committed.Some?
    ensures var log := Log(w, journal);
            && log[j].committed.Some?
            && Published(w.history, log[i].committed.value)
            && SameOrDescends(w.commits, log[j].committed.value, log[i].committed.value)
  {
    RunInvariant(actions, w);
    var log := Log(w, journal);
    assert JournalSound(w.history, log);
    AnchorsAdvance(log, i, j);
    assert Published(w.history, log[j].committed.value);
    PublishedOrder(w.commits, w.history, log[i].committed.value, log[j].committed.value);
  }

  /**
   Intent immutability. From the save that begins an operation until the save that clears
   it, its kind, base, target and exact bytes never change, its base stays the anchor, and
   a re-sign keeps the envelope it replaces.
   */
  lemma {:induction false} IntentImmutable(actions: seq<Action>, w: World, journal: nat, i: nat, j: nat)
    requires Reaches(actions, w) && i <= j < |Log(w, journal)|
    requires forall k | i <= k <= j :: Log(w, journal)[k].pending.Some?
    ensures var log := Log(w, journal);
            && SameIntent(log[i].pending.value, log[j].pending.value)
            && KeepsOriginal(log[i].pending.value, log[j].pending.value)
            && log[j].committed == log[i].committed == log[i].pending.value.base
    decreases j
  {
    RunInvariant(actions, w);
    var log := Log(w, journal);
    assert JournalSound(w.history, log);
    assert ValidState(log[i]);
    if i < j {
      IntentImmutable(actions, w, journal, i, j - 1);
      assert ValidState(log[j - 1]) && FollowsRules(log[j - 1], log[j]);
    }
  }

  /** Once an operation has been cleared, the anchor has reached the generation it aimed at. */
  lemma SettledAnchor(log: seq<JournalState>, i: nat, k: nat, j: nat)
    requires SavesFollowRules(log) && i < k <= j < |log|
    requires log[i].pending.Some? && log[k].pending.None?
    ensures log[j].committed.Some? && log[j].committed.value.generation >= log[i].pending.value.next.generation
  {
    var m := ClearingSave(log, i, k);
    assert FollowsRules(log[m], log[m + 1]);
    AnchorsAdvance(log, m + 1, j);
  }

  /** The save that clears the operation pending at save `i`: the last pending state before it. */
  lemma {:induction false} ClearingSave(log: seq<JournalState>, i: nat, k: nat) returns (m: nat)
    requires SavesFollowRules(log) && i < k < |log|
    requires log[i].pending.Some? && log[k].pending.None?
    ensures i <= m < k && log[m].pending.Some? && log[m + 1].pending.None?
    ensures forall h | i <= h <= m :: log[h].pending.Some?
    ensures SameIntent(log[i].pending.value, log[m].pending.value)
    decreases k - i
  {
    if log[i + 1].pending.Some? {
      assert FollowsRules(log[i], log[i + 1]);
      m := ClearingSave(log, i + 1, k);
    } else {
      m := i;
    }
  }

  /** Who won against or for an operation: every kind has its own proof. */
  ghost predicate Proven(history: seq<Entry>, intent: Intent) {
    match intent.kind
    case Publish => Published(history, intent.next) || LostTo(history, intent.next)
    case Resign => Shown(history, intent.reference) || Overridden(history, intent)
  }

  /**
   Cleared only for a winner. Whenever a journal no longer holds an operation it once held,
   the history shows its target or a different winner: for a publish another commit at its
   generation, for a re-sign a third envelope after the one it was to replace.
   */
  lemma ClearedHasWinner(actions: seq<Action>, w: World, journal: nat, i: nat, k: nat)
    requires Reaches(actions, w) && i < k < |Log(w, journal)|
    requires Log(w, journal)[i].pending.Some? && Log(w, journal)[k].pending.None?
    ensures Proven(w.history, Log(w, journal)[i].pending.value)
  {
    RunInvariant(actions, w);
    var log := Log(w, journal);
    assert JournalSound(w.history, log);
    var m := ClearingSave(log, i, k);
    IntentImmutable(actions, w, journal, i, m);
    assert ClearedOn(w.history, log[m], log[m + 1]) && ValidState(log[m]) && ValidState(log[i]);
    var cleared, anchor := log[m].pending.value, log[m + 1].committed.value;
    if cleared.kind == Publish {
      WalkDecides(w.commits, w.history, anchor, cleared.next);
    } else if Overridden(w.history, cleared) {
      var a, b :| 0 <= a < b < |w.history| && Replaces(w.history, cleared, a, b);
      assert Replaces(w.history, log[i].pending.value, a, b);
    }
  }

  /**
   Write-ahead. Whenever a run makes a reference visible, a journal had already recorded
   exactly its bytes as pending, and that record is the only thing the write adds.
   */
  lemma WriteAhead(actions: seq<Action>, w: World) returns (before: World)
    requires Reaches(actions, w) && actions != [] && actions[|actions| - 1].WriteReference?
    ensures Reaches(actions[..|actions| - 1], before)
    ensures |w.history| == |before.history| + 1 && HistoryExtends(before.history, w.history)
    ensures Recorded(before, w.history[|before.history|].data)
  {
    before := LastStep(actions, w);
    var action := actions[|actions| - 1];
    assert RecordedIn(Log(before, action.journal), action.intent.reference);
  }

  /** A verdict reached at some moment is never contradicted later in the run. */
  lemma VerdictNeverFlips(actions: seq<Action>, w: World, moment: nat, earlier: World, mark: Watermark)
    requires Reaches(actions, w) && moment <= |actions| && Reaches(actions[..moment], earlier)
             && mark.repository == REPOSITORY
    ensures Published(earlier.history, mark) ==> !LostTo(w.history, mark)
    ensures LostTo(earlier.history, mark) ==> !Published(w.history, mark)
  {
    RunExtends(actions, w, moment, earlier);
    RunInvariant(actions, w);
    VerdictsStable(earlier.history, w.history, mark);
    VerdictsExclude(w.commits, w.history, mark);
  }
}
