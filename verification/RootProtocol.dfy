/**
 The root object of a share and its write-ahead log, as a state machine. Any number of
 processes share one sealed recovery journal, others write the root without a journal, and
 the same bundle may reappear under new bytes or a new version. Crashed processes simply
 stop; lost responses are writes whose caller learned nothing.
 */
module RootProtocol {
  import opened Basics

  /** The signed content of one root revision. */
  datatype Bundle = Bundle(
    revision: Uint64,
    generation: Uint64,
    commit: Digest,
    referenceKey: string,
    reference: nat,
    referenceVersion: Version,
    capabilities: map<string, nat>)

  /** Stored bytes: a bundle and what sealing added to it. */
  datatype Raw = Raw(bundle: Bundle, nonce: nat)

  datatype Entry = Entry(version: Version, raw: Raw)

  /** A resolved snapshot with every object key it needs. */
  datatype Closure = Closure(
    generation: Uint64,
    commit: Digest,
    referenceKey: string,
    reference: nat,
    referenceVersion: Version,
    objectKeys: seq<string>)

  /** The authenticated root last accepted. Digests stand for the values they identify. */
  datatype Committed = Committed(
    revision: Uint64,
    logical: Bundle,
    generation: Uint64,
    commit: Digest,
    version: Version)

  /** One journaled root write. No expected version means the root must be absent. */
  datatype Pending = Pending(
    targetRevision: Uint64,
    allowCreate: bool,
    expected: Option<Version>,
    base: Option<Raw>,
    closure: Closure,
    target: Raw,
    logical: Bundle,
    generation: Uint64,
    commit: Digest)

  /** `profile` seals the journal to a client-encryption profile, when there is one. */
  datatype Record = Record(
    profile: Option<nat>,
    highest: Uint64,
    committed: Option<Committed>,
    pending: Option<Pending>,
    target: Option<Raw>)

  function Prepared(profile: Option<nat>): Record {
    Record(profile, 0, None, None, None)
  }

  predicate ValidBundle(bundle: Bundle) {
    bundle.revision != 0 && bundle.generation != 0 && !bundle.commit.IsZero()
  }

  predicate ValidCommitted(committed: Committed) {
    && committed.revision != 0 && committed.generation != 0
    && !committed.commit.IsZero() && ValidVersion(committed.version)
  }

  predicate ValidExpectation(committed: Option<Committed>, pending: Pending) {
    if pending.expected.None? then
      pending.targetRevision == 1 && committed.None? && pending.base.None?
    else
      && committed.Some? && committed.value.revision != MAX_UINT64
      && pending.targetRevision == committed.value.revision + 1
      && ValidVersion(pending.expected.value) && pending.base.Some?
      && pending.generation >= committed.value.generation
      && (pending.generation == committed.value.generation ==> pending.commit == committed.value.commit)
  }

  predicate ValidPending(record: Record, pending: Pending) {
    && record.highest != 0 && pending.targetRevision == record.highest
    && pending.generation != 0 && !pending.commit.IsZero()
    && pending.allowCreate == pending.expected.None?
    && ValidExpectation(record.committed, pending)
    && record.target == Some(pending.target)
    && ValidBundle(pending.target.bundle)
    && pending.target.bundle.revision == pending.targetRevision
    && pending.target.bundle.generation == pending.generation
    && pending.target.bundle.commit == pending.commit
    && pending.target.bundle == pending.logical
  }

  /** The record validator, applied before every save and after every load. */
  predicate ValidRecord(record: Record) {
    if record.committed.None? && record.pending.None? then
      record.highest == 0 && record.target.None?
    else
      && (record.committed.Some? ==> ValidCommitted(record.committed.value))
      && (record.pending.None? ==> record.target.None? && record.highest == record.committed.value.revision)
      && (record.pending.Some? ==> ValidPending(record, record.pending.value))
  }

  // ------------------------------------------------------------ the state machine

  /** Every root value ever visible, and every journal record ever durable, oldest first. */
  datatype Share = Share(history: seq<Entry>, log: seq<Record>)

  const EMPTY := Share([], [])

  /** A write takes its bytes from a journal record, or builds them on an observed root. */
  datatype Source = Journaled(k: nat) | Plain(base: Option<Entry>)

  datatype Action =
    | Save(next: Record)
    | Write(source: Source, raw: Raw, version: Version)
    | Reseal(nonce: nat, version: Version)

  /** One revision on, with a snapshot that neither goes back nor changes at its generation. */
  predicate Succeeds(before: Bundle, after: Bundle) {
    && after.revision == before.revision + 1
    && after.generation >= before.generation
    && (after.generation == before.generation ==> after.commit == before.commit)
  }

  predicate Follows(before: Bundle, after: Bundle) {
    before == after || Succeeds(before, after)
  }

  predicate AnchorAdvances(before: Option<Committed>, after: Committed) {
    before.Some? ==>
      && after.revision >= before.value.revision
      && (after.revision == before.value.revision ==> after.logical == before.value.logical)
      && after.generation >= before.value.generation
      && (after.generation == before.value.generation ==> after.commit == before.value.commit)
  }

  /** The same root, possibly under another version. */
  predicate SameAnchor(before: Option<Committed>, after: Option<Committed>) {
    before.Some? && after.Some? && before.value == after.value.(version := before.value.version)
  }

  predicate SamePending(before: Pending, after: Pending) {
    before == after.(expected := before.expected, base := before.base)
  }

  /** The current record; a fresh journal starts from a prepared one. */
  function Last(log: seq<Record>, profile: Option<nat>): Record {
    if log == [] then Prepared(profile) else log[|log| - 1]
  }

  /** How one durable record may replace another. */
  predicate Step(before: Record, after: Record) {
    after.profile == before.profile &&
    if after.pending.None? then
      && after.committed.Some? && AnchorAdvances(before.committed, after.committed.value)
      && (before.pending.Some? ==>
            && after.committed.value.revision >= before.pending.value.targetRevision
            && (after.committed.value.revision == before.pending.value.targetRevision ==>
                  after.committed.value.logical == before.pending.value.logical))
    else if before.pending.None? then
      after.committed == before.committed
    else
      && SamePending(before.pending.value, after.pending.value)
      && SameAnchor(before.committed, after.committed)
  }

  predicate Holds(history: seq<Entry>, version: Version, bundle: Bundle) {
    exists i | 0 <= i < |history| :: history[i].version == version && history[i].raw.bundle == bundle
  }

  /** What a record says about the root was really seen there. */
  predicate Genuine(history: seq<Entry>, record: Record) {
    && (record.committed.Some? ==>
          var committed := record.committed.value;
          && Holds(history, committed.version, committed.logical)
          && committed.revision == committed.logical.revision
          && committed.generation == committed.logical.generation
          && committed.commit == committed.logical.commit)
    && (record.pending.Some? && record.pending.value.expected.Some? && record.pending.value.base.Some? ==>
          var pending := record.pending.value;
          && Entry(pending.expected.value, pending.base.value) in history
          && record.committed.Some? && pending.base.value.bundle == record.committed.value.logical)
  }

  /** Whether a save may happen; a fresh journal may also be prepared without a root. */
  predicate Saveable(history: seq<Entry>, log: seq<Record>, next: Record) {
    && ValidRecord(next)
    && Genuine(history, next)
    && (Step(Last(log, next.profile), next) || (log == [] && next == Prepared(next.profile)))
  }

  /** The store's condition: absence, or the current ETag; the version identifier does not matter. */
  predicate Applies(history: seq<Entry>, expected: Option<Version>) {
    if history == [] then expected.None?
    else expected.Some? && history[|history| - 1].version.etag == expected.value.etag
  }

  /** Equal ETags mean equal bytes. */
  predicate VersionFits(history: seq<Entry>, entry: Entry) {
    && ValidVersion(entry.version)
    && forall i | 0 <= i < |history| :: history[i].version.etag == entry.version.etag ==> history[i].raw == entry.raw
  }

  /** The bytes were recorded before the write, or extend a root that was really seen. */
  predicate Sourced(w: Share, source: Source, raw: Raw) {
    match source
    case Journaled(k) => k < |w.log| && w.log[k].pending.Some? && w.log[k].target == Some(raw)
    case Plain(base) =>
      && ValidBundle(raw.bundle)
      && (if base.None? then raw.bundle.revision == 1
          else base.value in w.history && Succeeds(base.value.raw.bundle, raw.bundle))
  }

  function ExpectedBy(w: Share, source: Source, raw: Raw): Option<Version>
    requires Sourced(w, source, raw)
  {
    match source
    case Journaled(k) => w.log[k].pending.value.expected
    case Plain(base) => if base.None? then None else Some(base.value.version)
  }

  predicate Enabled(w: Share, action: Action) {
    match action
    case Save(next) => Saveable(w.history, w.log, next)
    case Write(source, raw, version) =>
      && Sourced(w, source, raw) && Applies(w.history, ExpectedBy(w, source, raw))
      && VersionFits(w.history, Entry(version, raw))
    case Reseal(nonce, version) =>
      w.history != [] && VersionFits(w.history, Entry(version, Raw(w.history[|w.history| - 1].raw.bundle, nonce)))
  }

  function Apply(w: Share, action: Action): Share {
    match action
    case Save(next) => w.(log := w.log + [next])
    case Write(_, raw, version) => w.(history := w.history + [Entry(version, raw)])
    case Reseal(nonce, version) =>
      if w.history == [] then w
      else w.(history := w.history + [Entry(version, Raw(w.history[|w.history| - 1].raw.bundle, nonce))])
  }

  /** `actions` is a possible interleaving of all publishers, and `w` the state after it. */
  ghost predicate Reaches(actions: seq<Action>, w: Share)
    decreases |actions|, 1
  {
    if actions == [] then w == EMPTY else ReachesByStep(actions, w)
  }

  ghost predicate ReachesByStep(actions: seq<Action>, w: Share)
    requires actions != []
    decreases |actions|, 0
  {
    var last := |actions| - 1;
    exists before :: Reaches(actions[..last], before) && Enabled(before, actions[last])
                     && w == Apply(before, actions[last])
  }

  /** The state before the last action of an interleaving. */
  lemma LastStep(actions: seq<Action>, w: Share) returns (before: Share)
    requires Reaches(actions, w) && actions != []
    ensures Reaches(actions[..|actions| - 1], before)
    ensures Enabled(before, actions[|actions| - 1]) && w == Apply(before, actions[|actions| - 1])
  {
    assert ReachesByStep(actions, w);
    var last := |actions| - 1;
    before :| Reaches(actions[..last], before) && Enabled(before, actions[last]) && w == Apply(before, actions[last]);
  }

  // ------------------------------------------------------------ invariant

  /** The register: revision one first, then the same bundle again or the next revision. */
  ghost predicate Disciplined(history: seq<Entry>) {
    && (history != [] ==> history[0].raw.bundle.revision == 1)
    && (forall i | 0 <= i < |history| :: ValidBundle(history[i].raw.bundle) && ValidVersion(history[i].version))
    && (forall i | 0 < i < |history| :: Follows(history[i - 1].raw.bundle, history[i].raw.bundle))
  }

  ghost predicate VersionsIdentify(history: seq<Entry>) {
    forall i, j | 0 <= i < |history| && 0 <= j < |history| && history[i].version.etag == history[j].version.etag ::
      history[i].raw == history[j].raw
  }

  ghost predicate LogSound(history: seq<Entry>, log: seq<Record>) {
    forall k | 0 <= k < |log| :: ValidRecord(log[k]) && Genuine(history, log[k])
  }

  ghost predicate LogSteps(log: seq<Record>) {
    && (log != [] ==> log[0] == Prepared(log[0].profile) || Step(Prepared(log[0].profile), log[0]))
    && (forall k | 0 < k < |log| :: Step(log[k - 1], log[k]))
  }

  ghost predicate Inv(w: Share) {
    && Disciplined(w.history) && VersionsIdentify(w.history)
    && LogSound(w.history, w.log) && LogSteps(w.log)
  }

  ghost predicate Extends(before: Share, after: Share) {
    && |before.history| <= |after.history|
    && (forall i | 0 <= i < |before.history| :: after.history[i] == before.history[i])
    && |before.log| <= |after.log| && (forall k | 0 <= k < |before.log| :: after.log[k] == before.log[k])
  }

  lemma GenuineStable(before: seq<Entry>, after: seq<Entry>, record: Record)
    requires |before| <= |after| && (forall i | 0 <= i < |before| :: after[i] == before[i])
    requires Genuine(before, record)
    ensures Genuine(after, record)
  {
    if record.committed.Some? {
      HoldsStable(before, after, record.committed.value.version, record.committed.value.logical);
    }
  }

  lemma HoldsStable(before: seq<Entry>, after: seq<Entry>, version: Version, bundle: Bundle)
    requires |before| <= |after| && (forall i | 0 <= i < |before| :: after[i] == before[i])
    requires Holds(before, version, bundle)
    ensures Holds(after, version, bundle)
  {
    var i :| 0 <= i < |before| && before[i].version == version && before[i].raw.bundle == bundle;
    assert after[i].version == version;
  }

  lemma SoundStable(before: seq<Entry>, after: seq<Entry>, log: seq<Record>)
    requires |before| <= |after| && (forall i | 0 <= i < |before| :: after[i] == before[i])
    requires LogSound(before, log)
    ensures LogSound(after, log)
  {
    forall k | 0 <= k < |log|
      ensures ValidRecord(log[k]) && Genuine(after, log[k])
    {
      GenuineStable(before, after, log[k]);
    }
  }

  /** A journaled write that is let through creates revision one or succeeds the current root. */
  lemma JournaledWriteSucceeds(w: Share, k: nat)
    requires Inv(w) && k < |w.log| && w.log[k].pending.Some?
    requires Applies(w.history, w.log[k].pending.value.expected)
    ensures ValidBundle(w.log[k].pending.value.target.bundle)
    ensures if w.history == [] then w.log[k].pending.value.target.bundle.revision == 1
            else Succeeds(w.history[|w.history| - 1].raw.bundle, w.log[k].pending.value.target.bundle)
  {
    assert ValidRecord(w.log[k]) && Genuine(w.history, w.log[k]);
    var pending := w.log[k].pending.value;
    assert ValidPending(w.log[k], pending);
    if w.history != [] {
      var base := Entry(pending.expected.value, pending.base.value);
      var i :| 0 <= i < |w.history| && w.history[i] == base;
      assert w.history[i].version.etag == w.history[|w.history| - 1].version.etag;
    }
  }

  lemma PlainWriteSucceeds(w: Share, base: Entry, raw: Raw)
    requires Inv(w) && base in w.history && Succeeds(base.raw.bundle, raw.bundle)
    requires Applies(w.history, Some(base.version))
    ensures Succeeds(w.history[|w.history| - 1].raw.bundle, raw.bundle)
  {
    var i :| 0 <= i < |w.history| && w.history[i] == base;
    assert w.history[i].version.etag == w.history[|w.history| - 1].version.etag;
  }

  /** What a write may add to the register. */
  lemma WriteSucceeds(w: Share, action: Action)
    requires Inv(w) && Enabled(w, action) && action.Write?
    ensures ValidBundle(action.raw.bundle)
    ensures if w.history == [] then action.raw.bundle.revision == 1
            else Succeeds(w.history[|w.history| - 1].raw.bundle, action.raw.bundle)
  {
    match action.source
    case Journaled(k) =>
      assert ValidRecord(w.log[k]);
      assert ValidPending(w.log[k], w.log[k].pending.value);
      JournaledWriteSucceeds(w, k);
    case Plain(base) =>
      if base.Some? {
        PlainWriteSucceeds(w, base.value, action.raw);
      }
  }

  lemma StepExtends(w: Share, action: Action)
    requires Enabled(w, action)
    ensures Extends(w, Apply(w, action))
  {
  }

  /** Adding a visible root that follows the current one. */
  lemma AppendEntry(w: Share, entry: Entry)
    requires Inv(w) && VersionFits(w.history, entry) && ValidBundle(entry.raw.bundle)
    requires if w.history == [] then entry.raw.bundle.revision == 1
             else Follows(w.history[|w.history| - 1].raw.bundle, entry.raw.bundle)
    ensures Inv(w.(history := w.history + [entry]))
  {
    var after := w.history + [entry];
    forall i | 0 < i < |after|
      ensures Follows(after[i - 1].raw.bundle, after[i].raw.bundle)
    {
      if i < |w.history| {
        assert after[i - 1] == w.history[i - 1] && after[i] == w.history[i];
      }
    }
    assert Disciplined(after) && VersionsIdentify(after);
    SoundStable(w.history, after, w.log);
  }

  lemma AppendRecord(w: Share, next: Record)
    requires Inv(w) && Saveable(w.history, w.log, next)
    ensures Inv(w.(log := w.log + [next]))
  {
    var after := w.log + [next];
    forall k | 0 <= k < |after|
      ensures ValidRecord(after[k]) && Genuine(w.history, after[k])
      ensures 0 < k ==> Step(after[k - 1], after[k])
    {
      if k < |w.log| {
        assert after[k] == w.log[k] && (0 < k ==> after[k - 1] == w.log[k - 1]);
      }
    }
    assert LogSound(w.history, after) && LogSteps(after);
  }

  lemma StepInvariant(w: Share, action: Action)
    requires Inv(w) && Enabled(w, action)
    ensures Inv(Apply(w, action))
  {
    match action
    case Save(next) =>
      AppendRecord(w, next);
    case Write(_, raw, version) =>
      WriteSucceeds(w, action);
      AppendEntry(w, Entry(version, raw));
    case Reseal(nonce, version) =>
      AppendEntry(w, Entry(version, Raw(w.history[|w.history| - 1].raw.bundle, nonce)));
  }

  lemma {:induction false} RunInvariant(actions: seq<Action>, w: Share)
    requires Reaches(actions, w)
    ensures Inv(w)
    decreases |actions|
  {
    if actions != [] {
      var before := LastStep(actions, w);
      RunInvariant(actions[..|actions| - 1], before);
      StepInvariant(before, actions[|actions| - 1]);
    }
  }

  // ------------------------------------------------------------ theorems

  lemma {:induction false} HistoryOrdered(history: seq<Entry>, i: nat, j: nat)
    requires Disciplined(history) && i <= j < |history|
    ensures var a, b := history[i].raw.bundle, history[j].raw.bundle;
            && a.revision <= b.revision && a.generation <= b.generation
            && (a.revision == b.revision ==> a == b)
            && (a.generation == b.generation ==> a.commit == b.commit)
    decreases j
  {
    if i < j {
      HistoryOrdered(history, i, j - 1);
      assert Follows(history[j - 1].raw.bundle, history[j].raw.bundle);
    }
  }

  /**
   Register discipline: in every run the root starts at revision one, every write by either
   path raises the revision by exactly one, and over the whole history revisions and
   generations never go down, one revision has one bundle and one generation one commit.
   */
  lemma RegisterDiscipline(actions: seq<Action>, w: Share, i: nat, j: nat)
    requires Reaches(actions, w) && i <= j < |w.history|
    ensures w.history[0].raw.bundle.revision == 1
    ensures var a, b := w.history[i].raw.bundle, w.history[j].raw.bundle;
            && a.revision <= b.revision && a.generation <= b.generation
            && (a.revision == b.revision ==> a == b)
            && (a.generation == b.generation ==> a.commit == b.commit)
  {
    RunInvariant(actions, w);
    HistoryOrdered(w.history, i, j);
  }

  /** Every write raises the revision by exactly one, and creation gives one. */
  lemma WriteRaisesRevision(actions: seq<Action>, w: Share) returns (before: Share)
    requires Reaches(actions, w) && actions != [] && actions[|actions| - 1].Write?
    ensures Reaches(actions[..|actions| - 1], before) && |w.history| == |before.history| + 1
    ensures w.history[|before.history|].raw.bundle.revision
         == if before.history == [] then 1 else before.history[|before.history| - 1].raw.bundle.revision + 1
  {
    before := LastStep(actions, w);
    RunInvariant(actions[..|actions| - 1], before);
    WriteSucceeds(before, actions[|actions| - 1]);
  }

  /** How a later record stands to an earlier one, however many steps lie between. */
  ghost predicate Later(before: Record, after: Record) {
    && (before.committed.Some? ==> after.committed.Some? && AnchorAdvances(before.committed, after.committed.value))
    && (before.pending.Some? ==>
          if after.committed.Some? && after.committed.value.revision >= before.pending.value.targetRevision then
            after.committed.value.revision == before.pending.value.targetRevision ==>
              after.committed.value.logical == before.pending.value.logical
          else
            after.pending.Some? && SamePending(before.pending.value, after.pending.value))
  }

  lemma StepIsLater(before: Record, after: Record)
    requires ValidRecord(before) && ValidRecord(after) && Step(before, after)
    ensures Later(before, after)
  {
  }

  lemma LaterTransitive(a: Record, b: Record, c: Record)
    requires ValidRecord(a) && ValidRecord(b) && ValidRecord(c) && Later(a, b) && Later(b, c)
    ensures Later(a, c)
  {
  }

  lemma {:induction false} LogOrdered(history: seq<Entry>, log: seq<Record>, i: nat, j: nat)
    requires LogSound(history, log) && LogSteps(log) && i <= j < |log|
    ensures Later(log[i], log[j])
    decreases j
  {
    assert ValidRecord(log[i]) && ValidRecord(log[j]);
    if i < j {
      LogOrdered(history, log, i, j - 1);
      assert ValidRecord(log[j - 1]);
      StepIsLater(log[j - 1], log[j]);
      LaterTransitive(log[i], log[j - 1], log[j]);
    }
  }

  /** One revision, one target: the exact bytes journaled for a revision never change. */
  lemma OneTarget(actions: seq<Action>, w: Share, i: nat, j: nat)
    requires Reaches(actions, w) && i <= j < |w.log|
    requires w.log[i].pending.Some? && w.log[j].pending.Some?
    requires w.log[i].pending.value.targetRevision == w.log[j].pending.value.targetRevision
    ensures w.log[i].target == w.log[j].target
    ensures w.log[i].pending.value.closure == w.log[j].pending.value.closure
  {
    RunInvariant(actions, w);
    assert ValidRecord(w.log[i]) && ValidRecord(w.log[j]);
    LogOrdered(w.history, w.log, i, j);
  }

  /** The highest revision and the committed anchor never regress and never fork. */
  lemma AnchorNeverForks(actions: seq<Action>, w: Share, i: nat, j: nat)
    requires Reaches(actions, w) && i <= j < |w.log|
    ensures w.log[i].highest <= w.log[j].highest
    ensures w.log[i].committed.Some? ==>
              && w.log[j].committed.Some?
              && AnchorAdvances(w.log[i].committed, w.log[j].committed.value)
  {
    RunInvariant(actions, w);
    assert ValidRecord(w.log[i]) && ValidRecord(w.log[j]);
    LogOrdered(w.history, w.log, i, j);
  }

  /** Every durable record satisfies the validator, and its anchor was really the root. */
  lemma RecordsAreGenuine(actions: seq<Action>, w: Share, k: nat)
    requires Reaches(actions, w) && k < |w.log|
    ensures ValidRecord(w.log[k]) && Genuine(w.history, w.log[k])
  {
    RunInvariant(actions, w);
  }
}
