/**
 The in-memory index of the bounded chunk cache as a state machine over the changes made
 under the cache's mutex. A run is any interleaving of readers and writers.
 */
module CacheIndex {
  import opened Basics

  /** One cached chunk. `id` tells an entry from a later one for the same digest. */
  datatype Entry = Entry(id: nat, size: nat, pins: nat, invalid: bool)

  type Entries = map<Digest, Entry>

  datatype Handle = Handle(digest: Digest, id: nat)

  // ------------------------------------------------------------ totals

  ghost function Sum(entries: Entries): nat {
    if entries == map[] then 0
    else
      var digest :| digest in entries;
      entries[digest].size + Sum(entries - {digest})
  }

  lemma {:induction false} SumRemove(entries: Entries, digest: Digest)
    requires digest in entries
    ensures Sum(entries) == entries[digest].size + Sum(entries - {digest})
    decreases |entries|
  {
    var first :| first in entries && Sum(entries) == entries[first].size + Sum(entries - {first});
    if first != digest {
      SumRemove(entries - {first}, digest);
      SumRemove(entries - {digest}, first);
      assert (entries - {first}) - {digest} == (entries - {digest}) - {first};
    }
  }

  lemma RemoveShrinks(entries: Entries, digest: Digest)
    requires digest in entries
    ensures |entries - {digest}| < |entries|
  {
    assert (entries - {digest}).Keys == entries.Keys - {digest};
  }

  lemma SumAdd(entries: Entries, digest: Digest, entry: Entry)
    requires digest !in entries
    ensures Sum(entries[digest := entry]) == Sum(entries) + entry.size
  {
    SumRemove(entries[digest := entry], digest);
    assert entries[digest := entry] - {digest} == entries;
  }

  lemma SumUpdate(entries: Entries, digest: Digest, entry: Entry)
    requires digest in entries && entry.size == entries[digest].size
    ensures Sum(entries[digest := entry]) == Sum(entries)
  {
    SumRemove(entries, digest);
    SumRemove(entries[digest := entry], digest);
    assert entries[digest := entry] - {digest} == entries - {digest};
  }

  // ------------------------------------------------------------ recency order

  /** The list and the map hold the same chunks, each once. */
  ghost predicate Indexed(entries: Entries, lru: seq<Digest>) {
    Distinct(lru) && forall digest :: digest in lru <==> digest in entries
  }

  function Without(lru: seq<Digest>, digest: Digest): seq<Digest> {
    if lru == [] then []
    else if lru[0] == digest then lru[1..]
    else [lru[0]] + Without(lru[1..], digest)
  }

  lemma {:induction false} WithoutIndexed(lru: seq<Digest>, digest: Digest)
    requires Distinct(lru)
    ensures Distinct(Without(lru, digest))
    ensures forall d :: d in Without(lru, digest) <==> d in lru && d != digest
  {
    if lru != [] {
      WithoutIndexed(lru[1..], digest);
      assert lru == [lru[0]] + lru[1..];
      assert lru[0] !in lru[1..];
    }
  }

  lemma {:induction false} WithoutAt(lru: seq<Digest>, k: nat)
    requires k < |lru| && Distinct(lru)
    ensures Without(lru, lru[k]) == lru[..k] + lru[k + 1..]
  {
    if k > 0 {
      WithoutAt(lru[1..], k - 1);
      assert lru[1..][..k - 1] == lru[1..k] && lru[1..][k..] == lru[k + 1..];
      assert [lru[0]] + lru[1..k] == lru[..k];
    }
  }

  /** The position of the least recently used chunk that nobody reads; None if all are read. */
  ghost function VictimAt(entries: Entries, lru: seq<Digest>): (at: Option<nat>)
    ensures at.Some? ==> at.value < |lru| && lru[at.value] in entries && entries[lru[at.value]].pins == 0
    ensures at.Some? ==> forall i | at.value < i < |lru| :: lru[i] in entries ==> entries[lru[i]].pins != 0
    ensures at.None? ==> forall i | 0 <= i < |lru| :: lru[i] in entries ==> entries[lru[i]].pins != 0
  {
    if lru == [] then None
    else
      var last := |lru| - 1;
      if lru[last] in entries && entries[lru[last]].pins == 0 then Some(last) else VictimAt(entries, lru[..last])
  }

  lemma SameOnList(entries: Entries, lru: seq<Digest>, before: Entries)
    requires Indexed(entries, lru) && OnlyUnread(before, entries)
    ensures forall i | 0 <= i < |lru| :: lru[i] in entries && lru[i] in before && entries[lru[i]] == before[lru[i]]
  {
    forall i | 0 <= i < |lru| ensures lru[i] in entries && lru[i] in before && entries[lru[i]] == before[lru[i]] {
      assert lru[i] in lru;
    }
  }

  lemma {:induction false} VictimSame(entries: Entries, before: Entries, lru: seq<Digest>)
    requires forall i | 0 <= i < |lru| :: lru[i] in entries && lru[i] in before && entries[lru[i]] == before[lru[i]]
    ensures VictimAt(entries, lru) == VictimAt(before, lru)
  {
    if lru != [] {
      VictimSame(entries, before, lru[..|lru| - 1]);
    }
  }

  /** Eviction order: `n` times the least recently used chunk that nobody reads. */
  ghost function Evicted(entries: Entries, lru: seq<Digest>, n: nat): seq<Digest> {
    if n == 0 then lru
    else
      var before := Evicted(entries, lru, n - 1);
      match VictimAt(entries, before)
      case None => before
      case Some(at) => before[..at] + before[at + 1..]
  }

  /** `after` is `before` without some chunks that nobody reads. */
  ghost predicate OnlyUnread(before: Entries, after: Entries) {
    && (forall digest | digest in after :: digest in before && after[digest] == before[digest])
    && (forall digest | digest in before && before[digest].pins != 0 :: digest in after)
  }

  /** The bytes of the listed chunks. */
  ghost function ListBytes(entries: Entries, lru: seq<Digest>): nat {
    if lru == [] then 0
    else
      var last := |lru| - 1;
      (if lru[last] in entries then entries[lru[last]].size else 0) + ListBytes(entries, lru[..last])
  }

  lemma {:induction false} ListBytesSame(entries: Entries, before: Entries, lru: seq<Digest>)
    requires forall i | 0 <= i < |lru| :: lru[i] in entries && lru[i] in before && entries[lru[i]] == before[lru[i]]
    ensures ListBytes(entries, lru) == ListBytes(before, lru)
  {
    if lru != [] {
      ListBytesSame(entries, before, lru[..|lru| - 1]);
    }
  }

  lemma IndexedFront(entries: Entries, lru: seq<Digest>)
    requires Indexed(entries, lru) && lru != []
    ensures Indexed(entries - {lru[|lru| - 1]}, lru[..|lru| - 1])
  {
    var last := |lru| - 1;
    forall digest ensures digest in lru[..last] <==> digest in entries - {lru[last]} {
      assert lru == lru[..last] + [lru[last]];
    }
  }

  /** The list accounts for every indexed chunk once. */
  lemma {:induction false} ListIsAll(entries: Entries, lru: seq<Digest>)
    requires Indexed(entries, lru)
    ensures ListBytes(entries, lru) == Sum(entries) && |lru| == |entries|
    decreases |lru|
  {
    if lru == [] {
      assert entries == map[];
    } else {
      var last := |lru| - 1;
      var rest := entries - {lru[last]};
      assert lru[last] in lru;
      IndexedFront(entries, lru);
      ListIsAll(rest, lru[..last]);
      ListBytesSame(rest, entries, lru[..last]);
      SumRemove(entries, lru[last]);
      assert rest.Keys == entries.Keys - {lru[last]};
    }
  }

  /** With these chunks kept, one more of this size does not fit. */
  ghost predicate Crowded(limits: Limits, entries: Entries, lru: seq<Digest>, size: nat) {
    ListBytes(entries, lru) + size > limits.bytes || |lru| >= limits.entries
  }

  /** One eviction fewer would not have made room. */
  ghost predicate AllNeeded(limits: Limits, entries: Entries, lru: seq<Digest>, evictions: nat, size: nat) {
    evictions > 0 ==> Crowded(limits, entries, Evicted(entries, lru, evictions - 1), size)
  }

  /** Evicting the victim is one step of the eviction order. */
  lemma EvictedNext(entries: Entries, lru: seq<Digest>, before: Entries, order: seq<Digest>, n: nat, at: nat)
    requires Indexed(entries, lru) && OnlyUnread(before, entries)
    requires lru == Evicted(before, order, n) && VictimAt(entries, lru) == Some(at)
    ensures Without(lru, lru[at]) == Evicted(before, order, n + 1)
  {
    SameOnList(entries, lru, before);
    VictimSame(entries, before, lru);
    WithoutAt(lru, at);
  }

  lemma OnlyUnreadRemove(before: Entries, entries: Entries, digest: Digest)
    requires OnlyUnread(before, entries) && digest in entries && entries[digest].pins == 0
    ensures OnlyUnread(before, entries - {digest})
  {
  }

  // ------------------------------------------------------------ the state machine

  datatype Limits = Limits(bytes: nat, chunkBytes: nat, entries: nat)

  /** `readers` has one handle for every reader that has pinned an entry and not come back. */
  datatype State = State(entries: Entries, lru: seq<Digest>, total: int, nextId: nat, readers: multiset<Handle>)

  const EMPTY := State(map[], [], 0, 0, multiset{})

  datatype Step =
    | Pin(digest: Digest)
    | Release(handle: Handle, invalid: bool)
    | Drop(digest: Digest)
    | Insert(digest: Digest, size: nat)
    | Restore(digest: Digest, size: nat)

  ghost predicate Enabled(limits: Limits, s: State, step: Step) {
    match step
    case Pin(digest) => digest in s.entries
    case Release(handle, _) => handle in s.readers
    case Drop(digest) => digest in s.entries && s.entries[digest].pins == 0
    case Insert(digest, size) => Fits(limits, s, digest, size)
    case Restore(digest, size) => Fits(limits, s, digest, size)
  }

  ghost predicate Fits(limits: Limits, s: State, digest: Digest, size: nat) {
    && digest !in s.entries && 0 < size <= limits.chunkBytes
    && s.total + size <= limits.bytes && |s.entries| < limits.entries
  }

  function Repinned(entries: Entries, digest: Digest, pins: nat, invalid: bool): Entries
    requires digest in entries
  {
    entries[digest := entries[digest].(pins := pins, invalid := invalid)]
  }

  ghost function Apply(s: State, step: Step): State {
    match step
    case Pin(digest) =>
      if digest !in s.entries then s
      else
        var entry := s.entries[digest];
        s.(entries := Repinned(s.entries, digest, entry.pins + 1, entry.invalid),
        lru := [digest] + Without(s.lru, digest),
        readers := s.readers + multiset{Handle(digest, entry.id)})
    case Release(handle, invalid) =>
      if handle.digest !in s.entries || s.entries[handle.digest].pins == 0 then s
      else
        s.(entries := Repinned(s.entries, handle.digest, s.entries[handle.digest].pins - 1, invalid),
        readers := s.readers - multiset{handle})
    case Drop(digest) =>
      if digest !in s.entries then s
      else s.(entries := s.entries - {digest}, lru := Without(s.lru, digest), total := s.total - s.entries[digest].size)
    case Insert(digest, size) => Added(s, digest, size, [digest] + s.lru)
    case Restore(digest, size) => Added(s, digest, size, s.lru + [digest])
  }

  ghost function Added(s: State, digest: Digest, size: nat, lru: seq<Digest>): State {
    s.(entries := s.entries[digest := Entry(s.nextId, size, 0, false)], lru := lru,
    total := s.total + size, nextId := s.nextId + 1)
  }

  lemma PinnedState(s: State, digest: Digest)
    requires digest in s.entries
    ensures var entry := s.entries[digest];
            var after := Apply(s, Pin(digest));
            && after.entries == Repinned(s.entries, digest, entry.pins + 1, entry.invalid)
            && after.lru == [digest] + Without(s.lru, digest)
            && after.total == s.total && after.nextId == s.nextId
  {
  }

  ghost predicate Reaches(limits: Limits, run: seq<Step>, s: State)
    decreases |run|, 1
  {
    if run == [] then s == EMPTY else ReachesByStep(limits, run, s)
  }

  ghost predicate ReachesByStep(limits: Limits, run: seq<Step>, s: State)
    requires run != []
    decreases |run|, 0
  {
    var last := |run| - 1;
    exists before :: Reaches(limits, run[..last], before) && Enabled(limits, before, run[last])
                     && s == Apply(before, run[last])
  }

  // ------------------------------------------------------------ what every run keeps

  ghost predicate WithinLimits(limits: Limits, s: State) {
    && s.total == Sum(s.entries) <= limits.bytes && |s.entries| <= limits.entries
    && (forall digest | digest in s.entries :: 0 < s.entries[digest].size <= limits.chunkBytes
                                               && s.entries[digest].id < s.nextId)
  }

  /** Every entry is pinned once per outstanding handle, and every handle has its entry. */
  ghost predicate PinsMatch(s: State) {
    && (forall digest | digest in s.entries ::
          s.entries[digest].pins == s.readers[Handle(digest, s.entries[digest].id)])
    && (forall handle | handle in s.readers :: handle.digest in s.entries && s.entries[handle.digest].id == handle.id)
  }

  ghost predicate Inv(limits: Limits, s: State) {
    Indexed(s.entries, s.lru) && WithinLimits(limits, s) && PinsMatch(s)
  }

  lemma IndexedStep(limits: Limits, s: State, step: Step)
    requires Indexed(s.entries, s.lru) && Enabled(limits, s, step)
    ensures var after := Apply(s, step); Indexed(after.entries, after.lru)
  {
    if step.Pin? || step.Drop? {
      WithoutIndexed(s.lru, step.digest);
    }
  }

  lemma LimitsRepin(limits: Limits, s: State, digest: Digest, pins: nat, invalid: bool)
    requires WithinLimits(limits, s) && digest in s.entries
    ensures WithinLimits(limits, s.(entries := Repinned(s.entries, digest, pins, invalid)))
  {
    var after := Repinned(s.entries, digest, pins, invalid);
    SumUpdate(s.entries, digest, after[digest]);
    assert after.Keys == s.entries.Keys;
  }

  lemma LimitsDrop(limits: Limits, s: State, digest: Digest)
    requires WithinLimits(limits, s) && digest in s.entries
    ensures WithinLimits(limits, s.(entries := s.entries - {digest}, total := s.total - s.entries[digest].size))
  {
    SumRemove(s.entries, digest);
    RemoveShrinks(s.entries, digest);
  }

  lemma LimitsAdd(limits: Limits, s: State, digest: Digest, size: nat, lru: seq<Digest>)
    requires WithinLimits(limits, s) && Fits(limits, s, digest, size)
    ensures WithinLimits(limits, Added(s, digest, size, lru))
  {
    SumAdd(s.entries, digest, Entry(s.nextId, size, 0, false));
    assert s.entries[digest := Entry(s.nextId, size, 0, false)].Keys == s.entries.Keys + {digest};
  }

  lemma LimitsStep(limits: Limits, s: State, step: Step)
    requires WithinLimits(limits, s) && Enabled(limits, s, step)
    ensures WithinLimits(limits, Apply(s, step))
  {
    match step
    case Pin(digest) => LimitsRepin(limits, s, digest, s.entries[digest].pins + 1, s.entries[digest].invalid);
    case Release(handle, invalid) =>
      if handle.digest in s.entries && s.entries[handle.digest].pins > 0 {
        LimitsRepin(limits, s, handle.digest, s.entries[handle.digest].pins - 1, invalid);
      }
    case Drop(digest) => LimitsDrop(limits, s, digest);
    case Insert(digest, size) => LimitsAdd(limits, s, digest, size, [digest] + s.lru);
    case Restore(digest, size) => LimitsAdd(limits, s, digest, size, s.lru + [digest]);
  }

  lemma PinsPin(s: State, digest: Digest)
    requires PinsMatch(s) && digest in s.entries
    ensures PinsMatch(Apply(s, Pin(digest)))
  {
  }

  lemma PinsRelease(s: State, handle: Handle, invalid: bool)
    requires PinsMatch(s) && handle in s.readers
    ensures PinsMatch(Apply(s, Release(handle, invalid)))
  {
  }

  lemma PinsDrop(s: State, digest: Digest)
    requires PinsMatch(s) && digest in s.entries && s.entries[digest].pins == 0
    ensures PinsMatch(Apply(s, Drop(digest)))
  {
    forall handle | handle in s.readers
      ensures handle.digest != digest
    {
      assert s.readers[Handle(digest, s.entries[digest].id)] == 0;
    }
  }

  lemma PinsAdd(limits: Limits, s: State, digest: Digest, size: nat, lru: seq<Digest>)
    requires PinsMatch(s) && WithinLimits(limits, s) && digest !in s.entries
    ensures PinsMatch(Added(s, digest, size, lru))
  {
    assert Handle(digest, s.nextId) !in s.readers;
  }

  lemma StepInvariant(limits: Limits, s: State, step: Step)
    requires Inv(limits, s) && Enabled(limits, s, step)
    ensures Inv(limits, Apply(s, step))
  {
    IndexedStep(limits, s, step);
    LimitsStep(limits, s, step);
    match step
    case Pin(digest) => PinsPin(s, digest);
    case Release(handle, invalid) => PinsRelease(s, handle, invalid);
    case Drop(digest) => PinsDrop(s, digest);
    case Insert(digest, size) => PinsAdd(limits, s, digest, size, [digest] + s.lru);
    case Restore(digest, size) => PinsAdd(limits, s, digest, size, s.lru + [digest]);
  }

  /**
   In every interleaving the list and the map hold the same chunks, the byte total is the
   sum of their sizes and within the limit, every pin is an outstanding reader, and a chunk
   that is being read is still indexed.
   */
  lemma {:induction false} RunInvariant(limits: Limits, run: seq<Step>, s: State)
    requires Reaches(limits, run, s)
    ensures Inv(limits, s)
    decreases |run|
  {
    if run != [] {
      var last := |run| - 1;
      assert ReachesByStep(limits, run, s);
      var before :| Reaches(limits, run[..last], before) && Enabled(limits, before, run[last])
                    && s == Apply(before, run[last]);
      RunInvariant(limits, run[..last], before);
      StepInvariant(limits, before, run[last]);
    } else {
      assert Sum(map[]) == 0;
    }
  }
}
