/**
 The disk cache's code. Each method is a critical section under the cache's mutex, so calls
 may come in any order and from anyone; a reader keeps its handle from PinEntry until it
 calls Unpin or DiscardPinned.
 */
module DiskCache {
  import opened Basics
  import opened CacheIndex
  import opened CacheStartup

  class Cache {
    const limits: Limits

    var entries: Entries
    var lru: seq<Digest>
    var totalBytes: int
    var nextId: nat

    ghost var s: State
    ghost var run: seq<Step>
    /** Counts file-system failures. */
    ghost var faults: nat

    ghost predicate Valid()
      reads this
    {
      Reaches(limits, run, s) && entries == s.entries && lru == s.lru && totalBytes == s.total && nextId == s.nextId
    }

    constructor (limits: Limits)
      ensures Valid() && s == EMPTY && this.limits == limits
    {
      this.limits := limits;
      entries, lru, totalBytes, nextId := map[], [], 0, 0;
      s, run, faults := EMPTY, [], 0;
    }

    ghost method Take(step: Step)
      requires Reaches(limits, run, s) && Enabled(limits, s, step)
      modifies this`s, this`run
      ensures Reaches(limits, run, s) && s == Apply(old(s), step)
    {
      s := Apply(s, step);
      run := run + [step];
      assert run[..|run| - 1] == old(run);
      assert ReachesByStep(limits, run, s);
    }

    /**
     Fills a new cache from the chunk files of an earlier process. What is indexed is what
     the bounded selection kept, with the newest file the most recently used.
     */
    method IndexExisting(found: seq<Candidate>)
      requires Valid() && s == EMPTY
      requires DistinctDigests(found)
      modifies this
      ensures Valid() && faults == old(faults) && s.readers == multiset{}
      ensures lru == Recent(Kept(limits, found)) && forall digest :: digest in entries <==> digest in lru
      ensures Sized(entries, Kept(limits, found))
    {
      var kept := SelectNewest(limits, found);
      KeptFits(limits, found);
      KeptDistinct(limits, found);
      var i := |kept|;
      while i > 0
        invariant 0 <= i <= |kept| && Valid() && faults == old(faults) && s.readers == multiset{}
        invariant totalBytes == Total(kept[i..]) && |entries| == |kept| - i
        invariant lru == Recent(kept[i..]) && Sized(entries, kept[i..])
      {
        i := i - 1;
        assert kept[i..][0] == kept[i] && kept[i..][1..] == kept[i + 1..];
        RunInvariant(limits, run, s);
        NotRecent(kept[i + 1..], kept[i].digest);
        RestoreOne(kept, i);
      }
      assert kept[0..] == kept;
      RunInvariant(limits, run, s);
    }

    /** Indexes the next older file, behind the newer ones. */
    method RestoreOne(kept: seq<Candidate>, i: nat)
      requires Valid() && i < |kept| && !Over(limits, kept) && forall c | c in kept :: Usable(limits, c)
      requires totalBytes == Total(kept[i + 1..]) && |entries| == |kept| - i - 1 && kept[i].digest !in entries
      requires Sized(entries, kept[i + 1..])
      modifies this
      ensures Valid() && faults == old(faults) && s.readers == old(s).readers
      ensures totalBytes == Total(kept[i..]) && |entries| == |kept| - i
      ensures lru == old(lru) + [kept[i].digest] && Sized(entries, kept[i..])
    {
      var candidate := kept[i];
      assert candidate in kept;
      TotalSuffix(kept, i);
      assert kept[i..][0] == candidate && kept[i..][1..] == kept[i + 1..];
      Take(Restore(candidate.digest, candidate.size));
      assert entries[candidate.digest := Entry(nextId, candidate.size, 0, false)].Keys
          == entries.Keys + {candidate.digest};
      entries := entries[candidate.digest := Entry(nextId, candidate.size, 0, false)];
      lru := lru + [candidate.digest];
      totalBytes := totalBytes + candidate.size;
      nextId := nextId + 1;
    }

    /** A reader's entry stays indexed and pinned for as long as the reader holds its handle. */
    lemma HandleKnown(handle: Handle)
      requires Valid() && handle in s.readers
      ensures handle.digest in entries && entries[handle.digest].id == handle.id && entries[handle.digest].pins > 0
    {
      RunInvariant(limits, run, s);
    }

    /** The byte total covers every entry, so it never goes below zero. */
    lemma TotalCovers(digest: Digest)
      requires Valid() && digest in entries
      ensures totalBytes >= entries[digest].size
    {
      RunInvariant(limits, run, s);
      SumRemove(entries, digest);
    }

    /** Counts one more reader of an entry and makes it the most recent one. */
    method Touch(digest: Digest)
      requires Valid() && digest in entries && !entries[digest].invalid
      modifies this`entries, this`lru, this`s, this`run
      ensures Valid() && s == Apply(old(s), Pin(digest))
    {
      PinnedState(s, digest);
      Take(Pin(digest));
      entries := Repinned(entries, digest, entries[digest].pins + 1, entries[digest].invalid);
      lru := [digest] + Without(lru, digest);
    }

    /** The locked part of a lookup: a hit pins the entry and makes it the most recent one. */
    method PinEntry(digest: Digest, expectedSize: nat) returns (handle: Option<Handle>)
      requires Valid()
      modifies this`entries, this`lru, this`s, this`run
      ensures Valid()
      ensures handle.Some? <==>
              && digest in old(entries) && !old(entries)[digest].invalid
              && (expectedSize > 0 ==> old(entries)[digest].size == expectedSize)
      ensures handle.Some? ==>
                handle.value == Handle(digest, old(entries)[digest].id) && s == Apply(old(s), Pin(digest))
      ensures handle.None? ==> s == old(s)
    {
      if digest !in entries || entries[digest].invalid || (expectedSize > 0 && entries[digest].size != expectedSize) {
        return None;
      }
      handle := Some(Handle(digest, entries[digest].id));
      Touch(digest);
    }

    /** Deletes an unread chunk; the file system may fail before or after the index changes. */
    method RemoveEntry(digest: Digest) returns (r: Result<()>, ghost dropped: bool)
      requires Valid() && digest in entries
      modifies this`entries, this`lru, this`totalBytes, this`s, this`run, this`faults
      ensures Valid() && faults >= old(faults)
      ensures if dropped then old(entries)[digest].pins == 0 && s == Apply(old(s), Drop(digest)) else s == old(s)
      ensures r.Ok? ==> dropped && faults == old(faults)
      ensures faults == old(faults) ==> (r.Ok? <==> old(entries)[digest].pins == 0)
      ensures r.Err? ==> r.error == Conflict || r.error == Unavailable
    {
      if entries[digest].pins != 0 {
        return Err(Conflict), false;
      }
      var removeFails: bool, syncFails: bool := *, *;
      if removeFails {
        faults := faults + 1;
        return Err(Unavailable), false;
      }
      TotalCovers(digest);
      Take(Drop(digest));
      var left := totalBytes - entries[digest].size;
      totalBytes := if left < 0 then 0 else left;
      entries := entries - {digest};
      lru := Without(lru, digest);
      if syncFails {
        faults := faults + 1;
        return Err(Unavailable), true;
      }
      return Ok(()), true;
    }

    /** A reader that is done; the last reader of a rejected chunk deletes it, as best it can. */
    method Unpin(handle: Handle)
      requires Valid() && handle in s.readers
      modifies this`entries, this`lru, this`totalBytes, this`s, this`run, this`faults
      ensures Valid() && s.readers == old(s).readers - multiset{handle}
      ensures handle.digest in old(entries)
      ensures var released := Apply(old(s), Release(handle, old(entries)[handle.digest].invalid));
              || s == released
              || (old(entries)[handle.digest].invalid && old(entries)[handle.digest].pins == 1
                  && s == Apply(released, Drop(handle.digest)))
    {
      HandleKnown(handle);
      var digest := handle.digest;
      if digest in entries && entries[digest].id == handle.id && entries[digest].pins > 0 {
        var entry := entries[digest];
        Take(Release(handle, entry.invalid));
        entries := Repinned(entries, digest, entry.pins - 1, entry.invalid);
        if entry.invalid && entry.pins == 1 {
          var _, _ := RemoveEntry(digest);
        }
      }
    }

    /** A reader that found the chunk bad: no new reader gets it, the last one deletes it. */
    method DiscardPinned(handle: Handle) returns (r: Result<()>)
      requires Valid() && handle in s.readers
      modifies this`entries, this`lru, this`totalBytes, this`s, this`run, this`faults
      ensures Valid() && s.readers == old(s).readers - multiset{handle} && faults >= old(faults)
      ensures handle.digest in old(entries)
      ensures var released := Apply(old(s), Release(handle, true));
              if old(entries)[handle.digest].pins > 1 then r.Ok? && s == released
              else s == Apply(released, Drop(handle.digest)) || (s == released && faults > old(faults))
      ensures faults == old(faults) ==> r.Ok?
    {
      HandleKnown(handle);
      var digest := handle.digest;
      if digest !in entries || entries[digest].id != handle.id {
        return Ok(());
      }
      var entry := entries[digest];
      Take(Release(handle, true));
      entries := Repinned(entries, digest, entry.pins - 1, true);
      if entry.pins != 1 {
        return Ok(());
      }
      ghost var dropped;
      r, dropped := RemoveEntry(digest);
    }

    /** Walks the list from its back to the first chunk that nobody reads. */
    method FindVictim() returns (victim: Option<Digest>)
      ensures match VictimAt(entries, lru)
              case None => victim.None?
              case Some(at) => victim == Some(lru[at])
    {
      var k := |lru|;
      assert lru[..k] == lru;
      while k > 0
        invariant 0 <= k <= |lru| && VictimAt(entries, lru) == VictimAt(entries, lru[..k])
      {
        assert lru[..k][..k - 1] == lru[..k - 1];
        if lru[k - 1] in entries && entries[lru[k - 1]].pins == 0 {
          return Some(lru[k - 1]);
        }
        k := k - 1;
      }
      return None;
    }

    lemma AllRead()
      requires Valid() && VictimAt(entries, lru).None?
      ensures forall digest | digest in entries :: entries[digest].pins != 0
    {
      RunInvariant(limits, run, s);
      forall digest | digest in entries
        ensures entries[digest].pins != 0
      {
        var i :| 0 <= i < |lru| && lru[i] == digest;
      }
    }

    /** Evicting the victim is one step of the eviction order. */
    lemma VictimStep(before: Entries, order: seq<Digest>, n: nat, at: nat)
      requires Valid() && OnlyUnread(before, entries) && lru == Evicted(before, order, n)
               && VictimAt(entries, lru) == Some(at)
      ensures Without(lru, lru[at]) == Evicted(before, order, n + 1)
      ensures OnlyUnread(before, entries - {lru[at]})
    {
      RunInvariant(limits, run, s);
      EvictedNext(entries, lru, before, order, n, at);
      OnlyUnreadRemove(before, entries, lru[at]);
    }

    /** The eviction loop goes on only while there is no room among what is left. */
    lemma StillCrowded(before: Entries, size: nat)
      requires Valid() && OnlyUnread(before, entries)
      requires totalBytes > limits.bytes - size || |entries| >= limits.entries
      ensures Crowded(limits, before, lru, size)
    {
      RunInvariant(limits, run, s);
      ListIsAll(entries, lru);
      SameOnList(entries, lru, before);
      ListBytesSame(entries, before, lru);
    }

    /** Evicts the least recently used chunk that nobody reads; false when all are read. */
    method EvictOne(ghost before: Entries, ghost order: seq<Digest>, ghost n: nat, ghost size: nat)
      returns (r: Result<bool>, ghost evictions: nat)
      requires Valid() && OnlyUnread(before, entries) && lru == Evicted(before, order, n)
      requires AllNeeded(limits, before, order, n, size)
      requires totalBytes > limits.bytes - size || |entries| >= limits.entries
      modifies this`entries, this`lru, this`totalBytes, this`s, this`run, this`faults
      ensures Valid() && s.readers == old(s).readers && s.nextId == old(s).nextId && faults >= old(faults)
      ensures OnlyUnread(before, entries) && lru == Evicted(before, order, evictions)
      ensures r.Ok? ==> faults == old(faults)
      ensures AllNeeded(limits, before, order, evictions, size)
      ensures r.Ok? && r.value ==> |entries| < |old(entries)|
      ensures r.Ok? && !r.value ==> forall digest | digest in entries :: entries[digest].pins != 0
      ensures r.Err? ==> faults > old(faults) && r.error != CorruptObject
    {
      evictions := n;
      StillCrowded(before, size);
      var victim := FindVictim();
      if victim.None? {
        AllRead();
        return Ok(false), evictions;
      }
      VictimStep(before, order, n, VictimAt(entries, lru).value);
      RemoveShrinks(entries, victim.value);
      var removed, dropped := RemoveEntry(victim.value);
      evictions := if dropped then n + 1 else n;
      if removed.Err? {
        return Err(removed.error), evictions;
      }
      return Ok(true), evictions;
    }

    /**
     Evicts chunks, least recently used first, until one more of this size fits. It gives up
     without an error only when every chunk left is being read.
     */
    method MakeRoom(size: nat) returns (r: Result<bool>, ghost evictions: nat)
      requires Valid()
      modifies this`entries, this`lru, this`totalBytes, this`s, this`run, this`faults
      ensures Valid() && s.readers == old(s).readers && s.nextId == old(s).nextId && faults >= old(faults)
      ensures OnlyUnread(old(entries), entries) && lru == Evicted(old(entries), old(lru), evictions)
      ensures AllNeeded(limits, old(entries), old(lru), evictions, size)
      ensures r.Ok? && r.value ==> totalBytes + size <= limits.bytes && |entries| < limits.entries
      ensures r.Ok? && !r.value ==> forall digest | digest in entries :: entries[digest].pins != 0
      ensures r.Err? <==> faults > old(faults)
      ensures r.Err? ==> r.error != CorruptObject
      ensures old(totalBytes) + size <= limits.bytes && |old(entries)| < limits.entries ==>
                r.Ok? && r.value && s == old(s)
    {
      evictions := 0;
      while totalBytes > limits.bytes - size || |entries| >= limits.entries
        invariant Valid() && s.readers == old(s).readers && s.nextId == old(s).nextId && faults == old(faults)
        invariant OnlyUnread(old(entries), entries) && lru == Evicted(old(entries), old(lru), evictions)
        invariant old(totalBytes) + size <= limits.bytes && |old(entries)| < limits.entries ==> s == old(s)
        invariant AllNeeded(limits, old(entries), old(lru), evictions, size)
        decreases |entries|
      {
        var room;
        room, evictions := EvictOne(old(entries), old(lru), evictions, size);
        if room.Err? || !room.value {
          return room, evictions;
        }
      }
      return Ok(true), evictions;
    }

    /** Indexes a chunk whose file is in place. */
    method Add(digest: Digest, size: nat)
      requires Valid() && Enabled(limits, s, Insert(digest, size))
      modifies this`entries, this`lru, this`totalBytes, this`nextId, this`s, this`run
      ensures Valid() && s == Apply(old(s), Insert(digest, size))
    {
      Take(Insert(digest, size));
      entries := entries[digest := Entry(nextId, size, 0, false)];
      lru := [digest] + lru;
      totalBytes := totalBytes + size;
      nextId := nextId + 1;
    }

    /**
     The locked part of a store. Chunks that are being read are never touched; a chunk that
     cannot be placed is silently not cached.
     */
    method Put(digest: Digest, size: nat, genuine: bool) returns (r: Result<()>)
      requires Valid()
      modifies this
      ensures Valid() && s.readers == old(s).readers && faults >= old(faults)
      ensures forall d | d in old(entries) && old(entries)[d].pins != 0 :: d in entries && entries[d] == old(entries)[d]
      ensures forall d | d in entries && d != digest :: d in old(entries) && entries[d] == old(entries)[d]
      ensures r == Err(CorruptObject) <==> 0 < size <= limits.chunkBytes && size <= limits.bytes && !genuine
      ensures faults == old(faults) && r.Ok? && 0 < size <= limits.chunkBytes && size <= limits.bytes ==>
                || (digest in old(entries) && old(entries)[digest].pins != 0 && s == old(s))
                || (digest in entries && entries[digest] == Entry(old(nextId), size, 0, false) && lru != []
                    && lru[0] == digest)
                || (digest !in entries && forall d | d in entries :: entries[d].pins != 0)
      ensures r.Err? && r.error != CorruptObject ==> faults > old(faults)
    {
      if size < 1 || size > limits.chunkBytes || size > limits.bytes {
        return Ok(());
      }
      if !genuine {
        return Err(CorruptObject);
      }
      if digest in entries {
        if entries[digest].pins != 0 {
          return Ok(());
        }
        var removed, _ := RemoveEntry(digest);
        if removed.Err? {
          return Err(removed.error);
        }
      }
      var room, _ := MakeRoom(size);
      if room.Err? {
        return Err(room.error);
      }
      if !room.value {
        return Ok(());
      }
      var installFails: bool := *;
      if installFails {
        faults := faults + 1;
        return Err(Unavailable);
      }
      Add(digest, size);
      return Ok(());
    }
  }
}
