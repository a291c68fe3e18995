/**
 Startup of the disk cache: which of the chunk files left by an earlier process are kept
 when there may be more than the limits allow. The files are seen in directory order, one
 at a time, and only as many as fit are ever held.
 */
module CacheStartup {
  import opened Basics
  import opened CacheIndex

  datatype Candidate = Candidate(digest: Digest, size: int, modified: int)

  predicate Older(a: Candidate, b: Candidate) {
    a.modified < b.modified || (a.modified == b.modified && a.digest.id < b.digest.id)
  }

  predicate Usable(limits: Limits, c: Candidate) {
    1 <= c.size <= limits.chunkBytes && c.size <= limits.bytes
  }

  function Total(candidates: seq<Candidate>): int {
    if candidates == [] then 0 else candidates[0].size + Total(candidates[1..])
  }

  predicate Over(limits: Limits, heap: seq<Candidate>) {
    |heap| > limits.entries || Total(heap) > limits.bytes
  }

  /** The priority queue, oldest first. */
  function Push(heap: seq<Candidate>, c: Candidate): seq<Candidate> {
    if heap == [] || Older(c, heap[0]) then [c] + heap else [heap[0]] + Push(heap[1..], c)
  }

  /** Drops the oldest until the rest is within the limits. */
  function Trim(limits: Limits, heap: seq<Candidate>): seq<Candidate> {
    if Over(limits, heap) && heap != [] then Trim(limits, heap[1..]) else heap
  }

  /** What is held after these files were seen, oldest first. */
  function Kept(limits: Limits, found: seq<Candidate>): seq<Candidate> {
    if found == [] then []
    else
      var last := |found| - 1;
      var before := Kept(limits, found[..last]);
      if Usable(limits, found[last]) then Trim(limits, Push(before, found[last])) else before
  }

  /** The code: one pass with a bounded queue and a running total. */
  method SelectNewest(limits: Limits, found: seq<Candidate>) returns (kept: seq<Candidate>)
    ensures kept == Kept(limits, found)
  {
    kept := [];
    var total := 0;
    for i := 0 to |found|
      invariant kept == Kept(limits, found[..i]) && total == Total(kept)
    {
      assert found[..i + 1][..i] == found[..i];
      if Usable(limits, found[i]) {
        PushTotal(kept, found[i]);
        kept := Push(kept, found[i]);
        total := total + found[i].size;
        ghost var pushed := kept;
        while |kept| > limits.entries || total > limits.bytes
          invariant total == Total(kept) && Trim(limits, kept) == Trim(limits, pushed)
          decreases |kept|
        {
          var oldest := kept[0];
          kept := kept[1..];
          total := total - oldest.size;
        }
      }
    }
    assert found[..|found|] == found;
  }

  // ------------------------------------------------------------ the queue

  ghost predicate Sorted(heap: seq<Candidate>) {
    forall i, j | 0 <= i < j < |heap| :: !Older(heap[j], heap[i])
  }

  lemma {:induction false} PushTotal(heap: seq<Candidate>, c: Candidate)
    ensures Total(Push(heap, c)) == Total(heap) + c.size
  {
    if heap != [] && !Older(c, heap[0]) {
      PushTotal(heap[1..], c);
    }
  }

  lemma {:induction false} PushElements(heap: seq<Candidate>, c: Candidate)
    ensures |Push(heap, c)| == |heap| + 1
    ensures forall x :: x in Push(heap, c) <==> x in heap || x == c
  {
    if heap != [] && !Older(c, heap[0]) {
      PushElements(heap[1..], c);
      assert heap == [heap[0]] + heap[1..];
    }
  }

  lemma {:induction false} PushSorted(heap: seq<Candidate>, c: Candidate)
    requires Sorted(heap)
    ensures Sorted(Push(heap, c))
  {
    if heap != [] && !Older(c, heap[0]) {
      PushSorted(heap[1..], c);
      PushElements(heap[1..], c);
      var rest := Push(heap[1..], c);
      forall k | 0 <= k < |rest| ensures !Older(rest[k], heap[0]) {
        assert rest[k] in rest;
      }
    }
  }

  lemma {:induction false} TrimSuffix(limits: Limits, heap: seq<Candidate>)
    ensures !Over(limits, Trim(limits, heap))
    ensures |Trim(limits, heap)| <= |heap| && Trim(limits, heap) == heap[|heap| - |Trim(limits, heap)|..]
  {
    if Over(limits, heap) && heap != [] {
      TrimSuffix(limits, heap[1..]);
    }
  }

  lemma {:induction false} TotalSuffix(kept: seq<Candidate>, i: nat)
    requires i <= |kept| && forall c | c in kept :: c.size >= 0
    ensures Total(kept[i..]) <= Total(kept)
    decreases i
  {
    if i > 0 {
      TotalSuffix(kept, i - 1);
      assert kept[i - 1..][1..] == kept[i..];
    } else {
      assert kept[0..] == kept;
    }
  }

  // ------------------------------------------------------------ what is kept

  lemma {:induction false} KeptFits(limits: Limits, found: seq<Candidate>)
    ensures !Over(limits, Kept(limits, found)) && Sorted(Kept(limits, found))
    ensures forall c | c in Kept(limits, found) :: c in found && Usable(limits, c)
  {
    if found != [] {
      var last := |found| - 1;
      KeptFits(limits, found[..last]);
      var before := Kept(limits, found[..last]);
      PushSorted(before, found[last]);
      PushElements(before, found[last]);
      TrimSuffix(limits, Push(before, found[last]));
    }
  }

  ghost predicate DistinctDigests(candidates: seq<Candidate>) {
    forall i, j | 0 <= i < j < |candidates| :: candidates[i].digest != candidates[j].digest
  }

  lemma {:induction false} PushDistinct(heap: seq<Candidate>, c: Candidate)
    requires DistinctDigests(heap) && forall x | x in heap :: x.digest != c.digest
    ensures DistinctDigests(Push(heap, c))
  {
    if heap != [] && !Older(c, heap[0]) {
      PushDistinct(heap[1..], c);
      PushElements(heap[1..], c);
      var rest := Push(heap[1..], c);
      forall k | 0 <= k < |rest| ensures rest[k].digest != heap[0].digest {
        assert rest[k] in rest;
      }
    }
  }

  /** The files' digests, newest first. */
  function Recent(kept: seq<Candidate>): seq<Digest> {
    if kept == [] then [] else Recent(kept[1..]) + [kept[0].digest]
  }

  ghost predicate Sized(entries: Entries, kept: seq<Candidate>) {
    forall c | c in kept :: c.digest in entries && entries[c.digest].size == c.size && entries[c.digest].pins == 0
  }

  lemma {:induction false} NotRecent(kept: seq<Candidate>, digest: Digest)
    requires forall k | 0 <= k < |kept| :: kept[k].digest != digest
    ensures digest !in Recent(kept)
  {
    if kept != [] {
      NotRecent(kept[1..], digest);
    }
  }

  lemma {:induction false} KeptDistinct(limits: Limits, found: seq<Candidate>)
    requires DistinctDigests(found)
    ensures DistinctDigests(Kept(limits, found))
  {
    if found != [] {
      var last := |found| - 1;
      KeptDistinct(limits, found[..last]);
      KeptFits(limits, found[..last]);
      var before := Kept(limits, found[..last]);
      forall x | x in before ensures x.digest != found[last].digest {
        assert x in found[..last];
      }
      PushDistinct(before, found[last]);
      TrimSuffix(limits, Push(before, found[last]));
    }
  }

  /** Bytes and number of the usable files that are at least as new as `x`. */
  function BytesFrom(limits: Limits, candidates: seq<Candidate>, x: Candidate): nat {
    if candidates == [] then 0
    else
      (if Usable(limits, candidates[0]) && !Older(candidates[0], x) then candidates[0].size else 0)
      + BytesFrom(limits, candidates[1..], x)
  }

  function CountFrom(limits: Limits, candidates: seq<Candidate>, x: Candidate): nat {
    if candidates == [] then 0
    else
      (if Usable(limits, candidates[0]) && !Older(candidates[0], x) then 1 else 0)
      + CountFrom(limits, candidates[1..], x)
  }

  /** `x` and everything at least as new as it fits. */
  predicate NewestFit(limits: Limits, found: seq<Candidate>, x: Candidate) {
    BytesFrom(limits, found, x) <= limits.bytes && CountFrom(limits, found, x) <= limits.entries
  }

  lemma {:induction false} FromAppend(limits: Limits, before: seq<Candidate>, c: Candidate, x: Candidate)
    ensures BytesFrom(limits, before + [c], x)
         == BytesFrom(limits, before, x) + if Usable(limits, c) && !Older(c, x) then c.size else 0
    ensures CountFrom(limits, before + [c], x)
         == CountFrom(limits, before, x) + if Usable(limits, c) && !Older(c, x) then 1 else 0
  {
    if before == [] {
      assert before + [c] == [c];
    } else {
      FromAppend(limits, before[1..], c, x);
      assert (before + [c])[1..] == before[1..] + [c];
    }
  }

  lemma {:induction false} FromPush(limits: Limits, heap: seq<Candidate>, c: Candidate, x: Candidate)
    ensures BytesFrom(limits, Push(heap, c), x)
         == BytesFrom(limits, heap, x) + if Usable(limits, c) && !Older(c, x) then c.size else 0
    ensures CountFrom(limits, Push(heap, c), x)
         == CountFrom(limits, heap, x) + if Usable(limits, c) && !Older(c, x) then 1 else 0
  {
    if heap != [] && !Older(c, heap[0]) {
      FromPush(limits, heap[1..], c, x);
    } else {
      assert ([c] + heap)[1..] == heap;
    }
  }

  lemma {:induction false} FromTrim(limits: Limits, heap: seq<Candidate>, x: Candidate)
    ensures BytesFrom(limits, Trim(limits, heap), x) <= BytesFrom(limits, heap, x)
    ensures CountFrom(limits, Trim(limits, heap), x) <= CountFrom(limits, heap, x)
  {
    if Over(limits, heap) && heap != [] {
      FromTrim(limits, heap[1..], x);
    }
  }

  /** A queue whose oldest file is `x` holds only files that are at least as new. */
  lemma {:induction false} FromAll(limits: Limits, heap: seq<Candidate>, x: Candidate)
    requires forall c | c in heap :: Usable(limits, c) && !Older(c, x)
    ensures BytesFrom(limits, heap, x) == Total(heap) && CountFrom(limits, heap, x) == |heap|
  {
    if heap != [] {
      FromAll(limits, heap[1..], x);
    }
  }

  /** While `x` and what is newer fits, `x` is never the one to go. */
  lemma {:induction false} TrimKeeps(limits: Limits, heap: seq<Candidate>, x: Candidate)
    requires Sorted(heap) && x in heap && NewestFit(limits, heap, x)
    requires forall c | c in heap :: Usable(limits, c)
    ensures x in Trim(limits, heap)
  {
    if Over(limits, heap) {
      var k :| 0 <= k < |heap| && heap[k] == x;
      if k == 0 {
        FromAll(limits, heap, x);
        assert false;
      }
      assert heap[1..][k - 1] == x;
      TrimKeeps(limits, heap[1..], x);
    }
  }

  lemma {:induction false} KeptFrom(limits: Limits, found: seq<Candidate>, x: Candidate)
    ensures BytesFrom(limits, Kept(limits, found), x) <= BytesFrom(limits, found, x)
    ensures CountFrom(limits, Kept(limits, found), x) <= CountFrom(limits, found, x)
  {
    if found != [] {
      var last := |found| - 1;
      var before := Kept(limits, found[..last]);
      KeptFrom(limits, found[..last], x);
      assert found == found[..last] + [found[last]];
      FromAppend(limits, found[..last], found[last], x);
      FromPush(limits, before, found[last], x);
      FromTrim(limits, Push(before, found[last]), x);
    }
  }

  /**
   In whatever order the files are seen, every usable file that fits together with all
   newer ones is kept.
   */
  lemma {:induction false} NewestAreKept(limits: Limits, found: seq<Candidate>, x: Candidate)
    requires x in found && Usable(limits, x) && NewestFit(limits, found, x)
    ensures x in Kept(limits, found)
  {
    var last := |found| - 1;
    var before := Kept(limits, found[..last]);
    assert found == found[..last] + [found[last]];
    FromAppend(limits, found[..last], found[last], x);
    if x in found[..last] {
      NewestAreKept(limits, found[..last], x);
    }
    if Usable(limits, found[last]) {
      KeptFits(limits, found[..last]);
      KeptFrom(limits, found[..last], x);
      FromPush(limits, before, found[last], x);
      PushSorted(before, found[last]);
      PushElements(before, found[last]);
      TrimKeeps(limits, Push(before, found[last]), x);
    }
  }

  // ------------------------------------------------------------ oldest first

  ghost predicate OldestFirst(found: seq<Candidate>) {
    forall i, j | 0 <= i < j < |found| :: Older(found[i], found[j])
  }

  lemma {:induction false} FromNone(limits: Limits, candidates: seq<Candidate>, x: Candidate)
    requires forall c | c in candidates :: Older(c, x)
    ensures BytesFrom(limits, candidates, x) == CountFrom(limits, candidates, x) == 0
  {
    if candidates != [] {
      FromNone(limits, candidates[1..], x);
    }
  }

  /** What is dropped before `x` is older than `x`. */
  lemma {:induction false} TrimDropsOlder(limits: Limits, heap: seq<Candidate>, x: Candidate)
    requires OldestFirst(heap) && x in Trim(limits, heap)
    ensures BytesFrom(limits, Trim(limits, heap), x) == BytesFrom(limits, heap, x)
    ensures CountFrom(limits, Trim(limits, heap), x) == CountFrom(limits, heap, x)
  {
    if Over(limits, heap) && heap != [] {
      TrimSuffix(limits, heap[1..]);
      assert x in heap[1..];
      TrimDropsOlder(limits, heap[1..], x);
    }
  }

  lemma {:induction false} PushNewest(heap: seq<Candidate>, c: Candidate)
    requires forall x | x in heap :: Older(x, c)
    ensures Push(heap, c) == heap + [c]
  {
    if heap != [] {
      assert heap[0] in heap;
      PushNewest(heap[1..], c);
      assert heap == [heap[0]] + heap[1..];
    } else {
      assert [c] + heap == heap + [c];
    }
  }

  ghost predicate SameFrom(limits: Limits, kept: seq<Candidate>, found: seq<Candidate>, x: Candidate) {
    BytesFrom(limits, kept, x) == BytesFrom(limits, found, x)
    && CountFrom(limits, kept, x) == CountFrom(limits, found, x)
  }

  lemma OldestFirstStep(limits: Limits, before: seq<Candidate>, found: seq<Candidate>, c: Candidate, x: Candidate)
    requires OldestFirst(before) && (forall y | y in before :: Older(y, c)) && (forall y | y in found :: Older(y, c))
    requires Usable(limits, c) && (x in before ==> SameFrom(limits, before, found, x))
             && x in Trim(limits, before + [c])
    ensures SameFrom(limits, Trim(limits, before + [c]), found + [c], x)
  {
    TrimSuffix(limits, before + [c]);
    TrimDropsOlder(limits, before + [c], x);
    FromAppend(limits, before, c, x);
    FromAppend(limits, found, c, x);
    if x !in before {
      assert x in before + [c];
      FromNone(limits, before, x);
      FromNone(limits, found, x);
    }
  }

  lemma {:induction false} OldestFirstKept(limits: Limits, found: seq<Candidate>, x: Candidate)
    requires OldestFirst(found)
    ensures OldestFirst(Kept(limits, found))
    ensures x in Kept(limits, found) ==> SameFrom(limits, Kept(limits, found), found, x)
  {
    if found != [] {
      var last := |found| - 1;
      var c := found[last];
      var before := Kept(limits, found[..last]);
      OldestFirstKept(limits, found[..last], x);
      KeptFits(limits, found[..last]);
      assert forall y | y in before :: y in found[..last];
      assert found == found[..last] + [c];
      if Usable(limits, c) {
        PushNewest(before, c);
        TrimSuffix(limits, before + [c]);
        if x in Trim(limits, before + [c]) {
          OldestFirstStep(limits, before, found[..last], c, x);
        }
      } else {
        FromAppend(limits, found[..last], c, x);
      }
    }
  }

  lemma {:induction false} FromAtMost(limits: Limits, heap: seq<Candidate>, x: Candidate)
    requires forall c | c in heap :: Usable(limits, c)
    ensures BytesFrom(limits, heap, x) <= Total(heap) && CountFrom(limits, heap, x) <= |heap|
  {
    if heap != [] {
      FromAtMost(limits, heap[1..], x);
    }
  }

  /** Seen oldest first, exactly the newest files that fit are kept. */
  lemma OldestFirstExact(limits: Limits, found: seq<Candidate>, x: Candidate)
    requires OldestFirst(found) && x in found && Usable(limits, x)
    ensures x in Kept(limits, found) <==> NewestFit(limits, found, x)
  {
    if NewestFit(limits, found, x) {
      NewestAreKept(limits, found, x);
    }
    OldestFirstKept(limits, found, x);
    KeptFits(limits, found);
    FromAtMost(limits, Kept(limits, found), x);
  }
}
