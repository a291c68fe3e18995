/**
 The closure walker's code: every commit back to generation one and everything below the
 root, each object once, within its object, edge and byte budgets.
 */
module ClosureWalk {
  import opened Basics
  import opened Ancestry
  import opened ClosureGraph
  import opened ClosureSteps

  ghost predicate Injective(objectKey: Node -> string) {
    forall m, n :: objectKey(m) == objectKey(n) ==> m == n
  }

  /** The keys are those of the nodes, each once. */
  ghost predicate KeysList(objectKey: Node -> string, keys: seq<string>, nodes: set<Node>) {
    if keys == [] then nodes == {}
    else
      var last := |keys| - 1;
      exists node :: node in nodes && objectKey(node) == keys[last] && KeysList(objectKey, keys[..last], nodes - {node})
  }

  lemma {:induction false} KeyListed(objectKey: Node -> string, keys: seq<string>, nodes: set<Node>, node: Node)
    requires KeysList(objectKey, keys, nodes) && Injective(objectKey)
    ensures objectKey(node) in keys <==> node in nodes
    decreases |keys|
  {
    if keys != [] {
      var last := |keys| - 1;
      var added :| added in nodes && objectKey(added) == keys[last]
                   && KeysList(objectKey, keys[..last], nodes - {added});
      KeyListed(objectKey, keys[..last], nodes - {added}, node);
      assert keys == keys[..last] + [keys[last]];
    }
  }

  lemma {:induction false} KeyHasNode(objectKey: Node -> string, keys: seq<string>, nodes: set<Node>, i: nat)
    requires KeysList(objectKey, keys, nodes) && i < |keys|
    ensures exists node :: node in nodes && objectKey(node) == keys[i]
    decreases |keys|
  {
    var last := |keys| - 1;
    var added :| added in nodes && objectKey(added) == keys[last] && KeysList(objectKey, keys[..last], nodes - {added});
    if i < last {
      KeyHasNode(objectKey, keys[..last], nodes - {added}, i);
    }
  }

  lemma {:induction false} KeysCount(objectKey: Node -> string, keys: seq<string>, nodes: set<Node>)
    requires KeysList(objectKey, keys, nodes) && Injective(objectKey)
    ensures |keys| == |nodes| && Distinct(keys)
    decreases |keys|
  {
    if keys != [] {
      var last := |keys| - 1;
      var added :| added in nodes && objectKey(added) == keys[last]
                   && KeysList(objectKey, keys[..last], nodes - {added});
      KeysCount(objectKey, keys[..last], nodes - {added});
      KeyListed(objectKey, keys[..last], nodes - {added}, added);
      assert forall i | 0 <= i < last :: keys[i] == keys[..last][i];
    }
  }

  lemma KeysListExact(objectKey: Node -> string, keys: seq<string>, nodes: set<Node>)
    requires KeysList(objectKey, keys, nodes) && Injective(objectKey)
    ensures |keys| == |nodes| && Distinct(keys)
    ensures forall node :: objectKey(node) in keys <==> node in nodes
    ensures forall key | key in keys :: exists node :: node in nodes && objectKey(node) == key
  {
    KeysCount(objectKey, keys, nodes);
    forall node
      ensures objectKey(node) in keys <==> node in nodes
    {
      KeyListed(objectKey, keys, nodes, node);
    }
    forall key | key in keys
      ensures exists node :: node in nodes && objectKey(node) == key
    {
      var i :| 0 <= i < |keys| && keys[i] == key;
      KeyHasNode(objectKey, keys, nodes, i);
    }
  }

  function KeySet(keys: seq<string>): set<string> {
    if keys == [] then {} else KeySet(keys[..|keys| - 1]) + {keys[|keys| - 1]}
  }

  lemma {:induction false} KeySetHas(keys: seq<string>, key: string)
    ensures key in KeySet(keys) <==> key in keys
  {
    if keys != [] {
      KeySetHas(keys[..|keys| - 1], key);
      assert keys == keys[..|keys| - 1] + [keys[|keys| - 1]];
    }
  }

  lemma KeysListAppend(objectKey: Node -> string, keys: seq<string>, nodes: set<Node>, node: Node)
    requires KeysList(objectKey, keys, nodes) && node !in nodes
    ensures KeysList(objectKey, keys + [objectKey(node)], nodes + {node})
  {
    assert (keys + [objectKey(node)])[..|keys|] == keys && (nodes + {node}) - {node} == nodes;
  }

  // ------------------------------------------------------------ affordability

  /** Everything an unhindered walk has touched is part of the whole. */
  lemma TouchedIsWhole(t: Job, s: State)
    requires Inv(t, s) && Free(t, s)
    ensures forall node | node in s.added :: node in t.whole
    ensures forall node | node in s.trail :: node in t.whole
    ensures s.current.Some? ==> s.current.value in t.whole
  {
    forall node | node in s.added
      ensures node in t.whole
    {
      if node.kind == CommitObject {
        var i :| 0 <= i < |s.chain| && s.chain[i] == node;
      }
    }
  }

  lemma AffordsTrail(t: Job, s: State, weight: Node -> nat)
    requires Inv(t, s) && Free(t, s) && s.current.Some?
    ensures Total(weight, s.trail) + weight(s.current.value) <= Total(weight, t.whole)
  {
    TouchedIsWhole(t, s);
    TotalOfPart(weight, s.trail + [s.current.value], t.whole);
    TotalAppend(weight, s.trail, s.current.value);
  }

  lemma TotalOfRead(weight: Node -> nat, chain: seq<Node>, trail: seq<Node>, node: Node, whole: seq<Node>)
    requires Distinct(chain) && Distinct(trail) && node !in chain && node !in trail
    requires forall i, j | 0 <= i < |chain| && 0 <= j < |trail| :: chain[i].kind != trail[j].kind
    requires (forall i | 0 <= i < |chain| :: chain[i] in whole) && (forall i | 0 <= i < |trail| :: trail[i] in whole)
             && node in whole
    ensures Total(weight, chain) + Total(weight, trail) + weight(node) <= Total(weight, whole)
  {
    TotalOfPart(weight, chain + trail + [node], whole);
    TotalAppend(weight, chain + trail, node);
    TotalConcat(weight, chain, trail);
  }

  lemma AffordsBytes(t: Job, s: State, node: Node)
    requires Inv(t, s) && Free(t, s) && s.current.None? && node in t.whole && node !in s.trail && node !in s.chain
    ensures s.bytes + Length(t.g, node) <= t.limits.bytes
  {
    TouchedIsWhole(t, s);
    forall i, j | 0 <= i < |s.chain| && 0 <= j < |s.trail|
      ensures s.chain[i].kind != s.trail[j].kind
    {
      assert s.trail[j] in s.scheduled;
    }
    TotalOfRead(ByteWeight(t.g), s.chain, s.trail, node, t.whole);
  }

  lemma {:induction false} SomeOrder(nodes: set<Node>) returns (list: seq<Node>)
    ensures Distinct(list) && |list| == |nodes| && forall node :: node in list <==> node in nodes
    decreases |nodes|
  {
    list := [];
    if nodes != {} {
      var node :| node in nodes;
      var rest := SomeOrder(nodes - {node});
      list := rest + [node];
    }
  }

  lemma FitsWhole(nodes: set<Node>, node: Node, whole: seq<Node>)
    requires node !in nodes && node in whole && forall n | n in nodes :: n in whole
    ensures |nodes| < |whole|
  {
    var list := SomeOrder(nodes + {node});
    TotalOfPart(UnitWeight(), list, whole);
    UnitTotal(list);
    UnitTotal(whole);
  }

  lemma AffordsKey(t: Job, s: State, node: Node)
    requires Inv(t, s) && Free(t, s) && node in t.whole && node !in s.added
    ensures |s.added| < t.limits.objects
  {
    TouchedIsWhole(t, s);
    FitsWhole(s.added, node, t.whole);
  }

  /** What a finished walk has established, for every object and every total at once. */
  ghost predicate Exact(t: Job, s: State) {
    && (forall node :: node in s.added && node.kind != CommitObject <==> Reachable(t.g, t.root, node))
    && Distinct(s.trail)
    && (forall node :: node in s.trail <==> IsTreeManifest(node) && Reachable(t.g, t.root, node))
    && (forall node | node in s.trail :: Readable(t.g, node) && SizesAgree(t.g, node))
    && s.edges == Total(EdgeWeight(t.g), s.trail) <= t.limits.edges
    && s.bytes == Total(ByteWeight(t.g), s.chain) + Total(ByteWeight(t.g), s.trail) <= t.limits.bytes
  }

  lemma FinishedHasReachable(t: Job, s: State, node: Node)
    requires Partitioned(s) && Listed(s) && Explored(t, s)
    requires s.work == [] && s.current.None? && t.root in s.scheduled && IsTreeManifest(t.root)
    requires Reachable(t.g, t.root, node)
    ensures node in s.added && node.kind != CommitObject
  {
    var closed := set n | n in s.added && n.kind != CommitObject;
    forall m, n | m in closed && n in Edges(t.g, m)
      ensures n in closed
    {
      assert IsTreeManifest(m);
      assert m in s.scheduled && !Queued(s.work, m);
      var i :| 0 <= i < |s.trail| && s.trail[i] == m;
      assert Followed(t, s, s.trail[i], |Edges(t.g, s.trail[i])|);
    }
    var path :| Leads(t.g, t.root, path, node);
    ClosedHasReachable(t.g, t.root, closed, path, node);
  }

  lemma FinishedSizesAgree(t: Job, s: State, node: Node)
    requires Inv(t, s) && s.work == [] && s.current.None? && node in s.trail && node.kind == DirObject
    ensures SizesAgree(t.g, node)
  {
    var k :| 0 <= k < |s.trail| && s.trail[k] == node;
    assert Followed(t, s, s.trail[k], |Edges(t.g, s.trail[k])|);
    var entries := t.g.dirs[node.digest];
    forall i | 0 <= i < |entries|
      ensures SizeAgrees(t.g, entries[i])
    {
      assert EntryRecorded(s.fileSizes, s.linkSizes, entries[i]);
      assert Edges(t.g, node)[i] == Target(entries[i]) && Target(entries[i]) in s.added;
      if entries[i].kind != EntryDir {
        FinishedIsConfirmed(t, s, Target(entries[i]));
      }
    }
  }

  lemma FinishedIsConfirmed(t: Job, s: State, node: Node)
    requires Inv(t, s) && s.work == [] && s.current.None? && node in s.added && IsTreeManifest(node)
    ensures node in s.trail && Readable(t.g, node) && SizeConfirmed(t.g, s.fileSizes, s.linkSizes, node)
  {
    assert node in s.scheduled && !Queued(s.work, node);
    var i :| 0 <= i < |s.trail| && s.trail[i] == node;
    assert Followed(t, s, s.trail[i], |Edges(t.g, s.trail[i])|);
  }

  /** A run of the walker that ends with nothing queued is exact, on cyclic graphs too. */
  lemma FinishedIsExact(t: Job, run: seq<Event>, s: State)
    requires Reaches(t, run, s) && s.work == [] && s.current.None? && t.root in s.scheduled
    ensures Exact(t, s)
  {
    RunInvariant(t, run, s);
    assert IsTreeManifest(t.root);
    forall node
      ensures node in s.added && node.kind != CommitObject <==> Reachable(t.g, t.root, node)
      ensures node in s.trail <==> IsTreeManifest(node) && Reachable(t.g, t.root, node)
      ensures node in s.trail ==> Readable(t.g, node) && SizesAgree(t.g, node)
    {
      if Reachable(t.g, t.root, node) {
        FinishedHasReachable(t, s, node);
      }
      if node in s.trail || (IsTreeManifest(node) && node in s.added) {
        assert node in s.scheduled;
        FinishedIsConfirmed(t, s, node);
        if node.kind == DirObject {
          FinishedSizesAgree(t, s, node);
        }
      }
    }
  }

  // ------------------------------------------------------------ why a walk stops

  datatype Obstacle =
    | NoEdgeLeft
    | NoKeyLeft(node: Node)
    | NoBytesLeft(node: Node)
    | OtherSize(node: Node)
    | EntryConflict(entry: DirEntry)
    | TooDeep

  /** An object that the walk has to list or read next. */
  ghost predicate Due(t: Job, s: State, node: Node) {
    || (node.kind == CommitObject && node in t.whole)
    || (node == t.root && IsTreeManifest(node))
    || (s.current.Some? && node in Edges(t.g, s.current.value))
    || Queued(s.work, node)
  }

  ghost predicate Blocks(t: Job, s: State, obstacle: Obstacle) {
    match obstacle
    case NoEdgeLeft =>
      s.current.Some? && s.paid < |Edges(t.g, s.current.value)| && s.edges >= t.limits.edges
    case NoKeyLeft(node) => Due(t, s, node) && node !in s.added && |s.added| >= t.limits.objects
    case NoBytesLeft(node) =>
      && s.current.None? && node !in s.chain && ((node.kind == CommitObject && node in t.whole) || Queued(s.work, node))
      && (!Readable(t.g, node) || Length(t.g, node) == 0 || Length(t.g, node) > MAX_METADATA_OBJECT_BYTES
          || s.bytes + Length(t.g, node) > t.limits.bytes)
    case OtherSize(node) => Queued(s.work, node) && Readable(t.g, node)
                            && !SizeConfirmed(t.g, s.fileSizes, s.linkSizes, node)
    case EntryConflict(entry) =>
      && s.current.Some? && s.current.value.kind == DirObject && s.current.value.digest in t.g.dirs
      && entry in t.g.dirs[s.current.value.digest]
      && ((entry.kind == EntryFile && entry.node in s.fileSizes && s.fileSizes[entry.node] != entry.size)
          || (entry.kind == EntrySymlink && entry.node in s.linkSizes && s.linkSizes[entry.node] != entry.size))
    case TooDeep => Nested(t.g, t.root, Way(s)) && |Way(s)| > MAX_LOOKUP_DEPTH
  }

  lemma DueIsWhole(t: Job, s: State, node: Node)
    requires Inv(t, s) && Free(t, s) && Due(t, s, node)
    ensures node in t.whole
  {
    if node == t.root {
      RootReachable(t.g, t.root);
    }
    if s.current.Some? && node in Edges(t.g, s.current.value) {
      ReachableStep(t.g, t.root, s.current.value, node);
    }
  }

  lemma QueuedIsNew(t: Job, s: State, node: Node)
    requires Inv(t, s) && Queued(s.work, node)
    ensures node !in s.trail && node in s.scheduled && IsTreeManifest(node) && Reachable(t.g, t.root, node)
  {
  }

  lemma EntryNeverConflicts(t: Job, s: State, entry: DirEntry)
    requires Warranted(t, s) && SizesTrue(t, s) && Fine(t.g, t.root, t.whole, t.limits)
    ensures !Blocks(t, s, EntryConflict(entry))
  {
    if s.current.Some? && s.current.value.kind == DirObject && s.current.value.digest in t.g.dirs
       && entry in t.g.dirs[s.current.value.digest] {
      var directory := s.current.value;
      assert directory in t.whole && SizesAgree(t.g, directory);
      var i :| 0 <= i < |t.g.dirs[directory.digest]| && t.g.dirs[directory.digest][i] == entry;
      assert SizeAgrees(t.g, entry);
    }
  }

  /** An unhindered walk meets no obstacle: no limit, no missing object, no wrong size. */
  lemma UnhinderedMeetsNone(t: Job, run: seq<Event>, s: State, obstacle: Obstacle)
    requires Reaches(t, run, s) && Free(t, s)
    ensures !Blocks(t, s, obstacle)
  {
    RunInvariant(t, run, s);
    if Blocks(t, s, obstacle) {
      match obstacle
      case NoEdgeLeft => AffordsTrail(t, s, EdgeWeight(t.g));
      case NoKeyLeft(node) =>
        DueIsWhole(t, s, node);
        AffordsKey(t, s, node);
      case NoBytesLeft(node) =>
        if Queued(s.work, node) {
          QueuedIsNew(t, s, node);
        } else {
          CommitIsNotExpanded(t, s, node);
        }
        AffordsBytes(t, s, node);
      case OtherSize(node) =>
        QueuedIsNew(t, s, node);
      case EntryConflict(entry) => EntryNeverConflicts(t, s, entry);
      case TooDeep =>
    }
  }

  lemma CommitIsNotExpanded(t: Job, s: State, node: Node)
    requires Inv(t, s) && node.kind == CommitObject
    ensures node !in s.trail
  {
    forall i | 0 <= i < |s.trail|
      ensures s.trail[i] != node
    {
      assert s.trail[i] in s.scheduled;
    }
  }

  class Walker {
    const g: Graph
    const objectKey: Node -> string
    const limits: Limits

    var edges: nat
    var metadataBytes: nat
    var keys: seq<string>
    var seenKeys: set<string>
    var scheduled: set<Node>
    var work: seq<Work>
    var fileSizes: map<Digest, nat>
    var linkSizes: map<Digest, nat>

    ghost const t: Job
    ghost var s: State
    ghost var run: seq<Event>
    /** What stopped the walk. */
    ghost var obstacle: Obstacle

    constructor (g: Graph, objectKey: Node -> string, limits: Limits, ghost root: Node, ghost whole: seq<Node>)
      requires Injective(objectKey)
      ensures Valid() && this.g == g && this.objectKey == objectKey && this.limits == limits
      ensures t == Job(g, root, whole, limits) && s == START
    {
      this.g, this.objectKey, this.limits := g, objectKey, limits;
      edges, metadataBytes, keys, seenKeys, scheduled, work, fileSizes, linkSizes := 0, 0, [], {}, {}, [], map[], map[];
      t, s, run, obstacle := Job(g, root, whole, limits), START, [], NoEdgeLeft;
    }

    /** The fields are those of a state that the walk can reach. */
    ghost predicate Coupled()
      reads this
    {
      && Injective(objectKey) && t.g == g && t.limits == limits
      && Reaches(t, run, s)
      && edges == s.edges && metadataBytes == s.bytes && scheduled == s.scheduled && work == s.work
      && fileSizes == s.fileSizes && linkSizes == s.linkSizes
    }

    /** The collected keys are those of `added`. */
    ghost predicate Keyed(added: set<Node>)
      reads this
    {
      KeysList(objectKey, keys, added) && |keys| <= limits.objects && seenKeys == KeySet(keys)
    }

    ghost predicate Valid()
      reads this
    {
      Coupled() && Keyed(s.added)
    }

    ghost method Step(event: Event)
      requires Reaches(t, run, s) && Enabled(t, s, event)
      modifies this`s, this`run
      ensures Reaches(t, run, s) && s == Apply(t, old(s), event)
    {
      s := Apply(t, s, event);
      run := run + [event];
      assert run[..|run| - 1] == old(run);
      assert ReachesByStep(t, run, s);
    }

    /** The object being expanded and the progress with it are unchanged. */
    twostate predicate SamePlace()
      reads this
    {
      && s.current == old(s).current && s.paid == old(s).paid && s.progress == old(s).progress
      && s.trail == old(s).trail && s.chain == old(s).chain && Way(s) == Way(old(s))
    }

    /** Collects the key of a node, unless it is there already or there is no room. */
    method AddKey(node: Node) returns (r: Result<()>)
      requires Valid()
      modifies this`keys, this`seenKeys, this`obstacle
      ensures r.Ok? ==> Keyed(s.added + {node})
      ensures r.Ok? ==> |keys| == if node in s.added then |old(keys)| else |old(keys)| + 1
      ensures r.Err? ==> obstacle == NoKeyLeft(node) && node !in s.added && |s.added| >= limits.objects
    {
      var key := objectKey(node);
      KeySetHas(keys, key);
      KeyListed(objectKey, keys, s.added, node);
      KeysCount(objectKey, keys, s.added);
      assert (keys + [key])[..|keys|] == keys;
      if key in seenKeys {
        assert s.added + {node} == s.added;
        return Ok(());
      }
      if |keys| >= limits.objects {
        obstacle := NoKeyLeft(node);
        return Err(ResourceLimit);
      }
      KeysListAppend(objectKey, keys, s.added, node);
      seenKeys := seenKeys + {key};
      keys := keys + [key];
      return Ok(());
    }

    /** Reads a manifest within what is left of the byte budget. */
    method GetManifest(node: Node) returns (r: Result<()>)
      requires metadataBytes <= limits.bytes
      modifies this`metadataBytes
      ensures r.Ok? ==> Readable(g, node) && metadataBytes == old(metadataBytes) + Length(g, node) <= limits.bytes
      ensures r.Err? ==>
                !Readable(g, node) || Length(g, node) == 0 || Length(g, node) > MAX_METADATA_OBJECT_BYTES
                || old(metadataBytes) + Length(g, node) > limits.bytes
    {
      var remaining := limits.bytes - metadataBytes;
      if remaining < 1 {
        return Err(ResourceLimit);
      }
      var limit := if remaining > MAX_METADATA_OBJECT_BYTES then MAX_METADATA_OBJECT_BYTES else remaining;
      if node in g.unavailable {
        return Err(Unavailable);
      }
      if Length(g, node) > limit {
        return Err(ResourceLimit);
      }
      metadataBytes := metadataBytes + Length(g, node);
      if !Readable(g, node) {
        return Err(CorruptObject);
      }
      return Ok(());
    }

    /** Pays for one manifest reference. */
    method AddEdge() returns (r: Result<()>)
      requires Valid() && s.current.Some? && s.paid == s.progress < |Edges(g, s.current.value)|
      modifies this`edges, this`s, this`run, this`obstacle
      ensures r.Ok? ==> Valid() && s == old(s).(edges := old(s).edges + 1, paid := old(s).paid + 1)
      ensures r.Err? ==> s == old(s) && run == old(run) && obstacle == NoEdgeLeft && s.edges >= limits.edges
    {
      if edges >= limits.edges {
        obstacle := NoEdgeLeft;
        return Err(ResourceLimit);
      }
      edges := edges + 1;
      Step(Pay);
      return Ok(());
    }

    /** Records the size a directory entry states; one object has one size. */
    method RecordSize(entry: DirEntry) returns (r: Result<()>)
      requires Valid() && s.current.Some? && s.current.value.kind == DirObject && s.current.value.digest in g.dirs
      requires entry in g.dirs[s.current.value.digest]
      modifies this`fileSizes, this`linkSizes, this`s, this`run, this`obstacle
      ensures r.Ok? ==> Valid() && EntryRecorded(s.fileSizes, s.linkSizes, entry) && SamePlace()
      ensures r.Ok? ==> s.scheduled == old(s).scheduled && s.added == old(s).added && s.work == old(s).work
      ensures r.Err? ==> s == old(s) && Reaches(t, run, s) && Blocks(t, s, obstacle)
    {
      if entry.kind == EntryFile {
        if entry.node in fileSizes && fileSizes[entry.node] != entry.size {
          obstacle := EntryConflict(entry);
          return Err(CorruptObject);
        }
        fileSizes := fileSizes[entry.node := entry.size];
      } else if entry.kind == EntrySymlink {
        if entry.node in linkSizes && linkSizes[entry.node] != entry.size {
          obstacle := EntryConflict(entry);
          return Err(CorruptObject);
        }
        linkSizes := linkSizes[entry.node := entry.size];
      }
      Step(Record(entry));
      return Ok(());
    }

    /** Queues an object whose key has been collected. */
    method Push(node: Node, depth: nat)
      requires Coupled() && Enabled(t, s, Enqueue(node, depth)) && Keyed(s.added + {node})
      modifies this`scheduled, this`work, this`s, this`run
      ensures Valid() && s == Apply(t, old(s), Enqueue(node, depth))
    {
      Step(Enqueue(node, depth));
      scheduled := scheduled + {node};
      work := work + [Work(node, depth)];
    }

    /** Queues an object that is new to the walk. */
    method EnqueueNew(node: Node, depth: nat) returns (r: Result<()>)
      requires Valid() && Enabled(t, s, Enqueue(node, depth))
      modifies this`keys, this`seenKeys, this`scheduled, this`work, this`s, this`run, this`obstacle
      ensures r.Ok? ==> Valid() && s == Apply(t, old(s), Enqueue(node, depth)) && |keys| == |old(keys)| + 1
      ensures r.Err? ==> s == old(s) && run == old(run) && obstacle == NoKeyLeft(node) && node !in s.added
                         && |s.added| >= limits.objects
    {
      NewIsUnlisted(node);
      var _ :- AddKey(node);
      Push(node, depth);
      return Ok(());
    }

    lemma NewIsUnlisted(node: Node)
      requires Valid() && IsTreeManifest(node) && node !in s.scheduled
      ensures node !in s.added
    {
      RunInvariant(t, run, s);
    }

    lemma ScheduledIsListed(node: Node)
      requires Valid() && node in s.scheduled
      ensures node in s.added
    {
      RunInvariant(t, run, s);
    }

    /** What is known of the object being expanded. */
    lemma CurrentKnown()
      requires Valid() && s.current.Some?
      ensures Readable(g, s.current.value) && s.progress <= |Edges(g, s.current.value)|
      ensures SizesRecorded(g, s.fileSizes, s.linkSizes, s.current.value, s.progress)
      ensures s.current.value in s.scheduled
      ensures s.current.value.kind == DirObject && Edges(g, s.current.value) != [] ==> Nested(g, t.root, Way(s))
    {
      RunInvariant(t, run, s);
      assert FoundBy(t, s, s.current.value);
    }

    /** Queues the target of an entry whose size is recorded, unless it already is. */
    method EnqueueTarget(entry: DirEntry, depth: nat) returns (r: Result<()>)
      requires Valid() && s.current.Some? && Target(entry) in Edges(g, s.current.value) && depth == |Way(s)|
      requires EntryRecorded(s.fileSizes, s.linkSizes, entry)
      modifies this`keys, this`seenKeys, this`scheduled, this`work, this`s, this`run, this`obstacle
      ensures r.Ok? ==> Valid() && Target(entry) in s.added && SamePlace()
      ensures r.Ok? ==> s.fileSizes == old(s).fileSizes && s.linkSizes == old(s).linkSizes
      ensures r.Ok? ==> old(s).scheduled <= s.scheduled && old(s).added <= s.added
      ensures r.Ok? ==> (|keys| == |old(keys)| && work == old(work)) || |keys| > |old(keys)|
      ensures r.Err? ==> s == old(s) && Reaches(t, run, s) && Blocks(t, s, obstacle)
    {
      if Target(entry) in scheduled {
        ScheduledIsListed(Target(entry));
        return Ok(());
      }
      CurrentKnown();
      r := EnqueueNew(Target(entry), depth);
    }

    /** Schedules the target of a directory entry unless it already is. */
    method Schedule(entry: DirEntry, depth: nat) returns (r: Result<()>)
      requires Valid() && s.current.Some? && s.current.value.kind == DirObject && s.current.value.digest in g.dirs
      requires entry in g.dirs[s.current.value.digest] && Target(entry) in Edges(g, s.current.value)
               && depth == |Way(s)|
      modifies this`keys, this`seenKeys, this`scheduled, this`work, this`fileSizes, this`linkSizes, this`s, this`run,
               this`obstacle
      ensures r.Ok? ==> Valid() && Target(entry) in s.added && EntryRecorded(s.fileSizes, s.linkSizes, entry)
      ensures r.Ok? ==> SamePlace() && old(s).scheduled <= s.scheduled && old(s).added <= s.added
      ensures s.chain == old(s).chain
      ensures r.Ok? ==> (|keys| == |old(keys)| && work == old(work)) || |keys| > |old(keys)|
      ensures r.Err? ==> Reaches(t, run, s) && Blocks(t, s, obstacle)
    {
      if depth > MAX_LOOKUP_DEPTH {
        CurrentKnown();
        obstacle := TooDeep;
        return Err(ResourceLimit);
      }
      var _ :- RecordSize(entry);
      r := EnqueueTarget(entry, depth);
    }

    /** Pays for and follows the next entry of the directory being expanded. */
    method FollowEntry(entry: DirEntry, depth: nat) returns (r: Result<()>)
      requires Valid() && s.current.Some? && s.current.value.kind == DirObject && s.current.value.digest in g.dirs
      requires s.paid == s.progress < |g.dirs[s.current.value.digest]|
               && g.dirs[s.current.value.digest][s.progress] == entry
      requires depth == |Way(s)|
      modifies this`edges, this`keys, this`seenKeys, this`scheduled, this`work, this`fileSizes, this`linkSizes, this`s,
               this`run, this`obstacle
      ensures r.Ok? ==> Valid() && s.paid == s.progress == old(s).progress + 1
      ensures r.Ok? ==> s.current == old(s).current && s.trail == old(s).trail && Way(s) == Way(old(s))
      ensures r.Ok? ==> old(s).scheduled <= s.scheduled && old(s).added <= s.added
      ensures s.chain == old(s).chain
      ensures r.Ok? ==> (|keys| == |old(keys)| && work == old(work)) || |keys| > |old(keys)|
      ensures r.Err? ==> Reaches(t, run, s) && Blocks(t, s, obstacle)
    {
      assert Edges(g, s.current.value)[s.progress] == Target(entry);
      var _ :- AddEdge();
      var _ :- Schedule(entry, depth);
      CurrentKnown();
      Step(Advance);
      return Ok(());
    }

    ghost method AdvanceOverChunk()
      requires Coupled() && s.current.Some? && s.current.value.kind == FileObject
      requires s.progress < s.paid <= |Edges(g, s.current.value)| && Edges(g, s.current.value)[s.progress] in s.added
      modifies this`s, this`run
      ensures Coupled() && s == old(s).(progress := old(s).progress + 1)
    {
      Step(Advance);
    }

    method CollectChunk(node: Node) returns (r: Result<()>)
      requires Valid() && node.kind == ChunkObject && s.current.Some? && node in Edges(g, s.current.value)
      modifies this`keys, this`seenKeys, this`s, this`run, this`obstacle
      ensures r.Ok? ==> Valid() && s == old(s).(added := old(s).added + {node}) && |keys| >= |old(keys)|
      ensures r.Err? ==> s == old(s) && Reaches(t, run, s) && Blocks(t, s, obstacle)
    {
      var _ :- AddKey(node);
      Step(Add(node));
      return Ok(());
    }

    /** Pays for and follows the next chunk of the file being expanded. */
    method FollowChunk(chunk: Digest) returns (r: Result<()>)
      requires Valid() && s.current.Some? && s.current.value.kind == FileObject && s.current.value.digest in g.files
      requires s.paid == s.progress < |g.files[s.current.value.digest].chunks|
               && g.files[s.current.value.digest].chunks[s.progress] == chunk
      modifies this`edges, this`keys, this`seenKeys, this`s, this`run, this`obstacle
      ensures r.Ok? ==> Valid() && s.paid == s.progress == old(s).progress + 1
      ensures r.Ok? ==> s.current == old(s).current && s.trail == old(s).trail && s.work == old(s).work
                        && s.scheduled == old(s).scheduled && old(s).added <= s.added
      ensures s.chain == old(s).chain
      ensures r.Ok? ==> |keys| >= |old(keys)|
      ensures r.Err? ==> Reaches(t, run, s) && Blocks(t, s, obstacle)
    {
      assert Edges(g, s.current.value)[s.progress] == Node(ChunkObject, chunk);
      var _ :- AddEdge();
      var _ :- CollectChunk(Node(ChunkObject, chunk));
      AdvanceOverChunk();
      return Ok(());
    }

    /** Reads the last queued object, validates it and confirms its size. */
    method ReadQueued() returns (r: Result<()>)
      requires Valid() && work != [] && s.current.None?
      modifies this`metadataBytes, this`obstacle
      ensures r.Ok? ==> Enabled(t, s, Open) && metadataBytes == s.bytes + Length(g, work[|work| - 1].node)
      ensures r.Err? ==> Blocks(t, s, obstacle)
    {
      var item := work[|work| - 1];
      QueuedKnown();
      var read := GetManifest(item.node);
      if read.Err? {
        obstacle := NoBytesLeft(item.node);
        return Err(read.error);
      }
      if (item.node.kind == FileObject && fileSizes[item.node.digest] != g.files[item.node.digest].size)
         || (item.node.kind == LinkObject && linkSizes[item.node.digest] != g.links[item.node.digest]) {
        obstacle := OtherSize(item.node);
        return Err(CorruptObject);
      }
      return Ok(());
    }

    /** Takes the last queued object up. */
    method TakeUp() returns (r: Result<Work>)
      requires Valid() && work != [] && s.current.None?
      modifies this`metadataBytes, this`work, this`s, this`run, this`obstacle
      ensures r.Ok? ==>
                && Valid() && r.value == old(work)[|old(work)| - 1] && work == old(work)[..|old(work)| - 1]
                && s.current == Some(r.value.node) && s.paid == s.progress == 0 && IsTreeManifest(r.value.node)
                && Readable(g, r.value.node) && s.trail == old(s).trail && s.scheduled == old(s).scheduled
                && s.added == old(s).added && r.value.depth + 1 == |Way(s)|
      ensures s.chain == old(s).chain
      ensures r.Err? ==> Reaches(t, run, s) && Blocks(t, s, obstacle)
    {
      QueuedKnown();
      var _ :- ReadQueued();
      var item := Pop();
      return Ok(item);
    }

    /** Takes the last object off the queue, once it has been read. */
    method Pop() returns (item: Work)
      requires Reaches(t, run, s) && Enabled(t, s, Open) && work == s.work
      modifies this`work, this`s, this`run
      ensures Reaches(t, run, s) && item == old(work)[|old(work)| - 1] && work == old(work)[..|old(work)| - 1]
      ensures s == old(s).(work := work, current := Some(item.node), paid := 0, progress := 0,
                   bytes := old(s).bytes + Length(t.g, item.node))
    {
      item := work[|work| - 1];
      Step(Open);
      work := work[..|work| - 1];
    }

    lemma QueuedKnown()
      requires Valid() && work != [] && s.current.None?
      ensures var item := work[|work| - 1];
              && IsTreeManifest(item.node) && Queued(s.work, item.node) && item.node !in s.chain
              && item.node in s.paths && |s.paths[item.node]| == item.depth + 1
              && (item.node.kind == FileObject ==> item.node.digest in fileSizes)
              && (item.node.kind == LinkObject ==> item.node.digest in linkSizes)
      ensures metadataBytes <= limits.bytes
    {
      RunInvariant(t, run, s);
      assert work[|work| - 1].node in s.scheduled;
    }

    method ExpandDir(item: Work) returns (r: Result<()>)
      requires Valid() && s.current == Some(item.node) && s.paid == s.progress == 0
      requires item.node.kind == DirObject && item.node.digest in g.dirs && item.depth + 1 == |Way(s)|
      modifies this`edges, this`keys, this`seenKeys, this`scheduled, this`work, this`fileSizes, this`linkSizes, this`s,
               this`run, this`obstacle
      ensures r.Ok? ==> Valid() && s.current == old(s).current && old(s).scheduled <= s.scheduled
                        && old(s).added <= s.added
      ensures s.chain == old(s).chain
      ensures r.Ok? ==> s.paid == s.progress == |Edges(g, item.node)|
      ensures r.Ok? ==> (|keys| == |old(keys)| && work == old(work)) || |keys| > |old(keys)|
      ensures r.Err? ==> Reaches(t, run, s) && Blocks(t, s, obstacle)
    {
      var entries := g.dirs[item.node.digest];
      for i := 0 to |entries|
        invariant Valid() && s.current == old(s).current && s.chain == old(s).chain && s.trail == old(s).trail
        invariant old(s).scheduled <= s.scheduled && old(s).added <= s.added
        invariant s.paid == s.progress == i && Way(s) == Way(old(s))
        invariant (|keys| == |old(keys)| && work == old(work)) || |keys| > |old(keys)|
      {
        var _ :- FollowEntry(entries[i], item.depth + 1);
      }
      return Ok(());
    }

    method ExpandFile(item: Work) returns (r: Result<()>)
      requires Valid() && s.current == Some(item.node) && s.paid == s.progress == 0
      requires item.node.kind == FileObject && item.node.digest in g.files
      modifies this`edges, this`keys, this`seenKeys, this`s, this`run, this`obstacle
      ensures r.Ok? ==> Valid() && s.current == old(s).current && old(s).scheduled <= s.scheduled
                        && old(s).added <= s.added
      ensures s.chain == old(s).chain
      ensures r.Ok? ==> s.paid == s.progress == |Edges(g, item.node)|
      ensures r.Ok? ==> |keys| >= |old(keys)|
      ensures r.Err? ==> Reaches(t, run, s) && Blocks(t, s, obstacle)
    {
      var chunks := g.files[item.node.digest].chunks;
      for i := 0 to |chunks|
        invariant Valid() && s.current == old(s).current && s.chain == old(s).chain && s.scheduled == old(s).scheduled
        invariant old(s).added <= s.added
        invariant s.paid == s.progress == i && |keys| >= |old(keys)|
      {
        var _ :- FollowChunk(chunks[i]);
      }
      return Ok(());
    }

    /** Expands one queued object completely. */
    method ExpandNext() returns (r: Result<()>)
      requires Valid() && work != [] && s.current.None?
      modifies this
      ensures s.chain == old(s).chain
      ensures r.Ok? ==> Valid() && s.current.None? && old(s).scheduled <= s.scheduled && old(s).added <= s.added
      ensures r.Ok? ==> |keys| > |old(keys)| || (|keys| == |old(keys)| && |work| < |old(work)|)
      ensures r.Err? ==> Reaches(t, run, s) && Blocks(t, s, obstacle)
    {
      var item :- TakeUp();
      if item.node.kind == DirObject {
        var _ :- ExpandDir(item);
      } else if item.node.kind == FileObject {
        var _ :- ExpandFile(item);
      }
      Step(Close);
      return Ok(());
    }

    /**
     Expands queued objects until none is left. It ends on cyclic graphs too: a round that
     adds no key shortens the queue, and the number of keys is bounded.
     */
    method Walk() returns (r: Result<()>)
      requires Valid() && s.current.None? && t.root in s.scheduled
      modifies this
      ensures s.chain == old(s).chain
      ensures r.Ok? ==> Valid() && s.work == [] && s.current.None? && t.root in s.scheduled && old(s).added <= s.added
      ensures r.Err? ==> Reaches(t, run, s) && Blocks(t, s, obstacle)
    {
      while work != []
        invariant Valid() && s.current.None? && s.chain == old(s).chain && t.root in s.scheduled
        invariant old(s).added <= s.added
        decreases limits.objects - |keys|, |work|
      {
        var _ :- ExpandNext();
      }
      return Ok(());
    }

    /** Schedules the root and walks everything below it. */
    method WalkTree(root: Node) returns (r: Result<()>)
      requires Valid() && s.current.None? && s.scheduled == {} && s.work == [] && root == t.root
               && root.kind == DirObject
      modifies this
      ensures s.chain == old(s).chain
      ensures r.Ok? ==> Valid() && s.work == [] && s.current.None? && t.root in s.scheduled && old(s).added <= s.added
      ensures r.Err? ==> Reaches(t, run, s) && Blocks(t, s, obstacle)
    {
      var _ :- EnqueueNew(root, 0);
      r := Walk();
    }

    /** Reads the commit of a generation; a commit that was read before has another generation. */
    method ReadCommitManifest(digest: Digest, generation: nat) returns (r: Result<Commit>)
      requires Valid() && s.current.None?
      requires Node(CommitObject, digest) in s.chain && digest in g.commits ==>
                 g.commits[digest].generation != generation
      modifies this`metadataBytes, this`s, this`run, this`obstacle
      ensures s.added == old(s).added && s.work == old(s).work && s.scheduled == old(s).scheduled
      ensures r.Ok? ==>
                && Valid() && s.current.None? && s.chain == old(s).chain + [Node(CommitObject, digest)]
                && digest in g.commits && r.value == g.commits[digest] && ValidCommit(r.value, generation)
      ensures r.Err? && Node(CommitObject, digest) in t.whole
              && digest in g.commits && ValidCommit(g.commits[digest], generation) ==>
                Reaches(t, run, s) && Blocks(t, s, obstacle) && s == old(s)
    {
      var node := Node(CommitObject, digest);
      BytesInBudget();
      var read := GetManifest(node);
      if read.Err? {
        obstacle := NoBytesLeft(node);
        return Err(read.error);
      }
      if !ValidCommit(g.commits[digest], generation) {
        return Err(CorruptObject);
      }
      Step(ReadCommit(node));
      return Ok(g.commits[digest]);
    }

    /** The commits down to generation `left` are read, and the first `collected` are collected. */
    ghost predicate ChainAt(commit: Digest, generation: nat, left: nat, collected: int)
      reads this
    {
      && Valid() && s.current.None? && s.work == [] && s.scheduled == {}
      && 1 <= left <= generation && ChainIs(g.commits, generation, commit, s.chain, generation - left + 1)
      && collected <= |s.chain| && (forall i | 0 <= i < collected :: s.chain[i] in s.added)
    }

    ghost predicate ChainInWhole()
      reads this
    {
      forall i | 0 <= i < |s.chain| :: s.chain[i] in t.whole
    }

    /** Collects the commit read last. */
    method CollectLast(ghost commit: Digest, generation: nat, left: nat, digest: Digest) returns (r: Result<()>)
      requires ChainAt(commit, generation, left, generation - left)
               && s.chain[generation - left] == Node(CommitObject, digest)
      modifies this`keys, this`seenKeys, this`s, this`run, this`obstacle
      ensures s.chain == old(s).chain
      ensures r.Ok? ==> ChainAt(commit, generation, left, generation - left + 1)
      ensures r.Err? && old(ChainInWhole()) ==> Reaches(t, run, s) && Blocks(t, s, obstacle)
    {
      r := AddCommit(Node(CommitObject, digest));
    }

    /** Reads the parent of the commit read last. */
    method ReadParent(ghost commit: Digest, generation: nat, left: nat, digest: Digest) returns (r: Result<Digest>)
      requires ChainAt(commit, generation, left, generation - left + 1) && left > 1
      requires s.chain[generation - left] == Node(CommitObject, digest)
      modifies this`metadataBytes, this`s, this`run, this`obstacle
      ensures r.Ok? ==>
                && ChainAt(commit, generation, left - 1, generation - left + 1)
                && s.chain == old(s).chain + [Node(CommitObject, r.value)]
      ensures r.Ok? && AncestorIntact(g.commits, generation, commit, t.whole, generation - left + 1) ==>
                Node(CommitObject, r.value) in t.whole
      ensures r.Err? && AncestorIntact(g.commits, generation, commit, t.whole, generation - left + 1) ==>
                Reaches(t, run, s) && Blocks(t, s, obstacle) && s == old(s)
    {
      var current := g.commits[digest];
      assert ValidCommit(current, left);
      if current.parent.None? || current.parent.value.IsZero() {
        return Err(SplitBrain);
      }
      NextAncestor(g.commits, generation, commit, generation - left, digest);
      var _ :- ReadCommitManifest(current.parent.value, left - 1);
      return Ok(current.parent.value);
    }

    method ReadNewest(commit: Digest, generation: nat) returns (r: Result<()>)
      requires Valid() && s == START && generation >= 1
      modifies this`metadataBytes, this`s, this`run, this`obstacle
      ensures r.Ok? ==> ChainAt(commit, generation, generation, 0) && s.chain == [Node(CommitObject, commit)]
      ensures r.Ok? && AncestorIntact(g.commits, generation, commit, t.whole, 0) ==> ChainInWhole()
      ensures r.Err? && AncestorIntact(g.commits, generation, commit, t.whole, 0) ==>
                Reaches(t, run, s) && Blocks(t, s, obstacle) && ChainInWhole()
    {
      var _ :- ReadCommitManifest(commit, generation);
      return Ok(());
    }

    /** Reads and collects every commit back to generation one. */
    method ReadChain(commit: Digest, generation: nat) returns (r: Result<()>)
      requires Valid() && s == START && generation >= 1
      modifies this
      ensures r.Ok? ==> ChainAt(commit, generation, 1, generation)
      ensures r.Ok? && AncestryIntact(g.commits, generation, commit, t.whole) ==> ChainInWhole()
      ensures r.Err? && AncestryIntact(g.commits, generation, commit, t.whole) ==>
                Reaches(t, run, s) && Blocks(t, s, obstacle) && ChainInWhole()
    {
      ghost var intact := AncestryIntact(g.commits, generation, commit, t.whole);
      var _ :- ReadNewest(commit, generation);
      var digest, left := commit, generation;
      while true
        invariant ChainAt(commit, generation, left, generation - left)
        invariant s.chain[generation - left] == Node(CommitObject, digest) && (intact ==> ChainInWhole())
        decreases left
      {
        var _ :- CollectLast(commit, generation, left, digest);
        if left == 1 {
          return Ok(());
        }
        digest :- ReadParent(commit, generation, left, digest);
        left := left - 1;
      }
    }

    lemma BytesInBudget()
      requires Valid()
      ensures metadataBytes <= limits.bytes
    {
      RunInvariant(t, run, s);
    }

    /** Collects the key of a commit that has been read. */
    method AddCommit(node: Node) returns (r: Result<()>)
      requires Valid() && node.kind == CommitObject && node in s.chain
      modifies this`keys, this`seenKeys, this`s, this`run, this`obstacle
      ensures r.Ok? ==> Valid() && s == old(s).(added := old(s).added + {node})
      ensures r.Err? ==> s == old(s) && Reaches(t, run, s)
      ensures r.Err? && node in t.whole ==> Blocks(t, s, obstacle)
    {
      var _ :- AddKey(node);
      Step(Add(node));
      return Ok(());
    }
  }

  /** The commits of a published snapshot, newest first, down to the `count`-th generation back. */
  ghost predicate ChainIs(commits: Commits, generation: nat, commit: Digest, chain: seq<Node>, count: nat) {
    && count <= generation && |chain| == count
    && (forall i | 0 <= i < count ::
          && chain[i].kind == CommitObject && chain[i].digest in commits
          && Ancestor(commits, commit, generation, i) == Some(chain[i].digest)
          && ValidCommit(commits[chain[i].digest], generation - i))
  }

  lemma NextAncestor(commits: Commits, generation: nat, commit: Digest, steps: nat, digest: Digest)
    requires steps < generation && Ancestor(commits, commit, generation, steps) == Some(digest)
    requires digest in commits && ValidCommit(commits[digest], generation - steps) && commits[digest].parent.Some?
    ensures Ancestor(commits, commit, generation, steps + 1) == commits[digest].parent
  {
    AncestorCompose(commits, commit, generation, steps, 1);
    assert Ancestor(commits, commits[digest].parent.value, generation - steps - 1, 0) == commits[digest].parent;
  }

  /** The ancestry can be read back to generation one, and the whole contains it. */
  ghost predicate AncestryIntact(commits: Commits, generation: nat, commit: Digest, whole: seq<Node>) {
    forall steps | 0 <= steps < generation :: AncestorIntact(commits, generation, commit, whole, steps)
  }

  ghost predicate AncestorIntact(commits: Commits, generation: nat, commit: Digest, whole: seq<Node>, steps: nat)
    requires steps < generation
  {
    match Ancestor(commits, commit, generation, steps)
    case None => false
    case Some(digest) =>
      digest in commits && ValidCommit(commits[digest], generation - steps) && Node(CommitObject, digest) in whole
  }

  /** The objects that consuming a published snapshot can need. */
  ghost predicate InClosure(g: Graph, generation: nat, commit: Digest, node: Node) {
    if node.kind == CommitObject then
      exists steps | 0 <= steps < generation :: Ancestor(g.commits, commit, generation, steps) == Some(node.digest)
    else
      commit in g.commits && Reachable(g, Node(DirObject, g.commits[commit].root), node)
  }

  /** Every needed object is intact, and all of them, listed in `whole`, fit the limits. */
  ghost predicate Resolvable(g: Graph, limits: Limits, generation: nat, commit: Digest, whole: seq<Node>) {
    && generation <= limits.objects && commit in g.commits
    && AncestryIntact(g.commits, generation, commit, whole)
    && Fine(g, Node(DirObject, g.commits[commit].root), whole, limits)
  }

  datatype Resolved = Resolved(root: Digest, keys: seq<string>, edges: nat, bytes: nat)

  /** The answer lists the key of every needed object, and no other, once each and in order. */
  ghost predicate KeysExact(g: Graph, objectKey: Node -> string, generation: nat, commit: Digest, keys: seq<string>) {
    && Sorted(keys) && Distinct(keys)
    && (forall node :: objectKey(node) in keys <==> InClosure(g, generation, commit, node))
    && (forall key | key in keys :: exists node :: objectKey(node) == key)
  }

  /** Nothing was left out of the totals or counted twice, and every stated size is true. */
  ghost predicate TotalsExact(g: Graph, limits: Limits, root: Node, resolved: Resolved, chain: seq<Node>,
                              trail: seq<Node>) {
    && Distinct(trail)
    && (forall node :: node in trail <==> IsTreeManifest(node) && Reachable(g, root, node))
    && (forall node | node in trail :: Readable(g, node) && SizesAgree(g, node))
    && resolved.edges == Total(EdgeWeight(g), trail) <= limits.edges
    && resolved.bytes == Total(ByteWeight(g), chain) + Total(ByteWeight(g), trail) <= limits.bytes
    && |resolved.keys| <= limits.objects
  }

  lemma ClosureHolds(t: Job, s: State, generation: nat, commit: Digest, node: Node)
    requires Inv(t, s) && Exact(t, s) && ChainIs(t.g.commits, generation, commit, s.chain, generation)
             && generation >= 1
    requires forall i | 0 <= i < |s.chain| :: s.chain[i] in s.added
    requires commit in t.g.commits && t.root == Node(DirObject, t.g.commits[commit].root)
    ensures node in s.added <==> InClosure(t.g, generation, commit, node)
  {
    if node.kind == CommitObject {
      if node in s.added {
        var i :| 0 <= i < |s.chain| && s.chain[i] == node;
        assert Ancestor(t.g.commits, commit, generation, i) == Some(node.digest);
      }
      if InClosure(t.g, generation, commit, node) {
        var steps :| 0 <= steps < generation && Ancestor(t.g.commits, commit, generation, steps) == Some(node.digest);
        assert s.chain[steps] == node;
      }
    }
  }

  lemma KeysHold(objectKey: Node -> string, t: Job, s: State, generation: nat, commit: Digest, keys: seq<string>,
                 sorted: seq<string>)
    requires Injective(objectKey) && KeysList(objectKey, keys, s.added)
    requires Inv(t, s) && Exact(t, s) && ChainIs(t.g.commits, generation, commit, s.chain, generation)
             && generation >= 1
    requires forall i | 0 <= i < |s.chain| :: s.chain[i] in s.added
    requires commit in t.g.commits && t.root == Node(DirObject, t.g.commits[commit].root)
    requires Sorted(sorted) && multiset(sorted) == multiset(keys)
    ensures KeysExact(t.g, objectKey, generation, commit, sorted) && |sorted| == |keys|
  {
    KeysListExact(objectKey, keys, s.added);
    SortedKeepsKeys(keys, sorted);
    assert |multiset(sorted)| == |multiset(keys)|;
    forall node
      ensures objectKey(node) in sorted <==> InClosure(t.g, generation, commit, node)
    {
      ClosureHolds(t, s, generation, commit, node);
    }
  }

  /**
   Resolves the closure of one reference. On success the keys and totals are exact; it does
   succeed whenever all needed objects can be read, state true sizes and, listed together in
   `whole`, fit the limits.
   */
  method ResolveSnapshotClosure(
    g: Graph, objectKey: Node -> string, limits: Limits, generation: Uint64, commit: Digest, ghost whole: seq<Node>)
    returns (r: Result<Resolved>, ghost chain: seq<Node>, ghost trail: seq<Node>)
    requires Injective(objectKey) && generation >= 1
    ensures r.Ok? ==>
              && commit in g.commits && r.value.root == g.commits[commit].root
              && KeysExact(g, objectKey, generation, commit, r.value.keys)
              && ChainIs(g.commits, generation, commit, chain, generation)
              && TotalsExact(g, limits, Node(DirObject, r.value.root), r.value, chain, trail)
    ensures Resolvable(g, limits, generation, commit, whole) ==> r.Ok?
  {
    chain, trail := [], [];
    if generation > limits.objects {
      return Err(ResourceLimit), chain, trail;
    }
    ghost var root := Node(DirObject, if commit in g.commits then g.commits[commit].root else commit);
    var walker := new Walker(g, objectKey, limits, root, whole);
    var read := walker.ReadChain(commit, generation);
    if read.Err? {
      if Resolvable(g, limits, generation, commit, whole) {
        UnhinderedMeetsNone(walker.t, walker.run, walker.s, walker.obstacle);
      }
      return Err(read.error), chain, trail;
    }
    assert walker.s.chain[0].digest == commit;
    var rootNode := Node(DirObject, g.commits[commit].root);
    var walked := walker.WalkTree(rootNode);
    if walked.Err? {
      if Resolvable(g, limits, generation, commit, whole) {
        UnhinderedMeetsNone(walker.t, walker.run, walker.s, walker.obstacle);
      }
      return Err(walked.error), chain, trail;
    }
    FinishedIsExact(walker.t, walker.run, walker.s);
    RunInvariant(walker.t, walker.run, walker.s);
    var sorted := Sort(walker.keys);
    KeysHold(objectKey, walker.t, walker.s, generation, commit, walker.keys, sorted);
    return Ok(Resolved(rootNode.digest, sorted, walker.edges, walker.metadataBytes)), walker.s.chain, walker.s.trail;
  }
}
