/**
 The steps of the closure walker as a state machine: reading commits, taking queued objects
 up, paying for and following their references, each object once. The invariant of every run
 is what makes the result exact.
 */
module ClosureSteps {
  import opened Basics
  import opened Ancestry
  import opened ClosureGraph

  datatype Work = Work(node: Node, depth: nat)

  datatype Limits = Limits(objects: nat, edges: nat, bytes: nat)

  function UnitWeight(): Node -> nat {
    (node: Node) => 1
  }

  lemma {:induction false} UnitTotal(nodes: seq<Node>)
    ensures Total(UnitWeight(), nodes) == |nodes|
  {
    if nodes != [] {
      UnitTotal(nodes[..|nodes| - 1]);
    }
  }

  /** The recorded sizes cover the first `count` entries of a directory. */
  ghost predicate SizesRecorded(g: Graph, files: map<Digest, nat>, links: map<Digest, nat>, node: Node, count: nat) {
    node.kind == DirObject && node.digest in g.dirs && count <= |g.dirs[node.digest]| ==>
      forall i | 0 <= i < count :: EntryRecorded(files, links, g.dirs[node.digest][i])
  }

  ghost predicate EntryRecorded(files: map<Digest, nat>, links: map<Digest, nat>, entry: DirEntry) {
    match entry.kind
    case EntryDir => true
    case EntryFile => entry.node in files && files[entry.node] == entry.size
    case EntrySymlink => entry.node in links && links[entry.node] == entry.size
  }

  /** A popped file or link manifest has the size it was scheduled with. */
  ghost predicate SizeConfirmed(g: Graph, files: map<Digest, nat>, links: map<Digest, nat>, node: Node) {
    && (node.kind == FileObject ==>
          node.digest in g.files && node.digest in files && files[node.digest] == g.files[node.digest].size)
    && (node.kind == LinkObject ==>
          node.digest in g.links && node.digest in links && links[node.digest] == g.links[node.digest])
  }

  /** A way down from the root, without repetition, to a directory that has entries. */
  ghost predicate Nested(g: Graph, root: Node, path: seq<Node>) {
    && path != [] && Distinct(path) && Leads(g, root, path, path[|path| - 1])
    && path[|path| - 1].kind == DirObject && Edges(g, path[|path| - 1]) != []
  }

  /**
   Nothing stands in the way of a walk: `whole` has everything reachable, every manifest in it
   can be read and states true sizes, all of it together fits the limits, and no way down is
   longer than the limit on directory levels.
   */
  ghost predicate Fine(g: Graph, root: Node, whole: seq<Node>, limits: Limits) {
    && (forall node | Reachable(g, root, node) :: node in whole)
    && (forall node | node in whole :: node.kind != ChunkObject ==> Readable(g, node) && SizesAgree(g, node))
    && (forall node | node in whole :: node.kind != ChunkObject ==> 0 < Length(g, node) <= MAX_METADATA_OBJECT_BYTES)
    && |whole| <= limits.objects
    && Total(EdgeWeight(g), whole) <= limits.edges
    && Total(ByteWeight(g), whole) <= limits.bytes
    && (forall path | Nested(g, root, path) :: |path| <= MAX_LOOKUP_DEPTH)
  }

  // ------------------------------------------------------------ the state machine

  /** What is walked: the graph, the root, the limits, and a superset of what is reachable. */
  datatype Job = Job(g: Graph, root: Node, whole: seq<Node>, limits: Limits)

  /**
   `added` holds the nodes whose keys are collected, `chain` the commits read, `trail` the
   objects expanded and `current` the one being expanded, of whose references `paid` are paid
   for and `progress` followed. `paths` has the way by which each scheduled object was found.
   */
  datatype State = State(
    edges: nat,
    bytes: nat,
    scheduled: set<Node>,
    work: seq<Work>,
    fileSizes: map<Digest, nat>,
    linkSizes: map<Digest, nat>,
    added: set<Node>,
    chain: seq<Node>,
    trail: seq<Node>,
    current: Option<Node>,
    paid: nat,
    progress: nat,
    paths: map<Node, seq<Node>>)

  const START := State(0, 0, {}, [], map[], map[], {}, [], [], None, 0, 0, map[])

  datatype Event =
    | ReadCommit(node: Node)
    | Add(node: Node)
    | Open
    | Pay
    | Record(entry: DirEntry)
    | Enqueue(node: Node, depth: nat)
    | Advance
    | Close

  function Share(weight: Node -> nat, current: Option<Node>): nat {
    if current.Some? then weight(current.value) else 0
  }

  /** The way to the object being expanded; its length is the depth of what it refers to. */
  function Way(s: State): seq<Node> {
    if s.current.Some? && s.current.value in s.paths then s.paths[s.current.value] else []
  }

  ghost predicate Enabled(t: Job, s: State, event: Event) {
    match event
    case ReadCommit(node) =>
      && node.kind == CommitObject && node !in s.chain && s.current.None? && Readable(t.g, node)
      && s.bytes + Length(t.g, node) <= t.limits.bytes
    case Add(node) =>
      if node.kind == CommitObject then node in s.chain
      else node.kind == ChunkObject && s.current.Some? && node in Edges(t.g, s.current.value)
    case Open =>
      && s.work != [] && s.current.None?
      && var node := s.work[|s.work| - 1].node;
      && Readable(t.g, node) && SizeConfirmed(t.g, s.fileSizes, s.linkSizes, node)
      && s.bytes + Length(t.g, node) <= t.limits.bytes
    case Pay =>
      s.current.Some? && s.paid == s.progress < |Edges(t.g, s.current.value)| && s.edges < t.limits.edges
    case Record(entry) =>
      && s.current.Some? && s.current.value.kind == DirObject && s.current.value.digest in t.g.dirs
      && entry in t.g.dirs[s.current.value.digest]
      && (entry.kind == EntryFile && entry.node in s.fileSizes ==> s.fileSizes[entry.node] == entry.size)
      && (entry.kind == EntrySymlink && entry.node in s.linkSizes ==> s.linkSizes[entry.node] == entry.size)
    case Enqueue(node, depth) =>
      && IsTreeManifest(node) && node !in s.scheduled && depth == |Way(s)|
      && (if s.current.None? then node == t.root else node in Edges(t.g, s.current.value))
      && (node.kind == FileObject ==> node.digest in s.fileSizes)
      && (node.kind == LinkObject ==> node.digest in s.linkSizes)
    case Advance =>
      && s.current.Some? && s.progress < s.paid <= |Edges(t.g, s.current.value)|
      && Edges(t.g, s.current.value)[s.progress] in s.added
      && SizesRecorded(t.g, s.fileSizes, s.linkSizes, s.current.value, s.progress + 1)
    case Close => s.current.Some? && s.progress == s.paid == |Edges(t.g, s.current.value)|
  }

  ghost function Apply(t: Job, s: State, event: Event): State {
    match event
    case ReadCommit(node) => s.(chain := s.chain + [node], bytes := s.bytes + Length(t.g, node))
    case Add(node) => s.(added := s.added + {node})
    case Open =>
      if s.work == [] then s
      else
        var node := s.work[|s.work| - 1].node;
        s.(work := s.work[..|s.work| - 1], current := Some(node), paid := 0, progress := 0,
        bytes := s.bytes + Length(t.g, node))
    case Pay => s.(edges := s.edges + 1, paid := s.paid + 1)
    case Record(entry) =>
      if entry.kind == EntryFile then s.(fileSizes := s.fileSizes[entry.node := entry.size])
      else if entry.kind == EntrySymlink then s.(linkSizes := s.linkSizes[entry.node := entry.size])
      else s
    case Enqueue(node, depth) =>
      s.(scheduled := s.scheduled + {node}, added := s.added + {node}, work := s.work + [Work(node, depth)],
      paths := s.paths[node := Way(s) + [node]])
    case Advance => s.(progress := s.progress + 1)
    case Close => if s.current.None? then s else s.(trail := s.trail + [s.current.value], current := None)
  }

  ghost predicate Reaches(t: Job, run: seq<Event>, s: State)
    decreases |run|, 1
  {
    if run == [] then s == START else ReachesByStep(t, run, s)
  }

  ghost predicate ReachesByStep(t: Job, run: seq<Event>, s: State)
    requires run != []
    decreases |run|, 0
  {
    var last := |run| - 1;
    exists before :: Reaches(t, run[..last], before) && Enabled(t, before, run[last])
                     && s == Apply(t, before, run[last])
  }

  // ------------------------------------------------------------ what every run keeps

  ghost predicate Queued(work: seq<Work>, node: Node) {
    exists i :: 0 <= i < |work| && work[i].node == node
  }

  /** Every scheduled object is expanded, being expanded or queued, exactly one of these. */
  ghost predicate Partitioned(s: State) {
    && Distinct(s.trail) && (s.current.Some? ==> s.current.value !in s.trail && s.current.value in s.scheduled)
    && (forall i, j | 0 <= i < j < |s.work| :: s.work[i].node != s.work[j].node)
    && (forall i | 0 <= i < |s.work| ::
          s.work[i].node in s.scheduled && s.work[i].node !in s.trail && s.current != Some(s.work[i].node))
    && (forall i | 0 <= i < |s.trail| :: s.trail[i] in s.scheduled)
    && (forall node | node in s.scheduled :: node in s.trail || s.current == Some(node) || Queued(s.work, node))
  }

  /** The collected nodes: the scheduled objects, commits that were read, chunks. */
  ghost predicate Listed(s: State) {
    && (forall node | node in s.scheduled :: IsTreeManifest(node) && node in s.added)
    && (forall node | node in s.added :: IsTreeManifest(node) ==> node in s.scheduled)
    && (forall node | node in s.added :: node.kind == CommitObject ==> node in s.chain)
    && Distinct(s.chain) && (forall i | 0 <= i < |s.chain| :: s.chain[i].kind == CommitObject)
  }

  /** The first `count` references of a node have been followed. */
  ghost predicate Followed(t: Job, s: State, node: Node, count: nat) {
    && Readable(t.g, node) && count <= |Edges(t.g, node)|
    && (forall i | 0 <= i < count :: Edges(t.g, node)[i] in s.added)
    && SizesRecorded(t.g, s.fileSizes, s.linkSizes, node, count) && SizeConfirmed(t.g, s.fileSizes, s.linkSizes, node)
  }

  ghost predicate Explored(t: Job, s: State) {
    && (forall i | 0 <= i < |s.trail| :: Followed(t, s, s.trail[i], |Edges(t.g, s.trail[i])|))
    && (s.current.Some? ==> Followed(t, s, s.current.value, s.progress))
    && (forall node | node in s.scheduled :: node.kind == FileObject ==> node.digest in s.fileSizes)
    && (forall node | node in s.scheduled :: node.kind == LinkObject ==> node.digest in s.linkSizes)
  }

  ghost predicate Charged(t: Job, s: State) {
    && s.edges == Total(EdgeWeight(t.g), s.trail) + (if s.current.Some? then s.paid else 0) <= t.limits.edges
    && s.bytes == Total(ByteWeight(t.g), s.chain) + Total(ByteWeight(t.g), s.trail)
       + Share(ByteWeight(t.g), s.current) <= t.limits.bytes
  }

  /** The recorded way leads to the object over scheduled ones, none of them twice. */
  ghost predicate FoundBy(t: Job, s: State, node: Node) {
    && node in s.paths && Leads(t.g, t.root, s.paths[node], node) && Distinct(s.paths[node])
    && forall m | m in s.paths[node] :: m in s.scheduled
  }

  /** Every scheduled object has its way, and a queued one is as deep as its way is long. */
  ghost predicate Pathed(t: Job, s: State) {
    && (forall node | node in s.scheduled :: FoundBy(t, s, node))
    && (s.current.Some? ==> s.current.value in s.scheduled)
    && (forall i | 0 <= i < |s.work| :: s.work[i].node in s.scheduled
                                        && |s.paths[s.work[i].node]| == s.work[i].depth + 1)
  }

  ghost predicate Warranted(t: Job, s: State) {
    && (forall node | node in s.added && node.kind != CommitObject :: Reachable(t.g, t.root, node))
    && (s.current.Some? ==> Reachable(t.g, t.root, s.current.value))
    && (forall i | 0 <= i < |s.work| :: Reachable(t.g, t.root, s.work[i].node))
  }

  /** Nothing stands in the way of this walk. */
  ghost predicate Free(t: Job, s: State) {
    Fine(t.g, t.root, t.whole, t.limits) && forall i | 0 <= i < |s.chain| :: s.chain[i] in t.whole
  }

  /** Then the recorded sizes are the true ones. */
  ghost predicate SizesTrue(t: Job, s: State) {
    Fine(t.g, t.root, t.whole, t.limits) ==>
      && (forall digest | digest in s.fileSizes :: digest in t.g.files && t.g.files[digest].size == s.fileSizes[digest])
      && (forall digest | digest in s.linkSizes :: digest in t.g.links && t.g.links[digest] == s.linkSizes[digest])
  }

  lemma PartitionedOpen(s: State, after: State)
    requires Partitioned(s) && s.work != [] && s.current.None?
    requires after.work == s.work[..|s.work| - 1] && after.current == Some(s.work[|s.work| - 1].node)
    requires after.trail == s.trail && after.scheduled == s.scheduled
    ensures Partitioned(after)
  {
    forall node | node in after.scheduled
      ensures node in after.trail || after.current == Some(node) || Queued(after.work, node)
    {
      if Queued(s.work, node) && after.current != Some(node) {
        var i :| 0 <= i < |s.work| && s.work[i].node == node;
        assert after.work[i].node == node;
      }
    }
  }

  lemma PartitionedEnqueue(s: State, after: State, item: Work)
    requires Partitioned(s) && item.node !in s.scheduled
    requires after.work == s.work + [item] && after.scheduled == s.scheduled + {item.node}
    requires after.trail == s.trail && after.current == s.current
    ensures Partitioned(after)
  {
    assert item.node !in s.trail;
    forall node | node in after.scheduled
      ensures node in after.trail || after.current == Some(node) || Queued(after.work, node)
    {
      if node == item.node {
        assert after.work[|s.work|].node == node;
      } else if Queued(s.work, node) {
        var i :| 0 <= i < |s.work| && s.work[i].node == node;
        assert after.work[i].node == node;
      }
    }
  }

  lemma PartitionedStep(t: Job, s: State, event: Event)
    requires Partitioned(s) && Enabled(t, s, event)
    ensures Partitioned(Apply(t, s, event))
  {
    match event
    case Open => PartitionedOpen(s, Apply(t, s, event));
    case Enqueue(node, depth) => PartitionedEnqueue(s, Apply(t, s, event), Work(node, depth));
    case Close => assert Partitioned(Apply(t, s, event));
    case _ =>
  }

  lemma ListedStep(t: Job, s: State, event: Event)
    requires Listed(s) && Enabled(t, s, event)
    ensures Listed(Apply(t, s, event))
  {
  }

  lemma FollowedGrows(t: Job, s: State, after: State, node: Node, count: nat)
    requires s.added <= after.added && Submap(s.fileSizes, after.fileSizes) && Submap(s.linkSizes, after.linkSizes)
    requires Followed(t, s, node, count)
    ensures Followed(t, after, node, count)
  {
  }

  /** Collecting more keys and sizes keeps what has been explored. */
  lemma ExploredGrows(t: Job, s: State, after: State)
    requires s.added <= after.added && Submap(s.fileSizes, after.fileSizes) && Submap(s.linkSizes, after.linkSizes)
    requires Explored(t, s) && after.trail == s.trail && after.current == s.current && after.progress == s.progress
    requires after.scheduled == s.scheduled
    ensures Explored(t, after)
  {
    forall i | 0 <= i < |after.trail|
      ensures Followed(t, after, after.trail[i], |Edges(t.g, after.trail[i])|)
    {
      FollowedGrows(t, s, after, after.trail[i], |Edges(t.g, after.trail[i])|);
    }
    if after.current.Some? {
      FollowedGrows(t, s, after, after.current.value, after.progress);
    }
  }

  lemma ExploredClose(t: Job, s: State)
    requires Explored(t, s) && s.current.Some? && s.progress == |Edges(t.g, s.current.value)|
    ensures Explored(t, s.(trail := s.trail + [s.current.value], current := None))
  {
    var after := s.(trail := s.trail + [s.current.value], current := None);
    forall i | 0 <= i < |after.trail|
      ensures Followed(t, after, after.trail[i], |Edges(t.g, after.trail[i])|)
    {
      FollowedGrows(t, s, after, after.trail[i], |Edges(t.g, after.trail[i])|);
    }
  }

  lemma ExploredStep(t: Job, s: State, event: Event)
    requires Explored(t, s) && Enabled(t, s, event)
    ensures Explored(t, Apply(t, s, event))
  {
    var after := Apply(t, s, event);
    match event
    case Enqueue(node, _) => ExploredGrows(t, s, after.(scheduled := s.scheduled, work := s.work));
    case Close => ExploredClose(t, s);
    case Open =>
    case Advance =>
    case _ => ExploredGrows(t, s, after);
  }

  lemma ChargedClose(t: Job, s: State)
    requires Charged(t, s) && s.current.Some? && s.paid == |Edges(t.g, s.current.value)|
    ensures Charged(t, s.(trail := s.trail + [s.current.value], current := None))
  {
    TotalAppend(ByteWeight(t.g), s.trail, s.current.value);
    TotalAppend(EdgeWeight(t.g), s.trail, s.current.value);
  }

  lemma ChargedStep(t: Job, s: State, event: Event)
    requires Charged(t, s) && Enabled(t, s, event)
    ensures Charged(t, Apply(t, s, event))
  {
    match event
    case ReadCommit(node) => TotalAppend(ByteWeight(t.g), s.chain, node);
    case Close => ChargedClose(t, s);
    case _ =>
  }

  lemma PathedEnqueue(t: Job, s: State, node: Node)
    requires Pathed(t, s) && Enabled(t, s, Enqueue(node, |Way(s)|))
    ensures FoundBy(t, Apply(t, s, Enqueue(node, |Way(s)|)), node)
  {
    var way := Way(s);
    if s.current.Some? {
      assert FoundBy(t, s, s.current.value);
      assert Leads(t.g, t.root, way + [node], node) by {
        assert forall i | 0 < i < |way| :: (way + [node])[i] in Edges(t.g, (way + [node])[i - 1]);
      }
    } else {
      assert way + [node] == [node];
    }
  }

  lemma PathedStep(t: Job, s: State, event: Event)
    requires Pathed(t, s) && Enabled(t, s, event)
    ensures Pathed(t, Apply(t, s, event))
  {
    var after := Apply(t, s, event);
    if event.Enqueue? {
      PathedEnqueue(t, s, event.node);
    }
    forall node | node in after.scheduled ensures FoundBy(t, after, node) {
      if node in s.scheduled {
        assert FoundBy(t, s, node);
      }
    }
  }

  lemma WarrantedStep(t: Job, s: State, event: Event)
    requires Warranted(t, s) && Enabled(t, s, event)
    ensures Warranted(t, Apply(t, s, event))
  {
    if event.Add? || event.Enqueue? {
      if event.Enqueue? && event.node == t.root {
        RootReachable(t.g, t.root);
      } else if event.node.kind != CommitObject {
        ReachableStep(t.g, t.root, s.current.value, event.node);
      }
    }
  }

  lemma SizesTrueStep(t: Job, s: State, event: Event)
    requires SizesTrue(t, s) && Warranted(t, s) && Enabled(t, s, event)
    ensures SizesTrue(t, Apply(t, s, event))
  {
    if event.Record? && Fine(t.g, t.root, t.whole, t.limits) {
      var directory := s.current.value;
      assert directory in t.whole && SizesAgree(t.g, directory);
      var i :| 0 <= i < |t.g.dirs[directory.digest]| && t.g.dirs[directory.digest][i] == event.entry;
      assert SizeAgrees(t.g, event.entry);
    }
  }

  ghost predicate Inv(t: Job, s: State) {
    && Partitioned(s) && Listed(s) && Explored(t, s) && Charged(t, s) && Pathed(t, s)
    && Warranted(t, s) && SizesTrue(t, s)
  }

  lemma {:induction false} RunInvariant(t: Job, run: seq<Event>, s: State)
    requires Reaches(t, run, s)
    ensures Inv(t, s)
    decreases |run|
  {
    if run != [] {
      var last := |run| - 1;
      assert ReachesByStep(t, run, s);
      var before :| Reaches(t, run[..last], before) && Enabled(t, before, run[last])
                    && s == Apply(t, before, run[last]);
      RunInvariant(t, run[..last], before);
      StepInvariant(t, before, run[last]);
    }
  }

  lemma StepInvariant(t: Job, s: State, event: Event)
    requires Inv(t, s) && Enabled(t, s, event)
    ensures Inv(t, Apply(t, s, event))
  {
    PartitionedStep(t, s, event);
    ListedStep(t, s, event);
    ExploredStep(t, s, event);
    ChargedStep(t, s, event);
    PathedStep(t, s, event);
    WarrantedStep(t, s, event);
    SizesTrueStep(t, s, event);
  }
}
