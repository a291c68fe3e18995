/**
 The immutable object graph below a commit: what is reachable, what a walk over it must
 charge, and the order in which keys are returned.
 */
module ClosureGraph {
  import opened Basics
  import opened Ancestry

  datatype Kind = CommitObject | DirObject | FileObject | LinkObject | ChunkObject

  datatype Node = Node(kind: Kind, digest: Digest)

  datatype EntryKind = EntryDir | EntryFile | EntrySymlink

  datatype DirEntry = DirEntry(kind: EntryKind, node: Digest, size: nat)

  datatype FileManifest = FileManifest(size: nat, chunks: seq<Digest>)

  /**
   Content-addressed manifests. `malformed` lists the ones that fail their validator,
   `unavailable` the ones whose read fails, `lengths` gives the encoded length of each.
   */
  datatype Graph = Graph(
    commits: Commits,
    dirs: map<Digest, seq<DirEntry>>,
    files: map<Digest, FileManifest>,
    links: map<Digest, nat>,
    malformed: set<Node>,
    unavailable: set<Node>,
    lengths: map<Node, nat>)

  function Target(entry: DirEntry): Node {
    match entry.kind
    case EntryDir => Node(DirObject, entry.node)
    case EntryFile => Node(FileObject, entry.node)
    case EntrySymlink => Node(LinkObject, entry.node)
  }

  /** The manifest references of an object, in manifest order. */
  function Edges(g: Graph, node: Node): seq<Node> {
    match node.kind
    case DirObject =>
      if node.digest in g.dirs then seq(|g.dirs[node.digest]|,
                                    i requires 0 <= i < |g.dirs[node.digest]| => Target(g.dirs[node.digest][i]))
      else []
    case FileObject =>
      if node.digest in g.files then
        seq(|g.files[node.digest].chunks|,
        i requires 0 <= i < |g.files[node.digest].chunks| => Node(ChunkObject, g.files[node.digest].chunks[i]))
      else []
    case _ => []
  }

  function Length(g: Graph, node: Node): nat {
    if node in g.lengths then g.lengths[node] else 0
  }

  predicate IsTreeManifest(node: Node) {
    node.kind == DirObject || node.kind == FileObject || node.kind == LinkObject
  }

  /** The manifest can be read and passes its validator. */
  predicate Readable(g: Graph, node: Node) {
    && node !in g.malformed && node !in g.unavailable
    && match node.kind
       case CommitObject => node.digest in g.commits
       case DirObject => node.digest in g.dirs
       case FileObject => node.digest in g.files
       case LinkObject => node.digest in g.links
       case ChunkObject => false
  }

  /** A directory entry states the size that the referenced manifest has. */
  predicate SizeAgrees(g: Graph, entry: DirEntry) {
    match entry.kind
    case EntryDir => true
    case EntryFile => entry.node in g.files && g.files[entry.node].size == entry.size
    case EntrySymlink => entry.node in g.links && g.links[entry.node] == entry.size
  }

  ghost predicate SizesAgree(g: Graph, node: Node) {
    node.kind == DirObject && node.digest in g.dirs ==>
      forall i | 0 <= i < |g.dirs[node.digest]| :: SizeAgrees(g, g.dirs[node.digest][i])
  }

  // ------------------------------------------------------------ reachability

  ghost predicate Path(g: Graph, path: seq<Node>) {
    forall i | 0 < i < |path| :: path[i] in Edges(g, path[i - 1])
  }

  ghost predicate Leads(g: Graph, root: Node, path: seq<Node>, node: Node) {
    path != [] && path[0] == root && path[|path| - 1] == node && Path(g, path)
  }

  ghost predicate Reachable(g: Graph, root: Node, node: Node) {
    exists path :: Leads(g, root, path, node)
  }

  lemma RootReachable(g: Graph, root: Node)
    ensures Reachable(g, root, root)
  {
    assert Leads(g, root, [root], root);
  }

  lemma ReachableStep(g: Graph, root: Node, node: Node, next: Node)
    requires Reachable(g, root, node) && next in Edges(g, node)
    ensures Reachable(g, root, next)
  {
    var path :| Leads(g, root, path, node);
    assert Leads(g, root, path + [next], next);
  }

  /** A set that has the root and every successor of its members has everything reachable. */
  lemma {:induction false} ClosedHasReachable(g: Graph, root: Node, closed: set<Node>, path: seq<Node>, node: Node)
    requires Leads(g, root, path, node) && root in closed
    requires forall m, n | m in closed && n in Edges(g, m) :: n in closed
    ensures node in closed
    decreases |path|
  {
    if |path| > 1 {
      var before := path[..|path| - 1];
      assert Leads(g, root, before, before[|before| - 1]);
      ClosedHasReachable(g, root, closed, before, before[|before| - 1]);
    }
  }

  // ------------------------------------------------------------ totals

  function Total(weight: Node -> nat, nodes: seq<Node>): nat {
    if nodes == [] then 0 else Total(weight, nodes[..|nodes| - 1]) + weight(nodes[|nodes| - 1])
  }

  function EdgeWeight(g: Graph): Node -> nat {
    node => |Edges(g, node)|
  }

  function ByteWeight(g: Graph): Node -> nat {
    node => Length(g, node)
  }

  lemma TotalAppend(weight: Node -> nat, nodes: seq<Node>, node: Node)
    ensures Total(weight, nodes + [node]) == Total(weight, nodes) + weight(node)
  {
    assert (nodes + [node])[..|nodes|] == nodes;
  }

  lemma {:induction false} TotalConcat(weight: Node -> nat, a: seq<Node>, b: seq<Node>)
    ensures Total(weight, a + b) == Total(weight, a) + Total(weight, b)
    decreases |b|
  {
    if b == [] {
      assert a + b == a;
    } else {
      var last := |b| - 1;
      TotalConcat(weight, a, b[..last]);
      assert a + b == (a + b[..last]) + [b[last]];
      TotalAppend(weight, a + b[..last], b[last]);
    }
  }

  /** Charging some of the objects once never exceeds charging all of them. */
  lemma {:induction false} TotalOfPart(weight: Node -> nat, part: seq<Node>, whole: seq<Node>)
    requires Distinct(part) && forall i | 0 <= i < |part| :: part[i] in whole
    ensures Total(weight, part) <= Total(weight, whole)
    decreases |part|
  {
    if part != [] {
      var last := |part| - 1;
      var node := part[last];
      var k :| 0 <= k < |whole| && whole[k] == node;
      var rest := whole[..k] + whole[k + 1..];
      assert whole == whole[..k] + ([node] + whole[k + 1..]);
      TotalConcat(weight, whole[..k], [node] + whole[k + 1..]);
      TotalConcat(weight, [node], whole[k + 1..]);
      TotalConcat(weight, whole[..k], whole[k + 1..]);
      assert [node] == [] + [node];
      TotalAppend(weight, [], node);
      forall i | 0 <= i < last
        ensures part[..last][i] in rest
      {
        var j :| 0 <= j < |whole| && whole[j] == part[i];
        assert rest[if j < k then j else j - 1] == part[i];
      }
      TotalOfPart(weight, part[..last], rest);
    }
  }

  // ------------------------------------------------------------ key order

  predicate Below(a: string, b: string) {
    a == [] || (b != [] && (a[0] < b[0] || (a[0] == b[0] && Below(a[1..], b[1..]))))
  }

  predicate Sorted(keys: seq<string>) {
    forall i, j | 0 <= i < j < |keys| :: Below(keys[i], keys[j])
  }

  lemma {:induction false} BelowTotal(a: string, b: string)
    ensures Below(a, b) || Below(b, a)
  {
    if a != [] && b != [] && a[0] == b[0] {
      BelowTotal(a[1..], b[1..]);
    }
  }

  lemma {:induction false} BelowTransitive(a: string, b: string, c: string)
    requires Below(a, b) && Below(b, c)
    ensures Below(a, c)
  {
    if a != [] && a[0] == b[0] && b[0] == c[0] {
      BelowTransitive(a[1..], b[1..], c[1..]);
    }
  }

  /** Sorting by insertion: the same keys, each as often, in byte order. */
  method Sort(keys: seq<string>) returns (sorted: seq<string>)
    ensures Sorted(sorted) && multiset(sorted) == multiset(keys)
  {
    sorted := [];
    for i := 0 to |keys|
      invariant Sorted(sorted) && multiset(sorted) == multiset(keys[..i])
    {
      sorted := Insert(sorted, keys[i]);
      assert keys[..i + 1] == keys[..i] + [keys[i]];
    }
    assert keys[..|keys|] == keys;
  }

  method Insert(sorted: seq<string>, key: string) returns (r: seq<string>)
    requires Sorted(sorted)
    ensures Sorted(r) && multiset(r) == multiset(sorted) + multiset{key}
  {
    var at := |sorted|;
    while at > 0 && Below(key, sorted[at - 1])
      invariant 0 <= at <= |sorted|
      invariant forall i | at <= i < |sorted| :: Below(key, sorted[i])
    {
      at := at - 1;
    }
    if at > 0 {
      BelowTotal(key, sorted[at - 1]);
    }
    forall i | 0 <= i < at
      ensures Below(sorted[i], key)
    {
      if i < at - 1 {
        BelowTransitive(sorted[i], sorted[at - 1], key);
      }
    }
    r := sorted[..at] + [key] + sorted[at..];
    assert sorted == sorted[..at] + sorted[at..];
  }

  /** Distinct keys stay distinct under sorting, and no key is lost or invented. */
  lemma SortedKeepsKeys(keys: seq<string>, sorted: seq<string>)
    requires multiset(sorted) == multiset(keys) && Distinct(keys)
    ensures Distinct(sorted) && (forall key :: key in sorted <==> key in keys)
  {
    forall key
      ensures key in sorted <==> key in keys
    {
      assert key in multiset(sorted) <==> key in multiset(keys);
    }
    DistinctCounts(keys);
    CountsDistinct(sorted);
  }
}
