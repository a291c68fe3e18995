/**
 Publishing a selection of paths: the trie of selected paths, and the projection of a source
 tree onto it. Paths are canonical and relative, as lists of components.
 */
module PathSelection {
  import opened Basics

  const MAX_DIRECTORY_ENTRIES: nat := 250_000
  const MAX_ENTRY_NAME_BYTES: nat := 255
  const MAX_LOOKUP_PATH_BYTES: nat := 1024 * 1024

  type Path = seq<string>

  /** `includeAll` marks a selected path. */
  datatype Trie = Trie(includeAll: bool, children: map<string, Trie>)

  const EMPTY := Trie(false, map[])

  predicate Selects(trie: Trie, path: Path) {
    if path == [] then trie.includeAll
    else path[0] in trie.children && Selects(trie.children[path[0]], path[1..])
  }

  predicate HasNode(trie: Trie, path: Path) {
    path == [] || (path[0] in trie.children && HasNode(trie.children[path[0]], path[1..]))
  }

  function ChildOf(trie: Trie, name: string): Trie {
    if name in trie.children then trie.children[name] else EMPTY
  }

  /** Adds one path; None if it meets a selected path above, at or below it. */
  function Insert(trie: Trie, path: Path): Option<Trie>
    decreases path
  {
    if path == [] then
      if trie.includeAll || trie.children != map[] then None else Some(Trie(true, map[]))
    else if trie.includeAll then None
    else
      match Insert(ChildOf(trie, path[0]), path[1..])
      case None => None
      case Some(child) => Some(Trie(false, trie.children[path[0] := child]))
  }

  /** How many nodes the insertion creates. */
  function NewNodes(trie: Trie, path: Path): nat {
    if path == [] then 0
    else if path[0] in trie.children then NewNodes(trie.children[path[0]], path[1..])
    else |path|
  }

  lemma {:induction false} EmptySelects(path: Path)
    ensures !Selects(EMPTY, path) && (HasNode(EMPTY, path) <==> path == [])
  {
  }

  lemma {:induction false} InsertSelects(trie: Trie, path: Path, other: Path)
    requires Insert(trie, path).Some?
    ensures Selects(Insert(trie, path).value, other) <==> Selects(trie, other) || other == path
    decreases path
  {
    if path != [] && other != [] && other[0] == path[0] {
      InsertSelects(ChildOf(trie, path[0]), path[1..], other[1..]);
      EmptySelects(other[1..]);
      assert path == [path[0]] + path[1..] && other == [other[0]] + other[1..];
    }
  }

  lemma {:induction false} InsertNodes(trie: Trie, path: Path, other: Path)
    requires Insert(trie, path).Some?
    ensures HasNode(Insert(trie, path).value, other) <==> HasNode(trie, other) || other <= path
    decreases path
  {
    if path != [] && other != [] && other[0] == path[0] {
      InsertNodes(ChildOf(trie, path[0]), path[1..], other[1..]);
      EmptySelects(other[1..]);
      assert other[1..] <= path[1..] <==> other <= path by {
        assert path == [path[0]] + path[1..] && other == [other[0]] + other[1..];
      }
    }
  }

  /** No selected path is `path` or above it. */
  ghost predicate FreeAbove(trie: Trie, path: Path) {
    forall k | 0 <= k <= |path| :: !Selects(trie, path[..k])
  }

  /** No node lies below `path`. */
  ghost predicate FreeBelow(trie: Trie, path: Path) {
    forall name :: !HasNode(trie, path + [name])
  }

  lemma FreeAboveStep(trie: Trie, path: Path)
    requires path != []
    ensures FreeAbove(trie, path) <==> !trie.includeAll && FreeAbove(ChildOf(trie, path[0]), path[1..])
  {
    var child, rest := ChildOf(trie, path[0]), path[1..];
    forall k | 1 <= k <= |path|
      ensures Selects(trie, path[..k]) <==> Selects(child, rest[..k - 1])
    {
      assert path[..k][1..] == rest[..k - 1];
      EmptySelects(rest[..k - 1]);
    }
    assert path[..0] == [];
    if FreeAbove(trie, path) {
      forall k | 0 <= k <= |rest|
        ensures !Selects(child, rest[..k])
      {
        assert !Selects(trie, path[..k + 1]);
      }
    }
  }

  lemma FreeBelowStep(trie: Trie, path: Path)
    requires path != []
    ensures FreeBelow(trie, path) <==> FreeBelow(ChildOf(trie, path[0]), path[1..])
  {
    var child, rest := ChildOf(trie, path[0]), path[1..];
    forall name
      ensures HasNode(trie, path + [name]) <==> HasNode(child, rest + [name])
    {
      assert (path + [name])[1..] == rest + [name];
      EmptySelects(rest + [name]);
    }
  }

  /** An insertion succeeds exactly when nothing is selected on the way and nothing lies below. */
  lemma {:induction false} InsertExact(trie: Trie, path: Path)
    ensures Insert(trie, path).Some? <==> FreeAbove(trie, path) && FreeBelow(trie, path)
    decreases path
  {
    if path == [] {
      assert path[..0] == [];
      if trie.children != map[] {
        var name :| name in trie.children;
        assert HasNode(trie, path + [name]);
      }
    } else {
      FreeAboveStep(trie, path);
      FreeBelowStep(trie, path);
      InsertExact(ChildOf(trie, path[0]), path[1..]);
    }
  }

  // ------------------------------------------------------------ building the trie

  /** No path is another one or above another one. */
  ghost predicate Antichain(values: seq<Path>) {
    forall i, j | 0 <= i < |values| && 0 <= j < |values| && i != j :: !(values[i] <= values[j])
  }

  /** Whether `path` is `other`, or one of them is above the other. */
  predicate Related(path: Path, other: Path) {
    path <= other || other <= path
  }

  ghost predicate AboveSome(values: seq<Path>, path: Path) {
    exists i :: 0 <= i < |values| && path <= values[i]
  }

  /** The trie selects exactly these paths, and its nodes are exactly the ways to them. */
  ghost predicate Holds(trie: Trie, values: seq<Path>) {
    && (forall path :: Selects(trie, path) <==> path in values)
    && (forall path :: HasNode(trie, path) <==> path == [] || AboveSome(values, path))
  }

  lemma HoldsAppend(trie: Trie, values: seq<Path>, path: Path)
    requires Holds(trie, values) && Insert(trie, path).Some?
    ensures Holds(Insert(trie, path).value, values + [path])
  {
    var after, all := Insert(trie, path).value, values + [path];
    forall other
      ensures Selects(after, other) <==> other in all
      ensures HasNode(after, other) <==> other == [] || AboveSome(all, other)
    {
      InsertSelects(trie, path, other);
      InsertNodes(trie, path, other);
      if other <= path {
        assert all[|values|] == path;
      }
      if AboveSome(values, other) {
        var i :| 0 <= i < |values| && other <= values[i];
        assert other <= all[i];
      }
    }
  }

  lemma RelatedObstructs(trie: Trie, values: seq<Path>, path: Path, i: nat)
    requires Holds(trie, values) && i < |values| && Related(path, values[i])
    ensures !FreeAbove(trie, path) || !FreeBelow(trie, path)
  {
    var other := values[i];
    if other <= path {
      assert path[..|other|] == other;
      assert Selects(trie, path[..|other|]);
    } else {
      var next := path + [other[|path|]];
      assert next <= other;
      assert AboveSome(values, next);
      assert HasNode(trie, next);
    }
  }

  lemma ObstacleIsRelated(trie: Trie, values: seq<Path>, path: Path)
    requires Holds(trie, values) && !(FreeAbove(trie, path) && FreeBelow(trie, path))
    ensures exists i | 0 <= i < |values| :: Related(path, values[i])
  {
    if !FreeAbove(trie, path) {
      var k :| 0 <= k <= |path| && Selects(trie, path[..k]);
      assert path[..k] in values;
      var i :| 0 <= i < |values| && values[i] == path[..k];
      assert Related(path, values[i]);
    } else {
      var name :| HasNode(trie, path + [name]);
      assert AboveSome(values, path + [name]);
      var i :| 0 <= i < |values| && path + [name] <= values[i];
      assert Related(path, values[i]);
    }
  }

  /** A path is refused exactly when it is related to one already there. */
  lemma InsertConflict(trie: Trie, values: seq<Path>, path: Path)
    requires Holds(trie, values)
    ensures Insert(trie, path).Some? <==> forall i | 0 <= i < |values| :: !Related(path, values[i])
  {
    InsertExact(trie, path);
    if Insert(trie, path).None? {
      ObstacleIsRelated(trie, values, path);
    } else {
      forall i | 0 <= i < |values|
        ensures !Related(path, values[i])
      {
        if Related(path, values[i]) {
          RelatedObstructs(trie, values, path, i);
        }
      }
    }
  }

  // ------------------------------------------------------------ counting nodes

  /** The nodes that a set of paths needs, the root aside. */
  ghost function Prefixes(values: seq<Path>): set<Path> {
    set i, k | 0 <= i < |values| && 1 <= k <= |values[i]| :: values[i][..k]
  }

  /** The prefixes of a path that are longer than `m`. */
  ghost function LongPrefixes(path: Path, m: nat): (long: set<Path>)
    requires m <= |path|
    ensures |long| == |path| - m
    ensures forall other :: other in long <==> other <= path && |other| > m
    decreases |path| - m
  {
    if m == |path| then {}
    else
      assert forall other | other <= path && |other| == m + 1 :: other == path[..m + 1];
      {path[..m + 1]} + LongPrefixes(path, m + 1)
  }

  /** The nodes that exist on the way to a path are its short prefixes. */
  lemma {:induction false} NodesOnTheWay(trie: Trie, path: Path, k: nat)
    requires k <= |path|
    ensures NewNodes(trie, path) <= |path|
    ensures HasNode(trie, path[..k]) <==> k <= |path| - NewNodes(trie, path)
    decreases path
  {
    if path != [] && path[0] in trie.children {
      if k > 0 {
        assert path[..k][1..] == path[1..][..k - 1];
        NodesOnTheWay(trie.children[path[0]], path[1..], k - 1);
      } else {
        NodesOnTheWay(trie.children[path[0]], path[1..], 0);
      }
    }
  }

  lemma NewNodesCount(trie: Trie, values: seq<Path>, path: Path)
    requires Holds(trie, values)
    ensures |Prefixes(values + [path])| == |Prefixes(values)| + NewNodes(trie, path)
  {
    NodesOnTheWay(trie, path, 0);
    var m := |path| - NewNodes(trie, path);
    var all, long := values + [path], LongPrefixes(path, m);
    forall other
      ensures other in Prefixes(all) <==> other in Prefixes(values) || other in long
      ensures !(other in Prefixes(values) && other in long)
    {
      PrefixesExact(all, other);
      PrefixesExact(values, other);
      if other <= path {
        NodesOnTheWay(trie, path, |other|);
        assert path[..|other|] == other;
        assert all[|values|] == path;
      }
      if AboveSome(values, other) {
        var i :| 0 <= i < |values| && other <= values[i];
        assert other <= all[i];
      }
    }
    assert Prefixes(all) == Prefixes(values) + long;
  }

  lemma PrefixesExact(values: seq<Path>, path: Path)
    ensures path in Prefixes(values) <==> path != [] && AboveSome(values, path)
  {
    if path != [] && AboveSome(values, path) {
      var i :| 0 <= i < |values| && path <= values[i];
      assert values[i][..|path|] == path;
    }
  }

  // ------------------------------------------------------------ the selection

  datatype Selection = All | Only(trie: Trie)

  /** How long a path is as a string: a dot, or its components with slashes between them. */
  function PathBytes(path: Path): nat {
    if path == [] then 1
    else if |path| == 1 then |path[0]|
    else |path[0]| + 1 + PathBytes(path[1..])
  }

  function TotalBytes(values: seq<Path>): nat {
    if values == [] then 0 else TotalBytes(values[..|values| - 1]) + PathBytes(values[|values| - 1])
  }

  predicate ValidPath(path: Path) {
    && PathBytes(path) <= MAX_LOOKUP_PATH_BYTES && |path| <= MAX_LOOKUP_DEPTH
    && forall i | 0 <= i < |path| :: 0 < |path[i]| <= MAX_ENTRY_NAME_BYTES
  }

  /** What a selection may be: an antichain of valid paths within the limits. */
  ghost predicate Acceptable(values: seq<Path>) {
    && 0 < |values| <= MAX_DIRECTORY_ENTRIES
    && (forall i | 0 <= i < |values| :: ValidPath(values[i])) && TotalBytes(values) <= MAX_METADATA_OBJECT_BYTES
    && Antichain(values) && |Prefixes(values)| <= MAX_DIRECTORY_ENTRIES
  }

  lemma AntichainAppend(values: seq<Path>, path: Path)
    ensures Antichain(values + [path])
       <==> Antichain(values) && forall i | 0 <= i < |values| :: !Related(path, values[i])
  {
    var all := values + [path];
    if Antichain(all) {
      forall i, j | 0 <= i < |values| && 0 <= j < |values| && i != j
        ensures !(values[i] <= values[j])
      {
        assert !(all[i] <= all[j]);
      }
      forall i | 0 <= i < |values|
        ensures !Related(path, values[i])
      {
        assert !(all[i] <= all[|values|]) && !(all[|values|] <= all[i]);
      }
    }
  }

  lemma {:induction false} AntichainPrefix(values: seq<Path>, k: nat)
    requires k <= |values| && Antichain(values)
    ensures Antichain(values[..k]) && Prefixes(values[..k]) <= Prefixes(values)
  {
    forall i, j | 0 <= i < k && 0 <= j < k && i != j
      ensures !(values[..k][i] <= values[..k][j])
    {
      assert !(values[i] <= values[j]);
    }
    forall path | path in Prefixes(values[..k])
      ensures path in Prefixes(values)
    {
      var i, n :| 0 <= i < k && 1 <= n <= |values[..k][i]| && values[..k][i][..n] == path;
      assert values[i][..n] == path;
    }
  }

  lemma SubsetCount(small: set<Path>, large: set<Path>)
    requires small <= large
    ensures |small| <= |large|
  {
    assert large == small + (large - small);
  }

  /** Adding the next path keeps a list acceptable so far exactly when both checks pass. */
  lemma NextAcceptable(trie: Trie, values: seq<Path>, k: nat, nodeCount: nat)
    requires k < |values| && Holds(trie, values[..k]) && Antichain(values[..k])
    requires nodeCount == |Prefixes(values[..k])|
    ensures Insert(trie, values[k]).Some? ==>
              && Antichain(values[..k + 1]) && Holds(Insert(trie, values[k]).value, values[..k + 1])
              && |Prefixes(values[..k + 1])| == nodeCount + NewNodes(trie, values[k])
    ensures Acceptable(values) ==>
              Insert(trie, values[k]).Some? && nodeCount + NewNodes(trie, values[k]) <= MAX_DIRECTORY_ENTRIES
  {
    assert values[..k + 1] == values[..k] + [values[k]];
    InsertConflict(trie, values[..k], values[k]);
    AntichainAppend(values[..k], values[k]);
    NewNodesCount(trie, values[..k], values[k]);
    if Insert(trie, values[k]).Some? {
      HoldsAppend(trie, values[..k], values[k]);
    }
    if Acceptable(values) {
      AntichainPrefix(values, k + 1);
      SubsetCount(Prefixes(values[..k + 1]), Prefixes(values));
    }
  }

  lemma {:induction false} TotalBytesPrefix(values: seq<Path>, k: nat)
    requires k <= |values|
    ensures TotalBytes(values[..k]) <= TotalBytes(values)
    decreases |values|
  {
    if k == |values| {
      assert values[..k] == values;
    } else {
      TotalBytesPrefix(values[..|values| - 1], k);
      assert values[..|values| - 1][..k] == values[..k];
    }
  }

  lemma EmptyHolds()
    ensures Holds(EMPTY, []) && Prefixes([]) == {}
  {
    forall path: Path
      ensures !Selects(EMPTY, path) && (HasNode(EMPTY, path) <==> path == [])
    {
      EmptySelects(path);
    }
  }

  /** The first `k` paths are in the trie and within the limits. */
  ghost predicate Selected(values: seq<Path>, k: nat, root: Trie, nodeCount: nat, totalBytes: nat)
    requires k <= |values|
  {
    && Antichain(values[..k]) && Holds(root, values[..k]) && (forall i | 0 <= i < k :: ValidPath(values[i]))
    && nodeCount == |Prefixes(values[..k])| <= MAX_DIRECTORY_ENTRIES
    && totalBytes == TotalBytes(values[..k]) <= MAX_METADATA_OBJECT_BYTES
  }

  /** Adds the next path to the selection, or finds the list unacceptable. */
  method AddPath(values: seq<Path>, k: nat, root: Trie, nodeCount: nat, totalBytes: nat)
    returns (r: Result<(Trie, nat, nat)>)
    requires k < |values| && Selected(values, k, root, nodeCount, totalBytes)
    ensures r.Ok? ==> Selected(values, k + 1, r.value.0, r.value.1, r.value.2)
    ensures r.Err? ==> !Acceptable(values) && r.error == InvalidPath
  {
    assert values[..k + 1][..k] == values[..k];
    TotalBytesPrefix(values, k + 1);
    var bytes := totalBytes + PathBytes(values[k]);
    if PathBytes(values[k]) > MAX_LOOKUP_PATH_BYTES || bytes > MAX_METADATA_OBJECT_BYTES || !ValidPath(values[k]) {
      return Err(InvalidPath);
    }
    NextAcceptable(root, values, k, nodeCount);
    var nodes := nodeCount + NewNodes(root, values[k]);
    if nodes > MAX_DIRECTORY_ENTRIES {
      return Err(InvalidPath);
    }
    var inserted := Insert(root, values[k]);
    if inserted.None? {
      return Err(InvalidPath);
    }
    return Ok((inserted.value, nodes, bytes));
  }

  /** Builds a selection. The answer does not depend on the order of the paths. */
  method NewSelection(values: seq<Path>) returns (r: Result<Selection>)
    ensures r.Ok? <==> Acceptable(values)
    ensures r.Err? ==> r.error == InvalidPath
    ensures r.Ok? ==>
              && (r.value.All? <==> values == [[]])
              && (r.value.Only? ==> Holds(r.value.trie, values) && !r.value.trie.includeAll)
  {
    if |values| == 0 || |values| > MAX_DIRECTORY_ENTRIES {
      return Err(InvalidPath);
    }
    var root, nodeCount, totalBytes := EMPTY, 0, 0;
    EmptyHolds();
    for k := 0 to |values|
      invariant Selected(values, k, root, nodeCount, totalBytes)
    {
      var added :- AddPath(values, k, root, nodeCount, totalBytes);
      root, nodeCount, totalBytes := added.0, added.1, added.2;
    }
    assert values[..|values|] == values;
    RootSelected(root, values);
    if root.includeAll {
      return Ok(All);
    }
    return Ok(Only(root));
  }

  /** The whole tree is selected exactly by the one empty path. */
  lemma RootSelected(root: Trie, values: seq<Path>)
    requires Holds(root, values) && Antichain(values)
    ensures root.includeAll <==> values == [[]]
  {
    assert root.includeAll <==> Selects(root, []);
    assert values == [[]] ==> values[0] == [];
    if [] in values && |values| > 1 {
      EmptyPathIsAboveAll(values);
    }
  }

  lemma EmptyPathIsAboveAll(values: seq<Path>)
    requires [] in values && |values| > 1
    ensures !Antichain(values)
  {
    var i :| 0 <= i < |values| && values[i] == [];
    var j := if i == 0 then 1 else 0;
    assert values[i] <= values[j];
  }

  /** A trie is determined by its nodes and selected paths. */
  lemma {:induction false} TrieExtensional(a: Trie, b: Trie)
    requires forall path :: (Selects(a, path) <==> Selects(b, path)) && (HasNode(a, path) <==> HasNode(b, path))
    ensures a == b
    decreases a
  {
    assert Selects(a, []) <==> Selects(b, []);
    forall name
      ensures name in a.children <==> name in b.children
      ensures name in a.children && name in b.children ==> a.children[name] == b.children[name]
    {
      assert [name][1..] == [];
      assert HasNode(a, [name]) <==> HasNode(b, [name]);
      assert HasNode(a, [name]) <==> name in a.children;
      assert HasNode(b, [name]) <==> name in b.children;
      if name in a.children && name in b.children {
        forall path
          ensures Selects(a.children[name], path) <==> Selects(b.children[name], path)
          ensures HasNode(a.children[name], path) <==> HasNode(b.children[name], path)
        {
          assert ([name] + path)[1..] == path;
          assert Selects(a, [name] + path) <==> Selects(b, [name] + path);
          assert HasNode(a, [name] + path) <==> HasNode(b, [name] + path);
        }
        TrieExtensional(a.children[name], b.children[name]);
      }
    }
  }

  /** The same paths in another order give the same trie. */
  lemma OrderIndependent(a: Trie, b: Trie, values: seq<Path>, others: seq<Path>)
    requires Holds(a, values) && Holds(b, others) && forall path :: path in values <==> path in others
    ensures a == b
  {
    forall path
      ensures AboveSome(values, path) <==> AboveSome(others, path)
    {
      if AboveSome(values, path) {
        AboveSomeTransfers(values, others, path);
      }
      if AboveSome(others, path) {
        AboveSomeTransfers(others, values, path);
      }
    }
    TrieExtensional(a, b);
  }

  lemma AboveSomeTransfers(values: seq<Path>, others: seq<Path>, path: Path)
    requires (forall p :: p in values ==> p in others) && AboveSome(values, path)
    ensures AboveSome(others, path)
  {
    var i :| 0 <= i < |values| && path <= values[i];
    assert values[i] in others;
    var j :| 0 <= j < |others| && others[j] == values[i];
    assert path <= others[j];
  }

  // ------------------------------------------------------------ order does not matter

  lemma {:induction false} TotalBytesWithout(values: seq<Path>, j: nat)
    requires j < |values|
    ensures TotalBytes(values) == TotalBytes(values[..j] + values[j + 1..]) + PathBytes(values[j])
    decreases |values|
  {
    var last := |values| - 1;
    var rest := values[..j] + values[j + 1..];
    if j == last {
      assert rest == values[..last];
    } else {
      TotalBytesWithout(values[..last], j);
      assert rest[..last - 1] == values[..last][..j] + values[..last][j + 1..];
      assert rest[last - 1] == values[last];
    }
  }

  lemma {:induction false} TotalBytesPermuted(values: seq<Path>, others: seq<Path>)
    requires multiset(values) == multiset(others)
    ensures TotalBytes(values) == TotalBytes(others)
    decreases |values|
  {
    assert |multiset(values)| == |values| && |multiset(others)| == |others|;
    if values != [] {
      var last := |values| - 1;
      assert values[last] in multiset(others);
      var j :| 0 <= j < |others| && others[j] == values[last];
      var rest := others[..j] + others[j + 1..];
      CountWithout(values, last);
      CountWithout(others, j);
      assert values[..last] + values[last + 1..] == values[..last];
      TotalBytesPermuted(values[..last], rest);
      TotalBytesWithout(others, j);
    }
  }

  /** An antichain has every path once, and none of them above another. */
  lemma AntichainMeaning(values: seq<Path>)
    ensures Antichain(values) <==> Distinct(values) && forall p, q | p in values && q in values && p <= q :: p == q
  {
    if Antichain(values) {
      forall i, j | 0 <= i < j < |values| ensures values[i] != values[j] {
        assert !(values[i] <= values[j]);
      }
    }
    if Distinct(values) && forall p, q | p in values && q in values && p <= q :: p == q {
      forall i, j | 0 <= i < |values| && 0 <= j < |values| && i != j ensures !(values[i] <= values[j]) {
        assert values[i] in values && values[j] in values;
        assert i < j ==> values[i] != values[j];
        assert j < i ==> values[j] != values[i];
      }
    }
  }

  lemma DistinctPermuted(values: seq<Path>, others: seq<Path>)
    requires multiset(values) == multiset(others) && Distinct(values)
    ensures Distinct(others)
  {
    DistinctCounts(values);
    CountsDistinct(others);
  }

  lemma AcceptablePermuted(values: seq<Path>, others: seq<Path>)
    requires multiset(values) == multiset(others) && Acceptable(values)
    ensures Acceptable(others)
  {
    assert |multiset(values)| == |values| && |multiset(others)| == |others|;
    forall path: Path ensures path in values <==> path in others {
      assert path in multiset(values) <==> path in multiset(others);
    }
    forall i | 0 <= i < |others| ensures ValidPath(others[i]) {
      assert others[i] in values;
    }
    TotalBytesPermuted(values, others);
    AntichainMeaning(values);
    AntichainMeaning(others);
    DistinctPermuted(values, others);
    forall path ensures path in Prefixes(values) <==> path in Prefixes(others) {
      SamePrefix(values, others, path);
    }
    assert Prefixes(values) == Prefixes(others);
  }

  lemma SamePrefix(values: seq<Path>, others: seq<Path>, path: Path)
    requires forall p :: p in values <==> p in others
    ensures path in Prefixes(values) <==> path in Prefixes(others)
  {
    PrefixesExact(values, path);
    PrefixesExact(others, path);
    if AboveSome(values, path) {
      AboveSomeTransfers(values, others, path);
    }
    if AboveSome(others, path) {
      AboveSomeTransfers(others, values, path);
    }
  }

  /** Whether a list is accepted does not depend on the order of its paths. */
  lemma OrderDoesNotMatter(values: seq<Path>, others: seq<Path>)
    requires multiset(values) == multiset(others)
    ensures Acceptable(values) <==> Acceptable(others)
  {
    if Acceptable(values) {
      AcceptablePermuted(values, others);
    }
    if Acceptable(others) {
      AcceptablePermuted(others, values);
    }
  }
}
