/**
 The projection of a source tree onto a selection: the selected subtrees as they are, their
 ancestors as bare directories, and nothing else.
 */
module Projection {
  import opened Basics
  import opened PathSelection

  datatype Tree = File(content: nat) | Symlink(target: nat) | Special | Dir(entries: Entries)

  datatype Entry = Entry(mode: nat, modTime: int, tree: Tree)

  type Entries = map<string, Entry>

  /** The entry at a path below a directory. */
  function Lookup(entries: Entries, path: Path): Option<Entry>
    requires path != []
    decreases path
  {
    if path[0] !in entries then None
    else if |path| == 1 then Some(entries[path[0]])
    else if !entries[path[0]].tree.Dir? then None
    else Lookup(entries[path[0]].tree.entries, path[1..])
  }

  /** A subtree without devices, sockets and the like. */
  predicate Supported(tree: Tree) {
    match tree
    case File(_) => true
    case Symlink(_) => true
    case Special => false
    case Dir(entries) => forall name | name in entries :: Supported(entries[name].tree)
  }

  /** What a scan without a selection makes of a subtree: every entry below it, published in turn. */
  ghost function Copied(tree: Tree): Option<Tree>
    decreases tree
  {
    match tree
    case File(_) => Some(tree)
    case Symlink(_) => Some(tree)
    case Special => None
    case Dir(entries) =>
      if forall name | name in entries :: Copied(entries[name].tree).Some? then
        Some(Dir(map name | name in entries :: entries[name].(tree := Copied(entries[name].tree).value)))
      else None
  }

  ghost function CopiedEntry(entry: Entry): Option<Entry> {
    match Copied(entry.tree)
    case None => None
    case Some(tree) => Some(entry.(tree := tree))
  }

  /** The scan without a selection publishes a subtree unchanged, exactly if all of it is supported. */
  lemma {:induction false} CopiedExact(tree: Tree)
    ensures Copied(tree) == if Supported(tree) then Some(tree) else None
    decreases tree
  {
    if tree.Dir? {
      var entries := tree.entries;
      forall name | name in entries
        ensures Copied(entries[name].tree) == if Supported(entries[name].tree) then Some(entries[name].tree) else None
      {
        CopiedExact(entries[name].tree);
      }
      if Supported(tree) {
        assert forall name | name in entries :: Copied(entries[name].tree).Some?;
        assert Copied(tree).Some? && Copied(tree).value.entries == entries;
      }
    }
  }

  /** The projection of one entry, None if it cannot be made. */
  ghost function ProjectedEntry(entry: Entry, selection: Trie): Option<Entry>
    decreases selection, 2
  {
    if selection.includeAll then CopiedEntry(entry)
    else if !entry.tree.Dir? then None
    else
      match Projected(entry.tree.entries, selection)
      case None => None
      case Some(entries) => Some(Entry(entry.mode, 0, Dir(entries)))
  }

  ghost predicate Projectable(entries: Entries, selection: Trie)
    decreases selection, 0
  {
    forall name | name in selection.children ::
      name in entries && ProjectedEntry(entries[name], selection.children[name]).Some?
  }

  /** The projection of a directory: an entry for every child of the selection, no other. */
  ghost function Projected(entries: Entries, selection: Trie): Option<Entries>
    decreases selection, 1
  {
    if Projectable(entries, selection) then
      Some(map name | name in selection.children :: ProjectedEntry(entries[name], selection.children[name]).value)
    else None
  }

  /** Every node of the trie leads to a selected path. */
  ghost predicate Purposeful(trie: Trie) {
    forall path | HasNode(trie, path) && path != [] :: exists rest :: Selects(trie, path + rest)
  }

  /** Nothing lies below a selected path. */
  ghost predicate Leafy(trie: Trie) {
    && (trie.includeAll ==> trie.children == map[])
    && (forall name | name in trie.children :: Leafy(trie.children[name]))
  }

  /** Whether a path lies at or below a selected one. */
  ghost predicate Covered(trie: Trie, path: Path) {
    exists k | 0 <= k <= |path| :: Selects(trie, path[..k])
  }

  lemma CoveredStep(trie: Trie, path: Path)
    requires path != [] && path[0] in trie.children && !trie.includeAll
    ensures Covered(trie, path) <==> Covered(trie.children[path[0]], path[1..])
  {
    var child, rest := trie.children[path[0]], path[1..];
    if Covered(trie, path) {
      var k :| 0 <= k <= |path| && Selects(trie, path[..k]);
      assert path[..0] == [];
      assert path[..k][1..] == rest[..k - 1];
      assert Selects(child, rest[..k - 1]);
    }
    if Covered(child, rest) {
      var k :| 0 <= k <= |rest| && Selects(child, rest[..k]);
      assert path[..k + 1][1..] == rest[..k];
      assert Selects(trie, path[..k + 1]);
    }
  }

  /**
   What the projection has at a path: the same entry at and below selected paths, a bare
   directory above them, nothing anywhere else.
   */
  lemma {:induction false} ProjectionExact(entries: Entries, trie: Trie, path: Path)
    requires Projected(entries, trie).Some? && !trie.includeAll && path != []
    ensures var found := Lookup(Projected(entries, trie).value, path);
            if Covered(trie, path) then found == Lookup(entries, path)
            else if HasNode(trie, path) then
              && found.Some? && found.value.tree.Dir? && found.value.modTime == 0
              && Lookup(entries, path).Some? && found.value.mode == Lookup(entries, path).value.mode
            else found.None?
    decreases path
  {
    var name := path[0];
    if name in trie.children {
      assert Projectable(entries, trie);
      CoveredStep(trie, path);
      var child := trie.children[name];
      if child.includeAll {
        CopiedExact(entries[name].tree);
        assert path[1..][..0] == [];
        assert Selects(child, path[1..][..0]);
      } else if |path| == 1 {
        assert path[1..] == [];
        assert HasNode(trie, path) && !Covered(child, []);
      } else {
        ProjectionExact(entries[name].tree.entries, child, path[1..]);
      }
    } else {
      assert path[..0] == [];
      assert !Covered(trie, path);
    }
  }

  /** A selected path exists in the source and holds nothing that cannot be published. */
  ghost predicate Obtainable(entries: Entries, path: Path)
    requires path != []
  {
    Lookup(entries, path).Some? && Supported(Lookup(entries, path).value.tree)
  }

  lemma PurposefulChild(trie: Trie, name: string)
    requires Purposeful(trie) && name in trie.children
    ensures Purposeful(trie.children[name])
    ensures exists rest :: Selects(trie.children[name], rest)
  {
    var child := trie.children[name];
    forall path | HasNode(child, path)
      ensures exists rest :: Selects(child, path + rest)
    {
      var whole := [name] + path;
      assert whole[1..] == path;
      assert HasNode(trie, whole);
      var rest :| Selects(trie, whole + rest);
      assert (whole + rest)[1..] == path + rest;
    }
    assert HasNode(child, []);
    var rest :| Selects(child, [] + rest);
  }

  /** The projection exists exactly when every selected path can be published. */
  lemma {:induction false} ProjectableExact(entries: Entries, trie: Trie)
    requires Purposeful(trie) && Leafy(trie) && !trie.includeAll
    ensures Projected(entries, trie).Some?
       <==> forall path | path != [] && Selects(trie, path) :: Obtainable(entries, path)
    decreases trie
  {
    if Projected(entries, trie).Some? {
      forall path | path != [] && Selects(trie, path)
        ensures Obtainable(entries, path)
      {
        ProjectedIsObtainable(entries, trie, path);
      }
    }
    if forall path | path != [] && Selects(trie, path) :: Obtainable(entries, path) {
      forall name | name in trie.children
        ensures name in entries && ProjectedEntry(entries[name], trie.children[name]).Some?
      {
        ObtainableIsProjected(entries, trie, name);
      }
    }
  }

  lemma {:induction false} ProjectedIsObtainable(entries: Entries, trie: Trie, path: Path)
    requires Projected(entries, trie).Some? && Leafy(trie) && path != [] && Selects(trie, path)
    ensures Obtainable(entries, path)
    decreases path
  {
    assert Projectable(entries, trie);
    var child, rest := trie.children[path[0]], path[1..];
    assert Leafy(child);
    CopiedExact(entries[path[0]].tree);
    if rest != [] {
      ProjectedIsObtainable(entries[path[0]].tree.entries, child, rest);
    }
  }

  lemma {:induction false} ObtainableIsProjected(entries: Entries, trie: Trie, name: string)
    requires Purposeful(trie) && Leafy(trie) && !trie.includeAll && name in trie.children
    requires forall path | path != [] && Selects(trie, path) :: Obtainable(entries, path)
    ensures name in entries && ProjectedEntry(entries[name], trie.children[name]).Some?
    decreases trie, 0
  {
    var child := trie.children[name];
    PurposefulChild(trie, name);
    var rest :| Selects(child, rest);
    SelectedBelow(entries, trie, name, rest);
    CopiedExact(entries[name].tree);
    if !child.includeAll {
      var below := entries[name].tree.entries;
      forall path | path != [] && Selects(child, path)
        ensures Obtainable(below, path)
      {
        SelectedBelow(entries, trie, name, path);
      }
      forall next | next in child.children
        ensures next in below && ProjectedEntry(below[next], child.children[next]).Some?
      {
        ObtainableIsProjected(below, child, next);
      }
      assert Projectable(below, child);
      assert Projected(below, child).Some?;
    }
  }

  /** A selected path below a child, seen from the directory and from the child. */
  lemma SelectedBelow(entries: Entries, trie: Trie, name: string, rest: Path)
    requires name in trie.children && Selects(trie.children[name], rest)
    requires forall path | path != [] && Selects(trie, path) :: Obtainable(entries, path)
    ensures name in entries
    ensures rest == [] ==> Supported(entries[name].tree)
    ensures rest != [] ==> entries[name].tree.Dir? && Obtainable(entries[name].tree.entries, rest)
  {
    var path := [name] + rest;
    assert path[1..] == rest;
    assert Selects(trie, path);
    assert Obtainable(entries, path);
  }

  /**
   What is not selected does not show: two sources that agree on the selected subtrees and on
   the modes of their ancestors have the same projection, whatever else they contain.
   */
  lemma {:induction false} HiddenDoesNotShow(one: Entries, two: Entries, trie: Trie)
    requires Projected(one, trie).Some? && Projected(two, trie).Some? && !trie.includeAll
    requires forall path | path != [] && Selects(trie, path) :: Lookup(one, path) == Lookup(two, path)
    requires forall path | path != [] && HasNode(trie, path) && Lookup(one, path).Some? && Lookup(two, path).Some? ::
               Lookup(one, path).value.mode == Lookup(two, path).value.mode
    ensures Projected(one, trie) == Projected(two, trie)
    decreases trie
  {
    assert Projectable(one, trie) && Projectable(two, trie);
    forall name | name in trie.children
      ensures ProjectedEntry(one[name], trie.children[name]) == ProjectedEntry(two[name], trie.children[name])
    {
      var child := trie.children[name];
      assert name in one && ProjectedEntry(one[name], child).Some?;
      assert name in two && ProjectedEntry(two[name], child).Some?;
      LookupChild(one, name);
      LookupChild(two, name);
      assert [name][1..] == [];
      assert HasNode(trie, [name]);
      if child.includeAll {
        assert Selects(trie, [name]);
      } else {
        var first, second := one[name].tree.entries, two[name].tree.entries;
        forall path | path != [] && HasNode(child, path)
          ensures HasNode(trie, [name] + path) && (Selects(child, path) ==> Selects(trie, [name] + path))
          ensures Lookup(one, [name] + path) == Lookup(first, path)
                  && Lookup(two, [name] + path) == Lookup(second, path)
        {
          assert ([name] + path)[1..] == path;
        }
        forall path | path != [] && Selects(child, path)
          ensures Lookup(first, path) == Lookup(second, path)
        {
          assert ([name] + path)[1..] == path;
          assert Selects(trie, [name] + path);
        }
        HiddenDoesNotShow(first, second, child);
      }
    }
    assert Projected(one, trie).value == Projected(two, trie).value;
  }

  lemma LookupChild(entries: Entries, name: string)
    ensures Lookup(entries, [name]) == if name in entries then Some(entries[name]) else None
  {
    var path := [name];
    assert path[0] == name && |path| == 1;
  }

  // ------------------------------------------------------------ the scan

  predicate Wanted(selection: Option<Trie>, name: string) {
    selection.Some? ==> name in selection.value.children
  }

  function Below(selection: Option<Trie>, name: string): Option<Trie>
    requires Wanted(selection, name)
  {
    if selection.None? then None else Some(selection.value.children[name])
  }

  /** What becomes of an entry under the selection for it, and of a directory under its own. */
  ghost function ScannedEntry(entry: Entry, selection: Option<Trie>): Option<Entry> {
    if selection.None? then CopiedEntry(entry) else ProjectedEntry(entry, selection.value)
  }

  ghost function ScannedDirectory(entries: Entries, selection: Option<Trie>): Option<Entries> {
    match selection
    case Some(trie) => Projected(entries, trie)
    case None =>
      match Copied(Dir(entries))
      case Some(Dir(copies)) => Some(copies)
      case _ => None
  }

  /** Publishes one entry that the selection, if there is one, asks for. */
  method ProjectEntry(entry: Entry, selection: Option<Trie>) returns (r: Result<Entry>)
    ensures match ScannedEntry(entry, selection)
            case None => r.Err?
            case Some(published) => r == Ok(published)
    decreases entry.tree, 1
  {
    if selection.Some? && !selection.value.includeAll && !entry.tree.Dir? {
      return Err(NotDirectory);
    }
    match entry.tree
    case File(_) => return Ok(entry);
    case Symlink(_) => return Ok(entry);
    case Special => return Err(Incompatible);
    case Dir(_) =>
      var nested := if selection.Some? && !selection.value.includeAll then selection else None;
      var entries :- ProjectDirectory(entry.tree, nested);
      return Ok(Entry(entry.mode, if nested.Some? then 0 else entry.modTime, Dir(entries)));
  }

  /** The manifest has exactly the wanted entries among those scanned, each published. */
  ghost predicate Scanned(entries: Entries, selection: Option<Trie>, left: set<string>, manifest: Entries) {
    && (forall name :: name in manifest <==> name in entries && name !in left && Wanted(selection, name))
    && (forall name | name in manifest :: ScannedEntry(entries[name], Below(selection, name)) == Some(manifest[name]))
  }

  lemma ScannedNext(
    entries: Entries, selection: Option<Trie>, left: set<string>, manifest: Entries, name: string, item: Entry)
    requires Scanned(entries, selection, left, manifest) && name in left && name in entries && Wanted(selection, name)
    requires ScannedEntry(entries[name], Below(selection, name)) == Some(item)
    ensures Scanned(entries, selection, left - {name}, manifest[name := item])
  {
  }

  lemma ScannedSkip(entries: Entries, selection: Option<Trie>, left: set<string>, manifest: Entries, name: string)
    requires Scanned(entries, selection, left, manifest) && name in left && !Wanted(selection, name)
    ensures Scanned(entries, selection, left - {name}, manifest)
  {
  }

  /** One entry that cannot be published fails the directory. */
  lemma ScannedFails(entries: Entries, selection: Option<Trie>, name: string)
    requires name in entries && Wanted(selection, name) && ScannedEntry(entries[name], Below(selection, name)).None?
    ensures ScannedDirectory(entries, selection).None?
  {
    if selection.Some? {
      assert !Projectable(entries, selection.value);
    } else {
      assert Copied(entries[name].tree).None?;
    }
  }

  lemma ScannedAll(entries: Entries, trie: Trie, manifest: Entries)
    requires Scanned(entries, Some(trie), {}, manifest)
    ensures Projected(entries, trie) == if |manifest.Keys| == |trie.children| then Some(manifest) else None
  {
    AllMatched(manifest.Keys, trie.children.Keys);
    if manifest.Keys == trie.children.Keys {
      forall name | name in trie.children
        ensures name in entries && ProjectedEntry(entries[name], trie.children[name]) == Some(manifest[name])
      {
        assert name in manifest;
        assert ScannedEntry(entries[name], Below(Some(trie), name)) == Some(manifest[name]);
      }
      assert Projectable(entries, trie);
      assert Projected(entries, trie).value == manifest;
    } else {
      var name :| name in trie.children.Keys && name !in manifest.Keys;
      assert Wanted(Some(trie), name) && name !in entries;
    }
  }

  lemma CopiedAll(entries: Entries, manifest: Entries)
    requires Scanned(entries, None, {}, manifest)
    ensures Copied(Dir(entries)) == Some(Dir(manifest))
  {
    forall name | name in entries
      ensures name in manifest && CopiedEntry(entries[name]) == Some(manifest[name])
    {
      assert Wanted(None, name);
      assert ScannedEntry(entries[name], Below(None, name)) == Some(manifest[name]);
    }
    assert forall name | name in entries :: Copied(entries[name].tree).Some?;
    assert Copied(Dir(entries)).Some? && Copied(Dir(entries)).value.entries == manifest;
  }

  lemma ScanEnds(entries: Entries, selection: Option<Trie>, manifest: Entries)
    requires Scanned(entries, selection, {}, manifest)
    ensures ScannedDirectory(entries, selection)
         == if selection.Some? && |manifest.Keys| != |selection.value.children| then None else Some(manifest)
  {
    if selection.None? {
      CopiedAll(entries, manifest);
    } else {
      ScannedAll(entries, selection.value, manifest);
    }
  }

  /**
   Scans a directory in any order: everything in it without a selection, and only what the
   selection asks for with one; what it asks for and is not there fails the scan.
   */
  method ProjectDirectory(directory: Tree, selection: Option<Trie>) returns (r: Result<Entries>)
    requires directory.Dir?
    ensures match ScannedDirectory(directory.entries, selection)
            case None => r.Err?
            case Some(published) => r == Ok(published)
    decreases directory, 0
  {
    var entries := directory.entries;
    var left, matched: set<string>, manifest: Entries := entries.Keys, {}, map[];
    while left != {}
      invariant left <= entries.Keys && matched == manifest.Keys && Scanned(entries, selection, left, manifest)
      decreases |left|
    {
      var name :| name in left;
      if Wanted(selection, name) {
        var item := ProjectEntry(entries[name], Below(selection, name));
        if item.Err? {
          ScannedFails(entries, selection, name);
          return Err(item.error);
        }
        ScannedNext(entries, selection, left, manifest, name, item.value);
        matched, manifest := matched + {name}, manifest[name := item.value];
      } else {
        ScannedSkip(entries, selection, left, manifest, name);
      }
      left := left - {name};
    }
    ScanEnds(entries, selection, manifest);
    if selection.Some? && |matched| != |selection.value.children| {
      return Err(NotFound);
    }
    return Ok(manifest);
  }

  /** Publishing a directory without a selection changes nothing and needs everything supported. */
  lemma WholeIsUnchanged(entries: Entries)
    ensures ScannedDirectory(entries, None) == if Supported(Dir(entries)) then Some(entries) else None
  {
    CopiedExact(Dir(entries));
  }

  /** Counting decides whether everything asked for was found. */
  lemma AllMatched(matched: set<string>, wanted: set<string>)
    requires matched <= wanted
    ensures |matched| == |wanted| <==> matched == wanted
  {
    if |matched| == |wanted| {
      assert |wanted - matched| == 0;
    }
  }

  /** Tries built from an antichain have no idle nodes and nothing below a selected path. */
  lemma BuiltIsPurposeful(trie: Trie, values: seq<Path>)
    requires Holds(trie, values)
    ensures Purposeful(trie)
  {
    forall path | HasNode(trie, path) && path != []
      ensures exists rest :: Selects(trie, path + rest)
    {
      var i :| 0 <= i < |values| && path <= values[i];
      assert values[i] == path + values[i][|path|..];
      assert Selects(trie, path + values[i][|path|..]);
    }
  }

  lemma BuiltIsLeafy(trie: Trie, values: seq<Path>)
    requires Holds(trie, values) && Antichain(values)
    ensures Leafy(trie)
  {
    forall path, name | Selects(trie, path)
      ensures !HasNode(trie, path + [name])
    {
      if AboveSome(values, path + [name]) {
        BelowIsNoAntichain(values, path, name);
      }
    }
    NothingBelowIsLeafy(trie);
  }

  lemma BelowIsNoAntichain(values: seq<Path>, path: Path, name: string)
    requires path in values && AboveSome(values, path + [name])
    ensures !Antichain(values)
  {
    var i :| 0 <= i < |values| && path + [name] <= values[i];
    var j :| 0 <= j < |values| && values[j] == path;
    assert values[j] <= values[i];
  }

  lemma {:induction false} NothingBelowIsLeafy(trie: Trie)
    requires forall path, name | Selects(trie, path) :: !HasNode(trie, path + [name])
    ensures Leafy(trie)
    decreases trie
  {
    if trie.includeAll && trie.children != map[] {
      var name :| name in trie.children;
      assert ([] + [name])[0] == name && ([] + [name])[1..] == [];
      assert Selects(trie, []) && HasNode(trie, [] + [name]);
    }
    forall name | name in trie.children
      ensures Leafy(trie.children[name])
    {
      var child := trie.children[name];
      forall path, next | Selects(child, path)
        ensures !HasNode(child, path + [next])
      {
        assert ([name] + path)[1..] == path && (([name] + path) + [next])[1..] == path + [next];
        assert Selects(trie, [name] + path);
      }
      NothingBelowIsLeafy(child);
    }
  }

  /**
   Publishing a list of paths: an acceptable list is projected exactly when every path in it
   can be published.
   */
  lemma SelectionIsPublished(trie: Trie, values: seq<Path>, entries: Entries)
    requires Holds(trie, values) && Acceptable(values) && !trie.includeAll
    ensures Projected(entries, trie).Some? <==> forall path | path in values && path != [] :: Obtainable(entries, path)
  {
    BuiltIsPurposeful(trie, values);
    BuiltIsLeafy(trie, values);
    ProjectableExact(entries, trie);
  }
}
