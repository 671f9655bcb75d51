/** Paths: components, resolution directory by directory, creating a file. */
module FatPaths {
  import opened Bytes
  import opened FatChains
  import opened FatContents
  import opened FatGeometry
  import opened FatVolume
  import opened FatSlots
  import opened FatNames
  import opened FatListing
  import opened FatDirectory
  import opened FatDirectoryLaws

  type Path = seq<u8>

  const ROOT: Path := [47]

  // ---------------------------------------------------------------- components

  /** Length of the run of bytes other than "/" a path starts with. */
  function Word(p: Path): (n: nat)
    ensures n <= |p| && SLASH !in p[..n] && (n < |p| ==> p[n] == SLASH)
  {
    if p == [] || p[0] == SLASH then 0
    else
      assert p == [p[0]] + p[1..];
      1 + Word(p[1..])
  }

  /** The components of a path: its runs of bytes other than "/". */
  function Parts(p: Path): seq<Path>
    decreases |p|
  {
    if p == [] then []
    else if p[0] == SLASH then Parts(p[1..])
    else [p[..Word(p)]] + Parts(p[Word(p)..])
  }

  lemma {:induction false} WordIs(p: Path, n: nat)
    requires n <= |p| && SLASH !in p[..n] && (n < |p| ==> p[n] == SLASH)
    ensures Word(p) == n
  {
  }

  lemma {:induction false} PartsSlash(p: Path)
    requires p != [] && p[0] == SLASH
    ensures Parts(p) == Parts(p[1..])
  {
  }

  lemma {:induction false} PartsWord(p: Path, n: nat)
    requires 0 < n <= |p| && SLASH !in p[..n] && (n < |p| ==> p[n] == SLASH)
    ensures Parts(p) == [p[..n]] + Parts(p[n..])
  {
    WordIs(p, n);
  }

  /** A "/" separates: the components before it, then those behind it. */
  lemma {:induction false} PartsAround(a: Path, b: Path)
    ensures Parts(a + [SLASH] + b) == Parts(a) + Parts(b)
    decreases |a|
  {
    hide Parts, Word;
    var p := a + [SLASH] + b;
    if a == [] {
      assert p[1..] == b;
      PartsSlash(p);
      PartsOfSlashes([]);
    } else if a[0] == SLASH {
      assert p[1..] == a[1..] + [SLASH] + b;
      PartsSlash(p);
      PartsSlash(a);
      PartsAround(a[1..], b);
    } else {
      var n := Word(a);
      WordStarts(a);
      assert p[..n] == a[..n] && p[n..] == a[n..] + [SLASH] + b;
      PartsWord(p, n);
      PartsWord(a, n);
      PartsAround(a[n..], b);
    }
  }

  lemma {:induction false} WordStarts(p: Path)
    requires p != [] && p[0] != SLASH
    ensures 0 < Word(p)
  {
  }

  lemma {:induction false} PartsOfWord(w: Path)
    requires w != [] && SLASH !in w
    ensures Parts(w) == [w]
  {
    assert w[..|w|] == w;
    WordIs(w, |w|);
    assert w[|w|..] == [];
  }

  lemma {:induction false} PartsOfSlashes(p: Path)
    requires forall i :: 0 <= i < |p| ==> p[i] == SLASH
    ensures Parts(p) == []
  {
    if p != [] {
      PartsOfSlashes(p[1..]);
    }
  }

  predicate HasComponent(p: Path) { exists i :: 0 <= i < |p| && p[i] != SLASH }

  /** Length of the path without its trailing slashes; a first byte is always kept. */
  function TrimmedEnd(p: Path, end: nat): (r: nat)
    requires end <= |p|
    ensures r <= end
  {
    if end > 1 && p[end - 1] == SLASH then TrimmedEnd(p, end - 1) else end
  }

  /** Where the last component before `end` starts. */
  function WordStart(p: Path, end: nat): (r: nat)
    requires end <= |p|
    ensures r <= end && SLASH !in p[r..end] && (r > 0 ==> p[r - 1] == SLASH)
  {
    if end > 0 && p[end - 1] != SLASH then
      var r := WordStart(p, end - 1);
      assert p[r..end] == p[r..end - 1] + [p[end - 1]];
      r
    else end
  }

  function Basename(p: Path): Path {
    if p == ROOT then ROOT
    else
      var end := TrimmedEnd(p, |p|);
      p[WordStart(p, end)..end]
  }

  function Parent(p: Path): Path {
    if p == ROOT then ROOT
    else
      var start := WordStart(p, TrimmedEnd(p, |p|));
      if start <= 1 then ROOT else p[..start - 1]
  }

  lemma {:induction false} TrimmedParts(p: Path, end: nat)
    requires end <= |p|
    ensures Parts(p[..TrimmedEnd(p, end)]) == Parts(p[..end])
  {
    if end > 1 && p[end - 1] == SLASH {
      assert p[..end] == p[..end - 1] + [SLASH] + [];
      PartsAround(p[..end - 1], []);
      TrimmedParts(p, end - 1);
    }
  }

  /** With a component in the path, trimming stops behind the last one. */
  lemma {:induction false} TrimmedAtWord(p: Path, end: nat, i: nat)
    requires i < end <= |p| && p[i] != SLASH
    ensures i < TrimmedEnd(p, end) && p[TrimmedEnd(p, end) - 1] != SLASH
  {
    if end > 1 && p[end - 1] == SLASH {
      TrimmedAtWord(p, end - 1, i);
    }
  }

  lemma {:induction false} RootHasNoParts()
    ensures Parts(ROOT) == []
  {
    PartsOfSlashes(ROOT);
  }

  /** A path is its parent's components followed by its base name. */
  lemma {:induction false} PartsOfParent(p: Path)
    requires HasComponent(p)
    ensures Parts(p) == Parts(Parent(p)) + [Basename(p)]
  {
    hide Parts, TrimmedEnd, WordStart;
    var i :| 0 <= i < |p| && p[i] != SLASH;
    var end := TrimmedEnd(p, |p|);
    TrimmedAtWord(p, |p|, i);
    TrimmedParts(p, |p|);
    assert p[..|p|] == p;
    var start := WordStart(p, end);
    WordBeforeEnd(p, end);
    var w := p[start..end];
    PartsOfWord(w);
    RootHasNoParts();
    if start == 0 {
      assert p[..end] == w;
    } else {
      assert p[..end] == p[..start - 1] + [SLASH] + w;
      PartsAround(p[..start - 1], w);
      PartsOfSlashes([]);
    }
  }

  lemma {:induction false} WordBeforeEnd(p: Path, end: nat)
    requires 0 < end <= |p| && p[end - 1] != SLASH
    ensures WordStart(p, end) < end
  {
  }

  // ---------------------------------------------------------------- the driver's loops

  method SplitPath(path: Path) returns (parts: seq<Path>)
    ensures parts == Parts(path)
  {
    hide Parts, Word;
    parts := [];
    var start := 0;
    PartsOfSlashes([]);
    assert path[0..] == path;
    while start < |path|
      invariant 0 <= start <= |path| && parts + Parts(path[start..]) == Parts(path)
      decreases |path| - start
    {
      ghost var first := start;
      while start < |path| && path[start] == SLASH
        invariant first <= start <= |path| && Parts(path[start..]) == Parts(path[first..])
      {
        assert path[start..][1..] == path[start + 1..];
        PartsSlash(path[start..]);
        start := start + 1;
      }
      var end := start;
      while end < |path| && path[end] != SLASH
        invariant start <= end <= |path| && SLASH !in path[start..end]
      {
        assert path[start..end + 1] == path[start..end] + [path[end]];
        end := end + 1;
      }
      if end > start {
        assert path[start..][..end - start] == path[start..end] && path[start..][end - start..] == path[end..];
        PartsWord(path[start..], end - start);
        parts := parts + [path[start..end]];
      }
      start := end;
    }
    assert path[start..] == [];
  }

  method BasenameOf(path: Path) returns (name: Path)
    ensures name == Basename(path)
  {
    if path == ROOT {
      return ROOT;
    }
    var end: nat := |path|;
    while end > 1 && path[end - 1] == SLASH
      invariant end <= |path| && TrimmedEnd(path, end) == TrimmedEnd(path, |path|)
    {
      end := end - 1;
    }
    var start: nat := end;
    while start > 0 && path[start - 1] != SLASH
      invariant start <= end && WordStart(path, start) == WordStart(path, end)
    {
      start := start - 1;
    }
    name := path[start..end];
  }

  method ParentOf(path: Path) returns (parent: Path)
    ensures parent == Parent(path)
  {
    if path == ROOT {
      return ROOT;
    }
    var end: nat := |path|;
    while end > 1 && path[end - 1] == SLASH
      invariant end <= |path| && TrimmedEnd(path, end) == TrimmedEnd(path, |path|)
    {
      end := end - 1;
    }
    var slash: nat := end;
    while slash > 0 && path[slash - 1] != SLASH
      invariant slash <= end && WordStart(path, slash) == WordStart(path, end)
    {
      slash := slash - 1;
    }
    if slash <= 1 {
      return ROOT;
    }
    parent := path[..slash - 1];
  }

  // ---------------------------------------------------------------- resolving

  /** The first entry with that name, up to case, or the number of entries. */
  function FirstNamed(es: seq<Entry>, name: Path, i: nat): (k: nat)
    requires i <= |es|
    ensures i <= k <= |es| && (k < |es| ==> NamesEqual(es[k].name, name))
    ensures forall j :: i <= j < k ==> !NamesEqual(es[j].name, name)
    decreases |es| - i
  {
    if i == |es| || NamesEqual(es[i].name, name) then i else FirstNamed(es, name, i + 1)
  }

  /** The directories of a volume: the chain behind each first cluster. */
  type Tree = map<nat, seq<nat>>

  ghost predicate DirAt(v: Vol, tree: Tree, c: nat)
    requires c in tree
  {
    2 <= c && IsChain(v.fat, tree[c]) && tree[c][0] == c && InTable(v.data, tree[c])
  }

  ghost predicate Leads(v: Vol, tree: Tree, c: nat, k: nat)
    requires c in tree && DirAt(v, tree, c)
  {
    k < |DirListing(v, tree[c])| && IsDirectory(DirListing(v, tree[c])[k].attributes) ==>
      DirListing(v, tree[c])[k].firstCluster in tree || DirListing(v, tree[c])[k].firstCluster < 2
  }

  /** Each directory has a well-formed chain, and its subdirectories are directories too. */
  ghost predicate TreeOk(v: Vol, tree: Tree) {
    && (forall c :: c in tree ==> DirAt(v, tree, c))
    && (forall c, k :: c in tree ==> Leads(v, tree, c, k))
  }

  /** What a path names: nothing, the root, or entry `k` of the directory at `dir`. */
  datatype Place = Nowhere | Root | At(dir: nat, k: nat)

  ghost function LookIn(v: Vol, tree: Tree, dir: nat, name: Path): (r: Place)
    ensures !r.Root?
    ensures r.At? ==> r.dir in tree && DirAt(v, tree, r.dir) && r.k < |DirListing(v, tree[r.dir])|
  {
    if dir !in tree || !DirAt(v, tree, dir) then Nowhere
    else
      var es := DirListing(v, tree[dir]);
      var k := FirstNamed(es, name, 0);
      if k < |es| then At(dir, k) else Nowhere
  }

  ghost function EntryAt(v: Vol, tree: Tree, place: Place): Entry
    requires place.At? && place.dir in tree && DirAt(v, tree, place.dir) && place.k < |DirListing(v, tree[place.dir])|
  {
    DirListing(v, tree[place.dir])[place.k]
  }

  /** Following components from the directory at `dir`. */
  ghost function Resolve(v: Vol, tree: Tree, dir: nat, parts: seq<Path>): (r: Place)
    ensures r.At? ==> r.dir in tree && DirAt(v, tree, r.dir) && r.k < |DirListing(v, tree[r.dir])|
    ensures !r.Root?
    decreases |parts|
  {
    if parts == [] then Nowhere
    else
      var place := LookIn(v, tree, dir, parts[0]);
      if place.Nowhere? || |parts| == 1 then place
      else if !IsDirectory(EntryAt(v, tree, place).attributes) then Nowhere
      else Resolve(v, tree, EntryAt(v, tree, place).firstCluster, parts[1..])
  }

  lemma {:induction false} ResolveFirst(v: Vol, tree: Tree, dir: nat, parts: seq<Path>, i: nat)
    requires i < |parts|
    ensures var place := LookIn(v, tree, dir, parts[i]);
            Resolve(v, tree, dir, parts[i..]) ==
            if place.Nowhere? || i + 1 == |parts| then place
            else if !IsDirectory(EntryAt(v, tree, place).attributes) then Nowhere
            else Resolve(v, tree, EntryAt(v, tree, place).firstCluster, parts[i + 1..])
  {
    assert parts[i..][1..] == parts[i + 1..];
  }

  ghost function Find(v: Vol, tree: Tree, root: nat, path: Path): (r: Place)
    ensures r.At? ==> r.dir in tree && DirAt(v, tree, r.dir) && r.k < |DirListing(v, tree[r.dir])|
  {
    if path == [] || path == ROOT then Root else Resolve(v, tree, root, Parts(path))
  }

  /** The last component is looked up in the directory the others lead to. */
  lemma {:induction false} ResolveLast(v: Vol, tree: Tree, dir: nat, parts: seq<Path>, name: Path)
    ensures Resolve(v, tree, dir, parts + [name]) ==
            if parts == [] then LookIn(v, tree, dir, name)
            else
              var place := Resolve(v, tree, dir, parts);
              if place.Nowhere? || !IsDirectory(EntryAt(v, tree, place).attributes) then Nowhere
              else LookIn(v, tree, EntryAt(v, tree, place).firstCluster, name)
    decreases |parts|
  {
    if parts != [] {
      var place := LookIn(v, tree, dir, parts[0]);
      assert (parts + [name])[1..] == parts[1..] + [name];
      if place.At? && IsDirectory(EntryAt(v, tree, place).attributes) {
        ResolveLast(v, tree, EntryAt(v, tree, place).firstCluster, parts[1..], name);
      }
    }
  }

  ghost predicate IsDirectoryPlace(v: Vol, tree: Tree, place: Place)
    requires place.At? ==> place.dir in tree && DirAt(v, tree, place.dir) && place.k < |DirListing(v, tree[place.dir])|
  {
    place.Root? || (place.At? && IsDirectory(EntryAt(v, tree, place).attributes))
  }

  /** The first cluster of the directory a place is; 0 when it is none. */
  ghost function DirectoryOf(v: Vol, tree: Tree, root: nat, place: Place): nat
    requires place.At? ==> place.dir in tree && DirAt(v, tree, place.dir) && place.k < |DirListing(v, tree[place.dir])|
  {
    match place
    case Nowhere => 0
    case Root => root
    case At(_, _) => if IsDirectory(EntryAt(v, tree, place).attributes) then EntryAt(v, tree, place).firstCluster else 0
  }

  /** A path can be reached through its parent: it names what its base name names in
      the directory its parent names. */
  lemma {:induction false} FindThroughParent(v: Vol, tree: Tree, root: nat, p: Path)
    requires HasComponent(p) && TreeOk(v, tree) && (Parent(p) == ROOT || HasComponent(Parent(p)))
    ensures Find(v, tree, root, p)
            == LookIn(v, tree, DirectoryOf(v, tree, root, Find(v, tree, root, Parent(p))), Basename(p))
  {
    PartsOfParent(p);
    ResolveLast(v, tree, root, Parts(Parent(p)), Basename(p));
    RootHasNoParts();
    if Parent(p) != ROOT {
      ComponentsIff(Parent(p));
    }
    assert 0 !in tree by {
      assert forall c :: c in tree ==> DirAt(v, tree, c);
    }
  }

  lemma {:induction false} ComponentsIff(p: Path)
    ensures Parts(p) != [] <==> HasComponent(p)
  {
    if HasComponent(p) {
      PartsOfParent(p);
    } else {
      PartsOfSlashes(p);
    }
  }

  /** A parent of two slashes or more is not the root to the driver: it has no component, so
      nothing can be created under it, although the path itself is looked up in the root. */
  lemma {:induction false} ParentIsLostIff(v: Vol, tree: Tree, root: nat, p: Path)
    requires HasComponent(p)
    ensures Parent(p) != [] && (Parent(p) == ROOT || HasComponent(Parent(p)) || 2 <= |Parent(p)|)
    ensures Parent(p) != ROOT && !HasComponent(Parent(p)) ==>
              && Find(v, tree, root, Parent(p)) == Nowhere
              && Find(v, tree, root, p) == LookIn(v, tree, root, Basename(p))
    ensures Parent(p) != ROOT && !HasComponent(Parent(p)) <==>
            |Parts(p)| == 1 && 3 <= |p| && p[0] == SLASH && p[1] == SLASH && p[2] == SLASH
  {
    PartsOfParent(p);
    ComponentsIff(Parent(p));
    RootHasNoParts();
    var end := TrimmedEnd(p, |p|);
    var start := WordStart(p, end);
    if start <= 2 {
      StartsWithSlashes(p, end, start);
    }
    if start <= 1 {
    } else if !HasComponent(Parent(p)) {
      assert forall i :: 0 <= i < start - 1 ==> p[i] == Parent(p)[i];
    } else {
      var i :| 0 <= i < |Parent(p)| && Parent(p)[i] != SLASH;
    }
  }

  /** "///a": it names what "a" names in the root directory, and its parent "//" names nothing. */
  lemma {:induction false} TripleSlashIsLost(v: Vol, tree: Tree, root: nat)
    ensures var p: Path := [SLASH, SLASH, SLASH, 0x61];
            && Parent(p) == [SLASH, SLASH] && Basename(p) == [0x61]
            && Find(v, tree, root, p) == LookIn(v, tree, root, [0x61])
            && Find(v, tree, root, Parent(p)) == Nowhere
  {
    var p: Path := [SLASH, SLASH, SLASH, 0x61];
    assert p[3] != SLASH;
    assert TrimmedEnd(p, 4) == 4 && WordStart(p, 4) == 3;
    assert Parent(p) == p[..2] == [SLASH, SLASH] && p[3..4] == [0x61];
    ParentIsLostIff(v, tree, root, p);
  }

  lemma {:induction false} StartsWithSlashes(p: Path, end: nat, start: nat)
    requires HasComponent(p) && end == TrimmedEnd(p, |p|) && start == WordStart(p, end) && start <= 2
    ensures !(3 <= |p| && p[0] == SLASH && p[1] == SLASH && p[2] == SLASH)
  {
    var i :| 0 <= i < |p| && p[i] != SLASH;
    TrimmedAtWord(p, |p|, i);
    WordBeforeEnd(p, end);
    assert p[start] == p[start..end][0];
  }

  // ---------------------------------------------------------------- finding and creating

  /** What the driver knows about an entry, at its place. */
  ghost predicate Found(v: Vol, tree: Tree, place: Place, info: DirectoryEntryInfo)
    requires place.At? && place.dir in tree && DirAt(v, tree, place.dir) && place.k < |DirListing(v, tree[place.dir])|
  {
    && 0 < v.clusterSize && Located(info, EntryAt(v, tree, place), tree[place.dir], v.clusterSize)
    && MatchesSlot(info, ChainBytes(v.data, tree[place.dir]))
  }

  /** The search of one directory for a component. */
  method FindInDirectory(fs: Volume, dir: nat, name: Path, ghost tree: Tree)
    returns (found: bool, info: DirectoryEntryInfo)
    requires fs.Valid() && TreeOk(fs.view, tree) && (dir in tree || dir < 2)
    ensures found <==> LookIn(fs.view, tree, dir, name).At?
    ensures found ==> Found(fs.view, tree, LookIn(fs.view, tree, dir, name), info)
  {
    ghost var chain := if dir in tree then tree[dir] else [];
    assert dir in tree ==> DirAt(fs.view, tree, dir);
    info := Info([], 0, 0, 0, 0, 0, 0, 0);
    found := false;
    var ok, entries := ReadDirectory(fs, dir, chain);
    if !ok {
      return;
    }
    ghost var es := DirListing(fs.view, chain);
    for j := 0 to |entries|
      invariant FirstNamed(es, name, 0) == FirstNamed(es, name, j)
    {
      assert Located(entries[j], es[j], chain, fs.view.clusterSize);
      var same := CompareNames(entries[j].name, name);
      if same {
        return true, entries[j];
      }
    }
  }

  lemma {:induction false} EntryLeads(v: Vol, tree: Tree, place: Place)
    requires TreeOk(v, tree) && place.At? && place.dir in tree && DirAt(v, tree, place.dir)
    requires place.k < |DirListing(v, tree[place.dir])| && IsDirectory(EntryAt(v, tree, place).attributes)
    ensures EntryAt(v, tree, place).firstCluster in tree || EntryAt(v, tree, place).firstCluster < 2
  {
    assert Leads(v, tree, place.dir, place.k);
  }

  lemma {:induction false} NoPartsNowhere(v: Vol, tree: Tree, dir: nat)
    ensures Resolve(v, tree, dir, []) == Nowhere
  {
  }

  /** Resolves a path from the root directory. */
  method FindEntry(fs: Volume, root: nat, path: Path, ghost tree: Tree)
    returns (found: bool, info: DirectoryEntryInfo)
    requires fs.Valid() && TreeOk(fs.view, tree) && root in tree
    ensures found <==> Find(fs.view, tree, root, path) != Nowhere
    ensures Find(fs.view, tree, root, path).Root? ==>
              info.firstCluster == root && IsDirectory(info.attributes) && info.directoryEntryCluster == 0
    ensures Find(fs.view, tree, root, path).At? ==> Found(fs.view, tree, Find(fs.view, tree, root, path), info)
  {
    hide Parts, LookIn, Resolve, TreeOk, DirAt;
    ghost var place := Find(fs.view, tree, root, path);
    info := Info(ROOT, ATTRIBUTE_DIRECTORY, root, 0, root, 0, 0, 0);
    if path == [] || path == ROOT {
      return true, info;
    }
    var parts := SplitPath(path);
    var currentDirectory := root;
    found := false;
    assert parts[0..] == parts;
    for i := 0 to |parts|
      invariant !found && (currentDirectory in tree || currentDirectory < 2)
      invariant Resolve(fs.view, tree, currentDirectory, parts[i..]) == place
    {
      ResolveFirst(fs.view, tree, currentDirectory, parts, i);
      ghost var here := LookIn(fs.view, tree, currentDirectory, parts[i]);
      found, info := FindInDirectory(fs, currentDirectory, parts[i], tree);
      if !found || i + 1 == |parts| {
        return;
      }
      found := false;
      if !IsDirectory(info.attributes) {
        return;
      }
      EntryLeads(fs.view, tree, here);
      currentDirectory := info.firstCluster;
    }
    assert parts[|parts|..] == [];
    NoPartsNowhere(fs.view, tree, currentDirectory);
  }

  datatype CreateResult = Made | AlreadyExists | NotDirectory | CreateFailed

  /** The directory a new node at `path` would go to: found, named by a path that names a
      directory, and the path itself names nothing. */
  ghost predicate Creatable(v: Vol, tree: Tree, root: nat, path: Path) {
    && Find(v, tree, root, path) == Nowhere
    && IsDirectoryPlace(v, tree, Find(v, tree, root, Parent(path)))
  }

  ghost function ParentDirectory(v: Vol, tree: Tree, root: nat, path: Path): nat {
    DirectoryOf(v, tree, root, Find(v, tree, root, Parent(path)))
  }

  lemma {:induction false} ParentInTree(v: Vol, tree: Tree, root: nat, path: Path)
    requires TreeOk(v, tree) && root in tree && IsDirectoryPlace(v, tree, Find(v, tree, root, Parent(path)))
    ensures var dir := ParentDirectory(v, tree, root, path);
            (dir in tree <==> 2 <= dir) && (dir in tree ==> DirAt(v, tree, dir))
  {
    var above := Find(v, tree, root, Parent(path));
    assert above.At? ==> Leads(v, tree, above.dir, above.k);
  }

  /** Creates an empty file or a directory at a path; the driver has a function for each,
      which differ in the attributes they pass on. */
  method CreateNode(fs: Volume, root: nat, path: Path, attributes: u8, ghost tree: Tree)
    returns (r: CreateResult, ghost w: Creation, ghost info: DirectoryEntryInfo)
    requires fs.Valid() && TreeOk(fs.view, tree) && root in tree
    modifies fs, fs.disk
    ensures fs.Valid()
    ensures r == AlreadyExists <==> Find(old(fs.view), tree, root, path) != Nowhere
    ensures r == NotDirectory <==> r != AlreadyExists && !Creatable(old(fs.view), tree, root, path)
    ensures var v, dir, name := old(fs.view), old(ParentDirectory(fs.view, tree, root, path)), Basename(path);
            && (r == Made <==>
                && Creatable(v, tree, root, path) && dir in tree && DirAt(v, tree, dir) && Storable(name)
                && Needed(DirRoles(v, tree[dir]), attributes) <= FreeEntries(v.fat))
            && (r == Made ==> Created(v, tree[dir], w, fs.view, name, attributes, info))
            && (r == CreateFailed && dir in tree && Storable(name) ==>
                FreeEntries(fs.view.fat) == 0 && Grown(v, tree[dir], fs.view, w.chain))
            && (r != Made && !(r == CreateFailed && dir in tree && Storable(name)) ==> fs.view == v)
  {
    hide Find, Parent, Basename, Created, Grown, HoldsRoles, Needed, TreeOk, Storable;
    ghost var v := fs.view;
    w := Creation(0, [], v, v);
    info := Info([], 0, 0, 0, 0, 0, 0, 0);
    ghost var dir := ParentDirectory(v, tree, root, path);
    var taken, existing := FindEntry(fs, root, path, tree);
    if taken {
      return AlreadyExists, w, info;
    }
    var parentPath := ParentOf(path);
    var name := BasenameOf(path);
    var found, parent := FindEntry(fs, root, parentPath, tree);
    if !found || !IsDirectory(parent.attributes) {
      return NotDirectory, w, info;
    }
    r := CreateFailed;
    ParentInTree(v, tree, root, path);
    if parent.firstCluster < 2 {
      return;
    }
    var created;
    created, w := CreateDirectoryEntry(fs, parent.firstCluster, name, attributes, tree[dir]);
    if created.Some? {
      r, info := Made, created.value;
    }
  }

  /** A node that was created had no namesake in its directory, up to case. Names there stay
      distinct exactly when the new one is lost, or faithful with no long name left over
      before its slot, or listed under a name that no entry has. */
  lemma {:induction false} CreateNodeUniqueIff(v: Vol, tree: Tree, root: nat, path: Path, attributes: u8, w: Creation,
                                               v': Vol, info: DirectoryEntryInfo)
    requires WellFormed(v) && v.clusterSize % 32 == 0 && TreeOk(v, tree) && root in tree
    requires Creatable(v, tree, root, path) && Storable(Basename(path))
    requires attributes == ATTRIBUTE_ARCHIVE || attributes == ATTRIBUTE_DIRECTORY
    requires ParentDirectory(v, tree, root, path) in tree && DirAt(v, tree, ParentDirectory(v, tree, root, path))
    requires Created(v, tree[ParentDirectory(v, tree, root, path)], w, v', Basename(path), attributes, info)
    ensures var name, chain := Basename(path), tree[ParentDirectory(v, tree, root, path)];
            && !HasName(DirListing(v, chain), name)
            && w.idx <= |DirRoles(v, chain)|
            && (Tidy(DirRoles(v, chain)) && NamesDistinct(DirListing(v, chain)) && 0 !in name ==>
                && InTable(v'.data, w.chain)
                && (NamesDistinct(DirListing(v', w.chain)) <==>
                    || name[0] == ENTRY_DELETED
                    || (Pending(DirRoles(v, chain)[..w.idx]) == [] && Faithful(name))
                    || !HasName(DirListing(v, chain), ListedName(DirRoles(v, chain), w.idx, name))))
  {
    hide Grown, WriteStep, NamesDistinct, Tidy, Faithful, ListedName;
    StorableHasComponent(path);
    if Parent(path) != ROOT {
      ComponentsIff(Parent(path));
      ParentNotEmpty(path);
    }
    FindThroughParent(v, tree, root, path);
    var name, chain := Basename(path), tree[ParentDirectory(v, tree, root, path)];
    var es := DirListing(v, chain);
    assert FirstNamed(es, name, 0) == |es|;
    if Tidy(DirRoles(v, chain)) && NamesDistinct(es) && 0 !in name {
      CreateKeepsUnique(v, chain, w, v', name, attributes, info);
    }
  }

  lemma {:induction false} ParentNotEmpty(p: Path)
    ensures Parent(p) != []
  {
  }

  /** A base name that can be stored is a component of its path. */
  lemma {:induction false} StorableHasComponent(p: Path)
    requires Storable(Basename(p))
    ensures HasComponent(p)
  {
    var name := Basename(p);
    assert name != [] && name[0] in name;
    if p != ROOT {
      var start := WordStart(p, TrimmedEnd(p, |p|));
      assert p[start] == name[0];
    }
  }

  // ---------------------------------------------------------------- removing

  /** `file` is the chain of the entry at the place, apart from its directory's; nothing is
      asked of "." and "..". */
  ghost predicate Targets(fs: Volume, tree: Tree, place: Place, file: seq<nat>)
    requires fs.Valid() && place.At? && place.dir in tree && DirAt(fs.view, tree, place.dir)
    requires place.k < |DirListing(fs.view, tree[place.dir])|
    reads fs, fs.disk
  {
    var e := EntryAt(fs.view, tree, place);
    !IsDotEntry(e.name) ==> fs.StartsAt(e.firstCluster, file) && forall c :: c in file ==> c !in tree[place.dir]
  }

  lemma {:induction false} TargetIsRemovable(fs: Volume, tree: Tree, place: Place, file: seq<nat>,
                                             info: DirectoryEntryInfo)
    requires fs.Valid() && place.At? && place.dir in tree && DirAt(fs.view, tree, place.dir)
    requires place.k < |DirListing(fs.view, tree[place.dir])|
    requires Targets(fs, tree, place, file) && Found(fs.view, tree, place, info)
    ensures 2 <= info.directoryEntryCluster
    ensures var e := EntryAt(fs.view, tree, place);
            && info.name == e.name && info.attributes == e.attributes
            && (!IsDotEntry(e.name) ==> RemovableFrom(fs, info, tree[place.dir], e.index, file))
  {
    hide Represents, CopiesAgree, WellFormed, IsChain, Roles, Listing, IndexOf, Within;
    ChainInRange(fs.view.fat, tree[place.dir]);
  }

  /** Removes what a path names. Nothing changes unless the entry is removed. */
  method Remove(fs: Volume, root: nat, path: Path, ghost tree: Tree, ghost file: seq<nat>)
    returns (r: RemoveResult, ghost mid: Vol)
    requires fs.Valid() && LinksStay(fs.view.fat) && TreeOk(fs.view, tree) && root in tree
    requires Find(fs.view, tree, root, path).At? ==> Targets(fs, tree, Find(fs.view, tree, root, path), file)
    modifies fs, fs.disk
    ensures fs.Valid()
    ensures var v, place := old(fs.view), old(Find(fs.view, tree, root, path));
            && (r == NotFound <==> place == Nowhere)
            && (r == InvalidPath <==> place == Root || (place.At? && IsDotEntry(EntryAt(v, tree, place).name)))
            && (r == IOError <==>
                place.At? && r != InvalidPath && IsDirectory(EntryAt(v, tree, place).attributes) && file == [])
            && (r == PermissionDenied <==>
                && place.At? && r != InvalidPath && IsDirectory(EntryAt(v, tree, place).attributes)
                && file != [] && !OnlyDots(v, file))
            && (r == Removed ==>
                place.At? && Erased(v, tree[place.dir], EntryAt(v, tree, place).index, file, mid, fs.view))
            && (r != Removed ==> fs.view == v)
  {
    hide Find, Erased, HoldsRoles, TreeOk, OnlyDots, RemovableFrom, Targets, Found, IsDotEntry;
    ghost var v, place := fs.view, Find(fs.view, tree, root, path);
    mid := v;
    var found, info := FindEntry(fs, root, path, tree);
    if !found {
      return NotFound, mid;
    }
    ghost var dir, idx := [], 0;
    if place.At? {
      TargetIsRemovable(fs, tree, place, file, info);
      dir, idx := tree[place.dir], EntryAt(v, tree, place).index;
    }
    r, mid := RemoveEntry(fs, info, dir, idx, file);
  }

  /** What was removed by path is gone from its directory, its long name included, and only
      that. A later search of the directory for the name finds nothing exactly when no entry
      behind it has it too. */
  lemma {:induction false} RemovedIsGone(v: Vol, tree: Tree, dir: nat, name: Path, file: seq<nat>, mid: Vol, v': Vol)
    requires WellFormed(v) && v.clusterSize % 32 == 0 && LookIn(v, tree, dir, name).At?
    requires forall c :: c in tree[dir] ==> c !in file
    requires Erased(v, tree[dir], EntryAt(v, tree, LookIn(v, tree, dir, name)).index, file, mid, v')
    ensures InTable(v'.data, tree[dir]) && DirAt(v', tree, dir)
    ensures var es, k := DirListing(v, tree[dir]), LookIn(v, tree, dir, name).k;
            && DirListing(v', tree[dir]) == es[..k] + es[k + 1..]
            && (LookIn(v', tree, dir, name) == Nowhere <==>
                forall j :: k < j < |es| ==> !NamesEqual(es[j].name, name))
  {
    hide Roles, Listing, ChainBytes, Erased, IsChain, NamesEqual;
    var chain, es, k := tree[dir], DirListing(v, tree[dir]), LookIn(v, tree, dir, name).k;
    RolesAreIndexed(ChainBytes(v.data, chain));
    ListedSlot(DirRoles(v, chain), k);
    RemoveTakesOne(v, chain, es[k].index, file, mid, v');
    NoneNamedIff(es, k, name);
  }

  /** Without its first namesake, the list has none exactly when no later entry is one. */
  lemma {:induction false} NoneNamedIff(es: seq<Entry>, k: nat, name: Path)
    requires k == FirstNamed(es, name, 0) < |es|
    ensures var rest := es[..k] + es[k + 1..];
            FirstNamed(rest, name, 0) == |rest| <==> forall j :: k < j < |es| ==> !NamesEqual(es[j].name, name)
  {
    var rest := es[..k] + es[k + 1..];
    var f := FirstNamed(rest, name, 0);
    if f < |rest| {
      assert rest[f] == es[if f < k then f else f + 1];
    } else {
      forall j | k < j < |es|
        ensures !NamesEqual(es[j].name, name)
      {
        assert rest[j - 1] == es[j];
      }
    }
  }
}
