/** The hierarchy of files by path name: which directory a path belongs to, what the tables of
    the directories list, and how creating and removing change that. */
module Trees {
  import opened Outcomes
  import opened Sectors
  import opened BlockMaps
  import opened FileContents
  import opened Volumes
  import opened Directories

  const FREE_MAP_SECTOR: nat := 0
  const DIRECTORY_SECTOR: nat := 1
  const SLASH: byte := 47
  type Path = seq<byte>

  const PATH_MAX := 38              // one less than FILE_NAME_MAX_LEN, so that a stored name ends in NUL

  // Where the last '/' is; 0 when there is none.
  function LastSlash(name: seq<byte>): (pos: nat)
    ensures pos <= |name| && (name != [] ==> pos < |name|)
    ensures (forall i :: pos < i < |name| ==> name[i] != SLASH) && (pos > 0 ==> name[pos] == SLASH)
  {
    if name == [] then 0
    else if name[|name| - 1] == SLASH then |name| - 1
    else LastSlash(name[..|name| - 1])
  }

  // The path of the directory a file belongs to; [] stands for the root.
  function Parent(name: Path): (p: Path)
    ensures name != [] ==> |p| < |name|
  {
    name[..LastSlash(name)]
  }

  // n is k or lies below it.
  predicate Under(n: Path, k: Path)
    decreases |n|
  {
    n != [] && (n == k || Under(Parent(n), k))
  }

  lemma {:induction false} UnderLonger(n: Path, k: Path)
    requires Under(n, k)
    ensures |n| >= |k| && (|n| == |k| ==> n == k)
    decreases |n|
  {
    if n == k {
    } else {
      UnderLonger(Parent(n), k);
    }
  }

  // In terms of slashes: the parent of p/c is p, and a name without a slash after its first
  // character belongs to the root.
  lemma ParentOf(p: Path, c: Path)
    requires p != [] && SLASH !in c
    ensures Parent(p + [SLASH] + c) == p
  {
    var name := p + [SLASH] + c;
    assert forall i :: |p| < i < |name| ==> name[i] == c[i - |p| - 1];
    assert name[|p|] == SLASH;
  }

  lemma ParentTop(name: Path)
    requires forall i :: 0 < i < |name| ==> name[i] != SLASH
    ensures Parent(name) == []
  {
  }

  // Below k is whatever continues it after a slash.
  lemma {:induction false} UnderPrefix(n: Path, k: Path)
    requires n != [] && k != []
    ensures Under(n, k) <==> n == k || k + [SLASH] <= n
    decreases |n|
  {
    var pos, below := LastSlash(n), k + [SLASH];
    assert below <= n ==> n[|k|] == below[|k|];
    if pos == 0 {
      assert Parent(n) == [];
    } else {
      assert Parent(n) == n[..pos];
      UnderPrefix(n[..pos], k);
      if k + [SLASH] <= n {
        assert n[|k|] == SLASH && n[..|k|] == k;
        assert |k| < pos ==> k + [SLASH] <= n[..pos];
      }
      assert n[..pos] == k ==> k + [SLASH] <= n;
    }
  }

  // The files of the system by path, with the sectors of their headers, and which are directories.
  datatype Tree = Tree(sectors: map<Path, nat>, dirs: set<Path>)

  predicate IsDirPath(tr: Tree, p: Path)
  {
    p == [] || p in tr.dirs
  }

  function DirSector(tr: Tree, p: Path): nat
    requires p == [] || p in tr.sectors
  {
    if p == [] then DIRECTORY_SECTOR else tr.sectors[p]
  }

  predicate GoodName(n: Path)
  {
    n != [] && |n| <= PATH_MAX && 0 !in n
  }

  ghost predicate Shape(tr: Tree)
  {
    && tr.dirs <= tr.sectors.Keys
    && (forall n :: n in tr.sectors ==> GoodName(n))
    && (forall n {:trigger Parent(n)} :: n in tr.sectors ==> IsDirPath(tr, Parent(n)))
    && (forall n :: n in tr.sectors ==> tr.sectors[n] != FREE_MAP_SECTOR && tr.sectors[n] != DIRECTORY_SECTOR)
    && (forall n, k :: n in tr.sectors && k in tr.sectors && n != k ==> tr.sectors[n] != tr.sectors[k])
  }

  // Table t lists exactly the files that belong to directory p, each once.
  ghost predicate TableOk(t: Table, p: Path, tr: Tree)
  {
    && (forall i :: 0 <= i < |t| && t[i].inUse ==>
          && t[i].name in tr.sectors && Parent(t[i].name) == p
          && t[i].sector == tr.sectors[t[i].name] && (t[i].isDir <==> t[i].name in tr.dirs))
    && (forall n :: n in tr.sectors && Parent(n) == p ==> exists i: nat :: Listed(t, n, i))
    && (forall i, j :: 0 <= i < j < |t| && t[i].inUse && t[j].inUse ==> t[i].name != t[j].name)
  }

  ghost predicate IsDirectory(f: File, p: Path, tr: Tree)
  {
    && f.h.numBytes == DIRECTORY_FILE_SIZE <= |f.raw|
    && forall x {:trigger Peek(x)} :: Peek(x) ==> TableOk(DecodeTable(f.raw[..DIRECTORY_FILE_SIZE]), p, tr)
  }

  // The table in the file's bytes.
  function TableOf(f: File): Table
    requires f.h.numBytes == DIRECTORY_FILE_SIZE <= |f.raw|
  {
    DecodeTable(f.raw[..DIRECTORY_FILE_SIZE])
  }

  // The live files are the bitmap file, the root directory and the files of the tree.
  ghost predicate Named(v: View, tr: Tree)
  {
    && FREE_MAP_SECTOR in v && DIRECTORY_SECTOR in v
    && (forall n :: n in tr.sectors ==> tr.sectors[n] in v)
    && (forall s :: s in v && s != FREE_MAP_SECTOR && s != DIRECTORY_SECTOR ==>
          exists n :: n in tr.sectors && tr.sectors[n] == s)
  }

  // And every directory's bytes are a table of its files.
  ghost predicate Hierarchy(v: View, tr: Tree)
  {
    forall x {:trigger Look(x)} :: Look(x) ==>
      && Shape(tr) && Named(v, tr)
      && (forall p :: IsDirPath(tr, p) ==> IsDirectory(v[DirSector(tr, p)], p, tr))
  }

  lemma HierarchyNow(v: View, tr: Tree)
    requires Hierarchy(v, tr)
    ensures Shape(tr) && FREE_MAP_SECTOR in v && DIRECTORY_SECTOR in v
    ensures forall n :: n in tr.sectors ==> tr.sectors[n] in v
  {
    assert Look(0);
  }

  lemma DirectoryAt(v: View, tr: Tree, p: Path)
    requires Hierarchy(v, tr) && IsDirPath(tr, p)
    ensures (p == [] || p in tr.sectors) && DirSector(tr, p) in v && IsDirectory(v[DirSector(tr, p)], p, tr)
  {
    assert Look(0);
  }

  // What a search in the table of the right directory finds.
  lemma FoundInTable(t: Table, p: Path, tr: Tree, n: Path)
    requires TableOk(t, p, tr) && Parent(n) == p
    ensures n in tr.sectors <==> !Unlisted(t, n)
    ensures forall i: nat :: Listed(t, n, i) ==> t[i].sector == tr.sectors[n] && (t[i].isDir <==> n in tr.dirs)
  {
    if n in tr.sectors {
      var i: nat :| Listed(t, n, i);
    }
  }

  lemma DirectoryLists(f: File, p: Path, tr: Tree, n: Path)
    requires IsDirectory(f, p, tr) && Parent(n) == p
    ensures n in tr.sectors <==> !Unlisted(TableOf(f), n)
    ensures forall i: nat :: Listed(TableOf(f), n, i) ==>
              TableOf(f)[i].sector == tr.sectors[n] && (TableOf(f)[i].isDir <==> n in tr.dirs)
  {
    assert Peek(0);
    FoundInTable(TableOf(f), p, tr, n);
  }

  // What GetParentSector needs: the directory above the one the file would belong to exists.
  predicate Reachable(tr: Tree, name: Path)
  {
    var p := Parent(name);
    p == [] || IsDirPath(tr, Parent(p))
  }

  // The path leads through a file that is no directory.
  predicate BelowFile(tr: Tree, name: Path)
  {
    var p := Parent(name);
    p in tr.sectors && p != [] && p !in tr.dirs
  }

  lemma ParentReachable(tr: Tree, name: Path)
    requires Shape(tr) && Parent(name) != [] && IsDirPath(tr, Parent(Parent(name)))
    ensures Reachable(tr, Parent(name))
  {
    var pp := Parent(Parent(name));
    if pp != [] { assert pp in tr.sectors; }
  }

  // Two trees on the same files list the same paths: whether a path is there is told by the table of
  // its directory, which is there in both or in none.
  lemma {:induction false} SameEntry(v: View, tr: Tree, v': View, tr': Tree, n: Path)
    requires Hierarchy(v, tr) && Hierarchy(v', tr') && n != [] && forall s :: s in v && s in v' ==> v'[s] == v[s]
    ensures n in tr.sectors <==> n in tr'.sectors
    ensures n in tr.sectors ==> tr'.sectors[n] == tr.sectors[n] && (n in tr.dirs <==> n in tr'.dirs)
    decreases |n|
  {
    hide Hierarchy;
    HierarchyNow(v, tr);
    HierarchyNow(v', tr');
    var p := Parent(n);
    if p == [] {
    } else {
      SameEntry(v, tr, v', tr', p);
    }
    if IsDirPath(tr, p) {
      DirectoryAt(v, tr, p);
      DirectoryAt(v', tr', p);
      DirectoryLists(v[DirSector(tr, p)], p, tr, n);
      DirectoryLists(v'[DirSector(tr', p)], p, tr', n);
    }
  }

  lemma SameTree(v: View, tr: Tree, v': View, tr': Tree)
    requires Hierarchy(v, tr) && Hierarchy(v', tr') && forall s :: s in v && s in v' ==> v'[s] == v[s]
    ensures tr == tr'
  {
    hide Hierarchy;
    HierarchyNow(v, tr);
    HierarchyNow(v', tr');
    forall n: Path | n != []
      ensures n in tr.sectors <==> n in tr'.sectors
      ensures n in tr.sectors ==> tr'.sectors[n] == tr.sectors[n] && (n in tr.dirs <==> n in tr'.dirs)
    {
      SameEntry(v, tr, v', tr', n);
    }
    assert tr.sectors.Keys == tr'.sectors.Keys;
    assert tr.sectors == tr'.sectors;
    assert tr.dirs == tr'.dirs;
  }

  /* A new file. */

  function Added(tr: Tree, name: Path, s: nat, isDir: bool): Tree
  {
    Tree(tr.sectors[name := s], if isDir then tr.dirs + {name} else tr.dirs)
  }

  lemma ShapeAdd(tr: Tree, name: Path, s: nat, isDir: bool)
    requires Shape(tr) && GoodName(name) && name !in tr.sectors && IsDirPath(tr, Parent(name))
    requires s != FREE_MAP_SECTOR && s != DIRECTORY_SECTOR && forall n :: n in tr.sectors ==> tr.sectors[n] != s
    ensures Shape(Added(tr, name, s, isDir))
  {
  }

  lemma TableAdd(t: Table, tr: Tree, name: Path, s: int32, isDir: bool, slot: nat)
    requires TableOk(t, Parent(name), tr) && s >= 0 && GoodName(name) && name !in tr.sectors && slot < |t| && !t[slot].inUse
    requires name !in tr.dirs
    ensures TableOk(t[slot := Entry(true, isDir, s, name)], Parent(name), Added(tr, name, s, isDir))
  {
    var t', tr' := t[slot := Entry(true, isDir, s, name)], Added(tr, name, s, isDir);
    forall n | n in tr'.sectors && Parent(n) == Parent(name) ensures exists i: nat :: Listed(t', n, i) {
      if n == name {
        assert Listed(t', n, slot);
      } else {
        var i: nat :| Listed(t, n, i);
        assert Listed(t', n, i);
      }
    }
  }

  // The other directories do not notice.
  lemma TableUnaware(t: Table, p: Path, tr: Tree, name: Path, s: nat, isDir: bool)
    requires TableOk(t, p, tr) && name !in tr.sectors && Parent(name) != p && name !in tr.dirs
    ensures TableOk(t, p, Added(tr, name, s, isDir))
  {
  }

  // The table of a new directory: none of its files exists yet.
  lemma TableNew(t: Table, name: Path, tr: Tree)
    requires Shape(tr) && name != [] && name !in tr.dirs && forall i :: 0 <= i < |t| ==> !t[i].inUse
    ensures TableOk(t, name, tr)
  {
  }

  lemma NamedAdd(v: View, tr: Tree, name: Path, s: nat, isDir: bool, ps: nat, d: File, f: File)
    requires Named(v, tr) && s !in v && ps in v && name !in tr.sectors
    ensures Named(v[ps := d][s := f], Added(tr, name, s, isDir))
  {
    var v', tr' := v[ps := d][s := f], Added(tr, name, s, isDir);
    forall x | x in v' && x != FREE_MAP_SECTOR && x != DIRECTORY_SECTOR
      ensures exists n :: n in tr'.sectors && tr'.sectors[n] == x
    {
      if x == s {
        assert tr'.sectors[name] == s;
      } else {
        var n :| n in tr.sectors && tr.sectors[n] == x;
        assert n in tr'.sectors && tr'.sectors[n] == x;
      }
    }
  }

  // Each directory, the old ones and the new one, lists its files.
  lemma DirectoryAdd(v: View, tr: Tree, name: Path, s: int32, isDir: bool, slot: nat, d: File, f: File, q: Path)
    requires Shape(tr) && GoodName(name) && name !in tr.sectors && IsDirPath(tr, Parent(name)) && s >= 0
    requires (q == [] || q in tr.sectors) && DirSector(tr, q) in v && IsDirectory(v[DirSector(tr, q)], q, tr)
    requires q == Parent(name) ==>
               && d.h.numBytes == DIRECTORY_FILE_SIZE <= |d.raw| && slot < NUM_DIR_ENTRIES
               && var t := TableOf(v[DirSector(tr, q)]);
                  !t[slot].inUse && TableOf(d) == t[slot := Entry(true, isDir, s, name)]
    ensures IsDirectory(if q == Parent(name) then d else v[DirSector(tr, q)], q, Added(tr, name, s, isDir))
  {
    assert Peek(0);
    var t := TableOf(v[DirSector(tr, q)]);
    if q == Parent(name) {
      TableAdd(t, tr, name, s, isDir, slot);
    } else {
      TableUnaware(t, q, tr, name, s, isDir);
    }
  }

  lemma DirectoryNew(tr: Tree, name: Path, s: nat, f: File)
    requires Shape(tr) && GoodName(name) && name !in tr.sectors && IsDirPath(tr, Parent(name))
    requires f.h.numBytes == DIRECTORY_FILE_SIZE <= |f.raw| && forall i :: 0 <= i < NUM_DIR_ENTRIES ==> !TableOf(f)[i].inUse
    ensures IsDirectory(f, name, Added(tr, name, s, true))
  {
    TableNew(TableOf(f), name, tr);
  }

  // Directory d took up the new file f in its entry `slot`.
  ghost predicate Entered(d0: File, slot: nat, e: Entry, d: File)
  {
    && d0.h.numBytes == DIRECTORY_FILE_SIZE <= |d0.raw| && d.h.numBytes == DIRECTORY_FILE_SIZE <= |d.raw|
    && slot < NUM_DIR_ENTRIES && !TableOf(d0)[slot].inUse && TableOf(d) == TableOf(d0)[slot := e]
  }

  lemma HierarchyAdd(v: View, tr: Tree, name: Path, s: int32, isDir: bool, slot: nat, d: File, f: File)
    requires Hierarchy(v, tr) && GoodName(name) && name !in tr.sectors && IsDirPath(tr, Parent(name))
    requires s >= 0 && s !in v
    requires Parent(name) == [] || Parent(name) in tr.sectors
    requires DirSector(tr, Parent(name)) in v
    requires Entered(v[DirSector(tr, Parent(name))], slot, Entry(true, isDir, s, name), d)
    requires isDir ==> f.h.numBytes == DIRECTORY_FILE_SIZE <= |f.raw| && forall i :: 0 <= i < NUM_DIR_ENTRIES ==> !TableOf(f)[i].inUse
    ensures Hierarchy(v[DirSector(tr, Parent(name)) := d][s := f], Added(tr, name, s, isDir))
  {
    assert Look(0);
    var p := Parent(name);
    var ps, tr' := DirSector(tr, p), Added(tr, name, s, isDir);
    var v' := v[ps := d][s := f];
    ShapeAdd(tr, name, s, isDir);
    forall q | IsDirPath(tr', q) ensures IsDirectory(v'[DirSector(tr', q)], q, tr') {
      if q == name {
        DirectoryNew(tr, name, s, f);
      } else {
        DirectoryAdd(v, tr, name, s, isDir, slot, d, f, q);
        assert v'[DirSector(tr', q)] == if q == p then d else v[DirSector(tr, q)];
      }
    }
    NamedAdd(v, tr, name, s, isDir, ps, d, f);
  }

  // Changing the bytes of a file that is no directory keeps the hierarchy.
  lemma HierarchyContents(v: View, tr: Tree, s: nat, f: File)
    requires Hierarchy(v, tr) && s in v && forall p :: IsDirPath(tr, p) && (p == [] || p in tr.sectors) ==> DirSector(tr, p) != s
    ensures Hierarchy(v[s := f], tr)
  {
    assert Look(0);
  }

  /* A file goes. */

  function Minus(tr: Tree, name: Path): Tree
  {
    Tree(tr.sectors - {name}, tr.dirs - {name})
  }

  // A leaf of the tree: nothing belongs to it.
  predicate Childless(tr: Tree, name: Path)
  {
    forall n {:trigger Parent(n)} :: n in tr.sectors ==> Parent(n) != name
  }

  lemma ShapeDrop(tr: Tree, name: Path)
    requires Shape(tr) && name in tr.sectors && Childless(tr, name)
    ensures Shape(Minus(tr, name))
    ensures IsDirPath(Minus(tr, name), Parent(name))
    ensures forall q :: IsDirPath(Minus(tr, name), q) ==>
              IsDirPath(tr, q) && DirSector(tr, q) == DirSector(Minus(tr, name), q) != tr.sectors[name]
  {
  }

  lemma TableDrop(t: Table, tr: Tree, name: Path, slot: nat)
    requires TableOk(t, Parent(name), tr) && Listed(t, name, slot)
    ensures TableOk(t[slot := t[slot].(inUse := false)], Parent(name), Minus(tr, name))
  {
    var t', tr' := t[slot := t[slot].(inUse := false)], Minus(tr, name);
    forall n | n in tr'.sectors && Parent(n) == Parent(name) ensures exists i: nat :: Listed(t', n, i) {
      var i: nat :| Listed(t, n, i);
      assert Listed(t', n, i);
    }
  }

  lemma TableUndropped(t: Table, p: Path, tr: Tree, name: Path)
    requires TableOk(t, p, tr) && Parent(name) != p
    ensures TableOk(t, p, Minus(tr, name))
  {
  }

  lemma NamedDrop(v: View, tr: Tree, name: Path, ps: nat, d: File)
    requires Shape(tr) && Named(v, tr) && name in tr.sectors && ps in v && ps != tr.sectors[name]
    ensures Named((v - {tr.sectors[name]})[ps := d], Minus(tr, name))
  {
    var v', tr' := (v - {tr.sectors[name]})[ps := d], Minus(tr, name);
    forall x | x in v' && x != FREE_MAP_SECTOR && x != DIRECTORY_SECTOR
      ensures exists n :: n in tr'.sectors && tr'.sectors[n] == x
    {
      var n :| n in tr.sectors && tr.sectors[n] == x;
      assert n in tr'.sectors && tr'.sectors[n] == x;
    }
  }

  // Directory d gave up its entry `slot`.
  ghost predicate Struck(d0: File, name: Path, slot: nat, d: File)
  {
    && d0.h.numBytes == DIRECTORY_FILE_SIZE <= |d0.raw| && d.h.numBytes == DIRECTORY_FILE_SIZE <= |d.raw|
    && Listed(TableOf(d0), name, slot) && TableOf(d) == TableOf(d0)[slot := TableOf(d0)[slot].(inUse := false)]
  }

  lemma DirectoryDrop(d0: File, tr: Tree, name: Path, slot: nat, d: File, q: Path)
    requires IsDirectory(d0, q, tr) && (q == Parent(name) ==> Struck(d0, name, slot, d))
    ensures IsDirectory(if q == Parent(name) then d else d0, q, Minus(tr, name))
  {
    assert Peek(0);
    if q == Parent(name) {
      TableDrop(TableOf(d0), tr, name, slot);
    } else {
      TableUndropped(TableOf(d0), q, tr, name);
    }
  }

  lemma HierarchyDrop(v: View, tr: Tree, name: Path, slot: nat, d: File)
    requires Hierarchy(v, tr) && name in tr.sectors && Childless(tr, name)
    requires Parent(name) == [] || Parent(name) in tr.sectors
    requires DirSector(tr, Parent(name)) in v
    requires Struck(v[DirSector(tr, Parent(name))], name, slot, d)
    ensures Hierarchy((v - {tr.sectors[name]})[DirSector(tr, Parent(name)) := d], Minus(tr, name))
  {
    assert Look(0);
    var p, s := Parent(name), tr.sectors[name];
    var ps, tr' := DirSector(tr, p), Minus(tr, name);
    var v' := (v - {s})[ps := d];
    ShapeDrop(tr, name);
    forall q | IsDirPath(tr', q) ensures IsDirectory(v'[DirSector(tr', q)], q, tr') {
      DirectoryDrop(v[DirSector(tr, q)], tr, name, slot, d, q);
      assert v'[DirSector(tr', q)] == if q == p then d else v[DirSector(tr, q)];
    }
    NamedDrop(v, tr, name, ps, d);
  }

  /* A whole subtree goes. */

  function Without(tr: Tree, gone: set<Path>): Tree
  {
    Tree(tr.sectors - gone, tr.dirs - gone)
  }

  // Below a child of k is below k, and longer.
  lemma {:induction false} UnderChild(n: Path, c: Path, k: Path)
    requires k != [] && c != [] && Parent(c) == k && Under(n, c)
    ensures Under(n, k) && |n| > |k|
    decreases |n|
  {
    if n == c {
    } else {
      UnderChild(Parent(n), c, k);
    }
  }

  // Different children of one directory have nothing in common.
  lemma {:induction false} Siblings(n: Path, c: Path, d: Path)
    requires c != [] && d != [] && Parent(c) == Parent(d) && Under(n, c) && Under(n, d)
    ensures c == d
    decreases |n|
  {
    if n == c {
      if c != d { UnderLonger(Parent(c), d); }
    } else if n == d {
      UnderLonger(Parent(d), c);
    } else {
      Siblings(Parent(n), c, d);
    }
  }

  // Whatever is below k is below one of its children.
  lemma {:induction false} ChildAbove(tr: Tree, n: Path, k: Path) returns (c: Path)
    requires Shape(tr) && n in tr.sectors && Under(n, k) && n != k
    ensures c in tr.sectors && Parent(c) == k && Under(n, c)
    decreases |n|
  {
    if Parent(n) == k {
      c := n;
    } else {
      assert IsDirPath(tr, Parent(n));
      c := ChildAbove(tr, Parent(n), k);
    }
  }

  // A directory at or below name.
  predicate Below(tr: Tree, name: Path, t: nat)
  {
    exists n :: n in tr.dirs && n in tr.sectors && Under(n, name) && tr.sectors[n] == t
  }

  // No file is new, and the bytes of no other file than those directories and the bitmap file
  // have changed.
  ghost predicate Remains(v0: View, tr0: Tree, name: Path, v: View)
  {
    forall t :: t in v ==>
      && t in v0 && v[t].h == v0[t].h && v[t].feet == v0[t].feet
      && (v[t] == v0[t] || t == FREE_MAP_SECTOR || Below(tr0, name, t))
  }

  // The same for what Remove leaves, which may also have changed the directory of name.
  ghost predicate Trimmed(v0: View, tr0: Tree, name: Path, v: View)
  {
    forall t :: t in v ==>
      && t in v0 && v[t].h == v0[t].h && v[t].feet == v0[t].feet
      && (v[t] == v0[t] || t == FREE_MAP_SECTOR || Below(tr0, name, t) || (Reaches(tr0, Parent(name)) && t == DirSector(tr0, Parent(name))))
  }

  predicate Reaches(tr: Tree, p: Path) { p == [] || p in tr.sectors }

  // No file from name down is held open.
  predicate Unheld(tr: Tree, name: Path, open: set<nat>)
  {
    forall n :: n in tr.sectors && Under(n, name) ==> tr.sectors[n] !in open
  }

  // What Remove does to the tree: everything from name down goes when it succeeds, something
  // strictly below name when it does not.
  ghost predicate Removal(tr0: Tree, name: Path, open: set<nat>, ok: bool, gone: set<Path>, tr: Tree)
  {
    && tr == Without(tr0, gone)
    && (ok <==> name in tr0.sectors && Unheld(tr0, name, open))
    && (forall n :: n in gone ==> n in tr0.sectors && Under(n, name) && (n == name ==> ok))
    && (ok ==> forall n :: n in tr0.sectors && Under(n, name) ==> n in gone)
  }

  // The first i entries of the directory's table have been dealt with.
  ghost predicate Pruning(tr0: Tree, name: Path, t: Table, i: nat, open: set<nat>, gone: set<Path>, tr: Tree)
  {
    && tr == Without(tr0, gone) && i <= |t|
    && (forall n :: n in gone ==> n in tr0.sectors && tr0.sectors[n] !in open)
    && (forall n :: n in tr0.sectors ==> (n in gone <==> exists j :: 0 <= j < i && t[j].inUse && Under(n, t[j].name)))
  }

  // A child that is still to be dealt with is still there, with all that is below it.
  lemma PruneNext(tr0: Tree, name: Path, t: Table, i: nat, open: set<nat>, gone: set<Path>, tr: Tree)
    requires Pruning(tr0, name, t, i, open, gone, tr) && i < |t| && t[i].inUse
    requires Shape(tr0) && name in tr0.dirs && TableOk(t, name, tr0)
    ensures var c := t[i].name;
            && c in tr0.sectors && Parent(c) == name && |c| > |name| && GoodName(c)
            && tr == Without(tr0, gone) && name in tr.sectors && name in tr.dirs && name != []
            && forall n :: n in tr0.sectors && Under(n, c) ==> n in tr.sectors
  {
    var c := t[i].name;
    assert Parent(c) == name;
    forall n | n in tr0.sectors && Under(n, c) ensures n in tr.sectors {
      forall j | 0 <= j < i && t[j].inUse ensures !Under(n, t[j].name) {
        assert Parent(t[j].name) == name && t[j].name in tr0.sectors;
        if Under(n, t[j].name) { Siblings(n, c, t[j].name); }
      }
    }
    assert name in tr0.sectors;
    forall j | 0 <= j < i && t[j].inUse ensures !Under(name, t[j].name) {
      assert Parent(t[j].name) == name && t[j].name in tr0.sectors;
      if Under(name, t[j].name) { UnderLonger(name, t[j].name); }
    }
  }

  lemma PruneStep(tr0: Tree, name: Path, t: Table, i: nat, open: set<nat>, gone: set<Path>, tr: Tree, g: set<Path>, tr': Tree)
    requires Pruning(tr0, name, t, i, open, gone, tr) && i < |t| && t[i].inUse
    requires Shape(tr0) && name in tr0.dirs && TableOk(t, name, tr0)
    requires Removal(tr, t[i].name, open, true, g, tr')
    ensures Pruning(tr0, name, t, i + 1, open, gone + g, tr')
  {
    PruneNext(tr0, name, t, i, open, gone, tr);
    forall n | n in tr0.sectors
      ensures n in gone + g <==> exists j :: 0 <= j < i + 1 && t[j].inUse && Under(n, t[j].name)
    {
      PruneMember(tr0, t, i, gone, tr, g, n);
    }
    assert tr'.sectors == tr0.sectors - (gone + g);
    assert tr'.dirs == tr0.dirs - (gone + g);
  }

  lemma PruneMember(tr0: Tree, t: Table, i: nat, gone: set<Path>, tr: Tree, g: set<Path>, n: Path)
    requires i < |t| && t[i].inUse && n in tr0.sectors && tr == Without(tr0, gone)
    requires n in gone <==> exists j :: 0 <= j < i && t[j].inUse && Under(n, t[j].name)
    requires n in g <==> n in tr.sectors && Under(n, t[i].name)
    ensures n in gone + g <==> exists j :: 0 <= j < i + 1 && t[j].inUse && Under(n, t[j].name)
  {
    hide Under;
  }

  lemma PruneFail(tr0: Tree, name: Path, t: Table, i: nat, open: set<nat>, gone: set<Path>, tr: Tree, g: set<Path>, tr': Tree)
    requires Pruning(tr0, name, t, i, open, gone, tr) && i < |t| && t[i].inUse
    requires Shape(tr0) && name in tr0.dirs && TableOk(t, name, tr0)
    requires Removal(tr, t[i].name, open, false, g, tr')
    ensures Removal(tr0, name, open, false, gone + g, tr')
  {
    PruneNext(tr0, name, t, i, open, gone, tr);
    var c := t[i].name;
    assert c in tr.sectors;
    var n :| n in tr.sectors && Under(n, c) && tr.sectors[n] in open;
    UnderChild(n, c, name);
    forall n | n in gone + g ensures n in tr0.sectors && Under(n, name) && n != name {
      var k := if n in g then i else var j :| 0 <= j < i && t[j].inUse && Under(n, t[j].name); j;
      assert t[k].name in tr0.sectors && Parent(t[k].name) == name;
      UnderChild(n, t[k].name, name);
    }
    assert tr'.sectors == tr0.sectors - (gone + g);
    assert tr'.dirs == tr0.dirs - (gone + g);
  }

  // After the last entry nothing is left below name.
  lemma PruneDone(tr0: Tree, name: Path, t: Table, open: set<nat>, gone: set<Path>, tr: Tree)
    requires Pruning(tr0, name, t, |t|, open, gone, tr)
    requires Shape(tr0) && name in tr0.dirs && TableOk(t, name, tr0)
    ensures tr == Without(tr0, gone) && forall n :: n in gone ==> n in tr0.sectors && tr0.sectors[n] !in open
    ensures forall n :: n in tr0.sectors ==> (n in gone <==> Under(n, name) && n != name)
  {
    forall n | n in tr0.sectors ensures n in gone <==> Under(n, name) && n != name {
      if n in gone {
        var j :| 0 <= j < |t| && t[j].inUse && Under(n, t[j].name);
        UnderChild(n, t[j].name, name);
      }
      if Under(n, name) && n != name {
        var c := ChildAbove(tr0, n, name);
        var j: nat :| Listed(t, c, j);
      }
    }
  }

  // Then name itself can go.
  lemma RemovalDone(tr0: Tree, name: Path, open: set<nat>, gone: set<Path>, tr: Tree)
    requires Shape(tr0) && name in tr0.sectors && tr == Without(tr0, gone) && tr0.sectors[name] !in open
    requires forall n :: n in gone ==> n in tr0.sectors && tr0.sectors[n] !in open
    requires forall n :: n in tr0.sectors ==> (n in gone <==> Under(n, name) && n != name)
    ensures Childless(tr, name) && name in tr.sectors && Reaches(tr, Parent(name))
    ensures Removal(tr0, name, open, true, gone + {name}, Minus(tr, name))
  {
    RemovalRest(tr0, name, gone, tr);
    MinusWithout(tr0, gone, name);
    hide *;
    assert Removal(tr0, name, open, true, gone + {name}, Without(tr0, gone + {name})) by {
      RemovalFrom(tr0, name, open, gone + {name});
    }
  }

  lemma RemovalFrom(tr0: Tree, name: Path, open: set<nat>, gone: set<Path>)
    requires name in gone
    requires forall n :: n in gone ==> n in tr0.sectors && tr0.sectors[n] !in open
    requires forall n :: n in tr0.sectors ==> (n in gone <==> Under(n, name))
    ensures Removal(tr0, name, open, true, gone, Without(tr0, gone))
  {
    hide Under;
  }

  lemma MinusWithout(tr: Tree, gone: set<Path>, name: Path)
    ensures Minus(Without(tr, gone), name) == Without(tr, gone + {name})
  {
    var t := Minus(Without(tr, gone), name);
    assert t.sectors == tr.sectors - (gone + {name});
    assert t.dirs == tr.dirs - (gone + {name});
  }

  lemma RemovalRest(tr0: Tree, name: Path, gone: set<Path>, tr: Tree)
    requires Shape(tr0) && name in tr0.sectors && tr == Without(tr0, gone)
    requires forall n :: n in tr0.sectors ==> (n in gone <==> Under(n, name) && n != name)
    ensures Childless(tr, name) && name in tr.sectors && Reaches(tr, Parent(name)) && Under(name, name)
  {
    forall n | n in tr.sectors ensures Parent(n) != name {
      if Parent(n) == name { assert Under(n, name); }
    }
    assert IsDirPath(tr0, Parent(name));
    if Parent(name) != [] && Under(Parent(name), name) { UnderLonger(Parent(name), name); }
  }

  lemma ParentNotBelow(tr: Tree, name: Path)
    requires Shape(tr) && name in tr.sectors && Reaches(tr, Parent(name))
    ensures !Below(tr, name, DirSector(tr, Parent(name)))
  {
    var ps := DirSector(tr, Parent(name));
    forall n | n in tr.dirs && n in tr.sectors && Under(n, name) ensures tr.sectors[n] != ps {
      UnderLonger(n, name);
    }
  }

  // One more child gone.
  lemma RemainsStep(v0: View, tr0: Tree, name: Path, v: View, gone: set<Path>, tr: Tree, c: Path, v': View)
    requires Remains(v0, tr0, name, v) && tr == Without(tr0, gone) && Trimmed(v, tr, c, v')
    requires c != [] && Parent(c) == name && name != [] && name in tr0.dirs && name in tr0.sectors
    ensures Remains(v0, tr0, name, v')
  {
    forall t | t in v' ensures v'[t] == v[t] || t == FREE_MAP_SECTOR || Below(tr0, name, t) {
      if Below(tr, c, t) {
        var n :| n in tr.dirs && n in tr.sectors && Under(n, c) && tr.sectors[n] == t;
        UnderChild(n, c, name);
        assert Below(tr0, name, t);
      } else if v'[t] != v[t] && t != FREE_MAP_SECTOR {
        assert Under(name, name);
        assert Below(tr0, name, t);
      }
    }
  }

  // What Remove means in terms of paths: it succeeds when the file exists and neither it nor a file
  // below it is held open, and then it and the files whose paths go on after it with a slash are gone;
  // otherwise some of those files may be.
  lemma RemovalMeans(tr0: Tree, name: Path, open: set<nat>, ok: bool, gone: set<Path>, tr: Tree, n: Path)
    requires Shape(tr0) && name != [] && Removal(tr0, name, open, ok, gone, tr)
    ensures ok <==> name in tr0.sectors && forall k :: k in tr0.sectors && (k == name || name + [SLASH] <= k) ==> tr0.sectors[k] !in open
    ensures n in tr.sectors ==> n in tr0.sectors && tr.sectors[n] == tr0.sectors[n] && (n in tr.dirs <==> n in tr0.dirs)
    ensures n in tr0.sectors && n !in tr.sectors ==> (n == name && ok) || name + [SLASH] <= n
    ensures ok && n in tr.sectors ==> n != name && !(name + [SLASH] <= n)
  {
    forall k | k in tr0.sectors ensures Under(k, name) <==> k == name || name + [SLASH] <= k { UnderPrefix(k, name); }
    hide Under;
  }
}
