/** code/filesys/filesys.cc: files by path name.  Every operation keeps the volume intact (the
    bitmap marks exactly the sectors of the live files, none shared) and the directories in
    step with the tree of names. */
module FileSystems {
  import opened Outcomes
  import opened Sectors
  import opened BitMaps
  import opened MapBytes
  import opened SynchDisks
  import opened BlockMaps
  import opened FileContents
  import opened Growths
  import opened FileHeaders
  import opened FreeMaps
  import opened Writing
  import opened OpenFiles
  import opened Volumes
  import opened Directories
  import opened Strays
  import opened Trees

  class FileSystem {
    const disk: SynchDisk
    const fm: FreeMapFile
    ghost var v: View
    ghost var tr: Tree

    ghost predicate Intact()
      reads this, fm, disk, disk.table, disk.raw
    {
      disk.Valid() && fm.Valid() && Mounted(disk.flat, fm.marked, v)
    }

    ghost predicate Valid()
      reads this, fm, disk, disk.table, disk.raw
    {
      Intact() && Hierarchy(v, tr) && MapStored(v, fm.marked)
    }

    // A new file system: both ASSERTs hold, on every disk.
    constructor Format(d: SynchDisk)
      requires d.Valid()
      modifies d, d.table, d.raw
      ensures Valid() && disk == d && fresh(fm) && tr == Tree(map[], {}) && forall k: nat :: k in fm.marked <==> k < 7
    {
      var freeMapFile := new FreeMapFile();
      disk, fm, v, tr := d, freeMapFile, map[], Tree(map[], {});
      new;
      var freeMap;
      ghost var files;
      freeMap, files := LayOut(disk);
      v := files;
      ghost var raw := StoreMap(freeMap);
      WriteEmptyRoot();
    }

    method WriteEmptyRoot()
      requires Intact() && v.Keys == {FREE_MAP_SECTOR, DIRECTORY_SECTOR} && tr == Tree(map[], {})
      requires v[DIRECTORY_SECTOR].h.numBytes == DIRECTORY_FILE_SIZE && MapStored(v, fm.marked)
      modifies this`v, fm, disk, disk.table, disk.raw
      ensures Valid() && fm.marked == old(fm.marked)
    {
      hide Mounted;
      ghost var v0 := v;
      MountedFile(disk.flat, fm.marked, v, DIRECTORY_SECTOR);
      var directoryFile := new OpenFile(DIRECTORY_SECTOR, disk);
      var directory := new Directory();
      ghost var raw := StoreDirectory(directoryFile, directory);
      EmptyHierarchy(v, tr);
      MapStill(v0, v, fm.marked);
    }

    // The bitmap and the two headers of a new volume.
    static method LayOut(disk: SynchDisk) returns (freeMap: BitMap, ghost files: View)
      requires disk.Valid()
      modifies disk, disk.table, disk.raw
      ensures disk.Valid() && freeMap.Valid() && freeMap.numBits == NUM_SECTORS
      ensures files.Keys == {FREE_MAP_SECTOR, DIRECTORY_SECTOR} && files[DIRECTORY_SECTOR].h.numBytes == DIRECTORY_FILE_SIZE
      ensures files[FREE_MAP_SECTOR].h.numBytes == FREE_MAP_FILE_SIZE
      ensures Mounted(disk.flat, freeMap.marked, files) && forall k: nat :: k in freeMap.marked <==> k < 7
    {
      freeMap := ReservedMap();
      var mapHdr := new FileHeader();
      var dirHdr := new FileHeader();
      ghost var m0, flat0 := freeMap.marked, disk.flat;
      ghost var flat1, m1 := AllocateBoth(freeMap, mapHdr, dirHdr, disk, m0);
      ghost var flat2 := disk.flat;
      mapHdr.WriteBack(FREE_MAP_SECTOR, disk);
      dirHdr.WriteBack(DIRECTORY_SECTOR, disk);
      files := TwoFiles(mapHdr.Value(), flat0, flat1, m0, m1, dirHdr.Value(), flat2, freeMap.marked, disk.flat);
    }

    static method ReservedMap() returns (freeMap: BitMap)
      ensures fresh(freeMap) && fresh(freeMap.bits) && freeMap.Valid() && freeMap.numBits == NUM_SECTORS
      ensures freeMap.marked == {FREE_MAP_SECTOR, DIRECTORY_SECTOR}
    {
      freeMap := new BitMap(NUM_SECTORS);
      freeMap.Mark(FREE_MAP_SECTOR);
      freeMap.Mark(DIRECTORY_SECTOR);
    }

    static method AllocateBoth(freeMap: BitMap, mapHdr: FileHeader, dirHdr: FileHeader, disk: SynchDisk, ghost m0: set<nat>)
      returns (ghost flat1: Flat, ghost m1: set<nat>)
      requires disk.Valid() && freeMap.Valid() && freeMap.numBits == NUM_SECTORS && mapHdr.Valid() && dirHdr.Valid()
      requires mapHdr != dirHdr && mapHdr.dataSectors != dirHdr.dataSectors
      requires freeMap.marked == m0 == {FREE_MAP_SECTOR, DIRECTORY_SECTOR}
      modifies freeMap, freeMap.bits, mapHdr, mapHdr.dataSectors, dirHdr, dirHdr.dataSectors, disk, disk.table, disk.raw
      ensures disk.Valid() && freeMap.Valid() && mapHdr.Valid() && dirHdr.Valid()
      ensures NewHeader(m0, old(disk.flat), mapHdr.Value(), flat1, m1) && mapHdr.numBytes == FREE_MAP_FILE_SIZE
      ensures NewHeader(m1, flat1, dirHdr.Value(), disk.flat, freeMap.marked) && dirHdr.numBytes == DIRECTORY_FILE_SIZE
      ensures forall k: nat :: k in freeMap.marked <==> k < 7
    {
      ghost var flat0 := disk.flat;
      var ok := mapHdr.Allocate(freeMap, FREE_MAP_FILE_SIZE, disk);
      flat1, m1 := disk.flat, freeMap.marked;
      FirstFits(ok, m0, mapHdr.Value(), flat0, flat1, m1);
      assert ok == Returned(true);
      ok := dirHdr.Allocate(freeMap, DIRECTORY_FILE_SIZE, disk);
      SecondFits(ok, m1, dirHdr.Value(), flat1, disk.flat, freeMap.marked);
      assert ok == Returned(true);
    }

    // All bytes of a file, which is then open; no file changes.
    method ReadAll(sector: nat, length: nat) returns (f: OpenFile, bytes: seq<byte>)
      requires Intact() && sector in v && v[sector].h.numBytes == length > 0
      modifies disk, disk.table, disk.raw
      ensures Intact() && |v[sector].raw| >= length && bytes == v[sector].raw[..length] && Still(old(disk.flat), disk.flat, fm.marked)
      ensures fresh(f) && fresh(f.hdr) && fresh(f.hdr.dataSectors)
      ensures f.hdr.Valid() && f.headerSector == sector && f.hdr.Value() == v[sector].h
    {
      hide Mounted;
      hide Backed;
      ghost var flat, raw := disk.flat, v[sector].raw;
      MountedFile(flat, fm.marked, v, sector);
      f := new OpenFile(sector, disk);
      var buf := new byte[length];
      var n := f.ReadAt(buf, 0, length, 0, disk, raw);
      MountedStamp(flat, fm.marked, v, sector, disk.flat);
      LiveMarked(flat, fm.marked, v, sector);
      bytes := buf[..];
    }

    // All bytes of an open file are overwritten; nothing else changes.
    method WriteAll(f: OpenFile, bytes: seq<byte>) returns (ghost raw: seq<byte>)
      requires Intact() && f.headerSector in v && v[f.headerSector].h.numBytes == |bytes| > 0
      requires f.hdr.Valid() && f.hdr.Value() == v[f.headerSector].h
      modifies this`v, fm, f.hdr, f.hdr.dataSectors, disk, disk.table, disk.raw
      ensures Intact() && fm.marked == old(fm.marked)
      ensures v == old(v)[f.headerSector := old(v)[f.headerSector].(raw := raw)]
      ensures |raw| >= |bytes| && raw[..|bytes|] == bytes
      ensures forall k: nat :: k < NUM_SECTORS && k !in old(v)[f.headerSector].feet ==> disk.flat[k] == old(disk.flat)[k]
    {
      hide Mounted;
      hide Backed;
      hide Confined;
      hide OthersKept;
      hide GrownInto;
      ghost var flat, s, m := disk.flat, f.headerSector, fm.marked;
      MountedFile(flat, m, v, s);
      var n;
      n, raw := f.WriteAt(bytes, 0, disk, fm, v[s].raw);
      MountedConfined(flat, m, v, s, disk.flat, raw);
      PresentFile(flat, m, v, s);
      PresentConfined(flat, s, v[s], disk.flat, raw);
      v := v[s := v[s].(raw := raw)];
    }

    // BitMap::FetchFrom: the bytes of the bitmap file are those of the bitmap.
    method FetchMap() returns (bm: BitMap)
      requires Intact() && MapStored(v, fm.marked)
      modifies disk, disk.table, disk.raw
      ensures Intact() && fresh(bm) && fresh(bm.bits) && bm.Valid() && bm.numBits == NUM_SECTORS && bm.marked == fm.marked
      ensures Still(old(disk.flat), disk.flat, fm.marked)
    {
      hide Mounted;
      hide Encodes;
      var freeMapFile, bytes := ReadAll(FREE_MAP_SECTOR, FREE_MAP_FILE_SIZE);
      MapReads(v, fm.marked);
      bm := new BitMap(NUM_SECTORS);
      bm.FetchFrom(MapOfBytes(bytes, MAP_WORDS), fm.marked);
    }

    // BitMap::WriteBack, for a bitmap that marks exactly the sectors of the files.
    method StoreMap(bm: BitMap) returns (ghost raw: seq<byte>)
      requires disk.Valid() && fm.Valid() && bm.Valid() && bm.numBits == NUM_SECTORS
      requires FREE_MAP_SECTOR in v && v[FREE_MAP_SECTOR].h.numBytes == FREE_MAP_FILE_SIZE && Mounted(disk.flat, bm.marked, v)
      modifies this`v, fm, disk, disk.table, disk.raw
      ensures Intact() && fm.marked == bm.marked && MapStored(v, fm.marked)
      ensures v == old(v)[FREE_MAP_SECTOR := old(v)[FREE_MAP_SECTOR].(raw := raw)]
    {
      hide Mounted;
      hide Encodes;
      hide MapStored;
      hide BytesOfMap;
      hide Backed;
      var words := bm.WriteBack();
      assert |words| == MAP_WORDS;
      fm.Store(bm);
      MountedFile(disk.flat, fm.marked, v, FREE_MAP_SECTOR);
      var freeMapFile := new OpenFile(FREE_MAP_SECTOR, disk);
      raw := WriteAll(freeMapFile, BytesOfMap(words));
      MapWritten(v, words, fm.marked);
    }

    // The same for a bitmap that marks something else.
    method StoreMarks(bm: BitMap) returns (ghost raw: seq<byte>)
      requires Intact() && bm.Valid() && bm.numBits == NUM_SECTORS
      requires FREE_MAP_SECTOR in v && v[FREE_MAP_SECTOR].h.numBytes == FREE_MAP_FILE_SIZE
      modifies this`v, fm, disk, disk.table, disk.raw
      ensures disk.Valid() && fm.Valid() && fm.marked == bm.marked && MapStored(v, bm.marked) && Mounted(disk.flat, old(fm.marked), v)
      ensures v == old(v)[FREE_MAP_SECTOR := old(v)[FREE_MAP_SECTOR].(raw := raw)] && Still(old(disk.flat), disk.flat, old(fm.marked))
    {
      hide Mounted;
      hide Encodes;
      hide MapStored;
      hide BytesOfMap;
      hide Backed;
      var words := bm.WriteBack();
      assert |words| == MAP_WORDS;
      MountedFile(disk.flat, fm.marked, v, FREE_MAP_SECTOR);
      PresentFile(disk.flat, fm.marked, v, FREE_MAP_SECTOR);
      FeetMarked(v, fm.marked, FREE_MAP_SECTOR);
      var freeMapFile := new OpenFile(FREE_MAP_SECTOR, disk);
      raw := WriteAll(freeMapFile, BytesOfMap(words));
      MapWritten(v, words, bm.marked);
      fm.Store(bm);
    }

    // Directory::FetchFrom on a newly opened file, which may be no directory.
    method FetchDirectory(sector: nat) returns (f: OpenFile, d: Directory)
      requires Intact() && sector in v
      modifies disk, disk.table, disk.raw
      ensures Intact() && Still(old(disk.flat), disk.flat, fm.marked)
      ensures fresh(f) && fresh(f.hdr) && fresh(f.hdr.dataSectors) && fresh(d) && fresh(d.table) && d.Valid()
      ensures f.hdr.Valid() && f.headerSector == sector && f.hdr.Value() == v[sector].h && ReadsAs(v[sector], d.table[..])
      ensures v[sector].h.numBytes == DIRECTORY_FILE_SIZE ==>
                |v[sector].raw| >= DIRECTORY_FILE_SIZE && d.table[..] == TableOf(v[sector])
    {
      hide Mounted;
      hide Backed;
      hide DecodeTable;
      ghost var flat, file := disk.flat, v[sector];
      MountedFile(flat, fm.marked, v, sector);
      LiveMarked(flat, fm.marked, v, sector);
      f := new OpenFile(sector, disk);
      d := new Directory();
      EmptyUnused(d.table[..]);
      var bytes := EncodeEntries(d.table[..]);
      var buf := NewBuffer(bytes);
      var n := f.ReadAt(buf, 0, DIRECTORY_FILE_SIZE, 0, disk, file.raw);
      if n > 0 { MountedStamp(flat, fm.marked, v, sector, disk.flat); }
      Overlaid(file, bytes, n);
      d.Load(buf[..]);
    }

    static method NewBuffer(bytes: seq<byte>) returns (buf: array<byte>)
      ensures fresh(buf) && buf[..] == bytes
    {
      buf := new byte[|bytes|](i requires 0 <= i < |bytes| => bytes[i]);
    }

    // Directory::WriteBack: only the bytes of that directory change.
    method StoreDirectory(f: OpenFile, d: Directory) returns (ghost raw: seq<byte>)
      requires Intact() && f.headerSector in v && v[f.headerSector].h.numBytes == DIRECTORY_FILE_SIZE
      requires f.hdr.Valid() && f.hdr.Value() == v[f.headerSector].h && d.Valid()
      modifies this`v, fm, f.hdr, f.hdr.dataSectors, disk, disk.table, disk.raw
      ensures Intact() && fm.marked == old(fm.marked)
      ensures v == old(v)[f.headerSector := old(v)[f.headerSector].(raw := raw)]
      ensures |raw| >= DIRECTORY_FILE_SIZE && DecodeTable(raw[..DIRECTORY_FILE_SIZE]) == d.table[..]
      ensures forall k: nat :: k < NUM_SECTORS && k !in old(v)[f.headerSector].feet ==> disk.flat[k] == old(disk.flat)[k]
    {
      hide Mounted;
      hide DecodeTable;
      TableRoundTrip(d.table[..]);
      raw := WriteAll(f, EncodeEntries(d.table[..]));
    }

    // The sector of the file a path belongs to, or -1 when there is none.  As in the source, the
    // directory above that one has to exist; whether the file is a directory is not looked at.
    method GetParentSector(name: Path) returns (sector: int)
      requires Valid() && name != [] && 0 !in name && |name| <= PATH_MAX && Reachable(tr, name)
      modifies disk, disk.table, disk.raw
      ensures Valid() && Still(old(disk.flat), disk.flat, fm.marked)
      ensures sector == if Reaches(tr, Parent(name)) then DirSector(tr, Parent(name)) else -1
      ensures sector != -1 ==> sector in v
      decreases |name|
    {
      hide Mounted;
      HierarchyNow(v, tr);
      var pos := LastSlash(name);
      if pos == 0 { return DIRECTORY_SECTOR; }
      var parent := name[..pos];
      ParentReachable(tr, name);
      DirectoryAt(v, tr, Parent(parent));
      var grandpaSector := GetParentSector(parent);
      var grandpaFile, grandpa := FetchDirectory(grandpaSector);
      ghost var slot;
      sector, slot := grandpa.Find(parent);
      DirectoryLists(v[grandpaSector], Parent(parent), tr, parent);
    }

    // The file a path belongs to taken for a directory, and what it lists under that path.
    method FindIn(name: Path, parentSector: nat) returns (f: OpenFile, d: Directory, sector: int)
      requires Valid() && GoodName(name) && Reaches(tr, Parent(name)) && parentSector == DirSector(tr, Parent(name)) && parentSector in v
      modifies disk, disk.table, disk.raw
      ensures Valid() && Still(old(disk.flat), disk.flat, fm.marked)
      ensures fresh(f) && fresh(f.hdr) && fresh(f.hdr.dataSectors) && fresh(d) && fresh(d.table) && d.Valid()
      ensures f.hdr.Valid() && f.headerSector == parentSector && f.hdr.Value() == v[parentSector].h
      ensures ReadsAs(v[parentSector], d.table[..]) && sector == Lookup(d.table[..], name)
      ensures Unlisted(d.table[..], name) ==> sector == -1
      ensures IsDirPath(tr, Parent(name)) ==>
                && v[parentSector].h.numBytes == DIRECTORY_FILE_SIZE <= |v[parentSector].raw| && d.table[..] == TableOf(v[parentSector])
                && sector == (if name in tr.sectors then tr.sectors[name] else -1)
                && (name in tr.sectors <==> !Unlisted(d.table[..], name))
                && forall i: nat :: Listed(d.table[..], name, i) ==> d.table[i].isDir == (name in tr.dirs)
    {
      hide Mounted;
      hide Hierarchy;
      hide ReadsAs;
      hide Lookup;
      f, d := FetchDirectory(parentSector);
      ghost var slot;
      sector, slot := d.Find(name);
      if IsDirPath(tr, Parent(name)) {
        DirectoryAt(v, tr, Parent(name));
        DirectoryLists(v[parentSector], Parent(name), tr, name);
      }
    }

    // The header of a new file, in the sector found for it; bm is not in the bitmap file yet.
    method PlaceHeader(bm: BitMap, sector: nat, fileSize: int32) returns (r: Outcome<bool>, ghost file: File)
      requires Intact() && FREE_MAP_SECTOR in fm.marked && fileSize >= 0
      requires bm.Valid() && bm.numBits == NUM_SECTORS && sector < NUM_SECTORS && sector !in fm.marked
      requires bm.marked == fm.marked + {sector}
      modifies bm, bm.bits, disk, disk.table, disk.raw
      ensures bm.Valid() && disk.Valid() && r == AllocateOutcome(old(bm.marked), fileSize)
      ensures !r.Halted? ==> Intact()
      ensures r == Returned(false) ==> disk.flat == old(disk.flat)
      ensures r == Returned(true) ==>
                && Present(disk.flat, sector, file) && file.h.numBytes == fileSize
                && file.feet !! fm.marked && bm.marked == fm.marked + file.feet && file.feet == {sector} + FirstRoom(old(bm.marked), fileSize)
    {
      hide Mounted;
      hide FirstRoom;
      hide AllocateResult;
      hide AllocateOutcome;
      hide NewHeader;
      hide Present;
      ghost var m0, flat0 := bm.marked, disk.flat;
      var hdr := new FileHeader();
      r := hdr.Allocate(bm, fileSize, disk);
      file := File(hdr.Value(), [], {});
      ghost var h, flat, m := hdr.Value(), disk.flat, bm.marked;
      AllocateExact(m0, flat0, fileSize, r, h, flat, m);
      if r.Returned? && r.value {
        hdr.WriteBack(sector, disk);
        file := Placed(fm.marked, v, sector, flat0, fileSize, m0, h, flat, m, disk.flat);
      }
    }

    // The changed directory and bitmap go to the disk, and the new file is on the volume.
    method Enter(f: OpenFile, parent: Directory, bm: BitMap, sector: nat, ghost file: File)
      returns (ghost raw: seq<byte>, ghost mapRaw: seq<byte>)
      requires Intact() && f.headerSector in v && v[f.headerSector].h.numBytes == DIRECTORY_FILE_SIZE
      requires f.headerSector != FREE_MAP_SECTOR && FREE_MAP_SECTOR in v && v[FREE_MAP_SECTOR].h.numBytes == FREE_MAP_FILE_SIZE
      requires f.hdr.Valid() && f.hdr.Value() == v[f.headerSector].h && parent.Valid()
      requires bm.Valid() && bm.numBits == NUM_SECTORS && Present(disk.flat, sector, file)
      requires file.feet !! fm.marked && bm.marked == fm.marked + file.feet
      modifies this`v, fm, f.hdr, f.hdr.dataSectors, disk, disk.table, disk.raw
      ensures Intact() && sector !in old(v) && MapStored(v, fm.marked) && fm.marked == bm.marked
      ensures v == old(v)[f.headerSector := old(v)[f.headerSector].(raw := raw)][sector := file]
                         [FREE_MAP_SECTOR := old(v)[FREE_MAP_SECTOR].(raw := mapRaw)]
      ensures |raw| >= DIRECTORY_FILE_SIZE && DecodeTable(raw[..DIRECTORY_FILE_SIZE]) == parent.table[..]
    {
      hide Mounted;
      hide Present;
      PresentFile(disk.flat, fm.marked, v, f.headerSector);
      FeetMarked(v, fm.marked, f.headerSector);
      ghost var flat := disk.flat;
      raw := StoreDirectory(f, parent);
      PresentFrame(flat, sector, file, disk.flat);
      MountedAdd(disk.flat, fm.marked, v, sector, file, bm.marked);
      v := v[sector := file];
      mapRaw := StoreMap(bm);
    }

    // A new directory starts out with an empty table.
    method InitDirectory(sector: nat) returns (ghost raw: seq<byte>)
      requires Intact() && sector in v && v[sector].h.numBytes == DIRECTORY_FILE_SIZE
      modifies this`v, fm, disk, disk.table, disk.raw
      ensures Intact() && v == old(v)[sector := old(v)[sector].(raw := raw)] && fm.marked == old(fm.marked)
      ensures |raw| >= DIRECTORY_FILE_SIZE
      ensures forall i :: 0 <= i < NUM_DIR_ENTRIES ==> !DecodeTable(raw[..DIRECTORY_FILE_SIZE])[i].inUse
    {
      hide Mounted;
      MountedFile(disk.flat, fm.marked, v, sector);
      var myFile := new OpenFile(sector, disk);
      var me := new Directory();
      raw := StoreDirectory(myFile, me);
    }

    // Create, once the name was not found: a header sector, an entry of the directory and the data
    // sectors have to be found.  Nothing is stored yet but the header and its index blocks.
    method Place(name: Path, isDir: bool, fileSize: int32, parent: Directory, ghost t: Table)
      returns (r: Outcome<bool>, sector: int, ghost slot: nat, bm: BitMap, ghost file: File)
      requires Valid() && GoodName(name) && fileSize >= 0 && parent.Valid() && parent.table[..] == t
      modifies parent.table, disk, disk.table, disk.raw
      ensures r == Placement(t, name, fm.marked, fileSize) && disk.Valid()
      ensures sector == (if FirstClear(fm.marked, 0) < NUM_SECTORS then FirstClear(fm.marked, 0) else -1)
      ensures !r.Halted? ==> Valid()
      ensures r == Returned(false) ==> Still(old(disk.flat), disk.flat, fm.marked)
      ensures r == Returned(true) ==>
                && sector >= 0 && bm.Valid() && bm.numBits == NUM_SECTORS && fresh(bm) && fresh(bm.bits)
                && Present(disk.flat, sector, file) && file.h.numBytes == fileSize
                && file.feet !! fm.marked && bm.marked == fm.marked + file.feet && sector !in v && file.feet == NewFeet(fm.marked, fileSize)
                && slot < NUM_DIR_ENTRIES && !t[slot].inUse && parent.table[..] == t[slot := Entry(true, isDir, sector, name)]
    {
      hide Mounted;
      hide Hierarchy;
      hide Present;
      hide FirstClear;
      hide FirstRoom;
      hide AllocateOutcome;
      HierarchyMarked(disk.flat, fm.marked, v, tr);
      bm := FetchMap();
      sector := bm.Find();
      slot, file := 0, File(Hdr(0, 0, []), [], {});
      FirstClearFound(fm.marked, sector);
      if sector == -1 { r := Returned(false); return; }
      var ok;
      ok, slot := parent.Add(name, sector, isDir);
      if !ok { r := Returned(false); return; }
      if sector in v { LiveMarked(disk.flat, fm.marked, v, sector); }
      r, file := PlaceHeader(bm, sector, fileSize);
    }

    // Create in directory p, stored when everything was found.
    method CreateIn(name: Path, isDir: bool, fileSize: int32, f: OpenFile, parent: Directory, ghost t: Table)
      returns (r: Outcome<bool>, sector: int, ghost slot: nat, ghost d: File)
      requires Valid() && GoodName(name) && IsDirPath(tr, Parent(name)) && name !in tr.sectors && fileSize >= 0
      requires (Parent(name) == [] || Parent(name) in tr.sectors) && f.headerSector == DirSector(tr, Parent(name)) && f.headerSector in v
      requires v[f.headerSector].h.numBytes == DIRECTORY_FILE_SIZE <= |v[f.headerSector].raw|
      requires f.hdr.Valid() && f.hdr.Value() == v[f.headerSector].h
      requires parent.Valid() && parent.table[..] == t == TableOf(v[f.headerSector])
      modifies this`v, fm, f.hdr, f.hdr.dataSectors, parent.table, disk, disk.table, disk.raw
      ensures r == Placement(t, name, old(fm.marked), fileSize)
      ensures sector == (if FirstClear(old(fm.marked), 0) < NUM_SECTORS then FirstClear(old(fm.marked), 0) else -1)
      ensures r == Returned(false) ==> Valid() && v == old(v) && fm.marked == old(fm.marked) && Still(old(disk.flat), disk.flat, fm.marked)
      ensures r == Returned(true) ==>
                && Intact() && sector == FirstClear(old(fm.marked), 0) < NUM_SECTORS && sector !in old(v) && sector in v
                && v[sector].h.numBytes == fileSize && FREE_MAP_SECTOR in old(v) && FREE_MAP_SECTOR in v
                && v[sector].feet == NewFeet(old(fm.marked), fileSize) && fm.marked == old(fm.marked) + NewFeet(old(fm.marked), fileSize)
                && v == old(v)[f.headerSector := d][sector := v[sector]][FREE_MAP_SECTOR := v[FREE_MAP_SECTOR]]
                && SameFile(old(v)[f.headerSector], d) && SameFile(old(v)[FREE_MAP_SECTOR], v[FREE_MAP_SECTOR])
                && MapStored(v, fm.marked) && f.headerSector != FREE_MAP_SECTOR
                && Entered(old(v)[f.headerSector], slot, Entry(true, isDir, sector, name), d)
    {
      hide Mounted;
      hide Hierarchy;
      hide Present;
      hide FirstClear;
      hide DecodeTable;
      hide Placement;
      hide NewFeet;
      HierarchyNow(v, tr);
      MapApart(tr, Parent(name));
      d := v[f.headerSector];
      var bm;
      ghost var file;
      r, sector, slot, bm, file := Place(name, isDir, fileSize, parent, t);
      if r.Returned? && r.value {
        ghost var raw, mapRaw := Enter(f, parent, bm, sector, file);
        d := d.(raw := raw);
      }
    }

    // The table of a new directory, written through a sector where no header was placed.
    method WriteNowhere(sector: int) returns (r: Outcome<bool>)
      requires Valid() && sector == (if FirstClear(fm.marked, 0) < NUM_SECTORS then FirstClear(fm.marked, 0) else -1)
      modifies fm, disk, disk.table, disk.raw
      ensures Misplaced(old(disk.flat), v, old(fm.marked), r, disk.flat, fm.marked)
      ensures MissHarmless(old(disk.flat), old(fm.marked)) ==> r == Returned(false) && Valid() && fm.marked == old(fm.marked)
    {
      hide Mounted;
      hide Hierarchy;
      hide FirstClear;
      hide MapStored;
      hide Scribbled;
      if sector == -1 { return Halted; }       // no semaphore has this number
      ghost var flat, m := disk.flat, fm.marked;
      var myFile := new OpenFile(sector, disk);
      var me := new Directory();
      EmptyUnused(me.table[..]);
      ghost var h := myFile.hdr.Value();
      var bytes := EncodeEntries(me.table[..]);
      var n := myFile.WriteStray(bytes, disk, fm);
      r := if n.Halted? then Halted else Returned(false);
      assert Scribbled(h, sector, flat, m, bytes, n, disk.flat, fm.marked);
      if Harmless(h, m) { HarmlessKeeps(h, sector, flat, m, v, bytes, n, disk.flat, fm.marked); }
    }

    // Create.  A negative size asks for a directory; when there is no room for it, the source goes on
    // to write through a header that is not there.
    method Create(name: Path, initialSize: int32) returns (r: Outcome<bool>)
      requires Valid() && GoodName(name) && Reachable(tr, name) && !BelowFile(tr, name)
      modifies this, fm, disk, disk.table, disk.raw
      ensures var m, c := old(fm.marked), CreateOutcome(old(v), old(tr), old(fm.marked), name, initialSize);
              if Misses(old(v), old(tr), m, name, initialSize) then
                && Misplaced(old(disk.flat), old(v), m, r, disk.flat, fm.marked)
                && (MissHarmless(old(disk.flat), m) ==> r == c && Valid() && v == old(v) && tr == old(tr) && fm.marked == m)
              else
                && r == c
                && (r == Returned(false) ==> Valid() && v == old(v) && tr == old(tr) && fm.marked == m)
                && (r == Returned(true) ==>
                      && Valid() && Created(old(v), old(tr), m, name, initialSize < 0, FileSize(initialSize), v, tr)
                      && fm.marked == m + NewFeet(m, FileSize(initialSize)) && name in tr.sectors && tr.sectors[name] in v
                      && v[tr.sectors[name]].h.numBytes == if initialSize < 0 then DIRECTORY_FILE_SIZE else initialSize)
    {
      hide Mounted;
      hide Hierarchy;
      hide FirstClear;
      hide Placement;
      hide Lookup;
      hide ReadsAs;
      hide MapStored;
      hide Misplaced;
      hide MissHarmless;
      hide Created;
      hide NewFeet;
      ghost var flat0 := disk.flat;
      HierarchyNow(v, tr);
      var isDir := initialSize < 0;
      var fileSize := FileSize(initialSize);
      var parentSector := GetParentSector(name);
      if parentSector < 0 { return Returned(false); }
      var parentFile, parent, found := FindIn(name, parentSector);
      if found != -1 { return Returned(false); }
      ghost var flat1 := disk.flat;
      r := CreateNew(name, isDir, fileSize, parentFile, parent);
      CreatedLength(old(v), old(tr), old(fm.marked), name, isDir, fileSize, v, tr);
      MissSame(flat0, flat1, old(v), old(fm.marked), r, disk.flat, fm.marked);
    }

    // Create for a path below a file that is no directory.  t is the table its bytes are taken for.
    // FALSE is harmless.  With TRUE no file is there under the name, the table is over the bytes of the
    // file, and the volume is consistent if and only if the file has got exactly the sectors that were
    // meant for the new one.
    method CreateBelow(name: Path, initialSize: int32) returns (r: Outcome<bool>, ghost t: Table)
      requires Valid() && GoodName(name) && Reachable(tr, name) && BelowFile(tr, name)
      modifies this`v, fm, disk, disk.table, disk.raw
      ensures tr.sectors[Parent(name)] in old(v) && ReadsAs(old(v)[tr.sectors[Parent(name)]], t)
      ensures var m, f, placed := old(fm.marked), old(v)[tr.sectors[Parent(name)]], BelowOutcome(t, name, old(fm.marked), initialSize);
              if initialSize < 0 && Lookup(t, name) == -1 && placed == Returned(false) then
                && Misplaced(old(disk.flat), old(v), m, r, disk.flat, fm.marked)
                && (MissHarmless(old(disk.flat), m) ==> r == placed && Valid() && v == old(v) && fm.marked == m)
              else if placed == Returned(true) then
                (initialSize >= 0 || Lacking(f.h) == 0 ==>
                  && (r.Halted? <==> |m| + Lacking(f.h) > NUM_SECTORS)
                  && (r.Returned? ==>
                        && r == placed && Beneath(old(v), tr, m, t, name, initialSize, disk.flat, v, fm.marked)
                        && (Valid() <==> Twinned(f.h, m, FileSize(initialSize)))
                        && (Consistent(disk.flat, fm.marked) <==> Twinned(f.h, m, FileSize(initialSize)))))
              else
                r == placed && (r == Returned(false) ==> Valid() && v == old(v) && fm.marked == m)
    {
      hide Mounted;
      hide Hierarchy;
      hide FirstClear;
      hide Placement;
      hide Lookup;
      hide ReadsAs;
      hide MapStored;
      hide Misplaced;
      hide MissHarmless;
      hide Beneath;
      hide Twinned;
      hide Consistent;
      ghost var flat0 := disk.flat;
      HierarchyNow(v, tr);
      var parentSector := GetParentSector(name);
      var parentFile, parent, found := FindIn(name, parentSector);
      t := parent.table[..];
      if found != -1 { return Returned(false), t; }
      ghost var flat1 := disk.flat;
      r := StoreBelow(name, initialSize, parentFile, parent);
      MissSame(flat0, flat1, old(v), old(fm.marked), r, disk.flat, fm.marked);
    }

    // Create in a directory.
    method CreateNew(name: Path, isDir: bool, fileSize: int32, f: OpenFile, parent: Directory)
      returns (r: Outcome<bool>)
      requires Valid() && GoodName(name) && IsDirPath(tr, Parent(name)) && name !in tr.sectors && fileSize >= 0
      requires isDir ==> fileSize == DIRECTORY_FILE_SIZE
      requires (Parent(name) == [] || Parent(name) in tr.sectors) && f.headerSector == DirSector(tr, Parent(name)) && f.headerSector in v
      requires v[f.headerSector].h.numBytes == DIRECTORY_FILE_SIZE <= |v[f.headerSector].raw|
      requires f.hdr.Valid() && f.hdr.Value() == v[f.headerSector].h
      requires parent.Valid() && parent.table[..] == TableOf(v[f.headerSector])
      modifies this, fm, f.hdr, f.hdr.dataSectors, parent.table, disk, disk.table, disk.raw
      ensures var m, placed := old(fm.marked), Placement(old(parent.table[..]), name, old(fm.marked), fileSize);
              if isDir && placed == Returned(false) then
                && Misplaced(old(disk.flat), old(v), m, r, disk.flat, fm.marked)
                && (MissHarmless(old(disk.flat), m) ==> r == Returned(false) && Valid() && v == old(v) && tr == old(tr) && fm.marked == m)
              else
                && r == placed
                && (r == Returned(false) ==> Valid() && v == old(v) && tr == old(tr) && fm.marked == m)
                && (r == Returned(true) ==>
                      Valid() && Created(old(v), old(tr), m, name, isDir, fileSize, v, tr) && fm.marked == m + NewFeet(m, fileSize))
    {
      hide Mounted;
      hide Hierarchy;
      hide FirstClear;
      hide Placement;
      hide DecodeTable;
      hide Parent;
      hide Created;
      hide NewFeet;
      hide MapStored;
      hide Still;
      hide Misplaced;
      hide MissHarmless;
      ghost var v0: View, m0, ps: nat, flat0 := v, fm.marked, f.headerSector, disk.flat;
      var sector;
      ghost var slot, d;
      r, sector, slot, d := CreateIn(name, isDir, fileSize, f, parent, parent.table[..]);
      if r.Halted? { return; }
      if !r.value {
        if isDir {
          ghost var flat1 := disk.flat;
          r := WriteNowhere(sector);
          MissStill(flat0, flat1, v0, m0, r, disk.flat, fm.marked);
        }
        return;
      }
      ghost var v1 := v;
      if isDir {
        ghost var raw := InitDirectory(sector);
        MapStill(v1, v, fm.marked);
      }
      CreateDone(v0, tr, m0, name, isDir, fileSize, sector, slot, d, v);
      tr := Added(tr, name, sector, isDir);
    }

    // The table goes over the bytes of the file.
    method StoreBelow(name: Path, initialSize: int32, f: OpenFile, parent: Directory) returns (r: Outcome<bool>)
      requires Valid() && GoodName(name) && BelowFile(tr, name) && f.headerSector == tr.sectors[Parent(name)] && f.headerSector in v
      requires f.hdr.Valid() && f.hdr.Value() == v[f.headerSector].h && parent.Valid()
      modifies this`v, fm, f.hdr, f.hdr.dataSectors, parent.table, disk, disk.table, disk.raw
      ensures var t, m, h, size := old(parent.table[..]), old(fm.marked), old(v)[f.headerSector].h, FileSize(initialSize);
              var placed := Placement(t, name, m, size);
              if initialSize < 0 && placed == Returned(false) then
                && Misplaced(old(disk.flat), old(v), m, r, disk.flat, fm.marked)
                && (MissHarmless(old(disk.flat), m) ==> r == Returned(false) && Valid() && v == old(v) && fm.marked == m)
              else if placed == Returned(true) then
                (initialSize >= 0 || Lacking(h) == 0 ==>
                  && (r.Halted? <==> |m| + Lacking(h) > NUM_SECTORS)
                  && (r.Returned? ==>
                        && r == placed && Beneath(old(v), tr, m, t, name, initialSize, disk.flat, v, fm.marked)
                        && (Valid() <==> Twinned(h, m, size)) && (Consistent(disk.flat, fm.marked) <==> Twinned(h, m, size))))
              else
                r == placed && (r == Returned(false) ==> Valid() && v == old(v) && fm.marked == m)
    {
      hide Mounted;
      hide Hierarchy;
      hide FirstClear;
      hide Placement;
      hide MapStored;
      hide EncodeEntries;
      hide Still;
      hide Misplaced;
      hide MissHarmless;
      hide Present;
      hide NewFeet;
      hide Gains;
      hide Beneath;
      hide Twinned;
      hide Consistent;
      hide Tabled;
      ghost var m0, flat0, v0, t := fm.marked, disk.flat, v, parent.table[..];
      HierarchyNow(v, tr);
      var sector, bm;
      ghost var slot, file;
      r, sector, slot, bm, file := Place(name, initialSize < 0, FileSize(initialSize), parent, t);
      if r.Halted? { return; }
      if !r.value {
        if initialSize < 0 {
          ghost var flat1 := disk.flat;
          r := WriteNowhere(sector);
          MissStill(flat0, flat1, v0, m0, r, disk.flat, fm.marked);
        }
        return;
      }
      MapSize(v, m0);
      ghost var f1, raw;
      r, f1, raw := EnterBelow(f, parent, bm, sector, initialSize < 0, file);
      if r.Returned? && (initialSize >= 0 || Lacking(v0[f.headerSector].h) == 0) {
        BeneathDone(v0, tr, m0, t, name, initialSize, sector, slot, parent.table[..], f1, raw, disk.flat, v, fm.marked);
      }
    }

    // The changed table, the bitmap and the table of a new directory go to the disk.
    method EnterBelow(f: OpenFile, parent: Directory, bm: BitMap, sector: nat, isDir: bool, ghost file: File)
      returns (r: Outcome<bool>, ghost f1: File, ghost raw: seq<byte>)
      requires Intact() && f.headerSector in v && f.headerSector != FREE_MAP_SECTOR && f.hdr.Valid() && f.hdr.Value() == v[f.headerSector].h
      requires FREE_MAP_SECTOR in v && v[FREE_MAP_SECTOR].h.numBytes == FREE_MAP_FILE_SIZE && parent.Valid()
      requires bm.Valid() && bm.numBits == NUM_SECTORS && Present(disk.flat, sector, file) && sector < NUM_SECTORS
      requires file.feet !! fm.marked && bm.marked == fm.marked + file.feet && (isDir ==> file.h.numBytes == DIRECTORY_FILE_SIZE)
      modifies this`v, fm, f.hdr, f.hdr.dataSectors, disk, disk.table, disk.raw
      ensures disk.Valid() && fm.Valid()
      ensures var h, m := old(v)[f.headerSector].h, old(fm.marked);
              !isDir || Lacking(h) == 0 ==>
                && (r.Halted? <==> |m| + Lacking(h) > NUM_SECTORS)
                && (r.Returned? ==>
                      && r == Returned(true) && fm.marked == bm.marked && MapStored(v, fm.marked)
                      && Mounted(disk.flat, Gains(m, Lacking(h)), v) && Tabled(old(v)[f.headerSector], EncodeEntries(parent.table[..]), f1)
                      && v == old(v)[f.headerSector := f1][FREE_MAP_SECTOR := old(v)[FREE_MAP_SECTOR].(raw := raw)])
    {
      hide Mounted;
      hide Present;
      hide MapStored;
      hide Gains;
      hide Tabled;
      hide EncodeEntries;
      hide Still;
      ghost var m, flat, plain := fm.marked, disk.flat, Lacking(v[f.headerSector].h) == 0;
      raw := [];
      var written;
      written, f1 := WriteOver(f, EncodeEntries(parent.table[..]));
      if !written { return Halted, f1, raw; }
      ghost var flat1 := disk.flat;
      raw := StoreMarks(bm);
      if isDir {
        if plain { FileKept(flat, m, sector, file, flat1, disk.flat); }
        written := InitBelow(sector, m, file);
        if !written { return Halted, f1, raw; }
      }
      r := Returned(true);
    }

    // The table over the bytes of a live file.
    method WriteOver(f: OpenFile, bytes: seq<byte>) returns (ok: bool, ghost f1: File)
      requires Intact() && f.headerSector in v && f.hdr.Valid() && f.hdr.Value() == v[f.headerSector].h && |bytes| == DIRECTORY_FILE_SIZE
      modifies this`v, fm, f.hdr, f.hdr.dataSectors, disk, disk.table, disk.raw
      ensures disk.Valid() && fm.Valid()
      ensures var h, m := old(v)[f.headerSector].h, old(fm.marked);
              && (!ok <==> |m| + Lacking(h) > NUM_SECTORS)
              && (ok ==>
                    && Intact() && fm.marked == Gains(m, Lacking(h)) && v == old(v)[f.headerSector := f1] && Tabled(old(v)[f.headerSector], bytes, f1)
                    && f1.h.numBytes == (if h.numBytes == 0 then 0 else Max(DIRECTORY_FILE_SIZE, h.numBytes))
                    && (Lacking(h) == 0 ==> fm.marked == m && Still(old(disk.flat), disk.flat, m)))
    {
      hide Mounted;
      hide Scribbled;
      hide Gains;
      hide Tabled;
      ghost var s, m, flat := f.headerSector, fm.marked, disk.flat;
      MountedFile(flat, m, v, s);
      GainsNone(m);
      var n := f.WriteStray(bytes, disk, fm);
      f1 := TableWritten(flat, m, v, s, bytes, n, disk.flat, fm.marked);
      ok := n.Returned?;
      if ok { v := v[s := f1]; }
    }

    // The table of a new directory that no directory lists.
    method InitBelow(sector: nat, ghost m: set<nat>, ghost file: File) returns (ok: bool)
      requires disk.Valid() && fm.Valid() && sector < NUM_SECTORS
      modifies fm, disk, disk.table, disk.raw
      ensures disk.Valid() && fm.Valid()
      ensures old(Present(disk.flat, sector, file) && file.h.numBytes == DIRECTORY_FILE_SIZE && file.feet !! m && Mounted(disk.flat, m, v)) ==>
                ok && fm.marked == old(fm.marked) && Mounted(disk.flat, m, v)
    {
      hide Mounted;
      hide Scribbled;
      hide EncodeEntries;
      ghost var flat, marked := disk.flat, fm.marked;
      var myFile := new OpenFile(sector, disk);
      var me := new Directory();
      var n := myFile.WriteStray(EncodeEntries(me.table[..]), disk, fm);
      ok := n.Returned?;
      if Present(flat, sector, file) && file.h.numBytes == DIRECTORY_FILE_SIZE && file.feet !! m && Mounted(flat, m, v) {
        NewTable(flat, sector, file, m, v, marked, EncodeEntries(me.table[..]), n, disk.flat, fm.marked);
      }
    }

    // Remove takes away a file with everything below it, unless one of these files is held
    // open; then some of the files below it may be gone.
    method Remove(name: Path, open: set<nat>) returns (ok: bool, ghost gone: set<Path>)
      requires Valid() && GoodName(name) && Reachable(tr, name) && Findable(v, tr, name)
      modifies this, fm, disk, disk.table, disk.raw
      ensures Valid() && Removal(old(tr), name, open, ok, gone, tr) && Trimmed(old(v), old(tr), name, v)
      decreases PATH_MAX - |name|, 2
    {
      hide Mounted;
      hide Hierarchy;
      hide Removal;
      hide Trimmed;
      hide Parent;
      hide ReadsAs;
      hide Lookup;
      gone := {};
      HierarchyNow(v, tr);
      AboveIsDirectory(tr, name);
      RemovalNothing(v, tr, name, open);
      var parentSector := GetParentSector(name);
      if parentSector < 0 { return false, {}; }
      var parentFile, directory, sector := FindIn(name, parentSector);
      if sector == -1 || sector in open { return false, {}; }
      ok, gone := RemoveFound(name, parentFile, directory, sector, open);
    }

    method RemoveFound(name: Path, f: OpenFile, directory: Directory, sector: nat, open: set<nat>)
      returns (ok: bool, ghost gone: set<Path>)
      requires Valid() && GoodName(name) && Reachable(tr, name) && name in tr.sectors && sector == tr.sectors[name] && sector !in open
      requires IsDirPath(tr, Parent(name)) && Reaches(tr, Parent(name)) && f.headerSector == DirSector(tr, Parent(name)) && f.headerSector in v
      requires v[f.headerSector].h.numBytes == DIRECTORY_FILE_SIZE <= |v[f.headerSector].raw|
      requires f.hdr.Valid() && f.hdr.Value() == v[f.headerSector].h
      requires directory.Valid() && directory.table[..] == TableOf(v[f.headerSector]) && !Unlisted(directory.table[..], name)
      requires forall i: nat :: Listed(directory.table[..], name, i) ==> directory.table[i].isDir == (name in tr.dirs)
      modifies this, fm, f.hdr, f.hdr.dataSectors, directory.table, disk, disk.table, disk.raw
      ensures Valid() && Removal(old(tr), name, open, ok, gone, tr) && Trimmed(old(v), old(tr), name, v)
      decreases PATH_MAX - |name|, 1
    {
      hide Mounted;
      hide Hierarchy;
      hide Removal;
      hide Trimmed;
      hide Remains;
      hide Childless;
      hide Under;
      hide DecodeTable;
      hide Parent;
      ghost var v0, tr0, ps := v, tr, f.headerSector;
      gone := {};
      HierarchyNow(v, tr);
      var isDir;
      ghost var slot;
      isDir, slot := directory.IsDir(name);
      if isDir {
        ok, gone := RemoveFiles(name, sector, open);
        if !ok {
          TrimmedDone(v0, tr0, name, v, v, ps);
          return;
        }
      } else {
        NothingBelow(v, tr, name);
      }
      AlmostRemoved(v0, tr0, name, open, gone, v, tr);
      ghost var v1 := v;
      RemoveLeaf(name, f, directory, sector);
      TrimmedDone(v0, tr0, name, v1, v, ps);
      gone := gone + {name};
      ok := true;
    }

    // The files of directory `name`, one after the other, as its table listed them at first.
    method RemoveFiles(name: Path, sector: nat, open: set<nat>) returns (flag: bool, ghost gone: set<Path>)
      requires Valid() && GoodName(name) && Reachable(tr, name)
      requires name in tr.dirs && name in tr.sectors && sector == tr.sectors[name]
      modifies this, fm, disk, disk.table, disk.raw
      ensures Valid() && Remains(old(v), old(tr), name, v)
      ensures !flag ==> Removal(old(tr), name, open, false, gone, tr)
      ensures flag ==>
                && tr == Without(old(tr), gone) && (forall n :: n in gone ==> n in old(tr).sectors && old(tr).sectors[n] !in open)
                && forall n :: n in old(tr).sectors ==> (n in gone <==> Under(n, name) && n != name)
      decreases PATH_MAX - |name|, 0
    {
      hide Mounted;
      hide Hierarchy;
      hide Removal;
      hide Trimmed;
      hide Remains;
      hide Pruning;
      HierarchyNow(v, tr);
      DirectoryAt(v, tr, name);
      var nameFile, nameDir := FetchDirectory(sector);
      ghost var v0, tr0 := v, tr;
      var t := nameDir.table[..];
      DirectoryTable(v[sector], name, tr);
      RemainsAll(v, tr, name);
      PruneStart(tr, name, t, open);
      gone := {};
      for i := 0 to NUM_DIR_ENTRIES
        invariant Valid() && Remains(v0, tr0, name, v) && Pruning(tr0, name, t, i, open, gone, tr)
      {
        if t[i].inUse {
          PruneNext(tr0, name, t, i, open, gone, tr);
          HierarchyNow(v, tr);
          ChildReachable(v, tr, t[i].name);
          ghost var v1, tr1 := v, tr;
          ghost var g;
          flag, g := Remove(t[i].name, open);
          RemainsStep(v0, tr0, name, v1, gone, tr1, t[i].name, v);
          if !flag {
            PruneFail(tr0, name, t, i, open, gone, tr1, g, tr);
            gone := gone + g;
            return;
          }
          PruneStep(tr0, name, t, i, open, gone, tr1, g, tr);
          gone := gone + g;
        } else {
          PruneSkip(tr0, name, t, i, open, gone, tr);
        }
      }
      PruneDone(tr0, name, t, open, gone, tr);
      flag := true;
    }

    // A file that nothing belongs to: its sectors become clear and its entry free.
    method RemoveLeaf(name: Path, f: OpenFile, directory: Directory, sector: nat)
      requires Valid() && GoodName(name) && name in tr.sectors && sector == tr.sectors[name]
      requires Childless(tr, name) && Reaches(tr, Parent(name)) && IsDirPath(tr, Parent(name))
      requires f.headerSector == DirSector(tr, Parent(name)) && f.headerSector in v
      requires v[f.headerSector].h.numBytes == DIRECTORY_FILE_SIZE <= |v[f.headerSector].raw|
      requires f.hdr.Valid() && f.hdr.Value() == v[f.headerSector].h
      requires directory.Valid() && directory.table[..] == TableOf(v[f.headerSector]) && !Unlisted(directory.table[..], name)
      modifies this, fm, f.hdr, f.hdr.dataSectors, directory.table, disk, disk.table, disk.raw
      ensures Valid() && tr == Minus(old(tr), name)
      ensures forall t :: t in v ==>
                && t in old(v) && SameFile(old(v)[t], v[t])
                && (t != f.headerSector && t != FREE_MAP_SECTOR ==> v[t] == old(v)[t])
    {
      hide Mounted;
      hide Hierarchy;
      hide DecodeTable;
      hide MapStored;
      hide Parent;
      hide Childless;
      ghost var v0: View, ps: nat := v, f.headerSector;
      HierarchyNow(v, tr);
      AboveIsDirectory(tr, name);
      MapApart(tr, Parent(name));
      Deallocate(sector);
      ghost var v1 := v;
      ghost var slot;
      var ok;
      ok, slot := directory.Remove(name);
      ghost var raw := StoreDirectory(f, directory);
      MapStill(v1, v, fm.marked);
      LeafGone(v0, tr, name, slot, raw, v);
      tr := Minus(tr, name);
    }

    // The sectors of a file and of its header become clear, in the bitmap file too.
    method Deallocate(sector: nat)
      requires Intact() && sector in v && sector != FREE_MAP_SECTOR && MapStored(v, fm.marked)
      modifies this`v, fm, disk, disk.table, disk.raw
      ensures Intact() && fm.marked == old(fm.marked) - old(v)[sector].feet && MapStored(v, fm.marked)
      ensures FREE_MAP_SECTOR in v && SameFile(old(v)[FREE_MAP_SECTOR], v[FREE_MAP_SECTOR])
      ensures v == (old(v) - {sector})[FREE_MAP_SECTOR := v[FREE_MAP_SECTOR]]
    {
      hide Mounted;
      var freeMap := ClearedMap(sector);
      MountedDrop(disk.flat, fm.marked, v, sector);
      v := v - {sector};
      ghost var raw := StoreMap(freeMap);
    }

    method ClearedMap(sector: nat) returns (freeMap: BitMap)
      requires Intact() && sector in v && MapStored(v, fm.marked)
      modifies disk, disk.table, disk.raw
      ensures Intact() && freeMap.Valid() && freeMap.numBits == NUM_SECTORS
      ensures freeMap.marked == fm.marked - v[sector].feet
    {
      hide Mounted;
      hide Present;
      hide Stores;
      hide Backed;
      hide DecodeHdr;
      freeMap := FetchMap();
      MountedFile(disk.flat, fm.marked, v, sector);
      PresentFile(disk.flat, fm.marked, v, sector);
      FeetOnDisk(disk.flat, sector, v[sector]);
      BackedNow(v[sector].h, disk.flat, sector, fm.marked);
      var fileHdr := new FileHeader();
      fileHdr.FetchFrom(sector, disk);
      fileHdr.Deallocate(freeMap, disk);
      freeMap.Clear(sector);
    }

    // Open: the header of the file of that name, or null when there is none.
    method Open(name: Path) returns (f: OpenFile?)
      requires Valid() && GoodName(name) && Reachable(tr, name) && Findable(v, tr, name)
      modifies disk, disk.table, disk.raw
      ensures Valid()
      ensures f == null <==> name !in tr.sectors
      ensures f != null ==>
                && fresh(f) && fresh(f.hdr) && fresh(f.hdr.dataSectors) && f.headerSector == tr.sectors[name]
                && f.hdr.Valid() && f.headerSector in v && f.hdr.Value() == v[f.headerSector].h && f.seekPosition == 0
    {
      hide Mounted;
      hide Hierarchy;
      hide Parent;
      HierarchyNow(v, tr);
      AboveIsDirectory(tr, name);
      f := null;
      var parentSector := GetParentSector(name);
      if parentSector < 0 { return; }
      var parentFile, directory, sector := FindIn(name, parentSector);
      if sector >= 0 {
        MountedFile(disk.flat, fm.marked, v, sector);
        f := new OpenFile(sector, disk);
      }
    }

    // WriteAt on an open file that is no directory: every other file stays as it was.  The write
    // must not ask for more blocks than a header can take, unless the header is full already.
    method WriteFile(f: OpenFile, from: seq<byte>, position: nat) returns (count: nat)
      requires Valid() && f.headerSector in v && f.hdr.Valid() && f.hdr.Value() == v[f.headerSector].h
      requires f.headerSector != FREE_MAP_SECTOR && IsFile(tr, f.headerSector) && 0 <= f.hdr.numBytes && 0 <= f.hdr.numSectors <= MAX_SECTORS
      requires position + |from| < 0x8000_0000 && Roomy(f.hdr.Value(), fm.marked, position + |from|)
      requires Refused(f.hdr.Value(), position + |from|) ==> f.hdr.numSectors == MAX_SECTORS
      modifies this`v, fm, f.hdr, f.hdr.dataSectors, disk, disk.table, disk.raw
      ensures Valid() && f.headerSector in v && f.hdr.Valid() && f.hdr.Value() == v[f.headerSector].h
      ensures forall t :: t in v <==> t in old(v)
      ensures forall t :: t in v && t != f.headerSector ==> SameFile(old(v)[t], v[t]) && (t != FREE_MAP_SECTOR ==> v[t] == old(v)[t])
      ensures FileChanged(old(v)[f.headerSector], position, from, count, v[f.headerSector])
      ensures position + |from| <= old(f.hdr.numBytes) ==> fm.marked == old(fm.marked)
    {
      hide Mounted;
      hide Hierarchy;
      hide MapStored;
      hide FileChanged;
      hide Refused;
      hide Roomy;
      ghost var v0, s := v, f.headerSector;
      HierarchyNow(v, tr);
      var fileLength := f.hdr.numBytes;
      count := WriteThrough(f, from, position);
      ghost var v1 := v;
      HierarchyContents(v0, tr, s, v[s]);
      MapStill(v0, v1, old(fm.marked));
      if position + |from| > fileLength && f.hdr.numBytes == position + |from| {
        MapSize(v1, old(fm.marked));
        var freeMap := fm.Fetch();
        ghost var mapRaw := StoreMap(freeMap);
        HierarchyMap(v1, tr, v[FREE_MAP_SECTOR]);
      }
    }

    // The same, before the bitmap file is brought up to date, which is needed only after growth.
    method WriteThrough(f: OpenFile, from: seq<byte>, position: nat) returns (count: nat)
      requires Intact() && f.headerSector in v && f.hdr.Valid() && f.hdr.Value() == v[f.headerSector].h
      requires 0 <= f.hdr.numBytes && 0 <= f.hdr.numSectors <= MAX_SECTORS
      requires position + |from| < 0x8000_0000 && Roomy(f.hdr.Value(), fm.marked, position + |from|)
      requires Refused(f.hdr.Value(), position + |from|) ==> f.hdr.numSectors == MAX_SECTORS
      modifies this`v, fm, f.hdr, f.hdr.dataSectors, disk, disk.table, disk.raw
      ensures Intact() && f.headerSector in v && f.hdr.Valid() && f.hdr.Value() == v[f.headerSector].h
      ensures v == old(v)[f.headerSector := v[f.headerSector]]
      ensures FileChanged(old(v)[f.headerSector], position, from, count, v[f.headerSector])
      ensures !(position + |from| > old(f.hdr.numBytes) && f.hdr.numBytes == position + |from|) ==> fm.marked == old(fm.marked)
    {
      hide Mounted;
      hide Backed;
      hide Roomy;
      hide GrownInto;
      hide OthersKept;
      hide Confined;
      ghost var v0, flat, s, m := v, disk.flat, f.headerSector, fm.marked;
      MountedFile(flat, m, v, s);
      ghost var raw;
      count, raw := f.WriteAt(from, position, disk, fm, v[s].raw);
      if count > 0 {
        ghost var file := MountedWritten(flat, m, v, s, position, from, count, f.hdr.Value(), disk.flat, fm.marked, raw);
        v := v[s := file];
      } else {
        assert v == v[s := v[s]];
      }
    }

    // Creating a file and removing it again leaves the tree and the bitmap as they were, and of
    // every file its header and sectors.
    method CreateAndRemove(name: Path, initialSize: int32) returns (r: Outcome<bool>)
      requires Valid() && GoodName(name) && Reachable(tr, name) && !BelowFile(tr, name)
      modifies this, fm, disk, disk.table, disk.raw
      ensures var missed := Misses(old(v), old(tr), old(fm.marked), name, initialSize);
              && (!missed ==> r == CreateOutcome(old(v), old(tr), old(fm.marked), name, initialSize))
              && (!r.Halted? && (missed ==> MissHarmless(old(disk.flat), old(fm.marked))) ==>
                    && Valid() && tr == old(tr) && fm.marked == old(fm.marked) && v.Keys == old(v).Keys
                    && forall t :: t in v ==> SameFile(old(v)[t], v[t]))
    {
      hide Mounted;
      hide Hierarchy;
      hide Created;
      hide CreateOutcome;
      hide Removal;
      hide Trimmed;
      hide Reachable;
      hide Misplaced;
      hide MissHarmless;
      hide Misses;
      ghost var v0, tr0, m0, flat0 := v, tr, fm.marked, disk.flat;
      r := Create(name, initialSize);
      if r.Halted? { return; }
      if r.value {
        MissNever(flat0, v0, m0, r, disk.flat, fm.marked);
        ghost var v1, tr1 := v, tr;
        CreatedReachable(v0, tr0, m0, name, initialSize, v1, tr1);
        var ok;
        ghost var gone;
        ok, gone := Remove(name, {});
        RemovedAgain(flat0, v0, tr0, m0, name, initialSize, v1, tr1, ok, gone, disk.flat, v, tr, fm.marked);
      }
    }
  }

  lemma CreatedReachable(v0: View, tr0: Tree, m0: set<nat>, name: Path, size: int32, v: View, tr: Tree)
    requires Hierarchy(v, tr) && Created(v0, tr0, m0, name, size < 0, FileSize(size), v, tr)
    ensures Reachable(tr, name) && Findable(v, tr, name)
  {
    hide Hierarchy;
    HierarchyNow(v, tr);
    assert name in tr.sectors;
    var p := Parent(name);
    assert IsDirPath(tr, p);
    if p != [] { assert p in tr.sectors; assert IsDirPath(tr, Parent(p)); }
  }

  lemma RemovedAgain(flat0: Flat, v0: View, tr0: Tree, m0: set<nat>, name: Path, size: int32, v1: View, tr1: Tree,
                     ok: bool, gone: set<Path>, flat: Flat, v: View, tr: Tree, m: set<nat>)
    requires Mounted(flat0, m0, v0) && Hierarchy(v0, tr0) && Mounted(flat, m, v) && Hierarchy(v, tr) && name != []
    requires Created(v0, tr0, m0, name, size < 0, FileSize(size), v1, tr1)
    requires Removal(tr1, name, {}, ok, gone, tr) && Trimmed(v1, tr1, name, v)
    ensures ok && tr == tr0 && m == m0 && v.Keys == v0.Keys && forall t :: t in v ==> SameFile(v0[t], v[t])
  {
    hide Hierarchy;
    hide Mounted;
    TreeAgain(v0, tr0, m0, name, size, v1, tr1, ok, gone, tr);
    HierarchyKeys(v0, tr0, v);
    assert v.Keys == v0.Keys;
    PresentFile(flat0, m0, v0, FREE_MAP_SECTOR);
    PresentFile(flat, m, v, FREE_MAP_SECTOR);
    MarksDetermined(v0, m0, v, m);
  }

  // The same tree, so the same live files.
  lemma HierarchyKeys(v: View, tr: Tree, v': View)
    requires Hierarchy(v, tr) && Hierarchy(v', tr)
    ensures v.Keys == v'.Keys && FREE_MAP_SECTOR in v
  {
    assert Look(0);
    hide Shape;
    hide IsDirectory;
  }

  // A disk determines its files, its tree and its bitmap: at most one set of marks is right.
  lemma DiskDetermines(flat: Flat, m: set<nat>, v: View, tr: Tree, m': set<nat>, v': View, tr': Tree)
    requires Mounted(flat, m, v) && Hierarchy(v, tr) && Mounted(flat, m', v') && Hierarchy(v', tr')
    ensures v == v' && tr == tr' && m == m'
  {
    hide Mounted;
    hide Hierarchy;
    hide Present;
    forall s | s in v && s in v' ensures v'[s] == v[s] {
      PresentFile(flat, m, v, s);
      PresentFile(flat, m', v', s);
      PresentSame(flat, s, v[s], v'[s]);
    }
    SameTree(v, tr, v', tr');
    HierarchyKeys(v, tr, v');
    assert v == v';
    MountedMarks(flat, m, v);
    MountedMarks(flat, m', v');
    MarksDetermined(v, m, v', m');
  }

  // Some files and some tree make a consistent volume of the disk and the marks.
  ghost predicate Consistent(flat: Flat, m: set<nat>)
  {
    exists v: View, tr: Tree :: Mounted(flat, m, v) && Hierarchy(v, tr)
  }

  // When all that is wrong can be the marks, they decide.
  lemma ConsistentMarks(flat: Flat, m: set<nat>, v: View, tr: Tree, m': set<nat>)
    requires Mounted(flat, m, v) && Hierarchy(v, tr)
    ensures Consistent(flat, m') <==> m' == m
  {
    hide Mounted;
    hide Hierarchy;
    if Consistent(flat, m') {
      var v': View, tr': Tree :| Mounted(flat, m', v') && Hierarchy(v', tr');
      DiskDetermines(flat, m, v, tr, m', v', tr');
    }
  }

  lemma TreeAgain(v0: View, tr0: Tree, m0: set<nat>, name: Path, size: int32, v1: View, tr1: Tree,
                  ok: bool, gone: set<Path>, tr: Tree)
    requires Hierarchy(v0, tr0) && Created(v0, tr0, m0, name, size < 0, FileSize(size), v1, tr1) && name != []
    requires Removal(tr1, name, {}, ok, gone, tr)
    ensures ok && tr == tr0
  {
    hide Hierarchy;
    HierarchyNow(v0, tr0);
    NewIsAlone(v0, tr0, name);
    hide Shape;
    hide Under;
    hide Parent;
    assert gone == {name};
    assert tr.sectors == tr0.sectors;
    assert tr.dirs == tr0.dirs;
  }

  lemma NewIsAlone(v: View, tr: Tree, name: Path)
    requires Shape(tr) && name !in tr.sectors && name != []
    ensures name !in tr.dirs && Under(name, name) && forall n :: n in tr.sectors ==> !Under(n, name)
  {
    NothingBelow(v, tr, name);
  }

  const MAP_WORDS := NUM_SECTORS / BITS_IN_WORD

  // The bytes of the bitmap file are the marks.
  ghost predicate MapStored(v: View, m: set<nat>)
  {
    && FREE_MAP_SECTOR in v && v[FREE_MAP_SECTOR].h.numBytes == FREE_MAP_FILE_SIZE <= |v[FREE_MAP_SECTOR].raw|
    && forall x {:trigger Peek(x)} :: Peek(x) ==>
         Encodes(MapOfBytes(v[FREE_MAP_SECTOR].raw[..FREE_MAP_FILE_SIZE], MAP_WORDS), NUM_SECTORS, m)
  }

  lemma MapReads(v: View, m: set<nat>)
    requires MapStored(v, m)
    ensures Encodes(MapOfBytes(v[FREE_MAP_SECTOR].raw[..FREE_MAP_FILE_SIZE], MAP_WORDS), NUM_SECTORS, m)
  {
    assert Peek(0);
  }

  lemma MapWritten(v: View, words: seq<Word>, m: set<nat>)
    requires FREE_MAP_SECTOR in v && v[FREE_MAP_SECTOR].h.numBytes == FREE_MAP_FILE_SIZE <= |v[FREE_MAP_SECTOR].raw|
    requires |words| == MAP_WORDS && v[FREE_MAP_SECTOR].raw[..FREE_MAP_FILE_SIZE] == BytesOfMap(words) && Encodes(words, NUM_SECTORS, m)
    ensures MapStored(v, m)
  {
    MapRoundTrip(words);
  }

  // Other files do not matter.
  lemma MapStill(v: View, v': View, m: set<nat>)
    requires MapStored(v, m) && FREE_MAP_SECTOR in v' && v'[FREE_MAP_SECTOR] == v[FREE_MAP_SECTOR]
    ensures MapStored(v', m)
  {
  }

  lemma MapSize(v: View, m: set<nat>)
    requires MapStored(v, m)
    ensures FREE_MAP_SECTOR in v && v[FREE_MAP_SECTOR].h.numBytes == FREE_MAP_FILE_SIZE
  {
  }

  // The bitmap file is no directory.
  lemma MapApart(tr: Tree, p: Path)
    requires Shape(tr) && (p == [] || p in tr.sectors)
    ensures DirSector(tr, p) != FREE_MAP_SECTOR
  {
  }

  lemma HierarchyMap(v: View, tr: Tree, f: File)
    requires Hierarchy(v, tr)
    ensures Hierarchy(v[FREE_MAP_SECTOR := f], tr)
  {
    HierarchyNow(v, tr);
    hide Hierarchy;
    assert forall p :: IsDirPath(tr, p) && (p == [] || p in tr.sectors) ==> DirSector(tr, p) != FREE_MAP_SECTOR;
    HierarchyContents(v, tr, FREE_MAP_SECTOR, f);
  }

  // Header sector s does not belong to a directory.
  ghost predicate IsFile(tr: Tree, s: nat)
  {
    forall p :: IsDirPath(tr, p) && (p == [] || p in tr.sectors) ==> DirSector(tr, p) != s
  }

  // The bytes of file f are those of f0 with the data written at position.
  predicate FileChanged(f0: File, position: nat, data: seq<byte>, count: nat, f: File)
  {
    && 0 <= f0.h.numBytes <= |f0.raw| && 0 <= f.h.numBytes <= |f.raw|
    && Effect(count, f.raw[..f.h.numBytes])
       == WriteEffect(f0.raw[..f0.h.numBytes], position, data, Refused(f0.h, position + |data|))
  }

  // The tree and view after one file is gone.
  lemma LeafGone(v0: View, tr: Tree, name: Path, slot: nat, raw: seq<byte>, v: View)
    requires Hierarchy(v0, tr) && name in tr.sectors && Childless(tr, name) && Reaches(tr, Parent(name))
    requires var ps := DirSector(tr, Parent(name));
             && ps in v0 && FREE_MAP_SECTOR in v && Struck(v0[ps], name, slot, v0[ps].(raw := raw))
             && v == (v0 - {tr.sectors[name]})[FREE_MAP_SECTOR := v[FREE_MAP_SECTOR]][ps := v0[ps].(raw := raw)]
             && ps != FREE_MAP_SECTOR
    ensures Hierarchy(v, Minus(tr, name))
  {
    hide Hierarchy;
    hide DecodeTable;
    hide Parent;
    var ps := DirSector(tr, Parent(name));
    var v2: View := (v0 - {tr.sectors[name]})[ps := v0[ps].(raw := raw)];
    assert v == v2[FREE_MAP_SECTOR := v[FREE_MAP_SECTOR]];
    HierarchyDrop(v0, tr, name, slot, v0[ps].(raw := raw));
    HierarchyMap(v2, Minus(tr, name), v[FREE_MAP_SECTOR]);
  }

  // No file was touched.
  lemma RemainsAll(v: View, tr: Tree, name: Path)
    ensures Remains(v, tr, name, v)
  {
  }

  lemma DirectoryTable(f: File, p: Path, tr: Tree)
    requires IsDirectory(f, p, tr)
    ensures TableOk(TableOf(f), p, tr)
  {
    assert Peek(0);
  }

  lemma PruneStart(tr: Tree, name: Path, t: Table, open: set<nat>)
    ensures Pruning(tr, name, t, 0, open, {}, tr)
  {
    assert Without(tr, {}).sectors == tr.sectors && Without(tr, {}).dirs == tr.dirs;
  }

  lemma PruneSkip(tr0: Tree, name: Path, t: Table, i: nat, open: set<nat>, gone: set<Path>, tr: Tree)
    requires Pruning(tr0, name, t, i, open, gone, tr) && i < |t| && !t[i].inUse
    ensures Pruning(tr0, name, t, i + 1, open, gone, tr)
  {
    hide Under;
    assert forall j :: 0 <= j < i + 1 && t[j].inUse ==> j < i;
  }

  lemma TrimmedDone(v0: View, tr0: Tree, name: Path, v1: View, v: View, ps: nat)
    requires Remains(v0, tr0, name, v1) && Reaches(tr0, Parent(name)) && ps == DirSector(tr0, Parent(name))
    requires forall t :: t in v ==> t in v1 && SameFile(v1[t], v[t]) && (t != ps && t != FREE_MAP_SECTOR ==> v[t] == v1[t])
    ensures Trimmed(v0, tr0, name, v)
  {
    hide Below;
  }

  lemma NothingBelow(v: View, tr: Tree, name: Path)
    requires Shape(tr) && name !in tr.dirs && name != []
    ensures Remains(v, tr, name, v) && Without(tr, {}) == tr
    ensures forall n :: n in tr.sectors ==> !(Under(n, name) && n != name)
  {
    RemainsAll(v, tr, name);
    assert Without(tr, {}).sectors == tr.sectors && Without(tr, {}).dirs == tr.dirs;
    forall n | n in tr.sectors && Under(n, name) && n != name ensures false {
      var c := ChildAbove(tr, n, name);
    }
  }

  // Everything below name is gone, and what Remove knows of its directory still holds.
  lemma AlmostRemoved(v0: View, tr0: Tree, name: Path, open: set<nat>, gone: set<Path>, v: View, tr: Tree)
    requires Shape(tr0) && name in tr0.sectors && tr0.sectors[name] !in open && Hierarchy(v, tr)
    requires tr == Without(tr0, gone) && forall n :: n in gone ==> n in tr0.sectors && tr0.sectors[n] !in open
    requires forall n :: n in tr0.sectors ==> (n in gone <==> Under(n, name) && n != name)
    requires Remains(v0, tr0, name, v)
    ensures name in tr.sectors && tr.sectors[name] == tr0.sectors[name] && Childless(tr, name)
    ensures Reaches(tr, Parent(name)) && IsDirPath(tr, Parent(name))
    ensures var ps := DirSector(tr, Parent(name)); ps in v && ps in v0 && v[ps] == v0[ps]
    ensures Reaches(tr0, Parent(name)) && DirSector(tr, Parent(name)) == DirSector(tr0, Parent(name))
    ensures Removal(tr0, name, open, true, gone + {name}, Minus(tr, name))
  {
    hide Hierarchy;
    RemovalDone(tr0, name, open, gone, tr);
    AboveIsDirectory(tr0, name);
    HierarchyNow(v, tr);
    AboveIsDirectory(tr, name);
    ParentNotBelow(tr0, name);
  }

  lemma ChildReachable(v: View, tr: Tree, c: Path)
    requires Shape(tr) && Parent(c) in tr.sectors && Parent(c) in tr.dirs
    ensures Reachable(tr, c) && Findable(v, tr, c)
  {
    assert IsDirPath(tr, Parent(Parent(c)));
  }

  // A file is in a directory, and not in itself.
  lemma AboveIsDirectory(tr: Tree, name: Path)
    requires Shape(tr)
    ensures name in tr.sectors ==>
              IsDirPath(tr, Parent(name)) && Reaches(tr, Parent(name)) && DirSector(tr, Parent(name)) != tr.sectors[name]
  {
  }

  // Nothing happened, and for a reason.
  lemma RemovalNothing(v: View, tr: Tree, name: Path, open: set<nat>)
    requires name != []
    ensures Trimmed(v, tr, name, v)
    ensures name !in tr.sectors || tr.sectors[name] in open ==> Removal(tr, name, open, false, {}, tr)
  {
    assert Without(tr, {}).sectors == tr.sectors && Without(tr, {}).dirs == tr.dirs;
    assert Under(name, name);
  }

  // All that Create promises of tree and view, from what it did to them.
  lemma CreateDone(v0: View, tr0: Tree, m0: set<nat>, name: Path, isDir: bool, size: int32, s: int32, slot: nat, d: File, v: View)
    requires Hierarchy(v0, tr0) && GoodName(name) && name !in tr0.sectors && IsDirPath(tr0, Parent(name)) && Reaches(tr0, Parent(name))
    requires s >= 0 && s == FirstClear(m0, 0) && s !in v0 && s in v && v[s].h.numBytes == size >= 0 && v[s].feet == NewFeet(m0, size)
    requires var ps := DirSector(tr0, Parent(name));
             && ps in v0 && ps != FREE_MAP_SECTOR && FREE_MAP_SECTOR in v0 && FREE_MAP_SECTOR in v
             && v == v0[ps := d][s := v[s]][FREE_MAP_SECTOR := v[FREE_MAP_SECTOR]]
             && SameFile(v0[ps], d) && SameFile(v0[FREE_MAP_SECTOR], v[FREE_MAP_SECTOR])
             && Entered(v0[ps], slot, Entry(true, isDir, s, name), d)
    requires isDir ==> size == DIRECTORY_FILE_SIZE <= |v[s].raw| && forall i :: 0 <= i < NUM_DIR_ENTRIES ==> !TableOf(v[s])[i].inUse
    ensures Hierarchy(v, Added(tr0, name, s, isDir))
    ensures Created(v0, tr0, m0, name, isDir, size, v, Added(tr0, name, s, isDir))
  {
    hide Hierarchy;
    hide DecodeTable;
    hide FirstClear;
    hide NewFeet;
    hide Parent;
    var ps := DirSector(tr0, Parent(name));
    HierarchyAdd(v0, tr0, name, s, isDir, slot, d, v[s]);
    HierarchyMap(v0[ps := d][s := v[s]], Added(tr0, name, s, isDir), v[FREE_MAP_SECTOR]);
  }

  // A negative size asks for a directory.
  function FileSize(initialSize: int32): (size: int32)
    ensures size >= 0
  {
    if initialSize < 0 then DIRECTORY_FILE_SIZE else initialSize
  }

  // What Create has to return, as a function of the volume.
  ghost function CreateOutcome(v: View, tr: Tree, m: set<nat>, name: Path, size: int32): Outcome<bool>
    requires Hierarchy(v, tr)
  {
    var p := Parent(name);
    if !IsDirPath(tr, p) || name in tr.sectors then Returned(false)
    else
      DirectoryAt(v, tr, p);
      Placement(TableOf(v[DirSector(tr, p)]), name, m, FileSize(size))
  }

  // A new directory for which there is no room: Create goes on all the same.
  ghost predicate Misses(v: View, tr: Tree, m: set<nat>, name: Path, size: int32)
    requires Hierarchy(v, tr)
  {
    size < 0 && IsDirPath(tr, Parent(name)) && name !in tr.sectors && CreateOutcome(v, tr, m, name, size) == Returned(false)
  }

  // The same where the bytes of a file are taken for table t.
  ghost function BelowOutcome(t: Table, name: Path, m: set<nat>, size: int32): Outcome<bool>
  {
    if Lookup(t, name) != -1 then Returned(false) else Placement(t, name, m, FileSize(size))
  }

  // A table is then written through the first clear sector, if there is one.
  ghost predicate Misplaced(flat0: Flat, v: View, m: set<nat>, r: Outcome<bool>, flat: Flat, m': set<nat>)
  {
    var s := FirstClear(m, 0);
    if s >= NUM_SECTORS then r.Halted?
    else exists flat1: Flat, b, n ::
           && Mounted(flat1, m, v) && Still(flat0, flat1, m) && Unused(b)
           && Scribbled(DecodeHdr(flat0[s]), s, flat1, m, b, n, flat, m') && r == if n.Halted? then Halted else Returned(false)
  }

  // Which does no harm.
  ghost predicate MissHarmless(flat: Flat, m: set<nat>)
  {
    var s := FirstClear(m, 0);
    s < NUM_SECTORS && Harmless(DecodeHdr(flat[s]), m)
  }

  // Clear sectors have the bytes they had.
  ghost predicate Still(flat0: Flat, flat: Flat, m: set<nat>)
  {
    forall k: nat :: k < NUM_SECTORS && k !in m ==> flat[k] == flat0[k]
  }

  // Reading directories did not matter to the clear sectors.
  lemma MissStill(flat0: Flat, flat1: Flat, v: View, m: set<nat>, r: Outcome<bool>, flat: Flat, m': set<nat>)
    requires Still(flat0, flat1, m) && Misplaced(flat1, v, m, r, flat, m')
    ensures Misplaced(flat0, v, m, r, flat, m') && (MissHarmless(flat0, m) <==> MissHarmless(flat1, m))
  {
    hide Mounted;
    hide Scribbled;
    hide Harmless;
    hide FirstClear;
    hide DecodeHdr;
    var s := FirstClear(m, 0);
    if s < NUM_SECTORS {
      assert flat1[s] == flat0[s];
      var flat2: Flat, b, n :|
        && Mounted(flat2, m, v) && Still(flat1, flat2, m) && Unused(b)
        && Scribbled(DecodeHdr(flat1[s]), s, flat2, m, b, n, flat, m') && r == if n.Halted? then Halted else Returned(false);
      assert Still(flat0, flat2, m);
      assert Scribbled(DecodeHdr(flat0[s]), s, flat2, m, b, n, flat, m');
    }
  }

  lemma MissSame(flat0: Flat, flat1: Flat, v: View, m: set<nat>, r: Outcome<bool>, flat: Flat, m': set<nat>)
    requires Still(flat0, flat1, m)
    ensures Misplaced(flat1, v, m, r, flat, m') ==> Misplaced(flat0, v, m, r, flat, m')
    ensures Misplaced(flat1, v, m, r, flat, m') ==> (MissHarmless(flat0, m) <==> MissHarmless(flat1, m))
  {
    if Misplaced(flat1, v, m, r, flat, m') { MissStill(flat0, flat1, v, m, r, flat, m'); }
  }

  lemma MissNever(flat0: Flat, v: View, m: set<nat>, r: Outcome<bool>, flat: Flat, m': set<nat>)
    requires r == Returned(true)
    ensures !Misplaced(flat0, v, m, r, flat, m')
  {
  }

  lemma LiveMarked(flat: Flat, m: set<nat>, v: View, s: nat)
    requires Mounted(flat, m, v) && s in v
    ensures s in m
  {
    PresentFile(flat, m, v, s);
    FeetMarked(v, m, s);
  }

  lemma FileKept(flat: Flat, m: set<nat>, s: nat, f: File, flat1: Flat, flat': Flat)
    requires Present(flat, s, f) && f.feet !! m && Still(flat, flat1, m) && Still(flat1, flat', m)
    ensures Present(flat', s, f)
  {
    FeetOnDisk(flat, s, f);
    PresentFrame(flat, s, f, flat');
  }

  // What Create leaves when it returned TRUE for a path below a file that is no directory: the marks
  // are those of the new file, but the files are those of before; one of them has a table over its
  // bytes, and the first clear sectors for it.
  ghost predicate Beneath(v0: View, tr: Tree, m: set<nat>, t: Table, name: Path, size: int32, flat: Flat, v: View, m': set<nat>)
    requires BelowFile(tr, name)
  {
    var s := tr.sectors[Parent(name)];
    && s in v0 && v.Keys == v0.Keys && GoodName(name) && FirstClear(m, 0) < NUM_SECTORS && m' == m + NewFeet(m, FileSize(size))
    && Mounted(flat, Gains(m, Lacking(v0[s].h)), v) && Hierarchy(v, tr) && MapStored(v, m')
    && (forall u :: u in v0 && u != s ==> SameFile(v0[u], v[u]) && (u != FREE_MAP_SECTOR ==> v[u] == v0[u]))
    && exists slot: nat, b ::
         && slot < NUM_DIR_ENTRIES && !t[slot].inUse && |b| == DIRECTORY_FILE_SIZE && Tabled(v0[s], b, v[s])
         && DecodeTable(b) == t[slot := Entry(true, size < 0, FirstClear(m, 0), name)]
  }

  // The sectors for a new file are those that a table over file h makes it grow into.
  ghost predicate Twinned(h: Hdr, m: set<nat>, size: int32)
    requires size >= 0
  {
    m + NewFeet(m, size) == Gains(m, Lacking(h))
  }

  // That is: the file lacks as many blocks as the new one needs sectors, header included, and of three
  // the last two are next to each other, since FindN looks for a run and Find does not.
  lemma TwinnedExact(h: Hdr, m: set<nat>, size: int32)
    requires size >= 0 && (forall k :: k in m ==> k < NUM_SECTORS) && FirstClear(m, 0) < NUM_SECTORS
    requires |m| + Lacking(h) <= NUM_SECTORS && HasRun(m + {FirstClear(m, 0)}, NUM_SECTORS, Total(DivRoundUp(size, SECTOR_SIZE)))
    ensures Twinned(h, m, size) <==>
              && Lacking(h) == 1 + Total(DivRoundUp(size, SECTOR_SIZE))
              && (Lacking(h) == 3 ==> Firsts(m, 3)[2] == Firsts(m, 3)[1] as int + 1)
  {
    var k, total := Lacking(h), Total(DivRoundUp(size, SECTOR_SIZE));
    TwinnedSize(h, m, size);
    hide FirstClear;
    hide Gains;
    hide Firsts;
    hide NewFeet;
    if k == 1 + total {
      if k == 1 {
        TwinOne(m, size);
      } else if k == 2 {
        TwinTwo(m, size);
      } else {
        TwinThree(m, size);
      }
    }
  }

  // The first run is there, and takes as many sectors as it should.
  lemma FirstRoomSize(m: set<nat>, size: int32)
    requires size >= 0 && HasRun(m, NUM_SECTORS, Total(DivRoundUp(size, SECTOR_SIZE)))
    ensures var total := Total(DivRoundUp(size, SECTOR_SIZE));
            FirstRun(m, NUM_SECTORS, FirstFit(m, total), total) && |FirstRoom(m, size)| == total && m !! FirstRoom(m, size)
  {
    var total := Total(DivRoundUp(size, SECTOR_SIZE));
    var i: nat :| i <= NUM_SECTORS && ClearRun(m, NUM_SECTORS, i, total);
    var j := FirstRunFrom(m, total, i);
    FirstFitIs(m, j, total);
  }

  lemma {:induction false} FirstRunFrom(m: set<nat>, cnt: nat, i: nat) returns (j: nat)
    requires ClearRun(m, NUM_SECTORS, i, cnt)
    ensures FirstRun(m, NUM_SECTORS, j, cnt)
    decreases i
  {
    if k: nat :| k < i && ClearRun(m, NUM_SECTORS, k, cnt) {
      j := FirstRunFrom(m, cnt, k);
    } else {
      j := i;
    }
  }

  lemma TwinnedSize(h: Hdr, m: set<nat>, size: int32)
    requires size >= 0 && (forall k :: k in m ==> k < NUM_SECTORS) && FirstClear(m, 0) < NUM_SECTORS
    requires |m| + Lacking(h) <= NUM_SECTORS && HasRun(m + {FirstClear(m, 0)}, NUM_SECTORS, Total(DivRoundUp(size, SECTOR_SIZE)))
    ensures Twinned(h, m, size) ==> Lacking(h) == 1 + Total(DivRoundUp(size, SECTOR_SIZE))
  {
    hide FirstClear;
    hide FirstRoom;
    hide Firsts;
    hide Gains;
    hide Lacking;
    hide Total;
    hide HasRun;
    hide FirstRun;
    var s := FirstClear(m, 0);
    FirstRoomSize(m + {s}, size);
    assert |Gains(m, Lacking(h))| == |m| + Lacking(h) by { FirstsFresh(m, Lacking(h)); }
    var room := FirstRoom(m + {s}, size);
    assert m + NewFeet(m, size) == (m + {s}) + room;
    assert |(m + {s}) + room| == |m + {s}| + |room|;
  }

  lemma TwinOne(m: set<nat>, size: int32)
    requires size >= 0 && FirstClear(m, 0) < NUM_SECTORS && Total(DivRoundUp(size, SECTOR_SIZE)) == 0
    ensures m + NewFeet(m, size) == Gains(m, 1)
  {
    hide FirstClear;
    GainsTo(m, 0);
  }

  lemma GainsTo(m: set<nat>, k: nat)
    ensures var s := FirstClear(Gains(m, k), 0);
            && Gains(m, 0) == m && (s < NUM_SECTORS ==> Gains(m, k + 1) == Gains(m, k) + {s} && Firsts(m, k + 1)[k] == s)
            && forall j :: 0 <= j < k ==> Firsts(m, k + 1)[j] == Firsts(m, k)[j]
  {
    hide FirstClear;
  }

  // With a clear sector beyond the first one.
  lemma SecondClear(m: set<nat>, k: nat)
    requires (forall j :: j in m ==> j < NUM_SECTORS) && |m| + k < NUM_SECTORS
    ensures FirstClear(Gains(m, k), 0) < NUM_SECTORS
  {
    hide FirstClear;
    FirstsFresh(m, k);
    FirstsFound(m, k);
    BelowSize(Gains(m, k), NUM_SECTORS);
  }

  // The marks with the new file, when its run starts at a.
  lemma RoomAt(m: set<nat>, s: nat, m1: set<nat>, a: nat, size: int32, total: nat)
    requires size >= 0 && s == FirstClear(m, 0) && m1 == m + {s} && total == Total(DivRoundUp(size, SECTOR_SIZE)) && total > 0
    requires ClearRun(m1, NUM_SECTORS, a, total) && forall k: nat :: k < a ==> k in m1
    ensures m + NewFeet(m, size) == m1 + Run(a, total)
  {
    hide FirstClear;
    FitsAt(m1, a, total);
    hide FirstFit;
    hide Run;
  }

  // The second and the third clear sector.
  lemma ClearAfter(m: set<nat>, k: nat) returns (g: set<nat>, a: nat)
    requires (forall j :: j in m ==> j < NUM_SECTORS) && |m| + k < NUM_SECTORS
    ensures g == Gains(m, k) && a == FirstClear(g, 0) < NUM_SECTORS && a !in g && Gains(m, k + 1) == g + {a} && Firsts(m, k + 1)[k] == a
    ensures (forall j: nat :: j < a ==> j in g) && forall j :: 0 <= j < k ==> Firsts(m, k + 1)[j] == Firsts(m, k)[j]
  {
    hide FirstClear;
    GainsTo(m, k);
    SecondClear(m, k);
    g, a := Gains(m, k), FirstClear(Gains(m, k), 0);
  }

  lemma TwinTwo(m: set<nat>, size: int32)
    requires size >= 0 && (forall k :: k in m ==> k < NUM_SECTORS) && |m| + 2 <= NUM_SECTORS
    requires Total(DivRoundUp(size, SECTOR_SIZE)) == 1
    ensures m + NewFeet(m, size) == Gains(m, 2)
  {
    GainsTo(m, 0);
    var m0, s := ClearAfter(m, 0);
    var m1, a := ClearAfter(m, 1);
    hide *;
    TwinPair(m, s, m1, a, size);
  }

  lemma TwinPair(m: set<nat>, s: nat, m1: set<nat>, a: nat, size: int32)
    requires size >= 0 && s == FirstClear(m, 0) && m1 == m + {s} && Total(DivRoundUp(size, SECTOR_SIZE)) == 1
    requires a < NUM_SECTORS && a !in m1 && forall k: nat :: k < a ==> k in m1
    ensures m + NewFeet(m, size) == m1 + {a}
  {
    hide NewFeet;
    hide FirstClear;
    RoomAt(m, s, m1, a, size, 1);
    PairRun(a);
  }

  lemma TwinThree(m: set<nat>, size: int32)
    requires size >= 0 && (forall k :: k in m ==> k < NUM_SECTORS) && |m| + 3 <= NUM_SECTORS
    requires Total(DivRoundUp(size, SECTOR_SIZE)) == 2 && HasRun(m + {FirstClear(m, 0)}, NUM_SECTORS, 2)
    ensures m + NewFeet(m, size) == Gains(m, 3) <==> Firsts(m, 3)[2] == Firsts(m, 3)[1] as int + 1
  {
    var s, m1, a, b := ThreeClear(m);
    hide *;
    TwinTriple(m, s, m1, a, b, size);
  }

  lemma ThreeClear(m: set<nat>) returns (s: nat, m1: set<nat>, a: nat, b: nat)
    requires (forall k :: k in m ==> k < NUM_SECTORS) && |m| + 3 <= NUM_SECTORS
    ensures s == FirstClear(m, 0) && m1 == m + {s}
    ensures a < NUM_SECTORS && a !in m1 && forall k: nat :: k < a ==> k in m1
    ensures b < NUM_SECTORS && b !in m1 + {a} && forall k: nat :: k < b ==> k in m1 + {a}
    ensures Gains(m, 3) == m1 + {a, b} && Firsts(m, 3)[1] == a && Firsts(m, 3)[2] == b
  {
    s, m1 := FirstClear(m, 0), Gains(m, 1);
    GainsTo(m, 0);
    SecondClear(m, 0);
    var m2;
    m1, a := ClearAfter(m, 1);
    m2, b := ClearAfter(m, 2);
    hide *;
    assert m1 + {a} + {b} == m1 + {a, b};
  }

  lemma TwinTriple(m: set<nat>, s: nat, m1: set<nat>, a: nat, b: nat, size: int32)
    requires size >= 0 && s == FirstClear(m, 0) && m1 == m + {s} && Total(DivRoundUp(size, SECTOR_SIZE)) == 2 && HasRun(m1, NUM_SECTORS, 2)
    requires a < NUM_SECTORS && a !in m1 && forall k: nat :: k < a ==> k in m1
    requires b < NUM_SECTORS && b !in m1 + {a} && forall k: nat :: k < b ==> k in m1 + {a}
    ensures m + NewFeet(m, size) == m1 + {a, b} <==> b == a + 1
  {
    hide NewFeet;
    hide FirstClear;
    assert a < b;
    if b == a + 1 {
      assert ClearRun(m1, NUM_SECTORS, a, 2);
      RoomAt(m, s, m1, a, size, 2);
      PairRun(a);
    } else {
      var i := RoomPair(m, s, m1, size);
      hide *;
      NoPair(m1, i, a, b);
    }
  }

  lemma NoPair(m: set<nat>, i: nat, a: nat, b: nat)
    requires i !in m && i + 1 !in m && a + 1 < b
    ensures m + {i, i + 1} != m + {a, b}
  {
    assert i in m + {i, i + 1} && i + 1 in m + {i, i + 1};
  }

  lemma RoomPair(m: set<nat>, s: nat, m1: set<nat>, size: int32) returns (i: nat)
    requires size >= 0 && s == FirstClear(m, 0) && m1 == m + {s} && Total(DivRoundUp(size, SECTOR_SIZE)) == 2 && HasRun(m1, NUM_SECTORS, 2)
    ensures i !in m1 && i + 1 !in m1 && m + NewFeet(m, size) == m1 + {i, i + 1}
  {
    hide FirstClear;
    hide FirstFit;
    FirstRoomSize(m1, size);
    i := FirstFit(m1, 2);
    PairRun(i);
  }

  lemma PairRun(i: nat)
    ensures Run(i, 1) == {i} && Run(i, 2) == {i, i + 1}
  {
    assert Run(i, 2) == Run(i, 1) + {i + 1} && Run(i, 1) == Run(i, 0) + {i};
  }

  lemma BeneathDone(v0: View, tr: Tree, m: set<nat>, t: Table, name: Path, size: int32, sector: nat, slot: nat, t': Table,
                    f1: File, raw: seq<byte>, flat: Flat, v: View, m': set<nat>)
    requires Hierarchy(v0, tr) && BelowFile(tr, name) && GoodName(name) && FREE_MAP_SECTOR in v0
    requires sector == FirstClear(m, 0) < NUM_SECTORS && m' == m + NewFeet(m, FileSize(size)) && MapStored(v, m')
    requires slot < NUM_DIR_ENTRIES && !t[slot].inUse && t' == t[slot := Entry(true, size < 0, sector, name)]
    requires var s := tr.sectors[Parent(name)];
             && s in v0 && s != FREE_MAP_SECTOR && Mounted(flat, Gains(m, Lacking(v0[s].h)), v)
             && v == v0[s := f1][FREE_MAP_SECTOR := v0[FREE_MAP_SECTOR].(raw := raw)] && Tabled(v0[s], EncodeEntries(t'), f1)
    ensures Beneath(v0, tr, m, t, name, size, flat, v, m') && Hierarchy(v, tr)
    ensures var h := v0[tr.sectors[Parent(name)]].h;
            && (Mounted(flat, m', v) <==> Twinned(h, m, FileSize(size))) && (Consistent(flat, m') <==> Twinned(h, m, FileSize(size)))
  {
    hide Hierarchy;
    hide Mounted;
    hide MapStored;
    hide DecodeTable;
    hide EncodeEntries;
    hide FirstClear;
    hide NewFeet;
    hide Gains;
    hide Tabled;
    hide Consistent;
    var s := tr.sectors[Parent(name)];
    HierarchyNow(v0, tr);
    assert forall p :: IsDirPath(tr, p) && (p == [] || p in tr.sectors) ==> DirSector(tr, p) != s;
    HierarchyContents(v0, tr, s, f1);
    HierarchyMap(v0[s := f1], tr, v[FREE_MAP_SECTOR]);
    TableRoundTrip(t');
    ConsistentMarks(flat, Gains(m, Lacking(v0[s].h)), v, tr, m');
    if Mounted(flat, m', v) { DiskDetermines(flat, Gains(m, Lacking(v0[s].h)), v, tr, m', v, tr); }
  }

  // The bytes or the length of the file are then not what they were, unless it was empty.
  lemma BeneathShows(v0: View, tr: Tree, m: set<nat>, t: Table, name: Path, size: int32, flat: Flat, v: View, m': set<nat>)
    requires BelowFile(tr, name) && Beneath(v0, tr, m, t, name, size, flat, v, m')
    requires var f := v0[tr.sectors[Parent(name)]]; ReadsAs(f, t) && f.h.numBytes > 0
    ensures var s := tr.sectors[Parent(name)];
            && 0 <= v[s].h.numBytes <= |v[s].raw| && 0 <= v0[s].h.numBytes <= |v0[s].raw|
            && v[s].raw[..v[s].h.numBytes] != v0[s].raw[..v0[s].h.numBytes]
  {
    hide Hierarchy;
    hide Mounted;
    hide MapStored;
    hide DecodeTable;
    hide FirstClear;
    hide NewFeet;
    hide Gains;
    hide ReadsAs;
    var s := tr.sectors[Parent(name)];
    var slot: nat, b :|
      && slot < NUM_DIR_ENTRIES && !t[slot].inUse && |b| == DIRECTORY_FILE_SIZE && Tabled(v0[s], b, v[s])
      && DecodeTable(b) == t[slot := Entry(true, size < 0, FirstClear(m, 0), name)];
    TableShows(v0[s], t, slot, Entry(true, size < 0, FirstClear(m, 0), name), b, v[s]);
  }

  // A path below a file that is no directory: nothing in the bytes of the file passes for the name.
  ghost predicate Findable(v: View, tr: Tree, name: Path)
  {
    BelowFile(tr, name) ==> tr.sectors[Parent(name)] in v && Bare(v[tr.sectors[Parent(name)]], name)
  }

  // One file more, in the first clear sector and the first run; of the others only the directory changed, in its bytes.
  ghost predicate Created(v0: View, tr0: Tree, m0: set<nat>, name: Path, isDir: bool, size: int32, v: View, tr: Tree)
    requires size >= 0
  {
    var p, s := Parent(name), FirstClear(m0, 0);
    && (p == [] || p in tr0.sectors) && name !in tr0.sectors
    && tr.sectors == tr0.sectors[name := s] && tr.dirs == (if isDir then tr0.dirs + {name} else tr0.dirs)
    && s !in v0 && v.Keys == v0.Keys + {s} && v[s].h.numBytes == size && v[s].feet == NewFeet(m0, size)
    && forall t :: t in v0 ==> SameFile(v0[t], v[t]) && (t != DirSector(tr0, p) && t != FREE_MAP_SECTOR ==> v[t] == v0[t])
  }

  lemma CreatedLength(v0: View, tr0: Tree, m0: set<nat>, name: Path, isDir: bool, size: int32, v: View, tr: Tree)
    requires size >= 0
    ensures Created(v0, tr0, m0, name, isDir, size, v, tr) ==>
              name in tr.sectors && tr.sectors[name] in v && v[tr.sectors[name]].h.numBytes == size
  {
    hide FirstClear;
    hide NewFeet;
  }

  // Only the bytes of the file may differ.
  predicate SameFile(f: File, g: File) { g.h == f.h && g.feet == f.feet }

  // What becomes of a new name in a directory with table t.
  ghost function Placement(t: Table, name: Path, m: set<nat>, fileSize: int32): Outcome<bool>
    requires fileSize >= 0
  {
    var s := FirstClear(m, 0);
    if s >= NUM_SECTORS || !Unlisted(t, name) || (forall i :: 0 <= i < NUM_DIR_ENTRIES ==> t[i].inUse) then Returned(false)
    else AllocateOutcome(m + {s}, fileSize)
  }

  lemma HierarchyMarked(flat: Flat, m: set<nat>, v: View, tr: Tree)
    requires Mounted(flat, m, v) && Hierarchy(v, tr)
    ensures FREE_MAP_SECTOR in m && DIRECTORY_SECTOR in m
  {
    HierarchyNow(v, tr);
    PresentFile(flat, m, v, FREE_MAP_SECTOR);
    FeetMarked(v, m, FREE_MAP_SECTOR);
    PresentFile(flat, m, v, DIRECTORY_SECTOR);
    FeetMarked(v, m, DIRECTORY_SECTOR);
  }

  // Where the sectors of a new file come from: the first run of the right length.
  ghost function FirstRoom(m: set<nat>, size: int32): set<nat>
    requires size >= 0
  {
    var total := Total(DivRoundUp(size, SECTOR_SIZE));
    Run(FirstFit(m, total), total)
  }

  // All the sectors of a new file.
  ghost function NewFeet(m: set<nat>, size: int32): set<nat>
    requires size >= 0
  {
    var s := FirstClear(m, 0);
    {s} + FirstRoom(m + {s}, size)
  }

  lemma RoomHanded(m0: set<nat>, flat0: Flat, fileSize: int32, h: Hdr, flat: Flat, m: set<nat>)
    requires 0 in m0 && fileSize >= 0 && AllocateResult(m0, flat0, fileSize, Returned(true), h, flat, m)
    ensures h.numBytes == fileSize && NewHeader(m0, flat0, h, flat, m)
    ensures m - m0 == FirstRoom(m0, fileSize)
  {
    hide AllocateResult;
    Handed(m0, flat0, fileSize, h, flat, m);
  }

  // A header that Allocate filled is in its sector: a file beside those of the volume.
  lemma Placed(marked: set<nat>, v: View, sector: nat, flat0: Flat, fileSize: int32,
               m0: set<nat>, h: Hdr, flat: Flat, m: set<nat>, flat': Flat) returns (file: File)
    requires Mounted(flat0, marked, v) && 0 in marked && sector < NUM_SECTORS && sector !in marked
    requires fileSize >= 0 && m0 == marked + {sector} && AllocateResult(m0, flat0, fileSize, Returned(true), h, flat, m)
    requires flat' == flat[sector := flat'[sector]] && DecodeHdr(flat'[sector]) == h
    ensures Mounted(flat', marked, v)
    ensures Present(flat', sector, file) && file.h.numBytes == fileSize
    ensures file.feet !! marked && m == marked + file.feet && file.feet == {sector} + FirstRoom(m0, fileSize)
  {
    hide *;
    RoomHanded(m0, flat0, fileSize, h, flat, m);
    KeptMarked(m0, flat0, h, flat, m);
    file := PresentNew(m0, flat0, sector, h, flat, m, flat');
    MountedElsewhere(flat0, marked, v, flat');
  }

  const FREE_MAP_FILE_SIZE := NUM_SECTORS / 8

  // Both files of a new volume fit; their marks are as follows.
  lemma FirstFits(ok: Outcome<bool>, m0: set<nat>, h: Hdr, flat0: Flat, flat: Flat, m: set<nat>)
    requires m0 == {FREE_MAP_SECTOR, DIRECTORY_SECTOR}
    requires AllocateResult(m0, flat0, FREE_MAP_FILE_SIZE, ok, h, flat, m)
    ensures ok == Returned(true) && NewHeader(m0, flat0, h, flat, m) && h.numBytes == FREE_MAP_FILE_SIZE
    ensures forall k: nat :: k in m <==> k < 3
  {
    hide AllocateResult;
    hide NewHeader;
    hide Run;
    hide FirstFit;
    var total := Total(DivRoundUp(FREE_MAP_FILE_SIZE, SECTOR_SIZE));
    assert total == 1 && |m0| == 2;
    assert ClearRun(m0, NUM_SECTORS, 2, total);
    Succeeds(m0, flat0, FREE_MAP_FILE_SIZE, 2, ok, h, flat, m);
    Handed(m0, flat0, FREE_MAP_FILE_SIZE, h, flat, m);
    FitsAt(m0, 2, total);
  }

  // With all sectors below i taken and the next ones clear, the first run is there.
  lemma FitsAt(m: set<nat>, i: nat, cnt: nat)
    requires cnt > 0 && ClearRun(m, NUM_SECTORS, i, cnt) && forall k: nat :: k < i ==> k in m
    ensures FirstFit(m, cnt) == i
  {
    forall j: nat | j < i ensures !ClearRun(m, NUM_SECTORS, j, cnt) { assert j in m; }
    FirstFitIs(m, i, cnt);
  }

  lemma SecondFits(ok: Outcome<bool>, m0: set<nat>, h: Hdr, flat0: Flat, flat: Flat, m: set<nat>)
    requires forall k: nat :: k in m0 <==> k < 3
    requires AllocateResult(m0, flat0, DIRECTORY_FILE_SIZE, ok, h, flat, m)
    ensures ok == Returned(true) && NewHeader(m0, flat0, h, flat, m) && h.numBytes == DIRECTORY_FILE_SIZE
    ensures forall k: nat :: k in m <==> k < 7
  {
    hide AllocateResult;
    BelowSize(m0, 3);
    var total := Total(DivRoundUp(DIRECTORY_FILE_SIZE, SECTOR_SIZE));
    assert total == 4;
    assert ClearRun(m0, NUM_SECTORS, 3, total);
    Succeeds(m0, flat0, DIRECTORY_FILE_SIZE, 3, ok, h, flat, m);
    Handed(m0, flat0, DIRECTORY_FILE_SIZE, h, flat, m);
    FitsAt(m0, 3, total);
  }

  // The two files of a new volume; flat1 and flat2 are the disks after the two calls of
  // Allocate, flat the one with both headers written.
  lemma TwoFiles(h0: Hdr, flat0: Flat, flat1: Flat, m0: set<nat>, m1: set<nat>, h1: Hdr, flat2: Flat, m2: set<nat>, flat: Flat)
    returns (v: View)
    requires m0 == {FREE_MAP_SECTOR, DIRECTORY_SECTOR}
    requires NewHeader(m0, flat0, h0, flat1, m1) && NewHeader(m1, flat1, h1, flat2, m2)
    requires DecodeHdr(flat[FREE_MAP_SECTOR]) == h0 && DecodeHdr(flat[DIRECTORY_SECTOR]) == h1
    requires forall k :: 2 <= k < NUM_SECTORS ==> flat[k] == flat2[k]
    ensures v.Keys == {FREE_MAP_SECTOR, DIRECTORY_SECTOR}
    ensures Mounted(flat, m2, v) && v[DIRECTORY_SECTOR].h == h1 && v[FREE_MAP_SECTOR].h == h0
  {
    KeptMarked(m0, flat0, h0, flat1, m1);
    KeptMarked(m1, flat1, h1, flat2, m2);
    var f0 := PresentNew(m0, flat0, FREE_MAP_SECTOR, h0, flat1, m1, flat);
    var f1 := PresentNew(m1, flat1, DIRECTORY_SECTOR, h1, flat2, m2, flat);
    v := map[];
    NothingMounted(flat);
    MountedAdd(flat, {}, v, FREE_MAP_SECTOR, f0, f0.feet);
    v := v[FREE_MAP_SECTOR := f0];
    MountedAdd(flat, f0.feet, v, DIRECTORY_SECTOR, f1, m2);
    v := v[DIRECTORY_SECTOR := f1];
  }

  lemma KeptMarked(m0: set<nat>, flat0: Flat, h: Hdr, flat: Flat, m: set<nat>)
    requires NewHeader(m0, flat0, h, flat, m)
    ensures m0 <= m && forall k: nat :: k in m0 && k < NUM_SECTORS ==> flat[k] == flat0[k]
  {
    assert Look(0);
  }

  lemma NothingMounted(flat: Flat)
    ensures Mounted(flat, {}, map[])
  {
  }

  lemma EmptyHierarchy(v: View, tr: Tree)
    requires v.Keys == {FREE_MAP_SECTOR, DIRECTORY_SECTOR} && tr == Tree(map[], {})
    requires var f := v[DIRECTORY_SECTOR];
             f.h.numBytes == DIRECTORY_FILE_SIZE <= |f.raw| && forall i :: 0 <= i < NUM_DIR_ENTRIES ==> !TableOf(f)[i].inUse
    ensures Hierarchy(v, tr)
  {
    assert Shape(tr);
    assert Named(v, tr);
    assert TableOk(TableOf(v[DIRECTORY_SECTOR]), [], tr);
    assert IsDirectory(v[DIRECTORY_SECTOR], [], tr);
    assert forall p :: IsDirPath(tr, p) ==> p == [] && DirSector(tr, p) == DIRECTORY_SECTOR;
  }
}
