/** Runs of the code that fall short of what its comments promise. */
module Shortfalls {
  import opened Outcomes
  import opened Sectors
  import opened BitMaps
  import opened SynchDisks
  import opened BlockMaps
  import opened FileContents
  import opened Growths
  import opened FileHeaders
  import opened FreeMaps
  import opened Writing
  import opened OpenFiles
  import opened Volumes
  import opened Directories
  import opened Trees
  import opened Strays
  import opened FileSystems

  // Every other bit is clear, and the search for two in a row runs into the ASSERT.
  method NoTwoTogether() returns (bm: BitMap, r: Outcome<int>)
    ensures r.Halted? && bm.numBits == NUM_SECTORS && forall k: nat :: k < NUM_SECTORS ==> (k in bm.marked <==> k % 2 == 0)
  {
    bm := new BitMap(NUM_SECTORS);
    for i := 0 to NUM_SECTORS / 2
      invariant bm.Valid() && fresh(bm) && fresh(bm.bits) && forall k: nat :: k in bm.marked <==> k < 2 * i && k % 2 == 0
    {
      bm.Mark(2 * i);
    }
    NoRunOfTwo(bm.marked);
    r := bm.FindN(2);
  }

  lemma NoRunOfTwo(m: set<nat>)
    requires forall k: nat :: k < NUM_SECTORS && k % 2 == 0 ==> k in m
    ensures !HasRun(m, NUM_SECTORS, 2)
  {
    forall i: nat | i <= NUM_SECTORS ensures !ClearRun(m, NUM_SECTORS, i, 2) {
      if i + 2 <= NUM_SECTORS { assert i in m || i + 1 in m; }
    }
  }

  const LARGEST := MAX_SECTORS * SECTOR_SIZE

  // Exactly the sectors of a file of the largest size are clear, in a row, and it is refused.
  method RefusesLargest(bm: BitMap, hdr: FileHeader, disk: SynchDisk) returns (ok: Outcome<bool>)
    requires disk.Valid() && hdr.Valid() && bm.Valid() && bm.numBits == NUM_SECTORS
    requires forall k: nat :: k in bm.marked <==> k < NUM_SECTORS - Total(MAX_SECTORS)
    modifies bm, bm.bits, hdr, hdr.dataSectors, disk, disk.table, disk.raw
    ensures ok == Returned(false)
  {
    hide AllocateResult;
    ghost var flat, m := disk.flat, bm.marked;
    ok := hdr.Allocate(bm, LARGEST, disk);
    TooFew(m, flat, ok, hdr.Value(), disk.flat, bm.marked, NUM_SECTORS - Total(MAX_SECTORS));
  }

  // Such a bitmap.
  method LastClear() returns (bm: BitMap)
    ensures fresh(bm) && fresh(bm.bits) && bm.Valid() && bm.numBits == NUM_SECTORS
    ensures forall k: nat :: k in bm.marked <==> k < NUM_SECTORS - Total(MAX_SECTORS)
  {
    bm := new BitMap(NUM_SECTORS);
    for i := 0 to NUM_SECTORS - Total(MAX_SECTORS)
      invariant bm.Valid() && fresh(bm) && fresh(bm.bits) && forall k: nat :: k in bm.marked <==> k < i
    {
      bm.Mark(i);
    }
  }

  method FitsButRefused(disk: SynchDisk) returns (ok: Outcome<bool>)
    requires disk.Valid()
    modifies disk, disk.table, disk.raw
    ensures ok == Returned(false)
  {
    var bm := LastClear();
    var hdr := new FileHeader();
    ok := RefusesLargest(bm, hdr, disk);
  }

  lemma TooFew(m0: set<nat>, flat0: Flat, ok: Outcome<bool>, h: Hdr, flat: Flat, m: set<nat>, first: nat)
    requires first == NUM_SECTORS - Total(MAX_SECTORS) && (forall k: nat :: k in m0 <==> k < first)
    requires AllocateResult(m0, flat0, LARGEST, ok, h, flat, m)
    ensures ok == Returned(false)
  {
    assert Look(0);
    assert m0 == Run(0, first);
    assert ClearRun(m0, NUM_SECTORS, first, Total(MAX_SECTORS));
    assert HasRun(m0, NUM_SECTORS, Total(MAX_SECTORS));
    assert DivRoundUp(LARGEST, SECTOR_SIZE) == MAX_SECTORS;
  }

  // A file of one block is to grow by more than a header can take.  The write is cut off, but the
  // header on the disk has all its blocks by then, and the bitmap does not know of them.
  method RefusedWrite(disk: SynchDisk) returns (f: OpenFile, fm: FreeMapFile, count: nat)
    requires disk.Valid()
    modifies disk, disk.table, disk.raw
    ensures f.hdr.Valid() && f.headerSector < NUM_SECTORS && count == SECTOR_SIZE
    ensures DecodeHdr(disk.flat[f.headerSector]) == f.hdr.Value()
    ensures |fm.marked| <= 3 && !Backed(f.hdr.Value(), disk.flat, f.headerSector, fm.marked)
  {
    hide Backed;
    hide Stores;
    hide WriteResult;
    hide Roomy;
    ghost var file;
    fm, file := OneBlockFile(disk);
    f := new OpenFile(1, disk);
    var data := seq(LARGEST + 1, _ => 0 as byte);
    OneBlockGrows(file, disk.flat, fm.marked, data);
    ghost var flat, m, raw := disk.flat, fm.marked, [];
    count, raw := f.WriteAt(data, 0, disk, fm, file.raw);
    GrowthRefused(file, flat, m, data, count, f.hdr.Value(), disk.flat, fm.marked, raw);
  }

  lemma OneBlockGrows(f: File, flat: Flat, m: set<nat>, data: seq<byte>)
    requires f.h.numBytes == SECTOR_SIZE && f.h.numSectors == 1 && |m| <= 3 && |data| == LARGEST + 1
    ensures Roomy(f.h, m, |data|)
  {
    assert GrownTo(1, Delta(SECTOR_SIZE, LARGEST + 1)) == MAX_SECTORS;
  }

  lemma GrowthRefused(f: File, flat0: Flat, m0: set<nat>, data: seq<byte>, count: nat, h: Hdr, flat: Flat, m: set<nat>, raw: seq<byte>)
    requires Stores(f.h, flat0, 1, f.raw) && Stores(h, flat, 1, raw)
    requires f.h.numBytes == SECTOR_SIZE && f.h.numSectors == 1 && |data| == LARGEST + 1
    requires WriteResult(f.h, flat0, 1, m0, f.raw, 0, data, count, h, flat, m, raw)
    ensures count == SECTOR_SIZE && m == m0 && !Backed(h, flat, 1, m) && DecodeHdr(flat[1]) == h
  {
    hide Backed;
    hide OthersKept;
    hide GrownInto;
    hide Confined;
    assert Refused(f.h, LARGEST + 1);
  }

  // The bitmap and the disk with one file of one block, whose header is in sector 1.
  method OneBlockFile(disk: SynchDisk) returns (fm: FreeMapFile, ghost file: File)
    requires disk.Valid()
    modifies disk, disk.table, disk.raw
    ensures fresh(fm) && disk.Valid() && fm.Valid() && |fm.marked| <= 3
    ensures DecodeHdr(disk.flat[1]) == file.h && file.h.numBytes == SECTOR_SIZE && file.h.numSectors == 1
    ensures Stores(file.h, disk.flat, 1, file.raw) && Backed(file.h, disk.flat, 1, fm.marked)
  {
    hide AllocateResult;
    hide NewHeader;
    hide Stores;
    hide Backed;
    var bm := FileSystem.ReservedMap();
    var hdr := new FileHeader();
    ghost var flat0, m0 := disk.flat, bm.marked;
    var ok := hdr.Allocate(bm, SECTOR_SIZE, disk);
    ghost var h, flat1 := hdr.Value(), disk.flat;
    OneBlock(m0, flat0, ok, h, flat1, bm.marked);
    hdr.WriteBack(1, disk);
    file := OnePresent(m0, flat0, h, flat1, bm.marked, disk.flat);
    fm := new FreeMapFile();
    fm.Store(bm);
  }

  lemma OnePresent(m0: set<nat>, flat0: Flat, h: Hdr, flat: Flat, m: set<nat>, flat': Flat) returns (f: File)
    requires NewHeader(m0, flat0, h, flat, m) && 1 in m0 && DecodeHdr(flat'[1]) == h && (forall k :: k in m ==> k < NUM_SECTORS)
    requires flat' == flat[1 := flat'[1]]
    ensures f.h == h && Stores(f.h, flat', 1, f.raw) && Backed(f.h, flat', 1, m)
  {
    f := PresentNew(m0, flat0, 1, h, flat, m, flat');
    assert Look(0);
  }

  lemma OneBlock(m0: set<nat>, flat0: Flat, ok: Outcome<bool>, h: Hdr, flat: Flat, m: set<nat>)
    requires m0 == {0, 1} && AllocateResult(m0, flat0, SECTOR_SIZE, ok, h, flat, m)
    ensures ok == Returned(true) && NewHeader(m0, flat0, h, flat, m) && h.numBytes == SECTOR_SIZE && h.numSectors == 1 && |m| <= 3
  {
    hide Blocks;
    hide NewHeader;
    assert Total(1) == 1 && DivRoundUp(SECTOR_SIZE, SECTOR_SIZE) == 1;
    assert ClearRun(m0, NUM_SECTORS, 2, 1);
    Succeeds(m0, flat0, SECTOR_SIZE, 2, ok, h, flat, m);
    Handed(m0, flat0, SECTOR_SIZE, h, flat, m);
    AllocatedLength(m0, flat0, h, flat, m);
    hide AllocateResult;
    UnionSize(m0, Run(FirstFit(m0, 1), 1));
  }

  lemma AllocatedLength(m0: set<nat>, flat0: Flat, h: Hdr, flat: Flat, m: set<nat>)
    requires AllocateResult(m0, flat0, SECTOR_SIZE, Returned(true), h, flat, m)
    ensures h.numSectors == 1
  {
    assert Look(0);
  }

  lemma UnionSize(a: set<nat>, b: set<nat>)
    ensures |a + b| <= |a| + |b|
  {
    assert a + b == a + (b - a);
    assert b == (b - a) + (b * a);
  }

  /* Create f, and then Create f/x. */

  const F: Path := [102]
  const FX: Path := [102, SLASH, 120]

  lemma Names(tr: Tree)
    requires F in tr.sectors && F !in tr.dirs
    ensures GoodName(F) && GoodName(FX) && Parent(F) == [] && Parent(FX) == F && Reachable(tr, FX) && BelowFile(tr, FX)
  {
    assert LastSlash([102]) == 0 && LastSlash([102, SLASH]) == 1;
    assert FX[..2] == [102, SLASH] && FX[..1] == F;
  }

  // A volume with the first n sectors in use has room for a small file behind them.
  lemma RoomBehind(m: set<nat>, n: nat, t: Table, name: Path, size: int32)
    requires (forall k: nat :: k in m <==> k < n) && 0 < n < 100 && 0 <= size <= 300
    requires forall i :: 0 <= i < NUM_DIR_ENTRIES ==> !t[i].inUse
    ensures FirstClear(m, 0) == n && Placement(t, name, m, size) == Returned(true)
    ensures forall k: nat :: k in m + NewFeet(m, size) <==> k < n + 1 + DivRoundUp(size, SECTOR_SIZE)
  {
    hide FirstClear;
    var blocks := DivRoundUp(size, SECTOR_SIZE);
    assert Total(blocks) == blocks <= 3;
    var m1 := m + {n};
    BelowSize(m1, n + 1);
    assert ClearRun(m1, NUM_SECTORS, n + 1, blocks);
    assert HasRun(m1, NUM_SECTORS, blocks);
    assert !t[0].inUse && Unlisted(t, name);
    assert |m1| == n + 1 && AllocateOutcome(m1, size) == Returned(true);
    if blocks > 0 { FitsAt(m1, n + 1, blocks); }
    hide FirstFit;
  }

  lemma EmptyRoot(v: View, tr: Tree)
    requires Hierarchy(v, tr) && tr == Tree(map[], {})
    ensures 1 in v && v[1].h.numBytes == DIRECTORY_FILE_SIZE <= |v[1].raw| && forall i :: 0 <= i < NUM_DIR_ENTRIES ==> !TableOf(v[1])[i].inUse
  {
    hide Hierarchy;
    DirectoryAt(v, tr, []);
    DirectoryTable(v[1], [], tr);
  }

  // A formatted volume with file f, of a size of at most 300 bytes.
  method WithFile(disk: SynchDisk, size: int32) returns (fs: FileSystem)
    requires disk.Valid() && 0 <= size <= 300
    modifies disk, disk.table, disk.raw
    ensures fs.Valid() && fresh(fs) && fresh(fs.fm) && fs.disk == disk && fs.tr == Tree(map[F := 7], {}) && 7 in fs.v && fs.v[7].h.numBytes == size
    ensures forall k: nat :: k in fs.fm.marked <==> k < 8 + DivRoundUp(size, SECTOR_SIZE)
  {
    hide Hierarchy;
    hide Mounted;
    hide Placement;
    hide NewFeet;
    hide FirstClear;
    hide MapStored;
    fs := new FileSystem.Format(disk);
    EmptyRoot(fs.v, fs.tr);
    RoomBehind(fs.fm.marked, 7, TableOf(fs.v[1]), F, size);
    assert Parent(F) == [];
    var r := fs.Create(F, size);
    assert r == Returned(true);
  }

  // The bytes of a file that are all zero, as far as it goes, taken for a table.
  lemma ZerosUnused(f: File, t: Table)
    requires ReadsAs(f, t) && forall o :: 0 <= o < f.h.numBytes ==> f.raw[o] == 0
    ensures (forall i :: 0 <= i < NUM_DIR_ENTRIES ==> !t[i].inUse) && Lookup(t, FX) == -1
  {
    var b :| Unused(b) && t == DecodeTable(Overlay(f, b));
    var o := Overlay(f, b);
    forall i | 0 <= i < NUM_DIR_ENTRIES ensures !t[i].inUse {
      assert o[i * ENTRY_SIZE] == 0;
      assert o[i * ENTRY_SIZE..(i + 1) * ENTRY_SIZE][0] == o[i * ENTRY_SIZE];
    }
    LookupFirst(t, FX, |t|);
  }

  // f is empty.  Create f/x returns TRUE, and no files and no tree fit the volume any more.
  method EmptyParent(disk: SynchDisk) returns (fs: FileSystem, r: Outcome<bool>)
    requires disk.Valid()
    modifies disk, disk.table, disk.raw
    ensures r == Returned(true) && FX !in fs.tr.sectors && !Consistent(fs.disk.flat, fs.fm.marked)
  {
    hide Hierarchy;
    hide Mounted;
    hide Placement;
    hide NewFeet;
    hide FirstClear;
    hide MapStored;
    hide Beneath;
    hide Gains;
    hide Lookup;
    hide ReadsAs;
    hide Consistent;
    fs := WithFile(disk, 0);
    Names(fs.tr);
    ghost var f, m := fs.v[7], fs.fm.marked;
    BelowSize(m, 8);
    ghost var t;
    r, t := fs.CreateBelow(FX, 0);
    ZerosUnused(f, t);
    RoomBehind(m, 8, t, FX, 0);
    GainsNone(m);
    assert 8 in m + NewFeet(m, 0) && 8 !in m;
  }

  // f has 300 bytes, all zero.  Create f/x returns TRUE; there is no such file, f has 480 bytes, and
  // the volume is consistent.
  method ShortParent(disk: SynchDisk) returns (fs: FileSystem, r: Outcome<bool>)
    requires disk.Valid()
    modifies disk, disk.table, disk.raw
    ensures r == Returned(true) && fs.Valid() && fs.tr == Tree(map[F := 7], {}) && 7 in fs.v && fs.v[7].h.numBytes == DIRECTORY_FILE_SIZE
  {
    hide Hierarchy;
    hide Mounted;
    hide Placement;
    hide NewFeet;
    hide FirstClear;
    hide MapStored;
    hide Beneath;
    hide Gains;
    hide Lookup;
    hide ReadsAs;
    hide Consistent;
    fs := ZeroFile(disk);
    Names(fs.tr);
    ghost var f, m, v0 := fs.v[7], fs.fm.marked, fs.v;
    BelowSize(m, 11);
    ghost var t;
    r, t := fs.CreateBelow(FX, 0);
    ZerosUnused(f, t);
    RoomBehind(m, 11, t, FX, 0);
    assert Twinned(f.h, m, 0) by { TwinOne(m, 0); }
    BeneathLength(v0, fs.tr, m, t, fs.disk.flat, fs.v, fs.fm.marked);
  }

  lemma BeneathLength(v0: View, tr: Tree, m: set<nat>, t: Table, flat: Flat, v: View, m': set<nat>)
    requires tr == Tree(map[F := 7], {}) && BelowFile(tr, FX) && Parent(FX) == F && Beneath(v0, tr, m, t, FX, 0, flat, v, m')
    requires 7 in v0 && v0[7].h.numBytes == 300 <= |v0[7].raw|
    ensures 7 in v && v[7].h.numBytes == DIRECTORY_FILE_SIZE
  {
    hide Hierarchy;
    hide Mounted;
    hide MapStored;
    hide DecodeTable;
    hide FirstClear;
    hide NewFeet;
    hide Gains;
  }

  method ZeroFile(disk: SynchDisk) returns (fs: FileSystem)
    requires disk.Valid()
    modifies disk, disk.table, disk.raw
    ensures fs.Valid() && fresh(fs) && fresh(fs.fm) && fs.disk == disk && fs.tr == Tree(map[F := 7], {})
    ensures 7 in fs.v && fs.v[7].h.numBytes == 300 <= |fs.v[7].raw| && forall o :: 0 <= o < 300 ==> fs.v[7].raw[o] == 0
    ensures forall k: nat :: k in fs.fm.marked <==> k < 11
  {
    hide Hierarchy;
    hide Mounted;
    hide MapStored;
    fs := WithFile(disk, 300);
    Names(fs.tr);
    var f := fs.Open(F);
    var zeros := seq(300, _ => 0 as byte);
    MountedFile(fs.disk.flat, fs.fm.marked, fs.v, 7);
    assert IsFile(fs.tr, 7);
    ghost var f0 := fs.v[7];
    var count := fs.WriteFile(f, zeros, 0);
    ZerosWritten(f0, zeros, count, fs.v[7]);
  }

  lemma ZerosWritten(f0: File, zeros: seq<byte>, count: nat, f: File)
    requires |zeros| == 300 && (forall o :: 0 <= o < 300 ==> zeros[o] == 0) && f0.h.numBytes == 300 && FileChanged(f0, 0, zeros, count, f)
    ensures f.h.numBytes == 300 <= |f.raw| && forall o :: 0 <= o < 300 ==> f.raw[o] == 0
  {
    assert f.raw[..f.h.numBytes] == zeros;
    forall o | 0 <= o < 300 ensures f.raw[o] == 0 { assert f.raw[o] == f.raw[..f.h.numBytes][o]; }
  }
}
