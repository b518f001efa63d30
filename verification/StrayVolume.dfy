/** A volume at which Create destroys a file: the root directory has its ten files, so that there is no room for
    a new directory, and the first clear sector still holds the header of a directory that was removed, one of
    whose sectors now belongs to one of the ten. */
module StrayVolumes {
  import opened Outcomes
  import opened Sectors
  import opened BitMaps
  import opened MapBytes
  import opened BlockMaps
  import opened FileContents
  import opened Growths
  import opened Volumes
  import opened Directories
  import opened Trees
  import opened Strays
  import opened FileSystems

  // A header with up to four direct blocks.
  function FourBlocks(numBytes: int32, numSectors: int32, direct: seq<int32>): (h: Hdr)
    requires |direct| == 4
    ensures |h.dataSectors| == SLOTS && h.numBytes == numBytes && h.numSectors == numSectors && h.dataSectors[..4] == direct
  {
    Hdr(numBytes, numSectors, direct + seq(SLOTS - 4, _ => 0))
  }

  const MAP_HDR := FourBlocks(SECTOR_SIZE, 1, [2, 0, 0, 0])
  const ROOT_HDR := FourBlocks(DIRECTORY_FILE_SIZE, 4, [3, 4, 5, 6])
  const EMPTY_HDR := FourBlocks(0, 0, [0, 0, 0, 0])
  const DATA_HDR := FourBlocks(SECTOR_SIZE, 1, [18, 0, 0, 0])
  const STALE_HDR := FourBlocks(DIRECTORY_FILE_SIZE, 4, [18, 19, 20, 21])

  function Picture(h: Hdr): (s: Sector)
    requires |h.dataSectors| == SLOTS
    ensures DecodeHdr(s) == h
  {
    EncodeHdr(seq(STAMP_WORDS, _ => 0), h)
  }

  // Sectors 0 and 1 have the headers of the bitmap and the root directory, 2 and 3 to 6 their
  // bytes, 7 to 16 the headers of the ten files, 18 the bytes of the last; 17 is clear.
  function SectorAt(k: nat, bits: Sector, root: seq<byte>, data: Sector): Sector
    requires |root| == TABLE_BLOCKS * SECTOR_SIZE
  {
    if k == 0 then Picture(MAP_HDR)
    else if k == 1 then Picture(ROOT_HDR)
    else if k == 2 then bits
    else if k < 7 then Chunk(root, k - 3)
    else if k == 16 then Picture(DATA_HDR)
    else if k == 17 then Picture(STALE_HDR)
    else if k == 18 then data
    else Picture(EMPTY_HDR)
  }

  function FileAt(k: nat, bits: Sector, root: seq<byte>, data: Sector): File
  {
    if k == 0 then File(MAP_HDR, bits, {0, 2})
    else if k == 1 then File(ROOT_HDR, root, {1, 3, 4, 5, 6})
    else if k == 16 then File(DATA_HDR, data, {16, 18})
    else File(EMPTY_HDR, [], {k})
  }

  predicate IsHeader(k: nat) { k < 2 || 7 <= k < 17 }

  function Picked(bits: Sector, root: seq<byte>, data: Sector): (v: View)
    ensures forall k: nat :: k in v <==> IsHeader(k)
    ensures forall k :: k in v ==> v[k] == FileAt(k, bits, root, data)
  {
    map k: nat | k < 17 && IsHeader(k) :: FileAt(k, bits, root, data)
  }

  lemma OneBlockPresent(flat: Flat, s: nat, h: Hdr)
    requires s < NUM_SECTORS && |h.dataSectors| == SLOTS && DecodeHdr(flat[s]) == h && h.numSectors == 1 && h.numBytes == SECTOR_SIZE
    requires OnDisk(h.dataSectors[0]) && h.dataSectors[0] != s
    ensures Present(flat, s, File(h, flat[h.dataSectors[0]], {s as int, h.dataSectors[0]}))
  {
    var d := h.dataSectors[0];
    assert Readable(h) && IndexSectors(h) == [];
    assert Blocks(h, flat) == [d];
    assert References(h, flat) == multiset{d as int};
    assert Owned(h, flat) == {d as int};
    assert WellFormed(h, flat);
    RawBlock(h, flat, 0);
    assert Raw(h, flat) == Raw(h, flat)[0 * SECTOR_SIZE..1 * SECTOR_SIZE];
    assert Sound(h, flat, s);
  }

  lemma EmptyPresent(flat: Flat, s: nat, h: Hdr)
    requires s < NUM_SECTORS && |h.dataSectors| == SLOTS && DecodeHdr(flat[s]) == h && h.numSectors == 0 && h.numBytes == 0
    ensures Present(flat, s, File(h, [], {s}))
  {
    assert Readable(h) && IndexSectors(h) == [];
    assert Blocks(h, flat) == [];
    assert References(h, flat) == multiset{};
    assert Owned(h, flat) == {};
    assert WellFormed(h, flat) && Raw(h, flat) == [];
    assert Sound(h, flat, s);
  }

  lemma FourPresent(flat: Flat, s: nat, h: Hdr, root: seq<byte>)
    requires s < NUM_SECTORS && |h.dataSectors| == SLOTS && DecodeHdr(flat[s]) == h && h.numSectors == 4 && h.numBytes == DIRECTORY_FILE_SIZE
    requires h.dataSectors[..4] == [3, 4, 5, 6] && s < 3 && |root| == TABLE_BLOCKS * SECTOR_SIZE
    requires flat[3] == Chunk(root, 0) && flat[4] == Chunk(root, 1) && flat[5] == Chunk(root, 2) && flat[6] == Chunk(root, 3)
    ensures Present(flat, s, File(h, root, {s, 3, 4, 5, 6}))
  {
    FourBlockMap(h, flat);
    assert Sound(h, flat, s);
    hide Blocks;
    RawBlock(h, flat, 0);
    RawBlock(h, flat, 1);
    RawBlock(h, flat, 2);
    RawBlock(h, flat, 3);
    FourChunks(Raw(h, flat), root);
  }

  lemma FourBlockMap(h: Hdr, flat: Flat)
    requires |h.dataSectors| == SLOTS && h.numSectors == 4 && h.dataSectors[..4] == [3, 4, 5, 6]
    ensures WellFormed(h, flat) && Blocks(h, flat) == [3, 4, 5, 6] && Owned(h, flat) == {3, 4, 5, 6}
  {
    var ds := h.dataSectors;
    assert ds[0] == ds[..4][0] && ds[1] == ds[..4][1] && ds[2] == ds[..4][2] && ds[3] == ds[..4][3];
    assert Readable(h) && IndexSectors(h) == [];
    assert Blocks(h, flat) == [3, 4, 5, 6];
    assert References(h, flat) == multiset{3, 4, 5, 6};
  }

  lemma FourChunks(a: seq<byte>, b: seq<byte>)
    requires |a| == |b| == TABLE_BLOCKS * SECTOR_SIZE
    requires Chunk(a, 0) == Chunk(b, 0) && Chunk(a, 1) == Chunk(b, 1) && Chunk(a, 2) == Chunk(b, 2) && Chunk(a, 3) == Chunk(b, 3)
    ensures a == b
  {
    forall k | 0 <= k < |a| ensures a[k] == b[k] {
      var j := k / SECTOR_SIZE;
      assert a[k] == Chunk(a, j)[k - j * SECTOR_SIZE] && b[k] == Chunk(b, j)[k - j * SECTOR_SIZE];
    }
  }

  function Disk(bits: Sector, root: seq<byte>, data: Sector): (flat: Flat)
    requires |root| == TABLE_BLOCKS * SECTOR_SIZE
    ensures forall k: nat :: k < NUM_SECTORS ==> flat[k] == SectorAt(k, bits, root, data)
  {
    seq(NUM_SECTORS, k requires 0 <= k < NUM_SECTORS => SectorAt(k, bits, root, data))
  }

  // The sectors in use.
  ghost predicate InUse(m: set<nat>)
  {
    forall k: nat :: k in m <==> k < 17 || k == 18
  }

  lemma SmallPresent(flat: Flat, s: nat, d: nat, h: Hdr)
    requires s < NUM_SECTORS && d < NUM_SECTORS && s != d && h == FourBlocks(SECTOR_SIZE, 1, [d, 0, 0, 0]) && flat[s] == Picture(h)
    ensures Present(flat, s, File(h, flat[d], {s, d}))
  {
    hide Picture;
    hide FourBlocks;
    assert h.dataSectors[0] == h.dataSectors[..4][0];
    OneBlockPresent(flat, s, h);
  }

  lemma AllPresent(bits: Sector, root: seq<byte>, data: Sector, k: nat)
    requires |root| == TABLE_BLOCKS * SECTOR_SIZE && IsHeader(k)
    ensures Present(Disk(bits, root, data), k, FileAt(k, bits, root, data))
  {
    hide Picture;
    hide Chunk;
    hide Present;
    hide FourBlocks;
    var flat := Disk(bits, root, data);
    hide Disk;
    if k == 0 {
      SmallPresent(flat, 0, 2, MAP_HDR);
    } else if k == 1 {
      FourPresent(flat, 1, ROOT_HDR, root);
    } else if k == 16 {
      SmallPresent(flat, 16, 18, DATA_HDR);
    } else {
      EmptyPresent(flat, k, EMPTY_HDR);
    }
  }

  lemma Divided(v: View, m: set<nat>, bits: Sector, root: seq<byte>, data: Sector)
    requires InUse(m) && forall k: nat :: k in v <==> IsHeader(k)
    requires forall k :: k in v ==> v[k] == FileAt(k, bits, root, data)
    ensures Partition(v, m)
  {
    forall k: nat | k in m ensures exists s :: s in v && k in v[s].feet {
      var s := if k == 2 then 0 else if 3 <= k < 7 then 1 else if k == 18 then 16 else k;
      assert s in v && k in v[s].feet;
    }
    forall s, t | s in v && t in v && s != t ensures v[s].feet !! v[t].feet {}
    forall s | s in v ensures v[s].feet <= m {}
  }

  lemma DiskMounted(m: set<nat>, bits: Sector, root: seq<byte>, data: Sector)
    requires |root| == TABLE_BLOCKS * SECTOR_SIZE && InUse(m)
    ensures Mounted(Disk(bits, root, data), m, Picked(bits, root, data))
  {
    hide Present;
    hide Partition;
    hide FileAt;
    hide Disk;
    var flat, v := Disk(bits, root, data), Picked(bits, root, data);
    hide Picked;
    forall k | k in v ensures Present(flat, k, v[k]) { AllPresent(bits, root, data, k); }
    Divided(v, m, bits, root, data);
  }

  // The ten files are A, B and so on.
  function NameOf(i: nat): (n: Path)
    requires i < NUM_DIR_ENTRIES
    ensures GoodName(n) && Parent(n) == []
  {
    [(65 + i) as byte]
  }

  function TenFiles(): (t: Table)
    ensures forall i :: 0 <= i < NUM_DIR_ENTRIES ==> t[i] == Entry(true, false, 7 + i, NameOf(i))
  {
    seq(NUM_DIR_ENTRIES, i requires 0 <= i < NUM_DIR_ENTRIES => Entry(true, false, 7 + i, NameOf(i)))
  }

  predicate IsName(n: Path) { |n| == 1 && 65 <= n[0] < 75 }

  ghost function TenNames(): (tr: Tree)
    ensures tr.dirs == {} && forall n :: n in tr.sectors <==> IsName(n)
    ensures forall n :: n in tr.sectors ==> IsName(n) && tr.sectors[n] == n[0] as int - 58
  {
    var names := set i: nat | i < NUM_DIR_ENTRIES :: NameOf(i);
    assert forall n :: n in names ==> IsName(n);
    forall n: Path | IsName(n) ensures n in names { assert n == NameOf(n[0] as int - 65); }
    Tree(map n | n in names :: (n[0] as int - 58) as nat, {})
  }

  lemma TenShape()
    ensures Shape(TenNames())
  {
    var tr := TenNames();
    forall n | n in tr.sectors ensures GoodName(n) && Parent(n) == [] { assert n == NameOf(n[0] as int - 65); }
  }

  lemma TenTable()
    ensures TableOk(TenFiles(), [], TenNames())
  {
    var t, tr := TenFiles(), TenNames();
    forall i | 0 <= i < NUM_DIR_ENTRIES
      ensures IsName(t[i].name) && Parent(t[i].name) == [] && t[i].sector == tr.sectors[t[i].name]
    {
      assert t[i] == Entry(true, false, 7 + i, NameOf(i));
    }
    forall n | n in tr.sectors ensures exists i: nat :: Listed(t, n, i) {
      var i := n[0] as int - 65;
      assert n == NameOf(i) && Listed(t, n, i);
    }
  }

  lemma TenNamed(v: View)
    requires forall k: nat :: k in v <==> IsHeader(k)
    ensures Named(v, TenNames())
  {
    var tr := TenNames();
    forall s | s in v && s != FREE_MAP_SECTOR && s != DIRECTORY_SECTOR ensures exists n :: n in tr.sectors && tr.sectors[n] == s {
      assert NameOf(s - 7) in tr.sectors && tr.sectors[NameOf(s - 7)] == s;
    }
  }

  lemma TenHierarchy(v: View, root: seq<byte>)
    requires (forall k: nat :: k in v <==> IsHeader(k)) && 1 in v && v[1] == File(ROOT_HDR, root, {1, 3, 4, 5, 6})
    requires |root| == TABLE_BLOCKS * SECTOR_SIZE && root[..DIRECTORY_FILE_SIZE] == EncodeEntries(TenFiles())
    ensures Hierarchy(v, TenNames()) && v[1].h.numBytes == DIRECTORY_FILE_SIZE && TableOf(v[1]) == TenFiles()
  {
    hide DecodeTable;
    hide EncodeEntries;
    hide FourBlocks;
    hide TenNames;
    hide TenFiles;
    hide Shape;
    hide Named;
    hide TableOk;
    hide IsName;
    TenShape();
    TenTable();
    TenNamed(v);
    TableRoundTrip(TenFiles());
  }

  // The words and the bytes of the bitmap.
  lemma Bitmap(m: set<nat>) returns (words: seq<Word>, bits: Sector)
    requires InUse(m)
    ensures |words| == MAP_WORDS && Encodes(words, NUM_SECTORS, m) && bits == BytesOfMap(words)
  {
    words := seq(MAP_WORDS, i requires 0 <= i < MAP_WORDS => seq(BITS_IN_WORD, j => i * BITS_IN_WORD + j < 17 || i * BITS_IN_WORD + j == 18));
    forall i: nat | i < NUM_SECTORS ensures i in m <==> words[i / BITS_IN_WORD][i % BITS_IN_WORD] {}
    bits := BytesOfMap(words);
  }

  lemma NoRoom(v: View, m: set<nat>, name: Path)
    requires InUse(m) && Hierarchy(v, TenNames()) && 1 in v && v[1].h.numBytes == DIRECTORY_FILE_SIZE <= |v[1].raw| && TableOf(v[1]) == TenFiles()
    requires name == [90]
    ensures FirstClear(m, 0) == 17 && Misses(v, TenNames(), m, name, -1)
    ensures GoodName(name) && Reachable(TenNames(), name) && !BelowFile(TenNames(), name)
  {
    hide Hierarchy;
    hide DecodeTable;
    hide FirstClear;
    hide TenNames;
    hide TenFiles;
    assert 17 !in m && forall k: nat :: k < 17 ==> k in m;
    assert Parent(name) == [];
  }

  // What the write through sector 17 does, whatever the new table has in it.
  lemma Overwrites(flat0: Flat, v: View, m: set<nat>, r: Outcome<bool>, flat: Flat, m': set<nat>)
    requires InUse(m) && FirstClear(m, 0) == 17 && DecodeHdr(flat0[17]) == STALE_HDR && Misplaced(flat0, v, m, r, flat, m')
    ensures r == Returned(false) && m' == m && flat[18][0] == 0
  {
    hide Mounted;
    hide FourBlocks;
    hide FirstClear;
    hide DecodeHdr;
    var h := STALE_HDR;
    var ds := h.dataSectors;
    assert ds[0] == ds[..4][0] && ds[1] == ds[..4][1] && ds[2] == ds[..4][2] && ds[3] == ds[..4][3];
    var flat1: Flat, b, n :|
      && Mounted(flat1, m, v) && Still(flat0, flat1, m) && Unused(b)
      && Scribbled(DecodeHdr(flat0[17]), 17, flat1, m, b, n, flat, m') && r == if n.Halted? then Halted else Returned(false);
    assert Lacking(h) == 0 && Count(h) == DIRECTORY_FILE_SIZE && Reach(h) == TABLE_BLOCKS && Through(h, m) == h;
    GainsNone(m);
    assert Final(h, 0);
    assert b[0 * ENTRY_SIZE] == 0;
  }

  lemma DataOf(flat: Flat, data: Sector)
    requires Present(flat, 16, File(DATA_HDR, data, {16, 18}))
    ensures flat[18] == data
  {
    hide FourBlocks;
    var h := DATA_HDR;
    assert h.dataSectors[0] == h.dataSectors[..4][0] == 18;
    assert Look(0);
    RawBlock(h, flat, 0);
    assert Blocks(h, flat)[0] == 18;
    assert data[0 * SECTOR_SIZE..1 * SECTOR_SIZE] == data;
  }

  // Everything is in order.
  lemma Volume(m: set<nat>, words: seq<Word>, bits: Sector, root: seq<byte>, data: Sector)
    requires InUse(m) && |words| == MAP_WORDS && Encodes(words, NUM_SECTORS, m) && bits == BytesOfMap(words)
    requires |root| == TABLE_BLOCKS * SECTOR_SIZE && root[..DIRECTORY_FILE_SIZE] == EncodeEntries(TenFiles())
    ensures var flat, v := Disk(bits, root, data), Picked(bits, root, data);
            && Mounted(flat, m, v) && Hierarchy(v, TenNames()) && MapStored(v, m) && Misses(v, TenNames(), m, [90], -1)
            && GoodName([90]) && Reachable(TenNames(), [90]) && !BelowFile(TenNames(), [90])
            && 16 in v && v[16] == File(DATA_HDR, data, {16, 18})
            && FirstClear(m, 0) == 17 && DecodeHdr(flat[17]) == STALE_HDR
  {
    hide Mounted;
    hide Hierarchy;
    hide EncodeEntries;
    hide FourBlocks;
    hide Picture;
    hide Misses;
    hide BytesOfMap;
    hide Encodes;
    hide FirstClear;
    hide TenNames;
    hide TenFiles;
    hide Disk;
    hide Picked;
    hide DecodeHdr;
    hide Reachable;
    hide BelowFile;
    hide MapStored;
    var v := Picked(bits, root, data);
    DiskMounted(m, bits, root, data);
    TenHierarchy(v, root);
    MapWritten(v, words, m);
    NoRoom(v, m, [90]);
  }

  // The file J is in sectors 16 and 18.  Whatever a new table has in it, creating directory Z
  // returns FALSE, and the bytes of J are not what they were.
  lemma LostFile() returns (flat: Flat, m: set<nat>, v: View, tr: Tree, name: Path)
    ensures Mounted(flat, m, v) && Hierarchy(v, tr) && MapStored(v, m)
    ensures GoodName(name) && Reachable(tr, name) && !BelowFile(tr, name) && Misses(v, tr, m, name, -1)
    ensures NameOf(9) in tr.sectors && tr.sectors[NameOf(9)] == 16 && 16 in v && v[16].h.numBytes == SECTOR_SIZE
    ensures forall r, flat', m' :: Misplaced(flat, v, m, r, flat', m') ==>
              r == Returned(false) && !Present(flat', 16, v[16]) && !Mounted(flat', m', v)
  {
    hide Mounted;
    hide Hierarchy;
    hide EncodeEntries;
    hide FourBlocks;
    hide Misplaced;
    hide Present;
    hide Misses;
    hide BytesOfMap;
    hide Encodes;
    hide FirstClear;
    hide Disk;
    hide Picked;
    hide DecodeHdr;
    hide MapStored;
    hide Range;
    hide TenNames;
    hide TenFiles;
    hide Reachable;
    hide BelowFile;
    m := Range(17) + {18};
    var words, bits := Bitmap(m);
    var root := EncodeEntries(TenFiles()) + Zeros(TABLE_BLOCKS * SECTOR_SIZE - DIRECTORY_FILE_SIZE);
    var data: Sector := BLANK[0 := 1];
    flat, v, tr, name := Disk(bits, root, data), Picked(bits, root, data), TenNames(), [90];
    Volume(m, words, bits, root, data);
    forall r, flat', m' | Misplaced(flat, v, m, r, flat', m')
      ensures r == Returned(false) && !Present(flat', 16, v[16]) && !Mounted(flat', m', v)
    {
      Overwrites(flat, v, m, r, flat', m');
      if Present(flat', 16, v[16]) { DataOf(flat', data); }
      if Mounted(flat', m', v) { PresentFile(flat', m', v, 16); }
    }
  }
}
