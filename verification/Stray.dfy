/** Create goes on to write an empty table through the sector it meant to use for a new directory even when the
    directory could not be placed (code/filesys/filesys.cc:239-245).  The sector is then clear, and whatever bytes
    it has are taken for a header: what such a write does, and when it does no harm.  Below a file that is no
    directory the same table goes through the header of that file. */
module Strays {
  import opened Outcomes
  import opened Sectors
  import opened BlockMaps
  import opened FileContents
  import opened Growths
  import opened Writing
  import opened Volumes
  import opened Directories

  const TABLE_BLOCKS := 4           // divRoundUp(DirectoryFileSize, SectorSize)

  // The bytes of a table as the constructor leaves it: nothing but the inUse flags is set.
  predicate Unused(b: seq<byte>)
  {
    |b| == DIRECTORY_FILE_SIZE && forall i :: 0 <= i < NUM_DIR_ENTRIES ==> b[i * ENTRY_SIZE] == 0
  }

  // The blocks extendLength is asked for.
  function Lacking(h: Hdr): (n: nat)
    ensures n < TABLE_BLOCKS
  {
    if h.numBytes <= 0 then 0 else Max(0, TABLE_BLOCKS - DivRoundUp(h.numBytes, SECTOR_SIZE))
  }

  // It cannot add them, and the write is cut off at the length of the file.
  predicate Refuses(h: Hdr)
  {
    Lacking(h) > 0 && h.numSectors + Lacking(h) > MAX_SECTORS
  }

  // It adds them, and stores the bitmap.
  predicate Leaks(h: Hdr)
  {
    Lacking(h) > 0 && !Refuses(h)
  }

  function Count(h: Hdr): nat
  {
    if h.numBytes <= 0 then 0 else if Refuses(h) then h.numBytes else DIRECTORY_FILE_SIZE
  }

  // The blocks written, all of them direct.
  function Reach(h: Hdr): (n: nat)
    ensures n <= TABLE_BLOCKS
  {
    DivRoundUp(Count(h), SECTOR_SIZE)
  }

  // The last index block is filled up before the extension gives up.
  predicate FillsUp(h: Hdr)
  {
    Refuses(h) && h.numSectors < MAX_SECTORS
  }

  predicate Touches(h: Hdr, k: int)
    requires |h.dataSectors| == SLOTS
  {
    (exists i :: 0 <= i < Reach(h) && h.dataSectors[i] == k) || (FillsUp(h) && h.dataSectors[SLOTS - 1] == k)
  }

  // Block i is the last one in its sector.
  predicate Final(h: Hdr, i: nat)
    requires |h.dataSectors| == SLOTS && i < Reach(h)
  {
    forall j :: i < j < Reach(h) ==> h.dataSectors[j] != h.dataSectors[i]
  }

  // The blocks it is asked for go into direct slots.
  predicate Direct(h: Hdr)
  {
    Lacking(h) > 0 && 0 <= h.numSectors && h.numSectors + Lacking(h) <= NUM_DIRECT
  }

  // The header that the blocks are then written through.
  ghost function Through(h: Hdr, m: set<nat>): (g: Hdr)
    requires |h.dataSectors| == SLOTS
    ensures |g.dataSectors| == SLOTS
  {
    if h.numBytes <= 0 || Refuses(h) then h
    else if Direct(h) then Outgrown(h, m, Lacking(h), DIRECTORY_FILE_SIZE)
    else h.(numBytes := Max(DIRECTORY_FILE_SIZE, h.numBytes))
  }

  // Without growth it leads to the same sectors, and as much is written.
  lemma ThroughSame(h: Hdr, m: set<nat>)
    requires |h.dataSectors| == SLOTS
    ensures !Leaks(h) || Direct(h) ==> Count(Through(h, m)) == Count(h)
    ensures !Leaks(h) ==> (FillsUp(Through(h, m)) <==> FillsUp(h)) && forall k :: Touches(Through(h, m), k) <==> Touches(h, k)
  {
    if !Leaks(h) && h.numBytes > 0 && !Refuses(h) {
      var g := Through(h, m);
      assert Reach(g) == Reach(h) && !FillsUp(g) && !FillsUp(h) && g.dataSectors == h.dataSectors;
    }
  }

  // What writing table b through header h, taken from sector s, does to disk and bitmap.
  ghost predicate Scribbled(h: Hdr, s: nat, flat: Flat, m: set<nat>, b: seq<byte>, r: Outcome<nat>, flat': Flat, m': set<nat>)
    requires |h.dataSectors| == SLOTS && |b| == DIRECTORY_FILE_SIZE && s < NUM_SECTORS
  {
    if Leaks(h) && !Direct(h) then
      r.Halted? || More(m, m')
    else
      && (r.Halted? <==> exists k :: Touches(Through(h, m), k) && !OnDisk(k)) && (!Leaks(h) ==> m' == m)
      && (r.Returned? ==> r.value == Count(h) && m' == Gains(m, if Direct(h) then Lacking(h) else 0) && Blotted(Through(h, m), s, flat, b, flat'))
  }

  ghost predicate Blotted(h: Hdr, s: nat, flat: Flat, b: seq<byte>, flat': Flat)
    requires |h.dataSectors| == SLOTS && |b| == DIRECTORY_FILE_SIZE && s < NUM_SECTORS
  {
    && (if Count(h) == 0 then flat' == flat else !Refuses(h) ==> DecodeHdr(flat'[s]) == h)
    && (forall k: nat :: k < NUM_SECTORS && k != s && !Touches(h, k) ==> flat'[k] == flat[k])
    && (forall i :: 0 <= i < Reach(h) && Final(h, i) && OnDisk(h.dataSectors[i]) && h.dataSectors[i] != s ==>
          && Begins(flat'[h.dataSectors[i]], b, i * SECTOR_SIZE, Count(h))
          && (!Refuses(h) ==> Ends(flat'[h.dataSectors[i]], flat[h.dataSectors[i]], i * SECTOR_SIZE, Count(h), h.numBytes)))
  }

  // And goes on with the bytes it had before, up to the end of the file.
  predicate Ends(sector: Sector, before: Sector, at: nat, count: nat, length: int)
  {
    forall k :: 0 <= k < SECTOR_SIZE && count <= at + k < length ==> sector[k] == before[k]
  }

  // The sector starts with the bytes of b from `at` on, as far as they go.
  predicate Begins(sector: Sector, b: seq<byte>, at: nat, count: nat)
    requires count <= |b|
  {
    forall k :: 0 <= k < SECTOR_SIZE && at + k < count ==> sector[k] == b[at + k]
  }

  // The first n sectors of the buffer, one after the other, are in sectors ds.
  ghost predicate Laid(ds: seq<int32>, n: nat, flat: Flat, buf: seq<byte>, flat': Flat)
    requires n <= |ds| && n * SECTOR_SIZE <= |buf|
  {
    && (forall i :: 0 <= i < n ==> OnDisk(ds[i]))
    && (forall k: nat :: k < NUM_SECTORS && (forall j :: 0 <= j < n ==> ds[j] != k) ==> flat'[k] == flat[k])
    && (forall i: nat :: i < n && (forall j :: i < j < n ==> ds[j] != ds[i]) ==> flat'[ds[i]] == Chunk(buf, i))
  }

  lemma LaidNext(ds: seq<int32>, n: nat, flat: Flat, buf: seq<byte>, flat': Flat)
    requires n < |ds| && (n + 1) * SECTOR_SIZE <= |buf| && Laid(ds, n, flat, buf, flat') && OnDisk(ds[n])
    ensures Laid(ds, n + 1, flat, buf, flat'[ds[n] := Chunk(buf, n)])
  {
    var f := flat'[ds[n] := Chunk(buf, n)];
    forall i: nat | i < n + 1 && (forall j :: i < j < n + 1 ==> ds[j] != ds[i]) ensures f[ds[i]] == Chunk(buf, i) {
      if i < n { assert ds[n] != ds[i]; }
    }
    forall k: nat | k < NUM_SECTORS && (forall j :: 0 <= j < n + 1 ==> ds[j] != k) ensures f[k] == flat[k] {
      assert ds[n] != k;
    }
  }

  // With the header written after the blocks.  flat1 is the disk before the blocks were written,
  // flat2 the one after.
  lemma LaidBlots(h: Hdr, s: nat, flat: Flat, flat1: Flat, b: seq<byte>, buf: seq<byte>, flat2: Flat, flat': Flat)
    requires |h.dataSectors| == SLOTS && |b| == DIRECTORY_FILE_SIZE && s < NUM_SECTORS && Count(h) > 0
    requires |buf| == Reach(h) * SECTOR_SIZE && Count(h) <= |buf| && buf[..Count(h)] == b[..Count(h)]
    requires forall k: nat :: k < NUM_SECTORS && k != s && (FillsUp(h) ==> k != h.dataSectors[SLOTS - 1]) ==> flat1[k] == flat[k]
    requires Laid(h.dataSectors, Reach(h), flat1, buf, flat2) && flat' == flat2[s := flat'[s]]
    requires !Refuses(h) ==> DecodeHdr(flat'[s]) == h
    requires !Refuses(h) && OnDisk(h.dataSectors[Reach(h) - 1]) && h.dataSectors[Reach(h) - 1] != s ==>
               Ends(Chunk(buf, Reach(h) - 1), flat[h.dataSectors[Reach(h) - 1]], (Reach(h) - 1) * SECTOR_SIZE, Count(h), h.numBytes)
    ensures Blotted(h, s, flat, b, flat')
  {
    forall k: nat | k < NUM_SECTORS && k != s && !Touches(h, k) ensures flat'[k] == flat[k] {}
    forall i | 0 <= i < Reach(h) && Final(h, i) && OnDisk(h.dataSectors[i]) && h.dataSectors[i] != s
      ensures Begins(flat'[h.dataSectors[i]], b, i * SECTOR_SIZE, Count(h))
      ensures !Refuses(h) ==> Ends(flat'[h.dataSectors[i]], flat[h.dataSectors[i]], i * SECTOR_SIZE, Count(h), h.numBytes)
    {
      var sector := flat'[h.dataSectors[i]];
      assert sector == Chunk(buf, i);
      forall k | 0 <= k < SECTOR_SIZE && i * SECTOR_SIZE + k < Count(h) ensures sector[k] == b[i * SECTOR_SIZE + k] {
        assert sector[k] == buf[i * SECTOR_SIZE + k] == buf[..Count(h)][i * SECTOR_SIZE + k];
      }
      if i < Reach(h) - 1 { assert (i + 1) * SECTOR_SIZE <= Count(h); }
    }
  }

  // The growth is over, and r bytes are to be written through header g.
  ghost predicate GrowthDone(h: Hdr, s: nat, flat: Flat, m: set<nat>, r: Outcome<nat>, g: Hdr, flat0: Flat, m': set<nat>)
    requires |h.dataSectors| == SLOTS
  {
    && |g.dataSectors| == SLOTS
    && (r.Halted? ==> (Leaks(h) && !Direct(h)) || (FillsUp(h) && !OnDisk(h.dataSectors[SLOTS - 1]))) && (!Leaks(h) ==> m' == m)
    && (r.Returned? ==>
          && 0 < r.value <= DIRECTORY_FILE_SIZE && r.value <= g.numBytes
          && if Leaks(h) && !Direct(h) then More(m, m')
             else
               && r.value == Count(h) && m' == Gains(m, if Direct(h) then Lacking(h) else 0)
               && (if Refuses(h) then g.dataSectors == h.dataSectors else g == Through(h, m))
               && (FillsUp(h) ==> OnDisk(h.dataSectors[SLOTS - 1]))
               && forall k: nat :: k < NUM_SECTORS && k != s && (FillsUp(h) ==> k != h.dataSectors[SLOTS - 1]) ==> flat0[k] == flat[k])
  }

  lemma GrowthBounds(h: Hdr, s: nat, flat: Flat, m: set<nat>, n: nat, g: Hdr, flat0: Flat, m': set<nat>)
    requires |h.dataSectors| == SLOTS && GrowthDone(h, s, flat, m, Returned(n), g, flat0, m')
    ensures 0 < n <= DIRECTORY_FILE_SIZE && n <= g.numBytes && |g.dataSectors| == SLOTS
  {
  }

  lemma ScribbledNot(h: Hdr, s: nat, flat: Flat, m: set<nat>, b: seq<byte>)
    requires |h.dataSectors| == SLOTS && |b| == DIRECTORY_FILE_SIZE && s < NUM_SECTORS && h.numBytes <= 0
    ensures Scribbled(h, s, flat, m, b, Returned(0), flat, m)
  {
    GainsNone(m);
  }

  lemma ScribbledHalt(h: Hdr, s: nat, flat: Flat, m: set<nat>, b: seq<byte>, g: Hdr, flat0: Flat, m': set<nat>)
    requires |h.dataSectors| == SLOTS && |b| == DIRECTORY_FILE_SIZE && s < NUM_SECTORS && GrowthDone(h, s, flat, m, Halted, g, flat0, m')
    ensures Scribbled(h, s, flat, m, b, Halted, flat0, m')
  {
    if FillsUp(h) { assert Touches(Through(h, m), h.dataSectors[SLOTS - 1]); }
  }

  // The blocks are written, or one of them is not on the disk.
  lemma ScribbledDone(h: Hdr, s: nat, flat: Flat, m: set<nat>, b: seq<byte>, n: nat, g: Hdr, flat0: Flat, m': set<nat>,
                      r: Outcome<nat>, buf: seq<byte>, flat1: Flat, flat2: Flat, flat': Flat)
    requires |h.dataSectors| == SLOTS && |b| == DIRECTORY_FILE_SIZE && s < NUM_SECTORS && h.numBytes > 0
    requires GrowthDone(h, s, flat, m, Returned(n), g, flat0, m')
    requires r.Halted? <==> exists i :: 0 <= i < DivRoundUp(n, SECTOR_SIZE) && !OnDisk(g.dataSectors[i])
    requires r.Returned? ==>
               var blocks := DivRoundUp(n, SECTOR_SIZE);
               && r.value == n && |buf| == blocks * SECTOR_SIZE && n <= |buf| && buf[..n] == b[..n]
               && flat1 == flat0[s := flat1[s]] && Laid(g.dataSectors, blocks, flat1, buf, flat2)
               && flat' == flat2[s := flat'[s]] && DecodeHdr(flat'[s]) == g
               && Ends(Chunk(buf, blocks - 1), flat0[g.dataSectors[blocks - 1]], (blocks - 1) * SECTOR_SIZE, n, g.numBytes)
    ensures Scribbled(h, s, flat, m, b, r, flat', m')
  {
    hide Gains;
    hide Outgrown;
    hide Ends;
    hide Blotted;
    ThroughSame(h, m);
    if !(Leaks(h) && !Direct(h)) {
      var t := Through(h, m);
      assert Count(t) == n && Reach(t) == DivRoundUp(n, SECTOR_SIZE) && t.dataSectors == g.dataSectors;
      if r.Returned? {
        LaidBlots(t, s, flat, flat1, b, buf, flat2, flat');
        assert forall k :: Touches(t, k) ==> OnDisk(k);
      } else {
        var i :| 0 <= i < Reach(t) && !OnDisk(t.dataSectors[i]);
        assert Touches(t, t.dataSectors[i]);
      }
    }
  }

  // Data copied to the front of a buffer leaves the bytes behind it.
  lemma TailKept(buf: seq<byte>, data: seq<byte>, last: nat, before: Sector, length: int)
    requires |buf| == (last + 1) * SECTOR_SIZE && |data| <= |buf|
    requires |data| == |buf| || Ends(Chunk(buf, last), before, last * SECTOR_SIZE, 0, length)
    ensures Ends(Chunk(Splice(buf, 0, data), last), before, last * SECTOR_SIZE, |data|, length)
  {
    var c := Chunk(Splice(buf, 0, data), last);
    forall k | 0 <= k < SECTOR_SIZE && |data| <= last * SECTOR_SIZE + k < length ensures c[k] == before[k] {
      assert c[k] == Splice(buf, 0, data)[last * SECTOR_SIZE + k] == buf[last * SECTOR_SIZE + k] == Chunk(buf, last)[k];
    }
  }

  // Something a caller could look up: the header asks for no new blocks that it would get, and
  // none of the sectors it leads to is in use.
  ghost predicate Harmless(h: Hdr, m: set<nat>)
    requires |h.dataSectors| == SLOTS
  {
    !Leaks(h) && forall k :: Touches(h, k) ==> OnDisk(k) && k !in m
  }

  // Then every file is as it was.
  lemma HarmlessKeeps(h: Hdr, s: nat, flat: Flat, m: set<nat>, v: View, b: seq<byte>, r: Outcome<nat>, flat': Flat, m': set<nat>)
    requires |h.dataSectors| == SLOTS && |b| == DIRECTORY_FILE_SIZE && Harmless(h, m) && s !in m && s < NUM_SECTORS
    requires Mounted(flat, m, v) && Scribbled(h, s, flat, m, b, r, flat', m')
    ensures r == Returned(Count(h)) && m' == m && Mounted(flat', m, v)
  {
    ThroughSame(h, m);
    assert Gains(m, 0) == m;
    MountedElsewhere(flat, m, v, flat');
  }

  // A header that grows leaves marks that belong to no file.
  lemma LeakShows(h: Hdr, s: nat, flat: Flat, m: set<nat>, v: View, b: seq<byte>, r: Outcome<nat>, flat': Flat, m': set<nat>, v': View)
    requires |h.dataSectors| == SLOTS && |b| == DIRECTORY_FILE_SIZE && Leaks(h) && s !in m && s < NUM_SECTORS
    requires Mounted(flat, m, v) && Scribbled(h, s, flat, m, b, r, flat', m')
    requires v'.Keys == v.Keys && forall t :: t in v ==> v'[t].feet == v[t].feet
    ensures r.Halted? || !Mounted(flat', m', v')
  {
    hide Mounted;
    hide Blotted;
    if r.Returned? && Mounted(flat', m', v') {
      MountedMarks(flat, m, v);
      MountedMarks(flat', m', v');
      if Direct(h) { GainsMore(m, Lacking(h)); }
      MarksDetermined(v, m, v', m');
    }
  }

  /* Any other header can do harm: with what the constructor leaves in the table, a file changes. */

  // The table with x in every byte but the flags, and the i-th sector of it.
  function Image(x: byte): (b: seq<byte>)
    ensures Unused(b)
  {
    seq(DIRECTORY_FILE_SIZE, k => if k % ENTRY_SIZE == 0 then 0 else x)
  }

  function Block(x: byte, i: nat, before: Sector): (b: Sector)
    ensures forall k :: 0 <= k < SECTOR_SIZE && i * SECTOR_SIZE + k < DIRECTORY_FILE_SIZE && (i * SECTOR_SIZE + k) % ENTRY_SIZE != 0 ==> b[k] == x
  {
    seq(SECTOR_SIZE, k requires 0 <= k < SECTOR_SIZE =>
          if i * SECTOR_SIZE + k >= DIRECTORY_FILE_SIZE then before[k]
          else if (i * SECTOR_SIZE + k) % ENTRY_SIZE == 0 then 0 else x)
  }

  lemma BlockBytes(x: byte, i: nat, before: Sector)
    requires i < TABLE_BLOCKS
    ensures var b := Block(x, i, before); b[3] == x && b[76] == x && b[77] == x && b[78] == x && b[79] == x
  {
    if i == 0 {
    } else if i == 1 {
      assert (128 + 3) % 48 == 35 && (128 + 76) % 48 == 12 && (128 + 79) % 48 == 15;
    } else if i == 2 {
      assert (256 + 3) % 48 == 19 && (256 + 76) % 48 == 44 && (256 + 79) % 48 == 47;
    } else {
      assert (384 + 3) % 48 == 3 && (384 + 76) % 48 == 28 && (384 + 79) % 48 == 31;
    }
  }

  lemma NegativeWord(b0: byte, b1: byte, b2: byte, b3: byte)
    requires b3 >= 128
    ensures WordFrom(b0, b1, b2, b3) < 0
  {
  }

  // Read as a header it has a negative length, and read as an index block a negative entry.
  lemma BlockIsNoFile(x: byte, i: nat, before: Sector)
    requires x >= 128 && i < TABLE_BLOCKS
    ensures var b := Block(x, i, before); DecodeHdr(b).numBytes < 0 && WordsOf(b)[0] < 0 && b[76] == x
  {
    BlockBytes(x, i, before);
    hide Block;
    hide WordFrom;
    var b := Block(x, i, before);
    NegativeWord(b[76], b[77], b[78], b[79]);
    NegativeWord(b[0], b[1], b[2], b[3]);
  }

  // The last of the first n blocks that lies in sector k.
  function LastIn(h: Hdr, k: int, n: nat): (i: nat)
    requires |h.dataSectors| == SLOTS && n <= TABLE_BLOCKS
    ensures i < TABLE_BLOCKS && forall j :: i < j < n ==> h.dataSectors[j] != k
    ensures (exists j :: 0 <= j < n && h.dataSectors[j] == k) ==> i < n && h.dataSectors[i] == k
  {
    if n == 0 then 0 else if h.dataSectors[n - 1] == k then n - 1 else LastIn(h, k, n - 1)
  }

  predicate Covers(h: Hdr, k: int)
    requires |h.dataSectors| == SLOTS
  {
    exists i :: 0 <= i < Reach(h) && h.dataSectors[i] == k
  }

  lemma SomeImage(h: Hdr) returns (s: Sector)
    requires |h.dataSectors| == SLOTS
    ensures DecodeHdr(s) == h
  {
    s := EncodeHdr(seq(STAMP_WORDS, _ => 0), h);
  }

  // The disk with that table written, and the header after it.
  function WithImage(h: Hdr, s: nat, flat: Flat, x: byte, top: Sector): (flat': Flat)
    requires |h.dataSectors| == SLOTS
    ensures forall k: nat :: k < NUM_SECTORS && k != s ==>
              flat'[k] == if Covers(h, k) then Block(x, LastIn(h, k, Reach(h)), flat[k]) else flat[k]
    ensures s < NUM_SECTORS ==> flat'[s] == top
  {
    seq(NUM_SECTORS, k requires 0 <= k < NUM_SECTORS =>
          if k == s then top
          else if Covers(h, k) then Block(x, LastIn(h, k, Reach(h)), flat[k]) else flat[k])
  }

  lemma BlockFits(x: byte, i: nat, before: Sector, count: nat, length: int)
    requires count <= DIRECTORY_FILE_SIZE
    ensures Begins(Block(x, i, before), Image(x), i * SECTOR_SIZE, count)
    ensures count == DIRECTORY_FILE_SIZE ==> Ends(Block(x, i, before), before, i * SECTOR_SIZE, count, length)
  {
  }

  lemma ImageBlots(h: Hdr, s: nat, flat: Flat, x: byte, top: Sector)
    requires |h.dataSectors| == SLOTS && Count(h) > 0 && s < NUM_SECTORS && DecodeHdr(top) == h
    ensures Blotted(h, s, flat, Image(x), WithImage(h, s, flat, x, top))
  {
    var flat' := WithImage(h, s, flat, x, top);
    hide WithImage;
    hide Block;
    hide Image;
    hide Begins;
    hide Ends;
    forall i | 0 <= i < Reach(h) && Final(h, i) && OnDisk(h.dataSectors[i]) && h.dataSectors[i] != s
      ensures Begins(flat'[h.dataSectors[i]], Image(x), i * SECTOR_SIZE, Count(h))
      ensures !Refuses(h) ==> Ends(flat'[h.dataSectors[i]], flat[h.dataSectors[i]], i * SECTOR_SIZE, Count(h), h.numBytes)
    {
      assert Covers(h, h.dataSectors[i]);
      assert LastIn(h, h.dataSectors[i], Reach(h)) == i;
      BlockFits(x, i, flat[h.dataSectors[i]], Count(h), h.numBytes);
    }
  }

  // A live header, and a live index block, cannot look like that.
  lemma HeaderSpared(h: Hdr, s: nat, flat: Flat, t: nat, f: File, x: byte, top: Sector)
    requires |h.dataSectors| == SLOTS && x >= 128 && Present(WithImage(h, s, flat, x, top), t, f)
    ensures t == s || !Covers(h, t)
  {
    if t != s && Covers(h, t) { BlockIsNoFile(x, LastIn(h, t, Reach(h)), flat[t]); }
  }

  lemma IndexSpared(h: Hdr, s: nat, flat: Flat, t: nat, f: File, x: byte, k: int, top: Sector)
    requires |h.dataSectors| == SLOTS && x >= 128 && Present(WithImage(h, s, flat, x, top), t, f)
    requires Readable(f.h) && k in IndexSectors(f.h)
    ensures k == s || !Covers(h, k)
  {
    var flat' := WithImage(h, s, flat, x, top);
    FeetOnDisk(flat', t, f);
    FirstEntry(f.h, flat', k);
    if k != s && Covers(h, k) { BlockIsNoFile(x, LastIn(h, k, Reach(h)), flat[k]); }
  }

  // An index block has at least one entry.
  lemma FirstEntry(h: Hdr, flat: Flat, k: int)
    requires WellFormed(h, flat) && k in IndexSectors(h)
    ensures WordsOf(flat[k])[0] >= 0
  {
    hide Blocks;
    hide Proper;
    var q :| 0 <= q < |IndexSectors(h)| && IndexSectors(h)[q] == k;
    EntryAt(h, flat, q, 0);
    BlockOnDisk(h, flat, NUM_DIRECT + q * SECOND_DIRECT);
  }

  // A file cannot be in place both with one byte and with another in a sector of its own.
  lemma TwoImages(h: Hdr, s: nat, flat: Flat, t: nat, f: File, k: nat, top: Sector)
    requires |h.dataSectors| == SLOTS && k in f.feet && k != s && k < NUM_SECTORS && Covers(h, k)
    requires Present(WithImage(h, s, flat, 254, top), t, f)
    ensures !Present(WithImage(h, s, flat, 255, top), t, f)
  {
    hide Covers;
    hide LastIn;
    var a, b := WithImage(h, s, flat, 254, top), WithImage(h, s, flat, 255, top);
    if Present(b, t, f) {
      FeetOnDisk(a, t, f);
      FeetOnDisk(b, t, f);
      HeaderSpared(h, s, flat, t, f, 254, top);
      forall i | i in IndexSectors(f.h) ensures b[i] == a[i] && i != k { IndexSpared(h, s, flat, t, f, 254, i, top); }
      BlocksFrame(f.h, a, b);
      var j := BlockIn(f.h, a, k);
      assert Look(0);
      RawBlock(f.h, a, j);
      RawBlock(f.h, b, j);
      assert a[k] == b[k];
      BlockIsNoFile(254, LastIn(h, k, Reach(h)), flat[k]);
      BlockIsNoFile(255, LastIn(h, k, Reach(h)), flat[k]);
      assert false;
    }
  }

  // A sector of a file that is no index block is a block.
  lemma BlockIn(h: Hdr, flat: Flat, k: int) returns (j: nat)
    requires Readable(h) && k in Owned(h, flat) && k !in IndexSectors(h)
    ensures j < h.numSectors && Blocks(h, flat)[j] == k
  {
    assert k !in multiset(IndexSectors(h));
    assert k in multiset(Blocks(h, flat));
    j :| 0 <= j < |Blocks(h, flat)| && Blocks(h, flat)[j] == k;
  }

  // A sector in use that is written to: for some table a file changes.
  lemma BlotShows(h: Hdr, s: nat, flat: Flat, m: set<nat>, v: View, k: nat, top: Sector) returns (x: byte)
    requires |h.dataSectors| == SLOTS && Mounted(flat, m, v) && s !in m && k in m && Covers(h, k)
    ensures !Mounted(WithImage(h, s, flat, x, top), m, v)
  {
    hide Covers;
    hide Present;
    x := 254;
    if Mounted(WithImage(h, s, flat, 254, top), m, v) {
      var t := OwnerOf(flat, m, v, k);
      PresentFile(WithImage(h, s, flat, 254, top), m, v, t);
      TwoImages(h, s, flat, t, v[t], k, top);
      x := 255;
      if Mounted(WithImage(h, s, flat, 255, top), m, v) { PresentFile(WithImage(h, s, flat, 255, top), m, v, t); }
    }
  }

  lemma OwnerOf(flat: Flat, m: set<nat>, v: View, k: nat) returns (t: nat)
    requires Mounted(flat, m, v) && k in m
    ensures t in v && k in v[t].feet && k < NUM_SECTORS
  {
    assert Peek(0) && Look(0);
    t :| t in v && k in v[t].feet;
  }

  // What a header that grows can do: it is all bad.
  lemma LeakHappens(h: Hdr, s: nat, flat: Flat, m: set<nat>, v: View)
    returns (r: Outcome<nat>, flat': Flat, m': set<nat>)
    requires |h.dataSectors| == SLOTS && Mounted(flat, m, v) && s !in m && s < NUM_SECTORS && Leaks(h)
    ensures Scribbled(h, s, flat, m, Image(0), r, flat', m') && !(r.Returned? && Mounted(flat', m', v))
  {
    hide Mounted;
    hide Blotted;
    MountedMarks(flat, m, v);
    GainsMore(m, 1);
    hide FirstClear;
    hide WithImage;
    hide Image;
    var g := Through(h, m);
    var top := SomeImage(g);
    ThroughSame(h, m);
    r, flat', m' := Returned(DIRECTORY_FILE_SIZE), flat, Gains(m, 1);
    if Direct(h) {
      m' := Gains(m, Lacking(h));
      if exists k :: Touches(g, k) && !OnDisk(k) {
        r := Halted;
      } else {
        flat' := WithImage(g, s, flat, 0, top);
        ImageBlots(g, s, flat, 0, top);
      }
    }
    LeakShows(h, s, flat, m, v, Image(0), r, flat', m', v);
  }

  lemma ScribbledNow(h: Hdr, s: nat, flat: Flat, m: set<nat>, b: seq<byte>, flat': Flat)
    requires |h.dataSectors| == SLOTS && |b| == DIRECTORY_FILE_SIZE && s < NUM_SECTORS && !Leaks(h)
    requires (forall k :: Touches(Through(h, m), k) ==> OnDisk(k)) && Blotted(Through(h, m), s, flat, b, flat')
    ensures Scribbled(h, s, flat, m, b, Returned(Count(h)), flat', m)
  {
    hide Blotted;
    hide Touches;
    GainsNone(m);
  }

  // And one that leads to a sector in use, or to none.
  lemma BlotHappens(h: Hdr, s: nat, flat: Flat, m: set<nat>, v: View)
    returns (b: seq<byte>, r: Outcome<nat>, flat': Flat)
    requires |h.dataSectors| == SLOTS && Mounted(flat, m, v) && s !in m && s < NUM_SECTORS && !Leaks(h) && !Harmless(h, m)
    requires FillsUp(h) ==> h.dataSectors[SLOTS - 1] !in m
    ensures Unused(b) && Scribbled(h, s, flat, m, b, r, flat', m) && !(r.Returned? && Mounted(flat', m, v))
  {
    hide Mounted;
    hide Blotted;
    hide WithImage;
    hide Image;
    ThroughSame(h, m);
    var g := Through(h, m);
    if k :| Touches(h, k) && !OnDisk(k) {
      assert Touches(g, k);
      b, r, flat' := Image(0), Halted, flat;
    } else {
      var k :| Touches(h, k) && k in m;
      assert Covers(g, k) by { assert Touches(g, k) && (FillsUp(g) ==> g == h); }
      var top := SomeImage(g);
      var x := BlotShows(g, s, flat, m, v, k, top);
      ImageBlots(g, s, flat, x, top);
      ScribbledNow(h, s, flat, m, Image(x), WithImage(g, s, flat, x, top));
      hide Scribbled;
      b, r, flat' := Image(x), Returned(Count(h)), WithImage(g, s, flat, x, top);
    }
  }

  // Whatever the table has in it, Create comes back and all files are as they were, if and only
  // if the header is harmless.  (Not for a header that fills up an index block in use.)
  lemma StrayExact(h: Hdr, s: nat, flat: Flat, m: set<nat>, v: View)
    requires |h.dataSectors| == SLOTS && Mounted(flat, m, v) && s !in m && s < NUM_SECTORS
    requires FillsUp(h) ==> h.dataSectors[SLOTS - 1] !in m
    ensures Harmless(h, m) <==>
              forall b, r, flat', m' :: Unused(b) && Scribbled(h, s, flat, m, b, r, flat', m') ==> r.Returned? && Mounted(flat', m', v)
  {
    hide Mounted;
    hide Scribbled;
    hide Harmless;
    if Harmless(h, m) {
      forall b, r, flat', m' | Unused(b) && Scribbled(h, s, flat, m, b, r, flat', m')
        ensures r.Returned? && Mounted(flat', m', v)
      {
        HarmlessKeeps(h, s, flat, m, v, b, r, flat', m');
      }
    } else if Leaks(h) {
      var r, flat', m' := LeakHappens(h, s, flat, m, v);
    } else {
      var b, r, flat' := BlotHappens(h, s, flat, m, v);
    }
  }

  /* The same through the header of a live file. */

  // The first four blocks are in different sectors on the disk, apart from the header's.
  predicate Apart(g: Hdr, s: nat)
  {
    && |g.dataSectors| == SLOTS
    && (forall i :: 0 <= i < TABLE_BLOCKS ==> OnDisk(g.dataSectors[i]) && g.dataSectors[i] != s)
    && forall i, j :: 0 <= i < j < TABLE_BLOCKS ==> g.dataSectors[i] != g.dataSectors[j]
  }

  lemma BlottedBlock(g: Hdr, s: nat, flat: Flat, b: seq<byte>, flat': Flat, i: nat)
    requires |b| == DIRECTORY_FILE_SIZE && s < NUM_SECTORS && Apart(g, s) && Blotted(g, s, flat, b, flat')
    requires i < TABLE_BLOCKS && g.numBytes >= DIRECTORY_FILE_SIZE
    ensures Begins(flat'[g.dataSectors[i]], b, i * SECTOR_SIZE, DIRECTORY_FILE_SIZE)
    ensures Ends(flat'[g.dataSectors[i]], flat[g.dataSectors[i]], i * SECTOR_SIZE, DIRECTORY_FILE_SIZE, g.numBytes)
    ensures DecodeHdr(flat'[s]) == g
  {
    assert Count(g) == DIRECTORY_FILE_SIZE && Reach(g) == TABLE_BLOCKS && !Refuses(g);
    assert Final(g, i);
  }

  lemma BlottedElse(g: Hdr, s: nat, flat: Flat, b: seq<byte>, flat': Flat, k: nat)
    requires |b| == DIRECTORY_FILE_SIZE && s < NUM_SECTORS && |g.dataSectors| == SLOTS && Blotted(g, s, flat, b, flat')
    requires g.numBytes >= DIRECTORY_FILE_SIZE && k < NUM_SECTORS && k != s && forall i :: 0 <= i < TABLE_BLOCKS ==> g.dataSectors[i] != k
    ensures flat'[k] == flat[k]
  {
    assert Reach(g) == TABLE_BLOCKS && !Refuses(g);
    assert !Touches(g, k);
  }

  // The bytes of the table are the first of the file.
  lemma TableFirst(g: Hdr, s: nat, flat: Flat, b: seq<byte>, flat': Flat)
    requires |b| == DIRECTORY_FILE_SIZE && s < NUM_SECTORS && Apart(g, s) && Blotted(g, s, flat, b, flat')
    requires g.numBytes >= DIRECTORY_FILE_SIZE && WellFormed(g, flat') && g.numSectors >= TABLE_BLOCKS
    ensures Raw(g, flat')[..DIRECTORY_FILE_SIZE] == b
  {
    hide Blotted;
    var r := Raw(g, flat');
    forall o | 0 <= o < DIRECTORY_FILE_SIZE ensures r[o] == b[o] {
      RawAt(g, flat', o);
      BlottedBlock(g, s, flat, b, flat', o / SECTOR_SIZE);
    }
  }

  // A length more or less does not change the blocks.
  lemma OtherLength(h: Hdr, numBytes: int32, flat: Flat)
    requires WellFormed(h, flat)
    ensures var g := h.(numBytes := numBytes); WellFormed(g, flat) && Blocks(g, flat) == Blocks(h, flat) && Owned(g, flat) == Owned(h, flat)
  {
    SameBlocks(h, numBytes, flat);
    var g := h.(numBytes := numBytes);
    assert IndexSectors(g) == IndexSectors(h);
    assert References(g, flat) == References(h, flat);
  }

  // A file that has blocks enough: they keep their places.
  lemma OverlainBlocks(flat: Flat, s: nat, f: File, g: Hdr, b: seq<byte>, flat': Flat)
    requires Present(flat, s, f) && |b| == DIRECTORY_FILE_SIZE && f.h.numSectors >= TABLE_BLOCKS
    requires g == f.h.(numBytes := Max(DIRECTORY_FILE_SIZE, f.h.numBytes)) && |g.dataSectors| == SLOTS && Blotted(g, s, flat, b, flat')
    ensures Apart(g, s) && WellFormed(f.h, flat) && WellFormed(g, flat') && Blocks(g, flat') == Blocks(f.h, flat) && Owned(g, flat') == Owned(f.h, flat)
    ensures forall k: nat :: k < NUM_SECTORS && k !in f.feet ==> flat'[k] == flat[k]
  {
    hide Blotted;
    FeetOnDisk(flat, s, f);
    ReferencesDiffer(f.h, flat);
    forall i | 0 <= i < TABLE_BLOCKS
      ensures Blocks(f.h, flat)[i] == g.dataSectors[i] && OnDisk(g.dataSectors[i]) && g.dataSectors[i] in Owned(f.h, flat)
    {
      BlockOnDisk(f.h, flat, i);
    }
    forall i | i in IndexSectors(f.h) ensures flat'[i] == flat[i] {
      assert i in Owned(f.h, flat) by { assert i in multiset(IndexSectors(f.h)); }
      BlottedElse(g, s, flat, b, flat', i);
    }
    BlocksFrame(f.h, flat, flat');
    OtherLength(f.h, g.numBytes, flat');
    forall k: nat | k < NUM_SECTORS && k !in f.feet ensures flat'[k] == flat[k] { BlottedElse(g, s, flat, b, flat', k); }
  }

  // And the bytes behind the table are as they were.
  lemma OverlainTail(flat: Flat, s: nat, f: File, g: Hdr, b: seq<byte>, flat': Flat, o: nat)
    requires Present(flat, s, f) && |b| == DIRECTORY_FILE_SIZE && f.h.numSectors >= TABLE_BLOCKS
    requires g == f.h.(numBytes := Max(DIRECTORY_FILE_SIZE, f.h.numBytes)) && Apart(g, s) && Blotted(g, s, flat, b, flat')
    requires WellFormed(f.h, flat) && WellFormed(g, flat') && Blocks(g, flat') == Blocks(f.h, flat)
    requires DIRECTORY_FILE_SIZE <= o < f.h.numBytes <= |f.raw| && f.raw == Raw(f.h, flat)
    ensures Raw(g, flat')[o] == f.raw[o]
  {
    hide Blotted;
    RawAt(f.h, flat, o);
    RawAt(g, flat', o);
    var c := o / SECTOR_SIZE;
    if c < TABLE_BLOCKS {
      BlottedBlock(g, s, flat, b, flat', c);
    } else {
      FeetOnDisk(flat, s, f);
      ReferencesDiffer(f.h, flat);
      BlockOnDisk(f.h, flat, c);
      assert forall i :: 0 <= i < TABLE_BLOCKS ==> Blocks(f.h, flat)[i] == f.h.dataSectors[i];
      BlottedElse(g, s, flat, b, flat', Blocks(f.h, flat)[c]);
    }
  }

  // What a table written at the start makes of the bytes of a file.
  predicate Tabled(f: File, b: seq<byte>, f': File)
  {
    && 0 <= f.h.numBytes <= |f.raw| && 0 <= f'.h.numBytes <= |f'.raw|
    && f'.raw[..f'.h.numBytes] == WriteEffect(f.raw[..f.h.numBytes], 0, b, false).contents
  }

  lemma Overlain(flat: Flat, s: nat, f: File, b: seq<byte>, flat': Flat) returns (f': File)
    requires Present(flat, s, f) && |b| == DIRECTORY_FILE_SIZE && f.h.numBytes > 0 && f.h.numSectors >= TABLE_BLOCKS
    requires |f.h.dataSectors| == SLOTS && Blotted(f.h.(numBytes := Max(DIRECTORY_FILE_SIZE, f.h.numBytes)), s, flat, b, flat')
    ensures Present(flat', s, f') && f'.feet == f.feet && Tabled(f, b, f')
    ensures f'.h == f.h.(numBytes := Max(DIRECTORY_FILE_SIZE, f.h.numBytes))
    ensures forall k: nat :: k < NUM_SECTORS && k !in f.feet ==> flat'[k] == flat[k]
  {
    hide Blotted;
    hide Blocks;
    hide Owned;
    hide WriteEffect;
    hide WellFormed;
    var g := f.h.(numBytes := Max(DIRECTORY_FILE_SIZE, f.h.numBytes));
    OverlainBlocks(flat, s, f, g, b, flat');
    FeetOnDisk(flat, s, f);
    StoresNow(flat, s, f);
    TableFirst(g, s, flat, b, flat');
    BlottedBlock(g, s, flat, b, flat', 0);
    var raw, len := Raw(g, flat'), f.h.numBytes;
    forall o: nat | DIRECTORY_FILE_SIZE <= o < len ensures raw[o] == f.raw[o] { OverlainTail(flat, s, f, g, b, flat', o); }
    f' := File(g, raw, f.feet);
    TabledBytes(f.raw, len, b, raw);
    PresentAs(flat', s, f');
  }

  // On bytes.
  lemma TabledBytes(before: seq<byte>, len: nat, b: seq<byte>, after: seq<byte>)
    requires 0 < len <= |before| && |b| == DIRECTORY_FILE_SIZE && Max(DIRECTORY_FILE_SIZE, len) <= |after|
    requires after[..DIRECTORY_FILE_SIZE] == b && forall o :: DIRECTORY_FILE_SIZE <= o < len ==> after[o] == before[o]
    ensures after[..Max(DIRECTORY_FILE_SIZE, len)] == WriteEffect(before[..len], 0, b, false).contents
  {
    if len >= DIRECTORY_FILE_SIZE {
      var c := Splice(before[..len], 0, b);
      forall o | 0 <= o < len ensures after[..len][o] == c[o] {
        if o < DIRECTORY_FILE_SIZE { assert after[..DIRECTORY_FILE_SIZE][o] == b[o]; }
      }
    }
  }

  lemma StoresNow(flat: Flat, s: nat, f: File)
    requires Present(flat, s, f)
    ensures WellFormed(f.h, flat) && 0 <= f.h.numBytes <= |f.raw| == f.h.numSectors * SECTOR_SIZE && f.raw == Raw(f.h, flat)
  {
    assert Look(0);
  }

  // A header in its sector stands for a file.
  lemma PresentAs(flat: Flat, s: nat, f: File)
    requires s < NUM_SECTORS && DecodeHdr(flat[s]) == f.h && Snug(f.h) && WellFormed(f.h, flat)
    requires s !in Owned(f.h, flat) && f.feet == {s} + Owned(f.h, flat) && f.raw == Raw(f.h, flat)
    ensures Present(flat, s, f)
  {
    assert Sound(f.h, flat, s);
  }

  // A header without index blocks.
  lemma DirectBlocks(h: Hdr, flat: Flat)
    requires |h.dataSectors| == SLOTS && 0 <= h.numSectors <= NUM_DIRECT
    ensures Readable(h) && IndexSectors(h) == [] && Blocks(h, flat) == h.dataSectors[..h.numSectors]
    ensures forall s :: s in Owned(h, flat) <==> s in h.dataSectors[..h.numSectors]
  {
    assert Blocks(h, flat) == h.dataSectors[..h.numSectors];
    assert forall s :: s in multiset(Blocks(h, flat)) <==> s in Blocks(h, flat);
  }

  lemma FourWellFormed(g: Hdr, s: nat, flat: Flat)
    requires Apart(g, s) && g.numSectors == TABLE_BLOCKS
    ensures WellFormed(g, flat) && s !in Owned(g, flat)
  {
    DirectBlocks(g, flat);
    var bs := Blocks(g, flat);
    assert bs == [g.dataSectors[0], g.dataSectors[1], g.dataSectors[2], g.dataSectors[3]];
    assert References(g, flat) == multiset{bs[0], bs[1], bs[2], bs[3]};
  }

  // On sequences: slots that are taken, filled up with sectors that are clear.
  lemma FilledApart(ds: seq<int32>, n: nat, ss: seq<int32>, m: set<nat>, s: nat, g: Hdr)
    requires |ds| == SLOTS && n + |ss| == TABLE_BLOCKS && g.dataSectors == Filled(ds, n, ss) && s in m
    requires forall i :: 0 <= i < n ==> OnDisk(ds[i]) && ds[i] in m && ds[i] != s
    requires forall i, j :: 0 <= i < j < n ==> ds[i] != ds[j]
    requires (forall x :: x in ss ==> OnDisk(x) && x !in m) && forall i, j :: 0 <= i < j < |ss| ==> ss[i] != ss[j]
    ensures Apart(g, s) && g.dataSectors[..TABLE_BLOCKS] == ds[..n] + ss
  {
    forall i | 0 <= i < TABLE_BLOCKS
      ensures g.dataSectors[i] == (if i < n then ds[i] else ss[i - n]) && OnDisk(g.dataSectors[i]) && g.dataSectors[i] != s
    {
      if i >= n { assert ss[i - n] in ss; }
    }
    forall i, j | 0 <= i < j < TABLE_BLOCKS ensures g.dataSectors[i] != g.dataSectors[j] {
      if j >= n {
        assert ss[j - n] in ss;
        if i >= n { assert ss[i - n] != ss[j - n]; }
      }
    }
  }

  // The blocks a short file gets are the first clear sectors.
  lemma GrownApart(flat: Flat, m: set<nat>, s: nat, f: File)
    requires Present(flat, s, f) && f.feet <= m && (forall k :: k in m ==> k < NUM_SECTORS)
    requires Direct(f.h) && |f.h.dataSectors| == SLOTS && -1 !in Firsts(m, Lacking(f.h))
    ensures var g := Outgrown(f.h, m, Lacking(f.h), DIRECTORY_FILE_SIZE);
            && g.numSectors == TABLE_BLOCKS && Apart(g, s)
            && forall k :: k in g.dataSectors[..TABLE_BLOCKS] <==> (k in f.feet && k != s) || k in Firsts(m, Lacking(f.h))
  {
    var h, n, ss := f.h, f.h.numSectors, Firsts(m, Lacking(f.h));
    FeetOnDisk(flat, s, f);
    FirstsFresh(m, Lacking(h));
    DirectBlocks(h, flat);
    ReferencesDiffer(h, flat);
    hide Firsts;
    hide Gains;
    PresentSelf(flat, s, f);
    hide Present;
    hide Filled;
    assert n + Lacking(h) == TABLE_BLOCKS;
    forall i | 0 <= i < n ensures OnDisk(h.dataSectors[i]) && h.dataSectors[i] in m && h.dataSectors[i] != s {
      assert h.dataSectors[i] in h.dataSectors[..n];
    }
    forall i, j | 0 <= i < j < n ensures h.dataSectors[i] != h.dataSectors[j] {
      assert Blocks(h, flat)[i] != Blocks(h, flat)[j];
    }
    FilledApart(h.dataSectors, n, ss, m, s, Outgrown(h, m, Lacking(h), DIRECTORY_FILE_SIZE));
  }

  lemma GrownOver(flat: Flat, m: set<nat>, s: nat, f: File, b: seq<byte>, flat': Flat) returns (f': File)
    requires Present(flat, s, f) && f.feet <= m && (forall k :: k in m ==> k < NUM_SECTORS) && Direct(f.h)
    requires |f.h.dataSectors| == SLOTS && -1 !in Firsts(m, Lacking(f.h)) && |b| == DIRECTORY_FILE_SIZE
    requires Blotted(Outgrown(f.h, m, Lacking(f.h), DIRECTORY_FILE_SIZE), s, flat, b, flat')
    ensures Present(flat', s, f') && f'.h == Outgrown(f.h, m, Lacking(f.h), DIRECTORY_FILE_SIZE) && Tabled(f, b, f')
    ensures forall k :: k in f'.feet <==> k in f.feet || k in Firsts(m, Lacking(f.h))
    ensures forall k: nat :: k in m && k !in f.feet ==> flat'[k] == flat[k]
  {
    hide Blotted;
    GrownApart(flat, m, s, f);
    FirstsFresh(m, Lacking(f.h));
    StoresNow(flat, s, f);
    var g := Outgrown(f.h, m, Lacking(f.h), DIRECTORY_FILE_SIZE);
    assert g.numBytes == DIRECTORY_FILE_SIZE;
    hide Outgrown;
    hide Firsts;
    hide Gains;
    FourWellFormed(g, s, flat');
    DirectBlocks(g, flat');
    TableFirst(g, s, flat, b, flat');
    BlottedBlock(g, s, flat, b, flat', 0);
    GrownElse(flat, m, s, f, g, b, flat');
    hide Blocks;
    hide Owned;
    hide Present;
    hide Apart;
    f' := File(g, Raw(g, flat'), {s} + Owned(g, flat'));
    TabledBytes(f.raw, f.h.numBytes, b, f'.raw);
    PresentAs(flat', s, f');
  }

  lemma GrownElse(flat: Flat, m: set<nat>, s: nat, f: File, g: Hdr, b: seq<byte>, flat': Flat)
    requires |g.dataSectors| == SLOTS && |b| == DIRECTORY_FILE_SIZE && s < NUM_SECTORS && Present(flat, s, f) && Blotted(g, s, flat, b, flat')
    requires g.numBytes == DIRECTORY_FILE_SIZE && forall i :: 0 <= i < TABLE_BLOCKS ==> g.dataSectors[i] !in m || g.dataSectors[i] in f.feet
    requires forall k :: k in m ==> k < NUM_SECTORS
    ensures s in f.feet && forall k: nat :: k in m && k !in f.feet ==> flat'[k] == flat[k]
  {
    hide Blotted;
    PresentSelf(flat, s, f);
    hide Present;
    forall k: nat | k in m && k !in f.feet ensures flat'[k] == flat[k] {
      BlottedElse(g, s, flat, b, flat', k);
    }
  }

  lemma PresentSelf(flat: Flat, s: nat, f: File)
    requires Present(flat, s, f)
    ensures s in f.feet
  {
  }

  // A live file asks for blocks only in direct slots.
  lemma SnugDirect(h: Hdr)
    requires Snug(h)
    ensures !Refuses(h) && (Lacking(h) > 0 ==> Direct(h) && h.numSectors + Lacking(h) == TABLE_BLOCKS)
    ensures Lacking(h) == 0 && h.numBytes > 0 ==> h.numSectors >= TABLE_BLOCKS
  {
  }

  // A table written through the header of a live file: the file has it for its first bytes, and the
  // blocks it lacked are the first clear sectors.
  lemma TableWritten(flat: Flat, m: set<nat>, v: View, s: nat, b: seq<byte>, r: Outcome<nat>, flat': Flat, m': set<nat>) returns (f': File)
    requires Mounted(flat, m, v) && s in v && s < NUM_SECTORS && |v[s].h.dataSectors| == SLOTS && |b| == DIRECTORY_FILE_SIZE
    requires Scribbled(v[s].h, s, flat, m, b, r, flat', m')
    ensures r.Halted? <==> |m| + Lacking(v[s].h) > NUM_SECTORS
    ensures r.Returned? ==>
              && r.value == Count(v[s].h) && m' == Gains(m, Lacking(v[s].h)) && Mounted(flat', m', v[s := f']) && Tabled(v[s], b, f')
              && f'.h.numBytes == (if v[s].h.numBytes == 0 then 0 else Max(DIRECTORY_FILE_SIZE, v[s].h.numBytes))
              && (Lacking(v[s].h) == 0 ==> forall k: nat :: k < NUM_SECTORS && k !in m ==> flat'[k] == flat[k])
  {
    hide Mounted;
    hide Scribbled;
    hide Present;
    hide Gains;
    hide Firsts;
    var f := v[s];
    f' := f;
    PresentFile(flat, m, v, s);
    MountedMarks(flat, m, v);
    FeetMarked(v, m, s);
    FirstsFresh(m, Lacking(f.h));
    PresentSnug(flat, s, f);
    ScribbledLive(flat, m, s, f, b, r, flat', m');
    if r.Returned? {
      f' := TableLaid(flat, m, s, f, b, flat');
      forall k: int ensures k in m' <==> k in m + f'.feet {}
      MountedChange(flat, m, v, s, flat', m', f');
    }
  }

  lemma ScribbledLive(flat: Flat, m: set<nat>, s: nat, f: File, b: seq<byte>, r: Outcome<nat>, flat': Flat, m': set<nat>)
    requires Present(flat, s, f) && f.feet <= m && (forall k :: k in m ==> k < NUM_SECTORS) && |f.h.dataSectors| == SLOTS
    requires |b| == DIRECTORY_FILE_SIZE && s < NUM_SECTORS && Scribbled(f.h, s, flat, m, b, r, flat', m')
    ensures r.Halted? <==> -1 in Firsts(m, Lacking(f.h))
    ensures r.Returned? ==> r.value == Count(f.h) && m' == Gains(m, Lacking(f.h)) && Blotted(Through(f.h, m), s, flat, b, flat')
  {
    hide Blotted;
    hide Gains;
    PresentSnug(flat, s, f);
    SnugDirect(f.h);
    TableHalts(flat, m, s, f);
  }

  // The file with the table, whatever its length.
  lemma TableLaid(flat: Flat, m: set<nat>, s: nat, f: File, b: seq<byte>, flat': Flat) returns (f': File)
    requires Present(flat, s, f) && f.feet <= m && (forall k :: k in m ==> k < NUM_SECTORS) && |f.h.dataSectors| == SLOTS
    requires -1 !in Firsts(m, Lacking(f.h)) && |b| == DIRECTORY_FILE_SIZE && s < NUM_SECTORS && Blotted(Through(f.h, m), s, flat, b, flat')
    ensures Present(flat', s, f') && Tabled(f, b, f')
    ensures forall k :: k in f'.feet <==> k in f.feet || k in Firsts(m, Lacking(f.h))
    ensures forall k: nat :: k in m && k !in f.feet ==> flat'[k] == flat[k]
    ensures Lacking(f.h) == 0 ==> forall k: nat :: k < NUM_SECTORS && k !in f.feet ==> flat'[k] == flat[k]
    ensures f'.h.numBytes == if f.h.numBytes == 0 then 0 else Max(DIRECTORY_FILE_SIZE, f.h.numBytes)
  {
    hide Blotted;
    PresentSnug(flat, s, f);
    SnugDirect(f.h);
    hide Present;
    hide Gains;
    if f.h.numBytes == 0 {
      f' := f;
      StoresNow(flat, s, f);
      NotBlotted(f.h, s, flat, b, flat');
    } else if Lacking(f.h) == 0 {
      f' := Overlain(flat, s, f, b, flat');
    } else {
      f' := GrownOver(flat, m, s, f, b, flat');
    }
  }

  lemma NotBlotted(h: Hdr, s: nat, flat: Flat, b: seq<byte>, flat': Flat)
    requires |h.dataSectors| == SLOTS && |b| == DIRECTORY_FILE_SIZE && s < NUM_SECTORS && h.numBytes == 0 && Blotted(h, s, flat, b, flat')
    ensures flat' == flat
  {
  }

  // Only a block that was not found is not on the disk.
  lemma TableHalts(flat: Flat, m: set<nat>, s: nat, f: File)
    requires Present(flat, s, f) && f.feet <= m && (forall k :: k in m ==> k < NUM_SECTORS) && |f.h.dataSectors| == SLOTS
    ensures (exists k :: Touches(Through(f.h, m), k) && !OnDisk(k)) <==> -1 in Firsts(m, Lacking(f.h))
  {
    var h, ss := f.h, Firsts(m, Lacking(f.h));
    PresentSnug(flat, s, f);
    SnugDirect(h);
    if Lacking(h) == 0 {
      assert ss == [];
      forall k | Touches(Through(h, m), k) ensures OnDisk(k) { LiveTouches(flat, m, s, f, k); }
    } else if -1 in ss {
      ShortTouches(h, m);
    } else {
      GrownApart(flat, m, s, f);
      hide Outgrown;
      forall k | Touches(Through(h, m), k) ensures OnDisk(k) { ApartTouches(Through(h, m), s, k); }
    }
  }

  lemma LiveTouches(flat: Flat, m: set<nat>, s: nat, f: File, k: int)
    requires Present(flat, s, f) && |f.h.dataSectors| == SLOTS && Lacking(f.h) == 0 && Touches(Through(f.h, m), k)
    ensures OnDisk(k)
  {
    var h, g := f.h, Through(f.h, m);
    PresentSnug(flat, s, f);
    SnugDirect(h);
    FeetOnDisk(flat, s, f);
    assert !FillsUp(g) && g.dataSectors == h.dataSectors;
    var i :| 0 <= i < Reach(g) && g.dataSectors[i] == k;
    BlockOnDisk(h, flat, i);
    assert Blocks(h, flat)[i] == k;
  }

  lemma ShortTouches(h: Hdr, m: set<nat>)
    requires |h.dataSectors| == SLOTS && Snug(h) && Direct(h) && -1 in Firsts(m, Lacking(h))
    ensures Touches(Through(h, m), -1)
  {
    hide Firsts;
    SnugDirect(h);
    var ss, g := Firsts(m, Lacking(h)), Through(h, m);
    var i :| 0 <= i < |ss| && ss[i] == -1;
    assert g.dataSectors[h.numSectors + i] == -1 && Reach(g) == TABLE_BLOCKS;
  }

  lemma ApartTouches(g: Hdr, s: nat, k: int)
    requires Apart(g, s) && g.numSectors == TABLE_BLOCKS && Touches(g, k)
    ensures OnDisk(k)
  {
  }

  // A table written through the header of a new directory, which is on no volume yet, does not matter to it.
  lemma NewTable(flat: Flat, s: nat, f: File, m: set<nat>, v: View, marked: set<nat>, b: seq<byte>, r: Outcome<nat>, flat': Flat, marked': set<nat>)
    requires Present(flat, s, f) && f.h.numBytes == DIRECTORY_FILE_SIZE && f.feet !! m && Mounted(flat, m, v)
    requires |f.h.dataSectors| == SLOTS && |b| == DIRECTORY_FILE_SIZE && s < NUM_SECTORS
    requires Scribbled(f.h, s, flat, marked, b, r, flat', marked')
    ensures r.Returned? && marked' == marked && Mounted(flat', m, v)
  {
    hide Mounted;
    PresentSnug(flat, s, f);
    SnugDirect(f.h);
    PresentSelf(flat, s, f);
    FeetOnDisk(flat, s, f);
    GainsNone(marked);
    var g := Through(f.h, marked);
    assert g == f.h && !Refuses(g) && Reach(g) == TABLE_BLOCKS;
    forall k | Touches(g, k) ensures OnDisk(k) && k in f.feet {
      var i :| 0 <= i < Reach(g) && g.dataSectors[i] == k;
      BlockOnDisk(f.h, flat, i);
      assert Blocks(f.h, flat)[i] == k;
    }
    MountedElsewhere(flat, m, v, flat');
  }

  /* The bytes of any file taken for a table. */

  // What FetchFrom leaves in a new table: the bytes of the file, as far as it goes.
  function Overlay(f: File, b: seq<byte>): (r: seq<byte>)
    requires 0 <= f.h.numBytes <= |f.raw| && |b| == DIRECTORY_FILE_SIZE
    ensures |r| == DIRECTORY_FILE_SIZE
  {
    var n := Min(DIRECTORY_FILE_SIZE, f.h.numBytes);
    f.raw[..n] + b[n..]
  }

  ghost predicate ReadsAs(f: File, t: Table)
  {
    0 <= f.h.numBytes <= |f.raw| && exists b :: Unused(b) && t == DecodeTable(Overlay(f, b))
  }

  // No such table lists the name.
  ghost predicate Bare(f: File, name: seq<byte>)
  {
    forall t: Table :: ReadsAs(f, t) ==> Unlisted(t, name)
  }

  lemma Overlaid(f: File, b: seq<byte>, n: nat)
    requires 0 <= f.h.numBytes <= |f.raw| && Unused(b) && n == ReadCount(f.h.numBytes, DIRECTORY_FILE_SIZE, 0)
    ensures ReadsAs(f, DecodeTable(AfterRead(b, 0, f.raw, 0, n)))
    ensures f.h.numBytes == DIRECTORY_FILE_SIZE ==> AfterRead(b, 0, f.raw, 0, n) == f.raw[..DIRECTORY_FILE_SIZE]
  {
    assert AfterRead(b, 0, f.raw, 0, n) == Overlay(f, b);
  }

  lemma EmptyUnused(t: Table)
    requires forall i :: 0 <= i < NUM_DIR_ENTRIES ==> !t[i].inUse
    ensures Unused(EncodeEntries(t))
  {
    forall i | 0 <= i < NUM_DIR_ENTRIES ensures EncodeEntries(t)[i * ENTRY_SIZE] == 0 {
      EncodedEntry(t, i);
      assert EncodeEntries(t)[i * ENTRY_SIZE] == EncodeEntries(t)[i * ENTRY_SIZE..(i + 1) * ENTRY_SIZE][0];
    }
  }

  // A new entry in the table changes the bytes or the length of the file it was read from.
  lemma TableShows(f: File, t: Table, slot: nat, e: Entry, b: seq<byte>, f': File)
    requires ReadsAs(f, t) && slot < NUM_DIR_ENTRIES && !t[slot].inUse && e.inUse && |b| == DIRECTORY_FILE_SIZE
    requires DecodeTable(b) == t[slot := e] && Tabled(f, b, f') && f.h.numBytes > 0
    ensures f'.raw[..f'.h.numBytes] != f.raw[..f.h.numBytes]
  {
    hide DecodeTable;
    var c, c' := f.raw[..f.h.numBytes], f'.raw[..f'.h.numBytes];
    if f.h.numBytes >= DIRECTORY_FILE_SIZE {
      var b0 :| Unused(b0) && t == DecodeTable(Overlay(f, b0));
      assert Overlay(f, b0) == c[..DIRECTORY_FILE_SIZE];
      assert c'[..DIRECTORY_FILE_SIZE] == Splice(c, 0, b)[..DIRECTORY_FILE_SIZE] == b;
      assert DecodeTable(b)[slot] == e;
    } else {
      assert |c'| == DIRECTORY_FILE_SIZE > |c|;
    }
  }
}
