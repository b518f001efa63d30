/** The disk as a set of files: each live header sector with its header, bytes and sectors,
    and the bitmap marking exactly the sectors they take, none of them twice. */
module Volumes {
  import opened Outcomes
  import opened Sectors
  import opened BlockMaps
  import opened FileContents
  import opened BitMaps
  import opened Growths
  import opened Writing

  // feet: the sector of the header and every sector the header refers to.
  datatype File = File(h: Hdr, raw: seq<byte>, feet: set<int>)

  // Live files by the sector of their header.
  type View = map<nat, File>

  // The header has the blocks its length needs, and no more.
  predicate Snug(h: Hdr)
  {
    0 <= h.numBytes && h.numSectors == DivRoundUp(h.numBytes, SECTOR_SIZE)
  }

  ghost predicate Present(flat: Flat, s: nat, f: File)
  {
    && s < NUM_SECTORS && DecodeHdr(flat[s]) == f.h && s in f.feet && Snug(f.h)
    && Stores(f.h, flat, s, f.raw)
    && forall x {:trigger Look(x)} :: Look(x) ==> WellFormed(f.h, flat) && f.feet == {s} + Owned(f.h, flat)
  }

  // The marks are the disjoint union of the files' sectors.
  ghost predicate Partition(v: View, m: set<nat>)
  {
    forall x {:trigger Look(x)} :: Look(x) ==>
      && (forall k :: k in m ==> k < NUM_SECTORS)
      && (forall s, t :: s in v && t in v && s != t ==> v[s].feet !! v[t].feet)
      && (forall s :: s in v ==> v[s].feet <= m)
      && (forall k :: k in m ==> exists s :: s in v && k in v[s].feet)
  }

  // The volume invariant.
  ghost predicate Mounted(flat: Flat, m: set<nat>, v: View)
  {
    forall x {:trigger Peek(x)} :: Peek(x) ==> (forall s :: s in v ==> Present(flat, s, v[s])) && Partition(v, m)
  }

  lemma PresentFile(flat: Flat, m: set<nat>, v: View, s: nat)
    requires Mounted(flat, m, v) && s in v
    ensures Present(flat, s, v[s]) && Partition(v, m)
  {
    assert Peek(0);
  }

  lemma MountedMarks(flat: Flat, m: set<nat>, v: View)
    requires Mounted(flat, m, v)
    ensures Partition(v, m) && forall k :: k in m ==> k < NUM_SECTORS
  {
    assert Peek(0) && Look(0);
  }

  lemma MountedFile(flat: Flat, m: set<nat>, v: View, s: nat)
    requires Mounted(flat, m, v) && s in v
    ensures s < NUM_SECTORS && DecodeHdr(flat[s]) == v[s].h
    ensures Stores(v[s].h, flat, s, v[s].raw) && Backed(v[s].h, flat, s, m)
  {
    PresentFile(flat, m, v, s);
    assert Look(0);
  }

  // The sectors of a disk leave no choice what file a header stands for.
  lemma PresentSame(flat: Flat, s: nat, f: File, f': File)
    requires Present(flat, s, f) && Present(flat, s, f')
    ensures f == f'
  {
    assert Look(0);
  }

  // A file is present on every disk that agrees on its sectors.
  lemma PresentFrame(flat: Flat, s: nat, f: File, flat': Flat)
    requires Present(flat, s, f) && forall k :: k in f.feet && OnDisk(k) ==> flat'[k] == flat[k]
    ensures Present(flat', s, f)
  {
    assert Look(0);
    RawFrame(f.h, flat, flat');
  }

  // Writing sectors the bitmap does not mark changes no file.
  lemma MountedElsewhere(flat: Flat, m: set<nat>, v: View, flat': Flat)
    requires Mounted(flat, m, v) && forall k: nat :: k in m && k < NUM_SECTORS ==> flat'[k] == flat[k]
    ensures Mounted(flat', m, v)
  {
    assert Peek(0);
    forall s | s in v ensures Present(flat', s, v[s]) {
      FeetMarked(v, m, s);
      PresentFrame(flat, s, v[s], flat');
    }
  }

  lemma FeetMarked(v: View, m: set<nat>, s: nat)
    requires Partition(v, m) && s in v
    ensures v[s].feet <= m
    ensures forall t :: t in v && t != s ==> v[t].feet !! v[s].feet
  {
    assert Look(0);
  }

  // One file changed, growing only into sectors that were clear.
  lemma PartitionChange(v: View, m: set<nat>, s: nat, f: File, m': set<nat>)
    requires Partition(v, m) && s in v && v[s].feet <= f.feet && f.feet - v[s].feet !! m && m' == m + f.feet
    requires forall k :: k in f.feet ==> OnDisk(k)
    ensures Partition(v[s := f], m')
  {
    assert Look(0);
    var v' := v[s := f];
    forall k | k in m' ensures exists t :: t in v' && k in v'[t].feet {
      if k in f.feet {
        assert s in v' && k in v'[s].feet;
      } else {
        var t :| t in v && k in v[t].feet;
        assert t in v' && k in v'[t].feet;
      }
    }
  }

  lemma PartitionAdd(v: View, m: set<nat>, s: nat, f: File, m': set<nat>)
    requires Partition(v, m) && s !in v && f.feet !! m && m' == m + f.feet
    requires forall k :: k in f.feet ==> OnDisk(k)
    ensures Partition(v[s := f], m')
  {
    assert Look(0);
    var v' := v[s := f];
    forall k | k in m' ensures exists t :: t in v' && k in v'[t].feet {
      if k in f.feet {
        assert s in v' && k in v'[s].feet;
      } else {
        var t :| t in v && k in v[t].feet;
        assert t in v' && k in v'[t].feet;
      }
    }
  }

  lemma PartitionDrop(v: View, m: set<nat>, s: nat)
    requires Partition(v, m) && s in v
    ensures Partition(v - {s}, m - v[s].feet)
  {
    assert Look(0);
    var v', m' := v - {s}, m - v[s].feet;
    forall k | k in m' ensures exists t :: t in v' && k in v'[t].feet {
      var t :| t in v && k in v[t].feet;
      assert t in v' && k in v'[t].feet;
    }
  }

  lemma FeetOnDisk(flat: Flat, s: nat, f: File)
    requires Present(flat, s, f)
    ensures forall k :: k in f.feet ==> OnDisk(k)
    ensures WellFormed(f.h, flat) && f.feet == {s} + Owned(f.h, flat) && s !in Owned(f.h, flat)
  {
    assert Look(0);
  }

  // A file changed; whatever else was in use is as it was.
  lemma MountedChange(flat: Flat, m: set<nat>, v: View, s: nat, flat': Flat, m': set<nat>, f: File)
    requires Mounted(flat, m, v) && s in v && Present(flat', s, f)
    requires forall k: nat :: k in m && k < NUM_SECTORS && k !in v[s].feet ==> flat'[k] == flat[k]
    requires v[s].feet <= f.feet && f.feet - v[s].feet !! m && m' == m + f.feet
    ensures Mounted(flat', m', v[s := f])
  {
    assert Peek(0);
    FeetOnDisk(flat', s, f);
    PartitionChange(v, m, s, f, m');
    FeetMarked(v, m, s);
    forall t | t in v && t != s ensures Present(flat', t, v[t]) {
      FeetMarked(v, m, t);
      PresentFrame(flat, t, v[t], flat');
    }
  }

  // A new file takes only clear sectors, and they are marked.
  lemma MountedAdd(flat: Flat, m: set<nat>, v: View, s: nat, f: File, m': set<nat>)
    requires Mounted(flat, m, v) && Present(flat, s, f) && f.feet !! m && m' == m + f.feet
    ensures s !in v && Mounted(flat, m', v[s := f])
  {
    assert Peek(0);
    FeetOnDisk(flat, s, f);
    if s in v { FeetMarked(v, m, s); }
    PartitionAdd(v, m, s, f, m');
  }

  // Clearing exactly the sectors of a file takes it off the volume.
  lemma MountedDrop(flat: Flat, m: set<nat>, v: View, s: nat)
    requires Mounted(flat, m, v) && s in v
    ensures Mounted(flat, m - v[s].feet, v - {s})
  {
    assert Peek(0);
    PartitionDrop(v, m, s);
  }

  // The files determine the marks.
  lemma MarksDetermined(v: View, m: set<nat>, v': View, m': set<nat>)
    requires Partition(v, m) && Partition(v', m')
    requires v.Keys == v'.Keys && forall s :: s in v ==> v'[s].feet == v[s].feet
    ensures m == m'
  {
    assert Look(0);
    forall k: nat ensures k in m <==> k in m' {
      if k in m {
        var s :| s in v && k in v[s].feet;
        assert v'[s].feet <= m';
      }
      if k in m' {
        var s :| s in v' && k in v'[s].feet;
        assert v[s].feet <= m;
      }
    }
  }

  // The header of file s was written again, with other time stamps at most.
  lemma MountedStamp(flat: Flat, m: set<nat>, v: View, s: nat, flat': Flat)
    requires Mounted(flat, m, v) && s in v && s < NUM_SECTORS
    requires flat' == flat[s := flat'[s]] && DecodeHdr(flat'[s]) == v[s].h
    ensures Mounted(flat', m, v)
  {
    MountedFile(flat, m, v, s);
    StoresHeader(v[s].h, flat, s, v[s].raw, flat'[s]);
    MountedConfined(flat, m, v, s, flat', v[s].raw);
    assert v == v[s := v[s].(raw := v[s].raw)];
  }

  // Bytes of file s were overwritten.
  lemma MountedConfined(flat: Flat, m: set<nat>, v: View, s: nat, flat': Flat, raw': seq<byte>)
    requires Mounted(flat, m, v) && s in v && s < NUM_SECTORS
    requires Confined(v[s].h, flat, flat', s) && Stores(v[s].h, flat', s, raw') && DecodeHdr(flat'[s]) == v[s].h
    ensures Mounted(flat', m, v[s := v[s].(raw := raw')])
  {
    var f := v[s].(raw := raw');
    PresentFile(flat, m, v, s);
    PresentConfined(flat, s, v[s], flat', raw');
    FeetMarked(v, m, s);
    assert m == m + f.feet;
    MountedChange(flat, m, v, s, flat', m, f);
  }

  lemma PresentConfined(flat: Flat, s: nat, f: File, flat': Flat, raw': seq<byte>)
    requires Present(flat, s, f) && Confined(f.h, flat, flat', s)
    requires Stores(f.h, flat', s, raw') && DecodeHdr(flat'[s]) == f.h
    ensures Present(flat', s, f.(raw := raw'))
    ensures forall k: nat :: k < NUM_SECTORS && k !in f.feet ==> flat'[k] == flat[k]
  {
    assert Look(0);
  }

  // A write that may have grown file s; the bitmap file knows its sectors.
  lemma MountedWritten(flat: Flat, m: set<nat>, v: View, s: nat, position: nat, data: seq<byte>, count: nat,
                       h: Hdr, flat': Flat, m': set<nat>, raw': seq<byte>)
    returns (f: File)
    requires Mounted(flat, m, v) && s in v && s < NUM_SECTORS && 0 <= v[s].h.numBytes <= |v[s].raw| && 0 <= v[s].h.numSectors <= MAX_SECTORS
    requires Stores(h, flat', s, raw')
    requires WriteResult(v[s].h, flat, s, m, v[s].raw, position, data, count, h, flat', m', raw')
    requires count > 0 && (Refused(v[s].h, position + |data|) ==> v[s].h.numSectors == MAX_SECTORS)
    ensures f.h == h && f.raw == raw' && Mounted(flat', m', v[s := f])
  {
    PresentFile(flat, m, v, s);
    FeetMarked(v, m, s);
    hide Present;
    PresentSnug(flat, s, v[s]);
    SnugWritten(v[s].h, flat, s, m, v[s].raw, position, data, count, h, flat', m', raw');
    f := PresentGrown(flat, s, v[s], m, h, flat', m', raw');
    MountedChange(flat, m, v, s, flat', m', f);
  }

  lemma PresentSnug(flat: Flat, s: nat, f: File)
    requires Present(flat, s, f)
    ensures Snug(f.h)
  {
  }

  lemma SnugWritten(h0: Hdr, flat0: Flat, s: nat, m0: set<nat>, raw: seq<byte>, position: nat, data: seq<byte>, count: nat,
                    h: Hdr, flat: Flat, m: set<nat>, raw': seq<byte>)
    requires Snug(h0) && h0.numBytes <= |raw| && 0 <= h.numBytes <= |raw'| && s < NUM_SECTORS && h0.numSectors <= MAX_SECTORS
    requires WriteResult(h0, flat0, s, m0, raw, position, data, count, h, flat, m, raw')
    requires count > 0 && (Refused(h0, position + |data|) ==> h0.numSectors == MAX_SECTORS)
    ensures Snug(h)
  {
    hide Backed;
    hide OthersKept;
    hide GrownInto;
    hide Confined;
    var end := position + |data|;
    assert raw'[..h.numBytes] == WriteEffect(raw[..h0.numBytes], position, data, Refused(h0, end)).contents;
    if end > h0.numBytes {
      EnoughBlocks(h0, end);
    }
  }

  lemma PresentGrown(flat: Flat, s: nat, f: File, m: set<nat>, h: Hdr, flat': Flat, m': set<nat>, raw': seq<byte>)
    returns (f': File)
    requires Present(flat, s, f) && GrownInto(f.h, flat, m, h, flat', m') && OthersKept(f.h, flat, s, m, flat')
    requires Stores(h, flat', s, raw') && DecodeHdr(flat'[s]) == h && f.feet <= m && Snug(h)
    ensures f'.h == h && f'.raw == raw' && Present(flat', s, f')
    ensures f.feet <= f'.feet && f'.feet - f.feet !! m && m' == m + f'.feet
    ensures forall k: nat :: k in m && k < NUM_SECTORS && k !in f.feet ==> flat'[k] == flat[k]
  {
    assert Look(0);
    f' := File(h, raw', {s} + Owned(h, flat'));
  }

  // A new header: it refers to sectors that were clear, they are marked, and nothing that
  // was marked has changed.
  ghost predicate NewHeader(m0: set<nat>, flat0: Flat, h: Hdr, flat: Flat, m: set<nat>)
  {
    forall x {:trigger Look(x)} :: Look(x) ==>
      && WellFormed(h, flat) && 0 <= h.numBytes <= h.numSectors * SECTOR_SIZE && Snug(h)
      && Owned(h, flat) !! m0 && m == m0 + Owned(h, flat)
      && forall k: nat :: k in m0 && k < NUM_SECTORS ==> flat[k] == flat0[k]
  }

  // Where the first run of cnt clear sectors starts.
  ghost function FirstFit(m: set<nat>, cnt: nat): nat
  {
    if exists i: nat :: FirstRun(m, NUM_SECTORS, i, cnt) then var i: nat :| FirstRun(m, NUM_SECTORS, i, cnt); i else 0
  }

  lemma FirstFitIs(m: set<nat>, i: nat, cnt: nat)
    requires FirstRun(m, NUM_SECTORS, i, cnt)
    ensures FirstFit(m, cnt) == i
  {
  }

  // What a successful Allocate means on a disk whose sector 0 is taken.
  lemma Handed(m0: set<nat>, flat0: Flat, fileSize: int32, h: Hdr, flat: Flat, m: set<nat>)
    requires 0 in m0 && fileSize >= 0 && AllocateResult(m0, flat0, fileSize, Returned(true), h, flat, m)
    ensures h.numBytes == fileSize && NewHeader(m0, flat0, h, flat, m)
    ensures var total := Total(DivRoundUp(fileSize, SECTOR_SIZE));
            m == m0 + Run(FirstFit(m0, total), total) && m0 !! Run(FirstFit(m0, total), total)
  {
    assert Look(0);
    var total := Total(DivRoundUp(fileSize, SECTOR_SIZE));
    assert ClearRun(m0, NUM_SECTORS, 0, total) ==> total == 0;
    assert Run(0, 0) == {};
    assert Leak(m0, total) == {};
    assert m0 + Leak(m0, total) == m0;
    assert Allocated(m0, {}, flat0, h, flat, m);
    assert forall k :: k in IndexSectors(h) ==> k in multiset(IndexSectors(h));
    assert forall k :: k in IndexSectors(h) ==> k in Owned(h, flat);
    var i: nat :| FirstRun(m0, NUM_SECTORS, i, total) && Owned(h, flat) == Run(i, total);
    FirstFitIs(m0, i, total);
  }

  // When there is a run to be had and enough room beside it, Allocate succeeds.
  lemma Succeeds(m0: set<nat>, flat0: Flat, fileSize: int32, i: nat, r: Outcome<bool>, h: Hdr, flat: Flat, m: set<nat>)
    requires 0 in m0 && 0 <= fileSize <= MAX_FILE_SIZE && AllocateResult(m0, flat0, fileSize, r, h, flat, m)
    requires var n := DivRoundUp(fileSize, SECTOR_SIZE);
             ClearRun(m0, NUM_SECTORS, i, Total(n)) && |m0| + Total(n) + n <= NUM_SECTORS
    ensures r == Returned(true)
  {
    assert Look(0);
    var total := Total(DivRoundUp(fileSize, SECTOR_SIZE));
    assert HasRun(m0, NUM_SECTORS, total);
    assert ClearRun(m0, NUM_SECTORS, 0, total) ==> total == 0;
    assert Run(0, 0) == {};
    assert Leak(m0, total) == {};
  }

  // Allocate on a disk whose sector 0 is taken, as a function of the bitmap and the size.
  ghost function AllocateOutcome(m: set<nat>, fileSize: int32): Outcome<bool>
    requires fileSize >= 0
  {
    var n := DivRoundUp(fileSize, SECTOR_SIZE);
    var run := HasRun(m, NUM_SECTORS, Total(n));
    if Total(n) >= 2 && !run then Halted
    else Returned(fileSize <= MAX_FILE_SIZE && run && |m| + Total(n) + n <= NUM_SECTORS)
  }

  lemma AllocateExact(m0: set<nat>, flat0: Flat, fileSize: int32, r: Outcome<bool>, h: Hdr, flat: Flat, m: set<nat>)
    requires 0 in m0 && fileSize >= 0 && AllocateResult(m0, flat0, fileSize, r, h, flat, m)
    ensures r == AllocateOutcome(m0, fileSize)
    ensures r.Returned? && !r.value ==> flat == flat0
  {
    assert Look(0);
    var total := Total(DivRoundUp(fileSize, SECTOR_SIZE));
    assert ClearRun(m0, NUM_SECTORS, 0, total) ==> total == 0;
    assert Run(0, 0) == {};
    assert Leak(m0, total) == {};
  }

  // The file a new header stands for, once it is in sector s.
  lemma PresentNew(m0: set<nat>, flat0: Flat, s: nat, h: Hdr, flat: Flat, m: set<nat>, flat': Flat) returns (f: File)
    requires NewHeader(m0, flat0, h, flat, m) && s < NUM_SECTORS && s in m0 && DecodeHdr(flat'[s]) == h
    requires forall k: nat :: k in m && k !in m0 && k < NUM_SECTORS ==> flat'[k] == flat[k]
    ensures f.h == h && Present(flat', s, f) && f.feet == {s} + (m - m0) && f.feet * m0 == {s} && m == m0 + f.feet
  {
    assert Look(0);
    RawFrame(h, flat, flat');
    f := File(h, Raw(h, flat'), {s} + Owned(h, flat));
  }
}
