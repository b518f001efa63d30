/** What growing a file does to its bytes and to everybody else's sectors: the pure side of
    OpenFile::WriteAt (code/filesys/openfile.cc:153-210). */
module Writing {
  import opened Outcomes
  import opened Sectors
  import opened BlockMaps
  import opened FileContents
  import opened Growths

  // The bitmap knows about every sector of the file.
  ghost predicate Backed(h: Hdr, flat: Flat, headerSector: nat, m: set<nat>)
  {
    && (forall s :: s in m ==> s < NUM_SECTORS)
    && forall x {:trigger Look(x)} :: Look(x) ==>
         WellFormed(h, flat) && Owned(h, flat) <= m && headerSector in m
  }

  // Sectors that were in use by others are as they were.
  ghost predicate OthersKept(h0: Hdr, flat0: Flat, headerSector: nat, m0: set<nat>, flat: Flat)
  {
    forall x {:trigger Look(x)} :: Look(x) ==>
      && WellFormed(h0, flat0)
      && forall s: nat :: s in m0 && s < NUM_SECTORS && s !in Owned(h0, flat0) && s != headerSector ==> flat[s] == flat0[s]
  }

  // The number of sectors WriteAt asks for.
  function Delta(length: nat, end: nat): int
  {
    DivRoundUp(end, SECTOR_SIZE) - DivRoundUp(length, SECTOR_SIZE)
  }

  lemma EnoughBlocks(h: Hdr, end: nat)
    requires 0 <= h.numBytes <= h.numSectors * SECTOR_SIZE && end > h.numBytes
    ensures 0 <= Delta(h.numBytes, end) && end <= (h.numSectors + Delta(h.numBytes, end)) * SECTOR_SIZE
  {
  }

  lemma RawPrefix(h0: Hdr, flat0: Flat, h: Hdr, flat: Flat)
    requires WellFormed(h0, flat0) && WellFormed(h, flat) && Blocks(h0, flat0) <= Blocks(h, flat)
    requires forall s :: s in Blocks(h0, flat0) ==> OnDisk(s) && flat[s] == flat0[s]
    ensures |Raw(h0, flat0)| <= |Raw(h, flat)| && Raw(h, flat)[..|Raw(h0, flat0)|] == Raw(h0, flat0)
  {
    var r0, r := Raw(h0, flat0), Raw(h, flat);
    forall o: nat | o < |r0| ensures r[o] == r0[o] {
      var b := o / SECTOR_SIZE;
      BlockOnDisk(h0, flat0, b);
      BlockOnDisk(h, flat, b);
      assert Blocks(h, flat)[b] == Blocks(h0, flat0)[b];
      assert Blocks(h0, flat0)[b] in Blocks(h0, flat0);
    }
  }

  // An extension keeps the file's bytes as a prefix, and everything that was marked but
  // not its own.
  lemma ExtendStores(h0: Hdr, flat0: Flat, headerSector: nat, raw: seq<byte>, m0: set<nat>, h: Hdr, flat: Flat, m: set<nat>)
    returns (raw': seq<byte>)
    requires Stores(h0, flat0, headerSector, raw) && Backed(h0, flat0, headerSector, m0)
    requires Extended(h0, flat0, m0, h, flat, m) && 0 <= h.numBytes <= h.numSectors * SECTOR_SIZE
    ensures Stores(h, flat, headerSector, raw') && |raw| <= |raw'| && raw'[..|raw|] == raw
    ensures OthersKept(h0, flat0, headerSector, m0, flat)
    ensures Backed(h, flat, headerSector, m)
  {
    assert Look(0);
    raw' := Raw(h, flat);
    assert IndexSectors(h0) <= IndexSectors(h);
    forall s | s in m0 && s !in IndexSectors(h0) ensures s !in IndexSectors(h) {
      NewIndexUnmarked(h0, flat0, m0, h, flat, m, s);
    }
    ReferencesDiffer(h0, flat0);
    forall s | s in Blocks(h0, flat0) ensures OnDisk(s) && flat[s] == flat0[s] {
      assert s in multiset(Blocks(h0, flat0));
      assert s in Owned(h0, flat0);
    }
    RawPrefix(h0, flat0, h, flat);
  }

  lemma NewIndexUnmarked(h0: Hdr, flat0: Flat, m0: set<nat>, h: Hdr, flat: Flat, m: set<nat>, s: int)
    requires Extended(h0, flat0, m0, h, flat, m) && s in m0 && s !in IndexSectors(h0)
    ensures s !in IndexSectors(h)
  {
    ReferencesDiffer(h, flat);
    assert forall x :: x in Blocks(h0, flat0) ==> x in Blocks(h, flat);
    assert forall x :: x in IndexSectors(h) ==> x in Owned(h, flat);
    assert s in Owned(h0, flat0) ==> s in multiset(Blocks(h0, flat0));
  }

  // After an extension that was not stored in the bitmap, the old bitmap still covers the
  // file exactly when no block was added.
  lemma UnsavedGrowth(h0: Hdr, flat0: Flat, headerSector: nat, m0: set<nat>, h: Hdr, flat: Flat, m: set<nat>)
    requires Backed(h0, flat0, headerSector, m0) && Extended(h0, flat0, m0, h, flat, m)
    ensures Backed(h, flat, headerSector, m0) <==> h.numSectors == h0.numSectors
  {
    assert Look(0);
    if h.numSectors == h0.numSectors {
      assert IndexSectors(h) == IndexSectors(h0);
      assert Blocks(h, flat) == Blocks(h0, flat0);
      assert References(h, flat) == References(h0, flat0);
      assert Owned(h, flat) == Owned(h0, flat0);
    } else {
      var b := h0.numSectors;
      BlockOnDisk(h, flat, b);
      ReferencesDiffer(h, flat);
      var s := Blocks(h, flat)[b];
      assert s !in Blocks(h0, flat0) by {
        assert forall i :: 0 <= i < |Blocks(h0, flat0)| ==> Blocks(h0, flat0)[i] == Blocks(h, flat)[i];
      }
      assert s !in IndexSectors(h0) by { assert forall x :: x in IndexSectors(h0) ==> x in IndexSectors(h); }
      assert s !in Owned(h0, flat0) by {
        assert s !in multiset(Blocks(h0, flat0)) && s !in multiset(IndexSectors(h0));
      }
      assert s !in m0;
    }
  }

  // What WriteAt promises: how many bytes were taken, and what the file holds now.
  datatype Effect = Effect(count: nat, contents: seq<byte>)

  function WriteEffect(c: seq<byte>, position: nat, data: seq<byte>, refused: bool): Effect
  {
    if data == [] || position >= |c| then Effect(0, c)
    else if position + |data| <= |c| then Effect(|data|, Splice(c, position, data))
    else if refused then Effect(|c| - position, Splice(c, position, data[..|c| - position]))
    else Effect(|data|, c[..position] + data)
  }

  // A write past the end asks for more blocks than a header can hold.
  predicate Refused(h: Hdr, end: nat)
    requires h.numBytes >= 0
  {
    end > h.numBytes && h.numSectors + Delta(h.numBytes, end) > MAX_SECTORS
  }

  // The bitmap has room for the blocks a write up to `end` needs.
  ghost predicate Roomy(h: Hdr, m: set<nat>, end: nat)
    requires h.numBytes >= 0 && 0 <= h.numSectors <= MAX_SECTORS
  {
    end > h.numBytes ==>
      |m| + Need(h.numSectors, GrownTo(h.numSectors, Delta(h.numBytes, end))) <= NUM_SECTORS
  }

  // Everything WriteAt promises, in one place.
  ghost predicate WriteResult(h0: Hdr, flat0: Flat, headerSector: nat, m0: set<nat>, raw: seq<byte>,
                              position: nat, data: seq<byte>, count: nat,
                              h: Hdr, flat: Flat, m: set<nat>, raw': seq<byte>)
    requires 0 <= h0.numBytes <= |raw| && 0 <= h.numBytes <= |raw'| && headerSector < NUM_SECTORS && 0 <= h0.numSectors <= MAX_SECTORS
  {
    var refused := Refused(h0, position + |data|);
    var e := WriteEffect(raw[..h0.numBytes], position, data, refused);
    && count == e.count && raw'[..h.numBytes] == e.contents
    && OthersKept(h0, flat0, headerSector, m0, flat)
    && (count > 0 ==> DecodeHdr(flat[headerSector]) == h)
    && (Backed(h, flat, headerSector, m) <==> !(count > 0 && refused && h0.numSectors < MAX_SECTORS))
    && (position + |data| <= h0.numBytes || count == 0 ==> h == h0 && m == m0 && Confined(h0, flat0, flat, headerSector))
    && (count == 0 ==> flat == flat0 && raw' == raw)
    && h.numSectors == (if count > 0 && position + |data| > h0.numBytes then GrownTo(h0.numSectors, Delta(h0.numBytes, position + |data|))
                        else h0.numSectors)
    && (refused ==> m == m0) && (!refused && position + |data| > h0.numBytes && count > 0 ==> h.numBytes == position + |data|)
    && (!refused || h0.numSectors == MAX_SECTORS ==> GrownInto(h0, flat0, m0, h, flat, m))
  }

  // The file kept its sectors and took only clear ones, which are the new marks.
  ghost predicate GrownInto(h0: Hdr, flat0: Flat, m0: set<nat>, h: Hdr, flat: Flat, m: set<nat>)
  {
    forall x {:trigger Look(x)} :: Look(x) ==>
      && WellFormed(h0, flat0) && WellFormed(h, flat) && Owned(h0, flat0) <= Owned(h, flat)
      && Owned(h, flat) - Owned(h0, flat0) !! m0 && m == m0 + Owned(h, flat)
  }

  lemma GrownNot(h: Hdr, flat0: Flat, headerSector: nat, m: set<nat>, flat: Flat)
    requires Backed(h, flat0, headerSector, m) && Confined(h, flat0, flat, headerSector)
    ensures GrownInto(h, flat0, m, h, flat, m)
  {
  }

  lemma GrownExtended(h0: Hdr, flat0: Flat, m0: set<nat>, h: Hdr, flat: Flat, m: set<nat>, flat': Flat, headerSector: nat)
    requires Extended(h0, flat0, m0, h, flat, m) && Confined(h, flat, flat', headerSector)
    ensures GrownInto(h0, flat0, m0, h, flat', m)
  {
    assert Look(0);
    assert forall s :: s in References(h0, flat0) ==> s in References(h, flat) by {
      assert forall s :: s in multiset(Blocks(h0, flat0)) ==> s in multiset(Blocks(h, flat)) by {
        assert forall s :: s in Blocks(h0, flat0) ==> s in Blocks(h, flat);
      }
      assert forall s :: s in multiset(IndexSectors(h0)) ==> s in multiset(IndexSectors(h)) by {
        assert forall s :: s in IndexSectors(h0) ==> s in IndexSectors(h);
      }
    }
  }

  // The same without the marks, when no block was added.
  lemma GrownSame(h0: Hdr, flat0: Flat, headerSector: nat, m0: set<nat>, h: Hdr, flat: Flat, m: set<nat>, flat': Flat)
    requires Extended(h0, flat0, m0, h, flat, m) && Confined(h, flat, flat', headerSector)
    requires Backed(h0, flat0, headerSector, m0) && h.numSectors == h0.numSectors
    ensures GrownInto(h0, flat0, m0, h, flat', m0)
  {
    assert Look(0);
    assert IndexSectors(h) == IndexSectors(h0);
    assert Blocks(h, flat) == Blocks(h0, flat0);
    assert References(h, flat) == References(h0, flat0);
    assert Owned(h, flat) == Owned(h0, flat0);
  }

  lemma WrittenInside(h: Hdr, flat0: Flat, headerSector: nat, m: set<nat>, raw: seq<byte>, position: nat, data: seq<byte>,
                      flat: Flat, raw': seq<byte>)
    requires Stores(h, flat0, headerSector, raw) && Backed(h, flat0, headerSector, m)
    requires data != [] && position + |data| <= h.numBytes <= |raw'|
    requires Confined(h, flat0, flat, headerSector) && DecodeHdr(flat[headerSector]) == h
    requires raw'[..h.numBytes] == Splice(raw[..h.numBytes], position, data)
    ensures WriteResult(h, flat0, headerSector, m, raw, position, data, |data|, h, flat, m, raw')
  {
    OthersConfined(h, flat0, headerSector, m, flat);
    BackedConfined(h, flat0, headerSector, m, flat);
    GrownNot(h, flat0, headerSector, m, flat);
  }

  lemma WrittenNothing(h: Hdr, flat: Flat, headerSector: nat, m: set<nat>, raw: seq<byte>, position: nat, data: seq<byte>)
    requires Stores(h, flat, headerSector, raw) && Backed(h, flat, headerSector, m)
    requires data == [] || position >= h.numBytes
    ensures WriteResult(h, flat, headerSector, m, raw, position, data, 0, h, flat, m, raw)
  {
    ConfinedSame(h, flat, headerSector, raw);
    OthersConfined(h, flat, headerSector, m, flat);
    GrownNot(h, flat, headerSector, m, flat);
  }

  lemma OthersTrans(h0: Hdr, flat0: Flat, headerSector: nat, m0: set<nat>, h: Hdr, flat1: Flat, flat: Flat, m: set<nat>)
    requires OthersKept(h0, flat0, headerSector, m0, flat1) && Confined(h, flat1, flat, headerSector)
    requires Extended(h0, flat0, m0, h, flat1, m)
    ensures OthersKept(h0, flat0, headerSector, m0, flat)
  {
    assert Look(0);
  }

  lemma OthersConfined(h: Hdr, flat0: Flat, headerSector: nat, m0: set<nat>, flat: Flat)
    requires Confined(h, flat0, flat, headerSector)
    ensures OthersKept(h, flat0, headerSector, m0, flat)
  {
  }

  lemma BackedConfined(h: Hdr, flat0: Flat, headerSector: nat, m: set<nat>, flat: Flat)
    requires Backed(h, flat0, headerSector, m) && Confined(h, flat0, flat, headerSector)
    ensures Backed(h, flat, headerSector, m)
  {
  }

  lemma BackedNow(h: Hdr, flat: Flat, headerSector: nat, m: set<nat>)
    requires Backed(h, flat, headerSector, m)
    ensures WellFormed(h, flat) && Owned(h, flat) <= m
  {
    assert Look(0);
  }

  // With room in the bitmap, extendLength returns, and says whether the header had room.
  lemma RoomyExtend(h0: Hdr, flat0: Flat, m0: set<nat>, end: int32, r: Outcome<bool>, h: Hdr, flat: Flat, m: set<nat>)
    requires 0 <= h0.numBytes < end && 0 <= h0.numSectors <= MAX_SECTORS && Roomy(h0, m0, end)
    requires ExtendResult(h0, flat0, m0, end, Delta(h0.numBytes, end), r, h, flat, m)
    ensures r == Returned(!Refused(h0, end))
    ensures h.numSectors == GrownTo(h0.numSectors, Delta(h0.numBytes, end))
    ensures h.numBytes == (if Refused(h0, end) then h0.numBytes else end)
    ensures Extended(h0, flat0, m0, h, flat, m)
  {
  }

  // The pieces of a growing write put together: h, flat and m after the extension, flat' and m'
  // after the data was written.
  lemma GrowthWritten(h0: Hdr, flat0: Flat, headerSector: nat, m0: set<nat>, raw: seq<byte>, position: nat, data: seq<byte>, count: nat,
                      h: Hdr, flat: Flat, m: set<nat>, raw1: seq<byte>, flat': Flat, m': set<nat>, raw': seq<byte>)
    requires Stores(h0, flat0, headerSector, raw) && Backed(h0, flat0, headerSector, m0)
    requires position < h0.numBytes < position + |data| < 0x8000_0000
    requires var ok := !Refused(h0, position + |data|);
             && h.numSectors == GrownTo(h0.numSectors, Delta(h0.numBytes, position + |data|))
             && h.numBytes == (if ok then position + |data| else h0.numBytes)
             && count == (if ok then |data| else h0.numBytes - position)
             && m' == (if ok then m else m0)
    requires Extended(h0, flat0, m0, h, flat, m) && OthersKept(h0, flat0, headerSector, m0, flat)
    requires Backed(h, flat, headerSector, m) && Confined(h, flat, flat', headerSector)
    requires |raw| <= |raw1| && raw1[..|raw|] == raw && h.numBytes <= |raw1| && h.numBytes <= |raw'|
    requires raw'[..h.numBytes] == Splice(raw1[..h.numBytes], position, data[..count])
    requires DecodeHdr(flat'[headerSector]) == h
    ensures WriteResult(h0, flat0, headerSector, m0, raw, position, data, count, h, flat', m', raw')
  {
    hide Confined;
    hide OthersKept;
    hide Extended;
    hide Backed;
    hide GrownInto;
    hide Splice;
    OthersTrans(h0, flat0, headerSector, m0, h, flat, flat', m);
    BackedConfined(h, flat, headerSector, m, flat');
    UnsavedGrowth(h0, flat0, headerSector, m0, h, flat, m);
    BackedEither(h, flat, headerSector, m0, flat');
    GrownExtended(h0, flat0, m0, h, flat, m, flat', headerSector);
    if h0.numSectors == MAX_SECTORS { GrownSame(h0, flat0, headerSector, m0, h, flat, m, flat'); }
    EnoughBlocks(h0, position + |data|);
    GrownContents(raw, raw1, h0.numBytes, position, data, Refused(h0, position + |data|));
  }

  // On bytes: splicing into the grown file is appending to what came before the position.
  lemma GrownContents(raw: seq<byte>, raw1: seq<byte>, len: nat, position: nat, data: seq<byte>, refused: bool)
    requires len <= |raw| <= |raw1| && raw1[..|raw|] == raw && position < len < position + |data|
    requires !refused ==> position + |data| <= |raw1|
    ensures WriteEffect(raw[..len], position, data, refused).contents
         == if refused then Splice(raw1[..len], position, data[..len - position])
            else Splice(raw1[..position + |data|], position, data[..|data|])
  {
    assert raw1[..len] == raw[..len] by { assert raw1[..len] == raw1[..|raw|][..len]; }
    if !refused {
      assert data[..|data|] == data;
      assert raw1[..position + |data|][..position] == raw1[..len][..position];
    }
  }

  lemma BackedEither(h: Hdr, flat0: Flat, headerSector: nat, m: set<nat>, flat: Flat)
    requires Confined(h, flat0, flat, headerSector)
    ensures Backed(h, flat0, headerSector, m) <==> Backed(h, flat, headerSector, m)
  {
    assert Look(0);
  }
}
