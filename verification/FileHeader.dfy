/** code/filesys/filehdr.cc: allocating, extending, translating and releasing the sectors
    of a file, on the bitmap and the cached disk.  Time stamps are not modelled. */
module FileHeaders {
  import opened Outcomes
  import opened Sectors
  import opened BitMaps
  import opened SynchDisks
  import opened BlockMaps
  import opened FileContents
  import opened Growths

  // The sector image of a header, with whatever time stamps it carries.
  method Image(h: Hdr) returns (image: Sector)
    requires |h.dataSectors| == SLOTS
    ensures DecodeHdr(image) == h
  {
    var stamps := new int32[STAMP_WORDS];
    image := EncodeHdr(stamps[..], h);
  }

  class FileHeader {
    var numBytes: int32
    var numSectors: int32
    const dataSectors: array<int32>

    ghost predicate Valid() { dataSectors.Length == SLOTS }

    ghost function Value(): Hdr
      reads this, dataSectors
    {
      Hdr(numBytes, numSectors, dataSectors[..])
    }

    constructor ()
      ensures Valid() && fresh(dataSectors)
    {
      numBytes, numSectors := 0, 0;
      dataSectors := new int32[SLOTS];
    }

    method FetchFrom(sector: nat, disk: SynchDisk)
      requires Valid() && disk.Valid() && sector < NUM_SECTORS
      modifies this, dataSectors, disk.table, disk.raw, disk`now
      ensures disk.Valid() && Value() == DecodeHdr(disk.flat[sector])
    {
      var image := disk.ReadSector(sector);
      var h := DecodeHdr(image);
      numBytes, numSectors := h.numBytes, h.numSectors;
      forall i | 0 <= i < SLOTS { dataSectors[i] := h.dataSectors[i]; }
      assert dataSectors[..] == h.dataSectors;
    }

    method WriteBack(sector: nat, disk: SynchDisk)
      requires Valid() && disk.Valid() && sector < NUM_SECTORS
      modifies disk, disk.table, disk.raw
      ensures disk.Valid() && DecodeHdr(disk.flat[sector]) == Value()
      ensures disk.flat == old(disk.flat)[sector := disk.flat[sector]]
    {
      var image := Image(Hdr(numBytes, numSectors, dataSectors[..]));
      disk.WriteSector(sector, image);
    }

    method ByteToSector(offset: nat, disk: SynchDisk) returns (sector: int)
      requires Valid() && disk.Valid()
      requires Readable(Value()) && offset / SECTOR_SIZE < numSectors
      modifies disk.table, disk.raw, disk`now
      ensures disk.Valid()
      ensures sector == BlockSector(Value(), disk.flat, offset / SECTOR_SIZE)
    {
      var sectorOffset := offset / SECTOR_SIZE;
      if sectorOffset < NUM_DIRECT {
        sector := dataSectors[offset / SECTOR_SIZE];
      } else {
        var sectorsLeft := sectorOffset - NUM_DIRECT;
        var secondIndex := sectorsLeft / SECOND_DIRECT;
        var sectors := disk.ReadSector(dataSectors[NUM_DIRECT + secondIndex]);
        var indexOffset := sectorOffset - NUM_DIRECT - secondIndex * SECOND_DIRECT;
        sector := WordsOf(sectors)[indexOffset];
      }
    }

    // The inner loops of extendLength: fill sectors[from..] from the bitmap until the
    // index block is full or enough sectors have been handed out.
    method FillSlots(sectors: array<int32>, from: nat, sectorNum: int, bm: BitMap) returns (left: int)
      requires sectors.Length == SECOND_DIRECT && from < SECOND_DIRECT && sectorNum > 0
      requires bm.Valid() && bm.numBits == NUM_SECTORS && 0 <= numSectors <= MAX_SECTORS
      modifies sectors, bm, bm.bits, this`numSectors
      ensures bm.Valid()
      ensures var k := Min(SECOND_DIRECT - from, sectorNum);
              && left == sectorNum - k
              && numSectors == old(numSectors) + k
              && sectors[..from] == old(sectors[..from])
              && Finds(old(bm.marked), sectors[..][from..from + k], bm.marked)
    {
      var j := from;
      left := sectorNum;
      while j < SECOND_DIRECT && left > 0
        invariant from <= j <= SECOND_DIRECT && left == sectorNum - (j - from) >= 0
        invariant numSectors == old(numSectors) + (j - from)
        invariant sectors[..from] == old(sectors[..from])
        invariant bm.Valid() && Finds(old(bm.marked), sectors[from..j], bm.marked)
      {
        ghost var filled := sectors[from..j];
        var s := bm.Find();
        sectors[j] := s;
        assert sectors[from..j + 1][..j - from] == filled;
        numSectors := numSectors + 1;
        left := left - 1;
        j := j + 1;
      }
      assert sectors[..][from..j] == sectors[from..j];
    }

    // The direct slots still free are used first.
    method ExtendDirect(sectorNum: int, bm: BitMap, disk: SynchDisk, ghost g: Growth)
      returns (left: int, ghost g': Growth)
      requires Valid() && bm.Valid() && bm.numBits == NUM_SECTORS
      requires Tracks(g, Value(), disk.flat, bm.marked)
      modifies this`numSectors, dataSectors, bm, bm.bits
      ensures bm.Valid()
      ensures SameStart(g, g') && g'.index == g.index
      ensures Tracks(g', Value(), disk.flat, bm.marked)
      ensures var k := Max(0, Min(NUM_DIRECT - old(numSectors), sectorNum));
              left == sectorNum - k && numSectors == old(numSectors) + k
    {
      left, g' := sectorNum, g;
      if numSectors < NUM_DIRECT && sectorNum > 0 {
        var i := numSectors;
        while i < NUM_DIRECT && left > 0
          invariant old(numSectors) <= i == numSectors <= NUM_DIRECT
          invariant left == sectorNum - (i - old(numSectors)) >= 0
          invariant bm.Valid()
          invariant SameStart(g, g') && g'.index == g.index
          invariant Tracks(g', Value(), disk.flat, bm.marked)
        {
          ghost var h, m := Value(), bm.marked;
          var s := bm.Find();
          dataSectors[i] := s;
          numSectors := numSectors + 1;
          TracksDirect(g', h, disk.flat, m, s, bm.marked);
          assert Value() == WithDirect(h, s);
          g' := Continued(g', [s]);
          left := left - 1;
          i := i + 1;
        }
      }
    }

    method TakeIndexSector(q: nat, bm: BitMap) returns (s: int32)
      requires Valid() && bm.Valid() && bm.numBits == NUM_SECTORS && q < NUM_SECOND_INDEX
      modifies dataSectors, bm, bm.bits
      ensures bm.Valid() && Finds(old(bm.marked), [s], bm.marked)
      ensures s == -1 || (OnDisk(s) && s !in old(bm.marked))
      ensures dataSectors[..] == old(dataSectors[..])[NUM_DIRECT + q := s]
    {
      ghost var m := bm.marked;
      s := bm.Find();
      assert Found(m, s, bm.marked) && FoundAll(m, []) && [s][..0] == [];
      dataSectors[NUM_DIRECT + q] := s;
    }

    // A new index block is opened and filled from its start; s is where it went and ws
    // what was written there.
    method OpenIndexBlock(q: nat, sectorNum: int, bm: BitMap, disk: SynchDisk)
      returns (r: Outcome<int>, ghost s: int32, ghost ws: seq<int32>, ghost m: set<nat>)
      requires Valid() && bm.Valid() && bm.numBits == NUM_SECTORS && disk.Valid()
      requires sectorNum > 0 && q < NUM_SECOND_INDEX && 0 <= numSectors <= MAX_SECTORS
      modifies this`numSectors, dataSectors, bm, bm.bits, disk, disk.table, disk.raw
      ensures bm.Valid() && disk.Valid() && |ws| == SECOND_DIRECT
      ensures var k := Min(SECOND_DIRECT, sectorNum);
              && numSectors == old(numSectors) + k
              && Finds(old(bm.marked), [s], m) && Finds(m, ws[0..k], bm.marked)
              && (r.Returned? ==> r.value == sectorNum - k)
      ensures dataSectors[..] == old(dataSectors[..])[NUM_DIRECT + q := s]
      ensures r.Halted? <==> s == -1
      ensures r.Returned? ==> OnDisk(s) && s !in old(bm.marked) && disk.flat == old(disk.flat)[s := SectorOf(ws)]
    {
      var sector := TakeIndexSector(q, bm);
      m := bm.marked;
      var sectors := new int32[SECOND_DIRECT];
      var left := FillSlots(sectors, 0, sectorNum, bm);
      s, ws := sector, sectors[..];
      if sector == -1 {
        return Halted, s, ws, m;     // the disk refuses to write sector -1
      }
      disk.WriteSector(sector, SectorOf(sectors[..]));
      r := Returned(left);
    }

    method LoadIndexBlock(q: nat, disk: SynchDisk) returns (sectors: array<int32>)
      requires Valid() && disk.Valid() && q < NUM_SECOND_INDEX && OnDisk(dataSectors[NUM_DIRECT + q])
      modifies disk.table, disk.raw, disk`now
      ensures disk.Valid() && fresh(sectors) && sectors.Length == SECOND_DIRECT
      ensures sectors[..] == WordsOf(disk.flat[dataSectors[NUM_DIRECT + q]])
    {
      var block := disk.ReadSector(dataSectors[NUM_DIRECT + q]);
      sectors := new int32[SECOND_DIRECT](i requires 0 <= i < SECOND_DIRECT => WordsOf(block)[i]);
    }

    // A half-full index block is read back, filled up and written again.
    method ContinueIndexBlock(q: nat, index: nat, sectorNum: int, bm: BitMap, disk: SynchDisk)
      returns (left: int, ghost ws: seq<int32>)
      requires Valid() && bm.Valid() && bm.numBits == NUM_SECTORS && disk.Valid()
      requires sectorNum > 0 && q < NUM_SECOND_INDEX && OnDisk(dataSectors[NUM_DIRECT + q])
      requires 0 < index < SECOND_DIRECT && 0 <= numSectors <= MAX_SECTORS
      modifies this`numSectors, bm, bm.bits, disk, disk.table, disk.raw
      ensures bm.Valid() && disk.Valid() && |ws| == SECOND_DIRECT
      ensures var k := Min(SECOND_DIRECT - index, sectorNum);
              && left == sectorNum - k
              && numSectors == old(numSectors) + k
              && Finds(old(bm.marked), ws[index..index + k], bm.marked)
      ensures ws[..index] == WordsOf(old(disk.flat)[dataSectors[NUM_DIRECT + q]])[..index]
      ensures disk.flat == old(disk.flat)[dataSectors[NUM_DIRECT + q] := SectorOf(ws)]
    {
      var sectors := LoadIndexBlock(q, disk);
      ghost var loaded := sectors[..];
      left := FillSlots(sectors, index, sectorNum, bm);
      ws := sectors[..];
      assert ws[..index] == sectors[..index] == loaded[..index];
      disk.WriteSector(dataSectors[NUM_DIRECT + q], SectorOf(sectors[..]));
    }

    // The loop over index blocks opens one ...
    method GrowOpening(q: nat, sectorNum: int, bm: BitMap, disk: SynchDisk, ghost g: Growth)
      returns (r: Outcome<int>, ghost g': Growth)
      requires Valid() && bm.Valid() && bm.numBits == NUM_SECTORS && disk.Valid()
      requires sectorNum > 0 && q < NUM_SECOND_INDEX && numSectors == NUM_DIRECT + q * SECOND_DIRECT
      requires Tracks(g, Value(), disk.flat, bm.marked)
      modifies this`numSectors, dataSectors, bm, bm.bits, disk, disk.table, disk.raw
      ensures bm.Valid() && disk.Valid()
      ensures SameStart(g, g')
      ensures var k := Min(SECOND_DIRECT, sectorNum);
              && numSectors == old(numSectors) + k
              && (r.Returned? ==> r.value == sectorNum - k)
      ensures r.Returned? ==> Tracks(g', Value(), disk.flat, bm.marked) && !Starves(g.m0, g.h0.numSectors, numSectors)
      ensures r.Halted? ==> Starves(g.m0, g.h0.numSectors, GrownTo(old(numSectors), sectorNum))
    {
      hide Starves;
      hide Finds;
      ghost var h, flat, m := Value(), disk.flat, bm.marked;
      ghost var k := Min(SECOND_DIRECT, sectorNum);
      ghost var s, ws, m1;
      r, s, ws, m1 := OpenIndexBlock(q, sectorNum, bm, disk);
      g' := Opened(g, s, ws[0..k]);
      if r.Halted? {
        TracksShort(g, h, flat, m, q, m1, k, ws[0..k], bm.marked, GrownTo(h.numSectors, sectorNum));
        return;
      }
      TracksRoom(g, h, flat, m, s);
      StarvedNot(g.m0, g.h0.numSectors, q, h.numSectors, k);
      TracksOpen(g, h, flat, m, q, s, m1, k, ws, bm.marked);
      assert Value() == WithIndex(h, q, s, k);
    }

    // ... or goes on with a half-full one.
    method GrowContinuing(q: nat, sectorNum: int, bm: BitMap, disk: SynchDisk, ghost g: Growth)
      returns (left: int, ghost g': Growth)
      requires Valid() && bm.Valid() && bm.numBits == NUM_SECTORS && disk.Valid()
      requires sectorNum > 0 && q < NUM_SECOND_INDEX
      requires NUM_DIRECT + q * SECOND_DIRECT < numSectors < NUM_DIRECT + (q + 1) * SECOND_DIRECT
      requires Tracks(g, Value(), disk.flat, bm.marked) && g.index == []
      modifies this`numSectors, bm, bm.bits, disk, disk.table, disk.raw
      ensures bm.Valid() && disk.Valid()
      ensures SameStart(g, g') && g'.index == g.index
      ensures var k := Min(NUM_DIRECT + (q + 1) * SECOND_DIRECT - old(numSectors), sectorNum);
              numSectors == old(numSectors) + k && left == sectorNum - k
      ensures Tracks(g', Value(), disk.flat, bm.marked)
    {
      hide Finds;
      hide Tracks;
      hide SectorOf;
      hide WordsOf;
      ghost var h, flat, m := Value(), disk.flat, bm.marked;
      SlotAt(numSectors, q);
      var from := (numSectors - NUM_DIRECT) % SECOND_DIRECT;
      ghost var k := Min(SECOND_DIRECT - from, sectorNum);
      TracksHalfFull(g, h, flat, m, q, from);
      ghost var ws;
      left, ws := ContinueIndexBlock(q, from, sectorNum, bm, disk);
      g' := Continued(g, ws[from..from + k]);
      TracksContinue(g, h, flat, m, q, from, k, ws, bm.marked);
      assert Value() == h.(numSectors := h.numSectors + k);
    }

    // The whole loop: index blocks are filled until sectorNum sectors were added or the
    // header is full.  It halts only when the bitmap had too few clear bits.
    method ExtendIndexed(sectorNum: int, bm: BitMap, disk: SynchDisk, ghost g: Growth)
      returns (r: Outcome<int>, ghost g': Growth)
      requires Valid() && bm.Valid() && bm.numBits == NUM_SECTORS && disk.Valid()
      requires Tracks(g, Value(), disk.flat, bm.marked) && g.index == []
      requires (sectorNum > 0 ==> numSectors >= NUM_DIRECT) && !Starves(g.m0, g.h0.numSectors, numSectors)
      modifies this`numSectors, dataSectors, bm, bm.bits, disk, disk.table, disk.raw
      ensures bm.Valid() && disk.Valid()
      ensures SameStart(g, g')
      ensures r.Returned? ==>
                && Tracks(g', Value(), disk.flat, bm.marked)
                && numSectors == GrownTo(old(numSectors), sectorNum)
                && (r.value <= 0 <==> old(numSectors) + sectorNum <= MAX_SECTORS)
                && !Starves(g.m0, g.h0.numSectors, numSectors)
      ensures r.Halted? ==> Starves(g.m0, g.h0.numSectors, GrownTo(old(numSectors), sectorNum))
    {
      var left := sectorNum;
      g' := g;
      for i := 0 to NUM_SECOND_INDEX
        invariant bm.Valid() && disk.Valid()
        invariant Tracks(g', Value(), disk.flat, bm.marked)
        invariant SameStart(g, g')
        invariant old(numSectors) <= numSectors && numSectors - old(numSectors) == sectorNum - left
        invariant if sectorNum > 0 then left >= 0 else left == sectorNum
        invariant left > 0 ==> numSectors >= NUM_DIRECT + i * SECOND_DIRECT
        invariant left > 0 ==> g'.index == [] || numSectors == NUM_DIRECT + i * SECOND_DIRECT
        invariant !Starves(g.m0, g.h0.numSectors, numSectors)
      {
        if left <= 0 { break; }
        if numSectors == NUM_DIRECT + i * SECOND_DIRECT {
          var step;
          step, g' := GrowOpening(i, left, bm, disk, g');
          if step.Halted? {
            return Halted, g';
          }
          left := step.value;
        } else if numSectors < NUM_DIRECT + (i + 1) * SECOND_DIRECT {
          ghost var n := numSectors;
          left, g' := GrowContinuing(i, left, bm, disk, g');
          IndexCountAt(n, i, n - NUM_DIRECT - i * SECOND_DIRECT);
          IndexCountAt(numSectors, i, numSectors - NUM_DIRECT - i * SECOND_DIRECT);
          StarvedStill(g.m0, g.h0.numSectors, n, numSectors);
        }
      }
      r := Returned(left);
    }

    // Grows the file by sectorNum sectors and, when all could be added, sets its length.
    method ExtendLength(newNumBytes: int32, sectorNum: int, bm: BitMap, disk: SynchDisk) returns (r: Outcome<bool>)
      requires Valid() && bm.Valid() && bm.numBits == NUM_SECTORS && disk.Valid()
      requires WellFormed(Value(), disk.flat) && Owned(Value(), disk.flat) <= bm.marked
      modifies this, dataSectors, bm, bm.bits, disk, disk.table, disk.raw
      ensures bm.Valid() && disk.Valid()
      ensures ExtendResult(old(Value()), old(disk.flat), old(bm.marked), newNumBytes, sectorNum,
                           r, Value(), disk.flat, bm.marked)
    {
      ghost var g := Growth(Value(), disk.flat, bm.marked, [], [], []);
      TracksStart(Value(), disk.flat, bm.marked);
      var left;
      left, g := ExtendDirect(sectorNum, bm, disk, g);
      var step;
      step, g := ExtendIndexed(left, bm, disk, g);
      if step.Halted? { return Halted; }
      ExtendDone(g, Value(), disk.flat, bm.marked, newNumBytes, sectorNum, step.value <= 0);
      if step.value <= 0 {
        numBytes := newNumBytes;
        return Returned(true);
      } else {
        return Returned(false);
      }
    }

    // One more Find.
    static method TakeFirst(bm: BitMap, ghost m0: set<nat>, ghost k: nat) returns (s: int32)
      requires bm.Valid() && bm.numBits == NUM_SECTORS && bm.marked == Gains(m0, k)
      modifies bm, bm.bits
      ensures bm.Valid() && bm.marked == Gains(m0, k + 1) && Firsts(m0, k + 1) == Firsts(m0, k) + [s]
    {
      hide Gains;
      hide Firsts;
      s := bm.Find();
      GainsNext(m0, k, s, bm.marked);
    }

    // The next direct slot gets the sector that Find returns.
    method TakeSlot(bm: BitMap, ghost h: Hdr, ghost m0: set<nat>, ghost k: nat)
      requires Valid() && bm.Valid() && bm.numBits == NUM_SECTORS && |h.dataSectors| == SLOTS && 0 <= h.numSectors && h.numSectors + k < NUM_DIRECT
      requires bm.marked == Gains(m0, k) && Value() == Outgrown(h, m0, k, numBytes)
      modifies this`numSectors, dataSectors, bm, bm.bits
      ensures bm.Valid() && bm.marked == Gains(m0, k + 1) && Value() == Outgrown(h, m0, k + 1, numBytes)
      ensures numSectors == old(numSectors) + 1
    {
      hide Gains;
      hide Firsts;
      hide Filled;
      ghost var before := dataSectors[..];
      var s := TakeFirst(bm, m0, k);
      FilledNext(h.dataSectors, h.numSectors, Firsts(m0, k), s);
      dataSectors[numSectors] := s;
      assert dataSectors[..] == before[numSectors := s];
      numSectors := numSectors + 1;
    }

    // The direct slots of a header that may be anything.
    method StrayDirect(sectorNum: nat, bm: BitMap) returns (left: nat)
      requires Valid() && bm.Valid() && bm.numBits == NUM_SECTORS && 0 <= numSectors < NUM_DIRECT && sectorNum > 0
      modifies this`numSectors, dataSectors, bm, bm.bits
      ensures bm.Valid() && left == Max(0, old(numSectors) + sectorNum - NUM_DIRECT)
      ensures bm.marked == Gains(old(bm.marked), sectorNum - left)
      ensures Value() == Outgrown(old(Value()), old(bm.marked), sectorNum - left, numBytes)
    {
      hide Gains;
      hide Firsts;
      hide Outgrown;
      hide Encodes;
      hide DivRoundUp;
      ghost var h, m0, k := Value(), bm.marked, 0;
      OutgrownNone(h, m0);
      left := sectorNum;
      while numSectors < NUM_DIRECT && left > 0
        invariant numSectors == h.numSectors + k <= NUM_DIRECT && left + k == sectorNum
        invariant bm.Valid() && bm.marked == Gains(m0, k) && Value() == Outgrown(h, m0, k, numBytes)
      {
        TakeSlot(bm, h, m0, k);
        left, k := left - 1, k + 1;
      }
    }

    // One round of the loop over index blocks.
    method StrayRound(i: nat, sectorNum: nat, left: nat, bm: BitMap, disk: SynchDisk, ghost h0: Hdr, ghost flat0: Flat, ghost m0: set<nat>)
      returns (r: Outcome<int>)
      requires Valid() && bm.Valid() && bm.numBits == NUM_SECTORS && disk.Valid() && i < NUM_SECOND_INDEX && left > 0
      requires StrayLoop(h0, flat0, m0, sectorNum, i, left, Value(), disk.flat, bm.marked) && sectorNum < NUM_DIRECT
      modifies this`numSectors, dataSectors, bm, bm.bits, disk, disk.table, disk.raw
      ensures bm.Valid() && disk.Valid()
      ensures r.Returned? ==> StrayLoop(h0, flat0, m0, sectorNum, i + 1, r.value, Value(), disk.flat, bm.marked)
      ensures r.Halted? ==> StrayHalts(h0, sectorNum)
    {
      hide Finds;
      hide StrayLoop;
      ghost var h, flat, m := Value(), disk.flat, bm.marked;
      StrayBounds(h0, flat0, m0, sectorNum, i, left, h, flat, m);
      r := Returned(left);
      if numSectors == NUM_DIRECT + i * SECOND_DIRECT {
        ghost var s, ws, m1;
        r, s, ws, m1 := OpenIndexBlock(i, left, bm, disk);
        StrayOpened(h0, flat0, m0, sectorNum, i, left, h, flat, m, s, m1, ws, Value(), disk.flat, bm.marked);
      } else if NUM_DIRECT + i * SECOND_DIRECT < numSectors < NUM_DIRECT + (i + 1) * SECOND_DIRECT {
        if !OnDisk(dataSectors[NUM_DIRECT + i]) {
          StrayOff(h0, flat0, m0, sectorNum, i, left, h, flat, m);
          return Halted;
        }
        SlotAt(numSectors, i);
        var index := (numSectors - NUM_DIRECT) % SECOND_DIRECT;
        var rest;
        ghost var ws;
        rest, ws := ContinueIndexBlock(i, index, left, bm, disk);
        r := Returned(rest);
        StrayContinued(h0, flat0, m0, sectorNum, i, left, h, flat, m, index, ws, Value(), disk.flat, bm.marked);
      } else {
        StraySkipped(h0, flat0, m0, sectorNum, i, left, h, flat, m);
      }
    }

    // extendLength by a few blocks, on a header that may be anything: it may refer to sectors
    // that are not on the disk, or to those of others.
    method ExtendStray(newNumBytes: int32, sectorNum: nat, bm: BitMap, disk: SynchDisk) returns (r: Outcome<bool>)
      requires Valid() && bm.Valid() && bm.numBits == NUM_SECTORS && disk.Valid() && sectorNum < NUM_DIRECT
      modifies this, dataSectors, bm, bm.bits, disk, disk.table, disk.raw
      ensures bm.Valid() && disk.Valid()
      ensures StrayGrowth(old(Value()), old(disk.flat), old(bm.marked), newNumBytes, sectorNum, r, Value(), disk.flat, bm.marked)
    {
      ghost var h0, flat0, m0 := Value(), disk.flat, bm.marked;
      var left := sectorNum;
      if numSectors < NUM_DIRECT && sectorNum > 0 {
        if numSectors < 0 { return Halted; }
        left := StrayDirect(sectorNum, bm);
        OutgrownBytes(h0, m0, sectorNum - left, numBytes, newNumBytes);
        GainsMore(m0, sectorNum - left);
      }
      hide More;
      hide Gains;
      hide Firsts;
      hide Outgrown;
      ghost var h1, m1, done := Value(), bm.marked, left == 0;
      for i := 0 to NUM_SECOND_INDEX
        invariant bm.Valid() && disk.Valid()
        invariant done ==> left == 0 && Value() == h1 && disk.flat == flat0 && bm.marked == m1
        invariant StrayLoop(h0, flat0, m0, sectorNum, i, left, Value(), disk.flat, bm.marked)
      {
        if left <= 0 { break; }
        var step := StrayRound(i, sectorNum, left, bm, disk, h0, flat0, m0);
        if step.Halted? { return Halted; }
        left := step.value;
      }
      if left <= 0 {
        numBytes := newNumBytes;
        return Returned(true);
      }
      return Returned(false);
    }

    // The next sector, from the reserved run or from the bitmap.
    static method TakeNext(conse: bool, beg: int, bm: BitMap, ghost first: int, ghost total: nat, ghost m0: set<nat>, ghost v: set<nat>)
      returns (s: int32, beg': int, ghost v': set<nat>)
      requires bm.Valid() && bm.numBits == NUM_SECTORS
      requires Supply(conse, first, beg, total, m0, v, bm.marked) && (conse ==> beg < first + total)
      modifies bm, bm.bits
      ensures bm.Valid() && Supply(conse, first, beg', total, m0, v', bm.marked)
      ensures Found(v, s, v') && (conse ==> beg' == beg + 1)
    {
      if conse {
        SupplyNext(first, beg, total, m0, v, bm.marked);
        s, beg', v' := beg, beg + 1, v + {beg};
      } else {
        s := bm.Find();
        beg', v' := beg, bm.marked;
      }
    }

    // The first num1 entries of an index block.
    static method TakeEntries(sectors: array<int32>, num1: nat, conse: bool, beg: int, bm: BitMap,
                              ghost first: int, ghost total: nat, ghost m0: set<nat>, ghost v: set<nat>)
      returns (beg': int, ghost v': set<nat>)
      requires sectors.Length == SECOND_DIRECT && num1 <= SECOND_DIRECT
      requires bm.Valid() && bm.numBits == NUM_SECTORS
      requires Supply(conse, first, beg, total, m0, v, bm.marked) && (conse ==> beg + num1 <= first + total)
      modifies sectors, bm, bm.bits
      ensures bm.Valid() && Supply(conse, first, beg', total, m0, v', bm.marked)
      ensures Finds(v, sectors[..][0..num1], v') && (conse ==> beg' == beg + num1)
    {
      beg', v' := beg, v;
      for j := 0 to num1
        invariant bm.Valid() && Supply(conse, first, beg', total, m0, v', bm.marked)
        invariant Finds(v, sectors[0..j], v') && (conse ==> beg' == beg + j)
      {
        ghost var filled := sectors[0..j];
        var s;
        s, beg', v' := TakeNext(conse, beg', bm, first, total, m0, v');
        sectors[j] := s;
        assert sectors[0..j + 1][..j] == filled;
      }
      assert sectors[..][0..num1] == sectors[0..num1];
    }

    // Direct slots of a new file.
    method AllocateDirect(n: nat, conse: bool, beg: int, bm: BitMap, ghost first: int, ghost total: nat,
                          ghost m0: set<nat>, ghost v: set<nat>, ghost g: Growth, ghost flat: Flat)
      returns (beg': int, ghost v': set<nat>, ghost g': Growth)
      requires Valid() && bm.Valid() && bm.numBits == NUM_SECTORS
      requires Supply(conse, first, beg, total, m0, v, bm.marked) && (conse ==> beg + n <= first + total)
      requires n <= NUM_DIRECT && Tracks(g, Value().(numSectors := 0), flat, v)
      modifies dataSectors, bm, bm.bits
      ensures bm.Valid() && Supply(conse, first, beg', total, m0, v', bm.marked) && (conse ==> beg' == beg + n)
      ensures SameStart(g, g') && g'.index == g.index
      ensures Tracks(g', Value().(numSectors := n), flat, v')
    {
      hide Supply;
      hide Tracks;
      beg', v', g' := beg, v, g;
      for i := 0 to n
        invariant bm.Valid() && Supply(conse, first, beg', total, m0, v', bm.marked) && (conse ==> beg' == beg + i)
        invariant SameStart(g, g') && g'.index == g.index
        invariant Tracks(g', Value().(numSectors := i), flat, v')
      {
        ghost var h, v1 := Value().(numSectors := i), v';
        var s;
        s, beg', v' := TakeNext(conse, beg', bm, first, total, m0, v');
        dataSectors[i] := s;
        TracksDirect(g', h, flat, v1, s, v');
        assert Value().(numSectors := i + 1) == WithDirect(h, s);
        g' := Continued(g', [s]);
      }
    }

    // One index block of a new file, with its num1 entries.
    method AllocateIndexBlock(q: nat, num1: nat, conse: bool, beg: int, bm: BitMap, disk: SynchDisk,
                              ghost first: int, ghost total: nat, ghost m0: set<nat>, ghost v: set<nat>)
      returns (r: Outcome<int>, ghost s: int32, ghost v1: set<nat>, ghost ws: seq<int32>, ghost v': set<nat>)
      requires Valid() && bm.Valid() && bm.numBits == NUM_SECTORS && disk.Valid()
      requires q < NUM_SECOND_INDEX && 0 < num1 <= SECOND_DIRECT
      requires Supply(conse, first, beg, total, m0, v, bm.marked) && (conse ==> beg + 1 + num1 <= first + total)
      modifies dataSectors, bm, bm.bits, disk, disk.table, disk.raw
      ensures bm.Valid() && disk.Valid() && |ws| == SECOND_DIRECT
      ensures Finds(v, [s], v1) && Finds(v1, ws[0..num1], v')
      ensures dataSectors[..] == old(dataSectors[..])[NUM_DIRECT + q := s]
      ensures r.Halted? <==> s == -1
      ensures r.Returned? ==>
                && OnDisk(s) && s !in v && disk.flat == old(disk.flat)[s := SectorOf(ws)]
                && Supply(conse, first, r.value, total, m0, v', bm.marked)
                && (conse ==> r.value == beg + 1 + num1)
    {
      var sector, beg';
      sector, beg', v1 := TakeNext(conse, beg, bm, first, total, m0, v);
      FoundOne(v, sector, v1);
      dataSectors[NUM_DIRECT + q] := sector;
      var sectors := new int32[SECOND_DIRECT];
      beg', v' := TakeEntries(sectors, num1, conse, beg', bm, first, total, m0, v1);
      s, ws := sector, sectors[..];
      if sector == -1 {
        return Halted, s, v1, ws, v';   // the disk refuses to write sector -1
      }
      disk.WriteSector(sector, SectorOf(sectors[..]));
      r := Returned(beg');
    }

    // One round of the loop over index blocks; `done` blocks were stored before.
    method AllocateRound(done: nat, i: nat, num1: nat, n: nat, conse: bool, beg: int, bm: BitMap, disk: SynchDisk,
                         ghost first: int, ghost m0: set<nat>, ghost v: set<nat>, ghost g: Growth)
      returns (r: Outcome<int>, ghost v': set<nat>, ghost g': Growth)
      requires Valid() && bm.Valid() && bm.numBits == NUM_SECTORS && disk.Valid()
      requires done == NUM_DIRECT + i * SECOND_DIRECT && 0 < num1 <= SECOND_DIRECT && done + num1 <= n <= MAX_SECTORS
      requires Supply(conse, first, beg, Total(n), m0, v, bm.marked) && (conse ==> beg == first + Total(done))
      requires g.h0.numSectors == 0 && Tracks(g, Value().(numSectors := done), disk.flat, v)
      modifies dataSectors, bm, bm.bits, disk, disk.table, disk.raw
      ensures bm.Valid() && disk.Valid()
      ensures SameStart(g, g')
      ensures r.Returned? ==>
                && Supply(conse, first, r.value, Total(n), m0, v', bm.marked)
                && (conse ==> r.value == first + Total(done + num1))
                && Tracks(g', Value().(numSectors := done + num1), disk.flat, v') && !Starves(g.m0, 0, done + num1)
      ensures r.Halted? ==> Starves(g.m0, 0, n)
    {
      TotalMore(done, i, num1, n);
      ghost var h, flat := Value().(numSectors := done), disk.flat;
      ghost var s, v1, ws;
      r, s, v1, ws, v' := AllocateIndexBlock(i, num1, conse, beg, bm, disk, first, Total(n), m0, v);
      g' := Opened(g, s, ws[0..num1]);
      if r.Halted? {
        TracksShort(g, h, flat, v, i, v1, num1, ws[0..num1], v', n);
        return;
      }
      TracksRoom(g, h, flat, v, s);
      StarvedNot(g.m0, 0, i, done, num1);
      TracksOpen(g, h, flat, v, i, s, v1, num1, ws, v');
      assert Value().(numSectors := done + num1) == WithIndex(h, i, s, num1);
    }

    // The index blocks of a new file of n blocks.
    method AllocateIndexed(n: nat, conse: bool, beg: int, bm: BitMap, disk: SynchDisk, ghost first: int,
                           ghost m0: set<nat>, ghost v: set<nat>, ghost g: Growth)
      returns (r: Outcome<int>, ghost v': set<nat>, ghost g': Growth)
      requires Valid() && bm.Valid() && bm.numBits == NUM_SECTORS && disk.Valid()
      requires NUM_DIRECT < n <= MAX_SECTORS && g.h0.numSectors == 0
      requires Supply(conse, first, beg, Total(n), m0, v, bm.marked) && (conse ==> beg == first + NUM_DIRECT)
      requires Tracks(g, Value().(numSectors := NUM_DIRECT), disk.flat, v)
      modifies dataSectors, bm, bm.bits, disk, disk.table, disk.raw
      ensures bm.Valid() && disk.Valid()
      ensures SameStart(g, g')
      ensures r.Returned? ==>
                && Supply(conse, first, r.value, Total(n), m0, v', bm.marked)
                && (conse ==> r.value == first + Total(n))
                && Tracks(g', Value().(numSectors := n), disk.flat, v') && !Starves(g.m0, 0, n)
      ensures r.Halted? ==> Starves(g.m0, 0, n)
    {
      hide Supply;
      hide Tracks;
      var done, i := NUM_DIRECT, 0;
      r, v', g' := Returned(beg), v, g;
      ghost var h := Value().(numSectors := done);
      while n - done > 0             // sectorsLeft
        invariant NUM_DIRECT <= done <= n
        invariant bm.Valid() && disk.Valid() && r.Returned?
        invariant done < n ==> done == NUM_DIRECT + i * SECOND_DIRECT
        invariant Supply(conse, first, r.value, Total(n), m0, v', bm.marked)
        invariant conse ==> r.value == first + Total(done)
        invariant SameStart(g, g')
        invariant h == Value().(numSectors := done) && Tracks(g', h, disk.flat, v') && !Starves(g.m0, 0, done)
      {
        var num1 := if n - done < SECOND_DIRECT then n - done else SECOND_DIRECT;
        r, v', g' := AllocateRound(done, i, num1, n, conse, r.value, bm, disk, first, m0, v', g');
        if r.Halted? { return; }
        done := done + num1;
        i := i + 1;
        h := Value().(numSectors := done);
      }
    }

    // All the blocks of a new file, direct ones first.
    method AllocateBlocks(n: nat, conse: bool, beg: int, bm: BitMap, disk: SynchDisk,
                          ghost m0: set<nat>, ghost v: set<nat>, ghost g: Growth)
      returns (r: Outcome<int>, ghost v': set<nat>, ghost g': Growth)
      requires Valid() && bm.Valid() && bm.numBits == NUM_SECTORS && disk.Valid()
      requires n <= MAX_SECTORS && g.h0.numSectors == 0
      requires Supply(conse, beg, beg, Total(n), m0, v, bm.marked)
      requires Tracks(g, Value().(numSectors := 0), disk.flat, v)
      modifies dataSectors, bm, bm.bits, disk, disk.table, disk.raw
      ensures bm.Valid() && disk.Valid()
      ensures SameStart(g, g')
      ensures r.Returned? ==>
                && Supply(conse, beg, r.value, Total(n), m0, v', bm.marked)
                && (conse ==> r.value == beg + Total(n))
                && Tracks(g', Value().(numSectors := n), disk.flat, v') && !Starves(g.m0, 0, n)
      ensures r.Halted? ==> Starves(g.m0, 0, n)
    {
      var beg';
      if n <= NUM_DIRECT {
        beg', v', g' := AllocateDirect(n, conse, beg, bm, beg, Total(n), m0, v, g, disk.flat);
        r := Returned(beg');
      } else {
        beg', v', g' := AllocateDirect(NUM_DIRECT, conse, beg, bm, beg, Total(n), m0, v, g, disk.flat);
        r, v', g' := AllocateIndexed(n, conse, beg', bm, disk, beg, m0, v', g');
      }
    }

    // The second half of Allocate: the space checks have passed.
    method HandOut(beg: int, bm: BitMap, disk: SynchDisk, ghost m0: set<nat>) returns (r: Outcome<bool>)
      requires Valid() && bm.Valid() && bm.numBits == NUM_SECTORS && disk.Valid()
      requires 0 <= numBytes <= MAX_FILE_SIZE && numSectors == DivRoundUp(numBytes, SECTOR_SIZE)
      requires beg >= 0 && RunReserved(m0, NUM_SECTORS, Total(numSectors), beg, bm.marked)
      requires |m0| + Total(numSectors) + numSectors <= NUM_SECTORS
      modifies dataSectors, bm, bm.bits, disk, disk.table, disk.raw
      ensures bm.Valid() && disk.Valid()
      ensures AllocateResult(m0, old(disk.flat), numBytes, r, Value(), disk.flat, bm.marked)
    {
      hide Starves;
      hide AllocateResult;
      var n, conse := numSectors, beg > 0;
      ghost var v, h0 := if conse then m0 else bm.marked, Value().(numSectors := 0);
      ghost var g, m1 := Growth(h0, disk.flat, v, [], [], []), bm.marked;
      EmptyStart(h0, disk.flat, v);
      SupplyStart(conse, beg, Total(n), m0, v, bm.marked);
      StarvesNever(m0, 0, n);
      var step;
      step, v, g := AllocateBlocks(n, conse, beg, bm, disk, m0, v, g);
      if step.Halted? {
        AllocateShort(m0, old(disk.flat), disk.flat, numBytes, beg, m1, Value(), bm.marked);
        return Halted;
      }
      assert Value() == Value().(numSectors := n);
      if conse {
        AllocateRun(g, Value(), disk.flat, v, m0, numBytes, beg, bm.marked);
      } else {
        AllocateFound(g, Value(), disk.flat, m0, numBytes, bm.marked);
      }
      r := Returned(true);
    }

    // The sectors for the blocks and for the index blocks of a file.
    static method Needs(fileSize: int32) returns (n: int32, nSecIndex: nat)
      requires 0 <= fileSize
      ensures n == DivRoundUp(fileSize, SECTOR_SIZE) && n + nSecIndex == Total(n) && (n == 0 ==> Total(n) == 0)
    {
      SectorsNeeded(fileSize);
      n := DivRoundUp(fileSize, SECTOR_SIZE);
      nSecIndex := if n > NUM_DIRECT then DivRoundUp(n - NUM_DIRECT, SECOND_DIRECT) else 0;
    }

    // FindN, and the clear bits that are left.
    static method Reserve(total: nat, bm: BitMap) returns (run: Outcome<int>, clear: nat)
      requires bm.Valid() && bm.numBits == NUM_SECTORS
      modifies bm, bm.bits
      ensures bm.Valid() && (run.Halted? <==> total >= 2 && !HasRun(old(bm.marked), NUM_SECTORS, total))
      ensures run.Halted? ==> bm.marked == old(bm.marked)
      ensures run.Returned? ==>
                && RunReserved(old(bm.marked), NUM_SECTORS, total, run.value, bm.marked) && clear == NUM_SECTORS - |bm.marked|
                && (forall k :: k in old(bm.marked) ==> k < NUM_SECTORS)
                && (if run.value < 0 then total == 1 && clear == 0 else clear == NUM_SECTORS - |old(bm.marked)| - total)
    {
      hide RunReserved;
      hide HasRun;
      hide Encodes;
      clear := 0;
      ghost var m0 := bm.marked;
      run := bm.FindN(total);
      if run.Returned? {
        ReservedSize(m0, total, run.value, bm.marked);
        clear := bm.NumClear();
      }
    }

    // Allocate: reserve a run for the whole file, check for space, then hand the sectors out.
    method Allocate(bm: BitMap, fileSize: int32, disk: SynchDisk) returns (r: Outcome<bool>)
      requires Valid() && bm.Valid() && bm.numBits == NUM_SECTORS && disk.Valid()
      requires 0 <= fileSize
      modifies this, dataSectors, bm, bm.bits, disk, disk.table, disk.raw
      ensures bm.Valid() && disk.Valid()
      ensures AllocateResult(old(bm.marked), old(disk.flat), fileSize, r, Value(), disk.flat, bm.marked)
    {
      hide *;
      ghost var m0 := bm.marked;
      var n, nSecIndex := Needs(fileSize);
      numBytes, numSectors := fileSize, n;
      var run, clear := Reserve(n + nSecIndex, bm);
      if run.Halted? {
        AllocateNoRun(m0, disk.flat, fileSize, Value(), bm.marked);
        return Halted;
      }
      if clear < n || fileSize > MAX_FILE_SIZE {
        AllocateRefused(m0, disk.flat, fileSize, run.value, Value(), bm.marked);
        return Returned(false);
      }
      r := HandOut(run.value, bm, disk, m0);
    }

    // ASSERT that the bit is set, then clear it.
    static method Release(sector: int, bm: BitMap)
      requires bm.Valid() && bm.numBits == NUM_SECTORS && OnDisk(sector) && sector in bm.marked
      modifies bm, bm.bits
      ensures bm.Valid() && bm.marked == old(bm.marked) - {sector}
    {
      var marked := bm.Test(sector);
      assert marked;                 // "ought to be marked!"
      bm.Clear(sector);
    }

    // The num1 entries of index block q.
    static method ReleaseEntries(sectors: array<int32>, num1: nat, bm: BitMap,
                                 ghost h: Hdr, ghost flat: Flat, ghost m0: set<nat>, ghost q: nat, ghost done: nat)
      requires bm.Valid() && bm.numBits == NUM_SECTORS && Readable(h)
      requires done == NUM_DIRECT + q * SECOND_DIRECT && num1 <= SECOND_DIRECT && done + num1 <= h.numSectors
      requires q < IndexCount(h.numSectors) && sectors[..] == WordsOf(flat[h.dataSectors[NUM_DIRECT + q]])
      requires Releasing(h, flat, m0, done, q, bm.marked)
      modifies bm, bm.bits
      ensures bm.Valid() && Releasing(h, flat, m0, done + num1, q, bm.marked)
    {
      for j := 0 to num1
        invariant bm.Valid() && Releasing(h, flat, m0, done + j, q, bm.marked)
      {
        EntryAt(h, flat, q, j);
        ReleaseBlock(h, flat, m0, done + j, q, bm.marked);
        assert sectors[j] == sectors[..][j];
        Release(sectors[j], bm);
      }
    }

    // One index block: its entries, and then the block itself.
    method ReleaseIndexBlock(q: nat, num1: nat, bm: BitMap, disk: SynchDisk, ghost m0: set<nat>, ghost done: nat)
      requires Valid() && bm.Valid() && bm.numBits == NUM_SECTORS && disk.Valid()
      requires Readable(Value()) && q < IndexCount(numSectors)
      requires done == NUM_DIRECT + q * SECOND_DIRECT && num1 <= SECOND_DIRECT && done + num1 <= numSectors
      requires Releasing(Value(), disk.flat, m0, done, q, bm.marked)
      modifies bm, bm.bits, disk.table, disk.raw, disk`now
      ensures bm.Valid() && disk.Valid()
      ensures Releasing(Value(), disk.flat, m0, done + num1, q + 1, bm.marked)
    {
      var sectors := LoadIndexBlock(q, disk);
      ReleaseEntries(sectors, num1, bm, Value(), disk.flat, m0, q, done);
      ReleaseIndex(Value(), disk.flat, m0, done + num1, q, bm.marked);
      Release(dataSectors[NUM_DIRECT + q], bm);
    }

    // Every sector the header refers to becomes clear, and no other; no ASSERT fails.
    method Deallocate(bm: BitMap, disk: SynchDisk)
      requires Valid() && bm.Valid() && bm.numBits == NUM_SECTORS && disk.Valid()
      requires WellFormed(Value(), disk.flat) && Owned(Value(), disk.flat) <= bm.marked
      modifies bm, bm.bits, disk.table, disk.raw, disk`now
      ensures bm.Valid() && disk.Valid()
      ensures bm.marked == old(bm.marked) - Owned(Value(), disk.flat)
    {
      ghost var h, m0 := Value(), bm.marked;
      var direct := if numSectors <= NUM_DIRECT then numSectors else NUM_DIRECT;
      for i := 0 to direct
        invariant bm.Valid() && disk.Valid() && Releasing(h, disk.flat, m0, i, 0, bm.marked)
      {
        ReleaseBlock(h, disk.flat, m0, i, 0, bm.marked);
        Release(dataSectors[i], bm);
      }
      var done, i := direct, 0;
      while numSectors - done > 0    // sectorsLeft
        invariant direct <= done <= numSectors
        invariant bm.Valid() && disk.Valid()
        invariant done < numSectors ==> done == NUM_DIRECT + i * SECOND_DIRECT
        invariant done == numSectors ==> i == IndexCount(numSectors)
        invariant Releasing(h, disk.flat, m0, done, i, bm.marked)
      {
        var num1 := if numSectors - done < SECOND_DIRECT then numSectors - done else SECOND_DIRECT;
        IndexCountAt(done + num1, i, num1);
        ReleaseIndexBlock(i, num1, bm, disk, m0, done);
        done := done + num1;
        i := i + 1;
      }
      ReleaseDone(h, disk.flat, m0, bm.marked);
    }
  }
}
