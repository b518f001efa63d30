/** The bitmap of free sectors as kept in its file, and FileSystem::ExtendWrapper
    (code/filesys/filesys.cc:467-478), which fetches, changes and stores it. */
module FreeMaps {
  import opened Outcomes
  import opened Sectors
  import opened BitMaps
  import opened SynchDisks
  import opened BlockMaps
  import opened FileContents
  import opened Growths
  import opened FileHeaders

  class FreeMapFile {
    var words: seq<Word>
    ghost var marked: set<nat>

    ghost predicate Valid()
      reads this
    {
      && |words| == DivRoundUp(NUM_SECTORS, BITS_IN_WORD)
      && (forall s :: s in marked ==> s < NUM_SECTORS)
      && forall x {:trigger Inside(x)} :: Inside(x) ==> Encodes(words, NUM_SECTORS, marked)
    }

    constructor ()
      ensures Valid() && marked == {}
    {
      words := seq(DivRoundUp(NUM_SECTORS, BITS_IN_WORD), _ => NO_BITS);
      marked := {};
    }

    method Fetch() returns (bm: BitMap)
      requires Valid()
      ensures fresh(bm) && fresh(bm.bits) && bm.Valid() && bm.numBits == NUM_SECTORS && bm.marked == marked
    {
      assert Inside(0);
      bm := new BitMap(NUM_SECTORS);
      bm.FetchFrom(words, marked);
    }

    method Store(bm: BitMap)
      requires bm.Valid() && bm.numBits == NUM_SECTORS
      modifies this
      ensures Valid() && marked == bm.marked
    {
      words := bm.WriteBack();
      marked := bm.marked;
    }

    // The header f grows; header and bitmap go to the disk only when all of it could be done.
    // m and flat are what extendLength left behind in memory and on the disk.
    method ExtendWrapper(newNumBytes: int32, headerSector: nat, f: FileHeader, sectorNum: int, disk: SynchDisk)
      returns (r: Outcome<bool>, ghost m: set<nat>, ghost flat: Flat)
      requires Valid() && f.Valid() && disk.Valid() && headerSector < NUM_SECTORS
      requires WellFormed(f.Value(), disk.flat) && Owned(f.Value(), disk.flat) <= marked
      modifies this, f, f.dataSectors, disk, disk.table, disk.raw
      ensures Valid() && disk.Valid() && f.Valid()
      ensures ExtendResult(old(f.Value()), old(disk.flat), old(marked), newNumBytes, sectorNum, r, f.Value(), flat, m)
      ensures r == Returned(true) ==>
                && marked == m && disk.flat == flat[headerSector := disk.flat[headerSector]]
                && DecodeHdr(disk.flat[headerSector]) == f.Value()
      ensures r != Returned(true) ==> marked == old(marked) && disk.flat == flat
    {
      var bm := Fetch();
      r := f.ExtendLength(newNumBytes, sectorNum, bm, disk);
      m, flat := bm.marked, disk.flat;
      if r == Returned(true) {
        f.WriteBack(headerSector, disk);
        Store(bm);
      }
    }

    // The same for a header that may be anything.
    method ExtendStray(newNumBytes: int32, headerSector: nat, f: FileHeader, sectorNum: nat, disk: SynchDisk)
      returns (r: Outcome<bool>, ghost m: set<nat>, ghost flat: Flat)
      requires Valid() && f.Valid() && disk.Valid() && headerSector < NUM_SECTORS && sectorNum < NUM_DIRECT
      modifies this, f, f.dataSectors, disk, disk.table, disk.raw
      ensures Valid() && disk.Valid() && f.Valid()
      ensures StrayGrowth(old(f.Value()), old(disk.flat), old(marked), newNumBytes, sectorNum, r, f.Value(), flat, m)
      ensures if r == Returned(true) then
                && marked == m && disk.flat == flat[headerSector := disk.flat[headerSector]]
                && DecodeHdr(disk.flat[headerSector]) == f.Value()
              else marked == old(marked) && disk.flat == flat
    {
      var bm := Fetch();
      r := f.ExtendStray(newNumBytes, sectorNum, bm, disk);
      m, flat := bm.marked, disk.flat;
      if r == Returned(true) {
        f.WriteBack(headerSector, disk);
        Store(bm);
      }
    }
  }
}
