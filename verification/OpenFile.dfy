/** code/filesys/openfile.cc: reading and writing a file at byte granularity on a disk that
    only transfers whole sectors. */
module OpenFiles {
  import opened Outcomes
  import opened Sectors
  import opened BitMaps
  import opened SynchDisks
  import opened BlockMaps
  import opened FileContents
  import opened Growths
  import opened FileHeaders
  import opened FreeMaps
  import opened Writing
  import opened Directories
  import opened Strays

  // bcopy and memcpy.
  method Copy(src: seq<byte>, dst: array<byte>, at: nat)
    requires at + |src| <= dst.Length
    modifies dst
    ensures dst[..] == Splice(old(dst[..]), at, src)
  {
    forall k | 0 <= k < |src| { dst[at + k] := src[k]; }
  }

  class OpenFile {
    const hdr: FileHeader
    const headerSector: nat
    var seekPosition: int

    constructor (sector: nat, disk: SynchDisk)
      requires disk.Valid() && sector < NUM_SECTORS
      modifies disk.table, disk.raw, disk`now
      ensures disk.Valid() && hdr.Valid() && fresh(hdr) && fresh(hdr.dataSectors)
      ensures hdr.Value() == DecodeHdr(disk.flat[sector]) && headerSector == sector && seekPosition == 0
    {
      hdr := new FileHeader();
      seekPosition := 0;
      headerSector := sector;
      new;
      hdr.FetchFrom(sector, disk);
    }

    // This object is open on a file with these bytes.
    ghost predicate On(disk: SynchDisk, raw: seq<byte>)
      reads hdr, hdr.dataSectors, disk, disk.table, disk.raw
    {
      hdr.Valid() && disk.Valid() && Stores(hdr.Value(), disk.flat, headerSector, raw)
    }

    method ReadBlock(b: nat, disk: SynchDisk, ghost raw: seq<byte>) returns (data: Sector)
      requires On(disk, raw) && b < hdr.numSectors
      modifies disk.table, disk.raw, disk`now
      ensures disk.Valid() && data == raw[b * SECTOR_SIZE..(b + 1) * SECTOR_SIZE]
    {
      StoresBlock(hdr.Value(), disk.flat, headerSector, raw, b);
      assert b * SECTOR_SIZE / SECTOR_SIZE == b;
      var s := hdr.ByteToSector(b * SECTOR_SIZE, disk);
      data := disk.ReadSector(s);
    }

    // The sectors first .. last, one after the other.
    method ReadBlocks(first: nat, last: nat, disk: SynchDisk, ghost raw: seq<byte>) returns (buf: array<byte>)
      requires On(disk, raw) && first <= last < hdr.numSectors
      modifies disk.table, disk.raw, disk`now
      ensures disk.Valid() && fresh(buf)
      ensures buf[..] == raw[first * SECTOR_SIZE..(last + 1) * SECTOR_SIZE]
    {
      buf := new byte[(last + 1 - first) * SECTOR_SIZE];
      for i := first to last + 1
        invariant disk.Valid()
        invariant buf[..][..(i - first) * SECTOR_SIZE] == raw[first * SECTOR_SIZE..i * SECTOR_SIZE]
      {
        var data := ReadBlock(i, disk, raw);
        ghost var before := buf[..];
        Copy(data, buf, (i - first) * SECTOR_SIZE);
        SplicePrefix(before, (i - first) * SECTOR_SIZE, data);
        SlicesJoin(raw, first * SECTOR_SIZE, i * SECTOR_SIZE, (i + 1) * SECTOR_SIZE);
      }
    }

    // The sectors around position .. position+n-1 are read, and the bytes wanted cut out.
    method ReadBytes(position: nat, n: nat, disk: SynchDisk, ghost raw: seq<byte>) returns (bytes: seq<byte>)
      requires On(disk, raw) && n > 0 && position + n <= |raw|
      modifies disk.table, disk.raw, disk`now
      ensures disk.Valid() && bytes == raw[position..position + n]
    {
      var firstSector, lastSector := position / SECTOR_SIZE, (position + n - 1) / SECTOR_SIZE;
      SectorSpan(position, n);
      var buf := ReadBlocks(firstSector, lastSector, disk, raw);
      CutOut(raw, position, n, buf[..]);
      var at := position - firstSector * SECTOR_SIZE;
      bytes := buf[..][at..at + n];
    }

    // Returns exactly the bytes asked for, as far as the file reaches, and touches no sector
    // but the header's, whose time stamp is renewed.
    method ReadAt(into: array<byte>, off: nat, numBytes: int, position: nat, disk: SynchDisk, ghost raw: seq<byte>)
      returns (count: nat)
      requires On(disk, raw) && off + Max(0, numBytes) <= into.Length
      modifies into, disk, disk.table, disk.raw
      ensures On(disk, raw)
      ensures count == ReadCount(hdr.numBytes, numBytes, position)
      ensures into[..] == AfterRead(old(into[..]), off, raw, position, count)
      ensures disk.flat == old(disk.flat)[headerSector := disk.flat[headerSector]]
      ensures if count == 0 then disk.flat == old(disk.flat) else DecodeHdr(disk.flat[headerSector]) == hdr.Value()
    {
      var fileLength := hdr.numBytes;
      if numBytes <= 0 || position >= fileLength { return 0; }
      count := numBytes;
      if position + numBytes > fileLength { count := fileLength - position; }
      var bytes := ReadBytes(position, count, disk, raw);
      Copy(bytes, into, off);
      ghost var flat := disk.flat;
      hdr.WriteBack(headerSector, disk);
      StoresHeader(hdr.Value(), flat, headerSector, raw, disk.flat[headerSector]);
    }

    method WriteBlock(b: nat, data: Sector, disk: SynchDisk, ghost raw: seq<byte>)
      requires On(disk, raw) && b < hdr.numSectors
      modifies disk, disk.table, disk.raw
      ensures On(disk, Splice(raw, b * SECTOR_SIZE, data))
      ensures Confined(hdr.Value(), old(disk.flat), disk.flat, headerSector)
    {
      StoresWrite(hdr.Value(), disk.flat, headerSector, raw, b, data);
      assert b * SECTOR_SIZE / SECTOR_SIZE == b;
      var s := hdr.ByteToSector(b * SECTOR_SIZE, disk);
      disk.WriteSector(s, data);
    }

    // The sectors first .. last are overwritten with the buffer.
    method WriteBlocks(first: nat, last: nat, buf: seq<byte>, disk: SynchDisk, ghost raw: seq<byte>)
      requires On(disk, raw) && first <= last < hdr.numSectors && |buf| == (last + 1 - first) * SECTOR_SIZE
      modifies disk, disk.table, disk.raw
      ensures On(disk, Splice(raw, first * SECTOR_SIZE, buf))
      ensures Confined(hdr.Value(), old(disk.flat), disk.flat, headerSector)
    {
      ConfinedSame(hdr.Value(), disk.flat, headerSector, raw);
      WrittenStart(raw, first, buf);
      ghost var now := raw;
      for j := 0 to last + 1 - first // i - firstSector
        invariant On(disk, now) && Written(raw, first, buf, j, now)
        invariant Confined(hdr.Value(), old(disk.flat), disk.flat, headerSector)
      {
        ghost var flat := disk.flat;
        var data := Chunk(buf, j);
        WrittenNext(raw, first, buf, j, now);
        WriteBlock(first + j, data, disk, now);
        now := Splice(now, (first + j) * SECTOR_SIZE, data);
        ConfinedTrans(hdr.Value(), old(disk.flat), flat, disk.flat, headerSector);
      }
      WrittenAll(raw, first, buf, last + 1 - first, now);
    }

    // One sector of the file is read into sector p of the buffer.
    method ReadEdge(buf: array<byte>, p: nat, first: nat, disk: SynchDisk, ghost raw: seq<byte>)
      requires On(disk, raw) && p + SECTOR_SIZE <= buf.Length && first * SECTOR_SIZE + buf.Length <= |raw|
      modifies buf, disk, disk.table, disk.raw
      ensures On(disk, raw)
      ensures disk.flat == old(disk.flat)[headerSector := disk.flat[headerSector]]
      ensures Matches(raw, hdr.numBytes, first * SECTOR_SIZE, p, buf[..])
      ensures buf[..][..p] == old(buf[..])[..p] && buf[..][p + SECTOR_SIZE..] == old(buf[..])[p + SECTOR_SIZE..]
    {
      ghost var b := buf[..];
      var c := ReadAt(buf, p, SECTOR_SIZE, first * SECTOR_SIZE + p, disk, raw);
      EdgeRead(raw, hdr.numBytes, first * SECTOR_SIZE, p, c, b);
    }

    // The buffer of a write, with the first and the last sector read in where the write
    // covers them only in part.
    method FillBuffer(position: nat, n: nat, first: nat, last: nat, disk: SynchDisk, ghost raw: seq<byte>)
      returns (buf: array<byte>)
      requires On(disk, raw) && n > 0 && position + n <= hdr.numBytes
      requires first == position / SECTOR_SIZE && last == (position + n - 1) / SECTOR_SIZE
      modifies disk, disk.table, disk.raw
      ensures On(disk, raw) && fresh(buf) && buf.Length == (last + 1 - first) * SECTOR_SIZE
      ensures disk.flat == old(disk.flat)[headerSector := disk.flat[headerSector]]
      ensures Framed(raw, hdr.numBytes, first * SECTOR_SIZE, position - first * SECTOR_SIZE, n, buf[..])
    {
      SectorSpan(position, n);
      buf := new byte[(last + 1 - first) * SECTOR_SIZE];
      var firstAligned := position == first * SECTOR_SIZE;
      var lastAligned := position + n == (last + 1) * SECTOR_SIZE;
      if !firstAligned {
        ReadEdge(buf, 0, first, disk, raw);
      }
      if !lastAligned && (first != last || firstAligned) {
        ghost var b := buf[..];
        ReadEdge(buf, (last - first) * SECTOR_SIZE, first, disk, raw);
        if !firstAligned {
          StillMatches(raw, hdr.numBytes, first * SECTOR_SIZE, 0, b, (last - first) * SECTOR_SIZE, buf[..]);
        }
      }
      EdgesFrame(raw, hdr.numBytes, position, n, buf[..]);
    }

    // A write that does not reach beyond the end of the file.
    method WriteInside(from: seq<byte>, position: nat, disk: SynchDisk, ghost raw: seq<byte>) returns (ghost raw': seq<byte>)
      requires On(disk, raw) && |from| > 0 && position + |from| <= hdr.numBytes
      modifies disk, disk.table, disk.raw
      ensures On(disk, raw') && raw'[..hdr.numBytes] == Splice(raw[..hdr.numBytes], position, from)
      ensures Confined(hdr.Value(), old(disk.flat), disk.flat, headerSector)
      ensures DecodeHdr(disk.flat[headerSector]) == hdr.Value()
    {
      ghost var h, flat0 := hdr.Value(), disk.flat;
      var first, last := position / SECTOR_SIZE, (position + |from| - 1) / SECTOR_SIZE;
      SectorSpan(position, |from|);
      var buf := FillBuffer(position, |from|, first, last, disk, raw);
      StoresHeader(h, flat0, headerSector, raw, disk.flat[headerSector]);
      ghost var flat1 := disk.flat;
      var at := position - first * SECTOR_SIZE;
      FramedWrite(raw, hdr.numBytes, first * SECTOR_SIZE, at, from, buf[..]);
      Copy(from, buf, at);
      raw' := Splice(raw, first * SECTOR_SIZE, buf[..]);
      WriteBlocks(first, last, buf[..], disk, raw);
      ghost var flat2 := disk.flat;
      ConfinedTrans(h, flat0, flat1, flat2, headerSector);
      hdr.WriteBack(headerSector, disk);
      StoresHeader(h, flat2, headerSector, raw', disk.flat[headerSector]);
      ConfinedTrans(h, flat0, flat2, disk.flat, headerSector);
    }

    // A write that reaches past the end: the header grows first, as far as it has room.
    method WriteGrowing(from: seq<byte>, position: nat, disk: SynchDisk, fm: FreeMapFile, ghost raw: seq<byte>)
      returns (count: nat, ghost raw': seq<byte>)
      requires On(disk, raw) && fm.Valid() && Backed(hdr.Value(), disk.flat, headerSector, fm.marked)
      requires position < hdr.numBytes < position + |from| < 0x8000_0000
      requires Roomy(hdr.Value(), fm.marked, position + |from|)
      modifies fm, hdr, hdr.dataSectors, disk, disk.table, disk.raw
      ensures fm.Valid() && On(disk, raw')
      ensures WriteResult(old(hdr.Value()), old(disk.flat), headerSector, old(fm.marked), raw, position, from, count,
                          hdr.Value(), disk.flat, fm.marked, raw')
    {
      hide WriteResult;
      hide Extended;
      hide OthersKept;
      hide Confined;
      hide Backed;
      hide Splice;
      hide Roomy;
      ghost var h0, flat0, m0 := hdr.Value(), disk.flat, fm.marked;
      var fileLength := hdr.numBytes;
      var ok;
      ghost var flat, m, raw1;
      ok, flat, m, raw1 := Grow(position + |from|, disk, fm, raw);
      ghost var h, flat1 := hdr.Value(), disk.flat;
      EnoughBlocks(h0, position + |from|);
      count := if ok then |from| else fileLength - position;
      raw' := WriteInside(from[..count], position, disk, raw1);
      ConfinedTrans(h, flat, flat1, disk.flat, headerSector);
      GrowthWritten(h0, flat0, headerSector, m0, raw, position, from, count, h, flat, m, raw1, disk.flat, fm.marked, raw');
    }

    // The header grows so that the file can reach up to `end`, or as far as the header has room.
    // flat and m are the disk and the bitmap as extendLength left them.
    method Grow(end: nat, disk: SynchDisk, fm: FreeMapFile, ghost raw: seq<byte>)
      returns (ok: bool, ghost flat: Flat, ghost m: set<nat>, ghost raw1: seq<byte>)
      requires On(disk, raw) && fm.Valid() && Backed(hdr.Value(), disk.flat, headerSector, fm.marked)
      requires hdr.numBytes < end < 0x8000_0000 && Roomy(hdr.Value(), fm.marked, end)
      modifies fm, hdr, hdr.dataSectors, disk, disk.table, disk.raw
      ensures fm.Valid() && On(disk, raw1) && |raw| <= |raw1| && raw1[..|raw|] == raw
      ensures ok == !Refused(old(hdr.Value()), end)
      ensures hdr.numSectors == GrownTo(old(hdr.numSectors), Delta(old(hdr.numBytes), end))
      ensures hdr.numBytes == (if ok then end else old(hdr.numBytes)) && fm.marked == (if ok then m else old(fm.marked))
      ensures Extended(old(hdr.Value()), old(disk.flat), old(fm.marked), hdr.Value(), flat, m)
      ensures OthersKept(old(hdr.Value()), old(disk.flat), headerSector, old(fm.marked), flat)
      ensures Backed(hdr.Value(), flat, headerSector, m) && Confined(hdr.Value(), flat, disk.flat, headerSector)
    {
      hide ExtendResult;
      hide Extended;
      hide OthersKept;
      hide Confined;
      hide Backed;
      hide Roomy;
      ghost var h0, flat0, m0 := hdr.Value(), disk.flat, fm.marked;
      var deltaSectors := DivRoundUp(end, SECTOR_SIZE) - DivRoundUp(hdr.numBytes, SECTOR_SIZE);
      EnoughBlocks(h0, end);
      BackedNow(h0, flat0, headerSector, m0);
      var r;
      r, m, flat := fm.ExtendWrapper(end, headerSector, hdr, deltaSectors, disk);
      ghost var h := hdr.Value();
      RoomyExtend(h0, flat0, m0, end, r, h, flat, m);
      raw1 := ExtendStores(h0, flat0, headerSector, raw, m0, h, flat, m);
      ok := r.value;
      if ok { StoresHeader(h, flat, headerSector, raw1, disk.flat[headerSector]); }
      else { ConfinedSame(h, flat, headerSector, raw1); }
    }

    // Writes data at position, growing the file when it reaches past the end and the header
    // has room for the blocks.  Others' sectors are untouched, and the header is back on disk.
    method WriteAt(from: seq<byte>, position: nat, disk: SynchDisk, fm: FreeMapFile, ghost raw: seq<byte>)
      returns (count: nat, ghost raw': seq<byte>)
      requires On(disk, raw) && fm.Valid() && Backed(hdr.Value(), disk.flat, headerSector, fm.marked)
      requires position + |from| < 0x8000_0000
      requires Roomy(hdr.Value(), fm.marked, position + |from|)
      modifies fm, hdr, hdr.dataSectors, disk, disk.table, disk.raw
      ensures fm.Valid() && On(disk, raw')
      ensures WriteResult(old(hdr.Value()), old(disk.flat), headerSector, old(fm.marked), raw, position, from, count,
                          hdr.Value(), disk.flat, fm.marked, raw')
    {
      ghost var h, flat, m := hdr.Value(), disk.flat, fm.marked;
      var fileLength, numBytes := hdr.numBytes, |from|;
      if numBytes <= 0 || position >= fileLength {
        WrittenNothing(h, flat, headerSector, m, raw, position, from);
        count, raw' := 0, raw;
      } else if position + numBytes > fileLength {
        count, raw' := WriteGrowing(from, position, disk, fm, raw);
      } else {
        raw' := WriteInside(from, position, disk, raw);
        WrittenInside(h, flat, headerSector, m, raw, position, from, disk.flat, raw');
        count := numBytes;
      }
    }

    // ReadAt of the last sector that a write from the start reaches, through a header that may be anything.
    method ReadStray(buf: array<byte>, last: nat, disk: SynchDisk) returns (ok: bool)
      requires hdr.Valid() && disk.Valid() && headerSector < NUM_SECTORS && last < NUM_DIRECT
      requires buf.Length == (last + 1) * SECTOR_SIZE && last * SECTOR_SIZE < hdr.numBytes
      modifies buf, disk, disk.table, disk.raw
      ensures disk.Valid() && (ok <==> OnDisk(hdr.dataSectors[last]))
      ensures disk.flat == old(disk.flat)[headerSector := disk.flat[headerSector]]
      ensures ok ==> Ends(Chunk(buf[..], last), old(disk.flat)[hdr.dataSectors[last]], last * SECTOR_SIZE, 0, hdr.numBytes)
    {
      if !OnDisk(hdr.dataSectors[last]) { return false; }
      var count := Min(SECTOR_SIZE, hdr.numBytes - last * SECTOR_SIZE);
      var data := disk.ReadSector(hdr.dataSectors[last]);
      Copy(data[..count], buf, last * SECTOR_SIZE);
      hdr.WriteBack(headerSector, disk);
      return true;
    }

    // The first n blocks are overwritten with the buffer, as far as there are such sectors.
    method LayBlocks(n: nat, buf: seq<byte>, disk: SynchDisk) returns (ok: bool)
      requires hdr.Valid() && disk.Valid() && n <= NUM_DIRECT && |buf| == n * SECTOR_SIZE
      modifies disk, disk.table, disk.raw
      ensures disk.Valid() && (ok <==> forall i :: 0 <= i < n ==> OnDisk(hdr.dataSectors[i]))
      ensures ok ==> Laid(hdr.dataSectors[..], n, old(disk.flat), buf, disk.flat)
    {
      for i := 0 to n
        invariant disk.Valid() && Laid(hdr.dataSectors[..], i, old(disk.flat), buf, disk.flat)
      {
        var s := hdr.dataSectors[i];
        if !OnDisk(s) { return false; }
        LaidNext(hdr.dataSectors[..], i, old(disk.flat), buf, disk.flat);
        disk.WriteSector(s, Chunk(buf, i));
      }
      assert forall i :: 0 <= i < n ==> hdr.dataSectors[i] == hdr.dataSectors[..][i];
      return true;
    }

    // The write itself, from the start of the file and within its length.
    method LayStray(from: seq<byte>, disk: SynchDisk) returns (r: Outcome<nat>, ghost buf: seq<byte>, ghost flat1: Flat, ghost flat2: Flat)
      requires hdr.Valid() && disk.Valid() && headerSector < NUM_SECTORS && 0 < |from| <= hdr.numBytes && |from| <= NUM_DIRECT * SECTOR_SIZE
      modifies disk, disk.table, disk.raw
      ensures disk.Valid()
      ensures var n := DivRoundUp(|from|, SECTOR_SIZE);
              && (r.Halted? <==> exists i :: 0 <= i < n && !OnDisk(hdr.dataSectors[i]))
              && (r.Returned? ==>
                    && r.value == |from| && |buf| == n * SECTOR_SIZE && |from| <= |buf| && buf[..|from|] == from
                    && flat1 == old(disk.flat)[headerSector := flat1[headerSector]] && Laid(hdr.dataSectors[..], n, flat1, buf, flat2)
                    && disk.flat == flat2[headerSector := disk.flat[headerSector]] && DecodeHdr(disk.flat[headerSector]) == hdr.Value()
                    && Ends(Chunk(buf, n - 1), old(disk.flat)[hdr.dataSectors[n - 1]], (n - 1) * SECTOR_SIZE, |from|, hdr.numBytes))
    {
      hide Laid;
      hide Splice;
      hide Chunk;
      var last := (|from| - 1) / SECTOR_SIZE;
      assert DivRoundUp(|from|, SECTOR_SIZE) == last + 1;
      var buffer := new byte[(last + 1) * SECTOR_SIZE];
      buf, flat1, flat2 := [], disk.flat, disk.flat;
      if |from| != (last + 1) * SECTOR_SIZE {
        var ok := ReadStray(buffer, last, disk);
        if !ok { return Halted, buf, flat1, flat2; }
      }
      flat1 := disk.flat;
      SplicePrefix(buffer[..], 0, from);
      if OnDisk(hdr.dataSectors[last]) {
        TailKept(buffer[..], from, last, old(disk.flat)[hdr.dataSectors[last]], hdr.numBytes);
      }
      hide Ends;
      Copy(from, buffer, 0);
      buf := buffer[..];
      var done := LayBlocks(last + 1, buffer[..], disk);
      if !done { return Halted, buf, flat1, flat2; }
      flat2 := disk.flat;
      hdr.WriteBack(headerSector, disk);
      r := Returned(|from|);
    }

    // The growth before a table is written, through a header that may be anything.
    method GrowStray(disk: SynchDisk, fm: FreeMapFile) returns (r: Outcome<nat>)
      requires hdr.Valid() && disk.Valid() && fm.Valid() && headerSector < NUM_SECTORS && hdr.numBytes > 0
      modifies fm, hdr, hdr.dataSectors, disk, disk.table, disk.raw
      ensures disk.Valid() && fm.Valid()
      ensures GrowthDone(old(hdr.Value()), headerSector, old(disk.flat), old(fm.marked), r, hdr.Value(), disk.flat, fm.marked)
    {
      hide Gains;
      hide Firsts;
      hide Filled;
      GainsNone(fm.marked);
      var fileLength, numBytes := hdr.numBytes, DIRECTORY_FILE_SIZE;
      if numBytes > fileLength {
        var deltaSectors := DivRoundUp(numBytes, SECTOR_SIZE) - DivRoundUp(fileLength, SECTOR_SIZE);
        var ok;
        ghost var flat, m;
        ok, m, flat := fm.ExtendStray(numBytes, headerSector, hdr, deltaSectors, disk);
        if ok.Halted? { return Halted; }
        if !ok.value { numBytes := fileLength; }
      }
      r := Returned(numBytes);
    }

    // WriteAt of a directory's table, through a header that may be anything.
    method WriteStray(from: seq<byte>, disk: SynchDisk, fm: FreeMapFile) returns (r: Outcome<nat>)
      requires hdr.Valid() && disk.Valid() && fm.Valid() && headerSector < NUM_SECTORS && |from| == DIRECTORY_FILE_SIZE
      modifies fm, hdr, hdr.dataSectors, disk, disk.table, disk.raw
      ensures disk.Valid() && fm.Valid()
      ensures Scribbled(old(hdr.Value()), headerSector, old(disk.flat), old(fm.marked), from, r, disk.flat, fm.marked)
    {
      hide Laid;
      hide Ends;
      hide Scribbled;
      hide GrowthDone;
      ghost var h, flat, m := hdr.Value(), disk.flat, fm.marked;
      if hdr.numBytes <= 0 {
        ScribbledNot(h, headerSector, flat, m, from);
        return Returned(0);
      }
      var grown := GrowStray(disk, fm);
      if grown.Halted? {
        ScribbledHalt(h, headerSector, flat, m, from, hdr.Value(), disk.flat, fm.marked);
        return Halted;
      }
      ghost var flat0 := disk.flat;
      GrowthBounds(h, headerSector, flat, m, grown.value, hdr.Value(), flat0, fm.marked);
      ghost var buf, flat1, flat2;
      r, buf, flat1, flat2 := LayStray(from[..grown.value], disk);
      ScribbledDone(h, headerSector, flat, m, from, grown.value, hdr.Value(), flat0, fm.marked, r, buf, flat1, flat2, disk.flat);
    }

    method Read(into: array<byte>, off: nat, numBytes: int, disk: SynchDisk, ghost raw: seq<byte>) returns (result: nat)
      requires On(disk, raw) && off + Max(0, numBytes) <= into.Length && seekPosition >= 0
      modifies this, into, disk, disk.table, disk.raw
      ensures On(disk, raw)
      ensures result == ReadCount(hdr.numBytes, numBytes, old(seekPosition)) && seekPosition == old(seekPosition) + result
      ensures into[..] == AfterRead(old(into[..]), off, raw, old(seekPosition), result)
    {
      result := ReadAt(into, off, numBytes, seekPosition, disk, raw);
      seekPosition := seekPosition + result;
    }

    method Write(from: seq<byte>, disk: SynchDisk, fm: FreeMapFile, ghost raw: seq<byte>)
      returns (result: nat, ghost raw': seq<byte>)
      requires On(disk, raw) && fm.Valid() && Backed(hdr.Value(), disk.flat, headerSector, fm.marked)
      requires 0 <= seekPosition && seekPosition + |from| < 0x8000_0000
      requires Roomy(hdr.Value(), fm.marked, seekPosition + |from|)
      modifies this, fm, hdr, hdr.dataSectors, disk, disk.table, disk.raw
      ensures fm.Valid() && On(disk, raw')
      ensures WriteResult(old(hdr.Value()), old(disk.flat), headerSector, old(fm.marked), raw, old(seekPosition), from, result,
                          hdr.Value(), disk.flat, fm.marked, raw')
      ensures seekPosition == old(seekPosition) + result
    {
      result, raw' := WriteAt(from, seekPosition, disk, fm, raw);
      seekPosition := seekPosition + result;
    }
  }
}
