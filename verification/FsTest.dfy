/** The copy-in and print-out loops of code/filesys/fstest.cc, for any transfer sizes: cutting
    a file into pieces for writing and for reading is invisible. */
module FsTest {
  import opened Outcomes
  import opened Sectors
  import opened SynchDisks
  import opened BlockMaps
  import opened FileContents
  import opened FileHeaders
  import opened FreeMaps
  import opened Writing
  import opened OpenFiles

  // One more piece of data is in place.
  lemma PieceWritten(c0: seq<byte>, c: seq<byte>, data: seq<byte>, done: nat, n: nat)
    requires |c0| == |c| == |data| && done + n <= |data| && c == data[..done] + c0[done..]
    ensures Splice(c, done, data[done..done + n]) == data[..done + n] + c0[done + n..]
  {
    assert data[..done + n] == data[..done] + data[done..done + n];
    assert c[done + n..] == c0[done + n..];
  }

  // Copy: the data goes into a file created with its length, transferSize bytes at a time.
  method CopyIn(f: OpenFile, data: seq<byte>, transferSize: nat, disk: SynchDisk, fm: FreeMapFile, ghost raw: seq<byte>)
    returns (ghost raw': seq<byte>)
    requires f.On(disk, raw) && fm.Valid() && Backed(f.hdr.Value(), disk.flat, f.headerSector, fm.marked)
    requires f.seekPosition == 0 && f.hdr.numBytes == |data| && transferSize > 0
    requires DecodeHdr(disk.flat[f.headerSector]) == f.hdr.Value()
    modifies f, fm, f.hdr, f.hdr.dataSectors, disk, disk.table, disk.raw
    ensures fm.Valid() && f.On(disk, raw') && f.hdr.numBytes == |data| && raw'[..|data|] == data
    ensures DecodeHdr(disk.flat[f.headerSector]) == f.hdr.Value()
  {
    ghost var c0 := raw[..|data|];
    raw' := raw;
    var done := 0;
    while done < |data|
      invariant 0 <= done <= |data| && f.seekPosition == done
      invariant f.On(disk, raw') && fm.Valid() && Backed(f.hdr.Value(), disk.flat, f.headerSector, fm.marked)
      invariant f.hdr.numBytes == |data| && raw'[..|data|] == data[..done] + c0[done..]
      invariant DecodeHdr(disk.flat[f.headerSector]) == f.hdr.Value()
    {
      var amountRead := if |data| - done < transferSize then |data| - done else transferSize;
      PieceWritten(c0, raw'[..|data|], data, done, amountRead);
      var written;
      written, raw' := f.Write(data[done..done + amountRead], disk, fm, raw');
      done := done + amountRead;
    }
  }

  method ReadPiece(f: OpenFile, buffer: array<byte>, disk: SynchDisk, ghost raw: seq<byte>) returns (piece: seq<byte>)
    requires f.On(disk, raw) && f.seekPosition >= 0
    modifies f, buffer, disk, disk.table, disk.raw
    ensures f.On(disk, raw) && f.seekPosition == old(f.seekPosition) + |piece|
    ensures |piece| == ReadCount(f.hdr.numBytes, buffer.Length, old(f.seekPosition))
    ensures |piece| > 0 ==> piece == raw[old(f.seekPosition)..f.seekPosition]
  {
    ghost var b, at := buffer[..], f.seekPosition;
    var amountRead := f.Read(buffer, 0, buffer.Length, disk, raw);
    if amountRead > 0 { ReadPrefix(b, raw, at, amountRead); }
    piece := buffer[..][..amountRead];
  }

  // Print: the file is read from the start, transferSize bytes at a time, until nothing comes.
  method PrintOut(f: OpenFile, transferSize: nat, disk: SynchDisk, ghost raw: seq<byte>) returns (out: seq<byte>)
    requires f.On(disk, raw) && f.seekPosition == 0 && transferSize > 0
    modifies f, disk, disk.table, disk.raw
    ensures f.On(disk, raw) && out == raw[..f.hdr.numBytes]
  {
    var buffer := new byte[transferSize];
    out := [];
    var piece := ReadPiece(f, buffer, disk, raw);
    while piece != []
      invariant f.On(disk, raw) && buffer.Length == transferSize
      invariant |out| <= f.hdr.numBytes && f.seekPosition == |out| + |piece|
      invariant |piece| == ReadCount(f.hdr.numBytes, transferSize, |out|)
      invariant out == raw[..|out|] && (piece != [] ==> piece == raw[|out|..|out| + |piece|])
      decreases f.hdr.numBytes - |out|
    {
      SlicesJoin(raw, 0, |out|, |out| + |piece|);
      out := out + piece;
      piece := ReadPiece(f, buffer, disk, raw);
    }
  }

  lemma ReadPrefix(b: seq<byte>, raw: seq<byte>, at: nat, n: nat)
    requires n <= |b| && at + n <= |raw|
    ensures AfterRead(b, 0, raw, at, n)[..n] == raw[at..at + n]
  {
  }

  // What was copied in is what is printed out, whatever the two transfer sizes.
  method CopyThenPrint(f: OpenFile, data: seq<byte>, writeSize: nat, readSize: nat, disk: SynchDisk, fm: FreeMapFile, ghost raw: seq<byte>)
    returns (out: seq<byte>)
    requires f.On(disk, raw) && fm.Valid() && Backed(f.hdr.Value(), disk.flat, f.headerSector, fm.marked)
    requires f.seekPosition == 0 && f.hdr.numBytes == |data| && writeSize > 0 && readSize > 0
    requires DecodeHdr(disk.flat[f.headerSector]) == f.hdr.Value()
    modifies f, fm, f.hdr, f.hdr.dataSectors, disk, disk.table, disk.raw
    ensures out == data
  {
    ghost var raw' := CopyIn(f, data, writeSize, disk, fm, raw);
    var again := new OpenFile(f.headerSector, disk);
    out := PrintOut(again, readSize, disk, raw');
  }
}
