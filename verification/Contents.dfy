/** The bytes of a file: what its header and the disk say about every offset, how a header is
    kept in a sector, and what writing one block does. */
module FileContents {
  import opened Outcomes
  import opened Sectors
  import opened BlockMaps

  const STAMP_WORDS := 19           // three 25-byte time stamps and one byte of padding

  function HdrWords(stamps: seq<int32>, h: Hdr): (ws: seq<int32>)
    requires |stamps| == STAMP_WORDS && |h.dataSectors| == SLOTS
    ensures |ws| == WORDS && HdrFrom(ws) == h
  {
    var ws := stamps + [h.numBytes, h.numSectors] + h.dataSectors;
    assert ws[STAMP_WORDS + 2..] == h.dataSectors;
    ws
  }

  function HdrFrom(ws: seq<int32>): Hdr
    requires |ws| == WORDS
  {
    Hdr(ws[STAMP_WORDS], ws[STAMP_WORDS + 1], ws[STAMP_WORDS + 2..])
  }

  // FetchFrom's view of a sector.
  function DecodeHdr(s: Sector): (h: Hdr)
    ensures |h.dataSectors| == SLOTS
  {
    HdrFrom(WordsOf(s))
  }

  // WriteBack's image of a header, under arbitrary time stamps.
  function EncodeHdr(stamps: seq<int32>, h: Hdr): (s: Sector)
    requires |stamps| == STAMP_WORDS && |h.dataSectors| == SLOTS
    ensures DecodeHdr(s) == h
  {
    SectorOf(HdrWords(stamps, h))
  }

  // Where the fields of a header are in its sector: behind the time stamps, word by word.
  lemma HdrLayout(s: Sector, i: nat, k: nat)
    requires i < SLOTS && k < 4
    ensures var h := DecodeHdr(s);
            && s[76 + k] as int == Unsigned(h.numBytes) / Weight(k) % 256
            && s[80 + k] as int == Unsigned(h.numSectors) / Weight(k) % 256
            && s[84 + 4 * i + k] as int == Unsigned(h.dataSectors[i]) / Weight(k) % 256
  {
    assert (76 + k) / 4 == 19 && (80 + k) / 4 == 20 && (84 + 4 * i + k) / 4 == 21 + i && (84 + 4 * i + k) % 4 == (80 + k) % 4 == (76 + k) % 4 == k;
    SectorByte(s, 76 + k);
    SectorByte(s, 80 + k);
    SectorByte(s, 84 + 4 * i + k);
    hide Weight;
    hide WordFrom;
  }

  // The byte at offset o, within the allocated blocks but possibly past the end of the file.
  ghost function RawByte(h: Hdr, flat: Flat, o: nat): byte
    requires WellFormed(h, flat) && o / SECTOR_SIZE < h.numSectors
  {
    BlockOnDisk(h, flat, o / SECTOR_SIZE);
    flat[Blocks(h, flat)[o / SECTOR_SIZE]][o % SECTOR_SIZE]
  }

  lemma BlockOnDisk(h: Hdr, flat: Flat, b: nat)
    requires WellFormed(h, flat) && b < h.numSectors
    ensures OnDisk(Blocks(h, flat)[b]) && Blocks(h, flat)[b] in Owned(h, flat)
  {
    assert Look(0);
    assert Blocks(h, flat)[b] in multiset(Blocks(h, flat));
  }

  // All the bytes of the allocated blocks.
  ghost function Raw(h: Hdr, flat: Flat): (r: seq<byte>)
    requires WellFormed(h, flat)
    ensures |r| == h.numSectors * SECTOR_SIZE
  {
    seq(h.numSectors * SECTOR_SIZE, o requires 0 <= o < h.numSectors * SECTOR_SIZE => RawByte(h, flat, o))
  }

  // A header whose blocks cover its length, stored in a sector that is none of its own.
  ghost predicate Sound(h: Hdr, flat: Flat, headerSector: nat)
  {
    && WellFormed(h, flat)
    && 0 <= h.numBytes <= h.numSectors * SECTOR_SIZE
    && headerSector < NUM_SECTORS && headerSector !in Owned(h, flat)
  }

  ghost function Contents(h: Hdr, flat: Flat): (r: seq<byte>)
    requires WellFormed(h, flat) && 0 <= h.numBytes <= h.numSectors * SECTOR_SIZE
    ensures |r| == h.numBytes
  {
    Raw(h, flat)[..h.numBytes]
  }

  // s with the bytes from `at` on overwritten by data.
  function Splice<T>(s: seq<T>, at: nat, data: seq<T>): (r: seq<T>)
    requires at + |data| <= |s|
    ensures |r| == |s|
  {
    s[..at] + data + s[at + |data|..]
  }

  lemma SplicePrefix<T>(s: seq<T>, at: nat, data: seq<T>)
    requires at + |data| <= |s|
    ensures Splice(s, at, data)[..at + |data|] == s[..at] + data
    ensures Splice(s, at, data)[at + |data|..] == s[at + |data|..]
  {
  }

  lemma SlicesJoin<T>(s: seq<T>, a: nat, b: nat, c: nat)
    requires a <= b <= c <= |s|
    ensures s[a..c] == s[a..b] + s[b..c]
  {
  }

  // Block b of the file is sector b of its bytes.
  lemma RawBlock(h: Hdr, flat: Flat, b: nat)
    requires WellFormed(h, flat) && b < h.numSectors
    ensures OnDisk(Blocks(h, flat)[b])
    ensures Raw(h, flat)[b * SECTOR_SIZE..(b + 1) * SECTOR_SIZE] == flat[Blocks(h, flat)[b]]
  {
    BlockOnDisk(h, flat, b);
    var r := Raw(h, flat);
    forall k | 0 <= k < SECTOR_SIZE
      ensures r[b * SECTOR_SIZE..(b + 1) * SECTOR_SIZE][k] == flat[Blocks(h, flat)[b]][k]
    {
      assert (b * SECTOR_SIZE + k) / SECTOR_SIZE == b && (b * SECTOR_SIZE + k) % SECTOR_SIZE == k;
    }
  }

  // Two disks that agree on everything a header refers to give it the same bytes.
  lemma RawFrame(h: Hdr, flat: Flat, flat': Flat)
    requires WellFormed(h, flat) && forall s :: s in Owned(h, flat) ==> OnDisk(s) && flat'[s] == flat[s]
    ensures WellFormed(h, flat') && Blocks(h, flat') == Blocks(h, flat) && Owned(h, flat') == Owned(h, flat)
    ensures Raw(h, flat') == Raw(h, flat)
  {
    assert forall s :: s in IndexSectors(h) ==> s in Owned(h, flat);
    BlocksFrame(h, flat, flat');
    forall o: nat | o < h.numSectors * SECTOR_SIZE
      ensures RawByte(h, flat', o) == RawByte(h, flat, o)
    {
      BlockOnDisk(h, flat, o / SECTOR_SIZE);
    }
  }

  // Writing the sector of block b splices it into the bytes of the file.
  lemma BlockWrite(h: Hdr, flat: Flat, b: nat, data: Sector)
    requires WellFormed(h, flat) && b < h.numSectors && OnDisk(Blocks(h, flat)[b])
    ensures var flat' := flat[Blocks(h, flat)[b] := data];
            && WellFormed(h, flat') && Blocks(h, flat') == Blocks(h, flat) && Owned(h, flat') == Owned(h, flat)
            && Raw(h, flat') == Splice(Raw(h, flat), b * SECTOR_SIZE, data)
  {
    ReferencesDiffer(h, flat);
    var bs := Blocks(h, flat);
    assert bs[b] in bs;
    var flat' := flat[bs[b] := data];
    BlocksFrame(h, flat, flat');
    var r, r' := Raw(h, flat), Raw(h, flat');
    hide Blocks;
    hide Raw;
    hide Proper;
    forall o: nat | o < |r|
      ensures r'[o] == Splice(r, b * SECTOR_SIZE, data)[o]
    {
      RawAt(h, flat, o);
      RawAt(h, flat', o);
      InBlock(o, b);
    }
  }

  lemma RawAt(h: Hdr, flat: Flat, o: nat)
    requires WellFormed(h, flat) && o < h.numSectors * SECTOR_SIZE
    ensures var c := o / SECTOR_SIZE;
            && c < h.numSectors && OnDisk(Blocks(h, flat)[c])
            && Raw(h, flat)[o] == flat[Blocks(h, flat)[c]][o % SECTOR_SIZE]
  {
    BlockOnDisk(h, flat, o / SECTOR_SIZE);
  }

  lemma InBlock(o: nat, b: nat)
    ensures o / SECTOR_SIZE == b <==> b * SECTOR_SIZE <= o < (b + 1) * SECTOR_SIZE
    ensures o / SECTOR_SIZE == b ==> o % SECTOR_SIZE == o - b * SECTOR_SIZE
  {
  }

  // Rewriting the header's own sector leaves the file as it is.
  lemma HeaderWrite(h: Hdr, flat: Flat, headerSector: nat, image: Sector)
    requires Sound(h, flat, headerSector)
    ensures Sound(h, flat[headerSector := image], headerSector)
    ensures Raw(h, flat[headerSector := image]) == Raw(h, flat)
    ensures Owned(h, flat[headerSector := image]) == Owned(h, flat)
  {
    assert Look(0);
    RawFrame(h, flat, flat[headerSector := image]);
  }

  // How many bytes a read of numBytes at position delivers.
  function ReadCount(length: nat, numBytes: int, position: nat): (n: nat)
    ensures n > 0 ==> position + n <= length && n <= numBytes
  {
    if numBytes <= 0 || position >= length then 0 else Min(numBytes, length - position)
  }

  // The buffer after `count` bytes of the file at position were copied to offset off.
  function AfterRead(buf: seq<byte>, off: nat, raw: seq<byte>, position: nat, count: nat): (r: seq<byte>)
    requires count > 0 ==> off + count <= |buf| && position + count <= |raw|
    ensures |r| == |buf|
  {
    if count == 0 then buf else Splice(buf, off, raw[position..position + count])
  }

  // Sectors first .. last hold the bytes position .. position+n-1 and no sector too many.
  lemma SectorSpan(position: nat, n: nat)
    requires n > 0
    ensures var first, last := position / SECTOR_SIZE, (position + n - 1) / SECTOR_SIZE;
            && first <= last
            && first * SECTOR_SIZE <= position < (first + 1) * SECTOR_SIZE
            && last * SECTOR_SIZE < position + n <= (last + 1) * SECTOR_SIZE
  {
  }

  lemma SliceOfSlice<T>(s: seq<T>, a: nat, b: nat, i: nat, j: nat)
    requires a <= b <= |s| && i <= j <= b - a
    ensures s[a..b][i..j] == s[a + i..a + j]
  {
    var t := s[a..b];
    forall k | 0 <= k < j - i ensures t[i..j][k] == s[a + i..a + j][k] {
      assert t[i..j][k] == t[i + k];
      assert t[i + k] == s[a + (i + k)];
    }
  }

  // The bytes wanted, cut out of the whole sectors around them.
  lemma CutOut(raw: seq<byte>, position: nat, n: nat, buf: seq<byte>)
    requires n > 0 && position + n <= |raw|
    requires var first, last := position / SECTOR_SIZE, (position + n - 1) / SECTOR_SIZE;
             (last + 1) * SECTOR_SIZE <= |raw| && buf == raw[first * SECTOR_SIZE..(last + 1) * SECTOR_SIZE]
    ensures var at := position - position / SECTOR_SIZE * SECTOR_SIZE;
            0 <= at && at + n <= |buf| && buf[at..at + n] == raw[position..position + n]
  {
    SectorSpan(position, n);
    var first, last := position / SECTOR_SIZE, (position + n - 1) / SECTOR_SIZE;
    var at := position - first * SECTOR_SIZE;
    SliceOfSlice(raw, first * SECTOR_SIZE, (last + 1) * SECTOR_SIZE, at, at + n);
  }

  lemma SpliceMore<T>(s: seq<T>, at: nat, x: seq<T>, y: seq<T>)
    requires at + |x| + |y| <= |s|
    ensures Splice(Splice(s, at, x), at + |x|, y) == Splice(s, at, x + y)
  {
  }

  // Sector j of a buffer.
  function Chunk(buf: seq<byte>, j: nat): Sector
    requires (j + 1) * SECTOR_SIZE <= |buf|
  {
    buf[j * SECTOR_SIZE..(j + 1) * SECTOR_SIZE]
  }

  lemma SpliceChunk(s: seq<byte>, base: nat, buf: seq<byte>, j: nat)
    requires base + |buf| <= |s| && (j + 1) * SECTOR_SIZE <= |buf|
    ensures Splice(Splice(s, base, buf[..j * SECTOR_SIZE]), base + j * SECTOR_SIZE, Chunk(buf, j))
         == Splice(s, base, buf[..(j + 1) * SECTOR_SIZE])
  {
    SpliceMore(s, base, buf[..j * SECTOR_SIZE], Chunk(buf, j));
    assert buf[..(j + 1) * SECTOR_SIZE] == buf[..j * SECTOR_SIZE] + Chunk(buf, j);
  }

  // t is s after the first j sectors of the buffer were written from sector `first` on.
  ghost predicate Written(s: seq<byte>, first: nat, buf: seq<byte>, j: nat, t: seq<byte>)
  {
    && |t| == |s|
    && forall x {:trigger Look(x)} :: Look(x) ==>
         && first * SECTOR_SIZE + |buf| <= |s| && j * SECTOR_SIZE <= |buf|
         && t == Splice(s, first * SECTOR_SIZE, buf[..j * SECTOR_SIZE])
  }

  lemma WrittenStart(s: seq<byte>, first: nat, buf: seq<byte>)
    requires first * SECTOR_SIZE + |buf| <= |s|
    ensures Written(s, first, buf, 0, s)
  {
    assert buf[..0] == [];
    assert Splice(s, first * SECTOR_SIZE, []) == s;
  }

  lemma WrittenNext(s: seq<byte>, first: nat, buf: seq<byte>, j: nat, t: seq<byte>)
    requires Written(s, first, buf, j, t) && (j + 1) * SECTOR_SIZE <= |buf| && (first + j + 1) * SECTOR_SIZE <= |s|
    ensures Written(s, first, buf, j + 1, Splice(t, (first + j) * SECTOR_SIZE, Chunk(buf, j)))
  {
    assert Look(0);
    SpliceChunk(s, first * SECTOR_SIZE, buf, j);
    assert (first + j) * SECTOR_SIZE == first * SECTOR_SIZE + j * SECTOR_SIZE;
  }

  lemma WrittenAll(s: seq<byte>, first: nat, buf: seq<byte>, j: nat, t: seq<byte>)
    requires Written(s, first, buf, j, t) && |buf| == j * SECTOR_SIZE
    ensures first * SECTOR_SIZE + |buf| <= |s| && t == Splice(s, first * SECTOR_SIZE, buf)
  {
    assert Look(0);
    assert buf[..j * SECTOR_SIZE] == buf;
  }

  // A buffer of whole sectors that around the new data still holds the file's own bytes,
  // as far as the file reaches.
  ghost predicate Framed(raw: seq<byte>, len: nat, base: nat, at: nat, n: nat, buf: seq<byte>)
  {
    && at + n <= |buf| && base + |buf| <= |raw|
    && (forall k :: 0 <= k < at ==> buf[k] == raw[base + k])
    && (forall k :: at + n <= k < |buf| && base + k < len ==> buf[k] == raw[base + k])
  }

  // Writing such a buffer over its sectors changes exactly the bytes the data covers.
  lemma FramedWrite(raw: seq<byte>, len: nat, base: nat, at: nat, data: seq<byte>, buf: seq<byte>)
    requires len <= |raw| && Framed(raw, len, base, at, |data|, buf) && base + at + |data| <= len
    ensures Splice(raw, base, Splice(buf, at, data))[..len] == Splice(raw[..len], base + at, data)
  {
    var w := Splice(raw, base, Splice(buf, at, data));
    forall o | 0 <= o < len
      ensures w[..len][o] == Splice(raw[..len], base + at, data)[o]
    {
      if base <= o < base + |buf| {
        assert w[o] == Splice(buf, at, data)[o - base];
        if at + |data| <= o - base {
          assert buf[o - base] == raw[base + (o - base)];
        } else if o - base < at {
          assert buf[o - base] == raw[base + (o - base)];
        }
      }
    }
  }

  // Sector p of the buffer holds the file's bytes, as far as the file reaches.
  ghost predicate Matches(raw: seq<byte>, len: nat, base: nat, p: nat, buf: seq<byte>)
  {
    && p + SECTOR_SIZE <= |buf| && base + |buf| <= |raw|
    && forall k :: p <= k < p + SECTOR_SIZE && base + k < len ==> buf[k] == raw[base + k]
  }

  // Reading one sector's worth of the file into sector p of the buffer.
  lemma EdgeRead(raw: seq<byte>, len: nat, base: nat, p: nat, c: nat, buf: seq<byte>)
    requires p + SECTOR_SIZE <= |buf| && base + |buf| <= |raw| && c == ReadCount(len, SECTOR_SIZE, base + p) && len <= |raw|
    ensures var r := AfterRead(buf, p, raw, base + p, c);
            Matches(raw, len, base, p, r) && r[..p] == buf[..p] && r[p + SECTOR_SIZE..] == buf[p + SECTOR_SIZE..]
  {
    if c > 0 {
      var r := Splice(buf, p, raw[base + p..base + p + c]);
      forall k | p <= k < p + SECTOR_SIZE && base + k < len ensures r[k] == raw[base + k] {
        assert r[k] == raw[base + p..base + p + c][k - p];
        assert raw[base + p..base + p + c][k - p] == raw[base + p + (k - p)];
      }
    }
  }

  lemma StillMatches(raw: seq<byte>, len: nat, base: nat, p: nat, buf: seq<byte>, q: nat, r: seq<byte>)
    requires Matches(raw, len, base, p, buf) && p + SECTOR_SIZE <= q <= |buf| == |r| && r[..q] == buf[..q]
    ensures Matches(raw, len, base, p, r)
  {
    forall k | p <= k < p + SECTOR_SIZE && base + k < len ensures r[k] == raw[base + k] {
      assert r[k] == r[..q][k] == buf[..q][k];
    }
  }

  // With the partly covered edge sectors read in, the buffer frames the data.
  lemma EdgesFrame(raw: seq<byte>, len: nat, position: nat, n: nat, buf: seq<byte>)
    requires n > 0 && position + n <= len <= |raw|
    requires var first, last := position / SECTOR_SIZE, (position + n - 1) / SECTOR_SIZE;
             && |buf| == (last + 1 - first) * SECTOR_SIZE && first * SECTOR_SIZE + |buf| <= |raw|
             && (position != first * SECTOR_SIZE ==> Matches(raw, len, first * SECTOR_SIZE, 0, buf))
             && (position + n != (last + 1) * SECTOR_SIZE && (first != last || position == first * SECTOR_SIZE) ==>
                   Matches(raw, len, first * SECTOR_SIZE, (last - first) * SECTOR_SIZE, buf))
    ensures var first := position / SECTOR_SIZE;
            Framed(raw, len, first * SECTOR_SIZE, position - first * SECTOR_SIZE, n, buf)
  {
    SectorSpan(position, n);
  }

  // A write that stays inside the header's own sector and the sectors it refers to.
  ghost predicate Confined(h: Hdr, flat0: Flat, flat: Flat, headerSector: nat)
  {
    forall x {:trigger Look(x)} :: Look(x) ==>
      && WellFormed(h, flat0) && WellFormed(h, flat)
      && Blocks(h, flat) == Blocks(h, flat0) && Owned(h, flat) == Owned(h, flat0)
      && forall s: nat :: s < NUM_SECTORS && s !in Owned(h, flat0) && s != headerSector ==> flat[s] == flat0[s]
  }

  lemma ConfinedTrans(h: Hdr, flat0: Flat, flat1: Flat, flat: Flat, headerSector: nat)
    requires Confined(h, flat0, flat1, headerSector) && Confined(h, flat1, flat, headerSector)
    ensures Confined(h, flat0, flat, headerSector)
  {
  }

  lemma ConfinedHeader(h: Hdr, flat: Flat, headerSector: nat, image: Sector)
    requires Sound(h, flat, headerSector)
    ensures Confined(h, flat, flat[headerSector := image], headerSector)
  {
    assert Look(0);
    RawFrame(h, flat, flat[headerSector := image]);
  }

  // Header h, kept in sector headerSector, stands on this disk for a file with these bytes
  // in its allocated blocks.
  ghost predicate Stores(h: Hdr, flat: Flat, headerSector: nat, raw: seq<byte>)
  {
    && 0 <= h.numSectors <= MAX_SECTORS && |raw| == h.numSectors * SECTOR_SIZE
    && 0 <= h.numBytes <= |raw| && headerSector < NUM_SECTORS
    && forall x {:trigger Look(x)} :: Look(x) ==> Sound(h, flat, headerSector) && raw == Raw(h, flat)
  }

  lemma StoresBlock(h: Hdr, flat: Flat, headerSector: nat, raw: seq<byte>, b: nat)
    requires Stores(h, flat, headerSector, raw) && b < h.numSectors
    ensures Readable(h) && OnDisk(BlockSector(h, flat, b))
    ensures flat[BlockSector(h, flat, b)] == raw[b * SECTOR_SIZE..(b + 1) * SECTOR_SIZE]
  {
    assert Look(0);
    RawBlock(h, flat, b);
    assert Blocks(h, flat)[b] == BlockSector(h, flat, b);
  }

  lemma StoresWrite(h: Hdr, flat: Flat, headerSector: nat, raw: seq<byte>, b: nat, data: Sector)
    requires Stores(h, flat, headerSector, raw) && b < h.numSectors
    ensures Readable(h) && OnDisk(BlockSector(h, flat, b))
    ensures Stores(h, flat[BlockSector(h, flat, b) := data], headerSector, Splice(raw, b * SECTOR_SIZE, data))
    ensures Confined(h, flat, flat[BlockSector(h, flat, b) := data], headerSector)
  {
    assert Look(0);
    BlockOnDisk(h, flat, b);
    assert Blocks(h, flat)[b] == BlockSector(h, flat, b);
    BlockWrite(h, flat, b, data);
  }

  lemma StoresHeader(h: Hdr, flat: Flat, headerSector: nat, raw: seq<byte>, image: Sector)
    requires Stores(h, flat, headerSector, raw)
    ensures Stores(h, flat[headerSector := image], headerSector, raw)
    ensures Confined(h, flat, flat[headerSector := image], headerSector)
  {
    assert Look(0);
    HeaderWrite(h, flat, headerSector, image);
    ConfinedHeader(h, flat, headerSector, image);
  }

  lemma ConfinedSame(h: Hdr, flat: Flat, headerSector: nat, raw: seq<byte>)
    requires Stores(h, flat, headerSector, raw)
    ensures Confined(h, flat, flat, headerSector)
  {
  }
}
