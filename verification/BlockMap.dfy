/** The shape of a file header (code/filesys/filehdr.h): six direct slots, then up to
    five index blocks of 32 sector numbers each, and the block-to-sector map it stands for. */
module BlockMaps {
  import opened Outcomes
  import opened Sectors

  const NUM_DIRECT := 6
  const NUM_SECOND_INDEX := 5
  const SECOND_DIRECT := 32
  const SLOTS := NUM_DIRECT + NUM_SECOND_INDEX
  const MAX_SECTORS := NUM_DIRECT + NUM_SECOND_INDEX * SECOND_DIRECT
  const MAX_FILE_SIZE := MAX_SECTORS * SECTOR_SIZE

  // The fields of a FileHeader other than the three time stamps.
  datatype Hdr = Hdr(numBytes: int32, numSectors: int32, dataSectors: seq<int32>)

  predicate OnDisk(s: int) { 0 <= s < NUM_SECTORS }

  // How many index blocks n data sectors need.
  function IndexCount(n: nat): (q: nat)
    ensures n <= MAX_SECTORS ==> q <= NUM_SECOND_INDEX
  {
    if n <= NUM_DIRECT then 0 else (n - NUM_DIRECT - 1) / SECOND_DIRECT + 1
  }

  lemma IndexCountRoundsUp(n: nat)
    requires n > NUM_DIRECT
    ensures IndexCount(n) == DivRoundUp(n - NUM_DIRECT, SECOND_DIRECT)
  {
  }

  // A header whose index blocks can be read at all.
  predicate Readable(h: Hdr)
  {
    && |h.dataSectors| == SLOTS
    && 0 <= h.numSectors <= MAX_SECTORS
    && forall i :: NUM_DIRECT <= i < NUM_DIRECT + IndexCount(h.numSectors) ==> OnDisk(h.dataSectors[i])
  }

  function IndexSectors(h: Hdr): (r: seq<int>)
    requires Readable(h)
    ensures forall s :: s in r ==> OnDisk(s)
  {
    h.dataSectors[NUM_DIRECT..NUM_DIRECT + IndexCount(h.numSectors)]
  }

  // The sector of block b: what ByteToSector computes for the bytes of that block.
  function BlockSector(h: Hdr, flat: Flat, b: nat): (s: int)
    requires Readable(h) && b < h.numSectors
  {
    if b < NUM_DIRECT then h.dataSectors[b]
    else
      var q := (b - NUM_DIRECT) / SECOND_DIRECT;
      WordsOf(flat[h.dataSectors[NUM_DIRECT + q]])[(b - NUM_DIRECT) % SECOND_DIRECT]
  }

  function Blocks(h: Hdr, flat: Flat): (r: seq<int>)
    requires Readable(h)
    ensures |r| == h.numSectors
  {
    seq(h.numSectors, b requires 0 <= b < h.numSectors => BlockSector(h, flat, b))
  }

  // Every reference to a data or index sector the header makes, with repetitions.
  function References(h: Hdr, flat: Flat): (r: multiset<int>)
    requires Readable(h)
  {
    multiset(Blocks(h, flat)) + multiset(IndexSectors(h))
  }

  function Owned(h: Hdr, flat: Flat): (r: set<int>)
    requires Readable(h)
  {
    set s | s in References(h, flat)
  }

  // All on the disk, and none twice.
  ghost predicate Proper(refs: multiset<int>)
  {
    forall x {:trigger Look(x)} :: Look(x) ==> forall s :: s in refs ==> OnDisk(s) && refs[s] == 1
  }

  ghost predicate WellFormed(h: Hdr, flat: Flat)
  {
    Readable(h) && Proper(References(h, flat))
  }

  // Two positions of a sequence holding the same value count it twice.
  lemma TwicePresent(s: seq<int>, i: nat, j: nat)
    requires i < j < |s| && s[i] == s[j]
    ensures multiset(s)[s[i]] >= 2
  {
    assert s == s[..j] + s[j..];
    assert s[..j][i] == s[i] && s[j..][0] == s[j];
    assert multiset(s) == multiset(s[..j]) + multiset(s[j..]);
  }

  // In a well-formed header, different blocks and index blocks lie in different sectors.
  lemma ReferencesDiffer(h: Hdr, flat: Flat)
    requires WellFormed(h, flat)
    ensures forall i, j :: 0 <= i < j < h.numSectors ==> Blocks(h, flat)[i] != Blocks(h, flat)[j]
    ensures forall i, j :: 0 <= i < j < |IndexSectors(h)| ==> IndexSectors(h)[i] != IndexSectors(h)[j]
    ensures forall s :: s in Blocks(h, flat) ==> OnDisk(s) && s !in IndexSectors(h)
  {
    assert Look(0);
    var bs, xs := Blocks(h, flat), IndexSectors(h);
    forall i, j | 0 <= i < j < |bs| ensures bs[i] != bs[j] {
      assert bs[i] in References(h, flat);
      if bs[i] == bs[j] { TwicePresent(bs, i, j); }
    }
    forall i, j | 0 <= i < j < |xs| ensures xs[i] != xs[j] {
      assert xs[i] in multiset(xs);
      if xs[i] == xs[j] { TwicePresent(xs, i, j); }
    }
    forall s | s in bs ensures OnDisk(s) && s !in xs {
      assert s in multiset(bs);
      assert s in xs ==> s in multiset(xs);
    }
  }

  // The block map depends on the header's own index sectors only.
  lemma BlocksFrame(h: Hdr, flat: Flat, flat': Flat)
    requires Readable(h)
    requires forall s :: s in IndexSectors(h) ==> flat'[s] == flat[s]
    ensures Blocks(h, flat') == Blocks(h, flat)
    ensures Owned(h, flat') == Owned(h, flat)
    ensures WellFormed(h, flat) ==> WellFormed(h, flat')
  {
    forall b: nat | b < h.numSectors
      ensures BlockSector(h, flat', b) == BlockSector(h, flat, b)
    {
      if b >= NUM_DIRECT {
        var q := (b - NUM_DIRECT) / SECOND_DIRECT;
        assert h.dataSectors[NUM_DIRECT + q] == IndexSectors(h)[q];
      }
    }
    assert Blocks(h, flat') == Blocks(h, flat);
  }

  // Storing one more sector number in a direct slot appends one block.
  lemma AppendDirect(h: Hdr, h': Hdr, flat: Flat, s: int32)
    requires Readable(h) && h.numSectors < NUM_DIRECT
    requires h'.numSectors == h.numSectors + 1
    requires h'.dataSectors == h.dataSectors[h.numSectors := s]
    ensures Readable(h') && Blocks(h', flat) == Blocks(h, flat) + [s]
    ensures IndexSectors(h') == IndexSectors(h) == []
  {
  }

  lemma IndexCountAt(n: nat, q: nat, from: nat)
    requires n == NUM_DIRECT + q * SECOND_DIRECT + from && from <= SECOND_DIRECT
    ensures IndexCount(n) == if from == 0 then q else q + 1
  {
  }

  lemma SlotAt(n: nat, q: nat)
    requires NUM_DIRECT + q * SECOND_DIRECT <= n < NUM_DIRECT + (q + 1) * SECOND_DIRECT
    ensures (n - NUM_DIRECT) % SECOND_DIRECT == n - NUM_DIRECT - q * SECOND_DIRECT
  {
  }

  // Entry j of index block q is block 6 + 32q + j.
  lemma EntryAt(h: Hdr, flat: Flat, q: nat, j: nat)
    requires Readable(h) && j < SECOND_DIRECT && NUM_DIRECT + q * SECOND_DIRECT + j < h.numSectors
    ensures q < IndexCount(h.numSectors)
    ensures Blocks(h, flat)[NUM_DIRECT + q * SECOND_DIRECT + j] == WordsOf(flat[h.dataSectors[NUM_DIRECT + q]])[j]
  {
    SlotAt(NUM_DIRECT + q * SECOND_DIRECT + j, q);
  }

  // h' and flat' come from h and flat by writing k more sector numbers ws[from..from+k]
  // into index block q, which already holds `from` of them (none when it is newly opened).
  predicate Indexed(h: Hdr, h': Hdr, flat: Flat, flat': Flat, q: nat, from: nat, k: nat, ws: seq<int32>)
  {
    && Readable(h) && q < NUM_SECOND_INDEX && k > 0 && from + k <= SECOND_DIRECT == |ws|
    && h.numSectors == NUM_DIRECT + q * SECOND_DIRECT + from && h'.numSectors == h.numSectors + k
    && |h'.dataSectors| == SLOTS && OnDisk(h'.dataSectors[NUM_DIRECT + q])
    && (forall i :: 0 <= i < NUM_DIRECT + q ==> h'.dataSectors[i] == h.dataSectors[i])
    && (forall i :: NUM_DIRECT <= i < NUM_DIRECT + q ==> h.dataSectors[i] != h'.dataSectors[NUM_DIRECT + q])
    && flat' == flat[h'.dataSectors[NUM_DIRECT + q] := flat'[h'.dataSectors[NUM_DIRECT + q]]]
    && WordsOf(flat'[h'.dataSectors[NUM_DIRECT + q]]) == ws
    && (from > 0 ==>
          && h'.dataSectors[NUM_DIRECT + q] == h.dataSectors[NUM_DIRECT + q]
          && OnDisk(h.dataSectors[NUM_DIRECT + q])
          && forall i :: 0 <= i < from ==> ws[i] == WordsOf(flat[h.dataSectors[NUM_DIRECT + q]])[i])
  }

  lemma AppendIndexedAt(h: Hdr, h': Hdr, flat: Flat, flat': Flat, q: nat, from: nat, k: nat, ws: seq<int32>, b: nat)
    requires Indexed(h, h', flat, flat', q, from, k, ws) && Readable(h') && b < h'.numSectors
    ensures BlockSector(h', flat', b) == if b < h.numSectors then BlockSector(h, flat, b) else ws[from + b - h.numSectors]
  {
    if b >= NUM_DIRECT {
      var p := (b - NUM_DIRECT) / SECOND_DIRECT;
      if p < q {
        assert flat'[h'.dataSectors[NUM_DIRECT + p]] == flat[h.dataSectors[NUM_DIRECT + p]];
      } else {
        assert p == q;
      }
    }
  }

  lemma AppendIndexedSlots(h: Hdr, h': Hdr, flat: Flat, flat': Flat, q: nat, from: nat, k: nat, ws: seq<int32>)
    requires Indexed(h, h', flat, flat', q, from, k, ws)
    ensures Readable(h')
    ensures IndexSectors(h') == IndexSectors(h) + if from == 0 then [h'.dataSectors[NUM_DIRECT + q]] else []
  {
    IndexCountAt(h.numSectors, q, from);
    IndexCountAt(h'.numSectors, q, from + k);
    var n := if from == 0 then q else q + 1;
    assert IndexCount(h.numSectors) == n && IndexCount(h'.numSectors) == q + 1;
    assert forall i :: NUM_DIRECT <= i < NUM_DIRECT + n ==> h'.dataSectors[i] == h.dataSectors[i] && OnDisk(h.dataSectors[i]);
    assert forall i :: NUM_DIRECT <= i < NUM_DIRECT + q + 1 ==> OnDisk(h'.dataSectors[i]);
    SlotsAppend(h.dataSectors, h'.dataSectors, n, q);
  }

  lemma SlotsAppend(a: seq<int32>, b: seq<int32>, n: nat, q: nat)
    requires |a| == |b| == SLOTS && q <= n <= q + 1 && NUM_DIRECT + q < SLOTS
    requires forall i :: NUM_DIRECT <= i < NUM_DIRECT + n ==> b[i] == a[i]
    ensures b[NUM_DIRECT..NUM_DIRECT + q + 1] == a[NUM_DIRECT..NUM_DIRECT + n] + if n == q then [b[NUM_DIRECT + q]] else []
  {
  }

  // Filling part of an index block appends exactly the sector numbers written.
  lemma AppendIndexed(h: Hdr, h': Hdr, flat: Flat, flat': Flat, q: nat, from: nat, k: nat, ws: seq<int32>)
    requires Indexed(h, h', flat, flat', q, from, k, ws)
    ensures Readable(h') && Blocks(h', flat') == Blocks(h, flat) + ws[from..from + k]
    ensures IndexSectors(h') == IndexSectors(h) + if from == 0 then [h'.dataSectors[NUM_DIRECT + q]] else []
  {
    AppendIndexedSlots(h, h', flat, flat', q, from, k, ws);
    var bs, bs' := Blocks(h, flat), Blocks(h', flat');
    forall b: nat | b < |bs'|
      ensures bs'[b] == if b < |bs| then bs[b] else ws[from + b - |bs|]
    {
      AppendIndexedAt(h, h', flat, flat', q, from, k, ws, b);
    }
    assert bs' == bs + ws[from..from + k];
  }
}
