/** How a file header grows: the sectors a series of Finds hands out, and what storing them
    in direct slots and index blocks does to the block list (code/filesys/filehdr.cc:299-359). */
module Growths {
  import opened Outcomes
  import opened Sectors
  import opened BlockMaps
  import opened BitMaps

  // The first clear sector, NUM_SECTORS when there is none.
  ghost function FirstClear(m: set<nat>, from: nat): (s: nat)
    ensures from <= s && (s < NUM_SECTORS ==> s !in m) && forall k :: from <= k < s ==> k in m
    decreases NUM_SECTORS - from
  {
    if from >= NUM_SECTORS || from !in m then from else FirstClear(m, from + 1)
  }

  lemma FirstClearFound(m: set<nat>, found: int)
    requires found == -1 <==> FullBelow(m, NUM_SECTORS)
    requires found != -1 ==> 0 <= found < NUM_SECTORS && found !in m && forall k: nat :: k < found ==> k in m
    ensures found == if FirstClear(m, 0) < NUM_SECTORS then FirstClear(m, 0) else -1
  {
    hide FirstClear;
  }

  // What one Find did to the marked set.
  ghost predicate Found(before: set<nat>, s: int, after: set<nat>)
  {
    if s == -1 then before == after && FullBelow(before, NUM_SECTORS)
    else OnDisk(s) && s !in before && after == before + {s}
  }

  // The marked set after sectors ss were taken from m, a -1 taking nothing.
  ghost function After(m: set<nat>, ss: seq<int>): set<nat>
  {
    if ss == [] then m
    else
      var s, before := ss[|ss| - 1], After(m, ss[..|ss| - 1]);
      if s >= 0 then before + {s} else before
  }

  // ss is what a series of Finds returned, the first one on marked set m.
  ghost predicate FoundAll(m: set<nat>, ss: seq<int>)
  {
    ss != [] ==>
      && FoundAll(m, ss[..|ss| - 1])
      && Found(After(m, ss[..|ss| - 1]), ss[|ss| - 1], After(m, ss))
  }

  ghost predicate Finds(m: set<nat>, ss: seq<int>, m': set<nat>)
  {
    FoundAll(m, ss) && m' == After(m, ss)
  }

  lemma FoundOne(m: set<nat>, s: int, m': set<nat>)
    requires Found(m, s, m')
    ensures Finds(m, [s], m')
  {
    assert [s][..0] == [] && FoundAll(m, []);
  }

  lemma {:induction false} FoundMore(m: set<nat>, a: seq<int>, b: seq<int>)
    requires FoundAll(m, a) && FoundAll(After(m, a), b)
    ensures FoundAll(m, a + b) && After(m, a + b) == After(After(m, a), b)
    decreases |b|
  {
    if b == [] {
      assert a + b == a;
    } else {
      FoundMore(m, a, b[..|b| - 1]);
      assert (a + b)[..|a + b| - 1] == a + b[..|b| - 1];
    }
  }

  // Sectors taken from a bitmap that does not run out are on the disk, new and different;
  // a bitmap that runs out had fewer clear bits than were asked for.
  lemma {:induction false} FoundFresh(m: set<nat>, ss: seq<int>)
    requires FoundAll(m, ss) && forall k :: k in m ==> k < NUM_SECTORS
    ensures forall k :: k in After(m, ss) <==> k in m || (k in multiset(ss) && k >= 0)
    ensures forall k :: k in After(m, ss) ==> k < NUM_SECTORS
    ensures -1 !in multiset(ss) ==>
              && Proper(multiset(ss))
              && (forall s :: s in multiset(ss) ==> s !in m)
              && |After(m, ss)| == |m| + |ss|
    ensures -1 in multiset(ss) ==> |After(m, ss)| == NUM_SECTORS < |m| + |ss|
  {
    assert Look(0);
    if ss == [] {
    } else {
      var init, s := ss[..|ss| - 1], ss[|ss| - 1];
      FoundFresh(m, init);
      assert ss == init + [s];
      assert multiset(ss) == multiset(init) + multiset{s};
      if s == -1 {
        BelowSize(After(m, init), NUM_SECTORS);
      } else if -1 in multiset(init) {
        BelowSize(After(m, init), NUM_SECTORS);
      }
    }
  }

  // A series of Finds only adds marks, and does add some where there is a clear bit.
  lemma FindsMore(m: set<nat>, ss: seq<int>, m': set<nat>)
    requires Finds(m, ss, m') && ss != [] && forall k :: k in m ==> k < NUM_SECTORS
    ensures m <= m' && (FullBelow(m, NUM_SECTORS) || m < m') && forall k :: k in m' ==> k < NUM_SECTORS
  {
    FoundFresh(m, ss);
    BelowSize(m, NUM_SECTORS);
    assert |m| < NUM_SECTORS ==> m' != m;
  }

  // How many sectors, index blocks included, it takes to grow a file from n to n' blocks.
  function Need(n: nat, n': nat): int
  {
    n' - n + IndexCount(n') - IndexCount(n)
  }

  // The history of an extension: the header, disk and bitmap it started from, the data and
  // index sectors added since, and the order in which they were taken.
  datatype Growth = Growth(h0: Hdr, flat0: Flat, m0: set<nat>, blocks: seq<int>, index: seq<int>, taken: seq<int>)

  predicate SameStart(g: Growth, g': Growth)
  {
    g'.h0 == g.h0 && g'.flat0 == g.flat0 && g'.m0 == g.m0
  }

  ghost predicate Taken(g: Growth, marked: set<nat>)
  {
    && multiset(g.blocks) + multiset(g.index) == multiset(g.taken)
    && FoundAll(g.m0, g.taken)
    && marked == After(g.m0, g.taken)
  }

  ghost predicate Started(g: Growth)
  {
    && WellFormed(g.h0, g.flat0)
    && Owned(g.h0, g.flat0) <= g.m0
    && (forall k :: k in g.m0 ==> k < NUM_SECTORS)
  }

  // h and flat extend g.h0 and g.flat0 by the history's blocks and index blocks, and only
  // index blocks of this header were written.
  ghost predicate Grown(g: Growth, h: Hdr, flat: Flat)
  {
    && Readable(g.h0) && Readable(h)
    && Blocks(h, flat) == Blocks(g.h0, g.flat0) + g.blocks
    && IndexSectors(h) == IndexSectors(g.h0) + g.index
    && h.numBytes == g.h0.numBytes
    && forall s: nat :: s < NUM_SECTORS && s !in IndexSectors(h) ==> flat[s] == g.flat0[s]
  }

  // A sector the next Find returns is not an index sector of the header grown so far.
  lemma NewIndexSector(g: Growth, h: Hdr, flat: Flat, marked: set<nat>, s: int)
    requires Started(g) && Grown(g, h, flat) && Taken(g, marked)
    requires OnDisk(s) && s !in marked
    ensures s !in IndexSectors(h)
  {
    FoundFresh(g.m0, g.taken);
    assert forall x :: x in IndexSectors(g.h0) ==> x in Owned(g.h0, g.flat0);
    assert forall x :: x in g.index ==> x in multiset(g.taken);
  }

  lemma TakeOne(g: Growth, marked: set<nat>, s: int, marked': set<nat>)
    requires Taken(g, marked) && Found(marked, s, marked')
    ensures Taken(g.(blocks := g.blocks + [s], taken := g.taken + [s]), marked')
    ensures Taken(g.(index := g.index + [s], taken := g.taken + [s]), marked')
  {
    assert (g.taken + [s])[..|g.taken|] == g.taken;
  }

  lemma GrowDirect(g: Growth, h: Hdr, h': Hdr, flat: Flat, s: int32)
    requires Grown(g, h, flat) && h.numSectors < NUM_DIRECT
    requires h' == h.(numSectors := h.numSectors + 1, dataSectors := h.dataSectors[h.numSectors := s])
    ensures Grown(g.(blocks := g.blocks + [s], taken := g.taken + [s]), h', flat)
  {
    AppendDirect(h, h', flat, s);
  }

  lemma GrowIndexed(g: Growth, h: Hdr, h': Hdr, flat: Flat, flat': Flat, q: nat, from: nat, k: nat, ws: seq<int32>, g': Growth)
    requires Grown(g, h, flat) && Indexed(h, h', flat, flat', q, from, k, ws) && h'.numBytes == h.numBytes
    requires g' == g.(blocks := g.blocks + ws[from..from + k],
                      index := g.index + (if from == 0 then [h'.dataSectors[NUM_DIRECT + q]] else []),
                      taken := g'.taken)
    ensures Grown(g', h', flat')
  {
    AppendIndexed(h, h', flat, flat', q, from, k, ws);
    IndexWritten(h, h', flat, flat', q, from, k, ws);
    GrownMore(g, h, flat, h', flat', ws[from..from + k], if from == 0 then [h'.dataSectors[NUM_DIRECT + q]] else [], g');
  }

  // On sequences: blocks and index blocks were appended.
  lemma GrownMore(g: Growth, h: Hdr, flat: Flat, h': Hdr, flat': Flat, blocks: seq<int>, index: seq<int>, g': Growth)
    requires Grown(g, h, flat) && Readable(h') && h'.numBytes == h.numBytes
    requires Blocks(h', flat') == Blocks(h, flat) + blocks && IndexSectors(h') == IndexSectors(h) + index
    requires forall s :: s in IndexSectors(h) ==> s in IndexSectors(h')
    requires forall s: nat :: s < NUM_SECTORS && s !in IndexSectors(h') ==> flat'[s] == flat[s]
    requires g' == g.(blocks := g.blocks + blocks, index := g.index + index, taken := g'.taken)
    ensures Grown(g', h', flat')
  {
    hide Blocks;
    hide IndexSectors;
    assert Blocks(g.h0, g.flat0) + g.blocks + blocks == Blocks(g.h0, g.flat0) + (g.blocks + blocks);
    assert IndexSectors(g.h0) + g.index + index == IndexSectors(g.h0) + (g.index + index);
  }

  // The index block that was written is an index sector of the header, like all before.
  lemma IndexWritten(h: Hdr, h': Hdr, flat: Flat, flat': Flat, q: nat, from: nat, k: nat, ws: seq<int32>)
    requires Indexed(h, h', flat, flat', q, from, k, ws) && Readable(h')
    requires IndexSectors(h') == IndexSectors(h) + if from == 0 then [h'.dataSectors[NUM_DIRECT + q]] else []
    ensures forall s :: s in IndexSectors(h) ==> s in IndexSectors(h')
    ensures forall s: nat :: s < NUM_SECTORS && s !in IndexSectors(h') ==> flat'[s] == flat[s]
  {
    var idx := h'.dataSectors[NUM_DIRECT + q];
    if from > 0 {
      IndexCountAt(h.numSectors, q, from);
      assert IndexSectors(h)[q] == idx;
    }
    assert idx in IndexSectors(h');
  }

  // Index sectors of the header an extension starts from are never index sector q again.
  lemma OldIndexDiffers(g: Growth, h: Hdr, flat: Flat, q: nat, from: nat)
    requires WellFormed(g.h0, g.flat0) && Readable(h) && IndexSectors(h) == IndexSectors(g.h0)
    requires h.numSectors == NUM_DIRECT + q * SECOND_DIRECT + from && 0 < from < SECOND_DIRECT
    ensures q < NUM_SECOND_INDEX && OnDisk(h.dataSectors[NUM_DIRECT + q])
    ensures forall i :: NUM_DIRECT <= i < NUM_DIRECT + q ==> h.dataSectors[i] != h.dataSectors[NUM_DIRECT + q]
  {
    IndexCountAt(h.numSectors, q, from);
    ReferencesDiffer(g.h0, g.flat0);
    var xs := IndexSectors(h);
    forall i | NUM_DIRECT <= i < NUM_DIRECT + q
      ensures h.dataSectors[i] != h.dataSectors[NUM_DIRECT + q]
    {
      assert xs[i - NUM_DIRECT] == h.dataSectors[i] && xs[q] == h.dataSectors[NUM_DIRECT + q];
    }
  }

  // The history after index block q was opened in sector s and k sector numbers stored in it.
  function Opened(g: Growth, s: int, ss: seq<int>): Growth
  {
    g.(blocks := g.blocks + ss, index := g.index + [s], taken := g.taken + [s] + ss)
  }

  lemma OpenTaken(g: Growth, m: set<nat>, s: int, m1: set<nat>, ss: seq<int>, m': set<nat>)
    requires Taken(g, m) && Finds(m, [s], m1) && Finds(m1, ss, m')
    ensures Taken(Opened(g, s, ss), m')
  {
    FoundMore(g.m0, g.taken, [s]);
    FoundMore(g.m0, g.taken + [s], ss);
  }

  lemma OpenGrown(g: Growth, h: Hdr, flat: Flat, m: set<nat>, q: nat, s: int32, k: nat, ws: seq<int32>)
    requires Started(g) && Grown(g, h, flat) && Taken(g, m)
    requires q < NUM_SECOND_INDEX && h.numSectors == NUM_DIRECT + q * SECOND_DIRECT
    requires OnDisk(s) && s !in m && 0 < k <= SECOND_DIRECT == |ws|
    ensures Grown(Opened(g, s, ws[0..k]), WithIndex(h, q, s, k), flat[s := SectorOf(ws)])
  {
    var h', flat' := WithIndex(h, q, s, k), flat[s := SectorOf(ws)];
    NewIndexSector(g, h, flat, m, s);
    IndexCountAt(h.numSectors, q, 0);
    assert forall i :: NUM_DIRECT <= i < NUM_DIRECT + q ==> h.dataSectors[i] == IndexSectors(h)[i - NUM_DIRECT];
    assert Indexed(h, h', flat, flat', q, 0, k, ws);
    GrowIndexed(g, h, h', flat, flat', q, 0, k, ws, Opened(g, s, ws[0..k]));
  }

  // The header with k more blocks, index block q being in sector s.
  function WithIndex(h: Hdr, q: nat, s: int32, k: nat): Hdr
    requires |h.dataSectors| == SLOTS && q < NUM_SECOND_INDEX && 0 <= h.numSectors <= MAX_SECTORS && k <= SECOND_DIRECT
  {
    h.(numSectors := h.numSectors + k, dataSectors := h.dataSectors[NUM_DIRECT + q := s])
  }

  // The history after k more sector numbers were stored in a half-full index block.
  function Continued(g: Growth, ss: seq<int>): Growth
  {
    g.(blocks := g.blocks + ss, taken := g.taken + ss)
  }

  lemma ContinueTaken(g: Growth, m: set<nat>, ss: seq<int>, m': set<nat>)
    requires Taken(g, m) && Finds(m, ss, m')
    ensures Taken(Continued(g, ss), m')
  {
    FoundMore(g.m0, g.taken, ss);
  }

  lemma ContinueGrown(g: Growth, h: Hdr, flat: Flat, q: nat, from: nat, k: nat, ws: seq<int32>)
    requires Started(g) && Grown(g, h, flat) && g.index == []
    requires h.numSectors == NUM_DIRECT + q * SECOND_DIRECT + from && 0 < from < from + k <= SECOND_DIRECT == |ws|
    requires q < NUM_SECOND_INDEX && OnDisk(h.dataSectors[NUM_DIRECT + q])
    requires ws[..from] == WordsOf(flat[h.dataSectors[NUM_DIRECT + q]])[..from]
    ensures Grown(Continued(g, ws[from..from + k]), h.(numSectors := h.numSectors + k),
                  flat[h.dataSectors[NUM_DIRECT + q] := SectorOf(ws)])
  {
    var h' := h.(numSectors := h.numSectors + k);
    var flat' := flat[h.dataSectors[NUM_DIRECT + q] := SectorOf(ws)];
    OldIndexDiffers(g, h, flat, q, from);
    forall i | 0 <= i < from
      ensures ws[i] == WordsOf(flat[h.dataSectors[NUM_DIRECT + q]])[i]
    {
      assert ws[i] == ws[..from][i];
    }
    assert Indexed(h, h', flat, flat', q, from, k, ws);
    GrowIndexed(g, h, h', flat, flat', q, from, k, ws, Continued(g, ws[from..from + k]));
  }

  // The history g leads to header h, disk flat and bitmap m.
  ghost predicate Tracks(g: Growth, h: Hdr, flat: Flat, m: set<nat>)
  {
    && |h.dataSectors| == SLOTS && 0 <= g.h0.numSectors <= h.numSectors <= MAX_SECTORS
    && forall x {:trigger Look(x)} :: Look(x) ==> Started(g) && Grown(g, h, flat) && Taken(g, m)
  }

  lemma TracksStart(h: Hdr, flat: Flat, m: set<nat>)
    requires WellFormed(h, flat) && Owned(h, flat) <= m && forall k :: k in m ==> k < NUM_SECTORS
    ensures Tracks(Growth(h, flat, m, [], [], []), h, flat, m)
  {
  }

  // The header with sector s stored in its first free direct slot.
  function WithDirect(h: Hdr, s: int32): Hdr
    requires |h.dataSectors| == SLOTS && 0 <= h.numSectors < NUM_DIRECT
  {
    h.(numSectors := h.numSectors + 1, dataSectors := h.dataSectors[h.numSectors := s])
  }

  lemma TracksDirect(g: Growth, h: Hdr, flat: Flat, m: set<nat>, s: int32, m': set<nat>)
    requires Tracks(g, h, flat, m) && h.numSectors < NUM_DIRECT && Found(m, s, m')
    ensures Tracks(Continued(g, [s]), WithDirect(h, s), flat, m')
  {
    assert Look(0);
    GrowDirect(g, h, WithDirect(h, s), flat, s);
    TakeOne(g, m, s, m');
  }

  lemma TracksOpen(g: Growth, h: Hdr, flat: Flat, m: set<nat>, q: nat, s: int32, m1: set<nat>, k: nat, ws: seq<int32>, m': set<nat>)
    requires Tracks(g, h, flat, m)
    requires q < NUM_SECOND_INDEX && h.numSectors == NUM_DIRECT + q * SECOND_DIRECT
    requires OnDisk(s) && s !in m && 0 < k <= SECOND_DIRECT == |ws|
    requires Finds(m, [s], m1) && Finds(m1, ws[0..k], m')
    ensures Tracks(Opened(g, s, ws[0..k]), WithIndex(h, q, s, k), flat[s := SectorOf(ws)], m')
  {
    assert Look(0);
    OpenTaken(g, m, s, m1, ws[0..k], m');
    OpenGrown(g, h, flat, m, q, s, k, ws);
  }

  // The blocks that come before the last index block of a file of n blocks.
  function LastOpen(n: nat): (b: nat)
    requires n > NUM_DIRECT
    ensures NUM_DIRECT <= b < n <= b + SECOND_DIRECT && IndexCount(n) == IndexCount(b) + 1
  {
    NUM_DIRECT + (IndexCount(n) - 1) * SECOND_DIRECT
  }

  // There is no clear bit left for the last index block that growth from n to n' blocks opens.
  ghost predicate Starves(m: set<nat>, n: nat, n': nat)
  {
    IndexCount(n') > IndexCount(n) && |m| + Need(n, LastOpen(n')) >= NUM_SECTORS
  }

  lemma StarvesFrom(m: set<nat>, n: nat, q: nat, b: nat, n': nat)
    requires n <= b == NUM_DIRECT + q * SECOND_DIRECT < n' && |m| + Need(n, b) >= NUM_SECTORS
    ensures Starves(m, n, n')
  {
    IndexCountAt(b, q, 0);
    assert IndexCount(n) <= IndexCount(b) < IndexCount(n');
    assert LastOpen(n') >= b;
    assert IndexCount(LastOpen(n')) >= IndexCount(b);
  }

  // Index block q was opened: growth up to the end of it did not starve.
  lemma StarvedNot(m: set<nat>, n: nat, q: nat, b: nat, k: nat)
    requires n <= b == NUM_DIRECT + q * SECOND_DIRECT && 0 < k <= SECOND_DIRECT && |m| + Need(n, b) < NUM_SECTORS
    ensures !Starves(m, n, b + k)
  {
    IndexCountAt(b + k, q, k);
  }

  // More blocks in the same index block make no difference.
  lemma StarvedStill(m: set<nat>, n: nat, b: nat, b': nat)
    requires IndexCount(b') == IndexCount(b) && !Starves(m, n, b)
    ensures !Starves(m, n, b')
  {
    if b > NUM_DIRECT && b' > NUM_DIRECT { assert LastOpen(b) == LastOpen(b'); }
  }

  lemma StarvesNever(m: set<nat>, n: nat, n': nat)
    requires n <= n' && |m| + Need(n, n') <= NUM_SECTORS
    ensures !Starves(m, n, n')
  {
  }

  // With a clear bit left, the history has taken as many as it wanted.
  lemma TracksRoom(g: Growth, h: Hdr, flat: Flat, m: set<nat>, s: int)
    requires Tracks(g, h, flat, m) && OnDisk(s) && s !in m
    ensures |g.m0| + Need(g.h0.numSectors, h.numSectors) < NUM_SECTORS
  {
    TracksNow(g, h, flat, m);
    GrownCount(g, h, flat, m);
    FoundFresh(g.m0, g.taken);
    BelowSize(m, NUM_SECTORS);
  }

  // When no sector is left for index block q, there never were enough for n' blocks.
  lemma TracksShort(g: Growth, h: Hdr, flat: Flat, m: set<nat>, q: nat, m1: set<nat>, k: nat, ss: seq<int>, m': set<nat>, n': nat)
    requires Tracks(g, h, flat, m)
    requires h.numSectors == NUM_DIRECT + q * SECOND_DIRECT && 0 < k == |ss| <= SECOND_DIRECT && h.numSectors + k <= n'
    requires Finds(m, [-1], m1) && Finds(m1, ss, m')
    ensures |g.m0| + Need(g.h0.numSectors, h.numSectors) >= NUM_SECTORS && Starves(g.m0, g.h0.numSectors, n')
  {
    TracksNow(g, h, flat, m);
    GrownCount(g, h, flat, m);
    FoundFresh(g.m0, g.taken);
    assert Found(m, -1, m1) by { assert [-1][..0] == []; }
    BelowSize(m, NUM_SECTORS);
    StarvesFrom(g.m0, g.h0.numSectors, q, h.numSectors, n');
  }

  lemma TracksHalfFull(g: Growth, h: Hdr, flat: Flat, m: set<nat>, q: nat, from: nat)
    requires Tracks(g, h, flat, m) && g.index == []
    requires h.numSectors == NUM_DIRECT + q * SECOND_DIRECT + from && 0 < from < SECOND_DIRECT
    ensures q < NUM_SECOND_INDEX && OnDisk(h.dataSectors[NUM_DIRECT + q]) && Readable(h)
    ensures Blocks(h, flat)[NUM_DIRECT + q * SECOND_DIRECT..] == WordsOf(flat[h.dataSectors[NUM_DIRECT + q]])[..from]
  {
    TracksNow(g, h, flat, m);
    OldIndexDiffers(g, h, flat, q, from);
    hide Blocks;
    var entries, tail := WordsOf(flat[h.dataSectors[NUM_DIRECT + q]])[..from], Blocks(h, flat)[NUM_DIRECT + q * SECOND_DIRECT..];
    forall j: nat | j < from ensures tail[j] == entries[j] { EntryAt(h, flat, q, j); }
  }

  lemma TracksContinue(g: Growth, h: Hdr, flat: Flat, m: set<nat>, q: nat, from: nat, k: nat, ws: seq<int32>, m': set<nat>)
    requires Tracks(g, h, flat, m) && g.index == []
    requires h.numSectors == NUM_DIRECT + q * SECOND_DIRECT + from && 0 < from < from + k <= SECOND_DIRECT == |ws|
    requires q < NUM_SECOND_INDEX && OnDisk(h.dataSectors[NUM_DIRECT + q])
    requires ws[..from] == WordsOf(flat[h.dataSectors[NUM_DIRECT + q]])[..from]
    requires Finds(m, ws[from..from + k], m')
    ensures Tracks(Continued(g, ws[from..from + k]), h.(numSectors := h.numSectors + k),
                   flat[h.dataSectors[NUM_DIRECT + q] := SectorOf(ws)], m')
  {
    assert Look(0);
    ContinueTaken(g, m, ws[from..from + k], m');
    ContinueGrown(g, h, flat, q, from, k, ws);
  }

  lemma TakenCount(g: Growth, m: set<nat>)
    requires Taken(g, m)
    ensures |g.taken| == |g.blocks| + |g.index|
  {
    assert |multiset(g.blocks) + multiset(g.index)| == |multiset(g.taken)|;
  }

  // The outcome an extension is for: the old block list is kept as a prefix, the sectors
  // added are marked now and were clear before, and apart from index blocks of this very
  // header the disk is as it was.
  ghost predicate Extended(h0: Hdr, flat0: Flat, m0: set<nat>, h: Hdr, flat: Flat, m: set<nat>)
  {
    && WellFormed(h0, flat0) && WellFormed(h, flat)
    && Blocks(h0, flat0) <= Blocks(h, flat)
    && IndexSectors(h0) <= IndexSectors(h)
    && Owned(h, flat) - Owned(h0, flat0) !! m0
    && m == m0 + Owned(h, flat)
    && forall s: nat :: s < NUM_SECTORS && s !in IndexSectors(h) ==> flat[s] == flat0[s]
  }

  lemma GrownReferences(g: Growth, h: Hdr, flat: Flat, m: set<nat>)
    requires Started(g) && Grown(g, h, flat) && Taken(g, m)
    ensures References(h, flat) == References(g.h0, g.flat0) + multiset(g.taken)
  {
  }

  lemma GrownCount(g: Growth, h: Hdr, flat: Flat, m: set<nat>)
    requires Started(g) && Grown(g, h, flat) && Taken(g, m)
    ensures |g.taken| == Need(g.h0.numSectors, h.numSectors)
  {
    TakenCount(g, m);
    assert |IndexSectors(h)| == |IndexSectors(g.h0)| + |g.index|;
  }

  lemma GrownResult(g: Growth, h: Hdr, flat: Flat, m: set<nat>)
    requires Started(g) && Grown(g, h, flat) && Taken(g, m)
    ensures |g.taken| == Need(g.h0.numSectors, h.numSectors)
    ensures if |g.m0| + |g.taken| <= NUM_SECTORS then Extended(g.h0, g.flat0, g.m0, h, flat, m)
            else -1 in Blocks(h, flat)
  {
    GrownCount(g, h, flat, m);
    FoundFresh(g.m0, g.taken);
    BelowSize(m, NUM_SECTORS);
    if |g.m0| + |g.taken| <= NUM_SECTORS {
      GrownReferences(g, h, flat, m);
      GrownExtends(g, h, flat, m);
    } else {
      GrownShort(g, h, flat);
    }
  }

  // All sectors were found: the references are the old ones and the new ones.
  lemma GrownExtends(g: Growth, h: Hdr, flat: Flat, m: set<nat>)
    requires Started(g) && Grown(g, h, flat)
    requires References(h, flat) == References(g.h0, g.flat0) + multiset(g.taken)
    requires Proper(multiset(g.taken)) && forall s :: s in multiset(g.taken) ==> s !in g.m0
    requires forall k :: k in m <==> k in g.m0 || (k in multiset(g.taken) && k >= 0)
    ensures Extended(g.h0, g.flat0, g.m0, h, flat, m)
  {
    hide Blocks;
    hide IndexSectors;
    hide References;
    assert Look(0);
    var refs0, refs, added := References(g.h0, g.flat0), References(h, flat), multiset(g.taken);
    assert forall s :: s in refs0 ==> s in Owned(g.h0, g.flat0);
    assert forall s :: s in refs <==> s in refs0 || s in added;
    assert Proper(refs);
    assert m == g.m0 + Owned(h, flat);
  }

  // A Find came back empty-handed, and its result is among the blocks.
  lemma GrownShort(g: Growth, h: Hdr, flat: Flat)
    requires Grown(g, h, flat) && multiset(g.blocks) + multiset(g.index) == multiset(g.taken) && -1 in multiset(g.taken)
    ensures -1 in Blocks(h, flat)
  {
    hide Blocks;
    assert -1 !in g.index by { assert forall s :: s in g.index ==> s in IndexSectors(h); }
    assert -1 in multiset(g.blocks);
  }

  lemma SameBlocks(h: Hdr, numBytes: int32, flat: Flat)
    requires Readable(h)
    ensures Blocks(h.(numBytes := numBytes), flat) == Blocks(h, flat)
  {
    var h' := h.(numBytes := numBytes);
    forall b: nat | b < h.numSectors ensures BlockSector(h', flat, b) == BlockSector(h, flat, b) {}
  }

  // How many blocks a file of n blocks has after growing by sectorNum, as far as there is room.
  function GrownTo(n: nat, sectorNum: int): (n': nat)
    requires n <= MAX_SECTORS
    ensures n <= n' <= MAX_SECTORS
  {
    n + Min(Max(0, sectorNum), MAX_SECTORS - n)
  }

  // What extendLength promises.  With enough clear bits the growth is an append, cut off
  // when the header is full; without, the kernel halts when an index block finds no sector, and
  // otherwise -1 ends up among the blocks.
  ghost predicate ExtendResult(h0: Hdr, flat0: Flat, m0: set<nat>, newNumBytes: int32, sectorNum: int,
                               r: Outcome<bool>, h: Hdr, flat: Flat, m: set<nat>)
    requires 0 <= h0.numSectors <= MAX_SECTORS
  {
    var n' := GrownTo(h0.numSectors, sectorNum);
    if |m0| + Need(h0.numSectors, n') <= NUM_SECTORS then
      && r == Returned(h0.numSectors + sectorNum <= MAX_SECTORS)
      && h.numSectors == n'
      && h.numBytes == (if r.value then newNumBytes else h0.numBytes)
      && Extended(h0, flat0, m0, h, flat, m)
    else
      if Starves(m0, h0.numSectors, n') then r.Halted?
      else
        && r == Returned(h0.numSectors + sectorNum <= MAX_SECTORS) && h.numSectors == n'
        && Readable(h) && -1 in Blocks(h, flat)
  }

  lemma ExtendDone(g: Growth, h: Hdr, flat: Flat, m: set<nat>, newNumBytes: int32, sectorNum: int, done: bool)
    requires Tracks(g, h, flat, m)
    requires h.numSectors == GrownTo(g.h0.numSectors, sectorNum)
    requires (done <==> g.h0.numSectors + sectorNum <= MAX_SECTORS) && !Starves(g.m0, g.h0.numSectors, h.numSectors)
    ensures ExtendResult(g.h0, g.flat0, g.m0, newNumBytes, sectorNum, Returned(done),
                         if done then h.(numBytes := newNumBytes) else h, flat, m)
  {
    TracksNow(g, h, flat, m);
    GrownResult(g, h, flat, m);
    ExtendedBytes(g.h0, g.flat0, g.m0, h, flat, m, newNumBytes);
    SameBlocks(h, newNumBytes, flat);
    hide Extended;
    hide Blocks;
  }

  lemma TracksNow(g: Growth, h: Hdr, flat: Flat, m: set<nat>)
    requires Tracks(g, h, flat, m)
    ensures Started(g) && Grown(g, h, flat) && Taken(g, m)
  {
    assert Look(0);
  }

  // The length does not matter.
  lemma ExtendedBytes(h0: Hdr, flat0: Flat, m0: set<nat>, h: Hdr, flat: Flat, m: set<nat>, numBytes: int32)
    requires Readable(h)
    ensures Extended(h0, flat0, m0, h, flat, m) ==> Extended(h0, flat0, m0, h.(numBytes := numBytes), flat, m)
  {
    var h' := h.(numBytes := numBytes);
    SameBlocks(h, numBytes, flat);
    hide Blocks;
    assert IndexSectors(h') == IndexSectors(h);
    assert References(h', flat) == References(h, flat);
    assert Owned(h', flat) == Owned(h, flat);
  }

  /* Growth of a header that is no file's. */

  // More marks, unless there was no clear bit.
  predicate More(m: set<nat>, m': set<nat>)
  {
    m <= m' && (FullBelow(m, NUM_SECTORS) || m < m')
  }

  lemma MoreFound(m0: set<nat>, m: set<nat>, ss: seq<int>, m': set<nat>)
    requires (m == m0 || More(m0, m)) && Finds(m, ss, m') && ss != [] && forall k :: k in m ==> k < NUM_SECTORS
    ensures More(m0, m') && forall k :: k in m' ==> k < NUM_SECTORS
  {
    FindsMore(m, ss, m');
  }

  // The marks after k Finds, and what these return.
  ghost function Gains(m: set<nat>, k: nat): set<nat>
  {
    if k == 0 then m
    else
      var g := Gains(m, k - 1);
      if FirstClear(g, 0) < NUM_SECTORS then g + {FirstClear(g, 0)} else g
  }

  ghost function Firsts(m: set<nat>, k: nat): (ss: seq<int32>)
    ensures |ss| == k
  {
    if k == 0 then []
    else
      var s := FirstClear(Gains(m, k - 1), 0);
      Firsts(m, k - 1) + [if s < NUM_SECTORS then s else -1]
  }

  // One Find more.
  lemma GainsNext(m: set<nat>, k: nat, s: int32, m': set<nat>)
    requires s == -1 <==> FullBelow(Gains(m, k), NUM_SECTORS)
    requires if s == -1 then m' == Gains(m, k)
             else 0 <= s < NUM_SECTORS && s !in Gains(m, k) && m' == Gains(m, k) + {s} && forall j: nat :: j < s ==> j in Gains(m, k)
    ensures m' == Gains(m, k + 1) && Firsts(m, k + 1) == Firsts(m, k) + [s]
  {
    FirstClearFound(Gains(m, k), s);
    hide FirstClear;
  }

  lemma {:induction false} FirstsFound(m: set<nat>, k: nat)
    requires forall j :: j in m ==> j < NUM_SECTORS
    ensures Finds(m, Firsts(m, k), Gains(m, k)) && forall j :: j in Gains(m, k) ==> j < NUM_SECTORS
  {
    hide FirstClear;
    if k == 0 {
    } else {
      FirstsFound(m, k - 1);
      var ss := Firsts(m, k);
      assert ss[..|ss| - 1] == Firsts(m, k - 1);
    }
  }

  lemma GainsMore(m: set<nat>, k: nat)
    requires k > 0 && forall j :: j in m ==> j < NUM_SECTORS
    ensures More(m, Gains(m, k))
  {
    FirstsFound(m, k);
    FindsMore(m, Firsts(m, k), Gains(m, k));
  }

  // They are different clear sectors, as long as there are enough of them.
  lemma FirstsFresh(m: set<nat>, k: nat)
    requires forall j :: j in m ==> j < NUM_SECTORS
    ensures -1 in Firsts(m, k) <==> |m| + k > NUM_SECTORS
    ensures -1 !in Firsts(m, k) ==>
              && |Gains(m, k)| == |m| + k && (forall i, j :: 0 <= i < j < k ==> Firsts(m, k)[i] != Firsts(m, k)[j])
              && forall s :: s in Firsts(m, k) ==> OnDisk(s) && s !in m
    ensures forall s :: s in Gains(m, k) <==> s in m || (s in Firsts(m, k) && s >= 0)
  {
    var ss := Firsts(m, k);
    FirstsFound(m, k);
    FoundFresh(m, ss);
    BelowSize(Gains(m, k), NUM_SECTORS);
    assert forall s :: s in ss <==> s in multiset(ss);
    if -1 !in ss {
      assert Look(0);
      forall i, j | 0 <= i < j < k ensures ss[i] != ss[j] {
        assert ss[i] in multiset(ss);
        if ss[i] == ss[j] { TwicePresent(ss, i, j); }
      }
    }
  }

  // The slots from n on are filled with ss.
  function Filled(ds: seq<int32>, n: nat, ss: seq<int32>): (ds': seq<int32>)
    requires n + |ss| <= |ds|
    ensures |ds'| == |ds|
  {
    ds[..n] + ss + ds[n + |ss|..]
  }

  lemma FilledNext(ds: seq<int32>, n: nat, ss: seq<int32>, s: int32)
    requires n + |ss| < |ds|
    ensures Filled(ds, n, ss)[n + |ss| := s] == Filled(ds, n, ss + [s])
  {
  }

  lemma GainsNone(m: set<nat>)
    ensures Gains(m, 0) == m
  {
  }

  // The header after k blocks were found for it.
  ghost function Outgrown(h: Hdr, m: set<nat>, k: nat, numBytes: int32): (h': Hdr)
    requires |h.dataSectors| == SLOTS && 0 <= h.numSectors && h.numSectors + k <= NUM_DIRECT
    ensures |h'.dataSectors| == SLOTS
  {
    Hdr(numBytes, h.numSectors + k, Filled(h.dataSectors, h.numSectors, Firsts(m, k)))
  }

  lemma OutgrownNone(h: Hdr, m: set<nat>)
    requires |h.dataSectors| == SLOTS && 0 <= h.numSectors <= NUM_DIRECT
    ensures Gains(m, 0) == m && h == Outgrown(h, m, 0, h.numBytes)
  {
  }

  lemma OutgrownBytes(h: Hdr, m: set<nat>, k: nat, a: int32, b: int32)
    requires |h.dataSectors| == SLOTS && 0 <= h.numSectors && h.numSectors + k <= NUM_DIRECT
    ensures Outgrown(h, m, k, a).(numBytes := b) == Outgrown(h, m, k, b)
    ensures Outgrown(h, m, k, a).numSectors == h.numSectors + k && Outgrown(h, m, k, a).numBytes == a
  {
  }

  // Before index block i is looked at.
  ghost predicate StrayLoop(h0: Hdr, flat0: Flat, m0: set<nat>, sectorNum: nat, i: nat, left: int, h: Hdr, flat: Flat, m: set<nat>)
  {
    && |h0.dataSectors| == |h.dataSectors| == SLOTS && h.numBytes == h0.numBytes
    && 0 <= left <= sectorNum && h.numSectors == h0.numSectors + (sectorNum - left)
    && (left == sectorNum ==> m == m0 && flat == flat0 && h.dataSectors == h0.dataSectors)
    && (left < sectorNum ==> More(m0, m) && 0 <= h0.numSectors && h.numSectors <= MAX_SECTORS)
    && (left > 0 ==> h.numSectors >= NUM_DIRECT + i * SECOND_DIRECT)
    && (h0.numSectors + sectorNum > MAX_SECTORS ==>
          && h.dataSectors == h0.dataSectors && (i < NUM_SECOND_INDEX || h0.numSectors >= MAX_SECTORS ==> left == sectorNum)
          && (left < sectorNum ==> OnDisk(h0.dataSectors[SLOTS - 1]))
          && forall k: nat :: k < NUM_SECTORS && k != h0.dataSectors[SLOTS - 1] ==> flat[k] == flat0[k])
  }

  // The only halt when there is no room for all blocks.
  predicate StrayHalts(h0: Hdr, sectorNum: nat)
  {
    |h0.dataSectors| == SLOTS && sectorNum > 0 &&
    (h0.numSectors + sectorNum > MAX_SECTORS ==> h0.numSectors < MAX_SECTORS && !OnDisk(h0.dataSectors[SLOTS - 1]))
  }

  lemma StrayBounds(h0: Hdr, flat0: Flat, m0: set<nat>, sectorNum: nat, i: nat, left: int, h: Hdr, flat: Flat, m: set<nat>)
    requires StrayLoop(h0, flat0, m0, sectorNum, i, left, h, flat, m) && left > 0
    ensures |h.dataSectors| == SLOTS && h.numSectors >= NUM_DIRECT + i * SECOND_DIRECT && left <= sectorNum
  {
  }

  lemma StraySkipped(h0: Hdr, flat0: Flat, m0: set<nat>, sectorNum: nat, i: nat, left: int, h: Hdr, flat: Flat, m: set<nat>)
    requires StrayLoop(h0, flat0, m0, sectorNum, i, left, h, flat, m) && left > 0 && i < NUM_SECOND_INDEX && sectorNum < NUM_DIRECT
    requires h.numSectors >= NUM_DIRECT + (i + 1) * SECOND_DIRECT
    ensures StrayLoop(h0, flat0, m0, sectorNum, i + 1, left, h, flat, m)
  {
  }

  lemma StrayOff(h0: Hdr, flat0: Flat, m0: set<nat>, sectorNum: nat, i: nat, left: int, h: Hdr, flat: Flat, m: set<nat>)
    requires StrayLoop(h0, flat0, m0, sectorNum, i, left, h, flat, m) && left > 0 && i < NUM_SECOND_INDEX && sectorNum < NUM_DIRECT
    requires NUM_DIRECT + i * SECOND_DIRECT < h.numSectors < NUM_DIRECT + (i + 1) * SECOND_DIRECT && !OnDisk(h.dataSectors[NUM_DIRECT + i])
    ensures StrayHalts(h0, sectorNum)
  {
  }

  lemma StrayOpened(h0: Hdr, flat0: Flat, m0: set<nat>, sectorNum: nat, i: nat, left: int, h: Hdr, flat: Flat, m: set<nat>,
                    s: int32, m1: set<nat>, ws: seq<int32>, h': Hdr, flat': Flat, m': set<nat>)
    requires StrayLoop(h0, flat0, m0, sectorNum, i, left, h, flat, m) && left > 0 && i < NUM_SECOND_INDEX && sectorNum < NUM_DIRECT
    requires h.numSectors == NUM_DIRECT + i * SECOND_DIRECT && |ws| == SECOND_DIRECT && (forall k :: k in m ==> k < NUM_SECTORS)
    requires Finds(m, [s], m1) && Finds(m1, ws[0..left], m') && h'.numBytes == h.numBytes
    requires h'.numSectors == h.numSectors + left && h'.dataSectors == h.dataSectors[NUM_DIRECT + i := s]
    ensures StrayLoop(h0, flat0, m0, sectorNum, i + 1, 0, h', flat', m') && StrayHalts(h0, sectorNum)
  {
    hide Finds;
    MoreFound(m0, m, [s], m1);
    MoreFound(m0, m1, ws[0..left], m');
  }

  lemma StrayContinued(h0: Hdr, flat0: Flat, m0: set<nat>, sectorNum: nat, i: nat, left: int, h: Hdr, flat: Flat, m: set<nat>,
                       index: nat, ws: seq<int32>, h': Hdr, flat': Flat, m': set<nat>)
    requires StrayLoop(h0, flat0, m0, sectorNum, i, left, h, flat, m) && left > 0 && i < NUM_SECOND_INDEX && sectorNum < NUM_DIRECT
    requires h.numSectors == NUM_DIRECT + i * SECOND_DIRECT + index && 0 < index < SECOND_DIRECT == |ws| && (forall k :: k in m ==> k < NUM_SECTORS)
    requires OnDisk(h.dataSectors[NUM_DIRECT + i]) && flat' == flat[h.dataSectors[NUM_DIRECT + i] := SectorOf(ws)]
    requires var k := Min(SECOND_DIRECT - index, left);
             Finds(m, ws[index..index + k], m') && h' == h.(numSectors := h.numSectors + k)
    ensures StrayLoop(h0, flat0, m0, sectorNum, i + 1, left - Min(SECOND_DIRECT - index, left), h', flat', m')
  {
    hide Finds;
    var k := Min(SECOND_DIRECT - index, left);
    MoreFound(m0, m, ws[index..index + k], m');
    assert h0.numSectors + sectorNum > MAX_SECTORS ==> i == NUM_SECOND_INDEX - 1;
  }

  // What extendLength does then.  Asked for nothing, it sets the length; where the header has no
  // room it fills up the last index block; where direct slots suffice they get the first clear
  // sectors; else it stops or leaves more marks.
  ghost predicate StrayGrowth(h0: Hdr, flat0: Flat, m0: set<nat>, newNumBytes: int32, sectorNum: nat,
                              r: Outcome<bool>, h: Hdr, flat: Flat, m: set<nat>)
    requires |h0.dataSectors| == SLOTS
  {
    if sectorNum == 0 then
      r == Returned(true) && h == h0.(numBytes := newNumBytes) && flat == flat0 && m == m0
    else if h0.numSectors + sectorNum > MAX_SECTORS then
      && r == (if h0.numSectors < MAX_SECTORS && !OnDisk(h0.dataSectors[SLOTS - 1]) then Halted else Returned(false))
      && (r.Returned? ==>
            && h.numBytes == h0.numBytes && h.dataSectors == h0.dataSectors
            && forall k: nat :: k < NUM_SECTORS && (h0.numSectors < MAX_SECTORS ==> k != h0.dataSectors[SLOTS - 1]) ==> flat[k] == flat0[k])
    else if 0 <= h0.numSectors && h0.numSectors + sectorNum <= NUM_DIRECT then
      r == Returned(true) && h == Outgrown(h0, m0, sectorNum, newNumBytes) && flat == flat0 && m == Gains(m0, sectorNum)
    else
      r.Halted? || (r == Returned(true) && More(m0, m) && h.numBytes == newNumBytes && |h.dataSectors| == SLOTS)
  }

  /* Creating a file: growth from the empty header. */

  // Sectors a file of n blocks takes, index blocks included.
  function Total(n: nat): nat { n + IndexCount(n) }

  lemma SectorsNeeded(fileSize: nat)
    ensures var n := DivRoundUp(fileSize, SECTOR_SIZE);
            n <= fileSize && (Total(n) > 0 ==> n > 0) && n + (if n > NUM_DIRECT then DivRoundUp(n - NUM_DIRECT, SECOND_DIRECT) else 0) == Total(n)
  {
    var n := DivRoundUp(fileSize, SECTOR_SIZE);
    if n > NUM_DIRECT { IndexCountRoundsUp(n); }
  }

  lemma TotalMore(n: nat, q: nat, k: nat, n': nat)
    requires n == NUM_DIRECT + q * SECOND_DIRECT && 0 < k <= SECOND_DIRECT && n + k <= n'
    ensures Total(n) + 1 + k == Total(n + k) <= Total(n')
  {
    IndexCountAt(n, q, 0);
    IndexCountAt(n + k, q, k);
    assert IndexCount(n + k) <= IndexCount(n');
  }

  // The two ways Allocate gets its sectors: out of the run FindN reserved, or by Find.  v is
  // the set of sectors in use so far, the not yet used rest of the run left out.
  ghost predicate Supply(conse: bool, first: int, beg: int, total: nat, m0: set<nat>, v: set<nat>, marked: set<nat>)
  {
    if conse then
      && 0 < first <= beg <= first + total <= NUM_SECTORS
      && forall x {:trigger Look(x)} :: Look(x) ==>
           && ClearRun(m0, NUM_SECTORS, first, total)
           && marked == m0 + Run(first, total)
           && v == m0 + Run(first, beg - first)
    else
      v == marked
  }

  lemma SupplyNext(first: int, beg: int, total: nat, m0: set<nat>, v: set<nat>, marked: set<nat>)
    requires Supply(true, first, beg, total, m0, v, marked) && beg < first + total
    ensures Found(v, beg, v + {beg}) && Supply(true, first, beg + 1, total, m0, v + {beg}, marked)
  {
    assert Look(0);
  }

  lemma SupplyUsed(first: int, total: nat, m0: set<nat>, v: set<nat>, m: set<nat>)
    requires Supply(true, first, first + total, total, m0, v, m)
    ensures ClearRun(m0, NUM_SECTORS, first, total) && v == m == m0 + Run(first, total)
  {
    assert Look(0);
  }

  lemma SupplyStart(conse: bool, beg: int, total: nat, m0: set<nat>, v: set<nat>, m: set<nat>)
    requires beg >= 0 && (conse <==> beg > 0) && RunReserved(m0, NUM_SECTORS, total, beg, m)
    requires v == if conse then m0 else m
    ensures Supply(conse, beg, beg, total, m0, v, m)
  {
  }

  // What FindN wastes: a run found at sector 0 is marked but then not used.
  ghost function Leak(m0: set<nat>, total: nat): set<nat>
  {
    if ClearRun(m0, NUM_SECTORS, 0, total) then Run(0, total) else {}
  }

  // A new file: every sector it refers to was clear before (and is not part of the leak),
  // exactly those and the leak are marked now, and only its index blocks were written.
  ghost predicate Allocated(m0: set<nat>, leak: set<nat>, flat0: Flat, h: Hdr, flat: Flat, m: set<nat>)
  {
    && WellFormed(h, flat)
    && Owned(h, flat) !! m0 + leak
    && m == m0 + leak + Owned(h, flat)
    && forall s: nat :: s < NUM_SECTORS && s !in IndexSectors(h) ==> flat[s] == flat0[s]
  }

  // What Allocate promises.
  ghost predicate AllocateResult(m0: set<nat>, flat0: Flat, fileSize: int32, r: Outcome<bool>, h: Hdr, flat: Flat, m: set<nat>)
    requires fileSize >= 0
  {
    forall x {:trigger Look(x)} :: Look(x) ==>
      var n := DivRoundUp(fileSize, SECTOR_SIZE);
      var total, leak := Total(n), Leak(m0, Total(n));
      var fits := |m0| + |leak| + total <= NUM_SECTORS;
      && (r.Halted? <==>
            if HasRun(m0, NUM_SECTORS, total) then
              fileSize <= MAX_FILE_SIZE && |m0| + total + n <= NUM_SECTORS && Starves(m0 + leak, 0, n)
            else total >= 2)
      && (r.Returned? ==>
            (r.value <==> fileSize <= MAX_FILE_SIZE && HasRun(m0, NUM_SECTORS, total) && |m0| + total + n <= NUM_SECTORS))
      && (r == Returned(false) ==> flat == flat0)
      && (r == Returned(true) ==>
            && h.numBytes == fileSize && h.numSectors == n
            && if fits then
                 && Allocated(m0, leak, flat0, h, flat, m)
                 && (leak == {} ==> exists first: nat :: FirstRun(m0, NUM_SECTORS, first, total) && Owned(h, flat) == Run(first, total))
               else
                 Readable(h) && -1 in Blocks(h, flat))
  }

  // The loops of Allocate have stored all n blocks; v is what they took them from.
  lemma StoredAll(g: Growth, h: Hdr, flat: Flat, v: set<nat>)
    requires Tracks(g, h, flat, v) && g.h0.numSectors == 0
    ensures if |g.m0| + Total(h.numSectors) <= NUM_SECTORS then
              && WellFormed(h, flat) && Owned(h, flat) !! g.m0 && v == g.m0 + Owned(h, flat)
              && forall s: nat :: s < NUM_SECTORS && s !in IndexSectors(h) ==> flat[s] == g.flat0[s]
            else
              Readable(h) && -1 in Blocks(h, flat)
  {
    assert Look(0);
    GrownResult(g, h, flat, v);
    assert References(g.h0, g.flat0) == multiset{};
    assert Owned(g.h0, g.flat0) == {};
  }

  lemma Success(m0: set<nat>, flat0: Flat, fileSize: int32, total: nat, h: Hdr, flat: Flat, m: set<nat>)
    requires 0 <= fileSize <= MAX_FILE_SIZE && h.numBytes == fileSize && h.numSectors == DivRoundUp(fileSize, SECTOR_SIZE)
    requires total == Total(h.numSectors) && HasRun(m0, NUM_SECTORS, total) && |m0| + total + h.numSectors <= NUM_SECTORS
    requires !Starves(m0 + Leak(m0, total), 0, h.numSectors)
    requires if |m0| + |Leak(m0, total)| + total <= NUM_SECTORS then
               && Allocated(m0, Leak(m0, total), flat0, h, flat, m)
               && (Leak(m0, total) == {} ==>
                     exists first: nat :: FirstRun(m0, NUM_SECTORS, first, total) && Owned(h, flat) == Run(first, total))
             else
               Readable(h) && -1 in Blocks(h, flat)
    ensures AllocateResult(m0, flat0, fileSize, Returned(true), h, flat, m)
  {
  }

  lemma AllocateRun(g: Growth, h: Hdr, flat: Flat, v: set<nat>, m0: set<nat>, fileSize: int32, first: int, m: set<nat>)
    requires 0 <= fileSize <= MAX_FILE_SIZE && g.m0 == m0 && g.h0.numSectors == 0
    requires Tracks(g, h, flat, v)
    requires h.numBytes == fileSize && h.numSectors == DivRoundUp(fileSize, SECTOR_SIZE)
    requires |m0| + Total(h.numSectors) + h.numSectors <= NUM_SECTORS
    requires Supply(true, first, first + Total(h.numSectors), Total(h.numSectors), m0, v, m)
    requires first > 0 && FirstRun(m0, NUM_SECTORS, first, Total(h.numSectors))
    ensures AllocateResult(m0, g.flat0, fileSize, Returned(true), h, flat, m)
  {
    hide *;
    var total := Total(h.numSectors);
    SupplyUsed(first, total, m0, v, m);
    StoredAll(g, h, flat, v);
    NoLeak(m0, first, total);
    SameRest(m0, Owned(h, flat), Run(first, total));
    NeedAll(h.numSectors);
    StarvesNever(m0, 0, h.numSectors);
    AllocatedNow(m0, Leak(m0, total), g.flat0, h, flat, m);
    Success(m0, g.flat0, fileSize, total, h, flat, m);
  }

  lemma NeedAll(n: nat)
    ensures Need(0, n) == Total(n)
  {
  }

  lemma NoLeak(m0: set<nat>, first: nat, total: nat)
    requires first > 0 && FirstRun(m0, NUM_SECTORS, first, total)
    ensures HasRun(m0, NUM_SECTORS, total) && Leak(m0, total) == {} && m0 + Leak(m0, total) == m0
  {
  }

  lemma AllocatedNow(m0: set<nat>, leak: set<nat>, flat0: Flat, h: Hdr, flat: Flat, m: set<nat>)
    requires WellFormed(h, flat) && Owned(h, flat) !! m0 && leak == {} && m == m0 + Owned(h, flat)
    requires forall s: nat :: s < NUM_SECTORS && s !in IndexSectors(h) ==> flat[s] == flat0[s]
    ensures Allocated(m0, leak, flat0, h, flat, m)
  {
  }

  lemma SameRest(a: set<int>, b: set<int>, c: set<int>)
    requires a + b == a + c && a !! b && a !! c
    ensures b == c
  {
    forall x ensures x in b <==> x in c {
      assert x in a + b <==> x in a + c;
    }
  }

  lemma AllocateFound(g: Growth, h: Hdr, flat: Flat, m0: set<nat>, fileSize: int32, m: set<nat>)
    requires 0 <= fileSize <= MAX_FILE_SIZE && g.h0.numSectors == 0
    requires Tracks(g, h, flat, m)
    requires h.numBytes == fileSize && h.numSectors == DivRoundUp(fileSize, SECTOR_SIZE)
    requires |m0| + Total(h.numSectors) + h.numSectors <= NUM_SECTORS && !Starves(g.m0, 0, h.numSectors)
    requires ClearRun(m0, NUM_SECTORS, 0, Total(h.numSectors)) && g.m0 == m0 + Run(0, Total(h.numSectors))
    ensures AllocateResult(m0, g.flat0, fileSize, Returned(true), h, flat, m)
  {
    var total := Total(h.numSectors);
    StoredAll(g, h, flat, m);
    RunMarked(m0, 0, total);
    assert HasRun(m0, NUM_SECTORS, total);
    if total == 0 {
      assert IndexSectors(h) == [] && Blocks(h, flat) == [];
      assert Owned(h, flat) == Run(0, 0) && FirstRun(m0, NUM_SECTORS, 0, 0);
    }
    Success(m0, g.flat0, fileSize, total, h, flat, m);
  }

  // The marked set FindN leaves behind has |m0| + total members.
  lemma RunMarked(m0: set<nat>, first: nat, total: nat)
    requires ClearRun(m0, NUM_SECTORS, first, total)
    ensures |m0 + Run(first, total)| == |m0| + total
  {
    assert m0 !! Run(first, total);
  }

  lemma FullWithoutRun(m: set<nat>)
    requires !HasRun(m, NUM_SECTORS, 1) && forall k :: k in m ==> k < NUM_SECTORS
    ensures |m| == NUM_SECTORS
  {
    forall k: nat | k < NUM_SECTORS ensures k in m {
      assert ClearRun(m, NUM_SECTORS, k, 1) <==> k !in m;
    }
    BelowSize(m, NUM_SECTORS);
  }

  // The tests after FindN: how much they leave to be said about the bitmap before it.
  lemma ReservedSize(m0: set<nat>, total: nat, beg: int, m: set<nat>)
    requires RunReserved(m0, NUM_SECTORS, total, beg, m) && forall k :: k in m0 ==> k < NUM_SECTORS
    ensures if beg == -1 then |m| == |m0| == NUM_SECTORS && total == 1 && !HasRun(m0, NUM_SECTORS, total)
            else |m| == |m0| + total && HasRun(m0, NUM_SECTORS, total)
  {
    if beg == -1 {
      FullWithoutRun(m0);
    } else {
      RunMarked(m0, beg, total);
      assert HasRun(m0, NUM_SECTORS, total);
    }
  }

  lemma AllocateNoRun(m0: set<nat>, flat: Flat, fileSize: int32, h: Hdr, m: set<nat>)
    requires fileSize >= 0 && Total(DivRoundUp(fileSize, SECTOR_SIZE)) >= 2
    requires !HasRun(m0, NUM_SECTORS, Total(DivRoundUp(fileSize, SECTOR_SIZE)))
    ensures AllocateResult(m0, flat, fileSize, Halted, h, flat, m)
  {
  }

  lemma AllocateRefused(m0: set<nat>, flat: Flat, fileSize: int32, beg: int, h: Hdr, m: set<nat>)
    requires fileSize >= 0 && forall k :: k in m0 ==> k < NUM_SECTORS
    requires RunReserved(m0, NUM_SECTORS, Total(DivRoundUp(fileSize, SECTOR_SIZE)), beg, m)
    requires NUM_SECTORS - |m| < DivRoundUp(fileSize, SECTOR_SIZE) || fileSize > MAX_FILE_SIZE
    ensures AllocateResult(m0, flat, fileSize, Returned(false), h, flat, m)
  {
    ReservedSize(m0, Total(DivRoundUp(fileSize, SECTOR_SIZE)), beg, m);
  }

  lemma AllocateShort(m0: set<nat>, flat0: Flat, flat: Flat, fileSize: int32, beg: int, m1: set<nat>, h: Hdr, m: set<nat>)
    requires fileSize >= 0 && beg == 0
    requires RunReserved(m0, NUM_SECTORS, Total(DivRoundUp(fileSize, SECTOR_SIZE)), beg, m1)
    requires Starves(m1, 0, DivRoundUp(fileSize, SECTOR_SIZE))
    requires fileSize <= MAX_FILE_SIZE && |m1| + DivRoundUp(fileSize, SECTOR_SIZE) <= NUM_SECTORS
    ensures AllocateResult(m0, flat0, fileSize, Halted, h, flat, m)
  {
    var total := Total(DivRoundUp(fileSize, SECTOR_SIZE));
    RunMarked(m0, 0, total);
    assert HasRun(m0, NUM_SECTORS, total);
  }

  lemma EmptyStart(h: Hdr, flat: Flat, m: set<nat>)
    requires |h.dataSectors| == SLOTS && h.numSectors == 0 && forall k :: k in m ==> k < NUM_SECTORS
    ensures Tracks(Growth(h, flat, m, [], [], []), h, flat, m)
  {
    assert Blocks(h, flat) == [] && IndexSectors(h) == [];
    TracksStart(h, flat, m);
  }

  // Deallocate can undo a successful Allocate, and the bitmap is then what it was, but for a
  // run wasted at sector 0.
  lemma AllocateUndone(m0: set<nat>, flat0: Flat, fileSize: int32, h: Hdr, flat: Flat, m: set<nat>)
    requires fileSize >= 0 && AllocateResult(m0, flat0, fileSize, Returned(true), h, flat, m)
    requires var total := Total(DivRoundUp(fileSize, SECTOR_SIZE)); |m0| + |Leak(m0, total)| + total <= NUM_SECTORS
    ensures WellFormed(h, flat) && Owned(h, flat) <= m
    ensures m - Owned(h, flat) == m0 + Leak(m0, Total(DivRoundUp(fileSize, SECTOR_SIZE)))
  {
    assert Look(0);
    hide Blocks;
  }

  /* Releasing a file: its references are cleared one after the other. */

  function SetOf(s: seq<int>): set<int> { set x | x in s }

  // The first b blocks and the first q index blocks have been cleared, and nothing else.
  ghost predicate Releasing(h: Hdr, flat: Flat, m0: set<nat>, b: nat, q: nat, m: set<nat>)
  {
    forall x {:trigger Look(x)} :: Look(x) ==>
      && WellFormed(h, flat) && Owned(h, flat) <= m0
      && b <= h.numSectors && q <= IndexCount(h.numSectors)
      && m == m0 - SetOf(Blocks(h, flat)[..b]) - SetOf(IndexSectors(h)[..q])
  }

  lemma OwnedSets(h: Hdr, flat: Flat)
    requires Readable(h)
    ensures Owned(h, flat) == SetOf(Blocks(h, flat)) + SetOf(IndexSectors(h))
  {
    var bs, xs := Blocks(h, flat), IndexSectors(h);
    assert forall s :: s in References(h, flat) <==> s in multiset(bs) || s in multiset(xs);
  }

  lemma PrefixSet(s: seq<int>, i: nat)
    requires i < |s|
    ensures SetOf(s[..i + 1]) == SetOf(s[..i]) + {s[i]} && SetOf(s[..i]) <= SetOf(s)
  {
    assert s[..i + 1] == s[..i] + [s[i]];
  }

  lemma ReleaseBlock(h: Hdr, flat: Flat, m0: set<nat>, b: nat, q: nat, m: set<nat>)
    requires Releasing(h, flat, m0, b, q, m) && Readable(h) && b < h.numSectors
    ensures var s := Blocks(h, flat)[b]; OnDisk(s) && s in m && Releasing(h, flat, m0, b + 1, q, m - {s})
  {
    assert Look(0);
    ReferencesDiffer(h, flat);
    OwnedSets(h, flat);
    PrefixSet(Blocks(h, flat), b);
    assert SetOf(IndexSectors(h)[..q]) <= SetOf(IndexSectors(h));
    assert Blocks(h, flat)[b] !in SetOf(Blocks(h, flat)[..b]);
  }

  lemma ReleaseIndex(h: Hdr, flat: Flat, m0: set<nat>, b: nat, q: nat, m: set<nat>)
    requires Releasing(h, flat, m0, b, q, m) && Readable(h) && q < IndexCount(h.numSectors)
    ensures var s := h.dataSectors[NUM_DIRECT + q];
            OnDisk(s) && s in m && Releasing(h, flat, m0, b, q + 1, m - {s})
  {
    assert Look(0);
    ReferencesDiffer(h, flat);
    OwnedSets(h, flat);
    PrefixSet(IndexSectors(h), q);
    assert IndexSectors(h)[q] == h.dataSectors[NUM_DIRECT + q];
    assert SetOf(Blocks(h, flat)[..b]) <= SetOf(Blocks(h, flat));
    assert IndexSectors(h)[q] !in SetOf(IndexSectors(h)[..q]);
  }

  lemma ReleaseDone(h: Hdr, flat: Flat, m0: set<nat>, m: set<nat>)
    requires Readable(h) && Releasing(h, flat, m0, h.numSectors, IndexCount(h.numSectors), m)
    ensures m == m0 - Owned(h, flat)
  {
    assert Look(0);
    OwnedSets(h, flat);
    assert Blocks(h, flat)[..h.numSectors] == Blocks(h, flat);
    assert IndexSectors(h)[..IndexCount(h.numSectors)] == IndexSectors(h);
  }
}
