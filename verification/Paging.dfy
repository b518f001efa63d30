/** The state of paged memory (code/machine/translate.cc): the TLB, the page tables and backing
    stores of the address spaces, the frame table and the frames.  What an address space sees
    of it is one flat byte array. */
module Paging {
  import opened Outcomes
  import opened Sectors
  import opened FileContents

  const PAGE_SIZE := SECTOR_SIZE
  const NUM_PHYS_PAGES := 32
  const MEMORY_SIZE := NUM_PHYS_PAGES * PAGE_SIZE
  const TLB_SIZE := 4

  // TranslationEntry
  datatype Entry = Entry(virtualPage: int, physicalPage: int, valid: bool, readOnly: bool, use: bool, dirty: bool,
                         inTime: int, lastHitTime: int)

  // PhysicalPageEntry
  datatype Frame = Frame(valid: bool, dirty: bool, owner: nat, vpn: nat, lastHitTime: int)

  // AddrSpace: pageTable and vSpace
  datatype Space = Space(table: seq<Entry>, store: seq<byte>)

  datatype Paged = Paged(tlb: seq<Entry>, frames: seq<Frame>, mem: seq<byte>, spaces: seq<Space>, cur: nat)

  predicate Sized(m: Paged)
  {
    && |m.tlb| == TLB_SIZE && |m.frames| == NUM_PHYS_PAGES && |m.mem| == MEMORY_SIZE && m.cur < |m.spaces|
    && forall s :: 0 <= s < |m.spaces| ==> |m.spaces[s].store| == |m.spaces[s].table| * PAGE_SIZE
  }

  function PageOf(b: seq<byte>, p: nat): (r: seq<byte>)
    requires (p + 1) * PAGE_SIZE <= |b|
    ensures |r| == PAGE_SIZE
  {
    b[p * PAGE_SIZE..(p + 1) * PAGE_SIZE]
  }

  function WithPage(b: seq<byte>, p: nat, page: seq<byte>): (r: seq<byte>)
    requires (p + 1) * PAGE_SIZE <= |b| && |page| == PAGE_SIZE
    ensures |r| == |b|
  {
    Splice(b, p * PAGE_SIZE, page)
  }

  lemma PageWritten(b: seq<byte>, p: nat, page: seq<byte>, q: nat)
    requires (p + 1) * PAGE_SIZE <= |b| && (q + 1) * PAGE_SIZE <= |b| && |page| == PAGE_SIZE
    ensures PageOf(WithPage(b, p, page), q) == if q == p then page else PageOf(b, q)
  {
    hide Splice;
    var got, want := PageOf(WithPage(b, p, page), q), if q == p then page else PageOf(b, q);
    forall k | 0 <= k < PAGE_SIZE ensures got[k] == want[k] {
      SpliceAt(b, p * PAGE_SIZE, page, q * PAGE_SIZE + k);
      SameFrame(p, 0, PAGE_SIZE, q, k);
    }
  }

  // A valid frame holds the page that the page table of its owner maps to it.
  predicate FrameOk(m: Paged, i: nat)
    requires Sized(m) && i < NUM_PHYS_PAGES
  {
    var f := m.frames[i];
    if f.valid then
      && f.owner < |m.spaces| && f.vpn < |m.spaces[f.owner].table|
      && var e := m.spaces[f.owner].table[f.vpn]; e.valid && e.physicalPage == i && e.dirty == f.dirty
    else
      !f.dirty
  }

  // A valid page table entry maps to a frame that holds its page.
  predicate EntryOk(m: Paged, s: nat, v: nat)
    requires Sized(m) && s < |m.spaces| && v < |m.spaces[s].table|
  {
    var e := m.spaces[s].table[v];
    if e.valid then
      && 0 <= e.physicalPage < NUM_PHYS_PAGES && e.virtualPage == v && !e.readOnly
      && var f := m.frames[e.physicalPage]; f.valid && f.owner == s && f.vpn == v
    else
      !e.dirty
  }

  // A valid TLB entry agrees with the page table of the current space.
  predicate TlbOk(m: Paged, i: nat)
    requires Sized(m) && i < TLB_SIZE
  {
    var t := m.tlb[i];
    t.valid ==>
      && 0 <= t.virtualPage < |m.spaces[m.cur].table| && !t.readOnly
      && var e := m.spaces[m.cur].table[t.virtualPage]; e.valid && t.physicalPage == e.physicalPage && t.dirty == e.dirty
  }

  // What TLB_PageTable_check asserts, with the part that is commented out, and more.
  ghost predicate Agree(m: Paged)
    requires Sized(m)
  {
    && (forall i :: 0 <= i < NUM_PHYS_PAGES ==> FrameOk(m, i))
    && (forall s: nat, v: nat :: s < |m.spaces| && v < |m.spaces[s].table| ==> EntryOk(m, s, v))
    && (forall i :: 0 <= i < TLB_SIZE ==> TlbOk(m, i))
    && (forall i, j :: 0 <= i < j < TLB_SIZE && m.tlb[i].valid && m.tlb[j].valid ==> m.tlb[i].virtualPage != m.tlb[j].virtualPage)
  }

  ghost predicate Coherent(m: Paged)
  {
    Sized(m) && Agree(m)
  }

  // Page v as space s sees it.
  function PageSeen(m: Paged, s: nat, v: nat): (r: seq<byte>)
    requires Sized(m) && s < |m.spaces| && v < |m.spaces[s].table|
  {
    var e := m.spaces[s].table[v];
    if e.valid && 0 <= e.physicalPage < NUM_PHYS_PAGES then PageOf(m.mem, e.physicalPage) else PageOf(m.spaces[s].store, v)
  }

  // The spaces see the same memory in both states.
  ghost predicate SameMemory(m: Paged, m': Paged)
    requires Sized(m) && Sized(m')
  {
    && |m'.spaces| == |m.spaces|
    && (forall s :: 0 <= s < |m.spaces| ==> |m'.spaces[s].table| == |m.spaces[s].table|)
    && forall s: nat, v: nat :: s < |m.spaces| && v < |m.spaces[s].table| ==> PageSeen(m', s, v) == PageSeen(m, s, v)
  }

  /* The steps of a fault. */

  function WithEntry(m: Paged, s: nat, v: nat, e: Entry): (m': Paged)
    requires s < |m.spaces| && v < |m.spaces[s].table|
  {
    m.(spaces := m.spaces[s := m.spaces[s].(table := m.spaces[s].table[v := e])])
  }

  // pageTable[entry->virtualPage] = *entry
  function Stored(m: Paged, i: nat): Paged
    requires Sized(m) && i < TLB_SIZE && m.tlb[i].valid && 0 <= m.tlb[i].virtualPage < |m.spaces[m.cur].table|
  {
    WithEntry(m, m.cur, m.tlb[i].virtualPage, m.tlb[i])
  }

  lemma StoredOk(m: Paged, i: nat)
    requires Coherent(m) && i < TLB_SIZE && m.tlb[i].valid
    ensures TlbOk(m, i) && Coherent(Stored(m, i)) && SameMemory(m, Stored(m, i))
  {
    assert TlbOk(m, i);
    var m', v := Stored(m, i), m.tlb[i].virtualPage;
    assert EntryOk(m, m.cur, v);
    forall k | 0 <= k < NUM_PHYS_PAGES ensures FrameOk(m', k) { assert FrameOk(m, k); }
    forall s: nat, w: nat | s < |m'.spaces| && w < |m'.spaces[s].table| ensures EntryOk(m', s, w) { assert EntryOk(m, s, w); }
    forall k | 0 <= k < TLB_SIZE ensures TlbOk(m', k) { assert TlbOk(m, k); }
  }

  function Invalid(e: Entry): Entry { e.(valid := false, dirty := false) }

  function DropTlb(tlb: seq<Entry>, p: nat, v: nat): (r: seq<Entry>)
    ensures |r| == |tlb|
    ensures forall i :: 0 <= i < |tlb| ==>
              r[i] == if tlb[i].valid && tlb[i].physicalPage == p && tlb[i].virtualPage == v then tlb[i].(valid := false) else tlb[i]
  {
    if tlb == [] then []
    else
      var e := tlb[|tlb| - 1];
      DropTlb(tlb[..|tlb| - 1], p, v) + [if e.valid && e.physicalPage == p && e.virtualPage == v then e.(valid := false) else e]
  }

  // Frame p is taken away from its owner: the page goes to the owner's store, its entry and
  // the entry of the same number in the current page table are cleared.
  function Evicted(m: Paged, p: nat): (m': Paged)
    requires Sized(m) && p < NUM_PHYS_PAGES && m.frames[p].owner < |m.spaces|
    requires m.frames[p].vpn < |m.spaces[m.frames[p].owner].table| && m.frames[p].vpn < |m.spaces[m.cur].table|
    ensures Sized(m')
  {
    var s, v := m.frames[p].owner, m.frames[p].vpn;
    var sp := m.spaces[s];
    var out := sp.(table := sp.table[v := Invalid(sp.table[v])], store := WithPage(sp.store, v, PageOf(m.mem, p)));
    var m1 := m.(spaces := m.spaces[s := out]);
    var m2 := WithEntry(m1, m.cur, v, Invalid(m1.spaces[m.cur].table[v]));
    m2.(tlb := DropTlb(m.tlb, p, v), frames := m.frames[p := m.frames[p].(dirty := false)])
  }

  // The same with the frame marked as free, as it is once it has been filled again.
  function Freed(m: Paged, p: nat): (m': Paged)
    requires Sized(m) && p < NUM_PHYS_PAGES && m.frames[p].owner < |m.spaces|
    requires m.frames[p].vpn < |m.spaces[m.frames[p].owner].table| && m.frames[p].vpn < |m.spaces[m.cur].table|
    ensures Sized(m')
  {
    var m1 := Evicted(m, p);
    m1.(frames := m1.frames[p := m1.frames[p].(valid := false)])
  }

  // Clearing the current page table's entry does no harm: the frame is the current space's
  // own, or its page of that number is not in memory.
  predicate Safe(m: Paged, p: nat)
    requires Sized(m) && p < NUM_PHYS_PAGES && m.frames[p].vpn < |m.spaces[m.cur].table|
  {
    m.frames[p].owner == m.cur || !m.spaces[m.cur].table[m.frames[p].vpn].valid
  }

  lemma FreedOk(m: Paged, p: nat)
    requires Coherent(m) && p < NUM_PHYS_PAGES && m.frames[p].valid && m.frames[p].vpn < |m.spaces[m.cur].table|
    requires Safe(m, p)
    ensures FrameOk(m, p) && Coherent(Freed(m, p))
  {
    assert FrameOk(m, p);
    var m', o, v := Freed(m, p), m.frames[p].owner, m.frames[p].vpn;
    assert EntryOk(m, o, v) && EntryOk(m, m.cur, v);
    FreedTlb(m, p);
    FreedFrames(m, p);
    forall s: nat, w: nat | s < |m'.spaces| && w < |m'.spaces[s].table| ensures EntryOk(m', s, w) { assert EntryOk(m, s, w); }
  }

  lemma FreedFrames(m: Paged, p: nat)
    requires Coherent(m) && p < NUM_PHYS_PAGES && m.frames[p].valid && m.frames[p].vpn < |m.spaces[m.cur].table|
    requires Safe(m, p)
    ensures FrameOk(m, p) && forall k :: 0 <= k < NUM_PHYS_PAGES ==> FrameOk(Freed(m, p), k)
  {
    assert FrameOk(m, p);
    var v := m.frames[p].vpn;
    assert EntryOk(m, m.frames[p].owner, v) && EntryOk(m, m.cur, v);
    forall k | 0 <= k < NUM_PHYS_PAGES ensures FrameOk(Freed(m, p), k) { assert FrameOk(m, k); }
  }

  lemma FreedTlb(m: Paged, p: nat)
    requires Coherent(m) && p < NUM_PHYS_PAGES && m.frames[p].valid && m.frames[p].vpn < |m.spaces[m.cur].table|
    requires Safe(m, p)
    ensures FrameOk(m, p) && forall k :: 0 <= k < TLB_SIZE ==> TlbOk(Freed(m, p), k)
    ensures var t := Freed(m, p).tlb;
            forall i, j :: 0 <= i < j < TLB_SIZE && t[i].valid && t[j].valid ==> t[i].virtualPage != t[j].virtualPage
  {
    assert FrameOk(m, p);
    var m', v := Freed(m, p), m.frames[p].vpn;
    assert EntryOk(m, m.cur, v);
    forall k | 0 <= k < TLB_SIZE ensures TlbOk(m', k) {
      assert TlbOk(m, k);
      if m.tlb[k].valid { assert EntryOk(m, m.cur, m.tlb[k].virtualPage); }
    }
  }

  // Page vpn of the current space is brought into the free frame p.
  function Filled(m: Paged, p: nat, vpn: nat, now: int): (m': Paged)
    requires Sized(m) && p < NUM_PHYS_PAGES && vpn < |m.spaces[m.cur].table|
    ensures Sized(m')
  {
    var e := m.spaces[m.cur].table[vpn].(valid := true, use := false, readOnly := false,
                                         physicalPage := p, virtualPage := vpn, inTime := now, lastHitTime := now);
    WithEntry(m, m.cur, vpn, e).(mem := WithPage(m.mem, p, PageOf(m.spaces[m.cur].store, vpn)),
                                 frames := m.frames[p := Frame(true, m.frames[p].dirty, m.cur, vpn, now)])
  }

  lemma FilledOk(m: Paged, p: nat, vpn: nat, now: int)
    requires Coherent(m) && p < NUM_PHYS_PAGES && vpn < |m.spaces[m.cur].table|
    requires !m.frames[p].valid && !m.spaces[m.cur].table[vpn].valid
    ensures Coherent(Filled(m, p, vpn, now))
  {
    var m' := Filled(m, p, vpn, now);
    assert FrameOk(m, p) && EntryOk(m, m.cur, vpn);
    forall k | 0 <= k < NUM_PHYS_PAGES ensures FrameOk(m', k) { assert FrameOk(m, k); }
    forall s: nat, w: nat | s < |m'.spaces| && w < |m'.spaces[s].table| ensures EntryOk(m', s, w) { assert EntryOk(m, s, w); }
    forall k | 0 <= k < TLB_SIZE ensures TlbOk(m', k) { assert TlbOk(m, k); }
  }

  // *entry = pageTable[vpn]
  function Loaded(m: Paged, i: nat, vpn: nat, now: int): (m': Paged)
    requires Sized(m) && i < TLB_SIZE && vpn < |m.spaces[m.cur].table|
    ensures Sized(m')
  {
    m.(tlb := m.tlb[i := m.spaces[m.cur].table[vpn].(inTime := now)])
  }

  predicate Missing(m: Paged, vpn: nat)
  {
    forall i :: 0 <= i < |m.tlb| && m.tlb[i].valid ==> m.tlb[i].virtualPage != vpn
  }

  lemma LoadedOk(m: Paged, i: nat, vpn: nat, now: int)
    requires Coherent(m) && i < TLB_SIZE && vpn < |m.spaces[m.cur].table| && m.spaces[m.cur].table[vpn].valid && Missing(m, vpn)
    ensures Coherent(Loaded(m, i, vpn, now)) && SameMemory(m, Loaded(m, i, vpn, now))
  {
    var m' := Loaded(m, i, vpn, now);
    assert EntryOk(m, m.cur, vpn);
    forall k | 0 <= k < NUM_PHYS_PAGES ensures FrameOk(m', k) { assert FrameOk(m, k); }
    forall s: nat, w: nat | s < |m'.spaces| && w < |m'.spaces[s].table| ensures EntryOk(m', s, w) { assert EntryOk(m, s, w); }
    forall k | 0 <= k < TLB_SIZE ensures TlbOk(m', k) { assert TlbOk(m, k); }
  }

  // A reference through TLB entry i.
  function Hit(m: Paged, i: nat, writing: bool, now: int): (m': Paged)
    requires Sized(m) && i < TLB_SIZE && 0 <= m.tlb[i].physicalPage < NUM_PHYS_PAGES && 0 <= m.tlb[i].virtualPage < |m.spaces[m.cur].table|
    ensures Sized(m')
  {
    var t := m.tlb[i];
    var e, f := m.spaces[m.cur].table[t.virtualPage], m.frames[t.physicalPage];
    WithEntry(m, m.cur, t.virtualPage, e.(dirty := writing || e.dirty)).(
      tlb := m.tlb[i := t.(use := true, dirty := writing || t.dirty, lastHitTime := now)],
      frames := m.frames[t.physicalPage := f.(dirty := writing || f.dirty, lastHitTime := now)])
  }

  lemma HitOk(m: Paged, i: nat, writing: bool, now: int)
    requires Coherent(m) && i < TLB_SIZE && m.tlb[i].valid
    ensures TlbOk(m, i) && EntryOk(m, m.cur, m.tlb[i].virtualPage)
    ensures Coherent(Hit(m, i, writing, now)) && SameMemory(m, Hit(m, i, writing, now))
  {
    assert TlbOk(m, i);
    var v := m.tlb[i].virtualPage;
    assert EntryOk(m, m.cur, v);
    var m' := Hit(m, i, writing, now);
    forall k | 0 <= k < NUM_PHYS_PAGES ensures FrameOk(m', k) { assert FrameOk(m, k); }
    forall s: nat, w: nat | s < |m'.spaces| && w < |m'.spaces[s].table| ensures EntryOk(m', s, w) { assert EntryOk(m, s, w); }
    forall k | 0 <= k < TLB_SIZE ensures TlbOk(m', k) { assert TlbOk(m, k); }
  }

  // AllocatePhysicalPage, with frame p chosen.
  function Allocated(m: Paged, p: nat, vpn: nat, now: int): (m': Paged)
    requires Sized(m) && p < NUM_PHYS_PAGES && vpn < |m.spaces[m.cur].table| && Evictable(m, p)
    ensures Sized(m') && m'.cur == m.cur && |m'.spaces| == |m.spaces|
    ensures forall s :: 0 <= s < |m.spaces| ==> |m'.spaces[s].table| == |m.spaces[s].table|
  {
    Filled(if m.frames[p].valid then Evicted(m, p) else m, p, vpn, now)
  }

  // The indices used to evict frame p exist.
  predicate Evictable(m: Paged, p: nat)
    requires Sized(m) && p < NUM_PHYS_PAGES
  {
    m.frames[p].valid ==>
      && m.frames[p].owner < |m.spaces| && m.frames[p].vpn < |m.spaces[m.frames[p].owner].table|
      && m.frames[p].vpn < |m.spaces[m.cur].table|
  }

  lemma SameTrans(a: Paged, b: Paged, c: Paged)
    requires Sized(a) && Sized(b) && Sized(c) && SameMemory(a, b) && SameMemory(b, c)
    ensures SameMemory(a, c)
  {
    forall s: nat, v: nat | s < |a.spaces| && v < |a.spaces[s].table| ensures PageSeen(c, s, v) == PageSeen(a, s, v) {
      assert PageSeen(b, s, v) == PageSeen(a, s, v);
    }
  }

  // Taking over a frame keeps the tables in agreement exactly when clearing the current page
  // table's entry was harmless; and then no space sees any change.
  lemma AllocatedExact(m: Paged, p: nat, vpn: nat, now: int)
    requires Coherent(m) && p < NUM_PHYS_PAGES && vpn < |m.spaces[m.cur].table| && !m.spaces[m.cur].table[vpn].valid
    requires Evictable(m, p)
    ensures Coherent(Allocated(m, p, vpn, now)) <==> !m.frames[p].valid || Safe(m, p)
    ensures !m.frames[p].valid || Safe(m, p) ==> SameMemory(m, Allocated(m, p, vpn, now))
  {
    AllocatedMemory(m, p, vpn, now);
    hide PageSeen;
    hide SameMemory;
    hide Agree;
    if !m.frames[p].valid {
      FilledOk(m, p, vpn, now);
    } else if Safe(m, p) {
      FreedOk(m, p);
      FilledOk(Freed(m, p), p, vpn, now);
      AllocatedFreed(m, p, vpn, now);
    } else {
      AllocatedBad(m, p, vpn, now);
    }
  }

  lemma AllocatedFreed(m: Paged, p: nat, vpn: nat, now: int)
    requires Sized(m) && p < NUM_PHYS_PAGES && vpn < |m.spaces[m.cur].table| && Evictable(m, p) && m.frames[p].valid
    ensures Allocated(m, p, vpn, now) == Filled(Freed(m, p), p, vpn, now)
  {
  }

  // Otherwise a frame is left that no page table entry maps to.
  lemma AllocatedBad(m: Paged, p: nat, vpn: nat, now: int)
    requires Coherent(m) && p < NUM_PHYS_PAGES && vpn < |m.spaces[m.cur].table| && !m.spaces[m.cur].table[vpn].valid
    requires Evictable(m, p) && m.frames[p].valid && !Safe(m, p)
    ensures !Coherent(Allocated(m, p, vpn, now))
  {
    var v := m.frames[p].vpn;
    assert FrameOk(m, p) && EntryOk(m, m.cur, v);
    var q := m.spaces[m.cur].table[v].physicalPage;
    assert !FrameOk(Allocated(m, p, vpn, now), q);
  }

  // The current space loses its page of the number of the evicted one.
  predicate Loses(m: Paged, p: nat, s: nat, w: nat)
    requires Sized(m) && p < NUM_PHYS_PAGES && s < |m.spaces| && w < |m.spaces[s].table|
  {
    m.frames[p].valid && s == m.cur && w == m.frames[p].vpn && m.frames[p].owner != s && m.spaces[s].table[w].valid
  }

  // What any space sees of any page afterwards.
  lemma AllocatedSeen(m: Paged, p: nat, vpn: nat, now: int, s: nat, w: nat)
    requires Coherent(m) && p < NUM_PHYS_PAGES && vpn < |m.spaces[m.cur].table| && !m.spaces[m.cur].table[vpn].valid
    requires Evictable(m, p) && s < |m.spaces| && w < |m.spaces[s].table|
    ensures var m' := Allocated(m, p, vpn, now);
            && |m'.spaces| == |m.spaces| && |m'.spaces[s].table| == |m.spaces[s].table|
            && PageSeen(m', s, w) == if Loses(m, p, s, w) then PageOf(m.spaces[s].store, w) else PageSeen(m, s, w)
  {
    assert FrameOk(m, p) && EntryOk(m, s, w) && EntryOk(m, m.cur, vpn);
    var m' := Allocated(m, p, vpn, now);
    var m1 := if m.frames[p].valid then Evicted(m, p) else m;
    var page := PageOf(m1.spaces[m.cur].store, vpn);
    var e := m'.spaces[s].table[w];
    if e.valid && 0 <= e.physicalPage < NUM_PHYS_PAGES { PageWritten(m.mem, p, page, e.physicalPage); }
    if m.frames[p].valid {
      var o, v := m.frames[p].owner, m.frames[p].vpn;
      PageWritten(m.spaces[o].store, v, PageOf(m.mem, p), if s == o then w else v);
      if o == m.cur { PageWritten(m.spaces[o].store, v, PageOf(m.mem, p), vpn); }
    }
  }

  // No space sees a change if and only if no such page differs from what is in the store.
  lemma AllocatedMemory(m: Paged, p: nat, vpn: nat, now: int)
    requires Coherent(m) && p < NUM_PHYS_PAGES && vpn < |m.spaces[m.cur].table| && !m.spaces[m.cur].table[vpn].valid
    requires Evictable(m, p)
    ensures SameMemory(m, Allocated(m, p, vpn, now)) <==>
              !m.frames[p].valid || Safe(m, p) || PageSeen(m, m.cur, m.frames[p].vpn) == PageOf(m.spaces[m.cur].store, m.frames[p].vpn)
  {
    hide Filled;
    hide Evicted;
    var m' := Allocated(m, p, vpn, now);
    forall s: nat, w: nat | s < |m.spaces| && w < |m.spaces[s].table|
      ensures |m'.spaces| == |m.spaces| && |m'.spaces[s].table| == |m.spaces[s].table|
      ensures PageSeen(m', s, w) == if Loses(m, p, s, w) then PageOf(m.spaces[s].store, w) else PageSeen(m, s, w)
    {
      AllocatedSeen(m, p, vpn, now, s, w);
    }
  }

  // The handler for a miss on page vpn: TLB entry i is replaced, and frame p is taken over
  // when the page is not in memory.
  function Faulted(m: Paged, i: nat, p: nat, vpn: nat, now: int): (m': Paged)
    requires Sized(m) && i < TLB_SIZE && p < NUM_PHYS_PAGES && vpn < |m.spaces[m.cur].table| && Evictable(m, p)
    requires m.tlb[i].valid ==> 0 <= m.tlb[i].virtualPage < |m.spaces[m.cur].table|
    ensures Sized(m')
  {
    var m1 := if m.tlb[i].valid then Stored(m, i) else m;
    var m2 := if m1.spaces[m.cur].table[vpn].valid then m1 else Allocated(m1, p, vpn, now);
    Loaded(m2, i, vpn, now)
  }

  lemma FaultOk(m: Paged, i: nat, p: nat, vpn: nat, now: int)
    requires Coherent(m) && i < TLB_SIZE && p < NUM_PHYS_PAGES && vpn < |m.spaces[m.cur].table| && Missing(m, vpn)
    requires Evictable(m, p) && (m.frames[p].valid ==> Safe(m, p))
    ensures TlbOk(m, i)
    ensures var m' := Faulted(m, i, p, vpn, now);
            Coherent(m') && SameMemory(m, m') && m'.tlb[i].valid && m'.tlb[i].virtualPage == vpn && m'.cur == m.cur
  {
    hide Agree;
    hide SameMemory;
    hide Filled;
    hide Evicted;
    hide PageSeen;
    TlbAt(m, i);
    var m' := Faulted(m, i, p, vpn, now);
    var m1 := if m.tlb[i].valid then Stored(m, i) else m;
    if m.tlb[i].valid { StoredOk(m, i); } else { SameRefl(m); }
    var m2 := if m1.spaces[m.cur].table[vpn].valid then m1 else Allocated(m1, p, vpn, now);
    StoredValid(m, i);
    if m1.spaces[m.cur].table[vpn].valid {
      SameRefl(m1);
    } else {
      AllocatedExact(m1, p, vpn, now);
      AllocatedMapped(m1, p, vpn, now);
    }
    EntryAt(m2, m2.cur, vpn);
    LoadedOk(m2, i, vpn, now);
    SameTrans(m, m1, m2);
    SameTrans(m, m2, m');
  }

  // The page is mapped now, and the TLB has no entry for it still.
  lemma AllocatedMapped(m: Paged, p: nat, vpn: nat, now: int)
    requires Sized(m) && p < NUM_PHYS_PAGES && vpn < |m.spaces[m.cur].table| && Evictable(m, p) && Missing(m, vpn)
    ensures var m' := Allocated(m, p, vpn, now); m'.spaces[m.cur].table[vpn].valid && Missing(m', vpn)
  {
  }

  lemma TlbAt(m: Paged, i: nat)
    requires Coherent(m) && i < TLB_SIZE
    ensures TlbOk(m, i)
  {
  }

  lemma EntryAt(m: Paged, s: nat, v: nat)
    requires Coherent(m) && s < |m.spaces| && v < |m.spaces[s].table|
    ensures EntryOk(m, s, v)
  {
  }

  lemma SameRefl(m: Paged)
    requires Sized(m)
    ensures SameMemory(m, m)
  {
  }

  // Storing a TLB entry makes no page of the current space valid or invalid.
  lemma StoredValid(m: Paged, i: nat)
    requires Coherent(m) && i < TLB_SIZE
    ensures TlbOk(m, i)
    ensures m.tlb[i].valid ==>
              forall v :: 0 <= v < |m.spaces[m.cur].table| ==> Stored(m, i).spaces[m.cur].table[v].valid == m.spaces[m.cur].table[v].valid
  {
    assert TlbOk(m, i);
  }

  // With one address space there is nobody to be confused with.
  lemma AloneIsSafe(m: Paged, p: nat)
    requires Coherent(m) && |m.spaces| == 1 && p < NUM_PHYS_PAGES
    ensures Evictable(m, p) && (m.frames[p].valid ==> Safe(m, p))
  {
    assert FrameOk(m, p);
  }

  /* Context switches. */

  // SaveState on entry i: back to the page table, and no longer valid.
  function Flushed(m: Paged, i: nat): (m': Paged)
    requires Sized(m) && i < TLB_SIZE && (m.tlb[i].valid ==> 0 <= m.tlb[i].virtualPage < |m.spaces[m.cur].table|)
    ensures Sized(m')
  {
    if m.tlb[i].valid then Stored(m, i).(tlb := m.tlb[i := m.tlb[i].(valid := false)]) else m
  }

  lemma FlushedOk(m: Paged, i: nat)
    requires Coherent(m) && i < TLB_SIZE
    ensures TlbOk(m, i) && Coherent(Flushed(m, i)) && SameMemory(m, Flushed(m, i)) && !Flushed(m, i).tlb[i].valid
  {
    assert TlbOk(m, i);
    if m.tlb[i].valid {
      StoredOk(m, i);
      var m1, m' := Stored(m, i), Flushed(m, i);
      forall k | 0 <= k < NUM_PHYS_PAGES ensures FrameOk(m', k) { assert FrameOk(m1, k); }
      forall s: nat, w: nat | s < |m'.spaces| && w < |m'.spaces[s].table|
        ensures EntryOk(m', s, w) && PageSeen(m', s, w) == PageSeen(m, s, w)
      {
        assert EntryOk(m1, s, w) && PageSeen(m1, s, w) == PageSeen(m, s, w);
      }
      forall k | 0 <= k < TLB_SIZE ensures TlbOk(m', k) { assert TlbOk(m1, k); }
    }
  }

  // RestoreState, with no translation of another space left in the TLB.
  lemma SwitchOk(m: Paged, s: nat)
    requires Coherent(m) && s < |m.spaces| && forall i :: 0 <= i < TLB_SIZE ==> !m.tlb[i].valid
    ensures Coherent(m.(cur := s)) && SameMemory(m, m.(cur := s))
  {
    var m' := m.(cur := s);
    forall k | 0 <= k < NUM_PHYS_PAGES ensures FrameOk(m', k) { assert FrameOk(m, k); }
    forall t: nat, w: nat | t < |m'.spaces| && w < |m'.spaces[t].table| ensures EntryOk(m', t, w) { assert EntryOk(m, t, w); }
  }

  /* Memory as bytes. */

  // The memory of space s.
  ghost function Memory(m: Paged, s: nat): (r: seq<byte>)
    requires Sized(m) && s < |m.spaces|
    ensures |r| == |m.spaces[s].table| * PAGE_SIZE
  {
    seq(|m.spaces[s].table| * PAGE_SIZE, a requires 0 <= a < |m.spaces[s].table| * PAGE_SIZE =>
          PageSeen(m, s, a / PAGE_SIZE)[a % PAGE_SIZE])
  }

  lemma SameBytes(m: Paged, m': Paged, s: nat)
    requires Sized(m) && Sized(m') && SameMemory(m, m') && s < |m.spaces|
    ensures Memory(m', s) == Memory(m, s)
  {
    var n := |m.spaces[s].table| * PAGE_SIZE;
    forall a | 0 <= a < n ensures Memory(m', s)[a] == Memory(m, s)[a] {
      assert a / PAGE_SIZE < |m.spaces[s].table|;
      assert PageSeen(m', s, a / PAGE_SIZE) == PageSeen(m, s, a / PAGE_SIZE);
    }
  }

  // An access of size bytes at addr stays within its page.
  predicate Aligned(addr: nat, size: nat)
  {
    (size == 1 || size == 2 || size == 4) && addr % size == 0
  }

  lemma AlignedInPage(addr: nat, size: nat)
    requires Aligned(addr, size)
    ensures addr % PAGE_SIZE + size <= PAGE_SIZE
  {
    if size == 2 { assert addr % PAGE_SIZE % 2 == 0; }
    if size == 4 { assert addr % PAGE_SIZE % 4 == 0; }
  }

  // The frame that a valid entry names shows the bytes of memory.
  lemma BytesSeen(m: Paged, addr: nat, size: nat, p: nat)
    requires Coherent(m) && Aligned(addr, size) && addr / PAGE_SIZE < |m.spaces[m.cur].table|
    requires var e := m.spaces[m.cur].table[addr / PAGE_SIZE]; e.valid && e.physicalPage == p && p < NUM_PHYS_PAGES
    ensures var at := p * PAGE_SIZE + addr % PAGE_SIZE;
            at + size <= MEMORY_SIZE && addr + size <= |Memory(m, m.cur)| && m.mem[at..at + size] == Memory(m, m.cur)[addr..addr + size]
  {
    hide Agree;
    hide Memory;
    AlignedInPage(addr, size);
    var v, off := addr / PAGE_SIZE, addr % PAGE_SIZE;
    var at := p * PAGE_SIZE + off;
    var got, want := m.mem[at..at + size], Memory(m, m.cur)[addr..addr + size];
    forall k | 0 <= k < size ensures got[k] == want[k] {
      Coordinates(addr, size, addr + k);
      MemoryAt(m, m.cur, addr + k, v, off + k);
      CellAt(m, m.cur, v, off + k);
    }
  }

  // Where the byte at an offset of a page is.
  lemma CellAt(m: Paged, s: nat, v: nat, off: nat)
    requires Sized(m) && s < |m.spaces| && v < |m.spaces[s].table| && off < PAGE_SIZE
    ensures var e := m.spaces[s].table[v];
            PageSeen(m, s, v)[off] == if e.valid && 0 <= e.physicalPage < NUM_PHYS_PAGES then m.mem[e.physicalPage * PAGE_SIZE + off]
                                      else m.spaces[s].store[v * PAGE_SIZE + off]
  {
  }

  lemma MemoryAt(m: Paged, s: nat, a: nat, v: nat, off: nat)
    requires Sized(m) && s < |m.spaces| && v < |m.spaces[s].table| && off < PAGE_SIZE && a / PAGE_SIZE == v && a % PAGE_SIZE == off
    ensures a < |m.spaces[s].table| * PAGE_SIZE && Memory(m, s)[a] == PageSeen(m, s, v)[off]
  {
  }

  // One byte of one page, after data was written at offset off of page v, which is in frame p.
  lemma CellWritten(m: Paged, v: nat, off: nat, data: seq<byte>, p: nat, s: nat, w: nat, o: nat)
    requires Coherent(m) && v < |m.spaces[m.cur].table| && off + |data| <= PAGE_SIZE && p < NUM_PHYS_PAGES
    requires m.spaces[m.cur].table[v].valid && m.spaces[m.cur].table[v].physicalPage == p
    requires s < |m.spaces| && w < |m.spaces[s].table| && o < PAGE_SIZE
    ensures PageSeen(m.(mem := Splice(m.mem, p * PAGE_SIZE + off, data)), s, w)[o]
         == if s == m.cur && w == v && off <= o < off + |data| then data[o - off] else PageSeen(m, s, w)[o]
  {
    EntryAt(m, m.cur, v);
    EntryAt(m, s, w);
    var at := p * PAGE_SIZE + off;
    var m' := m.(mem := Splice(m.mem, at, data));
    CellAt(m, s, w, o);
    CellAt(m', s, w, o);
    hide Agree;
    hide PageSeen;
    hide Splice;
    var e := m.spaces[s].table[w];
    if e.valid {
      SpliceAt(m.mem, at, data, e.physicalPage * PAGE_SIZE + o);
      SameFrame(p, off, |data|, e.physicalPage, o);
    }
  }

  lemma SpliceAt(b: seq<byte>, at: nat, data: seq<byte>, x: nat)
    requires at + |data| <= |b| && x < |b|
    ensures Splice(b, at, data)[x] == if at <= x < at + |data| then data[x - at] else b[x]
  {
  }

  lemma SameFrame(p: nat, off: nat, n: nat, q: nat, o: nat)
    requires off + n <= PAGE_SIZE && o < PAGE_SIZE
    ensures p * PAGE_SIZE + off <= q * PAGE_SIZE + o < p * PAGE_SIZE + off + n <==> q == p && off <= o < off + n
  {
  }

  // Where an address of the same page lies relative to an access.
  lemma Coordinates(addr: nat, n: nat, a: nat)
    requires addr % PAGE_SIZE + n <= PAGE_SIZE
    ensures addr <= a < addr + n <==>
              a / PAGE_SIZE == addr / PAGE_SIZE && addr % PAGE_SIZE <= a % PAGE_SIZE < addr % PAGE_SIZE + n
    ensures addr <= a < addr + n ==> a - addr == a % PAGE_SIZE - addr % PAGE_SIZE
  {
  }

  // Writing into the frame of a page changes those bytes of that space's memory, and nothing
  // that any space sees besides.
  lemma BytesWritten(m: Paged, addr: nat, data: seq<byte>, p: nat, s: nat)
    requires Coherent(m) && Aligned(addr, |data|) && addr / PAGE_SIZE < |m.spaces[m.cur].table| && s < |m.spaces|
    requires var e := m.spaces[m.cur].table[addr / PAGE_SIZE]; e.valid && e.physicalPage == p && p < NUM_PHYS_PAGES
    ensures var at := p * PAGE_SIZE + addr % PAGE_SIZE;
            && at + |data| <= MEMORY_SIZE && addr + |data| <= |Memory(m, m.cur)|
            && var m' := m.(mem := Splice(m.mem, at, data));
               Coherent(m') && Memory(m', s) == if s == m.cur then Splice(Memory(m, s), addr, data) else Memory(m, s)
  {
    hide Agree;
    hide PageSeen;
    AlignedInPage(addr, |data|);
    var v, off := addr / PAGE_SIZE, addr % PAGE_SIZE;
    var m' := m.(mem := Splice(m.mem, p * PAGE_SIZE + off, data));
    MemCoherent(m, m'.mem);
    var before, after := Memory(m, s), Memory(m', s);
    forall a | 0 <= a < |before|
      ensures after[a] == if s == m.cur && addr <= a < addr + |data| then data[a - addr] else before[a]
    {
      Coordinates(addr, |data|, a);
      CellWritten(m, v, off, data, p, s, a / PAGE_SIZE, a % PAGE_SIZE);
    }
    assert after == if s == m.cur then Splice(before, addr, data) else before;
  }

  lemma MemCoherent(m: Paged, mem: seq<byte>)
    requires Coherent(m) && |mem| == MEMORY_SIZE
    ensures Coherent(m.(mem := mem))
  {
    var m' := m.(mem := mem);
    forall k | 0 <= k < NUM_PHYS_PAGES ensures FrameOk(m', k) { assert FrameOk(m, k); }
    forall s: nat, w: nat | s < |m'.spaces| && w < |m'.spaces[s].table| ensures EntryOk(m', s, w) { assert EntryOk(m, s, w); }
    forall k | 0 <= k < TLB_SIZE ensures TlbOk(m', k) { assert TlbOk(m, k); }
  }
}
