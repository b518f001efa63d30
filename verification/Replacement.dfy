/** Which page leaves the TLB and which leaves memory (code/machine/translate.cc,
    code/userprog/exception.cc): the time stamps, against the references that were made. */
module Replacement {
  import opened Outcomes
  import opened Paging
  import opened Machines

  // A miss on page vpn with TLB entry i and frame p chosen, a reference through entry i, the
  // flush of entry i, and a switch to space s.
  datatype Event = Miss(i: nat, p: nat, vpn: nat, now: int) | Use(i: nat, writing: bool, now: int) | Flush(i: nat) | Switch(s: nat)

  ghost predicate Can(m: Paged, ev: Event)
    requires Sized(m)
  {
    match ev
    case Miss(i, p, vpn, _) =>
      && i < TLB_SIZE && p < NUM_PHYS_PAGES && vpn < |m.spaces[m.cur].table| && Missing(m, vpn) && TlbOk(m, i)
      && Evictable(m, p) && (m.frames[p].valid ==> Safe(m, p))
    case Use(i, _, _) => i < TLB_SIZE && m.tlb[i].valid && TlbOk(m, i) && EntryOk(m, m.cur, m.tlb[i].virtualPage)
    case Flush(i) => i < TLB_SIZE && TlbOk(m, i)
    case Switch(s) => s < |m.spaces| && forall i :: 0 <= i < TLB_SIZE ==> !m.tlb[i].valid
  }

  ghost function Next(m: Paged, ev: Event): Paged
    requires Sized(m) && Can(m, ev)
  {
    match ev
    case Miss(i, p, vpn, now) => Faulted(m, i, p, vpn, now)
    case Use(i, writing, now) => Hit(m, i, writing, now)
    case Flush(i) => Flushed(m, i)
    case Switch(s) => m.(cur := s)
  }

  lemma NextOk(m: Paged, ev: Event)
    requires Coherent(m) && Can(m, ev)
    ensures Coherent(Next(m, ev)) && SameMemory(m, Next(m, ev))
  {
    hide Agree;
    hide SameMemory;
    match ev
    case Miss(i, p, vpn, now) => FaultOk(m, i, p, vpn, now);
    case Use(i, writing, now) => HitOk(m, i, writing, now);
    case Flush(i) => FlushedOk(m, i);
    case Switch(s) => SwitchOk(m, s);
  }

  ghost predicate Legal(m: Paged, run: seq<Event>)
    requires Coherent(m)
    decreases |run|
  {
    run != [] ==> Can(m, run[0]) && (NextOk(m, run[0]); Legal(Next(m, run[0]), run[1..]))
  }

  ghost function After(m: Paged, run: seq<Event>): (m': Paged)
    requires Coherent(m) && Legal(m, run)
    ensures Coherent(m')
    decreases |run|
  {
    if run == [] then m else NextOk(m, run[0]); After(Next(m, run[0]), run[1..])
  }

  // Page v of space s is referenced, or comes into memory for a reference.
  predicate Touches(m: Paged, ev: Event, s: nat, v: nat)
    requires s < |m.spaces| && v < |m.spaces[s].table|
  {
    && s == m.cur
    && match ev
       case Miss(_, _, vpn, _) => vpn == v && !m.spaces[s].table[v].valid
       case Use(i, _, _) => i < |m.tlb| && m.tlb[i].virtualPage == v
       case _ => false
  }

  // Page v of space s is put into the TLB.
  predicate Enters(m: Paged, ev: Event, s: nat, v: nat)
  {
    s == m.cur && ev.Miss? && ev.vpn == v
  }

  // When page v of space s was last referenced in a run, or `before` if it was not.
  ghost function LastUse(m: Paged, run: seq<Event>, s: nat, v: nat, before: int): int
    requires Coherent(m) && Legal(m, run) && s < |m.spaces| && v < |m.spaces[s].table|
    decreases |run|
  {
    if run == [] then before
    else
      NextOk(m, run[0]);
      LastUse(Next(m, run[0]), run[1..], s, v, if Touches(m, run[0], s, v) then run[0].now else before)
  }

  // When it was last put into the TLB.
  ghost function LastEntry(m: Paged, run: seq<Event>, s: nat, v: nat, before: int): int
    requires Coherent(m) && Legal(m, run)
    decreases |run|
  {
    if run == [] then before
    else
      NextOk(m, run[0]);
      LastEntry(Next(m, run[0]), run[1..], s, v, if Enters(m, run[0], s, v) then run[0].now else before)
  }

  // The stamps of page v of space s, wherever they count, say t.
  ghost predicate Stamped(m: Paged, s: nat, v: nat, t: int)
    requires Sized(m) && s < |m.spaces| && v < |m.spaces[s].table|
  {
    var e := m.spaces[s].table[v];
    && (e.valid && 0 <= e.physicalPage < NUM_PHYS_PAGES ==> m.frames[e.physicalPage].lastHitTime == t)
    && (e.valid && (s != m.cur || Missing(m, v)) ==> e.lastHitTime == t)
    && (s == m.cur ==> forall i :: 0 <= i < TLB_SIZE && m.tlb[i].valid && m.tlb[i].virtualPage == v ==> m.tlb[i].lastHitTime == t)
  }

  ghost predicate Dated(m: Paged, s: nat, v: nat, t: int)
    requires Sized(m)
  {
    s == m.cur ==> forall i :: 0 <= i < TLB_SIZE && m.tlb[i].valid && m.tlb[i].virtualPage == v ==> m.tlb[i].inTime == t
  }

  lemma FlushedStamped(m: Paged, i: nat, s: nat, v: nat, t: int)
    requires Coherent(m) && i < TLB_SIZE && TlbOk(m, i) && s < |m.spaces| && v < |m.spaces[s].table| && Stamped(m, s, v, t)
    ensures Stamped(Flushed(m, i), s, v, t)
  {
    var m' := Flushed(m, i);
    if m.tlb[i].valid && s == m.cur && Missing(m', v) && !Missing(m, v) {
      var k :| 0 <= k < TLB_SIZE && m.tlb[k].valid && m.tlb[k].virtualPage == v;
      assert m'.tlb[k].valid ==> k == i;
    }
  }

  lemma HitStamped(m: Paged, i: nat, writing: bool, now: int, s: nat, v: nat, t: int)
    requires Coherent(m) && Can(m, Use(i, writing, now)) && s < |m.spaces| && v < |m.spaces[s].table| && Stamped(m, s, v, t)
    ensures Stamped(Hit(m, i, writing, now), s, v, if Touches(m, Use(i, writing, now), s, v) then now else t)
  {
    EntryAt(m, s, v);
    EntryAt(m, m.cur, m.tlb[i].virtualPage);
    var m' := Hit(m, i, writing, now);
    forall k | 0 <= k < TLB_SIZE ensures m'.tlb[k].valid == m.tlb[k].valid && m'.tlb[k].virtualPage == m.tlb[k].virtualPage {}
    assert Missing(m', v) == Missing(m, v);
    hide Agree;
  }

  lemma AllocatedStamped(m: Paged, p: nat, vpn: nat, now: int, s: nat, v: nat, t: int)
    requires Coherent(m) && p < NUM_PHYS_PAGES && vpn < |m.spaces[m.cur].table| && !m.spaces[m.cur].table[vpn].valid
    requires Evictable(m, p) && (m.frames[p].valid ==> Safe(m, p)) && s < |m.spaces| && v < |m.spaces[s].table| && Stamped(m, s, v, t)
    ensures Stamped(Allocated(m, p, vpn, now), s, v, if s == m.cur && v == vpn then now else t)
  {
    EntryAt(m, s, v);
    EntryAt(m, m.cur, vpn);
    assert FrameOk(m, p);
    if m.frames[p].valid { EntryAt(m, m.cur, m.frames[p].vpn); }
    NotMapped(m, vpn);
    var m' := Allocated(m, p, vpn, now);
    assert forall k :: 0 <= k < TLB_SIZE && m'.tlb[k].valid ==> m'.tlb[k] == m.tlb[k];
    if s == m.cur && v != vpn && m'.spaces[s].table[v].valid && !Missing(m, v) {
      var k :| 0 <= k < TLB_SIZE && m.tlb[k].valid && m.tlb[k].virtualPage == v;
      assert m'.tlb[k] == m.tlb[k];
    }
    hide Agree;
  }

  lemma LoadedStamped(m: Paged, i: nat, vpn: nat, now: int, s: nat, v: nat, t: int)
    requires Coherent(m) && i < TLB_SIZE && vpn < |m.spaces[m.cur].table| && m.spaces[m.cur].table[vpn].valid
    requires Missing(m, vpn) && !m.tlb[i].valid && s < |m.spaces| && v < |m.spaces[s].table| && Stamped(m, s, v, t)
    ensures Stamped(Loaded(m, i, vpn, now), s, v, t)
  {
    EntryAt(m, m.cur, vpn);
    hide Agree;
    var m' := Loaded(m, i, vpn, now);
    assert forall k :: 0 <= k < TLB_SIZE && k != i ==> m'.tlb[k] == m.tlb[k];
    if s == m.cur && v != vpn && !Missing(m, v) {
      var k :| 0 <= k < TLB_SIZE && m.tlb[k].valid && m.tlb[k].virtualPage == v;
      assert m'.tlb[k] == m.tlb[k];
    }
  }

  lemma AllocatedBut(m: Paged, i: nat, e: Entry, p: nat, vpn: nat, now: int)
    requires Sized(m) && p < NUM_PHYS_PAGES && i < TLB_SIZE && vpn < |m.spaces[m.cur].table| && Evictable(m, p)
    ensures Evictable(m.(tlb := m.tlb[i := e]), p)
    ensures var f := m.(tlb := m.tlb[i := e]);
            Loaded(Allocated(f, p, vpn, now), i, vpn, now) == Loaded(Allocated(m, p, vpn, now), i, vpn, now)
  {
    var f := m.(tlb := m.tlb[i := e]);
    var a, b := Allocated(m, p, vpn, now), Allocated(f, p, vpn, now);
    assert forall k :: 0 <= k < TLB_SIZE && k != i ==> a.tlb[k] == b.tlb[k];
    var x := a.spaces[m.cur].table[vpn].(inTime := now);
    assert a.tlb[i := x] == b.tlb[i := x];
  }

  // A fault is the flush of entry i, the allocation of a frame and the load of the entry.
  lemma FaultedFlushed(m: Paged, i: nat, p: nat, vpn: nat, now: int)
    requires Coherent(m) && Can(m, Miss(i, p, vpn, now))
    ensures Coherent(Flushed(m, i)) && Flushed(m, i).cur == m.cur && Evictable(Flushed(m, i), p)
    ensures Flushed(m, i).frames[p].valid ==> Safe(Flushed(m, i), p)
    ensures var f := Flushed(m, i);
            && |f.spaces| == |m.spaces| && |f.spaces[m.cur].table| == |m.spaces[m.cur].table| && Missing(f, vpn)
            && f.spaces[m.cur].table[vpn].valid == m.spaces[m.cur].table[vpn].valid
            && Faulted(m, i, p, vpn, now) == Loaded(if f.spaces[m.cur].table[vpn].valid then f else Allocated(f, p, vpn, now), i, vpn, now)
  {
    FlushedOk(m, i);
    StoredValid(m, i);
    var f := Flushed(m, i);
    hide Agree;
    hide Allocated;
    hide SameMemory;
    assert forall k :: 0 <= k < TLB_SIZE && f.tlb[k].valid ==> f.tlb[k] == m.tlb[k];
    if m.tlb[i].valid {
      AllocatedBut(Stored(m, i), i, m.tlb[i].(valid := false), p, vpn, now);
    }
  }

  lemma MissStamped(m: Paged, i: nat, p: nat, vpn: nat, now: int, s: nat, v: nat, t: int)
    requires Coherent(m) && Can(m, Miss(i, p, vpn, now)) && s < |m.spaces| && v < |m.spaces[s].table| && Stamped(m, s, v, t)
    ensures var m' := Faulted(m, i, p, vpn, now);
            && |m'.spaces| == |m.spaces| && |m'.spaces[s].table| == |m.spaces[s].table|
            && Stamped(m', s, v, if Touches(m, Miss(i, p, vpn, now), s, v) then now else t)
  {
    hide Agree;
    hide Stamped;
    hide Allocated;
    hide SameMemory;
    FaultedFlushed(m, i, p, vpn, now);
    hide Faulted;
    FlushedStamped(m, i, s, v, t);
    var f := Flushed(m, i);
    assert !f.tlb[i].valid;
    if f.spaces[m.cur].table[vpn].valid {
      LoadedStamped(f, i, vpn, now, s, v, t);
    } else {
      AllocatedStamped(f, p, vpn, now, s, v, t);
      AllocatedExact(f, p, vpn, now);
      AllocatedMapped(f, p, vpn, now);
      AllocatedDrops(f, p, vpn, now, i);
      LoadedStamped(Allocated(f, p, vpn, now), i, vpn, now, s, v, if s == m.cur && v == vpn then now else t);
    }
  }

  lemma AllocatedDrops(m: Paged, p: nat, vpn: nat, now: int, i: nat)
    requires Sized(m) && p < NUM_PHYS_PAGES && vpn < |m.spaces[m.cur].table| && Evictable(m, p) && i < TLB_SIZE && !m.tlb[i].valid
    ensures !Allocated(m, p, vpn, now).tlb[i].valid
  {
  }

  // Every step keeps the stamps in line with the references.
  lemma StepStamped(m: Paged, ev: Event, s: nat, v: nat, t: int)
    requires Coherent(m) && Can(m, ev) && s < |m.spaces| && v < |m.spaces[s].table| && Stamped(m, s, v, t)
    ensures |Next(m, ev).spaces| == |m.spaces| && |Next(m, ev).spaces[s].table| == |m.spaces[s].table|
    ensures Stamped(Next(m, ev), s, v, if Touches(m, ev, s, v) then ev.now else t)
  {
    hide Agree;
    match ev
    case Miss(i, p, vpn, now) => hide Stamped; hide Faulted; MissStamped(m, i, p, vpn, now, s, v, t);
    case Use(i, writing, now) => hide Stamped; HitStamped(m, i, writing, now, s, v, t);
    case Flush(i) => hide Stamped; FlushedStamped(m, i, s, v, t);
    case Switch(_) =>
  }

  lemma MissDated(m: Paged, i: nat, p: nat, vpn: nat, now: int, s: nat, v: nat, t: int)
    requires Coherent(m) && Can(m, Miss(i, p, vpn, now)) && Dated(m, s, v, t)
    ensures Dated(Faulted(m, i, p, vpn, now), s, v, if s == m.cur && v == vpn then now else t)
  {
    FaultOk(m, i, p, vpn, now);
    hide Agree;
    hide SameMemory;
    var m' := Faulted(m, i, p, vpn, now);
    assert m'.tlb[i].inTime == now;
    assert forall k :: 0 <= k < TLB_SIZE && k != i && m'.tlb[k].valid ==> m'.tlb[k] == m.tlb[k];
  }

  lemma StepDated(m: Paged, ev: Event, s: nat, v: nat, t: int)
    requires Coherent(m) && Can(m, ev) && Dated(m, s, v, t)
    ensures Dated(Next(m, ev), s, v, if Enters(m, ev, s, v) then ev.now else t)
  {
    hide Agree;
    match ev
    case Miss(i, p, vpn, now) => hide Dated; hide Faulted; MissDated(m, i, p, vpn, now, s, v, t);
    case Use(i, writing, now) =>
    case Flush(i) =>
    case Switch(_) =>
  }

  lemma {:induction false} RunStamped(m: Paged, run: seq<Event>, s: nat, v: nat, t: int, u: int)
    requires Coherent(m) && Legal(m, run) && s < |m.spaces| && v < |m.spaces[s].table| && Stamped(m, s, v, t) && Dated(m, s, v, u)
    ensures var m' := After(m, run);
            && |m'.spaces| == |m.spaces| && |m'.spaces[s].table| == |m.spaces[s].table|
            && Stamped(m', s, v, LastUse(m, run, s, v, t)) && Dated(m', s, v, LastEntry(m, run, s, v, u))
    decreases |run|
  {
    hide Agree;
    hide Stamped;
    hide Dated;
    hide Next;
    hide Can;
    if run == [] {
    } else {
      var ev := run[0];
      NextOk(m, ev);
      StepStamped(m, ev, s, v, t);
      StepDated(m, ev, s, v, u);
      RunStamped(Next(m, ev), run[1..], s, v, if Touches(m, ev, s, v) then ev.now else t, if Enters(m, ev, s, v) then ev.now else u);
    }
  }

  lemma {:induction false} RunSizes(m: Paged, run: seq<Event>)
    requires Coherent(m) && Legal(m, run)
    ensures |After(m, run).spaces| == |m.spaces|
    ensures forall s :: 0 <= s < |m.spaces| ==> |After(m, run).spaces[s].table| == |m.spaces[s].table|
    decreases |run|
  {
    hide Agree;
    hide PageSeen;
    hide Next;
    hide Can;
    if run == [] {
    } else {
      NextOk(m, run[0]);
      RunSizes(Next(m, run[0]), run[1..]);
    }
  }

  // No page is in memory.
  predicate Unused(m: Paged)
  {
    forall s, v :: 0 <= s < |m.spaces| && 0 <= v < |m.spaces[s].table| ==> !m.spaces[s].table[v].valid
  }

  lemma UnusedStamped(m: Paged, s: nat, v: nat)
    requires Coherent(m) && Unused(m) && s < |m.spaces| && v < |m.spaces[s].table|
    ensures Stamped(m, s, v, 0) && Dated(m, s, v, 0)
  {
    forall i | 0 <= i < TLB_SIZE ensures !m.tlb[i].valid { TlbAt(m, i); }
  }

  // The page of frame p was last referenced at the time the frame table says.
  lemma FrameStamp(m: Paged, run: seq<Event>, p: nat)
    requires Coherent(m) && Unused(m) && Legal(m, run) && p < NUM_PHYS_PAGES && After(m, run).frames[p].valid
    ensures var f := After(m, run).frames[p];
            f.owner < |m.spaces| && f.vpn < |m.spaces[f.owner].table| && f.lastHitTime == LastUse(m, run, f.owner, f.vpn, 0)
  {
    var m' := After(m, run);
    RunSizes(m, run);
    assert FrameOk(m', p);
    hide Agree;
    hide LastUse;
    hide LastEntry;
    var f := m'.frames[p];
    UnusedStamped(m, f.owner, f.vpn);
    RunStamped(m, run, f.owner, f.vpn, 0, 0);
  }

  // And likewise for the page of TLB entry i, which came in at the time the entry says.
  lemma EntryStamp(m: Paged, run: seq<Event>, i: nat)
    requires Coherent(m) && Unused(m) && Legal(m, run) && i < TLB_SIZE && After(m, run).tlb[i].valid
    ensures var m', v := After(m, run), After(m, run).tlb[i].virtualPage;
            && m'.cur < |m.spaces| && 0 <= v < |m.spaces[m'.cur].table|
            && m'.tlb[i].lastHitTime == LastUse(m, run, m'.cur, v, 0) && m'.tlb[i].inTime == LastEntry(m, run, m'.cur, v, 0)
  {
    var m' := After(m, run);
    RunSizes(m, run);
    TlbAt(m', i);
    hide Agree;
    hide LastUse;
    hide LastEntry;
    UnusedStamped(m, m'.cur, m'.tlb[i].virtualPage);
    RunStamped(m, run, m'.cur, m'.tlb[i].virtualPage, 0, 0);
  }

  // Under LRU_TLB the page that leaves a full TLB is the one whose last reference is the oldest, and
  // under FIFO_TLB the one that has been there the longest.
  lemma OldestEntry(m: Paged, run: seq<Event>, policy: Policy, e: nat, k: nat)
    requires Coherent(m) && Unused(m) && Legal(m, run) && k < TLB_SIZE
    requires IsChoice(After(m, run).tlb, policy, e) && After(m, run).tlb[e].valid
    ensures var m' := After(m, run);
            var v, w := m'.tlb[e].virtualPage, m'.tlb[k].virtualPage;
            && m'.tlb[k].valid && m'.cur < |m.spaces| && 0 <= v < |m.spaces[m'.cur].table| && 0 <= w < |m.spaces[m'.cur].table|
            && (policy == LRU ==> LastUse(m, run, m'.cur, v, 0) <= LastUse(m, run, m'.cur, w, 0))
            && (policy == FIFO ==> LastEntry(m, run, m'.cur, v, 0) <= LastEntry(m, run, m'.cur, w, 0))
  {
    hide Agree;
    hide After;
    hide LastUse;
    hide LastEntry;
    EntryStamp(m, run, e);
    EntryStamp(m, run, k);
  }

  // The page that leaves a full memory is the one whose last reference is the oldest.
  lemma OldestFrame(m: Paged, run: seq<Event>, p: nat, k: nat)
    requires Coherent(m) && Unused(m) && Legal(m, run) && k < NUM_PHYS_PAGES
    requires IsVictim(After(m, run).frames, p) && After(m, run).frames[p].valid
    ensures var f, g := After(m, run).frames[p], After(m, run).frames[k];
            && g.valid && f.owner < |m.spaces| && f.vpn < |m.spaces[f.owner].table| && g.owner < |m.spaces| && g.vpn < |m.spaces[g.owner].table|
            && LastUse(m, run, f.owner, f.vpn, 0) <= LastUse(m, run, g.owner, g.vpn, 0)
  {
    hide Agree;
    hide After;
    hide LastUse;
    FrameStamp(m, run, p);
    FrameStamp(m, run, k);
  }
}
