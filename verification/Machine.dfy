/** code/machine/translate.cc: memory references of user programs through the TLB, with the fault
    handler behind them, and the TLB flush of a context switch (code/userprog/addrspace.cc). */
module Machines {
  import opened Outcomes
  import opened Sectors
  import opened FileContents
  import opened Paging

  datatype Exception = NoException | PageFaultException | ReadOnlyException | BusErrorException | AddressErrorException

  // Which time stamp decides who leaves the TLB: LRU_TLB or FIFO_TLB.
  datatype Policy = LRU | FIFO

  function Stamp(policy: Policy, e: Entry): int
  {
    if policy == LRU then e.lastHitTime else e.inTime
  }

  // What the scan of the TLB arrives at: the first invalid entry, or else the first of the
  // entries with the least stamp.
  predicate IsChoice(tlb: seq<Entry>, policy: Policy, e: nat)
  {
    && e < |tlb|
    && (if tlb[e].valid then
          && (forall i :: 0 <= i < |tlb| ==> tlb[i].valid && Stamp(policy, tlb[e]) <= Stamp(policy, tlb[i]))
          && (forall i :: 0 <= i < e ==> Stamp(policy, tlb[e]) < Stamp(policy, tlb[i]))
        else
          forall i :: 0 <= i < e ==> tlb[i].valid)
  }

  predicate IsVictim(frames: seq<Frame>, p: nat)
  {
    && p < |frames|
    && (if frames[p].valid then
          && (forall i :: 0 <= i < |frames| ==> frames[i].valid && frames[p].lastHitTime <= frames[i].lastHitTime)
          && (forall i :: 0 <= i < p ==> frames[p].lastHitTime < frames[i].lastHitTime)
        else
          forall i :: 0 <= i < p ==> frames[i].valid)
  }

  class Machine {
    const tlb: array<Entry>
    const frames: array<Frame>
    const mem: array<byte>
    var spaces: seq<Space>
    var cur: nat
    var totalTicks: int

    ghost function State(): Paged
      reads this, tlb, frames, mem
    {
      Paged(tlb[..], frames[..], mem[..], spaces, cur)
    }

    // Time passes by any amount.
    method Ticks() returns (t: int)
      modifies this`totalTicks
      ensures t == totalTicks >= old(totalTicks)
    {
      var passed: int := *;
      if passed > 0 { totalTicks := totalTicks + passed; }
      return totalTicks;
    }

    method ChooseEntry(policy: Policy) returns (e: nat)
      requires tlb.Length == TLB_SIZE
      ensures IsChoice(tlb[..], policy, e)
    {
      e := 0;
      for i := 0 to TLB_SIZE
        invariant 0 <= e < TLB_SIZE && (e == 0 || e < i)
        invariant forall k :: 0 <= k < i ==> tlb[k].valid && Stamp(policy, tlb[e]) <= Stamp(policy, tlb[k])
        invariant forall k :: 0 <= k < e ==> Stamp(policy, tlb[e]) < Stamp(policy, tlb[k])
      {
        if !tlb[i].valid { return i; }
        if Stamp(policy, tlb[i]) < Stamp(policy, tlb[e]) { e := i; }
      }
    }

    method ChooseFrame() returns (p: nat)
      requires frames.Length == NUM_PHYS_PAGES
      ensures IsVictim(frames[..], p)
    {
      p := 0;
      for i := 0 to NUM_PHYS_PAGES
        invariant 0 <= p < NUM_PHYS_PAGES && (p == 0 || p < i)
        invariant forall k :: 0 <= k < p ==> frames[p].lastHitTime < frames[k].lastHitTime
        invariant forall k :: 0 <= k < i ==> frames[k].valid && frames[p].lastHitTime <= frames[k].lastHitTime
      {
        if !frames[i].valid { return i; }
        if frames[i].lastHitTime < frames[p].lastHitTime { p := i; }
      }
    }
  
    // Frame p of a coherent machine goes to page vpn of the current space.
    method AllocatePhysicalPage(vpn: nat, now: int) returns (p: nat)
      requires Sized(State()) && vpn < |spaces[cur].table| && VictimFits(State())
      modifies this`spaces, tlb, frames, mem
      ensures IsVictim(old(frames[..]), p) && State() == Allocated(old(State()), p, vpn, now)
    {
      p := ChooseFrame();
      ghost var m := State();
      assert IsVictim(m.frames, p);
      if frames[p].valid {
        SwapOut(p);
      }
      ghost var m1 := State();
      assert m1 == if m.frames[p].valid then Evicted(m, p) else m;
      var page := spaces[cur].store[vpn * PAGE_SIZE..(vpn + 1) * PAGE_SIZE];
      CopyPage(page, p);
      frames[p] := Frame(true, frames[p].dirty, cur, vpn, now);
      var e := spaces[cur].table[vpn].(valid := true, use := false, readOnly := false,
                                       physicalPage := p, virtualPage := vpn, inTime := now, lastHitTime := now);
      SetEntry(cur, vpn, e);
      assert State() == Filled(m1, p, vpn, now);
    }

    method SetEntry(s: nat, v: nat, e: Entry)
      requires s < |spaces| && v < |spaces[s].table|
      modifies this`spaces
      ensures spaces == old(spaces)[s := old(spaces)[s].(table := old(spaces)[s].table[v := e])]
    {
      spaces := spaces[s := spaces[s].(table := spaces[s].table[v := e])];
    }

    method CopyPage(page: seq<byte>, p: nat)
      requires |page| == PAGE_SIZE && mem.Length == MEMORY_SIZE && p < NUM_PHYS_PAGES
      modifies mem
      ensures mem[..] == WithPage(old(mem[..]), p, page)
    {
      forall k | 0 <= k < PAGE_SIZE { mem[p * PAGE_SIZE + k] := page[k]; }
    }

    // Frame p is taken away from its owner.
    method SwapOut(p: nat)
      requires Sized(State()) && p < NUM_PHYS_PAGES && frames[p].valid && Evictable(State(), p)
      modifies this`spaces, tlb, frames
      ensures State() == Evicted(old(State()), p)
    {
      var owner, oldVpn := frames[p].owner, frames[p].vpn;
      var sp := spaces[owner];
      var page := mem[p * PAGE_SIZE..(p + 1) * PAGE_SIZE];
      spaces := spaces[owner := sp.(table := sp.table[oldVpn := Invalid(sp.table[oldVpn])], store := WithPage(sp.store, oldVpn, page))];
      SetEntry(cur, oldVpn, Invalid(spaces[cur].table[oldVpn]));
      frames[p] := frames[p].(dirty := false);
      for i := 0 to TLB_SIZE
        modifies tlb
        invariant forall k :: 0 <= k < i ==> tlb[k] == DropTlb(old(tlb[..]), p, oldVpn)[k]
        invariant forall k :: i <= k < TLB_SIZE ==> tlb[k] == old(tlb[..])[k]
      {
        if tlb[i].valid && tlb[i].physicalPage == p && tlb[i].virtualPage == oldVpn {
          tlb[i] := tlb[i].(valid := false);
        }
      }
      assert tlb[..] == DropTlb(old(tlb[..]), p, oldVpn);
    }
  
    // LRU_TLB and FIFO_TLB: on a miss for page vpn, its translation is brought into the TLB, in
    // place of the entry the policy chooses; a page not in memory takes the frame of a victim.
    method Fault(vpn: nat, policy: Policy) returns (ghost i: nat, ghost p: nat, ghost now: int)
      requires Coherent(State()) && Benign(State()) && vpn < |spaces[cur].table| && Missing(State(), vpn)
      modifies this, tlb, frames, mem
      ensures Coherent(State()) && SameMemory(old(State()), State()) && cur == old(cur) && !Missing(State(), vpn)
      ensures IsChoice(old(tlb[..]), policy, i) && IsVictim(old(frames[..]), p)
      ensures Evictable(old(State()), p) && TlbOk(old(State()), i)
      ensures State() == Faulted(old(State()), i, p, vpn, now) && now == totalTicks >= old(totalTicks)
    {
      hide Agree;
      hide SameMemory;
      hide Faulted;
      var t := Ticks();
      ghost var m := State();
      var e := ChooseEntry(policy);
      i, now := e, t;
      TlbAt(m, i);
      StoredValid(m, i);
      p := Refill(e, vpn, t);
      BenignAt(m, p);
      FaultOk(m, i, p, vpn, now);
      assert State().tlb[i].valid;
    }

    // Entry i is stored back, and the translation of page vpn put in its place.
    method Refill(i: nat, vpn: nat, now: int) returns (ghost p: nat)
      requires Sized(State()) && VictimFits(State()) && i < TLB_SIZE && vpn < |spaces[cur].table|
      requires tlb[i].valid ==> 0 <= tlb[i].virtualPage < |spaces[cur].table|
      modifies this`spaces, tlb, frames, mem
      ensures IsVictim(old(frames[..]), p) && Evictable(old(State()), p) && State() == Faulted(old(State()), i, p, vpn, now)
    {
      hide Filled;
      hide Evicted;
      ghost var m := State();
      if tlb[i].valid {
        SetEntry(cur, tlb[i].virtualPage, tlb[i]);
      }
      ghost var m1 := State();
      assert m1 == if m.tlb[i].valid then Stored(m, i) else m;
      p := SomeVictim(m.frames);
      assert IsVictim(m.frames, p);
      if !spaces[cur].table[vpn].valid {
        StoredEvictable(m, m1, i);
        var q := AllocatePhysicalPage(vpn, now);
        p := q;
      }
      tlb[i] := spaces[cur].table[vpn].(inTime := now);
    }

    // Translate: the first valid TLB entry for the page decides.
    method Translate(addr: nat, size: nat, writing: bool) returns (ex: Exception, phys: nat, ghost i: nat, ghost now: int)
      requires Sized(State()) && (size == 1 || size == 2 || size == 4) && addr / PAGE_SIZE < |spaces[cur].table|
      modifies this, tlb, frames
      ensures now == totalTicks >= old(totalTicks)
      ensures var m, vpn := old(State()), addr / PAGE_SIZE;
              && (ex != NoException ==> State() == m)
              && (ex == AddressErrorException <==> !Aligned(addr, size))
              && (Aligned(addr, size) ==> (ex == PageFaultException <==> Missing(m, vpn)))
              && (Aligned(addr, size) && !Missing(m, vpn) ==>
                    && i < TLB_SIZE && m.tlb[i].valid && m.tlb[i].virtualPage == vpn
                    && (ex == ReadOnlyException <==> m.tlb[i].readOnly && writing)
                    && (ex == BusErrorException ==> !(0 <= m.tlb[i].physicalPage < NUM_PHYS_PAGES))
                    && (ex == NoException ==>
                          && 0 <= m.tlb[i].physicalPage < NUM_PHYS_PAGES && State() == Hit(m, i, writing, now)
                          && phys == m.tlb[i].physicalPage * PAGE_SIZE + addr % PAGE_SIZE))
    {
      phys, i, now := 0, 0, totalTicks;
      if (size == 4 && addr % 4 != 0) || (size == 2 && addr % 2 != 0) {
        return AddressErrorException, phys, i, now;
      }
      var vpn, offset := addr / PAGE_SIZE, addr % PAGE_SIZE;
      var found := Lookup(vpn);
      if found == -1 { return PageFaultException, phys, i, now; }
      i := found;
      var entry := tlb[found];
      if entry.readOnly && writing { return ReadOnlyException, phys, i, now; }
      var pageFrame := entry.physicalPage;
      if pageFrame < 0 || pageFrame >= NUM_PHYS_PAGES { return BusErrorException, phys, i, now; }
      ghost var m := State();
      var t := Ticks();
      now := t;
      if writing {
        SetEntry(cur, vpn, spaces[cur].table[vpn].(dirty := true));
        tlb[found] := tlb[found].(dirty := true);
        frames[pageFrame] := frames[pageFrame].(dirty := true);
      }
      tlb[found] := tlb[found].(use := true, lastHitTime := t);
      frames[pageFrame] := frames[pageFrame].(lastHitTime := t);
      phys := pageFrame * PAGE_SIZE + offset;
      ex := NoException;
      assert m.spaces[cur].table == m.spaces[cur].table[vpn := m.spaces[cur].table[vpn]];
      assert m.spaces == m.spaces[cur := m.spaces[cur]];
      assert State() == Hit(m, i, writing, now);
    }

    method Lookup(vpn: nat) returns (i: int)
      requires tlb.Length == TLB_SIZE
      ensures i == -1 <==> Missing(State(), vpn)
      ensures i != -1 ==> 0 <= i < TLB_SIZE && tlb[i].valid && tlb[i].virtualPage == vpn
    {
      for k := 0 to TLB_SIZE
        invariant forall j :: 0 <= j < k && tlb[j].valid ==> tlb[j].virtualPage != vpn
      {
        if tlb[k].valid && tlb[k].virtualPage == vpn {
          assert State().tlb[k].valid;
          return k;
        }
      }
      return -1;
    }

    // The physical address of an access; a miss takes one fault, and no more.
    method Reach(addr: nat, size: nat, writing: bool, policy: Policy) returns (r: Outcome<nat>)
      requires Coherent(State()) && Benign(State()) && (size == 1 || size == 2 || size == 4) && addr / PAGE_SIZE < |spaces[cur].table|
      modifies this, tlb, frames, mem
      ensures Coherent(State()) && SameMemory(old(State()), State()) && cur == old(cur)
      ensures r.Returned? <==> Aligned(addr, size)
      ensures r.Returned? ==> var e := spaces[cur].table[addr / PAGE_SIZE];
                e.valid && 0 <= e.physicalPage < NUM_PHYS_PAGES && r.value == e.physicalPage * PAGE_SIZE + addr % PAGE_SIZE
    {
      hide Agree;
      hide PageSeen;
      hide Faulted;
      hide IsChoice;
      hide IsVictim;
      var ex, phys := TranslateKept(addr, size, writing);
      if ex != NoException {
        if ex != PageFaultException { return Halted; }      // no handler: ASSERT(FALSE)
        ghost var m := State();
        ghost var i, p, now := Fault(addr / PAGE_SIZE, policy);
        ghost var m1 := State();
        ex, phys := TranslateKept(addr, size, writing);
        assert ex == NoException;
        ghost var m2 := State();
        ex, phys := TranslateKept(addr, size, writing);
        assert ex == NoException;
        SameTrans(m1, m2, State());
        SameTrans(m, m1, State());
      }
      r := Returned(phys);
    }

    // Translate on a coherent machine.
    method TranslateKept(addr: nat, size: nat, writing: bool) returns (ex: Exception, phys: nat)
      requires Coherent(State()) && (size == 1 || size == 2 || size == 4) && addr / PAGE_SIZE < |spaces[cur].table|
      modifies this, tlb, frames
      ensures Coherent(State()) && SameMemory(old(State()), State()) && cur == old(cur)
      ensures Missing(State(), addr / PAGE_SIZE) <==> Missing(old(State()), addr / PAGE_SIZE)
      ensures ex == if !Aligned(addr, size) then AddressErrorException
                    else if Missing(State(), addr / PAGE_SIZE) then PageFaultException else NoException
      ensures ex == NoException ==> var e := spaces[cur].table[addr / PAGE_SIZE];
                e.valid && 0 <= e.physicalPage < NUM_PHYS_PAGES && phys == e.physicalPage * PAGE_SIZE + addr % PAGE_SIZE
      ensures ex != NoException ==> State() == old(State())
    {
      hide Agree;
      hide SameMemory;
      ghost var m := State();
      SameRefl(m);
      ghost var i, now;
      ex, phys, i, now := Translate(addr, size, writing);
      if Aligned(addr, size) && !Missing(m, addr / PAGE_SIZE) {
        HitOk(m, i, writing, now);
        HitFound(m, i, writing, now);
      }
    }

    method ReadMem(addr: nat, size: nat, policy: Policy) returns (r: Outcome<int>)
      requires Coherent(State()) && Benign(State()) && (size == 1 || size == 2 || size == 4) && addr / PAGE_SIZE < |spaces[cur].table|
      modifies this, tlb, frames, mem
      ensures Coherent(State()) && SameMemory(old(State()), State()) && cur == old(cur)
      ensures r == FlatRead(old(Memory(State(), cur)), addr, size)
    {
      hide Agree;
      hide PageSeen;
      ghost var m := State();
      var phys := Reach(addr, size, false, policy);
      SameBytes(m, State(), cur);
      if phys.Halted? { return Halted; }
      BytesSeen(State(), addr, size, spaces[cur].table[addr / PAGE_SIZE].physicalPage);
      r := Returned(ValueOf(mem[phys.value..phys.value + size]));
    }

    method WriteMem(addr: nat, size: nat, value: int32, policy: Policy) returns (r: Outcome<int32>)
      requires Coherent(State()) && Benign(State()) && (size == 1 || size == 2 || size == 4) && addr / PAGE_SIZE < |spaces[cur].table|
      modifies this, tlb, frames, mem
      ensures Coherent(State()) && cur == old(cur)
      ensures r == if Aligned(addr, size) then Returned(value) else Halted
      ensures Updated(old(State()), addr, size, value, State())
    {
      hide Agree;
      hide SameMemory;
      hide Memory;
      hide Updated;
      ghost var m := State();
      var phys := Reach(addr, size, true, policy);
      ghost var m1 := State();
      SizesKept(m, m1);
      if phys.Halted? {
        NotUpdated(m, addr, size, value, m1);
        return Halted;
      }
      StoreSeen(m, addr, size, value, m1);
      CopyBytes(BytesOf(value, size), phys.value);
      r := Returned(value);
    }

    method CopyBytes(data: seq<byte>, at: nat)
      requires at + |data| <= mem.Length
      modifies mem
      ensures mem[..] == Splice(old(mem[..]), at, data)
    {
      forall k | 0 <= k < |data| { mem[at + k] := data[k]; }
    }

    // A first reference to page vpn, which takes a free frame.
    method Bring(vpn: nat, writing: bool) returns (phys: nat, ghost p: nat, ghost later: int)
      requires Coherent(State()) && vpn < |spaces[cur].table| && !spaces[cur].table[vpn].valid
      requires forall p: nat :: IsVictim(frames[..], p) ==> !frames[p].valid
      modifies this, tlb, frames, mem
      ensures Coherent(State()) && cur == old(cur) && old(totalTicks) <= later == totalTicks
      ensures IsVictim(old(frames[..]), p) && frames[..] == old(frames[..])[p := Frame(true, writing, cur, vpn, later)]
      ensures mem[..] == WithPage(old(mem[..]), p, PageOf(old(spaces[cur].store), vpn)) && SameStores(old(spaces), spaces)
      ensures phys == p * PAGE_SIZE
    {
      hide Agree;
      hide SameMemory;
      hide Faulted;
      hide Hit;
      hide IsChoice;
      ghost var m := State();
      NotMapped(m, vpn);
      ghost var i, now, j;
      i, p, now := Fault(vpn, LRU);
      ghost var m1 := State();
      SizesKept(m, m1);
      ChoiceAt(m.tlb, i);
      var ex;
      ex, phys, j, later := Translate(vpn * PAGE_SIZE, 1, writing);
      TlbAt(m1, j);
      HitOk(m1, j, writing, later);
      BroughtIn(m, i, p, vpn, now, j, writing, later);
    }

    // A machine with nothing in memory: the spaces see their stores.
    constructor (programs: seq<Space>)
      requires |programs| > 0 && forall s :: 0 <= s < |programs| ==> Unloaded(programs[s])
      ensures fresh(tlb) && fresh(frames) && fresh(mem) && spaces == programs
      ensures frames.Length == NUM_PHYS_PAGES && forall p :: 0 <= p < NUM_PHYS_PAGES ==> !frames[p].valid
      ensures Coherent(State()) && forall s: nat :: s < |programs| ==> Memory(State(), s) == programs[s].store
    {
      tlb := new Entry[TLB_SIZE](_ => Entry(0, 0, false, false, false, false, 0, 0));
      frames := new Frame[NUM_PHYS_PAGES](_ => Frame(false, false, 0, 0, 0));
      mem := new byte[MEMORY_SIZE](_ => 0);
      spaces, cur, totalTicks := programs, 0, 0;
      new;
      forall s: nat | s < |programs| ensures Memory(State(), s) == programs[s].store { StoreIsMemory(State(), s); }
    }

    // AddrSpace::SaveState
    method SaveState()
      requires Coherent(State())
      modifies this`spaces, tlb
      ensures Coherent(State()) && SameMemory(old(State()), State())
      ensures (forall i :: 0 <= i < TLB_SIZE ==> !tlb[i].valid) && SameStores(old(spaces), spaces)
    {
      hide Agree;
      hide SameMemory;
      ghost var m := State();
      SameRefl(m);
      for i := 0 to TLB_SIZE
        invariant Coherent(State()) && SameMemory(m, State()) && SameStores(m.spaces, spaces)
        invariant forall k :: 0 <= k < i ==> !tlb[k].valid
      {
        ghost var m1 := State();
        FlushedOk(m1, i);
        if tlb[i].valid {
          SetEntry(cur, tlb[i].virtualPage, tlb[i]);
          tlb[i] := tlb[i].(valid := false);
        }
        assert State() == Flushed(m1, i);
        SameTrans(m, m1, State());
      }
    }

    // A context switch to space s, which may be the same.
    method Switch(s: nat)
      requires Coherent(State()) && s < |spaces|
      modifies this`spaces, this`cur, tlb
      ensures Coherent(State()) && SameMemory(old(State()), State()) && cur == s
      ensures (forall i :: 0 <= i < TLB_SIZE ==> !tlb[i].valid) && SameStores(old(spaces), spaces)
    {
      hide Agree;
      hide PageSeen;
      ghost var m := State();
      SaveState();
      ghost var m1 := State();
      SwitchOk(m1, s);
      cur := s;                                              // RestoreState
      SameTrans(m, m1, State());
    }

    // One access of a program that is alone.
    method Step(op: Access, policy: Policy) returns (r: Outcome<int>)
      requires Coherent(State()) && |spaces| == 1 && cur == 0 && InSpace(op, |spaces[0].table| * PAGE_SIZE)
      modifies this, tlb, frames, mem
      ensures Coherent(State()) && |spaces| == 1 && cur == 0 && |spaces[0].table| == old(|spaces[0].table|)
      ensures (r, Memory(State(), 0)) == FlatStep(old(Memory(State(), 0)), op)
    {
      hide Agree;
      hide PageSeen;
      hide Memory;
      ghost var m := State();
      forall p: nat | p < NUM_PHYS_PAGES ensures Evictable(m, p) && (m.frames[p].valid ==> Safe(m, p)) { AloneIsSafe(m, p); }
      match op
      case Load(addr, size) =>
        r := ReadMem(addr, size, policy);
        SameBytes(m, State(), 0);
      case Store(addr, size, value) =>
        r := WriteMem(addr, size, value, policy);
        assert |Memory(State(), 0)| == |Memory(m, 0)|;
      case Interrupted =>
        Switch(0);
        SameBytes(m, State(), 0);
        r := Returned(0);
    }

    // Any run of one program, whichever replacement policy is used at each fault: what it
    // loads is what it would load from a flat array.
    method Run(ops: seq<Access>, policies: seq<Policy>) returns (outs: seq<Outcome<int>>)
      requires Coherent(State()) && |spaces| == 1 && cur == 0 && |policies| == |ops|
      requires forall i :: 0 <= i < |ops| ==> InSpace(ops[i], |spaces[0].table| * PAGE_SIZE)
      modifies this, tlb, frames, mem
      ensures Coherent(State()) && outs == FlatRun(old(Memory(State(), 0)), ops)
    {
      hide Agree;
      hide Memory;
      hide FlatStep;
      hide FlatRun;
      FlatRunEnds(ops);
      outs := [];
      ghost var flat := Memory(State(), 0);
      for i := 0 to |ops|
        invariant Coherent(State()) && |spaces| == 1 && cur == 0 && |spaces[0].table| == old(|spaces[0].table|)
        invariant FlatRun(flat, ops) == outs + FlatRun(Memory(State(), 0), ops[i..])
      {
        FlatRunNext(Memory(State(), 0), ops, i);
        var r := Step(ops[i], policies[i]);
        outs := outs + [r];
        if r.Halted? { return; }
      }
    }
  }

  datatype Access = Load(addr: nat, size: nat) | Store(addr: nat, size: nat, value: int32) | Interrupted

  // The access is to the address space.
  predicate InSpace(op: Access, n: nat)
  {
    op.Interrupted? || (op.addr < n && (op.size == 1 || op.size == 2 || op.size == 4))
  }

  // What an access returns and leaves behind, on one flat array of bytes.
  function FlatStep(mem: seq<byte>, op: Access): (r: (Outcome<int>, seq<byte>))
    requires |mem| % PAGE_SIZE == 0 && InSpace(op, |mem|)
    ensures |r.1| == |mem|
  {
    match op
    case Load(addr, size) => (FlatRead(mem, addr, size), mem)
    case Store(addr, size, value) =>
      (if Aligned(addr, size) then Returned(value) else Halted, FlatWrite(mem, addr, size, value))
    case Interrupted => (Returned(0), mem)
  }

  function FlatRun(mem: seq<byte>, ops: seq<Access>): seq<Outcome<int>>
    requires |mem| % PAGE_SIZE == 0 && forall i :: 0 <= i < |ops| ==> InSpace(ops[i], |mem|)
    decreases |ops|
  {
    if ops == [] then []
    else
      var step := FlatStep(mem, ops[0]);
      [step.0] + if step.0.Halted? then [] else FlatRun(step.1, ops[1..])
  }

  lemma FlatRunNext(mem: seq<byte>, ops: seq<Access>, i: nat)
    requires |mem| % PAGE_SIZE == 0 && i < |ops| && forall k :: 0 <= k < |ops| ==> InSpace(ops[k], |mem|)
    ensures var step := FlatStep(mem, ops[i]);
            FlatRun(mem, ops[i..]) == [step.0] + if step.0.Halted? then [] else FlatRun(step.1, ops[i + 1..])
  {
    assert ops[i..][0] == ops[i] && ops[i..][1..] == ops[i + 1..];
  }

  lemma FlatRunEnds(ops: seq<Access>)
    ensures ops[0..] == ops
    ensures forall mem: seq<byte> {:trigger FlatRun(mem, ops[|ops|..])} :: |mem| % PAGE_SIZE == 0 ==> FlatRun(mem, ops[|ops|..]) == []
  {
  }

  predicate Unloaded(sp: Space)
  {
    |sp.store| == |sp.table| * PAGE_SIZE && forall v :: 0 <= v < |sp.table| ==> !sp.table[v].valid && !sp.table[v].dirty
  }

  lemma StoreIsMemory(m: Paged, s: nat)
    requires Sized(m) && s < |m.spaces| && Unloaded(m.spaces[s])
    ensures Memory(m, s) == m.spaces[s].store
  {
    var n := |m.spaces[s].store|;
    forall a | 0 <= a < n ensures Memory(m, s)[a] == m.spaces[s].store[a] {
      var v := a / PAGE_SIZE;
      assert !m.spaces[s].table[v].valid;
      assert PageSeen(m, s, v) == PageOf(m.spaces[s].store, v);
    }
  }

  // The value a load delivers: bytes are signed, halfwords unsigned, words signed.
  function ValueOf(b: seq<byte>): int
    requires |b| == 1 || |b| == 2 || |b| == 4
  {
    if |b| == 1 then (if b[0] < 128 then b[0] as int else b[0] as int - 256)
    else if |b| == 2 then b[0] as int + b[1] as int * 256
    else WordFrom(b[0], b[1], b[2], b[3])
  }

  // The low `size` bytes of a value, least significant first.
  function BytesOf(value: int32, size: nat): (b: seq<byte>)
    requires size == 1 || size == 2 || size == 4
    ensures |b| == size
  {
    [ByteOf(value, 0), ByteOf(value, 1), ByteOf(value, 2), ByteOf(value, 3)][..size]
  }

  // Loads and stores on one flat array of bytes.
  function FlatRead(mem: seq<byte>, addr: nat, size: nat): Outcome<int>
    requires (size == 1 || size == 2 || size == 4) && |mem| % PAGE_SIZE == 0 && addr < |mem|
  {
    if !Aligned(addr, size) then Halted else AlignedEnds(mem, addr, size); Returned(ValueOf(mem[addr..addr + size]))
  }

  function FlatWrite(mem: seq<byte>, addr: nat, size: nat, value: int32): (r: seq<byte>)
    requires (size == 1 || size == 2 || size == 4) && |mem| % PAGE_SIZE == 0 && addr < |mem|
    ensures |r| == |mem|
  {
    if !Aligned(addr, size) then mem else AlignedEnds(mem, addr, size); Splice(mem, addr, BytesOf(value, size))
  }

  // Bytes as a number, the least significant first.
  function Number(b: seq<byte>): nat
  {
    if b == [] then 0 else b[0] as nat + 256 * Number(b[1..])
  }

  // x is what a load of that size makes of the number n: bytes are signed, halfwords are not, words are.
  predicate Delivers(x: int, size: nat, n: nat)
  {
    match size
    case 1 => -0x80 <= x < 0x80 && (x == n || x == n - 0x100)
    case 2 => x == n < 0x1_0000
    case 4 => -0x8000_0000 <= x < 0x8000_0000 && (x == n || x == n - 0x1_0000_0000)
    case _ => false
  }

  // A store sets the bytes it covers to those of the value, and no others.
  lemma StoredByte(mem: seq<byte>, a: nat, size: nat, v: int32, b: nat)
    requires (size == 1 || size == 2 || size == 4) && |mem| % PAGE_SIZE == 0 && a < |mem| && b < |mem|
    ensures FlatWrite(mem, a, size, v)[b] as int ==
            if a % size == 0 && a <= b < a + size then Unsigned(v) / Weight(b - a) % 256 else mem[b] as int
  {
    if a % size == 0 {
      AlignedEnds(mem, a, size);
      SpliceAt(mem, a, BytesOf(v, size), b);
      if a <= b < a + size { ByteIs(v, b - a); }
    }
  }

  lemma NumberOf(b: seq<byte>)
    requires |b| == 1 || |b| == 2 || |b| == 4
    ensures Delivers(ValueOf(b), |b|, Number(b))
  {
    if |b| == 1 {
      assert Number(b[1..]) == 0;
    } else if |b| == 2 {
      assert Number(b[1..]) == b[1] as nat + 256 * Number(b[1..][1..]);
    } else {
      assert Number(b[1..]) == b[1] as nat + 256 * Number(b[2..]) by { assert b[1..][1..] == b[2..]; }
      assert Number(b[2..]) == b[2] as nat + 256 * Number(b[3..]) by { assert b[2..][1..] == b[3..]; }
      assert Number(b[3..]) == b[3] as nat + 256 * Number(b[3..][1..]);
    }
  }

  lemma LoadedValue(mem: seq<byte>, a: nat, size: nat)
    requires (size == 1 || size == 2 || size == 4) && |mem| % PAGE_SIZE == 0 && a < |mem|
    ensures FlatRead(mem, a, size).Returned? <==> a % size == 0
    ensures a % size == 0 ==> a + size <= |mem| && Delivers(FlatRead(mem, a, size).value, size, Number(mem[a..a + size]))
  {
    if a % size == 0 {
      AlignedEnds(mem, a, size);
      NumberOf(mem[a..a + size]);
    }
  }

  lemma BackAgain(v: int32)
    ensures ValueOf(BytesOf(v, 4)) == v && ValueOf(BytesOf(v, 2)) == Unsigned(v) % 0x1_0000
    ensures var x := ValueOf(BytesOf(v, 1)); -0x80 <= x < 0x80 && x % 0x100 == Unsigned(v) % 0x100
  {
    WordRoundTrip(v);
    Halves(Unsigned(v));
    hide WordFrom;
  }

  // What was stored is loaded again, cut to its size.
  lemma LoadsBack(mem: seq<byte>, a: nat, size: nat, v: int32)
    requires Aligned(a, size) && |mem| % PAGE_SIZE == 0 && a < |mem|
    ensures var r := FlatRead(FlatWrite(mem, a, size, v), a, size);
            && r.Returned? && (size == 4 ==> r.value == v) && (size == 2 ==> r.value == Unsigned(v) % 0x1_0000)
            && (size == 1 ==> -0x80 <= r.value < 0x80 && r.value % 0x100 == Unsigned(v) % 0x100)
  {
    AlignedEnds(mem, a, size);
    assert FlatWrite(mem, a, size, v)[a..a + size] == BytesOf(v, size);
    hide FlatWrite;
    BackAgain(v);
  }

  // Byte k of what was stored is loaded.
  lemma LoadsByte(mem: seq<byte>, a: nat, size: nat, v: int32, k: nat)
    requires Aligned(a, size) && |mem| % PAGE_SIZE == 0 && a < |mem| && k < size
    ensures a + k < |mem|
    ensures var r := FlatRead(FlatWrite(mem, a, size, v), a + k, 1);
            r.Returned? && -0x80 <= r.value < 0x80 && r.value % 0x100 == Unsigned(v) / Weight(k) % 0x100
  {
    AlignedEnds(mem, a, size);
    StoredByte(mem, a, size, v, a + k);
    SignedByte(FlatWrite(mem, a, size, v), a + k);
    hide FlatWrite;
    hide FlatRead;
  }

  lemma SignedByte(mem: seq<byte>, a: nat)
    requires |mem| % PAGE_SIZE == 0 && a < |mem|
    ensures var r := FlatRead(mem, a, 1); r.Returned? && -0x80 <= r.value < 0x80 && r.value % 0x100 == mem[a] as int
  {
  }

  lemma Halves(u: nat)
    requires u < 0x1_0000_0000
    ensures u / 0x1_0000 % 256 + 256 * (u / 0x100_0000 % 256) == u / 0x1_0000 && u % 256 + 256 * (u / 256 % 256) == u % 0x1_0000
  {
  }

  lemma WordStored(mem: seq<byte>, a: nat, v: int32) returns (b0: nat, b1: nat, b2: nat, b3: nat)
    requires Aligned(a, 4) && |mem| % PAGE_SIZE == 0 && a < |mem|
    ensures a + 3 < |mem|
    ensures var mem' := FlatWrite(mem, a, 4, v);
            mem'[a] as nat == b0 && mem'[a + 1] as nat == b1 && mem'[a + 2] as nat == b2 && mem'[a + 3] as nat == b3
    ensures b0 + 256 * b1 == Unsigned(v) % 0x1_0000 && b2 + 256 * b3 == Unsigned(v) / 0x1_0000
  {
    AlignedEnds(mem, a, 4);
    var mem' := FlatWrite(mem, a, 4, v);
    b0, b1, b2, b3 := mem'[a] as nat, mem'[a + 1] as nat, mem'[a + 2] as nat, mem'[a + 3] as nat;
    forall k | 0 <= k < 4 ensures mem'[a + k] as int == Unsigned(v) / Weight(k) % 256 { StoredByte(mem, a, 4, v, a + k); }
    assert Weight(0) == 1 && Weight(1) == 0x100 && Weight(2) == 0x1_0000 && Weight(3) == 0x100_0000;
    hide FlatWrite;
    hide Weight;
    Halves(Unsigned(v));
  }

  lemma HalfAt(mem: seq<byte>, a: nat, b0: nat, b1: nat)
    requires |mem| % PAGE_SIZE == 0 && a % 2 == 0 && a + 1 < |mem| && mem[a] as nat == b0 && mem[a + 1] as nat == b1
    ensures FlatRead(mem, a, 2) == Returned(b0 + 256 * b1)
  {
  }

  // The low half of a word that was stored is loaded from its place, and the high half from behind it.
  lemma LoadsHalves(mem: seq<byte>, a: nat, v: int32)
    requires Aligned(a, 4) && |mem| % PAGE_SIZE == 0 && a < |mem|
    ensures a + 2 < |mem| && FlatRead(FlatWrite(mem, a, 4, v), a, 2) == Returned(Unsigned(v) % 0x1_0000)
    ensures FlatRead(FlatWrite(mem, a, 4, v), a + 2, 2) == Returned(Unsigned(v) / 0x1_0000)
  {
    var b0, b1, b2, b3 := WordStored(mem, a, v);
    HalfAt(FlatWrite(mem, a, 4, v), a, b0, b1);
    HalfAt(FlatWrite(mem, a, 4, v), a + 2, b2, b3);
    hide *;
  }

  // The byte at an address after some accesses: that of the last store that covers it.
  function LastByte(mem: seq<byte>, ops: seq<Access>, b: nat): byte
    requires b < |mem|
  {
    if ops == [] then mem[b]
    else
      var op := ops[|ops| - 1];
      if op.Store? && op.addr <= b < op.addr + op.size <= op.addr + 4
      then (Unsigned(op.value) / Weight(b - op.addr) % 256) as byte
      else LastByte(mem, ops[..|ops| - 1], b)
  }

  function LastBytes(mem: seq<byte>, ops: seq<Access>, a: nat, size: nat): seq<byte>
    requires a + size <= |mem|
  {
    seq(size, k requires 0 <= k < size => LastByte(mem, ops, a + k))
  }

  lemma {:induction false} LastByteRest(mem: seq<byte>, ops: seq<Access>, b: nat)
    requires |mem| % PAGE_SIZE == 0 && ops != [] && InSpace(ops[0], |mem|) && FlatStep(mem, ops[0]).0.Returned? && b < |mem|
    ensures LastByte(mem, ops, b) == LastByte(FlatStep(mem, ops[0]).1, ops[1..], b)
    decreases |ops|
  {
    hide FlatWrite;
    if |ops| == 1 {
      assert ops == [ops[0]];
      if ops[0].Store? { StoredByte(mem, ops[0].addr, ops[0].size, ops[0].value, b); }
    } else {
      LastByteRest(mem, ops[..|ops| - 1], b);
      assert ops[..|ops| - 1][1..] == ops[1..][..|ops| - 2];
    }
  }

  lemma LastBytesRest(mem: seq<byte>, ops: seq<Access>, a: nat, size: nat)
    requires |mem| % PAGE_SIZE == 0 && ops != [] && InSpace(ops[0], |mem|) && FlatStep(mem, ops[0]).0.Returned? && a + size <= |mem|
    ensures LastBytes(mem, ops, a, size) == LastBytes(FlatStep(mem, ops[0]).1, ops[1..], a, size)
  {
    hide LastByte;
    hide FlatStep;
    var mem' := FlatStep(mem, ops[0]).1;
    forall k | 0 <= k < size ensures LastBytes(mem, ops, a, size)[k] == LastBytes(mem', ops[1..], a, size)[k] {
      LastByteRest(mem, ops, a + k);
    }
  }

  lemma LastBytesNone(mem: seq<byte>, a: nat, size: nat)
    requires a + size <= |mem|
    ensures LastBytes(mem, [], a, size) == mem[a..a + size]
  {
    forall k | 0 <= k < size ensures LastBytes(mem, [], a, size)[k] == mem[a..a + size][k] { assert LastByte(mem, [], a + k) == mem[a + k]; }
  }

  predicate WellPlaced(op: Access)
  {
    op.Interrupted? || op.size == 1 || (op.size == 2 && op.addr % 2 == 0) || (op.size == 4 && op.addr % 4 == 0)
  }

  // A run goes on to the first access that is not aligned, and halts there.
  lemma {:induction false} Reached(mem: seq<byte>, ops: seq<Access>, i: nat)
    requires |mem| % PAGE_SIZE == 0 && forall k :: 0 <= k < |ops| ==> InSpace(ops[k], |mem|)
    ensures i < |FlatRun(mem, ops)| <==> i < |ops| && forall k :: 0 <= k < i ==> WellPlaced(ops[k])
    ensures i < |FlatRun(mem, ops)| ==> (FlatRun(mem, ops)[i].Returned? <==> WellPlaced(ops[i]))
    ensures i < |FlatRun(mem, ops)| && ops[i].Store? && WellPlaced(ops[i]) ==> FlatRun(mem, ops)[i] == Returned(ops[i].value)
    decreases i
  {
    hide FlatWrite;
    if i == 0 || ops == [] {
    } else {
      assert WellPlaced(ops[0]) <==> FlatStep(mem, ops[0]).0.Returned?;
      if WellPlaced(ops[0]) {
        Reached(FlatStep(mem, ops[0]).1, ops[1..], i - 1);
        assert forall k :: 0 < k < |ops| ==> ops[k] == ops[1..][k - 1];
      }
    }
  }

  // In every run, a load that is reached delivers what was last stored in its place.
  lemma {:induction false} LoadsLast(mem: seq<byte>, ops: seq<Access>, i: nat)
    requires |mem| % PAGE_SIZE == 0 && forall k :: 0 <= k < |ops| ==> InSpace(ops[k], |mem|)
    requires i < |FlatRun(mem, ops)| && i < |ops| && ops[i].Load?
    ensures var a, size, r := ops[i].addr, ops[i].size, FlatRun(mem, ops)[i];
            && (r.Returned? <==> a % size == 0)
            && (r.Returned? ==> a + size <= |mem| && Delivers(r.value, size, Number(LastBytes(mem, ops[..i], a, size))))
    decreases i
  {
    hide LastBytes;
    hide Number;
    hide Delivers;
    hide FlatRead;
    var a, size := ops[i].addr, ops[i].size;
    if i == 0 {
      LoadedValue(mem, a, size);
      if a % size == 0 { LastBytesNone(mem, a, size); }
    } else {
      var mem' := FlatStep(mem, ops[0]).1;
      LoadsLast(mem', ops[1..], i - 1);
      if a % size == 0 {
        assert ops[..i][1..] == ops[1..][..i - 1];
        LastBytesRest(mem, ops[..i], a, size);
      }
    }
  }

  // After a store by the current space: its memory is as a flat array would be, that of the
  // others as it was.
  ghost predicate Updated(m: Paged, addr: nat, size: nat, value: int32, m': Paged)
    requires Sized(m) && Sized(m') && (size == 1 || size == 2 || size == 4) && addr / PAGE_SIZE < |m.spaces[m.cur].table|
  {
    && |m'.spaces| == |m.spaces|
    && forall s: nat :: s < |m.spaces| ==>
         Memory(m', s) == if s == m.cur then FlatWrite(Memory(m, s), addr, size, value) else Memory(m, s)
  }

  lemma SizesKept(m: Paged, m': Paged)
    requires Sized(m) && Sized(m') && SameMemory(m, m')
    ensures |m'.spaces| == |m.spaces| && |m'.spaces[m.cur].table| == |m.spaces[m.cur].table|
  {
  }

  lemma NotUpdated(m: Paged, addr: nat, size: nat, value: int32, m': Paged)
    requires Sized(m) && Sized(m') && (size == 1 || size == 2 || size == 4) && addr / PAGE_SIZE < |m.spaces[m.cur].table|
    requires SameMemory(m, m') && !Aligned(addr, size)
    ensures Updated(m, addr, size, value, m')
  {
    hide Memory;
    hide PageSeen;
    forall s: nat | s < |m.spaces| ensures Memory(m', s) == Memory(m, s) { SameBytes(m, m', s); }
  }

  // m1 is the state after the address was translated.
  lemma StoreSeen(m: Paged, addr: nat, size: nat, value: int32, m1: Paged)
    requires Sized(m) && Coherent(m1) && (size == 1 || size == 2 || size == 4) && addr / PAGE_SIZE < |m.spaces[m.cur].table|
    requires SameMemory(m, m1) && m1.cur == m.cur && Aligned(addr, size)
    requires var e := m1.spaces[m1.cur].table[addr / PAGE_SIZE]; e.valid && 0 <= e.physicalPage < NUM_PHYS_PAGES
    ensures var at := m1.spaces[m1.cur].table[addr / PAGE_SIZE].physicalPage * PAGE_SIZE + addr % PAGE_SIZE;
            && at + size <= MEMORY_SIZE
            && var m' := m1.(mem := Splice(m1.mem, at, BytesOf(value, size))); Coherent(m') && Updated(m, addr, size, value, m')
  {
    hide Memory;
    hide PageSeen;
    hide Agree;
    var p := m1.spaces[m1.cur].table[addr / PAGE_SIZE].physicalPage;
    var data := BytesOf(value, size);
    BytesWritten(m1, addr, data, p, m.cur);
    forall s: nat | s < |m.spaces| ensures Memory(m1, s) == Memory(m, s) { SameBytes(m, m1, s); }
    var m' := m1.(mem := Splice(m1.mem, p * PAGE_SIZE + addr % PAGE_SIZE, data));
    forall s: nat | s < |m.spaces|
      ensures Memory(m', s) == if s == m.cur then FlatWrite(Memory(m, s), addr, size, value) else Memory(m, s)
    {
      BytesWritten(m1, addr, data, p, s);
    }
  }

  lemma AlignedEnds(mem: seq<byte>, addr: nat, size: nat)
    requires Aligned(addr, size) && |mem| % PAGE_SIZE == 0 && addr < |mem|
    ensures addr + size <= |mem|
  {
    AlignedInPage(addr, size);
  }

  lemma HitFound(m: Paged, i: nat, writing: bool, now: int)
    requires Sized(m) && i < TLB_SIZE && m.tlb[i].valid && TlbOk(m, i) && EntryOk(m, m.cur, m.tlb[i].virtualPage)
    ensures var m', v := Hit(m, i, writing, now), m.tlb[i].virtualPage;
            !Missing(m', v) && m'.spaces[m.cur].table[v].valid && m'.spaces[m.cur].table[v].physicalPage == m.tlb[i].physicalPage
  {
    assert Hit(m, i, writing, now).tlb[i].valid;
  }

  lemma ChoiceAt(tlb: seq<Entry>, i: nat)
    requires IsChoice(tlb, LRU, i)
    ensures i < |tlb|
  {
  }

  // With the first n frames taken and no more, the next one is the choice.
  lemma FirstFree(frames: seq<Frame>, n: nat)
    requires n < |frames| && !frames[n].valid && forall k :: 0 <= k < n ==> frames[k].valid
    ensures forall p: nat :: IsVictim(frames, p) ==> p == n
  {
  }

  // The frame that the handler picks has indices that exist.
  ghost predicate VictimFits(m: Paged)
    requires Sized(m)
  {
    forall p: nat :: IsVictim(m.frames, p) ==> Evictable(m, p)
  }

  // And it can be taken over without harm.
  ghost predicate Benign(m: Paged)
    requires Sized(m)
  {
    forall p: nat :: IsVictim(m.frames, p) ==> Evictable(m, p) && (m.frames[p].valid ==> Safe(m, p))
  }

  lemma BenignAt(m: Paged, p: nat)
    requires Sized(m) && Benign(m) && IsVictim(m.frames, p)
    ensures Evictable(m, p) && (m.frames[p].valid ==> Safe(m, p))
  {
  }

  lemma SomeVictim(frames: seq<Frame>) returns (p: nat)
    requires frames != []
    ensures IsVictim(frames, p)
  {
    p := 0;
    for i := 0 to |frames|
      invariant 0 <= p < |frames| && (p == 0 || p < i)
      invariant forall k :: 0 <= k < p ==> frames[p].lastHitTime < frames[k].lastHitTime
      invariant forall k :: 0 <= k < i ==> frames[k].valid && frames[p].lastHitTime <= frames[k].lastHitTime
    {
      if !frames[i].valid { return i; }
      if frames[i].lastHitTime < frames[p].lastHitTime { p := i; }
    }
  }

  lemma StoredEvictable(m: Paged, m1: Paged, i: nat)
    requires Sized(m) && VictimFits(m) && i < TLB_SIZE && (m.tlb[i].valid ==> 0 <= m.tlb[i].virtualPage < |m.spaces[m.cur].table|)
    requires m1 == if m.tlb[i].valid then Stored(m, i) else m
    ensures Sized(m1) && VictimFits(m1)
  {
    forall p: nat | IsVictim(m1.frames, p) ensures Evictable(m1, p) { assert Evictable(m, p); }
  }

  // A page that is not in memory is not in the TLB.
  lemma NotMapped(m: Paged, vpn: nat)
    requires Coherent(m) && vpn < |m.spaces[m.cur].table| && !m.spaces[m.cur].table[vpn].valid
    ensures Missing(m, vpn)
  {
    forall i | 0 <= i < TLB_SIZE ensures m.tlb[i].valid ==> m.tlb[i].virtualPage != vpn { assert TlbOk(m, i); }
  }

  // The page tables may differ, in their entries.
  predicate SameStores(a: seq<Space>, b: seq<Space>)
  {
    |b| == |a| && forall s :: 0 <= s < |a| ==> b[s].store == a[s].store && |b[s].table| == |a[s].table|
  }

  // A first reference to page vpn, with frame p free: the fault, and the reference again.
  lemma BroughtIn(m: Paged, i: nat, p: nat, vpn: nat, now: int, j: nat, writing: bool, later: int)
    requires Coherent(m) && i < TLB_SIZE && p < NUM_PHYS_PAGES && vpn < |m.spaces[m.cur].table| && TlbOk(m, i)
    requires !m.frames[p].valid && !m.spaces[m.cur].table[vpn].valid && j < TLB_SIZE
    requires var m1 := Faulted(m, i, p, vpn, now); Coherent(m1) && m1.tlb[j].valid && m1.tlb[j].virtualPage == vpn
    ensures Faulted(m, i, p, vpn, now).tlb[j].physicalPage == p
    ensures var m' := Hit(Faulted(m, i, p, vpn, now), j, writing, later);
            && m'.frames == m.frames[p := Frame(true, writing, m.cur, vpn, later)] && SameStores(m.spaces, m'.spaces)
            && m'.cur == m.cur && m'.mem == WithPage(m.mem, p, PageOf(m.spaces[m.cur].store, vpn))
  {
    var m1 := Faulted(m, i, p, vpn, now);
    StoredValid(m, i);
    assert FrameOk(m, p) && TlbOk(m1, j);
    assert m1.frames == m.frames[p := Frame(true, false, m.cur, vpn, now)];
  }

  // Space 1 has page 0 in frame 0 and pages 1 to n-2 in frames 2 to n-1; space 0 has page 0 in
  // frame 1, with a byte set that is not set in its store.
  ghost predicate Staged(m: Paged, n: nat)
  {
    && Coherent(m) && |m.spaces| == 2 && |m.spaces[0].table| == 2 && |m.spaces[1].table| == NUM_PHYS_PAGES - 1
    && 2 <= n <= NUM_PHYS_PAGES && m.mem[PAGE_SIZE] == 1 && m.spaces[0].store[0] == 0
    && (forall k :: 0 <= k < n ==>
          && m.frames[k].valid && m.frames[0].lastHitTime <= m.frames[k].lastHitTime
          && m.frames[k].owner == (if k == 1 then 0 else 1) && m.frames[k].vpn == (if k < 2 then 0 else k - 1))
    && (forall k :: n <= k < NUM_PHYS_PAGES ==> !m.frames[k].valid)
  }

  // The next page of space 1 is not in memory, and the frame for it is the first free one.
  lemma StagedNext(m: Paged, n: nat)
    requires Staged(m, n) && n < NUM_PHYS_PAGES
    ensures !m.spaces[1].table[n - 1].valid && forall p: nat :: IsVictim(m.frames, p) ==> p == n
  {
    assert EntryOk(m, 1, n - 1);
    FirstFree(m.frames, n);
  }

  lemma StagedSwitch(m: Paged, n: nat, m': Paged)
    requires Staged(m, n) && Coherent(m') && m'.frames == m.frames && m'.mem == m.mem && SameStores(m.spaces, m'.spaces)
    ensures Staged(m', n)
  {
  }

  lemma StagedFits(m: Paged)
    requires Staged(m, NUM_PHYS_PAGES) && m.cur == 0
    ensures VictimFits(m) && |m.spaces| == 2 && |m.spaces[0].table| == 2
  {
    forall p: nat | IsVictim(m.frames, p) ensures Evictable(m, p) {
      assert m.frames[0].valid;
    }
  }

  lemma StagedMore(m: Paged, n: nat, m': Paged, later: int)
    requires Staged(m, n) && n < NUM_PHYS_PAGES && m.cur == 1 && Coherent(m')
    requires m'.frames == m.frames[n := Frame(true, false, 1, n - 1, later)] && SameStores(m.spaces, m'.spaces)
    requires m'.mem == WithPage(m.mem, n, PageOf(m.spaces[1].store, n - 1)) && m.frames[0].lastHitTime <= later
    ensures Staged(m', n + 1)
  {
    SpliceAt(m.mem, n * PAGE_SIZE, PageOf(m.spaces[1].store, n - 1), PAGE_SIZE);
  }

  // Page 1 of space 0 takes frame 0 from space 1, and page 0 of space 0 is lost with it.
  lemma StagedLoses(m: Paged, i: nat, p: nat, now: int)
    requires Staged(m, NUM_PHYS_PAGES) && m.cur == 0 && i < TLB_SIZE && (forall k :: 0 <= k < TLB_SIZE ==> !m.tlb[k].valid)
    requires IsVictim(m.frames, p) && Evictable(m, p)
    ensures p == 0 && Memory(m, 0)[0] == 1
    ensures var m' := Faulted(m, i, p, 1, now);
            m'.cur == 0 && |m'.spaces| == 2 && |m'.spaces[0].table| == 2 && Memory(m', 0)[0] == 0 && !m'.spaces[0].table[0].valid && Missing(m', 0)
  {
    assert m.frames[0].valid;
    assert FrameOk(m, 1) && EntryOk(m, 0, 1) && EntryOk(m, 0, 0);
    assert PageSeen(m, 0, 0)[0] == 1;
    AllocatedSeen(m, 0, 1, now, 0, 0);
    var m' := Faulted(m, i, p, 1, now);
    assert PageSeen(m', 0, 0) == PageSeen(Allocated(m, 0, 1, now), 0, 0);
  }

  function Fresh(pages: nat): (sp: Space)
    ensures Unloaded(sp) && |sp.table| == pages && forall a :: 0 <= a < |sp.store| ==> sp.store[a] == 0
  {
    Space(seq(pages, _ => Entry(0, 0, false, false, false, false, 0, 0)), seq(pages * PAGE_SIZE, _ => 0 as byte))
  }

  // Program 1 has its page 0 in frame 0,
  method FirstPage(mc: Machine)
    requires mc.spaces == [Fresh(2), Fresh(NUM_PHYS_PAGES - 1)] && Coherent(mc.State())
    requires forall p :: 0 <= p < NUM_PHYS_PAGES ==> !mc.frames[p].valid
    modifies mc, mc.tlb, mc.frames, mc.mem
    ensures Coherent(mc.State()) && SameStores([Fresh(2), Fresh(NUM_PHYS_PAGES - 1)], mc.spaces)
    ensures mc.frames[0].valid && mc.frames[0].owner == 1 && mc.frames[0].vpn == 0 && mc.frames[0].lastHitTime <= mc.totalTicks
    ensures forall p :: 1 <= p < NUM_PHYS_PAGES ==> !mc.frames[p].valid
  {
    hide Agree;
    hide SameMemory;
    ghost var p, later;
    var phys;
    mc.Switch(1);
    NothingMapped(mc.State(), 1, 0);
    ghost var frames := mc.frames[..];
    FirstFree(frames, 0);
    hide IsVictim;
    phys, p, later := mc.Bring(0, false);
    assert mc.frames[..] == frames[0 := Frame(true, false, 1, 0, later)];
    assert forall k :: 0 <= k < NUM_PHYS_PAGES ==> mc.frames[k] == mc.frames[..][k];
  }

  // and then program 0 its own in frame 1, with byte 0 set.
  method SecondPage(mc: Machine)
    requires Coherent(mc.State()) && SameStores([Fresh(2), Fresh(NUM_PHYS_PAGES - 1)], mc.spaces)
    requires mc.frames[0].valid && mc.frames[0].owner == 1 && mc.frames[0].vpn == 0 && mc.frames[0].lastHitTime <= mc.totalTicks
    requires forall p :: 1 <= p < NUM_PHYS_PAGES ==> !mc.frames[p].valid
    modifies mc, mc.tlb, mc.frames, mc.mem
    ensures Staged(mc.State(), 2) && mc.frames[0].lastHitTime <= mc.totalTicks
  {
    hide Agree;
    hide SameMemory;
    hide WithPage;
    ghost var p, later;
    var phys;
    mc.Switch(0);
    NothingMapped(mc.State(), 0, 0);
    ghost var frames := mc.frames[..];
    FirstFree(frames, 1);
    hide IsVictim;
    phys, p, later := mc.Bring(0, true);
    assert mc.frames[..] == frames[1 := Frame(true, true, 0, 0, later)];
    assert forall k :: 0 <= k < NUM_PHYS_PAGES ==> mc.frames[k] == mc.frames[..][k];
    MemCoherent(mc.State(), Splice(mc.mem[..], phys, [1]));
    mc.CopyBytes([1], phys);
  }

  lemma NothingMapped(m: Paged, s: nat, v: nat)
    requires Coherent(m) && s < |m.spaces| && v < |m.spaces[s].table|
    requires forall p :: 0 <= p < NUM_PHYS_PAGES && m.frames[p].valid ==> m.frames[p].owner != s
    ensures !m.spaces[s].table[v].valid
  {
    assert EntryOk(m, s, v);
  }

  // m' comes from m by a fault on page vpn that takes frame p.
  ghost predicate FaultOn(m: Paged, p: nat, vpn: nat, m': Paged)
  {
    && Sized(m) && p < NUM_PHYS_PAGES && vpn < |m.spaces[m.cur].table| && Evictable(m, p)
    && exists i: nat, now :: i < TLB_SIZE && TlbOk(m, i) && m' == Faulted(m, i, p, vpn, now)
  }

  // Program 1 goes on, and fills the rest of memory.
  method StageSet(mc: Machine)
    requires Staged(mc.State(), 2) && mc.frames[0].lastHitTime <= mc.totalTicks
    modifies mc, mc.tlb, mc.frames, mc.mem
    ensures Staged(mc.State(), NUM_PHYS_PAGES)
  {
    hide Agree;
    hide SameMemory;
    hide WithPage;
    hide IsVictim;
    ghost var before := mc.State();
    mc.Switch(1);
    StagedSwitch(before, 2, mc.State());
    for n := 2 to NUM_PHYS_PAGES
      invariant mc.cur == 1 && Staged(mc.State(), n) && mc.frames[0].lastHitTime <= mc.totalTicks
    {
      before := mc.State();
      StagedNext(before, n);
      ghost var p, later;
      var phys;
      phys, p, later := mc.Bring(n - 1, false);
      StagedMore(before, n, mc.State(), later);
      assert mc.frames[0] == mc.frames[..][0];
    }
  }

  // Program 0 goes on, with its page 1; m is the state before that.
  method LastPage(mc: Machine) returns (ghost m: Paged)
    requires Staged(mc.State(), NUM_PHYS_PAGES)
    modifies mc, mc.tlb, mc.frames, mc.mem
    ensures Coherent(m) && m.cur == 0 && |m.spaces[0].table| == 2 && Memory(m, 0)[0] == 1
    ensures Sized(mc.State()) && mc.cur == 0 && |mc.spaces[0].table| == 2 && Memory(mc.State(), 0)[0] == 0
    ensures !mc.spaces[0].table[0].valid && Missing(mc.State(), 0) && FaultOn(m, 0, 1, mc.State())
  {
    hide Agree;
    hide SameMemory;
    hide Faulted;
    hide IsVictim;
    hide IsChoice;
    hide Memory;
    ghost var before := mc.State();
    mc.Switch(0);
    StagedSwitch(before, NUM_PHYS_PAGES, mc.State());
    var now := mc.Ticks();
    m := mc.State();
    var e := mc.ChooseEntry(LRU);
    ChoiceAt(m.tlb, e);
    StagedFits(m);
    hide Staged;
    ghost var p := mc.Refill(e, 1, now);
    StagedLoses(m, e, p, now);
  }

  // A run of two programs that loses a write.  Program 1 loads from its page 0, program 0 sets a
  // byte of its own page 0, and program 1 fills the rest of memory; m is the state then.  When
  // program 0 goes on with its page 1, the byte is gone: the next load faults and finds 0.
  method LostWrite() returns (mc: Machine, ghost m: Paged)
    ensures Coherent(m) && m.cur == 0 && |m.spaces[0].table| == 2 && Memory(m, 0)[0] == 1
    ensures Sized(mc.State()) && mc.cur == 0 && |mc.spaces[0].table| == 2 && Memory(mc.State(), 0)[0] == 0
    ensures !mc.spaces[0].table[0].valid && Missing(mc.State(), 0) && FaultOn(m, 0, 1, mc.State())
  {
    hide Agree;
    hide Staged;
    hide Memory;
    mc := new Machine([Fresh(2), Fresh(NUM_PHYS_PAGES - 1)]);
    FirstPage(mc);
    SecondPage(mc);
    StageSet(mc);
    m := LastPage(mc);
  }
}
