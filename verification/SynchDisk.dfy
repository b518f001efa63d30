/** The write-back sector cache of code/filesys/synchdisk.cc, calls taken one at a time.
    `flat` is the disk the callers believe in: one value per sector.  Valid() says how
    the eight cache entries and the raw disk together hold it. */
module SynchDisks {
  import opened Outcomes
  import opened Sectors

  const CACHE_SIZE := 8

  datatype CacheEntry = CacheEntry(valid: bool, dirty: bool, sector: nat, lru: int, data: Sector)

  // At most one valid entry per sector.
  predicate OneEntryPerSector(table: seq<CacheEntry>)
  {
    forall i, j :: 0 <= i < j < |table| && table[i].valid && table[j].valid ==> table[i].sector != table[j].sector
  }

  // A hit for the sector.
  predicate Has(e: CacheEntry, sector: nat) { e.valid && e.sector == sector }

  predicate Holds(table: seq<CacheEntry>, sector: nat)
  {
    exists i :: 0 <= i < |table| && Has(table[i], sector)
  }

  // What cache and raw disk must satisfy to stand for the flat disk.
  ghost predicate Represents(table: seq<CacheEntry>, raw: seq<Sector>, flat: seq<Sector>)
  {
    && |raw| == |flat| == NUM_SECTORS
    && OneEntryPerSector(table)
    && (forall i :: 0 <= i < |table| && table[i].valid ==>
          && table[i].sector < NUM_SECTORS
          && table[i].data == flat[table[i].sector]
          && (!table[i].dirty ==> table[i].data == raw[table[i].sector]))
    && (forall s: nat {:trigger Holds(table, s)} :: s < NUM_SECTORS && !Holds(table, s) ==> raw[s] == flat[s])
  }

  // The slot CacheMiss frees: an invalid one if there is one, else one with the least stamp.
  predicate IsVictim(table: seq<CacheEntry>, e: nat)
  {
    && e < |table|
    && (if table[e].valid then
          && (forall i :: 0 <= i < |table| ==> table[i].valid && table[e].lru <= table[i].lru)
          && (forall i :: 0 <= i < e ==> table[e].lru < table[i].lru)
        else
          forall i :: 0 <= i < e ==> table[i].valid)
  }

  class SynchDisk {
    const table: array<CacheEntry>
    const raw: array<Sector>
    var now: int                    // stats->totalTicks
    ghost var flat: Flat

    ghost predicate Valid()
      reads this, table, raw
    {
      && table.Length == CACHE_SIZE
      && raw.Length == NUM_SECTORS
      && forall x {:trigger Inside(x)} :: Inside(x) ==> Represents(table[..], raw[..], flat)
    }

    constructor (contents: array<Sector>)
      requires contents.Length == NUM_SECTORS
      ensures Valid() && fresh(table) && raw == contents && flat == contents[..]
    {
      table := new CacheEntry[CACHE_SIZE](_ => CacheEntry(false, false, 0, 0, BLANK));
      raw := contents;
      now := 0;
      flat := contents[..];
    }

    // Time passes by any amount between two readings of the clock.
    method ReadClock() returns (t: int)
      modifies this`now
      ensures t == now && now >= old(now)
    {
      var later: int := *;
      if later > now { now := later; }
      t := now;
    }

    // The victim scan of CacheMiss.
    method PickVictim() returns (evict: nat)
      requires Valid()
      ensures IsVictim(table[..], evict)
    {
      assert Inside(0);
      evict := 0;
      for i := 0 to CACHE_SIZE
        invariant 0 <= evict < CACHE_SIZE && (evict == 0 || evict < i)
        invariant forall k :: 0 <= k < i ==> table[k].valid && table[evict].lru <= table[k].lru
        invariant forall k :: 0 <= k < evict ==> table[evict].lru < table[k].lru
      {
        if !table[i].valid {
          evict := i;
          return;
        }
        if table[i].lru < table[evict].lru { evict := i; }
      }
    }

    // The miss leaves the flat disk as it was, and the victim slot now holds the sector.
    method CacheMiss(sector: nat)
      requires Valid() && sector < NUM_SECTORS && !Holds(table[..], sector)
      modifies table, raw, this`now
      ensures Valid() && now >= old(now) && Holds(table[..], sector)
      ensures exists e: nat :: IsVictim(old(table[..]), e)
                && table[..] == old(table[..])[e := CacheEntry(true, false, sector, now, flat[sector])]
    {
      assert Inside(0);
      var evict := PickVictim();
      if table[evict].valid && table[evict].dirty {
        raw[table[evict].sector] := table[evict].data;
        table[evict] := table[evict].(dirty := false, valid := false);
      }
      WriteBackKeeps(old(table[..]), old(raw[..]), flat, evict, raw[..]);
      var t := ReadClock();
      table[evict] := CacheEntry(true, false, sector, t, raw[sector]);
      SwapInKeeps(old(table[..]), evict, table[evict], raw[..], flat);
      assert table[..] == old(table[..])[evict := table[evict]];
    }

    // A hit on entry i: its data, and a new stamp.
    method ReadEntry(i: nat, sector: nat) returns (data: Sector)
      requires Valid() && sector < NUM_SECTORS && i < CACHE_SIZE && Has(table[i], sector)
      modifies table, this`now
      ensures Valid() && now >= old(now) && data == flat[sector]
      ensures table[..] == old(table[..])[i := old(table[i]).(lru := now)]
    {
      assert Inside(0);
      data := table[i].data;
      var t := ReadClock();
      ghost var before := table[..];
      table[i] := table[i].(lru := t);
      StampKeeps(before, i, t, table[..], raw[..], flat);
    }

    // A hit on entry i: it takes the data, is dirty, and has a new stamp.
    method WriteEntry(i: nat, sector: nat, data: Sector)
      requires Valid() && sector < NUM_SECTORS && i < CACHE_SIZE && Has(table[i], sector)
      modifies table, this`now, this`flat
      ensures Valid() && now >= old(now) && flat == old(flat)[sector := data]
      ensures table[..] == old(table[..])[i := CacheEntry(true, true, sector, now, data)]
    {
      assert Inside(0);
      var t := ReadClock();
      ghost var before := table[..];
      table[i] := table[i].(data := data, lru := t, dirty := true);
      StoreKeeps(before, i, t, data, table[..], raw[..], flat);
      flat := flat[sector := data];
    }

    lemma Unique()
      requires Valid()
      ensures OneEntryPerSector(table[..])
    {
      assert Inside(0);
    }

    // One pass of the lookup loop of ReadSector; it has no early exit.
    method ScanRead(sector: nat) returns (hit: bool, data: Sector)
      requires Valid() && sector < NUM_SECTORS
      modifies table, this`now
      ensures Valid() && now >= old(now)
      ensures hit <==> Holds(old(table[..]), sector)
      ensures hit ==> data == flat[sector]
      ensures forall i :: 0 <= i < CACHE_SIZE ==>
                table[i] == if Has(old(table[i]), sector) then old(table[i]).(lru := now) else old(table[i])
    {
      Unique();
      hit := false;
      data := BLANK;
      for i := 0 to CACHE_SIZE
        invariant Valid() && now >= old(now)
        invariant hit <==> exists k :: 0 <= k < i && Has(old(table[k]), sector)
        invariant hit ==> data == flat[sector]
        invariant forall k :: i <= k < CACHE_SIZE ==> table[k] == old(table[k])
        invariant forall k :: 0 <= k < i ==> table[k] == if Has(old(table[k]), sector) then old(table[k]).(lru := now) else old(table[k])
      {
        if table[i].valid && table[i].sector == sector {
          assert forall k :: 0 <= k < i ==> !Has(old(table[k]), sector);
          data := ReadEntry(i, sector);
          hit := true;
        }
      }
    }

    // One pass of the lookup loop of WriteSector.
    method ScanWrite(sector: nat, data: Sector) returns (hit: bool)
      requires Valid() && sector < NUM_SECTORS
      modifies table, this`now, this`flat
      ensures Valid() && now >= old(now)
      ensures hit <==> Holds(old(table[..]), sector)
      ensures flat == if hit then old(flat)[sector := data] else old(flat)
      ensures forall i :: 0 <= i < CACHE_SIZE ==>
                table[i] == if Has(old(table[i]), sector) then CacheEntry(true, true, sector, now, data) else old(table[i])
    {
      Unique();
      hit := false;
      for i := 0 to CACHE_SIZE
        invariant Valid() && now >= old(now)
        invariant hit <==> exists k :: 0 <= k < i && Has(old(table[k]), sector)
        invariant flat == if hit then old(flat)[sector := data] else old(flat)
        invariant forall k :: i <= k < CACHE_SIZE ==> table[k] == old(table[k])
        invariant forall k :: 0 <= k < i ==>
                    table[k] == if Has(old(table[k]), sector) then CacheEntry(true, true, sector, now, data) else old(table[k])
      {
        if table[i].valid && table[i].sector == sector {
          assert forall k :: 0 <= k < i ==> !Has(old(table[k]), sector);
          WriteEntry(i, sector, data);
          hit := true;
        }
      }
    }

    method ReadSector(sector: nat) returns (data: Sector)
      requires Valid() && sector < NUM_SECTORS
      modifies table, raw, this`now
      ensures Valid()
      ensures data == flat[sector]
    {
      var hit;
      hit, data := ScanRead(sector);
      if !hit {
        CacheMiss(sector);
        hit, data := ScanRead(sector);
      }
    }

    method WriteSector(sector: nat, data: Sector)
      requires Valid() && sector < NUM_SECTORS
      modifies table, raw, this`now, this`flat
      ensures Valid()
      ensures flat == old(flat)[sector := data]
    {
      var hit := ScanWrite(sector, data);
      if !hit {
        CacheMiss(sector);
        hit := ScanWrite(sector, data);
      }
    }
  }

  function Dropped(table: seq<CacheEntry>, e: nat): seq<CacheEntry>
    requires e < |table|
  {
    table[e := table[e].(valid := false, dirty := false)]
  }

  // Writing a dirty victim back and dropping it loses nothing.
  lemma WriteBackKeeps(table: seq<CacheEntry>, raw: seq<Sector>, flat: seq<Sector>, e: nat, raw': seq<Sector>)
    requires Represents(table, raw, flat) && e < |table|
    requires raw' == if table[e].valid && table[e].dirty then raw[table[e].sector := table[e].data] else raw
    ensures Represents(Dropped(table, e), raw', flat)
  {
    var mid := Dropped(table, e);
    forall s: nat | s < NUM_SECTORS && !Holds(mid, s)
      ensures raw'[s] == flat[s]
    {
      assert forall i :: 0 <= i < |table| && i != e ==> mid[i] == table[i];
      assert Holds(table, s) ==> table[e].valid && table[e].sector == s;
    }
  }

  lemma SwapInKeeps(table: seq<CacheEntry>, e: nat, entry: CacheEntry, raw: seq<Sector>, flat: seq<Sector>)
    requires e < |table| && Represents(Dropped(table, e), raw, flat)
    requires entry.valid && !entry.dirty && entry.sector < NUM_SECTORS && entry.data == raw[entry.sector]
    requires !Holds(table, entry.sector)
    ensures Represents(table[e := entry], raw, flat) && entry.data == flat[entry.sector]
    ensures Holds(table[e := entry], entry.sector)
  {
    var mid, after := Dropped(table, e), table[e := entry];
    assert forall i :: 0 <= i < |table| && i != e ==> mid[i] == table[i] == after[i];
    assert !Holds(mid, entry.sector);
    assert after[e] == entry;
    forall s: nat | s < NUM_SECTORS && !Holds(after, s)
      ensures raw[s] == flat[s]
    {
      assert !Holds(mid, s);
    }
  }

  lemma StampKeeps(before: seq<CacheEntry>, i: nat, t: int, after: seq<CacheEntry>, raw: seq<Sector>, flat: seq<Sector>)
    requires Represents(before, raw, flat) && i < |before|
    requires after == before[i := before[i].(lru := t)]
    ensures Represents(after, raw, flat)
  {
    SameHolds(before, after);
  }

  lemma StoreKeeps(before: seq<CacheEntry>, i: nat, t: int, data: Sector, after: seq<CacheEntry>, raw: seq<Sector>, flat: seq<Sector>)
    requires Represents(before, raw, flat) && i < |before| && before[i].valid
    requires after == before[i := before[i].(data := data, lru := t, dirty := true)]
    ensures Represents(after, raw, flat[before[i].sector := data])
  {
    SameHolds(before, after);
    assert Holds(before, before[i].sector);
  }

  lemma SameHolds(a: seq<CacheEntry>, b: seq<CacheEntry>)
    requires |a| == |b| && forall i :: 0 <= i < |a| ==> a[i].valid == b[i].valid && a[i].sector == b[i].sector
    ensures forall s: nat :: Holds(a, s) <==> Holds(b, s)
  {
    forall s: nat
      ensures Holds(a, s) <==> Holds(b, s)
    {
      if Holds(a, s) {
        var i :| 0 <= i < |a| && a[i].valid && a[i].sector == s;
        assert b[i].valid && b[i].sector == s;
      }
      if Holds(b, s) {
        var i :| 0 <= i < |b| && b[i].valid && b[i].sector == s;
        assert a[i].valid && a[i].sector == s;
      }
    }
  }
}
