/** code/filesys/directory.cc: a directory is a table of ten fixed-size entries, kept as the
    480 bytes of an ordinary file. */
module Directories {
  import opened Outcomes
  import opened Sectors

  const FILE_NAME_MAX_LEN := 39
  const ENTRY_SIZE := 48            // two flags, two bytes of padding, an int, a 40-byte name
  const NUM_DIR_ENTRIES := 10
  const DIRECTORY_FILE_SIZE := NUM_DIR_ENTRIES * ENTRY_SIZE

  // A C string of at most FILE_NAME_MAX_LEN characters.
  type Name = n: seq<byte> | |n| <= FILE_NAME_MAX_LEN && 0 !in n

  datatype Entry = Entry(inUse: bool, isDir: bool, sector: int32, name: Name)

  const FREE: Entry := Entry(false, false, 0, [])

  type Table = t: seq<Entry> | |t| == NUM_DIR_ENTRIES witness seq(NUM_DIR_ENTRIES, _ => FREE)

  // The characters before the first NUL.
  function CString(b: seq<byte>): (n: seq<byte>)
    ensures |n| <= |b| && 0 !in n
  {
    if b == [] || b[0] == 0 then [] else [b[0]] + CString(b[1..])
  }

  function Zeros(n: nat): seq<byte> { seq(n, _ => 0 as byte) }

  lemma {:induction false} CStringPadded(n: seq<byte>, k: nat)
    requires 0 !in n
    ensures CString(n + Zeros(k)) == n
  {
    if n == [] {
      assert n + Zeros(k) == Zeros(k);
    } else {
      CStringPadded(n[1..], k);
      assert (n + Zeros(k))[1..] == n[1..] + Zeros(k);
    }
  }

  function DecodeEntry(b: seq<byte>): (e: Entry)
    requires |b| == ENTRY_SIZE
  {
    Entry(b[0] != 0, b[1] != 0, WordFrom(b[4], b[5], b[6], b[7]), CString(b[8..8 + FILE_NAME_MAX_LEN]))
  }

  function EncodeEntry(e: Entry): (b: seq<byte>)
    ensures |b| == ENTRY_SIZE && DecodeEntry(b) == e
  {
    var flags: seq<byte> := [if e.inUse then 1 else 0, if e.isDir then 1 else 0, 0, 0];
    var word: seq<byte> := [ByteOf(e.sector, 0), ByteOf(e.sector, 1), ByteOf(e.sector, 2), ByteOf(e.sector, 3)];
    var name := e.name + Zeros(FILE_NAME_MAX_LEN + 1 - |e.name|);
    var b := flags + word + name;
    WordRoundTrip(e.sector);
    CStringPadded(e.name, FILE_NAME_MAX_LEN - |e.name|);
    assert b[8..8 + FILE_NAME_MAX_LEN] == e.name + Zeros(FILE_NAME_MAX_LEN - |e.name|);
    b
  }

  // Where the fields of an entry are: a flag, a flag, the sector number from byte 4 and the name from byte 8.
  lemma EntryLayout(e: Entry, k: nat)
    requires k < 4
    ensures var b := EncodeEntry(e);
            && (b[0] != 0 <==> e.inUse) && (b[1] != 0 <==> e.isDir) && b[4 + k] as int == Unsigned(e.sector) / Weight(k) % 256
            && CString(b[8..]) == e.name
  {
    ByteIs(e.sector, k);
    CStringPadded(e.name, FILE_NAME_MAX_LEN + 1 - |e.name|);
    assert EncodeEntry(e)[8..] == e.name + Zeros(FILE_NAME_MAX_LEN + 1 - |e.name|);
  }

  function DecodeTable(b: seq<byte>): (t: Table)
    requires |b| == DIRECTORY_FILE_SIZE
  {
    seq(NUM_DIR_ENTRIES, i requires 0 <= i < NUM_DIR_ENTRIES => DecodeEntry(b[i * ENTRY_SIZE..(i + 1) * ENTRY_SIZE]))
  }

  // The bytes of the first n entries.
  function EncodeEntries(t: seq<Entry>): (b: seq<byte>)
    ensures |b| == |t| * ENTRY_SIZE
  {
    if t == [] then [] else EncodeEntries(t[..|t| - 1]) + EncodeEntry(t[|t| - 1])
  }

  lemma {:induction false} EncodedEntry(t: seq<Entry>, i: nat)
    requires i < |t|
    ensures EncodeEntries(t)[i * ENTRY_SIZE..(i + 1) * ENTRY_SIZE] == EncodeEntry(t[i])
  {
    hide EncodeEntry;
    var init := t[..|t| - 1];
    if i == |init| {
    } else {
      EncodedEntry(init, i);
      var b := EncodeEntries(init);
      assert EncodeEntries(t)[i * ENTRY_SIZE..(i + 1) * ENTRY_SIZE] == b[i * ENTRY_SIZE..(i + 1) * ENTRY_SIZE];
    }
  }

  // What is written back is what the next fetch reads.
  lemma TableRoundTrip(t: Table)
    ensures DecodeTable(EncodeEntries(t)) == t
  {
    var b := EncodeEntries(t);
    forall i | 0 <= i < NUM_DIR_ENTRIES ensures DecodeTable(b)[i] == t[i] {
      EncodedEntry(t, i);
    }
  }

  // What strncmp and strncpy see of a file name.
  function Key(name: seq<byte>): (k: Name)
    requires 0 !in name
    ensures |name| <= FILE_NAME_MAX_LEN ==> k == name
  {
    if |name| <= FILE_NAME_MAX_LEN then name else name[..FILE_NAME_MAX_LEN]
  }

  // strncmp finds no difference in the first n characters of two C strings.
  predicate Same(a: seq<byte>, b: seq<byte>, n: nat)
  {
    n == 0 || (a == [] && b == []) || (a != [] && b != [] && a[0] == b[0] && Same(a[1..], b[1..], n - 1))
  }

  lemma {:induction false} SamePrefix(a: seq<byte>, b: seq<byte>, n: nat)
    ensures Same(a, b, n) <==> a[..Min(|a|, n)] == b[..Min(|b|, n)]
  {
    var x, y := a[..Min(|a|, n)], b[..Min(|b|, n)];
    if n == 0 {
      assert x == [] && y == [];
    } else if a == [] || b == [] {
      assert (x == [] <==> a == []) && (y == [] <==> b == []);
    } else {
      SamePrefix(a[1..], b[1..], n - 1);
      assert x[0] == a[0] && x[1..] == a[1..][..Min(|a| - 1, n - 1)];
      assert y[0] == b[0] && y[1..] == b[1..][..Min(|b| - 1, n - 1)];
      assert x == [x[0]] + x[1..] && y == [y[0]] + y[1..];
    }
  }

  // Two names are one to a directory when strncmp says so.
  lemma SameKey(a: seq<byte>, b: seq<byte>)
    requires 0 !in a && 0 !in b
    ensures Key(a) == Key(b) <==> Same(a, b, FILE_NAME_MAX_LEN)
  {
    SamePrefix(a, b, FILE_NAME_MAX_LEN);
  }

  predicate Listed(t: seq<Entry>, k: seq<byte>, i: nat)
  {
    i < |t| && t[i].inUse && t[i].name == k
  }

  predicate Unlisted(t: seq<Entry>, k: seq<byte>)
  {
    forall i: nat :: i < |t| ==> !Listed(t, k, i)
  }

  // The sector under the first entry in use with name k, or -1.
  function Lookup(t: seq<Entry>, k: seq<byte>): int
  {
    if t == [] then -1 else if Listed(t, k, 0) then t[0].sector else Lookup(t[1..], k)
  }

  lemma {:induction false} LookupFirst(t: seq<Entry>, k: seq<byte>, i: nat)
    requires i <= |t| && (i < |t| ==> Listed(t, k, i)) && forall j: nat :: j < i ==> !Listed(t, k, j)
    ensures Lookup(t, k) == if i < |t| then t[i].sector else -1
  {
    if i == 0 {
    } else {
      forall j: nat | j < i - 1 ensures !Listed(t[1..], k, j) { assert !Listed(t, k, j + 1); }
      assert !Listed(t, k, 0);
      LookupFirst(t[1..], k, i - 1);
    }
  }

  class Directory {
    const table: array<Entry>

    ghost predicate Valid() { table.Length == NUM_DIR_ENTRIES }

    constructor ()
      ensures Valid() && fresh(table)
      ensures forall i :: 0 <= i < NUM_DIR_ENTRIES ==> !table[i].inUse
    {
      table := new Entry[NUM_DIR_ENTRIES](_ => FREE);
    }

    method Load(b: seq<byte>)
      requires Valid() && |b| == DIRECTORY_FILE_SIZE
      modifies table
      ensures table[..] == DecodeTable(b)
    {
      var t := DecodeTable(b);
      forall i | 0 <= i < NUM_DIR_ENTRIES { table[i] := t[i]; }
    }

    // The first entry in use with that name, or -1.
    method FindIndex(name: seq<byte>) returns (found: int)
      requires Valid() && 0 !in name
      ensures found == -1 <==> Unlisted(table[..], Key(name))
      ensures found != -1 ==>
                0 <= found && Listed(table[..], Key(name), found) && forall k: nat :: k < found ==> !Listed(table[..], Key(name), k)
    {
      for i := 0 to table.Length
        invariant forall k: nat :: k < i ==> !Listed(table[..], Key(name), k)
      {
        if table[i].inUse && table[i].name == Key(name) {
          assert Listed(table[..], Key(name), i);
          return i;
        }
      }
      return -1;
    }

    // The header sector listed under a name (slot is where), or -1.
    method Find(name: seq<byte>) returns (sector: int, ghost slot: nat)
      requires Valid() && 0 !in name
      ensures Unlisted(table[..], Key(name)) ==> sector == -1
      ensures !Unlisted(table[..], Key(name)) ==> Listed(table[..], Key(name), slot) && sector == table[slot].sector
      ensures sector == Lookup(table[..], Key(name))
    {
      var i := FindIndex(name);
      LookupFirst(table[..], Key(name), if i != -1 then i else |table[..]|);
      if i != -1 { sector, slot := table[i].sector, i; } else { sector, slot := -1, 0; }
    }

    method IsDir(name: seq<byte>) returns (yes: bool, ghost slot: nat)
      requires Valid() && 0 !in name
      ensures Unlisted(table[..], Key(name)) ==> !yes
      ensures !Unlisted(table[..], Key(name)) ==> Listed(table[..], Key(name), slot) && yes == table[slot].isDir
    {
      var i := FindIndex(name);
      yes, slot := i >= 0 && table[i].isDir && table[i].inUse, if i >= 0 then i else 0;
    }

    // Fails when the name is listed already or no entry is free; else the first free entry is used.
    method Add(name: seq<byte>, newSector: int32, isDir: bool) returns (ok: bool, ghost slot: nat)
      requires Valid() && 0 !in name
      modifies table
      ensures ok <==> Unlisted(old(table[..]), Key(name)) && exists i :: 0 <= i < NUM_DIR_ENTRIES && !old(table[..])[i].inUse
      ensures !ok ==> table[..] == old(table[..])
      ensures ok ==>
                && slot < NUM_DIR_ENTRIES && !old(table[..])[slot].inUse && (forall k :: 0 <= k < slot ==> old(table[..])[k].inUse)
                && table[..] == old(table[..])[slot := Entry(true, isDir, newSector, Key(name))]
    {
      slot := 0;
      var found := FindIndex(name);
      if found != -1 { return false, slot; }
      for i := 0 to table.Length
        invariant table[..] == old(table[..])
        invariant forall k :: 0 <= k < i ==> old(table[..])[k].inUse
      {
        if !table[i].inUse {
          assert !old(table[..])[i].inUse;
          table[i] := Entry(true, isDir, newSector, Key(name));
          return true, i;
        }
      }
      return false, slot;
    }

    method Remove(name: seq<byte>) returns (ok: bool, ghost slot: nat)
      requires Valid() && 0 !in name
      modifies table
      ensures ok <==> !Unlisted(old(table[..]), Key(name))
      ensures !ok ==> table[..] == old(table[..])
      ensures ok ==>
                && Listed(old(table[..]), Key(name), slot)
                && table[..] == old(table[..])[slot := old(table[..])[slot].(inUse := false)]
    {
      var i := FindIndex(name);
      if i == -1 { return false, 0; }
      table[i] := table[i].(inUse := false);
      return true, i;
    }
  }
}
