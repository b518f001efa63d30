/** The bitmap of code/userprog/bitmap.cc: an array of 32-bit words whose bits
    are set and cleared in place.  Everything is stated through the set of
    marked bit numbers. */
module BitMaps {
  import opened Outcomes

  const BITS_IN_WORD := 32

  // An unsigned int, as the sequence of its bits: bit k is the one 1 << k selects.
  type Word = w: seq<bool> | |w| == BITS_IN_WORD witness seq(BITS_IN_WORD, _ => false)

  const NO_BITS: Word := seq(BITS_IN_WORD, _ => false)

  // The words have exactly the bits of `marked` set among their first n.
  ghost predicate Encodes(words: seq<Word>, n: nat, marked: set<nat>)
  {
    && n <= |words| * BITS_IN_WORD
    && (forall i :: i in marked ==> i < n)
    && (forall i: nat :: i < n ==> (i in marked <==> words[i / BITS_IN_WORD][i % BITS_IN_WORD]))
  }

  function WithBit(words: seq<Word>, which: nat, on: bool): seq<Word>
    requires which < |words| * BITS_IN_WORD
  {
    var x := which / BITS_IN_WORD;
    words[x := words[x][which % BITS_IN_WORD := on]]
  }

  // Setting or clearing one bit of one word changes that bit and no other.
  lemma BitUpdate(words: seq<Word>, n: nat, marked: set<nat>, which: nat, on: bool)
    requires Encodes(words, n, marked) && which < n
    ensures Encodes(WithBit(words, which, on), n, if on then marked + {which} else marked - {which})
  {
    var words' := WithBit(words, which, on);
    forall i: nat | i < n
      ensures words'[i / BITS_IN_WORD][i % BITS_IN_WORD] == if i == which then on else words[i / BITS_IN_WORD][i % BITS_IN_WORD]
    {
    }
  }

  // cnt clear bits in a row, starting at i and staying below n.
  predicate ClearRun(marked: set<nat>, n: nat, i: nat, cnt: nat)
  {
    i + cnt <= n && forall j: nat :: i <= j < i + cnt ==> j !in marked
  }

  predicate HasRun(marked: set<nat>, n: nat, cnt: nat)
  {
    exists i: nat :: i <= n && ClearRun(marked, n, i, cnt)
  }

  // The first place for cnt bits in a row.
  ghost predicate FirstRun(marked: set<nat>, n: nat, i: nat, cnt: nat)
  {
    ClearRun(marked, n, i, cnt) && forall j: nat :: j < i ==> !ClearRun(marked, n, j, cnt)
  }

  // The bits of one run.
  function Run(i: nat, cnt: nat): (r: set<nat>)
    ensures forall j: nat :: j in r <==> i <= j < i + cnt
    ensures |r| == cnt
  {
    if cnt == 0 then {} else Run(i, cnt - 1) + {i + cnt - 1}
  }

  // The first run of cnt clear bits has been marked, and beg is where it starts; -1 when there
  // are no bits at all or when one bit was asked for and none is clear.
  ghost predicate RunReserved(m0: set<nat>, n: nat, cnt: nat, beg: int, m: set<nat>)
  {
    if beg == -1 then m == m0 && (n == 0 || (cnt == 1 && !HasRun(m0, n, cnt)))
    else
      && beg >= 0 && ClearRun(m0, n, beg, cnt)
      && (forall i: nat :: i < beg ==> !ClearRun(m0, n, i, cnt))
      && m == m0 + Run(beg, cnt)
  }

  class BitMap {
    const numBits: nat
    const bits: array<Word>

    ghost var marked: set<nat>      // the bits that are set

    ghost predicate Valid()
      reads this, bits
    {
      && bits.Length == DivRoundUp(numBits, BITS_IN_WORD)
      && (forall i :: i in marked ==> i < numBits)
      && forall x {:trigger Inside(x)} :: Inside(x) ==> Encodes(bits[..], numBits, marked)
    }

    constructor (nitems: nat)
      ensures Valid() && fresh(bits) && numBits == nitems
      ensures marked == {}
    {
      numBits := nitems;
      bits := new Word[DivRoundUp(nitems, BITS_IN_WORD)];
      new;
      marked := set i: nat | i < numBits && bits[i / BITS_IN_WORD][i % BITS_IN_WORD];
      for i := 0 to numBits
        invariant Valid() && fresh(bits)
        invariant forall k :: k in marked ==> i <= k
      {
        Clear(i);
      }
    }

    method Mark(which: nat)
      requires Valid() && which < numBits
      modifies this, bits
      ensures Valid()
      ensures marked == old(marked) + {which}
    {
      assert Inside(0);
      var x := which / BITS_IN_WORD;
      BitUpdate(bits[..], numBits, marked, which, true);
      ghost var after := WithBit(bits[..], which, true);
      bits[x] := bits[x][which % BITS_IN_WORD := true];
      assert bits[..] == after;
      marked := marked + {which};
    }

    method Clear(which: nat)
      requires Valid() && which < numBits
      modifies this, bits
      ensures Valid()
      ensures marked == old(marked) - {which}
    {
      assert Inside(0);
      var x := which / BITS_IN_WORD;
      BitUpdate(bits[..], numBits, marked, which, false);
      ghost var after := WithBit(bits[..], which, false);
      bits[x] := bits[x][which % BITS_IN_WORD := false];
      assert bits[..] == after;
      marked := marked - {which};
    }

    method Test(which: nat) returns (set_: bool)
      requires Valid() && which < numBits
      ensures set_ <==> which in marked
    {
      assert Inside(0);
      set_ := bits[which / BITS_IN_WORD][which % BITS_IN_WORD];
    }

    // First fit: the least clear bit is marked and returned; -1 only when there is none.
    method Find() returns (found: int)
      requires Valid()
      modifies this, bits
      ensures Valid()
      ensures found == -1 <==> FullBelow(old(marked), numBits)
      ensures found == -1 ==> marked == old(marked)
      ensures found != -1 ==>
                && 0 <= found < numBits
                && found !in old(marked)
                && (forall k: nat :: k < found ==> k in old(marked))
                && marked == old(marked) + {found}
    {
      for i := 0 to numBits
        invariant Valid() && marked == old(marked)
        invariant forall k: nat :: k < i ==> k in marked
      {
        var t := Test(i);
        if !t {
          Mark(i);
          return i;
        }
      }
      return -1;
    }

    method NumClear() returns (count: nat)
      requires Valid()
      ensures count == numBits - |marked|
    {
      count := 0;
      ghost var seen: set<nat> := {};
      for i := 0 to numBits
        invariant forall k: nat :: k in seen <==> k < i && k in marked
        invariant count == i - |seen|
      {
        var t := Test(i);
        if t { seen := seen + {i}; } else { count := count + 1; }
      }
      assert seen == marked;
    }

    // The inner scan of FindN.  It never stops early, so a start too close to the end
    // makes Test's ASSERT fail.
    method TestRun(i: nat, cnt: nat) returns (r: Outcome<bool>)
      requires Valid() && i <= numBits
      ensures r.Halted? <==> i + cnt > numBits
      ensures r.Returned? ==> (r.value <==> ClearRun(marked, numBits, i, cnt))
    {
      var flag := true;
      for j := 0 to cnt
        invariant i + j <= numBits
        invariant flag <==> forall k: nat :: i <= k < i + j ==> k !in marked
      {
        if i + j >= numBits { return Halted; }
        var t := Test(i + j);
        if t { flag := false; }
      }
      return Returned(flag);
    }

    method MarkRun(i: nat, cnt: nat)
      requires Valid() && i + cnt <= numBits
      modifies this, bits
      ensures Valid()
      ensures marked == old(marked) + Run(i, cnt)
    {
      for j := 0 to cnt
        invariant Valid()
        invariant forall k: nat :: k in marked <==> k in old(marked) || i <= k < i + j
      {
        Mark(i + j);
      }
    }

    // The first run of cnt clear bits is marked and its start returned.  For two bits
    // or more, "no such run" halts the kernel instead of returning -1.
    method FindN(cnt: nat) returns (r: Outcome<int>)
      requires Valid()
      modifies this, bits
      ensures Valid()
      ensures r.Halted? <==> cnt >= 2 && numBits > 0 && !HasRun(old(marked), numBits, cnt)
      ensures if r.Returned? then RunReserved(old(marked), numBits, cnt, r.value, marked) else marked == old(marked)
    {
      for i := 0 to numBits
        invariant Valid() && marked == old(marked)
        invariant forall k: nat :: k < i ==> !ClearRun(marked, numBits, k, cnt)
        invariant i > 0 ==> cnt > 0 && i - 1 + cnt <= numBits
      {
        var flag := TestRun(i, cnt);
        if flag.Halted? {
          NoLateRun(marked, numBits, i, cnt);
          return Halted;
        }
        if flag.value {
          MarkRun(i, cnt);
          return Returned(i);
        }
      }
      if cnt >= 1 { NoLateRun(marked, numBits, numBits, cnt); }
      return Returned(-1);
    }

    // The words that go to the bitmap file.
    method WriteBack() returns (words: seq<Word>)
      requires Valid()
      ensures |words| == bits.Length && Encodes(words, numBits, marked)
    {
      assert Inside(0);
      words := bits[..];
    }

    // The words of the bitmap file are read into the array.
    method FetchFrom(words: seq<Word>, ghost m: set<nat>)
      requires |words| == bits.Length == DivRoundUp(numBits, BITS_IN_WORD)
      requires Encodes(words, numBits, m)
      modifies this, bits
      ensures Valid() && marked == m
    {
      for i := 0 to bits.Length
        invariant bits[..i] == words[..i]
      {
        bits[i] := words[i];
      }
      assert bits[..] == words;
      marked := m;
    }
  }

  // With no run starting before i and none fitting from i on, there is no run at all.
  lemma NoLateRun(marked: set<nat>, n: nat, i: nat, cnt: nat)
    requires forall k: nat :: k < i ==> !ClearRun(marked, n, k, cnt)
    requires i + cnt > n
    ensures !HasRun(marked, n, cnt)
  {
  }
}
