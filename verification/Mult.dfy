/** Mult (code/machine/mipssim.cc:636-693): the 64-bit product of two 32-bit words by shifting and adding. */
module Multiplication {
  import opened Sectors

  const W := 0x1_0000_0000

  // -a on a 32-bit word; the least word is its own negation.
  function Negated(a: int32): int32
  {
    if a == -0x8000_0000 then a else -a
  }

  function Times(b: nat, x: nat): nat { b * x }

  lemma TimesStep(b: nat, done: nat, pow: nat)
    requires b < W && done < pow && 2 * pow <= W
    ensures Times(b, done + pow) == Times(b, done) + Times(b, pow)
    ensures Times(b, 2 * pow) == 2 * Times(b, pow) < W * W
    ensures Times(b, done) + Times(b, pow) < W * W
  {
    assert b * (2 * pow) == 2 * (b * pow);
    MulMore(2 * pow, b, W - 1);
    MulMore(W - 1, 2 * pow, W);
    MulMore(b, done + pow, 2 * pow);
  }

  // 64-bit addition out of 32-bit ones.
  lemma AddWords(lo: nat, hi: nat, bLo: nat, bHi: nat)
    requires lo < W && bLo < W && hi * W + lo + bHi * W + bLo < W * W
    ensures var lo' := (lo + bLo) % W;
            var hi' := ((hi + (if lo' < bLo then 1 else 0)) % W + bHi) % W;
            hi' * W + lo' == hi * W + lo + bHi * W + bLo
  {
    var lo' := (lo + bLo) % W;
    assert lo' == if lo + bLo < W then lo + bLo else lo + bLo - W;
    assert hi + bHi + (if lo' < bLo then 1 else 0) < W;
  }

  lemma ShiftWords(bLo: nat, bHi: nat)
    requires bLo < W && 2 * (bHi * W + bLo) < W * W
    ensures var hi := (2 * bHi) % W + (if bLo >= 0x8000_0000 then 1 else 0);
            hi * W + (2 * bLo) % W == 2 * (bHi * W + bLo)
  {
    assert 2 * bHi < W;
  }

  // ~x + 1 on the pair of words.
  lemma NegateWords(lo: nat, hi: nat)
    requires lo < W && hi < W && hi * W + lo > 0
    ensures var lo' := (W - 1 - lo + 1) % W;
            var hi' := if lo' == 0 then (W - 1 - hi + 1) % W else W - 1 - hi;
            hi' * W + lo' == W * W - (hi * W + lo)
  {
  }

  method AddPair(hi: nat, lo: nat, bHi: nat, bLo: nat) returns (hi': nat, lo': nat)
    requires lo < W && bLo < W && hi < W && hi * W + lo + bHi * W + bLo < W * W
    ensures hi' < W && lo' < W && hi' * W + lo' == hi * W + lo + bHi * W + bLo
  {
    AddWords(lo, hi, bLo, bHi);
    lo', hi' := (lo + bLo) % W, hi;
    if lo' < bLo { hi' := (hi' + 1) % W; }       // carry out of the low bits
    hi' := (hi' + bHi) % W;
  }

  method ShiftPair(bHi: nat, bLo: nat) returns (bHi': nat, bLo': nat)
    requires bLo < W && 2 * (bHi * W + bLo) < W * W
    ensures bLo' < W && bHi' * W + bLo' == 2 * (bHi * W + bLo)
  {
    ShiftWords(bLo, bHi);
    bHi' := (2 * bHi) % W;
    if bLo >= 0x8000_0000 { bHi' := bHi' + 1; }
    bLo' := (2 * bLo) % W;
  }

  // The product of word a, taken without sign, and b: a's bits are tested from the lowest up,
  // and b, doubled at every step, is added for each bit that is set.
  method MultUnsigned(a0: int32, b: nat) returns (hi: nat, lo: nat)
    requires a0 != 0 && b < W
    ensures hi < W && lo < W && hi * W + lo == Unsigned(a0) * b
  {
    var a: int := a0;
    var bLo: nat, bHi: nat := b, 0;
    lo, hi := 0, 0;
    ghost var pow: nat, done: nat, sum: nat, shifted: nat := 1, 0, 0, b;
    PowWord();
    TimesStart(b);
    hide Pow2;
    hide Split;
    hide Times;
    for i := 0 to 32
      invariant a != 0 && Split(a0, a, pow, done) && pow == Pow2(i) <= W
      invariant hi < W && lo < W && bLo < W && hi * W + lo == sum && bHi * W + bLo == shifted
      invariant done < pow && sum == Times(b, done) && shifted == Times(b, pow)
    {
      PowNext(i);
      TimesStep(b, done, pow);
      Halve(a0, a, pow, done);
      if a % 2 == 1 {
        hi, lo := AddPair(hi, lo, bHi, bLo);
        sum, done := sum + shifted, done + pow;
        if a == 1 {                              // (a & 0xfffffffe) == 0
          assert a0 == done;
          break;
        }
      }
      bHi, bLo := ShiftPair(bHi, bLo);
      shifted := 2 * shifted;
      a := a / 2;                                // a >>= 1
      pow := 2 * pow;
    }
    if a0 != done { DoneAll(a0, a, done); }
    TimesIs(b, done);
  }

  lemma TimesIs(b: nat, x: nat)
    ensures Times(b, x) == x * b
  {
  }

  lemma TimesStart(b: nat)
    ensures Times(b, 0) == 0 && Times(b, 1) == b
  {
  }

  lemma DoneAll(a0: int32, a: int, done: nat)
    requires Split(a0, a, W, done)
    ensures done == Unsigned(a0)
  {
    assert a == -1 || a == 0;
  }

  // The bits of a0 that are done, and those that are left.
  ghost predicate Split(a0: int, a: int, pow: nat, done: nat)
  {
    a0 == a * pow + done && done < pow
  }

  lemma MulMore(b: nat, x: nat, y: nat)
    requires x <= y
    ensures b * x <= b * y
  {
  }

  function Pow2(n: nat): (p: nat)
    ensures p >= 1
  {
    if n == 0 then 1 else 2 * Pow2(n - 1)
  }

  lemma PowNext(i: nat)
    requires i < 32
    ensures Pow2(i + 1) == 2 * Pow2(i) <= W
  {
    PowWord();
    PowGrows(i + 1, 32);
  }

  lemma {:induction false} PowGrows(m: nat, n: nat)
    requires m <= n
    ensures Pow2(m) <= Pow2(n)
    decreases n
  {
    if m == n {
    } else {
      PowGrows(m, n - 1);
    }
  }

  lemma {:induction false} PowSum(m: nat, n: nat)
    ensures Pow2(m + n) == Pow2(m) * Pow2(n)
  {
    if m == 0 {
    } else {
      PowSum(m - 1, n);
      assert 2 * (Pow2(m - 1) * Pow2(n)) == (2 * Pow2(m - 1)) * Pow2(n);
    }
  }

  lemma PowWord()
    ensures Pow2(32) == W
  {
    assert Pow2(1) == 2;
    PowSum(1, 1);
    PowSum(2, 2);
    PowSum(4, 4);
    PowSum(8, 8);
    PowSum(16, 16);
  }

  lemma Halve(a0: int, a: int, pow: nat, done: nat)
    requires Split(a0, a, pow, done)
    ensures Split(a0, a / 2, 2 * pow, if a % 2 == 1 then done + pow else done) && done < pow
    ensures a == 1 ==> a0 == done + pow
  {
    assert a == 2 * (a / 2) + a % 2;
    assert (a / 2) * (2 * pow) == (2 * (a / 2)) * pow;
  }

  // hi:lo is the exact product of the two words, with or without sign.
  method Mult(a: int32, b: int32, signedArith: bool) returns (hi: int32, lo: int32)
    ensures signedArith ==> hi * W + Unsigned(lo) == a * b
    ensures !signedArith ==> Unsigned(hi) * W + Unsigned(lo) == Unsigned(a) * Unsigned(b)
  {
    if a == 0 || b == 0 { return 0, 0; }
    var negative, x, y := false, a, b;
    if signedArith {
      if x < 0 { negative, x := !negative, Negated(x); }
      if y < 0 { negative, y := !negative, Negated(y); }
    }
    assert Unsigned(x) == Size(a, signedArith) && Unsigned(y) == Size(b, signedArith);
    var h, l := MultUnsigned(x, Unsigned(y));
    Sizes(a, b, signedArith);
    ghost var product := Size(a, signedArith) * Size(b, signedArith);
    if negative {
      NegateWords(l, h);
      h, l := W - 1 - h, (W - 1 - l + 1) % W;
      if l == 0 { h := (h + 1) % W; }
    }
    hi, lo := Signed(h), Signed(l);
    if signedArith { SignedPair(h, l, product, negative); }
  }

  // The word without its sign.
  function Size(a: int32, signedArith: bool): (n: nat)
  {
    if signedArith && a < 0 then W - Unsigned(a) else Unsigned(a)
  }

  lemma Sizes(a: int32, b: int32, signedArith: bool)
    requires a != 0 && b != 0
    ensures Size(a, signedArith) * Size(b, signedArith) > 0
    ensures signedArith ==>
              && a * b == (if (a < 0) != (b < 0) then -1 else 1) * (Size(a, true) * Size(b, true))
              && Size(a, true) * Size(b, true) <= 0x8000_0000 * 0x8000_0000
  {
    var x, y := Size(a, signedArith), Size(b, signedArith);
    Products(x, y);
    if signedArith { SignOfProduct(a, b, x, y); }
  }

  lemma Products(x: nat, y: nat)
    requires x >= 1 && y >= 1
    ensures x * y > 0 && (x <= 0x8000_0000 && y <= 0x8000_0000 ==> x * y <= 0x8000_0000 * 0x8000_0000)
  {
    if x <= 0x8000_0000 && y <= 0x8000_0000 {
      MulMore(y, x, 0x8000_0000);
      MulMore(0x8000_0000, y, 0x8000_0000);
    }
  }

  lemma SignOfProduct(a: int, b: int, x: nat, y: nat)
    requires x == (if a < 0 then -a else a) && y == (if b < 0 then -b else b)
    ensures a * b == (if (a < 0) != (b < 0) then -1 else 1) * (x * y)
  {
  }

  // A pair of words as a signed 64-bit number.
  lemma SignedPair(h: nat, l: nat, v: nat, negative: bool)
    requires h < W && l < W && 0 < v <= 0x8000_0000 * 0x8000_0000
    requires h * W + l == if negative then W * W - v else v
    ensures Signed(h) * W + Unsigned(Signed(l)) == (if negative then -1 else 1) * v
  {
  }
}
