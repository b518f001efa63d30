/** itoa (code/userprog/addrspace.cc:31-53): the digits of an integer, written backwards into a buffer and then
    reversed in place. */
module Itoa {
  import opened Sectors
  import opened Multiplication

  // C's division, which truncates toward zero.
  function TruncDiv(v: int, base: int): int
    requires base >= 2
  {
    if v >= 0 then v / base else -((-v) / base)
  }

  function Abs(v: int): nat { if v < 0 then -v else v }

  // The character for a digit, and how a reader understands it.
  function DigitChar(d: nat): (c: char)
    requires d < 36
    ensures DigitValue(c) == d && c != '-'
  {
    if d < 10 then ('0' as int + d) as char else ('a' as int + d - 10) as char
  }

  function DigitValue(c: char): int
  {
    if '0' <= c <= '9' then c as int - '0' as int else if 'a' <= c <= 'z' then c as int - 'a' as int + 10 else -1
  }

  lemma Divided(n: nat, base: nat)
    requires base >= 2
    ensures n / base <= n / 2 && n % base < base && (n / base) * base + n % base == n && (n / base == 0 <==> n < base)
  {
    var q, r := n / base, n % base;
    assert q * base + r == n;
    assert q * 2 <= q * base && (q >= 1 ==> q * base >= base);
  }

  // The digits of n as characters, lowest first.
  function Digits(n: nat, base: nat): (ds: string)
    requires 2 <= base <= 36
    ensures |ds| > 0 && forall i :: 0 <= i < |ds| ==> ds[i] != '-'
  {
    Divided(n, base);
    if n < base then [DigitChar(n)] else [DigitChar(n % base)] + Digits(n / base, base)
  }

  // The number that a string of digits stands for, highest digit first.
  function ParseDigits(s: string, base: int): int
  {
    if s == [] then 0 else ParseDigits(s[..|s| - 1], base) * base + DigitValue(s[|s| - 1])
  }

  function Parse(s: string, base: int): int
  {
    if s != [] && s[0] == '-' then -ParseDigits(s[1..], base) else ParseDigits(s, base)
  }

  function Reversed<T>(s: seq<T>): (r: seq<T>)
    ensures |r| == |s| && forall i :: 0 <= i < |s| ==> r[i] == s[|s| - 1 - i]
  {
    if s == [] then [] else Reversed(s[1..]) + [s[0]]
  }

  // Reading the digits of n gives n.
  lemma {:induction false} ParseOfDigits(n: nat, base: nat)
    requires 2 <= base <= 36
    ensures ParseDigits(Reversed(Digits(n, base)), base) == n
    decreases n
  {
    Divided(n, base);
    var ds := Digits(n, base);
    var s := Reversed(ds);
    assert s[|s| - 1] == ds[0] && s[..|s| - 1] == Reversed(ds[1..]);
    if n < base {
    } else {
      ParseOfDigits(n / base, base);
      assert ds[1..] == Digits(n / base, base);
    }
  }

  // What itoa leaves in the buffer.
  function Written(v: int, base: nat): string
    requires 2 <= base <= 36
  {
    Reversed(Digits(Abs(v), base) + if v < 0 then "-" else "")
  }

  // A reader of the buffer gets the number back.
  lemma RoundTrip(v: int, base: nat)
    requires 2 <= base <= 36
    ensures Parse(Written(v, base), base) == v
  {
    hide Digits;
    hide ParseDigits;
    hide Reversed;
    var ds, s := Digits(Abs(v), base), Written(v, base);
    ParseOfDigits(Abs(v), base);
    if v < 0 {
      assert (ds + "-")[|ds|] == '-';
      assert s[1..] == Reversed(ds);
    } else {
      assert ds + "" == ds;
    }
  }

  lemma DigitLetters(d: nat)
    requires d < 36
    ensures DigitChar(d) == "0123456789abcdefghijklmnopqrstuvwxyz"[d]
  {
  }

  // No digit is written in vain: only 0 itself starts with a 0.
  lemma {:induction false} Shortest(v: int, base: nat)
    requires 2 <= base <= 36 && v != 0
    ensures var s, first := Written(v, base), if v < 0 then 1 else 0; first < |s| && s[first] != '0'
  {
    hide Digits;
    TopDigit(Abs(v), base);
    assert v < 0 ==> (Digits(Abs(v), base) + "-")[|Digits(Abs(v), base)| - 1] != '0';
  }

  lemma {:induction false} TopDigit(n: nat, base: nat)
    requires 2 <= base <= 36 && n > 0
    ensures Digits(n, base)[|Digits(n, base)| - 1] != '0'
    decreases n
  {
    Divided(n, base);
    if n < base {
    } else {
      TopDigit(n / base, base);
    }
  }

  // A number below 2^k has at most k digits, in any base.
  lemma {:induction false} DigitsBound(n: nat, base: nat, k: nat)
    requires 2 <= base <= 36 && k >= 1 && n < Pow2(k)
    ensures |Digits(n, base)| <= k
    decreases k
  {
    Divided(n, base);
    if n < base {
    } else {
      assert n / base <= n / 2 < Pow2(k - 1);
      assert k > 1;
      DigitsBound(n / base, base, k - 1);
    }
  }

  const MAX_DIGITS := 32

  // So 34 characters are enough for any word.
  lemma WordDigits(v: int32, base: nat)
    requires 2 <= base <= 36
    ensures |Written(v, base)| <= MAX_DIGITS + 1
  {
    PowWord();
    DigitsBound(Abs(v), base, MAX_DIGITS);
  }

  // The buffer needs room for the digits, a sign and the NUL, and no more.
  method Itoa(value: int32, result: array<char>, base: int) returns (len: nat)
    requires result.Length > if 2 <= base <= 36 then |Written(value, base)| else 0
    modifies result
    ensures len < result.Length && result[len] == '\0'
    ensures result[..len] == if 2 <= base <= 36 then Written(value, base) else ""
  {
    if base < 2 || base > 36 {
      result[0] := '\0';
      return 0;
    }
    len := WriteDigits(value, result, base);
    if value < 0 {
      result[len] := '-';
      len := len + 1;
    }
    assert result[..len] == Digits(Abs(value), base) + if value < 0 then "-" else "";
    result[len] := '\0';
    ReverseInPlace(result, len);
  }

  method WriteDigits(value: int32, result: array<char>, base: nat) returns (len: nat)
    requires 2 <= base <= 36 && |Digits(Abs(value), base)| <= result.Length
    modifies result
    ensures len <= result.Length && result[..len] == Digits(Abs(value), base)
  {
    hide DigitChar;
    hide TruncDiv;
    var v: int := value;
    len := 0;
    ghost var all := Digits(Abs(value), base);
    while true
      invariant len < |all| && result[..len] == all[..len] && all[len..] == Digits(Abs(v), base)
      decreases Abs(v)
    {
      Divided(Abs(v), base);
      var tmp := v;
      v := TruncDiv(v, base);
      var d := tmp - v * base;
      DigitOf(tmp, v, base);
      result[len] := DigitChar(Abs(d));
      assert all[len..][0] == all[len] && all[len..][1..] == all[len + 1..];
      assert result[..len + 1] == all[..len + 1];
      len := len + 1;
      if v == 0 { break; }
    }
    assert all[..len] == all;
  }

  // The remainder is the last digit, with the sign of the number.
  lemma DigitOf(v: int, q: int, base: nat)
    requires 2 <= base <= 36 && q == TruncDiv(v, base)
    ensures Abs(q) == Abs(v) / base && Abs(v - q * base) == Abs(v) % base && (q == 0 <==> Abs(v) < base)
  {
    Divided(Abs(v), base);
    var n := Abs(v) / base;
    Negative(n, base);
    assert q == (if v < 0 then -n else n);
  }

  lemma Negative(n: int, base: int)
    ensures (-n) * base == -(n * base)
  {
  }

  method ReverseInPlace(a: array<char>, len: nat)
    requires len < a.Length
    modifies a
    ensures a[..len] == Reversed(old(a[..len])) && a[len..] == old(a[len..])
  {
    var lo, hi := 0, len - 1;
    while lo < hi
      invariant 0 <= lo && lo + hi == len - 1 && hi >= lo - 1
      invariant forall k :: 0 <= k < lo || hi < k < len ==> a[k] == old(a[len - 1 - k])
      invariant forall k :: lo <= k <= hi || len <= k < a.Length ==> a[k] == old(a[k])
    {
      var tmp := a[hi];
      a[hi] := a[lo];
      a[lo] := tmp;
      lo, hi := lo + 1, hi - 1;
    }
    ghost var was := old(a[..len]);
    assert forall k :: 0 <= k < len ==> a[..len][k] == Reversed(was)[k];
  }
}
