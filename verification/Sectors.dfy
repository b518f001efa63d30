/** Disk sectors as bytes, and the C view of a sector as 32 little-endian ints that
    index blocks and file headers use. */
module Sectors {
  const SECTOR_SIZE := 128
  const NUM_SECTORS := 1024
  const WORDS := 32                 // ints in one sector

  newtype byte = x: int | 0 <= x < 256

  type int32 = x: int | -0x8000_0000 <= x < 0x8000_0000

  type Sector = s: seq<byte> | |s| == SECTOR_SIZE witness seq(SECTOR_SIZE, _ => 0)

  const BLANK: Sector := seq(SECTOR_SIZE, _ => 0 as byte)

  // The whole disk, one value per sector.
  type Flat = f: seq<Sector> | |f| == NUM_SECTORS witness seq(NUM_SECTORS, _ => BLANK)

  function Unsigned(x: int32): (u: nat)
    ensures u < 0x1_0000_0000
  {
    if x < 0 then x + 0x1_0000_0000 else x
  }

  function Signed(u: nat): (x: int32)
    requires u < 0x1_0000_0000
  {
    if u < 0x8000_0000 then u else u - 0x1_0000_0000
  }

  // Byte k (0 is the least significant) of a word.
  function ByteOf(x: int32, k: nat): (b: byte)
    requires k < 4
  {
    var u := Unsigned(x);
    (match k
     case 0 => u % 256
     case 1 => u / 256 % 256
     case 2 => u / 256 / 256 % 256
     case 3 => u / 256 / 256 / 256) as byte
  }

  function WordFrom(b0: byte, b1: byte, b2: byte, b3: byte): (x: int32)
  {
    Signed(b0 as int + b1 as int * 0x100 + b2 as int * 0x1_0000 + b3 as int * 0x100_0000)
  }

  lemma WordRoundTrip(x: int32)
    ensures WordFrom(ByteOf(x, 0), ByteOf(x, 1), ByteOf(x, 2), ByteOf(x, 3)) == x
  {
    var u := Unsigned(x);
    var q := u / 256;
    var p := q / 256;
    assert u == u % 256 + 256 * q && q == q % 256 + 256 * p && p == p % 256 + 256 * (p / 256);
  }

  // What byte k of a word counts.
  function Weight(k: nat): nat
    requires k < 4
  {
    [1, 0x100, 0x1_0000, 0x100_0000][k]
  }

  lemma ByteIs(x: int32, k: nat)
    requires k < 4
    ensures ByteOf(x, k) as int == Unsigned(x) / Weight(k) % 256
  {
    var u := Unsigned(x);
    assert u / 256 / 256 == u / 0x1_0000 && u / 256 / 256 / 256 == u / 0x100_0000;
  }

  // (int *) sector
  function WordsOf(s: Sector): (ws: seq<int32>)
    ensures |ws| == WORDS
  {
    seq(WORDS, i requires 0 <= i < WORDS => WordFrom(s[4 * i], s[4 * i + 1], s[4 * i + 2], s[4 * i + 3]))
  }

  lemma BytesOfWords(ws: seq<int32>, s: Sector, i: nat)
    requires |ws| == WORDS && i < WORDS
    requires forall j :: 0 <= j < SECTOR_SIZE ==> s[j] == ByteOf(ws[j / 4], j % 4)
    ensures WordFrom(s[4 * i], s[4 * i + 1], s[4 * i + 2], s[4 * i + 3]) == ws[i]
  {
    WordRoundTrip(ws[i]);
    assert 4 * i / 4 == (4 * i + 1) / 4 == (4 * i + 2) / 4 == (4 * i + 3) / 4 == i;
  }

  // (char *) words
  function SectorOf(ws: seq<int32>): (s: Sector)
    requires |ws| == WORDS
    ensures WordsOf(s) == ws
  {
    var s := seq(SECTOR_SIZE, j requires 0 <= j < SECTOR_SIZE => ByteOf(ws[j / 4], j % 4));
    assert forall i :: 0 <= i < WORDS ==> WordsOf(s)[i] == ws[i] by {
      forall i | 0 <= i < WORDS ensures WordsOf(s)[i] == ws[i] {
        BytesOfWords(ws, s, i);
      }
    }
    s
  }

  // The words of a sector lie one behind the other, the least significant byte first.
  lemma SectorByte(s: Sector, j: nat)
    requires j < SECTOR_SIZE
    ensures s[j] as int == Unsigned(WordsOf(s)[j / 4]) / Weight(j % 4) % 256
  {
    var i := j / 4;
    WordBytes(s[4 * i] as nat, s[4 * i + 1] as nat, s[4 * i + 2] as nat, s[4 * i + 3] as nat);
  }

  lemma WordBytes(b0: nat, b1: nat, b2: nat, b3: nat)
    requires b0 < 256 && b1 < 256 && b2 < 256 && b3 < 256
    ensures var u := b0 + b1 * 0x100 + b2 * 0x1_0000 + b3 * 0x100_0000;
            u % 256 == b0 && u / 0x100 % 256 == b1 && u / 0x1_0000 % 256 == b2 && u / 0x100_0000 % 256 == b3
  {
    var u := b0 + b1 * 0x100 + b2 * 0x1_0000 + b3 * 0x100_0000;
    assert u / 0x100 == b1 + b2 * 0x100 + b3 * 0x1_0000;
    assert u / 0x1_0000 == b2 + b3 * 0x100;
  }
}
