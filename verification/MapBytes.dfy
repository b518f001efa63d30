/** The words of a bitmap as the bytes of a file (code/userprog/bitmap.cc:148-165), lowest byte first. */
module MapBytes {
  import opened Sectors
  import opened BitMaps

  const BYTES_IN_WORD := 4

  function Most(n: nat): nat { if n == 0 then 0 else 1 + 2 * Most(n - 1) }

  // Bits as a number, lowest first, and back.
  function NumberOf(bits: seq<bool>): (n: nat)
    ensures n <= Most(|bits|)
  {
    if bits == [] then 0 else (if bits[0] then 1 else 0) + 2 * NumberOf(bits[1..])
  }

  function BitsOf(n: nat, k: nat): (bits: seq<bool>)
    ensures |bits| == k
    decreases k
  {
    if k == 0 then [] else [n % 2 == 1] + BitsOf(n / 2, k - 1)
  }

  lemma {:induction false} BitsAgain(bits: seq<bool>)
    ensures BitsOf(NumberOf(bits), |bits|) == bits
  {
    if bits == [] {
    } else {
      BitsAgain(bits[1..]);
    }
  }

  function ByteOfBits(w: Word, k: nat): (b: byte)
    requires k + 8 <= BITS_IN_WORD
  {
    assert Most(8) == 255;
    NumberOf(w[k..k + 8]) as byte
  }

  function BitsOfByte(b: byte): (w: seq<bool>)
    ensures |w| == 8
  {
    BitsOf(b as nat, 8)
  }

  lemma ByteRoundTrip(w: Word, k: nat)
    requires k + 8 <= BITS_IN_WORD
    ensures BitsOfByte(ByteOfBits(w, k)) == w[k..k + 8]
  {
    BitsAgain(w[k..k + 8]);
  }

  function BytesOfWord(w: Word): (b: seq<byte>)
    ensures |b| == BYTES_IN_WORD
  {
    [ByteOfBits(w, 0), ByteOfBits(w, 8), ByteOfBits(w, 16), ByteOfBits(w, 24)]
  }

  function WordOfBytes(b: seq<byte>): (w: Word)
    requires |b| == BYTES_IN_WORD
  {
    BitsOfByte(b[0]) + BitsOfByte(b[1]) + BitsOfByte(b[2]) + BitsOfByte(b[3])
  }

  lemma WordAgain(w: Word)
    ensures WordOfBytes(BytesOfWord(w)) == w
  {
    hide BitsOfByte;
    hide ByteOfBits;
    ByteRoundTrip(w, 0);
    ByteRoundTrip(w, 8);
    ByteRoundTrip(w, 16);
    ByteRoundTrip(w, 24);
    assert w == w[0..8] + w[8..16] + w[16..24] + w[24..32];
  }

  // The bytes that WriteBack writes.
  function BytesOfMap(ws: seq<Word>): (b: seq<byte>)
    ensures |b| == |ws| * BYTES_IN_WORD
  {
    if ws == [] then [] else BytesOfMap(ws[..|ws| - 1]) + BytesOfWord(ws[|ws| - 1])
  }

  // The first n words that FetchFrom reads.
  function MapOfBytes(b: seq<byte>, n: nat): (ws: seq<Word>)
    requires n * BYTES_IN_WORD <= |b|
    ensures |ws| == n
  {
    seq(n, i requires 0 <= i < n => WordOfBytes(b[i * BYTES_IN_WORD..(i + 1) * BYTES_IN_WORD]))
  }

  lemma {:induction false} WordBytesAt(ws: seq<Word>, i: nat)
    requires i < |ws|
    ensures BytesOfMap(ws)[i * BYTES_IN_WORD..(i + 1) * BYTES_IN_WORD] == BytesOfWord(ws[i])
  {
    hide BytesOfWord;
    var init := ws[..|ws| - 1];
    if i == |init| {
    } else {
      WordBytesAt(init, i);
      var b := BytesOfMap(init);
      assert BytesOfMap(ws)[i * BYTES_IN_WORD..(i + 1) * BYTES_IN_WORD] == b[i * BYTES_IN_WORD..(i + 1) * BYTES_IN_WORD];
    }
  }

  // What WriteBack writes is what FetchFrom reads.
  lemma MapRoundTrip(ws: seq<Word>)
    ensures MapOfBytes(BytesOfMap(ws), |ws|) == ws
  {
    hide WordOfBytes;
    hide BytesOfWord;
    var b := BytesOfMap(ws);
    forall i | 0 <= i < |ws| ensures MapOfBytes(b, |ws|)[i] == ws[i] {
      WordBytesAt(ws, i);
      WordAgain(ws[i]);
    }
  }

  // n >> k
  function Shifted(n: nat, k: nat): nat
  {
    if k == 0 then n else Shifted(n / 2, k - 1)
  }

  lemma {:induction false} BitOfNumber(bits: seq<bool>, k: nat)
    requires k < |bits|
    ensures Shifted(NumberOf(bits), k) % 2 == 1 <==> bits[k]
  {
    if k == 0 {
    } else {
      BitOfNumber(bits[1..], k - 1);
      assert NumberOf(bits) / 2 == NumberOf(bits[1..]);
    }
  }

  // Bit i of the map is bit i % 8 of byte i / 8 of the file.
  lemma BitPlace(ws: seq<Word>, i: nat)
    requires i < |ws| * BITS_IN_WORD
    ensures Shifted(BytesOfMap(ws)[i / 8] as nat, i % 8) % 2 == 1 <==> ws[i / BITS_IN_WORD][i % BITS_IN_WORD]
  {
    hide Shifted;
    hide NumberOf;
    var w, k := i / BITS_IN_WORD, i % BITS_IN_WORD / 8;
    WordBytesAt(ws, w);
    assert i / 8 == w * BYTES_IN_WORD + k && i % BITS_IN_WORD == 8 * k + i % 8;
    assert BytesOfMap(ws)[i / 8] == BytesOfMap(ws)[w * BYTES_IN_WORD..(w + 1) * BYTES_IN_WORD][k];
    assert BytesOfWord(ws[w])[k] == ByteOfBits(ws[w], 8 * k);
    BitOfNumber(ws[w][8 * k..8 * k + 8], i % 8);
  }
}
