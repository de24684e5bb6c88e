/** Bytes, and the little endian words Python's struct packs and unpacks. */
module Bytes {
  type Bytes = seq<bv8>
  type word = n: nat | n < 0x1_0000
  type long = n: nat | n < 0x1_0000_0000

  function ToByte(n: nat): bv8
    requires n < 256
  {
    n as bv8
  }

  function PackWord(n: word): (b: Bytes)
    ensures |b| == 2
  {
    [ToByte(n % 256), ToByte(n / 256)]
  }

  function UnpackWord(lo: bv8, hi: bv8): word {
    lo as int + 256 * (hi as int)
  }

  lemma ByteOfValue(b: bv8)
    ensures b as int < 256 && ToByte(b as int) == b
  {}

  lemma NextByte(b: bv8)
    requires b < 255
    ensures (b + 1) as int == b as int + 1
  {}

  lemma LastByte()
    ensures (255 as bv8) as int == 255
  {}

  /** Every number below 256 is the value of a byte. */
  lemma {:induction false} ByteFor(n: nat) returns (b: bv8)
    requires n < 256
    ensures b as int == n
  {
    if n == 0 {
      b := 0;
    } else {
      var c := ByteFor(n - 1);
      LastByte();
      NextByte(c);
      b := c + 1;
    }
  }

  lemma ByteValue(n: nat)
    requires n < 256
    ensures ToByte(n) as int == n
  {
    var b := ByteFor(n);
    ByteOfValue(b);
  }

  lemma UnpackPacked(n: word)
    ensures UnpackWord(PackWord(n)[0], PackWord(n)[1]) == n
  {
    ByteValue(n % 256);
    ByteValue(n / 256);
  }

  lemma LowAndHigh(l: nat, h: nat)
    requires l < 256
    ensures (l + 256 * h) % 256 == l && (l + 256 * h) / 256 == h
  {}

  lemma PackUnpacked(lo: bv8, hi: bv8)
    ensures PackWord(UnpackWord(lo, hi)) == [lo, hi]
  {
    hide ToByte;
    ByteOfValue(lo);
    ByteOfValue(hi);
    LowAndHigh(lo as int, hi as int);
  }

  function PackWords(words: seq<word>): (b: Bytes)
    ensures |b| == 2 * |words|
  {
    if words == [] then [] else PackWord(words[0]) + PackWords(words[1..])
  }

  /** The whole words in a byte string; a last odd byte is not part of any. */
  function UnpackWords(data: Bytes): (w: seq<word>)
    ensures |w| == |data| / 2
  {
    if |data| < 2 then [] else [UnpackWord(data[0], data[1])] + UnpackWords(data[2..])
  }

  lemma {:induction false} WordsRoundTrip(words: seq<word>)
    ensures UnpackWords(PackWords(words)) == words
  {
    if words != [] {
      var b := PackWords(words);
      assert b[2..] == PackWords(words[1..]);
      UnpackPacked(words[0]);
      WordsRoundTrip(words[1..]);
    }
  }

  function PackLong(n: long): (b: Bytes)
    ensures |b| == 4
  {
    PackWord(n % 0x1_0000) + PackWord(n / 0x1_0000)
  }

  function UnpackLong(b: Bytes): long
    requires |b| == 4
  {
    UnpackWord(b[0], b[1]) + 0x1_0000 * UnpackWord(b[2], b[3])
  }

  lemma LongRoundTrip(n: long)
    ensures UnpackLong(PackLong(n)) == n
  {
    hide PackWord, UnpackWord;
    UnpackPacked(n % 0x1_0000);
    UnpackPacked(n / 0x1_0000);
  }
}
