/** Disk sectors, and the little-endian words that index nodes and block tables store in them. */
module Sectors {
  import opened Words

  const SECTOR_SIZE := 512

  type Byte = b: int | 0 <= b < 256
  type Disk = seq<seq<Byte>>

  predicate IsDisk(disk: Disk) {
    |disk| <= WORD_LIMIT && forall i :: 0 <= i < |disk| ==> |disk[i]| == SECTOR_SIZE
  }

  function RoundUpDivide(dividend: nat, divisor: nat): nat
    requires divisor > 0
  {
    (dividend + divisor - 1) / divisor
  }

  function WordByte(w: Word, j: nat): Byte
    requires j < 4
  {
    if j == 0 then w % 0x100
    else if j == 1 then w / 0x100 % 0x100
    else if j == 2 then w / 0x100 / 0x100 % 0x100
    else w / 0x100 / 0x100 / 0x100
  }

  function JoinBytes(b0: Byte, b1: Byte, b2: Byte, b3: Byte): Word {
    b0 + 0x100 * (b1 + 0x100 * (b2 + 0x100 * b3))
  }

  /** The bytes of a word array in memory. */
  function EncodeWords(words: seq<Word>): (r: seq<Byte>)
    ensures |r| == 4 * |words|
  {
    seq(4 * |words|, k requires 0 <= k < 4 * |words| => WordByte(words[k / 4], k % 4))
  }

  /** The word array that `bytes` holds. */
  function DecodeWords(bytes: seq<Byte>): (r: seq<Word>)
    ensures |r| == |bytes| / 4
  {
    seq(|bytes| / 4, k requires 0 <= k < |bytes| / 4 =>
      JoinBytes(bytes[4 * k], bytes[4 * k + 1], bytes[4 * k + 2], bytes[4 * k + 3]))
  }

  /** Word `w` lies at offset `o`, its low byte first. */
  ghost predicate WordAt(bytes: seq<Byte>, o: nat, w: nat) {
    && o + 4 <= |bytes|
    && var b0: int, b1: int, b2: int, b3: int := bytes[o], bytes[o + 1], bytes[o + 2], bytes[o + 3];
      b0 + 0x100 * b1 + 0x1_0000 * b2 + 0x100_0000 * b3 == w
  }

  /** Where the bytes of stored words lie. */
  lemma EncodedWords(words: seq<Word>)
    ensures forall k: nat :: k < |words| ==> WordAt(EncodeWords(words), 4 * k, words[k])
  {
    forall k: nat | k < |words| ensures WordAt(EncodeWords(words), 4 * k, words[k]) {
      EncodedWord(words, k);
    }
  }

  lemma EncodedWord(words: seq<Word>, k: nat)
    requires k < |words|
    ensures WordAt(EncodeWords(words), 4 * k, words[k])
  {
    EncodedByte(words, k, 0);
    EncodedByte(words, k, 1);
    EncodedByte(words, k, 2);
    EncodedByte(words, k, 3);
    hide *;
    LowByteFirst(EncodeWords(words), 4 * k, words[k]);
  }

  lemma LowByteFirst(bytes: seq<Byte>, o: nat, w: Word)
    requires o + 4 <= |bytes| && bytes[o] == WordByte(w, 0) && bytes[o + 1] == WordByte(w, 1)
    requires bytes[o + 2] == WordByte(w, 2) && bytes[o + 3] == WordByte(w, 3)
    ensures WordAt(bytes, o, w)
  {
  }

  /** Which bytes loaded words come from. */
  lemma DecodedWords(bytes: seq<Byte>)
    ensures forall k: nat :: k < |bytes| / 4 ==> WordAt(bytes, 4 * k, DecodeWords(bytes)[k])
  {
  }

  lemma JoinWordBytes(w: Word)
    ensures JoinBytes(WordByte(w, 0), WordByte(w, 1), WordByte(w, 2), WordByte(w, 3)) == w
  {
  }

  lemma EncodedByte(words: seq<Word>, k: nat, j: nat)
    requires k < |words| && j < 4
    ensures EncodeWords(words)[4 * k + j] == WordByte(words[k], j)
  {
    assert (4 * k + j) / 4 == k && (4 * k + j) % 4 == j;
  }

  /** Storing a word array and loading it again gives the array back. */
  lemma DecodeEncode(words: seq<Word>)
    ensures DecodeWords(EncodeWords(words)) == words
  {
    forall k | 0 <= k < |words| ensures DecodeWords(EncodeWords(words))[k] == words[k] {
      EncodedByte(words, k, 0);
      EncodedByte(words, k, 1);
      EncodedByte(words, k, 2);
      EncodedByte(words, k, 3);
      JoinWordBytes(words[k]);
    }
  }
}
