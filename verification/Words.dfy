/** Sectors as bytes, and the 32-bit little-endian word view that the file
    system lays over them for index blocks and on-disk inodes. */
module Words {

  type byte = n: int | 0 <= n < 256

  const SECTOR_SIZE: nat := 512
  const WORDS_PER_SECTOR: nat := 128

  type Sector = s: seq<byte> | |s| == SECTOR_SIZE witness seq(SECTOR_SIZE, _ => 0)

  function Zeros(n: nat): (s: seq<byte>)
    ensures |s| == n && forall k :: 0 <= k < n ==> s[k] == 0
  {
    seq(n, _ => 0)
  }

  const ZERO_SECTOR: Sector := Zeros(SECTOR_SIZE)

  type Word = n: int | 0 <= n < 0x1_0000_0000

  /** A sector read as an array of 128 unsigned 32-bit words. */
  type Words = w: seq<Word> | |w| == WORDS_PER_SECTOR witness seq(WORDS_PER_SECTOR, _ => 0)

  const ZERO_WORDS: Words := seq(WORDS_PER_SECTOR, _ => 0)

  function WordByte(w: Word, k: nat): byte
    requires k < 4
  {
    if k == 0 then w % 0x100
    else if k == 1 then w / 0x100 % 0x100
    else if k == 2 then w / 0x100 / 0x100 % 0x100
    else w / 0x100 / 0x100 / 0x100
  }

  function WordAt(s: seq<byte>, at: nat): Word
    requires at + 4 <= |s|
  {
    var a: int, b: int, c: int, d: int := s[at], s[at + 1], s[at + 2], s[at + 3];
    a + 0x100 * (b + 0x100 * (c + 0x100 * d))
  }

  /** Words are stored with the least significant byte first. */
  lemma LittleEndian(s: seq<byte>, at: nat)
    requires at + 4 <= |s|
    ensures WordAt(s, at) as int == s[at] as int + 256 * s[at + 1] as int + 65536 * s[at + 2] as int
                                    + 16777216 * s[at + 3] as int
  {
  }

  function WordBytes(w: Word): (s: seq<byte>)
    ensures |s| == 4 && WordAt(s, 0) == w
  {
    [WordByte(w, 0), WordByte(w, 1), WordByte(w, 2), WordByte(w, 3)]
  }

  /** The bytes of a sector that holds the words w. */
  function Pack(w: Words): (s: Sector) {
    seq(SECTOR_SIZE, k requires 0 <= k < SECTOR_SIZE => WordByte(w[k / 4], k % 4))
  }

  /** The words a sector's bytes spell. */
  function Unpack(s: Sector): (w: Words) {
    seq(WORDS_PER_SECTOR, i requires 0 <= i < WORDS_PER_SECTOR => WordAt(s, 4 * i))
  }

  lemma PackedWord(w: Words, i: nat)
    requires i < WORDS_PER_SECTOR
    ensures WordAt(Pack(w), 4 * i) == w[i]
  {
    var s := Pack(w);
    assert s[4 * i] == WordByte(w[i], 0);
    assert s[4 * i + 1] == WordByte(w[i], 1);
    assert s[4 * i + 2] == WordByte(w[i], 2);
    assert s[4 * i + 3] == WordByte(w[i], 3);
  }

  /** Storing words and loading them back is the identity. */
  lemma UnpackPack(w: Words)
    ensures Unpack(Pack(w)) == w
  {
    hide Pack;
    forall i | 0 <= i < WORDS_PER_SECTOR
      ensures Unpack(Pack(w))[i] == w[i]
    {
      PackedWord(w, i);
    }
  }

  /** A sector of zeros is an index block without pointers. */
  lemma ZeroSectorIsZeroWords()
    ensures Pack(ZERO_WORDS) == ZERO_SECTOR
    ensures Unpack(ZERO_SECTOR) == ZERO_WORDS
  {
    assert forall k :: 0 <= k < SECTOR_SIZE ==> Pack(ZERO_WORDS)[k] == 0;
    UnpackPack(ZERO_WORDS);
  }
}
