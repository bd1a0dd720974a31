/** A sector seen as a table of 32-bit little-endian words, which is how inodes
    and pointer tables lie on the disk (filesys/inode.c). */
module SectorWords {
  import opened Device

  const WORDS := 128          // PTRS_PER_SECTOR
  const WORD_LIMIT := 0x1_0000_0000

  function FromBytes(a: byte, b: byte, c: byte, d: byte): (w: nat)
    ensures w < WORD_LIMIT
  {
    a as int + 0x100 * (b as int + 0x100 * (c as int + 0x100 * (d as int)))
  }

  function ToBytes(w: nat): (s: seq<byte>)
    requires w < WORD_LIMIT
    ensures |s| == 4
    ensures FromBytes(s[0], s[1], s[2], s[3]) == w
  {
    var w1 := w / 0x100;
    var w2 := w1 / 0x100;
    var w3 := w2 / 0x100;
    [(w % 0x100) as byte, (w1 % 0x100) as byte, (w2 % 0x100) as byte, w3 as byte]
  }

  function Word(s: Sector, i: nat): (w: nat)
    requires i < WORDS
    ensures w < WORD_LIMIT
  {
    FromBytes(s[4 * i], s[4 * i + 1], s[4 * i + 2], s[4 * i + 3])
  }

  function PutWord(s: Sector, i: nat, w: nat): Sector
    requires i < WORDS && w < WORD_LIMIT
  {
    s[..4 * i] + ToBytes(w) + s[4 * i + 4..]
  }

  /** Storing a word changes that word and no other. */
  lemma WordAfterPut(s: Sector, i: nat, w: nat, j: nat)
    requires i < WORDS && w < WORD_LIMIT && j < WORDS
    ensures Word(PutWord(s, i, w), j) == if j == i then w else Word(s, j)
  {
    hide FromBytes, ToBytes;
    var t := PutWord(s, i, w);
    assert forall k :: 0 <= k < 4 ==> t[4 * i + k] == ToBytes(w)[k];
    assert forall k :: 0 <= k < SECTOR_SIZE && !(4 * i <= k < 4 * i + 4) ==> t[k] == s[k];
  }
}
