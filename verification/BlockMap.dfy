// block_map_t as it lies in a 512-byte block: 128 little-endian words of 32 bits, the
// first one the link to the next map.
module BlockMaps {
  import opened Bytes
  import opened Blocks

  const BMAP_BLOCKS := 127
  const INODE_NULL := 0
  const WORD_LIMIT := 0x1_0000_0000

  type Word = w: nat | w < WORD_LIMIT
  type Slots = s: seq<Word> | |s| == BMAP_BLOCKS witness seq(BMAP_BLOCKS, _ => 0)

  datatype BlockMap = BlockMap(next: Word, blocks: Slots)

  function WordAt(d: Block, i: nat): Word
    requires i < BMAP_BLOCKS + 1
  {
    d[4 * i] as nat + 0x100 * d[4 * i + 1] as nat + 0x1_0000 * d[4 * i + 2] as nat + 0x100_0000 * d[4 * i + 3] as nat
  }

  function Decode(d: Block): BlockMap {
    BlockMap(WordAt(d, 0), seq(BMAP_BLOCKS, i requires 0 <= i < BMAP_BLOCKS => WordAt(d, i + 1)))
  }

  /** Digit `k` of a word in base 256. */
  function Digit(w: nat, k: nat): (r: nat)
    ensures r < 0x100
  {
    if k == 0 then w % 0x100 else Digit(w / 0x100, k - 1)
  }

  function WordByte(w: Word, k: nat): bv8
    requires k < 4
  {
    Digit(w, k) as bv8
  }

  function WordOf(m: BlockMap, i: nat): Word
    requires i < BMAP_BLOCKS + 1
  {
    if i == 0 then m.next else m.blocks[i - 1]
  }

  function Encode(m: BlockMap): Block {
    seq(BLOCK_SIZE, k requires 0 <= k < BLOCK_SIZE => WordByte(WordOf(m, k / 4), k % 4))
  }

  lemma WordByteValue(w: Word, k: nat)
    requires k < 4
    ensures WordByte(w, k) as nat == Digit(w, k)
  {
    hide Digit;
    ByteRoundTrip(Digit(w, k));
  }

  lemma DigitsSum(w: Word)
    ensures Digit(w, 0) + 0x100 * Digit(w, 1) + 0x1_0000 * Digit(w, 2) + 0x100_0000 * Digit(w, 3) == w
  {
    hide Digit;
    var a := w / 0x100;
    var b := a / 0x100;
    var c := b / 0x100;
    DigitNext(w, 0);
    DigitNext(w, 1);
    DigitNext(a, 0);
    DigitNext(w, 2);
    DigitNext(a, 1);
    DigitNext(b, 0);
    DigitNext(c, 0);
    assert c < 0x100;
  }

  lemma DigitNext(w: nat, k: nat)
    ensures Digit(w, k + 1) == Digit(w / 0x100, k)
    ensures Digit(w, 0) == w % 0x100 && w == 0x100 * (w / 0x100) + w % 0x100
  {
  }

  lemma EncodedBytes(m: BlockMap, i: nat)
    requires i < BMAP_BLOCKS + 1
    ensures var d, w := Encode(m), WordOf(m, i);
            && d[4 * i] == WordByte(w, 0) && d[4 * i + 1] == WordByte(w, 1)
            && d[4 * i + 2] == WordByte(w, 2) && d[4 * i + 3] == WordByte(w, 3)
  {
    hide WordByte;
  }

  lemma WordRoundTrip(m: BlockMap, i: nat)
    requires i < BMAP_BLOCKS + 1
    ensures WordAt(Encode(m), i) == WordOf(m, i)
  {
    hide Digit, WordByte, Encode, WordOf;
    EncodedBytes(m, i);
    var w := WordOf(m, i);
    WordByteValue(w, 0);
    WordByteValue(w, 1);
    WordByteValue(w, 2);
    WordByteValue(w, 3);
    DigitsSum(w);
  }

  /** Where the fields lie: the link in the first four bytes and slot `i` in the four from
      4 * (i + 1), the least significant byte first. */
  lemma FieldsLie(m: BlockMap, i: nat)
    requires i < BMAP_BLOCKS
    ensures var d := Encode(m);
            && d[0] as nat + 0x100 * d[1] as nat + 0x1_0000 * d[2] as nat + 0x100_0000 * d[3] as nat == m.next
            && var o := 4 * (i + 1);
               d[o] as nat + 0x100 * d[o + 1] as nat + 0x1_0000 * d[o + 2] as nat + 0x100_0000 * d[o + 3] as nat
               == m.blocks[i]
  {
    hide Encode;
    WordRoundTrip(m, 0);
    WordRoundTrip(m, i + 1);
  }

  /** Writing a map and reading the block back as a map gives the same map. */
  lemma DecodeEncode(m: BlockMap)
    ensures Decode(Encode(m)) == m
  {
    hide WordAt, Encode;
    forall i | 0 <= i < BMAP_BLOCKS + 1 ensures WordAt(Encode(m), i) == WordOf(m, i) {
      WordRoundTrip(m, i);
    }
    assert Decode(Encode(m)).blocks == m.blocks;
  }

  /** The map that lies in block `b` of a disk. */
  function MapAt(d: Disk, b: nat): BlockMap {
    Decode(BlockAt(d, b))
  }

  const EMPTY_MAP := BlockMap(INODE_NULL, seq(BMAP_BLOCKS, _ => INODE_NULL))

  /** A block of zeros reads as an empty map with no successor. */
  lemma ZerosDecode()
    ensures Decode(Zeros(BLOCK_SIZE)) == EMPTY_MAP
  {
    assert forall i :: 0 <= i < BMAP_BLOCKS + 1 ==> WordAt(Zeros(BLOCK_SIZE), i) == 0;
    assert Decode(Zeros(BLOCK_SIZE)).blocks == EMPTY_MAP.blocks;
  }
}
