/** Bytes, 32-bit words and disk blocks, as ass5/final_repo uses them:
    a block is BSIZE bytes, and the kernel reads parts of it as little-endian
    uints by casting the byte pointer. */
module Words {
  type byte = x: int | 0 <= x < 256

  const TWO32: nat := 0x1_0000_0000
  type uint32 = x: int | 0 <= x < TWO32

  const BSIZE: nat := 512
  const WORDS_PER_BLOCK: nat := BSIZE / 4

  type Block = s: seq<byte> | |s| == BSIZE witness seq(BSIZE, _ => 0)

  function ZeroBlock(): (b: Block)
    ensures forall i | 0 <= i < BSIZE :: b[i] == 0
  {
    seq(BSIZE, _ => 0)
  }

  /** No element comes twice. */
  ghost predicate Distinct<T>(s: seq<T>) {
    forall i, j | 0 <= i < j < |s| :: s[i] != s[j]
  }

  datatype Option<+T> = None | Some(value: T)

  function Pow2(k: nat): (r: nat)
    ensures r > 0
  {
    if k == 0 then 1 else 2 * Pow2(k - 1)
  }

  /** Unsigned addition as the processor does it. */
  function Add32(a: uint32, b: uint32): uint32 {
    (a + b) % TWO32
  }

  /** The test `off + n < off` for wrap-around. */
  lemma Add32Wraps(a: uint32, b: uint32)
    ensures Add32(a, b) < a <==> a + b >= TWO32
  {
  }

  /** `((uint*)data)[i]` */
  function GetU32(b: Block, i: nat): uint32
    requires i < WORDS_PER_BLOCK
  {
    var b0: int, b1: int, b2: int, b3: int := b[4 * i], b[4 * i + 1], b[4 * i + 2], b[4 * i + 3];
    b0 + 0x100 * b1 + 0x1_0000 * b2 + 0x100_0000 * b3
  }

  /** `((uint*)data)[i] = v` */
  function PutU32(b: Block, i: nat, v: uint32): Block
    requires i < WORDS_PER_BLOCK
  {
    b[4 * i := v % 0x100]
    [4 * i + 1 := v / 0x100 % 0x100]
    [4 * i + 2 := v / 0x1_0000 % 0x100]
    [4 * i + 3 := v / 0x100_0000]
  }

  /** A stored word reads back, and the other words of the block do not change. */
  lemma PutGetU32(b: Block, i: nat, v: uint32, j: nat)
    requires i < WORDS_PER_BLOCK && j < WORDS_PER_BLOCK
    ensures GetU32(PutU32(b, i, v), j) == if i == j then v else GetU32(b, j)
  {
    var c := PutU32(b, i, v);
    if i == j {
      assert v / 0x1_0000 == v / 0x100 / 0x100 && v / 0x100_0000 == v / 0x1_0000 / 0x100;
    } else {
      assert c[4 * j] == b[4 * j] && c[4 * j + 1] == b[4 * j + 1];
      assert c[4 * j + 2] == b[4 * j + 2] && c[4 * j + 3] == b[4 * j + 3];
    }
  }

  lemma ZeroBlockWords(i: nat)
    requires i < WORDS_PER_BLOCK
    ensures GetU32(ZeroBlock(), i) == 0
  {
  }
}
