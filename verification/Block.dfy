/** Disk blocks: 512 bytes, also read as 128 little-endian 32-bit words and as 4096 bits. */
module Block {
  const BSIZE: nat := 512
  const WORDS: nat := 128
  const MAXWORD: nat := 0x1_0000_0000

  type byte = x: int | 0 <= x < 256
  type Block = b: seq<byte> | |b| == BSIZE witness seq(BSIZE, _ => 0)

  function Zero(): (z: Block)
  {
    seq(BSIZE, _ => 0)
  }

  // Words -----------------------------------------------------------------

  function Word(b: Block, i: nat): (w: nat)
    requires i < WORDS
    ensures w < MAXWORD
  {
    var b0: int, b1: int, b2: int, b3: int := b[4 * i], b[4 * i + 1], b[4 * i + 2], b[4 * i + 3];
    b0 + 0x100 * (b1 + 0x100 * (b2 + 0x100 * b3))
  }

  function SetWord(b: Block, i: nat, w: nat): (b': Block)
    requires i < WORDS && w < MAXWORD
    ensures forall j: nat | j < WORDS :: Word(b', j) == if j == i then w else Word(b, j)
  {
    var w1 := w / 0x100;
    var w2 := w1 / 0x100;
    var w3 := w2 / 0x100;
    b[4 * i := w % 0x100][4 * i + 1 := w1 % 0x100][4 * i + 2 := w2 % 0x100][4 * i + 3 := w3]
  }

  lemma ZeroWords()
    ensures forall i: nat | i < WORDS :: Word(Zero(), i) == 0
  {
  }

  // Bits ------------------------------------------------------------------

  /** `(b & (1 << k)) != 0` */
  predicate Bit(b: nat, k: nat)
  {
    if k == 0 then b % 2 == 1 else Bit(b / 2, k - 1)
  }

  /** `b | (1 << k)` */
  function Or(b: nat, k: nat): (b': nat)
    ensures forall j: nat :: Bit(b', j) <==> j == k || Bit(b, j)
  {
    if k > 0 then b % 2 + 2 * Or(b / 2, k - 1) else if b % 2 == 1 then b else b + 1
  }

  /** `b & ~(1 << k)` */
  function AndNot(b: nat, k: nat): (b': nat)
    ensures forall j: nat :: Bit(b', j) <==> j != k && Bit(b, j)
  {
    if k > 0 then b % 2 + 2 * AndNot(b / 2, k - 1) else b - b % 2
  }

  function Pow2(n: nat): (p: nat)
  {
    if n == 0 then 1 else 2 * Pow2(n - 1)
  }

  lemma {:induction false} OrFits(b: nat, k: nat, n: nat)
    requires b < Pow2(n) && k < n
    ensures Or(b, k) < Pow2(n)
  {
    var h, p := b / 2, Pow2(n - 1);
    assert b == 2 * h + b % 2 && Pow2(n) == 2 * p && h < p;
    if k > 0 {
      OrFits(h, k - 1, n - 1);
      var r := Or(h, k - 1);
      assert Or(b, k) == b % 2 + 2 * r;
    } else {
      assert Or(b, k) <= 2 * h + 1;
    }
  }

  lemma {:induction false} AndNotFits(b: nat, k: nat)
    ensures AndNot(b, k) <= b
  {
    if k > 0 {
      AndNotFits(b / 2, k - 1);
    }
  }

  function SetBit(b: byte, k: nat): (b': byte)
    requires k < 8
    ensures forall j: nat :: Bit(b', j) <==> j == k || Bit(b, j)
  {
    assert Pow2(8) == 256;
    OrFits(b, k, 8);
    Or(b, k)
  }

  function ClearBit(b: byte, k: nat): (b': byte)
    requires k < 8
    ensures forall j: nat :: Bit(b', j) <==> j != k && Bit(b, j)
  {
    AndNotFits(b, k);
    AndNot(b, k)
  }
}
