/** Disk blocks as bytes, and the two other ways the kernel reads them: as an array of 128
    little-endian words (an indirect block) and as an array of 4096 bits (a bitmap block). */
module Blocks {
  import opened Common

  const BSIZE: nat := 512
  const NINDIRECT: nat := 128
  const BPB: nat := 4096

  type Block = b: seq<byte> | |b| == BSIZE witness seq(BSIZE, _ => 0)

  function Zero(): Block { seq(BSIZE, _ => 0) }

  // Byte `t` of block `bn` of a file.
  lemma InBlock(bn: nat, t: nat)
    requires t < BSIZE
    ensures (BSIZE * bn + t) / BSIZE == bn && (BSIZE * bn + t) % BSIZE == t
  {
  }

  // ----- words

  function Word(b: Block, j: nat): nat
    requires j < NINDIRECT
  {
    b[4 * j] as nat + 0x100 * b[4 * j + 1] as nat
      + 0x1_0000 * b[4 * j + 2] as nat + 0x100_0000 * b[4 * j + 3] as nat
  }

  function PutWord(b: Block, j: nat, v: nat): Block
    requires j < NINDIRECT && v < 0x1_0000_0000
  {
    b[4 * j := (v % 0x100) as byte]
     [4 * j + 1 := (v / 0x100 % 0x100) as byte]
     [4 * j + 2 := (v / 0x1_0000 % 0x100) as byte]
     [4 * j + 3 := (v / 0x100_0000) as byte]
  }

  lemma PutThenWord(b: Block, j: nat, v: nat, k: nat)
    requires j < NINDIRECT && k < NINDIRECT && v < 0x1_0000_0000
    ensures Word(PutWord(b, j, v), k) == if k == j then v else Word(b, k)
  {
    var b' := PutWord(b, j, v);
    if k == j {
      Digits(v);
      assert b'[4 * j] as nat == v % 0x100 && b'[4 * j + 1] as nat == v / 0x100 % 0x100;
      assert b'[4 * j + 2] as nat == v / 0x1_0000 % 0x100 && b'[4 * j + 3] as nat == v / 0x100_0000;
    } else {
      assert b'[4 * k] == b[4 * k] && b'[4 * k + 1] == b[4 * k + 1];
      assert b'[4 * k + 2] == b[4 * k + 2] && b'[4 * k + 3] == b[4 * k + 3];
    }
  }

  /** A word is its four bytes, the lowest first. */
  lemma WordBytes(b: Block, j: nat)
    requires j < NINDIRECT
    ensures Word(b, j) % 0x100 == b[4 * j] as nat
    ensures Word(b, j) / 0x100 % 0x100 == b[4 * j + 1] as nat
    ensures Word(b, j) / 0x1_0000 % 0x100 == b[4 * j + 2] as nat
    ensures Word(b, j) / 0x100_0000 == b[4 * j + 3] as nat
  {
    var top := b[4 * j + 3] as nat;
    var mid := b[4 * j + 2] as nat + 0x100 * top;
    var high := b[4 * j + 1] as nat + 0x100 * mid;
    LowByte(b[4 * j] as nat, high);
    LowByte(b[4 * j + 1] as nat, mid);
    LowByte(b[4 * j + 2] as nat, top);
    assert Word(b, j) == b[4 * j] as nat + 0x100 * high;
    Shifted(Word(b, j));
  }

  lemma LowByte(a: nat, high: nat)
    requires a < 0x100
    ensures (a + 0x100 * high) % 0x100 == a && (a + 0x100 * high) / 0x100 == high
  {
  }

  lemma Digits(v: nat)
    requires v < 0x1_0000_0000
    ensures v == v % 0x100 + 0x100 * (v / 0x100 % 0x100) + 0x1_0000 * (v / 0x1_0000 % 0x100)
                 + 0x100_0000 * (v / 0x100_0000)
  {
    var high := v / 0x100;
    Shifted(v);
    Shifted(high);
    assert high == high % 0x100 + 0x100 * (high / 0x100);
    assert high / 0x100 == high / 0x100 % 0x100 + 0x100 * (high / 0x100 / 0x100);
  }

  lemma Shifted(v: nat)
    ensures v / 0x100 / 0x100 == v / 0x1_0000 && v / 0x1_0000 / 0x100 == v / 0x100_0000
  {
  }

  lemma ZeroWord(j: nat)
    requires j < NINDIRECT
    ensures Word(Zero(), j) == 0
  {
  }

  // ----- bits

  // (x & 1 << k) != 0
  predicate TestBit(x: nat, k: nat) {
    if k == 0 then x % 2 == 1 else TestBit(x / 2, k - 1)
  }

  // x | 1 << k when `on`, and x & ~(1 << k) when not
  function PutBit(x: nat, k: nat, on: bool): nat {
    if k == 0 then x / 2 * 2 + (if on then 1 else 0) else PutBit(x / 2, k - 1, on) * 2 + x % 2
  }

  lemma {:induction false} PutBitFits(x: nat, k: nat, on: bool, top: nat)
    requires k < top && x < Power2(top)
    ensures PutBit(x, k, on) < Power2(top)
  {
    var half := Power2(top - 1);
    assert Power2(top) == 2 * half;
    Halved(x, half);
    if k > 0 {
      PutBitFits(x / 2, k - 1, on, top - 1);
      assert PutBit(x, k, on) == PutBit(x / 2, k - 1, on) * 2 + x % 2;
    }
  }

  lemma Halved(x: nat, half: nat)
    requires x < 2 * half
    ensures x / 2 < half && x / 2 * 2 + 1 < 2 * half
  {
  }

  function Power2(n: nat): (r: nat)
    ensures r > 0
  {
    if n == 0 then 1 else 2 * Power2(n - 1)
  }

  lemma {:induction false} PutThenTest(x: nat, k: nat, on: bool, j: nat)
    ensures TestBit(PutBit(x, k, on), j) <==> if j == k then on else TestBit(x, j)
  {
    if k > 0 && j > 0 {
      PutThenTest(x / 2, k - 1, on, j - 1);
    }
  }

  predicate Bit(b: Block, bi: nat)
    requires bi < BPB
  {
    TestBit(b[bi / 8] as nat, bi % 8)
  }

  lemma {:induction false} TestBitIs(x: nat, k: nat)
    ensures TestBit(x, k) <==> x / Power2(k) % 2 == 1
  {
    if k > 0 {
      TestBitIs(x / 2, k - 1);
      DividedTwice(x, 2, Power2(k - 1));
    }
  }

  /** Bit `bi` is bit `bi` % 8 of byte `bi` / 8, counted from the lowest. */
  lemma BitIs(b: Block, bi: nat)
    requires bi < BPB
    ensures Bit(b, bi) <==> b[bi / 8] as nat / Power2(bi % 8) % 2 == 1
  {
    TestBitIs(b[bi / 8] as nat, bi % 8);
  }

  // The bitmap block with bit `bi` set or cleared.
  function WithBit(b: Block, bi: nat, on: bool): Block
    requires bi < BPB
  {
    PutBitFits(b[bi / 8] as nat, bi % 8, on, 8);
    b[bi / 8 := PutBit(b[bi / 8] as nat, bi % 8, on) as byte]
  }

  lemma BitAfter(b: Block, bi: nat, on: bool, c: nat)
    requires bi < BPB && c < BPB
    ensures Bit(WithBit(b, bi, on), c) <==> if c == bi then on else Bit(b, c)
  {
    PutBitFits(b[bi / 8] as nat, bi % 8, on, 8);
    PutThenTest(b[bi / 8] as nat, bi % 8, on, c % 8);
  }
}
