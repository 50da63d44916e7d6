/** The block and file layers of the kernel: `balloc`, `bfree`, `bmap`, `itrunc`, `readi` and
    `writei` over a disk reached through the buffer cache. */
module Fs {
  import opened Blocks
  import opened Common
  import opened FsState
  import opened FsSteps

  const T_DEV := 3
  const NDEV := 10

  // No block below the end of the file is missing.
  ghost predicate NoHoles(sb: Super, d: Disk, ip: Inode)
    requires Fits(sb, d) && InodeFits(sb, ip)
  {
    forall bn: nat | bn < MAXFILE && bn * BSIZE < ip.size :: Slots(sb, d, ip)[SlotOf(bn)] != 0
  }

  ghost predicate Full(sb: Super, d: Disk) {
    Fits(sb, d) && forall c: nat | c < sb.size :: Used(sb, d, c)
  }

  // ----- the bits of the bitmap, of which the last block has more than the disk has blocks

  ghost predicate InBitmap(sb: Super, c: nat) { c / BPB * BPB < sb.size }

  ghost predicate BitSet(sb: Super, d: Disk, c: nat)
    requires Fits(sb, d) && InBitmap(sb, c)
  {
    Bit(d[BBlock(sb, c)], c % BPB)
  }

  ghost predicate NoneClear(sb: Super, d: Disk)
    requires Fits(sb, d)
  {
    forall c: nat | InBitmap(sb, c) :: BitSet(sb, d, c)
  }

  // The bits below `n` are set.
  ghost predicate SetBelow(sb: Super, d: Disk, n: nat)
    requires Fits(sb, d)
  {
    forall c: nat | c < n && InBitmap(sb, c) :: BitSet(sb, d, c)
  }

  // The lowest clear bit.
  ghost predicate FirstClear(sb: Super, d: Disk, b: nat)
    requires Fits(sb, d)
  {
    InBitmap(sb, b) && !BitSet(sb, d, b) && SetBelow(sb, d, b)
  }

  lemma BelowUsed(sb: Super, d: Disk, n: nat)
    requires Fits(sb, d) && SetBelow(sb, d, n)
    ensures forall c: nat | c < n && c < sb.size :: Used(sb, d, c)
  {
    forall c: nat | c < n && c < sb.size ensures Used(sb, d, c) {
      assert BitSet(sb, d, c);
    }
  }

  // No bit at or past the end of the disk is set.
  ghost predicate TailClear(sb: Super, d: Disk)
    requires Fits(sb, d)
  {
    forall c: nat | sb.size <= c && InBitmap(sb, c) :: !BitSet(sb, d, c)
  }

  // What the kernel does to the disk: it sets or clears the bit of a block, or writes a block
  // that is not part of the bitmap.
  datatype DiskOp = SetBit(b: nat, on: bool) | Put(b: nat, blk: Block)

  ghost predicate Applied(sb: Super, d: Disk, op: DiskOp, d': Disk) {
    Fits(sb, d) && Fits(sb, d') && op.b < sb.size &&
    match op
    case SetBit(b, on) => d' == Mark(sb, d, b, on)
    case Put(b, blk) => !(sb.FirstBitmap() <= b < sb.First()) && d' == d[b := blk]
  }

  lemma TailStep(sb: Super, d: Disk, op: DiskOp, d': Disk)
    requires Applied(sb, d, op, d') && TailClear(sb, d)
    ensures TailClear(sb, d')
  {
    forall c: nat | sb.size <= c && InBitmap(sb, c) ensures !BitSet(sb, d', c) {
      assert !BitSet(sb, d, c);
      if op.SetBit? {
        BitAfter(d[BBlock(sb, op.b)], op.b % BPB, op.on, c % BPB);
        OtherBit(op.b, c);
      }
    }
  }

  lemma OtherBit(b: nat, c: nat)
    requires b != c
    ensures b / BPB != c / BPB || b % BPB != c % BPB
  {
  }

  /** The first time `balloc` is called on a full disk, however it got full since the bits past its end
      were last clear: the number returned is the size of the disk, one past its last block, unless
      the disk is a whole number of bitmap blocks. */
  lemma {:induction false} FirstFullBalloc(sb: Super, ds: seq<Disk>, ops: seq<DiskOp>, n: nat)
    requires |ds| == |ops| + 1 && n <= |ops| && Fits(sb, ds[0]) && TailClear(sb, ds[0])
    requires forall k: nat | k < n :: Applied(sb, ds[k], ops[k], ds[k + 1])
    ensures Fits(sb, ds[n]) && TailClear(sb, ds[n])
    ensures Full(sb, ds[n]) ==>
      if sb.size % BPB == 0 then NoneClear(sb, ds[n]) else FirstClear(sb, ds[n], sb.size)
  {
    if n > 0 {
      FirstFullBalloc(sb, ds, ops, n - 1);
      assert Applied(sb, ds[n - 1], ops[n - 1], ds[n - 1 + 1]);
      TailStep(sb, ds[n - 1], ops[n - 1], ds[n]);
    }
    if Full(sb, ds[n]) {
      FullTail(sb, ds[n]);
    }
  }

  lemma FullTail(sb: Super, d: Disk)
    requires Full(sb, d) && TailClear(sb, d)
    ensures if sb.size % BPB == 0 then NoneClear(sb, d) else FirstClear(sb, d, sb.size)
  {
    forall c: nat | c < sb.size ensures InBitmap(sb, c) && BitSet(sb, d, c) {
      assert Used(sb, d, c);
    }
    forall c: nat | sb.size <= c && InBitmap(sb, c) ensures sb.size % BPB != 0 {
      WholeBlocks(sb.size, c);
    }
  }

  lemma WholeBlocks(size: nat, c: nat)
    requires size <= c && c / BPB * BPB < size
    ensures size % BPB != 0
  {
  }

  // Blocks are only added to a file.
  ghost predicate OnlyAdds(sl: seq<nat>, sl': seq<nat>) {
    |sl'| == |sl| && forall s | 0 <= s < |sl| && sl[s] != 0 :: sl'[s] == sl[s]
  }

  lemma SetPastEnd(sb: Super, d: Disk, bb: nat, bi: nat)
    requires Full(sb, d) && bb < sb.First() && bi < BPB
    ensures Full(sb, d[bb := WithBit(d[bb], bi, true)])
  {
    var d' := d[bb := WithBit(d[bb], bi, true)];
    forall c: nat | c < sb.size ensures Used(sb, d', c) {
      BitAfter(d[bb], bi, true, c % BPB);
      assert Used(sb, d, c);
    }
  }

  // From one consistent state to another in which inode `i` may have more blocks, while no
  // byte of any file is different.
  ghost predicate Grew(sb: Super, d: Disk, nodes: map<nat, Inode>, owner: Owners,
                       d': Disk, nodes': map<nat, Inode>, owner': Owners, i: nat)
  {
    && Inv(sb, d, nodes, owner) && Inv(sb, d', nodes', owner') && i in nodes && i in nodes'
    && nodes' == nodes[i := nodes[i].(addrs := nodes'[i].addrs)]
    && SameFile(sb, d, nodes[i], d', nodes'[i])
    && OthersSame(sb, d, d', nodes, i)
    && OnlyAdds(Slots(sb, d, nodes[i]), Slots(sb, d', nodes'[i]))
  }

  lemma GrewTwice(sb: Super, d: Disk, nodes: map<nat, Inode>, owner: Owners,
                  d1: Disk, nodes1: map<nat, Inode>, owner1: Owners,
                  d2: Disk, nodes2: map<nat, Inode>, owner2: Owners, i: nat)
    requires Grew(sb, d, nodes, owner, d1, nodes1, owner1, i)
    requires Grew(sb, d1, nodes1, owner1, d2, nodes2, owner2, i)
    ensures Grew(sb, d, nodes, owner, d2, nodes2, owner2, i)
  {
    forall j | j in nodes && j != i ensures SameFile(sb, d, nodes[j], d2, nodes[j]) {
      assert SameFile(sb, d, nodes[j], d1, nodes[j]) && SameFile(sb, d1, nodes1[j], d2, nodes1[j]);
    }
  }

  lemma GrewNot(sb: Super, d: Disk, nodes: map<nat, Inode>, owner: Owners, i: nat)
    requires Inv(sb, d, nodes, owner) && i in nodes
    ensures Grew(sb, d, nodes, owner, d, nodes, owner, i)
  {
    forall j | j in nodes ensures SameFile(sb, d, nodes[j], d, nodes[j]) {
      assert NodeOk(sb, d, nodes, owner, j);
    }
  }

  // ----- reading and writing a stretch of a file

  function Min(a: nat, b: nat): nat { if a < b then a else b }

  function Splice(b: Block, o: nat, data: seq<byte>): Block
    requires o + |data| <= BSIZE
  {
    b[..o] + data + b[o + |data|..]
  }

  // The file holds what it held before, except for the first `tot` bytes of `src` from `off` on.
  ghost predicate Written(sb: Super, d0: Disk, ip0: Inode, d: Disk, ip: Inode,
                          src: seq<byte>, off: nat, tot: nat)
  {
    && Fits(sb, d0) && Fits(sb, d) && InodeFits(sb, ip0) && InodeFits(sb, ip) && tot <= |src|
    && forall x: nat | x < MAXFILE * BSIZE ::
         FileByte(sb, d, ip, x) == if off <= x < off + tot then src[x - off] else FileByte(sb, d0, ip0, x)
  }

  lemma WrittenGrew(sb: Super, d0: Disk, ip0: Inode, d: Disk, ip: Inode, d': Disk, ip': Inode,
                    src: seq<byte>, off: nat, tot: nat)
    requires Written(sb, d0, ip0, d, ip, src, off, tot) && SameFile(sb, d, ip, d', ip')
    ensures Written(sb, d0, ip0, d', ip', src, off, tot)
  {
  }

  lemma WrittenMore(sb: Super, d0: Disk, ip0: Inode, d: Disk, d': Disk, ip: Inode,
                    src: seq<byte>, off: nat, tot: nat, m: nat, b: nat)
    requires Written(sb, d0, ip0, d, ip, src, off, tot) && Fits(sb, d')
    requires tot + m <= |src| && off + tot < MAXFILE * BSIZE && b < sb.size && b != 0
    requires (off + tot) % BSIZE + m <= BSIZE
    requires Slots(sb, d, ip)[SlotOf((off + tot) / BSIZE)] == b
    requires var blk := Splice(d[b], (off + tot) % BSIZE, src[tot..tot + m]);
             forall x: nat | x < MAXFILE * BSIZE ::
               FileByte(sb, d', ip, x)
               == if x / BSIZE == (off + tot) / BSIZE then blk[x % BSIZE] else FileByte(sb, d, ip, x)
    ensures Written(sb, d0, ip0, d', ip, src, off, tot + m)
  {
    var o, bn := (off + tot) % BSIZE, (off + tot) / BSIZE;
    forall x: nat | x < MAXFILE * BSIZE
      ensures FileByte(sb, d', ip, x)
           == if off <= x < off + tot + m then src[x - off] else FileByte(sb, d0, ip0, x)
    {
      if x / BSIZE == bn {
        assert FileByte(sb, d, ip, x) == d[b][x % BSIZE];
        assert x == bn * BSIZE + x % BSIZE && off + tot == bn * BSIZE + o;
      } else {
        assert x < bn * BSIZE || (bn + 1) * BSIZE <= x;
      }
    }
  }

  ghost predicate ReadSoFar(sb: Super, d0: Disk, ip0: Inode, dst: seq<byte>, off: nat)
    requires Fits(sb, d0) && InodeFits(sb, ip0)
  {
    off + |dst| <= MAXFILE * BSIZE
    && forall k: nat | k < |dst| :: dst[k] == FileByte(sb, d0, ip0, off + k)
  }

  lemma ReadMore(sb: Super, d0: Disk, ip0: Inode, d: Disk, ip: Inode, dst: seq<byte>, off: nat,
                 o: nat, m: nat, b: nat)
    requires SameFile(sb, d0, ip0, d, ip) && ReadSoFar(sb, d0, ip0, dst, off)
    requires off + |dst| + m <= MAXFILE * BSIZE && off + |dst| < MAXFILE * BSIZE
    requires o == (off + |dst|) % BSIZE && o + m <= BSIZE && b < sb.size && b != 0
    requires Slots(sb, d, ip)[SlotOf((off + |dst|) / BSIZE)] == b
    ensures ReadSoFar(sb, d0, ip0, dst + d[b][o..o + m], off)
  {
    var bn := (off + |dst|) / BSIZE;
    var dst' := dst + d[b][o..o + m];
    forall k: nat | k < |dst'| ensures dst'[k] == FileByte(sb, d0, ip0, off + k) {
      if k >= |dst| {
        var x, t := off + k, o + k - |dst|;
        InBlock(bn, t);
        assert x == BSIZE * bn + t;
        assert FileByte(sb, d, ip, x) == d[b][t];
        assert dst'[k] == d[b][t];
      }
    }
  }

  lemma ReadAll(sb: Super, d0: Disk, ip0: Inode, dst: seq<byte>, off: nat)
    requires Fits(sb, d0) && InodeFits(sb, ip0) && ReadSoFar(sb, d0, ip0, dst, off)
    requires off + |dst| <= ip0.size
    ensures dst == Contents(sb, d0, ip0)[off..off + |dst|]
  {
  }

  // ----- writing in progress: `tot` bytes of `src` are in file `i`

  ghost predicate Writing(sb: Super, d0: Disk, nodes0: map<nat, Inode>, d: Disk,
                          nodes: map<nat, Inode>, owner: Owners, i: nat, src: seq<byte>, off: nat, tot: nat)
  {
    && Inv(sb, d, nodes, owner) && i in nodes0 && i in nodes
    && nodes == nodes0[i := nodes0[i].(addrs := nodes[i].addrs)]
    && Written(sb, d0, nodes0[i], d, nodes[i], src, off, tot)
    && OthersSame(sb, d0, d, nodes0, i)
    && OnlyAdds(Slots(sb, d0, nodes0[i]), Slots(sb, d, nodes[i]))
    && forall bn: nat | bn < MAXFILE && 0 < tot && off / BSIZE <= bn && bn * BSIZE < off + tot ::
         Slots(sb, d, nodes[i])[SlotOf(bn)] != 0
  }

  lemma WritingNone(sb: Super, d: Disk, nodes: map<nat, Inode>, owner: Owners, i: nat,
                    src: seq<byte>, off: nat)
    requires Inv(sb, d, nodes, owner) && i in nodes
    ensures Writing(sb, d, nodes, d, nodes, owner, i, src, off, 0)
  {
    GrewNot(sb, d, nodes, owner, i);
  }

  lemma WritingGrew(sb: Super, d0: Disk, nodes0: map<nat, Inode>,
                    d: Disk, nodes: map<nat, Inode>, owner: Owners,
                    d': Disk, nodes': map<nat, Inode>, owner': Owners,
                    i: nat, src: seq<byte>, off: nat, tot: nat)
    requires Writing(sb, d0, nodes0, d, nodes, owner, i, src, off, tot)
    requires Grew(sb, d, nodes, owner, d', nodes', owner', i)
    ensures Writing(sb, d0, nodes0, d', nodes', owner', i, src, off, tot)
  {
    WrittenGrew(sb, d0, nodes0[i], d, nodes[i], d', nodes'[i], src, off, tot);
    forall j | j in nodes0 && j != i ensures SameFile(sb, d0, nodes0[j], d', nodes0[j]) {
      assert SameFile(sb, d0, nodes0[j], d, nodes0[j]) && SameFile(sb, d, nodes[j], d', nodes[j]);
    }
  }

  lemma WritingMore(sb: Super, d0: Disk, nodes0: map<nat, Inode>, d: Disk,
                    nodes: map<nat, Inode>, owner: Owners, i: nat, src: seq<byte>, off: nat,
                    tot: nat, m: nat, b: nat)
    requires Writing(sb, d0, nodes0, d, nodes, owner, i, src, off, tot)
    requires tot + m <= |src| && off + tot < MAXFILE * BSIZE && m > 0
    requires (off + tot) % BSIZE + m <= BSIZE
    requires b != 0 && b == Slots(sb, d, nodes[i])[SlotOf((off + tot) / BSIZE)]
    ensures b < sb.size
    ensures Writing(sb, d0, nodes0, d[b := Splice(d[b], (off + tot) % BSIZE, src[tot..tot + m])],
                    nodes, owner, i, src, off, tot + m)
  {
    SlotInRange(sb, d, nodes, owner, i, SlotOf((off + tot) / BSIZE));
    var blk := Splice(d[b], (off + tot) % BSIZE, src[tot..tot + m]);
    var d' := d[b := blk];
    WriteData(sb, d, nodes, owner, i, (off + tot) / BSIZE, blk);
    WrittenMore(sb, d0, nodes0[i], d, d', nodes[i], src, off, tot, m, b);
    forall j | j in nodes0 && j != i ensures SameFile(sb, d0, nodes0[j], d', nodes0[j]) {
      assert SameFile(sb, d0, nodes0[j], d, nodes0[j]) && SameFile(sb, d, nodes[j], d', nodes[j]);
    }
  }

  // A block a file has is a data block.
  lemma SlotInRange(sb: Super, d: Disk, nodes: map<nat, Inode>, owner: Owners, i: nat, s: nat)
    requires Inv(sb, d, nodes, owner) && i in nodes && s < SLOTS
    ensures NodeOk(sb, d, nodes, owner, i)
    ensures var b := Slots(sb, d, nodes[i])[s]; b != 0 ==> sb.First() <= b < sb.size
  {
    assert NodeOk(sb, d, nodes, owner, i);
    var b := Slots(sb, d, nodes[i])[s];
    if b != 0 {
      assert OwnedBy(owner, b, i, s);
      assert BlockOk(sb, d, owner, b);
    }
  }

  /** `Written`, for whole files: the written stretch replaces what was there and may extend the
      end of the file. */
  lemma WrittenSplices(sb: Super, d0: Disk, ip0: Inode, d: Disk, ip: Inode,
                       src: seq<byte>, off: nat, m: nat)
    requires Written(sb, d0, ip0, d, ip, src, off, m)
    requires off <= ip0.size && ip.size == if off + m > ip0.size then off + m else ip0.size
    ensures var before := Contents(sb, d0, ip0);
            Contents(sb, d, ip)
            == before[..off] + src[..m] + (if off + m < ip0.size then before[off + m..] else [])
  {
  }

  // ----- truncation in progress: inode `i` still holds `sl`

  ghost predicate Trimming(sb: Super, d0: Disk, nodes: map<nat, Inode>, owner0: Owners, i: nat,
                           d: Disk, owner: Owners, sl: seq<nat>)
  {
    && InvWith(sb, d, nodes, owner, i, sl)
    && Fits(sb, d0) && OthersSame(sb, d0, d, nodes, i)
    && (forall b | b in owner :: b in owner0 && owner[b] == owner0[b])
    && (forall b | b in owner && b < sb.size :: d[b] == d0[b])
    && (forall b | b in owner0 && b !in owner :: owner0[b].inum == i)
  }

  lemma TrimOne(sb: Super, d0: Disk, nodes: map<nat, Inode>, owner0: Owners, i: nat,
                d: Disk, owner: Owners, sl: seq<nat>, s: nat)
    requires Trimming(sb, d0, nodes, owner0, i, d, owner, sl) && s < SLOTS && sl[s] != 0
    ensures sb.First() <= sl[s] < sb.size && Used(sb, d, sl[s])
    ensures Trimming(sb, d0, nodes, owner0, i, Mark(sb, d[sl[s] := Zero()], sl[s], false),
                     owner - {sl[s]}, sl[s := 0])
  {
    var b := sl[s];
    TakeBlock(sb, d, nodes, owner, i, sl, s);
    var d', owner' := Mark(sb, d[b := Zero()], b, false), owner - {b};
    assert OwnedBy(owner, b, i, s);
    assert BlockOk(sb, d, owner, b);
    forall j | j in nodes && j != i ensures SameFile(sb, d0, nodes[j], d', nodes[j]) {
      assert SameFile(sb, d0, nodes[j], d, nodes[j]) && SameFile(sb, d, nodes[j], d', nodes[j]);
    }
  }

  lemma TrimStart(sb: Super, d: Disk, nodes: map<nat, Inode>, owner: Owners, i: nat)
    requires Inv(sb, d, nodes, owner) && i in nodes
    ensures NodeOk(sb, d, nodes, owner, i)
    ensures Trimming(sb, d, nodes, owner, i, d, owner, Slots(sb, d, nodes[i]))
  {
    assert NodeOk(sb, d, nodes, owner, i);
    forall j | j in nodes ensures SameFile(sb, d, nodes[j], d, nodes[j]) {
      assert NodeOk(sb, d, nodes, owner, j);
    }
  }

  lemma TrimEnd(sb: Super, d0: Disk, nodes: map<nat, Inode>, owner0: Owners, i: nat,
                d: Disk, owner: Owners, sl: seq<nat>, ip: Inode)
    requires Trimming(sb, d0, nodes, owner0, i, d, owner, sl)
    requires forall s | 0 <= s < SLOTS :: sl[s] == 0
    requires InodeFits(sb, ip) && forall s | 0 <= s <= NDIRECT :: ip.addrs[s] == 0
    ensures Inv(sb, d, nodes[i := ip], owner)
    ensures forall b :: b in owner <==> b in owner0 && owner0[b].inum != i
  {
    assert forall s: nat | s < SLOTS :: SlotAt(sb, d, ip, s) == 0;
    assert Slots(sb, d, ip) == sl;
    NoneOwnsZero(sb, d, owner);
    InodeChanged(sb, d, nodes, owner, i, ip);
  }

  // No slot but `s` (and the indirect block, when `s` is one of its words) is different.
  ghost predicate OnlyAt(sl: seq<nat>, sl': seq<nat>, s: nat) {
    && |sl'| == |sl| == SLOTS
    && forall t | 0 <= t < SLOTS && t != s && (t != NDIRECT || s < NDIRECT) :: sl'[t] == sl[t]
  }

  lemma GrewDirect(sb: Super, d: Disk, nodes: map<nat, Inode>, owner: Owners, i: nat, s: nat, b: nat)
    requires Inv(sb, d, nodes, owner) && i in nodes && s <= NDIRECT
    requires |nodes[i].addrs| == NDIRECT + 1 && nodes[i].addrs[s] == 0
    requires b < sb.size && !Used(sb, d, b)
    ensures b >= sb.First()
    ensures var ip' := nodes[i].(addrs := nodes[i].addrs[s := b]);
            && Grew(sb, d, nodes, owner, Mark(sb, d, b, true), nodes[i := ip'], owner[b := Place(i, s)], i)
            && Slots(sb, Mark(sb, d, b, true), ip') == Slots(sb, d, nodes[i])[s := b]
  {
    assert NodeOk(sb, d, nodes, owner, i);
    assert BlockOk(sb, d, owner, b);
    GiveDirect(sb, d, nodes, owner, i, s, b);
  }

  lemma GrewIndirect(sb: Super, d: Disk, nodes: map<nat, Inode>, owner: Owners, i: nat, k: nat, b: nat)
    requires Inv(sb, d, nodes, owner) && i in nodes && k < NINDIRECT
    requires InodeFits(sb, nodes[i]) && nodes[i].addrs[NDIRECT] != 0
    requires Word(d[nodes[i].addrs[NDIRECT]], k) == 0
    requires b < sb.size && !Used(sb, d, b)
    ensures b >= sb.First()
    ensures var t := nodes[i].addrs[NDIRECT];
            var d' := Mark(sb, d, b, true)[t := PutWord(d[t], k, b)];
            && Grew(sb, d, nodes, owner, d', nodes, owner[b := Place(i, NDIRECT + 1 + k)], i)
            && Slots(sb, d', nodes[i]) == Slots(sb, d, nodes[i])[NDIRECT + 1 + k := b]
  {
    assert BlockOk(sb, d, owner, b);
    GiveIndirect(sb, d, nodes, owner, i, k, b);
  }

  lemma SameBitmapBlock(sb: Super, b0: nat, bi: nat)
    requires b0 % BPB == 0 && bi < BPB
    ensures BBlock(sb, b0 + bi) == BBlock(sb, b0) && (b0 + bi) % BPB == bi
    ensures InBitmap(sb, b0 + bi) <==> b0 < sb.size
  {
  }

  // The first `bi` bits of the block for `b0` are set.
  lemma BlockScanned(sb: Super, d: Disk, b0: nat, bi: nat)
    requires Fits(sb, d) && b0 % BPB == 0 && b0 < sb.size && bi <= BPB && SetBelow(sb, d, b0)
    requires forall k: nat | k < bi :: Bit(d[BBlock(sb, b0)], k)
    ensures SetBelow(sb, d, b0 + bi)
  {
    forall c: nat | c < b0 + bi && InBitmap(sb, c) ensures BitSet(sb, d, c) {
      if c >= b0 {
        SameBitmapBlock(sb, b0, c - b0);
      }
    }
  }

  // The search of `balloc` has come to a clear bit.
  lemma ClearFound(sb: Super, d: Disk, b: nat)
    requires Fits(sb, d) && FirstClear(sb, d, b)
    ensures !NoneClear(sb, d)
    ensures b >= sb.size <==> Full(sb, d)
    ensures b < sb.size ==> !Used(sb, d, b)
    ensures b >= sb.size ==> Full(sb, d[BBlock(sb, b) := WithBit(d[BBlock(sb, b)], b % BPB, true)])
  {
    if b >= sb.size {
      forall c: nat | c < sb.size ensures Used(sb, d, c) {
        assert InBitmap(sb, c) && BitSet(sb, d, c);
      }
      SetPastEnd(sb, d, BBlock(sb, b), b % BPB);
    } else {
      assert !Used(sb, d, b);
    }
  }

  // It has come to the end of the bitmap.
  lemma ClearNotFound(sb: Super, d: Disk, b0: nat)
    requires Fits(sb, d) && b0 % BPB == 0 && sb.size <= b0
    requires SetBelow(sb, d, b0)
    ensures NoneClear(sb, d) && Full(sb, d)
  {
    forall c: nat | InBitmap(sb, c) ensures BitSet(sb, d, c) {
      if c >= b0 {
        WholeBlocks(b0, c);
      }
    }
    forall c: nat | c < sb.size ensures Used(sb, d, c) {
      assert InBitmap(sb, c) && BitSet(sb, d, c);
    }
  }

  class FileSystem {
    const sb: Super
    var disk: Disk
    var nodes: map<nat, Inode>       // in memory
    var dinodes: map<nat, Inode>     // as last written to the inode blocks
    ghost var owner: Owners

    ghost predicate Valid()
      reads this
    {
      Inv(sb, disk, nodes, owner)
    }

    ghost function File(i: nat): seq<nat>
      requires Valid() && i in nodes
      reads this
    {
      assert NodeOk(sb, disk, nodes, owner, i);
      Slots(sb, disk, nodes[i])
    }

    // The first clear bit of a bitmap block, or BPB.
    method ScanBits(bp: Block) returns (bi: nat)
      ensures bi <= BPB && (bi < BPB ==> !Bit(bp, bi)) && forall k: nat | k < bi :: Bit(bp, k)
    {
      bi := 0;
      while bi < BPB && Bit(bp, bi)
        invariant bi <= BPB && forall k: nat | k < bi :: Bit(bp, k)
      {
        bi := bi + 1;
      }
    }

    /** The lowest clear bit of the bitmap is set.  A bitmap block has bits past the end of the disk,
        so on a full disk this is a number that is not a block, as long as one of those is clear;
        only when none is does the kernel panic. */
    method Balloc() returns (found: bool, b: nat)
      requires Fits(sb, disk)
      modifies this`disk
      ensures Fits(sb, disk)
      ensures found ==>
        && FirstClear(sb, old(disk), b)
        && disk == old(disk)[BBlock(sb, b) := WithBit(old(disk)[BBlock(sb, b)], b % BPB, true)]
      ensures found ==> forall c: nat | c < b && c < sb.size :: Used(sb, old(disk), c)
      ensures !found ==> NoneClear(sb, old(disk)) && disk == old(disk)
      ensures found && b >= sb.size <==> Full(sb, old(disk)) && !NoneClear(sb, old(disk))
      ensures found && b < sb.size ==> !Used(sb, old(disk), b) && disk == Mark(sb, old(disk), b, true)
      ensures !found || b >= sb.size ==> Full(sb, disk)
    {
      var b0 := 0;
      while b0 < sb.size
        invariant b0 % BPB == 0 && disk == old(disk) && SetBelow(sb, disk, b0)
      {
        var bp := disk[BBlock(sb, b0)];
        var bi := ScanBits(bp);
        BlockScanned(sb, disk, b0, bi);
        if bi < BPB {
          SameBitmapBlock(sb, b0, bi);
          ClearFound(sb, disk, b0 + bi);
          BelowUsed(sb, disk, b0 + bi);
          bp := WithBit(bp, bi, true);
          disk := disk[BBlock(sb, b0) := bp];
          return true, b0 + bi;
        }
        b0 := b0 + BPB;
      }
      ClearNotFound(sb, disk, b0);
      return false, 0;
    }

    /** Zeroes block `b` and clears its bit; the kernel panics on a block that is free. */
    method Bfree(b: nat)
      requires Fits(sb, disk) && sb.First() <= b < sb.size && Used(sb, disk, b)
      modifies this`disk
      ensures disk == Mark(sb, old(disk)[b := Zero()], b, false)
    {
      disk := disk[b := Zero()];
      var bp := disk[BBlock(sb, b)];
      bp := WithBit(bp, b % BPB, false);
      disk := disk[BBlock(sb, b) := bp];
    }

    // Copies the in-memory inode to its place on disk.
    method Iupdate(i: nat)
      requires i in nodes
      modifies this`dinodes
      ensures dinodes == old(dinodes)[i := nodes[i]]
    {
      dinodes := dinodes[i := nodes[i]];
    }

    // Slot `s` of the inode itself, filled by `balloc` if it is empty.
    method InodeSlot(i: nat, s: nat) returns (ok: bool, addr: nat)
      requires Valid() && i in nodes && s <= NDIRECT && |nodes[i].addrs| == NDIRECT + 1
      modifies this`disk, this`nodes, this`owner
      ensures !ok ==> Full(sb, disk)
      ensures ok ==>
        && Grew(sb, old(disk), old(nodes), old(owner), disk, nodes, owner, i)
        && addr == nodes[i].addrs[s] && addr != 0 && OnlyAt(old(File(i)), File(i), s)
      ensures old(nodes[i].addrs[s]) != 0 ==>
        ok && disk == old(disk) && nodes == old(nodes) && owner == old(owner)
    {
      addr := nodes[i].addrs[s];
      if addr != 0 {
        GrewNot(sb, disk, nodes, owner, i);
        return true, addr;
      }
      ghost var d := disk;
      ok, addr := Balloc();
      if !ok || addr >= sb.size {
        return false, 0;
      }
      GrewDirect(sb, d, nodes, owner, i, s, addr);
      nodes := nodes[i := nodes[i].(addrs := nodes[i].addrs[s := addr])];
      owner := owner[addr := Place(i, s)];
    }

    // Word `k` of the indirect block of inode `i`, filled by `balloc` if it is empty.
    method IndirectSlot(i: nat, k: nat) returns (ok: bool, addr: nat)
      requires Valid() && i in nodes && k < NINDIRECT && InodeFits(sb, nodes[i])
      requires nodes[i].addrs[NDIRECT] != 0
      modifies this`disk, this`owner
      ensures !ok ==> Full(sb, disk)
      ensures ok ==>
        && Grew(sb, old(disk), old(nodes), old(owner), disk, nodes, owner, i)
        && addr == File(i)[NDIRECT + 1 + k] && addr != 0 && OnlyAt(old(File(i)), File(i), NDIRECT + 1 + k)
      ensures old(Word(disk[nodes[i].addrs[NDIRECT]], k)) != 0 ==>
        ok && disk == old(disk) && owner == old(owner)
    {
      var bp := disk[nodes[i].addrs[NDIRECT]];
      addr := Word(bp, k);
      if addr != 0 {
        GrewNot(sb, disk, nodes, owner, i);
        return true, addr;
      }
      ghost var d := disk;
      ok, addr := Balloc();
      if !ok || addr >= sb.size {
        return false, 0;
      }
      GrewIndirect(sb, d, nodes, owner, i, k, addr);
      bp := PutWord(bp, k, addr);
      disk := disk[nodes[i].addrs[NDIRECT] := bp];
      owner := owner[addr := Place(i, NDIRECT + 1 + k)];
    }

    /** The disk block of block `bn` of file `i`, allocated if there is none.  No byte of any
        file changes, not even when blocks are allocated.  `ok` is false when the disk is full:
        the kernel has then panicked or taken a number past the end of the disk. */
    method Bmap(i: nat, bn: nat) returns (ok: bool, addr: nat)
      requires Valid() && i in nodes && bn < MAXFILE
      modifies this`disk, this`nodes, this`owner
      ensures !ok ==> Full(sb, disk)
      ensures ok ==>
        && Grew(sb, old(disk), old(nodes), old(owner), disk, nodes, owner, i)
        && addr == File(i)[SlotOf(bn)] && addr != 0 && OnlyAt(old(File(i)), File(i), SlotOf(bn))
      ensures ok && bn < NDIRECT ==> addr == nodes[i].addrs[bn]
      ensures ok && bn >= NDIRECT ==> addr == Word(disk[nodes[i].addrs[NDIRECT]], bn - NDIRECT)
      ensures old(File(i)[SlotOf(bn)]) != 0 ==>
        ok && disk == old(disk) && nodes == old(nodes) && owner == old(owner)
    {
      assert NodeOk(sb, disk, nodes, owner, i);
      if bn < NDIRECT {
        ok, addr := InodeSlot(i, bn);
      } else {
        ok, addr := ThroughIndirect(i, bn - NDIRECT);
      }
    }

    // The indirect block and then its word `k`, each filled by `balloc` if it is empty.
    method ThroughIndirect(i: nat, k: nat) returns (ok: bool, addr: nat)
      requires Valid() && i in nodes && k < NINDIRECT && |nodes[i].addrs| == NDIRECT + 1
      modifies this`disk, this`nodes, this`owner
      ensures !ok ==> Full(sb, disk)
      ensures ok ==>
        && Grew(sb, old(disk), old(nodes), old(owner), disk, nodes, owner, i)
        && addr == File(i)[NDIRECT + 1 + k] && addr != 0 && OnlyAt(old(File(i)), File(i), NDIRECT + 1 + k)
      ensures old(File(i)[NDIRECT + 1 + k]) != 0 ==>
        ok && disk == old(disk) && nodes == old(nodes) && owner == old(owner)
    {
      ghost var d0, n0, o0 := disk, nodes, owner;
      ok, addr := InodeSlot(i, NDIRECT);
      if !ok {
        return;
      }
      assert NodeOk(sb, disk, nodes, owner, i);
      ghost var d, n, o := disk, nodes, owner;
      ok, addr := IndirectSlot(i, k);
      if ok {
        GrewTwice(sb, d0, n0, o0, d, n, o, disk, nodes, owner, i);
      }
    }

    /** `bfree` of the block in slot `s` of inode `i`, which holds `sl`. */
    method FreeSlot(i: nat, b: nat, ghost s: nat, ghost sl: seq<nat>, ghost d0: Disk,
                    ghost nodes0: map<nat, Inode>, ghost owner0: Owners)
      requires Trimming(sb, d0, nodes0, owner0, i, disk, owner, sl)
      requires s < SLOTS && sl[s] == b && b != 0
      modifies this`disk, this`owner
      ensures Trimming(sb, d0, nodes0, owner0, i, disk, owner, sl[s := 0])
    {
      TrimOne(sb, d0, nodes0, owner0, i, disk, owner, sl, s);
      Bfree(b);
      owner := owner - {b};
    }

    // The first half of `itrunc`: the direct blocks.
    method TrimDirect(i: nat) returns (ghost sl: seq<nat>)
      requires Valid() && i in nodes && |nodes[i].addrs| == NDIRECT + 1
      modifies this`disk, this`nodes, this`owner
      ensures i in nodes && |nodes[i].addrs| == NDIRECT + 1
      ensures Trimming(sb, old(disk), old(nodes), old(owner), i, disk, owner, sl)
      ensures nodes == old(nodes)[i := old(nodes[i]).(addrs := nodes[i].addrs)]
      ensures nodes[i].addrs[NDIRECT] == old(nodes[i].addrs[NDIRECT])
      ensures forall t | 0 <= t < NDIRECT :: sl[t] == 0 && nodes[i].addrs[t] == 0
      ensures forall t | NDIRECT <= t < SLOTS :: sl[t] == old(File(i))[t]
    {
      ghost var d0, nodes0, owner0, sl0 := disk, nodes, owner, File(i);
      TrimStart(sb, disk, nodes, owner, i);
      sl := sl0;
      var s := 0;
      while s < NDIRECT
        invariant 0 <= s <= NDIRECT
        invariant Trimming(sb, d0, nodes0, owner0, i, disk, owner, sl)
        invariant i in nodes && |nodes[i].addrs| == NDIRECT + 1
        invariant nodes == nodes0[i := nodes0[i].(addrs := nodes[i].addrs)]
        invariant forall t | 0 <= t < s :: sl[t] == 0 && nodes[i].addrs[t] == 0
        invariant forall t | s <= t <= NDIRECT :: nodes[i].addrs[t] == nodes0[i].addrs[t]
        invariant forall t | s <= t < SLOTS :: sl[t] == sl0[t]
      {
        if nodes[i].addrs[s] != 0 {
          FreeSlot(i, nodes[i].addrs[s], s, sl, d0, nodes0, owner0);
          nodes := nodes[i := nodes[i].(addrs := nodes[i].addrs[s := 0])];
          sl := sl[s := 0];
        }
        s := s + 1;
      }
    }

    // The second half: every block the indirect block `a` lists.
    method TrimListed(i: nat, a: Block, ghost sl0: seq<nat>, ghost d0: Disk,
                      ghost nodes0: map<nat, Inode>, ghost owner0: Owners) returns (ghost sl: seq<nat>)
      requires Trimming(sb, d0, nodes0, owner0, i, disk, owner, sl0)
      requires forall k: nat | k < NINDIRECT :: sl0[NDIRECT + 1 + k] == Word(a, k)
      modifies this`disk, this`owner
      ensures Trimming(sb, d0, nodes0, owner0, i, disk, owner, sl)
      ensures forall t | 0 <= t <= NDIRECT :: sl[t] == sl0[t]
      ensures forall t | NDIRECT < t < SLOTS :: sl[t] == 0
    {
      sl := sl0;
      var j := 0;
      while j < NINDIRECT
        invariant 0 <= j <= NINDIRECT
        invariant Trimming(sb, d0, nodes0, owner0, i, disk, owner, sl)
        invariant forall t | 0 <= t <= NDIRECT :: sl[t] == sl0[t]
        invariant forall t | NDIRECT < t <= NDIRECT + j :: sl[t] == 0
        invariant forall k: nat | j <= k < NINDIRECT :: sl[NDIRECT + 1 + k] == Word(a, k)
      {
        if Word(a, j) != 0 {
          FreeSlot(i, Word(a, j), NDIRECT + 1 + j, sl, d0, nodes0, owner0);
          sl := sl[NDIRECT + 1 + j := 0];
        }
        j := j + 1;
      }
    }

    // The indirect block `t` itself, after everything it lists.
    method TrimIndirect(i: nat, t: nat, ghost sl0: seq<nat>, ghost d0: Disk,
                        ghost nodes0: map<nat, Inode>, ghost owner0: Owners) returns (ghost sl: seq<nat>)
      requires Fits(sb, d0) && i in nodes0 && InodeFits(sb, nodes0[i]) && t == nodes0[i].addrs[NDIRECT] != 0
      requires Trimming(sb, d0, nodes0, owner0, i, disk, owner, sl0)
      requires forall t | 0 <= t < NDIRECT :: sl0[t] == 0
      requires forall t: nat | NDIRECT <= t < SLOTS :: sl0[t] == SlotAt(sb, d0, nodes0[i], t)
      modifies this`disk, this`owner
      ensures Trimming(sb, d0, nodes0, owner0, i, disk, owner, sl)
      ensures forall t | 0 <= t < SLOTS :: sl[t] == 0
    {
      sl := sl0;
      assert sl[NDIRECT] == t && OwnedBy(owner, t, i, NDIRECT);
      assert disk[t] == d0[t];
      sl := TrimListed(i, disk[t], sl, d0, nodes0, owner0);
      FreeSlot(i, t, NDIRECT, sl, d0, nodes0, owner0);
      sl := sl[NDIRECT := 0];
    }

    // Every block of the inode: its slots are empty, and what is left is the inode itself.
    method TrimBlocks(i: nat) returns (ghost sl: seq<nat>)
      requires Valid() && i in nodes && |nodes[i].addrs| == NDIRECT + 1
      modifies this`disk, this`nodes, this`owner
      ensures i in nodes && nodes[i].addrs == seq(NDIRECT + 1, _ => 0)
      ensures nodes == old(nodes)[i := old(nodes[i]).(addrs := nodes[i].addrs)]
      ensures Trimming(sb, old(disk), old(nodes), old(owner), i, disk, owner, sl)
      ensures forall t | 0 <= t < SLOTS :: sl[t] == 0
    {
      ghost var d0, nodes0, owner0 := disk, nodes, owner;
      TrimStart(sb, disk, nodes, owner, i);
      sl := TrimDirect(i);
      var t := nodes[i].addrs[NDIRECT];
      if t != 0 {
        sl := TrimIndirect(i, t, sl, d0, nodes0, owner0);
        nodes := nodes[i := nodes[i].(addrs := nodes[i].addrs[NDIRECT := 0])];
      }
    }

    /** Discards the contents of file `i`: exactly its own blocks become free (and zero), every
        other file keeps all its bytes, and the empty inode is on disk. */
    method Itrunc(i: nat)
      requires Valid() && i in nodes
      modifies this
      ensures Valid()
      ensures nodes == old(nodes)[i := old(nodes[i]).(size := 0, addrs := seq(NDIRECT + 1, _ => 0))]
      ensures i in nodes && dinodes == old(dinodes)[i := nodes[i]]
      ensures Fits(sb, old(disk)) && OthersSame(sb, old(disk), disk, old(nodes), i)
      ensures forall b :: b in owner <==> b in old(owner) && old(owner)[b].inum != i
    {
      ghost var d0, nodes0, owner0 := disk, nodes, owner;
      TrimStart(sb, disk, nodes, owner, i);
      ghost var sl := TrimBlocks(i);
      nodes := nodes[i := nodes[i].(size := 0)];
      TrimEnd(sb, d0, nodes0, owner0, i, disk, owner, sl, nodes[i]);
      assert nodes == nodes0[i := nodes[i]];
      Iupdate(i);
    }

    /** `readi`.  `device` gives what the driver of each registered device would answer.  What is
        read is the slice of the file's contents that lies within the file. */
    method Readi(i: nat, off: nat, n: nat, device: map<int, int>) returns (ok: bool, r: int, dst: seq<byte>)
      requires Valid() && i in nodes && off < WORD && n < WORD
      modifies this`disk, this`nodes, this`owner
      ensures !ok ==> Full(sb, disk)
      ensures ok ==> Grew(sb, old(disk), old(nodes), old(owner), disk, nodes, owner, i)
      ensures old(nodes[i]).kind == T_DEV ==>
        && ok && dst == []
        && var major := old(nodes[i]).major;
           r == if 0 <= major < NDEV && major in device then device[major] else -1
      ensures ok && old(nodes[i]).kind != T_DEV ==>
        if off > old(nodes[i]).size || off + n >= WORD then r == -1 && dst == []
        else (r == |dst|
          && dst == Contents(sb, old(disk), old(nodes[i]))[off..Min(off + n, old(nodes[i]).size)])
      ensures Fits(sb, old(disk)) && InodeFits(sb, old(nodes[i]))
      ensures NoHoles(sb, old(disk), old(nodes[i])) ==>
        ok && disk == old(disk) && nodes == old(nodes) && owner == old(owner)
    {
      assert NodeOk(sb, disk, nodes, owner, i);
      GrewNot(sb, disk, nodes, owner, i);
      if nodes[i].kind == T_DEV {
        if nodes[i].major < 0 || nodes[i].major >= NDEV || nodes[i].major !in device {
          return true, -1, [];
        }
        return true, device[nodes[i].major], [];
      }
      if off > nodes[i].size || (off + n) % WORD < off {
        return true, -1, [];
      }
      var left := n;
      if off + n > nodes[i].size {
        left := nodes[i].size - off;
      }
      ok, dst := CopyOut(i, off, left);
      return ok, left, dst;
    }

    // The loop of `readi`.
    method CopyOut(i: nat, off: nat, left: nat) returns (ok: bool, dst: seq<byte>)
      requires Valid() && i in nodes && InodeFits(sb, nodes[i]) && off + left <= nodes[i].size
      modifies this`disk, this`nodes, this`owner
      ensures !ok ==> Full(sb, disk)
      ensures ok ==>
        && Grew(sb, old(disk), old(nodes), old(owner), disk, nodes, owner, i)
        && |dst| == left && dst == Contents(sb, old(disk), old(nodes[i]))[off..off + left]
      ensures NoHoles(sb, old(disk), old(nodes[i])) ==>
        ok && disk == old(disk) && nodes == old(nodes) && owner == old(owner)
    {
      ghost var d0, nodes0, owner0, ip := disk, nodes, owner, nodes[i];
      GrewNot(sb, disk, nodes, owner, i);
      ok, dst := true, [];
      while |dst| < left
        invariant |dst| <= left && ok
        invariant Grew(sb, d0, nodes0, owner0, disk, nodes, owner, i)
        invariant ReadSoFar(sb, d0, ip, dst, off)
        invariant NoHoles(sb, d0, ip) ==> disk == d0 && nodes == nodes0 && owner == owner0
        decreases left - |dst|
      {
        ok, dst := ReadNext(i, off, left, dst, d0, nodes0, owner0);
        if !ok {
          return;
        }
      }
      ReadAll(sb, d0, ip, dst, off);
    }

    // One turn of the loop of `readi`.
    method ReadNext(i: nat, off: nat, left: nat, dst0: seq<byte>, ghost d0: Disk, ghost nodes0: map<nat, Inode>,
                    ghost owner0: Owners) returns (ok: bool, dst: seq<byte>)
      requires Grew(sb, d0, nodes0, owner0, disk, nodes, owner, i)
      requires ReadSoFar(sb, d0, nodes0[i], dst0, off) && |dst0| < left && off + left <= nodes0[i].size
      modifies this`disk, this`nodes, this`owner
      ensures !ok ==> Full(sb, disk)
      ensures ok ==>
        && Grew(sb, d0, nodes0, owner0, disk, nodes, owner, i)
        && ReadSoFar(sb, d0, nodes0[i], dst, off) && |dst0| < |dst| <= left
      ensures (NoHoles(sb, d0, nodes0[i]) && old(disk) == d0 && old(nodes) == nodes0 && old(owner) == owner0) ==>
        ok && disk == d0 && nodes == nodes0 && owner == owner0
    {
      dst := dst0;
      var at := off + |dst|;
      assert InodeFits(sb, nodes0[i]) && at < nodes0[i].size;
      var b, m;
      ok, b, m := ReadBlock(i, at, left - |dst|, d0, nodes0, owner0);
      if !ok {
        return;
      }
      var o := at % BSIZE;
      ReadMore(sb, d0, nodes0[i], disk, nodes[i], dst, off, o, m, b);
      dst := dst + disk[b][o..o + m];
    }

    // One turn of the copying loops: the block that holds offset `at`, and how much of the
    // remaining `left` bytes lies in it.
    method ReadBlock(i: nat, at: nat, left: nat, ghost d0: Disk, ghost nodes0: map<nat, Inode>,
                     ghost owner0: Owners) returns (ok: bool, b: nat, m: nat)
      requires Grew(sb, d0, nodes0, owner0, disk, nodes, owner, i)
      requires at < MAXFILE * BSIZE && left > 0
      modifies this`disk, this`nodes, this`owner
      ensures !ok ==> Full(sb, disk)
      ensures ok ==> Grew(sb, d0, nodes0, owner0, disk, nodes, owner, i)
      ensures ok ==> b == File(i)[SlotOf(at / BSIZE)] && sb.First() <= b < sb.size
      ensures ok ==> 0 < m == Min(left, BSIZE - at % BSIZE) && at % BSIZE + m <= BSIZE
      ensures (at < nodes0[i].size && NoHoles(sb, d0, nodes0[i])
        && old(disk) == d0 && old(nodes) == nodes0 && old(owner) == owner0) ==>
        ok && disk == d0 && nodes == nodes0 && owner == owner0
    {
      ghost var d, n, o := disk, nodes, owner;
      ok, b := Bmap(i, at / BSIZE);
      if ok {
        GrewTwice(sb, d0, nodes0, owner0, d, n, o, disk, nodes, owner, i);
        SlotInRange(sb, disk, nodes, owner, i, SlotOf(at / BSIZE));
      }
      m := Min(left, BSIZE - at % BSIZE);
    }

    // The loop of `writei`.
    method CopyIn(i: nat, src: seq<byte>, off: nat, n: nat) returns (ok: bool)
      requires Valid() && i in nodes && n <= |src| && off + n <= MAXFILE * BSIZE
      modifies this`disk, this`nodes, this`owner
      ensures !ok ==> Full(sb, disk)
      ensures ok ==> Writing(sb, old(disk), old(nodes), disk, nodes, owner, i, src, off, n)
      ensures Fits(sb, old(disk)) && InodeFits(sb, old(nodes[i]))
      ensures NoHoles(sb, old(disk), old(nodes[i])) && off + n <= old(nodes[i]).size ==>
        ok && nodes == old(nodes)
    {
      ghost var d0, nodes0 := disk, nodes;
      WritingNone(sb, disk, nodes, owner, i, src, off);
      ok := true;
      var tot := 0;
      while tot < n
        invariant 0 <= tot <= n && ok
        invariant Writing(sb, d0, nodes0, disk, nodes, owner, i, src, off, tot)
        invariant NoHoles(sb, d0, nodes0[i]) && off + n <= nodes0[i].size ==> nodes == nodes0
      {
        var m;
        ok, m := WriteBlock(i, src, off, n, tot, d0, nodes0);
        if !ok {
          return;
        }
        tot := tot + m;
      }
    }

    // One turn of the loop of `writei`.
    method WriteBlock(i: nat, src: seq<byte>, off: nat, n: nat, tot: nat, ghost d0: Disk, ghost nodes0: map<nat, Inode>)
      returns (ok: bool, m: nat)
      requires Writing(sb, d0, nodes0, disk, nodes, owner, i, src, off, tot)
      requires tot < n <= |src| && off + n <= MAXFILE * BSIZE
      modifies this`disk, this`nodes, this`owner
      ensures !ok ==> Full(sb, disk)
      ensures ok ==> 0 < m <= n - tot && Writing(sb, d0, nodes0, disk, nodes, owner, i, src, off, tot + m)
      ensures NoHoles(sb, d0, nodes0[i]) && off + n <= nodes0[i].size && old(nodes) == nodes0 ==> ok && nodes == nodes0
    {
      ghost var d, nn, o := disk, nodes, owner;
      var b;
      GrewNot(sb, d, nn, o, i);
      ok, b, m := ReadBlock(i, off + tot, n - tot, d, nn, o);
      if !ok {
        return;
      }
      WritingGrew(sb, d0, nodes0, d, nn, o, disk, nodes, owner, i, src, off, tot);
      WritingMore(sb, d0, nodes0, disk, nodes, owner, i, src, off, tot, m, b);
      disk := disk[b := Splice(disk[b], (off + tot) % BSIZE, src[tot..tot + m])];
    }

    /** `writei`.  The stretch of the file that `src` fits into is replaced, the file grows if it
        reaches past its end, and every other file keeps all its bytes. */
    method Writei(i: nat, src: seq<byte>, off: nat, n: nat, device: map<int, int>) returns (ok: bool, r: int)
      requires Valid() && i in nodes && off < WORD && n < WORD && n <= |src|
      modifies this
      ensures !ok ==> Full(sb, disk)
      ensures Fits(sb, old(disk)) && InodeFits(sb, old(nodes[i]))
      ensures old(nodes[i]).kind == T_DEV ==>
        && ok && disk == old(disk) && nodes == old(nodes) && dinodes == old(dinodes) && owner == old(owner)
        && var major := old(nodes[i]).major;
           r == if 0 <= major < NDEV && major in device then device[major] else -1
      ensures old(nodes[i]).kind != T_DEV && (off > old(nodes[i]).size || off + n >= WORD) ==>
        && ok && r == -1
        && disk == old(disk) && nodes == old(nodes) && dinodes == old(dinodes) && owner == old(owner)
      ensures ok && old(nodes[i]).kind != T_DEV && !(off > old(nodes[i]).size || off + n >= WORD) ==>
        && Valid() && 0 <= r == Min(n, MAXFILE * BSIZE - off)
        && WriteDone(sb, old(disk), old(nodes), old(dinodes), disk, nodes, dinodes, i, src, off, r)
        && var before := Contents(sb, old(disk), old(nodes[i]));
           Contents(sb, disk, nodes[i]) ==
             before[..off] + src[..r] + (if off + r < |before| then before[off + r..] else [])
    {
      assert NodeOk(sb, disk, nodes, owner, i);
      if nodes[i].kind == T_DEV {
        if nodes[i].major < 0 || nodes[i].major >= NDEV || nodes[i].major !in device {
          return true, -1;
        }
        return true, device[nodes[i].major];
      }
      if off > nodes[i].size || (off + n) % WORD < off {
        return true, -1;
      }
      var m := n;
      if off + n > MAXFILE * BSIZE {
        m := MAXFILE * BSIZE - off;
      }
      ghost var d0, ip0 := disk, nodes[i];
      ok := CopyInAndGrow(i, src, off, m);
      if ok {
        WrittenSplices(sb, d0, ip0, disk, nodes[i], src, off, m);
      }
      return ok, m;
    }

    // `writei` once the request is clipped: copy, then record the new size.
    method CopyInAndGrow(i: nat, src: seq<byte>, off: nat, m: nat) returns (ok: bool)
      requires Valid() && i in nodes && m <= |src| && off + m <= MAXFILE * BSIZE
      requires off <= nodes[i].size
      modifies this
      ensures !ok ==> Full(sb, disk)
      ensures ok ==>
        && Valid()
        && WriteDone(sb, old(disk), old(nodes), old(dinodes), disk, nodes, dinodes, i, src, off, m)
    {
      ghost var d0, nodes0, dinodes0 := disk, nodes, dinodes;
      ok := CopyIn(i, src, off, m);
      if !ok {
        return;
      }
      ghost var nodes1 := nodes;
      if m > 0 && off + m > nodes[i].size {
        nodes := nodes[i := nodes[i].(size := off + m)];
        Iupdate(i);
      }
      WriteEnds(sb, d0, nodes0, dinodes0, disk, nodes1, nodes, dinodes, owner, i, src, off, m);
    }
  }

  // The state after a write of `m` bytes.
  ghost predicate WriteDone(sb: Super, d0: Disk, nodes0: map<nat, Inode>, dinodes0: map<nat, Inode>,
                            d: Disk, nodes: map<nat, Inode>, dinodes: map<nat, Inode>,
                            i: nat, src: seq<byte>, off: nat, m: nat)
  {
    && i in nodes0 && i in nodes
    && Written(sb, d0, nodes0[i], d, nodes[i], src, off, m)
    && OthersSame(sb, d0, d, nodes0, i)
    && nodes == nodes0[i := nodes0[i].(addrs := nodes[i].addrs, size := nodes[i].size)]
    && nodes[i].size == (if off + m > nodes0[i].size then off + m else nodes0[i].size)
    && (NoHoles(sb, d0, nodes0[i]) ==>
         && NoHoles(sb, d, nodes[i])
         // and the inode on disk is as up to date as it was
         && (i in dinodes0 && dinodes0[i] == nodes0[i] ==> i in dinodes && dinodes[i] == nodes[i]))
    && (forall j | j in dinodes0 && j != i :: j in dinodes && dinodes[j] == dinodes0[j])
  }

  // The end of `writei`, of which only a longer file is written back.
  lemma WriteEnds(sb: Super, d0: Disk, nodes0: map<nat, Inode>, dinodes0: map<nat, Inode>, d: Disk,
                  nodes1: map<nat, Inode>, nodes: map<nat, Inode>, dinodes: map<nat, Inode>, owner: Owners,
                  i: nat, src: seq<byte>, off: nat, m: nat)
    requires Writing(sb, d0, nodes0, d, nodes1, owner, i, src, off, m)
    requires off <= nodes0[i].size && off + m <= MAXFILE * BSIZE
    requires nodes == if off + m > nodes0[i].size then nodes1[i := nodes1[i].(size := off + m)] else nodes1
    requires dinodes == if off + m > nodes0[i].size then dinodes0[i := nodes[i]] else dinodes0
    requires NoHoles(sb, d0, nodes0[i]) && off + m <= nodes0[i].size ==> nodes1 == nodes0
    ensures Inv(sb, d, nodes, owner)
    ensures WriteDone(sb, d0, nodes0, dinodes0, d, nodes, dinodes, i, src, off, m)
  {
    WritingEnds(sb, d0, nodes0, d, nodes1, nodes, owner, i, src, off, m);
  }

  lemma WritingEnds(sb: Super, d0: Disk, nodes0: map<nat, Inode>, d: Disk,
                    nodes1: map<nat, Inode>, nodes: map<nat, Inode>, owner: Owners,
                    i: nat, src: seq<byte>, off: nat, m: nat)
    requires Writing(sb, d0, nodes0, d, nodes1, owner, i, src, off, m)
    requires off <= nodes0[i].size && off + m <= MAXFILE * BSIZE
    requires nodes == if off + m > nodes0[i].size then nodes1[i := nodes1[i].(size := off + m)] else nodes1
    ensures Inv(sb, d, nodes, owner)
    ensures Written(sb, d0, nodes0[i], d, nodes[i], src, off, m)
    ensures NoHoles(sb, d0, nodes0[i]) ==> NoHoles(sb, d, nodes[i])
  {
    assert NodeOk(sb, d, nodes1, owner, i);
    SizeOnly(sb, d, nodes1[i], nodes[i]);
    InodeChanged(sb, d, nodes1, owner, i, nodes[i]);
    assert nodes1[i := nodes[i]] == nodes;
    forall x: nat | x < MAXFILE * BSIZE
      ensures FileByte(sb, d, nodes[i], x)
           == if off <= x < off + m then src[x - off] else FileByte(sb, d0, nodes0[i], x)
    {
      assert FileByte(sb, d, nodes[i], x) == FileByte(sb, d, nodes1[i], x);
    }
    if NoHoles(sb, d0, nodes0[i]) {
      var sl0, sl := Slots(sb, d0, nodes0[i]), Slots(sb, d, nodes[i]);
      forall bn: nat | bn < MAXFILE && bn * BSIZE < nodes[i].size ensures sl[SlotOf(bn)] != 0 {
        if bn * BSIZE < nodes0[i].size {
          assert sl0[SlotOf(bn)] != 0;
          assert sl[SlotOf(bn)] == sl0[SlotOf(bn)];
        } else {
          assert Slots(sb, d, nodes1[i])[SlotOf(bn)] != 0;
        }
      }
    }
  }

  // The blocks of a file do not depend on its size.
  lemma SizeOnly(sb: Super, d: Disk, ip: Inode, ip': Inode)
    requires Fits(sb, d) && InodeFits(sb, ip) && InodeFits(sb, ip') && ip'.addrs == ip.addrs
    ensures Slots(sb, d, ip') == Slots(sb, d, ip)
  {
    assert forall s: nat | s < SLOTS :: SlotAt(sb, d, ip', s) == SlotAt(sb, d, ip, s);
  }

  /** What `Itrunc` does to the bitmap, in terms of slots: the bits cleared are those of the
      blocks the inode held. */
  lemma TruncatedBits(sb: Super, d: Disk, nodes: map<nat, Inode>, owner: Owners, i: nat,
                      d': Disk, nodes': map<nat, Inode>, owner': Owners, b: nat)
    requires Inv(sb, d, nodes, owner) && Inv(sb, d', nodes', owner') && i in nodes && b < sb.size
    requires forall c :: c in owner' <==> c in owner && owner[c].inum != i
    ensures NodeOk(sb, d, nodes, owner, i)
    ensures Used(sb, d', b) <==>
      Used(sb, d, b) && !(sb.First() <= b && b in Slots(sb, d, nodes[i]))
  {
    assert NodeOk(sb, d, nodes, owner, i);
    assert BlockOk(sb, d, owner, b) && BlockOk(sb, d', owner', b);
    var sl := Slots(sb, d, nodes[i]);
    if b in sl && b >= sb.First() {
      var s :| 0 <= s < SLOTS && sl[s] == b;
      assert OwnedBy(owner, b, i, s);
    }
    if b in owner && owner[b].inum == i {
      assert sl[owner[b].slot] == b;
    }
  }
}
