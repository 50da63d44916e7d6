/** The tool that builds the initial disk image.  It hands out blocks from a counter and writes
    the bitmap last, so while it runs the invariant holds of the disk the bitmap will describe. */
module Mkfs {
  import opened Blocks
  import opened Common
  import opened FsState
  import opened FsSteps
  import opened Fs

  // The disk with the bits of blocks 0..n-1 set.
  ghost function Marked(sb: Super, d: Disk, n: nat): (d': Disk)
    requires Fits(sb, d) && n <= sb.size
    ensures Fits(sb, d')
  {
    if n == 0 then d else Mark(sb, Marked(sb, d, n - 1), n - 1, true)
  }

  lemma {:induction false} MarkedKeeps(sb: Super, d: Disk, n: nat, b: nat)
    requires Fits(sb, d) && n <= sb.size && sb.First() <= b < sb.size
    ensures Marked(sb, d, n)[b] == d[b]
  {
    if n > 0 {
      MarkedKeeps(sb, d, n - 1, b);
    }
  }

  // Marking and writing a data block commute.
  lemma {:induction false} MarkedWrite(sb: Super, d: Disk, n: nat, b: nat, blk: Block)
    requires Fits(sb, d) && n <= sb.size && sb.First() <= b < sb.size
    ensures Marked(sb, d[b := blk], n) == Marked(sb, d, n)[b := blk]
  {
    if n > 0 {
      MarkedWrite(sb, d, n - 1, b, blk);
    }
  }

  lemma {:induction false} MarkedUsed(sb: Super, d: Disk, n: nat, c: nat)
    requires Fits(sb, d) && n <= sb.size && c < sb.size
    ensures Used(sb, Marked(sb, d, n), c) <==> c < n || Used(sb, d, c)
  {
    if n > 0 {
      MarkedUsed(sb, d, n - 1, c);
      MarkUsed(sb, Marked(sb, d, n - 1), n - 1, true, c);
    }
  }

  lemma ZeroBit(bi: nat)
    requires bi < BPB
    ensures !Bit(Zero(), bi)
  {
    ZeroTest(bi % 8);
  }

  lemma {:induction false} ZeroTest(k: nat)
    ensures !TestBit(0, k)
  {
    if k > 0 {
      ZeroTest(k - 1);
    }
  }

  // One bitmap block with its first `n` bits set.
  ghost function BitsUpTo(b: Block, n: nat): Block
    requires n <= BPB
  {
    if n == 0 then b else WithBit(BitsUpTo(b, n - 1), n - 1, true)
  }

  lemma {:induction false} MarkedIsOneBlock(sb: Super, d: Disk, n: nat)
    requires Fits(sb, d) && n <= sb.size && n <= BPB
    ensures Marked(sb, d, n) == d[sb.FirstBitmap() := BitsUpTo(d[sb.FirstBitmap()], n)]
  {
    if n > 0 {
      MarkedIsOneBlock(sb, d, n - 1);
      assert BBlock(sb, n - 1) == sb.FirstBitmap();
    }
  }

  lemma {:induction false} BitsPast(n: nat, c: nat)
    requires n <= c < BPB
    ensures !Bit(BitsUpTo(Zero(), n), c)
  {
    if n == 0 {
      ZeroBit(c);
    } else {
      BitsPast(n - 1, c);
      BitAfter(BitsUpTo(Zero(), n - 1), n - 1, true, c);
    }
  }

  // The bitmap of an image of one bitmap block has no bit past the end of the disk.
  lemma OneBlockTail(sb: Super, d: Disk, n: nat)
    requires Fits(sb, d) && n <= sb.size <= BPB && d[sb.FirstBitmap()] == BitsUpTo(Zero(), n)
    ensures TailClear(sb, d)
  {
    forall c: nat | sb.size <= c && InBitmap(sb, c) ensures !BitSet(sb, d, c) {
      OneBlock(sb.size, c);
      BitsPast(n, c);
      assert BBlock(sb, c) == sb.FirstBitmap();
    }
  }

  lemma OneBlock(size: nat, c: nat)
    requires size <= BPB && c / BPB * BPB < size
    ensures c < BPB && c / BPB == 0 && c % BPB == c
  {
  }

  method FirstBits(used: nat) returns (buf: Block)
    requires used < BPB
    ensures buf == BitsUpTo(Zero(), used)
  {
    buf := Zero();
    var i := 0;
    while i < used
      invariant 0 <= i <= used && buf == BitsUpTo(Zero(), i)
    {
      buf := WithBit(buf, i, true);
      i := i + 1;
    }
  }

  // A file has exactly the blocks its size calls for.
  ghost predicate Tight(sb: Super, d: Disk, ip: Inode)
    requires Fits(sb, d) && InodeFits(sb, ip)
  {
    forall bn: nat | bn < MAXFILE :: Slots(sb, d, ip)[SlotOf(bn)] != 0 <==> bn * BSIZE < ip.size
  }

  // The blocks `sl'` has and `sl` has not are those of bytes off..off+tot.
  ghost predicate Spread(sl: seq<nat>, sl': seq<nat>, off: nat, tot: nat) {
    && |sl| == |sl'| == SLOTS
    && forall bn: nat | bn < MAXFILE && !(off / BSIZE <= bn && bn * BSIZE < off + tot) ::
         sl'[SlotOf(bn)] == sl[SlotOf(bn)]
  }

  // File `i` is what it was with `p` after it, and nothing else is different.
  ghost predicate Appended(sb: Super, d0: Disk, nodes0: map<nat, Inode>, d: Disk, nodes: map<nat, Inode>,
                           i: nat, p: seq<byte>)
  {
    && i in nodes0 && i in nodes && Fits(sb, d0) && Fits(sb, d)
    && InodeFits(sb, nodes0[i]) && InodeFits(sb, nodes[i])
    && Contents(sb, d, nodes[i]) == Contents(sb, d0, nodes0[i]) + p
    && Written(sb, d0, nodes0[i], d, nodes[i], p, nodes0[i].size, |p|)
    && OthersSame(sb, d0, d, nodes0, i)
    && nodes == nodes0[i := nodes0[i].(addrs := nodes[i].addrs, size := nodes[i].size)]
    && (Tight(sb, d0, nodes0[i]) ==> Tight(sb, d, nodes[i]))
  }

  lemma AppendDone(sb: Super, d0: Disk, nodes0: map<nat, Inode>, d: Disk, nodes: map<nat, Inode>,
                   owner: Owners, i: nat, p: seq<byte>)
    requires i in nodes0 && Fits(sb, d0) && InodeFits(sb, nodes0[i])
    requires Writing(sb, d0, nodes0, d, nodes, owner, i, p, nodes0[i].size, |p|)
    requires nodes0[i].size + |p| <= MAXFILE * BSIZE
    requires Spread(Slots(sb, d0, nodes0[i]), Slots(sb, d, nodes[i]), nodes0[i].size, |p|)
    ensures var nodes' := nodes[i := nodes[i].(size := nodes[i].size + |p|)];
            Inv(sb, d, nodes', owner) && Appended(sb, d0, nodes0, d, nodes', i, p)
  {
    var ip := nodes[i].(size := nodes[i].size + |p|);
    assert NodeOk(sb, d, nodes, owner, i);
    assert p == [] ==> nodes[i := ip] == nodes;
    WritingEnds(sb, d0, nodes0, d, nodes, nodes[i := ip], owner, i, p, nodes0[i].size, |p|);
    WrittenSplices(sb, d0, nodes0[i], d, ip, p, nodes0[i].size, |p|);
    StaysTight(sb, d0, nodes0[i], d, nodes[i], |p|);
  }

  lemma StaysTight(sb: Super, d0: Disk, ip0: Inode, d: Disk, ip: Inode, n: nat)
    requires Fits(sb, d0) && InodeFits(sb, ip0) && Fits(sb, d) && InodeFits(sb, ip) && ip.size == ip0.size
    requires ip0.size + n <= MAXFILE * BSIZE && Spread(Slots(sb, d0, ip0), Slots(sb, d, ip), ip0.size, n)
    requires OnlyAdds(Slots(sb, d0, ip0), Slots(sb, d, ip))
    requires forall bn: nat | bn < MAXFILE && 0 < n && ip0.size / BSIZE <= bn && bn * BSIZE < ip0.size + n ::
      Slots(sb, d, ip)[SlotOf(bn)] != 0
    ensures Tight(sb, d0, ip0) ==> Tight(sb, d, ip.(size := ip0.size + n))
  {
    var ip' := ip.(size := ip0.size + n);
    SizeOnly(sb, d, ip, ip');
  }

  class Image {
    const sb: Super
    var disk: Disk
    var nodes: map<nat, Inode>
    var freeblock: nat
    var freeinode: nat
    ghost var owner: Owners

    ghost predicate Valid()
      reads this
    {
      && Fits(sb, disk) && sb.First() <= freeblock <= sb.size
      && disk[sb.FirstBitmap()] == Zero()
      && Inv(sb, Marked(sb, disk, freeblock), nodes, owner)
      && (forall b | b in owner :: b < freeblock)
      && (forall i | i in nodes :: i < freeinode)
    }

    /** A disk of zeros satisfies the invariant once the metadata blocks are marked. */
    constructor (sb: Super)
      requires sb.Valid()
      ensures Valid() && nodes == map[] && this.sb == sb && freeinode == 1
    {
      this.sb := sb;
      disk := seq(sb.size, _ => Zero());
      nodes, freeblock, freeinode, owner := map[], sb.First(), 1, map[];
      new;
      var d := Marked(sb, disk, freeblock);
      forall c: nat | c < sb.size ensures BlockOk(sb, d, owner, c) {
        MarkedUsed(sb, disk, freeblock, c);
        ZeroBit(c % BPB);
        if c >= sb.First() {
          MarkedKeeps(sb, disk, freeblock, c);
        }
      }
    }

    ghost function File(i: nat): seq<nat>
      requires Valid() && i in nodes
      reads this
    {
      assert NodeOk(sb, Final(), nodes, owner, i);
      Slots(sb, Final(), nodes[i])
    }

    // The disk as the finished bitmap will describe it.
    ghost function Final(): Disk
      requires Fits(sb, disk) && freeblock <= sb.size
      reads this
    {
      Marked(sb, disk, freeblock)
    }

    method Ialloc(kind: int) returns (inum: nat)
      requires Valid()
      modifies this`nodes, this`freeinode
      ensures Valid() && inum !in old(nodes) && inum == old(freeinode) && freeinode == inum + 1
      ensures nodes == old(nodes)[inum := Inode(kind, 0, 0, seq(NDIRECT + 1, _ => 0))]
      ensures Tight(sb, Final(), nodes[inum])
    {
      inum := freeinode;
      freeinode := freeinode + 1;
      ghost var nodes0 := nodes;
      nodes := nodes[inum := Inode(kind, 0, 0, seq(NDIRECT + 1, _ => 0))];
      ghost var v := Final();
      assert forall s: nat | s < SLOTS :: SlotAt(sb, v, nodes[inum], s) == 0;
      forall j | j in nodes ensures NodeOk(sb, v, nodes, owner, j) {
        assert j in nodes0 ==> NodeOk(sb, v, nodes0, owner, j);
      }
    }

    // Slot `s` of the inode itself, filled from the counter if it is empty.
    method InodeSlot(i: nat, s: nat) returns (ok: bool, addr: nat)
      requires Valid() && i in nodes && s <= NDIRECT && |nodes[i].addrs| == NDIRECT + 1
      modifies this`nodes, this`freeblock, this`owner
      ensures !ok ==> freeblock >= sb.size
      ensures ok ==>
        && Valid() && i in nodes && |nodes[i].addrs| == NDIRECT + 1 && addr == nodes[i].addrs[s] && addr != 0
        && Grew(sb, old(Final()), old(nodes), old(owner), Final(), nodes, owner, i)
        && OnlyAt(old(File(i)), File(i), s)
    {
      ghost var v := Final();
      GrewNot(sb, v, nodes, owner, i);
      if nodes[i].addrs[s] == 0 {
        if freeblock >= sb.size {
          return false, 0;
        }
        assert BlockOk(sb, v, owner, freeblock);
        GrewDirect(sb, v, nodes, owner, i, s, freeblock);
        ghost var v' := Mark(sb, v, freeblock, true);
        nodes := nodes[i := nodes[i].(addrs := nodes[i].addrs[s := freeblock])];
        owner := owner[freeblock := Place(i, s)];
        freeblock := freeblock + 1;
        assert Final() == v';
      }
      return true, nodes[i].addrs[s];
    }

    // An empty word `k` of the indirect block, filled from the counter.
    method FillIndirect(i: nat, k: nat) returns (addr: nat)
      requires Valid() && i in nodes && k < NINDIRECT && InodeFits(sb, nodes[i])
      requires nodes[i].addrs[NDIRECT] >= sb.First() && freeblock < sb.size
      requires Final()[nodes[i].addrs[NDIRECT]] == disk[nodes[i].addrs[NDIRECT]]
      requires Word(disk[nodes[i].addrs[NDIRECT]], k) == 0
      modifies this`disk, this`freeblock, this`owner
      ensures Valid() && addr == File(i)[NDIRECT + 1 + k] && addr != 0
      ensures OnlyAt(old(File(i)), File(i), NDIRECT + 1 + k)
      ensures Grew(sb, old(Final()), old(nodes), old(owner), Final(), nodes, owner, i)
    {
      ghost var v := Final();
      var t := nodes[i].addrs[NDIRECT];
      addr := freeblock;
      freeblock := freeblock + 1;
      assert BlockOk(sb, v, owner, addr);
      GrewIndirect(sb, v, nodes, owner, i, k, addr);
      var indirect := PutWord(disk[t], k, addr);
      MarkedWrite(sb, disk, freeblock, t, indirect);
      disk := disk[t := indirect];
      owner := owner[addr := Place(i, NDIRECT + 1 + k)];
      assert Final() == Mark(sb, v, addr, true)[t := indirect];
    }

    // Word `k` of the indirect block, filled from the counter if it is empty.
    method IndirectSlot(i: nat, k: nat) returns (ok: bool, addr: nat)
      requires Valid() && i in nodes && k < NINDIRECT && InodeFits(sb, nodes[i])
      requires nodes[i].addrs[NDIRECT] != 0
      modifies this`disk, this`freeblock, this`owner
      ensures !ok ==> freeblock >= sb.size
      ensures ok ==>
        && Valid() && addr == File(i)[NDIRECT + 1 + k] && addr != 0
        && OnlyAt(old(File(i)), File(i), NDIRECT + 1 + k)
        && Grew(sb, old(Final()), old(nodes), old(owner), Final(), nodes, owner, i)
    {
      SlotInRange(sb, Final(), nodes, owner, i, NDIRECT);
      MarkedKeeps(sb, disk, freeblock, nodes[i].addrs[NDIRECT]);
      ok, addr := true, Word(disk[nodes[i].addrs[NDIRECT]], k);
      if addr != 0 {
        GrewNot(sb, Final(), nodes, owner, i);
      } else if freeblock < sb.size {
        addr := FillIndirect(i, k);
      } else {
        ok := false;
      }
    }

    method BlockFor(i: nat, fbn: nat) returns (ok: bool, x: nat)
      requires Valid() && i in nodes && fbn < MAXFILE
      modifies this`disk, this`nodes, this`freeblock, this`owner
      ensures !ok ==> freeblock >= sb.size
      ensures ok ==>
        && Valid() && Grew(sb, old(Final()), old(nodes), old(owner), Final(), nodes, owner, i)
        && x == File(i)[SlotOf(fbn)] && sb.First() <= x < sb.size
        && OnlyAt(old(File(i)), File(i), SlotOf(fbn))
      ensures ok && fbn < NDIRECT ==> x == nodes[i].addrs[fbn]
      ensures ok && fbn >= NDIRECT ==> x == Word(Final()[nodes[i].addrs[NDIRECT]], fbn - NDIRECT)
    {
      assert NodeOk(sb, Final(), nodes, owner, i);
      if fbn < NDIRECT {
        ok, x := InodeSlot(i, fbn);
      } else {
        ok, x := ThroughIndirect(i, fbn - NDIRECT);
      }
      if ok {
        SlotInRange(sb, Final(), nodes, owner, i, SlotOf(fbn));
      }
    }

    // The indirect block and then its word `k`, each filled from the counter if it is empty.
    method ThroughIndirect(i: nat, k: nat) returns (ok: bool, x: nat)
      requires Valid() && i in nodes && k < NINDIRECT && |nodes[i].addrs| == NDIRECT + 1
      modifies this`disk, this`nodes, this`freeblock, this`owner
      ensures !ok ==> freeblock >= sb.size
      ensures ok ==>
        && Valid() && Grew(sb, old(Final()), old(nodes), old(owner), Final(), nodes, owner, i)
        && x == File(i)[NDIRECT + 1 + k] && x != 0 && OnlyAt(old(File(i)), File(i), NDIRECT + 1 + k)
    {
      ghost var v0, n0, o0 := Final(), nodes, owner;
      ok, x := InodeSlot(i, NDIRECT);
      if !ok {
        return;
      }
      assert NodeOk(sb, Final(), nodes, owner, i);
      ghost var v, n, o := Final(), nodes, owner;
      ok, x := IndirectSlot(i, k);
      if ok {
        GrewTwice(sb, v0, n0, o0, v, n, o, Final(), nodes, owner, i);
      }
    }

    // The loop of `iappend`.
    method AppendBytes(i: nat, p: seq<byte>, off: nat) returns (ok: bool)
      requires Valid() && i in nodes && off <= MAXFILE * BSIZE
      modifies this`disk, this`nodes, this`freeblock, this`owner
      ensures !ok ==> freeblock >= sb.size || off + |p| > MAXFILE * BSIZE
      ensures ok ==>
        && off + |p| <= MAXFILE * BSIZE && Valid()
        && Writing(sb, old(Final()), old(nodes), Final(), nodes, owner, i, p, off, |p|)
        && Spread(old(File(i)), File(i), off, |p|)
    {
      ghost var v0, nodes0, sl0 := Final(), nodes, File(i);
      WritingNone(sb, v0, nodes, owner, i, p, off);
      var tot := 0;
      while tot < |p|
        invariant 0 <= tot <= |p| && off + tot <= MAXFILE * BSIZE && Valid()
        invariant Writing(sb, v0, nodes0, Final(), nodes, owner, i, p, off, tot)
        invariant Spread(sl0, File(i), off, tot)
      {
        var fbn := (off + tot) / BSIZE;
        if fbn >= MAXFILE {
          return false;
        }
        var n1;
        ok, n1 := AppendSome(i, p, off, tot, v0, nodes0, sl0);
        if !ok {
          return;
        }
        tot := tot + n1;
      }
      ok := true;
    }

    // One turn of that loop: the bytes that go to one block.
    method AppendSome(i: nat, p: seq<byte>, off: nat, tot: nat, ghost v0: Disk, ghost nodes0: map<nat, Inode>,
                      ghost sl0: seq<nat>) returns (ok: bool, n1: nat)
      requires Valid() && i in nodes && tot < |p| && off + tot < MAXFILE * BSIZE
      requires Writing(sb, v0, nodes0, Final(), nodes, owner, i, p, off, tot)
      requires Spread(sl0, File(i), off, tot)
      modifies this`disk, this`nodes, this`freeblock, this`owner
      ensures !ok ==> freeblock >= sb.size
      ensures ok ==>
        && Valid() && 0 < n1 && tot + n1 <= |p| && off + tot + n1 <= MAXFILE * BSIZE
        && Writing(sb, v0, nodes0, Final(), nodes, owner, i, p, off, tot + n1)
        && Spread(sl0, File(i), off, tot + n1)
    {
      var fbn := (off + tot) / BSIZE;
      ghost var v, n, o := Final(), nodes, owner;
      var x;
      ok, x := BlockFor(i, fbn);
      if !ok {
        return false, 0;
      }
      WritingGrew(sb, v0, nodes0, v, n, o, Final(), nodes, owner, i, p, off, tot);
      n1 := Min(|p| - tot, (fbn + 1) * BSIZE - (off + tot));
      assert Spread(sl0, File(i), off, tot + n1);
      Store(i, p, off, tot, n1, x, v0, nodes0);
    }

    // Writes `n1` bytes of `p` to data block `x`.
    method Store(i: nat, p: seq<byte>, off: nat, tot: nat, n1: nat, x: nat,
                 ghost v0: Disk, ghost nodes0: map<nat, Inode>)
      requires Valid() && i in nodes && sb.First() <= x < sb.size && off + tot < MAXFILE * BSIZE
      requires Writing(sb, v0, nodes0, Final(), nodes, owner, i, p, off, tot)
      requires tot + n1 <= |p| && n1 > 0 && (off + tot) % BSIZE + n1 <= BSIZE
      requires x == File(i)[SlotOf((off + tot) / BSIZE)]
      modifies this`disk
      ensures Valid()
      ensures Writing(sb, v0, nodes0, Final(), nodes, owner, i, p, off, tot + n1)
      ensures File(i) == old(File(i))
    {
      WritingMore(sb, v0, nodes0, Final(), nodes, owner, i, p, off, tot, n1, x);
      var buf := Splice(disk[x], (off + tot) % BSIZE, p[tot..tot + n1]);
      ghost var v := Final();
      MarkedKeeps(sb, disk, freeblock, x);
      WriteData(sb, v, nodes, owner, i, (off + tot) / BSIZE, buf);
      MarkedWrite(sb, disk, freeblock, x, buf);
      disk := disk[x := buf];
      assert Final() == v[x := buf];
    }

    // `iappend` but for the new size.
    method AppendBlocks(i: nat, p: seq<byte>) returns (ok: bool)
      requires Valid() && i in nodes
      modifies this`disk, this`nodes, this`freeblock, this`owner
      ensures InodeFits(sb, old(nodes[i]))
      ensures !ok ==> freeblock >= sb.size || old(nodes[i]).size + |p| > MAXFILE * BSIZE
      ensures ok ==>
        && Valid() && i in nodes
        && Inv(sb, Final(), nodes[i := nodes[i].(size := nodes[i].size + |p|)], owner)
        && Appended(sb, old(Final()), old(nodes), Final(), nodes[i := nodes[i].(size := nodes[i].size + |p|)], i, p)
    {
      assert NodeOk(sb, Final(), nodes, owner, i);
      ghost var v0, nodes0 := Final(), nodes;
      ok := AppendBytes(i, p, nodes[i].size);
      if ok {
        AppendDone(sb, v0, nodes0, Final(), nodes, owner, i, p);
      }
    }

    /** Appends `p` to file `i`: its contents are what they were followed by `p`, and no other
        file changes.  `ok` is false when the image or the file has no room left. */
    method Iappend(i: nat, p: seq<byte>) returns (ok: bool)
      requires Valid() && i in nodes
      modifies this`disk, this`nodes, this`freeblock, this`owner
      ensures InodeFits(sb, old(nodes[i]))
      ensures !ok ==> freeblock >= sb.size || old(nodes[i]).size + |p| > MAXFILE * BSIZE
      ensures ok ==> Valid() && Appended(sb, old(Final()), old(nodes), Final(), nodes, i, p)
      ensures ok ==> Contents(sb, Final(), nodes[i]) == Contents(sb, old(Final()), old(nodes[i])) + p
    {
      ok := AppendBlocks(i, p);
      if ok {
        nodes := nodes[i := nodes[i].(size := nodes[i].size + |p|)];
      }
    }

    /** The size of a finished directory is rounded up to whole blocks, by a whole block even when
        it already is one.  The file then ends in a block it does not have exactly when its size
        was a multiple of the block size. */
    method FixDirSize(i: nat)
      requires Valid() && i in nodes
      requires (nodes[i].size / BSIZE + 1) * BSIZE <= MAXFILE * BSIZE
      modifies this`nodes
      ensures Valid() && i in nodes && InodeFits(sb, nodes[i]) && InodeFits(sb, old(nodes[i]))
      ensures nodes == old(nodes)[i := old(nodes[i]).(size := nodes[i].size)]
      ensures nodes[i].size % BSIZE == 0 && old(nodes[i]).size < nodes[i].size <= old(nodes[i]).size + BSIZE
      ensures Tight(sb, Final(), old(nodes[i])) ==>
        (NoHoles(sb, Final(), nodes[i]) <==> old(nodes[i]).size % BSIZE != 0)
    {
      ghost var v, nodes0, ip0 := Final(), nodes, nodes[i];
      assert NodeOk(sb, v, nodes, owner, i);
      var off := nodes[i].size;
      RoundedUp(off);
      off := (off / BSIZE + 1) * BSIZE;
      nodes := nodes[i := nodes[i].(size := off)];
      SizeOnly(sb, v, ip0, nodes[i]);
      InodeChanged(sb, v, nodes0, owner, i, nodes[i]);
      if Tight(sb, v, ip0) {
        RoundedHole(sb, v, ip0, nodes[i]);
      }
    }

    /** The last step: the bits of the first `used` blocks, in the one bitmap block there is.  From
        here on the disk itself satisfies the kernel's invariant. */
    method WriteBitmap(used: nat)
      requires Valid() && used == freeblock && used < BPB
      modifies this`disk
      ensures disk == old(Final()) && Inv(sb, disk, nodes, owner)
      ensures sb.size <= BPB ==> TailClear(sb, disk)
    {
      var buf := FirstBits(used);
      MarkedIsOneBlock(sb, disk, used);
      if sb.size <= BPB {
        OneBlockTail(sb, Final(), used);
      }
      disk := disk[sb.FirstBitmap() := buf];
    }
  }

  lemma RoundedUp(size: nat)
    ensures var r := (size / BSIZE + 1) * BSIZE; r % BSIZE == 0 && size < r <= size + BSIZE
  {
  }

  lemma RoundedHole(sb: Super, d: Disk, ip: Inode, ip': Inode)
    requires Fits(sb, d) && InodeFits(sb, ip) && InodeFits(sb, ip') && Tight(sb, d, ip)
    requires ip' == ip.(size := (ip.size / BSIZE + 1) * BSIZE)
    ensures NoHoles(sb, d, ip') <==> ip.size % BSIZE != 0
  {
    SizeOnly(sb, d, ip, ip');
    var last := ip.size / BSIZE;
    assert last < MAXFILE && last * BSIZE < ip'.size;
    assert last * BSIZE < ip.size <==> ip.size % BSIZE != 0;
    if ip.size % BSIZE != 0 {
      forall bn: nat | bn < MAXFILE && bn * BSIZE < ip'.size ensures Slots(sb, d, ip')[SlotOf(bn)] != 0 {
        assert bn * BSIZE < ip.size;
      }
    } else {
      assert Slots(sb, d, ip)[SlotOf(last)] == 0;
    }
  }

  /** For one: a directory of 32 entries, which fill its only block, becomes one of two blocks
      without the second. */
  lemma FullBlockDirectory(sb: Super, d: Disk, ip: Inode)
    requires Fits(sb, d) && sb.First() < sb.size
    requires ip == Inode(1, 0, 32 * 16, [sb.First()] + seq(NDIRECT, _ => 0))
    ensures var ip' := ip.(size := (ip.size / BSIZE + 1) * BSIZE);
            && InodeFits(sb, ip) && Tight(sb, d, ip)
            && InodeFits(sb, ip') && ip'.size == 2 * BSIZE
            && !NoHoles(sb, d, ip') && Slots(sb, d, ip')[SlotOf(1)] == 0
  {
    forall bn: nat | bn < MAXFILE ensures Slots(sb, d, ip)[SlotOf(bn)] != 0 <==> bn * BSIZE < ip.size {
      assert Slots(sb, d, ip)[SlotOf(bn)] == SlotAt(sb, d, ip, SlotOf(bn));
    }
    RoundedHole(sb, d, ip, ip.(size := (ip.size / BSIZE + 1) * BSIZE));
  }
}
