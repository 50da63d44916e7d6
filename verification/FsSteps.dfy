/** What one block-level step does to the invariant and to the files: giving a slot a fresh
    block, writing a data block, taking a block away from a slot. */
module FsSteps {
  import opened Blocks
  import opened Common
  import opened FsState

  // The invariant with the slots of inode `i` given by `sl` instead of read from its inode.
  ghost predicate InvWith(sb: Super, d: Disk, nodes: map<nat, Inode>, owner: Owners, i: nat,
                          sl: seq<nat>)
  {
    && Fits(sb, d)
    && BitmapAgrees(sb, d, owner)
    && (forall b | b in owner :: owner[b].inum in nodes)
    && (forall j | j in nodes && j != i :: NodeOk(sb, d, nodes, owner, j))
    && i in nodes && Holds(sl, i, owner)
  }

  ghost predicate SameFile(sb: Super, d: Disk, ip: Inode, d': Disk, ip': Inode) {
    && Fits(sb, d) && Fits(sb, d') && InodeFits(sb, ip) && InodeFits(sb, ip')
    && forall x: nat | x < MAXFILE * BSIZE :: FileByte(sb, d', ip', x) == FileByte(sb, d, ip, x)
  }

  ghost predicate OthersSame(sb: Super, d: Disk, d': Disk, nodes: map<nat, Inode>, i: nat) {
    forall j | j in nodes && j != i :: SameFile(sb, d, nodes[j], d', nodes[j])
  }

  // ----- ownership, one block at a time

  lemma HoldsGain(sl: seq<nat>, i: nat, owner: Owners, b: nat, p: Place)
    requires Holds(sl, i, owner) && b !in owner && b != 0 && 0 !in owner && p.slot < SLOTS
    ensures p.inum != i ==> Holds(sl, i, owner[b := p])
    ensures p.inum == i && sl[p.slot] == 0 ==> Holds(sl[p.slot := b], i, owner[b := p])
  {
    var owner' := owner[b := p];
    var sl' := if p.inum == i then sl[p.slot := b] else sl;
    if p.inum != i || sl[p.slot] == 0 {
      forall s | 0 <= s < SLOTS && sl'[s] != 0 ensures OwnedBy(owner', sl'[s], i, s) {
        assert sl[s] != 0 ==> OwnedBy(owner, sl[s], i, s);
      }
    }
  }

  lemma HoldsLose(sl: seq<nat>, i: nat, owner: Owners, b: nat)
    requires Holds(sl, i, owner) && b in owner && b != 0
    ensures owner[b].inum != i ==> Holds(sl, i, owner - {b})
    ensures owner[b].inum == i ==>
      owner[b].slot < SLOTS && Holds(sl[owner[b].slot := 0], i, owner - {b})
  {
    var owner' := owner - {b};
    var sl' := if owner[b].inum == i then sl[owner[b].slot := 0] else sl;
    forall s | 0 <= s < SLOTS && sl'[s] != 0 ensures OwnedBy(owner', sl'[s], i, s) {
      assert OwnedBy(owner, sl[s], i, s);
    }
  }

  lemma BitmapGain(sb: Super, d: Disk, owner: Owners, b: nat, p: Place)
    requires Fits(sb, d) && BitmapAgrees(sb, d, owner) && b < sb.size && !Used(sb, d, b)
    ensures BitmapAgrees(sb, Mark(sb, d, b, true), owner[b := p])
    ensures sb.First() <= b && b !in owner && d[b] == Zero()
  {
    var d', owner' := Mark(sb, d, b, true), owner[b := p];
    assert BlockOk(sb, d, owner, b);
    forall c: nat | c < sb.size ensures BlockOk(sb, d', owner', c) {
      assert BlockOk(sb, d, owner, c);
      assert c == BBlock(sb, b) ==> c < sb.First();
      MarkUsed(sb, d, b, true, c);
    }
  }

  lemma BitmapLose(sb: Super, d: Disk, owner: Owners, b: nat)
    requires Fits(sb, d) && BitmapAgrees(sb, d, owner) && b in owner
    ensures b < sb.size && sb.First() <= b && Used(sb, d, b)
    ensures BitmapAgrees(sb, Mark(sb, d[b := Zero()], b, false), owner - {b})
  {
    assert BlockOk(sb, d, owner, b);
    var d', owner' := Mark(sb, d[b := Zero()], b, false), owner - {b};
    forall c: nat | c < sb.size ensures BlockOk(sb, d', owner', c) {
      assert BlockOk(sb, d, owner, c);
      assert BlockOk(sb, d, owner, BBlock(sb, b));
      WriteUsed(sb, d, b, Zero(), c);
      MarkUsed(sb, d[b := Zero()], b, false, c);
    }
  }

  // Rewriting an owned block leaves the bitmap right.
  lemma BitmapWrite(sb: Super, d: Disk, owner: Owners, b: nat, blk: Block)
    requires Fits(sb, d) && BitmapAgrees(sb, d, owner) && b in owner
    ensures b < sb.size && BitmapAgrees(sb, d[b := blk], owner)
  {
    assert BlockOk(sb, d, owner, b);
    var d' := d[b := blk];
    forall c: nat | c < sb.size ensures BlockOk(sb, d', owner, c) {
      assert BlockOk(sb, d, owner, c);
      WriteUsed(sb, d, b, blk, c);
    }
  }

  // ----- frame: a file none of whose blocks changed

  // `d'` has the same contents as `d` in every block inode `j` owns.
  ghost predicate KeepsBlocks(d: Disk, d': Disk, owner: Owners, j: nat) {
    |d'| == |d| && forall b | b in owner && owner[b].inum == j && b < |d| :: d'[b] == d[b]
  }

  lemma Untouched(sb: Super, d: Disk, d': Disk, ip: Inode, owner: Owners, j: nat)
    requires Fits(sb, d) && Fits(sb, d') && InodeFits(sb, ip)
    requires Holds(Slots(sb, d, ip), j, owner) && KeepsBlocks(d, d', owner, j)
    ensures Slots(sb, d', ip) == Slots(sb, d, ip)
    ensures SameFile(sb, d, ip, d', ip)
  {
    var sl := Slots(sb, d, ip);
    assert sl[NDIRECT] == ip.addrs[NDIRECT];
    if sl[NDIRECT] != 0 {
      assert OwnedBy(owner, sl[NDIRECT], j, NDIRECT);
    }
    forall s: nat | s < SLOTS ensures SlotAt(sb, d', ip, s) == SlotAt(sb, d, ip, s) {}
    assert Slots(sb, d', ip) == sl;
    forall x: nat | x < MAXFILE * BSIZE ensures FileByte(sb, d', ip, x) == FileByte(sb, d, ip, x) {
      var s := SlotOf(x / BSIZE);
      assert sl[s] != 0 ==> OwnedBy(owner, sl[s], j, s);
    }
  }

  // Every inode but `i` survives a step that touches only free blocks, the bitmap and blocks
  // of `i`.
  lemma OthersSurvive(sb: Super, d: Disk, d': Disk, nodes: map<nat, Inode>, owner: Owners,
                      owner': Owners, i: nat, j: nat)
    requires Fits(sb, d) && Fits(sb, d') && j in nodes && j != i && NodeOk(sb, d, nodes, owner, j)
    requires KeepsBlocks(d, d', owner, j)
    requires Holds(Slots(sb, d, nodes[j]), j, owner')
    ensures NodeOk(sb, d', nodes, owner', j)
    ensures SameFile(sb, d, nodes[j], d', nodes[j])
  {
    Untouched(sb, d, d', nodes[j], owner, j);
  }

  lemma NoneOwnsZero(sb: Super, d: Disk, owner: Owners)
    requires Fits(sb, d) && BitmapAgrees(sb, d, owner)
    ensures forall b | b in owner :: sb.First() <= b < sb.size
  {
    forall b | b in owner ensures sb.First() <= b {
      assert BlockOk(sb, d, owner, b);
    }
  }

  // ----- a fresh block for slot `s` of inode `i`

  /** A slot recorded in the inode: one of the direct blocks, or the indirect block.  Because a
      free block is all zeros, no byte of any file changes, and a fresh indirect block lists no
      blocks. */
  lemma GiveDirect(sb: Super, d: Disk, nodes: map<nat, Inode>, owner: Owners, i: nat, s: nat, b: nat)
    requires Inv(sb, d, nodes, owner) && i in nodes && s <= NDIRECT && nodes[i].addrs[s] == 0
    requires b < sb.size && !Used(sb, d, b)
    ensures var d' := Mark(sb, d, b, true);
            var ip' := nodes[i].(addrs := nodes[i].addrs[s := b]);
            && Inv(sb, d', nodes[i := ip'], owner[b := Place(i, s)])
            && SameFile(sb, d, nodes[i], d', ip')
            && OthersSame(sb, d, d', nodes, i)
            && Slots(sb, d', ip') == Slots(sb, d, nodes[i])[s := b]
  {
    var ip, d', owner' := nodes[i], Mark(sb, d, b, true), owner[b := Place(i, s)];
    var ip' := ip.(addrs := ip.addrs[s := b]);
    BitmapGain(sb, d, owner, b, Place(i, s));
    NoneOwnsZero(sb, d, owner);
    assert forall j :: KeepsBlocks(d, d', owner, j);
    assert NodeOk(sb, d, nodes, owner, i);
    Untouched(sb, d, d', ip, owner, i);
    var sl := Slots(sb, d, ip);
    assert sl[s] == 0;
    HoldsGain(sl, i, owner, b, Place(i, s));
    SlotsGain(sb, d, d', ip, s, b);
    forall x: nat | x < MAXFILE * BSIZE ensures FileByte(sb, d', ip', x) == FileByte(sb, d', ip, x) {
      assert d'[b] == Zero();
    }
    forall j | j in nodes && j != i
      ensures NodeOk(sb, d', nodes, owner', j) && SameFile(sb, d, nodes[j], d', nodes[j])
    {
      assert NodeOk(sb, d, nodes, owner, j);
      HoldsGain(Slots(sb, d, nodes[j]), j, owner, b, Place(i, s));
      OthersSurvive(sb, d, d', nodes, owner, owner', i, j);
    }
    InodeChanged(sb, d', nodes, owner', i, ip');
  }

  lemma SlotsGain(sb: Super, d: Disk, d': Disk, ip: Inode, s: nat, b: nat)
    requires Fits(sb, d) && Fits(sb, d') && InodeFits(sb, ip) && s <= NDIRECT && ip.addrs[s] == 0
    requires b < sb.size && d'[b] == Zero() && Slots(sb, d', ip) == Slots(sb, d, ip)
    ensures var ip' := ip.(addrs := ip.addrs[s := b]);
            Slots(sb, d', ip') == Slots(sb, d, ip)[s := b]
  {
    var ip' := ip.(addrs := ip.addrs[s := b]);
    forall t: nat | t < SLOTS ensures SlotAt(sb, d', ip', t) == Slots(sb, d', ip)[s := b][t] {
      if s == NDIRECT < t {
        ZeroWord(t - NDIRECT - 1);
      }
    }
  }

  lemma InodeChanged(sb: Super, d: Disk, nodes: map<nat, Inode>, owner: Owners, i: nat, ip: Inode)
    requires Fits(sb, d) && BitmapAgrees(sb, d, owner) && i in nodes
    requires forall b | b in owner :: owner[b].inum in nodes
    requires forall j | j in nodes && j != i :: NodeOk(sb, d, nodes, owner, j)
    requires InodeFits(sb, ip) && Holds(Slots(sb, d, ip), i, owner)
    ensures Inv(sb, d, nodes[i := ip], owner)
  {
    var nodes' := nodes[i := ip];
    forall j | j in nodes' ensures NodeOk(sb, d, nodes', owner, j) {
      assert j != i ==> NodeOk(sb, d, nodes, owner, j);
    }
  }

  // The file gains the zero block `b`, listed in its indirect block `t`.
  lemma WordGainedBytes(sb: Super, d: Disk, d': Disk, ip: Inode, owner: Owners, i: nat, s: nat, b: nat, t: nat)
    requires Fits(sb, d) && Fits(sb, d') && InodeFits(sb, ip) && NDIRECT < s < SLOTS
    requires Holds(Slots(sb, d, ip), i, owner) && OwnedBy(owner, t, i, NDIRECT)
    requires Slots(sb, d', ip) == Slots(sb, d, ip)[s := b] && Slots(sb, d, ip)[s] == 0
    requires b < sb.size && d'[b] == Zero()
    requires forall c | c in owner :: c < sb.size && (c != t ==> d'[c] == d[c])
    ensures SameFile(sb, d, ip, d', ip)
  {
    var sl := Slots(sb, d, ip);
    forall x: nat | x < MAXFILE * BSIZE ensures FileByte(sb, d', ip, x) == FileByte(sb, d, ip, x) {
      var r := SlotOf(x / BSIZE);
      assert sl[r] != 0 ==> OwnedBy(owner, sl[r], i, r);
    }
  }

  /** A slot recorded in the indirect block `t`: the bit is set and the word is stored. */
  lemma GiveIndirect(sb: Super, d: Disk, nodes: map<nat, Inode>, owner: Owners, i: nat, k: nat, b: nat)
    requires Inv(sb, d, nodes, owner) && i in nodes && k < NINDIRECT
    requires InodeFits(sb, nodes[i]) && nodes[i].addrs[NDIRECT] != 0
    requires Word(d[nodes[i].addrs[NDIRECT]], k) == 0
    requires b < sb.size && !Used(sb, d, b)
    ensures var t := nodes[i].addrs[NDIRECT];
            var d' := Mark(sb, d, b, true)[t := PutWord(d[t], k, b)];
            && Inv(sb, d', nodes, owner[b := Place(i, NDIRECT + 1 + k)])
            && SameFile(sb, d, nodes[i], d', nodes[i])
            && OthersSame(sb, d, d', nodes, i)
            && Slots(sb, d', nodes[i]) == Slots(sb, d, nodes[i])[NDIRECT + 1 + k := b]
  {
    var ip, t, p := nodes[i], nodes[i].addrs[NDIRECT], Place(i, NDIRECT + 1 + k);
    var d1, owner' := Mark(sb, d, b, true), owner[b := p];
    var d' := d1[t := PutWord(d[t], k, b)];
    var sl := Slots(sb, d, ip);
    BitmapGain(sb, d, owner, b, p);
    NoneOwnsZero(sb, d, owner);
    assert NodeOk(sb, d, nodes, owner, i);
    assert sl[NDIRECT] == t && OwnedBy(owner, t, i, NDIRECT);
    BitmapWrite(sb, d1, owner', t, PutWord(d[t], k, b));
    assert sl[NDIRECT + 1 + k] == 0;
    HoldsGain(sl, i, owner, b, p);
    WordGain(sb, d, d', ip, k, b);
    WordGainedBytes(sb, d, d', ip, owner, i, NDIRECT + 1 + k, b, t);
    forall j | j in nodes && j != i
      ensures NodeOk(sb, d', nodes, owner', j) && SameFile(sb, d, nodes[j], d', nodes[j])
    {
      assert NodeOk(sb, d, nodes, owner, j);
      HoldsGain(Slots(sb, d, nodes[j]), j, owner, b, p);
      OthersSurvive(sb, d, d', nodes, owner, owner', i, j);
    }
    InodeChanged(sb, d', nodes, owner', i, ip);
    assert nodes[i := ip] == nodes;
  }

  lemma WordGain(sb: Super, d: Disk, d': Disk, ip: Inode, k: nat, b: nat)
    requires Fits(sb, d) && Fits(sb, d') && InodeFits(sb, ip) && k < NINDIRECT && b < sb.size
    requires ip.addrs[NDIRECT] != 0
    requires d'[ip.addrs[NDIRECT]] == PutWord(d[ip.addrs[NDIRECT]], k, b)
    ensures Slots(sb, d', ip) == Slots(sb, d, ip)[NDIRECT + 1 + k := b]
  {
    forall s: nat | s < SLOTS ensures SlotAt(sb, d', ip, s) == Slots(sb, d, ip)[NDIRECT + 1 + k := b][s] {
      if s > NDIRECT {
        PutThenWord(d[ip.addrs[NDIRECT]], k, b, s - NDIRECT - 1);
      }
    }
  }

  // ----- writing data

  /** Storing a data block changes the bytes it holds of its own file and nothing else. */
  lemma WriteData(sb: Super, d: Disk, nodes: map<nat, Inode>, owner: Owners, i: nat, bn: nat, blk: Block)
    requires Inv(sb, d, nodes, owner) && i in nodes && bn < MAXFILE
    requires InodeFits(sb, nodes[i]) && Slots(sb, d, nodes[i])[SlotOf(bn)] != 0
    ensures var b := Slots(sb, d, nodes[i])[SlotOf(bn)];
            b < sb.size &&
            var d' := d[b := blk];
            && Inv(sb, d', nodes, owner)
            && OthersSame(sb, d, d', nodes, i)
            && Slots(sb, d', nodes[i]) == Slots(sb, d, nodes[i])
            && forall x: nat | x < MAXFILE * BSIZE ::
                 FileByte(sb, d', nodes[i], x)
                 == if x / BSIZE == bn then blk[x % BSIZE] else FileByte(sb, d, nodes[i], x)
  {
    var ip, sl := nodes[i], Slots(sb, d, nodes[i]);
    var b := sl[SlotOf(bn)];
    assert NodeOk(sb, d, nodes, owner, i);
    assert OwnedBy(owner, b, i, SlotOf(bn));
    BitmapWrite(sb, d, owner, b, blk);
    var d' := d[b := blk];
    assert sl[NDIRECT] == ip.addrs[NDIRECT];
    assert sl[NDIRECT] != 0 ==> OwnedBy(owner, sl[NDIRECT], i, NDIRECT);
    forall s: nat | s < SLOTS ensures SlotAt(sb, d', ip, s) == SlotAt(sb, d, ip, s) {}
    assert Slots(sb, d', ip) == sl;
    forall x: nat | x < MAXFILE * BSIZE
      ensures FileByte(sb, d', ip, x)
           == if x / BSIZE == bn then blk[x % BSIZE] else FileByte(sb, d, ip, x)
    {
      var s := SlotOf(x / BSIZE);
      assert sl[s] != 0 ==> OwnedBy(owner, sl[s], i, s);
    }
    forall j | j in nodes && j != i
      ensures NodeOk(sb, d', nodes, owner, j) && SameFile(sb, d, nodes[j], d', nodes[j])
    {
      assert NodeOk(sb, d, nodes, owner, j);
      OthersSurvive(sb, d, d', nodes, owner, owner, i, j);
    }
    InodeChanged(sb, d', nodes, owner, i, ip);
    assert nodes[i := ip] == nodes;
  }

  // ----- taking a block away

  /** `bfree` of the block in slot `s`: its bit is cleared and it is zeroed, and the inode is left
      holding its other slots. */
  lemma TakeBlock(sb: Super, d: Disk, nodes: map<nat, Inode>, owner: Owners, i: nat, sl: seq<nat>, s: nat)
    requires InvWith(sb, d, nodes, owner, i, sl) && s < SLOTS && sl[s] != 0
    ensures sb.First() <= sl[s] < sb.size && Used(sb, d, sl[s])
    ensures var d' := Mark(sb, d[sl[s] := Zero()], sl[s], false);
            && InvWith(sb, d', nodes, owner - {sl[s]}, i, sl[s := 0])
            && OthersSame(sb, d, d', nodes, i)
            && forall b | b in owner && b != sl[s] && b < sb.size :: d'[b] == d[b]
  {
    var b := sl[s];
    assert OwnedBy(owner, b, i, s);
    BitmapLose(sb, d, owner, b);
    NoneOwnsZero(sb, d, owner);
    var d', owner' := Mark(sb, d[b := Zero()], b, false), owner - {b};
    HoldsLose(sl, i, owner, b);
    forall j | j in nodes && j != i
      ensures NodeOk(sb, d', nodes, owner', j) && SameFile(sb, d, nodes[j], d', nodes[j])
    {
      assert NodeOk(sb, d, nodes, owner, j);
      HoldsLose(Slots(sb, d, nodes[j]), j, owner, b);
      OthersSurvive(sb, d, d', nodes, owner, owner', i, j);
    }
  }
}
