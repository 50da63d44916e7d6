/** What is on the disk, read as a file system: which block belongs to which slot of which
    inode, and which byte is at which place of which file. */
module FsState {
  import opened Blocks
  import opened Common

  const NDIRECT: nat := 12
  const MAXFILE: nat := 140
  const IPB: nat := 8
  const WORD: nat := 0x1_0000_0000

  datatype Super = Super(size: nat, ninodes: nat) {
    function FirstBitmap(): nat { ninodes / IPB + 3 }
    // First block that is neither boot block, superblock, inode block nor bitmap.
    function First(): nat { FirstBitmap() + size / BPB + 1 }
    predicate Valid() { First() <= size < WORD }
  }

  // The in-memory inode.  `addrs` holds NDIRECT data blocks and then the indirect block.
  datatype Inode = Inode(kind: int, major: int, size: nat, addrs: seq<nat>)

  type Disk = seq<Block>

  predicate Fits(sb: Super, d: Disk) {
    sb.Valid() && |d| == sb.size
  }

  // ----- the bitmap

  function BBlock(sb: Super, b: nat): nat { b / BPB + sb.FirstBitmap() }

  /** The disk from its start: boot block and superblock, inode blocks, bitmap, data. */
  lemma Layout(sb: Super, i: nat, b: nat)
    requires i < sb.ninodes && b < sb.size
    ensures 2 <= i / 8 + 2 < sb.FirstBitmap() <= BBlock(sb, b) < sb.First()
    ensures BBlock(sb, b) == b / 4096 + sb.ninodes / 8 + 3
  {
  }

  predicate Used(sb: Super, d: Disk, b: nat)
    requires Fits(sb, d) && b < sb.size
  {
    Bit(d[BBlock(sb, b)], b % BPB)
  }

  function Mark(sb: Super, d: Disk, b: nat, on: bool): Disk
    requires Fits(sb, d) && b < sb.size
  {
    d[BBlock(sb, b) := WithBit(d[BBlock(sb, b)], b % BPB, on)]
  }

  lemma MarkUsed(sb: Super, d: Disk, b: nat, on: bool, c: nat)
    requires Fits(sb, d) && b < sb.size && c < sb.size
    ensures Used(sb, Mark(sb, d, b, on), c) <==> if c == b then on else Used(sb, d, c)
  {
    BitAfter(d[BBlock(sb, b)], b % BPB, on, c % BPB);
  }

  // Writing a block that is not part of the bitmap.
  lemma WriteUsed(sb: Super, d: Disk, b: nat, blk: Block, c: nat)
    requires Fits(sb, d) && sb.First() <= b < sb.size && c < sb.size
    ensures Used(sb, d[b := blk], c) <==> Used(sb, d, c)
  {
  }

  // ----- slots: 0..11 direct, 12 the indirect block, 13..140 its words

  const SLOTS: nat := 141

  ghost predicate InodeFits(sb: Super, ip: Inode) {
    && |ip.addrs| == NDIRECT + 1
    && ip.size <= MAXFILE * BSIZE
    && ip.addrs[NDIRECT] < sb.size
  }

  ghost function SlotAt(sb: Super, d: Disk, ip: Inode, s: nat): nat
    requires Fits(sb, d) && InodeFits(sb, ip) && s < SLOTS
  {
    if s <= NDIRECT then ip.addrs[s]
    else if ip.addrs[NDIRECT] == 0 then 0
    else Word(d[ip.addrs[NDIRECT]], s - NDIRECT - 1)
  }

  ghost function Slots(sb: Super, d: Disk, ip: Inode): (sl: seq<nat>)
    requires Fits(sb, d) && InodeFits(sb, ip)
    ensures |sl| == SLOTS
  {
    seq(SLOTS, s requires 0 <= s < SLOTS => SlotAt(sb, d, ip, s))
  }

  // Slot of the `bn`th block of a file.
  function SlotOf(bn: nat): nat { if bn < NDIRECT then bn else bn + 1 }

  // ----- ownership

  // For every data block in use, the inode and slot it belongs to.
  datatype Place = Place(inum: nat, slot: nat)
  type Owners = map<nat, Place>

  // Inode `i` has the blocks `sl`, and these are the ones it owns.
  ghost predicate Holds(sl: seq<nat>, i: nat, owner: Owners) {
    && |sl| == SLOTS
    && (forall s {:trigger OwnedBy(owner, sl[s], i, s)} | 0 <= s < SLOTS ::
          sl[s] != 0 ==> OwnedBy(owner, sl[s], i, s))
    && (forall b | b in owner && owner[b].inum == i :: SlotHas(sl, owner[b].slot, b))
  }

  ghost predicate SlotHas(sl: seq<nat>, s: nat, b: nat) {
    s < |sl| && sl[s] == b
  }

  ghost predicate OwnedBy(owner: Owners, b: nat, i: nat, s: nat) {
    b in owner && owner[b] == Place(i, s)
  }

  // The bitmap says exactly which blocks are owned, and every other block is zero.
  ghost predicate BlockOk(sb: Super, d: Disk, owner: Owners, b: nat)
    requires Fits(sb, d) && b < sb.size
  {
    && (b < sb.First() ==> b !in owner)
    && (Used(sb, d, b) <==> b < sb.First() || b in owner)
    && (!Used(sb, d, b) ==> d[b] == Zero())
  }

  ghost predicate BitmapAgrees(sb: Super, d: Disk, owner: Owners)
    requires Fits(sb, d)
  {
    && (forall b | b in owner :: b < sb.size)
    && (forall b: nat | b < sb.size :: BlockOk(sb, d, owner, b))
  }

  ghost predicate Inv(sb: Super, d: Disk, nodes: map<nat, Inode>, owner: Owners) {
    && Fits(sb, d)
    && BitmapAgrees(sb, d, owner)
    && (forall b | b in owner :: owner[b].inum in nodes)
    && (forall i | i in nodes :: NodeOk(sb, d, nodes, owner, i))
  }

  ghost predicate NodeOk(sb: Super, d: Disk, nodes: map<nat, Inode>, owner: Owners, i: nat)
    requires Fits(sb, d) && i in nodes
  {
    InodeFits(sb, nodes[i]) && Holds(Slots(sb, d, nodes[i]), i, owner)
  }

  /** No block belongs to two places: two slots with the same block are the same slot. */
  lemma NoSharing(sb: Super, d: Disk, nodes: map<nat, Inode>, owner: Owners,
                  i: nat, s: nat, j: nat, t: nat)
    requires Inv(sb, d, nodes, owner) && i in nodes && j in nodes && s < SLOTS && t < SLOTS
    requires Slots(sb, d, nodes[i])[s] == Slots(sb, d, nodes[j])[t] != 0
    ensures i == j && s == t
  {
    assert NodeOk(sb, d, nodes, owner, i) && NodeOk(sb, d, nodes, owner, j);
    assert OwnedBy(owner, Slots(sb, d, nodes[i])[s], i, s);
    assert OwnedBy(owner, Slots(sb, d, nodes[j])[t], j, t);
  }

  /** A data block's bit is set exactly when some slot of some inode has it. */
  lemma UsedIffHeld(sb: Super, d: Disk, nodes: map<nat, Inode>, owner: Owners, b: nat)
    requires Inv(sb, d, nodes, owner) && sb.First() <= b < sb.size
    ensures Used(sb, d, b) <==>
      exists i, s :: i in nodes && 0 <= s < SLOTS && NodeOk(sb, d, nodes, owner, i)
                     && Slots(sb, d, nodes[i])[s] == b
  {
    assert BlockOk(sb, d, owner, b);
    if Used(sb, d, b) {
      var Place(i, s) := owner[b];
      assert NodeOk(sb, d, nodes, owner, i);
      assert Slots(sb, d, nodes[i])[s] == b;
    }
    if i, s :| i in nodes && 0 <= s < SLOTS && NodeOk(sb, d, nodes, owner, i)
               && Slots(sb, d, nodes[i])[s] == b {
      assert OwnedBy(owner, b, i, s);
    }
  }

  // ----- file contents

  // The byte at offset `x` of a file with blocks `sl`; a missing block reads as zeros.
  ghost function ByteAt(d: Disk, sl: seq<nat>, x: nat): byte
    requires |sl| == SLOTS && x < MAXFILE * BSIZE
  {
    var b := sl[SlotOf(x / BSIZE)];
    if b == 0 || b >= |d| then 0 else d[b][x % BSIZE]
  }

  ghost function FileByte(sb: Super, d: Disk, ip: Inode, x: nat): byte
    requires Fits(sb, d) && InodeFits(sb, ip) && x < MAXFILE * BSIZE
  {
    ByteAt(d, Slots(sb, d, ip), x)
  }

  ghost function Contents(sb: Super, d: Disk, ip: Inode): seq<byte>
    requires Fits(sb, d) && InodeFits(sb, ip)
  {
    seq(ip.size, x requires 0 <= x < ip.size => FileByte(sb, d, ip, x))
  }

  /** The bytes of the first twelve blocks are in the blocks that the inode itself lists, in
      their order; those of a block it does not have are zeros. */
  lemma DirectByte(sb: Super, d: Disk, ip: Inode, x: nat)
    requires Fits(sb, d) && InodeFits(sb, ip) && x < NDIRECT * BSIZE
    ensures 0 < ip.addrs[x / BSIZE] < sb.size ==> FileByte(sb, d, ip, x) == d[ip.addrs[x / BSIZE]][x % BSIZE]
    ensures ip.addrs[x / BSIZE] == 0 ==> FileByte(sb, d, ip, x) == 0
  {
  }

  /** The bytes after them are in the blocks that the words of the indirect block list, in
      their order. */
  lemma IndirectByte(sb: Super, d: Disk, ip: Inode, x: nat)
    requires Fits(sb, d) && InodeFits(sb, ip) && NDIRECT * BSIZE <= x < MAXFILE * BSIZE
    ensures ip.addrs[NDIRECT] == 0 ==> FileByte(sb, d, ip, x) == 0
    ensures ip.addrs[NDIRECT] != 0 ==>
      var b := Word(d[ip.addrs[NDIRECT]], x / BSIZE - NDIRECT);
      && (b == 0 ==> FileByte(sb, d, ip, x) == 0)
      && (0 < b < sb.size ==> FileByte(sb, d, ip, x) == d[b][x % BSIZE])
  {
  }
}
