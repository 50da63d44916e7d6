/** The file system's plain disk on the buffer cache: a block is read by `bread` and `brelse`, and
    written by `bread`, a change of the buffer, `bwrite` and `brelse`. */
module BlockIo {
  import opened BioSpec
  import opened Bio
  import opened Blocks
  import opened Common
  import F = FsState

  // A block as the cache has it.
  function AsData(b: seq<byte>): (r: Data)
    ensures |r| == |b|
  {
    seq(|b|, i requires 0 <= i < |b| => b[i] as int)
  }

  function AsBytes(d: Data): (r: seq<byte>)
    requires forall i | 0 <= i < |d| :: 0 <= d[i] < 256
    ensures |r| == |d|
  {
    seq(|d|, i requires 0 <= i < |d| => d[i] as byte)
  }

  lemma BytesBack(b: seq<byte>)
    ensures AsBytes(AsData(b)) == b
  {
  }

  // Disk `dev` under the cache has the blocks `d`.
  ghost predicate Stores(disk: Disk, dev: int, d: F.Disk) {
    forall b: nat | b < |d| :: disk.Read(Key(dev, b)) == AsData(d[b])
  }

  /** Reading a block through the cache is reading it from the disk. */
  method ReadBlock(cache: BufCache, p: Pid, dev: int, b: nat, ghost d: F.Disk) returns (block: Block)
    requires cache.Valid() && Quiet(cache.Now()) && dev != NODEV && Stores(cache.disk, dev, d) && b < |d|
    modifies cache, cache.bufs, cache.next, cache.prev
    ensures cache.Valid() && Quiet(cache.Now()) && cache.disk == old(cache.disk)
    ensures block == d[b]
    ensures |cache.disk.Read(Key(dev, b))| == 512
    ensures forall j | 0 <= j < 512 :: block[j] as int == cache.disk.Read(Key(dev, b))[j]
  {
    var r := cache.Bread(p, dev, b, []);
    BytesBack(d[b]);
    block := AsBytes(cache.bufs[r.b].data);
    cache.Brelse(p, r.b);
  }

  lemma StoresOne(disk: Disk, dev: int, d: F.Disk, b: nat, block: Block)
    requires Stores(disk, dev, d) && b < |d|
    ensures Stores(Disk(disk.sectors[Key(dev, b) := AsData(block)], disk.blank), dev, d[b := block])
  {
  }

  /** Writing it is writing it to the disk, and no other block changes. */
  method WriteBlock(cache: BufCache, p: Pid, dev: int, b: nat, block: Block, ghost d: F.Disk)
    requires cache.Valid() && Quiet(cache.Now()) && dev != NODEV && Stores(cache.disk, dev, d) && b < |d|
    modifies cache, cache.bufs, cache.next, cache.prev
    ensures cache.Valid() && Quiet(cache.Now()) && Stores(cache.disk, dev, d[b := block])
    ensures |cache.disk.Read(Key(dev, b))| == 512
    ensures forall j | 0 <= j < 512 :: cache.disk.Read(Key(dev, b))[j] == block[j] as int
    ensures forall k: Key | k != Key(dev, b) :: cache.disk.Read(k) == old(cache.disk).Read(k)
  {
    StoresOne(cache.disk, dev, d, b, block);
    var r := cache.Bread(p, dev, b, []);
    cache.Change(p, r.b, AsData(block));
    cache.Bwrite(p, r.b, []);
    cache.Brelse(p, r.b);
  }

  // What a layer above asks for.
  datatype Op = Get(b: nat) | Put(b: nat, block: Block)

  ghost predicate OpsOk(ops: seq<Op>, n: nat) { forall i | 0 <= i < |ops| :: ops[i].b < n }

  // The same on a plain disk: the disk after the first `n` operations, and what they have read.
  ghost function After(d: F.Disk, ops: seq<Op>, n: nat): (d': F.Disk)
    requires n <= |ops| && OpsOk(ops, |d|)
    ensures |d'| == |d|
  {
    if n == 0 then d
    else
      var d1 := After(d, ops, n - 1);
      match ops[n - 1] case Get(_) => d1 case Put(b, block) => d1[b := block]
  }

  ghost function Answers(d: F.Disk, ops: seq<Op>, n: nat): (r: seq<Block>)
    requires n <= |ops| && OpsOk(ops, |d|)
  {
    if n == 0 then []
    else
      Answers(d, ops, n - 1) + match ops[n - 1] case Get(b) => [After(d, ops, n - 1)[b]] case Put(_, _) => []
  }

  /** A block of the plain disk is what was last written to it, or what it was. */
  lemma {:induction false} LastWritten(d: F.Disk, ops: seq<Op>, n: nat, b: nat)
    requires n <= |ops| && OpsOk(ops, |d|) && b < |d|
    ensures (forall i | 0 <= i < n :: !(ops[i].Put? && ops[i].b == b)) ==> After(d, ops, n)[b] == d[b]
    ensures forall i | 0 <= i < n && ops[i].Put? && ops[i].b == b ::
      (forall j | i < j < n :: !(ops[j].Put? && ops[j].b == b)) ==> After(d, ops, n)[b] == ops[i].block
  {
    if n > 0 {
      LastWritten(d, ops, n - 1, b);
    }
  }

  /** Any sequence of reads and writes of blocks has through the cache the answers and the effect it has on
      the plain disk. */
  method Perform(cache: BufCache, p: Pid, dev: int, ops: seq<Op>, ghost d: F.Disk) returns (answers: seq<Block>)
    requires cache.Valid() && Quiet(cache.Now()) && dev != NODEV && Stores(cache.disk, dev, d) && OpsOk(ops, |d|)
    modifies cache, cache.bufs, cache.next, cache.prev
    ensures cache.Valid() && Quiet(cache.Now()) && Stores(cache.disk, dev, After(d, ops, |ops|))
    ensures answers == Answers(d, ops, |ops|)
  {
    answers := [];
    var i := 0;
    while i < |ops|
      invariant 0 <= i <= |ops| && cache.Valid() && Quiet(cache.Now())
      invariant Stores(cache.disk, dev, After(d, ops, i)) && answers == Answers(d, ops, i)
    {
      ghost var d1 := After(d, ops, i);
      match ops[i] {
        case Get(b) =>
          var block := ReadBlock(cache, p, dev, b, d1);
          answers := answers + [block];
        case Put(b, block) =>
          WriteBlock(cache, p, dev, b, block, d1);
      }
      i := i + 1;
    }
  }
}
