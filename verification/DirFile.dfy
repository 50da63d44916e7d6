/** `dirlookup`, `dirlink` and the writing half of `unlink`: directories as files, whose bytes are
    entries of 16 bytes, over the layer below. */
module DirFile {
  import opened Blocks
  import opened Common
  import opened FsState
  import opened FsSteps
  import opened Fs
  import D = Dirs

  const T_DIR := 1
  const ENTSIZE: nat := 16
  const PERBLOCK: nat := 32            // BSIZE / ENTSIZE
  const MAXENTS: nat := 4480           // MAXFILE * PERBLOCK

  // ----- an entry as bytes

  function Encode(e: D.Dirent): (b: seq<byte>)
    requires e.inum < 0x1_0000 && |e.name| == D.DIRSIZ
    ensures |b| == ENTSIZE
  {
    [(e.inum % 0x100) as byte, (e.inum / 0x100) as byte]
    + seq(D.DIRSIZ, k requires 0 <= k < D.DIRSIZ => (e.name[k] as int) as byte)
  }

  function Decode(b: seq<byte>): (e: D.Dirent)
    requires |b| == ENTSIZE
    ensures |e.name| == D.DIRSIZ
  {
    D.Dirent(b[0] as nat + 0x100 * b[1] as nat,
             seq(D.DIRSIZ, k requires 0 <= k < D.DIRSIZ => (b[2 + k] as int) as char))
  }

  lemma DecodeEncode(e: D.Dirent)
    requires e.inum < 0x1_0000 && |e.name| == D.DIRSIZ
    ensures Decode(Encode(e)) == e
  {
    assert Decode(Encode(e)).name == e.name;
  }

  // ----- a directory as a file

  ghost function EntryAt(sb: Super, d: Disk, ip: Inode, k: nat): D.Dirent
    requires Fits(sb, d) && InodeFits(sb, ip) && k < MAXENTS
  {
    Decode(seq(ENTSIZE, j requires 0 <= j < ENTSIZE => FileByte(sb, d, ip, 16 * k + j)))
  }

  /** Entry `k` is the 16 bytes at 16k: its number, low byte first, and then the characters of its name. */
  lemma EntryBytes(sb: Super, d: Disk, ip: Inode, k: nat, c: nat)
    requires Fits(sb, d) && InodeFits(sb, ip) && k < MAXENTS && c < 14
    ensures EntryAt(sb, d, ip, k).inum ==
      FileByte(sb, d, ip, 16 * k) as nat + 256 * FileByte(sb, d, ip, 16 * k + 1) as nat
    ensures EntryAt(sb, d, ip, k).name[c] as int == FileByte(sb, d, ip, 16 * k + 2 + c) as int
  {
  }

  // All the entries that the blocks of a file may have; a missing block has free ones.
  ghost function Entries(sb: Super, d: Disk, ip: Inode): (ents: seq<D.Dirent>)
    requires Fits(sb, d) && InodeFits(sb, ip)
    ensures |ents| == MAXENTS
  {
    seq(MAXENTS, k requires 0 <= k < MAXENTS => EntryAt(sb, d, ip, k))
  }

  // A directory is whole entries long, its names are unique, and nothing is past its end.
  ghost predicate DirOk(sb: Super, d: Disk, ip: Inode) {
    && Fits(sb, d) && InodeFits(sb, ip) && ip.kind == T_DIR && ip.size % ENTSIZE == 0
    && D.NamesOk(Entries(sb, d, ip))
    && forall k: nat | D.Used(Entries(sb, d, ip), k) :: 16 * k < ip.size
  }

  lemma SameEntries(sb: Super, d: Disk, ip: Inode, d': Disk, ip': Inode)
    requires SameFile(sb, d, ip, d', ip')
    ensures Entries(sb, d', ip') == Entries(sb, d, ip)
  {
    forall k: nat | k < MAXENTS ensures EntryAt(sb, d', ip', k) == EntryAt(sb, d, ip, k) {
      var b := seq(ENTSIZE, j requires 0 <= j < ENTSIZE => FileByte(sb, d, ip, 16 * k + j));
      var b' := seq(ENTSIZE, j requires 0 <= j < ENTSIZE => FileByte(sb, d', ip', 16 * k + j));
      assert b == b';
    }
  }

  // Entry `j` of a block.
  function EntryOf(block: Block, j: nat): D.Dirent
    requires j < PERBLOCK
  {
    Decode(block[16 * j..16 * j + 16])
  }

  // The block has the entries of block `bn` of the directory.
  ghost predicate Holding(block: Block, ents: seq<D.Dirent>, bn: nat) {
    bn < MAXFILE && |ents| == MAXENTS && forall j: nat | j < PERBLOCK :: EntryOf(block, j) == ents[32 * bn + j]
  }

  lemma EntryInBlock(sb: Super, d: Disk, ip: Inode, bn: nat, b: nat, j: nat)
    requires Fits(sb, d) && InodeFits(sb, ip) && bn < MAXFILE && j < PERBLOCK
    requires b == Slots(sb, d, ip)[SlotOf(bn)] && 0 < b < sb.size
    ensures EntryOf(d[b], j) == Entries(sb, d, ip)[32 * bn + j]
  {
    var k := 32 * bn + j;
    var bytes := seq(ENTSIZE, t requires 0 <= t < ENTSIZE => FileByte(sb, d, ip, 16 * k + t));
    forall t | 0 <= t < ENTSIZE ensures bytes[t] == d[b][16 * j + t] {
      var x := 16 * k + t;
      InBlock(bn, 16 * j + t);
      assert x == BSIZE * bn + (16 * j + t);
      assert FileByte(sb, d, ip, x) == d[b][x % BSIZE];
    }
    assert d[b][16 * j..16 * j + 16] == bytes;
  }

  // Entry `k` as `readi` delivers it.
  lemma EntryInFile(sb: Super, d: Disk, ip: Inode, k: nat)
    requires Fits(sb, d) && InodeFits(sb, ip) && 16 * k + ENTSIZE <= ip.size
    ensures k < MAXENTS
    ensures Decode(Contents(sb, d, ip)[16 * k..16 * k + ENTSIZE]) == Entries(sb, d, ip)[k]
  {
    assert Contents(sb, d, ip)[16 * k..16 * k + ENTSIZE]
        == seq(ENTSIZE, t requires 0 <= t < ENTSIZE => FileByte(sb, d, ip, 16 * k + t));
  }

  /** Writing the 16 bytes of an entry in its place changes that entry and no other. */
  lemma EntryWritten(sb: Super, d0: Disk, ip0: Inode, d: Disk, ip: Inode, k: nat, e: D.Dirent)
    requires e.inum < 0x1_0000 && |e.name| == D.DIRSIZ && k < MAXENTS
    requires Written(sb, d0, ip0, d, ip, Encode(e), 16 * k, ENTSIZE)
    ensures Entries(sb, d, ip) == Entries(sb, d0, ip0)[k := e]
  {
    forall i: nat | i < MAXENTS
      ensures EntryAt(sb, d, ip, i) == if i == k then e else EntryAt(sb, d0, ip0, i)
    {
      var b := seq(ENTSIZE, j requires 0 <= j < ENTSIZE => FileByte(sb, d, ip, 16 * i + j));
      if i == k {
        assert b == Encode(e);
        DecodeEncode(e);
      } else {
        assert b == seq(ENTSIZE, j requires 0 <= j < ENTSIZE => FileByte(sb, d0, ip0, 16 * i + j));
      }
    }
  }

  // ----- the code

  lemma OthersTwice(sb: Super, d: Disk, d1: Disk, d2: Disk, nodes: map<nat, Inode>, nodes1: map<nat, Inode>, i: nat)
    requires OthersSame(sb, d, d1, nodes, i) && OthersSame(sb, d1, d2, nodes1, i)
    requires forall j | j in nodes && j != i :: j in nodes1 && nodes1[j] == nodes[j]
    ensures OthersSame(sb, d, d2, nodes, i)
  {
    forall j | j in nodes && j != i ensures SameFile(sb, d, nodes[j], d2, nodes[j]) {
      assert SameFile(sb, d, nodes[j], d1, nodes[j]) && SameFile(sb, d1, nodes1[j], d2, nodes1[j]);
    }
  }

  // Nothing of a directory changes when blocks are only added.
  lemma GrewDir(sb: Super, d: Disk, nodes: map<nat, Inode>, owner: Owners,
                d': Disk, nodes': map<nat, Inode>, owner': Owners, i: nat)
    requires Grew(sb, d, nodes, owner, d', nodes', owner', i) && DirOk(sb, d, nodes[i])
    ensures Entries(sb, d', nodes'[i]) == Entries(sb, d, nodes[i])
    ensures DirOk(sb, d', nodes'[i]) && nodes'[i].size == nodes[i].size
  {
    SameEntries(sb, d, nodes[i], d', nodes'[i]);
  }

  // None of the first `n` entries has the name.
  ghost predicate NoneBelow(ents: seq<D.Dirent>, n: nat, key: seq<Char>) {
    forall k: nat | k < n :: !D.Names(ents, k, key)
  }

  // The number that `key` is listed with, and where; 0 exactly when it is not listed.
  ghost predicate Found(ents: seq<D.Dirent>, key: seq<Char>, inum: nat, at: nat) {
    if inum == 0 then key !in D.Listing(ents)
    else D.Names(ents, at, key) && key in D.Listing(ents) && D.Listing(ents)[key] == ents[at].inum == inum
  }

  lemma FoundAt(ents: seq<D.Dirent>, key: seq<Char>, at: nat)
    requires D.NamesOk(ents) && D.Names(ents, at, key)
    ensures Found(ents, key, ents[at].inum, at)
  {
    D.ListingIs(ents);
  }

  // The search has passed the end of the directory.
  lemma NotFound(sb: Super, d: Disk, ip: Inode, off: nat, key: seq<Char>)
    requires DirOk(sb, d, ip) && ip.size <= 16 * off && NoneBelow(Entries(sb, d, ip), off, key)
    ensures Found(Entries(sb, d, ip), key, 0, 0)
  {
    var ents := Entries(sb, d, ip);
    D.ListingIs(ents);
    forall k: nat ensures !D.Names(ents, k, key) {
      assert D.Names(ents, k, key) ==> D.Used(ents, k);
    }
  }

  // Looks `name` up in block `bn` of the directory with entries `ents`.
  method ScanBlock(block: Block, bn: nat, name: seq<Char>, ghost ents: seq<D.Dirent>) returns (inum: nat, at: nat)
    requires D.Readable(name) && Holding(block, ents, bn) && NoneBelow(ents, 32 * bn, D.Key(name))
    ensures inum != 0 ==> D.Names(ents, at, D.Key(name)) && ents[at].inum == inum
    ensures inum == 0 ==> NoneBelow(ents, 32 * (bn + 1), D.Key(name))
  {
    var j := 0;
    while j < PERBLOCK
      invariant j <= PERBLOCK && NoneBelow(ents, 32 * bn + j, D.Key(name))
    {
      var de := EntryOf(block, j);
      assert de == ents[32 * bn + j];
      if de.inum != 0 {
        var same := D.NameCmp(name, de.name);
        if same {
          return de.inum, 32 * bn + j;
        }
      }
      j := j + 1;
    }
    return 0, 0;
  }

  // The entries in a block that `bmap` has just looked up.
  lemma BlockRead(sb: Super, d0: Disk, ip0: Inode, d: Disk, nodes: map<nat, Inode>, owner: Owners,
                  dp: nat, bn: nat, b: nat)
    requires Inv(sb, d, nodes, owner) && dp in nodes && NodeOk(sb, d, nodes, owner, dp)
    requires SameFile(sb, d0, ip0, d, nodes[dp])
    requires bn < MAXFILE && b == Slots(sb, d, nodes[dp])[SlotOf(bn)] != 0
    ensures b < sb.size && Holding(d[b], Entries(sb, d0, ip0), bn)
  {
    SlotInRange(sb, d, nodes, owner, dp, SlotOf(bn));
    SameEntries(sb, d0, ip0, d, nodes[dp]);
    forall j: nat | j < PERBLOCK ensures EntryOf(d[b], j) == Entries(sb, d0, ip0)[32 * bn + j] {
      EntryInBlock(sb, d, nodes[dp], bn, b, j);
    }
  }

  /** `dirlookup`: entries block by block, whole blocks at a time. */
  method Dirlookup(fs: FileSystem, dp: nat, name: seq<Char>) returns (ok: bool, inum: nat, at: nat)
    requires fs.Valid() && dp in fs.nodes && DirOk(fs.sb, fs.disk, fs.nodes[dp]) && D.Readable(name)
    modifies fs`disk, fs`nodes, fs`owner
    ensures !ok ==> Full(fs.sb, fs.disk)
    ensures ok ==> Grew(fs.sb, old(fs.disk), old(fs.nodes), old(fs.owner), fs.disk, fs.nodes, fs.owner, dp)
    ensures ok ==> Found(Entries(fs.sb, old(fs.disk), old(fs.nodes[dp])), D.Key(name), inum, at)
    ensures ok ==>
      var listing := D.Listing(Entries(fs.sb, old(fs.disk), old(fs.nodes[dp])));
      if D.Key(name) in listing then inum == listing[D.Key(name)] != 0 else inum == 0
  {
    ghost var d0, n0, o0 := fs.disk, fs.nodes, fs.owner;
    ghost var ents := Entries(fs.sb, d0, n0[dp]);
    GrewNot(fs.sb, d0, n0, o0, dp);
    var bn := 0;
    while BSIZE * bn < fs.nodes[dp].size
      invariant Grew(fs.sb, d0, n0, o0, fs.disk, fs.nodes, fs.owner, dp)
      invariant bn <= MAXFILE && NoneBelow(ents, 32 * bn, D.Key(name))
      decreases MAXFILE - bn
    {
      ghost var d, n, o := fs.disk, fs.nodes, fs.owner;
      var b;
      assert NodeOk(fs.sb, d, n, o, dp);
      ok, b := fs.Bmap(dp, bn);
      if !ok {
        return false, 0, 0;
      }
      GrewTwice(fs.sb, d0, n0, o0, d, n, o, fs.disk, fs.nodes, fs.owner, dp);
      assert NodeOk(fs.sb, fs.disk, fs.nodes, fs.owner, dp);
      BlockRead(fs.sb, d0, n0[dp], fs.disk, fs.nodes, fs.owner, dp, bn, b);
      inum, at := ScanBlock(fs.disk[b], bn, name, ents);
      if inum != 0 {
        FoundAt(ents, D.Key(name), at);
        return true, inum, at;
      }
      bn := bn + 1;
    }
    NotFound(fs.sb, d0, n0[dp], 32 * bn, D.Key(name));
    return true, 0, 0;
  }

  datatype LinkResult =
    | Linked
    | Exists
    | Panic               // the directory is as long as a file can be
    | NoBlocks            // the disk is full

  // The directory after one more entry, or one fewer; nothing else is different.
  ghost predicate Relisted(sb: Super, d: Disk, nodes: map<nat, Inode>, d': Disk, nodes': map<nat, Inode>, dp: nat,
                           listing: map<seq<Char>, nat>)
  {
    && dp in nodes && dp in nodes' && DirOk(sb, d', nodes'[dp])
    && D.Listing(Entries(sb, d', nodes'[dp])) == listing
    && OthersSame(sb, d, d', nodes, dp)
    && nodes' == nodes[dp := nodes[dp].(addrs := nodes'[dp].addrs, size := nodes'[dp].size)]
  }

  lemma GrewRelisted(sb: Super, d: Disk, nodes: map<nat, Inode>, owner: Owners, d1: Disk, nodes1: map<nat, Inode>,
                     owner1: Owners, dp: nat)
    requires Grew(sb, d, nodes, owner, d1, nodes1, owner1, dp) && DirOk(sb, d, nodes[dp])
    ensures Relisted(sb, d, nodes, d1, nodes1, dp, D.Listing(Entries(sb, d, nodes[dp])))
    ensures nodes1[dp].size == nodes[dp].size
  {
    GrewDir(sb, d, nodes, owner, d1, nodes1, owner1, dp);
  }

  // Entry `k` of a directory, at most one past its end, has become `e`.
  lemma PutDirOk(sb: Super, d: Disk, ip: Inode, d': Disk, ip': Inode, k: nat, e: D.Dirent)
    requires DirOk(sb, d, ip) && k < MAXENTS && 16 * k <= ip.size && |e.name| == D.DIRSIZ
    requires Fits(sb, d') && InodeFits(sb, ip') && ip'.kind == T_DIR
    requires ip'.size == ip.size + if 16 * k == ip.size then ENTSIZE else 0
    requires Entries(sb, d', ip') == Entries(sb, d, ip)[k := e] && D.NamesOk(Entries(sb, d', ip'))
    ensures DirOk(sb, d', ip')
  {
    var ents, ents' := Entries(sb, d, ip), Entries(sb, d', ip');
    forall i: nat | D.Used(ents', i) ensures 16 * i < ip'.size {
      assert i != k ==> D.Used(ents, i);
    }
  }

  // `writei` put entry `e` at place `k`.
  lemma PutEntry(sb: Super, d1: Disk, nodes1: map<nat, Inode>, dinodes1: map<nat, Inode>,
                 d2: Disk, nodes2: map<nat, Inode>, dinodes2: map<nat, Inode>, dp: nat, k: nat, e: D.Dirent)
    requires dp in nodes1 && DirOk(sb, d1, nodes1[dp])
    requires e.inum < 0x1_0000 && |e.name| == D.DIRSIZ && k < MAXENTS && 16 * k <= nodes1[dp].size
    requires WriteDone(sb, d1, nodes1, dinodes1, d2, nodes2, dinodes2, dp, Encode(e), 16 * k, ENTSIZE)
    requires D.NamesOk(Entries(sb, d1, nodes1[dp])[k := e])
    ensures Relisted(sb, d1, nodes1, d2, nodes2, dp, D.Listing(Entries(sb, d1, nodes1[dp])[k := e]))
    ensures nodes2[dp].size == nodes1[dp].size + if 16 * k == nodes1[dp].size then ENTSIZE else 0
  {
    EntryWritten(sb, d1, nodes1[dp], d2, nodes2[dp], k, e);
    PutDirOk(sb, d1, nodes1[dp], d2, nodes2[dp], k, e);
  }

  // `writei` wrote nothing.
  lemma PutNothing(sb: Super, d1: Disk, nodes1: map<nat, Inode>, dinodes1: map<nat, Inode>,
                   d2: Disk, nodes2: map<nat, Inode>, dinodes2: map<nat, Inode>, dp: nat, src: seq<byte>, off: nat)
    requires dp in nodes1 && DirOk(sb, d1, nodes1[dp]) && off <= nodes1[dp].size
    requires WriteDone(sb, d1, nodes1, dinodes1, d2, nodes2, dinodes2, dp, src, off, 0)
    ensures Relisted(sb, d1, nodes1, d2, nodes2, dp, D.Listing(Entries(sb, d1, nodes1[dp])))
    ensures nodes2[dp].size == nodes1[dp].size
  {
    SameEntries(sb, d1, nodes1[dp], d2, nodes2[dp]);
  }

  // The listing was read, blocks were added, and then the directory was written.
  lemma RelistedAfter(sb: Super, d: Disk, nodes: map<nat, Inode>, owner: Owners, d1: Disk, nodes1: map<nat, Inode>,
                      owner1: Owners, d2: Disk, nodes2: map<nat, Inode>, dp: nat, listing: map<seq<Char>, nat>)
    requires Grew(sb, d, nodes, owner, d1, nodes1, owner1, dp)
    requires Relisted(sb, d1, nodes1, d2, nodes2, dp, listing)
    ensures Relisted(sb, d, nodes, d2, nodes2, dp, listing)
  {
    OthersTwice(sb, d, d1, d2, nodes, nodes1, dp);
  }

  ghost predicate AllUsed(ents: seq<D.Dirent>, n: nat) { forall i: nat | i < n :: D.Used(ents, i) }

  lemma AllUsedNext(ents: seq<D.Dirent>, k: nat)
    requires AllUsed(ents, k) && D.Used(ents, k)
    ensures AllUsed(ents, k + 1)
  {
  }

  // `readi` of one entry.
  method ReadEntry(fs: FileSystem, dp: nat, k: nat) returns (ok: bool, e: D.Dirent)
    requires fs.Valid() && dp in fs.nodes && DirOk(fs.sb, fs.disk, fs.nodes[dp]) && 16 * k < fs.nodes[dp].size
    modifies fs`disk, fs`nodes, fs`owner
    ensures !ok ==> Full(fs.sb, fs.disk)
    ensures k < MAXENTS && 16 * k + 16 <= old(fs.nodes[dp]).size
    ensures ok ==>
      && Grew(fs.sb, old(fs.disk), old(fs.nodes), old(fs.owner), fs.disk, fs.nodes, fs.owner, dp)
      && e == Entries(fs.sb, old(fs.disk), old(fs.nodes[dp]))[k]
  {
    EntryInFile(fs.sb, fs.disk, fs.nodes[dp], k);
    var r, de;
    ok, r, de := fs.Readi(dp, 16 * k, ENTSIZE, map[]);
    if !ok {
      return false, D.Dirent(0, D.Zeros(D.DIRSIZ));
    }
    assert r == ENTSIZE;
    e := Decode(de);
  }

  // The first free entry, or the end of the directory.
  method FreeEntry(fs: FileSystem, dp: nat) returns (ok: bool, k: nat)
    requires fs.Valid() && dp in fs.nodes && DirOk(fs.sb, fs.disk, fs.nodes[dp])
    modifies fs`disk, fs`nodes, fs`owner
    ensures !ok ==> Full(fs.sb, fs.disk)
    ensures ok ==> Grew(fs.sb, old(fs.disk), old(fs.nodes), old(fs.owner), fs.disk, fs.nodes, fs.owner, dp)
    ensures ok ==>
      var ents := Entries(fs.sb, old(fs.disk), old(fs.nodes[dp]));
      k <= MAXENTS && 16 * k <= old(fs.nodes[dp]).size && !D.Used(ents, k) && AllUsed(ents, k)
  {
    ghost var d0, n0, o0 := fs.disk, fs.nodes, fs.owner;
    ghost var ents := Entries(fs.sb, d0, n0[dp]);
    GrewNot(fs.sb, d0, n0, o0, dp);
    k := 0;
    while 16 * k < fs.nodes[dp].size
      invariant Grew(fs.sb, d0, n0, o0, fs.disk, fs.nodes, fs.owner, dp)
      invariant 16 * k <= n0[dp].size && k <= MAXENTS && AllUsed(ents, k)
      decreases MAXENTS - k
    {
      ghost var d, n, o := fs.disk, fs.nodes, fs.owner;
      GrewDir(fs.sb, d0, n0, o0, d, n, o, dp);
      var de;
      ok, de := ReadEntry(fs, dp, k);
      if !ok {
        return;
      }
      GrewTwice(fs.sb, d0, n0, o0, d, n, o, fs.disk, fs.nodes, fs.owner, dp);
      assert de == ents[k];
      if de.inum == 0 {
        return true, k;
      }
      AllUsedNext(ents, k);
      k := k + 1;
    }
    ok := true;
  }

  // What is listed once `key` is to have the number `inum`: an entry with number 0 is free.
  ghost function Listed(listing: map<seq<Char>, nat>, key: seq<Char>, inum: nat): map<seq<Char>, nat> {
    if inum == 0 then listing else listing[key := inum]
  }

  // `writei` of the new entry.
  method WriteEntry(fs: FileSystem, dp: nat, k: nat, e: D.Dirent) returns (r: LinkResult)
    requires fs.Valid() && dp in fs.nodes && DirOk(fs.sb, fs.disk, fs.nodes[dp])
    requires k <= MAXENTS && 16 * k <= fs.nodes[dp].size && !D.Used(Entries(fs.sb, fs.disk, fs.nodes[dp]), k)
    requires e.inum < 0x1_0000 && |e.name| == D.DIRSIZ
    requires D.Key(e.name) !in D.Listing(Entries(fs.sb, fs.disk, fs.nodes[dp]))
    modifies fs
    ensures !r.Exists? && (r.NoBlocks? ==> Full(fs.sb, fs.disk))
    ensures !r.NoBlocks? ==> fs.Valid() && (r.Linked? <==> k < MAXENTS)
    ensures !r.NoBlocks? ==>
      var listing := D.Listing(Entries(fs.sb, old(fs.disk), old(fs.nodes[dp])));
      Relisted(fs.sb, old(fs.disk), old(fs.nodes), fs.disk, fs.nodes, dp,
               if r.Linked? then Listed(listing, D.Key(e.name), e.inum) else listing)
    ensures !r.NoBlocks? ==>
      fs.nodes[dp].size == old(fs.nodes[dp]).size +
        if r.Linked? && 16 * k == old(fs.nodes[dp]).size then ENTSIZE else 0
  {
    ghost var d, n, di := fs.disk, fs.nodes, fs.dinodes;
    ghost var ents := Entries(fs.sb, d, n[dp]);
    var ok, written := fs.Writei(dp, Encode(e), 16 * k, ENTSIZE, map[]);
    if !ok {
      return NoBlocks;
    }
    if written != ENTSIZE {
      PutNothing(fs.sb, d, n, di, fs.disk, fs.nodes, fs.dinodes, dp, Encode(e), 16 * k);
      return Panic;
    }
    if e.inum == 0 {
      D.EntryFree(ents, k, e);
    } else {
      D.EntrySet(ents, k, e);
    }
    PutEntry(fs.sb, d, n, di, fs.disk, fs.nodes, fs.dinodes, dp, k, e);
    return Linked;
  }

  /** `dirlink`: an absent name is added, with what 16 bits hold of the number; a listed one is refused;
      when every entry is used and the directory is as long as a file can be, the write comes short and
      the kernel panics.  Every other file keeps its bytes. */
  method Dirlink(fs: FileSystem, dp: nat, name: seq<Char>, inum: nat) returns (r: LinkResult)
    requires fs.Valid() && dp in fs.nodes && DirOk(fs.sb, fs.disk, fs.nodes[dp])
    requires D.Readable(name)
    modifies fs
    ensures r.NoBlocks? ==> Full(fs.sb, fs.disk)
    ensures !r.NoBlocks? ==>
      var listing := D.Listing(Entries(fs.sb, old(fs.disk), old(fs.nodes[dp])));
      && fs.Valid()
      && Relisted(fs.sb, old(fs.disk), old(fs.nodes), fs.disk, fs.nodes, dp,
                  if r.Linked? then Listed(listing, D.Key(name), inum % 0x1_0000) else listing)
    ensures r.Linked? ==>
      D.Listing(Entries(fs.sb, fs.disk, fs.nodes[dp])) ==
        var listing := D.Listing(Entries(fs.sb, old(fs.disk), old(fs.nodes[dp])));
        if inum % 0x1_0000 == 0 then listing else listing[D.Key(name) := inum % 0x1_0000]
    ensures !r.NoBlocks? ==>
      var ents := Entries(fs.sb, old(fs.disk), old(fs.nodes[dp]));
      && (r.Exists? <==> D.Key(name) in D.Listing(ents))
      && (r.Panic? <==> D.Key(name) !in D.Listing(ents) && AllUsed(ents, MAXENTS))
      && fs.nodes[dp].size == old(fs.nodes[dp]).size +
           if r.Linked? && AllUsed(ents, old(fs.nodes[dp]).size / 16) then ENTSIZE else 0
  {
    ghost var d0, n0, o0 := fs.disk, fs.nodes, fs.owner;
    var ok, found, k := LinkPlace(fs, dp, name);
    if !ok {
      return NoBlocks;
    }
    ghost var d, n, o := fs.disk, fs.nodes, fs.owner;
    GrewDir(fs.sb, d0, n0, o0, d, n, o, dp);
    if found {
      GrewRelisted(fs.sb, d0, n0, o0, d, n, o, dp);
      return Exists;
    }
    var padded := D.NameCpy(name);
    r := WriteEntry(fs, dp, k, D.Dirent(inum % 0x1_0000, padded));
    if !r.NoBlocks? {
      RelistedAfter(fs.sb, d0, n0, o0, d, n, o, fs.disk, fs.nodes, dp,
                    D.Listing(Entries(fs.sb, fs.disk, fs.nodes[dp])));
      FreeOrEnd(Entries(fs.sb, d0, n0[dp]), k, n0[dp].size);
    }
  }

  lemma FreeOrEnd(ents: seq<D.Dirent>, k: nat, size: nat)
    requires AllUsed(ents, k) && !D.Used(ents, k) && 16 * k <= size && size % 16 == 0 && k <= MAXENTS
    requires forall i: nat | D.Used(ents, i) :: 16 * i < size
    ensures AllUsed(ents, MAXENTS) <==> k == MAXENTS
    ensures AllUsed(ents, size / 16) <==> 16 * k == size
  {
    if 16 * k < size {
      assert k < size / 16;
    }
  }

  // The first half of `dirlink`: whether the name is listed, and if not a free place.
  method LinkPlace(fs: FileSystem, dp: nat, name: seq<Char>) returns (ok: bool, found: bool, k: nat)
    requires fs.Valid() && dp in fs.nodes && DirOk(fs.sb, fs.disk, fs.nodes[dp]) && D.Readable(name)
    modifies fs`disk, fs`nodes, fs`owner
    ensures !ok ==> Full(fs.sb, fs.disk)
    ensures ok ==> Grew(fs.sb, old(fs.disk), old(fs.nodes), old(fs.owner), fs.disk, fs.nodes, fs.owner, dp)
    ensures ok ==>
      var ents := Entries(fs.sb, old(fs.disk), old(fs.nodes[dp]));
      && (found <==> D.Key(name) in D.Listing(ents))
      && (!found ==>
           k <= MAXENTS && 16 * k <= old(fs.nodes[dp]).size && !D.Used(ents, k) && AllUsed(ents, k))
  {
    ghost var d0, n0, o0 := fs.disk, fs.nodes, fs.owner;
    var inum, at;
    ok, inum, at := Dirlookup(fs, dp, name);
    if !ok || inum != 0 {
      return ok, true, 0;
    }
    ghost var d, n, o := fs.disk, fs.nodes, fs.owner;
    GrewDir(fs.sb, d0, n0, o0, d, n, o, dp);
    found := false;
    ok, k := FreeEntry(fs, dp);
    if ok {
      GrewTwice(fs.sb, d0, n0, o0, d, n, o, fs.disk, fs.nodes, fs.owner, dp);
    }
  }

  /** The step of `unlink` that zeroes the entry `dirlookup` found: exactly that name goes, and every
      other file keeps its bytes. */
  method Unlink(fs: FileSystem, dp: nat, name: seq<Char>) returns (ok: bool, inum: nat)
    requires fs.Valid() && dp in fs.nodes && DirOk(fs.sb, fs.disk, fs.nodes[dp]) && D.Readable(name)
    modifies fs
    ensures !ok ==> Full(fs.sb, fs.disk)
    ensures ok ==>
      var listing := D.Listing(Entries(fs.sb, old(fs.disk), old(fs.nodes[dp])));
      && fs.Valid()
      && Relisted(fs.sb, old(fs.disk), old(fs.nodes), fs.disk, fs.nodes, dp, listing - {D.Key(name)})
      && fs.nodes[dp].size == old(fs.nodes[dp]).size
      && if D.Key(name) in listing then inum == listing[D.Key(name)] != 0 else inum == 0
  {
    ghost var d0, n0, o0 := fs.disk, fs.nodes, fs.owner;
    ghost var ents := Entries(fs.sb, d0, n0[dp]);
    var at;
    ok, inum, at := Dirlookup(fs, dp, name);
    if !ok {
      return;
    }
    ghost var d, n, o := fs.disk, fs.nodes, fs.owner;
    GrewDir(fs.sb, d0, n0, o0, d, n, o, dp);
    if inum == 0 {
      GrewRelisted(fs.sb, d0, n0, o0, d, n, o, dp);
      assert D.Listing(ents) - {D.Key(name)} == D.Listing(ents);
      return;
    }
    assert D.Used(ents, at);
    ok := ClearEntry(fs, dp, at);
    if ok {
      RelistedAfter(fs.sb, d0, n0, o0, d, n, o, fs.disk, fs.nodes, dp, D.Listing(ents) - {D.Key(name)});
    }
  }

  // `writei` of 16 zero bytes over a used entry.
  method ClearEntry(fs: FileSystem, dp: nat, at: nat) returns (ok: bool)
    requires fs.Valid() && dp in fs.nodes && DirOk(fs.sb, fs.disk, fs.nodes[dp])
    requires at < MAXENTS && D.Used(Entries(fs.sb, fs.disk, fs.nodes[dp]), at)
    modifies fs
    ensures !ok ==> Full(fs.sb, fs.disk)
    ensures ok ==>
      var ents := Entries(fs.sb, old(fs.disk), old(fs.nodes[dp]));
      && fs.Valid()
      && Relisted(fs.sb, old(fs.disk), old(fs.nodes), fs.disk, fs.nodes, dp,
                  D.Listing(ents) - {D.Key(ents[at].name)})
      && fs.nodes[dp].size == old(fs.nodes[dp]).size
  {
    ghost var d, n, di := fs.disk, fs.nodes, fs.dinodes;
    var zero := D.Dirent(0, D.Zeros(D.DIRSIZ));
    var written;
    ok, written := fs.Writei(dp, Encode(zero), 16 * at, ENTSIZE, map[]);
    if ok {
      assert written == ENTSIZE;
      D.EntryCleared(Entries(fs.sb, d, n[dp]), at);
      PutEntry(fs.sb, d, n, di, fs.disk, fs.nodes, fs.dinodes, dp, at, zero);
    }
  }
}
