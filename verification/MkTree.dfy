/** The tool's walk over the host's files: the image it builds shows the kernel the same tree. */
module MkTree {
  import opened Blocks
  import opened Common
  import opened FsState
  import opened FsSteps
  import opened Fs
  import opened Mkfs
  import opened DirFile
  import D = Dirs
  import P = Paths

  const T_FILE := 2

  // What the tool is given: directories as `readdir` lists them, without "." and "..".
  datatype Host = HFile(bytes: seq<byte>) | HDir(entries: seq<HostEntry>)
  datatype HostEntry = HostEntry(name: seq<Char>, node: Host)

  const DOT: seq<Char> := ['.']
  const DOTS: seq<Char> := ['.', '.']

  // The name as far as an entry holds it.
  function Short(name: seq<Char>): seq<Char> { D.Key(name + [D.NUL]) }

  // The names differ in the part that is kept.
  ghost predicate NamesDiffer(es: seq<HostEntry>) {
    forall t: nat, u: nat | t < u < |es| :: Differ(es, t, u)
  }

  ghost predicate Differ(es: seq<HostEntry>, t: nat, u: nat)
    requires t < |es| && u < |es|
  {
    Short(es[t].name) != Short(es[u].name)
  }

  ghost predicate NameOk(name: seq<Char>) { name != DOT && name != DOTS && D.NUL !in name }

  // No name of a file is cut to "." or "..".
  lemma NeverDots(name: seq<Char>)
    requires NameOk(name)
    ensures Short(name) != Short(DOT) && Short(name) != Short(DOTS) && Short(DOT) != Short(DOTS)
  {
    ShortIs(name);
    ShortIs(DOT);
    ShortIs(DOTS);
  }

  lemma ShortIs(name: seq<Char>)
    requires D.NUL !in name
    ensures Short(name) == if |name| <= D.DIRSIZ then name else name[..D.DIRSIZ]
  {
    var n := if |name| <= D.DIRSIZ then |name| else D.DIRSIZ;
    KeyLenIs(name, 0, n);
    assert (name + [D.NUL])[..n] == name[..n];
  }

  lemma {:induction false} KeyLenIs(name: seq<Char>, i: nat, n: nat)
    requires D.NUL !in name && i <= n == if |name| <= D.DIRSIZ then |name| else D.DIRSIZ
    ensures D.KeyLen(name + [D.NUL], i) == n
    decreases n - i
  {
    if i < n {
      assert (name + [D.NUL])[i] == name[i] && name[i] in name;
      KeyLenIs(name, i + 1, n);
    }
  }

  // ----- what a directory's entries are while it is filled

  // ".", ".." and the first `k` of `es`, whose files have the numbers `inums`; the rest is free.
  ghost predicate Filled(ents: seq<D.Dirent>, cur: nat, parent: nat, es: seq<HostEntry>, inums: seq<nat>, k: nat) {
    && |ents| == MAXENTS && k <= |es| && k <= |inums| && k + 2 <= MAXENTS
    && IsEntry(ents[0], cur, DOT) && IsEntry(ents[1], parent, DOTS)
    && (forall t: nat | t < k :: IsEntry(ents[t + 2], inums[t], es[t].name))
    && (forall i: nat | k + 2 <= i < MAXENTS :: ents[i].inum == 0)
  }

  ghost predicate IsEntry(e: D.Dirent, inum: nat, name: seq<Char>) {
    e.inum == inum != 0 && |e.name| == D.DIRSIZ && D.Key(e.name) == Short(name)
  }

  // What such entries list.
  ghost predicate Lists(m: map<seq<Char>, nat>, cur: nat, parent: nat, es: seq<HostEntry>, inums: seq<nat>) {
    && |inums| == |es|
    && Short(DOT) in m && m[Short(DOT)] == cur && Short(DOTS) in m && m[Short(DOTS)] == parent
    && (forall t: nat | t < |es| :: Short(es[t].name) in m && m[Short(es[t].name)] == inums[t])
    && (forall n | n in m :: n == Short(DOT) || n == Short(DOTS) || exists t: nat :: t < |es| && HasShort(es, t, n))
  }

  ghost predicate HasShort(es: seq<HostEntry>, t: nat, n: seq<Char>)
    requires t < |es|
  {
    Short(es[t].name) == n
  }

  /** The directory's names are unique exactly when the host's differ in their first 14 bytes. */
  lemma FilledOk(ents: seq<D.Dirent>, cur: nat, parent: nat, es: seq<HostEntry>, inums: seq<nat>)
    requires Filled(ents, cur, parent, es, inums, |es|) && forall i: nat | i < MAXENTS :: |ents[i].name| == D.DIRSIZ
    requires forall t: nat | t < |es| :: NameOk(es[t].name)
    ensures D.NamesOk(ents) <==> NamesDiffer(es)
  {
    if !NamesDiffer(es) {
      var t: nat, u: nat :| t < u < |es| && !Differ(es, t, u);
      assert IsEntry(ents[t + 2], inums[t], es[t].name) && IsEntry(ents[u + 2], inums[u], es[u].name);
      assert D.Used(ents, t + 2) && D.Used(ents, u + 2);
    } else {
      forall i: nat, j: nat | D.Used(ents, i) && D.Used(ents, j) && i < j
        ensures D.Key(ents[i].name) != D.Key(ents[j].name)
      {
        KeysApart(ents, cur, parent, es, inums, i, j);
      }
    }
  }

  lemma KeysApart(ents: seq<D.Dirent>, cur: nat, parent: nat, es: seq<HostEntry>, inums: seq<nat>, i: nat, j: nat)
    requires Filled(ents, cur, parent, es, inums, |es|) && D.Used(ents, i) && D.Used(ents, j) && i < j
    requires NamesDiffer(es) && forall t: nat | t < |es| :: NameOk(es[t].name)
    ensures D.Key(ents[i].name) != D.Key(ents[j].name)
  {
    KeyAt(ents, cur, parent, es, inums, i);
    KeyAt(ents, cur, parent, es, inums, j);
    NeverDots2(es, j);
    if i >= 2 {
      assert Differ(es, i - 2, j - 2);
    }
  }

  // The name of used entry `i`.
  function NameAt(es: seq<HostEntry>, i: nat): seq<Char>
    requires i < |es| + 2
  {
    if i == 0 then DOT else if i == 1 then DOTS else es[i - 2].name
  }

  lemma KeyAt(ents: seq<D.Dirent>, cur: nat, parent: nat, es: seq<HostEntry>, inums: seq<nat>, i: nat)
    requires Filled(ents, cur, parent, es, inums, |es|) && D.Used(ents, i)
    ensures i < |es| + 2 && D.Key(ents[i].name) == Short(NameAt(es, i))
  {
    if 2 <= i < |es| + 2 {
      assert IsEntry(ents[i - 2 + 2], inums[i - 2], es[i - 2].name);
    }
  }

  lemma NeverDots2(es: seq<HostEntry>, i: nat)
    requires i < |es| + 2 && forall t: nat | t < |es| :: NameOk(es[t].name)
    ensures Short(DOT) != Short(DOTS)
    ensures i >= 2 ==> Short(NameAt(es, i)) != Short(DOT) && Short(NameAt(es, i)) != Short(DOTS)
  {
    ShortIs(DOT);
    ShortIs(DOTS);
    if i >= 2 { NeverDots(es[i - 2].name); }
  }

  lemma FilledLists(ents: seq<D.Dirent>, cur: nat, parent: nat, es: seq<HostEntry>, inums: seq<nat>)
    requires Filled(ents, cur, parent, es, inums, |es|) && D.NamesOk(ents) && |inums| == |es|
    ensures Lists(D.Listing(ents), cur, parent, es, inums)
  {
    D.ListingIs(ents);
    assert D.Names(ents, 0, Short(DOT)) && D.Names(ents, 1, Short(DOTS));
    forall t: nat | t < |es|
      ensures Short(es[t].name) in D.Listing(ents) && D.Listing(ents)[Short(es[t].name)] == inums[t]
    {
      assert IsEntry(ents[t + 2], inums[t], es[t].name);
      assert D.Names(ents, t + 2, Short(es[t].name));
    }
    forall n | n in D.Listing(ents)
      ensures n == Short(DOT) || n == Short(DOTS) || exists t: nat :: t < |es| && HasShort(es, t, n)
    {
      var i: nat :| D.Names(ents, i, n);
      KeyAt(ents, cur, parent, es, inums, i);
      if i >= 2 { assert HasShort(es, i - 2, n); }
    }
  }

  // ----- what the kernel finds

  // Inode `i` has the host's file or directory, with inodes from `lo` on below `hi`.
  ghost predicate Shows(sb: Super, d: Disk, nodes: map<nat, Inode>, i: nat, host: Host, parent: nat, lo: nat, hi: nat)
    decreases host
  {
    lo <= i < hi && i in nodes && Fits(sb, d) && InodeFits(sb, nodes[i]) &&
    match host
    case HFile(bytes) => nodes[i].kind == T_FILE && Contents(sb, d, nodes[i]) == bytes
    case HDir(es) => ShowsDir(sb, d, nodes, i, host, parent, lo, hi)
  }

  ghost predicate ShowsDir(sb: Super, d: Disk, nodes: map<nat, Inode>, i: nat, host: Host, parent: nat,
                           lo: nat, hi: nat)
    requires host.HDir? && i in nodes && Fits(sb, d) && InodeFits(sb, nodes[i])
    decreases host, 0
  {
    DirOk(sb, d, nodes[i]) &&
    exists inums: seq<nat> | Lists(D.Listing(Entries(sb, d, nodes[i])), i, parent, host.entries, inums) ::
      forall t: nat | t < |host.entries| :: Shows(sb, d, nodes, inums[t], host.entries[t].node, i, lo, hi)
  }

  // Every inode but `cur` is as it was.
  ghost predicate OnlyOne(sb: Super, d: Disk, nodes: map<nat, Inode>, d': Disk, nodes': map<nat, Inode>, cur: nat) {
    forall j | j in nodes && j != cur :: SameNode(sb, d, nodes, d', nodes', j)
  }

  ghost predicate SameNode(sb: Super, d: Disk, nodes: map<nat, Inode>, d': Disk, nodes': map<nat, Inode>, j: nat)
    requires j in nodes
  {
    j in nodes' && nodes'[j] == nodes[j] && SameFile(sb, d, nodes[j], d', nodes[j])
  }

  lemma OnlyOneTwice(sb: Super, d: Disk, n: map<nat, Inode>, d1: Disk, n1: map<nat, Inode>, d2: Disk,
                     n2: map<nat, Inode>, cur: nat, other: nat)
    requires OnlyOne(sb, d, n, d1, n1, cur) && OnlyOne(sb, d1, n1, d2, n2, other)
    requires other == cur || other !in n
    ensures OnlyOne(sb, d, n, d2, n2, cur)
  {
    forall j | j in n && j != cur ensures SameNode(sb, d, n, d2, n2, j) {
      assert SameNode(sb, d, n, d1, n1, j) && SameNode(sb, d1, n1, d2, n2, j);
    }
  }

  lemma SameContents(sb: Super, d: Disk, ip: Inode, d': Disk)
    requires SameFile(sb, d, ip, d', ip)
    ensures Contents(sb, d', ip) == Contents(sb, d, ip)
  {
  }

  // What is shown stays shown while its inodes stay.
  lemma {:induction false} StillShown(sb: Super, d: Disk, nodes: map<nat, Inode>, d': Disk, nodes': map<nat, Inode>,
                                      i: nat, host: Host, parent: nat, lo: nat, hi: nat, lo': nat, hi': nat)
    requires Shows(sb, d, nodes, i, host, parent, lo, hi) && lo' <= lo && hi <= hi'
    requires forall j | j in nodes && lo <= j < hi :: SameNode(sb, d, nodes, d', nodes', j)
    ensures Shows(sb, d', nodes', i, host, parent, lo', hi')
    decreases host
  {
    assert SameNode(sb, d, nodes, d', nodes', i);
    match host
    case HFile(_) => SameContents(sb, d, nodes[i], d');
    case HDir(es) =>
      SameEntries(sb, d, nodes[i], d', nodes[i]);
      var inums: seq<nat> :| Lists(D.Listing(Entries(sb, d, nodes[i])), i, parent, es, inums)
        && forall t: nat | t < |es| :: Shows(sb, d, nodes, inums[t], es[t].node, i, lo, hi);
      forall t: nat | t < |es| ensures Shows(sb, d', nodes', inums[t], es[t].node, i, lo', hi') {
        StillShown(sb, d, nodes, d', nodes', inums[t], es[t].node, i, lo, hi, lo', hi');
      }
      assert Lists(D.Listing(Entries(sb, d', nodes'[i])), i, parent, es, inums);
  }

  // ----- the code

  // Inode `cur` is a directory of `k` entries.
  ghost predicate Sized(sb: Super, ip: Inode, k: nat) {
    InodeFits(sb, ip) && ip.kind == T_DIR && ip.size == 16 * k && k <= MAXENTS
  }

  // Directory `cur` got entry `k`; nothing else changed.
  ghost predicate EntryAdded(sb: Super, d: Disk, nodes: map<nat, Inode>, d': Disk, nodes': map<nat, Inode>, cur: nat,
                             k: nat, e: D.Dirent)
  {
    && Fits(sb, d) && Fits(sb, d') && cur in nodes && cur in nodes' && k < MAXENTS
    && Sized(sb, nodes[cur], k) && Sized(sb, nodes'[cur], k + 1)
    && Entries(sb, d', nodes'[cur]) == Entries(sb, d, nodes[cur])[k := e]
    && OnlyOne(sb, d, nodes, d', nodes', cur) && nodes'.Keys == nodes.Keys
  }

  lemma EntryAppended(sb: Super, d: Disk, nodes: map<nat, Inode>, d': Disk, nodes': map<nat, Inode>, cur: nat,
                      k: nat, e: D.Dirent)
    requires e.inum < 0x1_0000 && |e.name| == D.DIRSIZ
    requires Appended(sb, d, nodes, d', nodes', cur, Encode(e)) && Sized(sb, nodes[cur], k)
    ensures EntryAdded(sb, d, nodes, d', nodes', cur, k, e)
  {
    assert |Contents(sb, d', nodes'[cur])| == |Contents(sb, d, nodes[cur])| + ENTSIZE;
    EntryWritten(sb, d, nodes[cur], d', nodes'[cur], k, e);
    forall j | j in nodes && j != cur ensures SameNode(sb, d, nodes, d', nodes', j) {}
  }

  // `iappend` of one entry.
  method AddEntry(img: Image, cur: nat, ghost k: nat, inum: nat, name: seq<Char>) returns (ok: bool, ghost e: D.Dirent)
    requires img.Valid() && cur in img.nodes && Sized(img.sb, img.nodes[cur], k)
    requires 0 < inum < 0x1_0000 && D.NUL !in name
    modifies img`disk, img`nodes, img`freeblock, img`owner
    ensures ok ==>
      && img.Valid() && IsEntry(e, inum, name)
      && EntryAdded(img.sb, old(img.Final()), old(img.nodes), img.Final(), img.nodes, cur, k, e)
  {
    ghost var d, nodes := img.Final(), img.nodes;
    var padded := D.NameCpy(name + [D.NUL]);
    var de := D.Dirent(inum, padded);
    e := de;
    ok := img.Iappend(cur, Encode(de));
    if ok {
      EntryAppended(img.sb, d, nodes, img.Final(), img.nodes, cur, k, de);
    }
  }

  // The file `i` has the first `n` bytes.
  ghost predicate HasBytes(sb: Super, d: Disk, nodes: map<nat, Inode>, i: nat, bytes: seq<byte>, n: nat) {
    && i in nodes && Fits(sb, d) && InodeFits(sb, nodes[i]) && nodes[i].kind == T_FILE && n <= |bytes|
    && Contents(sb, d, nodes[i]) == bytes[..n]
  }

  lemma MoreBytes(sb: Super, d: Disk, nodes: map<nat, Inode>, d': Disk, nodes': map<nat, Inode>, i: nat,
                  bytes: seq<byte>, n: nat, m: nat)
    requires HasBytes(sb, d, nodes, i, bytes, n) && n <= m <= |bytes|
    requires Appended(sb, d, nodes, d', nodes', i, bytes[n..m])
    ensures HasBytes(sb, d', nodes', i, bytes, m)
    ensures OnlyOne(sb, d, nodes, d', nodes', i) && nodes'.Keys == nodes.Keys
  {
    assert bytes[..n] + bytes[n..m] == bytes[..m];
    forall j | j in nodes && j != i ensures SameNode(sb, d, nodes, d', nodes', j) {}
  }

  // The host's file is read and appended a block at a time.
  method AddFile(img: Image, i: nat, bytes: seq<byte>) returns (ok: bool)
    requires img.Valid() && HasBytes(img.sb, img.Final(), img.nodes, i, bytes, 0)
    modifies img`disk, img`nodes, img`freeblock, img`owner
    ensures ok ==>
      && img.Valid() && HasBytes(img.sb, img.Final(), img.nodes, i, bytes, |bytes|)
      && OnlyOne(img.sb, old(img.Final()), old(img.nodes), img.Final(), img.nodes, i)
      && img.nodes.Keys == old(img.nodes).Keys
  {
    ghost var d0, nodes0 := img.Final(), img.nodes;
    NothingChanged(img.sb, d0, nodes0, img.owner, i);
    var off := 0;
    ok := true;
    while off < |bytes|
      invariant 0 <= off <= |bytes| && ok && img.Valid()
      invariant HasBytes(img.sb, img.Final(), img.nodes, i, bytes, off)
      invariant OnlyOne(img.sb, d0, nodes0, img.Final(), img.nodes, i) && img.nodes.Keys == nodes0.Keys
    {
      var end := if off + BSIZE <= |bytes| then off + BSIZE else |bytes|;
      ghost var d, nodes := img.Final(), img.nodes;
      ok := img.Iappend(i, bytes[off..end]);
      if !ok {
        return;
      }
      MoreBytes(img.sb, d, nodes, img.Final(), img.nodes, i, bytes, off, end);
      OnlyOneTwice(img.sb, d0, nodes0, d, nodes, img.Final(), img.nodes, i, i);
      off := end;
    }
  }

  lemma NothingChanged(sb: Super, d: Disk, nodes: map<nat, Inode>, owner: Owners, i: nat)
    requires Inv(sb, d, nodes, owner)
    ensures OnlyOne(sb, d, nodes, d, nodes, i)
  {
    forall j | j in nodes && j != i ensures SameNode(sb, d, nodes, d, nodes, j) {
      assert NodeOk(sb, d, nodes, owner, j);
    }
  }

  // ----- the walk

  // Every name on the host is a name, and within a directory they differ where they are kept.
  ghost predicate HostOk(host: Host) {
    host.HDir? ==> forall t: nat | t < |host.entries| :: NameOk(host.entries[t].name) && HostOk(host.entries[t].node)
  }

  ghost predicate AllDiffer(host: Host) {
    host.HDir? ==>
      && NamesDiffer(host.entries)
      && forall t: nat | t < |host.entries| :: AllDiffer(host.entries[t].node)
  }

  // A file, or a directory for the kernel.
  ghost predicate Good(sb: Super, d: Disk, ip: Inode) {
    Fits(sb, d) && InodeFits(sb, ip) && (ip.kind == T_DIR ==> DirOk(sb, d, ip))
  }

  ghost predicate NewGood(sb: Super, d: Disk, nodes: map<nat, Inode>, lo: nat) {
    forall j | j in nodes && j >= lo :: Good(sb, d, nodes[j])
  }

  lemma GoodKept(sb: Super, d: Disk, nodes: map<nat, Inode>, d': Disk, nodes': map<nat, Inode>, j: nat)
    requires j in nodes && Good(sb, d, nodes[j]) && SameNode(sb, d, nodes, d', nodes', j)
    ensures Good(sb, d', nodes'[j])
  {
    SameEntries(sb, d, nodes[j], d', nodes'[j]);
  }

  // New inodes stay good while only an older one changes.
  lemma NewGoodKept(sb: Super, d: Disk, nodes: map<nat, Inode>, d': Disk, nodes': map<nat, Inode>, cur: nat, lo: nat)
    requires NewGood(sb, d, nodes, lo) && OnlyOne(sb, d, nodes, d', nodes', cur) && cur < lo
    requires nodes'.Keys == nodes.Keys
    ensures NewGood(sb, d', nodes', lo)
  {
    forall j | j in nodes' && j >= lo ensures Good(sb, d', nodes'[j]) {
      GoodKept(sb, d, nodes, d', nodes', j);
    }
  }

  // Those from `lo` on were good, and so are those from `hi` on after `child` was made.
  lemma NewGoodMore(sb: Super, d: Disk, nodes: map<nat, Inode>, d': Disk, nodes': map<nat, Inode>, lo: nat, hi: nat)
    requires NewGood(sb, d, nodes, lo) && OnlyOne(sb, d, nodes, d', nodes', hi) && NewGood(sb, d', nodes', hi)
    requires (forall j | j in nodes :: j < hi) && (forall j | j in nodes' :: j in nodes || j >= hi)
    ensures NewGood(sb, d', nodes', lo)
  {
    forall j | j in nodes' && j >= lo ensures Good(sb, d', nodes'[j]) {
      if j < hi {
        GoodKept(sb, d, nodes, d', nodes', j);
      }
    }
  }

  // The host's `node` was put into the new inode `child`, in directory `cur`.
  ghost predicate NodeAdded(sb: Super, d: Disk, n: map<nat, Inode>, d1: Disk, n1: map<nat, Inode>, child: nat,
                            node: Host, cur: nat, hi1: nat)
  {
    && child < hi1 && OnlyOne(sb, d, n, d1, n1, child)
    && (forall j | j in n1 :: j in n || j >= child)
    && (AllDiffer(node) ==> Shows(sb, d1, n1, child, node, cur, child, hi1) && NewGood(sb, d1, n1, child))
  }

  ghost predicate FirstDiffer(es: seq<HostEntry>, k: nat)
    requires k <= |es|
  {
    forall t: nat | t < k :: AllDiffer(es[t].node)
  }

  // Directory `cur` has its own two entries and those of the first `k` of `es`, which are shown; of the image
  // as it was only `cur` is different, and every new inode is from `lo` on.
  ghost predicate Building(sb: Super, d0: Disk, n0: map<nat, Inode>, d: Disk, nodes: map<nat, Inode>, cur: nat,
                           parent: nat, es: seq<HostEntry>, inums: seq<nat>, k: nat, lo: nat, hi: nat)
  {
    && cur < lo <= hi && cur in n0 && cur in nodes && k <= |es| && |inums| == k
    && Fits(sb, d) && Sized(sb, nodes[cur], k + 2)
    && Filled(Entries(sb, d, nodes[cur]), cur, parent, es, inums, k)
    && OnlyOne(sb, d0, n0, d, nodes, cur)
    && (forall j | j in nodes :: j in n0 || j >= lo)
    && (forall t: nat | t < k :: AllDiffer(es[t].node) ==> Shows(sb, d, nodes, inums[t], es[t].node, cur, lo, hi))
    && (FirstDiffer(es, k) ==> NewGood(sb, d, nodes, lo))
  }

  // The next of the host's entries: its inode was made and filled, and then it was entered in `cur`.
  lemma BuildingMore(sb: Super, d0: Disk, n0: map<nat, Inode>, d: Disk, n: map<nat, Inode>, d1: Disk,
                     n1: map<nat, Inode>, d2: Disk, n2: map<nat, Inode>, cur: nat, parent: nat,
                     es: seq<HostEntry>, inums: seq<nat>, k: nat, lo: nat, hi: nat, child: nat, hi1: nat, e: D.Dirent)
    requires Building(sb, d0, n0, d, n, cur, parent, es, inums, k, lo, hi) && k < |es|
    requires forall j | j in n :: j < hi
    requires child == hi && NodeAdded(sb, d, n, d1, n1, child, es[k].node, cur, hi1)
    requires EntryAdded(sb, d1, n1, d2, n2, cur, k + 2, e) && IsEntry(e, child, es[k].name)
    ensures Building(sb, d0, n0, d2, n2, cur, parent, es, inums + [child], k + 1, lo, hi1)
  {
    FilledMore(sb, d, n, d1, n1, d2, n2, cur, parent, es, inums, k, child, e);
    OnlyOneTwice(sb, d0, n0, d, n, d1, n1, cur, child);
    OnlyOneTwice(sb, d0, n0, d1, n1, d2, n2, cur, cur);
    if FirstDiffer(es, k + 1) {
      GoodMore(sb, d, n, d1, n1, d2, n2, cur, es, k, lo, hi, hi1);
    }
    forall t: nat | t < k + 1 && AllDiffer(es[t].node)
      ensures Shows(sb, d2, n2, (inums + [child])[t], es[t].node, cur, lo, hi1)
    {
      if t < k {
        ShownTwice(sb, d, n, d1, n1, d2, n2, inums[t], es[t].node, cur, lo, hi, child, hi1);
      } else {
        ShownOnce(sb, d1, n1, d2, n2, child, es[k].node, cur, hi, hi1, lo);
      }
    }
  }

  lemma FilledMore(sb: Super, d: Disk, n: map<nat, Inode>, d1: Disk, n1: map<nat, Inode>, d2: Disk,
                   n2: map<nat, Inode>, cur: nat, parent: nat, es: seq<HostEntry>, inums: seq<nat>, k: nat,
                   child: nat, e: D.Dirent)
    requires cur in n && cur != child && Fits(sb, d) && InodeFits(sb, n[cur]) && k < |es| && |inums| == k
    requires Filled(Entries(sb, d, n[cur]), cur, parent, es, inums, k) && OnlyOne(sb, d, n, d1, n1, child)
    requires EntryAdded(sb, d1, n1, d2, n2, cur, k + 2, e) && IsEntry(e, child, es[k].name)
    ensures Filled(Entries(sb, d2, n2[cur]), cur, parent, es, inums + [child], k + 1)
  {
    assert SameNode(sb, d, n, d1, n1, cur);
    SameEntries(sb, d, n[cur], d1, n1[cur]);
    FilledNext(Entries(sb, d, n[cur]), cur, parent, es, inums, k, child, e);
  }

  lemma FilledNext(ents: seq<D.Dirent>, cur: nat, parent: nat, es: seq<HostEntry>, inums: seq<nat>, k: nat,
                   child: nat, e: D.Dirent)
    requires Filled(ents, cur, parent, es, inums, k) && k < |es| && |inums| == k && k + 2 < MAXENTS
    requires IsEntry(e, child, es[k].name)
    ensures Filled(ents[k + 2 := e], cur, parent, es, inums + [child], k + 1)
  {
    forall t: nat | t < k + 1 ensures IsEntry(ents[k + 2 := e][t + 2], (inums + [child])[t], es[t].name) {
      if t < k {
        assert IsEntry(ents[t + 2], inums[t], es[t].name);
      }
    }
  }

  lemma GoodMore(sb: Super, d: Disk, n: map<nat, Inode>, d1: Disk, n1: map<nat, Inode>, d2: Disk,
                 n2: map<nat, Inode>, cur: nat, es: seq<HostEntry>, k: nat, lo: nat, hi: nat, hi1: nat)
    requires k < |es| && FirstDiffer(es, k + 1) && (FirstDiffer(es, k) ==> NewGood(sb, d, n, lo))
    requires (forall j | j in n :: j < hi) && cur < lo
    requires NodeAdded(sb, d, n, d1, n1, hi, es[k].node, cur, hi1)
    requires OnlyOne(sb, d1, n1, d2, n2, cur) && n2.Keys == n1.Keys
    ensures NewGood(sb, d2, n2, lo)
  {
    assert AllDiffer(es[k].node) && FirstDiffer(es, k);
    NewGoodMore(sb, d, n, d1, n1, lo, hi);
    NewGoodKept(sb, d1, n1, d2, n2, cur, lo);
  }

  lemma ShownOnce(sb: Super, d1: Disk, n1: map<nat, Inode>, d2: Disk, n2: map<nat, Inode>, i: nat, host: Host,
                  cur: nat, lo: nat, hi: nat, lo': nat)
    requires Shows(sb, d1, n1, i, host, cur, lo, hi) && cur < lo' <= lo && OnlyOne(sb, d1, n1, d2, n2, cur)
    ensures Shows(sb, d2, n2, i, host, cur, lo', hi)
  {
    StillShown(sb, d1, n1, d2, n2, i, host, cur, lo, hi, lo', hi);
  }

  lemma ShownTwice(sb: Super, d: Disk, n: map<nat, Inode>, d1: Disk, n1: map<nat, Inode>, d2: Disk,
                   n2: map<nat, Inode>, i: nat, host: Host, cur: nat, lo: nat, hi: nat, child: nat, hi1: nat)
    requires Shows(sb, d, n, i, host, cur, lo, hi) && cur < lo && child == hi < hi1
    requires OnlyOne(sb, d, n, d1, n1, child) && OnlyOne(sb, d1, n1, d2, n2, cur)
    ensures Shows(sb, d2, n2, i, host, cur, lo, hi1)
  {
    StillShown(sb, d, n, d1, n1, i, host, cur, lo, hi, lo, hi1);
    ShownOnce(sb, d1, n1, d2, n2, i, host, cur, lo, hi1, lo);
  }

  // A new inode has no bytes and, as a directory, no entries.
  ghost predicate Blank(sb: Super, d: Disk, ip: Inode) {
    && Fits(sb, d) && InodeFits(sb, ip) && ip.size == 0 && Contents(sb, d, ip) == []
    && forall k: nat | k < MAXENTS :: Entries(sb, d, ip)[k].inum == 0
  }

  lemma NewIsBlank(sb: Super, d: Disk, kind: int)
    requires Fits(sb, d)
    ensures Blank(sb, d, Inode(kind, 0, 0, seq(NDIRECT + 1, _ => 0)))
  {
    var ip := Inode(kind, 0, 0, seq(NDIRECT + 1, _ => 0));
    assert forall s: nat | s < SLOTS :: SlotAt(sb, d, ip, s) == 0;
    assert forall x: nat | x < MAXFILE * BSIZE :: FileByte(sb, d, ip, x) == 0;
  }

  lemma NewKeeps(sb: Super, d: Disk, nodes: map<nat, Inode>, owner: Owners, i: nat, ip: Inode)
    requires Inv(sb, d, nodes, owner) && i !in nodes
    ensures OnlyOne(sb, d, nodes, d, nodes[i := ip], i)
  {
    forall j | j in nodes && j != i ensures SameNode(sb, d, nodes, d, nodes[i := ip], j) {
      assert NodeOk(sb, d, nodes, owner, j);
    }
  }

  // The directory with all its entries, once its size is rounded.
  lemma Finished(sb: Super, d0: Disk, n0: map<nat, Inode>, d: Disk, n: map<nat, Inode>, n1: map<nat, Inode>, cur: nat,
                 parent: nat, host: Host, inums: seq<nat>, lo: nat, hi: nat)
    requires host.HDir? && HostOk(host)
    requires Building(sb, d0, n0, d, n, cur, parent, host.entries, inums, |host.entries|, lo, hi)
    requires (forall j | j in n :: InodeFits(sb, n[j])) && Resized(sb, n, n1, cur)
    ensures OnlyOne(sb, d0, n0, d, n1, cur)
    ensures DirOk(sb, d, n1[cur]) <==> NamesDiffer(host.entries)
    ensures AllDiffer(host) ==> Shows(sb, d, n1, cur, host, parent, cur, hi) && NewGood(sb, d, n1, lo)
  {
    SizeOnlyHidden(sb, d, n, n1, cur);
    OnlyOneTwice(sb, d0, n0, d, n, d, n1, cur, cur);
    FinishedOk(sb, d, n[cur], n1[cur], cur, parent, host.entries, inums);
    if AllDiffer(host) {
      assert FirstDiffer(host.entries, |host.entries|);
      NewGoodKept(sb, d, n, d, n1, cur, lo);
      FinishedShows(sb, d, n, n1, cur, parent, host, inums, lo, hi);
    }
  }

  // Only the size of `cur` is different, and it is whole entries and no less.
  ghost predicate Resized(sb: Super, n: map<nat, Inode>, n1: map<nat, Inode>, cur: nat) {
    && cur in n && cur in n1 && n1 == n[cur := n[cur].(size := n1[cur].size)] && InodeFits(sb, n1[cur])
    && n1[cur].size % ENTSIZE == 0 && n[cur].size <= n1[cur].size
  }

  lemma SizeOnlyHidden(sb: Super, d: Disk, n: map<nat, Inode>, n1: map<nat, Inode>, cur: nat)
    requires Fits(sb, d) && (forall j | j in n :: InodeFits(sb, n[j])) && Resized(sb, n, n1, cur)
    ensures OnlyOne(sb, d, n, d, n1, cur) && n1.Keys == n.Keys
    ensures SameFile(sb, d, n[cur], d, n1[cur])
  {
    assert Slots(sb, d, n1[cur]) == Slots(sb, d, n[cur]);
    forall j | j in n && j != cur ensures SameNode(sb, d, n, d, n1, j) {}
  }

  lemma FinishedOk(sb: Super, d: Disk, ip: Inode, ip1: Inode, cur: nat, parent: nat, es: seq<HostEntry>,
                   inums: seq<nat>)
    requires SameFile(sb, d, ip, d, ip1) && Sized(sb, ip, |es| + 2) && ip1 == ip.(size := ip1.size)
    requires Filled(Entries(sb, d, ip), cur, parent, es, inums, |es|)
    requires forall t: nat | t < |es| :: NameOk(es[t].name)
    requires ip1.size % ENTSIZE == 0 && ip.size <= ip1.size
    ensures DirOk(sb, d, ip1) <==> NamesDiffer(es)
  {
    var ents := Entries(sb, d, ip);
    SameEntries(sb, d, ip, d, ip1);
    FilledOk(ents, cur, parent, es, inums);
    forall i: nat | D.Used(ents, i) ensures 16 * i < ip1.size {
      assert i < |es| + 2;
    }
  }

  lemma FinishedShows(sb: Super, d: Disk, n: map<nat, Inode>, n1: map<nat, Inode>, cur: nat, parent: nat, host: Host,
                      inums: seq<nat>, lo: nat, hi: nat)
    requires host.HDir? && AllDiffer(host) && |inums| == |host.entries| && cur < lo <= hi
    requires Fits(sb, d) && (forall j | j in n :: InodeFits(sb, n[j])) && Resized(sb, n, n1, cur)
    requires Filled(Entries(sb, d, n[cur]), cur, parent, host.entries, inums, |host.entries|)
    requires DirOk(sb, d, n1[cur]) && SameFile(sb, d, n[cur], d, n1[cur])
    requires forall t: nat | t < |host.entries| && AllDiffer(host.entries[t].node) ::
      Shows(sb, d, n, inums[t], host.entries[t].node, cur, lo, hi)
    ensures Shows(sb, d, n1, cur, host, parent, cur, hi)
  {
    var es := host.entries;
    SameEntries(sb, d, n[cur], d, n1[cur]);
    FilledLists(Entries(sb, d, n1[cur]), cur, parent, es, inums);
    forall t: nat | t < |es| ensures Shows(sb, d, n1, inums[t], es[t].node, cur, cur, hi) {
      assert AllDiffer(es[t].node);
      SizeHidden(sb, d, n, n1, cur, inums[t], es[t].node, lo, hi);
    }
    assert Lists(D.Listing(Entries(sb, d, n1[cur])), cur, parent, es, inums);
  }

  lemma SizeHidden(sb: Super, d: Disk, n: map<nat, Inode>, n1: map<nat, Inode>, cur: nat, i: nat, host: Host,
                   lo: nat, hi: nat)
    requires Shows(sb, d, n, i, host, cur, lo, hi) && cur < lo && cur in n1 && n1 == n[cur := n1[cur]]
    requires Fits(sb, d) && forall j | j in n :: InodeFits(sb, n[j])
    ensures Shows(sb, d, n1, i, host, cur, cur, hi)
  {
    forall j | j in n && lo <= j < hi ensures SameNode(sb, d, n, d, n1, j) {}
    StillShown(sb, d, n, d, n1, i, host, cur, lo, hi, cur, hi);
  }

  // The two entries that every directory has.
  method AddDots(img: Image, cur: nat, parent: nat, ghost es: seq<HostEntry>) returns (ok: bool)
    requires img.Valid() && 0 < cur < 0x1_0000 && 0 < parent < 0x1_0000
    requires cur in img.nodes && img.nodes[cur].kind == T_DIR && Blank(img.sb, img.Final(), img.nodes[cur])
    modifies img`disk, img`nodes, img`freeblock, img`owner
    ensures ok ==>
      && img.Valid()
      && Building(img.sb, old(img.Final()), old(img.nodes), img.Final(), img.nodes, cur, parent, es, [], 0,
                  img.freeinode, img.freeinode)
  {
    ghost var d0, n0 := img.Final(), img.nodes;
    ghost var e;
    ok, e := AddEntry(img, cur, 0, cur, DOT);
    if !ok {
      return;
    }
    ghost var d1, n1 := img.Final(), img.nodes;
    ghost var e1;
    ok, e1 := AddEntry(img, cur, 1, parent, DOTS);
    if ok {
      DotsAdded(img.sb, d0, n0, d1, n1, img.Final(), img.nodes, cur, parent, es, e, e1, img.freeinode);
    }
  }

  lemma DotsAdded(sb: Super, d0: Disk, n0: map<nat, Inode>, d1: Disk, n1: map<nat, Inode>, d2: Disk,
                  n2: map<nat, Inode>, cur: nat, parent: nat, es: seq<HostEntry>, e: D.Dirent, e1: D.Dirent, lo: nat)
    requires cur in n0 && Blank(sb, d0, n0[cur]) && cur < lo && forall j | j in n2 :: j < lo
    requires EntryAdded(sb, d0, n0, d1, n1, cur, 0, e) && IsEntry(e, cur, DOT)
    requires EntryAdded(sb, d1, n1, d2, n2, cur, 1, e1) && IsEntry(e1, parent, DOTS)
    ensures Building(sb, d0, n0, d2, n2, cur, parent, es, [], 0, lo, lo)
  {
    OnlyOneTwice(sb, d0, n0, d1, n1, d2, n2, cur, cur);
  }

  // One turn of the loop of `add_dir`.
  method AddNext(img: Image, host: Host, cur: nat, ghost parent: nat, k: nat, ghost d0: Disk,
                 ghost n0: map<nat, Inode>, ghost inums: seq<nat>, ghost lo: nat) returns (ok: bool, child: nat)
    requires img.Valid() && host.HDir? && HostOk(host) && k < |host.entries| && 0 < cur < 0x1_0000
    requires Building(img.sb, d0, n0, img.Final(), img.nodes, cur, parent, host.entries, inums, k, lo, img.freeinode)
    modifies img
    ensures ok ==>
      && img.Valid() && old(img.freeinode) <= img.freeinode
      && Building(img.sb, d0, n0, img.Final(), img.nodes, cur, parent, host.entries, inums + [child], k + 1, lo,
                  img.freeinode)
    decreases host, 0, 0
  {
    ghost var sb, d, n, hi := img.sb, img.Final(), img.nodes, img.freeinode;
    ok, child := AddNode(img, host.entries[k].node, cur);
    if !ok {
      return;
    }
    ghost var d1, n1 := img.Final(), img.nodes;
    assert SameNode(sb, d, n, d1, n1, cur);
    ghost var e;
    ok, e := AddEntry(img, cur, k + 2, child, host.entries[k].name);
    if ok {
      BuildingMore(sb, d0, n0, d, n, d1, n1, img.Final(), img.nodes, cur, parent, host.entries, inums, k, lo, hi,
                   child, img.freeinode, e);
    }
  }

  // A new inode for a file or a directory of the host, with what is in it.
  method AddNode(img: Image, node: Host, cur: nat) returns (ok: bool, child: nat)
    requires img.Valid() && HostOk(node) && 0 < cur < 0x1_0000
    modifies img
    ensures ok ==>
      && img.Valid() && child == old(img.freeinode) && 0 < child < 0x1_0000
      && NodeAdded(img.sb, old(img.Final()), old(img.nodes), img.Final(), img.nodes, child, node, cur, img.freeinode)
    decreases node, 1
  {
    ghost var sb, d, n, hi, o := img.sb, img.Final(), img.nodes, img.freeinode, img.owner;
    child := img.Ialloc(if node.HDir? then T_DIR else T_FILE);
    NewIsBlank(sb, d, if node.HDir? then T_DIR else T_FILE);
    NewKeeps(sb, d, n, o, child, img.nodes[child]);
    if child >= 0x1_0000 || child == 0 {
      return false, child;
    }
    ghost var n1 := img.nodes;
    match node {
      case HFile(bytes) =>
        assert bytes[..|bytes|] == bytes;
        ok := AddFile(img, child, bytes);
      case HDir(_) =>
        ok := AddDir(img, node, child, cur);
    }
    if ok {
      OnlyOneTwice(sb, d, n, d, n1, img.Final(), img.nodes, child, child);
      if AllDiffer(node) {
        ChildGood(sb, img.Final(), img.nodes, child, node, cur, img.freeinode);
      }
    }
  }

  // The inodes of what is shown from `child` on.
  lemma ChildGood(sb: Super, d: Disk, nodes: map<nat, Inode>, child: nat, node: Host, cur: nat, hi: nat)
    requires Shows(sb, d, nodes, child, node, cur, child, hi) && NewGood(sb, d, nodes, child + 1)
    ensures NewGood(sb, d, nodes, child)
  {
    forall j | j in nodes && j >= child ensures Good(sb, d, nodes[j]) {}
  }

  // The end of `add_dir`.
  method Finish(img: Image, host: Host, cur: nat, ghost parent: nat, ghost d0: Disk, ghost n0: map<nat, Inode>,
                ghost inums: seq<nat>, ghost lo: nat) returns (ok: bool)
    requires img.Valid() && host.HDir? && HostOk(host)
    requires Building(img.sb, d0, n0, img.Final(), img.nodes, cur, parent, host.entries, inums, |host.entries|, lo,
                      img.freeinode)
    modifies img`nodes
    ensures ok ==>
      && img.Valid() && cur in img.nodes
      && OnlyOne(img.sb, d0, n0, img.Final(), img.nodes, cur)
      && (forall j | j in img.nodes :: j in n0 || j >= lo)
      && (DirOk(img.sb, img.Final(), img.nodes[cur]) <==> NamesDiffer(host.entries))
      && (AllDiffer(host) ==>
            && Shows(img.sb, img.Final(), img.nodes, cur, host, parent, cur, img.freeinode)
            && NewGood(img.sb, img.Final(), img.nodes, lo))
  {
    if (img.nodes[cur].size / BSIZE + 1) * BSIZE > MAXFILE * BSIZE {
      return false;
    }
    ghost var d, n, o := img.Final(), img.nodes, img.owner;
    img.FixDirSize(cur);
    AllFit(img.sb, d, n, o);
    WholeEntries(img.nodes[cur].size);
    Finished(img.sb, d0, n0, d, n, img.nodes, cur, parent, host, inums, lo, img.freeinode);
    ok := true;
  }

  lemma AllFit(sb: Super, d: Disk, nodes: map<nat, Inode>, owner: Owners)
    requires Inv(sb, d, nodes, owner)
    ensures forall j | j in nodes :: InodeFits(sb, nodes[j])
  {
    forall j | j in nodes ensures InodeFits(sb, nodes[j]) { assert NodeOk(sb, d, nodes, owner, j); }
  }

  lemma WholeEntries(size: nat)
    requires size % BSIZE == 0
    ensures size % ENTSIZE == 0
  {
  }

  /** `add_dir` on a new directory: ".", "..", then for each file of the host's directory its inode with what
      is in it and its entry, and at last the rounded size.  The result is a directory for the kernel exactly
      when the host's names differ in their first 14 bytes; when they do all the way down, it shows the
      host's tree.  `ok` is false when a block, an entry or a number is one too many. */
  method AddDir(img: Image, host: Host, cur: nat, parent: nat) returns (ok: bool)
    requires img.Valid() && host.HDir? && HostOk(host) && 0 < cur < 0x1_0000 && 0 < parent < 0x1_0000
    requires cur in img.nodes && img.nodes[cur].kind == T_DIR && Blank(img.sb, img.Final(), img.nodes[cur])
    modifies img
    ensures ok ==>
      && img.Valid() && cur in img.nodes && old(img.freeinode) <= img.freeinode
      && OnlyOne(img.sb, old(img.Final()), old(img.nodes), img.Final(), img.nodes, cur)
      && (forall j | j in img.nodes :: j in old(img.nodes) || j >= old(img.freeinode))
      && (DirOk(img.sb, img.Final(), img.nodes[cur]) <==> NamesDiffer(host.entries))
      && (AllDiffer(host) ==>
            && Shows(img.sb, img.Final(), img.nodes, cur, host, parent, cur, img.freeinode)
            && NewGood(img.sb, img.Final(), img.nodes, old(img.freeinode)))
    decreases host, 0, 1
  {
    ghost var sb, d0, n0, lo := img.sb, img.Final(), img.nodes, img.freeinode;
    ok := AddDots(img, cur, parent, host.entries);
    if !ok {
      return;
    }
    ghost var inums: seq<nat> := [];
    var k: nat := 0;
    while k < |host.entries|
      invariant k <= |host.entries| && img.Valid() && ok && lo <= img.freeinode
      invariant Building(sb, d0, n0, img.Final(), img.nodes, cur, parent, host.entries, inums, k, lo, img.freeinode)
    {
      var child;
      ok, child := AddNext(img, host, cur, parent, k, d0, n0, inums, lo);
      if !ok {
        return;
      }
      inums := inums + [child];
      k := k + 1;
    }
    ok := Finish(img, host, cur, parent, d0, n0, inums, lo);
  }

  lemma ImageGood(sb: Super, d: Disk, nodes: map<nat, Inode>, root: nat, host: Host, hi: nat)
    requires Shows(sb, d, nodes, root, host, root, root, hi) && NewGood(sb, d, nodes, root + 1)
    requires forall j | j in nodes :: j >= root
    ensures P.TreeOk(sb, d, nodes)
  {
    forall j | j in nodes ensures Good(sb, d, nodes[j]) {}
  }

  // The root and everything in it.
  method AddRoot(img: Image, host: Host) returns (ok: bool)
    requires img.Valid() && img.nodes == map[] && img.freeinode == 1 && host.HDir? && HostOk(host)
    modifies img
    ensures ok ==> img.Valid()
    ensures ok && AllDiffer(host) ==>
      && Shows(img.sb, img.Final(), img.nodes, 1, host, 1, 1, img.freeinode)
      && P.TreeOk(img.sb, img.Final(), img.nodes)
  {
    var root := img.Ialloc(T_DIR);
    NewIsBlank(img.sb, img.Final(), T_DIR);
    ok := AddDir(img, host, root, root);
    if ok && AllDiffer(host) {
      ImageGood(img.sb, img.Final(), img.nodes, root, host, img.freeinode);
    }
  }

  /** The whole tool: from a directory of the host to an image with its bitmap.  The kernel's invariant holds
      of it, and if names differ where they are kept it shows the host's tree from inode 1 on. */
  method BuildImage(sb: Super, host: Host) returns (ok: bool, img: Image)
    requires sb.Valid() && host.HDir? && HostOk(host)
    ensures fresh(img) && img.sb == sb
    ensures ok ==> Inv(sb, img.disk, img.nodes, img.owner)
    ensures ok && AllDiffer(host) ==>
      && Shows(sb, img.disk, img.nodes, 1, host, 1, 1, img.freeinode)
      && P.TreeOk(sb, img.disk, img.nodes)
  {
    img := new Image(sb);
    ok := AddRoot(img, host);
    if !ok || img.freeblock >= BPB {
      return false, img;
    }
    img.WriteBitmap(img.freeblock);
  }

  // ----- paths

  // The first of the entries that is kept under the name `key`.
  function Entry(es: seq<HostEntry>, key: seq<Char>): Option<Host> {
    if es == [] then None
    else if Short(es[0].name) == key then Some(es[0].node)
    else Entry(es[1..], key)
  }

  // What a path names on the host.
  function HostAt(host: Host, comps: seq<seq<Char>>): Option<Host>
    decreases |comps|
  {
    if comps == [] then Some(host)
    else if host.HFile? then None
    else
      match Entry(host.entries, D.Key(comps[0]))
      case None => None
      case Some(node) => HostAt(node, comps[1..])
  }

  lemma {:induction false} EntryIs(es: seq<HostEntry>, key: seq<Char>)
    ensures Entry(es, key).None? ==> forall t: nat | t < |es| :: !HasShort(es, t, key)
    ensures Entry(es, key).Some? ==>
      exists t: nat :: t < |es| && HasShort(es, t, key) && Entry(es, key) == Some(es[t].node)
  {
    if es != [] {
      if Short(es[0].name) == key {
        assert HasShort(es, 0, key);
      } else {
        EntryIs(es[1..], key);
        forall t: nat | t < |es| && Entry(es, key).None? ensures !HasShort(es, t, key) {
          assert t > 0 ==> !HasShort(es[1..], t - 1, key);
        }
        if Entry(es, key).Some? {
          var t: nat :| t < |es| - 1 && HasShort(es[1..], t, key) && Entry(es[1..], key) == Some(es[1..][t].node);
          assert HasShort(es, t + 1, key);
        }
      }
    }
  }

  ghost predicate NoDots(comps: seq<seq<Char>>) {
    forall c | c in comps :: D.Key(c) != Short(DOT) && D.Key(c) != Short(DOTS)
  }

  // One component.
  lemma OneFound(sb: Super, d: Disk, nodes: map<nat, Inode>, i: nat, host: Host, parent: nat, lo: nat, hi: nat,
                 key: seq<Char>) returns (j: nat)
    requires P.TreeOk(sb, d, nodes) && Shows(sb, d, nodes, i, host, parent, lo, hi)
    requires key != Short(DOT) && key != Short(DOTS)
    ensures var at := P.Lookup(P.TreeOf(sb, d, nodes), i, key);
            var there := if host.HFile? then None else Entry(host.entries, key);
            && (there.None? ==> at == None)
            && (there.Some? ==> at == Some(j) && Shows(sb, d, nodes, j, there.value, i, lo, hi))
  {
    j := 0;
    if host.HDir? {
      var es := host.entries;
      var m := D.Listing(Entries(sb, d, nodes[i]));
      var inums: seq<nat> :| Lists(m, i, parent, es, inums)
        && forall t: nat | t < |es| :: Shows(sb, d, nodes, inums[t], es[t].node, i, lo, hi);
      EntryIs(es, key);
      if Entry(es, key).Some? {
        var t: nat :| t < |es| && HasShort(es, t, key) && Entry(es, key) == Some(es[t].node);
        j := inums[t];
      }
    }
  }

  /** On such an image the kernel's walk along a path of plain names ends at what the path names on the host, and
      nowhere exactly when it names nothing there. */
  lemma {:induction false} PathFound(sb: Super, d: Disk, nodes: map<nat, Inode>, i: nat, host: Host, parent: nat,
                                     lo: nat, hi: nat, comps: seq<seq<Char>>) returns (j: nat, up: nat)
    requires P.TreeOk(sb, d, nodes) && Shows(sb, d, nodes, i, host, parent, lo, hi) && NoDots(comps)
    ensures var at := P.Resolve(P.TreeOf(sb, d, nodes), i, comps);
            && (HostAt(host, comps).None? ==> at == None)
            && (HostAt(host, comps).Some? ==>
                  at == Some(j) && Shows(sb, d, nodes, j, HostAt(host, comps).value, up, lo, hi))
    ensures var there := HostAt(host, comps);
            there.Some? && there.value.HFile? ==>
              j in nodes && Fits(sb, d) && InodeFits(sb, nodes[j]) && Contents(sb, d, nodes[j]) == there.value.bytes
    decreases |comps|
  {
    if comps == [] {
      return i, parent;
    }
    assert comps[0] in comps;
    var next := OneFound(sb, d, nodes, i, host, parent, lo, hi, D.Key(comps[0]));
    j, up := next, i;
    var there := if host.HFile? then None else Entry(host.entries, D.Key(comps[0]));
    if there.Some? {
      assert forall c | c in comps[1..] :: c in comps;
      j, up := PathFound(sb, d, nodes, next, there.value, i, lo, hi, comps[1..]);
    }
  }
}
