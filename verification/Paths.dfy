/** Path names: `skipelem` takes them apart, `namex` walks them from directory to directory. */
module Paths {
  import opened Common
  import opened Dirs
  import opened DirFile
  import opened Fs
  import opened FsState
  import opened FsSteps

  // ----- the components of a path

  // The pieces between slashes.
  function Split(path: seq<Char>): (r: seq<seq<Char>>)
    ensures r != []
  {
    if path == [] then [[]]
    else if path[0] == '/' then [[]] + Split(path[1..])
    else
      var r := Split(path[1..]);
      [[path[0]] + r[0]] + r[1..]
  }

  function NonEmpty(pieces: seq<seq<Char>>): seq<seq<Char>> {
    if pieces == [] then [] else (if pieces[0] == [] then [] else [pieces[0]]) + NonEmpty(pieces[1..])
  }

  /** The non-empty pieces between slashes. */
  function Components(path: seq<Char>): seq<seq<Char>> { NonEmpty(Split(path)) }

  lemma LeadingSlash(path: seq<Char>)
    requires path != [] && path[0] == '/'
    ensures Components(path) == Components(path[1..])
  {
    assert ([[]] + Split(path[1..]))[1..] == Split(path[1..]);
  }

  // The first `n` characters are the first piece.
  lemma {:induction false} FirstPiece(path: seq<Char>, n: nat)
    requires n <= |path| && '/' !in path[..n] && (n == |path| || path[n] == '/')
    ensures Split(path)[0] == path[..n]
    ensures Split(path)[1..] == if n == |path| then [] else Split(path[n + 1..])
  {
    if n > 0 {
      assert path[0] in path[..n] && path[1..][..n - 1] == path[..n][1..];
      FirstPiece(path[1..], n - 1);
      assert path[..n] == [path[0]] + path[1..][..n - 1];
      assert n < |path| ==> path[1..][n..] == path[n + 1..];
    }
  }

  lemma FirstComponent(path: seq<Char>, n: nat)
    requires 0 < n <= |path| && '/' !in path[..n] && (n == |path| || path[n] == '/')
    ensures Components(path) == [path[..n]] + Components(path[n..])
  {
    FirstPiece(path, n);
    if n < |path| {
      LeadingSlash(path[n..]);
      assert path[n..][1..] == path[n + 1..];
    } else {
      assert path[n..] == [];
      assert Components([]) == [];
    }
  }

  lemma NextComponent(path: seq<Char>, s: nat, e: nat)
    requires s < e <= |path| && (forall j | s <= j < e :: path[j] != '/') && (e == |path| || path[e] == '/')
    ensures Components(path[s..]) == [path[s..e]] + Components(path[e..])
  {
    var t, n := path[s..], e - s;
    assert t[..n] == path[s..e] && t[n..] == path[e..];
    FirstComponent(t, n);
  }

  lemma NoComponent(path: seq<Char>)
    ensures Components(path[|path|..]) == []
  {
    assert path[|path|..] == [] && Components([]) == [];
  }

  // From `p` on the path has the components `left`; when there is one, the others follow at `r`.
  ghost predicate Taken(path: seq<Char>, p: nat, r: Option<nat>, left: seq<seq<Char>>) {
    && p <= |path| && left == Components(path[p..])
    && (r.None? <==> left == [])
    && (r.Some? ==>
         && p < r.value <= |path| && Components(path[r.value..]) == left[1..]
         && (r.value == |path| <==> left[1..] == []))
  }

  /** `skipelem` from `p` on: none when no component is left; otherwise `name` gets the next one, cut
      to 14 bytes, and the place returned is past it and the slashes that follow. */
  method Skipelem(path: seq<Char>, p: nat, name: array<Char>) returns (r: Option<nat>)
    requires p <= |path| && NUL !in path && name.Length == DIRSIZ
    modifies name
    ensures Taken(path, p, r, Components(path[p..]))
    ensures r.Some? ==> Key(name[..]) == Key(Components(path[p..])[0])
  {
    var s := SkipSlashes(path, p);
    if s == |path| {
      NoComponent(path);
      return None;
    }
    var e: nat := s;
    while e < |path| && path[e] != '/'
      invariant s <= e <= |path| && forall j | s <= j < e :: path[j] != '/'
    {
      e := e + 1;
    }
    NextComponent(path, s, e);
    CopyName(path, s, e, name);
    var next := SkipSlashes(path, e);
    NoComponent(path);
    if next < |path| {
      SomeComponent(path, next);
    }
    return Some(next);
  }

  // A path that starts with another character than a slash has a component.
  lemma SomeComponent(path: seq<Char>, p: nat)
    requires p < |path| && path[p] != '/'
    ensures Components(path[p..]) != []
  {
    var t := path[p..];
    assert Split(t)[0] == [t[0]] + Split(t[1..])[0];
  }

  method SkipSlashes(path: seq<Char>, p: nat) returns (q: nat)
    requires p <= |path|
    ensures p <= q <= |path| && (q < |path| ==> path[q] != '/') && Components(path[q..]) == Components(path[p..])
  {
    q := p;
    while q < |path| && path[q] == '/'
      invariant p <= q <= |path| && Components(path[q..]) == Components(path[p..])
    {
      LeadingSlash(path[q..]);
      assert path[q..][1..] == path[q + 1..];
      q := q + 1;
    }
  }

  // `memmove(name, s, ..)`: 14 bytes, or all of them and a NUL.
  method CopyName(path: seq<Char>, s: nat, e: nat, name: array<Char>)
    requires s < e <= |path| && NUL !in path && name.Length == DIRSIZ
    modifies name
    ensures Key(name[..]) == Key(path[s..e])
  {
    var len := e - s;
    var n := if len >= DIRSIZ then DIRSIZ else len;
    var k := 0;
    while k < n
      invariant k <= n && forall j | 0 <= j < k :: name[j] == path[s + j]
    {
      name[k] := path[s + k];
      k := k + 1;
    }
    if len < DIRSIZ {
      name[len] := NUL;
    }
    forall j: nat | j < n ensures name[..][j] == path[s..e][j] != NUL { assert path[s + j] in path; }
    KeyIs(name[..], n);
    KeyIs(path[s..e], n);
  }

  lemma KeyIs(s: seq<Char>, n: nat)
    requires n <= DIRSIZ && n <= |s| && (forall j: nat | j < n :: s[j] != NUL)
    requires n == DIRSIZ || n == |s| || s[n] == NUL
    ensures Key(s) == s[..n]
  {
  }

  // ----- walking

  // An inode: a directory with what it lists, or something else.
  datatype Node = Dir(listing: map<seq<Char>, nat>) | Other

  type Tree = map<nat, Node>

  ghost predicate TreeOk(sb: Super, d: Disk, nodes: map<nat, Inode>) {
    && Fits(sb, d)
    && forall i | i in nodes :: InodeFits(sb, nodes[i]) && (nodes[i].kind == T_DIR ==> DirOk(sb, d, nodes[i]))
  }

  // The directories of a disk.
  ghost function TreeOf(sb: Super, d: Disk, nodes: map<nat, Inode>): Tree
    requires TreeOk(sb, d, nodes)
  {
    map i | i in nodes :: if nodes[i].kind == T_DIR then Dir(Listing(Entries(sb, d, nodes[i]))) else Other
  }

  // The disk is consistent and its directories are `t`.
  ghost predicate Shows(fs: FileSystem, t: Tree)
    reads fs
  {
    fs.Valid() && TreeOk(fs.sb, fs.disk, fs.nodes) && TreeOf(fs.sb, fs.disk, fs.nodes) == t
  }

  // Adding blocks to a file changes no directory.
  lemma GrewTree(sb: Super, d: Disk, nodes: map<nat, Inode>, owner: Owners,
                 d': Disk, nodes': map<nat, Inode>, owner': Owners, i: nat)
    requires Grew(sb, d, nodes, owner, d', nodes', owner', i) && TreeOk(sb, d, nodes)
    ensures TreeOk(sb, d', nodes') && TreeOf(sb, d', nodes') == TreeOf(sb, d, nodes)
  {
    forall j | j in nodes
      ensures InodeFits(sb, nodes'[j]) && (nodes'[j].kind == T_DIR ==> DirOk(sb, d', nodes'[j]))
      ensures Entries(sb, d', nodes'[j]) == Entries(sb, d, nodes[j])
    {
      assert SameFile(sb, d, nodes[j], d', nodes'[j]);
      SameEntries(sb, d, nodes[j], d', nodes'[j]);
    }
  }

  // The entry `name` of directory `at`, if `at` is one.
  ghost function Lookup(t: Tree, at: nat, name: seq<Char>): Option<nat> {
    if at !in t || t[at].Other? || name !in t[at].listing then None else Some(t[at].listing[name])
  }

  /** Looking the components up one after another. */
  ghost function Resolve(t: Tree, at: nat, comps: seq<seq<Char>>): Option<nat>
    decreases |comps|
  {
    if comps == [] then Some(at)
    else
      match Lookup(t, at, Key(comps[0]))
      case None => None
      case Some(next) => Resolve(t, next, comps[1..])
  }

  // All but the last component, and that must lead to a directory.
  ghost function ResolveParent(t: Tree, at: nat, comps: seq<seq<Char>>): Option<nat> {
    if comps == [] then None
    else
      match Resolve(t, at, comps[..|comps| - 1])
      case None => None
      case Some(d) => if d in t && t[d].Dir? then Some(d) else None
  }

  lemma ResolveParentNext(t: Tree, at: nat, comps: seq<seq<Char>>)
    requires |comps| > 1
    ensures ResolveParent(t, at, comps) ==
      match Lookup(t, at, Key(comps[0]))
      case None => None
      case Some(next) => ResolveParent(t, next, comps[1..])
  {
    assert comps[..|comps| - 1][1..] == comps[1..][..|comps| - 2];
  }

  /** What the path names is what its last component names in the parent it has. */
  lemma {:induction false} ParentHas(t: Tree, at: nat, comps: seq<seq<Char>>)
    requires comps != []
    ensures Resolve(t, at, comps) ==
      match ResolveParent(t, at, comps)
      case None => None
      case Some(d) => Lookup(t, d, Key(comps[|comps| - 1]))
    decreases |comps|
  {
    if |comps| > 1 {
      ResolveParentNext(t, at, comps);
      var next := Lookup(t, at, Key(comps[0]));
      if next.Some? {
        ParentHas(t, next.value, comps[1..]);
      }
    } else {
      assert comps[..0] == [] && comps[1..] == [];
      assert Resolve(t, at, comps[..0]) == Some(at);
    }
  }

  // `dirlookup` in `at`, if that is a directory.
  method Enter(fs: FileSystem, at: nat, name: seq<Char>, ghost t: Tree) returns (ok: bool, r: Option<nat>)
    requires Shows(fs, t) && Readable(name) && at in t && t[at].Dir?
    modifies fs`disk, fs`nodes, fs`owner
    ensures !ok ==> Full(fs.sb, fs.disk)
    ensures ok ==> Shows(fs, t) && r == Lookup(t, at, Key(name))
  {
    ghost var d, n, o := fs.disk, fs.nodes, fs.owner;
    var inum, at';
    ok, inum, at' := Dirlookup(fs, at, name);
    if ok {
      GrewTree(fs.sb, d, n, o, fs.disk, fs.nodes, fs.owner, at);
    }
    r := if inum == 0 then None else Some(inum);
  }

  method IsDir(fs: FileSystem, at: nat, ghost t: Tree) returns (dir: bool)
    requires Shows(fs, t)
    ensures dir <==> at in t && t[at].Dir?
  {
    return at in fs.nodes && fs.nodes[at].kind == T_DIR;
  }

  // What `namex` still has to find, from `at` on.
  ghost function Goal(t: Tree, at: nat, comps: seq<seq<Char>>, parent: bool): Option<nat> {
    if parent then ResolveParent(t, at, comps) else Resolve(t, at, comps)
  }

  lemma GoalNext(t: Tree, at: nat, comps: seq<seq<Char>>, parent: bool)
    requires comps != []
    ensures at !in t || t[at].Other? ==> Goal(t, at, comps, parent) == None
    ensures parent && |comps| == 1 && at in t && t[at].Dir? ==> Goal(t, at, comps, parent) == Some(at)
    ensures !(parent && |comps| == 1) ==>
      Goal(t, at, comps, parent) ==
        match Lookup(t, at, Key(comps[0]))
        case None => None
        case Some(next) => Goal(t, next, comps[1..], parent)
  {
    if parent {
      if |comps| > 1 {
        ResolveParentNext(t, at, comps);
      } else {
        assert comps[..0] == [];
      }
    }
  }

  // Having come to `ip` with the components `left` still to go, the walk from `start` along `all` can
  // go on from there.
  ghost predicate OnTheWay(t: Tree, start: nat, all: seq<seq<Char>>, parent: bool, ip: nat, left: seq<seq<Char>>) {
    && (left != [] ==> all != [] && left[|left| - 1] == all[|all| - 1])
    && (if left == [] && parent then Goal(t, start, all, parent) == None
        else Goal(t, start, all, parent) == Goal(t, ip, left, parent))
  }

  lemma FurtherOn(t: Tree, start: nat, all: seq<seq<Char>>, parent: bool, ip: nat, left: seq<seq<Char>>, next: nat)
    requires OnTheWay(t, start, all, parent, ip, left) && left != [] && !(parent && |left| == 1)
    requires Lookup(t, ip, Key(left[0])) == Some(next)
    ensures OnTheWay(t, start, all, parent, next, left[1..])
  {
    GoalNext(t, ip, left, parent);
  }

  // The walk ends here.
  lemma EndOfWalk(t: Tree, start: nat, all: seq<seq<Char>>, parent: bool, ip: nat, left: seq<seq<Char>>)
    requires OnTheWay(t, start, all, parent, ip, left)
    ensures left == [] ==> Goal(t, start, all, parent) == if parent then None else Some(ip)
    ensures left != [] && !(ip in t && t[ip].Dir?) ==> Goal(t, start, all, parent) == None
    ensures |left| == 1 && parent && ip in t && t[ip].Dir? ==>
      all != [] && left[0] == all[|all| - 1] && Goal(t, start, all, parent) == Some(ip)
    ensures left != [] && !(parent && |left| == 1) && Lookup(t, ip, Key(left[0])).None? ==>
      Goal(t, start, all, parent) == None
  {
    if left != [] {
      GoalNext(t, ip, left, parent);
    }
  }

  // The loop of `namex`, from `ip` on.
  method Walk(fs: FileSystem, start: nat, path: seq<Char>, parent: bool, name: array<Char>, ghost t: Tree)
    returns (ok: bool, r: Option<nat>)
    requires Shows(fs, t) && NUL !in path && name.Length == DIRSIZ
    modifies fs`disk, fs`nodes, fs`owner, name
    ensures !ok ==> Full(fs.sb, fs.disk)
    ensures ok ==> Shows(fs, t) && r == Goal(t, start, Components(path), parent)
    ensures ok && parent && r.Some? ==> Key(name[..]) == Key(Components(path)[|Components(path)| - 1])
  {
    var ip, p: nat := start, 0;
    ghost var all := Components(path);
    assert path[0..] == path;
    var next := Skipelem(path, 0, name);
    ghost var left := all;
    while next.Some?
      invariant Shows(fs, t) && Taken(path, p, next, left)
      invariant next.Some? ==> Key(name[..]) == Key(left[0])
      invariant OnTheWay(t, start, all, parent, ip, left)
      decreases |path| - p
    {
      EndOfWalk(t, start, all, parent, ip, left);
      var dir := IsDir(fs, ip, t);
      if !dir {
        return true, None;
      }
      if parent && next.value == |path| {
        return true, Some(ip);
      }
      var found;
      ok, found := Enter(fs, ip, name[..], t);
      if !ok || found.None? {
        return ok, None;
      }
      FurtherOn(t, start, all, parent, ip, left, found.value);
      ip, p, left := found.value, next.value, left[1..];
      next := Skipelem(path, p, name);
    }
    EndOfWalk(t, start, all, parent, ip, left);
    return true, if parent then None else Some(ip);
  }

  /** `namex`: the inode of a path, or of its parent directory with the last component in `name`. */
  method Namex(fs: FileSystem, root: nat, cwd: nat, path: seq<Char>, parent: bool, name: array<Char>)
    returns (ok: bool, r: Option<nat>)
    requires fs.Valid() && TreeOk(fs.sb, fs.disk, fs.nodes) && NUL !in path && name.Length == DIRSIZ
    modifies fs`disk, fs`nodes, fs`owner, name
    ensures !ok ==> Full(fs.sb, fs.disk)
    ensures ok ==>
      var t := TreeOf(fs.sb, old(fs.disk), old(fs.nodes));
      var start := if path != [] && path[0] == '/' then root else cwd;
      && Shows(fs, t)
      && r == if parent then ResolveParent(t, start, Components(path)) else Resolve(t, start, Components(path))
    ensures ok && parent && r.Some? ==> Key(name[..]) == Key(Components(path)[|Components(path)| - 1])
  {
    ghost var t := TreeOf(fs.sb, fs.disk, fs.nodes);
    var ip: nat := if path != [] && path[0] == '/' then root else cwd;
    ok, r := Walk(fs, ip, path, parent, name, t);
  }
}
