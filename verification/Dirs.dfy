/** Directories: entries of fixed-width names that stand for a finite map on names cut to 14 bytes. */
module Dirs {
  import opened Common

  const DIRSIZ: nat := 14
  const NUL: Char := '\0'

  datatype Dirent = Dirent(inum: nat, name: seq<Char>)

  // The length of a name: up to the first NUL, or 14.
  function KeyLen(s: seq<Char>, i: nat): (r: nat)
    requires i <= DIRSIZ && i <= |s|
    ensures i <= r <= DIRSIZ && r <= |s| && (r == DIRSIZ || r == |s| || s[r] == NUL)
    ensures forall k | i <= k < r :: s[k] != NUL
    decreases DIRSIZ - i
  {
    if i == DIRSIZ || i == |s| || s[i] == NUL then i else KeyLen(s, i + 1)
  }

  /** The name that a buffer stands for. */
  function Key(s: seq<Char>): seq<Char> { s[..KeyLen(s, 0)] }

  // Its first 14 bytes, up to a NUL, may be read.
  ghost predicate Readable(s: seq<Char>) { |s| >= DIRSIZ || NUL in s }

  function Zeros(n: nat): seq<Char> { seq(n, _ => NUL) }

  // ----- strncmp and strncpy

  // Names that agree up to `i`, where both end or they differ.
  lemma KeysAt(p: seq<Char>, q: seq<Char>, i: nat)
    requires i <= DIRSIZ && i <= |p| && i <= |q| && forall k: nat | k < i :: p[k] == q[k] != NUL
    requires i < DIRSIZ ==> i < |p| && i < |q| && (p[i] == NUL || p[i] != q[i])
    ensures Key(p) == Key(q) <==> i == DIRSIZ || p[i] == q[i]
  {
    assert i < DIRSIZ && p[i] != NUL ==> |Key(p)| > i && Key(p)[i] == p[i];
    assert i < DIRSIZ && q[i] != NUL ==> |Key(q)| > i && Key(q)[i] == q[i];
  }

  /** `strncmp` with the width of a name: equal just when the names are. */
  method NameCmp(p: seq<Char>, q: seq<Char>) returns (same: bool)
    requires Readable(p) && Readable(q)
    ensures same <==> Key(p) == Key(q)
  {
    var i := 0;
    while i < DIRSIZ && p[i] != NUL && p[i] == q[i]
      invariant i <= DIRSIZ && i <= |p| && i <= |q| && (i < DIRSIZ ==> i < |p| && i < |q|)
      invariant forall k: nat | k < i :: p[k] == q[k] != NUL
    {
      i := i + 1;
    }
    KeysAt(p, q, i);
    return i == DIRSIZ || p[i] == q[i];
  }

  /** `strncpy` into a name: cut to 14 bytes and padded with NULs. */
  method NameCpy(t: seq<Char>) returns (s: seq<Char>)
    requires Readable(t)
    ensures |s| == DIRSIZ && Key(s) == Key(t)
    ensures forall k: nat | KeyLen(t, 0) <= k < DIRSIZ :: s[k] == NUL
  {
    s := [];
    while |s| < DIRSIZ && t[|s|] != NUL
      invariant |s| <= DIRSIZ && |s| <= |t| && (|s| < DIRSIZ ==> |s| < |t|)
      invariant forall k: nat | k < |s| :: s[k] == t[k] != NUL
      decreases DIRSIZ - |s|
    {
      s := s + [t[|s|]];
    }
    ghost var n := |s|;
    while |s| < DIRSIZ
      invariant n <= |s| <= DIRSIZ && forall k: nat | k < n :: s[k] == t[k]
      invariant forall k: nat | n <= k < |s| :: s[k] == NUL
      decreases DIRSIZ - |s|
    {
      s := s + [NUL];
    }
    KeysAt(s, t, n);
  }

  // ----- the map that a sequence of entries stands for

  ghost predicate Used(ents: seq<Dirent>, i: nat) { i < |ents| && ents[i].inum != 0 }

  ghost predicate NamesOk(ents: seq<Dirent>) {
    && (forall i: nat | i < |ents| :: |ents[i].name| == DIRSIZ)
    && forall i: nat, j: nat | Used(ents, i) && Used(ents, j) && Key(ents[i].name) == Key(ents[j].name) :: i == j
  }

  ghost function Listing(ents: seq<Dirent>): map<seq<Char>, nat> {
    if ents == [] then map[]
    else
      var e := ents[|ents| - 1];
      var m := Listing(ents[..|ents| - 1]);
      if e.inum == 0 then m else m[Key(e.name) := e.inum]
  }

  // Used entry `i` has name `k`.
  ghost predicate Names(ents: seq<Dirent>, i: nat, k: seq<Char>) { Used(ents, i) && Key(ents[i].name) == k }

  /** With unique names a name is listed, with this number, just when some used entry has both. */
  lemma {:induction false} ListingIs(ents: seq<Dirent>)
    requires NamesOk(ents)
    ensures forall i: nat, k | Names(ents, i, k) :: k in Listing(ents) && Listing(ents)[k] == ents[i].inum
    ensures forall k | k in Listing(ents) :: exists i: nat :: Names(ents, i, k)
  {
    if ents != [] {
      var n := |ents| - 1;
      var init := ents[..n];
      assert forall i: nat | Used(init, i) :: Used(ents, i) && init[i] == ents[i];
      ListingIs(init);
      forall i: nat, k | Names(ents, i, k) ensures k in Listing(ents) && Listing(ents)[k] == ents[i].inum {
        if i < n { assert Names(init, i, k) && (Used(ents, n) ==> Key(ents[n].name) != k); }
      }
      forall k | k in Listing(ents) ensures exists i: nat :: Names(ents, i, k) {
        if k in Listing(init) {
          var i: nat :| Names(init, i, k);
          assert Names(ents, i, k);
        } else {
          assert Names(ents, n, k);
        }
      }
    }
  }

  // Entries with the same names, but for those of `k` and at `i`.
  lemma ListingsAgree(ents: seq<Dirent>, ents': seq<Dirent>, k: seq<Char>)
    requires NamesOk(ents) && NamesOk(ents') && |ents'| == |ents|
    requires forall j: nat, n | n != k :: Names(ents', j, n) <==> Names(ents, j, n)
    requires forall j: nat, n | n != k && Names(ents, j, n) :: ents'[j].inum == ents[j].inum
    ensures Listing(ents') - {k} == Listing(ents) - {k}
  {
    ListingIs(ents);
    ListingIs(ents');
    forall n | n != k
      ensures n in Listing(ents) <==> n in Listing(ents')
      ensures n in Listing(ents) ==> Listing(ents')[n] == Listing(ents)[n]
    {
      if n in Listing(ents) {
        var j: nat :| Names(ents, j, n);
        assert Names(ents', j, n);
      }
      if n in Listing(ents') {
        var j: nat :| Names(ents', j, n);
        assert Names(ents, j, n);
      }
    }
  }

  // A free entry takes a name that is not listed.
  lemma EntrySet(ents: seq<Dirent>, i: nat, e: Dirent)
    requires NamesOk(ents) && i < |ents| && ents[i].inum == 0 && e.inum != 0 && |e.name| == DIRSIZ
    requires Key(e.name) !in Listing(ents)
    ensures NamesOk(ents[i := e]) && Listing(ents[i := e]) == Listing(ents)[Key(e.name) := e.inum]
  {
    var ents', k := ents[i := e], Key(e.name);
    NamesStayOk(ents, i, e);
    ListingsAgree(ents, ents', k);
    ListingIs(ents');
    assert Names(ents', i, k);
    OneMore(Listing(ents), Listing(ents'), k);
  }

  lemma NamesStayOk(ents: seq<Dirent>, i: nat, e: Dirent)
    requires NamesOk(ents) && i < |ents| && ents[i].inum == 0 && e.inum != 0 && |e.name| == DIRSIZ
    requires Key(e.name) !in Listing(ents)
    ensures NamesOk(ents[i := e])
    ensures forall j: nat, n | n != Key(e.name) :: Names(ents[i := e], j, n) <==> Names(ents, j, n)
  {
    var ents', k := ents[i := e], Key(e.name);
    ListingIs(ents);
    forall j: nat | j != i ensures Used(ents', j) <==> Used(ents, j) {}
    forall j: nat | Used(ents, j) ensures Key(ents[j].name) != k {
      assert Names(ents, j, Key(ents[j].name));
    }
  }

  lemma OneMore(m: map<seq<Char>, nat>, m': map<seq<Char>, nat>, k: seq<Char>)
    requires m' - {k} == m - {k} && k in m'
    ensures m' == m[k := m'[k]]
  {
    forall n | n != k ensures n in m' <==> n in m {
      assert n in m' - {k} <==> n in m - {k};
    }
    forall n | n != k && n in m ensures m'[n] == m[n] {
      assert (m' - {k})[n] == (m - {k})[n];
    }
  }

  // A free entry takes such a name and stays free.
  lemma EntryFree(ents: seq<Dirent>, i: nat, e: Dirent)
    requires NamesOk(ents) && i < |ents| && ents[i].inum == 0 && e.inum == 0 && |e.name| == DIRSIZ
    requires Key(e.name) !in Listing(ents)
    ensures NamesOk(ents[i := e]) && Listing(ents[i := e]) == Listing(ents)
  {
    var ents', k := ents[i := e], Key(e.name);
    SameUsed(ents, i, e);
    NotListed(ents, ents', k);
    ListingsAgree(ents, ents', k);
    NoneLess(Listing(ents), Listing(ents'), k);
  }

  lemma SameUsed(ents: seq<Dirent>, i: nat, e: Dirent)
    requires NamesOk(ents) && i < |ents| && ents[i].inum == 0 && e.inum == 0 && |e.name| == DIRSIZ
    ensures NamesOk(ents[i := e])
    ensures forall j: nat, n :: Names(ents[i := e], j, n) <==> Names(ents, j, n)
  {
    forall j: nat ensures Used(ents[i := e], j) <==> Used(ents, j) {}
  }

  lemma NotListed(ents: seq<Dirent>, ents': seq<Dirent>, k: seq<Char>)
    requires NamesOk(ents) && NamesOk(ents') && k !in Listing(ents)
    requires forall j: nat :: Names(ents', j, k) <==> Names(ents, j, k)
    ensures k !in Listing(ents')
  {
    ListingIs(ents);
    ListingIs(ents');
  }

  lemma NoneLess(m: map<seq<Char>, nat>, m': map<seq<Char>, nat>, k: seq<Char>)
    requires m' - {k} == m - {k} && k !in m && k !in m'
    ensures m' == m
  {
    assert m' - {k} == m' && m - {k} == m;
  }

  // A used entry is zeroed.
  lemma EntryCleared(ents: seq<Dirent>, i: nat)
    requires NamesOk(ents) && Used(ents, i)
    ensures var ents' := ents[i := Dirent(0, Zeros(DIRSIZ))];
            NamesOk(ents') && Listing(ents') == Listing(ents) - {Key(ents[i].name)}
  {
    var ents', k := ents[i := Dirent(0, Zeros(DIRSIZ))], Key(ents[i].name);
    forall j: nat ensures Used(ents', j) <==> Used(ents, j) && j != i {}
    assert NamesOk(ents');
    ListingsAgree(ents, ents', k);
    ListingIs(ents');
    forall j: nat ensures !Names(ents', j, k) {
      assert Used(ents', j) ==> Used(ents, j) && j != i;
    }
    assert Listing(ents') - {k} == Listing(ents');
  }
}
