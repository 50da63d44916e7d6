/** Address spaces: `setupkvm`, `allocuvm`, `deallocuvm`, `freevm`, `copyuvm`, `mprotect` and
    `munprotect` over a list of free frames.  Virtual addresses are page numbers where the code
    only ever uses whole pages. */
module Vm {
  import opened VmSpace
  import opened VmState

  const PGSIZE: nat := 4096
  const USERTOP: nat := 0xA0000
  const WORD: nat := 0x1_0000_0000     // one past the largest address

  function PagesFor(sz: nat): nat { (sz + PGSIZE - 1) / PGSIZE }

  ghost predicate UsesFrame(d: nat, f: nat, u: Use) {
    (u.Dir? && f == d) || (u.Tab? && u.d == d) || (u.User? && u.d == d)
  }

  // Only frames used by `d` change hands.
  ghost predicate OnlyFor(d: nat, owner: Owners, owner': Owners) {
    forall f :: (f in owner && !UsesFrame(d, f, owner[f]) <==> f in owner' && !UsesFrame(d, f, owner'[f]))
      && (f in owner && !UsesFrame(d, f, owner[f]) ==> owner'[f] == owner[f])
  }

  // No frame is lost and none appears.
  ghost predicate Conserved(free: seq<nat>, owner: Owners, free': seq<nat>, owner': Owners) {
    forall f :: f in free' || f in owner' <==> f in free || f in owner
  }

  // Other spaces have their entries and bytes as before.
  ghost predicate OthersKept(tables: Tables, pages: Pages, dirs: set<nat>, owner: Owners, d: nat,
                             tables': Tables, pages': Pages)
  {
    && (forall e | e in dirs && e != d :: SameSpace(tables, tables', e))
    && BytesKept(pages, owner, pages')
  }

  // Frames change hands for `d` alone, and the other spaces are as before.
  ghost predicate Kept(free: seq<nat>, tables: Tables, pages: Pages, dirs: set<nat>, owner: Owners, d: nat,
                       free': seq<nat>, tables': Tables, pages': Pages, owner': Owners)
  {
    && Conserved(free, owner, free', owner') && OnlyFor(d, owner, owner')
    && OthersKept(tables, pages, dirs, owner, d, tables', pages')
  }

  // Frames in use keep their bytes.
  ghost predicate BytesKept(pages: Pages, owner: Owners, pages': Pages) {
    forall f | f in owner && f in pages :: f in pages' && pages'[f] == pages[f]
  }

  lemma KeptNone(free: seq<nat>, tables: Tables, pages: Pages, dirs: set<nat>, owner: Owners, d: nat)
    requires Inv(free, tables, pages, dirs, owner)
    ensures OthersKept(tables, pages, dirs, owner, d, tables, pages)
  {
    forall e | e in dirs ensures SameSpace(tables, tables, e) {
      assert EntryOk(tables, owner, e, 0);
    }
  }

  lemma KeptTwice(tables: Tables, pages: Pages, dirs: set<nat>, d: nat, t1: Tables, t2: Tables)
    requires forall e | e in dirs && e != d :: SameSpace(tables, t1, e) && SameSpace(t1, t2, e)
    ensures forall e | e in dirs && e != d :: SameSpace(tables, t2, e)
  {
  }

  lemma KeptMore(dirs: set<nat>, d: nat, f0: seq<nat>, t0: Tables, p: Pages, o0: Owners, f1: seq<nat>, t1: Tables,
                 o1: Owners, f2: seq<nat>, t2: Tables, o2: Owners)
    requires Kept(f0, t0, p, dirs, o0, d, f1, t1, p, o1) && Kept(f1, t1, p, dirs, o1, d, f2, t2, p, o2)
    ensures Kept(f0, t0, p, dirs, o0, d, f2, t2, p, o2)
  {
  }

  // Pages lo..hi-1 of the kernel are mapped, for as many frames as there were tables missing.
  ghost predicate Mapping(f0: seq<nat>, t0: Tables, p: Pages, dirs: set<nat>, o0: Owners, d: nat, lo: nat, hi: nat,
                          w: bool, f1: seq<nat>, t1: Tables, o1: Owners)
  {
    && MappedTo(t0, d, lo, hi, w, t1) && Took(t0, d, lo, hi, t1)
    && |f1| + |TableSet(t1, d)| == |f0| + |TableSet(t0, d)|
    && Kept(f0, t0, p, dirs, o0, d, f1, t1, p, o1)
  }

  // The frames have run out before all of lo..hi-1 was mapped.
  ghost predicate MappingShort(f0: seq<nat>, t0: Tables, p: Pages, dirs: set<nat>, o0: Owners, d: nat, lo: nat, hi: nat,
                               f1: seq<nat>, t1: Tables, o1: Owners)
  {
    && f1 == [] && TookLess(t0, d, lo, hi, t1)
    && |f1| + |TableSet(t1, d)| == |f0| + |TableSet(t0, d)|
    && Kept(f0, t0, p, dirs, o0, d, f1, t1, p, o1)
  }

  lemma MappingNone(f: seq<nat>, t: Tables, p: Pages, dirs: set<nat>, o: Owners, d: nat, lo: nat, w: bool)
    requires Inv(f, t, p, dirs, o) && lo <= VPAGES
    ensures Mapping(f, t, p, dirs, o, d, lo, lo, w, f, t, o)
  {
    KeptNone(f, t, p, dirs, o, d);
  }

  lemma MappingMore(f0: seq<nat>, t0: Tables, p: Pages, dirs: set<nat>, o0: Owners, d: nat, lo: nat, a: nat, w: bool,
                    f1: seq<nat>, t1: Tables, o1: Owners, f2: seq<nat>, t2: Tables, o2: Owners)
    requires lo <= a < VPAGES && Mapping(f0, t0, p, dirs, o0, d, lo, a, w, f1, t1, o1)
    requires Mapping(f1, t1, p, dirs, o1, d, a, a + 1, w, f2, t2, o2)
    ensures Mapping(f0, t0, p, dirs, o0, d, lo, a + 1, w, f2, t2, o2)
  {
    MappedMore(t0, d, lo, a, w, t1, t2);
    TookMore(t0, d, lo, a, t1, t2);
    KeptMore(dirs, d, f0, t0, p, o0, f1, t1, o1, f2, t2, o2);
  }

  // Pages lo..hi-1 of `d` are gone with their frames; the other user pages are as before.
  ghost predicate Unmapped(tables: Tables, owner: Owners, d: nat, lo: nat, hi: nat,
                           tables': Tables, owner': Owners)
  {
    && HasTable(tables, d, 0) && HasTable(tables', d, 0)
    && (forall v: nat | v < USERPAGES && !(lo <= v < hi) :: UserPte(tables', d, v) == UserPte(tables, d, v))
    && (forall v: nat | v < USERPAGES && lo <= v < hi :: !Mapped(tables', d, v))
    && (forall f :: f in owner' <==> f in owner && !(owner[f].User? && owner[f].d == d && lo <= owner[f].v < hi))
    && (forall f | f in owner' :: owner'[f] == owner[f])
  }

  // Page `a` of space `d`, in table `t`, is given up with its frame.
  lemma PageFreed(free: seq<nat>, tables: Tables, pages: Pages, dirs: set<nat>, owner: Owners, d: nat, a: nat, t: nat)
    requires Inv(free, tables, pages, dirs, owner) && d in dirs && HasTable(tables, d, 0) && a < USERPAGES
    requires t == TableOf(tables, d, 0) && t in tables && |tables[t]| == ENTRIES && tables[t][a].p
    ensures var f, tables' := tables[t][a].frame, tables[t := tables[t][a := Absent()]];
            && Inv([f] + free, tables', pages, dirs, owner - {f})
            && Unmapped(tables, owner, d, a, a + 1, tables', owner - {f})
            && Conserved(free, owner, [f] + free, owner - {f}) && OnlyFor(d, owner, owner - {f})
            && OthersKept(tables, pages, dirs, owner - {f}, d, tables', pages)
  {
    var f := tables[t][a].frame;
    DropPage(free, tables, pages, dirs, owner, d, a);
    OnlyUser(free, tables, pages, dirs, owner, d, a);
    OneFreed(free, owner, d, a, f);
    KeptNone(free, tables, pages, dirs, owner, d);
  }

  // The frame of one page becomes free.
  lemma OneFreed(free: seq<nat>, owner: Owners, d: nat, a: nat, f: nat)
    requires f in owner && owner[f] == User(d, a)
    ensures Conserved(free, owner, [f] + free, owner - {f}) && OnlyFor(d, owner, owner - {f})
  {
  }

  lemma UnmappedTwice(t0: Tables, o0: Owners, d: nat, lo: nat, mid: nat, hi: nat,
                      t1: Tables, o1: Owners, t2: Tables, o2: Owners)
    requires Unmapped(t0, o0, d, lo, mid, t1, o1) && Unmapped(t1, o1, d, mid, hi, t2, o2)
    requires lo <= mid <= hi
    ensures Unmapped(t0, o0, d, lo, hi, t2, o2)
  {
    forall v: nat | v < USERPAGES && lo <= v < hi ensures !Mapped(t2, d, v) {
      if v < mid {
        assert !Mapped(t1, d, v) && UserPte(t2, d, v) == UserPte(t1, d, v);
      }
    }
  }

  lemma OnlyForTwice(d: nat, o0: Owners, o1: Owners, o2: Owners)
    requires OnlyFor(d, o0, o1) && OnlyFor(d, o1, o2)
    ensures OnlyFor(d, o0, o2)
  {
  }

  function ZeroPage(): seq<int> { seq(PGSIZE, _ => 0) }

  // A writable user page of zeros.
  ghost predicate Fresh(tables: Tables, pages: Pages, d: nat, v: nat) {
    Mapped(tables, d, v) &&
    var e := UserPte(tables, d, v);
    e.w && e.u && e.frame in pages && pages[e.frame] == ZeroPage()
  }

  // Pages lo..hi-1 of `d` are new; the other user pages are as before.
  ghost predicate Extended(tables: Tables, owner: Owners, d: nat, lo: nat, hi: nat,
                           tables': Tables, pages': Pages, owner': Owners)
  {
    && HasTable(tables, d, 0) && HasTable(tables', d, 0)
    && (forall v: nat | v < USERPAGES && !(lo <= v < hi) :: UserPte(tables', d, v) == UserPte(tables, d, v))
    && (forall v: nat | v < USERPAGES && lo <= v < hi :: Fresh(tables', pages', d, v))
    && (forall f | f in owner :: f in owner' && owner'[f] == owner[f])
    && (forall f | f in owner' && f !in owner :: owner'[f].User? && owner'[f].d == d && lo <= owner'[f].v < hi)
  }

  lemma ExtendedEntries(t0: Tables, o0: Owners, d: nat, lo: nat, hi: nat, t1: Tables, p1: Pages, o1: Owners)
    requires Extended(t0, o0, d, lo, hi, t1, p1, o1)
    ensures forall v: nat | v < USERPAGES ::
      var e := UserPte(t1, d, v);
      if lo <= v < hi then e.p && e.w && e.u && e.frame in p1 && p1[e.frame] == seq(4096, _ => 0)
      else e == UserPte(t0, d, v)
  {
    forall v: nat | v < USERPAGES && lo <= v < hi
      ensures Mapped(t1, d, v) && UserPte(t1, d, v).w && UserPte(t1, d, v).u
      ensures UserPte(t1, d, v).frame in p1 && p1[UserPte(t1, d, v).frame] == seq(4096, _ => 0)
    {
      assert Fresh(t1, p1, d, v);
    }
  }

  // The first free frame became user page `v` of `d`.
  ghost predicate PageAdded(free: seq<nat>, tables: Tables, pages: Pages, owner: Owners, d: nat, v: nat, w: bool,
                            f: nat, bytes: seq<int>, free': seq<nat>, tables': Tables, pages': Pages, owner': Owners)
  {
    && free != [] && f == free[0] && f != 0 && f !in owner && free' == free[1..]
    && HasTable(tables, d, 0) && v < USERPAGES
    && TableOf(tables, d, 0) != d
    && tables' == tables[TableOf(tables, d, 0) := tables[TableOf(tables, d, 0)][v := Pte(true, w, true, f)]]
    && pages' == pages[f := bytes]
    && owner' == owner[f := User(d, v)]
  }

  // `allocuvm` has come to page `a`.
  ghost predicate Grown(free: seq<nat>, tables: Tables, pages: Pages, dirs: set<nat>, owner: Owners, d: nat, lo: nat,
                        a: nat, free': seq<nat>, tables': Tables, pages': Pages, owner': Owners)
  {
    && Kept(free, tables, pages, dirs, owner, d, free', tables', pages', owner')
    && Extended(tables, owner, d, lo, a, tables', pages', owner')
  }

  lemma ExtendedByOne(t0: Tables, o0: Owners, d: nat, lo: nat, a: nat, f: nat,
                      f1: seq<nat>, t1: Tables, p1: Pages, o1: Owners, f2: seq<nat>, t2: Tables, p2: Pages, o2: Owners)
    requires Extended(t0, o0, d, lo, a, t1, p1, o1) && lo <= a
    requires PageAdded(f1, t1, p1, o1, d, a, true, f, ZeroPage(), f2, t2, p2, o2)
    requires HasTable(t2, d, 0) && TableOf(t2, d, 0) == TableOf(t1, d, 0)
    requires forall v: nat | v < USERPAGES && Mapped(t1, d, v) :: UserPte(t1, d, v).frame in o1
    ensures Extended(t0, o0, d, lo, a + 1, t2, p2, o2)
  {
    forall v: nat | v < USERPAGES && lo <= v < a + 1 ensures Fresh(t2, p2, d, v) {
      if v < a {
        assert Fresh(t1, p1, d, v) && UserPte(t2, d, v) == UserPte(t1, d, v);
      }
    }
  }

  // Undoing an extension leaves the owners as they were.
  lemma ExtendedUndone(t0: Tables, o0: Owners, d: nat, lo: nat, mid: nat, hi: nat, t1: Tables, p1: Pages,
                       o1: Owners, t2: Tables, o2: Owners)
    requires Extended(t0, o0, d, lo, mid, t1, p1, o1) && Unmapped(t1, o1, d, lo, hi, t2, o2) && mid <= hi
    requires forall f | f in o0 :: !(o0[f].User? && o0[f].d == d && lo <= o0[f].v < hi)
    ensures o2 == o0
    ensures forall v: nat | v < USERPAGES && !(lo <= v < hi) :: UserPte(t2, d, v) == UserPte(t0, d, v)
    ensures forall v: nat | v < USERPAGES && lo <= v < hi :: !Mapped(t2, d, v)
  {
  }

  /** With the same owners the same frames are free. */
  lemma FreeDetermined(free: seq<nat>, free': seq<nat>, owner: Owners)
    requires FreeOk(free, owner) && FreeOk(free', owner) && Conserved(free, owner, free', owner)
    ensures FreeSet(free') == FreeSet(free)
  {
    forall f ensures f in FreeSet(free) <==> f in FreeSet(free') {
      assert f in FreeSet(free) + owner.Keys <==> f in FreeSet(free') + owner.Keys;
    }
  }

  class Machine {
    var free: seq<nat>
    var tables: Tables
    var pages: Pages
    const data: nat                  // page of the kernel's `data` symbol
    ghost var dirs: set<nat>
    ghost var owner: Owners

    ghost predicate Valid()
      reads this
    {
      256 < data < 4096 && Inv(free, tables, pages, dirs, owner)
    }

    // `kalloc` of a page for data, filled by the caller.
    method Kalloc(bytes: seq<int>) returns (f: nat)
      requires Valid()
      modifies this`free, this`pages, this`owner
      ensures Valid()
      ensures old(free) == [] ==> f == 0 && free == [] && pages == old(pages) && owner == old(owner)
      ensures old(free) != [] ==>
        && f == old(free)[0] && f != 0 && f !in old(owner) && free == old(free)[1..]
        && pages == old(pages)[f := bytes] && owner == old(owner)[f := Other]
      ensures Conserved(old(free), old(owner), free, owner)
    {
      if free == [] {
        return 0;
      }
      TakeInHand(free, tables, pages, dirs, owner, bytes);
      TakeFree(free, owner, Other);
      f := free[0];
      pages, owner := pages[f := bytes], owner[f := Other];
      free := free[1..];
      assert f in old(free);
    }

    /** `deallocuvm`: user pages from the first whole page at or above `newsz` up to `oldsz` are
        unmapped and their frames freed. */
    method Deallocuvm(d: nat, oldsz: nat, newsz: nat) returns (r: nat)
      requires Valid() && d in dirs && HasTable(tables, d, 0) && oldsz <= USERTOP
      modifies this`free, this`tables, this`owner
      ensures Valid() && HasTable(tables, d, 0)
      ensures r == if newsz >= oldsz then oldsz else newsz
      ensures Conserved(old(free), old(owner), free, owner) && OnlyFor(d, old(owner), owner)
      ensures OthersKept(old(tables), pages, dirs, owner, d, tables, pages)
      ensures newsz >= oldsz ==> tables == old(tables) && owner == old(owner) && free == old(free)
      ensures newsz < oldsz ==> Unmapped(old(tables), old(owner), d, PagesFor(newsz), PagesFor(oldsz), tables, owner)
      ensures newsz < oldsz ==> forall v: nat | v < USERPAGES ::
        if PagesFor(newsz) <= v < PagesFor(oldsz) then !Mapped(tables, d, v)
        else UserPte(tables, d, v) == UserPte(old(tables), d, v)
    {
      KeptNone(free, tables, pages, dirs, owner, d);
      if newsz >= oldsz {
        return oldsz;
      }
      var a := PagesFor(newsz);
      while a * PGSIZE < oldsz
        invariant PagesFor(newsz) <= a && (a - 1) * PGSIZE < oldsz
        invariant Valid() && HasTable(tables, d, 0)
        invariant Conserved(old(free), old(owner), free, owner) && OnlyFor(d, old(owner), owner)
        invariant OthersKept(old(tables), pages, dirs, owner, d, tables, pages)
        invariant Unmapped(old(tables), old(owner), d, PagesFor(newsz), a, tables, owner)
        decreases oldsz - a * PGSIZE
      {
        ghost var t0, o0 := tables, owner;
        UnmapPage(d, a);
        UnmappedTwice(old(tables), old(owner), d, PagesFor(newsz), a, a + 1, t0, o0, tables, owner);
        OnlyForTwice(d, old(owner), o0, owner);
        KeptTwice(old(tables), pages, dirs, d, t0, tables);
        a := a + 1;
      }
      return newsz;
    }

    // One turn of the loop of `deallocuvm`.
    method UnmapPage(d: nat, a: nat)
      requires Valid() && d in dirs && HasTable(tables, d, 0) && a < USERPAGES
      modifies this`free, this`tables, this`owner
      ensures Valid()
      ensures Unmapped(old(tables), old(owner), d, a, a + 1, tables, owner)
      ensures Conserved(old(free), old(owner), free, owner) && OnlyFor(d, old(owner), owner)
      ensures OthersKept(old(tables), pages, dirs, owner, d, tables, pages)
    {
      KeptNone(free, tables, pages, dirs, owner, d);
      var t := Walk(d, a, false);
      if t != 0 && tables[t][a].p {
        FreePage(d, a, t);
      } else {
        NoUser(free, tables, pages, dirs, owner, d, a);
      }
    }

    // `kfree` of page `a` and its entry cleared.
    method FreePage(d: nat, a: nat, t: nat)
      requires Valid() && d in dirs && HasTable(tables, d, 0) && a < USERPAGES
      requires t == TableOf(tables, d, 0) && t in tables && |tables[t]| == ENTRIES && tables[t][a].p
      modifies this`free, this`tables, this`owner
      ensures Valid()
      ensures Unmapped(old(tables), old(owner), d, a, a + 1, tables, owner)
      ensures Conserved(old(free), old(owner), free, owner) && OnlyFor(d, old(owner), owner)
      ensures OthersKept(old(tables), pages, dirs, owner, d, tables, pages)
    {
      PageFreed(free, tables, pages, dirs, owner, d, a, t);
      ghost var f := tables[t][a].frame;
      free := [tables[t][a].frame] + free;
      tables := tables[t := tables[t][a := Absent()]];
      owner := owner - {f};
    }

    /** `walkpgdir`: the table that holds the entry of page `v`, made on demand; 0 when there is none. */
    method Walk(d: nat, v: nat, create: bool) returns (t: nat)
      requires Valid() && d in dirs && v < VPAGES
      modifies this`free, this`tables, this`owner
      ensures Valid()
      ensures old(HasTable(tables, d, v / ENTRIES)) ==>
        && t == old(TableOf(tables, d, v / ENTRIES)) && t != 0
        && tables == old(tables) && owner == old(owner) && free == old(free)
      ensures !old(HasTable(tables, d, v / ENTRIES)) && (!create || old(free) == []) ==>
        t == 0 && tables == old(tables) && owner == old(owner) && free == old(free)
      ensures !old(HasTable(tables, d, v / ENTRIES)) && create && old(free) != [] ==>
        TableAdded(old(free), old(tables), old(owner), d, v / ENTRIES, t, free, tables, owner)
      ensures forall e | e in dirs && e != d :: SameSpace(old(tables), tables, e)
    {
      KeptNone(free, tables, pages, dirs, owner, d);
      var i := v / ENTRIES;
      assert EntryOk(tables, owner, d, i);
      if tables[d][i].p {
        return tables[d][i].frame;
      }
      if !create || free == [] {
        return 0;
      }
      AddTable(free, tables, pages, dirs, owner, d, i);
      assert free[0] in free;
      t := free[0];
      free := free[1..];
      tables := tables[t := ZeroTable()];
      tables := tables[d := tables[d][i := Pte(true, true, true, t)]];
      owner := owner[t := Tab(d, i)];
    }

    // `kalloc` and `mappages` of one user page: the table is there, so mapping cannot fail.
    method MapPage(d: nat, a: nat, w: bool, bytes: seq<int>) returns (f: nat)
      requires Valid() && d in dirs && HasTable(tables, d, 0) && a < USERPAGES && !Mapped(tables, d, a)
      modifies this`free, this`tables, this`pages, this`owner
      ensures Valid() && HasTable(tables, d, 0)
      ensures f == 0 <==> old(free) == []
      ensures f == 0 ==> tables == old(tables) && owner == old(owner) && pages == old(pages) && free == old(free)
      ensures f != 0 ==>
        PageAdded(old(free), old(tables), old(pages), old(owner), d, a, w, f, bytes, free, tables, pages, owner)
      ensures Conserved(old(free), old(owner), free, owner) && OnlyFor(d, old(owner), owner)
      ensures OthersKept(old(tables), old(pages), dirs, old(owner), d, tables, pages)
    {
      KeptNone(free, tables, pages, dirs, owner, d);
      f := Kalloc(bytes);
      if f == 0 {
        return;
      }
      var t := Walk(d, a, true);
      assert t == TableOf(tables, d, 0) && tables == old(tables);
      AddPage(free, tables, pages, dirs, owner, d, a, w, f);
      tables := tables[t := tables[t][a := Pte(true, w, true, f)]];
      owner := owner[f := User(d, a)];
    }

    /** `allocuvm`: every page up to `newsz` is a fresh page of zeros, or, when the frames run out,
        everything is as it was: the pages mapped and the frames free. */
    method Allocuvm(d: nat, oldsz: nat, newsz: nat) returns (ok: bool, r: nat)
      requires Valid() && d in dirs && HasTable(tables, d, 0)
      requires forall v: nat | PagesFor(oldsz) <= v < USERPAGES :: !Mapped(tables, d, v)
      modifies this`free, this`tables, this`pages, this`owner
      ensures Valid() && HasTable(tables, d, 0)
      ensures Conserved(old(free), old(owner), free, owner) && OnlyFor(d, old(owner), owner)
      ensures OthersKept(old(tables), old(pages), dirs, old(owner), d, tables, pages)
      ensures ok <==> newsz <= USERTOP && |old(free)| >= PagesFor(newsz) - PagesFor(oldsz)
      ensures newsz > USERTOP ==> !ok && r == 0 && tables == old(tables) && owner == old(owner) && free == old(free)
      ensures newsz <= USERTOP && newsz < oldsz ==>
        ok && r == oldsz && tables == old(tables) && owner == old(owner) && free == old(free)
      ensures ok && oldsz <= newsz ==>
        r == newsz && Extended(old(tables), old(owner), d, PagesFor(oldsz), PagesFor(newsz), tables, pages, owner)
      ensures ok && oldsz <= newsz ==> forall v: nat | v < USERPAGES ::
        var e := UserPte(tables, d, v);
        if PagesFor(oldsz) <= v < PagesFor(newsz)
        then e.p && e.w && e.u && e.frame in pages && pages[e.frame] == seq(4096, _ => 0)
        else e == UserPte(old(tables), d, v)
      ensures !ok ==>
        && r == 0 && owner == old(owner) && FreeSet(free) == FreeSet(old(free))
        && forall v: nat | v < USERPAGES ::
             (Mapped(tables, d, v) <==> Mapped(old(tables), d, v))
             && (Mapped(tables, d, v) ==> UserPte(tables, d, v) == UserPte(old(tables), d, v))
    {
      KeptNone(free, tables, pages, dirs, owner, d);
      if newsz > USERTOP {
        return false, 0;
      }
      if newsz < oldsz {
        return true, oldsz;
      }
      ok := AllocPages(d, oldsz, newsz);
      r := if ok then newsz else 0;
      if ok {
        ExtendedEntries(old(tables), old(owner), d, PagesFor(oldsz), PagesFor(newsz), tables, pages, owner);
      }
    }

    // The loop of `allocuvm`; `a` is the first page it did not map.
    method AllocUpTo(d: nat, oldsz: nat, newsz: nat) returns (ok: bool, a: nat)
      requires Valid() && d in dirs && HasTable(tables, d, 0) && oldsz <= newsz <= USERTOP
      requires forall v: nat | PagesFor(oldsz) <= v < USERPAGES :: !Mapped(tables, d, v)
      modifies this`free, this`tables, this`pages, this`owner
      ensures Valid() && HasTable(tables, d, 0)
      ensures Grown(old(free), old(tables), old(pages), dirs, old(owner), d, PagesFor(oldsz), a,
                    free, tables, pages, owner)
      ensures if ok then a == PagesFor(newsz) else a * PGSIZE < newsz
      ensures ok <==> |old(free)| >= PagesFor(newsz) - PagesFor(oldsz)
    {
      KeptNone(free, tables, pages, dirs, owner, d);
      var lo := PagesFor(oldsz);
      a := lo;
      while a * PGSIZE < newsz
        invariant lo <= a && (a == lo || (a - 1) * PGSIZE < newsz)
        invariant Valid() && |free| == |old(free)| - (a - lo)
        invariant Grown(old(free), old(tables), old(pages), dirs, old(owner), d, lo, a, free, tables, pages, owner)
        decreases newsz - a * PGSIZE
      {
        ok := AllocPage(d, lo, a, old(free), old(tables), old(pages), old(owner));
        if !ok {
          return;
        }
        a := a + 1;
      }
      ok := true;
    }

    // All the pages or none.
    method AllocPages(d: nat, oldsz: nat, newsz: nat) returns (ok: bool)
      requires Valid() && d in dirs && HasTable(tables, d, 0) && oldsz <= newsz <= USERTOP
      requires forall v: nat | PagesFor(oldsz) <= v < USERPAGES :: !Mapped(tables, d, v)
      modifies this`free, this`tables, this`pages, this`owner
      ensures Valid() && HasTable(tables, d, 0)
      ensures Conserved(old(free), old(owner), free, owner) && OnlyFor(d, old(owner), owner)
      ensures OthersKept(old(tables), old(pages), dirs, old(owner), d, tables, pages)
      ensures ok <==> |old(free)| >= PagesFor(newsz) - PagesFor(oldsz)
      ensures ok ==> Extended(old(tables), old(owner), d, PagesFor(oldsz), PagesFor(newsz), tables, pages, owner)
      ensures !ok ==>
        && owner == old(owner) && FreeSet(free) == FreeSet(old(free))
        && forall v: nat | v < USERPAGES ::
             (Mapped(tables, d, v) <==> Mapped(old(tables), d, v))
             && (Mapped(tables, d, v) ==> UserPte(tables, d, v) == UserPte(old(tables), d, v))
    {
      PagesOwned(free, tables, pages, dirs, owner, d);
      var a;
      ok, a := AllocUpTo(d, oldsz, newsz);
      if !ok {
        ghost var t := tables;
        Undo(d, oldsz, newsz, old(tables), old(owner), old(free), a);
        KeptTwice(old(tables), pages, dirs, d, t, tables);
      }
    }

    // One turn of the loop of `allocuvm`, which began with `free0`, `tables0`, `pages0` and `owner0`.
    method AllocPage(d: nat, ghost lo: nat, a: nat, ghost free0: seq<nat>, ghost tables0: Tables,
                     ghost pages0: Pages, ghost owner0: Owners)
      returns (ok: bool)
      requires Valid() && d in dirs && lo <= a < USERPAGES
      requires Grown(free0, tables0, pages0, dirs, owner0, d, lo, a, free, tables, pages, owner)
      requires !Mapped(tables0, d, a)
      modifies this`free, this`tables, this`pages, this`owner
      ensures Valid()
      ensures ok <==> old(free) != []
      ensures |free| == if ok then |old(free)| - 1 else 0
      ensures ok ==> Grown(free0, tables0, pages0, dirs, owner0, d, lo, a + 1, free, tables, pages, owner)
      ensures !ok ==> Grown(free0, tables0, pages0, dirs, owner0, d, lo, a, free, tables, pages, owner)
    {
      ghost var f0, t0, p0, o0 := free, tables, pages, owner;
      assert UserPte(tables, d, a) == UserPte(tables0, d, a);
      PagesOwned(free, tables, pages, dirs, owner, d);
      var f := MapPage(d, a, true, ZeroPage());
      if f == 0 {
        return false;
      }
      KeptTwice(tables0, pages, dirs, d, t0, tables);
      OnlyForTwice(d, owner0, o0, owner);
      ExtendedByOne(tables0, owner0, d, lo, a, f, f0, t0, p0, o0, free, tables, pages, owner);
      return true;
    }

    // `allocuvm` out of memory at page `a`.
    method Undo(d: nat, oldsz: nat, newsz: nat, ghost tables0: Tables, ghost owner0: Owners,
                ghost free0: seq<nat>, ghost a: nat)
      requires Valid() && d in dirs && oldsz <= newsz <= USERTOP && a * PGSIZE < newsz
      requires FreeOk(free0, owner0) && Conserved(free0, owner0, free, owner)
      requires Extended(tables0, owner0, d, PagesFor(oldsz), a, tables, pages, owner)
      requires forall v: nat | PagesFor(oldsz) <= v < USERPAGES :: !Mapped(tables0, d, v)
      requires forall f | f in owner0 ::
        !(owner0[f].User? && owner0[f].d == d && PagesFor(oldsz) <= owner0[f].v < PagesFor(newsz))
      modifies this`free, this`tables, this`owner
      ensures Valid() && HasTable(tables, d, 0) && owner == owner0 && FreeSet(free) == FreeSet(free0)
      ensures Conserved(free0, owner0, free, owner)
      ensures forall e | e in dirs && e != d :: SameSpace(old(tables), tables, e)
      ensures forall v: nat | v < USERPAGES ::
        (Mapped(tables, d, v) <==> Mapped(tables0, d, v))
        && (Mapped(tables, d, v) ==> UserPte(tables, d, v) == UserPte(tables0, d, v))
    {
      ghost var t1, p1, o1 := tables, pages, owner;
      var r := Deallocuvm(d, newsz, oldsz);
      ExtendedUndone(tables0, owner0, d, PagesFor(oldsz), a, PagesFor(newsz), t1, p1, o1, tables, owner);
      FreeDetermined(free0, free, owner0);
    }

    // One turn of the loop of `mappages`, for a page of the kernel.
    method MapOne(d: nat, v: nat, w: bool) returns (ok: bool)
      requires Valid() && d in dirs && USERPAGES <= v < VPAGES && !EntryAt(tables, d, v).p
      modifies this`free, this`tables, this`owner
      ensures Valid()
      ensures ok ==> Mapping(old(free), old(tables), pages, dirs, old(owner), d, v, v + 1, w, free, tables, owner)
      ensures !ok ==> free == old(free) == [] && tables == old(tables) && owner == old(owner)
      ensures !ok ==> !HasTable(tables, d, v / ENTRIES)
    {
      ghost var had := HasTable(tables, d, v / ENTRIES);
      KeptNone(free, tables, pages, dirs, owner, d);
      var t := Walk(d, v, true);
      if !had && t != 0 {
        TableAddedMaps(old(free), old(tables), pages, dirs, old(owner), d, v / ENTRIES, t, free, tables, owner);
      }
      if t == 0 {
        return false;
      }
      EntryWritten(tables, pages, dirs, owner, free, d, v, Pte(true, w, false, v));
      SetEntry(free, tables, pages, dirs, owner, d, v / ENTRIES, v % ENTRIES, Pte(true, w, false, v));
      ghost var t1 := tables;
      tables := tables[t := tables[t][v % ENTRIES := Pte(true, w, false, v)]];
      KeptTwice(old(tables), pages, dirs, d, t1, tables);
      TookOne(old(tables), d, v, tables);
      return true;
    }

    // The same turn, after pages lo..a-1.
    method MapNext(d: nat, ghost lo: nat, a: nat, ghost hi: nat, w: bool,
                   ghost f0: seq<nat>, ghost t0: Tables, ghost o0: Owners)
      returns (ok: bool)
      requires Valid() && d in dirs && USERPAGES <= lo <= a < hi <= VPAGES
      requires !EntryAt(t0, d, a).p
      requires Mapping(f0, t0, pages, dirs, o0, d, lo, a, w, free, tables, owner)
      modifies this`free, this`tables, this`owner
      ensures Valid()
      ensures ok ==> Mapping(f0, t0, pages, dirs, o0, d, lo, a + 1, w, free, tables, owner)
      ensures !ok ==> MappingShort(f0, t0, pages, dirs, o0, d, lo, hi, free, tables, owner)
    {
      assert EntryAt(tables, d, a) == EntryAt(t0, d, a);
      ok := MapOne(d, a, w);
      if ok {
        MappingMore(f0, t0, pages, dirs, o0, d, lo, a, w, old(free), old(tables), old(owner), free, tables, owner);
      } else {
        TookShort(t0, d, lo, a, hi, tables);
      }
    }

    /** `mappages` of kernel pages `lo`..`hi`-1, each to the frame of the same number. */
    method Mappages(d: nat, lo: nat, hi: nat, w: bool) returns (ok: bool)
      requires Valid() && d in dirs && USERPAGES <= lo < hi <= VPAGES
      requires forall v: nat | lo <= v < hi :: !EntryAt(tables, d, v).p
      modifies this`free, this`tables, this`owner
      ensures Valid()
      ensures ok ==> Mapping(old(free), old(tables), pages, dirs, old(owner), d, lo, hi, w, free, tables, owner)
      ensures !ok ==> MappingShort(old(free), old(tables), pages, dirs, old(owner), d, lo, hi, free, tables, owner)
    {
      MappingNone(free, tables, pages, dirs, owner, d, lo, w);
      var a := lo;
      while true
        invariant lo <= a < hi && Valid()
        invariant Mapping(old(free), old(tables), pages, dirs, old(owner), d, lo, a, w, free, tables, owner)
        decreases hi - a
      {
        ok := MapNext(d, lo, a, hi, w, old(free), old(tables), old(owner));
        if !ok {
          return;
        }
        a := a + 1;
        if a == hi {
          return;
        }
      }
    }

    // The loop of `setupkvm` over the ranges of `kmap`.
    method MapKernel(d: nat) returns (ok: bool)
      requires Valid() && d in dirs && Table(tables, d) && tables[d] == ZeroTable()
      modifies this`free, this`tables, this`owner
      ensures Valid()
      ensures ok <==> |old(free)| >= 12
      ensures if ok then |free| == |old(free)| - 12 else free == []
      ensures ok ==> KernelSpace(tables, d, data, 4) && HasTable(tables, d, 0) && d in tables && |tables[d]| == 1024
      ensures ok ==> forall i: nat | i < 1024 && tables[d][i].p ::
        tables[d][i].frame in tables && |tables[tables[d][i].frame]| == 1024
      ensures ok ==> forall i: nat, j: nat | i < 1024 && j < 1024 && tables[d][i].p ::
        tables[tables[d][i].frame][j] ==
          if 160 <= 1024 * i + j < 4096 || 0xF_E000 <= 1024 * i + j
          then Pte(true, 1024 * i + j < 256 || data <= 1024 * i + j, false, 1024 * i + j)
          else Pte(false, false, false, 0)
      ensures ok ==> forall i: nat | i < 1024 :: tables[d][i].p <==> i < 4 || 1016 <= i
      ensures Kept(old(free), old(tables), pages, dirs, old(owner), d, free, tables, pages, owner)
    {
      KeptNone(free, tables, pages, dirs, owner, d);
      assert TableSet(tables, d) == {};
      var k := 0;
      while k < 4
        invariant k <= 4 && Valid()
        invariant KernelSpace(tables, d, data, k)
        invariant |free| + |TableSet(tables, d)| == |old(free)|
        invariant Kept(old(free), old(tables), pages, dirs, old(owner), d, free, tables, pages, owner)
      {
        ghost var f1, t1, o1 := free, tables, owner;
        KernelStep(tables, d, data, k, tables);
        var m := Kmaps(data)[k];
        ok := Mappages(d, m.p, m.e, m.w);
        KernelStep(t1, d, data, k, tables);
        KeptMore(dirs, d, old(free), old(tables), pages, old(owner), f1, t1, o1, free, tables, owner);
        if !ok {
          return;
        }
        k := k + 1;
      }
      KernelCount(tables, d, data);
      assert KernelNeeds(data, 4, 0);
      KernelEntries(tables, owner, d, data);
      return true;
    }

    /** `setupkvm`: a directory with the kernel's map, or 0 when fewer than thirteen frames are free;
        then the frames taken so far stay with the abandoned directory.  The map has the pages from
        640K to the end of memory and the devices, where their numbers say and out of reach of the
        user; they are writable, except the kernel's text from 1M to `data`. */
    method Setupkvm() returns (d: nat)
      requires Valid()
      modifies this`free, this`tables, this`dirs, this`owner
      ensures Valid()
      ensures d != 0 <==> |old(free)| >= 13
      ensures if d != 0 then |free| == |old(free)| - 13 else free == []
      ensures d != 0 ==> d == old(free)[0] && KernelSpace(tables, d, data, 4) && HasTable(tables, d, 0)
      ensures d != 0 ==> d in tables && |tables[d]| == 1024
      ensures d != 0 ==> forall i: nat | i < 1024 && tables[d][i].p ::
        tables[d][i].frame in tables && |tables[tables[d][i].frame]| == 1024
      ensures d != 0 ==> forall i: nat, j: nat | i < 1024 && j < 1024 && tables[d][i].p ::
        tables[tables[d][i].frame][j] ==
          if 160 <= 1024 * i + j < 4096 || 0xF_E000 <= 1024 * i + j
          then Pte(true, 1024 * i + j < 256 || data <= 1024 * i + j, false, 1024 * i + j)
          else Pte(false, false, false, 0)
      ensures d != 0 ==> forall i: nat | i < 1024 :: tables[d][i].p <==> i < 4 || 1016 <= i
      ensures old(free) == [] ==> dirs == old(dirs) && owner == old(owner)
      ensures old(free) != [] ==>
        && dirs == old(dirs) + {old(free)[0]} && old(free)[0] !in old(owner) && old(free)[0] !in old(dirs)
        && OnlyFor(old(free)[0], old(owner), owner)
      ensures Conserved(old(free), old(owner), free, owner)
      ensures forall e | e in old(dirs) :: SameSpace(old(tables), tables, e)
    {
      KeptNone(free, tables, pages, dirs, owner, 0);
      assert 0 !in dirs by { assert 0 in dirs ==> OwnedAs(owner, 0, Dir); }
      if free == [] {
        return 0;
      }
      AddDir(free, tables, pages, dirs, owner);
      d := free[0];
      ghost var o1 := owner[d := Dir];
      assert d in free;
      free, tables, dirs := free[1..], tables[d := ZeroTable()], dirs + {d};
      owner := owner[d := Dir];
      assert OnlyFor(d, old(owner), owner);
      ghost var t1 := tables;
      var ok := MapKernel(d);
      OnlyForTwice(d, old(owner), o1, owner);
      KeptTwice(old(tables), pages, old(dirs), d, t1, tables);
      if !ok {
        return 0;
      }
    }

    /** `freevm`: every frame used by `d`, and no other, is freed. */
    method Freevm(d: nat)
      requires Valid() && d in dirs && HasTable(tables, d, 0)
      modifies this`free, this`tables, this`dirs, this`owner
      ensures Valid()
      ensures dirs == old(dirs) - {d}
      ensures Without(old(owner), d, owner)
      ensures Conserved(old(free), old(owner), free, owner)
      ensures forall e | e in dirs :: SameSpace(old(tables), tables, e)
    {
      var r := Deallocuvm(d, USERTOP, 0);
      NoUsers(free, tables, pages, dirs, owner, d);
      ghost var t1 := tables;
      ghost var view: Tables := tables;                // the directory with the freed entries cleared
      var i: nat := 0;
      while i < ENTRIES
        invariant i <= ENTRIES && 256 < data < 4096 && tables == t1 && dirs == old(dirs)
        invariant Inv(free, view, pages, dirs, owner)
        invariant Cleared(tables, d, i, view) && forall v: nat | v < USERPAGES :: !Mapped(view, d, v)
        invariant Kept(old(free), old(tables), pages, dirs, old(owner), d, free, view, pages, owner)
        invariant forall f | f in owner :: !(owner[f].User? && owner[f].d == d)
      {
        view := FreeTable(d, i, old(free), old(tables), old(owner), view);
        i := i + 1;
      }
      DirFreed(old(free), old(tables), old(owner), d, free, tables, view, pages, dirs, owner);
      free := [d] + free;
      dirs, owner := dirs - {d}, owner - {d};
    }

    // One turn of the loop of `freevm`; the entry itself is not written.
    method FreeTable(d: nat, i: nat, ghost f0: seq<nat>, ghost t0: Tables, ghost o0: Owners, ghost view: Tables)
      returns (ghost view': Tables)
      requires d in dirs && i < ENTRIES && Inv(free, view, pages, dirs, owner)
      requires Cleared(tables, d, i, view) && forall v: nat | v < USERPAGES :: !Mapped(view, d, v)
      requires Kept(f0, t0, pages, dirs, o0, d, free, view, pages, owner)
      requires forall f | f in owner :: !(owner[f].User? && owner[f].d == d)
      modifies this`free, this`owner
      ensures Inv(free, view', pages, dirs, owner)
      ensures Cleared(tables, d, i + 1, view') && forall v: nat | v < USERPAGES :: !Mapped(view', d, v)
      ensures Kept(f0, t0, pages, dirs, o0, d, free, view', pages, owner)
      ensures forall f | f in owner :: !(owner[f].User? && owner[f].d == d)
    {
      view' := view;
      assert EntryOk(view, owner, d, i);
      if tables[d][i].p {
        DropTable(free, view, pages, dirs, owner, d, i);
        GiveFree(free, owner, tables[d][i].frame);
        ghost var f := tables[d][i].frame;
        free := [tables[d][i].frame] + free;         // kfree
        view' := view[d := view[d][i := Absent()]];
        owner := owner - {f};
        KeptTwice(t0, pages, dirs, d, view, view');
      }
    }

    /** `copyuvm`: a new space with the bytes and the writable bits of `p` below `sz`. */
    method Copyuvm(p: nat, sz: nat) returns (d: nat)
      requires Valid() && p in dirs && sz <= USERTOP
      requires forall v: nat | v < PagesFor(sz) :: Mapped(tables, p, v)
      modifies this`free, this`tables, this`pages, this`dirs, this`owner
      ensures Valid()
      ensures d != 0 <==> |old(free)| >= 13 + PagesFor(sz)
      ensures d != 0 ==>
        && d !in old(dirs) && dirs == old(dirs) + {d}
        && (forall v: nat | v < PagesFor(sz) ::
              Copied(old(tables), old(pages), p, tables, pages, d, v) && UserPte(tables, d, v).frame !in old(owner))
        && forall v: nat | PagesFor(sz) <= v < VPAGES :: EntryAt(tables, d, v) == KernelPte(data, 4, v)
      ensures d != 0 ==> forall v: nat | v < PagesFor(sz) ::
        Mapped(old(tables), p, v) && Mapped(tables, d, v) &&
        var from, to := UserPte(old(tables), p, v), UserPte(tables, d, v);
        && to.p && to.u && to.w == from.w && to.frame in pages && from.frame in old(pages)
        && pages[to.frame] == old(pages)[from.frame]
      ensures d != 0 ==> forall v: nat | PagesFor(sz) <= v < VPAGES ::
        EntryAt(tables, d, v) ==
          if 160 <= v < 4096 || 0xF_E000 <= v then Pte(true, v < 256 || data <= v, false, v) else Absent()
      ensures d == 0 && |old(free)| >= 13 ==>
        dirs == old(dirs) && owner == old(owner) && FreeSet(free) == FreeSet(old(free))
      ensures Conserved(old(free), old(owner), free, owner)
      ensures forall e | e in old(dirs) :: SameSpace(old(tables), tables, e)
      ensures BytesKept(old(pages), old(owner), pages)
    {
      d := Setupkvm();
      if d == 0 {
        return;
      }
      NoUseOf(old(free), old(tables), old(pages), old(dirs), old(owner), d);
      var i := 0;
      while i * PGSIZE < sz
        invariant i <= PagesFor(sz) && Valid() && dirs == old(dirs) + {d} && HasTable(tables, d, 0)
        invariant |free| == |old(free)| - 13 - i
        invariant Copying(old(free), old(tables), old(pages), old(dirs), old(owner), p, d, data, i,
                          free, tables, pages, owner)
      {
        var ok := CopyPage(p, d, i, old(free), old(tables), old(pages), old(dirs), old(owner));
        if !ok {
          ghost var o1 := owner;
          Freevm(d);
          Restored(d, old(free), old(owner), o1, free, owner);
          return 0;
        }
        i := i + 1;
      }
      assert i == PagesFor(sz);
      NewFrames(d, i, old(owner), free, tables, pages, dirs, owner);
      forall v: nat | v < i
        ensures Copied(old(tables), old(pages), p, tables, pages, d, v) && UserPte(tables, d, v).frame !in old(owner)
      {
        assert Copied(old(tables), old(pages), p, tables, pages, d, v);
      }
    }

    // One turn of the loop of `copyuvm`.
    method CopyPage(p: nat, d: nat, i: nat, ghost f0: seq<nat>, ghost t0: Tables, ghost p0: Pages,
                    ghost dirs0: set<nat>, ghost o0: Owners) returns (ok: bool)
      requires Valid() && p in dirs0 && d in dirs && d !in dirs0 && dirs0 <= dirs
      requires i < USERPAGES && HasTable(tables, d, 0)
      requires Inv(f0, t0, p0, dirs0, o0) && Mapped(t0, p, i)
      requires Copying(f0, t0, p0, dirs0, o0, p, d, data, i, free, tables, pages, owner)
      modifies this`free, this`tables, this`pages, this`owner
      ensures Valid() && HasTable(tables, d, 0)
      ensures ok <==> old(free) != []
      ensures Copying(f0, t0, p0, dirs0, o0, p, d, data, if ok then i + 1 else i, free, tables, pages, owner)
      ensures |free| == if ok then |old(free)| - 1 else |old(free)|
    {
      assert PageOk(t0, p0, o0, p, i) && EntryAt(tables, d, i) == KernelPte(data, 4, i);
      var t := Walk(p, i, false);
      var from := tables[t][i];
      assert from == UserPte(t0, p, i);
      var f := MapPage(d, i, from.w, pages[from.frame]);
      if f == 0 {
        return false;
      }
      CopyingMore(f0, t0, p0, dirs0, o0, p, d, data, i, dirs, from.w, f, old(pages)[from.frame],
                  old(free), old(tables), old(pages), old(owner), free, tables, pages, owner);
      return true;
    }

    /** The life of a space: `setupkvm`, growing and shrinking to each of `sizes`, and `freevm`.  The
        frames free at the end are those free at the start, and every other frame is used as it was. */
    method Life(sizes: seq<nat>) returns (lived: bool)
      requires Valid()
      modifies this`free, this`tables, this`pages, this`dirs, this`owner
      ensures Valid()
      ensures lived <==> |old(free)| >= 13
      ensures lived ==> dirs == old(dirs) && owner == old(owner) && FreeSet(free) == FreeSet(old(free))
      ensures forall e | e in old(dirs) :: SameSpace(old(tables), tables, e)
      ensures BytesKept(old(pages), old(owner), pages)
    {
      var d := Setupkvm();
      if d == 0 {
        return false;
      }
      NoUseOf(old(free), old(tables), old(pages), old(dirs), old(owner), d);
      NoneMapped(tables, d, data);
      var sz: nat, i: nat := 0, 0;
      while i < |sizes|
        invariant i <= |sizes| && sz <= USERTOP && dirs == old(dirs) + {d} && d !in old(dirs)
        invariant Valid() && Living(old(free), old(tables), old(pages), old(owner), d, sz, old(dirs),
                                    free, tables, pages, owner)
      {
        sz := Resize(d, sz, sizes[i], old(free), old(tables), old(pages), old(owner), old(dirs));
        i := i + 1;
      }
      ghost var o1 := owner;
      Freevm(d);
      Restored(d, old(free), old(owner), o1, free, owner);
      return true;
    }

    // One `growproc`: a refused growth leaves the size as it was.
    method Resize(d: nat, oldsz: nat, newsz: nat, ghost f0: seq<nat>, ghost t0: Tables, ghost p0: Pages,
                  ghost o0: Owners, ghost dirs0: set<nat>) returns (sz: nat)
      requires Valid() && dirs == dirs0 + {d} && d !in dirs0 && oldsz <= USERTOP
      requires Living(f0, t0, p0, o0, d, oldsz, dirs0, free, tables, pages, owner)
      modifies this`free, this`tables, this`pages, this`owner
      ensures Valid() && sz <= USERTOP
      ensures sz == newsz || sz == oldsz
      ensures Living(f0, t0, p0, o0, d, sz, dirs0, free, tables, pages, owner)
    {
      ghost var f1, t1, p1, o1 := free, tables, pages, owner;
      if newsz >= oldsz {
        var ok, r := Allocuvm(d, oldsz, newsz);
        sz := if ok then r else oldsz;
        LivingGrown(f0, t0, p0, o0, d, oldsz, newsz, sz, dirs0, ok, f1, t1, p1, o1, free, tables, pages, owner);
      } else {
        sz := Deallocuvm(d, oldsz, newsz);
        LivingShrunk(f0, t0, p0, o0, d, oldsz, newsz, dirs0, f1, t1, pages, o1, free, tables, owner);
      }
    }

    // One turn of the loops of `mprotect` and `munprotect`.
    method SetWritable(d: nat, v: nat, w: bool) returns (found: bool)
      requires Valid() && d in dirs && HasTable(tables, d, 0) && v < USERPAGES
      modifies this`free, this`tables, this`owner
      ensures Valid() && found && free == old(free) && owner == old(owner)
      ensures Protected(old(tables), d, v, v + 1, w, tables)
      ensures forall e | e in dirs && e != d :: SameSpace(old(tables), tables, e)
    {
      var t := Walk(d, v, false);
      if t == 0 {
        assert false;
        return false;
      }
      var e := tables[t][v].(w := w);
      SetEntry(free, tables, pages, dirs, owner, d, 0, v, e);
      tables := tables[t := tables[t][v := e]];
      return true;
    }

    /** `mprotect`: the pages of the range lose their writable bit. */
    method Mprotect(d: nat, addr: nat, len: int) returns (r: int)
      requires Valid() && d in dirs && HasTable(tables, d, 0) && addr < WORD
      modifies this`free, this`tables, this`owner
      ensures Valid() && free == old(free) && owner == old(owner)
      ensures r == if Refused(addr, len) then -1 else 0
      ensures r == 0 ==> Protected(old(tables), d, addr / PGSIZE, RangeEnd(addr, len) / PGSIZE, false, tables)
      ensures r == -1 || RangeEnd(addr, len) <= addr ==> tables == old(tables)
      ensures forall e | e in dirs && e != d :: SameSpace(old(tables), tables, e)
    {
      KeptNone(free, tables, pages, dirs, owner, d);
      if addr % PGSIZE != 0 || RangeEnd(addr, len) > USERTOP || len <= 0 {
        return -1;
      }
      Aligned(addr, len);
      ghost var first, last := addr / PGSIZE, RangeEnd(addr, len) / PGSIZE;
      var i, end := addr, RangeEnd(addr, len);
      ghost var v := first;
      while i < end
        invariant Valid() && HasTable(tables, d, 0) && free == old(free) && owner == old(owner)
        invariant i == v * PGSIZE && first <= v && (v <= last || v == first)
        invariant v == first ==> tables == old(tables)
        invariant Protected(old(tables), d, first, v, false, tables)
        invariant forall e | e in dirs && e != d :: SameSpace(old(tables), tables, e)
      {
        PagesAfter(v, 0);
        var found := SetWritable(d, i / PGSIZE, false);
        if !found {
          return -1;
        }
        i, v := i + PGSIZE, v + 1;
      }
      return 0;
    }

    /** `sys_mprotect`, in a process of `sz` bytes.  Up to 2^31 bytes it answers 0 exactly when the address is
        the process's and page aligned and the range is not empty and below the top, and then exactly the
        pages of the range lose their writable bit.  From there on the size of the range does not fit its
        type; the range is then the one left modulo 2^32. */
    method SysMprotect(d: nat, sz: nat, addr: nat, len: int) returns (r: int)
      requires Valid() && d in dirs && HasTable(tables, d, 0) && sz <= USERTOP && addr < WORD
      modifies this`free, this`tables, this`owner
      ensures Valid() && free == old(free) && owner == old(owner)
      ensures r == if addr + 4 <= sz && !Refused(addr, len) then 0 else -1
      ensures len < TOOLONG ==>
        (r == 0 <==> addr + 4 <= sz && addr % PGSIZE == 0 && len > 0 && addr + len * PGSIZE <= USERTOP)
      ensures r == 0 && len < TOOLONG ==>
        Protected(old(tables), d, addr / PGSIZE, addr / PGSIZE + len, false, tables)
      ensures r == 0 && len < TOOLONG ==> HasTable(tables, d, 0) && forall v: nat | v < USERPAGES ::
        UserPte(tables, d, v) ==
          if addr / PGSIZE <= v < addr / PGSIZE + len then UserPte(old(tables), d, v).(w := false)
          else UserPte(old(tables), d, v)
      ensures r == 0 ==> (RangeEnd(addr, len) == addr + len * PGSIZE <==> len < TOOLONG)
      ensures r == 0 ==> Protected(old(tables), d, addr / PGSIZE, RangeEnd(addr, len) / PGSIZE, false, tables)
      ensures r == -1 || RangeEnd(addr, len) <= addr ==> tables == old(tables)
      ensures forall e | e in dirs && e != d :: SameSpace(old(tables), tables, e)
    {
      KeptNone(free, tables, pages, dirs, owner, d);
      if addr >= sz || (addr + 4) % WORD > sz {
        return -1;
      }
      WholeRange(addr, len);
      r := Mprotect(d, addr, len);
    }

    /** Such a call: a range of 2^32 bytes is accepted, and every page stays as it is. */
    method ProtectNothing(d: nat, sz: nat, addr: nat) returns (r: int)
      requires Valid() && d in dirs && HasTable(tables, d, 0) && addr + 4 <= sz <= USERTOP && addr % PGSIZE == 0
      modifies this`free, this`tables, this`owner
      ensures Valid() && r == 0 && tables == old(tables) && free == old(free) && owner == old(owner)
    {
      assert RangeEnd(addr, 0x10_0000) == addr;
      r := SysMprotect(d, sz, addr, 0x10_0000);
    }

    /** `munprotect`: the same, and the pages become writable. */
    method Munprotect(d: nat, addr: nat, len: int) returns (r: int)
      requires Valid() && d in dirs && HasTable(tables, d, 0) && addr < WORD
      modifies this`free, this`tables, this`owner
      ensures Valid() && free == old(free) && owner == old(owner)
      ensures r == if Refused(addr, len) then -1 else 0
      ensures r == 0 ==> Protected(old(tables), d, addr / PGSIZE, RangeEnd(addr, len) / PGSIZE, true, tables)
      ensures r == -1 || RangeEnd(addr, len) <= addr ==> tables == old(tables)
      ensures forall e | e in dirs && e != d :: SameSpace(old(tables), tables, e)
    {
      KeptNone(free, tables, pages, dirs, owner, d);
      if addr % PGSIZE != 0 || RangeEnd(addr, len) > USERTOP || len <= 0 {
        return -1;
      }
      Aligned(addr, len);
      ghost var first, last := addr / PGSIZE, RangeEnd(addr, len) / PGSIZE;
      var i, end := addr, RangeEnd(addr, len);
      ghost var v := first;
      while i < end
        invariant Valid() && HasTable(tables, d, 0) && free == old(free) && owner == old(owner)
        invariant i == v * PGSIZE && first <= v && (v <= last || v == first)
        invariant v == first ==> tables == old(tables)
        invariant Protected(old(tables), d, first, v, true, tables)
        invariant forall e | e in dirs && e != d :: SameSpace(old(tables), tables, e)
      {
        PagesAfter(v, 0);
        var found := SetWritable(d, i / PGSIZE, true);
        if !found {
          return -1;
        }
        i, v := i + PGSIZE, v + 1;
      }
      return 0;
    }

    /** `sys_munprotect`, in the same way. */
    method SysMunprotect(d: nat, sz: nat, addr: nat, len: int) returns (r: int)
      requires Valid() && d in dirs && HasTable(tables, d, 0) && sz <= USERTOP && addr < WORD
      modifies this`free, this`tables, this`owner
      ensures Valid() && free == old(free) && owner == old(owner)
      ensures r == if addr + 4 <= sz && !Refused(addr, len) then 0 else -1
      ensures len < TOOLONG ==>
        (r == 0 <==> addr + 4 <= sz && addr % PGSIZE == 0 && len > 0 && addr + len * PGSIZE <= USERTOP)
      ensures r == 0 && len < TOOLONG ==>
        Protected(old(tables), d, addr / PGSIZE, addr / PGSIZE + len, true, tables)
      ensures r == 0 && len < TOOLONG ==> HasTable(tables, d, 0) && forall v: nat | v < USERPAGES ::
        UserPte(tables, d, v) ==
          if addr / PGSIZE <= v < addr / PGSIZE + len then UserPte(old(tables), d, v).(w := true)
          else UserPte(old(tables), d, v)
      ensures r == 0 ==> (RangeEnd(addr, len) == addr + len * PGSIZE <==> len < TOOLONG)
      ensures r == 0 ==> Protected(old(tables), d, addr / PGSIZE, RangeEnd(addr, len) / PGSIZE, true, tables)
      ensures r == -1 || RangeEnd(addr, len) <= addr ==> tables == old(tables)
      ensures forall e | e in dirs && e != d :: SameSpace(old(tables), tables, e)
    {
      KeptNone(free, tables, pages, dirs, owner, d);
      if addr >= sz || (addr + 4) % WORD > sz {
        return -1;
      }
      WholeRange(addr, len);
      r := Munprotect(d, addr, len);
    }
  }

  // The end of a range of `len` pages, as far as 32 bits hold it.
  function RangeEnd(addr: nat, len: int): nat { (addr + len * PGSIZE) % WORD }

  // The calls that return -1.
  predicate Refused(addr: nat, len: int) {
    addr % PGSIZE != 0 || len <= 0 || RangeEnd(addr, len) > USERTOP
  }

  const TOOLONG: nat := 0x8_0000       // pages that are 2^31 bytes

  // Below that length a range that is not refused is the one asked for, and from there on none is.
  lemma WholeRange(addr: nat, len: int)
    requires addr <= USERTOP
    ensures len < TOOLONG ==>
      (Refused(addr, len) <==> addr % PGSIZE != 0 || len <= 0 || addr + len * PGSIZE > USERTOP)
    ensures !Refused(addr, len) ==> (RangeEnd(addr, len) == addr + len * PGSIZE <==> len < TOOLONG)
    ensures !Refused(addr, len) && len < TOOLONG ==> RangeEnd(addr, len) / PGSIZE == addr / PGSIZE + len
  {
    if !Refused(addr, len) && len < TOOLONG {
      PagesAfter(addr / PGSIZE, len);
    }
  }

  lemma Aligned(addr: nat, len: int)
    requires addr % PGSIZE == 0
    ensures addr == addr / PGSIZE * PGSIZE && RangeEnd(addr, len) == RangeEnd(addr, len) / PGSIZE * PGSIZE
  {
  }

  lemma PagesAfter(v: nat, n: int)
    ensures (v * PGSIZE + n * PGSIZE) / PGSIZE == v + n
  {
  }

  // Entries lo..hi-1 of table 0 have their writable bit set to `w`; nothing else has changed.
  ghost predicate Protected(tables: Tables, d: nat, lo: nat, hi: nat, w: bool, tables': Tables) {
    && HasTable(tables, d, 0) && HasTable(tables', d, 0) && tables'[d] == tables[d]
    && forall v: nat | v < ENTRIES :: tables'[TableOf(tables', d, 0)][v] ==
         var e := tables[TableOf(tables, d, 0)][v];
         if lo <= v < hi then e.(w := w) else e
  }

  // A space of `sz` bytes that began when `f0`, `t0`, `p0` and `o0` were the state: only it has taken frames,
  // and no page is mapped above its size.
  ghost predicate Living(f0: seq<nat>, t0: Tables, p0: Pages, o0: Owners, d: nat, sz: nat, dirs0: set<nat>,
                         free: seq<nat>, tables: Tables, pages: Pages, owner: Owners)
  {
    && NoUse(d, o0) && OnlyFor(d, o0, owner) && Conserved(f0, o0, free, owner)
    && HasTable(tables, d, 0) && NoneAbove(tables, d, sz)
    && (forall e | e in dirs0 :: SameSpace(t0, tables, e)) && BytesKept(p0, o0, pages)
  }

  ghost predicate NoneAbove(tables: Tables, d: nat, sz: nat) {
    forall v: nat | PagesFor(sz) <= v < USERPAGES :: !Mapped(tables, d, v)
  }

  lemma NoneMapped(tables: Tables, d: nat, data: nat)
    requires KernelSpace(tables, d, data, 4) && HasTable(tables, d, 0) && 256 < data
    ensures NoneAbove(tables, d, 0)
  {
    forall v: nat | v < USERPAGES ensures !Mapped(tables, d, v) {
      assert EntryAt(tables, d, v) == KernelPte(data, 4, v);
    }
  }

  lemma LivingGrown(f0: seq<nat>, t0: Tables, p0: Pages, o0: Owners, d: nat, oldsz: nat, newsz: nat, sz: nat,
                    dirs0: set<nat>, ok: bool, f1: seq<nat>, t1: Tables, p1: Pages, o1: Owners,
                    f2: seq<nat>, t2: Tables, p2: Pages, o2: Owners)
    requires Living(f0, t0, p0, o0, d, oldsz, dirs0, f1, t1, p1, o1) && d !in dirs0 && oldsz <= newsz
    requires Kept(f1, t1, p1, dirs0, o1, d, f2, t2, p2, o2) && HasTable(t2, d, 0)
    requires ok ==> sz == newsz && Extended(t1, o1, d, PagesFor(oldsz), PagesFor(newsz), t2, p2, o2)
    requires !ok ==> sz == oldsz && forall v: nat | v < USERPAGES :: Mapped(t2, d, v) <==> Mapped(t1, d, v)
    ensures Living(f0, t0, p0, o0, d, sz, dirs0, f2, t2, p2, o2)
  {
    OnlyForTwice(d, o0, o1, o2);
    forall v: nat | PagesFor(sz) <= v < USERPAGES ensures !Mapped(t2, d, v) {
      assert !Mapped(t1, d, v);
      assert ok ==> UserPte(t2, d, v) == UserPte(t1, d, v);
    }
  }

  lemma LivingShrunk(f0: seq<nat>, t0: Tables, p0: Pages, o0: Owners, d: nat, oldsz: nat, newsz: nat,
                     dirs0: set<nat>, f1: seq<nat>, t1: Tables, p1: Pages, o1: Owners,
                     f2: seq<nat>, t2: Tables, o2: Owners)
    requires Living(f0, t0, p0, o0, d, oldsz, dirs0, f1, t1, p1, o1) && newsz < oldsz
    requires Conserved(f1, o1, f2, o2) && OnlyFor(d, o1, o2) && HasTable(t2, d, 0)
    requires forall e | e in dirs0 :: SameSpace(t1, t2, e)
    requires Unmapped(t1, o1, d, PagesFor(newsz), PagesFor(oldsz), t2, o2)
    ensures Living(f0, t0, p0, o0, d, newsz, dirs0, f2, t2, p1, o2)
  {
    OnlyForTwice(d, o0, o1, o2);
    forall v: nat | PagesFor(newsz) <= v < USERPAGES ensures !Mapped(t2, d, v) {
      if v >= PagesFor(oldsz) {
        assert !Mapped(t1, d, v) && UserPte(t2, d, v) == UserPte(t1, d, v);
      }
    }
  }

  lemma NoUseOf(free: seq<nat>, tables: Tables, pages: Pages, dirs: set<nat>, owner: Owners, d: nat)
    requires Inv(free, tables, pages, dirs, owner) && d !in dirs && d !in owner
    ensures NoUse(d, owner)
  {
    forall f | f in owner ensures !UsesFrame(d, f, owner[f]) {
      assert UseOk(tables, dirs, owner, f);
    }
  }

  // What only `d` has used is all given back.
  lemma Restored(d: nat, f0: seq<nat>, o0: Owners, o1: Owners, free: seq<nat>, owner: Owners)
    requires FreeOk(f0, o0) && FreeOk(free, owner) && NoUse(d, o0) && Conserved(f0, o0, free, owner)
    requires OnlyFor(d, o0, o1) && Without(o1, d, owner)
    ensures owner == o0 && FreeSet(free) == FreeSet(f0)
  {
    assert owner == o0;
    FreeDetermined(f0, free, o0);
  }

  lemma NewFrames(d: nat, n: nat, o0: Owners, free: seq<nat>, tables: Tables, pages: Pages, dirs: set<nat>,
                  owner: Owners)
    requires Inv(free, tables, pages, dirs, owner) && d in dirs && n <= USERPAGES
    requires NoUse(d, o0) && OnlyFor(d, o0, owner)
    ensures forall v: nat | v < n && Mapped(tables, d, v) :: UserPte(tables, d, v).frame !in o0
  {
    forall v: nat | v < n && Mapped(tables, d, v) ensures UserPte(tables, d, v).frame !in o0 {
      assert PageOk(tables, pages, owner, d, v);
    }
  }

  // Page `v` of `d` has the bytes and the writable bit that page `v` of `p` had.
  ghost predicate Copied(t0: Tables, p0: Pages, p: nat, tables: Tables, pages: Pages, d: nat, v: nat) {
    Mapped(t0, p, v) && Mapped(tables, d, v) &&
    var from, to := UserPte(t0, p, v), UserPte(tables, d, v);
    to.w == from.w && to.u && from.frame in p0 && to.frame in pages && pages[to.frame] == p0[from.frame]
  }

  // `copyuvm` has come to page `i`.
  ghost predicate Copying(f0: seq<nat>, t0: Tables, p0: Pages, dirs0: set<nat>, o0: Owners, p: nat, d: nat, data: nat,
                          i: nat, free: seq<nat>, tables: Tables, pages: Pages, owner: Owners)
  {
    && Conserved(f0, o0, free, owner) && OnlyFor(d, o0, owner) && NoUse(d, o0)
    && (forall e | e in dirs0 :: SameSpace(t0, tables, e)) && BytesKept(p0, o0, pages)
    && (forall v: nat | v < i && v < USERPAGES :: Copied(t0, p0, p, tables, pages, d, v))
    && (forall v: nat | i <= v < VPAGES :: EntryAt(tables, d, v) == KernelPte(data, 4, v))
  }

  // Nothing is used by `d`.
  ghost predicate NoUse(d: nat, owner: Owners) {
    forall f | f in owner :: !UsesFrame(d, f, owner[f])
  }

  lemma CopyingMore(f0: seq<nat>, t0: Tables, p0: Pages, dirs0: set<nat>, o0: Owners, p: nat, d: nat, data: nat, i: nat,
                    dirs: set<nat>, w: bool, f: nat, bytes: seq<int>,
                    f1: seq<nat>, t1: Tables, p1: Pages, o1: Owners, f2: seq<nat>, t2: Tables, p2: Pages, o2: Owners)
    requires Copying(f0, t0, p0, dirs0, o0, p, d, data, i, f1, t1, p1, o1)
    requires Inv(f1, t1, p1, dirs, o1) && d in dirs && dirs0 <= dirs && d !in dirs0
    requires i < USERPAGES && Mapped(t0, p, i) && UserPte(t0, p, i).w == w
    requires UserPte(t0, p, i).frame in p0 && p0[UserPte(t0, p, i).frame] == bytes
    requires PageAdded(f1, t1, p1, o1, d, i, w, f, bytes, f2, t2, p2, o2)
    requires forall e | e in dirs && e != d :: SameSpace(t1, t2, e)
    ensures Copying(f0, t0, p0, dirs0, o0, p, d, data, i + 1, f2, t2, p2, o2)
  {
    assert f1 == [f] + f2;
    EntryWritten(t1, p1, dirs, o1, f1, d, i, Pte(true, w, true, f));
    PagesOwned(f1, t1, p1, dirs, o1, d);
    assert EntryOk(t1, o1, d, 0);
    forall v: nat | v < i + 1 && v < USERPAGES ensures Copied(t0, p0, p, t2, p2, d, v) {
      if v < i {
        assert Copied(t0, p0, p, t1, p1, d, v) && UserPte(t2, d, v) == UserPte(t1, d, v);
      }
    }
  }

  // Entries 0..i-1 of directory `d` are cleared in `view`.
  ghost predicate Cleared(tables: Tables, d: nat, i: nat, view: Tables) {
    && Table(tables, d) && Table(view, d)
    && (forall f | f != d :: (f in view <==> f in tables) && (f in view ==> tables[f] == view[f]))
    && (forall j: nat | j < i && j < ENTRIES :: !view[d][j].p)
    && (forall j: nat | i <= j < ENTRIES :: view[d][j] == tables[d][j])
  }

  // The owners without the frames that `d` uses.
  ghost predicate Without(owner: Owners, d: nat, owner': Owners) {
    forall f :: (f in owner' <==> f in owner && !UsesFrame(d, f, owner[f]))
      && (f in owner' ==> owner'[f] == owner[f])
  }

  // With every table freed the directory itself can go.
  lemma DirFreed(f0: seq<nat>, t0: Tables, o0: Owners, d: nat,
                 free: seq<nat>, tables: Tables, view: Tables, pages: Pages, dirs: set<nat>, owner: Owners)
    requires Inv(free, view, pages, dirs, owner) && d in dirs
    requires Cleared(tables, d, ENTRIES, view) && Kept(f0, t0, pages, dirs, o0, d, free, view, pages, owner)
    requires forall f | f in owner :: !(owner[f].User? && owner[f].d == d)
    ensures Inv([d] + free, tables, pages, dirs - {d}, owner - {d})
    ensures Without(o0, d, owner - {d}) && Conserved(f0, o0, [d] + free, owner - {d})
    ensures forall e | e in dirs - {d} :: SameSpace(t0, tables, e)
  {
    forall i: nat | i < ENTRIES ensures !HasTable(view, d, i) {}
    forall f | f in owner ensures !(owner[f].Tab? && owner[f].d == d) {
      assert UseOk(view, dirs, owner, f);
    }
    assert OwnedAs(owner, d, Dir);
    DropDir(free, view, pages, dirs, owner, d);
    ForgetDir([d] + free, tables, view, pages, dirs - {d}, owner - {d}, d);
  }

  lemma NoUsers(free: seq<nat>, tables: Tables, pages: Pages, dirs: set<nat>, owner: Owners, d: nat)
    requires Inv(free, tables, pages, dirs, owner) && forall v: nat | v < USERPAGES :: !Mapped(tables, d, v)
    ensures forall f | f in owner :: !(owner[f].User? && owner[f].d == d)
  {
    forall f | f in owner ensures !(owner[f].User? && owner[f].d == d) {
      assert UseOk(tables, dirs, owner, f);
    }
  }

  lemma PagesOwned(free: seq<nat>, tables: Tables, pages: Pages, dirs: set<nat>, owner: Owners, d: nat)
    requires Inv(free, tables, pages, dirs, owner) && d in dirs && HasTable(tables, d, 0)
    ensures forall v: nat | v < USERPAGES && Mapped(tables, d, v) :: UserPte(tables, d, v).frame in owner
    ensures forall f | f in owner && owner[f].User? && owner[f].d == d :: Mapped(tables, d, owner[f].v)
  {
    forall v: nat | v < USERPAGES && Mapped(tables, d, v) ensures UserPte(tables, d, v).frame in owner {
      assert PageOk(tables, pages, owner, d, v);
    }
    forall f | f in owner && owner[f].User? && owner[f].d == d ensures Mapped(tables, d, owner[f].v) {
      assert UseOk(tables, dirs, owner, f);
    }
  }

  lemma NoUser(free: seq<nat>, tables: Tables, pages: Pages, dirs: set<nat>, owner: Owners, d: nat, v: nat)
    requires Inv(free, tables, pages, dirs, owner) && !Mapped(tables, d, v)
    ensures forall f | f in owner :: owner[f] != User(d, v)
  {
    forall f | f in owner ensures owner[f] != User(d, v) {
      assert UseOk(tables, dirs, owner, f);
    }
  }

  lemma OnlyUser(free: seq<nat>, tables: Tables, pages: Pages, dirs: set<nat>, owner: Owners, d: nat, v: nat)
    requires Inv(free, tables, pages, dirs, owner) && d in dirs && Mapped(tables, d, v)
    ensures forall f | f in owner :: owner[f] == User(d, v) <==> f == UserPte(tables, d, v).frame
  {
    assert PageOk(tables, pages, owner, d, v);
    forall f | f in owner ensures owner[f] == User(d, v) <==> f == UserPte(tables, d, v).frame {
      assert UseOk(tables, dirs, owner, f);
    }
  }
}
