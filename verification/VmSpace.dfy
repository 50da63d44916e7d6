/** What a whole directory maps, and which tables it has taken to map it. */
module VmSpace {
  import opened VmState

  const VPAGES: nat := 0x10_0000       // pages of a 32-bit address space
  const PHYSPAGES: nat := 4096         // PHYSTOP / PGSIZE
  const DEVPAGE: nat := 0xF_E000       // 0xFE000000 / PGSIZE

  // The entry of virtual page `v`, in whatever table holds it.
  ghost function EntryAt(tables: Tables, d: nat, v: nat): Pte {
    if HasTable(tables, d, v / ENTRIES) then tables[TableOf(tables, d, v / ENTRIES)][v % ENTRIES] else Absent()
  }

  /** The entry of a user page is the one in table 0 with the number of the page. */
  lemma UserEntry(tables: Tables, d: nat, v: nat)
    requires HasTable(tables, d, 0) && v < USERPAGES
    ensures UserPte(tables, d, v) == EntryAt(tables, d, v)
  {
  }

  // A range of kernel pages, mapped to the frames of the same numbers.
  datatype Kmap = Kmap(p: nat, e: nat, w: bool)

  // The table `kmap`: `data` is the first page of kernel data.
  function Kmaps(data: nat): seq<Kmap> {
    [Kmap(160, 256, true), Kmap(256, data, false), Kmap(data, PHYSPAGES, true), Kmap(DEVPAGE, VPAGES, true)]
  }

  /** The kernel's map, as its first `k` ranges give it. */
  function KernelPte(data: nat, k: nat, v: nat): Pte {
    if k > 0 && 160 <= v < 256 then Pte(true, true, false, v)
    else if k > 1 && 256 <= v < data then Pte(true, false, false, v)
    else if k > 2 && data <= v < PHYSPAGES then Pte(true, true, false, v)
    else if k > 3 && DEVPAGE <= v < VPAGES then Pte(true, true, false, v)
    else Absent()
  }

  // Pages lo..hi-1 are now mapped to themselves; the rest is as before.
  ghost predicate MappedTo(tables: Tables, d: nat, lo: nat, hi: nat, w: bool, tables': Tables) {
    forall v: nat | v < VPAGES :: EntryAt(tables', d, v) ==
      if lo <= v < hi then Pte(true, w, false, v) else EntryAt(tables, d, v)
  }

  // The tables directory `d` has, by index.
  ghost function TableSet(tables: Tables, d: nat): set<nat> {
    set i: nat | i < ENTRIES && HasTable(tables, d, i)
  }

  // Pages lo..hi-1 need table `i`.
  ghost predicate Needs(lo: nat, hi: nat, i: nat) {
    lo < hi && lo / ENTRIES <= i <= (hi - 1) / ENTRIES
  }

  // `d` has taken the tables that pages lo..hi-1 need, and no others.
  ghost predicate Took(tables: Tables, d: nat, lo: nat, hi: nat, tables': Tables) {
    forall i: nat | i < ENTRIES :: HasTable(tables', d, i) <==> HasTable(tables, d, i) || Needs(lo, hi, i)
  }

  // Not all of them.
  ghost predicate TookLess(tables: Tables, d: nat, lo: nat, hi: nat, tables': Tables) {
    && (forall i: nat | i < ENTRIES :: HasTable(tables', d, i) ==> HasTable(tables, d, i) || Needs(lo, hi, i))
    && exists i: nat :: i < ENTRIES && Needs(lo, hi, i) && !HasTable(tables', d, i)
  }

  lemma TookOne(t0: Tables, d: nat, v: nat, t1: Tables)
    requires forall i: nat | i < ENTRIES :: HasTable(t1, d, i) <==> HasTable(t0, d, i) || i == v / ENTRIES
    ensures Took(t0, d, v, v + 1, t1)
  {
  }

  lemma TookMore(t0: Tables, d: nat, lo: nat, a: nat, t1: Tables, t2: Tables)
    requires lo <= a < VPAGES && Took(t0, d, lo, a, t1) && Took(t1, d, a, a + 1, t2)
    ensures Took(t0, d, lo, a + 1, t2)
  {
    forall i: nat | i < ENTRIES ensures HasTable(t2, d, i) <==> HasTable(t0, d, i) || Needs(lo, a + 1, i) {
      assert HasTable(t2, d, i) <==> HasTable(t1, d, i) || Needs(a, a + 1, i);
      assert Needs(lo, a + 1, i) <==> Needs(lo, a, i) || Needs(a, a + 1, i);
    }
  }

  lemma TookShort(t0: Tables, d: nat, lo: nat, a: nat, hi: nat, t1: Tables)
    requires lo <= a < hi <= VPAGES && Took(t0, d, lo, a, t1) && !HasTable(t1, d, a / ENTRIES)
    ensures TookLess(t0, d, lo, hi, t1)
  {
    assert Needs(lo, hi, a / ENTRIES);
    forall i: nat | i < ENTRIES && HasTable(t1, d, i) ensures HasTable(t0, d, i) || Needs(lo, hi, i) {
      assert Needs(lo, a, i) ==> Needs(lo, hi, i);
    }
  }

  lemma MappedMore(t0: Tables, d: nat, lo: nat, mid: nat, w: bool, t1: Tables, t2: Tables)
    requires MappedTo(t0, d, lo, mid, w, t1) && MappedTo(t1, d, mid, mid + 1, w, t2) && lo <= mid
    ensures MappedTo(t0, d, lo, mid + 1, w, t2)
  {
  }

  // The first free frame became table `i` of `d`.
  ghost predicate TableAdded(free: seq<nat>, tables: Tables, owner: Owners, d: nat, i: nat, t: nat,
                             free': seq<nat>, tables': Tables, owner': Owners)
  {
    && free != [] && t == free[0] && t != 0 && t != d && t !in owner && free' == free[1..]
    && Table(tables, d) && i < ENTRIES
    && tables' == tables[t := ZeroTable()][d := tables[d][i := Pte(true, true, true, t)]]
    && owner' == owner[t := Tab(d, i)]
  }

  // A new table maps nothing.
  lemma TableAddedMaps(free: seq<nat>, tables: Tables, pages: Pages, dirs: set<nat>, owner: Owners, d: nat, i: nat,
                       t: nat, free': seq<nat>, tables': Tables, owner': Owners)
    requires Inv(free, tables, pages, dirs, owner) && d in dirs && !HasTable(tables, d, i)
    requires TableAdded(free, tables, owner, d, i, t, free', tables', owner')
    ensures forall v: nat | v < VPAGES :: EntryAt(tables', d, v) == EntryAt(tables, d, v)
    ensures forall j: nat | j < ENTRIES :: HasTable(tables', d, j) <==> HasTable(tables, d, j) || j == i
    ensures |TableSet(tables', d)| == |TableSet(tables, d)| + 1 && TableOf(tables', d, i) == t
  {
    forall j: nat | j < ENTRIES && j != i
      ensures HasTable(tables', d, j) <==> HasTable(tables, d, j)
      ensures HasTable(tables, d, j) ==>
        TableOf(tables', d, j) == TableOf(tables, d, j) != t && TableOf(tables, d, j) != d
    {
      assert EntryOk(tables, owner, d, j) && OwnedAs(owner, d, Dir);
    }
    assert TableSet(tables', d) == TableSet(tables, d) + {i};
  }

  // One entry of a table is written.
  lemma EntryWritten(tables: Tables, pages: Pages, dirs: set<nat>, owner: Owners, free: seq<nat>, d: nat, v: nat,
                     pte: Pte)
    requires Inv(free, tables, pages, dirs, owner) && d in dirs && v < VPAGES && HasTable(tables, d, v / ENTRIES)
    ensures var t := TableOf(tables, d, v / ENTRIES);
            var tables' := tables[t := tables[t][v % ENTRIES := pte]];
            && (forall x: nat | x < VPAGES :: EntryAt(tables', d, x) == if x == v then pte else EntryAt(tables, d, x))
            && (forall j: nat | j < ENTRIES :: HasTable(tables', d, j) <==> HasTable(tables, d, j))
            && |TableSet(tables', d)| == |TableSet(tables, d)|
  {
    var t := TableOf(tables, d, v / ENTRIES);
    var tables' := tables[t := tables[t][v % ENTRIES := pte]];
    forall j: nat | j < ENTRIES && HasTable(tables, d, j)
      ensures t != d && HasTable(tables', d, j) && TableOf(tables', d, j) == TableOf(tables, d, j)
      ensures TableOf(tables, d, j) == t ==> j == v / ENTRIES
    {
      assert EntryOk(tables, owner, d, j) && EntryOk(tables, owner, d, v / ENTRIES) && OwnedAs(owner, d, Dir);
    }
    forall x: nat | x < VPAGES ensures EntryAt(tables', d, x) == if x == v then pte else EntryAt(tables, d, x) {
      assert x / ENTRIES < ENTRIES;
    }
    assert TableSet(tables', d) == TableSet(tables, d);
  }

  // The first `k` ranges of the kernel need table `i`.
  ghost predicate KernelNeeds(data: nat, k: nat, i: nat) {
    || (k > 0 && Needs(160, 256, i)) || (k > 1 && Needs(256, data, i))
    || (k > 2 && Needs(data, PHYSPAGES, i)) || (k > 3 && Needs(DEVPAGE, VPAGES, i))
  }

  // Twelve tables hold the kernel's map: 0..3 and 1016..1023.
  ghost function KernelTables(): set<nat> { Between(0, 4) + Between(1016, 1024) }

  ghost function Between(lo: nat, hi: nat): set<nat> {
    set i: nat | i < hi && AtLeast(lo, i)
  }

  ghost predicate AtLeast(lo: nat, i: nat) { lo <= i }

  lemma {:induction false} BetweenSize(lo: nat, hi: nat)
    requires lo <= hi
    ensures |Between(lo, hi)| == hi - lo
    decreases hi - lo
  {
    if lo < hi {
      BetweenSize(lo, hi - 1);
      assert Between(lo, hi) == Between(lo, hi - 1) + {hi - 1};
    } else {
      assert Between(lo, hi) == {};
    }
  }

  // A proper subset of the kernel's tables is smaller than twelve.
  lemma FewerTables(s: set<nat>)
    requires s <= KernelTables()
    ensures |s| <= 12 && (|s| == 12 <==> s == KernelTables())
  {
    var rest := KernelTables() - s;
    assert s + rest == KernelTables() && s * rest == {};
    BetweenSize(0, 4);
    BetweenSize(1016, 1024);
    assert Between(0, 4) * Between(1016, 1024) == {};
  }

  /** A directory whose tables are all needed for the kernel has twelve just when none is missing. */
  lemma KernelCount(tables: Tables, d: nat, data: nat)
    requires 256 < data < PHYSPAGES
    requires forall i: nat | i < ENTRIES && HasTable(tables, d, i) :: KernelNeeds(data, 4, i)
    ensures |TableSet(tables, d)| <= 12
    ensures |TableSet(tables, d)| == 12 <==>
      forall i: nat | i < ENTRIES && KernelNeeds(data, 4, i) :: HasTable(tables, d, i)
  {
    forall i: nat | i < ENTRIES ensures i in KernelTables() <==> KernelNeeds(data, 4, i) {}
    FewerTables(TableSet(tables, d));
  }

  /** Directory `d` maps the kernel's first `k` ranges and nothing else. */
  ghost predicate KernelSpace(tables: Tables, d: nat, data: nat, k: nat) {
    && (forall v: nat | v < VPAGES :: EntryAt(tables, d, v) == KernelPte(data, k, v))
    && (forall i: nat | i < ENTRIES :: HasTable(tables, d, i) <==> KernelNeeds(data, k, i))
  }

  // The entry of one page in a space that has its table.
  lemma KernelPage(tables: Tables, d: nat, data: nat, i: nat, j: nat)
    requires KernelSpace(tables, d, data, 4) && 256 < data < PHYSPAGES
    requires i < 1024 && j < 1024 && HasTable(tables, d, i)
    ensures tables[tables[d][i].frame][j] ==
      if 160 <= 1024 * i + j < 4096 || 0xF_E000 <= 1024 * i + j
      then Pte(true, 1024 * i + j < 256 || data <= 1024 * i + j, false, 1024 * i + j)
      else Pte(false, false, false, 0)
  {
    var v := 1024 * i + j;
    assert v / ENTRIES == i && v % ENTRIES == j;
    assert EntryAt(tables, d, v) == KernelPte(data, 4, v);
  }

  /** The kernel's map, entry by entry: I/O space, the kernel's data and the devices are writable,
      its text and read-only data are not; every page is out of reach of the user and lies where
      its number says, and no other page is mapped. */
  lemma KernelEntries(tables: Tables, owner: Owners, d: nat, data: nat)
    requires KernelSpace(tables, d, data, 4) && 256 < data < PHYSPAGES
    requires forall i: nat | i < ENTRIES :: EntryOk(tables, owner, d, i)
    ensures d in tables && |tables[d]| == 1024
    ensures forall i: nat | i < 1024 :: tables[d][i].p <==> i < 4 || 1016 <= i
    ensures forall i: nat | i < 1024 && tables[d][i].p ::
      tables[d][i].frame in tables && |tables[tables[d][i].frame]| == 1024
    ensures forall i: nat, j: nat | i < 1024 && j < 1024 && tables[d][i].p ::
      tables[tables[d][i].frame][j] ==
        if 160 <= 1024 * i + j < 4096 || 0xF_E000 <= 1024 * i + j
        then Pte(true, 1024 * i + j < 256 || data <= 1024 * i + j, false, 1024 * i + j)
        else Pte(false, false, false, 0)
  {
    assert EntryOk(tables, owner, d, 0);
    forall i: nat | i < 1024
      ensures tables[d][i].p <==> i < 4 || 1016 <= i
      ensures tables[d][i].p ==> HasTable(tables, d, i)
    {
      assert EntryOk(tables, owner, d, i);
      assert HasTable(tables, d, i) <==> KernelNeeds(data, 4, i);
    }
    forall i: nat, j: nat | i < 1024 && j < 1024 && tables[d][i].p
      ensures tables[tables[d][i].frame][j] ==
        if 160 <= 1024 * i + j < 4096 || 0xF_E000 <= 1024 * i + j
        then Pte(true, 1024 * i + j < 256 || data <= 1024 * i + j, false, 1024 * i + j)
        else Pte(false, false, false, 0)
    {
      assert EntryOk(tables, owner, d, i);
      KernelPage(tables, d, data, i, j);
    }
  }

  lemma KernelStep(t0: Tables, d: nat, data: nat, k: nat, t1: Tables)
    requires k < 4 && 256 < data < PHYSPAGES && KernelSpace(t0, d, data, k)
    ensures var m := Kmaps(data)[k];
            && (forall v: nat | m.p <= v < m.e :: !EntryAt(t0, d, v).p)
            && (MappedTo(t0, d, m.p, m.e, m.w, t1) && Took(t0, d, m.p, m.e, t1) ==> KernelSpace(t1, d, data, k + 1))
            && (TookLess(t0, d, m.p, m.e, t1) ==> |TableSet(t1, d)| < 12)
  {
    var m := Kmaps(data)[k];
    if TookLess(t0, d, m.p, m.e, t1) {
      forall i: nat | i < ENTRIES && HasTable(t1, d, i) ensures KernelNeeds(data, 4, i) {}
      forall i: nat | i < ENTRIES && Needs(m.p, m.e, i) ensures KernelNeeds(data, 4, i) {}
      KernelCount(t1, d, data);
    }
  }

  /** A directory that is neither in use nor owned does not matter. */
  lemma ForgetDir(free: seq<nat>, tables: Tables, view: Tables, pages: Pages, dirs: set<nat>, owner: Owners, d: nat)
    requires Inv(free, view, pages, dirs, owner) && d !in dirs && d !in owner && d in tables
    requires forall f | f != d :: (f in view <==> f in tables) && (f in view ==> tables[f] == view[f])
    ensures Inv(free, tables, pages, dirs, owner)
    ensures forall e | e in dirs :: SameSpace(view, tables, e)
  {
    forall e, j: nat | e in dirs && j < ENTRIES ensures EntryOk(tables, owner, e, j) {
      assert EntryOk(view, owner, e, j) && OwnedAs(owner, e, Dir);
    }
    forall e, x: nat | e in dirs && x < USERPAGES ensures PageOk(tables, pages, owner, e, x) {
      assert EntryOk(view, owner, e, 0) && PageOk(view, pages, owner, e, x) && OwnedAs(owner, e, Dir);
    }
    forall g | g in owner ensures UseOk(tables, dirs, owner, g) {
      assert UseOk(view, dirs, owner, g);
      assert owner[g].Tab? || owner[g].User? ==> OwnedAs(owner, owner[g].d, Dir) && EntryOk(view, owner, owner[g].d, 0);
    }
    forall e | e in dirs ensures SameSpace(view, tables, e) {
      assert EntryOk(view, owner, e, 0) && OwnedAs(owner, e, Dir);
      forall i: nat | HasTable(view, e, i) ensures TableOf(view, e, i) != d { assert EntryOk(view, owner, e, i); }
    }
  }
}
