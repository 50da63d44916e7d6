/** Page directories, page tables and the frames behind them: who uses which frame, and what one
    change of an entry does to that. */
module VmState {

  const ENTRIES: nat := 1024
  const USERPAGES: nat := 160           // USERTOP / PGSIZE; all of them are in table 0

  // An entry of a directory or of a table: PTE_P, PTE_W, PTE_U and the frame number.
  datatype Pte = Pte(p: bool, w: bool, u: bool, frame: nat)

  function Absent(): Pte { Pte(false, false, false, 0) }

  function ZeroTable(): seq<Pte> { seq(ENTRIES, _ => Absent()) }

  // What a frame is used for.  `Other` are kernel stacks, pipes and the like.
  datatype Use = Dir | Tab(d: nat, i: nat) | User(d: nat, v: nat) | Other

  type Tables = map<nat, seq<Pte>>
  type Pages = map<nat, seq<int>>
  type Owners = map<nat, Use>

  ghost predicate Table(tables: Tables, t: nat) {
    t in tables && |tables[t]| == ENTRIES
  }

  ghost predicate HasTable(tables: Tables, d: nat, i: nat) {
    Table(tables, d) && i < ENTRIES && tables[d][i].p && Table(tables, tables[d][i].frame)
  }

  ghost function TableOf(tables: Tables, d: nat, i: nat): nat
    requires HasTable(tables, d, i)
  {
    tables[d][i].frame
  }

  // The entry of user page `v`.
  ghost function UserPte(tables: Tables, d: nat, v: nat): Pte
    requires HasTable(tables, d, 0) && v < USERPAGES
  {
    tables[TableOf(tables, d, 0)][v]
  }

  ghost predicate Mapped(tables: Tables, d: nat, v: nat) {
    HasTable(tables, d, 0) && v < USERPAGES && UserPte(tables, d, v).p
  }

  ghost predicate EntryOk(tables: Tables, owner: Owners, d: nat, i: nat) {
    Table(tables, d) && i < ENTRIES &&
    (tables[d][i].p ==> HasTable(tables, d, i) && OwnedAs(owner, TableOf(tables, d, i), Tab(d, i)))
  }

  ghost predicate PageOk(tables: Tables, pages: Pages, owner: Owners, d: nat, v: nat) {
    Mapped(tables, d, v) ==>
      var f := UserPte(tables, d, v).frame;
      f in pages && OwnedAs(owner, f, User(d, v))
  }

  ghost predicate OwnedAs(owner: Owners, f: nat, u: Use) {
    f in owner && owner[f] == u
  }

  ghost predicate UseOk(tables: Tables, dirs: set<nat>, owner: Owners, f: nat)
    requires f in owner
  {
    match owner[f]
    case Dir => f in dirs
    case Tab(d, i) => d in dirs && HasTable(tables, d, i) && TableOf(tables, d, i) == f
    case User(d, v) => d in dirs && Mapped(tables, d, v) && UserPte(tables, d, v).frame == f
    case Other => true
  }

  ghost predicate FreeOk(free: seq<nat>, owner: Owners) {
    && (forall i, j | 0 <= i < j < |free| :: free[i] != free[j])
    && (forall f | f in free :: f != 0 && f !in owner)
  }

  ghost predicate Inv(free: seq<nat>, tables: Tables, pages: Pages, dirs: set<nat>, owner: Owners) {
    && FreeOk(free, owner)
    && (forall d | d in dirs :: OwnedAs(owner, d, Dir))
    && (forall d, i: nat | d in dirs && i < ENTRIES :: EntryOk(tables, owner, d, i))
    && (forall d, v: nat | d in dirs && v < USERPAGES :: PageOk(tables, pages, owner, d, v))
    && (forall f | f in owner :: UseOk(tables, dirs, owner, f))
    && 0 !in owner
  }

  // Directory `e` looks the same in both.
  ghost predicate SameSpace(tables: Tables, tables': Tables, e: nat) {
    && Table(tables, e) && Table(tables', e) && tables'[e] == tables[e]
    && forall i: nat | HasTable(tables, e, i) :: HasTable(tables', e, i)
         && tables'[TableOf(tables, e, i)] == tables[TableOf(tables, e, i)]
  }

  // ----- one step each

  ghost function FreeSet(free: seq<nat>): set<nat> { set f | f in free }

  /** A free frame becomes an empty directory. */
  lemma AddDir(free: seq<nat>, tables: Tables, pages: Pages, dirs: set<nat>, owner: Owners)
    requires Inv(free, tables, pages, dirs, owner) && free != []
    ensures var d := free[0];
            d !in dirs &&
            Inv(free[1..], tables[d := ZeroTable()], pages, dirs + {d}, owner[d := Dir]) &&
            forall e | e in dirs :: SameSpace(tables, tables[d := ZeroTable()], e)
  {
    var d, tables', dirs', owner' := free[0], tables[free[0] := ZeroTable()], dirs + {free[0]}, owner[free[0] := Dir];
    assert d in free;
    TakeFree(free, owner, Dir);
    forall e | e in dirs ensures e != d { assert OwnedAs(owner, e, Dir); }
    forall e, i: nat | e in dirs' && i < ENTRIES ensures EntryOk(tables', owner', e, i) {
      assert e in dirs ==> EntryOk(tables, owner, e, i) && EntryOk(tables, owner, e, 0);
    }
    forall e | e in dirs ensures SameSpace(tables, tables', e) {
      assert EntryOk(tables, owner, e, 0) && e != d;
      forall i: nat | HasTable(tables, e, i) ensures TableOf(tables, e, i) != d { assert EntryOk(tables, owner, e, i); }
    }
    forall e, v: nat | e in dirs' && v < USERPAGES ensures PageOk(tables', pages, owner', e, v) {
      assert e in dirs ==> EntryOk(tables, owner, e, 0) && PageOk(tables, pages, owner, e, v);
    }
    forall f | f in owner' ensures UseOk(tables', dirs', owner', f) {
      assert f in owner ==> UseOk(tables, dirs, owner, f);
      if f in owner && (owner[f].Tab? || owner[f].User?) {
        assert EntryOk(tables, owner, owner[f].d, 0);
        assert owner[f].Tab? ==> EntryOk(tables, owner, owner[f].d, owner[f].i);
      }
    }
  }

  lemma TakeFree(free: seq<nat>, owner: Owners, u: Use)
    requires FreeOk(free, owner) && free != []
    ensures FreeOk(free[1..], owner[free[0] := u]) && free[0] != 0 && free[0] !in owner
    ensures FreeSet(free[1..]) == FreeSet(free) - {free[0]}
  {
    assert free == [free[0]] + free[1..];
    assert free[0] in free;
    forall f | f in free[1..] ensures f != free[0] {
      var j :| 0 <= j < |free[1..]| && free[1..][j] == f;
      assert free[j + 1] == f;
    }
    forall f ensures f in free <==> f == free[0] || f in free[1..] {}
  }

  lemma GiveFree(free: seq<nat>, owner: Owners, f: nat)
    requires FreeOk(free, owner) && f in owner && f != 0
    ensures FreeOk([f] + free, owner - {f})
    ensures FreeSet([f] + free) == FreeSet(free) + {f}
  {
  }

  /** A free frame becomes table `i` of directory `d`. */
  lemma AddTable(free: seq<nat>, tables: Tables, pages: Pages, dirs: set<nat>, owner: Owners, d: nat, i: nat)
    requires Inv(free, tables, pages, dirs, owner) && free != [] && d in dirs && i < ENTRIES
    requires EntryOk(tables, owner, d, i) && !tables[d][i].p
    ensures var f := free[0];
            var tables' := tables[f := ZeroTable()][d := tables[d][i := Pte(true, true, true, f)]];
            && f != d
            && Inv(free[1..], tables', pages, dirs, owner[f := Tab(d, i)])
            && (forall e | e in dirs && e != d :: SameSpace(tables, tables', e))
  {
    var f := free[0];
    var tables' := tables[f := ZeroTable()][d := tables[d][i := Pte(true, true, true, f)]];
    var owner' := owner[f := Tab(d, i)];
    TakeFree(free, owner, Tab(d, i));
    assert OwnedAs(owner, d, Dir);
    forall e, j: nat | e in dirs && HasTable(tables, e, j)
      ensures TableOf(tables, e, j) != f && TableOf(tables, e, j) != d && e != f
    {
      assert EntryOk(tables, owner, e, j) && OwnedAs(owner, e, Dir);
    }
    forall e, j: nat | e in dirs && j < ENTRIES ensures EntryOk(tables', owner', e, j) {
      assert EntryOk(tables, owner, e, j) && OwnedAs(owner, e, Dir);
    }
    forall e, v: nat | e in dirs && v < USERPAGES ensures PageOk(tables', pages, owner', e, v) {
      assert EntryOk(tables, owner, e, 0) && PageOk(tables, pages, owner, e, v) && OwnedAs(owner, e, Dir);
    }
    forall g | g in owner' ensures UseOk(tables', dirs, owner', g) {
      assert g in owner ==> UseOk(tables, dirs, owner, g);
      if g in owner && (owner[g].Tab? || owner[g].User?) {
        assert OwnedAs(owner, owner[g].d, Dir);
      }
    }
    forall e | e in dirs && e != d ensures SameSpace(tables, tables', e) {
      assert EntryOk(tables, owner, e, 0) && OwnedAs(owner, e, Dir);
    }
  }

  /** Entry `x` of table `i` of `d` changes; a user page neither appears nor goes away. */
  lemma SetEntry(free: seq<nat>, tables: Tables, pages: Pages, dirs: set<nat>, owner: Owners,
                 d: nat, i: nat, x: nat, pte: Pte)
    requires Inv(free, tables, pages, dirs, owner) && d in dirs && x < ENTRIES && HasTable(tables, d, i)
    requires i == 0 && x < USERPAGES ==>
      pte.p == UserPte(tables, d, x).p && pte.frame == UserPte(tables, d, x).frame
    ensures var t := TableOf(tables, d, i);
            var tables' := tables[t := tables[t][x := pte]];
            && t != d && Inv(free, tables', pages, dirs, owner)
            && (forall e | e in dirs && e != d :: SameSpace(tables, tables', e))
  {
    var t := TableOf(tables, d, i);
    var tables' := tables[t := tables[t][x := pte]];
    assert EntryOk(tables, owner, d, i);
    forall e, j: nat | e in dirs && HasTable(tables, e, j)
      ensures e != t && HasTable(tables', e, j) && TableOf(tables', e, j) == TableOf(tables, e, j)
      ensures TableOf(tables, e, j) == t ==> e == d && j == i
    {
      assert EntryOk(tables, owner, e, j) && OwnedAs(owner, e, Dir);
    }
    forall e, j: nat | e in dirs && j < ENTRIES ensures EntryOk(tables', owner, e, j) {
      assert EntryOk(tables, owner, e, j) && OwnedAs(owner, e, Dir);
    }
    forall e, v: nat | e in dirs && v < USERPAGES ensures PageOk(tables', pages, owner, e, v) {
      assert EntryOk(tables, owner, e, 0) && PageOk(tables, pages, owner, e, v) && OwnedAs(owner, e, Dir);
    }
    forall g | g in owner ensures UseOk(tables', dirs, owner, g) {
      assert UseOk(tables, dirs, owner, g);
    }
    forall e | e in dirs && e != d ensures SameSpace(tables, tables', e) {
      assert EntryOk(tables, owner, e, 0) && OwnedAs(owner, e, Dir);
    }
  }

  /** A free frame is taken in hand. */
  lemma TakeInHand(free: seq<nat>, tables: Tables, pages: Pages, dirs: set<nat>, owner: Owners, bytes: seq<int>)
    requires Inv(free, tables, pages, dirs, owner) && free != []
    ensures Inv(free[1..], tables, pages[free[0] := bytes], dirs, owner[free[0] := Other])
    ensures free[0] !in owner && free[0] != 0
  {
    var f, pages', owner' := free[0], pages[free[0] := bytes], owner[free[0] := Other];
    TakeFree(free, owner, Other);
    forall e, j: nat | e in dirs && j < ENTRIES ensures EntryOk(tables, owner', e, j) {
      assert EntryOk(tables, owner, e, j);
    }
    forall e, x: nat | e in dirs && x < USERPAGES ensures PageOk(tables, pages', owner', e, x) {
      assert PageOk(tables, pages, owner, e, x);
    }
    forall g | g in owner' ensures UseOk(tables, dirs, owner', g) {
      assert g in owner ==> UseOk(tables, dirs, owner, g);
    }
    forall e | e in dirs ensures OwnedAs(owner', e, Dir) { assert OwnedAs(owner, e, Dir); }
  }

  /** A frame in hand becomes user page `v` of `d`. */
  lemma AddPage(free: seq<nat>, tables: Tables, pages: Pages, dirs: set<nat>, owner: Owners,
                d: nat, v: nat, w: bool, f: nat)
    requires Inv(free, tables, pages, dirs, owner) && d in dirs && v < USERPAGES
    requires OwnedAs(owner, f, Other) && f in pages
    requires HasTable(tables, d, 0) && !UserPte(tables, d, v).p
    ensures var t := TableOf(tables, d, 0);
            var tables' := tables[t := tables[t][v := Pte(true, w, true, f)]];
            && t != d && HasTable(tables', d, 0) && Inv(free, tables', pages, dirs, owner[f := User(d, v)])
            && (forall e | e in dirs && e != d :: SameSpace(tables, tables', e))
  {
    var t := TableOf(tables, d, 0);
    var tables' := tables[t := tables[t][v := Pte(true, w, true, f)]];
    var owner' := owner[f := User(d, v)];
    assert EntryOk(tables, owner, d, 0);
    forall e, j: nat | e in dirs && HasTable(tables, e, j)
      ensures e != t && HasTable(tables', e, j) && TableOf(tables', e, j) == TableOf(tables, e, j)
      ensures TableOf(tables, e, j) == t ==> e == d && j == 0
    {
      assert EntryOk(tables, owner, e, j) && OwnedAs(owner, e, Dir);
    }
    forall e, j: nat | e in dirs && j < ENTRIES ensures EntryOk(tables', owner', e, j) {
      assert EntryOk(tables, owner, e, j) && OwnedAs(owner, e, Dir);
    }
    forall e, x: nat | e in dirs && x < USERPAGES ensures PageOk(tables', pages, owner', e, x) {
      assert EntryOk(tables, owner, e, 0) && PageOk(tables, pages, owner, e, x) && OwnedAs(owner, e, Dir);
    }
    forall g | g in owner' ensures UseOk(tables', dirs, owner', g) {
      assert UseOk(tables, dirs, owner, g);
    }
    forall e | e in dirs ensures OwnedAs(owner', e, Dir) { assert OwnedAs(owner, e, Dir); }
    forall e | e in dirs && e != d ensures SameSpace(tables, tables', e) {
      assert EntryOk(tables, owner, e, 0) && OwnedAs(owner, e, Dir);
    }
  }

  /** User page `v` of `d` is unmapped and its frame freed. */
  lemma DropPage(free: seq<nat>, tables: Tables, pages: Pages, dirs: set<nat>, owner: Owners, d: nat, v: nat)
    requires Inv(free, tables, pages, dirs, owner) && d in dirs && Mapped(tables, d, v)
    ensures var t := TableOf(tables, d, 0);
            var f := UserPte(tables, d, v).frame;
            var tables' := tables[t := tables[t][v := Absent()]];
            && OwnedAs(owner, f, User(d, v)) && f != 0
            && t != d && Inv([f] + free, tables', pages, dirs, owner - {f})
            && (forall e | e in dirs && e != d :: SameSpace(tables, tables', e))
  {
    var t, f := TableOf(tables, d, 0), UserPte(tables, d, v).frame;
    var tables', owner' := tables[t := tables[t][v := Absent()]], owner - {f};
    assert EntryOk(tables, owner, d, 0) && PageOk(tables, pages, owner, d, v);
    GiveFree(free, owner, f);
    forall e, j: nat | e in dirs && HasTable(tables, e, j)
      ensures e != t && HasTable(tables', e, j) && TableOf(tables', e, j) == TableOf(tables, e, j)
      ensures TableOf(tables, e, j) == t ==> e == d && j == 0
    {
      assert EntryOk(tables, owner, e, j) && OwnedAs(owner, e, Dir);
    }
    forall e, j: nat | e in dirs && j < ENTRIES ensures EntryOk(tables', owner', e, j) {
      assert EntryOk(tables, owner, e, j) && OwnedAs(owner, e, Dir);
    }
    forall e, x: nat | e in dirs && x < USERPAGES ensures PageOk(tables', pages, owner', e, x) {
      assert EntryOk(tables, owner, e, 0) && PageOk(tables, pages, owner, e, x) && OwnedAs(owner, e, Dir);
    }
    forall g | g in owner' ensures UseOk(tables', dirs, owner', g) {
      assert UseOk(tables, dirs, owner, g);
    }
    forall e | e in dirs ensures OwnedAs(owner', e, Dir) { assert OwnedAs(owner, e, Dir); }
    forall e | e in dirs && e != d ensures SameSpace(tables, tables', e) {
      assert EntryOk(tables, owner, e, 0) && OwnedAs(owner, e, Dir);
    }
  }

  /** Table `i` of `d` is freed; table 0 only when no user page is left. */
  lemma DropTable(free: seq<nat>, tables: Tables, pages: Pages, dirs: set<nat>, owner: Owners, d: nat, i: nat)
    requires Inv(free, tables, pages, dirs, owner) && d in dirs && HasTable(tables, d, i)
    requires i == 0 ==> forall v: nat | v < USERPAGES :: !Mapped(tables, d, v)
    ensures var f := TableOf(tables, d, i);
            var tables' := tables[d := tables[d][i := Absent()]];
            && OwnedAs(owner, f, Tab(d, i)) && f != 0
            && Inv([f] + free, tables', pages, dirs, owner - {f})
            && (forall e | e in dirs && e != d :: SameSpace(tables, tables', e))
  {
    var f := TableOf(tables, d, i);
    var tables', owner' := tables[d := tables[d][i := Absent()]], owner - {f};
    assert EntryOk(tables, owner, d, i);
    GiveFree(free, owner, f);
    forall e, j: nat | e in dirs && HasTable(tables, e, j) ensures TableOf(tables, e, j) != d {
      assert EntryOk(tables, owner, e, j) && OwnedAs(owner, d, Dir);
    }
    forall e, j: nat | e in dirs && j < ENTRIES ensures EntryOk(tables', owner', e, j) {
      assert EntryOk(tables, owner, e, j) && OwnedAs(owner, e, Dir);
    }
    forall e, x: nat | e in dirs && x < USERPAGES ensures PageOk(tables', pages, owner', e, x) {
      assert EntryOk(tables, owner, e, 0) && PageOk(tables, pages, owner, e, x) && OwnedAs(owner, e, Dir);
    }
    forall g | g in owner' ensures UseOk(tables', dirs, owner', g) {
      assert UseOk(tables, dirs, owner, g);
    }
    forall e | e in dirs ensures OwnedAs(owner', e, Dir) { assert OwnedAs(owner, e, Dir); }
    forall e | e in dirs && e != d ensures SameSpace(tables, tables', e) {
      assert EntryOk(tables, owner, e, 0) && OwnedAs(owner, e, Dir);
    }
  }

  /** An empty directory is freed. */
  lemma DropDir(free: seq<nat>, tables: Tables, pages: Pages, dirs: set<nat>, owner: Owners, d: nat)
    requires Inv(free, tables, pages, dirs, owner) && d in dirs
    requires forall i: nat | i < ENTRIES :: !HasTable(tables, d, i)
    ensures d != 0 && Inv([d] + free, tables, pages, dirs - {d}, owner - {d})
  {
    assert OwnedAs(owner, d, Dir);
    GiveFree(free, owner, d);
    var dirs', owner' := dirs - {d}, owner - {d};
    forall e, j: nat | e in dirs' && j < ENTRIES ensures EntryOk(tables, owner', e, j) {
      assert EntryOk(tables, owner, e, j);
    }
    forall e, x: nat | e in dirs' && x < USERPAGES ensures PageOk(tables, pages, owner', e, x) {
      assert EntryOk(tables, owner, e, 0) && PageOk(tables, pages, owner, e, x);
    }
    forall g | g in owner' ensures UseOk(tables, dirs', owner', g) {
      assert UseOk(tables, dirs, owner, g);
    }
    forall e | e in dirs' ensures OwnedAs(owner', e, Dir) { assert OwnedAs(owner, e, Dir); }
  }
}
