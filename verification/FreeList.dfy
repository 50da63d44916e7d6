/** The abstract side of the allocator: an address-ordered list of free blocks in
    which no two blocks touch.  Its first block is the empty sentinel `base`. */
module FreeList {

  datatype Block = Block(addr: nat, size: nat) {
    function End(): nat { addr + size }
    predicate Has(u: nat) { addr <= u < End() }
  }

  // Ascending addresses with a gap of at least one unit between any two blocks.
  ghost predicate Ordered(f: seq<Block>) {
    forall i, j | 0 <= i < j < |f| :: f[i].End() < f[j].addr
  }

  ghost predicate WellFormed(f: seq<Block>, base: nat) {
    && |f| > 0
    && f[0] == Block(base, 0)
    && (forall i | 1 <= i < |f| :: f[i].size > 0)
    && Ordered(f)
  }

  ghost predicate Covers(f: seq<Block>, u: nat) {
    exists i | 0 <= i < |f| :: f[i].Has(u)
  }

  ghost predicate SameUnits(f: seq<Block>, g: seq<Block>) {
    forall u: nat :: Covers(f, u) <==> Covers(g, u)
  }

  // `g` holds the units of `f` and those of `b`, and nothing else.
  ghost predicate Adds(f: seq<Block>, b: Block, g: seq<Block>) {
    forall u: nat :: Covers(g, u) <==> Covers(f, u) || b.Has(u)
  }

  // `g` holds the units of `f` that are not in `b`.
  ghost predicate Removes(f: seq<Block>, b: Block, g: seq<Block>) {
    forall u: nat :: Covers(g, u) <==> Covers(f, u) && !b.Has(u)
  }

  /** A well-formed list is determined by the set of units it covers: the order in which
      blocks were freed leaves no trace in it. */
  lemma Canonical(f: seq<Block>, g: seq<Block>, base: nat)
    requires WellFormed(f, base) && WellFormed(g, base)
    requires SameUnits(f, g)
    ensures f == g
  {
    CanonicalFrom(f, g, base, 1);
  }

  lemma {:induction false} CanonicalFrom(f: seq<Block>, g: seq<Block>, base: nat, i: nat)
    requires WellFormed(f, base) && WellFormed(g, base)
    requires SameUnits(f, g)
    requires 1 <= i <= |f| && i <= |g| && f[..i] == g[..i]
    ensures f == g
    decreases |f| - i
  {
    if i == |f| || i == |g| {
      NoLonger(f, g, base, i);
      NoLonger(g, f, base, i);
    } else {
      NotBelow(f, g, base, i);
      NotBelow(g, f, base, i);
      assert f[..i+1] == f[..i] + [f[i]];
      assert g[..i+1] == g[..i] + [g[i]];
      CanonicalFrom(f, g, base, i + 1);
    }
  }

  // A list that agrees with `f` up to the end of `f` stops there too.
  lemma NoLonger(f: seq<Block>, g: seq<Block>, base: nat, i: nat)
    requires WellFormed(f, base) && WellFormed(g, base)
    requires SameUnits(f, g)
    requires 1 <= i <= |f| && i <= |g| && f[..i] == g[..i]
    ensures i == |f| ==> i == |g|
  {
    if i == |f| && i < |g| {
      var u := g[i].addr;
      assert g[i].Has(u);
      assert Covers(g, u);
      var j :| 0 <= j < |f| && f[j].Has(u);
      SamePrefix(f, g, i, j);
      assert false;
    }
  }

  lemma SamePrefix(f: seq<Block>, g: seq<Block>, i: nat, j: nat)
    requires j < i <= |f| && i <= |g| && f[..i] == g[..i]
    ensures f[j] == g[j]
  {
    assert f[..i][j] == g[..i][j];
  }

  // Block `i` of `g` neither starts below nor ends before block `i` of `f`.
  lemma NotBelow(f: seq<Block>, g: seq<Block>, base: nat, i: nat)
    requires WellFormed(f, base) && WellFormed(g, base)
    requires SameUnits(f, g)
    requires 1 <= i < |f| && i < |g| && f[..i] == g[..i]
    ensures f[i].addr <= g[i].addr
    ensures f[i].addr == g[i].addr ==> g[i].End() <= f[i].End()
  {
    var u := if g[i].addr < f[i].addr then g[i].addr else f[i].End();
    if g[i].addr < f[i].addr || (f[i].addr == g[i].addr && f[i].End() < g[i].End()) {
      assert g[i].Has(u);
      assert Covers(g, u);
      var j :| 0 <= j < |f| && f[j].Has(u);
      if j < i {
        SamePrefix(f, g, i, j);
      }
      assert false;
    }
  }

  // ----- lists in pieces

  lemma CoversConcat(x: seq<Block>, y: seq<Block>, u: nat)
    ensures Covers(x + y, u) <==> Covers(x, u) || Covers(y, u)
  {
    if Covers(x + y, u) {
      var i :| 0 <= i < |x + y| && (x + y)[i].Has(u);
      assert if i < |x| then x[i].Has(u) else y[i - |x|].Has(u);
    }
    if Covers(x, u) {
      var i :| 0 <= i < |x| && x[i].Has(u);
      assert (x + y)[i].Has(u);
    }
    if Covers(y, u) {
      var i :| 0 <= i < |y| && y[i].Has(u);
      assert (x + y)[|x| + i].Has(u);
    }
  }

  lemma CoversOne(b: Block, u: nat)
    ensures Covers([b], u) <==> b.Has(u)
  {
    assert [b][0] == b;
  }

  // The list with blocks lo..hi replaced by `mid`.
  ghost function Replace(f: seq<Block>, lo: nat, hi: nat, mid: seq<Block>): seq<Block>
    requires lo <= hi <= |f|
  {
    f[..lo] + mid + f[hi..]
  }

  lemma ReplaceKeepsOrder(f: seq<Block>, base: nat, lo: nat, hi: nat, mid: seq<Block>)
    requires WellFormed(f, base) && 1 <= lo <= hi <= |f|
    requires mid == [] || (|mid| == 1 && mid[0].size > 0)
    requires mid != [] ==> f[lo - 1].End() < mid[0].addr
    requires mid != [] && hi < |f| ==> mid[0].End() < f[hi].addr
    ensures WellFormed(Replace(f, lo, hi, mid), base)
  {
    var g := Replace(f, lo, hi, mid);
    forall i | 0 <= i < |g| ensures g[i] == ReplacedAt(f, lo, hi, mid, i) {}
    forall i, j | 0 <= i < j < |g| ensures g[i].End() < g[j].addr {
      ReplacedOrder(f, base, lo, hi, mid, i, j);
    }
  }

  // Block `i` of the new list.
  ghost function ReplacedAt(f: seq<Block>, lo: nat, hi: nat, mid: seq<Block>, i: nat): Block
    requires lo <= hi <= |f| && i < lo + |mid| + |f| - hi
  {
    if i < lo then f[i] else if i < lo + |mid| then mid[i - lo] else f[hi + i - lo - |mid|]
  }

  lemma ReplacedOrder(f: seq<Block>, base: nat, lo: nat, hi: nat, mid: seq<Block>, i: nat, j: nat)
    requires WellFormed(f, base) && 1 <= lo <= hi <= |f| && |mid| <= 1
    requires mid != [] ==> f[lo - 1].End() < mid[0].addr
    requires mid != [] && hi < |f| ==> mid[0].End() < f[hi].addr
    requires i < j < lo + |mid| + |f| - hi
    ensures ReplacedAt(f, lo, hi, mid, i).End() < ReplacedAt(f, lo, hi, mid, j).addr
  {
    if i < lo && j >= lo {
      assert i < lo - 1 ==> f[i].End() < f[lo - 1].addr;
    }
    if j >= lo + |mid| {
      var k := hi + j - lo - |mid|;
      assert hi < k ==> f[hi].addr <= f[hi].End() < f[k].addr;
    }
  }

  lemma ReplaceUnits(f: seq<Block>, lo: nat, hi: nat, mid: seq<Block>, u: nat)
    requires lo <= hi <= |f|
    ensures Covers(f, u) <==> Covers(f[..lo], u) || Covers(f[lo..hi], u) || Covers(f[hi..], u)
    ensures Covers(Replace(f, lo, hi, mid), u)
       <==> Covers(f[..lo], u) || Covers(mid, u) || Covers(f[hi..], u)
  {
    CoversConcat(f[..lo], mid, u);
    CoversConcat(f[..lo] + mid, f[hi..], u);
    CoversConcat(f[..lo], f[lo..hi], u);
    CoversConcat(f[..lo] + f[lo..hi], f[hi..], u);
    assert f[..lo] + f[lo..hi] + f[hi..] == f;
  }

  // ----- inserting a block: coalescing on both sides

  // `a` belongs between block `k` and its successor.
  ghost predicate IsSlot(f: seq<Block>, a: nat, k: nat) {
    && k < |f|
    && f[k].addr < a
    && (k + 1 < |f| ==> a < f[k + 1].addr)
  }

  // `b` shares no unit with any block of the list.
  ghost predicate Apart(f: seq<Block>, b: Block) {
    forall i | 0 <= i < |f| :: f[i].End() <= b.addr || b.End() <= f[i].addr
  }

  lemma SlotExists(f: seq<Block>, base: nat, a: nat) returns (k: nat)
    requires WellFormed(f, base) && base < a
    requires forall i | 0 <= i < |f| :: f[i].addr != a
    ensures IsSlot(f, a, k)
  {
    k := 0;
    while k + 1 < |f| && f[k + 1].addr < a
      invariant k < |f| && f[k].addr < a
    {
      k := k + 1;
    }
  }

  ghost predicate JoinsRight(f: seq<Block>, k: nat, b: Block) {
    k + 1 < |f| && b.End() == f[k + 1].addr
  }

  ghost predicate JoinsLeft(f: seq<Block>, k: nat, b: Block) {
    k < |f| && f[k].End() == b.addr
  }

  ghost function Merged(f: seq<Block>, k: nat, b: Block): Block
    requires k < |f|
  {
    Block(if JoinsLeft(f, k, b) then f[k].addr else b.addr,
          b.size + (if JoinsLeft(f, k, b) then f[k].size else 0)
                 + (if JoinsRight(f, k, b) then f[k + 1].size else 0))
  }

  ghost function Coalesce(f: seq<Block>, k: nat, b: Block): seq<Block>
    requires k < |f|
  {
    Replace(f, if JoinsLeft(f, k, b) then k else k + 1,
               if JoinsRight(f, k, b) then k + 2 else k + 1, [Merged(f, k, b)])
  }

  lemma CoalesceKeepsOrder(f: seq<Block>, base: nat, k: nat, b: Block)
    requires WellFormed(f, base) && IsSlot(f, b.addr, k) && Apart(f, b) && b.size > 0
    requires base < b.addr
    requires b.addr != base && (JoinsLeft(f, k, b) ==> k > 0)
    ensures WellFormed(Coalesce(f, k, b), base)
  {
    assert f[k].End() <= b.addr;
    assert k + 1 < |f| ==> b.End() <= f[k + 1].addr;
    ReplaceKeepsOrder(f, base, if JoinsLeft(f, k, b) then k else k + 1,
                      if JoinsRight(f, k, b) then k + 2 else k + 1, [Merged(f, k, b)]);
  }

  lemma CoalesceUnits(f: seq<Block>, base: nat, k: nat, b: Block)
    requires WellFormed(f, base) && IsSlot(f, b.addr, k) && Apart(f, b) && b.size > 0
    ensures Adds(f, b, Coalesce(f, k, b))
  {
    var lo := if JoinsLeft(f, k, b) then k else k + 1;
    var hi := if JoinsRight(f, k, b) then k + 2 else k + 1;
    var m := Merged(f, k, b);
    forall u: nat ensures Covers(Coalesce(f, k, b), u) <==> Covers(f, u) || b.Has(u) {
      ReplaceUnits(f, lo, hi, [m], u);
      CoversOne(m, u);
      MergedUnits(f, k, b, u);
    }
  }

  lemma MergedUnits(f: seq<Block>, k: nat, b: Block, u: nat)
    requires k < |f|
    ensures var lo := if JoinsLeft(f, k, b) then k else k + 1;
            var hi := if JoinsRight(f, k, b) then k + 2 else k + 1;
            Merged(f, k, b).Has(u) <==> Covers(f[lo..hi], u) || b.Has(u)
  {
    var left := if JoinsLeft(f, k, b) then [f[k]] else [];
    var right := if JoinsRight(f, k, b) then [f[k + 1]] else [];
    var lo := if JoinsLeft(f, k, b) then k else k + 1;
    var hi := if JoinsRight(f, k, b) then k + 2 else k + 1;
    assert f[lo..hi] == left + right;
    CoversConcat(left, right, u);
    CoversOne(f[k], u);
    if k + 1 < |f| {
      CoversOne(f[k + 1], u);
    }
  }

  lemma ApartConcat(x: seq<Block>, y: seq<Block>, c: Block)
    ensures Apart(x + y, c) <==> Apart(x, c) && Apart(y, c)
  {
    if Apart(x + y, c) {
      assert forall i | 0 <= i < |x| :: x[i] == (x + y)[i];
      assert forall i | 0 <= i < |y| :: y[i] == (x + y)[|x| + i];
    }
  }

  lemma ReplaceApart(f: seq<Block>, lo: nat, hi: nat, mid: seq<Block>, c: Block)
    requires lo <= hi <= |f| && Apart(f, c) && Apart(mid, c)
    ensures Apart(Replace(f, lo, hi, mid), c)
  {
    ApartConcat(f[..lo], mid, c);
    ApartConcat(f[..lo] + mid, f[hi..], c);
  }

  // A block apart from the list and from `b` stays apart when `b` is merged in.
  lemma CoalesceApart(f: seq<Block>, k: nat, b: Block, c: Block)
    requires k < |f| && Apart(f, c) && c.size > 0
    requires b.End() <= c.addr || c.End() <= b.addr
    ensures Apart(Coalesce(f, k, b), c)
  {
    ReplaceApart(f, if JoinsLeft(f, k, b) then k else k + 1,
                 if JoinsRight(f, k, b) then k + 2 else k + 1, [Merged(f, k, b)], c);
  }

  // ----- taking the tail of a block

  // The list without the last `n` units of block `k`.
  ghost function Carve(f: seq<Block>, k: nat, n: nat): seq<Block>
    requires k < |f| && n <= f[k].size
  {
    Replace(f, k, k + 1, if f[k].size == n then [] else [Block(f[k].addr, f[k].size - n)])
  }

  function Tail(b: Block, n: nat): Block
    requires n <= b.size
  {
    Block(b.End() - n, n)
  }

  lemma CarveKeepsOrder(f: seq<Block>, base: nat, k: nat, n: nat)
    requires WellFormed(f, base) && 1 <= k < |f| && 0 < n <= f[k].size
    ensures WellFormed(Carve(f, k, n), base)
  {
    ReplaceKeepsOrder(f, base, k, k + 1,
                      if f[k].size == n then [] else [Block(f[k].addr, f[k].size - n)]);
  }

  // A unit of one block lies in no other.
  lemma OnlyIn(f: seq<Block>, k: nat, u: nat)
    requires Ordered(f) && k < |f| && f[k].Has(u)
    ensures !Covers(f[..k], u) && !Covers(f[k + 1..], u)
  {
  }

  lemma CarveApart(f: seq<Block>, base: nat, k: nat, n: nat, c: Block)
    requires WellFormed(f, base) && 1 <= k < |f| && 0 < n <= f[k].size && Apart(f, c)
    ensures Apart(Carve(f, k, n), c)
    ensures c.size > 0 ==> c.End() <= Tail(f[k], n).addr || Tail(f[k], n).End() <= c.addr
  {
    var mid := if f[k].size == n then [] else [Block(f[k].addr, f[k].size - n)];
    ReplaceApart(f, k, k + 1, mid, c);
  }

  lemma TailApart(f: seq<Block>, base: nat, k: nat, n: nat)
    requires WellFormed(f, base) && 1 <= k < |f| && 0 < n <= f[k].size
    ensures Apart(Carve(f, k, n), Tail(f[k], n))
  {
    var mid := if f[k].size == n then [] else [Block(f[k].addr, f[k].size - n)];
    ApartConcat(f[..k], mid, Tail(f[k], n));
    ApartConcat(f[..k] + mid, f[k + 1..], Tail(f[k], n));
  }

  lemma CarveUnits(f: seq<Block>, base: nat, k: nat, n: nat)
    requires WellFormed(f, base) && 1 <= k < |f| && 0 < n <= f[k].size
    ensures Removes(f, Tail(f[k], n), Carve(f, k, n))
    ensures forall u: nat :: Tail(f[k], n).Has(u) ==> Covers(f, u)
  {
    var mid := if f[k].size == n then [] else [Block(f[k].addr, f[k].size - n)];
    var t := Tail(f[k], n);
    forall u: nat
      ensures Covers(Carve(f, k, n), u) <==> Covers(f, u) && !t.Has(u)
      ensures t.Has(u) ==> Covers(f, u)
    {
      ReplaceUnits(f, k, k + 1, mid, u);
      assert f[k..k + 1] == [f[k]];
      CoversOne(f[k], u);
      if mid != [] {
        CoversOne(mid[0], u);
      }
      if f[k].Has(u) {
        OnlyIn(f, k, u);
      }
    }
  }

  /** Freeing what was just taken restores the very same list, whatever the two-sided merge
      does on the way. */
  lemma FreeUndoesTake(f: seq<Block>, b: Block, mid: seq<Block>, g: seq<Block>, base: nat)
    requires WellFormed(f, base) && WellFormed(g, base)
    requires Removes(f, b, mid) && Adds(mid, b, g)
    requires forall u: nat :: b.Has(u) ==> Covers(f, u)
    ensures g == f
  {
    forall u: nat ensures Covers(f, u) <==> Covers(g, u) {
      assert Covers(mid, u) <==> Covers(f, u) && !b.Has(u);
    }
    Canonical(f, g, base);
  }

  /** Two frees commute: the list does not depend on their order. */
  lemma FreesCommute(f: seq<Block>, b: Block, c: Block, fb: seq<Block>, fc: seq<Block>,
                     fbc: seq<Block>, fcb: seq<Block>, base: nat)
    requires WellFormed(fbc, base) && WellFormed(fcb, base)
    requires Adds(f, b, fb) && Adds(fb, c, fbc)
    requires Adds(f, c, fc) && Adds(fc, b, fcb)
    ensures fbc == fcb
  {
    forall u: nat ensures Covers(fbc, u) <==> Covers(fcb, u) {
      assert Covers(fb, u) <==> Covers(f, u) || b.Has(u);
      assert Covers(fc, u) <==> Covers(f, u) || c.Has(u);
    }
    Canonical(fbc, fcb, base);
  }

  /** However its neighbours were merged, an added block lies within a single block. */
  lemma AddedFits(f: seq<Block>, b: Block, g: seq<Block>, base: nat)
    requires WellFormed(g, base) && Adds(f, b, g) && b.size > 0
    ensures exists k :: 0 <= k < |g| && g[k].addr <= b.addr && b.End() <= g[k].End()
  {
    assert b.Has(b.addr);
    assert Covers(g, b.addr);
    var k :| 0 <= k < |g| && g[k].Has(b.addr);
    if g[k].End() < b.End() {
      assert b.Has(g[k].End());
      assert false;
    }
  }

  // ----- counting units

  function TotalSize(f: seq<Block>): nat {
    if f == [] then 0 else TotalSize(f[..|f| - 1]) + f[|f| - 1].size
  }

  // The number of units a list holds is the number of units it covers.
  lemma {:induction false} TotalSizeCounts(f: seq<Block>, units: set<nat>)
    requires Ordered(f)
    requires forall u: nat :: u in units <==> Covers(f, u)
    ensures |units| == TotalSize(f)
  {
    if f == [] {
      assert units == {};
    } else {
      var k := |f| - 1;
      var last := Units(f[k]);
      var rest := units - last;
      forall u: nat
        ensures u in rest <==> Covers(f[..k], u)
        ensures u in last ==> u in units
      {
        LastBlock(f, u);
      }
      assert Ordered(f[..k]);
      TotalSizeCounts(f[..k], rest);
      UnitsSize(f[k]);
      assert units == rest + last && rest * last == {};
    }
  }

  lemma LastBlock(f: seq<Block>, u: nat)
    requires Ordered(f) && f != []
    ensures Covers(f, u) <==> Covers(f[..|f| - 1], u) || f[|f| - 1].Has(u)
    ensures !(Covers(f[..|f| - 1], u) && f[|f| - 1].Has(u))
  {
    var k := |f| - 1;
    assert f == f[..k] + [f[k]];
    CoversConcat(f[..k], [f[k]], u);
    CoversOne(f[k], u);
    if f[k].Has(u) {
      OnlyIn(f, k, u);
    }
  }

  ghost function Units(b: Block): (s: set<nat>)
    ensures forall u: nat :: u in s <==> b.Has(u)
    decreases b.size
  {
    if b.size == 0 then {} else Units(Block(b.addr + 1, b.size - 1)) + {b.addr}
  }

  lemma {:induction false} UnitsSize(b: Block)
    ensures |Units(b)| == b.size
    decreases b.size
  {
    if b.size > 0 {
      var rest := Block(b.addr + 1, b.size - 1);
      UnitsSize(rest);
      assert b.addr !in Units(rest) && Units(b) == Units(rest) + {b.addr};
    }
  }
}
