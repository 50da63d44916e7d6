/** The user-level allocator: `free`, `morecore` and `malloc` over a circular,
    address-ordered list threaded through the heap itself. */
module Umalloc {
  import opened Common
  import opened FreeList
  import opened Sbrk

  // One unit of memory.  In a block's first unit the two fields are its header; any other
  // unit is user data, and its fields are just bits.
  datatype Header = Header(ptr: nat, size: nat)

  const MIN_UNITS: nat := 4096
  const LIMIT: nat := 0x8000_0000 - 16  // the largest request malloc is good for

  // (nbytes + sizeof(Header) - 1)/sizeof(Header) + 1 in 32-bit arithmetic
  function UnitsFor(nbytes: nat): nat {
    (nbytes + UNIT - 1) % WORD / UNIT + 1
  }

  function GrowBy(nunits: nat): nat {
    if nunits < MIN_UNITS then MIN_UNITS else nunits
  }

  // The units of a block of `n` units at `b` are below the break, and its payload has `nbytes` bytes.
  predicate Serves(brk: nat, b: nat, n: nat, nbytes: nat) {
    b + n <= brk && UNIT * (n - 1) >= nbytes
  }

  /** The rounding wraps exactly above 2^32 - 8, and the size in bytes does in sbrk's argument exactly
      from 2^31 - 15 to there.  Up to where it wraps the units are the fewest whose payload is large
      enough, and sbrk is asked for 4096 units at least. */
  lemma RoundedRequest(nbytes: nat)
    requires nbytes < WORD
    ensures 0 < UnitsFor(nbytes) <= 2 * HALF && GrowBy(UnitsFor(nbytes)) <= 2 * HALF
    ensures nbytes <= LIMIT ==> GrowBy(UnitsFor(nbytes)) < HALF
    ensures UNIT * (UnitsFor(nbytes) - 1) >= nbytes <==> nbytes <= WORD - UNIT
    ensures UnitsFor(nbytes) < HALF <==> nbytes <= LIMIT || nbytes > WORD - UNIT
    ensures nbytes <= WORD - UNIT ==> 8 * (UnitsFor(nbytes) - 1) < nbytes + 8
    ensures nbytes > WORD - UNIT ==> UnitsFor(nbytes) == 1
    ensures GrowBy(UnitsFor(nbytes)) == if UnitsFor(nbytes) < 4096 then 4096 else UnitsFor(nbytes)
  {
    if nbytes > WORD - UNIT {
      assert (nbytes + UNIT - 1) % WORD == nbytes + UNIT - 1 - WORD;
    }
  }

  lemma UnitsInRange(nbytes: nat)
    requires nbytes < WORD
    ensures 0 < UnitsFor(nbytes) <= 2 * HALF && GrowBy(UnitsFor(nbytes)) <= 2 * HALF
    ensures nbytes <= LIMIT ==> GrowBy(UnitsFor(nbytes)) < HALF
  {
    RoundedRequest(nbytes);
  }

  // Blocks passed on the way from the successor of `a` to `b`, going round `n` blocks.
  function Turns(a: nat, b: nat, n: nat): nat
    requires a < n && b < n
  {
    if a < b then b - a - 1 else b + n - a - 1
  }

  // The list the first call works on: the sentinel alone.
  function Started(f: seq<Block>, base: nat): seq<Block> {
    if f == [] then [Block(base, 0)] else f
  }

  // ----- the search of `malloc`

  // Every block passed before reaching block `i` is too small.
  ghost predicate Passed(f: seq<Block>, from: nat, i: nat, n: nat)
    requires from < |f| && i < |f|
  {
    forall x | 0 <= x < |f| && Turns(from, x, |f|) < Turns(from, i, |f|) :: f[x].size < n
  }

  ghost predicate NoneFits(f: seq<Block>, n: nat) {
    forall x | 0 <= x < |f| :: f[x].size < n
  }

  // The first block with `n` units met when walking from the successor of block `from`.
  ghost predicate FirstFit(f: seq<Block>, from: nat, n: nat, k: nat) {
    from < |f| && 1 <= k < |f| && n <= f[k].size && Passed(f, from, k, n)
  }

  // `b` is the tail of the first fit of `f`, and `g` is `f` without it; the roving pointer is
  // left at the block before.
  ghost predicate TakenFrom(f: seq<Block>, from: nat, b: Block, g: seq<Block>, freep: nat) {
    exists k: nat | k < |f| ::
      && FirstFit(f, from, b.size, k)
      && b == Tail(f[k], b.size)
      && freep == f[k - 1].addr
      && Removes(f, b, g)
  }

  // The same after `region` was merged into `f`.
  ghost predicate TakenFromGrown(f: seq<Block>, region: Block, b: Block, g: seq<Block>, freep: nat) {
    exists grown, from :: Adds(f, region, grown) && TakenFrom(grown, from, b, g, freep)
  }

  // Where `malloc` took block `b`: from the list as it was, or from the list with the region granted.
  ghost predicate Placed(f: seq<Block>, from: nat, arena: set<nat>, brk: nat, b: Block, asked: bool, g: seq<Block>,
                         freep: nat, arena': set<nat>)
  {
    if !asked then arena' == arena && TakenFrom(f, from, b, g, freep)
    else
      var region := Block(brk, GrowBy(b.size));
      arena' == arena + Units(region) && TakenFromGrown(f, region, b, g, freep)
  }

  /** One more block passed; having come round to the start, every block has been. */
  lemma PassOne(f: seq<Block>, from: nat, i: nat, n: nat)
    requires from < |f| && i < |f| && Passed(f, from, i, n) && f[i].size < n
    ensures i != from ==>
      && Passed(f, from, Succ(i, |f|), n)
      && Turns(from, Succ(i, |f|), |f|) == Turns(from, i, |f|) + 1
    ensures i == from ==> NoneFits(f, n)
  {
  }

  // The block before `a`'s place is the last one below `a`.
  lemma SlotIsLast(f: seq<Block>, base: nat, a: nat, k: nat)
    requires WellFormed(f, base) && IsSlot(f, a, k)
    ensures forall x | 0 <= x < |f| && f[x].addr < a :: f[x].addr <= f[k].addr
  {
    forall x | k < x < |f| ensures a < f[x].addr {
      assert f[k + 1].addr <= f[x].addr;
    }
  }

  // ----- the list as it is threaded through memory

  ghost predicate LinkedAt(m: seq<Header>, f: seq<Block>, i: nat)
    requires i < |f|
  {
    f[i].addr < |m| && m[f[i].addr] == Header(f[Succ(i, |f|)].addr, f[i].size)
  }

  ghost predicate Linked(m: seq<Header>, f: seq<Block>) {
    forall i | 0 <= i < |f| :: LinkedAt(m, f, i)
  }

  ghost predicate SameAt(m: seq<Header>, m': seq<Header>, a: nat) {
    a < |m| == |m'| && m'[a] == m[a]
  }

  ghost predicate HeaderIs(m: seq<Header>, a: nat, h: Header) {
    a < |m| && m[a] == h
  }

  // The two exits of the search loop of `free`, at block `i`.
  ghost predicate Stops(f: seq<Block>, a: nat, i: nat)
    requires i < |f|
  {
    var p, next := f[i].addr, f[Succ(i, |f|)].addr;
    (a > p && a < next) || (p >= next && (a > p || a < next))
  }

  /** The search stops at the block below the freed address and nowhere else; in particular
      it stops. */
  lemma SearchStopsAtSlot(f: seq<Block>, base: nat, a: nat, k: nat, i: nat)
    requires WellFormed(f, base) && base < a && IsSlot(f, a, k) && i < |f|
    requires forall j | 0 <= j < |f| :: f[j].addr != a
    ensures Stops(f, a, i) <==> i == k
  {
  }

  lemma ReplaceLinked(m: seq<Header>, m': seq<Header>, f: seq<Block>, base: nat,
                      lo: nat, hi: nat, b: Block)
    requires WellFormed(f, base) && Linked(m, f)
    requires 1 <= lo <= hi <= |f| && |m'| == |m|
    requires forall i | 0 <= i < |f| && (i < lo - 1 || hi <= i) :: SameAt(m, m', f[i].addr)
    requires HeaderIs(m', f[lo - 1].addr, Header(b.addr, f[lo - 1].size))
    requires b.addr < |m|
    requires m'[b.addr] == Header(if hi < |f| then f[hi].addr else f[0].addr, b.size)
    ensures Linked(m', Replace(f, lo, hi, [b]))
  {
    var g := Replace(f, lo, hi, [b]);
    forall i | 0 <= i < |g| ensures LinkedAt(m', g, i) {
      if i < lo {
        assert g[i] == f[i] && LinkedAt(m, f, i);
      } else if i > lo {
        var j := i - lo - 1 + hi;
        assert g[i] == f[j] && LinkedAt(m, f, j) && SameAt(m, m', f[j].addr);
      }
    }
  }

  lemma UnlinkLinked(m: seq<Header>, m': seq<Header>, f: seq<Block>, base: nat, k: nat)
    requires WellFormed(f, base) && Linked(m, f)
    requires 1 <= k < |f| && |m'| == |m|
    requires forall i | 0 <= i < |f| && i != k - 1 && i != k :: SameAt(m, m', f[i].addr)
    requires HeaderIs(m', f[k - 1].addr, Header(f[Succ(k, |f|)].addr, f[k - 1].size))
    ensures Linked(m', Replace(f, k, k + 1, []))
  {
    var g := Replace(f, k, k + 1, []);
    forall i | 0 <= i < |g| ensures LinkedAt(m', g, i) {
      var j := if i < k then i else i + 1;
      assert g[i] == f[j] && LinkedAt(m, f, j);
      assert i != k - 1 ==> SameAt(m, m', f[j].addr) && g[Succ(i, |g|)] == f[Succ(j, |f|)];
    }
  }

  /** `free` links a block in: the two writes it does on each side leave `Coalesce` threaded
      through memory. */
  lemma CoalesceLinked(m: seq<Header>, m': seq<Header>, f: seq<Block>, base: nat, k: nat, b: Block)
    requires WellFormed(f, base) && Linked(m, f) && k < |f|
    requires IsSlot(f, b.addr, k) && base < b.addr < |m| == |m'| && b.size > 0
    requires JoinsLeft(f, k, b) ==> k > 0
    requires forall i | 0 <= i < |f| && i != k :: SameAt(m, m', f[i].addr)
    requires var x := Merged(f, k, b);
             var next := f[Succ(k, |f|)].addr;
             var after := if JoinsRight(f, k, b) then f[Succ(k + 1, |f|)].addr else next;
             && HeaderIs(m', x.addr, Header(after, x.size))
             && (!JoinsLeft(f, k, b) ==> HeaderIs(m', f[k].addr, Header(b.addr, f[k].size)))
    ensures Linked(m', Coalesce(f, k, b))
  {
    assert LinkedAt(m, f, k);
    if JoinsRight(f, k, b) {
      assert LinkedAt(m, f, k + 1);
    }
    if JoinsLeft(f, k, b) {
      assert LinkedAt(m, f, k - 1) && SameAt(m, m', f[k - 1].addr);
    }
    ReplaceLinked(m, m', f, base, if JoinsLeft(f, k, b) then k else k + 1,
                  if JoinsRight(f, k, b) then k + 2 else k + 1, Merged(f, k, b));
  }

  // ----- blocks handed out

  ghost predicate LiveHas(live: map<nat, nat>, u: nat) {
    exists b | b in live :: Block(b, live[b]).Has(u)
  }

  ghost predicate LiveAt(m: seq<Header>, f: seq<Block>, base: nat, live: map<nat, nat>, b: nat)
    requires b in live
  {
    && base < b < |m| && 0 < live[b]
    && m[b].size == live[b]
    && Apart(f, Block(b, live[b]))
  }

  ghost predicate LiveSafe(m: seq<Header>, f: seq<Block>, base: nat, live: map<nat, nat>) {
    && (forall b | b in live :: LiveAt(m, f, base, live, b))
    && (forall b, c | b in live && c in live && b < c :: b + live[b] <= c)
  }

  // Every unit from sbrk is in a free block or in a live one, and no other unit is.
  ghost predicate Partition(f: seq<Block>, live: map<nat, nat>, arena: set<nat>) {
    forall u: nat :: u in arena <==> Covers(f, u) || LiveHas(live, u)
  }

  // What the payload and header of every block in `live` survive: `m'` keeps all their units.
  ghost predicate KeepsLive(m: seq<Header>, m': seq<Header>, live: map<nat, nat>) {
    && |m'| == |m|
    && forall u: nat | u < |m| && LiveHas(live, u) :: SameAt(m, m', u)
  }

  // The block at `b`, its header and the header of its list predecessor are not live memory
  // of anyone else.
  lemma FreeKeepsOthers(m: seq<Header>, m': seq<Header>, f: seq<Block>, base: nat, k: nat,
                        live: map<nat, nat>, b: nat)
    requires LiveSafe(m, f, base, live) && b in live && k < |f| && |m'| == |m|
    requires WellFormed(f, base) && (k == 0 || f[k].size > 0)
    requires forall u: nat | u < |m| && u != b && u != f[k].addr :: SameAt(m, m', u)
    ensures KeepsLive(m, m', live - {b})
    ensures LiveSafe(m', Coalesce(f, k, Block(b, live[b])), base, live - {b})
  {
    var rest := live - {b};
    forall c | c in rest ensures rest[c] == live[c] && LiveAt(m, f, base, live, c) {}
    forall u: nat | u < |m| && LiveHas(rest, u) ensures SameAt(m, m', u) {
      var c :| c in rest && Block(c, rest[c]).Has(u);
      LiveBlockHas(m, f, base, live, k, b, c, u);
    }
    forall c | c in rest ensures LiveAt(m', Coalesce(f, k, Block(b, live[b])), base, rest, c) {
      LiveBlockHas(m, f, base, live, k, b, c, c);
      assert SameAt(m, m', c);
      assert LiveAt(m, f, base, live, b);
      CoalesceApart(f, k, Block(b, live[b]), Block(c, live[c]));
    }
  }

  lemma LiveBlockHas(m: seq<Header>, f: seq<Block>, base: nat, live: map<nat, nat>,
                     k: nat, b: nat, c: nat, u: nat)
    requires LiveSafe(m, f, base, live) && b in live && c in live && c != b && k < |f|
    requires WellFormed(f, base)
    requires Block(c, live[c]).Has(u)
    ensures u != b && u != f[k].addr
  {
    assert LiveAt(m, f, base, live, b) && LiveAt(m, f, base, live, c);
    assert f[k].End() <= c || c + live[c] <= f[k].addr;
  }

  lemma FreeKeepsPartition(f: seq<Block>, g: seq<Block>, live: map<nat, nat>, arena: set<nat>, b: nat)
    requires Partition(f, live, arena) && b in live
    requires Adds(f, Block(b, live[b]), g)
    ensures Partition(g, live - {b}, arena)
  {
    var rest := live - {b};
    forall u: nat ensures u in arena <==> Covers(g, u) || LiveHas(rest, u) {
      if LiveHas(live, u) {
        var c :| c in live && Block(c, live[c]).Has(u);
        assert c in rest ==> Block(c, rest[c]).Has(u);
      }
      if LiveHas(rest, u) {
        var c :| c in rest && Block(c, rest[c]).Has(u);
        assert Block(c, live[c]).Has(u);
      }
      assert Block(b, live[b]).Has(u) ==> LiveHas(live, u);
    }
  }

  // A block `t` joins the live ones while the free list becomes `g`.
  lemma LiveGains(m: seq<Header>, m': seq<Header>, f: seq<Block>, g: seq<Block>, base: nat,
                  live: map<nat, nat>, t: Block)
    requires LiveSafe(m, f, base, live) && |m'| == |m|
    requires base < t.addr < |m| && t.size > 0 && m'[t.addr].size == t.size
    requires Apart(g, t) && t.addr !in live
    requires forall c | c in live :: LiveMeets(m, m', g, live, t, c)
    ensures LiveSafe(m', g, base, live[t.addr := t.size])
  {
    var live' := live[t.addr := t.size];
    forall c | c in live' ensures LiveAt(m', g, base, live', c) {
      if c in live {
        assert LiveAt(m, f, base, live, c) && LiveMeets(m, m', g, live, t, c);
      }
    }
    forall b, c | b in live' && c in live' && b < c ensures b + live'[b] <= c {
      assert b in live ==> LiveMeets(m, m', g, live, t, b) && LiveAt(m, f, base, live, b);
      assert c in live ==> LiveMeets(m, m', g, live, t, c) && LiveAt(m, f, base, live, c);
    }
  }

  ghost predicate LiveMeets(m: seq<Header>, m': seq<Header>, g: seq<Block>, live: map<nat, nat>,
                            t: Block, c: nat)
    requires c in live
  {
    && c < |m| == |m'| && m'[c].size == m[c].size
    && Apart(g, Block(c, live[c]))
    && (c + live[c] <= t.addr || t.End() <= c)
  }

  lemma LiveGainsUnits(live: map<nat, nat>, t: Block, u: nat)
    requires t.addr !in live
    ensures LiveHas(live[t.addr := t.size], u) <==> LiveHas(live, u) || t.Has(u)
  {
    var live' := live[t.addr := t.size];
    if LiveHas(live', u) {
      var c :| c in live' && Block(c, live'[c]).Has(u);
      assert c in live && c != t.addr ==> Block(c, live[c]).Has(u);
    }
    if LiveHas(live, u) {
      var c :| c in live && Block(c, live[c]).Has(u);
      assert c in live' && Block(c, live'[c]).Has(u);
    }
    if t.Has(u) {
      assert t.addr in live' && Block(t.addr, live'[t.addr]).Has(u);
    }
  }

  // What can become a block in use: units above the sentinel, none of them in the arena, and the first
  // of them in memory.
  ghost predicate Grantable(base: nat, arena: set<nat>, top: nat, a: nat, n: nat) {
    base < a < top && forall u: nat | Block(a, n).Has(u) :: u !in arena
  }

  lemma GrantApart(f: seq<Block>, base: nat, live: map<nat, nat>, arena: set<nat>, t: Block)
    requires WellFormed(f, base) && base < t.addr && t.size > 0
    requires Partition(f, live, arena)
    requires forall u: nat | t.Has(u) :: u !in arena
    ensures Apart(f, t) && (forall i | 0 <= i < |f| :: f[i].addr != t.addr)
    ensures forall c | c in live && live[c] > 0 :: c != t.addr && (c + live[c] <= t.addr || t.End() <= c)
  {
    forall i | 0 <= i < |f| ensures (f[i].End() <= t.addr || t.End() <= f[i].addr) && f[i].addr != t.addr {
      var u := if f[i].addr < t.addr then t.addr else f[i].addr;
      if f[i].Has(u) && t.Has(u) {
        assert Covers(f, u);
        assert false;
      }
    }
    forall c | c in live && live[c] > 0 ensures c != t.addr && (c + live[c] <= t.addr || t.End() <= c) {
      var u := if c < t.addr then t.addr else c;
      if Block(c, live[c]).Has(u) && t.Has(u) {
        assert LiveHas(live, u);
        assert false;
      }
    }
  }

  lemma ClaimSafe(m: seq<Header>, m': seq<Header>, f: seq<Block>, base: nat, live: map<nat, nat>,
                  arena: set<nat>, t: Block)
    requires WellFormed(f, base) && Linked(m, f) && LiveSafe(m, f, base, live)
    requires Partition(f, live, arena) && t.size > 0
    requires Grantable(base, arena, |m|, t.addr, t.size)
    requires |m'| == |m| && m'[t.addr].size == t.size
    requires forall u: nat | u < |m| && u != t.addr :: SameAt(m, m', u)
    ensures t.addr !in live
    ensures Linked(m', f) && LiveSafe(m', f, base, live[t.addr := t.size]) && KeepsLive(m, m', live)
    ensures Partition(f, live[t.addr := t.size], arena + Units(t))
  {
    GrantApart(f, base, live, arena, t);
    forall i | 0 <= i < |f| ensures LinkedAt(m', f, i) {
      assert LinkedAt(m, f, i) && SameAt(m, m', f[i].addr);
    }
    forall c | c in live ensures c != t.addr && LiveMeets(m, m', f, live, t, c) {
      assert LiveAt(m, f, base, live, c);
      assert c != t.addr && SameAt(m, m', c);
    }
    LiveGains(m, m', f, f, base, live, t);
    assert t.Has(t.addr);
    forall u: nat ensures u in arena + Units(t) <==> Covers(f, u) || LiveHas(live[t.addr := t.size], u) {
      LiveGainsUnits(live, t, u);
    }
  }

  lemma KeepsLiveTwice(m: seq<Header>, m1: seq<Header>, m2: seq<Header>, live: map<nat, nat>)
    requires KeepsLive(m, m1, live) && KeepsLive(m1, m2, live)
    ensures KeepsLive(m, m2, live)
  {
  }

  // Taking the last `n` units of block `k` away from the list and into use.
  lemma TakeSafe(m: seq<Header>, m': seq<Header>, f: seq<Block>, base: nat, k: nat, n: nat,
                 live: map<nat, nat>, arena: set<nat>)
    requires WellFormed(f, base) && Linked(m, f) && LiveSafe(m, f, base, live)
    requires Partition(f, live, arena)
    requires 1 <= k < |f| && 0 < n <= f[k].size && |m'| == |m|
    requires var t := Tail(f[k], n); t.addr < |m| && m'[t.addr].size == n
    requires forall u: nat | u < |m| && u != f[k - 1].addr && !f[k].Has(u) :: SameAt(m, m', u)
    ensures var t := Tail(f[k], n);
            && t.addr !in live && KeepsLive(m, m', live)
            && LiveSafe(m', Carve(f, k, n), base, live[t.addr := n])
            && Partition(Carve(f, k, n), live[t.addr := n], arena)
  {
    var g, t := Carve(f, k, n), Tail(f[k], n);
    assert LinkedAt(m, f, k);
    forall c | c in live
      ensures c != t.addr && LiveMeets(m, m', g, live, t, c)
    {
      TakeMeets(m, m', f, base, k, n, live, c, c);
    }
    forall u: nat | u < |m| && LiveHas(live, u) ensures SameAt(m, m', u) {
      var c :| c in live && Block(c, live[c]).Has(u);
      TakeMeets(m, m', f, base, k, n, live, c, u);
    }
    TailApart(f, base, k, n);
    LiveGains(m, m', f, g, base, live, t);
    CarveUnits(f, base, k, n);
    forall u: nat ensures u in arena <==> Covers(g, u) || LiveHas(live[t.addr := n], u) {
      LiveGainsUnits(live, t, u);
    }
  }

  lemma TakeMeets(m: seq<Header>, m': seq<Header>, f: seq<Block>, base: nat, k: nat, n: nat,
                  live: map<nat, nat>, c: nat, u: nat)
    requires WellFormed(f, base) && LiveSafe(m, f, base, live) && c in live
    requires Block(c, live[c]).Has(u)
    requires 1 <= k < |f| && 0 < n <= f[k].size && |m'| == |m|
    requires forall u: nat | u < |m| && u != f[k - 1].addr && !f[k].Has(u) :: SameAt(m, m', u)
    ensures c != Tail(f[k], n).addr && LiveMeets(m, m', Carve(f, k, n), live, Tail(f[k], n), c)
    ensures u < |m| ==> SameAt(m, m', u)
  {
    assert LiveAt(m, f, base, live, c);
    assert f[k].End() <= c || c + live[c] <= f[k].addr;
    assert SameAt(m, m', c);
    assert f[k - 1].End() <= c || c + live[c] <= f[k - 1].addr;
    CarveApart(f, base, k, n, Block(c, live[c]));
  }

  // The two ways `malloc` unhooks the block it found.
  lemma TakeLinked(m: seq<Header>, m': seq<Header>, f: seq<Block>, base: nat, k: nat, n: nat)
    requires WellFormed(f, base) && Linked(m, f)
    requires 1 <= k < |f| && 0 < n <= f[k].size && |m'| == |m|
    requires if f[k].size == n
             then HeaderIs(m', f[k - 1].addr, Header(f[Succ(k, |f|)].addr, f[k - 1].size))
             else HeaderIs(m', f[k].addr, Header(f[Succ(k, |f|)].addr, f[k].size - n))
    requires forall u: nat | u < |m| && u != Tail(f[k], n).addr
               && u != (if f[k].size == n then f[k - 1].addr else f[k].addr) :: SameAt(m, m', u)
    ensures Linked(m', Carve(f, k, n))
  {
    forall i | 0 <= i < |f| && i != k && (f[k].size != n || i != k - 1)
      ensures SameAt(m, m', f[i].addr)
    {
      assert LinkedAt(m, f, i);
    }
    assert LinkedAt(m, f, k - 1) && LinkedAt(m, f, k);
    if f[k].size == n {
      UnlinkLinked(m, m', f, base, k);
    } else {
      ReplaceLinked(m, m', f, base, k, k + 1, Block(f[k].addr, f[k].size - n));
    }
  }

  class Allocator {
    const base: nat                  // address of the static sentinel
    const mem: array<Header>
    var freep: nat                   // 0 before the first malloc
    var brk: nat                     // the kernel's: the unit after the last one of the process
    ghost var list: seq<Block>       // free blocks from the sentinel upwards
    ghost var rover: nat             // list[rover] is the block freep points at
    ghost var live: map<nat, nat>    // header address of each block handed out -> its units
    ghost var arena: set<nat>        // units obtained from sbrk

    ghost predicate Valid()
      reads this, mem
    {
      && 0 < base < mem.Length && UNIT * brk <= USERTOP <= UNIT * mem.Length
      && if freep == 0 then list == [] && rover == 0 && live == map[] && arena == {}
         else
           && WellFormed(list, base)
           && rover < |list| && freep == list[rover].addr
           && Linked(mem[..], list)
           && LiveSafe(mem[..], list, base, live)
           && Partition(list, live, arena)
    }

    // The kernel has given every unit that is in a block.
    ghost predicate Sound()
      reads this
    {
      BelowBreak(base, arena, brk)
    }

    constructor (size: nat, base: nat, brk: nat)
      requires 0 < base < brk && UNIT * brk <= USERTOP <= UNIT * size
      ensures Valid() && Sound() && fresh(mem) && freep == 0
      ensures mem.Length == size && this.base == base && this.brk == brk
    {
      this.base, this.brk := base, brk;
      mem := new Header[size];
      freep, list, rover, live, arena := 0, [], 0, map[], {};
    }

    /** The search loop of `free`: from wherever `freep` is, it finds the block below `bp`. */
    method FindSlot(bp: nat, ghost k: nat) returns (p: nat)
      requires Valid() && freep != 0 && base < bp && IsSlot(list, bp, k)
      requires forall j | 0 <= j < |list| :: list[j].addr != bp
      ensures p == list[k].addr
    {
      p := freep;
      ghost var i := rover;
      assert LinkedAt(mem[..], list, i);
      while !(bp > p && bp < mem[p].ptr)
        invariant 0 <= i < |list| && p == list[i].addr && p < mem.Length && LinkedAt(mem[..], list, i)
        decreases if i <= k then k - i else k + |list| - i
      {
        SearchStopsAtSlot(list, base, bp, k, i);
        if p >= mem[p].ptr && (bp > p || bp < mem[p].ptr) {
          break;
        }
        p := mem[p].ptr;
        i := Succ(i, |list|);
        assert LinkedAt(mem[..], list, i);
      }
      SearchStopsAtSlot(list, base, bp, k, i);
    }

    /** Gives a block back.  The new list covers one block more, so by `Canonical` it is fully
        determined; no unit of a block still in use is written.  The roving pointer is left at the
        last free block below. */
    method Free(ap: nat)
      requires Valid() && freep != 0 && ap > 0 && ap - 1 in live
      modifies this`freep, this`list, this`rover, this`live, mem
      ensures Valid() && freep != 0
      ensures live == old(live) - {ap - 1}
      ensures Adds(old(list), Block(ap - 1, old(live[ap - 1])), list)
      ensures freep < ap - 1 && exists k: nat :: k < |old(list)| && freep == old(list)[k].addr
      ensures forall x | 0 <= x < |old(list)| && old(list)[x].addr < ap - 1 :: old(list)[x].addr <= freep
      ensures KeepsLive(old(mem[..]), mem[..], live)
    {
      var bp := ap - 1;
      ghost var f, m, b := list, mem[..], Block(bp, live[bp]);
      assert LiveAt(m, f, base, live, bp);
      ghost var k := SlotExists(f, base, bp);
      var p := FindSlot(bp, k);
      Link(bp, p, f, k, b);
      ghost var m' := mem[..];
      ghost var live' := live - {bp};
      ghost var f' := Coalesce(f, k, b);
      assert WellFormed(f', base) by { CoalesceKeepsOrder(f, base, k, b); }
      assert Adds(f, b, f') by { CoalesceUnits(f, base, k, b); }
      assert LiveSafe(m', f', base, live') && KeepsLive(m, m', live') by {
        FreeKeepsOthers(m, m', f, base, k, live, bp);
      }
      assert Partition(f', live', arena) by { FreeKeepsPartition(f, f', live, arena, bp); }
      SlotIsLast(f, base, bp, k);
      freep := p;
      list, rover, live := f', k, live';
    }

    // The two coalescing tests at the end of `free`.
    method Link(bp: nat, p: nat, ghost f: seq<Block>, ghost k: nat, ghost b: Block)
      requires 0 < base && WellFormed(f, base) && Linked(mem[..], f) && k < |f| && p == f[k].addr
      requires IsSlot(f, bp, k) && base < bp < mem.Length && b.addr == bp && b.size > 0
      requires Apart(f, b) && mem[bp].size == b.size
      modifies mem
      ensures Linked(mem[..], Coalesce(f, k, b))
      ensures forall u | 0 <= u < mem.Length && u != bp && u != p :: mem[u] == old(mem[u])
    {
      ghost var m := mem[..];
      assert LinkedAt(m, f, k);
      assert k + 1 < |f| ==> LinkedAt(m, f, k + 1);
      if bp + mem[bp].size == mem[p].ptr {
        mem[bp] := mem[bp].(size := mem[bp].size + mem[mem[p].ptr].size);
        mem[bp] := mem[bp].(ptr := mem[mem[p].ptr].ptr);
      } else {
        mem[bp] := mem[bp].(ptr := mem[p].ptr);
      }
      if p + mem[p].size == bp {
        mem[p] := mem[p].(size := mem[p].size + mem[bp].size);
        mem[p] := mem[p].(ptr := mem[bp].ptr);
      } else {
        mem[p] := mem[p].(ptr := bp);
      }
      forall i | 0 <= i < |f| && i != k ensures SameAt(m, mem[..], f[i].addr) {
        assert LinkedAt(m, f, i);
      }
      CoalesceLinked(m, mem[..], f, base, k, b);
    }

    // The header morecore writes makes the new region a block in use.
    method Claim(hp: nat, nu: nat)
      requires Valid() && freep != 0 && nu > 0
      requires Grantable(base, arena, mem.Length, hp, nu)
      modifies this`live, this`arena, mem
      ensures Valid() && hp !in old(live) && live == old(live)[hp := nu]
      ensures arena == old(arena) + Units(Block(hp, nu))
      ensures KeepsLive(old(mem[..]), mem[..], old(live))
    {
      ghost var m, t := mem[..], Block(hp, nu);
      mem[hp] := mem[hp].(size := nu);
      ClaimSafe(m, mem[..], list, base, live, arena, t);
      arena := arena + Units(t);
      live := live[hp := nu];
    }

    /** Asks the kernel for at least `nunits` units; `a` is its answer.  What it grants joins the free
        list, whether there is memory behind it or not. */
    method Morecore(nunits: nat, a: Answer) returns (r: nat)
      requires Valid() && Sound() && freep != 0 && nunits > 0 && Possible(brk, GrowBy(nunits), a)
      modifies this, mem
      ensures Valid() && freep != 0 && live == old(live)
      ensures KeepsLive(old(mem[..]), mem[..], live)
      ensures !a.Granted? ==>
        && r == 0 && list == old(list) && rover == old(rover) && arena == old(arena) && freep == old(freep)
        && brk == old(brk)
      ensures a.Granted? ==>
        && r == freep && brk == a.brk
        && Adds(old(list), Block(old(brk), GrowBy(nunits)), list)
        && arena == old(arena) + Units(Block(old(brk), GrowBy(nunits)))
      ensures a.Granted? ==>
        arena == old(arena) + Units(Block(old(brk), if nunits < 4096 then 4096 else nunits))
      ensures Sound() <==> !a.Granted? || GrowBy(nunits) < HALF
      ensures Reach(list, nunits, mem.Length)
    {
      ReachSound(list, live, arena, nunits, mem.Length);
      var nu := nunits;
      if nu < MIN_UNITS {
        nu := MIN_UNITS;
      }
      var hp := brk;                             // what sbrk returns
      if !a.Granted? {
        return 0;
      }
      Grow(hp, nu);
      brk := a.brk;
      ArenaGrows(base, old(arena), hp, nu, brk);
      if nu < HALF {
        ReachSound(list, live, arena, nunits, mem.Length);
      } else {
        ReachHollow(old(list), old(live), old(arena), Block(hp, nu), list, mem.Length);
      }
      r := freep;
    }

    // The header is written and the region freed.
    method Grow(hp: nat, nu: nat)
      requires Valid() && freep != 0 && nu > 0 && Grantable(base, arena, mem.Length, hp, nu)
      modifies this`freep, this`list, this`rover, this`live, this`arena, mem
      ensures Valid() && freep != 0 && live == old(live)
      ensures KeepsLive(old(mem[..]), mem[..], live)
      ensures Adds(old(list), Block(hp, nu), list) && arena == old(arena) + Units(Block(hp, nu))
    {
      Claim(hp, nu);
      ghost var m := mem[..];
      AddedAndGone(old(live), hp, nu);
      Free(hp + 1);
      KeepsLiveTwice(old(mem[..]), m, mem[..], live);
    }

    // The found-it branch of `malloc`: unhook the whole block, or shorten it to its head.
    method Unhook(p0: nat, prevp: nat, nunits: nat, ghost k: nat) returns (p: nat)
      requires WellFormed(list, base) && Linked(mem[..], list)
      requires 1 <= k < |list| && 0 < nunits <= list[k].size
      requires p0 == list[k].addr && prevp == list[k - 1].addr && Tail(list[k], nunits).addr < mem.Length
      modifies mem
      ensures p == Tail(list[k], nunits).addr && p < mem.Length && mem[p].size == nunits
      ensures p == list[k].addr + list[k].size - nunits
      ensures Linked(mem[..], Carve(list, k, nunits))
      ensures forall u: nat | u < mem.Length && u != list[k - 1].addr && !list[k].Has(u) :: mem[u] == old(mem[u])
    {
      p := p0;
      ghost var m := mem[..];
      assert LinkedAt(m, list, k) && LinkedAt(m, list, k - 1);
      if mem[p].size == nunits {
        mem[prevp] := mem[prevp].(ptr := mem[p].ptr);
      } else {
        mem[p] := mem[p].(size := mem[p].size - nunits);
        p := p + mem[p].size;
        mem[p] := mem[p].(size := nunits);
      }
      TakeLinked(m, mem[..], list, base, k, nunits);
    }

    method Take(p0: nat, prevp: nat, nunits: nat, ghost k: nat) returns (p: nat)
      requires Valid() && freep != 0 && nunits > 0 && FirstFit(list, rover, nunits, k)
      requires p0 == list[k].addr && prevp == list[k - 1].addr && Tail(list[k], nunits).addr < mem.Length
      modifies this`freep, this`list, this`rover, this`live, mem
      ensures Valid() && freep != 0
      ensures p != 0 && p !in old(live) && live == old(live)[p := nunits]
      ensures TakenFrom(old(list), old(rover), Block(p, nunits), list, freep)
      ensures KeepsLive(old(mem[..]), mem[..], old(live))
    {
      ghost var f, m := list, mem[..];
      p := Unhook(p0, prevp, nunits, k);
      ghost var g, m' := Carve(f, k, nunits), mem[..];
      assert WellFormed(g, base) by { CarveKeepsOrder(f, base, k, nunits); }
      assert Removes(f, Block(p, nunits), g) by { CarveUnits(f, base, k, nunits); }
      TakeSafe(m, m', f, base, k, nunits, live, arena);
      freep := prevp;
      list, rover, live := g, k - 1, live[p := nunits];
    }

    // The first call threads the sentinel to itself.
    method Start()
      requires Valid()
      modifies this, mem
      ensures Valid() && freep != 0 && live == old(live) && arena == old(arena) && brk == old(brk)
      ensures list == Started(old(list), base)
      ensures rover == old(rover)
      ensures KeepsLive(old(mem[..]), mem[..], live)
    {
      if freep == 0 {
        freep := base;
        mem[base] := Header(base, 0);
        list, rover := [Block(base, 0)], 0;
        assert LinkedAt(mem[..], list, 0);
      }
    }

    /** One round of the search loop of `malloc`, from the block after `freep` until a block
        fits or the walk is back at `freep`. */
    method Walk(nunits: nat) returns (fits: bool, p: nat, prevp: nat, ghost k: nat)
      requires Valid() && freep != 0 && nunits > 0
      ensures fits ==>
        && FirstFit(list, rover, nunits, k) && p == list[k].addr && prevp == list[k - 1].addr
      ensures !fits ==> NoneFits(list, nunits)
    {
      ghost var j := rover;
      assert LinkedAt(mem[..], list, j);
      prevp := freep;
      p := mem[prevp].ptr;
      k := Succ(j, |list|);
      while true
        invariant 0 <= j < |list| && k == Succ(j, |list|)
        invariant p == list[k].addr && prevp == list[j].addr
        invariant Passed(list, rover, k, nunits)
        decreases |list| - Turns(rover, k, |list|)
      {
        assert LinkedAt(mem[..], list, k);
        if mem[p].size >= nunits {
          return true, p, prevp, k;
        }
        PassOne(list, rover, k, nunits);
        if p == freep {
          return false, p, prevp, k;
        }
        prevp := p;
        p := mem[p].ptr;
        j := k;
        k := Succ(k, |list|);
      }
    }

    // One round of the search, which takes the first block that fits.
    method Search(nunits: nat) returns (fits: bool, p: nat)
      requires Valid() && freep != 0 && nunits > 0 && Reach(list, nunits, mem.Length)
      modifies this`freep, this`list, this`rover, this`live, mem
      ensures Valid() && freep != 0 && KeepsLive(old(mem[..]), mem[..], old(live))
      ensures !fits ==> NoneFits(list, nunits) && list == old(list) && rover == old(rover) && live == old(live)
      ensures fits ==>
        && p != 0 && p !in old(live) && live == old(live)[p := nunits] && !NoneFits(old(list), nunits)
        && TakenFrom(old(list), old(rover), Block(p, nunits), list, freep)
    {
      var prevp;
      ghost var k;
      fits, p, prevp, k := Walk(nunits);
      if fits {
        p := Take(p, prevp, nunits, k);
      }
    }

    /** `malloc` once the request is rounded to units.  The kernel is asked exactly when no free block is
        large enough, and once at most; `a` is what it answers then. */
    method Serve(nunits: nat, a: Answer) returns (p: nat, ghost asked: bool)
      requires Valid() && Sound() && nunits > 0 && Possible(brk, GrowBy(nunits), a)
      modifies this, mem
      ensures Valid() && freep != 0
      ensures asked <==> NoneFits(Started(old(list), base), nunits)
      ensures p == 0 <==> asked && !a.Granted?
      ensures p == 0 ==>
        && live == old(live) && arena == old(arena) && list == Started(old(list), base)
      ensures p != 0 ==> p !in old(live) && live == old(live)[p := nunits]
      ensures p != 0 ==>
        Placed(Started(old(list), base), old(rover), old(arena), old(brk), Block(p, nunits), asked, list, freep, arena)
      ensures brk == if asked && a.Granted? then a.brk else old(brk)
      ensures Sound() <==> p == 0 || !asked || GrowBy(nunits) < HALF
      ensures KeepsLive(old(mem[..]), mem[..], old(live))
    {
      Start();
      ReachSound(list, live, arena, nunits, mem.Length);
      ghost var m := mem[..];
      var fits;
      fits, p := Search(nunits);
      KeepsLiveTwice(old(mem[..]), m, mem[..], old(live));
      asked := !fits;
      if !fits {
        m := mem[..];
        p := AskAndSearch(nunits, a);
        KeepsLiveTwice(old(mem[..]), m, mem[..], old(live));
      }
    }

    // The search goes on after `morecore`, and now ends with a block.
    method AskAndSearch(nunits: nat, a: Answer) returns (p: nat)
      requires Valid() && Sound() && freep != 0 && nunits > 0 && Possible(brk, GrowBy(nunits), a)
      requires NoneFits(list, nunits)
      modifies this, mem
      ensures Valid() && freep != 0
      ensures p == 0 <==> !a.Granted?
      ensures p == 0 ==> live == old(live) && arena == old(arena) && list == old(list) && brk == old(brk)
      ensures p != 0 ==>
        && p !in old(live) && live == old(live)[p := nunits] && brk == a.brk
        && Placed(old(list), old(rover), old(arena), old(brk), Block(p, nunits), true, list, freep, arena)
      ensures Sound() <==> p == 0 || GrowBy(nunits) < HALF
      ensures KeepsLive(old(mem[..]), mem[..], old(live))
    {
      p := Morecore(nunits, a);
      if p == 0 {
        return;
      }
      ghost var m, grown, from := mem[..], list, rover;
      AddedFits(old(list), Block(old(brk), GrowBy(nunits)), list, base);
      var fits;
      fits, p := Search(nunits);
      KeepsLiveTwice(old(mem[..]), m, mem[..], old(live));
      assert TakenFrom(grown, from, Block(p, nunits), list, freep);
      assert TakenFromGrown(old(list), Block(old(brk), GrowBy(nunits)), Block(p, nunits), list, freep);
    }

    /** `malloc`: the block handed out has its units below the break and the payload asked for if and only
        if at most 2^31 - 16 bytes were asked for.  `room` says whether the kernel has the frames; it
        kills the process, and the call does not return, only above that limit. */
    method Malloc(nbytes: nat, room: bool) returns (ap: nat, ghost asked: bool, a: Answer)
      requires Valid() && Sound() && nbytes < WORD
      modifies this, mem
      ensures Valid() && freep != 0
      ensures a == Answered(old(brk), GrowBy(UnitsFor(nbytes)), room)
      ensures asked <==> NoneFits(Started(old(list), base), UnitsFor(nbytes))
      ensures ap == 0 <==> asked && !a.Granted?
      ensures ap == 0 ==> live == old(live) && arena == old(arena) && list == Started(old(list), base)
      ensures ap != 0 ==> ap - 1 !in old(live) && live == old(live)[ap - 1 := UnitsFor(nbytes)]
      ensures ap != 0 ==> (Serves(brk, ap - 1, live[ap - 1], nbytes) <==> nbytes <= LIMIT)
      ensures ap != 0 ==>
        Placed(Started(old(list), base), old(rover), old(arena), old(brk), Block(ap - 1, UnitsFor(nbytes)), asked,
               list, freep, arena)
      ensures nbytes <= LIMIT ==> Sound() && !a.Killed?
      ensures KeepsLive(old(mem[..]), mem[..], old(live))
    {
      UnitsInRange(nbytes);
      var nunits := UnitsFor(nbytes);
      a := Kernel(GrowBy(nunits), room);
      var p;
      p, asked := Serve(nunits, a);
      ap := if p == 0 then 0 else p + 1;
      if p != 0 {
        ServesWithinLimit(list, live, arena, base, p, brk, nbytes);
      }
    }

    // What `sbrk` would answer to a request for `nu` units.
    method Kernel(nu: nat, room: bool) returns (a: Answer)
      requires 0 < nu <= 2 * HALF && UNIT * brk <= USERTOP
      ensures a == Answered(brk, nu, room) && Possible(brk, nu, a)
    {
      BreakMoves(brk, nu, room);
      a := Answered(brk, nu, room);
    }

    /** `malloc`, from where the request is in units, and then `free`: the list is what it was, with what
        the kernel granted. */
    method ServeAndFree(nunits: nat, a: Answer) returns (p: nat, ghost asked: bool)
      requires Valid() && Sound() && nunits > 0 && Possible(brk, GrowBy(nunits), a)
      modifies this, mem
      ensures Valid() && live == old(live)
      ensures !asked || p == 0 ==> list == Started(old(list), base)
      ensures asked && p != 0 ==> Adds(Started(old(list), base), Block(old(brk), GrowBy(nunits)), list)
    {
      p, asked := Serve(nunits, a);
      if p != 0 {
        ghost var g, r, after := list, freep, arena;
        AddedAndGone(old(live), p, nunits);
        Free(p + 1);
        PlacedAndFreed(Started(old(list), base), base, old(rover), old(arena), old(brk), Block(p, nunits), asked,
                       g, r, after, list);
      }
    }

    /** Between calls a program may store anything in the payload of its blocks. */
    method Store(b: nat, u: nat, h: Header)
      requires Valid() && b in live && b < u < b + live[b] && u < mem.Length
      modifies mem
      ensures Valid() && mem[..] == old(mem[..])[u := h]
    {
      ghost var m := mem[..];
      assert LiveAt(m, list, base, live, b);
      mem[u] := h;
      StoreSafe(m, mem[..], list, base, live, b, u);
    }
  }

  lemma FailingGranted(nunits: nat)
    requires nunits <= 2 * HALF && !Between(nunits) && (nunits < HALF ==> nunits <= 4096)
    ensures Answered(HollowBreak(nunits), GrowBy(nunits), true).Granted?
  {
    if nunits >= HALF {
      var b := SomeHollowGrant(nunits);
    } else {
      SmallGranted();
    }
  }

  lemma SmallGranted()
    ensures Answered(513, MIN_UNITS, true).Granted?
  {
    ArgumentSign(MIN_UNITS);
  }

  /** For every request above 2^31 - 16 there is a program whose first malloc returns a block that does not
      serve it, but for the 24 sizes that no first malloc serves in any way. */
  method BrokenPromise(nbytes: nat) returns (start: nat, ap: nat, n: nat, brk: nat)
    requires LIMIT < nbytes < WORD && !Between(UnitsFor(nbytes))
    ensures Loaded(start) && ap != 0 && n == UnitsFor(nbytes) && !Serves(brk, ap - 1, n, nbytes)
  {
    RoundedRequest(nbytes);
    start := HollowBreak(UnitsFor(nbytes));
    FailingGranted(UnitsFor(nbytes));
    var a := new Allocator(USERTOP / UNIT, 1, start);
    var answer;
    ghost var asked;
    ap, asked, answer := a.Malloc(nbytes, true);
    n, brk := UnitsFor(nbytes), a.brk;
  }

  /** Those sizes: wherever the break is, the request is refused or ends the process. */
  lemma NeverServed(brk: nat, nbytes: nat, room: bool)
    requires Loaded(brk) && nbytes < WORD && Between(UnitsFor(nbytes))
    ensures !Answered(brk, GrowBy(UnitsFor(nbytes)), room).Granted?
    ensures LIMIT < nbytes <= WORD - UNIT
  {
    RoundedRequest(nbytes);
    NoHollowGrant(brk, UnitsFor(nbytes), room);
  }

  ghost predicate BelowBreak(base: nat, arena: set<nat>, brk: nat) {
    base < brk && forall u | u in arena :: u < brk
  }

  // The arena stays below the break when the break moves as far.
  lemma ArenaGrows(base: nat, arena: set<nat>, brk: nat, nu: nat, brk': nat)
    requires BelowBreak(base, arena, brk) && nu > 0
    requires if nu < HALF then brk' == brk + nu else brk' <= brk
    ensures BelowBreak(base, arena + Units(Block(brk, nu)), brk') <==> nu < HALF
  {
    assert Block(brk, nu).Has(brk + nu - 1);
  }

  /** Two requests that the kernel grants without giving anything: 2^31 bytes, and 2^32 - 8. */
  lemma HollowGrants()
    ensures Loaded(1534) && Answered(1534, GrowBy(UnitsFor(0x8000_0000)), false) == Granted(1534)
    ensures Answered(1534, GrowBy(UnitsFor(WORD - UNIT)), false) == Granted(1534)
  {
    assert UnitsFor(0x8000_0000) == HALF + 1 && UnitsFor(WORD - UNIT) == 2 * HALF;
  }

  lemma BreakMoves(brk: nat, nu: nat, room: bool)
    requires 0 < nu <= 2 * HALF && UNIT * brk <= USERTOP
    ensures Possible(brk, nu, Answered(brk, nu, room))
  {
    if nu < HALF {
      HonestGrant(brk, nu, room);
    } else {
      HollowGrant(brk, nu, room);
    }
  }

  // Where `malloc` would put the header of a tail of `n` units is memory.
  ghost predicate Reach(f: seq<Block>, n: nat, top: nat) {
    forall i | 1 <= i < |f| && n <= f[i].size :: Tail(f[i], n).addr < top
  }

  lemma ReachSound(f: seq<Block>, live: map<nat, nat>, arena: set<nat>, n: nat, top: nat)
    requires Partition(f, live, arena) && n > 0 && forall u | u in arena :: u < top
    ensures Reach(f, n, top)
  {
    forall i | 1 <= i < |f| && n <= f[i].size ensures Tail(f[i], n).addr < top {
      assert f[i].Has(f[i].End() - 1);
      assert Covers(f, f[i].End() - 1);
    }
  }

  lemma ReachHollow(f: seq<Block>, live: map<nat, nat>, arena: set<nat>, b: Block, g: seq<Block>, top: nat)
    requires Partition(f, live, arena) && Adds(f, b, g) && b.size > 0 && b.addr < top
    requires forall u | u in arena :: u < top
    ensures Reach(g, b.size, top)
  {
    forall i | 1 <= i < |g| && b.size <= g[i].size ensures Tail(g[i], b.size).addr < top {
      var u := g[i].End() - 1;
      assert g[i].Has(u);
      assert Covers(g, u);
      assert Covers(f, u) ==> u in arena;
    }
  }

  // A block of the size for `nbytes` serves the request exactly up to the limit, provided that only grants
  // from 2^31 bytes on are hollow.
  lemma ServesWithinLimit(f: seq<Block>, live: map<nat, nat>, arena: set<nat>, base: nat, b: nat, brk: nat, nbytes: nat)
    requires Partition(f, live, arena) && b in live && nbytes < WORD && live[b] == UnitsFor(nbytes)
    requires UNIT * brk <= USERTOP
    requires GrowBy(UnitsFor(nbytes)) < HALF ==> BelowBreak(base, arena, brk)
    ensures Serves(brk, b, live[b], nbytes) <==> nbytes <= LIMIT
  {
    RoundedRequest(nbytes);
    assert Block(b, live[b]).Has(b + live[b] - 1);
    assert LiveHas(live, b + live[b] - 1);
  }

  lemma StoreSafe(m: seq<Header>, m': seq<Header>, f: seq<Block>, base: nat, live: map<nat, nat>,
                  b: nat, u: nat)
    requires Linked(m, f) && LiveSafe(m, f, base, live) && WellFormed(f, base)
    requires b in live && b < u < b + live[b] && u < |m| == |m'|
    requires forall x: nat | x < |m| && x != u :: SameAt(m, m', x)
    ensures Linked(m', f) && LiveSafe(m', f, base, live)
  {
    assert LiveAt(m, f, base, live, b);
    forall i | 0 <= i < |f| ensures LinkedAt(m', f, i) {
      assert LinkedAt(m, f, i) && SameAt(m, m', f[i].addr);
    }
    forall c | c in live ensures LiveAt(m', f, base, live, c) {
      assert LiveAt(m, f, base, live, c) && SameAt(m, m', c);
    }
  }

  /** `free` right after `malloc` gives back the very list `malloc` started from. */
  lemma FreeUndoesMalloc(f: seq<Block>, base: nat, from: nat, b: Block, g: seq<Block>, freep: nat,
                         h: seq<Block>)
    requires WellFormed(f, base) && WellFormed(h, base)
    requires b.size > 0 && TakenFrom(f, from, b, g, freep) && Adds(g, b, h)
    ensures h == f
  {
    var k: nat :| k < |f| && FirstFit(f, from, b.size, k) && b == Tail(f[k], b.size);
    assert FirstFit(f, from, b.size, k);
    CarveUnits(f, base, k, b.size);
    FreeUndoesTake(f, b, g, h, base);
  }

  /** After a malloc that had to ask, free gives back the list with the region that was granted. */
  lemma FreeUndoesGrownMalloc(f: seq<Block>, region: Block, base: nat, b: Block, g: seq<Block>, freep: nat,
                              h: seq<Block>)
    requires WellFormed(h, base) && b.size > 0
    requires TakenFromGrown(f, region, b, g, freep) && Adds(g, b, h)
    ensures Adds(f, region, h)
  {
    var grown, from :| Adds(f, region, grown) && TakenFrom(grown, from, b, g, freep);
    var k: nat :| k < |grown| && FirstFit(grown, from, b.size, k) && b == Tail(grown[k], b.size);
    var t: Block := grown[k];
    assert FirstFit(grown, from, b.size, k);
    forall u: nat ensures Covers(h, u) <==> Covers(grown, u) {
      assert b.Has(u) ==> t.Has(u);
    }
  }

  lemma PlacedAndFreed(f: seq<Block>, base: nat, from: nat, arena: set<nat>, brk: nat, b: Block, asked: bool,
                       g: seq<Block>, freep: nat, arena': set<nat>, h: seq<Block>)
    requires WellFormed(f, base) && WellFormed(h, base) && b.size > 0
    requires Placed(f, from, arena, brk, b, asked, g, freep, arena') && Adds(g, b, h)
    ensures if asked then Adds(f, Block(brk, GrowBy(b.size)), h) else h == f
  {
    if asked {
      FreeUndoesGrownMalloc(f, Block(brk, GrowBy(b.size)), base, b, g, freep, h);
    } else {
      FreeUndoesMalloc(f, base, from, b, g, freep, h);
    }
  }

  // ----- conservation

  ghost function TotalLive(live: map<nat, nat>): nat {
    if live == map[] then 0 else var b :| b in live; live[b] + TotalLive(live - {b})
  }

  /** The sizes of the free blocks and of the live blocks add up to the number of units the
      kernel ever handed out. */
  lemma Conservation(m: seq<Header>, f: seq<Block>, base: nat, live: map<nat, nat>, arena: set<nat>)
    requires WellFormed(f, base) && LiveSafe(m, f, base, live) && Partition(f, live, arena)
    ensures |arena| == TotalSize(f) + TotalLive(live)
  {
    var free, inUse := SplitArena(m, f, base, live, arena);
    TotalSizeCounts(f, free);
    TotalLiveCounts(live, inUse);
  }

  lemma SplitArena(m: seq<Header>, f: seq<Block>, base: nat, live: map<nat, nat>, arena: set<nat>)
      returns (free: set<nat>, inUse: set<nat>)
    requires LiveSafe(m, f, base, live) && Partition(f, live, arena)
    ensures |arena| == |free| + |inUse|
    ensures forall u: nat :: u in free <==> Covers(f, u)
    ensures forall u: nat :: u in inUse <==> LiveHas(live, u)
  {
    inUse := set u | u in arena && LiveHas(live, u);
    free := arena - inUse;
    forall u: nat ensures !(Covers(f, u) && LiveHas(live, u)) {
      NotBoth(m, f, base, live, u);
    }
    assert arena == free + inUse;
  }

  lemma NotBoth(m: seq<Header>, f: seq<Block>, base: nat, live: map<nat, nat>, u: nat)
    requires LiveSafe(m, f, base, live)
    ensures !(Covers(f, u) && LiveHas(live, u))
  {
    if LiveHas(live, u) {
      var b :| b in live && Block(b, live[b]).Has(u);
      assert LiveAt(m, f, base, live, b);
    }
  }

  lemma AddedAndGone(live: map<nat, nat>, b: nat, n: nat)
    requires b !in live
    ensures live[b := n] - {b} == live
  {
  }

  lemma OnlyInLive(live: map<nat, nat>, b: nat, u: nat)
    requires forall b, c | b in live && c in live && b < c :: b + live[b] <= c
    requires b in live && Block(b, live[b]).Has(u)
    ensures !LiveHas(live - {b}, u)
  {
    var rest := live - {b};
    assert forall c | c in rest :: c in live && c != b && rest[c] == live[c];
  }

  lemma PickLive(live: map<nat, nat>) returns (b: nat)
    requires live != map[]
    ensures b in live && TotalLive(live) == live[b] + TotalLive(live - {b})
  {
    b :| b in live && TotalLive(live) == live[b] + TotalLive(live - {b});
  }

  lemma {:induction false} TotalLiveCounts(live: map<nat, nat>, units: set<nat>)
    requires forall b, c | b in live && c in live && b < c :: b + live[b] <= c
    requires forall u: nat :: u in units <==> LiveHas(live, u)
    ensures |units| == TotalLive(live)
  {
    if live == map[] {
      assert units == {};
    } else {
      var b := PickLive(live);
      var rest := live - {b};
      var gone := Units(Block(b, live[b]));
      UnitsSize(Block(b, live[b]));
      WithoutBlock(live, b, units);
      TotalLiveCounts(rest, units - gone);
      assert units == (units - gone) + gone && (units - gone) * gone == {};
    }
  }

  lemma WithoutBlock(live: map<nat, nat>, b: nat, units: set<nat>)
    requires forall b, c | b in live && c in live && b < c :: b + live[b] <= c
    requires forall u: nat :: u in units <==> LiveHas(live, u)
    requires b in live
    ensures forall u: nat :: u in units - Units(Block(b, live[b])) <==> LiveHas(live - {b}, u)
    ensures Units(Block(b, live[b])) <= units
  {
    var rest := live - {b};
    assert rest[b := live[b]] == live;
    forall u: nat
      ensures LiveHas(live, u) <==> LiveHas(rest, u) || Block(b, live[b]).Has(u)
      ensures Block(b, live[b]).Has(u) ==> !LiveHas(rest, u)
    {
      LiveGainsUnits(rest, Block(b, live[b]), u);
      if Block(b, live[b]).Has(u) {
        OnlyInLive(live, b, u);
      }
    }
  }
}
