/** The two physical frame allocators.  Free frames are linked through their first word; frames
    handed out are kept in an array, oldest first.  A frame is its page number, and 0 is null. */
module Kalloc {
  import opened Common

  const LIST_SIZE: nat := 1_000_000
  const MAX_FRAMES: nat := 4096         // PHYSTOP / PGSIZE

  // Position of the first `v`, or the length of the list.
  function IndexOf(s: seq<nat>, v: nat): (i: nat)
    ensures i <= |s| && (i < |s| ==> s[i] == v) && forall j | 0 <= j < i :: s[j] != v
  {
    if s == [] || s[0] == v then 0 else 1 + IndexOf(s[1..], v)
  }

  lemma IndexIs(s: seq<nat>, v: nat, i: nat)
    requires i <= |s| && (i < |s| ==> s[i] == v) && forall j | 0 <= j < i :: s[j] != v
    ensures IndexOf(s, v) == i
  {
  }

  ghost function Dropped(s: seq<nat>, v: nat): seq<nat> {
    if IndexOf(s, v) < |s| then Without(s, IndexOf(s, v)) else s
  }

  lemma DroppedIs(s: seq<nat>, v: nat)
    ensures v !in s ==> Dropped(s, v) == s
    ensures v in s ==>
      exists i: nat :: i < |s| && s[i] == v && v !in s[..i] && Dropped(s, v) == s[..i] + s[i + 1..]
  {
    var i := IndexOf(s, v);
    if v in s {
      assert i < |s| && s[i] == v && v !in s[..i] && Dropped(s, v) == s[..i] + s[i + 1..];
    }
  }

  // `head` starts a null-terminated chain through the frames of `free`.
  ghost predicate Chain(next: map<nat, nat>, head: nat, free: seq<nat>) {
    && head == At(free, 0)
    && forall i | 0 <= i < |free| :: ChainAt(next, free, i)
  }

  ghost function At(free: seq<nat>, i: nat): nat { if i < |free| then free[i] else 0 }

  ghost predicate ChainAt(next: map<nat, nat>, free: seq<nat>, i: nat)
    requires i < |free|
  {
    free[i] != 0 && free[i] in next && next[free[i]] == At(free, i + 1)
  }

  // Every frame supplied is free or handed out, once.
  ghost predicate Partition(free: seq<nat>, taken: seq<nat>, frames: set<nat>) {
    && Distinct(free + taken)
    && (forall f :: f in frames <==> f in free + taken)
    && (forall f | f in frames :: 0 < f < MAX_FRAMES)
  }

  lemma DistinctBound(s: seq<nat>, n: nat)
    requires Distinct(s) && forall i | 0 <= i < |s| :: s[i] < n
    ensures |s| <= n
  {
    SeqSize(s, Below(n));
  }

  ghost function Below(n: nat): (all: set<nat>)
    ensures forall i: nat :: i in all <==> i < n
    ensures |all| == n
  {
    if n == 0 then {} else Below(n - 1) + {n - 1}
  }

  lemma {:induction false} SeqSize(s: seq<nat>, all: set<nat>)
    requires Distinct(s) && forall i | 0 <= i < |s| :: s[i] in all
    ensures |s| <= |all|
  {
    if s != [] {
      forall i, j | 0 <= i < j < |s| - 1 ensures Differ(s[1..], i, j) { assert Differ(s, i + 1, j + 1); }
      forall i | 0 <= i < |s| - 1 ensures s[1..][i] in all - {s[0]} { assert Differ(s, 0, i + 1); }
      SeqSize(s[1..], all - {s[0]});
    }
  }

  lemma OnePlace(s: seq<nat>, i: nat, j: nat)
    requires Distinct(s) && i <= j < |s|
    ensures s[i] == s[j] ==> i == j
  {
    assert i < j ==> Differ(s, i, j);
  }

  lemma WithoutDistinct(s: seq<nat>, k: nat)
    requires Distinct(s) && k < |s|
    ensures Distinct(Without(s, k))
    ensures forall f :: f in Without(s, k) <==> f in s && f != s[k]
  {
    var s' := Without(s, k);
    forall i, j | 0 <= i < j < |s'| ensures Differ(s', i, j) {
      assert Differ(s, if i < k then i else i + 1, if j < k then j else j + 1);
    }
    forall f ensures f in s' <==> f in s && f != s[k] {
      if f in s && f != s[k] {
        var i :| 0 <= i < |s| && s[i] == f;
        assert s'[if i < k then i else i - 1] == f;
      }
      if f in s' {
        var i :| 0 <= i < |s'| && s'[i] == f;
        var i0 := if i < k then i else i + 1;
        assert s[i0] == f;
        assert if i0 < k then Differ(s, i0, k) else Differ(s, k, i0);
      }
    }
  }

  lemma AddDistinct(s: seq<nat>, t: seq<nat>, v: nat)
    requires Distinct(s + t) && v !in s + t
    ensures Distinct(s + [v] + t)
    ensures forall f :: f in s + [v] + t <==> f in s + t || f == v
  {
    var s' := s + [v] + t;
    forall i, j | 0 <= i < j < |s'| ensures Differ(s', i, j) {
      if i != |s| && j != |s| {
        assert Differ(s + t, if i < |s| then i else i - 1, if j < |s| then j else j - 1);
      } else {
        var o := if i == |s| then j - 1 else i;
        assert (s + t)[o] in s + t;
      }
    }
  }

  /** Taking the frame at position `k` of the free list into use. */
  lemma TakeKeepsPartition(free: seq<nat>, taken: seq<nat>, frames: set<nat>, k: nat)
    requires Partition(free, taken, frames) && k < |free|
    ensures Partition(Without(free, k), taken + [free[k]], frames)
    ensures |taken| < LIST_SIZE && Distinct(free)
  {
    var s, v := free + taken, free[k];
    assert s[k] == v;
    DistinctBound(s, MAX_FRAMES) by {
      forall i | 0 <= i < |s| ensures s[i] < MAX_FRAMES { assert s[i] in frames; }
    }
    forall i, j | 0 <= i < j < |free| ensures Differ(free, i, j) { assert Differ(s, i, j); }
    WithoutDistinct(s, k);
    assert Without(s, k) == Without(free, k) + taken;
    AddDistinct(Without(free, k) + taken, [], v) by { assert Without(s, k) + [] == Without(s, k); }
    assert Without(s, k) + [v] + [] == Without(free, k) + (taken + [v]);
  }

  lemma WithoutTail(a: seq<nat>, b: seq<nat>, i: nat)
    requires i < |b|
    ensures Without(a + b, |a| + i) == a + Without(b, i)
  {
    var s := a + b;
    assert s[..|a| + i] == a + b[..i] && s[|a| + i + 1..] == b[i + 1..];
  }

  lemma DropKeeps(free: seq<nat>, taken: seq<nat>, v: nat)
    requires Distinct(free + taken) && v !in free
    ensures Distinct(free + Dropped(taken, v))
    ensures forall f :: f in free + Dropped(taken, v) <==> f in free + taken && f != v
  {
    var s, i := free + taken, IndexOf(taken, v);
    if i < |taken| {
      assert s[|free| + i] == v;
      WithoutDistinct(s, |free| + i);
      WithoutTail(free, taken, i);
    } else {
      assert v !in s && Dropped(taken, v) == taken;
    }
  }

  /** Freeing a frame in use, or supplying a new one. */
  lemma GiveKeepsPartition(free: seq<nat>, taken: seq<nat>, frames: set<nat>, v: nat)
    requires Partition(free, taken, frames) && v !in free && 0 < v < MAX_FRAMES
    ensures Partition([v] + free, Dropped(taken, v), frames + {v})
  {
    DropKeeps(free, taken, v);
    var rest := free + Dropped(taken, v);
    assert v !in rest;
    PushDistinct(rest, v);
    assert [v] + rest == [v] + free + Dropped(taken, v);
  }

  lemma PushDistinct(s: seq<nat>, v: nat)
    requires Distinct(s) && v !in s
    ensures Distinct([v] + s) && forall f :: f in [v] + s <==> f in s || f == v
  {
    assert [] + s == s && [] + [v] + s == [v] + s;
    AddDistinct([], s, v);
  }

  class Kmem {
    var next: map<nat, nat>        // the first word of each free frame
    var freelist: nat
    const allocList: array<nat>
    var allocSize: nat
    ghost var free: seq<nat>
    ghost var frames: set<nat>     // supplied by kinit

    ghost function Allocated(): seq<nat>
      requires allocSize <= allocList.Length
      reads this, allocList
    {
      allocList[..allocSize]
    }

    ghost predicate Valid()
      reads this, allocList
    {
      && allocList.Length == LIST_SIZE && allocSize <= LIST_SIZE
      && Chain(next, freelist, free)
      && Partition(free, Allocated(), frames)
    }

    /** `kinit`: one kernel supplies every frame from `lo` on, the other every second one. */
    constructor (lo: nat, hi: nat, alternate: bool)
      requires 0 < lo && hi <= MAX_FRAMES
      ensures Valid() && Allocated() == [] && fresh(allocList)
      ensures forall f :: f in frames <==> lo <= f < hi && (alternate ==> (f - lo) % 2 == 0)
    {
      allocList := new nat[LIST_SIZE];
      next, freelist, allocSize, free, frames := map[], 0, 0, [], {};
      new;
      var p := lo;
      while p < hi
        invariant lo <= p && (alternate ==> (p - lo) % 2 == 0)
        invariant Valid() && Allocated() == [] && fresh(allocList)
        invariant forall f :: f in frames <==> lo <= f < hi && f < p && (alternate ==> (f - lo) % 2 == 0)
        decreases hi - p
      {
        assert forall f | f in free :: f in free + Allocated();
        Kfree(p);
        assert Dropped([], p) == [];
        p := p + if alternate then 2 else 1;
      }
    }

    /** `kfree`: the frame becomes the first free one; if it was in use it leaves the array, and
        the others close up in order. */
    method Kfree(v: nat)
      requires Valid() && 0 < v < MAX_FRAMES && v !in free
      modifies this`next, this`freelist, this`allocSize, this`free, this`frames, allocList
      ensures Valid() && free == [v] + old(free)
      ensures Allocated() == Dropped(old(Allocated()), v) && frames == old(frames) + {v}
      ensures var was := old(Allocated());
        if v in was then
          exists i: nat :: i < |was| && was[i] == v && v !in was[..i] && Allocated() == was[..i] + was[i + 1..]
        else Allocated() == was
    {
      GiveKeepsPartition(free, Allocated(), frames, v);
      next := next[v := freelist];
      freelist := v;
      assert Chain(next, freelist, [v] + free) by {
        forall i | 0 <= i < |free| + 1 ensures ChainAt(next, [v] + free, i) {
          assert i > 0 ==> ChainAt(old(next), free, i - 1);
        }
      }
      free, frames := [v] + free, frames + {v};
      Forget(v);
    }

    // The loops over `allocList` in kfree.
    method Forget(v: nat)
      requires allocList.Length == LIST_SIZE && allocSize <= LIST_SIZE
      modifies this`allocSize, allocList
      ensures allocSize <= LIST_SIZE && Allocated() == Dropped(old(Allocated()), v)
      ensures var was := old(Allocated());
        if v in was then
          exists i: nat :: i < |was| && was[i] == v && v !in was[..i] && Allocated() == was[..i] + was[i + 1..]
        else Allocated() == was
    {
      ghost var a := Allocated();
      DroppedIs(a, v);
      var i := 0;
      while i < allocSize
        invariant 0 <= i <= allocSize == |a| && Allocated() == a
        invariant forall j | 0 <= j < i :: a[j] != v
      {
        if allocList[i] == v {
          IndexIs(a, v, i);
          CloseGap(i);
          return;
        }
        i := i + 1;
      }
      IndexIs(a, v, i);
    }

    // The entries after the `i`th move down by one.
    method CloseGap(i: nat)
      requires i < allocSize <= allocList.Length
      modifies this`allocSize, allocList
      ensures allocSize <= allocList.Length && Allocated() == Without(old(Allocated()), i)
    {
      ghost var a := Allocated();
      var j := i + 1;
      while j < allocSize
        invariant i < j <= allocSize == |a|
        invariant forall m | 0 <= m < i :: allocList[m] == a[m]
        invariant forall m | i <= m < j - 1 :: allocList[m] == a[m + 1]
        invariant forall m | j <= m < allocSize :: allocList[m] == a[m]
      {
        allocList[j - 1] := allocList[j];
        j := j + 1;
      }
      allocSize := allocSize - 1;
      assert forall m | 0 <= m < allocSize :: allocList[m] == Without(a, i)[m];
    }

    /** The plain `kalloc`: the first free frame, or 0. */
    method Kalloc() returns (r: nat)
      requires Valid()
      modifies this`freelist, this`allocSize, this`free, allocList
      ensures Valid()
      ensures old(free) == [] ==> r == 0 && free == [] && Allocated() == old(Allocated())
      ensures old(free) != [] ==>
        r == old(free)[0] && free == old(free)[1..] && Allocated() == old(Allocated()) + [r]
    {
      r := freelist;
      assert free != [] ==> ChainAt(next, free, 0);
      if r != 0 {
        TakeKeepsPartition(free, Allocated(), frames, 0);
        freelist := next[r];
        forall i | 0 <= i < |free| - 1 ensures ChainAt(next, free[1..], i) {
          assert ChainAt(next, free, i + 1);
        }
        free := free[1..];
        Record(r);
        assert free == Without(old(free), 0);
      }
    }

    method Record(r: nat)
      requires allocList.Length == LIST_SIZE && allocSize < LIST_SIZE
      modifies this`allocSize, allocList
      ensures allocSize <= LIST_SIZE && Allocated() == old(Allocated()) + [r]
    {
      allocList[allocSize] := r;
      allocSize := allocSize + 1;
    }

    /** The `kalloc` that picks by a random number `x`; it divides by the number of free frames.
        The other free frames stay in order. */
    method KallocRandom(x: nat) returns (r: Option<nat>)
      requires Valid()
      modifies this`next, this`freelist, this`allocSize, this`free, allocList
      ensures Valid()
      ensures r.None? <==> old(free) == []
      ensures r.None? ==> free == old(free) && Allocated() == old(Allocated())
      ensures r.Some? ==>
        && r.value == old(free)[x % |old(free)|] && free == Without(old(free), x % |old(free)|)
        && Allocated() == old(Allocated()) + [r.value]
    {
      var freesize := CountFree();
      if freesize == 0 {
        return None;
      }
      var y := x % freesize;
      var frame := Nth(y);
      TakeKeepsPartition(free, Allocated(), frames, y);
      Unchain(frame, y);
      Record(frame);
      return Some(frame);
    }

    method CountFree() returns (freesize: nat)
      requires Chain(next, freelist, free)
      ensures freesize == |free|
    {
      freesize := 0;
      var r := freelist;
      while r != 0
        invariant 0 <= freesize <= |free| && r == At(free, freesize)
        decreases |free| - freesize
      {
        assert ChainAt(next, free, freesize);
        r := next[r];
        freesize := freesize + 1;
      }
      assert freesize < |free| ==> ChainAt(next, free, freesize);
    }

    method Nth(y: nat) returns (r: nat)
      requires Chain(next, freelist, free) && y < |free|
      ensures r == free[y]
    {
      r := freelist;
      var i := 0;
      while i < y
        invariant 0 <= i <= y && r == At(free, i)
      {
        assert ChainAt(next, free, i);
        r := next[r];
        i := i + 1;
      }
    }

    // Removes frame `r`, the `k`th, from the chain.
    method Unchain(r: nat, ghost k: nat)
      requires Chain(next, freelist, free) && Distinct(free) && k < |free| && r == free[k]
      modifies this`next, this`freelist, this`free
      ensures Chain(next, freelist, free) && free == Without(old(free), k)
    {
      assert ChainAt(next, free, k);
      assert k > 0 ==> Differ(free, 0, k) && ChainAt(next, free, 0);
      var rr := freelist;
      if rr == r {
        freelist := next[r];
      } else {
        ghost var i := 0;
        assert ChainAt(next, free, 0);
        while next[rr] != r
          invariant 0 <= i < k && rr == free[i] && ChainAt(next, free, i)
          decreases k - i
        {
          i := i + 1;
          rr := next[rr];
          assert ChainAt(next, free, i);
        }
        OnePlace(free, i + 1, k);
        next := next[rr := next[r]];
      }
      ghost var free' := Without(free, k);
      forall i | 0 <= i < |free'| ensures ChainAt(next, free', i) {
        var i0 := if i < k then i else i + 1;
        assert ChainAt(old(next), free, i0);
        assert i0 < k - 1 ==> Differ(free, i0, k - 1);
        assert 0 < k < i0 ==> Differ(free, k - 1, i0);
      }
      free := free';
    }

    /** `dump_allocated`: the frames handed out last come first. */
    method DumpAllocated(numframes: int) returns (ok: bool, dump: seq<nat>)
      requires Valid()
      ensures ok <==> 0 <= numframes <= |Allocated()|
      ensures ok ==>
        |dump| == numframes && forall i | 0 <= i < numframes :: dump[i] == Allocated()[|Allocated()| - 1 - i]
    {
      dump := [];
      if numframes < 0 || numframes > allocSize {
        return false, [];
      }
      var i := allocSize;
      while i > allocSize - numframes
        invariant allocSize - numframes <= i <= allocSize && |dump| == allocSize - i
        invariant forall m | 0 <= m < |dump| :: dump[m] == allocList[allocSize - 1 - m]
      {
        dump := dump + [allocList[i - 1]];
        i := i - 1;
      }
      return true, dump;
    }
  }

  /** With every second frame supplied, no two frames ever free or in use are neighbours. */
  lemma NeverAdjacent(lo: nat, hi: nat, free: seq<nat>, taken: seq<nat>, frames: set<nat>, f: nat, g: nat)
    requires Partition(free, taken, frames)
    requires forall f :: f in frames <==> lo <= f < hi && (f - lo) % 2 == 0
    requires f in free + taken && g in free + taken
    ensures f != g + 1
  {
    assert f in frames && g in frames;
  }
}
