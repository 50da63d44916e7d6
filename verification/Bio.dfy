/** The buffer cache and, under it, the queue of the disk driver.  Each method is what one process
    does between taking a lock and giving it up; other processes run in between. */
module Bio {
  import opened BioSpec
  import opened BufList
  import opened Common

  // The list has every buffer, the one released last in front.
  ghost predicate ByRelease(order: seq<nat>, stamp: seq<nat>) {
    && |stamp| == NBUF && |order| == NBUF
    && (forall i | 0 <= i < |order| :: order[i] < NBUF)
    && (forall b: nat | b < NBUF :: b in order)
    && (forall i, j | 0 <= i < j < |order| :: Later(order, stamp, i, j))
  }

  ghost predicate Later(order: seq<nat>, stamp: seq<nat>, i: nat, j: nat)
    requires i < |order| && j < |order|
  {
    order[i] < |stamp| && order[j] < |stamp| && stamp[order[i]] > stamp[order[j]]
  }

  datatype Got = Hit(b: nat) | Busy(b: nat) | Fresh(b: nat) | NoBuffers

  class BufCache {
    const bufs: array<Buf>
    const next: array<nat>
    const prev: array<nat>
    var idequeue: seq<nat>
    var disk: Disk
    var edited: set<nat>           // not in the code: what its user changed and has not written
    var holder: map<nat, Pid>      // not in the code: whose each busy buffer is
    ghost var order: seq<nat>
    ghost var stamp: seq<nat>      // when each buffer was last released
    ghost var clock: nat

    ghost predicate Listed()
      reads this, next, prev
    {
      && next.Length == prev.Length == NBUF + 1 && next != prev
      && Links(next[..], prev[..], order, HEAD)
      && ByRelease(order, stamp)
      && forall b | 0 <= b < NBUF :: stamp[b] < clock
    }

    ghost predicate Valid()
      reads this, bufs, next, prev
    {
      && bufs.Length == NBUF
      && Listed()
      && Inv(Now())
    }

    ghost function Now(): Cache
      reads this, bufs
    {
      Cache(bufs[..], disk, idequeue, edited, holder)
    }

    // Buffer `b`, which is in no list, goes right after the head.
    method Push(b: nat)
      requires next.Length == prev.Length == NBUF + 1 && next != prev && b < NBUF
      requires Links(next[..], prev[..], order, HEAD) && b !in order
      modifies next, prev, this`order
      ensures order == [b] + old(order) && Links(next[..], prev[..], order, HEAD)
    {
      PushKeepsLinks(next[..], prev[..], order, HEAD, b);
      ghost var nx: seq<nat>, pv: seq<nat> := next[..], prev[..];
      next[b] := next[HEAD];
      prev[b] := HEAD;
      prev[next[HEAD]] := b;
      next[HEAD] := b;
      assert next[..] == nx[b := nx[HEAD]][HEAD := b];
      assert prev[..] == pv[b := HEAD][nx[HEAD] := b];
      order := [b] + order;
    }

    /** `binit`: every buffer is in the list, none has a sector. */
    constructor (disk: Disk, data: Data)
      ensures Valid() && this.disk == disk && idequeue == [] && holder == map[]
      ensures fresh(bufs) && fresh(next) && fresh(prev)
    {
      bufs := new Buf[NBUF](i => Buf(Key(NODEV, 0), false, false, false, data));
      next := new nat[NBUF + 1](i => HEAD);
      prev := new nat[NBUF + 1](i => HEAD);
      idequeue, edited, holder, order, stamp, clock := [], {}, map[], [], seq(NBUF, i => i), NBUF;
      this.disk := disk;
      new;
      EmptyLinks(next[..], prev[..], HEAD);
      var b := 0;
      while b < NBUF
        invariant 0 <= b <= NBUF && |order| == b
        invariant next.Length == prev.Length == NBUF + 1 && next != prev
        invariant Links(next[..], prev[..], order, HEAD)
        invariant forall i | 0 <= i < b :: order[i] == b - 1 - i
        invariant stamp == seq(NBUF, i => i) && bufs.Length == NBUF && idequeue == [] && edited == {} && holder == map[]
        invariant forall i | 0 <= i < NBUF :: bufs[i] == Buf(Key(NODEV, 0), false, false, false, data)
        invariant this.disk == disk && clock == NBUF && fresh(bufs) && fresh(next) && fresh(prev)
      {
        Push(b);
        b := b + 1;
      }
      forall c: nat | c < NBUF ensures c in order {
        assert order[NBUF - 1 - c] == c;
      }
      forall i: nat | i < NBUF ensures BufOk(bufs[..], disk, [], {}, i) {}
      forall i: nat, j: nat | i < NBUF && j < NBUF ensures KeysDiffer(bufs[..], i, j) {}
    }

    /** `bget` up to giving up the lock: the buffer that has the sector, or else the one released
        longest ago among those not in use. */
    method Bget(p: Pid, dev: int, sector: nat) returns (r: Got)
      requires Valid() && dev != NODEV
      modifies this`holder, bufs
      ensures Valid()
      ensures match r
              case Hit(b) =>
                && b < NBUF && old(bufs[b]).key == Key(dev, sector) && !old(bufs[b]).busy
                && Now() == Apply(old(Now()), Take(p, Key(dev, sector), b))
              case Busy(b) =>
                && b < NBUF && bufs[b].key == Key(dev, sector) && bufs[b].busy && Now() == old(Now())
              case Fresh(b) =>
                && b < NBUF && !old(bufs[b]).busy && NobodyHas(old(bufs[..]), Key(dev, sector))
                && (forall c | 0 <= c < NBUF && !old(bufs[c]).busy :: stamp[b] <= stamp[c])
                && Now() == Apply(old(Now()), Take(p, Key(dev, sector), b))
              case NoBuffers =>
                && NobodyHas(bufs[..], Key(dev, sector)) && (forall c | 0 <= c < NBUF :: bufs[c].busy)
                && Now() == old(Now())
      ensures r.Hit? ==>
        && bufs[..] == old(bufs[..])[r.b := old(bufs[..])[r.b].(busy := true)]
        && holder == old(holder)[r.b := p]
      ensures r.Fresh? ==>
        && bufs[..] == old(bufs[..])[r.b := Buf(Key(dev, sector), true, false, false, old(bufs[..])[r.b].data)]
        && holder == old(holder)[r.b := p]
    {
      var key := Key(dev, sector);
      ghost var bs, c0 := bufs[..], Now();
      var b := Find(key);
      if b != HEAD {
        if bufs[b].busy {
          return Busy(b);
        }
        StepKeepsInv(c0, Take(p, key, b));
        bufs[b], holder := bufs[b].(busy := true), holder[b := p];
        assert bufs[..] == bs[b := bs[b].(busy := true)];
        return Hit(b);
      }
      b := Idle();
      if b == HEAD {
        return NoBuffers;
      }
      StepKeepsInv(c0, Take(p, key, b));
      bufs[b], holder := Buf(key, true, false, false, bufs[b].data), holder[b := p];
      assert bufs[..] == bs[b := Buf(key, true, false, false, bs[b].data)];
      return Fresh(b);
    }

    // The first loop of `bget`: the buffer that has the sector, HEAD if none has.
    method Find(key: Key) returns (b: nat)
      requires Listed() && bufs.Length == NBUF
      ensures b == HEAD <==> NobodyHas(bufs[..], key)
      ensures b != HEAD ==> b < NBUF && bufs[b].key == key
    {
      b := First();
      ghost var k := 0;
      while b != HEAD
        invariant 0 <= k <= NBUF && b == (if k < NBUF then order[k] else HEAD)
        invariant forall j | 0 <= j < k :: bufs[order[j]].key != key
        decreases NBUF - k
      {
        if bufs[b].key == key {
          return;
        }
        b := After(b, k);
        k := k + 1;
      }
      forall c: nat | c < NBUF ensures bufs[c].key != key {
        assert c in order;
        var j :| 0 <= j < NBUF && order[j] == c;
      }
    }

    // The second: from the end of the list, the first buffer that is not busy; HEAD if all are.
    method Idle() returns (b: nat)
      requires Listed() && bufs.Length == NBUF
      ensures b == HEAD <==> forall c | 0 <= c < NBUF :: bufs[c].busy
      ensures b != HEAD ==>
        && b < NBUF && !bufs[b].busy
        && forall c | 0 <= c < NBUF && !bufs[c].busy :: stamp[b] <= stamp[c]
    {
      b := Last();
      ghost var k := NBUF;
      while b != HEAD
        invariant 0 <= k <= NBUF && b == (if k > 0 then order[k - 1] else HEAD)
        invariant forall j | k <= j < NBUF :: bufs[order[j]].busy
        decreases k
      {
        if !bufs[b].busy {
          OldestIsLast(order, stamp, bufs[..], k - 1);
          return;
        }
        b := Before(b, k);
        k := k - 1;
      }
      forall c: nat | c < NBUF ensures bufs[c].busy {
        assert c in order;
        var j :| 0 <= j < NBUF && order[j] == c;
      }
    }

    method First() returns (b: nat)
      requires Listed()
      ensures b == order[0]
    {
      Follow(next[..], prev[..], order, HEAD, 0);
      b := next[HEAD];
    }

    method Last() returns (b: nat)
      requires Listed()
      ensures b == order[NBUF - 1]
    {
      Follow(next[..], prev[..], order, HEAD, 0);
      b := prev[HEAD];
    }

    method After(b: nat, ghost k: nat) returns (c: nat)
      requires Listed() && k < NBUF && b == order[k]
      ensures c == if k + 1 < NBUF then order[k + 1] else HEAD
    {
      Follow(next[..], prev[..], order, HEAD, k + 1);
      c := next[b];
    }

    method Before(b: nat, ghost k: nat) returns (c: nat)
      requires Listed() && 0 < k <= NBUF && b == order[k - 1]
      ensures c == if k > 1 then order[k - 2] else HEAD
    {
      Follow(next[..], prev[..], order, HEAD, k);
      c := prev[b];
    }

    /** `brelse`: the buffer moves to the front of the list and may be taken by others.  It must
        agree with the disk again: a changed buffer is written first. */
    method Brelse(p: Pid, b: nat)
      requires Valid() && Enabled(Now(), Release(p, b))
      modifies this`holder, this`order, this`stamp, this`clock, bufs, next, prev
      ensures Valid() && Now() == Apply(old(Now()), Release(p, b))
      ensures bufs[..] == old(bufs[..])[b := old(bufs[b]).(busy := false)] && holder == old(holder) - {b}
      ensures order[0] == b && multiset(order) == multiset(old(order))
      ensures stamp == old(stamp)[b := old(clock)] && clock == old(clock) + 1
    {
      StepKeepsInv(Now(), Release(p, b));
      ghost var bs := bufs[..];
      ToFront(b);
      bufs[b], holder := bufs[b].(busy := false), holder - {b};
      assert bufs[..] == bs[b := bs[b].(busy := false)];
    }

    // Buffer `b` goes to the front of the list.
    method ToFront(b: nat)
      requires Listed() && b < NBUF
      modifies this`order, this`stamp, this`clock, next, prev
      ensures Listed()
      ensures order[0] == b && multiset(order) == multiset(old(order))
      ensures stamp == old(stamp)[b := old(clock)] && clock == old(clock) + 1
    {
      assert b in order;
      ghost var k :| 0 <= k < NBUF && order[k] == b;
      ghost var nx: seq<nat>, pv: seq<nat> := next[..], prev[..];
      UnlinkKeepsLinks(nx, pv, order, HEAD, k);
      MoveToFront(order, stamp, clock, k);
      prev[next[b]] := prev[b];
      next[prev[b]] := next[b];
      assert next[..] == nx[pv[b] := nx[b]] && prev[..] == pv[nx[b] := pv[b]];
      order := Without(order, k);
      Push(b);
      stamp, clock := stamp[b := clock], clock + 1;
    }

    /** The user of a buffer changes its data. */
    method Change(p: Pid, b: nat, data: Data)
      requires Valid() && Enabled(Now(), Edit(p, b, data))
      modifies bufs, this`edited
      ensures Valid() && Now() == Apply(old(Now()), Edit(p, b, data))
      ensures bufs[..] == old(bufs[..])[b := old(bufs[b]).(data := data)] && edited == old(edited) + {b}
    {
      ghost var bs := bufs[..];
      StepKeepsInv(Now(), Edit(p, b, data));
      bufs[b] := bufs[b].(data := data);
      assert bufs[..] == bs[b := bs[b].(data := data)];
      edited := edited + {b};
    }

    /** `iderw` up to its sleep, with the dirty mark `bwrite` makes when `write` is set.  The
        kernel panics on a buffer that is valid and clean. */
    method Iderw(p: Pid, b: nat, write: bool)
      requires Valid() && Enabled(Now(), Request(p, b, write))
      modifies bufs, this`idequeue
      ensures Valid() && Now() == Apply(old(Now()), Request(p, b, write))
      ensures idequeue == old(idequeue) + [b]
      ensures bufs[..] == if write then old(bufs[..])[b := old(bufs[b]).(dirty := true)] else old(bufs[..])
    {
      ghost var bs := bufs[..];
      StepKeepsInv(Now(), Request(p, b, write));
      assert BufOk(bs, disk, idequeue, edited, b);
      if write {
        bufs[b] := bufs[b].(dirty := true);
      }
      assert bufs[..] == bs[b := bs[b].(dirty := write)];
      idequeue := idequeue + [b];
    }

    /** `ideintr`: the first request is done.  A write has reached the disk, a read has filled the
        buffer; either way the buffer agrees with the disk. */
    method Ideintr()
      requires Valid()
      modifies bufs, this`idequeue, this`disk, this`edited
      ensures Valid() && Now() == Apply(old(Now()), Interrupt)
      ensures old(idequeue) == [] ==> Now() == old(Now())
      ensures old(idequeue) != [] ==>
        var i := old(idequeue)[0];
        && i < NBUF && idequeue == old(idequeue)[1..] && disk.blank == old(disk).blank
        && var b := old(bufs[..])[i];
        if b.dirty then
          && bufs[..] == old(bufs[..])[i := b.(valid := true, dirty := false)]
          && disk.sectors == old(disk).sectors[b.key := b.data] && edited == old(edited) - {i}
        else
          && bufs[..] == old(bufs[..])[i := b.(valid := true, data :=
               if b.key in disk.sectors then disk.sectors[b.key] else disk.blank)]
          && disk == old(disk) && edited == old(edited)
    {
      StepKeepsInv(Now(), Interrupt);
      if idequeue == [] {
        return;
      }
      var b := idequeue[0];
      ghost var bs, d := bufs[..], disk;
      assert BufOk(bs, d, idequeue, edited, b);
      idequeue := idequeue[1..];
      if bufs[b].dirty {
        disk := disk.(sectors := disk.sectors[bufs[b].key := bufs[b].data]);
        edited := edited - {b};
      } else {
        bufs[b] := bufs[b].(data := disk.Read(bufs[b].key));
      }
      bufs[b] := bufs[b].(valid := true, dirty := false);
      assert bufs[..] == bs[b := Served(d, bs[b])];
    }

    // What another process or the disk does while `p` sleeps; a step that cannot be taken is skipped.
    method Elsewhere(p: Pid, s: Step)
      requires Valid()
      modifies this, bufs, next, prev
      ensures Valid()
      ensures Now() == old(Now()) ||
        exists t :: Enabled(old(Now()), t) && !By(t, p) && Now() == Apply(old(Now()), t)
    {
      if By(s, p) || (s.Take? && s.key.dev == NODEV) || (!s.Take? && !s.Interrupt? && s.b >= NBUF) {
        return;
      }
      match s
      case Take(q, key, _) =>
        var got := Bget(q, key.dev, key.sector);
        assert got.Hit? || got.Fresh? ==> Enabled(old(Now()), Take(q, key, got.b));
      case Edit(q, b, data) =>
        if b in holder && holder[b] == q && bufs[b].valid && b !in idequeue {
          Change(q, b, data);
          assert Enabled(old(Now()), s);
        }
      case Request(q, b, write) =>
        if b in holder && holder[b] == q && b !in idequeue && (write || !bufs[b].valid) {
          Iderw(q, b, write);
          assert Enabled(old(Now()), s);
        }
      case Interrupt =>
        Ideintr();
        assert Enabled(old(Now()), s);
      case Release(q, b) =>
        if b in holder && holder[b] == q && b !in idequeue && b !in edited {
          Brelse(q, b);
          assert Enabled(old(Now()), s);
        }
    }

    /** The rest of `iderw`: `p` sleeps until its request for `b` is done, while the disk and other
        processes take the steps `others`, and then the disk goes on. */
    method Await(p: Pid, b: nat, others: seq<Step>)
      requires Valid() && Holds(Now(), p, b) && b in idequeue
      modifies this, bufs, next, prev
      ensures Valid() && Holds(Now(), p, b) && b < NBUF && b !in idequeue && bufs[b].key == old(bufs[b].key)
      ensures bufs[b].valid && !bufs[b].dirty && bufs[b].data == disk.Read(bufs[b].key)
      ensures old(bufs[b].dirty) ==> bufs[b].data == old(bufs[b].data) && b !in edited
      ensures b in edited ==> b in old(edited)
      ensures others == [] && old(idequeue) == [b] ==> Now() == Apply(old(Now()), Interrupt)
    {
      var rest := others;
      while !(bufs[b].valid && !bufs[b].dirty)
        invariant Valid() && Awaiting(old(Now()), Now(), p, b) && (others == [] ==> rest == [])
        invariant others == [] && old(idequeue) == [b] ==>
          Now() == old(Now()) || Now() == Apply(old(Now()), Interrupt)
        decreases |rest|, |idequeue|
      {
        ghost var c := Now();
        if rest != [] {
          Elsewhere(p, rest[0]);
          rest := rest[1..];
          if Now() != c {
            ghost var t :| Enabled(c, t) && !By(t, p) && Now() == Apply(c, t);
            AwaitingStep(old(Now()), c, t, p, b);
          }
        } else {
          assert BufOk(c.bufs, c.disk, c.queue, c.edited, b);
          Ideintr();
          AwaitingStep(old(Now()), c, Interrupt, p, b);
        }
      }
      ghost var c := Now();
      assert BufOk(c.bufs, c.disk, c.queue, c.edited, b);
    }

    /** `bread`: the buffer returned is its caller's and holds what a read of the disk would give. */
    method Bread(p: Pid, dev: int, sector: nat, others: seq<Step>) returns (r: Got)
      requires Valid() && dev != NODEV
      modifies this, bufs, next, prev
      ensures Valid()
      ensures r.Hit? || r.Fresh? ==>
        && r.b < NBUF && Holds(Now(), p, r.b) && bufs[r.b].valid && bufs[r.b].key == Key(dev, sector)
        && bufs[r.b].data == disk.Read(Key(dev, sector)) && r.b !in idequeue && r.b !in edited
      ensures (r.Hit? || r.Fresh?) && others == [] && old(idequeue) == [] ==>
        && disk == old(disk) && idequeue == [] && edited == old(edited) && holder == old(holder)[r.b := p]
      ensures r.Busy? || r.NoBuffers? ==> Now() == old(Now())
      ensures old(Quiet(Now())) ==> r.Hit? || r.Fresh?
    {
      ghost var c := Now();
      NoneBusy(c);
      r := Bget(p, dev, sector);
      if r.Busy? || r.NoBuffers? {
        return;
      }
      assert BufOk(c.bufs, c.disk, c.queue, c.edited, r.b) && BufOk(bufs[..], disk, idequeue, edited, r.b);
      if !bufs[r.b].valid {
        Iderw(p, r.b, false);
        Await(p, r.b, others);
      }
    }

    /** `bwrite`: when it returns, the disk holds what the buffer held. */
    method Bwrite(p: Pid, b: nat, others: seq<Step>)
      requires Valid() && Holds(Now(), p, b) && b !in idequeue
      modifies this, bufs, next, prev
      ensures Valid() && Holds(Now(), p, b) && b < NBUF && b !in idequeue && b !in edited
      ensures bufs[b].key == old(bufs[b].key) && bufs[b].data == old(bufs[b].data) == disk.Read(bufs[b].key)
      ensures others == [] && old(idequeue) == [] ==>
        && disk == Disk(old(disk).sectors[bufs[b].key := bufs[b].data], old(disk).blank)
        && idequeue == [] && edited == old(edited) - {b} && holder == old(holder)
    {
      Iderw(p, b, true);
      Await(p, b, others);
    }
  }

  // `p` has waited for `b` since the cache was `c0`.
  ghost predicate Awaiting(c0: Cache, c: Cache, p: Pid, b: nat) {
    && Inv(c) && b < |c0.bufs| && b < |c.bufs|
    && Holds(c, p, b) && c.bufs[b].key == c0.bufs[b].key && (b in c.edited ==> b in c0.edited)
    && if b in c.queue then c.bufs[b] == c0.bufs[b]
       else
         && c.bufs[b].valid && !c.bufs[b].dirty && c.bufs[b].data == c.disk.Read(c.bufs[b].key)
         && (c0.bufs[b].dirty ==> c.bufs[b].data == c0.bufs[b].data && b !in c.edited)
  }

  lemma AwaitingStep(c0: Cache, c: Cache, s: Step, p: Pid, b: nat)
    requires Awaiting(c0, c, p, b) && Enabled(c, s) && !By(s, p)
    ensures Awaiting(c0, Apply(c, s), p, b)
  {
    OthersStep(c, s, p, b);
    StepKeepsInv(c, s);
  }

  lemma MoveToFront(order: seq<nat>, stamp: seq<nat>, clock: nat, k: nat)
    requires ByRelease(order, stamp) && k < NBUF && forall b | 0 <= b < NBUF :: stamp[b] < clock
    ensures ByRelease([order[k]] + Without(order, k), stamp[order[k] := clock])
    ensures order[k] !in Without(order, k)
    ensures multiset([order[k]] + Without(order, k)) == multiset(order)
  {
    var order', stamp' := [order[k]] + Without(order, k), stamp[order[k] := clock];
    forall i | 0 <= i < NBUF && i != k ensures order[i] != order[k] {
      assert if i < k then Later(order, stamp, i, k) else Later(order, stamp, k, i);
    }
    forall i, j | 0 <= i < j < NBUF ensures Later(order', stamp', i, j) {
      if i > 0 {
        assert Later(order, stamp, if i <= k then i - 1 else i, if j <= k then j - 1 else j);
      }
    }
    forall b: nat | b < NBUF ensures b in order' {
      assert b in order;
      var i :| 0 <= i < NBUF && order[i] == b;
      assert if i == k then order'[0] == b else order'[if i < k then i + 1 else i] == b;
    }
    FrontMultiset(order, k);
  }

  lemma FrontMultiset(order: seq<nat>, k: nat)
    requires k < |order|
    ensures multiset([order[k]] + Without(order, k)) == multiset(order)
  {
    assert order == order[..k] + [order[k]] + order[k + 1..];
  }

  // If everything behind position `k` is busy, position `k` has the oldest free buffer.
  lemma OldestIsLast(order: seq<nat>, stamp: seq<nat>, bufs: seq<Buf>, k: nat)
    requires ByRelease(order, stamp) && |bufs| == NBUF && k < NBUF
    requires forall j | k < j < NBUF :: bufs[order[j]].busy
    ensures forall c | 0 <= c < NBUF && !bufs[c].busy :: stamp[order[k]] <= stamp[c]
  {
    forall c: nat | c < NBUF && !bufs[c].busy ensures stamp[order[k]] <= stamp[c] {
      assert c in order;
      var j :| 0 <= j < NBUF && order[j] == c;
      assert j < k ==> Later(order, stamp, j, k);
    }
  }
}
