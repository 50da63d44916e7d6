/** The buffer cache as a state that processes change one lock section at a time: who has which buffer,
    what waits for the disk, and what the disk holds. */
module BioSpec {
  import opened Common

  const NBUF: nat := 10
  const HEAD: nat := 10
  const NODEV := -1

  type Data = seq<int>
  type Pid = nat
  datatype Key = Key(dev: int, sector: nat)
  datatype Buf = Buf(key: Key, busy: bool, valid: bool, dirty: bool, data: Data)

  // What the disk holds; sectors never written read as `blank`.
  datatype Disk = Disk(sectors: map<Key, Data>, blank: Data) {
    function Read(k: Key): Data { if k in sectors then sectors[k] else blank }
  }

  // `edited` are the buffers whose data their user changed since it last agreed with the disk.
  ghost predicate BufOk(bufs: seq<Buf>, disk: Disk, queue: seq<nat>, edited: set<nat>, i: nat)
    requires i < |bufs|
  {
    var b := bufs[i];
    && (b.valid && i !in edited ==> b.data == disk.Read(b.key))
    && (!b.busy ==> !b.dirty && i !in queue && i !in edited)
    && (i in queue ==> b.dirty || !b.valid)
    && (b.dirty ==> i in queue)
    && (b.key.dev == NODEV ==> !b.busy && !b.valid)
  }

  ghost predicate KeysDiffer(bufs: seq<Buf>, i: nat, j: nat)
    requires i < |bufs| && j < |bufs|
  {
    i != j && bufs[i].key.dev != NODEV ==> bufs[i].key != bufs[j].key
  }

  ghost predicate Coherent(bufs: seq<Buf>, disk: Disk, queue: seq<nat>, edited: set<nat>) {
    && |bufs| == NBUF
    && (forall i: nat | i < NBUF :: BufOk(bufs, disk, queue, edited, i))
    && (forall i: nat, j: nat | i < NBUF && j < NBUF :: KeysDiffer(bufs, i, j))
    && (forall i | 0 <= i < |queue| :: queue[i] < NBUF)
    && Distinct(queue)
  }

  // ----- what each section does to coherence

  // A buffer other than `i` is as it was, and so is what it needs.
  lemma ChangeOne(bufs: seq<Buf>, bufs': seq<Buf>, disk: Disk, disk': Disk, queue: seq<nat>,
                  queue': seq<nat>, edited: set<nat>, edited': set<nat>, i: nat)
    requires Coherent(bufs, disk, queue, edited) && i < NBUF
    requires |bufs'| == NBUF && forall j: nat | j < NBUF && j != i :: bufs'[j] == bufs[j]
    requires forall k: Key | k != bufs[i].key :: disk'.Read(k) == disk.Read(k)
    requires bufs'[i].key == bufs[i].key || disk' == disk
    requires forall j: nat | j != i :: (j in queue' <==> j in queue) && (j in edited' <==> j in edited)
    requires BufOk(bufs', disk', queue', edited', i)
    requires bufs[i].key.dev != NODEV || disk' == disk
    requires forall j: nat | j < NBUF && j != i :: bufs[j].key != bufs'[i].key || bufs'[i].key.dev == NODEV
    requires Distinct(queue') && forall k | 0 <= k < |queue'| :: queue'[k] < NBUF
    ensures Coherent(bufs', disk', queue', edited')
  {
    forall j: nat | j < NBUF ensures BufOk(bufs', disk', queue', edited', j) {
      if j != i {
        assert BufOk(bufs, disk, queue, edited, j) && KeysDiffer(bufs, i, j);
      }
    }
    forall j: nat, k: nat | j < NBUF && k < NBUF ensures KeysDiffer(bufs', j, k) {
      assert KeysDiffer(bufs, j, k);
    }
  }

  lemma OthersHaveOtherKeys(bufs: seq<Buf>, disk: Disk, queue: seq<nat>, edited: set<nat>, b: nat)
    requires Coherent(bufs, disk, queue, edited) && b < NBUF && bufs[b].busy
    ensures bufs[b].key.dev != NODEV
    ensures forall j: nat | j < NBUF && j != b :: bufs[j].key != bufs[b].key
  {
    assert BufOk(bufs, disk, queue, edited, b);
    forall j: nat | j < NBUF && j != b ensures bufs[j].key != bufs[b].key { assert KeysDiffer(bufs, b, j); }
  }

  lemma DistinctAppend(q: seq<nat>, b: nat)
    requires Distinct(q) && b !in q
    ensures Distinct(q + [b])
  {
    forall i, j | 0 <= i < j < |q| + 1 ensures Differ(q + [b], i, j) {
      assert j < |q| ==> Differ(q, i, j);
    }
  }

  lemma DistinctTail(q: seq<nat>)
    requires Distinct(q) && q != []
    ensures Distinct(q[1..]) && q[0] !in q[1..]
  {
    forall i, j | 0 <= i < j < |q| - 1 ensures Differ(q[1..], i, j) {
      assert Differ(q, i + 1, j + 1);
    }
    forall j | 1 <= j < |q| ensures q[j] != q[0] {
      assert Differ(q, 0, j);
    }
  }

  lemma Freed(bufs: seq<Buf>, disk: Disk, queue: seq<nat>, edited: set<nat>, b: nat)
    requires Coherent(bufs, disk, queue, edited) && b < NBUF && bufs[b].busy
    requires b !in queue && b !in edited
    ensures Coherent(bufs[b := bufs[b].(busy := false)], disk, queue, edited)
  {
    OthersHaveOtherKeys(bufs, disk, queue, edited, b);
    assert BufOk(bufs, disk, queue, edited, b);
    ChangeOne(bufs, bufs[b := bufs[b].(busy := false)], disk, disk, queue, queue, edited, edited, b);
  }

  predicate NobodyHas(bufs: seq<Buf>, key: Key) {
    forall c | 0 <= c < |bufs| :: bufs[c].key != key
  }

  lemma TakeHit(bufs: seq<Buf>, disk: Disk, queue: seq<nat>, edited: set<nat>, b: nat)
    requires Coherent(bufs, disk, queue, edited) && b < NBUF && bufs[b].key.dev != NODEV
    ensures Coherent(bufs[b := bufs[b].(busy := true)], disk, queue, edited)
  {
    assert BufOk(bufs, disk, queue, edited, b);
    forall j: nat | j < NBUF && j != b ensures bufs[j].key != bufs[b].key { assert KeysDiffer(bufs, b, j); }
    ChangeOne(bufs, bufs[b := bufs[b].(busy := true)], disk, disk, queue, queue, edited, edited, b);
  }

  lemma TakeFresh(bufs: seq<Buf>, disk: Disk, queue: seq<nat>, edited: set<nat>, b: nat, key: Key)
    requires Coherent(bufs, disk, queue, edited) && b < NBUF && !bufs[b].busy
    requires NobodyHas(bufs, key) && key.dev != NODEV
    ensures Coherent(bufs[b := Buf(key, true, false, false, bufs[b].data)], disk, queue, edited)
  {
    assert BufOk(bufs, disk, queue, edited, b);
    var bufs' := bufs[b := Buf(key, true, false, false, bufs[b].data)];
    forall j: nat | j < NBUF ensures BufOk(bufs', disk, queue, edited, j) {
      assert BufOk(bufs, disk, queue, edited, j);
    }
    forall j: nat, k: nat | j < NBUF && k < NBUF ensures KeysDiffer(bufs', j, k) {
      assert KeysDiffer(bufs, j, k);
    }
  }

  // ----- steps

  // `holder` has the process that each busy buffer belongs to.
  datatype Cache = Cache(bufs: seq<Buf>, disk: Disk, queue: seq<nat>, edited: set<nat>, holder: map<nat, Pid>)

  predicate Holds(c: Cache, p: Pid, b: nat) { b in c.holder && c.holder[b] == p }

  datatype Step =
    | Take(p: Pid, key: Key, b: nat)           // `bget` finds or picks buffer b
    | Edit(p: Pid, b: nat, data: Data)
    | Request(p: Pid, b: nat, write: bool)     // `iderw` up to its sleep
    | Interrupt                                // `ideintr`
    | Release(p: Pid, b: nat)                  // `brelse`

  predicate By(s: Step, p: Pid) { !s.Interrupt? && s.p == p }

  // A process edits, requests and releases what it has got, and releases nothing it has changed and not
  // written.
  predicate Enabled(c: Cache, s: Step)
    requires |c.bufs| == NBUF
  {
    match s
    case Take(p, key, b) =>
      b < NBUF && key.dev != NODEV && !c.bufs[b].busy && (c.bufs[b].key == key || NobodyHas(c.bufs, key))
    case Edit(p, b, _) => b < NBUF && Holds(c, p, b) && c.bufs[b].valid && b !in c.queue
    case Request(p, b, write) => b < NBUF && Holds(c, p, b) && b !in c.queue && (write || !c.bufs[b].valid)
    case Interrupt => true
    case Release(p, b) => b < NBUF && Holds(c, p, b) && b !in c.queue && b !in c.edited
  }

  function Taken(x: Buf, key: Key): Buf {
    if x.key == key then x.(busy := true) else Buf(key, true, false, false, x.data)
  }

  // A write reaches the disk, a read fills the buffer.
  function Stored(disk: Disk, x: Buf): Disk {
    if x.dirty then Disk(disk.sectors[x.key := x.data], disk.blank) else disk
  }

  function Served(disk: Disk, x: Buf): Buf {
    x.(valid := true, dirty := false, data := Stored(disk, x).Read(x.key))
  }

  function Apply(c: Cache, s: Step): Cache
    requires Inv(c) && Enabled(c, s)
  {
    match s
    case Take(p, key, b) => c.(bufs := c.bufs[b := Taken(c.bufs[b], key)], holder := c.holder[b := p])
    case Edit(_, b, data) => c.(bufs := c.bufs[b := c.bufs[b].(data := data)], edited := c.edited + {b})
    case Request(_, b, write) => c.(bufs := c.bufs[b := c.bufs[b].(dirty := write)], queue := c.queue + [b])
    case Interrupt =>
      if c.queue == [] then c
      else
        var b := c.queue[0];
        c.(bufs := c.bufs[b := Served(c.disk, c.bufs[b])], disk := Stored(c.disk, c.bufs[b]), queue := c.queue[1..],
           edited := if c.bufs[b].dirty then c.edited - {b} else c.edited)
    case Release(_, b) => c.(bufs := c.bufs[b := c.bufs[b].(busy := false)], holder := c.holder - {b})
  }

  ghost predicate Inv(c: Cache) {
    && Coherent(c.bufs, c.disk, c.queue, c.edited)
    && (forall b | b in c.holder :: b < NBUF && c.bufs[b].busy)
    && (forall b: nat | b < NBUF && c.bufs[b].busy :: b in c.holder)
  }

  // Nobody is using the cache.
  ghost predicate Quiet(c: Cache) { c.queue == [] && c.edited == {} && c.holder == map[] }

  lemma NoneBusy(c: Cache)
    requires Inv(c)
    ensures Quiet(c) ==> !c.bufs[0].busy && forall b: nat | b < NBUF :: !c.bufs[b].busy
  {
  }

  /** Every section of every process keeps the cache coherent. */
  lemma StepKeepsInv(c: Cache, s: Step)
    requires Inv(c) && Enabled(c, s)
    ensures Inv(Apply(c, s))
  {
    match s
    case Take(p, key, b) =>
      if c.bufs[b].key == key {
        TakeHit(c.bufs, c.disk, c.queue, c.edited, b);
      } else {
        TakeFresh(c.bufs, c.disk, c.queue, c.edited, b, key);
      }
    case Edit(p, b, data) => EditKeeps(c, b, data);
    case Request(p, b, write) => RequestKeeps(c, b, write);
    case Interrupt => if c.queue != [] { InterruptKeeps(c); }
    case Release(p, b) => Freed(c.bufs, c.disk, c.queue, c.edited, b);
  }

  lemma EditKeeps(c: Cache, b: nat, data: Data)
    requires Inv(c) && b < NBUF && b in c.holder && c.bufs[b].valid && b !in c.queue
    ensures Coherent(c.bufs[b := c.bufs[b].(data := data)], c.disk, c.queue, c.edited + {b})
  {
    assert BufOk(c.bufs, c.disk, c.queue, c.edited, b);
    OthersHaveOtherKeys(c.bufs, c.disk, c.queue, c.edited, b);
    ChangeOne(c.bufs, c.bufs[b := c.bufs[b].(data := data)], c.disk, c.disk, c.queue, c.queue, c.edited,
              c.edited + {b}, b);
  }

  lemma RequestKeeps(c: Cache, b: nat, write: bool)
    requires Inv(c) && b < NBUF && b in c.holder && b !in c.queue && (write || !c.bufs[b].valid)
    ensures Coherent(c.bufs[b := c.bufs[b].(dirty := write)], c.disk, c.queue + [b], c.edited)
  {
    assert BufOk(c.bufs, c.disk, c.queue, c.edited, b);
    OthersHaveOtherKeys(c.bufs, c.disk, c.queue, c.edited, b);
    DistinctAppend(c.queue, b);
    ChangeOne(c.bufs, c.bufs[b := c.bufs[b].(dirty := write)], c.disk, c.disk, c.queue, c.queue + [b], c.edited,
              c.edited, b);
  }

  lemma InterruptKeeps(c: Cache)
    requires Inv(c) && c.queue != []
    ensures Inv(Apply(c, Interrupt))
  {
    var b, c' := c.queue[0], Apply(c, Interrupt);
    assert BufOk(c.bufs, c.disk, c.queue, c.edited, b);
    OthersHaveOtherKeys(c.bufs, c.disk, c.queue, c.edited, b);
    DistinctTail(c.queue);
    ChangeOne(c.bufs, c'.bufs, c.disk, c'.disk, c.queue, c'.queue, c.edited, c'.edited, b);
  }

  // ----- what a process that has a buffer can rely on

  // The interrupt that serves the request for `b`.
  predicate Serves(c: Cache, s: Step, b: nat) { s.Interrupt? && c.queue != [] && c.queue[0] == b }

  /** A step of somebody else leaves the buffer to its holder, with its sector; apart from the interrupt
      that serves it, it does not touch the buffer, nor what the disk holds for it. */
  lemma OthersStep(c: Cache, s: Step, p: Pid, b: nat)
    requires Inv(c) && Enabled(c, s) && Holds(c, p, b) && !By(s, p)
    ensures var c' := Apply(c, s);
            && Holds(c', p, b) && b < NBUF && c'.bufs[b].key == c.bufs[b].key
            && if Serves(c, s, b) then
                 && c'.bufs[b] == Served(c.disk, c.bufs[b]) && b !in c'.queue
                 && c'.bufs[b].data == c'.disk.Read(c.bufs[b].key)
                 && (c.bufs[b].dirty ==> c'.bufs[b].data == c.bufs[b].data && b !in c'.edited)
                 && (b in c'.edited ==> b in c.edited)
               else
                 && c'.bufs[b] == c.bufs[b] && c'.disk.Read(c.bufs[b].key) == c.disk.Read(c.bufs[b].key)
                 && (b in c'.queue <==> b in c.queue) && (b in c'.edited <==> b in c.edited)
  {
    if s.Interrupt? && c.queue != [] {
      var h := c.queue[0];
      assert BufOk(c.bufs, c.disk, c.queue, c.edited, h);
      OthersHaveOtherKeys(c.bufs, c.disk, c.queue, c.edited, b);
      DistinctTail(c.queue);
      assert c.queue == [h] + c.queue[1..];
    }
  }

  ghost predicate Run(run: seq<Cache>, steps: seq<Step>) {
    && |run| == |steps| + 1 && Inv(run[0])
    && forall k: nat | k < |steps| :: StepAt(run, steps, k)
  }

  ghost predicate StepAt(run: seq<Cache>, steps: seq<Step>, k: nat)
    requires k < |steps| && k + 1 < |run|
  {
    Inv(run[k]) ==> Enabled(run[k], steps[k]) && run[k + 1] == Apply(run[k], steps[k])
  }

  lemma {:induction false} RunKeepsInv(run: seq<Cache>, steps: seq<Step>, k: nat)
    requires Run(run, steps) && k < |run|
    ensures Inv(run[k])
  {
    if k > 0 {
      RunKeepsInv(run, steps, k - 1);
      assert StepAt(run, steps, k - 1);
      StepKeepsInv(run[k - 1], steps[k - 1]);
    }
  }

  // Between n and m process `p` does not release `b`.
  ghost predicate Kept(steps: seq<Step>, p: Pid, b: nat, n: nat, m: nat)
    requires m <= |steps|
  {
    forall k: nat | n <= k < m :: steps[k] != Release(p, b)
  }

  // Nor does it edit it or ask for it again.
  ghost predicate Idle(steps: seq<Step>, p: Pid, b: nat, n: nat, m: nat)
    requires m <= |steps|
  {
    forall k: nat | n <= k < m :: !Touches(steps[k], p, b)
  }

  predicate Touches(s: Step, p: Pid, b: nat) { !s.Interrupt? && s.p == p && s.b == b }

  // What a step of anyone leaves of a buffer that its holder does not touch with it.
  lemma UntouchedStep(c: Cache, s: Step, p: Pid, b: nat)
    requires Inv(c) && Enabled(c, s) && Holds(c, p, b) && !Touches(s, p, b)
    ensures var c' := Apply(c, s);
            && Holds(c', p, b) && b < NBUF && c'.bufs[b].key == c.bufs[b].key
            && (!Serves(c, s, b) ==>
                  && c'.bufs[b] == c.bufs[b] && c'.disk.Read(c.bufs[b].key) == c.disk.Read(c.bufs[b].key)
                  && (b in c'.queue <==> b in c.queue) && (b in c'.edited <==> b in c.edited))
            && (Serves(c, s, b) ==>
                  && b !in c'.queue && c'.bufs[b].valid && !c'.bufs[b].dirty
                  && c'.bufs[b].data == c'.disk.Read(c.bufs[b].key)
                  && (c.bufs[b].dirty ==> c'.bufs[b].data == c.bufs[b].data && b !in c'.edited))
  {
    if !By(s, p) {
      OthersStep(c, s, p, b);
    }
  }

  /** From getting a buffer to releasing it, over any interleaving, a process has it, for the same sector;
      whenever it is valid and not edited since it agreed with the disk, it holds what the disk holds;
      and no other buffer stands for the sector. */
  lemma {:induction false} HeldThroughout(run: seq<Cache>, steps: seq<Step>, p: Pid, b: nat, n: nat, m: nat)
    requires Run(run, steps) && n <= m < |run| && Holds(run[n], p, b) && Kept(steps, p, b, n, m)
    ensures Inv(run[n]) && Inv(run[m])
    ensures Holds(run[m], p, b) && b < NBUF && run[m].bufs[b].key == run[n].bufs[b].key
    ensures run[m].bufs[b].valid && b !in run[m].edited ==>
      run[m].bufs[b].data == run[m].disk.Read(run[n].bufs[b].key)
    ensures forall c: nat | c < NBUF && run[m].bufs[c].key == run[n].bufs[b].key :: c == b
  {
    RunKeepsInv(run, steps, n);
    RunKeepsInv(run, steps, m);
    if n < m {
      HeldThroughout(run, steps, p, b, n, m - 1);
      assert StepAt(run, steps, m - 1);
      if !Touches(steps[m - 1], p, b) {
        UntouchedStep(run[m - 1], steps[m - 1], p, b);
      }
    }
    var c := run[m];
    assert BufOk(c.bufs, c.disk, c.queue, c.edited, b);
    OthersHaveOtherKeys(c.bufs, c.disk, c.queue, c.edited, b);
  }

  /** While its holder leaves it alone and nothing is asked of the disk for it, a buffer does not change at
      all, whatever other processes and the disk do, and neither does its sector. */
  lemma {:induction false} NobodyElseChanges(run: seq<Cache>, steps: seq<Step>, p: Pid, b: nat, n: nat, m: nat)
    requires Run(run, steps) && n <= m < |run| && Holds(run[n], p, b) && Idle(steps, p, b, n, m)
    requires b !in run[n].queue
    ensures Holds(run[m], p, b) && b < |run[n].bufs| && b < |run[m].bufs| && run[m].bufs[b] == run[n].bufs[b]
    ensures b !in run[m].queue && (b in run[m].edited <==> b in run[n].edited)
    ensures run[m].disk.Read(run[n].bufs[b].key) == run[n].disk.Read(run[n].bufs[b].key)
  {
    RunKeepsInv(run, steps, n);
    if n < m {
      NobodyElseChanges(run, steps, p, b, n, m - 1);
      RunKeepsInv(run, steps, m - 1);
      assert StepAt(run, steps, m - 1);
      UntouchedStep(run[m - 1], steps[m - 1], p, b);
    }
  }

  /** Once a request is served the buffer is valid, clean and what the disk holds; a write has left its
      data as they were. */
  lemma {:induction false} ServedIsDisk(run: seq<Cache>, steps: seq<Step>, p: Pid, b: nat, n: nat, m: nat)
    requires Run(run, steps) && n <= m < |run| && Holds(run[n], p, b) && Idle(steps, p, b, n, m)
    requires b in run[n].queue
    ensures Inv(run[n]) && Inv(run[m]) && b < NBUF && Holds(run[m], p, b)
    ensures b in run[m].queue ==> run[m].bufs[b] == run[n].bufs[b]
    ensures b !in run[m].queue ==>
      && run[m].bufs[b].valid && !run[m].bufs[b].dirty
      && run[m].bufs[b].data == run[m].disk.Read(run[n].bufs[b].key) && run[m].bufs[b].key == run[n].bufs[b].key
      && (run[n].bufs[b].dirty ==> run[m].bufs[b].data == run[n].bufs[b].data && b !in run[m].edited)
  {
    RunKeepsInv(run, steps, n);
    RunKeepsInv(run, steps, m);
    if n < m {
      ServedIsDisk(run, steps, p, b, n, m - 1);
      assert StepAt(run, steps, m - 1);
      UntouchedStep(run[m - 1], steps[m - 1], p, b);
    }
  }
}
