/** The file table and the descriptor slots of all processes: who refers to what. */
module FileTable {

  const NFILE: nat := 100
  const NOFILE: nat := 16
  const NPROC: nat := 64

  // What an open file stands for; `Unset` is FD_NONE.
  datatype Kind = Unset | PipeEnd(p: nat, writable: bool) | Inode(ip: nat)

  datatype File = File(kind: Kind, ref: nat, readable: bool, writable: bool)

  datatype Pipe = Pipe(readopen: bool, writeopen: bool)

  type Files = seq<File>
  type Pipes = map<nat, Pipe>

  // The descriptor slots of all processes; `-1` is an empty one.
  type Slots = seq<int>

  function Slot(pid: nat, fd: nat): nat { pid * NOFILE + fd }

  ghost predicate SlotsOk(slots: Slots) {
    |slots| == NPROC * NOFILE && forall i | 0 <= i < |slots| :: -1 <= slots[i] < NFILE
  }

  // Every slot that points at `f`, and every reference in hand, is counted.
  ghost predicate Counted(files: Files, slots: Slots, hold: multiset<int>, f: nat)
    requires f < |files|
  {
    files[f].ref == multiset(slots)[f] + hold[f]
  }

  ghost predicate IsEnd(files: Files, f: nat, p: nat, writable: bool) {
    f < |files| && files[f].kind == PipeEnd(p, writable)
  }

  function Open(pipe: Pipe, writable: bool): bool { if writable then pipe.writeopen else pipe.readopen }

  ghost predicate FileOk(files: Files, pipes: Pipes, f: nat)
    requires f < |files|
  {
    && (files[f].ref == 0 ==> files[f].kind == Unset)
    && (files[f].kind.PipeEnd? ==> files[f].kind.p in pipes && Open(pipes[files[f].kind.p], files[f].kind.writable))
  }

  ghost predicate PipeOk(files: Files, pipes: Pipes, p: nat)
    requires p in pipes
  {
    && (pipes[p].readopen || pipes[p].writeopen)
    && forall w: bool :: Open(pipes[p], w) ==> exists f: nat :: IsEnd(files, f, p, w)
  }

  /** Reference counts are exact, free files are unset, and a pipe end is open just when one file is it. */
  ghost predicate Inv(files: Files, slots: Slots, pipes: Pipes, hold: multiset<int>) {
    && |files| == NFILE && SlotsOk(slots)
    && (forall f: nat | f < NFILE :: Counted(files, slots, hold, f))
    && (forall f: nat | f < NFILE :: FileOk(files, pipes, f))
    && (forall p | p in pipes :: PipeOk(files, pipes, p))
    && (forall f: nat, g: nat, p: nat, w: bool | IsEnd(files, f, p, w) && IsEnd(files, g, p, w) :: f == g)
  }

  /** With no reference in hand, a pipe end is open exactly while some descriptor is on it. */
  lemma EndOpenIff(files: Files, slots: Slots, pipes: Pipes, p: nat, w: bool)
    requires Inv(files, slots, pipes, multiset{})
    ensures p in pipes && Open(pipes[p], w) <==> exists i: nat :: OnEnd(files, slots, i, p, w)
  {
    if p in pipes && Open(pipes[p], w) {
      assert PipeOk(files, pipes, p);
      var f: nat :| IsEnd(files, f, p, w);
      assert FileOk(files, pipes, f) && Counted(files, slots, multiset{}, f);
      assert f in multiset(slots);
      assert f in slots;
      var i :| 0 <= i < |slots| && slots[i] == f;
      assert OnEnd(files, slots, i, p, w);
    }
    if i: nat :| OnEnd(files, slots, i, p, w) {
      assert FileOk(files, pipes, slots[i]);
    }
  }

  /** The same for each of the two ends by name. */
  lemma EndsOpen(files: Files, slots: Slots, pipes: Pipes, p: nat)
    requires Inv(files, slots, pipes, multiset{})
    ensures p in pipes && pipes[p].writeopen <==>
      exists i: nat :: i < |slots| && 0 <= slots[i] < |files| && files[slots[i]].kind == PipeEnd(p, true)
    ensures p in pipes && pipes[p].readopen <==>
      exists i: nat :: i < |slots| && 0 <= slots[i] < |files| && files[slots[i]].kind == PipeEnd(p, false)
  {
    forall w: bool, i: nat ensures OnEnd(files, slots, i, p, w) <==>
      i < |slots| && 0 <= slots[i] < |files| && files[slots[i]].kind == PipeEnd(p, w)
    {
    }
    EndOpenIff(files, slots, pipes, p, true);
    EndOpenIff(files, slots, pipes, p, false);
  }

  // Slot `i` points at end `w` of pipe `p`.
  ghost predicate OnEnd(files: Files, slots: Slots, i: nat, p: nat, w: bool) {
    i < |slots| && 0 <= slots[i] && IsEnd(files, slots[i], p, w)
  }

  // A file with references is among the slots or in hand, and the other way round.
  lemma PointedAt(files: Files, slots: Slots, pipes: Pipes, hold: multiset<int>, i: nat)
    requires Inv(files, slots, pipes, hold) && i < |slots| && slots[i] >= 0
    ensures files[slots[i]].ref >= 1 + hold[slots[i]]
  {
    assert Counted(files, slots, hold, slots[i]);
    assert slots[i] in slots;
  }

  // ----- one change each

  // A free file is taken in hand.
  lemma FileTaken(files: Files, slots: Slots, pipes: Pipes, hold: multiset<int>, f: nat)
    requires Inv(files, slots, pipes, hold) && f < NFILE && files[f].ref == 0
    ensures files[f].kind == Unset && Inv(files[f := files[f].(ref := 1)], slots, pipes, hold + multiset{f})
  {
    assert FileOk(files, pipes, f) && Counted(files, slots, hold, f);
    RefChanged(files, slots, pipes, hold, slots, hold + multiset{f}, f, 1);
  }

  // The count of `f` changes, and with it the slots or the references in hand.
  lemma RefChanged(files: Files, slots: Slots, pipes: Pipes, hold: multiset<int>, slots': Slots, hold': multiset<int>,
                   f: nat, ref: nat)
    requires Inv(files, slots, pipes, hold) && f < NFILE && SlotsOk(slots')
    requires forall g: nat | g < NFILE && g != f :: multiset(slots')[g] + hold'[g] == multiset(slots)[g] + hold[g]
    requires ref == multiset(slots')[f] + hold'[f] && (ref == 0 ==> files[f].kind == Unset)
    ensures Inv(files[f := files[f].(ref := ref)], slots', pipes, hold')
  {
    var files' := files[f := files[f].(ref := ref)];
    assert FileOk(files, pipes, f);
    forall g: nat | g < NFILE ensures Counted(files', slots', hold', g) {
      assert Counted(files, slots, hold, g);
    }
    forall g: nat | g < NFILE ensures FileOk(files', pipes, g) { assert FileOk(files, pipes, g); }
    forall g: nat, p: nat, w: bool ensures IsEnd(files', g, p, w) <==> IsEnd(files, g, p, w) {}
    forall p | p in pipes ensures PipeOk(files', pipes, p) {
      assert PipeOk(files, pipes, p);
      forall w: bool | Open(pipes[p], w) ensures exists g: nat :: IsEnd(files', g, p, w) {
        var g: nat :| IsEnd(files, g, p, w);
        assert IsEnd(files', g, p, w);
      }
    }
  }

  /** What `pipeclose` leaves when the last reference to a file of kind `k` goes. */
  function Closed(pipes: Pipes, k: Kind): Pipes {
    if !k.PipeEnd? || k.p !in pipes then pipes
    else
      var pipe := if k.writable then pipes[k.p].(writeopen := false) else pipes[k.p].(readopen := false);
      if !pipe.readopen && !pipe.writeopen then pipes - {k.p} else pipes[k.p := pipe]
  }

  // The last reference to `f` goes.
  lemma FileFreed(files: Files, slots: Slots, pipes: Pipes, hold: multiset<int>, f: nat)
    requires Inv(files, slots, pipes, hold) && f < NFILE && hold[f] >= 1 && files[f].ref == 1
    ensures files[f].kind.PipeEnd? ==> files[f].kind.p in pipes
    ensures Inv(files[f := files[f].(kind := Unset, ref := 0)], slots, Closed(pipes, files[f].kind), hold - multiset{f})
  {
    var k := files[f].kind;
    assert FileOk(files, pipes, f);
    var pipes' := Closed(pipes, k);
    var files', hold' := files[f := files[f].(kind := Unset, ref := 0)], hold - multiset{f};
    forall g: nat | g < NFILE ensures Counted(files', slots, hold', g) { assert Counted(files, slots, hold, g); }
    forall g: nat, p: nat, w: bool ensures IsEnd(files', g, p, w) <==> IsEnd(files, g, p, w) && g != f {}
    forall g: nat | g < NFILE ensures FileOk(files', pipes', g) {
      assert FileOk(files, pipes, g);
      if g != f && files[g].kind.PipeEnd? {
        var q, w := files[g].kind.p, files[g].kind.writable;
        assert IsEnd(files, g, q, w) && (k.PipeEnd? ==> IsEnd(files, f, k.p, k.writable));
      }
    }
    forall p | p in pipes' ensures PipeOk(files', pipes', p) {
      assert PipeOk(files, pipes, p);
      forall w: bool | Open(pipes'[p], w) ensures exists g: nat :: IsEnd(files', g, p, w) {
        assert Open(pipes[p], w);
        var g: nat :| IsEnd(files, g, p, w);
        assert IsEnd(files', g, p, w);
      }
    }
  }

  // Two files in hand become the ends of a new pipe.
  lemma PipeMade(files: Files, slots: Slots, pipes: Pipes, hold: multiset<int>, r: nat, w: nat, p: nat)
    requires Inv(files, slots, pipes, hold) && r < NFILE && w < NFILE && r != w && p !in pipes
    requires files[r].kind == Unset && files[w].kind == Unset && files[r].ref > 0 && files[w].ref > 0
    ensures var files' := files[r := files[r].(kind := PipeEnd(p, false), readable := true, writable := false)];
            Inv(files'[w := files[w].(kind := PipeEnd(p, true), readable := false, writable := true)], slots,
                pipes[p := Pipe(true, true)], hold)
  {
    var files1 := files[r := files[r].(kind := PipeEnd(p, false), readable := true, writable := false)];
    var files' := files1[w := files[w].(kind := PipeEnd(p, true), readable := false, writable := true)];
    var pipes' := pipes[p := Pipe(true, true)];
    forall g: nat | g < NFILE ensures Counted(files', slots, hold, g) { assert Counted(files, slots, hold, g); }
    forall g: nat | g < NFILE ensures FileOk(files', pipes', g) { assert FileOk(files, pipes, g); }
    forall g: nat, q: nat, b: bool | IsEnd(files', g, q, b)
      ensures if q == p then g == (if b then w else r) else IsEnd(files, g, q, b)
    {
      if IsEnd(files, g, q, b) { assert FileOk(files, pipes, g); }
    }
    forall q | q in pipes' ensures PipeOk(files', pipes', q) {
      if q == p {
        assert IsEnd(files', r, p, false) && IsEnd(files', w, p, true);
      } else {
        assert PipeOk(files, pipes, q);
        forall b: bool | Open(pipes[q], b) ensures exists g: nat :: IsEnd(files', g, q, b) {
          var g: nat :| IsEnd(files, g, q, b);
          assert IsEnd(files', g, q, b);
        }
      }
    }
  }

  // A file becomes an inode's.
  lemma InodeSet(files: Files, slots: Slots, pipes: Pipes, hold: multiset<int>, f: nat, file: File)
    requires Inv(files, slots, pipes, hold) && f < NFILE && files[f].kind == Unset && files[f].ref > 0
    requires file.kind.Inode? && file.ref == files[f].ref
    ensures Inv(files[f := file], slots, pipes, hold)
  {
    var files' := files[f := file];
    forall g: nat | g < NFILE ensures Counted(files', slots, hold, g) { assert Counted(files, slots, hold, g); }
    forall g: nat | g < NFILE ensures FileOk(files', pipes, g) { assert FileOk(files, pipes, g); }
    forall g: nat, p: nat, w: bool ensures IsEnd(files', g, p, w) <==> IsEnd(files, g, p, w) {}
    forall p | p in pipes ensures PipeOk(files', pipes, p) {
      assert PipeOk(files, pipes, p);
      forall w: bool | Open(pipes[p], w) ensures exists g: nat :: IsEnd(files', g, p, w) {
        var g: nat :| IsEnd(files, g, p, w);
        assert IsEnd(files', g, p, w);
      }
    }
  }

  // A reference moves between a slot and the hand.
  lemma SlotMoved(files: Files, slots: Slots, pipes: Pipes, hold: multiset<int>, slots': Slots, hold': multiset<int>)
    requires Inv(files, slots, pipes, hold) && SlotsOk(slots')
    requires forall g: nat | g < NFILE :: multiset(slots')[g] + hold'[g] == multiset(slots)[g] + hold[g]
    ensures Inv(files, slots', pipes, hold')
  {
    forall g: nat | g < NFILE ensures Counted(files, slots', hold', g) { assert Counted(files, slots, hold, g); }
  }

  // What setting a slot does to the counts.
  lemma SlotCounts(slots: Slots, i: nat, x: int)
    requires i < |slots|
    ensures multiset(slots[i := x]) == multiset(slots) - multiset{slots[i]} + multiset{x}
    ensures multiset(slots)[slots[i]] >= 1
  {
    assert slots == slots[..i] + [slots[i]] + slots[i + 1..];
    assert slots[i := x] == slots[..i] + [x] + slots[i + 1..];
    assert slots[i] in slots;
  }

  // A slot that points at a file is emptied, and the reference taken in hand.
  lemma Emptied(files: Files, slots: Slots, pipes: Pipes, hold: multiset<int>, i: nat)
    requires Inv(files, slots, pipes, hold) && i < |slots| && slots[i] != -1
    ensures Inv(files, slots[i := -1], pipes, hold + multiset{slots[i]})
  {
    SlotCounts(slots, i, -1);
    SlotMoved(files, slots, pipes, hold, slots[i := -1], hold + multiset{slots[i]});
  }

  // A reference in hand goes into an empty slot.
  lemma Filled(files: Files, slots: Slots, pipes: Pipes, hold: multiset<int>, i: nat, f: nat)
    requires Inv(files, slots, pipes, hold) && i < |slots| && slots[i] == -1 && hold[f] >= 1 && f < NFILE
    ensures Inv(files, slots[i := f], pipes, hold - multiset{f})
  {
    SlotCounts(slots, i, f);
    SlotMoved(files, slots, pipes, hold, slots[i := f], hold - multiset{f});
  }

  // An empty slot joins those of a file in use.
  lemma Shared(files: Files, slots: Slots, pipes: Pipes, hold: multiset<int>, i: nat, f: nat)
    requires Inv(files, slots, pipes, hold) && i < |slots| && slots[i] == -1 && f < NFILE && files[f].ref >= 1
    ensures Inv(files[f := files[f].(ref := files[f].ref + 1)], slots[i := f], pipes, hold)
  {
    SlotCounts(slots, i, f);
    assert Counted(files, slots, hold, f);
    RefChanged(files, slots, pipes, hold, slots[i := f], hold, f, files[f].ref + 1);
  }

  // ----- what there is to take

  ghost predicate FreeFile(files: Files, f: nat) { f < |files| && files[f].ref == 0 }

  ghost predicate OneFile(files: Files) { exists f: nat :: FreeFile(files, f) }

  ghost predicate TwoFiles(files: Files) { exists f: nat, g: nat :: f != g && FreeFile(files, f) && FreeFile(files, g) }

  ghost predicate FreeSlot(slots: Slots, pid: nat, fd: nat) {
    fd < NOFILE && Slot(pid, fd) < |slots| && slots[Slot(pid, fd)] == -1
  }

  ghost predicate OneSlot(slots: Slots, pid: nat) { exists fd: nat :: FreeSlot(slots, pid, fd) }

  ghost predicate TwoSlots(slots: Slots, pid: nat) {
    exists fd: nat, gd: nat :: fd != gd && FreeSlot(slots, pid, fd) && FreeSlot(slots, pid, gd)
  }

  // No second file is free once `f` is taken.
  lemma NoSecondFile(files: Files, f: nat)
    requires forall g: nat | g < |files| && g != f :: files[g].ref > 0
    ensures !TwoFiles(files)
  {
    assert forall g: nat | FreeFile(files, g) :: g == f;
  }

  lemma NoSecondSlot(slots: Slots, pid: nat, fd: nat)
    requires forall gd: nat | gd < NOFILE && gd != fd :: !FreeSlot(slots, pid, gd)
    ensures !TwoSlots(slots, pid)
  {
    assert forall gd: nat | FreeSlot(slots, pid, gd) :: gd == fd;
  }

  // The same but for the flags of files that nothing refers to.
  ghost predicate SameFiles(a: Files, b: Files) {
    |a| == |b| &&
    forall f: nat | f < |a| :: b[f].kind == a[f].kind && b[f].ref == a[f].ref && (a[f].ref > 0 ==> b[f] == a[f])
  }
}
