/** Descriptors: `filealloc`, `filedup`, `fileclose`, and the calls that hand descriptors out and
    take them back. */
module Descriptors {
  import opened FileTable

  class Kernel {
    var files: Files
    var slots: Slots
    var pipes: Pipes

    // `hold` are the references that a call in progress has in hand.
    ghost predicate Valid(hold: multiset<int>)
      reads this
    {
      Inv(files, slots, pipes, hold)
    }

    /** At boot no file is in use. */
    constructor ()
      ensures Valid(multiset{})
      ensures (forall i | 0 <= i < |slots| :: slots[i] == -1) && pipes == map[]
    {
      files := seq(NFILE, _ => File(Unset, 0, false, false));
      slots := seq(NPROC * NOFILE, _ => -1);
      pipes := map[];
      new;
      forall f: nat | f < NFILE ensures Counted(files, slots, multiset{}, f) {
        assert f !in slots;
      }
    }

    /** `filealloc`: the first file without references, or -1. */
    method Filealloc(ghost hold: multiset<int>) returns (f: int)
      requires Valid(hold)
      modifies this`files
      ensures f == -1 <==> forall g: nat | g < NFILE :: old(files)[g].ref > 0
      ensures f == -1 ==> files == old(files) && Valid(hold)
      ensures f != -1 ==>
        && 0 <= f < NFILE && old(files)[f].ref == 0 && files == old(files)[f := old(files)[f].(ref := 1)]
        && files[f].kind == Unset && Valid(hold + multiset{f})
    {
      f := 0;
      while f < NFILE
        invariant 0 <= f <= NFILE && forall g | 0 <= g < f :: files[g].ref > 0
        invariant files == old(files)
      {
        if files[f].ref == 0 {
          FileTaken(files, slots, pipes, hold, f);
          files := files[f := files[f].(ref := 1)];
          return;
        }
        f := f + 1;
      }
      return -1;
    }

    // `filedup`, of a file some slot or call refers to.
    method Filedup(f: int)
      requires 0 <= f < |files| && files[f].ref >= 1
      modifies this`files
      ensures files == old(files)[f := old(files)[f].(ref := old(files)[f].ref + 1)]
    {
      files := files[f := files[f].(ref := files[f].ref + 1)];
    }

    /** `fileclose`: the last reference unsets the file and closes its end of a pipe; a pipe with no
        open end is freed. */
    method Fileclose(f: int, ghost view: Slots, ghost hold: multiset<int>)
      requires Inv(files, view, pipes, hold) && 0 <= f < NFILE && hold[f] >= 1
      modifies this`files, this`pipes
      ensures Inv(files, view, pipes, hold - multiset{f})
      ensures files == if old(files)[f].ref > 1
                       then old(files)[f := old(files)[f].(ref := old(files)[f].ref - 1)]
                       else old(files)[f := old(files)[f].(kind := Unset, ref := 0)]
      ensures pipes == if old(files)[f].ref > 1 then old(pipes) else Closed(old(pipes), old(files)[f].kind)
    {
      assert Counted(files, view, hold, f);
      if files[f].ref > 1 {
        RefChanged(files, view, pipes, hold, view, hold - multiset{f}, f, files[f].ref - 1);
        files := files[f := files[f].(ref := files[f].ref - 1)];
        return;
      }
      FileFreed(files, view, pipes, hold, f);
      var ff := files[f];
      files := files[f := ff.(kind := Unset, ref := 0)];
      if ff.kind.PipeEnd? {
        PipeClose(ff.kind.p, ff.kind.writable);
      }
    }

    // `pipeclose`, as far as the ends go.
    method PipeClose(p: nat, writable: bool)
      requires p in pipes
      modifies this`pipes
      ensures pipes == Closed(old(pipes), PipeEnd(p, writable))
      ensures pipes ==
        if (writable && !old(pipes)[p].readopen) || (!writable && !old(pipes)[p].writeopen) then old(pipes) - {p}
        else if writable then old(pipes)[p := Pipe(old(pipes)[p].readopen, false)]
        else old(pipes)[p := Pipe(false, old(pipes)[p].writeopen)]
    {
      if writable {
        pipes := pipes[p := pipes[p].(writeopen := false)];
      } else {
        pipes := pipes[p := pipes[p].(readopen := false)];
      }
      if !pipes[p].readopen && !pipes[p].writeopen {
        pipes := pipes - {p};
      }
    }

    /** `fdalloc`: the first empty slot of the process, or -1. */
    method Fdalloc(pid: nat, f: int) returns (fd: int)
      requires SlotsOk(slots) && pid < NPROC && 0 <= f < NFILE
      modifies this`slots
      ensures SlotsOk(slots)
      ensures fd == -1 ==> slots == old(slots)
      ensures fd == -1 <==> forall k: nat | k < NOFILE :: old(slots)[Slot(pid, k)] != -1
      ensures fd != -1 ==>
        && 0 <= fd < NOFILE && old(slots)[Slot(pid, fd)] == -1
        && (forall k: nat | k < fd :: old(slots)[Slot(pid, k)] != -1)
        && slots == old(slots)[Slot(pid, fd) := f]
    {
      fd := 0;
      while fd < NOFILE
        invariant 0 <= fd <= NOFILE && slots == old(slots)
        invariant forall k: nat | k < fd :: slots[Slot(pid, k)] != -1
      {
        if slots[Slot(pid, fd)] == -1 {
          slots := slots[Slot(pid, fd) := f];
          return;
        }
        fd := fd + 1;
      }
      return -1;
    }

    // `argfd`: the file of a descriptor, or -1.
    method ArgFd(pid: nat, fd: int) returns (f: int)
      requires SlotsOk(slots) && pid < NPROC
      ensures f == if 0 <= fd < NOFILE then slots[Slot(pid, fd)] else -1
    {
      if fd < 0 || fd >= NOFILE {
        return -1;
      }
      return slots[Slot(pid, fd)];
    }

    /** `dup`: the slot is filled before the count follows. */
    method Dup(pid: nat, fd: int) returns (r: int)
      requires Valid(multiset{}) && pid < NPROC
      modifies this`files, this`slots
      ensures Valid(multiset{})
      ensures r == -1 <==>
        fd < 0 || fd >= NOFILE || old(slots)[Slot(pid, fd)] == -1 || !OneSlot(old(slots), pid)
      ensures r == -1 ==> files == old(files) && slots == old(slots)
      ensures r != -1 ==>
        && 0 <= fd < NOFILE && 0 <= r < NOFILE && old(slots)[Slot(pid, fd)] != -1
        && old(slots)[Slot(pid, r)] == -1
        && slots == old(slots)[Slot(pid, r) := old(slots)[Slot(pid, fd)]]
    {
      var f := ArgFd(pid, fd);
      if f == -1 {
        return -1;
      }
      r := Fdalloc(pid, f);
      if r == -1 {
        assert !OneSlot(slots, pid);
        return;
      }
      assert FreeSlot(old(slots), pid, r);
      PointedAt(files, old(slots), pipes, multiset{}, Slot(pid, fd));
      Shared(files, old(slots), pipes, multiset{}, Slot(pid, r), f);
      Filedup(f);
    }

    /** `close`. */
    method Close(pid: nat, fd: int) returns (r: int)
      requires Valid(multiset{}) && pid < NPROC
      modifies this
      ensures Valid(multiset{})
      ensures r == -1 <==> fd < 0 || fd >= NOFILE || old(slots)[Slot(pid, fd)] == -1
      ensures r == -1 ==> files == old(files) && slots == old(slots) && pipes == old(pipes)
      ensures r != -1 ==>
        && r == 0 && slots == old(slots)[Slot(pid, fd) := -1]
        && var file := old(files)[old(slots)[Slot(pid, fd)]];
           pipes == if file.ref > 1 then old(pipes) else Closed(old(pipes), file.kind)
    {
      var f := ArgFd(pid, fd);
      if f == -1 {
        return -1;
      }
      Emptied(files, slots, pipes, multiset{}, Slot(pid, fd));
      slots := slots[Slot(pid, fd) := -1];
      assert multiset{} + multiset{f} == multiset{f} && multiset{f} - multiset{f} == multiset{};
      Fileclose(f, slots, multiset{f});
      return 0;
    }

    /** The end of `open`, once the inode is found: a descriptor for it, or everything as it was. */
    method OpenInode(pid: nat, ip: nat, omode: nat) returns (fd: int)
      requires Valid(multiset{}) && pid < NPROC
      modifies this
      ensures Valid(multiset{})
      ensures fd == -1 <==> !OneFile(old(files)) || !OneSlot(old(slots), pid)
      ensures fd == -1 ==> slots == old(slots) && pipes == old(pipes) && SameFiles(old(files), files)
      ensures fd != -1 ==>
        && 0 <= fd < NOFILE && old(slots)[Slot(pid, fd)] == -1 && pipes == old(pipes)
        && exists f: nat ::
             f < NFILE && old(files)[f].ref == 0
             && slots == old(slots)[Slot(pid, fd) := f]
             && files == old(files)[f := File(Inode(ip), 1, omode % 2 == 0, omode % 2 == 1 || omode / 2 % 2 == 1)]
    {
      var f := Filealloc(multiset{});
      if f == -1 {
        assert !OneFile(files);
        return -1;
      }
      assert FreeFile(old(files), f);
      assert multiset{} + multiset{f} == multiset{f};
      ghost var s0 := slots;
      assert Inv(files, s0, pipes, multiset{f});
      fd := Fdalloc(pid, f);
      assert fd != -1 ==> FreeSlot(s0, pid, fd);
      if fd == -1 {
        assert !OneSlot(s0, pid);
        Fileclose(f, slots, multiset{f});
        assert multiset{f} - multiset{f} == multiset{};
        return;
      }
      Filled(files, s0, pipes, multiset{f}, Slot(pid, fd), f);
      assert multiset{f} - multiset{f} == multiset{};
      var file := File(Inode(ip), 1, omode % 2 == 0, omode % 2 == 1 || omode / 2 % 2 == 1);
      InodeSet(files, slots, pipes, multiset{}, f, file);
      files := files[f := file];
    }

    /** `pipealloc`: two files for the ends of a new pipe in frame `page`, or everything as it was. */
    method PipeAlloc(page: nat) returns (r: int, w: int)
      requires Valid(multiset{}) && page !in pipes
      modifies this`files, this`pipes
      ensures r == -1 <==> !TwoFiles(old(files)) || page == 0
      ensures r != -1 ==>
        && 0 <= r < NFILE && 0 <= w < NFILE && r != w && Valid(multiset{r, w})
        && old(files)[r].ref == 0 && old(files)[w].ref == 0 && page != 0
        && old(files)[r].kind == Unset && old(files)[w].kind == Unset
        && pipes == old(pipes)[page := Pipe(true, true)]
        && files == old(files)[r := File(PipeEnd(page, false), 1, true, false)]
                              [w := File(PipeEnd(page, true), 1, false, true)]
      ensures r == -1 ==> Valid(multiset{}) && pipes == old(pipes) && SameFiles(old(files), files)
    {
      r := Filealloc(multiset{});
      if r == -1 {
        w := -1;
        NoSecondFile(files, 0);
        return;
      }
      assert multiset{} + multiset{r} == multiset{r};
      ghost var files1 := files;
      w := Filealloc(multiset{r});
      assert w != -1 ==> FreeFile(old(files), r) && FreeFile(old(files), w) && r != w;
      if w == -1 {
        assert forall g: nat | g < NFILE && g != r :: old(files)[g] == files1[g];
        NoSecondFile(old(files), r);
      }
      if w == -1 || page == 0 {                  // page 0: kalloc has failed
        GiveBack(r, w);
        return -1, -1;
      }
      assert multiset{r} + multiset{w} == multiset{r, w};
      SetEnds(r, w, page);
    }

    // Puts the two files on the ends of a new pipe.
    method SetEnds(r: int, w: int, page: nat)
      requires 0 <= r < NFILE && 0 <= w < NFILE && r != w && page !in pipes
      requires Valid(multiset{r, w})
      requires files[r].ref == 1 && files[w].ref == 1 && files[r].kind == Unset && files[w].kind == Unset
      modifies this`files, this`pipes
      ensures Valid(multiset{r, w}) && pipes == old(pipes)[page := Pipe(true, true)]
      ensures files ==
        old(files)[r := File(PipeEnd(page, false), 1, true, false)][w := File(PipeEnd(page, true), 1, false, true)]
    {
      PipeMade(files, slots, pipes, multiset{r, w}, r, w, page);
      files := files[r := files[r].(kind := PipeEnd(page, false), readable := true, writable := false)];
      files := files[w := files[w].(kind := PipeEnd(page, true), readable := false, writable := true)];
      pipes := pipes[page := Pipe(true, true)];
    }

    // Gives up the files just allocated; `w` is -1 if there was no second one.
    method GiveBack(r: int, w: int)
      requires 0 <= r < NFILE && (w == -1 || (0 <= w < NFILE && w != r))
      requires Valid(if w == -1 then multiset{r} else multiset{r} + multiset{w})
      requires files[r].ref == 1 && files[r].kind == Unset
      requires w != -1 ==> files[w].ref == 1 && files[w].kind == Unset
      modifies this`files, this`pipes
      ensures Valid(multiset{}) && pipes == old(pipes)
      ensures files[r].ref == 0 && files[r].kind == Unset
      ensures w != -1 ==> files[w].ref == 0 && files[w].kind == Unset
      ensures forall f | 0 <= f < NFILE && f != r && f != w :: files[f] == old(files)[f]
    {
      if w != -1 {
        assert multiset{r} + multiset{w} == multiset{w} + multiset{r};
        Fileclose(w, slots, multiset{w} + multiset{r});
        assert multiset{w} + multiset{r} - multiset{w} == multiset{r};
      }
      Fileclose(r, slots, multiset{r});
      assert multiset{r} - multiset{r} == multiset{};
    }

    /** `pipe`: two descriptors for the ends of a new pipe, or everything as it was; `page` is what
        `kalloc` gave. */
    method MakePipe(pid: nat, page: nat) returns (fd0: int, fd1: int)
      requires Valid(multiset{}) && pid < NPROC && page !in pipes
      modifies this
      ensures Valid(multiset{})
      ensures fd0 == -1 <==> !TwoFiles(old(files)) || page == 0 || !TwoSlots(old(slots), pid)
      ensures fd0 == -1 ==> slots == old(slots) && pipes == old(pipes) && SameFiles(old(files), files)
      ensures fd0 != -1 ==>
        && 0 <= fd0 < fd1 < NOFILE && old(slots)[Slot(pid, fd0)] == old(slots)[Slot(pid, fd1)] == -1
        && pipes == old(pipes)[page := Pipe(true, true)]
        && OnEnd(files, slots, Slot(pid, fd0), page, false) && OnEnd(files, slots, Slot(pid, fd1), page, true)
        && forall i | 0 <= i < |slots| && i != Slot(pid, fd0) && i != Slot(pid, fd1) :: slots[i] == old(slots)[i]
    {
      var rf, wf := PipeAlloc(page);
      if rf == -1 {
        return -1, -1;
      }
      fd0, fd1 := FdallocBoth(pid, rf, wf);
      if fd0 == -1 {
        DropEnds(rf, wf, page);
      }
    }

    // A descriptor for each end, or none.
    method FdallocBoth(pid: nat, rf: int, wf: int) returns (fd0: int, fd1: int)
      requires Valid(multiset{rf, wf}) && pid < NPROC && 0 <= rf < NFILE && 0 <= wf < NFILE && rf != wf
      modifies this`slots
      ensures fd0 == -1 <==> !TwoSlots(old(slots), pid)
      ensures fd0 == -1 ==> slots == old(slots) && Valid(multiset{rf, wf})
      ensures fd0 != -1 ==>
        && 0 <= fd0 < fd1 < NOFILE && old(slots)[Slot(pid, fd0)] == old(slots)[Slot(pid, fd1)] == -1
        && slots == old(slots)[Slot(pid, fd0) := rf][Slot(pid, fd1) := wf] && Valid(multiset{})
    {
      ghost var s0 := slots;
      fd0 := Fdalloc(pid, rf);
      if fd0 == -1 {
        NoSecondSlot(s0, pid, 0);
        return -1, -1;
      }
      assert FreeSlot(s0, pid, fd0);
      Filled(files, s0, pipes, multiset{rf, wf}, Slot(pid, fd0), rf);
      assert multiset{rf, wf} - multiset{rf} == multiset{wf};
      ghost var s1 := slots;
      fd1 := Fdalloc(pid, wf);
      assert fd1 != -1 ==> FreeSlot(s0, pid, fd1) && fd1 != fd0;
      if fd1 == -1 {
        NoSecondSlot(s0, pid, fd0);
        slots := slots[Slot(pid, fd0) := -1];
        assert slots == s0;
        return -1, -1;
      }
      Filled(files, s1, pipes, multiset{wf}, Slot(pid, fd1), wf);
      assert multiset{wf} - multiset{wf} == multiset{};
    }

    // Both ends of a pipe without descriptors are closed.
    method DropEnds(rf: int, wf: int, page: nat)
      requires 0 <= rf < NFILE && 0 <= wf < NFILE && rf != wf && Valid(multiset{rf, wf})
      requires files[rf].ref == 1 && files[rf].kind == PipeEnd(page, false)
      requires files[wf].ref == 1 && files[wf].kind == PipeEnd(page, true)
      requires page in pipes && pipes[page] == Pipe(true, true)
      modifies this`files, this`pipes
      ensures Valid(multiset{}) && pipes == old(pipes) - {page}
      ensures files == old(files)[rf := old(files)[rf].(kind := Unset, ref := 0)]
                                 [wf := old(files)[wf].(kind := Unset, ref := 0)]
    {
      Fileclose(rf, slots, multiset{rf, wf});
      assert multiset{rf, wf} - multiset{rf} == multiset{wf};
      Fileclose(wf, slots, multiset{wf});
      assert multiset{wf} - multiset{wf} == multiset{};
    }

    /** The loop of `fork` that gives the child its parent's descriptors. */
    method CopyFiles(pid: nat, child: nat)
      requires Valid(multiset{}) && pid < NPROC && child < NPROC && pid != child
      requires forall k: nat | k < NOFILE :: slots[Slot(child, k)] == -1
      modifies this`files, this`slots
      ensures Valid(multiset{})
      ensures forall k: nat | k < NOFILE :: slots[Slot(child, k)] == old(slots)[Slot(pid, k)]
      ensures forall i | 0 <= i < |slots| && i / NOFILE != child :: slots[i] == old(slots)[i]
    {
      var i := 0;
      while i < NOFILE
        invariant i <= NOFILE && Valid(multiset{})
        invariant forall k: nat | k < NOFILE :: slots[Slot(child, k)] == if k < i then old(slots)[Slot(pid, k)] else -1
        invariant forall k | 0 <= k < |slots| && k / NOFILE != child :: slots[k] == old(slots)[k]
      {
        assert Slot(pid, i) / NOFILE != child && slots[Slot(child, i)] == -1;
        var f := slots[Slot(pid, i)];
        if f != -1 {
          PointedAt(files, slots, pipes, multiset{}, Slot(pid, i));
          Shared(files, slots, pipes, multiset{}, Slot(child, i), f);
          Filedup(f);
          slots := slots[Slot(child, i) := f];
        }
        i := i + 1;
      }
    }

    /** The loop of `exit` that closes all descriptors. */
    method CloseAll(pid: nat)
      requires Valid(multiset{}) && pid < NPROC
      modifies this
      ensures Valid(multiset{})
      ensures forall k: nat | k < NOFILE :: slots[Slot(pid, k)] == -1
      ensures forall i | 0 <= i < |slots| && i / NOFILE != pid :: slots[i] == old(slots)[i]
    {
      var fd := 0;
      while fd < NOFILE
        invariant fd <= NOFILE && Valid(multiset{})
        invariant forall k: nat | k < fd :: slots[Slot(pid, k)] == -1
        invariant forall k | 0 <= k < |slots| && k / NOFILE != pid :: slots[k] == old(slots)[k]
      {
        var f := slots[Slot(pid, fd)];
        if f != -1 {
          Emptied(files, slots, pipes, multiset{}, Slot(pid, fd));
          assert multiset{} + multiset{f} == multiset{f} && multiset{f} - multiset{f} == multiset{};
          Fileclose(f, slots[Slot(pid, fd) := -1], multiset{f});
          slots := slots[Slot(pid, fd) := -1];
        }
        fd := fd + 1;
      }
    }
  }
}
