/** The process table, one critical section under `ptable.lock` at a time: allocation, exit,
    wait, wakeup, kill. */
module ProcSpec {
  import opened Common

  const NPROC: nat := 64

  datatype State = UNUSED | EMBRYO | SLEEPING | RUNNABLE | RUNNING | ZOMBIE

  // What a process sleeps on: the address of a slot of the table (in `wait`), or anything else.
  datatype Chan = Null | SlotChan(slot: nat) | Other(addr: nat)

  datatype Proc = Proc(state: State, pid: nat, parent: Option<nat>, chan: Chan, killed: bool)

  datatype Sys = Sys(
    procs: seq<Proc>,
    nextpid: nat,
    init: nat,             // the slot of initproc
    exited: set<nat>,      // pids that went through exit()
    reaped: seq<nat>)      // pids wait() returned, in order

  // ----- the sections

  function Woken(x: Proc, c: Chan): Proc {
    if x.state == SLEEPING && x.chan == c then x.(state := RUNNABLE) else x
  }

  function WakeAll(ps: seq<Proc>, c: Chan): (r: seq<Proc>)
    ensures |r| == |ps|
  {
    seq(|ps|, i requires 0 <= i < |ps| => Woken(ps[i], c))
  }

  predicate IsChild(ps: seq<Proc>, me: nat, j: nat)
    requires j < |ps|
  {
    ps[j].parent == Some(me)
  }

  predicate IsZombieChild(ps: seq<Proc>, me: nat, j: nat)
    requires j < |ps|
  {
    IsChild(ps, me, j) && ps[j].state == ZOMBIE
  }

  function ChanOf(p: Option<nat>): Chan { if p.Some? then SlotChan(p.value) else Null }

  // Slots 0..n-1 of the abandoned children are given to init, which is woken for each zombie.
  function Adopted(ps: seq<Proc>, me: nat, init: nat, n: nat): (r: seq<Proc>)
    requires n <= |ps|
    ensures |r| == |ps|
  {
    if n == 0 then ps
    else
      var r := Adopted(ps, me, init, n - 1);
      if r[n - 1].parent != Some(me) then r
      else
        var r' := r[n - 1 := r[n - 1].(parent := Some(init))];
        if r'[n - 1].state == ZOMBIE then WakeAll(r', SlotChan(init)) else r'
  }

  function ExitSection(s: Sys, me: nat): Sys
    requires me < |s.procs|
  {
    var ps := Adopted(WakeAll(s.procs, ChanOf(s.procs[me].parent)), me, s.init, |s.procs|);
    s.(procs := ps[me := ps[me].(state := ZOMBIE)], exited := s.exited + {s.procs[me].pid})
  }

  datatype WaitOutcome = Reaped(pid: nat) | NoChild | Asleep

  ghost predicate FirstZombie(ps: seq<Proc>, me: nat, k: nat) {
    k < |ps| && IsZombieChild(ps, me, k) && forall j: nat | j < k :: !IsZombieChild(ps, me, j)
  }

  ghost predicate HasChild(ps: seq<Proc>, me: nat) {
    exists j: nat :: j < |ps| && IsChild(ps, me, j)
  }

  ghost predicate HasZombie(ps: seq<Proc>, me: nat) {
    exists j: nat :: j < |ps| && IsZombieChild(ps, me, j)
  }

  function Freed(x: Proc): Proc {
    x.(state := UNUSED, pid := 0, parent := None, killed := false)
  }

  // The three ways a pass of `wait` ends.
  ghost predicate WaitSection(s: Sys, me: nat, s': Sys, out: WaitOutcome) {
    me < |s.procs| &&
    match out
    case Reaped(pid) =>
      exists k: nat | FirstZombie(s.procs, me, k) ::
        && pid == s.procs[k].pid
        && s' == s.(procs := s.procs[k := Freed(s.procs[k])], reaped := s.reaped + [pid])
    case NoChild =>
      && !HasZombie(s.procs, me) && (!HasChild(s.procs, me) || s.procs[me].killed)
      && s' == s
    case Asleep =>
      && !HasZombie(s.procs, me) && HasChild(s.procs, me) && !s.procs[me].killed
      && s' == s.(procs := s.procs[me := s.procs[me].(state := SLEEPING, chan := SlotChan(me))])
  }

  // ----- the invariant, whenever the lock is free

  ghost predicate InUse(x: Proc) { x.state != UNUSED }

  ghost predicate Alive(x: Proc) { x.state in {SLEEPING, RUNNABLE, RUNNING} }

  // A parent can still call wait(); a free slot has none.
  ghost predicate ParentOk(s: Sys, i: nat)
    requires i < |s.procs|
  {
    match s.procs[i].parent
    case None => s.procs[i].state in {UNUSED, EMBRYO} || i == s.init
    case Some(q) => q < |s.procs| && Alive(s.procs[q]) && InUse(s.procs[i]) && i != s.init && i != q
  }

  // Nobody is asleep in wait() with a zombie to collect, or with no child to wait for.
  ghost predicate WaitOk(s: Sys, i: nat)
    requires i < |s.procs|
  {
    s.procs[i].state == SLEEPING && s.procs[i].chan == SlotChan(i) ==>
      !HasZombie(s.procs, i) && HasChild(s.procs, i) && !s.procs[i].killed
  }

  // Pids are used once; a pid is in `exited` while its zombie is in the table and after.
  ghost predicate PidOk(s: Sys, i: nat)
    requires i < |s.procs|
  {
    InUse(s.procs[i]) ==>
      && 0 < s.procs[i].pid < s.nextpid
      && s.procs[i].pid !in s.reaped
      && (s.procs[i].pid in s.exited <==> s.procs[i].state == ZOMBIE)
  }

  ghost predicate SlotOk(s: Sys, i: nat)
    requires i < |s.procs|
  {
    ParentOk(s, i) && WaitOk(s, i) && PidOk(s, i)
  }

  ghost predicate PidsDiffer(s: Sys, i: nat, j: nat)
    requires i < |s.procs| && j < |s.procs|
  {
    i != j && InUse(s.procs[i]) && InUse(s.procs[j]) ==> s.procs[i].pid != s.procs[j].pid
  }

  ghost predicate HasZombiePid(ps: seq<Proc>, pid: nat) {
    exists i: nat :: i < |ps| && ps[i].state == ZOMBIE && ps[i].pid == pid
  }

  ghost predicate ExitedOk(s: Sys, pid: nat) {
    pid in s.exited ==> pid < s.nextpid && (HasZombiePid(s.procs, pid) || pid in s.reaped)
  }

  ghost predicate Inv(s: Sys) {
    && |s.procs| == NPROC
    && s.init < NPROC && Alive(s.procs[s.init])
    && 0 < s.nextpid
    && (forall i: nat | i < NPROC :: SlotOk(s, i))
    && (forall i: nat, j: nat | i < NPROC && j < NPROC :: PidsDiffer(s, i, j))
    && (forall pid: nat :: ExitedOk(s, pid))
    && (forall k | 0 <= k < |s.reaped| :: s.reaped[k] in s.exited)
    && (forall k, l | 0 <= k < l < |s.reaped| :: s.reaped[k] != s.reaped[l])
  }

  // ----- exit

  lemma {:induction false} AdoptedAt(ps: seq<Proc>, me: nat, init: nat, n: nat, i: nat)
    requires n <= |ps| && i < |ps| && me != init
    ensures var r := Adopted(ps, me, init, n);
            && r[i].pid == ps[i].pid && r[i].chan == ps[i].chan && r[i].killed == ps[i].killed
            && r[i].parent == (if i < n && ps[i].parent == Some(me) then Some(init) else ps[i].parent)
            && (r[i].state == ps[i].state || r[i] == Woken(ps[i], SlotChan(init)).(parent := r[i].parent))
  {
    if n > 0 {
      AdoptedAt(ps, me, init, n - 1, i);
      AdoptedAt(ps, me, init, n - 1, n - 1);
    }
  }

  // A zombie handed over has woken init.
  lemma {:induction false} AdoptedWakesInit(ps: seq<Proc>, me: nat, init: nat, n: nat, j: nat, i: nat)
    requires j < n <= |ps| && i < |ps| && me != init && IsZombieChild(ps, me, j)
    ensures var r := Adopted(ps, me, init, n);
            !(r[i].state == SLEEPING && r[i].chan == SlotChan(init))
  {
    if j == n - 1 {
      AdoptedAt(ps, me, init, n - 1, j);
      AdoptedAt(ps, me, init, n - 1, i);
    } else {
      AdoptedWakesInit(ps, me, init, n - 1, j, i);
      AdoptedAt(ps, me, init, n - 1, i);
    }
  }

  // With no zombie to hand over nobody is woken.
  lemma {:induction false} AdoptedQuietly(ps: seq<Proc>, me: nat, init: nat, n: nat, i: nat)
    requires n <= |ps| && i < |ps| && me != init && !HasZombie(ps, me)
    ensures Adopted(ps, me, init, n)[i].state == ps[i].state
  {
    if n > 0 {
      AdoptedQuietly(ps, me, init, n - 1, i);
      AdoptedQuietly(ps, me, init, n - 1, n - 1);
      AdoptedAt(ps, me, init, n - 1, n - 1);
      assert !IsZombieChild(ps, me, n - 1);
    }
  }

  lemma AdoptedState(ps: seq<Proc>, me: nat, init: nat, i: nat)
    requires i < |ps| && me != init
    ensures Adopted(ps, me, init, |ps|)[i].state ==
      if ps[i].state == SLEEPING && ps[i].chan == SlotChan(init) && HasZombie(ps, me) then RUNNABLE else ps[i].state
  {
    AdoptedAt(ps, me, init, |ps|, i);
    if HasZombie(ps, me) {
      var j: nat :| j < |ps| && IsZombieChild(ps, me, j);
      AdoptedWakesInit(ps, me, init, |ps|, j, i);
    } else {
      AdoptedQuietly(ps, me, init, |ps|, i);
    }
  }

  /** Every slot after an exit: the process itself is a zombie; its children are init's; whoever
      slept on the parent's slot is runnable, and whoever slept on init's slot if a zombie went
      to init; everything else is as it was. */
  lemma ExitExactly(s: Sys, me: nat, i: nat)
    requires me < |s.procs| && i < |s.procs| && me != s.init
    ensures var x, y := s.procs[i], ExitSection(s, me).procs[i];
      && y.pid == x.pid && y.chan == x.chan && y.killed == x.killed
      && y.parent == (if x.parent == Some(me) then Some(s.init) else x.parent)
      && y.state ==
          if i == me then ZOMBIE
          else if x.state != SLEEPING then x.state
          else if x.chan == (if s.procs[me].parent.Some? then SlotChan(s.procs[me].parent.value) else Null)
            then RUNNABLE
          else if x.chan == SlotChan(s.init)
            && (exists j: nat :: j < |s.procs| && s.procs[j].parent == Some(me) && s.procs[j].state == ZOMBIE)
            then RUNNABLE
          else SLEEPING
  {
    var ps := WakeAll(s.procs, ChanOf(s.procs[me].parent));
    AdoptedAt(ps, me, s.init, |ps|, i);
    AdoptedState(ps, me, s.init, i);
    if HasZombie(ps, me) {
      var j: nat :| j < |ps| && IsZombieChild(ps, me, j);
      assert s.procs[j].parent == Some(me) && s.procs[j].state == ZOMBIE;
    } else {
      forall j: nat | j < |ps| ensures !(s.procs[j].parent == Some(me) && s.procs[j].state == ZOMBIE) {
        assert !IsZombieChild(ps, me, j);
      }
    }
  }

  // ----- steps that change few slots

  // The only slot that changes is `k`, and it neither becomes nor stops being a zombie or free.
  ghost predicate Touches(s: Sys, s': Sys, k: nat) {
    && k < |s.procs| == |s'.procs|
    && s' == s.(procs := s'.procs)
    && (forall i: nat | i < |s.procs| && i != k :: s'.procs[i] == s.procs[i])
    && s'.procs[k].pid == s.procs[k].pid && s'.procs[k].parent == s.procs[k].parent
    && InUse(s'.procs[k]) == InUse(s.procs[k])
    && (s'.procs[k].state == ZOMBIE <==> s.procs[k].state == ZOMBIE)
    && Alive(s'.procs[k]) == Alive(s.procs[k])
  }

  lemma TouchKeepsInv(s: Sys, s': Sys, k: nat)
    requires Inv(s) && Touches(s, s', k) && WaitOk(s', k)
    ensures Inv(s')
  {
    forall i: nat | i < NPROC ensures SlotOk(s', i) {
      assert SlotOk(s, i);
      SameFamily(s, s', i);
    }
    forall i: nat, j: nat | i < NPROC && j < NPROC ensures PidsDiffer(s', i, j) {
      assert PidsDiffer(s, i, j);
    }
    forall pid: nat ensures ExitedOk(s', pid) {
      assert ExitedOk(s, pid);
      if HasZombiePid(s.procs, pid) {
        var i: nat :| i < |s.procs| && s.procs[i].state == ZOMBIE && s.procs[i].pid == pid;
        assert s'.procs[i].state == ZOMBIE && s'.procs[i].pid == pid;
      }
    }
  }

  lemma SameFamily(s: Sys, s': Sys, me: nat)
    requires |s.procs| == |s'.procs|
    requires forall j: nat | j < |s.procs| ::
      s'.procs[j].parent == s.procs[j].parent && (s'.procs[j].state == ZOMBIE <==> s.procs[j].state == ZOMBIE)
    ensures HasChild(s'.procs, me) <==> HasChild(s.procs, me)
    ensures HasZombie(s'.procs, me) <==> HasZombie(s.procs, me)
  {
    assert forall j: nat | j < |s.procs| ::
      IsChild(s'.procs, me, j) == IsChild(s.procs, me, j)
      && IsZombieChild(s'.procs, me, j) == IsZombieChild(s.procs, me, j);
  }

  // ----- exit()

  lemma ExitAt(s: Sys, me: nat, i: nat)
    requires me < |s.procs| && i < |s.procs| && me != s.init
    ensures var x, x' := s.procs[i], ExitSection(s, me).procs[i];
            && x'.pid == x.pid && x'.chan == x.chan && x'.killed == x.killed
            && x'.parent == (if x.parent == Some(me) then Some(s.init) else x.parent)
            && (i == me ==> x'.state == ZOMBIE)
            && (i != me ==> x'.state == x.state || (x.state == SLEEPING && x'.state == RUNNABLE))
            && (i != me && s.procs[me].parent == Some(i) && x.chan == SlotChan(i) ==> x'.state != SLEEPING)
  {
    AdoptedAt(WakeAll(s.procs, ChanOf(s.procs[me].parent)), me, s.init, |s.procs|, i);
  }

  /** exit() never leaves a parent asleep beside a zombie: not its own parent, and not init when
      it inherits one. */
  lemma ExitKeepsWaitOk(s: Sys, me: nat, i: nat)
    requires Inv(s) && me < NPROC && s.procs[me].state == RUNNING && me != s.init && i < NPROC
    ensures WaitOk(ExitSection(s, me), i)
  {
    var s' := ExitSection(s, me);
    ExitAt(s, me, i);
    if s'.procs[i].state == SLEEPING && s'.procs[i].chan == SlotChan(i) {
      assert SlotOk(s, i) && SlotOk(s, me);
      if j: nat :| j < |s'.procs| && IsZombieChild(s'.procs, i, j) {
        ExitAt(s, me, j);
        assert !IsZombieChild(s.procs, i, j);
        if j != me && s.procs[j].parent == Some(me) {
          var ps := WakeAll(s.procs, ChanOf(s.procs[me].parent));
          assert IsZombieChild(ps, me, j);
          AdoptedWakesInit(ps, me, s.init, |s.procs|, j, i);
        }
        assert false;
      }
      var j: nat :| j < |s.procs| && IsChild(s.procs, i, j);
      ExitAt(s, me, j);
      assert IsChild(s'.procs, i, j);
    }
  }

  lemma ExitKeepsInv(s: Sys, me: nat)
    requires Inv(s) && me < NPROC && s.procs[me].state == RUNNING && me != s.init
    ensures Inv(ExitSection(s, me))
  {
    var s' := ExitSection(s, me);
    var pid := s.procs[me].pid;
    assert SlotOk(s, me) && SlotOk(s, s.init);
    ExitAt(s, me, s.init);
    forall i: nat | i < NPROC ensures SlotOk(s', i) {
      assert SlotOk(s, i) && PidsDiffer(s, i, me);
      ExitAt(s, me, i);
      if s.procs[i].parent.Some? {
        ExitAt(s, me, s.procs[i].parent.value);
      }
      ExitKeepsWaitOk(s, me, i);
    }
    forall i: nat, j: nat | i < NPROC && j < NPROC ensures PidsDiffer(s', i, j) {
      assert PidsDiffer(s, i, j);
      ExitAt(s, me, i);
      ExitAt(s, me, j);
    }
    ExitAt(s, me, me);
    forall p: nat ensures ExitedOk(s', p) {
      assert ExitedOk(s, p);
      if HasZombiePid(s.procs, p) {
        var i: nat :| i < |s.procs| && s.procs[i].state == ZOMBIE && s.procs[i].pid == p;
        ExitAt(s, me, i);
        assert s'.procs[i].state == ZOMBIE && s'.procs[i].pid == p;
      }
      if p == pid {
        assert s'.procs[me].state == ZOMBIE && s'.procs[me].pid == p;
      }
    }
  }

  // ----- wait()

  lemma ReapKeepsInv(s: Sys, me: nat, k: nat)
    requires Inv(s) && me < NPROC && s.procs[me].state == RUNNING && FirstZombie(s.procs, me, k)
    ensures Inv(s.(procs := s.procs[k := Freed(s.procs[k])], reaped := s.reaped + [s.procs[k].pid]))
  {
    var pid := s.procs[k].pid;
    var s' := s.(procs := s.procs[k := Freed(s.procs[k])], reaped := s.reaped + [pid]);
    assert SlotOk(s, k);
    forall i: nat | i < NPROC ensures SlotOk(s', i) {
      assert SlotOk(s, i) && PidsDiffer(s, i, k);
      assert i != k ==> s'.procs[i] == s.procs[i];
      if i != me && HasChild(s.procs, i) {
        var j: nat :| j < |s.procs| && IsChild(s.procs, i, j);
        assert IsChild(s'.procs, i, j);
      }
      if HasZombie(s'.procs, i) {
        var j: nat :| j < |s.procs| && IsZombieChild(s'.procs, i, j);
        assert IsZombieChild(s.procs, i, j);
      }
    }
    forall i: nat, j: nat | i < NPROC && j < NPROC ensures PidsDiffer(s', i, j) {
      assert PidsDiffer(s, i, j);
    }
    forall p: nat ensures ExitedOk(s', p) {
      assert ExitedOk(s, p);
      if HasZombiePid(s.procs, p) && p != pid {
        var i: nat :| i < |s.procs| && s.procs[i].state == ZOMBIE && s.procs[i].pid == p;
        assert s'.procs[i].state == ZOMBIE && s'.procs[i].pid == p;
      }
    }
  }

  lemma WaitKeepsInv(s: Sys, me: nat, s': Sys, out: WaitOutcome)
    requires Inv(s) && me < NPROC && s.procs[me].state == RUNNING && WaitSection(s, me, s', out)
    ensures Inv(s')
  {
    match out
    case Reaped(pid) =>
      var k: nat :| FirstZombie(s.procs, me, k) && pid == s.procs[k].pid
        && s' == s.(procs := s.procs[k := Freed(s.procs[k])], reaped := s.reaped + [pid]);
      ReapKeepsInv(s, me, k);
    case NoChild =>
    case Asleep =>
      SameFamily(s, s', me);
      TouchKeepsInv(s, s', me);
  }

  // ----- the other sections

  lemma WakeKeepsInv(s: Sys, c: Chan)
    requires Inv(s)
    ensures Inv(s.(procs := WakeAll(s.procs, c)))
  {
    var s' := s.(procs := WakeAll(s.procs, c));
    forall i: nat | i < NPROC ensures SlotOk(s', i) {
      assert SlotOk(s, i);
      SameFamily(s, s', i);
    }
    forall i: nat, j: nat | i < NPROC && j < NPROC ensures PidsDiffer(s', i, j) {
      assert PidsDiffer(s, i, j);
    }
    forall p: nat ensures ExitedOk(s', p) {
      assert ExitedOk(s, p);
      if HasZombiePid(s.procs, p) {
        var i: nat :| i < |s.procs| && s.procs[i].state == ZOMBIE && s.procs[i].pid == p;
        assert s'.procs[i].state == ZOMBIE && s'.procs[i].pid == p;
      }
    }
  }

  // The lowest free slot becomes an embryo with the next pid.  Its `killed` flag is not cleared.
  ghost predicate AllocSection(s: Sys, s': Sys, k: nat) {
    && k < |s.procs| && s.procs[k].state == UNUSED
    && (forall j: nat | j < k :: InUse(s.procs[j]))
    && s' == s.(procs := s.procs[k := s.procs[k].(state := EMBRYO, pid := s.nextpid)], nextpid := s.nextpid + 1)
  }

  // An embryo without a parent changes: it gets one, or is given up.  The family of everybody
  // else is as before.
  lemma EmbryoKeepsInv(s: Sys, s': Sys, k: nat, x: Proc)
    requires Inv(s) && k < NPROC && k != s.init && s.procs[k].parent == None
    requires s' == s.(procs := s.procs[k := x], nextpid := s'.nextpid) && s'.nextpid >= s.nextpid
    requires s.procs[k].state in {UNUSED, EMBRYO} && x.state in {UNUSED, EMBRYO}
    requires ParentOk(s', k) && PidOk(s', k)
    requires x.state == EMBRYO ==>
      forall j: nat | j < NPROC && j != k && InUse(s.procs[j]) :: s.procs[j].pid != x.pid
    ensures Inv(s')
  {
    assert SlotOk(s, k);
    forall i: nat | i < NPROC ensures SlotOk(s', i) {
      assert SlotOk(s, i);
      if i != k {
        assert s'.procs[i] == s.procs[i];
        if HasChild(s.procs, i) {
          var j: nat :| j < |s.procs| && IsChild(s.procs, i, j);
          assert IsChild(s'.procs, i, j);
        }
        if HasZombie(s'.procs, i) {
          var j: nat :| j < |s.procs| && IsZombieChild(s'.procs, i, j);
          assert IsZombieChild(s.procs, i, j);
        }
      }
    }
    forall i: nat, j: nat | i < NPROC && j < NPROC ensures PidsDiffer(s', i, j) {
      assert PidsDiffer(s, i, j);
    }
    forall p: nat ensures ExitedOk(s', p) {
      assert ExitedOk(s, p);
      if HasZombiePid(s.procs, p) {
        var i: nat :| i < |s.procs| && s.procs[i].state == ZOMBIE && s.procs[i].pid == p;
        assert s'.procs[i].state == ZOMBIE && s'.procs[i].pid == p;
      }
    }
  }

  ghost predicate FirstWithPid(ps: seq<Proc>, pid: nat, k: nat) {
    k < |ps| && ps[k].pid == pid && forall j: nat | j < k :: ps[j].pid != pid
  }

  ghost predicate NoneWithPid(ps: seq<Proc>, pid: nat) {
    forall j: nat | j < |ps| :: ps[j].pid != pid
  }

  // The first slot with the pid is marked, be it in use or not.
  ghost predicate KillSection(s: Sys, pid: nat, s': Sys) {
    if NoneWithPid(s.procs, pid) then s' == s
    else exists k: nat | FirstWithPid(s.procs, pid, k) :: s' == s.(procs := s.procs[k := Killed(s.procs[k])])
  }

  function Killed(x: Proc): Proc {
    x.(killed := true, state := if x.state == SLEEPING then RUNNABLE else x.state)
  }

  // ----- any run

  datatype Step =
    | Alloc(k: nat)                  // allocproc
    | AllocFails(k: nat)             // no memory for the stack or the page table
    | SetParent(k: nat, me: nat)     // the two writes of fork() to the new slot
    | SetRunnable(k: nat)
    | Exit(me: nat)
    | Wait(me: nat, out: WaitOutcome)
    | Wakeup(c: Chan)
    | Kill(pid: nat)
    | Fault(me: nat)                 // a trap the program has no way to handle
    | Sleep(me: nat, addr: nat)      // on anything but a slot of the table
    | Dispatch(k: nat)               // by the scheduler
    | Yield(me: nat)

  ghost predicate Stepped(s: Sys, e: Step, s': Sys) {
    match e
    case Alloc(k) => AllocSection(s, s', k)
    case AllocFails(k) =>
      && k < |s.procs| && s.procs[k].state == EMBRYO && s.procs[k].parent == None
      && s' == s.(procs := s.procs[k := s.procs[k].(state := UNUSED)])
    case SetParent(k, me) =>
      && k < |s.procs| && me < |s.procs| && s.procs[me].state == RUNNING
      && s.procs[k].state == EMBRYO && s.procs[k].parent == None
      && s' == s.(procs := s.procs[k := s.procs[k].(parent := Some(me))])
    case SetRunnable(k) =>
      && k < |s.procs| && s.procs[k].state == EMBRYO && s.procs[k].parent.Some?
      && s' == s.(procs := s.procs[k := s.procs[k].(state := RUNNABLE)])
    case Exit(me) =>
      && me < |s.procs| && s.procs[me].state == RUNNING && me != s.init
      && s' == ExitSection(s, me)
    case Wait(me, out) => me < |s.procs| && s.procs[me].state == RUNNING && WaitSection(s, me, s', out)
    case Wakeup(c) => s' == s.(procs := WakeAll(s.procs, c))
    case Kill(pid) => KillSection(s, pid, s')
    case Fault(me) =>
      && me < |s.procs| && s.procs[me].state == RUNNING
      && s' == s.(procs := s.procs[me := s.procs[me].(killed := true)])
    case Sleep(me, addr) =>
      && me < |s.procs| && s.procs[me].state == RUNNING
      && s' == s.(procs := s.procs[me := s.procs[me].(state := SLEEPING, chan := Other(addr))])
    case Dispatch(k) =>
      && k < |s.procs| && s.procs[k].state == RUNNABLE
      && s' == s.(procs := s.procs[k := s.procs[k].(state := RUNNING)])
    case Yield(me) =>
      && me < |s.procs| && s.procs[me].state == RUNNING
      && s' == s.(procs := s.procs[me := s.procs[me].(state := RUNNABLE)])
  }

  /** Every section of every process keeps the invariant. */
  lemma StepKeepsInv(s: Sys, e: Step, s': Sys)
    requires Inv(s) && Stepped(s, e, s')
    ensures Inv(s')
  {
    match e
    case Alloc(k) => AllocKeepsInv(s, s', k);
    case AllocFails(k) =>
      assert SlotOk(s, k);
      EmbryoKeepsInv(s, s', k, s'.procs[k]);
    case SetParent(k, me) =>
      assert SlotOk(s, k) && SlotOk(s, me);
      forall j: nat | j < NPROC && j != k && InUse(s.procs[j]) ensures s.procs[j].pid != s.procs[k].pid {
        assert PidsDiffer(s, j, k);
      }
      EmbryoKeepsInv(s, s', k, s'.procs[k]);
    case SetRunnable(k) => StartKeepsInv(s, s', k);
    case Exit(me) => ExitKeepsInv(s, me);
    case Wait(me, out) => WaitKeepsInv(s, me, s', out);
    case Wakeup(c) => WakeKeepsInv(s, c);
    case Kill(pid) =>
      KillKeepsInv(s, pid, s');
    case Fault(me) => TouchKeepsInv(s, s', me);
    case Sleep(me, addr) => TouchKeepsInv(s, s', me);
    case Dispatch(k) => TouchKeepsInv(s, s', k);
    case Yield(me) => TouchKeepsInv(s, s', me);
  }

  lemma KillKeepsInv(s: Sys, pid: nat, s': Sys)
    requires Inv(s) && KillSection(s, pid, s')
    ensures Inv(s')
  {
    if !NoneWithPid(s.procs, pid) {
      var k: nat :| FirstWithPid(s.procs, pid, k) && s' == s.(procs := s.procs[k := Killed(s.procs[k])]);
      assert SlotOk(s, k);
      SameFamily(s, s', k);
      TouchKeepsInv(s, s', k);
    }
  }

  lemma AllocKeepsInv(s: Sys, s': Sys, k: nat)
    requires Inv(s) && AllocSection(s, s', k)
    ensures Inv(s')
  {
    assert SlotOk(s, k);
    assert ExitedOk(s, s.nextpid);
    forall j: nat | j < NPROC && j != k && InUse(s.procs[j]) ensures s.procs[j].pid != s.nextpid {
      assert SlotOk(s, j);
    }
    EmbryoKeepsInv(s, s', k, s'.procs[k]);
  }

  // An embryo with a parent becomes runnable.
  lemma StartKeepsInv(s: Sys, s': Sys, k: nat)
    requires Inv(s) && Stepped(s, SetRunnable(k), s')
    ensures Inv(s')
  {
    forall i: nat | i < NPROC ensures SlotOk(s', i) {
      assert SlotOk(s, i);
      SameFamily(s, s', i);
    }
    forall i: nat, j: nat | i < NPROC && j < NPROC ensures PidsDiffer(s', i, j) {
      assert PidsDiffer(s, i, j);
    }
    forall p: nat ensures ExitedOk(s', p) {
      assert ExitedOk(s, p);
      if HasZombiePid(s.procs, p) {
        var i: nat :| i < |s.procs| && s.procs[i].state == ZOMBIE && s.procs[i].pid == p;
        assert s'.procs[i].state == ZOMBIE && s'.procs[i].pid == p;
      }
    }
  }

  ghost predicate Run(ss: seq<Sys>, es: seq<Step>) {
    && |ss| == |es| + 1 && Inv(ss[0])
    && forall k: nat | k < |es| :: Stepped(ss[k], es[k], ss[k + 1])
  }

  /** No run, whatever the interleaving, leaves a process asleep in wait() beside a zombie child,
      gives anybody a parent that cannot call wait(), or reaps a zombie twice. */
  lemma {:induction false} RunKeepsInv(ss: seq<Sys>, es: seq<Step>, k: nat)
    requires Run(ss, es) && k < |ss|
    ensures Inv(ss[k])
    ensures ss[0].reaped <= ss[k].reaped && ss[0].exited <= ss[k].exited
  {
    if k > 0 {
      RunKeepsInv(ss, es, k - 1);
      assert Stepped(ss[k - 1], es[k - 1], ss[k - 1 + 1]);
      StepKeepsInv(ss[k - 1], es[k - 1], ss[k]);
    }
  }

  /** Every process that exited is either still a zombie or was reaped, and not both. */
  lemma ExitedOnce(s: Sys, pid: nat)
    requires Inv(s) && pid in s.exited
    ensures HasZombiePid(s.procs, pid) != (pid in s.reaped)
  {
    assert ExitedOk(s, pid);
    if HasZombiePid(s.procs, pid) {
      var i: nat :| i < |s.procs| && s.procs[i].state == ZOMBIE && s.procs[i].pid == pid;
      assert SlotOk(s, i);
    }
  }

  /** A wait() that finds a child never sleeps for good on account of its children: as long as a
      child is a zombie, its parent is awake. */
  lemma ZombieParentAwake(s: Sys, i: nat, j: nat)
    requires Inv(s) && i < NPROC && j < NPROC && IsZombieChild(s.procs, i, j)
    ensures InUse(s.procs[i]) && s.procs[i].state != ZOMBIE
    ensures !(s.procs[i].state == SLEEPING && s.procs[i].chan == SlotChan(i))
  {
    assert SlotOk(s, i) && SlotOk(s, j);
  }

  // The table as `userinit` leaves it.
  ghost predicate Booted(s: Sys) {
    && |s.procs| == NPROC && s.procs[0] == Proc(RUNNABLE, 1, None, Null, false)
    && (forall i | 1 <= i < NPROC :: s.procs[i] == Proc(UNUSED, 0, None, Null, false))
    && s == Sys(s.procs, 2, 0, {}, [])
  }

  /** The first process finds the invariant. */
  lemma BootInv(s: Sys)
    requires Booted(s)
    ensures Inv(s)
  {
    forall i: nat | i < NPROC ensures SlotOk(s, i) {}
    forall i: nat, j: nat | i < NPROC && j < NPROC ensures PidsDiffer(s, i, j) {}
  }

  // ----- processes killed before they are born

  ghost predicate Hits(s: Sys, e: Step, k: nat) { e.Kill? && FirstWithPid(s.procs, e.pid, k) }

  ghost predicate Reaps(s: Sys, e: Step, k: nat) {
    e.Wait? && e.out.Reaped? && FirstZombie(s.procs, e.me, k)
  }

  // The only sections that write the flag: kill() and a fault set it, and the wait() that reaps clears it.
  lemma KilledAfter(s: Sys, e: Step, s': Sys, k: nat)
    requires Stepped(s, e, s') && k < |s.procs|
    ensures |s'.procs| == |s.procs|
    ensures s'.procs[k].killed <==> Hits(s, e, k) || e == Fault(k) || (s.procs[k].killed && !Reaps(s, e, k))
  {
    match e
    case Exit(me) => ExitAt(s, me, k);
    case Kill(pid) => KillAt(s, pid, s', k);
    case Wait(me, out) => WaitAt(s, me, s', out, k);
    case _ =>
  }

  lemma KillAt(s: Sys, pid: nat, s': Sys, k: nat)
    requires KillSection(s, pid, s') && k < |s.procs|
    ensures |s'.procs| == |s.procs|
    ensures s'.procs[k].killed <==> FirstWithPid(s.procs, pid, k) || s.procs[k].killed
    ensures Started(s'.procs[k]) <==> Started(s.procs[k])
  {
    if !NoneWithPid(s.procs, pid) {
      var i: nat :| FirstWithPid(s.procs, pid, i) && s' == s.(procs := s.procs[i := Killed(s.procs[i])]);
    }
  }

  lemma WaitAt(s: Sys, me: nat, s': Sys, out: WaitOutcome, k: nat)
    requires WaitSection(s, me, s', out) && k < |s.procs|
    ensures |s'.procs| == |s.procs|
    ensures s'.procs[k].killed <==> s.procs[k].killed && !(out.Reaped? && FirstZombie(s.procs, me, k))
    ensures !(out.Reaped? && FirstZombie(s.procs, me, k)) && Started(s.procs[k]) ==> Started(s'.procs[k])
  {
    if out.Reaped? {
      var i: nat :| FirstZombie(s.procs, me, i)
        && s' == s.(procs := s.procs[i := Freed(s.procs[i])], reaped := s.reaped + [out.pid]);
    }
  }

  // Some kill() before step `n` marked the slot, and it was not reaped since.
  ghost predicate Doomed(ss: seq<Sys>, es: seq<Step>, n: nat, k: nat)
    requires |ss| == |es| + 1 && n <= |es|
  {
    exists m: nat :: m < n && Hits(ss[m], es[m], k) && NotReaped(ss, es, m, n, k)
  }

  // The same for a fault of the process in the slot.
  ghost predicate Faulted(ss: seq<Sys>, es: seq<Step>, n: nat, k: nat)
    requires |ss| == |es| + 1 && n <= |es|
  {
    exists m: nat :: m < n && es[m] == Fault(k) && NotReaped(ss, es, m, n, k)
  }

  ghost predicate NotReaped(ss: seq<Sys>, es: seq<Step>, m: nat, n: nat, k: nat)
    requires |ss| == |es| + 1 && m < n <= |es|
  {
    forall l: nat | m < l < n :: !Reaps(ss[l], es[l], k)
  }

  lemma {:induction false} KilledIffMarked(ss: seq<Sys>, es: seq<Step>, n: nat, k: nat)
    requires Run(ss, es) && Booted(ss[0]) && n <= |es| && k < NPROC
    ensures |ss[n].procs| == NPROC
    ensures ss[n].procs[k].killed <==> Doomed(ss, es, n, k) || Faulted(ss, es, n, k)
  {
    if n > 0 {
      KilledIffMarked(ss, es, n - 1, k);
      assert Stepped(ss[n - 1], es[n - 1], ss[n - 1 + 1]);
      KilledAfter(ss[n - 1], es[n - 1], ss[n], k);
      DoomedAfter(ss, es, n, k);
      FaultedAfter(ss, es, n, k);
    }
  }

  lemma NotReapedAfter(ss: seq<Sys>, es: seq<Step>, m: nat, n: nat, k: nat)
    requires |ss| == |es| + 1 && m + 1 < n <= |es|
    ensures NotReaped(ss, es, m, n, k) <==> NotReaped(ss, es, m, n - 1, k) && !Reaps(ss[n - 1], es[n - 1], k)
  {
  }

  lemma DoomedAfter(ss: seq<Sys>, es: seq<Step>, n: nat, k: nat)
    requires |ss| == |es| + 1 && 0 < n <= |es|
    ensures Doomed(ss, es, n, k) <==>
      Hits(ss[n - 1], es[n - 1], k) || (Doomed(ss, es, n - 1, k) && !Reaps(ss[n - 1], es[n - 1], k))
  {
    if Hits(ss[n - 1], es[n - 1], k) {
      assert NotReaped(ss, es, n - 1, n, k);
    }
    if Doomed(ss, es, n - 1, k) && !Reaps(ss[n - 1], es[n - 1], k) {
      var m: nat :| m < n - 1 && Hits(ss[m], es[m], k) && NotReaped(ss, es, m, n - 1, k);
      NotReapedAfter(ss, es, m, n, k);
    }
    if Doomed(ss, es, n, k) {
      var m: nat :| m < n && Hits(ss[m], es[m], k) && NotReaped(ss, es, m, n, k);
      if m < n - 1 {
        NotReapedAfter(ss, es, m, n, k);
      }
    }
  }

  lemma FaultedAfter(ss: seq<Sys>, es: seq<Step>, n: nat, k: nat)
    requires |ss| == |es| + 1 && 0 < n <= |es|
    ensures Faulted(ss, es, n, k) <==>
      es[n - 1] == Fault(k) || (Faulted(ss, es, n - 1, k) && !Reaps(ss[n - 1], es[n - 1], k))
  {
    if es[n - 1] == Fault(k) {
      assert NotReaped(ss, es, n - 1, n, k);
    }
    if Faulted(ss, es, n - 1, k) && !Reaps(ss[n - 1], es[n - 1], k) {
      var m: nat :| m < n - 1 && es[m] == Fault(k) && NotReaped(ss, es, m, n - 1, k);
      NotReapedAfter(ss, es, m, n, k);
    }
    if Faulted(ss, es, n, k) {
      var m: nat :| m < n && es[m] == Fault(k) && NotReaped(ss, es, m, n, k);
      if m < n - 1 {
        NotReapedAfter(ss, es, m, n, k);
      }
    }
  }

  ghost predicate Started(x: Proc) { x.state != UNUSED && x.state != EMBRYO }

  // Only the wait() that reaps it frees the slot of a process that was started.
  lemma StartedAfter(s: Sys, e: Step, s': Sys, k: nat)
    requires Stepped(s, e, s') && k < |s.procs| && Started(s.procs[k]) && !Reaps(s, e, k)
    ensures |s'.procs| == |s.procs| && Started(s'.procs[k])
  {
    match e
    case Exit(me) => ExitAt(s, me, k);
    case Kill(pid) => KillAt(s, pid, s', k);
    case Wait(me, out) => WaitAt(s, me, s', out, k);
    case _ =>
  }

  lemma {:induction false} FaultedIsStarted(ss: seq<Sys>, es: seq<Step>, m: nat, n: nat, k: nat)
    requires Run(ss, es) && m < n <= |es| && es[m] == Fault(k) && NotReaped(ss, es, m, n, k)
    ensures k < |ss[n].procs| && Started(ss[n].procs[k])
    decreases n
  {
    assert Stepped(ss[n - 1], es[n - 1], ss[n - 1 + 1]);
    if m < n - 1 {
      NotReapedAfter(ss, es, m, n, k);
      FaultedIsStarted(ss, es, m, n - 1, k);
      StartedAfter(ss[n - 1], es[n - 1], ss[n], k);
    }
  }

  /** Allocation does not clear the flag, and a free slot has a pid too: 0, or that of a process
      given up before it started.  So a process starts out killed exactly when a kill() hit its
      slot since the slot was last reaped, or since boot if it never was.  A fault leaves no trace:
      its process is reaped before the slot is free. */
  lemma KilledBeforeBirth(ss: seq<Sys>, es: seq<Step>, n: nat, k: nat)
    requires Run(ss, es) && Booted(ss[0]) && n < |es| && es[n] == Alloc(k)
    ensures |ss[n + 1].procs| == NPROC && k < NPROC
    ensures ss[n + 1].procs[k].state == EMBRYO
    ensures ss[n + 1].procs[k].killed <==> Doomed(ss, es, n, k)
  {
    RunKeepsInv(ss, es, n);
    assert Stepped(ss[n], es[n], ss[n + 1]);
    KilledIffMarked(ss, es, n, k);
    if m: nat :| m < n && es[m] == Fault(k) && NotReaped(ss, es, m, n, k) {
      FaultedIsStarted(ss, es, m, n, k);
      assert false;
    }
  }

  /** The simplest such run: kill(0) as the first call after boot answers 0, and the next process
      to be allocated starts out killed. */
  lemma KillZeroAfterBoot(ss: seq<Sys>, k: nat)
    requires Run(ss, [Kill(0), Alloc(k)]) && Booted(ss[0])
    ensures !NoneWithPid(ss[0].procs, 0)
    ensures |ss[2].procs| == NPROC && k == 1 && ss[2].procs[k].state == EMBRYO && ss[2].procs[k].killed
  {
    assert Stepped(ss[0], Kill(0), ss[0 + 1]);
    assert FirstWithPid(ss[0].procs, 0, 1);
    KilledAfter(ss[0], Kill(0), ss[1], 1);
    assert Stepped(ss[1], Alloc(k), ss[1 + 1]);
    assert forall i: nat | 2 <= i < NPROC :: ss[1].procs[i] == ss[0].procs[i];
  }
}
