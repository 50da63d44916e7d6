/** The code of the sections: loops over the table. */
module Proc {
  import opened Common
  import opened ProcSpec

  class ProcTable {
    const procs: array<Proc>
    var nextpid: nat
    const init: nat
    ghost var exited: set<nat>
    ghost var reaped: seq<nat>

    ghost function Now(): Sys
      reads this, procs
    {
      Sys(procs[..], nextpid, init, exited, reaped)
    }

    constructor (ps: seq<Proc>)
      requires |ps| == NPROC
      ensures Now() == Sys(ps, 2, 0, {}, []) && fresh(procs)
    {
      procs := new Proc[NPROC](i requires 0 <= i < NPROC => ps[i]);
      nextpid, init, exited, reaped := 2, 0, {}, [];
      new;
      assert procs[..] == ps;
    }

    /** `allocproc`: the lowest free slot becomes an embryo with the next pid; its other fields,
        `killed` among them, stay what they were. */
    method AllocProc() returns (k: int)
      requires procs.Length == NPROC
      modifies this`nextpid, procs
      ensures 0 <= k ==> k < NPROC && AllocSection(old(Now()), Now(), k)
      ensures 0 <= k ==>
        && old(procs[k]).state == UNUSED && (forall j: nat | j < k :: old(procs[j]).state != UNUSED)
        && procs[k] == old(procs[k]).(state := EMBRYO, pid := old(nextpid)) && nextpid == old(nextpid) + 1
        && (forall j: nat | j < NPROC && j != k :: procs[j] == old(procs[j]))
      ensures k < 0 ==> Now() == old(Now()) && forall j: nat | j < NPROC :: procs[j].state != UNUSED
    {
      k := 0;
      while k < procs.Length
        invariant 0 <= k <= procs.Length && Now() == old(Now())
        invariant forall j: nat | j < k :: InUse(procs[j])
      {
        if procs[k].state == UNUSED {
          procs[k] := procs[k].(state := EMBRYO, pid := nextpid);
          nextpid := nextpid + 1;
          return;
        }
        k := k + 1;
      }
      k := -1;
    }

    /** `wakeup1`: whoever sleeps on the channel, whatever it is, becomes runnable. */
    method Wakeup1(c: Chan)
      modifies procs
      ensures procs[..] == WakeAll(old(procs[..]), c)
      ensures forall j | 0 <= j < procs.Length ::
        procs[j] == if old(procs[j]).state == SLEEPING && old(procs[j]).chan == c
                    then old(procs[j]).(state := RUNNABLE) else old(procs[j])
    {
      var i := 0;
      while i < procs.Length
        invariant 0 <= i <= procs.Length
        invariant forall j | 0 <= j < i :: procs[j] == Woken(old(procs[j]), c)
        invariant forall j | i <= j < procs.Length :: procs[j] == old(procs[j])
      {
        if procs[i].state == SLEEPING && procs[i].chan == c {
          procs[i] := procs[i].(state := RUNNABLE);
        }
        i := i + 1;
      }
    }

    /** `exit` once the files are closed, up to the switch to the scheduler: the process is a
        zombie, its children are init's, and who slept on the parent's slot, or on init's if it
        got a zombie, is runnable. */
    method Exit(me: nat)
      requires me < procs.Length && me != init
      modifies procs, this`exited
      ensures Now() == ExitSection(old(Now()), me) && exited == old(exited) + {old(procs[me]).pid}
      ensures var was, now := old(procs[..]), procs[..];
        && (forall i: nat | i < |was| ::
          && now[i].pid == was[i].pid && now[i].chan == was[i].chan && now[i].killed == was[i].killed
          && now[i].parent == if was[i].parent == Some(me) then Some(init) else was[i].parent)
        && now[me].state == ZOMBIE
        && (forall i: nat | i < |was| && i != me ::
          now[i].state ==
            if was[i].state != SLEEPING then was[i].state
            else if was[i].chan == (if was[me].parent.Some? then SlotChan(was[me].parent.value) else Null)
              then RUNNABLE
            else if was[i].chan == SlotChan(init)
              && (exists j: nat :: j < |was| && was[j].parent == Some(me) && was[j].state == ZOMBIE)
              then RUNNABLE
            else SLEEPING)
    {
      ghost var s := Now();
      var parent := procs[me].parent;
      ghost var pid := procs[me].pid;
      Wakeup1(ChanOf(parent));
      ghost var ps := procs[..];
      var i := 0;
      while i < procs.Length
        invariant 0 <= i <= procs.Length && procs[..] == Adopted(ps, me, init, i)
        invariant exited == old(exited)
      {
        if procs[i].parent == Some(me) {
          procs[i] := procs[i].(parent := Some(init));
          if procs[i].state == ZOMBIE {
            Wakeup1(SlotChan(init));
          }
        }
        i := i + 1;
      }
      ghost var adopted := procs[..];
      procs[me] := procs[me].(state := ZOMBIE);
      exited := exited + {pid};
      assert procs[..] == adopted[me := adopted[me].(state := ZOMBIE)];
      forall i: nat | i < |s.procs| {
        ExitExactly(s, me, i);
      }
    }

    /** One pass of `wait`, from taking the lock to giving it up. */
    method Wait(me: nat) returns (out: WaitOutcome)
      requires me < procs.Length
      modifies procs, this`reaped
      ensures WaitSection(old(Now()), me, Now(), out)
      ensures var was, now := old(procs[..]), procs[..];
        && (out.Reaped? <==> exists j: nat :: j < |was| && was[j].parent == Some(me) && was[j].state == ZOMBIE)
        && (out.Reaped? ==> forall k: nat | k < |was| ::
          if was[k].parent == Some(me) && was[k].state == ZOMBIE
            && (forall j: nat | j < k :: !(was[j].parent == Some(me) && was[j].state == ZOMBIE))
          then out.pid == was[k].pid && now[k] == Proc(UNUSED, 0, None, was[k].chan, false)
          else now[k] == was[k])
        && (out == NoChild ==> now == was && (was[me].killed || forall j: nat | j < |was| :: was[j].parent != Some(me)))
        && (out == Asleep ==>
          && now == was[me := was[me].(state := SLEEPING, chan := SlotChan(me))]
          && !was[me].killed && exists j: nat :: j < |was| && was[j].parent == Some(me))
    {
      ghost var was := procs[..];
      var havekids := false;
      var i := 0;
      while i < procs.Length
        invariant 0 <= i <= procs.Length && Now() == old(Now())
        invariant havekids <==> exists j: nat :: j < i && was[j].parent == Some(me)
        invariant forall j: nat | j < i :: !(was[j].parent == Some(me) && was[j].state == ZOMBIE)
      {
        if procs[i].parent == Some(me) {
          assert was[i].parent == Some(me);
          havekids := true;
          if procs[i].state == ZOMBIE {
            out := Reaped(procs[i].pid);
            assert FirstZombie(was, me, i);
            procs[i] := procs[i].(state := UNUSED, pid := 0, parent := None, killed := false);
            reaped := reaped + [out.pid];
            assert procs[..] == was[i := Freed(was[i])];
            return;
          }
        }
        i := i + 1;
      }
      assert !HasZombie(was, me);
      assert forall j: nat | j < |was| :: IsChild(was, me, j) <==> was[j].parent == Some(me);
      if !havekids || procs[me].killed {
        return NoChild;
      }
      procs[me] := procs[me].(state := SLEEPING, chan := SlotChan(me));
      return Asleep;
    }

    /** `kill`: the first slot with that pid, in use or not; -1 exactly when there is none. */
    method Kill(pid: nat) returns (r: int)
      modifies procs
      ensures KillSection(old(Now()), pid, Now())
      ensures forall k: nat | k < procs.Length ::
        if old(procs[k]).pid == pid && forall j: nat | j < k :: old(procs[j]).pid != pid
        then procs[k] == Proc(if old(procs[k]).state == SLEEPING then RUNNABLE else old(procs[k]).state,
                              pid, old(procs[k]).parent, old(procs[k]).chan, true)
        else procs[k] == old(procs[k])
      ensures r == if forall j: nat | j < procs.Length :: old(procs[j]).pid != pid then -1 else 0
    {
      var i := 0;
      while i < procs.Length
        invariant 0 <= i <= procs.Length && Now() == old(Now())
        invariant forall j: nat | j < i :: procs[j].pid != pid
      {
        if procs[i].pid == pid {
          ghost var was := procs[..];
          assert FirstWithPid(was, pid, i);
          procs[i] := procs[i].(killed := true);
          if procs[i].state == SLEEPING {
            procs[i] := procs[i].(state := RUNNABLE);
          }
          assert procs[..] == was[i := Killed(was[i])];
          return 0;
        }
        i := i + 1;
      }
      return -1;
    }
  }
}
