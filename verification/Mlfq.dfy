/** `getheight`, the body of `scheduler`, `boostproc` and the scheduling part of `allocproc`. */
module Mlfq {
  import opened MlfqSpec

  class Scheduler {
    const procs: array<Proc>
    ghost var runs: seq<nat>

    ghost predicate Valid()
      reads this, procs
    {
      procs.Length == NPROC && Inv(State(procs[..], runs))
    }

    /** `getheight`: the highest priority of a runnable process, 0 when there is none. */
    method GetHeight() returns (max: int)
      requires Valid()
      ensures max >= 0 && forall j | 0 <= j < NPROC && procs[j].state == Runnable :: procs[j].priority <= max
      ensures max == 0 || exists j :: 0 <= j < NPROC && procs[j].state == Runnable && procs[j].priority == max
    {
      max := 0;
      var p := 0;
      while p < NPROC
        invariant 0 <= p <= NPROC && max >= 0
        invariant forall j | 0 <= j < p && procs[j].state == Runnable :: procs[j].priority <= max
        invariant max == 0 || exists j :: 0 <= j < p && procs[j].state == Runnable && procs[j].priority == max
      {
        if procs[p].state == Runnable && procs[p].priority > max {
          max := procs[p].priority;
        }
        p := p + 1;
      }
    }

    // The ageing loop, for the process in slot `p`.
    method Age(p: nat)
      requires procs.Length == NPROC && p < NPROC
      modifies procs
      ensures forall j | 0 <= j < p :: procs[j] == AgeOne(old(procs[j]), old(procs[p].priority))
      ensures forall j | p <= j < NPROC :: procs[j] == old(procs[j])
    {
      var pp := 0;
      while pp != p && pp < NPROC
        invariant pp <= p
        invariant forall j | 0 <= j < pp :: procs[j] == AgeOne(old(procs[j]), old(procs[p].priority))
        invariant forall j | pp <= j < NPROC :: procs[j] == old(procs[j])
      {
        if procs[pp].state == Runnable {
          procs[pp] := procs[pp].(wait := procs[pp].wait + 1);
          if procs[pp].wait == 10 * TimeSlice(procs[pp].priority) && procs[pp].priority < 3 {
            procs[pp] := procs[pp].(priority := procs[pp].priority + 1, wait := 0);
            procs[pp] := procs[pp].(slice := Slices(procs[p].priority), tick := TimeSlice(procs[p].priority));
          }
        }
        pp := pp + 1;
      }
    }

    /** The scheduler comes to slot `p`: it runs the process there if that is runnable and none has a
        higher priority, and passes on otherwise.  The process is charged a tick of its slice; the
        runnable ones in earlier slots have waited one more, and those that have now waited ten
        time slices of their level rise by one, with the slice and the tick of the level running. */
    method Consider(p: nat) returns (run: bool)
      requires Valid() && p < NPROC
      modifies this`runs, procs
      ensures Valid()
      ensures run <==> old(Highest(procs[..], p))
      ensures run ==>
        && Enabled(old(procs[..]), Dispatch(p))
        && State(procs[..], runs) == Apply(old(State(procs[..], runs)), Dispatch(p))
      ensures run ==>
        var was, now := old(procs[..]), procs[..];
        var level := was[p].priority;
        && 0 <= level <= 3 == |was[p].ticks| - 1
        && now[p] == Proc(Running, level, was[p].tick - 1, was[p].slice - 1, 0,
                          was[p].ticks[level := was[p].ticks[level] + 1])
        && (forall j: nat | p < j < NPROC :: now[j] == was[j])
        && (forall j: nat | j < p ::
          now[j] ==
            if was[j].state != Runnable then was[j]
            else if (was[j].priority == 0 && was[j].wait == 639) || (was[j].priority == 1 && was[j].wait == 39)
                 || (was[j].priority == 2 && was[j].wait == 19) then
              was[j].(priority := was[j].priority + 1, wait := 0, tick := [64, 4, 2, 1][level],
                      slice := [8000000, 32, 16, 8][level])
            else was[j].(wait := was[j].wait + 1))
      ensures !run ==> procs[..] == old(procs[..]) && runs == old(runs)
    {
      ghost var t0, st0 := procs[..], State(procs[..], runs);
      assert ProcOk(t0[p], runs[p]);
      if procs[p].state != Runnable {
        return false;
      }
      var level := GetHeight();
      if procs[p].priority != level {
        return false;
      }
      procs[p] := procs[p].(tick := procs[p].tick - 1, wait := 0);
      procs[p] := procs[p].(ticks := procs[p].ticks[procs[p].priority := procs[p].ticks[procs[p].priority] + 1]);
      procs[p] := procs[p].(slice := procs[p].slice - 1);
      assert procs[p] == Charged(t0[p]);
      Age(p);
      procs[p] := procs[p].(state := Running);
      runs := runs[p := runs[p] + 1];
      assert Highest(t0, p);
      assert procs[..] == Dispatched(t0, p);
      StepKeepsInv(st0, Dispatch(p));
      DispatchExactly(st0, p);
      return true;
    }

    /** A pass of the scheduler from slot `from` to the first process it runs; from slot 0 it runs one
        whenever any is runnable. */
    method Pass(from: nat) returns (p: nat)
      requires Valid() && from <= NPROC
      modifies this`runs, procs
      ensures Valid() && from <= p <= NPROC
      ensures forall j: nat | from <= j < p :: !Highest(old(procs[..]), j)
      ensures p < NPROC ==>
        && Highest(old(procs[..]), p)
        && State(procs[..], runs) == Apply(old(State(procs[..], runs)), Dispatch(p))
      ensures p == NPROC ==> procs[..] == old(procs[..]) && runs == old(runs)
      ensures from == 0 && p == NPROC ==> forall j | 0 <= j < NPROC :: procs[j].state != Runnable
    {
      p := from;
      while p < NPROC
        invariant from <= p <= NPROC && Valid() && procs[..] == old(procs[..]) && runs == old(runs)
        invariant forall j: nat | from <= j < p :: !Highest(old(procs[..]), j)
      {
        var run := Consider(p);
        if run {
          return;
        }
        p := p + 1;
      }
      if from == 0 {
        SomeHighest(procs[..]);
      }
    }

    /** The process in slot `p` is back, in state `to`; `next` is the slot to consider next.  A process
        back from level 0 with its slice used up gets priority -1, and its tick and slice are read from
        before the arrays. */
    method Back(p: nat, to: PState) returns (next: nat)
      requires Valid() && p < NPROC && Enabled(procs[..], Return(p, to))
      modifies procs
      ensures Valid() <==> !old(Exhausted(procs[..], Return(p, to)))
      ensures Valid() ==> State(procs[..], runs) == Apply(old(State(procs[..], runs)), Return(p, to))
      ensures !Valid() ==>
        && procs[p].priority == -1
        && procs[..] == old(procs[..])[p := old(procs[p]).(
             state := to, priority := -1, tick := procs[p].tick, slice := procs[p].slice)]
      ensures Valid() ==>
        var was := old(procs[p]);
        && 0 <= was.priority <= 3 && (was.slice == 0 ==> was.priority > 0)
        && procs[..] == old(procs[..])[p :=
             if was.slice == 0 then
               was.(state := to, priority := was.priority - 1, tick := [64, 4, 2, 1][was.priority - 1],
                    slice := [8000000, 32, 16, 8][was.priority - 1])
             else if was.tick == 0 then was.(state := to, tick := [64, 4, 2, 1][was.priority])
             else was.(state := to)]
      ensures next == if old(procs[p].slice) != 0 && old(procs[p].tick) != 0 then p else p + 1
    {
      ghost var st0 := State(procs[..], runs);
      StepKeepsInv(st0, Return(p, to));
      assert ProcOk(st0.t[p], runs[p]);
      procs[p] := procs[p].(state := to);
      next := p + 1;
      if procs[p].slice == 0 {
        procs[p] := procs[p].(priority := procs[p].priority - 1);
        procs[p] := procs[p].(tick := TimeSlice(procs[p].priority), slice := Slices(procs[p].priority));
      } else if procs[p].tick != 0 {
        next := p;
      } else {
        procs[p] := procs[p].(tick := TimeSlice(procs[p].priority));
      }
      assert procs[..] == Apply(st0, Return(p, to)).t;
    }

    /** `boostproc`, by the running process in slot `p`: one level up, with the slice and the tick of
        that level; at level 3 nothing happens. */
    method BoostProc(p: nat)
      requires Valid() && p < NPROC && procs[p].state == Running
      modifies procs
      ensures Valid()
      ensures State(procs[..], runs) == Apply(old(State(procs[..], runs)), Boost(p))
      ensures var was := old(procs[p]);
        && 0 <= was.priority <= 3
        && procs[..] == old(procs[..])[p :=
             if was.priority == 3 then was
             else was.(priority := was.priority + 1, wait := 0, tick := [64, 4, 2, 1][was.priority + 1],
                       slice := [8000000, 32, 16, 8][was.priority + 1])]
    {
      ghost var st0 := State(procs[..], runs);
      StepKeepsInv(st0, Boost(p));
      assert ProcOk(st0.t[p], runs[p]);
      if procs[p].priority != 3 {
        procs[p] := procs[p].(priority := procs[p].priority + 1, wait := 0);
        procs[p] := procs[p].(slice := Slices(procs[p].priority), tick := TimeSlice(procs[p].priority));
      }
      assert procs[..] == Apply(st0, Boost(p)).t;
    }

    /** The scheduling part of `allocproc`: the first unused slot, or none. */
    method AllocProc() returns (p: nat)
      requires Valid()
      modifies this`runs, procs
      ensures Valid() && p <= NPROC
      ensures forall j | 0 <= j < p :: old(procs[j].state) != Unused
      ensures p == NPROC ==> procs[..] == old(procs[..]) && runs == old(runs)
      ensures p < NPROC ==>
        && old(procs[p].state) == Unused
        && State(procs[..], runs) == Apply(old(State(procs[..], runs)), Alloc(p))
        && procs[..] == old(procs[..])[p := Proc(Embryo, 3, 1, 8, 0, [0, 0, 0, 0])]
    {
      p := 0;
      while p < NPROC && procs[p].state != Unused
        invariant p <= NPROC && forall j | 0 <= j < p :: procs[j].state != Unused
      {
        p := p + 1;
      }
      if p == NPROC {
        return;
      }
      ghost var st0 := State(procs[..], runs);
      StepKeepsInv(st0, Alloc(p));
      procs[p] := procs[p].(state := Embryo, priority := 3, tick := TimeSlice(3), wait := 0);
      procs[p] := procs[p].(ticks := [0, 0, 0, 0], slice := 8);
      runs := runs[p := 0];
      assert procs[..] == Apply(st0, Alloc(p)).t;
    }
  }

  // Among the runnable processes one has the highest priority.
  lemma {:induction false} SomeHighest(t: Table)
    ensures (exists j | 0 <= j < |t| :: t[j].state == Runnable) ==> exists j: nat :: j < |t| && Highest(t, j)
  {
    if t != [] {
      var n := |t| - 1;
      var u := t[..n];
      SomeHighest(u);
      if exists j | 0 <= j < |u| :: u[j].state == Runnable {
        var j: nat :| j < |u| && Highest(u, j);
        if t[n].state == Runnable && t[n].priority > t[j].priority {
          assert Highest(t, n);
        } else {
          assert Highest(t, j);
        }
      } else if t[n].state == Runnable {
        assert forall j | 0 <= j < n :: t[j] == u[j];
        assert Highest(t, n);
      }
    }
  }
}
