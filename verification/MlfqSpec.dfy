/** The four-level feedback queue: what a dispatch, a return, a boost and an allocation do to the
    process table, and what every run of them keeps. */
module MlfqSpec {

  const NPROC: nat := 64

  datatype PState = Unused | Embryo | Sleeping | Runnable | Running | Zombie

  // The scheduler's fields of a process.
  datatype Proc = Proc(state: PState, priority: int, tick: int, slice: int, wait: nat, ticks: seq<nat>)

  type Table = seq<Proc>

  // `time_slice` and `slices`; outside the arrays nothing is promised.
  function TimeSlice(level: int): nat {
    if level == 0 then 64 else if level == 1 then 4 else if level == 2 then 2 else if level == 3 then 1 else 0
  }

  function Slices(level: int): nat {
    if level == 0 then 8000000 else if level == 1 then 32 else if level == 2 then 16 else if level == 3 then 8 else 0
  }

  function Sum(ticks: seq<nat>): nat {
    if ticks == [] then 0 else Sum(ticks[..|ticks| - 1]) + ticks[|ticks| - 1]
  }

  // ----- the effect of each piece of code

  function Fresh(p: Proc): Proc {
    p.(state := Embryo, priority := 3, tick := TimeSlice(3), wait := 0, ticks := [0, 0, 0, 0], slice := 8)
  }

  // One turn of the ageing loop, for a process running at `level`.
  function AgeOne(pp: Proc, level: int): Proc {
    if pp.state != Runnable then pp
    else if pp.wait + 1 == 10 * TimeSlice(pp.priority) && pp.priority < 3 then
      pp.(priority := pp.priority + 1, wait := 0, slice := Slices(level), tick := TimeSlice(level))
    else pp.(wait := pp.wait + 1)
  }

  function Charged(p: Proc): Proc
    requires 0 <= p.priority < |p.ticks|
  {
    p.(tick := p.tick - 1, wait := 0, ticks := p.ticks[p.priority := p.ticks[p.priority] + 1], slice := p.slice - 1)
  }

  // Process `i` is charged and runs; those in earlier slots age.
  function Dispatched(t: Table, i: nat): Table
    requires i < |t| && 0 <= t[i].priority < |t[i].ticks|
  {
    seq(|t|, j requires 0 <= j < |t| =>
      if j < i then AgeOne(t[j], t[i].priority) else if j == i then Charged(t[i]).(state := Running) else t[j])
  }

  // Back in the scheduler, in state `to`.
  function Returned(p: Proc, to: PState): Proc {
    if p.slice == 0 then
      p.(state := to, priority := p.priority - 1, tick := TimeSlice(p.priority - 1), slice := Slices(p.priority - 1))
    else if p.tick != 0 then p.(state := to)
    else p.(state := to, tick := TimeSlice(p.priority))
  }

  function Boosted(p: Proc): Proc {
    if p.priority != 3 then
      p.(priority := p.priority + 1, wait := 0, slice := Slices(p.priority + 1), tick := TimeSlice(p.priority + 1))
    else p
  }

  // ----- runs

  datatype Step =
    | Alloc(i: nat)
    | Dispatch(i: nat)
    | Return(i: nat, to: PState)
    | Boost(i: nat)
    | Move(i: nat, to: PState)        // wakeup, fork's end, wait's reaping, a failed allocation

  // No runnable process has a higher priority.
  ghost predicate Highest(t: Table, i: nat)
    requires i < |t|
  {
    t[i].state == Runnable && forall j | 0 <= j < |t| && t[j].state == Runnable :: t[j].priority <= t[i].priority
  }

  ghost predicate Enabled(t: Table, s: Step) {
    s.i < |t| &&
    match s
    case Alloc(i) => t[i].state == Unused
    case Dispatch(i) => Highest(t, i)
    case Return(i, to) => t[i].state == Running && (to == Runnable || to == Sleeping || to == Zombie)
    case Boost(i) => t[i].state == Running
    case Move(i, to) => t[i].state != Unused && t[i].state != Running && to != Running && to != Embryo
  }

  // A table and, for each slot, the dispatches since its process was allocated.
  datatype State = State(t: Table, runs: seq<nat>)

  ghost function Apply(st: State, s: Step): State
    requires Inv(st) && Enabled(st.t, s)
  {
    var t := st.t;
    match s
    case Alloc(i) => State(t[i := Fresh(t[i])], st.runs[i := 0])
    case Dispatch(i) => assert ProcOk(t[i], st.runs[i]); State(Dispatched(t, i), st.runs[i := st.runs[i] + 1])
    case Return(i, to) => State(t[i := Returned(t[i], to)], st.runs)
    case Boost(i) => State(t[i := Boosted(t[i])], st.runs)
    case Move(i, to) => State(t[i := t[i].(state := to)], st.runs)
  }

  ghost predicate ProcOk(p: Proc, runs: nat) {
    p.state != Unused ==>
      && 0 <= p.priority <= 3 && |p.ticks| == 4 && Sum(p.ticks) == runs
      && (if p.state == Running then 0 <= p.tick <= 64 && p.slice >= 0 && p.wait == 0
          else 1 <= p.tick <= 64 && p.slice >= 1)
      && (p.priority < 3 ==> p.wait < 10 * TimeSlice(p.priority))
  }

  /** Of every process in use: its level is 0..3, its ticks add up to its dispatches, it has ticks and
      slices left while it is not running, and below level 3 it has not waited long enough to rise. */
  ghost predicate Inv(st: State) {
    |st.t| == |st.runs| == NPROC && forall i: nat | i < NPROC :: ProcOk(st.t[i], st.runs[i])
  }

  /** The one step that breaks the invariant: a process at level 0 comes back with its slice used up. */
  ghost predicate Exhausted(t: Table, s: Step) {
    s.Return? && s.i < |t| && t[s.i].priority == 0 && t[s.i].slice == 0
  }

  lemma SumSet(ticks: seq<nat>, k: nat, x: nat)
    requires |ticks| == 4 && k < 4
    ensures Sum(ticks[k := x]) + ticks[k] == Sum(ticks) + x
  {
    SumFour(ticks);
    SumFour(ticks[k := x]);
  }

  lemma SumFour(a: seq<nat>)
    requires |a| == 4
    ensures Sum(a) == a[0] + a[1] + a[2] + a[3]
  {
    var b := a[..3];
    var c := b[..2];
    var d := c[..1];
    assert Sum(d) == Sum(d[..0]) + d[0] && Sum(c) == Sum(d) + c[1] && Sum(b) == Sum(c) + b[2];
  }

  lemma AgeKeeps(pp: Proc, level: int, runs: nat)
    requires ProcOk(pp, runs) && 0 <= level <= 3
    ensures ProcOk(AgeOne(pp, level), runs)
  {
  }

  /** Every step but that one keeps the invariant, and that one always breaks it. */
  lemma StepKeepsInv(st: State, s: Step)
    requires Inv(st) && Enabled(st.t, s)
    ensures Inv(Apply(st, s)) <==> !Exhausted(st.t, s)
  {
    var st' := Apply(st, s);
    assert ProcOk(st.t[s.i], st.runs[s.i]);
    if Exhausted(st.t, s) {
      assert !ProcOk(st'.t[s.i], st'.runs[s.i]);
    }
    if !Exhausted(st.t, s) {
      forall j: nat | j < NPROC ensures ProcOk(st'.t[j], st'.runs[j]) {
        assert ProcOk(st.t[j], st.runs[j]);
        if s.Dispatch? {
          if j < s.i {
            AgeKeeps(st.t[j], st.t[s.i].priority, st.runs[j]);
          } else if j == s.i {
            SumSet(st.t[j].ticks, st.t[j].priority, st.t[j].ticks[st.t[j].priority] + 1);
          }
        } else if s.Alloc? && j == s.i {
          SumFour([0, 0, 0, 0]);
        }
      }
    }
  }

  /** A dispatch, field by field: the process is charged a tick of its slice; a runnable process in an
      earlier slot has waited one more or, having waited ten time slices of its level, rises by one
      with the tick and the slice of the level running. */
  lemma DispatchExactly(st: State, p: nat)
    requires Inv(st) && p < NPROC && st.t[p].state == Runnable
    ensures var was := st.t; var level := was[p].priority;
            && 0 <= level <= 3 == |was[p].ticks| - 1
            && var now := Dispatched(was, p);
            && now[p] == Proc(Running, level, was[p].tick - 1, was[p].slice - 1, 0,
                              was[p].ticks[level := was[p].ticks[level] + 1])
            && (forall j: nat | p < j < NPROC :: now[j] == was[j])
            && (forall j: nat | j < p ::
              now[j] ==
                if was[j].state != Runnable then was[j]
                else if (was[j].priority == 0 && was[j].wait == 639) || (was[j].priority == 1 && was[j].wait == 39)
                     || (was[j].priority == 2 && was[j].wait == 19) then
                  was[j].(priority := was[j].priority + 1, wait := 0, tick := [64, 4, 2, 1][level],
                          slice := [8000000, 32, 16, 8][level])
                else was[j].(wait := was[j].wait + 1))
  {
    assert ProcOk(st.t[p], st.runs[p]);
    forall j: nat | j < p ensures ProcOk(st.t[j], st.runs[j]) {}
  }

  ghost predicate IsRun(run: seq<State>, steps: seq<Step>) {
    |run| == |steps| + 1 &&
    forall k: nat | k < |steps| :: StepAt(run, steps, k)
  }

  ghost predicate StepAt(run: seq<State>, steps: seq<Step>, k: nat)
    requires k + 1 < |run| && k < |steps|
  {
    Inv(run[k]) ==> Enabled(run[k].t, steps[k]) && run[k + 1] == Apply(run[k], steps[k])
  }

  /** Every run keeps the invariant until a level-0 process has used up its slice. */
  lemma {:induction false} RunKeepsInv(run: seq<State>, steps: seq<Step>, n: nat)
    requires IsRun(run, steps) && n < |run| && Inv(run[0])
    requires forall k: nat | k < n :: !Exhausted(run[k].t, steps[k])
    ensures Inv(run[n])
  {
    if n > 0 {
      RunKeepsInv(run, steps, n - 1);
      assert StepAt(run, steps, n - 1);
      StepKeepsInv(run[n - 1], steps[n - 1]);
    }
  }

  /** A dispatched process outranks every runnable one, but for those that this dispatch promotes. */
  lemma DispatchedHighest(t: Table, i: nat, j: nat)
    requires i < |t| && j < |t| && Highest(t, i) && 0 <= t[i].priority < |t[i].ticks|
    requires Dispatched(t, i)[j].state == Runnable && Dispatched(t, i)[j].priority > Dispatched(t, i)[i].priority
    ensures j < i && t[j].priority == t[i].priority && Dispatched(t, i)[j].wait == 0
  {
    assert t[j].state == Runnable;
  }

  // ----- waiting

  // The step dispatches a slot after `j`: only then does slot `j` age.
  ghost predicate PassesOver(s: Step, j: nat) { s.Dispatch? && j < s.i }

  // How many of the steps a..b dispatch a slot after `j`.
  ghost function Passed(steps: seq<Step>, a: nat, b: nat, j: nat): nat
    requires a <= b <= |steps|
  {
    if a == b then 0 else Passed(steps, a, b - 1, j) + (if PassesOver(steps[b - 1], j) then 1 else 0)
  }

  // Steps a..b of a run that keeps the invariant, none of them about slot `j`.
  ghost predicate LeftAlone(run: seq<State>, steps: seq<Step>, a: nat, b: nat, j: nat) {
    && IsRun(run, steps) && a <= b < |run| && j < NPROC && Inv(run[0])
    && (forall k: nat | k < b :: !Exhausted(run[k].t, steps[k]))
    && (forall k: nat | a <= k < b :: steps[k].i != j)
  }

  lemma OtherSlot(st: State, s: Step, j: nat)
    requires Inv(st) && Enabled(st.t, s) && s.i != j && j < NPROC
    ensures |Apply(st, s).t| == NPROC
    ensures Apply(st, s).t[j] == if PassesOver(s, j) then AgeOne(st.t[j], st.t[s.i].priority) else st.t[j]
  {
    assert ProcOk(st.t[s.i], st.runs[s.i]);
  }

  // The last of the steps a..b, as slot `j` sees it.
  lemma LastStep(run: seq<State>, steps: seq<Step>, a: nat, b: nat, j: nat)
    requires LeftAlone(run, steps, a, b, j) && a < b
    ensures LeftAlone(run, steps, a, b - 1, j) && Inv(run[b - 1]) && Inv(run[b]) && steps[b - 1].i < NPROC
    ensures run[b].t[j] ==
      if PassesOver(steps[b - 1], j) then AgeOne(run[b - 1].t[j], run[b - 1].t[steps[b - 1].i].priority)
      else run[b - 1].t[j]
  {
    RunKeepsInv(run, steps, b - 1);
    RunKeepsInv(run, steps, b);
    assert StepAt(run, steps, b - 1);
    OtherSlot(run[b - 1], steps[b - 1], j);
  }

  /** Ageing, over any part of any run that leaves the slot alone.  A runnable process has waited one
      more for every dispatch of a later slot.  Below level 3 it rises exactly when that makes
      10 * time_slice, with its waiting time cleared; at level 3 it just waits. */
  lemma {:induction false} WaitCounts(run: seq<State>, steps: seq<Step>, a: nat, b: nat, j: nat)
    requires LeftAlone(run, steps, a, b, j) && Inv(run[a]) && run[a].t[j].state == Runnable
    ensures Inv(run[b])
    ensures var p, q := run[a].t[j], run[b].t[j];
            var waited, limit := p.wait + Passed(steps, a, b, j), 10 * TimeSlice(p.priority);
            && q.state == Runnable && q.priority >= p.priority
            && (p.priority == 3 || waited < limit ==> q == p.(wait := waited))
            && (p.priority < 3 ==> (q.priority > p.priority <==> waited >= limit))
            && (p.priority < 3 && waited == limit ==> q.priority == p.priority + 1 && q.wait == 0)
    decreases b
  {
    assert ProcOk(run[a].t[j], run[a].runs[j]);
    if a < b {
      LastStep(run, steps, a, b, j);
      WaitCounts(run, steps, a, b - 1, j);
      assert ProcOk(run[b - 1].t[j], run[b - 1].runs[j]);
    }
  }

  /** So a process behind every dispatched one never rises, nor waits any longer, however long the run. */
  lemma {:induction false} BehindNeverRises(run: seq<State>, steps: seq<Step>, a: nat, b: nat, j: nat)
    requires LeftAlone(run, steps, a, b, j) && Inv(run[a])
    requires forall k: nat | a <= k < b && steps[k].Dispatch? :: steps[k].i < j
    ensures Inv(run[b]) && run[b].t[j] == run[a].t[j]
    decreases b
  {
    if a < b {
      LastStep(run, steps, a, b, j);
      BehindNeverRises(run, steps, a, b - 1, j);
    }
  }

  // ----- two kinds of run that exist

  lemma Prepended(st: State, s: Step, run: seq<State>, steps: seq<Step>)
    requires Inv(st) && Enabled(st.t, s) && IsRun(run, steps) && run[0] == Apply(st, s)
    ensures IsRun([st] + run, [s] + steps)
  {
    forall k: nat | k < |steps| + 1 ensures StepAt([st] + run, [s] + steps, k) {
      if k > 0 {
        assert StepAt(run, steps, k - 1);
      }
    }
  }

  // One run after another.
  lemma Joined(run: seq<State>, steps: seq<Step>, run': seq<State>, steps': seq<Step>)
    requires IsRun(run, steps) && IsRun(run', steps') && run[|steps|] == run'[0]
    ensures IsRun(run + run'[1..], steps + steps')
  {
    var all, every := run + run'[1..], steps + steps';
    forall k: nat | k < |every| ensures StepAt(all, every, k) {
      if k < |steps| {
        assert StepAt(run, steps, k);
      } else {
        assert StepAt(run', steps', k - |steps|);
        assert all[k] == run'[k - |steps|] && all[k + 1] == run'[k - |steps| + 1];
      }
    }
  }

  // Slot `i` has the only runnable process.
  ghost predicate Alone(t: Table, i: nat) {
    |t| == NPROC && i < NPROC && t[i].state == Runnable
    && forall j | 0 <= j < NPROC && j != i :: t[j].state != Runnable
  }

  // It runs and comes back.
  lemma AloneTurn(st: State, i: nat) returns (st1: State, st2: State)
    requires Inv(st) && Alone(st.t, i)
    ensures Enabled(st.t, Dispatch(i)) && st1 == Apply(st, Dispatch(i)) && Inv(st1)
    ensures Enabled(st1.t, Return(i, Runnable)) && st2 == Apply(st1, Return(i, Runnable))
    ensures st1.t[i].priority == st.t[i].priority && st1.t[i].slice == st.t[i].slice - 1 >= 0
    ensures |st2.t| == NPROC && forall j: nat | j < NPROC && j != i :: st2.t[j] == st.t[j]
    ensures !Exhausted(st1.t, Return(i, Runnable)) ==> Inv(st2) && Alone(st2.t, i)
    ensures st1.t[i].slice > 0 ==> st2.t[i].priority == st.t[i].priority && st2.t[i].slice == st.t[i].slice - 1
    ensures st1.t[i].slice == 0 ==> st2.t[i].priority == st.t[i].priority - 1
  {
    assert ProcOk(st.t[i], st.runs[i]);
    st1 := Apply(st, Dispatch(i));
    StepKeepsInv(st, Dispatch(i));
    st2 := Apply(st1, Return(i, Runnable));
    StepKeepsInv(st1, Return(i, Runnable));
  }

  /** The exception is reached: a process that runs alone and never sleeps goes down the levels until
      its slice at level 0 is used up. */
  lemma {:induction false} WearsOut(st: State, i: nat) returns (run: seq<State>, steps: seq<Step>)
    requires Inv(st) && Alone(st.t, i)
    ensures IsRun(run, steps) && run[0] == st
    ensures Enabled(run[|steps|].t, Return(i, Runnable)) && Exhausted(run[|steps|].t, Return(i, Runnable))
    decreases st.t[i].priority, st.t[i].slice
  {
    assert ProcOk(st.t[i], st.runs[i]);
    var st1, st2 := AloneTurn(st, i);
    assert ProcOk(st1.t[i], st1.runs[i]);
    if Exhausted(st1.t, Return(i, Runnable)) {
      Prepended(st, Dispatch(i), [st1], []);
      return [st] + [st1], [Dispatch(i)] + [];
    }
    run, steps := WearsOut(st2, i);
    Prepended(st1, Return(i, Runnable), run, steps);
    run, steps := [st1] + run, [Return(i, Runnable)] + steps;
    Prepended(st, Dispatch(i), run, steps);
    run, steps := [st] + run, [Dispatch(i)] + steps;
  }

  // On the way it passes level 1.
  lemma {:induction false} Sinks(st: State, i: nat) returns (run: seq<State>, steps: seq<Step>)
    requires Inv(st) && Alone(st.t, i) && st.t[i].priority >= 1
    ensures IsRun(run, steps) && run[0] == st
    ensures Inv(run[|steps|]) && Alone(run[|steps|].t, i) && run[|steps|].t[i].priority == 1
    ensures forall j: nat | j < NPROC && j != i :: run[|steps|].t[j] == st.t[j]
    decreases st.t[i].priority, st.t[i].slice
  {
    if st.t[i].priority == 1 {
      return [st], [];
    }
    assert ProcOk(st.t[i], st.runs[i]);
    var st1, st2 := AloneTurn(st, i);
    assert ProcOk(st1.t[i], st1.runs[i]);
    run, steps := Sinks(st2, i);
    Prepended(st1, Return(i, Runnable), run, steps);
    run, steps := [st1] + run, [Return(i, Runnable)] + steps;
    Prepended(st, Dispatch(i), run, steps);
    run, steps := [st] + run, [Dispatch(i)] + steps;
  }

  // A process is allocated in slot `i`, and so far not runnable.
  lemma Allocated(st: State, i: nat) returns (st': State)
    requires Inv(st) && i < NPROC && st.t[i].state == Unused
    ensures Enabled(st.t, Alloc(i)) && st' == Apply(st, Alloc(i)) && Inv(st')
    ensures st'.t[i].state == Embryo && st'.t[i].priority == 3 && st'.t[i].slice == 8 && st'.t[i].tick == 1
    ensures forall j: nat | j < NPROC && j != i :: st'.t[j] == st.t[j]
  {
    st' := Apply(st, Alloc(i));
    StepKeepsInv(st, Alloc(i));
  }

  /** In particular from an empty table, by the first process allocated in it. */
  lemma ExhaustedReachable(t: Table) returns (run: seq<State>, steps: seq<Step>)
    requires |t| == NPROC && forall j | 0 <= j < NPROC :: t[j].state == Unused
    ensures IsRun(run, steps) && run[0].t == t && Inv(run[0])
    ensures Enabled(run[|steps|].t, Return(0, Runnable)) && Exhausted(run[|steps|].t, Return(0, Runnable))
  {
    var st := State(t, seq(NPROC, i => 0));
    var st1 := Allocated(st, 0);
    StepKeepsInv(st1, Move(0, Runnable));
    run, steps := WearsOut(Apply(st1, Move(0, Runnable)), 0);
    Prepended(st1, Move(0, Runnable), run, steps);
    run, steps := [st1] + run, [Move(0, Runnable)] + steps;
    Prepended(st, Alloc(0), run, steps);
    run, steps := [st] + run, [Alloc(0)] + steps;
  }

  // Slot 0 boosts itself from level 2 whenever it gets there; the others are at levels 0 and 1.
  ghost predicate Hogged(t: Table) {
    && |t| == NPROC && t[0].state == Runnable
    && (if t[0].priority == 3 then 1 <= t[0].slice <= 8 && t[0].tick == 1
        else t[0].priority == 2 && t[0].slice == 16 && t[0].tick == 2)
    && (forall j | 0 < j < NPROC && t[j].state == Runnable :: t[j].priority < 2)
  }

  lemma HogTurn(st: State) returns (st1: State, st2: State, st3: State)
    requires Inv(st) && Hogged(st.t)
    ensures Enabled(st.t, Dispatch(0)) && st1 == Apply(st, Dispatch(0)) && Inv(st1)
    ensures Enabled(st1.t, Boost(0)) && st2 == Apply(st1, Boost(0)) && Inv(st2)
    ensures Enabled(st2.t, Return(0, Runnable)) && st3 == Apply(st2, Return(0, Runnable)) && Inv(st3)
    ensures Hogged(st3.t) && st3.t[1..] == st.t[1..]
  {
    assert ProcOk(st.t[0], st.runs[0]);
    st1 := Apply(st, Dispatch(0));
    StepKeepsInv(st, Dispatch(0));
    st2 := Apply(st1, Boost(0));
    StepKeepsInv(st1, Boost(0));
    st3 := Apply(st2, Return(0, Runnable));
    StepKeepsInv(st2, Return(0, Runnable));
    assert forall j | 0 < j < NPROC :: st3.t[j] == st.t[j];
  }

  /** Ageing does not rule out starvation: a process in slot 0 that boosts itself is dispatched any
      number of times, while the processes in later slots neither run nor rise. */
  lemma {:induction false} Starves(st: State, n: nat) returns (run: seq<State>, steps: seq<Step>)
    requires Inv(st) && Hogged(st.t)
    ensures IsRun(run, steps) && run[0] == st && |steps| == 3 * n
    ensures forall k: nat | k < n :: steps[3 * k] == Dispatch(0)
    ensures Inv(run[3 * n]) && Hogged(run[3 * n].t) && run[3 * n].t[1..] == st.t[1..]
    decreases n
  {
    if n == 0 {
      return [st], [];
    }
    var st1, st2, st3 := HogTurn(st);
    run, steps := Starves(st3, n - 1);
    ghost var later := steps;
    Prepended(st2, Return(0, Runnable), run, steps);
    run, steps := [st2] + run, [Return(0, Runnable)] + steps;
    Prepended(st1, Boost(0), run, steps);
    run, steps := [st1] + run, [Boost(0)] + steps;
    Prepended(st, Dispatch(0), run, steps);
    run, steps := [st] + run, [Dispatch(0)] + steps;
    forall k: nat | k < n ensures steps[3 * k] == Dispatch(0) {
      if k > 0 {
        assert steps[3 * k] == later[3 * (k - 1)];
      }
    }
  }

  // From an empty table: slot 0 is allocated and not started until slot 1 has run down to level 1.
  lemma HogReachable(t: Table) returns (run: seq<State>, steps: seq<Step>)
    requires |t| == NPROC && forall j | 0 <= j < NPROC :: t[j].state == Unused
    ensures IsRun(run, steps) && run[0].t == t && Inv(run[0])
    ensures Inv(run[|steps|]) && Hogged(run[|steps|].t) && run[|steps|].t[1].state == Runnable
  {
    var st := State(t, seq(NPROC, i => 0));
    var st1 := Allocated(st, 0);
    var st2 := Allocated(st1, 1);
    var st3 := Apply(st2, Move(1, Runnable));
    StepKeepsInv(st2, Move(1, Runnable));
    run, steps := Sinks(st3, 1);
    ghost var last := run[|steps|];
    assert last.t[0] == st3.t[0];
    StepKeepsInv(last, Move(0, Runnable));
    var st4 := Apply(last, Move(0, Runnable));
    Prepended(last, Move(0, Runnable), [st4], []);
    Joined(run, steps, [last] + [st4], [Move(0, Runnable)] + []);
    run, steps := run + ([last] + [st4])[1..], steps + ([Move(0, Runnable)] + []);
    Prepended(st2, Move(1, Runnable), run, steps);
    run, steps := [st2] + run, [Move(1, Runnable)] + steps;
    Prepended(st1, Alloc(1), run, steps);
    run, steps := [st1] + run, [Alloc(1)] + steps;
    Prepended(st, Alloc(0), run, steps);
    run, steps := [st] + run, [Alloc(0)] + steps;
  }

  /** So from an empty table there are runs that end with slot 0 dispatched `n` times, for any `n`, while the
      process in slot 1 is runnable and neither runs, rises nor waits any longer. */
  lemma StarvedFromBoot(t: Table, n: nat) returns (run: seq<State>, steps: seq<Step>, a: nat)
    requires |t| == NPROC && forall j | 0 <= j < NPROC :: t[j].state == Unused
    ensures IsRun(run, steps) && run[0].t == t && Inv(run[0]) && |steps| == a + 3 * n
    ensures forall k: nat | k < n :: steps[a + 3 * k] == Dispatch(0)
    ensures Inv(run[a]) && Inv(run[|steps|])
    ensures run[a].t[1].state == Runnable && run[|steps|].t[1] == run[a].t[1]
  {
    run, steps := HogReachable(t);
    a := |steps|;
    ghost var hog := run[a];
    var run', steps' := Starves(hog, n);
    Joined(run, steps, run', steps');
    assert hog.t[1..][0] == hog.t[1] && run'[3 * n].t[1..][0] == run'[3 * n].t[1];
    assert (run + run'[1..])[a + 3 * n] == run'[3 * n];
    forall k: nat | k < n ensures (steps + steps')[a + 3 * k] == Dispatch(0) {
      assert (steps + steps')[a + 3 * k] == steps'[3 * k];
    }
    run, steps := run + run'[1..], steps + steps';
  }
}
