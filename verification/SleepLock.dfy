/** `sleep` and `wakeup` between two spinlocks.  Any number of processes wait for a condition
    protected by `lk`; sleeping and waking happen under `ptable.lock`.  Each step is one action of
    one process; the order in which `sleep` trades one lock for the other is what is at stake. */
module SleepLock {
  import opened Common

  // Where a process is.
  datatype PC =
    | Idle
    // waiting for the condition
    | Checking     // holds lk
    | BothHeld     // in sleep(): ptable.lock taken, lk not yet released
    | GoingDown    // lk released, not yet SLEEPING
    | Asleep       // SLEEPING; ptable.lock given up by the switch to the scheduler
    | Woken        // RUNNABLE
    | Resuming     // dispatched, still holds ptable.lock
    | Relocking    // about to take lk again
    // changing the condition
    | Changing     // holds lk
    | Changed      // holds lk, condition true, wakeup() not yet begun
    | Waking       // in wakeup(): holds both
    | Woke         // holds lk

  datatype Sys = Sys(pc: seq<PC>, lk: Option<nat>, pt: Option<nat>, cond: bool)

  predicate HoldsLk(p: PC) {
    p in {Checking, BothHeld, Changing, Changed, Waking, Woke}
  }

  predicate HoldsPt(p: PC) {
    p in {BothHeld, GoingDown, Resuming, Waking}
  }

  // Every process asleep on the channel becomes runnable.
  function WakeAll(pc: seq<PC>): (r: seq<PC>)
    ensures |r| == |pc|
  {
    seq(|pc|, i requires 0 <= i < |pc| => if pc[i] == Asleep then Woken else pc[i])
  }

  // One action of process `i`.  acquire() succeeds only on a free lock.
  ghost predicate Step(s: Sys, i: nat, s': Sys) {
    && i < |s.pc|
    && match s.pc[i]
       case Idle =>
         s.lk == None && (s' == s.(pc := s.pc[i := Checking], lk := Some(i))
                          || s' == s.(pc := s.pc[i := Changing], lk := Some(i)))
       case Checking =>
         if s.cond then
           // the waiter may use the condition up before it releases lk
           s' == s.(pc := s.pc[i := Idle], lk := None, cond := s'.cond)
         else s.pt == None && s' == s.(pc := s.pc[i := BothHeld], pt := Some(i))
       case BothHeld => s' == s.(pc := s.pc[i := GoingDown], lk := None)
       case GoingDown => s' == s.(pc := s.pc[i := Asleep], pt := None)
       case Asleep => s.pt == None && s' == s.(pc := s.pc[i := Woken])   // kill()
       case Woken => s.pt == None && s' == s.(pc := s.pc[i := Resuming], pt := Some(i))
       case Resuming => s' == s.(pc := s.pc[i := Relocking], pt := None)
       case Relocking => s.lk == None && s' == s.(pc := s.pc[i := Checking], lk := Some(i))
       case Changing => s' == s.(pc := s.pc[i := Changed], cond := true)
       case Changed => s.pt == None && s' == s.(pc := s.pc[i := Waking], pt := Some(i))
       case Waking => s' == s.(pc := WakeAll(s.pc)[i := Woke], pt := None)
       case Woke => s' == s.(pc := s.pc[i := Idle], lk := None)
  }

  // A wakeup is on its way: the condition was made true under lk and lk is still held.
  ghost predicate WakeupComing(s: Sys) {
    s.lk.Some? && s.lk.value < |s.pc| && s.pc[s.lk.value] in {Changed, Waking}
  }

  ghost predicate ProcOk(s: Sys, i: nat)
    requires i < |s.pc|
  {
    && (HoldsLk(s.pc[i]) <==> s.lk == Some(i))
    && (HoldsPt(s.pc[i]) <==> s.pt == Some(i))
    && (s.pc[i] == BothHeld ==> !s.cond)
    && (s.pc[i] in {GoingDown, Asleep} && s.cond ==> WakeupComing(s))
  }

  ghost predicate Inv(s: Sys) {
    && (s.lk.Some? ==> s.lk.value < |s.pc|)
    && (s.pt.Some? ==> s.pt.value < |s.pc|)
    && forall i: nat | i < |s.pc| :: ProcOk(s, i)
  }

  lemma StepKeepsInv(s: Sys, i: nat, s': Sys)
    requires Inv(s) && Step(s, i, s')
    ensures Inv(s')
  {
    assert ProcOk(s, i);
    forall j: nat | j < |s'.pc| ensures ProcOk(s', j) {
      assert ProcOk(s, j);
    }
  }

  ghost predicate Run(ss: seq<Sys>, who: seq<nat>) {
    && |ss| == |who| + 1
    && ss[0].lk == None && ss[0].pt == None && (forall i | 0 <= i < |ss[0].pc| :: ss[0].pc[i] == Idle)
    && forall k: nat | k < |who| :: Step(ss[k], who[k], ss[k + 1])
  }

  lemma {:induction false} RunKeepsInv(ss: seq<Sys>, who: seq<nat>, k: nat)
    requires Run(ss, who) && k < |ss|
    ensures Inv(ss[k])
  {
    if k > 0 {
      RunKeepsInv(ss, who, k - 1);
      assert Step(ss[k - 1], who[k - 1], ss[k - 1 + 1]);
      StepKeepsInv(ss[k - 1], who[k - 1], ss[k]);
    }
  }

  /** In no interleaving of any number of processes is somebody asleep, or about to be, with the
      condition true and no wakeup on its way; in particular not when lk is free. */
  lemma NoLostWakeup(ss: seq<Sys>, who: seq<nat>, k: nat, i: nat)
    requires Run(ss, who) && k < |ss| && i < |ss[k].pc|
    requires ss[k].pc[i] in {GoingDown, Asleep} && ss[k].cond
    ensures WakeupComing(ss[k]) && ss[k].lk != None
  {
    RunKeepsInv(ss, who, k);
    assert ProcOk(ss[k], i);
  }

  /** The wakeup, when it comes, finds the sleeper: nobody is on the way down then, and everybody
      who was asleep is runnable afterwards. */
  lemma WakeupFindsSleepers(ss: seq<Sys>, who: seq<nat>, k: nat, i: nat)
    requires Run(ss, who) && k < |who| && i < |ss[k].pc|
    requires who[k] < |ss[k].pc| && ss[k].pc[who[k]] == Waking
    ensures ss[k].pc[i] != GoingDown
    ensures i < |ss[k + 1].pc| && ss[k + 1].pc[i] != Asleep && (ss[k].pc[i] == Asleep ==> ss[k + 1].pc[i] == Woken)
  {
    RunKeepsInv(ss, who, k);
    assert Step(ss[k], who[k], ss[k + 1]);
    assert ProcOk(ss[k], i) && ProcOk(ss[k], who[k]);
  }
}
