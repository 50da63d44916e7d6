/** A pipe as its users see it, one critical section at a time: the bytes that went in, the bytes
    that came out, and who sleeps on which end. */
module PipeSpec {
  import opened Common

  const PIPESIZE: nat := 512

  type Pid = nat

  datatype View = View(
    written: seq<byte>,      // every byte accepted so far
    readout: seq<byte>,      // every byte delivered so far
    readopen: bool,
    writeopen: bool,
    killed: set<Pid>,
    asleepR: set<Pid>,       // asleep on &nread
    asleepW: set<Pid>)       // asleep on &nwrite
  {
    function Used(): int { |written| - |readout| }

    // Bytes come out in the order they went in, and at most PIPESIZE are in between.
    ghost predicate Fifo() {
      readout <= written && Used() <= PIPESIZE
    }

    // A sleeper has an open end and a reason to sleep.
    ghost predicate NoLostWakeup() {
      && (asleepR != {} ==> Used() == 0 && writeopen)
      && (asleepW != {} ==> Used() == PIPESIZE && readopen)
    }

    // An end is not closed while somebody sleeps on it: the sleeper has it open.
    ghost predicate EndsHeld() {
      (asleepR != {} ==> readopen) && (asleepW != {} ==> writeopen)
    }
  }

  // How a critical section of a call ends: by sleeping, or by returning a value.
  datatype Outcome = Slept | Returned(value: int)

  // ----- pipewrite, from (re)acquiring the lock to releasing it, at byte `i` of `addr`

  function Accepted(v: View, n: int, i: nat): nat
    requires v.Used() <= PIPESIZE
  {
    if n <= i then 0 else if n - i <= PIPESIZE - v.Used() then n - i else PIPESIZE - v.Used()
  }

  // The writer gives up at a full pipe: it was killed, or nobody can read any more.
  predicate GivesUp(v: View, pid: Pid, n: int, i: nat) {
    n - i > PIPESIZE - v.Used() && (!v.readopen || pid in v.killed)
  }

  function WriteSection(v: View, pid: Pid, addr: seq<byte>, n: int, i: nat): (View, nat, Outcome)
    requires v.Used() <= PIPESIZE && i <= |addr| && n <= |addr|
  {
    var k := Accepted(v, n, i);
    var v1 := v.(written := v.written + addr[i..i + k]);
    if n <= i + k then (v1.(asleepR := {}), i + k, Returned(n))
    else if GivesUp(v, pid, n, i) then (v1, i + k, Returned(-1))
    else (v1.(asleepR := {}, asleepW := v.asleepW + {pid}), i + k, Slept)
  }

  // ----- piperead, likewise

  function Delivered(v: View, n: int): seq<byte>
    requires v.Fifo()
  {
    var k := if n < 0 then 0 else if n < v.Used() then n else v.Used();
    v.written[|v.readout|..|v.readout| + k]
  }

  function ReadSection(v: View, pid: Pid, n: int): (View, seq<byte>, Outcome)
    requires v.Fifo()
  {
    if v.Used() == 0 && v.writeopen then
      if pid in v.killed then (v, [], Returned(-1))
      else (v.(asleepR := v.asleepR + {pid}), [], Slept)
    else
      var d := Delivered(v, n);
      (v.(readout := v.readout + d, asleepW := {}), d, Returned(|d|))
  }

  // ----- pipeclose and kill

  function CloseSection(v: View, writable: bool): View {
    if writable then v.(writeopen := false, asleepR := {}) else v.(readopen := false, asleepW := {})
  }

  function KillSection(v: View, pid: Pid): View {
    v.(killed := v.killed + {pid}, asleepR := v.asleepR - {pid}, asleepW := v.asleepW - {pid})
  }

  // ----- runs

  datatype Step =
    | Write(pid: Pid, addr: seq<byte>, n: int, i: nat)
    | Read(pid: Pid, n: int)
    | Close(writable: bool)
    | Kill(pid: Pid)

  // What a process can do: it is not asleep, it has the end it uses open, and an end is closed
  // only when nobody is using it.
  ghost predicate Enabled(v: View, s: Step) {
    match s
    case Write(pid, addr, n, i) =>
      v.writeopen && pid !in v.asleepR + v.asleepW && i <= |addr| && n <= |addr|
    case Read(pid, n) => v.readopen && pid !in v.asleepR + v.asleepW
    case Close(writable) => if writable then v.asleepW == {} else v.asleepR == {}
    case Kill(pid) => true
  }

  function Apply(v: View, s: Step): View
    requires v.Fifo() && Enabled(v, s)
  {
    match s
    case Write(pid, addr, n, i) => WriteSection(v, pid, addr, n, i).0
    case Read(pid, n) => ReadSection(v, pid, n).0
    case Close(writable) => CloseSection(v, writable)
    case Kill(pid) => KillSection(v, pid)
  }

  // A writer gives up, without a wakeup, while a reader is asleep.
  ghost predicate LosesWakeup(v: View, s: Step) {
    s.Write? && GivesUp(v, s.pid, s.n, s.i) && v.asleepR != {}
  }

  /** Every section keeps the order of bytes; what went in or came out before stays. */
  lemma StepKeepsOrder(v: View, s: Step)
    requires v.Fifo() && Enabled(v, s)
    ensures Apply(v, s).Fifo()
    ensures v.written <= Apply(v, s).written && v.readout <= Apply(v, s).readout
  {
    match s
    case Write(pid, addr, n, i) =>
    case Read(pid, n) =>
    case Close(writable) =>
    case Kill(pid) =>
  }

  /** Exactly one kind of section can leave a sleeper behind: a writer that gives up at a full
      pipe while a reader sleeps. */
  lemma StepLosesWakeupIff(v: View, s: Step)
    requires v.Fifo() && Enabled(v, s) && v.EndsHeld() && v.NoLostWakeup()
    ensures Apply(v, s).EndsHeld()
    ensures Apply(v, s).NoLostWakeup() <==> !LosesWakeup(v, s)
  {
  }

  ghost predicate Run(vs: seq<View>, steps: seq<Step>) {
    && |vs| == |steps| + 1
    && vs[0].Fifo() && vs[0].EndsHeld() && vs[0].NoLostWakeup()
    && forall k | 0 <= k < |steps| :: RunStep(vs, steps, k)
  }

  ghost predicate RunStep(vs: seq<View>, steps: seq<Step>, k: nat)
    requires k < |steps| && |vs| == |steps| + 1
  {
    vs[k].Fifo() && Enabled(vs[k], steps[k]) && vs[k + 1] == Apply(vs[k], steps[k])
  }

  /** Over any interleaving, what has been read is a prefix of what has been written, and what was
      written at any moment is a prefix of what is written later. */
  lemma {:induction false} RunIsFifo(vs: seq<View>, steps: seq<Step>, k: nat)
    requires Run(vs, steps) && k < |vs|
    ensures vs[k].Fifo() && vs[0].written <= vs[k].written && vs[0].readout <= vs[k].readout
  {
    if k > 0 {
      RunIsFifo(vs, steps, k - 1);
      assert RunStep(vs, steps, k - 1);
      StepKeepsOrder(vs[k - 1], steps[k - 1]);
    }
  }

  // ----- what one call of pipewrite puts in, over all its sections

  ghost predicate WritesAt(steps: seq<Step>, pid: Pid, k: nat)
    requires k < |steps|
  {
    steps[k].Write? && steps[k].pid == pid
  }

  // The bytes that went in at the writes of `pid` in steps `lo` to `hi`, in their order.
  ghost function Sent(vs: seq<View>, steps: seq<Step>, pid: Pid, lo: nat, hi: nat): seq<byte>
    requires lo <= hi <= |steps| && Run(vs, steps)
    decreases hi
  {
    if hi == lo then []
    else if WritesAt(steps, pid, hi - 1) then
      Sent(vs, steps, pid, lo, hi - 1) + Gained(vs, steps, hi - 1)
    else Sent(vs, steps, pid, lo, hi - 1)
  }

  ghost function Gained(vs: seq<View>, steps: seq<Step>, k: nat): seq<byte>
    requires k < |steps| && Run(vs, steps)
  {
    assert RunStep(vs, steps, k);
    StepKeepsOrder(vs[k], steps[k]);
    vs[k + 1].written[|vs[k].written|..]
  }

  // `pid` calls pipewrite(addr, n) at step `lo` and is in that call until step `hi`: each section
  // goes on from the byte where the one before left off.
  ghost predicate OneCall(vs: seq<View>, steps: seq<Step>, pid: Pid, addr: seq<byte>, n: int, lo: nat, hi: nat)
    requires lo <= hi <= |steps| && Run(vs, steps)
  {
    forall k | lo <= k < hi && WritesAt(steps, pid, k) ::
      steps[k] == Write(pid, addr, n, |Sent(vs, steps, pid, lo, k)|)
  }

  lemma SectionGains(v: View, pid: Pid, addr: seq<byte>, n: int, sent: seq<byte>)
    requires v.Fifo() && sent <= addr && n <= |addr| && (0 <= n ==> |sent| <= n)
    ensures var v' := WriteSection(v, pid, addr, n, |sent|).0;
            && v.written <= v'.written && sent + v'.written[|v.written|..] <= addr
            && (0 <= n ==> |sent| + |v'.written| - |v.written| <= n)
  {
    var k := Accepted(v, n, |sent|);
    assert addr[..|sent|] + addr[|sent|..|sent| + k] == addr[..|sent| + k];
    assert (v.written + addr[|sent|..|sent| + k])[|v.written|..] == addr[|sent|..|sent| + k];
  }

  /** However often a call of pipewrite sleeps, and whatever others do to the pipe meanwhile, the
      bytes that it puts in are the first ones of `addr`, in order, each once. */
  lemma {:induction false} SentIsPrefix(vs: seq<View>, steps: seq<Step>, pid: Pid, addr: seq<byte>, n: int,
                                        lo: nat, hi: nat)
    requires lo <= hi <= |steps| && Run(vs, steps) && OneCall(vs, steps, pid, addr, n, lo, hi)
    ensures Sent(vs, steps, pid, lo, hi) <= addr
    ensures 0 <= n ==> |Sent(vs, steps, pid, lo, hi)| <= n
    decreases hi
  {
    if lo < hi {
      SentIsPrefix(vs, steps, pid, addr, n, lo, hi - 1);
      if WritesAt(steps, pid, hi - 1) {
        assert RunStep(vs, steps, hi - 1);
        SectionGains(vs[hi - 1], pid, addr, n, Sent(vs, steps, pid, lo, hi - 1));
      }
    }
  }

  /** A call of pipewrite that returns `n` has put in the first `n` bytes of `addr`. */
  lemma CallSendsAll(vs: seq<View>, steps: seq<Step>, pid: Pid, addr: seq<byte>, n: nat, lo: nat, hi: nat)
    requires lo < hi <= |steps| && Run(vs, steps) && OneCall(vs, steps, pid, addr, n, lo, hi)
    requires n <= |addr| && WritesAt(steps, pid, hi - 1) && RunStep(vs, steps, hi - 1)
    ensures WriteSection(vs[hi - 1], pid, addr, n, steps[hi - 1].i).2 == Returned(n) <==>
      Sent(vs, steps, pid, lo, hi) == addr[..n]
  {
    SentIsPrefix(vs, steps, pid, addr, n, lo, hi);
    SentIsPrefix(vs, steps, pid, addr, n, lo, hi - 1);
    var i := |Sent(vs, steps, pid, lo, hi - 1)|;
    assert |Gained(vs, steps, hi - 1)| == Accepted(vs[hi - 1], n, i);
  }

  lemma Extended(w: seq<byte>, sent: seq<byte>, w': seq<byte>)
    requires w + sent <= w'
    ensures w' == w + (sent + w'[|w + sent|..])
  {
  }

  /** With no other writer meanwhile, what the call puts in is all that the pipe gains. */
  lemma {:induction false} SoleWriter(vs: seq<View>, steps: seq<Step>, pid: Pid, lo: nat, hi: nat)
    requires lo <= hi <= |steps| && Run(vs, steps)
    requires forall k | lo <= k < hi && steps[k].Write? :: WritesAt(steps, pid, k)
    ensures vs[hi].written == vs[lo].written + Sent(vs, steps, pid, lo, hi)
    decreases hi
  {
    if lo < hi {
      SoleWriter(vs, steps, pid, lo, hi - 1);
      assert RunStep(vs, steps, hi - 1);
      if WritesAt(steps, pid, hi - 1) {
        StepKeepsOrder(vs[hi - 1], steps[hi - 1]);
        Extended(vs[lo].written, Sent(vs, steps, pid, lo, hi - 1), vs[hi].written);
      }
    }
  }

  /** Unless some writer gave up beside a sleeping reader, at no point of a run do readers and
      writers wait for each other: sleeping readers mean an empty pipe, sleeping writers a full
      one. */
  lemma {:induction false} RunNeverBlocks(vs: seq<View>, steps: seq<Step>, k: nat)
    requires Run(vs, steps) && k < |vs|
    requires forall j | 0 <= j < k :: !LosesWakeup(vs[j], steps[j])
    ensures vs[k].NoLostWakeup() && vs[k].EndsHeld()
    ensures vs[k].asleepR == {} || vs[k].asleepW == {}
  {
    if k > 0 {
      RunNeverBlocks(vs, steps, k - 1);
      assert RunStep(vs, steps, k - 1);
      StepLosesWakeupIff(vs[k - 1], steps[k - 1]);
    }
  }

  /** A killed writer with one byte too many leaves a reader asleep beside a full pipe. */
  lemma KilledWriterLosesWakeup(addr: seq<byte>)
    requires |addr| == PIPESIZE + 1
    ensures var v := View([], [], true, true, {2}, {}, {});
            var v1 := Apply(v, Read(1, 1));
            var v2 := Apply(v1, Write(2, addr, |addr|, 0));
            v2.asleepR == {1} && v2.Used() == PIPESIZE && !v2.NoLostWakeup()
  {
    var v := View([], [], true, true, {2}, {}, {});
    assert v.asleepR + {1} == {1};
    var v1 := Apply(v, Read(1, 1));
    var v2 := Apply(v1, Write(2, addr, |addr|, 0));
    assert 1 in v2.asleepR;
  }
}
