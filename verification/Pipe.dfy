/** The pipe in memory: a ring of PIPESIZE bytes and two 32-bit counters that wrap around. */
module Pipe {
  import opened Common
  import opened PipeSpec

  const WORD: nat := 0x1_0000_0000

  function Min(a: int, b: int): int { if a < b then a else b }

  // Counters kept modulo 2^32 still tell a full pipe from any other.
  lemma WrapTellsFull(r: nat, w: nat)
    requires r <= w <= r + PIPESIZE
    ensures w % WORD == (r % WORD + PIPESIZE) % WORD <==> w == r + PIPESIZE
    ensures w % WORD == r % WORD <==> w == r
  {
    AddRemainder(r, PIPESIZE);
    if w % WORD == r % WORD {
      SameRemainder(w, r);
    }
    if w % WORD == (r + PIPESIZE) % WORD {
      SameRemainder(w, r + PIPESIZE);
    }
  }

  lemma AddRemainder(r: nat, k: nat)
    ensures (r % WORD + k) % WORD == (r + k) % WORD
  {
    assert r + k == r / WORD * WORD + (r % WORD + k);
    Multiples(r / WORD, r % WORD + k);
  }

  lemma {:induction false} Multiples(q: nat, x: nat)
    ensures (q * WORD + x) % WORD == x % WORD
  {
    if q > 0 {
      Multiples(q - 1, x);
      assert q * WORD + x == (q - 1) * WORD + x + WORD;
    }
  }

  lemma SameRemainder(a: nat, b: nat)
    requires a % WORD == b % WORD && b < a + WORD && a < b + WORD
    ensures a == b
  {
    assert a == a / WORD * WORD + a % WORD;
    assert b == b / WORD * WORD + b % WORD;
  }

  // The slot a wrapped counter selects is the one the true counter selects.
  lemma WrapKeepsSlot(k: nat)
    ensures k % WORD % PIPESIZE == k % PIPESIZE
    ensures (k % WORD + 1) % WORD == (k + 1) % WORD
  {
  }

  lemma SlotsApart(k: nat, w: nat)
    requires k < w < k + PIPESIZE
    ensures k % PIPESIZE != w % PIPESIZE
  {
    assert k == k / PIPESIZE * PIPESIZE + k % PIPESIZE;
    assert w == w / PIPESIZE * PIPESIZE + w % PIPESIZE;
  }

  class Pipe {
    var data: array<byte>
    var nread: nat
    var nwrite: nat
    var readopen: bool
    var writeopen: bool
    var killed: set<Pid>             // proc->killed
    var asleepR: set<Pid>            // processes asleep on &nread
    var asleepW: set<Pid>            // processes asleep on &nwrite
    ghost var written: seq<byte>
    ghost var readout: seq<byte>

    ghost function State(): View
      reads this
    {
      View(written, readout, readopen, writeopen, killed, asleepR, asleepW)
    }

    ghost predicate Valid()
      reads this, data
    {
      && data.Length == PIPESIZE
      && State().Fifo()
      && nread == |readout| % WORD && nwrite == |written| % WORD
      && forall k: nat | |readout| <= k < |written| :: data[k % PIPESIZE] == written[k]
    }

    constructor ()
      ensures Valid() && State() == View([], [], true, true, {}, {}, {}) && fresh(data)
    {
      data := new byte[PIPESIZE];
      nread, nwrite, readopen, writeopen := 0, 0, true, true;
      killed, asleepR, asleepW, written, readout := {}, {}, {}, [], [];
    }

    // One turn of the copying loop of `pipewrite`.
    method PutByte(x: byte)
      requires Valid() && State().Used() < PIPESIZE
      modifies this`nwrite, this`written, data
      ensures Valid() && data == old(data) && written == old(written) + [x]
    {
      WrapKeepsSlot(|written|);
      forall k: nat | |readout| <= k < |written| ensures k % PIPESIZE != |written| % PIPESIZE {
        SlotsApart(k, |written|);
      }
      data[nwrite % PIPESIZE] := x;
      nwrite := (nwrite + 1) % WORD;
      written := written + [x];
    }

    method GetByte() returns (x: byte)
      requires Valid() && State().Used() > 0
      modifies this`nread, this`readout
      ensures Valid() && old(|readout|) < |written| && x == written[old(|readout|)]
      ensures readout == old(readout) + [x]
    {
      WrapKeepsSlot(|readout|);
      x := data[nread % PIPESIZE];
      nread := (nread + 1) % WORD;
      readout := readout + [x];
    }

    /** `pipewrite` from byte `i0` on, until it sleeps or returns: as many bytes of `addr` as there
        are and as the pipe has room for go in, in order.  It returns `n` when all of them are in;
        at a full pipe it gives up if it was killed or nobody can read, and sleeps otherwise. */
    method Write(pid: Pid, addr: seq<byte>, n: int, i0: nat) returns (i: nat, out: Outcome)
      requires Valid() && i0 <= |addr| && n <= |addr|
      modifies this, data
      ensures Valid() && data == old(data)
      ensures (State(), i, out) == WriteSection(old(State()), pid, addr, n, i0)
      ensures i0 <= i <= |addr| && written == old(written) + addr[i0..i] && readout == old(readout)
      ensures i - i0 == if n <= i0 then 0 else Min(n - i0, PIPESIZE - old(|written| - |readout|))
      ensures readopen == old(readopen) && writeopen == old(writeopen) && killed == old(killed)
      ensures n <= i ==> out == Returned(n) && asleepR == {} && asleepW == old(asleepW)
      ensures n > i ==> |written| - |readout| == PIPESIZE
      ensures n > i && (!readopen || pid in killed) ==>
        out == Returned(-1) && asleepR == old(asleepR) && asleepW == old(asleepW)
      ensures n > i && readopen && pid !in killed ==>
        out == Slept && asleepR == {} && asleepW == old(asleepW) + {pid}
    {
      i := i0;
      while i < n
        invariant i0 <= i <= |addr| && (if i0 < n then i <= n else i == i0) && Valid() && data == old(data)
        invariant written == old(written) + addr[i0..i] && readout == old(readout)
        invariant readopen == old(readopen) && writeopen == old(writeopen) && killed == old(killed)
        invariant asleepR == old(asleepR) && asleepW == old(asleepW)
      {
        WrapTellsFull(|readout|, |written|);
        if nwrite == (nread + PIPESIZE) % WORD {
          if !readopen || pid in killed {
            return i, Returned(-1);
          }
          asleepR := {};
          asleepW := asleepW + {pid};
          return i, Slept;
        }
        PutByte(addr[i]);
        i := i + 1;
      }
      asleepR := {};
      return i, Returned(n);
    }

    /** `piperead` until it sleeps or returns: at an empty pipe that somebody may still write to it
        sleeps, or gives up if it was killed; otherwise it delivers the next bytes, as many of the
        `n` as there are. */
    method Read(pid: Pid, n: int) returns (dst: seq<byte>, out: Outcome)
      requires Valid()
      modifies this
      ensures Valid() && data == old(data)
      ensures (State(), dst, out) == ReadSection(old(State()), pid, n)
      ensures written == old(written) && readout == old(readout) + dst && readout <= written
      ensures readopen == old(readopen) && writeopen == old(writeopen) && killed == old(killed)
      ensures old(|written| == |readout| && writeopen) && pid in killed ==>
        dst == [] && out == Returned(-1) && asleepR == old(asleepR) && asleepW == old(asleepW)
      ensures old(|written| == |readout| && writeopen) && pid !in killed ==>
        dst == [] && out == Slept && asleepR == old(asleepR) + {pid} && asleepW == old(asleepW)
      ensures old(|written| > |readout| || !writeopen) ==>
        && |dst| == (if n < 0 then 0 else Min(n, old(|written| - |readout|)))
        && out == Returned(|dst|) && asleepR == old(asleepR) && asleepW == {}
    {
      dst := [];
      WrapTellsFull(|readout|, |written|);
      if nread == nwrite && writeopen {
        if pid in killed {
          return [], Returned(-1);
        }
        asleepR := asleepR + {pid};
        return [], Slept;
      }
      dst := CopyOut(n);
      asleepW := {};
      return dst, Returned(|dst|);
    }

    // The copying loop of `piperead`.
    method CopyOut(n: int) returns (dst: seq<byte>)
      requires Valid()
      modifies this`nread, this`readout
      ensures Valid() && dst == Delivered(old(State()), n)
      ensures readout == old(readout) + dst
    {
      ghost var v := State();
      dst := [];
      var i := 0;
      while i < n
        invariant 0 <= i && |dst| == i <= v.Used() && (0 < i ==> i <= n) && Valid()
        invariant readout == v.readout + dst && dst == v.written[|v.readout|..|v.readout| + i]
      {
        WrapTellsFull(|readout|, |written|);
        if nread == nwrite {
          break;
        }
        var x := GetByte();
        dst := dst + [x];
        i := i + 1;
      }
    }

    /** `pipeclose` of one end: its own flag is cleared and whoever sleeps on the other end is
        woken. */
    method Close(writable: bool)
      requires Valid()
      modifies this`readopen, this`writeopen, this`asleepR, this`asleepW
      ensures Valid() && State() == CloseSection(old(State()), writable)
      ensures writable ==> !writeopen && readopen == old(readopen) && asleepR == {} && asleepW == old(asleepW)
      ensures !writable ==> !readopen && writeopen == old(writeopen) && asleepW == {} && asleepR == old(asleepR)
    {
      if writable {
        writeopen := false;
        asleepR := {};
      } else {
        readopen := false;
        asleepW := {};
      }
    }

    // What `kill` does to a process that uses the pipe.
    method Kill(pid: Pid)
      requires Valid()
      modifies this`killed, this`asleepR, this`asleepW
      ensures Valid() && State() == KillSection(old(State()), pid)
      ensures killed == old(killed) + {pid}
      ensures asleepR == old(asleepR) - {pid} && asleepW == old(asleepW) - {pid}
    {
      killed := killed + {pid};
      asleepR, asleepW := asleepR - {pid}, asleepW - {pid};
    }
  }
}
