/** No occurrence of a key is lost or counted twice on its way from a file to the output. */
module MapReduceProof {
  import opened MrList
  import opened MapReduce

  // ----- mapper steps

  lemma CountHead(words: seq<string>, k: string)
    requires words != []
    ensures Count(words, k) == (if words[0] == k then 1 else 0) + Count(words[1..], k)
  {
  }

  lemma MapperKeeps(job: Job, i: nat, x: Mapper, parts: seq<seq<Node>>, e: Step, x': Mapper,
                    parts': seq<seq<Node>>, k: string)
    requires job.Valid() && |parts| == job.reducers && MapperOk(job, i, x)
    requires forall p: nat | p < |parts| :: PartOk(job, p, parts[p])
    requires MapperStep(job, i, x, parts, e, x', parts')
    ensures MapperOk(job, i, x')
    ensures |parts'| == |parts| && forall p: nat | p < |parts| :: PartOk(job, p, parts'[p])
    ensures MapperHas(job, x', k) + Sum(PartShares(parts', k)) == MapperHas(job, x, k) + Sum(PartShares(parts, k))
  {
    match e
    case NextFile(_) =>
    case Emit(_) =>
      InsertVals(x.list, x.words[0], "1", k);
      CountHead(x.words, k);
    case StartCombine(_) =>
    case CombineKey(_) =>
    case CombineGet(_) =>
      FrontPops(x.phase, x.list);
      PopVals(x.list, x.phase.key, k);
    case CombineEmit(_) =>
      NoVals(x.list, x.phase.key);
      assert x.list != [] ==> Keys(x.list)[0] == x.list[0].key;
      HandedOver(job, parts, x.phase.key, x.phase.count, k);
    case _ =>
  }

  // Taking a value off the front node keeps a thread at the front.
  lemma FrontPops(x: Phase, l: seq<Node>)
    requires Proper(l) && x.Draining? && AtFront(x, l) && Vals(l, x.key) != []
    ensures l != [] && l[0].key == x.key
    ensures Proper(Popped(l, x.key))
    ensures forall n: nat | n >= 1 :: AtFront(x.(count := n), Popped(l, x.key))
  {
    NoVals(l, x.key);
    assert l != [] && l[0].key == x.key;
    PopVals(l, x.key, x.key);
    PopKeys(l, x.key);
  }

  lemma PartGrows(job: Job, p: nat, l: seq<Node>, key: string, c: nat)
    requires job.Valid() && PartOk(job, p, l) && job.Part(key) == p && c >= 1
    ensures PartOk(job, p, Inserted(l, key, Itoa(c)))
  {
    var i, l' := IndexOf(l, key), Inserted(l, key, Itoa(c));
    ItoaAtoi(c);
    InsertVals(l, key, Itoa(c), key);
    forall j | 0 <= j < |l'| ensures job.Part(l'[j].key) == p && Numbers(l'[j].vals) {
      if i == |l| && j > 0 {
        assert l'[j] == l[j - 1];
      }
    }
  }

  lemma SharesSet(parts: seq<seq<Node>>, p: nat, l: seq<Node>, k: string)
    requires p < |parts|
    ensures PartShares(parts[p := l], k) == PartShares(parts, k)[p := SumNum(Vals(l, k))]
  {
  }

  // A combined count moves from the mapper's hand into the partition of its key.
  lemma HandedOver(job: Job, parts: seq<seq<Node>>, key: string, c: nat, k: string)
    requires job.Valid() && |parts| == job.reducers && c >= 1
    requires forall p: nat | p < |parts| :: PartOk(job, p, parts[p])
    ensures var p := job.Part(key);
            var parts' := parts[p := Inserted(parts[p], key, Itoa(c))];
            && (forall q: nat | q < |parts| :: PartOk(job, q, parts'[q]))
            && Sum(PartShares(parts', k)) == Sum(PartShares(parts, k)) + if k == key then c else 0
  {
    var p := job.Part(key);
    var l := parts[p];
    var l' := Inserted(l, key, Itoa(c));
    PartGrows(job, p, l, key, c);
    ShareGrows(l, key, c, k);
    SharesSet(parts, p, l', k);
    SumUpdate(PartShares(parts, k), p, SumNum(Vals(l', k)));
  }

  lemma ShareGrows(l: seq<Node>, key: string, c: nat, k: string)
    requires Proper(l) && c >= 1
    ensures SumNum(Vals(Inserted(l, key, Itoa(c)), k)) == SumNum(Vals(l, k)) + if k == key then c else 0
  {
    ItoaAtoi(c);
    InsertVals(l, key, Itoa(c), k);
  }

  // ----- reducer steps

  lemma ReducerKeeps(job: Job, p: nat, x: Phase, part: seq<Node>, out: seq<Output>, e: Step,
                     x': Phase, part': seq<Node>, out': seq<Output>, k: string)
    requires job.Valid() && PartOk(job, p, part) && AtFront(x, part)
    requires x.Draining? ==> job.Part(x.key) == p
    requires ReducerStep(x, part, out, e, x', part', out')
    ensures PartOk(job, p, part') && AtFront(x', part') && (x'.Draining? ==> job.Part(x'.key) == p)
    ensures InHand(x', k) + SumNum(Vals(part', k)) + Printed(out', k)
         == InHand(x, k) + SumNum(Vals(part, k)) + Printed(out, k)
    ensures k !in Keys(part) ==> k !in Keys(part')
  {
    match e
    case StartReduce(_) =>
    case ReduceKey(_) =>
      assert Keys(part)[0] == part[0].key;
    case ReduceGet(_) => PoppedFromPart(job, p, x, part, k);
    case Print(_) =>
      NoVals(part, x.key);
      assert part != [] ==> Keys(part)[0] == part[0].key;
      assert out'[..|out|] == out;
    case _ =>
  }

  lemma PoppedFromPart(job: Job, p: nat, x: Phase, part: seq<Node>, k: string)
    requires job.Valid() && PartOk(job, p, part)
    requires x.Draining? && AtFront(x, part) && Vals(part, x.key) != []
    ensures var v := Num(Vals(part, x.key)[0]);
            var part' := Popped(part, x.key);
            && v >= 1
            && PartOk(job, p, part') && AtFront(x.(count := x.count + v), part')
            && SumNum(Vals(part', k)) + (if k == x.key then v else 0) == SumNum(Vals(part, k))
            && (k !in Keys(part) ==> k !in Keys(part'))
  {
    FrontPops(x, part);
    PopVals(part, x.key, k);
    PopKeys(part, x.key);
    IndexIs(part, 0);
    assert Numbers(part[0].vals);
    PartShrinks(job, p, part, Popped(part, x.key));
  }

  lemma PartShrinks(job: Job, p: nat, l: seq<Node>, l': seq<Node>)
    requires job.Valid() && PartOk(job, p, l) && l != [] && Proper(l')
    requires l' == l[1..] || (l[0].vals != [] && l' == l[0 := Node(l[0].key, l[0].vals[1..])])
    ensures PartOk(job, p, l')
  {
    forall j | 0 <= j < |l'| ensures job.Part(l'[j].key) == p && Numbers(l'[j].vals) {
      var j0 := if l' == l[1..] then j + 1 else j;
      assert Numbers(l[j0].vals);
    }
  }

  // ----- whole steps

  lemma MapperShareSet(job: Job, ms: seq<Mapper>, i: nat, x: Mapper, k: string)
    requires job.mappers > 0 && i < |ms|
    ensures MapperShares(job, ms[i := x], k) == MapperShares(job, ms, k)[i := MapperHas(job, x, k)]
  {
  }

  lemma MapperMoveInv(job: Job, s: Sys, i: nat, e: Step, s': Sys)
    requires Inv(job, s) && MapperMoves(job, s, i, e, s')
    ensures Inv(job, s')
  {
    MapperKeeps(job, i, s.mappers[i], s.parts, e, s'.mappers[i], s'.parts, "");
    assert s.mappers[i].phase != Scanning([]);
    assert !MappersDone(s);
    forall r: nat | r < |s.parts| ensures s.reducers[r] == Mapping && ReducerOk(job, s', r) {
      assert ReducerOk(job, s, r);
    }
    assert s.output != [] ==> PrintedOk(job, s, 0);
  }

  lemma MapperMoveKeeps(job: Job, s: Sys, i: nat, e: Step, s': Sys, k: string)
    requires Inv(job, s) && MapperMoves(job, s, i, e, s')
    ensures Inv(job, s') && Ledger(job, s', k) == Ledger(job, s, k)
  {
    var x, x' := s.mappers[i], s'.mappers[i];
    MapperMoveInv(job, s, i, e, s');
    MapperKeeps(job, i, x, s.parts, e, x', s'.parts, k);
    MapperShareSet(job, s.mappers, i, x', k);
    SumUpdate(MapperShares(job, s.mappers, k), i, MapperHas(job, x', k));
  }

  lemma ReducerMoveKeeps(job: Job, s: Sys, r: nat, e: Step, s': Sys, k: string)
    requires Inv(job, s) && ReducerMoves(s, r, e, s')
    ensures Inv(job, s') && Ledger(job, s', k) == Ledger(job, s, k)
  {
    var x, x' := s.reducers[r], s'.reducers[r];
    assert PartOk(job, r, s.parts[r]) && ReducerOk(job, s, r);
    ReducerKeeps(job, r, x, s.parts[r], s.output, e, x', s'.parts[r], s'.output, k);
    ReducerMoveShares(job, s, r, s', k);
    forall p: nat | p < |s'.parts| ensures PartOk(job, p, s'.parts[p]) && ReducerOk(job, s', p) {
      assert PartOk(job, p, s.parts[p]) && ReducerOk(job, s, p);
    }
    forall j: nat | j < |s'.output|
      ensures PrintedOk(job, s', j)
      ensures forall i | 0 <= i < j :: s'.output[i].key != s'.output[j].key
    {
      ReducerMovePrinted(job, s, r, e, s', j);
    }
  }

  lemma ReducerMoveShares(job: Job, s: Sys, r: nat, s': Sys, k: string)
    requires job.Valid() && r < |s.reducers| == |s.parts|
    requires r < |s'.reducers| && r < |s'.parts|
    requires s' == s.(reducers := s.reducers[r := s'.reducers[r]], parts := s.parts[r := s'.parts[r]],
                      output := s'.output)
    requires InHand(s'.reducers[r], k) + SumNum(Vals(s'.parts[r], k)) + Printed(s'.output, k)
          == InHand(s.reducers[r], k) + SumNum(Vals(s.parts[r], k)) + Printed(s.output, k)
    ensures Ledger(job, s', k) == Ledger(job, s, k)
  {
    var w, v := PartShares(s.parts, k), ReducerShares(s.reducers, k);
    SumUpdate(w, r, SumNum(Vals(s'.parts[r], k)));
    SumUpdate(v, r, InHand(s'.reducers[r], k));
    assert PartShares(s'.parts, k) == w[r := SumNum(Vals(s'.parts[r], k))];
    assert ReducerShares(s'.reducers, k) == v[r := InHand(s'.reducers[r], k)];
  }

  lemma ReducerMovePrinted(job: Job, s: Sys, r: nat, e: Step, s': Sys, j: nat)
    requires Inv(job, s) && ReducerMoves(s, r, e, s') && j < |s'.output|
    ensures PrintedOk(job, s', j)
    ensures forall i | 0 <= i < j :: s'.output[i].key != s'.output[j].key
  {
    var x, part := s.reducers[r], s.parts[r];
    var k := s'.output[j].key;
    assert PartOk(job, r, part) && ReducerOk(job, s, r);
    ReducerKeeps(job, r, x, part, s.output, e, s'.reducers[r], s'.parts[r], s'.output, k);
    if j < |s.output| {
      assert s'.output[j] == s.output[j];
      assert PrintedOk(job, s, j);
      KeyTaken(x, part, k);
    } else {
      NoVals(part, x.key);
      assert part != [] ==> Keys(part)[0] == part[0].key;
      forall i | 0 <= i < j ensures s'.output[i].key != k {
        assert PrintedOk(job, s, i);
      }
    }
  }

  // A reducer starts counting only keys of its list.
  lemma KeyTaken(x: Phase, part: seq<Node>, k: string)
    requires AtFront(x, part) && k !in Keys(part)
    ensures x.Scanning? && x.todo != [] ==> x.todo[0] != k
  {
    if x.Scanning? && x.todo != [] {
      assert x.todo[0] in Keys(part);
    }
  }

  lemma StepKeeps(job: Job, s: Sys, e: Step, s': Sys, k: string)
    requires Inv(job, s) && Stepped(job, s, e, s')
    ensures Inv(job, s') && Ledger(job, s', k) == Ledger(job, s, k)
  {
    match e
    case StartReduce(r) => ReducerMoveKeeps(job, s, r, e, s', k);
    case ReduceKey(r) => ReducerMoveKeeps(job, s, r, e, s', k);
    case ReduceGet(r) => ReducerMoveKeeps(job, s, r, e, s', k);
    case Print(r) => ReducerMoveKeeps(job, s, r, e, s', k);
    case NextFile(m) => MapperMoveKeeps(job, s, m, e, s', k);
    case Emit(m) => MapperMoveKeeps(job, s, m, e, s', k);
    case StartCombine(m) => MapperMoveKeeps(job, s, m, e, s', k);
    case CombineKey(m) => MapperMoveKeeps(job, s, m, e, s', k);
    case CombineGet(m) => MapperMoveKeeps(job, s, m, e, s', k);
    case CombineEmit(m) => MapperMoveKeeps(job, s, m, e, s', k);
  }

  // ----- the start

  ghost predicate Init(job: Job, s: Sys) {
    && job.Valid() && |s.mappers| == job.mappers && |s.parts| == |s.reducers| == job.reducers
    && (forall i | 0 <= i < |s.mappers| :: s.mappers[i] == Mapper(i + 1, [], [], Mapping))
    && (forall p | 0 <= p < |s.parts| :: s.parts[p] == [] && s.reducers[p] == Mapping)
    && s.output == []
  }

  // What a sequential reading of argv[from..] would count.
  function Total(job: Job, from: nat, k: string): nat
    decreases |job.files| - from
  {
    if from >= |job.files| then 0 else Count(job.files[from], k) + Total(job, from + 1, k)
  }

  // What `n` mappers starting at from, from + 1, ... would read.
  ghost function Dealt(job: Job, from: nat, n: nat, k: string): nat
    requires job.mappers > 0
  {
    if n == 0 then 0 else Dealt(job, from, n - 1, k) + FilesFrom(job, from + n - 1, k)
  }

  lemma {:induction false} DealtShift(job: Job, from: nat, n: nat, k: string)
    requires job.mappers > 0
    ensures Dealt(job, from, n, k) + FilesFrom(job, from + n, k)
         == FilesFrom(job, from, k) + Dealt(job, from + 1, n, k)
  {
    if n > 0 {
      DealtShift(job, from, n - 1, k);
    }
  }

  /** Dealing the arguments out in steps of the number of mappers reads each of them exactly once. */
  lemma {:induction false} EachFileOnce(job: Job, from: nat, k: string)
    requires job.mappers > 0
    ensures Dealt(job, from, job.mappers, k) == Total(job, from, k)
    decreases |job.files| - from
  {
    if from >= |job.files| {
      NothingDealt(job, from, job.mappers, k);
    } else {
      EachFileOnce(job, from + 1, k);
      DealtShift(job, from, job.mappers, k);
    }
  }

  lemma {:induction false} NothingDealt(job: Job, from: nat, n: nat, k: string)
    requires job.mappers > 0 && from >= |job.files|
    ensures Dealt(job, from, n, k) == 0
  {
    if n > 0 {
      NothingDealt(job, from, n - 1, k);
    }
  }

  lemma {:induction false} SumDealt(job: Job, w: seq<int>, k: string)
    requires job.mappers > 0 && forall i | 0 <= i < |w| :: w[i] == FilesFrom(job, i + 1, k)
    ensures Sum(w) == Dealt(job, 1, |w|, k)
  {
    if w != [] {
      SumDealt(job, w[..|w| - 1], k);
    }
  }

  lemma {:induction false} SumZero(w: seq<int>)
    requires forall i | 0 <= i < |w| :: w[i] == 0
    ensures Sum(w) == 0
  {
    if w != [] {
      SumZero(w[..|w| - 1]);
    }
  }

  lemma InitKeeps(job: Job, s: Sys, k: string)
    requires Init(job, s)
    ensures Inv(job, s) && Ledger(job, s, k) == Total(job, 1, k)
  {
    SumZero(PartShares(s.parts, k));
    SumZero(ReducerShares(s.reducers, k));
    SumDealt(job, MapperShares(job, s.mappers, k), k);
    EachFileOnce(job, 1, k);
  }

  // ----- runs

  ghost predicate Run(job: Job, ss: seq<Sys>, es: seq<Step>) {
    && |ss| == |es| + 1 && Init(job, ss[0])
    && forall j: nat | j < |es| :: |ss[j].parts| == job.reducers && Stepped(job, ss[j], es[j], ss[j + 1])
  }

  lemma {:induction false} RunKeeps(job: Job, ss: seq<Sys>, es: seq<Step>, n: nat, k: string)
    requires Run(job, ss, es) && n < |ss|
    ensures Inv(job, ss[n]) && Ledger(job, ss[n], k) == Total(job, 1, k)
  {
    if n == 0 {
      InitKeeps(job, ss[0], k);
    } else {
      RunKeeps(job, ss, es, n - 1, k);
      assert Stepped(job, ss[n - 1], es[n - 1], ss[n - 1 + 1]);
      StepKeeps(job, ss[n - 1], es[n - 1], ss[n], k);
    }
  }

  ghost predicate Finished(s: Sys) {
    MappersDone(s) && forall r | 0 <= r < |s.reducers| :: s.reducers[r] == Scanning([])
  }

  /** When all threads of any run are done, the output has one line for every word of the files,
      with the number of times it occurs in them, and no other line. */
  lemma WordsCounted(job: Job, ss: seq<Sys>, es: seq<Step>, k: string)
    requires Run(job, ss, es) && Finished(ss[|es|])
    ensures var out := ss[|es|].output;
            && (forall j | 0 <= j < |out| && out[j].key == k :: out[j].count == Total(job, 1, k))
            && (Total(job, 1, k) > 0 <==> exists j :: 0 <= j < |out| && out[j].key == k)
            && (forall i, j | 0 <= i < j < |out| :: out[i].key != out[j].key)
  {
    var s := ss[|es|];
    RunKeeps(job, ss, es, |es|, k);
    AllPrinted(job, s, k);
    if j :| 0 <= j < |s.output| && s.output[j].key == k {
      assert PrintedOk(job, s, j);
      PrintedOnce(s.output, j);
    } else {
      NotPrinted(s.output, k);
    }
  }

  lemma AllPrinted(job: Job, s: Sys, k: string)
    requires Inv(job, s) && Finished(s)
    ensures Ledger(job, s, k) == Printed(s.output, k)
  {
    forall i: nat | i < |s.mappers| ensures MapperHas(job, s.mappers[i], k) == 0 {
      assert MapperOk(job, i, s.mappers[i]);
      assert s.mappers[i].list == [];
    }
    forall r: nat | r < |s.parts| ensures Vals(s.parts[r], k) == [] {
      assert ReducerOk(job, s, r);
      assert s.parts[r] == [];
    }
    SumZero(MapperShares(job, s.mappers, k));
    SumZero(PartShares(s.parts, k));
    SumZero(ReducerShares(s.reducers, k));
  }

  lemma {:induction false} NotPrinted(out: seq<Output>, k: string)
    requires forall j | 0 <= j < |out| :: out[j].key != k
    ensures Printed(out, k) == 0
  {
    if out != [] {
      NotPrinted(out[..|out| - 1], k);
    }
  }

  lemma {:induction false} PrintedOnce(out: seq<Output>, j: nat)
    requires j < |out| && forall i, j | 0 <= i < j < |out| :: out[i].key != out[j].key
    ensures Printed(out, out[j].key) == out[j].count
  {
    if j == |out| - 1 {
      NotPrinted(out[..j], out[j].key);
    } else {
      PrintedOnce(out[..|out| - 1], j);
    }
  }
}
