/** The word count client: what Combine and Reduce compute by draining one key of a list. */
module WordCount {
  import opened Common
  import opened MapReduce
  import opened MrList

  // `l'` is `l` but for the values of `key`.
  ghost predicate OthersKept(l: seq<Node>, key: string, l': seq<Node>) {
    Proper(l') && forall k | k != key :: Vals(l', k) == Vals(l, k)
  }

  // One value of `key` is taken from `l1`.
  lemma OneTaken(l: seq<Node>, key: string, l1: seq<Node>)
    requires OthersKept(l, key, l1) && Vals(l1, key) != []
    ensures OthersKept(l, key, Popped(l1, key)) && Vals(Popped(l1, key), key) == Vals(l1, key)[1..]
  {
    PopVals(l1, key, key);
    forall k | k != key ensures Vals(Popped(l1, key), k) == Vals(l, k) {
      PopVals(l1, key, k);
    }
  }

  // `l` once every value of `key` is taken.
  ghost function Drained(l: seq<Node>, key: string): (l': seq<Node>)
    requires Proper(l)
    ensures OthersKept(l, key, l') && Vals(l', key) == []
    decreases |Vals(l, key)|
  {
    if Vals(l, key) == [] then l
    else
      PopVals(l, key, key);
      OneTaken(l, key, l);
      var l' := Drained(Popped(l, key), key);
      l'
  }

  lemma DrainMore(l: seq<Node>, key: string)
    requires Proper(l) && Vals(l, key) != []
    ensures OthersKept(l, key, Popped(l, key)) && Vals(Popped(l, key), key) == Vals(l, key)[1..]
    ensures Drained(Popped(l, key), key) == Drained(l, key)
  {
    OneTaken(l, key, l);
  }

  // The loop of `Combine` has `value` in hand and `l1` left of `l`.
  ghost predicate Counting(l: seq<Node>, key: string, l1: seq<Node>, value: Option<string>, count: nat) {
    && Proper(l) && OthersKept(l, key, l1) && Drained(l1, key) == Drained(l, key)
    && (value.None? ==> Vals(l1, key) == [])
    && count + (if value.Some? then 1 else 0) + |Vals(l1, key)| == |Vals(l, key)|
  }

  // `get_next` takes the next value of `l1`.
  lemma CountMore(l: seq<Node>, key: string, l1: seq<Node>, count: nat)
    requires Proper(l) && OthersKept(l, key, l1) && Drained(l1, key) == Drained(l, key)
    requires count + |Vals(l1, key)| == |Vals(l, key)|
    ensures Counting(l, key, Popped(l1, key), if Vals(l1, key) == [] then None else Some(Vals(l1, key)[0]), count)
  {
    if Vals(l1, key) != [] {
      OneTaken(l, key, l1);
      DrainMore(l1, key);
    }
  }

  /** `Combine`: the number of values the mapper emitted for the key goes to its partition as one
      value; the mapper's list keeps every other key. */
  method Combine(list: KeyList, key: string, part: KeyList)
    requires Proper(list.nodes) && list != part
    modifies list, part
    ensures list.nodes == Drained(old(list.nodes), key)
    ensures OthersKept(old(list.nodes), key, list.nodes) && Vals(list.nodes, key) == []
    ensures part.nodes == Inserted(old(part.nodes), key, Itoa(|Vals(old(list.nodes), key)|))
  {
    var count: nat := 0;
    ghost var l := list.nodes;
    CountMore(l, key, l, 0);
    var value := list.GetNext(key);
    while value.Some?
      invariant part.nodes == old(part.nodes) && Counting(l, key, list.nodes, value, count)
      decreases |Vals(l, key)| - count
    {
      count := count + 1;
      CountMore(l, key, list.nodes, count);
      value := list.GetNext(key);
    }
    part.Insert(key, Itoa(count));
  }

  // The loop of `Reduce` has `value` in hand and `l1` left of `l`.
  ghost predicate Summing(l: seq<Node>, key: string, l1: seq<Node>, value: Option<string>, count: nat) {
    && Proper(l) && OthersKept(l, key, l1) && Drained(l1, key) == Drained(l, key)
    && (value.None? ==> Vals(l1, key) == [])
    && count + (if value.Some? then Num(value.value) else 0) + SumNum(Vals(l1, key)) == SumNum(Vals(l, key))
  }

  // `get_next` takes the next value of `l1`.
  lemma SumMore(l: seq<Node>, key: string, l1: seq<Node>, count: nat)
    requires Proper(l) && OthersKept(l, key, l1) && Drained(l1, key) == Drained(l, key)
    requires count + SumNum(Vals(l1, key)) == SumNum(Vals(l, key))
    ensures Summing(l, key, Popped(l1, key), if Vals(l1, key) == [] then None else Some(Vals(l1, key)[0]), count)
    ensures Vals(l1, key) != [] ==> |Vals(Popped(l1, key), key)| < |Vals(l1, key)|
  {
    if Vals(l1, key) != [] {
      OneTaken(l, key, l1);
      DrainMore(l1, key);
    }
  }

  /** `Reduce`: the line printed has the key and the sum of its values. */
  method Reduce(part: KeyList, key: string) returns (line: string)
    requires Proper(part.nodes)
    modifies part
    ensures part.nodes == Drained(old(part.nodes), key)
    ensures OthersKept(old(part.nodes), key, part.nodes) && Vals(part.nodes, key) == []
    ensures line == key + " " + Itoa(SumNum(Vals(old(part.nodes), key)))
  {
    var count: nat := 0;
    ghost var l := part.nodes;
    SumMore(l, key, l, 0);
    var value := part.GetNext(key);
    while value.Some?
      invariant Summing(l, key, part.nodes, value, count)
      decreases |Vals(part.nodes, key)|, if value.Some? then 1 else 0
    {
      count := count + Num(value.value);
      SumMore(l, key, part.nodes, count);
      value := part.GetNext(key);
    }
    line := key + " " + Itoa(count);
  }

  // ----- the calls as steps of the threads

  // A run of mapper `i + 1` alone, with the partitions.
  datatype Combining = Combining(mapper: Mapper, parts: seq<seq<Node>>)

  ghost predicate MapperRun(job: Job, i: nat, zs: seq<Combining>, es: seq<Step>) {
    && job.Valid() && |zs| == |es| + 1
    && (forall k: nat | k < |zs| :: |zs[k].parts| == job.reducers)
    && forall k: nat | k < |es| :: MapperStepped(job, i, zs[k], es[k], zs[k + 1])
  }

  ghost predicate MapperStepped(job: Job, i: nat, z: Combining, e: Step, z': Combining)
    requires job.Valid() && |z.parts| == job.reducers
  {
    MapperStep(job, i, z.mapper, z.parts, e, z'.mapper, z'.parts)
  }

  lemma MapperRunFirst(job: Job, i: nat, z: Combining, e: Step, zs: seq<Combining>, es: seq<Step>)
    requires MapperRun(job, i, zs, es) && |z.parts| == job.reducers && MapperStepped(job, i, z, e, zs[0])
    ensures MapperRun(job, i, [z] + zs, [e] + es)
  {
    forall k: nat | k < |es| + 1 ensures MapperStepped(job, i, ([z] + zs)[k], ([e] + es)[k], ([z] + zs)[k + 1]) {
      if k > 0 {
        assert MapperStepped(job, i, zs[k - 1], es[k - 1], zs[k - 1 + 1]);
      }
    }
  }

  // `n` times the same step.
  function Times(e: Step, n: nat): seq<Step> { if n == 0 then [] else [e] + Times(e, n - 1) }

  // The partitions once `Combine` has handed `count` over for `key`.
  ghost function Handed(job: Job, parts: seq<seq<Node>>, key: string, count: nat): seq<seq<Node>>
    requires job.Valid() && |parts| == job.reducers
  {
    var p := job.Part(key);
    parts[p := Inserted(parts[p], key, Itoa(count))]
  }

  lemma TimesMore(e: Step, n: nat, last: Step)
    requires n > 0
    ensures Times(e, n) + [last] == [e] + (Times(e, n - 1) + [last])
  {
  }

  // What is left once the values are taken and handed over.
  ghost function DrainEnd(job: Job, z: Combining): Combining
    requires job.Valid() && |z.parts| == job.reducers && Proper(z.mapper.list) && z.mapper.phase.Draining?
  {
    var x := z.mapper;
    Combining(x.(list := Drained(x.list, x.phase.key), phase := Scanning(x.phase.todo)),
              Handed(job, z.parts, x.phase.key, x.phase.count + |Vals(x.list, x.phase.key)|))
  }

  lemma GetStep(job: Job, i: nat, z: Combining) returns (z': Combining)
    requires job.Valid() && |z.parts| == job.reducers && Proper(z.mapper.list) && z.mapper.phase.Draining?
    requires Vals(z.mapper.list, z.mapper.phase.key) != []
    ensures MapperStepped(job, i, z, CombineGet(i), z')
    ensures z'.parts == z.parts && Proper(z'.mapper.list) && z'.mapper.phase.Draining?
    ensures z'.mapper.phase.key == z.mapper.phase.key
    ensures |Vals(z'.mapper.list, z.mapper.phase.key)| == |Vals(z.mapper.list, z.mapper.phase.key)| - 1
    ensures DrainEnd(job, z') == DrainEnd(job, z)
  {
    var x, key := z.mapper, z.mapper.phase.key;
    DrainMore(x.list, key);
    z' := Combining(x.(list := Popped(x.list, key), phase := x.phase.(count := x.phase.count + 1)), z.parts);
  }

  lemma {:induction false} DrainIsRun(job: Job, i: nat, z: Combining) returns (zs: seq<Combining>, es: seq<Step>)
    requires job.Valid() && |z.parts| == job.reducers && Proper(z.mapper.list) && z.mapper.phase.Draining?
    ensures MapperRun(job, i, zs, es) && zs[0] == z
    ensures es == Times(CombineGet(i), |Vals(z.mapper.list, z.mapper.phase.key)|) + [CombineEmit(i)]
    ensures zs[|es|] == DrainEnd(job, z)
    decreases |Vals(z.mapper.list, z.mapper.phase.key)|
  {
    var x, key := z.mapper, z.mapper.phase.key;
    if Vals(x.list, key) == [] {
      var z' := Combining(x.(phase := Scanning(x.phase.todo)), Handed(job, z.parts, key, x.phase.count));
      assert MapperStepped(job, i, z, CombineEmit(i), z');
      return [z, z'], [CombineEmit(i)];
    }
    var z' := GetStep(job, i, z);
    zs, es := DrainIsRun(job, i, z');
    MapperRunFirst(job, i, z, CombineGet(i), zs, es);
    TimesMore(CombineGet(i), |Vals(x.list, key)|, CombineEmit(i));
    zs, es := [z] + zs, [CombineGet(i)] + es;
  }

  /** A call of Combine is a run of its mapper: it goes to the key, takes its values one by one, and hands
      their number over, with the same list and the same partition at the end as the loop. */
  lemma CombineIsRun(job: Job, i: nat, z: Combining) returns (zs: seq<Combining>, es: seq<Step>)
    requires job.Valid() && |z.parts| == job.reducers && Proper(z.mapper.list)
    requires z.mapper.phase.Scanning? && z.mapper.phase.todo != []
    ensures MapperRun(job, i, zs, es) && zs[0] == z
    ensures var x, key := z.mapper, z.mapper.phase.todo[0];
            var n := |Vals(x.list, key)|;
            && es == [CombineKey(i)] + (Times(CombineGet(i), n) + [CombineEmit(i)])
            && zs[|es|] == Combining(x.(list := Drained(x.list, key), phase := Scanning(x.phase.todo[1..])),
                                     Handed(job, z.parts, key, n))
  {
    var x := z.mapper;
    zs, es := DrainIsRun(job, i, z.(mapper := x.(phase := Draining(x.phase.todo[0], 0, x.phase.todo[1..]))));
    MapperRunFirst(job, i, z, CombineKey(i), zs, es);
    zs, es := [z] + zs, [CombineKey(i)] + es;
  }

  // A run of one reducer alone, with its partition and the output.
  datatype Reducing = Reducing(phase: Phase, part: seq<Node>, out: seq<Output>)

  ghost predicate ReducerRun(zs: seq<Reducing>, es: seq<Step>) {
    && |zs| == |es| + 1
    && forall k: nat | k < |es| :: ReducerStepped(zs[k], es[k], zs[k + 1])
  }

  ghost predicate ReducerStepped(z: Reducing, e: Step, z': Reducing) {
    ReducerStep(z.phase, z.part, z.out, e, z'.phase, z'.part, z'.out)
  }

  lemma ReducerRunFirst(z: Reducing, e: Step, zs: seq<Reducing>, es: seq<Step>)
    requires ReducerRun(zs, es) && ReducerStepped(z, e, zs[0])
    ensures ReducerRun([z] + zs, [e] + es)
  {
    forall k: nat | k < |es| + 1 ensures ReducerStepped(([z] + zs)[k], ([e] + es)[k], ([z] + zs)[k + 1]) {
      if k > 0 {
        assert ReducerStepped(zs[k - 1], es[k - 1], zs[k - 1 + 1]);
      }
    }
  }

  lemma AddStep(r: nat, z: Reducing) returns (z': Reducing)
    requires z.phase.Draining? && Vals(z.part, z.phase.key) != []
    ensures ReducerStepped(z, ReduceGet(r), z')
    ensures z' == z.(part := Popped(z.part, z.phase.key),
                     phase := z.phase.(count := z.phase.count + Num(Vals(z.part, z.phase.key)[0])))
  {
    z' := z.(part := Popped(z.part, z.phase.key),
             phase := z.phase.(count := z.phase.count + Num(Vals(z.part, z.phase.key)[0])));
  }

  lemma {:induction false} SumIsRun(r: nat, z: Reducing) returns (zs: seq<Reducing>, es: seq<Step>)
    requires Proper(z.part) && z.phase.Draining?
    ensures ReducerRun(zs, es) && zs[0] == z
    ensures es == Times(ReduceGet(r), |Vals(z.part, z.phase.key)|) + [Print(r)]
    ensures zs[|es|] == Reducing(Scanning(z.phase.todo), Drained(z.part, z.phase.key),
      z.out + [Output(z.phase.key, z.phase.count + SumNum(Vals(z.part, z.phase.key)))])
    decreases |Vals(z.part, z.phase.key)|
  {
    var key := z.phase.key;
    if Vals(z.part, key) == [] {
      var z' := Reducing(Scanning(z.phase.todo), z.part, z.out + [Output(key, z.phase.count)]);
      assert ReducerStepped(z, Print(r), z');
      return [z, z'], [Print(r)];
    }
    DrainMore(z.part, key);
    var z' := AddStep(r, z);
    zs, es := SumIsRun(r, z');
    ReducerRunFirst(z, ReduceGet(r), zs, es);
    TimesMore(ReduceGet(r), |Vals(z.part, key)|, Print(r));
    zs, es := [z] + zs, [ReduceGet(r)] + es;
  }

  /** A call of Reduce is a run of its reducer: it goes to the key, adds its values up one by one, and prints
      the line, with the same partition at the end as the loop. */
  lemma ReduceIsRun(r: nat, z: Reducing) returns (zs: seq<Reducing>, es: seq<Step>)
    requires Proper(z.part) && z.phase.Scanning? && z.phase.todo != []
    ensures ReducerRun(zs, es) && zs[0] == z
    ensures es == [ReduceKey(r)] + (Times(ReduceGet(r), |Vals(z.part, z.phase.todo[0])|) + [Print(r)])
    ensures zs[|es|] == Reducing(Scanning(z.phase.todo[1..]), Drained(z.part, z.phase.todo[0]),
      z.out + [Output(z.phase.todo[0], SumNum(Vals(z.part, z.phase.todo[0])))])
  {
    var z' := z.(phase := Draining(z.phase.todo[0], 0, z.phase.todo[1..]));
    zs, es := SumIsRun(r, z');
    ReducerRunFirst(z, ReduceKey(r), zs, es);
    zs, es := [z] + zs, [ReduceKey(r)] + es;
  }
}
