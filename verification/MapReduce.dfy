/** The word count program on the MapReduce library, as steps of its threads: mappers read their
    files, combine what they found and hand the counts to the partitions; then the reducers drain
    the partitions.  A thread's list is its own; a partition is changed under its semaphore. */
module MapReduce {
  import opened MrList

  // ----- sums over threads

  function Sum(w: seq<int>): int {
    if w == [] then 0 else Sum(w[..|w| - 1]) + w[|w| - 1]
  }

  lemma {:induction false} SumUpdate(w: seq<int>, i: nat, x: int)
    requires i < |w|
    ensures Sum(w[i := x]) == Sum(w) - w[i] + x
  {
    if i == |w| - 1 {
      assert w[i := x][..i] == w[..i];
    } else {
      assert w[i := x][..|w| - 1] == w[..|w| - 1][i := x];
      SumUpdate(w[..|w| - 1], i, x);
    }
  }

  // ----- the job

  // files[x] is what Map reads in argv[x]: its words.  argv[0] is not read.
  datatype Job = Job(files: seq<seq<string>>, mappers: nat, reducers: nat) {
    ghost predicate Valid() { mappers > 0 && reducers > 0 }
    function Part(key: string): nat
      requires reducers > 0
    {
      HashPartition(key, reducers)
    }
  }

  // ----- MR_DefaultHashPartition

  const LONG: nat := 0x1_0000_0000_0000_0000       // an unsigned long has 64 bits

  // A character as the `int` it is read into; `char` is signed.
  function Signed(c: char): int {
    var b := c as int % 256;
    if b < 128 then b else b - 256
  }

  // What the loop makes of the rest of a key.
  function Hash(key: string, hash: nat): nat {
    if key == "" then hash else Hash(key[1..], (hash * 33 + Signed(key[0])) % LONG)
  }

  function HashPartition(key: string, n: nat): (p: nat)
    requires n > 0
    ensures p < n
  {
    Hash(key, 5381) % n
  }

  // The characters as the digits of a number in base 33, after 5381.
  function Digits(key: string): (r: int)
    ensures r >= 5381
  {
    if key == "" then 5381 else 33 * Digits(key[..|key| - 1]) + Signed(key[|key| - 1])
  }

  lemma {:induction false} HashLast(key: string, hash: nat, c: char)
    ensures Hash(key + [c], hash) == (Hash(key, hash) * 33 + Signed(c)) % LONG
    decreases key
  {
    if key == "" {
      assert [c][1..] == "" && key + [c] == [c];
    } else {
      assert (key + [c])[1..] == key[1..] + [c] && (key + [c])[0] == key[0];
      HashLast(key[1..], (hash * 33 + Signed(key[0])) % LONG, c);
    }
  }

  lemma {:induction false} DropMultiples(q: nat, x: int)
    ensures (q * LONG + x) % LONG == x % LONG
  {
    if q > 0 {
      DropMultiples(q - 1, x);
      assert q * LONG + x == (q - 1) * LONG + x + LONG;
    }
  }

  /** The hash is that number, as far as 64 bits hold it. */
  lemma {:induction false} HashIsDigits(key: string)
    ensures Hash(key, 5381) == Digits(key) % LONG
  {
    if key != "" {
      var init, c := key[..|key| - 1], key[|key| - 1];
      HashIsDigits(init);
      HashLast(init, 5381, c);
      assert init + [c] == key;
      var d := Digits(init);
      assert 33 * d + Signed(c) == 33 * (d / LONG) * LONG + (33 * (d % LONG) + Signed(c));
      DropMultiples(33 * (d / LONG), 33 * (d % LONG) + Signed(c));
    }
  }

  /** `MR_DefaultHashPartition`: the partition of a key. */
  method DefaultHashPartition(key: string, n: nat) returns (p: nat)
    requires n > 0
    ensures p < n && p == HashPartition(key, n) == Digits(key) % LONG % n
  {
    var hash, i := 5381, 0;
    while i < |key|
      invariant 0 <= i <= |key| && 0 <= hash < LONG && Hash(key[i..], hash) == Hash(key, 5381)
    {
      hash := (hash * 33 + Signed(key[i])) % LONG;
      i := i + 1;
    }
    HashIsDigits(key);
    return hash % n;
  }

  // ----- threads

  datatype Phase =
    | Mapping
    | Scanning(todo: seq<string>)                              // keys from `head` on
    | Draining(key: string, count: nat, todo: seq<string>)     // inside Combine or Reduce

  datatype Mapper = Mapper(loca: nat, words: seq<string>, list: seq<Node>, phase: Phase)

  datatype Output = Output(key: string, count: nat)

  datatype Sys = Sys(
    mappers: seq<Mapper>,          // mapper m is at index m - 1
    parts: seq<seq<Node>>,
    reducers: seq<Phase>,          // Mapping: not started
    output: seq<Output>)

  datatype Step =
    | NextFile(m: nat) | Emit(m: nat) | StartCombine(m: nat)
    | CombineKey(m: nat) | CombineGet(m: nat) | CombineEmit(m: nat)
    | StartReduce(r: nat) | ReduceKey(r: nat) | ReduceGet(r: nat) | Print(r: nat)

  ghost predicate MappersDone(s: Sys) {
    forall i | 0 <= i < |s.mappers| :: s.mappers[i].phase == Scanning([])
  }

  // One step of mapper `i + 1`, on itself and the partitions.
  ghost predicate MapperStep(job: Job, i: nat, x: Mapper, parts: seq<seq<Node>>, e: Step,
                             x': Mapper, parts': seq<seq<Node>>)
    requires job.Valid() && |parts| == job.reducers
  {
    match e
    case NextFile(_) =>
      && x.phase == Mapping && x.words == [] && x.loca < |job.files|
      && x' == x.(words := job.files[x.loca], loca := x.loca + job.mappers) && parts' == parts
    case Emit(_) =>
      && x.phase == Mapping && x.words != []
      && x' == x.(words := x.words[1..], list := Inserted(x.list, x.words[0], "1")) && parts' == parts
    case StartCombine(_) =>
      && x.phase == Mapping && x.words == [] && x.loca >= |job.files|
      && x' == x.(phase := Scanning(if i + 1 < |job.files| then Keys(x.list) else [])) && parts' == parts
    case CombineKey(_) =>
      && x.phase.Scanning? && x.phase.todo != []
      && x' == x.(phase := Draining(x.phase.todo[0], 0, x.phase.todo[1..])) && parts' == parts
    case CombineGet(_) =>
      && x.phase.Draining? && Vals(x.list, x.phase.key) != []
      && x' == x.(list := Popped(x.list, x.phase.key), phase := x.phase.(count := x.phase.count + 1))
      && parts' == parts
    case CombineEmit(_) =>
      && x.phase.Draining? && Vals(x.list, x.phase.key) == []
      && x' == x.(phase := Scanning(x.phase.todo))
      && var p := job.Part(x.phase.key);
         parts' == parts[p := Inserted(parts[p], x.phase.key, Itoa(x.phase.count))]
    case _ => false
  }

  // One step of a reducer, on itself, its partition and the output.
  ghost predicate ReducerStep(x: Phase, part: seq<Node>, out: seq<Output>, e: Step,
                              x': Phase, part': seq<Node>, out': seq<Output>)
  {
    match e
    case StartReduce(_) => x == Mapping && x' == Scanning(Keys(part)) && part' == part && out' == out
    case ReduceKey(_) =>
      && x.Scanning? && x.todo != []
      && x' == Draining(x.todo[0], 0, x.todo[1..]) && part' == part && out' == out
    case ReduceGet(_) =>
      && x.Draining? && Vals(part, x.key) != []
      && x' == x.(count := x.count + Num(Vals(part, x.key)[0]))
      && part' == Popped(part, x.key) && out' == out
    case Print(_) =>
      && x.Draining? && Vals(part, x.key) == []
      && x' == Scanning(x.todo) && part' == part && out' == out + [Output(x.key, x.count)]
    case _ => false
  }

  ghost predicate Stepped(job: Job, s: Sys, e: Step, s': Sys)
    requires job.Valid() && |s.parts| == job.reducers
  {
    match e
    case NextFile(m) => MapperMoves(job, s, m, e, s')
    case Emit(m) => MapperMoves(job, s, m, e, s')
    case StartCombine(m) => MapperMoves(job, s, m, e, s')
    case CombineKey(m) => MapperMoves(job, s, m, e, s')
    case CombineGet(m) => MapperMoves(job, s, m, e, s')
    case CombineEmit(m) => MapperMoves(job, s, m, e, s')
    case StartReduce(r) => ReducerMoves(s, r, e, s')
    case ReduceKey(r) => ReducerMoves(s, r, e, s')
    case ReduceGet(r) => ReducerMoves(s, r, e, s')
    case Print(r) => ReducerMoves(s, r, e, s')
  }

  ghost predicate MapperMoves(job: Job, s: Sys, i: nat, e: Step, s': Sys)
    requires job.Valid() && |s.parts| == job.reducers
  {
    && i < |s.mappers| == |s'.mappers|
    && s' == s.(mappers := s.mappers[i := s'.mappers[i]], parts := s'.parts)
    && MapperStep(job, i, s.mappers[i], s.parts, e, s'.mappers[i], s'.parts)
  }

  // Reducers start when every mapper has been joined.
  ghost predicate ReducerMoves(s: Sys, r: nat, e: Step, s': Sys) {
    && MappersDone(s) && r < |s.reducers| == |s'.reducers| && r < |s.parts| == |s'.parts|
    && s' == s.(reducers := s.reducers[r := s'.reducers[r]], parts := s.parts[r := s'.parts[r]],
                output := s'.output)
    && ReducerStep(s.reducers[r], s.parts[r], s.output, e, s'.reducers[r], s'.parts[r], s'.output)
  }

  // ----- where the occurrences of a key are

  function Count(words: seq<string>, k: string): nat {
    if words == [] then 0 else (if words[0] == k then 1 else 0) + Count(words[1..], k)
  }

  // Occurrences in the files a mapper has still to read, from argv[loca] on.
  function FilesFrom(job: Job, loca: nat, k: string): nat
    requires job.mappers > 0
    decreases |job.files| - loca
  {
    if loca >= |job.files| then 0 else Count(job.files[loca], k) + FilesFrom(job, loca + job.mappers, k)
  }

  function InHand(x: Phase, k: string): nat {
    if x.Draining? && x.key == k then x.count else 0
  }

  function MapperHas(job: Job, x: Mapper, k: string): int
    requires job.mappers > 0
  {
    Count(x.words, k) + FilesFrom(job, x.loca, k) + |Vals(x.list, k)| + InHand(x.phase, k)
  }

  function SumNum(vals: seq<string>): nat {
    if vals == [] then 0 else Num(vals[0]) + SumNum(vals[1..])
  }

  function Printed(out: seq<Output>, k: string): nat {
    if out == [] then 0
    else Printed(out[..|out| - 1], k) + if out[|out| - 1].key == k then out[|out| - 1].count else 0
  }

  ghost function MapperShares(job: Job, ms: seq<Mapper>, k: string): (w: seq<int>)
    requires job.mappers > 0
    ensures |w| == |ms|
  {
    seq(|ms|, i requires 0 <= i < |ms| => MapperHas(job, ms[i], k))
  }

  ghost function PartShares(parts: seq<seq<Node>>, k: string): (w: seq<int>)
    ensures |w| == |parts|
  {
    seq(|parts|, i requires 0 <= i < |parts| => SumNum(Vals(parts[i], k)))
  }

  ghost function ReducerShares(rs: seq<Phase>, k: string): (w: seq<int>)
    ensures |w| == |rs|
  {
    seq(|rs|, i requires 0 <= i < |rs| => InHand(rs[i], k))
  }

  // All occurrences of `k`, wherever they have got to.
  ghost function Ledger(job: Job, s: Sys, k: string): int
    requires job.mappers > 0
  {
    Sum(MapperShares(job, s.mappers, k)) + Sum(PartShares(s.parts, k))
      + Sum(ReducerShares(s.reducers, k)) + Printed(s.output, k)
  }

  // ----- the invariant

  // A thread that goes through the keys of `l` is at the front of it.
  ghost predicate AtFront(x: Phase, l: seq<Node>) {
    match x
    case Mapping => true
    case Scanning(todo) => todo == Keys(l)
    case Draining(k, c, todo) =>
      if l != [] && l[0].key == k then Keys(l)[1..] == todo
      else c >= 1 && Keys(l) == todo && k !in todo
  }

  ghost predicate MapperOk(job: Job, i: nat, x: Mapper) {
    && Proper(x.list) && AtFront(x.phase, x.list)
    && (x.phase != Mapping ==> x.words == [] && x.loca >= |job.files|)
    && (i + 1 >= |job.files| ==> x.list == [] && x.words == [] && x.loca >= |job.files|)
  }

  ghost predicate PartOk(job: Job, p: nat, l: seq<Node>)
    requires job.reducers > 0
  {
    && Proper(l)
    && forall i | 0 <= i < |l| :: job.Part(l[i].key) == p && Numbers(l[i].vals)
  }

  // Every value is a number of at least 1.
  ghost predicate Numbers(vals: seq<string>) {
    forall i | 0 <= i < |vals| :: Num(vals[i]) >= 1
  }

  // A printed key is gone from its partition and is not being counted again.
  ghost predicate PrintedOk(job: Job, s: Sys, j: nat)
    requires job.reducers > 0 && j < |s.output| && |s.parts| == |s.reducers| == job.reducers
  {
    var k := s.output[j].key;
    var r := job.Part(k);
    && s.output[j].count >= 1
    && s.reducers[r] != Mapping && k !in Keys(s.parts[r])
    && !(s.reducers[r].Draining? && s.reducers[r].key == k)
  }

  ghost predicate Inv(job: Job, s: Sys) {
    && job.Valid() && |s.mappers| == job.mappers && |s.parts| == |s.reducers| == job.reducers
    && (forall i: nat | i < |s.mappers| :: MapperOk(job, i, s.mappers[i]))
    && (forall p: nat | p < |s.parts| :: PartOk(job, p, s.parts[p]) && ReducerOk(job, s, p))
    && (forall j: nat | j < |s.output| :: PrintedOk(job, s, j))
    && (forall i, j | 0 <= i < j < |s.output| :: s.output[i].key != s.output[j].key)
  }

  ghost predicate ReducerOk(job: Job, s: Sys, r: nat)
    requires job.reducers > 0 && r < |s.reducers| == |s.parts|
  {
    && AtFront(s.reducers[r], s.parts[r])
    && (s.reducers[r] != Mapping ==> MappersDone(s))
    && (s.reducers[r].Draining? ==> job.Part(s.reducers[r].key) == r)
  }
}
