/** The key lists of the MapReduce library: nodes of one key each, values pushed and popped at the
    front.  `ll_insert`, `get_next_for_combine` and `get_next_for_reducer`. */
module MrList {
  import opened Common

  datatype Node = Node(key: string, vals: seq<string>)

  // Position of the node of `key`, or the length of the list.
  function IndexOf(l: seq<Node>, key: string): (i: nat)
    ensures i <= |l| && (i < |l| ==> l[i].key == key)
    ensures forall j | 0 <= j < i :: l[j].key != key
  {
    if l == [] || l[0].key == key then 0 else 1 + IndexOf(l[1..], key)
  }

  function Inserted(l: seq<Node>, key: string, v: string): seq<Node> {
    var i := IndexOf(l, key);
    if i < |l| then l[i := Node(key, [v] + l[i].vals)] else [Node(key, [v])] + l
  }

  // The list after one value of `key` is taken; a node without values leaves the list.
  function Popped(l: seq<Node>, key: string): seq<Node> {
    var i := IndexOf(l, key);
    if i == |l| || l[i].vals == [] then l
    else if |l[i].vals| == 1 then l[..i] + l[i + 1..]
    else l[i := Node(key, l[i].vals[1..])]
  }

  // All values of `key`, the newest first.
  function Vals(l: seq<Node>, key: string): seq<string> {
    var i := IndexOf(l, key);
    if i < |l| then l[i].vals else []
  }

  function Keys(l: seq<Node>): (ks: seq<string>)
    ensures |ks| == |l|
  {
    seq(|l|, i requires 0 <= i < |l| => l[i].key)
  }

  // One node a key, and every node has a value.
  ghost predicate Proper(l: seq<Node>) {
    && (forall i | 0 <= i < |l| :: l[i].vals != [])
    && (forall i, j | 0 <= i < j < |l| :: l[i].key != l[j].key)
  }

  lemma IndexIs(l: seq<Node>, i: nat)
    requires Proper(l) && i < |l|
    ensures IndexOf(l, l[i].key) == i && Vals(l, l[i].key) == l[i].vals
  {
  }

  lemma Absent(l: seq<Node>, key: string)
    requires forall i | 0 <= i < |l| :: l[i].key != key
    ensures IndexOf(l, key) == |l| && Vals(l, key) == []
  {
  }

  /** Inserting adds the value to its key and to no other; a new key goes to the front. */
  lemma InsertVals(l: seq<Node>, key: string, v: string, k: string)
    requires Proper(l)
    ensures Proper(Inserted(l, key, v))
    ensures Vals(Inserted(l, key, v), k) == if k == key then [v] + Vals(l, k) else Vals(l, k)
  {
    var i, l' := IndexOf(l, key), Inserted(l, key, v);
    var j := IndexOf(l, k);
    if i < |l| {
      if j < |l| {
        IndexIs(l', j);
      } else {
        Absent(l', k);
      }
    } else {
      InsertNew(l, key, v, k);
    }
  }

  lemma NewProper(l: seq<Node>, key: string, v: string)
    requires Proper(l) && IndexOf(l, key) == |l|
    ensures Proper([Node(key, [v])] + l)
  {
    var l' := [Node(key, [v])] + l;
    assert forall i | 1 <= i < |l'| :: l'[i] == l[i - 1];
  }

  lemma InsertNew(l: seq<Node>, key: string, v: string, k: string)
    requires Proper(l) && IndexOf(l, key) == |l|
    ensures Proper([Node(key, [v])] + l)
    ensures Vals([Node(key, [v])] + l, k) == if k == key then [v] else Vals(l, k)
  {
    var l' := [Node(key, [v])] + l;
    NewProper(l, key, v);
    var j := IndexOf(l, k);
    if k == key {
      IndexIs(l', 0);
    } else if j < |l| {
      assert l'[j + 1] == l[j];
      IndexIs(l', j + 1);
    } else {
      Absent(l', k);
    }
  }

  /** Popping takes the newest value of its key and leaves every other key alone. */
  lemma PopVals(l: seq<Node>, key: string, k: string)
    requires Proper(l) && Vals(l, key) != []
    ensures Proper(Popped(l, key))
    ensures Vals(Popped(l, key), k) == if k == key then Vals(l, k)[1..] else Vals(l, k)
  {
    var i := IndexOf(l, key);
    assert l[i].key == key && (k == key ==> Vals(l, k) == l[i].vals);
    if |l[i].vals| == 1 {
      RemoveNode(l, i, k);
    } else {
      ReplaceNode(l, i, l[i].vals[1..], k);
    }
  }

  lemma ReplaceNode(l: seq<Node>, i: nat, vals: seq<string>, k: string)
    requires Proper(l) && i < |l| && vals != []
    ensures Proper(l[i := Node(l[i].key, vals)])
    ensures Vals(l[i := Node(l[i].key, vals)], k) == if k == l[i].key then vals else Vals(l, k)
  {
    var l', j := l[i := Node(l[i].key, vals)], IndexOf(l, k);
    if j == |l| {
      Absent(l', k);
    } else {
      IndexIs(l', j);
    }
    IndexIs(l, i);
  }

  lemma RemoveNode(l: seq<Node>, i: nat, k: string)
    requires Proper(l) && i < |l|
    ensures Proper(l[..i] + l[i + 1..])
    ensures Vals(l[..i] + l[i + 1..], k) == if k == l[i].key then [] else Vals(l, k)
  {
    var l', j := l[..i] + l[i + 1..], IndexOf(l, k);
    assert forall x | 0 <= x < |l'| :: l'[x] == l[if x < i then x else x + 1];
    if j < |l| && j != i {
      var j' := if j < i then j else j - 1;
      assert l'[j'] == l[j];
      IndexIs(l', j');
    } else {
      Absent(l', k);
    }
  }

  lemma PopKeys(l: seq<Node>, key: string)
    requires Proper(l) && l != [] && l[0].key == key
    ensures Vals(l, key) != []
    ensures Popped(l, key) == if |l[0].vals| == 1 then l[1..] else l[0 := Node(key, l[0].vals[1..])]
    ensures Keys(Popped(l, key)) == if |l[0].vals| == 1 then Keys(l)[1..] else Keys(l)
    ensures key !in Keys(l)[1..]
  {
    assert IndexOf(l, key) == 0;
    assert l[..0] + l[1..] == l[1..];
    forall j | 0 <= j < |l| - 1 ensures Keys(l)[1..][j] != key { assert Keys(l)[1..][j] == l[j + 1].key; }
  }

  lemma NoVals(l: seq<Node>, key: string)
    requires Proper(l)
    ensures Vals(l, key) == [] <==> key !in Keys(l)
  {
    if key in Keys(l) {
      var i :| 0 <= i < |l| && Keys(l)[i] == key;
      IndexIs(l, i);
    }
    if Vals(l, key) != [] {
      assert Keys(l)[IndexOf(l, key)] == key;
    }
  }

  // ----- the code

  class KeyList {
    var nodes: seq<Node>

    /** `ll_insert` and `MR_EmitToCombiner`: the value goes in front of its key's values; a key that
        the list does not have goes to the front of the list. */
    method Insert(key: string, value: string)
      modifies this
      ensures nodes == Inserted(old(nodes), key, value)
      ensures (forall i | 0 <= i < |old(nodes)| :: old(nodes)[i].key != key) ==>
        nodes == [Node(key, [value])] + old(nodes)
      ensures forall i | 0 <= i < |old(nodes)| && old(nodes)[i].key == key ::
        (forall j | 0 <= j < i :: old(nodes)[j].key != key) ==>
        nodes == old(nodes)[i := Node(key, [value] + old(nodes)[i].vals)]
    {
      var i := 0;
      while i < |nodes| && nodes[i].key != key
        invariant 0 <= i <= |nodes| && nodes == old(nodes)
        invariant forall j | 0 <= j < i :: nodes[j].key != key
      {
        i := i + 1;
      }
      FoundAt(nodes, key, i);
      if i == |nodes| {
        nodes := [Node(key, [value])] + nodes;
        return;
      }
      nodes := nodes[i := Node(key, [value] + nodes[i].vals)];
    }

    /** `get_next_for_combine` and `get_next_for_reducer`: the first of the key's values is taken, and
        the key goes with its last; a key without values has none. */
    method GetNext(key: string) returns (val: Option<string>)
      modifies this
      ensures nodes == Popped(old(nodes), key)
      ensures val == if Vals(old(nodes), key) == [] then None else Some(Vals(old(nodes), key)[0])
      ensures (forall i | 0 <= i < |old(nodes)| :: old(nodes)[i].key != key) ==> val == None && nodes == old(nodes)
      ensures forall i | 0 <= i < |old(nodes)| && old(nodes)[i].key == key ::
        (forall j | 0 <= j < i :: old(nodes)[j].key != key) ==>
        var vals := old(nodes)[i].vals;
        if vals == [] then val == None && nodes == old(nodes)
        else
          && val == Some(vals[0])
          && nodes == if |vals| == 1 then old(nodes)[..i] + old(nodes)[i + 1..]
                      else old(nodes)[i := Node(key, vals[1..])]
    {
      var i := 0;
      while i < |nodes| && nodes[i].key != key
        invariant 0 <= i <= |nodes| && nodes == old(nodes)
        invariant forall j | 0 <= j < i :: nodes[j].key != key
      {
        i := i + 1;
      }
      FoundAt(nodes, key, i);
      if i < |nodes| && nodes[i].vals != [] {
        val := Some(nodes[i].vals[0]);
        nodes := nodes[i := Node(key, nodes[i].vals[1..])];
        if nodes[i].vals == [] {
          nodes := nodes[..i] + nodes[i + 1..];
        }
      } else {
        val := None;
      }
    }
  }

  lemma FoundAt(l: seq<Node>, key: string, i: nat)
    requires i <= |l| && (i < |l| ==> l[i].key == key) && forall j | 0 <= j < i :: l[j].key != key
    ensures IndexOf(l, key) == i
  {
  }

  // ----- numbers as values

  function Itoa(n: nat): string {
    if n < 10 then [('0' as int + n) as char] else Itoa(n / 10) + [('0' as int + n % 10) as char]
  }

  predicate Digits(s: string) {
    forall i | 0 <= i < |s| :: '0' <= s[i] <= '9'
  }

  function Atoi(s: string): nat
    requires Digits(s)
  {
    if s == "" then 0
    else
      10 * Atoi(s[..|s| - 1]) + (s[|s| - 1] as int - '0' as int)
  }

  // The number a value stands for.
  function Num(v: string): nat { if Digits(v) then Atoi(v) else 0 }

  /** What `sprintf` writes, `atoi` reads back. */
  lemma {:induction false} ItoaAtoi(n: nat)
    ensures Digits(Itoa(n)) && Atoi(Itoa(n)) == n
    ensures Itoa(n) != ""
  {
    if n >= 10 {
      ItoaAtoi(n / 10);
      assert Itoa(n)[..|Itoa(n)| - 1] == Itoa(n / 10);
    } else {
      assert Itoa(n)[..0] == "";
    }
  }

  /** The digits are decimal, the last one the units. */
  lemma {:induction false} ItoaDigit(n: nat, k: nat)
    requires k < |Itoa(n)|
    ensures Itoa(n)[|Itoa(n)| - 1 - k] as int == '0' as int + n / Power10(k) % 10
    decreases k
  {
    if k > 0 && n >= 10 {
      ItoaDigit(n / 10, k - 1);
      DividedTwice(n, 10, Power10(k - 1));
    }
  }

  function Power10(k: nat): (r: nat)
    ensures r > 0
  {
    if k == 0 then 1 else 10 * Power10(k - 1)
  }

  /** The ten bytes the clients allocate hold a count and its NUL exactly below 10^9. */
  lemma ItoaFits(n: nat)
    ensures |Itoa(n)| + 1 <= 10 <==> n < 1_000_000_000
  {
    DigitCount(n, 9);
    assert Power10(9) == 1_000_000_000 by {
      assert Power10(3) == 1000;
      assert Power10(6) == 1000 * Power10(3);
      assert Power10(9) == 1000 * Power10(6);
    }
  }

  lemma {:induction false} DigitCount(n: nat, k: nat)
    requires k > 0
    ensures |Itoa(n)| <= k <==> n < Power10(k)
  {
    if n < 10 {
      PowerGrows(k);
    } else if k > 1 {
      DigitCount(n / 10, k - 1);
    } else {
      DigitCount(n / 10, 1);
      assert Power10(1) == 10;
    }
  }

  lemma {:induction false} PowerGrows(k: nat)
    requires k > 0
    ensures Power10(k) >= 10
  {
    if k > 1 {
      PowerGrows(k - 1);
    }
  }
}
