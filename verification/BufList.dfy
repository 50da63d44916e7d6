/** The circular doubly linked list of buffers: nodes 0..n-1 and a head. */
module BufList {
  import opened Common

  // The nodes met from the head on, the head first.
  ghost function Ring(order: seq<nat>, head: nat): seq<nat> { [head] + order }

  // Consecutive nodes of the ring point at each other.
  ghost predicate LinkAt(nx: seq<nat>, pv: seq<nat>, ring: seq<nat>, i: nat)
    requires i < |ring|
  {
    var a, b := ring[i], ring[Succ(i, |ring|)];
    a < |nx| == |pv| && b < |pv| && nx[a] == b && pv[b] == a
  }

  ghost predicate Links(nx: seq<nat>, pv: seq<nat>, order: seq<nat>, head: nat) {
    var ring := Ring(order, head);
    && Distinct(ring)
    && forall i: nat | i < |ring| :: LinkAt(nx, pv, ring, i)
  }

  /** Taking node `order[k]` out: its neighbours are joined. */
  lemma UnlinkKeepsLinks(nx: seq<nat>, pv: seq<nat>, order: seq<nat>, head: nat, k: nat)
    requires Links(nx, pv, order, head) && k < |order|
    ensures order[k] < |nx| == |pv| && nx[order[k]] < |pv| && pv[order[k]] < |nx|
    ensures var b := order[k];
            Links(nx[pv[b] := nx[b]], pv[nx[b] := pv[b]], Without(order, k), head)
  {
    var ring, ring' := Ring(order, head), Ring(Without(order, k), head);
    var b := order[k];
    assert ring[k + 1] == b;
    assert LinkAt(nx, pv, ring, k) && LinkAt(nx, pv, ring, k + 1);
    var nx', pv' := nx[pv[b] := nx[b]], pv[nx[b] := pv[b]];
    forall i, j | 0 <= i < j < |ring'| ensures Differ(ring', i, j) {
      assert Differ(ring, if i <= k then i else i + 1, if j <= k then j else j + 1);
    }
    forall i: nat | i < |ring'| ensures LinkAt(nx', pv', ring', i) {
      var m := if i <= k then i else i + 1;
      assert ring'[i] == ring[m];
      assert LinkAt(nx, pv, ring, m);
      if i != k {
        assert ring'[Succ(i, |ring'|)] == ring[Succ(m, |ring|)];
        NodesDiffer(ring, m, k);
        NodesDiffer(ring, Succ(m, |ring|), Succ(k + 1, |ring|));
      }
    }
  }

  lemma NodesDiffer(s: seq<nat>, i: nat, j: nat)
    requires Distinct(s) && i < |s| && j < |s|
    ensures s[i] == s[j] <==> i == j
  {
    if i < j {
      assert Differ(s, i, j);
    } else if j < i {
      assert Differ(s, j, i);
    }
  }

  /** Putting node `b` right after the head. */
  lemma PushKeepsLinks(nx: seq<nat>, pv: seq<nat>, order: seq<nat>, head: nat, b: nat)
    requires Links(nx, pv, order, head) && b < |nx| == |pv| && head < |nx|
    requires b != head && b !in order
    ensures nx[head] < |nx|
    ensures var first := nx[head];
            Links(nx[b := first][head := b], pv[b := head][first := b], [b] + order, head)
  {
    var ring, ring' := Ring(order, head), Ring([b] + order, head);
    assert LinkAt(nx, pv, ring, 0);
    var first := nx[head];
    var nx', pv' := nx[b := first][head := b], pv[b := head][first := b];
    forall i, j | 0 <= i < j < |ring'| ensures Differ(ring', i, j) {
      if i == 0 && j >= 2 {
        assert Differ(ring, 0, j - 1);
      } else if i >= 2 {
        assert Differ(ring, i - 1, j - 1);
      }
    }
    forall i: nat | i < |ring'| ensures LinkAt(nx', pv', ring', i) {
      if i >= 2 {
        assert LinkAt(nx, pv, ring, i - 1);
        NodesDiffer(ring, i - 1, 0);
        NodesDiffer(ring, Succ(i - 1, |ring|), Succ(0, |ring|));
      }
    }
  }

  lemma EmptyLinks(nx: seq<nat>, pv: seq<nat>, head: nat)
    requires head < |nx| == |pv| && nx[head] == head && pv[head] == head
    ensures Links(nx, pv, [], head)
  {
  }

  /** Following `next` from the head meets the nodes in order, and `prev` meets them backwards. */
  lemma Follow(nx: seq<nat>, pv: seq<nat>, order: seq<nat>, head: nat, i: nat)
    requires Links(nx, pv, order, head) && i <= |order|
    ensures var here := if i == 0 then head else order[i - 1];
            && here < |nx| == |pv|
            && nx[here] == (if i < |order| then order[i] else head)
            && pv[here] == (if i == 0 then (if order == [] then head else order[|order| - 1])
                            else if i == 1 then head else order[i - 2])
  {
    var ring := Ring(order, head);
    assert LinkAt(nx, pv, ring, i);
    if i > 0 {
      assert LinkAt(nx, pv, ring, i - 1);
    } else {
      assert LinkAt(nx, pv, ring, |order|);
    }
  }
}
