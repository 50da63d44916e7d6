/** What several modules share: optional values, bytes, and sequences without duplicates. */
module Common {

  datatype Option<T> = None | Some(value: T)

  newtype byte = x: int | 0 <= x < 256

  // A character of one byte.
  type Char = c: char | c as int < 256

  // The next of `n` places around a ring.
  function Succ(i: nat, n: nat): nat { if i + 1 < n then i + 1 else 0 }

  lemma DividedTwice(x: nat, a: nat, b: nat)
    requires a > 0 && b > 0
    ensures a * b > 0 && x / a / b == x / (a * b)
  {
    var y := x / a;
    Nested(x, a, b, y, x % a, y / b, y % b);
  }

  lemma Nested(x: nat, a: nat, b: nat, y: nat, s: nat, q: nat, r: nat)
    requires x == a * y + s && s < a && y == b * q + r && r < b
    ensures a * b > 0 && x / (a * b) == q
  {
    MulOrder(a, 0, b);
    MulOrder(a, r, b);
    Distributed(a, b, q, r);
    Quotient(x, a * b, q, a * r + s);
  }

  lemma Distributed(a: nat, b: nat, q: nat, r: nat)
    ensures a * (b * q + r) == a * b * q + a * r
  {
  }

  lemma Quotient(x: nat, p: nat, q: nat, r: nat)
    requires x == p * q + r && r < p
    ensures x / p == q
  {
    MulOrder(p, x / p, q);
    MulOrder(p, q, x / p);
  }

  lemma MulOrder(p: nat, a: nat, b: nat)
    ensures a < b ==> p * a + p <= p * b
  {
    if a < b {
      assert p * b == p * (a + 1) + p * (b - a - 1);
    }
  }

  ghost predicate Distinct(s: seq<nat>) {
    forall i, j | 0 <= i < j < |s| :: Differ(s, i, j)
  }

  ghost predicate Differ(s: seq<nat>, i: nat, j: nat)
    requires i < |s| && j < |s|
  {
    s[i] != s[j]
  }

  ghost function Without(s: seq<nat>, k: nat): seq<nat>
    requires k < |s|
  {
    s[..k] + s[k + 1..]
  }
}
