/** The regular expression matcher of `grep`: `match`, `matchhere` and `matchstar`, against a
    reading of the pattern as a sequence of atoms.  A C string is its characters up to the NUL. */
module Grep {

  // ----- what a pattern means

  // `.` stands for any character, in a single atom and under a star alike.
  datatype Atom = Single(c: char) | Star(c: char) | End

  predicate Hits(c: char, x: char) { c == '.' || c == x }

  function Atoms(re: string): seq<Atom> {
    if re == "" then []
    else if |re| > 1 && re[1] == '*' then [Star(re[0])] + Atoms(re[2..])
    else if re == "$" then [End]
    else [Single(re[0])] + Atoms(re[1..])
  }

  ghost predicate AtomReads(a: Atom, text: string, lo: nat, hi: nat)
    requires lo <= hi <= |text|
  {
    match a
    case Single(c) => hi == lo + 1 && Hits(c, text[lo])
    case Star(c) => forall k | lo <= k < hi :: Hits(c, text[k])
    case End => lo == hi == |text|
  }

  // Atom `i` reads the stretch of the text from cuts[i] to cuts[i + 1].
  ghost predicate PieceAt(atoms: seq<Atom>, text: string, cuts: seq<nat>, i: nat)
    requires i < |atoms| && |cuts| == |atoms| + 1
  {
    cuts[i] <= cuts[i + 1] <= |text| && AtomReads(atoms[i], text, cuts[i], cuts[i + 1])
  }

  ghost predicate Reads(atoms: seq<Atom>, text: string, cuts: seq<nat>) {
    && |cuts| == |atoms| + 1 && cuts[0] == 0
    && forall i | 0 <= i < |atoms| :: PieceAt(atoms, text, cuts, i)
  }

  ghost predicate ReadsPrefix(atoms: seq<Atom>, text: string) {
    exists cuts :: Reads(atoms, text, cuts)
  }

  // `^` ties the match to the start of the text; without it any position will do.
  ghost predicate Matches(re: string, text: string) {
    if re != "" && re[0] == '^' then ReadsPrefix(Atoms(re[1..]), text)
    else exists s :: 0 <= s <= |text| && ReadsPrefix(Atoms(re), text[s..])
  }

  // ----- taking the first atom off

  ghost predicate AllHit(c: char, text: string, k: nat) {
    k <= |text| && forall j | 0 <= j < k :: Hits(c, text[j])
  }

  lemma NoAtoms(text: string)
    ensures ReadsPrefix([], text)
  {
    assert Reads([], text, [0]);
  }

  // What is left of a reading after its first piece, of length `k`.
  lemma DropFirst(a: Atom, rest: seq<Atom>, text: string, cuts: seq<nat>)
    requires Reads([a] + rest, text, cuts)
    ensures cuts[1] <= |text| && AtomReads(a, text, 0, cuts[1]) && ReadsPrefix(rest, text[cuts[1]..])
  {
    var k, atoms := cuts[1], [a] + rest;
    assert PieceAt(atoms, text, cuts, 0);
    forall j | 1 <= j < |cuts| ensures k <= cuts[j] {
      CutsGrow(atoms, text, cuts, j - 1);
    }
    var cuts' := seq(|rest| + 1, i requires 0 <= i < |rest| + 1 => cuts[i + 1] - k);
    forall i | 0 <= i < |rest| ensures PieceAt(rest, text[k..], cuts', i) {
      assert PieceAt(atoms, text, cuts, i + 1);
      ShiftAtom(rest[i], text, k, cuts'[i], cuts'[i + 1]);
    }
    assert Reads(rest, text[k..], cuts');
  }

  lemma {:induction false} CutsGrow(atoms: seq<Atom>, text: string, cuts: seq<nat>, j: nat)
    requires Reads(atoms, text, cuts) && j < |atoms|
    ensures cuts[1] <= cuts[j + 1]
  {
    if j > 0 {
      CutsGrow(atoms, text, cuts, j - 1);
      assert PieceAt(atoms, text, cuts, j);
    }
  }

  lemma ShiftAtom(a: Atom, text: string, k: nat, lo: nat, hi: nat)
    requires lo <= hi && k + hi <= |text|
    ensures AtomReads(a, text[k..], lo, hi) <==> AtomReads(a, text, k + lo, k + hi)
  {
    if a.Star? && AtomReads(a, text[k..], lo, hi) {
      forall j | k + lo <= j < k + hi ensures Hits(a.c, text[j]) {
        assert text[k..][j - k] == text[j];
      }
    }
  }

  lemma AddFirst(a: Atom, rest: seq<Atom>, text: string, k: nat)
    requires k <= |text| && AtomReads(a, text, 0, k) && ReadsPrefix(rest, text[k..])
    ensures ReadsPrefix([a] + rest, text)
  {
    var cuts' :| Reads(rest, text[k..], cuts');
    var cuts := [0] + seq(|cuts'|, i requires 0 <= i < |cuts'| => cuts'[i] + k);
    var atoms := [a] + rest;
    forall i | 0 <= i < |atoms| ensures PieceAt(atoms, text, cuts, i) {
      if i > 0 {
        assert PieceAt(rest, text[k..], cuts', i - 1);
        ShiftAtom(rest[i - 1], text, k, cuts'[i - 1], cuts'[i]);
      }
    }
    assert Reads(atoms, text, cuts);
  }

  lemma SingleFirst(c: char, rest: seq<Atom>, text: string)
    ensures ReadsPrefix([Single(c)] + rest, text)
       <==> text != "" && Hits(c, text[0]) && ReadsPrefix(rest, text[1..])
  {
    if ReadsPrefix([Single(c)] + rest, text) {
      var cuts :| Reads([Single(c)] + rest, text, cuts);
      DropFirst(Single(c), rest, text, cuts);
    }
    if text != "" && Hits(c, text[0]) && ReadsPrefix(rest, text[1..]) {
      AddFirst(Single(c), rest, text, 1);
    }
  }

  lemma StarFirst(c: char, rest: seq<Atom>, text: string)
    ensures ReadsPrefix([Star(c)] + rest, text)
       <==> exists k: nat :: AllHit(c, text, k) && ReadsPrefix(rest, text[k..])
  {
    if ReadsPrefix([Star(c)] + rest, text) {
      var cuts :| Reads([Star(c)] + rest, text, cuts);
      DropFirst(Star(c), rest, text, cuts);
      assert AllHit(c, text, cuts[1]);
    }
    if k: nat :| AllHit(c, text, k) && ReadsPrefix(rest, text[k..]) {
      AddFirst(Star(c), rest, text, k);
    }
  }

  lemma EndOnly(text: string)
    ensures ReadsPrefix([End], text) <==> text == ""
  {
    if ReadsPrefix([End], text) {
      var cuts :| Reads([End], text, cuts);
      assert [End] == [End] + [];
      DropFirst(End, [], text, cuts);
    }
    if text == "" {
      NoAtoms("");
      AddFirst(End, [], text, 0);
      assert [End] + [] == [End];
    }
  }

  /** What a pattern reads, by its first characters: nothing is read by the empty pattern, any run of
      what `c` stands for by `c*`, the end of the text alone by a last `$`, and else one character,
      any for `.` and itself for another. */
  lemma PatternReads(re: string, text: string)
    ensures ReadsPrefix(Atoms(re), text) <==>
      if re == "" then true
      else if |re| > 1 && re[1] == '*' then
        exists k: nat :: k <= |text| && (forall j | 0 <= j < k :: re[0] == '.' || text[j] == re[0])
                         && ReadsPrefix(Atoms(re[2..]), text[k..])
      else if re == "$" then text == ""
      else text != "" && (re[0] == '.' || text[0] == re[0]) && ReadsPrefix(Atoms(re[1..]), text[1..])
  {
    if re == "" {
      NoAtoms(text);
    } else if |re| > 1 && re[1] == '*' {
      StarFirst(re[0], Atoms(re[2..]), text);
      if k: nat :| k <= |text| && (forall j | 0 <= j < k :: re[0] == '.' || text[j] == re[0])
                   && ReadsPrefix(Atoms(re[2..]), text[k..]) {
        assert AllHit(re[0], text, k);
      }
    } else if re == "$" {
      EndOnly(text);
    } else {
      SingleFirst(re[0], Atoms(re[1..]), text);
    }
  }

  // ----- the matcher

  /** `match`: true exactly when the text matches. */
  method Match(re: string, text: string) returns (r: bool)
    ensures r <==> Matches(re, text)
    ensures r <==> if re != "" && re[0] == '^' then ReadsPrefix(Atoms(re[1..]), text)
                   else exists s :: 0 <= s <= |text| && ReadsPrefix(Atoms(re), text[s..])
  {
    if re != "" && re[0] == '^' {
      r := MatchHere(re[1..], text);
      return;
    }
    var t := 0;
    while true
      invariant 0 <= t <= |text|
      invariant forall s | 0 <= s < t :: !ReadsPrefix(Atoms(re), text[s..])
      decreases |text| - t
    {
      r := MatchHere(re, text[t..]);
      if r || t == |text| {
        return;
      }
      t := t + 1;
    }
  }

  /** `matchhere`: the whole pattern reads a prefix of the text. */
  method MatchHere(re: string, text: string) returns (r: bool)
    ensures r <==> ReadsPrefix(Atoms(re), text)
    decreases |re|, 0, |text|
  {
    if re == "" {
      NoAtoms(text);
      return true;
    }
    if |re| > 1 && re[1] == '*' {
      StarFirst(re[0], Atoms(re[2..]), text);
      r := MatchStar(re[0], re[2..], text);
      return;
    }
    if re[0] == '$' && |re| == 1 {
      EndOnly(text);
      return text == "";
    }
    SingleFirst(re[0], Atoms(re[1..]), text);
    if text != "" && (re[0] == '.' || re[0] == text[0]) {
      r := MatchHere(re[1..], text[1..]);
      return;
    }
    return false;
  }

  /** `matchstar`: some stretch of characters that `c` stands for, then the rest of the pattern. */
  method MatchStar(c: char, re: string, text: string) returns (r: bool)
    ensures r <==> exists k: nat :: AllHit(c, text, k) && ReadsPrefix(Atoms(re), text[k..])
    decreases |re|, 1, |text|
  {
    var t := 0;
    while true
      invariant AllHit(c, text, t)
      invariant forall k: nat | k < t :: !ReadsPrefix(Atoms(re), text[k..])
      decreases |text| - t
    {
      r := MatchHere(re, text[t..]);
      if r || t == |text| {
        return;
      }
      var x := text[t];
      t := t + 1;
      if !(x == c || c == '.') {
        return;
      }
    }
  }
}
