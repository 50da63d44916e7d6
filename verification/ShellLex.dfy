/** The tokens of a command line. */
module ShellLex {
  import opened ShellGrammar

  const NUL: char := '\0'

  predicate IsSpace(c: char) { c in " \t\r\n\U{B}" }

  predicate IsSymbol(c: char) { c in "<|>&;()" }

  predicate IsWordChar(c: char) { !IsSpace(c) && !IsSymbol(c) && c != NUL }

  // The character at `p`; the line is followed by a NUL.
  function At(line: seq<char>, p: nat): char { if p < |line| then line[p] else NUL }

  function Skip(line: seq<char>, p: nat): (r: nat)
    requires p <= |line|
    ensures p <= r <= |line| && (r < |line| ==> !IsSpace(line[r]))
    decreases |line| - p
  {
    if p < |line| && IsSpace(line[p]) then Skip(line, p + 1) else p
  }

  function WordEnd(line: seq<char>, p: nat): (r: nat)
    requires p <= |line|
    ensures p <= r <= |line| && (r < |line| ==> !IsWordChar(line[r]))
    ensures forall i | p <= i < r :: IsWordChar(line[i])
    decreases |line| - p
  {
    if p < |line| && IsWordChar(line[p]) then WordEnd(line, p + 1) else p
  }

  // The end of the token that starts at `p`.
  function TokenEnd(line: seq<char>, p: nat): (r: nat)
    requires p < |line| && line[p] != NUL && !IsSpace(line[p])
    ensures p < r <= |line|
  {
    if line[p] == '>' && At(line, p + 1) == '>' then p + 2
    else if IsSymbol(line[p]) then p + 1
    else WordEnd(line, p)
  }

  function TokenAt(line: seq<char>, p: nat): Token
    requires p < |line| && line[p] != NUL && !IsSpace(line[p])
  {
    if line[p] == '>' && At(line, p + 1) == '>' then Append
    else if IsSymbol(line[p]) then Sym(line[p])
    else Word(p, WordEnd(line, p))
  }

  /** The tokens from `p` on. */
  function Tokens(line: seq<char>, p: nat): seq<Token>
    requires p <= |line| && NUL !in line
    decreases |line| - p
  {
    var q := Skip(line, p);
    if q == |line| then [] else [TokenAt(line, q)] + Tokens(line, TokenEnd(line, q))
  }

  // What `gettoken` returns for a token.
  function Code(t: Token): char {
    match t
    case Sym(c) => c
    case Append => '+'
    case Word(_, _) => 'a'
  }

  /** lo..hi is a run of word characters that begins and ends where they do. */
  ghost predicate IsWord(line: seq<char>, t: Token) {
    t.Word? && t.lo < t.hi <= |line| && (forall i | t.lo <= i < t.hi :: IsWordChar(line[i]))
    && (t.lo == 0 || !IsWordChar(line[t.lo - 1])) && (t.hi == |line| || !IsWordChar(line[t.hi]))
  }

  lemma {:induction false} SkipIsBlank(line: seq<char>, p: nat)
    requires p <= |line|
    ensures forall i | p <= i < Skip(line, p) :: IsSpace(line[i])
    decreases |line| - p
  {
    if p < |line| && IsSpace(line[p]) {
      SkipIsBlank(line, p + 1);
    }
  }

  /** The first token, in characters: behind the spaces a symbol, `>>`, or the longest run of other
      characters; the other tokens are those of what is behind it. */
  lemma FirstToken(line: seq<char>, p: nat) returns (q: nat, eq: nat)
    requires p <= |line| && NUL !in line
    ensures p <= q <= eq <= |line| && (forall i | p <= i < q :: line[i] in " \t\r\n\U{B}")
    ensures q == |line| <==> Tokens(line, p) == []
    ensures IsToken(line, q, eq, if q == |line| then NUL else Code(Tokens(line, p)[0]))
    ensures q < |line| ==>
      && Tokens(line, p)[1..] == Tokens(line, eq)
      && (Tokens(line, p)[0].Word? ==> Tokens(line, p)[0] == Word(q, eq))
  {
    q := Skip(line, p);
    SkipIsBlank(line, p);
    if q == |line| {
      eq := q;
    } else {
      assert line[q] in line;
      eq := TokenEnd(line, q);
      Cons1(TokenAt(line, q), Tokens(line, eq));
    }
  }

  // lo..hi is what `gettoken` takes as `ret`, in characters.
  ghost predicate IsToken(line: seq<char>, lo: nat, hi: nat, ret: char) {
    lo <= hi <= |line| &&
    if lo == |line| then hi == lo && ret == NUL
    else if line[lo] == '>' && At(line, lo + 1) == '>' then hi == lo + 2 && ret == '+'
    else if line[lo] in "<|>&;()" then hi == lo + 1 && ret == line[lo]
    else
      && ret == 'a' && lo < hi && (forall i | lo <= i < hi :: line[i] !in " \t\r\n\U{B}<|>&;()")
      && (hi == |line| || line[hi] in " \t\r\n\U{B}<|>&;()")
  }

  // `p` is not inside a word.
  ghost predicate Between(line: seq<char>, p: nat)
    requires p <= |line|
  {
    p == 0 || p == |line| || !IsWordChar(line[p - 1]) || !IsWordChar(line[p])
  }

  lemma {:induction false} SkipBetween(line: seq<char>, p: nat)
    requires p <= |line| && Between(line, p)
    ensures Between(line, Skip(line, p))
    decreases |line| - p
  {
    if p < |line| && IsSpace(line[p]) {
      SkipBetween(line, p + 1);
    }
  }

  lemma {:induction false} WordsOfTokens(line: seq<char>, p: nat)
    requires p <= |line| && NUL !in line && Between(line, p)
    ensures forall t | t in Tokens(line, p) && t.Word? :: IsWord(line, t)
    ensures forall t | t in Tokens(line, p) && t.Sym? :: IsSymbol(t.c)
    decreases |line| - p
  {
    var q := Skip(line, p);
    SkipBetween(line, p);
    if q < |line| {
      WordsOfTokens(line, TokenEnd(line, q));
    }
  }

  // Skipping spaces loses no token.
  lemma SkipKeeps(line: seq<char>, p: nat)
    requires p <= |line| && NUL !in line
    ensures Skip(line, Skip(line, p)) == Skip(line, p) && Tokens(line, Skip(line, p)) == Tokens(line, p)
  {
  }

  // ----- the words of a command

  ghost predicate CmdWords(line: seq<char>, c: Cmd) {
    match c
    case Exec(argv) => forall t | t in argv :: IsWord(line, t)
    case Redir(d, file, _, _) => CmdWords(line, d) && IsWord(line, file)
    case Pipe(l, r) => CmdWords(line, l) && CmdWords(line, r)
    case List(l, r) => CmdWords(line, l) && CmdWords(line, r)
    case Back(d) => CmdWords(line, d)
  }

  ghost predicate AllWords(line: seq<char>, ts: seq<Token>) {
    forall t | t in ts && t.Word? :: IsWord(line, t)
  }

  lemma {:induction false} RedirectedWords(line: seq<char>, c: Cmd, items: seq<Item>)
    requires CmdWords(line, c) && AllWords(line, ItemsYield(items)) && forall i | i in items :: ItemOk(i)
    ensures CmdWords(line, Redirected(c, items))
    decreases items
  {
    if items != [] {
      assert ItemOk(items[0]);
      assert forall t | t in ItemsYield(items[1..]) :: t in ItemsYield(items);
      if items[0].To? {
        assert items[0].file in ItemsYield(items);
        RedirectedWords(line, Redir(c, items[0].file, ModeOf(items[0].op), FdOf(items[0].op)), items[1..]);
      } else {
        RedirectedWords(line, c, items[1..]);
      }
    }
  }

  lemma {:induction false} ArgsWords(line: seq<char>, items: seq<Item>)
    requires AllWords(line, ItemsYield(items)) && forall i | i in items :: ItemOk(i)
    ensures forall t | t in Args(items) :: IsWord(line, t)
  {
    if items != [] {
      assert ItemOk(items[0]);
      assert forall t | t in ItemsYield(items[1..]) :: t in ItemsYield(items);
      if items[0].Arg? { assert items[0].word in ItemsYield(items); }
      ArgsWords(line, items[1..]);
    }
  }

  lemma {:induction false} BacksWords(line: seq<char>, c: Cmd, n: nat)
    requires CmdWords(line, c)
    ensures CmdWords(line, Backs(c, n))
    decreases n
  {
    if n > 0 { BacksWords(line, Back(c), n - 1); }
  }

  lemma {:induction false} SimpleWords(line: seq<char>, e: Simple)
    requires SimpleOk(e) && AllWords(line, SimpleYield(e))
    ensures CmdWords(line, SimpleCmd(e))
  {
    match e
    case Simple(items) =>
      ArgsWords(line, items);
      RedirectedWords(line, Exec(Args(items)), items);
    case Block(l, rs) =>
      assert forall t | t in LineYield(l) || t in ItemsYield(rs) :: t in SimpleYield(e);
      LineWords(line, l);
      RedirectedWords(line, LineCmd(l), rs);
  }

  lemma {:induction false} PipelineWords(line: seq<char>, p: Pipeline)
    requires PipelineOk(p) && AllWords(line, PipelineYield(p))
    ensures CmdWords(line, PipelineCmd(p))
  {
    match p
    case One(e) => SimpleWords(line, e);
    case Bar(e, q) =>
      assert forall t | t in SimpleYield(e) || t in PipelineYield(q) :: t in PipelineYield(p);
      SimpleWords(line, e);
      PipelineWords(line, q);
  }

  /** Every word in the command of a tree is a word of its tokens. */
  lemma {:induction false} LineWords(line: seq<char>, l: Line)
    requires LineOk(l) && AllWords(line, LineYield(l))
    ensures CmdWords(line, LineCmd(l))
  {
    assert forall t | t in PipelineYield(l.pipe) || t in MoreYield(l.more) :: t in LineYield(l);
    PipelineWords(line, l.pipe);
    BacksWords(line, PipelineCmd(l.pipe), l.amps);
    if l.more.Semi? {
      assert forall t | t in LineYield(l.more.line) :: t in MoreYield(l.more);
      LineWords(line, l.more.line);
    }
  }

  // ----- what `nulterminate` writes

  function EndOf(t: Token): nat { if t.Word? then t.hi else 0 }

  // A word of `c` ends at `i`.
  ghost predicate EndsAt(c: Cmd, i: nat) {
    match c
    case Exec(argv) => exists t :: t in argv && EndOf(t) == i
    case Redir(d, file, _, _) => EndsAt(d, i) || EndOf(file) == i
    case Pipe(l, r) => EndsAt(l, i) || EndsAt(r, i)
    case List(l, r) => EndsAt(l, i) || EndsAt(r, i)
    case Back(d) => EndsAt(d, i)
  }

  // The C string at the start of `t` is the word that the line had there.
  ghost predicate CString(buf: seq<char>, line: seq<char>, t: Token) {
    t.Word? && t.lo <= t.hi < |buf| && t.hi <= |line| && buf[t.lo..t.hi] == line[t.lo..t.hi]
    && NUL !in buf[t.lo..t.hi] && buf[t.hi] == NUL
  }

  ghost predicate CStrings(buf: seq<char>, line: seq<char>, c: Cmd) {
    match c
    case Exec(argv) => forall t | t in argv :: CString(buf, line, t)
    case Redir(d, file, _, _) => CStrings(buf, line, d) && CString(buf, line, file)
    case Pipe(l, r) => CStrings(buf, line, l) && CStrings(buf, line, r)
    case List(l, r) => CStrings(buf, line, l) && CStrings(buf, line, r)
    case Back(d) => CStrings(buf, line, d)
  }

  // No word ends inside a word.
  lemma {:induction false} EndsOutside(line: seq<char>, c: Cmd, i: nat)
    requires CmdWords(line, c) && EndsAt(c, i)
    ensures i == |line| || (i < |line| && !IsWordChar(line[i]))
  {
    match c
    case Exec(argv) =>
    case Redir(d, file, _, _) => if EndsAt(d, i) { EndsOutside(line, d, i); }
    case Pipe(l, r) => EndsOutside(line, if EndsAt(l, i) then l else r, i);
    case List(l, r) => EndsOutside(line, if EndsAt(l, i) then l else r, i);
    case Back(d) => EndsOutside(line, d, i);
  }

  // `after` is the buffer with a NUL at the end of every word of `all`.
  ghost predicate Cut(line: seq<char>, all: Cmd, after: seq<char>) {
    && |line| < |after| && CmdWords(line, all) && NUL !in line
    && forall i: nat | i <= |line| :: after[i] == if EndsAt(all, i) || i == |line| then NUL else line[i]
  }

  lemma WordSurvives(line: seq<char>, all: Cmd, after: seq<char>, t: Token)
    requires Cut(line, all, after) && IsWord(line, t) && EndsAt(all, t.hi)
    ensures CString(after, line, t)
  {
    forall i | t.lo <= i < t.hi ensures after[i] == line[i] != NUL {
      if EndsAt(all, i) { EndsOutside(line, all, i); }
      assert line[i] in line;
    }
  }

  /** After termination every word of the command is, as a C string, what the line had there. */
  lemma {:induction false} WordsSurvive(line: seq<char>, all: Cmd, after: seq<char>, c: Cmd)
    requires Cut(line, all, after) && CmdWords(line, c) && forall i: nat | EndsAt(c, i) :: EndsAt(all, i)
    ensures CStrings(after, line, c)
  {
    match c
    case Exec(argv) =>
      forall t | t in argv ensures CString(after, line, t) {
        assert EndOf(t) == t.hi && EndsAt(c, t.hi);
        WordSurvives(line, all, after, t);
      }
    case Redir(d, file, _, _) =>
      assert EndsAt(c, file.hi);
      WordSurvives(line, all, after, file);
      forall i: nat | EndsAt(d, i) ensures EndsAt(all, i) { assert EndsAt(c, i); }
      WordsSurvive(line, all, after, d);
    case Pipe(l, r) =>
      forall i: nat | EndsAt(l, i) || EndsAt(r, i) ensures EndsAt(all, i) { assert EndsAt(c, i); }
      WordsSurvive(line, all, after, l);
      WordsSurvive(line, all, after, r);
    case List(l, r) =>
      forall i: nat | EndsAt(l, i) || EndsAt(r, i) ensures EndsAt(all, i) { assert EndsAt(c, i); }
      WordsSurvive(line, all, after, l);
      WordsSurvive(line, all, after, r);
    case Back(d) =>
      forall i: nat | EndsAt(d, i) ensures EndsAt(all, i) { assert EndsAt(c, i); }
      WordsSurvive(line, all, after, d);
  }

  /** So the line "a & b", which other shells take, is refused: it has no tree. */
  lemma BackgroundLine(line: seq<char>)
    requires line == "a & b"
    ensures NUL !in line && Tokens(line, 0) == [Word(0, 1), Sym('&'), Word(4, 5)]
    ensures forall l | LineOk(l) :: LineYield(l) != Tokens(line, 0)
  {
    assert IsWordChar('a') && IsWordChar('b') && IsSpace(' ') && IsSymbol('&');
    assert WordEnd(line, 0) == 1 && WordEnd(line, 4) == 5;
    assert Skip(line, 4) == 4 && Skip(line, 3) == 4 && Skip(line, 2) == 2 && Skip(line, 1) == 2;
    assert Tokens(line, 5) == [];
    assert Tokens(line, 3) == [TokenAt(line, 4)] + Tokens(line, 5) == [Word(4, 5)];
    assert Tokens(line, 1) == [TokenAt(line, 2)] + Tokens(line, 3);
    NoneAfterBackground(Word(0, 1), Word(4, 5));
  }
}
