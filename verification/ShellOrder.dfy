/** Where the words and the operators of a command lie in its line. */
module ShellOrder {
  import opened ShellGrammar
  import opened ShellLex

  ghost predicate HasWord(c: Cmd, t: Token) {
    match c
    case Exec(argv) => t in argv
    case Redir(d, file, _, _) => HasWord(d, t) || t == file
    case Pipe(l, r) => HasWord(l, t) || HasWord(r, t)
    case List(l, r) => HasWord(l, t) || HasWord(r, t)
    case Back(d) => HasWord(d, t)
  }

  // The words of `c` lie in lo..hi.
  ghost predicate WordsIn(c: Cmd, lo: nat, hi: nat) {
    forall t | HasWord(c, t) :: t.Word? && lo <= t.lo <= t.hi <= hi
  }

  // The last character before `t` that is not a space is `op`.
  ghost predicate OpBefore(line: seq<char>, op: char, t: Token) {
    t.Word? && t.lo <= |line| &&
    exists k: nat :: k < t.lo && line[k] == op && forall i | k < i < t.lo :: IsSpace(line[i])
  }

  // There is a `sep` in the line with the words of `l` before it and those of `r` behind it.
  ghost predicate Parted(line: seq<char>, l: Cmd, sep: char, r: Cmd) {
    exists k: nat :: k < |line| && line[k] == sep && WordsIn(l, 0, k) && WordsIn(r, k, |line|)
  }

  /** The command reads as the line does: arguments in the order of the line, what a pipe or a list
      has on its left before its bar or semicolon and what it has on its right behind it, a
      background command before its ampersand, and a redirection of 0 for reading just where a
      `<` stands before the file, of 1 for writing just where a `>` does, later ones outside. */
  ghost predicate InOrder(line: seq<char>, c: Cmd) {
    match c
    case Exec(argv) =>
      forall i, j | 0 <= i < j < |argv| :: argv[i].Word? && argv[j].Word? && argv[i].hi <= argv[j].lo
    case Redir(d, file, mode, fd) =>
      && InOrder(line, d) && (d.Redir? ==> d.file.Word? && file.Word? && d.file.hi <= file.lo)
      && (fd == 0 || fd == 1)
      && (fd == 0 <==> OpBefore(line, '<', file)) && (fd == 1 <==> OpBefore(line, '>', file))
      && mode == if fd == 0 then 0 else 0x201
    case Pipe(l, r) => InOrder(line, l) && InOrder(line, r) && Parted(line, l, '|', r)
    case List(l, r) => InOrder(line, l) && InOrder(line, r) && Parted(line, l, ';', r)
    case Back(d) => InOrder(line, d) && exists k: nat :: k < |line| && line[k] == '&' && WordsIn(d, 0, k)
  }

  // ----- tokens and the stretch of the line they take

  // `ts` are the first tokens from `p` on, and the last of them ends at `q`.
  ghost predicate Lexed(line: seq<char>, p: nat, ts: seq<Token>, q: nat)
    decreases ts
  {
    p <= |line| && NUL !in line &&
    if ts == [] then q == p
    else
      var s := Skip(line, p);
      s < |line| && ts[0] == TokenAt(line, s) && Lexed(line, TokenEnd(line, s), ts[1..], q)
  }

  lemma {:induction false} TokensLexed(line: seq<char>, p: nat) returns (q: nat)
    requires p <= |line| && NUL !in line
    ensures Lexed(line, p, Tokens(line, p), q)
    decreases |line| - p
  {
    var s := Skip(line, p);
    if s == |line| {
      q := p;
    } else {
      q := TokensLexed(line, TokenEnd(line, s));
      Cons1(TokenAt(line, s), Tokens(line, TokenEnd(line, s)));
    }
  }

  lemma {:induction false} LexedSplit(line: seq<char>, p: nat, a: seq<Token>, b: seq<Token>, q: nat)
    returns (m: nat)
    requires Lexed(line, p, a + b, q)
    ensures Lexed(line, p, a, m) && Lexed(line, m, b, q)
    decreases a
  {
    if a == [] {
      assert a + b == b;
      m := p;
    } else {
      assert (a + b)[0] == a[0] && (a + b)[1..] == a[1..] + b;
      m := LexedSplit(line, TokenEnd(line, Skip(line, p)), a[1..], b, q);
    }
  }

  lemma {:induction false} LexedRange(line: seq<char>, p: nat, ts: seq<Token>, q: nat)
    requires Lexed(line, p, ts, q)
    ensures p <= q <= |line|
    decreases ts
  {
    if ts != [] {
      LexedRange(line, TokenEnd(line, Skip(line, p)), ts[1..], q);
    }
  }

  // One symbol, or one word.
  lemma LexedOne(line: seq<char>, p: nat, t: Token, q: nat) returns (k: nat)
    requires Lexed(line, p, [t], q)
    ensures p <= k < q <= |line|
    ensures t.Sym? ==> line[k] == t.c && q == k + 1
    ensures t.Append? ==> line[k] == '>' && q == k + 1
    ensures t.Word? ==> p <= t.lo <= t.hi == q
    ensures t.Word? ==> forall i | p <= i < t.lo :: IsSpace(line[i])
  {
    var s := Skip(line, p);
    SkipIsBlank(line, p);
    assert [t][1..] == [];
    k := q - 1;
  }

  // An operator and its file.
  lemma LexedRedir(line: seq<char>, p: nat, op: Token, f: Token, q: nat)
    requires Lexed(line, p, [op, f], q) && IsOp(op) && f.Word?
    ensures p <= f.lo <= f.hi == q <= |line|
    ensures OpBefore(line, '<', f) <==> op == Sym('<')
    ensures OpBefore(line, '>', f) <==> op != Sym('<')
  {
    assert [op, f] == [op] + [f];
    var m := LexedSplit(line, p, [op], [f], q);
    var k := LexedOne(line, p, op, m);
    var _ := LexedOne(line, m, f, q);
    assert line[k] == if op == Sym('<') then '<' else '>';
    assert forall i | k < i < f.lo :: IsSpace(line[i]);
    forall j: nat | j < f.lo && (line[j] == '<' || line[j] == '>') && forall i | j < i < f.lo :: IsSpace(line[i])
      ensures j == k
    {
    }
  }

  // ----- the command of a tree

  // In order, with its words in lo..hi.
  ghost predicate Lies(line: seq<char>, c: Cmd, lo: nat, hi: nat) {
    InOrder(line, c) && WordsIn(c, lo, hi)
  }

  lemma {:induction false} ArgsLie(line: seq<char>, items: seq<Item>, p: nat, q: nat)
    requires Lexed(line, p, ItemsYield(items), q) && forall i | i in items :: ItemOk(i)
    ensures Lies(line, Exec(Args(items)), p, q)
    decreases items
  {
    if items != [] {
      var i := items[0];
      assert ItemOk(i);
      var head := match i case Arg(w) => [w] case To(op, f) => [op, f];
      var m := LexedSplit(line, p, head, ItemsYield(items[1..]), q);
      LexedRange(line, p, head, m);
      LexedRange(line, m, ItemsYield(items[1..]), q);
      ArgsLie(line, items[1..], m, q);
      if i.Arg? {
        var _ := LexedOne(line, p, i.word, m);
        ArgBefore(line, i.word, Args(items[1..]), p, m, q);
      } else {
        assert Args(items) == Args(items[1..]);
      }
    }
  }

  lemma ArgBefore(line: seq<char>, w: Token, args: seq<Token>, p: nat, m: nat, q: nat)
    requires Lies(line, Exec(args), m, q) && w.Word? && p <= w.lo <= w.hi == m <= q
    ensures Lies(line, Exec([w] + args), p, q)
  {
    var argv := [w] + args;
    forall i, j | 0 <= i < j < |argv| ensures argv[i].Word? && argv[j].Word? && argv[i].hi <= argv[j].lo {
      assert argv[j] == args[j - 1] && HasWord(Exec(args), args[j - 1]);
      if i > 0 {
        assert argv[i] == args[i - 1] && HasWord(Exec(args), args[i - 1]);
      }
    }
    forall t | t in argv ensures t.Word? && p <= t.lo <= t.hi <= q {
      assert t == w || HasWord(Exec(args), t);
    }
  }

  lemma RedirLies(line: seq<char>, c: Cmd, op: Token, f: Token, lo: nat, p: nat, m: nat, q: nat)
    requires Lies(line, c, lo, q) && lo <= p && m <= q && (c.Redir? ==> c.file.Word? && c.file.hi <= p)
    requires Lexed(line, p, [op, f], m) && IsOp(op) && f.Word?
    ensures Lies(line, Redir(c, f, ModeOf(op), FdOf(op)), lo, q) && f.hi <= m
  {
    LexedRedir(line, p, op, f, m);
    var r := Redir(c, f, ModeOf(op), FdOf(op));
    forall t | HasWord(r, t) ensures t.Word? && lo <= t.lo <= t.hi <= q {
      assert t == f || HasWord(c, t);
    }
  }

  lemma {:induction false} RedirectedLies(line: seq<char>, c: Cmd, items: seq<Item>, lo: nat, p: nat, q: nat)
    requires Lexed(line, p, ItemsYield(items), q) && forall i | i in items :: ItemOk(i)
    requires Lies(line, c, lo, q) && lo <= p && (c.Redir? ==> c.file.Word? && c.file.hi <= p)
    ensures Lies(line, Redirected(c, items), lo, q)
    decreases items
  {
    if items != [] {
      var i := items[0];
      assert ItemOk(i);
      var head := match i case Arg(w) => [w] case To(op, f) => [op, f];
      var m := LexedSplit(line, p, head, ItemsYield(items[1..]), q);
      LexedRange(line, p, head, m);
      LexedRange(line, m, ItemsYield(items[1..]), q);
      if i.To? {
        RedirLies(line, c, i.op, i.file, lo, p, m, q);
        RedirectedLies(line, Redir(c, i.file, ModeOf(i.op), FdOf(i.op)), items[1..], lo, m, q);
      } else {
        RedirectedLies(line, c, items[1..], lo, m, q);
      }
    }
  }

  lemma {:induction false} BacksLie(line: seq<char>, c: Cmd, n: nat, lo: nat, k: nat)
    requires Lies(line, c, lo, k) && (n > 0 ==> k < |line| && line[k] == '&')
    ensures Lies(line, Backs(c, n), lo, k)
    decreases n
  {
    if n > 0 {
      assert forall t | HasWord(c, t) :: t.Word? && 0 <= t.lo <= t.hi <= k;
      forall t | HasWord(Back(c), t) ensures t.Word? && lo <= t.lo <= t.hi <= k { assert HasWord(c, t); }
      BacksLie(line, Back(c), n - 1, lo, k);
    }
  }

  lemma Wider(line: seq<char>, c: Cmd, lo: nat, hi: nat, lo': nat, hi': nat)
    requires Lies(line, c, lo, hi) && lo' <= lo && hi <= hi'
    ensures Lies(line, c, lo', hi')
  {
    forall t | HasWord(c, t) ensures t.Word? && lo' <= t.lo <= t.hi <= hi' {}
  }

  // Two commands with `sep` between them.
  lemma PartedLie(line: seq<char>, l: Cmd, sep: char, r: Cmd, p: nat, k: nat, q: nat)
    requires Lies(line, l, p, k) && Lies(line, r, k + 1, q) && p <= k < q <= |line| && line[k] == sep
    ensures Parted(line, l, sep, r)
    ensures forall t | HasWord(l, t) || HasWord(r, t) :: t.Word? && p <= t.lo <= t.hi <= q
  {
    Wider(line, l, p, k, 0, k);
    Wider(line, r, k + 1, q, k, |line|);
  }

  lemma {:induction false} SimpleLies(line: seq<char>, e: Simple, p: nat, q: nat)
    requires SimpleOk(e) && Lexed(line, p, SimpleYield(e), q)
    ensures Lies(line, SimpleCmd(e), p, q)
    decreases e
  {
    match e
    case Simple(items) =>
      ArgsLie(line, items, p, q);
      RedirectedLies(line, Exec(Args(items)), items, p, p, q);
    case Block(l, rs) =>
      var a := LexedSplit(line, p, [Sym('(')], LineYield(l) + ([Sym(')')] + ItemsYield(rs)), q);
      var b := LexedSplit(line, a, LineYield(l), [Sym(')')] + ItemsYield(rs), q);
      var c := LexedSplit(line, b, [Sym(')')], ItemsYield(rs), q);
      LexedRange(line, p, [Sym('(')], a);
      LexedRange(line, a, LineYield(l), b);
      LexedRange(line, b, [Sym(')')], c);
      LexedRange(line, c, ItemsYield(rs), q);
      LineLies(line, l, a, b);
      assert LineCmd(l).Redir? ==> HasWord(LineCmd(l), LineCmd(l).file);
      Wider(line, LineCmd(l), a, b, p, q);
      RedirectedLies(line, LineCmd(l), rs, p, c, q);
  }

  lemma {:induction false} PipelineLies(line: seq<char>, pl: Pipeline, p: nat, q: nat)
    requires PipelineOk(pl) && Lexed(line, p, PipelineYield(pl), q)
    ensures Lies(line, PipelineCmd(pl), p, q)
    decreases pl
  {
    match pl
    case One(e) => SimpleLies(line, e, p, q);
    case Bar(e, rest) =>
      var a := LexedSplit(line, p, SimpleYield(e), [Sym('|')] + PipelineYield(rest), q);
      var b := LexedSplit(line, a, [Sym('|')], PipelineYield(rest), q);
      var k := LexedOne(line, a, Sym('|'), b);
      LexedRange(line, p, SimpleYield(e), a);
      LexedRange(line, b, PipelineYield(rest), q);
      SimpleLies(line, e, p, a);
      PipelineLies(line, rest, b, q);
      Wider(line, SimpleCmd(e), p, a, p, k);
      PartedLie(line, SimpleCmd(e), '|', PipelineCmd(rest), p, k, q);
  }

  /** The command of a tree reads as the tokens of the tree do. */
  lemma {:induction false} LineLies(line: seq<char>, l: Line, p: nat, q: nat)
    requires LineOk(l) && Lexed(line, p, LineYield(l), q)
    ensures Lies(line, LineCmd(l), p, q)
    decreases l
  {
    var a := LexedSplit(line, p, PipelineYield(l.pipe), Amps(l.amps) + MoreYield(l.more), q);
    var b := LexedSplit(line, a, Amps(l.amps), MoreYield(l.more), q);
    LexedRange(line, p, PipelineYield(l.pipe), a);
    LexedRange(line, a, Amps(l.amps), b);
    LexedRange(line, b, MoreYield(l.more), q);
    PipelineLies(line, l.pipe, p, a);
    var c := Backs(PipelineCmd(l.pipe), l.amps);
    AmpsLie(line, PipelineCmd(l.pipe), l.amps, p, a, b);
    if l.more.Semi? {
      var m := LexedSplit(line, b, [Sym(';')], LineYield(l.more.line), q);
      var k := LexedOne(line, b, Sym(';'), m);
      LexedRange(line, m, LineYield(l.more.line), q);
      LineLies(line, l.more.line, m, q);
      Wider(line, c, p, b, p, k);
      PartedLie(line, c, ';', LineCmd(l.more.line), p, k, q);
    } else {
      Wider(line, c, p, b, p, q);
    }
  }

  lemma AmpsLie(line: seq<char>, c: Cmd, n: nat, p: nat, a: nat, b: nat)
    requires Lies(line, c, p, a) && a <= b && Lexed(line, a, Amps(n), b)
    ensures Lies(line, Backs(c, n), p, b)
  {
    if n > 0 {
      var m := LexedSplit(line, a, [Sym('&')], Amps(n - 1), b);
      var k := LexedOne(line, a, Sym('&'), m);
      LexedRange(line, m, Amps(n - 1), b);
      Wider(line, c, p, a, p, k);
      BacksLie(line, c, n, p, k);
      Wider(line, Backs(c, n), p, k, p, b);
    } else {
      Wider(line, c, p, a, p, b);
    }
  }
}
