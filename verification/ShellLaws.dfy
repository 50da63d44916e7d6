/** The command of a line from the commands of its parts: what each of the shell's operators, put
    between or after lines that are accepted on their own, makes of their commands. */
module ShellLaws {
  import opened Common
  import opened Shell
  import opened ShellGrammar

  // A line of one command: no bar, no ampersand and no semicolon outside parentheses.
  predicate IsCommand(l: Line) { l.pipe.One? && IsPipe(l) }

  predicate IsPipe(l: Line) { l.amps == 0 && l.more.End? }

  // The line `ts` is accepted, as the command `c`.
  ghost predicate Runs(ts: seq<Token>, c: Cmd) {
    ParseLine(ts).Done? && ParseLine(ts).rest == [] && LineCmd(ParseLine(ts).tree) == c
  }

  lemma YieldRuns(ts: seq<Token>, l: Line)
    requires LineOk(l) && LineYield(l) == ts
    ensures Runs(ts, LineCmd(l))
  {
    ParsesExactly(ts, l);
  }

  // The tokens of lines that end early.
  lemma ShortYield(l: Line)
    requires l.more.End?
    ensures LineYield(l) == PipelineYield(l.pipe) + Amps(l.amps)
    ensures l.amps == 0 ==> LineYield(l) == PipelineYield(l.pipe) && LineCmd(l) == PipelineCmd(l.pipe)
  {
    assert Amps(l.amps) + MoreYield(l.more) == Amps(l.amps);
    if l.amps == 0 {
      assert PipelineYield(l.pipe) + Amps(0) == PipelineYield(l.pipe);
    }
  }

  /** Fewer than ten words are a command with these arguments, in their order. */
  lemma WordsRun(ws: seq<Token>)
    requires |ws| < 10 && forall w | w in ws :: w.Word?
    ensures Runs(ws, Exec(ws))
  {
    var items := seq(|ws|, i requires 0 <= i < |ws| => Arg(ws[i]));
    WordItems(ws, items);
    var l := Line(One(Simple(items)), 0, End);
    assert forall i | i in items :: ItemOk(i);
    ShortYield(l);
    YieldRuns(ws, l);
  }

  lemma {:induction false} WordItems(ws: seq<Token>, items: seq<Item>)
    requires |items| == |ws| && forall i | 0 <= i < |ws| :: items[i] == Arg(ws[i])
    ensures Args(items) == ws && ItemsYield(items) == ws
    ensures forall c: Cmd :: Redirected(c, items) == c
  {
    if ws != [] {
      WordItems(ws[1..], items[1..]);
      assert ws == [ws[0]] + ws[1..];
    }
  }

  /** `ts | us` pipes the command of `ts` into that of `us`. */
  lemma PipeRuns(ts: seq<Token>, us: seq<Token>, l: Line, m: Line)
    requires ParseLine(ts) == Done(l, []) && IsCommand(l) && ParseLine(us) == Done(m, []) && IsPipe(m)
    ensures Runs(ts + ([Sym('|')] + us), Pipe(LineCmd(l), LineCmd(m)))
  {
    ParsesExactly(ts, l);
    ParsesExactly(us, m);
    ShortYield(l);
    ShortYield(m);
    var all := Line(Bar(l.pipe.cmd, m.pipe), 0, End);
    ShortYield(all);
    YieldRuns(ts + ([Sym('|')] + us), all);
  }

  /** `ts ; us` runs the command of `ts` and then that of `us`. */
  lemma ListRuns(ts: seq<Token>, us: seq<Token>, l: Line, m: Line)
    requires ParseLine(ts) == Done(l, []) && l.more.End? && ParseLine(us) == Done(m, [])
    ensures Runs(ts + ([Sym(';')] + us), List(LineCmd(l), LineCmd(m)))
  {
    ParsesExactly(ts, l);
    ParsesExactly(us, m);
    ShortYield(l);
    var all := Line(l.pipe, l.amps, Semi(m));
    Assoc(PipelineYield(l.pipe), Amps(l.amps), [Sym(';')] + us);
    YieldRuns(ts + ([Sym(';')] + us), all);
  }

  /** `ts &` runs the command of `ts` in the background. */
  lemma BackRuns(ts: seq<Token>, l: Line)
    requires ParseLine(ts) == Done(l, []) && l.more.End?
    ensures Runs(ts + [Sym('&')], Back(LineCmd(l)))
  {
    ParsesExactly(ts, l);
    ShortYield(l);
    var all := Line(l.pipe, l.amps + 1, End);
    ShortYield(all);
    AmpsOnce(l.amps);
    Assoc(PipelineYield(l.pipe), Amps(l.amps), [Sym('&')]);
    BacksOnce(PipelineCmd(l.pipe), l.amps);
    YieldRuns(ts + [Sym('&')], all);
  }

  lemma {:induction false} AmpsOnce(n: nat)
    ensures Amps(n + 1) == Amps(n) + [Sym('&')]
  {
    if n > 0 {
      AmpsOnce(n - 1);
      Assoc([Sym('&')], Amps(n - 1), [Sym('&')]);
    }
  }

  /** `( ts )` is the command of `ts`. */
  lemma BlockRuns(ts: seq<Token>, l: Line)
    requires ParseLine(ts) == Done(l, [])
    ensures Runs([Sym('(')] + (ts + [Sym(')')]), LineCmd(l))
  {
    ParsesExactly(ts, l);
    var all := Line(One(Block(l, [])), 0, End);
    ShortYield(all);
    assert [Sym(')')] + ItemsYield([]) == [Sym(')')];
    YieldRuns([Sym('(')] + (ts + [Sym(')')]), all);
  }

  // The command `l` with one item more at its end.
  function WithItem(e: Simple, i: Item): Simple {
    match e
    case Simple(items) => Simple(items + [i])
    case Block(l, rs) => Block(l, rs + [i])
  }

  lemma {:induction false} ItemsYieldAppend(a: seq<Item>, i: Item)
    ensures ItemsYield(a + [i]) == ItemsYield(a) + (match i case Arg(w) => [w] case To(op, f) => [op, f])
  {
    if a == [] {
      assert a + [i] == [i] && ItemsYield([i][1..]) == [];
    } else {
      ItemsYieldAppend(a[1..], i);
      assert (a + [i])[1..] == a[1..] + [i] && (a + [i])[0] == a[0];
      Assoc(match a[0] case Arg(w) => [w] case To(op, f) => [op, f], ItemsYield(a[1..]),
            match i case Arg(w) => [w] case To(op, f) => [op, f]);
    }
  }

  lemma WithItemYield(e: Simple, i: Item)
    ensures SimpleYield(WithItem(e, i)) == SimpleYield(e) + (match i case Arg(w) => [w] case To(op, f) => [op, f])
  {
    var t := match i case Arg(w) => [w] case To(op, f) => [op, f];
    match e
    case Simple(items) => ItemsYieldAppend(items, i);
    case Block(l, rs) =>
      ItemsYieldAppend(rs, i);
      BlockJoins(l, rs, t);
  }

  lemma WithItemOk(e: Simple, i: Item)
    requires SimpleOk(e) && ItemOk(i) && (i.To? || (e.Simple? && |Args(e.items)| + 1 < MAXARGS))
    ensures SimpleOk(WithItem(e, i))
  {
    match e
    case Simple(items) => ArgsAppend(items, [i]);
    case Block(l, rs) =>
  }

  lemma WithRedirCmd(e: Simple, op: Token, f: Token)
    ensures SimpleCmd(WithItem(e, To(op, f))) == Redir(SimpleCmd(e), f, ModeOf(op), FdOf(op))
  {
    var i := To(op, f);
    match e
    case Simple(items) =>
      PartialRedirs(items, [i]);
      assert Redirected(Partial(items), [i]) == Redir(Partial(items), f, ModeOf(op), FdOf(op));
    case Block(l, rs) =>
      RedirectedAppend(LineCmd(l), rs, [i]);
      var c := Redirected(LineCmd(l), rs);
      assert Redirected(c, [i]) == Redir(c, f, ModeOf(op), FdOf(op));
  }

  /** `ts < f` reads from `f`, and `ts > f` and `ts >> f` write to it; a redirection after others
      goes around them. */
  lemma RedirRuns(ts: seq<Token>, op: Token, f: Token, l: Line)
    requires ParseLine(ts) == Done(l, []) && IsCommand(l) && f.Word?
    ensures op == Sym('<') ==> Runs(ts + [op, f], Redir(LineCmd(l), f, 0, 0))
    ensures op == Sym('>') || op == Append ==> Runs(ts + [op, f], Redir(LineCmd(l), f, 0x201, 1))
  {
    if IsOp(op) {
      ParsesExactly(ts, l);
      ShortYield(l);
      var e := WithItem(l.pipe.cmd, To(op, f));
      WithItemOk(l.pipe.cmd, To(op, f));
      WithItemYield(l.pipe.cmd, To(op, f));
      WithRedirCmd(l.pipe.cmd, op, f);
      ShortYield(Line(One(e), 0, End));
      YieldRuns(ts + [op, f], Line(One(e), 0, End));
    }
  }

  /** `ts w` has one argument more, inside whatever redirections there are. */
  lemma ArgRuns(ts: seq<Token>, w: Token, l: Line)
    requires ParseLine(ts) == Done(l, []) && IsCommand(l) && l.pipe.cmd.Simple? && w.Word?
    requires |Args(l.pipe.cmd.items)| + 1 < 10
    ensures Runs(ts + [w], AddArg(LineCmd(l), w))
  {
    ParsesExactly(ts, l);
    ShortYield(l);
    var e := WithItem(l.pipe.cmd, Arg(w));
    WithItemOk(l.pipe.cmd, Arg(w));
    WithItemYield(l.pipe.cmd, Arg(w));
    PartialArg(l.pipe.cmd.items, w);
    ShortYield(Line(One(e), 0, End));
    YieldRuns(ts + [w], Line(One(e), 0, End));
  }

  lemma {:induction false} OneWord(a: Token, l: Line)
    requires a.Word? && l == Line(One(Simple([Arg(a)])), 0, End)
    ensures ParseLine([a]) == Done(l, []) && LineCmd(l) == Exec([a])
  {
    WordItems([a], [Arg(a)]);
    assert SimpleYield(l.pipe.cmd) == PipelineYield(l.pipe) == [a];
    ShortYield(l);
    assert forall i | i in [Arg(a)] :: ItemOk(i);
    assert SimpleOk(l.pipe.cmd);
    ParsesExactly([a], l);
    assert LineCmd(l) == SimpleCmd(l.pipe.cmd) == Redirected(Exec([a]), [Arg(a)]) == Exec([a]);
  }

  /** So the line of a word, a bar and a word pipes the first into the second, and likewise for the
      other operators. */
  lemma TwoWords(a: Token, b: Token)
    requires a.Word? && b.Word?
    ensures Runs([a, Sym('|'), b], Pipe(Exec([a]), Exec([b])))
    ensures Runs([a, Sym(';'), b], List(Exec([a]), Exec([b])))
    ensures Runs([a, Sym('<'), b], Redir(Exec([a]), b, 0, 0))
    ensures Runs([a, Sym('>'), b], Redir(Exec([a]), b, 0x201, 1))
    ensures Runs([a, Sym('&')], Back(Exec([a])))
  {
    var l, m := Line(One(Simple([Arg(a)])), 0, End), Line(One(Simple([Arg(b)])), 0, End);
    OneWord(a, l);
    OneWord(b, m);
    PipeRuns([a], [b], l, m);
    ListRuns([a], [b], l, m);
    RedirRuns([a], Sym('<'), b, l);
    RedirRuns([a], Sym('>'), b, l);
    BackRuns([a], l);
    assert [a] + ([Sym('|')] + [b]) == [a, Sym('|'), b] && [a] + ([Sym(';')] + [b]) == [a, Sym(';'), b];
    assert [a] + [Sym('<'), b] == [a, Sym('<'), b] && [a] + [Sym('>'), b] == [a, Sym('>'), b];
    assert [a] + [Sym('&')] == [a, Sym('&')];
  }
}
