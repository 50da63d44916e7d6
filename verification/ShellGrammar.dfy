/** The shell's command language on tokens: concrete syntax trees, the tokens and the command of each,
    and a parser that accepts exactly the token sequences of well-formed trees. */
module ShellGrammar {

  // A word is the half-open range lo..hi of the line; `Append` is ">>".
  datatype Token = Sym(c: char) | Append | Word(lo: nat, hi: nat)

  // Commands, as `runcmd` takes them.
  datatype Cmd =
    | Exec(argv: seq<Token>)
    | Redir(cmd: Cmd, file: Token, mode: nat, fd: nat)
    | Pipe(left: Cmd, right: Cmd)
    | List(left: Cmd, right: Cmd)
    | Back(cmd: Cmd)

  const MAXARGS: nat := 10
  const O_RDONLY: nat := 0
  const O_WRONLY: nat := 1
  const O_CREATE: nat := 0x200

  // Concrete syntax.
  datatype Item = Arg(word: Token) | To(op: Token, file: Token)
  datatype Simple = Simple(items: seq<Item>) | Block(line: Line, redirs: seq<Item>)
  datatype Pipeline = One(cmd: Simple) | Bar(cmd: Simple, rest: Pipeline)
  datatype Line = Line(pipe: Pipeline, amps: nat, more: More)
  datatype More = End | Semi(line: Line)

  predicate IsOp(t: Token) { t == Sym('<') || t == Sym('>') || t == Append }

  // Tokens at which the arguments of a command end.
  predicate Stops(t: Token) { t == Sym('|') || t == Sym(')') || t == Sym('&') || t == Sym(';') }

  predicate StopsAt(ts: seq<Token>) { ts == [] || Stops(ts[0]) }

  predicate Starts(ts: seq<Token>, t: Token) { ts != [] && ts[0] == t }

  function Args(items: seq<Item>): seq<Token> {
    if items == [] then [] else (if items[0].Arg? then [items[0].word] else []) + Args(items[1..])
  }

  ghost predicate ItemOk(i: Item) {
    match i
    case Arg(w) => w.Word?
    case To(op, f) => IsOp(op) && f.Word?
  }

  /** Redirections have an operator and a file, and a command has fewer than MAXARGS arguments. */
  ghost predicate SimpleOk(e: Simple) {
    match e
    case Simple(items) => (forall i | i in items :: ItemOk(i)) && |Args(items)| < MAXARGS
    case Block(l, rs) => LineOk(l) && forall i | i in rs :: ItemOk(i) && i.To?
  }

  ghost predicate PipelineOk(p: Pipeline) {
    match p
    case One(e) => SimpleOk(e)
    case Bar(e, q) => SimpleOk(e) && PipelineOk(q)
  }

  ghost predicate LineOk(l: Line) {
    PipelineOk(l.pipe) && (l.more.Semi? ==> LineOk(l.more.line))
  }

  // ----- the tokens of a tree

  function ItemsYield(items: seq<Item>): seq<Token> {
    if items == [] then [] else
      (match items[0] case Arg(w) => [w] case To(op, f) => [op, f]) + ItemsYield(items[1..])
  }

  function SimpleYield(e: Simple): seq<Token> {
    match e
    case Simple(items) => ItemsYield(items)
    case Block(l, rs) => [Sym('(')] + (LineYield(l) + ([Sym(')')] + ItemsYield(rs)))
  }

  function PipelineYield(p: Pipeline): seq<Token> {
    match p
    case One(e) => SimpleYield(e)
    case Bar(e, q) => SimpleYield(e) + ([Sym('|')] + PipelineYield(q))
  }

  function Amps(n: nat): seq<Token> {
    if n == 0 then [] else [Sym('&')] + Amps(n - 1)
  }

  function LineYield(l: Line): seq<Token> {
    PipelineYield(l.pipe) + (Amps(l.amps) + MoreYield(l.more))
  }

  function MoreYield(more: More): seq<Token> {
    match more
    case End => []
    case Semi(l) => [Sym(';')] + LineYield(l)
  }

  // ----- the command of a tree

  function ModeOf(op: Token): nat { if op == Sym('<') then O_RDONLY else O_WRONLY + O_CREATE }

  function FdOf(op: Token): nat { if op == Sym('<') then 0 else 1 }

  // Later redirections go outside.
  function Redirected(c: Cmd, items: seq<Item>): Cmd
    decreases items
  {
    if items == [] then c
    else if items[0].To? then
      Redirected(Redir(c, items[0].file, ModeOf(items[0].op), FdOf(items[0].op)), items[1..])
    else Redirected(c, items[1..])
  }

  function Backs(c: Cmd, n: nat): Cmd
    decreases n
  {
    if n == 0 then c else Backs(Back(c), n - 1)
  }

  function SimpleCmd(e: Simple): Cmd {
    match e
    case Simple(items) => Redirected(Exec(Args(items)), items)
    case Block(l, rs) => Redirected(LineCmd(l), rs)
  }

  function PipelineCmd(p: Pipeline): Cmd {
    match p
    case One(e) => SimpleCmd(e)
    case Bar(e, q) => Pipe(SimpleCmd(e), PipelineCmd(q))
  }

  function LineCmd(l: Line): Cmd {
    var c := Backs(PipelineCmd(l.pipe), l.amps);
    match l.more case End => c case Semi(m) => List(c, LineCmd(m))
  }

  // ----- the parser, as a function of the tokens left

  datatype Parsed<T> = Fail | Done(tree: T, rest: seq<Token>)

  function Prepend(i: Item, r: Parsed<seq<Item>>): Parsed<seq<Item>> {
    match r
    case Fail => Fail
    case Done(items, rest) => Done([i] + items, rest)
  }

  // `parseredirs`.
  function ParseRedirs(ts: seq<Token>): (r: Parsed<seq<Item>>)
    ensures r.Done? ==> |r.rest| <= |ts|
  {
    if ts == [] || !IsOp(ts[0]) then Done([], ts)
    else if |ts| < 2 || !ts[1].Word? then Fail
    else Prepend(To(ts[0], ts[1]), ParseRedirs(ts[2..]))
  }

  // The arguments and redirections of `parseexec`, after `n` arguments.
  function ParseItems(ts: seq<Token>, n: nat): (r: Parsed<seq<Item>>)
    ensures r.Done? ==> |r.rest| <= |ts|
  {
    if StopsAt(ts) then Done([], ts)
    else if IsOp(ts[0]) then
      if |ts| < 2 || !ts[1].Word? then Fail else Prepend(To(ts[0], ts[1]), ParseItems(ts[2..], n))
    else if !ts[0].Word? || n + 1 >= MAXARGS then Fail
    else Prepend(Arg(ts[0]), ParseItems(ts[1..], n + 1))
  }

  function ParseSimple(ts: seq<Token>): (r: Parsed<Simple>)
    ensures r.Done? ==> |r.rest| <= |ts|
    decreases |ts|, 0
  {
    if Starts(ts, Sym('(')) then
      match ParseLine(ts[1..])
      case Fail => Fail
      case Done(l, rest) =>
        if !Starts(rest, Sym(')')) then Fail
        else
          match ParseRedirs(rest[1..])
          case Fail => Fail
          case Done(rs, rest') => Done(Block(l, rs), rest')
    else
      match ParseItems(ts, 0)
      case Fail => Fail
      case Done(items, rest) => Done(Simple(items), rest)
  }

  function ParsePipeline(ts: seq<Token>): (r: Parsed<Pipeline>)
    ensures r.Done? ==> |r.rest| <= |ts|
    decreases |ts|, 1
  {
    match ParseSimple(ts)
    case Fail => Fail
    case Done(e, rest) =>
      if !Starts(rest, Sym('|')) then Done(One(e), rest)
      else
        match ParsePipeline(rest[1..])
        case Fail => Fail
        case Done(p, rest') => Done(Bar(e, p), rest')
  }

  function CountAmps(ts: seq<Token>): (n: nat)
    ensures n <= |ts|
  {
    if Starts(ts, Sym('&')) then 1 + CountAmps(ts[1..]) else 0
  }

  function ParseLine(ts: seq<Token>): (r: Parsed<Line>)
    ensures r.Done? ==> |r.rest| <= |ts|
    decreases |ts|, 2
  {
    match ParsePipeline(ts)
    case Fail => Fail
    case Done(p, rest0) =>
      var n := CountAmps(rest0);
      var rest := rest0[n..];
      if !Starts(rest, Sym(';')) then Done(Line(p, n, End), rest)
      else
        match ParseLine(rest[1..])
        case Fail => Fail
        case Done(l, rest') => Done(Line(p, n, Semi(l)), rest')
  }

  lemma Assoc<T>(a: seq<T>, b: seq<T>, c: seq<T>)
    ensures (a + b) + c == a + (b + c)
  {
  }

  // ----- what is parsed is a well-formed tree of the tokens consumed

  // One token, and two, before the others.
  lemma Cons1(t: Token, s: seq<Token>)
    ensures [t] + s != [] && ([t] + s)[0] == t && ([t] + s)[1..] == s
  {
  }

  lemma Cons2(t: Token, u: Token, s: seq<Token>)
    ensures |[t, u] + s| >= 2 && ([t, u] + s)[0] == t && ([t, u] + s)[1] == u && ([t, u] + s)[2..] == s
  {
  }

  lemma Split1(ts: seq<Token>)
    requires ts != []
    ensures ts == [ts[0]] + ts[1..]
  {
  }

  lemma Split2(ts: seq<Token>)
    requires |ts| >= 2
    ensures ts == [ts[0], ts[1]] + ts[2..]
  {
  }

  // One item before the others.
  lemma ConsItem(i: Item, items: seq<Item>, rest: seq<Token>)
    ensures ItemsYield([i] + items) + rest ==
      (match i case Arg(w) => [w] case To(op, f) => [op, f]) + (ItemsYield(items) + rest)
    ensures |Args([i] + items)| == |Args(items)| + if i.Arg? then 1 else 0
  {
    assert ([i] + items)[1..] == items;
  }

  lemma {:induction false} RedirsSound(ts: seq<Token>)
    ensures ParseRedirs(ts).Done? ==>
      var r := ParseRedirs(ts);
      ts == ItemsYield(r.tree) + r.rest && (forall i | i in r.tree :: ItemOk(i) && i.To?)
      && (r.rest == [] || !IsOp(r.rest[0]))
    decreases |ts|
  {
    if ts != [] && IsOp(ts[0]) && |ts| >= 2 && ts[1].Word? {
      RedirsSound(ts[2..]);
      var r := ParseRedirs(ts[2..]);
      if r.Done? {
        ConsItem(To(ts[0], ts[1]), r.tree, r.rest);
        Split2(ts);
      }
    }
  }

  lemma {:induction false} ItemsSound(ts: seq<Token>, n: nat)
    requires n < MAXARGS
    ensures ParseItems(ts, n).Done? ==>
      var r := ParseItems(ts, n);
      ts == ItemsYield(r.tree) + r.rest && (forall i | i in r.tree :: ItemOk(i))
      && n + |Args(r.tree)| < MAXARGS && StopsAt(r.rest)
    decreases |ts|
  {
    if StopsAt(ts) {
    } else if IsOp(ts[0]) {
      if |ts| >= 2 && ts[1].Word? {
        ItemsSound(ts[2..], n);
        var r := ParseItems(ts[2..], n);
        if r.Done? {
          ConsItem(To(ts[0], ts[1]), r.tree, r.rest);
          Split2(ts);
        }
      }
    } else if ts[0].Word? && n + 1 < MAXARGS {
      ItemsSound(ts[1..], n + 1);
      var r := ParseItems(ts[1..], n + 1);
      if r.Done? {
        ConsItem(Arg(ts[0]), r.tree, r.rest);
        Split1(ts);
      }
    }
  }

  lemma BlockJoins(l: Line, rs: seq<Item>, rest: seq<Token>)
    ensures SimpleYield(Block(l, rs)) + rest == [Sym('(')] + (LineYield(l) + ([Sym(')')] + (ItemsYield(rs) + rest)))
  {
    var close := [Sym(')')] + ItemsYield(rs);
    Assoc([Sym(')')], ItemsYield(rs), rest);
    Assoc(LineYield(l), close, rest);
    Assoc([Sym('(')], LineYield(l) + close, rest);
  }

  lemma {:induction false} SimpleSound(ts: seq<Token>)
    ensures ParseSimple(ts).Done? ==>
      var r := ParseSimple(ts); ts == SimpleYield(r.tree) + r.rest && SimpleOk(r.tree)
    decreases |ts|, 0
  {
    if Starts(ts, Sym('(')) {
      LineSound(ts[1..]);
      var l := ParseLine(ts[1..]);
      if l.Done? && Starts(l.rest, Sym(')')) {
        RedirsSound(l.rest[1..]);
        var rs := ParseRedirs(l.rest[1..]);
        if rs.Done? {
          Split1(ts);
          Split1(l.rest);
          BlockJoins(l.tree, rs.tree, rs.rest);
        }
      }
    } else {
      ItemsSound(ts, 0);
    }
  }

  lemma BarJoins(e: Simple, q: Pipeline, rest: seq<Token>)
    ensures PipelineYield(Bar(e, q)) + rest == SimpleYield(e) + ([Sym('|')] + (PipelineYield(q) + rest))
  {
    Assoc([Sym('|')], PipelineYield(q), rest);
    Assoc(SimpleYield(e), [Sym('|')] + PipelineYield(q), rest);
  }

  lemma {:induction false} PipelineSound(ts: seq<Token>)
    ensures ParsePipeline(ts).Done? ==>
      var r := ParsePipeline(ts); ts == PipelineYield(r.tree) + r.rest && PipelineOk(r.tree)
    decreases |ts|, 1
  {
    SimpleSound(ts);
    var e := ParseSimple(ts);
    if e.Done? && Starts(e.rest, Sym('|')) {
      PipelineSound(e.rest[1..]);
      var p := ParsePipeline(e.rest[1..]);
      if p.Done? {
        Split1(e.rest);
        BarJoins(e.tree, p.tree, p.rest);
      }
    }
  }

  lemma {:induction false} AmpsSound(ts: seq<Token>)
    ensures ts == Amps(CountAmps(ts)) + ts[CountAmps(ts)..]
    ensures !Starts(ts[CountAmps(ts)..], Sym('&'))
    decreases |ts|
  {
    if Starts(ts, Sym('&')) {
      AmpsSound(ts[1..]);
      Assoc([Sym('&')], Amps(CountAmps(ts[1..])), ts[1..][CountAmps(ts[1..])..]);
      assert ts == [Sym('&')] + ts[1..];
      assert ts[CountAmps(ts)..] == ts[1..][CountAmps(ts[1..])..];
    }
  }

  lemma {:induction false} LineSound(ts: seq<Token>)
    ensures ParseLine(ts).Done? ==>
      var r := ParseLine(ts); ts == LineYield(r.tree) + r.rest && LineOk(r.tree)
    decreases |ts|, 2
  {
    PipelineSound(ts);
    var p := ParsePipeline(ts);
    if p.Done? {
      var n := CountAmps(p.rest);
      AmpsSound(p.rest);
      var rest := p.rest[n..];
      if Starts(rest, Sym(';')) {
        LineSound(rest[1..]);
        var l := ParseLine(rest[1..]);
        if l.Done? {
          assert rest == [Sym(';')] + rest[1..];
          LineJoins(p.tree, n, Semi(l.tree), l.rest);
          Assoc([Sym(';')], LineYield(l.tree), l.rest);
        }
      } else {
        LineJoins(p.tree, n, End, rest);
        assert MoreYield(End) + rest == rest;
      }
    }
  }

  lemma LineJoins(p: Pipeline, n: nat, more: More, rest: seq<Token>)
    ensures LineYield(Line(p, n, more)) + rest == PipelineYield(p) + (Amps(n) + (MoreYield(more) + rest))
  {
    Assoc(Amps(n), MoreYield(more), rest);
    Assoc(PipelineYield(p), Amps(n) + MoreYield(more), rest);
  }

  // ----- every well-formed tree is parsed from its tokens

  lemma {:induction false} RedirsComplete(rs: seq<Item>, rest: seq<Token>)
    requires (forall i | i in rs :: ItemOk(i) && i.To?) && StopsAt(rest)
    ensures ParseRedirs(ItemsYield(rs) + rest) == Done(rs, rest)
  {
    if rs == [] {
      assert ItemsYield(rs) + rest == rest;
    } else {
      var i, tail := rs[0], ItemsYield(rs[1..]) + rest;
      assert ItemOk(i) && i.To?;
      RedirsComplete(rs[1..], rest);
      assert [i] + rs[1..] == rs;
      ConsItem(i, rs[1..], rest);
      Cons2(i.op, i.file, tail);
      assert ItemsYield(rs) + rest == [i.op, i.file] + tail;
    }
  }

  // The parser takes one item off the front.
  lemma ItemTaken(i: Item, n: nat, tail: seq<Token>)
    requires ItemOk(i) && (i.Arg? ==> n + 1 < MAXARGS)
    ensures ParseItems((match i case Arg(w) => [w] case To(op, f) => [op, f]) + tail, n) ==
      Prepend(i, ParseItems(tail, if i.Arg? then n + 1 else n))
  {
    if i.Arg? {
      Cons1(i.word, tail);
    } else {
      Cons2(i.op, i.file, tail);
    }
  }

  lemma {:induction false} ItemsComplete(items: seq<Item>, n: nat, rest: seq<Token>)
    requires (forall i | i in items :: ItemOk(i)) && n + |Args(items)| < MAXARGS && StopsAt(rest)
    ensures ParseItems(ItemsYield(items) + rest, n) == Done(items, rest)
  {
    if items == [] {
      assert ItemsYield(items) + rest == rest;
    } else {
      var i, tail := items[0], ItemsYield(items[1..]) + rest;
      assert [i] + items[1..] == items && ItemOk(i);
      ConsItem(i, items[1..], rest);
      ItemsComplete(items[1..], if i.Arg? then n + 1 else n, rest);
      ItemTaken(i, n, tail);
    }
  }

  // The block of a line and the redirections after it.
  lemma BlockFrom(l: Line, rs: seq<Item>, rest: seq<Token>)
    requires ParseRedirs(ItemsYield(rs) + rest) == Done(rs, rest)
    requires var rest' := [Sym(')')] + (ItemsYield(rs) + rest); ParseLine(LineYield(l) + rest') == Done(l, rest')
    ensures ParseSimple(SimpleYield(Block(l, rs)) + rest) == Done(Block(l, rs), rest)
  {
    var rest' := [Sym(')')] + (ItemsYield(rs) + rest);
    BlockJoins(l, rs, rest);
    Cons1(Sym('('), LineYield(l) + rest');
    Cons1(Sym(')'), ItemsYield(rs) + rest);
  }

  lemma {:induction false} SimpleComplete(e: Simple, rest: seq<Token>)
    requires SimpleOk(e) && StopsAt(rest)
    ensures ParseSimple(SimpleYield(e) + rest) == Done(e, rest)
  {
    match e
    case Simple(items) =>
      ItemsComplete(items, 0, rest);
      if items == [] {
        assert ItemsYield(items) + rest == rest;
      } else {
        assert ItemOk(items[0]);
        assert (ItemsYield(items) + rest)[0] == ItemsYield(items)[0];
      }
    case Block(l, rs) =>
      LineComplete(l, [Sym(')')] + (ItemsYield(rs) + rest));
      RedirsComplete(rs, rest);
      BlockFrom(l, rs, rest);
  }

  lemma {:induction false} PipelineComplete(p: Pipeline, rest: seq<Token>)
    requires PipelineOk(p) && StopsAt(rest) && !Starts(rest, Sym('|'))
    ensures ParsePipeline(PipelineYield(p) + rest) == Done(p, rest)
  {
    match p
    case One(e) => SimpleComplete(e, rest);
    case Bar(e, q) =>
      var rest' := [Sym('|')] + (PipelineYield(q) + rest);
      SimpleComplete(e, rest');
      PipelineComplete(q, rest);
      BarJoins(e, q, rest);
      Cons1(Sym('|'), PipelineYield(q) + rest);
  }

  lemma {:induction false} AmpsComplete(n: nat, rest: seq<Token>)
    requires !Starts(rest, Sym('&'))
    ensures CountAmps(Amps(n) + rest) == n && (Amps(n) + rest)[n..] == rest
  {
    if n == 0 {
      assert Amps(n) + rest == rest;
    } else {
      var tail := Amps(n - 1) + rest;
      AmpsComplete(n - 1, rest);
      Assoc([Sym('&')], Amps(n - 1), rest);
      Cons1(Sym('&'), tail);
      assert ([Sym('&')] + tail)[n..] == tail[n - 1..];
    }
  }

  // What follows the pipe of a line ends a command, and does not continue the pipe.
  lemma AfterPipe(n: nat, more: More, rest: seq<Token>)
    requires rest == [] || rest[0] == Sym(')')
    ensures var tail := MoreYield(more) + rest;
            && !Starts(tail, Sym('&')) && !Starts(tail, Sym('|'))
            && StopsAt(Amps(n) + tail) && !Starts(Amps(n) + tail, Sym('|'))
  {
    var tail := MoreYield(more) + rest;
    if n == 0 {
      assert Amps(n) + tail == tail;
    } else {
      assert (Amps(n) + tail)[0] == Sym('&');
    }
  }

  // The line of a pipe, `n` ampersands and what is left after them.
  lemma LineFrom(ts: seq<Token>, p: Pipeline, n: nat, tail: seq<Token>, rest0: seq<Token>)
    requires ParsePipeline(ts) == Done(p, rest0) && CountAmps(rest0) == n && rest0[n..] == tail
    ensures !Starts(tail, Sym(';')) ==> ParseLine(ts) == Done(Line(p, n, End), tail)
    ensures Starts(tail, Sym(';')) && ParseLine(tail[1..]).Done? ==>
      ParseLine(ts) == Done(Line(p, n, Semi(ParseLine(tail[1..]).tree)), ParseLine(tail[1..]).rest)
  {
  }

  lemma {:induction false} LineComplete(l: Line, rest: seq<Token>)
    requires LineOk(l) && (rest == [] || rest[0] == Sym(')'))
    ensures ParseLine(LineYield(l) + rest) == Done(l, rest)
  {
    var tail := MoreYield(l.more) + rest;
    AfterPipe(l.amps, l.more, rest);
    AmpsComplete(l.amps, tail);
    PipelineComplete(l.pipe, Amps(l.amps) + tail);
    LineJoins(l.pipe, l.amps, l.more, rest);
    LineFrom(LineYield(l) + rest, l.pipe, l.amps, tail, Amps(l.amps) + tail);
    if l.more.Semi? {
      LineComplete(l.more.line, rest);
      Assoc([Sym(';')], LineYield(l.more.line), rest);
      Cons1(Sym(';'), LineYield(l.more.line) + rest);
    } else {
      assert tail == rest;
    }
  }

  /** The parser accepts a line exactly when it is the tokens of a well-formed tree, and that tree is
      the one it finds. */
  lemma ParsesExactly(ts: seq<Token>, l: Line)
    ensures ParseLine(ts) == Done(l, []) <==> LineOk(l) && LineYield(l) == ts
  {
    LineSound(ts);
    if LineOk(l) && LineYield(l) == ts {
      LineComplete(l, []);
      assert ts + [] == ts;
    }
    if ParseLine(ts) == Done(l, []) {
      assert LineYield(l) + [] == LineYield(l);
    }
  }

  /** The grammar is unambiguous. */
  lemma Unambiguous(l: Line, m: Line)
    requires LineOk(l) && LineOk(m) && LineYield(l) == LineYield(m)
    ensures l == m
  {
    ParsesExactly(LineYield(l), l);
    ParsesExactly(LineYield(m), m);
  }

  /** "a & b" is not in the language: a command may not follow another in the background on its own.
      The parser stops at the second word. */
  lemma NoneAfterBackground(a: Token, b: Token)
    requires a.Word? && b.Word?
    ensures ParseLine([a, Sym('&'), b]) == Done(Line(One(Simple([Arg(a)])), 1, End), [b])
    ensures forall l | LineOk(l) :: LineYield(l) != [a, Sym('&'), b]
  {
    var ts := [a, Sym('&'), b];
    assert ts[1..] == [Sym('&'), b] && ts[1..][1..] == [b];
    assert ParseItems(ts[1..], 1) == Done([], ts[1..]);
    assert [Arg(a)] + [] == [Arg(a)];
    assert ParseItems(ts, 0) == Done([Arg(a)], ts[1..]);
    assert ParseSimple(ts) == Done(Simple([Arg(a)]), ts[1..]);
    assert ParsePipeline(ts) == Done(One(Simple([Arg(a)])), ts[1..]);
    assert CountAmps(ts[1..][1..]) == 0;
    forall l | LineOk(l) ensures LineYield(l) != ts {
      ParsesExactly(ts, l);
    }
  }

  // ----- ">>" in place of ">"

  function Plain(t: Token): Token { if t == Append then Sym('>') else t }

  function PlainTokens(ts: seq<Token>): (r: seq<Token>)
    ensures |r| == |ts|
  {
    seq(|ts|, i requires 0 <= i < |ts| => Plain(ts[i]))
  }

  function PlainItems(items: seq<Item>): (r: seq<Item>)
    ensures |r| == |items|
  {
    seq(|items|, i requires 0 <= i < |items| =>
      match items[i] case Arg(w) => Arg(w) case To(op, f) => To(Plain(op), f))
  }

  function PlainSimple(e: Simple): Simple {
    match e
    case Simple(items) => Simple(PlainItems(items))
    case Block(l, rs) => Block(PlainLine(l), PlainItems(rs))
  }

  function PlainPipeline(p: Pipeline): Pipeline {
    match p
    case One(e) => One(PlainSimple(e))
    case Bar(e, q) => Bar(PlainSimple(e), PlainPipeline(q))
  }

  function PlainLine(l: Line): Line {
    Line(PlainPipeline(l.pipe), l.amps, match l.more case End => End case Semi(m) => Semi(PlainLine(m)))
  }

  lemma PlainJoins(a: seq<Token>, b: seq<Token>)
    ensures PlainTokens(a + b) == PlainTokens(a) + PlainTokens(b)
  {
  }

  lemma PlainCons(t: Token, b: seq<Token>)
    requires t != Append
    ensures PlainTokens([t] + b) == [t] + PlainTokens(b)
  {
    PlainJoins([t], b);
    assert PlainTokens([t]) == [t];
  }

  lemma PlainBlock(l: Line, rs: seq<Item>)
    requires LineYield(PlainLine(l)) == PlainTokens(LineYield(l))
    requires ItemsYield(PlainItems(rs)) == PlainTokens(ItemsYield(rs))
    ensures SimpleYield(PlainSimple(Block(l, rs))) == PlainTokens(SimpleYield(Block(l, rs)))
  {
    var close := [Sym(')')] + ItemsYield(rs);
    PlainCons(Sym(')'), ItemsYield(rs));
    PlainJoins(LineYield(l), close);
    PlainCons(Sym('('), LineYield(l) + close);
  }

  lemma {:induction false} PlainItemsSame(items: seq<Item>, c: Cmd)
    requires forall i | i in items :: ItemOk(i)
    ensures Args(PlainItems(items)) == Args(items)
    ensures ItemsYield(PlainItems(items)) == PlainTokens(ItemsYield(items))
    ensures Redirected(c, PlainItems(items)) == Redirected(c, items)
    decreases items
  {
    if items != [] {
      var i, rest := items[0], items[1..];
      assert ItemOk(i);
      assert PlainItems(items)[1..] == PlainItems(rest);
      PlainItemsSame(rest, if i.To? then Redir(c, i.file, ModeOf(i.op), FdOf(i.op)) else c);
      PlainJoins(match i case Arg(w) => [w] case To(op, f) => [op, f], ItemsYield(rest));
    }
  }

  lemma PlainItemsOk(items: seq<Item>)
    requires forall i | i in items :: ItemOk(i)
    ensures forall i | i in PlainItems(items) :: ItemOk(i)
    ensures (forall i | i in items :: i.To?) ==> forall i | i in PlainItems(items) :: i.To?
  {
    forall j | 0 <= j < |items|
      ensures ItemOk(PlainItems(items)[j]) && (items[j].To? ==> PlainItems(items)[j].To?)
    {
      assert items[j] in items && ItemOk(items[j]);
    }
    assert forall j | 0 <= j < |items| :: items[j] in items;
  }

  lemma {:induction false} PlainSimpleSame(e: Simple)
    requires SimpleOk(e)
    ensures SimpleOk(PlainSimple(e)) && SimpleCmd(PlainSimple(e)) == SimpleCmd(e)
    ensures SimpleYield(PlainSimple(e)) == PlainTokens(SimpleYield(e))
  {
    match e
    case Simple(items) =>
      PlainItemsOk(items);
      PlainItemsSame(items, Exec(Args(items)));
    case Block(l, rs) =>
      PlainLineSame(l);
      PlainItemsSame(rs, LineCmd(l));
      PlainItemsOk(rs);
      PlainBlock(l, rs);
  }

  lemma {:induction false} PlainPipelineSame(p: Pipeline)
    requires PipelineOk(p)
    ensures PipelineOk(PlainPipeline(p)) && PipelineCmd(PlainPipeline(p)) == PipelineCmd(p)
    ensures PipelineYield(PlainPipeline(p)) == PlainTokens(PipelineYield(p))
  {
    match p
    case One(e) => PlainSimpleSame(e);
    case Bar(e, q) =>
      PlainSimpleSame(e);
      PlainPipelineSame(q);
      PlainCons(Sym('|'), PipelineYield(q));
      PlainJoins(SimpleYield(e), [Sym('|')] + PipelineYield(q));
  }

  lemma {:induction false} PlainAmps(n: nat)
    ensures PlainTokens(Amps(n)) == Amps(n)
  {
    if n > 0 {
      PlainAmps(n - 1);
      PlainCons(Sym('&'), Amps(n - 1));
    }
  }

  lemma {:induction false} PlainLineSame(l: Line)
    requires LineOk(l)
    ensures LineOk(PlainLine(l)) && LineCmd(PlainLine(l)) == LineCmd(l)
    ensures LineYield(PlainLine(l)) == PlainTokens(LineYield(l))
  {
    PlainPipelineSame(l.pipe);
    PlainAmps(l.amps);
    if l.more.Semi? {
      PlainLineSame(l.more.line);
      PlainCons(Sym(';'), LineYield(l.more.line));
    } else {
      assert PlainTokens([]) == [];
    }
    PlainJoins(Amps(l.amps), MoreYield(l.more));
    PlainJoins(PipelineYield(l.pipe), Amps(l.amps) + MoreYield(l.more));
  }

  /** ">>" is ">": with every ">>" replaced the line is accepted just the same, as the same command. */
  lemma AppendIsOutput(ts: seq<Token>, l: Line)
    requires ParseLine(ts) == Done(l, [])
    ensures ParseLine(PlainTokens(ts)) == Done(PlainLine(l), []) && LineCmd(PlainLine(l)) == LineCmd(l)
  {
    ParsesExactly(ts, l);
    PlainLineSame(l);
    ParsesExactly(PlainTokens(ts), PlainLine(l));
  }
}
