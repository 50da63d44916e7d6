/** The shell's recursive-descent parser over the line buffer, and the in-place termination of the
    words it finds. */
module Shell {
  import opened Common
  import opened ShellGrammar
  import opened ShellLex
  import opened ShellOrder
  import G = ShellGrammar

  // ----- how the trees of `ShellGrammar` grow token by token

  function Prepend(items: seq<Item>, r: Parsed<seq<Item>>): Parsed<seq<Item>> {
    match r
    case Fail => Fail
    case Done(more, rest) => Done(items + more, rest)
  }

  // `parseexec` may read its redirections first.
  lemma {:induction false} RedirsInItems(ts: seq<Token>, n: nat)
    ensures G.ParseItems(ts, n) ==
      match G.ParseRedirs(ts)
      case Fail => Fail
      case Done(rs, rest) => Prepend(rs, G.ParseItems(rest, n))
    decreases |ts|
  {
    if ts != [] && IsOp(ts[0]) {
      if |ts| >= 2 && ts[1].Word? {
        RedirsInItems(ts[2..], n);
        var rs := G.ParseRedirs(ts[2..]);
        if rs.Done? && G.ParseItems(rs.rest, n).Done? {
          var items := G.ParseItems(rs.rest, n).tree;
          Assoc([To(ts[0], ts[1])], rs.tree, items);
        }
      }
    } else {
      var r := G.ParseItems(ts, n);
      assert r.Done? ==> [] + r.tree == r.tree;
    }
  }

  lemma {:induction false} ArgsAppend(a: seq<Item>, b: seq<Item>)
    ensures Args(a + b) == Args(a) + Args(b)
  {
    if a == [] {
      assert a + b == b;
    } else {
      ArgsAppend(a[1..], b);
      assert (a + b)[1..] == a[1..] + b && (a + b)[0] == a[0];
      Assoc(if a[0].Arg? then [a[0].word] else [], Args(a[1..]), Args(b));
    }
  }

  lemma {:induction false} RedirectedAppend(c: Cmd, a: seq<Item>, b: seq<Item>)
    ensures Redirected(c, a + b) == Redirected(Redirected(c, a), b)
    decreases a
  {
    if a == [] {
      assert a + b == b;
    } else {
      assert (a + b)[1..] == a[1..] + b;
      if a[0].To? {
        RedirectedAppend(Redir(c, a[0].file, ModeOf(a[0].op), FdOf(a[0].op)), a[1..], b);
      } else {
        RedirectedAppend(c, a[1..], b);
      }
    }
  }

  lemma {:induction false} NoArgs(rs: seq<Item>)
    requires forall i | i in rs :: i.To?
    ensures Args(rs) == []
  {
    if rs != [] {
      assert rs[0].To?;
      NoArgs(rs[1..]);
    }
  }

  // `argv[argc] = q` in the command that the redirections of `c` wrap.
  function AddArg(c: Cmd, w: Token): Cmd {
    match c
    case Exec(argv) => Exec(argv + [w])
    case Redir(d, file, mode, fd) => Redir(AddArg(d, w), file, mode, fd)
    case _ => c
  }

  lemma {:induction false} AddArgInside(c: Cmd, items: seq<Item>, w: Token)
    ensures AddArg(Redirected(c, items), w) == Redirected(AddArg(c, w), items)
    decreases items
  {
    if items != [] {
      if items[0].To? {
        AddArgInside(Redir(c, items[0].file, ModeOf(items[0].op), FdOf(items[0].op)), items[1..], w);
      } else {
        AddArgInside(c, items[1..], w);
      }
    }
  }

  lemma {:induction false} BacksOnce(c: Cmd, n: nat)
    ensures Backs(c, n + 1) == Back(Backs(c, n))
    decreases n
  {
    if n > 0 { BacksOnce(Back(c), n - 1); }
  }

  // The command under construction in `parseexec`.
  ghost function Partial(items: seq<Item>): Cmd { Redirected(Exec(Args(items)), items) }

  lemma PartialRedirs(items: seq<Item>, rs: seq<Item>)
    requires forall i | i in rs :: i.To?
    ensures Partial(items + rs) == Redirected(Partial(items), rs) && Args(items + rs) == Args(items)
  {
    ArgsAppend(items, rs);
    NoArgs(rs);
    assert Args(items + rs) == Args(items);
    RedirectedAppend(Exec(Args(items)), items, rs);
  }

  lemma PartialArg(items: seq<Item>, w: Token)
    ensures Partial(items + [Arg(w)]) == AddArg(Partial(items), w) && |Args(items + [Arg(w)])| == |Args(items)| + 1
  {
    ArgsAppend(items, [Arg(w)]);
    assert Args([Arg(w)]) == [w];
    var c := Redirected(Exec(Args(items) + [w]), items);
    assert Redirected(c, [Arg(w)]) == c;
    RedirectedAppend(Exec(Args(items) + [w]), items, [Arg(w)]);
    AddArgInside(Exec(Args(items)), items, w);
    assert Args(items + [Arg(w)]) == Args(items) + [w];
    assert AddArg(Exec(Args(items)), w) == Exec(Args(items) + [w]);
    assert Partial(items + [Arg(w)]) == c == AddArg(Partial(items), w);
  }

  // `parseexec` has read `items`, and has `ts` left to read.
  ghost predicate Building(all: Parsed<seq<Item>>, items: seq<Item>, c: Cmd, argc: nat, ts: seq<Token>) {
    c == Partial(items) && argc == |Args(items)| < MAXARGS && all == Prepend(items, G.ParseItems(ts, argc))
  }

  lemma BuildNone(ts: seq<Token>)
    ensures Building(G.ParseItems(ts, 0), [], Exec([]), 0, ts)
  {
    var r := G.ParseItems(ts, 0);
    assert r.Done? ==> [] + r.tree == r.tree;
  }

  lemma BuildRedirs(all: Parsed<seq<Item>>, items: seq<Item>, c: Cmd, argc: nat, ts: seq<Token>)
    requires Building(all, items, c, argc, ts)
    ensures var r := G.ParseRedirs(ts);
            if r.Fail? then all.Fail?
            else
              && Building(all, items + r.tree, Redirected(c, r.tree), argc, r.rest)
              && (r.rest == [] || !IsOp(r.rest[0]))
  {
    RedirsInItems(ts, argc);
    RedirsSound(ts);
    var r := G.ParseRedirs(ts);
    if r.Done? {
      PartialRedirs(items, r.tree);
      var more := G.ParseItems(r.rest, argc);
      if more.Done? {
        Assoc(items, r.tree, more.tree);
      }
    }
  }

  lemma BuildArg(all: Parsed<seq<Item>>, items: seq<Item>, c: Cmd, argc: nat, ts: seq<Token>)
    requires Building(all, items, c, argc, ts) && !StopsAt(ts) && !IsOp(ts[0])
    ensures if ts[0].Word? && argc + 1 < MAXARGS then
              Building(all, items + [Arg(ts[0])], AddArg(c, ts[0]), argc + 1, ts[1..])
            else all.Fail?
  {
    if ts[0].Word? && argc + 1 < MAXARGS {
      PartialArg(items, ts[0]);
      var more := G.ParseItems(ts[1..], argc + 1);
      if more.Done? {
        Assoc(items, [Arg(ts[0])], more.tree);
      }
    }
  }

  lemma BuildDone(all: Parsed<seq<Item>>, items: seq<Item>, c: Cmd, argc: nat, ts: seq<Token>)
    requires Building(all, items, c, argc, ts) && StopsAt(ts)
    ensures all == Done(items, ts) && c == SimpleCmd(Simple(items))
  {
    assert items + [] == items;
  }

  // Does the first token start with one of the symbols `toks`?
  predicate PeekAt(ts: seq<Token>, toks: string) {
    ts != [] &&
    match ts[0]
    case Sym(c) => c in toks
    case Append => '>' in toks
    case Word(_, _) => false
  }

  lemma PeekStops(ts: seq<Token>)
    ensures PeekAt(ts, "|)&;") <==> ts != [] && Stops(ts[0])
  {
  }

  // Reading on from `c` gives what reading from `c0` gave.
  ghost predicate SameRedirs(c0: Cmd, all: Parsed<seq<Item>>, c: Cmd, left: Parsed<seq<Item>>) {
    match all
    case Fail => left.Fail?
    case Done(rs, rest) => left.Done? && left.rest == rest && Redirected(c0, rs) == Redirected(c, left.tree)
  }

  // A well-formed tree of these tokens.
  ghost predicate IsTree(l: Line, ts: seq<Token>) { LineOk(l) && LineYield(l) == ts }

  lemma SameRedirsNext(c0: Cmd, all: Parsed<seq<Item>>, c: Cmd, ts: seq<Token>)
    requires SameRedirs(c0, all, c, G.ParseRedirs(ts)) && ts != [] && IsOp(ts[0])
    ensures if |ts| < 2 || !ts[1].Word? then all.Fail?
            else SameRedirs(c0, all, Redir(c, ts[1], ModeOf(ts[0]), FdOf(ts[0])), G.ParseRedirs(ts[2..]))
  {
  }

  // The loop of `parseline` has read `n` ampersands.
  ghost predicate Amped(cmd: Cmd, rest0: seq<Token>, n: nat, c: Cmd, ts: seq<Token>) {
    c == Backs(cmd, n) && n <= |rest0| && ts == rest0[n..] && CountAmps(rest0) == n + CountAmps(ts)
  }

  lemma AmpedNext(cmd: Cmd, rest0: seq<Token>, n: nat, c: Cmd, ts: seq<Token>)
    requires Amped(cmd, rest0, n, c, ts) && Starts(ts, Sym('&'))
    ensures Amped(cmd, rest0, n + 1, Back(c), ts[1..])
  {
    BacksOnce(cmd, n);
  }

  class Parser {
    const buf: array<char>
    const es: nat                       // the end of the line
    var s: nat                          // the cursor
    ghost const line: seq<char>

    ghost predicate Valid()
      reads this, buf
    {
      s <= es == |line| && es < buf.Length && NUL !in line && buf[..es] == line && buf[es] == NUL
    }

    // The tokens not yet read.
    ghost function Left(): seq<Token>
      reads this
      requires s <= |line| && NUL !in line
    {
      Tokens(line, s)
    }

    /** The line is what comes before the first NUL of the buffer. */
    constructor (b: array<char>)
      requires NUL in b[..]
      ensures Valid() && buf == b && s == 0
      ensures |line| < b.Length && line == b[..|line|] && b[|line|] == NUL && NUL !in line
    {
      var n := 0;
      while b[n] != NUL
        invariant n < b.Length && NUL !in b[..n] && NUL in b[n..]
        decreases b.Length - n
      {
        assert b[n..] == [b[n]] + b[n + 1..];
        n := n + 1;
      }
      buf, es, s, line := b, n, 0, b[..n];
    }

    method SkipSpaces()
      requires Valid()
      modifies this`s
      ensures Valid() && s == Skip(line, old(s)) && Left() == old(Left())
    {
      SkipKeeps(line, s);
      while s < es && IsSpace(buf[s])
        invariant Valid() && Skip(line, s) == Skip(line, old(s))
      {
        assert buf[s] == line[s];
        s := s + 1;
      }
      assert s < es ==> buf[s] == line[s];
    }

    /** `gettoken`: takes the next token off the line and says where it was. */
    method GetToken() returns (ret: char, q: nat, eq: nat)
      requires Valid()
      modifies this`s
      ensures Valid()
      ensures ret == NUL <==> old(Left()) == []
      ensures ret == 'a' <==> old(Left()) != [] && old(Left())[0].Word?
      ensures old(Left()) == [] ==> Left() == [] && s == es
      ensures old(Left()) != [] ==> ret == Code(old(Left())[0]) && Left() == old(Left())[1..]
      ensures old(Left()) != [] && old(Left())[0].Word? ==> old(Left())[0] == Word(q, eq)
    {
      SkipSpaces();
      q := s;
      ret := TakeToken();
      eq := s;
      SkipSpaces();
    }

    // The token at the cursor.
    method TakeToken() returns (ret: char)
      requires Valid() && (s < es ==> !IsSpace(line[s]))
      modifies this`s
      ensures Valid()
      ensures if old(s) == es then s == es && ret == NUL
              else ret == Code(TokenAt(line, old(s))) && s == TokenEnd(line, old(s))
    {
      ret := buf[s];
      if s < es {
        assert buf[s] == line[s] && line[s] in line;
        assert s + 1 < es ==> buf[s + 1] == line[s + 1];
        if ret == '>' && buf[s + 1] == '>' {
          ret := '+';
          s := s + 2;
        } else if IsSymbol(ret) {
          s := s + 1;
        } else {
          ret := 'a';
          TakeWord();
        }
      }
    }

    // The default case of `gettoken`.
    method TakeWord()
      requires Valid()
      modifies this`s
      ensures Valid() && s == WordEnd(line, old(s))
    {
      while s < es && !IsSpace(buf[s]) && !IsSymbol(buf[s])
        invariant Valid() && WordEnd(line, s) == WordEnd(line, old(s))
      {
        assert buf[s] == line[s] && line[s] in line;
        s := s + 1;
      }
      assert s < es ==> buf[s] == line[s];
    }

    /** `peek`: does the next token start with one of the symbols `toks`? */
    method Peek(toks: string) returns (r: bool)
      requires Valid() && forall c | c in toks :: IsSymbol(c)
      modifies this`s
      ensures Valid() && s == Skip(line, old(s)) && Left() == old(Left())
      ensures r <==> PeekAt(Left(), toks)
    {
      SkipSpaces();
      assert s < es ==> buf[s] == line[s] && line[s] in line;
      SkipKeeps(line, s);
      r := buf[s] != NUL && buf[s] in toks;
    }

    /** `parseredirs` around `cmd`; `None` stands for a panic. */
    method ParseRedirs(cmd: Cmd) returns (r: Option<Cmd>)
      requires Valid()
      modifies this`s
      ensures Valid()
      ensures match G.ParseRedirs(old(Left()))
              case Fail => r.None?
              case Done(rs, rest) => r == Some(Redirected(cmd, rs)) && Left() == rest
    {
      var c := cmd;
      var more := Peek("<>");
      while more
        invariant Valid() && (more <==> PeekAt(Left(), "<>"))
        invariant SameRedirs(cmd, G.ParseRedirs(old(Left())), c, G.ParseRedirs(Left()))
        decreases |Left()|
      {
        ghost var ts := Left();
        var tok, _, _ := GetToken();
        var ret, q, eq := GetToken();
        SameRedirsNext(cmd, G.ParseRedirs(old(Left())), c, ts);
        if ret != 'a' {
          return None;
        }
        c := Redir(c, Word(q, eq), if tok == '<' then O_RDONLY else O_WRONLY + O_CREATE, if tok == '<' then 0 else 1);
        more := Peek("<>");
      }
      return Some(c);
    }

    // The loop of `parseline`.
    method ParseAmps(cmd: Cmd) returns (c: Cmd)
      requires Valid()
      modifies this`s
      ensures Valid() && CountAmps(old(Left())) <= |old(Left())|
      ensures c == Backs(cmd, CountAmps(old(Left()))) && Left() == old(Left())[CountAmps(old(Left()))..]
    {
      c := cmd;
      ghost var n := 0;
      var amp := Peek("&");
      while amp
        invariant Valid() && (amp <==> PeekAt(Left(), "&"))
        invariant Amped(cmd, old(Left()), n, c, Left())
        decreases |Left()|
      {
        AmpedNext(cmd, old(Left()), n, c, Left());
        var _, _, _ := GetToken();
        c := Back(c);
        n := n + 1;
        amp := Peek("&");
      }
    }

    /** `parseline`. */
    method ParseLine() returns (r: Option<Cmd>)
      requires Valid()
      modifies this`s
      ensures Valid()
      ensures match G.ParseLine(old(Left()))
              case Fail => r.None?
              case Done(l, rest) => r == Some(LineCmd(l)) && Left() == rest
      decreases |Left()|, 3
    {
      ghost var ts := Left();
      r := ParsePipe();
      if r.None? {
        return;
      }
      ghost var rest := Left();
      var c := ParseAmps(r.value);
      LineFrom(ts, G.ParsePipeline(ts).tree, CountAmps(rest), Left(), rest);
      r := AfterAmps(c);
    }

    // The end of `parseline`: a semicolon and another line, or nothing.
    method AfterAmps(c: Cmd) returns (r: Option<Cmd>)
      requires Valid()
      modifies this`s
      ensures Valid()
      ensures !Starts(old(Left()), Sym(';')) ==> r == Some(c) && Left() == old(Left())
      ensures Starts(old(Left()), Sym(';')) ==>
        match G.ParseLine(old(Left())[1..])
        case Fail => r.None?
        case Done(l, rest) => r == Some(List(c, LineCmd(l))) && Left() == rest
      decreases |Left()|, 1
    {
      var semi := Peek(";");
      if !semi {
        return Some(c);
      }
      var _, _, _ := GetToken();
      var right := ParseLine();
      r := if right.None? then None else Some(List(c, right.value));
    }

    /** `parsepipe`. */
    method ParsePipe() returns (r: Option<Cmd>)
      requires Valid()
      modifies this`s
      ensures Valid()
      ensures match G.ParsePipeline(old(Left()))
              case Fail => r.None?
              case Done(p, rest) => r == Some(PipelineCmd(p)) && Left() == rest
      decreases |Left()|, 2
    {
      r := ParseExec();
      if r.None? {
        return;
      }
      var bar := Peek("|");
      if bar {
        var _, _, _ := GetToken();
        var right := ParsePipe();
        r := if right.None? then None else Some(Pipe(r.value, right.value));
      }
    }

    /** `parseblock`. */
    method ParseBlock() returns (r: Option<Cmd>)
      requires Valid() && PeekAt(Left(), "(")
      modifies this`s
      ensures Valid()
      ensures match G.ParseSimple(old(Left()))
              case Fail => r.None?
              case Done(e, rest) => r == Some(SimpleCmd(e)) && Left() == rest
      decreases |Left()|, 0
    {
      var open := Peek("(");
      if !open {
        return None;
      }
      var _, _, _ := GetToken();
      r := ParseLine();
      if r.None? {
        return;
      }
      var close := Peek(")");
      if !close {
        return None;
      }
      var _, _, _ := GetToken();
      r := ParseRedirs(r.value);
    }

    /** `parseexec`. */
    method ParseExec() returns (r: Option<Cmd>)
      requires Valid()
      modifies this`s
      ensures Valid()
      ensures match G.ParseSimple(old(Left()))
              case Fail => r.None?
              case Done(e, rest) => r == Some(SimpleCmd(e)) && Left() == rest
      decreases |Left()|, 1
    {
      var open := Peek("(");
      if open {
        r := ParseBlock();
      } else {
        r := ParseArgs();
      }
    }

    // `parseexec` when no block follows.
    method ParseArgs() returns (r: Option<Cmd>)
      requires Valid()
      modifies this`s
      ensures Valid()
      ensures match G.ParseItems(old(Left()), 0)
              case Fail => r.None?
              case Done(items, rest) => r == Some(SimpleCmd(Simple(items))) && Left() == rest
    {
      ghost var all := G.ParseItems(Left(), 0);
      ghost var items: seq<Item> := [];
      BuildNone(Left());
      items, r := MoreRedirs(all, items, Exec([]), 0);
      if r.Some? {
        r := MoreArgs(all, items, r.value);
      }
    }

    // The loop of `parseexec`.
    method MoreArgs(ghost all: Parsed<seq<Item>>, ghost items0: seq<Item>, c: Cmd) returns (r: Option<Cmd>)
      requires Valid() && Building(all, items0, c, 0, Left()) && (Left() == [] || !IsOp(Left()[0]))
      modifies this`s
      ensures Valid()
      ensures match all
              case Fail => r.None?
              case Done(items, rest) => r == Some(SimpleCmd(Simple(items))) && Left() == rest
    {
      ghost var items := items0;
      var argc := 0;
      r := Some(c);
      var stop := Peek("|)&;");
      while !stop
        invariant Valid() && r.Some? && Building(all, items, r.value, argc, Left())
        invariant (stop <==> PeekAt(Left(), "|)&;")) && (Left() == [] || !IsOp(Left()[0]))
        decreases |Left()|
      {
        var end;
        PeekStops(Left());
        items, r, end := TakeArg(all, items, r.value, argc);
        if r.None? || end {
          break;
        }
        argc := argc + 1;
        stop := Peek("|)&;");
      }
      PeekStops(Left());
      if r.Some? {
        BuildDone(all, items, r.value, argc, Left());
      }
    }

    // One turn of the loop of `parseexec`; `end` says that the line has ended.
    method TakeArg(ghost all: Parsed<seq<Item>>, ghost items: seq<Item>, c: Cmd, argc: nat)
      returns (ghost items': seq<Item>, r: Option<Cmd>, end: bool)
      requires Valid() && Building(all, items, c, argc, Left())
      requires Left() == [] || (!Stops(Left()[0]) && !IsOp(Left()[0]))
      modifies this`s
      ensures Valid()
      ensures r.None? ==> all.Fail?
      ensures r.Some? && end ==> Left() == [] && Building(all, items', r.value, argc, Left())
      ensures r.Some? && !end ==>
        && Building(all, items', r.value, argc + 1, Left()) && |Left()| < |old(Left())|
        && (Left() == [] || !IsOp(Left()[0]))
    {
      ghost var ts := Left();
      if ts != [] {
        BuildArg(all, items, c, argc, ts);
      }
      var tok, q, eq := GetToken();
      if tok == NUL {
        return items, Some(c), true;
      }
      if tok != 'a' || argc + 1 >= MAXARGS {
        return items, None, false;
      }
      assert ts[0] == Word(q, eq);
      items', r := MoreRedirs(all, items + [Arg(ts[0])], AddArg(c, Word(q, eq)), argc + 1);
      end := false;
    }

    // `parseredirs` around the command under construction.
    method MoreRedirs(ghost all: Parsed<seq<Item>>, ghost items: seq<Item>, c: Cmd, ghost argc: nat)
      returns (ghost items': seq<Item>, r: Option<Cmd>)
      requires Valid() && Building(all, items, c, argc, Left())
      modifies this`s
      ensures Valid()
      ensures r.None? ==> all.Fail?
      ensures r.Some? ==>
        && Building(all, items', r.value, argc, Left()) && |Left()| <= |old(Left())|
        && (Left() == [] || !IsOp(Left()[0]))
    {
      ghost var ts := Left();
      BuildRedirs(all, items, c, argc, ts);
      ghost var redirs := G.ParseRedirs(ts);
      items' := if redirs.Done? then items + redirs.tree else items;
      r := ParseRedirs(c);
      assert redirs.Done? ==> |redirs.rest| <= |ts|;
    }

    /** `nulterminate`: a NUL at the end of every word of `c`, and nothing else. */
    method NulTerminate(c: Cmd)
      requires CmdWords(line, c) && |line| < buf.Length
      modifies buf
      ensures forall i: nat | i < buf.Length :: buf[i] == if EndsAt(c, i) then NUL else old(buf[i])
      decreases c
    {
      match c
      case Exec(argv) =>
        var i := 0;
        while i < |argv|
          invariant i <= |argv|
          invariant forall j: nat | j < buf.Length ::
            buf[j] == if EndsAt(Exec(argv[..i]), j) then NUL else old(buf[j])
        {
          assert argv[i] in argv;
          forall j: nat ensures EndsAt(Exec(argv[..i + 1]), j) <==> EndsAt(Exec(argv[..i]), j) || j == argv[i].hi {
            assert argv[..i + 1] == argv[..i] + [argv[i]] && EndOf(argv[i]) == argv[i].hi;
          }
          buf[argv[i].hi] := NUL;
          i := i + 1;
        }
        assert argv[..i] == argv;
      case Redir(d, file, _, _) =>
        NulTerminate(d);
        buf[file.hi] := NUL;
      case Pipe(l, r) =>
        NulTerminate(l);
        NulTerminate(r);
      case List(l, r) =>
        NulTerminate(l);
        NulTerminate(r);
      case Back(d) =>
        NulTerminate(d);
    }

    /** `parsecmd`: the command of the one tree whose tokens are the whole line, or a panic when there
        is none.  Its words stand in the line in the order that the command has them, and are
        NUL-terminated in place. */
    method ParseCmd() returns (r: Option<Cmd>)
      requires Valid() && s == 0
      modifies this`s, buf
      ensures r.Some? ==> exists l :: IsTree(l, Tokens(line, 0)) && r.value == LineCmd(l)
      ensures r.None? ==> forall l :: !IsTree(l, Tokens(line, 0))
      ensures r.Some? ==> InOrder(line, r.value) && CStrings(buf[..], line, r.value)
      ensures r.Some? ==>
        forall i: nat | i < buf.Length && !EndsAt(r.value, i) :: buf[i] == old(buf[i])
    {
      ghost var ts := Left();
      r := ParseLine();
      if r.None? {
        forall l ensures !IsTree(l, ts) { ParsesExactly(ts, l); }
        return;
      }
      var _ := Peek("");
      if s != es {
        forall l ensures !IsTree(l, ts) { ParsesExactly(ts, l); }
        return None;
      }
      ghost var l := G.ParseLine(ts).tree;
      ParsesExactly(ts, l);
      WordsOfTokens(line, 0);
      LineWords(line, l);
      ghost var end := TokensLexed(line, 0);
      LineLies(line, l, 0, end);
      assert forall i: nat | i < es :: buf[i] == line[i];
      NulTerminate(r.value);
      assert Cut(line, r.value, buf[..]);
      WordsSurvive(line, r.value, buf[..], r.value);
    }
  }
}
