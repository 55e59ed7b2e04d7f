/** The parser of the shell (sh.c): a cursor that moves over the input buffer, and the NULs that
    are written into it at the end. */
module Shell {
  import opened ShellSyntax
  import opened ShellRoundTrip

  datatype Result = Done(cmd: Cmd<Token>) | Panic(e: Error)

  const NOTOKEN: Token := Token('\0', 0, 0)

  /** The tree with its strings as places in the buffer. */
  function Placed(c: Cmd<nat>, all: seq<Token>): Cmd<Token> {
    Named(c, all, NOTOKEN)
  }

  /** `cmd->argv[argc] = q`: the exec command inside the redirections gets another argument. */
  function AddArg(c: Cmd<Token>, t: Token): Cmd<Token> {
    match c
    case ExecCmd(argv) => ExecCmd(argv + [t])
    case RedirCmd(d, file, mode, fd) => RedirCmd(AddArg(d, t), file, mode, fd)
    case _ => c
  }

  lemma {:induction false} ArgAdded(args: seq<nat>, rs: seq<Rd>, all: seq<Token>, k: nat)
    requires k < |all|
    ensures AddArg(Placed(Wrap(ExecCmd(args), rs), all), all[k]) == Placed(Wrap(ExecCmd(args + [k]), rs), all)
  {
    if rs == [] {
      assert Names(args + [k], all, NOTOKEN) == Names(args, all, NOTOKEN) + [all[k]];
    } else {
      ArgAdded(args, rs[..|rs| - 1], all, k);
    }
  }

  lemma PlacedMore(c: Cmd<nat>, rs: seq<Rd>, r: Rd, all: seq<Token>)
    requires r.file < |all|
    ensures Placed(Wrap(c, rs + [r]), all) == RedirCmd(Placed(Wrap(c, rs), all), all[r.file], r.mode, r.fd)
  {
    assert (rs + [r])[..|rs|] == rs;
  }

  /** One turn of the loop of parseredirs. */
  lemma RedirsStep(kinds: seq<char>, k: nat, rs: seq<Rd>)
    ensures !AtRedir(kinds, k) ==> Redirs(kinds, k, rs) == Ok(rs, k)
    ensures AtRedir(kinds, k) && !At(kinds, k + 1, 'a') ==> Redirs(kinds, k, rs) == Err(MissingFile)
    ensures AtRedir(kinds, k) && At(kinds, k + 1, 'a') ==>
      Redirs(kinds, k, rs) == Redirs(kinds, k + 2, rs + [Redirection(kinds[k], k + 1)])
  {
  }

  // ---- the cursor ----

  /** From `s` on, the tokens are those from number `k` on. */
  predicate Place(text: string, s: nat, all: seq<Token>, k: nat) {
    s <= |text| && k <= |all| && Lex(text, s) == all[k..]
  }

  lemma PlaceSkip(text: string, s: nat, all: seq<Token>, k: nat)
    requires Place(text, s, all, k)
    ensures Place(text, Skip(text, s), all, k)
    ensures Skip(text, s) == |text| <==> k == |all|
    ensures k < |all| ==> all[k] == Scan(text, Skip(text, s))
  {
    LexSkip(text, s);
    if Skip(text, s) < |text| {
      assert all[k..][0] == Scan(text, Skip(text, s));
    }
  }

  lemma PlaceNext(text: string, s: nat, all: seq<Token>, k: nat)
    requires Place(text, s, all, k) && k < |all|
    ensures Place(text, all[k].eq, all, k + 1)
  {
    PlaceSkip(text, s, all, k);
    assert all[k..][1..] == all[k + 1..];
  }

  /** Which kind the next token has, by its first character. */
  lemma PeekKind(text: string, s: nat, all: seq<Token>, k: nat, c: char)
    requires Place(text, s, all, k) && IsSymbol(c)
    ensures (Skip(text, s) < |text| && text[Skip(text, s)] == c)
            <==> At(Kinds(all), k, c) || (c == '>' && At(Kinds(all), k, '+'))
  {
    PlaceSkip(text, s, all, k);
  }

  lemma PeekRedir(kinds: seq<char>, k: nat)
    ensures (exists i | 0 <= i < |"<>"| ::
        At(kinds, k, "<>"[i]) || ("<>"[i] == '>' && At(kinds, k, '+'))) <==> AtRedir(kinds, k)
  {
    assert "<>"[0] == '<' && "<>"[1] == '>';
  }

  /** A method read what the grammar says. */
  predicate Read(p: Parse<Cmd<nat>>, r: Result, k: nat, all: seq<Token>) {
    match p
    case Err(e) => r == Panic(e)
    case Ok(c, j) => r == Done(Placed(c, all)) && k == j
  }

  lemma PeekOne(kinds: seq<char>, k: nat, toks: string, c: char)
    requires toks == [c] && c != '>'
    ensures (exists i | 0 <= i < |toks| ::
        At(kinds, k, toks[i]) || (toks[i] == '>' && At(kinds, k, '+'))) <==> At(kinds, k, c)
  {
    assert toks[0] == c;
  }

  lemma PeekStop(kinds: seq<char>, k: nat)
    ensures (exists i | 0 <= i < |"|)&;"| ::
        At(kinds, k, "|)&;"[i]) || ("|)&;"[i] == '>' && At(kinds, k, '+'))) <==> AtStop(kinds, k)
  {
    assert "|)&;"[0] == '|' && "|)&;"[1] == ')' && "|)&;"[2] == '&' && "|)&;"[3] == ';';
  }

  lemma PlacedNothing(all: seq<Token>)
    ensures ExecCmd([]) == Placed(Wrap(ExecCmd([]), []), all)
  {
  }

  lemma WrapNothing(c: Cmd<nat>)
    ensures Wrap(c, []) == c
  {
  }

  lemma PlacedPair(c: Cmd<nat>, d: Cmd<nat>, all: seq<Token>)
    ensures Placed(PipeCmd(c, d), all) == PipeCmd(Placed(c, all), Placed(d, all))
    ensures Placed(ListCmd(c, d), all) == ListCmd(Placed(c, all), Placed(d, all))
  {
  }

  /** The cases of the grammar, one step each. */
  lemma ExecSteps(kinds: seq<char>, k: nat)
    ensures !At(kinds, k, '(') ==>
      var r := Redirs(kinds, k, []);
      PExec(kinds, k) == if r.Err? then Err(r.e) else Args(kinds, r.k, [], r.val)
    ensures At(kinds, k, '(') ==>
      var l := PLine(kinds, k + 1);
      PExec(kinds, k) ==
        if l.Err? then l
        else if !At(kinds, l.k, ')') then Err(MissingParen)
        else
          var r := Redirs(kinds, l.k + 1, []);
          if r.Err? then Err(r.e) else Ok(Wrap(l.val, r.val), r.k)
  {
    hide Redirs, Args, Wrap;
  }

  lemma ArgsStep(kinds: seq<char>, k: nat, args: seq<nat>, rs: seq<Rd>)
    ensures AtStop(kinds, k) || k >= |kinds| ==> Args(kinds, k, args, rs) == Ok(Wrap(ExecCmd(args), rs), k)
    ensures !AtStop(kinds, k) && k < |kinds| ==>
      var r := Redirs(kinds, k + 1, rs);
      Args(kinds, k, args, rs) ==
        if kinds[k] != 'a' then Err(Syntax)
        else if |args| + 1 >= MAXARGS then Err(TooManyArgs)
        else if r.Err? then Err(r.e) else Args(kinds, r.k, args + [k], r.val)
  {
    hide Redirs, Wrap;
  }

  lemma PipeSteps(kinds: seq<char>, k: nat)
    ensures var l := PExec(kinds, k);
            PPipe(kinds, k) ==
              if l.Err? || !At(kinds, l.k, '|') then l
              else var r := PPipe(kinds, l.k + 1); if r.Err? then r else Ok(PipeCmd(l.val, r.val), r.k)
  {
    hide PExec;
  }

  lemma LineSteps(kinds: seq<char>, k: nat)
    ensures var p := PPipe(kinds, k);
            && (p.Err? ==> PLine(kinds, k) == p)
            && (p.Ok? ==>
                  var a := Amps(kinds, p.k, p.val);
                  PLine(kinds, k) ==
                    if !At(kinds, a.1, ';') then Ok(a.0, a.1)
                    else var r := PLine(kinds, a.1 + 1); if r.Err? then r else Ok(ListCmd(a.0, r.val), r.k))
  {
    hide PPipe, Amps;
  }

  lemma AmpsStep(kinds: seq<char>, k: nat, c: Cmd<nat>, all: seq<Token>)
    ensures Amps(kinds, k, c) == if At(kinds, k, '&') then Amps(kinds, k + 1, BackCmd(c)) else (c, k)
    ensures Placed(BackCmd(c), all) == BackCmd(Placed(c, all))
  {
  }

  class Parser {
    const buf: array<char>
    const es: nat
    var s: nat

    /** The buffer holds a string that ends at `es`. */
    predicate Ready()
      reads this, buf
    {
      s <= es < buf.Length && buf[es] == '\0' && forall i | 0 <= i < es :: buf[i] != '\0'
    }

    function Input(): string
      reads this, buf
      requires es < buf.Length
    {
      buf[..es]
    }

    ghost predicate On(all: seq<Token>, k: nat)
      reads this, buf
    {
      Ready() && Place(Input(), s, all, k)
    }

    constructor (buf: array<char>, es: nat)
      requires es < buf.Length && buf[es] == '\0' && forall i | 0 <= i < es :: buf[i] != '\0'
      ensures this.buf == buf && this.es == es && s == 0 && Ready()
    {
      this.buf, this.es, s := buf, es, 0;
    }

    /** The loops over whitespace in gettoken and peek. */
    method SkipSpace()
      requires Ready()
      modifies this`s
      ensures Ready() && s == Skip(Input(), old(s))
    {
      while s < es && IsSpace(buf[s])
        invariant Ready() && Skip(Input(), s) == Skip(Input(), old(s))
      {
        s := s + 1;
      }
    }

    /** gettoken: the kind of the next token, '\0' at the end of the input, and its place. */
    method Gettoken(ghost all: seq<Token>, ghost k: nat) returns (kind: char, q: nat, eq: nat)
      requires On(all, k)
      modifies this`s
      ensures if k < |all| then On(all, k + 1) && Token(kind, q, eq) == all[k] && kind != '\0'
          else On(all, k) && kind == '\0'
    {
      hide Lex, Skip;
      ghost var text, s0 := Input(), s;
      PlaceSkip(text, s, all, k);
      SkipSpace();
      q := s;
      kind := buf[s];
      match buf[s] {
        case '\0' =>
        case '>' =>
          s := s + 1;
          if buf[s] == '>' {
            kind := '+';
            s := s + 1;
          }
        case _ =>
          if IsSymbol(buf[s]) {
            s := s + 1;
          } else {
            kind := 'a';
            while s < es && !IsSpace(buf[s]) && !IsSymbol(buf[s])
              invariant Ready() && s >= q && WordEnd(text, s) == WordEnd(text, q)
            {
              s := s + 1;
            }
          }
      }
      eq := s;
      assert q == Skip(text, s0);
      if q < es {
        assert Scan(text, q) == Token(kind, q, eq);
        PlaceNext(text, s0, all, k);
      } else {
        LexSkip(text, s0);
      }
      ghost var e := s;
      SkipSpace();
      PlaceSkip(text, e, all, if k < |all| then k + 1 else k);
    }

    /** peek: whether the next token starts with one of `toks`. */
    method Peek(toks: string, ghost all: seq<Token>, ghost k: nat) returns (r: bool)
      requires On(all, k) && forall i | 0 <= i < |toks| :: IsSymbol(toks[i])
      modifies this`s
      ensures On(all, k)
      ensures r <==> exists i | 0 <= i < |toks| ::
          At(Kinds(all), k, toks[i]) || (toks[i] == '>' && At(Kinds(all), k, '+'))
      ensures k == |all| ==> s == es
      ensures k < |all| ==> s < es
    {
      hide Lex, Skip;
      ghost var text, s0 := Input(), s;
      SkipSpace();
      PlaceSkip(text, s0, all, k);
      r := s < es && buf[s] in toks;
      forall i | 0 <= i < |toks|
        ensures (s < es && buf[s] == toks[i]) <==>
                At(Kinds(all), k, toks[i]) || (toks[i] == '>' && At(Kinds(all), k, '+'))
      {
        PeekKind(text, s0, all, k, toks[i]);
      }
    }

    /** parseredirs: `c` is `base` inside the redirections `rs`. */
    method Parseredirs(c: Cmd<Token>, ghost base: Cmd<nat>, ghost rs: seq<Rd>, ghost all: seq<Token>, ghost k: nat)
      returns (r: Result, ghost rs': seq<Rd>, ghost k': nat)
      requires On(all, k) && c == Placed(Wrap(base, rs), all)
      modifies this`s
      ensures match Redirs(Kinds(all), k, rs)
              case Err(e) => r == Panic(e)
              case Ok(v, j) => rs' == v && k' == j && On(all, j) && r == Done(Placed(Wrap(base, v), all))
    {
      hide Redirs, Wrap, Placed, Lex, Scan, Place, On;
      var cmd := c;
      rs', k' := rs, k;
      while true
        invariant On(all, k') && cmd == Placed(Wrap(base, rs'), all)
        invariant Redirs(Kinds(all), k', rs') == Redirs(Kinds(all), k, rs)
        decreases |all| - k'
      {
        var more := Peek("<>", all, k');
        PeekRedir(Kinds(all), k');
        RedirsStep(Kinds(all), k', rs');
        if !more { break; }
        var tok, _, _ := Gettoken(all, k');
        var kind, q, eq := Gettoken(all, k' + 1);
        if kind != 'a' {
          return Panic(MissingFile), rs', k';
        }
        var file := Token(kind, q, eq);
        ghost var rd := Redirection(tok, k' + 1);
        PlacedMore(base, rs', rd, all);
        match tok {
          case '<' => cmd := RedirCmd(cmd, file, O_RDONLY, 0);
          case '>' => cmd := RedirCmd(cmd, file, O_WRONLY + O_CREATE, 1);
          case _ => cmd := RedirCmd(cmd, file, O_WRONLY + O_CREATE, 1);
        }
        rs', k' := rs' + [rd], k' + 2;
      }
      r := Done(cmd);
    }

    /** parseexec */
    method Parseexec(ghost all: seq<Token>, ghost k: nat) returns (r: Result, ghost k': nat)
      requires On(all, k)
      modifies this`s
      ensures Read(PExec(Kinds(all), k), r, k', all) && (r.Done? ==> On(all, k'))
      decreases |all| - k, 1
    {
      hide PExec, PLine, Redirs, Args, Wrap, Placed, Lex, Scan, Place, On;
      k' := k;
      var open := Peek("(", all, k);
      PeekOne(Kinds(all), k, "(", '(');
      ExecSteps(Kinds(all), k);
      if open {
        r, k' := Parseblock(all, k);
        return;
      }
      var ret := ExecCmd([]);
      ghost var args: seq<nat>, rs: seq<Rd> := [], [];
      PlacedNothing(all);
      r, rs, k' := Parseredirs(ret, ExecCmd([]), [], all, k);
      if r.Panic? { return; }
      ret := r.cmd;
      var argc := 0;
      while true
        invariant On(all, k') && k' >= k && argc == |args| && ret == Placed(Wrap(ExecCmd(args), rs), all)
        invariant PExec(Kinds(all), k) == Args(Kinds(all), k', args, rs)
        decreases |all| - k'
      {
        var stop := Peek("|)&;", all, k');
        PeekStop(Kinds(all), k');
        ArgsStep(Kinds(all), k', args, rs);
        if stop { break; }
        var tok, q, eq := Gettoken(all, k');
        if tok == '\0' { break; }
        if tok != 'a' {
          return Panic(Syntax), k';
        }
        ret := AddArg(ret, Token(tok, q, eq));
        ArgAdded(args, rs, all, k');
        args := args + [k'];
        argc := argc + 1;
        if argc >= MAXARGS {
          return Panic(TooManyArgs), k';
        }
        ghost var next: nat;
        r, rs, next := Parseredirs(ret, ExecCmd(args), rs, all, k' + 1);
        k' := next;
        if r.Panic? { return; }
        ret := r.cmd;
      }
      r := Done(ret);
    }

    /** parseblock, called before a `(` */
    method Parseblock(ghost all: seq<Token>, ghost k: nat) returns (r: Result, ghost k': nat)
      requires On(all, k) && At(Kinds(all), k, '(')
      modifies this`s
      ensures Read(PExec(Kinds(all), k), r, k', all) && (r.Done? ==> On(all, k'))
      decreases |all| - k, 0
    {
      hide PExec, PLine, Redirs, Args, Wrap, Placed, Lex, Scan, Place, On;
      ExecSteps(Kinds(all), k);
      var _, _, _ := Gettoken(all, k);
      r, k' := Parseline(all, k + 1);
      if r.Panic? { return; }
      var close := Peek(")", all, k');
      PeekOne(Kinds(all), k', ")", ')');
      if !close {
        return Panic(MissingParen), k';
      }
      var _, _, _ := Gettoken(all, k');
      ghost var c := PLine(Kinds(all), k + 1).val;
      WrapNothing(c);
      ghost var rs: seq<Rd>;
      r, rs, k' := Parseredirs(r.cmd, c, [], all, k' + 1);
    }

    /** parsepipe */
    method Parsepipe(ghost all: seq<Token>, ghost k: nat) returns (r: Result, ghost k': nat)
      requires On(all, k)
      modifies this`s
      ensures Read(PPipe(Kinds(all), k), r, k', all) && (r.Done? ==> On(all, k'))
      decreases |all| - k, 2
    {
      hide PPipe, PExec, Placed, Lex, Scan, Place, On;
      PipeSteps(Kinds(all), k);
      r, k' := Parseexec(all, k);
      if r.Panic? { return; }
      ghost var j := k';
      var more := Peek("|", all, j);
      PeekOne(Kinds(all), j, "|", '|');
      if more {
        var cmd := r.cmd;
        var _, _, _ := Gettoken(all, j);
        r, k' := Parsepipe(all, j + 1);
        if r.Panic? { return; }
        PlacedPair(PExec(Kinds(all), k).val, PPipe(Kinds(all), j + 1).val, all);
        r := Done(PipeCmd(cmd, r.cmd));
      }
    }

    /** parseline */
    method Parseline(ghost all: seq<Token>, ghost k: nat) returns (r: Result, ghost k': nat)
      requires On(all, k)
      modifies this`s
      ensures Read(PLine(Kinds(all), k), r, k', all) && (r.Done? ==> On(all, k'))
      decreases |all| - k, 3
    {
      hide PLine, PPipe, Amps, Placed, Lex, Scan, Place, On;
      LineSteps(Kinds(all), k);
      r, k' := Parsepipe(all, k);
      if r.Panic? { return; }
      var cmd := r.cmd;
      ghost var p := PPipe(Kinds(all), k);
      ghost var c := p.val;
      while true
        invariant On(all, k') && k' >= k && cmd == Placed(c, all)
        invariant Amps(Kinds(all), k', c) == Amps(Kinds(all), p.k, p.val)
        decreases |all| - k'
      {
        var more := Peek("&", all, k');
        PeekOne(Kinds(all), k', "&", '&');
        AmpsStep(Kinds(all), k', c, all);
        if !more { break; }
        var _, _, _ := Gettoken(all, k');
        cmd := BackCmd(cmd);
        c, k' := BackCmd(c), k' + 1;
      }
      ghost var j := k';
      var more := Peek(";", all, j);
      PeekOne(Kinds(all), j, ";", ';');
      if more {
        var _, _, _ := Gettoken(all, j);
        r, k' := Parseline(all, j + 1);
        if r.Panic? { return; }
        PlacedPair(c, PLine(Kinds(all), j + 1).val, all);
        r := Done(ListCmd(cmd, r.cmd));
      } else {
        r := Done(cmd);
      }
    }

    /** nulterminate: a NUL at the end of every string of the tree, and no other change. */
    method Nulterminate(c: Cmd<Token>)
      requires forall t <- Leaves(c) :: t.eq < buf.Length
      modifies buf
      ensures buf[..] == Terminated(old(buf[..]), Ends(c))
      decreases c
    {
      match c
      case ExecCmd(argv) =>
        for i := 0 to |argv|
          invariant buf[..] == Terminated(old(buf[..]), EndsOf(argv[..i]))
        {
          assert argv[i] in Leaves(c);
          assert argv[..i + 1] == argv[..i] + [argv[i]];
          buf[argv[i].eq] := '\0';
        }
        assert argv[..|argv|] == argv;
      case RedirCmd(d, file, _, _) =>
        assert file in Leaves(c);
        Nulterminate(d);
        buf[file.eq] := '\0';
      case PipeCmd(l, r) =>
        Nulterminate(l);
        Nulterminate(r);
      case ListCmd(l, r) =>
        Nulterminate(l);
        Nulterminate(r);
      case BackCmd(d) =>
        Nulterminate(d);
    }

    /** parsecmd: what is in the buffer afterwards, read through the tree, is the tree of the grammar. */
    method Parsecmd() returns (r: Result)
      requires Ready() && s == 0
      modifies this`s, buf
      ensures match ParseText(old(Input()))
              case Err(e) => r == Panic(e) && buf[..] == old(buf[..])
              case Ok(c, _) => r.Done? && Texts(r.cmd, buf[..]) == c
    {
      hide PLine, Placed, Lex, Named, Texts, Leaves, Ends;
      ghost var text, b := Input(), buf[..];
      ghost var all := Lex(text, 0);
      ghost var k;
      assert all[0..] == all;
      r, k := Parseline(all, 0);
      if r.Panic? { return; }
      var cmd := r.cmd;
      var _ := Peek("", all, k);
      if s != es {
        return Panic(Leftovers);
      }
      ghost var c := PLine(Kinds(all), 0).val;
      LineSound(Kinds(all), 0);
      LeavesPlaced(c, all, Kinds(all), text);
      Nulterminate(cmd);
      TextsRead(c, text, all, b, buf[..]);
      r := Done(cmd);
    }
  }

  // ---- the strings of a tree in the buffer ----

  function Leaves(c: Cmd<Token>): set<Token> {
    match c
    case ExecCmd(argv) => set i | 0 <= i < |argv| :: argv[i]
    case RedirCmd(d, file, _, _) => Leaves(d) + {file}
    case PipeCmd(l, r) => Leaves(l) + Leaves(r)
    case ListCmd(l, r) => Leaves(l) + Leaves(r)
    case BackCmd(d) => Leaves(d)
  }

  function Ends(c: Cmd<Token>): set<nat> {
    set t | t in Leaves(c) :: t.eq
  }

  function EndsOf(argv: seq<Token>): set<nat> {
    set i | 0 <= i < |argv| :: argv[i].eq
  }

  /** The buffer with NULs at the given places. */
  function Terminated(b: seq<char>, ends: set<nat>): (r: seq<char>)
    ensures |r| == |b| && forall i: nat | i < |b| :: r[i] == if i in ends then '\0' else b[i]
  {
    seq(|b|, i requires 0 <= i < |b| => if i in ends then '\0' else b[i])
  }

  /** The NUL-terminated string at `q`. */
  function CStringAt(b: seq<char>, q: nat): string
    decreases |b| - q
  {
    if q < |b| && b[q] != '\0' then [b[q]] + CStringAt(b, q + 1) else ""
  }

  lemma {:induction false} CStringIs(b: seq<char>, q: nat, eq: nat)
    requires q <= eq < |b| && b[eq] == '\0' && forall i | q <= i < eq :: b[i] != '\0'
    ensures CStringAt(b, q) == b[q..eq]
    decreases eq - q
  {
    if q < eq {
      CStringIs(b, q + 1, eq);
      assert b[q..eq] == [b[q]] + b[q + 1..eq];
    }
  }

  /** The tree with the strings that its places hold. */
  function Texts(c: Cmd<Token>, b: seq<char>): Cmd<string> {
    match c
    case ExecCmd(argv) => ExecCmd(seq(|argv|, i requires 0 <= i < |argv| => CStringAt(b, argv[i].q)))
    case RedirCmd(d, file, mode, fd) => RedirCmd(Texts(d, b), CStringAt(b, file.q), mode, fd)
    case PipeCmd(l, r) => PipeCmd(Texts(l, b), Texts(r, b))
    case ListCmd(l, r) => ListCmd(Texts(l, b), Texts(r, b))
    case BackCmd(d) => BackCmd(Texts(d, b))
  }

  /** The places in a tree are those of words. */
  lemma {:induction false} LeavesPlaced(c: Cmd<nat>, all: seq<Token>, kinds: seq<char>, text: string)
    requires all == Lex(text, 0) && kinds == Kinds(all) && Sound(c, kinds)
    ensures forall t <- Leaves(Placed(c, all)) :: (exists i: nat :: At(kinds, i, 'a') && t == all[i]) && t.eq <= |text|
  {
    match c
    case ExecCmd(argv) =>
      forall i | 0 <= i < |argv|
        ensures At(kinds, argv[i], 'a') && all[argv[i]].eq <= |text|
      {
        LexPlace(text, 0, argv[i]);
      }
    case RedirCmd(d, file, _, _) =>
      LeavesPlaced(d, all, kinds, text);
      LexPlace(text, 0, file);
    case PipeCmd(l, r) => LeavesPlaced(l, all, kinds, text); LeavesPlaced(r, all, kinds, text);
    case ListCmd(l, r) => LeavesPlaced(l, all, kinds, text); LeavesPlaced(r, all, kinds, text);
    case BackCmd(d) => LeavesPlaced(d, all, kinds, text);
  }

  /** No NUL lands inside a word. */
  lemma EndsOutside(text: string, all: seq<Token>, ends: set<nat>, i: nat, x: nat)
    requires all == Lex(text, 0) && At(Kinds(all), i, 'a') && all[i].q <= x < all[i].eq
    requires forall e <- ends :: exists j: nat :: At(Kinds(all), j, 'a') && e == all[j].eq
    ensures x !in ends
  {
    hide Lex;
    if x in ends {
      var j: nat :| At(Kinds(all), j, 'a') && x == all[j].eq;
      if i < j { LexOrder(text, 0, i, j); } else if j < i { LexOrder(text, 0, j, i); }
    }
  }

  /** So each one still reads as its token. */
  lemma WordRead(text: string, all: seq<Token>, b: seq<char>, ends: set<nat>, i: nat)
    requires all == Lex(text, 0) && At(Kinds(all), i, 'a') && |b| > |text| && b[..|text|] == text && '\0' !in text
    requires b[|text|] == '\0' && all[i].eq in ends
    requires forall e <- ends :: exists j: nat :: At(Kinds(all), j, 'a') && e == all[j].eq
    ensures CStringAt(Terminated(b, ends), all[i].q) == TokenTexts(text, all)[i]
  {
    hide Lex, CStringAt, Kinds, TokenTexts;
    LexPlace(text, 0, i);
    var t := all[i];
    forall x: nat | t.q <= x < t.eq
      ensures x !in ends
    {
      EndsOutside(text, all, ends, i, x);
    }
    StringKept(text, b, ends, t.q, t.eq);
    assert TokenTexts(text, all)[i] == text[t.q..t.eq];
  }

  lemma StringKept(text: string, b: seq<char>, ends: set<nat>, q: nat, eq: nat)
    requires |b| > |text| && b[..|text|] == text && '\0' !in text && q <= eq <= |text| && eq in ends
    requires forall x: nat | q <= x < eq :: x !in ends
    ensures CStringAt(Terminated(b, ends), q) == text[q..eq]
  {
    hide CStringAt;
    var r := Terminated(b, ends);
    forall x: nat | q <= x < eq
      ensures r[x] == text[x] && text[x] != '\0'
    {
      assert x !in ends && b[x] == b[..|text|][x];
    }
    CStringIs(r, q, eq);
  }

  lemma {:induction false} TextsPlaced(c: Cmd<nat>, all: seq<Token>, kinds: seq<char>, strs: seq<string>,
           b: seq<char>, ends: set<nat>)
    requires kinds == Kinds(all) && |strs| == |all| && Sound(c, kinds) && Ends(Placed(c, all)) <= ends
    requires forall i: nat | At(kinds, i, 'a') && all[i].eq in ends :: CStringAt(b, all[i].q) == strs[i]
    ensures Texts(Placed(c, all), b) == Named(c, strs, "")
  {
    match c
    case ExecCmd(argv) =>
      var p := Placed(c, all);
      forall i | 0 <= i < |argv|
        ensures CStringAt(b, p.argv[i].q) == strs[argv[i]]
      {
        assert At(kinds, argv[i], 'a') && p.argv[i] == all[argv[i]] && p.argv[i] in Leaves(p);
        assert all[argv[i]].eq in Ends(p);
      }
    case RedirCmd(d, file, _, _) =>
      assert all[file] in Leaves(Placed(c, all)) && all[file].eq in Ends(Placed(c, all));
      TextsPlaced(d, all, kinds, strs, b, ends);
    case PipeCmd(l, r) => TextsPlaced(l, all, kinds, strs, b, ends); TextsPlaced(r, all, kinds, strs, b, ends);
    case ListCmd(l, r) => TextsPlaced(l, all, kinds, strs, b, ends); TextsPlaced(r, all, kinds, strs, b, ends);
    case BackCmd(d) => TextsPlaced(d, all, kinds, strs, b, ends);
  }

  lemma TextsRead(c: Cmd<nat>, text: string, all: seq<Token>, b: seq<char>, r: seq<char>)
    requires all == Lex(text, 0) && Sound(c, Kinds(all)) && r == Terminated(b, Ends(Placed(c, all)))
    requires |b| > |text| && b[..|text|] == text && '\0' !in text && b[|text|] == '\0'
    ensures Texts(Placed(c, all), r) == Named(c, TokenTexts(text, all), "")
  {
    var ends := Ends(Placed(c, all));
    LeavesPlaced(c, all, Kinds(all), text);
    forall e <- ends
      ensures exists j: nat :: At(Kinds(all), j, 'a') && e == all[j].eq
    {
      var t :| t in Leaves(Placed(c, all)) && e == t.eq;
    }
    forall i: nat | At(Kinds(all), i, 'a') && all[i].eq in ends
      ensures CStringAt(r, all[i].q) == TokenTexts(text, all)[i]
    {
      WordRead(text, all, b, ends, i);
    }
    TextsPlaced(c, all, Kinds(all), TokenTexts(text, all), r, ends);
  }
}
