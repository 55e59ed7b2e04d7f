/** The command language of the shell (sh.c): tokens and grammar. */
module ShellSyntax {
  const MAXARGS: nat := 10
  const O_RDONLY: int := 0
  const O_WRONLY: int := 1
  const O_CREATE: int := 0x200

  /** struct cmd and its kinds; a string is an `A`: a token's number, its place in the buffer, or its text. */
  datatype Cmd<A> =
    | ExecCmd(argv: seq<A>)
    | RedirCmd(cmd: Cmd<A>, file: A, mode: int, fd: int)
    | PipeCmd(left: Cmd<A>, right: Cmd<A>)
    | ListCmd(left: Cmd<A>, right: Cmd<A>)
    | BackCmd(cmd: Cmd<A>)

  // ---- tokens ----

  predicate IsSpace(c: char) {
    c == ' ' || c == '\t' || c == '\r' || c == '\n' || c == 11 as char
  }

  predicate IsSymbol(c: char) {
    c == '<' || c == '|' || c == '>' || c == '&' || c == ';' || c == '(' || c == ')'
  }

  /** The first place from `s` on that is not whitespace. */
  function Skip(text: string, s: nat): (r: nat)
    requires s <= |text|
    ensures s <= r <= |text| && (r < |text| ==> !IsSpace(text[r])) && forall i | s <= i < r :: IsSpace(text[i])
    decreases |text| - s
  {
    if s < |text| && IsSpace(text[s]) then Skip(text, s + 1) else s
  }

  /** The end of the word that goes on at `s`. */
  function WordEnd(text: string, s: nat): (r: nat)
    requires s <= |text|
    ensures s <= r <= |text| && (r < |text| ==> IsSpace(text[r]) || IsSymbol(text[r]))
    ensures forall i | s <= i < r :: !IsSpace(text[i]) && !IsSymbol(text[i])
    decreases |text| - s
  {
    if s < |text| && !IsSpace(text[s]) && !IsSymbol(text[s]) then WordEnd(text, s + 1) else s
  }

  /** A token: 'a' for a word, '+' for `>>`, or its own character; it lies from `q` to `eq`. */
  datatype Token = Token(kind: char, q: nat, eq: nat)

  /** The token at `p`, where no whitespace is. */
  function Scan(text: string, p: nat): (t: Token)
    requires p < |text| && !IsSpace(text[p])
    ensures t.q == p < t.eq <= |text|
    ensures t.kind == 'a' <==> !IsSymbol(text[p])
  {
    if text[p] == '>' then
      if p + 1 < |text| && text[p + 1] == '>' then Token('+', p, p + 2) else Token('>', p, p + 1)
    else if IsSymbol(text[p]) then Token(text[p], p, p + 1)
    else Token('a', p, WordEnd(text, p))
  }

  /** The tokens from `s` on. */
  function Lex(text: string, s: nat): seq<Token>
    requires s <= |text|
    decreases |text| - s
  {
    var p := Skip(text, s);
    if p == |text| then [] else var t := Scan(text, p); [t] + Lex(text, t.eq)
  }

  function Kinds(toks: seq<Token>): (r: seq<char>)
    ensures |r| == |toks| && forall i | 0 <= i < |r| :: r[i] == toks[i].kind
  {
    seq(|toks|, i requires 0 <= i < |toks| => toks[i].kind)
  }

  lemma LexSkip(text: string, s: nat)
    requires s <= |text|
    ensures Lex(text, Skip(text, s)) == Lex(text, s)
  {
    var p := Skip(text, s);
    assert Skip(text, p) == p;
  }

  /** Tokens come in order, and words do not touch. */
  lemma {:induction false} LexOrder(text: string, s: nat, i: nat, j: nat)
    requires s <= |text| && i < j < |Lex(text, s)|
    ensures var toks := Lex(text, s);
            && s <= toks[i].q < toks[i].eq <= toks[j].q < toks[j].eq <= |text|
            && (toks[i].kind == 'a' == toks[j].kind ==> toks[i].eq < toks[j].q)
    decreases |text| - s
  {
    var toks, p := Lex(text, s), Skip(text, s);
    var t := Scan(text, p);
    assert toks == [t] + Lex(text, t.eq);
    if i > 0 {
      LexOrder(text, t.eq, i - 1, j - 1);
    } else {
      LexPlace(text, t.eq, j - 1);
    }
  }

  lemma {:induction false} LexPlace(text: string, s: nat, i: nat)
    requires s <= |text| && i < |Lex(text, s)|
    ensures var t := Lex(text, s)[i];
            && s <= t.q < t.eq <= |text|
            && (t.kind == 'a' ==> forall x | t.q <= x < t.eq :: !IsSpace(text[x]) && !IsSymbol(text[x]))
            && (t.kind == 'a' && t.eq < |text| ==> IsSpace(text[t.eq]) || IsSymbol(text[t.eq]))
    decreases |text| - s
  {
    var t := Scan(text, Skip(text, s));
    assert Lex(text, s) == [t] + Lex(text, t.eq);
    if i > 0 {
      LexPlace(text, t.eq, i - 1);
    }
  }

  // ---- the grammar ----

  datatype Error = Syntax | MissingFile | MissingParen | TooManyArgs | Leftovers

  datatype Parse<A> = Ok(val: A, k: nat) | Err(e: Error)

  /** A redirection: the number of the file's token, and what to do. */
  datatype Rd = Rd(file: nat, mode: int, fd: int)

  predicate At(kinds: seq<char>, k: nat, c: char) {
    k < |kinds| && kinds[k] == c
  }

  predicate AtRedir(kinds: seq<char>, k: nat) {
    At(kinds, k, '<') || At(kinds, k, '>') || At(kinds, k, '+')
  }

  /** `>` and `>>` open the file alike. */
  function Redirection(kind: char, file: nat): Rd {
    if kind == '<' then Rd(file, O_RDONLY, 0) else Rd(file, O_WRONLY + O_CREATE, 1)
  }

  /** The redirections from token `k` on, after those in `rs`. */
  function Redirs(kinds: seq<char>, k: nat, rs: seq<Rd>): (r: Parse<seq<Rd>>)
    ensures r.Ok? ==> r.k >= k && (k <= |kinds| ==> r.k <= |kinds|)
    decreases |kinds| - k
  {
    if !AtRedir(kinds, k) then Ok(rs, k)
    else if !At(kinds, k + 1, 'a') then Err(MissingFile)
    else Redirs(kinds, k + 2, rs + [Redirection(kinds[k], k + 1)])
  }

  /** A command inside its redirections, the first one innermost. */
  function Wrap(c: Cmd<nat>, rs: seq<Rd>): Cmd<nat> {
    if rs == [] then c
    else
      var r := rs[|rs| - 1];
      RedirCmd(Wrap(c, rs[..|rs| - 1]), r.file, r.mode, r.fd)
  }

  predicate AtStop(kinds: seq<char>, k: nat) {
    At(kinds, k, '|') || At(kinds, k, ')') || At(kinds, k, '&') || At(kinds, k, ';')
  }

  /** The arguments from token `k` on, with redirections in between. */
  function Args(kinds: seq<char>, k: nat, args: seq<nat>, rs: seq<Rd>): (r: Parse<Cmd<nat>>)
    ensures r.Ok? ==> r.k >= k && (k <= |kinds| ==> r.k <= |kinds|)
    decreases |kinds| - k
  {
    if AtStop(kinds, k) || k >= |kinds| then Ok(Wrap(ExecCmd(args), rs), k)
    else if kinds[k] != 'a' then Err(Syntax)
    else if |args| + 1 >= MAXARGS then Err(TooManyArgs)
    else
      var r := Redirs(kinds, k + 1, rs);
      if r.Err? then Err(r.e) else Args(kinds, r.k, args + [k], r.val)
  }

  /** parseexec and parseblock */
  function PExec(kinds: seq<char>, k: nat): (r: Parse<Cmd<nat>>)
    ensures r.Ok? ==> r.k >= k && (k <= |kinds| ==> r.k <= |kinds|)
    decreases |kinds| - k, 0
  {
    if At(kinds, k, '(') then
      var l := PLine(kinds, k + 1);
      if l.Err? then l
      else if !At(kinds, l.k, ')') then Err(MissingParen)
      else
        var r := Redirs(kinds, l.k + 1, []);
        if r.Err? then Err(r.e) else Ok(Wrap(l.val, r.val), r.k)
    else
      var r := Redirs(kinds, k, []);
      if r.Err? then Err(r.e) else Args(kinds, r.k, [], r.val)
  }

  /** parsepipe */
  function PPipe(kinds: seq<char>, k: nat): (r: Parse<Cmd<nat>>)
    ensures r.Ok? ==> r.k >= k && (k <= |kinds| ==> r.k <= |kinds|)
    decreases |kinds| - k, 1
  {
    var l := PExec(kinds, k);
    if l.Err? || !At(kinds, l.k, '|') then l
    else
      var r := PPipe(kinds, l.k + 1);
      if r.Err? then r else Ok(PipeCmd(l.val, r.val), r.k)
  }

  /** The `&`s behind a pipeline. */
  function Amps(kinds: seq<char>, k: nat, c: Cmd<nat>): (r: (Cmd<nat>, nat))
    ensures r.1 >= k && (k <= |kinds| ==> r.1 <= |kinds|) && !At(kinds, r.1, '&')
    decreases |kinds| - k
  {
    if At(kinds, k, '&') then Amps(kinds, k + 1, BackCmd(c)) else (c, k)
  }

  /** parseline */
  function PLine(kinds: seq<char>, k: nat): (r: Parse<Cmd<nat>>)
    ensures r.Ok? ==> r.k >= k && (k <= |kinds| ==> r.k <= |kinds|)
    decreases |kinds| - k, 2
  {
    var p := PPipe(kinds, k);
    if p.Err? then p
    else
      var (c, j) := Amps(kinds, p.k, p.val);
      if !At(kinds, j, ';') then Ok(c, j)
      else
        var r := PLine(kinds, j + 1);
        if r.Err? then r else Ok(ListCmd(c, r.val), r.k)
  }

  /** parsecmd */
  function PCmd(kinds: seq<char>): Parse<Cmd<nat>> {
    var r := PLine(kinds, 0);
    if r.Ok? && r.k != |kinds| then Err(Leftovers) else r
  }

  /** The tree with the strings that `f` gives for the tokens. */
  function Named<A>(c: Cmd<nat>, f: seq<A>, none: A): Cmd<A> {
    match c
    case ExecCmd(argv) => ExecCmd(Names(argv, f, none))
    case RedirCmd(d, file, mode, fd) => RedirCmd(Named(d, f, none), Name(file, f, none), mode, fd)
    case PipeCmd(l, r) => PipeCmd(Named(l, f, none), Named(r, f, none))
    case ListCmd(l, r) => ListCmd(Named(l, f, none), Named(r, f, none))
    case BackCmd(d) => BackCmd(Named(d, f, none))
  }

  function Name<A>(i: nat, f: seq<A>, none: A): A {
    if i < |f| then f[i] else none
  }

  function Names<A>(argv: seq<nat>, f: seq<A>, none: A): (r: seq<A>)
    ensures |r| == |argv| && forall i | 0 <= i < |r| :: r[i] == Name(argv[i], f, none)
  {
    seq(|argv|, i requires 0 <= i < |argv| => Name(argv[i], f, none))
  }

  /** The strings of a tree are words; it has at most MAXARGS - 1 arguments in one place, and redirections
      open files in one of two ways. */
  predicate Sound(c: Cmd<nat>, kinds: seq<char>) {
    match c
    case ExecCmd(argv) => |argv| < MAXARGS && forall i | 0 <= i < |argv| :: At(kinds, argv[i], 'a')
    case RedirCmd(d, file, mode, fd) => Sound(d, kinds) && At(kinds, file, 'a') && SoundRd(Rd(file, mode, fd), kinds)
    case PipeCmd(l, r) => Sound(l, kinds) && Sound(r, kinds)
    case ListCmd(l, r) => Sound(l, kinds) && Sound(r, kinds)
    case BackCmd(d) => Sound(d, kinds)
  }

  predicate SoundRd(r: Rd, kinds: seq<char>) {
    At(kinds, r.file, 'a') && ((r.mode == O_RDONLY && r.fd == 0) || (r.mode == O_WRONLY + O_CREATE && r.fd == 1))
  }

  predicate SoundRds(rs: seq<Rd>, kinds: seq<char>) {
    forall i | 0 <= i < |rs| :: SoundRd(rs[i], kinds)
  }

  lemma {:induction false} RedirsSound(kinds: seq<char>, k: nat, rs: seq<Rd>)
    requires SoundRds(rs, kinds)
    ensures Redirs(kinds, k, rs).Ok? ==> SoundRds(Redirs(kinds, k, rs).val, kinds)
    decreases |kinds| - k
  {
    if AtRedir(kinds, k) && At(kinds, k + 1, 'a') {
      RedirsSound(kinds, k + 2, rs + [Redirection(kinds[k], k + 1)]);
    }
  }

  lemma {:induction false} WrapSound(c: Cmd<nat>, rs: seq<Rd>, kinds: seq<char>)
    requires Sound(c, kinds) && SoundRds(rs, kinds)
    ensures Sound(Wrap(c, rs), kinds)
  {
    if rs != [] {
      WrapSound(c, rs[..|rs| - 1], kinds);
    }
  }

  lemma {:induction false} ArgsSound(kinds: seq<char>, k: nat, args: seq<nat>, rs: seq<Rd>)
    requires Sound(ExecCmd(args), kinds) && SoundRds(rs, kinds)
    ensures Args(kinds, k, args, rs).Ok? ==> Sound(Args(kinds, k, args, rs).val, kinds)
    decreases |kinds| - k
  {
    if AtStop(kinds, k) || k >= |kinds| {
      WrapSound(ExecCmd(args), rs, kinds);
    } else if kinds[k] == 'a' && |args| + 1 < MAXARGS {
      RedirsSound(kinds, k + 1, rs);
      var r := Redirs(kinds, k + 1, rs);
      if r.Ok? { ArgsSound(kinds, r.k, args + [k], r.val); }
    }
  }

  lemma {:induction false} ExecSound(kinds: seq<char>, k: nat)
    ensures PExec(kinds, k).Ok? ==> Sound(PExec(kinds, k).val, kinds)
    decreases |kinds| - k, 0
  {
    if At(kinds, k, '(') {
      LineSound(kinds, k + 1);
      var l := PLine(kinds, k + 1);
      if l.Ok? && At(kinds, l.k, ')') {
        RedirsSound(kinds, l.k + 1, []);
        var r := Redirs(kinds, l.k + 1, []);
        if r.Ok? { WrapSound(l.val, r.val, kinds); }
      }
    } else {
      RedirsSound(kinds, k, []);
      var r := Redirs(kinds, k, []);
      if r.Ok? { ArgsSound(kinds, r.k, [], r.val); }
    }
  }

  lemma {:induction false} PipeSound(kinds: seq<char>, k: nat)
    ensures PPipe(kinds, k).Ok? ==> Sound(PPipe(kinds, k).val, kinds)
    decreases |kinds| - k, 1
  {
    ExecSound(kinds, k);
    var l := PExec(kinds, k);
    if l.Ok? && At(kinds, l.k, '|') { PipeSound(kinds, l.k + 1); }
  }

  lemma {:induction false} AmpsSound(kinds: seq<char>, k: nat, c: Cmd<nat>)
    requires Sound(c, kinds)
    ensures Sound(Amps(kinds, k, c).0, kinds)
    decreases |kinds| - k
  {
    if At(kinds, k, '&') { AmpsSound(kinds, k + 1, BackCmd(c)); }
  }

  lemma {:induction false} LineSound(kinds: seq<char>, k: nat)
    ensures PLine(kinds, k).Ok? ==> Sound(PLine(kinds, k).val, kinds)
    decreases |kinds| - k, 2
  {
    PipeSound(kinds, k);
    var p := PPipe(kinds, k);
    if p.Ok? {
      AmpsSound(kinds, p.k, p.val);
      var a := Amps(kinds, p.k, p.val);
      if At(kinds, a.1, ';') { LineSound(kinds, a.1 + 1); }
    }
  }
}
