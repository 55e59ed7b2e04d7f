/** The parser reads exactly the texts that are ways to write a command, as the tree that is meant. */
module ShellRoundTrip {
  import opened ShellSyntax
  import opened ShellForms

  /** What parsecmd makes of a text, with the strings in place. */
  function ParseText(text: string): Parse<Cmd<string>> {
    var toks := Lex(text, 0);
    var r := PCmd(Kinds(toks));
    if r.Err? then Err(r.e) else Ok(Named(r.val, TokenTexts(text, toks), ""), r.k)
  }

  function TokenTexts(text: string, toks: seq<Token>): (r: seq<string>)
    ensures |r| == |toks|
    ensures forall i | 0 <= i < |r| && toks[i].q <= toks[i].eq <= |text| :: r[i] == text[toks[i].q..toks[i].eq]
  {
    seq(|toks|, i requires 0 <= i < |toks| =>
      if toks[i].q <= toks[i].eq <= |text| then text[toks[i].q..toks[i].eq] else "")
  }

  // ---- words and tokens ----

  lemma SameCharacters(c: char)
    ensures (IsSpace(c) <==> Blank(c)) && (IsSymbol(c) <==> Special(c))
  {
  }

  /** The kind of token that a word is. */
  function KindOf(w: string): char {
    if w == ">>" then '+' else if w != "" && IsSymbol(w[0]) then w[0] else 'a'
  }

  /** A word that a token can be. */
  predicate IsWord(w: string) {
    if KindOf(w) == 'a' then ValidWord(w) else w == ">>" || |w| == 1
  }

  /** From token `k` on, the input has the words `ws`. */
  predicate Has(kinds: seq<char>, strs: seq<string>, k: nat, ws: seq<string>) {
    && k + |ws| <= |kinds| == |strs|
    && forall i {:trigger ws[i]} | 0 <= i < |ws| :: strs[k + i] == ws[i] && kinds[k + i] == KindOf(ws[i])
  }

  lemma HasParts(kinds: seq<char>, strs: seq<string>, k: nat, a: seq<string>, b: seq<string>)
    ensures Has(kinds, strs, k, a + b) <==> Has(kinds, strs, k, a) && Has(kinds, strs, k + |a|, b)
  {
    assert forall i | 0 <= i < |a| :: a[i] == (a + b)[i];
    assert forall i | 0 <= i < |b| :: b[i] == (a + b)[|a| + i];
    if Has(kinds, strs, k, a) && Has(kinds, strs, k + |a|, b) {
      forall i | 0 <= i < |a + b|
        ensures strs[k + i] == (a + b)[i] && kinds[k + i] == KindOf((a + b)[i])
      {
        if i >= |a| { assert b[i - |a|] == (a + b)[i]; }
      }
    }
  }

  lemma HasOne(kinds: seq<char>, strs: seq<string>, k: nat, w: string)
    requires |kinds| == |strs|
    ensures Has(kinds, strs, k, [w]) <==> k < |kinds| && kinds[k] == KindOf(w) && strs[k] == w
  {
    assert [w][0] == w;
  }

  /** Two pieces with an operator between them. */
  lemma HasInfix(kinds: seq<char>, strs: seq<string>, k: nat, a: seq<string>, w: string, b: seq<string>)
    ensures Has(kinds, strs, k, a + ([w] + b)) <==>
            && |kinds| == |strs| && Has(kinds, strs, k, a) && At(kinds, k + |a|, KindOf(w)) && strs[k + |a|] == w
            && Has(kinds, strs, k + |a| + 1, b)
  {
    HasParts(kinds, strs, k, a, [w] + b);
    HasParts(kinds, strs, k + |a|, [w], b);
    if |kinds| == |strs| { HasOne(kinds, strs, k + |a|, w); }
  }

  // ---- arguments and redirections ----

  /** How far parseexec has come: arguments or a block, and redirections. */
  datatype Head = Heads(args: seq<nat>, rs: seq<Rd>) | Blocks(c: Cmd<nat>, rs: seq<Rd>)

  function Made(h: Head): Cmd<nat> {
    match h
    case Heads(args, rs) => Wrap(ExecCmd(args), rs)
    case Blocks(c, rs) => Wrap(c, rs)
  }

  /** What the rest of parseexec does from token `k` on. */
  function After(kinds: seq<char>, k: nat, h: Head): Parse<Cmd<nat>> {
    var r := Redirs(kinds, k, h.rs);
    if r.Err? then Err(r.e)
    else match h
      case Heads(args, _) => Args(kinds, r.k, args, r.val)
      case Blocks(c, _) => Ok(Wrap(c, r.val), r.k)
  }

  predicate EndOr(kinds: seq<char>, k: nat, stops: string) {
    k >= |kinds| || kinds[k] in stops
  }

  /** At the end or before `|`, `)`, `&` or `;`, nothing more belongs to a simple command. */
  lemma AfterStop(kinds: seq<char>, k: nat, h: Head)
    requires EndOr(kinds, k, "|)&;")
    ensures After(kinds, k, h) == Ok(Made(h), k)
  {
  }

  /** The redirections `rs` are those among the items. */
  ghost predicate Same(rs: seq<Rd>, items: seq<Item>, strs: seq<string>) {
    forall c: Cmd<nat> :: Named(Wrap(c, rs), strs, "") == Redirected(Named(c, strs, ""), items)
  }

  /** The tokens from `k0` to before `k` are these items, with these arguments and redirections. */
  ghost predicate Items(items: seq<Item>, kinds: seq<char>, strs: seq<string>, k0: nat, k: nat, args: seq<nat>,
                        rs: seq<Rd>) {
    && Has(kinds, strs, k0, SpellItems(items)) && k == k0 + |SpellItems(items)|
    && (forall i | 0 <= i < |items| :: ValidItem(items[i]))
    && Names(args, strs, "") == ArgsOf(items) && Same(rs, items, strs)
  }

  lemma NoItems(kinds: seq<char>, strs: seq<string>, k: nat)
    requires k <= |kinds| == |strs|
    ensures Items([], kinds, strs, k, k, [], [])
  {
  }

  lemma MoreArg(items: seq<Item>, kinds: seq<char>, strs: seq<string>, k0: nat, k: nat, args: seq<nat>, rs: seq<Rd>)
    requires Items(items, kinds, strs, k0, k, args, rs) && At(kinds, k, 'a') && k < |strs|
    requires ValidWord(strs[k]) && KindOf(strs[k]) == 'a'
    ensures Items(items + [Arg(strs[k])], kinds, strs, k0, k + 1, args + [k], rs)
  {
    hide Named, Wrap;
    var more := items + [Arg(strs[k])];
    assert more[..|items|] == items;
    assert SpellItems(more) == SpellItems(items) + [strs[k]];
    HasParts(kinds, strs, k0, SpellItems(items), [strs[k]]);
    HasOne(kinds, strs, k, strs[k]);
    assert Names(args + [k], strs, "") == Names(args, strs, "") + [strs[k]];
    assert forall c :: Redirected(c, more) == Redirected(c, items);
  }

  lemma SameMore(rs: seq<Rd>, items: seq<Item>, strs: seq<string>, kind: char, op: string, file: nat)
    requires Same(rs, items, strs) && file < |strs| && kind == KindOf(op) && (op == "<" || op == ">" || op == ">>")
    ensures Same(rs + [Redirection(kind, file)], items + [Redir(op, strs[file])], strs)
  {
    var rs', items' := rs + [Redirection(kind, file)], items + [Redir(op, strs[file])];
    assert rs'[..|rs|] == rs && items'[..|items|] == items;
    forall c: Cmd<nat>
      ensures Named(Wrap(c, rs'), strs, "") == Redirected(Named(c, strs, ""), items')
    {
      assert Named(Wrap(c, rs), strs, "") == Redirected(Named(c, strs, ""), items);
    }
  }

  lemma MoreRedir(items: seq<Item>, kinds: seq<char>, strs: seq<string>, k0: nat, k: nat, args: seq<nat>, rs: seq<Rd>)
    requires Items(items, kinds, strs, k0, k, args, rs) && AtRedir(kinds, k) && At(kinds, k + 1, 'a') && k + 1 < |strs|
    requires kinds[k] == KindOf(strs[k]) && IsWord(strs[k]) && ValidWord(strs[k + 1]) && KindOf(strs[k + 1]) == 'a'
    ensures var it := Redir(strs[k], strs[k + 1]);
            ValidItem(it) && Items(items + [it], kinds, strs, k0, k + 2, args, rs + [Redirection(kinds[k], k + 1)])
  {
    hide Same;
    var it := Redir(strs[k], strs[k + 1]);
    var more := items + [it];
    assert more[..|items|] == items;
    assert SpellItems(more) == SpellItems(items) + ([strs[k]] + [strs[k + 1]]);
    HasParts(kinds, strs, k, [strs[k]], [strs[k + 1]]);
    HasParts(kinds, strs, k0, SpellItems(items), [strs[k]] + [strs[k + 1]]);
    HasOne(kinds, strs, k, strs[k]);
    HasOne(kinds, strs, k + 1, strs[k + 1]);
    assert ArgsOf(more) == ArgsOf(items);
    SameMore(rs, items, strs, kinds[k], strs[k], k + 1);
  }

  // ---- a written form is read ----

  lemma WordKind(w: string)
    requires ValidWord(w)
    ensures KindOf(w) == 'a'
  {
    SameCharacters(w[0]);
  }

  lemma ArgRead(kinds: seq<char>, k: nat, args: seq<nat>, rs: seq<Rd>)
    requires At(kinds, k, 'a') && |args| + 1 < MAXARGS
    ensures After(kinds, k, Heads(args, rs)) == After(kinds, k + 1, Heads(args + [k], rs))
  {
  }

  lemma RedirRead(kinds: seq<char>, k: nat, h: Head)
    requires AtRedir(kinds, k) && At(kinds, k + 1, 'a')
    ensures After(kinds, k, h) == After(kinds, k + 2, h.(rs := h.rs + [Redirection(kinds[k], k + 1)]))
  {
  }

  lemma {:induction false} FewerArgs(items: seq<Item>, n: nat)
    requires n <= |items|
    ensures |ArgsOf(items[..n])| <= |ArgsOf(items)|
  {
    if n < |items| {
      FewerArgs(items[..|items| - 1], n);
      assert items[..|items| - 1][..n] == items[..n];
    } else {
      assert items[..n] == items;
    }
  }

  /** From token `k` on, the parser came to token `j` with these arguments and redirections; and with the
      redirections behind a block, if `behind`. */
  ghost predicate Came(kinds: seq<char>, k: nat, j: nat, args: seq<nat>, rs: seq<Rd>, behind: bool) {
    && After(kinds, k, Heads([], [])) == After(kinds, j, Heads(args, rs))
    && (behind ==> args == [] && forall c :: After(kinds, k, Blocks(c, [])) == After(kinds, j, Blocks(c, rs)))
  }

  lemma CameToArg(kinds: seq<char>, k: nat, j: nat, args: seq<nat>, rs: seq<Rd>)
    requires Came(kinds, k, j, args, rs, false) && At(kinds, j, 'a') && |args| + 1 < MAXARGS
    ensures Came(kinds, k, j + 1, args + [j], rs, false)
  {
    hide After;
    ArgRead(kinds, j, args, rs);
  }

  lemma CameToRedir(kinds: seq<char>, k: nat, j: nat, args: seq<nat>, rs: seq<Rd>, behind: bool)
    requires Came(kinds, k, j, args, rs, behind) && AtRedir(kinds, j) && At(kinds, j + 1, 'a')
    ensures Came(kinds, k, j + 2, args, rs + [Redirection(kinds[j], j + 1)], behind)
  {
    hide After;
    RedirRead(kinds, j, Heads(args, rs));
    if behind {
      forall c
        ensures After(kinds, k, Blocks(c, [])) == After(kinds, j + 2, Blocks(c, rs + [Redirection(kinds[j], j + 1)]))
      {
        RedirRead(kinds, j, Blocks(c, rs));
      }
    }
  }

  /** One more item. */
  lemma ItemRead(init: seq<Item>, last: Item, kinds: seq<char>, strs: seq<string>, k: nat, j: nat, args: seq<nat>,
                 rs: seq<Rd>, behind: bool) returns (args': seq<nat>, rs': seq<Rd>, j': nat)
    requires Items(init, kinds, strs, k, j, args, rs) && Came(kinds, k, j, args, rs, behind) && ValidItem(last)
    requires Has(kinds, strs, j, if last.Arg? then [last.text] else [last.op, last.file])
    requires last.Arg? ==> !behind && |args| + 1 < MAXARGS
    ensures Items(init + [last], kinds, strs, k, j', args', rs') && Came(kinds, k, j', args', rs', behind)
  {
    hide Came, Items;
    if last.Arg? {
      HasOne(kinds, strs, j, last.text);
      WordKind(last.text);
      CameToArg(kinds, k, j, args, rs);
      MoreArg(init, kinds, strs, k, j, args, rs);
      args', rs', j' := args + [j], rs, j + 1;
    } else {
      assert [last.op, last.file] == [last.op] + [last.file];
      HasParts(kinds, strs, j, [last.op], [last.file]);
      HasOne(kinds, strs, j, last.op);
      HasOne(kinds, strs, j + 1, last.file);
      WordKind(last.file);
      CameToRedir(kinds, k, j, args, rs, behind);
      MoreRedir(init, kinds, strs, k, j, args, rs);
      args', rs', j' := args, rs + [Redirection(kinds[j], j + 1)], j + 2;
    }
  }

  lemma {:induction false} ItemsRead(items: seq<Item>, kinds: seq<char>, strs: seq<string>, k: nat, behind: bool)
    returns (args: seq<nat>, rs: seq<Rd>, j: nat)
    requires Has(kinds, strs, k, SpellItems(items)) && |ArgsOf(items)| < MAXARGS
    requires forall i | 0 <= i < |items| :: ValidItem(items[i]) && (behind ==> items[i].Redir?)
    ensures Items(items, kinds, strs, k, j, args, rs) && Came(kinds, k, j, args, rs, behind)
  {
    if items == [] {
      args, rs, j := [], [], k;
      NoItems(kinds, strs, k);
    } else {
      var n := |items| - 1;
      var init, last := items[..n], items[n];
      hide After, Items, Came;
      assert items == init + [last];
      FewerArgs(items, n);
      HasParts(kinds, strs, k, SpellItems(init), if last.Arg? then [last.text] else [last.op, last.file]);
      assert ValidItem(last);
      args, rs, j := ItemsRead(init, kinds, strs, k, behind);
      ItemsAre(init, kinds, strs, k, j, args, rs);
      args, rs, j := ItemRead(init, last, kinds, strs, k, j, args, rs, behind);
    }
  }

  lemma ItemsAre(items: seq<Item>, kinds: seq<char>, strs: seq<string>, k0: nat, k: nat, args: seq<nat>, rs: seq<Rd>)
    requires Items(items, kinds, strs, k0, k, args, rs)
    ensures k == k0 + |SpellItems(items)| && |args| == |ArgsOf(items)| && Names(args, strs, "") == ArgsOf(items)
    ensures forall c: Cmd<nat> :: Named(Wrap(c, rs), strs, "") == Redirected(Named(c, strs, ""), items)
    ensures Has(kinds, strs, k0, SpellItems(items)) && forall i | 0 <= i < |items| :: ValidItem(items[i])
  {
    hide Named, Wrap, Has;
  }

  /** A simple command or a block, up to where more of it might follow. */
  lemma {:induction false} ExecRead(f: Form, kinds: seq<char>, strs: seq<string>, k: nat) returns (h: Head)
    requires IsForm(f, 3) && Has(kinds, strs, k, Spell(f)) && !At(kinds, k + |Spell(f)|, '(')
    ensures PExec(kinds, k) == After(kinds, k + |Spell(f)|, h) && Named(Made(h), strs, "") == Meaning(f)
    decreases f, 1
  {
    if f.Simple? {
      h := SimpleRead(f.items, kinds, strs, k);
    } else {
      h := BlockRead(f, kinds, strs, k);
    }
  }

  lemma SimpleRead(items: seq<Item>, kinds: seq<char>, strs: seq<string>, k: nat) returns (h: Head)
    requires IsForm(Simple(items), 3) && Has(kinds, strs, k, SpellItems(items))
    requires !At(kinds, k + |SpellItems(items)|, '(')
    ensures PExec(kinds, k) == After(kinds, k + |SpellItems(items)|, h)
    ensures Named(Made(h), strs, "") == Meaning(Simple(items))
  {
    StartsOpen(items, kinds, strs, k);
    var args, rs, j := ItemsRead(items, kinds, strs, k, false);
    ItemsAre(items, kinds, strs, k, j, args, rs);
    h := Heads(args, rs);
    hide Redirs, Args, Wrap, Has;
  }

  /** No item starts with a parenthesis. */
  lemma StartsOpen(items: seq<Item>, kinds: seq<char>, strs: seq<string>, k: nat)
    requires Has(kinds, strs, k, SpellItems(items)) && (forall i | 0 <= i < |items| :: ValidItem(items[i]))
    requires !At(kinds, k + |SpellItems(items)|, '(')
    ensures !At(kinds, k, '(')
  {
    if |items| > 0 {
      FirstItem(items);
      assert kinds[k + 0] == KindOf(SpellItems(items)[0]);
    }
  }

  lemma {:induction false} FirstItem(items: seq<Item>)
    requires |items| > 0 && forall i | 0 <= i < |items| :: ValidItem(items[i])
    ensures |SpellItems(items)| > 0 && KindOf(SpellItems(items)[0]) != '('
  {
    var n := |items| - 1;
    if n > 0 { FirstItem(items[..n]); }
    assert ValidItem(items[n]);
    if items[n].Arg? { WordKind(items[n].text); }
  }

  lemma {:induction false} BlockRead(f: Form, kinds: seq<char>, strs: seq<string>, k: nat) returns (h: Head)
    requires f.Block? && IsForm(f, 3) && Has(kinds, strs, k, Spell(f))
    ensures PExec(kinds, k) == After(kinds, k + |Spell(f)|, h) && Named(Made(h), strs, "") == Meaning(f)
    decreases f, 0
  {
    hide Redirs, Args, Spell, Has, Wrap, PExec, PLine, After, Items;
    var inner, behind, close := Spell(f.line), SpellItems(f.redirs), k + 1 + |Spell(f.line)|;
    BlockHas(f, kinds, strs, k);
    var d := LineRead(f.line, kinds, strs, k + 1);
    NoArgs(f.redirs);
    var args, rs, j := ItemsRead(f.redirs, kinds, strs, close + 1, true);
    ItemsAre(f.redirs, kinds, strs, close + 1, j, args, rs);
    h := Blocks(d, rs);
    OpenBlock(kinds, k, d, close);
    assert After(kinds, close + 1, Blocks(d, [])) == After(kinds, j, h);
  }

  lemma BlockHas(f: Form, kinds: seq<char>, strs: seq<string>, k: nat)
    requires f.Block? && Has(kinds, strs, k, Spell(f))
    ensures var close := k + 1 + |Spell(f.line)|;
            && Has(kinds, strs, k + 1, Spell(f.line)) && Has(kinds, strs, close + 1, SpellItems(f.redirs))
            && At(kinds, k, '(') && At(kinds, close, ')') && |Spell(f)| == close + 1 + |SpellItems(f.redirs)| - k
  {
    var inner, behind := Spell(f.line), SpellItems(f.redirs);
    assert Spell(f) == ["("] + (inner + ([")"] + behind));
    hide Has, Spell;
    HasParts(kinds, strs, k, ["("], inner + ([")"] + behind));
    HasSize(kinds, strs, k, Spell(f));
    HasOne(kinds, strs, k, "(");
    HasInfix(kinds, strs, k + 1, inner, ")", behind);
  }

  lemma HasSize(kinds: seq<char>, strs: seq<string>, k: nat, ws: seq<string>)
    requires Has(kinds, strs, k, ws)
    ensures k + |ws| <= |kinds| == |strs|
  {
  }

  lemma OpenBlock(kinds: seq<char>, k: nat, d: Cmd<nat>, close: nat)
    requires At(kinds, k, '(') && PLine(kinds, k + 1) == Ok(d, close) && At(kinds, close, ')')
    ensures PExec(kinds, k) == After(kinds, close + 1, Blocks(d, []))
  {
    hide Redirs, Wrap;
  }

  lemma {:induction false} NoArgs(items: seq<Item>)
    requires forall i | 0 <= i < |items| :: items[i].Redir?
    ensures ArgsOf(items) == []
  {
    if items != [] { NoArgs(items[..|items| - 1]); }
  }

  lemma {:induction false} PipeRead(f: Form, kinds: seq<char>, strs: seq<string>, k: nat) returns (d: Cmd<nat>)
    requires IsForm(f, 2) && Has(kinds, strs, k, Spell(f)) && EndOr(kinds, k + |Spell(f)|, ")&;")
    ensures PPipe(kinds, k) == Ok(d, k + |Spell(f)|) && Named(d, strs, "") == Meaning(f)
    decreases f, 2
  {
    hide Has, PExec, After, Made;
    if f.Pipe? {
      var l, r := Spell(f.left), Spell(f.right);
      HasInfix(kinds, strs, k, l, "|", r);
      hide Spell;
      var h := ExecRead(f.left, kinds, strs, k);
      AfterStop(kinds, k + |l|, h);
      var e := PipeRead(f.right, kinds, strs, k + |l| + 1);
      d := PipeCmd(Made(h), e);
    } else {
      hide Spell, Named;
      var h := ExecRead(f, kinds, strs, k);
      AfterStop(kinds, k + |Spell(f)|, h);
      d := Made(h);
    }
  }

  lemma {:induction false} BackRead(f: Form, kinds: seq<char>, strs: seq<string>, k: nat) returns (d: Cmd<nat>)
    requires IsForm(f, 1) && Has(kinds, strs, k, Spell(f)) && EndOr(kinds, k + |Spell(f)|, ")&;")
    ensures var p := PPipe(kinds, k);
            && p.Ok? && Amps(kinds, p.k, p.val) == Amps(kinds, k + |Spell(f)|, d) && Named(d, strs, "") == Meaning(f)
    decreases f, 3
  {
    if f.Back? {
      var inner := Spell(f.form);
      HasParts(kinds, strs, k, inner, ["&"]);
      HasOne(kinds, strs, k + |inner|, "&");
      var e := BackRead(f.form, kinds, strs, k);
      d := BackCmd(e);
    } else {
      d := PipeRead(f, kinds, strs, k);
    }
  }

  /** Parsing a written form, whatever follows it, gives what it means, and stops behind it. */
  lemma {:induction false} LineRead(f: Form, kinds: seq<char>, strs: seq<string>, k: nat) returns (d: Cmd<nat>)
    requires IsForm(f, 0) && Has(kinds, strs, k, Spell(f)) && EndOr(kinds, k + |Spell(f)|, ")")
    ensures PLine(kinds, k) == Ok(d, k + |Spell(f)|) && Named(d, strs, "") == Meaning(f)
    decreases f, 4
  {
    hide Has, PPipe;
    if f.List? {
      var l, r := Spell(f.left), Spell(f.right);
      HasInfix(kinds, strs, k, l, ";", r);
      hide Spell;
      var a := BackRead(f.left, kinds, strs, k);
      var b := LineRead(f.right, kinds, strs, k + |l| + 1);
      d := ListCmd(a, b);
    } else {
      hide Spell, Named;
      d := BackRead(f, kinds, strs, k);
    }
  }

  // ---- what is read was written ----

  /** Tokens and their texts. */
  predicate Good(kinds: seq<char>, strs: seq<string>) {
    |kinds| == |strs| && forall i | 0 <= i < |kinds| :: kinds[i] == KindOf(strs[i]) && IsWord(strs[i])
  }

  /** The form was read from token `k` on. */
  ghost predicate Was(f: Form, level: nat, kinds: seq<char>, strs: seq<string>, k: nat, c: Cmd<nat>, j: nat) {
    IsForm(f, level) && Has(kinds, strs, k, Spell(f)) && j == k + |Spell(f)| && Named(c, strs, "") == Meaning(f)
  }

  lemma {:induction false} RedirsForm(kinds: seq<char>, strs: seq<string>, k0: nat, k: nat, items: seq<Item>, args: seq<nat>,
           rs: seq<Rd>) returns (items': seq<Item>)
    requires Good(kinds, strs) && Items(items, kinds, strs, k0, k, args, rs)
    ensures var r := Redirs(kinds, k, rs); r.Ok? ==>
      && Items(items', kinds, strs, k0, r.k, args, r.val)
      && ((forall i | 0 <= i < |items| :: items[i].Redir?) ==> forall i | 0 <= i < |items'| :: items'[i].Redir?)
    decreases |kinds| - k
  {
    hide Items;
    items' := items;
    if AtRedir(kinds, k) && At(kinds, k + 1, 'a') {
      MoreRedir(items, kinds, strs, k0, k, args, rs);
      items' := RedirsForm(kinds, strs, k0, k + 2, items + [Redir(strs[k], strs[k + 1])], args,
          rs + [Redirection(kinds[k], k + 1)]);
    }
  }

  lemma {:induction false} ArgsForm(kinds: seq<char>, strs: seq<string>, k0: nat, k: nat, items: seq<Item>, args: seq<nat>,
           rs: seq<Rd>) returns (f: Form)
    requires Good(kinds, strs) && Items(items, kinds, strs, k0, k, args, rs) && |args| < MAXARGS
    ensures var r := Args(kinds, k, args, rs); r.Ok? ==> Was(f, 3, kinds, strs, k0, r.val, r.k)
    decreases |kinds| - k
  {
    f := Simple(items);
    if AtStop(kinds, k) || k >= |kinds| {
      ItemsAre(items, kinds, strs, k0, k, args, rs);
    } else if kinds[k] == 'a' && |args| + 1 < MAXARGS {
      hide Items, Was;
      MoreArg(items, kinds, strs, k0, k, args, rs);
      var more := RedirsForm(kinds, strs, k0, k + 1, items + [Arg(strs[k])], args + [k], rs);
      var r := Redirs(kinds, k + 1, rs);
      if r.Ok? { f := ArgsForm(kinds, strs, k0, r.k, more, args + [k], r.val); }
    }
  }

  lemma {:induction false} ExecForm(kinds: seq<char>, strs: seq<string>, k: nat) returns (f: Form)
    requires Good(kinds, strs) && k <= |kinds|
    ensures var r := PExec(kinds, k); r.Ok? ==> Was(f, 3, kinds, strs, k, r.val, r.k)
    decreases |kinds| - k, 0
  {
    hide Was, Items, Redirs, Args, Wrap, Has;
    f := Simple([]);
    if At(kinds, k, '(') {
      var line := LineForm(kinds, strs, k + 1);
      var l := PLine(kinds, k + 1);
      if l.Ok? && At(kinds, l.k, ')') {
        NoItems(kinds, strs, l.k + 1);
        var redirs := RedirsForm(kinds, strs, l.k + 1, l.k + 1, [], [], []);
        var r := Redirs(kinds, l.k + 1, []);
        if r.Ok? {
          f := Block(line, redirs);
          BlockForm(line, redirs, kinds, strs, k, l.val, l.k, r.val, r.k);
        }
      }
    } else {
      NoItems(kinds, strs, k);
      var items := RedirsForm(kinds, strs, k, k, [], [], []);
      var r := Redirs(kinds, k, []);
      if r.Ok? { f := ArgsForm(kinds, strs, k, r.k, items, [], r.val); }
    }
  }

  lemma BlockForm(line: Form, redirs: seq<Item>, kinds: seq<char>, strs: seq<string>, k: nat, c: Cmd<nat>, close: nat,
                  rs: seq<Rd>, j: nat)
    requires Good(kinds, strs) && At(kinds, k, '(') && At(kinds, close, ')') && Was(line, 0, kinds, strs, k + 1, c, close)
    requires Items(redirs, kinds, strs, close + 1, j, [], rs) && forall i | 0 <= i < |redirs| :: redirs[i].Redir?
    ensures Was(Block(line, redirs), 3, kinds, strs, k, Wrap(c, rs), j)
  {
    hide Has;
    ItemsAre(redirs, kinds, strs, close + 1, j, [], rs);
    var inner, behind := Spell(line), SpellItems(redirs);
    assert Spell(Block(line, redirs)) == ["("] + (inner + ([")"] + behind));
    assert strs[k] == "(" && strs[close] == ")";
    HasInfix(kinds, strs, k + 1, inner, ")", behind);
    HasOne(kinds, strs, k, "(");
    HasParts(kinds, strs, k, ["("], inner + ([")"] + behind));
  }

  /** Two forms with an operator between them. */
  lemma BothForms(a: Form, b: Form, op: char, kinds: seq<char>, strs: seq<string>, k: nat, la: nat, lb: nat, c: Cmd<nat>,
                  d: Cmd<nat>, i: nat, j: nat)
    requires Good(kinds, strs) && Was(a, la, kinds, strs, k, c, i) && At(kinds, i, op) && Was(b, lb, kinds, strs, i + 1, d, j)
    ensures op == '|' && la == 3 && lb == 2 ==> Was(Pipe(a, b), 2, kinds, strs, k, PipeCmd(c, d), j)
    ensures op == ';' && la == 1 && lb == 0 ==> Was(List(a, b), 0, kinds, strs, k, ListCmd(c, d), j)
  {
    hide Has;
    HasInfix(kinds, strs, k, Spell(a), [op], Spell(b));
    assert op == '|' || op == ';' ==> strs[i] == [op];
  }

  lemma Lower(f: Form, level: nat, kinds: seq<char>, strs: seq<string>, k: nat, c: Cmd<nat>, j: nat)
    requires level > 0 && Was(f, level, kinds, strs, k, c, j)
    ensures Was(f, level - 1, kinds, strs, k, c, j)
  {
  }

  lemma {:induction false} PipeForm(kinds: seq<char>, strs: seq<string>, k: nat) returns (f: Form)
    requires Good(kinds, strs) && k <= |kinds|
    ensures var r := PPipe(kinds, k); r.Ok? ==> Was(f, 2, kinds, strs, k, r.val, r.k)
    decreases |kinds| - k, 1
  {
    hide Was, PExec;
    f := ExecForm(kinds, strs, k);
    var l := PExec(kinds, k);
    if l.Ok? {
      if At(kinds, l.k, '|') {
        var g := PipeForm(kinds, strs, l.k + 1);
        var r := PPipe(kinds, l.k + 1);
        if r.Ok? {
          BothForms(f, g, '|', kinds, strs, k, 3, 2, l.val, r.val, l.k, r.k);
          f := Pipe(f, g);
        }
      } else {
        Lower(f, 3, kinds, strs, k, l.val, l.k);
      }
    }
  }

  lemma {:induction false} AmpsForm(kinds: seq<char>, strs: seq<string>, k: nat, f: Form, c: Cmd<nat>, j: nat) returns (g: Form)
    requires Good(kinds, strs) && Was(f, 1, kinds, strs, k, c, j)
    ensures Was(g, 1, kinds, strs, k, Amps(kinds, j, c).0, Amps(kinds, j, c).1)
    decreases |kinds| - j
  {
    g := f;
    if At(kinds, j, '&') {
      HasParts(kinds, strs, k, Spell(f), ["&"]);
      HasOne(kinds, strs, j, "&");
      assert strs[j] == "&";
      g := AmpsForm(kinds, strs, k, Back(f), BackCmd(c), j + 1);
    }
  }

  lemma {:induction false} LineForm(kinds: seq<char>, strs: seq<string>, k: nat) returns (f: Form)
    requires Good(kinds, strs) && k <= |kinds|
    ensures var r := PLine(kinds, k); r.Ok? ==> Was(f, 0, kinds, strs, k, r.val, r.k)
    decreases |kinds| - k, 2
  {
    hide Was, PPipe, Amps;
    f := PipeForm(kinds, strs, k);
    var p := PPipe(kinds, k);
    if p.Ok? {
      Lower(f, 2, kinds, strs, k, p.val, p.k);
      f := AmpsForm(kinds, strs, k, f, p.val, p.k);
      var a := Amps(kinds, p.k, p.val);
      if At(kinds, a.1, ';') {
        var g := LineForm(kinds, strs, a.1 + 1);
        var r := PLine(kinds, a.1 + 1);
        if r.Ok? {
          BothForms(f, g, ';', kinds, strs, k, 1, 0, a.0, r.val, a.1, r.k);
          f := List(f, g);
        }
      } else {
        Lower(f, 1, kinds, strs, k, a.0, a.1);
      }
    }
  }

  // ---- from text to tokens and back ----

  /** The tokens are the words `ws`. */
  predicate AllRead(text: string, toks: seq<Token>, ws: seq<string>) {
    |toks| == |ws| && forall i | 0 <= i < |ws| ::
      toks[i].kind == KindOf(ws[i]) && toks[i].q <= toks[i].eq <= |text| && text[toks[i].q..toks[i].eq] == ws[i]
  }

  lemma AllReadOneMore(text: string, t: Token, toks: seq<Token>, ws: seq<string>)
    requires ws != [] && AllRead(text, toks, ws[1..])
    requires t.kind == KindOf(ws[0]) && t.q <= t.eq <= |text| && text[t.q..t.eq] == ws[0]
    ensures AllRead(text, [t] + toks, ws)
  {
    forall i | 1 <= i < |ws|
      ensures ws[i] == ws[1..][i - 1]
    {
    }
  }

  /** What stands behind a word does not belong to it. */
  predicate EndsAt(text: string, e: nat, w: string) {
    e < |text| ==>
      if KindOf(w) == 'a' then IsSpace(text[e]) || IsSymbol(text[e]) else w == ">" ==> text[e] != '>'
  }

  lemma ScanWord(text: string, s: nat, w: string)
    requires IsWord(w) && w != "" && s + |w| <= |text| && text[s..s + |w|] == w && EndsAt(text, s + |w|, w)
    ensures !IsSpace(text[s]) && Scan(text, s) == Token(KindOf(w), s, s + |w|)
  {
    assert text[s] == w[0];
    assert forall i | 0 <= i < |w| :: text[s + i] == w[i];
    SameCharacters(w[0]);
    if KindOf(w) == 'a' {
      forall i {:trigger w[i]} | 0 <= i < |w|
        ensures !IsSpace(text[s + i]) && !IsSymbol(text[s + i])
      {
        SameCharacters(w[i]);
      }
      WordEndIs(text, s, s + |w|);
    }
  }

  lemma {:induction false} WordEndIs(text: string, s: nat, e: nat)
    requires s <= e <= |text| && forall i | s <= i < e :: !IsSpace(text[i]) && !IsSymbol(text[i])
    requires e < |text| ==> IsSpace(text[e]) || IsSymbol(text[e])
    ensures WordEnd(text, s) == e
    decreases e - s
  {
    if s < e { WordEndIs(text, s + 1, e); }
  }

  lemma {:induction false} SkipBlank(text: string, s: nat, e: nat)
    requires s <= e <= |text| && forall i | s <= i < e :: Blank(text[i])
    ensures Skip(text, s) == Skip(text, e) && Lex(text, s) == Lex(text, e)
    decreases e - s
  {
    if s < e {
      SameCharacters(text[s]);
      SkipBlank(text, s + 1, e);
    }
  }

  /** A spaced text is its first gap, its first word, and a spaced text. */
  lemma SpacedParts(text: string, s: nat, ws: seq<string>, gaps: seq<string>)
    requires |gaps| == |ws| + 1 && s <= |text| && text[s..] == Spaced(ws, gaps)
    ensures s + |gaps[0]| <= |text| && text[s..s + |gaps[0]|] == gaps[0]
    ensures ws == [] ==> s + |gaps[0]| == |text|
    ensures ws != [] ==>
      var b := s + |gaps[0]|;
      b + |ws[0]| <= |text| && text[b..b + |ws[0]|] == ws[0] && text[b + |ws[0]|..] == Spaced(ws[1..], gaps[1..])
  {
    var n := |gaps[0]|;
    if ws == [] {
    } else {
      var w, rest := ws[0], Spaced(ws[1..], gaps[1..]);
      assert text[s..] == gaps[0] + (w + rest);
      assert text[s..s + n] == text[s..][..n] == gaps[0];
      assert text[s + n..] == text[s..][n..] == w + rest;
      assert text[s + n..s + n + |w|] == text[s + n..][..|w|];
      assert text[s + n + |w|..] == text[s + n..][|w|..];
    }
  }

  predicate AllWords(ws: seq<string>) {
    forall i | 0 <= i < |ws| :: IsWord(ws[i]) && ws[i] != ""
  }

  /** The word in front of a spaced text ends there. */
  lemma WordEnds(text: string, e: nat, w: string, ws: seq<string>, gaps: seq<string>)
    requires e <= |text| && Gaps([w] + ws, [""] + gaps) && AllWords([w] + ws) && text[e..] == Spaced(ws, gaps)
    ensures EndsAt(text, e, w)
  {
    SpacedParts(text, e, ws, gaps);
    assert ([""] + gaps)[1] == gaps[0] && ([w] + ws)[0] == w;
    if gaps[0] != "" {
      assert Blank(([""] + gaps)[1][0]);
      assert text[e] == text[e..e + |gaps[0]|][0];
      SameCharacters(text[e]);
    } else if ws != [] {
      assert ([w] + ws)[1] == ws[0] && IsWord(([w] + ws)[1]);
      assert !Touchy(w, ws[0]);
      assert text[e] == text[e..e + |ws[0]|][0] == ws[0][0];
      SameCharacters(ws[0][0]);
      SameCharacters(w[0]);
    }
  }

  lemma GapsTail(w: string, ws: seq<string>, gaps: seq<string>)
    requires Gaps([w] + ws, gaps) && AllWords([w] + ws)
    ensures Gaps(ws, gaps[1..]) && AllWords(ws) && Gaps([w] + ws, [""] + gaps[1..])
  {
    var g := gaps[1..];
    forall i | 0 <= i < |g|
      ensures g[i] == gaps[i + 1] && ([""] + g)[i + 1] == gaps[i + 1]
    {
    }
    forall i | 0 <= i < |ws|
      ensures ws[i] == ([w] + ws)[i + 1]
    {
    }
  }

  /** The first gap is skipped. */
  lemma FirstGap(text: string, s: nat, ws: seq<string>, gaps: seq<string>)
    requires Gaps(ws, gaps) && s + |gaps[0]| <= |text| && text[s..s + |gaps[0]|] == gaps[0]
    ensures Lex(text, s) == Lex(text, s + |gaps[0]|)
  {
    hide Lex;
    var b := s + |gaps[0]|;
    forall i | s <= i < b
      ensures Blank(text[i])
    {
      assert text[i] == text[s..b][i - s] == gaps[0][i - s];
    }
    SkipBlank(text, s, b);
  }

  /** The first token. */
  lemma LexWord(text: string, s: nat, t: Token)
    requires s < |text| && !IsSpace(text[s]) && Scan(text, s) == t
    ensures Lex(text, s) == [t] + Lex(text, t.eq)
  {
  }

  /** The end of the first word of a spaced text, and the rest. */
  lemma SpacedRest(text: string, s: nat, ws: seq<string>, gaps: seq<string>) returns (b: nat, e: nat)
    requires ws != [] && Gaps(ws, gaps) && AllWords(ws) && s <= |text| && text[s..] == Spaced(ws, gaps)
    ensures b == s + |gaps[0]| && e == b + |ws[0]| <= |text| && text[s..b] == gaps[0] && text[b..e] == ws[0]
    ensures Gaps(ws[1..], gaps[1..]) && AllWords(ws[1..]) && text[e..] == Spaced(ws[1..], gaps[1..])
    ensures EndsAt(text, e, ws[0]) && IsWord(ws[0]) && ws[0] != ""
  {
    SpacedParts(text, s, ws, gaps);
    b, e := s + |gaps[0]|, s + |gaps[0]| + |ws[0]|;
    hide Spaced, EndsAt, Gaps;
    var w, rest := ws[0], ws[1..];
    assert ws == [w] + rest;
    assert IsWord(ws[0]) && ws[0] != "";
    GapsTail(w, rest, gaps);
    WordEnds(text, e, w, rest, gaps[1..]);
  }

  /** The tokens of a spaced text are its words. */
  lemma {:induction false} LexSpaced(text: string, s: nat, ws: seq<string>, gaps: seq<string>)
    requires Gaps(ws, gaps) && AllWords(ws) && s <= |text| && text[s..] == Spaced(ws, gaps)
    ensures AllRead(text, Lex(text, s), ws)
    decreases |ws|
  {
    hide *;
    if ws == [] {
      NothingLeft(text, s, gaps);
    } else {
      var b, e := SpacedRest(text, s, ws, gaps);
      GapsSize(ws, gaps);
      LexSpaced(text, e, ws[1..], gaps[1..]);
      FirstGap(text, s, ws, gaps);
      ScanWord(text, b, ws[0]);
      var t := Token(KindOf(ws[0]), b, e);
      LexWord(text, b, t);
      AllReadOneMore(text, t, Lex(text, e), ws);
    }
  }

  lemma NothingLeft(text: string, s: nat, gaps: seq<string>)
    requires Gaps([], gaps) && s <= |text| && text[s..] == Spaced([], gaps)
    ensures AllRead(text, Lex(text, s), [])
  {
    SpacedParts(text, s, [], gaps);
    FirstGap(text, s, [], gaps);
  }

  lemma GapsSize(ws: seq<string>, gaps: seq<string>)
    requires Gaps(ws, gaps)
    ensures |gaps| == |ws| + 1
  {
  }

  lemma TokensHas(text: string, toks: seq<Token>, ws: seq<string>)
    requires AllRead(text, toks, ws)
    ensures Has(Kinds(toks), TokenTexts(text, toks), 0, ws) && |toks| == |ws|
  {
    var kinds, strs := Kinds(toks), TokenTexts(text, toks);
    forall i | 0 <= i < |ws|
      ensures strs[0 + i] == ws[i] && kinds[0 + i] == KindOf(ws[i])
    {
    }
  }

  /** The text is spaced by these gaps from `s` on, if its tokens are the words. */
  ghost predicate SpacedBy(text: string, s: nat, toks: seq<Token>, gaps: seq<string>)
    requires s <= |text|
  {
    var ws := TokenTexts(text, toks);
    && Gaps(ws, gaps) && AllWords(ws) && text[s..] == Spaced(ws, gaps) && AllRead(text, toks, ws)
    && (gaps[0] == "" ==> s == |text| || !IsSpace(text[s]))
  }

  /** Every text is a spaced text: the words of its tokens, and what is between them. */
  lemma {:induction false} LexGaps(text: string, s: nat) returns (gaps: seq<string>)
    requires '\0' !in text && s <= |text|
    ensures SpacedBy(text, s, Lex(text, s), gaps)
    decreases |text| - s
  {
    hide *;
    var p := Skip(text, s);
    LexSkip(text, s);
    if p == |text| {
      gaps := [text[s..]];
      OnlyBlank(text, s);
    } else {
      var t := Scan(text, p);
      var more := LexGaps(text, t.eq);
      gaps := [text[s..p]] + more;
      LexWord(text, p, t);
      SpacedFurther(text, s, p, Lex(text, t.eq), more);
    }
  }

  lemma OnlyBlank(text: string, s: nat)
    requires s <= |text| && Skip(text, s) == |text|
    ensures SpacedBy(text, s, Lex(text, s), [text[s..]])
  {
    AllBlank(text, s, |text|);
    assert text[s..|text|] == text[s..];
    assert Lex(text, s) == [];
  }

  lemma SpacedFurther(text: string, s: nat, p: nat, toks: seq<Token>, more: seq<string>)
    requires '\0' !in text && s <= p < |text| && p == Skip(text, s) && SpacedBy(text, Scan(text, p).eq, toks, more)
    ensures SpacedBy(text, s, [Scan(text, p)] + toks, [text[s..p]] + more)
  {
    hide Lex, Gaps, Spaced, AllRead, AllWords, Scan, KindOf;
    var t, gaps := Scan(text, p), [text[s..p]] + more;
    WordOf(text, p);
    AllBlank(text, s, p);
    var ws, rest, w := TokenTexts(text, [t] + toks), TokenTexts(text, toks), text[p..t.eq];
    assert ws == [w] + rest;
    FrontGap(text, t.eq, w, rest, more, text[s..p]);
    assert ws[1..] == rest && gaps[1..] == more;
    assert text[s..] == text[s..p] + (w + text[t.eq..]);
    GapsSize(rest, more);
    SpacedOne(w, rest, gaps);
    AllReadOneMore(text, t, toks, ws);
  }

  lemma AllBlank(text: string, s: nat, p: nat)
    requires s <= p <= |text| && forall i | s <= i < p :: IsSpace(text[i])
    ensures forall i | 0 <= i < p - s :: Blank(text[s..p][i])
  {
    forall i | s <= i < p
      ensures Blank(text[i])
    {
      SameCharacters(text[i]);
    }
  }

  lemma SpacedOne(w: string, ws: seq<string>, gaps: seq<string>)
    requires |gaps| == |ws| + 2
    ensures Spaced([w] + ws, gaps) == gaps[0] + (w + Spaced(ws, gaps[1..]))
  {
    assert ([w] + ws)[1..] == ws;
  }

  /** The text of a token is a word that ends where the token does. */
  lemma WordOf(text: string, p: nat)
    requires '\0' !in text && p < |text| && !IsSpace(text[p])
    ensures var t := Scan(text, p); var w := text[p..t.eq];
            t.kind == KindOf(w) && IsWord(w) && w != "" && EndsAt(text, t.eq, w) && t.q <= t.eq <= |text|
  {
    var t := Scan(text, p);
    var w := text[p..t.eq];
    assert w[0] == text[p];
    if t.kind == 'a' {
      forall i | 0 <= i < |w|
        ensures !Blank(w[i]) && !Special(w[i]) && w[i] != '\0'
      {
        assert w[i] == text[p + i];
        SameCharacters(w[i]);
      }
    } else if t.kind == '+' {
      assert w == ">>";
    } else {
      assert w == [text[p]];
    }
  }

  /** A word ends where it does because what follows cannot be part of it. */
  lemma GapNeeded(text: string, e: nat, w: string, ws: seq<string>, gaps: seq<string>)
    requires e <= |text| && Gaps(ws, gaps) && AllWords(ws) && IsWord(w) && w != "" && EndsAt(text, e, w) && ws != []
    requires text[e..] == Spaced(ws, gaps)
    ensures Touchy(w, ws[0]) ==> gaps[0] != ""
  {
    SameCharacters(w[0]);
    if gaps[0] == "" {
      SpacedParts(text, e, ws, gaps);
      assert text[e] == text[e..e + |ws[0]|][0] == ws[0][0];
      SameCharacters(text[e]);
    }
  }

  /** One more word, in front. */
  lemma FrontGap(text: string, e: nat, w: string, ws: seq<string>, gaps: seq<string>, g: string)
    requires e <= |text| && Gaps(ws, gaps) && AllWords(ws) && IsWord(w) && w != "" && EndsAt(text, e, w)
    requires text[e..] == Spaced(ws, gaps) && (gaps[0] == "" ==> e == |text| || !IsSpace(text[e]))
    requires forall i | 0 <= i < |g| :: Blank(g[i])
    ensures Gaps([w] + ws, [g] + gaps) && AllWords([w] + ws)
  {
    var ws', gaps' := [w] + ws, [g] + gaps;
    forall i | 0 <= i < |gaps'|, j | 0 <= j < |gaps'[i]|
      ensures Blank(gaps'[i][j])
    {
      if i > 0 { assert gaps'[i] == gaps[i - 1]; }
    }
    forall i | 0 < i < |ws'| && Touchy(ws'[i - 1], ws'[i])
      ensures gaps'[i] != ""
    {
      assert gaps'[i] == gaps[i - 1] && ws'[i] == ws[i - 1];
      if i > 1 {
        assert ws'[i - 1] == ws[i - 2];
      } else {
        GapNeeded(text, e, w, ws, gaps);
      }
    }
    forall i | 0 <= i < |ws'|
      ensures IsWord(ws'[i]) && ws'[i] != ""
    {
      if i > 0 { assert ws'[i] == ws[i - 1]; }
    }
  }

  // ---- the theorems ----

  lemma {:induction false} SpeltWords(f: Form, level: nat)
    requires IsForm(f, level)
    ensures AllWords(Spell(f))
  {
    match f
    case Simple(items) => ItemWords(items);
    case Block(line, redirs) => SpeltWords(line, 0); ItemWords(redirs);
    case Pipe(l, r) => SpeltWords(l, 3); SpeltWords(r, 2);
    case List(l, r) => SpeltWords(l, 1); SpeltWords(r, 0);
    case Back(g) => SpeltWords(g, 1);
  }

  lemma {:induction false} ItemWords(items: seq<Item>)
    requires forall i | 0 <= i < |items| :: ValidItem(items[i])
    ensures AllWords(SpellItems(items))
  {
    if items != [] {
      var n := |items| - 1;
      ItemWords(items[..n]);
      assert ValidItem(items[n]);
      if items[n].Arg? { WordKind(items[n].text); } else { WordKind(items[n].file); }
    }
  }

  /** Every way to write a command is read as the command that is meant. */
  lemma WrittenIsRead(text: string, f: Form, gaps: seq<string>)
    requires Writes(text, f, gaps)
    ensures ParseText(text) == Ok(Meaning(f), |Spell(f)|)
  {
    hide IsForm, Meaning, Spell, Named, Lex, AllRead, Spaced, Gaps, Has, PLine, AllWords;
    var ws, toks := Spell(f), Lex(text, 0);
    SpeltWords(f, 0);
    assert text[0..] == text;
    LexSpaced(text, 0, ws, gaps);
    TokensHas(text, toks, ws);
    var d := LineRead(f, Kinds(toks), TokenTexts(text, toks), 0);
  }

  /** Every text that is read as a command is a way to write that command. */
  lemma ReadIsWritten(text: string) returns (f: Form, gaps: seq<string>)
    requires '\0' !in text && ParseText(text).Ok?
    ensures Writes(text, f, gaps) && Meaning(f) == ParseText(text).val
  {
    hide IsForm, Meaning, Spell, Named, Lex, Spaced, Gaps, PLine;
    var toks := Lex(text, 0);
    var kinds, strs := Kinds(toks), TokenTexts(text, toks);
    gaps := LexGaps(text, 0);
    assert text[0..] == text;
    GoodTokens(text, toks);
    f := LineForm(kinds, strs, 0);
    AllOfIt(kinds, strs, Spell(f));
  }

  lemma GoodTokens(text: string, toks: seq<Token>)
    requires AllRead(text, toks, TokenTexts(text, toks)) && AllWords(TokenTexts(text, toks))
    ensures Good(Kinds(toks), TokenTexts(text, toks))
  {
  }

  lemma AllOfIt(kinds: seq<char>, strs: seq<string>, ws: seq<string>)
    requires Has(kinds, strs, 0, ws) && |ws| == |kinds|
    ensures ws == strs
  {
    forall i | 0 <= i < |ws|
      ensures ws[i] == strs[i]
    {
      assert strs[0 + i] == ws[i];
    }
  }

  /** So the parser accepts exactly the texts that are ways to write a command, and reads them as what is meant. */
  lemma ParsesExactly(text: string, c: Cmd<string>)
    requires '\0' !in text
    ensures (ParseText(text).Ok? && ParseText(text).val == c)
            <==> exists f, gaps :: Writes(text, f, gaps) && Meaning(f) == c
  {
    hide Writes, Meaning, ParseText;
    if f, gaps :| Writes(text, f, gaps) && Meaning(f) == c {
      WrittenIsRead(text, f, gaps);
    }
    if ParseText(text).Ok? {
      var f, gaps := ReadIsWritten(text);
    }
  }

  /** The round trip: every tree that can be written is read back from its text, with any gaps. */
  lemma RoundTrip(c: Cmd<string>, gaps: seq<string>)
    requires WellFormed(c) && Gaps(Spell(FormOf(c)), gaps)
    ensures var r := ParseText(Spaced(Spell(FormOf(c)), gaps)); r.Ok? && r.val == c
  {
    FormOfMeans(c);
    WrittenIsRead(Spaced(Spell(FormOf(c)), gaps), FormOf(c), gaps);
  }

  /** Every tree that parsing gives is one of these. */
  lemma ParsedWellFormed(text: string)
    requires '\0' !in text && ParseText(text).Ok?
    ensures WellFormed(ParseText(text).val)
  {
    hide ParseText, Writes;
    var f, gaps := ReadIsWritten(text);
    MeantWellFormed(f, 0) by { IsWriting(text, f, gaps); }
  }

  lemma IsWriting(text: string, f: Form, gaps: seq<string>)
    requires Writes(text, f, gaps)
    ensures IsForm(f, 0)
  {
  }

  lemma {:induction false} MeantWellFormed(f: Form, level: nat)
    requires IsForm(f, level)
    ensures WellFormed(Meaning(f))
  {
    match f
    case Simple(items) => ArgsWellFormed(items); RedirectedWellFormed(ExecCmd(ArgsOf(items)), items);
    case Block(line, redirs) => MeantWellFormed(line, 0); RedirectedWellFormed(Meaning(line), redirs);
    case Pipe(l, r) => MeantWellFormed(l, 3); MeantWellFormed(r, 2);
    case List(l, r) => MeantWellFormed(l, 1); MeantWellFormed(r, 0);
    case Back(g) => MeantWellFormed(g, 1);
  }

  lemma {:induction false} ArgsWellFormed(items: seq<Item>)
    requires forall i | 0 <= i < |items| :: ValidItem(items[i])
    ensures forall i | 0 <= i < |ArgsOf(items)| :: ValidWord(ArgsOf(items)[i])
  {
    if items != [] {
      ArgsWellFormed(items[..|items| - 1]);
      assert ValidItem(items[|items| - 1]);
    }
  }

  lemma {:induction false} RedirectedWellFormed(c: Cmd<string>, items: seq<Item>)
    requires WellFormed(c) && forall i | 0 <= i < |items| :: ValidItem(items[i])
    ensures WellFormed(Redirected(c, items))
  {
    if items != [] {
      RedirectedWellFormed(c, items[..|items| - 1]);
      assert ValidItem(items[|items| - 1]);
    }
  }
}
