/** The panics of the parser (sh.c), each for the texts it is meant for. */
module ShellErrors {
  import opened ShellSyntax
  import opened ShellForms
  import opened ShellRoundTrip

  /** Valid items, with fewer arguments than a command can take. */
  predicate SomeItems(items: seq<Item>) {
    |ArgsOf(items)| < 10 && forall i | 0 <= i < |items| :: ValidItem(items[i])
  }

  /** The text of these words, as tokens. */
  lemma Tokenized(ws: seq<string>, gaps: seq<string>) returns (kinds: seq<char>, strs: seq<string>)
    requires Gaps(ws, gaps) && AllWords(ws)
    ensures Has(kinds, strs, 0, ws) && |kinds| == |ws|
    ensures PCmd(kinds).Err? ==> ParseText(Spaced(ws, gaps)) == Err(PCmd(kinds).e)
  {
    hide Lex, Gaps, Spaced, AllRead, Has, AllWords, PCmd, Named;
    var text := Spaced(ws, gaps) by { GapsSize(ws, gaps); }
    assert text[0..] == text;
    LexSpaced(text, 0, ws, gaps);
    TokensHas(text, Lex(text, 0), ws);
    kinds, strs := Kinds(Lex(text, 0)), TokenTexts(text, Lex(text, 0));
  }

  lemma WordsMore(items: seq<Item>, w: string)
    requires SomeItems(items) && IsWord(w) && w != ""
    ensures AllWords(SpellItems(items) + [w]) && AllWords([w] + SpellItems(items))
  {
    ItemWords(items);
  }

  /** Where the parser stands behind items that start a line. */
  lemma ItemsCome(items: seq<Item>, kinds: seq<char>, strs: seq<string>, k: nat) returns (args: seq<nat>, rs: seq<Rd>)
    requires SomeItems(items) && Has(kinds, strs, k, SpellItems(items))
    requires At(kinds, k + |SpellItems(items)|, '(') ==> items != []
    ensures PExec(kinds, k) == After(kinds, k + |SpellItems(items)|, Heads(args, rs)) && |args| == |ArgsOf(items)|
  {
    var j;
    args, rs, j := ItemsRead(items, kinds, strs, k, false);
    ItemsAre(items, kinds, strs, k, j, args, rs);
    if items == [] {
    } else {
      FirstItem(items);
      assert kinds[k + 0] == KindOf(SpellItems(items)[0]);
    }
    hide Redirs, Args, Items;
  }

  /** A line whose first simple command panics. */
  lemma ExecPanics(kinds: seq<char>, k: nat, e: Error)
    requires PExec(kinds, k) == Err(e)
    ensures PPipe(kinds, k) == Err(e) && PLine(kinds, k) == Err(e) && (k == 0 ==> PCmd(kinds) == Err(e))
  {
    hide PExec;
  }

  lemma LastWord(kinds: seq<char>, strs: seq<string>, ws: seq<string>, w: string)
    requires Has(kinds, strs, 0, ws + [w]) && |kinds| == |ws| + 1
    ensures Has(kinds, strs, 0, ws) && kinds[|ws|] == KindOf(w)
  {
    HasParts(kinds, strs, 0, ws, [w]);
    HasOne(kinds, strs, |ws|, w);
  }

  /** A redirection without a file. */
  lemma NoFile(items: seq<Item>, op: string, gaps: seq<string>)
    requires SomeItems(items) && (op == "<" || op == ">" || op == ">>") && Gaps(SpellItems(items) + [op], gaps)
    ensures ParseText(Spaced(SpellItems(items) + [op], gaps)) == Err(MissingFile)
  {
    WordsMore(items, op);
    var kinds, strs := Tokenized(SpellItems(items) + [op], gaps);
    LastWord(kinds, strs, SpellItems(items), op);
    hide PExec, Has;
    var args, rs := ItemsCome(items, kinds, strs, 0);
    ExecPanics(kinds, 0, MissingFile);
  }

  /** A block in the middle of a command. */
  lemma NoBlockHere(items: seq<Item>, gaps: seq<string>)
    requires SomeItems(items) && items != [] && Gaps(SpellItems(items) + ["("], gaps)
    ensures ParseText(Spaced(SpellItems(items) + ["("], gaps)) == Err(Syntax)
  {
    WordsMore(items, "(");
    var kinds, strs := Tokenized(SpellItems(items) + ["("], gaps);
    LastWord(kinds, strs, SpellItems(items), "(");
    hide PExec, Has;
    var args, rs := ItemsCome(items, kinds, strs, 0);
    ExecPanics(kinds, 0, Syntax);
  }

  /** A tenth argument. */
  lemma TooMany(items: seq<Item>, w: string, gaps: seq<string>)
    requires SomeItems(items) && |ArgsOf(items)| == 9 && ValidWord(w) && Gaps(SpellItems(items) + [w], gaps)
    ensures ParseText(Spaced(SpellItems(items) + [w], gaps)) == Err(TooManyArgs)
  {
    WordKind(w);
    WordsMore(items, w);
    var kinds, strs := Tokenized(SpellItems(items) + [w], gaps);
    LastWord(kinds, strs, SpellItems(items), w);
    hide PExec, Has;
    var args, rs := ItemsCome(items, kinds, strs, 0);
    ExecPanics(kinds, 0, TooManyArgs);
  }

  /** A parenthesis that nobody opened. */
  lemma NotOpened(items: seq<Item>, gaps: seq<string>)
    requires SomeItems(items) && Gaps(SpellItems(items) + [")"], gaps)
    ensures ParseText(Spaced(SpellItems(items) + [")"], gaps)) == Err(Leftovers)
  {
    WordsMore(items, ")");
    var kinds, strs := Tokenized(SpellItems(items) + [")"], gaps);
    LastWord(kinds, strs, SpellItems(items), ")");
    var j := |SpellItems(items)|;
    hide Has;
    var args, rs := ItemsCome(items, kinds, strs, 0);
    AfterStop(kinds, j, Heads(args, rs));
    ExecAlone(kinds, 0, j, Made(Heads(args, rs)));
  }

  /** A simple command that is the whole line. */
  lemma ExecAlone(kinds: seq<char>, k: nat, j: nat, c: Cmd<nat>)
    requires PExec(kinds, k) == Ok(c, j) && (j >= |kinds| || kinds[j] == ')')
    ensures PLine(kinds, k) == Ok(c, j) && (k == 0 && j < |kinds| ==> PCmd(kinds) == Err(Leftovers))
  {
    hide PExec;
    assert PPipe(kinds, k) == Ok(c, j);
    assert Amps(kinds, j, c) == (c, j);
  }

  /** A parenthesis that nobody closes. */
  lemma NotClosed(items: seq<Item>, gaps: seq<string>)
    requires SomeItems(items) && Gaps(["("] + SpellItems(items), gaps)
    ensures ParseText(Spaced(["("] + SpellItems(items), gaps)) == Err(MissingParen)
  {
    var ws := ["("] + SpellItems(items);
    WordsMore(items, "(");
    var kinds, strs := Tokenized(ws, gaps);
    HasParts(kinds, strs, 0, ["("], SpellItems(items));
    HasOne(kinds, strs, 0, "(");
    hide Has;
    var args, rs := ItemsCome(items, kinds, strs, 1);
    AfterStop(kinds, |ws|, Heads(args, rs));
    ExecAlone(kinds, 1, |ws|, Made(Heads(args, rs)));
    OpenPanics(kinds);
  }

  lemma OpenPanics(kinds: seq<char>)
    requires At(kinds, 0, '(') && PLine(kinds, 1).Ok? && PLine(kinds, 1).k == |kinds|
    ensures PCmd(kinds) == Err(MissingParen)
  {
    hide PLine;
    assert PExec(kinds, 0) == Err(MissingParen);
    ExecPanics(kinds, 0, MissingParen);
  }
}
