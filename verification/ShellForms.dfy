/** How a command can be written: the language of the shell (sh.c) from the writer's side, without a parser. */
module ShellForms {
  import opened ShellSyntax

  /** An argument, or a redirection by `<`, `>` or `>>`. */
  datatype Item = Arg(text: string) | Redir(op: string, file: string)

  /** A command as it is written: arguments and redirections in any order; a line in parentheses with
      redirections behind it; and the operators. */
  datatype Form =
    | Simple(items: seq<Item>)
    | Block(line: Form, redirs: seq<Item>)
    | Pipe(left: Form, right: Form)
    | List(left: Form, right: Form)
    | Back(form: Form)

  predicate Blank(c: char) {
    c in [' ', '\t', '\r', '\n', 11 as char]
  }

  predicate Special(c: char) {
    c in ['<', '|', '>', '&', ';', '(', ')']
  }

  predicate ValidWord(w: string) {
    w != "" && forall i | 0 <= i < |w| :: !Blank(w[i]) && !Special(w[i]) && w[i] != '\0'
  }

  predicate ValidItem(it: Item) {
    match it
    case Arg(text) => ValidWord(text)
    case Redir(op, file) => (op == "<" || op == ">" || op == ">>") && ValidWord(file)
  }

  function ArgsOf(items: seq<Item>): seq<string> {
    if items == [] then []
    else
      var last := items[|items| - 1];
      ArgsOf(items[..|items| - 1]) + if last.Arg? then [last.text] else []
  }

  /** The command inside its redirections, the first one innermost. */
  function Redirected(c: Cmd<string>, items: seq<Item>): Cmd<string> {
    if items == [] then c
    else
      var last, d := items[|items| - 1], Redirected(c, items[..|items| - 1]);
      if last.Arg? then d
      else if last.op == "<" then RedirCmd(d, last.file, 0, 0)
      else RedirCmd(d, last.file, 0x201, 1)
  }

  /** The form can stand for a line (level 0), a line without `;` (1), a pipeline (2), a simple command or a
      block (3). */
  predicate IsForm(f: Form, level: nat) {
    match f
    case Simple(items) => |ArgsOf(items)| < 10 && forall i | 0 <= i < |items| :: ValidItem(items[i])
    case Block(line, redirs) => IsForm(line, 0) && forall i | 0 <= i < |redirs| :: redirs[i].Redir? && ValidItem(redirs[i])
    case Pipe(l, r) => level <= 2 && IsForm(l, 3) && IsForm(r, 2)
    case Back(g) => level <= 1 && IsForm(g, 1)
    case List(l, r) => level == 0 && IsForm(l, 1) && IsForm(r, 0)
  }

  /** The tree it stands for. */
  function Meaning(f: Form): Cmd<string> {
    match f
    case Simple(items) => Redirected(ExecCmd(ArgsOf(items)), items)
    case Block(line, redirs) => Redirected(Meaning(line), redirs)
    case Pipe(l, r) => PipeCmd(Meaning(l), Meaning(r))
    case List(l, r) => ListCmd(Meaning(l), Meaning(r))
    case Back(g) => BackCmd(Meaning(g))
  }

  function SpellItems(items: seq<Item>): seq<string> {
    if items == [] then []
    else
      var last := items[|items| - 1];
      SpellItems(items[..|items| - 1]) + if last.Arg? then [last.text] else [last.op, last.file]
  }

  /** The words of a form. */
  function Spell(f: Form): seq<string> {
    match f
    case Simple(items) => SpellItems(items)
    case Block(line, redirs) => ["("] + (Spell(line) + ([")"] + SpellItems(redirs)))
    case Pipe(l, r) => Spell(l) + (["|"] + Spell(r))
    case List(l, r) => Spell(l) + ([";"] + Spell(r))
    case Back(g) => Spell(g) + ["&"]
  }

  /** The words with the given gaps before, between and behind them. */
  function Spaced(ws: seq<string>, gaps: seq<string>): string
    requires |gaps| == |ws| + 1
  {
    if ws == [] then gaps[0] else gaps[0] + (ws[0] + Spaced(ws[1..], gaps[1..]))
  }

  /** Two words that would read as something else without a gap. */
  predicate Touchy(a: string, b: string) {
    a != "" && b != "" && ((!Special(a[0]) && !Special(b[0])) || (a == ">" && b[0] == '>'))
  }

  /** Gaps are whitespace, and there is one where it is needed. */
  predicate Gaps(ws: seq<string>, gaps: seq<string>) {
    && |gaps| == |ws| + 1
    && (forall i | 0 <= i < |gaps| :: forall j | 0 <= j < |gaps[i]| :: Blank(gaps[i][j]))
    && forall i | 0 < i < |ws| :: Touchy(ws[i - 1], ws[i]) ==> gaps[i] != ""
  }

  /** The text is a way to write this form. */
  predicate Writes(text: string, f: Form, gaps: seq<string>) {
    IsForm(f, 0) && Gaps(Spell(f), gaps) && text == Spaced(Spell(f), gaps)
  }

  // ---- one way to write a tree ----

  /** The trees that can be written. */
  predicate WellFormed(c: Cmd<string>) {
    match c
    case ExecCmd(argv) => |argv| < 10 && forall i | 0 <= i < |argv| :: ValidWord(argv[i])
    case RedirCmd(d, file, mode, fd) =>
      WellFormed(d) && ValidWord(file) && ((mode == 0 && fd == 0) || (mode == 0x201 && fd == 1))
    case PipeCmd(l, r) => WellFormed(l) && WellFormed(r)
    case ListCmd(l, r) => WellFormed(l) && WellFormed(r)
    case BackCmd(d) => WellFormed(d)
  }

  /** In parentheses where the level demands it. */
  function Enclosed(f: Form, level: nat): Form {
    if (f.List? && level > 0) || (f.Back? && level > 1) || (f.Pipe? && level > 2) then Block(f, []) else f
  }

  function WithRedir(f: Form, it: Item): Form {
    match f
    case Simple(items) => Simple(items + [it])
    case Block(line, redirs) => Block(line, redirs + [it])
    case _ => f
  }

  /** A form for the tree: redirections behind the arguments, and parentheses only where needed. */
  function FormOf(c: Cmd<string>): Form {
    match c
    case ExecCmd(argv) => Simple(seq(|argv|, i requires 0 <= i < |argv| => Arg(argv[i])))
    case RedirCmd(d, file, _, fd) => WithRedir(Enclosed(FormOf(d), 3), Redir(if fd == 0 then "<" else ">", file))
    case PipeCmd(l, r) => Pipe(Enclosed(FormOf(l), 3), Enclosed(FormOf(r), 2))
    case ListCmd(l, r) => List(Enclosed(FormOf(l), 1), FormOf(r))
    case BackCmd(d) => Back(Enclosed(FormOf(d), 1))
  }

  lemma ArgForms(argv: seq<string>, items: seq<Item>)
    requires |items| == |argv| && forall i | 0 <= i < |argv| :: items[i] == Arg(argv[i])
    ensures ArgsOf(items) == argv && forall c :: Redirected(c, items) == c
  {
    if argv != [] {
      ArgForms(argv[..|argv| - 1], items[..|argv| - 1]);
      assert argv == argv[..|argv| - 1] + [argv[|argv| - 1]];
    }
  }

  lemma EnclosedMeans(f: Form, level: nat)
    requires IsForm(f, 0) && level <= 3
    ensures IsForm(Enclosed(f, level), level) && Meaning(Enclosed(f, level)) == Meaning(f)
    ensures level == 3 ==> Enclosed(f, level).Simple? || Enclosed(f, level).Block?
  {
  }

  lemma RedirMeans(f: Form, op: string, file: string)
    requires IsForm(f, 3) && (f.Simple? || f.Block?) && ValidItem(Redir(op, file))
    ensures var g := WithRedir(f, Redir(op, file));
            IsForm(g, 3) && Meaning(g) == RedirCmd(Meaning(f), file, if op == "<" then 0 else 0x201, if op == "<" then 0 else 1)
  {
    var items := if f.Simple? then f.items else f.redirs;
    var more := items + [Redir(op, file)];
    assert more[..|items|] == items;
    assert ArgsOf(more) == ArgsOf(items);
    assert forall c :: Redirected(c, more) == RedirCmd(Redirected(c, items), file, if op == "<" then 0 else 0x201,
        if op == "<" then 0 else 1);
  }

  lemma AnyLevel(f: Form)
    requires IsForm(f, 3)
    ensures IsForm(f, 0)
  {
  }

  /** It stands for that tree. */
  lemma {:induction false} FormOfMeans(c: Cmd<string>)
    requires WellFormed(c)
    ensures IsForm(FormOf(c), 0) && Meaning(FormOf(c)) == c
  {
    match c
    case ExecCmd(argv) => ArgForms(argv, FormOf(c).items);
    case RedirCmd(d, file, mode, fd) =>
      FormOfMeans(d);
      hide IsForm, Enclosed, WithRedir, Meaning;
      EnclosedMeans(FormOf(d), 3);
      RedirMeans(Enclosed(FormOf(d), 3), if fd == 0 then "<" else ">", file);
      AnyLevel(FormOf(c));
    case PipeCmd(l, r) =>
      FormOfMeans(l);
      FormOfMeans(r);
      hide Enclosed;
      EnclosedMeans(FormOf(l), 3);
      EnclosedMeans(FormOf(r), 2);
    case ListCmd(l, r) =>
      FormOfMeans(l);
      FormOfMeans(r);
      hide Enclosed;
      EnclosedMeans(FormOf(l), 1);
    case BackCmd(d) =>
      FormOfMeans(d);
      hide Enclosed;
      EnclosedMeans(FormOf(d), 1);
  }
}
