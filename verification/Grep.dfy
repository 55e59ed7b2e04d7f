/** The regular-expression matcher of grep.c against the language that a pattern stands for. */
module Grep {

  /** A NUL-terminated string, without its NUL. */
  type CString = s: string | '\0' !in s

  // ---- what a pattern means ----

  datatype Elem = One(c: char) | Star(c: char)

  /** The elements of a pattern, and whether it ends with the anchor `$`. A `*` stands for repetition of the
      character before it; elsewhere `*`, `^` and `$` stand for themselves. */
  function Elems(re: string): seq<Elem> {
    if re == "" then []
    else if |re| > 1 && re[1] == '*' then [Star(re[0])] + Elems(re[2..])
    else if re == "$" then []
    else [One(re[0])] + Elems(re[1..])
  }

  predicate AtEnd(re: string) {
    if re == "" then false
    else if |re| > 1 && re[1] == '*' then AtEnd(re[2..])
    else re == "$" || AtEnd(re[1..])
  }

  predicate Fits(c: char, x: char) {
    c == '.' || c == x
  }

  /** The strings that one element stands for. */
  predicate Piece(e: Elem, w: string) {
    match e
    case One(c) => |w| == 1 && Fits(c, w[0])
    case Star(c) => forall i | 0 <= i < |w| :: Fits(c, w[i])
  }

  function Concat(ws: seq<string>): string {
    if ws == [] then "" else ws[0] + Concat(ws[1..])
  }

  ghost predicate Splits(es: seq<Elem>, w: string, ws: seq<string>) {
    |ws| == |es| && Concat(ws) == w && forall i | 0 <= i < |es| :: Piece(es[i], ws[i])
  }

  /** The strings that a sequence of elements stands for: those that split into pieces, one for each. */
  ghost predicate InLanguage(es: seq<Elem>, w: string) {
    exists ws :: Splits(es, w, ws)
  }

  /** A prefix of `text` is in the language of `re`, all of `text` if `re` ends with `$`. */
  ghost predicate MatchesHere(re: string, text: string) {
    exists j | 0 <= j <= |text| :: InLanguage(Elems(re), text[..j]) && (AtEnd(re) ==> j == |text|)
  }

  /** What match should find: a substring in the language of the pattern, at the beginning of `text` if
      the pattern starts with `^`, and at its end if it ends with `$`. */
  ghost predicate Matches(re: string, text: string) {
    var (anchored, body) := if re != "" && re[0] == '^' then (true, re[1..]) else (false, re);
    exists i, j | 0 <= i <= j <= |text| ::
      InLanguage(Elems(body), text[i..j]) && (anchored ==> i == 0) && (AtEnd(body) ==> j == |text|)
  }

  // ---- the language, one element at a time ----

  lemma NoElems(w: string)
    ensures InLanguage([], w) <==> w == ""
  {
    if w == "" {
      assert Splits([], w, []);
    }
  }

  lemma FirstElem(e: Elem, es: seq<Elem>, w: string)
    ensures InLanguage([e] + es, w) <==> exists k | 0 <= k <= |w| :: Piece(e, w[..k]) && InLanguage(es, w[k..])
  {
    var all := [e] + es;
    if InLanguage(all, w) {
      var ws :| Splits(all, w, ws);
      var k := |ws[0]|;
      assert Piece(all[0], ws[0]) && w[..k] == ws[0] && w[k..] == Concat(ws[1..]);
      assert Splits(es, w[k..], ws[1..]) by {
        forall i | 0 <= i < |es|
          ensures Piece(es[i], ws[1..][i])
        {
          assert Piece(all[i + 1], ws[i + 1]);
        }
      }
    }
    if k :| 0 <= k <= |w| && Piece(e, w[..k]) && InLanguage(es, w[k..]) {
      var vs :| Splits(es, w[k..], vs);
      var ws := [w[..k]] + vs;
      assert ws[1..] == vs && w == w[..k] + w[k..];
      assert Splits(all, w, ws) by {
        forall i | 0 <= i < |all|
          ensures Piece(all[i], ws[i])
        {
          if i > 0 {
            assert Piece(es[i - 1], vs[i - 1]);
          }
        }
      }
    }
  }

  lemma HereEmpty(text: string)
    ensures MatchesHere("", text)
  {
    NoElems(text[..0]);
  }

  lemma HereDollar(text: string)
    ensures MatchesHere("$", text) <==> text == ""
  {
    NoElems(text[..|text|]);
    assert AtEnd("$") && Elems("$") == [];
  }

  lemma HereOne(re: string, text: string)
    requires re != "" && re != "$" && !(|re| > 1 && re[1] == '*')
    ensures MatchesHere(re, text) <==> text != "" && Fits(re[0], text[0]) && MatchesHere(re[1..], text[1..])
  {
    var rest := re[1..];
    assert Elems(re) == [One(re[0])] + Elems(rest) && AtEnd(re) == AtEnd(rest);
    if j :| 0 <= j <= |text| && InLanguage(Elems(re), text[..j]) && (AtEnd(re) ==> j == |text|) {
      FirstElem(One(re[0]), Elems(rest), text[..j]);
      assert text[..j][1..] == text[1..][..j - 1];
    }
    if text != "" && Fits(re[0], text[0]) && MatchesHere(rest, text[1..]) {
      var j :| 0 <= j <= |text[1..]| && InLanguage(Elems(rest), text[1..][..j]) && (AtEnd(rest) ==> j == |text[1..]|);
      var w := text[..j + 1];
      assert w[..1] == [text[0]] && w[1..] == text[1..][..j];
      FirstElem(One(re[0]), Elems(rest), w);
    }
  }

  /** `text` starts with `k` characters that fit `c`, and `re` matches behind them. */
  ghost predicate StarThen(c: char, re: string, text: string, k: nat) {
    k <= |text| && (forall i | 0 <= i < k :: Fits(c, text[i])) && MatchesHere(re, text[k..])
  }

  lemma HereStar(re: string, text: string)
    requires |re| > 1 && re[1] == '*'
    ensures MatchesHere(re, text) <==> exists k :: StarThen(re[0], re[2..], text, k)
  {
    var c, rest := re[0], re[2..];
    assert Elems(re) == [Star(c)] + Elems(rest) && AtEnd(re) == AtEnd(rest);
    if j :| 0 <= j <= |text| && InLanguage(Elems(re), text[..j]) && (AtEnd(re) ==> j == |text|) {
      FirstElem(Star(c), Elems(rest), text[..j]);
      var k :| 0 <= k <= j && Piece(Star(c), text[..j][..k]) && InLanguage(Elems(rest), text[..j][k..]);
      assert text[..j][k..] == text[k..][..j - k];
      assert forall i | 0 <= i < k :: text[i] == text[..j][..k][i];
      assert StarThen(c, rest, text, k);
    }
    if k: nat :| StarThen(c, rest, text, k) {
      var j :| 0 <= j <= |text[k..]| && InLanguage(Elems(rest), text[k..][..j]) && (AtEnd(rest) ==> j == |text[k..]|);
      var w := text[..k + j];
      assert w[..k] == text[..k] && w[k..] == text[k..][..j];
      FirstElem(Star(c), Elems(rest), w);
    }
  }

  // ---- what common patterns match ----

  /** Without `*` and a `$` at the end, the elements are the characters. */
  lemma {:induction false} PlainElems(body: string, z: bool)
    requires '*' !in body && (!z ==> body == "" || body[|body| - 1] != '$')
    ensures var re := body + if z then "$" else "";
            AtEnd(re) == z && |Elems(re)| == |body| && forall k | 0 <= k < |body| :: Elems(re)[k] == One(body[k])
  {
    var re := body + if z then "$" else "";
    if body == "" {
      assert re == if z then "$" else "";
    } else {
      PlainElems(body[1..], z);
      assert re[1..] == body[1..] + if z then "$" else "";
      assert body[0] == re[0] && (|re| > 1 ==> re[1] != '*') && re != "$";
      assert Elems(re) == [One(body[0])] + Elems(re[1..]);
      forall k | 0 <= k < |body|
        ensures Elems(re)[k] == One(body[k])
      {
        if k > 0 { assert Elems(re)[k] == Elems(re[1..])[k - 1] == One(body[1..][k - 1]); }
      }
    }
  }

  /** Each character of `body` is the one of `w`, or a `.`. */
  predicate Stands(body: string, w: string) {
    |w| == |body| && forall k | 0 <= k < |body| :: body[k] == '.' || body[k] == w[k]
  }

  lemma {:induction false} OneEach(es: seq<Elem>, body: string, w: string)
    requires |es| == |body| && forall k | 0 <= k < |body| :: es[k] == One(body[k])
    ensures InLanguage(es, w) <==> Stands(body, w)
  {
    if body == "" {
      NoElems(w);
    } else {
      assert es == [es[0]] + es[1..];
      FirstElem(es[0], es[1..], w);
      if w != "" {
        OneEach(es[1..], body[1..], w[1..]);
        assert Stands(body, w) <==> Stands(body[1..], w[1..]) && (body[0] == '.' || body[0] == w[0]) by {
          if Stands(body[1..], w[1..]) && (body[0] == '.' || body[0] == w[0]) {
            forall k | 0 < k < |body|
              ensures body[k] == '.' || body[k] == w[k]
            {
              assert body[1..][k - 1] == body[k] && w[1..][k - 1] == w[k];
            }
          }
        }
        assert InLanguage(es, w) <==> Piece(es[0], w[..1]) && InLanguage(es[1..], w[1..]);
      }
    }
  }

  /** `body` stands in the text from `i` on, at the beginning if `a`, and at the end if `z`. */
  predicate StandsAt(body: string, a: bool, z: bool, text: string, i: nat) {
    && i + |body| <= |text| && Stands(body, text[i..i + |body|])
    && (a ==> i == 0) && (z ==> i + |body| == |text|)
  }

  /** A pattern without `*` matches where its characters stand in the text, a `.` for any one; at the beginning of the
      text behind `^`, and at its end before `$`. */
  lemma PlainMatches(body: string, a: bool, z: bool, text: string)
    requires '*' !in body && (!a ==> body == "" || body[0] != '^') && (!z ==> body == "" || body[|body| - 1] != '$')
    ensures Matches((if a then "^" else "") + (body + if z then "$" else ""), text)
            <==> exists i: nat :: StandsAt(body, a, z, text, i)
  {
    var re := body + if z then "$" else "";
    var es := Elems(re);
    PlainElems(body, z);
    MatchesIs(re, a, text);
    hide Elems, AtEnd, InLanguage, Matches, Stands;
    if i, j :| 0 <= i <= j <= |text| && InLanguage(es, text[i..j]) && (a ==> i == 0) && (z ==> j == |text|) {
      OneEach(es, body, text[i..j]);
      SameLength(body, text[i..j]);
      assert StandsAt(body, a, z, text, i);
    }
    if i: nat :| StandsAt(body, a, z, text, i) {
      OneEach(es, body, text[i..i + |body|]);
    }
  }

  lemma SameLength(body: string, w: string)
    requires Stands(body, w)
    ensures |w| == |body|
  {
  }

  lemma MatchesIs(re: string, a: bool, text: string)
    requires !a ==> re == "" || re[0] != '^'
    ensures Matches((if a then "^" else "") + re, text)
            <==> exists i, j | 0 <= i <= j <= |text| ::
                   InLanguage(Elems(re), text[i..j]) && (a ==> i == 0) && (AtEnd(re) ==> j == |text|)
  {
    var all := (if a then "^" else "") + re;
    assert a ==> all[0] == '^' && all[1..] == re;
    assert !a ==> all == re;
  }

  lemma StarFirst(c: char, rest: string, text: string)
    ensures MatchesHere([c, '*'] + rest, text) <==> exists k :: StarThen(c, rest, text, k)
  {
    var re := [c, '*'] + rest;
    assert re[0] == c && re[2..] == rest;
    HereStar(re, text);
    hide MatchesHere;
    if k: nat :| StarThen(c, rest, text, k) {
      assert StarThen(re[0], re[2..], text, k);
    }
    if k: nat :| StarThen(re[0], re[2..], text, k) {
      assert StarThen(c, rest, text, k);
    }
  }

  /** `^c*$` matches the texts of that one character, `^.*$` all. */
  lemma StarMatches(c: char, text: string)
    ensures Matches(['^', c, '*', '$'], text) <==> c == '.' || forall i | 0 <= i < |text| :: text[i] == c
  {
    var re := ['^', c, '*', '$'];
    assert re[1..] == [c, '*'] + "$";
    Anchored(re, text);
    StarFirst(c, "$", text);
    hide Matches, MatchesHere;
    forall k: nat | k <= |text|
      ensures StarThen(c, "$", text, k) <==> k == |text| && forall i | 0 <= i < k :: Fits(c, text[i])
    {
      HereDollar(text[k..]);
    }
    if c == '.' || forall i | 0 <= i < |text| :: text[i] == c {
      assert StarThen(c, "$", text, |text|);
    }
  }

  // ---- the code ----

  /** match: 1 exactly if the pattern matches somewhere. */
  method Match(re: CString, text: CString) returns (r: bool)
    ensures r <==> Matches(re, text)
  {
    if re != "" && re[0] == '^' {
      r := Matchhere(re[1..], text);
      Anchored(re, text);
      return;
    }
    var t := 0;
    while true
      invariant t <= |text| && forall i | 0 <= i < t :: !MatchesHere(re, text[i..])
      decreases |text| - t
    {
      var here := Matchhere(re, text[t..]);
      if here {
        Somewhere(re, text, t);
        return true;
      }
      if t == |text| {
        break;
      }
      t := t + 1;
    }
    if Matches(re, text) { Nowhere(re, text); }
    r := false;
  }

  lemma Anchored(re: string, text: string)
    requires re != "" && re[0] == '^'
    ensures Matches(re, text) <==> MatchesHere(re[1..], text)
  {
    assert forall j | 0 <= j <= |text| :: text[0..j] == text[..j];
  }

  lemma Somewhere(re: string, text: string, t: nat)
    requires t <= |text| && MatchesHere(re, text[t..]) && !(re != "" && re[0] == '^')
    ensures Matches(re, text)
  {
    var j :| 0 <= j <= |text[t..]| && InLanguage(Elems(re), text[t..][..j]) && (AtEnd(re) ==> j == |text[t..]|);
    assert text[t..][..j] == text[t..t + j];
  }

  lemma Nowhere(re: string, text: string)
    requires Matches(re, text) && !(re != "" && re[0] == '^')
    ensures exists t | 0 <= t <= |text| :: MatchesHere(re, text[t..])
  {
    var i, j :| 0 <= i <= j <= |text| && InLanguage(Elems(re), text[i..j]) && (AtEnd(re) ==> j == |text|);
    assert text[i..][..j - i] == text[i..j];
    assert MatchesHere(re, text[i..]);
  }

  method Matchhere(re: CString, text: CString) returns (r: bool)
    ensures r <==> MatchesHere(re, text)
    decreases |re|, 0
  {
    if re == "" {
      HereEmpty(text);
      return true;
    }
    if |re| > 1 && re[1] == '*' {
      HereStar(re, text);
      r := Matchstar(re[0], re[2..], text);
      return;
    }
    if re[0] == '$' && |re| == 1 {
      HereDollar(text);
      return text == "";
    }
    HereOne(re, text);
    if text != "" && (re[0] == '.' || re[0] == text[0]) {
      r := Matchhere(re[1..], text[1..]);
      return;
    }
    r := false;
  }

  method Matchstar(c: char, re: CString, text: CString) returns (r: bool)
    ensures r <==> exists k :: StarThen(c, re, text, k)
    decreases |re|, 1
  {
    var t := 0;
    while true
      invariant t <= |text| && (forall i | 0 <= i < t :: Fits(c, text[i])) && forall k | 0 <= k < t ::
          !StarThen(c, re, text, k)
      decreases |text| - t
    {
      var here := Matchhere(re, text[t..]);
      if here {
        assert StarThen(c, re, text, t);
        return true;
      }
      if t == |text| || !(text[t] == c || c == '.') {
        break;
      }
      t := t + 1;
    }
    r := false;
  }
}
