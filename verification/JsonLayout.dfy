/** mfbt/JSONWriter.h: where the writer puts newlines and blanks, told from the text alone. */
module JsonLayout {
  import opened JsonText
  import opened JsonPrinting
  import opened Options

  // ------------------------------------------------------------- how many lines

  function Newlines(s: string): nat {
    if s == "" then 0 else Newlines(s[1..]) + if s[0] == '\n' then 1 else 0
  }

  /** A multi-line collection, with all around it multi-line too, has a line for each item and one for its
      closing character. */
  function Lines(t: Tree, nl: bool): nat
    decreases t, 0
  {
    match t
    case Scalar(_) => 0
    case Quote(_) => 0
    case List(style, es) =>
      var nl' := nl && style == MultiLineStyle;
      (if nl' then |es| + 1 else 0) + LinesInElements(es, nl')
    case Dict(style, ms) =>
      var nl' := nl && style == MultiLineStyle;
      (if nl' then |ms| + 1 else 0) + LinesInMembers(ms, nl')
  }

  function LinesInElements(ts: seq<Tree>, nl: bool): nat
    decreases ts, 1
  {
    if ts == [] then 0 else Lines(ts[0], nl) + LinesInElements(ts[1..], nl)
  }

  function LinesInMembers(ms: seq<Member>, nl: bool): nat
    decreases ms, 1
  {
    if ms == [] then 0 else Lines(ms[0].value, nl) + LinesInMembers(ms[1..], nl)
  }

  lemma {:induction false} NewlinesAppend(s: string, t: string)
    ensures Newlines(s + t) == Newlines(s) + Newlines(t)
  {
    if s == "" {
      assert s + t == t;
    } else {
      assert (s + t)[1..] == s[1..] + t;
      NewlinesAppend(s[1..], t);
    }
  }

  lemma {:induction false} NoNewlines(s: string)
    requires '\n' !in s
    ensures Newlines(s) == 0
  {
    if s != "" {
      assert forall c :: c in s[1..] ==> c in s;
      NoNewlines(s[1..]);
    }
  }

  lemma {:induction false} SpacesNoNewlines(n: nat)
    ensures Newlines(Spaces(n)) == 0
  {
    if n > 0 {
      assert Spaces(n)[1..] == Spaces(n - 1);
      SpacesNoNewlines(n - 1);
    }
  }

  lemma LayoutNewlines(needComma: bool, d: nat, nl: bool)
    ensures d > 0 ==> Newlines(Sep(needComma, d, nl)) == if nl then 1 else 0
    ensures Newlines(Close(d, nl)) == if nl then 1 else 0
  {
    SpacesNoNewlines(d);
    var line := "\n" + Spaces(d);
    assert line[1..] == Spaces(d);
    NewlinesAppend(if needComma then "," else "", if d > 0 && nl then line else if needComma then " " else "");
    assert Newlines(",") == 0 && Newlines(" ") == 0 by {
      NoNewlines(",");
      NoNewlines(" ");
    }
  }

  lemma NameNewlines(name: string, value: Tree)
    requires IsCollection(value) ==> Plain(name)
    ensures Newlines(NameText(name, value)) == 0
  {
    EscapePlain(name);
    NameOneLine(name, value);
    NoNewlines(NameText(name, value));
  }

  /** The number of newlines in a printed value. */
  lemma {:induction false} LineCount(t: Tree, d: nat, nl: bool)
    requires Valid(t) && PlainNames(t)
    ensures Newlines(Print(t, d, nl)) == Lines(t, nl)
    decreases t, 0
  {
    match t
    case Scalar(token) =>
      TokenOneLine(token);
      NoNewlines(token);
    case Quote(chars) =>
      EscapeOneLine(chars);
      NoNewlines(Print(t, d, nl));
    case List(style, es) =>
      var nl' := nl && style == MultiLineStyle;
      ElementCount(es, true, d + 1, nl');
      BracketCount("[", PrintElements(es, true, d + 1, nl'), d, nl', "]");
    case Dict(style, ms) =>
      var nl' := nl && style == MultiLineStyle;
      MemberCount(ms, true, d + 1, nl');
      BracketCount("{", PrintMembers(ms, true, d + 1, nl'), d, nl', "}");
  }

  lemma BracketCount(open: string, body: string, d: nat, nl: bool, close: string)
    requires '\n' !in open && '\n' !in close
    ensures Newlines(open + body + Close(d, nl) + close) == Newlines(body) + if nl then 1 else 0
  {
    LayoutNewlines(true, d, nl);
    NoNewlines(open);
    NoNewlines(close);
    NewlinesAppend(open, body);
    NewlinesAppend(open + body, Close(d, nl));
    NewlinesAppend(open + body + Close(d, nl), close);
  }

  lemma {:induction false} ElementCount(ts: seq<Tree>, first: bool, d: nat, nl: bool)
    requires AllValid(ts) && AllPlain(ts) && d > 0
    ensures Newlines(PrintElements(ts, first, d, nl)) == LinesInElements(ts, nl) + if nl then |ts| else 0
    decreases ts, 1
  {
    if ts != [] {
      LayoutNewlines(!first, d, nl);
      LineCount(ts[0], d, nl);
      ElementCount(ts[1..], false, d, nl);
      NewlinesAppend(Sep(!first, d, nl), Print(ts[0], d, nl));
      NewlinesAppend(Sep(!first, d, nl) + Print(ts[0], d, nl), PrintElements(ts[1..], false, d, nl));
    }
  }

  lemma {:induction false} MemberCount(ms: seq<Member>, first: bool, d: nat, nl: bool)
    requires AllValidMembers(ms) && AllPlainMembers(ms) && d > 0
    ensures Newlines(PrintMembers(ms, first, d, nl)) == LinesInMembers(ms, nl) + if nl then |ms| else 0
    decreases ms, 1
  {
    if ms != [] {
      var sep, name, value := Sep(!first, d, nl), NameText(ms[0].name, ms[0].value), Print(ms[0].value, d, nl);
      LayoutNewlines(!first, d, nl);
      NameNewlines(ms[0].name, ms[0].value);
      LineCount(ms[0].value, d, nl);
      MemberCount(ms[1..], false, d, nl);
      NewlinesAppend(sep, name);
      NewlinesAppend(sep + name, value);
      NewlinesAppend(sep + name + value, PrintMembers(ms[1..], false, d, nl));
    }
  }

  // ------------------------------------------------------------------ indentation

  predicate Opening(c: char) {
    c == '[' || c == '{'
  }

  predicate Closing(c: char) {
    c == ']' || c == '}'
  }

  /** The number of blanks at the start. */
  function Blanks(s: string): (n: nat)
    ensures n <= |s|
  {
    if s != "" && s[0] == ' ' then 1 + Blanks(s[1..]) else 0
  }

  /** Exactly one blank. */
  predicate OneBlank(s: string) {
    |s| > 1 && s[0] == ' ' && !IsSpace(s[1])
  }

  /** What may come after a newline, where so many collections are open: as many blanks and an item, which is
      the first one or comes after a comma; or one blank less, and the end of a collection. Or nothing at all. */
  predicate Indented(s: string, open: nat, before: char) {
    if Blanks(s) == |s| then s == "" && open == 0
    else if Closing(s[Blanks(s)]) then Blanks(s) + 1 == open
    else Blanks(s) == open && (Opening(before) || before == ',') && !IsSpace(s[Blanks(s)])
  }

  /** A text is laid out well from here on, where so many collections are open, a string has or has not been
      begun, and another character came before: newlines are followed by the right indentation, and other
      blanks are single and stand only behind commas, where there is no newline, and colons. */
  predicate LaidOut(s: string, open: nat, quoted: bool, before: char)
    decreases |s|
  {
    if s == "" then true
    else if quoted then
      if s[0] == '\\' && |s| > 1 then LaidOut(s[2..], open, true, s[1])
      else LaidOut(s[1..], open, s[0] != '"', s[0])
    else if s[0] == '"' then LaidOut(s[1..], open, true, '"')
    else if Opening(s[0]) then (|s| > 1 ==> s[1] != ' ') && LaidOut(s[1..], open + 1, false, s[0])
    else if Closing(s[0]) then open > 0 && (|s| > 1 ==> s[1] != ' ') && LaidOut(s[1..], open - 1, false, s[0])
    else if s[0] == '\n' then Indented(s[1..], open, before) && LaidOut(s[1..], open, false, '\n')
    else if s[0] == ',' then
      ((|s| > 1 && s[1] == '\n') || OneBlank(s[1..])) && LaidOut(s[1..], open, false, ',')
    else if s[0] == ':' then OneBlank(s[1..]) && LaidOut(s[1..], open, false, ':')
    else (s[0] == ' ' ==> before == ' ' || before == '\n' || before == ',' || before == ':')
         && LaidOut(s[1..], open, false, s[0])
  }

  /** The same behind a value, whatever its last character is. */
  ghost predicate Follows(s: string, open: nat) {
    forall c :: LaidOut(s, open, false, c)
  }

  lemma FollowsStarts(s: string, open: nat)
    requires Follows(s, open)
    ensures s != "" ==> s[0] != ' '
  {
    assert LaidOut(s, open, false, 'x');
  }

  lemma CharStep(c: char, s: string, open: nat)
    requires Follows(s, open) && !Opening(c) && !Closing(c) && !IsSpace(c) && c != '"' && c != ',' && c != ':'
    ensures Follows([c] + s, open)
  {
    assert ([c] + s)[1..] == s;
    assert LaidOut(s, open, false, c);
  }

  lemma EndStep(c: char, s: string, open: nat)
    requires Follows(s, open) && Closing(c)
    ensures Follows([c] + s, open + 1)
  {
    FollowsStarts(s, open);
    assert ([c] + s)[1..] == s;
    assert LaidOut(s, open, false, c);
  }

  lemma OpenStep(c: char, s: string, open: nat)
    requires Opening(c) && LaidOut(s, open + 1, false, c) && (s != "" ==> s[0] != ' ')
    ensures Follows([c] + s, open)
  {
    assert ([c] + s)[1..] == s;
  }

  lemma {:induction false} BlanksOf(n: nat, s: string)
    requires s != "" ==> s[0] != ' '
    ensures Blanks(Spaces(n) + s) == n && |Spaces(n)| == n && (Spaces(n) + s)[n..] == s
  {
    if n == 0 {
      assert "" + s == s;
    } else {
      assert (Spaces(n) + s)[1..] == Spaces(n - 1) + s;
      BlanksOf(n - 1, s);
      assert (Spaces(n) + s)[n..] == (Spaces(n) + s)[1..][n - 1..];
    }
  }

  lemma {:induction false} PassBlanks(n: nat, s: string, open: nat, before: char)
    requires Follows(s, open) && (before == ' ' || before == '\n')
    ensures LaidOut(Spaces(n) + s, open, false, before)
  {
    if n == 0 {
      assert "" + s == s;
    } else {
      assert (Spaces(n) + s)[1..] == Spaces(n - 1) + s;
      PassBlanks(n - 1, s, open, ' ');
    }
  }

  /** An item on a line of its own. */
  lemma ItemLine(s: string, open: nat, before: char)
    requires Follows(s, open) && Starts(s) && (Opening(before) || before == ',')
    ensures LaidOut(("\n" + Spaces(open)) + s, open, false, before)
  {
    var t := ("\n" + Spaces(open)) + s;
    BlanksOf(open, s);
    PassBlanks(open, s, open, '\n');
    assert t[1..] == Spaces(open) + s;
  }

  /** The end of a collection on a line of its own. */
  lemma EndLine(c: char, s: string, open: nat)
    requires Follows(s, open) && Closing(c)
    ensures Follows(("\n" + Spaces(open)) + ([c] + s), open + 1)
  {
    var e := [c] + s;
    var t := ("\n" + Spaces(open)) + e;
    EndStep(c, s, open);
    BlanksOf(open, e);
    PassBlanks(open, e, open + 1, '\n');
    assert t[1..] == Spaces(open) + e;
  }

  lemma CloseLaid(d: nat, nl: bool, c: char, s: string)
    requires Follows(s, d) && Closing(c)
    ensures Follows(Close(d, nl) + ([c] + s), d + 1)
  {
    if nl {
      EndLine(c, s, d);
    } else {
      EndStep(c, s, d);
      assert "" + ([c] + s) == [c] + s;
    }
  }

  lemma NextLaid(d: nat, nl: bool, s: string)
    requires Follows(s, d) && Starts(s)
    ensures Follows("," + (Gap(d, nl) + s), d)
  {
    var t := "," + (Gap(d, nl) + s);
    assert t[1..] == Gap(d, nl) + s;
    if nl {
      ItemLine(s, d, ',');
      assert t[1] == '\n';
    } else {
      assert t[1..][1..] == s && t[1] == ' ';
      assert LaidOut(s, d, false, ' ');
      assert LaidOut(t[1..], d, false, ',');
    }
  }

  lemma {:induction false} TokenLaid(token: string, s: string, open: nat)
    requires TokenLength(token) == |token| && Follows(s, open)
    ensures Follows(token + s, open)
  {
    if token == "" {
      assert token + s == s;
    } else {
      TokenLaid(token[1..], s, open);
      CharStep(token[0], token[1..] + s, open);
      assert [token[0]] + (token[1..] + s) == token + s;
    }
  }

  /** An escaped string, from behind its opening quote. */
  lemma {:induction false} EscapedLaid(chars: string, s: string, open: nat, before: char)
    requires LaidOut(s, open, false, '"')
    ensures LaidOut(Escape(chars) + "\"" + s, open, true, before)
  {
    if chars == "" {
      assert (Escape(chars) + "\"" + s)[1..] == s;
    } else {
      var e, t := EscapeChar(chars[0]), Escape(chars[1..]) + "\"" + s;
      assert Escape(chars) + "\"" + s == e + t;
      EscapedLaid(chars[1..], s, open, e[|e| - 1]);
      EscapedCharLaid(chars[0], t, open, before);
    }
  }

  lemma QuotedStep(c: char, t: string, open: nat, before: char)
    requires LaidOut(t, open, true, c) && c != '"' && c != '\\'
    ensures LaidOut([c] + t, open, true, before)
  {
    assert ([c] + t)[1..] == t;
  }

  lemma EscapedCharLaid(c: char, t: string, open: nat, before: char)
    requires LaidOut(t, open, true, EscapeChar(c)[|EscapeChar(c)| - 1])
    ensures LaidOut(EscapeChar(c) + t, open, true, before)
  {
    var e := EscapeChar(c);
    assert forall h :: 2 <= h < |e| ==> e[h] != '"' && e[h] != '\\';
    hide EscapeChar;
    if |e| == 1 {
      assert (e + t)[1..] == t;
    } else if |e| == 2 {
      assert (e + t)[2..] == t;
    } else {
      QuotedStep(e[5], t, open, e[4]);
      QuotedStep(e[4], [e[5]] + t, open, e[3]);
      QuotedStep(e[3], [e[4]] + ([e[5]] + t), open, e[2]);
      QuotedStep(e[2], [e[3]] + ([e[4]] + ([e[5]] + t)), open, e[1]);
      assert (e + t)[2..] == [e[2]] + ([e[3]] + ([e[4]] + ([e[5]] + t)));
    }
  }

  lemma QuoteLaid(chars: string, s: string, open: nat)
    requires Follows(s, open)
    ensures Follows("\"" + (Escape(chars) + "\"" + s), open)
  {
    EscapedLaid(chars, s, open, '"');
    assert ("\"" + (Escape(chars) + "\"" + s))[1..] == Escape(chars) + "\"" + s;
  }

  lemma NameLaid(name: string, value: Tree, s: string, open: nat)
    requires (IsCollection(value) ==> Plain(name)) && Follows(s, open) && s != "" && !IsSpace(s[0])
    ensures Follows(NameText(name, value) + s, open)
  {
    var t := ": " + s;
    assert t[1..] == " " + s && (" " + s)[1..] == s;
    assert LaidOut(s, open, false, ' ');
    assert LaidOut(" " + s, open, false, ':');
    assert OneBlank(t[1..]);
    assert LaidOut(t, open, false, '"');
    EscapedLaid(name, t, open, '"');
    NameThen(name, value, s);
    assert ("\"" + (Escape(name) + "\"" + t))[1..] == Escape(name) + "\"" + t;
  }

  /** Every printed value is laid out well, if what comes behind it is. */
  lemma {:induction false} ValueLaid(t: Tree, d: nat, nl: bool, rest: string)
    requires Valid(t) && PlainNames(t) && Follows(rest, d)
    ensures Follows(Print(t, d, nl) + rest, d)
    decreases t, 0
  {
    match t
    case Scalar(token) => TokenLaid(token, rest, d);
    case Quote(chars) =>
      QuoteLaid(chars, rest, d);
      assert Print(t, d, nl) + rest == "\"" + (Escape(chars) + "\"" + rest);
    case List(style, es) => ListLaid(es, d, nl && style == MultiLineStyle, rest);
    case Dict(style, ms) => DictLaid(ms, d, nl && style == MultiLineStyle, rest);
  }

  /** The first item of a collection. */
  lemma FirstLaid(c: char, d: nat, nl: bool, s: string)
    requires Opening(c) && Follows(s, d + 1) && Starts(s)
    ensures Follows([c] + (Sep(false, d + 1, nl) + s), d)
  {
    if nl {
      assert Sep(false, d + 1, nl) == "\n" + Spaces(d + 1);
      ItemLine(s, d + 1, c);
    } else {
      assert Sep(false, d + 1, nl) == "";
      assert "" + s == s;
      assert LaidOut(s, d + 1, false, c);
    }
    OpenStep(c, Sep(false, d + 1, nl) + s, d);
  }

  lemma EmptyLaid(o: char, c: char, d: nat, nl: bool, rest: string)
    requires Opening(o) && Closing(c) && Follows(rest, d)
    ensures Follows([o] + (Close(d, nl) + ([c] + rest)), d)
  {
    CloseLaid(d, nl, c, rest);
    assert LaidOut(Close(d, nl) + ([c] + rest), d + 1, false, o);
    OpenStep(o, Close(d, nl) + ([c] + rest), d);
  }

  lemma {:induction false} ListLaid(es: seq<Tree>, d: nat, nl: bool, rest: string)
    requires AllValid(es) && AllPlain(es) && Follows(rest, d)
    ensures Follows(("[" + PrintElements(es, true, d + 1, nl) + Close(d, nl) + "]") + rest, d)
    decreases es, 3
  {
    ListText(es, d, nl, rest);
    if es == [] {
      EmptyLaid('[', ']', d, nl, rest);
    } else {
      ElementsLaid(es, d, nl, rest);
      ElementsStart(es, d, nl, rest);
      FirstLaid('[', d, nl, ElementsText(es, d, nl, rest));
    }
  }

  lemma {:induction false} ElementsLaid(es: seq<Tree>, d: nat, nl: bool, rest: string)
    requires es != [] && AllValid(es) && AllPlain(es) && Follows(rest, d)
    ensures Follows(ElementsText(es, d, nl, rest), d + 1)
    decreases es, 1
  {
    if |es| == 1 {
      CloseLaid(d, nl, ']', rest);
    } else {
      ElementsLaid(es[1..], d, nl, rest);
      ElementsStart(es[1..], d, nl, rest);
      NextLaid(d + 1, nl, ElementsText(es[1..], d, nl, rest));
    }
    ValueLaid(es[0], d + 1, nl, Behind(es, d, nl, rest));
  }

  lemma {:induction false} DictLaid(ms: seq<Member>, d: nat, nl: bool, rest: string)
    requires AllValidMembers(ms) && AllPlainMembers(ms) && Follows(rest, d)
    ensures Follows(("{" + PrintMembers(ms, true, d + 1, nl) + Close(d, nl) + "}") + rest, d)
    decreases ms, 3
  {
    DictText(ms, d, nl, rest);
    if ms == [] {
      EmptyLaid('{', '}', d, nl, rest);
    } else {
      MembersLaid(ms, d, nl, rest);
      MembersStart(ms, d, nl, rest);
      FirstLaid('{', d, nl, MembersText(ms, d, nl, rest));
    }
  }

  lemma {:induction false} MembersLaid(ms: seq<Member>, d: nat, nl: bool, rest: string)
    requires ms != [] && AllValidMembers(ms) && AllPlainMembers(ms) && Follows(rest, d)
    ensures Follows(MembersText(ms, d, nl, rest), d + 1)
    decreases ms, 1
  {
    var more := if |ms| == 1 then Close(d, nl) + ("}" + rest)
                else "," + (Gap(d + 1, nl) + MembersText(ms[1..], d, nl, rest));
    if |ms| == 1 {
      CloseLaid(d, nl, '}', rest);
    } else {
      MembersLaid(ms[1..], d, nl, rest);
      MembersStart(ms[1..], d, nl, rest);
      NextLaid(d + 1, nl, MembersText(ms[1..], d, nl, rest));
    }
    ValueLaid(ms[0].value, d + 1, nl, more);
    PrintStarts(ms[0].value, d + 1, nl, more);
    NameLaid(ms[0].name, ms[0].value, Print(ms[0].value, d + 1, nl) + more, d + 1);
  }

  lemma LastNewline()
    ensures Follows("\n", 0) && Newlines("\n") == 1
  {
    assert "\n"[1..] == "" && Blanks("") == 0;
    forall c ensures LaidOut("\n", 0, false, c) {
      assert Indented("", 0, c);
    }
  }

  /** A whole document: so many lines, and laid out well from beginning to end. */
  lemma DocumentLaid(style: Style, ms: seq<Member>)
    requires AllValidMembers(ms) && AllPlainMembers(ms)
    ensures var text := Print(Dict(style, ms), 0, true) + "\n";
            LaidOut(text, 0, false, '\n') && Newlines(text) == Lines(Dict(style, ms), true) + 1
  {
    hide LaidOut;
    hide Newlines;
    hide Lines;
    hide Print;
    var t := Dict(style, ms);
    LineCount(t, 0, true);
    NewlinesAppend(Print(t, 0, true), "\n");
    LastNewline();
    ValueLaid(t, 0, true, "\n");
  }
}
