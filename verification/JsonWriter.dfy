/** JSON text as RFC 4627 defines it: a reader, written independently of the writer. */
module JsonText {
  import opened Options

  /** Numbers and the three literal names are kept as opaque tokens. */
  datatype Json =
    | Token(text: string)
    | Text(chars: string)
    | Array(elements: seq<Json>)
    | Object(members: seq<(string, Json)>)

  predicate IsSpace(c: char) {
    c == ' ' || c == '\t' || c == '\n' || c == '\r'
  }

  /** Drops leading whitespace. */
  function Skip(s: string): (r: string)
    ensures |r| <= |s|
    ensures r != "" ==> !IsSpace(r[0])
  {
    if s != "" && IsSpace(s[0]) then Skip(s[1..]) else s
  }

  predicate IsTokenChar(c: char) {
    'a' <= c <= 'z' || 'A' <= c <= 'Z' || '0' <= c <= '9' || c == '-' || c == '+' || c == '.'
  }

  function TokenLength(s: string): (n: nat)
    ensures n <= |s|
  {
    if s != "" && IsTokenChar(s[0]) then 1 + TokenLength(s[1..]) else 0
  }

  function HexValue(c: char): Option<nat> {
    if '0' <= c <= '9' then Some((c as int - '0' as int) as nat)
    else if 'a' <= c <= 'f' then Some((c as int - 'a' as int + 10) as nat)
    else if 'A' <= c <= 'F' then Some((c as int - 'A' as int + 10) as nat)
    else None
  }

  /** The UTF-8 bytes of a code point below 2^16, each kept in a char. */
  function Utf8(code: nat): string
    requires code < 0x10000
  {
    if code < 0x80 then [code as char]
    else if code < 0x800 then [(0xC0 + code / 0x40) as char, (0x80 + code % 0x40) as char]
    else [(0xE0 + code / 0x1000) as char, (0x80 + code / 0x40 % 0x40) as char, (0x80 + code % 0x40) as char]
  }

  /** Section 2.5: one escape sequence, without its backslash. The rest of the text comes with it. */
  function Unescape(s: string): (r: Option<(string, string)>)
    ensures r.Some? ==> |r.value.1| < |s|
  {
    if s == "" then None
    else if s[0] == '"' || s[0] == '\\' || s[0] == '/' then Some(([s[0]], s[1..]))
    else if s[0] == 'b' then Some(([8 as char], s[1..]))
    else if s[0] == 'f' then Some(([12 as char], s[1..]))
    else if s[0] == 'n' then Some((['\n'], s[1..]))
    else if s[0] == 'r' then Some((['\r'], s[1..]))
    else if s[0] == 't' then Some((['\t'], s[1..]))
    else if s[0] == 'u' && |s| >= 5 then
      match (HexValue(s[1]), HexValue(s[2]), HexValue(s[3]), HexValue(s[4]))
      case (Some(a), Some(b), Some(c), Some(d)) =>
        var code := ((a * 16 + b) * 16 + c) * 16 + d;
        if code < 0x10000 then Some((Utf8(code), s[5..])) else None
      case _ => None
    else None
  }

  /** A string from just after its opening quote to just after its closing one. */
  function Quoted(s: string): (r: Option<(string, string)>)
    ensures r.Some? ==> |r.value.1| < |s|
    decreases |s|
  {
    if s == "" || s[0] < ' ' then None
    else if s[0] == '"' then Some(("", s[1..]))
    else if s[0] == '\\' then
      var e := Unescape(s[1..]);
      if e.None? then None else
      var r := Quoted(e.value.1);
      if r.None? then None else Some((e.value.0 + r.value.0, r.value.1))
    else
      var r := Quoted(s[1..]);
      if r.None? then None else Some(([s[0]] + r.value.0, r.value.1))
  }

  /** A value at the very start of s. */
  function Value(s: string): (r: Option<(Json, string)>)
    ensures r.Some? ==> |r.value.1| < |s|
    decreases |s|, 0
  {
    if s == "" then None
    else if s[0] == '"' then
      var q := Quoted(s[1..]);
      if q.None? then None else Some((Text(q.value.0), q.value.1))
    else if s[0] == '[' then
      var t := Skip(s[1..]);
      if t != "" && t[0] == ']' then Some((Array([]), t[1..])) else
      var es := Elements(t);
      if es.None? then None else Some((Array(es.value.0), es.value.1))
    else if s[0] == '{' then
      var t := Skip(s[1..]);
      if t != "" && t[0] == '}' then Some((Object([]), t[1..])) else
      var ms := Members(t);
      if ms.None? then None else Some((Object(ms.value.0), ms.value.1))
    else
      var n := TokenLength(s);
      if n == 0 then None else Some((Token(s[..n]), s[n..]))
  }

  /** The elements of an array that has some, up to and including its bracket. */
  function Elements(s: string): (r: Option<(seq<Json>, string)>)
    ensures r.Some? ==> |r.value.1| < |s|
    decreases |s|, 1
  {
    var v := Value(s);
    if v.None? then None else
    var t := Skip(v.value.1);
    if t == "" then None
    else if t[0] == ']' then Some(([v.value.0], t[1..]))
    else if t[0] != ',' then None
    else
      var es := Elements(Skip(t[1..]));
      if es.None? then None else Some(([v.value.0] + es.value.0, es.value.1))
  }

  /** The members of an object that has some, up to and including its brace. */
  function Members(s: string): (r: Option<(seq<(string, Json)>, string)>)
    ensures r.Some? ==> |r.value.1| < |s|
    decreases |s|, 1
  {
    if s == "" || s[0] != '"' then None else
    var q := Quoted(s[1..]);
    if q.None? then None else
    var c := Skip(q.value.1);
    if c == "" || c[0] != ':' then None else
    var v := Value(Skip(c[1..]));
    if v.None? then None else
    var t := Skip(v.value.1);
    if t == "" then None
    else if t[0] == '}' then Some(([(q.value.0, v.value.0)], t[1..]))
    else if t[0] != ',' then None
    else
      var ms := Members(Skip(t[1..]));
      if ms.None? then None else Some(([(q.value.0, v.value.0)] + ms.value.0, ms.value.1))
  }

  /** A whole JSON text: an object or an array with nothing but whitespace around it. */
  function Parse(s: string): Option<Json> {
    var v := Value(Skip(s));
    if v.Some? && (v.value.0.Array? || v.value.0.Object?) && Skip(v.value.1) == ""
    then Some(v.value.0) else None
  }
}

/** What the writer prints, as functions, and that the reader reads it back. */
module JsonPrinting {
  import opened JsonText
  import opened Options

  datatype Style = MultiLineStyle | SingleLineStyle

  /** A value together with the style asked for each of its collections. */
  datatype Tree =
    | Scalar(token: string)
    | Quote(chars: string)
    | List(style: Style, elements: seq<Tree>)
    | Dict(style: Style, members: seq<Member>)

  datatype Member = Member(name: string, value: Tree)

  function Erase(t: Tree): Json {
    match t
    case Scalar(token) => Token(token)
    case Quote(chars) => Text(chars)
    case List(_, es) => Array(EraseAll(es))
    case Dict(_, ms) => Object(EraseMembers(ms))
  }

  function EraseAll(ts: seq<Tree>): seq<Json> {
    if ts == [] then [] else [Erase(ts[0])] + EraseAll(ts[1..])
  }

  function EraseMembers(ms: seq<Member>): seq<(string, Json)> {
    if ms == [] then [] else [(ms[0].name, Erase(ms[0].value))] + EraseMembers(ms[1..])
  }

  // ------------------------------------------------------------------- escaping

  /** gTwoCharEscapes: the second character of the short escape, or NUL for none. */
  function TwoCharEscape(c: char): char {
    if c == 8 as char then 'b'
    else if c == '\t' then 't'
    else if c == '\n' then 'n'
    else if c == 12 as char then 'f'
    else if c == '\r' then 'r'
    else if c == '"' then '"'
    else if c == '\\' then '\\'
    else '\0'
  }

  /** hexDigitToAsciiChar. */
  function HexDigit(u: nat): char
    requires u < 16
  {
    if u < 10 then ('0' as int + u) as char else ('a' as int + (u - 10)) as char
  }

  function EscapeChar(c: char): string {
    if TwoCharEscape(c) != '\0' then ['\\', TwoCharEscape(c)]
    else if c <= 0x1f as char then ['\\', 'u', '0', '0', HexDigit(c as int / 16), HexDigit(c as int % 16)]
    else [c]
  }

  function Escape(s: string): string {
    if s == "" then "" else EscapeChar(s[0]) + Escape(s[1..])
  }

  predicate Plain(s: string) {
    forall c :: c in s ==> TwoCharEscape(c) == '\0' && c > 0x1f as char
  }

  lemma {:induction false} EscapeAppend(s: string, t: string)
    ensures Escape(s + t) == Escape(s) + Escape(t)
  {
    if s == "" {
      assert s + t == t;
    } else {
      assert (s + t)[1..] == s[1..] + t;
      EscapeAppend(s[1..], t);
    }
  }

  /** Plain text is exactly the text that escaping leaves alone. */
  lemma {:induction false} EscapePlain(s: string)
    ensures |Escape(s)| >= |s|
    ensures Plain(s) <==> |Escape(s)| == |s|
    ensures Plain(s) ==> Escape(s) == s
  {
    if s != "" {
      EscapePlain(s[1..]);
      assert Plain(s) <==> Plain([s[0]]) && Plain(s[1..]) by {
        assert s == [s[0]] + s[1..];
      }
      assert s[0] in [s[0]];
    }
  }

  /** The seven short escapes, and three of the long ones. */
  lemma EscapesAre()
    ensures EscapeChar(8 as char) == "\\b" && EscapeChar(9 as char) == "\\t" && EscapeChar(10 as char) == "\\n"
    ensures EscapeChar(12 as char) == "\\f" && EscapeChar(13 as char) == "\\r"
    ensures EscapeChar('"') == "\\\"" && EscapeChar('\\') == "\\\\"
    ensures EscapeChar(1 as char) == "\\u0001" && EscapeChar(26 as char) == "\\u001a" && EscapeChar(31 as char) == "\\u001f"
  {
  }

  /** Reading an escaped string gives back the string, and stops at its closing quote. */
  lemma {:induction false} QuotedEscape(s: string, rest: string)
    ensures Quoted(Escape(s) + "\"" + rest) == Some((s, rest))
  {
    if s == "" {
      assert Escape(s) + "\"" + rest == "\"" + rest;
    } else {
      QuotedEscape(s[1..], rest);
      var tail := Escape(s[1..]) + "\"" + rest;
      assert Escape(s) + "\"" + rest == EscapeChar(s[0]) + tail;
      QuotedEscapeChar(s[0], tail);
      assert [s[0]] + s[1..] == s;
    }
  }

  lemma UnescapeShort(c: char, tail: string)
    requires TwoCharEscape(c) != '\0'
    ensures Unescape([TwoCharEscape(c)] + tail) == Some(([c], tail))
  {
    var s := [TwoCharEscape(c)] + tail;
    assert s[1..] == tail;
  }

  lemma UnescapeLong(c: char, tail: string)
    requires c <= 0x1f as char
    ensures Unescape(['u', '0', '0', HexDigit(c as int / 16), HexDigit(c as int % 16)] + tail) == Some(([c], tail))
  {
    var u := c as int;
    var s := ['u', '0', '0', HexDigit(u / 16), HexDigit(u % 16)] + tail;
    assert s[5..] == tail;
    assert HexValue(s[1]) == Some(0) && HexValue(s[2]) == Some(0);
    assert HexValue(s[3]) == Some(u / 16) && HexValue(s[4]) == Some(u % 16);
    assert Utf8(u) == [c];
  }

  /** A backslash and one escape sequence, then a string that reads. */
  lemma QuotedSequence(e: string, c: char, tail: string)
    requires Unescape(e + tail) == Some(([c], tail)) && Quoted(tail).Some?
    ensures Quoted(['\\'] + (e + tail)) == Some(([c] + Quoted(tail).value.0, Quoted(tail).value.1))
  {
    var s := ['\\'] + (e + tail);
    assert s[0] == '\\' && s[1..] == e + tail;
  }

  lemma QuotedRaw(c: char, tail: string)
    requires c >= ' ' && c != '"' && c != '\\' && Quoted(tail).Some?
    ensures Quoted([c] + tail) == Some(([c] + Quoted(tail).value.0, Quoted(tail).value.1))
  {
    var s := [c] + tail;
    assert s != "" && s[0] == c && s[1..] == tail;
  }

  lemma UnescapeAny(c: char, tail: string)
    requires TwoCharEscape(c) != '\0' || c <= 0x1f as char
    ensures Unescape(EscapeChar(c)[1..] + tail) == Some(([c], tail))
    ensures EscapeChar(c) + tail == ['\\'] + (EscapeChar(c)[1..] + tail)
  {
    if TwoCharEscape(c) != '\0' {
      UnescapeShort(c, tail);
    } else {
      UnescapeLong(c, tail);
    }
  }

  lemma QuotedEscapeChar(c: char, tail: string)
    requires Quoted(tail).Some?
    ensures Quoted(EscapeChar(c) + tail) == Some(([c] + Quoted(tail).value.0, Quoted(tail).value.1))
  {
    if TwoCharEscape(c) == '\0' && c > 0x1f as char {
      QuotedRaw(c, tail);
    } else {
      UnescapeAny(c, tail);
      QuotedSequence(EscapeChar(c)[1..], c, tail);
    }
  }

  // ------------------------------------------------------------------- printing

  predicate IsCollection(t: Tree) {
    t.List? || t.Dict?
  }

  /** Tokens are what the number formatting produces; C strings hold no NUL. */
  predicate Valid(t: Tree) {
    match t
    case Scalar(token) => token != "" && TokenLength(token) == |token|
    case Quote(chars) => '\0' !in chars
    case List(_, es) => AllValid(es)
    case Dict(_, ms) => AllValidMembers(ms)
  }

  predicate AllValid(ts: seq<Tree>) {
    ts == [] || (Valid(ts[0]) && AllValid(ts[1..]))
  }

  predicate AllValidMembers(ms: seq<Member>) {
    ms == [] || (Valid(ms[0].value) && '\0' !in ms[0].name && AllValidMembers(ms[1..]))
  }

  /** No name of a collection needs escaping: StartCollection does not escape names. */
  predicate PlainNames(t: Tree) {
    match t
    case Scalar(_) => true
    case Quote(_) => true
    case List(_, es) => AllPlain(es)
    case Dict(_, ms) => AllPlainMembers(ms)
  }

  predicate AllPlain(ts: seq<Tree>) {
    ts == [] || (PlainNames(ts[0]) && AllPlain(ts[1..]))
  }

  predicate AllPlainMembers(ms: seq<Member>) {
    ms == [] || ((IsCollection(ms[0].value) ==> Plain(ms[0].name)) && PlainNames(ms[0].value)
                 && AllPlainMembers(ms[1..]))
  }

  function Spaces(n: nat): string {
    if n == 0 then "" else " " + Spaces(n - 1)
  }

  /** What Separator writes. */
  function Sep(needComma: bool, d: nat, nl: bool): string {
    (if needComma then "," else "")
    + (if d > 0 && nl then "\n" + Spaces(d) else if needComma then " " else "")
  }

  /** A property name with its quotes and colon; the names of collections are not escaped. */
  function NameText(name: string, value: Tree): string {
    "\"" + (if IsCollection(value) then name else Escape(name)) + "\": "
  }

  /** A value at depth d in a collection that does, or does not, put items on lines of their own. */
  function Print(t: Tree, d: nat, nl: bool): string
    decreases t, 0
  {
    match t
    case Scalar(token) => token
    case Quote(chars) => "\"" + Escape(chars) + "\""
    case List(style, es) =>
      var nl' := nl && style == MultiLineStyle;
      "[" + PrintElements(es, true, d + 1, nl') + Close(d, nl') + "]"
    case Dict(style, ms) =>
      var nl' := nl && style == MultiLineStyle;
      "{" + PrintMembers(ms, true, d + 1, nl') + Close(d, nl') + "}"
  }

  function PrintElements(ts: seq<Tree>, first: bool, d: nat, nl: bool): string
    decreases ts, 1
  {
    if ts == [] then ""
    else Sep(!first, d, nl) + Print(ts[0], d, nl) + PrintElements(ts[1..], false, d, nl)
  }

  function PrintMembers(ms: seq<Member>, first: bool, d: nat, nl: bool): string
    decreases ms, 1
  {
    if ms == [] then ""
    else Sep(!first, d, nl) + NameText(ms[0].name, ms[0].value) + Print(ms[0].value, d, nl)
         + PrintMembers(ms[1..], false, d, nl)
  }

  /** What EndCollection writes before the closing character. */
  function Close(d: nat, nl: bool): string {
    if nl then "\n" + Spaces(d) else ""
  }

  // ----------------------------------------------------------------- round trip

  predicate Blank(w: string) {
    forall c :: c in w ==> IsSpace(c)
  }

  lemma {:induction false} SpacesBlank(n: nat)
    ensures Blank(Spaces(n))
  {
    if n > 0 { SpacesBlank(n - 1); }
  }

  lemma {:induction false} SkipBlank(w: string, s: string)
    requires Blank(w) && (s == "" || !IsSpace(s[0]))
    ensures Skip(w + s) == s
  {
    if w == "" {
      assert w + s == s;
    } else {
      assert (w + s)[1..] == w[1..] + s && IsSpace(w[0]);
      SkipBlank(w[1..], s);
    }
  }

  /** What may follow a value: nothing that would make a token longer. */
  predicate Ends(s: string) {
    s == "" || !IsTokenChar(s[0])
  }

  lemma NewlineEnds()
    ensures Ends("\n")
  {
    assert "\n"[0] == '\n';
  }

  lemma {:induction false} TokenEnds(token: string, s: string)
    requires TokenLength(token) == |token| && Ends(s)
    ensures TokenLength(token + s) == |token|
  {
    if token == "" {
      assert token + s == s;
    } else {
      assert (token + s)[1..] == token[1..] + s;
      TokenEnds(token[1..], s);
    }
  }

  // Single steps of the reader, on text given in pieces.

  lemma StepToken(token: string, rest: string)
    requires token != "" && TokenLength(token) == |token| && Ends(rest)
    ensures Value(token + rest) == Some((Token(token), rest))
  {
    TokenEnds(token, rest);
    var s := token + rest;
    assert IsTokenChar(s[0]);
    assert s[..|token|] == token && s[|token|..] == rest;
  }

  lemma StepText(chars: string, rest: string)
    ensures Value("\"" + (Escape(chars) + "\"" + rest)) == Some((Text(chars), rest))
  {
    QuotedEscape(chars, rest);
    assert ("\"" + (Escape(chars) + "\"" + rest))[1..] == Escape(chars) + "\"" + rest;
  }

  lemma StepEmpty(w: string, rest: string)
    requires Blank(w)
    ensures Value("[" + (w + ("]" + rest))) == Some((Array([]), rest))
    ensures Value("{" + (w + ("}" + rest))) == Some((Object([]), rest))
  {
    SkipBlank(w, "]" + rest);
    SkipBlank(w, "}" + rest);
    assert ("[" + (w + ("]" + rest)))[1..] == w + ("]" + rest);
    assert ("{" + (w + ("}" + rest)))[1..] == w + ("}" + rest);
    assert ("]" + rest)[1..] == rest && ("}" + rest)[1..] == rest;
  }

  predicate Starts(s: string) {
    s != "" && !IsSpace(s[0]) && s[0] != ']' && s[0] != '}'
  }

  lemma StepArray(w: string, s: string, es: seq<Json>, rest: string)
    requires Blank(w) && Starts(s) && Elements(s) == Some((es, rest))
    ensures Value("[" + (w + s)) == Some((Array(es), rest))
  {
    SkipBlank(w, s);
    assert ("[" + (w + s))[1..] == w + s;
  }

  lemma StepObject(w: string, s: string, ms: seq<(string, Json)>, rest: string)
    requires Blank(w) && Starts(s) && Members(s) == Some((ms, rest))
    ensures Value("{" + (w + s)) == Some((Object(ms), rest))
  {
    SkipBlank(w, s);
    assert ("{" + (w + s))[1..] == w + s;
  }

  lemma StepLastElement(s: string, v: Json, w: string, rest: string)
    requires Blank(w) && Value(s) == Some((v, w + ("]" + rest)))
    ensures Elements(s) == Some(([v], rest))
  {
    SkipBlank(w, "]" + rest);
    assert ("]" + rest)[1..] == rest;
  }

  lemma StepElement(s: string, v: Json, w: string, t: string, es: seq<Json>, rest: string)
    requires Blank(w) && Starts(t) && Value(s) == Some((v, "," + (w + t)))
    requires Elements(t) == Some((es, rest))
    ensures Elements(s) == Some(([v] + es, rest))
  {
    SkipBlank(w, t);
    assert ("," + (w + t))[1..] == w + t;
    assert Skip("," + (w + t)) == "," + (w + t);
  }

  /** An escape sequence is not shorter than what it stands for. */
  lemma UnescapeShrinks(s: string)
    requires Unescape(s).Some?
    ensures |s| >= |Unescape(s).value.0| + |Unescape(s).value.1|
  {
  }

  /** A string takes at least its characters and the closing quote, and more if there is an escape
      sequence in it. */
  lemma {:induction false} QuotedLength(s: string)
    requires Quoted(s).Some?
    ensures var q := Quoted(s).value;
            |s| >= |q.0| + 1 + |q.1| && (|s| == |q.0| + 1 + |q.1| ==> Plain(q.0))
    decreases |s|
  {
    if s[0] == '"' {
    } else if s[0] == '\\' {
      UnescapeShrinks(s[1..]);
      QuotedLength(Unescape(s[1..]).value.1);
    } else {
      QuotedLength(s[1..]);
      var t := Quoted(s[1..]).value.0;
      if Plain(t) {
        PlainCons(s[0], t);
      }
    }
  }

  lemma PlainCons(c: char, t: string)
    requires Plain(t) && c >= ' ' && c != '"' && c != '\\'
    ensures Plain([c] + t)
  {
    assert forall d :: d in [c] + t ==> d == c || d in t;
  }

  /** A name that is written as it is reads back as itself if and only if it needs no escaping. This
      is what StartCollection does with the names of collections. */
  lemma RawNameIff(name: string, rest: string)
    ensures Quoted(name + "\"" + rest) == Some((name, rest)) <==> Plain(name)
  {
    if Plain(name) {
      EscapePlain(name);
      QuotedEscape(name, rest);
    }
    if Quoted(name + "\"" + rest) == Some((name, rest)) {
      QuotedLength(name + "\"" + rest);
    }
  }

  lemma CollectionNameIff(name: string, value: Tree, v: string)
    requires IsCollection(value)
    ensures var s := NameText(name, value) + v;
            s[0] == '"' && (Quoted(s[1..]) == Some((name, ": " + v)) <==> Plain(name))
  {
    var s := NameText(name, value) + v;
    assert s[1..] == name + "\"" + (": " + v);
    RawNameIff(name, ": " + v);
  }

  /** With a quote in it the name ends too early. */
  lemma QuoteInName(rest: string)
    ensures Quoted("a\"" + "\"" + rest) == Some(("a", "\"" + rest))
  {
    var s := "a\"" + "\"" + rest;
    var t := "\"" + ("\"" + rest);
    assert s[0] == 'a' && s[1..] == t;
    assert t[0] == '"' && t[1..] == "\"" + rest;
    assert Quoted(t) == Some(("", "\"" + rest));
    assert ['a'] + "" == "a";
  }

  /** The quoted name, the colon and the blank before a member's value. */
  lemma StepName(name: string, value: Tree, v: string)
    requires IsCollection(value) ==> Plain(name)
    requires v != "" && !IsSpace(v[0])
    ensures var s := NameText(name, value) + v;
      s[0] == '"' && Quoted(s[1..]) == Some((name, ": " + v))
    ensures Skip(": " + v) == ": " + v && Skip((": " + v)[1..]) == v
  {
    NameThen(name, value, v);
    QuotedEscape(name, ": " + v);
    assert (": " + v)[1..] == " " + v;
    SkipBlank(" ", v);
  }

  lemma NameThen(name: string, value: Tree, v: string)
    requires IsCollection(value) ==> Plain(name)
    ensures NameText(name, value) + v == "\"" + (Escape(name) + "\"" + (": " + v))
  {
    EscapePlain(name);
  }

  lemma StepLastMember(name: string, value: Tree, s: string, v: Json, w: string, rest: string)
    requires (IsCollection(value) ==> Plain(name)) && s != "" && !IsSpace(s[0])
    requires Blank(w) && Value(s) == Some((v, w + ("}" + rest)))
    ensures Members(NameText(name, value) + s) == Some(([(name, v)], rest))
  {
    StepName(name, value, s);
    SkipBlank(w, "}" + rest);
    assert ("}" + rest)[1..] == rest;
  }

  lemma StepMember(name: string, value: Tree, s: string, v: Json, w: string, t: string,
                   ms: seq<(string, Json)>, rest: string)
    requires (IsCollection(value) ==> Plain(name)) && s != "" && !IsSpace(s[0])
    requires Blank(w) && Starts(t) && Value(s) == Some((v, "," + (w + t)))
    requires Members(t) == Some((ms, rest))
    ensures Members(NameText(name, value) + s) == Some(([(name, v)] + ms, rest))
  {
    StepName(name, value, s);
    SkipBlank(w, t);
    assert ("," + (w + t))[1..] == w + t;
    assert Skip("," + (w + t)) == "," + (w + t);
  }

  /** What Separator writes after its comma. */
  function Gap(d: nat, nl: bool): string {
    if nl then "\n" + Spaces(d) else " "
  }

  lemma GapBlank(d: nat, nl: bool)
    ensures Blank(Gap(d, nl)) && Blank(Close(d, nl)) && Blank(Sep(false, d, nl))
    ensures d > 0 ==> Sep(true, d, nl) == "," + Gap(d, nl)
  {
    SpacesBlank(d);
  }

  // The printed text of a collection, from an item on, up to and including the closing character.

  function ElementsText(es: seq<Tree>, d: nat, nl: bool, rest: string): string
    requires es != []
    decreases es
  {
    Print(es[0], d + 1, nl)
    + if |es| == 1 then Close(d, nl) + ("]" + rest)
      else "," + (Gap(d + 1, nl) + ElementsText(es[1..], d, nl, rest))
  }

  lemma {:induction false} ElementsTextIs(es: seq<Tree>, d: nat, nl: bool, rest: string, first: bool)
    requires es != []
    ensures PrintElements(es, first, d + 1, nl) + (Close(d, nl) + ("]" + rest))
            == Sep(!first, d + 1, nl) + ElementsText(es, d, nl, rest)
    decreases es
  {
    var tail := Close(d, nl) + ("]" + rest);
    var p, q := Print(es[0], d + 1, nl), PrintElements(es[1..], false, d + 1, nl);
    var sep := Sep(!first, d + 1, nl);
    Assoc(sep, p, q, tail);
    GapBlank(d + 1, nl);
    if |es| == 1 {
      assert q == "" && q + tail == tail;
    } else {
      ElementsTextIs(es[1..], d, nl, rest, false);
      Assoc2(",", Gap(d + 1, nl), ElementsText(es[1..], d, nl, rest));
    }
  }

  lemma Assoc(a: string, b: string, c: string, d: string)
    ensures (a + b + c) + d == a + (b + (c + d))
  {
  }

  lemma Assoc2(a: string, b: string, c: string)
    ensures (a + b) + c == a + (b + c)
  {
  }

  function MembersText(ms: seq<Member>, d: nat, nl: bool, rest: string): string
    requires ms != []
    decreases ms
  {
    NameText(ms[0].name, ms[0].value)
    + (Print(ms[0].value, d + 1, nl)
       + if |ms| == 1 then Close(d, nl) + ("}" + rest)
         else "," + (Gap(d + 1, nl) + MembersText(ms[1..], d, nl, rest)))
  }

  lemma {:induction false} MembersTextIs(ms: seq<Member>, d: nat, nl: bool, rest: string, first: bool)
    requires ms != []
    ensures PrintMembers(ms, first, d + 1, nl) + (Close(d, nl) + ("}" + rest))
            == Sep(!first, d + 1, nl) + MembersText(ms, d, nl, rest)
    decreases ms
  {
    var tail := Close(d, nl) + ("}" + rest);
    var n, p := NameText(ms[0].name, ms[0].value), Print(ms[0].value, d + 1, nl);
    var q, sep := PrintMembers(ms[1..], false, d + 1, nl), Sep(!first, d + 1, nl);
    Assoc(sep + n, p, q, tail);
    Assoc2(sep, n, p + (q + tail));
    GapBlank(d + 1, nl);
    if |ms| == 1 {
      assert q == "" && q + tail == tail;
    } else {
      MembersTextIs(ms[1..], d, nl, rest, false);
      Assoc2(",", Gap(d + 1, nl), MembersText(ms[1..], d, nl, rest));
    }
  }

  lemma PrintStarts(t: Tree, d: nat, nl: bool, rest: string)
    requires Valid(t)
    ensures Starts(Print(t, d, nl) + rest)
  {
    if t.Scalar? { assert IsTokenChar(t.token[0]); }
  }

  lemma ElementsStart(es: seq<Tree>, d: nat, nl: bool, rest: string)
    requires es != [] && AllValid(es)
    ensures Starts(ElementsText(es, d, nl, rest))
  {
    PrintStarts(es[0], d + 1, nl, ElementsText(es, d, nl, rest)[|Print(es[0], d + 1, nl)|..]);
  }

  lemma MembersStart(ms: seq<Member>, d: nat, nl: bool, rest: string)
    requires ms != []
    ensures Starts(MembersText(ms, d, nl, rest))
  {
  }

  lemma EraseOne(t: Tree)
    ensures EraseAll([t]) == [Erase(t)]
  {
  }

  lemma EraseOneMember(m: Member)
    ensures EraseMembers([m]) == [(m.name, Erase(m.value))]
  {
  }

  lemma {:induction false} ReadElements(es: seq<Tree>, d: nat, nl: bool, rest: string)
    requires es != [] && AllValid(es) && AllPlain(es)
    ensures Elements(ElementsText(es, d, nl, rest)) == Some((EraseAll(es), rest))
    decreases es, 1
  {
    GapBlank(d, nl);
    GapBlank(d + 1, nl);
    var s, v := ElementsText(es, d, nl, rest), Erase(es[0]);
    if |es| == 1 {
      ReadValue(es[0], d + 1, nl, Close(d, nl) + ("]" + rest));
      StepLastElement(s, v, Close(d, nl), rest);
      EraseOne(es[0]);
      assert es == [es[0]];
    } else {
      var t := ElementsText(es[1..], d, nl, rest);
      ReadValue(es[0], d + 1, nl, "," + (Gap(d + 1, nl) + t));
      ReadElements(es[1..], d, nl, rest);
      ElementsStart(es[1..], d, nl, rest);
      StepElement(s, v, Gap(d + 1, nl), t, EraseAll(es[1..]), rest);
    }
  }

  lemma {:induction false} ReadMembers(ms: seq<Member>, d: nat, nl: bool, rest: string)
    requires ms != [] && AllValidMembers(ms) && AllPlainMembers(ms)
    ensures Members(MembersText(ms, d, nl, rest)) == Some((EraseMembers(ms), rest))
    decreases ms, 1
  {
    GapBlank(d, nl);
    GapBlank(d + 1, nl);
    var name, value := ms[0].name, ms[0].value;
    if |ms| == 1 {
      var more := Close(d, nl) + ("}" + rest);
      ReadValue(value, d + 1, nl, more);
      PrintStarts(value, d + 1, nl, more);
      StepLastMember(name, value, Print(value, d + 1, nl) + more, Erase(value), Close(d, nl), rest);
      EraseOneMember(ms[0]);
      assert ms == [ms[0]];
    } else {
      var t := MembersText(ms[1..], d, nl, rest);
      var more := "," + (Gap(d + 1, nl) + t);
      ReadValue(value, d + 1, nl, more);
      PrintStarts(value, d + 1, nl, more);
      ReadMembers(ms[1..], d, nl, rest);
      MembersStart(ms[1..], d, nl, rest);
      StepMember(name, value, Print(value, d + 1, nl) + more, Erase(value), Gap(d + 1, nl), t, EraseMembers(ms[1..]), rest);
    }
  }

  /** The reader, at any printed value followed by anything that can follow one, reads that value. */
  lemma {:induction false} ReadValue(t: Tree, d: nat, nl: bool, rest: string)
    requires Valid(t) && PlainNames(t) && Ends(rest)
    ensures Value(Print(t, d, nl) + rest) == Some((Erase(t), rest))
    decreases t, 0
  {
    match t
    case Scalar(token) => StepToken(token, rest);
    case Quote(chars) =>
      StepText(chars, rest);
      assert Print(t, d, nl) + rest == "\"" + (Escape(chars) + "\"" + rest);
    case List(style, es) => ReadList(es, d, nl && style == MultiLineStyle, rest);
    case Dict(style, ms) => ReadDict(ms, d, nl && style == MultiLineStyle, rest);
  }

  lemma Bracketed(open: string, a: string, b: string, close: string, rest: string)
    ensures (open + a + b + close) + rest == open + (a + (b + (close + rest)))
  {
    Assoc2(open + a + b, close, rest);
    Assoc2(open + a, b, close + rest);
  }

  lemma {:induction false} ReadArray(es: seq<Tree>, w: string, d: nat, nl: bool, rest: string)
    requires es != [] && AllValid(es) && AllPlain(es) && Blank(w)
    ensures Value("[" + (w + ElementsText(es, d, nl, rest))) == Some((Array(EraseAll(es)), rest))
    decreases es, 2
  {
    ReadElements(es, d, nl, rest);
    ElementsStart(es, d, nl, rest);
    StepArray(w, ElementsText(es, d, nl, rest), EraseAll(es), rest);
  }

  /** A collection's text, regrouped the way the reader takes it. */
  lemma ListText(es: seq<Tree>, d: nat, nl: bool, rest: string)
    ensures ("[" + PrintElements(es, true, d + 1, nl) + Close(d, nl) + "]") + rest
      == "[" + if es == [] then Close(d, nl) + ("]" + rest) else Sep(false, d + 1, nl) + ElementsText(es, d, nl, rest)
  {
    var p := PrintElements(es, true, d + 1, nl);
    Bracketed("[", p, Close(d, nl), "]", rest);
    if es == [] {
      assert p + (Close(d, nl) + ("]" + rest)) == Close(d, nl) + ("]" + rest);
    } else {
      ElementsTextIs(es, d, nl, rest, true);
    }
  }

  lemma {:induction false} ReadList(es: seq<Tree>, d: nat, nl: bool, rest: string)
    requires AllValid(es) && AllPlain(es)
    ensures Value(("[" + PrintElements(es, true, d + 1, nl) + Close(d, nl) + "]") + rest) == Some((Array(EraseAll(es)), rest))
    decreases es, 3
  {
    GapBlank(d, nl);
    GapBlank(d + 1, nl);
    ListText(es, d, nl, rest);
    if es == [] {
      StepEmpty(Close(d, nl), rest);
    } else {
      ReadArray(es, Sep(false, d + 1, nl), d, nl, rest);
    }
  }

  lemma {:induction false} ReadObject(ms: seq<Member>, w: string, d: nat, nl: bool, rest: string)
    requires ms != [] && AllValidMembers(ms) && AllPlainMembers(ms) && Blank(w)
    ensures Value("{" + (w + MembersText(ms, d, nl, rest))) == Some((Object(EraseMembers(ms)), rest))
    decreases ms, 2
  {
    ReadMembers(ms, d, nl, rest);
    MembersStart(ms, d, nl, rest);
    StepObject(w, MembersText(ms, d, nl, rest), EraseMembers(ms), rest);
  }

  /** A collection's text, regrouped the way the reader takes it. */
  lemma DictText(ms: seq<Member>, d: nat, nl: bool, rest: string)
    ensures ("{" + PrintMembers(ms, true, d + 1, nl) + Close(d, nl) + "}") + rest
      == "{" + if ms == [] then Close(d, nl) + ("}" + rest) else Sep(false, d + 1, nl) + MembersText(ms, d, nl, rest)
  {
    var p := PrintMembers(ms, true, d + 1, nl);
    Bracketed("{", p, Close(d, nl), "}", rest);
    if ms == [] {
      assert p + (Close(d, nl) + ("}" + rest)) == Close(d, nl) + ("}" + rest);
    } else {
      MembersTextIs(ms, d, nl, rest, true);
    }
  }

  lemma {:induction false} ReadDict(ms: seq<Member>, d: nat, nl: bool, rest: string)
    requires AllValidMembers(ms) && AllPlainMembers(ms)
    ensures Value(("{" + PrintMembers(ms, true, d + 1, nl) + Close(d, nl) + "}") + rest) == Some((Object(EraseMembers(ms)), rest))
    decreases ms, 3
  {
    GapBlank(d, nl);
    GapBlank(d + 1, nl);
    DictText(ms, d, nl, rest);
    if ms == [] {
      StepEmpty(Close(d, nl), rest);
    } else {
      ReadObject(ms, Sep(false, d + 1, nl), d, nl, rest);
    }
  }

  // ------------------------------------------------- names that do not read back

  /** No backslash comes before the first quote. */
  predicate NoSlashFirst(s: string) {
    s == "" || s[0] == '"' || (s[0] != '\\' && NoSlashFirst(s[1..]))
  }

  lemma {:induction false} NoSlashAppend(s: string, t: string)
    requires NoSlashFirst(s) && NoSlashFirst(t)
    ensures NoSlashFirst(s + t)
  {
    if s == "" {
      assert s + t == t;
    } else if s[0] != '"' {
      assert (s + t)[1..] == s[1..] + t;
      NoSlashAppend(s[1..], t);
    }
  }

  /** After a quote anything may come. */
  lemma {:induction false} NoSlashThen(s: string, t: string)
    requires NoSlashFirst(s) && '"' in s
    ensures NoSlashFirst(s + t) && '"' in s + t
  {
    if s[0] != '"' {
      assert (s + t)[1..] == s[1..] + t;
      NoSlashThen(s[1..], t);
    }
  }

  lemma {:induction false} NoSlashWithout(s: string)
    requires forall c :: c in s ==> c != '\\'
    ensures NoSlashFirst(s)
  {
    if s != "" {
      assert forall c :: c in s[1..] ==> c in s;
      assert s[0] in s;
      NoSlashWithout(s[1..]);
    }
  }

  lemma {:induction false} TokenNoSlash(token: string)
    requires TokenLength(token) == |token|
    ensures NoSlashFirst(token)
  {
    if token != "" {
      TokenNoSlash(token[1..]);
    }
  }

  lemma LayoutNoSlash(needComma: bool, d: nat, nl: bool)
    ensures NoSlashFirst(Sep(needComma, d, nl)) && NoSlashFirst(Close(d, nl)) && NoSlashFirst(Gap(d, nl))
  {
    SpacesBlank(d);
    NoSlashWithout(Sep(needComma, d, nl));
    NoSlashWithout(Close(d, nl));
    NoSlashWithout(Gap(d, nl));
  }

  /** In printed text every backslash is inside of quotes. */
  lemma {:induction false} PrintNoSlash(t: Tree, d: nat, nl: bool)
    requires Valid(t)
    ensures NoSlashFirst(Print(t, d, nl))
    decreases t, 0
  {
    if t.Scalar? {
      TokenNoSlash(t.token);
    } else if t.List? {
      var nl' := nl && t.style == MultiLineStyle;
      ElementsNoSlash(t.elements, true, d + 1, nl');
      BracketedNoSlash("[", PrintElements(t.elements, true, d + 1, nl'), d, nl', "]");
    } else if t.Dict? {
      var nl' := nl && t.style == MultiLineStyle;
      MembersNoSlash(t.members, true, d + 1, nl');
      BracketedNoSlash("{", PrintMembers(t.members, true, d + 1, nl'), d, nl', "}");
    }
  }

  lemma BracketedNoSlash(open: string, body: string, d: nat, nl: bool, close: string)
    requires NoSlashFirst(open) && NoSlashFirst(body) && NoSlashFirst(close)
    ensures NoSlashFirst(open + body + Close(d, nl) + close)
  {
    LayoutNoSlash(true, d, nl);
    NoSlashAppend(open, body);
    NoSlashAppend(open + body, Close(d, nl));
    NoSlashAppend(open + body + Close(d, nl), close);
  }

  lemma {:induction false} ElementsNoSlash(ts: seq<Tree>, first: bool, d: nat, nl: bool)
    requires AllValid(ts)
    ensures NoSlashFirst(PrintElements(ts, first, d, nl))
    decreases ts, 1
  {
    if ts != [] {
      LayoutNoSlash(!first, d, nl);
      PrintNoSlash(ts[0], d, nl);
      ElementsNoSlash(ts[1..], false, d, nl);
      NoSlashAppend(Sep(!first, d, nl), Print(ts[0], d, nl));
      NoSlashAppend(Sep(!first, d, nl) + Print(ts[0], d, nl), PrintElements(ts[1..], false, d, nl));
    }
  }

  lemma MembersNoSlash(ms: seq<Member>, first: bool, d: nat, nl: bool)
    requires AllValidMembers(ms)
    ensures NoSlashFirst(PrintMembers(ms, first, d, nl))
  {
    if ms != [] {
      var sep, name := Sep(!first, d, nl), NameText(ms[0].name, ms[0].value);
      LayoutNoSlash(!first, d, nl);
      assert name[0] == '"';
      hide Sep;
      hide NameText;
      NoSlashAppend(sep, name);
      NoSlashThen(sep + name, Print(ms[0].value, d, nl));
      NoSlashThen(sep + name + Print(ms[0].value, d, nl), PrintMembers(ms[1..], false, d, nl));
    }
  }

  /** Text without a backslash before its first quote is read as it stands. */
  lemma {:induction false} QuotedNoSlash(v: string)
    requires NoSlashFirst(v) && Quoted(v).Some?
    ensures var q := Quoted(v).value.0; q == "" || q[|q| - 1] != '\\'
  {
    if v[0] != '"' {
      QuotedNoSlash(v[1..]);
    }
  }

  lemma QuoteAtOnce(a: string, v: string)
    ensures a == "" ==> Quoted(a + "\"" + v) == Some(("", v))
  {
    assert a == "" ==> a + "\"" + v == "\"" + v;
    assert ("\"" + v)[1..] == v;
  }

  /** An escape sequence that begins before the last character does not take the quote. */
  lemma EscapeWithin(a: string, v: string) returns (k: nat)
    requires |a| > 1 && Unescape((a + "\"" + v)[1..]).Some?
    ensures 1 < k <= |a| && Unescape((a + "\"" + v)[1..]).value.1 == a[k..] + "\"" + v
  {
    var s := a + "\"" + v;
    k := |s| - |Unescape(s[1..]).value.1|;
    assert |a| < 6 ==> s[|a|] == '"' && HexValue('"') == None;
    assert k <= |a| && s[k..] == Unescape(s[1..]).value.1;
    assert s[k..] == a[k..] + "\"" + v;
  }

  /** If the quote behind a does not end the string, it is escaped: a ends with a backslash. But what
      was read does not. */
  lemma {:induction false} PassedQuote(a: string, v: string)
    requires NoSlashFirst(v) && Quoted(a + "\"" + v).Some? && |Quoted(a + "\"" + v).value.1| < |v|
    ensures var q := Quoted(a + "\"" + v).value.0;
            a != "" && a[|a| - 1] == '\\' && q != "" && q[|q| - 1] != '\\'
    decreases |a|
  {
    var s := a + "\"" + v;
    QuoteAtOnce(a, v);
    if a == "" {
    } else if a[0] == '\\' {
      var e := Unescape(s[1..]).value;
      if |a| == 1 {
        assert s[1..] == "\"" + v && ("\"" + v)[1..] == v;
        QuotedNoSlash(v);
      } else {
        var k := EscapeWithin(a, v);
        PassedQuote(a[k..], v);
      }
    } else {
      assert s[1..] == a[1..] + "\"" + v;
      PassedQuote(a[1..], v);
    }
  }

  /** The reader finds the name that was written as it is only if that needs no escaping, whatever
      comes after it. */
  lemma OnlyPlainName(name: string, v: string)
    requires NoSlashFirst(v) && Quoted(name + "\"" + v).Some? && Quoted(name + "\"" + v).value.0 == name
    ensures Plain(name)
  {
    if |Quoted(name + "\"" + v).value.1| < |v| {
      PassedQuote(name, v);
    } else {
      QuotedLength(name + "\"" + v);
    }
  }

  // The other way round: what reads back has plain names only.

  lemma MoreNoSlash(d: nat, nl: bool, c: char, rest: string)
    requires NoSlashFirst(rest) && c != '\\'
    ensures NoSlashFirst(Close(d, nl) + ([c] + rest))
  {
    LayoutNoSlash(true, d, nl);
    NoSlashAppend([c], rest);
    NoSlashAppend(Close(d, nl), [c] + rest);
  }

  lemma {:induction false} ElementsTextNoSlash(es: seq<Tree>, d: nat, nl: bool, rest: string)
    requires es != [] && AllValid(es) && NoSlashFirst(rest)
    ensures NoSlashFirst(ElementsText(es, d, nl, rest))
    decreases es
  {
    PrintNoSlash(es[0], d + 1, nl);
    if |es| == 1 {
      MoreNoSlash(d, nl, ']', rest);
      NoSlashAppend(Print(es[0], d + 1, nl), Close(d, nl) + ("]" + rest));
    } else {
      var t := ElementsText(es[1..], d, nl, rest);
      ElementsTextNoSlash(es[1..], d, nl, rest);
      GapNoSlash(d, nl, t);
      NoSlashAppend(Print(es[0], d + 1, nl), "," + (Gap(d + 1, nl) + t));
    }
  }

  lemma CloseEnds(d: nat, nl: bool, c: char, rest: string)
    requires !IsTokenChar(c)
    ensures Ends(Close(d, nl) + ([c] + rest))
  {
  }

  lemma GapNoSlash(d: nat, nl: bool, t: string)
    requires NoSlashFirst(t)
    ensures NoSlashFirst("," + (Gap(d + 1, nl) + t))
  {
    LayoutNoSlash(true, d + 1, nl);
    NoSlashAppend(Gap(d + 1, nl), t);
    NoSlashAppend(",", Gap(d + 1, nl) + t);
  }

  /** What comes behind the element number 0 of several. */
  function Behind(es: seq<Tree>, d: nat, nl: bool, rest: string): string
    requires es != []
  {
    if |es| == 1 then Close(d, nl) + ("]" + rest) else "," + (Gap(d + 1, nl) + ElementsText(es[1..], d, nl, rest))
  }

  lemma FirstElement(s: string, vs: seq<Json>)
    requires Elements(s).Some? && Elements(s).value.0 == vs && vs != []
    ensures Value(s).Some? && Value(s).value.0 == vs[0]
  {
  }

  lemma {:induction false} OnlyPlainElements(es: seq<Tree>, d: nat, nl: bool, rest: string)
    requires es != [] && AllValid(es) && NoSlashFirst(rest)
    requires Elements(ElementsText(es, d, nl, rest)).Some?
    requires Elements(ElementsText(es, d, nl, rest)).value.0 == EraseAll(es)
    ensures AllPlain(es)
    decreases es, 1
  {
    hide Elements;
    hide Value;
    hide Skip;
    hide Print;
    hide Gap;
    hide Close;
    hide NoSlashFirst;
    var more := Behind(es, d, nl, rest);
    GapBlank(d, nl);
    GapBlank(d + 1, nl);
    assert Ends(more) by {
      if |es| == 1 { CloseEnds(d, nl, ']', rest); }
    }
    if |es| == 1 {
      MoreNoSlash(d, nl, ']', rest);
    } else {
      ElementsTextNoSlash(es[1..], d, nl, rest);
      GapNoSlash(d, nl, ElementsText(es[1..], d, nl, rest));
    }
    assert ElementsText(es, d, nl, rest) == Print(es[0], d + 1, nl) + more;
    FirstElement(ElementsText(es, d, nl, rest), EraseAll(es));
    OnlyPlain(es[0], d + 1, nl, more);
    ReadValue(es[0], d + 1, nl, more);
    if |es| > 1 {
      var t := ElementsText(es[1..], d, nl, rest);
      ElementsStart(es[1..], d, nl, rest);
      NextElements(Print(es[0], d + 1, nl) + more, Erase(es[0]), Gap(d + 1, nl), t);
      assert EraseAll(es)[1..] == EraseAll(es[1..]);
      OnlyPlainElements(es[1..], d, nl, rest);
    }
  }

  /** After the first of several elements the others are read. */
  lemma NextElements(s: string, v: Json, w: string, t: string)
    requires Blank(w) && Starts(t) && Value(s) == Some((v, "," + (w + t)))
    ensures Elements(s).Some? <==> Elements(t).Some?
    ensures Elements(s).Some? ==> Elements(s).value.0 == [v] + Elements(t).value.0
  {
    SkipBlank(w, t);
    assert ("," + (w + t))[1..] == w + t;
    assert Skip("," + (w + t)) == "," + (w + t);
  }

  lemma NextMembers(name: string, value: Tree, s: string, v: Json, w: string, t: string)
    requires (IsCollection(value) ==> Plain(name)) && s != "" && !IsSpace(s[0])
    requires Blank(w) && Starts(t) && Value(s) == Some((v, "," + (w + t)))
    ensures Members(NameText(name, value) + s).Some? <==> Members(t).Some?
    ensures Members(t).Some? ==> Members(NameText(name, value) + s).value.0 == [(name, v)] + Members(t).value.0
  {
    StepName(name, value, s);
    SkipBlank(w, t);
    assert ("," + (w + t))[1..] == w + t;
    assert Skip("," + (w + t)) == "," + (w + t);
  }

  lemma FirstRead(s: string, ms: seq<(string, Json)>)
    requires Members(s).Some? && Members(s).value.0 == ms && ms != []
    ensures s != "" && Quoted(s[1..]).Some? && Quoted(s[1..]).value.0 == ms[0].0
    ensures var c := Skip(Quoted(s[1..]).value.1);
            c != "" && Value(Skip(c[1..])).Some? && Value(Skip(c[1..])).value.0 == ms[0].1
  {
    hide Value;
    hide Quoted;
    hide Skip;
  }

  /** The name and the value of the first member are what the reader finds there. */
  lemma FirstMember(name: string, value: Tree, s: string, ms: seq<(string, Json)>)
    requires Members(NameText(name, value) + s).Some? && Members(NameText(name, value) + s).value.0 == ms
    requires s != "" && !IsSpace(s[0]) && NoSlashFirst(s) && ms != [] && ms[0].0 == name
    ensures IsCollection(value) ==> Plain(name)
    ensures Value(s).Some? && Value(s).value.0 == ms[0].1
  {
    hide Members;
    hide Value;
    hide Quoted;
    hide NoSlashFirst;
    hide Escape;
    hide Plain;
    var text := NameText(name, value) + s;
    FirstRead(text, ms);
    if IsCollection(value) {
      assert text[1..] == name + "\"" + (": " + s);
      assert NoSlashFirst(": ") by { NoSlashWithout(": "); }
      NoSlashAppend(": ", s);
      OnlyPlainName(name, ": " + s);
    }
    StepName(name, value, s);
  }

  lemma {:induction false} OnlyPlainMembers(ms: seq<Member>, d: nat, nl: bool, rest: string)
    requires ms != [] && AllValidMembers(ms) && NoSlashFirst(rest)
    requires Members(MembersText(ms, d, nl, rest)).Some?
    requires Members(MembersText(ms, d, nl, rest)).value.0 == EraseMembers(ms)
    ensures AllPlainMembers(ms)
    decreases ms, 1
  {
    hide Members;
    hide Value;
    hide Skip;
    hide Print;
    hide Gap;
    hide Close;
    hide NoSlashFirst;
    GapBlank(d, nl);
    GapBlank(d + 1, nl);
    var name, value := ms[0].name, ms[0].value;
    var more := if |ms| == 1 then Close(d, nl) + ("}" + rest)
                else "," + (Gap(d + 1, nl) + MembersText(ms[1..], d, nl, rest));
    if |ms| == 1 {
      MoreNoSlash(d, nl, '}', rest);
    } else {
      GapNoSlash(d, nl, MembersText(ms[1..], d, nl, rest));
    }
    assert Ends(more) by {
      if |ms| == 1 { CloseEnds(d, nl, '}', rest); }
    }
    PrintNoSlash(value, d + 1, nl);
    NoSlashAppend(Print(value, d + 1, nl), more);
    PrintStarts(value, d + 1, nl, more);
    FirstMember(name, value, Print(value, d + 1, nl) + more, EraseMembers(ms));
    OnlyPlain(value, d + 1, nl, more);
    ReadValue(value, d + 1, nl, more);
    if |ms| > 1 {
      var t := MembersText(ms[1..], d, nl, rest);
      MembersStart(ms[1..], d, nl, rest);
      NextMembers(name, value, Print(value, d + 1, nl) + more, Erase(value), Gap(d + 1, nl), t);
      assert EraseMembers(ms)[1..] == EraseMembers(ms[1..]);
      OnlyPlainMembers(ms[1..], d, nl, rest);
    }
  }

  /** If the reader, at a printed value, reads that value, no name of a collection in it needs
      escaping. */
  lemma {:induction false} OnlyPlain(t: Tree, d: nat, nl: bool, rest: string)
    requires Valid(t) && Ends(rest) && NoSlashFirst(rest)
    requires Value(Print(t, d, nl) + rest).Some? && Value(Print(t, d, nl) + rest).value.0 == Erase(t)
    ensures PlainNames(t)
    decreases t, 0
  {
    match t
    case Scalar(_) =>
    case Quote(_) =>
    case List(style, es) => OnlyPlainList(es, d, nl && style == MultiLineStyle, rest);
    case Dict(style, ms) => OnlyPlainDict(ms, d, nl && style == MultiLineStyle, rest);
  }

  /** What is read after an opening bracket or brace. */
  lemma AfterOpening(w: string, s: string)
    requires Blank(w) && Starts(s)
    ensures var v := Value("[" + (w + s)); v.Some? ==> Elements(s).Some? && v.value.0 == Array(Elements(s).value.0)
    ensures var v := Value("{" + (w + s)); v.Some? ==> Members(s).Some? && v.value.0 == Object(Members(s).value.0)
  {
    hide Elements;
    hide Members;
    SkipBlank(w, s);
    assert ("[" + (w + s))[1..] == w + s;
    assert ("{" + (w + s))[1..] == w + s;
  }

  lemma {:induction false} OnlyPlainList(es: seq<Tree>, d: nat, nl: bool, rest: string)
    requires AllValid(es) && NoSlashFirst(rest)
    requires var v := Value(("[" + PrintElements(es, true, d + 1, nl) + Close(d, nl) + "]") + rest);
             v.Some? && v.value.0 == Array(EraseAll(es))
    ensures AllPlain(es)
    decreases es, 3
  {
    hide Value;
    hide Elements;
    hide Members;
    hide NoSlashFirst;
    hide Starts;
    if es != [] {
      var w, s := Sep(false, d + 1, nl), ElementsText(es, d, nl, rest);
      GapBlank(d + 1, nl);
      ListText(es, d, nl, rest);
      ElementsStart(es, d, nl, rest);
      AfterOpening(w, s);
      OnlyPlainElements(es, d, nl, rest);
    }
  }

  lemma {:induction false} OnlyPlainDict(ms: seq<Member>, d: nat, nl: bool, rest: string)
    requires AllValidMembers(ms) && NoSlashFirst(rest)
    requires var v := Value(("{" + PrintMembers(ms, true, d + 1, nl) + Close(d, nl) + "}") + rest);
             v.Some? && v.value.0 == Object(EraseMembers(ms))
    ensures AllPlainMembers(ms)
    decreases ms, 3
  {
    hide Value;
    hide Elements;
    hide Members;
    hide NoSlashFirst;
    hide Starts;
    if ms != [] {
      var w, s := Sep(false, d + 1, nl), MembersText(ms, d, nl, rest);
      GapBlank(d + 1, nl);
      DictText(ms, d, nl, rest);
      MembersStart(ms, d, nl, rest);
      AfterOpening(w, s);
      OnlyPlainMembers(ms, d, nl, rest);
    }
  }

  /** A printed value, in front of anything that printed text can go on with, reads back if and only if
      no name of a collection in it needs escaping. */
  lemma ReadsBackIff(t: Tree, d: nat, nl: bool, rest: string)
    requires Valid(t) && Ends(rest) && NoSlashFirst(rest)
    ensures var v := Value(Print(t, d, nl) + rest);
            (v.Some? && v.value.0 == Erase(t) <==> PlainNames(t)) && (PlainNames(t) ==> v == Some((Erase(t), rest)))
  {
    var v := Value(Print(t, d, nl) + rest);
    if PlainNames(t) {
      ReadValue(t, d, nl, rest);
    } else if v.Some? && v.value.0 == Erase(t) {
      OnlyPlain(t, d, nl, rest);
    }
  }

  /** Whatever the names of collections are, the document that Start ... End prints reads back to what
      was written if and only if none of them needs escaping. */
  lemma ReadDocument(style: Style, ms: seq<Member>)
    requires AllValidMembers(ms)
    ensures Parse(Print(Dict(style, ms), 0, true) + "\n") == Some(Object(EraseMembers(ms))) <==> AllPlainMembers(ms)
  {
    var t := Dict(style, ms);
    PrintStarts(t, 0, true, "\n");
    SkipBlank("", Print(t, 0, true) + "\n");
    assert "" + (Print(t, 0, true) + "\n") == Print(t, 0, true) + "\n";
    SkipBlank("\n", "");
    assert "\n" + "" == "\n";
    NewlineEnds();
    if AllPlainMembers(ms) {
      ReadValue(t, 0, true, "\n");
    } else if Parse(Print(t, 0, true) + "\n") == Some(Object(EraseMembers(ms))) {
      NoSlashWithout("\n");
      OnlyPlain(t, 0, true, "\n");
    }
  }

  // ---------------------------------------------------------------- single lines

  lemma {:induction false} EscapeOneLine(s: string)
    ensures '\n' !in Escape(s)
  {
    if s != "" { EscapeOneLine(s[1..]); }
  }

  lemma {:induction false} TokenOneLine(token: string)
    requires TokenLength(token) == |token|
    ensures '\n' !in token
  {
    if token != "" {
      TokenOneLine(token[1..]);
      assert token == [token[0]] + token[1..];
    }
  }

  /** There is a newline in the name of a collection. */
  predicate Breaks(t: Tree) {
    match t
    case Scalar(_) => false
    case Quote(_) => false
    case List(_, es) => AnyBreaks(es)
    case Dict(_, ms) => AnyBreaksMembers(ms)
  }

  predicate AnyBreaks(ts: seq<Tree>) {
    ts != [] && (Breaks(ts[0]) || AnyBreaks(ts[1..]))
  }

  predicate AnyBreaksMembers(ms: seq<Member>) {
    ms != [] && ((IsCollection(ms[0].value) && '\n' in ms[0].name) || Breaks(ms[0].value) || AnyBreaksMembers(ms[1..]))
  }

  lemma {:induction false} PlainUnbroken(t: Tree)
    requires PlainNames(t)
    ensures !Breaks(t)
    decreases t, 0
  {
    if t.List? {
      AllPlainUnbroken(t.elements);
    } else if t.Dict? {
      AllPlainMembersUnbroken(t.members);
    }
  }

  lemma {:induction false} AllPlainUnbroken(ts: seq<Tree>)
    requires AllPlain(ts)
    ensures !AnyBreaks(ts)
    decreases ts, 1
  {
    if ts != [] {
      PlainUnbroken(ts[0]);
      AllPlainUnbroken(ts[1..]);
    }
  }

  lemma {:induction false} AllPlainMembersUnbroken(ms: seq<Member>)
    requires AllPlainMembers(ms)
    ensures !AnyBreaksMembers(ms)
    decreases ms, 1
  {
    if ms != [] {
      PlainUnbroken(ms[0].value);
      AllPlainMembersUnbroken(ms[1..]);
    }
  }

  lemma NameOneLine(name: string, value: Tree)
    ensures '\n' in NameText(name, value) <==> IsCollection(value) && '\n' in name
  {
    EscapeOneLine(name);
  }

  /** Without newlines around it, nothing in a value is on a line of its own. */
  lemma {:induction false} OneLine(t: Tree, d: nat)
    requires Valid(t)
    ensures '\n' in Print(t, d, false) <==> Breaks(t)
    decreases t, 0
  {
    match t
    case Scalar(token) => TokenOneLine(token);
    case Quote(chars) => EscapeOneLine(chars);
    case List(_, es) => ElementsOneLine(es, true, d + 1);
    case Dict(_, ms) => MembersOneLine(ms, true, d + 1);
  }

  lemma {:induction false} ElementsOneLine(es: seq<Tree>, first: bool, d: nat)
    requires AllValid(es)
    ensures '\n' in PrintElements(es, first, d, false) <==> AnyBreaks(es)
    decreases es, 1
  {
    if es != [] {
      OneLine(es[0], d);
      ElementsOneLine(es[1..], false, d);
    }
  }

  lemma {:induction false} MembersOneLine(ms: seq<Member>, first: bool, d: nat)
    requires AllValidMembers(ms)
    ensures '\n' in PrintMembers(ms, first, d, false) <==> AnyBreaksMembers(ms)
    decreases ms, 1
  {
    if ms != [] {
      NameOneLine(ms[0].name, ms[0].value);
      OneLine(ms[0].value, d);
      MembersOneLine(ms[1..], false, d);
    }
  }

  lemma LastLine(t: Tree, d: nat)
    requires IsCollection(t) && t.style == MultiLineStyle
    ensures '\n' in Print(t, d, true)
  {
    var head := if t.List? then "[" + PrintElements(t.elements, true, d + 1, true)
                else "{" + PrintMembers(t.members, true, d + 1, true);
    assert Print(t, d, true)[|head|] == '\n';
  }

  /** A collection's text has a newline exactly when it is multi-line and so is all around it, or when
      there is one in the name of a collection, which takes one that is not plain. */
  lemma CollectionLines(t: Tree, d: nat, nl: bool)
    requires Valid(t) && IsCollection(t)
    ensures '\n' in Print(t, d, nl) <==> (nl && t.style == MultiLineStyle) || Breaks(t)
    ensures PlainNames(t) ==> !Breaks(t)
  {
    if PlainNames(t) {
      PlainUnbroken(t);
    }
    if nl && t.style == MultiLineStyle {
      LastLine(t, d);
    } else if t.List? {
      ElementsOneLine(t.elements, true, d + 1);
    } else {
      MembersOneLine(t.members, true, d + 1);
    }
  }
}

/** The writer itself: per-depth flags and a destination it appends to. */
module JsonWriters {
  import opened JsonText
  import opened JsonLayout
  import opened JsonPrinting
  import opened Options

  lemma EscapeStep(str: string, p: nat)
    requires p < |str|
    ensures Escape(str[..p + 1]) == Escape(str[..p]) + EscapeChar(str[p])
    ensures Escape(str[p..]) == EscapeChar(str[p]) + Escape(str[p + 1..])
  {
    EscapeAppend(str[..p], [str[p]]);
    assert str[..p + 1] == str[..p] + [str[p]];
    assert Escape([str[p]]) == EscapeChar(str[p]) + Escape("") by { assert [str[p]][1..] == ""; }
    assert str[p..][1..] == str[p + 1..];
  }

  /** The first pass: how much longer than the string its escaped form is. */
  method CountExtra(str: string) returns (nExtra: nat)
    ensures |str| + nExtra == |Escape(str)|
  {
    nExtra := 0;
    var p := 0;
    while p < |str|
      invariant 0 <= p <= |str| && p + nExtra == |Escape(str[..p])|
    {
      EscapeStep(str, p);
      var u := str[p];
      if TwoCharEscape(u) != '\0' {
        nExtra := nExtra + 1;
      } else if u <= 0x1f as char {
        nExtra := nExtra + 5;
      }
      p := p + 1;
    }
    assert str[..|str|] == str;
  }

  /** One turn of the second pass. */
  method PutEscaped(buf: array<char>, i: nat, u: char) returns (i': nat)
    requires i + |EscapeChar(u)| <= buf.Length
    modifies buf
    ensures i' == i + |EscapeChar(u)| && buf[..i'] == old(buf[..i]) + EscapeChar(u)
  {
    if TwoCharEscape(u) != '\0' {
      buf[i] := '\\';
      buf[i + 1] := TwoCharEscape(u);
      i' := i + 2;
    } else if u <= 0x1f as char {
      buf[i] := '\\';
      buf[i + 1] := 'u';
      buf[i + 2] := '0';
      buf[i + 3] := '0';
      buf[i + 4] := HexDigit(u as int / 16);
      buf[i + 5] := HexDigit(u as int % 16);
      i' := i + 6;
    } else {
      buf[i] := u;
      i' := i + 1;
    }
  }

  /** EscapedString's constructor: null when nothing needs escaping, else a new buffer holding
      exactly the escaped text and its terminator, of the length the first pass counted. */
  method EscapedString(str: string) returns (owned: array?<char>)
    requires '\0' !in str
    ensures owned == null <==> Plain(str)
    ensures owned != null ==> fresh(owned) && owned[..] == Escape(str) + ['\0']
  {
    EscapePlain(str);
    var nExtra := CountExtra(str);
    if nExtra == 0 {
      return null;
    }
    var len := |str| + nExtra;
    owned := new char[len + 1](_ => '\0');
    var p, i := 0, 0;
    assert str[0..] == str;
    while p < |str|
      invariant 0 <= p <= |str| && 0 <= i && i + |Escape(str[p..])| == len
      invariant owned[..i] == Escape(str[..p])
    {
      EscapeStep(str, p);
      i := PutEscaped(owned, i, str[p]);
      p := p + 1;
    }
    assert str[..|str|] == str;
    owned[i] := '\0';
    assert owned[..] == owned[..i] + ['\0'];
  }

  /** EscapedString::get. */
  method Get(str: string) returns (text: string)
    requires '\0' !in str
    ensures text == Escape(str)
  {
    EscapePlain(str);
    var owned := EscapedString(str);
    text := if owned == null then str else owned[..owned.Length - 1];
  }

  class JSONWriter {
    var out: string                 // what mWriter has been given so far
    var mNeedComma: seq<bool>       // at each depth, whether something comes before the next entry
    var mNeedNewlines: seq<bool>    // at each depth, whether entries have lines of their own
    var mDepth: nat                 // how many collections are open

    ghost predicate Valid()
      reads this
    {
      mDepth < |mNeedComma| == |mNeedNewlines|
    }

    /** The flags in force, from the outermost collection to the current one. */
    ghost function Commas(): seq<bool>
      requires Valid()
      reads this
    {
      mNeedComma[..mDepth + 1]
    }

    ghost function Newlines(): seq<bool>
      requires Valid()
      reads this
    {
      mNeedNewlines[..mDepth + 1]
    }

    constructor ()
      ensures Valid() && out == "" && mDepth == 0 && Commas() == [false] && Newlines() == [true]
    {
      out, mNeedComma, mNeedNewlines, mDepth := "", [], [], 0;
      new;
      NewVectorEntries();
    }

    method Write(s: string)
      modifies this`out
      ensures out == old(out) + s
    {
      out := out + s;
    }

    method Indent()
      modifies this`out
      ensures out == old(out) + Spaces(mDepth)
    {
      var i := 0;
      assert old(out) + "" == old(out);
      while i < mDepth
        invariant 0 <= i <= mDepth && out == old(out) + Spaces(i)
      {
        SpacesSnoc(i);
        Write(" ");
        i := i + 1;
      }
    }

    /** What separates an item from what came before it. */
    method Separator()
      requires Valid()
      modifies this`out
      ensures out == old(out) + Sep(mNeedComma[mDepth], mDepth, mNeedNewlines[mDepth])
    {
      if mNeedComma[mDepth] {
        Write(",");
      }
      if mDepth > 0 && mNeedNewlines[mDepth] {
        Write("\n");
        Indent();
      } else if mNeedComma[mDepth] {
        Write(" ");
      }
    }

    method PropertyNameAndColon(name: string)
      requires '\0' !in name
      modifies this`out
      ensures out == old(out) + ("\"" + Escape(name) + "\": ")
    {
      var escapedName := Get(name);
      Write("\"");
      Write(escapedName);
      Write("\": ");
    }

    /** resizeUninitialized: a new slot holds whatever was in memory. */
    method Resize(v: seq<bool>, n: nat) returns (r: seq<bool>)
      ensures |r| == n && r[..if n < |v| then n else |v|] == v[..if n < |v| then n else |v|]
    {
      if n <= |v| {
        r := v[..n];
      } else {
        r := v;
        while |r| < n
          invariant |v| <= |r| <= n && r[..|v|] == v
        {
          var junk: bool := *;
          r := r + [junk];
        }
      }
    }

    method NewVectorEntries()
      requires mDepth <= |mNeedComma| == |mNeedNewlines|
      modifies this`mNeedComma, this`mNeedNewlines
      ensures Valid() && Commas() == old(mNeedComma[..mDepth]) + [false]
      ensures Newlines() == old(mNeedNewlines[..mDepth]) + [true]
      ensures |mNeedComma| == mDepth + 1
    {
      mNeedComma := Resize(mNeedComma, mDepth + 1);
      mNeedNewlines := Resize(mNeedNewlines, mDepth + 1);
      mNeedComma := mNeedComma[mDepth := false];
      mNeedNewlines := mNeedNewlines[mDepth := true];
    }

    /** What Scalar and QuotedScalar begin with: the separator and the escaped name. */
    method StartItem(name: Option<string>)
      requires Valid() && (name.Some? ==> '\0' !in name.value)
      modifies this`out
      ensures out == old(out) + (Sep(mNeedComma[mDepth], mDepth, mNeedNewlines[mDepth]) + EscapedName(name))
    {
      ghost var was, sep := out, Sep(mNeedComma[mDepth], mDepth, mNeedNewlines[mDepth]);
      Separator();
      match name
      case None =>
        assert sep + "" == sep;
      case Some(n) =>
        PropertyNameAndColon(n);
        Append(was, sep, EscapedName(name));
    }

    /** What StartCollection begins with: the separator and the name as it is. */
    method StartRawItem(name: Option<string>)
      requires Valid()
      modifies this`out
      ensures out == old(out) + (Sep(mNeedComma[mDepth], mDepth, mNeedNewlines[mDepth]) + RawName(name))
    {
      ghost var was, sep := out, Sep(mNeedComma[mDepth], mDepth, mNeedNewlines[mDepth]);
      Separator();
      match name
      case None =>
        assert sep + "" == sep;
      case Some(n) =>
        Write("\"");
        Write(n);
        Write("\": ");
        AppendQuoted(was + sep, n, "\": ");
        Append(was, sep, RawName(name));
    }

    method Scalar(name: Option<string>, value: string)
      requires Valid() && (name.Some? ==> '\0' !in name.value)
      modifies this`out, this`mNeedComma
      ensures Valid() && Commas() == old(Commas())[mDepth := true]
      ensures out == old(out) + (Sep(old(mNeedComma)[mDepth], mDepth, mNeedNewlines[mDepth]) + EscapedName(name) + value)
    {
      StartItem(name);
      Append(old(out), Sep(mNeedComma[mDepth], mDepth, mNeedNewlines[mDepth]) + EscapedName(name), value);
      Write(value);
      mNeedComma := mNeedComma[mDepth := true];
    }

    method QuotedScalar(name: Option<string>, value: string)
      requires Valid() && (name.Some? ==> '\0' !in name.value)
      modifies this`out, this`mNeedComma
      ensures Valid() && Commas() == old(Commas())[mDepth := true]
      ensures out == old(out) + (Sep(old(mNeedComma)[mDepth], mDepth, mNeedNewlines[mDepth]) + EscapedName(name)
                                 + ("\"" + value + "\""))
    {
      StartItem(name);
      AppendQuoted(out, value, "\"");
      Append(old(out), Sep(mNeedComma[mDepth], mDepth, mNeedNewlines[mDepth]) + EscapedName(name), "\"" + value + "\"");
      Write("\"");
      Write(value);
      Write("\"");
      mNeedComma := mNeedComma[mDepth := true];
    }

    /** Opens a collection. Its name is written as it is, and it is single-line if asked to be
        or if the collection around it is. */
    method StartCollection(name: Option<string>, startChar: string, style: Style)
      requires Valid()
      modifies this
      ensures Valid() && mDepth == old(mDepth) + 1
      ensures Commas() == old(Commas())[old(mDepth) := true] + [false]
      ensures Newlines() == old(Newlines()) + [old(mNeedNewlines[mDepth]) && style == MultiLineStyle]
      ensures out == old(out) + (Sep(old(mNeedComma[mDepth]), old(mDepth), old(mNeedNewlines[mDepth])) + RawName(name) + startChar)
    {
      hide Sep;
      hide RawName;
      StartRawItem(name);
      Append(old(out), Sep(mNeedComma[mDepth], mDepth, mNeedNewlines[mDepth]) + RawName(name), startChar);
      Write(startChar);
      mNeedComma := mNeedComma[mDepth := true];
      mDepth := mDepth + 1;
      NewVectorEntries();
      mNeedNewlines := mNeedNewlines[mDepth := mNeedNewlines[mDepth - 1] && style == MultiLineStyle];
    }

    /** Closes the current collection. The flags of its depth stay behind, unused. */
    method EndCollection(endChar: string)
      requires Valid() && mDepth > 0
      modifies this`out, this`mDepth
      ensures Valid() && mDepth == old(mDepth) - 1
      ensures Commas() == old(Commas())[..old(mDepth)] && Newlines() == old(Newlines())[..old(mDepth)]
      ensures out == old(out) + (Close(mDepth, old(mNeedNewlines[mDepth])) + endChar)
    {
      if mNeedNewlines[mDepth] {
        Write("\n");
        mDepth := mDepth - 1;
        Indent();
      } else {
        mDepth := mDepth - 1;
      }
      Write(endChar);
    }

    method StringProperty(name: Option<string>, str: string)
      requires Valid() && (name.Some? ==> '\0' !in name.value) && '\0' !in str
      modifies this`out, this`mNeedComma
      ensures Valid() && Commas() == old(Commas())[mDepth := true]
      ensures out == old(out) + (Sep(old(mNeedComma)[mDepth], mDepth, mNeedNewlines[mDepth]) + EscapedName(name)
                                 + ("\"" + Escape(str) + "\""))
    {
      var escapedStr := Get(str);
      QuotedScalar(name, escapedStr);
    }
  }

  lemma Append(was: string, a: string, b: string)
    ensures (was + a) + b == was + (a + b)
  {
  }

  lemma AppendQuoted(was: string, a: string, b: string)
    ensures was + "\"" + a + b == was + ("\"" + a + b)
  {
  }

  lemma {:induction false} SpacesSnoc(n: nat)
    ensures Spaces(n + 1) == Spaces(n) + " "
  {
    if n > 0 { SpacesSnoc(n - 1); }
  }

  function EscapedName(name: Option<string>): string {
    match name
    case None => ""
    case Some(n) => "\"" + Escape(n) + "\": "
  }

  function RawName(name: Option<string>): string {
    match name
    case None => ""
    case Some(n) => "\"" + n + "\": "
  }

  function ItemName(name: Option<string>, t: Tree): string {
    match name
    case None => ""
    case Some(n) => NameText(n, t)
  }

  /** Any value written through the interface, with a name inside an object and without one inside
      an array: scalars by one call, collections by a start, their items and an end. */
  method Emit(w: JSONWriter, name: Option<string>, t: Tree)
    requires w.Valid() && Valid(t) && (name.Some? ==> '\0' !in name.value)
    modifies w
    ensures w.Valid() && w.mDepth == old(w.mDepth)
    ensures w.Commas() == old(w.Commas())[w.mDepth := true] && w.Newlines() == old(w.Newlines())
    ensures w.out == old(w.out) + (Sep(old(w.mNeedComma[w.mDepth]), w.mDepth, old(w.mNeedNewlines[w.mDepth]))
                                   + ItemName(name, t) + Print(t, w.mDepth, old(w.mNeedNewlines[w.mDepth])))
    decreases t, 4
  {
    hide Sep;
    hide Close;
    assert IsCollection(t) ==> RawName(name) == ItemName(name, t);
    match t
    case Scalar(token) => w.Scalar(name, token);
    case Quote(chars) => w.StringProperty(name, chars);
    case List(style, es) => EmitList(w, name, style, es);
    case Dict(style, ms) => EmitDict(w, name, style, ms);
  }

  method EmitList(w: JSONWriter, name: Option<string>, style: Style, es: seq<Tree>)
    requires w.Valid() && AllValid(es)
    modifies w
    ensures w.Valid() && w.mDepth == old(w.mDepth)
    ensures w.Commas() == old(w.Commas())[w.mDepth := true] && w.Newlines() == old(w.Newlines())
    ensures var d, nl := w.mDepth, old(w.mNeedNewlines[w.mDepth]) && style == MultiLineStyle;
      w.out == old(w.out) + (Sep(old(w.mNeedComma[w.mDepth]), d, old(w.mNeedNewlines[w.mDepth])) + RawName(name)
                             + ("[" + PrintElements(es, true, d + 1, nl) + Close(d, nl) + "]"))
    decreases es, 3
  {
    ghost var d, was, commas, newlines := w.mDepth, w.out, w.Commas()[w.mDepth := true], w.Newlines();
    ghost var nl := newlines[d] && style == MultiLineStyle;
    ghost var body := PrintElements(es, true, d + 1, nl);
    w.StartCollection(name, "[", style);
    ghost var begun := w.out;
    PushPop(commas, false);
    PushPop(newlines, nl);
    assert w.Commas()[d + 1] == w.mNeedComma[d + 1] && w.Newlines()[d + 1] == w.mNeedNewlines[d + 1];
    EmitElements(w, es, true);
    assert w.out == begun + body;
    assert w.Newlines()[d + 1] == w.mNeedNewlines[d + 1];
    assert w.Commas()[..d + 1] == commas && w.Newlines()[..d + 1] == newlines;
    w.EndCollection("]");
    Parts(was, Sep(old(w.mNeedComma[w.mDepth]), d, newlines[d]) + RawName(name), "[", body, Close(d, nl), "]");
  }

  method EmitDict(w: JSONWriter, name: Option<string>, style: Style, ms: seq<Member>)
    requires w.Valid() && AllValidMembers(ms)
    modifies w
    ensures w.Valid() && w.mDepth == old(w.mDepth)
    ensures w.Commas() == old(w.Commas())[w.mDepth := true] && w.Newlines() == old(w.Newlines())
    ensures var d, nl := w.mDepth, old(w.mNeedNewlines[w.mDepth]) && style == MultiLineStyle;
      w.out == old(w.out) + (Sep(old(w.mNeedComma[w.mDepth]), d, old(w.mNeedNewlines[w.mDepth])) + RawName(name)
                             + ("{" + PrintMembers(ms, true, d + 1, nl) + Close(d, nl) + "}"))
    decreases ms, 3
  {
    ghost var d, was, commas, newlines := w.mDepth, w.out, w.Commas()[w.mDepth := true], w.Newlines();
    ghost var nl := newlines[d] && style == MultiLineStyle;
    ghost var body := PrintMembers(ms, true, d + 1, nl);
    w.StartCollection(name, "{", style);
    ghost var begun := w.out;
    PushPop(commas, false);
    PushPop(newlines, nl);
    assert w.Commas()[d + 1] == w.mNeedComma[d + 1] && w.Newlines()[d + 1] == w.mNeedNewlines[d + 1];
    EmitMembers(w, ms, true);
    assert w.out == begun + body;
    assert w.Newlines()[d + 1] == w.mNeedNewlines[d + 1];
    assert w.Commas()[..d + 1] == commas && w.Newlines()[..d + 1] == newlines;
    w.EndCollection("}");
    Parts(was, Sep(old(w.mNeedComma[w.mDepth]), d, newlines[d]) + RawName(name), "{", body, Close(d, nl), "}");
  }

  /** Pushing a flag, perhaps setting it, and popping it. */
  lemma PushPop(flags: seq<bool>, x: bool)
    ensures var n := |flags|;
      (flags + [x])[..n] == flags && (flags + [x])[n := true][..n] == flags && (flags + [x])[n] == x
  {
  }

  lemma Parts(was: string, lead: string, open: string, body: string, close: string, end: string)
    ensures ((was + (lead + open)) + body) + (close + end) == was + (lead + (open + body + close + end))
  {
  }

  lemma Glue(was: string, a: string, b: string, c: string)
    ensures (was + (a + b)) + c == was + (a + b + c)
  {
  }

  method EmitElements(w: JSONWriter, es: seq<Tree>, ghost first: bool)
    requires w.Valid() && w.mDepth > 0 && AllValid(es) && w.mNeedComma[w.mDepth] == !first
    modifies w
    ensures w.Valid() && w.mDepth == old(w.mDepth) && w.Newlines() == old(w.Newlines())
    ensures w.Commas() == if es == [] then old(w.Commas()) else old(w.Commas())[w.mDepth := true]
    ensures w.out == old(w.out) + PrintElements(es, first, w.mDepth, old(w.mNeedNewlines[w.mDepth]))
    decreases es, 1
  {
    if es != [] {
      Emit(w, None, es[0]);
      assert w.Commas()[w.mDepth] && w.Newlines()[w.mDepth] == old(w.Newlines())[w.mDepth];
      ghost var d, nl := w.mDepth, w.mNeedNewlines[w.mDepth];
      assert Sep(!first, d, nl) + "" == Sep(!first, d, nl);
      Glue(old(w.out), Sep(!first, d, nl), Print(es[0], d, nl), PrintElements(es[1..], false, d, nl));
      EmitElements(w, es[1..], false);
    }
  }

  method EmitMembers(w: JSONWriter, ms: seq<Member>, ghost first: bool)
    requires w.Valid() && w.mDepth > 0 && AllValidMembers(ms) && w.mNeedComma[w.mDepth] == !first
    modifies w
    ensures w.Valid() && w.mDepth == old(w.mDepth) && w.Newlines() == old(w.Newlines())
    ensures w.Commas() == if ms == [] then old(w.Commas()) else old(w.Commas())[w.mDepth := true]
    ensures w.out == old(w.out) + PrintMembers(ms, first, w.mDepth, old(w.mNeedNewlines[w.mDepth]))
    decreases ms, 1
  {
    if ms != [] {
      Emit(w, Some(ms[0].name), ms[0].value);
      assert w.Commas()[w.mDepth] && w.Newlines()[w.mDepth] == old(w.Newlines())[w.mDepth];
      ghost var d, nl := w.mDepth, w.mNeedNewlines[w.mDepth];
      Glue(old(w.out), Sep(!first, d, nl) + NameText(ms[0].name, ms[0].value), Print(ms[0].value, d, nl),
           PrintMembers(ms[1..], false, d, nl));
      EmitMembers(w, ms[1..], false);
    }
  }

  lemma DocumentText(style: Style, ms: seq<Member>)
    ensures var nl := style == MultiLineStyle;
      (("" + ("" + "" + "{")) + PrintMembers(ms, true, 1, nl)) + (Close(0, nl) + "}\n")
      == Print(Dict(style, ms), 0, true) + "\n"
  {
    var nl := style == MultiLineStyle;
    var body, close := PrintMembers(ms, true, 1, nl), Close(0, nl);
    assert "" + ("" + "" + "{") == "{";
    Append("{" + body + close, "}", "\n");
    Append("{" + body, close, "}\n");
  }

  /** A whole document: Start, the properties, End. What was written reads back as what was meant, if
      and only if no name of a collection needs escaping; and then it has its lines and indentation. */
  method WriteDocument(style: Style, ms: seq<Member>) returns (text: string)
    requires AllValidMembers(ms)
    ensures Parse(text) == Some(Object(EraseMembers(ms))) <==> AllPlainMembers(ms)
    ensures AllPlainMembers(ms) ==>
              LaidOut(text, 0, false, '\n') && Newlines(text) == Lines(Dict(style, ms), true) + 1
    ensures text == Print(Dict(style, ms), 0, true) + "\n"
  {
    hide LaidOut;
    hide Newlines;
    hide Lines;
    hide AllPlainMembers;
    hide Erase;
    hide Print;
    var w := new JSONWriter();
    w.StartCollection(None, "{", style);
    assert w.mNeedComma[1] == w.Commas()[1] && w.mNeedNewlines[1] == w.Newlines()[1];
    EmitMembers(w, ms, true);
    assert w.mNeedNewlines[1] == w.Newlines()[1];
    w.EndCollection("}\n");
    text := w.out;
    DocumentText(style, ms);
    ReadDocument(style, ms);
    if AllPlainMembers(ms) {
      DocumentLaid(style, ms);
    }
  }
}
