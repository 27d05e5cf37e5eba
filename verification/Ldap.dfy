/** LDAP search filters: escaping, parsing, printing (authlab/directory/ldap.py). */
module Ldap {
  import opened Text

  // ----- Escaping -----

  function EscapeChar(c: char): string {
    if c == '\\' then "\\5c" else if c == '*' then "\\2a" else if c == '(' then "\\28" else if c == ')' then "\\29"
    else if c == '\0' then "\\00" else [c]
  }

  /** escape_filter. */
  function Escape(value: string): string {
    if value == [] then [] else EscapeChar(value[0]) + Escape(value[1..])
  }

  datatype Result<+T> = Bad | Ok(value: T, used: nat)

  function HexDigit(c: char): int {
    if '0' <= c <= '9' then c as int - '0' as int
    else if 'a' <= c <= 'f' then c as int - 'a' as int + 10
    else if 'A' <= c <= 'F' then c as int - 'A' as int + 10
    else -1
  }

  /**
   What is taken from Python: `normal` is strip and lower-case; `skips` says which control and non-ASCII characters
   int() passes over as white space; `decimal` is the value of a non-ASCII decimal digit.
   */
  datatype Python = Python(normal: string -> string, skips: (string, char) -> bool, decimal: char -> int)

  function Digit(py: Python, c: char): (d: int)
    ensures -1 <= d < 16
  {
    if c as int < 128 then HexDigit(c)
    else if 0 <= py.decimal(c) <= 9 then py.decimal(c)
    else -1
  }

  predicate Space(py: Python, text: string, c: char) {
    c == ' ' || (c != '\0' && (c as int < 32 || c as int > 126) && Digit(py, c) < 0 && py.skips(text, c))
  }

  /** chr(int(text, 16)) of one or two characters; -1 stands for the ValueError of either. */
  function Hex(py: Python, text: string): (n: int)
    ensures -1 <= n < 256
  {
    if |text| == 1 then Digit(py, text[0])
    else if |text| != 2 then -1
    else
      var first, second := Digit(py, text[0]), Digit(py, text[1]);
      if first >= 0 && second >= 0 then 16 * first + second
      else if first >= 0 && Space(py, text, text[1]) then first
      else if second >= 0 && (Space(py, text, text[0]) || text[0] == '+') then second
      else if second == 0 && text[0] == '-' then 0
      else -1
  }

  /** _unescape_filter_value. A backslash takes up to two characters after it; a final one stands for itself. */
  function Unescape(py: Python, value: string): Result<string>
    decreases |value|
  {
    if value == [] then Ok([], 0)
    else if value[0] == '\\' && |value| >= 2 then
      var n := if |value| == 2 then 2 else 3;
      var code := Hex(py, value[1..n]);
      if code < 0 then Bad
      else
        match Unescape(py, value[n..])
        case Bad => Bad
        case Ok(rest, used) => Ok([code as char] + rest, n + used)
    else
      match Unescape(py, value[1..])
      case Bad => Bad
      case Ok(rest, used) => Ok([value[0]] + rest, 1 + used)
  }

  // ----- Filters -----

  datatype Filter =
    | And(children: seq<Filter>)
    | Or(children: seq<Filter>)
    | Not(child: Filter)
    | Present(attr: string)
    | Substrings(attr: string, parts: seq<string>)
    | Equal(attr: string, value: string)

  /** value.split(c). */
  function Split(s: string, c: char): seq<string>
    decreases |s|
  {
    if c !in s then [s] else [Before(s, c)] + Split(After(s, c), c)
  }

  /** _assertion. */
  function Assertion(py: Python, text: string): Result<Filter> {
    if '=' !in text then Bad
    else
      var attr, value := py.normal(Before(text, '=')), After(text, '=');
      if value == "*" then Ok(Present(attr), |text|)
      else if '*' in value then Ok(Substrings(attr, Split(value, '*')), |text|)
      else
        match Unescape(py, value)
        case Bad => Bad
        case Ok(v, used) => Ok(Equal(attr, v), |text|)
  }

  /** parse: what it makes of the text from its position on, and how far it moves. */
  function ParseFilter(py: Python, s: string): (r: Result<Filter>)
    ensures r.Ok? ==> 0 < r.used <= |s|
    decreases |s|, 0
  {
    if |s| < 2 || s[0] != '(' then Bad
    else if s[1] == '&' || s[1] == '|' then
      match ParseList(py, s[2..])
      case Bad => Bad
      case Ok(children, used) =>
        if children == [] || 2 + used >= |s| || s[2 + used] != ')' then Bad
        else Ok(if s[1] == '&' then And(children) else Or(children), 3 + used)
    else if s[1] == '!' then
      match ParseFilter(py, s[2..])
      case Bad => Bad
      case Ok(child, used) =>
        if 2 + used >= |s| || s[2 + used] != ')' then Bad else Ok(Not(child), 3 + used)
    else
      var body := s[1..];
      if ')' !in body then Bad
      else
        match Assertion(py, Before(body, ')'))
        case Bad => Bad
        case Ok(f, used) => Ok(f, |Before(body, ')')| + 2)
  }

  /** The loop over sub-filters: as long as the next character opens one. */
  function ParseList(py: Python, s: string): (r: Result<seq<Filter>>)
    ensures r.Ok? ==> r.used <= |s|
    decreases |s|, 1
  {
    if s == [] || s[0] != '(' then Ok([], 0)
    else
      match ParseFilter(py, s)
      case Bad => Bad
      case Ok(first, used) =>
        match ParseList(py, s[used..])
        case Bad => Bad
        case Ok(rest, more) => Ok([first] + rest, used + more)
  }

  // ----- Printing -----

  function ShowTest(attr: string, value: string): string {
    "(" + (attr + "=" + Escape(value)) + ")"
  }

  /** The parts with a star between each two. */
  function Join(parts: seq<string>): string
    requires parts != []
  {
    if |parts| == 1 then parts[0] else parts[0] + ("*" + Join(parts[1..]))
  }

  function ShowAssertion(attr: string, raw: string): string {
    "(" + (attr + "=" + raw) + ")"
  }

  function Show(f: Filter): string
    requires Printable(f)
    decreases f
  {
    match f
    case And(children) => "(&" + ShowAll(children) + ")"
    case Or(children) => "(|" + ShowAll(children) + ")"
    case Not(child) => "(!" + Show(child) + ")"
    case Equal(attr, value) => ShowTest(attr, value)
    case Present(attr) => ShowAssertion(attr, "*")
    case Substrings(attr, parts) => ShowAssertion(attr, Join(parts))
  }

  function ShowAll(fs: seq<Filter>): string
    requires forall i :: 0 <= i < |fs| ==> Printable(fs[i])
    decreases fs
  {
    if fs == [] then "" else Show(fs[0]) + ShowAll(fs[1..])
  }

  /** The pieces of a substring test: two or more, without stars and closing parentheses, and not just a star. */
  predicate ArePieces(parts: seq<string>) {
    |parts| >= 2 && parts != ["", ""] && forall i :: 0 <= i < |parts| ==> '*' !in parts[i] && ')' !in parts[i]
  }

  /** Trees of &, | and ! over tests; an operator needs a sub-filter. */
  predicate Printable(f: Filter)
    decreases f
  {
    match f
    case And(children) => children != [] && forall i :: 0 <= i < |children| ==> Printable(children[i])
    case Or(children) => children != [] && forall i :: 0 <= i < |children| ==> Printable(children[i])
    case Not(child) => Printable(child)
    case Equal(attr, value) => true
    case Present(attr) => true
    case Substrings(attr, parts) => ArePieces(parts)
  }

  /** An attribute name that reads as one: normalised, without separators, and not starting like an operator. */
  predicate PlainAttr(py: Python, attr: string) {
    && py.normal(attr) == attr && '=' !in attr && ')' !in attr
    && (attr != [] ==> attr[0] != '&' && attr[0] != '|' && attr[0] != '!')
  }

  predicate AttrsPlain(py: Python, f: Filter)
    decreases f
  {
    match f
    case And(children) => forall i :: 0 <= i < |children| ==> AttrsPlain(py, children[i])
    case Or(children) => forall i :: 0 <= i < |children| ==> AttrsPlain(py, children[i])
    case Not(child) => AttrsPlain(py, child)
    case Present(attr) => PlainAttr(py, attr)
    case Substrings(attr, parts) => PlainAttr(py, attr)
    case Equal(attr, value) => PlainAttr(py, attr)
  }

  // ----- Values never become syntax -----

  lemma EscapedCharReads(py: Python, c: char, rest: string)
    ensures Unescape(py, EscapeChar(c) + rest) ==
      if Unescape(py, rest).Bad? then Bad else Ok([c] + Unescape(py, rest).value, |EscapeChar(c)| + Unescape(py, rest).used)
  {
    var s := EscapeChar(c) + rest;
    if |EscapeChar(c)| == 3 {
      assert s[1..3] == EscapeChar(c)[1..] && s[3..] == rest;
      HexOfEscapes(py);
    } else {
      assert s[1..] == rest;
    }
  }

  lemma HexOfEscapes(py: Python)
    ensures Hex(py, "5c") == '\\' as int && Hex(py, "2a") == '*' as int && Hex(py, "28") == '(' as int && Hex(py, "29") == ')' as int
    ensures Hex(py, "00") == '\0' as int
  {
  }

  /** Unescaping undoes escaping, for every string. */
  lemma {:induction false} UnescapeEscape(py: Python, value: string)
    ensures Unescape(py, Escape(value)) == Ok(value, |Escape(value)|)
  {
    hide EscapeChar;
    if value != [] {
      UnescapeEscape(py, value[1..]);
      EscapedCharReads(py, value[0], Escape(value[1..]));
      hide Unescape;
      assert value == [value[0]] + value[1..];
    }
  }

  /** An escaped value holds no filter syntax. */
  lemma {:induction false} EscapeIsPlain(value: string)
    ensures '(' !in Escape(value) && ')' !in Escape(value) && '*' !in Escape(value) && '\0' !in Escape(value)
  {
    if value != [] {
      EscapeIsPlain(value[1..]);
      var c := EscapeChar(value[0]);
      assert '(' !in c && ')' !in c && '*' !in c && '\0' !in c;
    }
  }

  /** "(attr=" + escape_filter(v) + ")" is one equality test for exactly v, for every v. */
  lemma ValueIsNeverSyntax(py: Python, attr: string, value: string, suffix: string)
    requires PlainAttr(py, attr)
    ensures ParseFilter(py, ShowTest(attr, value) + suffix) == Ok(Equal(attr, value), |ShowTest(attr, value)|)
  {
    hide Escape, Unescape, Before, After;
    var escaped := Escape(value);
    var text := attr + "=" + escaped;
    var s := ShowTest(attr, value) + suffix;
    EscapeIsPlain(value);
    UnescapeEscape(py, value);
    assert s[1..] == text + [')'] + suffix;
    SplitJoined(text, ')', suffix);
    SplitJoined(attr, '=', escaped);
    assert attr + ['='] + escaped == text;
    assert '*' !in escaped && escaped != "*" by {
      assert "*"[0] == '*';
    }
    assert s[1] == if attr == [] then '=' else attr[0];
  }

  /** A value that is just a star asks for presence. */
  lemma PresentParses(py: Python, attr: string, suffix: string)
    requires PlainAttr(py, attr)
    ensures ParseFilter(py, ShowAssertion(attr, "*") + suffix) == Ok(Present(attr), |ShowAssertion(attr, "*")|)
  {
    hide Unescape, Before, After;
    AssertionParses(py, attr, "*", suffix);
  }

  lemma AssertionParses(py: Python, attr: string, raw: string, suffix: string)
    requires PlainAttr(py, attr) && ')' !in raw
    ensures var r := Assertion(py, attr + "=" + raw);
      ParseFilter(py, ShowAssertion(attr, raw) + suffix) == if r.Bad? then Bad else Ok(r.value, |ShowAssertion(attr, raw)|)
    ensures '=' in attr + "=" + raw && Before(attr + "=" + raw, '=') == attr && After(attr + "=" + raw, '=') == raw
  {
    hide Unescape, Before, After, Split;
    var text := attr + "=" + raw;
    var s := ShowAssertion(attr, raw) + suffix;
    assert s[1..] == text + [')'] + suffix;
    SplitJoined(text, ')', suffix);
    SplitJoined(attr, '=', raw);
    assert attr + ['='] + raw == text;
    assert s[1] == if attr == [] then '=' else attr[0];
  }

  lemma JoinFacts(parts: seq<string>)
    requires ArePieces(parts)
    ensures '*' in Join(parts) && Join(parts) != "*" && ')' !in Join(parts)
  {
    NoParenthesis(parts);
    assert Join(parts) == parts[0] + ("*" + Join(parts[1..]));
    assert "*"[0] == '*';
    assert |Join(parts)| == |parts[0]| + 1 + |Join(parts[1..])|;
    if |parts| == 2 {
      assert parts == [parts[0], parts[1]];
    } else {
      assert |Join(parts[1..])| == |parts[1]| + 1 + |Join(parts[1..][1..])|;
    }
  }

  lemma {:induction false} NoParenthesis(parts: seq<string>)
    requires parts != [] && forall i :: 0 <= i < |parts| ==> ')' !in parts[i]
    ensures ')' !in Join(parts)
  {
    if |parts| > 1 {
      NoParenthesis(parts[1..]);
    }
  }

  /** split undoes joining. */
  lemma {:induction false} SplitJoin(parts: seq<string>)
    requires parts != [] && forall i :: 0 <= i < |parts| ==> '*' !in parts[i]
    ensures Split(Join(parts), '*') == parts
  {
    hide Before, After;
    if |parts| > 1 {
      var rest := Join(parts[1..]);
      SplitJoin(parts[1..]);
      SplitJoined(parts[0], '*', rest);
      assert parts[0] + ['*'] + rest == Join(parts);
      assert parts == [parts[0]] + parts[1..];
    } else {
      assert parts == [parts[0]];
    }
  }

  /** A value with stars in it, and not just one star, is cut at the stars. */
  lemma SubstringsParse(py: Python, attr: string, parts: seq<string>, suffix: string)
    requires PlainAttr(py, attr) && ArePieces(parts)
    ensures ParseFilter(py, ShowAssertion(attr, Join(parts)) + suffix)
      == Ok(Substrings(attr, parts), |ShowAssertion(attr, Join(parts))|)
  {
    hide ParseFilter, Unescape, Before, After, Split, Join;
    JoinFacts(parts);
    SplitJoin(parts);
    AssertionParses(py, attr, Join(parts), suffix);
  }

  // ----- Printing and parsing trees -----

  lemma {:induction false} ShowParses(py: Python, f: Filter, suffix: string)
    requires Printable(f) && AttrsPlain(py, f)
    ensures ParseFilter(py, Show(f) + suffix) == Ok(f, |Show(f)|)
    decreases f
  {
    hide ParseList, ShowAll, ShowTest, Assertion;
    match f
    case Equal(attr, value) =>
      hide ParseFilter;
      ValueIsNeverSyntax(py, attr, value, suffix);
    case Present(attr) =>
      hide ParseFilter;
      PresentParses(py, attr, suffix);
    case Substrings(attr, parts) =>
      hide ParseFilter;
      SubstringsParse(py, attr, parts, suffix);
    case Not(child) =>
      var inner := Show(child);
      var s := Show(f) + suffix;
      Inside("(!", inner, suffix);
      ShowParses(py, child, ")" + suffix);
    case And(children) =>
      Inside("(&", ShowAll(children), suffix);
      ShowAllParses(py, children, ")" + suffix);
    case Or(children) =>
      Inside("(|", ShowAll(children), suffix);
      ShowAllParses(py, children, ")" + suffix);
  }

  lemma Inside(opening: string, inner: string, suffix: string)
    requires |opening| == 2
    ensures var s := (opening + inner + ")") + suffix;
      s[0] == opening[0] && s[1] == opening[1] && s[2..] == inner + (")" + suffix) && |s| > 2 + |inner| && s[2 + |inner|] == ')'
  {
  }

  lemma {:induction false} ShowAllParses(py: Python, fs: seq<Filter>, suffix: string)
    requires forall i :: 0 <= i < |fs| ==> Printable(fs[i]) && AttrsPlain(py, fs[i])
    requires suffix != [] ==> suffix[0] != '('
    ensures ParseList(py, ShowAll(fs) + suffix) == Ok(fs, |ShowAll(fs)|)
    decreases fs
  {
    hide ParseFilter, ParseList, Show, Printable, AttrsPlain;
    if fs == [] {
      assert ShowAll(fs) + suffix == suffix;
      NoMoreChildren(py, suffix);
    } else {
      var first, rest := Show(fs[0]), ShowAll(fs[1..]);
      ShowParses(py, fs[0], rest + suffix);
      ShowAllParses(py, fs[1..], suffix);
      ShowOpens(fs[0]);
      var s := first + rest + suffix;
      assert s == first + (rest + suffix) && s[|first|..] == rest + suffix;
      OneChild(py, s);
      assert fs == [fs[0]] + fs[1..];
    }
  }

  /** One turn of the loop over sub-filters. */
  lemma OneChild(py: Python, s: string)
    requires s != [] && s[0] == '('
    ensures var first := ParseFilter(py, s);
      ParseList(py, s) ==
        if first.Bad? then Bad
        else
          var rest := ParseList(py, s[first.used..]);
          if rest.Bad? then Bad else Ok([first.value] + rest.value, first.used + rest.used)
  {
    hide ParseFilter;
  }

  lemma ShowOpens(f: Filter)
    requires Printable(f)
    ensures |Show(f)| > 0 && Show(f)[0] == '('
  {
  }

  /** Two printed trees are equal only if the trees are. */
  lemma ShowIsInjective(py: Python, f: Filter, g: Filter)
    requires Printable(f) && Printable(g) && AttrsPlain(py, f) && AttrsPlain(py, g) && Show(f) == Show(g)
    ensures f == g
  {
    hide ParseFilter, Show, Printable, AttrsPlain;
    ShowParses(py, f, []);
    ShowParses(py, g, []);
  }

  // ----- What reaches a value -----

  predicate IsTest(text: string) {
    |text| >= 2 && ')' in text[1..] && '=' in Before(text[1..], ')')
  }

  /** The characters between the first '=' and the closing parenthesis of a simple assertion. */
  function Raw(text: string): string
    requires IsTest(text)
  {
    After(Before(text[1..], ')'), '=')
  }

  /** The characters that unescaping takes for themselves. */
  function Literals(value: string): string
    decreases |value|
  {
    if value == [] then []
    else if value[0] == '\\' && |value| >= 2 then Literals(value[if |value| == 2 then 2 else 3..])
    else [value[0]] + Literals(value[1..])
  }

  predicate IsHex(c: char) { HexDigit(c) >= 0 }

  /** The assertion value of section 3 of RFC 4515: plain characters, and backslashes with two hex digits. */
  predicate Conformant(value: string)
    decreases |value|
  {
    if value == [] then true
    else if value[0] == '\\' then |value| >= 3 && IsHex(value[1]) && IsHex(value[2]) && Conformant(value[3..])
    else value[0] != '(' && value[0] != ')' && value[0] != '*' && value[0] != '\0' && Conformant(value[1..])
  }

  predicate FullEscapes(value: string) {
    forall i :: 0 <= i < |value| && value[i] == '\\' ==> i + 2 < |value| && IsHex(value[i + 1]) && IsHex(value[i + 2])
  }

  // What int() reads holds no filter syntax.
  lemma HexParts(py: Python, text: string)
    requires Hex(py, text) >= 0
    ensures '(' !in text && ')' !in text
  {
  }

  lemma {:induction false} LiteralIff(py: Python, value: string, c: char)
    requires Unescape(py, value).Ok? && (c == '(' || c == ')')
    ensures c in Literals(value) <==> c in value
    decreases |value|
  {
    hide Hex;
    if value == [] {
    } else if value[0] == '\\' && |value| >= 2 {
      var n := if |value| == 2 then 2 else 3;
      HexParts(py, value[1..n]);
      assert value == [value[0]] + value[1..n] + value[n..];
      LiteralIff(py, value[n..], c);
    } else {
      assert value == [value[0]] + value[1..];
      LiteralIff(py, value[1..], c);
    }
  }

  lemma {:induction false} ConformantIff(value: string)
    ensures Conformant(value) <==>
      '(' !in value && ')' !in value && '*' !in value && '\0' !in value && FullEscapes(value)
    decreases |value|
  {
    if value == [] {
    } else if value[0] == '\\' {
      if |value| >= 3 && IsHex(value[1]) && IsHex(value[2]) {
        var rest := value[3..];
        ConformantIff(rest);
        assert value == [value[0], value[1], value[2]] + rest;
        FullAfter(value, 3);
      }
    } else {
      var rest := value[1..];
      ConformantIff(rest);
      assert value == [value[0]] + rest;
      FullAfter(value, 1);
    }
  }

  lemma FullAfter(value: string, n: nat)
    requires n <= |value| && forall i :: 0 <= i < n && value[i] == '\\' ==> i + 2 < |value| && IsHex(value[i + 1]) && IsHex(value[i + 2])
    ensures FullEscapes(value) <==> FullEscapes(value[n..])
  {
    var rest := value[n..];
    if FullEscapes(rest) {
      forall i | n <= i < |value| && value[i] == '\\'
        ensures i + 2 < |value| && IsHex(value[i + 1]) && IsHex(value[i + 2])
      {
        assert rest[i - n] == value[i];
      }
    }
  }

  /** An equality test comes from a simple assertion whose value unescapes and holds neither ')' nor '*'. */
  lemma EqualityIsTest(py: Python, text: string)
    requires ParseFilter(py, text).Ok? && ParseFilter(py, text).value.Equal?
    ensures IsTest(text)
    ensures Unescape(py, Raw(text)).Ok? && ParseFilter(py, text).value.value == Unescape(py, Raw(text)).value
    ensures ')' !in Raw(text) && '*' !in Raw(text)
  {
    hide ParseFilter, ParseList, Unescape, Before, After;
    ParseSteps(py, text);
    var body := Before(text[1..], ')');
    JoinSplit(text[1..], ')');
    JoinSplit(body, '=');
    assert body == Before(body, '=') + ['='] + After(body, '=');
  }

  /**
   For every text that parses as an equality test: its value holds an unescaped parenthesis exactly when it holds
   an opening one, and never a closing one.
   */
  lemma UnescapedParenthesisIff(py: Python, text: string)
    requires ParseFilter(py, text).Ok? && ParseFilter(py, text).value.Equal?
    ensures IsTest(text)
    ensures ')' !in Literals(Raw(text)) && ('(' in Literals(Raw(text)) <==> '(' in Raw(text))
  {
    hide ParseFilter, Unescape, Literals, Raw, IsTest;
    EqualityIsTest(py, text);
    LiteralIff(py, Raw(text), '(');
    LiteralIff(py, Raw(text), ')');
  }

  /** And it is an assertion value of RFC 4515 exactly when it has no '(', no NUL, and two hex digits after each backslash. */
  lemma ConformantValueIff(py: Python, text: string)
    requires ParseFilter(py, text).Ok? && ParseFilter(py, text).value.Equal?
    ensures IsTest(text)
    ensures Conformant(Raw(text)) <==> '(' !in Raw(text) && '\0' !in Raw(text) && FullEscapes(Raw(text))
  {
    hide ParseFilter, Unescape, Raw, IsTest, Conformant, FullEscapes;
    EqualityIsTest(py, text);
    ConformantIff(Raw(text));
  }

  /** An escaped value always is one. */
  lemma {:induction false} EscapeConforms(value: string)
    ensures Conformant(Escape(value))
  {
    if value != [] {
      EscapeConforms(value[1..]);
      var e, rest := EscapeChar(value[0]), Escape(value[1..]);
      if |e| == 3 {
        assert (e + rest)[3..] == rest;
      } else {
        assert (e + rest)[1..] == rest;
      }
    }
  }

  /** Contrary to the comment in the parser, an unescaped opening parenthesis does reach a value. */
  lemma OpeningParenthesisIsLiteral(py: Python)
    requires py.normal("a") == "a"
    ensures ParseFilter(py, "(a=b(c)") == Ok(Equal("a", "b(c"), 7)
  {
    hide Before, After, Unescape;
    var s := "(a=b(c)";
    assert s[1..] == "a=b(c" + [')'] + "";
    SplitJoined("a=b(c", ')', "");
    SplitJoined("a", '=', "b(c");
    assert "a" + ['='] + "b(c" == "a=b(c";
    PlainUnescapes(py, "b(c");
    assert |"b(c"| == 3 && |"*"| == 1;
  }

  /** Accepted without two hex digits: a lone backslash, one with a single digit, with a sign, and with a space. */
  lemma LooseEscapesAreAccepted(py: Python)
    ensures Unescape(py, "\\") == Ok("\\", 1) && Unescape(py, "\\5") == Ok([5 as char], 2)
    ensures Unescape(py, "\\+5") == Ok([5 as char], 3) && Unescape(py, "\\ 5") == Ok([5 as char], 3)
    ensures !Conformant("\\") && !Conformant("\\5") && !Conformant("\\+5") && !Conformant("\\ 5")
  {
    var lone, digit, sign, space := ['\\'], ['\\', '5'], ['\\', '+', '5'], ['\\', ' ', '5'];
    assert lone == "\\" && digit == "\\5" && sign == "\\+5" && space == "\\ 5";
    assert lone[1..] == [] && digit[1..2] == ['5'] && digit[2..] == [];
    assert sign[1..3] == ['+', '5'] && sign[3..] == [] && space[1..3] == [' ', '5'] && space[3..] == [];
    assert Unescape(py, []) == Ok([], 0);
    assert ['\\'] + [] == "\\" && [5 as char] + [] == [5 as char];
    assert Unescape(py, lone) == Ok(['\\'] + [], 1);
    assert Hex(py, ['5']) == 5 && Hex(py, ['+', '5']) == 5 && Hex(py, [' ', '5']) == 5;
    assert Unescape(py, digit) == Ok([5 as char] + [], 2);
    assert Unescape(py, sign) == Ok([5 as char] + [], 3);
    assert Unescape(py, space) == Ok([5 as char] + [], 3);
  }

  lemma {:induction false} PlainUnescapes(py: Python, value: string)
    requires '\\' !in value
    ensures Unescape(py, value) == Ok(value, |value|)
  {
    if value != [] {
      PlainUnescapes(py, value[1..]);
      assert value == [value[0]] + value[1..];
    }
  }

  // ----- The parser as it runs -----

  /** The branches of parse. */
  lemma ParseSteps(py: Python, s: string)
    ensures |s| < 2 || s[0] != '(' ==> ParseFilter(py, s) == Bad
    ensures |s| >= 2 && s[0] == '(' && (s[1] == '&' || s[1] == '|') ==>
      var children := ParseList(py, s[2..]);
      ParseFilter(py, s) ==
        if children.Bad? || children.value == [] || 2 + children.used >= |s| || s[2 + children.used] != ')' then Bad
        else Ok(if s[1] == '&' then And(children.value) else Or(children.value), 3 + children.used)
    ensures |s| >= 2 && s[0] == '(' && s[1] == '!' ==>
      var child := ParseFilter(py, s[2..]);
      ParseFilter(py, s) ==
        if child.Bad? || 2 + child.used >= |s| || s[2 + child.used] != ')' then Bad else Ok(Not(child.value), 3 + child.used)
    ensures |s| >= 2 && s[0] == '(' && s[1] != '&' && s[1] != '|' && s[1] != '!' ==>
      ParseFilter(py, s) ==
        if ')' !in s[1..] then Bad
        else
          var f := Assertion(py, Before(s[1..], ')'));
          if f.Bad? then Bad else Ok(f.value, |Before(s[1..], ')')| + 2)
  {
    hide ParseList, Assertion, Before;
  }

  class FilterParser {
    const text: string
    const py: Python
    var pos: nat

    constructor (text: string, py: Python)
      ensures this.text == text && this.py == py && pos == 0
    {
      this.text, this.py, pos := text, py, 0;
    }

    /** _expect. */
    method Expect(c: char) returns (ok: bool)
      requires pos <= |text|
      modifies this
      ensures ok <==> old(pos) < |text| && text[old(pos)] == c
      ensures pos == if ok then old(pos) + 1 else old(pos)
    {
      if pos >= |text| || text[pos] != c {
        return false;
      }
      pos := pos + 1;
      return true;
    }

    /** The characters up to the next closing parenthesis. */
    method ReadAssertion() returns (assertion: string)
      requires pos <= |text|
      modifies this
      ensures old(pos) <= pos <= |text| && assertion == text[old(pos)..pos] && ')' !in assertion
      ensures pos < |text| ==> text[pos] == ')'
    {
      assertion := "";
      while pos < |text| && text[pos] != ')'
        invariant old(pos) <= pos <= |text| && assertion == text[old(pos)..pos] && ')' !in assertion
      {
        assertion := assertion + [text[pos]];
        pos := pos + 1;
      }
    }

    /** A simple assertion, after its opening parenthesis. */
    method ParseTest() returns (r: Result<Filter>)
      requires pos <= |text|
      modifies this
      ensures ')' !in text[old(pos)..] ==> r == Bad
      ensures ')' in text[old(pos)..] ==>
        var body := Before(text[old(pos)..], ')');
        var f := Assertion(py, body);
        r == (if f.Bad? then Bad else Ok(f.value, |body| + 2)) && pos == old(pos) + |body| + 1
    {
      hide *;
      ghost var start := pos;
      var assertion := ReadAssertion();
      var closed := Expect(')');
      if !closed {
        assert text[start..] == assertion;
        return Bad;
      }
      assert text[start..] == assertion + [')'] + text[pos..];
      SplitJoined(assertion, ')', text[pos..]);
      var f := Assertion(py, assertion);
      return if f.Bad? then Bad else Ok(f.value, |assertion| + 2);
    }

    /** parse. On an error the position is of no use. */
    method Parse() returns (r: Result<Filter>)
      requires pos <= |text|
      modifies this
      ensures r == ParseFilter(py, text[old(pos)..])
      ensures r.Ok? ==> pos == old(pos) + r.used
      decreases |text| - pos, 0
    {
      hide *;
      ghost var start := pos;
      ghost var s := text[start..];
      ParseSteps(py, s);
      if pos >= |text| || text[pos] != '(' {
        return Bad;
      }
      pos := pos + 1;
      if pos >= |text| {
        return Bad;
      }
      var c := text[pos];
      assert s[1] == c && s[2..] == text[start + 2..] && s[1..] == text[start + 1..];
      if c == '&' || c == '|' {
        pos := pos + 1;
        var children := ParseChildren();
        if children.Bad? || children.value == [] {
          return Bad;
        }
        assert pos < |text| ==> s[2 + children.used] == text[pos];
        var closed := Expect(')');
        if !closed {
          return Bad;
        }
        return Ok(if c == '&' then And(children.value) else Or(children.value), 3 + children.used);
      }
      if c == '!' {
        pos := pos + 1;
        var child := Parse();
        if child.Bad? {
          return Bad;
        }
        assert pos < |text| ==> s[2 + child.used] == text[pos];
        var closed := Expect(')');
        if !closed {
          return Bad;
        }
        return Ok(Not(child.value), 3 + child.used);
      }
      r := ParseTest();
    }

    /** The loop of an & or | filter. */
    method ParseChildren() returns (r: Result<seq<Filter>>)
      requires pos <= |text|
      modifies this
      ensures r == ParseList(py, text[old(pos)..])
      ensures r.Ok? ==> pos == old(pos) + r.used
      decreases |text| - pos, 1
    {
      hide ParseFilter, ParseList;
      var children: seq<Filter>, start := [], pos;
      ghost var whole := ParseList(py, text[start..]);
      assert whole.Ok? ==> [] + whole.value == whole.value;
      while pos < |text| && text[pos] == '('
        invariant start <= pos <= |text|
        invariant whole == Following(children, pos - start, ParseList(py, text[pos..]))
        decreases |text| - pos
      {
        ghost var here := pos;
        ChildrenStep(py, text, start, here, children, whole);
        var child := Parse();
        if child.Bad? {
          return Bad;
        }
        children := children + [child.value];
      }
      NoMoreChildren(py, text[pos..]);
      assert children + [] == children;
      return Ok(children, pos - start);
    }
  }

  lemma NoMoreChildren(py: Python, s: string)
    requires s == [] || s[0] != '('
    ensures ParseList(py, s) == Ok([], 0)
  {
  }

  function Following(front: seq<Filter>, moved: nat, r: Result<seq<Filter>>): Result<seq<Filter>> {
    if r.Bad? then Bad else Ok(front + r.value, moved + r.used)
  }

  lemma ChildrenStep(py: Python, text: string, start: nat, pos: nat, children: seq<Filter>, whole: Result<seq<Filter>>)
    requires start <= pos < |text| && text[pos] == '('
    requires whole == Following(children, pos - start, ParseList(py, text[pos..]))
    ensures var r := ParseFilter(py, text[pos..]);
      if r.Bad? then whole == Bad
      else whole == Following(children + [r.value], pos + r.used - start, ParseList(py, text[pos + r.used..]))
  {
    hide ParseFilter;
    var r := ParseFilter(py, text[pos..]);
    if r.Ok? {
      assert text[pos..][r.used..] == text[pos + r.used..];
      var rest := ParseList(py, text[pos + r.used..]);
      if rest.Ok? {
        assert children + ([r.value] + rest.value) == children + [r.value] + rest.value;
      }
    }
  }

  /** _parse_filter: the text is stripped, and nothing may follow the filter. */
  method ParseWhole(py: Python, strip: string -> string, unstripped: string) returns (r: Result<Filter>)
    ensures var text := strip(unstripped);
      && (r.Ok? <==> ParseFilter(py, text).Ok? && ParseFilter(py, text).used == |text|)
      && (r.Ok? ==> r == ParseFilter(py, text))
      && forall attr, value :: PlainAttr(py, attr) && text == ShowTest(attr, value) ==> r == Ok(Equal(attr, value), |text|)
  {
    hide ParseFilter, ShowTest, PlainAttr;
    var text := strip(unstripped);
    assert text[0..] == text;
    forall attr, value | PlainAttr(py, attr) && text == ShowTest(attr, value)
      ensures ParseFilter(py, text) == Ok(Equal(attr, value), |text|)
    {
      ValueIsNeverSyntax(py, attr, value, []);
      assert text + [] == text;
    }
    var parser := new FilterParser(text, py);
    var parsed := parser.Parse();
    if parsed.Bad? || parser.pos != |text| {
      return Bad;
    }
    return parsed;
  }
}
