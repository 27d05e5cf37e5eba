/** The escaping of text and attribute values in canonical XML (authlab/saml/c14n.py). */
module XmlEscape {

  /** s.replace(c, by) for a single character. */
  function Replace(s: string, c: char, with: string): string {
    if s == [] then [] else (if s[0] == c then with else [s[0]]) + Replace(s[1..], c, with)
  }

  /** _escape_text: four replacements, the ampersand first. */
  function EscapeText(s: string): string {
    Replace(Replace(Replace(Replace(s, '&', "&amp;"), '<', "&lt;"), '>', "&gt;"), '\r', "&#xD;")
  }

  /** _escape_attribute. */
  function EscapeAttribute(s: string): string {
    Replace(Replace(Replace(Replace(Replace(Replace(s, '&', "&amp;"), '<', "&lt;"), '"', "&quot;"), '\t', "&#x9;"), '\n', "&#xA;"), '\r', "&#xD;")
  }

  // ----- Replacement character by character -----

  function TextChar(c: char): string {
    if c == '&' then "&amp;" else if c == '<' then "&lt;" else if c == '>' then "&gt;" else if c == '\r' then "&#xD;" else [c]
  }

  function AttributeChar(c: char): string {
    if c == '&' then "&amp;" else if c == '<' then "&lt;" else if c == '"' then "&quot;" else if c == '\t' then "&#x9;"
    else if c == '\n' then "&#xA;" else if c == '\r' then "&#xD;" else [c]
  }

  function Spread(s: string, f: char -> string): string {
    if s == [] then [] else f(s[0]) + Spread(s[1..], f)
  }

  lemma {:induction false} ReplaceConcat(s: string, t: string, c: char, with: string)
    ensures Replace(s + t, c, with) == Replace(s, c, with) + Replace(t, c, with)
  {
    if s == [] {
      assert s + t == t;
    } else {
      assert (s + t)[1..] == s[1..] + t;
      ReplaceConcat(s[1..], t, c, with);
    }
  }

  lemma {:induction false} ReplaceAbsent(s: string, c: char, with: string)
    requires c !in s
    ensures Replace(s, c, with) == s
  {
    if s != [] {
      ReplaceAbsent(s[1..], c, with);
    }
  }

  /** Doing one more replacement after a character-wise one is character-wise again. */
  lemma {:induction false} ReplaceAfter(s: string, f: char -> string, g: char -> string, c: char, with: string)
    requires forall x :: Replace(f(x), c, with) == g(x)
    ensures Replace(Spread(s, f), c, with) == Spread(s, g)
  {
    if s != [] {
      ReplaceConcat(f(s[0]), Spread(s[1..], f), c, with);
      ReplaceAfter(s[1..], f, g, c, with);
    }
  }

  // The stages of the two chains, as far as they have got after each replacement.
  function Stage(chain: seq<(char, string)>, x: char): string
  {
    if chain == [] then [x]
    else
      var n := |chain| - 1;
      Replace(Stage(chain[..n], x), chain[n].0, chain[n].1)
  }

  function Chain(chain: seq<(char, string)>, s: string): string {
    if chain == [] then s
    else
      var n := |chain| - 1;
      Replace(Chain(chain[..n], s), chain[n].0, chain[n].1)
  }

  /** A chain of replacements acts on each character alone. */
  lemma {:induction false} ChainIsSpread(chain: seq<(char, string)>, s: string)
    ensures Chain(chain, s) == Spread(s, x => Stage(chain, x))
  {
    if chain == [] {
      SpreadOfSingletons(s, x => Stage(chain, x));
    } else {
      var n := |chain| - 1;
      ChainIsSpread(chain[..n], s);
      ReplaceAfter(s, x => Stage(chain[..n], x), x => Stage(chain, x), chain[n].0, chain[n].1);
    }
  }

  lemma {:induction false} SpreadSame(s: string, f: char -> string, g: char -> string)
    requires forall x :: f(x) == g(x)
    ensures Spread(s, f) == Spread(s, g)
  {
    if s != [] {
      SpreadSame(s[1..], f, g);
    }
  }

  lemma {:induction false} SpreadOfSingletons(s: string, f: char -> string)
    requires forall x :: f(x) == [x]
    ensures Spread(s, f) == s
  {
    if s != [] {
      SpreadOfSingletons(s[1..], f);
    }
  }

  const TEXT_CHAIN: seq<(char, string)> := [('&', "&amp;"), ('<', "&lt;"), ('>', "&gt;"), ('\r', "&#xD;")]

  const ATTRIBUTE_CHAIN: seq<(char, string)> :=
    [('&', "&amp;"), ('<', "&lt;"), ('"', "&quot;"), ('\t', "&#x9;"), ('\n', "&#xA;"), ('\r', "&#xD;")]

  // A replacement that no later one touches.
  lemma {:induction false} StageSettles(chain: seq<(char, string)>, k: nat, x: char)
    requires k < |chain| && chain[k].0 == x && (forall i :: 0 <= i < k ==> chain[i].0 != x)
    requires forall i :: k < i < |chain| ==> chain[i].0 !in chain[k].1
    ensures Stage(chain, x) == chain[k].1
    decreases |chain|
  {
    var n := |chain| - 1;
    if k < n {
      StageSettles(chain[..n], k, x);
      ReplaceAbsent(chain[k].1, chain[n].0, chain[n].1);
    } else {
      StageUntouched(chain[..n], x);
      assert Replace([x], x, chain[n].1) == chain[n].1 + Replace([], x, chain[n].1);
    }
  }

  lemma {:induction false} StageUntouched(chain: seq<(char, string)>, x: char)
    requires forall i :: 0 <= i < |chain| ==> chain[i].0 != x
    ensures Stage(chain, x) == [x]
    decreases |chain|
  {
    if chain != [] {
      var n := |chain| - 1;
      StageUntouched(chain[..n], x);
      ReplaceAbsent([x], chain[n].0, chain[n].1);
    }
  }

  lemma TextStage(x: char)
    ensures Stage(TEXT_CHAIN, x) == TextChar(x)
  {
    hide Stage;
    var chain := TEXT_CHAIN;
    if k :| 0 <= k < |chain| && chain[k].0 == x {
      StageSettles(chain, k, x);
    } else {
      StageUntouched(chain, x);
      assert chain[0].0 == '&' && chain[1].0 == '<' && chain[2].0 == '>' && chain[3].0 == '\r';
    }
  }

  lemma AttributeStage(x: char)
    ensures Stage(ATTRIBUTE_CHAIN, x) == AttributeChar(x)
  {
    hide Stage;
    var chain := ATTRIBUTE_CHAIN;
    if k :| 0 <= k < |chain| && chain[k].0 == x {
      StageSettles(chain, k, x);
    } else {
      StageUntouched(chain, x);
      assert chain[0].0 == '&' && chain[1].0 == '<' && chain[2].0 == '"' && chain[3].0 == '\t' && chain[4].0 == '\n' && chain[5].0 == '\r';
    }
  }

  /** The replacements, in the order the code makes them, never touch each other's output. */
  lemma TextIsSpread(s: string)
    ensures EscapeText(s) == Spread(s, TextChar)
  {
    var c := TEXT_CHAIN;
    assert c[..3][..2] == c[..2] && c[..2][..1] == c[..1] && c[..1][..0] == [];
    assert Chain(c[..1], s) == Replace(s, '&', "&amp;");
    assert Chain(c[..2], s) == Replace(Chain(c[..1], s), '<', "&lt;");
    assert Chain(c[..3], s) == Replace(Chain(c[..2], s), '>', "&gt;");
    assert Chain(c, s) == EscapeText(s);
    ChainIsSpread(c, s);
    forall x
      ensures Stage(c, x) == TextChar(x)
    {
      TextStage(x);
    }
    SpreadSame(s, x => Stage(c, x), TextChar);
  }

  lemma AttributeIsSpread(s: string)
    ensures EscapeAttribute(s) == Spread(s, AttributeChar)
  {
    var c := ATTRIBUTE_CHAIN;
    assert c[..5][..4] == c[..4] && c[..4][..3] == c[..3] && c[..3][..2] == c[..2] && c[..2][..1] == c[..1] && c[..1][..0] == [];
    assert Chain(c[..1], s) == Replace(s, '&', "&amp;");
    assert Chain(c[..2], s) == Replace(Chain(c[..1], s), '<', "&lt;");
    assert Chain(c[..3], s) == Replace(Chain(c[..2], s), '"', "&quot;");
    assert Chain(c[..4], s) == Replace(Chain(c[..3], s), '\t', "&#x9;");
    assert Chain(c[..5], s) == Replace(Chain(c[..4], s), '\n', "&#xA;");
    assert Chain(c, s) == EscapeAttribute(s);
    ChainIsSpread(c, s);
    forall x
      ensures Stage(c, x) == AttributeChar(x)
    {
      AttributeStage(x);
    }
    SpreadSame(s, x => Stage(c, x), AttributeChar);
  }

  // ----- What a reader makes of it -----

  datatype Reading = Malformed | Read(text: string)

  /** The references the two escapes use, as an XML reader resolves them. */
  function Reference(s: string): (r: (string, nat))
    ensures r.1 <= |s|
  {
    if "&amp;" <= s then ("&", 5)
    else if "&lt;" <= s then ("<", 4)
    else if "&gt;" <= s then (">", 4)
    else if "&quot;" <= s then ("\"", 6)
    else if "&#x9;" <= s then ("\t", 5)
    else if "&#xA;" <= s then ("\n", 5)
    else if "&#xD;" <= s then ("\r", 5)
    else ("", 0)
  }

  function Unescape(s: string): Reading
    decreases |s|
  {
    if s == [] then Read([])
    else if s[0] == '&' then
      var (text, length) := Reference(s);
      if length == 0 then Malformed
      else
        match Unescape(s[length..])
        case Malformed => Malformed
        case Read(rest) => Read(text + rest)
    else
      match Unescape(s[1..])
      case Malformed => Malformed
      case Read(rest) => Read([s[0]] + rest)
  }

  /** One character's replacement reads as that character, whatever follows. */
  ghost predicate ReadsBack(f: char -> string) {
    forall x, rest :: CharReads(f, x, rest)
  }

  ghost predicate CharReads(f: char -> string, x: char, rest: string) {
    Unescape(f(x) + rest) == if Unescape(rest).Read? then Read([x] + Unescape(rest).text) else Malformed
  }

  lemma {:induction false} SpreadReadsBack(s: string, f: char -> string)
    requires ReadsBack(f)
    ensures Unescape(Spread(s, f)) == Read(s)
  {
    hide Unescape;
    if s == [] {
      NothingReads();
    } else {
      SpreadReadsBack(s[1..], f);
      assert CharReads(f, s[0], Spread(s[1..], f));
      assert s == [s[0]] + s[1..];
    }
  }

  lemma NothingReads()
    ensures Unescape([]) == Read([])
  {
  }

  lemma PlainReads(x: char, rest: string)
    requires x != '&'
    ensures Unescape([x] + rest) == if Unescape(rest).Read? then Read([x] + Unescape(rest).text) else Malformed
  {
    assert ([x] + rest)[1..] == rest;
  }

  lemma ReferenceReads(reference: string, x: char, rest: string)
    requires Reference(reference + rest) == ([x], |reference|) && |reference| > 0 && reference[0] == '&'
    ensures Unescape(reference + rest) == if Unescape(rest).Read? then Read([x] + Unescape(rest).text) else Malformed
  {
    assert (reference + rest)[|reference|..] == rest;
  }

  // The references are told apart by their second to fourth characters.
  lemma References(rest: string)
    ensures Reference("&amp;" + rest) == ("&", 5) && Reference("&lt;" + rest) == ("<", 4) && Reference("&gt;" + rest) == (">", 4)
    ensures Reference("&quot;" + rest) == ("\"", 6)
    ensures Reference("&#x9;" + rest) == ("\t", 5) && Reference("&#xA;" + rest) == ("\n", 5) && Reference("&#xD;" + rest) == ("\r", 5)
  {
    assert "&amp;"[1] == 'a' && "&lt;"[1] == 'l' && "&gt;"[1] == 'g' && "&quot;"[1] == 'q' && "&#x9;"[1] == '#';
    assert "&#x9;"[3] == '9' && "&#xA;"[3] == 'A' && "&#xD;"[3] == 'D';
  }

  lemma TextCharReads(x: char, rest: string)
    ensures Unescape(TextChar(x) + rest) == if Unescape(rest).Read? then Read([x] + Unescape(rest).text) else Malformed
  {
    hide Unescape, Reference;
    References(rest);
    if x == '&' || x == '<' || x == '>' || x == '\r' {
      ReferenceReads(TextChar(x), x, rest);
    } else {
      PlainReads(x, rest);
    }
  }

  lemma AttributeCharReads(x: char, rest: string)
    ensures Unescape(AttributeChar(x) + rest) == if Unescape(rest).Read? then Read([x] + Unescape(rest).text) else Malformed
  {
    hide Unescape, Reference;
    References(rest);
    if x == '&' || x == '<' || x == '"' || x == '\t' || x == '\n' || x == '\r' {
      ReferenceReads(AttributeChar(x), x, rest);
    } else {
      PlainReads(x, rest);
    }
  }

  /** No character of the output is one of these. */
  lemma {:induction false} SpreadAvoids(s: string, f: char -> string, c: char)
    requires forall x :: c !in f(x)
    ensures c !in Spread(s, f)
  {
    if s != [] {
      SpreadAvoids(s[1..], f, c);
    }
  }

  lemma TextCharAvoids()
    ensures forall x :: '<' !in TextChar(x) && '>' !in TextChar(x) && '\r' !in TextChar(x)
  {
  }

  lemma AttributeCharAvoids()
    ensures forall x :: '<' !in AttributeChar(x) && '"' !in AttributeChar(x)
    ensures forall x :: '\t' !in AttributeChar(x) && '\n' !in AttributeChar(x) && '\r' !in AttributeChar(x)
  {
  }

  /** Escaped text holds no markup and no carriage return, and a reader gets exactly the text back. */
  lemma TextRoundTrip(s: string)
    ensures Unescape(EscapeText(s)) == Read(s)
    ensures '<' !in EscapeText(s) && '>' !in EscapeText(s) && '\r' !in EscapeText(s)
  {
    hide Unescape, EscapeText, TextChar;
    TextCharAvoids();
    TextIsSpread(s);
    forall x, rest
      ensures CharReads(TextChar, x, rest)
    {
      TextCharReads(x, rest);
    }
    SpreadReadsBack(s, TextChar);
    SpreadAvoids(s, TextChar, '<');
    SpreadAvoids(s, TextChar, '>');
    SpreadAvoids(s, TextChar, '\r');
  }

  /** An escaped value cannot leave its quotes nor be changed by attribute normalisation, and reads back exactly. */
  lemma AttributeRoundTrip(s: string)
    ensures Unescape(EscapeAttribute(s)) == Read(s)
    ensures '<' !in EscapeAttribute(s) && '"' !in EscapeAttribute(s)
    ensures '\t' !in EscapeAttribute(s) && '\n' !in EscapeAttribute(s) && '\r' !in EscapeAttribute(s)
  {
    hide Unescape, EscapeAttribute, AttributeChar;
    AttributeCharAvoids();
    AttributeIsSpread(s);
    forall x, rest
      ensures CharReads(AttributeChar, x, rest)
    {
      AttributeCharReads(x, rest);
    }
    SpreadReadsBack(s, AttributeChar);
    SpreadAvoids(s, AttributeChar, '<');
    SpreadAvoids(s, AttributeChar, '"');
    SpreadAvoids(s, AttributeChar, '\t');
    SpreadAvoids(s, AttributeChar, '\n');
    SpreadAvoids(s, AttributeChar, '\r');
  }
}
