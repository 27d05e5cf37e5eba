/** UTF-8 as section 3 of RFC 3629 defines it: what CBOR text must be (authlab/crypto/cbor.py). */
module Utf8 {
  import opened NumberTheory
  import opened BigEndian
  import opened CborScalars

  /** A character number: not above U+10FFFF and not a surrogate. */
  predicate IsCharacter(c: int) {
    0 <= c <= 0x10FFFF && !(0xD800 <= c <= 0xDFFF)
  }

  /** The octets of a character, by its range. */
  function Octets(c: int): Bytes
    requires IsCharacter(c)
  {
    if c < 0x80 then [c]
    else if c < 0x800 then [0xC0 + c / 0x40, 0x80 + c % 0x40]
    else if c < 0x1_0000 then [0xE0 + c / 0x1000, 0x80 + c / 0x40 % 0x40, 0x80 + c % 0x40]
    else [0xF0 + c / 0x4_0000, 0x80 + c / 0x1000 % 0x40, 0x80 + c / 0x40 % 0x40, 0x80 + c % 0x40]
  }

  predicate AreCharacters(cs: seq<int>) {
    forall i :: 0 <= i < |cs| ==> IsCharacter(cs[i])
  }

  function Written(cs: seq<int>): Bytes
    requires AreCharacters(cs)
  {
    if cs == [] then [] else Octets(cs[0]) + Written(cs[1..])
  }

  /** The octets of one character pass every check on a lead byte and what follows it. */
  predicate Leads(o: Bytes) {
    || (|o| == 1 && o[0] < 0x80)
    || (|o| == 2 && 0xC2 <= o[0] < 0xE0 && Continues(o[1]))
    || (|o| == 3 && 0xE0 <= o[0] < 0xF0 && Continues(o[1]) && Continues(o[2])
        && (o[0] == 0xE0 ==> o[1] >= 0xA0) && (o[0] == 0xED ==> o[1] < 0xA0))
    || (|o| == 4 && 0xF0 <= o[0] < 0xF5 && Continues(o[1]) && Continues(o[2]) && Continues(o[3])
        && (o[0] == 0xF0 ==> o[1] >= 0x90) && (o[0] == 0xF4 ==> o[1] < 0x90))
  }

  lemma OctetsLead(c: int)
    requires IsCharacter(c)
    ensures Leads(Octets(c))
  {
  }

  lemma LeadsThenUtf8(o: Bytes, rest: Bytes)
    requires Leads(o) && IsUtf8(rest)
    ensures IsUtf8(o + rest)
  {
    var s := o + rest;
    assert s[|o|..] == rest;
    assert s[0] == o[0];
  }

  lemma OctetsAreUtf8(c: int, rest: Bytes)
    requires IsCharacter(c) && IsUtf8(rest)
    ensures IsUtf8(Octets(c) + rest)
  {
    hide *;
    OctetsLead(c);
    LeadsThenUtf8(Octets(c), rest);
  }

  lemma {:induction false} WrittenIsUtf8(cs: seq<int>)
    requires AreCharacters(cs)
    ensures IsUtf8(Written(cs))
  {
    if cs != [] {
      WrittenIsUtf8(cs[1..]);
      OctetsAreUtf8(cs[0], Written(cs[1..]));
    }
  }

  lemma Digits(a: nat, b: nat, d: nat, e: nat)
    requires b < 0x40 && d < 0x40 && e < 0x40
    ensures var c := a * 0x4_0000 + b * 0x1000 + d * 0x40 + e;
      c / 0x4_0000 == a && c / 0x1000 % 0x40 == b && c / 0x40 % 0x40 == d && c % 0x40 == e
      && (a == 0 ==> c / 0x1000 == b && (b == 0 ==> c / 0x40 == d))
  {
    var c, top, upper := a * 0x4_0000 + b * 0x1000 + d * 0x40 + e, a * 0x40 + b, (a * 0x40 + b) * 0x40 + d;
    ModUnique(c, 0x4_0000, a, b * 0x1000 + d * 0x40 + e);
    ModUnique(c, 0x1000, top, d * 0x40 + e);
    ModUnique(c, 0x40, upper, e);
    ModUnique(top, 0x40, a, b);
    ModUnique(upper, 0x40, top, d);
  }

  /** A lead byte and so many continuation bytes. */
  lemma TwoOctets(s: Bytes) returns (c: int)
    requires |s| >= 2 && 0xC2 <= s[0] < 0xE0 && Continues(s[1])
    ensures IsCharacter(c) && Octets(c) == s[..2]
  {
    var b: seq<int> := s;
    Digits(0, 0, b[0] - 0xC0, b[1] - 0x80);
    c := (b[0] - 0xC0) * 0x40 + (b[1] - 0x80);
  }

  lemma ThreeOctets(s: Bytes) returns (c: int)
    requires |s| >= 3 && 0xE0 <= s[0] < 0xF0 && Continues(s[1]) && Continues(s[2])
    requires (s[0] == 0xE0 ==> s[1] >= 0xA0) && (s[0] == 0xED ==> s[1] < 0xA0)
    ensures IsCharacter(c) && Octets(c) == s[..3]
  {
    var b: seq<int> := s;
    Digits(0, b[0] - 0xE0, b[1] - 0x80, b[2] - 0x80);
    c := (b[0] - 0xE0) * 0x1000 + (b[1] - 0x80) * 0x40 + (b[2] - 0x80);
  }

  lemma FourOctets(s: Bytes) returns (c: int)
    requires |s| >= 4 && 0xF0 <= s[0] < 0xF5 && Continues(s[1]) && Continues(s[2]) && Continues(s[3])
    requires (s[0] == 0xF0 ==> s[1] >= 0x90) && (s[0] == 0xF4 ==> s[1] < 0x90)
    ensures IsCharacter(c) && Octets(c) == s[..4]
  {
    var b: seq<int> := s;
    Digits(b[0] - 0xF0, b[1] - 0x80, b[2] - 0x80, b[3] - 0x80);
    c := (b[0] - 0xF0) * 0x4_0000 + (b[1] - 0x80) * 0x1000 + (b[2] - 0x80) * 0x40 + (b[3] - 0x80);
  }

  /** The character that a well-formed string begins with. */
  lemma FirstCharacter(s: Bytes) returns (c: int)
    requires s != [] && IsUtf8(s)
    ensures IsCharacter(c) && |Octets(c)| <= |s| && Octets(c) == s[..|Octets(c)|] && IsUtf8(s[|Octets(c)|..])
  {
    hide Octets;
    if s[0] < 0x80 {
      c := s[0];
      OneOctet(c);
      assert s[..1] == [s[0]];
    } else if s[0] < 0xE0 {
      c := TwoOctets(s);
    } else if s[0] < 0xF0 {
      c := ThreeOctets(s);
    } else {
      c := FourOctets(s);
    }
  }

  lemma OneOctet(c: int)
    requires 0 <= c < 0x80
    ensures IsCharacter(c) && Octets(c) == [c]
  {
  }

  lemma {:induction false} Utf8IsWritten(s: Bytes) returns (cs: seq<int>)
    requires IsUtf8(s)
    ensures AreCharacters(cs) && Written(cs) == s
    decreases |s|
  {
    if s == [] {
      cs := [];
    } else {
      var c := FirstCharacter(s);
      hide IsUtf8, Octets, IsCharacter;
      NotEmpty(c);
      var rest := Utf8IsWritten(s[|Octets(c)|..]);
      cs := [c] + rest;
      assert cs[1..] == rest && s == Octets(c) + s[|Octets(c)|..];
    }
  }

  lemma NotEmpty(c: int)
    requires IsCharacter(c)
    ensures Octets(c) != []
  {
  }

  /** A string is well-formed exactly when it is some list of characters written out. */
  lemma IsUtf8Iff(s: Bytes)
    ensures IsUtf8(s) <==> exists cs :: AreCharacters(cs) && Written(cs) == s
  {
    hide IsUtf8, Written, AreCharacters;
    if IsUtf8(s) {
      var cs := Utf8IsWritten(s);
    }
    if cs :| AreCharacters(cs) && Written(cs) == s {
      WrittenIsUtf8(cs);
    }
  }
}
