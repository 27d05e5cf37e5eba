/** Heads, scalars and the order of map keys in canonical CBOR (authlab/crypto/cbor.py). */
module CborScalars {
  import opened NumberTheory
  import opened BigEndian
  import opened Lexicographic
  import opened Wrappers

  type Bytes = seq<byte>

  const LIMIT := 0x1_0000_0000_0000_0000

  // ----- Heads -----

  lemma Widths()
    ensures Pow(256, 1) == 0x100 && Pow(256, 2) == 0x1_0000 && Pow(256, 4) == 0x1_0000_0000 && Pow(256, 8) == LIMIT
  {
    assert Pow(256, 0) == 1 && Pow(256, 1) == 256 * Pow(256, 0) && Pow(256, 2) == 256 * Pow(256, 1);
    assert Pow(256, 3) == 256 * Pow(256, 2) && Pow(256, 4) == 256 * Pow(256, 3) && Pow(256, 5) == 256 * Pow(256, 4);
    assert Pow(256, 6) == 256 * Pow(256, 5) && Pow(256, 7) == 256 * Pow(256, 6) && Pow(256, 8) == 256 * Pow(256, 7);
  }

  /** How many bytes the value takes after the first; 0 when it fits in the first. */
  function WidthFor(value: nat): nat {
    if value < 24 then 0 else if value < 0x100 then 1 else if value < 0x1_0000 then 2 else if value < 0x1_0000_0000 then 4 else 8
  }

  /** The low five bits that announce a width. */
  function InfoFor(width: nat): nat {
    if width == 1 then 24 else if width == 2 then 25 else if width == 4 then 26 else 27
  }

  /** _encode_head: the shortest head. The three high bits and the five low ones do not overlap. */
  function Head(major: nat, value: nat): (r: Bytes)
    requires major < 8 && value < LIMIT
    ensures |r| == 1 + WidthFor(value)
  {
    Widths();
    var width := WidthFor(value);
    if width == 0 then [major * 32 + value] else [major * 32 + InfoFor(width)] + ToBytes(value, width).value
  }

  datatype ParsedHead = BadHead | ParsedHead(major: nat, value: nat, used: nat)

  /** The width announced by the low five bits; None for the reserved and indefinite forms. */
  function WidthOf(info: nat): Option<nat> {
    if info == 24 then Some(1) else if info == 25 then Some(2) else if info == 26 then Some(4) else if info == 27 then Some(8) else None
  }

  /** _decode_head. It accepts a longer head than needed. */
  function ParseHead(s: Bytes): (r: ParsedHead)
    ensures r.ParsedHead? ==> 0 < r.used <= |s| && r.major < 8 && r.value < LIMIT
  {
    Widths();
    if s == [] then BadHead
    else
      var major, info := s[0] / 32, s[0] % 32;
      if info < 24 then ParsedHead(major, info, 1)
      else
        match WidthOf(info)
        case None => BadHead
        case Some(width) => if 1 + width > |s| then BadHead else ParsedHead(major, ToInt(s[1..1 + width]), 1 + width)
  }

  lemma HeadRoundTrip(major: nat, value: nat, suffix: Bytes)
    requires major < 8 && value < LIMIT
    ensures ParseHead(Head(major, value) + suffix) == ParsedHead(major, value, |Head(major, value)|)
  {
    hide Pow, ToInt;
    Widths();
    var width := WidthFor(value);
    var s := Head(major, value) + suffix;
    FirstByte(major, if width == 0 then value else InfoFor(width));
    if width > 0 {
      assert s[1..1 + width] == ToBytes(value, width).value;
    }
  }

  lemma FirstByte(major: nat, low: nat)
    requires low < 32
    ensures (major * 32 + low) / 32 == major && (major * 32 + low) % 32 == low
  {
  }

  /** A head that parses is no shorter than the shortest, and is the shortest if it is no longer. */
  lemma HeadIsShortest(s: Bytes)
    requires ParseHead(s).ParsedHead?
    ensures var h := ParseHead(s);
      |Head(h.major, h.value)| <= h.used && (|Head(h.major, h.value)| == h.used ==> s[..h.used] == Head(h.major, h.value))
  {
    hide Pow, ToInt, ToBytes;
    Widths();
    var h := ParseHead(s);
    var width := h.used - 1;
    assert s[0] == h.major * 32 + s[0] % 32;
    if width == 0 {
      assert s[..1] == [s[0]];
    } else {
      assert h.value == ToInt(s[1..1 + width]) && s[0] % 32 == InfoFor(width);
      NoWiderThan(h.value, width);
      if width == WidthFor(h.value) {
        ToBytesToInt(s[1..1 + width]);
        assert s[..h.used] == [s[0]] + s[1..1 + width];
      }
    }
  }

  lemma NoWiderThan(value: nat, width: nat)
    requires width == 1 || width == 2 || width == 4 || width == 8
    requires value < Pow(256, width)
    ensures WidthFor(value) <= width
  {
    Widths();
  }

  // ----- Scalars -----

  /** A continuation byte of UTF-8. */
  predicate Continues(b: byte) { 0x80 <= b < 0xC0 }

  /** Well-formed UTF-8 by section 4 of RFC 3629: no overlong form, no surrogate, nothing above U+10FFFF. */
  predicate IsUtf8(s: Bytes)
    decreases |s|
  {
    if s == [] then true
    else if s[0] < 0x80 then IsUtf8(s[1..])
    else if 0xC2 <= s[0] < 0xE0 then |s| >= 2 && Continues(s[1]) && IsUtf8(s[2..])
    else if 0xE0 <= s[0] < 0xF0 then
      |s| >= 3 && Continues(s[1]) && Continues(s[2]) && (s[0] == 0xE0 ==> s[1] >= 0xA0) && (s[0] == 0xED ==> s[1] < 0xA0) && IsUtf8(s[3..])
    else if 0xF0 <= s[0] < 0xF5 then
      |s| >= 4 && Continues(s[1]) && Continues(s[2]) && Continues(s[3])
      && (s[0] == 0xF0 ==> s[1] >= 0x90) && (s[0] == 0xF4 ==> s[1] < 0x90) && IsUtf8(s[4..])
    else false
  }

  /** What a map key can be. Text is its UTF-8 bytes. */
  datatype Scalar = Null | Bool(b: bool) | Int(n: int) | Blob(bytes: Bytes) | Text(utf8: Bytes)

  /** The encoder raises on anything larger; text is always valid UTF-8. */
  predicate ScalarFits(k: Scalar) {
    match k
    case Int(n) => -LIMIT <= n < LIMIT
    case Blob(bytes) => |bytes| < LIMIT
    case Text(utf8) => |utf8| < LIMIT && IsUtf8(utf8)
    case _ => true
  }

  function EncodeScalar(k: Scalar): (r: Bytes)
    requires ScalarFits(k)
    ensures |r| > 0
  {
    match k
    case Bool(b) => if b then [0xF5] else [0xF4]
    case Null => [0xF6]
    case Int(n) => if n >= 0 then Head(0, n) else Head(1, -n - 1)
    case Blob(bytes) => Head(2, |bytes|) + bytes
    case Text(utf8) => Head(3, |utf8|) + utf8
  }

  // ----- The canonical order -----

  /** Shorter first, then bytewise. */
  predicate Less(a: Bytes, b: Bytes) {
    |a| < |b| || (|a| == |b| && LexLess(a, b))
  }

  lemma LessTotal(a: Bytes, b: Bytes)
    ensures Less(a, b) || a == b || Less(b, a)
    ensures !(Less(a, b) && Less(b, a)) && !Less(a, a)
  {
    LexTotal(a, b);
    LexTotal(a, a);
  }

  lemma LessTransitive(a: Bytes, b: Bytes, c: Bytes)
    requires Less(a, b) && Less(b, c)
    ensures Less(a, c)
  {
    if |a| == |b| == |c| {
      LexTransitive(a, b, c);
    }
  }

  predicate KeyLess(a: Scalar, b: Scalar)
    requires ScalarFits(a) && ScalarFits(b)
  {
    Less(EncodeScalar(a), EncodeScalar(b))
  }

  ghost predicate AllFit(keys: set<Scalar>) {
    forall k :: k in keys ==> ScalarFits(k)
  }

  predicate Ascending(ks: seq<Scalar>) {
    && (forall i :: 0 <= i < |ks| ==> ScalarFits(ks[i]))
    && (forall i, j :: 0 <= i < j < |ks| ==> KeyLess(ks[i], ks[j]))
  }

  /** Two ascending lists of the same keys are the same list. */
  lemma {:induction false} AscendingIsUnique(a: seq<Scalar>, b: seq<Scalar>)
    requires Ascending(a) && Ascending(b) && (forall k :: k in a <==> k in b)
    ensures a == b
    decreases |a|
  {
    hide EncodeScalar, Less;
    if a == [] {
      EmptyOrInhabited(b);
    } else {
      assert a[0] in b && b != [];
      SameFirst(a, b);
      NotInRest(a);
      NotInRest(b);
      assert a == [a[0]] + a[1..] && b == [b[0]] + b[1..];
      forall k
        ensures k in a[1..] <==> k in b[1..]
      {
        assert k in [a[0]] + a[1..] <==> k == a[0] || k in a[1..];
        assert k in [b[0]] + b[1..] <==> k == b[0] || k in b[1..];
      }
      AscendingIsUnique(a[1..], b[1..]);
    }
  }

  lemma EmptyOrInhabited(s: seq<Scalar>)
    ensures s == [] || s[0] in s
  {
  }

  lemma NotInRest(a: seq<Scalar>)
    requires Ascending(a) && a != []
    ensures a[0] !in a[1..] && Ascending(a[1..])
  {
    hide EncodeScalar, Less;
    forall i | 0 < i < |a|
      ensures a[i] != a[0]
    {
      assert KeyLess(a[0], a[i]);
      LessTotal(EncodeScalar(a[0]), EncodeScalar(a[i]));
    }
  }

  lemma SameFirst(a: seq<Scalar>, b: seq<Scalar>)
    requires Ascending(a) && Ascending(b) && a != [] && b != [] && a[0] in b && b[0] in a
    ensures a[0] == b[0]
  {
    hide EncodeScalar, Less;
    var i :| 0 <= i < |b| && b[i] == a[0];
    var j :| 0 <= j < |a| && a[j] == b[0];
    if i > 0 && j > 0 {
      assert KeyLess(b[0], b[i]) && KeyLess(a[0], a[j]);
      LessTotal(EncodeScalar(a[0]), EncodeScalar(b[0]));
    }
  }
}
