/** The raw and DER forms of an ECDSA signature (authlab/crypto/ec.py, authlab/crypto/asn1.py). */
module SignatureCodec {
  import opened NumberTheory
  import opened BigEndian
  import opened Ecdsa
  import opened Wrappers

  type Bytes = seq<byte>

  // ----- Raw: two integers of fixed width -----

  /** signature_to_raw; None when an integer needs more than `size` bytes. */
  function ToRaw(sig: Signature, size: nat): Option<Bytes> {
    match (ToBytes(sig.r, size), ToBytes(sig.s, size))
    case (Some(r), Some(s)) => Some(r + s)
    case _ => None
  }

  /** signature_from_raw. */
  function FromRaw(data: Bytes, size: nat): Option<Signature> {
    if |data| != 2 * size then None else Some(Signature(ToInt(data[..size]), ToInt(data[size..])))
  }

  /** The raw form is a bijection: a byte string decodes to exactly the signature that encodes to it. */
  lemma RawIff(data: Bytes, sig: Signature, size: nat)
    ensures FromRaw(data, size) == Some(sig) <==> ToRaw(sig, size) == Some(data)
  {
    hide ToInt, ToBytes;
    if FromRaw(data, size) == Some(sig) {
      ToBytesToInt(data[..size]);
      ToBytesToInt(data[size..]);
      assert data == data[..size] + data[size..];
    }
    if ToRaw(sig, size) == Some(data) {
      var r, s := ToBytes(sig.r, size).value, ToBytes(sig.s, size).value;
      assert data[..size] == r && data[size..] == s;
    }
  }

  // ----- DER -----

  /** int_to_bytes without a length: as few bytes as possible, but one for zero. */
  function Minimal(n: nat): (r: Bytes)
    ensures |r| == (if n == 0 then 1 else ByteLength(n)) && |r| > 0 && ToInt(r) == n
  {
    ByteLengthBounds(n);
    ByteLengthOfZero();
    ToBytes(n, if n == 0 then 1 else ByteLength(n)).value
  }

  lemma ByteLengthOfZero()
    ensures ByteLength(0) == 0 && Pow(256, 1) == 256 && Pow(256, 0) == 1
  {
  }

  /** _der_length. None when the length of the length does not fit in seven bits. */
  function DerLength(n: nat): Option<Bytes> {
    if n < 0x80 then Some([n])
    else
      var body := Minimal(n);
      if |body| >= 0x80 then None else Some([0x80 + |body|] + body)
  }

  function Tlv(tag: byte, value: Bytes): Option<Bytes> {
    match DerLength(|value|)
    case None => None
    case Some(length) => Some([tag] + length + value)
  }

  /** The content of der_integer: a leading zero keeps the number from reading as negative. */
  function IntegerBody(n: nat): (r: Bytes)
    ensures ToInt(r) == n && |r| > 0
  {
    var body := Minimal(n);
    LeadingZero(body);
    if body[0] >= 0x80 then [0] + body else body
  }

  lemma LeadingZero(s: Bytes)
    ensures ToInt([0] + s) == ToInt(s)
  {
    ToIntConcat([0], s);
    assert ToInt([0]) == 256 * ToInt([]) + 0 by {
      assert [0][..0] == [];
    }
  }

  /** signature_to_der. */
  function ToDer(sig: Signature): Option<Bytes> {
    match (Tlv(0x02, IntegerBody(sig.r)), Tlv(0x02, IntegerBody(sig.s)))
    case (Some(r), Some(s)) => Tlv(0x30, r + s)
    case _ => None
  }

  /** _read_tlv: the value and what follows. A length beyond the end is not refused: slicing stops at the end. */
  function ReadTlv(data: Bytes, tag: byte): Option<(Bytes, Bytes)> {
    if |data| < 2 || data[0] != tag then None
    else if data[1] < 0x80 then Some(Cut(data, 2, data[1]))
    else
      var count := data[1] - 0x80;
      if count == 0 || count > 4 then None
      else
        var end := if 2 + count <= |data| then 2 + count else |data|;
        Some(Cut(data, 2 + count, ToInt(data[2..end])))
  }

  /** data[offset:offset + length] and data[offset + length:], with Python's clipping. */
  function Cut(data: Bytes, offset: nat, length: nat): (Bytes, Bytes) {
    var from := if offset <= |data| then offset else |data|;
    var end := if offset + length <= |data| then offset + length else |data|;
    (data[from..end], data[end..])
  }

  /** signature_from_der. */
  function FromDer(data: Bytes): Option<Signature> {
    if |data| < 8 then None
    else
      match ReadTlv(data, 0x30)
      case None => None
      case Some((body, rest)) =>
        if rest != [] then None
        else
          match ReadTlv(body, 0x02)
          case None => None
          case Some((r, afterR)) =>
            match ReadTlv(afterR, 0x02)
            case None => None
            case Some((s, afterS)) => if afterS != [] then None else Some(Signature(ToInt(r), ToInt(s)))
  }

  // ----- Decoding undoes encoding -----

  const LENGTH_LIMIT := 0x1_0000_0000

  lemma LengthWidth(n: nat)
    requires n < LENGTH_LIMIT
    ensures n > 0 ==> ByteLength(n) <= 4
  {
    ByteLengthBounds(n);
    assert Pow(256, 4) == LENGTH_LIMIT by {
      assert Pow(256, 1) == 256 && Pow(256, 2) == 256 * Pow(256, 1) && Pow(256, 3) == 256 * Pow(256, 2);
    }
    if ByteLength(n) > 4 {
      PowMonotone(256, 4, ByteLength(n) - 1);
    }
  }

  /** Every value with a length below 2^32 is read back, and what follows it is left. */
  lemma TlvRoundTrip(tag: byte, value: Bytes, suffix: Bytes)
    requires |value| < LENGTH_LIMIT
    ensures Tlv(tag, value).Some? && |Tlv(tag, value).value| >= 2 + |value|
    ensures ReadTlv(Tlv(tag, value).value + suffix, tag) == Some((value, suffix))
  {
    hide ToInt, Minimal, ByteLength;
    var n := |value|;
    LengthWidth(n);
    var length := DerLength(n).value;
    var data := Tlv(tag, value).value + suffix;
    assert data == [tag] + (length + (value + suffix));
    assert data[1] == length[0];
    var offset := 1 + |length|;
    assert data[offset..offset + n] == value && data[offset + n..] == suffix;
    if n >= 0x80 {
      var body := Minimal(n);
      assert data[2..2 + |body|] == body;
    }
  }

  /** Signatures whose content is shorter than 2^32 bytes survive the way through DER. */
  lemma DerRoundTrip(sig: Signature)
    requires |IntegerBody(sig.r)| + |IntegerBody(sig.s)| + 12 < LENGTH_LIMIT
    ensures ToDer(sig).Some? && FromDer(ToDer(sig).value) == Some(sig)
  {
    hide Tlv, ReadTlv, ToInt;
    var rBody, sBody := IntegerBody(sig.r), IntegerBody(sig.s);
    TlvRoundTrip(0x02, rBody, []);
    TlvRoundTrip(0x02, sBody, []);
    var r, s := Tlv(0x02, rBody).value, Tlv(0x02, sBody).value;
    TlvSize(0x02, rBody);
    TlvSize(0x02, sBody);
    TlvRoundTrip(0x30, r + s, []);
    TlvRoundTrip(0x02, rBody, s);
    var whole := Tlv(0x30, r + s).value;
    assert whole + [] == whole && s + [] == s;
  }

  lemma TlvSize(tag: byte, value: Bytes)
    requires |value| < LENGTH_LIMIT
    ensures Tlv(tag, value).Some? && |Tlv(tag, value).value| <= 6 + |value|
  {
    LengthWidth(|value|);
  }

  /** Raw to DER and back to raw is the identity on raw signatures. */
  lemma RawThroughDer(data: Bytes, size: nat)
    requires |data| == 2 * size && size < 0x1000_0000
    ensures FromRaw(data, size).Some?
    ensures var sig := FromRaw(data, size).value;
      ToDer(sig).Some? && FromDer(ToDer(sig).value).Some? && ToRaw(FromDer(ToDer(sig).value).value, size) == Some(data)
  {
    hide ToInt, ToBytes, ToDer, FromDer, Minimal;
    var sig := FromRaw(data, size).value;
    RawIff(data, sig, size);
    BodyFits(sig.r, size);
    BodyFits(sig.s, size);
    DerRoundTrip(sig);
  }

  lemma BodyFits(n: nat, size: nat)
    requires n < Pow(256, size)
    ensures |IntegerBody(n)| <= size + 2
  {
    hide ToInt;
    ByteLengthBounds(n);
    if n > 0 && ByteLength(n) > size {
      PowMonotone(256, size, ByteLength(n) - 1);
    }
  }

  // ----- When a decoded string is the encoding of its result -----

  /** Where the value begins, going by the first length byte. */
  function ValueStart(data: Bytes): nat
    requires |data| >= 2
  {
    if data[1] < 0x80 then 2 else 2 + (data[1] - 0x80)
  }

  /** The length is complete and in its shortest form: long only from 128 on, and without leading zeros. */
  predicate ShortestLength(data: Bytes)
    requires |data| >= 2
  {
    data[1] < 0x80
    || (1 <= data[1] - 0x80 <= 4 && ValueStart(data) <= |data| && data[2] != 0 && ToInt(data[2..ValueStart(data)]) >= 0x80)
  }

  function AnnouncedLength(data: Bytes): nat
    requires |data| >= 2 && ShortestLength(data)
  {
    if data[1] < 0x80 then data[1] else ToInt(data[2..ValueStart(data)])
  }

  /** The tag, a length in shortest form, and as many bytes as it announces. */
  predicate Framed(data: Bytes, tag: byte) {
    |data| >= 2 && data[0] == tag && ShortestLength(data) && ValueStart(data) + AnnouncedLength(data) <= |data|
  }

  function Content(data: Bytes, tag: byte): Bytes
    requires Framed(data, tag)
  {
    data[ValueStart(data)..ValueStart(data) + AnnouncedLength(data)]
  }

  function Remainder(data: Bytes, tag: byte): Bytes
    requires Framed(data, tag)
  {
    data[ValueStart(data) + AnnouncedLength(data)..]
  }

  /** A non-negative integer without a superfluous leading zero. */
  predicate MinimalInteger(body: Bytes) {
    body != [] && body[0] < 0x80 && (|body| > 1 && body[0] == 0 ==> body[1] >= 0x80)
  }

  /** What section 10 of ITU-T X.690 asks of the sequence of two integers, on the bytes alone. */
  predicate Strict(data: Bytes) {
    && Framed(data, 0x30) && Remainder(data, 0x30) == []
    && var body := Content(data, 0x30);
    && Framed(body, 0x02) && MinimalInteger(Content(body, 0x02))
    && var second := Remainder(body, 0x02);
    && Framed(second, 0x02) && MinimalInteger(Content(second, 0x02)) && Remainder(second, 0x02) == []
  }

  lemma {:induction false} DropFirst(s: Bytes)
    requires s != []
    ensures ToInt(s) == s[0] * Pow(256, |s| - 1) + ToInt(s[1..])
  {
    assert s == [s[0]] + s[1..];
    ToIntConcat([s[0]], s[1..]);
    OneByte(s[0]);
  }

  /** The minimal bytes of a number start with a nonzero byte, and are the only bytes of it that do. */
  lemma MinimalIff(s: Bytes)
    requires s != [] && (s[0] != 0 || |s| == 1)
    ensures Minimal(ToInt(s)) == s
  {
    var n := ToInt(s);
    DropFirst(s);
    ByteLengthBounds(n);
    ByteLengthOfZero();
    PowPositive(256, |s| - 1);
    if s[0] != 0 {
      AtLeastOne(s[0], Pow(256, |s| - 1));
      SameLength(n, |s|);
    } else {
      hide Pow, ByteLength;
    }
    ToIntInjective(Minimal(n), s);
  }

  lemma AtLeastOne(a: int, p: int)
    requires a >= 1 && p > 0
    ensures a * p >= p
  {
    MulMonotone(p, 1, a);
  }

  lemma SameLength(n: nat, k: nat)
    requires k > 0 && Pow(256, k - 1) <= n < Pow(256, k)
    ensures n > 0 && ByteLength(n) == k
  {
    PowPositive(256, k - 1);
    ByteLengthBounds(n);
    if ByteLength(n) < k {
      PowMonotone(256, ByteLength(n), k - 1);
    }
    if ByteLength(n) > k {
      PowMonotone(256, k, ByteLength(n) - 1);
    }
  }

  lemma MinimalStarts(n: nat)
    requires n > 0
    ensures Minimal(n)[0] != 0
  {
    var s := Minimal(n);
    ByteLengthBounds(n);
    DropFirst(s);
  }

  lemma ZeroByte()
    ensures Minimal(0) == [0]
  {
    OneByte(0);
    MinimalIff([0]);
  }

  lemma IntegerBodyIsMinimal(n: nat)
    ensures MinimalInteger(IntegerBody(n))
  {
    hide ToInt, Minimal;
    if n == 0 {
      ZeroByte();
    } else {
      MinimalStarts(n);
    }
  }

  lemma MinimalIsIntegerBody(body: Bytes)
    requires MinimalInteger(body)
    ensures IntegerBody(ToInt(body)) == body
  {
    hide ToInt, Minimal;
    if body[0] != 0 || |body| == 1 {
      MinimalIff(body);
    } else {
      assert body == [0] + body[1..];
      LeadingZero(body[1..]);
      MinimalIff(body[1..]);
    }
  }

  /** A framed value is the encoding of its content, and is read as such. */
  lemma FramedIsTlv(data: Bytes, tag: byte)
    requires Framed(data, tag)
    ensures Tlv(tag, Content(data, tag)).Some?
    ensures data == Tlv(tag, Content(data, tag)).value + Remainder(data, tag)
    ensures ReadTlv(data, tag) == Some((Content(data, tag), Remainder(data, tag)))
  {
    hide ToInt, Minimal;
    var start, n := ValueStart(data), AnnouncedLength(data);
    assert data == [data[0]] + data[1..start] + data[start..start + n] + data[start + n..];
    if data[1] < 0x80 {
      assert data[1..start] == [data[1]];
    } else {
      MinimalIff(data[2..start]);
      assert data[1..start] == [data[1]] + data[2..start];
    }
  }

  /** The encoding of a value is framed. */
  lemma TlvIsFramed(tag: byte, value: Bytes, suffix: Bytes)
    requires |value| < LENGTH_LIMIT
    ensures Tlv(tag, value).Some?
    ensures var data := Tlv(tag, value).value + suffix;
      Framed(data, tag) && Content(data, tag) == value && Remainder(data, tag) == suffix
  {
    hide ToInt, Minimal, ByteLength;
    var n := |value|;
    LengthWidth(n);
    var length := DerLength(n).value;
    var data := Tlv(tag, value).value + suffix;
    assert data == [tag] + (length + (value + suffix));
    var offset := 1 + |length|;
    assert data[offset..offset + n] == value && data[offset + n..] == suffix;
    if n >= 0x80 {
      var body := Minimal(n);
      MinimalStarts(n);
      assert data[2..2 + |body|] == body;
      assert data[2] == data[2..2 + |body|][0];
    }
  }

  /** A length of 2^32 or more takes more than four bytes, which the reader refuses. */
  lemma TooLongIsRefused(tag: byte, value: Bytes, suffix: Bytes)
    requires |value| >= LENGTH_LIMIT && Tlv(tag, value).Some?
    ensures ReadTlv(Tlv(tag, value).value + suffix, tag) == None
  {
    hide ToInt, Minimal;
    var n := |value|;
    ByteLengthBounds(n);
    assert Pow(256, 4) == LENGTH_LIMIT by {
      assert Pow(256, 1) == 256 && Pow(256, 2) == 256 * Pow(256, 1) && Pow(256, 3) == 256 * Pow(256, 2);
    }
    if ByteLength(n) <= 4 {
      PowMonotone(256, ByteLength(n), 4);
    }
    var length := DerLength(n).value;
    var data := Tlv(tag, value).value + suffix;
    assert data == [tag] + (length + (value + suffix));
    assert data[1] == length[0] == 0x80 + |Minimal(n)|;
  }

  /** A string that decodes to a pair is its encoding exactly when it is strict. */
  lemma StrictIff(data: Bytes, sig: Signature)
    requires FromDer(data) == Some(sig)
    ensures ToDer(sig) == Some(data) <==> Strict(data)
  {
    if Strict(data) {
      StrictIsEncoding(data, sig);
    }
    if ToDer(sig) == Some(data) {
      EncodingIsStrict(data, sig);
    }
  }

  /** The bytes of the two integers of a strict string. */
  function FirstInteger(data: Bytes): Bytes
    requires Strict(data)
  {
    Content(Content(data, 0x30), 0x02)
  }

  function SecondInteger(data: Bytes): Bytes
    requires Strict(data)
  {
    Content(Remainder(Content(data, 0x30), 0x02), 0x02)
  }

  /** A strict string decodes to the numbers its two integers stand for, r first, and is what they encode to. */
  lemma StrictDecodes(data: Bytes)
    requires Strict(data)
    ensures var sig := Signature(ToInt(FirstInteger(data)), ToInt(SecondInteger(data)));
      FromDer(data) == Some(sig) && ToDer(sig) == Some(data)
  {
    var body := Content(data, 0x30);
    var second := Remainder(body, 0x02);
    FramedIsTlv(data, 0x30);
    FramedIsTlv(body, 0x02);
    FramedIsTlv(second, 0x02);
    EnoughBytes(data, 0x30);
    EnoughBytes(body, 0x02);
    EnoughBytes(second, 0x02);
    hide ReadTlv, ToDer, ToInt, Framed, Content, Remainder, MinimalInteger;
    StrictIff(data, Signature(ToInt(FirstInteger(data)), ToInt(SecondInteger(data))));
  }

  lemma EnoughBytes(data: Bytes, tag: byte)
    requires Framed(data, tag)
    ensures |data| >= 2 + |Content(data, tag)| + |Remainder(data, tag)|
  {
  }

  lemma StrictIsEncoding(data: Bytes, sig: Signature)
    requires FromDer(data) == Some(sig) && Strict(data)
    ensures ToDer(sig) == Some(data)
  {
    hide Tlv, ReadTlv, ToInt, Framed, Content, Remainder, MinimalInteger, IntegerBody;
    FramedIsTlv(data, 0x30);
    var body := Content(data, 0x30);
    FramedIsTlv(body, 0x02);
    var second := Remainder(body, 0x02);
    FramedIsTlv(second, 0x02);
    MinimalIsIntegerBody(Content(body, 0x02));
    MinimalIsIntegerBody(Content(second, 0x02));
    var r, s := Tlv(0x02, Content(body, 0x02)).value, Tlv(0x02, Content(second, 0x02)).value;
    assert s + [] == s && Tlv(0x30, r + s).value + [] == Tlv(0x30, r + s).value;
  }

  lemma EncodingIsStrict(data: Bytes, sig: Signature)
    requires FromDer(data) == Some(sig) && ToDer(sig) == Some(data)
    ensures Strict(data)
  {
    hide Tlv, ReadTlv, ToInt, Framed, Content, Remainder, MinimalInteger, IntegerBody;
    var rBody, sBody := IntegerBody(sig.r), IntegerBody(sig.s);
    var r, s := Tlv(0x02, rBody).value, Tlv(0x02, sBody).value;
    assert data + [] == data && s + [] == s;
    if |r + s| >= LENGTH_LIMIT {
      TooLongIsRefused(0x30, r + s, []);
    }
    LongerThanValue(0x02, rBody);
    LongerThanValue(0x02, sBody);
    TlvIsFramed(0x30, r + s, []);
    TlvIsFramed(0x02, rBody, s);
    TlvIsFramed(0x02, sBody, []);
    IntegerBodyIsMinimal(sig.r);
    IntegerBodyIsMinimal(sig.s);
  }

  lemma LongerThanValue(tag: byte, value: Bytes)
    requires Tlv(tag, value).Some?
    ensures |Tlv(tag, value).value| > |value|
  {
  }

  lemma ReadShort(tag: byte, n: byte, value: Bytes, rest: Bytes)
    requires n < 0x80 && (n == |value| || (n > |value| && rest == []))
    ensures ReadTlv([tag, n] + (value + rest), tag) == Some((value, rest))
  {
    var data := [tag, n] + (value + rest);
    assert data[2..2 + |value|] == value && data[2 + |value|..] == rest;
  }

  lemma ReadLong(tag: byte, n: byte, value: Bytes)
    requires n == |value|
    ensures ReadTlv([tag, 0x81, n] + value, tag) == Some((value, []))
  {
    var data := [tag, 0x81, n] + value;
    assert data[2..3] == [n] && data[3..3 + |value|] == value && data[3 + |value|..] == [];
    OneByte(n);
  }

  lemma ShortTlv(tag: byte, value: Bytes)
    requires |value| < 0x80
    ensures Tlv(tag, value) == Some([tag, |value|] + value)
  {
    assert [tag] + [|value|] == [tag, |value|];
  }

  const FIVE: Bytes := [0x02, 0x01, 0x05]
  const SEVEN: Bytes := [0x02, 0x01, 0x07]

  // The encoding of the pair (5, 7).
  lemma FiveAndSeven()
    ensures ToDer(Signature(5, 7)) == Some([0x30, 0x06] + (FIVE + SEVEN))
    ensures ReadTlv(FIVE + SEVEN, 0x02) == Some(([0x05], SEVEN)) && ReadTlv(SEVEN, 0x02) == Some(([0x07], []))
  {
    hide ReadTlv, IntegerBody;
    OneByte(5);
    OneByte(7);
    MinimalIsIntegerBody([0x05]);
    MinimalIsIntegerBody([0x07]);
    ReadShort(0x02, 0x01, [0x05], SEVEN);
    ReadShort(0x02, 0x01, [0x07], []);
    assert [0x02, 0x01] + ([0x05] + SEVEN) == FIVE + SEVEN;
    assert [0x02, 0x01] + ([0x07] + []) == SEVEN;
    ShortTlv(0x02, [0x05]);
    ShortTlv(0x02, [0x07]);
    ShortTlv(0x30, FIVE + SEVEN);
    assert [0x02, 0x01] + [0x05] == FIVE && [0x02, 0x01] + [0x07] == SEVEN;
  }

  /** Decoding is not strict: an integer whose announced length runs past the end is taken as it is. */
  lemma TruncationIsAccepted()
    ensures FromDer([0x30, 0x06] + (FIVE + [0x02, 0x7F, 0x07])) == Some(Signature(5, 7))
    ensures !Strict([0x30, 0x06] + (FIVE + [0x02, 0x7F, 0x07]))
  {
    hide ReadTlv, Strict, ToDer, ToInt;
    var second: Bytes := [0x02, 0x7F, 0x07];
    var body := FIVE + second;
    var data := [0x30, 0x06] + body;
    OneByte(5);
    OneByte(7);
    FiveAndSeven();
    ReadShort(0x30, 0x06, body, []);
    ReadShort(0x02, 0x01, [0x05], second);
    ReadShort(0x02, 0x7F, [0x07], []);
    assert [0x30, 0x06] + (body + []) == data && [0x02, 0x01] + ([0x05] + second) == body;
    assert [0x02, 0x7F] + ([0x07] + []) == second;
    assert data[6] == 0x7F && ([0x30, 0x06] + (FIVE + SEVEN))[6] == 0x01;
    StrictIff(data, Signature(5, 7));
  }

  /** Nor is a length in long form refused where the short one would do. */
  lemma LongLengthIsAccepted()
    ensures FromDer([0x30, 0x81, 0x06] + (FIVE + SEVEN)) == Some(Signature(5, 7))
    ensures !Strict([0x30, 0x81, 0x06] + (FIVE + SEVEN))
  {
    hide ReadTlv, Strict, ToDer, ToInt;
    var data := [0x30, 0x81, 0x06] + (FIVE + SEVEN);
    OneByte(5);
    OneByte(7);
    FiveAndSeven();
    ReadLong(0x30, 0x06, FIVE + SEVEN);
    assert data[1] == 0x81 && ([0x30, 0x06] + (FIVE + SEVEN))[1] == 0x06;
    StrictIff(data, Signature(5, 7));
  }

  lemma OneByte(b: byte)
    ensures ToInt([b]) == b
  {
    assert [b][..0] == [];
  }
}
