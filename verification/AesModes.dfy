/** PKCS#7 padding, CBC mode and encrypt-then-MAC over the AES block functions (authlab/crypto/aes.py). */
module AesModes {
  import opened GaloisField
  import opened Aes

  type Bytes = seq<bv8>

  // ----- PKCS#7, section 6.3 of RFC 5652 -----

  function Fill(b: bv8, n: nat): (s: Bytes)
    ensures |s| == n
  {
    seq(n, i => b)
  }

  /** pkcs7_pad with the block size 16 that CBC uses. */
  function Pad(data: Bytes): (r: Bytes)
    ensures |r| % 16 == 0 && |r| > |data|
  {
    var pad := 16 - |data| % 16;
    data + Fill(pad as bv8, pad)
  }

  /** pkcs7_unpad. */
  function Unpad(data: Bytes): Result<Bytes> {
    if data == [] || |data| % 16 != 0 then Err(BadPadding)
    else
      var pad := data[|data| - 1] as int;
      if pad == 0 || pad > 16 || data[|data| - pad..] != Fill(data[|data| - 1], pad) then Err(BadPadding)
      else Ok(data[..|data| - pad])
  }

  lemma ByteOfInt(n: nat)
    requires n <= 16
    ensures (n as bv8) as int == n
  {
  }

  lemma IntOfByte(b: bv8)
    ensures 0 <= b as int < 256 && (b as int) as bv8 == b
  {
  }

  lemma UnpadPadded(data: Bytes)
    ensures Unpad(Pad(data)) == Ok(data)
  {
    var pad := 16 - |data| % 16;
    ByteOfInt(pad);
    var r := Pad(data);
    assert r[|r| - 1] == pad as bv8;
    assert r[|r| - pad..] == Fill(pad as bv8, pad);
    assert r[..|r| - pad] == data;
  }

  /** The padding check is complete: exactly the padded strings are accepted, each giving back its source. */
  lemma UnpadIff(padded: Bytes, data: Bytes)
    ensures Unpad(padded) == Ok(data) <==> padded == Pad(data)
  {
    UnpadPadded(data);
    hide Fill;
    if Unpad(padded) == Ok(data) {
      var last := padded[|padded| - 1];
      IntOfByte(last);
      PadLength(|padded|, last as int);
      assert padded == padded[..|data|] + padded[|data|..];
    }
  }

  lemma PadLength(n: nat, pad: nat)
    requires n % 16 == 0 && 1 <= pad <= 16 && n >= pad
    ensures 16 - (n - pad) % 16 == pad
  {
  }

  // ----- CBC, section 6.2 of NIST SP 800-38A -----

  /** The ciphertext blocks of a padded message. */
  function Chain(sch: Schedule, padded: Bytes, previous: Block): (r: Bytes)
    requires |padded| % 16 == 0
    ensures |r| == |padded|
    decreases |padded|
  {
    if padded == [] then []
    else
      var c := Encrypt(sch, XorBlock(padded[..16], previous));
      c + Chain(sch, padded[16..], c)
  }

  /** The padded message behind the ciphertext blocks. */
  function Unchain(sch: Schedule, body: Bytes, previous: Block): (r: Bytes)
    requires |body| % 16 == 0
    ensures |r| == |body|
    decreases |body|
  {
    if body == [] then []
    else XorBlock(Decrypt(sch, body[..16]), previous) + Unchain(sch, body[16..], body[..16])
  }

  lemma {:induction false} UnchainChain(sch: Schedule, padded: Bytes, previous: Block)
    requires |padded| % 16 == 0
    ensures Unchain(sch, Chain(sch, padded, previous), previous) == padded
    decreases |padded|
  {
    hide Encrypt, Decrypt, XorBlock;
    if padded == [] {
    } else {
      var x := XorBlock(padded[..16], previous);
      var c := Encrypt(sch, x);
      var body := Chain(sch, padded, previous);
      assert body[..16] == c && body[16..] == Chain(sch, padded[16..], c);
      UnchainChain(sch, padded[16..], c);
      BlockCipherInverts(sch, x);
      XorBlockUndone(padded[..16], previous);
      assert padded == padded[..16] + padded[16..];
    }
  }

  lemma {:induction false} ChainUnchain(sch: Schedule, body: Bytes, previous: Block)
    requires |body| % 16 == 0
    ensures Chain(sch, Unchain(sch, body, previous), previous) == body
    decreases |body|
  {
    hide Encrypt, Decrypt, XorBlock;
    if body == [] {
    } else {
      var c: Block := body[..16];
      var x := XorBlock(Decrypt(sch, c), previous);
      var padded := Unchain(sch, body, previous);
      assert padded[..16] == x && padded[16..] == Unchain(sch, body[16..], c);
      BlockCipherInverts(sch, c);
      XorBlockUndone(Decrypt(sch, c), previous);
      ChainUnchain(sch, body[16..], c);
      assert body == body[..16] + body[16..];
    }
  }

  /** cbc_encrypt with the IV it was given or drew. */
  function CbcEncrypt(key: Bytes, plaintext: Bytes, iv: Bytes): Result<Bytes> {
    if |iv| != 16 then Err(BadIvLength)
    else
      match CipherFor(key)
      case Err(e) => Err(e)
      case Ok(sch) => Ok(iv + Chain(sch, Pad(plaintext), iv))
  }

  /** cbc_decrypt. */
  function CbcDecrypt(key: Bytes, data: Bytes): Result<Bytes> {
    if |data| < 32 || (|data| - 16) % 16 != 0 then Err(BadCiphertextLength)
    else
      match CipherFor(key)
      case Err(e) => Err(e)
      case Ok(sch) => Unpad(Unchain(sch, data[16..], data[..16]))
  }

  /** Decryption accepts data and returns m exactly when data is an encryption of m under its own IV. */
  lemma CbcDecryptIff(key: Bytes, data: Bytes, m: Bytes)
    ensures CbcDecrypt(key, data) == Ok(m) <==> |data| >= 16 && CbcEncrypt(key, m, data[..16]) == Ok(data)
  {
    hide CipherFor, Pad, Unpad;
    if CipherFor(key).Ok? && |data| >= 16 {
      var sch, iv := CipherFor(key).value, data[..16];
      if CbcEncrypt(key, m, iv) == Ok(data) {
        UnchainChain(sch, Pad(m), iv);
        UnpadIff(Pad(m), m);
        assert data[16..] == Chain(sch, Pad(m), iv);
      }
      if CbcDecrypt(key, data) == Ok(m) {
        var padded := Unchain(sch, data[16..], iv);
        UnpadIff(padded, m);
        ChainUnchain(sch, data[16..], iv);
        assert data == iv + data[16..];
      }
    }
  }

  /** Every message survives encryption and decryption, for every key size. */
  lemma CbcRoundTrip(key: Bytes, plaintext: Bytes, iv: Bytes)
    requires |iv| == 16 && (|key| == 16 || |key| == 24 || |key| == 32)
    ensures CbcEncrypt(key, plaintext, iv).Ok?
    ensures CbcDecrypt(key, CbcEncrypt(key, plaintext, iv).value) == Ok(plaintext)
  {
    assert CipherFor(key).Ok?;
    hide CipherFor, Pad;
    var data := CbcEncrypt(key, plaintext, iv).value;
    assert data[..16] == iv;
    CbcDecryptIff(key, data, plaintext);
  }

  // ----- What the strings hold -----

  /** Padding adds between one and sixteen bytes, each of them their number. */
  lemma PadMeans(data: Bytes)
    ensures var n := |Pad(data)| - |data|;
      && 1 <= n <= 16 && |Pad(data)| % 16 == 0 && Pad(data)[..|data|] == data
      && forall i :: |data| <= i < |data| + n ==> Pad(data)[i] as int == n
  {
    ByteOfInt(16 - |data| % 16);
  }

  function BlockOf(s: Bytes, i: nat): Block
    requires 16 * i + 16 <= |s|
  {
    s[16 * i..16 * i + 16]
  }

  lemma LaterBlock(s: Bytes, i: nat)
    requires 16 * (i + 1) + 16 <= |s|
    ensures BlockOf(s[16..], i) == BlockOf(s, i + 1)
  {
  }

  /** Each cipher block enciphers the sum of its clear block and the cipher block before it, the first one of the IV. */
  lemma {:induction false} ChainMeans(sch: Schedule, padded: Bytes, previous: Block, i: nat)
    requires |padded| % 16 == 0 && 16 * i + 16 <= |padded|
    ensures var c := Chain(sch, padded, previous);
      Enciphers(sch, XorBlock(BlockOf(padded, i), if i == 0 then previous else BlockOf(c, i - 1)), BlockOf(c, i))
    decreases |padded|
  {
    hide Encrypt, XorBlock, Enciphers;
    var c := Chain(sch, padded, previous);
    var first: Block := Encrypt(sch, XorBlock(padded[..16], previous));
    assert c[..16] == first && c[16..] == Chain(sch, padded[16..], first);
    if i == 0 {
      EncryptEnciphers(sch, XorBlock(padded[..16], previous));
    } else {
      ChainMeans(sch, padded[16..], first, i - 1);
      LaterBlock(padded, i - 1);
      LaterBlock(c, i - 1);
      if i > 1 {
        LaterBlock(c, i - 2);
      }
    }
  }

  /** cbc_encrypt: the IV, then the chained blocks of the padded message under the cipher of the key. */
  lemma CbcMeans(key: Bytes, plaintext: Bytes, iv: Bytes)
    requires CbcEncrypt(key, plaintext, iv).Ok?
    ensures |iv| == 16 && CipherFor(key).Ok? && IsCipherOf(CipherFor(key).value, key)
    ensures CbcEncrypt(key, plaintext, iv).value == iv + Chain(CipherFor(key).value, Pad(plaintext), iv)
  {
    CipherIsCipher(key);
  }

  // ----- Encrypt-then-MAC -----

  /** HMAC-SHA-256: only its output length matters. */
  type Mac = f: (Bytes, Bytes) -> Bytes | forall k, d :: |f(k, d)| == 32 ghost witness (k, d) => seq(32, i => 0)

  function EncryptThenMac(mac: Mac, encKey: Bytes, macKey: Bytes, plaintext: Bytes, iv: Bytes): Result<Bytes> {
    match CbcEncrypt(encKey, plaintext, iv)
    case Err(e) => Err(e)
    case Ok(ciphertext) => Ok(ciphertext + mac(macKey, ciphertext))
  }

  /** What is sealed ends in the MAC of everything before it, IV and cipher blocks. */
  lemma SealedMeans(mac: Mac, encKey: Bytes, macKey: Bytes, plaintext: Bytes, iv: Bytes)
    requires EncryptThenMac(mac, encKey, macKey, plaintext, iv).Ok?
    ensures var data := EncryptThenMac(mac, encKey, macKey, plaintext, iv).value;
      && |data| >= 32 && data[|data| - 32..] == mac(macKey, data[..|data| - 32])
      && CbcEncrypt(encKey, plaintext, iv) == Ok(data[..|data| - 32])
  {
    hide CbcEncrypt;
    var data := EncryptThenMac(mac, encKey, macKey, plaintext, iv).value;
    var ciphertext := CbcEncrypt(encKey, plaintext, iv).value;
    assert data[..|data| - 32] == ciphertext;
  }

  function VerifyThenDecrypt(mac: Mac, encKey: Bytes, macKey: Bytes, data: Bytes): Result<Bytes> {
    if |data| < 32 + 16 + 16 then Err(TooShort)
    else
      var ciphertext, tag := data[..|data| - 32], data[|data| - 32..];
      if mac(macKey, ciphertext) != tag then Err(BadTag)
      else CbcDecrypt(encKey, ciphertext)
  }

  /** Verification accepts exactly what encrypt_then_mac produces under the IV in front of the data. */
  lemma VerifyThenDecryptIff(mac: Mac, encKey: Bytes, macKey: Bytes, data: Bytes, m: Bytes)
    ensures VerifyThenDecrypt(mac, encKey, macKey, data) == Ok(m)
      <==> |data| >= 16 && EncryptThenMac(mac, encKey, macKey, m, data[..16]) == Ok(data)
  {
    hide CbcDecrypt;
    if |data| >= 64 {
      var ciphertext := data[..|data| - 32];
      assert data == ciphertext + data[|data| - 32..];
      assert ciphertext[..16] == data[..16];
      CbcDecryptIff(encKey, ciphertext, m);
      if EncryptThenMac(mac, encKey, macKey, m, data[..16]) == Ok(data) {
        assert ciphertext == CbcEncrypt(encKey, m, data[..16]).value;
      }
    }
  }

  /** Authenticated encryption round trip; the ciphertext is never looked at before its tag. */
  lemma EncryptThenMacRoundTrip(mac: Mac, encKey: Bytes, macKey: Bytes, plaintext: Bytes, iv: Bytes)
    requires |iv| == 16 && (|encKey| == 16 || |encKey| == 24 || |encKey| == 32)
    ensures EncryptThenMac(mac, encKey, macKey, plaintext, iv).Ok?
    ensures VerifyThenDecrypt(mac, encKey, macKey, EncryptThenMac(mac, encKey, macKey, plaintext, iv).value) == Ok(plaintext)
  {
    hide CbcEncrypt, VerifyThenDecrypt, CbcDecrypt, CipherFor;
    CbcRoundTrip(encKey, plaintext, iv);
    PrefixIsIv(encKey, plaintext, iv);
    var ciphertext := CbcEncrypt(encKey, plaintext, iv).value;
    var tag := mac(macKey, ciphertext);
    assert EncryptThenMac(mac, encKey, macKey, plaintext, iv) == Ok(ciphertext + tag);
    assert (ciphertext + tag)[..16] == ciphertext[..16];
    VerifyThenDecryptIff(mac, encKey, macKey, ciphertext + tag, plaintext);
  }

  lemma PrefixIsIv(key: Bytes, plaintext: Bytes, iv: Bytes)
    requires CbcEncrypt(key, plaintext, iv).Ok?
    ensures |iv| == 16 && |CbcEncrypt(key, plaintext, iv).value| >= 32 && CbcEncrypt(key, plaintext, iv).value[..16] == iv
  {
  }

  // ----- The loops -----

  lemma ChainStep(sch: Schedule, padded: Bytes, offset: nat, previous: Block, out: Bytes)
    requires |padded| % 16 == 0 && offset % 16 == 0 && offset < |padded|
    ensures offset + 16 <= |padded|
    ensures var c := Encrypt(sch, XorBlock(padded[offset..offset + 16], previous));
      out + Chain(sch, padded[offset..], previous) == (out + c) + Chain(sch, padded[offset + 16..], c)
  {
    hide Encrypt, XorBlock;
    assert padded[offset..][..16] == padded[offset..offset + 16];
    assert padded[offset..][16..] == padded[offset + 16..];
  }

  lemma UnchainStep(sch: Schedule, body: Bytes, offset: nat, previous: Block, out: Bytes)
    requires |body| % 16 == 0 && offset % 16 == 0 && offset < |body|
    ensures offset + 16 <= |body|
    ensures var c := body[offset..offset + 16];
      out + Unchain(sch, body[offset..], previous)
        == (out + XorBlock(Decrypt(sch, c), previous)) + Unchain(sch, body[offset + 16..], c)
  {
    hide Decrypt, XorBlock;
    assert body[offset..][..16] == body[offset..offset + 16];
    assert body[offset..][16..] == body[offset + 16..];
  }

  method ChainLoop(sch: Schedule, padded: Bytes, iv: Block) returns (out: Bytes)
    requires |padded| % 16 == 0
    ensures out == Chain(sch, padded, iv)
  {
    hide Chain, Encrypt, XorBlock;
    var previous: Block, offset := iv, 0;
    out := [];
    assert padded[0..] == padded && out + Chain(sch, padded, iv) == Chain(sch, padded, iv);
    while offset < |padded|
      invariant offset <= |padded| && offset % 16 == 0
      invariant out + Chain(sch, padded[offset..], previous) == Chain(sch, padded, iv)
      decreases |padded| - offset
    {
      ChainStep(sch, padded, offset, previous, out);
      var block := EncryptBlock(sch, XorBlock(padded[offset..offset + 16], previous));
      previous := block.value;
      out := out + previous;
      offset := offset + 16;
    }
    assert |Chain(sch, padded[offset..], previous)| == 0;
  }

  method UnchainLoop(sch: Schedule, body: Bytes, iv: Block) returns (out: Bytes)
    requires |body| % 16 == 0 && sch.rounds > 0
    ensures out == Unchain(sch, body, iv)
  {
    hide Unchain, Decrypt, XorBlock;
    var previous: Block, offset := iv, 0;
    out := [];
    assert body[0..] == body && out + Unchain(sch, body, iv) == Unchain(sch, body, iv);
    while offset < |body|
      invariant offset <= |body| && offset % 16 == 0
      invariant out + Unchain(sch, body[offset..], previous) == Unchain(sch, body, iv)
      decreases |body| - offset
    {
      UnchainStep(sch, body, offset, previous, out);
      var decrypted := DecryptBlock(sch, body[offset..offset + 16]);
      out := out + XorBlock(decrypted.value, previous);
      previous := body[offset..offset + 16];
      offset := offset + 16;
    }
    assert |Unchain(sch, body[offset..], previous)| == 0;
  }

  /** cbc_encrypt with its loop. */
  method CbcEncryptLoop(key: Bytes, plaintext: Bytes, iv: Bytes) returns (r: Result<Bytes>)
    ensures r == CbcEncrypt(key, plaintext, iv)
  {
    if |iv| != 16 {
      return Err(BadIvLength);
    }
    var cipher := NewCipher(key);
    if cipher.Err? {
      return Err(cipher.error);
    }
    hide CipherFor, Chain, Pad;
    var out := ChainLoop(cipher.value, Pad(plaintext), iv);
    return Ok(iv + out);
  }

  /** cbc_decrypt with its loop. */
  method CbcDecryptLoop(key: Bytes, data: Bytes) returns (r: Result<Bytes>)
    ensures r == CbcDecrypt(key, data)
  {
    if |data| < 32 || (|data| - 16) % 16 != 0 {
      return Err(BadCiphertextLength);
    }
    var cipher := NewCipher(key);
    if cipher.Err? {
      return Err(cipher.error);
    }
    assert cipher.value.rounds > 0;
    hide CipherFor, Unchain, Unpad;
    var out := UnchainLoop(cipher.value, data[16..], data[..16]);
    return Unpad(out);
  }
}
