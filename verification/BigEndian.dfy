/** Bytes and their big-endian integer values (authlab/util/encoding.py). */
module BigEndian {
  import opened NumberTheory
  import opened Wrappers

  type byte = x: int | 0 <= x < 256

  /** bytes_to_int: OS2IP of RFC 8017, section 4.2. */
  function ToInt(s: seq<byte>): (r: nat)
    ensures r < Pow(256, |s|)
  {
    if s == [] then 0
    else 256 * ToInt(s[..|s| - 1]) + s[|s| - 1]
  }

  /** int_to_bytes with an explicit length: I2OSP of RFC 8017, section 4.1. None is the overflow error. */
  function ToBytes(value: nat, length: nat): (r: Option<seq<byte>>)
    ensures r.Some? <==> value < Pow(256, length)
    ensures r.Some? ==> |r.value| == length && ToInt(r.value) == value
    decreases length
  {
    if length == 0 then
      if value == 0 then Some([]) else None
    else
      match ToBytes(value / 256, length - 1)
      case None => None
      case Some(front) =>
        var r := front + [value % 256];
        assert r[..|r| - 1] == front;
        Some(r)
  }

  /** Fixed-width encodings are unique. */
  lemma {:induction false} ToIntInjective(s: seq<byte>, t: seq<byte>)
    requires |s| == |t| && ToInt(s) == ToInt(t)
    ensures s == t
  {
    if s == [] {
    } else {
      var n := |s| - 1;
      ToIntInjective(s[..n], t[..n]);
      assert s == s[..n] + [s[n]] && t == t[..n] + [t[n]];
    }
  }

  lemma ToBytesToInt(s: seq<byte>)
    ensures ToBytes(ToInt(s), |s|) == Some(s)
  {
    ToIntInjective(s, ToBytes(ToInt(s), |s|).value);
  }

  lemma {:induction false} ToIntConcat(s: seq<byte>, t: seq<byte>)
    ensures ToInt(s + t) == ToInt(s) * Pow(256, |t|) + ToInt(t)
  {
    if t == [] {
      assert s + t == s && Pow(256, 0) == 1;
    } else {
      var n := |t| - 1;
      ToIntConcat(s, t[..n]);
      assert (s + t)[..|s + t| - 1] == s + t[..n];
      assert Pow(256, |t|) == 256 * Pow(256, n);
      hide Pow;
      ShiftOver(ToInt(s), Pow(256, n));
    }
  }

  lemma ShiftOver(a: int, p: int)
    ensures a * (256 * p) == 256 * (a * p)
  {
  }

  /** int.bit_length of a nonnegative integer. */
  function BitLength(n: nat): nat {
    if n == 0 then 0 else 1 + BitLength(n / 2)
  }

  lemma {:induction false} BitLengthBounds(n: nat)
    ensures n < Pow(2, BitLength(n))
    ensures n > 0 ==> BitLength(n) > 0 && Pow(2, BitLength(n) - 1) <= n
  {
    if n == 0 {
    } else {
      BitLengthBounds(n / 2);
    }
  }

  lemma {:induction false} BitLengthUnique(n: nat, b: nat)
    requires Pow(2, b) <= n < Pow(2, b + 1)
    ensures BitLength(n) == b + 1
  {
    if b == 0 {
      assert Pow(2, 1) == 2 * Pow(2, 0) == 2;
      assert n == 1;
      assert BitLength(1) == 1 + BitLength(0);
    } else {
      PowPositive(2, b);
      BitLengthUnique(n / 2, b - 1);
    }
  }

  lemma {:induction false} PowOf256(k: nat)
    ensures Pow(256, k) == Pow(2, 8 * k)
  {
    if k == 0 {
    } else {
      PowOf256(k - 1);
      PowAdd(2, 8, 8 * (k - 1));
      assert Pow(2, 8) == 256 by {
        assert Pow(2, 4) == 16;
        PowAdd(2, 4, 4);
      }
    }
  }

  /** key_size_bytes: the number of bytes that hold n. */
  function ByteLength(n: nat): nat {
    (BitLength(n) + 7) / 8
  }

  lemma ByteLengthBounds(n: nat)
    ensures n < Pow(256, ByteLength(n))
    ensures n > 0 ==> ByteLength(n) > 0 && Pow(256, ByteLength(n) - 1) <= n
  {
    BitLengthBounds(n);
    var k := ByteLength(n);
    PowOf256(k);
    PowMonotone(2, BitLength(n), 8 * k);
    if n > 0 {
      PowOf256(k - 1);
      PowMonotone(2, 8 * (k - 1), BitLength(n) - 1);
    }
  }
}
