/** The canonical form as RFC 8949 describes it, and that the encoder writes it (authlab/crypto/cbor.py). */
module CborFormat {
  import opened BigEndian
  import opened Lexicographic
  import opened CborScalars
  import opened Cbor

  /** Section 3 of RFC 8949, with the shortest argument of section 4.2.1. */
  ghost predicate IsHead(s: Bytes, major: nat, value: nat) {
    && s != [] && s[0] / 32 == major
    && if value < 24 then |s| == 1 && s[0] % 32 == value
       else
         && ToInt(s[1..]) == value
         && if value < 0x100 then |s| == 2 && s[0] % 32 == 24
            else if value < 0x1_0000 then |s| == 3 && s[0] % 32 == 25
            else if value < 0x1_0000_0000 then |s| == 5 && s[0] % 32 == 26
            else |s| == 9 && s[0] % 32 == 27
  }

  /** Shorter first; of one length, the smaller byte at the first difference. */
  ghost predicate ComesBefore(a: Bytes, b: Bytes) {
    |a| < |b| || (|a| == |b| && exists k: nat :: DiffersAt(a, b, k))
  }

  /** Integers, strings, and the simple values 20, 21 and 22. */
  ghost predicate IsScalar(s: Bytes, k: Scalar) {
    match k
    case Bool(b) => IsHead(s, 7, if b then 21 else 20)
    case Null => IsHead(s, 7, 22)
    case Int(n) => if n < 0 then IsHead(s, 1, -1 - n) else IsHead(s, 0, n)
    case Blob(bytes) => IsString(s, 2, bytes)
    case Text(utf8) => IsString(s, 3, utf8)
  }

  ghost predicate IsString(s: Bytes, major: nat, content: Bytes) {
    exists h :: IsHead(h, major, |content|) && s == h + content
  }

  function Concat(parts: seq<Bytes>): Bytes {
    if parts == [] then [] else parts[0] + Concat(parts[1..])
  }

  /** An array is its length and its items; a map its length and its entries, the keys in canonical order. */
  ghost predicate IsEncoding(s: Bytes, v: Value)
    decreases v, 1
  {
    match v
    case Leaf(k) => IsScalar(s, k)
    case Array(items) =>
      exists h, parts: seq<Bytes> :: IsHead(h, 4, |items|) && s == h + Concat(parts) && AreItems(parts, items)
    case Map(entries) =>
      exists h, keys: seq<Scalar>, names: seq<Bytes>, parts: seq<Bytes> ::
        IsHead(h, 5, |entries|) && s == h + Concat(parts) && AreEntries(keys, names, parts, v)
  }

  ghost predicate AreItems(parts: seq<Bytes>, items: seq<Value>)
    decreases items
  {
    |parts| == |items| && forall i :: 0 <= i < |items| ==> IsEncoding(parts[i], items[i])
  }

  /** Every key once, and each name before the next one. */
  ghost predicate AreNames(keys: seq<Scalar>, names: seq<Bytes>, all: set<Scalar>) {
    && |keys| == |names| == |all|
    && (forall k :: k in all <==> k in keys)
    && (forall i :: 0 <= i < |keys| ==> IsScalar(names[i], keys[i]))
    && (forall i, j :: 0 <= i < j < |names| ==> ComesBefore(names[i], names[j]))
  }

  /** Each part is a name and the encoding of the value under its key. */
  ghost predicate AreEntries(keys: seq<Scalar>, names: seq<Bytes>, parts: seq<Bytes>, v: Value)
    decreases v, 0, 1
  {
    && v.Map? && AreNames(keys, names, v.entries.Keys) && |parts| == |names|
    && forall i :: 0 <= i < |parts| && i < |keys| && i < |names| ==> IsEntry(names[i], parts[i], v, keys[i])
  }

  ghost predicate IsEntry(name: Bytes, part: Bytes, v: Value, k: Scalar)
    decreases v, 0, 0
  {
    v.Map? && k in v.entries && exists value :: part == name + value && IsEncoding(value, v.entries[k])
  }

  // ----- The encoder writes this form -----

  lemma HeadIsHead(major: nat, value: nat)
    requires major < 8 && value < LIMIT
    ensures IsHead(Head(major, value), major, value)
  {
    Widths();
    var width := WidthFor(value);
    FirstByte(major, if width == 0 then value else InfoFor(width));
    if width > 0 {
      assert Head(major, value)[1..] == ToBytes(value, width).value;
    }
  }

  lemma ScalarIsScalar(k: Scalar)
    requires ScalarFits(k)
    ensures IsScalar(EncodeScalar(k), k)
  {
    match k
    case Int(n) => if n >= 0 { HeadIsHead(0, n); } else { HeadIsHead(1, -n - 1); }
    case Blob(bytes) => HeadIsHead(2, |bytes|);
    case Text(utf8) => HeadIsHead(3, |utf8|);
    case _ =>
  }

  lemma KeyLessIsBefore(a: Scalar, b: Scalar)
    requires ScalarFits(a) && ScalarFits(b)
    ensures KeyLess(a, b) <==> ComesBefore(EncodeScalar(a), EncodeScalar(b))
  {
    LexIff(EncodeScalar(a), EncodeScalar(b));
  }

  ghost function ItemParts(items: seq<Value>): (parts: seq<Bytes>)
    requires forall i :: 0 <= i < |items| ==> Supported(items[i])
    ensures |parts| == |items| && forall i :: 0 <= i < |items| ==> parts[i] == Encode(items[i])
  {
    seq(|items|, i requires 0 <= i < |items| => Encode(items[i]))
  }

  lemma {:induction false} ItemsConcat(items: seq<Value>)
    requires forall i :: 0 <= i < |items| ==> Supported(items[i])
    ensures EncodeItems(items) == Concat(ItemParts(items))
  {
    if items != [] {
      ItemsConcat(items[1..]);
      hide Encode, Supported;
      assert ItemParts(items)[1..] == ItemParts(items[1..]);
    }
  }

  ghost function EntryParts(v: Value, ks: seq<Scalar>): (parts: seq<Bytes>)
    requires KeysOf(v, ks)
    ensures |parts| == |ks| && forall i :: 0 <= i < |ks| ==> parts[i] == EncodeScalar(ks[i]) + Encode(v.entries[ks[i]])
  {
    seq(|ks|, i requires 0 <= i < |ks| => EncodeScalar(ks[i]) + Encode(v.entries[ks[i]]))
  }

  lemma {:induction false} EntriesConcat(v: Value, ks: seq<Scalar>)
    requires KeysOf(v, ks)
    ensures EncodeEntries(v, ks) == Concat(EntryParts(v, ks))
    decreases |ks|
  {
    if ks != [] {
      EntriesConcat(v, ks[1..]);
      hide Encode, EncodeScalar, Supported;
      assert EntryParts(v, ks)[1..] == EntryParts(v, ks[1..]);
    }
  }

  /** What the encoder writes is the canonical form of the value. */
  lemma {:induction false} EncodeIsCanonical(v: Value)
    requires Supported(v)
    ensures IsEncoding(Encode(v), v)
    decreases v
  {
    match v
    case Leaf(k) => ScalarIsScalar(k);
    case Array(items) =>
      HeadIsHead(4, |items|);
      ItemsConcat(items);
      forall i | 0 <= i < |items|
        ensures IsEncoding(Encode(items[i]), items[i])
      {
        EncodeIsCanonical(items[i]);
      }
      ArrayIsCanonical(items);
    case Map(entries) =>
      forall k | k in entries
        ensures IsEncoding(Encode(entries[k]), entries[k])
      {
        EncodeIsCanonical(entries[k]);
      }
      MapIsCanonical(v);
  }

  lemma ArrayIsCanonical(items: seq<Value>)
    requires Supported(Array(items)) && forall i :: 0 <= i < |items| ==> IsEncoding(Encode(items[i]), items[i])
    ensures IsEncoding(Encode(Array(items)), Array(items))
  {
    HeadIsHead(4, |items|);
    ItemsConcat(items);
    hide Head, IsHead;
    var parts := ItemParts(items);
    assert AreItems(parts, items);
    assert Encode(Array(items)) == Head(4, |items|) + Concat(parts);
  }

  ghost function NamesOf(keys: seq<Scalar>): (names: seq<Bytes>)
    requires forall i :: 0 <= i < |keys| ==> ScalarFits(keys[i])
    ensures |names| == |keys| && forall i :: 0 <= i < |keys| ==> names[i] == EncodeScalar(keys[i])
  {
    seq(|keys|, i requires 0 <= i < |keys| => EncodeScalar(keys[i]))
  }

  lemma SortedAreNames(all: set<Scalar>)
    requires AllFit(all)
    ensures Ascending(SortedKeys(all)) && AreNames(SortedKeys(all), NamesOf(SortedKeys(all)), all)
  {
    SortedKeysSorted(all);
    var keys := SortedKeys(all);
    var names := NamesOf(keys);
    hide EncodeScalar, IsScalar, SortedKeys, ComesBefore, NamesOf;
    forall i | 0 <= i < |keys|
      ensures IsScalar(names[i], keys[i])
    {
      ScalarIsScalar(keys[i]);
    }
    forall i, j | 0 <= i < j < |names|
      ensures ComesBefore(names[i], names[j])
    {
      assert KeyLess(keys[i], keys[j]);
      KeyLessIsBefore(keys[i], keys[j]);
    }
  }

  lemma EntryIsEntry(v: Value, k: Scalar)
    requires v.Map? && Supported(v) && k in v.entries && IsEncoding(Encode(v.entries[k]), v.entries[k])
    ensures IsEntry(EncodeScalar(k), EncodeScalar(k) + Encode(v.entries[k]), v, k)
  {
  }

  lemma MapIsCanonical(v: Value)
    requires v.Map? && Supported(v) && forall k :: k in v.entries ==> IsEncoding(Encode(v.entries[k]), v.entries[k])
    ensures IsEncoding(Encode(v), v)
  {
    var keys := SortedKeys(v.entries.Keys);
    SortedAreNames(v.entries.Keys);
    assert KeysOf(v, keys);
    EntriesConcat(v, keys);
    HeadIsHead(5, |v.entries|);
    var parts := EntryParts(v, keys);
    var names := NamesOf(keys);
    assert Encode(v) == Head(5, |v.entries|) + Concat(parts);
    hide Head, IsHead, EncodeScalar, SortedKeys, EntryParts, AreNames, NamesOf, IsEntry;
    assert |v.entries| == |v.entries.Keys|;
    assert |names| == |keys| == |parts|;
    forall i | 0 <= i < |keys|
      ensures IsEntry(names[i], parts[i], v, keys[i])
    {
      assert keys[i] in v.entries;
      EntryIsEntry(v, keys[i]);
    }
    assert AreEntries(keys, names, parts, v);
  }

  // ----- There is no other canonical form -----

  lemma HeadIsUnique(s: Bytes, major: nat, value: nat)
    requires IsHead(s, major, value) && value < LIMIT
    ensures major < 8 && s == Head(major, value)
  {
    HeadIsHead(major, value);
    var h := Head(major, value);
    assert s[0] == 32 * (s[0] / 32) + s[0] % 32 && h[0] == 32 * (h[0] / 32) + h[0] % 32;
    if value >= 24 {
      ToIntInjective(s[1..], h[1..]);
    }
    assert s == [s[0]] + s[1..] && h == [h[0]] + h[1..];
  }

  lemma ScalarIsUnique(s: Bytes, k: Scalar)
    requires ScalarFits(k) && IsScalar(s, k)
    ensures s == EncodeScalar(k)
  {
    hide IsHead, Head;
    match k
    case Bool(b) =>
      HeadIsUnique(s, 7, if b then 21 else 20);
      SimpleHeads();
    case Null =>
      HeadIsUnique(s, 7, 22);
      SimpleHeads();
    case Int(n) => if n < 0 { HeadIsUnique(s, 1, -1 - n); } else { HeadIsUnique(s, 0, n); }
    case Blob(bytes) => StringIsUnique(s, 2, bytes);
    case Text(utf8) => StringIsUnique(s, 3, utf8);
  }

  lemma SimpleHeads()
    ensures Head(7, 20) == [0xF4] && Head(7, 21) == [0xF5] && Head(7, 22) == [0xF6]
  {
  }

  lemma StringIsUnique(s: Bytes, major: nat, content: Bytes)
    requires IsString(s, major, content) && |content| < LIMIT
    ensures major < 8 && s == Head(major, |content|) + content
  {
    hide IsHead, Head;
    var h :| IsHead(h, major, |content|) && s == h + content;
    HeadIsUnique(h, major, |content|);
  }

  /** The canonical form of a value is the one string that the encoder writes. */
  lemma {:induction false} CanonicalIff(s: Bytes, v: Value)
    requires Supported(v)
    ensures IsEncoding(s, v) <==> s == Encode(v)
    decreases v
  {
    EncodeIsCanonical(v);
    if IsEncoding(s, v) {
      match v
      case Leaf(k) => ScalarIsUnique(s, k);
      case Array(items) =>
        hide IsEncoding, Encode, Head;
        forall i, part | 0 <= i < |items| && IsEncoding(part, items[i])
          ensures part == Encode(items[i])
        {
          CanonicalIff(part, items[i]);
        }
        ArrayIsUnique(s, items);
      case Map(entries) =>
        hide IsEncoding, Encode, Head;
        forall k, value | k in entries && IsEncoding(value, entries[k])
          ensures value == Encode(entries[k])
        {
          CanonicalIff(value, entries[k]);
        }
        MapIsUnique(s, v);
    }
  }

  lemma ArrayIsUnique(s: Bytes, items: seq<Value>)
    requires Supported(Array(items)) && IsEncoding(s, Array(items))
    requires forall i, part :: 0 <= i < |items| && IsEncoding(part, items[i]) ==> part == Encode(items[i])
    ensures s == Encode(Array(items))
  {
    var h, parts: seq<Bytes> :| IsHead(h, 4, |items|) && s == h + Concat(parts) && AreItems(parts, items);
    HeadIsUnique(h, 4, |items|);
    hide IsHead, Head;
    forall i | 0 <= i < |parts|
      ensures parts[i] == ItemParts(items)[i]
    {
      assert IsEncoding(parts[i], items[i]);
    }
    assert parts == ItemParts(items);
    ItemsConcat(items);
  }

  lemma NamesAreUnique(keys: seq<Scalar>, names: seq<Bytes>, all: set<Scalar>)
    requires AllFit(all) && AreNames(keys, names, all)
    ensures keys == SortedKeys(all) && names == NamesOf(SortedKeys(all))
  {
    hide EncodeScalar, IsScalar, SortedKeys, ComesBefore, NamesOf, KeyLess;
    forall i | 0 <= i < |keys|
      ensures ScalarFits(keys[i]) && names[i] == EncodeScalar(keys[i])
    {
      assert keys[i] in all;
      ScalarIsUnique(names[i], keys[i]);
    }
    forall i, j | 0 <= i < j < |keys|
      ensures KeyLess(keys[i], keys[j])
    {
      KeyLessIsBefore(keys[i], keys[j]);
    }
    SortedAreNames(all);
    AscendingIsUnique(keys, SortedKeys(all));
  }

  lemma MapIsUnique(s: Bytes, v: Value)
    requires v.Map? && Supported(v) && IsEncoding(s, v)
    requires forall k, value :: k in v.entries && IsEncoding(value, v.entries[k]) ==> value == Encode(v.entries[k])
    ensures s == Encode(v)
  {
    var h, keys: seq<Scalar>, names: seq<Bytes>, parts: seq<Bytes> :|
      IsHead(h, 5, |v.entries|) && s == h + Concat(parts) && AreEntries(keys, names, parts, v);
    HeadIsUnique(h, 5, |v.entries|);
    var sorted := SortedKeys(v.entries.Keys);
    NamesAreUnique(keys, names, v.entries.Keys);
    SortedKeysSorted(v.entries.Keys);
    assert KeysOf(v, sorted);
    EntriesConcat(v, sorted);
    assert Encode(v) == Head(5, |v.entries|) + Concat(EntryParts(v, sorted));
    hide Head, IsHead, EncodeScalar, SortedKeys, AreNames, Encode;
    assert |keys| == |parts|;
    forall i | 0 <= i < |parts|
      ensures parts[i] == EntryParts(v, sorted)[i]
    {
      assert IsEntry(names[i], parts[i], v, keys[i]);
      var value :| parts[i] == names[i] + value && IsEncoding(value, v.entries[keys[i]]);
    }
    assert parts == EntryParts(v, sorted);
  }
}
