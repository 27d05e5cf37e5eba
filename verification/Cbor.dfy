/** Canonical CBOR values: encoding, decoding, and how the two fit (authlab/crypto/cbor.py). */
module Cbor {
  import opened BigEndian
  import opened CborScalars
  import opened Wrappers

  /** A Python value the module supports; map keys are the hashable ones. */
  datatype Value = Leaf(k: Scalar) | Array(items: seq<Value>) | Map(entries: map<Scalar, Value>)

  // ----- Which values are supported -----

  /** Equality of dictionary keys: True is 1 and False is 0. */
  predicate SameKey(a: Scalar, b: Scalar) {
    a == b || (a.Bool? && b.Int? && b.n == (if a.b then 1 else 0)) || (a.Int? && b.Bool? && a.n == (if b.b then 1 else 0))
  }

  /** No two entries of a dictionary have the same key. */
  ghost predicate KeysDiffer(keys: set<Scalar>) {
    forall j, k :: j in keys && k in keys && SameKey(j, k) ==> j == k
  }

  /** Integers and lengths fit in 64 bits. */
  ghost predicate Supported(v: Value)
    decreases v
  {
    match v
    case Leaf(k) => ScalarFits(k)
    case Array(items) => |items| < LIMIT && forall i :: 0 <= i < |items| ==> Supported(items[i])
    case Map(entries) =>
      |entries| < LIMIT && KeysDiffer(entries.Keys) && AllFit(entries.Keys) && forall k :: k in entries ==> Supported(entries[k])
  }

  // ----- Sorting the keys -----

  lemma {:induction false} LeastKey(keys: set<Scalar>) returns (least: Scalar)
    requires keys != {} && AllFit(keys)
    ensures least in keys && forall k :: k in keys && k != least ==> KeyLess(least, k)
    decreases keys
  {
    hide EncodeScalar, Less;
    var k :| k in keys;
    var rest := keys - {k};
    assert forall j :: j in keys ==> j == k || j in rest;
    if rest == {} {
      least := k;
    } else {
      var other := LeastKey(rest);
      LessTotal(EncodeScalar(k), EncodeScalar(other));
      EncodingIsInjective(k, other);
      if KeyLess(k, other) {
        least := k;
        forall j | j in rest && j != other
          ensures KeyLess(k, j)
        {
          LessTransitive(EncodeScalar(k), EncodeScalar(other), EncodeScalar(j));
        }
      } else {
        least := other;
      }
    }
  }

  ghost predicate IsLeast(keys: set<Scalar>, least: Scalar)
    requires AllFit(keys)
  {
    least in keys && forall k :: k in keys && k != least ==> KeyLess(least, k)
  }

  /** sorted(items, key=_canonical_key). */
  ghost function SortedKeys(keys: set<Scalar>): (ks: seq<Scalar>)
    requires AllFit(keys)
    decreases keys
  {
    if keys == {} then []
    else
      var least := (LeastKeyExists(keys); var k :| IsLeast(keys, k); k);
      [least] + SortedKeys(keys - {least})
  }

  lemma LeastKeyExists(keys: set<Scalar>)
    requires keys != {} && AllFit(keys)
    ensures exists k :: IsLeast(keys, k)
  {
    var least := LeastKey(keys);
    assert IsLeast(keys, least);
  }

  lemma {:induction false} SortedKeysSorted(keys: set<Scalar>)
    requires AllFit(keys)
    ensures Ascending(SortedKeys(keys)) && (forall k :: k in SortedKeys(keys) <==> k in keys) && |SortedKeys(keys)| == |keys|
    decreases keys
  {
    hide EncodeScalar, Less;
    if keys != {} {
      var ks := SortedKeys(keys);
      assert IsLeast(keys, ks[0]) && ks[1..] == SortedKeys(keys - {ks[0]});
      SortedKeysSorted(keys - {ks[0]});
      assert ks == [ks[0]] + ks[1..];
      assert |keys - {ks[0]}| == |keys| - 1;
      forall i, j | 0 <= i < j < |ks|
        ensures KeyLess(ks[i], ks[j])
      {
        assert ks[j] == ks[1..][j - 1] && ks[j] in ks[1..];
        if i > 0 {
          assert ks[i] == ks[1..][i - 1];
        }
      }
    }
  }

  // ----- encode -----

  ghost function Encode(v: Value): Bytes
    requires Supported(v)
    decreases v, 2
  {
    match v
    case Leaf(k) => EncodeScalar(k)
    case Array(items) => Head(4, |items|) + EncodeItems(items)
    case Map(entries) =>
      SortedKeysSorted(entries.Keys);
      Head(5, |entries|) + EncodeEntries(v, SortedKeys(entries.Keys))
  }

  ghost function EncodeItems(items: seq<Value>): Bytes
    requires forall i :: 0 <= i < |items| ==> Supported(items[i])
    decreases items
  {
    if items == [] then [] else Encode(items[0]) + EncodeItems(items[1..])
  }

  ghost predicate KeysOf(v: Value, ks: seq<Scalar>) {
    v.Map? && AllFit(v.entries.Keys) && (forall k :: k in v.entries ==> Supported(v.entries[k])) && forall k :: k in ks ==> k in v.entries
  }

  ghost function EncodeEntries(v: Value, ks: seq<Scalar>): Bytes
    requires KeysOf(v, ks)
    decreases v, 1, |ks|
  {
    if ks == [] then [] else EncodeScalar(ks[0]) + Encode(v.entries[ks[0]]) + EncodeEntries(v, ks[1..])
  }

  // ----- decode -----

  datatype Parsed<+T> = Bad | Ok(value: T, used: nat)

  predicate Clashes(k: Scalar, seen: seq<Scalar>) {
    exists j :: j in seen && SameKey(j, k)
  }

  /** The order check: a key not above the one before it is refused. */
  predicate OutOfOrder(previous: Option<Scalar>, k: Scalar)
    requires ScalarFits(k) && (previous.Some? ==> ScalarFits(previous.value))
  {
    previous.Some? && (EncodeScalar(k) == EncodeScalar(previous.value) || Less(EncodeScalar(k), EncodeScalar(previous.value)))
  }

  /** _decode_at on the bytes from the offset on; `used` is how far the offset moves. */
  function Parse(s: Bytes): (r: Parsed<Value>)
    ensures r.Ok? ==> 0 < r.used <= |s|
    ensures r.Ok? && r.value.Leaf? ==> ScalarFits(r.value.k)
    decreases |s|, 0
  {
    match ParseHead(s)
    case BadHead => Bad
    case ParsedHead(major, n, used) =>
      var rest := s[used..];
      if major == 0 then Ok(Leaf(Int(n)), used)
      else if major == 1 then Ok(Leaf(Int(-1 - n)), used)
      else if major == 2 then if n > |rest| then Bad else Ok(Leaf(Blob(rest[..n])), used + n)
      else if major == 3 then if n > |rest| || !IsUtf8(rest[..n]) then Bad else Ok(Leaf(Text(rest[..n])), used + n)
      else if major == 4 then
        match ParseItems(rest, n)
        case Bad => Bad
        case Ok(items, more) => Ok(Array(items), used + more)
      else if major == 5 then
        match ParseEntries(rest, n, None, [])
        case Bad => Bad
        case Ok(entries, more) => Ok(Map(MapOf(entries)), used + more)
      else if major == 7 && n == 20 then Ok(Leaf(Bool(false)), used)
      else if major == 7 && n == 21 then Ok(Leaf(Bool(true)), used)
      else if major == 7 && n == 22 then Ok(Leaf(Null), used)
      else Bad
  }

  function ParseItems(s: Bytes, n: nat): (r: Parsed<seq<Value>>)
    ensures r.Ok? ==> r.used <= |s| && |r.value| == n
    decreases |s|, 1
  {
    if n == 0 then Ok([], 0)
    else
      match Parse(s)
      case Bad => Bad
      case Ok(item, used) =>
        match ParseItems(s[used..], n - 1)
        case Bad => Bad
        case Ok(items, more) => Ok([item] + items, used + more)
  }

  /** The entries in the order they stand; a key that is no scalar cannot be hashed. */
  function ParseEntries(s: Bytes, n: nat, previous: Option<Scalar>, seen: seq<Scalar>): (r: Parsed<seq<(Scalar, Value)>>)
    requires previous.Some? ==> ScalarFits(previous.value)
    ensures r.Ok? ==> r.used <= |s| && |r.value| == n
    decreases |s|, 1
  {
    if n == 0 then Ok([], 0)
    else
      match Parse(s)
      case Bad => Bad
      case Ok(key, used) =>
        if !key.Leaf? || OutOfOrder(previous, key.k) then Bad
        else
          match Parse(s[used..])
          case Bad => Bad
          case Ok(item, more) =>
            if Clashes(key.k, seen) then Bad
            else
              match ParseEntries(s[used + more..], n - 1, Some(key.k), seen + [key.k])
              case Bad => Bad
              case Ok(entries, rest) => Ok([(key.k, item)] + entries, used + more + rest)
  }

  /** Entries written into a dictionary one after the other. */
  function MapOf(entries: seq<(Scalar, Value)>): map<Scalar, Value> {
    if entries == [] then map[]
    else
      var last := entries[|entries| - 1];
      MapOf(entries[..|entries| - 1])[last.0 := last.1]
  }

  // ----- Scalars go around -----

  lemma ScalarRoundTrip(k: Scalar, suffix: Bytes)
    requires ScalarFits(k)
    ensures Parse(EncodeScalar(k) + suffix) == Ok(Leaf(k), |EncodeScalar(k)|)
  {
    hide ParseHead, Head, ParseEntries, ParseItems, MapOf;
    match k
    case Int(n) => if n >= 0 { HeadRoundTrip(0, n, suffix); } else { HeadRoundTrip(1, -n - 1, suffix); }
    case Blob(bytes) => StringRoundTrip(2, bytes, suffix);
    case Text(utf8) => StringRoundTrip(3, utf8, suffix);
    case Bool(b) => SimpleHeads(suffix);
    case Null => SimpleHeads(suffix);
  }

  lemma StringRoundTrip(major: nat, bytes: Bytes, suffix: Bytes)
    requires (major == 2 || (major == 3 && IsUtf8(bytes))) && |bytes| < LIMIT
    ensures var h := Head(major, |bytes|);
      Parse(h + bytes + suffix) == Ok(Leaf(if major == 2 then Blob(bytes) else Text(bytes)), |h| + |bytes|)
  {
    hide ParseHead, Head, ParseEntries, ParseItems, MapOf;
    var h := Head(major, |bytes|);
    HeadRoundTrip(major, |bytes|, bytes + suffix);
    AfterHead(h, bytes, suffix);
    assert (bytes + suffix)[..|bytes|] == bytes;
  }

  lemma SimpleHeads(suffix: Bytes)
    ensures ParseHead([0xF4] + suffix) == ParsedHead(7, 20, 1)
    ensures ParseHead([0xF5] + suffix) == ParsedHead(7, 21, 1)
    ensures ParseHead([0xF6] + suffix) == ParsedHead(7, 22, 1)
  {
  }

  lemma EncodingIsInjective(a: Scalar, b: Scalar)
    requires ScalarFits(a) && ScalarFits(b)
    ensures EncodeScalar(a) == EncodeScalar(b) ==> a == b
  {
    hide Parse, EncodeScalar;
    ScalarRoundTrip(a, []);
    ScalarRoundTrip(b, []);
  }

  // ----- Dictionaries and entry lists -----

  function KeysIn(entries: seq<(Scalar, Value)>): (ks: seq<Scalar>)
    ensures |ks| == |entries| && forall i :: 0 <= i < |ks| ==> ks[i] == entries[i].0
  {
    seq(|entries|, i requires 0 <= i < |entries| => entries[i].0)
  }

  ghost predicate Distinct(ks: seq<Scalar>) {
    forall i, j :: 0 <= i < j < |ks| ==> ks[i] != ks[j]
  }

  lemma AscendingIsDistinct(ks: seq<Scalar>)
    requires Ascending(ks)
    ensures Distinct(ks)
  {
    hide EncodeScalar, Less;
    forall i, j | 0 <= i < j < |ks|
      ensures ks[i] != ks[j]
    {
      assert KeyLess(ks[i], ks[j]);
      LessTotal(EncodeScalar(ks[i]), EncodeScalar(ks[j]));
    }
  }

  /** The dictionary has exactly these entries. */
  ghost predicate Holds(m: map<Scalar, Value>, entries: seq<(Scalar, Value)>) {
    && (forall k :: k in m <==> k in KeysIn(entries))
    && (forall i :: 0 <= i < |entries| ==> entries[i].0 in m && m[entries[i].0] == entries[i].1)
    && |m| == |entries|
  }

  lemma HoldsPut(m: map<Scalar, Value>, entries: seq<(Scalar, Value)>, e: (Scalar, Value))
    requires Holds(m, entries) && e.0 !in KeysIn(entries)
    ensures Holds(m[e.0 := e.1], entries + [e])
  {
    var more := entries + [e];
    assert KeysIn(more) == KeysIn(entries) + [e.0];
    forall i | 0 <= i < |entries|
      ensures more[i].0 in m[e.0 := e.1] && m[e.0 := e.1][more[i].0] == more[i].1
    {
      assert more[i] == entries[i] && KeysIn(entries)[i] == entries[i].0;
    }
  }

  lemma {:induction false} MapOfMeans(entries: seq<(Scalar, Value)>)
    requires Distinct(KeysIn(entries))
    ensures Holds(MapOf(entries), entries)
  {
    hide MapOf;
    if entries == [] {
      MapOfNone();
    } else {
      hide Holds;
      var n := |entries| - 1;
      var front, last := entries[..n], entries[n];
      MapOfLast(entries);
      assert KeysIn(front) == KeysIn(entries)[..n];
      MapOfMeans(front);
      assert last.0 !in KeysIn(front) by {
        assert KeysIn(entries)[n] == last.0;
      }
      HoldsPut(MapOf(front), front, last);
      assert entries == front + [last];
    }
  }

  lemma MapOfNone()
    ensures MapOf([]) == map[]
  {
  }

  lemma MapOfLast(entries: seq<(Scalar, Value)>)
    requires entries != []
    ensures var n := |entries| - 1; MapOf(entries) == MapOf(entries[..n])[entries[n].0 := entries[n].1]
  {
  }

  ghost function EntriesOf(v: Value, ks: seq<Scalar>): (entries: seq<(Scalar, Value)>)
    requires KeysOf(v, ks)
    ensures |entries| == |ks| && forall i :: 0 <= i < |ks| ==> entries[i] == (ks[i], v.entries[ks[i]])
  {
    if ks == [] then [] else [(ks[0], v.entries[ks[0]])] + EntriesOf(v, ks[1..])
  }

  /** Writing all entries of a dictionary, in any order, gives it back. */
  lemma MapOfEntries(v: Value, ks: seq<Scalar>)
    requires KeysOf(v, ks) && Distinct(ks) && forall k :: k in v.entries ==> k in ks
    ensures MapOf(EntriesOf(v, ks)) == v.entries
  {
    hide MapOf, Supported, EntriesOf, ScalarFits;
    var entries := EntriesOf(v, ks);
    assert KeysIn(entries) == ks;
    MapOfMeans(entries);
    forall k | k in v.entries
      ensures MapOf(entries)[k] == v.entries[k]
    {
      var i :| 0 <= i < |ks| && ks[i] == k;
      assert entries[i] == (k, v.entries[k]);
    }
  }

  // ----- decode undoes encode -----

  /** decode_prefix(encode(v) + suffix) gives v and leaves the suffix. */
  lemma {:induction false} RoundTrip(v: Value, suffix: Bytes)
    requires Supported(v)
    ensures Parse(Encode(v) + suffix) == Ok(v, |Encode(v)|)
    decreases v, 2
  {
    hide ParseHead, Head, ParseEntries, ParseItems, EncodeScalar, MapOf, EntriesOf, EncodeItems, EncodeEntries, Ascending;
    match v
    case Leaf(k) => ScalarRoundTrip(k, suffix);
    case Array(items) =>
      var h, body := Head(4, |items|), EncodeItems(items);
      HeadRoundTrip(4, |items|, body + suffix);
      AfterHead(h, body, suffix);
      RoundTripItems(items, suffix);
    case Map(entries) =>
      var ks := SortedKeys(entries.Keys);
      SortedKeysSorted(entries.Keys);
      var h, body := Head(5, |entries|), EncodeEntries(v, ks);
      HeadRoundTrip(5, |entries|, body + suffix);
      AfterHead(h, body, suffix);
      RoundTripEntries(v, ks, None, [], suffix);
      AscendingIsDistinct(ks);
      MapOfEntries(v, ks);
  }

  lemma AfterHead(h: Bytes, body: Bytes, suffix: Bytes)
    ensures (h + body) + suffix == h + (body + suffix)
    ensures ((h + body) + suffix)[|h|..] == body + suffix
  {
  }

  lemma {:induction false} RoundTripItems(items: seq<Value>, suffix: Bytes)
    requires forall i :: 0 <= i < |items| ==> Supported(items[i])
    ensures ParseItems(EncodeItems(items) + suffix, |items|) == Ok(items, |EncodeItems(items)|)
    decreases items
  {
    hide Parse, Encode;
    if items == [] {
    } else {
      var first, rest := Encode(items[0]), EncodeItems(items[1..]);
      RoundTrip(items[0], rest + suffix);
      RoundTripItems(items[1..], suffix);
      AfterHead(first, rest, suffix);
      assert items == [items[0]] + items[1..];
    }
  }

  /** The keys already read are others of the same dictionary, all below those to come. */
  ghost predicate Between(v: Value, ks: seq<Scalar>, previous: Option<Scalar>, seen: seq<Scalar>) {
    && KeysOf(v, ks) && KeysDiffer(v.entries.Keys) && Ascending(ks)
    && (previous.Some? ==> ScalarFits(previous.value) && (ks != [] ==> KeyLess(previous.value, ks[0])))
    && forall j :: j in seen ==> j in v.entries && j !in ks
  }

  lemma BetweenNext(v: Value, ks: seq<Scalar>, previous: Option<Scalar>, seen: seq<Scalar>)
    requires Between(v, ks, previous, seen) && ks != []
    ensures ScalarFits(ks[0]) && !OutOfOrder(previous, ks[0]) && !Clashes(ks[0], seen)
    ensures Between(v, ks[1..], Some(ks[0]), seen + [ks[0]])
  {
    hide EncodeScalar, Less;
    NotInRest(ks);
    if previous.Some? {
      LessTotal(EncodeScalar(previous.value), EncodeScalar(ks[0]));
    }
    assert ks[0] in ks;
    assert forall j :: j in ks[1..] ==> j in ks;
  }

  lemma {:induction false} RoundTripEntries(v: Value, ks: seq<Scalar>, previous: Option<Scalar>, seen: seq<Scalar>, suffix: Bytes)
    requires Supported(v) && Between(v, ks, previous, seen)
    ensures ParseEntries(EncodeEntries(v, ks) + suffix, |ks|, previous, seen) == Ok(EntriesOf(v, ks), |EncodeEntries(v, ks)|)
    decreases v, 1, |ks|
  {
    hide Parse, Encode, EncodeScalar, Supported, Clashes, OutOfOrder, Less, ParseEntries, Ascending, KeysDiffer;
    if ks == [] {
      NoEntries(EncodeEntries(v, ks) + suffix, previous, seen);
    } else {
      BetweenNext(v, ks, previous, seen);
      var key, item, rest := EncodeScalar(ks[0]), Encode(v.entries[ks[0]]), EncodeEntries(v, ks[1..]);
      ScalarRoundTrip(ks[0], item + (rest + suffix));
      RoundTrip(v.entries[ks[0]], rest + suffix);
      RoundTripEntries(v, ks[1..], Some(ks[0]), seen + [ks[0]], suffix);
      ThreeParts(key, item, rest, suffix);
      OneEntry(key + item + rest + suffix, |ks|, previous, seen, ks[0], |key|, v.entries[ks[0]], |item|);
    }
  }

  lemma NoEntries(s: Bytes, previous: Option<Scalar>, seen: seq<Scalar>)
    requires previous.Some? ==> ScalarFits(previous.value)
    ensures ParseEntries(s, 0, previous, seen) == Ok([], 0)
  {
  }

  /** One turn of the loop over the entries. */
  lemma OneEntry(s: Bytes, n: nat, previous: Option<Scalar>, seen: seq<Scalar>, key: Scalar, used: nat, item: Value, more: nat)
    requires n > 0 && (previous.Some? ==> ScalarFits(previous.value))
    requires Parse(s) == Ok(Leaf(key), used) && Parse(s[used..]) == Ok(item, more)
    requires !OutOfOrder(previous, key) && !Clashes(key, seen)
    ensures var rest := ParseEntries(s[used + more..], n - 1, Some(key), seen + [key]);
      ParseEntries(s, n, previous, seen) == if rest.Bad? then Bad else Ok([(key, item)] + rest.value, used + more + rest.used)
  {
    hide Parse, OutOfOrder, Clashes;
  }

  lemma ThreeParts(key: Bytes, item: Bytes, rest: Bytes, suffix: Bytes)
    ensures var s := (key + item + rest) + suffix;
      s == key + (item + (rest + suffix)) && s[|key|..] == item + (rest + suffix) && s[|key| + |item|..] == rest + suffix
  {
  }

  /** encode is injective and no encoding is the beginning of another. */
  lemma PrefixFree(v: Value, w: Value, a: Bytes, b: Bytes)
    requires Supported(v) && Supported(w) && Encode(v) + a == Encode(w) + b
    ensures v == w && a == b
  {
    hide Encode, Parse, Supported;
    RoundTrip(v, a);
    RoundTrip(w, b);
    assert a == (Encode(v) + a)[|Encode(v)|..] && b == (Encode(w) + b)[|Encode(w)|..];
  }

  // ----- encode gives the shortest encoding, and the only one of its length -----

  ghost predicate Shortest(s: Bytes, used: nat, canonical: Bytes)
    requires used <= |s|
  {
    |canonical| <= used && (|canonical| == used ==> s[..used] == canonical)
  }

  lemma ShortestConcat(s: Bytes, u: nat, w: nat, a: Bytes, b: Bytes)
    requires u + w <= |s| && Shortest(s, u, a) && Shortest(s[u..], w, b)
    ensures Shortest(s, u + w, a + b)
  {
    assert s[..u + w] == s[..u] + s[u..][..w];
  }

  lemma ScalarShortest(s: Bytes)
    requires Parse(s).Ok? && Parse(s).value.Leaf?
    ensures Shortest(s, Parse(s).used, EncodeScalar(Parse(s).value.k))
  {
    hide ParseHead, Head, ParseEntries, ParseItems;
    HeadIsShortest(s);
    var h := ParseHead(s);
    var n := h.value;
    if h.major == 2 || h.major == 3 {
      assert Shortest(s[h.used..], n, s[h.used..][..n]);
      ShortestConcat(s, h.used, n, Head(h.major, n), s[h.used..][..n]);
    } else if h.major == 7 {
      SimpleHead(n);
    }
  }

  lemma SimpleHead(n: nat)
    requires 20 <= n <= 22
    ensures Head(7, n) == [0xE0 + n]
  {
  }

  // The keys that were read ascend from the one before them and do not clash.
  ghost predicate Accepted(entries: seq<(Scalar, Value)>, previous: Option<Scalar>, seen: seq<Scalar>) {
    && Ascending(KeysIn(entries))
    && (previous.Some? ==> ScalarFits(previous.value) && forall i :: 0 <= i < |entries| ==> KeyLess(previous.value, KeysIn(entries)[i]))
    && (forall i, j :: 0 <= i < |seen| && 0 <= j < |entries| ==> !SameKey(seen[i], KeysIn(entries)[j]))
    && (forall i, j :: 0 <= i < j < |entries| ==> !SameKey(KeysIn(entries)[i], KeysIn(entries)[j]))
  }

  ghost predicate AllSupported(entries: seq<(Scalar, Value)>) {
    forall i :: 0 <= i < |entries| ==> Supported(entries[i].1)
  }

  lemma AcceptedNext(key: Scalar, item: Value, rest: seq<(Scalar, Value)>, previous: Option<Scalar>, seen: seq<Scalar>)
    requires ScalarFits(key) && (previous.Some? ==> ScalarFits(previous.value))
    requires !OutOfOrder(previous, key) && !Clashes(key, seen) && Accepted(rest, Some(key), seen + [key])
    ensures Accepted([(key, item)] + rest, previous, seen)
  {
    hide EncodeScalar, Less;
    var entries := [(key, item)] + rest;
    var ks := KeysIn(entries);
    assert ks == [key] + KeysIn(rest);
    if previous.Some? {
      LessTotal(EncodeScalar(previous.value), EncodeScalar(key));
      forall i | 0 <= i < |entries|
        ensures KeyLess(previous.value, ks[i])
      {
        if i > 0 {
          assert ks[i] == KeysIn(rest)[i - 1];
          LessTransitive(EncodeScalar(previous.value), EncodeScalar(key), EncodeScalar(ks[i]));
        }
      }
    }
    assert (seen + [key])[|seen|] == key;
    assert forall i :: 0 <= i < |seen| ==> (seen + [key])[i] == seen[i];
  }

  /** The encoding of entries in the order they were read. */
  ghost function EncodeList(entries: seq<(Scalar, Value)>): Bytes
    requires AllSupported(entries) && Ascending(KeysIn(entries))
  {
    if entries == [] then []
    else
      assert KeysIn(entries)[1..] == KeysIn(entries[1..]);
      NotInRest(KeysIn(entries));
      EncodeScalar(entries[0].0) + Encode(entries[0].1) + EncodeList(entries[1..])
  }

  /** Whatever decodes is a supported value, and its canonical encoding is no longer than what was read. */
  lemma {:induction false} ParseIsShortest(s: Bytes)
    requires Parse(s).Ok?
    ensures Supported(Parse(s).value) && Shortest(s, Parse(s).used, Encode(Parse(s).value))
    decreases |s|, 0
  {
    hide ParseHead, Head, ParseEntries, ParseItems, EncodeScalar, MapOf, EncodeItems, EncodeEntries, EncodeList, Shortest, Accepted, AllSupported, KeysDiffer;
    HeadIsShortest(s);
    var h := ParseHead(s);
    var rest := s[h.used..];
    if h.major == 4 {
      ItemsShortest(rest, h.value);
      HeadShortest(s);
      ShortestConcat(s, h.used, ParseItems(rest, h.value).used, Head(4, h.value), EncodeItems(ParseItems(rest, h.value).value));
    } else if h.major == 5 {
      EntriesShortest(rest, h.value, None, []);
      var entries := ParseEntries(rest, h.value, None, []).value;
      HeadShortest(s);
      ReadInOrder(entries);
      ShortestConcat(s, h.used, ParseEntries(rest, h.value, None, []).used, Head(5, h.value), EncodeList(entries));
    } else {
      ScalarShortest(s);
    }
  }

  lemma HeadShortest(s: Bytes)
    requires ParseHead(s).ParsedHead?
    ensures Shortest(s, ParseHead(s).used, Head(ParseHead(s).major, ParseHead(s).value))
  {
    HeadIsShortest(s);
  }

  lemma {:induction false} ItemsShortest(s: Bytes, n: nat)
    requires ParseItems(s, n).Ok?
    ensures forall i :: 0 <= i < n ==> Supported(ParseItems(s, n).value[i])
    ensures Shortest(s, ParseItems(s, n).used, EncodeItems(ParseItems(s, n).value))
    decreases |s|, 1
  {
    hide Parse, Encode, Supported;
    if n > 0 {
      var first := Parse(s);
      var rest := ParseItems(s[first.used..], n - 1);
      ParseIsShortest(s);
      ItemsShortest(s[first.used..], n - 1);
      ShortestConcat(s, first.used, rest.used, Encode(first.value), EncodeItems(rest.value));
      var items := [first.value] + rest.value;
      assert items[1..] == rest.value;
    }
  }

  lemma {:induction false} EntriesShortest(s: Bytes, n: nat, previous: Option<Scalar>, seen: seq<Scalar>)
    requires previous.Some? ==> ScalarFits(previous.value)
    requires ParseEntries(s, n, previous, seen).Ok?
    ensures var r := ParseEntries(s, n, previous, seen);
      AllSupported(r.value) && Accepted(r.value, previous, seen) && Ascending(KeysIn(r.value)) && Shortest(s, r.used, EncodeList(r.value))
    decreases |s|, 1
  {
    hide Parse, Encode, Supported, EncodeScalar, OutOfOrder, Clashes, Shortest, Less, ParseEntries, Accepted, Ascending, AllSupported, EncodeList, KeysIn;
    if n == 0 {
      NoEntries(s, previous, seen);
      NothingIsShortest(s);
    } else {
      var key, used, item, more, rest := EntryRead(s, n, previous, seen);
      var later := s[used + more..];
      ScalarShortest(s);
      ParseIsShortest(s[used..]);
      EntriesShortest(later, n - 1, Some(key), seen + [key]);
      AcceptedNext(key, item, rest.value, previous, seen);
      EncodeListNext(key, item, rest.value, previous, seen);
      ShortestConcat(s, used, more, EncodeScalar(key), Encode(item));
      assert s[used + more..] == s[used..][more..];
      ShortestConcat(s, used + more, rest.used, EncodeScalar(key) + Encode(item), EncodeList(rest.value));
    }
  }

  lemma EntryRead(s: Bytes, n: nat, previous: Option<Scalar>, seen: seq<Scalar>)
    returns (key: Scalar, used: nat, item: Value, more: nat, rest: Parsed<seq<(Scalar, Value)>>)
    requires n > 0 && (previous.Some? ==> ScalarFits(previous.value)) && ParseEntries(s, n, previous, seen).Ok?
    ensures ScalarFits(key) && Parse(s) == Ok(Leaf(key), used) && used <= |s| && Parse(s[used..]) == Ok(item, more) && used + more <= |s|
    ensures !OutOfOrder(previous, key) && !Clashes(key, seen)
    ensures rest == ParseEntries(s[used + more..], n - 1, Some(key), seen + [key]) && rest.Ok?
    ensures ParseEntries(s, n, previous, seen) == Ok([(key, item)] + rest.value, used + more + rest.used)
  {
    hide Parse, OutOfOrder, Clashes;
    key, used := Parse(s).value.k, Parse(s).used;
    item, more := Parse(s[used..]).value, Parse(s[used..]).used;
    rest := ParseEntries(s[used + more..], n - 1, Some(key), seen + [key]);
  }

  lemma EncodeListNext(key: Scalar, item: Value, rest: seq<(Scalar, Value)>, previous: Option<Scalar>, seen: seq<Scalar>)
    requires AllSupported(rest) && Supported(item) && Ascending(KeysIn(rest)) && Accepted([(key, item)] + rest, previous, seen)
    ensures AllSupported([(key, item)] + rest) && ScalarFits(key) && Ascending(KeysIn([(key, item)] + rest))
    ensures EncodeList([(key, item)] + rest) == EncodeScalar(key) + Encode(item) + EncodeList(rest)
  {
    hide Supported, Encode, EncodeScalar, Less, SameKey;
    var entries := [(key, item)] + rest;
    assert KeysIn(entries)[0] == key;
    assert entries[1..] == rest;
  }

  lemma NothingIsShortest(s: Bytes)
    ensures Shortest(s, 0, EncodeList([])) && AllSupported([]) && Ascending(KeysIn([]))
    ensures forall previous: Option<Scalar>, seen | previous.Some? ==> ScalarFits(previous.value) :: Accepted([], previous, seen)
  {
  }

  /** The entries were read in the order in which the encoder writes them. */
  lemma ReadInOrder(entries: seq<(Scalar, Value)>)
    requires AllSupported(entries) && Accepted(entries, None, []) && |entries| < LIMIT
    ensures var v := Map(MapOf(entries));
      Supported(v) && |v.entries| == |entries| && Encode(v) == Head(5, |entries|) + EncodeList(entries)
  {
    hide EncodeScalar, Less, Head, Encode, MapOf;
    var v, ks := Map(MapOf(entries)), KeysIn(entries);
    AscendingIsDistinct(ks);
    MapOfMeans(entries);
    EntriesSupported(entries);
    SortedKeysSorted(v.entries.Keys);
    AscendingIsUnique(ks, SortedKeys(v.entries.Keys));
    ListIsEntries(v, entries);
    EncodeMap(v);
  }

  lemma EncodeMap(v: Value)
    requires v.Map? && Supported(v)
    ensures KeysOf(v, SortedKeys(v.entries.Keys)) && Encode(v) == Head(5, |v.entries|) + EncodeEntries(v, SortedKeys(v.entries.Keys))
  {
    SortedKeysSorted(v.entries.Keys);
  }

  lemma EntriesSupported(entries: seq<(Scalar, Value)>)
    requires AllSupported(entries) && Accepted(entries, None, []) && |entries| < LIMIT && Distinct(KeysIn(entries))
    ensures Supported(Map(MapOf(entries))) && KeysOf(Map(MapOf(entries)), KeysIn(entries))
  {
    hide EncodeScalar, Less, MapOf;
    MapOfMeans(entries);
    var m, ks := MapOf(entries), KeysIn(entries);
    forall k | k in m
      ensures ScalarFits(k) && Supported(m[k])
    {
      var i :| 0 <= i < |ks| && ks[i] == k;
      assert m[entries[i].0] == entries[i].1;
    }
    forall j, k | j in m && k in m && SameKey(j, k)
      ensures j == k
    {
      var a :| 0 <= a < |ks| && ks[a] == j;
      var b :| 0 <= b < |ks| && ks[b] == k;
      OnlyItself(ks, a, b);
    }
  }

  lemma OnlyItself(ks: seq<Scalar>, a: nat, b: nat)
    requires a < |ks| && b < |ks| && SameKey(ks[a], ks[b])
    requires forall i, j :: 0 <= i < j < |ks| ==> !SameKey(ks[i], ks[j])
    ensures a == b
  {
    assert SameKey(ks[b], ks[a]);
  }

  lemma {:induction false} ListIsEntries(v: Value, entries: seq<(Scalar, Value)>)
    requires v.Map? && KeysOf(v, KeysIn(entries)) && AllSupported(entries) && Ascending(KeysIn(entries))
    requires forall i :: 0 <= i < |entries| ==> v.entries[entries[i].0] == entries[i].1
    ensures EncodeEntries(v, KeysIn(entries)) == EncodeList(entries)
    decreases |entries|
  {
    hide Encode, EncodeScalar, Less, Supported;
    if entries != [] {
      var ks := KeysIn(entries);
      assert ks[1..] == KeysIn(entries[1..]);
      assert forall k :: k in ks[1..] ==> k in ks;
      assert ks[0] in ks && KeysIn(entries)[0] in v.entries;
      NotInRest(ks);
      ListIsEntries(v, entries[1..]);
    }
  }

  // ----- When a decoded string is canonical -----

  /** The head that is read is the shortest for its argument. */
  predicate ShortHead(s: Bytes) {
    ParseHead(s).ParsedHead? && ParseHead(s).used == 1 + WidthFor(ParseHead(s).value)
  }

  /** So is every head inside, those of keys, items and lengths included. */
  predicate ShortHeads(s: Bytes)
    decreases |s|, 0
  {
    ShortHead(s)
    && var h := ParseHead(s);
    if h.major == 4 then ShortItems(s[h.used..], h.value)
    else if h.major == 5 then ShortEntries(s[h.used..], h.value)
    else true
  }

  predicate ShortItems(s: Bytes, n: nat)
    decreases |s|, 1
  {
    n == 0 || (ShortHeads(s) && Parse(s).Ok? && ShortItems(s[Parse(s).used..], n - 1))
  }

  predicate ShortEntries(s: Bytes, n: nat)
    decreases |s|, 1
  {
    n == 0
    || (ShortHeads(s) && Parse(s).Ok?
        && var rest := s[Parse(s).used..];
        ShortHeads(rest) && Parse(rest).Ok? && ShortEntries(rest[Parse(rest).used..], n - 1))
  }

  lemma {:induction false} ShortIff(s: Bytes)
    requires Parse(s).Ok?
    ensures Supported(Parse(s).value) && (|Encode(Parse(s).value)| == Parse(s).used <==> ShortHeads(s))
    decreases |s|, 0
  {
    hide ParseHead, Head, ParseEntries, ParseItems, EncodeScalar, MapOf, EncodeItems, EncodeEntries, EncodeList, Accepted, AllSupported, KeysDiffer,
      ShortItems, ShortEntries, ShortHead;
    ParseIsShortest(s);
    HeadIsShortest(s);
    HeadShortIff(s);
    var h := ParseHead(s);
    var rest := s[h.used..];
    if h.major == 4 {
      ItemsShortest(rest, h.value);
      ShortItemsIff(rest, h.value);
    } else if h.major == 5 {
      EntriesShortest(rest, h.value, None, []);
      ReadInOrder(ParseEntries(rest, h.value, None, []).value);
      ShortEntriesIff(rest, h.value, None, []);
    } else {
      ScalarShortIff(s);
    }
  }

  lemma HeadShortIff(s: Bytes)
    requires ParseHead(s).ParsedHead?
    ensures ShortHead(s) <==> |Head(ParseHead(s).major, ParseHead(s).value)| == ParseHead(s).used
  {
    hide ParseHead;
  }

  lemma ScalarShortIff(s: Bytes)
    requires Parse(s).Ok? && ParseHead(s).major != 4 && ParseHead(s).major != 5
    ensures Parse(s).value.Leaf? && (|EncodeScalar(Parse(s).value.k)| == Parse(s).used <==> ShortHead(s))
  {
    hide ParseHead, Head, ParseEntries, ParseItems, MapOf, ShortHead;
    HeadShortIff(s);
    var h := ParseHead(s);
    if h.major == 7 {
      SimpleHead(h.value);
    }
  }

  lemma {:induction false} ShortItemsIff(s: Bytes, n: nat)
    requires ParseItems(s, n).Ok?
    ensures forall i :: 0 <= i < n ==> Supported(ParseItems(s, n).value[i])
    ensures |EncodeItems(ParseItems(s, n).value)| == ParseItems(s, n).used <==> ShortItems(s, n)
    decreases |s|, 1
  {
    hide Parse, Encode, Supported, ShortHeads;
    if n > 0 {
      var first := Parse(s);
      var rest := ParseItems(s[first.used..], n - 1);
      ParseIsShortest(s);
      ShortIff(s);
      ItemsShortest(s[first.used..], n - 1);
      ShortItemsIff(s[first.used..], n - 1);
      var items := [first.value] + rest.value;
      assert items[1..] == rest.value;
    }
  }

  lemma {:induction false} ShortEntriesIff(s: Bytes, n: nat, previous: Option<Scalar>, seen: seq<Scalar>)
    requires previous.Some? ==> ScalarFits(previous.value)
    requires ParseEntries(s, n, previous, seen).Ok?
    ensures var r := ParseEntries(s, n, previous, seen);
      AllSupported(r.value) && Ascending(KeysIn(r.value)) && (|EncodeList(r.value)| == r.used <==> ShortEntries(s, n))
    decreases |s|, 1
  {
    hide Parse, Encode, Supported, EncodeScalar, OutOfOrder, Clashes, Less, ParseEntries, Accepted, Ascending, AllSupported, EncodeList, KeysIn, ShortHeads;
    EntriesShortest(s, n, previous, seen);
    if n == 0 {
      NoEntries(s, previous, seen);
      NothingIsShortest(s);
      EmptyList();
    } else {
      var key, used, item, more, rest := EntryRead(s, n, previous, seen);
      var later := s[used + more..];
      ParseIsShortest(s);
      ShortIff(s);
      KeyEncodes(key);
      ParseIsShortest(s[used..]);
      ShortIff(s[used..]);
      EntriesShortest(later, n - 1, Some(key), seen + [key]);
      ShortEntriesIff(later, n - 1, Some(key), seen + [key]);
      AcceptedNext(key, item, rest.value, previous, seen);
      EncodeListNext(key, item, rest.value, previous, seen);
      assert later == s[used..][more..];
    }
  }

  lemma EmptyList()
    ensures AllSupported([]) && Ascending(KeysIn([])) && EncodeList([]) == []
  {
  }

  lemma KeyEncodes(k: Scalar)
    requires ScalarFits(k)
    ensures Supported(Leaf(k)) && Encode(Leaf(k)) == EncodeScalar(k)
  {
  }

  /** What decodes is the canonical encoding of its value exactly when every head in it is the shortest. */
  lemma CanonicalIffShortHeads(s: Bytes)
    requires Parse(s).Ok?
    ensures Supported(Parse(s).value)
    ensures s[..Parse(s).used] == Encode(Parse(s).value) <==> ShortHeads(s)
  {
    hide Parse, Encode, Supported, ShortHeads;
    ParseIsShortest(s);
    ShortIff(s);
  }

  /** Among all byte strings that decode to v the encoder picks the one shortest. */
  lemma CanonicalIsTheShortest(data: Bytes)
    requires Parse(data).Ok? && Parse(data).used == |data|
    ensures Supported(Parse(data).value) && |Encode(Parse(data).value)| <= |data|
    ensures |Encode(Parse(data).value)| == |data| ==> data == Encode(Parse(data).value)
  {
    ParseIsShortest(data);
    assert data[..|data|] == data;
  }

  /** A longer head is accepted: 0x18 0x00 decodes to 0, whose encoding is 0x00. */
  lemma LongHeadsAreAccepted()
    ensures Parse([0x18, 0x00]) == Ok(Leaf(Int(0)), 2) && Encode(Leaf(Int(0))) == [0x00] && !ShortHeads([0x18, 0x00])
  {
    assert ToInt([0]) == 256 * ToInt([]) + 0 by {
      assert [0][..0] == [];
    }
    assert [0x18, 0x00][1..2] == [0x00];
  }

  // ----- The decoder as it runs -----

  /** A parse from a later offset, seen from an earlier one. */
  function Shifted<T>(r: Parsed<T>, moved: nat): Parsed<T> {
    if r.Bad? then Bad else Ok(r.value, r.used + moved)
  }

  function Prepend<T>(front: seq<T>, moved: nat, r: Parsed<seq<T>>): Parsed<seq<T>> {
    if r.Bad? then Bad else Ok(front + r.value, r.used + moved)
  }

  lemma ItemsStep(data: Bytes, start: nat, offset: nat, n: nat, items: seq<Value>, whole: Parsed<seq<Value>>)
    requires start <= offset <= |data| && n > 0
    requires whole == Prepend(items, offset - start, ParseItems(data[offset..], n))
    ensures var r := Parse(data[offset..]);
      if r.Bad? then whole == Bad
      else whole == Prepend(items + [r.value], offset + r.used - start, ParseItems(data[offset + r.used..], n - 1))
  {
    hide Parse;
    var r := Parse(data[offset..]);
    if r.Ok? {
      assert data[offset..][r.used..] == data[offset + r.used..];
      var rest := ParseItems(data[offset + r.used..], n - 1);
      if rest.Ok? {
        assert items + ([r.value] + rest.value) == items + [r.value] + rest.value;
      }
    }
  }

  /** The array branch of _decode_at. */
  method DecodeItems(data: Bytes, start: nat, n: nat) returns (r: Parsed<seq<Value>>)
    requires start <= |data|
    ensures r == Shifted(ParseItems(data[start..], n), start)
    decreases |data| - start, 1
  {
    hide Parse, ParseItems;
    var items: seq<Value>, offset := [], start;
    ghost var whole := ParseItems(data[start..], n);
    assert whole.Ok? ==> [] + whole.value == whole.value;
    for i := 0 to n
      invariant start <= offset <= |data|
      invariant whole == Prepend(items, offset - start, ParseItems(data[offset..], n - i))
    {
      ItemsStep(data, start, offset, n - i, items, whole);
      var item := DecodeAt(data, offset);
      if item.Bad? {
        return Bad;
      }
      items, offset := items + [item.value], item.used;
    }
    NoItems(data[offset..]);
    assert items + [] == items;
    return Ok(items, offset);
  }

  lemma NoItems(s: Bytes)
    ensures ParseItems(s, 0) == Ok([], 0)
  {
  }

  /** What an iteration of the loop over map entries decides. */
  lemma EntriesStep(data: Bytes, start: nat, offset: nat, n: nat, previous: Option<Scalar>, seen: seq<Scalar>,
                    entries: seq<(Scalar, Value)>, whole: Parsed<seq<(Scalar, Value)>>)
    requires start <= offset <= |data| && n > 0 && (previous.Some? ==> ScalarFits(previous.value))
    requires whole == Prepend(entries, offset - start, ParseEntries(data[offset..], n, previous, seen))
    ensures var k := Parse(data[offset..]);
      if k.Bad? || !k.value.Leaf? || OutOfOrder(previous, k.value.k) then whole == Bad
      else
        var item := Parse(data[offset + k.used..]);
        if item.Bad? || Clashes(k.value.k, seen) then whole == Bad
        else
          var later := offset + k.used + item.used;
          whole == Prepend(entries + [(k.value.k, item.value)], later - start,
                           ParseEntries(data[later..], n - 1, Some(k.value.k), seen + [k.value.k]))
  {
    hide Parse, OutOfOrder, Clashes;
    var k := Parse(data[offset..]);
    if k.Ok? {
      assert data[offset..][k.used..] == data[offset + k.used..];
      var item := Parse(data[offset + k.used..]);
      if item.Ok? {
        assert data[offset..][k.used + item.used..] == data[offset + k.used + item.used..];
        if k.value.Leaf? {
          var rest := ParseEntries(data[offset + k.used + item.used..], n - 1, Some(k.value.k), seen + [k.value.k]);
          if rest.Ok? {
            assert entries + ([(k.value.k, item.value)] + rest.value) == entries + [(k.value.k, item.value)] + rest.value;
          }
        }
      }
    }
  }

  /** The map branch of _decode_at: the dictionary is filled entry by entry. */
  method DecodeEntries(data: Bytes, start: nat, n: nat) returns (r: Parsed<map<Scalar, Value>>)
    requires start <= |data|
    ensures var whole := ParseEntries(data[start..], n, None, []);
      r == if whole.Bad? then Bad else Ok(MapOf(whole.value), start + whole.used)
    decreases |data| - start, 1
  {
    hide Parse, ParseEntries, EncodeScalar, Less, MapOf, SameKey;
    var result: map<Scalar, Value>, previous: Option<Scalar>, offset := map[], None, start;
    ghost var entries: seq<(Scalar, Value)>, seen: seq<Scalar> := [], [];
    ghost var whole := ParseEntries(data[start..], n, None, []);
    assert whole.Ok? ==> [] + whole.value == whole.value;
    MapOfNone();
    for i := 0 to n
      invariant start <= offset <= |data| && (previous.Some? ==> ScalarFits(previous.value))
      invariant whole == Prepend(entries, offset - start, ParseEntries(data[offset..], n - i, previous, seen))
      invariant result == MapOf(entries) && forall k :: k in result <==> k in seen
    {
      EntriesStep(data, start, offset, n - i, previous, seen, entries, whole);
      var key := DecodeAt(data, offset);
      if key.Bad? || !key.value.Leaf? {
        return Bad;
      }
      var k := key.value.k;
      if previous.Some? && (EncodeScalar(k) == EncodeScalar(previous.value) || Less(EncodeScalar(k), EncodeScalar(previous.value))) {
        return Bad;
      }
      var item := DecodeAt(data, key.used);
      if item.Bad? || exists j :: j in result && SameKey(j, k) {
        return Bad;
      }
      previous, result, offset := Some(k), result[k := item.value], item.used;
      ghost var more := entries + [(k, item.value)];
      MapOfLast(more);
      assert more[..|more| - 1] == entries;
      entries, seen := more, seen + [k];
    }
    NoEntries(data[offset..], previous, seen);
    assert entries + [] == entries;
    return Ok(result, offset);
  }

  /** _decode_at. */
  method DecodeAt(data: Bytes, offset: nat) returns (r: Parsed<Value>)
    requires offset <= |data|
    ensures r == Shifted(Parse(data[offset..]), offset)
    decreases |data| - offset, 0
  {
    hide ParseHead, ParseItems, ParseEntries, MapOf;
    var s := data[offset..];
    var h := ParseHead(s);
    if h.BadHead? {
      return Bad;
    }
    var start, n := offset + h.used, h.value;
    assert s[h.used..] == data[start..];
    match h.major
    case 0 => return Ok(Leaf(Int(n)), start);
    case 1 => return Ok(Leaf(Int(-1 - n)), start);
    case 2 =>
      if start + n > |data| {
        return Bad;
      }
      assert data[start..start + n] == data[start..][..n];
      return Ok(Leaf(Blob(data[start..start + n])), start + n);
    case 3 =>
      if start + n > |data| {
        return Bad;
      }
      assert data[start..start + n] == data[start..][..n];
      if !IsUtf8(data[start..start + n]) {
        return Bad;
      }
      return Ok(Leaf(Text(data[start..start + n])), start + n);
    case 4 =>
      var items := DecodeItems(data, start, n);
      return if items.Bad? then Bad else Ok(Array(items.value), items.used);
    case 5 =>
      var entries := DecodeEntries(data, start, n);
      return if entries.Bad? then Bad else Ok(Map(entries.value), entries.used);
    case 7 =>
      if n == 20 {
        return Ok(Leaf(Bool(false)), start);
      } else if n == 21 {
        return Ok(Leaf(Bool(true)), start);
      } else if n == 22 {
        return Ok(Leaf(Null), start);
      }
      return Bad;
    case _ => return Bad;
  }

  /** decode: nothing may be left over. */
  method Decode(data: Bytes) returns (r: Option<Value>)
    ensures forall v :: Supported(v) && data == Encode(v) ==> r == Some(v)
    ensures r.Some? ==> Supported(r.value) && |Encode(r.value)| <= |data|
    ensures r.Some? ==> (data == Encode(r.value) <==> |Encode(r.value)| == |data|) && (data == Encode(r.value) <==> ShortHeads(data))
    ensures r.Some? <==> Parse(data).Ok? && Parse(data).used == |data|
  {
    hide Parse, Encode, Supported, ShortHeads;
    assert data[0..] == data;
    forall v | Supported(v) && data == Encode(v)
      ensures Parse(data) == Ok(v, |data|)
    {
      RoundTrip(v, []);
      assert data + [] == data;
    }
    var parsed := DecodeAt(data, 0);
    if parsed.Bad? || parsed.used != |data| {
      return None;
    }
    CanonicalIsTheShortest(data);
    CanonicalIffShortHeads(data);
    assert data[..|data|] == data;
    return Some(parsed.value);
  }

  /** decode_prefix: one item and the bytes after it. */
  method DecodePrefix(data: Bytes) returns (r: Option<(Value, Bytes)>)
    ensures forall v, suffix :: Supported(v) && data == Encode(v) + suffix ==> r == Some((v, suffix))
    ensures r.Some? <==> Parse(data).Ok?
    ensures r.Some? ==> r.value == (Parse(data).value, data[Parse(data).used..]) && Supported(r.value.0)
  {
    hide Parse, Encode, Supported;
    assert data[0..] == data;
    forall v, suffix | Supported(v) && data == Encode(v) + suffix
      ensures Parse(data) == Ok(v, |Encode(v)|) && data[|Encode(v)|..] == suffix
    {
      RoundTrip(v, suffix);
    }
    var parsed := DecodeAt(data, 0);
    if parsed.Bad? {
      return None;
    }
    ParseIsShortest(data);
    return Some((parsed.value, data[parsed.used..]));
  }
}
