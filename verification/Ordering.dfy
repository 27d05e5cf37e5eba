/** Strings in code point order, and lists sorted by it. */
module Ordering {
  import opened Lexicographic

  function Codes(s: string): seq<int> {
    seq(|s|, i requires 0 <= i < |s| => s[i] as int)
  }

  predicate StringLess(a: string, b: string) {
    LexLess(Codes(a), Codes(b))
  }

  lemma StringTotal(a: string, b: string)
    ensures StringLess(a, b) || a == b || StringLess(b, a)
    ensures !(StringLess(a, b) && StringLess(b, a)) && !StringLess(a, a)
  {
    LexTotal(Codes(a), Codes(b));
    LexTotal(Codes(a), Codes(a));
    if Codes(a) == Codes(b) {
      SameCodes(a, b);
    }
  }

  lemma SameCodes(a: string, b: string)
    requires Codes(a) == Codes(b)
    ensures a == b
  {
    assert |a| == |Codes(a)| == |Codes(b)| == |b|;
    forall i | 0 <= i < |a|
      ensures a[i] == b[i]
    {
      assert Codes(a)[i] == Codes(b)[i];
    }
  }

  /** The first difference is at k, and a has the smaller character there. */
  predicate SmallerAt(a: string, b: string, k: nat) {
    k < |a| && k < |b| && a[..k] == b[..k] && a[k] < b[k]
  }

  /** Python's order of strings: a begins b, or has the smaller character where they first differ. */
  lemma StringLessIff(a: string, b: string)
    ensures StringLess(a, b) <==> a < b || exists k: nat :: SmallerAt(a, b, k)
  {
    LexIff(Codes(a), Codes(b));
    forall k: nat
      ensures SmallerAt(a, b, k) <==> DiffersAt(Codes(a), Codes(b), k)
    {
      if k < |a| && k < |b| {
        assert Codes(a)[..k] == Codes(a[..k]) && Codes(b)[..k] == Codes(b[..k]);
        if Codes(a[..k]) == Codes(b[..k]) {
          SameCodes(a[..k], b[..k]);
        }
      }
    }
    PrefixCodes(a, b);
  }

  lemma PrefixCodes(a: string, b: string)
    ensures a < b <==> Codes(a) < Codes(b)
  {
    if |a| < |b| {
      assert Codes(b)[..|a|] == Codes(b[..|a|]);
      if Codes(a) == Codes(b[..|a|]) {
        SameCodes(a, b[..|a|]);
      }
    }
  }

  lemma StringTransitive(a: string, b: string, c: string)
    requires StringLess(a, b) && StringLess(b, c)
    ensures StringLess(a, c)
  {
    LexTransitive(Codes(a), Codes(b), Codes(c));
  }

  predicate Ascending(ks: seq<string>) {
    forall i, j :: 0 <= i < j < |ks| ==> StringLess(ks[i], ks[j])
  }

  function Insert(x: string, ks: seq<string>): (r: seq<string>)
    ensures forall k :: k in r <==> k == x || k in ks
  {
    if ks == [] || StringLess(x, ks[0]) then [x] + ks
    else
      assert ks == [ks[0]] + ks[1..];
      [ks[0]] + Insert(x, ks[1..])
  }

  lemma {:induction false} InsertAscending(x: string, ks: seq<string>)
    requires Ascending(ks) && x !in ks
    ensures Ascending(Insert(x, ks))
  {
    var r := Insert(x, ks);
    if ks == [] {
    } else if StringLess(x, ks[0]) {
      forall j | 0 < j < |r|
        ensures StringLess(x, r[j])
      {
        if j > 1 {
          StringTransitive(x, ks[0], ks[j - 1]);
        }
      }
    } else {
      StringTotal(x, ks[0]);
      assert ks[0] in ks;
      InsertAscending(x, ks[1..]);
      forall j | 0 < j < |r|
        ensures StringLess(r[0], r[j])
      {
        assert r[j] in Insert(x, ks[1..]);
        if r[j] != x {
          var i :| 0 <= i < |ks[1..]| && ks[1..][i] == r[j];
          assert StringLess(ks[0], ks[i + 1]);
        }
      }
    }
  }

  ghost predicate Lists(ks: seq<string>, s: set<string>) {
    Ascending(ks) && forall k :: k in ks <==> k in s
  }

  /** sorted(s). */
  ghost function Sorted(s: set<string>): (ks: seq<string>)
    ensures Lists(ks, s)
    decreases s
  {
    if s == {} then []
    else
      var x :| x in s;
      var rest := Sorted(s - {x});
      InsertAscending(x, rest);
      Insert(x, rest)
  }

  /** There is only one sorted list of a set. */
  lemma {:induction false} ListsIsUnique(a: seq<string>, b: seq<string>, s: set<string>)
    requires Lists(a, s) && Lists(b, s)
    ensures a == b
    decreases |a|
  {
    if a == [] {
      EmptyOrInhabited(b);
    } else {
      assert a[0] in s;
      assert b != [] && b[0] in s;
      FirstsAgree(a, b, s);
      RestLists(a, s);
      RestLists(b, s);
      ListsIsUnique(a[1..], b[1..], s - {a[0]});
      assert a == [a[0]] + a[1..] && b == [b[0]] + b[1..];
    }
  }

  lemma EmptyOrInhabited(s: seq<string>)
    ensures s == [] || s[0] in s
  {
  }

  lemma FirstsAgree(a: seq<string>, b: seq<string>, s: set<string>)
    requires Lists(a, s) && Lists(b, s) && a != [] && b != []
    ensures a[0] == b[0]
  {
    assert a[0] in b && b[0] in a;
    var i :| 0 <= i < |b| && b[i] == a[0];
    var j :| 0 <= j < |a| && a[j] == b[0];
    if i > 0 && j > 0 {
      assert StringLess(b[0], b[i]) && StringLess(a[0], a[j]);
      StringTotal(a[0], b[0]);
    }
  }

  lemma RestLists(a: seq<string>, s: set<string>)
    requires Lists(a, s) && a != []
    ensures Lists(a[1..], s - {a[0]})
  {
    assert a == [a[0]] + a[1..];
    forall i | 0 < i < |a|
      ensures a[i] != a[0]
    {
      StringTotal(a[0], a[i]);
    }
  }

  method SortStrings(s: set<string>) returns (ks: seq<string>)
    ensures ks == Sorted(s)
  {
    ks := [];
    var left := s;
    while left != {}
      invariant left <= s && Lists(ks, s - left)
      decreases left
    {
      var x :| x in left;
      InsertAscending(x, ks);
      ks := Insert(x, ks);
      left := left - {x};
    }
    assert s - left == s;
    ListsIsUnique(ks, Sorted(s), s);
  }
}
