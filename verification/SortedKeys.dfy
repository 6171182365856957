/** Strings in the byte order of Go's sort.Strings, and sorted lists of distinct
    keys (mit_6.824/src/mapreduce/common_reduce.go:65-69). */
module SortedKeys {

  /** Lexicographic order. */
  predicate Less(a: string, b: string) {
    if b == [] then false
    else if a == [] then true
    else a[0] < b[0] || (a[0] == b[0] && Less(a[1..], b[1..]))
  }

  /** b goes on where a ends, or both differ first where a has the smaller character. */
  ghost predicate DifferAt(a: string, b: string, k: int) {
    0 <= k <= |a| && k < |b| && a[..k] == b[..k] && (k == |a| || a[k] < b[k])
  }

  lemma {:induction false} LessDiffer(a: string, b: string)
    requires Less(a, b)
    ensures exists k :: DifferAt(a, b, k)
  {
    if a == [] || a[0] != b[0] {
      assert DifferAt(a, b, 0);
    } else {
      LessDiffer(a[1..], b[1..]);
      var k :| DifferAt(a[1..], b[1..], k);
      assert a[..k + 1] == [a[0]] + a[1..][..k] && b[..k + 1] == [b[0]] + b[1..][..k];
      assert DifferAt(a, b, k + 1);
    }
  }

  lemma {:induction false} DifferLess(a: string, b: string, k: int)
    requires DifferAt(a, b, k)
    ensures Less(a, b)
  {
    if k > 0 {
      assert a[0] == a[..k][0] == b[..k][0] == b[0];
      assert a[1..][..k - 1] == a[..k][1..] && b[1..][..k - 1] == b[..k][1..];
      DifferLess(a[1..], b[1..], k - 1);
    }
  }

  /** The order of sort.Strings. */
  lemma LessIs(a: string, b: string)
    ensures Less(a, b) <==> exists k :: 0 <= k <= |a| && k < |b| && a[..k] == b[..k] && (k == |a| || a[k] < b[k])
  {
    if Less(a, b) {
      LessDiffer(a, b);
      var k :| DifferAt(a, b, k);
      assert 0 <= k <= |a| && k < |b| && a[..k] == b[..k] && (k == |a| || a[k] < b[k]);
    }
    if k :| 0 <= k <= |a| && k < |b| && a[..k] == b[..k] && (k == |a| || a[k] < b[k]) {
      DifferLess(a, b, k);
    }
  }

  lemma {:induction false} LessTotal(a: string, b: string)
    ensures a == b || Less(a, b) || Less(b, a)
  {
    if a != [] && b != [] && a[0] == b[0] {
      LessTotal(a[1..], b[1..]);
      assert a == [a[0]] + a[1..] && b == [b[0]] + b[1..];
    }
  }

  lemma {:induction false} LessIrreflexive(a: string)
    ensures !Less(a, a)
  {
    if a != [] { LessIrreflexive(a[1..]); }
  }

  lemma {:induction false} LessTransitive(a: string, b: string, c: string)
    requires Less(a, b) && Less(b, c)
    ensures Less(a, c)
  {
    if a != [] && a[0] == b[0] == c[0] {
      LessTransitive(a[1..], b[1..], c[1..]);
    }
  }

  ghost predicate Sorted(s: seq<string>) {
    forall i, j :: 0 <= i < j < |s| ==> Less(s[i], s[j])
  }

  ghost function Elements(s: seq<string>): set<string> { set x | x in s }

  /** A set of keys has only one sorted listing. */
  lemma {:induction false} SortedUnique(s: seq<string>, t: seq<string>)
    requires Sorted(s) && Sorted(t) && Elements(s) == Elements(t)
    ensures s == t
  {
    assert s != [] ==> s[0] in Elements(s);
    assert t != [] ==> t[0] in Elements(t);
    if s != [] && t != [] {
      FirstIsLeast(s, t[0]);
      FirstIsLeast(t, s[0]);
      if s[0] != t[0] {
        LessTransitive(s[0], t[0], s[0]);
        LessIrreflexive(s[0]);
      }
      TailElements(s);
      TailElements(t);
      SortedUnique(s[1..], t[1..]);
      assert s == [s[0]] + s[1..] && t == [t[0]] + t[1..];
    }
  }

  lemma FirstIsLeast(s: seq<string>, x: string)
    requires Sorted(s) && x in s
    ensures s[0] == x || Less(s[0], x)
  {
  }

  lemma TailElements(s: seq<string>)
    requires Sorted(s) && s != []
    ensures Elements(s[1..]) == Elements(s) - {s[0]}
  {
    forall x | x in s[1..] ensures x != s[0] {
      LessIrreflexive(x);
    }
    forall x | x in s && x != s[0] ensures x in s[1..] {
      var i :| 0 <= i < |s| && s[i] == x;
      assert s[1..][i - 1] == x;
    }
  }

  /** The sorted listing of a set of keys. */
  ghost function SortedListing(keys: set<string>): seq<string> {
    if exists s :: Sorted(s) && Elements(s) == keys
    then var s :| Sorted(s) && Elements(s) == keys; s
    else []
  }

  lemma ListingIs(s: seq<string>, keys: set<string>)
    requires Sorted(s) && Elements(s) == keys
    ensures SortedListing(keys) == s
  {
    var t :| Sorted(t) && Elements(t) == keys && SortedListing(keys) == t;
    SortedUnique(s, t);
  }

  /** Insert a new key into a sorted list. */
  method InsertKey(s: seq<string>, x: string) returns (r: seq<string>)
    requires Sorted(s) && x !in s
    ensures Sorted(r) && Elements(r) == Elements(s) + {x}
  {
    var k := 0;
    while k < |s| && Less(s[k], x)
      invariant 0 <= k <= |s| && forall i :: 0 <= i < k ==> Less(s[i], x)
    {
      k := k + 1;
    }
    r := s[..k] + [x] + s[k..];
    InsertedSorted(s, x, k);
    InsertedElements(s, x, k);
  }

  lemma InsertedSorted(s: seq<string>, x: string, k: nat)
    requires Sorted(s) && x !in s && k <= |s|
    requires forall i :: 0 <= i < k ==> Less(s[i], x)
    requires k < |s| ==> !Less(s[k], x)
    ensures Sorted(s[..k] + [x] + s[k..])
  {
    forall i | k <= i < |s| ensures Less(x, s[i]) {
      LessTotal(x, s[k]);
      if i > k { LessTransitive(x, s[k], s[i]); }
    }
  }

  lemma InsertedElements(s: seq<string>, x: string, k: nat)
    requires k <= |s|
    ensures Elements(s[..k] + [x] + s[k..]) == Elements(s) + {x}
  {
    var r := s[..k] + [x] + s[k..];
    assert r[k] == x;
    forall y | y in s ensures y in r {
      var i :| 0 <= i < |s| && s[i] == y;
      assert r[if i < k then i else i + 1] == y;
    }
  }

  lemma Position(s: seq<string>, x: string) returns (k: nat)
    requires Sorted(s)
    ensures k <= |s| && (forall i :: 0 <= i < k ==> Less(s[i], x)) && (k < |s| ==> !Less(s[k], x))
  {
    k := 0;
    while k < |s| && Less(s[k], x)
      invariant 0 <= k <= |s| && forall i :: 0 <= i < k ==> Less(s[i], x)
    {
      k := k + 1;
    }
  }

  lemma ListingExists(keys: set<string>) returns (s: seq<string>)
    ensures Sorted(s) && Elements(s) == keys
  {
    s := [];
    if keys != {} {
      var x :| x in keys;
      var t := ListingExists(keys - {x});
      assert x !in Elements(t);
      var k := Position(t, x);
      InsertedSorted(t, x, k);
      InsertedElements(t, x, k);
      s := t[..k] + [x] + t[k..];
    }
  }

  /** Every finite set of keys has its sorted listing. */
  lemma ListingOf(keys: set<string>)
    ensures Sorted(SortedListing(keys)) && Elements(SortedListing(keys)) == keys
  {
    var s := ListingExists(keys);
    ListingIs(s, keys);
  }

  /** sort.Strings on a list of distinct keys. */
  method SortStrings(keys: seq<string>) returns (s: seq<string>)
    requires forall i, j :: 0 <= i < j < |keys| ==> keys[i] != keys[j]
    ensures Sorted(s) && Elements(s) == Elements(keys)
  {
    s := [];
    for i := 0 to |keys|
      invariant Sorted(s) && Elements(s) == Elements(keys[..i])
    {
      assert keys[i] !in keys[..i];
      assert keys[i] !in Elements(s);
      s := InsertKey(s, keys[i]);
      assert keys[..i + 1] == keys[..i] + [keys[i]];
    }
    assert keys[..|keys|] == keys;
  }

  /** The keys of a Go map, in whatever order `range` yields, then sorted. */
  method SortedKeysOf<T>(m: map<string, T>) returns (s: seq<string>)
    ensures Sorted(s) && Elements(s) == m.Keys
  {
    var rest, keys: seq<string> := m.Keys, [];
    while rest != {}
      invariant rest <= m.Keys && Elements(keys) == m.Keys - rest
      invariant forall i, j :: 0 <= i < j < |keys| ==> keys[i] != keys[j]
      decreases |rest|
    {
      var k :| k in rest;
      assert k !in Elements(keys);
      assert Elements(keys + [k]) == Elements(keys) + {k};
      keys := keys + [k];
      rest := rest - {k};
    }
    s := SortStrings(keys);
  }
}
