/** Python's `sorted` and the order it gives strings. */
module Sorting {

  // ---------------------------------------------------------------- stable sorting

  ghost predicate TotalPreorder<T(!new)>(le: (T, T) -> bool) {
    && (forall x, y :: le(x, y) || le(y, x))
    && (forall x, y, z :: le(x, y) && le(y, z) ==> le(x, z))
  }

  ghost predicate Antisymmetric<T(!new)>(le: (T, T) -> bool) {
    forall x, y :: le(x, y) && le(y, x) ==> x == y
  }

  ghost predicate SortedBy<T>(s: seq<T>, le: (T, T) -> bool) {
    forall i, j :: 0 <= i < j < |s| ==> le(s[i], s[j])
  }

  ghost predicate Distinct<T>(s: seq<T>) {
    forall i, j :: 0 <= i < j < |s| ==> s[i] != s[j]
  }

  /** Puts `x` in front of the first element it may precede. */
  function Place<T>(x: T, s: seq<T>, le: (T, T) -> bool): seq<T> {
    if s == [] then [x]
    else if le(x, s[0]) then [x] + s
    else [s[0]] + Place(x, s[1..], le)
  }

  /** Stable: elements that compare equal keep their order. */
  function Sort<T>(s: seq<T>, le: (T, T) -> bool): seq<T> {
    if s == [] then [] else Place(s[0], Sort(s[1..], le), le)
  }

  lemma {:induction false} PlaceProperties<T(!new)>(x: T, s: seq<T>, le: (T, T) -> bool)
    requires TotalPreorder(le) && SortedBy(s, le)
    ensures SortedBy(Place(x, s, le), le)
    ensures multiset(Place(x, s, le)) == multiset(s) + multiset{x}
    decreases |s|
  {
    if s == [] {
    } else if le(x, s[0]) {
      assert forall y :: y in s ==> le(x, y);
      hide TotalPreorder;
    } else {
      assert le(s[0], x);
      var rest := Place(x, s[1..], le);
      PlaceProperties(x, s[1..], le);
      hide TotalPreorder, Place;
      assert s == [s[0]] + s[1..];
      forall y | y in rest
        ensures le(s[0], y)
      {
        assert y in multiset(rest);
        assert y == x || y in s[1..];
      }
    }
  }

  lemma {:induction false} SortProperties<T(!new)>(s: seq<T>, le: (T, T) -> bool)
    requires TotalPreorder(le)
    ensures SortedBy(Sort(s, le), le)
    ensures multiset(Sort(s, le)) == multiset(s)
    ensures |Sort(s, le)| == |s|
    decreases |s|
  {
    if s != [] {
      SortProperties(s[1..], le);
      PlaceProperties(s[0], Sort(s[1..], le), le);
      assert s == [s[0]] + s[1..];
    }
    assert |multiset(Sort(s, le))| == |multiset(s)|;
  }

  lemma {:induction false} FirstIsLeast<T(!new)>(s: seq<T>, le: (T, T) -> bool, x: T)
    requires TotalPreorder(le) && SortedBy(s, le) && x in multiset(s)
    ensures s != [] && le(s[0], x)
  {
    var i :| 0 <= i < |s| && s[i] == x;
    assert le(s[0], s[0]);
  }

  lemma {:induction false} WithoutFirst<T>(s: seq<T>)
    requires s != []
    ensures multiset(s[1..]) == multiset(s) - multiset{s[0]}
  {
    assert s == [s[0]] + s[1..];
  }

  lemma {:induction false} SameFirst<T(!new)>(s: seq<T>, t: seq<T>, le: (T, T) -> bool)
    requires TotalPreorder(le) && Antisymmetric(le)
    requires SortedBy(s, le) && SortedBy(t, le) && multiset(s) == multiset(t) && s != []
    ensures t != [] && s[0] == t[0] && multiset(s[1..]) == multiset(t[1..])
  {
    hide TotalPreorder, SortedBy;
    FirstIsLeast(t, le, s[0]);
    FirstIsLeast(s, le, t[0]);
    WithoutFirst(s);
    WithoutFirst(t);
  }

  /** A sorted arrangement is determined by its elements. */
  lemma {:induction false} SortedUnique<T(!new)>(s: seq<T>, t: seq<T>, le: (T, T) -> bool)
    requires TotalPreorder(le) && Antisymmetric(le)
    requires SortedBy(s, le) && SortedBy(t, le) && multiset(s) == multiset(t)
    ensures s == t
    decreases |s|
  {
    assert |multiset(s)| == |multiset(t)|;
    if s != [] {
      SameFirst(s, t, le);
      hide TotalPreorder, Antisymmetric;
      SortedUnique(s[1..], t[1..], le);
      assert s == [s[0]] + s[1..] && t == [t[0]] + t[1..];
    }
  }

  lemma {:induction false} DistinctByMultiset<T>(s: seq<T>, t: seq<T>)
    requires Distinct(s) && multiset(s) == multiset(t)
    ensures Distinct(t)
  {
    forall i, j | 0 <= i < j < |t|
      ensures t[i] != t[j]
    {
      if t[i] == t[j] {
        assert t == t[..i] + [t[i]] + t[i + 1..j] + [t[j]] + t[j + 1..];
        assert multiset(t)[t[i]] >= 2;
        DistinctOccursOnce(s, t[i]);
      }
    }
  }

  lemma {:induction false} DistinctOccursOnce<T>(s: seq<T>, x: T)
    requires Distinct(s)
    ensures multiset(s)[x] == if x in s then 1 else 0
    decreases |s|
  {
    if s != [] {
      DistinctOccursOnce(s[1..], x);
      assert s == [s[0]] + s[1..];
    }
  }

  /** Without repetitions, the members determine the multiset. */
  lemma {:induction false} SameMembers<T>(s: seq<T>, t: seq<T>)
    requires Distinct(s) && Distinct(t) && forall x :: x in s <==> x in t
    ensures multiset(s) == multiset(t)
  {
    forall x ensures multiset(s)[x] == multiset(t)[x] {
      DistinctOccursOnce(s, x);
      DistinctOccursOnce(t, x);
    }
  }

  function Members<T>(s: seq<T>): set<T> {
    set x | x in s
  }

  lemma {:induction false} DistinctCardinality<T>(s: seq<T>)
    requires Distinct(s)
    ensures |Members(s)| == |s|
    decreases |s|
  {
    if s != [] {
      DistinctCardinality(s[1..]);
      assert s == [s[0]] + s[1..];
      assert Members(s) == Members(s[1..]) + {s[0]};
    }
  }

  // ---------------------------------------------------------------- strings

  /** Code-point order. */
  predicate StringLe(a: string, b: string)
    decreases |a|
  {
    if a == "" then true
    else if b == "" then false
    else a[0] < b[0] || (a[0] == b[0] && StringLe(a[1..], b[1..]))
  }

  /** At the first difference the smaller character decides; a proper prefix comes first. */
  ghost predicate ComesFirst(a: string, b: string) {
    exists i :: 0 <= i <= |a| && i <= |b| && a[..i] == b[..i] && (i == |a| || (i < |b| && a[i] < b[i]))
  }

  lemma {:induction false} StringLeIff(a: string, b: string)
    ensures StringLe(a, b) <==> ComesFirst(a, b)
    decreases |a|
  {
    if a == "" {
      assert a[..0] == b[..0];
    } else if b != "" && a[0] == b[0] {
      StringLeIff(a[1..], b[1..]);
      if i :| 0 <= i <= |a[1..]| && i <= |b[1..]| && a[1..][..i] == b[1..][..i]
              && (i == |a[1..]| || (i < |b[1..]| && a[1..][i] < b[1..][i])) {
        assert a[..i + 1] == [a[0]] + a[1..][..i] && b[..i + 1] == [b[0]] + b[1..][..i];
      }
      if i :| 0 <= i <= |a| && i <= |b| && a[..i] == b[..i] && (i == |a| || (i < |b| && a[i] < b[i])) {
        assert i > 0;
        assert a[1..][..i - 1] == a[..i][1..] && b[1..][..i - 1] == b[..i][1..];
      }
    } else if b != "" {
      assert a[..0] == b[..0];
      if i :| 0 <= i <= |a| && i <= |b| && a[..i] == b[..i] && (i == |a| || (i < |b| && a[i] < b[i])) {
        assert i > 0 ==> a[..i][0] == b[..i][0];
      }
    }
  }

  lemma {:induction false} StringLeTotal(a: string, b: string)
    ensures StringLe(a, b) || StringLe(b, a)
    ensures StringLe(a, b) && StringLe(b, a) ==> a == b
    decreases |a|
  {
    if a != "" && b != "" {
      StringLeTotal(a[1..], b[1..]);
      assert a == [a[0]] + a[1..] && b == [b[0]] + b[1..];
    }
  }

  lemma {:induction false} StringLeTransitive(a: string, b: string, c: string)
    requires StringLe(a, b) && StringLe(b, c)
    ensures StringLe(a, c)
    decreases |a|
  {
    if a != "" && a[0] == b[0] == c[0] {
      StringLeTransitive(a[1..], b[1..], c[1..]);
    }
  }

  lemma {:induction false} StringOrder()
    ensures TotalPreorder(StringLe) && Antisymmetric(StringLe)
  {
    forall a, b ensures StringLe(a, b) || StringLe(b, a) { StringLeTotal(a, b); }
    forall a, b | StringLe(a, b) && StringLe(b, a) ensures a == b { StringLeTotal(a, b); }
    forall a, b, c | StringLe(a, b) && StringLe(b, c) ensures StringLe(a, c) { StringLeTransitive(a, b, c); }
  }

  lemma {:induction false} PlaceFresh<T(!new)>(x: T, s: seq<T>, le: (T, T) -> bool)
    requires TotalPreorder(le) && SortedBy(s, le) && Distinct(s) && x !in s
    ensures SortedBy(Place(x, s, le), le) && Distinct(Place(x, s, le))
    ensures forall y :: y in Place(x, s, le) <==> y in s || y == x
  {
    PlaceProperties(x, s, le);
    var t := Place(x, s, le);
    assert Distinct(s + [x]) && multiset(s + [x]) == multiset(t);
    DistinctByMultiset(s + [x], t);
    forall y ensures y in t <==> y in s || y == x {
      assert y in t <==> y in multiset(t);
      assert y in s <==> y in multiset(s);
    }
  }

  /** `sorted` of a set of strings. */
  method SortStrings(s: set<string>) returns (r: seq<string>)
    ensures SortedBy(r, StringLe) && Distinct(r)
    ensures forall x :: x in r <==> x in s
  {
    hide StringLe;
    StringOrder();
    r := [];
    var rest := s;
    while rest != {}
      invariant rest <= s && SortedBy(r, StringLe) && Distinct(r)
      invariant forall x :: x in r <==> x in s && x !in rest
      decreases rest
    {
      var x :| x in rest;
      PlaceFresh(x, r, StringLe);
      r := Place(x, r, StringLe);
      rest := rest - {x};
    }
  }
}
