/** Version comparison by nested Python tuples, and the precedence of Semantic Versioning 2.0.0. */
module Versions {
  import opened Common
  import opened Sorting

  // ---------------------------------------------------------------- Python values

  datatype Value = Int(i: int) | Str(s: string) | Tuple(items: seq<Value>)

  /** Python's `<` on such values; `None` is the TypeError of comparing an int with a str or a tuple. */
  function Less(a: Value, b: Value): Option<bool>
    decreases a, 1
  {
    match (a, b)
    case (Int(x), Int(y)) => Some(x < y)
    case (Str(x), Str(y)) => Some(x != y && StringLe(x, y))
    case (Tuple(xs), Tuple(ys)) => LessItems(xs, ys)
    case _ => None
  }

  /** Tuples differ at the first position where their items do; a proper prefix is smaller. */
  function LessItems(xs: seq<Value>, ys: seq<Value>): Option<bool>
    decreases xs, 0
  {
    if ys == [] then Some(false)
    else if xs == [] then Some(true)
    else if xs[0] == ys[0] then LessItems(xs[1..], ys[1..])
    else Less(xs[0], ys[0])
  }

  // ---------------------------------------------------------------- versions

  /** A dot-separated identifier of a pre-release. */
  datatype Identifier = Numeric(n: int) | Alphanumeric(s: string)

  datatype Version = Version(major: nat, minor: nat, patch: nat, pre: Option<seq<Identifier>>)

  function Tag(id: Identifier): Value {
    match id
    case Numeric(n) => Tuple([Int(0), Int(n)])
    case Alphanumeric(s) => Tuple([Int(1), Str(s)])
  }

  function Tags(ids: seq<Identifier>): seq<Value> {
    if ids == [] then [] else [Tag(ids[0])] + Tags(ids[1..])
  }

  function PreTuple(pre: Option<seq<Identifier>>): Value {
    Tuple(if pre.None? then [Int(1)] else [Int(0)] + Tags(pre.value))
  }

  /** The tuple the parser returns. */
  function Key(v: Version): Value {
    Tuple([Int(v.major), Int(v.minor), Int(v.patch), PreTuple(v.pre)])
  }

  // ---------------------------------------------------------------- section 11 of Semantic Versioning 2.0.0

  /** Numeric identifiers compare as numbers, others in ASCII order, and numeric ones come first. */
  predicate IdentifierBefore(x: Identifier, y: Identifier) {
    match (x, y)
    case (Numeric(m), Numeric(n)) => m < n
    case (Alphanumeric(s), Alphanumeric(t)) => s != t && StringLe(s, t)
    case (Numeric(_), Alphanumeric(_)) => true
    case (Alphanumeric(_), Numeric(_)) => false
  }

  /** Left to right until a difference is found; a larger set of fields comes later. */
  predicate IdentifiersBefore(xs: seq<Identifier>, ys: seq<Identifier>) {
    if ys == [] then false
    else if xs == [] then true
    else if xs[0] != ys[0] then IdentifierBefore(xs[0], ys[0])
    else IdentifiersBefore(xs[1..], ys[1..])
  }

  /** Precedence: major, minor and patch in turn; then a pre-release comes before its release. */
  predicate Before(v: Version, w: Version) {
    if v.major != w.major then v.major < w.major
    else if v.minor != w.minor then v.minor < w.minor
    else if v.patch != w.patch then v.patch < w.patch
    else if v.pre.None? then false
    else if w.pre.None? then true
    else IdentifiersBefore(v.pre.value, w.pre.value)
  }

  // ---------------------------------------------------------------- the tuples compare as specified

  lemma {:induction false} SkipEqual(x: Value, xs: seq<Value>, y: Value, ys: seq<Value>)
    ensures LessItems([x] + xs, [y] + ys) == if x == y then LessItems(xs, ys) else Less(x, y)
    ensures LessItems([], []) == Some(false)
  {
    assert ([x] + xs)[1..] == xs && ([y] + ys)[1..] == ys;
  }

  lemma {:induction false} TagOrder(x: Identifier, y: Identifier)
    ensures Tag(x) == Tag(y) <==> x == y
    ensures x != y ==> Less(Tag(x), Tag(y)) == Some(IdentifierBefore(x, y))
  {
    var ka, kb := if x.Numeric? then 0 else 1, if y.Numeric? then 0 else 1;
    var va, vb := if x.Numeric? then Int(x.n) else Str(x.s), if y.Numeric? then Int(y.n) else Str(y.s);
    var a, b := [Int(ka)] + [va], [Int(kb)] + [vb];
    assert Tag(x) == Tuple(a) && Tag(y) == Tuple(b);
    assert a[0] == Int(ka) && a[1] == va && b[0] == Int(kb) && b[1] == vb;
    SkipEqual(Int(ka), [va], Int(kb), [vb]);
    assert [va] == [va] + [] && [vb] == [vb] + [];
    SkipEqual(va, [], vb, []);
  }

  lemma {:induction false} TagsOrder(xs: seq<Identifier>, ys: seq<Identifier>)
    ensures Tags(xs) == Tags(ys) <==> xs == ys
    ensures LessItems(Tags(xs), Tags(ys)) == Some(IdentifiersBefore(xs, ys))
    decreases |xs|
  {
    if xs != [] && ys != [] {
      hide Tag, Less, IdentifierBefore, LessItems;
      TagOrder(xs[0], ys[0]);
      TagsOrder(xs[1..], ys[1..]);
      var x, y := [Tag(xs[0])] + Tags(xs[1..]), [Tag(ys[0])] + Tags(ys[1..]);
      assert x[0] == Tag(xs[0]) && x[1..] == Tags(xs[1..]) && y[0] == Tag(ys[0]) && y[1..] == Tags(ys[1..]);
      SkipEqual(Tag(xs[0]), Tags(xs[1..]), Tag(ys[0]), Tags(ys[1..]));
      assert xs == [xs[0]] + xs[1..] && ys == [ys[0]] + ys[1..];
    }
  }

  lemma {:induction false} PreOrder(x: Option<seq<Identifier>>, y: Option<seq<Identifier>>)
    ensures PreTuple(x) == PreTuple(y) <==> x == y
    ensures Less(PreTuple(x), PreTuple(y))
         == Some(if x.None? then false else if y.None? then true else IdentifiersBefore(x.value, y.value))
  {
    var ka, kb := if x.None? then 1 else 0, if y.None? then 1 else 0;
    var ta, tb := if x.None? then [] else Tags(x.value), if y.None? then [] else Tags(y.value);
    var a, b := [Int(ka)] + ta, [Int(kb)] + tb;
    assert PreTuple(x) == Tuple(a) && PreTuple(y) == Tuple(b);
    assert a[0] == Int(ka) && b[0] == Int(kb) && a[1..] == ta && b[1..] == tb;
    SkipEqual(Int(ka), ta, Int(kb), tb);
    if x.Some? && y.Some? {
      TagsOrder(x.value, y.value);
    }
  }

  /** Comparing parse results never raises, and is semantic-version precedence; equal tuples are equal
      versions. */
  lemma {:induction false} KeyOrderIsPrecedence(v: Version, w: Version)
    ensures Less(Key(v), Key(w)) == Some(Before(v, w))
    ensures Key(v) == Key(w) <==> v == w
  {
    hide PreTuple;
    var a3, b3 := [PreTuple(v.pre)], [PreTuple(w.pre)];
    var a2, b2 := [Int(v.patch)] + a3, [Int(w.patch)] + b3;
    var a1, b1 := [Int(v.minor)] + a2, [Int(w.minor)] + b2;
    var a0, b0 := [Int(v.major)] + a1, [Int(w.major)] + b1;
    assert Key(v) == Tuple(a0) && Key(w) == Tuple(b0);
    assert a0[1] == Int(v.minor) && a0[2] == Int(v.patch) && a0[3] == PreTuple(v.pre) && a0[0] == Int(v.major);
    assert b0[1] == Int(w.minor) && b0[2] == Int(w.patch) && b0[3] == PreTuple(w.pre) && b0[0] == Int(w.major);
    SkipEqual(Int(v.major), a1, Int(w.major), b1);
    SkipEqual(Int(v.minor), a2, Int(w.minor), b2);
    SkipEqual(Int(v.patch), a3, Int(w.patch), b3);
    assert a3 == a3 + [] && [PreTuple(v.pre)] + [] == a3 && [PreTuple(w.pre)] + [] == b3;
    SkipEqual(PreTuple(v.pre), [], PreTuple(w.pre), []);
    PreOrder(v.pre, w.pre);
    if v.pre.Some? {
      IdentifiersTotal(v.pre.value, v.pre.value);
    }
  }

  // ---------------------------------------------------------------- a strict total order

  lemma {:induction false} IdentifierOrder(x: Identifier, y: Identifier, z: Identifier)
    ensures !IdentifierBefore(x, x)
    ensures x == y || IdentifierBefore(x, y) || IdentifierBefore(y, x)
    ensures IdentifierBefore(x, y) && IdentifierBefore(y, z) ==> IdentifierBefore(x, z)
  {
    hide StringLe;
    StringOrder();
  }

  lemma {:induction false} IdentifiersTotal(xs: seq<Identifier>, ys: seq<Identifier>)
    ensures !IdentifiersBefore(xs, xs)
    ensures xs == ys || IdentifiersBefore(xs, ys) || IdentifiersBefore(ys, xs)
    decreases |xs| + |ys|
  {
    hide IdentifierBefore;
    if xs != [] {
      IdentifiersTotal(xs[1..], if ys == [] then [] else ys[1..]);
      if ys != [] {
        IdentifierOrder(xs[0], ys[0], ys[0]);
        assert xs == [xs[0]] + xs[1..] && ys == [ys[0]] + ys[1..];
      }
    }
  }

  lemma {:induction false} IdentifiersTransitive(xs: seq<Identifier>, ys: seq<Identifier>, zs: seq<Identifier>)
    requires IdentifiersBefore(xs, ys) && IdentifiersBefore(ys, zs)
    ensures IdentifiersBefore(xs, zs)
    decreases |xs|
  {
    hide IdentifierBefore;
    if xs != [] {
      IdentifierOrder(xs[0], ys[0], zs[0]);
      IdentifierOrder(xs[0], ys[0], xs[0]);
      if xs[0] == ys[0] == zs[0] {
        IdentifiersTransitive(xs[1..], ys[1..], zs[1..]);
      }
    }
  }

  /** Irreflexive, total and transitive on all parse results. */
  lemma {:induction false} BeforeIsStrictTotalOrder(u: Version, v: Version, w: Version)
    ensures !Before(v, v)
    ensures v == w || Before(v, w) || Before(w, v)
    ensures Before(u, v) && Before(v, w) ==> Before(u, w)
  {
    hide IdentifiersBefore;
    if v.pre.Some? {
      IdentifiersTotal(v.pre.value, if w.pre.Some? then w.pre.value else []);
      if u.pre.Some? && w.pre.Some? && IdentifiersBefore(u.pre.value, v.pre.value)
         && IdentifiersBefore(v.pre.value, w.pre.value) {
        IdentifiersTransitive(u.pre.value, v.pre.value, w.pre.value);
      }
    }
  }

  predicate AtMost(v: Version, w: Version) {
    !Before(w, v)
  }

  lemma {:induction false} AtMostOrder()
    ensures TotalPreorder(AtMost) && Antisymmetric(AtMost)
  {
    hide Before;
    forall v, w ensures AtMost(v, w) || AtMost(w, v) {
      BeforeIsStrictTotalOrder(v, w, v);
      BeforeIsStrictTotalOrder(v, v, w);
    }
    forall v, w | AtMost(v, w) && AtMost(w, v) ensures v == w {
      BeforeIsStrictTotalOrder(v, v, w);
    }
    forall u, v, w | AtMost(u, v) && AtMost(v, w) ensures AtMost(u, w) {
      BeforeIsStrictTotalOrder(v, w, u);
      BeforeIsStrictTotalOrder(v, u, v);
      BeforeIsStrictTotalOrder(w, u, v);
      BeforeIsStrictTotalOrder(w, v, u);
      BeforeIsStrictTotalOrder(u, v, w);
    }
  }
}
