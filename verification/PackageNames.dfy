/** Normalised package names (PEP 503, section "Normalized Names"), for ASCII letters. */
module PackageNames {

  predicate IsSeparator(c: char) {
    c == '-' || c == '_' || c == '.'
  }

  function Lower(c: char): char {
    if 'A' <= c <= 'Z' then (c as int - 'A' as int + 'a' as int) as char else c
  }

  function LowerAll(s: string): string {
    if s == "" then "" else [Lower(s[0])] + LowerAll(s[1..])
  }

  /** Skips a run of separators. */
  function SkipRun(s: string): (r: string)
    ensures |r| <= |s|
    ensures r == "" || !IsSeparator(r[0])
  {
    if s != "" && IsSeparator(s[0]) then SkipRun(s[1..]) else s
  }

  /** Every run of separators becomes one dash, then letters are lowered. */
  function Normalize(s: string): string
    decreases |s|
  {
    if s == "" then ""
    else if IsSeparator(s[0]) then "-" + Normalize(SkipRun(s[1..]))
    else [Lower(s[0])] + Normalize(s[1..])
  }

  /** The normal form: no capitals, no separator but single dashes. */
  ghost predicate Canonical(s: string) {
    && (forall i :: 0 <= i < |s| ==> !('A' <= s[i] <= 'Z') && s[i] != '_' && s[i] != '.')
    && (forall i :: 0 < i < |s| ==> !(s[i - 1] == '-' && s[i] == '-'))
  }

  lemma {:induction false} CanonicalIsFixed(s: string)
    requires Canonical(s)
    ensures Normalize(s) == s
    decreases |s|
  {
    if s != "" {
      assert s == [s[0]] + s[1..];
      CanonicalIsFixed(s[1..]);
      if IsSeparator(s[0]) {
        assert SkipRun(s[1..]) == s[1..];
      }
    }
  }

  lemma {:induction false} NormalizeIsCanonical(s: string)
    ensures Canonical(Normalize(s))
    ensures Normalize(s) != "" ==> s != "" && (Normalize(s)[0] == '-' <==> IsSeparator(s[0]))
    decreases |s|
  {
    if s != "" {
      var rest := if IsSeparator(s[0]) then SkipRun(s[1..]) else s[1..];
      NormalizeIsCanonical(rest);
      var t := Normalize(rest);
      assert Normalize(s)[1..] == t;
    }
  }

  /** The normal forms are exactly the names that normalisation leaves alone. */
  lemma {:induction false} CanonicalIff(s: string)
    ensures Canonical(s) <==> Normalize(s) == s
  {
    if Normalize(s) == s {
      NormalizeIsCanonical(s);
    } else if Canonical(s) {
      CanonicalIsFixed(s);
    }
  }

  lemma {:induction false} NormalizeIdempotent(s: string)
    ensures Normalize(Normalize(s)) == Normalize(s)
  {
    NormalizeIsCanonical(s);
    CanonicalIsFixed(Normalize(s));
  }

  /** Equal up to case, and up to which separators stand between the pieces and how many. */
  predicate Equivalent(a: string, b: string)
    decreases |a|
  {
    if a == "" || b == "" then a == b
    else if Separates(a[0]) then Separates(b[0]) && Equivalent(Unseparated(a[1..]), Unseparated(b[1..]))
    else !Separates(b[0]) && SameLetter(a[0], b[0]) && Equivalent(a[1..], b[1..])
  }

  predicate Separates(c: char) {
    c in "-_."
  }

  /** Equal, or a capital letter and its small one. */
  predicate SameLetter(x: char, y: char) {
    || x == y
    || ('A' <= x <= 'Z' && y as int == x as int + 32)
    || ('A' <= y <= 'Z' && x as int == y as int + 32)
  }

  /** Without the separators in front. */
  function Unseparated(s: string): (r: string)
    ensures |r| <= |s|
  {
    if s != "" && Separates(s[0]) then Unseparated(s[1..]) else s
  }

  lemma {:induction false} UnseparatedIsSkipRun(s: string)
    ensures Unseparated(s) == SkipRun(s)
    decreases |s|
  {
    if s != "" {
      UnseparatedIsSkipRun(s[1..]);
      SeparatorsAre(s[0]);
    }
  }

  lemma {:induction false} SeparatorsAre(c: char)
    ensures IsSeparator(c) <==> Separates(c)
  {
    var s := "-_.";
    assert s[0] == '-' && s[1] == '_' && s[2] == '.';
  }

  lemma {:induction false} SameLetterIff(x: char, y: char)
    ensures Lower(x) == Lower(y) <==> SameLetter(x, y)
  {
  }

  /** Two names normalise alike exactly when they are equivalent. */
  lemma {:induction false} NormalizeAlikeIff(a: string, b: string)
    ensures Normalize(a) == Normalize(b) <==> Equivalent(a, b)
    decreases |a|
  {
    if a != "" && b != "" {
      var x := if IsSeparator(a[0]) then SkipRun(a[1..]) else a[1..];
      var y := if IsSeparator(b[0]) then SkipRun(b[1..]) else b[1..];
      SeparatorsAre(a[0]);
      SeparatorsAre(b[0]);
      SameLetterIff(a[0], b[0]);
      UnseparatedIsSkipRun(a[1..]);
      UnseparatedIsSkipRun(b[1..]);
      assert Normalize(a)[1..] == Normalize(x) && Normalize(b)[1..] == Normalize(y);
      assert Normalize(a) == [Normalize(a)[0]] + Normalize(x) && Normalize(b) == [Normalize(b)[0]] + Normalize(y);
      NormalizeAlikeIff(x, y);
    }
  }

  ghost predicate IsRun(r: string) {
    r != "" && forall i :: 0 <= i < |r| ==> IsSeparator(r[i])
  }

  lemma {:induction false} SkipWholeRun(r: string, b: string)
    requires forall i :: 0 <= i < |r| ==> IsSeparator(r[i])
    ensures SkipRun(r + b) == SkipRun(b)
    decreases |r|
  {
    if r == "" {
      assert r + b == b;
    } else {
      assert (r + b)[1..] == r[1..] + b;
      SkipWholeRun(r[1..], b);
    }
  }

  lemma {:induction false} SkipKeepsRun(a: string, r: string, q: string, b: string)
    requires IsRun(r) && IsRun(q)
    ensures Normalize(SkipRun(a + r + b)) == Normalize(SkipRun(a + q + b))
    decreases |a|, 1
  {
    if a == "" {
      SkipWholeRun(r, b);
      SkipWholeRun(q, b);
      assert a + r == r && a + q == q;
    } else if IsSeparator(a[0]) {
      assert (a + r + b)[1..] == a[1..] + r + b && (a + q + b)[1..] == a[1..] + q + b;
      SkipKeepsRun(a[1..], r, q, b);
    } else {
      RunsAreInterchangeable(a, r, q, b);
    }
  }

  /** Any separators may stand for any others. */
  lemma {:induction false} RunsAreInterchangeable(a: string, r: string, q: string, b: string)
    requires IsRun(r) && IsRun(q)
    ensures Normalize(a + r + b) == Normalize(a + q + b)
    decreases |a|, 0
  {
    if a == "" {
      assert a + r == r && a + q == q;
      assert (r + b)[1..] == r[1..] + b && (q + b)[1..] == q[1..] + b;
      SkipWholeRun(r[1..], b);
      SkipWholeRun(q[1..], b);
    } else {
      assert (a + r + b)[1..] == a[1..] + r + b && (a + q + b)[1..] == a[1..] + q + b;
      if IsSeparator(a[0]) {
        SkipKeepsRun(a[1..], r, q, b);
      } else {
        RunsAreInterchangeable(a[1..], r, q, b);
      }
    }
  }

  lemma {:induction false} SkipRunLower(s: string)
    ensures SkipRun(LowerAll(s)) == LowerAll(SkipRun(s))
    decreases |s|
  {
    if s != "" {
      assert LowerAll(s)[1..] == LowerAll(s[1..]);
      SkipRunLower(s[1..]);
    }
  }

  /** Case does not matter. */
  lemma {:induction false} CaseDoesNotMatter(s: string)
    ensures Normalize(LowerAll(s)) == Normalize(s)
    decreases |s|
  {
    if s != "" {
      assert LowerAll(s)[1..] == LowerAll(s[1..]);
      if IsSeparator(s[0]) {
        SkipRunLower(s[1..]);
        CaseDoesNotMatter(SkipRun(s[1..]));
      } else {
        CaseDoesNotMatter(s[1..]);
      }
    }
  }
}
