/** Levenshtein distance: the two dynamic programs of the code base, and what the number they
    return means in terms of single-character edits. */
module EditDistance {

  // ---------------------------------------------------------------- edit scripts

  /** One single-character edit of a string. */
  datatype Edit =
    | Insert(at: nat, c: char)
    | Delete(at: nat)
    | Substitute(at: nat, c: char)

  predicate Applicable(e: Edit, s: string) {
    match e
    case Insert(i, _) => i <= |s|
    case Delete(i) => i < |s|
    case Substitute(i, _) => i < |s|
  }

  function Apply(e: Edit, s: string): string
    requires Applicable(e, s)
  {
    match e
    case Insert(i, c) => s[..i] + [c] + s[i..]
    case Delete(i) => s[..i] + s[i + 1..]
    case Substitute(i, c) => s[..i] + [c] + s[i + 1..]
  }

  /** The script is a sequence of edits, each applied to the result of the one before it. */
  predicate Transforms(script: seq<Edit>, a: string, b: string) {
    if script == [] then a == b
    else Applicable(script[0], a) && Transforms(script[1..], Apply(script[0], a), b)
  }

  /** `d` is the least number of single-character edits that turn `a` into `b`. */
  ghost predicate IsEditDistance(a: string, b: string, d: int) {
    && (exists script :: Transforms(script, a, b) && |script| == d)
    && (forall script :: Transforms(script, a, b) ==> d <= |script|)
  }

  // ---------------------------------------------------------------- the recurrence

  function Min(x: int, y: int): int {
    if y < x then y else x
  }

  function Mismatch(x: char, y: char): nat {
    if x == y then 0 else 1
  }

  function Init(s: string): string
    requires |s| > 0
  {
    s[..|s| - 1]
  }

  function Last(s: string): char
    requires |s| > 0
  {
    s[|s| - 1]
  }

  /** The textbook recurrence, on prefixes. */
  function Lev(a: string, b: string): nat
    decreases |a| + |b|
  {
    if |a| == 0 then |b|
    else if |b| == 0 then |a|
    else
      Min(Min(Lev(Init(a), b) + 1, Lev(a, Init(b)) + 1), Lev(Init(a), Init(b)) + Mismatch(Last(a), Last(b)))
  }

  lemma {:induction false} LevUnfold(a: string, b: string)
    requires |a| > 0 && |b| > 0
    ensures Lev(a, b)
         == Min(Min(Lev(Init(a), b) + 1, Lev(a, Init(b)) + 1), Lev(Init(a), Init(b)) + Mismatch(Last(a), Last(b)))
  {
  }

  lemma {:induction false} LevEmpty(s: string)
    ensures Lev("", s) == |s| == Lev(s, "")
  {
  }

  // ---------------------------------------------------------------- it is a metric

  lemma {:induction false} LevSymmetric(a: string, b: string)
    ensures Lev(a, b) == Lev(b, a)
    decreases |a| + |b|
  {
    if |a| > 0 && |b| > 0 {
      LevSymmetric(Init(a), b);
      LevSymmetric(a, Init(b));
      LevSymmetric(Init(a), Init(b));
    }
  }

  lemma {:induction false} LevBounds(a: string, b: string)
    ensures |a| - |b| <= Lev(a, b) && |b| - |a| <= Lev(a, b)
    ensures Lev(a, b) <= |a| + |b|
    decreases |a| + |b|
  {
    if |a| > 0 && |b| > 0 {
      LevBounds(Init(a), b);
      LevBounds(a, Init(b));
      LevBounds(Init(a), Init(b));
    }
  }

  lemma {:induction false} LevZeroIffEqual(a: string, b: string)
    ensures Lev(a, b) == 0 <==> a == b
    decreases |a| + |b|
  {
    hide Lev;
    if |a| == 0 {
      LevEmpty(b);
    } else if |b| == 0 {
      LevEmpty(a);
    } else {
      LevUnfold(a, b);
      LevZeroIffEqual(Init(a), Init(b));
    }
  }

  lemma {:induction false} LevTriangle(a: string, b: string, c: string)
    ensures Lev(a, c) <= Lev(a, b) + Lev(b, c)
    decreases |a| + |b| + |c|
  {
    hide Lev;
    LevBounds(a, b);
    LevBounds(b, c);
    LevBounds(a, c);
    LevEmpty(a);
    LevEmpty(b);
    LevEmpty(c);
    if |a| > 0 && |b| > 0 && |c| > 0 {
      LevUnfold(a, b);
      LevUnfold(b, c);
      LevUnfold(a, c);
      LevTriangle(Init(a), b, c);
      LevTriangle(a, b, Init(c));
      LevTriangle(a, Init(b), c);
      LevTriangle(a, Init(b), Init(c));
      LevTriangle(Init(a), Init(b), c);
      LevTriangle(Init(a), Init(b), Init(c));
    }
  }

  // ---------------------------------------------------------------- it counts edits

  lemma {:induction false} CommonSuffix(a: string, b: string, u: string)
    ensures Lev(a + u, b + u) <= Lev(a, b)
    decreases |u|
  {
    if |u| == 0 {
      assert a + u == a && b + u == b;
    } else {
      CommonSuffix(a, b, Init(u));
      assert Init(a + u) == a + Init(u) && Init(b + u) == b + Init(u);
    }
  }

  lemma {:induction false} LastCharacter(p: string, c: char, d: char)
    ensures Lev(p, p + [c]) <= 1 && Lev(p + [c], p) <= 1 && Lev(p + [c], p + [d]) <= 1
  {
    hide Lev;
    assert Init(p + [c]) == p && Init(p + [d]) == p;
    LevZeroIffEqual(p, p);
    LevSymmetric(p, p + [c]);
    LevUnfold(p + [c], p + [d]);
    LevEmpty([c]);
    if p == "" {
      assert p + [c] == [c];
    } else {
      LevUnfold(p, p + [c]);
    }
  }

  /** A single edit moves a string by at most one. */
  lemma {:induction false} EditMovesByOne(e: Edit, s: string)
    requires Applicable(e, s)
    ensures Lev(s, Apply(e, s)) <= 1
  {
    hide Lev;
    var i := e.at;
    var p := s[..i];
    match e {
      case Insert(_, c) =>
        LastCharacter(p, c, c);
        CommonSuffix(p, p + [c], s[i..]);
        assert s == p + s[i..];
      case Delete(_) =>
        LastCharacter(p, s[i], s[i]);
        CommonSuffix(p + [s[i]], p, s[i + 1..]);
        assert s == (p + [s[i]]) + s[i + 1..];
      case Substitute(_, c) =>
        LastCharacter(p, s[i], c);
        CommonSuffix(p + [s[i]], p + [c], s[i + 1..]);
        assert s == (p + [s[i]]) + s[i + 1..];
    }
  }

  lemma {:induction false} NoShorterScript(script: seq<Edit>, a: string, b: string)
    requires Transforms(script, a, b)
    ensures Lev(a, b) <= |script|
    decreases |script|
  {
    if script == [] {
      LevZeroIffEqual(a, b);
    } else {
      var m := Apply(script[0], a);
      EditMovesByOne(script[0], a);
      NoShorterScript(script[1..], m, b);
      LevTriangle(a, m, b);
    }
  }

  lemma {:induction false} ExtendScript(script: seq<Edit>, a: string, b: string, e: Edit)
    requires Transforms(script, a, b) && Applicable(e, b)
    ensures Transforms(script + [e], a, Apply(e, b))
    decreases |script|
  {
    if script != [] {
      ExtendScript(script[1..], Apply(script[0], a), b, e);
      assert (script + [e])[1..] == script[1..] + [e];
    }
  }

  /** A script can be run in front of an unchanged last character. */
  lemma {:induction false} ScriptBeforeChar(script: seq<Edit>, a: string, b: string, c: char)
    requires Transforms(script, a, b)
    ensures Transforms(script, a + [c], b + [c])
    decreases |script|
  {
    if script != [] {
      assert Apply(script[0], a + [c]) == Apply(script[0], a) + [c];
      ScriptBeforeChar(script[1..], Apply(script[0], a), b, c);
    }
  }

  lemma {:induction false} ScriptWithInsert(script: seq<Edit>, a: string, b: string) returns (longer: seq<Edit>)
    requires |b| > 0 && Transforms(script, a, Init(b))
    ensures Transforms(longer, a, b) && |longer| == |script| + 1
  {
    var e := Insert(|b| - 1, Last(b));
    ExtendScript(script, a, Init(b), e);
    assert Apply(e, Init(b)) == b;
    longer := script + [e];
  }

  lemma {:induction false} ScriptWithDelete(script: seq<Edit>, a: string, b: string) returns (longer: seq<Edit>)
    requires |a| > 0 && Transforms(script, Init(a), b)
    ensures Transforms(longer, a, b) && |longer| == |script| + 1
  {
    var e := Delete(|a| - 1);
    assert Apply(e, a) == Init(a);
    longer := [e] + script;
    assert longer[1..] == script;
  }

  lemma {:induction false} ScriptWithSubstitute(script: seq<Edit>, a: string, b: string) returns (longer: seq<Edit>)
    requires |a| > 0 && |b| > 0 && Transforms(script, Init(a), Init(b))
    ensures Transforms(longer, a, b) && |longer| == |script| + Mismatch(Last(a), Last(b))
  {
    hide Transforms;
    ScriptBeforeChar(script, Init(a), Init(b), Last(a));
    assert Init(a) + [Last(a)] == a && Init(b) + [Last(b)] == b;
    longer := script;
    if Last(a) != Last(b) {
      var e := Substitute(|b| - 1, Last(b));
      ExtendScript(script, a, Init(b) + [Last(a)], e);
      assert Apply(e, Init(b) + [Last(a)]) == b;
      longer := script + [e];
    }
  }

  lemma {:induction false} SomeScript(a: string, b: string) returns (script: seq<Edit>)
    ensures Transforms(script, a, b) && |script| == Lev(a, b)
    decreases |a| + |b|
  {
    if |a| == 0 && |b| == 0 {
      script := [];
    } else if |b| > 0 && (|a| == 0 || Lev(a, b) == Lev(a, Init(b)) + 1) {
      script := SomeScript(a, Init(b));
      script := ScriptWithInsert(script, a, b);
    } else if |b| == 0 || Lev(a, b) == Lev(Init(a), b) + 1 {
      script := SomeScript(Init(a), b);
      script := ScriptWithDelete(script, a, b);
    } else {
      script := SomeScript(Init(a), Init(b));
      script := ScriptWithSubstitute(script, a, b);
    }
  }

  /** The recurrence is the least number of edits. */
  lemma {:induction false} LevIsEditDistance(a: string, b: string)
    ensures IsEditDistance(a, b, Lev(a, b))
  {
    var script := SomeScript(a, b);
    forall s | Transforms(s, a, b)
      ensures Lev(a, b) <= |s|
    {
      NoShorterScript(s, a, b);
    }
  }

  // ---------------------------------------------------------------- the programs

  /** `row` is row `a` of the table for `b`. */
  ghost predicate IsRow(row: seq<int>, a: string, b: string) {
    |row| == |b| + 1 && forall j :: 0 <= j <= |b| ==> row[j] == Lev(a, b[..j])
  }

  lemma {:induction false} FirstRow(row: seq<int>, b: string)
    requires |row| == |b| + 1 && forall j :: 0 <= j <= |b| ==> row[j] == j
    ensures IsRow(row, "", b)
  {
  }

  lemma {:induction false} LevCell(a: string, i: nat, b: string, j: nat)
    requires i < |a| && j < |b|
    ensures Lev(a[..i + 1], b[..j + 1])
         == Min(Min(Lev(a[..i], b[..j + 1]) + 1, Lev(a[..i + 1], b[..j]) + 1),
                Lev(a[..i], b[..j]) + Mismatch(a[i], b[j]))
  {
    hide Lev;
    LevUnfold(a[..i + 1], b[..j + 1]);
    assert Init(a[..i + 1]) == a[..i] && Init(b[..j + 1]) == b[..j];
  }

  /** The two-row program. The shorter string indexes the rows, whichever argument it was. */
  method Distance(first: string, second: string) returns (d: int)
    ensures d == Lev(first, second)
    ensures IsEditDistance(first, second, d)
  {
    hide Lev;
    var a, b := first, second;
    if |a| < |b| {
      a, b := b, a;
    }
    var prev := seq(|b| + 1, j => j);
    FirstRow(prev, b);
    for i := 0 to |a|
      invariant IsRow(prev, a[..i], b)
    {
      var curr := [i + 1];
      LevEmpty(a[..i + 1]);
      for j := 0 to |b|
        invariant |curr| == j + 1
        invariant forall k :: 0 <= k <= j ==> curr[k] == Lev(a[..i + 1], b[..k])
      {
        LevCell(a, i, b, j);
        curr := curr + [Min(Min(prev[j + 1] + 1, curr[j] + 1), prev[j] + Mismatch(a[i], b[j]))];
      }
      prev := curr;
    }
    d := prev[|b|];
    assert a[..|a|] == a && b[..|b|] == b;
    LevSymmetric(first, second);
    LevIsEditDistance(first, second);
  }

  /** A lower bound on a whole row is a lower bound on everything reached from it. */
  lemma {:induction false} RowMinimumIsFinal(a: string, i: nat, b: string, low: int)
    requires i <= |a|
    requires forall j :: 0 <= j <= |b| ==> low <= Lev(a[..i], b[..j])
    ensures low <= Lev(a, b)
    decreases |a| - i
  {
    if i == |a| {
      assert a[..i] == a && b[..|b|] == b;
    } else {
      RowMinimumStep(a, i, b, low, |b|);
      RowMinimumIsFinal(a, i + 1, b, low);
    }
  }

  lemma {:induction false} RowMinimumStep(a: string, i: nat, b: string, low: int, n: nat)
    requires i < |a| && n <= |b|
    requires forall j :: 0 <= j <= |b| ==> low <= Lev(a[..i], b[..j])
    ensures forall j :: 0 <= j <= n ==> low <= Lev(a[..i + 1], b[..j])
    decreases n
  {
    hide Lev;
    if n == 0 {
      LevEmpty(a[..i]);
      LevEmpty(a[..i + 1]);
      assert b[..0] == "" && low <= Lev(a[..i], b[..0]);
    } else {
      RowMinimumStep(a, i, b, low, n - 1);
      LevCell(a, i, b, n - 1);
      assert low <= Lev(a[..i], b[..n]) && low <= Lev(a[..i], b[..n - 1]);
    }
  }

  /** The distance when it is at most `limit`, and `limit + 1` when it is more. */
  function Capped(d: int, limit: int): int {
    if d <= limit then d else limit + 1
  }

  /** The cut-off program: it stops as soon as a whole row exceeds the limit. */
  method DistanceWithin(a: string, b: string, limit: int) returns (d: int)
    ensures d == Capped(Lev(a, b), limit)
  {
    hide Lev;
    var la, lb := |a|, |b|;
    LevBounds(a, b);
    if la - lb > limit || lb - la > limit {
      return limit + 1;
    }
    if la == 0 {
      return if lb <= limit then lb else limit + 1;
    }
    var prev := seq(lb + 1, j => j);
    FirstRow(prev, b);
    for i := 1 to la + 1
      invariant IsRow(prev, a[..i - 1], b)
    {
      var cur := [i];
      LevEmpty(a[..i]);
      var rowMin := i;
      for j := 1 to lb + 1
        invariant |cur| == j
        invariant forall k :: 0 <= k < j ==> cur[k] == Lev(a[..i], b[..k])
        invariant forall k :: 0 <= k < j ==> rowMin <= Lev(a[..i], b[..k])
      {
        LevCell(a, i - 1, b, j - 1);
        var val := prev[j] + 1;
        var deletion := cur[j - 1] + 1;
        if deletion < val {
          val := deletion;
        }
        var substitution := if a[i - 1] == b[j - 1] then prev[j - 1] else prev[j - 1] + 1;
        if substitution < val {
          val := substitution;
        }
        cur := cur + [val];
        if val < rowMin {
          rowMin := val;
        }
      }
      if rowMin > limit {
        RowMinimumIsFinal(a, i, b, rowMin);
        return limit + 1;
      }
      prev := cur;
    }
    assert a[..la] == a && b[..lb] == b;
    d := if prev[lb] <= limit then prev[lb] else limit + 1;
  }
}
