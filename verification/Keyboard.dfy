/** Edit distance with cheaper substitutions between neighbouring keys. */
module Keyboard {
  import opened Common
  import opened EditDistance

  /** `Unit` is plain Levenshtein. `Keys` charges one half for a substitution between neighbouring
      keys; the case folding and the table of neighbours are whatever the program was given. */
  datatype Metric = Unit | Keys(lower: char -> string, neighbours: map<string, set<string>>)

  predicate Lists(neighbours: map<string, set<string>>, x: string, y: string) {
    x in neighbours && y in neighbours[x]
  }

  predicate Adjacent(m: Metric, x: char, y: char)
    requires m.Keys?
  {
    var xl, yl := m.lower(x), m.lower(y);
    xl != yl && (Lists(m.neighbours, xl, yl) || Lists(m.neighbours, yl, xl))
  }

  function Substitution(m: Metric, x: char, y: char): real {
    if x == y then 0.0
    else if m.Keys? && Adjacent(m, x, y) then 0.5
    else 1.0
  }

  function Weighted(m: Metric, a: string, b: string): real
    decreases |a| + |b|
  {
    if |a| == 0 then |b| as real
    else if |b| == 0 then |a| as real
    else
      MinReal(MinReal(Weighted(m, Init(a), b) + 1.0, Weighted(m, a, Init(b)) + 1.0),
              Weighted(m, Init(a), Init(b)) + Substitution(m, Last(a), Last(b)))
  }

  lemma {:induction false} WeightedSymmetric(m: Metric, a: string, b: string)
    ensures Weighted(m, a, b) == Weighted(m, b, a)
    decreases |a| + |b|
  {
    if |a| > 0 && |b| > 0 {
      WeightedSymmetric(m, Init(a), b);
      WeightedSymmetric(m, a, Init(b));
      WeightedSymmetric(m, Init(a), Init(b));
    }
  }

  /** Insertions and deletions cost one each, so the distance is at least the difference in length. */
  lemma {:induction false} WeightedBounds(m: Metric, a: string, b: string)
    ensures (|a| - |b|) as real <= Weighted(m, a, b)
    ensures (|b| - |a|) as real <= Weighted(m, a, b)
    decreases |a| + |b|
  {
    if |a| > 0 && |b| > 0 {
      WeightedBounds(m, Init(a), b);
      WeightedBounds(m, a, Init(b));
      WeightedBounds(m, Init(a), Init(b));
    }
  }

  lemma {:induction false} UnitIsLev(a: string, b: string)
    ensures Weighted(Unit, a, b) == Lev(a, b) as real
    decreases |a| + |b|
  {
    if |a| > 0 && |b| > 0 {
      UnitIsLev(Init(a), b);
      UnitIsLev(a, Init(b));
      UnitIsLev(Init(a), Init(b));
    }
  }

  /** Neighbouring keys only make names closer. */
  lemma {:induction false} WeightedAtMostLev(m: Metric, a: string, b: string)
    ensures Weighted(m, a, b) <= Lev(a, b) as real
    decreases |a| + |b|
  {
    if |a| > 0 && |b| > 0 {
      WeightedAtMostLev(m, Init(a), b);
      WeightedAtMostLev(m, a, Init(b));
      WeightedAtMostLev(m, Init(a), Init(b));
    }
  }

  lemma {:induction false} WeightedEmpty(m: Metric, s: string)
    ensures Weighted(m, "", s) == |s| as real == Weighted(m, s, "")
  {
  }

  lemma {:induction false} WeightedUnfold(m: Metric, a: string, b: string)
    requires |a| > 0 && |b| > 0
    ensures Weighted(m, a, b)
         == MinReal(MinReal(Weighted(m, Init(a), b) + 1.0, Weighted(m, a, Init(b)) + 1.0),
                    Weighted(m, Init(a), Init(b)) + Substitution(m, Last(a), Last(b)))
  {
  }

  lemma {:induction false} WeightedCell(m: Metric, a: string, b: string, j: nat)
    requires |a| > 0 && j < |b|
    ensures Weighted(m, a, b[..j + 1])
         == MinReal(MinReal(Weighted(m, Init(a), b[..j + 1]) + 1.0, Weighted(m, a, b[..j]) + 1.0),
                    Weighted(m, Init(a), b[..j]) + Substitution(m, Last(a), b[j]))
  {
    assert Init(b[..j + 1]) == b[..j];
  }

  // ---------------------------------------------------------------- it is the least cost of an edit script

  /** What one edit costs: one, or half of it for a substitution whose lowered characters differ and are listed, one
      under the other, in the table. */
  function EditCost(lower: char -> string, table: map<string, set<string>>, e: Edit, s: string): real
    requires Applicable(e, s)
  {
    if !e.Substitute? then 1.0
    else
      var x, y := lower(s[e.at]), lower(e.c);
      if x != y && ((x in table && y in table[x]) || (y in table && x in table[y])) then 0.5 else 1.0
  }

  function ScriptCost(lower: char -> string, table: map<string, set<string>>, script: seq<Edit>, a: string): real {
    if script == [] || !Applicable(script[0], a) then 0.0
    else EditCost(lower, table, script[0], a) + ScriptCost(lower, table, script[1..], Apply(script[0], a))
  }

  /** `d` is the least total cost of the edits that turn `a` into `b`. */
  ghost predicate IsLeastCost(lower: char -> string, table: map<string, set<string>>, a: string, b: string, d: real) {
    && (exists script :: Transforms(script, a, b) && ScriptCost(lower, table, script, a) == d)
    && (forall script :: Transforms(script, a, b) ==> d <= ScriptCost(lower, table, script, a))
  }

  lemma {:induction false} SubstitutionTriangle(m: Metric, x: char, y: char, z: char)
    ensures 0.0 <= Substitution(m, x, z) <= Substitution(m, x, y) + Substitution(m, y, z)
    ensures Substitution(m, x, y) <= 1.0 && Substitution(m, x, x) == 0.0
  {
  }

  lemma {:induction false} WeightedNonNegative(m: Metric, a: string, b: string)
    ensures 0.0 <= Weighted(m, a, b) <= Lev(a, b) as real
    ensures Weighted(m, a, b) <= |a| as real + |b| as real
  {
    hide Weighted, Lev;
    LevBounds(a, b);
    WeightedBounds(m, a, b);
    WeightedAtMostLev(m, a, b);
  }

  lemma {:induction false} WeightedTriangle(m: Metric, a: string, b: string, c: string)
    ensures Weighted(m, a, c) <= Weighted(m, a, b) + Weighted(m, b, c)
    decreases |a| + |b| + |c|
  {
    hide Weighted, Substitution, Lev;
    WeightedBounds(m, a, b);
    WeightedBounds(m, b, c);
    WeightedNonNegative(m, a, c);
    WeightedEmpty(m, a);
    WeightedEmpty(m, b);
    WeightedEmpty(m, c);
    if |a| > 0 && |b| > 0 && |c| > 0 {
      WeightedUnfold(m, a, b);
      WeightedUnfold(m, b, c);
      WeightedUnfold(m, a, c);
      WeightedTriangle(m, Init(a), b, c);
      WeightedTriangle(m, a, b, Init(c));
      WeightedTriangle(m, a, Init(b), c);
      WeightedTriangle(m, a, Init(b), Init(c));
      WeightedTriangle(m, Init(a), Init(b), c);
      WeightedTriangle(m, Init(a), Init(b), Init(c));
      SubstitutionTriangle(m, Last(a), Last(b), Last(c));
      SubstitutionTriangle(m, Last(a), Last(a), Last(b));
      SubstitutionTriangle(m, Last(b), Last(b), Last(c));
    }
  }

  lemma {:induction false} WeightedSame(m: Metric, p: string, q: string, c: char, d: char)
    ensures Weighted(m, p + [c], q + [d]) <= Weighted(m, p, q) + Substitution(m, c, d)
  {
    hide Weighted, Substitution;
    assert Init(p + [c]) == p && Init(q + [d]) == q;
    WeightedUnfold(m, p + [c], q + [d]);
  }

  lemma {:induction false} WeightedSuffix(m: Metric, a: string, b: string, u: string)
    ensures Weighted(m, a + u, b + u) <= Weighted(m, a, b)
    decreases |u|
  {
    hide Weighted, Substitution;
    if |u| == 0 {
      assert a + u == a && b + u == b;
    } else {
      var c := u[0];
      WeightedSame(m, a, b, c, c);
      SubstitutionTriangle(m, c, c, c);
      WeightedSuffix(m, a + [c], b + [c], u[1..]);
      assert a + u == (a + [c]) + u[1..] && b + u == (b + [c]) + u[1..];
    }
  }

  /** The table's prices are those of the programs. */
  lemma {:induction false} SubstitutionCost(lower: char -> string, table: map<string, set<string>>, s: string, i: nat, c: char)
    requires i < |s|
    ensures Substitution(Keys(lower, table), s[i], c) <= EditCost(lower, table, Substitute(i, c), s)
    ensures s[i] != c ==> Substitution(Keys(lower, table), s[i], c) == EditCost(lower, table, Substitute(i, c), s)
    ensures s[i] == c ==> Substitution(Keys(lower, table), s[i], c) == 0.0
  {
  }

  lemma {:induction false} EditMovesByCost(lower: char -> string, table: map<string, set<string>>, e: Edit, s: string)
    requires Applicable(e, s)
    ensures Weighted(Keys(lower, table), s, Apply(e, s)) <= EditCost(lower, table, e, s)
  {
    var m := Keys(lower, table);
    hide Weighted, Lev, Substitution;
    if e.Substitute? {
      var p, u := s[..e.at], s[e.at + 1..];
      assert s == (p + [s[e.at]]) + u && Apply(e, s) == (p + [e.c]) + u;
      WeightedSuffix(m, p + [s[e.at]], p + [e.c], u);
      WeightedSame(m, p, p, s[e.at], e.c);
      LevZeroIffEqual(p, p);
      WeightedNonNegative(m, p, p);
      SubstitutionCost(lower, table, s, e.at, e.c);
    } else {
      EditMovesByOne(e, s);
      WeightedNonNegative(m, s, Apply(e, s));
    }
  }

  lemma {:induction false} NoCheaperScript(lower: char -> string, table: map<string, set<string>>, script: seq<Edit>, a: string, b: string)
    requires Transforms(script, a, b)
    ensures Weighted(Keys(lower, table), a, b) <= ScriptCost(lower, table, script, a)
    decreases |script|
  {
    var m := Keys(lower, table);
    hide Weighted, EditCost, Apply;
    if script == [] {
      LevZeroIffEqual(a, b);
      WeightedNonNegative(m, a, b);
    } else {
      var c := Apply(script[0], a);
      EditMovesByCost(lower, table, script[0], a);
      NoCheaperScript(lower, table, script[1..], c, b);
      WeightedTriangle(m, a, c, b);
    }
  }

  lemma {:induction false} ExtendedCost(lower: char -> string, table: map<string, set<string>>, script: seq<Edit>, a: string, b: string, e: Edit)
    requires Transforms(script, a, b) && Applicable(e, b)
    ensures Transforms(script + [e], a, Apply(e, b))
    ensures ScriptCost(lower, table, script + [e], a) == ScriptCost(lower, table, script, a) + EditCost(lower, table, e, b)
    decreases |script|
  {
    hide EditCost, Apply;
    ExtendScript(script, a, b, e);
    if script != [] {
      ExtendedCost(lower, table, script[1..], Apply(script[0], a), b, e);
      assert (script + [e])[1..] == script[1..] + [e];
    } else {
      assert script + [e] == [e] && [e][1..] == [];
    }
  }

  lemma {:induction false} EditBeforeChar(lower: char -> string, table: map<string, set<string>>, e: Edit, a: string, c: char)
    requires Applicable(e, a)
    ensures Applicable(e, a + [c]) && Apply(e, a + [c]) == Apply(e, a) + [c]
    ensures EditCost(lower, table, e, a + [c]) == EditCost(lower, table, e, a)
  {
  }

  lemma {:induction false} CostBeforeChar(lower: char -> string, table: map<string, set<string>>, script: seq<Edit>, a: string, b: string, c: char)
    requires Transforms(script, a, b)
    ensures Transforms(script, a + [c], b + [c])
    ensures ScriptCost(lower, table, script, a + [c]) == ScriptCost(lower, table, script, a)
    decreases |script|
  {
    ScriptBeforeChar(script, a, b, c);
    if script != [] {
      EditBeforeChar(lower, table, script[0], a, c);
      hide Apply, EditCost;
      CostBeforeChar(lower, table, script[1..], Apply(script[0], a), b, c);
    }
  }

  lemma {:induction false} CheapestScript(lower: char -> string, table: map<string, set<string>>, a: string, b: string) returns (script: seq<Edit>)
    ensures Transforms(script, a, b) && ScriptCost(lower, table, script, a) == Weighted(Keys(lower, table), a, b)
    decreases |a| + |b|
  {
    var m := Keys(lower, table);
    hide Weighted, Substitution, EditCost, Transforms;
    WeightedEmpty(m, a);
    WeightedEmpty(m, b);
    if |a| > 0 && |b| > 0 {
      WeightedUnfold(m, a, b);
    }
    if |a| == 0 && |b| == 0 {
      script := [];
      NothingToDo(lower, table);
    } else if |b| > 0 && (|a| == 0 || Weighted(m, a, b) == Weighted(m, a, Init(b)) + 1.0) {
      WeightedEmpty(m, Init(b));
      script := CheapestScript(lower, table, a, Init(b));
      script := CostWithInsert(lower, table, script, a, b);
    } else if |b| == 0 || Weighted(m, a, b) == Weighted(m, Init(a), b) + 1.0 {
      WeightedEmpty(m, Init(a));
      script := CheapestScript(lower, table, Init(a), b);
      script := CostWithDelete(lower, table, script, a, b);
    } else {
      script := CheapestScript(lower, table, Init(a), Init(b));
      script := CostWithSubstitute(lower, table, script, a, b);
    }
  }

  lemma {:induction false} NothingToDo(lower: char -> string, table: map<string, set<string>>)
    ensures Transforms([], "", "") && ScriptCost(lower, table, [], "") == 0.0
  {
  }

  lemma {:induction false} CostWithInsert(lower: char -> string, table: map<string, set<string>>, script: seq<Edit>, a: string, b: string)
    returns (longer: seq<Edit>)
    requires |b| > 0 && Transforms(script, a, Init(b))
    ensures Transforms(longer, a, b)
    ensures ScriptCost(lower, table, longer, a) == ScriptCost(lower, table, script, a) + 1.0
  {
    var e := Insert(|b| - 1, Last(b));
    ExtendedCost(lower, table, script, a, Init(b), e);
    assert Apply(e, Init(b)) == b;
    longer := script + [e];
  }

  lemma {:induction false} CostWithDelete(lower: char -> string, table: map<string, set<string>>, script: seq<Edit>, a: string, b: string)
    returns (longer: seq<Edit>)
    requires |a| > 0 && Transforms(script, Init(a), b)
    ensures Transforms(longer, a, b)
    ensures ScriptCost(lower, table, longer, a) == ScriptCost(lower, table, script, Init(a)) + 1.0
  {
    var e := Delete(|a| - 1);
    assert Apply(e, a) == Init(a);
    longer := [e] + script;
    assert longer[1..] == script;
  }

  lemma {:induction false} CostWithSubstitute(lower: char -> string, table: map<string, set<string>>, script: seq<Edit>, a: string, b: string)
    returns (longer: seq<Edit>)
    requires |a| > 0 && |b| > 0 && Transforms(script, Init(a), Init(b))
    ensures Transforms(longer, a, b)
    ensures ScriptCost(lower, table, longer, a)
         == ScriptCost(lower, table, script, Init(a)) + Substitution(Keys(lower, table), Last(a), Last(b))
  {
    hide Transforms, ScriptCost, Substitution, EditCost;
    CostBeforeChar(lower, table, script, Init(a), Init(b), Last(a));
    assert Init(a) + [Last(a)] == a && Init(b) + [Last(b)] == b;
    longer := script;
    var before := Init(b) + [Last(a)];
    var e := Substitute(|b| - 1, Last(b));
    SubstitutionCost(lower, table, before, |b| - 1, Last(b));
    if Last(a) != Last(b) {
      ExtendedCost(lower, table, script, a, before, e);
      assert Apply(e, before) == b;
      longer := script + [e];
    }
  }

  /** The keyboard distance is the least total cost of an edit script. */
  lemma {:induction false} KeyboardIsLeastCost(lower: char -> string, table: map<string, set<string>>, a: string, b: string)
    ensures IsLeastCost(lower, table, a, b, Weighted(Keys(lower, table), a, b))
  {
    hide Weighted, ScriptCost, Transforms;
    var script := CheapestScript(lower, table, a, b);
    forall s | Transforms(s, a, b)
      ensures Weighted(Keys(lower, table), a, b) <= ScriptCost(lower, table, s, a)
    {
      NoCheaperScript(lower, table, s, a, b);
    }
  }

  /** Without neighbours it is Levenshtein. */
  lemma {:induction false} NoNeighboursIsLev(lower: char -> string, a: string, b: string)
    ensures Weighted(Keys(lower, map[]), a, b) == Lev(a, b) as real
    decreases |a| + |b|
  {
    if |a| > 0 && |b| > 0 {
      NoNeighboursIsLev(lower, Init(a), b);
      NoNeighboursIsLev(lower, a, Init(b));
      NoNeighboursIsLev(lower, Init(a), Init(b));
    }
  }

  // ---------------------------------------------------------------- the program

  ghost predicate IsWeightedRow(m: Metric, row: seq<real>, a: string, b: string) {
    |row| == |b| + 1 && forall j :: 0 <= j <= |b| ==> row[j] == Weighted(m, a, b[..j])
  }

  lemma {:induction false} FirstWeightedRow(m: Metric, row: seq<real>, b: string)
    requires |row| == |b| + 1 && forall j :: 0 <= j <= |b| ==> row[j] == j as real
    ensures IsWeightedRow(m, row, "", b)
  {
  }

  /** The unbanded two-row program, for either metric. */
  method WeightedDistance(m: Metric, first: string, second: string) returns (d: real)
    ensures d == Weighted(m, first, second)
    ensures m.Keys? ==> IsLeastCost(m.lower, m.neighbours, first, second, d)
    ensures m.Unit? ==> IsEditDistance(first, second, Lev(first, second)) && d == Lev(first, second) as real
  {
    hide Weighted, IsLeastCost, IsEditDistance, Lev;
    UnitIsLev(first, second);
    LevIsEditDistance(first, second);
    if m.Keys? {
      KeyboardIsLeastCost(m.lower, m.neighbours, first, second);
    }
    var a, b := first, second;
    WeightedSymmetric(m, a, b);
    WeightedEmpty(m, a);
    if |a| < |b| {
      a, b := b, a;
      WeightedEmpty(m, a);
    }
    if |b| == 0 {
      return |a| as real;
    }
    var prev := seq(|b| + 1, j requires 0 <= j <= |b| => j as real);
    FirstWeightedRow(m, prev, b);
    for i := 0 to |a|
      invariant IsWeightedRow(m, prev, a[..i], b)
    {
      ghost var p := a[..i + 1];
      assert Init(p) == a[..i];
      WeightedEmpty(m, p);
      var curr := [(i + 1) as real];
      for j := 0 to |b|
        invariant |curr| == j + 1
        invariant forall k :: 0 <= k <= j ==> curr[k] == Weighted(m, p, b[..k])
      {
        WeightedCell(m, p, b, j);
        curr := curr + [MinReal(MinReal(prev[j + 1] + 1.0, curr[j] + 1.0), prev[j] + Substitution(m, a[i], b[j]))];
      }
      prev := curr;
    }
    assert a[..|a|] == a && b[..|b|] == b;
    d := prev[|b|];
  }
}
