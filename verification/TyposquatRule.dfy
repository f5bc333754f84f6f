/** The typosquat rules on top of the index: which dependencies are looked up, and whom a finding names. */
module TyposquatRule {
  import opened Common
  import opened Keyboard
  import opened Sorting
  import opened DeleteIndex
  import opened TrieSearch
  import opened CorpusIndex

  const MAX_DISTANCE: real := 2.0

  /** The rule shared by six ecosystems, with its configuration, and the npm rule. `compare` is the name that
      is looked up for a dependency: its short name or its normalised name. */
  datatype Rule =
    | Standard(known: set<string>, minLength: int, metric: Metric, compare: string -> string)
    | Npm(known: set<string>)

  /** The closest match, and every name the message mentions. */
  datatype Finding = Finding(package: string, compared: string, best: Match, named: seq<string>)

  function Compared(rule: Rule, dep: string): string {
    if rule.Npm? then dep else rule.compare(dep)
  }

  function MetricOf(rule: Rule): Metric {
    if rule.Npm? then Unit else rule.metric
  }

  /** A name known as legitimate or in the corpus is no typo; the shared rule also wants a minimal length. */
  predicate LooksUp(rule: Rule, corpus: set<string>, q: string) {
    q !in rule.known && q !in corpus && (rule.Standard? ==> q != "" && |q| >= rule.minLength)
  }

  // ---------------------------------------------------------------- what a finding says

  /** The index lists the match for the query. */
  ghost predicate Listed(corpus: set<string>, priority: set<string>, m: Metric, q: string, x: Match) {
    && !(q != "" && q[0] == '@') && IsMatch(corpus, m, q, 2.0, x)
    && if q == "" then x.name in priority && x.dist <= 1.0 else Admitted(priority, q, x)
  }

  /** No listed match comes before it. */
  ghost predicate Foremost(corpus: set<string>, priority: set<string>, m: Metric, q: string, x: Match) {
    forall y :: Listed(corpus, priority, m, q, y) ==> x.dist < y.dist || (x.dist == y.dist && StringLe(x.name, y.name))
  }

  /** All listed matches, in order. */
  ghost predicate Listing(corpus: set<string>, priority: set<string>, m: Metric, q: string, xs: seq<Match>) {
    SortedBy(xs, MatchLe) && Distinct(xs) && forall x :: x in xs <==> Listed(corpus, priority, m, q, x)
  }

  function NamesOf(xs: seq<Match>): seq<string> {
    seq(|xs|, i requires 0 <= i < |xs| => xs[i].name)
  }

  ghost predicate IsFinding(rule: Rule, corpus: set<string>, priority: set<string>, f: Finding) {
    var m := if rule.Npm? then Unit else rule.metric;
    && f.compared == (if rule.Npm? then f.package else rule.compare(f.package)) && LooksUp(rule, corpus, f.compared)
    && Listed(corpus, priority, m, f.compared, f.best) && Foremost(corpus, priority, m, f.compared, f.best)
    && if rule.Npm? then exists xs :: Listing(corpus, priority, m, f.compared, xs) && f.named == NamesOf(xs)
       else f.named == [f.best.name]
  }

  /** The rule has a finding for the dependency that mentions `genuine`. */
  ghost predicate Names(rule: Rule, corpus: set<string>, priority: set<string>, dep: string, genuine: string) {
    exists f: Finding :: f.package == dep && IsFinding(rule, corpus, priority, f) && genuine in f.named
  }

  // ---------------------------------------------------------------- the index never raises here

  /** An answer of the index is the listing; the IndexError of the empty query needs a limit of four. */
  lemma {:induction false} AnswerIsListing(r: Option<seq<Match>>, corpus: set<string>, priority: set<string>, m: Metric, q: string)
    requires IsAnswer(r, corpus, priority, m, q, MAX_DISTANCE)
    ensures r.Some? && Listing(corpus, priority, m, q, r.value)
  {
    hide IsMatch, Admitted, MatchLe, Crashes;
    CrashesIff(corpus, priority, m, q, MAX_DISTANCE);
  }

  lemma {:induction false} ListingUnique(xs: seq<Match>, ys: seq<Match>, corpus: set<string>, priority: set<string>, m: Metric, q: string)
    requires Listing(corpus, priority, m, q, xs) && Listing(corpus, priority, m, q, ys)
    ensures xs == ys
  {
    hide Listed, MatchLe, SortedBy, TotalPreorder, Antisymmetric;
    MatchOrder();
    SameMembers(xs, ys);
    SortedUnique(xs, ys, MatchLe);
  }

  lemma {:induction false} FirstIsForemost(xs: seq<Match>, corpus: set<string>, priority: set<string>, m: Metric, q: string)
    requires Listing(corpus, priority, m, q, xs) && xs != []
    ensures Listed(corpus, priority, m, q, xs[0]) && Foremost(corpus, priority, m, q, xs[0])
  {
    hide Listed, StringLe, TotalPreorder;
    MatchOrder();
    forall y | Listed(corpus, priority, m, q, y)
      ensures xs[0].dist < y.dist || (xs[0].dist == y.dist && StringLe(xs[0].name, y.name))
    {
      assert y in multiset(xs);
      FirstIsLeast(xs, MatchLe, y);
    }
  }

  // ---------------------------------------------------------------- the program

  /** Drops the matches of that name; where there is none, nothing changes. */
  method Without(xs: seq<Match>, name: string) returns (out: seq<Match>)
    ensures forall x :: x in out <==> x in xs && x.name != name
    ensures (forall x :: x in xs ==> x.name != name) ==> out == xs
  {
    out := [];
    for i := 0 to |xs|
      invariant forall x :: x in out <==> x in xs[..i] && x.name != name
      invariant (forall x :: x in xs ==> x.name != name) ==> out == xs[..i]
    {
      assert xs[..i + 1] == xs[..i] + [xs[i]];
      if xs[i].name != name {
        out := out + [xs[i]];
      }
    }
    assert xs[..|xs|] == xs;
  }

  method CheckAgainstIndex(index: CorpusIndex, name: string, maxd: real, m: Metric) returns (r: Option<seq<Match>>)
    requires index.Valid()
    modifies index`deleteIndex, index`deleteCursor
    ensures index.Valid()
    ensures IsAnswer(r, Elements(index.names), index.priorityNames, m, name, maxd)
  {
    hide Indexes, Bucketed, SortedBy, Distinct;
    r := index.NearMatches(name, maxd, m);
    if r.Some? {
      var out := Without(r.value, name);
      r := Some(out);
    }
  }

  /** One dependency: at most one finding, and exactly the one the specification allows. */
  method Inspect(index: CorpusIndex, rule: Rule, dep: string) returns (fs: seq<Finding>)
    requires index.Valid()
    modifies index`deleteIndex, index`deleteCursor
    ensures index.Valid() && |fs| <= 1
    ensures forall f :: f in fs <==> f.package == dep && IsFinding(rule, Elements(index.names), index.priorityNames, f)
  {
    hide Foremost, IsAnswer, NamesOf, Indexes, Bucketed, SortedBy, Distinct;
    var q := Compared(rule, dep);
    if q in rule.known || (rule.Standard? && (q == "" || |q| < rule.minLength)) || q in index.names {
      return [];
    }
    ghost var corpus, priority := Elements(index.names), index.priorityNames;
    var matches := CheckAgainstIndex(index, q, MAX_DISTANCE, MetricOf(rule));
    AnswerIsListing(matches, corpus, priority, MetricOf(rule), q);
    if matches.value == [] {
      fs := [];
      assert forall x :: !Listed(corpus, priority, MetricOf(rule), q, x);
    } else {
      var named := if rule.Npm? then NamesOf(matches.value) else [matches.value[0].name];
      var f := Finding(dep, q, matches.value[0], named);
      FirstIsForemost(matches.value, corpus, priority, MetricOf(rule), q);
      fs := [f];
      forall g: Finding | g.package == dep && IsFinding(rule, corpus, priority, g)
        ensures g == f
      {
        FindingUnique(rule, corpus, priority, f, g);
      }
    }
  }

  lemma {:induction false} FindingUnique(rule: Rule, corpus: set<string>, priority: set<string>, f: Finding, g: Finding)
    requires IsFinding(rule, corpus, priority, f) && IsFinding(rule, corpus, priority, g) && f.package == g.package
    ensures f == g
  {
    hide Listed, Listing, StringLe, LooksUp, NamesOf;
    StringLeTotal(f.best.name, g.best.name);
    assert f.best == g.best;
    if rule.Npm? {
      var m := MetricOf(rule);
      var xs :| Listing(corpus, priority, m, f.compared, xs) && f.named == NamesOf(xs);
      var ys :| Listing(corpus, priority, m, g.compared, ys) && g.named == NamesOf(ys);
      ListingUnique(xs, ys, corpus, priority, m, f.compared);
    }
  }

  /** At most one finding per package, by package name. */
  ghost predicate ByPackage(fs: seq<Finding>) {
    forall i, j :: 0 <= i < j < |fs| ==> fs[i].package != fs[j].package && StringLe(fs[i].package, fs[j].package)
  }

  /** The dependencies in order, each inspected once. */
  method DetectDependencies(index: CorpusIndex, rule: Rule, deps: set<string>) returns (fs: seq<Finding>)
    requires index.Valid()
    modifies index`deleteIndex, index`deleteCursor
    ensures index.Valid() && ByPackage(fs)
    ensures forall f :: f in fs <==> f.package in deps && IsFinding(rule, Elements(index.names), index.priorityNames, f)
  {
    hide IsFinding, StringLe, Indexes, Bucketed;
    var names := SortStrings(deps);
    fs := [];
    for i := 0 to |names|
      invariant index.Valid() && ByPackage(fs)
      invariant forall f :: f in fs <==> f.package in names[..i] && IsFinding(rule, Elements(index.names), index.priorityNames, f)
    {
      var more := Inspect(index, rule, names[i]);
      assert names[..i + 1] == names[..i] + [names[i]];
      fs := fs + more;
    }
    assert names[..|names|] == names;
  }

  /** npm first looks at the package's own name, unless it is empty or scoped, and then at its dependencies. */
  method DetectNpm(index: CorpusIndex, known: set<string>, own: string, deps: set<string>)
    returns (ofPackage: seq<Finding>, ofDependencies: seq<Finding>)
    requires index.Valid()
    modifies index`deleteIndex, index`deleteCursor
    ensures index.Valid() && |ofPackage| <= 1 && ByPackage(ofDependencies)
    ensures forall f :: f in ofPackage <==>
              own != "" && f.package == own && IsFinding(Npm(known), Elements(index.names), index.priorityNames, f)
    ensures forall f :: f in ofDependencies <==>
              f.package in deps && IsFinding(Npm(known), Elements(index.names), index.priorityNames, f)
  {
    ofPackage := [];
    if own != "" && own[0] != '@' && own !in index.names && own !in known {
      ofPackage := Inspect(index, Npm(known), own);
    } else {
      hide Admitted, IsMatch, Foremost, Listing;
    }
    hide IsFinding;
    ofDependencies := DetectDependencies(index, Npm(known), deps);
  }

  // ---------------------------------------------------------------- whom a finding names

  lemma {:induction false} SortedListing(xs: set<Match>) returns (ys: seq<Match>)
    ensures SortedBy(ys, MatchLe) && Distinct(ys) && forall x :: x in ys <==> x in xs
    decreases xs
  {
    if xs == {} {
      ys := [];
    } else {
      var x :| x in xs;
      var less := SortedListing(xs - {x});
      hide MatchLe, TotalPreorder;
      MatchOrder();
      PlaceFresh(x, less, MatchLe);
      ys := Place(x, less, MatchLe);
    }
  }

  lemma {:induction false} ListingExists(corpus: set<string>, priority: set<string>, m: Metric, q: string) returns (xs: seq<Match>)
    ensures Listing(corpus, priority, m, q, xs)
  {
    hide Weighted, MatchLe, Admitted;
    var all := set n | n in corpus && Listed(corpus, priority, m, q, Match(n, Weighted(m, n, q))) :: Match(n, Weighted(m, n, q));
    forall x
      ensures x in all <==> Listed(corpus, priority, m, q, x)
    {
      if Listed(corpus, priority, m, q, x) {
        assert x == Match(x.name, Weighted(m, x.name, q));
      }
    }
    xs := SortedListing(all);
  }

  /** Exactly when a rule names `genuine` for a dependency: the name looked up is neither popular nor known, the
      index lists `genuine` for it, and outside npm no listed match comes before `genuine`. */
  lemma {:induction false} NamesIff(rule: Rule, corpus: set<string>, priority: set<string>, dep: string, genuine: string)
    ensures
      var q, m := Compared(rule, dep), MetricOf(rule);
      var x := Match(genuine, Weighted(m, genuine, q));
      Names(rule, corpus, priority, dep, genuine) <==>
        && LooksUp(rule, corpus, q) && Listed(corpus, priority, m, q, x)
        && (rule.Npm? || Foremost(corpus, priority, m, q, x))
  {
    hide Weighted, MatchLe, Admitted, Foremost, LooksUp;
    var q, m := Compared(rule, dep), MetricOf(rule);
    var x := Match(genuine, Weighted(m, genuine, q));
    if Names(rule, corpus, priority, dep, genuine) {
      var f: Finding :| f.package == dep && IsFinding(rule, corpus, priority, f) && genuine in f.named;
      if rule.Npm? {
        var xs :| Listing(corpus, priority, m, q, xs) && f.named == NamesOf(xs);
        var i :| 0 <= i < |f.named| && f.named[i] == genuine;
        assert xs[i] in xs;
        assert xs[i] == x;
      }
    }
    if LooksUp(rule, corpus, q) && Listed(corpus, priority, m, q, x) && (rule.Npm? || Foremost(corpus, priority, m, q, x)) {
      var f: Finding;
      if rule.Npm? {
        var xs := ListingExists(corpus, priority, m, q);
        assert x in xs;
        FirstIsForemost(xs, corpus, priority, m, q);
        f := Finding(dep, q, xs[0], NamesOf(xs));
        var i :| 0 <= i < |xs| && xs[i] == x;
        assert f.named[i] == genuine;
      } else {
        f := Finding(dep, q, x, [genuine]);
      }
      assert IsFinding(rule, corpus, priority, f);
    }
  }
}
