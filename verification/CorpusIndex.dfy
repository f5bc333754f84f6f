/** The corpus index answers near-match queries through two fast paths, switching from one to the
    other while its delete index is still being built. Both give the brute-force answer. */
module CorpusIndex {
  import opened Common
  import opened EditDistance
  import opened Keyboard
  import opened Sorting
  import opened DeleteIndex
  import opened Trie
  import opened TrieSearch

  // ---------------------------------------------------------------- the answer

  /** Short queries match curated names only, and only closely. */
  predicate Admitted(priority: set<string>, query: string, x: Match)
    requires query != ""
  {
    |query| >= 4 ||
    (x.name in priority && !(|x.name| < 4 && x.dist > 1.0) && !(|x.name| >= 4 && x.name[0] != query[0]))
  }

  predicate MatchLe(x: Match, y: Match) {
    x.dist < y.dist || (x.dist == y.dist && StringLe(x.name, y.name))
  }

  ghost predicate IsMatch(corpus: set<string>, m: Metric, query: string, maxd: real, x: Match) {
    x.name in corpus && Near(m, query, maxd, x.name) && x.dist == Weighted(m, x.name, query)
  }

  /** An empty query inspects its own first character when a long curated name matches. */
  ghost predicate Crashes(corpus: set<string>, priority: set<string>, m: Metric, query: string, maxd: real) {
    query == "" && exists x :: IsMatch(corpus, m, query, maxd, x) && x.name in priority && |x.name| >= 4
  }

  /** In terms of the arguments: a curated name of four letters or more lies within the limit of the empty query. */
  lemma {:induction false} CrashesIff(corpus: set<string>, priority: set<string>, m: Metric, query: string, maxd: real)
    ensures Crashes(corpus, priority, m, query, maxd) <==>
              query == "" && exists n :: n in corpus && n in priority && |n| >= 4 && |n| as real <= maxd
  {
    hide Weighted;
    if query == "" {
      forall n
        ensures Weighted(m, n, query) == |n| as real
      {
        WeightedEmpty(m, n);
      }
      if n :| n in corpus && n in priority && |n| >= 4 && |n| as real <= maxd {
        assert IsMatch(corpus, m, query, maxd, Match(n, |n| as real));
      }
    }
  }

  /** What a query should return: the admitted near names with their distances, once each, in order;
      `None` stands for the IndexError of the empty query. */
  ghost predicate IsAnswer(r: Option<seq<Match>>, corpus: set<string>, priority: set<string>, m: Metric,
                           query: string, maxd: real) {
    if query != "" && query[0] == '@' then r == Some([])
    else if Crashes(corpus, priority, m, query, maxd) then r == None
    else
      && r.Some? && SortedBy(r.value, MatchLe) && Distinct(r.value)
      && forall x :: x in r.value <==>
           IsMatch(corpus, m, query, maxd, x) &&
           if query == "" then x.name in priority && x.dist <= 1.0 else Admitted(priority, query, x)
  }

  lemma {:induction false} MatchOrder()
    ensures TotalPreorder(MatchLe) && Antisymmetric(MatchLe)
  {
    hide StringLe;
    StringOrder();
  }

  /** Nearest first; at equal distance the name that comes first in code-point order. */
  lemma {:induction false} AnswerInOrder(r: Option<seq<Match>>, corpus: set<string>, priority: set<string>, m: Metric, query: string,
                                         maxd: real, i: nat, j: nat)
    requires IsAnswer(r, corpus, priority, m, query, maxd) && r.Some? && i < j < |r.value|
    ensures
      var x, y := r.value[i], r.value[j];
      && (x.dist < y.dist || (x.dist == y.dist && ComesFirst(x.name, y.name)))
      && (y.dist > x.dist || !ComesFirst(y.name, x.name))
  {
    hide Weighted, Near, Admitted, ComesFirst;
    var x, y := r.value[i], r.value[j];
    StringLeIff(x.name, y.name);
    StringLeIff(y.name, x.name);
    StringLeTotal(x.name, y.name);
    assert MatchLe(x, y) && x != y;
  }

  /** The empty query with limit four raises an IndexError on a corpus whose one curated name is "next". */
  lemma {:induction false} EmptyQueryRaises(m: Metric, r: Option<seq<Match>>)
    requires IsAnswer(r, {"next"}, {"next"}, m, "", 4.0)
    ensures r == None
  {
    hide Crashes;
    CrashesIff({"next"}, {"next"}, m, "", 4.0);
    assert "next" in {"next"} && |"next"| == 4;
  }

  /** The specification leaves one answer only. */
  lemma {:induction false} AnswerUnique(r: Option<seq<Match>>, s: Option<seq<Match>>, corpus: set<string>, priority: set<string>,
                     m: Metric, query: string, maxd: real)
    requires IsAnswer(r, corpus, priority, m, query, maxd) && IsAnswer(s, corpus, priority, m, query, maxd)
    ensures r == s
  {
    hide Weighted, Near, MatchLe, Admitted;
    if r.Some? && s.Some? && !(query != "" && query[0] == '@') {
      MatchOrder();
      var a, b := r.value, s.value;
      SameMembers(a, b);
      SortedUnique(a, b, MatchLe);
    }
  }

  // ---------------------------------------------------------------- default arguments

  /** A near name that passes the guards of a short query, curated or not. */
  ghost predicate PassesShort(m: Metric, query: string, maxd: real, n: string)
    requires query != ""
  {
    Near(m, query, maxd, n) && if |n| < 4 then Weighted(m, n, query) <= 1.0 else n[0] == query[0]
  }

  /** When the answers agree although the scan takes the whole corpus as curated. The empty query: a long name within
      the limit is curated if there is one, and otherwise no uncurated one-letter name is within it. Any other query:
      it is long or scoped, or no uncurated name passes the guards. */
  ghost predicate DefaultsAgree(corpus: set<string>, priority: set<string>, m: Metric, query: string, maxd: real) {
    if query == "" then
      if exists n :: n in corpus && |n| >= 4 && |n| as real <= maxd
      then exists n :: n in corpus && n in priority && |n| >= 4 && |n| as real <= maxd
      else maxd < 1.0 || forall n :: n in corpus && |n| == 1 ==> n in priority
    else
      || |query| >= 4 || query[0] == '@'
      || forall n :: n in corpus && n !in priority ==> !PassesShort(m, query, maxd, n)
  }

  /** Without an explicit list of curated names the brute-force scan takes the whole corpus as curated, the index its
      own list. */
  lemma {:induction false} DefaultsAgreeIff(fast: Option<seq<Match>>, slow: Option<seq<Match>>, corpus: set<string>,
                                            priority: set<string>, m: Metric, query: string, maxd: real)
    requires IsAnswer(fast, corpus, priority, m, query, maxd) && IsAnswer(slow, corpus, corpus, m, query, maxd)
    ensures fast == slow <==> DefaultsAgree(corpus, priority, m, query, maxd)
  {
    hide Weighted, MatchLe, Near;
    if query == "" {
      EmptyDefaultsAgreeIff(fast, slow, corpus, priority, m, maxd);
    } else if query[0] != '@' {
      if |query| >= 4 || forall n :: n in corpus && n !in priority ==> !PassesShort(m, query, maxd, n) {
        assert IsAnswer(slow, corpus, priority, m, query, maxd);
        AnswerUnique(fast, slow, corpus, priority, m, query, maxd);
      } else {
        var n :| n in corpus && n !in priority && PassesShort(m, query, maxd, n);
        var x := Match(n, Weighted(m, n, query));
        assert x in slow.value && x !in fast.value;
      }
    }
  }

  lemma {:induction false} EmptyDefaultsAgreeIff(fast: Option<seq<Match>>, slow: Option<seq<Match>>, corpus: set<string>,
                                                 priority: set<string>, m: Metric, maxd: real)
    requires IsAnswer(fast, corpus, priority, m, "", maxd) && IsAnswer(slow, corpus, corpus, m, "", maxd)
    ensures fast == slow <==> DefaultsAgree(corpus, priority, m, "", maxd)
  {
    hide Weighted, MatchLe, Crashes;
    CrashesIff(corpus, priority, m, "", maxd);
    CrashesIff(corpus, corpus, m, "", maxd);
    if !Crashes(corpus, corpus, m, "", maxd) {
      forall n
        ensures Weighted(m, n, "") == |n| as real
      {
        WeightedEmpty(m, n);
      }
      if maxd < 1.0 || forall n :: n in corpus && |n| == 1 ==> n in priority {
        assert IsAnswer(slow, corpus, priority, m, "", maxd);
        AnswerUnique(fast, slow, corpus, priority, m, "", maxd);
      } else {
        var n :| n in corpus && |n| == 1 && n !in priority;
        var x := Match(n, 1.0);
        assert IsMatch(corpus, m, "", maxd, x);
        assert x in slow.value && x !in fast.value;
      }
    }
  }

  /** The empty query with limit four: the scan raises the IndexError, an index without curated names answers. */
  lemma {:induction false} EmptyDefaultsDiffer(fast: Option<seq<Match>>, slow: Option<seq<Match>>, m: Metric)
    requires IsAnswer(fast, {"next"}, {}, m, "", 4.0) && IsAnswer(slow, {"next"}, {"next"}, m, "", 4.0)
    ensures slow == None && fast.Some?
  {
    hide IsMatch;
    EmptyQueryRaises(m, slow);
  }

  /** "nex" against a corpus of "next" without curated names: the scan reports it, the index does not. */
  lemma {:induction false} DefaultsDiffer(fast: Option<seq<Match>>, slow: Option<seq<Match>>)
    requires IsAnswer(fast, {"next"}, {}, Unit, "nex", 2.0) && IsAnswer(slow, {"next"}, {"next"}, Unit, "nex", 2.0)
    ensures fast != slow
  {
    hide Weighted, Lev, IsAnswer;
    assert Apply(Delete(3), "next") == "nex";
    EditMovesByOne(Delete(3), "next");
    UnitIsLev("next", "nex");
    assert PassesShort(Unit, "nex", 2.0, "next");
    DefaultsAgreeIff(fast, slow, {"next"}, {}, Unit, "nex", 2.0);
  }

  // ---------------------------------------------------------------- both paths

  lemma {:induction false} NearIsInRange(m: Metric, query: string, maxd: real, n: string)
    requires Near(m, query, maxd, n)
    ensures maxd > -1.0
    ensures |query| - Truncate(maxd) <= |n| <= |query| + Truncate(maxd)
  {
    WeightedBounds(m, n, query);
  }

  function OfLength(names: set<string>, len: nat): set<string> {
    set n | n in names && |n| == len
  }

  /** There is a trie for every length that occurs, and each stores the names of its length. */
  ghost predicate Bucketed(tries: map<nat, Node>, names: set<string>) {
    && (forall len :: len in tries ==> Stores(tries[len], OfLength(names, len), len))
    && (forall n :: n in names ==> |n| in tries)
  }

  /** Names of length at least `lo` and below `hi`. */
  function Between(names: set<string>, lo: int, hi: int): set<string> {
    set n | n in names && lo <= |n| < hi
  }

  lemma {:induction false} ReportsJoin(a: seq<Match>, s: set<string>, b: seq<Match>, t: set<string>, m: Metric, query: string, maxd: real)
    requires Reports(a, s, m, query, maxd) && Reports(b, t, m, query, maxd) && s !! t
    ensures Reports(a + b, s + t, m, query, maxd)
  {
    hide Weighted, Near;
    var c := a + b;
    forall x ensures x in c <==> x in a || x in b {
    }
    forall i, j | 0 <= i < j < |c| ensures c[i] != c[j] {
      if i < |a| <= j {
        assert c[i] in a && c[j] in b;
      }
    }
  }

  method SearchLengthBuckets(tries: map<nat, Node>, ghost names: set<string>, m: Metric, query: string, maxd: real)
    returns (found: seq<Match>)
    requires Bucketed(tries, names)
    ensures Reports(found, names, m, query, maxd)
  {
    hide Weighted, Near, Stores;
    var limit := Truncate(maxd);
    var minLen := if |query| - limit < 0 then 0 else |query| - limit;
    var maxLen := |query| + limit;
    found := [];
    assert Between(names, minLen, minLen) == {};
    assert Reports(found, {}, m, query, maxd);
    if minLen <= maxLen {
      for len := minLen to maxLen + 1
        invariant Reports(found, Between(names, minLen, len), m, query, maxd)
      {
        assert Between(names, minLen, len + 1) == Between(names, minLen, len) + OfLength(names, len);
        if len in tries {
          var w := Walk(tries[len], OfLength(names, len), len, m, query, maxd);
          var more := SearchBanded(w);
          ReportsJoin(found, Between(names, minLen, len), more, OfLength(names, len), m, query, maxd);
          found := found + more;
        } else {
          assert OfLength(names, len) == {};
          assert Between(names, minLen, len + 1) == Between(names, minLen, len);
        }
      }
      ReportsAll(found, names, minLen, maxLen, m, query, maxd);
    } else {
      ReportsAll(found, names, minLen, minLen - 1, m, query, maxd);
    }
  }

  /** Names outside the length range are not near, so the range is the whole answer. */
  lemma {:induction false} ReportsAll(found: seq<Match>, names: set<string>, minLen: nat, maxLen: int, m: Metric, query: string, maxd: real)
    requires minLen == (if |query| - Truncate(maxd) < 0 then 0 else |query| - Truncate(maxd))
    requires maxLen >= |query| + Truncate(maxd)
    requires Reports(found, Between(names, minLen, maxLen + 1), m, query, maxd)
    ensures Reports(found, names, m, query, maxd)
  {
    hide Weighted, Near, Truncate;
    forall n | n in names && Near(m, query, maxd, n)
      ensures n in Between(names, minLen, maxLen + 1)
    {
      NearIsInRange(m, query, maxd, n);
    }
  }

  lemma {:induction false} NearByWholeLimit(query: string, n: string, maxd: real)
    ensures Near(Unit, query, maxd, n) <==> n != query && Lev(query, n) <= Truncate(maxd)
    ensures Weighted(Unit, n, query) == Lev(query, n) as real
  {
    hide Weighted, Lev;
    UnitIsLev(n, query);
    LevSymmetric(n, query);
    LevZeroIffEqual(query, n);
  }

  /** The delete-index path: candidates by join, then an exact cut-off distance. */
  method SearchDeletes(index: map<string, Bucket>, ghost names: set<string>, query: string, maxd: real)
    returns (found: seq<Match>)
    requires Indexes(index, names) && Truncate(maxd) <= 2
    ensures Reports(found, names, Unit, query, maxd)
  {
    hide Lev, Weighted, Indexes, Collects, Near, Truncate;
    var limit := Truncate(maxd);
    var candidates := Candidates(index, query, limit);
    assert forall n :: n in names && Near(Unit, query, maxd, n) ==> n in candidates && n in names by {
      CandidatesSuffice(index, names, query, maxd, candidates);
    }
    assert candidates <= names by { CandidatesSuffice(index, names, query, maxd, candidates); }
    found := [];
    var rest := candidates;
    while rest != {}
      invariant rest <= candidates
      invariant Reports(found, candidates - rest, Unit, query, maxd)
      decreases rest
    {
      var c :| c in rest;
      NearByWholeLimit(query, c, maxd);
      if c != query {
        var dist := DistanceWithin(query, c, limit);
        if dist <= limit {
          found := found + [Match(c, dist as real)];
        }
      }
      assert candidates - (rest - {c}) == (candidates - rest) + {c};
      rest := rest - {c};
    }
    assert candidates - {} == candidates;
  }

  lemma {:induction false} CandidatesSuffice(index: map<string, Bucket>, names: set<string>, query: string, maxd: real, found: set<string>)
    requires Indexes(index, names) && Truncate(maxd) <= 2
    requires Collects(index, found, Enumerated(query, Truncate(maxd)))
    ensures found <= names
    ensures forall n :: n in names && Near(Unit, query, maxd, n) ==> n in found
  {
    hide Lev, Weighted, Near, Truncate, Deletes1, Deletes2;
    var limit := Truncate(maxd);
    CandidatesComplete(index, names, query, if limit < 0 then 0 else limit, found);
    forall n | n in names && Near(Unit, query, maxd, n)
      ensures n in found
    {
      NearByWholeLimit(query, n, maxd);
    }
  }

  // ---------------------------------------------------------------- selection and order

  /** Applies the short-query guards to one match; `None` is the IndexError. */
  function Guard(priority: set<string>, query: string, x: Match): Option<bool> {
    if |query| >= 4 then Some(true)
    else if x.name !in priority then Some(false)
    else if |x.name| < 4 then Some(!(x.dist > 1.0))
    else if query == "" then None
    else Some(x.name[0] == query[0])
  }

  /** `kept` lists, once each, the matches among `done` that pass the guards; none of them crashes. */
  ghost predicate Kept(kept: seq<Match>, done: set<string>, priority: set<string>, m: Metric, query: string, maxd: real) {
    && (forall x :: x in kept <==> IsMatch(done, m, query, maxd, x) && Guard(priority, query, x) == Some(true))
    && (forall x :: IsMatch(done, m, query, maxd, x) ==> Guard(priority, query, x).Some?)
    && Distinct(kept)
  }

  /** `matches.sort` by distance, then name. */
  method SortMatches(kept: seq<Match>, ghost corpus: set<string>, ghost priority: set<string>, ghost m: Metric,
                     query: string, ghost maxd: real)
    returns (sorted: seq<Match>)
    requires Kept(kept, corpus, priority, m, query, maxd)
    requires query == "" || query[0] != '@'
    ensures IsAnswer(Some(sorted), corpus, priority, m, query, maxd)
  {
    hide Kept, IsAnswer, MatchLe, SortedBy, TotalPreorder, Antisymmetric;
    MatchOrder();
    SortProperties(kept, MatchLe);
    sorted := Sort(kept, MatchLe);
    KeptSorted(kept, sorted, corpus, priority, m, query, maxd);
  }

  lemma {:induction false} KeptSorted(kept: seq<Match>, sorted: seq<Match>, corpus: set<string>, priority: set<string>, m: Metric,
                                      query: string, maxd: real)
    requires Kept(kept, corpus, priority, m, query, maxd) && (query == "" || query[0] != '@')
    requires SortedBy(sorted, MatchLe) && multiset(sorted) == multiset(kept)
    ensures IsAnswer(Some(sorted), corpus, priority, m, query, maxd)
  {
    hide IsMatch, MatchLe, SortedBy;
    DistinctByMultiset(kept, sorted);
    hide Distinct;
    forall x
      ensures x in sorted <==> x in kept
    {
      assert x in sorted <==> x in multiset(sorted);
      assert x in kept <==> x in multiset(kept);
    }
  }

  /** The tail of an index query: guard the reported names, then sort. */
  method Select(found: seq<Match>, ghost corpus: set<string>, priority: set<string>, ghost m: Metric, query: string,
                ghost maxd: real)
    returns (r: Option<seq<Match>>)
    requires Reports(found, corpus, m, query, maxd)
    requires query == "" || query[0] != '@'
    ensures IsAnswer(r, corpus, priority, m, query, maxd)
  {
    hide Weighted, Near, MatchLe, StringLe;
    var kept: seq<Match> := [];
    for i := 0 to |found|
      invariant forall x :: x in kept <==> x in found[..i] && Guard(priority, query, x) == Some(true)
      invariant forall x :: x in found[..i] ==> Guard(priority, query, x).Some?
      invariant Distinct(kept)
    {
      assert found[..i + 1] == found[..i] + [found[i]];
      assert found[i] !in found[..i];
      match Guard(priority, query, found[i]) {
        case None =>
          assert found[i] in found && IsMatch(corpus, m, query, maxd, found[i]);
          return None;
        case Some(keep) =>
          if keep {
            kept := kept + [found[i]];
          }
      }
    }
    assert found[..|found|] == found;
    var sorted := SortMatches(kept, corpus, priority, m, query, maxd);
    r := Some(sorted);
  }

  // ---------------------------------------------------------------- brute force

  lemma {:induction false} KeptNext(kept: seq<Match>, done: set<string>, priority: set<string>, m: Metric, query: string, maxd: real,
                 n: string, more: seq<Match>)
    requires Kept(kept, done, priority, m, query, maxd) && n !in done
    requires more == [] || more == [Match(n, Weighted(m, n, query))]
    requires Near(m, query, maxd, n) ==>
               var x := Match(n, Weighted(m, n, query));
               Guard(priority, query, x).Some? && (more == [x] <==> Guard(priority, query, x).value)
    requires more != [] ==> Near(m, query, maxd, n)
    ensures Kept(kept + more, done + {n}, priority, m, query, maxd)
  {
    hide Weighted, Near, Guard;
    var all := kept + more;
    forall x | IsMatch(done + {n}, m, query, maxd, x)
      ensures IsMatch(done, m, query, maxd, x) || x == Match(n, Weighted(m, n, query))
    {
    }
    forall x ensures x in all <==> x in kept || x in more {
    }
    assert forall x :: x in kept ==> x.name in done;
  }

  /** The reference: one full distance per corpus name. */
  method CheckTyposquat(query: string, corpus: set<string>, m: Metric, maxd: real, priorityNames: Option<set<string>>)
    returns (r: Option<seq<Match>>)
    ensures IsAnswer(r, corpus, if priorityNames.Some? then priorityNames.value else corpus, m, query, maxd)
  {
    hide Weighted, StringLe, MatchLe;
    if query != "" && query[0] == '@' {
      return Some([]);
    }
    var short := |query| < 4;
    var priority := if priorityNames.Some? then priorityNames.value else corpus;
    var names := SortStrings(corpus);
    var matches: seq<Match> := [];
    ghost var done: set<string> := {};
    for i := 0 to |names|
      invariant done == set n | n in names[..i]
      invariant Kept(matches, done, priority, m, query, maxd)
    {
      var popular := names[i];
      assert names[..i + 1] == names[..i] + [popular];
      assert popular !in names[..i];
      WeightedBounds(m, popular, query);
      WeightedSymmetric(m, popular, query);
      var gap := if |query| > |popular| then |query| - |popular| else |popular| - |query|;
      var more: seq<Match> := [];
      if popular != query && !(short && popular !in priority) && gap as real <= maxd {
        var dist := WeightedDistance(m, query, popular);
        if dist <= maxd {
          if short && |popular| < 4 && dist > 1.0 {
          } else if short && |popular| >= 4 && query == "" {
            assert IsMatch(corpus, m, query, maxd, Match(popular, dist));
            return None;
          } else if short && |popular| >= 4 && popular[0] != query[0] {
          } else {
            more := [Match(popular, dist)];
          }
        }
      }
      KeptNext(matches, done, priority, m, query, maxd, popular, more);
      matches := matches + more;
      done := done + {popular};
    }
    assert done == corpus;
    var sorted := SortMatches(matches, corpus, priority, m, query, maxd);
    r := Some(sorted);
  }

  // ---------------------------------------------------------------- the index object

  const SYMSPELL_MAX_DISTANCE := 2

  function Elements(s: seq<string>): set<string> {
    set n | n in s
  }

  lemma {:induction false} BucketedGrow(tries: map<nat, Node>, done: set<string>, name: string)
    requires Bucketed(tries, done) && name !in done
    ensures
      var root := if |name| in tries then tries[|name|] else EMPTY;
      Bucketed(tries[|name| := AddName(root, name, name)], done + {name})
  {
    hide Stores;
    var len := |name|;
    var root := if len in tries then tries[len] else EMPTY;
    assert Stores(root, OfLength(done, len), len) by {
      if len !in tries {
        assert OfLength(done, len) == {};
        EmptyStores(len);
      }
    }
    AddNameStores(root, OfLength(done, len), len, name);
    assert OfLength(done + {name}, len) == OfLength(done, len) + {name};
    forall k | k in tries && k != len
      ensures OfLength(done + {name}, k) == OfLength(done, k)
    {
    }
  }

  lemma {:induction false} EmptyStores(len: nat)
    ensures Stores(EMPTY, {}, len)
  {
  }

  method BuildTries(names: seq<string>) returns (tries: map<nat, Node>)
    requires Distinct(names)
    ensures Bucketed(tries, Elements(names))
  {
    hide Stores;
    tries := map[];
    assert Bucketed(tries, {});
    assert Elements(names[..0]) == {};
    for i := 0 to |names|
      invariant Bucketed(tries, Elements(names[..i]))
    {
      var name := names[i];
      BucketedGrow(tries, Elements(names[..i]), name);
      assert Elements(names[..i + 1]) == Elements(names[..i]) + {name};
      var root := if |name| in tries then tries[|name|] else EMPTY;
      tries := tries[|name| := AddName(root, name, name)];
    }
    assert names[..|names|] == names;
  }

  /** `-(-total // chunks)`, at least one. */
  function StepFor(total: nat, chunks: int): (step: nat)
    ensures chunks > 0 ==> step >= 1 && step * chunks >= total
  {
    if chunks <= 0 then total
    else if total == 0 then 1
    else
      var step := (total + chunks - 1) / chunks;
      assert step * chunks + (total + chunks - 1) % chunks == total + chunks - 1;
      step
  }

  lemma {:induction false} BelowThree(maxd: real)
    ensures Truncate(maxd) <= SYMSPELL_MAX_DISTANCE <==> maxd < 3.0
  {
  }

  class CorpusIndex {
    var names: seq<string>
    var priorityNames: set<string>
    var tries: map<nat, Node>
    var deleteIndex: map<string, Bucket>
    var deleteStep: nat
    var deleteCursor: Option<nat>

    ghost predicate ValidNames()
      reads this
    {
      && Distinct(names) && SortedBy(names, StringLe)
      && priorityNames <= Elements(names)
      && Bucketed(tries, Elements(names))
      && (deleteCursor.Some? ==> deleteCursor.value <= |names| && deleteStep >= 1)
    }

    ghost predicate Valid()
      reads this
    {
      ValidNames() && Indexes(deleteIndex, Elements(names[..Progress()]))
    }

    /** The number of names already in the delete index; all of them once the cursor is gone. */
    ghost function Progress(): (k: nat)
      requires ValidNames()
      reads this
      ensures k <= |names|
    {
      if deleteCursor.Some? then deleteCursor.value else |names|
    }

    constructor (corpus: set<string>, priority: set<string>, chunks: int)
      ensures Valid()
      ensures Elements(names) == corpus + priority && priorityNames == priority
      ensures deleteStep == StepFor(|names|, chunks)
      ensures chunks > 0 ==> deleteCursor == Some(0)
      ensures chunks <= 0 ==> deleteCursor == None
    {
      var sorted := SortStrings(corpus + priority);
      var roots := BuildTries(sorted);
      names, priorityNames, tries, deleteIndex := sorted, priority, roots, map[];
      deleteStep := StepFor(|sorted|, chunks);
      deleteCursor := if chunks > 0 then Some(0) else None;
      new;
      assert Elements(names) == corpus + priority;
      assert Elements(names[..0]) == {};
      if chunks <= 0 {
        AdvanceDeleteBuild(|names|);
      }
    }

    /** Indexes the next `step` names; the cursor disappears when none is left. */
    method AdvanceDeleteBuild(step: nat)
      requires ValidNames()
      requires Indexes(deleteIndex, Elements(names[..if deleteCursor.Some? then deleteCursor.value else 0]))
      modifies this`deleteIndex, this`deleteCursor
      ensures Valid()
      ensures old(deleteCursor).None? ==> deleteCursor.None?
      ensures old(deleteCursor).Some? ==>
                Progress() == if old(deleteCursor).value + step < |names| then old(deleteCursor).value + step else |names|
      ensures deleteCursor.Some? ==> deleteCursor.value < |names|
    {
      hide Indexes, Adds, Bucketed, Deletes2, SortedBy, Distinct;
      var start := if deleteCursor.Some? then deleteCursor.value else 0;
      var end := if deleteCursor.None? || start + step > |names| then |names| else start + step;
      for k := start to end
        invariant names == old(names) && deleteCursor == old(deleteCursor)
        invariant Indexes(deleteIndex, Elements(names[..k]))
        modifies this`deleteIndex
      {
        var before := deleteIndex;
        var after := IndexName(before, names[k]);
        IndexesGrow(before, Elements(names[..k]), after, names[k]);
        assert Elements(names[..k + 1]) == Elements(names[..k]) + {names[k]};
        deleteIndex := after;
      }
      deleteCursor := if end < |names| then Some(end) else None;
    }

    /** Completes the build at once. */
    method FinishDeleteIndex()
      requires Valid()
      modifies this`deleteIndex, this`deleteCursor
      ensures Valid() && deleteCursor == None
    {
      if deleteCursor.Some? {
        AdvanceDeleteBuild(|names|);
      }
    }

    /** One query. Whatever part of the delete index exists, the answer is the brute-force one. */
    method NearMatches(query: string, maxd: real, m: Metric) returns (r: Option<seq<Match>>)
      requires Valid()
      modifies this`deleteIndex, this`deleteCursor
      ensures Valid()
      ensures IsAnswer(r, Elements(names), priorityNames, m, query, maxd)
      // only plain queries within the accelerated limit advance the build, one step each
      ensures m.Unit? && maxd < 3.0 && !(query != "" && query[0] == '@') ==>
                Progress() == if old(Progress()) + deleteStep < |names| then old(Progress()) + deleteStep else |names|
      ensures m.Keys? || maxd >= 3.0 || (query != "" && query[0] == '@') ==>
                deleteIndex == old(deleteIndex) && deleteCursor == old(deleteCursor)
    {
      BelowThree(maxd);
      hide Indexes, Bucketed, SortedBy, Distinct, Weighted, Truncate, Reports, IsMatch, Crashes;
      if query != "" && query[0] == '@' {
        return Some([]);
      }
      var found: seq<Match>;
      if m.Keys? || Truncate(maxd) > SYMSPELL_MAX_DISTANCE {
        found := SearchLengthBuckets(tries, Elements(names), m, query, maxd);
      } else {
        if deleteCursor.Some? {
          AdvanceDeleteBuild(deleteStep);
        }
        if deleteCursor.None? {
          assert names[..|names|] == names;
          found := SearchDeletes(deleteIndex, Elements(names), query, maxd);
        } else {
          found := SearchLengthBuckets(tries, Elements(names), m, query, maxd);
        }
      }
      r := Select(found, Elements(names), priorityNames, m, query, maxd);
    }
  }

  /** Two routes to the same list: an index in any state of its build, and the brute-force scan. */
  method IndexedEqualsBruteForce(index: CorpusIndex, query: string, maxd: real, m: Metric)
    returns (fast: Option<seq<Match>>, slow: Option<seq<Match>>)
    requires index.Valid()
    modifies index`deleteIndex, index`deleteCursor
    ensures index.Valid()
    ensures fast == slow
    ensures IsAnswer(slow, Elements(index.names), index.priorityNames, m, query, maxd)
  {
    fast := index.NearMatches(query, maxd, m);
    slow := CheckTyposquat(query, Elements(index.names), m, maxd, Some(index.priorityNames));
    AnswerUnique(fast, slow, Elements(index.names), index.priorityNames, m, query, maxd);
  }
}
