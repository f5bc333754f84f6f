/** Candidate generation by deletion: two strings within distance k share a string that is left
    over after deleting at most k characters from each. */
module DeleteIndex {
  import opened EditDistance

  function Without(s: string, i: nat): string
    requires i < |s|
  {
    s[..i] + s[i + 1..]
  }

  function WithoutTwo(s: string, i: nat, j: nat): string
    requires i < j < |s|
  {
    s[..i] + s[i + 1..j] + s[j + 1..]
  }

  /** `v` is left over after deleting at most `k` characters of `s`. */
  ghost predicate Leaves(s: string, k: nat, v: string) {
    s == v || (k > 0 && exists i :: 0 <= i < |s| && Leaves(Without(s, i), k - 1, v))
  }

  /** What the program enumerates for at most one deletion. */
  function Deletes1(s: string): set<string> {
    {s} + set i | 0 <= i < |s| :: Without(s, i)
  }

  /** What the program enumerates for at most two deletions. */
  function Deletes2(s: string): set<string> {
    Deletes1(s) + set i, j | 0 <= i < |s| && i < j < |s| :: WithoutTwo(s, i, j)
  }

  // ---------------------------------------------------------------- a common left-over exists

  lemma {:induction false} LeavesMore(s: string, k: nat, v: string)
    requires Leaves(s, k, v)
    ensures Leaves(s, k + 1, v)
    decreases k
  {
    if s != v {
      var i :| 0 <= i < |s| && Leaves(Without(s, i), k - 1, v);
      LeavesMore(Without(s, i), k - 1, v);
    }
  }

  lemma {:induction false} LeavesBeforeChar(s: string, k: nat, v: string, c: char)
    requires Leaves(s, k, v)
    ensures Leaves(s + [c], k, v + [c])
    decreases k
  {
    if s != v {
      var i :| 0 <= i < |s| && Leaves(Without(s, i), k - 1, v);
      LeavesBeforeChar(Without(s, i), k - 1, v, c);
      assert Without(s + [c], i) == Without(s, i) + [c];
    }
  }

  lemma {:induction false} LeavesDropLast(s: string, k: nat, v: string)
    requires |s| > 0 && Leaves(Init(s), k, v)
    ensures Leaves(s, k + 1, v)
  {
    assert Without(s, |s| - 1) == Init(s);
  }

  lemma {:induction false} LeavesNothing(s: string, k: nat)
    requires |s| <= k
    ensures Leaves(s, k, "")
    decreases k
  {
    if |s| > 0 {
      LeavesNothing(Init(s), k - 1);
      LeavesDropLast(s, k - 1, "");
    }
  }

  /** The completeness argument behind the delete index. */
  lemma {:induction false} CommonLeftOver(a: string, b: string, k: nat) returns (v: string)
    requires Lev(a, b) <= k
    ensures Leaves(a, k, v) && Leaves(b, k, v)
    decreases |a| + |b|
  {
    if |a| == 0 || |b| == 0 {
      LeavesNothing(a, k);
      LeavesNothing(b, k);
      v := "";
    } else if Lev(a, b) == Lev(Init(a), b) + 1 {
      v := CommonLeftOver(Init(a), b, k - 1);
      LeavesDropLast(a, k - 1, v);
      LeavesMore(b, k - 1, v);
    } else if Lev(a, b) == Lev(a, Init(b)) + 1 {
      v := CommonLeftOver(a, Init(b), k - 1);
      LeavesMore(a, k - 1, v);
      LeavesDropLast(b, k - 1, v);
    } else {
      v := CommonOfDiagonal(a, b, k);
    }
  }

  lemma {:induction false} CommonOfDiagonal(a: string, b: string, k: nat) returns (v: string)
    requires |a| > 0 && |b| > 0
    requires Lev(Init(a), Init(b)) + Mismatch(Last(a), Last(b)) <= k
    ensures Leaves(a, k, v) && Leaves(b, k, v)
    decreases |a| + |b|, 0
  {
    hide Lev, Leaves;
    if Last(a) == Last(b) {
      v := CommonLeftOver(Init(a), Init(b), k);
      LeavesBeforeChar(Init(a), k, v, Last(a));
      LeavesBeforeChar(Init(b), k, v, Last(b));
      assert Init(a) + [Last(a)] == a && Init(b) + [Last(b)] == b;
      v := v + [Last(a)];
    } else {
      v := CommonLeftOver(Init(a), Init(b), k - 1);
      LeavesDropLast(a, k - 1, v);
      LeavesDropLast(b, k - 1, v);
    }
  }

  lemma {:induction false} OneDeletion(s: string, v: string)
    ensures Leaves(s, 1, v) <==> v in Deletes1(s)
  {
    if Leaves(s, 1, v) && s != v {
      var i :| 0 <= i < |s| && Leaves(Without(s, i), 0, v);
      assert v == Without(s, i);
    }
    if v in Deletes1(s) && s != v {
      var i :| 0 <= i < |s| && v == Without(s, i);
      assert Leaves(Without(s, i), 0, v);
    }
  }

  lemma {:induction false} TwoDeletions(s: string, v: string)
    requires Leaves(s, 2, v)
    ensures v in Deletes2(s)
  {
    if s != v {
      var i :| 0 <= i < |s| && Leaves(Without(s, i), 1, v);
      var t := Without(s, i);
      OneDeletion(t, v);
      if v != t {
        var j :| 0 <= j < |t| && v == Without(t, j);
        if j < i {
          assert v == WithoutTwo(s, j, i);
        } else {
          assert v == WithoutTwo(s, i, j + 1);
        }
      }
    }
  }

  /** The join over the enumerated left-overs finds every pair within distance one or two. */
  lemma {:induction false} JoinIsComplete(a: string, b: string, limit: nat)
    requires Lev(a, b) <= limit <= 2
    ensures exists v :: v in (if limit == 2 then Deletes2(a) else Deletes1(a)) && v in Deletes2(b)
  {
    if limit == 2 {
      var v := CommonLeftOver(a, b, 2);
      TwoDeletions(a, v);
      TwoDeletions(b, v);
    } else {
      var v := CommonLeftOver(a, b, 1);
      OneDeletion(a, v);
      OneDeletion(b, v);
      assert v in Deletes1(a) && v in Deletes2(b);
    }
  }

  // ---------------------------------------------------------------- the index

  /** A dictionary value: one name in the common case, a list when names share a left-over. */
  datatype Bucket = One(name: string) | Several(names: seq<string>)

  function Members(b: Bucket): set<string> {
    match b
    case One(n) => {n}
    case Several(ns) => set n | n in ns
  }

  function Lookup(index: map<string, Bucket>, v: string): set<string> {
    if v in index then Members(index[v]) else {}
  }

  /** The index holds exactly the left-overs of the names in `done`. */
  ghost predicate Indexes(index: map<string, Bucket>, done: set<string>) {
    forall v :: Lookup(index, v) == set n | n in done && v in Deletes2(n)
  }

  method Upsert(index: map<string, Bucket>, v: string, name: string) returns (r: map<string, Bucket>)
    ensures forall w :: Lookup(r, w) == Lookup(index, w) + (if w == v then {name} else {})
  {
    if v !in index {
      r := index[v := One(name)];
    } else {
      match index[v] {
        case One(current) => r := index[v := Several([current, name])];
        case Several(names) =>
          assert forall n :: n in names + [name] <==> n in names || n == name;
          r := index[v := Several(names + [name])];
      }
    }
  }

  /** `r` is `index` with `name` entered under every string in `seen`. */
  ghost predicate Adds(index: map<string, Bucket>, r: map<string, Bucket>, name: string, seen: set<string>) {
    forall w :: Lookup(r, w) == Lookup(index, w) + (if w in seen then {name} else {})
  }

  method UpsertNext(ghost index: map<string, Bucket>, current: map<string, Bucket>, v: string, name: string,
                    ghost seen: set<string>)
    returns (r: map<string, Bucket>)
    requires Adds(index, current, name, seen)
    ensures Adds(index, r, name, seen + {v})
  {
    hide Lookup;
    r := Upsert(current, v, name);
  }

  lemma {:induction false} AddsNothing(index: map<string, Bucket>, name: string)
    ensures Adds(index, index, name, {})
  {
  }

  lemma {:induction false} AllSingles(s: string)
    ensures Deletes1(s) == {s} + set k | 0 <= k < |s| :: Without(s, k)
  {
  }

  lemma {:induction false} OneMoreSingle(s: string, i: nat)
    requires i < |s|
    ensures (set k | 0 <= k < i + 1 :: Without(s, k)) == (set k | 0 <= k < i :: Without(s, k)) + {Without(s, i)}
  {
  }

  function PairsUpTo(s: string, i: nat, j: nat): set<string>
    requires i <= j <= |s|
  {
    (set k, l | 0 <= k < i && k < l < |s| :: WithoutTwo(s, k, l)) + (set l | i < l < j :: WithoutTwo(s, i, l))
  }

  lemma {:induction false} OneMorePair(s: string, i: nat, j: nat)
    requires i < j < |s|
    ensures PairsUpTo(s, i, j + 1) == PairsUpTo(s, i, j) + {WithoutTwo(s, i, j)}
  {
  }

  lemma {:induction false} RowOfPairs(s: string, i: nat)
    requires i < |s|
    ensures PairsUpTo(s, i + 1, i + 1) == PairsUpTo(s, i, |s|)
    ensures PairsUpTo(s, i, i + 1) == PairsUpTo(s, i, i)
  {
  }

  lemma {:induction false} AllPairs(s: string)
    ensures Deletes2(s) == Deletes1(s) + PairsUpTo(s, |s|, |s|)
    ensures PairsUpTo(s, 0, 0) == {}
  {
  }

  /** Indexes the left-overs of one more name. */
  method IndexName(index: map<string, Bucket>, name: string) returns (r: map<string, Bucket>)
    ensures Adds(index, r, name, Deletes2(name))
  {
    hide *;
    AddsNothing(index, name);
    r := UpsertNext(index, index, name, name, {});
    var n := |name|;
    ghost var seen: set<string> := {} + {name};
    for i := 0 to n
      invariant seen == {name} + set k | 0 <= k < i :: Without(name, k)
      invariant Adds(index, r, name, seen)
    {
      OneMoreSingle(name, i);
      r := UpsertNext(index, r, Without(name, i), name, seen);
      seen := seen + {Without(name, i)};
    }
    AllSingles(name);
    AllPairs(name);
    for i := 0 to n
      invariant seen == Deletes1(name) + PairsUpTo(name, i, i)
      invariant Adds(index, r, name, seen)
    {
      RowOfPairs(name, i);
      for j := i + 1 to n
        invariant seen == Deletes1(name) + PairsUpTo(name, i, j)
        invariant Adds(index, r, name, seen)
      {
        OneMorePair(name, i, j);
        r := UpsertNext(index, r, WithoutTwo(name, i, j), name, seen);
        seen := seen + {WithoutTwo(name, i, j)};
      }
    }
  }

  lemma {:induction false} IndexesGrow(index: map<string, Bucket>, done: set<string>, r: map<string, Bucket>, name: string)
    requires Indexes(index, done) && Adds(index, r, name, Deletes2(name))
    ensures Indexes(r, done + {name})
  {
    hide Lookup, Deletes2;
    forall v
      ensures Lookup(r, v) == set n | n in done + {name} && v in Deletes2(n)
    {
      assert Lookup(index, v) == set n | n in done && v in Deletes2(n);
    }
  }

  ghost predicate Collects(index: map<string, Bucket>, found: set<string>, seen: set<string>) {
    forall name :: name in found <==> exists v :: v in seen && name in Lookup(index, v)
  }

  function Enumerated(query: string, limit: int): set<string> {
    if limit >= 2 then Deletes2(query) else Deletes1(query)
  }

  /** Every name that shares an enumerated left-over with the query. */
  method Candidates(index: map<string, Bucket>, query: string, limit: int) returns (found: set<string>)
    ensures Collects(index, found, Enumerated(query, limit))
  {
    found := Lookup(index, query);
    ghost var seen: set<string> := {query};
    hide PairsUpTo, Deletes2, Lookup;
    assert Collects(index, found, seen);
    hide Collects;
    var n := |query|;
    for i := 0 to n
      invariant seen == {query} + set k | 0 <= k < i :: Without(query, k)
      invariant Collects(index, found, seen)
    {
      OneMoreSingle(query, i);
      found := found + Lookup(index, Without(query, i));
      seen := seen + {Without(query, i)};
    }
    assert seen == Deletes1(query);
    if limit >= 2 {
      AllPairs(query);
      for i := 0 to n
        invariant seen == Deletes1(query) + PairsUpTo(query, i, i)
        invariant Collects(index, found, seen)
      {
        RowOfPairs(query, i);
        for j := i + 1 to n
          invariant seen == Deletes1(query) + PairsUpTo(query, i, j)
          invariant Collects(index, found, seen)
        {
          OneMorePair(query, i, j);
          found := found + Lookup(index, WithoutTwo(query, i, j));
          seen := seen + {WithoutTwo(query, i, j)};
        }
      }
    }
  }

  /** Over a complete index the candidates include every name within the limit. */
  lemma {:induction false} CandidatesComplete(index: map<string, Bucket>, names: set<string>, query: string, limit: nat,
                           found: set<string>)
    requires Indexes(index, names) && limit <= 2
    requires Collects(index, found, Enumerated(query, limit))
    ensures found <= names
    ensures forall name :: name in names && Lev(query, name) <= limit ==> name in found
  {
    hide Lookup, Deletes1, Deletes2, Lev;
    forall name | name in names && Lev(query, name) <= limit
      ensures name in found
    {
      JoinIsComplete(query, name, limit);
      var v :| v in (if limit == 2 then Deletes2(query) else Deletes1(query)) && v in Deletes2(name);
      assert name in Lookup(index, v);
    }
  }
}
