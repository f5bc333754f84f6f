/** Baseline suppression: three look-up sets instead of matching every entry as a pattern. */
module Baseline {
  import opened Common

  datatype Finding = Finding(ruleId: string, ecosystem: string, package: string, file: string, message: string)

  /** A finding in a JSON report; keys may be missing. */
  datatype Report = Report(ruleId: Option<string>, ecosystem: Option<string>, package: Option<string>, file: Option<string>)

  /** A baseline entry. The short form has no ecosystem and means npm. */
  datatype Fingerprint =
    | Short(ruleId: string, package: string, file: string)
    | Full(ruleId: string, ecosystem: string, package: string, file: string)

  function FingerprintOf(f: Finding): Fingerprint {
    Full(f.ruleId, f.ecosystem, f.package, f.file)
  }

  function ToReport(f: Finding): Report {
    Report(Some(f.ruleId), Some(f.ecosystem), Some(f.package), Some(f.file))
  }

  function GetOr(o: Option<string>, default: string): string {
    if o.Some? then o.value else default
  }

  function EntryOf(r: Report): Fingerprint {
    Full(GetOr(r.ruleId, ""), GetOr(r.ecosystem, "npm"), GetOr(r.package, ""), GetOr(r.file, ""))
  }

  ghost predicate Reads(o: Option<string>, value: string, missing: string) {
    match o
    case Some(s) => value == s
    case None => value == missing
  }

  /** The entries of a JSON baseline. */
  method LoadBaseline(reports: seq<Report>) returns (entries: set<Fingerprint>)
    ensures entries == set i | 0 <= i < |reports| :: EntryOf(reports[i])
  {
    entries := {};
    for i := 0 to |reports|
      invariant entries == set k | 0 <= k < i :: EntryOf(reports[k])
    {
      entries := entries + {EntryOf(reports[i])};
    }
  }

  /** A missing key reads as empty, a missing ecosystem as npm. */
  lemma {:induction false} EntryReads(r: Report)
    ensures
      var e := EntryOf(r);
      && e.Full? && Reads(r.ruleId, e.ruleId, "") && Reads(r.ecosystem, e.ecosystem, "npm")
      && Reads(r.package, e.package, "") && Reads(r.file, e.file, "")
  {
  }

  // ---------------------------------------------------------------- entries as patterns

  function Normalized(e: Fingerprint): Fingerprint {
    if e.Short? then Full(e.ruleId, "npm", e.package, e.file) else e
  }

  /** Without a package the entry covers the whole rule, in every ecosystem; without a file, the package. */
  predicate Covers(e: Fingerprint, f: Finding) {
    e.ruleId == f.ruleId &&
    (e.package == "" ||
     ((if e.Short? then "npm" else e.ecosystem) == f.ecosystem && e.package == f.package && (e.file == "" || e.file == f.file)))
  }

  ghost predicate Suppressed(entries: set<Fingerprint>, f: Finding) {
    exists e :: e in entries && Covers(e, f)
  }

  // ---------------------------------------------------------------- the three sets

  datatype Lookup = Lookup(rules: set<string>, packages: set<(string, string, string)>, exact: set<Fingerprint>)

  function Build(entries: set<Fingerprint>): Lookup {
    var normalized := set e | e in entries :: Normalized(e);
    Lookup(set e | e in normalized && e.package == "" :: e.ruleId,
           set e | e in normalized && e.Full? && e.package != "" && e.file == "" :: (e.ruleId, e.ecosystem, e.package),
           set e | e in normalized && e.file != "")
  }

  predicate Hits(l: Lookup, f: Finding) {
    || FingerprintOf(f) in l.exact
    || (f.ruleId, f.ecosystem, f.package) in l.packages
    || f.ruleId in l.rules
  }

  /** The look-up suppresses a finding if and only if some entry covers it. */
  lemma {:induction false} LookupIsPatternMatch(entries: set<Fingerprint>, f: Finding)
    ensures Hits(Build(entries), f) <==> Suppressed(entries, f)
  {
    var l := Build(entries);
    var normalized := set e | e in entries :: Normalized(e);
    if e :| e in entries && Covers(e, f) {
      var n := Normalized(e);
      assert n in normalized;
      if n.package == "" {
        assert f.ruleId in l.rules;
      } else if n.file == "" {
        assert (f.ruleId, f.ecosystem, f.package) in l.packages;
      } else {
        assert n == FingerprintOf(f);
      }
    }
    if Hits(l, f) {
      var n :| n in normalized && n.Full? && n.ruleId == f.ruleId &&
               (n == FingerprintOf(f) || n.package == "" ||
                (n.ecosystem == f.ecosystem && n.package == f.package && n.file == ""));
      var e :| e in entries && Normalized(e) == n;
      assert Covers(e, f);
    }
  }

  // ---------------------------------------------------------------- applying it

  datatype Result = Result(originalCount: nat, suppressedCount: nat, remaining: seq<Finding>)

  /** The findings no entry covers, in order. */
  ghost function Remaining(entries: set<Fingerprint>, fs: seq<Finding>): seq<Finding> {
    if fs == [] then []
    else
      var n := |fs| - 1;
      Remaining(entries, fs[..n]) + if Suppressed(entries, fs[n]) then [] else [fs[n]]
  }

  method ApplyBaseline(findings: seq<Finding>, entries: set<Fingerprint>) returns (r: Result)
    ensures r.remaining == Remaining(entries, findings)
    ensures r.originalCount == |findings| && r.suppressedCount + |r.remaining| == r.originalCount
  {
    var l := Build(entries);
    var remaining: seq<Finding> := [];
    for i := 0 to |findings|
      invariant remaining == Remaining(entries, findings[..i]) && |remaining| <= i
    {
      var f := findings[i];
      assert findings[..i + 1][..i] == findings[..i] && findings[..i + 1][i] == f;
      LookupIsPatternMatch(entries, f);
      if FingerprintOf(f) in l.exact {
        continue;
      }
      if (f.ruleId, f.ecosystem, f.package) in l.packages {
        continue;
      }
      if f.ruleId in l.rules {
        continue;
      }
      remaining := remaining + [f];
    }
    assert findings[..|findings|] == findings;
    r := Result(|findings|, |findings| - |remaining|, remaining);
  }

  lemma {:induction false} NothingRemains(entries: set<Fingerprint>, fs: seq<Finding>)
    requires forall i :: 0 <= i < |fs| ==> Suppressed(entries, fs[i])
    ensures Remaining(entries, fs) == []
    decreases |fs|
  {
    if fs != [] {
      NothingRemains(entries, fs[..|fs| - 1]);
    }
  }

  /** A report used as its own baseline leaves nothing, whatever its findings look like. */
  lemma {:induction false} OwnBaselineLeavesNothing(fs: seq<Finding>, entries: set<Fingerprint>)
    requires entries == set i | 0 <= i < |fs| :: EntryOf(ToReport(fs[i]))
    ensures Remaining(entries, fs) == []
  {
    forall i | 0 <= i < |fs|
      ensures Suppressed(entries, fs[i])
    {
      var e := EntryOf(ToReport(fs[i]));
      assert e in entries && e == FingerprintOf(fs[i]) && Covers(e, fs[i]);
    }
    NothingRemains(entries, fs);
  }

  /** More entries leave a subset: applying the larger baseline to what the smaller one left gives the
      same as applying it at once. */
  lemma {:induction false} LargerBaselineLeavesLess(small: set<Fingerprint>, large: set<Fingerprint>, fs: seq<Finding>)
    requires small <= large
    ensures Remaining(large, fs) == Remaining(large, Remaining(small, fs))
    ensures |Remaining(large, fs)| <= |Remaining(small, fs)|
    decreases |fs|
  {
    hide Covers;
    if fs != [] {
      var n := |fs| - 1;
      LargerBaselineLeavesLess(small, large, fs[..n]);
      var rest := Remaining(small, fs[..n]);
      if Suppressed(small, fs[n]) {
        assert Suppressed(large, fs[n]);
        assert Remaining(small, fs) == rest;
      } else {
        assert (rest + [fs[n]])[..|rest|] == rest;
      }
    }
  }
}
