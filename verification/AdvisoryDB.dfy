/** The advisory database: a dictionary from normalised names to advisories, which answers like a
    linear scan over everything loaded. */
module AdvisoryDB {
  import opened PackageNames
  import opened Advisory

  /** The loaded advisories filed under `key`, in load order. */
  function Named(loaded: seq<Advisory>, key: string): seq<Advisory> {
    if loaded == [] then []
    else
      var last := loaded[|loaded| - 1];
      Named(loaded[..|loaded| - 1], key) + if Normalize(last.packageName) == key then [last] else []
  }

  function Affecting(advs: seq<Advisory>, parse: Parser, strip: string -> string, version: string): seq<Advisory> {
    if advs == [] then []
    else
      var last := advs[|advs| - 1];
      Affecting(advs[..|advs| - 1], parse, strip, version) + if IsAffected(parse, strip, version, last) then [last] else []
  }

  predicate Matches(adv: Advisory, parse: Parser, strip: string -> string, name: string, version: string) {
    Normalize(adv.packageName) == Normalize(name) && IsAffected(parse, strip, version, adv)
  }

  /** The reference: one pass over all loaded advisories. */
  function LinearScan(loaded: seq<Advisory>, parse: Parser, strip: string -> string, name: string, version: string)
    : seq<Advisory>
  {
    if loaded == [] then []
    else
      var last := loaded[|loaded| - 1];
      LinearScan(loaded[..|loaded| - 1], parse, strip, name, version)
      + if Matches(last, parse, strip, name, version) then [last] else []
  }

  lemma {:induction false} AffectingMore(advs: seq<Advisory>, last: Advisory, parse: Parser, strip: string -> string, version: string)
    ensures Affecting(advs + [last], parse, strip, version)
         == Affecting(advs, parse, strip, version) + if IsAffected(parse, strip, version, last) then [last] else []
  {
    assert (advs + [last])[..|advs|] == advs;
  }

  /** Filing by name first changes nothing. */
  lemma {:induction false} IndexedIsLinear(loaded: seq<Advisory>, parse: Parser, strip: string -> string, name: string,
                                           version: string)
    ensures Affecting(Named(loaded, Normalize(name)), parse, strip, version)
         == LinearScan(loaded, parse, strip, name, version)
    decreases |loaded|
  {
    hide IsAffected, Normalize;
    if loaded != [] {
      var n := |loaded| - 1;
      IndexedIsLinear(loaded[..n], parse, strip, name, version);
      var filed := Named(loaded[..n], Normalize(name));
      AffectingMore(filed, loaded[n], parse, strip, version);
      if Normalize(loaded[n].packageName) != Normalize(name) {
        assert Named(loaded, Normalize(name)) == filed;
      }
    }
  }

  /** Any two equivalent names get the same answers. */
  lemma {:induction false} EquivalentNamesAgree(loaded: seq<Advisory>, parse: Parser, strip: string -> string,
                                                a: string, b: string, version: string)
    requires Equivalent(a, b)
    ensures LinearScan(loaded, parse, strip, a, version) == LinearScan(loaded, parse, strip, b, version)
    decreases |loaded|
  {
    hide IsAffected, Normalize, Equivalent;
    if loaded != [] {
      EquivalentNamesAgree(loaded[..|loaded| - 1], parse, strip, a, b, version);
      NormalizeAlikeIff(a, b);
    }
  }

  // ---------------------------------------------------------------- counting

  /** How many loaded advisories are filed under one of the keys. */
  function CountUnder(loaded: seq<Advisory>, keys: set<string>): nat {
    if loaded == [] then 0
    else CountUnder(loaded[..|loaded| - 1], keys)
         + if Normalize(loaded[|loaded| - 1].packageName) in keys then 1 else 0
  }

  lemma {:induction false} CountOneKey(loaded: seq<Advisory>, keys: set<string>, k: string)
    requires k in keys
    ensures CountUnder(loaded, keys) == CountUnder(loaded, keys - {k}) + |Named(loaded, k)|
    decreases |loaded|
  {
    hide Normalize;
    if loaded != [] {
      CountOneKey(loaded[..|loaded| - 1], keys, k);
    }
  }

  lemma {:induction false} CountAll(loaded: seq<Advisory>, keys: set<string>)
    requires forall k :: Named(loaded, k) != [] ==> k in keys
    ensures CountUnder(loaded, keys) == |loaded|
    decreases |loaded|
  {
    hide Normalize;
    if loaded != [] {
      var n := |loaded| - 1;
      forall k | Named(loaded[..n], k) != [] ensures k in keys {
        assert Named(loaded, k) != [];
      }
      CountAll(loaded[..n], keys);
      assert Named(loaded, Normalize(loaded[n].packageName)) != [];
    }
  }

  lemma {:induction false} CountNone(loaded: seq<Advisory>)
    ensures CountUnder(loaded, {}) == 0
    decreases |loaded|
  {
    if loaded != [] {
      CountNone(loaded[..|loaded| - 1]);
    }
  }

  // ---------------------------------------------------------------- the object

  /** The advisories of one record. */
  ghost predicate ReadsRecord(advs: seq<Advisory>, r: Record) {
    && |advs| == |AcceptedOf(r.affected)|
    && forall i :: 0 <= i < |advs| ==> ReadsEntry(advs[i], r.id, AcceptedOf(r.affected)[i])
  }

  function Flatten(parts: seq<seq<Advisory>>): seq<Advisory> {
    if parts == [] then [] else Flatten(parts[..|parts| - 1]) + parts[|parts| - 1]
  }

  class Database {
    const parse: Parser
    const strip: string -> string
    var advisories: map<string, seq<Advisory>>
    ghost var loaded: seq<Advisory>

    /** Each key holds exactly the loaded advisories whose name normalises to it. */
    ghost predicate Valid()
      reads this
    {
      forall k :: Named(loaded, k) == if k in advisories then advisories[k] else []
    }

    constructor (parse: Parser, strip: string -> string)
      ensures Valid() && loaded == [] && this.parse == parse && this.strip == strip
    {
      this.parse, this.strip := parse, strip;
      advisories, loaded := map[], [];
    }

    method Append(adv: Advisory)
      requires Valid()
      modifies this`advisories, this`loaded
      ensures Valid() && loaded == old(loaded) + [adv]
    {
      hide Normalize;
      var key := Normalize(adv.packageName);
      var entry := if key in advisories then advisories[key] else [];
      advisories := advisories[key := entry + [adv]];
      loaded := loaded + [adv];
      assert loaded[..|loaded| - 1] == old(loaded);
      forall k ensures Named(loaded, k) == if k in advisories then advisories[k] else [] {
        assert Named(old(loaded), k) == if k in old(advisories) then old(advisories)[k] else [];
      }
    }

    /** Files every advisory of every record, and reports how many there were. */
    method Load(entries: seq<Record>) returns (count: nat, ghost parts: seq<seq<Advisory>>)
      requires Valid()
      modifies this`advisories, this`loaded
      ensures Valid()
      ensures |parts| == |entries| && forall i :: 0 <= i < |entries| ==> ReadsRecord(parts[i], entries[i])
      ensures loaded == old(loaded) + Flatten(parts) && count == |Flatten(parts)|
    {
      hide Valid, ReadsEntry;
      count, parts := 0, [];
      for i := 0 to |entries|
        invariant Valid()
        invariant |parts| == i && forall k :: 0 <= k < i ==> ReadsRecord(parts[k], entries[k])
        invariant loaded == old(loaded) + Flatten(parts) && count == |Flatten(parts)|
      {
        var advs := FromOsv(entries[i]);
        ghost var before := loaded;
        var start := count;
        for k := 0 to |advs|
          invariant Valid() && loaded == before + advs[..k] && count == start + k
        {
          Append(advs[k]);
          count := count + 1;
          assert advs[..k + 1] == advs[..k] + [advs[k]];
        }
        assert advs[..|advs|] == advs;
        parts := parts + [advs];
        assert parts[..i] + [advs] == parts && Flatten(parts) == Flatten(parts[..i]) + advs;
        assert loaded == old(loaded) + Flatten(parts);
      }
    }

    method Check(name: string, version: string) returns (r: seq<Advisory>)
      requires Valid()
      ensures r == LinearScan(loaded, parse, strip, name, version)
    {
      hide IsAffected, Normalize;
      var key := Normalize(name);
      IndexedIsLinear(loaded, parse, strip, name, version);
      assert Named(loaded, key) == if key in advisories then advisories[key] else [];
      if key !in advisories {
        return [];
      }
      var candidates := advisories[key];
      r := [];
      for i := 0 to |candidates|
        invariant r == Affecting(candidates[..i], parse, strip, version)
      {
        AffectingMore(candidates[..i], candidates[i], parse, strip, version);
        assert candidates[..i + 1] == candidates[..i] + [candidates[i]];
        var hit := VersionAffected(parse, strip, version, candidates[i]);
        if hit {
          r := r + [candidates[i]];
        }
      }
      assert candidates[..|candidates|] == candidates;
    }

    /** The sum of the list lengths is the number of advisories ever loaded. */
    method AdvisoryCount() returns (n: nat)
      requires Valid()
      ensures n == |loaded|
    {
      hide Normalize, CountUnder;
      n := 0;
      var rest := advisories.Keys;
      CountAll(loaded, rest);
      while rest != {}
        invariant rest <= advisories.Keys && n + CountUnder(loaded, rest) == |loaded|
        decreases rest
      {
        var k :| k in rest;
        CountOneKey(loaded, rest, k);
        assert Named(loaded, k) == advisories[k];
        n := n + |advisories[k]|;
        rest := rest - {k};
      }
      CountNone(loaded);
    }
  }
}
