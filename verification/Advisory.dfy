/** Advisories read from OSV records, range membership, and the name-indexed advisory database. */
module Advisory {
  import opened Common
  import opened Sorting
  import opened Versions
  import opened PackageNames

  /** The version parser; the empty string does not parse. */
  type Parser = p: string -> Option<Version> | p("") == None witness (s: string) => None

  // ---------------------------------------------------------------- OSV records

  /** One event object; each key may be present. */
  datatype Event = Event(introduced: Option<string>, fixed: Option<string>, lastAffected: Option<string>)

  datatype Affected = Affected(ecosystem: string, name: string, ranges: seq<seq<Event>>, versions: seq<string>)

  datatype Record = Record(id: string, affected: seq<Affected>)

  /** Lower bound, upper bound ("" for none), and whether the upper bound is included. */
  datatype Range = Range(introduced: string, upper: string, inclusive: bool)

  datatype Advisory = Advisory(id: string, packageName: string, fixedVersion: string,
                               affectedVersions: seq<string>, affectedRanges: seq<Range>)

  const KNOWN_ECOSYSTEMS := {"npm", "pypi", "go", "cargo", "maven", "rubygems", "nuget"}

  /** OSV calls the cargo registry crates.io. */
  predicate KnownEcosystem(eco: string) {
    LowerAll(eco) == "crates.io" || LowerAll(eco) in KNOWN_ECOSYSTEMS
  }

  predicate Accepted(a: Affected) {
    KnownEcosystem(a.ecosystem) && a.name != ""
  }

  /** The same text, but for capital letters. */
  predicate SpelledAs(text: string, known: string) {
    |text| == |known| &&
    forall i :: 0 <= i < |text| ==>
      text[i] == known[i] || ('a' <= known[i] <= 'z' && text[i] as int == known[i] as int - 32)
  }

  ghost predicate LowerCase(s: string) {
    forall i :: 0 <= i < |s| ==> !('A' <= s[i] <= 'Z')
  }

  lemma {:induction false} LoweredIsSpelledAs(text: string, known: string)
    requires LowerCase(known)
    ensures LowerAll(text) == known <==> SpelledAs(text, known)
    decreases |text|
  {
    if text != "" {
      assert LowerAll(text) == [Lower(text[0])] + LowerAll(text[1..]);
      if known != "" {
        assert known == [known[0]] + known[1..];
        LoweredIsSpelledAs(text[1..], known[1..]);
        assert LowerAll(text)[1..] == LowerAll(text[1..]);
        assert SpelledAs(text, known) <==> SpelledAs(text[..1], known[..1]) && SpelledAs(text[1..], known[1..]) by {
          assert forall i :: 0 <= i < |text[1..]| ==> text[1..][i] == text[i + 1];
          assert forall i :: 0 <= i < |known[1..]| ==> known[1..][i] == known[i + 1];
          assert forall i :: 1 <= i < |text| ==> text[i] == text[1..][i - 1];
        }
      }
    }
  }

  /** The entries that are read: named, and of one of eight ecosystems in any capitals. */
  lemma {:induction false} AcceptedIff(a: Affected)
    ensures Accepted(a) <==>
              && a.name != ""
              && (SpelledAs(a.ecosystem, "npm") || SpelledAs(a.ecosystem, "pypi") || SpelledAs(a.ecosystem, "go")
                  || SpelledAs(a.ecosystem, "cargo") || SpelledAs(a.ecosystem, "crates.io") || SpelledAs(a.ecosystem, "maven")
                  || SpelledAs(a.ecosystem, "rubygems") || SpelledAs(a.ecosystem, "nuget"))
  {
    hide LowerAll, SpelledAs;
    LoweredIsSpelledAs(a.ecosystem, "npm");
    LoweredIsSpelledAs(a.ecosystem, "pypi");
    LoweredIsSpelledAs(a.ecosystem, "go");
    LoweredIsSpelledAs(a.ecosystem, "cargo");
    LoweredIsSpelledAs(a.ecosystem, "crates.io");
    LoweredIsSpelledAs(a.ecosystem, "maven");
    LoweredIsSpelledAs(a.ecosystem, "rubygems");
    LoweredIsSpelledAs(a.ecosystem, "nuget");
  }

  // ---------------------------------------------------------------- reading a record

  /** The last value among the events, "" if there is none. */
  function LastIntroduced(events: seq<Event>): string {
    if events == [] then ""
    else if events[|events| - 1].introduced.Some? then events[|events| - 1].introduced.value
    else LastIntroduced(events[..|events| - 1])
  }

  function LastFixed(events: seq<Event>): string {
    if events == [] then ""
    else if events[|events| - 1].fixed.Some? then events[|events| - 1].fixed.value
    else LastFixed(events[..|events| - 1])
  }

  function LastLastAffected(events: seq<Event>): string {
    if events == [] then ""
    else if events[|events| - 1].lastAffected.Some? then events[|events| - 1].lastAffected.value
    else LastLastAffected(events[..|events| - 1])
  }

  /** What is kept of one event list. */
  function RangeOf(events: seq<Event>): seq<Range> {
    var introduced, fixed, last := LastIntroduced(events), LastFixed(events), LastLastAffected(events);
    if introduced == "" then []
    else if fixed != "" then [Range(introduced, fixed, false)]
    else if last != "" then [Range(introduced, last, true)]
    else [Range(introduced, "", false)]
  }

  function RangesOf(ranges: seq<seq<Event>>): seq<Range> {
    if ranges == [] then [] else RangesOf(ranges[..|ranges| - 1]) + RangeOf(ranges[|ranges| - 1])
  }

  function FirstFixed(ranges: seq<seq<Event>>): string {
    if ranges == [] then ""
    else
      var f := FirstFixed(ranges[..|ranges| - 1]);
      if f != "" then f else LastFixed(ranges[|ranges| - 1])
  }

  method ReadEvents(events: seq<Event>) returns (introduced: string, fixed: string, last: string)
    ensures introduced == LastIntroduced(events) && fixed == LastFixed(events) && last == LastLastAffected(events)
  {
    introduced, fixed, last := "", "", "";
    for i := 0 to |events|
      invariant introduced == LastIntroduced(events[..i])
      invariant fixed == LastFixed(events[..i]) && last == LastLastAffected(events[..i])
    {
      var event := events[i];
      assert events[..i + 1][..i] == events[..i] && events[..i + 1][i] == event;
      if event.introduced.Some? {
        introduced := event.introduced.value;
      }
      if event.fixed.Some? {
        fixed := event.fixed.value;
      }
      if event.lastAffected.Some? {
        last := event.lastAffected.value;
      }
    }
    assert events[..|events|] == events;
  }

  /** The advisory of one accepted entry: it uses that entry's ranges and versions and no other's. */
  ghost predicate ReadsEntry(adv: Advisory, id: string, a: Affected) {
    && adv.id == id && adv.packageName == a.name
    && adv.affectedRanges == RangesOf(a.ranges) && adv.fixedVersion == FirstFixed(a.ranges)
    && Distinct(adv.affectedVersions) && (forall v :: v in adv.affectedVersions <==> v in a.versions)
  }

  method ReadAffected(id: string, a: Affected) returns (adv: Advisory)
    ensures ReadsEntry(adv, id, a)
  {
    hide LastIntroduced, LastFixed, LastLastAffected;
    var ranges: seq<Range> := [];
    var fixedVersion := "";
    for i := 0 to |a.ranges|
      invariant ranges == RangesOf(a.ranges[..i]) && fixedVersion == FirstFixed(a.ranges[..i])
    {
      assert a.ranges[..i + 1][..i] == a.ranges[..i] && a.ranges[..i + 1][i] == a.ranges[i];
      var introduced, fixed, last := ReadEvents(a.ranges[i]);
      if introduced != "" {
        if fixed != "" {
          ranges := ranges + [Range(introduced, fixed, false)];
        } else if last != "" {
          ranges := ranges + [Range(introduced, last, true)];
        } else {
          ranges := ranges + [Range(introduced, "", false)];
        }
      }
      if fixed != "" && fixedVersion == "" {
        fixedVersion := fixed;
      }
    }
    assert a.ranges[..|a.ranges|] == a.ranges;
    var versions: seq<string> := [];
    for i := 0 to |a.versions|
      invariant Distinct(versions) && forall v :: v in versions <==> v in a.versions[..i]
    {
      assert a.versions[..i + 1] == a.versions[..i] + [a.versions[i]];
      if a.versions[i] !in versions {
        versions := versions + [a.versions[i]];
      }
    }
    assert a.versions[..|a.versions|] == a.versions;
    adv := Advisory(id, a.name, fixedVersion, versions, ranges);
  }

  /** The entries that yield an advisory, in order. */
  function AcceptedOf(affected: seq<Affected>): seq<Affected> {
    if affected == [] then []
    else AcceptedOf(affected[..|affected| - 1]) + if Accepted(affected[|affected| - 1]) then [affected[|affected| - 1]] else []
  }

  /** One advisory per accepted entry, each reading its own entry only. */
  method FromOsv(r: Record) returns (advisories: seq<Advisory>)
    ensures |advisories| == |AcceptedOf(r.affected)|
    ensures forall i :: 0 <= i < |advisories| ==> ReadsEntry(advisories[i], r.id, AcceptedOf(r.affected)[i])
  {
    hide ReadsEntry, Accepted;
    advisories := [];
    for i := 0 to |r.affected|
      invariant |advisories| == |AcceptedOf(r.affected[..i])|
      invariant forall k :: 0 <= k < |advisories| ==> ReadsEntry(advisories[k], r.id, AcceptedOf(r.affected[..i])[k])
    {
      assert r.affected[..i + 1][..i] == r.affected[..i] && r.affected[..i + 1][i] == r.affected[i];
      if Accepted(r.affected[i]) {
        var adv := ReadAffected(r.id, r.affected[i]);
        advisories := advisories + [adv];
      }
    }
    assert r.affected[..|r.affected|] == r.affected;
  }

  // ---------------------------------------------------------------- is a version affected?

  predicate InRange(parse: Parser, v: Version, r: Range) {
    var iv, uv := parse(r.introduced), parse(r.upper);
    && iv.Some? && !Before(v, iv.value)
    && (uv.Some? ==> if r.inclusive then !Before(uv.value, v) else Before(v, uv.value))
  }

  /** The listed-version syntax: an operator and a version, or a version alone. */
  predicate InListed(parse: Parser, strip: string -> string, v: Version, listed: string) {
    var s := strip(listed);
    if ">=" <= s then var w := parse(s[2..]); w.Some? && !Before(v, w.value)
    else if "<=" <= s then var w := parse(s[2..]); w.Some? && !Before(w.value, v)
    else if ">" <= s then var w := parse(s[1..]); w.Some? && Before(w.value, v)
    else if "<" <= s then var w := parse(s[1..]); w.Some? && Before(v, w.value)
    else var w := parse(s); w.Some? && v == w.value
  }

  /** `text` parses to a version that `v` relates to. */
  ghost predicate AtOrAbove(parse: Parser, v: Version, text: string) {
    exists w :: parse(text) == Some(w) && (v == w || Before(w, v))
  }

  ghost predicate AtOrBelow(parse: Parser, v: Version, text: string) {
    exists w :: parse(text) == Some(w) && (v == w || Before(v, w))
  }

  /** What a listing flags: an operator in front of a version text flags the versions on that side of it, and a text
      without an operator the version it parses to. */
  ghost predicate ListingFlags(parse: Parser, strip: string -> string, v: Version, listed: string) {
    var s := strip(listed);
    || (exists text :: s == ">=" + text && AtOrAbove(parse, v, text))
    || (exists text :: s == "<=" + text && AtOrBelow(parse, v, text))
    || (exists text :: s == ">" + text && (text == "" || text[0] != '=') && AtOrAbove(parse, v, text) && parse(text) != Some(v))
    || (exists text :: s == "<" + text && (text == "" || text[0] != '=') && AtOrBelow(parse, v, text) && parse(text) != Some(v))
    || ((s == "" || (s[0] != '<' && s[0] != '>')) && parse(s) == Some(v))
  }

  lemma {:induction false} InListedIff(parse: Parser, strip: string -> string, v: Version, listed: string)
    ensures InListed(parse, strip, v, listed) <==> ListingFlags(parse, strip, v, listed)
  {
    hide Before;
    var s := strip(listed);
    forall w
      ensures !Before(v, w) <==> v == w || Before(w, v)
      ensures Before(v, w) ==> v != w
    {
      BeforeIsStrictTotalOrder(v, v, w);
      BeforeIsStrictTotalOrder(v, w, v);
      BeforeIsStrictTotalOrder(w, v, w);
    }
    AfterOperator(s, ">=");
    AfterOperator(s, "<=");
    AfterOperator(s, ">");
    AfterOperator(s, "<");
    assert ">" <= s <==> s != "" && s[0] == '>';
    assert "<" <= s <==> s != "" && s[0] == '<';
    assert ">=" <= s <==> |s| >= 2 && s[0] == '>' && s[1] == '=';
    assert "<=" <= s <==> |s| >= 2 && s[0] == '<' && s[1] == '=';
    if ">=" <= s || "<=" <= s {
      assert s[1..][0] == '=';
    } else if |s| >= 2 {
      assert s[1..][0] == s[1];
    }
  }

  lemma {:induction false} AfterOperator(s: string, op: string)
    ensures op <= s ==> s == op + s[|op|..]
    ensures forall text :: s == op + text ==> op <= s && text == s[|op|..]
  {
  }

  predicate IsAffected(parse: Parser, strip: string -> string, version: string, adv: Advisory) {
    parse(version).Some? &&
    var v := parse(version).value;
    || (exists i :: 0 <= i < |adv.affectedRanges| && InRange(parse, v, adv.affectedRanges[i]))
    || (adv.affectedRanges == [] && parse(adv.fixedVersion).Some? && Before(v, parse(adv.fixedVersion).value))
    || (exists i :: 0 <= i < |adv.affectedVersions| && InListed(parse, strip, v, adv.affectedVersions[i]))
  }

  /** A range holds the version, or without ranges it lies below the fixed one, or a listing flags it. */
  ghost predicate Concerns(parse: Parser, strip: string -> string, version: string, adv: Advisory) {
    parse(version).Some? &&
    var v := parse(version).value;
      || (exists r :: r in adv.affectedRanges && AtOrAbove(parse, v, r.introduced)
                      && (parse(r.upper).None?
                          || (AtOrBelow(parse, v, r.upper) && (r.inclusive || parse(r.upper) != Some(v)))))
      || (adv.affectedRanges == [] && AtOrBelow(parse, v, adv.fixedVersion) && parse(adv.fixedVersion) != Some(v))
      || (exists listed :: listed in adv.affectedVersions && ListingFlags(parse, strip, v, listed))
  }

  lemma {:induction false} IsAffectedIff(parse: Parser, strip: string -> string, version: string, adv: Advisory)
    ensures IsAffected(parse, strip, version, adv) <==> Concerns(parse, strip, version, adv)
  {
    hide Before, InListed, ListingFlags;
    if parse(version).Some? {
      var v := parse(version).value;
      forall w
        ensures !Before(v, w) <==> v == w || Before(w, v)
        ensures !Before(w, v) <==> v == w || Before(v, w)
      {
        BeforeIsStrictTotalOrder(v, v, w);
        BeforeIsStrictTotalOrder(v, w, v);
        BeforeIsStrictTotalOrder(w, v, w);
      }
      forall listed ensures InListed(parse, strip, v, listed) <==> ListingFlags(parse, strip, v, listed) {
        InListedIff(parse, strip, v, listed);
      }
      if i :| 0 <= i < |adv.affectedVersions| && InListed(parse, strip, v, adv.affectedVersions[i]) {
        assert adv.affectedVersions[i] in adv.affectedVersions;
      }
    }
  }

  method VersionAffected(parse: Parser, strip: string -> string, version: string, adv: Advisory) returns (r: bool)
    ensures r == IsAffected(parse, strip, version, adv) && (r <==> Concerns(parse, strip, version, adv))
  {
    IsAffectedIff(parse, strip, version, adv);
    hide Concerns;
    hide InListed, Before;
    var parsed := parse(version);
    if parsed.None? {
      return false;
    }
    var v := parsed.value;
    for i := 0 to |adv.affectedRanges|
      invariant forall k :: 0 <= k < i ==> !InRange(parse, v, adv.affectedRanges[k])
    {
      var range := adv.affectedRanges[i];
      var iv := parse(range.introduced);
      if iv.None? {
        continue;
      }
      if Before(v, iv.value) {
        continue;
      }
      if range.upper != "" {
        var uv := parse(range.upper);
        if uv.Some? {
          if range.inclusive {
            if Before(uv.value, v) {
              continue;
            }
          } else if !Before(v, uv.value) {
            continue;
          }
        }
      }
      return true;
    }
    if adv.affectedRanges == [] {
      var fv := parse(adv.fixedVersion);
      if fv.Some? && Before(v, fv.value) {
        return true;
      }
    }
    r := exists i :: 0 <= i < |adv.affectedVersions| && InListed(parse, strip, v, adv.affectedVersions[i]);
  }
}
