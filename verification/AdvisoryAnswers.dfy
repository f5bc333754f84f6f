/** From OSV records to answers: the database says what the schema and the package names say. */
module AdvisoryAnswers {
  import opened Common
  import opened Versions
  import opened PackageNames
  import opened Advisory
  import opened OsvRanges
  import opened AdvisoryDB

  // ---------------------------------------------------------------- what the schema says of a record

  /** The point of one version string; a string that does not parse gives none. */
  function PointAt(parse: Parser, at: Option<string>, point: Version -> Point): seq<Point> {
    if at.Some? && parse(at.value).Some? then [point(parse(at.value).value)] else []
  }

  function PointsOfEvent(parse: Parser, e: Event): seq<Point> {
    PointAt(parse, e.introduced, v => Introduced(v)) + PointAt(parse, e.fixed, v => Fixed(v))
    + PointAt(parse, e.lastAffected, v => LastAffected(v))
  }

  /** The events of a range, as listed. */
  function PointsOfEvents(parse: Parser, events: seq<Event>): seq<Point> {
    if events == [] then []
    else PointsOfEvents(parse, events[..|events| - 1]) + PointsOfEvent(parse, events[|events| - 1])
  }

  /** The schema flags the version on one of the entry's ranges, or the version is listed. */
  ghost predicate SchemaFlags(parse: Parser, strip: string -> string, a: Affected, version: string) {
    parse(version).Some? &&
    var v := parse(version).value;
    || (exists k :: 0 <= k < |a.ranges| && Vulnerable(PointsOfEvents(parse, a.ranges[k]), v))
    || (exists listed :: listed in a.versions && ListingFlags(parse, strip, v, listed))
  }

  /** An accepted entry and the id of its record. */
  datatype Source = Source(id: string, entry: Affected)

  function SourcesOfRecord(id: string, entries: seq<Affected>): seq<Source> {
    seq(|entries|, i requires 0 <= i < |entries| => Source(id, entries[i]))
  }

  function Sources(records: seq<Record>): seq<Source> {
    if records == [] then []
    else
      var r := records[|records| - 1];
      Sources(records[..|records| - 1]) + SourcesOfRecord(r.id, AcceptedOf(r.affected))
  }

  /** The entries that concern the package and the version, in record order. */
  ghost function Concerning(sources: seq<Source>, parse: Parser, strip: string -> string, name: string, version: string)
    : seq<Source>
  {
    if sources == [] then []
    else
      var s := sources[|sources| - 1];
      Concerning(sources[..|sources| - 1], parse, strip, name, version)
      + if Equivalent(s.entry.name, name) && SchemaFlags(parse, strip, s.entry, version) then [s] else []
  }

  /** Every range has one `introduced` and at most one upper event, with parseable bounds in order. */
  ghost predicate SingleIntervals(parse: Parser, a: Affected) {
    exists intervals :: a.ranges == AllEvents(intervals)
                        && forall k :: 0 <= k < |intervals| ==> Parses(parse, intervals[k]) && Ordered(parse, intervals[k])
  }

  /** Each advisory reads its own entry. */
  ghost predicate Reads(advs: seq<Advisory>, sources: seq<Source>) {
    |advs| == |sources| && forall i :: 0 <= i < |advs| ==> ReadsEntry(advs[i], sources[i].id, sources[i].entry)
  }

  // ---------------------------------------------------------------- one entry

  lemma {:induction false} PointsOfInterval(parse: Parser, s: Interval)
    requires Parses(parse, s)
    ensures PointsOfEvents(parse, EventsOf(s)) == PointsOf(parse, s)
  {
    var low := Event(Some(s.introduced), None, None);
    var high := if s.inclusive then Event(None, None, s.upper) else Event(None, s.upper, None);
    assert PointsOfEvent(parse, low) == [Introduced(Low(parse, s))];
    PointsOfOne(parse, low);
    if s.upper.Some? {
      PointsOfOne(parse, high);
      PointsOfTwo(parse, low, high);
      PointsOfTwo(parse, high, low);
    }
  }

  lemma {:induction false} PointsOfOne(parse: Parser, e: Event)
    ensures PointsOfEvents(parse, [e]) == PointsOfEvent(parse, e)
  {
    assert [e][..0] == [] && PointsOfEvents(parse, []) == [];
  }

  lemma {:induction false} PointsOfTwo(parse: Parser, d: Event, e: Event)
    ensures PointsOfEvents(parse, [d, e]) == PointsOfEvent(parse, d) + PointsOfEvent(parse, e)
  {
    assert [d, e][..1] == [d];
    PointsOfOne(parse, d);
  }

  lemma {:induction false} EventsAt(intervals: seq<Interval>)
    ensures |AllEvents(intervals)| == |intervals|
    ensures forall k :: 0 <= k < |intervals| ==> AllEvents(intervals)[k] == EventsOf(intervals[k])
    decreases |intervals|
  {
    hide EventsOf;
    if intervals != [] {
      EventsAt(intervals[..|intervals| - 1]);
    }
  }

  lemma {:induction false} RangesFlag(parse: Parser, intervals: seq<Interval>, ranges: seq<seq<Event>>, v: Version)
    requires ranges == AllEvents(intervals) && forall k :: 0 <= k < |intervals| ==> Parses(parse, intervals[k])
    ensures (exists k :: 0 <= k < |ranges| && Vulnerable(PointsOfEvents(parse, ranges[k]), v)) <==>
            (exists k :: 0 <= k < |intervals| && Vulnerable(PointsOf(parse, intervals[k]), v))
  {
    hide Vulnerable, PointsOf, EventsOf, PointsOfEvents, Parses;
    EventsAt(intervals);
    forall k | 0 <= k < |intervals|
      ensures PointsOfEvents(parse, ranges[k]) == PointsOf(parse, intervals[k])
    {
      PointsOfInterval(parse, intervals[k]);
    }
  }

  lemma {:induction false} ListingsFlag(parse: Parser, strip: string -> string, versions: seq<string>, v: Version)
    ensures (exists listed :: listed in versions && InListed(parse, strip, v, listed)) <==>
            (exists listed :: listed in versions && ListingFlags(parse, strip, v, listed))
  {
    hide InListed, ListingFlags;
    forall listed
      ensures InListed(parse, strip, v, listed) <==> ListingFlags(parse, strip, v, listed)
    {
      InListedIff(parse, strip, v, listed);
    }
  }

  /** An advisory flags what the schema says of its entry. */
  lemma {:induction false} EntryFlags(parse: Parser, strip: string -> string, adv: Advisory, s: Source, version: string)
    requires ReadsEntry(adv, s.id, s.entry) && SingleIntervals(parse, s.entry)
    ensures IsAffected(parse, strip, version, adv) <==> SchemaFlags(parse, strip, s.entry, version)
  {
    if parse(version).None? {
      return;
    }
    hide Vulnerable, InListed, ListingFlags, Ordered, Parses, PointsOf, EventsOf, AllEvents, PointsOfEvents, ReadsEntry,
      IsAffected, InRange;
    var v := parse(version).value;
    var intervals :| s.entry.ranges == AllEvents(intervals)
                     && forall k :: 0 <= k < |intervals| ==> Parses(parse, intervals[k]) && Ordered(parse, intervals[k]);
    RangesFlag(parse, intervals, s.entry.ranges, v);
    ListingsFlag(parse, strip, s.entry.versions, v);
    EntryAgrees(parse, strip, intervals, s.id, s.entry, adv, version);
  }

  lemma {:induction false} EntryMatches(parse: Parser, strip: string -> string, adv: Advisory, s: Source, name: string, version: string)
    requires ReadsEntry(adv, s.id, s.entry) && SingleIntervals(parse, s.entry)
    ensures Matches(adv, parse, strip, name, version) <==>
              Equivalent(s.entry.name, name) && SchemaFlags(parse, strip, s.entry, version)
  {
    hide IsAffected, SchemaFlags, SingleIntervals, Normalize, Equivalent;
    NormalizeAlikeIff(s.entry.name, name);
    EntryFlags(parse, strip, adv, s, version);
  }

  // ---------------------------------------------------------------- the whole database

  lemma {:induction false} ScanReadsConcerning(loaded: seq<Advisory>, sources: seq<Source>, parse: Parser, strip: string -> string,
                                               name: string, version: string)
    requires Reads(loaded, sources) && forall i :: 0 <= i < |sources| ==> SingleIntervals(parse, sources[i].entry)
    ensures Reads(LinearScan(loaded, parse, strip, name, version), Concerning(sources, parse, strip, name, version))
    decreases |loaded|
  {
    hide ReadsEntry, SingleIntervals, Matches, SchemaFlags, Equivalent;
    if loaded != [] {
      var n := |loaded| - 1;
      ScanReadsConcerning(loaded[..n], sources[..n], parse, strip, name, version);
      EntryMatches(parse, strip, loaded[n], sources[n], name, version);
    }
  }

  lemma {:induction false} LoadedReadsSources(parts: seq<seq<Advisory>>, records: seq<Record>)
    requires |parts| == |records| && forall i :: 0 <= i < |records| ==> ReadsRecord(parts[i], records[i])
    ensures Reads(Flatten(parts), Sources(records))
    decreases |parts|
  {
    hide ReadsEntry, AcceptedOf;
    if parts != [] {
      var n := |parts| - 1;
      LoadedReadsSources(parts[..n], records[..n]);
    }
  }

  /** Loading records and asking: the answer has one advisory, read from its own entry, for each accepted entry whose
      name is equivalent and which the schema flags or lists, in record order. */
  method LoadAndCheck(parse: Parser, strip: string -> string, records: seq<Record>, name: string, version: string)
    returns (r: seq<Advisory>)
    requires forall i :: 0 <= i < |Sources(records)| ==> SingleIntervals(parse, Sources(records)[i].entry)
    ensures Reads(r, Concerning(Sources(records), parse, strip, name, version))
  {
    hide SingleIntervals, ReadsRecord, Flatten, Sources, Reads, LinearScan, Concerning;
    var db := new Database(parse, strip);
    var count, parts := db.Load(records);
    assert [] + Flatten(parts) == Flatten(parts);
    LoadedReadsSources(parts, records);
    r := db.Check(name, version);
    ScanReadsConcerning(db.loaded, Sources(records), parse, strip, name, version);
  }
}
