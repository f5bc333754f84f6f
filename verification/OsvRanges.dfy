/** The OSV schema's own evaluation of range events, compared with what the advisory reader keeps. */
module OsvRanges {
  import opened Common
  import opened Sorting
  import opened Versions
  import opened Advisory

  // ---------------------------------------------------------------- evaluation as the schema defines it

  datatype Point = Introduced(at: Version) | Fixed(at: Version) | LastAffected(at: Version)

  predicate PointLe(p: Point, q: Point) {
    AtMost(p.at, q.at)
  }

  /** Events in version order switch the verdict on and off. */
  predicate Evaluate(points: seq<Point>, v: Version, vulnerable: bool)
    decreases |points|
  {
    if points == [] then vulnerable
    else
      var now := match points[0]
        case Introduced(i) => !Before(v, i) || vulnerable
        case Fixed(f) => Before(v, f) && vulnerable
        case LastAffected(l) => !Before(l, v) && vulnerable;
      Evaluate(points[1..], v, now)
  }

  predicate Vulnerable(points: seq<Point>, v: Version) {
    Evaluate(Sort(points, PointLe), v, false)
  }

  // ---------------------------------------------------------------- ranges with one interval

  /** One `introduced` event and at most one upper event, listed in either order. */
  datatype Interval = Interval(introduced: string, upper: Option<string>, inclusive: bool, introducedFirst: bool)

  function EventsOf(s: Interval): seq<Event> {
    var low := Event(Some(s.introduced), None, None);
    if s.upper.None? then [low]
    else
      var high := if s.inclusive then Event(None, None, s.upper) else Event(None, s.upper, None);
      if s.introducedFirst then [low, high] else [high, low]
  }

  predicate Parses(parse: Parser, s: Interval) {
    parse(s.introduced).Some? && (s.upper.Some? ==> parse(s.upper.value).Some?)
  }

  function Low(parse: Parser, s: Interval): Version
    requires Parses(parse, s)
  {
    parse(s.introduced).value
  }

  function High(parse: Parser, s: Interval): Version
    requires Parses(parse, s) && s.upper.Some?
  {
    parse(s.upper.value).value
  }

  function PointsOf(parse: Parser, s: Interval): seq<Point>
    requires Parses(parse, s)
  {
    var low := Introduced(Low(parse, s));
    if s.upper.None? then [low]
    else
      var u := High(parse, s);
      var high := if s.inclusive then LastAffected(u) else Fixed(u);
      if s.introducedFirst then [low, high] else [high, low]
  }

  /** The bounds are in order; on a tie the lower one is listed first. */
  predicate Ordered(parse: Parser, s: Interval)
    requires Parses(parse, s)
  {
    s.upper.Some? ==> Before(Low(parse, s), High(parse, s)) || (Low(parse, s) == High(parse, s) && s.introducedFirst)
  }

  function Kept(s: Interval): Range {
    Range(s.introduced, if s.upper.Some? then s.upper.value else "", s.upper.Some? && s.inclusive)
  }

  lemma {:induction false} LastOfOne(e: Event)
    ensures LastIntroduced([e]) == if e.introduced.Some? then e.introduced.value else ""
    ensures LastFixed([e]) == if e.fixed.Some? then e.fixed.value else ""
    ensures LastLastAffected([e]) == if e.lastAffected.Some? then e.lastAffected.value else ""
  {
    assert [e][..0] == [];
  }

  lemma {:induction false} LastOfTwo(d: Event, e: Event)
    ensures LastIntroduced([d, e]) == if e.introduced.Some? then e.introduced.value else LastIntroduced([d])
    ensures LastFixed([d, e]) == if e.fixed.Some? then e.fixed.value else LastFixed([d])
    ensures LastLastAffected([d, e]) == if e.lastAffected.Some? then e.lastAffected.value else LastLastAffected([d])
    ensures LastIntroduced([d]) == if d.introduced.Some? then d.introduced.value else ""
    ensures LastFixed([d]) == if d.fixed.Some? then d.fixed.value else ""
    ensures LastLastAffected([d]) == if d.lastAffected.Some? then d.lastAffected.value else ""
  {
    LastOfOne(d);
    assert [d, e][..1] == [d];
  }

  /** The reader keeps both bounds of such a range. */
  lemma {:induction false} RangeIsKept(parse: Parser, s: Interval)
    requires Parses(parse, s)
    ensures RangeOf(EventsOf(s)) == [Kept(s)]
  {
    hide LastIntroduced, LastFixed, LastLastAffected;
    var low := Event(Some(s.introduced), None, None);
    if s.upper.None? {
      LastOfOne(low);
    } else {
      var high := if s.inclusive then Event(None, None, s.upper) else Event(None, s.upper, None);
      LastOfTwo(low, high);
      LastOfTwo(high, low);
    }
  }

  lemma {:induction false} SortTwo(p: Point, q: Point)
    ensures Sort([p, q], PointLe) == if PointLe(p, q) then [p, q] else [q, p]
    ensures Sort([p], PointLe) == [p]
  {
    hide PointLe;
    assert [p, q][1..] == [q] && [q][1..] == [] && [p][1..] == [];
    assert Sort([q], PointLe) == Place(q, [], PointLe) == [q];
    assert Sort([p, q], PointLe) == Place(p, [q], PointLe);
  }

  lemma {:induction false} EvaluateOne(p: Point, v: Version, before: bool)
    ensures Evaluate([p], v, before) ==
              match p
              case Introduced(i) => !Before(v, i) || before
              case Fixed(f) => Before(v, f) && before
              case LastAffected(l) => !Before(l, v) && before
  {
    assert [p][1..] == [];
  }

  /** What the schema says of one interval. */
  lemma {:induction false} VulnerableInterval(parse: Parser, s: Interval, v: Version)
    requires Parses(parse, s)
    ensures Vulnerable(PointsOf(parse, s), v) <==>
              && !Before(v, Low(parse, s))
              && (s.upper.Some? && Ordered(parse, s) ==>
                    if s.inclusive then !Before(High(parse, s), v) else Before(v, High(parse, s)))
  {
    hide Before;
    var i := Low(parse, s);
    if s.upper.None? {
      SortTwo(Introduced(i), Introduced(i));
      EvaluateOne(Introduced(i), v, false);
    } else {
      var u := High(parse, s);
      var low, high := Introduced(i), if s.inclusive then LastAffected(u) else Fixed(u);
      SortTwo(low, high);
      SortTwo(high, low);
      EvaluateOne(low, v, false);
      EvaluateOne(high, v, false);
      EvaluateOne(high, v, Evaluate([low], v, false));
      EvaluateOne(low, v, Evaluate([high], v, false));
      BeforeIsStrictTotalOrder(i, u, i);
      BeforeIsStrictTotalOrder(u, i, u);
    }
  }

  /** The code and the schema flag the same versions, if and only if the bounds are in order. */
  lemma {:induction false} IntervalAgreesIff(parse: Parser, s: Interval)
    requires Parses(parse, s)
    ensures (forall v :: InRange(parse, v, Kept(s)) <==> Vulnerable(PointsOf(parse, s), v)) <==> Ordered(parse, s)
  {
    hide Before, Vulnerable;
    forall v
      ensures Ordered(parse, s) ==> (InRange(parse, v, Kept(s)) <==> Vulnerable(PointsOf(parse, s), v))
    {
      VulnerableInterval(parse, s, v);
    }
    if !Ordered(parse, s) {
      MisorderedDiffers(parse, s);
    }
  }

  lemma {:induction false} MisorderedDiffers(parse: Parser, s: Interval)
    requires Parses(parse, s) && !Ordered(parse, s)
    ensures exists v :: InRange(parse, v, Kept(s)) != Vulnerable(PointsOf(parse, s), v)
  {
    hide Vulnerable;
    var i, u := Low(parse, s), High(parse, s);
    BeforeIsStrictTotalOrder(u, i, u);
    BeforeIsStrictTotalOrder(i, u, i);
    BeforeIsStrictTotalOrder(i, i, u);
    var v := i;
    if i == u && s.inclusive {
      v := i.(major := i.major + 1);
      assert Before(i, v) && !Before(v, i);
    }
    VulnerableInterval(parse, s, v);
    assert InRange(parse, v, Kept(s)) != Vulnerable(PointsOf(parse, s), v);
  }

  // ---------------------------------------------------------------- whole entries

  function AllEvents(intervals: seq<Interval>): seq<seq<Event>> {
    if intervals == [] then [] else AllEvents(intervals[..|intervals| - 1]) + [EventsOf(intervals[|intervals| - 1])]
  }

  lemma {:induction false} AllRangesKept(parse: Parser, intervals: seq<Interval>)
    requires forall k :: 0 <= k < |intervals| ==> Parses(parse, intervals[k])
    ensures |AllEvents(intervals)| == |intervals| == |RangesOf(AllEvents(intervals))|
    ensures forall k :: 0 <= k < |intervals| ==> RangesOf(AllEvents(intervals))[k] == Kept(intervals[k])
    decreases |intervals|
  {
    hide EventsOf, RangeOf, Parses;
    if intervals != [] {
      var n := |intervals| - 1;
      AllRangesKept(parse, intervals[..n]);
      RangeIsKept(parse, intervals[n]);
      var all := AllEvents(intervals);
      assert all[..n] == AllEvents(intervals[..n]) && all[n] == EventsOf(intervals[n]);
    }
  }

  /** An advisory read from single-interval ranges flags a version exactly when the schema does for one of
      the entry's own ranges, or the version is listed. */
  lemma {:induction false} EntryAgrees(parse: Parser, strip: string -> string, intervals: seq<Interval>, id: string, a: Affected,
                    adv: Advisory, version: string)
    requires forall k :: 0 <= k < |intervals| ==> Parses(parse, intervals[k]) && Ordered(parse, intervals[k])
    requires a.ranges == AllEvents(intervals) && ReadsEntry(adv, id, a) && parse(version).Some?
    ensures IsAffected(parse, strip, version, adv) <==>
              || (exists k :: 0 <= k < |intervals| && Vulnerable(PointsOf(parse, intervals[k]), parse(version).value))
              || (exists listed :: listed in a.versions && InListed(parse, strip, parse(version).value, listed))
  {
    hide Vulnerable, InListed, Before, InRange, Ordered, PointsOf;
    var v := parse(version).value;
    RangesAgree(parse, intervals, v);
    AllRangesKept(parse, intervals);
    if intervals == [] {
      assert adv.fixedVersion == "";
    }
  }

  lemma {:induction false} RangesAgree(parse: Parser, intervals: seq<Interval>, v: Version)
    requires forall k :: 0 <= k < |intervals| ==> Parses(parse, intervals[k]) && Ordered(parse, intervals[k])
    ensures
      var ranges := RangesOf(AllEvents(intervals));
      (exists k :: 0 <= k < |ranges| && InRange(parse, v, ranges[k])) <==>
      (exists k :: 0 <= k < |intervals| && Vulnerable(PointsOf(parse, intervals[k]), v))
  {
    hide Vulnerable, Before, InRange, Ordered, PointsOf;
    AllRangesKept(parse, intervals);
    var ranges := RangesOf(AllEvents(intervals));
    if k :| 0 <= k < |ranges| && InRange(parse, v, ranges[k]) {
      IntervalAgreesIff(parse, intervals[k]);
      assert Vulnerable(PointsOf(parse, intervals[k]), v);
    }
    if k :| 0 <= k < |intervals| && Vulnerable(PointsOf(parse, intervals[k]), v) {
      IntervalAgreesIff(parse, intervals[k]);
      assert InRange(parse, v, ranges[k]);
    }
  }

  // ---------------------------------------------------------------- ranges with several intervals

  /** The schema evaluates in version order, whatever the listed order. */
  lemma {:induction false} EvaluatesInVersionOrder(points: seq<Point>)
    ensures SortedBy(Sort(points, PointLe), PointLe) && multiset(Sort(points, PointLe)) == multiset(points)
    ensures SortedBy(points, PointLe) ==> Sort(points, PointLe) == points
  {
    PointOrder();
    SortProperties(points, PointLe);
    if SortedBy(points, PointLe) {
      SortSorted(points);
    }
  }

  lemma {:induction false} PointOrder()
    ensures TotalPreorder(PointLe)
  {
    hide Before;
    AtMostOrder();
  }

  lemma {:induction false} SortSorted(points: seq<Point>)
    requires SortedBy(points, PointLe)
    ensures Sort(points, PointLe) == points
    decreases |points|
  {
    if points != [] {
      SortSorted(points[1..]);
      assert points == [points[0]] + points[1..];
    }
  }

  function EventsOfAll(spans: seq<Interval>): seq<Event> {
    if spans == [] then [] else EventsOfAll(spans[..|spans| - 1]) + EventsOf(spans[|spans| - 1])
  }

  function PointsOfAll(parse: Parser, spans: seq<Interval>): seq<Point>
    requires forall i :: 0 <= i < |spans| ==> Parses(parse, spans[i])
  {
    if spans == [] then [] else PointsOfAll(parse, spans[..|spans| - 1]) + PointsOf(parse, spans[|spans| - 1])
  }

  lemma {:induction false} OneInterval(parse: Parser, s: Interval)
    requires Parses(parse, s)
    ensures EventsOfAll([s]) == EventsOf(s) && PointsOfAll(parse, [s]) == PointsOf(parse, s)
  {
    assert [s][..0] == [];
    assert PointsOfAll(parse, [s]) == PointsOfAll(parse, [s][..0]) + PointsOf(parse, s);
    assert PointsOfAll(parse, []) == [];
  }

  lemma {:induction false} TwoIntervals(parse: Parser, s: Interval, t: Interval)
    requires Parses(parse, s) && Parses(parse, t)
    ensures EventsOfAll([s, t]) == EventsOf(s) + EventsOf(t)
    ensures PointsOfAll(parse, [s, t]) == PointsOf(parse, s) + PointsOf(parse, t)
  {
    hide EventsOf, PointsOf;
    assert [s, t][..1] == [s];
    OneInterval(parse, s);
  }

  /** Non-empty intervals listed in ascending order, the next starting after the end of the one before, at the
      earliest where that was fixed; only the last may lack an upper event. */
  ghost predicate Ascending(parse: Parser, spans: seq<Interval>) {
    && spans != []
    && (forall i :: 0 <= i < |spans| ==> Parses(parse, spans[i]) && spans[i].introducedFirst)
    && (forall i :: 0 <= i < |spans| - 1 ==> spans[i].upper.Some?)
    && (forall i :: 0 <= i < |spans| && spans[i].upper.Some? ==>
          Before(Low(parse, spans[i]), High(parse, spans[i]))
          || (spans[i].inclusive && Low(parse, spans[i]) == High(parse, spans[i])))
    && (forall i :: 0 <= i < |spans| - 1 ==> EndsBefore(parse, spans[i], spans[i + 1]))
  }

  predicate EndsBefore(parse: Parser, s: Interval, t: Interval)
    requires Parses(parse, s) && Parses(parse, t) && s.upper.Some?
  {
    Before(High(parse, s), Low(parse, t)) || (!s.inclusive && High(parse, s) == Low(parse, t))
  }

  /** Before a later interval starts, the earlier ones have started and ended. */
  lemma {:induction false} EarlierIsBelow(parse: Parser, spans: seq<Interval>, i: nat, j: nat)
    requires Ascending(parse, spans) && i < j < |spans|
    ensures EndsBefore(parse, spans[i], spans[j]) && Before(Low(parse, spans[i]), Low(parse, spans[j]))
    decreases j
  {
    hide Before;
    var l, m := Low(parse, spans[j - 1]), Low(parse, spans[j]);
    assert EndsBefore(parse, spans[j - 1], spans[j]);
    BeforeIsStrictTotalOrder(l, High(parse, spans[j - 1]), m);
    if i < j - 1 {
      EarlierIsBelow(parse, spans, i, j - 1);
      BeforeIsStrictTotalOrder(High(parse, spans[i]), l, m);
      BeforeIsStrictTotalOrder(Low(parse, spans[i]), l, m);
    }
  }

  /** Every event of all is an event of one. */
  lemma {:induction false} PointOf(parse: Parser, spans: seq<Interval>, p: Point) returns (i: nat)
    requires forall i :: 0 <= i < |spans| ==> Parses(parse, spans[i])
    requires p in PointsOfAll(parse, spans)
    ensures i < |spans| && p in PointsOf(parse, spans[i])
    decreases |spans|
  {
    hide PointsOf;
    var n := |spans| - 1;
    if p in PointsOfAll(parse, spans[..n]) {
      i := PointOf(parse, spans[..n], p);
    } else {
      i := n;
    }
  }

  /** Listed as they are, the events are in version order. */
  lemma {:induction false} AscendingIsSorted(parse: Parser, spans: seq<Interval>)
    requires Ascending(parse, spans)
    ensures SortedBy(PointsOfAll(parse, spans), PointLe)
    decreases |spans|
  {
    hide Before, PointsOf;
    var n := |spans| - 1;
    var last := PointsOf(parse, spans[n]);
    assert SortedBy(last, PointLe) by { IntervalIsSorted(parse, spans[n]); }
    if n > 0 {
      var less := PointsOfAll(parse, spans[..n]);
      AscendingIsSorted(parse, spans[..n]);
      forall p, q | p in less && q in last
        ensures PointLe(p, q)
      {
        var i := PointOf(parse, spans[..n], p);
        EarlierIsBelow(parse, spans, i, n);
        EarlierPoints(parse, spans[i], spans[n], p, q);
      }
    }
  }

  lemma {:induction false} IntervalIsSorted(parse: Parser, s: Interval)
    requires Parses(parse, s) && s.introducedFirst
    requires s.upper.Some? ==> Before(Low(parse, s), High(parse, s)) || Low(parse, s) == High(parse, s)
    ensures SortedBy(PointsOf(parse, s), PointLe)
  {
    hide Before;
    if s.upper.Some? {
      BeforeIsStrictTotalOrder(Low(parse, s), High(parse, s), Low(parse, s));
      BeforeIsStrictTotalOrder(Low(parse, s), Low(parse, s), Low(parse, s));
    }
  }

  /** An event of an interval that ends before another starts is below that one's events. */
  lemma {:induction false} EarlierPoints(parse: Parser, s: Interval, t: Interval, p: Point, q: Point)
    requires Parses(parse, s) && Parses(parse, t) && s.upper.Some?
    requires p in PointsOf(parse, s) && q in PointsOf(parse, t)
    requires Before(Low(parse, s), Low(parse, t)) && EndsBefore(parse, s, t)
    requires t.upper.Some? ==> Before(Low(parse, t), High(parse, t)) || Low(parse, t) == High(parse, t)
    ensures PointLe(p, q)
  {
    hide Before;
    assert p.at == Low(parse, s) || p.at == High(parse, s);
    assert q.at == Low(parse, t) || (t.upper.Some? && q.at == High(parse, t));
    BeforeIsStrictTotalOrder(p.at, Low(parse, t), q.at);
    BeforeIsStrictTotalOrder(p.at, q.at, p.at);
    BeforeIsStrictTotalOrder(q.at, p.at, q.at);
  }

  /** Once on, the verdict stays on while no event switches it off. */
  lemma {:induction false} StaysVulnerable(points: seq<Point>, v: Version)
    requires forall p :: p in points ==> (p.Fixed? ==> Before(v, p.at)) && (p.LastAffected? ==> !Before(p.at, v))
    ensures Evaluate(points, v, true)
    decreases |points|
  {
    hide Before;
    if points != [] {
      StaysVulnerable(points[1..], v);
    }
  }

  /** The schema flags the version the first interval starts with. */
  lemma {:induction false} FirstIsVulnerable(parse: Parser, spans: seq<Interval>)
    requires Ascending(parse, spans)
    ensures Vulnerable(PointsOfAll(parse, spans), Low(parse, spans[0]))
  {
    hide PointsOf, SortedBy;
    var v := Low(parse, spans[0]);
    var points := PointsOfAll(parse, spans);
    AscendingIsSorted(parse, spans);
    EvaluatesInVersionOrder(points);
    forall p | p in points
      ensures (p.Fixed? ==> Before(v, p.at)) && (p.LastAffected? ==> !Before(p.at, v))
    {
      var i := PointOf(parse, spans, p);
      if i > 0 {
        EarlierIsBelow(parse, spans, 0, i);
      }
      UpperIsAbove(parse, spans[i], v, p);
    }
    StartsIntroduced(parse, spans);
    BeforeIsStrictTotalOrder(v, v, v);
    assert points == [points[0]] + points[1..];
    StaysVulnerable(points[1..], v);
  }

  lemma {:induction false} UpperIsAbove(parse: Parser, s: Interval, v: Version, p: Point)
    requires Parses(parse, s) && p in PointsOf(parse, s)
    requires v == Low(parse, s) || Before(v, Low(parse, s))
    requires s.upper.Some? ==> Before(Low(parse, s), High(parse, s)) || (s.inclusive && Low(parse, s) == High(parse, s))
    ensures (p.Fixed? ==> Before(v, p.at)) && (p.LastAffected? ==> !Before(p.at, v))
  {
    hide Before;
    if s.upper.Some? {
      BeforeIsStrictTotalOrder(v, Low(parse, s), High(parse, s));
      BeforeIsStrictTotalOrder(v, High(parse, s), v);
      BeforeIsStrictTotalOrder(v, v, v);
    }
  }

  lemma {:induction false} StartsIntroduced(parse: Parser, spans: seq<Interval>)
    requires spans != [] && forall i :: 0 <= i < |spans| ==> Parses(parse, spans[i]) && spans[i].introducedFirst
    ensures PointsOfAll(parse, spans) != [] && PointsOfAll(parse, spans)[0] == Introduced(Low(parse, spans[0]))
    decreases |spans|
  {
    if |spans| > 1 {
      StartsIntroduced(parse, spans[..|spans| - 1]);
    } else {
      assert PointsOfAll(parse, []) == [];
    }
  }

  // ---------------------------------------------------------------- what the reader keeps of them

  /** The last interval survives whole: it is alone, or its upper event is the one that wins. */
  predicate KeepsLast(spans: seq<Interval>)
    requires spans != []
  {
    var s := spans[|spans| - 1];
    |spans| == 1 || (s.upper.Some? && (!s.inclusive || forall i :: 0 <= i < |spans| ==> spans[i].inclusive))
  }

  ghost predicate Flagged(parse: Parser, ranges: seq<Range>, v: Version) {
    exists k :: 0 <= k < |ranges| && InRange(parse, v, ranges[k])
  }

  lemma {:induction false} LastOfInterval(es: seq<Event>, s: Interval)
    requires s.introducedFirst
    ensures LastIntroduced(es + EventsOf(s)) == s.introduced
    ensures LastFixed(es + EventsOf(s)) == if s.upper.Some? && !s.inclusive then s.upper.value else LastFixed(es)
    ensures LastLastAffected(es + EventsOf(s)) == if s.upper.Some? && s.inclusive then s.upper.value else LastLastAffected(es)
  {
    var low := Event(Some(s.introduced), None, None);
    if s.upper.Some? {
      var high := if s.inclusive then Event(None, None, s.upper) else Event(None, s.upper, None);
      assert es + [low] + [high] == es + EventsOf(s);
    }
  }

  /** The kept upper bounds come from some interval of their kind. */
  lemma {:induction false} KeptUppers(parse: Parser, spans: seq<Interval>)
    requires forall i :: 0 <= i < |spans| ==> Parses(parse, spans[i]) && spans[i].introducedFirst && spans[i].upper.Some?
    ensures
      var fixed := LastFixed(EventsOfAll(spans));
      if fixed == "" then forall i :: 0 <= i < |spans| ==> spans[i].inclusive
      else exists i :: 0 <= i < |spans| && spans[i].upper.value == fixed && !spans[i].inclusive
    ensures
      var last := LastLastAffected(EventsOfAll(spans));
      if last == "" then forall i :: 0 <= i < |spans| ==> !spans[i].inclusive
      else exists i :: 0 <= i < |spans| && spans[i].upper.value == last && spans[i].inclusive
    ensures (forall i :: 0 <= i < |spans| ==> spans[i].inclusive) ==> LastFixed(EventsOfAll(spans)) == ""
    decreases |spans|
  {
    hide EventsOf, LastIntroduced, LastFixed, LastLastAffected;
    if spans == [] {
      NoEvents();
    } else {
      var n := |spans| - 1;
      var less := spans[..n];
      KeptUppers(parse, less);
      LastOfInterval(EventsOfAll(less), spans[n]);
      assert spans[n].upper.value != "";
      assert forall i :: 0 <= i < n ==> less[i] == spans[i];
    }
  }

  lemma {:induction false} NoEvents()
    ensures LastIntroduced([]) == "" && LastFixed([]) == "" && LastLastAffected([]) == ""
  {
  }

  /** Of several intervals the reader keeps the last one, or a range that contains nothing. */
  lemma {:induction false} OnlyTheLastIsKept(parse: Parser, spans: seq<Interval>, v: Version)
    requires Ascending(parse, spans)
    ensures Flagged(parse, RangeOf(EventsOfAll(spans)), v) <==>
              KeepsLast(spans) && InRange(parse, v, Kept(spans[|spans| - 1]))
  {
    hide EventsOf, LastIntroduced, LastFixed, LastLastAffected, Before;
    var n := |spans| - 1;
    var s := spans[n];
    var less := EventsOfAll(spans[..n]);
    LastOfInterval(less, s);
    KeptUppers(parse, spans[..n]);
    NoEvents();
    var range := if KeepsLast(spans) then Kept(s) else RangeOf(EventsOfAll(spans))[0];
    assert RangeOf(EventsOfAll(spans)) == [range] by {
      if n == 0 { assert less == []; }
      assert forall i :: 0 <= i < n ==> spans[..n][i] == spans[i];
    }
    if !KeepsLast(spans) {
      var i :| 0 <= i < n && spans[i].upper.value == range.upper && spans[i].inclusive == range.inclusive;
      EarlierIsBelow(parse, spans, i, n);
      NothingBetween(parse, v, range);
    }
    assert Flagged(parse, [range], v) <==> InRange(parse, v, range) by { FlaggedOne(parse, range, v); }
  }

  lemma {:induction false} FlaggedOne(parse: Parser, range: Range, v: Version)
    ensures Flagged(parse, [range], v) <==> InRange(parse, v, range)
  {
    hide InRange;
    assert [range][0] == range;
  }

  lemma {:induction false} NothingBetween(parse: Parser, v: Version, range: Range)
    requires parse(range.introduced).Some? && parse(range.upper).Some?
    requires || Before(parse(range.upper).value, parse(range.introduced).value)
             || (!range.inclusive && parse(range.upper).value == parse(range.introduced).value)
    ensures !InRange(parse, v, range)
  {
    hide Before;
    var i, u := parse(range.introduced).value, parse(range.upper).value;
    assert range.upper != "";
    BeforeIsStrictTotalOrder(v, u, i);
    BeforeIsStrictTotalOrder(i, v, i);
    BeforeIsStrictTotalOrder(u, v, i);
    BeforeIsStrictTotalOrder(u, v, u);
    BeforeIsStrictTotalOrder(u, i, v);
  }

  /** Code and schema flag the same versions if and only if the range has a single interval, even where the next one
      starts at the version that fixes the one before. */
  lemma {:induction false} AgreesIffOneInterval(parse: Parser, spans: seq<Interval>)
    requires Ascending(parse, spans)
    ensures (forall v :: Flagged(parse, RangeOf(EventsOfAll(spans)), v) <==> Vulnerable(PointsOfAll(parse, spans), v))
            <==> |spans| == 1
  {
    hide Before, Vulnerable, EventsOf, PointsOf, EventsOfAll, RangeOf, Flagged;
    var s := spans[|spans| - 1];
    if |spans| == 1 {
      assert spans == [s];
      OneInterval(parse, s);
      IntervalAgreesIff(parse, s);
      forall v
        ensures Flagged(parse, RangeOf(EventsOfAll(spans)), v) <==> Vulnerable(PointsOfAll(parse, spans), v)
      {
        OnlyTheLastIsKept(parse, spans, v);
      }
    } else {
      var v := Low(parse, spans[0]);
      FirstIsVulnerable(parse, spans);
      OnlyTheLastIsKept(parse, spans, v);
      EarlierIsBelow(parse, spans, 0, |spans| - 1);
      assert !InRange(parse, v, Kept(s));
    }
  }

  /** A vulnerability fixed and reintroduced: the schema flags 1.0.0 and everything from 3.0.0, the code nothing. */
  lemma {:induction false} ReintroducedIsNeverFlagged(parse: Parser)
    requires parse("1.0.0") == Some(Version(1, 0, 0, None)) && parse("2.0.0") == Some(Version(2, 0, 0, None))
    requires parse("3.0.0") == Some(Version(3, 0, 0, None))
    ensures
      var events := [Event(Some("1.0.0"), None, None), Event(None, Some("2.0.0"), None), Event(Some("3.0.0"), None, None)];
      var points := [Introduced(parse("1.0.0").value), Fixed(parse("2.0.0").value), Introduced(parse("3.0.0").value)];
      && RangeOf(events) == [Range("3.0.0", "2.0.0", false)]
      && (forall v :: !Flagged(parse, RangeOf(events), v))
      && Vulnerable(points, parse("1.0.0").value)
  {
    hide LastIntroduced, LastFixed, LastLastAffected, Evaluate, Sort;
    var first, last := Interval("1.0.0", Some("2.0.0"), false, true), Interval("3.0.0", None, false, true);
    var spans := [first, last];
    assert Ascending(parse, spans);
    TwoIntervals(parse, first, last);
    var events := [Event(Some("1.0.0"), None, None), Event(None, Some("2.0.0"), None), Event(Some("3.0.0"), None, None)];
    assert EventsOfAll(spans) == events;
    LastOfInterval([], first);
    LastOfInterval(EventsOf(first), last);
    assert [] + EventsOf(first) == EventsOf(first);
    NoEvents();
    forall v
      ensures !Flagged(parse, RangeOf(events), v)
    {
      OnlyTheLastIsKept(parse, spans, v);
    }
    FirstIsVulnerable(parse, spans);
    assert PointsOfAll(parse, spans)
        == [Introduced(parse("1.0.0").value), Fixed(parse("2.0.0").value), Introduced(parse("3.0.0").value)];
  }
}
