/** Rule selection, grouping, execution and the statistics of one scan. */
module ScanAccounting {
  import opened Common
  import opened Sorting

  datatype Finding = Finding(ruleId: string, severity: string)

  /** What running a detector function leads to. */
  datatype Outcome = Ok(findings: seq<Finding>) | TimedOut | Raised

  datatype Status = StatusOk | StatusTimeout | StatusFailed | NotDetected(eco: string) | NotRegistered

  datatype Execution = Execution(ruleId: string, status: Status, findingsCount: nat)

  /** The engine's rules, in registration order, and the function behind each. */
  datatype Registry = Registry(order: seq<string>, fn: map<string, nat>)

  ghost predicate ValidRegistry(r: Registry) {
    Distinct(r.order) && forall k :: k in r.order <==> k in r.fn
  }

  /** One ecosystem filter: when the ecosystem is absent its rules go, except the cross-ecosystem ones. */
  datatype Filter = Filter(eco: string, detected: bool, prefixes: seq<string>, cross: set<string>)

  predicate Drops(f: Filter, rule: string) {
    !f.detected && rule !in f.cross && exists i :: 0 <= i < |f.prefixes| && f.prefixes[i] <= rule
  }

  /** The filter lets the rule run: its ecosystem is there, or the rule is one of the cross-ecosystem ones, or it has
      none of the prefixes. */
  ghost predicate Spares(f: Filter, rule: string) {
    || f.detected
    || rule in f.cross
    || forall p :: p in f.prefixes ==> !(|p| <= |rule| && rule[..|p|] == p)
  }

  lemma {:induction false} DropsIff(f: Filter, rule: string)
    ensures Drops(f, rule) <==> !Spares(f, rule)
  {
    if p :| p in f.prefixes && |p| <= |rule| && rule[..|p|] == p {
      var i :| 0 <= i < |f.prefixes| && f.prefixes[i] == p;
      assert f.prefixes[i] <= rule;
    }
    if i :| 0 <= i < |f.prefixes| && f.prefixes[i] <= rule {
      assert rule[..|f.prefixes[i]|] == f.prefixes[i];
    }
  }

  /** A registered rule that is requested and let through by every filter. */
  ghost predicate MayRun(r: Registry, explicit: Option<set<string>>, filters: seq<Filter>, x: string) {
    && x in r.order && (explicit.Some? ==> x in explicit.value)
    && forall i :: 0 <= i < |filters| ==> Spares(filters[i], x)
  }

  /** A requested rule that every filter counts among the cross-ecosystem ones runs on every tree. */
  lemma {:induction false} CrossRulesRun(r: Registry, explicit: Option<set<string>>, filters: seq<Filter>, x: string)
    requires Requested(r, explicit, x) && forall i :: 0 <= i < |filters| ==> x in filters[i].cross
    ensures MayRun(r, explicit, filters, x) && Survives(filters, x)
  {
    forall i | 0 <= i < |filters|
      ensures !Drops(filters[i], x)
    {
      DropsIff(filters[i], x);
    }
  }

  /** The first filter that stops the rule is that of `eco`. */
  ghost predicate StoppedFirstBy(filters: seq<Filter>, x: string, eco: string) {
    exists i :: 0 <= i < |filters| && filters[i].eco == eco && !Spares(filters[i], x)
                && forall j :: 0 <= j < i ==> Spares(filters[j], x)
  }

  // ---------------------------------------------------------------- selection

  function Where(s: seq<string>, keep: string -> bool): seq<string> {
    if s == [] then [] else (if keep(s[0]) then [s[0]] else []) + Where(s[1..], keep)
  }

  lemma {:induction false} WhereProperties(s: seq<string>, keep: string -> bool)
    ensures forall x :: x in Where(s, keep) <==> x in s && keep(x)
    ensures Distinct(s) ==> Distinct(Where(s, keep))
    decreases |s|
  {
    if s != [] {
      WhereProperties(s[1..], keep);
      assert s == [s[0]] + s[1..];
    }
  }

  predicate Requested(r: Registry, explicit: Option<set<string>>, x: string) {
    x in r.order && (explicit.Some? ==> x in explicit.value)
  }

  /** `eco` belongs to the first filter that drops the rule. */
  ghost predicate FirstDropper(filters: seq<Filter>, x: string, eco: string) {
    exists i :: 0 <= i < |filters| && Drops(filters[i], x) && filters[i].eco == eco
                && forall j :: 0 <= j < i ==> !Drops(filters[j], x)
  }

  predicate Survives(filters: seq<Filter>, x: string) {
    forall i :: 0 <= i < |filters| ==> !Drops(filters[i], x)
  }

  /** The rules that run, in registration order: requested, and dropped by no filter. */
  function Selected(order: seq<string>, explicit: Option<set<string>>, filters: seq<Filter>): seq<string> {
    if order == [] then []
    else
      (if (explicit.Some? ==> order[0] in explicit.value) && Survives(filters, order[0]) then [order[0]] else [])
      + Selected(order[1..], explicit, filters)
  }

  lemma {:induction false} SelectedStart(order: seq<string>, explicit: Option<set<string>>, keep: string -> bool)
    requires forall x :: keep(x) <==> (explicit.Some? ==> x in explicit.value)
    ensures Selected(order, explicit, []) == Where(order, keep)
    decreases |order|
  {
    if order != [] {
      SelectedStart(order[1..], explicit, keep);
    }
  }

  lemma {:induction false} SelectedNext(order: seq<string>, explicit: Option<set<string>>, filters: seq<Filter>, f: Filter, keep: string -> bool)
    requires forall x :: keep(x) <==> !Drops(f, x)
    ensures Selected(order, explicit, filters + [f]) == Where(Selected(order, explicit, filters), keep)
    decreases |order|
  {
    hide Drops, Survives;
    if order != [] {
      var x := order[0];
      SelectedNext(order[1..], explicit, filters, f, keep);
      assert Survives(filters + [f], x) <==> Survives(filters, x) && !Drops(f, x) by {
        DropperExtends(filters + [f], |filters|, x, "");
        assert (filters + [f])[..|filters|] == filters && (filters + [f])[..|filters| + 1] == filters + [f];
      }
      var rest := Selected(order[1..], explicit, filters);
      assert ([x] + rest)[1..] == rest;
      assert [] + rest == rest && [] + Where(rest, keep) == Where(rest, keep);
    }
  }

  lemma {:induction false} NothingDropped(s: seq<string>, keep: string -> bool)
    requires forall x :: keep(x)
    ensures Where(s, keep) == s
    decreases |s|
  {
    if s != [] {
      NothingDropped(s[1..], keep);
    }
  }

  lemma {:induction false} DropperExtends(filters: seq<Filter>, i: nat, x: string, eco: string)
    requires i < |filters|
    ensures FirstDropper(filters[..i], x, eco) ==> FirstDropper(filters[..i + 1], x, eco)
    ensures Survives(filters[..i], x) && Drops(filters[i], x) ==> FirstDropper(filters[..i + 1], x, filters[i].eco)
    ensures Survives(filters[..i + 1], x) <==> Survives(filters[..i], x) && !Drops(filters[i], x)
  {
    hide Drops;
    var now, next := filters[..i], filters[..i + 1];
    assert next == now + [filters[i]];
    if FirstDropper(now, x, eco) {
      var k :| 0 <= k < i && Drops(now[k], x) && now[k].eco == eco && forall j :: 0 <= j < k ==> !Drops(now[j], x);
      assert next[k] == now[k];
    }
    if Survives(now, x) && Drops(filters[i], x) {
      assert next[i] == filters[i];
    }
    if Survives(next, x) {
      assert !Drops(next[i], x);
      forall k | 0 <= k < |now| ensures !Drops(now[k], x) { assert next[k] == now[k]; }
    }
  }

  /** The rules left by the filters, and for each rule dropped the first ecosystem that dropped it. */
  method SelectRules(r: Registry, explicit: Option<set<string>>, filters: seq<Filter>)
    returns (selected: seq<string>, droppedBy: map<string, string>)
    requires ValidRegistry(r)
    ensures selected == Selected(r.order, explicit, filters) && Distinct(selected)
    ensures forall x :: x in selected <==> Requested(r, explicit, x) && Survives(filters, x)
    ensures forall x :: x in droppedBy <==> Requested(r, explicit, x) && !Survives(filters, x)
    ensures forall x :: x in droppedBy ==> FirstDropper(filters, x, droppedBy[x])
  {
    hide FirstDropper, Selected, Where;
    var requested := x => explicit.None? || x in explicit.value;
    selected := Where(r.order, requested);
    WhereProperties(r.order, requested);
    assert filters[..0] == [];
    SelectedStart(r.order, explicit, requested);
    droppedBy := map[];
    assert forall x :: Survives(filters[..0], x);
    for i := 0 to |filters|
      invariant selected == Selected(r.order, explicit, filters[..i]) && Distinct(selected)
      invariant forall x :: x in selected <==> Requested(r, explicit, x) && Survives(filters[..i], x)
      invariant forall x :: x in droppedBy <==> Requested(r, explicit, x) && !Survives(filters[..i], x)
      invariant forall x :: x in droppedBy ==> FirstDropper(filters[..i], x, droppedBy[x])
    {
      var f := filters[i];
      forall x
        ensures Survives(filters[..i], x) && Drops(f, x) ==> FirstDropper(filters[..i + 1], x, f.eco)
        ensures Survives(filters[..i + 1], x) <==> Survives(filters[..i], x) && !Drops(f, x)
      {
        DropperExtends(filters, i, x, f.eco);
      }
      forall x, eco | FirstDropper(filters[..i], x, eco)
        ensures FirstDropper(filters[..i + 1], x, eco)
      {
        DropperExtends(filters, i, x, eco);
      }
      var keep := x => !Drops(f, x);
      assert filters[..i + 1] == filters[..i] + [f];
      SelectedNext(r.order, explicit, filters[..i], f, keep);
      if f.detected {
        assert forall x :: !Drops(f, x);
        NothingDropped(selected, keep);
        continue;
      }
      droppedBy := NoteDropped(f, selected, droppedBy);
      WhereProperties(selected, keep);
      selected := Where(selected, keep);
    }
    assert filters[..|filters|] == filters;
  }

  /** Notes the ecosystem against every selected rule that the filter drops; the first note stays. */
  method NoteDropped(f: Filter, selected: seq<string>, droppedBy: map<string, string>) returns (r: map<string, string>)
    ensures forall x :: x in r <==> x in droppedBy || (x in selected && Drops(f, x))
    ensures forall x :: x in r ==> r[x] == if x in droppedBy then droppedBy[x] else f.eco
  {
    hide Drops;
    r := droppedBy;
    for k := 0 to |selected|
      invariant forall x :: x in r <==> x in droppedBy || (x in selected[..k] && Drops(f, x))
      invariant forall x :: x in r ==> r[x] == if x in droppedBy then droppedBy[x] else f.eco
    {
      assert selected[..k + 1] == selected[..k] + [selected[k]];
      if Drops(f, selected[k]) && selected[k] !in r {
        r := r[selected[k] := f.eco];
      }
    }
    assert selected[..|selected|] == selected;
  }

  /** A requested rule that will not run is reported as skipped, with the reason. */
  method SkippedExecutions(explicit: set<string>, selected: seq<string>, droppedBy: map<string, string>)
    returns (r: seq<Execution>)
    ensures SortedBy(Ids(r), StringLe) && Distinct(Ids(r))
    ensures forall x :: x in Ids(r) <==> x in explicit && x !in selected
    ensures forall e :: e in r ==>
              e == Execution(e.ruleId, if e.ruleId in droppedBy then NotDetected(droppedBy[e.ruleId]) else NotRegistered, 0)
    ensures forall e :: e in r ==> e.ruleId in explicit && e.ruleId !in selected
  {
    var missing := SortStrings(set x | x in explicit && x !in selected);
    r := [];
    for i := 0 to |missing|
      invariant Ids(r) == missing[..i]
      invariant forall e :: e in r ==>
                  e == Execution(e.ruleId, if e.ruleId in droppedBy then NotDetected(droppedBy[e.ruleId]) else NotRegistered, 0)
      invariant forall e :: e in r ==> e.ruleId in explicit && e.ruleId !in selected
    {
      var rid := missing[i];
      assert rid in missing;
      var status := if rid in droppedBy then NotDetected(droppedBy[rid]) else NotRegistered;
      IdsAppend(r, [Execution(rid, status, 0)]);
      r := r + [Execution(rid, status, 0)];
      assert missing[..i + 1] == missing[..i] + [rid];
    }
    assert missing[..|missing|] == missing;
  }

  function Ids(es: seq<Execution>): seq<string> {
    if es == [] then [] else [es[0].ruleId] + Ids(es[1..])
  }

  lemma {:induction false} IdsAppend(a: seq<Execution>, b: seq<Execution>)
    ensures Ids(a + b) == Ids(a) + Ids(b)
    decreases |a|
  {
    if a == [] {
      assert a + b == b;
    } else {
      assert (a + b)[1..] == a[1..] + b;
      IdsAppend(a[1..], b);
    }
  }

  // ---------------------------------------------------------------- grouping

  /** Rules that share one function. */
  datatype Group = Group(fn: nat, ids: seq<string>)

  function AllIds(gs: seq<Group>): seq<string> {
    if gs == [] then [] else gs[0].ids + AllIds(gs[1..])
  }

  lemma {:induction false} AllIdsAppend(a: seq<Group>, b: seq<Group>)
    ensures AllIds(a + b) == AllIds(a) + AllIds(b)
    decreases |a|
  {
    if a == [] {
      assert a + b == b;
    } else {
      assert (a + b)[1..] == a[1..] + b;
      AllIdsAppend(a[1..], b);
      assert a[0].ids + (AllIds(a[1..]) + AllIds(b)) == (a[0].ids + AllIds(a[1..])) + AllIds(b);
    }
  }

  /** The rules behind function `f`, in their order. */
  function RulesOf(rules: seq<string>, fn: map<string, nat>, f: nat): seq<string> {
    if rules == [] then []
    else
      var x := rules[|rules| - 1];
      RulesOf(rules[..|rules| - 1], fn, f) + if x in fn && fn[x] == f then [x] else []
  }

  lemma {:induction false} RulesOfNone(rules: seq<string>, fn: map<string, nat>, f: nat)
    requires forall x :: x in rules ==> !(x in fn && fn[x] == f)
    ensures RulesOf(rules, fn, f) == []
    decreases |rules|
  {
    if rules != [] {
      RulesOfNone(rules[..|rules| - 1], fn, f);
    }
  }

  /** The groups cover the rules once each, one group per function, in the order of the rules. */
  ghost predicate Partition(gs: seq<Group>, rules: seq<string>, fn: map<string, nat>) {
    && multiset(AllIds(gs)) == multiset(rules)
    && (forall i :: 0 <= i < |gs| ==> gs[i].ids == RulesOf(rules, fn, gs[i].fn))
    && (forall i :: 0 <= i < |gs| ==> gs[i].ids != [] && forall x :: x in gs[i].ids ==> x in fn && fn[x] == gs[i].fn)
    && (forall i, j :: 0 <= i < j < |gs| ==> gs[i].fn != gs[j].fn)
  }

  /** The group of a function, or the number of groups if it has none. */
  method FindGroup(gs: seq<Group>, fn: nat) returns (k: nat)
    ensures k <= |gs| && (k < |gs| ==> gs[k].fn == fn)
    ensures k == |gs| ==> forall l :: 0 <= l < |gs| ==> gs[l].fn != fn
  {
    k := 0;
    while k < |gs| && gs[k].fn != fn
      invariant 0 <= k <= |gs|
      invariant forall l :: 0 <= l < k ==> gs[l].fn != fn
    {
      k := k + 1;
    }
  }

  method GroupRules(selected: seq<string>, fn: map<string, nat>) returns (gs: seq<Group>)
    requires forall x :: x in selected ==> x in fn
    ensures Partition(gs, selected, fn)
  {
    hide Partition;
    gs := [];
    NoGroups(selected, fn);
    for i := 0 to |selected|
      invariant Partition(gs, selected[..i], fn)
    {
      var rule := selected[i];
      assert selected[..i + 1] == selected[..i] + [rule];
      var k := FindGroup(gs, fn[rule]);
      if k < |gs| {
        JoinGroup(gs, selected[..i], fn, rule, k);
        gs := gs[k := Group(gs[k].fn, gs[k].ids + [rule])];
      } else {
        NewGroup(gs, selected[..i], fn, rule);
        gs := gs + [Group(fn[rule], [rule])];
      }
    }
    assert selected[..|selected|] == selected;
  }

  lemma {:induction false} NoGroups(selected: seq<string>, fn: map<string, nat>)
    ensures Partition([], selected[..0], fn)
  {
  }

  lemma {:induction false} JoinGroup(gs: seq<Group>, rules: seq<string>, fn: map<string, nat>, rule: string, k: nat)
    requires Partition(gs, rules, fn) && rule in fn && k < |gs| && gs[k].fn == fn[rule]
    ensures Partition(gs[k := Group(gs[k].fn, gs[k].ids + [rule])], rules + [rule], fn)
  {
    hide AllIds, RulesOf;
    var next := gs[k := Group(gs[k].fn, gs[k].ids + [rule])];
    GroupedRulesNext(gs, rules, fn, rule, k);
    assert multiset(AllIds(next)) == multiset(rules + [rule]) by { ReplacedIds(gs, k, rule); }
    forall i | 0 <= i < |next|
      ensures next[i].fn == gs[i].fn && next[i].ids != [] && next[i].ids == RulesOf(rules + [rule], fn, next[i].fn)
      ensures forall x :: x in next[i].ids ==> x in fn && fn[x] == next[i].fn
    {
    }
  }

  lemma {:induction false} NewGroup(gs: seq<Group>, rules: seq<string>, fn: map<string, nat>, rule: string)
    requires Partition(gs, rules, fn) && rule in fn && forall l :: 0 <= l < |gs| ==> gs[l].fn != fn[rule]
    ensures Partition(gs + [Group(fn[rule], [rule])], rules + [rule], fn)
  {
    hide AllIds, RulesOf;
    var g := Group(fn[rule], [rule]);
    GroupedRulesNext(gs, rules, fn, rule, |gs|);
    AllIdsAppend(gs, [g]);
    OneGroup(g);
  }

  lemma {:induction false} GroupedRulesNext(gs: seq<Group>, rules: seq<string>, fn: map<string, nat>, rule: string, k: nat)
    requires Partition(gs, rules, fn) && rule in fn && k <= |gs|
    requires k < |gs| ==> gs[k].fn == fn[rule]
    requires k == |gs| ==> forall l :: 0 <= l < |gs| ==> gs[l].fn != fn[rule]
    ensures forall i :: 0 <= i < |gs| ==>
              RulesOf(rules + [rule], fn, gs[i].fn) == if i == k then gs[i].ids + [rule] else gs[i].ids
    ensures k == |gs| ==> RulesOf(rules + [rule], fn, fn[rule]) == [rule]
  {
    hide AllIds;
    forall i | 0 <= i < |gs|
      ensures RulesOf(rules + [rule], fn, gs[i].fn) == if i == k then gs[i].ids + [rule] else gs[i].ids
    {
    }
    if k == |gs| {
      forall x | x in rules
        ensures !(x in fn && fn[x] == fn[rule])
      {
        assert x in multiset(rules);
        var l := GroupOfId(gs, x);
      }
      RulesOfNone(rules, fn, fn[rule]);
    }
  }

  /** Every id is in some group. */
  lemma {:induction false} GroupOfId(gs: seq<Group>, x: string) returns (k: nat)
    requires x in AllIds(gs)
    ensures k < |gs| && x in gs[k].ids
    decreases |gs|
  {
    if x in gs[0].ids {
      k := 0;
    } else {
      k := GroupOfId(gs[1..], x);
      k := k + 1;
    }
  }

  lemma {:induction false} OneGroup(g: Group)
    ensures AllIds([g]) == g.ids
  {
    assert [g][1..] == [];
    assert g.ids + [] == g.ids;
  }

  lemma {:induction false} ReplacedIds(gs: seq<Group>, k: nat, rule: string)
    requires k < |gs|
    ensures multiset(AllIds(gs[k := Group(gs[k].fn, gs[k].ids + [rule])])) == multiset(AllIds(gs)) + multiset{rule}
  {
    hide AllIds;
    var g := Group(gs[k].fn, gs[k].ids + [rule]);
    assert gs == gs[..k] + [gs[k]] + gs[k + 1..] && gs[k := g] == gs[..k] + [g] + gs[k + 1..];
    AllIdsAppend(gs[..k] + [gs[k]], gs[k + 1..]);
    AllIdsAppend(gs[..k], [gs[k]]);
    AllIdsAppend(gs[..k] + [g], gs[k + 1..]);
    AllIdsAppend(gs[..k], [g]);
    OneGroup(gs[k]);
    OneGroup(g);
  }

  predicate GroupLe(a: Group, b: Group) {
    StringLe(if a.ids == [] then "" else a.ids[0], if b.ids == [] then "" else b.ids[0])
  }

  // ---------------------------------------------------------------- counting

  function CountRule(fs: seq<Finding>, rule: string): nat {
    if fs == [] then 0 else CountRule(fs[..|fs| - 1], rule) + if fs[|fs| - 1].ruleId == rule then 1 else 0
  }

  lemma {:induction false} CountAppend(a: seq<Finding>, b: seq<Finding>, rule: string)
    ensures CountRule(a + b, rule) == CountRule(a, rule) + CountRule(b, rule)
    decreases |b|
  {
    if b == [] {
      assert a + b == a;
    } else {
      var n := |b| - 1;
      assert (a + b)[..|a + b| - 1] == a + b[..n];
      CountAppend(a, b[..n], rule);
    }
  }

  /** The findings of the groups that completed. */
  function Collected(gs: seq<Group>, run: nat -> Outcome): seq<Finding> {
    if gs == [] then []
    else Collected(gs[..|gs| - 1], run) + var o := run(gs[|gs| - 1].fn); if o.Ok? then o.findings else []
  }

  function StatusOf(o: Outcome): Status {
    match o
    case Ok(_) => StatusOk
    case TimedOut => StatusTimeout
    case Raised => StatusFailed
  }

  /** One execution per rule of the group: its own findings if the function completed, none otherwise. */
  function ExecutionOf(o: Outcome, rule: string): Execution {
    Execution(rule, StatusOf(o), if o.Ok? then CountRule(o.findings, rule) else 0)
  }

  /** How many of the findings each rule of the group emitted. */
  method CountPerRule(ids: seq<string>, findings: seq<Finding>) returns (counts: map<string, nat>)
    ensures forall x :: x in counts <==> x in ids
    ensures forall x :: x in ids ==> counts[x] == CountRule(findings, x)
  {
    counts := map x | x in ids :: 0;
    for i := 0 to |findings|
      invariant forall x :: x in counts <==> x in ids
      invariant forall x :: x in ids ==> counts[x] == CountRule(findings[..i], x)
    {
      var f := findings[i];
      assert findings[..i + 1][..i] == findings[..i];
      if f.ruleId in counts {
        counts := counts[f.ruleId := counts[f.ruleId] + 1];
      }
    }
    assert findings[..|findings|] == findings;
  }

  method ExecuteGroup(g: Group, o: Outcome) returns (es: seq<Execution>)
    ensures Ids(es) == g.ids
    ensures forall e :: e in es ==> e == ExecutionOf(o, e.ruleId) && e.ruleId in g.ids
  {
    hide CountRule;
    var counts: map<string, nat> := map[];
    if o.Ok? {
      counts := CountPerRule(g.ids, o.findings);
    }
    es := [];
    for i := 0 to |g.ids|
      invariant Ids(es) == g.ids[..i]
      invariant forall e :: e in es ==> e == ExecutionOf(o, e.ruleId) && e.ruleId in g.ids
    {
      var e := match o
        case Ok(_) => Execution(g.ids[i], StatusOk, counts[g.ids[i]])
        case TimedOut => Execution(g.ids[i], StatusTimeout, 0)
        case Raised => Execution(g.ids[i], StatusFailed, 0);
      IdsAppend(es, [e]);
      es := es + [e];
      assert g.ids[..i + 1] == g.ids[..i] + [g.ids[i]];
    }
    assert g.ids[..|g.ids|] == g.ids;
  }

  /** Runs the groups in order of their first rule. */
  method ExecuteGroups(gs: seq<Group>, run: nat -> Outcome) returns (es: seq<Execution>, fs: seq<Finding>)
    ensures Ids(es) == AllIds(gs) && fs == Collected(gs, run)
    ensures forall e :: e in es ==>
              exists k :: 0 <= k < |gs| && e.ruleId in gs[k].ids && e == ExecutionOf(run(gs[k].fn), e.ruleId)
  {
    hide ExecutionOf;
    es, fs := [], [];
    assert Ids(es) == AllIds(gs[..0]);
    for i := 0 to |gs|
      invariant Ids(es) == AllIds(gs[..i]) && fs == Collected(gs[..i], run)
      invariant forall e :: e in es ==>
                  exists k :: 0 <= k < i && e.ruleId in gs[k].ids && e == ExecutionOf(run(gs[k].fn), e.ruleId)
    {
      var o := run(gs[i].fn);
      var more := ExecuteGroup(gs[i], o);
      IdsAppend(es, more);
      assert gs[..i + 1] == gs[..i] + [gs[i]] && gs[..i + 1][..i] == gs[..i];
      AllIdsAppend(gs[..i], [gs[i]]);
      OneGroup(gs[i]);
      es := es + more;
      if o.Ok? {
        fs := fs + o.findings;
      }
    }
    assert gs[..|gs|] == gs;
  }

  // ---------------------------------------------------------------- order of execution

  lemma {:induction false} GroupOrder()
    ensures TotalPreorder(GroupLe)
  {
    hide StringLe;
    StringOrder();
  }

  function Fns(gs: seq<Group>): seq<nat> {
    if gs == [] then [] else [gs[0].fn] + Fns(gs[1..])
  }

  lemma {:induction false} FnsAt(gs: seq<Group>)
    ensures |Fns(gs)| == |gs| && forall i :: 0 <= i < |gs| ==> Fns(gs)[i] == gs[i].fn
    decreases |gs|
  {
    if gs != [] {
      FnsAt(gs[1..]);
    }
  }

  lemma {:induction false} PlaceGroup(g: Group, gs: seq<Group>)
    ensures multiset(AllIds(Place(g, gs, GroupLe))) == multiset(g.ids) + multiset(AllIds(gs))
    ensures multiset(Fns(Place(g, gs, GroupLe))) == multiset{g.fn} + multiset(Fns(gs))
    decreases |gs|
  {
    hide GroupLe;
    if gs == [] {
      OneGroup(g);
      assert [g][1..] == [];
    } else if GroupLe(g, gs[0]) {
      assert ([g] + gs)[1..] == gs;
    } else {
      PlaceGroup(g, gs[1..]);
      var rest := Place(g, gs[1..], GroupLe);
      assert ([gs[0]] + rest)[1..] == rest;
    }
  }

  lemma {:induction false} SortGroups(gs: seq<Group>)
    ensures multiset(AllIds(Sort(gs, GroupLe))) == multiset(AllIds(gs))
    ensures multiset(Fns(Sort(gs, GroupLe))) == multiset(Fns(gs))
    decreases |gs|
  {
    if gs != [] {
      SortGroups(gs[1..]);
      PlaceGroup(gs[0], Sort(gs[1..], GroupLe));
    }
  }

  lemma {:induction false} SortedPartition(gs: seq<Group>, rules: seq<string>, fn: map<string, nat>)
    requires Partition(gs, rules, fn)
    ensures Partition(Sort(gs, GroupLe), rules, fn) && SortedBy(Sort(gs, GroupLe), GroupLe)
  {
    hide AllIds, Fns, GroupLe, Sort, RulesOf;
    var sorted := Sort(gs, GroupLe);
    SortGroups(gs);
    GroupOrder();
    SortProperties(gs, GroupLe);
    forall i | 0 <= i < |sorted|
      ensures sorted[i] in gs
    {
      assert sorted[i] in multiset(sorted);
    }
    FnsAt(gs);
    FnsAt(sorted);
    DistinctByMultiset(Fns(gs), Fns(sorted));
  }

  // ---------------------------------------------------------------- an ok rule's count

  lemma {:induction false} NoneCollected(gs: seq<Group>, run: nat -> Outcome, rule: string)
    requires forall i :: 0 <= i < |gs| && run(gs[i].fn).Ok? ==> CountRule(run(gs[i].fn).findings, rule) == 0
    ensures CountRule(Collected(gs, run), rule) == 0
    decreases |gs|
  {
    if gs != [] {
      var n := |gs| - 1;
      NoneCollected(gs[..n], run, rule);
      var o := run(gs[n].fn);
      CountAppend(Collected(gs[..n], run), if o.Ok? then o.findings else [], rule);
    }
  }

  /** When only one group's function emits the rule, its count is the total. */
  lemma {:induction false} OnlyOneEmits(gs: seq<Group>, run: nat -> Outcome, rule: string, k: nat)
    requires k < |gs|
    requires forall i :: 0 <= i < |gs| && i != k && run(gs[i].fn).Ok? ==> CountRule(run(gs[i].fn).findings, rule) == 0
    ensures CountRule(Collected(gs, run), rule)
         == if run(gs[k].fn).Ok? then CountRule(run(gs[k].fn).findings, rule) else 0
    decreases |gs|
  {
    var n := |gs| - 1;
    var o := run(gs[n].fn);
    CountAppend(Collected(gs[..n], run), if o.Ok? then o.findings else [], rule);
    if k == n {
      NoneCollected(gs[..n], run, rule);
    } else {
      OnlyOneEmits(gs[..n], run, rule, k);
    }
  }

  /** The findings under one of the ids, in order. */
  function Kept(fs: seq<Finding>, ids: seq<string>): seq<Finding> {
    if fs == [] then []
    else
      var f := fs[|fs| - 1];
      Kept(fs[..|fs| - 1], ids) + if f.ruleId in ids then [f] else []
  }

  method KeepSelected(fs: seq<Finding>, selected: seq<string>) returns (r: seq<Finding>)
    ensures r == Kept(fs, selected)
  {
    r := [];
    for i := 0 to |fs|
      invariant r == Kept(fs[..i], selected)
    {
      assert fs[..i + 1][..i] == fs[..i];
      if fs[i].ruleId in selected {
        r := r + [fs[i]];
      }
    }
    assert fs[..|fs|] == fs;
  }

  lemma {:induction false} KeptProperties(fs: seq<Finding>, ids: seq<string>)
    ensures forall f :: f in Kept(fs, ids) <==> f in fs && f.ruleId in ids
    ensures forall x :: x in ids ==> CountRule(Kept(fs, ids), x) == CountRule(fs, x)
    decreases |fs|
  {
    if fs != [] {
      var n := |fs| - 1;
      assert fs == fs[..n] + [fs[n]];
      KeptProperties(fs[..n], ids);
      var less := Kept(fs[..n], ids);
      assert Kept(fs, ids) == if fs[n].ruleId in ids then less + [fs[n]] else less;
      hide Kept, CountRule;
      forall x | x in ids
        ensures CountRule(less + [fs[n]], x) == CountRule(fs[..n], x) + CountRule([fs[n]], x)
        ensures CountRule(fs, x) == CountRule(fs[..n], x) + CountRule([fs[n]], x)
        ensures fs[n].ruleId !in ids ==> CountRule([fs[n]], x) == 0
      {
        CountAppend(less, [fs[n]], x);
        CountAppend(fs[..n], [fs[n]], x);
      }
    }
  }

  // ---------------------------------------------------------------- statistics

  function RuleIds(fs: seq<Finding>): seq<string> {
    seq(|fs|, i requires 0 <= i < |fs| => fs[i].ruleId)
  }

  function Severities(fs: seq<Finding>): seq<string> {
    seq(|fs|, i requires 0 <= i < |fs| => fs[i].severity)
  }

  /** A breakdown: how often each key occurs, for the keys that do. */
  ghost predicate Tallies(m: map<string, nat>, keys: seq<string>) {
    forall k :: (k in m <==> k in keys) && (k in m ==> m[k] == multiset(keys)[k])
  }

  method Tally(keys: seq<string>) returns (m: map<string, nat>)
    ensures Tallies(m, keys)
  {
    m := map[];
    for i := 0 to |keys|
      invariant Tallies(m, keys[..i])
    {
      var k := keys[i];
      assert keys[..i + 1] == keys[..i] + [k];
      m := m[k := (if k in m then m[k] else 0) + 1];
    }
    assert keys[..|keys|] == keys;
  }

  function SumOver(m: map<string, nat>, ks: seq<string>): nat {
    if ks == [] then 0 else (if ks[0] in m then m[ks[0]] else 0) + SumOver(m, ks[1..])
  }

  lemma {:induction false} SumOfMultiset(ks: seq<string>, m: map<string, nat>, x: string, m': map<string, nat>)
    requires Distinct(ks)
    requires forall k :: k in ks ==> (if k in m' then m'[k] else 0) == (if k in m then m[k] else 0) + if k == x then 1 else 0
    ensures SumOver(m', ks) == SumOver(m, ks) + if x in ks then 1 else 0
    decreases |ks|
  {
    if ks != [] {
      assert ks == [ks[0]] + ks[1..];
      SumOfMultiset(ks[1..], m, x, m');
    }
  }

  /** Summed over any enumeration of its keys, a breakdown accounts for everything once. */
  lemma {:induction false} TalliesAddUp(m: map<string, nat>, keys: seq<string>, ks: seq<string>)
    requires Tallies(m, keys) && Distinct(ks) && forall k :: k in keys ==> k in ks
    ensures SumOver(m, ks) == |keys|
    decreases |keys|
  {
    if keys == [] {
      NothingToSum(m, ks);
    } else {
      var n := |keys| - 1;
      var x := keys[n];
      assert keys == keys[..n] + [x];
      var less := map k | k in m && (k != x || m[k] > 1) :: m[k] - if k == x then 1 else 0;
      assert Tallies(less, keys[..n]);
      TalliesAddUp(less, keys[..n], ks);
      SumOfMultiset(ks, less, x, m);
    }
  }

  lemma {:induction false} NothingToSum(m: map<string, nat>, ks: seq<string>)
    requires forall k :: k !in m
    ensures SumOver(m, ks) == 0
    decreases |ks|
  {
    if ks != [] {
      NothingToSum(m, ks[1..]);
    }
  }

  lemma {:induction false} CountIsMultiplicity(fs: seq<Finding>, rule: string)
    ensures CountRule(fs, rule) == multiset(RuleIds(fs))[rule]
    decreases |fs|
  {
    if fs != [] {
      var n := |fs| - 1;
      CountIsMultiplicity(fs[..n], rule);
      assert RuleIds(fs) == RuleIds(fs[..n]) + [fs[n].ruleId];
    }
  }

  // ---------------------------------------------------------------- the scan

  datatype Result = Result(executions: seq<Execution>, findings: seq<Finding>,
                           byRule: map<string, nat>, bySeverity: map<string, nat>)

  /** No function but the rule's own emits findings under its id. */
  ghost predicate OnlyItsOwn(fn: map<string, nat>, run: nat -> Outcome, rule: string)
    requires rule in fn
  {
    forall x :: x in fn && fn[x] != fn[rule] && run(fn[x]).Ok? ==> CountRule(run(fn[x]).findings, rule) == 0
  }

  /** The rules a scan is about: the requested ones, or all that survive the filters. */
  ghost predicate Concerned(r: Registry, explicit: Option<set<string>>, filters: seq<Filter>, x: string) {
    if explicit.Some? then x in explicit.value else x in r.order && Survives(filters, x)
  }

  /** The record a rule must get: not registered, dropped by the first filter that does so, or what its function did. */
  ghost predicate RightExecution(r: Registry, filters: seq<Filter>, run: nat -> Outcome, e: Execution)
    requires ValidRegistry(r)
  {
    var x := e.ruleId;
    if x !in r.order then e == Execution(x, NotRegistered, 0)
    else if Survives(filters, x) then e == ExecutionOf(run(r.fn[x]), x)
    else exists eco :: FirstDropper(filters, x, eco) && e == Execution(x, NotDetected(eco), 0)
  }

  /** Some rule that runs completes with this finding. */
  ghost predicate Emitted(selected: seq<string>, fn: map<string, nat>, run: nat -> Outcome, f: Finding) {
    exists x :: x in selected && x in fn && run(fn[x]).Ok? && f in run(fn[x]).findings
  }

  /** The groups in the order they run. */
  ghost predicate RunOrder(gs: seq<Group>, selected: seq<string>, fn: map<string, nat>) {
    Partition(gs, selected, fn) && forall i, j :: 0 <= i < j < |gs| ==> StringLe(gs[i].ids[0], gs[j].ids[0])
  }

  /** Requested rules filter the findings of the groups that completed. */
  function Reported(gs: seq<Group>, run: nat -> Outcome, explicit: Option<set<string>>, selected: seq<string>): seq<Finding> {
    if explicit.Some? then Kept(Collected(gs, run), selected) else Collected(gs, run)
  }

  /** Skipped rules by name, then the rules in the order they ran. */
  ghost predicate InOrder(ids: seq<string>, gs: seq<Group>) {
    exists skipped :: ids == skipped + AllIds(gs) && SortedBy(skipped, StringLe)
  }

  /** The counts of a breakdown sum to `total`, however its keys are listed. */
  ghost predicate SumsTo(m: map<string, nat>, total: nat) {
    forall ks :: Distinct(ks) && (forall k :: k in ks <==> k in m) ==> SumOver(m, ks) == total
  }

  method Scan(r: Registry, explicit: Option<set<string>>, filters: seq<Filter>, run: nat -> Outcome)
    returns (result: Result)
    requires ValidRegistry(r)
    // every rule the scan is about is accounted for exactly once, with the one right record
    ensures Distinct(Ids(result.executions))
    ensures forall x :: x in Ids(result.executions) <==> Concerned(r, explicit, filters, x)
    ensures forall e :: e in result.executions ==> RightExecution(r, filters, run, e)
    // a rule is executed if and only if it is registered, requested and let through by every filter
    ensures forall x :: MayRun(r, explicit, filters, x) <==>
              exists e :: e in result.executions && e.ruleId == x
                          && (e.status.StatusOk? || e.status.StatusTimeout? || e.status.StatusFailed?)
    ensures forall e :: e in result.executions && e.status.NotDetected? ==> StoppedFirstBy(filters, e.ruleId, e.status.eco)
    // the findings are those of the functions that completed, none lost, and of the selected rules only on request
    ensures forall f :: f in result.findings <==>
              var selected := Selected(r.order, explicit, filters);
              Emitted(selected, r.fn, run, f) && (explicit.Some? ==> f.ruleId in selected)
    // in the order in which the groups run
    ensures
      var selected := Selected(r.order, explicit, filters);
      exists gs :: RunOrder(gs, selected, r.fn) && result.findings == Reported(gs, run, explicit, selected)
                   && InOrder(Ids(result.executions), gs)
    // a rule's own count is the one in the breakdown when nothing else emits its id
    ensures forall e :: e in result.executions && e.status.StatusOk? && e.ruleId in r.fn && OnlyItsOwn(r.fn, run, e.ruleId) ==>
              e.findingsCount == if e.ruleId in result.byRule then result.byRule[e.ruleId] else 0
    // both breakdowns account for every finding
    ensures Tallies(result.byRule, RuleIds(result.findings)) && SumsTo(result.byRule, |result.findings|)
    ensures Tallies(result.bySeverity, Severities(result.findings)) && SumsTo(result.bySeverity, |result.findings|)
  {
    NoRecords();
    hide Drops, Survives, FirstDropper, Requested, Concerned, Selected, Spares, RightExecution, MayRun, Ids, StoppedFirstBy, Emitted, Partition, RunOrder, InOrder,
      SumsTo, CountRule, OnlyItsOwn, GroupLe, Collected, AllIds, Tallies, ExecutionOf, RuleIds, Severities, Sort, Kept, StringLe;
    var selected, droppedBy := SelectRules(r, explicit, filters);
    var skipped: seq<Execution> := [];
    if explicit.Some? {
      skipped := SkippedExecutions(explicit.value, selected, droppedBy);
    }
    SkippedAreRight(r, explicit, filters, run, selected, droppedBy, skipped);
    if selected == [] && skipped == [] {
      result := Result([], [], map[], map[]);
      NothingToRun(r.fn, run, explicit);
      NobodyConcerned(r, explicit, filters, selected);
      ExecutedIffMayRun(r, explicit, filters, run, result.executions);
      return;
    }
    SelectedAreRegistered(r, explicit, filters, selected);
    var groups := GroupRules(selected, r.fn);
    SortedPartition(groups, selected, r.fn);
    var sorted := Sort(groups, GroupLe);
    InRunOrder(sorted, selected, r.fn);
    var executed, found := ExecuteGroups(sorted, run);
    var findings := found;
    if explicit.Some? {
      findings := KeepSelected(found, selected);
    }
    var byRule := Tally(RuleIds(findings));
    var bySeverity := Tally(Severities(findings));
    result := Result(skipped + executed, findings, byRule, bySeverity);
    ScanIsRight(r, explicit, filters, run, selected, sorted, skipped, executed, result);
    ExecutedIffMayRun(r, explicit, filters, run, result.executions);
  }

  lemma {:induction false} IdsMembers(es: seq<Execution>, x: string)
    ensures x in Ids(es) <==> exists e :: e in es && e.ruleId == x
    decreases |es|
  {
    if es != [] {
      IdsMembers(es[1..], x);
      assert es == [es[0]] + es[1..];
    }
  }

  lemma {:induction false} SurvivesIff(filters: seq<Filter>, x: string)
    ensures Survives(filters, x) <==> forall i :: 0 <= i < |filters| ==> Spares(filters[i], x)
    ensures forall eco :: FirstDropper(filters, x, eco) <==> StoppedFirstBy(filters, x, eco)
  {
    hide Drops, Spares;
    forall f ensures Drops(f, x) <==> !Spares(f, x) { DropsIff(f, x); }
  }

  /** Complete and right records say which rules were executed, in terms of the filters. */
  lemma {:induction false} ExecutedIffMayRun(r: Registry, explicit: Option<set<string>>, filters: seq<Filter>, run: nat -> Outcome,
                                             es: seq<Execution>)
    requires ValidRegistry(r) && forall e :: e in es ==> RightExecution(r, filters, run, e)
    requires forall x :: x in Ids(es) <==> Concerned(r, explicit, filters, x)
    ensures forall x :: MayRun(r, explicit, filters, x) <==>
              exists e :: e in es && e.ruleId == x && (e.status.StatusOk? || e.status.StatusTimeout? || e.status.StatusFailed?)
    ensures forall e :: e in es && e.status.NotDetected? ==> StoppedFirstBy(filters, e.ruleId, e.status.eco)
  {
    hide Survives, FirstDropper, StoppedFirstBy, Spares, Ids, CountRule;
    forall x
      ensures MayRun(r, explicit, filters, x) <==>
                exists e :: e in es && e.ruleId == x
                            && (e.status.StatusOk? || e.status.StatusTimeout? || e.status.StatusFailed?)
    {
      IdsMembers(es, x);
      SurvivesIff(filters, x);
    }
    forall e | e in es && e.status.NotDetected?
      ensures StoppedFirstBy(filters, e.ruleId, e.status.eco)
    {
      SurvivesIff(filters, e.ruleId);
    }
  }

  lemma {:induction false} InRunOrder(gs: seq<Group>, selected: seq<string>, fn: map<string, nat>)
    requires Partition(gs, selected, fn) && SortedBy(gs, GroupLe)
    ensures RunOrder(gs, selected, fn)
  {
    hide StringLe, AllIds, RulesOf;
    forall i, j | 0 <= i < j < |gs|
      ensures StringLe(gs[i].ids[0], gs[j].ids[0])
    {
      assert GroupLe(gs[i], gs[j]);
    }
  }

  lemma {:induction false} SkippedAreRight(r: Registry, explicit: Option<set<string>>, filters: seq<Filter>, run: nat -> Outcome,
                                           selected: seq<string>, droppedBy: map<string, string>, skipped: seq<Execution>)
    requires ValidRegistry(r)
    requires forall x :: x in selected <==> Requested(r, explicit, x) && Survives(filters, x)
    requires forall x :: x in droppedBy <==> Requested(r, explicit, x) && !Survives(filters, x)
    requires forall x :: x in droppedBy ==> FirstDropper(filters, x, droppedBy[x])
    requires explicit.None? ==> skipped == []
    requires forall e :: e in skipped ==>
               e == Execution(e.ruleId, if e.ruleId in droppedBy then NotDetected(droppedBy[e.ruleId]) else NotRegistered, 0)
    requires forall e :: e in skipped && explicit.Some? ==> e.ruleId in explicit.value && e.ruleId !in selected
    ensures forall e :: e in skipped ==> RightExecution(r, filters, run, e) && !e.status.StatusOk?
  {
    hide Survives, FirstDropper, ExecutionOf;
  }

  lemma {:induction false} NoRecords()
    ensures Ids([]) == [] && SortedBy(Ids([]), StringLe)
  {
  }

  lemma {:induction false} SelectedAreRegistered(r: Registry, explicit: Option<set<string>>, filters: seq<Filter>, selected: seq<string>)
    requires ValidRegistry(r) && forall x :: x in selected <==> Requested(r, explicit, x) && Survives(filters, x)
    ensures forall x :: x in selected ==> x in r.fn
  {
    hide Survives;
  }

  lemma {:induction false} NobodyConcerned(r: Registry, explicit: Option<set<string>>, filters: seq<Filter>, selected: seq<string>)
    requires forall x :: x in selected <==> Requested(r, explicit, x) && Survives(filters, x)
    requires selected == [] && (explicit.Some? ==> forall x :: x in explicit.value ==> x in selected)
    ensures forall x :: !Concerned(r, explicit, filters, x)
    ensures Ids([]) == []
  {
    hide Survives;
  }

  lemma {:induction false} NothingToRun(fn: map<string, nat>, run: nat -> Outcome, explicit: Option<set<string>>)
    ensures forall f :: !Emitted([], fn, run, f)
    ensures RunOrder([], [], fn) && Reported([], run, explicit, []) == [] && InOrder([], [])
    ensures Tallies(map[], RuleIds([])) && Tallies(map[], Severities([])) && SumsTo(map[], 0)
  {
    assert [] == [] + AllIds([]);
    TalliesSum(map[], []);
  }

  lemma {:induction false} TalliesSum(m: map<string, nat>, keys: seq<string>)
    requires Tallies(m, keys)
    ensures SumsTo(m, |keys|)
  {
    forall ks: seq<string> | Distinct(ks) && forall k :: k in ks <==> k in m
      ensures SumOver(m, ks) == |keys|
    {
      TalliesAddUp(m, keys, ks);
    }
  }

  /** From what each stage of the scan returns to what the scan promises. */
  lemma {:induction false} ScanIsRight(r: Registry, explicit: Option<set<string>>, filters: seq<Filter>, run: nat -> Outcome,
                                       selected: seq<string>, gs: seq<Group>, skipped: seq<Execution>,
                                       executed: seq<Execution>, result: Result)
    requires ValidRegistry(r) && Distinct(selected)
    requires forall x :: x in selected <==> Requested(r, explicit, x) && Survives(filters, x)
    requires RunOrder(gs, selected, r.fn)
    requires SortedBy(Ids(skipped), StringLe) && Distinct(Ids(skipped))
    requires forall x :: x in Ids(skipped) <==> explicit.Some? && x in explicit.value && x !in selected
    requires Ids(executed) == AllIds(gs)
    requires forall e :: e in executed ==>
               exists k :: 0 <= k < |gs| && e.ruleId in gs[k].ids && e == ExecutionOf(run(gs[k].fn), e.ruleId)
    requires result.executions == skipped + executed && result.findings == Reported(gs, run, explicit, selected)
    requires Tallies(result.byRule, RuleIds(result.findings)) && Tallies(result.bySeverity, Severities(result.findings))
    ensures Distinct(Ids(result.executions))
    ensures forall x :: x in Ids(result.executions) <==> Concerned(r, explicit, filters, x)
    ensures forall e :: e in executed ==> RightExecution(r, filters, run, e)
    ensures forall f :: f in result.findings <==>
              Emitted(selected, r.fn, run, f) && (explicit.Some? ==> f.ruleId in selected)
    ensures InOrder(Ids(result.executions), gs)
    ensures forall e :: e in executed && e.status.StatusOk? && e.ruleId in r.fn && OnlyItsOwn(r.fn, run, e.ruleId) ==>
              e.findingsCount == if e.ruleId in result.byRule then result.byRule[e.ruleId] else 0
    ensures SumsTo(result.byRule, |result.findings|) && SumsTo(result.bySeverity, |result.findings|)
  {
    hide Drops, Survives, RightExecution, Emitted, SumsTo, CountRule, Ids, OnlyItsOwn, GroupLe, Collected, Tallies, ExecutionOf, SortedBy, Kept, StringLe;
    IdsAppend(skipped, executed);
    JoinDistinct(Ids(skipped), Ids(executed), selected);
    forall e | e in executed
      ensures RightExecution(r, filters, run, e)
    {
      ExecutedIsRight(r, filters, run, selected, gs, e);
    }
    CollectedIffEmitted(gs, selected, r.fn, run);
    KeptProperties(Collected(gs, run), selected);
    forall e | e in executed && e.status.StatusOk? && e.ruleId in r.fn && OnlyItsOwn(r.fn, run, e.ruleId)
      ensures e.findingsCount == if e.ruleId in result.byRule then result.byRule[e.ruleId] else 0
    {
      OwnCount(gs, selected, r.fn, run, e);
      TallyOfRule(result.byRule, result.findings, e.ruleId);
    }
    TalliesSum(result.byRule, RuleIds(result.findings));
    TalliesSum(result.bySeverity, Severities(result.findings));
    assert |RuleIds(result.findings)| == |result.findings| == |Severities(result.findings)|;
  }

  lemma {:induction false} ExecutedIsRight(r: Registry, filters: seq<Filter>, run: nat -> Outcome, selected: seq<string>,
                                           gs: seq<Group>, e: Execution)
    requires ValidRegistry(r) && Partition(gs, selected, r.fn)
    requires forall x :: x in selected ==> x in r.order && Survives(filters, x)
    requires exists k :: 0 <= k < |gs| && e.ruleId in gs[k].ids && e == ExecutionOf(run(gs[k].fn), e.ruleId)
    ensures RightExecution(r, filters, run, e)
  {
    hide Survives, FirstDropper, ExecutionOf, AllIds, RulesOf;
    var k :| 0 <= k < |gs| && e.ruleId in gs[k].ids && e == ExecutionOf(run(gs[k].fn), e.ruleId);
    RuleIsSelected(gs, selected, r.fn, k, e.ruleId);
  }

  /** Skipped rules and executed rules do not overlap. */
  lemma {:induction false} JoinDistinct(skipped: seq<string>, executed: seq<string>, selected: seq<string>)
    requires Distinct(skipped) && Distinct(selected) && multiset(executed) == multiset(selected)
    requires forall x :: x in skipped ==> x !in selected
    ensures Distinct(skipped + executed)
    ensures forall x :: x in skipped + executed <==> x in skipped || x in selected
  {
    DistinctByMultiset(selected, executed);
    forall x ensures x in executed <==> x in selected {
      assert x in executed <==> x in multiset(executed);
      assert x in selected <==> x in multiset(selected);
    }
    var all := skipped + executed;
    forall i, j | 0 <= i < j < |all| ensures all[i] != all[j] {
      if i < |skipped| <= j {
        assert all[i] in skipped && all[j] in executed;
      }
    }
  }

  lemma {:induction false} OwnCount(gs: seq<Group>, selected: seq<string>, fn: map<string, nat>, run: nat -> Outcome, e: Execution)
    requires Partition(gs, selected, fn) && e.ruleId in fn && OnlyItsOwn(fn, run, e.ruleId) && e.status.StatusOk?
    requires exists k :: 0 <= k < |gs| && e.ruleId in gs[k].ids && e == ExecutionOf(run(gs[k].fn), e.ruleId)
    ensures CountRule(Collected(gs, run), e.ruleId) == e.findingsCount && e.ruleId in selected
  {
    hide CountRule, Collected, AllIds, RulesOf;
    var k :| 0 <= k < |gs| && e.ruleId in gs[k].ids && e == ExecutionOf(run(gs[k].fn), e.ruleId);
    RuleIsSelected(gs, selected, fn, k, e.ruleId);
    forall i | 0 <= i < |gs| && i != k && run(gs[i].fn).Ok?
      ensures CountRule(run(gs[i].fn).findings, e.ruleId) == 0
    {
      var x := gs[i].ids[0];
      assert x in gs[i].ids && fn[x] == gs[i].fn;
      assert gs[i].fn != gs[k].fn;
    }
    OnlyOneEmits(gs, run, e.ruleId, k);
  }

  lemma {:induction false} IdsOfGroup(gs: seq<Group>, k: nat, x: string)
    requires k < |gs| && x in gs[k].ids
    ensures x in AllIds(gs)
    decreases k
  {
    if k > 0 {
      IdsOfGroup(gs[1..], k - 1, x);
    }
  }

  lemma {:induction false} RuleIsSelected(gs: seq<Group>, selected: seq<string>, fn: map<string, nat>, k: nat, rule: string)
    requires Partition(gs, selected, fn) && k < |gs| && rule in gs[k].ids
    ensures rule in selected
  {
    IdsOfGroup(gs, k, rule);
    assert rule in multiset(AllIds(gs));
  }

  lemma {:induction false} TallyOfRule(byRule: map<string, nat>, fs: seq<Finding>, rule: string)
    requires Tallies(byRule, RuleIds(fs))
    ensures CountRule(fs, rule) == if rule in byRule then byRule[rule] else 0
  {
    hide CountRule, RuleIds;
    CountIsMultiplicity(fs, rule);
    assert rule in RuleIds(fs) <==> rule in multiset(RuleIds(fs));
  }

  lemma {:induction false} CollectedIffEmitted(gs: seq<Group>, selected: seq<string>, fn: map<string, nat>, run: nat -> Outcome)
    requires Partition(gs, selected, fn)
    ensures forall f :: f in Collected(gs, run) <==> Emitted(selected, fn, run, f)
  {
    hide AllIds, Collected, RulesOf;
    forall f | f in Collected(gs, run)
      ensures Emitted(selected, fn, run, f)
    {
      var k := CollectedFrom(gs, run, f);
      var x := gs[k].ids[0];
      assert x in gs[k].ids;
      RuleIsSelected(gs, selected, fn, k, x);
    }
    forall f | Emitted(selected, fn, run, f)
      ensures f in Collected(gs, run)
    {
      var x :| x in selected && x in fn && run(fn[x]).Ok? && f in run(fn[x]).findings;
      assert x in multiset(AllIds(gs));
      var k := GroupOfId(gs, x);
      CollectedHas(gs, run, f, k);
    }
  }

  lemma {:induction false} CollectedFrom(gs: seq<Group>, run: nat -> Outcome, f: Finding) returns (k: nat)
    requires f in Collected(gs, run)
    ensures k < |gs| && run(gs[k].fn).Ok? && f in run(gs[k].fn).findings
    decreases |gs|
  {
    var n := |gs| - 1;
    if f in Collected(gs[..n], run) {
      k := CollectedFrom(gs[..n], run, f);
    } else {
      k := n;
    }
  }

  lemma {:induction false} CollectedHas(gs: seq<Group>, run: nat -> Outcome, f: Finding, k: nat)
    requires k < |gs| && run(gs[k].fn).Ok? && f in run(gs[k].fn).findings
    ensures f in Collected(gs, run)
    decreases |gs|
  {
    if k < |gs| - 1 {
      CollectedHas(gs[..|gs| - 1], run, f, k);
    }
  }

  // ---------------------------------------------------------------- one order only

  /** The promised order leaves no choice: the rules and their functions determine the run. */
  lemma {:induction false} RunOrderUnique(gs: seq<Group>, hs: seq<Group>, selected: seq<string>, fn: map<string, nat>)
    requires Distinct(selected) && RunOrder(gs, selected, fn) && RunOrder(hs, selected, fn)
    ensures gs == hs
  {
    hide AllIds, RulesOf, StringLe, GroupLe, SortedBy, TotalPreorder, Antisymmetric;
    FirstsProperties(gs, selected, fn);
    FirstsProperties(hs, selected, fn);
    FirstsShared(gs, hs, selected, fn);
    FirstsShared(hs, gs, selected, fn);
    SameMembers(Firsts(gs), Firsts(hs));
    StringOrder();
    SortedUnique(Firsts(gs), Firsts(hs), StringLe);
    forall i | 0 <= i < |gs|
      ensures gs[i] == hs[i]
    {
      assert Firsts(gs)[i] == gs[i].ids[0] && Firsts(hs)[i] == hs[i].ids[0];
      assert gs[i].fn == fn[gs[i].ids[0]] && hs[i].fn == fn[hs[i].ids[0]];
    }
  }

  function Firsts(gs: seq<Group>): seq<string> {
    seq(|gs|, i requires 0 <= i < |gs| => if gs[i].ids == [] then "" else gs[i].ids[0])
  }

  lemma {:induction false} FirstsProperties(gs: seq<Group>, selected: seq<string>, fn: map<string, nat>)
    requires RunOrder(gs, selected, fn)
    ensures SortedBy(Firsts(gs), StringLe) && Distinct(Firsts(gs))
  {
    hide AllIds, RulesOf, StringLe;
    forall i, j | 0 <= i < j < |gs|
      ensures Firsts(gs)[i] != Firsts(gs)[j]
    {
      assert gs[i].ids[0] in gs[i].ids && gs[j].ids[0] in gs[j].ids;
    }
  }

  /** A function's first rule leads its group in every arrangement. */
  lemma {:induction false} FirstsShared(gs: seq<Group>, hs: seq<Group>, selected: seq<string>, fn: map<string, nat>)
    requires Partition(gs, selected, fn) && Partition(hs, selected, fn)
    ensures forall x :: x in Firsts(gs) ==> x in Firsts(hs)
  {
    hide AllIds, RulesOf;
    forall x | x in Firsts(gs)
      ensures x in Firsts(hs)
    {
      var i :| 0 <= i < |gs| && Firsts(gs)[i] == x;
      assert x in gs[i].ids;
      RuleIsSelected(gs, selected, fn, i, x);
      assert x in multiset(selected);
      var k := GroupOfId(hs, x);
      assert hs[k].fn == gs[i].fn;
      assert Firsts(hs)[k] == x;
    }
  }
}
