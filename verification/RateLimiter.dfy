/** The token-bucket rate limiter of the scan daemon: buckets in an ordered dictionary, refilled from
    a monotone clock, with stale and surplus buckets evicted when a new client appears. */
module RateLimiter {
  import opened Common
  import opened Sorting

  const STALE_SECONDS := 300.0

  datatype Bucket = Bucket(last: real, tokens: real)

  /** An ordered dictionary: keys in order, and their buckets. */
  datatype Table = Table(order: seq<string>, at: map<string, Bucket>)

  const EMPTY := Table([], map[])

  ghost predicate ValidTable(t: Table) {
    Distinct(t.order) && forall k :: k in t.order <==> k in t.at
  }

  // ---------------------------------------------------------------- dictionary operations

  function Select(order: seq<string>, keep: set<string>): seq<string> {
    if order == [] then []
    else (if order[0] in keep then [order[0]] else []) + Select(order[1..], keep)
  }

  function Put(t: Table, k: string, b: Bucket): Table {
    Table(if k in t.at then t.order else t.order + [k], t.at[k := b])
  }

  function Remove(t: Table, gone: set<string>): Table {
    Table(Select(t.order, t.at.Keys - gone), t.at - gone)
  }

  function MoveToEnd(t: Table, k: string): Table {
    Table(Select(t.order, t.at.Keys - {k}) + [k], t.at)
  }

  lemma {:induction false} SelectProperties(order: seq<string>, keep: set<string>)
    requires Distinct(order)
    ensures Distinct(Select(order, keep))
    ensures forall k :: k in Select(order, keep) <==> k in order && k in keep
    ensures |Select(order, keep)| <= |order|
    ensures (forall k :: k in order ==> k in keep) ==> Select(order, keep) == order
    decreases |order|
  {
    if order != [] {
      SelectProperties(order[1..], keep);
      assert order == [order[0]] + order[1..];
    }
  }

  lemma {:induction false} SelectAllButOne(order: seq<string>, keep: set<string>, k: string)
    requires Distinct(order) && k in order
    requires forall x :: x in order ==> (x in keep <==> x != k)
    ensures |Select(order, keep)| == |order| - 1
    decreases |order|
  {
    if order[0] == k {
      SelectProperties(order[1..], keep);
    } else {
      SelectAllButOne(order[1..], keep, k);
    }
  }

  lemma {:induction false} PutProperties(t: Table, k: string, b: Bucket)
    requires ValidTable(t)
    ensures ValidTable(Put(t, k, b))
    ensures |Put(t, k, b).order| == |t.order| + if k in t.at then 0 else 1
  {
  }

  lemma {:induction false} RemoveProperties(t: Table, gone: set<string>)
    requires ValidTable(t)
    ensures ValidTable(Remove(t, gone))
  {
    SelectProperties(t.order, t.at.Keys - gone);
  }

  lemma {:induction false} MoveToEndProperties(t: Table, k: string)
    requires ValidTable(t) && k in t.at
    ensures ValidTable(MoveToEnd(t, k)) && |MoveToEnd(t, k).order| == |t.order|
  {
    hide Select;
    SelectProperties(t.order, t.at.Keys - {k});
    SelectAllButOne(t.order, t.at.Keys - {k}, k);
  }

  // ---------------------------------------------------------------- the step

  /** `evicts` is true of the program; a limiter with `evicts` false never deletes a bucket. */
  datatype Config = Config(rps: real, burst: int, maxBuckets: nat, evicts: bool)

  /** The burst a limiter ends up with: twice the rate when none is given. */
  function EffectiveBurst(rps: real, burst: int): int {
    if rps > 0.0 && burst == 0 then (rps * 2.0).Floor else burst
  }

  function StaleKeys(t: Table, now: real): set<string> {
    set k | k in t.at && now - t.at[k].last > STALE_SECONDS
  }

  function PopFront(t: Table): Table
    requires t.order != []
  {
    Table(t.order[1..], t.at - {t.order[0]})
  }

  /** Pops the oldest entries until at most `max` are left. */
  function Shrink(t: Table, max: nat): Table
    decreases |t.order|
  {
    if |t.order| <= max then t else Shrink(PopFront(t), max)
  }

  function EvictStale(t: Table, now: real, max: nat): Table {
    Shrink(Remove(t, StaleKeys(t, now)), max)
  }

  /** The tokens added in so many seconds. */
  function Refill(seconds: real, rps: real): real {
    seconds * rps
  }

  /** The tokens client `c` has at time `now`. */
  function Level(cfg: Config, t: Table, c: string, now: real): real {
    if c in t.at then MinReal(cfg.burst as real, t.at[c].tokens + Refill(now - t.at[c].last, cfg.rps))
    else cfg.burst as real
  }

  /** A request: the client, the clock reading of `check`, and the later one of the eviction. */
  datatype Event = Event(client: string, now: real, evictNow: real)

  function Base(cfg: Config, t: Table, e: Event): Table {
    if e.client in t.at || !cfg.evicts then t else EvictStale(t, e.evictNow, cfg.maxBuckets)
  }

  predicate Grants(cfg: Config, t: Table, e: Event) {
    cfg.rps <= 0.0 || Level(cfg, t, e.client, e.now) >= 1.0
  }

  function Step(cfg: Config, t: Table, e: Event): Table {
    if cfg.rps <= 0.0 then t
    else
      var tokens := Level(cfg, t, e.client, e.now);
      if tokens < 1.0 then Put(Base(cfg, t, e), e.client, Bucket(e.now, tokens))
      else MoveToEnd(Put(Base(cfg, t, e), e.client, Bucket(e.now, tokens - 1.0)), e.client)
  }

  // ---------------------------------------------------------------- what eviction keeps

  lemma {:induction false} ShrinkProperties(t: Table, max: nat)
    requires ValidTable(t)
    ensures ValidTable(Shrink(t, max)) && |Shrink(t, max).order| <= max
    ensures |Shrink(t, max).order| <= |t.order|
    ensures forall k :: k in Shrink(t, max).at ==> k in t.at && Shrink(t, max).at[k] == t.at[k]
    decreases |t.order|
  {
    if |t.order| > max {
      var u := PopFront(t);
      assert t.order == [t.order[0]] + u.order;
      assert ValidTable(u);
      ShrinkProperties(u, max);
    }
  }

  /** The client loses its bucket in this step although the bucket is not stale. */
  ghost predicate Popped(cfg: Config, t: Table, e: Event, c: string) {
    c in t.at && c !in Base(cfg, t, e).at && c !in StaleKeys(t, e.evictNow)
  }

  lemma {:induction false} BaseProperties(cfg: Config, t: Table, e: Event)
    requires ValidTable(t)
    ensures ValidTable(Base(cfg, t, e))
    ensures forall k :: k in Base(cfg, t, e).at ==> k in t.at && Base(cfg, t, e).at[k] == t.at[k]
    ensures e.client in Base(cfg, t, e).at <==> e.client in t.at
    ensures e.client !in t.at && cfg.evicts ==> |Base(cfg, t, e).order| <= cfg.maxBuckets
    ensures e.client in t.at ==> Base(cfg, t, e) == t
  {
    var gone := StaleKeys(t, e.evictNow);
    RemoveProperties(t, gone);
    ShrinkProperties(Remove(t, gone), cfg.maxBuckets);
  }

  lemma {:induction false} StepProperties(cfg: Config, t: Table, e: Event)
    requires ValidTable(t) && cfg.rps > 0.0
    ensures ValidTable(Step(cfg, t, e))
    ensures e.client in Step(cfg, t, e).at
    ensures Step(cfg, t, e).at[e.client]
         == Bucket(e.now, Level(cfg, t, e.client, e.now) - if Grants(cfg, t, e) then 1.0 else 0.0)
    ensures forall k :: k != e.client ==>
              (k in Step(cfg, t, e).at <==> k in Base(cfg, t, e).at)
              && (k in Step(cfg, t, e).at ==> k in t.at && Step(cfg, t, e).at[k] == t.at[k])
    ensures |Step(cfg, t, e).order| == |Base(cfg, t, e).order| + if e.client in t.at then 0 else 1
  {
    hide Level, Base, Select;
    BaseProperties(cfg, t, e);
    var tokens := Level(cfg, t, e.client, e.now);
    var b := Bucket(e.now, if tokens < 1.0 then tokens else tokens - 1.0);
    var base := Base(cfg, t, e);
    PutProperties(base, e.client, b);
    MoveToEndProperties(Put(base, e.client, b), e.client);
  }

  // ---------------------------------------------------------------- runs

  /** The clock readings never go back. */
  ghost predicate Monotone(evs: seq<Event>, clock: real) {
    evs == [] || (clock <= evs[0].now <= evs[0].evictNow && Monotone(evs[1..], evs[0].evictNow))
  }

  function Run(cfg: Config, t: Table, evs: seq<Event>): Table
    decreases |evs|
  {
    if evs == [] then t else Run(cfg, Step(cfg, t, evs[0]), evs[1..])
  }

  /** The decisions, in order. */
  function Decisions(cfg: Config, t: Table, evs: seq<Event>): seq<bool>
    decreases |evs|
  {
    if evs == [] then [] else [Grants(cfg, t, evs[0])] + Decisions(cfg, Step(cfg, t, evs[0]), evs[1..])
  }

  /** How often client `c` was granted a request. */
  function GrantCount(cfg: Config, t: Table, evs: seq<Event>, c: string): nat
    decreases |evs|
  {
    if evs == [] then 0
    else (if evs[0].client == c && Grants(cfg, t, evs[0]) then 1 else 0) + GrantCount(cfg, Step(cfg, t, evs[0]), evs[1..], c)
  }

  ghost predicate NeverPopped(cfg: Config, t: Table, evs: seq<Event>, c: string)
    decreases |evs|
  {
    evs == [] || (!Popped(cfg, t, evs[0], c) && NeverPopped(cfg, Step(cfg, t, evs[0]), evs[1..], c))
  }

  /** Every bucket was written in the past and holds between nothing and a full burst. */
  ghost predicate Sound(cfg: Config, t: Table, clock: real) {
    && ValidTable(t)
    && forall k :: k in t.at ==>
         t.at[k].last <= clock && t.at[k].tokens <= cfg.burst as real
         && (t.at[k].tokens >= 0.0 || t.at[k].tokens == cfg.burst as real)
  }

  lemma {:induction false} Product(x: real, r: real)
    requires x >= 0.0 && r > 0.0
    ensures Refill(x, r) >= 0.0
  {
  }

  lemma {:induction false} NoTimeNoRefill(x: real, r: real)
    requires x == 0.0
    ensures Refill(x, r) == 0.0
  {
  }

  lemma {:induction false} RefillIsProduct(rps: real, seconds: real)
    ensures Refill(STALE_SECONDS, rps) == 300.0 * rps
    ensures Refill(seconds, rps) == seconds * rps
  {
  }

  lemma {:induction false} SplitInterval(last: real, now: real, later: real, r: real)
    requires r > 0.0 && last <= now <= later
    ensures Refill(later - last, r) == Refill(now - last, r) + Refill(later - now, r)
    ensures Refill(now - last, r) >= 0.0 && Refill(later - now, r) >= 0.0
  {
    Product(now - last, r);
    Product(later - now, r);
  }

  /** Refilling in two instalments is refilling once. */
  lemma {:induction false} RefillTwice(full: real, tokens: real, last: real, now: real, later: real, r: real)
    requires r > 0.0 && last <= now <= later && tokens <= full
    ensures MinReal(full, MinReal(full, tokens + Refill(now - last, r)) + Refill(later - now, r))
         == MinReal(full, tokens + Refill(later - last, r))
  {
    hide Refill;
    SplitInterval(last, now, later, r);
  }

  lemma {:induction false} LevelGrowth(cfg: Config, t: Table, c: string, clock: real, now: real, later: real)
    requires cfg.rps > 0.0 && Sound(cfg, t, clock) && clock <= now <= later
    ensures Level(cfg, t, c, now) <= Level(cfg, t, c, later) <= Level(cfg, t, c, now) + Refill(later - now, cfg.rps)
    ensures Level(cfg, t, c, now) <= cfg.burst as real
    ensures Level(cfg, t, c, now) >= 0.0 || Level(cfg, t, c, now) == cfg.burst as real
  {
    hide Refill;
    SplitInterval(now, now, later, cfg.rps);
    if c in t.at {
      SplitInterval(t.at[c].last, now, later, cfg.rps);
    }
  }

  lemma {:induction false} SoundStep(cfg: Config, t: Table, e: Event, clock: real)
    requires Sound(cfg, t, clock) && clock <= e.now <= e.evictNow
    ensures Sound(cfg, Step(cfg, t, e), e.evictNow)
  {
    hide Level, Base, Step, Grants, Refill;
    if cfg.rps > 0.0 {
      StepProperties(cfg, t, e);
      LevelGrowth(cfg, t, e.client, clock, e.now, e.now);
      assert Grants(cfg, t, e) <==> Level(cfg, t, e.client, e.now) >= 1.0 by { GrantsIffLevel(cfg, t, e); }
    } else {
      assert Step(cfg, t, e) == t by { UnlimitedStep(cfg, t, e); }
    }
  }

  lemma {:induction false} GrantsIffLevel(cfg: Config, t: Table, e: Event)
    requires cfg.rps > 0.0
    ensures Grants(cfg, t, e) <==> Level(cfg, t, e.client, e.now) >= 1.0
  {
  }

  lemma {:induction false} UnlimitedStep(cfg: Config, t: Table, e: Event)
    requires cfg.rps <= 0.0
    ensures Step(cfg, t, e) == t && Grants(cfg, t, e)
  {
  }

  /** What a step leaves for a client that keeps or gets a bucket. */
  lemma {:induction false} LevelAfter(cfg: Config, t: Table, c: string, later: real, refill: real)
    requires c in t.at && refill == Refill(later - t.at[c].last, cfg.rps)
    ensures Level(cfg, t, c, later) == MinReal(cfg.burst as real, t.at[c].tokens + refill)
  {
  }

  /** The requesting client's own level drops by one on a grant and is otherwise untouched. */
  lemma {:induction false} OwnLevel(cfg: Config, t: Table, e: Event, clock: real, later: real)
    requires cfg.rps > 0.0 && Sound(cfg, t, clock) && clock <= e.now <= e.evictNow <= later
    ensures !Grants(cfg, t, e) ==> Level(cfg, Step(cfg, t, e), e.client, later) == Level(cfg, t, e.client, later)
    ensures Grants(cfg, t, e) ==>
              Level(cfg, Step(cfg, t, e), e.client, later)
              <= Level(cfg, t, e.client, e.now) - 1.0 + Refill(later - e.now, cfg.rps)
  {
    hide Base, Step, Level, Grants, Refill;
    var c := e.client;
    assert c in Step(cfg, t, e).at && Step(cfg, t, e).at[c]
           == Bucket(e.now, Level(cfg, t, c, e.now) - if Grants(cfg, t, e) then 1.0 else 0.0) by {
      StepProperties(cfg, t, e);
    }
    LevelAfter(cfg, Step(cfg, t, e), c, later, Refill(later - e.now, cfg.rps));
    if !Grants(cfg, t, e) {
      RefillLevel(cfg, t, c, clock, e.now, later);
    }
  }

  lemma {:induction false} RefillLevel(cfg: Config, t: Table, c: string, clock: real, now: real, later: real)
    requires cfg.rps > 0.0 && Sound(cfg, t, clock) && clock <= now <= later
    ensures MinReal(cfg.burst as real, Level(cfg, t, c, now) + Refill(later - now, cfg.rps)) == Level(cfg, t, c, later)
  {
    hide Refill;
    if c in t.at {
      RefillTwice(cfg.burst as real, t.at[c].tokens, t.at[c].last, now, later, cfg.rps);
    } else {
      SplitInterval(now, now, later, cfg.rps);
    }
  }

  /** Eviction can only raise another client's level; it leaves it alone when the bucket is not popped
      and a stale bucket would be full again anyway. */
  lemma {:induction false} OtherLevel(cfg: Config, t: Table, e: Event, c: string, clock: real, later: real)
    requires cfg.rps > 0.0 && Sound(cfg, t, clock) && clock <= e.now <= e.evictNow <= later && c != e.client
    ensures Level(cfg, Step(cfg, t, e), c, later) >= Level(cfg, t, c, later)
    ensures !Popped(cfg, t, e, c) && (!cfg.evicts || cfg.burst as real <= Refill(STALE_SECONDS, cfg.rps)) ==>
              Level(cfg, Step(cfg, t, e), c, later) == Level(cfg, t, c, later)
  {
    hide Step, EvictStale, Refill;
    var t' := Step(cfg, t, e);
    assert (c in t'.at <==> c in Base(cfg, t, e).at) && (c in t'.at ==> c in t.at && t'.at[c] == t.at[c]) by {
      StepProperties(cfg, t, e);
    }
    if c in t.at && c !in t'.at {
      LevelGrowth(cfg, t, c, clock, later, later);
      if c in StaleKeys(t, e.evictNow) && cfg.burst as real <= Refill(STALE_SECONDS, cfg.rps) {
        StaleIsFull(cfg, t, c, clock, later);
      }
    }
  }

  lemma {:induction false} StaleIsFull(cfg: Config, t: Table, c: string, clock: real, later: real)
    requires cfg.rps > 0.0 && Sound(cfg, t, clock) && clock <= later
    requires c in t.at && later - t.at[c].last > STALE_SECONDS && cfg.burst as real <= Refill(STALE_SECONDS, cfg.rps)
    ensures Level(cfg, t, c, later) == cfg.burst as real
  {
    hide Refill;
    FullAgain(cfg.burst as real, t.at[c].tokens, later - t.at[c].last, cfg.rps);
  }

  lemma {:induction false} FullAgain(full: real, tokens: real, elapsed: real, r: real)
    requires r > 0.0 && elapsed > STALE_SECONDS && full <= Refill(STALE_SECONDS, r)
    requires tokens >= 0.0 || tokens == full
    ensures tokens + Refill(elapsed, r) >= full
  {
    Product(elapsed - STALE_SECONDS, r);
    Product(elapsed, r);
    assert Refill(elapsed, r) == Refill(STALE_SECONDS, r) + Refill(elapsed - STALE_SECONDS, r);
  }

  // ---------------------------------------------------------------- at most burst + rps * T

  lemma {:induction false} GrantsBoundedByLevel(cfg: Config, t: Table, evs: seq<Event>, c: string, clock: real, end: real)
    requires cfg.rps > 0.0 && Sound(cfg, t, clock) && Monotone(evs, clock) && NeverPopped(cfg, t, evs, c)
    requires !cfg.evicts || cfg.burst as real <= Refill(STALE_SECONDS, cfg.rps)
    requires clock <= end && forall i :: 0 <= i < |evs| ==> evs[i].now <= end
    ensures GrantCount(cfg, t, evs, c) == 0
         || GrantCount(cfg, t, evs, c) as real <= Level(cfg, t, c, clock) + Refill(end - clock, cfg.rps)
    decreases |evs|
  {
    hide Level, Step, Grants, Refill;
    if evs != [] {
      var e, rest := evs[0], evs[1..];
      var t' := Step(cfg, t, e);
      SoundStep(cfg, t, e, clock);
      LevelGrowth(cfg, t, c, clock, clock, e.now);
      assert e.now <= end;
      SplitInterval(clock, e.now, end, cfg.rps);
      if e.client == c && Grants(cfg, t, e) {
        GrantsIffLevel(cfg, t, e);
      }
      if GrantCount(cfg, t', rest, c) > 0 {
        LaterEvents(rest, e.evictNow, end, cfg, t', c);
        GrantsBoundedByLevel(cfg, t', rest, c, e.evictNow, end);
        LevelGrowth(cfg, t, c, clock, clock, e.evictNow);
        SplitInterval(clock, e.evictNow, end, cfg.rps);
        SplitInterval(e.now, e.evictNow, end, cfg.rps);
        if e.client == c {
          OwnLevel(cfg, t, e, clock, e.evictNow);
        } else {
          OtherLevel(cfg, t, e, c, clock, e.evictNow);
        }
      }
    }
  }

  lemma {:induction false} LaterEvents(rest: seq<Event>, clock: real, end: real, cfg: Config, t: Table, c: string)
    requires Monotone(rest, clock) && GrantCount(cfg, t, rest, c) > 0
    requires forall i :: 0 <= i < |rest| ==> rest[i].now <= end
    ensures clock <= end
  {
    assert rest[0].now <= end;
  }

  lemma {:induction false} RunSplit(cfg: Config, t: Table, evs: seq<Event>, more: seq<Event>, c: string)
    ensures Run(cfg, t, evs + more) == Run(cfg, Run(cfg, t, evs), more)
    ensures GrantCount(cfg, t, evs + more, c) == GrantCount(cfg, t, evs, c) + GrantCount(cfg, Run(cfg, t, evs), more, c)
    ensures NeverPopped(cfg, t, evs + more, c) <==> NeverPopped(cfg, t, evs, c) && NeverPopped(cfg, Run(cfg, t, evs), more, c)
    decreases |evs|
  {
    hide Step, Grants, Popped, Refill;
    if evs == [] {
      assert evs + more == more;
    } else {
      assert (evs + more)[1..] == evs[1..] + more;
      RunSplit(cfg, Step(cfg, t, evs[0]), evs[1..], more, c);
    }
  }

  lemma {:induction false} MonotoneSplit(evs: seq<Event>, more: seq<Event>, clock: real)
    requires Monotone(evs + more, clock)
    ensures Monotone(evs, clock)
    ensures more != [] ==> Monotone(more, more[0].now) && clock <= more[0].now
    ensures forall i :: 0 <= i < |evs| && more != [] ==> evs[i].evictNow <= more[0].now
    decreases |evs|
  {
    if evs == [] {
      assert evs + more == more;
    } else {
      assert (evs + more)[1..] == evs[1..] + more;
      MonotoneSplit(evs[1..], more, evs[0].evictNow);
    }
  }

  lemma {:induction false} MonotoneEnd(evs: seq<Event>, clock: real)
    requires Monotone(evs, clock) && evs != []
    ensures forall i :: 0 <= i < |evs| ==> evs[i].now <= evs[|evs| - 1].now
    ensures clock <= evs[|evs| - 1].now
    decreases |evs|
  {
    if |evs| > 1 {
      MonotoneEnd(evs[1..], evs[0].evictNow);
    }
  }

  lemma {:induction false} SoundRun(cfg: Config, t: Table, evs: seq<Event>, clock: real, later: real)
    requires Sound(cfg, t, clock) && Monotone(evs, clock) && clock <= later
    requires forall i :: 0 <= i < |evs| ==> evs[i].evictNow <= later
    ensures Sound(cfg, Run(cfg, t, evs), later)
    decreases |evs|
  {
    hide Step, Refill;
    if evs != [] {
      SoundStep(cfg, t, evs[0], clock);
      SoundRun(cfg, Step(cfg, t, evs[0]), evs[1..], evs[0].evictNow, later);
    }
  }

  /** In any window of any run, a client that is not popped gets at most burst + rps * T grants, T being
      the time between the first and the last request of the window. */
  lemma {:induction false} WindowBound(cfg: Config, before: seq<Event>, window: seq<Event>, c: string, clock: real)
    requires cfg.rps > 0.0 && Monotone(before + window, clock) && window != []
    requires NeverPopped(cfg, Run(cfg, EMPTY, before), window, c)
    requires !cfg.evicts || cfg.burst as real <= 300.0 * cfg.rps
    ensures
      var grants := GrantCount(cfg, Run(cfg, EMPTY, before), window, c);
      grants == 0 || grants as real <= cfg.burst as real + (window[|window| - 1].now - window[0].now) * cfg.rps
  {
    hide Refill, GrantCount, NeverPopped, Run, Monotone;
    RefillIsProduct(cfg.rps, window[|window| - 1].now - window[0].now);
    WindowBoundByRefill(cfg, before, window, c, clock);
  }

  lemma {:induction false} WindowBoundByRefill(cfg: Config, before: seq<Event>, window: seq<Event>, c: string, clock: real)
    requires cfg.rps > 0.0 && Monotone(before + window, clock) && window != []
    requires NeverPopped(cfg, Run(cfg, EMPTY, before), window, c)
    requires !cfg.evicts || cfg.burst as real <= Refill(STALE_SECONDS, cfg.rps)
    ensures
      var grants := GrantCount(cfg, Run(cfg, EMPTY, before), window, c);
      grants == 0 || grants as real <= cfg.burst as real + Refill(window[|window| - 1].now - window[0].now, cfg.rps)
  {
    hide Step, Level, Refill;
    var start := window[0].now;
    var t := Run(cfg, EMPTY, before);
    MonotoneSplit(before, window, clock);
    SoundRun(cfg, EMPTY, before, clock, start);
    MonotoneEnd(window, start);
    GrantsBoundedByLevel(cfg, t, window, c, start, window[|window| - 1].now);
    LevelGrowth(cfg, t, c, start, start, start);
  }

  // ---------------------------------------------------------------- deleting stale buckets

  /** Both limiters give client `c` the same level from now on. */
  ghost predicate SameLevel(cfg: Config, t: Table, u: Table, c: string, clock: real) {
    forall now :: clock <= now ==> Level(cfg, t, c, now) == Level(cfg.(evicts := false), u, c, now)
  }

  lemma {:induction false} SameLevelStep(cfg: Config, t: Table, u: Table, e: Event, c: string, clock: real)
    requires cfg.rps > 0.0 && cfg.burst as real <= Refill(STALE_SECONDS, cfg.rps)
    requires Sound(cfg, t, clock) && Sound(cfg, u, clock) && clock <= e.now <= e.evictNow
    requires SameLevel(cfg, t, u, c, clock) && !Popped(cfg, t, e, c)
    ensures SameLevel(cfg, Step(cfg, t, e), Step(cfg.(evicts := false), u, e), c, e.evictNow)
    ensures e.client == c ==> (Grants(cfg, t, e) <==> Grants(cfg.(evicts := false), u, e))
  {
    hide Step, Level, Grants, Popped, Base, Refill;
    var keep := cfg.(evicts := false);
    GrantsIffLevel(cfg, t, e);
    GrantsIffLevel(keep, u, e);
    assert !Popped(keep, u, e, c) by { KeepsNeverPop(keep, u, e, c); }
    forall now | e.evictNow <= now
      ensures Level(cfg, Step(cfg, t, e), c, now) == Level(keep, Step(keep, u, e), c, now)
    {
      if e.client == c {
        SameOwnLevel(cfg, t, u, e, clock, now);
      } else {
        OtherLevel(cfg, t, e, c, clock, now);
        OtherLevel(keep, u, e, c, clock, now);
      }
    }
  }

  lemma {:induction false} KeepsNeverPop(cfg: Config, t: Table, e: Event, c: string)
    requires !cfg.evicts
    ensures !Popped(cfg, t, e, c)
  {
  }

  lemma {:induction false} SameOwnLevel(cfg: Config, t: Table, u: Table, e: Event, clock: real, now: real)
    requires cfg.rps > 0.0 && Sound(cfg, t, clock) && Sound(cfg, u, clock) && clock <= e.now <= e.evictNow <= now
    requires SameLevel(cfg, t, u, e.client, clock)
    ensures Level(cfg, Step(cfg, t, e), e.client, now)
         == Level(cfg.(evicts := false), Step(cfg.(evicts := false), u, e), e.client, now)
  {
    hide Step, Level, Grants, Base, Refill;
    var keep := cfg.(evicts := false);
    StepProperties(cfg, t, e);
    StepProperties(keep, u, e);
    GrantsIffLevel(cfg, t, e);
    GrantsIffLevel(keep, u, e);
    LevelAfter(cfg, Step(cfg, t, e), e.client, now, Refill(now - e.now, cfg.rps));
    LevelAfter(keep, Step(keep, u, e), e.client, now, Refill(now - e.now, cfg.rps));
  }

  lemma {:induction false} SameDecisionsFrom(cfg: Config, t: Table, u: Table, evs: seq<Event>, c: string, clock: real)
    requires cfg.rps > 0.0 && cfg.burst as real <= Refill(STALE_SECONDS, cfg.rps)
    requires Sound(cfg, t, clock) && Sound(cfg, u, clock) && SameLevel(cfg, t, u, c, clock)
    requires Monotone(evs, clock) && NeverPopped(cfg, t, evs, c)
    ensures |Decisions(cfg, t, evs)| == |Decisions(cfg.(evicts := false), u, evs)| == |evs|
    ensures forall i :: 0 <= i < |evs| && evs[i].client == c ==>
              Decisions(cfg, t, evs)[i] == Decisions(cfg.(evicts := false), u, evs)[i]
    decreases |evs|
  {
    hide Step, Level, Grants, Popped, SameLevel, Refill;
    if evs != [] {
      var keep := cfg.(evicts := false);
      var e := evs[0];
      SameLevelStep(cfg, t, u, e, c, clock);
      SoundStep(cfg, t, e, clock);
      assert Sound(cfg, Step(keep, u, e), e.evictNow) by { SoundStep(keep, u, e, clock); }
      SameDecisionsFrom(cfg, Step(cfg, t, e), Step(keep, u, e), evs[1..], c, e.evictNow);
    }
  }

  /** With a burst of at most 300 seconds' worth of tokens, deleting stale buckets never changes a
      decision for a client that is not popped. */
  lemma {:induction false} StaleDeletionIsInvisible(cfg: Config, evs: seq<Event>, c: string, clock: real)
    requires cfg.rps > 0.0 && cfg.burst as real <= 300.0 * cfg.rps
    requires Monotone(evs, clock) && NeverPopped(cfg, EMPTY, evs, c)
    ensures |Decisions(cfg, EMPTY, evs)| == |Decisions(cfg.(evicts := false), EMPTY, evs)| == |evs|
    ensures forall i :: 0 <= i < |evs| && evs[i].client == c ==>
              Decisions(cfg, EMPTY, evs)[i] == Decisions(cfg.(evicts := false), EMPTY, evs)[i]
  {
    RefillIsProduct(cfg.rps, 0.0);
    hide Step, Grants, Refill;
    SameDecisionsFrom(cfg, EMPTY, EMPTY, evs, c, clock);
  }

  /** The default burst meets that condition. */
  lemma {:induction false} DefaultBurstIsSmall(rps: real)
    requires rps > 0.0
    ensures EffectiveBurst(rps, 0) as real <= 300.0 * rps
  {
  }

  // ---------------------------------------------------------------- and when the burst is larger

  /** `n` requests of one client at one instant. */
  function Salvo(c: string, now: real, n: nat): seq<Event> {
    if n == 0 then [] else [Event(c, now, now)] + Salvo(c, now, n - 1)
  }

  lemma {:induction false} SalvoMonotone(c: string, now: real, n: nat, rest: seq<Event>, clock: real)
    requires clock <= now && Monotone(rest, now)
    ensures Monotone(Salvo(c, now, n) + rest, clock)
    ensures |Salvo(c, now, n)| == n
    ensures forall i :: 0 <= i < n ==> Salvo(c, now, n)[i] == Event(c, now, now)
    decreases n
  {
    if n == 0 {
      assert Salvo(c, now, n) + rest == rest;
    } else {
      SalvoMonotone(c, now, n - 1, rest, now);
      assert (Salvo(c, now, n) + rest)[1..] == Salvo(c, now, n - 1) + rest;
    }
  }

  /** A level of `n` pays for `n` requests at once. */
  lemma {:induction false} SalvoGranted(cfg: Config, t: Table, c: string, now: real, n: nat)
    requires cfg.rps > 0.0 && Sound(cfg, t, now) && Level(cfg, t, c, now) >= n as real
    ensures GrantCount(cfg, t, Salvo(c, now, n), c) == n
    ensures NeverPopped(cfg, t, Salvo(c, now, n), c)
    ensures Sound(cfg, Run(cfg, t, Salvo(c, now, n)), now)
    ensures n > 0 ==>
              var u := Run(cfg, t, Salvo(c, now, n));
              c in u.at && u.at[c] == Bucket(now, Level(cfg, t, c, now) - n as real)
    decreases n
  {
    hide Step, Level, Base, Grants, Popped, Sound, Refill;
    if n > 0 {
      var e := Event(c, now, now);
      assert Salvo(c, now, n)[1..] == Salvo(c, now, n - 1);
      SalvoStep(cfg, t, c, now);
      SalvoGranted(cfg, Step(cfg, t, e), c, now, n - 1);
    }
  }

  /** A request with a token to spare takes one, at once. */
  lemma {:induction false} SalvoStep(cfg: Config, t: Table, c: string, now: real)
    requires cfg.rps > 0.0 && Sound(cfg, t, now) && Level(cfg, t, c, now) >= 1.0
    ensures
      var e := Event(c, now, now);
      var t' := Step(cfg, t, e);
      && Grants(cfg, t, e) && !Popped(cfg, t, e, c) && Sound(cfg, t', now)
      && c in t'.at && t'.at[c] == Bucket(now, Level(cfg, t, c, now) - 1.0)
      && Level(cfg, t', c, now) == Level(cfg, t, c, now) - 1.0
  {
    hide Step, Level, Base, Grants, Refill;
    var e := Event(c, now, now);
    var t' := Step(cfg, t, e);
    StepProperties(cfg, t, e);
    SoundStep(cfg, t, e, now);
    GrantsIffLevel(cfg, t, e);
    LevelGrowth(cfg, t, c, now, now, now);
    BaseProperties(cfg, t, e);
    assert t'.at[c] == Bucket(now, Level(cfg, t, c, now) - 1.0);
    NoTimeNoRefill(now - t'.at[c].last, cfg.rps);
    LevelAfter(cfg, t', c, now, 0.0);
  }

  lemma {:induction false} BetweenStaleAndFull(burst: real, rps: real) returns (later: real)
    requires rps > 0.0 && burst > Refill(STALE_SECONDS, rps)
    ensures later > STALE_SECONDS && Refill(later, rps) < burst
  {
    var k := burst / rps;
    assert k * rps == burst;
    assert k > STALE_SECONDS;
    later := (STALE_SECONDS + k) / 2.0;
    Product(k - later, rps);
    assert later * rps == k * rps - (k - later) * rps;
    assert (k - later) * rps > 0.0;
  }

  /** After the salvo the client is stale; another client's request deletes its bucket. */
  lemma {:induction false} StaleBucketGoes(cfg: Config, t: Table, c: string, d: string, later: real)
    requires cfg.rps > 0.0 && cfg.evicts && Sound(cfg, t, 0.0) && later > STALE_SECONDS
    requires c in t.at && t.at[c].last == 0.0 && d !in t.at
    ensures c !in Step(cfg, t, Event(d, later, later)).at
    ensures !Popped(cfg, t, Event(d, later, later), c)
  {
    hide Step, Level, Grants, Refill;
    var e := Event(d, later, later);
    StepProperties(cfg, t, e);
    var kept := Remove(t, StaleKeys(t, later));
    RemoveProperties(t, StaleKeys(t, later));
    ShrinkProperties(kept, cfg.maxBuckets);
    assert c in StaleKeys(t, later);
    assert c !in kept.at;
  }

  /** The run: a salvo, a stranger's request once the bucket is stale, and the same salvo again. */
  function TwoSalvos(c: string, d: string, later: real, n: nat): seq<Event> {
    Salvo(c, 0.0, n) + ([Event(d, later, later)] + Salvo(c, later, n))
  }

  lemma {:induction false} TwoSalvosShape(c: string, d: string, later: real, n: nat)
    requires later >= 0.0 && n > 0
    ensures
      var evs := TwoSalvos(c, d, later, n);
      |evs| == 2 * n + 1 && Monotone(evs, 0.0) && evs[0].now == 0.0 && evs[|evs| - 1].now == later
  {
    var e, second := Event(d, later, later), Salvo(c, later, n);
    SalvoMonotone(c, later, n, [], later);
    assert second + [] == second;
    assert ([e] + second)[1..] == second;
    SalvoMonotone(c, 0.0, n, [e] + second, 0.0);
  }

  lemma {:induction false} TwoSalvosGranted(cfg: Config, c: string, d: string, later: real, n: nat)
    requires cfg.rps > 0.0 && cfg.evicts && c != d && later > STALE_SECONDS && n > 0 && cfg.burst == n
    ensures NeverPopped(cfg, EMPTY, TwoSalvos(c, d, later, n), c)
    ensures GrantCount(cfg, EMPTY, TwoSalvos(c, d, later, n), c) == 2 * n
  {
    hide Step, Level, Base, Grants, Popped, Sound, Refill;
    var first, e, second := Salvo(c, 0.0, n), Event(d, later, later), Salvo(c, later, n);
    EmptyLevel(cfg, c);
    SalvoGranted(cfg, EMPTY, c, 0.0, n);
    var t1 := Run(cfg, EMPTY, first);
    SalvoKeepsOthersOut(cfg, EMPTY, c, 0.0, n, d);
    StaleBucketGoes(cfg, t1, c, d, later);
    SoundStep(cfg, t1, e, 0.0);
    var t2 := Step(cfg, t1, e);
    AbsentLevel(cfg, t2, c, later);
    SalvoGranted(cfg, t2, c, later, n);
    assert ([e] + second)[1..] == second;
    RunSplit(cfg, EMPTY, first, [e] + second, c);
  }

  /** Every limiter whose burst exceeds 300 seconds' worth of tokens breaks the bound: it grants twice
      its burst in a window where burst + rps * T is less, and a limiter that never deletes decides
      differently. */
  lemma {:induction false} LargeBurstBreaksBound(cfg: Config) returns (evs: seq<Event>, c: string)
    requires cfg.rps > 0.0 && cfg.evicts && cfg.burst as real > 300.0 * cfg.rps
    ensures evs != [] && Monotone(evs, 0.0) && NeverPopped(cfg, EMPTY, evs, c)
    ensures GrantCount(cfg, EMPTY, evs, c) as real
          > cfg.burst as real + (evs[|evs| - 1].now - evs[0].now) * cfg.rps
    ensures Decisions(cfg, EMPTY, evs) != Decisions(cfg.(evicts := false), EMPTY, evs)
  {
    RefillIsProduct(cfg.rps, 0.0);
    hide Run, GrantCount, NeverPopped, Decisions, Monotone, TwoSalvos, Refill;
    c := "c";
    Product(STALE_SECONDS, cfg.rps);
    var n: nat := cfg.burst;
    var later := BetweenStaleAndFull(cfg.burst as real, cfg.rps);
    evs := TwoSalvos(c, "d", later, n);
    TwoSalvosShape(c, "d", later, n);
    TwoSalvosGranted(cfg, c, "d", later, n);
    RefillIsProduct(cfg.rps, evs[|evs| - 1].now - evs[0].now);
    assert Refill(evs[|evs| - 1].now - evs[0].now, cfg.rps) == Refill(later, cfg.rps);
    var keep := cfg.(evicts := false);
    KeepsWithinBound(keep, evs, c);
    if Decisions(cfg, EMPTY, evs) == Decisions(keep, EMPTY, evs) {
      CountFromDecisions(cfg, EMPTY, keep, EMPTY, evs, c);
    }
  }

  lemma {:induction false} KeepsWithinBound(keep: Config, evs: seq<Event>, c: string)
    requires keep.rps > 0.0 && !keep.evicts && Monotone(evs, 0.0) && evs != []
    ensures
      var grants := GrantCount(keep, EMPTY, evs, c);
      grants == 0 || grants as real <= keep.burst as real + (evs[|evs| - 1].now - evs[0].now) * keep.rps
  {
    hide Step, Grants, Popped, Refill;
    assert [] + evs == evs;
    KeepsNeverPopRun(keep, EMPTY, evs, c);
    WindowBound(keep, [], evs, c, 0.0);
  }

  lemma {:induction false} EmptyLevel(cfg: Config, c: string)
    ensures Sound(cfg, EMPTY, 0.0) && Level(cfg, EMPTY, c, 0.0) == cfg.burst as real
  {
  }

  lemma {:induction false} AbsentLevel(cfg: Config, t: Table, c: string, now: real)
    requires c !in t.at
    ensures Level(cfg, t, c, now) == cfg.burst as real
  {
  }

  lemma {:induction false} SalvoKeepsOthersOut(cfg: Config, t: Table, c: string, now: real, n: nat, d: string)
    requires cfg.rps > 0.0 && ValidTable(t) && d !in t.at && c != d
    ensures d !in Run(cfg, t, Salvo(c, now, n)).at
    decreases n
  {
    hide Step, Level, Base, Grants, Refill;
    if n > 0 {
      var e := Event(c, now, now);
      assert Salvo(c, now, n)[1..] == Salvo(c, now, n - 1);
      StepProperties(cfg, t, e);
      SalvoKeepsOthersOut(cfg, Step(cfg, t, e), c, now, n - 1, d);
    }
  }

  lemma {:induction false} KeepsNeverPopRun(cfg: Config, t: Table, evs: seq<Event>, c: string)
    requires !cfg.evicts
    ensures NeverPopped(cfg, t, evs, c)
    decreases |evs|
  {
    hide Step, Popped, Refill;
    if evs != [] {
      KeepsNeverPop(cfg, t, evs[0], c);
      KeepsNeverPopRun(cfg, Step(cfg, t, evs[0]), evs[1..], c);
    }
  }

  lemma {:induction false} CountFromDecisions(cfg: Config, t: Table, cfg': Config, t': Table, evs: seq<Event>, c: string)
    requires Decisions(cfg, t, evs) == Decisions(cfg', t', evs)
    ensures GrantCount(cfg, t, evs, c) == GrantCount(cfg', t', evs, c)
    decreases |evs|
  {
    hide Step, Grants, Refill;
    if evs != [] {
      var r, r' := Decisions(cfg, Step(cfg, t, evs[0]), evs[1..]), Decisions(cfg', Step(cfg', t', evs[0]), evs[1..]);
      assert ([Grants(cfg, t, evs[0])] + r)[1..] == r && ([Grants(cfg', t', evs[0])] + r')[1..] == r';
      assert ([Grants(cfg, t, evs[0])] + r)[0] == ([Grants(cfg', t', evs[0])] + r')[0];
      CountFromDecisions(cfg, Step(cfg, t, evs[0]), cfg', Step(cfg', t', evs[0]), evs[1..], c);
    }
  }

  // ---------------------------------------------------------------- the size of the table

  lemma {:induction false} StepKeepsTable(cfg: Config, t: Table, e: Event)
    requires cfg.evicts && ValidTable(t) && |t.order| <= cfg.maxBuckets + 1
    ensures ValidTable(Step(cfg, t, e)) && |Step(cfg, t, e).order| <= cfg.maxBuckets + 1
  {
    hide Step, Base, Grants, Level, Refill, ValidTable;
    if cfg.rps > 0.0 {
      StepProperties(cfg, t, e);
      BaseProperties(cfg, t, e);
    } else {
      UnlimitedStep(cfg, t, e);
    }
  }

  /** In every reachable state at most one bucket more than the cap. */
  lemma {:induction false} TableBounded(cfg: Config, t: Table, evs: seq<Event>)
    requires cfg.evicts && ValidTable(t) && |t.order| <= cfg.maxBuckets + 1
    ensures ValidTable(Run(cfg, t, evs)) && |Run(cfg, t, evs).order| <= cfg.maxBuckets + 1
    decreases |evs|
  {
    hide Step, Base, Grants, Level, Refill;
    if evs != [] {
      StepKeepsTable(cfg, t, evs[0]);
      TableBounded(cfg, Step(cfg, t, evs[0]), evs[1..]);
    }
  }

  /** The cap is exceeded by one as soon as that many clients show up together. */
  lemma {:induction false} TableReaches(cfg: Config, n: nat) returns (evs: seq<Event>)
    requires cfg.evicts && cfg.rps > 0.0 && n <= cfg.maxBuckets + 1
    ensures Monotone(evs, 0.0) && forall i :: 0 <= i < |evs| ==> evs[i].now == 0.0 == evs[i].evictNow
    ensures
      var t := Run(cfg, EMPTY, evs);
      |t.order| == n && Sound(cfg, t, 0.0) && forall k :: k in t.at ==> |k| < n && t.at[k].last == 0.0
    decreases n
  {
    hide Step, Level, Grants, EvictStale, Refill;
    if n == 0 {
      evs := [];
    } else {
      var prior := TableReaches(cfg, n - 1);
      var t := Run(cfg, EMPTY, prior);
      var c := seq(n - 1, _ => 'x');
      var e := Event(c, 0.0, 0.0);
      NothingToEvict(cfg, t);
      StepProperties(cfg, t, e);
      SoundStep(cfg, t, e, 0.0);
      RunSplit(cfg, EMPTY, prior, [e], c);
      MonotoneAppend(prior, e, 0.0);
      evs := prior + [e];
      assert Run(cfg, t, [e]) == Step(cfg, t, e);
    }
  }

  lemma {:induction false} NothingToEvict(cfg: Config, t: Table)
    requires Sound(cfg, t, 0.0) && |t.order| <= cfg.maxBuckets
    requires forall k :: k in t.at ==> t.at[k].last == 0.0
    ensures EvictStale(t, 0.0, cfg.maxBuckets) == t
  {
    assert StaleKeys(t, 0.0) == {};
    SelectProperties(t.order, t.at.Keys - {});
    assert t.at - {} == t.at;
  }

  lemma {:induction false} MonotoneAppend(evs: seq<Event>, e: Event, clock: real)
    requires Monotone(evs, clock) && clock <= e.now <= e.evictNow
    requires forall i :: 0 <= i < |evs| ==> evs[i].evictNow <= e.now
    ensures Monotone(evs + [e], clock)
    decreases |evs|
  {
    if evs != [] {
      assert (evs + [e])[1..] == evs[1..] + [e];
      MonotoneAppend(evs[1..], e, evs[0].evictNow);
    } else {
      assert evs + [e] == [e];
    }
  }

  // ---------------------------------------------------------------- who is popped

  lemma {:induction false} ShrinkKeepsNewest(t: Table, max: nat)
    ensures Shrink(t, max).order == if |t.order| <= max then t.order else t.order[|t.order| - max..]
    decreases |t.order|
  {
    hide ValidTable, Select;
    if |t.order| > max {
      var u := PopFront(t);
      ShrinkKeepsNewest(u, max);
      if |u.order| > max {
        assert t.order[1..][|u.order| - max..] == t.order[|t.order| - max..];
      }
    }
  }

  /** A popped client had at least `maxBuckets` fresh clients behind it in the queue. */
  lemma {:induction false} PoppedOnlyWhenCrowded(cfg: Config, t: Table, e: Event, c: string)
    requires ValidTable(t) && Popped(cfg, t, e, c)
    ensures
      var queue := Remove(t, StaleKeys(t, e.evictNow)).order;
      exists i :: 0 <= i < |queue| - cfg.maxBuckets && queue[i] == c
  {
    hide Shrink, Select;
    var kept := Remove(t, StaleKeys(t, e.evictNow));
    RemoveProperties(t, StaleKeys(t, e.evictNow));
    ShrinkKeepsNewest(kept, cfg.maxBuckets);
    ShrinkProperties(kept, cfg.maxBuckets);
    assert c in kept.order && c !in Shrink(kept, cfg.maxBuckets).order;
    var i :| 0 <= i < |kept.order| && kept.order[i] == c;
  }

  // ---------------------------------------------------------------- the order of the queue

  /** `a` stands before `b`. */
  ghost predicate InFront(order: seq<string>, a: string, b: string) {
    exists i, j :: 0 <= i < j < |order| && order[i] == a && order[j] == b
  }

  lemma {:induction false} FrontOfTail(order: seq<string>, a: string, b: string)
    requires Distinct(order) && order != []
    ensures InFront(order, a, b) <==> (a == order[0] && b in order[1..]) || InFront(order[1..], a, b)
  {
    var rest := order[1..];
    if InFront(order, a, b) {
      var i, j :| 0 <= i < j < |order| && order[i] == a && order[j] == b;
      assert rest[j - 1] == b;
      if i > 0 {
        assert rest[i - 1] == a;
      }
    }
    if a == order[0] && b in rest {
      var j :| 0 <= j < |rest| && rest[j] == b;
      assert order[j + 1] == b;
    }
    if InFront(rest, a, b) {
      var i, j :| 0 <= i < j < |rest| && rest[i] == a && rest[j] == b;
      assert order[i + 1] == a && order[j + 1] == b;
    }
  }

  lemma {:induction false} NotInFrontOfNothing(a: string, b: string)
    ensures !InFront([], a, b)
  {
  }

  lemma {:induction false} SelectKeepsOrder(order: seq<string>, keep: set<string>, a: string, b: string)
    requires Distinct(order)
    ensures InFront(Select(order, keep), a, b) <==> InFront(order, a, b) && a in keep && b in keep
    decreases |order|
  {
    hide InFront;
    if order == [] {
      NotInFrontOfNothing(a, b);
    } else {
      var rest := order[1..];
      SelectKeepsOrder(rest, keep, a, b);
      SelectProperties(rest, keep);
      SelectProperties(order, keep);
      FrontOfTail(order, a, b);
      if order[0] in keep {
        var s := Select(order, keep);
        assert s[0] == order[0] && s[1..] == Select(rest, keep);
        FrontOfTail(s, a, b);
      } else {
        assert Select(order, keep) == Select(rest, keep);
      }
      FrontIsListed(rest, a, b);
    }
  }

  lemma {:induction false} FrontIsListed(order: seq<string>, a: string, b: string)
    ensures InFront(order, a, b) ==> a in order && b in order
  {
  }

  lemma {:induction false} SuffixKeepsOrder(order: seq<string>, k: nat, a: string, b: string)
    requires Distinct(order) && k <= |order|
    ensures InFront(order[k..], a, b) <==> InFront(order, a, b) && a in order[k..]
  {
    if InFront(order[k..], a, b) {
      var i, j :| 0 <= i < j < |order[k..]| && order[k..][i] == a && order[k..][j] == b;
      assert order[k + i] == a && order[k + j] == b;
    }
    if InFront(order, a, b) && a in order[k..] {
      var i, j :| 0 <= i < j < |order| && order[i] == a && order[j] == b;
      var l :| 0 <= l < |order[k..]| && order[k..][l] == a;
      assert order[k + l] == a && k + l == i;
      assert order[k..][i - k] == a && order[k..][j - k] == b;
    }
  }

  lemma {:induction false} AppendKeepsOrder(order: seq<string>, k: string, a: string, b: string)
    requires Distinct(order) && k !in order
    ensures InFront(order + [k], a, b) <==> InFront(order, a, b) || (a in order && b == k)
  {
    var s := order + [k];
    if InFront(s, a, b) {
      var i, j :| 0 <= i < j < |s| && s[i] == a && s[j] == b;
      assert order[i] == a;
    }
    if InFront(order, a, b) {
      var i, j :| 0 <= i < j < |order| && order[i] == a && order[j] == b;
      assert s[i] == a && s[j] == b;
    }
    if a in order && b == k {
      var i :| 0 <= i < |order| && order[i] == a;
      assert s[i] == a && s[|order|] == b;
    }
  }

  /** Eviction leaves the clients it keeps in their order. */
  lemma {:induction false} EvictKeepsOrder(t: Table, now: real, max: nat, a: string, b: string)
    requires ValidTable(t)
    ensures
      var left := EvictStale(t, now, max);
      InFront(left.order, a, b) <==> InFront(t.order, a, b) && a in left.at && b in left.at
  {
    hide Select, Shrink, InFront;
    var gone := StaleKeys(t, now);
    var kept := Remove(t, gone);
    var left := Shrink(kept, max);
    RemoveProperties(t, gone);
    ShrinkProperties(kept, max);
    ShrinkKeepsNewest(kept, max);
    SelectKeepsOrder(t.order, t.at.Keys - gone, a, b);
    FrontIsListed(left.order, a, b);
    if |kept.order| > max {
      SuffixKeepsOrder(kept.order, |kept.order| - max, a, b);
    } else {
      FrontIsListed(kept.order, a, b);
    }
  }

  /** Clients other than the requesting one keep their order. */
  lemma {:induction false} OthersKeepOrder(cfg: Config, t: Table, e: Event, a: string, b: string)
    requires cfg.rps > 0.0 && ValidTable(t) && a != e.client && b != e.client
    requires a in Step(cfg, t, e).at && b in Step(cfg, t, e).at
    ensures a in t.at && b in t.at
    ensures InFront(Step(cfg, t, e).order, a, b) <==> InFront(t.order, a, b)
  {
    hide Select, Level, EvictStale, InFront;
    StepProperties(cfg, t, e);
    BaseProperties(cfg, t, e);
    var base := Base(cfg, t, e);
    assert InFront(base.order, a, b) <==> InFront(t.order, a, b) by {
      EvictKeepsOrder(t, e.evictNow, cfg.maxBuckets, a, b);
    }
    var tokens := Level(cfg, t, e.client, e.now);
    var bucket := Bucket(e.now, if tokens < 1.0 then tokens else tokens - 1.0);
    hide Base;
    PutProperties(base, e.client, bucket);
    PutKeepsOrder(base, e.client, bucket, a, b);
    MoveKeepsOrder(Put(base, e.client, bucket), e.client, a, b);
  }

  lemma {:induction false} PutKeepsOrder(t: Table, k: string, bucket: Bucket, a: string, b: string)
    requires ValidTable(t) && a != k && b != k
    ensures InFront(Put(t, k, bucket).order, a, b) <==> InFront(t.order, a, b)
  {
    hide InFront;
    if k !in t.at {
      AppendKeepsOrder(t.order, k, a, b);
    }
  }

  lemma {:induction false} MoveKeepsOrder(t: Table, k: string, a: string, b: string)
    requires ValidTable(t) && k in t.at && a != k && b != k
    ensures InFront(MoveToEnd(t, k).order, a, b) <==> InFront(t.order, a, b)
  {
    hide InFront, Select;
    var keep := t.at.Keys - {k};
    SelectKeepsOrder(t.order, keep, a, b);
    SelectProperties(t.order, keep);
    AppendKeepsOrder(Select(t.order, keep), k, a, b);
    FrontIsListed(t.order, a, b);
  }

  /** When a client was last granted a request or entered the table. */
  function Stamped(cfg: Config, t: Table, stamps: map<string, real>, e: Event): map<string, real> {
    if cfg.rps > 0.0 && (Grants(cfg, t, e) || e.client !in t.at) then stamps[e.client := e.now] else stamps
  }

  function Stamps(cfg: Config, t: Table, stamps: map<string, real>, evs: seq<Event>): map<string, real>
    decreases |evs|
  {
    if evs == [] then stamps else Stamps(cfg, Step(cfg, t, evs[0]), Stamped(cfg, t, stamps, evs[0]), evs[1..])
  }

  /** The queue is sorted by those times. */
  ghost predicate ByStamp(t: Table, stamps: map<string, real>, clock: real) {
    && (forall k :: k in t.at ==> k in stamps && stamps[k] <= clock)
    && (forall a, b :: InFront(t.order, a, b) ==> a in stamps && b in stamps && stamps[a] <= stamps[b])
  }

  lemma {:induction false} StepByStamp(cfg: Config, t: Table, stamps: map<string, real>, e: Event, clock: real)
    requires ValidTable(t) && ByStamp(t, stamps, clock) && clock <= e.now <= e.evictNow
    ensures ByStamp(Step(cfg, t, e), Stamped(cfg, t, stamps, e), e.evictNow)
  {
    hide Level, Base, Select, Step, Grants, InFront;
    if cfg.rps > 0.0 {
      var t', stamps' := Step(cfg, t, e), Stamped(cfg, t, stamps, e);
      StepProperties(cfg, t, e);
      BaseProperties(cfg, t, e);
      GrantMovesToBack(cfg, t, e);
      forall a, b | InFront(t'.order, a, b)
        ensures a in stamps' && b in stamps' && stamps'[a] <= stamps'[b]
      {
        FrontIsListed(t'.order, a, b);
        if a != e.client && b != e.client {
          OthersKeepOrder(cfg, t, e, a, b);
        } else if Grants(cfg, t, e) || e.client !in t.at {
          LastIsBehind(t'.order, a, b);
        }
      }
    } else {
      UnlimitedStep(cfg, t, e);
    }
  }

  /** Nobody stands behind the last one. */
  lemma {:induction false} LastIsBehind(order: seq<string>, a: string, b: string)
    requires Distinct(order) && InFront(order, a, b)
    ensures order != [] && a != order[|order| - 1] && a != b
  {
  }

  /** Over every run, the queue is sorted by the time of each client's last grant or entry. */
  lemma {:induction false} QueueByLastGrant(cfg: Config, t: Table, stamps: map<string, real>, evs: seq<Event>, clock: real, later: real)
    requires ValidTable(t) && ByStamp(t, stamps, clock) && Monotone(evs, clock) && clock <= later
    requires forall i :: 0 <= i < |evs| ==> evs[i].evictNow <= later
    ensures ValidTable(Run(cfg, t, evs)) && ByStamp(Run(cfg, t, evs), Stamps(cfg, t, stamps, evs), later)
    decreases |evs|
  {
    hide Step, Stamped, InFront;
    if evs != [] {
      StepByStamp(cfg, t, stamps, evs[0], clock);
      StepKeepsValid(cfg, t, evs[0]);
      QueueByLastGrant(cfg, Step(cfg, t, evs[0]), Stamped(cfg, t, stamps, evs[0]), evs[1..], evs[0].evictNow, later);
    }
  }

  lemma {:induction false} StepKeepsValid(cfg: Config, t: Table, e: Event)
    requires ValidTable(t)
    ensures ValidTable(Step(cfg, t, e))
  {
    hide Step, ValidTable;
    if cfg.rps > 0.0 {
      StepProperties(cfg, t, e);
    } else {
      UnlimitedStep(cfg, t, e);
    }
  }

  /** So in every run the popped client is the one whose last grant or entry is the earliest of those that stay. */
  lemma {:induction false} PoppedIsEarliest(cfg: Config, before: seq<Event>, e: Event, c: string, clock: real)
    requires cfg.rps > 0.0 && Monotone(before + [e], clock) && Popped(cfg, Run(cfg, EMPTY, before), e, c)
    ensures
      var t, stamps := Run(cfg, EMPTY, before), Stamps(cfg, EMPTY, map[], before);
      forall d :: d in Step(cfg, t, e).at && d != e.client ==> c in stamps && d in stamps && stamps[c] <= stamps[d]
  {
    hide Step, Level, Grants, Base, Popped, InFront, ValidTable, Stamps;
    var t, stamps := Run(cfg, EMPTY, before), Stamps(cfg, EMPTY, map[], before);
    MonotoneSplit(before, [e], clock);
    EmptyByStamp(clock);
    QueueByLastGrant(cfg, EMPTY, map[], before, clock, e.now);
    forall d | d in Step(cfg, t, e).at && d != e.client
      ensures c in stamps && d in stamps && stamps[c] <= stamps[d]
    {
      PoppedInFront(cfg, t, e, c, d);
    }
  }

  lemma {:induction false} EmptyByStamp(clock: real)
    ensures ValidTable(EMPTY) && ByStamp(EMPTY, map[], clock)
  {
  }

  lemma {:induction false} PoppedInFront(cfg: Config, t: Table, e: Event, c: string, d: string)
    requires cfg.rps > 0.0 && ValidTable(t) && Popped(cfg, t, e, c) && d in Step(cfg, t, e).at && d != e.client
    ensures InFront(t.order, c, d)
  {
    hide Step, Level, Grants, Select, Shrink;
    StepProperties(cfg, t, e);
    var gone := StaleKeys(t, e.evictNow);
    var kept := Remove(t, gone);
    RemoveProperties(t, gone);
    ShrinkKeepsNewest(kept, cfg.maxBuckets);
    ShrinkProperties(kept, cfg.maxBuckets);
    var left := Shrink(kept, cfg.maxBuckets);
    assert c in kept.order && c !in left.order && d in left.order;
    hide InFront;
    HeadInFrontOfTail(kept.order, |kept.order| - |left.order|, c, d);
    SelectKeepsOrder(t.order, t.at.Keys - gone, c, d);
  }

  lemma {:induction false} HeadInFrontOfTail(order: seq<string>, k: nat, c: string, d: string)
    requires k <= |order| && c in order && c !in order[k..] && d in order[k..]
    ensures InFront(order, c, d)
  {
    var i :| 0 <= i < |order| && order[i] == c;
    var j :| 0 <= j < |order[k..]| && order[k..][j] == d;
    assert order[k + j] == d;
  }

  // ---------------------------------------------------------------- what eviction leaves

  /** The clients behind `k` seen in the last 300 seconds. */
  ghost function FreshBehind(t: Table, now: real, k: string): set<string> {
    set d | d in t.at && now - t.at[d].last <= 300.0 && InFront(t.order, k, d)
  }

  /** Exactly who is left: the clients seen in the last 300 seconds with fewer than `max` such clients behind them. */
  lemma {:induction false} LeftAfterEviction(t: Table, now: real, max: nat, k: string)
    requires ValidTable(t)
    ensures k in EvictStale(t, now, max).at <==>
              k in t.at && now - t.at[k].last <= 300.0 && |FreshBehind(t, now, k)| < max
  {
    hide Select, Shrink, InFront;
    var gone := StaleKeys(t, now);
    var kept := Remove(t, gone);
    var left := Shrink(kept, max);
    RemoveProperties(t, gone);
    ShrinkProperties(kept, max);
    ShrinkKeepsNewest(kept, max);
    if k in kept.at {
      var i :| 0 <= i < |kept.order| && kept.order[i] == k;
      forall d
        ensures d in FreshBehind(t, now, k) <==> d in Members(kept.order[i + 1..])
      {
        SelectKeepsOrder(t.order, t.at.Keys - gone, k, d);
        BehindIsTail(kept.order, i, d);
        FrontIsListed(t.order, k, d);
      }
      assert FreshBehind(t, now, k) == Members(kept.order[i + 1..]);
      DistinctCardinality(kept.order[i + 1..]);
      assert k in left.order <==> i >= |kept.order| - max by { InSuffix(kept.order, |kept.order| - |left.order|, i); }
    }
  }

  ghost predicate Leaves(t: Table, now: real, max: nat, left: Table) {
    forall k :: k in left.at <==> k in t.at && now - t.at[k].last <= 300.0 && |FreshBehind(t, now, k)| < max
  }

  lemma {:induction false} WhoIsLeft(t: Table, now: real, max: nat)
    requires ValidTable(t)
    ensures Leaves(t, now, max, EvictStale(t, now, max))
  {
    hide EvictStale, FreshBehind;
    forall k
      ensures k in EvictStale(t, now, max).at <==>
                k in t.at && now - t.at[k].last <= 300.0 && |FreshBehind(t, now, k)| < max
    {
      LeftAfterEviction(t, now, max, k);
    }
  }

  lemma {:induction false} BehindIsTail(order: seq<string>, i: nat, d: string)
    requires Distinct(order) && i < |order|
    ensures InFront(order, order[i], d) <==> d in order[i + 1..]
  {
    if InFront(order, order[i], d) {
      var k, j :| 0 <= k < j < |order| && order[k] == order[i] && order[j] == d;
      assert order[i + 1..][j - i - 1] == d;
    }
    if d in order[i + 1..] {
      var j :| 0 <= j < |order[i + 1..]| && order[i + 1..][j] == d;
      assert order[i + 1 + j] == d;
    }
  }

  lemma {:induction false} InSuffix(order: seq<string>, k: nat, i: nat)
    requires Distinct(order) && k <= |order| && i < |order|
    ensures order[i] in order[k..] <==> i >= k
  {
    if i >= k {
      assert order[k..][i - k] == order[i];
    }
  }

  /** A grant puts the client at the back of the queue; a denial leaves a known client in its place. */
  lemma {:induction false} GrantMovesToBack(cfg: Config, t: Table, e: Event)
    requires cfg.rps > 0.0 && ValidTable(t)
    ensures
      var order := Step(cfg, t, e).order;
      if Grants(cfg, t, e) then order != [] && order[|order| - 1] == e.client
      else if e.client in t.at then order == t.order
      else order != [] && order[|order| - 1] == e.client
  {
    hide Select, Level, EvictStale, Refill;
    BaseProperties(cfg, t, e);
  }

  // ---------------------------------------------------------------- retry_after

  /** Whole seconds after the bucket's recorded time. */
  function RetryAfter(cfg: Config, t: Table, c: string): int {
    if cfg.rps <= 0.0 || c !in t.at || t.at[c].tokens >= 1.0 then 0
    else
      var wait := ((1.0 - t.at[c].tokens) / cfg.rps).Floor + 1;
      if wait < 1 then 1 else wait
  }

  lemma {:induction false} LevelWithoutGrants(cfg: Config, t: Table, polls: seq<Event>, c: string, clock: real, later: real)
    requires cfg.rps > 0.0 && Sound(cfg, t, clock) && Monotone(polls, clock) && GrantCount(cfg, t, polls, c) == 0
    requires clock <= later && forall i :: 0 <= i < |polls| ==> polls[i].evictNow <= later
    ensures Level(cfg, Run(cfg, t, polls), c, later) >= Level(cfg, t, c, later)
    decreases |polls|
  {
    hide Step, Level, Grants, Refill;
    if polls != [] {
      var e := polls[0];
      SoundStep(cfg, t, e, clock);
      if e.client == c {
        OwnLevel(cfg, t, e, clock, later);
      } else {
        OtherLevel(cfg, t, e, c, clock, later);
      }
      LevelWithoutGrants(cfg, Step(cfg, t, e), polls[1..], c, e.evictNow, later);
    }
  }

  lemma {:induction false} WaitIsEnough(tokens: real, rps: real, wait: int, elapsed: real)
    requires rps > 0.0 && tokens < 1.0 && elapsed >= wait as real
    requires wait >= ((1.0 - tokens) / rps).Floor + 1
    ensures tokens + Refill(elapsed, rps) >= 1.0
  {
    var need := (1.0 - tokens) / rps;
    assert need * rps == 1.0 - tokens;
    Product(elapsed - need, rps);
    assert elapsed * rps == need * rps + (elapsed - need) * rps;
  }

  lemma {:induction false} LessIsNotEnough(tokens: real, rps: real, elapsed: real)
    requires rps > 0.0 && tokens < 1.0 && elapsed < (1.0 - tokens) / rps
    ensures tokens + Refill(elapsed, rps) < 1.0
  {
    var need := (1.0 - tokens) / rps;
    assert need * rps == 1.0 - tokens;
    assert (need - elapsed) * rps > 0.0;
    assert elapsed * rps == need * rps - (need - elapsed) * rps;
  }

  lemma {:induction false} MinRealAtLeast(x: real, y: real, z: real)
    ensures x >= z && y >= z ==> MinReal(x, y) >= z
  {
  }

  lemma {:induction false} RetryAfterValue(cfg: Config, t: Table, c: string)
    requires cfg.rps > 0.0 && c in t.at
    ensures t.at[c].tokens >= 1.0 ==> RetryAfter(cfg, t, c) == 0
    ensures t.at[c].tokens < 1.0 ==> RetryAfter(cfg, t, c) >= ((1.0 - t.at[c].tokens) / cfg.rps).Floor + 1
  {
  }

  lemma {:induction false} LevelAfterWait(cfg: Config, t: Table, c: string, clock: real, now: real)
    requires cfg.rps > 0.0 && cfg.burst >= 1 && Sound(cfg, t, clock) && clock <= now
    requires c in t.at ==> now >= t.at[c].last + RetryAfter(cfg, t, c) as real
    ensures Level(cfg, t, c, now) >= 1.0
  {
    hide RetryAfter, Level, MinReal, Refill;
    if c !in t.at {
      AbsentLevel(cfg, t, c, now);
    } else {
      var b := t.at[c];
      RetryAfterValue(cfg, t, c);
      var refill := Refill(now - b.last, cfg.rps);
      LevelAfter(cfg, t, c, now, refill);
      if b.tokens >= 1.0 {
        Product(now - b.last, cfg.rps);
        assert refill >= 0.0;
      } else {
        WaitIsEnough(b.tokens, cfg.rps, RetryAfter(cfg, t, c), now - b.last);
      }
      assert b.tokens + refill >= 1.0;
      MinRealAtLeast(cfg.burst as real, b.tokens + refill, 1.0);
    }
  }

  /** A client that waits as told is granted its request, whatever denied polls and requests of other
      clients came in between. */
  lemma {:induction false} RetryAfterSuffices(cfg: Config, t: Table, polls: seq<Event>, e: Event, clock: real)
    requires cfg.rps > 0.0 && cfg.burst >= 1 && Sound(cfg, t, clock) && Monotone(polls + [e], clock)
    requires GrantCount(cfg, t, polls, e.client) == 0
    requires e.client in t.at ==> e.now >= t.at[e.client].last + RetryAfter(cfg, t, e.client) as real
    ensures Grants(cfg, Run(cfg, t, polls), e)
  {
    hide Step, Grants, Level, RetryAfter, Refill;
    MonotoneSplit(polls, [e], clock);
    LevelWithoutGrants(cfg, t, polls, e.client, clock, e.now);
    LevelAfterWait(cfg, t, e.client, clock, e.now);
    GrantsIffLevel(cfg, Run(cfg, t, polls), e);
  }

  /** It is at most a second too long: a request more than a second before it is denied. */
  lemma {:induction false} RetryAfterIsTight(cfg: Config, t: Table, e: Event)
    requires cfg.rps > 0.0 && e.client in t.at && t.at[e.client].tokens < 1.0
    requires t.at[e.client].last <= e.now < t.at[e.client].last + (RetryAfter(cfg, t, e.client) - 1) as real
    ensures !Grants(cfg, t, e)
  {
    var b := t.at[e.client];
    LessIsNotEnough(b.tokens, cfg.rps, e.now - b.last);
  }

  // ---------------------------------------------------------------- the object

  /** A token is there, or has been refilled, or the client is new. */
  ghost predicate TokensDecide(rps: real, burst: int, before: Table, client: string, now: real, granted: bool) {
    granted <==>
      || rps <= 0.0
      || (burst >= 1 && (client in before.at ==>
            before.at[client].tokens + (now - before.at[client].last) * rps >= 1.0))
  }

  /** The client's tokens after the request: refilled up to the burst, less one if granted. */
  ghost predicate TokensLeft(rps: real, burst: int, before: Table, client: string, now: real, granted: bool, after: Table) {
    && client in after.at && after.at[client].last == now
    && after.at[client].tokens + (if granted then 1.0 else 0.0) ==
         if client !in before.at then burst as real
         else if before.at[client].tokens + (now - before.at[client].last) * rps <= burst as real
         then before.at[client].tokens + (now - before.at[client].last) * rps
         else burst as real
  }

  lemma {:induction false} StepByTokens(cfg: Config, t: Table, e: Event)
    requires ValidTable(t)
    ensures TokensDecide(cfg.rps, cfg.burst, t, e.client, e.now, Grants(cfg, t, e))
    ensures cfg.rps > 0.0 ==>
              TokensLeft(cfg.rps, cfg.burst, t, e.client, e.now, Grants(cfg, t, e), Step(cfg, t, e))
  {
    hide Step, Refill, ValidTable;
    if e.client in t.at {
      RefillIsProduct(cfg.rps, e.now - t.at[e.client].last);
    }
    if cfg.rps > 0.0 {
      StepProperties(cfg, t, e);
    }
  }

  /** The step in the order in which the program computes it. */
  lemma {:induction false} CheckIsStep(cfg: Config, t: Table, e: Event, base: Table, tokens: real)
    requires cfg.rps > 0.0 && cfg.evicts
    requires base == if e.client in t.at then t else EvictStale(t, e.evictNow, cfg.maxBuckets)
    requires tokens == if e.client in t.at
                       then MinReal(cfg.burst as real, t.at[e.client].tokens + Refill(e.now - t.at[e.client].last, cfg.rps))
                       else cfg.burst as real
    ensures Grants(cfg, t, e) <==> tokens >= 1.0
    ensures Step(cfg, t, e) ==
              if tokens < 1.0 then Put(base, e.client, Bucket(e.now, tokens))
              else MoveToEnd(Put(base, e.client, Bucket(e.now, tokens - 1.0)), e.client)
  {
    hide Put, MoveToEnd, EvictStale, Refill;
  }

  class Limiter {
    const rps: real
    const burst: int
    const maxBuckets: nat
    var buckets: Table

    ghost predicate Valid()
      reads this
    {
      ValidTable(buckets) && |buckets.order| <= maxBuckets + 1
    }

    function Settings(): Config {
      Config(rps, burst, maxBuckets, true)
    }

    constructor (rps: real, burst: int, maxBuckets: nat)
      ensures Valid() && buckets == EMPTY
      ensures this.rps == rps && this.maxBuckets == maxBuckets
      ensures rps > 0.0 && burst == 0 ==> this.burst as real <= 2.0 * rps < this.burst as real + 1.0
      ensures rps <= 0.0 || burst != 0 ==> this.burst == burst
    {
      this.rps, this.maxBuckets, this.buckets := rps, maxBuckets, EMPTY;
      this.burst := EffectiveBurst(rps, burst);
    }

    /** Deletes the stale buckets one by one, then pops the oldest until the cap holds. */
    method Evict(now: real)
      requires ValidTable(buckets)
      modifies this`buckets
      ensures buckets == EvictStale(old(buckets), now, maxBuckets)
      ensures Leaves(old(buckets), now, maxBuckets, buckets)
    {
      hide FreshBehind, Select, Leaves;
      WhoIsLeft(buckets, now, maxBuckets);
      var stale := StaleKeys(buckets, now);
      var rest := stale;
      RemoveNothing(buckets);
      assert stale - rest == {};
      while rest != {}
        invariant rest <= stale && buckets == Remove(old(buckets), stale - rest)
        decreases rest
      {
        var k :| k in rest;
        RemoveOneMore(old(buckets), stale - rest, k);
        buckets := Remove(buckets, {k});
        assert stale - (rest - {k}) == (stale - rest) + {k};
        rest := rest - {k};
      }
      assert stale - {} == stale;
      ghost var unshrunk := buckets;
      while |buckets.order| > maxBuckets
        invariant Shrink(buckets, maxBuckets) == Shrink(unshrunk, maxBuckets)
        decreases |buckets.order|
      {
        buckets := PopFront(buckets);
      }
    }

    method Check(client: string, now: real, evictNow: real) returns (granted: bool)
      requires Valid()
      modifies this`buckets
      ensures Valid()
      ensures buckets == Step(Settings(), old(buckets), Event(client, now, evictNow))
      ensures granted == Grants(Settings(), old(buckets), Event(client, now, evictNow))
      ensures TokensDecide(rps, burst, old(buckets), client, now, granted)
      ensures rps > 0.0 ==> TokensLeft(rps, burst, old(buckets), client, now, granted, buckets)
    {
      if rps <= 0.0 {
        return true;
      }
      StepByTokens(Settings(), buckets, Event(client, now, evictNow));
      hide Shrink, Select, EvictStale, StaleKeys, InFront, Refill, ValidTable, FreshBehind, Leaves, TokensDecide, TokensLeft, Step,
        Grants, Level, Base, Put, MoveToEnd;
      ghost var e := Event(client, now, evictNow);
      ghost var before := buckets;
      StepKeepsTable(Settings(), buckets, e);
      var tokens: real;
      if client in buckets.at {
        var b := buckets.at[client];
        tokens := MinReal(burst as real, b.tokens + Refill(now - b.last, rps));
      } else {
        Evict(evictNow);
        tokens := burst as real;
      }
      CheckIsStep(Settings(), before, e, buckets, tokens);
      if tokens < 1.0 {
        buckets := Put(buckets, client, Bucket(now, tokens));
        return false;
      }
      buckets := Put(buckets, client, Bucket(now, tokens - 1.0));
      buckets := MoveToEnd(buckets, client);
      return true;
    }

    method RetryAfterSeconds(client: string) returns (seconds: int)
      requires Valid()
      ensures seconds == RetryAfter(Settings(), buckets, client)
    {
      if rps <= 0.0 || client !in buckets.at {
        return 0;
      }
      var tokens := buckets.at[client].tokens;
      if tokens >= 1.0 {
        return 0;
      }
      var deficit := 1.0 - tokens;
      var wait := (deficit / rps).Floor + 1;
      return if wait < 1 then 1 else wait;
    }
  }

  lemma {:induction false} RemoveNothing(t: Table)
    requires ValidTable(t)
    ensures Remove(t, {}) == t
  {
    SelectProperties(t.order, t.at.Keys - {});
    assert t.at - {} == t.at;
  }

  lemma {:induction false} RemoveOneMore(t: Table, gone: set<string>, k: string)
    requires ValidTable(t)
    ensures Remove(Remove(t, gone), {k}) == Remove(t, gone + {k})
  {
    var u := Remove(t, gone);
    assert u.at - {k} == t.at - (gone + {k});
    assert u.at.Keys - {k} == t.at.Keys - (gone + {k});
    SelectTwice(t.order, t.at.Keys - gone, t.at.Keys - (gone + {k}));
  }

  lemma {:induction false} SelectTwice(order: seq<string>, keep: set<string>, keep': set<string>)
    requires keep' <= keep
    ensures Select(Select(order, keep), keep') == Select(order, keep')
    decreases |order|
  {
    if order != [] {
      SelectTwice(order[1..], keep, keep');
      if order[0] in keep {
        assert Select(order, keep) == [order[0]] + Select(order[1..], keep);
        assert Select(order, keep)[1..] == Select(order[1..], keep);
      } else {
        assert Select(order, keep) == Select(order[1..], keep);
        assert Select(order, keep') == Select(order[1..], keep');
      }
    }
  }
}
