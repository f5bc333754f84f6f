/** The firewall's verdict cache: expiring entries, a capacity, and eviction of the entry that expires
    first. Under one time-to-live it behaves as a cache of the most recently stored keys. */
module VerdictCache {
  import opened Common

  datatype Key = Key(ecosystem: string, name: string, version: string)

  datatype Entry<V> = Entry(expiresAt: real, verdict: V)

  /** One `put`: when, and what. */
  datatype Stored<V> = Stored(at: real, verdict: V)

  /** The history that matters: the last `put` of every key since the last `clear`. */
  type History<V> = map<Key, Stored<V>>

  // ---------------------------------------------------------------- recency

  /** Keys stored more recently than `k`. */
  function Newer<V>(h: History<V>, k: Key): set<Key>
    requires k in h
  {
    set j | j in h && h[j].at > h[k].at
  }

  /** The `n` most recently stored distinct keys. */
  function Recent<V>(h: History<V>, n: nat): set<Key> {
    set k | k in h && |Newer(h, k)| < n
  }

  predicate Live<V>(h: History<V>, k: Key, ttl: real, now: real) {
    k in h && now <= h[k].at + ttl
  }

  function Size<V>(store: map<Key, Entry<V>>): nat {
    |store.Keys|
  }

  lemma {:induction false} SizeWithout<V>(store: map<Key, Entry<V>>, k: Key)
    requires k in store
    ensures Size(store - {k}) + 1 == Size(store)
  {
    assert (store - {k}).Keys == store.Keys - {k};
  }

  lemma {:induction false} SizeWith<V>(store: map<Key, Entry<V>>, k: Key, e: Entry<V>)
    ensures Size(store[k := e]) == Size(store) + if k in store then 0 else 1
  {
    assert store[k := e].Keys == store.Keys + {k};
    if k in store {
      assert store.Keys + {k} == store.Keys;
    }
  }

  lemma {:induction false} SizeOfPart<V>(part: map<Key, Entry<V>>, store: map<Key, Entry<V>>)
    requires part.Keys <= store.Keys
    ensures Size(part) <= Size(store)
  {
    SubsetCardinality(part.Keys, store.Keys);
  }

  lemma {:induction false} SubsetCardinality<T>(s: set<T>, t: set<T>)
    requires s <= t
    ensures |s| <= |t|
    ensures |s| == |t| ==> s == t
  {
    assert t == s + (t - s);
    assert |t| == |s| + |t - s|;
  }

  lemma {:induction false} NewerIsRecent<V>(h: History<V>, n: nat, k: Key, j: Key)
    requires k in Recent(h, n) && j in Newer(h, k)
    ensures j in Recent(h, n)
  {
    SubsetCardinality(Newer(h, j), Newer(h, k));
  }

  lemma {:induction false} NewerAfterPut<V>(h: History<V>, k: Key, s: Stored<V>, j: Key)
    requires j in h && j != k && forall i :: i in h ==> h[i].at < s.at
    ensures Newer(h[k := s], j) == Newer(h, j) + {k}
    ensures |Newer(h[k := s], j)| == |Newer(h, j)| + if k in Newer(h, j) then 0 else 1
  {
    assert Newer(h[k := s], j) == Newer(h, j) + {k};
    if k in Newer(h, j) {
      assert Newer(h, j) + {k} == Newer(h, j);
    }
  }

  lemma {:induction false} NewestHasNoNewer<V>(h: History<V>, k: Key, s: Stored<V>)
    requires forall i :: i in h ==> h[i].at < s.at
    ensures Newer(h[k := s], k) == {}
  {
  }

  /** Distinct keys have distinct times, so at most `n` of them are among the `n` most recent. */
  ghost predicate DistinctTimes<V>(h: History<V>) {
    forall i, j :: i in h && j in h && i != j ==> h[i].at != h[j].at
  }

  // ---------------------------------------------------------------- states and steps

  datatype State<V> = State(store: map<Key, Entry<V>>, history: History<V>)

  /** Every `put` had its own instant, none later than now. */
  ghost predicate Clocked<V>(h: History<V>, now: real) {
    DistinctTimes(h) && forall k :: k in h ==> h[k].at <= now
  }

  /** Every `put` so far was earlier. */
  ghost predicate Fresh<V>(h: History<V>, t: real) {
    forall k :: k in h ==> h[k].at < t
  }

  /** Stored entries come from the last `put` of their key. */
  ghost predicate FromHistory<V>(s: State<V>, ttl: real) {
    forall k :: k in s.store ==> k in s.history && s.store[k] == Entry(s.history[k].at + ttl, s.history[k].verdict)
  }

  /** An unexpired key is stored exactly when it is one of the `max` most recent ones. */
  ghost predicate StoresRecent<V>(s: State<V>, ttl: real, max: nat, now: real) {
    forall k {:trigger k in s.store} {:trigger k in Recent(s.history, max)} ::
      k in s.history && Live(s.history, k, ttl, now) ==> (k in s.store <==> k in Recent(s.history, max))
  }

  /** What holds after every operation when all entries share one time-to-live. */
  ghost predicate Consistent<V>(s: State<V>, ttl: real, max: nat, now: real) {
    Clocked(s.history, now) && FromHistory(s, ttl) && StoresRecent(s, ttl, max, now) && Size(s.store) <= max
  }

  ghost predicate FirstToExpire<V>(store: map<Key, Entry<V>>, k: Key) {
    k in store && forall j :: j in store ==> store[k].expiresAt <= store[j].expiresAt
  }

  /** The store before the new entry is written: one entry makes room when needed. */
  ghost predicate MakesRoom<V>(store: map<Key, Entry<V>>, k: Key, max: nat, room: map<Key, Entry<V>>) {
    if k in store || Size(store) < max then room == store
    else exists o :: FirstToExpire(store, o) && room == store - {o}
  }

  ghost predicate PutStep<V(!new)>(s: State<V>, k: Key, v: V, now: real, ttl: real, max: nat, s': State<V>) {
    && s'.history == s.history[k := Stored(now, v)]
    && exists room :: MakesRoom(s.store, k, max, room) && s'.store == room[k := Entry(now + ttl, v)]
  }

  lemma {:induction false} RoomSize<V>(store: map<Key, Entry<V>>, k: Key, max: nat, room: map<Key, Entry<V>>)
    requires MakesRoom(store, k, max, room) && Size(store) <= max && max >= 1
    ensures Size(room) + (if k in room then 0 else 1) <= max
    ensures room.Keys <= store.Keys && forall j :: j in room ==> room[j] == store[j]
  {
    hide FirstToExpire, Size;
    if k !in store && Size(store) >= max {
      var o :| FirstToExpire(store, o) && room == store - {o};
      assert o in store by { FirstIsStored(store, o); }
      SizeWithout(store, o);
    }
  }

  lemma {:induction false} FirstIsStored<V>(store: map<Key, Entry<V>>, o: Key)
    requires FirstToExpire(store, o)
    ensures o in store
  {
  }

  /** The keys newer than an unexpired recent key are all in the store. */
  lemma {:induction false} NewerAreStored<V(!new)>(s: State<V>, ttl: real, max: nat, now: real, t: real, j: Key)
    requires Consistent(s, ttl, max, now) && now <= t
    requires j in s.history && Live(s.history, j, ttl, t) && j in Recent(s.history, max)
    ensures Newer(s.history, j) <= s.store.Keys && j in s.store
  {
    forall i | i in Newer(s.history, j)
      ensures i in s.store
    {
      NewerIsRecent(s.history, max, j, i);
    }
  }

  /** An evicted unexpired key was the oldest of a store full of newer ones. */
  lemma {:induction false} EvictedIsOldest<V(!new)>(s: State<V>, ttl: real, max: nat, now: real, t: real, j: Key)
    requires Consistent(s, ttl, max, now) && now <= t && FirstToExpire(s.store, j)
    requires Live(s.history, j, ttl, t)
    ensures s.store.Keys == Newer(s.history, j) + {j} && j in Recent(s.history, max)
    ensures Size(s.store) == |Newer(s.history, j)| + 1
  {
    NewerAreStored(s, ttl, max, now, t, j);
    hide Recent, StoresRecent;
    assert s.store.Keys == Newer(s.history, j) + {j};
    NewerExcludes(s.history, j);
  }

  /** A stored key goes exactly when the newer keys fill the capacity without `k`. */
  lemma {:induction false} StoredKeyAfterPut<V(!new)>(s: State<V>, k: Key, now: real, t: real, ttl: real, max: nat,
                                   room: map<Key, Entry<V>>, j: Key)
    requires Consistent(s, ttl, max, now) && now <= t && max >= 1 && MakesRoom(s.store, k, max, room)
    requires j in s.store && j in s.history && j != k && Live(s.history, j, ttl, t)
    ensures j in room <==> k in Newer(s.history, j) || |Newer(s.history, j)| < max - 1
  {
    hide Newer, Consistent, Live, FirstToExpire, Size;
    var newer := Newer(s.history, j);
    StoredAndLive(s, ttl, max, now, t, j);
    if j !in room {
      var o :| FirstToExpire(s.store, o) && room == s.store - {o};
      EvictedIsOldest(s, ttl, max, now, t, j);
    } else if k !in newer && |newer| >= max - 1 {
      FullOfNewer(s, ttl, max, now, j);
    }
  }

  /** When the newer keys are stored and fill the capacity, they and `j` are the store, and `j` expires first. */
  lemma {:induction false} FullOfNewer<V(!new)>(s: State<V>, ttl: real, max: nat, now: real, j: Key)
    requires Consistent(s, ttl, max, now) && j in s.store && j in s.history
    requires Newer(s.history, j) <= s.store.Keys && |Newer(s.history, j)| >= max - 1
    ensures s.store.Keys == Newer(s.history, j) + {j} && Size(s.store) == max
    ensures forall o :: FirstToExpire(s.store, o) ==> o == j
  {
    hide Newer, FirstToExpire, Clocked, StoresRecent, FromHistory;
    var newer := Newer(s.history, j);
    NewerExcludes(s.history, j);
    SubsetCardinality(newer + {j}, s.store.Keys);
    hide Consistent;
    OldestIsTheOnlyOne(s, ttl, max, now, j);
  }

  lemma {:induction false} StoredAndLive<V(!new)>(s: State<V>, ttl: real, max: nat, now: real, t: real, j: Key)
    requires Consistent(s, ttl, max, now) && now <= t && j in s.store
    requires j in s.history && Live(s.history, j, ttl, t)
    ensures j in Recent(s.history, max) && Newer(s.history, j) <= s.store.Keys
    ensures Size(s.store) <= max && |Newer(s.history, j)| < max
  {
    hide Newer;
    assert Live(s.history, j, ttl, now);
    NewerAreStored(s, ttl, max, now, t, j);
  }

  /** The heart of the matter: one other key `j` across a `put` of `k`. */
  lemma {:induction false} OtherKeyAfterPut<V(!new)>(s: State<V>, k: Key, v: V, now: real, t: real, ttl: real, max: nat,
                                  room: map<Key, Entry<V>>, j: Key)
    requires Consistent(s, ttl, max, now) && now <= t && Fresh(s.history, t) && max >= 1 && MakesRoom(s.store, k, max, room)
    requires j in s.history && j != k && Live(s.history, j, ttl, t)
    ensures j in room <==> j in Recent(s.history[k := Stored(t, v)], max)
  {
    hide Newer, MakesRoom;
    var h := s.history;
    assert Live(h, j, ttl, now);
    NewerAfterPut(h, k, Stored(t, v), j);
    RoomSize(s.store, k, max, room);
    if j in s.store {
      StoredAndLive(s, ttl, max, now, t, j);
      StoredKeyAfterPut(s, k, now, t, ttl, max, room, j);
    }
  }

  lemma {:induction false} OldestIsTheOnlyOne<V(!new)>(s: State<V>, ttl: real, max: nat, now: real, j: Key)
    requires Consistent(s, ttl, max, now) && j in s.history && s.store.Keys == Newer(s.history, j) + {j}
    ensures forall o :: FirstToExpire(s.store, o) ==> o == j
    ensures FirstToExpire(s.store, j)
  {
    hide Recent, StoresRecent, Size;
    forall o | FirstToExpire(s.store, o)
      ensures o == j
    {
      assert j in s.store;
    }
  }

  /** `put` with the shared time-to-live keeps the store and the recent keys together. */
  lemma {:induction false} PutKeepsConsistent<V(!new)>(s: State<V>, k: Key, v: V, now: real, t: real, ttl: real, max: nat, s': State<V>)
    requires Consistent(s, ttl, max, now) && now <= t && Fresh(s.history, t) && max >= 1 && PutStep(s, k, v, t, ttl, max, s')
    ensures Consistent(s', ttl, max, t)
  {
    hide Newer, Recent, MakesRoom, Clocked, StoresRecent, FromHistory, Size, Fresh;
    var room :| MakesRoom(s.store, k, max, room) && s'.store == room[k := Entry(t + ttl, v)];
    RoomSize(s.store, k, max, room);
    SizeWith(room, k, Entry(t + ttl, v));
    ClockedPut(s.history, k, Stored(t, v), now);
    FromHistoryPut(s, k, v, t, ttl, room);
    StoresRecentPut(s, k, v, now, t, ttl, max, room);
  }

  lemma {:induction false} FromHistoryPut<V>(s: State<V>, k: Key, v: V, t: real, ttl: real, room: map<Key, Entry<V>>)
    requires FromHistory(s, ttl) && room.Keys <= s.store.Keys && forall j :: j in room ==> room[j] == s.store[j]
    ensures FromHistory(State(room[k := Entry(t + ttl, v)], s.history[k := Stored(t, v)]), ttl)
  {
  }

  lemma {:induction false} ClockedPut<V>(h: History<V>, k: Key, s: Stored<V>, now: real)
    requires Clocked(h, now) && Fresh(h, s.at)
    ensures Clocked(h[k := s], s.at)
  {
  }

  lemma {:induction false} StoresRecentPut<V(!new)>(s: State<V>, k: Key, v: V, now: real, t: real, ttl: real, max: nat,
                                 room: map<Key, Entry<V>>)
    requires Consistent(s, ttl, max, now) && now <= t && Fresh(s.history, t) && max >= 1 && MakesRoom(s.store, k, max, room)
    ensures StoresRecent(State(room[k := Entry(t + ttl, v)], s.history[k := Stored(t, v)]), ttl, max, t)
  {
    hide Newer, Recent, MakesRoom, Consistent;
    var s' := State(room[k := Entry(t + ttl, v)], s.history[k := Stored(t, v)]);
    assert k in Recent(s'.history, max) by { NewestIsRecent(s.history, k, Stored(t, v), max); }
    forall j | j in s'.history && Live(s'.history, j, ttl, t)
      ensures j in s'.store <==> j in Recent(s'.history, max)
    {
      if j != k {
        OtherKeyAfterPut(s, k, v, now, t, ttl, max, room, j);
      }
    }
  }

  lemma {:induction false} NewestIsRecent<V>(h: History<V>, k: Key, s: Stored<V>, max: nat)
    requires max >= 1 && forall i :: i in h ==> h[i].at < s.at
    ensures k in Recent(h[k := s], max)
  {
    NewestHasNoNewer(h, k, s);
  }

  /** Dropping expired entries keeps it too. */
  lemma {:induction false} DropKeepsConsistent<V(!new)>(s: State<V>, gone: set<Key>, now: real, t: real, ttl: real, max: nat)
    requires Consistent(s, ttl, max, now) && now <= t
    requires forall k :: k in gone && k in s.store ==> t > s.store[k].expiresAt
    ensures Consistent(s.(store := s.store - gone), ttl, max, t)
  {
    hide Newer, Recent, DistinctTimes, Size;
    SizeOfPart(s.store - gone, s.store);
  }

  // ---------------------------------------------------------------- does the store hold only recent keys?

  /** Expired entries included. */
  ghost predicate HoldsOnlyRecent<V>(s: State<V>, max: nat) {
    s.store.Keys <= Recent(s.history, max)
  }

  lemma {:induction false} OlderIsNotRecent<V>(h: History<V>, max: nat, j: Key, i: Key)
    requires DistinctTimes(h) && j in h && i in h && i != j && i !in Newer(h, j) && |Newer(h, j)| >= max - 1
    ensures i !in Recent(h, max)
  {
    SubsetCardinality(Newer(h, j) + {j}, Newer(h, i));
  }

  /** The oldest of a full set of recent keys is stored, and there is room for a key that is not recent. */
  ghost predicate Displaces<V>(s: State<V>, k: Key, max: nat) {
    Size(s.store) < max && k !in Recent(s.history, max)
    && exists j :: j in s.store && j in s.history && |Newer(s.history, j)| == max - 1
  }

  lemma {:induction false} RecentAfterPut<V>(h: History<V>, k: Key, s: Stored<V>, max: nat, j: Key)
    requires j in Recent(h, max) && j != k && forall i :: i in h ==> h[i].at < s.at
    ensures j in Recent(h[k := s], max) <==> !(|Newer(h, j)| == max - 1 && k !in Newer(h, j))
  {
    NewerAfterPut(h, k, s, j);
  }

  /** An expired entry outlives newer keys exactly when a `put` of a key that is not recent finds room,
      while the oldest of the recent keys is still stored: then that oldest key stays but is recent no more. */
  lemma {:induction false} PutKeepsOnlyRecentIff<V(!new)>(s: State<V>, k: Key, v: V, now: real, t: real, ttl: real,
                                                          max: nat, s': State<V>)
    requires Consistent(s, ttl, max, now) && now <= t && Fresh(s.history, t) && max >= 1 && PutStep(s, k, v, t, ttl, max, s')
    requires HoldsOnlyRecent(s, max)
    ensures HoldsOnlyRecent(s', max) <==> !Displaces(s, k, max)
  {
    hide Newer, Recent, Consistent, MakesRoom;
    var h := s.history;
    var room :| MakesRoom(s.store, k, max, room) && s'.store == room[k := Entry(t + ttl, v)];
    assert Size(s.store) <= max by { ConsistentSize(s, ttl, max, now); }
    RoomSize(s.store, k, max, room);
    NewestIsRecent(h, k, Stored(t, v), max);
    if j :| j in s'.store && j !in Recent(s'.history, max) {
      RecentAfterPut(h, k, Stored(t, v), max, j);
      assert j in h by { RecentIsKnown(h, max, j); }
      DisplacedOnlyByRoom(s, k, now, ttl, max, room, j);
    }
    if Displaces(s, k, max) {
      var j :| j in s.store && j in h && |Newer(h, j)| == max - 1;
      if k in Newer(h, j) {
        NewerIsRecent(h, max, j, k);
      }
      NoRoomNeeded(s.store, k, max, room);
      RecentAfterPut(h, k, Stored(t, v), max, j);
      assert j in s'.store;
    }
  }

  lemma {:induction false} ConsistentSize<V>(s: State<V>, ttl: real, max: nat, now: real)
    requires Consistent(s, ttl, max, now)
    ensures Size(s.store) <= max
  {
  }

  lemma {:induction false} RecentIsKnown<V>(h: History<V>, max: nat, j: Key)
    requires j in Recent(h, max)
    ensures j in h
  {
  }

  lemma {:induction false} NoRoomNeeded<V>(store: map<Key, Entry<V>>, k: Key, max: nat, room: map<Key, Entry<V>>)
    requires MakesRoom(store, k, max, room) && Size(store) < max
    ensures room == store
  {
  }

  lemma {:induction false} DisplacedOnlyByRoom<V(!new)>(s: State<V>, k: Key, now: real, ttl: real, max: nat, room: map<Key, Entry<V>>, j: Key)
    requires Consistent(s, ttl, max, now) && max >= 1 && HoldsOnlyRecent(s, max) && MakesRoom(s.store, k, max, room)
    requires j in room && j in s.store && j in s.history && j != k
    requires |Newer(s.history, j)| == max - 1 && k !in Newer(s.history, j)
    ensures Size(s.store) < max && k !in Recent(s.history, max)
  {
    hide Newer, StoresRecent;
    var h := s.history;
    if k in h {
      OlderIsNotRecent(h, max, j, k);
    }
    if Size(s.store) >= max {
      forall i | i in s.store && i != j
        ensures i in Newer(h, j)
      {
        if i !in Newer(h, j) {
          OlderIsNotRecent(h, max, j, i);
        }
      }
      assert s.store.Keys <= Newer(h, j) + {j};
      NewerExcludes(h, j);
      SubsetCardinality(s.store.Keys, Newer(h, j) + {j});
      OldestIsTheOnlyOne(s, ttl, max, now, j);
    }
  }

  lemma {:induction false} NewerExcludes<V>(h: History<V>, j: Key)
    requires j in h
    ensures j !in Newer(h, j) && |Newer(h, j) + {j}| == |Newer(h, j)| + 1
  {
  }

  lemma {:induction false} RemoveNone<V>(store: map<Key, Entry<V>>)
    ensures store - {} == store
  {
  }

  lemma {:induction false} RemoveOneMore<V>(store: map<Key, Entry<V>>, gone: set<Key>, k: Key)
    requires k in store && k !in gone
    ensures store - gone - {k} == store - (gone + {k})
    ensures Size(store - gone - {k}) + 1 == Size(store - gone)
  {
    SizeWithout(store - gone, k);
  }

  /** A lookup sees an entry exactly when the key is recent and unexpired, and then its last verdict. */
  lemma {:induction false} LookupAgrees<V>(s: State<V>, ttl: real, max: nat, now: real, k: Key)
    requires Consistent(s, ttl, max, now)
    ensures k in s.store && now <= s.store[k].expiresAt <==>
              k in Recent(s.history, max) && Live(s.history, k, ttl, now)
    ensures k in s.store ==> k in s.history && s.store[k].verdict == s.history[k].verdict
  {
  }

  /** What a lookup at a later time leaves behind, and what it sees. */
  lemma {:induction false} LookupAfter<V(!new)>(s: State<V>, now: real, t: real, ttl: real, max: nat, k: Key)
    requires Consistent(s, ttl, max, now) && now <= t
    ensures Consistent(s, ttl, max, t)
    ensures k in s.store && t > s.store[k].expiresAt ==> Consistent(State(s.store - {k}, s.history), ttl, max, t)
    ensures k in s.store && t <= s.store[k].expiresAt <==>
              k in Recent(s.history, max) && Live(s.history, k, ttl, t)
    ensures k in s.store ==> k in s.history && s.store[k].verdict == s.history[k].verdict
  {
    hide Recent, Live, Consistent;
    DropKeepsConsistent(s, {}, now, t, ttl, max);
    RemoveNone(s.store);
    LookupAgrees(s, ttl, max, t, k);
    if k in s.store && t > s.store[k].expiresAt {
      DropKeepsConsistent(s, {k}, now, t, ttl, max);
    }
  }

  lemma {:induction false} PurgedStore<V(!new)>(s: State<V>, now: real, t: real, ttl: real, max: nat)
    requires Consistent(s, ttl, max, now) && now <= t
    ensures
      var left := s.store - set k | k in s.store && t > s.store[k].expiresAt;
      && Consistent(State(left, s.history), ttl, max, t)
      && left.Keys == set k | k in Recent(s.history, max) && Live(s.history, k, ttl, t)
  {
    hide Recent, Live, Consistent;
    var gone := set k | k in s.store && t > s.store[k].expiresAt;
    DropKeepsConsistent(s, gone, now, t, ttl, max);
    var left := s.store - gone;
    forall k ensures k in left <==> k in Recent(s.history, max) && Live(s.history, k, ttl, t) {
      LookupAgrees(State(left, s.history), ttl, max, t, k);
    }
  }

  lemma {:induction false} PutCounts<V(!new)>(s: State<V>, k: Key, v: V, now: real, life: real, max: nat, room: map<Key, Entry<V>>)
    requires MakesRoom(s.store, k, max, room) && Size(s.store) <= max && max >= 1
    ensures
      var next := room[k := Entry(now + life, v)];
      && Size(next) == Size(room) + (if k in room then 0 else 1)
      && Size(next) <= max
      && PutStep(s, k, v, now, life, max, State(next, s.history[k := Stored(now, v)]))
  {
    hide MakesRoom, Size;
    RoomSize(s.store, k, max, room);
    SizeWith(room, k, Entry(now + life, v));
  }

  // ---------------------------------------------------------------- the object

  datatype CacheStats = CacheStats(hits: nat, misses: nat, evictions: nat, size: nat)

  class VerdictCache<V(!new)> {
    const ttl: real
    const maxEntries: nat
    var store: map<Key, Entry<V>>
    var hits: nat
    var misses: nat
    var evictions: nat

    /** Since the last `clear`: the last `put` of every key, whether each used the default time-to-live at a later
        clock reading than those before it, and how many gets and newly inserted entries there were. */
    ghost var history: History<V>
    ghost var uniform: bool
    ghost var gets: nat
    ghost var inserts: nat
    ghost var clock: real

    ghost predicate Valid()
      reads this
    {
      && maxEntries >= 1 && Size(store) <= maxEntries
      && hits + misses == gets
      && inserts == Size(store) + evictions
      && (uniform ==> Consistent(State(store, history), ttl, maxEntries, clock))
    }

    /** The verdict a cache of the most recent keys would give. */
    ghost function Expected(k: Key, now: real): Option<V>
      reads this
    {
      if k in Recent(history, maxEntries) && Live(history, k, ttl, now) then Some(history[k].verdict) else None
    }

    constructor (ttl: real, maxEntries: nat)
      requires maxEntries >= 1
      ensures Valid() && uniform && store == map[] && history == map[] && clock == 0.0
      ensures this.ttl == ttl && this.maxEntries == maxEntries && evictions == 0
    {
      this.ttl, this.maxEntries := ttl, maxEntries;
      store, hits, misses, evictions := map[], 0, 0, 0;
      history, uniform, gets, inserts, clock := map[], true, 0, 0, 0.0;
    }

    method Get(k: Key, now: real) returns (r: Option<V>)
      requires Valid() && now >= clock
      modifies this
      ensures Valid() && clock == now && uniform == old(uniform) && history == old(history)
      ensures uniform ==> r == Expected(k, now)
      ensures r.Some? ==> k in store && r.value == store[k].verdict && now <= store[k].expiresAt
      ensures store == if k in old(store) && now > old(store)[k].expiresAt then old(store) - {k} else old(store)
      ensures gets == old(gets) + 1 && inserts == old(inserts) && hits == old(hits) + if r.Some? then 1 else 0
    {
      hide Recent, Consistent, Live, Size;
      if uniform {
        LookupAfter(State(store, history), clock, now, ttl, maxEntries, k);
      }
      if k !in store {
        misses, gets, clock := misses + 1, gets + 1, now;
        return None;
      }
      var entry := store[k];
      if now > entry.expiresAt {
        var left := store - {k};
        SizeWithout(store, k);
        store, evictions, misses, gets, clock := left, evictions + 1, misses + 1, gets + 1, now;
        return None;
      }
      hits, gets, clock := hits + 1, gets + 1, now;
      return Some(entry.verdict);
    }

    method Oldest() returns (o: Key)
      requires store.Keys != {}
      ensures FirstToExpire(store, o)
    {
      o :| o in store;
      var rest := store.Keys - {o};
      while rest != {}
        invariant rest <= store.Keys && o in store
        invariant forall j :: j in store && j !in rest ==> store[o].expiresAt <= store[j].expiresAt
        decreases rest
      {
        var k :| k in rest;
        if store[k].expiresAt < store[o].expiresAt {
          o := k;
        }
        rest := rest - {k};
      }
    }

    /** Evicts the entry that expires first when a new key needs its place. */
    method MakeRoom(k: Key)
      requires maxEntries >= 1 && Size(store) <= maxEntries
      modifies this`store, this`evictions
      ensures MakesRoom(old(store), k, maxEntries, store)
      ensures evictions + Size(store) == old(evictions) + Size(old(store))
      ensures k in store <==> k in old(store)
    {
      hide FirstToExpire;
      if k !in store && Size(store) >= maxEntries {
        var oldest := Oldest();
        assert oldest in store by { FirstIsStored(store, oldest); }
        SizeWithout(store, oldest);
        store := store - {oldest};
        evictions := evictions + 1;
      }
    }

    method Put(k: Key, verdict: V, ttlOverride: Option<real>, now: real)
      requires Valid() && now >= clock
      modifies this
      ensures Valid() && clock == now
      ensures uniform == (old(uniform) && ttlOverride.None? && Fresh(old(history), now))
      ensures PutStep(State(old(store), old(history)), k, verdict, now,
                      if ttlOverride.Some? then ttlOverride.value else ttl, maxEntries, State(store, history))
      ensures gets == old(gets) && inserts == old(inserts) + if k in old(store) then 0 else 1
    {
      hide Recent, Consistent, MakesRoom, PutStep, Fresh, Size;
      ghost var s := State(store, history);
      MakeRoom(k);
      var life := if ttlOverride.Some? then ttlOverride.value else ttl;
      var next := store[k := Entry(now + life, verdict)];
      ghost var s' := State(next, history[k := Stored(now, verdict)]);
      PutCounts(s, k, verdict, now, life, maxEntries, store);
      if uniform && ttlOverride.None? && Fresh(history, now) {
        PutKeepsConsistent(s, k, verdict, clock, now, ttl, maxEntries, s');
      }
      inserts := inserts + if k in store then 0 else 1;
      store, history := next, s'.history;
      uniform, clock := uniform && ttlOverride.None? && Fresh(s.history, now), now;
    }

    method Clear()
      requires Valid()
      modifies this
      ensures Valid() && uniform && store == map[] && history == map[] && clock == old(clock)
      ensures hits == misses == evictions == gets == inserts == 0
    {
      store, hits, misses, evictions := map[], 0, 0, 0;
      history, uniform, gets, inserts := map[], true, 0, 0;
    }

    method EvictExpired(now: real)
      modifies this`store, this`evictions
      ensures store == old(store) - set k | k in old(store) && now > old(store)[k].expiresAt
      ensures evictions + Size(store) == old(evictions) + Size(old(store))
    {
      hide Size;
      var expired := set k | k in store && now > store[k].expiresAt;
      var rest := expired;
      ghost var gone: set<Key> := {};
      RemoveNone(store);
      while rest != {}
        invariant rest + gone == expired && rest !! gone
        invariant store == old(store) - gone && expired <= old(store).Keys
        invariant evictions + Size(store) == old(evictions) + Size(old(store))
        decreases rest
      {
        var k :| k in rest;
        RemoveOneMore(old(store), gone, k);
        store := store - {k};
        evictions := evictions + 1;
        rest, gone := rest - {k}, gone + {k};
      }
      assert gone == expired;
    }

    /** Purges expired entries first, so the reported size counts exactly the unexpired recent keys. */
    method Stats(now: real) returns (r: CacheStats)
      requires Valid() && now >= clock
      modifies this
      ensures Valid() && clock == now && uniform == old(uniform) && history == old(history)
      ensures store == old(store) - set k | k in old(store) && now > old(store)[k].expiresAt
      ensures r == CacheStats(hits, misses, evictions, Size(store))
      ensures hits == old(hits) && misses == old(misses) && inserts == old(inserts) && gets == old(gets)
      ensures uniform ==>
                store.Keys == set k | k in Recent(history, maxEntries) && Live(history, k, ttl, now)
    {
      hide Recent, Consistent, Live, Size;
      EvictExpired(now);
      SizeOfPart(store, old(store));
      if uniform {
        PurgedStore(State(old(store), history), clock, now, ttl, maxEntries);
      }
      clock := now;
      r := CacheStats(hits, misses, evictions, Size(store));
    }
  }

  lemma {:induction false} PutWithRoom<V(!new)>(s: State<V>, k: Key, v: V, now: real, ttl: real, max: nat, s': State<V>)
    requires PutStep(s, k, v, now, ttl, max, s') && Size(s.store) < max
    ensures s'.store == s.store[k := Entry(now + ttl, v)] && s'.history == s.history[k := Stored(now, v)]
    ensures Size(s'.store) <= Size(s.store) + 1
  {
    hide Size, FirstToExpire;
    SizeWith(s.store, k, Entry(now + ttl, v));
  }

  /** A store can hold a key that is not recent: `a` has expired but was never asked for, `b` was. */
  method ExpiredEntryLingers() returns (cache: VerdictCache<int>, a: Key)
    ensures cache.Valid() && cache.uniform
    ensures a in cache.store && !HoldsOnlyRecent(State(cache.store, cache.history), cache.maxEntries)
  {
    hide Consistent, PutStep, Size, Recent, Live;
    a := Key("npm", "a", "1");
    var b, c := Key("npm", "b", "1"), Key("npm", "c", "1");
    cache := new VerdictCache<int>(10.0, 2);
    assert Size<int>(map[]) == 0 by { SizeOfNothing<int>(map[]); }
    cache.Put(a, 0, None, 1.0);
    ghost var one := State(cache.store, cache.history);
    PutWithRoom(State(map[], map[]), a, 0, 1.0, 10.0, 2, one);
    cache.Put(b, 0, None, 2.0);
    ghost var two := State(cache.store, cache.history);
    PutWithRoom(one, b, 0, 2.0, 10.0, 2, two);
    var _ := cache.Get(b, 13.0);
    ghost var three := State(cache.store, cache.history);
    assert three.store == two.store - {b};
    SizeWithout(two.store, b);
    cache.Put(c, 0, None, 14.0);
    PutWithRoom(three, c, 0, 14.0, 10.0, 2, State(cache.store, cache.history));
    TwoNewer(cache.history, a, b, c);
  }

  lemma {:induction false} SizeOfNothing<V>(store: map<Key, Entry<V>>)
    requires store == map[]
    ensures Size(store) == 0
  {
  }

  lemma {:induction false} TwoNewer<V>(h: History<V>, a: Key, b: Key, c: Key)
    requires {a, b, c} <= h.Keys && b != c && h[a].at < h[b].at && h[a].at < h[c].at
    ensures a !in Recent(h, 2)
  {
    SubsetCardinality({b, c}, Newer(h, a));
  }
}
