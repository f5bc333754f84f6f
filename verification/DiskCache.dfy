/** The two file caches: capped by entry count and total size, or by entry count and age. */
module DiskCache {
  import opened Common
  import opened Sorting

  /** A cache file: unreadable JSON, or an entry with its time, size, integrity tag and payload. */
  datatype File<R> = Corrupt | Entry(cachedAt: real, size: nat, sealed: bool, result: R)

  type Directory<R> = map<string, File<R>>

  const ENFORCE_CAPS_EVERY := 50

  // ---------------------------------------------------------------- caps

  datatype Caps = Caps(maxEntries: int, maxSizeMb: real)

  predicate Enabled(caps: Caps) {
    caps.maxEntries > 0 || caps.maxSizeMb > 0.0
  }

  predicate IsEntry<R>(dir: Directory<R>, path: string) {
    path in dir && dir[path].Entry?
  }

  function Time<R>(dir: Directory<R>, path: string): real {
    if IsEntry(dir, path) then dir[path].cachedAt else 0.0
  }

  ghost predicate AllEntries<R>(dir: Directory<R>, paths: seq<string>) {
    forall i :: 0 <= i < |paths| ==> IsEntry(dir, paths[i])
  }

  function SizeOf<R>(dir: Directory<R>, paths: seq<string>): nat {
    if paths == [] then 0
    else (if IsEntry(dir, paths[0]) then dir[paths[0]].size else 0) + SizeOf(dir, paths[1..])
  }

  /** Both caps hold for `count` files of `size` bytes in all. */
  predicate UnderCaps(caps: Caps, count: nat, size: int) {
    && (caps.maxEntries <= 0 || count <= caps.maxEntries)
    && (caps.maxSizeMb <= 0.0 || size as real / (1024.0 * 1024.0) <= caps.maxSizeMb)
  }

  /** The files are not too many, and together no more than that many times 1,048,576 bytes. */
  ghost predicate Fits<R>(caps: Caps, dir: Directory<R>, paths: seq<string>) {
    && (caps.maxEntries > 0 ==> |paths| <= caps.maxEntries)
    && (caps.maxSizeMb > 0.0 ==> SizeOf(dir, paths) as real <= caps.maxSizeMb * 1048576.0)
  }

  lemma {:induction false} FitsIff<R>(caps: Caps, dir: Directory<R>, paths: seq<string>)
    ensures Fits(caps, dir, paths) <==> UnderCaps(caps, |paths|, SizeOf(dir, paths))
  {
  }

  /** All readable entries, oldest first. */
  ghost predicate OldestFirst<R>(dir: Directory<R>, order: seq<string>) {
    && Distinct(order)
    && (forall p :: p in order <==> IsEntry(dir, p))
    && (forall i, j :: 0 <= i < j < |order| && IsEntry(dir, order[i]) && IsEntry(dir, order[j]) ==>
          dir[order[i]].cachedAt <= dir[order[j]].cachedAt)
  }

  /** Exactly the files in `paths` are left. */
  ghost predicate Left<R>(dir: Directory<R>, paths: seq<string>, left: Directory<R>) {
    && (forall p :: p in left <==> p in paths)
    && (forall p :: p in left ==> p in dir && left[p] == dir[p])
  }

  /** The shortest oldest-first prefix has been evicted that brings both caps into force. */
  ghost predicate Enforced<R>(caps: Caps, dir: Directory<R>, order: seq<string>, evicted: nat, left: Directory<R>) {
    && OldestFirst(dir, order) && evicted <= |order|
    && Left(dir, order[evicted..], left)
    && Fits(caps, dir, order[evicted..])
    && forall k :: 0 <= k < evicted ==> !Fits(caps, dir, order[k..])
  }

  // ---------------------------------------------------------------- the loops

  /** Lists the readable entries by age, deleting unreadable files on the way. */
  method ListOldestFirst<R>(dir: Directory<R>) returns (order: seq<string>, left: Directory<R>)
    ensures OldestFirst(dir, order) && Left(dir, order, left)
  {
    order, left := [], dir;
    var rest := dir.Keys;
    while rest != {}
      invariant rest <= dir.Keys && Distinct(order)
      invariant forall p :: p in order <==> p !in rest && IsEntry(dir, p)
      invariant forall p :: p in left <==> p in dir && (p in rest || dir[p].Entry?)
      invariant forall p :: p in left ==> left[p] == dir[p]
      invariant forall i, j :: 0 <= i < j < |order| ==> Time(dir, order[i]) <= Time(dir, order[j])
      decreases rest
    {
      var path :| path in rest;
      match dir[path] {
        case Corrupt =>
          left := left - {path};
        case Entry(at, _, _, _) =>
          order := InsertByTime(dir, order, path);
      }
      rest := rest - {path};
    }
  }

  /** Keeps the list sorted; among equal times the later arrival goes last, as a stable sort has it. */
  method InsertByTime<R>(dir: Directory<R>, order: seq<string>, path: string) returns (r: seq<string>)
    requires AllEntries(dir, order) && IsEntry(dir, path) && Distinct(order) && path !in order
    requires forall i, j :: 0 <= i < j < |order| ==> Time(dir, order[i]) <= Time(dir, order[j])
    ensures Distinct(r) && forall p :: p in r <==> p in order || p == path
    ensures AllEntries(dir, r)
    ensures forall i, j :: 0 <= i < j < |r| ==> Time(dir, r[i]) <= Time(dir, r[j])
  {
    hide Time, IsEntry;
    var k := |order|;
    while k > 0 && Time(dir, order[k - 1]) > Time(dir, path)
      invariant 0 <= k <= |order|
      invariant forall i :: k <= i < |order| ==> Time(dir, order[i]) > Time(dir, path)
    {
      k := k - 1;
    }
    r := order[..k] + [path] + order[k..];
    assert forall p :: p in order <==> p in order[..k] || p in order[k..];
  }

  method TotalSize<R>(ghost dir: Directory<R>, order: seq<string>, files: Directory<R>) returns (total: nat)
    requires OldestFirst(dir, order) && Left(dir, order, files)
    ensures total == SizeOf(dir, order)
  {
    hide Distinct;
    total := 0;
    assert order[0..] == order;
    for i := 0 to |order|
      invariant total + SizeOf(dir, order[i..]) == SizeOf(dir, order)
    {
      assert IsEntry(dir, order[i]);
      SizeStep(dir, order, i);
      total := total + files[order[i]].size;
    }
    assert SizeOf(dir, order[|order|..]) == 0;
  }

  /** Evicts from the front until both caps hold. */
  method EvictOldest<R>(caps: Caps, ghost dir: Directory<R>, order: seq<string>, files: Directory<R>)
    returns (evicted: nat, left: Directory<R>)
    requires OldestFirst(dir, order) && Left(dir, order, files)
    ensures Enforced(caps, dir, order, evicted, left)
  {
    hide UnderCaps, SizeOf, Left, Fits;
    left := files;
    var total: int := TotalSize(dir, order, files);
    assert order[0..] == order;
    evicted := 0;
    while evicted < |order|
      invariant evicted <= |order| && total == SizeOf(dir, order[evicted..])
      invariant Left(dir, order[evicted..], left)
      invariant forall k :: 0 <= k < evicted ==> !Fits(caps, dir, order[k..])
    {
      FitsIff(caps, dir, order[evicted..]);
      if UnderCaps(caps, |order| - evicted, total) {
        return;
      }
      var path := order[evicted];
      SizeStep(dir, order, evicted);
      DropFirst(dir, order, evicted, left);
      total := total - left[path].size;
      left := left - {path};
      evicted := evicted + 1;
    }
    NothingFits(caps, dir);
    assert order[evicted..] == [];
  }

  lemma {:induction false} SizeStep<R>(dir: Directory<R>, order: seq<string>, i: nat)
    requires i < |order| && IsEntry(dir, order[i])
    ensures order[i] in dir && dir[order[i]].Entry?
    ensures SizeOf(dir, order[i..]) == dir[order[i]].size + SizeOf(dir, order[i + 1..])
  {
    assert order[i..][1..] == order[i + 1..];
  }

  lemma {:induction false} DropFirst<R>(dir: Directory<R>, order: seq<string>, k: nat, left: Directory<R>)
    requires OldestFirst(dir, order) && k < |order| && Left(dir, order[k..], left)
    ensures Left(dir, order[k + 1..], left - {order[k]})
    ensures order[k] in left && IsEntry(dir, order[k]) && left[order[k]] == dir[order[k]]
  {
    assert order[k..] == [order[k]] + order[k + 1..];
    assert order[k] in order;
  }

  lemma {:induction false} NothingFits<R>(caps: Caps, dir: Directory<R>)
    ensures Fits(caps, dir, [])
  {
  }

  method EnforceCaps<R>(caps: Caps, dir: Directory<R>) returns (evicted: nat, left: Directory<R>, ghost order: seq<string>)
    ensures !Enabled(caps) ==> evicted == 0 && left == dir
    ensures Enabled(caps) ==> Enforced(caps, dir, order, evicted, left)
  {
    if caps.maxEntries <= 0 && caps.maxSizeMb <= 0.0 {
      return 0, dir, [];
    }
    var paths, files := ListOldestFirst(dir);
    order := paths;
    evicted, left := EvictOldest(caps, dir, paths, files);
  }

  // ---------------------------------------------------------------- the scan cache

  lemma {:induction false} LeftSize<R>(dir: Directory<R>, paths: seq<string>, left: Directory<R>)
    requires Left(dir, paths, left)
    ensures |left.Keys| <= |paths|
  {
    var listed := set p | p in paths;
    assert left.Keys == listed;
    SetOfSeq(paths);
  }

  lemma {:induction false} SetOfSeq(paths: seq<string>)
    ensures |set p | p in paths| <= |paths|
    decreases |paths|
  {
    if paths != [] {
      var s := set p | p in paths[1..];
      assert paths == [paths[0]] + paths[1..];
      assert (set p | p in paths) == s + {paths[0]};
      SetOfSeq(paths[1..]);
    } else {
      assert (set p | p in paths) == {};
    }
  }

  /** The newest file goes only when it does not fit on its own. */
  lemma {:induction false} NewestSurvives<R>(caps: Caps, dir: Directory<R>, order: seq<string>, evicted: nat, left: Directory<R>, path: string)
    requires Enforced(caps, dir, order, evicted, left) && IsEntry(dir, path)
    requires forall p :: IsEntry(dir, p) && p != path ==> Time(dir, p) < Time(dir, path)
    ensures path in left <==> UnderCaps(caps, 1, dir[path].size)
  {
    assert SizeOf(dir, []) == 0;
    hide UnderCaps, OldestFirst, SizeOf, IsEntry;
    var n := |order|;
    NewestIsLast(dir, order, path);
    assert order[n - 1..] == [path];
    SizeStep(dir, order, n - 1);
    assert order[n..] == [];
    if evicted < n {
      assert order[evicted..][n - 1 - evicted] == path;
      NarrowFits(caps, dir, order, evicted);
    } else {
      assert !Fits(caps, dir, order[n - 1..]);
      assert order[evicted..] == [];
    }
  }

  lemma {:induction false} NewestIsLast<R>(dir: Directory<R>, order: seq<string>, path: string)
    requires OldestFirst(dir, order) && IsEntry(dir, path)
    requires forall p :: IsEntry(dir, p) && p != path ==> Time(dir, p) < Time(dir, path)
    ensures |order| > 0 && order[|order| - 1] == path && AllEntries(dir, order)
  {
    hide Distinct;
    assert path in order;
    var i :| 0 <= i < |order| && order[i] == path;
    var last := order[|order| - 1];
    assert last in order;
    assert forall k :: 0 <= k < |order| ==> order[k] in order;
  }

  /** If a list of files fits, so does its newest one alone. */
  lemma {:induction false} NarrowFits<R>(caps: Caps, dir: Directory<R>, order: seq<string>, k: nat)
    requires k < |order| && AllEntries(dir, order) && Fits(caps, dir, order[k..])
    ensures UnderCaps(caps, 1, dir[order[|order| - 1]].size)
    decreases |order| - k
  {
    SizeStep(dir, order, k);
    if k < |order| - 1 {
      NarrowFits(caps, dir, order, k + 1);
    } else {
      assert order[k + 1..] == [];
    }
  }

  /** Every other entry is older than `now`. */
  ghost predicate OthersOlder<R>(dir: Directory<R>, path: string, now: real) {
    forall p :: IsEntry(dir, p) && p != path ==> dir[p].cachedAt < now
  }

  lemma {:induction false} NewestWrite<R>(dir: Directory<R>, path: string, file: File<R>, written: Directory<R>)
    requires file.Entry? && OthersOlder(dir, path, file.cachedAt) && written == dir[path := file]
    ensures IsEntry(written, path)
    ensures forall p :: IsEntry(written, p) && p != path ==> Time(written, p) < Time(written, path)
  {
    forall p | IsEntry(written, p) && p != path
      ensures Time(written, p) < Time(written, path)
    {
      assert IsEntry(dir, p);
    }
  }

  /** The writes since the last enforcement. */
  function SinceEnforced(writeCount: nat): nat {
    writeCount % ENFORCE_CAPS_EVERY
  }

  predicate TooBig(caps: Caps, size: nat) {
    caps.maxSizeMb > 0.0 && size as real > caps.maxSizeMb * 1048576.0
  }

  /** The directory after a write that enforces the caps. */
  lemma {:induction false} AfterEnforcement<R>(caps: Caps, dir: Directory<R>, path: string, file: File<R>,
                            written: Directory<R>, order: seq<string>, evicted: nat, left: Directory<R>)
    requires file.Entry? && written == dir[path := file]
    requires Enforced(caps, written, order, evicted, left)
    ensures caps.maxEntries > 0 ==> |left.Keys| <= caps.maxEntries
    ensures OthersOlder(dir, path, file.cachedAt) ==> (path in left <==> !TooBig(caps, file.size))
    ensures path in left ==> left[path] == file
  {
    hide Enforced, OthersOlder;
    EnforcedFacts(caps, written, order, evicted, left);
    if OthersOlder(dir, path, file.cachedAt) {
      NewestWrite(dir, path, file, written);
      NewestSurvives(caps, written, order, evicted, left, path);
    }
  }

  /** One `put`. */
  datatype Write<R> = Write(path: string, at: real, size: nat, result: R)

  function Written<R>(dir: Directory<R>, w: Write<R>): Directory<R> {
    dir[w.path := Entry(w.at, w.size, true, w.result)]
  }

  /** The directory before and after the write number `n + 1` of a cache: every fiftieth enforces the caps, if any. */
  ghost predicate PutStep<R(!new)>(caps: Caps, dir: Directory<R>, n: nat, w: Write<R>, after: Directory<R>) {
    if (n + 1) % 50 != 0 || (caps.maxEntries <= 0 && caps.maxSizeMb <= 0.0) then after == Written(dir, w)
    else exists order, evicted :: Enforced(caps, Written(dir, w), order, evicted, after)
  }

  /** How many entries there may be after `n` writes to a directory that was opened with so many. */
  function Allowed(caps: Caps, openedWith: nat, n: nat): int {
    (if n < ENFORCE_CAPS_EVERY then openedWith else caps.maxEntries) + SinceEnforced(n)
  }

  lemma {:induction false} WrittenKeys<R>(dir: Directory<R>, w: Write<R>)
    ensures Written(dir, w).Keys == dir.Keys + {w.path}
    ensures |Written(dir, w).Keys| == |dir.Keys| + if w.path in dir then 0 else 1
  {
    assert Written(dir, w).Keys == dir.Keys + {w.path};
    if w.path in dir {
      assert dir.Keys + {w.path} == dir.Keys;
    }
  }

  /** The first forty-nine writes of a cache enforce nothing. */
  lemma {:induction false} EarlyStep<R(!new)>(caps: Caps, dir: Directory<R>, n: nat, w: Write<R>, after: Directory<R>)
    requires n + 1 < ENFORCE_CAPS_EVERY
    ensures PutStep(caps, dir, n, w, after) <==> after == Written(dir, w)
  {
  }

  lemma {:induction false} AllowedNext(caps: Caps, openedWith: nat, n: nat)
    ensures Allowed(caps, openedWith, n + 1) ==
              if SinceEnforced(n + 1) == 0 then caps.maxEntries else Allowed(caps, openedWith, n) + 1
  {
  }

  lemma {:induction false} StepIsAllowed<R(!new)>(caps: Caps, openedWith: nat, dir: Directory<R>, n: nat, w: Write<R>,
                                                  after: Directory<R>)
    requires caps.maxEntries > 0 && |dir.Keys| <= Allowed(caps, openedWith, n) && PutStep(caps, dir, n, w, after)
    ensures |after.Keys| <= Allowed(caps, openedWith, n + 1)
  {
    assert SinceEnforced(n + 1) == (n + 1) % 50;
    hide Enforced, Written, Allowed, SinceEnforced;
    WrittenKeys(dir, w);
    AllowedNext(caps, openedWith, n);
    if SinceEnforced(n + 1) == 0 {
      var order, evicted :| Enforced(caps, Written(dir, w), order, evicted, after);
      EnforcedFacts(caps, Written(dir, w), order, evicted, after);
    }
  }

  class ScanCache<R(!new)> {
    const ttl: real
    const caps: Caps
    var dir: Directory<R>
    var writeCount: nat
    ghost const openedWith: nat

    /** What the directory held when opened counts until the first enforcement; between two enforcements it grows by
        the writes since. */
    ghost predicate Valid()
      reads this
    {
      caps.maxEntries > 0 ==> |dir.Keys| <= Allowed(caps, openedWith, writeCount)
    }

    /** Opens a directory as it is; nothing is enforced. */
    constructor (ttl: real, caps: Caps, dir: Directory<R>)
      ensures Valid() && this.dir == dir && openedWith == |dir.Keys| && writeCount == 0
      ensures this.ttl == ttl && this.caps == caps
    {
      this.ttl, this.caps := ttl, caps;
      this.dir, writeCount, openedWith := dir, 0, |dir.Keys|;
    }

    /** Stores a result, whatever the clock says. Every fiftieth write enforces the caps; an entry newer than all
        others survives its own write unless it alone exceeds the size cap. */
    method Put(path: string, result: R, size: nat, now: real)
      requires Valid()
      modifies this
      ensures Valid() && writeCount == old(writeCount) + 1
      ensures caps.maxEntries > 0 && (openedWith <= caps.maxEntries || writeCount >= 50) ==>
                |dir.Keys| <= caps.maxEntries + 49
      ensures PutStep(caps, old(dir), old(writeCount), Write(path, now, size, result), dir)
      ensures writeCount % 50 != 0 ==> path in dir
      ensures OthersOlder(old(dir), path, now) ==>
                (path in dir <==> !(writeCount % 50 == 0 && TooBig(caps, size)))
      ensures path in dir ==> dir[path] == Entry(now, size, true, result)
    {
      hide Enforced, OthersOlder;
      var file := Entry(now, size, true, result);
      ghost var before := dir;
      ghost var w := Write(path, now, size, result);
      var written := dir[path := file];
      var left := written;
      if SinceEnforced(writeCount + 1) == 0 {
        var evicted;
        ghost var order;
        evicted, left, order := EnforceCaps(caps, written);
        if Enabled(caps) {
          assert Enforced(caps, Written(before, w), order, evicted, left);
          AfterEnforcement(caps, before, path, file, written, order, evicted, left);
        } else {
          assert !TooBig(caps, size);
        }
      }
      if caps.maxEntries > 0 {
        StepIsAllowed(caps, openedWith, before, writeCount, w, left);
      }
      dir, writeCount := left, writeCount + 1;
    }

    /** Returns a stored result that is readable, untampered and young enough; deletes it otherwise. */
    method Get(path: string, now: real) returns (r: Option<R>)
      requires Valid()
      modifies this`dir
      ensures Valid()
      ensures r == if IsEntry(old(dir), path) && old(dir)[path].sealed && now - old(dir)[path].cachedAt <= ttl
                   then Some(old(dir)[path].result) else None
      ensures dir == if r.None? then old(dir) - {path} else old(dir)
    {
      if path !in dir {
        assert dir - {path} == dir;
        return None;
      }
      assert (dir - {path}).Keys == dir.Keys - {path};
      var file := dir[path];
      if file.Corrupt? || !file.sealed || now - file.cachedAt > ttl {
        dir := dir - {path};
        return None;
      }
      return Some(file.result);
    }
  }

  lemma {:induction false} EnforcedFacts<R>(caps: Caps, dir: Directory<R>, order: seq<string>, evicted: nat, left: Directory<R>)
    requires Enforced(caps, dir, order, evicted, left)
    ensures caps.maxEntries > 0 ==> |left.Keys| <= caps.maxEntries
    ensures forall p :: p in left ==> p in dir && left[p] == dir[p]
  {
    hide OldestFirst;
    LeftSize(dir, order[evicted..], left);
  }

  // ---------------------------------------------------------------- does the entry bound hold?

  /** The directories a cache opened on the first of them goes through. */
  ghost predicate IsRun<R(!new)>(caps: Caps, writes: seq<Write<R>>, dirs: seq<Directory<R>>) {
    |dirs| == |writes| + 1 && forall i :: 0 <= i < |writes| ==> PutStep(caps, dirs[i], i, writes[i], dirs[i + 1])
  }

  ghost predicate BoundHolds<R>(caps: Caps, dirs: seq<Directory<R>>) {
    forall i :: 0 < i < |dirs| ==> |dirs[i].Keys| <= caps.maxEntries + 49
  }

  lemma {:induction false} RunIsAllowed<R(!new)>(caps: Caps, writes: seq<Write<R>>, dirs: seq<Directory<R>>, i: nat)
    requires caps.maxEntries > 0 && IsRun(caps, writes, dirs) && i < |dirs|
    ensures |dirs[i].Keys| <= Allowed(caps, |dirs[0].Keys|, i)
    decreases i
  {
    hide PutStep;
    if i > 0 {
      RunIsAllowed(caps, writes, dirs, i - 1);
      StepIsAllowed(caps, |dirs[0].Keys|, dirs[i - 1], i - 1, writes[i - 1], dirs[i]);
    }
  }

  lemma {:induction false} LongerThanAll(paths: set<string>) returns (n: nat)
    ensures forall p :: p in paths ==> |p| < n
    decreases paths
  {
    n := 0;
    if paths != {} {
      var p :| p in paths;
      n := LongerThanAll(paths - {p});
      n := if n <= |p| then |p| + 1 else n;
    }
  }

  lemma {:induction false} FreshWrite<R>(dir: Directory<R>, result: R) returns (w: Write<R>)
    ensures |Written(dir, w).Keys| == |dir.Keys| + 1
  {
    hide Written;
    var len := LongerThanAll(dir.Keys);
    w := Write(seq(len, _ => 'x'), 0.0, 0, result);
    WrittenKeys(dir, w);
  }

  /** Fewer than fifty writes of new paths all stay. */
  lemma {:induction false} FreshRun<R(!new)>(caps: Caps, dir: Directory<R>, n: nat, result: R)
    returns (writes: seq<Write<R>>, dirs: seq<Directory<R>>)
    requires n < ENFORCE_CAPS_EVERY
    ensures IsRun(caps, writes, dirs) && |writes| == n && dirs[0] == dir && |dirs[n].Keys| == |dir.Keys| + n
    decreases n
  {
    if n == 0 {
      writes, dirs := [], [dir];
    } else {
      hide PutStep, Written;
      var ws, ds := FreshRun(caps, dir, n - 1, result);
      var w := FreshWrite(ds[n - 1], result);
      EarlyStep(caps, ds[n - 1], n - 1, w, Written(ds[n - 1], w));
      writes, dirs := ws + [w], ds + [Written(ds[n - 1], w)];
    }
  }

  /** Every run of puts keeps the bound if and only if the directory held at most `maxEntries` files when opened. */
  lemma {:induction false} BoundHoldsIff<R(!new)>(caps: Caps, dir: Directory<R>, result: R)
    requires caps.maxEntries > 0
    ensures (forall writes: seq<Write<R>>, dirs: seq<Directory<R>> :: |dirs| > 0 && IsRun(caps, writes, dirs) && dirs[0] == dir ==> BoundHolds(caps, dirs))
            <==> |dir.Keys| <= caps.maxEntries
  {
    hide IsRun;
    if |dir.Keys| <= caps.maxEntries {
      forall writes: seq<Write<R>>, dirs: seq<Directory<R>> | |dirs| > 0 && IsRun(caps, writes, dirs) && dirs[0] == dir
        ensures BoundHolds(caps, dirs)
      {
        forall i | 0 < i < |dirs|
          ensures |dirs[i].Keys| <= caps.maxEntries + 49
        {
          RunIsAllowed(caps, writes, dirs, i);
        }
      }
    } else {
      var writes, dirs := FreshRun(caps, dir, ENFORCE_CAPS_EVERY - 1, result);
      assert |dirs| == ENFORCE_CAPS_EVERY by { RunLength(caps, writes, dirs); }
      assert !BoundHolds(caps, dirs);
    }
  }

  lemma {:induction false} RunLength<R(!new)>(caps: Caps, writes: seq<Write<R>>, dirs: seq<Directory<R>>)
    requires IsRun(caps, writes, dirs)
    ensures |dirs| == |writes| + 1
  {
  }

  lemma {:induction false} KeysOfHit<R>(dir: Directory<R>, path: string)
    ensures IsEntry(dir, path) ==> dir.Keys + {path} == dir.Keys
  {
  }

  lemma {:induction false} WrittenAfterGet<R>(dir: Directory<R>, w: Write<R>)
    ensures Written(dir - {w.path}, w) == Written(dir, w)
  {
  }

  /** One scan opens a cache, asks it, and puts its own result unless the stored one is of use. */
  method ScanOnce<R(!new)>(ttl: real, caps: Caps, dir: Directory<R>, w: Write<R>, ofUse: R -> bool)
    returns (after: Directory<R>)
    ensures after == dir || after == Written(dir, w)
    ensures after.Keys == dir.Keys + {w.path}
  {
    hide PutStep, OthersOlder, TooBig, Allowed, SinceEnforced, Written, IsEntry;
    var cache := new ScanCache(ttl, caps, dir);
    KeysOfHit(dir, w.path);
    var stored := cache.Get(w.path, w.at);
    if stored.Some? && ofUse(stored.value) {
      return dir;
    }
    ghost var before := cache.dir;
    WrittenAfterGet(dir, w);
    cache.Put(w.path, w.result, w.size, w.at);
    EarlyStep(caps, before, 0, w, cache.dir);
    WrittenKeys(dir, w);
    after := cache.dir;
  }

  function Paths<R>(writes: seq<Write<R>>): set<string> {
    if writes == [] then {} else Paths(writes[..|writes| - 1]) + {writes[|writes| - 1].path}
  }

  /** One cache per scan: the caps are never enforced, and every path ever written stays. */
  method OnePutPerOpening<R(!new)>(ttl: real, caps: Caps, start: Directory<R>, writes: seq<Write<R>>, ofUse: R -> bool)
    returns (dir: Directory<R>)
    ensures dir.Keys == start.Keys + Paths(writes)
  {
    hide Written;
    dir := start;
    for i := 0 to |writes|
      invariant dir.Keys == start.Keys + Paths(writes[..i])
    {
      assert writes[..i + 1][..i] == writes[..i] && writes[..i + 1][i] == writes[i];
      dir := ScanOnce(ttl, caps, dir, writes[i], ofUse);
    }
    assert writes[..|writes|] == writes;
  }

  /** So any bound is exceeded: `n` scans of new targets leave `n` more files, whatever the caps. */
  lemma {:induction false} OpeningsExceedAnyBound<R>(start: set<string>, n: nat, result: R) returns (writes: seq<Write<R>>)
    ensures |writes| == n && |start + Paths(writes)| == |start| + n
    decreases n
  {
    if n == 0 {
      writes := [];
      assert start + {} == start;
    } else {
      var ws := OpeningsExceedAnyBound(start, n - 1, result);
      var taken := start + Paths(ws);
      var len := LongerThanAll(taken);
      var w := Write(seq(len, _ => 'x'), 0.0, 0, result);
      writes := ws + [w];
      assert writes[..n - 1] == ws;
      assert start + Paths(writes) == taken + {w.path};
    }
  }

  /** What was stored is returned until it expires, provided it survived its own write; without enforcement it
      does, and with it the newest entry does unless it is too big. */
  method PutThenGet<R(!new)>(cache: ScanCache<R>, path: string, result: R, size: nat, now: real, later: real)
    returns (r: Option<R>)
    requires cache.Valid()
    modifies cache
    ensures cache.Valid()
    ensures cache.writeCount % 50 != 0 ==> (r.Some? <==> later - now <= cache.ttl)
    ensures OthersOlder(old(cache.dir), path, now) ==>
              (r.Some? <==>
                 later - now <= cache.ttl && !(cache.writeCount % 50 == 0 && TooBig(cache.caps, size)))
    ensures r.Some? ==> r.value == result
  {
    hide Enforced, OthersOlder, TooBig;
    cache.Put(path, result, size, now);
    r := cache.Get(path, later);
  }

  // ---------------------------------------------------------------- the OSV cache

  datatype OsvCaps = OsvCaps(maxEntries: int, maxAgeSeconds: int)

  type Times = map<string, real>

  function When(times: Times, p: string): real {
    if p in times then times[p] else 0.0
  }

  ghost predicate NewestFirst(times: Times, order: seq<string>) {
    && Distinct(order)
    && (forall p :: p in order <==> p in times)
    && (forall i, j :: 0 <= i < j < |order| && order[i] in times && order[j] in times ==>
          times[order[i]] >= times[order[j]])
  }

  predicate TooMany(caps: OsvCaps, index: nat) {
    caps.maxEntries > 0 && index >= caps.maxEntries
  }

  predicate TooOld(caps: OsvCaps, age: real) {
    caps.maxAgeSeconds > 0 && age > caps.maxAgeSeconds as real
  }

  method InsertNewestFirst(times: Times, order: seq<string>, path: string) returns (r: seq<string>)
    requires Distinct(order) && path !in order
    requires forall i, j :: 0 <= i < j < |order| ==> When(times, order[i]) >= When(times, order[j])
    ensures Distinct(r) && forall p :: p in r <==> p in order || p == path
    ensures forall i, j :: 0 <= i < j < |r| ==> When(times, r[i]) >= When(times, r[j])
  {
    hide When;
    var k := |order|;
    while k > 0 && When(times, order[k - 1]) < When(times, path)
      invariant 0 <= k <= |order|
      invariant forall i :: k <= i < |order| ==> When(times, order[i]) < When(times, path)
    {
      k := k - 1;
    }
    assert forall p :: p in order <==> p in order[..k] || p in order[k..];
    r := order[..k] + [path] + order[k..];
  }

  method SortNewestFirst(times: Times) returns (order: seq<string>)
    ensures NewestFirst(times, order)
  {
    hide When;
    order := [];
    assert Distinct(order);
    var rest := times.Keys;
    while rest != {}
      invariant rest <= times.Keys && Distinct(order)
      invariant forall p :: p in order <==> p in times && p !in rest
      invariant forall i, j :: 0 <= i < j < |order| ==> When(times, order[i]) >= When(times, order[j])
      decreases rest
    {
      var path :| path in rest;
      order := InsertNewestFirst(times, order, path);
      rest := rest - {path};
    }
    SortedByTime(times, order);
  }

  lemma {:induction false} SortedByTime(times: Times, order: seq<string>)
    requires Distinct(order) && forall p :: p in order <==> p in times
    requires forall i, j :: 0 <= i < j < |order| ==> When(times, order[i]) >= When(times, order[j])
    ensures NewestFirst(times, order)
  {
    hide Distinct;
  }

  predicate Evicts(caps: OsvCaps, index: nat, age: real) {
    TooMany(caps, index) || TooOld(caps, age)
  }

  /** Of the files listed newest first, those past the count cap or the age cap are gone. */
  ghost predicate OsvEnforced(caps: OsvCaps, times: Times, now: real, order: seq<string>, left: Times) {
    && NewestFirst(times, order)
    && (forall i :: 0 <= i < |order| && order[i] in times ==>
          (order[i] in left <==>
             && (caps.maxEntries > 0 ==> i < caps.maxEntries)
             && (caps.maxAgeSeconds > 0 ==> now - times[order[i]] <= caps.maxAgeSeconds as real)))
    && (forall p :: p in left ==> p in times && left[p] == times[p])
  }

  /** Keeps the newest entries that are young enough. */
  method OsvEnforceCaps(caps: OsvCaps, times: Times, now: real) returns (evicted: nat, left: Times, ghost order: seq<string>)
    ensures OsvEnforced(caps, times, now, order, left)
    ensures evicted + |left.Keys| == |times.Keys|
  {
    hide Evicts, When, OsvEnforced;
    var entries := SortNewestFirst(times);
    order := entries;
    evicted, left := 0, times;
    for i := 0 to |entries|
      invariant forall k :: 0 <= k < i ==>
                  (entries[k] in left <==> !Evicts(caps, k, now - When(times, entries[k])))
      invariant forall k :: i <= k < |entries| ==> entries[k] in left
      invariant forall p :: p in left ==> p in times && left[p] == times[p]
      invariant evicted + |left.Keys| == |times.Keys|
    {
      var path := entries[i];
      if Evicts(caps, i, now - When(times, path)) {
        assert (left - {path}).Keys == left.Keys - {path};
        left := left - {path};
        evicted := evicted + 1;
      }
    }
    EvictsByCaps(caps, times, now, entries, left);
  }

  lemma {:induction false} EvictsByCaps(caps: OsvCaps, times: Times, now: real, order: seq<string>, left: Times)
    requires NewestFirst(times, order) && forall p :: p in left ==> p in times && left[p] == times[p]
    requires forall k :: 0 <= k < |order| ==> (order[k] in left <==> !Evicts(caps, k, now - When(times, order[k])))
    ensures OsvEnforced(caps, times, now, order, left)
  {
  }

  // ---------------------------------------------------------------- both keep the newest

  lemma {:induction false} Mirror(times: Times, up: seq<string>, down: seq<string>)
    requires Distinct(up) && Distinct(down) && forall p :: p in up <==> p in down
    requires forall i, j :: 0 <= i < j < |up| ==> When(times, up[i]) < When(times, up[j])
    requires forall i, j :: 0 <= i < j < |down| ==> When(times, down[i]) > When(times, down[j])
    ensures |up| == |down| && forall i :: 0 <= i < |down| ==> down[i] == up[|up| - 1 - i]
    decreases |up|
  {
    if down != [] {
      assert down[0] in down && down[0] in up;
    }
    if up != [] {
      var n := |up| - 1;
      assert up[n] in up && up[n] in down;
      assert down[0] in down && down[0] in up;
      assert up[n] == down[0];
      assert up == up[..n] + [up[n]] && down == [down[0]] + down[1..];
      forall p ensures p in up[..n] <==> p in down[1..] {
        assert p in up <==> p in up[..n] || p == up[n];
        assert p in down <==> p == down[0] || p in down[1..];
        assert up[n] !in up[..n] && down[0] !in down[1..];
      }
      Mirror(times, up[..n], down[1..]);
    }
  }

  /** Both caches list the same files with the same times, all different. */
  ghost predicate SameFiles<R>(dir: Directory<R>, times: Times) {
    && (forall p :: p in times <==> IsEntry(dir, p))
    && (forall p :: p in times && IsEntry(dir, p) ==> times[p] == dir[p].cachedAt)
    && (forall p, q :: p in times && q in times && p != q ==> times[p] != times[q])
  }

  /** Under a count cap alone and with distinct times, evicting the oldest and keeping the newest leave
      the same entries. */
  lemma {:induction false} SameSurvivors<R>(maxEntries: int, dir: Directory<R>, up: seq<string>, evicted: nat, left: Directory<R>,
                         times: Times, down: seq<string>, now: real, osvLeft: Times)
    requires maxEntries > 0 && SameFiles(dir, times)
    requires Enforced(Caps(maxEntries, 0.0), dir, up, evicted, left)
    requires OsvEnforced(OsvCaps(maxEntries, 0), times, now, down, osvLeft)
    ensures left.Keys == osvLeft.Keys
  {
    hide *;
    assert Distinct(up) && |up| == |down| && (forall p :: p in up <==> p in times)
           && forall i :: 0 <= i < |down| ==> down[i] == up[|up| - 1 - i] by {
      EnforcedParts(maxEntries, dir, up, evicted, left);
      OsvEnforcedParts(maxEntries, times, now, down, osvLeft);
      StrictlyRising(dir, times, up);
      StrictlyFalling(dir, times, down);
      Mirror(times, up, down);
    }
    EvictedCount(maxEntries, dir, up, evicted, left);
    EnforcedParts(maxEntries, dir, up, evicted, left);
    OsvEnforcedParts(maxEntries, times, now, down, osvLeft);
    SuffixIsPrefix(up, down, evicted, osvLeft.Keys, maxEntries);
  }

  lemma {:induction false} EnforcedParts<R>(maxEntries: int, dir: Directory<R>, order: seq<string>, evicted: nat,
                                            left: Directory<R>)
    requires Enforced(Caps(maxEntries, 0.0), dir, order, evicted, left)
    ensures OldestFirst(dir, order) && evicted <= |order|
    ensures forall p :: p in left <==> p in order[evicted..]
  {
  }

  lemma {:induction false} OsvEnforcedParts(maxEntries: int, times: Times, now: real, order: seq<string>, left: Times)
    requires maxEntries > 0 && OsvEnforced(OsvCaps(maxEntries, 0), times, now, order, left)
    ensures NewestFirst(times, order) && left.Keys <= times.Keys
    ensures forall i :: 0 <= i < |order| ==> (order[i] in left <==> i < maxEntries)
  {
  }

  /** The newest are the last of one list and the first of the other. */
  lemma {:induction false} SuffixIsPrefix(up: seq<string>, down: seq<string>, evicted: nat, kept: set<string>, max: int)
    requires Distinct(up) && |up| == |down| && forall i :: 0 <= i < |down| ==> down[i] == up[|up| - 1 - i]
    requires max > 0 && evicted == if |up| > max then |up| - max else 0
    requires forall i :: 0 <= i < |down| ==> (down[i] in kept <==> i < max)
    requires forall p :: p in kept ==> p in up
    ensures forall p :: p in up[evicted..] <==> p in kept
  {
    forall p ensures p in up[evicted..] <==> p in kept {
      if p in up {
        var i :| 0 <= i < |up| && up[i] == p;
        assert down[|up| - 1 - i] == p;
      }
    }
  }

  lemma {:induction false} StrictlyRising<R>(dir: Directory<R>, times: Times, up: seq<string>)
    requires OldestFirst(dir, up) && SameFiles(dir, times)
    ensures Distinct(up) && forall p :: p in up <==> p in times
    ensures forall i, j :: 0 <= i < j < |up| ==> When(times, up[i]) < When(times, up[j])
  {
    assert forall i :: 0 <= i < |up| ==> up[i] in up;
    forall i, j | 0 <= i < j < |up|
      ensures When(times, up[i]) < When(times, up[j])
    {
      assert up[i] in times && up[j] in times;
    }
  }

  lemma {:induction false} StrictlyFalling<R>(dir: Directory<R>, times: Times, down: seq<string>)
    requires NewestFirst(times, down) && SameFiles(dir, times)
    ensures Distinct(down) && forall p :: p in down <==> p in times
    ensures forall i, j :: 0 <= i < j < |down| ==> When(times, down[i]) > When(times, down[j])
  {
    assert forall i :: 0 <= i < |down| ==> down[i] in down;
    forall i, j | 0 <= i < j < |down|
      ensures When(times, down[i]) > When(times, down[j])
    {
      assert down[i] in times && down[j] in times;
    }
  }

  lemma {:induction false} EvictedCount<R>(maxEntries: int, dir: Directory<R>, up: seq<string>, evicted: nat, left: Directory<R>)
    requires maxEntries > 0 && Enforced(Caps(maxEntries, 0.0), dir, up, evicted, left)
    ensures evicted == if |up| > maxEntries then |up| - maxEntries else 0
  {
    hide OldestFirst, SizeOf;
    if evicted > 0 {
      assert !Fits(Caps(maxEntries, 0.0), dir, up[evicted - 1..]);
    }
  }
}
