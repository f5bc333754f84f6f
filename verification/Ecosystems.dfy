/** Bounded search of a directory tree for ecosystem manifests. */
module Ecosystems {
  import opened Common

  /** A file-system object: a file or other leaf, a symbolic link, or a directory, which may be unreadable. */
  datatype Node = File | Symlink | Dir(readable: bool, entries: seq<Entry>)

  datatype Entry = Entry(name: string, node: Node)

  /** Manifest names and marker directories per ecosystem, and directories not to enter. */
  datatype Config = Config(manifests: map<string, set<string>>, dirMarkers: map<string, set<string>>, skip: set<string>)

  const DETECT_MAX_DEPTH := 5

  function Markers(cfg: Config, eco: string): set<string> {
    if eco in cfg.dirMarkers then cfg.dirMarkers[eco] else {}
  }

  function Names(entries: seq<Entry>): set<string> {
    set i | 0 <= i < |entries| :: entries[i].name
  }

  predicate EndsWith(s: string, suffix: string) {
    |s| >= |suffix| && s[|s| - |suffix|..] == suffix
  }

  /** A directory listing shows the ecosystem. */
  predicate Hit(cfg: Config, eco: string, names: set<string>)
    requires eco in cfg.manifests
  {
    || cfg.manifests[eco] * names != {}
    || Markers(cfg, eco) * names != {}
    || (eco == "nuget" && exists n :: n in names && EndsWith(n, ".csproj"))
  }

  /** One of the entries is a manifest or a marker directory of the ecosystem, or, for NuGet, a project file. */
  ghost predicate Lists(cfg: Config, eco: string, entries: seq<Entry>)
    requires eco in cfg.manifests
  {
    exists i :: 0 <= i < |entries| &&
      (|| entries[i].name in cfg.manifests[eco]
       || (eco in cfg.dirMarkers && entries[i].name in cfg.dirMarkers[eco])
       || (eco == "nuget" && exists stem :: entries[i].name == stem + ".csproj"))
  }

  lemma {:induction false} EndsWithIff(s: string, suffix: string)
    ensures EndsWith(s, suffix) <==> exists stem :: s == stem + suffix
  {
    if EndsWith(s, suffix) {
      assert s == s[..|s| - |suffix|] + suffix;
    }
  }

  lemma {:induction false} HitIffListed(cfg: Config, eco: string, entries: seq<Entry>)
    requires eco in cfg.manifests
    ensures Hit(cfg, eco, Names(entries)) <==> Lists(cfg, eco, entries)
  {
    hide EndsWith;
    var names := Names(entries);
    forall s ensures EndsWith(s, ".csproj") <==> exists stem :: s == stem + ".csproj" { EndsWithIff(s, ".csproj"); }
    if Lists(cfg, eco, entries) {
      var i :| 0 <= i < |entries| &&
        (|| entries[i].name in cfg.manifests[eco]
         || (eco in cfg.dirMarkers && entries[i].name in cfg.dirMarkers[eco])
         || (eco == "nuget" && exists stem :: entries[i].name == stem + ".csproj"));
      var n := entries[i].name;
      assert n in names;
      assert n in cfg.manifests[eco] ==> n in cfg.manifests[eco] * names;
      assert n in Markers(cfg, eco) ==> n in Markers(cfg, eco) * names;
    }
    if Hit(cfg, eco, names) {
      var n :| n in names && (n in cfg.manifests[eco] || n in Markers(cfg, eco) || (eco == "nuget" && EndsWith(n, ".csproj")));
      var i :| 0 <= i < |entries| && entries[i].name == n;
    }
  }

  predicate Descends(cfg: Config, e: Entry) {
    && e.node.Dir? && e.name !in cfg.skip
    && ("npm" in cfg.dirMarkers ==> e.name !in cfg.dirMarkers["npm"])
    && ("pypi" in cfg.dirMarkers ==> e.name !in cfg.dirMarkers["pypi"])
  }

  // ---------------------------------------------------------------- what should be found

  /** The directory reached by entering, at each level, the entry with the given index. */
  function NodeAt(cfg: Config, n: Node, path: seq<nat>): Option<Node>
    decreases |path|
  {
    if path == [] then Some(n)
    else if n.Dir? && n.readable && path[0] < |n.entries| && Descends(cfg, n.entries[path[0]])
    then NodeAt(cfg, n.entries[path[0]].node, path[1..])
    else None
  }

  ghost predicate Shows(cfg: Config, n: Node, eco: string)
    requires eco in cfg.manifests
  {
    n.Dir? && n.readable && Lists(cfg, eco, n.entries)
  }

  /** Some directory within `budget` steps below `n` shows the ecosystem. */
  ghost predicate Within(cfg: Config, n: Node, budget: int, eco: string)
    requires eco in cfg.manifests
  {
    exists path: seq<nat> :: |path| <= budget && NodeAt(cfg, n, path).Some? && Shows(cfg, NodeAt(cfg, n, path).value, eco)
  }

  /** A directory shows it, or one of the entered subdirectories has it within one step less. */
  lemma {:induction false} WithinStep(cfg: Config, n: Node, budget: int, eco: string)
    requires eco in cfg.manifests
    ensures Within(cfg, n, budget, eco) <==>
              budget >= 0 && n.Dir? && n.readable &&
              (Hit(cfg, eco, Names(n.entries)) ||
               exists i :: 0 <= i < |n.entries| && Descends(cfg, n.entries[i]) && Within(cfg, n.entries[i].node, budget - 1, eco))
  {
    hide Hit, Lists, Descends;
    if n.Dir? {
      HitIffListed(cfg, eco, n.entries);
    }
    if Within(cfg, n, budget, eco) {
      var path: seq<nat> :| |path| <= budget && NodeAt(cfg, n, path).Some? && Shows(cfg, NodeAt(cfg, n, path).value, eco);
      if path != [] {
        var child := n.entries[path[0]].node;
        assert NodeAt(cfg, child, path[1..]) == NodeAt(cfg, n, path) && |path[1..]| <= budget - 1;
        assert Within(cfg, child, budget - 1, eco);
      }
    }
    if budget >= 0 && n.Dir? && n.readable {
      if Hit(cfg, eco, Names(n.entries)) {
        assert NodeAt(cfg, n, []) == Some(n);
      }
      if i :| 0 <= i < |n.entries| && Descends(cfg, n.entries[i]) && Within(cfg, n.entries[i].node, budget - 1, eco) {
        var path: seq<nat> :| |path| <= budget - 1 && NodeAt(cfg, n.entries[i].node, path).Some?
                              && Shows(cfg, NodeAt(cfg, n.entries[i].node, path).value, eco);
        assert ([i] + path)[1..] == path;
        assert NodeAt(cfg, n, [i] + path) == NodeAt(cfg, n.entries[i].node, path);
      }
    }
  }

  // ---------------------------------------------------------------- the worklist

  datatype Item = Item(node: Node, depth: nat)

  function Size(n: Node): nat
    decreases n, 1
  {
    if n.Dir? then 1 + SizeAll(n.entries) else 1
  }

  function SizeAll(entries: seq<Entry>): nat
    decreases entries, 0
  {
    if entries == [] then 0 else Size(entries[0].node) + SizeAll(entries[1..])
  }

  function StackSize(stack: seq<Item>): nat {
    if stack == [] then 0 else StackSize(stack[..|stack| - 1]) + Size(stack[|stack| - 1].node)
  }

  /** Some item still to be visited leads to the ecosystem. */
  ghost predicate Pending(cfg: Config, stack: seq<Item>, eco: string)
    requires eco in cfg.manifests
  {
    exists k :: 0 <= k < |stack| && Within(cfg, stack[k].node, DETECT_MAX_DEPTH - stack[k].depth, eco)
  }

  lemma {:induction false} PendingPush(cfg: Config, stack: seq<Item>, item: Item, eco: string)
    requires eco in cfg.manifests
    ensures Pending(cfg, stack + [item], eco) <==>
              Pending(cfg, stack, eco) || Within(cfg, item.node, DETECT_MAX_DEPTH - item.depth, eco)
  {
    hide Within;
    var s := stack + [item];
    if k :| 0 <= k < |s| && Within(cfg, s[k].node, DETECT_MAX_DEPTH - s[k].depth, eco) {
      if k < |stack| {
        assert s[k] == stack[k];
      }
    }
    if k :| 0 <= k < |stack| && Within(cfg, stack[k].node, DETECT_MAX_DEPTH - stack[k].depth, eco) {
      assert s[k] == stack[k];
    }
    assert s[|stack|] == item;
  }

  ghost predicate SomeEntered(cfg: Config, entries: seq<Entry>, upTo: nat, depth: nat, eco: string)
    requires eco in cfg.manifests && upTo <= |entries|
  {
    exists i :: 0 <= i < upTo && Descends(cfg, entries[i]) && Within(cfg, entries[i].node, DETECT_MAX_DEPTH - (depth + 1), eco)
  }

  /** The subdirectories to enter, in listing order. */
  function Entered(cfg: Config, entries: seq<Entry>, depth: nat): seq<Item> {
    if entries == [] then []
    else
      var last := entries[|entries| - 1];
      Entered(cfg, entries[..|entries| - 1], depth) + if Descends(cfg, last) then [Item(last.node, depth + 1)] else []
  }

  lemma {:induction false} EnteredNext(cfg: Config, entries: seq<Entry>, i: nat, depth: nat)
    requires i < |entries|
    ensures Entered(cfg, entries[..i + 1], depth)
         == Entered(cfg, entries[..i], depth) + if Descends(cfg, entries[i]) then [Item(entries[i].node, depth + 1)] else []
  {
    hide Descends;
    assert entries[..i + 1][..i] == entries[..i];
  }

  /** Pushes the subdirectories to enter. */
  method PushChildren(cfg: Config, stack: seq<Item>, entries: seq<Entry>, depth: nat) returns (r: seq<Item>)
    ensures r == stack + Entered(cfg, entries, depth)
    ensures StackSize(r) <= StackSize(stack) + SizeAll(entries)
    ensures forall eco :: eco in cfg.manifests ==>
              (Pending(cfg, r, eco) <==> Pending(cfg, stack, eco) || SomeEntered(cfg, entries, |entries|, depth, eco))
  {
    hide Within, Pending;
    r := stack;
    assert Entered(cfg, entries[..0], depth) == [];
    assert entries[0..] == entries;
    for i := 0 to |entries|
      invariant r == stack + Entered(cfg, entries[..i], depth)
      invariant StackSize(r) + SizeAll(entries[i..]) <= StackSize(stack) + SizeAll(entries)
      invariant forall eco :: eco in cfg.manifests ==>
                  (Pending(cfg, r, eco) <==> Pending(cfg, stack, eco) || SomeEntered(cfg, entries, i, depth, eco))
    {
      var entry := entries[i];
      EnteredNext(cfg, entries, i, depth);
      forall eco | eco in cfg.manifests
        ensures SomeEntered(cfg, entries, i + 1, depth, eco) <==>
                  SomeEntered(cfg, entries, i, depth, eco)
                  || (Descends(cfg, entry) && Within(cfg, entry.node, DETECT_MAX_DEPTH - (depth + 1), eco))
      {
      }
      if entry.node.Symlink? || !entry.node.Dir? {
        assert !Descends(cfg, entry) by { EntersDirectoriesOnly(cfg, entry); }
        continue;
      }
      if entry.name in cfg.skip || entry.name in Markers(cfg, "npm") + Markers(cfg, "pypi") {
        assert !Descends(cfg, entry);
        continue;
      }
      assert Descends(cfg, entry);
      var item := Item(entry.node, depth + 1);
      forall eco | eco in cfg.manifests
        ensures Pending(cfg, r + [item], eco) <==>
                  Pending(cfg, r, eco) || Within(cfg, entry.node, DETECT_MAX_DEPTH - (depth + 1), eco)
      {
        PendingPush(cfg, r, item, eco);
      }
      r := r + [item];
    }
    assert SizeAll(entries[|entries|..]) == 0 && entries[..|entries|] == entries;
  }

  lemma {:induction false} EntersDirectoriesOnly(cfg: Config, e: Entry)
    ensures !e.node.Dir? ==> !Descends(cfg, e)
  {
  }

  /** Moves the ecosystems that a listing shows from `remaining` to `found`. */
  method TakeHits(cfg: Config, names: set<string>, found: set<string>, remaining: set<string>)
    returns (found': set<string>, remaining': set<string>)
    requires remaining <= cfg.manifests.Keys
    ensures found' == found + set eco | eco in remaining && Hit(cfg, eco, names)
    ensures remaining' == set eco | eco in remaining && !Hit(cfg, eco, names)
  {
    found', remaining' := found, remaining;
    var todo := remaining;
    while todo != {}
      invariant todo <= remaining
      invariant found' == found + set eco | eco in remaining - todo && Hit(cfg, eco, names)
      invariant remaining' == todo + set eco | eco in remaining - todo && !Hit(cfg, eco, names)
      decreases todo
    {
      var eco :| eco in todo;
      if Hit(cfg, eco, names) {
        found' := found' + {eco};
        remaining' := remaining' - {eco};
      }
      todo := todo - {eco};
    }
  }

  /** What is found plus what lies below the stack is the answer. */
  ghost predicate Searching(cfg: Config, root: Node, stack: seq<Item>, found: set<string>, remaining: set<string>) {
    && found + remaining == cfg.manifests.Keys && found !! remaining
    && (forall eco :: eco in found ==> Within(cfg, root, DETECT_MAX_DEPTH, eco))
    && (forall eco :: eco in remaining ==> (Within(cfg, root, DETECT_MAX_DEPTH, eco) <==> Pending(cfg, stack, eco)))
  }

  lemma {:induction false} SearchStep(cfg: Config, root: Node, rest: seq<Item>, item: Item, found: set<string>, remaining: set<string>,
                   stack': seq<Item>, found': set<string>, remaining': set<string>)
    requires Searching(cfg, root, rest + [item], found, remaining)
    requires item.depth <= DETECT_MAX_DEPTH && item.node.Dir? && item.node.readable
    requires found' == found + set eco | eco in remaining && Hit(cfg, eco, Names(item.node.entries))
    requires remaining' == set eco | eco in remaining && !Hit(cfg, eco, Names(item.node.entries))
    requires forall eco :: eco in cfg.manifests ==>
               (Pending(cfg, stack', eco) <==>
                Pending(cfg, rest, eco) || SomeEntered(cfg, item.node.entries, |item.node.entries|, item.depth, eco))
    ensures Searching(cfg, root, stack', found', remaining')
  {
    hide Within, Hit, Descends, Pending;
    forall eco | eco in remaining
      ensures Hit(cfg, eco, Names(item.node.entries)) ==> Pending(cfg, rest + [item], eco)
      ensures !Hit(cfg, eco, Names(item.node.entries)) ==> (Pending(cfg, rest + [item], eco) <==> Pending(cfg, stack', eco))
    {
      PendingPush(cfg, rest, item, eco);
      WithinStep(cfg, item.node, DETECT_MAX_DEPTH - item.depth, eco);
    }
  }

  lemma {:induction false} SkipStep(cfg: Config, root: Node, rest: seq<Item>, item: Item, found: set<string>, remaining: set<string>)
    requires Searching(cfg, root, rest + [item], found, remaining)
    requires item.depth > DETECT_MAX_DEPTH || !item.node.Dir? || !item.node.readable
    ensures Searching(cfg, root, rest, found, remaining)
  {
    hide Within, Hit, Pending;
    forall eco | eco in remaining
      ensures Pending(cfg, rest + [item], eco) <==> Pending(cfg, rest, eco)
    {
      PendingPush(cfg, rest, item, eco);
      WithinStep(cfg, item.node, DETECT_MAX_DEPTH - item.depth, eco);
    }
  }

  lemma {:induction false} SearchStarts(cfg: Config, target: Node)
    ensures Searching(cfg, target, [Item(target, 0)], {}, cfg.manifests.Keys)
  {
    hide Within;
    forall eco | eco in cfg.manifests
      ensures Pending(cfg, [Item(target, 0)], eco) <==> Within(cfg, target, DETECT_MAX_DEPTH, eco)
    {
      PendingPush(cfg, [], Item(target, 0), eco);
      assert [] + [Item(target, 0)] == [Item(target, 0)];
    }
  }

  /** When a listing shows everything that was still missing, nothing below it is needed. */
  lemma {:induction false} LastHits(cfg: Config, root: Node, rest: seq<Item>, item: Item, found: set<string>, remaining: set<string>)
    requires Searching(cfg, root, rest + [item], found, remaining)
    requires item.depth <= DETECT_MAX_DEPTH && item.node.Dir? && item.node.readable
    requires forall eco :: eco in remaining ==> Hit(cfg, eco, Names(item.node.entries))
    ensures forall eco :: eco in cfg.manifests ==> Within(cfg, root, DETECT_MAX_DEPTH, eco)
  {
    hide Within, Hit, Pending;
    forall eco | eco in remaining
      ensures Pending(cfg, rest + [item], eco)
    {
      PendingPush(cfg, rest, item, eco);
      WithinStep(cfg, item.node, DETECT_MAX_DEPTH - item.depth, eco);
    }
  }

  /** Terminates on every tree and, early exit and all, returns exactly the ecosystems shown by some
      directory at depth at most five. */
  method DetectEcosystems(cfg: Config, target: Node) returns (found: set<string>)
    ensures forall eco :: eco in found <==> eco in cfg.manifests && Within(cfg, target, 5, eco)
  {
    hide Within, Hit, SizeAll;
    var remaining := cfg.manifests.Keys;
    found := {};
    var stack := [Item(target, 0)];
    SearchStarts(cfg, target);
    while stack != [] && remaining != {}
      invariant Searching(cfg, target, stack, found, remaining)
      decreases StackSize(stack)
    {
      var item := stack[|stack| - 1];
      var rest := stack[..|stack| - 1];
      assert stack == rest + [item];
      stack := rest;
      if item.depth > DETECT_MAX_DEPTH {
        SkipStep(cfg, target, rest, item, found, remaining);
        continue;
      }
      if !item.node.Dir? || !item.node.readable {
        SkipStep(cfg, target, rest, item, found, remaining);
        continue;
      }
      var entries := item.node.entries;
      ghost var found0, remaining0 := found, remaining;
      found, remaining := TakeHits(cfg, Names(entries), found, remaining);
      if remaining == {} {
        LastHits(cfg, target, rest, item, found0, remaining0);
        return;
      }
      stack := PushChildren(cfg, stack, entries, item.depth);
      SearchStep(cfg, target, rest, item, found0, remaining0, stack, found, remaining);
    }
  }
}
