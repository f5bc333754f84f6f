/** Tries over names, and what an insertion changes. */
module Trie {
  import opened Common

  datatype Node = Node(children: map<char, Node>, names: seq<string>)

  const EMPTY := Node(map[], [])

  /** The node reached by spelling `path` from `t`. */
  function At(t: Node, path: string): Option<Node>
    decreases |path|
  {
    if path == "" then Some(t)
    else if path[0] in t.children then At(t.children[path[0]], path[1..])
    else None
  }

  /** Walks down `path`, adding missing nodes, and appends `name` at its end. */
  function AddName(t: Node, path: string, name: string): Node
    decreases |path|
  {
    if path == "" then Node(t.children, t.names + [name])
    else
      var child := if path[0] in t.children then t.children[path[0]] else EMPTY;
      Node(t.children[path[0] := AddName(child, path[1..], name)], t.names)
  }

  /** `t` stores exactly the names in `names`, all of length `len`, each at the node it spells. */
  ghost predicate Stores(t: Node, names: set<string>, len: nat) {
    && (forall n :: n in names ==> |n| == len && At(t, n).Some?)
    && (forall p :: At(t, p).Some? ==> |p| <= len && At(t, p).value.names == if p in names then [p] else [])
  }

  function NamesAt(t: Node, p: string): seq<string> {
    if At(t, p).Some? then At(t, p).value.names else []
  }

  lemma {:induction false} AtAddName(t: Node, path: string, name: string, p: string)
    ensures At(AddName(t, path, name), p).Some? <==> At(t, p).Some? || p <= path
    ensures NamesAt(AddName(t, path, name), p) == NamesAt(t, p) + if p == path then [name] else []
    decreases |path|
  {
    if path != "" && p != "" {
      if p[0] == path[0] {
        var child := if path[0] in t.children then t.children[path[0]] else EMPTY;
        AtAddName(child, path[1..], name, p[1..]);
        assert p == [p[0]] + p[1..] && path == [path[0]] + path[1..];
      }
    }
  }

  lemma {:induction false} AddNameStores(t: Node, names: set<string>, len: nat, name: string)
    requires Stores(t, names, len) && |name| == len && name !in names
    ensures Stores(AddName(t, name, name), names + {name}, len)
  {
    var r := AddName(t, name, name);
    forall p
      ensures At(r, p).Some? <==> At(t, p).Some? || p <= name
      ensures At(r, p).Some? ==> |p| <= len && At(r, p).value.names == if p in names + {name} then [p] else []
    {
      AtAddName(t, name, name, p);
      assert At(r, p).Some? ==> At(r, p).value.names == NamesAt(r, p);
    }
    assert name <= name;
  }

  lemma {:induction false} AtExtend(t: Node, p: string, c: char)
    requires At(t, p).Some?
    ensures At(t, p + [c]) == if c in At(t, p).value.children then Some(At(t, p).value.children[c]) else None
    decreases |p|
  {
    if p != "" {
      AtExtend(t.children[p[0]], p[1..], c);
      assert (p + [c])[1..] == p[1..] + [c];
    } else {
      assert p + [c] == [c];
      assert [c][1..] == "";
    }
  }

  lemma {:induction false} AtPrefix(t: Node, p: string, q: string)
    requires p <= q && At(t, q).Some?
    ensures At(t, p).Some?
    decreases |p|
  {
    if p != "" {
      AtPrefix(t.children[p[0]], p[1..], q[1..]);
    }
  }

  /** All spellable paths, a finite set. */
  function Paths(t: Node): set<string> {
    {""} + set c, p | c in t.children && p in Paths(t.children[c]) :: [c] + p
  }

  lemma {:induction false} PathsAreSpelled(t: Node, p: string)
    ensures p in Paths(t) <==> At(t, p).Some?
    decreases |p|
  {
    if p != "" {
      assert p == [p[0]] + p[1..];
      if p[0] in t.children {
        PathsAreSpelled(t.children[p[0]], p[1..]);
      }
      if p in Paths(t) {
        var c, q :| c in t.children && q in Paths(t.children[c]) && p == [c] + q;
        assert q == p[1..];
      }
    }
  }
}
