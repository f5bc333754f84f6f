/** The banded depth-first walk over one trie reports exactly the names within the limit. */
module TrieSearch {
  import opened Common
  import opened EditDistance
  import opened Keyboard
  import opened Sorting
  import opened Trie

  datatype Match = Match(name: string, dist: real)

  ghost predicate Near(m: Metric, query: string, maxd: real, name: string) {
    name != query && Weighted(m, name, query) <= maxd
  }

  /** `found` lists, once each and with its distance, the names of the set near the query. */
  ghost predicate Reports(found: seq<Match>, names: set<string>, m: Metric, query: string, maxd: real) {
    && (forall x :: x in found ==>
          x.name in names && Near(m, query, maxd, x.name) && x.dist == Weighted(m, x.name, query))
    && (forall n :: n in names && Near(m, query, maxd, n) ==> Match(n, Weighted(m, n, query)) in found)
    && Distinct(found)
  }

  /** Python's `int` of a float. */
  function Truncate(x: real): int {
    if x >= 0.0 then x.Floor else -((-x).Floor)
  }

  // ---------------------------------------------------------------- rows

  /** A computed cell may be wrong only where both it and the true value exceed the limit. */
  predicate Agrees(cell: real, exact: real, maxd: real) {
    cell <= maxd || exact <= maxd ==> cell == exact
  }

  /** A right cell of column `j` of the row of `p`. */
  ghost predicate CellAt(m: Metric, cell: real, p: string, query: string, j: int, maxd: real) {
    0 <= j <= |query| && Agrees(cell, Weighted(m, p, query[..j]), maxd)
  }

  ghost predicate IsBandedRow(m: Metric, row: seq<real>, p: string, query: string, maxd: real) {
    |row| == |query| + 1 && forall j :: 0 <= j < |row| ==> CellAt(m, row[j], p, query, j, maxd)
  }

  /** Some true cell of the row of `p` is within the limit. */
  ghost predicate RowAlive(m: Metric, p: string, query: string, maxd: real) {
    exists j :: 0 <= j <= |query| && Weighted(m, p, query[..j]) <= maxd
  }

  lemma {:induction false} AliveShows(m: Metric, row: seq<real>, p: string, query: string, maxd: real)
    requires IsBandedRow(m, row, p, query, maxd) && RowAlive(m, p, query, maxd)
    ensures exists j :: 0 <= j < |row| && row[j] <= maxd
  {
    hide Weighted;
    var j :| 0 <= j <= |query| && Weighted(m, p, query[..j]) <= maxd;
    assert CellAt(m, row[j], p, query, j, maxd);
  }

  /** Cells outside the band exceed the limit. */
  lemma {:induction false} OutsideBand(m: Metric, p: string, query: string, j: nat, maxd: real)
    requires j <= |query| && maxd > -1.0
    requires |p| - j > Truncate(maxd) + 1 || j - |p| > Truncate(maxd) + 1
    ensures Weighted(m, p, query[..j]) > maxd
  {
    WeightedBounds(m, p, query[..j]);
  }

  /** A cell computed from three right cells is right. */
  lemma {:induction false} NextCell(m: Metric, prev: seq<real>, left: real, p: string, ch: char, query: string, j: nat, maxd: real)
    requires IsBandedRow(m, prev, p, query, maxd) && 1 <= j <= |query| && CellAt(m, left, p + [ch], query, j - 1, maxd)
    ensures
      var val := MinReal(MinReal(prev[j] + 1.0, left + 1.0), prev[j - 1] + Substitution(m, ch, query[j - 1]));
      CellAt(m, val, p + [ch], query, j, maxd)
  {
    hide Weighted;
    var p' := p + [ch];
    assert Init(p') == p && Last(p') == ch;
    WeightedCell(m, p', query, j - 1);
    assert CellAt(m, prev[j], p, query, j, maxd) && CellAt(m, prev[j - 1], p, query, j - 1, maxd);
  }

  /** The untouched cells of a fresh row are right: column 0 is exact, the rest is outside the band. */
  lemma {:induction false} FringeAgrees(m: Metric, p: string, query: string, maxd: real, row: seq<real>)
    requires maxd > -1.0 && |row| == |query| + 1 && row[0] == |p| as real
    requires forall k :: 1 <= k <= |query| ==> row[k] == maxd + 1.0
    ensures forall k :: 0 <= k <= |query| && (k == 0 || |p| - k > Truncate(maxd) + 1 || k - |p| > Truncate(maxd) + 1)
              ==> CellAt(m, row[k], p, query, k, maxd)
  {
    hide Weighted;
    assert query[..0] == "";
    WeightedEmpty(m, p);
    forall k | 1 <= k <= |query| && (|p| - k > Truncate(maxd) + 1 || k - |p| > Truncate(maxd) + 1)
      ensures CellAt(m, row[k], p, query, k, maxd)
    {
      OutsideBand(m, p, query, k, maxd);
    }
  }

  /** One banded row for the child reached by `ch`; `low` is at most the limit exactly when some
      true cell of the row is. */
  method BandedRow(m: Metric, prev: seq<real>, depth: nat, ghost p: string, ch: char, query: string, maxd: real)
    returns (cur: seq<real>, low: real)
    requires IsBandedRow(m, prev, p, query, maxd) && maxd > -1.0
    requires |p| == depth <= |query| + Truncate(maxd)
    ensures IsBandedRow(m, cur, p + [ch], query, maxd)
    ensures low <= maxd <==> RowAlive(m, p + [ch], query, maxd)
  {
    hide Weighted, Substitution;
    ghost var p' := p + [ch];
    assert |prev| == |query| + 1;
    var sentinel := maxd + 1.0;
    var band := Truncate(maxd) + 1;
    assert band >= 1;
    var i := depth + 1;
    var lo := if i - band < 1 then 1 else i - band;
    var hi := if i + band > |query| then |query| else i + band;
    cur := seq(|query| + 1, _ => sentinel)[0 := i as real];
    low := MinReal(sentinel, i as real);
    FringeAgrees(m, p', query, maxd, cur);
    var prevJ := prev[lo - 1];
    for j := lo to hi + 1
      invariant |cur| == |query| + 1 && prevJ == prev[j - 1]
      invariant forall k :: 0 <= k < j || hi < k <= |query| ==> CellAt(m, cur[k], p', query, k, maxd)
      invariant forall k :: 0 <= k <= |query| ==> low <= cur[k]
      invariant low <= maxd ==> RowAlive(m, p', query, maxd)
    {
      NextCell(m, prev, cur[j - 1], p, ch, query, j, maxd);
      var pj := prev[j];
      var val := pj + 1.0;
      var deletion := cur[j - 1] + 1.0;
      if deletion < val {
        val := deletion;
      }
      var substitution := prevJ + Substitution(m, ch, query[j - 1]);
      if substitution < val {
        val := substitution;
      }
      cur := cur[j := val];
      if val < low {
        low := val;
      }
      prevJ := pj;
    }
    assert IsBandedRow(m, cur, p', query, maxd);
    if RowAlive(m, p', query, maxd) {
      AliveShows(m, cur, p', query, maxd);
    }
  }

  // ---------------------------------------------------------------- pruning

  lemma {:induction false} DeadRowStep(m: Metric, e: string, query: string, maxd: real, k: nat)
    requires |e| > 0 && k <= |query|
    requires forall j :: 0 <= j <= |query| ==> Weighted(m, Init(e), query[..j]) > maxd
    ensures Weighted(m, e, query[..k]) > maxd
    decreases k
  {
    hide Weighted;
    if k == 0 {
      assert query[..0] == "";
      WeightedEmpty(m, e);
      WeightedEmpty(m, Init(e));
      assert Weighted(m, Init(e), query[..0]) > maxd;
    } else {
      DeadRowStep(m, e, query, maxd, k - 1);
      WeightedCell(m, e, query, k - 1);
      assert Weighted(m, Init(e), query[..k - 1]) > maxd && Weighted(m, Init(e), query[..k]) > maxd;
    }
  }

  /** No extension of a path comes back under the limit once its whole row exceeds it. */
  lemma {:induction false} DeadRowStaysDead(m: Metric, p: string, e: string, query: string, maxd: real)
    requires p <= e
    requires forall j :: 0 <= j <= |query| ==> Weighted(m, p, query[..j]) > maxd
    ensures forall j :: 0 <= j <= |query| ==> Weighted(m, e, query[..j]) > maxd
    decreases |e|
  {
    hide Weighted;
    if p != e {
      assert p <= Init(e);
      DeadRowStaysDead(m, p, Init(e), query, maxd);
      forall j | 0 <= j <= |query| ensures Weighted(m, e, query[..j]) > maxd { DeadRowStep(m, e, query, maxd, j); }
    }
  }

  // ---------------------------------------------------------------- the walk

  /** A stack entry. */
  datatype Frame = Frame(node: Node, row: seq<real>, depth: nat)

  /** What is fixed during one walk. */
  datatype Walk = Walk(root: Node, ghost names: set<string>, ghost len: nat, metric: Metric, query: string, maxd: real)

  ghost predicate ValidWalk(w: Walk) {
    Stores(w.root, w.names, w.len) && w.maxd > -1.0 && w.len <= |w.query| + Truncate(w.maxd)
  }

  ghost predicate FrameAt(w: Walk, f: Frame, p: string) {
    At(w.root, p) == Some(f.node) && f.depth == |p| && IsBandedRow(w.metric, f.row, p, w.query, w.maxd)
  }

  ghost predicate FramesAt(w: Walk, fs: seq<Frame>, ps: seq<string>) {
    |fs| == |ps| && forall k :: 0 <= k < |fs| ==> FrameAt(w, fs[k], ps[k])
  }

  /** Nothing below `p` is near the query. */
  ghost predicate Dead(w: Walk, p: string) {
    forall e :: p <= e ==> Weighted(w.metric, e, w.query) > w.maxd
  }

  ghost predicate Covers(ps: seq<string>, e: string) {
    exists k :: 0 <= k < |ps| && ps[k] <= e
  }

  /** No path is a prefix of another. */
  ghost predicate Apart(ps: seq<string>) {
    forall i, j :: 0 <= i < |ps| && 0 <= j < |ps| && i != j ==> !(ps[i] <= ps[j])
  }

  /** The paths are those of distinct children of `p`. */
  ghost predicate ChildrenOf(p: string, ps: seq<string>) {
    && (forall k :: 0 <= k < |ps| ==> |ps[k]| == |p| + 1 && p <= ps[k])
    && Distinct(ps)
  }

  /** `fs` are frames of distinct children `ps` of `p`, and every other child leads to nothing. */
  ghost predicate Expanded(w: Walk, f: Frame, p: string, fs: seq<Frame>, ps: seq<string>) {
    && FramesAt(w, fs, ps) && ChildrenOf(p, ps)
    && forall c :: c in f.node.children ==> p + [c] in ps || Dead(w, p + [c])
  }

  /** Pushes the children whose row has a cell within the limit. */
  method Expand(w: Walk, f: Frame, ghost p: string) returns (fs: seq<Frame>)
    requires ValidWalk(w) && FrameAt(w, f, p)
    ensures exists ps :: Expanded(w, f, p, fs, ps)
  {
    hide Weighted, Stores, IsBandedRow, At, Truncate, Dead;
    fs := [];
    ghost var ps := [];
    var rest := f.node.children.Keys;
    while rest != {}
      invariant rest <= f.node.children.Keys
      invariant FramesAt(w, fs, ps) && ChildrenOf(p, ps)
      invariant forall c :: c in rest ==> p + [c] !in ps
      invariant forall c :: c in f.node.children && c !in rest ==> p + [c] in ps || Dead(w, p + [c])
      decreases rest
    {
      var c :| c in rest;
      assert At(w.root, p + [c]) == Some(f.node.children[c]) by { AtExtend(w.root, p, c); }
      assert |p| <= |w.query| + Truncate(w.maxd) by { PathsAreShort(w, p); }
      assert IsBandedRow(w.metric, f.row, p, w.query, w.maxd);
      var row, low := BandedRow(w.metric, f.row, f.depth, p, c, w.query, w.maxd);
      forall d | d in rest && d != c ensures p + [d] != p + [c] {
        assert (p + [d])[|p|] == d && (p + [c])[|p|] == c;
      }
      if low <= w.maxd {
        fs := fs + [Frame(f.node.children[c], row, f.depth + 1)];
        ps := ps + [p + [c]];
      } else {
        PrunedIsDead(w, p + [c]);
      }
      rest := rest - {c};
    }
    assert Expanded(w, f, p, fs, ps);
  }

  lemma {:induction false} PathsAreShort(w: Walk, p: string)
    requires ValidWalk(w) && At(w.root, p).Some?
    ensures |p| <= |w.query| + Truncate(w.maxd)
  {
  }

  lemma {:induction false} PrunedIsDead(w: Walk, p: string)
    requires forall j :: 0 <= j <= |w.query| ==> Weighted(w.metric, p, w.query[..j]) > w.maxd
    ensures Dead(w, p)
  {
    forall e | p <= e
      ensures Weighted(w.metric, e, w.query) > w.maxd
    {
      DeadRowStaysDead(w.metric, p, e, w.query, w.maxd);
      assert w.query[..|w.query|] == w.query;
    }
  }

  /** The names kept at a node, reported with the last cell of its row. */
  method Emit(names: seq<string>, query: string, dist: real, maxd: real) returns (out: seq<Match>)
    ensures names == [] ==> out == []
    ensures |names| == 1 ==> out == if names[0] != query && dist <= maxd then [Match(names[0], dist)] else []
  {
    out := [];
    for i := 0 to |names|
      invariant i == 0 ==> out == []
      invariant i == 1 ==> out == if names[0] != query && dist <= maxd then [Match(names[0], dist)] else []
    {
      if names[i] == query {
        continue;
      }
      if dist <= maxd {
        out := out + [Match(names[i], dist)];
      }
    }
  }

  /** Found so far, plus whatever lies below the stack, is the whole answer. */
  ghost predicate Progress(w: Walk, found: seq<Match>, ps: seq<string>) {
    && (forall x :: x in found ==>
          x.name in w.names && Near(w.metric, w.query, w.maxd, x.name) && x.dist == Weighted(w.metric, x.name, w.query)
          && !Covers(ps, x.name))
    && (forall n :: n in w.names && Near(w.metric, w.query, w.maxd, n) && !Covers(ps, n) ==>
          Match(n, Weighted(w.metric, n, w.query)) in found)
    && Distinct(found) && Apart(ps)
  }

  lemma {:induction false} ReplaceByChildren(ps: seq<string>, p: string, qs: seq<string>)
    requires Apart(ps + [p]) && ChildrenOf(p, qs)
    ensures Apart(ps + qs)
    ensures !Covers(ps + qs, p)
    ensures forall e :: Covers(ps + qs, e) ==> Covers(ps + [p], e)
  {
    var all := ps + qs;
    assert forall i :: 0 <= i < |ps| ==> (ps + [p])[i] == ps[i];
    assert (ps + [p])[|ps|] == p;
    forall i | 0 <= i < |ps|
      ensures !(ps[i] <= p) && !(p <= ps[i])
    {
      assert !((ps + [p])[i] <= (ps + [p])[|ps|]);
    }
    forall i, j | 0 <= i < |all| && 0 <= j < |all| && i != j
      ensures !(all[i] <= all[j])
    {
      if i < |ps| && j < |ps| {
        assert !((ps + [p])[i] <= (ps + [p])[j]);
      } else if i < |ps| {
        var q := qs[j - |ps|];
        assert q[..|p|] == p;
      } else if j < |ps| {
        var q := qs[i - |ps|];
        assert q[..|p|] == p;
      } else {
        var q, r := qs[i - |ps|], qs[j - |ps|];
        assert q <= r ==> q == r;
        assert q != r;
      }
    }
    forall e | Covers(all, e)
      ensures Covers(ps + [p], e)
    {
      var k :| 0 <= k < |all| && all[k] <= e;
      if k < |ps| {
        assert (ps + [p])[k] <= e;
      } else {
        assert (ps + [p])[|ps|] <= e;
      }
    }
  }

  /** One iteration: the node's own names are reported, its live children are pushed. */
  lemma {:induction false} ProgressStep(w: Walk, found: seq<Match>, ps: seq<string>, f: Frame, p: string, out: seq<Match>, qs: seq<string>)
    requires ValidWalk(w) && FrameAt(w, f, p) && Progress(w, found, ps + [p])
    requires ChildrenOf(p, qs)
    requires forall c :: c in f.node.children ==> p + [c] in qs || Dead(w, p + [c])
    requires out == if p in w.names && p != w.query && f.row[|w.query|] <= w.maxd then [Match(p, f.row[|w.query|])] else []
    ensures Progress(w, found + out, ps + qs)
  {
    hide Weighted;
    ReplaceByChildren(ps, p, qs);
    assert w.query[..|w.query|] == w.query;
    assert Agrees(f.row[|w.query|], Weighted(w.metric, p, w.query), w.maxd);
    var all := found + out;
    assert (ps + [p])[|ps|] == p;
    forall n | n in w.names && Near(w.metric, w.query, w.maxd, n) && !Covers(ps + qs, n)
      ensures Match(n, Weighted(w.metric, n, w.query)) in all
    {
      if Covers(ps + [p], n) {
        CoveredByChildren(w, ps, f, p, qs, n);
        assert n == p;
      }
    }
    forall x | x in found
      ensures x.name != p
    {
      assert !Covers(ps + [p], x.name);
    }
    forall x | x in all
      ensures x.name in w.names && Near(w.metric, w.query, w.maxd, x.name)
      ensures x.dist == Weighted(w.metric, x.name, w.query) && !Covers(ps + qs, x.name)
    {
      assert x in found || x in out;
    }
  }

  /** A near name below a popped path is the path itself or lies below a pushed child. */
  lemma {:induction false} CoveredByChildren(w: Walk, ps: seq<string>, f: Frame, p: string, qs: seq<string>, n: string)
    requires ValidWalk(w) && FrameAt(w, f, p) && Covers(ps + [p], n)
    requires forall c :: c in f.node.children ==> p + [c] in qs || Dead(w, p + [c])
    requires n in w.names && Near(w.metric, w.query, w.maxd, n)
    ensures n == p || Covers(ps + qs, n)
  {
    hide Weighted;
    var k :| 0 <= k < |ps| + 1 && (ps + [p])[k] <= n;
    if k < |ps| {
      assert (ps + qs)[k] <= n;
    } else if n != p {
      var c := n[|p|];
      assert p + [c] <= n;
      AtPrefix(w.root, p + [c], n);
      AtExtend(w.root, p, c);
      assert p + [c] in qs;
      var i :| 0 <= i < |qs| && qs[i] == p + [c];
      assert (ps + qs)[|ps| + i] <= n;
    }
  }

  lemma {:induction false} FrameFacts(w: Walk, f: Frame, p: string)
    requires ValidWalk(w) && FrameAt(w, f, p)
    ensures |f.row| == |w.query| + 1
    ensures f.node.names == if p in w.names then [p] else []
  {
  }

  lemma {:induction false} FirstFrame(w: Walk, row: seq<real>)
    requires |row| == |w.query| + 1
    requires forall j :: 0 <= j <= |w.query| ==> row[j] == if j as real <= w.maxd then j as real else w.maxd + 1.0
    ensures FramesAt(w, [Frame(w.root, row, 0)], [""])
    ensures Progress(w, [], [""])
  {
    forall e ensures Covers([""], e) { assert [""][0] <= e; }
  }

  lemma {:induction false} AllPending(t: Node)
    ensures forall e :: At(t, e).Some? ==> e in Paths(t)
  {
    forall e | At(t, e).Some? ensures e in Paths(t) { PathsAreSpelled(t, e); }
  }

  /** The walk over one trie. */
  method SearchBanded(w: Walk) returns (found: seq<Match>)
    requires ValidWalk(w)
    ensures Reports(found, w.names, w.metric, w.query, w.maxd)
  {
    hide Weighted, IsBandedRow, Agrees, Stores, Paths, Near, Distinct, ValidWalk;
    var row := seq(|w.query| + 1, j requires 0 <= j <= |w.query| =>
      if j as real <= w.maxd then j as real else w.maxd + 1.0);
    var stack := [Frame(w.root, row, 0)];
    ghost var ps := [""];
    found := [];
    FirstFrame(w, row);
    AllPending(w.root);
    ghost var pending := Paths(w.root);
    while stack != []
      invariant FramesAt(w, stack, ps)
      invariant Progress(w, found, ps)
      invariant forall e :: Covers(ps, e) && At(w.root, e).Some? ==> e in pending
      decreases pending
    {
      var last := |stack| - 1;
      var f := stack[last];
      ghost var p := ps[last];
      assert ps == ps[..last] + [p];
      assert FrameAt(w, f, p);
      FrameFacts(w, f, p);
      var out := Emit(f.node.names, w.query, f.row[|w.query|], w.maxd);
      var fs := Expand(w, f, p);
      ghost var qs :| Expanded(w, f, p, fs, qs);
      ProgressStep(w, found, ps[..last], f, p, out, qs);
      assert Apart(ps);
      ReplaceByChildren(ps[..last], p, qs);
      pending := pending - {p};
      found := found + out;
      stack := stack[..last] + fs;
      ps := ps[..last] + qs;
    }
  }
}
