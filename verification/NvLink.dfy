/**
 NVLink grouping on a GPU host.

 `AssignGroups` runs a union-find over the edge list read from the topology
 matrix. The parent array is rewritten in place: `Find` halves paths while it
 walks, and a union hangs one root under the other without any rank, so
 nothing about indices bounds the height of a tree. A ghost depth per
 element, which every rewrite respects, is what makes the walk terminate.
 */
module NvLink {

  // --- Forests ---

  /** What one element contributes to a forest. */
  ghost predicate NodeOk(p: seq<nat>, root: seq<nat>, depth: seq<nat>, x: nat)
    requires |root| == |p| == |depth| && x < |p|
  {
    && p[x] < |p| && root[x] < |p|
    && p[root[x]] == root[x] && root[p[x]] == root[x]
    && (p[x] == x ==> root[x] == x)
    && (p[x] != x ==> depth[p[x]] < depth[x])
  }

  /** `root` and `depth` witness that the parent links `p` form a forest. */
  ghost predicate Forest(p: seq<nat>, root: seq<nat>, depth: seq<nat>) {
    |root| == |p| == |depth| && forall x :: 0 <= x < |p| ==> NodeOk(p, root, depth, x)
  }

  /** Pointing `x` at its grandparent moves no element to another root. */
  lemma HalvingKeepsForest(p: seq<nat>, root: seq<nat>, depth: seq<nat>, x: nat)
    requires Forest(p, root, depth) && x < |p|
    ensures p[x] < |p| && p[p[x]] < |p| && Forest(p[x := p[p[x]]], root, depth)
    ensures root[p[p[x]]] == root[x]
    ensures p[x] == x ==> root[x] == x
    ensures p[x] != x ==> depth[p[p[x]]] < depth[x]
  {
    assert NodeOk(p, root, depth, x);
    assert NodeOk(p, root, depth, p[x]);
    assert NodeOk(p, root, depth, p[p[x]]);
    var q := p[x := p[p[x]]];
    forall y | 0 <= y < |p| ensures NodeOk(q, root, depth, y) {
      assert NodeOk(p, root, depth, y);
      assert NodeOk(p, root, depth, root[y]);
    }
  }

  /** Walk to the root of `start`, pointing each visited element at its grandparent. */
  method Find(parent: array<nat>, start: nat, ghost root: seq<nat>, ghost depth: seq<nat>)
    returns (x: nat)
    requires start < parent.Length && Forest(parent[..], root, depth)
    modifies parent
    ensures Forest(parent[..], root, depth)
    ensures x == root[start] < parent.Length && parent[x] == x
  {
    x := start;
    HalvingKeepsForest(parent[..], root, depth, x);
    while parent[x] != x
      invariant x < parent.Length && Forest(parent[..], root, depth)
      invariant root[x] == root[start]
      invariant parent[x] == x ==> root[x] == x
      decreases depth[x]
    {
      ghost var before := parent[..];
      HalvingKeepsForest(before, root, depth, x);
      parent[x] := parent[parent[x]];
      assert parent[..] == before[x := before[before[x]]];
      x := parent[x];
      HalvingKeepsForest(parent[..], root, depth, x);
    }
  }

  ghost function JoinedRoot(root: seq<nat>, ra: nat, rb: nat): (r: seq<nat>)
    ensures |r| == |root|
  {
    seq(|root|, x requires 0 <= x < |root| => if root[x] == ra then rb else root[x])
  }

  ghost function JoinedDepth(root: seq<nat>, depth: seq<nat>, ra: nat, rb: nat): (d: seq<nat>)
    requires |root| == |depth| && rb < |depth|
    ensures |d| == |depth|
  {
    seq(|depth|, x requires 0 <= x < |depth| =>
      if root[x] == ra then depth[x] + depth[rb] + 1 else depth[x])
  }

  /** Hanging root `ra` under root `rb` gives a forest again. */
  lemma JoinKeepsForest(p: seq<nat>, root: seq<nat>, depth: seq<nat>, ra: nat, rb: nat)
    requires Forest(p, root, depth) && ra < |p| && rb < |p| && ra != rb
    requires p[ra] == ra && p[rb] == rb
    ensures Forest(p[ra := rb], JoinedRoot(root, ra, rb), JoinedDepth(root, depth, ra, rb))
  {
    assert NodeOk(p, root, depth, ra) && NodeOk(p, root, depth, rb);
    var q, r, d := p[ra := rb], JoinedRoot(root, ra, rb), JoinedDepth(root, depth, ra, rb);
    forall x | 0 <= x < |p| ensures NodeOk(q, r, d, x) {
      assert NodeOk(p, root, depth, x);
      assert NodeOk(p, root, depth, root[x]);
    }
  }

  // --- Connectivity ---

  ghost predicate Adjacent(edges: seq<(nat, nat)>, x: nat, y: nat) {
    (x, y) in edges || (y, x) in edges
  }

  ghost predicate IsPath(edges: seq<(nat, nat)>, path: seq<nat>) {
    path != [] && forall k :: 0 <= k < |path| - 1 ==> Adjacent(edges, path[k], path[k + 1])
  }

  ghost predicate Joins(edges: seq<(nat, nat)>, path: seq<nat>, x: nat, y: nat) {
    IsPath(edges, path) && path[0] == x && path[|path| - 1] == y
  }

  ghost predicate Connected(edges: seq<(nat, nat)>, x: nat, y: nat) {
    exists path :: Joins(edges, path, x, y)
  }

  predicate InRange(edges: seq<(nat, nat)>, n: nat) {
    forall e <- edges :: e.0 < n && e.1 < n
  }

  lemma ConnectedTransitive(edges: seq<(nat, nat)>, x: nat, y: nat, z: nat)
    requires Connected(edges, x, y) && Connected(edges, y, z)
    ensures Connected(edges, x, z)
  {
    var p :| Joins(edges, p, x, y);
    var q :| Joins(edges, q, y, z);
    assert Joins(edges, p + q[1..], x, z);
  }

  lemma ConnectedMonotone(edges: seq<(nat, nat)>, e: (nat, nat), x: nat, y: nat)
    requires Connected(edges, x, y)
    ensures Connected(edges + [e], x, y)
  {
    var p :| Joins(edges, p, x, y);
    assert Joins(edges + [e], p, x, y);
  }

  lemma AdjacentConnected(edges: seq<(nat, nat)>, x: nat, y: nat)
    requires Adjacent(edges, x, y)
    ensures Connected(edges, x, y)
  {
    assert Joins(edges, [x, y], x, y);
  }

  lemma ConnectedReflexive(edges: seq<(nat, nat)>, x: nat)
    ensures Connected(edges, x, x)
  {
    assert Joins(edges, [x], x, x);
  }

  /** A labelling whose classes are exactly the connected components. */
  ghost predicate LabelsComponents(edges: seq<(nat, nat)>, cls: seq<nat>) {
    forall x, y :: 0 <= x < |cls| && 0 <= y < |cls| ==>
      (cls[x] == cls[y] <==> Connected(edges, x, y))
  }

  lemma {:induction false} PathKeepsLabel(edges: seq<(nat, nat)>, cls: seq<nat>, path: seq<nat>)
    requires InRange(edges, |cls|) && IsPath(edges, path) && path[0] < |cls|
    requires forall e <- edges :: cls[e.0] == cls[e.1]
    ensures path[|path| - 1] < |cls| && cls[path[0]] == cls[path[|path| - 1]]
    decreases |path|
  {
    if |path| > 1 {
      assert Adjacent(edges, path[0], path[1]);
      forall k | 0 <= k < |path[1..]| - 1 ensures Adjacent(edges, path[1..][k], path[1..][k + 1]) {
        assert Adjacent(edges, path[k + 1], path[k + 1 + 1]);
      }
      PathKeepsLabel(edges, cls, path[1..]);
    }
  }

  /** Joining the classes of `e`'s ends turns components of `edges` into components with `e` added. */
  lemma JoinLabelsComponents(edges: seq<(nat, nat)>, e: (nat, nat), cls: seq<nat>, joined: seq<nat>)
    requires InRange(edges, |cls|) && e.0 < |cls| && e.1 < |cls|
    requires LabelsComponents(edges, cls)
    requires |joined| == |cls|
    requires forall x :: 0 <= x < |cls| ==>
      joined[x] == if cls[x] == cls[e.0] then cls[e.1] else cls[x]
    ensures LabelsComponents(edges + [e], joined)
  {
    var more := edges + [e];
    forall x, y | 0 <= x < |cls| && 0 <= y < |cls|
      ensures joined[x] == joined[y] <==> Connected(more, x, y)
    {
      if Connected(more, x, y) {
        var p :| Joins(more, p, x, y);
        forall f | f in more ensures joined[f.0] == joined[f.1] {
          if f in edges { AdjacentConnected(edges, f.0, f.1); }
        }
        PathKeepsLabel(more, joined, p);
      }
      if joined[x] == joined[y] {
        AdjacentConnected(more, e.0, e.1);
        AdjacentConnected(more, e.1, e.0);
        if cls[x] == cls[y] {
          ConnectedMonotone(edges, e, x, y);
        } else if cls[x] == cls[e.0] {
          Bridge(edges, e.0, e.1, more, e, x, y);
        } else {
          Bridge(edges, e.1, e.0, more, e, x, y);
        }
      }
    }
  }

  lemma Bridge(edges: seq<(nat, nat)>, a: nat, b: nat, more: seq<(nat, nat)>, e: (nat, nat), x: nat, y: nat)
    requires more == edges + [e] && Connected(more, a, b)
    requires Connected(edges, x, a) && Connected(edges, b, y)
    ensures Connected(more, x, y)
  {
    ConnectedMonotone(edges, e, x, a);
    ConnectedMonotone(edges, e, b, y);
    ConnectedTransitive(more, x, a, b);
    ConnectedTransitive(more, x, b, y);
  }

  // --- The grouping pass ---

  predicate HasEdge(edges: seq<(nat, nat)>, i: nat) {
    exists e <- edges :: e.0 == i || e.1 == i
  }

  /** Indices that receive a group: known to the PCI map, inside the matrix, with an edge. */
  predicate Grouped(pci: map<nat, string>, edges: seq<(nat, nat)>, i: nat) {
    i < |pci| && i in pci && HasEdge(edges, i)
  }

  ghost predicate DistinctAddresses(pci: map<nat, string>) {
    forall i, j :: i in pci && j in pci && pci[i] == pci[j] ==> i == j
  }

  /** The ids 1, ..., k. */
  ghost function Ids(k: nat): (ids: set<nat>)
    ensures forall id :: id in ids <==> 1 <= id <= k
  {
    if k == 0 then {} else Ids(k - 1) + {k}
  }

  lemma InsertValue<K>(m: map<K, nat>, k: K, v: nat)
    requires k !in m
    ensures m[k := v].Values == m.Values + {v}
    ensures forall q :: q in m ==> m[q] in m.Values
  {
    var m' := m[k := v];
    forall w ensures w in m'.Values <==> w in m.Values + {v} {
      if w in m.Values {
        var q :| q in m && m[q] == w;
        assert m'[q] == w;
      }
      if w == v { assert m'[k] == w; }
    }
  }

  method UniteEdges(n: nat, edges: seq<(nat, nat)>)
    returns (parent: array<nat>, ghost root: seq<nat>, ghost depth: seq<nat>)
    requires InRange(edges, n)
    ensures fresh(parent) && parent.Length == n
    ensures Forest(parent[..], root, depth) && LabelsComponents(edges, root)
  {
    parent := new nat[n](i => i);
    root, depth := seq(n, i => i), seq(n, i => 0);
    NoEdgesNoPaths(root);
    for k := 0 to |edges|
      invariant fresh(parent) && parent.Length == n
      invariant Forest(parent[..], root, depth)
      invariant LabelsComponents(edges[..k], root)
    {
      var (a, b) := edges[k];
      assert edges[k] in edges;
      var ra := Find(parent, a, root, depth);
      var rb := Find(parent, b, root, depth);
      assert edges[..k + 1] == edges[..k] + [edges[k]];
      JoinLabelsComponents(edges[..k], edges[k], root, JoinedRoot(root, ra, rb));
      if ra != rb {
        assert NodeOk(parent[..], root, depth, a);
        JoinKeepsForest(parent[..], root, depth, ra, rb);
        ghost var before := parent[..];
        parent[ra] := rb;
        assert parent[..] == before[ra := rb];
        root, depth := JoinedRoot(root, ra, rb), JoinedDepth(root, depth, ra, rb);
      } else {
        assert JoinedRoot(root, ra, rb) == root;
      }
    }
    assert edges[..|edges|] == edges;
  }

  lemma NoEdgesNoPaths(cls: seq<nat>)
    requires forall x :: 0 <= x < |cls| ==> cls[x] == x
    ensures LabelsComponents([], cls)
  {
    forall x, y | 0 <= x < |cls| && 0 <= y < |cls|
      ensures cls[x] == cls[y] <==> Connected([], x, y)
    {
      if Connected([], x, y) {
        var p :| Joins([], p, x, y);
        PathKeepsLabel([], cls, p);
      }
      if x == y { ConnectedReflexive([], x); }
    }
  }

  method MarkEnds(n: nat, edges: seq<(nat, nat)>) returns (marked: array<bool>)
    requires InRange(edges, n)
    ensures fresh(marked) && marked.Length == n
    ensures forall i :: 0 <= i < n ==> (marked[i] <==> HasEdge(edges, i))
  {
    marked := new bool[n](_ => false);
    for k := 0 to |edges|
      invariant forall i :: 0 <= i < n ==> (marked[i] <==> HasEdge(edges[..k], i))
    {
      assert edges[k] in edges;
      assert edges[..k + 1] == edges[..k] + [edges[k]];
      marked[edges[k].0] := true;
      marked[edges[k].1] := true;
    }
    assert edges[..|edges|] == edges;
  }

  /** What the numbering loop has established once indices of `on` below `i` are done. */
  ghost predicate Numbered(pci: map<nat, string>, on: set<nat>, root: seq<nat>, i: nat,
                           ids: map<nat, nat>, next: nat, groups: map<string, nat>)
    requires on <= pci.Keys && forall j <- on :: j < |root|
  {
    && next >= 1 && ids.Values == Ids(next - 1)
    && (forall r, q :: r in ids && q in ids && ids[r] == ids[q] ==> r == q)
    && (forall j :: j in on && j < i ==> pci[j] in groups && root[j] in ids)
    && (forall a :: a in groups ==> exists j :: j in on && j < i && pci[j] == a)
    && (DistinctAddresses(pci) ==>
          && groups.Values == Ids(next - 1)
          && forall j :: j in on && j < i ==> groups[pci[j]] == ids[root[j]])
  }

  lemma NumberKnownRoot(pci: map<nat, string>, on: set<nat>, root: seq<nat>, i: nat,
                        ids: map<nat, nat>, next: nat, groups: map<string, nat>)
    requires on <= pci.Keys && (forall j <- on :: j < |root|) && i in on && root[i] in ids
    requires Numbered(pci, on, root, i, ids, next, groups)
    ensures Numbered(pci, on, root, i + 1, ids, next, groups[pci[i] := ids[root[i]]])
  {
    if DistinctAddresses(pci) {
      assert pci[i] !in groups;
      InsertValue(groups, pci[i], ids[root[i]]);
      assert ids[root[i]] in ids.Values;
    }
  }

  lemma NumberFreshRoot(pci: map<nat, string>, on: set<nat>, root: seq<nat>, i: nat,
                        ids: map<nat, nat>, next: nat, groups: map<string, nat>)
    requires on <= pci.Keys && (forall j <- on :: j < |root|) && i in on && root[i] !in ids
    requires Numbered(pci, on, root, i, ids, next, groups)
    ensures Numbered(pci, on, root, i + 1, ids[root[i] := next], next + 1, groups[pci[i] := next])
  {
    InsertValue(ids, root[i], next);
    assert Ids(next) == Ids(next - 1) + {next};
    if DistinctAddresses(pci) {
      assert pci[i] !in groups;
      InsertValue(groups, pci[i], next);
    }
  }

  lemma NumberNothing(pci: map<nat, string>, on: set<nat>, root: seq<nat>, i: nat,
                      ids: map<nat, nat>, next: nat, groups: map<string, nat>)
    requires on <= pci.Keys && (forall j <- on :: j < |root|) && i !in on
    requires Numbered(pci, on, root, i, ids, next, groups)
    ensures Numbered(pci, on, root, i + 1, ids, next, groups)
  {
  }

  /** Give each root met in index order the next id, and each grouped GPU its root's id. */
  method NumberRoots(pci: map<nat, string>, parent: array<nat>, hasEdge: seq<bool>,
                     ghost root: seq<nat>, ghost depth: seq<nat>, ghost on: set<nat>)
    returns (groups: map<string, nat>, ghost ids: map<nat, nat>, ghost next: nat)
    requires parent.Length == |hasEdge| == |pci| && Forest(parent[..], root, depth)
    requires forall i :: i in on <==> 0 <= i < |pci| && i in pci && hasEdge[i]
    modifies parent
    ensures Numbered(pci, on, root, |pci|, ids, next, groups)
  {
    var rootToId: map<nat, nat> := map[];
    var nextId: nat := 1;
    groups := map[];
    for i := 0 to |pci|
      invariant Forest(parent[..], root, depth)
      invariant Numbered(pci, on, root, i, rootToId, nextId, groups)
    {
      if i in pci && hasEdge[i] {
        var r := Find(parent, i, root, depth);
        if r in rootToId {
          NumberKnownRoot(pci, on, root, i, rootToId, nextId, groups);
        } else {
          NumberFreshRoot(pci, on, root, i, rootToId, nextId, groups);
          rootToId := rootToId[r := nextId];
          nextId := nextId + 1;
        }
        groups := groups[pci[i] := rootToId[r]];
      } else {
        NumberNothing(pci, on, root, i, rootToId, nextId, groups);
      }
    }
    ids, next := rootToId, nextId;
  }

  lemma {:induction false} NumberingIsComplete(pci: map<nat, string>, edges: seq<(nat, nat)>, on: set<nat>, root: seq<nat>,
                                               ids: map<nat, nat>, next: nat, groups: map<string, nat>)
    requires on <= pci.Keys && (forall j <- on :: j < |root|)
    requires LabelsComponents(edges, root) && DistinctAddresses(pci)
    requires Numbered(pci, on, root, |root|, ids, next, groups)
    ensures forall i, j :: i in on && j in on ==>
      (groups[pci[i]] == groups[pci[j]] <==> Connected(edges, i, j))
    ensures groups.Values == Ids(next - 1)
  {
  }

  /**
   Group ids by PCI address. A GPU is in the result exactly when it has an
   edge; with distinct addresses two of them share an id exactly when a path
   of edges joins them, and the ids in use are 1, 2, ..., k without gaps.
   */
  method AssignGroups(pci: map<nat, string>, edges: seq<(nat, nat)>) returns (groups: map<string, nat>)
    requires InRange(edges, |pci|)
    ensures forall a :: a in groups <==> exists i :: Grouped(pci, edges, i) && pci[i] == a
    ensures DistinctAddresses(pci) ==>
      forall i, j :: Grouped(pci, edges, i) && Grouped(pci, edges, j) ==>
        (groups[pci[i]] == groups[pci[j]] <==> Connected(edges, i, j))
    ensures DistinctAddresses(pci) ==> exists k: nat :: groups.Values == Ids(k)
  {
    var parent, root, depth := UniteEdges(|pci|, edges);
    var hasEdge := MarkEnds(|pci|, edges);
    ghost var on := set i | i in pci && Grouped(pci, edges, i);
    ghost var ids, next;
    groups, ids, next := NumberRoots(pci, parent, hasEdge[..], root, depth, on);
    if DistinctAddresses(pci) {
      NumberingIsComplete(pci, edges, on, root, ids, next, groups);
    }
    forall a ensures a in groups <==> exists i :: Grouped(pci, edges, i) && pci[i] == a {
      if i :| Grouped(pci, edges, i) && pci[i] == a {
        assert i in on;
      }
    }
  }
}
