/** The part of a directed multigraph library the proof-tree classes use:
    nodes and edges in insertion order (parallel edges and self-loops
    kept), in-degrees, predecessors and successors, the root rule of both
    tactic trees, and breadth-first shortest paths. */
module Graphs {
  import opened Wrappers

  datatype Graph<N(==)> = Graph(nodes: seq<N>, edges: seq<(N, N)>)

  /** Every endpoint of an edge is a node of the graph. */
  ghost predicate WellFormed<N>(g: Graph<N>) {
    forall i :: 0 <= i < |g.edges| ==> g.edges[i].0 in g.nodes && g.edges[i].1 in g.nodes
  }

  /** `in_degree(v)`: the edges into `v`, parallel edges counted apart. */
  function InDegree<N(==)>(es: seq<(N, N)>, v: N): nat {
    if es == [] then 0
    else InDegree(es[..|es| - 1], v) + (if es[|es| - 1].1 == v then 1 else 0)
  }

  /** The self-loops at `v`. */
  function SelfLoops<N(==)>(es: seq<(N, N)>, v: N): nat {
    if es == [] then 0
    else SelfLoops(es[..|es| - 1], v) + (if es[|es| - 1] == (v, v) then 1 else 0)
  }

  /** The root rule of `_root`: every edge into the node is a self-loop. */
  predicate IsRoot<N(==)>(es: seq<(N, N)>, v: N) {
    InDegree(es, v) == SelfLoops(es, v)
  }

  /** Comparing the two counts is the same as asking that no edge from
      another node enters `v`. */
  lemma {:induction false} IsRootSpec<N>(es: seq<(N, N)>, v: N)
    ensures SelfLoops(es, v) <= InDegree(es, v)
    ensures IsRoot(es, v) <==> forall i :: 0 <= i < |es| && es[i].1 == v ==> es[i].0 == v
  {
    if es != [] {
      var pre := es[..|es| - 1];
      IsRootSpec(pre, v);
      assert forall i :: 0 <= i < |pre| ==> pre[i] == es[i];
    }
  }

  /** The first node, in node order, that satisfies the root rule. */
  function FirstRoot<N(==)>(nodes: seq<N>, es: seq<(N, N)>): Option<N> {
    if nodes == [] then None
    else if IsRoot(es, nodes[0]) then Some(nodes[0])
    else FirstRoot(nodes[1..], es)
  }

  lemma {:induction false} FirstRootSpec<N>(nodes: seq<N>, es: seq<(N, N)>)
    ensures FirstRoot(nodes, es).None? <==> forall i :: 0 <= i < |nodes| ==> !IsRoot(es, nodes[i])
    ensures FirstRoot(nodes, es).Some? ==>
      exists i :: 0 <= i < |nodes| && nodes[i] == FirstRoot(nodes, es).value && IsRoot(es, nodes[i]) &&
        forall j :: 0 <= j < i ==> !IsRoot(es, nodes[j])
  {
    if nodes != [] && !IsRoot(es, nodes[0]) {
      FirstRootSpec(nodes[1..], es);
      assert forall i :: 1 <= i < |nodes| ==> nodes[1..][i - 1] == nodes[i];
      if FirstRoot(nodes, es).Some? {
        var i :| 0 <= i < |nodes[1..]| && nodes[1..][i] == FirstRoot(nodes, es).value &&
          IsRoot(es, nodes[1..][i]) && forall j :: 0 <= j < i ==> !IsRoot(es, nodes[1..][j]);
        assert nodes[i + 1] == FirstRoot(nodes, es).value;
      }
    }
  }

  /** `_root`: for each node in turn, count the self-loops among the edges
      into it and stop at the first node whose in-degree is that count. */
  method FindRoot<N(==)>(g: Graph<N>) returns (root: Option<N>)
    ensures root == FirstRoot(g.nodes, g.edges)
  {
    var k := 0;
    while k < |g.nodes|
      invariant 0 <= k <= |g.nodes|
      invariant FirstRoot(g.nodes, g.edges) == FirstRoot(g.nodes[k..], g.edges)
    {
      var node := g.nodes[k];
      var selfEdges := 0;
      var i := 0;
      while i < |g.edges|
        invariant 0 <= i <= |g.edges|
        invariant selfEdges == SelfLoops(g.edges[..i], node)
      {
        assert g.edges[..i + 1][..i] == g.edges[..i];
        if g.edges[i].1 == node && g.edges[i].0 == g.edges[i].1 {
          selfEdges := selfEdges + 1;
        }
        i := i + 1;
      }
      assert g.edges[..i] == g.edges;
      if InDegree(g.edges, node) == selfEdges {
        return Some(node);
      }
      assert g.nodes[k..][1..] == g.nodes[k + 1..];
      k := k + 1;
    }
    return None;
  }

  /** `predecessors(v)` as a set. */
  function Preds<N(==)>(es: seq<(N, N)>, v: N): set<N> {
    set i | 0 <= i < |es| && es[i].1 == v :: es[i].0
  }

  /** `successors(v)` as a set. */
  function Succs<N(==)>(es: seq<(N, N)>, v: N): set<N> {
    set i | 0 <= i < |es| && es[i].0 == v :: es[i].1
  }

  /** `list(successors(v))`: each successor once, in the order its first
      edge from `v` was added. */
  function SuccList<N(==)>(es: seq<(N, N)>, v: N): seq<N> {
    if es == [] then []
    else
      var s := SuccList(es[..|es| - 1], v);
      if es[|es| - 1].0 == v && es[|es| - 1].1 !in s then s + [es[|es| - 1].1] else s
  }

  /** The ordered list holds exactly the targets of the edges leaving `v`,
      each once. */
  lemma {:induction false} SuccListSpec<N>(es: seq<(N, N)>, v: N)
    ensures forall c :: c in SuccList(es, v) <==> (v, c) in es
    ensures forall i, j :: 0 <= i < j < |SuccList(es, v)| ==> SuccList(es, v)[i] != SuccList(es, v)[j]
  {
    if es != [] {
      var pre := es[..|es| - 1];
      SuccListSpec(pre, v);
      assert es == pre + [es[|es| - 1]];
    }
  }

  lemma SuccEdge<N>(es: seq<(N, N)>, v: N, c: N)
    requires c in SuccList(es, v)
    ensures (v, c) in es
  {
    SuccListSpec(es, v);
  }

  // ---------------------------------------------------------------------
  // Paths and breadth-first search

  /** A path from `s` to `t` written as its nodes, one edge between each
      two neighbours. */
  ghost predicate IsPath<N>(es: seq<(N, N)>, p: seq<N>, s: N, t: N) {
    |p| >= 1 && p[0] == s && p[|p| - 1] == t &&
    forall i :: 0 <= i < |p| - 1 ==> (p[i], p[i + 1]) in es
  }

  /** `r` and the targets of the first `n` edges leaving `r`. */
  function StepUpTo<N(==)>(es: seq<(N, N)>, r: set<N>, n: nat): set<N>
    requires n <= |es|
  {
    if n == 0 then r
    else StepUpTo(es, r, n - 1) + (if es[n - 1].0 in r then {es[n - 1].1} else {})
  }

  /** One breadth-first round: `r` and every node one edge away from it. */
  function Step<N(==)>(es: seq<(N, N)>, r: set<N>): set<N> {
    StepUpTo(es, r, |es|)
  }

  /** The nodes within `k` edges of `s`. */
  function Reach<N(==)>(es: seq<(N, N)>, s: N, k: nat): set<N> {
    if k == 0 then {s} else Step(es, Reach(es, s, k - 1))
  }

  /** The edges whose target is not in `r`: what a search that has found
      `r` may still find. */
  function Unreached<N(==)>(es: seq<(N, N)>, r: set<N>): nat {
    if es == [] then 0
    else Unreached(es[..|es| - 1], r) + (if es[|es| - 1].1 in r then 0 else 1)
  }

  lemma {:induction false} UnreachedShrinks<N>(es: seq<(N, N)>, a: set<N>, b: set<N>, j: nat)
    requires a <= b && j < |es| && es[j].1 in b && es[j].1 !in a
    ensures Unreached(es, b) < Unreached(es, a)
  {
    var pre := es[..|es| - 1];
    if j < |es| - 1 {
      assert pre[j] == es[j];
      UnreachedShrinks(pre, a, b, j);
    } else {
      UnreachedMono(pre, a, b);
    }
  }

  lemma {:induction false} UnreachedMono<N>(es: seq<(N, N)>, a: set<N>, b: set<N>)
    requires a <= b
    ensures Unreached(es, b) <= Unreached(es, a)
  {
    if es != [] {
      UnreachedMono(es[..|es| - 1], a, b);
    }
  }

  lemma {:induction false} StepUpToSpec<N>(es: seq<(N, N)>, r: set<N>, n: nat, v: N)
    requires n <= |es|
    ensures v in StepUpTo(es, r, n) <==> v in r || exists j :: 0 <= j < n && es[j].0 in r && es[j].1 == v
  {
    if n > 0 {
      StepUpToSpec(es, r, n - 1, v);
    }
  }

  lemma {:induction false} StepUpToGrows<N>(es: seq<(N, N)>, r: set<N>, n: nat)
    requires n <= |es|
    ensures r <= StepUpTo(es, r, n)
  {
    if n > 0 {
      StepUpToGrows(es, r, n - 1);
    }
  }

  lemma ReachGrows<N>(es: seq<(N, N)>, s: N, k: nat)
    ensures Reach(es, s, k) <= Reach(es, s, k + 1)
  {
    StepUpToGrows(es, Reach(es, s, k), |es|);
  }

  lemma {:induction false} ReachMono<N>(es: seq<(N, N)>, s: N, j: nat, k: nat)
    requires j <= k
    ensures Reach(es, s, j) <= Reach(es, s, k)
    decreases k - j
  {
    if j < k {
      ReachMono(es, s, j, k - 1);
      ReachGrows(es, s, k - 1);
    }
  }

  /** Once a round adds nothing, no later round does. */
  lemma {:induction false} ReachStable<N>(es: seq<(N, N)>, s: N, k: nat, j: nat)
    requires Reach(es, s, k + 1) == Reach(es, s, k) && k <= j
    ensures Reach(es, s, j) == Reach(es, s, k)
    decreases j - k
  {
    if k < j {
      ReachStable(es, s, k, j - 1);
    }
  }

  lemma PathSnoc<N>(es: seq<(N, N)>, p: seq<N>, s: N, u: N, v: N)
    requires IsPath(es, p, s, u) && (u, v) in es
    ensures IsPath(es, p + [v], s, v)
  {
    var q := p + [v];
    forall i | 0 <= i < |q| - 1
      ensures (q[i], q[i + 1]) in es
    {
      if i < |p| - 1 {
        assert q[i] == p[i] && q[i + 1] == p[i + 1];
      }
    }
  }

  /** The end of a path of `n` edges is within `n` edges of its start. */
  lemma {:induction false} PathReach<N>(es: seq<(N, N)>, p: seq<N>, s: N, t: N)
    requires IsPath(es, p, s, t)
    ensures t in Reach(es, s, |p| - 1)
    decreases |p|
  {
    if |p| > 1 {
      var q := p[..|p| - 1];
      var u := p[|p| - 2];
      assert IsPath(es, q, s, u) by {
        forall i | 0 <= i < |q| - 1
          ensures (q[i], q[i + 1]) in es
        {
          assert q[i] == p[i] && q[i + 1] == p[i + 1];
        }
      }
      PathReach(es, q, s, u);
      assert (u, t) in es;
      var j :| 0 <= j < |es| && es[j] == (u, t);
      StepUpToSpec(es, Reach(es, s, |p| - 2), |es|, t);
    }
  }

  /** A node within `k` edges of `s` is the end of a path of at most `k`
      edges. */
  lemma {:induction false} ReachPath<N>(es: seq<(N, N)>, s: N, k: nat, v: N) returns (p: seq<N>)
    requires v in Reach(es, s, k)
    ensures IsPath(es, p, s, v) && |p| <= k + 1
  {
    if k == 0 {
      p := [s];
    } else {
      var r := Reach(es, s, k - 1);
      StepUpToSpec(es, r, |es|, v);
      if v in r {
        p := ReachPath(es, s, k - 1, v);
      } else {
        var j :| 0 <= j < |es| && es[j].0 in r && es[j].1 == v;
        var q := ReachPath(es, s, k - 1, es[j].0);
        PathSnoc(es, q, s, es[j].0, v);
        p := q + [v];
      }
    }
  }

  /** A round that adds a node leaves fewer edges to follow. */
  lemma RoundShrinks<N>(es: seq<(N, N)>, s: N, k: nat)
    requires Reach(es, s, k + 1) != Reach(es, s, k)
    ensures Unreached(es, Reach(es, s, k + 1)) < Unreached(es, Reach(es, s, k))
  {
    var a := Reach(es, s, k);
    var b := Reach(es, s, k + 1);
    ReachGrows(es, s, k);
    var v :| v in b && v !in a;
    StepUpToSpec(es, a, |es|, v);
    var j :| 0 <= j < |es| && es[j].0 in a && es[j].1 == v;
    UnreachedShrinks(es, a, b, j);
  }

  /** The breadth-first search from round `k` on: the first round whose
      nodes include `t`, or None once a round adds nothing. */
  function DistFrom<N(==)>(es: seq<(N, N)>, s: N, t: N, k: nat): Option<nat>
    decreases Unreached(es, Reach(es, s, k))
  {
    if t in Reach(es, s, k) then Some(k)
    else if Reach(es, s, k + 1) == Reach(es, s, k) then None
    else
      RoundShrinks(es, s, k);
      DistFrom(es, s, t, k + 1)
  }

  /** The number of edges on a shortest path from `s` to `t`. */
  function Dist<N(==)>(es: seq<(N, N)>, s: N, t: N): Option<nat> {
    DistFrom(es, s, t, 0)
  }

  lemma {:induction false} DistFromSpec<N>(es: seq<(N, N)>, s: N, t: N, k: nat)
    requires forall j :: 0 <= j < k ==> t !in Reach(es, s, j)
    ensures DistFrom(es, s, t, k).Some? ==>
      var d := DistFrom(es, s, t, k).value;
      t in Reach(es, s, d) && forall j :: 0 <= j < d ==> t !in Reach(es, s, j)
    ensures DistFrom(es, s, t, k).None? ==> forall j: nat :: t !in Reach(es, s, j)
    decreases Unreached(es, Reach(es, s, k))
  {
    if t in Reach(es, s, k) {
      assert DistFrom(es, s, t, k) == Some(k);
    } else if Reach(es, s, k + 1) == Reach(es, s, k) {
      assert DistFrom(es, s, t, k) == None;
      NeverReached(es, s, t, k);
    } else {
      assert DistFrom(es, s, t, k) == DistFrom(es, s, t, k + 1);
      RoundShrinks(es, s, k);
      DistFromSpec(es, s, t, k + 1);
    }
  }

  lemma NeverReached<N>(es: seq<(N, N)>, s: N, t: N, k: nat)
    requires forall j :: 0 <= j < k ==> t !in Reach(es, s, j)
    requires t !in Reach(es, s, k) && Reach(es, s, k + 1) == Reach(es, s, k)
    ensures forall j: nat :: t !in Reach(es, s, j)
  {
    forall j: nat
      ensures t !in Reach(es, s, j)
    {
      if k <= j {
        ReachStable(es, s, k, j);
      }
    }
  }

  /** `Dist` is the length of a shortest path: None exactly when there is
      no path, and otherwise some path has that many edges and none has
      fewer. */
  lemma DistSpec<N>(es: seq<(N, N)>, s: N, t: N)
    ensures Dist(es, s, t).None? <==> forall p :: !IsPath(es, p, s, t)
    ensures Dist(es, s, t).Some? ==>
      (exists p :: IsPath(es, p, s, t) && |p| == Dist(es, s, t).value + 1) &&
      forall p :: IsPath(es, p, s, t) ==> |p| >= Dist(es, s, t).value + 1
  {
    DistFromSpec(es, s, t, 0);
    forall p | IsPath(es, p, s, t)
      ensures Dist(es, s, t).Some? && |p| >= Dist(es, s, t).value + 1
    {
      PathReach(es, p, s, t);
    }
    if Dist(es, s, t).Some? {
      var d := Dist(es, s, t).value;
      var p := ReachPath(es, s, d, t);
      if |p| < d + 1 {
        PathReach(es, p, s, t);
      }
    }
  }

  /** One round of the search: each edge in turn, from a node found so far
      to a node not yet found, records the path through it. */
  method Expand<N(==)>(es: seq<(N, N)>, m: map<N, seq<N>>, ghost s: N, ghost k: nat)
    returns (m2: map<N, seq<N>>)
    requires forall v :: v in m ==> IsPath(es, m[v], s, v) && |m[v]| <= k + 1
    ensures m2.Keys == Step(es, m.Keys)
    ensures forall v :: v in m2 ==> IsPath(es, m2[v], s, v) && |m2[v]| <= k + 2
  {
    m2 := m;
    var i := 0;
    while i < |es|
      invariant 0 <= i <= |es|
      invariant m2.Keys == StepUpTo(es, m.Keys, i)
      invariant forall v :: v in m2 ==> IsPath(es, m2[v], s, v) && |m2[v]| <= k + 2
    {
      var (u, v) := es[i];
      if u in m && v !in m2 {
        assert (u, v) in es;
        PathSnoc(es, m[u], s, u, v);
        m2 := m2[v := m[u] + [v]];
      }
      i := i + 1;
    }
  }

  /** `shortest_path(G, s, t)`: a path with the fewest edges, or None for
      the library's "no path" exception. */
  method ShortestPath<N(==)>(es: seq<(N, N)>, s: N, t: N) returns (r: Option<seq<N>>)
    ensures r.None? <==> Dist(es, s, t).None?
    ensures r.Some? ==> IsPath(es, r.value, s, t) && Dist(es, s, t) == Some(|r.value| - 1)
  {
    var m: map<N, seq<N>> := map[s := [s]];
    var k: nat := 0;
    while t !in m
      invariant m.Keys == Reach(es, s, k)
      invariant forall v :: v in m ==> IsPath(es, m[v], s, v) && |m[v]| <= k + 1
      invariant DistFrom(es, s, t, k) == Dist(es, s, t)
      decreases Unreached(es, m.Keys)
    {
      var m2 := Expand(es, m, s, k);
      if m2.Keys == m.Keys {
        assert DistFrom(es, s, t, k) == None;
        return None;
      }
      assert DistFrom(es, s, t, k) == DistFrom(es, s, t, k + 1);
      RoundShrinks(es, s, k);
      m := m2;
      k := k + 1;
    }
    assert DistFrom(es, s, t, k) == Some(k);
    DistSpec(es, s, t);
    return Some(m[t]);
  }

  // ---------------------------------------------------------------------
  // Paths to a list of goals

  /** The goals reachable from `s`, in order. */
  function ReachableOf<N(==)>(es: seq<(N, N)>, s: N, goals: seq<N>): seq<N> {
    if goals == [] then []
    else
      ReachableOf(es, s, goals[..|goals| - 1]) +
      (if Dist(es, s, goals[|goals| - 1]).Some? then [goals[|goals| - 1]] else [])
  }

  /** The goals not reachable from `s`, in order. */
  function Unreachable<N(==)>(es: seq<(N, N)>, s: N, goals: seq<N>): seq<N> {
    if goals == [] then []
    else
      Unreachable(es, s, goals[..|goals| - 1]) +
      (if Dist(es, s, goals[|goals| - 1]).None? then [goals[|goals| - 1]] else [])
  }

  /** Each goal either gets a path or is reported: the reachable goals are
      exactly those with a path, and the two lists share out the goals. */
  lemma {:induction false} ReachableSplit<N>(es: seq<(N, N)>, s: N, goals: seq<N>)
    ensures |ReachableOf(es, s, goals)| + |Unreachable(es, s, goals)| == |goals|
    ensures forall v :: v in ReachableOf(es, s, goals) <==> v in goals && exists p :: IsPath(es, p, s, v)
  {
    if goals != [] {
      var pre := goals[..|goals| - 1];
      var g := goals[|goals| - 1];
      ReachableSplit(es, s, pre);
      assert goals == pre + [g];
      DistSpec(es, s, g);
      forall v | v in goals
        ensures Dist(es, s, v).Some? <==> exists p :: IsPath(es, p, s, v)
      {
        DistSpec(es, s, v);
      }
    }
  }

  /** The first goal, in order, reachable from `s`. */
  function FirstReachable<N(==)>(es: seq<(N, N)>, s: N, goals: seq<N>): Option<N> {
    if goals == [] then None
    else if Dist(es, s, goals[0]).Some? then Some(goals[0])
    else FirstReachable(es, s, goals[1..])
  }

  /** The first reachable goal: every goal before it is unreachable, and
      there is none exactly when no goal is reachable. */
  lemma {:induction false} FirstReachableSpec<N>(es: seq<(N, N)>, s: N, goals: seq<N>)
    ensures FirstReachable(es, s, goals).None? <==> forall i :: 0 <= i < |goals| ==> Dist(es, s, goals[i]).None?
    ensures FirstReachable(es, s, goals).Some? ==>
      exists i :: 0 <= i < |goals| && goals[i] == FirstReachable(es, s, goals).value &&
        Dist(es, s, goals[i]).Some? && forall j :: 0 <= j < i ==> Dist(es, s, goals[j]).None?
  {
    if goals != [] && Dist(es, s, goals[0]).None? {
      var rest := goals[1..];
      FirstReachableSpec(es, s, rest);
      assert forall i :: 1 <= i < |goals| ==> goals[i] == rest[i - 1];
      if FirstReachable(es, s, rest).Some? {
        var i :| 0 <= i < |rest| && rest[i] == FirstReachable(es, s, rest).value &&
          Dist(es, s, rest[i]).Some? && forall j :: 0 <= j < i ==> Dist(es, s, rest[j]).None?;
        assert goals[i + 1] == rest[i];
      }
    }
  }

  // ---------------------------------------------------------------------
  // Nodes the library cannot find

  /** Whether `shortest_path(s, t)` finds both ends among the nodes; the
      library raises `NodeNotFound` otherwise, and only its "no path"
      error is caught by the callers. */
  predicate InGraph<N(==)>(nodes: seq<N>, s: N, t: N) {
    s in nodes && t in nodes
  }

  /** The node the library reports missing: the source before the target. */
  function MissingEnd<N(==)>(nodes: seq<N>, s: N, t: N): N {
    if s in nodes then t else s
  }

  /** The position of the first goal that `shortest_path` from `s` cannot
      look up, if any. */
  function FirstStray<N(==)>(nodes: seq<N>, s: N, goals: seq<N>): (r: Option<nat>)
    ensures r.None? <==> forall j :: 0 <= j < |goals| ==> InGraph(nodes, s, goals[j])
    ensures r.Some? ==> r.value < |goals| && !InGraph(nodes, s, goals[r.value])
    ensures r.Some? ==> forall j :: 0 <= j < r.value ==> InGraph(nodes, s, goals[j])
  {
    if goals == [] then None
    else if !InGraph(nodes, s, goals[0]) then Some(0)
    else
      match FirstStray(nodes, s, goals[1..])
      case None => None
      case Some(k) => Some(k + 1)
  }

  /** The goals a loop over `goals` visits before it stops at position `k`. */
  function Before<N>(goals: seq<N>, k: Option<nat>): seq<N> {
    if k.Some? && k.value <= |goals| then goals[..k.value] else goals
  }

  /** How the search of `view_have_info` ends: at the first goal reachable
      from `s`, at none, or with the node the library cannot find, whichever
      the loop over `goals` meets first. */
  function FirstGoal<N(==)>(es: seq<(N, N)>, nodes: seq<N>, s: N, goals: seq<N>): Result<Option<N>, N> {
    if goals == [] then Ok(None)
    else if !InGraph(nodes, s, goals[0]) then Err(MissingEnd(nodes, s, goals[0]))
    else if Dist(es, s, goals[0]).Some? then Ok(Some(goals[0]))
    else FirstGoal(es, nodes, s, goals[1..])
  }

  /** The search finds the first reachable goal unless a goal that cannot
      be looked up comes before it; with every goal and `s` among the nodes
      it never fails. */
  lemma {:induction false} FirstGoalSpec<N>(es: seq<(N, N)>, nodes: seq<N>, s: N, goals: seq<N>)
    ensures FirstGoal(es, nodes, s, goals).Ok? ==> FirstGoal(es, nodes, s, goals).value == FirstReachable(es, s, goals)
    ensures FirstGoal(es, nodes, s, goals).Err? <==>
      exists k :: 0 <= k < |goals| && !InGraph(nodes, s, goals[k]) &&
        forall j :: 0 <= j < k ==> Dist(es, s, goals[j]).None?
    ensures FirstGoal(es, nodes, s, goals).Err? ==> FirstGoal(es, nodes, s, goals).error !in nodes
    ensures FirstStray(nodes, s, goals).None? ==> FirstGoal(es, nodes, s, goals).Ok?
  {
    if goals != [] && InGraph(nodes, s, goals[0]) && Dist(es, s, goals[0]).None? {
      var rest := goals[1..];
      FirstGoalSpec(es, nodes, s, rest);
      assert forall k :: 1 <= k < |goals| ==> goals[k] == rest[k - 1];
      if FirstGoal(es, nodes, s, rest).Err? {
        var k :| 0 <= k < |rest| && !InGraph(nodes, s, rest[k]) &&
          forall j :: 0 <= j < k ==> Dist(es, s, rest[j]).None?;
        assert !InGraph(nodes, s, goals[k + 1]);
        assert forall j :: 0 <= j < k + 1 ==> Dist(es, s, goals[j]).None? by {
          forall j | 0 <= j < k + 1 ensures Dist(es, s, goals[j]).None? {
            if j > 0 { assert goals[j] == rest[j - 1]; }
          }
        }
      } else {
        forall k | 0 <= k < |goals| && !InGraph(nodes, s, goals[k])
          ensures exists j :: 0 <= j < k && Dist(es, s, goals[j]).Some?
        {
          assert k > 0 && !InGraph(nodes, s, rest[k - 1]);
          var j :| 0 <= j < k - 1 && Dist(es, s, rest[j]).Some?;
          assert goals[j + 1] == rest[j];
        }
      }
    }
  }

  // ---------------------------------------------------------------------
  // Searches over a list of goals

  /** The loop of `view_have_info` for one edge: the shortest path from `s`
      to the first reachable goal (nothing when there is none), or the
      node the library cannot find. */
  method FirstGoalPath<N(==)>(es: seq<(N, N)>, nodes: seq<N>, s: N, goals: seq<N>)
    returns (r: Result<seq<N>, N>)
    ensures r.Err? <==> FirstGoal(es, nodes, s, goals).Err?
    ensures r.Err? ==> r.error == FirstGoal(es, nodes, s, goals).error
    ensures r.Ok? && FirstReachable(es, s, goals).None? ==> r.value == []
    ensures r.Ok? && FirstReachable(es, s, goals).Some? ==>
      IsPath(es, r.value, s, FirstReachable(es, s, goals).value) &&
      Dist(es, s, FirstReachable(es, s, goals).value) == Some(|r.value| - 1)
  {
    var i := 0;
    while i < |goals|
      invariant 0 <= i <= |goals|
      invariant FirstReachable(es, s, goals) == FirstReachable(es, s, goals[i..])
      invariant FirstGoal(es, nodes, s, goals) == FirstGoal(es, nodes, s, goals[i..])
    {
      if !InGraph(nodes, s, goals[i]) {
        return Err(MissingEnd(nodes, s, goals[i]));
      }
      var p := ShortestPath(es, s, goals[i]);
      if p.Some? {
        return Ok(p.value);
      }
      assert goals[i..][1..] == goals[i + 1..];
      i := i + 1;
    }
    r := Ok([]);
  }

  /** The loop of `view_err_paths` and `view_term_paths`: the paths from
      `s` to the goals reachable from it and the goals that are not, up to
      the first goal the library cannot find, whose position is returned. */
  method PathsTo<N(==)>(es: seq<(N, N)>, nodes: seq<N>, s: N, goals: seq<N>)
    returns (paths: seq<seq<N>>, missing: seq<N>, stray: Option<nat>)
    ensures stray == FirstStray(nodes, s, goals)
    ensures var gs := Before(goals, stray);
      |paths| == |ReachableOf(es, s, gs)| &&
      (forall i :: 0 <= i < |paths| ==>
        IsPath(es, paths[i], s, ReachableOf(es, s, gs)[i]) &&
        Dist(es, s, ReachableOf(es, s, gs)[i]) == Some(|paths[i]| - 1)) &&
      missing == Unreachable(es, s, gs)
  {
    paths, missing := [], [];
    var i := 0;
    while i < |goals|
      invariant 0 <= i <= |goals|
      invariant forall j :: 0 <= j < i ==> InGraph(nodes, s, goals[j])
      invariant |paths| == |ReachableOf(es, s, goals[..i])|
      invariant forall j :: 0 <= j < |paths| ==>
        IsPath(es, paths[j], s, ReachableOf(es, s, goals[..i])[j]) &&
        Dist(es, s, ReachableOf(es, s, goals[..i])[j]) == Some(|paths[j]| - 1)
      invariant missing == Unreachable(es, s, goals[..i])
    {
      if !InGraph(nodes, s, goals[i]) {
        stray := Some(i);
        return;
      }
      assert goals[..i + 1][..i] == goals[..i];
      var p := ShortestPath(es, s, goals[i]);
      if p.Some? {
        paths := paths + [p.value];
      } else {
        missing := missing + [goals[i]];
      }
      i := i + 1;
    }
    assert goals[..i] == goals;
    stray := None;
  }

}
