/** The reconstructed tactic tree of `recon/tactr.py`: tactic-state nodes
    and their identifiers, tactic edges, and the `TacTree` object whose
    construction finds the root, the terminal and error states, groups the
    edges by tactic invocation and builds the flattened view, together with
    the path views over the graph. */
module ProofGraph {
  import opened Wrappers
  import opened Text
  import opened Graphs
  import Tactics
  import DeclLexer
  import Groups

  // ---------------------------------------------------------------------
  // Tactic states

  datatype TacStKind = LIVE | TERM | DEAD

  /** `TacTrNode(gid, kind, order)`; two nodes are equal when all three
      agree (`__eq__`). */
  datatype TacTrNode = TacTrNode(gid: int, kind: TacStKind, order: Option<int>)

  /** The numeric part of the state identifier: the goal identifier, with
      `-order` after it when there is an order. */
  function GidText(n: TacTrNode): (s: string)
    ensures |s| > 0
  {
    match n.order
    case Some(o) => IntToStr(n.gid) + "-" + IntToStr(o)
    case None => IntToStr(n.gid)
  }

  /** `_uid`: the state identifier, `T` before a terminal state's number
      and `E` before an error state's. It is also `str(node)`. */
  function Uid(n: TacTrNode): (s: string)
    ensures |s| > 0
  {
    match n.kind
    case TERM => "T" + GidText(n)
    case DEAD => "E" + GidText(n)
    case LIVE => GidText(n)
  }

  /** A decimal numeral has its only sign, if any, in front. */
  lemma SignOnlyFirst(i: int)
    ensures forall k :: 1 <= k < |IntToStr(i)| ==> IntToStr(i)[k] != '-'
    ensures IntToStr(i)[0] != 'T' && IntToStr(i)[0] != 'E'
  {
    var s := IntToStr(i);
    if i < 0 {
      var d := NatToStr(-i);
      assert s == "-" + d;
      assert forall k :: 1 <= k < |s| ==> s[k] == d[k - 1];
    }
  }

  /** Cutting at the first sign after the front recovers both numbers. */
  lemma SplitAtDash(a1: string, b1: string, a2: string, b2: string)
    requires |a1| > 0 && |a2| > 0
    requires forall k :: 1 <= k < |a1| ==> a1[k] != '-'
    requires forall k :: 1 <= k < |a2| ==> a2[k] != '-'
    requires a1 + "-" + b1 == a2 + "-" + b2
    ensures a1 == a2 && b1 == b2
  {
    var s := a1 + "-" + b1;
    var t := a2 + "-" + b2;
    DashAt(a1, b1);
    DashAt(a2, b2);
    assert |a1| == |a2|;
    assert a1 == s[..|a1|] && a2 == t[..|a2|];
    assert b1 == s[|a1| + 1..] && b2 == t[|a2| + 1..];
  }

  /** Where the sign between the two numbers sits. */
  lemma DashAt(a: string, b: string)
    ensures (a + "-" + b)[|a|] == '-'
    ensures forall k :: 0 <= k < |a| ==> (a + "-" + b)[k] == a[k]
  {
  }

  lemma GidTextInjective(a: TacTrNode, b: TacTrNode)
    requires GidText(a) == GidText(b)
    ensures a.gid == b.gid && a.order == b.order
  {
    SignOnlyFirst(a.gid);
    SignOnlyFirst(b.gid);
    var x, y := IntToStr(a.gid), IntToStr(b.gid);
    match (a.order, b.order)
    case (Some(o), Some(p)) =>
      SplitAtDash(x, IntToStr(o), y, IntToStr(p));
      IntToStrInjective(a.gid, b.gid);
      IntToStrInjective(o, p);
    case (Some(o), None) =>
      DashAt(x, IntToStr(o));
      assert false;
    case (None, Some(p)) =>
      DashAt(y, IntToStr(p));
      assert false;
    case (None, None) =>
      IntToStrInjective(a.gid, b.gid);
  }

  /** The identifier `__hash__` and `__str__` use tells nodes apart exactly
      as `__eq__` does: equal identifiers mean equal nodes. */
  lemma UidInjective(a: TacTrNode, b: TacTrNode)
    ensures Uid(a) == Uid(b) <==> a == b
  {
    if Uid(a) == Uid(b) {
      SignOnlyFirst(a.gid);
      SignOnlyFirst(b.gid);
      var ga, gb := GidText(a), GidText(b);
      assert ga[0] == IntToStr(a.gid)[0] && gb[0] == IntToStr(b.gid)[0];
      assert Uid(a)[0] == Uid(b)[0];
      match a.kind {
        case TERM =>
          assert b.kind == TERM;
          assert ga == Uid(a)[1..] && gb == Uid(b)[1..];
        case DEAD =>
          assert b.kind == DEAD;
          assert ga == Uid(a)[1..] && gb == Uid(b)[1..];
        case LIVE =>
          assert b.kind == LIVE;
      }
      GidTextInjective(a, b);
    }
  }

  /** `str(node)` for each node of a path. */
  function Uids(p: seq<TacTrNode>): (r: seq<string>)
    ensures |r| == |p| && forall i :: 0 <= i < |p| ==> r[i] == Uid(p[i])
  {
    seq(|p|, i requires 0 <= i < |p| => Uid(p[i]))
  }

  /** `is_err` and `is_term` on a goal identifier that is text. */
  predicate IsErrGid(gid: string) { StartsWith(gid, "e") }
  predicate IsTermGid(gid: string) { StartsWith(gid, "t") }

  // ---------------------------------------------------------------------
  // Tactic edges

  datatype TacEdge = TacEdge(eid: int, tid: int, name: string, tkind: Tactics.TacKind,
                             ftac: string, src: TacTrNode, tgt: TacTrNode, isbod: bool)

  predicate ConnToDead(e: TacEdge) { e.tgt.kind == DEAD }
  predicate ConnToLive(e: TacEdge) { e.tgt.kind == LIVE }
  predicate ConnToTerm(e: TacEdge) { e.tgt.kind == TERM }

  /** Every edge leads to exactly one of a live, a terminal and an error
      state. */
  lemma ConnExactlyOne(e: TacEdge)
    ensures ConnToDead(e) || ConnToLive(e) || ConnToTerm(e)
    ensures !(ConnToDead(e) && ConnToLive(e)) && !(ConnToDead(e) && ConnToTerm(e)) &&
            !(ConnToLive(e) && ConnToTerm(e))
  {
  }

  /** The source and target of each edge, as the graph records them. */
  function EdgePairs(es: seq<TacEdge>): (r: seq<(TacTrNode, TacTrNode)>)
    ensures |r| == |es| && forall i :: 0 <= i < |es| ==> r[i] == (es[i].src, es[i].tgt)
  {
    seq(|es|, i requires 0 <= i < |es| => (es[i].src, es[i].tgt))
  }

  // ---------------------------------------------------------------------
  // Terminal and error states

  /** The targets of the edges into states of kind `k`, in edge order. */
  function TargetsOf(es: seq<TacEdge>, k: TacStKind): seq<TacTrNode> {
    if es == [] then []
    else TargetsOf(es[..|es| - 1], k) + (if es[|es| - 1].tgt.kind == k then [es[|es| - 1].tgt] else [])
  }

  /** The collected states are exactly the targets of the edges into a
      state of that kind. */
  lemma {:induction false} TargetsOfSpec(es: seq<TacEdge>, k: TacStKind)
    ensures forall v :: v in TargetsOf(es, k) <==>
      v.kind == k && exists i :: 0 <= i < |es| && es[i].tgt == v
  {
    if es != [] {
      var pre := es[..|es| - 1];
      TargetsOfSpec(pre, k);
      assert forall i :: 0 <= i < |pre| ==> pre[i] == es[i];
      forall v: TacTrNode | v.kind == k && exists i :: 0 <= i < |es| && es[i].tgt == v
        ensures v in TargetsOf(es, k)
      {
        var i :| 0 <= i < |es| && es[i].tgt == v;
        if i < |pre| {
          assert pre[i].tgt == v;
        }
      }
    }
  }

  /** Each edge leads to a live, a terminal or an error state, so the three
      collections together have one entry per edge. */
  lemma {:induction false} TargetsPartition(es: seq<TacEdge>)
    ensures |TargetsOf(es, LIVE)| + |TargetsOf(es, TERM)| + |TargetsOf(es, DEAD)| == |es|
  {
    if es != [] {
      TargetsPartition(es[..|es| - 1]);
    }
  }

  // ---------------------------------------------------------------------
  // Tactic invocations

  /** The (tactic identifier, edge) pairs `_tactics` inserts, in edge
      order. */
  function TidPairs(es: seq<TacEdge>): seq<(int, TacEdge)> {
    seq(|es|, i requires 0 <= i < |es| => (es[i].tid, es[i]))
  }

  /** `_tactics`: the edges grouped by tactic identifier. */
  function TacticsOf(es: seq<TacEdge>): map<int, seq<TacEdge>> {
    Groups.GroupPairs(TidPairs(es))
  }

  /** The grouping has a key exactly for each tactic identifier that some
      edge carries. */
  lemma TacticsKeys(es: seq<TacEdge>)
    ensures forall t :: t in TacticsOf(es) <==> exists i :: 0 <= i < |es| && es[i].tid == t
  {
    var ps := TidPairs(es);
    Groups.GroupKeys(ps);
    forall t | t in TacticsOf(es)
      ensures exists i :: 0 <= i < |es| && es[i].tid == t
    {
      var i :| 0 <= i < |ps| && ps[i].0 == t;
      assert es[i].tid == t;
    }
    forall t | exists i :: 0 <= i < |es| && es[i].tid == t
      ensures t in TacticsOf(es)
    {
      var i :| 0 <= i < |es| && es[i].tid == t;
      assert ps[i].0 == t;
    }
  }

  /** Each group is non-empty and holds exactly the edges of its
      invocation, in edge order. */
  lemma TacticsValues(es: seq<TacEdge>, t: int)
    requires t in TacticsOf(es)
    ensures TacticsOf(es)[t] != []
    ensures forall e :: e in TacticsOf(es)[t] <==> e in es && e.tid == t
  {
    var ps := TidPairs(es);
    Groups.GroupValues(ps);
    Groups.ValuesSpec(ps, t);
    forall e | e in es && e.tid == t
      ensures (t, e) in ps
    {
      var i :| 0 <= i < |es| && es[i] == e;
      assert ps[i] == (t, e);
    }
  }

  /** Together the groups hold every edge once: their sizes, over the
      identifiers in first-occurrence order, add up to the number of
      edges. */
  lemma TacticsCover(es: seq<TacEdge>)
    ensures forall i :: 0 <= i < |Groups.KeyOrder(TidPairs(es))| ==> Groups.KeyOrder(TidPairs(es))[i] in TacticsOf(es)
    ensures Groups.SumLens(TacticsOf(es), Groups.KeyOrder(TidPairs(es))) == |es|
  {
    Groups.GroupCovers(TidPairs(es));
  }

  // ---------------------------------------------------------------------
  // The flattened view

  /** An entry of the flattened view: the depth of the target (the nodes on
      a shortest path from the root), the target, its context and goal
      with their identifiers, and the edge. */
  datatype FlatEntry = FlatEntry(depth: nat, node: TacTrNode, info: DeclLexer.TacstInfo, edge: TacEdge)

  /** Why constructing the tree fails: no node satisfies the root rule (the
      `assert self.root`), or the state information of an edge's source is
      missing (the KeyError of `_flatten_view`), or a node is not in the
      graph (the library's error in `in_edge`, `out_edges` and every
      `shortest_path`). */
  datatype TreeError = NoRoot | MissingInfo(gid: int) | NodeMissing(node: TacTrNode)

  /** The tactic identifiers of a prefix of the edges (`seen`). */
  function TidSet(es: seq<TacEdge>): set<int> {
    set i | 0 <= i < |es| :: es[i].tid
  }

  /** One step of `_flatten_view`: a root or target the graph does not
      hold fails; an edge whose target is unreachable from the root, or
      whose invocation was seen before, adds nothing; an edge into a state
      with information adds that state; an edge into a terminal or error
      state without information uses its source's. */
  function EntryFor(es: seq<(TacTrNode, TacTrNode)>, nodes: seq<TacTrNode>, root: TacTrNode,
                    info: map<int, DeclLexer.TacstInfo>, e: TacEdge, seen: set<int>)
    : Result<Option<FlatEntry>, TreeError>
  {
    if !InGraph(nodes, root, e.tgt) then Err(NodeMissing(MissingEnd(nodes, root, e.tgt)))
    else match Dist(es, root, e.tgt)
    case None => Ok(None)
    case Some(d) =>
      if e.tid in seen then Ok(None)
      else if e.tgt.gid in info then Ok(Some(FlatEntry(d + 1, e.tgt, info[e.tgt.gid], e)))
      else if ConnToDead(e) || ConnToTerm(e) then
        if e.src.gid in info then Ok(Some(FlatEntry(d + 1, e.tgt, info[e.src.gid], e)))
        else Err(MissingInfo(e.src.gid))
      else Ok(None)
  }

  /** `_flatten_view` over a prefix of the edges. */
  function FlatAt(es: seq<(TacTrNode, TacTrNode)>, nodes: seq<TacTrNode>, root: TacTrNode, info: map<int, DeclLexer.TacstInfo>,
                  edges: seq<TacEdge>): Result<seq<FlatEntry>, TreeError>
  {
    if edges == [] then Ok([])
    else
      var pre := edges[..|edges| - 1];
      match FlatAt(es, nodes, root, info, pre)
      case Err(x) => Err(x)
      case Ok(fv) =>
        match EntryFor(es, nodes, root, info, edges[|edges| - 1], TidSet(pre))
        case Err(x) => Err(x)
        case Ok(None) => Ok(fv)
        case Ok(Some(entry)) => Ok(fv + [entry])
  }

  /** One more edge of `_flatten_view`. */
  lemma FlatAtNext(es: seq<(TacTrNode, TacTrNode)>, nodes: seq<TacTrNode>, root: TacTrNode, info: map<int, DeclLexer.TacstInfo>,
                   edges: seq<TacEdge>, i: nat, fv: seq<FlatEntry>)
    requires i < |edges| && FlatAt(es, nodes, root, info, edges[..i]) == Ok(fv)
    ensures FlatAt(es, nodes, root, info, edges[..i + 1]) ==
      match EntryFor(es, nodes, root, info, edges[i], TidSet(edges[..i]))
      case Err(x) => Err(x)
      case Ok(None) => Ok(fv)
      case Ok(Some(y)) => Ok(fv + [y])
  {
    var a := edges[..i + 1];
    assert a[..i] == edges[..i] && a[i] == edges[i];
  }

  /** The edge at `i` is the first of its invocation. */
  ghost predicate FirstOfTid(edges: seq<TacEdge>, e: TacEdge) {
    exists i :: 0 <= i < |edges| && edges[i] == e && e.tid !in TidSet(edges[..i])
  }

  /** The state information an entry carries: the target's own when there
      is one, otherwise the source's for a terminal or error target. */
  ghost predicate InfoFits(info: map<int, DeclLexer.TacstInfo>, x: FlatEntry) {
    x.node == x.edge.tgt &&
    if x.node.gid in info then x.info == info[x.node.gid]
    else (ConnToDead(x.edge) || ConnToTerm(x.edge)) && x.edge.src.gid in info && x.info == info[x.edge.src.gid]
  }

  lemma TidSetPrefix(edges: seq<TacEdge>, i: nat)
    requires i < |edges|
    ensures TidSet(edges[..i + 1]) == TidSet(edges[..i]) + {edges[i].tid}
  {
    var a, b := edges[..i + 1], edges[..i];
    assert forall j :: 0 <= j < i ==> a[j] == b[j];
  }

  /** An entry made for an edge: the edge's invocation was not seen, the
      depth counts the nodes on a shortest path to the target, and the
      state information fits. */
  lemma EntryForSpec(es: seq<(TacTrNode, TacTrNode)>, nodes: seq<TacTrNode>, root: TacTrNode, info: map<int, DeclLexer.TacstInfo>,
                     e: TacEdge, seen: set<int>)
    requires EntryFor(es, nodes, root, info, e, seen).Ok? && EntryFor(es, nodes, root, info, e, seen).value.Some?
    ensures var x := EntryFor(es, nodes, root, info, e, seen).value.value;
      x.edge == e && e.tid !in seen && InfoFits(info, x) && x.depth >= 1 &&
      Dist(es, root, x.node) == Some(x.depth - 1)
  {
  }

  /** A view that is built is the view of all edges but the last, with at
      most the last edge's entry after it. */
  lemma FlatAtShape(es: seq<(TacTrNode, TacTrNode)>, nodes: seq<TacTrNode>, root: TacTrNode, info: map<int, DeclLexer.TacstInfo>,
                    edges: seq<TacEdge>)
    requires edges != [] && FlatAt(es, nodes, root, info, edges).Ok?
    ensures FlatAt(es, nodes, root, info, edges[..|edges| - 1]).Ok?
    ensures var fv := FlatAt(es, nodes, root, info, edges[..|edges| - 1]).value;
      var all := FlatAt(es, nodes, root, info, edges).value;
      var x := EntryFor(es, nodes, root, info, edges[|edges| - 1], TidSet(edges[..|edges| - 1]));
      x.Ok? && (x.value.None? ==> all == fv) && (x.value.Some? ==> all == fv + [x.value.value])
  {
  }

  /** Every entry of the flattened view has a depth that is the number of
      nodes on a shortest path from the root to its target, and carries
      the right state information. */
  lemma {:induction false} FlatAtEntries(es: seq<(TacTrNode, TacTrNode)>, nodes: seq<TacTrNode>, root: TacTrNode,
                                         info: map<int, DeclLexer.TacstInfo>, edges: seq<TacEdge>)
    requires FlatAt(es, nodes, root, info, edges).Ok?
    ensures var fv := FlatAt(es, nodes, root, info, edges).value;
      forall j :: 0 <= j < |fv| ==>
        InfoFits(info, fv[j]) && fv[j].depth >= 1 && Dist(es, root, fv[j].node) == Some(fv[j].depth - 1)
  {
    if edges != [] {
      var pre := edges[..|edges| - 1];
      FlatAtShape(es, nodes, root, info, edges);
      FlatAtEntries(es, nodes, root, info, pre);
      var x := EntryFor(es, nodes, root, info, edges[|edges| - 1], TidSet(pre));
      if x.value.Some? {
        EntryForSpec(es, nodes, root, info, edges[|edges| - 1], TidSet(pre));
      }
    }
  }

  /** Every entry comes from the first edge of its invocation: an
      invocation whose first edge was skipped has no entry. */
  lemma {:induction false} FlatAtFirst(es: seq<(TacTrNode, TacTrNode)>, nodes: seq<TacTrNode>, root: TacTrNode,
                                       info: map<int, DeclLexer.TacstInfo>, edges: seq<TacEdge>)
    requires FlatAt(es, nodes, root, info, edges).Ok?
    ensures var fv := FlatAt(es, nodes, root, info, edges).value;
      forall j :: 0 <= j < |fv| ==> FirstOfTid(edges, fv[j].edge)
  {
    if edges != [] {
      var n := |edges| - 1;
      var pre := edges[..n];
      FlatAtShape(es, nodes, root, info, edges);
      FlatAtFirst(es, nodes, root, info, pre);
      var fv := FlatAt(es, nodes, root, info, pre).value;
      forall j | 0 <= j < |fv|
        ensures FirstOfTid(edges, fv[j].edge)
      {
        var i :| 0 <= i < |pre| && pre[i] == fv[j].edge && fv[j].edge.tid !in TidSet(pre[..i]);
        assert pre[..i] == edges[..i];
      }
      var x := EntryFor(es, nodes, root, info, edges[n], TidSet(pre));
      if x.value.Some? {
        EntryForSpec(es, nodes, root, info, edges[n], TidSet(pre));
        assert FirstOfTid(edges, edges[n]);
      }
    }
  }

  /** At most one entry per invocation. */
  lemma {:induction false} FlatAtDistinct(es: seq<(TacTrNode, TacTrNode)>, nodes: seq<TacTrNode>, root: TacTrNode,
                                          info: map<int, DeclLexer.TacstInfo>, edges: seq<TacEdge>)
    requires FlatAt(es, nodes, root, info, edges).Ok?
    ensures var fv := FlatAt(es, nodes, root, info, edges).value;
      (forall j :: 0 <= j < |fv| ==> fv[j].edge.tid in TidSet(edges)) &&
      forall j, k :: 0 <= j < k < |fv| ==> fv[j].edge.tid != fv[k].edge.tid
  {
    if edges != [] {
      var n := |edges| - 1;
      var pre := edges[..n];
      FlatAtShape(es, nodes, root, info, edges);
      FlatAtDistinct(es, nodes, root, info, pre);
      TidSetPrefix(edges, n);
      assert edges[..n + 1] == edges;
      var x := EntryFor(es, nodes, root, info, edges[n], TidSet(pre));
      if x.value.Some? {
        EntryForSpec(es, nodes, root, info, edges[n], TidSet(pre));
      }
    }
  }

  /** No edge is lost: the first edge of each invocation whose target is
      reachable from the root and that has state to show has an entry. */
  lemma {:induction false} FlatAtComplete(es: seq<(TacTrNode, TacTrNode)>, nodes: seq<TacTrNode>, root: TacTrNode,
                                          info: map<int, DeclLexer.TacstInfo>, edges: seq<TacEdge>, i: nat)
    requires FlatAt(es, nodes, root, info, edges).Ok?
    requires i < |edges| && edges[i].tid !in TidSet(edges[..i]) && Dist(es, root, edges[i].tgt).Some?
    requires edges[i].tgt.gid in info || ConnToDead(edges[i]) || ConnToTerm(edges[i])
    ensures edges[i] in Edges(FlatAt(es, nodes, root, info, edges).value)
  {
    var n := |edges| - 1;
    var pre := edges[..n];
    assert FlatAt(es, nodes, root, info, pre).Ok?;
    var fv := FlatAt(es, nodes, root, info, pre).value;
    var all := FlatAt(es, nodes, root, info, edges).value;
    assert forall j :: 0 <= j < |fv| ==> all[j] == fv[j];
    if i < n {
      assert pre[i] == edges[i] && pre[..i] == edges[..i];
      FlatAtComplete(es, nodes, root, info, pre, i);
      var j :| 0 <= j < |fv| && fv[j].edge == edges[i];
      assert Edges(all)[j] == edges[i];
    } else {
      assert all == fv + [EntryFor(es, nodes, root, info, edges[n], TidSet(pre)).value.value];
      assert Edges(all)[|fv|] == edges[i];
    }
  }

  /** The edges of a flattened view's entries. */
  function Edges(fv: seq<FlatEntry>): (r: seq<TacEdge>)
    ensures |r| == |fv| && forall j :: 0 <= j < |fv| ==> r[j] == fv[j].edge
  {
    seq(|fv|, j requires 0 <= j < |fv| => fv[j].edge)
  }

  /** The view of a prefix fails with a prefix's failure. */
  lemma {:induction false} FlatAtPrefixErr(es: seq<(TacTrNode, TacTrNode)>, nodes: seq<TacTrNode>, root: TacTrNode,
                                           info: map<int, DeclLexer.TacstInfo>, edges: seq<TacEdge>, i: nat)
    requires i <= |edges| && FlatAt(es, nodes, root, info, edges[..i]).Err?
    ensures FlatAt(es, nodes, root, info, edges) == FlatAt(es, nodes, root, info, edges[..i])
    decreases |edges| - i
  {
    if i < |edges| {
      var a := edges[..i + 1];
      assert a[..i] == edges[..i];
      FlatAtPrefixErr(es, nodes, root, info, edges, i + 1);
    } else {
      assert edges[..i] == edges;
    }
  }

  /** Construction fails exactly when the root or some edge's target is
      not in the graph, or some edge is the first of its invocation, its
      target is reachable, it leads to a terminal or error state without
      information, and its source has none either. */
  lemma {:induction false} FlatAtErrIff(es: seq<(TacTrNode, TacTrNode)>, nodes: seq<TacTrNode>, root: TacTrNode,
                                        info: map<int, DeclLexer.TacstInfo>, edges: seq<TacEdge>)
    ensures FlatAt(es, nodes, root, info, edges).Err? <==>
      exists i :: 0 <= i < |edges| && FailsAt(es, nodes, root, info, edges, i)
  {
    if edges != [] {
      var n := |edges| - 1;
      var pre := edges[..n];
      FlatAtErrIff(es, nodes, root, info, pre);
      forall i | 0 <= i < n
        ensures FailsAt(es, nodes, root, info, pre, i) == FailsAt(es, nodes, root, info, edges, i)
      {
        assert pre[i] == edges[i] && pre[..i] == edges[..i];
      }
      assert FlatAt(es, nodes, root, info, edges).Err? <==>
        FlatAt(es, nodes, root, info, pre).Err? || EntryFor(es, nodes, root, info, edges[n], TidSet(pre)).Err?;
      assert EntryFor(es, nodes, root, info, edges[n], TidSet(pre)).Err? <==> FailsAt(es, nodes, root, info, edges, n);
    }
  }

  /** The edge at `i` raises the KeyError of `_flatten_view`. */
  predicate MissesInfo(es: seq<(TacTrNode, TacTrNode)>, root: TacTrNode, info: map<int, DeclLexer.TacstInfo>,
                       edges: seq<TacEdge>, i: nat)
    requires i < |edges|
  {
    var e := edges[i];
    Dist(es, root, e.tgt).Some? && e.tid !in TidSet(edges[..i]) && e.tgt.gid !in info &&
    (ConnToDead(e) || ConnToTerm(e)) && e.src.gid !in info
  }

  /** The edge at `i` stops `_flatten_view`: the library cannot find the
      root or the target, or the state information is missing. */
  predicate FailsAt(es: seq<(TacTrNode, TacTrNode)>, nodes: seq<TacTrNode>, root: TacTrNode,
                    info: map<int, DeclLexer.TacstInfo>, edges: seq<TacEdge>, i: nat)
    requires i < |edges|
  {
    !InGraph(nodes, root, edges[i].tgt) || MissesInfo(es, root, info, edges, i)
  }

  /** The body of the loop of `_flatten_view` for one edge. */
  method Entry(es: seq<(TacTrNode, TacTrNode)>, nodes: seq<TacTrNode>, s: TacTrNode, tacstInfo: map<int, DeclLexer.TacstInfo>,
             e: TacEdge, seen: set<int>)
    returns (x: Result<Option<FlatEntry>, TreeError>)
    ensures x == EntryFor(es, nodes, s, tacstInfo, e, seen)
  {
    if !InGraph(nodes, s, e.tgt) {
      return Err(NodeMissing(MissingEnd(nodes, s, e.tgt)));
    }
    var p := ShortestPath(es, s, e.tgt);
    if p.None? {
      return Ok(None);
    }
    var depth := |p.value|;
    if e.tid in seen {
      x := Ok(None);
    } else if e.tgt.gid in tacstInfo {
      x := Ok(Some(FlatEntry(depth, e.tgt, tacstInfo[e.tgt.gid], e)));
    } else if ConnToDead(e) || ConnToTerm(e) {
      if e.src.gid in tacstInfo {
        x := Ok(Some(FlatEntry(depth, e.tgt, tacstInfo[e.src.gid], e)));
      } else {
        x := Err(MissingInfo(e.src.gid));
      }
    } else {
      x := Ok(None);
    }
  }

  /** The loop of `_flatten_view`, with `seen` the invocations met so
      far. */
  method FlattenView(es: seq<(TacTrNode, TacTrNode)>, nodes: seq<TacTrNode>, s: TacTrNode, tacstInfo: map<int, DeclLexer.TacstInfo>,
                     edges: seq<TacEdge>) returns (r: Result<seq<FlatEntry>, TreeError>)
    ensures r == FlatAt(es, nodes, s, tacstInfo, edges)
  {
    var fv := [];
    var seen: set<int> := {};
    var i := 0;
    while i < |edges|
      invariant 0 <= i <= |edges|
      invariant seen == TidSet(edges[..i])
      invariant FlatAt(es, nodes, s, tacstInfo, edges[..i]) == Ok(fv)
    {
      var e := edges[i];
      var x := Entry(es, nodes, s, tacstInfo, e, seen);
      FlatAtNext(es, nodes, s, tacstInfo, edges, i, fv);
      if x.Err? {
        FlatAtPrefixErr(es, nodes, s, tacstInfo, edges, i + 1);
        return Err(x.error);
      }
      if x.value.Some? {
        fv := fv + [x.value.value];
      }
      TidSetPrefix(edges, i);
      seen := seen + {e.tid};
      i := i + 1;
    }
    assert edges[..i] == edges;
    r := Ok(fv);
  }

  /** A result without its value. */
  function Outcome<T>(r: Result<T, TreeError>): (o: Result<(), TreeError>)
    ensures o.Ok? <==> r.Ok?
    ensures o.Err? ==> o.error == r.error
  {
    match r
    case Ok(_) => Ok(())
    case Err(x) => Err(x)
  }

  // ---------------------------------------------------------------------
  // Paths to goals

  /** `edge.name.startswith("<ssreflect_plugin::ssrhave@0>") and edge.isbod`. */
  predicate IsHaveBody(e: TacEdge) {
    StartsWith(e.name, "<ssreflect_plugin::ssrhave@0>") && e.isbod
  }

  /** The edges `view_have_info` reports, in order. */
  function HaveEdges(es: seq<TacEdge>): seq<TacEdge> {
    if es == [] then []
    else HaveEdges(es[..|es| - 1]) + (if IsHaveBody(es[|es| - 1]) then [es[|es| - 1]] else [])
  }

  lemma {:induction false} HaveEdgesSpec(es: seq<TacEdge>)
    ensures forall e :: e in HaveEdges(es) <==> e in es && IsHaveBody(e)
  {
    if es != [] {
      HaveEdgesSpec(es[..|es| - 1]);
      assert es == es[..|es| - 1] + [es[|es| - 1]];
    }
  }

  /** The edges a prefix of the edges contributes come first. */
  lemma {:induction false} HaveEdgesPrefix(es: seq<TacEdge>, n: nat)
    requires n <= |es|
    ensures |HaveEdges(es[..n])| <= |HaveEdges(es)|
    ensures HaveEdges(es)[..|HaveEdges(es[..n])|] == HaveEdges(es[..n])
  {
    if n < |es| {
      var pre := es[..|es| - 1];
      assert pre[..n] == es[..n];
      HaveEdgesPrefix(pre, n);
    } else {
      assert es[..n] == es;
    }
  }

  /** One more edge adds itself to the `have` edges when it is one. */
  lemma HaveEdgesStep(es: seq<TacEdge>, i: nat)
    requires i < |es|
    ensures HaveEdges(es[..i + 1]) == HaveEdges(es[..i]) + (if IsHaveBody(es[i]) then [es[i]] else [])
  {
    assert es[..i + 1][..i] == es[..i];
  }

  /** A `have` edge at `i` comes right after those of the edges before it. */
  lemma HaveEdgesAt(es: seq<TacEdge>, i: nat)
    requires i < |es| && IsHaveBody(es[i])
    ensures var hs := HaveEdges(es[..i]);
      |hs| < |HaveEdges(es)| && HaveEdges(es)[|hs|] == es[i] &&
      forall j :: 0 <= j < |hs| ==> HaveEdges(es)[j] == hs[j]
  {
    HaveEdgesStep(es, i);
    HaveEdgesPrefix(es, i + 1);
    var hs := HaveEdges(es[..i]);
    assert HaveEdges(es)[..|hs| + 1] == hs + [es[i]];
  }

  /** An entry of `view_have_info`: the full tactic, its length and the
      identifiers on a shortest path to a terminal state. */
  datatype HaveInfo = HaveInfo(ftac: string, len: nat, path: seq<string>)

  // ---------------------------------------------------------------------
  // Context items by depth

  /** The value `view_depth_ctx_items` files for an entry: the number of
      context identifiers, or 0 when its context is empty. */
  function CtxItems(e: FlatEntry): nat {
    if |e.info.ctx| > 0 then |e.info.idents| else 0
  }

  /** The (depth, item count) pairs `view_depth_ctx_items` inserts. */
  function CtxItemPairs(fv: seq<FlatEntry>): seq<(nat, nat)> {
    seq(|fv|, i requires 0 <= i < |fv| => (fv[i].depth, CtxItems(fv[i])))
  }

  /** The item counts of the entries at depth `d`, in view order. */
  function CtxItemsAt(fv: seq<FlatEntry>, d: nat): seq<nat> {
    if fv == [] then []
    else CtxItemsAt(fv[..|fv| - 1], d) + (if fv[|fv| - 1].depth == d then [CtxItems(fv[|fv| - 1])] else [])
  }

  lemma {:induction false} CtxItemValues(fv: seq<FlatEntry>, d: nat)
    ensures Groups.Values(CtxItemPairs(fv), d) == CtxItemsAt(fv, d)
  {
    if fv != [] {
      CtxItemValues(fv[..|fv| - 1], d);
      assert CtxItemPairs(fv)[..|fv| - 1] == CtxItemPairs(fv[..|fv| - 1]);
    }
  }

  /** A grouping by depth has a key exactly for the depths of the
      entries. */
  lemma DepthItemKeys(fv: seq<FlatEntry>, ps: seq<(nat, nat)>)
    requires |ps| == |fv| && forall i :: 0 <= i < |fv| ==> ps[i].0 == fv[i].depth
    ensures forall d :: d in Groups.GroupPairs(ps) <==> exists i :: 0 <= i < |fv| && fv[i].depth == d
  {
    Groups.GroupKeys(ps);
  }

  /** `view_depth_ctx_items`: its keys are the depths of the entries, each
      list holds the item counts of the entries at its depth in view
      order, and the lists hold one value per entry. */
  lemma DepthCtxItemsSpec(fv: seq<FlatEntry>)
    ensures forall d :: d in Groups.GroupPairs(CtxItemPairs(fv)) <==> exists i :: 0 <= i < |fv| && fv[i].depth == d
    ensures forall d :: d in Groups.GroupPairs(CtxItemPairs(fv)) ==> Groups.GroupPairs(CtxItemPairs(fv))[d] == CtxItemsAt(fv, d)
    ensures forall i :: 0 <= i < |Groups.KeyOrder(CtxItemPairs(fv))| ==> Groups.KeyOrder(CtxItemPairs(fv))[i] in Groups.GroupPairs(CtxItemPairs(fv))
    ensures Groups.SumLens(Groups.GroupPairs(CtxItemPairs(fv)), Groups.KeyOrder(CtxItemPairs(fv))) == |fv|
  {
    var ps := CtxItemPairs(fv);
    DepthItemKeys(fv, ps);
    Groups.GroupValues(ps);
    Groups.GroupCovers(ps);
    forall d | d in Groups.GroupPairs(ps)
      ensures Groups.GroupPairs(ps)[d] == CtxItemsAt(fv, d)
    {
      CtxItemValues(fv, d);
    }
  }

  // ---------------------------------------------------------------------
  // The tree

  class TacTree {
    const name: string
    const edges: seq<TacEdge>
    const graph: Graph<TacTrNode>
    const tacstInfo: map<int, DeclLexer.TacstInfo>
    var notok: seq<string>
    var root: Option<TacTrNode>
    var goals: seq<TacTrNode>
    var termGoals: seq<TacTrNode>
    var errGoals: seq<TacTrNode>
    var tactics: map<int, seq<TacEdge>>
    var flatview: seq<FlatEntry>

    /** The inputs of `__init__`, before anything is computed from them. */
    constructor (name: string, edges: seq<TacEdge>, graph: Graph<TacTrNode>,
                     tacstInfo: map<int, DeclLexer.TacstInfo>)
      ensures this.name == name && this.edges == edges && this.graph == graph && this.tacstInfo == tacstInfo
      ensures notok == [] && root == None && goals == [] && termGoals == [] && errGoals == []
      ensures tactics == map[] && flatview == []
    {
      this.name := name;
      this.edges := edges;
      this.graph := graph;
      this.tacstInfo := tacstInfo;
      notok := [];
      root := None;
      goals := [];
      termGoals := [];
      errGoals := [];
      tactics := map[];
      flatview := [];
    }

    /** What `__init__` leaves in the fields once it returns. */
    ghost predicate Built()
      reads this
    {
      root == FirstRoot(graph.nodes, graph.edges) && root.Some? &&
      goals == graph.nodes && termGoals == TargetsOf(edges, TERM) && errGoals == TargetsOf(edges, DEAD) &&
      tactics == TacticsOf(edges) &&
      FlatAt(graph.edges, graph.nodes, root.value, tacstInfo, edges) == Ok(flatview)
    }

    /** `_root`: the first node all of whose incoming edges are
        self-loops. */
    method ComputeRoot()
      modifies this
      ensures root == FirstRoot(graph.nodes, graph.edges)
      ensures notok == old(notok) && goals == old(goals) && termGoals == old(termGoals)
      ensures errGoals == old(errGoals) && tactics == old(tactics) && flatview == old(flatview)
    {
      root := FindRoot(graph);
    }

    /** `_goals`: every node of the graph. */
    method ComputeGoals()
      modifies this
      ensures goals == graph.nodes
      ensures notok == old(notok) && root == old(root) && termGoals == old(termGoals)
      ensures errGoals == old(errGoals) && tactics == old(tactics) && flatview == old(flatview)
    {
      goals := graph.nodes;
    }

    /** `_term_goals` and `_err_goals`: the targets of the edges into
        terminal, respectively error, states. */
    method ComputeTermGoals()
      modifies this
      ensures termGoals == TargetsOf(edges, TERM)
      ensures notok == old(notok) && root == old(root) && goals == old(goals)
      ensures errGoals == old(errGoals) && tactics == old(tactics) && flatview == old(flatview)
    {
      var acc := [];
      var i := 0;
      while i < |edges|
        invariant 0 <= i <= |edges|
        invariant acc == TargetsOf(edges[..i], TERM)
      {
        assert edges[..i + 1][..i] == edges[..i];
        if ConnToTerm(edges[i]) {
          acc := acc + [edges[i].tgt];
        }
        i := i + 1;
      }
      assert edges[..i] == edges;
      termGoals := acc;
    }

    method ComputeErrGoals()
      modifies this
      ensures errGoals == TargetsOf(edges, DEAD)
      ensures notok == old(notok) && root == old(root) && goals == old(goals)
      ensures termGoals == old(termGoals) && tactics == old(tactics) && flatview == old(flatview)
    {
      var acc := [];
      var i := 0;
      while i < |edges|
        invariant 0 <= i <= |edges|
        invariant acc == TargetsOf(edges[..i], DEAD)
      {
        assert edges[..i + 1][..i] == edges[..i];
        if ConnToDead(edges[i]) {
          acc := acc + [edges[i].tgt];
        }
        i := i + 1;
      }
      assert edges[..i] == edges;
      errGoals := acc;
    }

    /** `_tactics`: the edges grouped by tactic invocation. */
    method ComputeTactics()
      modifies this
      ensures tactics == TacticsOf(edges)
      ensures notok == old(notok) && root == old(root) && goals == old(goals)
      ensures termGoals == old(termGoals) && errGoals == old(errGoals) && flatview == old(flatview)
    {
      var m, _ := Groups.Group(TidPairs(edges));
      tactics := m;
    }

    /** `_flatten_view`, with its KeyError as an error result. */
    method ComputeFlatView() returns (r: Result<(), TreeError>)
      requires root.Some?
      modifies this
      ensures root == old(root)
      ensures r == Outcome(FlatAt(graph.edges, graph.nodes, root.value, tacstInfo, edges))
      ensures r.Ok? ==> FlatAt(graph.edges, graph.nodes, root.value, tacstInfo, edges) == Ok(flatview)
      ensures r.Err? ==> flatview == old(flatview)
      ensures notok == old(notok) && goals == old(goals)
      ensures termGoals == old(termGoals) && errGoals == old(errGoals) && tactics == old(tactics)
    {
      var fv := FlattenView(graph.edges, graph.nodes, root.value, tacstInfo, edges);
      if fv.Err? {
        return Err(fv.error);
      }
      flatview := fv.value;
      r := Ok(());
    }

    /** `in_edge(gid)`: the edges into `v` from its predecessors. */
    method InEdge(v: TacTrNode) returns (r: Result<seq<TacEdge>, TreeError>)
      ensures v !in graph.nodes ==> r == Err(NodeMissing(v))
      ensures v in graph.nodes ==> (r.Ok? &&
        forall e :: e in r.value <==> e in edges && e.tgt == v && e.src in Preds(graph.edges, v))
      ensures r.Ok? ==> r.value == Into(edges, Preds(graph.edges, v), v)
    {
      if v !in graph.nodes {
        return Err(NodeMissing(v));
      }
      var gids := Preds(graph.edges, v);
      var acc := [];
      var i := 0;
      while i < |edges|
        invariant 0 <= i <= |edges|
        invariant acc == Into(edges[..i], gids, v)
      {
        assert edges[..i + 1][..i] == edges[..i];
        if edges[i].src in gids && edges[i].tgt == v {
          acc := acc + [edges[i]];
        }
        i := i + 1;
      }
      assert edges[..i] == edges;
      IntoSpec(edges, gids, v);
      r := Ok(acc);
    }

    /** `out_edges(gid)`: the edges from `v` to its successors. */
    method OutEdges(v: TacTrNode) returns (r: Result<seq<TacEdge>, TreeError>)
      ensures v !in graph.nodes ==> r == Err(NodeMissing(v))
      ensures v in graph.nodes ==> (r.Ok? &&
        forall e :: e in r.value <==> e in edges && e.src == v && e.tgt in Succs(graph.edges, v))
      ensures r.Ok? ==> r.value == OutOf(edges, Succs(graph.edges, v), v)
    {
      if v !in graph.nodes {
        return Err(NodeMissing(v));
      }
      var gids := Succs(graph.edges, v);
      var acc := [];
      var i := 0;
      while i < |edges|
        invariant 0 <= i <= |edges|
        invariant acc == OutOf(edges[..i], gids, v)
      {
        assert edges[..i + 1][..i] == edges[..i];
        if edges[i].tgt in gids && edges[i].src == v {
          acc := acc + [edges[i]];
        }
        i := i + 1;
      }
      assert edges[..i] == edges;
      OutOfSpec(edges, gids, v);
      r := Ok(acc);
    }

    /** `view_err_paths`: shortest paths from the root to the error
        states that can be reached, the others reported in `notok`; the
        first error state the graph does not hold raises the library's
        error, after the states before it were reported. */
    method ViewErrPaths() returns (r: Result<seq<seq<TacTrNode>>, TreeError>)
      requires root.Some?
      modifies this
      ensures root == old(root) && goals == old(goals) && errGoals == old(errGoals) && termGoals == old(termGoals)
      ensures var k := FirstStray(graph.nodes, root.value, errGoals);
        (r.Err? <==> k.Some?) &&
        (r.Err? ==> r.error == NodeMissing(MissingEnd(graph.nodes, root.value, errGoals[k.value]))) &&
        notok == old(notok) + Uids(Unreachable(graph.edges, root.value, Before(errGoals, k)))
      ensures r.Ok? ==> |r.value| == |ReachableOf(graph.edges, root.value, errGoals)|
      ensures r.Ok? ==> forall i :: 0 <= i < |r.value| ==>
        IsPath(graph.edges, r.value[i], root.value, ReachableOf(graph.edges, root.value, errGoals)[i]) &&
        Dist(graph.edges, root.value, ReachableOf(graph.edges, root.value, errGoals)[i]) == Some(|r.value[i]| - 1)
      ensures tactics == old(tactics) && flatview == old(flatview)
    {
      var acc, missing, stray := PathsTo(graph.edges, graph.nodes, root.value, errGoals);
      notok := notok + Uids(missing);
      if stray.Some? {
        return Err(NodeMissing(MissingEnd(graph.nodes, root.value, errGoals[stray.value])));
      }
      r := Ok(acc);
    }

    /** `view_term_paths`: the same for the terminal states. */
    method ViewTermPaths() returns (r: Result<seq<seq<TacTrNode>>, TreeError>)
      requires root.Some?
      modifies this
      ensures root == old(root) && goals == old(goals) && errGoals == old(errGoals) && termGoals == old(termGoals)
      ensures var k := FirstStray(graph.nodes, root.value, termGoals);
        (r.Err? <==> k.Some?) &&
        (r.Err? ==> r.error == NodeMissing(MissingEnd(graph.nodes, root.value, termGoals[k.value]))) &&
        notok == old(notok) + Uids(Unreachable(graph.edges, root.value, Before(termGoals, k)))
      ensures r.Ok? ==> |r.value| == |ReachableOf(graph.edges, root.value, termGoals)|
      ensures r.Ok? ==> forall i :: 0 <= i < |r.value| ==>
        IsPath(graph.edges, r.value[i], root.value, ReachableOf(graph.edges, root.value, termGoals)[i]) &&
        Dist(graph.edges, root.value, ReachableOf(graph.edges, root.value, termGoals)[i]) == Some(|r.value[i]| - 1)
      ensures tactics == old(tactics) && flatview == old(flatview)
    {
      var acc, missing, stray := PathsTo(graph.edges, graph.nodes, root.value, termGoals);
      notok := notok + Uids(missing);
      if stray.Some? {
        return Err(NodeMissing(MissingEnd(graph.nodes, root.value, termGoals[stray.value])));
      }
      r := Ok(acc);
    }

    /** How the search for a terminal state from the source of `e` ends. */
    ghost function Lookup(e: TacEdge): Result<Option<TacTrNode>, TacTrNode>
      reads this
    {
      FirstGoal(graph.edges, graph.nodes, e.src, termGoals)
    }

    /** The entry `view_have_info` makes for `e` from the path it found:
        the full tactic, its length and the identifiers on a shortest path
        from the source of `e` to the first terminal state reachable from
        it, empty when there is none. */
    ghost predicate HaveFits(e: TacEdge, h: HaveInfo, path: seq<TacTrNode>)
      reads this
    {
      h.ftac == e.ftac && h.len == |e.ftac| && h.path == Uids(path) &&
      (FirstReachable(graph.edges, e.src, termGoals).None? ==> path == []) &&
      (FirstReachable(graph.edges, e.src, termGoals).Some? ==>
         IsPath(graph.edges, path, e.src, FirstReachable(graph.edges, e.src, termGoals).value) &&
         Dist(graph.edges, e.src, FirstReachable(graph.edges, e.src, termGoals).value) == Some(|path| - 1))
    }

    /** The body of `view_have_info` for one `have` edge. */
    method HaveOf(e: TacEdge) returns (x: Result<HaveInfo, TacTrNode>, ghost path: seq<TacTrNode>)
      ensures x.Err? <==> Lookup(e).Err?
      ensures x.Err? ==> Lookup(e) == Err(x.error)
      ensures x.Ok? ==> HaveFits(e, x.value, path)
    {
      var p := FirstGoalPath(graph.edges, graph.nodes, e.src, termGoals);
      if p.Err? {
        return Err(p.error), [];
      }
      path := p.value;
      x := Ok(HaveInfo(e.ftac, |e.ftac|, Uids(p.value)));
    }

    /** `view_have_info`: an entry for each body edge of an ssreflect
        `have`, in order; the first search that meets a node the graph
        does not hold raises the library's error. */
    method ViewHaveInfo() returns (r: Result<seq<HaveInfo>, TreeError>, ghost paths: seq<seq<TacTrNode>>)
      ensures r.Ok? <==> forall i :: 0 <= i < |HaveEdges(edges)| ==> Lookup(HaveEdges(edges)[i]).Ok?
      ensures r.Err? ==> r.error.NodeMissing?
      ensures r.Err? && r.error.NodeMissing? ==>
        exists i :: 0 <= i < |HaveEdges(edges)| && Lookup(HaveEdges(edges)[i]) == Err(r.error.node) &&
          forall j :: 0 <= j < i ==> Lookup(HaveEdges(edges)[j]).Ok?
      ensures r.Ok? ==> |r.value| == |HaveEdges(edges)| && |paths| == |r.value|
      ensures r.Ok? ==> forall i :: 0 <= i < |r.value| ==> HaveFits(HaveEdges(edges)[i], r.value[i], paths[i])
    {
      var acc: seq<HaveInfo> := [];
      paths := [];
      var i := 0;
      while i < |edges|
        invariant 0 <= i <= |edges|
        invariant |acc| == |HaveEdges(edges[..i])| && |paths| == |acc|
        invariant forall j :: 0 <= j < |acc| ==> Lookup(HaveEdges(edges[..i])[j]).Ok?
        invariant forall j :: 0 <= j < |acc| ==> HaveFits(HaveEdges(edges[..i])[j], acc[j], paths[j])
      {
        HaveEdgesStep(edges, i);
        var e := edges[i];
        if IsHaveBody(e) {
          var x, path := HaveOf(e);
          if x.Err? {
            HaveEdgesAt(edges, i);
            assert Lookup(HaveEdges(edges)[|acc|]) == Err(x.error);
            return Err(NodeMissing(x.error)), paths;
          }
          acc := acc + [x.value];
          paths := paths + [path];
        }
        i := i + 1;
      }
      assert edges[..i] == edges;
      r := Ok(acc);
    }

    /** `view_depth_ctx_items`: the context item counts of the entries,
        grouped by depth. */
    method ViewDepthCtxItems() returns (hist: map<nat, seq<nat>>)
      ensures hist == Groups.GroupPairs(CtxItemPairs(flatview))
    {
      var order;
      hist, order := Groups.Group(CtxItemPairs(flatview));
    }
  }

  /** `__init__` from `name`, `edges`, `graph` and `tacst_info`: every
      step in the source's order, failing when no root is found or when
      the flattened view misses state information. */
  method Build(name: string, edges: seq<TacEdge>, graph: Graph<TacTrNode>,
               tacstInfo: map<int, DeclLexer.TacstInfo>) returns (r: Result<TacTree, TreeError>)
    ensures Outcome(r) == BuildOutcome(edges, graph, tacstInfo)
    ensures r.Ok? ==> (fresh(r.value) && r.value.Built() && r.value.notok == [] &&
      r.value.name == name && r.value.edges == edges && r.value.graph == graph && r.value.tacstInfo == tacstInfo)
  {
    var t := new TacTree(name, edges, graph, tacstInfo);
    t.ComputeRoot();
    if t.root.None? {
      return Err(NoRoot);
    }
    t.ComputeGoals();
    t.ComputeTermGoals();
    t.ComputeErrGoals();
    t.ComputeTactics();
    var ok := t.ComputeFlatView();
    if ok.Err? {
      return Err(ok.error);
    }
    r := Ok(t);
  }

  /** Whether `__init__` returns, and with which error it fails. */
  function BuildOutcome(edges: seq<TacEdge>, graph: Graph<TacTrNode>,
                        tacstInfo: map<int, DeclLexer.TacstInfo>): Result<(), TreeError>
  {
    match FirstRoot(graph.nodes, graph.edges)
    case None => Err(NoRoot)
    case Some(root) => Outcome(FlatAt(graph.edges, graph.nodes, root, tacstInfo, edges))
  }

  /** The tree is built exactly when some node satisfies the root rule,
      every edge's target is in the graph and no edge misses its state
      information. */
  lemma BuildOutcomeSpec(edges: seq<TacEdge>, graph: Graph<TacTrNode>, tacstInfo: map<int, DeclLexer.TacstInfo>)
    ensures BuildOutcome(edges, graph, tacstInfo).Ok? <==>
      FirstRoot(graph.nodes, graph.edges).Some? &&
      forall i :: 0 <= i < |edges| ==>
        edges[i].tgt in graph.nodes &&
        !MissesInfo(graph.edges, FirstRoot(graph.nodes, graph.edges).value, tacstInfo, edges, i)
  {
    FirstRootSpec(graph.nodes, graph.edges);
    if FirstRoot(graph.nodes, graph.edges).Some? {
      var root := FirstRoot(graph.nodes, graph.edges).value;
      assert root in graph.nodes;
      FlatAtErrIff(graph.edges, graph.nodes, root, tacstInfo, edges);
      forall i | 0 <= i < |edges|
        ensures FailsAt(graph.edges, graph.nodes, root, tacstInfo, edges, i) <==>
          edges[i].tgt !in graph.nodes || MissesInfo(graph.edges, root, tacstInfo, edges, i)
      {
      }
    }
  }

  // ---------------------------------------------------------------------
  // Edges into and out of a node

  /** The edges into `v` whose source is in `srcs`. */
  function Into(es: seq<TacEdge>, srcs: set<TacTrNode>, v: TacTrNode): seq<TacEdge> {
    if es == [] then []
    else
      var e := es[|es| - 1];
      Into(es[..|es| - 1], srcs, v) + (if e.src in srcs && e.tgt == v then [e] else [])
  }

  /** The edges out of `v` whose target is in `tgts`. */
  function OutOf(es: seq<TacEdge>, tgts: set<TacTrNode>, v: TacTrNode): seq<TacEdge> {
    if es == [] then []
    else
      var e := es[|es| - 1];
      OutOf(es[..|es| - 1], tgts, v) + (if e.tgt in tgts && e.src == v then [e] else [])
  }

  lemma {:induction false} IntoSpec(es: seq<TacEdge>, srcs: set<TacTrNode>, v: TacTrNode)
    ensures forall e :: e in Into(es, srcs, v) <==> e in es && e.tgt == v && e.src in srcs
  {
    if es != [] {
      IntoSpec(es[..|es| - 1], srcs, v);
      assert es == es[..|es| - 1] + [es[|es| - 1]];
    }
  }

  lemma {:induction false} OutOfSpec(es: seq<TacEdge>, tgts: set<TacTrNode>, v: TacTrNode)
    ensures forall e :: e in OutOf(es, tgts, v) <==> e in es && e.src == v && e.tgt in tgts
  {
    if es != [] {
      OutOfSpec(es[..|es| - 1], tgts, v);
      assert es == es[..|es| - 1] + [es[|es| - 1]];
    }
  }

  /** When the graph is the tactic edges' endpoints, the predecessor test
      of `in_edge` keeps every edge into `v`, so there are as many as `v`'s
      in-degree. */
  lemma IntoAll(es: seq<TacEdge>, v: TacTrNode)
    ensures |Into(es, Preds(EdgePairs(es), v), v)| == InDegree(EdgePairs(es), v)
  {
    var pairs := EdgePairs(es);
    forall i | 0 <= i < |es| && es[i].tgt == v
      ensures es[i].src in Preds(pairs, v)
    {
      assert pairs[i].1 == v;
    }
    IntoKeepsAll(es, Preds(pairs, v), v);
  }

  lemma {:induction false} IntoKeepsAll(es: seq<TacEdge>, srcs: set<TacTrNode>, v: TacTrNode)
    requires forall i :: 0 <= i < |es| && es[i].tgt == v ==> es[i].src in srcs
    ensures |Into(es, srcs, v)| == InDegree(EdgePairs(es), v)
  {
    if es != [] {
      var pre := es[..|es| - 1];
      assert forall i :: 0 <= i < |pre| ==> pre[i] == es[i];
      IntoKeepsAll(pre, srcs, v);
      assert EdgePairs(es)[..|es| - 1] == EdgePairs(pre);
    }
  }
}
