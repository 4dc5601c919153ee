/** The first tactic tree of `ml4tputils/tactr.py`: the table of known
    tactic names with its two identifier maps, and the `TacTree` object
    over integer goal identifiers whose construction finds the root, the
    terminal and error goals, groups the edges by tactic invocation and
    builds the flattened view, together with its path views and its
    histograms of tactics and state sizes by depth. */
module TacticTree {
  import opened Wrappers
  import opened Text
  import opened Graphs
  import Groups

  // ---------------------------------------------------------------------
  // Known tactics

  /** The first part of `TACTICS`: the core, extra and auto tactics. */
  const CoqTactics: seq<string> := [
    "<coretactics::intro@0>",
    "<coretactics::assumption@0>",
    "<coretactics::clear@0>",
    "<coretactics::clearbody@0>",
    "<coretactics::constructor@0>",
    "<coretactics::constructor@1>",
    "<coretactics::exact@0>",
    "<coretactics::exists@1>",
    "<coretactics::left@0>",
    "<coretactics::right@0>",
    "<coretactics::split@0>",
    "<coretactics::symmetry@0>",
    "<coretactics::transitivity@0>",
    "<extratactics::contradiction@0>",
    "<extratactics::discriminate@0>",
    "<g_auto::auto@0>",
    "<g_auto::eauto@0>",
    "<g_auto::trivial@0>"
  ]

  /** The rest of `TACTICS`: the ssreflect tactics. */
  const SsrTactics: seq<string> := [
    "<ssreflect_plugin::ssrapply@0>",
    "<ssreflect_plugin::ssrapply@1>",
    "<ssreflect_plugin::ssrcase@0>",
    "<ssreflect_plugin::ssrcase@1>",
    "<ssreflect_plugin::ssrclear@0>",
    "<ssreflect_plugin::ssrcongr@0>",
    "<ssreflect_plugin::ssrelim@0>",
    "<ssreflect_plugin::ssrexact@0>",
    "<ssreflect_plugin::ssrexact@1>",
    "<ssreflect_plugin::ssrhave@0>",
    "<ssreflect_plugin::ssrmove@0>",
    "<ssreflect_plugin::ssrmove@1>",
    "<ssreflect_plugin::ssrmove@2>",
    "<ssreflect_plugin::ssrpose@2>",
    "<ssreflect_plugin::ssrrewrite@0>",
    "<ssreflect_plugin::ssrset@0>",
    "<ssreflect_plugin::ssrsuff@0>",
    "<ssreflect_plugin::ssrsuffices@0>",
    "<ssreflect_plugin::ssrtclby@0>",
    "<ssreflect_plugin::ssrtcldo@0>",
    "<ssreflect_plugin::ssrtclintros@0>",
    "<ssreflect_plugin::ssrtclseq@0>",
    "<ssreflect_plugin::ssrwithoutloss@0>",
    "<ssreflect_plugin::ssrwithoutlossss@0>",
    "<ssreflect_plugin::ssrwlog@0>",
    "<ssreflect_plugin::ssrwlogss@0>",
    "<ssreflect_plugin::ssrwlogs@0>"
  ]

  /** `TACTICS`: the tactic names the histograms count, in slot order. */
  const TACTICS: seq<string> := CoqTactics + SsrTactics

  /** `TACTIC_ID_MAP` over a list of names: each name maps to its index, a
      later occurrence overwriting an earlier one. */
  function TacticIdMap(ts: seq<string>): map<string, nat> {
    if ts == [] then map[] else TacticIdMap(ts[..|ts| - 1])[ts[|ts| - 1] := |ts| - 1]
  }

  /** `ID_TACTIC_MAP` over a list of names: each index maps to its name. */
  function IdTacticMap(ts: seq<string>): map<nat, string> {
    if ts == [] then map[] else IdTacticMap(ts[..|ts| - 1])[|ts| - 1 := ts[|ts| - 1]]
  }

  predicate Distinct<T(==)>(ts: seq<T>) {
    forall i, j :: 0 <= i < j < |ts| ==> ts[i] != ts[j]
  }

  /** The name map covers the names, and sends each to the index of its
      last occurrence. */
  lemma {:induction false} TacticIdMapSpec(ts: seq<string>)
    ensures forall t :: t in TacticIdMap(ts) <==> t in ts
    ensures forall t :: t in TacticIdMap(ts) ==>
      TacticIdMap(ts)[t] < |ts| && ts[TacticIdMap(ts)[t]] == t &&
      forall j :: TacticIdMap(ts)[t] < j < |ts| ==> ts[j] != t
  {
    if ts != [] {
      var pre := ts[..|ts| - 1];
      TacticIdMapSpec(pre);
      assert ts == pre + [ts[|ts| - 1]];
    }
  }

  /** The index map has exactly the indices as keys, each mapped to its
      name. */
  lemma {:induction false} IdTacticMapSpec(ts: seq<string>)
    ensures forall i: nat :: i in IdTacticMap(ts) <==> i < |ts|
    ensures forall i: nat :: i < |ts| ==> i in IdTacticMap(ts) && IdTacticMap(ts)[i] == ts[i]
  {
    if ts != [] {
      var pre := ts[..|ts| - 1];
      IdTacticMapSpec(pre);
      forall i: nat
        ensures i in IdTacticMap(ts) <==> i < |ts|
        ensures i < |ts| ==> IdTacticMap(ts)[i] == ts[i]
      {
        if i < |pre| {
          assert pre[i] == ts[i];
        }
      }
    }
  }

  /** The two maps are inverse: a name's identifier gives the name back,
      and, when the names are distinct, an index's name gives the index
      back. */
  lemma IdMapsInverse(ts: seq<string>)
    ensures forall t :: t in TacticIdMap(ts) ==>
      TacticIdMap(ts)[t] in IdTacticMap(ts) && IdTacticMap(ts)[TacticIdMap(ts)[t]] == t
    ensures Distinct(ts) ==> forall i :: 0 <= i < |ts| ==>
      i in IdTacticMap(ts) && IdTacticMap(ts)[i] in TacticIdMap(ts) && TacticIdMap(ts)[IdTacticMap(ts)[i]] == i
  {
    TacticIdMapSpec(ts);
    IdTacticMapSpec(ts);
  }

  /** Two lists of distinct names with no name in common join into a list
      of distinct names. */
  lemma DistinctAppend<T>(a: seq<T>, b: seq<T>)
    requires Distinct(a) && Distinct(b)
    requires forall i, j :: 0 <= i < |a| && 0 <= j < |b| ==> a[i] != b[j]
    ensures Distinct(a + b)
  {
  }

  /** The 45 names of `TACTICS` are distinct: each half is, and only the
      ssreflect names have 's' as their second character. */
  lemma TacticsDistinct()
    ensures |TACTICS| == 45
    ensures Distinct(TACTICS)
  {
    assert forall i :: 0 <= i < |CoqTactics| ==> |CoqTactics[i]| > 1 && CoqTactics[i][1] != 's';
    assert forall j :: 0 <= j < |SsrTactics| ==> |SsrTactics[j]| > 1 && SsrTactics[j][1] == 's';
    DistinctAppend(CoqTactics, SsrTactics);
  }

  /** Over `TACTICS` the two maps are inverse in both directions: every
      slot index `0..44` names a tactic whose identifier is that index. */
  lemma TacticMapsInverse()
    ensures forall t :: t in TacticIdMap(TACTICS) ==>
      TacticIdMap(TACTICS)[t] in IdTacticMap(TACTICS) && IdTacticMap(TACTICS)[TacticIdMap(TACTICS)[t]] == t
    ensures forall i :: 0 <= i < |TACTICS| ==>
      i in IdTacticMap(TACTICS) && IdTacticMap(TACTICS)[i] in TacticIdMap(TACTICS) &&
      TacticIdMap(TACTICS)[IdTacticMap(TACTICS)[i]] == i
  {
    TacticsDistinct();
    IdMapsInverse(TACTICS);
  }

  /** The loop that fills `TACTIC_ID_MAP`. */
  method BuildTacticIdMap(ts: seq<string>) returns (m: map<string, nat>)
    ensures m == TacticIdMap(ts)
  {
    m := map[];
    var i := 0;
    while i < |ts|
      invariant 0 <= i <= |ts|
      invariant m == TacticIdMap(ts[..i])
    {
      assert ts[..i + 1][..i] == ts[..i];
      m := m[ts[i] := i];
      i := i + 1;
    }
    assert ts[..i] == ts;
  }

  /** The loop that fills `ID_TACTIC_MAP`. */
  method BuildIdTacticMap(ts: seq<string>) returns (m: map<nat, string>)
    ensures m == IdTacticMap(ts)
  {
    m := map[];
    var i := 0;
    while i < |ts|
      invariant 0 <= i <= |ts|
      invariant m == IdTacticMap(ts[..i])
    {
      assert ts[..i + 1][..i] == ts[..i];
      m := m[i := ts[i]];
      i := i + 1;
    }
    assert ts[..i] == ts;
  }

  /** The first name of `ts` that `name` starts with: the slot a tactic
      is counted in. */
  function FirstPrefix(ts: seq<string>, name: string): Option<nat> {
    if ts == [] then None
    else if StartsWith(name, ts[0]) then Some(0)
    else match FirstPrefix(ts[1..], name)
      case None => None
      case Some(i) => Some(i + 1)
  }

  lemma {:induction false} FirstPrefixSpec(ts: seq<string>, name: string)
    ensures FirstPrefix(ts, name).None? <==> forall j :: 0 <= j < |ts| ==> !StartsWith(name, ts[j])
    ensures FirstPrefix(ts, name).Some? ==>
      var i := FirstPrefix(ts, name).value;
      i < |ts| && StartsWith(name, ts[i]) && forall j :: 0 <= j < i ==> !StartsWith(name, ts[j])
  {
    if ts != [] && !StartsWith(name, ts[0]) {
      FirstPrefixSpec(ts[1..], name);
      assert forall j :: 1 <= j < |ts| ==> ts[j] == ts[1..][j - 1];
    }
  }

  /** The inner loop of both tactic histograms: scan `ts` in order and
      break at the first name `name` starts with. */
  method MatchTactic(ts: seq<string>, name: string) returns (idx: Option<nat>)
    ensures idx == FirstPrefix(ts, name)
  {
    var i := 0;
    while i < |ts|
      invariant 0 <= i <= |ts|
      invariant forall j :: 0 <= j < i ==> !StartsWith(name, ts[j])
    {
      if StartsWith(name, ts[i]) {
        FirstPrefixSpec(ts, name);
        if FirstPrefix(ts, name) != Some(i) {
          FirstPrefixAt(ts, name, i);
        }
        return Some(i);
      }
      i := i + 1;
    }
    FirstPrefixSpec(ts, name);
    idx := None;
  }

  /** A name that starts with `ts[i]` and none before it is counted in
      slot `i`. */
  lemma FirstPrefixAt(ts: seq<string>, name: string, i: nat)
    requires i < |ts| && StartsWith(name, ts[i]) && forall j :: 0 <= j < i ==> !StartsWith(name, ts[j])
    ensures FirstPrefix(ts, name) == Some(i)
  {
    FirstPrefixSpec(ts, name);
  }

  // ---------------------------------------------------------------------
  // Edges and states

  /** A tactic edge between two goal identifiers. Whether it connects to
      an error or a terminal goal (`conn2err` and `conn2term`) is recorded
      on the edge. */
  datatype Edge = Edge(eid: int, tid: int, name: string, ftac: string, src: int, tgt: int,
                       isbod: bool, toErr: bool, toTerm: bool)

  /** The context and goal recorded for a goal identifier. */
  datatype GoalInfo = GoalInfo(ctx: seq<(string, string)>, goal: string)

  /** The source and target of each edge, in order. */
  function EdgePairs(es: seq<Edge>): (r: seq<(int, int)>)
    ensures |r| == |es| && forall i :: 0 <= i < |es| ==> r[i] == (es[i].src, es[i].tgt)
  {
    seq(|es|, i requires 0 <= i < |es| => (es[i].src, es[i].tgt))
  }

  /** `_err_goals`: the targets of the edges into error goals, in edge
      order. */
  function ErrTargets(es: seq<Edge>): seq<int> {
    if es == [] then []
    else ErrTargets(es[..|es| - 1]) + (if es[|es| - 1].toErr then [es[|es| - 1].tgt] else [])
  }

  /** `_term_goals`: the targets of the edges into terminal goals. */
  function TermTargets(es: seq<Edge>): seq<int> {
    if es == [] then []
    else TermTargets(es[..|es| - 1]) + (if es[|es| - 1].toTerm then [es[|es| - 1].tgt] else [])
  }

  /** The number of edges into error goals. */
  function CountErr(es: seq<Edge>): nat {
    if es == [] then 0 else CountErr(es[..|es| - 1]) + (if es[|es| - 1].toErr then 1 else 0)
  }

  function CountTerm(es: seq<Edge>): nat {
    if es == [] then 0 else CountTerm(es[..|es| - 1]) + (if es[|es| - 1].toTerm then 1 else 0)
  }

  /** A goal is an error goal exactly when some edge into an error goal
      ends there, and every such edge contributes one entry. */
  lemma {:induction false} ErrTargetsSpec(es: seq<Edge>)
    ensures forall g :: g in ErrTargets(es) <==> exists e :: e in es && e.toErr && e.tgt == g
    ensures |ErrTargets(es)| == CountErr(es)
  {
    if es != [] {
      ErrTargetsSpec(es[..|es| - 1]);
      assert es == es[..|es| - 1] + [es[|es| - 1]];
    }
  }

  lemma {:induction false} TermTargetsSpec(es: seq<Edge>)
    ensures forall g :: g in TermTargets(es) <==> exists e :: e in es && e.toTerm && e.tgt == g
    ensures |TermTargets(es)| == CountTerm(es)
  {
    if es != [] {
      TermTargetsSpec(es[..|es| - 1]);
      assert es == es[..|es| - 1] + [es[|es| - 1]];
    }
  }

  // ---------------------------------------------------------------------
  // Tactic invocations

  /** The (tactic identifier, edge) pairs `_tactics` inserts, in edge
      order. */
  function TidPairs(es: seq<Edge>): seq<(int, Edge)> {
    seq(|es|, i requires 0 <= i < |es| => (es[i].tid, es[i]))
  }

  /** `_tactics`: the edges grouped by tactic identifier. */
  function TacticsOf(es: seq<Edge>): map<int, seq<Edge>> {
    Groups.GroupPairs(TidPairs(es))
  }

  /** The identifiers in the order `_tactics` first inserts them, which is
      the order `tactics.items()` visits them in. */
  function TidOrder(es: seq<Edge>): seq<int> {
    Groups.KeyOrder(TidPairs(es))
  }

  /** The grouping has a key for each tactic identifier that some edge
      carries, visited once each. */
  lemma TacticsKeys(es: seq<Edge>)
    ensures forall t :: t in TacticsOf(es) <==> t in TidOrder(es)
    ensures forall t :: t in TacticsOf(es) <==> exists i :: 0 <= i < |es| && es[i].tid == t
    ensures Distinct(TidOrder(es))
  {
    var ps := TidPairs(es);
    Groups.GroupKeys(ps);
    forall t | t in TacticsOf(es)
      ensures exists i :: 0 <= i < |es| && es[i].tid == t
    {
      var i :| 0 <= i < |ps| && ps[i].0 == t;
      assert es[i].tid == t;
    }
    forall t | exists i :: 0 <= i < |es| && es[i].tid == t
      ensures t in TacticsOf(es)
    {
      var i :| 0 <= i < |es| && es[i].tid == t;
      assert ps[i].0 == t;
    }
  }

  /** Each group is non-empty and holds exactly the edges of its
      invocation, in edge order. */
  lemma TacticsValues(es: seq<Edge>, t: int)
    requires t in TacticsOf(es)
    ensures TacticsOf(es)[t] != []
    ensures forall e :: e in TacticsOf(es)[t] <==> e in es && e.tid == t
  {
    var ps := TidPairs(es);
    Groups.GroupValues(ps);
    Groups.ValuesSpec(ps, t);
    forall e | e in es && e.tid == t
      ensures (t, e) in ps
    {
      var i :| 0 <= i < |es| && es[i] == e;
      assert ps[i] == (t, e);
    }
  }

  /** The group sizes add up to the number of edges. */
  lemma TacticsCover(es: seq<Edge>)
    ensures forall i :: 0 <= i < |TidOrder(es)| ==> TidOrder(es)[i] in TacticsOf(es)
    ensures Groups.SumLens(TacticsOf(es), TidOrder(es)) == |es|
  {
    Groups.GroupCovers(TidPairs(es));
  }

  // ---------------------------------------------------------------------
  // The flattened view

  /** An entry of the flattened view: the depth of the target (the nodes on
      a shortest path from the root), the target, its context and goal, and
      the edge. */
  datatype FlatEntry = FlatEntry(depth: nat, gid: int, ctx: seq<(string, string)>, goal: string, edge: Edge)

  /** Why construction or a view fails: no root, or a root whose goal
      identifier is 0 (the `assert self.root` tests it for truth); the
      KeyError of `_flatten_view` on an edge's source; a goal not in the
      graph (the library's error in `in_edge`, `out_edges` and every
      `shortest_path`); the
      `max` of an empty flattened view in `view_depth_tactic_hist`. */
  datatype TreeError = NoRoot | MissingInfo(gid: int) | NodeMissing(gid: int) | EmptyView

  /** The tactic identifiers of a prefix of the edges (`seen`). */
  function TidSet(es: seq<Edge>): set<int> {
    set i | 0 <= i < |es| :: es[i].tid
  }

  /** One step of `_flatten_view`: a root or target the graph does not hold
      fails; an edge whose target is unreachable from the root, or whose
      invocation was seen before, adds nothing; an edge into a goal with
      information adds that goal; an edge into an error or terminal goal
      without information uses its source's. */
  function EntryFor(es: seq<(int, int)>, nodes: seq<int>, root: int, info: map<int, GoalInfo>, e: Edge,
                    seen: set<int>): Result<Option<FlatEntry>, TreeError>
  {
    if !InGraph(nodes, root, e.tgt) then Err(NodeMissing(MissingEnd(nodes, root, e.tgt)))
    else match Dist(es, root, e.tgt)
    case None => Ok(None)
    case Some(d) =>
      if e.tid in seen then Ok(None)
      else if e.tgt in info then Ok(Some(FlatEntry(d + 1, e.tgt, info[e.tgt].ctx, info[e.tgt].goal, e)))
      else if e.toErr || e.toTerm then
        if e.src in info then Ok(Some(FlatEntry(d + 1, e.tgt, info[e.src].ctx, info[e.src].goal, e)))
        else Err(MissingInfo(e.src))
      else Ok(None)
  }

  /** `_flatten_view` over a prefix of the edges. */
  function FlatAt(es: seq<(int, int)>, nodes: seq<int>, root: int, info: map<int, GoalInfo>, edges: seq<Edge>)
    : Result<seq<FlatEntry>, TreeError>
  {
    if edges == [] then Ok([])
    else
      var pre := edges[..|edges| - 1];
      match FlatAt(es, nodes, root, info, pre)
      case Err(x) => Err(x)
      case Ok(fv) =>
        match EntryFor(es, nodes, root, info, edges[|edges| - 1], TidSet(pre))
        case Err(x) => Err(x)
        case Ok(None) => Ok(fv)
        case Ok(Some(entry)) => Ok(fv + [entry])
  }

  lemma FlatAtNext(es: seq<(int, int)>, nodes: seq<int>, root: int, info: map<int, GoalInfo>,
                   edges: seq<Edge>, i: nat, fv: seq<FlatEntry>)
    requires i < |edges| && FlatAt(es, nodes, root, info, edges[..i]) == Ok(fv)
    ensures FlatAt(es, nodes, root, info, edges[..i + 1]) ==
      match EntryFor(es, nodes, root, info, edges[i], TidSet(edges[..i]))
      case Err(x) => Err(x)
      case Ok(None) => Ok(fv)
      case Ok(Some(y)) => Ok(fv + [y])
  {
    var a := edges[..i + 1];
    assert a[..i] == edges[..i] && a[i] == edges[i];
  }

  /** The edge is the first of its invocation. */
  ghost predicate FirstOfTid(edges: seq<Edge>, e: Edge) {
    exists i :: 0 <= i < |edges| && edges[i] == e && e.tid !in TidSet(edges[..i])
  }

  /** The context and goal an entry carries: the target's own when it has
      them, otherwise the source's for an error or terminal target. */
  ghost predicate InfoFits(info: map<int, GoalInfo>, x: FlatEntry) {
    x.gid == x.edge.tgt &&
    if x.gid in info then GoalInfo(x.ctx, x.goal) == info[x.gid]
    else (x.edge.toErr || x.edge.toTerm) && x.edge.src in info && GoalInfo(x.ctx, x.goal) == info[x.edge.src]
  }

  lemma TidSetPrefix(edges: seq<Edge>, i: nat)
    requires i < |edges|
    ensures TidSet(edges[..i + 1]) == TidSet(edges[..i]) + {edges[i].tid}
  {
    var a, b := edges[..i + 1], edges[..i];
    assert forall j :: 0 <= j < i ==> a[j] == b[j];
  }

  /** An entry made for an edge: its invocation was not seen, its depth
      counts the nodes on a shortest path to the target, and its context
      and goal fit. */
  lemma EntryForSpec(es: seq<(int, int)>, nodes: seq<int>, root: int, info: map<int, GoalInfo>, e: Edge, seen: set<int>)
    requires EntryFor(es, nodes, root, info, e, seen).Ok? && EntryFor(es, nodes, root, info, e, seen).value.Some?
    ensures var x := EntryFor(es, nodes, root, info, e, seen).value.value;
      x.edge == e && e.tid !in seen && InfoFits(info, x) && x.depth >= 1 &&
      Dist(es, root, x.gid) == Some(x.depth - 1)
  {
  }

  lemma FlatAtShape(es: seq<(int, int)>, nodes: seq<int>, root: int, info: map<int, GoalInfo>, edges: seq<Edge>)
    requires edges != [] && FlatAt(es, nodes, root, info, edges).Ok?
    ensures FlatAt(es, nodes, root, info, edges[..|edges| - 1]).Ok?
    ensures var fv := FlatAt(es, nodes, root, info, edges[..|edges| - 1]).value;
      var all := FlatAt(es, nodes, root, info, edges).value;
      var x := EntryFor(es, nodes, root, info, edges[|edges| - 1], TidSet(edges[..|edges| - 1]));
      x.Ok? && (x.value.None? ==> all == fv) && (x.value.Some? ==> all == fv + [x.value.value])
  {
  }

  /** Every entry's depth is the number of nodes on a shortest path from
      the root to its target, and it carries the right context and goal. */
  lemma {:induction false} FlatAtEntries(es: seq<(int, int)>, nodes: seq<int>, root: int, info: map<int, GoalInfo>,
                                         edges: seq<Edge>)
    requires FlatAt(es, nodes, root, info, edges).Ok?
    ensures var fv := FlatAt(es, nodes, root, info, edges).value;
      forall j :: 0 <= j < |fv| ==>
        InfoFits(info, fv[j]) && fv[j].depth >= 1 && Dist(es, root, fv[j].gid) == Some(fv[j].depth - 1)
  {
    if edges != [] {
      var pre := edges[..|edges| - 1];
      FlatAtShape(es, nodes, root, info, edges);
      FlatAtEntries(es, nodes, root, info, pre);
      var x := EntryFor(es, nodes, root, info, edges[|edges| - 1], TidSet(pre));
      if x.value.Some? {
        EntryForSpec(es, nodes, root, info, edges[|edges| - 1], TidSet(pre));
      }
    }
  }

  /** Every entry comes from the first edge of its invocation. */
  lemma {:induction false} FlatAtFirst(es: seq<(int, int)>, nodes: seq<int>, root: int, info: map<int, GoalInfo>,
                                       edges: seq<Edge>)
    requires FlatAt(es, nodes, root, info, edges).Ok?
    ensures var fv := FlatAt(es, nodes, root, info, edges).value;
      forall j :: 0 <= j < |fv| ==> FirstOfTid(edges, fv[j].edge)
  {
    if edges != [] {
      var n := |edges| - 1;
      var pre := edges[..n];
      FlatAtShape(es, nodes, root, info, edges);
      FlatAtFirst(es, nodes, root, info, pre);
      var fv := FlatAt(es, nodes, root, info, pre).value;
      forall j | 0 <= j < |fv|
        ensures FirstOfTid(edges, fv[j].edge)
      {
        var i :| 0 <= i < |pre| && pre[i] == fv[j].edge && fv[j].edge.tid !in TidSet(pre[..i]);
        assert pre[..i] == edges[..i];
      }
      var x := EntryFor(es, nodes, root, info, edges[n], TidSet(pre));
      if x.value.Some? {
        EntryForSpec(es, nodes, root, info, edges[n], TidSet(pre));
        assert FirstOfTid(edges, edges[n]);
      }
    }
  }

  /** At most one entry per invocation. */
  lemma {:induction false} FlatAtDistinct(es: seq<(int, int)>, nodes: seq<int>, root: int, info: map<int, GoalInfo>,
                                          edges: seq<Edge>)
    requires FlatAt(es, nodes, root, info, edges).Ok?
    ensures var fv := FlatAt(es, nodes, root, info, edges).value;
      (forall j :: 0 <= j < |fv| ==> fv[j].edge.tid in TidSet(edges)) &&
      forall j, k :: 0 <= j < k < |fv| ==> fv[j].edge.tid != fv[k].edge.tid
  {
    if edges != [] {
      var n := |edges| - 1;
      var pre := edges[..n];
      FlatAtShape(es, nodes, root, info, edges);
      FlatAtDistinct(es, nodes, root, info, pre);
      TidSetPrefix(edges, n);
      assert edges[..n + 1] == edges;
      var x := EntryFor(es, nodes, root, info, edges[n], TidSet(pre));
      if x.value.Some? {
        EntryForSpec(es, nodes, root, info, edges[n], TidSet(pre));
      }
    }
  }

  /** The edges of a flattened view's entries. */
  function Edges(fv: seq<FlatEntry>): (r: seq<Edge>)
    ensures |r| == |fv| && forall j :: 0 <= j < |fv| ==> r[j] == fv[j].edge
  {
    seq(|fv|, j requires 0 <= j < |fv| => fv[j].edge)
  }

  /** No edge is lost: the first edge of each invocation whose target is
      reachable from the root and that has a state to show has an entry. */
  lemma {:induction false} FlatAtComplete(es: seq<(int, int)>, nodes: seq<int>, root: int, info: map<int, GoalInfo>,
                                          edges: seq<Edge>, i: nat)
    requires FlatAt(es, nodes, root, info, edges).Ok?
    requires i < |edges| && edges[i].tid !in TidSet(edges[..i]) && Dist(es, root, edges[i].tgt).Some?
    requires edges[i].tgt in info || edges[i].toErr || edges[i].toTerm
    ensures edges[i] in Edges(FlatAt(es, nodes, root, info, edges).value)
  {
    var n := |edges| - 1;
    var pre := edges[..n];
    assert FlatAt(es, nodes, root, info, pre).Ok?;
    var fv := FlatAt(es, nodes, root, info, pre).value;
    var all := FlatAt(es, nodes, root, info, edges).value;
    assert forall j :: 0 <= j < |fv| ==> all[j] == fv[j];
    if i < n {
      assert pre[i] == edges[i] && pre[..i] == edges[..i];
      FlatAtComplete(es, nodes, root, info, pre, i);
      var j :| 0 <= j < |fv| && fv[j].edge == edges[i];
      assert Edges(all)[j] == edges[i];
    } else {
      assert all == fv + [EntryFor(es, nodes, root, info, edges[n], TidSet(pre)).value.value];
      assert Edges(all)[|fv|] == edges[i];
    }
  }

  lemma {:induction false} FlatAtPrefixErr(es: seq<(int, int)>, nodes: seq<int>, root: int, info: map<int, GoalInfo>,
                                           edges: seq<Edge>, i: nat)
    requires i <= |edges| && FlatAt(es, nodes, root, info, edges[..i]).Err?
    ensures FlatAt(es, nodes, root, info, edges) == FlatAt(es, nodes, root, info, edges[..i])
    decreases |edges| - i
  {
    if i < |edges| {
      var a := edges[..i + 1];
      assert a[..i] == edges[..i];
      FlatAtPrefixErr(es, nodes, root, info, edges, i + 1);
    } else {
      assert edges[..i] == edges;
    }
  }

  /** The edge at `i` raises the KeyError of `_flatten_view`. */
  predicate MissesInfo(es: seq<(int, int)>, root: int, info: map<int, GoalInfo>, edges: seq<Edge>, i: nat)
    requires i < |edges|
  {
    var e := edges[i];
    Dist(es, root, e.tgt).Some? && e.tid !in TidSet(edges[..i]) && e.tgt !in info &&
    (e.toErr || e.toTerm) && e.src !in info
  }

  /** The flattened view fails exactly when the root or some edge's target
      is not in the graph, or some edge is the first of its invocation, its
      target is reachable, it leads to an error or terminal goal without
      information, and its source has none either. */
  lemma {:induction false} FlatAtErrIff(es: seq<(int, int)>, nodes: seq<int>, root: int, info: map<int, GoalInfo>,
                                        edges: seq<Edge>)
    ensures FlatAt(es, nodes, root, info, edges).Err? <==>
      exists i :: 0 <= i < |edges| && FailsAt(es, nodes, root, info, edges, i)
  {
    if edges != [] {
      var n := |edges| - 1;
      var pre := edges[..n];
      FlatAtErrIff(es, nodes, root, info, pre);
      forall i | 0 <= i < n
        ensures FailsAt(es, nodes, root, info, pre, i) == FailsAt(es, nodes, root, info, edges, i)
      {
        assert pre[i] == edges[i] && pre[..i] == edges[..i];
      }
      assert FlatAt(es, nodes, root, info, edges).Err? <==>
        FlatAt(es, nodes, root, info, pre).Err? || EntryFor(es, nodes, root, info, edges[n], TidSet(pre)).Err?;
      assert EntryFor(es, nodes, root, info, edges[n], TidSet(pre)).Err? <==> FailsAt(es, nodes, root, info, edges, n);
    }
  }

  /** The edge at `i` stops `_flatten_view`: the library cannot find the
      root or the target, or the source's information is missing. */
  predicate FailsAt(es: seq<(int, int)>, nodes: seq<int>, root: int, info: map<int, GoalInfo>,
                    edges: seq<Edge>, i: nat)
    requires i < |edges|
  {
    !InGraph(nodes, root, edges[i].tgt) || MissesInfo(es, root, info, edges, i)
  }

  /** The body of the loop of `_flatten_view` for one edge. */
  method Entry(es: seq<(int, int)>, nodes: seq<int>, s: int, gid2info: map<int, GoalInfo>, e: Edge, seen: set<int>)
    returns (x: Result<Option<FlatEntry>, TreeError>)
    ensures x == EntryFor(es, nodes, s, gid2info, e, seen)
  {
    if !InGraph(nodes, s, e.tgt) {
      return Err(NodeMissing(MissingEnd(nodes, s, e.tgt)));
    }
    var p := ShortestPath(es, s, e.tgt);
    if p.None? {
      return Ok(None);
    }
    var depth := |p.value|;
    if e.tid in seen {
      x := Ok(None);
    } else if e.tgt in gid2info {
      x := Ok(Some(FlatEntry(depth, e.tgt, gid2info[e.tgt].ctx, gid2info[e.tgt].goal, e)));
    } else if e.toErr || e.toTerm {
      if e.src in gid2info {
        x := Ok(Some(FlatEntry(depth, e.tgt, gid2info[e.src].ctx, gid2info[e.src].goal, e)));
      } else {
        x := Err(MissingInfo(e.src));
      }
    } else {
      x := Ok(None);
    }
  }

  /** The loop of `_flatten_view`, with `seen` the invocations met so far. */
  method FlattenView(es: seq<(int, int)>, nodes: seq<int>, s: int, gid2info: map<int, GoalInfo>, edges: seq<Edge>)
    returns (r: Result<seq<FlatEntry>, TreeError>)
    ensures r == FlatAt(es, nodes, s, gid2info, edges)
  {
    var fv := [];
    var seen: set<int> := {};
    var i := 0;
    while i < |edges|
      invariant 0 <= i <= |edges|
      invariant seen == TidSet(edges[..i])
      invariant FlatAt(es, nodes, s, gid2info, edges[..i]) == Ok(fv)
    {
      var e := edges[i];
      var x := Entry(es, nodes, s, gid2info, e, seen);
      FlatAtNext(es, nodes, s, gid2info, edges, i, fv);
      if x.Err? {
        FlatAtPrefixErr(es, nodes, s, gid2info, edges, i + 1);
        return Err(x.error);
      }
      if x.value.Some? {
        fv := fv + [x.value.value];
      }
      TidSetPrefix(edges, i);
      seen := seen + {e.tid};
      i := i + 1;
    }
    assert edges[..i] == edges;
    r := Ok(fv);
  }

  /** A result without its value. */
  function Outcome<T>(r: Result<T, TreeError>): (o: Result<(), TreeError>)
    ensures o.Ok? <==> r.Ok?
    ensures o.Err? ==> o.error == r.error
  {
    match r
    case Ok(_) => Ok(())
    case Err(x) => Err(x)
  }

  // ---------------------------------------------------------------------
  // Views by depth

  /** The (depth, context size) pairs `view_depth_ctx_size` inserts. */
  function CtxSizePairs(fv: seq<FlatEntry>): seq<(nat, nat)> {
    seq(|fv|, i requires 0 <= i < |fv| => (fv[i].depth, |fv[i].ctx|))
  }

  /** The (depth, goal size) pairs `view_depth_goal_size` inserts. */
  function GoalSizePairs(fv: seq<FlatEntry>): seq<(nat, nat)> {
    seq(|fv|, i requires 0 <= i < |fv| => (fv[i].depth, |fv[i].goal|))
  }

  /** The context sizes of the entries at depth `d`, in view order. */
  function CtxSizesAt(fv: seq<FlatEntry>, d: nat): seq<nat> {
    if fv == [] then []
    else CtxSizesAt(fv[..|fv| - 1], d) + (if fv[|fv| - 1].depth == d then [|fv[|fv| - 1].ctx|] else [])
  }

  function GoalSizesAt(fv: seq<FlatEntry>, d: nat): seq<nat> {
    if fv == [] then []
    else GoalSizesAt(fv[..|fv| - 1], d) + (if fv[|fv| - 1].depth == d then [|fv[|fv| - 1].goal|] else [])
  }

  lemma {:induction false} CtxValues(fv: seq<FlatEntry>, d: nat)
    ensures Groups.Values(CtxSizePairs(fv), d) == CtxSizesAt(fv, d)
  {
    if fv != [] {
      CtxValues(fv[..|fv| - 1], d);
      assert CtxSizePairs(fv)[..|fv| - 1] == CtxSizePairs(fv[..|fv| - 1]);
    }
  }

  lemma {:induction false} GoalValues(fv: seq<FlatEntry>, d: nat)
    ensures Groups.Values(GoalSizePairs(fv), d) == GoalSizesAt(fv, d)
  {
    if fv != [] {
      GoalValues(fv[..|fv| - 1], d);
      assert GoalSizePairs(fv)[..|fv| - 1] == GoalSizePairs(fv[..|fv| - 1]);
    }
  }

  /** A grouping by depth has a key exactly for the depths of the
      entries. */
  lemma DepthKeys(fv: seq<FlatEntry>, ps: seq<(nat, nat)>)
    requires |ps| == |fv| && forall i :: 0 <= i < |fv| ==> ps[i].0 == fv[i].depth
    ensures forall d :: d in Groups.GroupPairs(ps) <==> exists i :: 0 <= i < |fv| && fv[i].depth == d
  {
    Groups.GroupKeys(ps);
  }

  /** `view_depth_ctx_size`: its keys are the depths of the entries, each
      list holds the context sizes of the entries at its depth in view
      order, and the lists hold one value per entry. */
  lemma DepthCtxSizeSpec(fv: seq<FlatEntry>)
    ensures forall d :: d in Groups.GroupPairs(CtxSizePairs(fv)) <==> exists i :: 0 <= i < |fv| && fv[i].depth == d
    ensures forall d :: d in Groups.GroupPairs(CtxSizePairs(fv)) ==> Groups.GroupPairs(CtxSizePairs(fv))[d] == CtxSizesAt(fv, d)
    ensures forall i :: 0 <= i < |Groups.KeyOrder(CtxSizePairs(fv))| ==> Groups.KeyOrder(CtxSizePairs(fv))[i] in Groups.GroupPairs(CtxSizePairs(fv))
    ensures Groups.SumLens(Groups.GroupPairs(CtxSizePairs(fv)), Groups.KeyOrder(CtxSizePairs(fv))) == |fv|
  {
    var ps := CtxSizePairs(fv);
    DepthKeys(fv, ps);
    Groups.GroupValues(ps);
    Groups.GroupCovers(ps);
    forall d | d in Groups.GroupPairs(ps)
      ensures Groups.GroupPairs(ps)[d] == CtxSizesAt(fv, d)
    {
      CtxValues(fv, d);
    }
  }

  /** `view_depth_goal_size`: the same for the goal sizes. */
  lemma DepthGoalSizeSpec(fv: seq<FlatEntry>)
    ensures forall d :: d in Groups.GroupPairs(GoalSizePairs(fv)) <==> exists i :: 0 <= i < |fv| && fv[i].depth == d
    ensures forall d :: d in Groups.GroupPairs(GoalSizePairs(fv)) ==> Groups.GroupPairs(GoalSizePairs(fv))[d] == GoalSizesAt(fv, d)
    ensures forall i :: 0 <= i < |Groups.KeyOrder(GoalSizePairs(fv))| ==> Groups.KeyOrder(GoalSizePairs(fv))[i] in Groups.GroupPairs(GoalSizePairs(fv))
    ensures Groups.SumLens(Groups.GroupPairs(GoalSizePairs(fv)), Groups.KeyOrder(GoalSizePairs(fv))) == |fv|
  {
    var ps := GoalSizePairs(fv);
    DepthKeys(fv, ps);
    Groups.GroupValues(ps);
    Groups.GroupCovers(ps);
    forall d | d in Groups.GroupPairs(ps)
      ensures Groups.GroupPairs(ps)[d] == GoalSizesAt(fv, d)
    {
      GoalValues(fv, d);
    }
  }

  // ---------------------------------------------------------------------
  // Tactic histograms

  /** A histogram of `n` slots, all zero. */
  function Zeros(n: nat): (z: seq<nat>)
    ensures |z| == n && forall i :: 0 <= i < n ==> z[i] == 0
  {
    seq(n, _ => 0)
  }

  function Sum(h: seq<nat>): nat {
    if h == [] then 0 else Sum(h[..|h| - 1]) + h[|h| - 1]
  }

  lemma {:induction false} SumZeros(n: nat)
    ensures Sum(Zeros(n)) == 0
  {
    if n > 0 {
      SumZeros(n - 1);
      assert Zeros(n)[..n - 1] == Zeros(n - 1);
    }
  }

  /** `hist[idx] += 1` for the matched slot, if any. */
  function Bump(h: seq<nat>, idx: Option<nat>): (r: seq<nat>)
    ensures |r| == |h|
  {
    if idx.Some? && idx.value < |h| then h[idx.value := h[idx.value] + 1] else h
  }

  lemma BumpAt(h: seq<nat>, idx: Option<nat>, i: nat)
    requires i < |h| && (idx.Some? ==> idx.value < |h|)
    ensures Bump(h, idx)[i] == h[i] + (if idx == Some(i) then 1 else 0)
  {
  }

  /** Incrementing one slot adds one to the total. */
  lemma {:induction false} SumBump(h: seq<nat>, i: nat)
    requires i < |h|
    ensures Sum(h[i := h[i] + 1]) == Sum(h) + 1
  {
    var n := |h| - 1;
    var h2 := h[i := h[i] + 1];
    if i == n {
      assert h2[..n] == h[..n];
    } else {
      assert h2[..n] == h[..n][i := h[i] + 1];
      SumBump(h[..n], i);
    }
  }

  /** The slot counts of `view_tactic_hist` over a list of tactic names. */
  function HistOf(ts: seq<string>, names: seq<string>): (h: seq<nat>)
    ensures |h| == |ts|
  {
    if names == [] then Zeros(|ts|)
    else Bump(HistOf(ts, names[..|names| - 1]), FirstPrefix(ts, names[|names| - 1]))
  }

  /** The number of names counted in slot `i`. */
  function CountIn(ts: seq<string>, names: seq<string>, i: nat): nat {
    if names == [] then 0
    else CountIn(ts, names[..|names| - 1], i) + (if FirstPrefix(ts, names[|names| - 1]) == Some(i) then 1 else 0)
  }

  /** The number of names counted in some slot. */
  function Matched(ts: seq<string>, names: seq<string>): (n: nat)
    ensures n <= |names|
  {
    if names == [] then 0
    else Matched(ts, names[..|names| - 1]) + (if FirstPrefix(ts, names[|names| - 1]).Some? then 1 else 0)
  }

  /** Each slot counts the names whose first matching tactic is that
      slot's, and the counts add up to the number of names that match some
      tactic: each name adds at most one. */
  lemma {:induction false} HistOfSpec(ts: seq<string>, names: seq<string>)
    ensures forall i :: 0 <= i < |ts| ==> HistOf(ts, names)[i] == CountIn(ts, names, i)
    ensures Sum(HistOf(ts, names)) == Matched(ts, names)
  {
    if names == [] {
      SumZeros(|ts|);
    } else {
      var pre := names[..|names| - 1];
      var name := names[|names| - 1];
      HistOfSpec(ts, pre);
      FirstPrefixSpec(ts, name);
      if FirstPrefix(ts, name).Some? {
        SumBump(HistOf(ts, pre), FirstPrefix(ts, name).value);
      }
    }
  }

  /** The first edge of each invocation, in edge order. */
  function FirstEdges(es: seq<Edge>): seq<Edge> {
    if es == [] then []
    else
      var pre := es[..|es| - 1];
      if es[|es| - 1].tid in TidSet(pre) then FirstEdges(pre) else FirstEdges(pre) + [es[|es| - 1]]
  }

  function Names(es: seq<Edge>): (r: seq<string>)
    ensures |r| == |es| && forall i :: 0 <= i < |es| ==> r[i] == es[i].name
  {
    seq(|es|, i requires 0 <= i < |es| => es[i].name)
  }

  /** The names of the first edge of each group, in the dictionary's
      order: what `view_tactic_hist` looks at. */
  function FirstNames(tactics: map<int, seq<Edge>>, order: seq<int>): (r: seq<string>)
    requires forall i :: 0 <= i < |order| ==> order[i] in tactics && tactics[order[i]] != []
    ensures |r| == |order|
  {
    seq(|order|, i requires 0 <= i < |order| => tactics[order[i]][0].name)
  }

  /** One more edge: its invocation is appended to the order when new,
      and the edge to its group. */
  lemma TacticsSnoc(es: seq<Edge>)
    requires es != []
    ensures var pre := es[..|es| - 1]; var e := es[|es| - 1];
      TidOrder(es) == (if e.tid in TidOrder(pre) then TidOrder(pre) else TidOrder(pre) + [e.tid]) &&
      TacticsOf(es) == (if e.tid in TacticsOf(pre) then TacticsOf(pre)[e.tid := TacticsOf(pre)[e.tid] + [e]]
                        else TacticsOf(pre)[e.tid := [e]])
  {
    assert TidPairs(es)[..|es| - 1] == TidPairs(es[..|es| - 1]);
  }

  /** The invocations in the order are those of the edges. */
  lemma TidOrderMembers(es: seq<Edge>)
    ensures forall t :: t in TidOrder(es) <==> t in TidSet(es)
    ensures forall t :: t in TacticsOf(es) <==> t in TidSet(es)
  {
    TacticsKeys(es);
  }

  /** Visiting the groups in insertion order and taking each one's first
      edge gives the first edge of each invocation in edge order. */
  lemma {:induction false} FirstEdgesAgree(es: seq<Edge>)
    ensures |TidOrder(es)| == |FirstEdges(es)|
    ensures forall i :: 0 <= i < |FirstEdges(es)| ==>
      TidOrder(es)[i] in TacticsOf(es) && TacticsOf(es)[TidOrder(es)[i]] != [] &&
      TacticsOf(es)[TidOrder(es)[i]][0] == FirstEdges(es)[i]
  {
    if es != [] {
      var pre := es[..|es| - 1];
      FirstEdgesAgree(pre);
      TacticsSnoc(es);
      TidOrderMembers(pre);
    }
  }

  lemma {:induction false} FirstEdgesFirst(es: seq<Edge>)
    ensures forall j :: 0 <= j < |FirstEdges(es)| ==> FirstOfTid(es, FirstEdges(es)[j])
  {
    if es != [] {
      var n := |es| - 1;
      var pre := es[..n];
      FirstEdgesFirst(pre);
      var fe := FirstEdges(pre);
      forall j | 0 <= j < |fe|
        ensures FirstOfTid(es, fe[j])
      {
        var i :| 0 <= i < |pre| && pre[i] == fe[j] && fe[j].tid !in TidSet(pre[..i]);
        assert pre[..i] == es[..i];
        assert es[i] == fe[j];
      }
      if es[n].tid !in TidSet(pre) {
        assert es[n] == es[n] && es[n].tid !in TidSet(es[..n]);
      }
    }
  }

  lemma {:induction false} FirstEdgesTids(es: seq<Edge>)
    ensures forall j, k :: 0 <= j < k < |FirstEdges(es)| ==> FirstEdges(es)[j].tid != FirstEdges(es)[k].tid
    ensures TidSet(FirstEdges(es)) == TidSet(es)
  {
    if es != [] {
      var n := |es| - 1;
      var pre := es[..n];
      FirstEdgesTids(pre);
      TidSetPrefix(es, n);
      assert es[..n + 1] == es;
      var fe := FirstEdges(pre);
      if es[n].tid !in TidSet(pre) {
        var a := fe + [es[n]];
        TidSetPrefix(a, |fe|);
        assert a[..|fe|] == fe && a[..|fe| + 1] == a;
      }
    }
  }

  /** `view_tactic_hist` has one slot per known tactic, and its counts add
      up to at most the number of invocations. */
  lemma TacticHistBound(es: seq<Edge>)
    ensures |HistOf(TACTICS, Names(FirstEdges(es)))| == |TACTICS|
    ensures Sum(HistOf(TACTICS, Names(FirstEdges(es)))) <= |TidOrder(es)|
  {
    HistOfSpec(TACTICS, Names(FirstEdges(es)));
    FirstEdgesAgree(es);
  }

  /** The counting loop of `view_tactic_hist`: the first edge of each group
      in turn adds one to the slot of its first matching tactic. */
  method TacticHist(ts: seq<string>, tactics: map<int, seq<Edge>>, order: seq<int>) returns (hist: seq<nat>)
    requires forall i :: 0 <= i < |order| ==> order[i] in tactics && tactics[order[i]] != []
    ensures hist == HistOf(ts, FirstNames(tactics, order))
  {
    ghost var names := FirstNames(tactics, order);
    hist := Zeros(|ts|);
    var k := 0;
    while k < |order|
      invariant 0 <= k <= |order|
      invariant hist == HistOf(ts, names[..k])
    {
      assert names[..k + 1][..k] == names[..k];
      var tac := tactics[order[k]][0];
      var idx := MatchTactic(ts, tac.name);
      FirstPrefixSpec(ts, tac.name);
      if idx.Some? {
        hist := hist[idx.value := hist[idx.value] + 1];
      }
      k := k + 1;
    }
    assert names[..k] == names;
  }

  /** Each count paired with its tactic's name, in slot order. */
  function Zip(ts: seq<string>, h: seq<nat>): (r: seq<(string, nat)>)
    requires |ts| == |h|
    ensures |r| == |ts| && forall i :: 0 <= i < |ts| ==> r[i] == (ts[i], h[i])
  {
    seq(|ts|, i requires 0 <= i < |ts| => (ts[i], h[i]))
  }

  /** What `view_tactic_hist` returns: the bare counts, or each paired with
      its tactic. */
  datatype TacticCounts = Counts(counts: seq<nat>) | Named(named: seq<(string, nat)>)

  // ---------------------------------------------------------------------
  // Tactics by depth

  /** The largest depth of a non-empty view (Python's `max`). */
  function MaxDepth(fv: seq<FlatEntry>): nat
    requires fv != []
  {
    if |fv| == 1 then fv[0].depth
    else
      var m := MaxDepth(fv[..|fv| - 1]);
      if fv[|fv| - 1].depth > m then fv[|fv| - 1].depth else m
  }

  lemma {:induction false} MaxDepthSpec(fv: seq<FlatEntry>)
    requires fv != []
    ensures forall i :: 0 <= i < |fv| ==> fv[i].depth <= MaxDepth(fv)
    ensures exists i :: 0 <= i < |fv| && fv[i].depth == MaxDepth(fv)
  {
    if |fv| > 1 {
      var pre := fv[..|fv| - 1];
      MaxDepthSpec(pre);
      assert forall i :: 0 <= i < |pre| ==> pre[i] == fv[i];
      if fv[|fv| - 1].depth <= MaxDepth(pre) {
        var i :| 0 <= i < |pre| && pre[i].depth == MaxDepth(pre);
        assert fv[i].depth == MaxDepth(fv);
      } else {
        assert fv[|fv| - 1].depth == MaxDepth(fv);
      }
    } else {
      assert fv[0].depth == MaxDepth(fv);
    }
  }

  /** `hist[depth] = [0 for _ in TACTIC_IDS]` for every depth below `n`. */
  function InitHist(n: nat, k: nat): (h: map<nat, seq<nat>>)
    ensures forall d: nat :: d in h <==> d < n
    ensures forall d: nat :: d < n ==> h[d] == Zeros(k)
  {
    if n == 0 then map[] else InitHist(n - 1, k)[n - 1 := Zeros(k)]
  }

  /** `view_depth_tactic_hist` over a prefix of the view, from the initial
      histogram for depths `0..maxd`. */
  function DepthHist(ts: seq<string>, fv: seq<FlatEntry>, maxd: nat): (h: map<nat, seq<nat>>)
    ensures forall d: nat :: d in h <==> d <= maxd
    ensures forall d: nat :: d <= maxd ==> |h[d]| == |ts|
  {
    if fv == [] then InitHist(maxd + 1, |ts|)
    else
      var h := DepthHist(ts, fv[..|fv| - 1], maxd);
      var x := fv[|fv| - 1];
      if x.depth in h then h[x.depth := Bump(h[x.depth], FirstPrefix(ts, x.edge.name))] else h
  }

  /** The number of entries at depth `d` whose tactic is counted in slot
      `i`. */
  function CountAt(ts: seq<string>, fv: seq<FlatEntry>, d: nat, i: nat): nat {
    if fv == [] then 0
    else
      var x := fv[|fv| - 1];
      CountAt(ts, fv[..|fv| - 1], d, i) + (if x.depth == d && FirstPrefix(ts, x.edge.name) == Some(i) then 1 else 0)
  }

  /** The number of entries whose tactic is counted in some slot. */
  function MatchedEntries(ts: seq<string>, fv: seq<FlatEntry>): (n: nat)
    ensures n <= |fv|
  {
    if fv == [] then 0
    else MatchedEntries(ts, fv[..|fv| - 1]) + (if FirstPrefix(ts, fv[|fv| - 1].edge.name).Some? then 1 else 0)
  }

  /** The histogram has the keys `0..maxd`, a vector of one slot per tactic
      under each, and in each slot the number of entries at that depth
      whose first matching tactic is the slot's. */
  lemma {:induction false} DepthHistSpec(ts: seq<string>, fv: seq<FlatEntry>, maxd: nat)
    ensures forall d: nat, i :: d <= maxd && 0 <= i < |ts| ==> DepthHist(ts, fv, maxd)[d][i] == CountAt(ts, fv, d, i)
  {
    if fv != [] {
      var pre := fv[..|fv| - 1];
      var x := fv[|fv| - 1];
      DepthHistSpec(ts, pre, maxd);
      FirstPrefixSpec(ts, x.edge.name);
      var h := DepthHist(ts, pre, maxd);
      forall d: nat, i | d <= maxd && 0 <= i < |ts|
        ensures DepthHist(ts, fv, maxd)[d][i] == CountAt(ts, fv, d, i)
      {
        if d == x.depth {
          BumpAt(h[d], FirstPrefix(ts, x.edge.name), i);
        }
      }
    }
  }

  /** The counts over depths `0..n-1`. */
  function TotalTo(h: map<nat, seq<nat>>, n: nat): nat
    requires forall d: nat :: d < n ==> d in h
  {
    if n == 0 then 0 else TotalTo(h, n - 1) + Sum(h[n - 1])
  }

  lemma {:induction false} TotalToSame(h: map<nat, seq<nat>>, h2: map<nat, seq<nat>>, n: nat)
    requires forall d: nat :: d < n ==> d in h && d in h2 && h[d] == h2[d]
    ensures TotalTo(h, n) == TotalTo(h2, n)
  {
    if n > 0 {
      TotalToSame(h, h2, n - 1);
    }
  }

  lemma {:induction false} TotalToBump(h: map<nat, seq<nat>>, n: nat, d: nat, i: nat)
    requires forall e: nat :: e < n ==> e in h
    requires d < n && i < |h[d]|
    ensures TotalTo(h[d := h[d][i := h[d][i] + 1]], n) == TotalTo(h, n) + 1
  {
    var h2 := h[d := h[d][i := h[d][i] + 1]];
    if d == n - 1 {
      TotalToSame(h, h2, n - 1);
      SumBump(h[d], i);
    } else {
      TotalToBump(h, n - 1, d, i);
    }
  }

  lemma {:induction false} TotalToInit(n: nat, k: nat, m: nat)
    requires m <= n
    ensures TotalTo(InitHist(n, k), m) == 0
  {
    if m > 0 {
      TotalToInit(n, k, m - 1);
      SumZeros(k);
    }
  }

  /** Each entry increments at most one slot: the counts over all depths
      add up to the number of entries whose tactic matches. */
  lemma {:induction false} DepthHistTotal(ts: seq<string>, fv: seq<FlatEntry>, maxd: nat)
    requires forall i :: 0 <= i < |fv| ==> fv[i].depth <= maxd
    ensures TotalTo(DepthHist(ts, fv, maxd), maxd + 1) == MatchedEntries(ts, fv)
  {
    if fv == [] {
      TotalToInit(maxd + 1, |ts|, maxd + 1);
    } else {
      var pre := fv[..|fv| - 1];
      assert forall i :: 0 <= i < |pre| ==> pre[i] == fv[i];
      DepthHistTotal(ts, pre, maxd);
      DepthHistTotalStep(ts, fv, maxd);
    }
  }

  lemma DepthHistTotalStep(ts: seq<string>, fv: seq<FlatEntry>, maxd: nat)
    requires fv != [] && fv[|fv| - 1].depth <= maxd
    ensures TotalTo(DepthHist(ts, fv, maxd), maxd + 1) ==
      TotalTo(DepthHist(ts, fv[..|fv| - 1], maxd), maxd + 1) + (if FirstPrefix(ts, fv[|fv| - 1].edge.name).Some? then 1 else 0)
  {
    var pre := fv[..|fv| - 1];
    var x := fv[|fv| - 1];
    FirstPrefixSpec(ts, x.edge.name);
    var h := DepthHist(ts, pre, maxd);
    var idx := FirstPrefix(ts, x.edge.name);
    if idx.Some? {
      assert DepthHist(ts, fv, maxd) == h[x.depth := h[x.depth][idx.value := h[x.depth][idx.value] + 1]];
      TotalToBump(h, maxd + 1, x.depth, idx.value);
    } else {
      assert DepthHist(ts, fv, maxd) == h;
    }
  }

  /** The `max` of the depths of a non-empty view, as a loop. */
  method MaxDepthOf(fv: seq<FlatEntry>) returns (maxDepth: nat)
    requires fv != []
    ensures maxDepth == MaxDepth(fv)
  {
    maxDepth := fv[0].depth;
    var i := 1;
    while i < |fv|
      invariant 1 <= i <= |fv|
      invariant maxDepth == MaxDepth(fv[..i])
    {
      assert fv[..i + 1][..i] == fv[..i];
      if fv[i].depth > maxDepth {
        maxDepth := fv[i].depth;
      }
      i := i + 1;
    }
    assert fv[..i] == fv;
  }

  /** `for depth in range(n): hist[depth] = [0 for _ in TACTIC_IDS]`. */
  method ZeroHist(n: nat, k: nat) returns (hist: map<nat, seq<nat>>)
    ensures hist == InitHist(n, k)
  {
    hist := map[];
    var d := 0;
    while d < n
      invariant 0 <= d <= n
      invariant hist == InitHist(d, k)
    {
      hist := hist[d := Zeros(k)];
      d := d + 1;
    }
  }

  /** The counting loop of `view_depth_tactic_hist`. */
  method CountDepths(ts: seq<string>, fv: seq<FlatEntry>, maxd: nat) returns (hist: map<nat, seq<nat>>)
    requires forall i :: 0 <= i < |fv| ==> fv[i].depth <= maxd
    ensures hist == DepthHist(ts, fv, maxd)
  {
    hist := ZeroHist(maxd + 1, |ts|);
    var j := 0;
    while j < |fv|
      invariant 0 <= j <= |fv|
      invariant hist == DepthHist(ts, fv[..j], maxd)
    {
      assert fv[..j + 1][..j] == fv[..j];
      var x := fv[j];
      var idx := MatchTactic(ts, x.edge.name);
      FirstPrefixSpec(ts, x.edge.name);
      if idx.Some? {
        hist := hist[x.depth := hist[x.depth][idx.value := hist[x.depth][idx.value] + 1]];
      }
      j := j + 1;
    }
    assert fv[..j] == fv;
  }

  /** `view_depth_tactic_hist` over the tactic names `ts`: the `max` of the
      depths (a ValueError when the view is empty), a zero vector under
      every depth up to it, then for each entry one increment at its depth
      and its first matching tactic. */
  method DepthTacticHist(ts: seq<string>, fv: seq<FlatEntry>) returns (r: Result<map<nat, seq<nat>>, TreeError>)
    ensures fv == [] ==> r == Err(EmptyView)
    ensures fv != [] ==> r == Ok(DepthHist(ts, fv, MaxDepth(fv)))
  {
    if fv == [] {
      return Err(EmptyView);
    }
    var maxDepth := MaxDepthOf(fv);
    MaxDepthSpec(fv);
    var hist := CountDepths(ts, fv, maxDepth);
    r := Ok(hist);
  }

  // ---------------------------------------------------------------------
  // Edges into and out of a goal

  /** The edges into `v` whose source is in `srcs`. */
  function Into(es: seq<Edge>, srcs: set<int>, v: int): seq<Edge> {
    if es == [] then []
    else
      var e := es[|es| - 1];
      Into(es[..|es| - 1], srcs, v) + (if e.src in srcs && e.tgt == v then [e] else [])
  }

  /** The edges out of `v` whose target is in `tgts`. */
  function OutOf(es: seq<Edge>, tgts: set<int>, v: int): seq<Edge> {
    if es == [] then []
    else
      var e := es[|es| - 1];
      OutOf(es[..|es| - 1], tgts, v) + (if e.tgt in tgts && e.src == v then [e] else [])
  }

  lemma {:induction false} IntoSpec(es: seq<Edge>, srcs: set<int>, v: int)
    ensures forall e :: e in Into(es, srcs, v) <==> e in es && e.tgt == v && e.src in srcs
  {
    if es != [] {
      IntoSpec(es[..|es| - 1], srcs, v);
      assert es == es[..|es| - 1] + [es[|es| - 1]];
    }
  }

  lemma {:induction false} OutOfSpec(es: seq<Edge>, tgts: set<int>, v: int)
    ensures forall e :: e in OutOf(es, tgts, v) <==> e in es && e.src == v && e.tgt in tgts
  {
    if es != [] {
      OutOfSpec(es[..|es| - 1], tgts, v);
      assert es == es[..|es| - 1] + [es[|es| - 1]];
    }
  }

  /** When the graph is the edges' endpoints, the predecessor test of
      `in_edge` keeps every edge into `v`: there are as many as `v`'s
      in-degree. */
  lemma IntoAll(es: seq<Edge>, v: int)
    ensures |Into(es, Preds(EdgePairs(es), v), v)| == InDegree(EdgePairs(es), v)
  {
    var pairs := EdgePairs(es);
    forall i | 0 <= i < |es| && es[i].tgt == v
      ensures es[i].src in Preds(pairs, v)
    {
      assert pairs[i].1 == v;
    }
    IntoKeepsAll(es, Preds(pairs, v), v);
  }

  lemma {:induction false} IntoKeepsAll(es: seq<Edge>, srcs: set<int>, v: int)
    requires forall i :: 0 <= i < |es| && es[i].tgt == v ==> es[i].src in srcs
    ensures |Into(es, srcs, v)| == InDegree(EdgePairs(es), v)
  {
    if es != [] {
      var pre := es[..|es| - 1];
      assert forall i :: 0 <= i < |pre| ==> pre[i] == es[i];
      IntoKeepsAll(pre, srcs, v);
      assert EdgePairs(es)[..|es| - 1] == EdgePairs(pre);
    }
  }

  // ---------------------------------------------------------------------
  // The tree

  /** `edge.name.startswith("<ssreflect_plugin::ssrhave@0>") and edge.isbod`. */
  predicate IsHaveBody(e: Edge) {
    StartsWith(e.name, "<ssreflect_plugin::ssrhave@0>") && e.isbod
  }

  /** The edges `view_have_info` reports, in order. */
  function HaveEdges(es: seq<Edge>): seq<Edge> {
    if es == [] then []
    else HaveEdges(es[..|es| - 1]) + (if IsHaveBody(es[|es| - 1]) then [es[|es| - 1]] else [])
  }

  lemma {:induction false} HaveEdgesSpec(es: seq<Edge>)
    ensures forall e :: e in HaveEdges(es) <==> e in es && IsHaveBody(e)
  {
    if es != [] {
      HaveEdgesSpec(es[..|es| - 1]);
      assert es == es[..|es| - 1] + [es[|es| - 1]];
    }
  }

  /** The edges a prefix of the edges contributes come first. */
  lemma {:induction false} HaveEdgesPrefix(es: seq<Edge>, n: nat)
    requires n <= |es|
    ensures |HaveEdges(es[..n])| <= |HaveEdges(es)|
    ensures HaveEdges(es)[..|HaveEdges(es[..n])|] == HaveEdges(es[..n])
  {
    if n < |es| {
      var pre := es[..|es| - 1];
      assert pre[..n] == es[..n];
      HaveEdgesPrefix(pre, n);
    } else {
      assert es[..n] == es;
    }
  }

  /** One more edge adds itself to the `have` edges when it is one. */
  lemma HaveEdgesStep(es: seq<Edge>, i: nat)
    requires i < |es|
    ensures HaveEdges(es[..i + 1]) == HaveEdges(es[..i]) + (if IsHaveBody(es[i]) then [es[i]] else [])
  {
    assert es[..i + 1][..i] == es[..i];
  }

  /** A `have` edge at `i` comes right after those of the edges before it. */
  lemma HaveEdgesAt(es: seq<Edge>, i: nat)
    requires i < |es| && IsHaveBody(es[i])
    ensures var hs := HaveEdges(es[..i]);
      |hs| < |HaveEdges(es)| && HaveEdges(es)[|hs|] == es[i] &&
      forall j :: 0 <= j < |hs| ==> HaveEdges(es)[j] == hs[j]
  {
    HaveEdgesStep(es, i);
    HaveEdgesPrefix(es, i + 1);
    var hs := HaveEdges(es[..i]);
    assert HaveEdges(es)[..|hs| + 1] == hs + [es[i]];
  }

  /** An entry of `view_have_info`: the full tactic, its length and a
      shortest path to a terminal goal. */
  datatype HaveInfo = HaveInfo(ftac: string, len: nat, path: seq<int>)

  /** `assert self.root`: a root of goal identifier 0 is false in Python
      and fails the assertion like a missing one. */
  predicate RootHolds(root: Option<int>) {
    root.Some? && root.value != 0
  }

  class TacTree {
    const name: string
    const edges: seq<Edge>
    const graph: Graph<int>
    const gid2info: map<int, GoalInfo>
    var notok: seq<int>
    var root: Option<int>
    var goals: seq<int>
    var termGoals: seq<int>
    var errGoals: seq<int>
    var tactics: map<int, seq<Edge>>
    /** The order in which `tactics` was first given each key. */
    var tacticOrder: seq<int>
    var flatview: seq<FlatEntry>

    /** The inputs of `__init__`, before anything is computed from them. */
    constructor (name: string, edges: seq<Edge>, graph: Graph<int>, gid2info: map<int, GoalInfo>)
      ensures this.name == name && this.edges == edges && this.graph == graph && this.gid2info == gid2info
      ensures notok == [] && root == None && goals == [] && termGoals == [] && errGoals == []
      ensures tactics == map[] && tacticOrder == [] && flatview == []
    {
      this.name := name;
      this.edges := edges;
      this.graph := graph;
      this.gid2info := gid2info;
      notok := [];
      root := None;
      goals := [];
      termGoals := [];
      errGoals := [];
      tactics := map[];
      tacticOrder := [];
      flatview := [];
    }

    /** What `__init__` leaves in the fields once it returns. */
    ghost predicate Built()
      reads this
    {
      root == FirstRoot(graph.nodes, graph.edges) && RootHolds(root) &&
      goals == graph.nodes && termGoals == TermTargets(edges) && errGoals == ErrTargets(edges) &&
      tactics == TacticsOf(edges) && tacticOrder == TidOrder(edges) &&
      FlatAt(graph.edges, graph.nodes, root.value, gid2info, edges) == Ok(flatview)
    }

    /** `_root`: the first node all of whose incoming edges are
        self-loops. */
    method ComputeRoot()
      modifies this
      ensures root == FirstRoot(graph.nodes, graph.edges)
      ensures notok == old(notok) && goals == old(goals) && termGoals == old(termGoals) && errGoals == old(errGoals)
      ensures tactics == old(tactics) && tacticOrder == old(tacticOrder) && flatview == old(flatview)
    {
      root := FindRoot(graph);
    }

    /** `_goals`: every node of the graph. */
    method ComputeGoals()
      modifies this
      ensures goals == graph.nodes
      ensures notok == old(notok) && root == old(root) && termGoals == old(termGoals) && errGoals == old(errGoals)
      ensures tactics == old(tactics) && tacticOrder == old(tacticOrder) && flatview == old(flatview)
    {
      goals := graph.nodes;
    }

    /** `_term_goals`: the targets of the edges into terminal goals. */
    method ComputeTermGoals()
      modifies this
      ensures termGoals == TermTargets(edges)
      ensures notok == old(notok) && root == old(root) && goals == old(goals) && errGoals == old(errGoals)
      ensures tactics == old(tactics) && tacticOrder == old(tacticOrder) && flatview == old(flatview)
    {
      var acc := [];
      var i := 0;
      while i < |edges|
        invariant 0 <= i <= |edges|
        invariant acc == TermTargets(edges[..i])
      {
        assert edges[..i + 1][..i] == edges[..i];
        if edges[i].toTerm {
          acc := acc + [edges[i].tgt];
        }
        i := i + 1;
      }
      assert edges[..i] == edges;
      termGoals := acc;
    }

    /** `_err_goals`: the targets of the edges into error goals. */
    method ComputeErrGoals()
      modifies this
      ensures errGoals == ErrTargets(edges)
      ensures notok == old(notok) && root == old(root) && goals == old(goals) && termGoals == old(termGoals)
      ensures tactics == old(tactics) && tacticOrder == old(tacticOrder) && flatview == old(flatview)
    {
      var acc := [];
      var i := 0;
      while i < |edges|
        invariant 0 <= i <= |edges|
        invariant acc == ErrTargets(edges[..i])
      {
        assert edges[..i + 1][..i] == edges[..i];
        if edges[i].toErr {
          acc := acc + [edges[i].tgt];
        }
        i := i + 1;
      }
      assert edges[..i] == edges;
      errGoals := acc;
    }

    /** `_tactics`: the edges grouped by tactic invocation, with the
        dictionary's insertion order. */
    method ComputeTactics()
      modifies this
      ensures tactics == TacticsOf(edges) && tacticOrder == TidOrder(edges)
      ensures notok == old(notok) && root == old(root) && goals == old(goals)
      ensures termGoals == old(termGoals) && errGoals == old(errGoals) && flatview == old(flatview)
    {
      var m, order := Groups.Group(TidPairs(edges));
      tactics, tacticOrder := m, order;
    }

    /** `_flatten_view`, with its KeyError as an error result. */
    method ComputeFlatView() returns (r: Result<(), TreeError>)
      requires root.Some?
      modifies this
      ensures root == old(root)
      ensures r == Outcome(FlatAt(graph.edges, graph.nodes, root.value, gid2info, edges))
      ensures r.Ok? ==> FlatAt(graph.edges, graph.nodes, root.value, gid2info, edges) == Ok(flatview)
      ensures r.Err? ==> flatview == old(flatview)
      ensures notok == old(notok) && goals == old(goals) && termGoals == old(termGoals) && errGoals == old(errGoals)
      ensures tactics == old(tactics) && tacticOrder == old(tacticOrder)
    {
      var fv := FlattenView(graph.edges, graph.nodes, root.value, gid2info, edges);
      if fv.Err? {
        return Err(fv.error);
      }
      flatview := fv.value;
      r := Ok(());
    }

    /** `in_edge(gid)`: the edges into `v` from its predecessors. */
    method InEdge(v: int) returns (r: Result<seq<Edge>, TreeError>)
      ensures v !in graph.nodes ==> r == Err(NodeMissing(v))
      ensures v in graph.nodes ==> (r.Ok? &&
        forall e :: e in r.value <==> e in edges && e.tgt == v && e.src in Preds(graph.edges, v))
      ensures r.Ok? ==> r.value == Into(edges, Preds(graph.edges, v), v)
    {
      if v !in graph.nodes {
        return Err(NodeMissing(v));
      }
      var gids := Preds(graph.edges, v);
      var acc := [];
      var i := 0;
      while i < |edges|
        invariant 0 <= i <= |edges|
        invariant acc == Into(edges[..i], gids, v)
      {
        assert edges[..i + 1][..i] == edges[..i];
        if edges[i].src in gids && edges[i].tgt == v {
          acc := acc + [edges[i]];
        }
        i := i + 1;
      }
      assert edges[..i] == edges;
      IntoSpec(edges, gids, v);
      r := Ok(acc);
    }

    /** `out_edges(gid)`: the edges from `v` to its successors. */
    method OutEdges(v: int) returns (r: Result<seq<Edge>, TreeError>)
      ensures v !in graph.nodes ==> r == Err(NodeMissing(v))
      ensures v in graph.nodes ==> (r.Ok? &&
        forall e :: e in r.value <==> e in edges && e.src == v && e.tgt in Succs(graph.edges, v))
      ensures r.Ok? ==> r.value == OutOf(edges, Succs(graph.edges, v), v)
    {
      if v !in graph.nodes {
        return Err(NodeMissing(v));
      }
      var gids := Succs(graph.edges, v);
      var acc := [];
      var i := 0;
      while i < |edges|
        invariant 0 <= i <= |edges|
        invariant acc == OutOf(edges[..i], gids, v)
      {
        assert edges[..i + 1][..i] == edges[..i];
        if edges[i].tgt in gids && edges[i].src == v {
          acc := acc + [edges[i]];
        }
        i := i + 1;
      }
      assert edges[..i] == edges;
      OutOfSpec(edges, gids, v);
      r := Ok(acc);
    }

    /** `view_err_paths`: shortest paths from the root to the error goals
        that can be reached, the others appended to `notok`; the first
        error goal the graph does not hold raises the library's error,
        after the goals before it were appended. */
    method ViewErrPaths() returns (r: Result<seq<seq<int>>, TreeError>)
      requires root.Some?
      modifies this
      ensures root == old(root) && errGoals == old(errGoals)
      ensures var k := FirstStray(graph.nodes, root.value, errGoals);
        (r.Err? <==> k.Some?) &&
        (r.Err? ==> r.error == NodeMissing(MissingEnd(graph.nodes, root.value, errGoals[k.value]))) &&
        notok == old(notok) + Unreachable(graph.edges, root.value, Before(errGoals, k))
      ensures r.Ok? ==> |r.value| == |ReachableOf(graph.edges, root.value, errGoals)|
      ensures r.Ok? ==> forall i :: 0 <= i < |r.value| ==>
        IsPath(graph.edges, r.value[i], root.value, ReachableOf(graph.edges, root.value, errGoals)[i]) &&
        Dist(graph.edges, root.value, ReachableOf(graph.edges, root.value, errGoals)[i]) == Some(|r.value[i]| - 1)
      ensures goals == old(goals) && termGoals == old(termGoals)
      ensures tactics == old(tactics) && tacticOrder == old(tacticOrder) && flatview == old(flatview)
    {
      var acc, missing, stray := PathsTo(graph.edges, graph.nodes, root.value, errGoals);
      notok := notok + missing;
      if stray.Some? {
        return Err(NodeMissing(MissingEnd(graph.nodes, root.value, errGoals[stray.value])));
      }
      r := Ok(acc);
    }

    /** `view_term_paths`: the same for the terminal goals. */
    method ViewTermPaths() returns (r: Result<seq<seq<int>>, TreeError>)
      requires root.Some?
      modifies this
      ensures root == old(root) && termGoals == old(termGoals)
      ensures var k := FirstStray(graph.nodes, root.value, termGoals);
        (r.Err? <==> k.Some?) &&
        (r.Err? ==> r.error == NodeMissing(MissingEnd(graph.nodes, root.value, termGoals[k.value]))) &&
        notok == old(notok) + Unreachable(graph.edges, root.value, Before(termGoals, k))
      ensures r.Ok? ==> |r.value| == |ReachableOf(graph.edges, root.value, termGoals)|
      ensures r.Ok? ==> forall i :: 0 <= i < |r.value| ==>
        IsPath(graph.edges, r.value[i], root.value, ReachableOf(graph.edges, root.value, termGoals)[i]) &&
        Dist(graph.edges, root.value, ReachableOf(graph.edges, root.value, termGoals)[i]) == Some(|r.value[i]| - 1)
      ensures goals == old(goals) && errGoals == old(errGoals)
      ensures tactics == old(tactics) && tacticOrder == old(tacticOrder) && flatview == old(flatview)
    {
      var acc, missing, stray := PathsTo(graph.edges, graph.nodes, root.value, termGoals);
      notok := notok + missing;
      if stray.Some? {
        return Err(NodeMissing(MissingEnd(graph.nodes, root.value, termGoals[stray.value])));
      }
      r := Ok(acc);
    }

    /** How the search for a terminal goal from the source of `e` ends. */
    ghost function Lookup(e: Edge): Result<Option<int>, int>
      reads this
    {
      FirstGoal(graph.edges, graph.nodes, e.src, termGoals)
    }

    /** The entry `view_have_info` makes for `e`: the full tactic, its
        length and a shortest path from the source of `e` to the first
        terminal goal reachable from it, empty when there is none. */
    ghost predicate HaveFits(e: Edge, h: HaveInfo)
      reads this
    {
      h.ftac == e.ftac && h.len == |e.ftac| &&
      (FirstReachable(graph.edges, e.src, termGoals).None? ==> h.path == []) &&
      (FirstReachable(graph.edges, e.src, termGoals).Some? ==>
         IsPath(graph.edges, h.path, e.src, FirstReachable(graph.edges, e.src, termGoals).value) &&
         Dist(graph.edges, e.src, FirstReachable(graph.edges, e.src, termGoals).value) == Some(|h.path| - 1))
    }

    /** The body of `view_have_info` for one `have` edge. */
    method HaveOf(e: Edge) returns (x: Result<HaveInfo, int>)
      ensures x.Err? <==> Lookup(e).Err?
      ensures x.Err? ==> Lookup(e) == Err(x.error)
      ensures x.Ok? ==> HaveFits(e, x.value)
    {
      var p := FirstGoalPath(graph.edges, graph.nodes, e.src, termGoals);
      if p.Err? {
        return Err(p.error);
      }
      x := Ok(HaveInfo(e.ftac, |e.ftac|, p.value));
    }

    /** `view_have_info`: an entry for each body edge of an ssreflect
        `have`, in order; the first search that meets a goal the graph does
        not hold raises the library's error. */
    method ViewHaveInfo() returns (r: Result<seq<HaveInfo>, TreeError>)
      ensures r.Ok? <==> forall i :: 0 <= i < |HaveEdges(edges)| ==> Lookup(HaveEdges(edges)[i]).Ok?
      ensures r.Err? ==> r.error.NodeMissing?
      ensures r.Err? && r.error.NodeMissing? ==>
        exists i :: 0 <= i < |HaveEdges(edges)| && Lookup(HaveEdges(edges)[i]) == Err(r.error.gid) &&
          forall j :: 0 <= j < i ==> Lookup(HaveEdges(edges)[j]).Ok?
      ensures r.Ok? ==> |r.value| == |HaveEdges(edges)|
      ensures r.Ok? ==> forall i :: 0 <= i < |r.value| ==> HaveFits(HaveEdges(edges)[i], r.value[i])
    {
      var acc: seq<HaveInfo> := [];
      var i := 0;
      while i < |edges|
        invariant 0 <= i <= |edges|
        invariant |acc| == |HaveEdges(edges[..i])|
        invariant forall j :: 0 <= j < |acc| ==> Lookup(HaveEdges(edges[..i])[j]).Ok?
        invariant forall j :: 0 <= j < |acc| ==> HaveFits(HaveEdges(edges[..i])[j], acc[j])
      {
        HaveEdgesStep(edges, i);
        var e := edges[i];
        if IsHaveBody(e) {
          var x := HaveOf(e);
          if x.Err? {
            HaveEdgesAt(edges, i);
            assert Lookup(HaveEdges(edges)[|acc|]) == Err(x.error);
            return Err(NodeMissing(x.error));
          }
          acc := acc + [x.value];
        }
        i := i + 1;
      }
      assert edges[..i] == edges;
      r := Ok(acc);
    }

    /** `view_tactic_hist(f_compress)`: one count per known tactic, of the
        invocations whose first edge's name starts with it and with no
        tactic before it; bare with `f_compress`, else paired with the
        tactic names. */
    method ViewTacticHist(fCompress: bool) returns (r: TacticCounts)
      requires Built()
      ensures var h := HistOf(TACTICS, Names(FirstEdges(edges)));
        r.Counts? == fCompress &&
        (r.Counts? ==> r.counts == h) &&
        (r.Named? ==> r.named == Zip(TACTICS, h))
    {
      FirstEdgesAgree(edges);
      var hist := TacticHist(TACTICS, tactics, tacticOrder);
      assert FirstNames(tactics, tacticOrder) == Names(FirstEdges(edges));
      if fCompress {
        r := Counts(hist);
      } else {
        r := Named(Zip(TACTICS, hist));
      }
    }

    /** `view_depth_ctx_size`: the context sizes of the entries, grouped by
        depth. */
    method ViewDepthCtxSize() returns (hist: map<nat, seq<nat>>)
      ensures hist == Groups.GroupPairs(CtxSizePairs(flatview))
    {
      var order;
      hist, order := Groups.Group(CtxSizePairs(flatview));
    }

    /** `view_depth_goal_size`: the goal sizes of the entries, grouped by
        depth. */
    method ViewDepthGoalSize() returns (hist: map<nat, seq<nat>>)
      ensures hist == Groups.GroupPairs(GoalSizePairs(flatview))
    {
      var order;
      hist, order := Groups.Group(GoalSizePairs(flatview));
    }

    /** `view_depth_tactic_hist`. */
    method ViewDepthTacticHist() returns (r: Result<map<nat, seq<nat>>, TreeError>)
      ensures flatview == [] ==> r == Err(EmptyView)
      ensures flatview != [] ==> r == Ok(DepthHist(TACTICS, flatview, MaxDepth(flatview)))
    {
      r := DepthTacticHist(TACTICS, flatview);
    }
  }

  /** `__init__` from `name`, `edges`, `graph` and `gid2info`: every step in
      the source's order, failing at `assert self.root` or when the
      flattened view misses a context. */
  method Build(name: string, edges: seq<Edge>, graph: Graph<int>, gid2info: map<int, GoalInfo>)
    returns (r: Result<TacTree, TreeError>)
    ensures Outcome(r) == BuildOutcome(edges, graph, gid2info)
    ensures r.Ok? ==> (fresh(r.value) && r.value.Built() && r.value.notok == [] &&
      r.value.name == name && r.value.edges == edges && r.value.graph == graph && r.value.gid2info == gid2info)
  {
    var t := new TacTree(name, edges, graph, gid2info);
    t.ComputeRoot();
    if !RootHolds(t.root) {
      return Err(NoRoot);
    }
    t.ComputeGoals();
    t.ComputeTermGoals();
    t.ComputeErrGoals();
    t.ComputeTactics();
    var ok := t.ComputeFlatView();
    if ok.Err? {
      return Err(ok.error);
    }
    r := Ok(t);
  }

  /** Whether `__init__` returns, and with which error it fails. */
  function BuildOutcome(edges: seq<Edge>, graph: Graph<int>, gid2info: map<int, GoalInfo>): Result<(), TreeError> {
    var root := FirstRoot(graph.nodes, graph.edges);
    if !RootHolds(root) then Err(NoRoot)
    else Outcome(FlatAt(graph.edges, graph.nodes, root.value, gid2info, edges))
  }

  /** The tree is built exactly when the first node satisfying the root
      rule exists and is not goal 0, every edge's target is in the graph
      and no edge misses its context. */
  lemma BuildOutcomeSpec(edges: seq<Edge>, graph: Graph<int>, gid2info: map<int, GoalInfo>)
    ensures BuildOutcome(edges, graph, gid2info).Ok? <==>
      RootHolds(FirstRoot(graph.nodes, graph.edges)) &&
      forall i :: 0 <= i < |edges| ==>
        edges[i].tgt in graph.nodes &&
        !MissesInfo(graph.edges, FirstRoot(graph.nodes, graph.edges).value, gid2info, edges, i)
  {
    FirstRootSpec(graph.nodes, graph.edges);
    if RootHolds(FirstRoot(graph.nodes, graph.edges)) {
      var root := FirstRoot(graph.nodes, graph.edges).value;
      assert root in graph.nodes;
      FlatAtErrIff(graph.edges, graph.nodes, root, gid2info, edges);
      forall i | 0 <= i < |edges|
        ensures FailsAt(graph.edges, graph.nodes, root, gid2info, edges, i) <==>
          edges[i].tgt !in graph.nodes || MissesInfo(graph.edges, root, gid2info, edges, i)
      {
      }
    }
  }
}
