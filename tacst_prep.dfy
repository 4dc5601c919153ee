/** Data preparation for position evaluation and tactic prediction
    (`ml/tacst_prep.py`): the points that pair a tactic state with the
    size of the subtree below it, the size and tactic bins of a point, the
    subtree size of a node, and the conversion of position-evaluation
    points into tactic-prediction points. */
module TacstPrep {
  import opened Wrappers
  import opened Text
  import opened Graphs
  import Tactics

  // ---------------------------------------------------------------------
  // Points

  /** A tactic state `(gid, ctx, concl_idx, tac)`: the goal id, the context
      as (identifier, expression index) pairs, the index of the conclusion
      and the tactic edges leaving the state, each written as its name. */
  datatype TacSt = TacSt(gid: int, ctx: seq<(string, int)>, conclIdx: int, tac: seq<string>)

  /** `PosEvalPt` */
  datatype PosEvalPt = PosEvalPt(tacst: TacSt, tacstSize: int, subtrSize: int, subtrBin: nat, tacBin: nat)

  /** Why a point cannot be built: `tac[-1]` on an empty tactic list
      (IndexError), or no class holds a prefix of the tactic's name
      (NameError). */
  datatype PrepError = EmptyTac | NoClass(name: string)

  /** The size bin: small below 5, medium below 20, large from 20. */
  function SubtrBin(size: int): (b: nat)
    ensures b <= 2
  {
    if size < 5 then 0 else if size < 20 then 1 else 2
  }

  /** The bins are the three ranges split at 5 and 20. */
  lemma SubtrBinRanges(size: int)
    ensures SubtrBin(size) == 0 <==> size < 5
    ensures SubtrBin(size) == 1 <==> 5 <= size < 20
    ensures SubtrBin(size) == 2 <==> 20 <= size
  {
  }

  /** A larger subtree never gets a smaller bin. */
  lemma SubtrBinMono(a: int, b: int)
    requires a <= b
    ensures SubtrBin(a) <= SubtrBin(b)
  {
  }

  /** Some name of the class is a prefix of `name`. */
  predicate HasPrefix(cls: seq<string>, name: string) {
    exists i :: 0 <= i < |cls| && StartsWith(name, cls[i])
  }

  /** The last class holding a prefix of `name`. */
  function LastClass(classes: seq<seq<string>>, name: string): Option<nat> {
    if classes == [] then None
    else if HasPrefix(classes[|classes| - 1], name) then Some(|classes| - 1)
    else LastClass(classes[..|classes| - 1], name)
  }

  /** `LastClass` finds a class exactly when some class matches, and the
      one it finds matches while no later class does. */
  lemma {:induction false} LastClassSpec(classes: seq<seq<string>>, name: string)
    ensures LastClass(classes, name).Some? <==> exists k :: 0 <= k < |classes| && HasPrefix(classes[k], name)
    ensures LastClass(classes, name).Some? ==>
      LastClass(classes, name).value < |classes| &&
      HasPrefix(classes[LastClass(classes, name).value], name) &&
      forall k :: LastClass(classes, name).value < k < |classes| ==> !HasPrefix(classes[k], name)
  {
    if classes != [] {
      var pre := classes[..|classes| - 1];
      LastClassSpec(pre, name);
      if !HasPrefix(classes[|classes| - 1], name) {
        if exists k :: 0 <= k < |classes| && HasPrefix(classes[k], name) {
          var k :| 0 <= k < |classes| && HasPrefix(classes[k], name);
          assert pre[k] == classes[k];
        }
        if LastClass(pre, name).Some? {
          forall k | LastClass(pre, name).value < k < |classes|
            ensures !HasPrefix(classes[k], name)
          {
            if k < |pre| {
              assert pre[k] == classes[k];
            }
          }
        }
      }
    }
  }

  /** The two loops over the classes and their names, without a `break`:
      each match overwrites the bin, so the last matching class wins. */
  method TacBin(classes: seq<seq<string>>, name: string) returns (bin: Option<nat>)
    ensures bin == LastClass(classes, name)
  {
    bin := None;
    var k := 0;
    while k < |classes|
      invariant 0 <= k <= |classes|
      invariant bin == LastClass(classes[..k], name)
    {
      assert classes[..k + 1][..k] == classes[..k];
      var i := 0;
      while i < |classes[k]|
        invariant 0 <= i <= |classes[k]|
        invariant bin == if HasPrefix(classes[k][..i], name) then Some(k) else LastClass(classes[..k], name)
      {
        if StartsWith(name, classes[k][i]) {
          bin := Some(k);
        }
        assert classes[k][..i + 1][i] == classes[k][i];
        assert forall j :: 0 <= j < i ==> classes[k][..i + 1][j] == classes[k][..i][j];
        i := i + 1;
      }
      assert classes[k][..i] == classes[k];
      assert classes[..k + 1][k] == classes[k];
      k := k + 1;
    }
    assert classes[..k] == classes;
  }

  /** The point `PosEvalPt(gid, ctx, concl_idx, tac, tacst_size,
      subtr_size)` builds with the classes given, or its error. */
  function PointOf(classes: seq<seq<string>>, gid: int, ctx: seq<(string, int)>, conclIdx: int,
                   tac: seq<string>, tacstSize: int, subtrSize: int): Result<PosEvalPt, PrepError>
  {
    if tac == [] then Err(EmptyTac)
    else
      match LastClass(classes, tac[|tac| - 1])
      case None => Err(NoClass(tac[|tac| - 1]))
      case Some(k) => Ok(PosEvalPt(TacSt(gid, ctx, conclIdx, tac), tacstSize, subtrSize, SubtrBin(subtrSize), k))
  }

  /** A point fails on an empty tactic list, and on a last tactic no class
      matches; otherwise it stores its state as the tuple of the four
      arguments, keeps both sizes, bins the subtree size and bins the last
      tactic by the last class holding a prefix of its name. */
  lemma PointOfSpec(classes: seq<seq<string>>, gid: int, ctx: seq<(string, int)>, conclIdx: int,
                    tac: seq<string>, tacstSize: int, subtrSize: int)
    ensures PointOf(classes, gid, ctx, conclIdx, tac, tacstSize, subtrSize).Err? <==>
      tac == [] || forall k :: 0 <= k < |classes| ==> !HasPrefix(classes[k], tac[|tac| - 1])
    ensures tac == [] ==> PointOf(classes, gid, ctx, conclIdx, tac, tacstSize, subtrSize) == Err(EmptyTac)
    ensures PointOf(classes, gid, ctx, conclIdx, tac, tacstSize, subtrSize).Ok? ==>
      var pt := PointOf(classes, gid, ctx, conclIdx, tac, tacstSize, subtrSize).value;
      pt.tacst == TacSt(gid, ctx, conclIdx, tac) && pt.tacstSize == tacstSize && pt.subtrSize == subtrSize &&
      pt.subtrBin == SubtrBin(subtrSize) && pt.tacBin < |classes| &&
      HasPrefix(classes[pt.tacBin], tac[|tac| - 1]) &&
      forall k :: pt.tacBin < k < |classes| ==> !HasPrefix(classes[k], tac[|tac| - 1])
  {
    if tac != [] {
      LastClassSpec(classes, tac[|tac| - 1]);
    }
  }

  /** The constructor with the classes given. */
  method MkPosEvalPt(classes: seq<seq<string>>, gid: int, ctx: seq<(string, int)>, conclIdx: int,
                     tac: seq<string>, tacstSize: int, subtrSize: int)
    returns (r: Result<PosEvalPt, PrepError>)
    ensures r == PointOf(classes, gid, ctx, conclIdx, tac, tacstSize, subtrSize)
  {
    if tac == [] {
      return Err(EmptyTac);
    }
    var bin := TacBin(classes, tac[|tac| - 1]);
    if bin.None? {
      return Err(NoClass(tac[|tac| - 1]));
    }
    r := Ok(PosEvalPt(TacSt(gid, ctx, conclIdx, tac), tacstSize, subtrSize, SubtrBin(subtrSize), bin.value));
  }

  /** `PosEvalPt` over `TACTICS_EQUIV`. */
  method NewPosEvalPt(gid: int, ctx: seq<(string, int)>, conclIdx: int,
                      tac: seq<string>, tacstSize: int, subtrSize: int)
    returns (r: Result<PosEvalPt, PrepError>)
    ensures r == PointOf(Tactics.TacticsEquiv, gid, ctx, conclIdx, tac, tacstSize, subtrSize)
  {
    r := MkPosEvalPt(Tactics.TacticsEquiv, gid, ctx, conclIdx, tac, tacstSize, subtrSize);
  }

  // ---------------------------------------------------------------------
  // Subtree sizes

  /** Why `SizeSubTr.size` raises: the calls nest deeper than the
      interpreter allows (RecursionError), or `graph.successors` is asked
      for a node the graph does not hold (NetworkXError). */
  datatype SizeError<N> = RecursionLimit | NotInGraph(node: N)

  /** `SizeSubTr.size(node)` over a graph with nodes `ns` and edges `es`,
      with at most `fuel` nested calls: one for the node plus the sizes of
      its successors other than itself. */
  function Size<N(==)>(ns: seq<N>, es: seq<(N, N)>, node: N, fuel: nat): (r: Result<nat, SizeError<N>>)
    ensures r.Ok? ==> r.value >= 1 && node in ns
    decreases fuel, 0
  {
    if fuel == 0 then Err(RecursionLimit)
    else if node !in ns then Err(NotInGraph(node))
    else
      match ChildSizes(ns, es, node, SuccList(es, node), fuel - 1)
      case Err(e) => Err(e)
      case Ok(s) => Ok(1 + s)
  }

  /** The sizes of the children in `cs` that are not `node`, added up. */
  function ChildSizes<N(==)>(ns: seq<N>, es: seq<(N, N)>, node: N, cs: seq<N>, fuel: nat): Result<nat, SizeError<N>>
    decreases fuel, |cs| + 1
  {
    if cs == [] then Ok(0)
    else
      match ChildSizes(ns, es, node, cs[..|cs| - 1], fuel)
      case Err(e) => Err(e)
      case Ok(s) =>
        if cs[|cs| - 1] == node then Ok(s)
        else
          match Size(ns, es, cs[|cs| - 1], fuel)
          case Err(e) => Err(e)
          case Ok(t) => Ok(s + t)
  }

  /** A node the graph does not hold raises NetworkXError, unless the
      recursion limit is hit first. */
  lemma SizeAbsent<N>(ns: seq<N>, es: seq<(N, N)>, node: N, fuel: nat)
    requires node !in ns
    ensures Size(ns, es, node, fuel) == (if fuel == 0 then Err(RecursionLimit) else Err(NotInGraph(node)))
  {
  }

  /** Children that are all the node itself add nothing. */
  lemma {:induction false} ChildSizesSelf<N>(ns: seq<N>, es: seq<(N, N)>, node: N, cs: seq<N>, fuel: nat)
    requires forall i :: 0 <= i < |cs| ==> cs[i] == node
    ensures ChildSizes(ns, es, node, cs, fuel) == Ok(0)
  {
    if cs != [] {
      ChildSizesSelf(ns, es, node, cs[..|cs| - 1], fuel);
    }
  }

  /** A node of the graph with no successor but itself has size 1. */
  lemma SizeLeaf<N>(ns: seq<N>, es: seq<(N, N)>, node: N, fuel: nat)
    requires fuel >= 1 && node in ns
    requires forall c :: (node, c) in es ==> c == node
    ensures Size(ns, es, node, fuel) == Ok(1)
  {
    var cs := SuccList(es, node);
    forall i | 0 <= i < |cs|
      ensures cs[i] == node
    {
      SuccEdge(es, node, cs[i]);
    }
    ChildSizesSelf(ns, es, node, cs, fuel - 1);
  }

  /** More fuel never changes a size that was found. */
  lemma {:induction false} SizeFuel<N>(ns: seq<N>, es: seq<(N, N)>, node: N, fuel: nat)
    requires Size(ns, es, node, fuel).Ok?
    ensures Size(ns, es, node, fuel + 1) == Size(ns, es, node, fuel)
    decreases fuel, 0
  {
    ChildSizesFuel(ns, es, node, SuccList(es, node), fuel - 1);
  }

  lemma {:induction false} ChildSizesFuel<N>(ns: seq<N>, es: seq<(N, N)>, node: N, cs: seq<N>, fuel: nat)
    requires ChildSizes(ns, es, node, cs, fuel).Ok?
    ensures ChildSizes(ns, es, node, cs, fuel + 1) == ChildSizes(ns, es, node, cs, fuel)
    decreases fuel, |cs| + 1
  {
    if cs != [] {
      ChildSizesFuel(ns, es, node, cs[..|cs| - 1], fuel);
      if cs[|cs| - 1] != node {
        SizeFuel(ns, es, cs[|cs| - 1], fuel);
      }
    }
  }

  /** Once a prefix of the children fails, the whole list fails with the
      same error. */
  lemma {:induction false} ChildSizesStuck<N>(ns: seq<N>, es: seq<(N, N)>, node: N, cs: seq<N>, n: nat, fuel: nat)
    requires n <= |cs| && ChildSizes(ns, es, node, cs[..n], fuel).Err?
    ensures ChildSizes(ns, es, node, cs, fuel) == ChildSizes(ns, es, node, cs[..n], fuel)
  {
    if n < |cs| {
      var pre := cs[..|cs| - 1];
      assert pre[..n] == cs[..n];
      ChildSizesStuck(ns, es, node, pre, n, fuel);
    } else {
      assert cs[..n] == cs;
    }
  }

  /** The recursive method: `graph.successors(node)`, then a loop adding
      the size of every child but the node itself to 1. */
  method SubtreeSize<N(==)>(ns: seq<N>, es: seq<(N, N)>, node: N, fuel: nat) returns (r: Result<nat, SizeError<N>>)
    ensures r == Size(ns, es, node, fuel)
    decreases fuel
  {
    if fuel == 0 {
      return Err(RecursionLimit);
    }
    if node !in ns {
      return Err(NotInGraph(node));
    }
    var children := SuccList(es, node);
    var size := 1;
    var i := 0;
    while i < |children|
      invariant 0 <= i <= |children|
      invariant size >= 1 && ChildSizes(ns, es, node, children[..i], fuel - 1) == Ok(size - 1)
    {
      assert children[..i + 1][..i] == children[..i];
      assert children[..i + 1][i] == children[i];
      if children[i] != node {
        var s := SubtreeSize(ns, es, children[i], fuel - 1);
        if s.Err? {
          ChildSizesStuck(ns, es, node, children, i + 1, fuel - 1);
          return s;
        }
        size := size + s.value;
      }
      i := i + 1;
    }
    assert children[..i] == children;
    r := Ok(size);
  }

  // ---------------------------------------------------------------------
  // Tactic prediction

  /** `TacPredPt`: only the tactic state is kept. */
  datatype TacPredPt = TacPredPt(tacst: TacSt)

  /** `poseval_to_tacpred`: every (tree id, point) pair becomes a pair of
      the same tree id and a tactic-prediction point on the same state, in
      the same order. */
  method PosEvalToTacPred(dataset: seq<(int, PosEvalPt)>) returns (acc: seq<(int, TacPredPt)>)
    ensures |acc| == |dataset|
    ensures forall i :: 0 <= i < |acc| ==> acc[i].0 == dataset[i].0 && acc[i].1.tacst == dataset[i].1.tacst
  {
    acc := [];
    var i := 0;
    while i < |dataset|
      invariant 0 <= i <= |dataset|
      invariant |acc| == i
      invariant forall j :: 0 <= j < i ==> acc[j].0 == dataset[j].0 && acc[j].1.tacst == dataset[j].1.tacst
    {
      var (tactrid, pt) := dataset[i];
      acc := acc + [(tactrid, TacPredPt(pt.tacst))];
      i := i + 1;
    }
  }
}
