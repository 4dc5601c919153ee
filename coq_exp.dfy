/** The utilities of `coq/util.py` on decoded Coq expressions: the
    checker of the decoded representation (`ChkCoqExp`), and the
    memoised size (`SizeCoqExp`) and per-kind histogram (`HistCoqExp`).

    The decoder hands these classes a table from tags to expressions in
    which a subterm shared in the DAG is one object, found under its own
    tag. Here an expression is a tree value carrying its tag; sharing
    shows as equal subtrees filed under one tag (`Coherent`). Only the
    tags and the children of an expression matter to these classes, so
    the names, indices and universe levels the nodes also carry are not
    part of the model. */
module CoqExp {
  import opened Wrappers

  datatype Exp =
    | Rel(tag: int)
    | Var(tag: int)
    | Meta(tag: int)
    | Evar(tag: int, cs: seq<Exp>)
    | Sort(tag: int)
    | Cast(tag: int, c: Exp, ty: Exp)
    | Prod(tag: int, ty1: Exp, ty2: Exp)
    | Lambda(tag: int, ty: Exp, c: Exp)
    | LetIn(tag: int, c1: Exp, ty: Exp, c2: Exp)
    | App(tag: int, c: Exp, cs: seq<Exp>)
    | Const(tag: int)
    | Ind(tag: int)
    | Construct(tag: int)
    | Case(tag: int, ret: Exp, scrut: Exp, cases: seq<Exp>)
    | Fix(tag: int, tys: seq<Exp>, cs: seq<Exp>)
    | CoFix(tag: int, tys: seq<Exp>, cs: seq<Exp>)
    | Proj(tag: int, c: Exp)
    | Unsupported(tag: int)   // an object of no expression class

  /** Why checking, sizing or histogramming an expression raised. */
  datatype ExpError =
    | MissingKey(key: int)                 // a KeyError on the table
    | TagMismatch(tag: int, found: int)    // the table files another tag under `tag`
    | RecursiveMention(tag: int)           // a direct child carries its parent's tag
    | UnsupportedKind(tag: int)

  /** The leaf kinds: no subexpressions. */
  predicate IsLeaf(e: Exp) {
    e.Rel? || e.Var? || e.Meta? || e.Sort? || e.Const? || e.Ind? || e.Construct?
  }

  /** The direct subexpressions, in the order every branch of the three
      classes visits them (`c` then `ty` for a cast, the function then its
      arguments for an application, and so on). */
  function Children(e: Exp): seq<Exp> {
    match e
    case Evar(_, cs) => cs
    case Cast(_, c, ty) => [c, ty]
    case Prod(_, ty1, ty2) => [ty1, ty2]
    case Lambda(_, ty, c) => [ty, c]
    case LetIn(_, c1, ty, c2) => [c1, ty, c2]
    case App(_, c, cs) => [c] + cs
    case Case(_, ret, scrut, cases) => [ret, scrut] + cases
    case Fix(_, tys, cs) => tys + cs
    case CoFix(_, tys, cs) => tys + cs
    case Proj(_, c) => [c]
    case _ => []
  }

  lemma ChildrenBelow(e: Exp)
    ensures forall i :: 0 <= i < |Children(e)| ==> Children(e)[i] < e
  {
    match e
    case App(_, c, cs) =>
      assert forall i :: 1 <= i < |Children(e)| ==> Children(e)[i] == cs[i - 1];
    case Case(_, ret, scrut, cases) =>
      assert forall i :: 2 <= i < |Children(e)| ==> Children(e)[i] == cases[i - 2];
    case Fix(_, tys, cs) =>
      assert forall i :: |tys| <= i < |Children(e)| ==> Children(e)[i] == cs[i - |tys|];
    case CoFix(_, tys, cs) =>
      assert forall i :: |tys| <= i < |Children(e)| ==> Children(e)[i] == cs[i - |tys|];
    case _ =>
  }

  /** Leaves have no subexpressions. */
  lemma LeafChildren(e: Exp)
    requires IsLeaf(e) || e.Unsupported?
    ensures Children(e) == []
  {
  }

  // ---------------------------------------------------------------------
  // The size of an expression tree

  /** The number of nodes of the tree: a shared subterm counts once per
      occurrence. */
  function TreeSize(e: Exp): (n: nat)
    ensures n >= 1
  {
    match e
    case Evar(_, cs) => 1 + ForestSize(cs)
    case Cast(_, c, ty) => 1 + TreeSize(c) + TreeSize(ty)
    case Prod(_, ty1, ty2) => 1 + TreeSize(ty1) + TreeSize(ty2)
    case Lambda(_, ty, c) => 1 + TreeSize(ty) + TreeSize(c)
    case LetIn(_, c1, ty, c2) => 1 + TreeSize(c1) + TreeSize(ty) + TreeSize(c2)
    case App(_, c, cs) => 1 + TreeSize(c) + ForestSize(cs)
    case Case(_, ret, scrut, cases) => 1 + TreeSize(ret) + TreeSize(scrut) + ForestSize(cases)
    case Fix(_, tys, cs) => 1 + ForestSize(tys) + ForestSize(cs)
    case CoFix(_, tys, cs) => 1 + ForestSize(tys) + ForestSize(cs)
    case Proj(_, c) => 1 + TreeSize(c)
    case _ => 1
  }

  function ForestSize(cs: seq<Exp>): nat {
    if cs == [] then 0 else ForestSize(cs[..|cs| - 1]) + TreeSize(cs[|cs| - 1])
  }

  lemma {:induction false} ForestAppend(xs: seq<Exp>, ys: seq<Exp>)
    ensures ForestSize(xs + ys) == ForestSize(xs) + ForestSize(ys)
    decreases |ys|
  {
    if ys != [] {
      var zs := xs + ys;
      assert zs[..|zs| - 1] == xs + ys[..|ys| - 1];
      assert zs[|zs| - 1] == ys[|ys| - 1];
      ForestAppend(xs, ys[..|ys| - 1]);
    } else {
      assert xs + ys == xs;
    }
  }

  lemma ForestOne(a: Exp)
    ensures ForestSize([a]) == TreeSize(a)
  {
    assert [a][..0] == [];
  }

  lemma ForestTwo(a: Exp, b: Exp)
    ensures ForestSize([a, b]) == TreeSize(a) + TreeSize(b)
  {
    assert [a, b][..1] == [a];
    ForestOne(a);
  }

  lemma ForestThree(a: Exp, b: Exp, c: Exp)
    ensures ForestSize([a, b, c]) == TreeSize(a) + TreeSize(b) + TreeSize(c)
  {
    assert [a, b, c][..2] == [a, b];
    ForestTwo(a, b);
  }

  /** A node is one more than the sizes of its direct subexpressions. */
  lemma SizeOfChildren(e: Exp)
    ensures TreeSize(e) == 1 + ForestSize(Children(e))
  {
    match e
    case Cast(_, c, ty) => ForestTwo(c, ty);
    case Prod(_, ty1, ty2) => ForestTwo(ty1, ty2);
    case Lambda(_, ty, c) => ForestTwo(ty, c);
    case LetIn(_, c1, ty, c2) => ForestThree(c1, ty, c2);
    case App(_, c, cs) => ForestAppend([c], cs); ForestOne(c);
    case Case(_, ret, scrut, cases) => ForestAppend([ret, scrut], cases); ForestTwo(ret, scrut);
    case Fix(_, tys, cs) => ForestAppend(tys, cs);
    case CoFix(_, tys, cs) => ForestAppend(tys, cs);
    case Proj(_, c) => ForestOne(c);
    case _ =>
  }

  lemma {:induction false} ElemInForest(cs: seq<Exp>, i: nat)
    requires i < |cs|
    ensures TreeSize(cs[i]) <= ForestSize(cs)
    decreases |cs|
  {
    if i < |cs| - 1 {
      ElemInForest(cs[..|cs| - 1], i);
    }
  }

  /** A leaf has size 1; any other node is larger than each of its
      subexpressions. */
  lemma TreeSizeSpec(e: Exp)
    ensures IsLeaf(e) ==> TreeSize(e) == 1
    ensures forall i :: 0 <= i < |Children(e)| ==> TreeSize(Children(e)[i]) < TreeSize(e)
  {
    SizeOfChildren(e);
    forall i | 0 <= i < |Children(e)|
      ensures TreeSize(Children(e)[i]) < TreeSize(e)
    {
      ElemInForest(Children(e), i);
    }
  }

  /** No node of the tree is of an unsupported kind. */
  ghost predicate Supported(e: Exp)
    decreases e
  {
    !e.Unsupported? &&
    (ChildrenBelow(e);
     forall i :: 0 <= i < |Children(e)| ==> Supported(Children(e)[i]))
  }

  /** The decoder's sharing discipline: the tree and every subtree are
      filed in the table under their own tag. */
  ghost predicate Coherent(table: map<int, Exp>, e: Exp)
    decreases e
  {
    e.tag in table && table[e.tag] == e &&
    (ChildrenBelow(e);
     forall i :: 0 <= i < |Children(e)| ==> Coherent(table, Children(e)[i]))
  }

  // ---------------------------------------------------------------------
  // Memoised size (`SizeCoqExp.size` and `sizes`)

  type SizeMemo = map<int, nat>

  /** What `size(c)` returns from the memo table `memo`, and the memo
      table it leaves: a tag already in the table answers at once,
      otherwise the subexpressions are sized in order and the node's size
      is filed under its tag. Entries filed before an exception stay. */
  function SizeAt(memo: SizeMemo, e: Exp): (Result<nat, ExpError>, SizeMemo)
    decreases TreeSize(e), 0
  {
    if e.tag in memo then (Ok(memo[e.tag]), memo)
    else if e.Unsupported? then (Err(UnsupportedKind(e.tag)), memo)
    else
      SizeOfChildren(e);
      var (r, m) := SizesAt(memo, Children(e));
      if r.Err? then (r, m) else (Ok(1 + r.value), m[e.tag := 1 + r.value])
  }

  /** `sizes(cs)`: the expressions sized one after the other and summed. */
  function SizesAt(memo: SizeMemo, cs: seq<Exp>): (Result<nat, ExpError>, SizeMemo)
    decreases ForestSize(cs), 1
  {
    if cs == [] then (Ok(0), memo)
    else
      var (r, m) := SizesAt(memo, cs[..|cs| - 1]);
      if r.Err? then (r, m)
      else
        var (x, m2) := SizeAt(m, cs[|cs| - 1]);
        if x.Err? then (x, m2) else (Ok(r.value + x.value), m2)
  }

  /** Entries already in a memo table are never changed. */
  ghost predicate Extends<V>(m2: map<int, V>, m1: map<int, V>) {
    forall t :: t in m1 ==> t in m2 && m2[t] == m1[t]
  }

  /** The memo table only grows, and after a successful `size(c)` it holds
      the result under `c.tag`, so that asking again returns it unchanged
      without touching the table. */
  lemma {:induction false} SizeAtMemoises(memo: SizeMemo, e: Exp)
    ensures Extends(SizeAt(memo, e).1, memo)
    ensures SizeAt(memo, e).0.Ok? ==>
      var (r, m) := SizeAt(memo, e);
      e.tag in m && m[e.tag] == r.value && SizeAt(m, e) == (r, m)
    decreases TreeSize(e), 0
  {
    if e.tag !in memo && !e.Unsupported? {
      SizeOfChildren(e);
      SizesAtMemoises(memo, Children(e));
    }
  }

  lemma {:induction false} SizesAtMemoises(memo: SizeMemo, cs: seq<Exp>)
    ensures Extends(SizesAt(memo, cs).1, memo)
    decreases ForestSize(cs), 1
  {
    if cs != [] {
      SizesAtMemoises(memo, cs[..|cs| - 1]);
      var m := SizesAt(memo, cs[..|cs| - 1]).1;
      SizeAtMemoises(m, cs[|cs| - 1]);
    }
  }

  /** A memo table whose entries are the true sizes of the table's
      expressions. */
  ghost predicate SizesTrue(table: map<int, Exp>, memo: SizeMemo) {
    forall t :: t in memo ==> t in table && memo[t] == TreeSize(table[t])
  }

  /** On a coherent, supported expression the memoised size is the tree
      size, and the memo table stays true: reusing a shared subterm's
      entry gives what recomputing it would. */
  lemma {:induction false} SizeAtCorrect(table: map<int, Exp>, memo: SizeMemo, e: Exp)
    requires Coherent(table, e) && Supported(e) && SizesTrue(table, memo)
    ensures SizeAt(memo, e).0 == Ok(TreeSize(e)) && SizesTrue(table, SizeAt(memo, e).1)
    decreases TreeSize(e), 0
  {
    if e.tag !in memo {
      SizeOfChildren(e);
      SizesAtCorrect(table, memo, Children(e));
    }
  }

  lemma {:induction false} SizesAtCorrect(table: map<int, Exp>, memo: SizeMemo, cs: seq<Exp>)
    requires forall i :: 0 <= i < |cs| ==> Coherent(table, cs[i]) && Supported(cs[i])
    requires SizesTrue(table, memo)
    ensures SizesAt(memo, cs).0 == Ok(ForestSize(cs)) && SizesTrue(table, SizesAt(memo, cs).1)
    decreases ForestSize(cs), 1
  {
    if cs != [] {
      SizesAtCorrect(table, memo, cs[..|cs| - 1]);
      var m := SizesAt(memo, cs[..|cs| - 1]).1;
      SizeAtCorrect(table, m, cs[|cs| - 1]);
    }
  }

  /** Sizing reaches an unsupported node that is not in the memo table
      and raises. */
  lemma SizeAtUnsupported(memo: SizeMemo, t: int)
    requires t !in memo
    ensures SizeAt(memo, Unsupported(t)) == (Err(UnsupportedKind(t)), memo)
  {
  }

  // ---------------------------------------------------------------------
  // Histograms over the expression kinds

  /** `COQEXP`: the kinds a histogram counts, in slot order. */
  const CoqExpKinds: seq<string> := [
    "RelExp", "VarExp", "MetaExp", "EvarExp", "SortExp", "CastExp",
    "ProdExp", "LambdaExp", "LetInExp", "AppExp", "ConstExp",
    "IndExp", "ConstructExp", "CaseExp", "FixExp", "CoFixExp", "ProjExp"]

  const NumKinds: nat := 17

  /** The slot of a node's kind; an unsupported node has none. */
  function KindOf(e: Exp): (k: nat)
    ensures k <= NumKinds && (k == NumKinds <==> e.Unsupported?)
  {
    match e
    case Rel(_) => 0
    case Var(_) => 1
    case Meta(_) => 2
    case Evar(_, _) => 3
    case Sort(_) => 4
    case Cast(_, _, _) => 5
    case Prod(_, _, _) => 6
    case Lambda(_, _, _) => 7
    case LetIn(_, _, _, _) => 8
    case App(_, _, _) => 9
    case Const(_) => 10
    case Ind(_) => 11
    case Construct(_) => 12
    case Case(_, _, _, _) => 13
    case Fix(_, _, _) => 14
    case CoFix(_, _, _) => 15
    case Proj(_, _) => 16
    case Unsupported(_) => 17
  }

  /** A histogram is read as a count per kind slot; slots past its end
      count zero. */
  function At(h: seq<nat>, i: nat): nat {
    if i < |h| then h[i] else 0
  }

  /** `COQEXP_HIST.delta(kind)`: one count in the kind's slot. */
  function Delta(k: nat): (h: seq<nat>)
    ensures |h| == NumKinds
  {
    seq(NumKinds, i => if i == k then 1 else 0)
  }

  /** `COQEXP_HIST.merge`: the counts added slot by slot. */
  function Merge(a: seq<nat>, b: seq<nat>): (h: seq<nat>)
    ensures |h| == NumKinds
  {
    seq(NumKinds, (i: int) requires 0 <= i => At(a, i) + At(b, i))
  }

  /** The histogram with no counts. */
  function Empty(): (h: seq<nat>)
    ensures |h| == NumKinds
  {
    seq(NumKinds, i => 0)
  }

  /** The histogram of the tree: each node counted in its kind's slot, a
      shared subterm once per occurrence. */
  function TreeHist(e: Exp): (h: seq<nat>)
    ensures |h| == NumKinds
    decreases TreeSize(e), 0
  {
    SizeOfChildren(e);
    Merge(ForestHist(Children(e)), Delta(KindOf(e)))
  }

  function ForestHist(cs: seq<Exp>): (h: seq<nat>)
    ensures |h| == NumKinds
    decreases ForestSize(cs), 1
  {
    if cs == [] then Empty() else Merge(ForestHist(cs[..|cs| - 1]), TreeHist(cs[|cs| - 1]))
  }

  function SlotSum(h: seq<nat>, n: nat): nat {
    if n == 0 then 0 else SlotSum(h, n - 1) + At(h, n - 1)
  }

  /** The total count of a histogram (over the kind slots). */
  function Total(h: seq<nat>): nat {
    SlotSum(h, NumKinds)
  }

  lemma {:induction false} SlotSumMerge(a: seq<nat>, b: seq<nat>, n: nat)
    requires n <= NumKinds
    ensures SlotSum(Merge(a, b), n) == SlotSum(a, n) + SlotSum(b, n)
  {
    if n > 0 {
      SlotSumMerge(a, b, n - 1);
    }
  }

  lemma {:induction false} SlotSumDelta(k: nat, n: nat)
    requires n <= NumKinds
    ensures SlotSum(Delta(k), n) == if k < n then 1 else 0
  {
    if n > 0 {
      SlotSumDelta(k, n - 1);
    }
  }

  lemma {:induction false} SlotSumEmpty(n: nat)
    requires n <= NumKinds
    ensures SlotSum(Empty(), n) == 0
  {
    if n > 0 {
      SlotSumEmpty(n - 1);
    }
  }

  /** The histogram of a supported tree counts every node exactly once:
      its total is the tree size. */
  lemma {:induction false} HistTotalIsSize(e: Exp)
    requires Supported(e)
    ensures Total(TreeHist(e)) == TreeSize(e)
    decreases TreeSize(e), 0
  {
    SizeOfChildren(e);
    ChildrenBelow(e);
    ForestHistTotal(Children(e));
    SlotSumMerge(ForestHist(Children(e)), Delta(KindOf(e)), NumKinds);
    SlotSumDelta(KindOf(e), NumKinds);
  }

  lemma {:induction false} ForestHistTotal(cs: seq<Exp>)
    requires forall i :: 0 <= i < |cs| ==> Supported(cs[i])
    ensures Total(ForestHist(cs)) == ForestSize(cs)
    decreases ForestSize(cs), 1
  {
    if cs == [] {
      SlotSumEmpty(NumKinds);
    } else {
      ForestHistTotal(cs[..|cs| - 1]);
      HistTotalIsSize(cs[|cs| - 1]);
      SlotSumMerge(ForestHist(cs[..|cs| - 1]), TreeHist(cs[|cs| - 1]), NumKinds);
    }
  }

  /** A leaf's histogram is the delta of its kind. */
  lemma LeafHist(e: Exp)
    requires IsLeaf(e)
    ensures TreeHist(e) == Delta(KindOf(e))
  {
    assert Children(e) == [];
    assert forall i :: 0 <= i < NumKinds ==> TreeHist(e)[i] == Delta(KindOf(e))[i];
  }

  type HistMemo = map<int, seq<nat>>

  /** What `hist(c)` returns from the memo table and the table it leaves:
      the subexpressions' histograms merged, in order, then merged with
      the node's own delta and filed under its tag. */
  function HistAt(memo: HistMemo, e: Exp): (Result<seq<nat>, ExpError>, HistMemo)
    decreases TreeSize(e), 0
  {
    if e.tag in memo then (Ok(memo[e.tag]), memo)
    else if e.Unsupported? then (Err(UnsupportedKind(e.tag)), memo)
    else
      SizeOfChildren(e);
      var (r, m) := HistsAt(memo, Children(e));
      if r.Err? then (r, m)
      else
        var h := Merge(r.value, Delta(KindOf(e)));
        (Ok(h), m[e.tag := h])
  }

  /** `hists(cs)`: the expressions' histograms, one after the other,
      merged. */
  function HistsAt(memo: HistMemo, cs: seq<Exp>): (Result<seq<nat>, ExpError>, HistMemo)
    decreases ForestSize(cs), 1
  {
    if cs == [] then (Ok(Empty()), memo)
    else
      var (r, m) := HistsAt(memo, cs[..|cs| - 1]);
      if r.Err? then (r, m)
      else
        var (x, m2) := HistAt(m, cs[|cs| - 1]);
        if x.Err? then (x, m2) else (Ok(Merge(r.value, x.value)), m2)
  }

  lemma {:induction false} HistAtMemoises(memo: HistMemo, e: Exp)
    ensures Extends(HistAt(memo, e).1, memo)
    ensures HistAt(memo, e).0.Ok? ==>
      var (r, m) := HistAt(memo, e);
      e.tag in m && m[e.tag] == r.value && HistAt(m, e) == (r, m)
    decreases TreeSize(e), 0
  {
    if e.tag !in memo && !e.Unsupported? {
      SizeOfChildren(e);
      HistsAtMemoises(memo, Children(e));
    }
  }

  lemma {:induction false} HistsAtMemoises(memo: HistMemo, cs: seq<Exp>)
    ensures Extends(HistsAt(memo, cs).1, memo)
    decreases ForestSize(cs), 1
  {
    if cs != [] {
      HistsAtMemoises(memo, cs[..|cs| - 1]);
      var m := HistsAt(memo, cs[..|cs| - 1]).1;
      HistAtMemoises(m, cs[|cs| - 1]);
    }
  }

  ghost predicate HistsTrue(table: map<int, Exp>, memo: HistMemo) {
    forall t :: t in memo ==> t in table && memo[t] == TreeHist(table[t])
  }

  /** On a coherent, supported expression the memoised histogram is the
      tree's histogram. */
  lemma {:induction false} HistAtCorrect(table: map<int, Exp>, memo: HistMemo, e: Exp)
    requires Coherent(table, e) && Supported(e) && HistsTrue(table, memo)
    ensures HistAt(memo, e).0 == Ok(TreeHist(e)) && HistsTrue(table, HistAt(memo, e).1)
    decreases TreeSize(e), 0
  {
    if e.tag !in memo {
      SizeOfChildren(e);
      HistsAtCorrect(table, memo, Children(e));
    }
  }

  lemma {:induction false} HistsAtCorrect(table: map<int, Exp>, memo: HistMemo, cs: seq<Exp>)
    requires forall i :: 0 <= i < |cs| ==> Coherent(table, cs[i]) && Supported(cs[i])
    requires HistsTrue(table, memo)
    ensures HistsAt(memo, cs).0 == Ok(ForestHist(cs)) && HistsTrue(table, HistsAt(memo, cs).1)
    decreases ForestSize(cs), 1
  {
    if cs != [] {
      HistsAtCorrect(table, memo, cs[..|cs| - 1]);
      var m := HistsAt(memo, cs[..|cs| - 1]).1;
      HistAtCorrect(table, m, cs[|cs| - 1]);
    }
  }

  // ---------------------------------------------------------------------
  // Checking the decoded representation (`ChkCoqExp`)

  type Usage = map<int, nat>

  function Uses(u: Usage, t: int): nat {
    if t in u then u[t] else 0
  }

  /** `_usage(c)`: one more visit of `c.tag`. */
  function Bump(u: Usage, t: int): Usage {
    u[t := Uses(u, t) + 1]
  }

  /** Some expression of `cs` carries `tag` (what `_occurs_asts` raises
      on). */
  predicate OccursIn(tag: int, cs: seq<Exp>) {
    exists i :: 0 <= i < |cs| && cs[i].tag == tag
  }

  /** One visit of `_chk_ast` without looking below the node: the table
      lookup (before the visit is counted), the count, the tag check, the
      kind check and the occurs check on the direct children. */
  function VisitAt(table: map<int, Exp>, u: Usage, e: Exp): (Result<(), ExpError>, Usage) {
    if e.tag !in table then (Err(MissingKey(e.tag)), u)
    else if table[e.tag].tag != e.tag then (Err(TagMismatch(e.tag, table[e.tag].tag)), Bump(u, e.tag))
    else if e.Unsupported? then (Err(UnsupportedKind(e.tag)), Bump(u, e.tag))
    else if OccursIn(e.tag, Children(e)) then (Err(RecursiveMention(e.tag)), Bump(u, e.tag))
    else (Ok(()), Bump(u, e.tag))
  }

  /** `_chk_ast(f_chk, c)`: with `f_chk` the direct children are visited
      too, each with the flag off, so checking reaches one level down. */
  function ChkAt(table: map<int, Exp>, u: Usage, fChk: bool, e: Exp): (Result<(), ExpError>, Usage) {
    var (r, u1) := VisitAt(table, u, e);
    if r.Err? || !fChk then (r, u1) else ChksAt(table, u1, Children(e))
  }

  /** `_chk_asts(_, cs)`: each expression visited with the flag off. */
  function ChksAt(table: map<int, Exp>, u: Usage, cs: seq<Exp>): (Result<(), ExpError>, Usage) {
    if cs == [] then (Ok(()), u)
    else
      var (r, u1) := ChksAt(table, u, cs[..|cs| - 1]);
      if r.Err? then (r, u1) else VisitAt(table, u1, cs[|cs| - 1])
  }

  /** What one visit checks of a node. */
  ghost predicate VisitOk(table: map<int, Exp>, e: Exp) {
    e.tag in table && table[e.tag].tag == e.tag && !e.Unsupported? &&
    !OccursIn(e.tag, Children(e))
  }

  /** The counts after visiting the tags `ts` in turn. */
  function BumpAll(u: Usage, ts: seq<int>): Usage {
    if ts == [] then u else Bump(BumpAll(u, ts[..|ts| - 1]), ts[|ts| - 1])
  }

  function Tags(cs: seq<Exp>): (ts: seq<int>)
    ensures |ts| == |cs| && forall i :: 0 <= i < |cs| ==> ts[i] == cs[i].tag
  {
    if cs == [] then [] else Tags(cs[..|cs| - 1]) + [cs[|cs| - 1].tag]
  }

  lemma VisitAtSpec(table: map<int, Exp>, u: Usage, e: Exp)
    ensures VisitAt(table, u, e).0.Ok? <==> VisitOk(table, e)
    ensures VisitAt(table, u, e).0.Ok? ==> VisitAt(table, u, e).1 == Bump(u, e.tag)
  {
  }

  lemma {:induction false} ChksAtSpec(table: map<int, Exp>, u: Usage, cs: seq<Exp>)
    ensures ChksAt(table, u, cs).0.Ok? <==> forall i :: 0 <= i < |cs| ==> VisitOk(table, cs[i])
  {
    if cs != [] {
      var pre := cs[..|cs| - 1];
      ChksAtSpec(table, u, pre);
      var (r1, u1) := ChksAt(table, u, pre);
      VisitAtSpec(table, u1, cs[|cs| - 1]);
      assert forall i :: 0 <= i < |pre| ==> pre[i] == cs[i];
      if r1.Err? {
        var i :| 0 <= i < |pre| && !VisitOk(table, pre[i]);
        assert !VisitOk(table, cs[i]);
      }
    }
  }

  lemma {:induction false} ChksAtUsage(table: map<int, Exp>, u: Usage, cs: seq<Exp>)
    requires ChksAt(table, u, cs).0.Ok?
    ensures ChksAt(table, u, cs).1 == BumpAll(u, Tags(cs))
  {
    if cs != [] {
      var pre := cs[..|cs| - 1];
      var (r1, u1) := ChksAt(table, u, pre);
      ChksAtUsage(table, u, pre);
      VisitAtSpec(table, u1, cs[|cs| - 1]);
      assert Tags(cs)[..|cs| - 1] == Tags(pre);
    }
  }

  /** A check passes exactly when the node, and with `f_chk` each direct
      child, has a table entry of its own tag, a known kind and no direct
      child of its own tag; a passing check counts one visit of the node
      and, with `f_chk`, one of each direct child. */
  lemma ChkAtSpec(table: map<int, Exp>, u: Usage, fChk: bool, e: Exp)
    ensures ChkAt(table, u, fChk, e).0.Ok? <==>
      VisitOk(table, e) && (fChk ==> forall i :: 0 <= i < |Children(e)| ==> VisitOk(table, Children(e)[i]))
    ensures ChkAt(table, u, fChk, e).0.Ok? ==>
      ChkAt(table, u, fChk, e).1 == BumpAll(Bump(u, e.tag), if fChk then Tags(Children(e)) else [])
  {
    VisitAtSpec(table, u, e);
    if VisitOk(table, e) && fChk {
      ChksAtSpec(table, Bump(u, e.tag), Children(e));
      if ChksAt(table, Bump(u, e.tag), Children(e)).0.Ok? {
        ChksAtUsage(table, Bump(u, e.tag), Children(e));
      }
    }
  }

  /** A table entry filed under another tag is reported after the visit
      is counted. */
  lemma ChkAtMismatch(table: map<int, Exp>, u: Usage, fChk: bool, e: Exp)
    requires e.tag in table && table[e.tag].tag != e.tag
    ensures ChkAt(table, u, fChk, e) == (Err(TagMismatch(e.tag, table[e.tag].tag)), Bump(u, e.tag))
  {
  }

  /** Every check of the whole table (`chk_concr_ast`), in the table's
      iteration order `keys`. */
  function ChkAllAt(table: map<int, Exp>, u: Usage, keys: seq<int>): (Result<(), ExpError>, Usage)
    requires forall i :: 0 <= i < |keys| ==> keys[i] in table
  {
    if keys == [] then (Ok(()), u)
    else
      var (r, u1) := ChkAllAt(table, u, keys[..|keys| - 1]);
      if r.Err? then (r, u1) else ChkAt(table, u1, true, table[keys[|keys| - 1]])
  }

  /** An entry passes `chk_ast`. */
  ghost predicate EntryOk(table: map<int, Exp>, e: Exp) {
    VisitOk(table, e) && forall i :: 0 <= i < |Children(e)| ==> VisitOk(table, Children(e)[i])
  }

  lemma ChkEntryOk(table: map<int, Exp>, u: Usage, e: Exp)
    ensures ChkAt(table, u, true, e).0.Ok? <==> EntryOk(table, e)
  {
    ChkAtSpec(table, u, true, e);
  }

  /** The whole table passes exactly when every entry does. */
  lemma {:induction false} ChkAllAtSpec(table: map<int, Exp>, u: Usage, keys: seq<int>)
    requires forall i :: 0 <= i < |keys| ==> keys[i] in table
    ensures ChkAllAt(table, u, keys).0.Ok? <==> forall i :: 0 <= i < |keys| ==> EntryOk(table, table[keys[i]])
  {
    if keys != [] {
      var pre := keys[..|keys| - 1];
      var last := table[keys[|keys| - 1]];
      ChkAllAtSpec(table, u, pre);
      var (r1, u1) := ChkAllAt(table, u, pre);
      ChkEntryOk(table, u1, last);
      assert forall i :: 0 <= i < |pre| ==> pre[i] == keys[i];
      if r1.Err? {
        var i :| 0 <= i < |pre| && !EntryOk(table, table[pre[i]]);
        assert !EntryOk(table, table[keys[i]]);
      }
    }
  }

  /** A dictionary's iteration order: every key once. */
  ghost predicate IsOrder(table: map<int, Exp>, keys: seq<int>) {
    (forall i :: 0 <= i < |keys| ==> keys[i] in table) &&
    (forall k :: k in table ==> k in keys) &&
    (forall i, j :: 0 <= i < j < |keys| ==> keys[i] != keys[j])
  }

  class ChkCoqExp {
    const concrAst: map<int, Exp>
    const keys: seq<int>
    var usage: Usage

    constructor (table: map<int, Exp>, order: seq<int>)
      requires IsOrder(table, order)
      ensures concrAst == table && keys == order && usage == map[]
    {
      concrAst := table;
      keys := order;
      usage := map[];
    }

    /** `_occurs_asts(tag, cs)` */
    method OccursAsts(tag: int, cs: seq<Exp>) returns (r: Result<(), ExpError>)
      ensures r == if OccursIn(tag, cs) then Err(RecursiveMention(tag)) else Ok(())
    {
      var i := 0;
      while i < |cs|
        invariant 0 <= i <= |cs|
        invariant forall j :: 0 <= j < i ==> cs[j].tag != tag
      {
        if cs[i].tag == tag {
          return Err(RecursiveMention(tag));
        }
        i := i + 1;
      }
      return Ok(());
    }

    /** `_chk_ast(f_chk, c)` */
    method ChkAst(fChk: bool, e: Exp) returns (r: Result<(), ExpError>)
      modifies this
      ensures (r, usage) == ChkAt(concrAst, old(usage), fChk, e)
      decreases if fChk then 1 else 0, 0
    {
      if e.tag !in concrAst {
        return Err(MissingKey(e.tag));
      }
      var found := concrAst[e.tag];
      usage := Bump(usage, e.tag);
      if found.tag != e.tag {
        return Err(TagMismatch(e.tag, found.tag));
      }
      if e.Unsupported? {
        return Err(UnsupportedKind(e.tag));
      }
      var cs := Children(e);
      r := OccursAsts(e.tag, cs);
      if r.Err? || !fChk {
        return;
      }
      r := ChkAsts(false, cs);
    }

    /** `_chk_asts(f_chk, cs)`: the flag is ignored and every expression is
        checked with it off. */
    method ChkAsts(fChk: bool, cs: seq<Exp>) returns (r: Result<(), ExpError>)
      modifies this
      ensures (r, usage) == ChksAt(concrAst, old(usage), cs)
      decreases 0, |cs|
    {
      var i := 0;
      while i < |cs|
        invariant 0 <= i <= |cs|
        invariant (Ok(()), usage) == ChksAt(concrAst, old(usage), cs[..i])
      {
        assert cs[..i + 1][..i] == cs[..i];
        r := ChkAst(false, cs[i]);
        if r.Err? {
          ChksAtStays(concrAst, old(usage), cs, i + 1);
          return;
        }
        i := i + 1;
      }
      assert cs[..i] == cs;
      return Ok(());
    }

    /** `chk_concr_ast`: every entry, in the table's order. */
    method ChkConcrAst() returns (r: Result<(), ExpError>)
      requires IsOrder(concrAst, keys)
      modifies this
      ensures (r, usage) == ChkAllAt(concrAst, old(usage), keys)
    {
      var i := 0;
      while i < |keys|
        invariant 0 <= i <= |keys|
        invariant (Ok(()), usage) == ChkAllAt(concrAst, old(usage), keys[..i])
      {
        assert keys[..i + 1][..i] == keys[..i];
        r := ChkAst(true, concrAst[keys[i]]);
        if r.Err? {
          ChkAllAtStays(concrAst, old(usage), keys, i + 1);
          return;
        }
        i := i + 1;
      }
      assert keys[..i] == keys;
      return Ok(());
    }
  }

  /** Once a check of a prefix has raised, the rest is not looked at. */
  lemma {:induction false} ChksAtStays(table: map<int, Exp>, u: Usage, cs: seq<Exp>, n: nat)
    requires n <= |cs| && ChksAt(table, u, cs[..n]).0.Err?
    ensures ChksAt(table, u, cs) == ChksAt(table, u, cs[..n])
    decreases |cs| - n
  {
    if n < |cs| {
      assert cs[..n + 1][..n] == cs[..n];
      ChksAtStays(table, u, cs, n + 1);
    } else {
      assert cs[..n] == cs;
    }
  }

  lemma {:induction false} ChkAllAtStays(table: map<int, Exp>, u: Usage, keys: seq<int>, n: nat)
    requires forall i :: 0 <= i < |keys| ==> keys[i] in table
    requires n <= |keys| && ChkAllAt(table, u, keys[..n]).0.Err?
    ensures ChkAllAt(table, u, keys) == ChkAllAt(table, u, keys[..n])
    decreases |keys| - n
  {
    if n < |keys| {
      assert keys[..n + 1][..n] == keys[..n];
      ChkAllAtStays(table, u, keys, n + 1);
    } else {
      assert keys[..n] == keys;
    }
  }

  lemma {:induction false} SizesAtStays(memo: SizeMemo, cs: seq<Exp>, n: nat)
    requires n <= |cs| && SizesAt(memo, cs[..n]).0.Err?
    ensures SizesAt(memo, cs) == SizesAt(memo, cs[..n])
    decreases |cs| - n
  {
    if n < |cs| {
      assert cs[..n + 1][..n] == cs[..n];
      SizesAtStays(memo, cs, n + 1);
    } else {
      assert cs[..n] == cs;
    }
  }

  lemma {:induction false} HistsAtStays(memo: HistMemo, cs: seq<Exp>, n: nat)
    requires n <= |cs| && HistsAt(memo, cs[..n]).0.Err?
    ensures HistsAt(memo, cs) == HistsAt(memo, cs[..n])
    decreases |cs| - n
  {
    if n < |cs| {
      assert cs[..n + 1][..n] == cs[..n];
      HistsAtStays(memo, cs, n + 1);
    } else {
      assert cs[..n] == cs;
    }
  }

  /** `SizeCoqExp`: sizes with a memo table keyed by tag. */
  class SizeCoqExp {
    const concrAst: map<int, Exp>
    var sizeAst: SizeMemo

    constructor (table: map<int, Exp>)
      ensures concrAst == table && sizeAst == map[]
    {
      concrAst := table;
      sizeAst := map[];
    }

    /** `size(c)` */
    method Size(e: Exp) returns (r: Result<nat, ExpError>)
      modifies this
      ensures (r, sizeAst) == SizeAt(old(sizeAst), e)
      decreases TreeSize(e), 0
    {
      if e.tag in sizeAst {
        return Ok(sizeAst[e.tag]);
      }
      if e.Unsupported? {
        return Err(UnsupportedKind(e.tag));
      }
      SizeOfChildren(e);
      var s := Sizes(Children(e));
      if s.Err? {
        return s;
      }
      sizeAst := sizeAst[e.tag := 1 + s.value];
      return Ok(1 + s.value);
    }

    /** `sizes(cs)` */
    method Sizes(cs: seq<Exp>) returns (r: Result<nat, ExpError>)
      modifies this
      ensures (r, sizeAst) == SizesAt(old(sizeAst), cs)
      decreases ForestSize(cs), 1
    {
      var total := 0;
      var i := 0;
      while i < |cs|
        invariant 0 <= i <= |cs|
        invariant (Ok(total), sizeAst) == SizesAt(old(sizeAst), cs[..i])
      {
        assert cs[..i + 1][..i] == cs[..i];
        ElemInForest(cs, i);
        var x := Size(cs[i]);
        if x.Err? {
          SizesAtStays(old(sizeAst), cs, i + 1);
          return x;
        }
        total := total + x.value;
        i := i + 1;
      }
      assert cs[..i] == cs;
      return Ok(total);
    }

    /** `decode_size(key)` */
    method DecodeSize(key: int) returns (r: Result<nat, ExpError>)
      modifies this
      ensures key !in concrAst ==> r == Err(MissingKey(key)) && sizeAst == old(sizeAst)
      ensures key in concrAst ==> (r, sizeAst) == SizeAt(old(sizeAst), concrAst[key])
    {
      if key !in concrAst {
        return Err(MissingKey(key));
      }
      r := Size(concrAst[key]);
    }
  }

  /** Building a `SizeCoqExp` first checks the whole table and raises with
      the checker's error. */
  method NewSizeCoqExp(table: map<int, Exp>, order: seq<int>) returns (r: Result<SizeCoqExp, ExpError>)
    requires IsOrder(table, order)
    ensures r.Ok? <==> ChkAllAt(table, map[], order).0.Ok?
    ensures r.Err? ==> r == Err(ChkAllAt(table, map[], order).0.error)
    ensures r.Ok? ==> fresh(r.value) && r.value.concrAst == table && r.value.sizeAst == map[]
  {
    var chk := new ChkCoqExp(table, order);
    var ok := chk.ChkConcrAst();
    if ok.Err? {
      return Err(ok.error);
    }
    var sce := new SizeCoqExp(table);
    return Ok(sce);
  }

  /** `HistCoqExp`: per-kind histograms with a memo table keyed by tag. */
  class HistCoqExp {
    const concrAst: map<int, Exp>
    var histAst: HistMemo

    constructor (table: map<int, Exp>)
      ensures concrAst == table && histAst == map[]
    {
      concrAst := table;
      histAst := map[];
    }

    /** `hist(c)` */
    method Hist(e: Exp) returns (r: Result<seq<nat>, ExpError>)
      modifies this
      ensures (r, histAst) == HistAt(old(histAst), e)
      decreases TreeSize(e), 0
    {
      if e.tag in histAst {
        return Ok(histAst[e.tag]);
      }
      if e.Unsupported? {
        return Err(UnsupportedKind(e.tag));
      }
      SizeOfChildren(e);
      var hs := Hists(Children(e));
      if hs.Err? {
        return hs;
      }
      var h := Merge(hs.value, Delta(KindOf(e)));
      histAst := histAst[e.tag := h];
      return Ok(h);
    }

    /** `hists(cs)` */
    method Hists(cs: seq<Exp>) returns (r: Result<seq<nat>, ExpError>)
      modifies this
      ensures (r, histAst) == HistsAt(old(histAst), cs)
      decreases ForestSize(cs), 1
    {
      var acc := Empty();
      var i := 0;
      while i < |cs|
        invariant 0 <= i <= |cs|
        invariant (Ok(acc), histAst) == HistsAt(old(histAst), cs[..i])
      {
        assert cs[..i + 1][..i] == cs[..i];
        ElemInForest(cs, i);
        var x := Hist(cs[i]);
        if x.Err? {
          HistsAtStays(old(histAst), cs, i + 1);
          return x;
        }
        acc := Merge(acc, x.value);
        i := i + 1;
      }
      assert cs[..i] == cs;
      return Ok(acc);
    }

    /** `decode_hist(key)` */
    method DecodeHist(key: int) returns (r: Result<seq<nat>, ExpError>)
      modifies this
      ensures key !in concrAst ==> r == Err(MissingKey(key)) && histAst == old(histAst)
      ensures key in concrAst ==> (r, histAst) == HistAt(old(histAst), concrAst[key])
    {
      if key !in concrAst {
        return Err(MissingKey(key));
      }
      r := Hist(concrAst[key]);
    }
  }

  /** Building a `HistCoqExp` first checks the whole table. */
  method NewHistCoqExp(table: map<int, Exp>, order: seq<int>) returns (r: Result<HistCoqExp, ExpError>)
    requires IsOrder(table, order)
    ensures r.Ok? <==> ChkAllAt(table, map[], order).0.Ok?
    ensures r.Err? ==> r == Err(ChkAllAt(table, map[], order).0.error)
    ensures r.Ok? ==> fresh(r.value) && r.value.concrAst == table && r.value.histAst == map[]
  {
    var chk := new ChkCoqExp(table, order);
    var ok := chk.ChkConcrAst();
    if ok.Err? {
      return Err(ok.error);
    }
    var hce := new HistCoqExp(table);
    return Ok(hce);
  }
}
