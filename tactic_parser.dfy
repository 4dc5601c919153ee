/** The tactic-tree reconstruction of `utils/parse_tacst.py`: a
    recursive-descent parser that turns the declarations of one lemma, in
    trace order, into a forest of tactic nodes. Every tactic shape of the
    trace has its own routine; a single-lookahead iterator over the
    declarations decides how many declarations a routine takes, and
    nested shapes parse a sub-forest that stops at a named closer. */
module TacticParser {
  import opened Wrappers
  import opened Text
  import DeclLexer

  // ---------------------------------------------------------------------
  // Declarations and tactic nodes

  /** The header fields of a `TacStDecl` the parser reads: whether it was
      taken before or after the tactic ran, the tactic, the goal id and
      the number of goals. */
  datatype Decl = Decl(mode: DeclLexer.DeclMode, tac: string, gid: int, ngs: int)

  /** The tactic nodes. `uid` is the node's id; `terminal` marks a node
      that closes its goal. */
  datatype Tac =
    | FixedTac(uid: nat, name: string, alias: (Decl, Decl), core: (Decl, Decl), terminal: bool)
    | VaryTac(uid: nat, name: string, alias: (Decl, Decl), bfCore: Decl, afCores: seq<Decl>, terminal: bool)
    | FixedNestedTac(uid: nat, name: string, alias: (Decl, Decl), core: (Decl, Decl), body: seq<Tac>)
    | VaryNestedTac(uid: nat, name: string, bfAlias: Decl, bfCore: Decl,
                    afCores: seq<Decl>, afAliases: seq<Decl>, body: seq<Tac>, terminal: bool)
    | NestTermTac(uid: nat, aliasName: string, coreName: string, nAlias: Decl, nCore: Decl, extra: seq<Decl>)
    | SsrtclseqTac(uid: nat, core: (Decl, Decl), body: seq<Tac>)
    | SsrtcldoTac(uid: nat, doCore: Decl)
    | GenericTac(uid: nat, before: Decl, afters: seq<Decl>, terminal: bool)

  /** `has_subtac`: the nested shapes carry a sub-forest. */
  predicate HasSubtac(t: Tac) {
    t.FixedNestedTac? || t.VaryNestedTac? || t.SsrtclseqTac?
  }

  /** The sub-forest of a node; empty for the flat shapes. */
  function Body(t: Tac): seq<Tac> {
    match t
    case FixedNestedTac(_, _, _, _, body) => body
    case VaryNestedTac(_, _, _, _, _, _, body, _) => body
    case SsrtclseqTac(_, _, body) => body
    case _ => []
  }

  /** Only a node with sub-tactics has a non-empty body. */
  lemma HasSubtacBody(t: Tac)
    ensures !HasSubtac(t) ==> Body(t) == []
    ensures HasSubtac(t) ==> Body(t) == t.body
  {
  }

  function Gids(ds: seq<Decl>): (gs: seq<int>)
    ensures |gs| == |ds| && forall i :: 0 <= i < |ds| ==> gs[i] == ds[i].gid
  {
    if ds == [] then [] else Gids(ds[..|ds| - 1]) + [ds[|ds| - 1].gid]
  }

  /** `in_edge` as written: `VaryTac` reads an attribute `before` it does
      not have, so the call fails (`None`). */
  function InEdgeAsWritten(t: Tac): Option<int> {
    match t
    case FixedTac(_, _, alias, _, _) => Some(alias.0.gid)
    case VaryTac(_, _, _, _, _, _) => None
    case FixedNestedTac(_, _, alias, _, _) => Some(alias.0.gid)
    case VaryNestedTac(_, _, bfAlias, _, _, _, _, _) => Some(bfAlias.gid)
    case NestTermTac(_, _, _, alias, _, _) => Some(alias.gid)
    case SsrtclseqTac(_, core, _) => Some(core.0.gid)
    case SsrtcldoTac(_, core) => Some(core.gid)
    case GenericTac(_, before, _, _) => Some(before.gid)
  }

  /** `in_edge`, with `VaryTac` reading its first alias declaration as
      `FixedTac` does. */
  function InEdge(t: Tac): int {
    match t
    case FixedTac(_, _, alias, _, _) => alias.0.gid
    case VaryTac(_, _, alias, _, _, _) => alias.0.gid
    case FixedNestedTac(_, _, alias, _, _) => alias.0.gid
    case VaryNestedTac(_, _, bfAlias, _, _, _, _, _) => bfAlias.gid
    case NestTermTac(_, _, _, alias, _, _) => alias.gid
    case SsrtclseqTac(_, core, _) => core.0.gid
    case SsrtcldoTac(_, core) => core.gid
    case GenericTac(_, before, _, _) => before.gid
  }

  /** `out_edges`: the goal ids the node leads to. */
  function OutEdges(t: Tac): seq<int> {
    match t
    case FixedTac(_, _, _, core, _) => [core.1.gid]
    case VaryTac(_, _, _, _, afCores, _) => Gids(afCores)
    case FixedNestedTac(_, _, _, core, _) => [core.1.gid]
    case VaryNestedTac(_, _, _, _, _, afAliases, _, _) => Gids(afAliases)
    case NestTermTac(_, _, _, _, core, _) => [core.gid]
    case SsrtclseqTac(_, core, _) => [core.1.gid]
    case SsrtcldoTac(_, core) => [core.gid]
    case GenericTac(_, _, afters, _) => Gids(afters)
  }

  /** The declarations a node holds, its sub-forest included. */
  function TacDecls(t: Tac): seq<Decl> {
    match t
    case FixedTac(_, _, alias, core, _) => [alias.0, core.0, core.1, alias.1]
    case VaryTac(_, _, alias, bfCore, afCores, _) => [alias.0, alias.1, bfCore] + afCores
    case FixedNestedTac(_, _, alias, core, body) => [alias.0, core.0] + ForestDecls(body) + [core.1, alias.1]
    case VaryNestedTac(_, _, bfAlias, bfCore, afCores, afAliases, body, _) =>
      [bfAlias, bfCore] + ForestDecls(body) + afCores + afAliases
    case NestTermTac(_, _, _, alias, core, extra) => [alias, core] + extra
    case SsrtclseqTac(_, core, body) => [core.0] + ForestDecls(body) + [core.1]
    case SsrtcldoTac(_, core) => [core]
    case GenericTac(_, before, afters, _) => [before] + afters
  }

  function ForestDecls(ts: seq<Tac>): seq<Decl> {
    if ts == [] then [] else ForestDecls(ts[..|ts| - 1]) + TacDecls(ts[|ts| - 1])
  }

  /** The node ids of a node and its sub-forest in post-order: the body
      first, then the node. */
  function TacUids(t: Tac): seq<nat> {
    match t
    case FixedNestedTac(uid, _, _, _, body) => ForestUids(body) + [uid]
    case VaryNestedTac(uid, _, _, _, _, _, body, _) => ForestUids(body) + [uid]
    case SsrtclseqTac(uid, _, body) => ForestUids(body) + [uid]
    case _ => [t.uid]
  }

  function ForestUids(ts: seq<Tac>): seq<nat> {
    if ts == [] then [] else ForestUids(ts[..|ts| - 1]) + TacUids(ts[|ts| - 1])
  }

  /** The integers from `a` up to, not including, `b`. */
  function Range(a: nat, b: nat): (r: seq<nat>)
    requires a <= b
    ensures |r| == b - a && forall i :: 0 <= i < |r| ==> r[i] == a + i
  {
    seq(b - a, i => a + i)
  }

  // ---------------------------------------------------------------------
  // The dispatch table

  /** The routine a declaration is handed to. */
  datatype Rule =
    | FixedStk(name: string, terminal: bool)
    | FixedSeq(name: string, terminal: bool)
    | VarySeq(name: string)
    | NestTerm(aliasName: string, coreName: string)
    | FixedStkNested(name: string)
    | VaryStkNested(name: string)
    | Ssrtclseq
    | Ssrtcldo
    | Generic

  /** What `parse_tactree` does with the declaration it peeks at: parse it
      with a routine, return at a closer, or raise. */
  datatype Action = Parse(rule: Rule) | Close | NoMatch

  /** The ordered prefix-dispatch table: the first rule whose mode and
      prefix match wins. */
  function Dispatch(d: Decl): Action {
    var bf := d.mode == DeclLexer.BEFORE;
    var af := d.mode == DeclLexer.AFTER;
    var t := d.tac;
    if bf && StartsWith(t, "intro") && !StartsWith(t, "intros") then Parse(FixedStk("Intro", false))
    else if bf && StartsWith(t, "case") then Parse(FixedStk("Case", false))
    else if bf && StartsWith(t, "trivial") then Parse(FixedStk("trivial", true))
    else if bf && StartsWith(t, "exact") then Parse(FixedStk("Exact", true))
    else if bf && StartsWith(t, "assumption") then Parse(FixedSeq("Assumption", true))
    else if bf && StartsWith(t, "reflexivity") then Parse(FixedSeq("Reflexivity", true))
    else if bf && StartsWith(t, "split") then Parse(VarySeq("Split"))
    else if bf && StartsWith(t, "discriminate") then Parse(NestTerm("discriminate", "<extratactics::discriminate@0>"))
    else if bf && StartsWith(t, "move (ssrmovearg) (ssrclauses)") then Parse(FixedStk("Ssrmove", false))
    else if bf && StartsWith(t, "by (ssrhintarg)") then Parse(FixedStkNested("Ssrby"))
    else if af && StartsWith(t, "<ssreflect_plugin::ssrtclby@0>") then Close
    else if bf && StartsWith(t, "exact (ssrexactarg)") then Parse(FixedStkNested("Ssrexact"))
    else if bf && StartsWith(t, "<ssreflect_plugin::ssrexact@0>") then Close
    else if bf && StartsWith(t, "have (ssrhavefwdwbinders)") then Parse(FixedStkNested("Ssrhave"))
    else if af && StartsWith(t, "<ssreflect_plugin::ssrhave@0>") then Close
    else if bf && StartsWith(t, "apply (ssrapplyarg)") then Parse(VaryStkNested("Ssrapply"))
    else if af && StartsWith(t, "<ssreflect_plugin::ssrapply@0>") then Close
    else if bf && StartsWith(t, "rewrite (ssrrwargs) (ssrclauses)") then Parse(VaryStkNested("Ssrrewrite"))
    else if af && StartsWith(t, "<ssreflect_plugin::ssrrewrite@0>") then Close
    else if bf && StartsWith(t, "<ssreflect_plugin::ssrtclseq@0>") then Parse(Ssrtclseq)
    else if af && StartsWith(t, "<ssreflect_plugin::ssrtclseq@0>") then Close
    else if bf && StartsWith(t, "<ssreflect_plugin::ssrtcldo@0>") then Parse(Ssrtcldo)
    else if bf then Parse(Generic)
    else NoMatch
  }

  /** The declarations that end a nested body: the after-declarations of
      the nested SSReflect tactics, and the before-declaration of
      `ssrexact@0`. */
  predicate IsCloser(d: Decl) {
    (d.mode == DeclLexer.AFTER &&
     (StartsWith(d.tac, "<ssreflect_plugin::ssrtclby@0>") ||
      StartsWith(d.tac, "<ssreflect_plugin::ssrhave@0>") ||
      StartsWith(d.tac, "<ssreflect_plugin::ssrapply@0>") ||
      StartsWith(d.tac, "<ssreflect_plugin::ssrrewrite@0>") ||
      StartsWith(d.tac, "<ssreflect_plugin::ssrtclseq@0>"))) ||
    (d.mode == DeclLexer.BEFORE && StartsWith(d.tac, "<ssreflect_plugin::ssrexact@0>"))
  }

  /** A prefix of a prefix is a prefix. */
  lemma PrefixOfPrefix(t: string, p: string, q: string)
    requires StartsWith(t, p + q)
    ensures StartsWith(t, p)
  {
    assert t[..|p|] == (p + q)[..|p|];
  }

  /** Two prefixes of one string agree on their first character. */
  lemma PrefixHead(t: string, p: string, q: string)
    requires StartsWith(t, p) && StartsWith(t, q) && |p| > 0 && |q| > 0
    ensures p[0] == q[0]
  {
    assert p[0] == t[..|p|][0] && q[0] == t[..|q|][0];
  }

  /** A name starting with `<` matches none of the rules for plain tactic
      names. */
  lemma AngleNotPlain(t: string)
    requires |t| > 0 && t[0] == '<'
    ensures !StartsWith(t, "intro") && !StartsWith(t, "case") && !StartsWith(t, "trivial") &&
      !StartsWith(t, "exact") && !StartsWith(t, "assumption") && !StartsWith(t, "reflexivity") &&
      !StartsWith(t, "split") && !StartsWith(t, "discriminate") &&
      !StartsWith(t, "move (ssrmovearg) (ssrclauses)") && !StartsWith(t, "by (ssrhintarg)") &&
      !StartsWith(t, "exact (ssrexactarg)") && !StartsWith(t, "have (ssrhavefwdwbinders)") &&
      !StartsWith(t, "apply (ssrapplyarg)") && !StartsWith(t, "rewrite (ssrrwargs) (ssrclauses)")
  {
    assert t[..1] == "<";
  }

  /** A closer is exactly a declaration the table returns at: no earlier
      rule catches the before-declaration of `ssrexact@0`. */
  lemma DispatchCloser(d: Decl)
    ensures Dispatch(d) == Close <==> IsCloser(d)
  {
    if d.mode == DeclLexer.BEFORE && StartsWith(d.tac, "<ssreflect_plugin::ssrexact@0>") {
      AngleNotPlain(d.tac);
    }
  }

  /** Every before-declaration is handled, `parse_generic` being the last
      resort; a declaration that is not a before-declaration is either a
      closer or a parse error. */
  lemma DispatchModes(d: Decl)
    ensures d.mode == DeclLexer.BEFORE ==> !Dispatch(d).NoMatch?
    ensures d.mode != DeclLexer.BEFORE ==> (Dispatch(d).Close? || Dispatch(d).NoMatch?)
    ensures d.mode != DeclLexer.BEFORE && !IsCloser(d) ==> Dispatch(d) == NoMatch
  {
    DispatchCloser(d);
  }

  /** `intro` takes the names that start with "intro" but not with
      "intros"; an `intros` falls through to the later rules. */
  lemma DispatchIntro(d: Decl)
    ensures Dispatch(d) == Parse(FixedStk("Intro", false)) <==>
      (d.mode == DeclLexer.BEFORE && StartsWith(d.tac, "intro") && !StartsWith(d.tac, "intros"))
  {
  }

  /** The rule for "exact (ssrexactarg)" can never fire: "exact" comes
      first in the table and is a prefix of it. */
  lemma SsrexactShadowed(d: Decl)
    ensures Dispatch(d) != Parse(FixedStkNested("Ssrexact"))
  {
    if StartsWith(d.tac, "exact (ssrexactarg)") {
      PrefixOfPrefix(d.tac, "exact", " (ssrexactarg)");
    }
  }

  // ---------------------------------------------------------------------
  // The routines as functions of the iterator position and uid counter

  /** `next(it)` on an exhausted iterator (`StopIteration`), or a
      declaration no rule accepts (`NameError`). */
  datatype ParseError = Exhausted | NoRule(decl: Decl)

  /** What a routine returns, with the iterator position and the uid
      counter it leaves behind. */
  datatype Run<T> = Run(r: Result<T, ParseError>, pos: nat, uid: nat)

  /** A routine that ran out of declarations: every one is consumed. */
  function Exhaust<T>(ds: seq<Decl>, uid: nat): Run<T> {
    Run(Err(Exhausted), |ds|, uid)
  }

  /** The length of a run of after-declarations, `range(0, ngs - base +
      1)`: empty when the count is negative. */
  function RunLength(ngs: int, base: int): nat {
    if ngs - base + 1 < 0 then 0 else ngs - base + 1
  }

  /** `parse_fixed_stk`: before(name), before(name@0), after(name@0),
      after(name). */
  function FixedStkAt(ds: seq<Decl>, pos: nat, uid: nat, name: string, terminal: bool): (r: Run<Tac>)
    requires pos <= |ds|
    ensures pos <= r.pos <= |ds| && (r.r.Ok? ==> r.pos > pos)
  {
    if pos + 4 <= |ds| then
      Run(Ok(FixedTac(uid, name, (ds[pos], ds[pos + 3]), (ds[pos + 1], ds[pos + 2]), terminal)), pos + 4, uid + 1)
    else Exhaust(ds, uid)
  }

  /** `parse_fixed_seq`: before(name), after(name), before(name@0),
      after(name@0). */
  function FixedSeqAt(ds: seq<Decl>, pos: nat, uid: nat, name: string, terminal: bool): (r: Run<Tac>)
    requires pos <= |ds|
    ensures pos <= r.pos <= |ds| && (r.r.Ok? ==> r.pos > pos)
  {
    if pos + 4 <= |ds| then
      Run(Ok(FixedTac(uid, name, (ds[pos], ds[pos + 1]), (ds[pos + 2], ds[pos + 3]), terminal)), pos + 4, uid + 1)
    else Exhaust(ds, uid)
  }

  /** The tail of `parse_vary_seq` and `parse_generic` after position `p`:
      nothing when the iterator is exhausted, the one solved declaration
      when the next one has no goals, or a run whose length is the
      difference in goals plus one. */
  function TailAt(ds: seq<Decl>, p: nat, base: int): (r: Option<(seq<Decl>, bool)>)
    requires p <= |ds|
    ensures r.Some? ==> p + |r.value.0| <= |ds| && ds[p..p + |r.value.0|] == r.value.0
  {
    if p == |ds| then Some(([], true))
    else if ds[p].ngs == 0 then Some(([ds[p]], true))
    else
      var n := RunLength(ds[p].ngs, base);
      if p + n <= |ds| then Some((ds[p..p + n], false)) else None
  }

  /** `parse_vary_seq`: three declarations, then the tail measured against
      the goals of before(name0). */
  function VarySeqAt(ds: seq<Decl>, pos: nat, uid: nat, name: string): (r: Run<Tac>)
    requires pos <= |ds|
    ensures pos <= r.pos <= |ds| && (r.r.Ok? ==> r.pos > pos)
  {
    if pos + 3 > |ds| then Exhaust(ds, uid)
    else
      match TailAt(ds, pos + 3, ds[pos + 2].ngs)
      case None => Exhaust(ds, uid)
      case Some((acc, terminal)) =>
        Run(Ok(VaryTac(uid, name, (ds[pos], ds[pos + 1]), ds[pos + 2], acc, terminal)), pos + 3 + |acc|, uid + 1)
  }

  /** `parse_nestterm`: two declarations, then the core's after if the
      next name starts with the core name, and only then the alias's
      after if the name after it starts with the alias name. */
  function NestTermAt(ds: seq<Decl>, pos: nat, uid: nat, aliasName: string, coreName: string): (r: Run<Tac>)
    requires pos <= |ds|
    ensures pos <= r.pos <= |ds| && (r.r.Ok? ==> r.pos > pos)
  {
    if pos + 2 > |ds| then Exhaust(ds, uid)
    else
      var p := pos + 2;
      var extra :=
        if p < |ds| && StartsWith(ds[p].tac, coreName) then
          if p + 1 < |ds| && StartsWith(ds[p + 1].tac, aliasName) then [ds[p], ds[p + 1]] else [ds[p]]
        else [];
      Run(Ok(NestTermTac(uid, aliasName, coreName, ds[pos], ds[pos + 1], extra)), p + |extra|, uid + 1)
  }

  /** `parse_ssrtcldo`: the one declaration. */
  function SsrtcldoAt(ds: seq<Decl>, pos: nat, uid: nat): (r: Run<Tac>)
    requires pos <= |ds|
    ensures pos <= r.pos <= |ds| && (r.r.Ok? ==> r.pos > pos)
  {
    if pos < |ds| then Run(Ok(SsrtcldoTac(uid, ds[pos])), pos + 1, uid + 1) else Exhaust(ds, uid)
  }

  /** `parse_generic`: one before-declaration; no afters when the iterator
      is exhausted or the next declaration is of another tactic, otherwise
      the tail measured against the before-declaration's goals. */
  function GenericAt(ds: seq<Decl>, pos: nat, uid: nat): (r: Run<Tac>)
    requires pos <= |ds|
    ensures pos <= r.pos <= |ds| && (r.r.Ok? ==> r.pos > pos)
  {
    if pos == |ds| then Exhaust(ds, uid)
    else if pos + 1 == |ds| || ds[pos].tac != ds[pos + 1].tac then
      Run(Ok(GenericTac(uid, ds[pos], [], true)), pos + 1, uid + 1)
    else
      match TailAt(ds, pos + 1, ds[pos].ngs)
      case None => Exhaust(ds, uid)
      case Some((acc, terminal)) => Run(Ok(GenericTac(uid, ds[pos], acc, terminal)), pos + 1 + |acc|, uid + 1)
  }

  /** `parse_fixed_stk_nested`: before(name), before(name@0), the body,
      after(name@0), after(name); the node's uid is drawn after the body's. */
  function FixedStkNestedAt(ds: seq<Decl>, dispatch: Decl -> Action, pos: nat, uid: nat, name: string): (r: Run<Tac>)
    requires pos <= |ds|
    ensures pos <= r.pos <= |ds| && (r.r.Ok? ==> r.pos > pos)
    decreases |ds| - pos, 0
  {
    if pos + 2 > |ds| then Exhaust(ds, uid)
    else
      var b := TreeLoop(ds, dispatch, pos + 2, uid, []);
      if b.r.Err? then Run(Err(b.r.error), b.pos, b.uid)
      else if b.pos + 2 <= |ds| then
        Run(Ok(FixedNestedTac(b.uid, name, (ds[pos], ds[b.pos + 1]), (ds[pos + 1], ds[b.pos]), b.r.value)),
            b.pos + 2, b.uid + 1)
      else Exhaust(ds, b.uid)
  }

  /** The tail of `parse_vary_stk_nested` at `p`, measured against the goals
      of before(name@0) for the core afters and of before(name) for the
      alias afters, both with the goals of the one declaration peeked. */
  function NestedTailAt(ds: seq<Decl>, p: nat, bf: Decl, bf0: Decl): (r: Option<(seq<Decl>, seq<Decl>, bool)>)
    requires p <= |ds|
    ensures r.Some? ==>
      (p + |r.value.0| + |r.value.1| <= |ds| &&
       ds[p..p + |r.value.0|] == r.value.0 && ds[p + |r.value.0|..p + |r.value.0| + |r.value.1|] == r.value.1)
  {
    if p == |ds| then Some(([], [], true))
    else if ds[p].ngs == 0 then
      if p + 2 <= |ds| then Some(([ds[p]], [ds[p + 1]], true)) else None
    else
      var n0 := RunLength(ds[p].ngs, bf0.ngs);
      var n1 := RunLength(ds[p].ngs, bf.ngs);
      if p + n0 + n1 <= |ds| then Some((ds[p..p + n0], ds[p + n0..p + n0 + n1], false)) else None
  }

  /** `parse_vary_stk_nested`: before(name), before(name@0), the body, the
      core afters and then the alias afters. */
  function VaryStkNestedAt(ds: seq<Decl>, dispatch: Decl -> Action, pos: nat, uid: nat, name: string): (r: Run<Tac>)
    requires pos <= |ds|
    ensures pos <= r.pos <= |ds| && (r.r.Ok? ==> r.pos > pos)
    decreases |ds| - pos, 0
  {
    if pos + 2 > |ds| then Exhaust(ds, uid)
    else
      var b := TreeLoop(ds, dispatch, pos + 2, uid, []);
      if b.r.Err? then Run(Err(b.r.error), b.pos, b.uid)
      else
        match NestedTailAt(ds, b.pos, ds[pos], ds[pos + 1])
        case None => Exhaust(ds, b.uid)
        case Some((acc0, acc, terminal)) =>
          Run(Ok(VaryNestedTac(b.uid, name, ds[pos], ds[pos + 1], acc0, acc, b.r.value, terminal)),
              b.pos + |acc0| + |acc|, b.uid + 1)
  }

  /** `parse_ssrtclseq`: before(ssrtclseq@0), the body, after(ssrtclseq@0). */
  function SsrtclseqAt(ds: seq<Decl>, dispatch: Decl -> Action, pos: nat, uid: nat): (r: Run<Tac>)
    requires pos <= |ds|
    ensures pos <= r.pos <= |ds| && (r.r.Ok? ==> r.pos > pos)
    decreases |ds| - pos, 0
  {
    if pos + 1 > |ds| then Exhaust(ds, uid)
    else
      var b := TreeLoop(ds, dispatch, pos + 1, uid, []);
      if b.r.Err? then Run(Err(b.r.error), b.pos, b.uid)
      else if b.pos < |ds| then
        Run(Ok(SsrtclseqTac(b.uid, (ds[pos], ds[b.pos]), b.r.value)), b.pos + 1, b.uid + 1)
      else Exhaust(ds, b.uid)
  }

  /** The routine a rule names. */
  function RuleAt(ds: seq<Decl>, dispatch: Decl -> Action, pos: nat, uid: nat, rule: Rule): (r: Run<Tac>)
    requires pos <= |ds|
    ensures pos <= r.pos <= |ds| && (r.r.Ok? ==> r.pos > pos)
    decreases |ds| - pos, 1
  {
    match rule
    case FixedStk(name, terminal) => FixedStkAt(ds, pos, uid, name, terminal)
    case FixedSeq(name, terminal) => FixedSeqAt(ds, pos, uid, name, terminal)
    case VarySeq(name) => VarySeqAt(ds, pos, uid, name)
    case NestTerm(aliasName, coreName) => NestTermAt(ds, pos, uid, aliasName, coreName)
    case FixedStkNested(name) => FixedStkNestedAt(ds, dispatch, pos, uid, name)
    case VaryStkNested(name) => VaryStkNestedAt(ds, dispatch, pos, uid, name)
    case Ssrtclseq => SsrtclseqAt(ds, dispatch, pos, uid)
    case Ssrtcldo => SsrtcldoAt(ds, pos, uid)
    case Generic => GenericAt(ds, pos, uid)
  }

  /** The loop of `parse_tactree` from position `pos` with the nodes `acc`
      parsed so far: it returns when the iterator is exhausted, and
      otherwise does what the table says about the next declaration. */
  function TreeLoop(ds: seq<Decl>, dispatch: Decl -> Action, pos: nat, uid: nat, acc: seq<Tac>): (r: Run<seq<Tac>>)
    requires pos <= |ds|
    ensures pos <= r.pos <= |ds|
    decreases |ds| - pos, 3
  {
    if pos == |ds| then Run(Ok(acc), pos, uid) else TreeStep(ds, dispatch, pos, uid, acc, dispatch(ds[pos]))
  }

  /** One turn of the loop on the action for the declaration at `pos`:
      return at a closer, raise at a declaration no rule takes, or parse a
      node and go on. */
  function TreeStep(ds: seq<Decl>, dispatch: Decl -> Action, pos: nat, uid: nat, acc: seq<Tac>, a: Action): (r: Run<seq<Tac>>)
    requires pos < |ds|
    ensures pos <= r.pos <= |ds|
    decreases |ds| - pos, 2
  {
    match a
    case Close => Run(Ok(acc), pos, uid)
    case NoMatch => Run(Err(NoRule(ds[pos])), pos, uid)
    case Parse(rule) =>
      var s := RuleAt(ds, dispatch, pos, uid, rule);
      if s.r.Err? then Run(Err(s.r.error), s.pos, s.uid)
      else TreeLoop(ds, dispatch, s.pos, s.uid, acc + [s.r.value])
  }

  /** `TacTreeParser(lemma).parse_tactree()` on the lemma's declarations. */
  function ParseLemma(ds: seq<Decl>): Run<seq<Tac>> {
    TreeLoop(ds, Dispatch, 0, 0, [])
  }

  // ---------------------------------------------------------------------
  // What each routine consumes

  /** `parse_fixed_stk` and `parse_fixed_seq` take exactly four
      declarations, or fail having run out; the stacked form pairs the
      alias as (1st, 4th) and the core as (2nd, 3rd), the sequential form
      the alias as (1st, 2nd) and the core as (3rd, 4th). */
  lemma FixedShapes(ds: seq<Decl>, pos: nat, uid: nat, name: string, terminal: bool)
    requires pos <= |ds|
    ensures FixedStkAt(ds, pos, uid, name, terminal).r.Ok? <==> pos + 4 <= |ds|
    ensures FixedSeqAt(ds, pos, uid, name, terminal).r.Ok? <==> pos + 4 <= |ds|
    ensures pos + 4 <= |ds| ==>
      var stk := FixedStkAt(ds, pos, uid, name, terminal);
      var sq := FixedSeqAt(ds, pos, uid, name, terminal);
      stk.pos == pos + 4 && sq.pos == pos + 4 && stk.uid == uid + 1 && sq.uid == uid + 1 &&
      stk.r.value.alias == (ds[pos], ds[pos + 3]) && stk.r.value.core == (ds[pos + 1], ds[pos + 2]) &&
      sq.r.value.alias == (ds[pos], ds[pos + 1]) && sq.r.value.core == (ds[pos + 2], ds[pos + 3])
    ensures pos + 4 > |ds| ==>
      FixedStkAt(ds, pos, uid, name, terminal) == Exhaust(ds, uid) &&
      FixedSeqAt(ds, pos, uid, name, terminal) == Exhaust(ds, uid)
  {
  }

  /** The tail of `parse_vary_seq` and `parse_generic`: how many afters
      it takes, and when the node is terminal. */
  lemma TailCases(ds: seq<Decl>, p: nat, base: int)
    requires p <= |ds|
    ensures p == |ds| ==> TailAt(ds, p, base) == Some(([], true))
    ensures p < |ds| && ds[p].ngs == 0 ==> TailAt(ds, p, base) == Some(([ds[p]], true))
    ensures p < |ds| && ds[p].ngs != 0 ==>
      var n := if ds[p].ngs - base + 1 < 0 then 0 else ds[p].ngs - base + 1;
      (p + n <= |ds| ==> TailAt(ds, p, base) == Some((ds[p..p + n], false))) &&
      (p + n > |ds| ==> TailAt(ds, p, base) == None)
  {
  }

  /** `parse_vary_seq` takes three declarations and then its tail, measured
      against before(name0); it fails only when it runs out. */
  lemma VarySeqShape(ds: seq<Decl>, pos: nat, uid: nat, name: string)
    requires pos <= |ds|
    ensures var r := VarySeqAt(ds, pos, uid, name);
      (r.r.Ok? <==> pos + 3 <= |ds| && TailAt(ds, pos + 3, ds[pos + 2].ngs).Some?) &&
      (r.r.Ok? ==>
        var tail := TailAt(ds, pos + 3, ds[pos + 2].ngs).value;
        r.r.value == VaryTac(uid, name, (ds[pos], ds[pos + 1]), ds[pos + 2], tail.0, tail.1) &&
        r.pos == pos + 3 + |tail.0| && r.uid == uid + 1) &&
      (r.r.Err? ==> r == Exhaust(ds, uid))
  {
  }

  /** `parse_generic` takes one before-declaration; it has no afters and is
      terminal when the iterator is exhausted or the next declaration is
      of another tactic, and otherwise takes the tail measured against the
      before-declaration. */
  lemma GenericShape(ds: seq<Decl>, pos: nat, uid: nat)
    requires pos < |ds|
    ensures var r := GenericAt(ds, pos, uid);
      ((pos + 1 == |ds| || ds[pos].tac != ds[pos + 1].tac) ==>
        r == Run(Ok(GenericTac(uid, ds[pos], [], true)), pos + 1, uid + 1)) &&
      ((pos + 1 < |ds| && ds[pos].tac == ds[pos + 1].tac) ==>
        (r.r.Ok? <==> TailAt(ds, pos + 1, ds[pos].ngs).Some?) &&
        (r.r.Ok? ==>
          var tail := TailAt(ds, pos + 1, ds[pos].ngs).value;
          r.r.value == GenericTac(uid, ds[pos], tail.0, tail.1) && r.pos == pos + 1 + |tail.0|))
  {
  }

  /** `parse_nestterm` takes two declarations and at most two extras: the
      core's after when its name starts with the core name, and the
      alias's after only after the core's and when its name starts with
      the alias name. */
  lemma NestTermShape(ds: seq<Decl>, pos: nat, uid: nat, aliasName: string, coreName: string)
    requires pos + 2 <= |ds|
    ensures var r := NestTermAt(ds, pos, uid, aliasName, coreName);
      r.r.Ok? && r.uid == uid + 1 &&
      var extra := r.r.value.extra;
      |extra| <= 2 && r.pos == pos + 2 + |extra| && ds[pos + 2..r.pos] == extra &&
      r.r.value.nAlias == ds[pos] && r.r.value.nCore == ds[pos + 1] &&
      (|extra| >= 1 ==> StartsWith(extra[0].tac, coreName)) &&
      (|extra| == 2 ==> StartsWith(extra[1].tac, aliasName)) &&
      (pos + 2 < |ds| && StartsWith(ds[pos + 2].tac, coreName) ==> |extra| >= 1) &&
      (pos + 3 < |ds| && StartsWith(ds[pos + 2].tac, coreName) && StartsWith(ds[pos + 3].tac, aliasName) ==>
        |extra| == 2)
  {
  }

  /** The tail of `parse_vary_stk_nested`: how many core and alias
      afters it takes, and when the node is terminal. */
  lemma NestedTailCases(ds: seq<Decl>, p: nat, bf: Decl, bf0: Decl)
    requires p <= |ds|
    ensures p == |ds| ==> NestedTailAt(ds, p, bf, bf0) == Some(([], [], true))
    ensures p < |ds| && ds[p].ngs == 0 ==>
      ((p + 2 <= |ds| ==> NestedTailAt(ds, p, bf, bf0) == Some(([ds[p]], [ds[p + 1]], true))) &&
       (p + 2 > |ds| ==> NestedTailAt(ds, p, bf, bf0) == None))
    ensures p < |ds| && ds[p].ngs != 0 ==>
      var n0 := if ds[p].ngs - bf0.ngs + 1 < 0 then 0 else ds[p].ngs - bf0.ngs + 1;
      var n1 := if ds[p].ngs - bf.ngs + 1 < 0 then 0 else ds[p].ngs - bf.ngs + 1;
      (p + n0 + n1 <= |ds| ==> NestedTailAt(ds, p, bf, bf0) == Some((ds[p..p + n0], ds[p + n0..p + n0 + n1], false))) &&
      (p + n0 + n1 > |ds| ==> NestedTailAt(ds, p, bf, bf0) == None)
  {
  }

  // ---------------------------------------------------------------------
  // Where the loop stops

  /** The loop returns only when the iterator is exhausted or the table
      says to return at the next declaration, which is left unconsumed. */
  lemma {:induction false} TreeStops(ds: seq<Decl>, dispatch: Decl -> Action, pos: nat, uid: nat, acc: seq<Tac>)
    requires pos <= |ds|
    ensures var r := TreeLoop(ds, dispatch, pos, uid, acc);
      r.r.Ok? ==> r.pos == |ds| || dispatch(ds[r.pos]) == Close
    decreases |ds| - pos
  {
    if pos < |ds| {
      var a := dispatch(ds[pos]);
      if a.Parse? {
        var s := RuleAt(ds, dispatch, pos, uid, a.rule);
        if s.r.Ok? {
          TreeStops(ds, dispatch, s.pos, s.uid, acc + [s.r.value]);
        }
      }
    }
  }

  /** `parse_tactree` returns only when the iterator is exhausted or the
      next declaration is a closer, which it leaves unconsumed. */
  lemma ParseStops(ds: seq<Decl>, pos: nat, uid: nat)
    requires pos <= |ds|
    ensures var r := TreeLoop(ds, Dispatch, pos, uid, []);
      r.r.Ok? ==> r.pos == |ds| || IsCloser(ds[r.pos])
  {
    var r := TreeLoop(ds, Dispatch, pos, uid, []);
    TreeStops(ds, Dispatch, pos, uid, []);
    if r.r.Ok? && r.pos < |ds| {
      DispatchCloser(ds[r.pos]);
    }
  }

  // ---------------------------------------------------------------------
  // Every declaration consumed is in the tree, once

  lemma SliceCat(ds: seq<Decl>, a: nat, b: nat, c: nat)
    requires a <= b <= c <= |ds|
    ensures ds[a..c] == ds[a..b] + ds[b..c]
  {
  }

  lemma ForestSnoc(acc: seq<Tac>, t: Tac)
    ensures ForestDecls(acc + [t]) == ForestDecls(acc) + TacDecls(t)
    ensures ForestUids(acc + [t]) == ForestUids(acc) + TacUids(t)
  {
    assert (acc + [t])[..|acc|] == acc;
  }

  // The flat routines keep the declarations in trace order, except that
  // `parse_fixed_seq` files its second declaration last.

  lemma FixedStkInOrder(ds: seq<Decl>, pos: nat, uid: nat, name: string, terminal: bool)
    requires pos <= |ds|
    ensures var r := FixedStkAt(ds, pos, uid, name, terminal);
      r.r.Ok? ==> TacDecls(r.r.value) == ds[pos..r.pos]
  {
  }

  lemma Rotate(a: Decl, b: Decl, c: Decl, d: Decl)
    ensures multiset([a, c, d, b]) == multiset([a, b, c, d])
  {
    assert [a, c, d, b] == [a] + [c, d] + [b] && [a, b, c, d] == [a] + [b] + [c, d];
  }

  lemma FixedSeqCovers(ds: seq<Decl>, pos: nat, uid: nat, name: string, terminal: bool)
    requires pos <= |ds|
    ensures var r := FixedSeqAt(ds, pos, uid, name, terminal);
      r.r.Ok? ==>
        TacDecls(r.r.value) == [ds[pos], ds[pos + 2], ds[pos + 3], ds[pos + 1]] &&
        multiset(TacDecls(r.r.value)) == multiset(ds[pos..r.pos])
  {
    var r := FixedSeqAt(ds, pos, uid, name, terminal);
    if r.r.Ok? {
      assert ds[pos..r.pos] == [ds[pos], ds[pos + 1], ds[pos + 2], ds[pos + 3]];
      Rotate(ds[pos], ds[pos + 1], ds[pos + 2], ds[pos + 3]);
    }
  }

  lemma VarySeqInOrder(ds: seq<Decl>, pos: nat, uid: nat, name: string)
    requires pos <= |ds|
    ensures var r := VarySeqAt(ds, pos, uid, name);
      r.r.Ok? ==> TacDecls(r.r.value) == ds[pos..r.pos]
  {
    var r := VarySeqAt(ds, pos, uid, name);
    if r.r.Ok? {
      SliceCat(ds, pos, pos + 3, r.pos);
    }
  }

  lemma NestTermInOrder(ds: seq<Decl>, pos: nat, uid: nat, aliasName: string, coreName: string)
    requires pos <= |ds|
    ensures var r := NestTermAt(ds, pos, uid, aliasName, coreName);
      r.r.Ok? ==> TacDecls(r.r.value) == ds[pos..r.pos]
  {
    var r := NestTermAt(ds, pos, uid, aliasName, coreName);
    if r.r.Ok? {
      SliceCat(ds, pos, pos + 2, r.pos);
    }
  }

  lemma SsrtcldoInOrder(ds: seq<Decl>, pos: nat, uid: nat)
    requires pos <= |ds|
    ensures var r := SsrtcldoAt(ds, pos, uid);
      r.r.Ok? ==> TacDecls(r.r.value) == ds[pos..r.pos]
  {
  }

  lemma GenericInOrder(ds: seq<Decl>, pos: nat, uid: nat)
    requires pos <= |ds|
    ensures var r := GenericAt(ds, pos, uid);
      r.r.Ok? ==> TacDecls(r.r.value) == ds[pos..r.pos]
  {
    var r := GenericAt(ds, pos, uid);
    if r.r.Ok? {
      SliceCat(ds, pos, pos + 1, r.pos);
    }
  }

  /** One node and then the rest of the loop. */
  lemma CoverStep(ds: seq<Decl>, pos: nat, acc: seq<Tac>, s: Run<Tac>, l: Run<seq<Tac>>)
    requires s.r.Ok? && pos <= s.pos <= l.pos <= |ds|
    requires multiset(TacDecls(s.r.value)) == multiset(ds[pos..s.pos])
    requires l.r.Ok? ==>
      multiset(ForestDecls(l.r.value)) == multiset(ForestDecls(acc + [s.r.value])) + multiset(ds[s.pos..l.pos])
    ensures l.r.Ok? ==> multiset(ForestDecls(l.r.value)) == multiset(ForestDecls(acc)) + multiset(ds[pos..l.pos])
  {
    if l.r.Ok? {
      var t, p, q := s.r.value, s.pos, l.pos;
      ForestSnoc(acc, t);
      SliceCat(ds, pos, p, q);
    }
  }

  /** The loop's nodes hold the nodes it started with and every
      declaration it consumed, each once. */
  lemma {:induction false} TreeCovers(ds: seq<Decl>, dispatch: Decl -> Action, pos: nat, uid: nat, acc: seq<Tac>)
    requires pos <= |ds|
    ensures var r := TreeLoop(ds, dispatch, pos, uid, acc);
      r.r.Ok? ==> multiset(ForestDecls(r.r.value)) == multiset(ForestDecls(acc)) + multiset(ds[pos..r.pos])
    decreases |ds| - pos, 2
  {
    if pos < |ds| {
      var a := dispatch(ds[pos]);
      if a.Parse? {
        var s := RuleAt(ds, dispatch, pos, uid, a.rule);
        RuleCovers(ds, dispatch, pos, uid, a.rule);
        if s.r.Ok? {
          TreeCovers(ds, dispatch, s.pos, s.uid, acc + [s.r.value]);
          CoverStep(ds, pos, acc, s, TreeLoop(ds, dispatch, s.pos, s.uid, acc + [s.r.value]));
        }
      } else {
        assert ds[pos..pos] == [];
      }
    } else {
      assert ds[pos..pos] == [];
    }
  }

  lemma {:induction false} RuleCovers(ds: seq<Decl>, dispatch: Decl -> Action, pos: nat, uid: nat, rule: Rule)
    requires pos <= |ds|
    ensures var r := RuleAt(ds, dispatch, pos, uid, rule);
      r.r.Ok? ==> multiset(TacDecls(r.r.value)) == multiset(ds[pos..r.pos])
    decreases |ds| - pos, 1
  {
    match rule
    case FixedStkNested(name) => FixedNestedCovers(ds, dispatch, pos, uid, name);
    case VaryStkNested(name) => VaryNestedCovers(ds, dispatch, pos, uid, name);
    case Ssrtclseq => SsrtclseqCovers(ds, dispatch, pos, uid);
    case FixedStk(name, terminal) => FixedStkInOrder(ds, pos, uid, name, terminal);
    case FixedSeq(name, terminal) => FixedSeqCovers(ds, pos, uid, name, terminal);
    case VarySeq(name) => VarySeqInOrder(ds, pos, uid, name);
    case NestTerm(aliasName, coreName) => NestTermInOrder(ds, pos, uid, aliasName, coreName);
    case Ssrtcldo => SsrtcldoInOrder(ds, pos, uid);
    case Generic => GenericInOrder(ds, pos, uid);
  }

  /** A body's loop holds the declarations it consumed. */
  lemma {:induction false} BodyCovers(ds: seq<Decl>, dispatch: Decl -> Action, p: nat, uid: nat)
    requires p <= |ds|
    ensures var b := TreeLoop(ds, dispatch, p, uid, []);
      b.r.Ok? ==> multiset(ForestDecls(b.r.value)) == multiset(ds[p..b.pos])
    decreases |ds| - p, 3
  {
    TreeCovers(ds, dispatch, p, uid, []);
    assert ForestDecls([]) == [];
  }

  /** The declarations of the nested shapes: the body between the
      opening and the closing ones. */
  lemma NestedDecls(t: Tac)
    ensures t.FixedNestedTac? ==>
      TacDecls(t) == [t.alias.0, t.core.0] + ForestDecls(t.body) + [t.core.1, t.alias.1]
    ensures t.VaryNestedTac? ==>
      TacDecls(t) == [t.bfAlias, t.bfCore] + ForestDecls(t.body) + (t.afCores + t.afAliases)
    ensures t.SsrtclseqTac? ==> TacDecls(t) == [t.core.0] + ForestDecls(t.body) + [t.core.1]
  {
  }

  /** What `parse_fixed_stk_nested` returns, `r`, when it succeeds, in
      terms of what the body's loop returned, `b`. */
  predicate FixedNestedShape(ds: seq<Decl>, pos: nat, name: string, r: Run<Tac>, b: Run<seq<Tac>>) {
    r.r.Ok? ==>
      b.r.Ok? && pos + 2 <= b.pos && r.pos == b.pos + 2 && r.pos <= |ds| && r.uid == b.uid + 1 &&
      r.r.value == FixedNestedTac(b.uid, name, (ds[pos], ds[b.pos + 1]), (ds[pos + 1], ds[b.pos]), b.r.value)
  }

  lemma FixedNestedParts(ds: seq<Decl>, dispatch: Decl -> Action, pos: nat, uid: nat, name: string)
    requires pos + 2 <= |ds|
    ensures FixedNestedShape(ds, pos, name, FixedStkNestedAt(ds, dispatch, pos, uid, name), TreeLoop(ds, dispatch, pos + 2, uid, []))
  {
  }

  /** Two declarations, a body, and two more. */
  lemma Wrap2(ds: seq<Decl>, pos: nat, q: nat, end: nat, body: seq<Decl>)
    requires pos + 2 <= q && q + 2 == end <= |ds|
    requires multiset(body) == multiset(ds[pos + 2..q])
    ensures multiset([ds[pos], ds[pos + 1]] + body + [ds[q], ds[q + 1]]) == multiset(ds[pos..end])
  {
    assert ds[pos..end] == [ds[pos], ds[pos + 1]] + ds[pos + 2..q] + [ds[q], ds[q + 1]];
  }

  lemma FixedNestedWrap(ds: seq<Decl>, pos: nat, q: nat, end: nat, t: Tac)
    requires pos + 2 <= q && q + 2 == end <= |ds|
    requires t.FixedNestedTac? && t.alias == (ds[pos], ds[q + 1]) && t.core == (ds[pos + 1], ds[q])
    requires multiset(ForestDecls(t.body)) == multiset(ds[pos + 2..q])
    ensures multiset(TacDecls(t)) == multiset(ds[pos..end])
  {
    NestedDecls(t);
    Wrap2(ds, pos, q, end, ForestDecls(t.body));
  }

  /** The counting step of `FixedNestedCovers`, on the parts alone. */
  lemma FixedNestedCount(ds: seq<Decl>, pos: nat, name: string, r: Run<Tac>, b: Run<seq<Tac>>)
    requires FixedNestedShape(ds, pos, name, r, b)
    requires r.r.Ok? ==> multiset(ForestDecls(b.r.value)) == multiset(ds[pos + 2..b.pos])
    ensures r.r.Ok? ==> multiset(TacDecls(r.r.value)) == multiset(ds[pos..r.pos])
  {
    if r.r.Ok? {
      var t, q, end := r.r.value, b.pos, r.pos;
      assert t.FixedNestedTac? && t.alias == (ds[pos], ds[q + 1]) && t.core == (ds[pos + 1], ds[q]) && t.body == b.r.value;
      FixedNestedWrap(ds, pos, q, end, t);
    }
  }

  lemma {:induction false} FixedNestedCovers(ds: seq<Decl>, dispatch: Decl -> Action, pos: nat, uid: nat, name: string)
    requires pos <= |ds|
    ensures var r := FixedStkNestedAt(ds, dispatch, pos, uid, name);
      r.r.Ok? ==> multiset(TacDecls(r.r.value)) == multiset(ds[pos..r.pos])
    decreases |ds| - pos, 0
  {
    if pos + 2 <= |ds| {
      FixedNestedParts(ds, dispatch, pos, uid, name);
      BodyCovers(ds, dispatch, pos + 2, uid);
      FixedNestedCount(ds, pos, name, FixedStkNestedAt(ds, dispatch, pos, uid, name), TreeLoop(ds, dispatch, pos + 2, uid, []));
    }
  }

  /** What `parse_vary_stk_nested` returns, `r`, when it succeeds, in
      terms of what the body's loop returned, `b`. */
  predicate VaryNestedShape(ds: seq<Decl>, pos: nat, name: string, r: Run<Tac>, b: Run<seq<Tac>>) {
    r.r.Ok? ==>
      b.r.Ok? && pos + 2 <= b.pos <= r.pos <= |ds| && r.uid == b.uid + 1 && r.r.value.VaryNestedTac? &&
      var t := r.r.value;
      t == VaryNestedTac(b.uid, name, ds[pos], ds[pos + 1], t.afCores, t.afAliases, b.r.value, t.terminal) &&
      ds[b.pos..r.pos] == t.afCores + t.afAliases
  }

  lemma VaryNestedParts(ds: seq<Decl>, dispatch: Decl -> Action, pos: nat, uid: nat, name: string)
    requires pos + 2 <= |ds|
    ensures VaryNestedShape(ds, pos, name, VaryStkNestedAt(ds, dispatch, pos, uid, name), TreeLoop(ds, dispatch, pos + 2, uid, []))
  {
    var r := VaryStkNestedAt(ds, dispatch, pos, uid, name);
    if r.r.Ok? {
      var b := TreeLoop(ds, dispatch, pos + 2, uid, []);
      var n := NestedTailAt(ds, b.pos, ds[pos], ds[pos + 1]).value;
      SliceCat(ds, b.pos, b.pos + |n.0|, b.pos + |n.0| + |n.1|);
    }
  }

  /** Two declarations, a body, and a run of declarations. */
  lemma WrapRun(ds: seq<Decl>, pos: nat, q: nat, end: nat, body: seq<Decl>, post: seq<Decl>)
    requires pos + 2 <= q <= end <= |ds| && ds[q..end] == post
    requires multiset(body) == multiset(ds[pos + 2..q])
    ensures multiset([ds[pos], ds[pos + 1]] + body + post) == multiset(ds[pos..end])
  {
    assert ds[pos..end] == [ds[pos], ds[pos + 1]] + ds[pos + 2..q] + ds[q..end];
  }

  lemma VaryNestedCount(ds: seq<Decl>, pos: nat, name: string, r: Run<Tac>, b: Run<seq<Tac>>)
    requires VaryNestedShape(ds, pos, name, r, b)
    requires r.r.Ok? ==> multiset(ForestDecls(b.r.value)) == multiset(ds[pos + 2..b.pos])
    ensures r.r.Ok? ==> multiset(TacDecls(r.r.value)) == multiset(ds[pos..r.pos])
  {
    if r.r.Ok? {
      var t, q, end, inner := r.r.value, b.pos, r.pos, b.r.value;
      assert t == VaryNestedTac(b.uid, name, ds[pos], ds[pos + 1], t.afCores, t.afAliases, inner, t.terminal);
      NestedDecls(t);
      WrapRun(ds, pos, q, end, ForestDecls(inner), t.afCores + t.afAliases);
    }
  }

  lemma {:induction false} VaryNestedCovers(ds: seq<Decl>, dispatch: Decl -> Action, pos: nat, uid: nat, name: string)
    requires pos <= |ds|
    ensures var r := VaryStkNestedAt(ds, dispatch, pos, uid, name);
      r.r.Ok? ==> multiset(TacDecls(r.r.value)) == multiset(ds[pos..r.pos])
    decreases |ds| - pos, 0
  {
    if pos + 2 <= |ds| {
      VaryNestedParts(ds, dispatch, pos, uid, name);
      BodyCovers(ds, dispatch, pos + 2, uid);
      VaryNestedCount(ds, pos, name, VaryStkNestedAt(ds, dispatch, pos, uid, name), TreeLoop(ds, dispatch, pos + 2, uid, []));
    }
  }

  /** What `parse_ssrtclseq` returns, `r`, when it succeeds, in terms of
      what the body's loop returned, `b`. */
  predicate SsrtclseqShape(ds: seq<Decl>, pos: nat, r: Run<Tac>, b: Run<seq<Tac>>) {
    r.r.Ok? ==>
      b.r.Ok? && pos + 1 <= b.pos && r.pos == b.pos + 1 && r.pos <= |ds| && r.uid == b.uid + 1 &&
      r.r.value == SsrtclseqTac(b.uid, (ds[pos], ds[b.pos]), b.r.value)
  }

  lemma SsrtclseqParts(ds: seq<Decl>, dispatch: Decl -> Action, pos: nat, uid: nat)
    requires pos + 1 <= |ds|
    ensures SsrtclseqShape(ds, pos, SsrtclseqAt(ds, dispatch, pos, uid), TreeLoop(ds, dispatch, pos + 1, uid, []))
  {
  }

  /** One declaration, a body, and one more. */
  lemma Wrap1(ds: seq<Decl>, pos: nat, q: nat, end: nat, body: seq<Decl>)
    requires pos + 1 <= q && q + 1 == end <= |ds|
    requires multiset(body) == multiset(ds[pos + 1..q])
    ensures multiset([ds[pos]] + body + [ds[q]]) == multiset(ds[pos..end])
  {
    assert ds[pos..end] == [ds[pos]] + ds[pos + 1..q] + [ds[q]];
  }

  lemma SsrtclseqWrap(ds: seq<Decl>, pos: nat, q: nat, end: nat, t: Tac)
    requires pos + 1 <= q && q + 1 == end <= |ds|
    requires t.SsrtclseqTac? && t.core == (ds[pos], ds[q])
    requires multiset(ForestDecls(t.body)) == multiset(ds[pos + 1..q])
    ensures multiset(TacDecls(t)) == multiset(ds[pos..end])
  {
    NestedDecls(t);
    Wrap1(ds, pos, q, end, ForestDecls(t.body));
  }

  lemma SsrtclseqCount(ds: seq<Decl>, pos: nat, r: Run<Tac>, b: Run<seq<Tac>>)
    requires SsrtclseqShape(ds, pos, r, b)
    requires r.r.Ok? ==> multiset(ForestDecls(b.r.value)) == multiset(ds[pos + 1..b.pos])
    ensures r.r.Ok? ==> multiset(TacDecls(r.r.value)) == multiset(ds[pos..r.pos])
  {
    if r.r.Ok? {
      var t, q, end := r.r.value, b.pos, r.pos;
      assert t.SsrtclseqTac? && t.core == (ds[pos], ds[q]) && t.body == b.r.value;
      SsrtclseqWrap(ds, pos, q, end, t);
    }
  }

  lemma {:induction false} SsrtclseqCovers(ds: seq<Decl>, dispatch: Decl -> Action, pos: nat, uid: nat)
    requires pos <= |ds|
    ensures var r := SsrtclseqAt(ds, dispatch, pos, uid);
      r.r.Ok? ==> multiset(TacDecls(r.r.value)) == multiset(ds[pos..r.pos])
    decreases |ds| - pos, 0
  {
    if pos + 1 <= |ds| {
      SsrtclseqParts(ds, dispatch, pos, uid);
      BodyCovers(ds, dispatch, pos + 1, uid);
      SsrtclseqCount(ds, pos, SsrtclseqAt(ds, dispatch, pos, uid), TreeLoop(ds, dispatch, pos + 1, uid, []));
    }
  }

  // ---------------------------------------------------------------------
  // Node ids: drawn once each, in post-order

  lemma RangeCat(a: nat, b: nat, c: nat)
    requires a <= b <= c
    ensures Range(a, b) + Range(b, c) == Range(a, c)
  {
  }

  lemma RangeSnoc(a: nat, b: nat)
    requires a <= b
    ensures Range(a, b) + [b] == Range(a, b + 1)
  {
  }

  /** A flat node, `r`, takes the one id `uid`. */
  predicate Leaf(uid: nat, r: Run<Tac>) {
    r.r.Ok? ==> r.uid == uid + 1 && !HasSubtac(r.r.value) && r.r.value.uid == uid
  }

  lemma FlatLeaf(ds: seq<Decl>, dispatch: Decl -> Action, pos: nat, uid: nat, rule: Rule)
    requires pos <= |ds|
    requires !(rule.FixedStkNested? || rule.VaryStkNested? || rule.Ssrtclseq?)
    ensures Leaf(uid, RuleAt(ds, dispatch, pos, uid, rule))
  {
  }

  lemma LeafUids(uid: nat, r: Run<Tac>)
    requires Leaf(uid, r)
    ensures r.r.Ok? ==> uid < r.uid && TacUids(r.r.value) == Range(uid, r.uid)
  {
  }

  /** A nested node, `r`, draws its id after those of its body, `b`. */
  predicate Wraps(r: Run<Tac>, b: Run<seq<Tac>>) {
    r.r.Ok? ==>
      b.r.Ok? && HasSubtac(r.r.value) && r.r.value.uid == b.uid && r.r.value.body == b.r.value && r.uid == b.uid + 1
  }

  lemma WrapsUids(uid: nat, r: Run<Tac>, b: Run<seq<Tac>>)
    requires Wraps(r, b)
    requires b.r.Ok? ==> uid <= b.uid && ForestUids(b.r.value) == Range(uid, b.uid)
    ensures r.r.Ok? ==> uid < r.uid && TacUids(r.r.value) == Range(uid, r.uid)
  {
    if r.r.Ok? {
      var t, q := r.r.value, b.uid;
      assert TacUids(t) == ForestUids(t.body) + [q];
      RangeSnoc(uid, q);
    }
  }

  /** One node and then the rest of the loop. */
  lemma UidStep(uid: nat, acc: seq<Tac>, s: Run<Tac>, l: Run<seq<Tac>>)
    requires s.r.Ok? && uid < s.uid && TacUids(s.r.value) == Range(uid, s.uid)
    requires l.r.Ok? ==> s.uid <= l.uid && ForestUids(l.r.value) == ForestUids(acc + [s.r.value]) + Range(s.uid, l.uid)
    ensures l.r.Ok? ==> uid <= l.uid && ForestUids(l.r.value) == ForestUids(acc) + Range(uid, l.uid)
  {
    if l.r.Ok? {
      var t, p, q := s.r.value, s.uid, l.uid;
      ForestSnoc(acc, t);
      RangeCat(uid, p, q);
    }
  }

  /** The loop's nodes: the ones it started with, then the ids it drew,
      consecutive and in post-order. */
  lemma {:induction false} TreeUids(ds: seq<Decl>, dispatch: Decl -> Action, pos: nat, uid: nat, acc: seq<Tac>)
    requires pos <= |ds|
    ensures var r := TreeLoop(ds, dispatch, pos, uid, acc);
      r.r.Ok? ==> uid <= r.uid && ForestUids(r.r.value) == ForestUids(acc) + Range(uid, r.uid)
    decreases |ds| - pos, 2
  {
    if pos < |ds| {
      var a := dispatch(ds[pos]);
      if a.Parse? {
        var s := RuleAt(ds, dispatch, pos, uid, a.rule);
        RuleUids(ds, dispatch, pos, uid, a.rule);
        if s.r.Ok? {
          TreeUids(ds, dispatch, s.pos, s.uid, acc + [s.r.value]);
          UidStep(uid, acc, s, TreeLoop(ds, dispatch, s.pos, s.uid, acc + [s.r.value]));
        }
      } else {
        assert Range(uid, uid) == [];
      }
    } else {
      assert Range(uid, uid) == [];
    }
  }

  lemma {:induction false} BodyUids(ds: seq<Decl>, dispatch: Decl -> Action, p: nat, uid: nat)
    requires p <= |ds|
    ensures var b := TreeLoop(ds, dispatch, p, uid, []);
      b.r.Ok? ==> uid <= b.uid && ForestUids(b.r.value) == Range(uid, b.uid)
    decreases |ds| - p, 3
  {
    TreeUids(ds, dispatch, p, uid, []);
    assert ForestUids([]) == [];
  }

  /** A node's ids are the ones its routine drew, the node's own last. */
  lemma {:induction false} RuleUids(ds: seq<Decl>, dispatch: Decl -> Action, pos: nat, uid: nat, rule: Rule)
    requires pos <= |ds|
    ensures var r := RuleAt(ds, dispatch, pos, uid, rule);
      r.r.Ok? ==> uid < r.uid && TacUids(r.r.value) == Range(uid, r.uid)
    decreases |ds| - pos, 1
  {
    match rule
    case FixedStkNested(name) =>
      if pos + 2 <= |ds| {
        FixedNestedParts(ds, dispatch, pos, uid, name);
        BodyUids(ds, dispatch, pos + 2, uid);
        WrapsUids(uid, FixedStkNestedAt(ds, dispatch, pos, uid, name), TreeLoop(ds, dispatch, pos + 2, uid, []));
      }
    case VaryStkNested(name) =>
      if pos + 2 <= |ds| {
        VaryNestedParts(ds, dispatch, pos, uid, name);
        BodyUids(ds, dispatch, pos + 2, uid);
        WrapsUids(uid, VaryStkNestedAt(ds, dispatch, pos, uid, name), TreeLoop(ds, dispatch, pos + 2, uid, []));
      }
    case Ssrtclseq =>
      if pos + 1 <= |ds| {
        SsrtclseqParts(ds, dispatch, pos, uid);
        BodyUids(ds, dispatch, pos + 1, uid);
        WrapsUids(uid, SsrtclseqAt(ds, dispatch, pos, uid), TreeLoop(ds, dispatch, pos + 1, uid, []));
      }
    case _ =>
      FlatLeaf(ds, dispatch, pos, uid, rule);
      LeafUids(uid, RuleAt(ds, dispatch, pos, uid, rule));
  }

  /** The ids of the nodes a lemma's parse returns are `0, 1, ...`, one
      per node, in post-order: strictly increasing, hence distinct. */
  lemma ParseUids(ds: seq<Decl>)
    ensures var r := ParseLemma(ds);
      r.r.Ok? ==>
        ForestUids(r.r.value) == Range(0, r.uid) &&
        forall i, j :: 0 <= i < j < |ForestUids(r.r.value)| ==> ForestUids(r.r.value)[i] < ForestUids(r.r.value)[j]
  {
    TreeUids(ds, Dispatch, 0, 0, []);
    assert ForestUids([]) == [];
  }

  /** A nested node's id is drawn after its body is parsed, so it exceeds
      every id in its body. */
  lemma NestedUidAbove(ds: seq<Decl>, dispatch: Decl -> Action, pos: nat, uid: nat, rule: Rule)
    requires pos <= |ds|
    ensures var r := RuleAt(ds, dispatch, pos, uid, rule);
      r.r.Ok? && HasSubtac(r.r.value) ==>
        r.r.value.uid == r.uid - 1 &&
        forall u :: u in ForestUids(r.r.value.body) ==> uid <= u < r.r.value.uid
  {
    var r := RuleAt(ds, dispatch, pos, uid, rule);
    RuleUids(ds, dispatch, pos, uid, rule);
    if r.r.Ok? && HasSubtac(r.r.value) {
      var t := r.r.value;
      var us := ForestUids(t.body);
      assert TacUids(t) == us + [t.uid];
      assert Range(uid, r.uid)[|us|] == t.uid;
      forall u | u in us
        ensures uid <= u < t.uid
      {
        var k :| 0 <= k < |us| && us[k] == u;
        assert Range(uid, r.uid)[k] == u;
      }
    }
  }

  /** A lemma's parse stops at the end of the declarations or at a closer,
      holds every declaration it consumed once, and numbers its nodes
      `0, 1, ...` in post-order. */
  lemma ParseSpec(ds: seq<Decl>)
    ensures var r := ParseLemma(ds);
      r.r.Ok? ==>
        (r.pos == |ds| || IsCloser(ds[r.pos])) &&
        multiset(ForestDecls(r.r.value)) == multiset(ds[..r.pos]) &&
        ForestUids(r.r.value) == Range(0, r.uid)
  {
    ParseStops(ds, 0, 0);
    BodyCovers(ds, Dispatch, 0, 0);
    assert ds[0..ParseLemma(ds).pos] == ds[..ParseLemma(ds).pos];
    ParseUids(ds);
  }

  // ---------------------------------------------------------------------
  // In-edges

  /** `in_edge` as written agrees with the corrected one and fails exactly
      on `VaryTac`. */
  lemma InEdgeAsWrittenSpec(t: Tac)
    ensures InEdgeAsWritten(t).None? <==> t.VaryTac?
    ensures InEdgeAsWritten(t).Some? ==> InEdgeAsWritten(t).value == InEdge(t)
  {
  }

  /** A node's in-edge is the goal of the first declaration its routine
      consumed. */
  lemma InEdgeFirst(ds: seq<Decl>, dispatch: Decl -> Action, pos: nat, uid: nat, rule: Rule)
    requires pos <= |ds|
    ensures var r := RuleAt(ds, dispatch, pos, uid, rule);
      r.r.Ok? ==> InEdge(r.r.value) == ds[pos].gid
  {
    match rule
    case FixedStkNested(name) =>
      if pos + 2 <= |ds| {
        FixedNestedParts(ds, dispatch, pos, uid, name);
      }
    case VaryStkNested(name) =>
      if pos + 2 <= |ds| {
        VaryNestedParts(ds, dispatch, pos, uid, name);
      }
    case Ssrtclseq =>
      if pos + 1 <= |ds| {
        SsrtclseqParts(ds, dispatch, pos, uid);
      }
    case _ =>
  }

  /** `out_edges` only names goals of the node's own declarations, so
      out-edges, like in-edges, stay inside what the node consumed. */
  lemma OutEdgesOwn(t: Tac)
    ensures forall g :: g in OutEdges(t) ==> exists d :: d in TacDecls(t) && d.gid == g
  {
  }

  /** The `split` rule always builds a `VaryTac`, whose `in_edge` as
      written fails. */
  lemma VarySeqInEdgeFails(ds: seq<Decl>, pos: nat, uid: nat, name: string)
    requires pos <= |ds|
    ensures var r := VarySeqAt(ds, pos, uid, name);
      r.r.Ok? ==> r.r.value.VaryTac? && InEdgeAsWritten(r.r.value).None? && InEdge(r.r.value) == ds[pos].gid
  {
  }

  /** A before-declaration of `split` goes to `parse_vary_seq`. */
  lemma DispatchSplit(g: int, n: int)
    ensures Dispatch(Decl(DeclLexer.BEFORE, "split", g, n)) == Parse(VarySeq("Split"))
  {
    var t := "split";
    HeadsDiffer(t, "intro");
    HeadsDiffer(t, "case");
    HeadsDiffer(t, "exact");
    assert t[..|t|] == t;
  }

  lemma HeadsDiffer(t: string, p: string)
    requires |t| > 0 && |p| > 0 && t[0] != p[0]
    ensures !StartsWith(t, p)
  {
    if |p| <= |t| {
      assert t[..|p|][0] == t[0];
    }
  }

  /** A three-declaration `split` trace parses to one `VaryTac` whose
      `in_edge` as written fails. */
  lemma SplitInEdgeFails()
    ensures var ds := [Decl(DeclLexer.BEFORE, "split", 3, 1), Decl(DeclLexer.AFTER, "split", 3, 2),
                       Decl(DeclLexer.BEFORE, "split", 4, 2)];
      var r := ParseLemma(ds);
      r.r.Ok? && |r.r.value| == 1 && InEdgeAsWritten(r.r.value[0]).None? && InEdge(r.r.value[0]) == 3
  {
    var ds := [Decl(DeclLexer.BEFORE, "split", 3, 1), Decl(DeclLexer.AFTER, "split", 3, 2),
               Decl(DeclLexer.BEFORE, "split", 4, 2)];
    DispatchSplit(3, 1);
    var s := VarySeqAt(ds, 0, 0, "Split");
    assert s.r == Ok(VaryTac(0, "Split", (ds[0], ds[1]), ds[2], [], true)) && s.pos == 3;
    assert TreeLoop(ds, Dispatch, 3, 1, [s.r.value]).r == Ok([s.r.value]);
  }

  // ---------------------------------------------------------------------
  // The parser object

  /** `TacTreeParser`: the declarations of one lemma behind a
      single-lookahead iterator (`pos` is the next one) and the uid
      counter. `table` is the dispatch table of `parse_tactree`, which
      the constructor sets to `Dispatch`. */
  class TacTreeParser {
    const decls: seq<Decl>
    const table: Decl -> Action
    var pos: nat
    var uidcnt: nat

    predicate Valid()
      reads this
    {
      pos <= |decls|
    }

    constructor (ds: seq<Decl>)
      ensures Valid() && decls == ds && table == Dispatch && pos == 0 && uidcnt == 0
    {
      decls := ds;
      table := Dispatch;
      pos := 0;
      uidcnt := 0;
    }

    /** `next(it)`: the next declaration, or `StopIteration` at the end. */
    method Next() returns (r: Result<Decl, ParseError>)
      requires Valid()
      modifies this
      ensures Valid() && uidcnt == old(uidcnt)
      ensures old(pos) < |decls| ==> r == Ok(decls[old(pos)]) && pos == old(pos) + 1
      ensures old(pos) == |decls| ==> r == Err(Exhausted) && pos == old(pos)
    {
      if pos < |decls| {
        r := Ok(decls[pos]);
        pos := pos + 1;
      } else {
        r := Err(Exhausted);
      }
    }

    /** `_getuid`: hands out the counter and bumps it. */
    method GetUid() returns (u: nat)
      modifies this
      ensures u == old(uidcnt) && uidcnt == old(uidcnt) + 1 && pos == old(pos)
    {
      u := uidcnt;
      uidcnt := uidcnt + 1;
    }

    /** The `for _ in range(...)` loops of the variable-width routines:
        the next `n` declarations, or `StopIteration` having consumed the
        rest. */
    method TakeRun(n: nat) returns (r: Result<seq<Decl>, ParseError>)
      requires Valid()
      modifies this
      ensures Valid() && uidcnt == old(uidcnt)
      ensures old(pos) + n <= |decls| ==> r == Ok(decls[old(pos)..old(pos) + n]) && pos == old(pos) + n
      ensures old(pos) + n > |decls| ==> r == Err(Exhausted) && pos == |decls|
    {
      var acc: seq<Decl> := [];
      var i := 0;
      while i < n
        invariant i <= n && Valid() && uidcnt == old(uidcnt)
        invariant pos == old(pos) + i && acc == decls[old(pos)..pos]
      {
        var d :- Next();
        acc := acc + [d];
        i := i + 1;
      }
      return Ok(acc);
    }

    /** The tail of `parse_vary_seq` and `parse_generic`, measured against
        `base` goals. */
    method ParseTail(base: int) returns (r: Result<(seq<Decl>, bool), ParseError>)
      requires Valid()
      modifies this
      ensures Valid() && uidcnt == old(uidcnt)
      ensures TailAt(decls, old(pos), base).None? ==> r == Err(Exhausted) && pos == |decls|
      ensures TailAt(decls, old(pos), base).Some? ==>
        r == Ok(TailAt(decls, old(pos), base).value) && pos == old(pos) + |r.value.0|
    {
      if pos == |decls| {
        return Ok(([], true));
      } else if decls[pos].ngs == 0 {
        var d := Next();
        return Ok(([d.value], true));
      } else {
        var acc :- TakeRun(RunLength(decls[pos].ngs, base));
        return Ok((acc, false));
      }
    }

    /** The tail of `parse_vary_stk_nested`: the core afters, then the
        alias afters. */
    method ParseNestedTail(bf: Decl, bf0: Decl) returns (r: Result<(seq<Decl>, seq<Decl>, bool), ParseError>)
      requires Valid()
      modifies this
      ensures Valid() && uidcnt == old(uidcnt)
      ensures NestedTailAt(decls, old(pos), bf, bf0).None? ==> r == Err(Exhausted) && pos == |decls|
      ensures NestedTailAt(decls, old(pos), bf, bf0).Some? ==>
        r == Ok(NestedTailAt(decls, old(pos), bf, bf0).value) && pos == old(pos) + |r.value.0| + |r.value.1|
    {
      if pos == |decls| {
        return Ok(([], [], true));
      } else if decls[pos].ngs == 0 {
        var d0 := Next();
        var d :- Next();
        return Ok(([d0.value], [d], true));
      } else {
        var ngs := decls[pos].ngs;
        var acc0 :- TakeRun(RunLength(ngs, bf0.ngs));
        var acc :- TakeRun(RunLength(ngs, bf.ngs));
        return Ok((acc0, acc, false));
      }
    }

    method ParseFixedStk(name: string, terminal: bool) returns (r: Result<Tac, ParseError>)
      requires Valid()
      modifies this
      ensures Valid() && Run(r, pos, uidcnt) == FixedStkAt(decls, old(pos), old(uidcnt), name, terminal)
    {
      var bfName :- Next();
      var bfName0 :- Next();
      var afName0 :- Next();
      var afName :- Next();
      var u := GetUid();
      return Ok(FixedTac(u, name, (bfName, afName), (bfName0, afName0), terminal));
    }

    method ParseFixedSeq(name: string, terminal: bool) returns (r: Result<Tac, ParseError>)
      requires Valid()
      modifies this
      ensures Valid() && Run(r, pos, uidcnt) == FixedSeqAt(decls, old(pos), old(uidcnt), name, terminal)
    {
      var bfName :- Next();
      var afName :- Next();
      var bfName0 :- Next();
      var afName0 :- Next();
      var u := GetUid();
      return Ok(FixedTac(u, name, (bfName, afName), (bfName0, afName0), terminal));
    }

    method ParseVarySeq(name: string) returns (r: Result<Tac, ParseError>)
      requires Valid()
      modifies this
      ensures Valid() && Run(r, pos, uidcnt) == VarySeqAt(decls, old(pos), old(uidcnt), name)
    {
      var bfName :- Next();
      var afName :- Next();
      var bfName0 :- Next();
      var tail :- ParseTail(bfName0.ngs);
      var u := GetUid();
      return Ok(VaryTac(u, name, (bfName, afName), bfName0, tail.0, tail.1));
    }

    method ParseNestTerm(aliasName: string, coreName: string) returns (r: Result<Tac, ParseError>)
      requires Valid()
      modifies this
      ensures Valid() && Run(r, pos, uidcnt) == NestTermAt(decls, old(pos), old(uidcnt), aliasName, coreName)
    {
      var bfName :- Next();
      var bfName0 :- Next();
      var extra: seq<Decl> := [];
      if pos < |decls| && StartsWith(decls[pos].tac, coreName) {
        var afName0 := Next();
        extra := [afName0.value];
        if pos < |decls| && StartsWith(decls[pos].tac, aliasName) {
          var afName := Next();
          extra := [afName0.value, afName.value];
        }
      }
      var u := GetUid();
      return Ok(NestTermTac(u, aliasName, coreName, bfName, bfName0, extra));
    }

    method ParseFixedStkNested(name: string) returns (r: Result<Tac, ParseError>)
      requires Valid()
      modifies this
      ensures Valid() && Run(r, pos, uidcnt) == FixedStkNestedAt(decls, table, old(pos), old(uidcnt), name)
      decreases |decls| - pos, 0
    {
      var bfName :- Next();
      var bfName0 :- Next();
      var body :- ParseTactree();
      var afName0 :- Next();
      var afName :- Next();
      var u := GetUid();
      return Ok(FixedNestedTac(u, name, (bfName, afName), (bfName0, afName0), body));
    }

    method ParseVaryStkNested(name: string) returns (r: Result<Tac, ParseError>)
      requires Valid()
      modifies this
      ensures Valid() && Run(r, pos, uidcnt) == VaryStkNestedAt(decls, table, old(pos), old(uidcnt), name)
      decreases |decls| - pos, 0
    {
      var bfName :- Next();
      var bfName0 :- Next();
      var body :- ParseTactree();
      var tail :- ParseNestedTail(bfName, bfName0);
      var u := GetUid();
      return Ok(VaryNestedTac(u, name, bfName, bfName0, tail.0, tail.1, body, tail.2));
    }

    method ParseSsrtclseq() returns (r: Result<Tac, ParseError>)
      requires Valid()
      modifies this
      ensures Valid() && Run(r, pos, uidcnt) == SsrtclseqAt(decls, table, old(pos), old(uidcnt))
      decreases |decls| - pos, 0
    {
      var bf :- Next();
      var body :- ParseTactree();
      var af :- Next();
      var u := GetUid();
      return Ok(SsrtclseqTac(u, (bf, af), body));
    }

    method ParseSsrtcldo() returns (r: Result<Tac, ParseError>)
      requires Valid()
      modifies this
      ensures Valid() && Run(r, pos, uidcnt) == SsrtcldoAt(decls, old(pos), old(uidcnt))
    {
      var bf :- Next();
      var u := GetUid();
      return Ok(SsrtcldoTac(u, bf));
    }

    method ParseGeneric() returns (r: Result<Tac, ParseError>)
      requires Valid()
      modifies this
      ensures Valid() && Run(r, pos, uidcnt) == GenericAt(decls, old(pos), old(uidcnt))
    {
      var decl :- Next();
      var acc: seq<Decl> := [];
      var terminal := false;
      if pos == |decls| {
        terminal := true;
      } else if decl.tac != decls[pos].tac {
        terminal := true;
      } else {
        var tail :- ParseTail(decl.ngs);
        acc, terminal := tail.0, tail.1;
      }
      var u := GetUid();
      return Ok(GenericTac(u, decl, acc, terminal));
    }

    /** The routine a rule names. */
    method ParseRule(rule: Rule) returns (r: Result<Tac, ParseError>)
      requires Valid()
      modifies this
      ensures Valid() && Run(r, pos, uidcnt) == RuleAt(decls, table, old(pos), old(uidcnt), rule)
      decreases |decls| - pos, 1
    {
      match rule
      case FixedStk(name, terminal) => r := ParseFixedStk(name, terminal);
      case FixedSeq(name, terminal) => r := ParseFixedSeq(name, terminal);
      case VarySeq(name) => r := ParseVarySeq(name);
      case NestTerm(aliasName, coreName) => r := ParseNestTerm(aliasName, coreName);
      case FixedStkNested(name) => r := ParseFixedStkNested(name);
      case VaryStkNested(name) => r := ParseVaryStkNested(name);
      case Ssrtclseq => r := ParseSsrtclseq();
      case Ssrtcldo => r := ParseSsrtcldo();
      case Generic => r := ParseGeneric();
    }

    /** `parse_tactree`: parse nodes until the iterator is exhausted or
        the next declaration closes the enclosing body. */
    method ParseTactree() returns (r: Result<seq<Tac>, ParseError>)
      requires Valid()
      modifies this
      ensures Valid() && Run(r, pos, uidcnt) == TreeLoop(decls, table, old(pos), old(uidcnt), [])
      decreases |decls| - pos, 2
    {
      var acc: seq<Tac> := [];
      while pos < |decls|
        invariant Valid() && old(pos) <= pos
        invariant TreeLoop(decls, table, pos, uidcnt, acc) == TreeLoop(decls, table, old(pos), old(uidcnt), [])
        decreases |decls| - pos
      {
        var decl := decls[pos];
        match table(decl) {
          case Close =>
            return Ok(acc);
          case NoMatch =>
            return Err(NoRule(decl));
          case Parse(rule) =>
            var t :- ParseRule(rule);
            acc := acc + [t];
        }
      }
      return Ok(acc);
    }
  }

  /** `TacTreeParser(lemma).parse_tactree()`. */
  method ParseTactics(ds: seq<Decl>) returns (r: Result<seq<Tac>, ParseError>)
    ensures r == ParseLemma(ds).r
  {
    var p := new TacTreeParser(ds);
    r := p.ParseTactree();
  }
}
