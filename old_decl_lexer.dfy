/** The older declaration lexer of the repository: each tactic state is
    printed in full, hypotheses and goal as text followed by their
    expression-table indices.

    Decl ::= 'begin(tacst)' Header Hyps Div Goal Sep AstCtx Div AstGoal
             'end(tacst)'
    Hyps ::= { name ':' type { continuation } }

    The header lines and the `begin(tacst)` fields are read exactly as by
    the newer lexer, so `DeclLexer.LiveFieldsOf`, `DeclLexer.TacStStartOf`
    and `DeclLexer.LemmaNameOf` are shared. */
module OldDeclLexer {
  import opened Wrappers
  import opened Text
  import opened LineCursor
  import opened TraceText
  import DeclLexer

  // ---------------------------------------------------------------------
  // Tokens

  const TokDiv: string := "============================"
  const TokBegTacSt: string := "begin(tacst)"
  const TokEndTacSt: string := "end(tacst)"
  const TokBegSubPf: string := "begin(subpf)"
  const TokEndSubPf: string := "end(subpf)"
  const TokBegPf: string := "begin(pf)"
  const TokEndPf: string := "end(pf)"
  const TokTyps: string := "Typs"
  const TokBods: string := "Bods"
  const TokConstrs: string := "Constrs"
  /** A line a faulty trace printer emits, skipped by the lexer. */
  const TokKludge: string := "AfterHOHOHO"

  const GidSolved: int := -1
  const GoalSolved: string := "ML4TP_SOLVED"

  // ---------------------------------------------------------------------
  // Declarations

  /** `TacStHdr`: the mode is kept whole; `uid` is the depth field. */
  datatype Header = Header(
    mode: string, tac: string, kind: string, ftac: string,
    gid: int, ngs: int, loc: string, uid: int)

  /** `TacStDecl`: the hypotheses as (name, type) pairs in file order, the
      goal text, and their expression-table indices. */
  datatype Decl = Decl(
    hdr: Header, ctx: seq<(string, string)>, goal: string,
    astCtx: seq<string>, astGoal: int)

  /** `LemTacSt`: the three tables are kept as read, text to text. */
  datatype Lemma = Lemma(
    name: string, decls: seq<Decl>,
    typs: map<string, string>, bods: map<string, string>, constrs: map<string, string>)

  // ---------------------------------------------------------------------
  // Hypotheses

  /** The continuation of a hypothesis's type: every following line that
      is neither the divider nor holds a ":" is appended, stripped, after
      a single space. Running out of lines is the error of advancing past
      the end. */
  function TypeRestAt(lines: seq<string>, pos: nat, typ: string): (r: Result<(string, nat), TraceError>)
    requires pos <= |lines|
    ensures r.Ok? ==> pos <= r.value.1 <= |lines|
    decreases |lines| - pos
  {
    var line := PeekAt(lines, pos);
    if line == TokDiv || ':' in line then Ok((typ, pos))
    else if pos == |lines| then Err(EndOfFile(pos))
    else TypeRestAt(lines, pos + 1, typ + " " + Strip(line))
  }

  /** One continuation line of a type. */
  lemma TypeRestStep(lines: seq<string>, pos: nat, typ: string)
    requires pos < |lines|
    requires PeekAt(lines, pos) != TokDiv && ':' !in PeekAt(lines, pos)
    ensures TypeRestAt(lines, pos, typ) == TypeRestAt(lines, pos + 1, typ + " " + Strip(PeekAt(lines, pos)))
  {
  }

  /** Running out of lines inside a type. */
  lemma TypeRestEnd(lines: seq<string>, typ: string)
    ensures TypeRestAt(lines, |lines|, typ).Err?
  {
  }

  /** `parse_local_decl`: the name and type around the first ":" of the
      line, each stripped, and the type's continuation lines. */
  function LocalDeclAt(lines: seq<string>, pos: nat): (r: Result<((string, string), nat), TraceError>)
    requires pos <= |lines|
    ensures r.Ok? ==> pos < r.value.1 <= |lines|
  {
    if pos == |lines| then Err(EndOfFile(pos))
    else
      var ldecl := PeekAt(lines, pos);
      var idx := IndexOfChar(ldecl, ':');
      if idx < 0 then Err(NoColon(ldecl))
      else
        var t := TypeRestAt(lines, pos + 1, Strip(ldecl[idx + 1..]));
        if t.Err? then Err(t.error)
        else Ok(((Strip(ldecl[..idx]), t.value.0), t.value.1))
  }

  /** `parse_local_ctx`: hypotheses, in file order, for as long as the next
      line holds a ":". */
  function LocalCtxAt(lines: seq<string>, pos: nat): (r: Result<(seq<(string, string)>, nat), TraceError>)
    requires pos <= |lines|
    ensures r.Ok? ==> pos <= r.value.1 <= |lines|
    decreases |lines| - pos
  {
    if ':' !in PeekAt(lines, pos) then Ok(([], pos))
    else
      var d := LocalDeclAt(lines, pos);
      if d.Err? then Err(d.error)
      else
        var rest := LocalCtxAt(lines, d.value.1);
        if rest.Err? then rest else Ok(([d.value.0] + rest.value.0, rest.value.1))
  }

  /** The continuation appended to a type: " " and the stripped line, for
      each line from `lo` up to `hi`. */
  function Spaced(lines: seq<string>, lo: nat, hi: nat): string
    requires lo <= hi <= |lines|
    decreases hi - lo
  {
    if lo == hi then "" else " " + Strip(PeekAt(lines, lo)) + Spaced(lines, lo + 1, hi)
  }

  lemma Cat4(a: string, b: string, c: string, d: string)
    ensures a + b + c + d == a + (b + c + d)
  {
  }

  /** The first line of a continuation, moved onto the text before it. */
  lemma SpacedStep(lines: seq<string>, lo: nat, hi: nat, typ: string)
    requires lo < hi <= |lines|
    ensures typ + Spaced(lines, lo, hi) == typ + " " + Strip(PeekAt(lines, lo)) + Spaced(lines, lo + 1, hi)
  {
    Cat4(typ, " ", Strip(PeekAt(lines, lo)), Spaced(lines, lo + 1, hi));
  }

  lemma AppendNone(s: string)
    ensures s + "" == s
  {
  }

  /** A type is its first line's text followed by its continuation lines,
      each after one space. */
  lemma {:induction false} TypeRestSpec(lines: seq<string>, pos: nat, typ: string)
    requires pos <= |lines| && TypeRestAt(lines, pos, typ).Ok?
    ensures TypeRestAt(lines, pos, typ).value.0 == typ + Spaced(lines, pos, TypeRestAt(lines, pos, typ).value.1)
    decreases |lines| - pos
  {
    var line := PeekAt(lines, pos);
    if line == TokDiv || ':' in line {
      AppendNone(typ);
    } else {
      var t := typ + " " + Strip(line);
      TypeRestStep(lines, pos, typ);
      TypeRestSpec(lines, pos + 1, t);
      var q := TypeRestAt(lines, pos + 1, t).value.1;
      SpacedStep(lines, pos, q, typ);
    }
  }

  /** The line that ends a type is the divider or holds a ":". */
  lemma {:induction false} TypeRestStops(lines: seq<string>, pos: nat, typ: string)
    requires pos <= |lines| && TypeRestAt(lines, pos, typ).Ok?
    ensures var q := TypeRestAt(lines, pos, typ).value.1;
      PeekAt(lines, q) == TokDiv || ':' in PeekAt(lines, q)
    decreases |lines| - pos
  {
    var line := PeekAt(lines, pos);
    if !(line == TokDiv || ':' in line) {
      TypeRestStops(lines, pos + 1, typ + " " + Strip(line));
    }
  }

  /** A hypothesis as Coq prints it. */
  function HypLine(name: string, typ: string): string {
    name + " : " + typ
  }

  /** Names and types the printed form reads back: stripped, and free of
      ":". */
  predicate IsHyp(h: (string, string)) {
    IsStripped(h.0) && Lacks(h.0, ':') && IsStripped(h.1) && Lacks(h.1, ':')
  }

  /** The first ":" of a printed hypothesis is the one after its name,
      and stripping either side gives back the name and the type. */
  lemma HypLineSplit(h: (string, string))
    requires IsHyp(h)
    ensures var line := HypLine(h.0, h.1);
      var idx := IndexOfChar(line, ':');
      idx == |h.0| + 1 && Strip(line[..idx]) == h.0 && Strip(line[idx + 1..]) == h.1
  {
    var line := HypLine(h.0, h.1);
    var key := h.0 + " ";
    assert line == key + [':'] + (" " + h.1);
    assert ':' !in key by {
      assert forall k :: 0 <= k < |key| ==> key[k] != ':';
    }
    IndexOfCharAfter(key, ':', " " + h.1);
    assert line[..|key|] == key && line[|key| + 1..] == " " + h.1;
    StripPadded([], h.0, " ");
    assert [] + h.0 + " " == key;
    StripPadded(" ", h.1, []);
    assert " " + h.1 + [] == " " + h.1;
  }

  /** One printed hypothesis, followed by the divider or another
      hypothesis, reads back as itself and consumes its line. */
  lemma LocalDeclRoundTrip(lines: seq<string>, pos: nat, h: (string, string))
    requires pos < |lines| && IsHyp(h) && PeekAt(lines, pos) == HypLine(h.0, h.1)
    requires PeekAt(lines, pos + 1) == TokDiv || ':' in PeekAt(lines, pos + 1)
    ensures Yields(LocalDeclAt(lines, pos), h, pos + 1)
  {
    HypLineSplit(h);
    assert TypeRestAt(lines, pos + 1, h.1) == Ok((h.1, pos + 1));
  }

  lemma HypHasColon(h: (string, string))
    ensures ':' in HypLine(h.0, h.1)
  {
    assert HypLine(h.0, h.1)[|h.0| + 1] == ':';
  }

  lemma DivNoColon()
    ensures ':' !in TokDiv
  {
    assert forall k :: 0 <= k < |TokDiv| ==> TokDiv[k] == '=';
  }

  /** The lines from `pos` print the context `hs`, one hypothesis per
      line, and then the divider. */
  predicate PrintedCtx(lines: seq<string>, pos: nat, hs: seq<(string, string)>)
    decreases |hs|
  {
    if hs == [] then PeekAt(lines, pos) == TokDiv
    else IsHyp(hs[0]) && PeekAt(lines, pos) == HypLine(hs[0].0, hs[0].1) && PrintedCtx(lines, pos + 1, hs[1..])
  }

  /** A printed context's first line is the divider or holds a ":". */
  lemma PrintedCtxNext(lines: seq<string>, pos: nat, hs: seq<(string, string)>)
    requires PrintedCtx(lines, pos, hs)
    ensures PeekAt(lines, pos) == TokDiv || ':' in PeekAt(lines, pos)
  {
    if hs != [] {
      HypHasColon(hs[0]);
    }
  }

  /** One printed hypothesis before a context that reads back. */
  lemma LocalCtxCons(lines: seq<string>, pos: nat, h: (string, string), rest: seq<(string, string)>, q: nat)
    requires pos < |lines| && IsHyp(h) && PeekAt(lines, pos) == HypLine(h.0, h.1)
    requires PeekAt(lines, pos + 1) == TokDiv || ':' in PeekAt(lines, pos + 1)
    requires Yields(LocalCtxAt(lines, pos + 1), rest, q)
    ensures Yields(LocalCtxAt(lines, pos), [h] + rest, q)
  {
    HypHasColon(h);
    LocalDeclRoundTrip(lines, pos, h);
    LocalCtxStep(lines, pos);
  }

  lemma HeadTail<T>(s: seq<T>)
    requires s != []
    ensures [s[0]] + s[1..] == s
  {
  }

  /** A printed context reads back as that context, in order, stopping at
      the divider. */
  lemma {:induction false} LocalCtxRoundTrip(lines: seq<string>, pos: nat, hs: seq<(string, string)>)
    requires pos + |hs| < |lines| && PrintedCtx(lines, pos, hs)
    ensures Yields(LocalCtxAt(lines, pos), hs, pos + |hs|)
    decreases |hs|
  {
    if hs == [] {
      DivNoColon();
    } else {
      PrintedCtxNext(lines, pos + 1, hs[1..]);
      LocalCtxRoundTrip(lines, pos + 1, hs[1..]);
      LocalCtxCons(lines, pos, hs[0], hs[1..], pos + |hs|);
      HeadTail(hs);
    }
  }

  // ---------------------------------------------------------------------
  // Divider, goal and expression indices

  /** `parse_pf_div`: the consumed line must be the divider itself. */
  function PfDivAt(lines: seq<string>, pos: nat): (r: Result<nat, TraceError>)
    requires pos <= |lines|
    ensures r.Ok? <==> pos < |lines| && PeekAt(lines, pos) == TokDiv
    ensures r.Ok? ==> r.value == pos + 1
  {
    var line :- ConsumeAt(lines, pos);
    if line != TokDiv then Err(NotDivider(line)) else Ok(pos + 1)
  }

  /** The goal's remaining lines: each following line is appended as it
      is until one starts with the separator, which is left unread. */
  function GoalRestAt(lines: seq<string>, pos: nat, goal: string): (r: Result<(string, nat), TraceError>)
    requires pos <= |lines|
    ensures r.Ok? ==> pos <= r.value.1 < |lines|
    decreases |lines| - pos
  {
    var line := PeekAt(lines, pos);
    if StartsWith(line, Sep) then Ok((goal, pos))
    else if pos == |lines| then Err(EndOfFile(pos))
    else GoalRestAt(lines, pos + 1, goal + line)
  }

  /** `parse_goal`: the first line is taken whatever it holds. */
  function GoalAt(lines: seq<string>, pos: nat): (r: Result<(string, nat), TraceError>)
    requires pos <= |lines|
    ensures r.Ok? ==> pos < r.value.1 < |lines|
  {
    var g :- ConsumeAt(lines, pos);
    GoalRestAt(lines, pos + 1, g)
  }

  /** The goal is its lines joined without separator, up to the line
      starting with the separator. */
  lemma {:induction false} GoalRestSpec(lines: seq<string>, pos: nat, goal: string)
    requires pos <= |lines| && GoalRestAt(lines, pos, goal).Ok?
    ensures GoalRestAt(lines, pos, goal).value.0 == goal + Concat(lines, pos, GoalRestAt(lines, pos, goal).value.1)
    decreases |lines| - pos
  {
    var line := PeekAt(lines, pos);
    if !StartsWith(line, Sep) {
      GoalRestSpec(lines, pos + 1, goal + line);
      var q := GoalRestAt(lines, pos + 1, goal + line).value.1;
      assert goal + line + Concat(lines, pos + 1, q) == goal + Concat(lines, pos, q);
    }
  }

  /** The goal stops at a line starting with the separator. */
  lemma {:induction false} GoalRestStops(lines: seq<string>, pos: nat, goal: string)
    requires pos <= |lines| && GoalRestAt(lines, pos, goal).Ok?
    ensures StartsWith(PeekAt(lines, GoalRestAt(lines, pos, goal).value.1), Sep)
    decreases |lines| - pos
  {
    if !StartsWith(PeekAt(lines, pos), Sep) {
      GoalRestStops(lines, pos + 1, goal + PeekAt(lines, pos));
    }
  }

  /** Without a separator line below it the goal runs into the end of
      the file. */
  lemma {:induction false} GoalRestUnclosed(lines: seq<string>, pos: nat, goal: string)
    requires pos <= |lines|
    requires forall k :: pos <= k < |lines| ==> !StartsWith(PeekAt(lines, k), Sep)
    ensures GoalRestAt(lines, pos, goal) == Err(EndOfFile(|lines|))
    decreases |lines| - pos
  {
    if pos < |lines| {
      GoalRestUnclosed(lines, pos + 1, goal + PeekAt(lines, pos));
    }
  }

  /** No line the goal takes after its first starts with the separator. */
  lemma {:induction false} GoalRestPasses(lines: seq<string>, pos: nat, goal: string, k: nat)
    requires pos <= |lines| && GoalRestAt(lines, pos, goal).Ok?
    requires pos <= k < GoalRestAt(lines, pos, goal).value.1
    ensures !StartsWith(PeekAt(lines, k), Sep)
    decreases |lines| - pos
  {
    if k > pos {
      GoalRestPasses(lines, pos + 1, goal + PeekAt(lines, pos), k);
    }
  }

  lemma GoalSpec(lines: seq<string>, pos: nat)
    requires pos <= |lines| && GoalAt(lines, pos).Ok?
    ensures GoalAt(lines, pos).value.0 == Concat(lines, pos, GoalAt(lines, pos).value.1)
  {
    var g := PeekAt(lines, pos);
    GoalRestSpec(lines, pos + 1, g);
    var q := GoalAt(lines, pos).value.1;
    assert Concat(lines, pos, q) == g + Concat(lines, pos + 1, q);
  }

  /** `parse_local_ast_ctx`: the line split on "," and stripped, with no
      special case for an empty line. */
  function AstCtxAt(lines: seq<string>, pos: nat): (r: Result<(seq<string>, nat), TraceError>)
    requires pos <= |lines|
    ensures r.Ok? <==> pos < |lines|
    ensures r.Ok? ==> r.value.1 == pos + 1 && |r.value.0| >= 1
  {
    var line :- ConsumeAt(lines, pos);
    Ok((StripAll(Split(line, ",")), pos + 1))
  }

  /** An empty index line reads as one empty index, not as none. */
  lemma AstCtxOfEmptyLine(lines: seq<string>, pos: nat)
    requires pos < |lines| && PeekAt(lines, pos) == ""
    ensures AstCtxAt(lines, pos) == Ok(([""], pos + 1))
  {
    SplitSingle("", ",");
    assert StripAll([""]) == [Strip("")];
    assert Strip("") == "";
  }

  /** `parse_ast_goal` */
  function AstGoalAt(lines: seq<string>, pos: nat): (r: Result<(int, nat), TraceError>)
    requires pos <= |lines|
    ensures r.Ok? <==> pos < |lines| && ParseInt(PeekAt(lines, pos)).Some?
    ensures r.Ok? ==> Some(r.value.0) == ParseInt(PeekAt(lines, pos)) && r.value.1 == pos + 1
  {
    var line :- ConsumeAt(lines, pos);
    var g :- ToInt(line);
    Ok((g, pos + 1))
  }

  // ---------------------------------------------------------------------
  // Declarations as functions of the lines

  /** A solved state: the "ngs=0" line and the line after it. */
  function SolvedAt(lines: seq<string>, pos: nat, st: DeclLexer.TacStStart): (r: Result<(Decl, nat), TraceError>)
    requires pos < |lines|
    ensures r.Ok? ==> pos < r.value.1 <= |lines|
  {
    if pos + 1 == |lines| then Err(EndOfFile(pos + 1))
    else Ok((Decl(Header(st.mode, st.tac, st.kind, "", GidSolved, 0, st.loc, st.callid),
                  [], GoalSolved, [], -1), pos + 2))
  }

  /** The expression indices that close a live state. */
  function AstAt(lines: seq<string>, pos: nat, h: Header, ctx: seq<(string, string)>, goal: string)
    : (r: Result<(Decl, nat), TraceError>)
    requires pos <= |lines|
    ensures r.Ok? ==> pos < r.value.1 <= |lines|
  {
    var a := AstCtxAt(lines, pos);
    if a.Err? then Err(a.error)
    else
      var p := PfDivAt(lines, a.value.1);
      if p.Err? then Err(p.error)
      else
        var g := AstGoalAt(lines, p.value);
        if g.Err? then Err(g.error)
        else Ok((Decl(h, ctx, goal, a.value.0, g.value.0), g.value.1))
  }

  /** The body of a live state: hypotheses, divider, goal, separator line,
      then the expression indices. */
  function BodyAt(lines: seq<string>, pos: nat, h: Header): (r: Result<(Decl, nat), TraceError>)
    requires pos <= |lines|
    ensures r.Ok? ==> pos < r.value.1 <= |lines|
  {
    var c := HypsAt(lines, pos);
    if c.Err? then Err(c.error)
    else
      var g := GoalSepAt(lines, c.value.1);
      if g.Err? then Err(g.error) else AstAt(lines, g.value.1, h, c.value.0, g.value.0)
  }

  /** The goal and the separator line below it, which is skipped. */
  function GoalSepAt(lines: seq<string>, pos: nat): (r: Result<(string, nat), TraceError>)
    requires pos <= |lines|
    ensures r.Ok? ==> pos < r.value.1 <= |lines|
  {
    var g := GoalAt(lines, pos);
    if g.Err? then Err(g.error) else Ok((g.value.0, g.value.1 + 1))
  }

  /** The hypotheses of a live state and the divider below them. */
  function HypsAt(lines: seq<string>, pos: nat): (r: Result<(seq<(string, string)>, nat), TraceError>)
    requires pos <= |lines|
    ensures r.Ok? ==> pos < r.value.1 <= |lines|
  {
    var ctx := LocalCtxAt(lines, pos);
    if ctx.Err? then Err(ctx.error)
    else
      var p := PfDivAt(lines, ctx.value.1);
      if p.Err? then Err(p.error) else Ok((ctx.value.0, p.value))
  }

  /** The header of a live or dead state, read until it has three fields:
      the number of goals, the full tactic and the goal id. */
  function LiveHeaderAt(lines: seq<string>, pos: nat): (r: Result<((int, string, int), nat), TraceError>)
    requires pos < |lines|
    ensures r.Ok? ==> pos < r.value.1 <= |lines|
  {
    var acc := Accumulate(lines, pos + 1, PeekAt(lines, pos), 3);
    if acc.Err? then Err(acc.error)
    else
      var f := DeclLexer.LiveFieldsOf(acc.value.0);
      if f.Err? then Err(f.error) else Ok((f.value, acc.value.1))
  }

  /** The header of a live state with the fields of its `begin(tacst)`
      line. */
  function LiveHeader(st: DeclLexer.TacStStart, fs: (int, string, int)): Header {
    Header(st.mode, st.tac, st.kind, fs.1, fs.2, fs.0, st.loc, st.callid)
  }

  /** A live or dead state: its header, then its body. */
  function LiveAt(lines: seq<string>, pos: nat, st: DeclLexer.TacStStart): (r: Result<(Decl, nat), TraceError>)
    requires pos < |lines|
    ensures r.Ok? ==> pos < r.value.1 <= |lines|
  {
    var hf := LiveHeaderAt(lines, pos);
    if hf.Err? then Err(hf.error) else BodyAt(lines, hf.value.1, LiveHeader(st, hf.value.0))
  }

  /** `parse_decl` as a function of the lines and the position. */
  function DeclAt(lines: seq<string>, pos: nat, st: DeclLexer.TacStStart): (r: Result<(Decl, nat), TraceError>)
    requires pos <= |lines|
    ensures r.Ok? ==> pos < r.value.1 <= |lines|
  {
    var peek := PeekAt(lines, pos);
    if StartsWith(peek, "ngs=0") then SolvedAt(lines, pos, st)
    else if Contains(peek, Sep) then LiveAt(lines, pos, st)
    else Err(UnknownDeclShape(pos, peek))
  }

  /** A solved state consumes exactly two lines and has no open goals, goal
      id `GidSolved`, no full tactic, no hypotheses, the placeholder goal
      and no expression indices. */
  lemma SolvedDeclAt(lines: seq<string>, pos: nat, st: DeclLexer.TacStStart)
    requires pos + 2 <= |lines| && StartsWith(PeekAt(lines, pos), "ngs=0")
    ensures Yields(DeclAt(lines, pos, st), Decl(
      Header(st.mode, st.tac, st.kind, "", GidSolved, 0, st.loc, st.callid),
      [], GoalSolved, [], -1), pos + 2)
  {
  }

  // ---------------------------------------------------------------------
  // Reading through the cursor

  /** The loop of `parse_local_decl` that gathers a type's continuation
      lines. */
  method ReadTypeRest(f: LineFile, typ0: string) returns (r: Result<string, TraceError>)
    requires f.Valid()
    modifies f
    ensures f.Valid()
    ensures r.Ok? <==> TypeRestAt(f.lines, old(f.pos), typ0).Ok?
    ensures r.Ok? ==> Yields(TypeRestAt(f.lines, old(f.pos), typ0), r.value, f.pos)
  {
    ghost var p0 := f.pos;
    var typ := typ0;
    var line := f.PeekLine();
    while line != TokDiv && ':' !in line
      invariant f.Valid() && p0 <= f.pos && line == PeekAt(f.lines, f.pos)
      invariant TypeRestAt(f.lines, f.pos, typ) == TypeRestAt(f.lines, p0, typ0)
      decreases |f.lines| - f.pos
    {
      ghost var q := f.pos;
      ghost var t := typ;
      if q == |f.lines| {
        TypeRestEnd(f.lines, t);
      } else {
        TypeRestStep(f.lines, q, t);
      }
      typ := typ + " " + Strip(line);
      var next := f.AdvanceLine();
      if next.Err? {
        return Err(next.error);
      }
      assert TypeRestAt(f.lines, f.pos, typ) == TypeRestAt(f.lines, q, t);
      line := next.value;
    }
    return Ok(typ);
  }

  /** `parse_local_decl` */
  method ParseLocalDecl(f: LineFile) returns (r: Result<(string, string), TraceError>)
    requires f.Valid()
    modifies f
    ensures f.Valid()
    ensures r.Ok? <==> LocalDeclAt(f.lines, old(f.pos)).Ok?
    ensures r.Ok? ==> Yields(LocalDeclAt(f.lines, old(f.pos)), r.value, f.pos)
  {
    ghost var p0 := f.pos;
    var ldecl :- f.ConsumeLine();
    var idx := IndexOfChar(ldecl, ':');
    if idx < 0 {
      return Err(NoColon(ldecl));
    }
    var typ :- ReadTypeRest(f, Strip(ldecl[idx + 1..]));
    return Ok((Strip(ldecl[..idx]), typ));
  }

  /** `Prepend(hs, r)`: the hypotheses `hs` put before what `r` read. */
  function Prepend(hs: seq<(string, string)>, r: Result<(seq<(string, string)>, nat), TraceError>)
    : Result<(seq<(string, string)>, nat), TraceError>
  {
    if r.Err? then r else Ok((hs + r.value.0, r.value.1))
  }

  /** One hypothesis of a context. */
  lemma LocalCtxStep(lines: seq<string>, pos: nat)
    requires pos <= |lines| && ':' in PeekAt(lines, pos)
    ensures var d := LocalDeclAt(lines, pos);
      LocalCtxAt(lines, pos) == if d.Err? then Err(d.error) else Prepend([d.value.0], LocalCtxAt(lines, d.value.1))
  {
  }

  lemma PrependPrepend(hs: seq<(string, string)>, x: (string, string), r: Result<(seq<(string, string)>, nat), TraceError>)
    ensures Prepend(hs, Prepend([x], r)) == Prepend(hs + [x], r)
  {
    if r.Ok? {
      assert hs + ([x] + r.value.0) == hs + [x] + r.value.0;
    }
  }

  lemma PrependNil(r: Result<(seq<(string, string)>, nat), TraceError>)
    ensures Prepend([], r) == r
  {
    if r.Ok? {
      assert [] + r.value.0 == r.value.0;
    }
  }

  /** `parse_local_ctx` */
  method ParseLocalCtx(f: LineFile) returns (r: Result<seq<(string, string)>, TraceError>)
    requires f.Valid()
    modifies f
    ensures f.Valid()
    ensures r.Ok? <==> LocalCtxAt(f.lines, old(f.pos)).Ok?
    ensures r.Ok? ==> Yields(LocalCtxAt(f.lines, old(f.pos)), r.value, f.pos)
  {
    ghost var p0 := f.pos;
    var hs: seq<(string, string)> := [];
    PrependNil(LocalCtxAt(f.lines, p0));
    while ':' in f.PeekLine()
      invariant f.Valid() && p0 <= f.pos
      invariant LocalCtxAt(f.lines, p0) == Prepend(hs, LocalCtxAt(f.lines, f.pos))
      decreases |f.lines| - f.pos
    {
      ghost var q := f.pos;
      LocalCtxStep(f.lines, q);
      var h := ParseLocalDecl(f);
      if h.Err? {
        return Err(h.error);
      }
      PrependPrepend(hs, h.value, LocalCtxAt(f.lines, f.pos));
      hs := hs + [h.value];
    }
    assert LocalCtxAt(f.lines, f.pos) == Ok(([], f.pos));
    assert hs + [] == hs;
    return Ok(hs);
  }

  /** `parse_pf_div` */
  method ParsePfDiv(f: LineFile) returns (r: Result<(), TraceError>)
    requires f.Valid()
    modifies f
    ensures f.Valid()
    ensures r.Ok? <==> PfDivAt(f.lines, old(f.pos)).Ok?
    ensures r.Ok? ==> f.pos == PfDivAt(f.lines, old(f.pos)).value
  {
    var line :- f.ConsumeLine();
    if line != TokDiv {
      return Err(NotDivider(line));
    }
    return Ok(());
  }

  /** The loop of `parse_goal`. */
  method ReadGoalRest(f: LineFile, goal0: string) returns (r: Result<string, TraceError>)
    requires f.Valid()
    modifies f
    ensures f.Valid()
    ensures r.Ok? <==> GoalRestAt(f.lines, old(f.pos), goal0).Ok?
    ensures r.Ok? ==> Yields(GoalRestAt(f.lines, old(f.pos), goal0), r.value, f.pos)
  {
    ghost var p0 := f.pos;
    var goal := goal0;
    var line := f.PeekLine();
    while !StartsWith(line, Sep)
      invariant f.Valid() && p0 <= f.pos && line == PeekAt(f.lines, f.pos)
      invariant GoalRestAt(f.lines, f.pos, goal) == GoalRestAt(f.lines, p0, goal0)
      decreases |f.lines| - f.pos
    {
      ghost var q := f.pos;
      ghost var g := goal;
      goal := goal + line;
      var next := f.AdvanceLine();
      if next.Err? {
        return Err(next.error);
      }
      assert GoalRestAt(f.lines, f.pos, goal) == GoalRestAt(f.lines, q, g);
      line := next.value;
    }
    return Ok(goal);
  }

  /** `parse_goal` */
  method ParseGoal(f: LineFile) returns (r: Result<string, TraceError>)
    requires f.Valid()
    modifies f
    ensures f.Valid()
    ensures r.Ok? <==> GoalAt(f.lines, old(f.pos)).Ok?
    ensures r.Ok? ==> Yields(GoalAt(f.lines, old(f.pos)), r.value, f.pos)
  {
    var first :- f.ConsumeLine();
    r := ReadGoalRest(f, first);
  }

  /** `parse_local_ast_ctx` */
  method ParseLocalAstCtx(f: LineFile) returns (r: Result<seq<string>, TraceError>)
    requires f.Valid()
    modifies f
    ensures f.Valid()
    ensures r.Ok? <==> AstCtxAt(f.lines, old(f.pos)).Ok?
    ensures r.Ok? ==> Yields(AstCtxAt(f.lines, old(f.pos)), r.value, f.pos)
  {
    var line :- f.ConsumeLine();
    return Ok(StripAll(Split(line, ",")));
  }

  /** `parse_ast_goal` */
  method ParseAstGoal(f: LineFile) returns (r: Result<int, TraceError>)
    requires f.Valid()
    modifies f
    ensures f.Valid()
    ensures r.Ok? <==> AstGoalAt(f.lines, old(f.pos)).Ok?
    ensures r.Ok? ==> Yields(AstGoalAt(f.lines, old(f.pos)), r.value, f.pos)
  {
    var line :- f.ConsumeLine();
    r := ToInt(line);
  }

  /** The last three steps of the live branch of `parse_decl`. */
  method ParseAst(f: LineFile, h: Header, ctx: seq<(string, string)>, goal: string)
      returns (r: Result<Decl, TraceError>)
    requires f.Valid()
    modifies f
    ensures f.Valid()
    ensures r.Ok? <==> AstAt(f.lines, old(f.pos), h, ctx, goal).Ok?
    ensures r.Ok? ==> Yields(AstAt(f.lines, old(f.pos), h, ctx, goal), r.value, f.pos)
  {
    var a :- ParseLocalAstCtx(f);
    var _ :- ParsePfDiv(f);
    var g :- ParseAstGoal(f);
    return Ok(Decl(h, ctx, goal, a, g));
  }

  /** The goal of the live branch of `parse_decl` and the separator
      line after it. */
  method ParseGoalSep(f: LineFile) returns (r: Result<string, TraceError>)
    requires f.Valid()
    modifies f
    ensures f.Valid()
    ensures r.Ok? <==> GoalSepAt(f.lines, old(f.pos)).Ok?
    ensures r.Ok? ==> Yields(GoalSepAt(f.lines, old(f.pos)), r.value, f.pos)
  {
    var goal :- ParseGoal(f);
    var _ := f.ConsumeLine();
    return Ok(goal);
  }

  /** The hypotheses and the divider of the live branch of `parse_decl`. */
  method ParseHyps(f: LineFile) returns (r: Result<seq<(string, string)>, TraceError>)
    requires f.Valid()
    modifies f
    ensures f.Valid()
    ensures r.Ok? <==> HypsAt(f.lines, old(f.pos)).Ok?
    ensures r.Ok? ==> Yields(HypsAt(f.lines, old(f.pos)), r.value, f.pos)
  {
    var ctx :- ParseLocalCtx(f);
    var _ :- ParsePfDiv(f);
    return Ok(ctx);
  }

  /** The live branch of `parse_decl` once the header is read. */
  method ParseBody(f: LineFile, h: Header) returns (r: Result<Decl, TraceError>)
    requires f.Valid()
    modifies f
    ensures f.Valid()
    ensures r.Ok? <==> BodyAt(f.lines, old(f.pos), h).Ok?
    ensures r.Ok? ==> Yields(BodyAt(f.lines, old(f.pos), h), r.value, f.pos)
  {
    var ctx :- ParseHyps(f);
    var goal :- ParseGoalSep(f);
    r := ParseAst(f, h, ctx, goal);
  }

  /** The header steps of the live branch of `parse_decl`. */
  method ParseLiveHeader(f: LineFile) returns (r: Result<(int, string, int), TraceError>)
    requires f.Valid() && f.pos < |f.lines|
    modifies f
    ensures f.Valid()
    ensures r.Ok? <==> LiveHeaderAt(f.lines, old(f.pos)).Ok?
    ensures r.Ok? ==> Yields(LiveHeaderAt(f.lines, old(f.pos)), r.value, f.pos)
  {
    var hdr :- ReadHeader(f, 3);
    r := DeclLexer.LiveFieldsOf(hdr);
  }

  /** The live branch of `parse_decl`. */
  method ParseLive(f: LineFile, st: DeclLexer.TacStStart) returns (r: Result<Decl, TraceError>)
    requires f.Valid() && f.pos < |f.lines|
    modifies f
    ensures f.Valid()
    ensures r.Ok? <==> LiveAt(f.lines, old(f.pos), st).Ok?
    ensures r.Ok? ==> Yields(LiveAt(f.lines, old(f.pos), st), r.value, f.pos)
    ensures r.Ok? ==> old(f.pos) < f.pos
  {
    var fs :- ParseLiveHeader(f);
    r := ParseBody(f, LiveHeader(st, fs));
  }

  /** `parse_decl` */
  method ParseDecl(f: LineFile, st: DeclLexer.TacStStart) returns (r: Result<Decl, TraceError>)
    requires f.Valid()
    modifies f
    ensures f.Valid()
    ensures r.Ok? <==> DeclAt(f.lines, old(f.pos), st).Ok?
    ensures r.Ok? ==> Yields(DeclAt(f.lines, old(f.pos), st), r.value, f.pos)
    ensures r.Ok? ==> old(f.pos) < f.pos
  {
    var peek := f.PeekLine();
    if StartsWith(peek, "ngs=0") {
      DeclLexer.DeclShapeInside(f.lines, f.pos);
      var _ := f.ConsumeLine();
      var _ :- f.ConsumeLine();
      return Ok(Decl(Header(st.mode, st.tac, st.kind, "", GidSolved, 0, st.loc, st.callid),
                     [], GoalSolved, [], -1));
    } else if Contains(peek, Sep) {
      DeclLexer.DeclShapeInside(f.lines, f.pos);
      r := ParseLive(f, st);
    } else {
      r := Err(UnknownDeclShape(f.LineNo(), peek));
    }
  }

  // ---------------------------------------------------------------------
  // Lemmas

  /** The kinds of line `parse_lemma` dispatches on. */
  datatype LineKind =
    | BegPf | EndPf | BegSubPf | EndSubPf | BegTacSt | EndTacSt
    | Typs | Bods | Constrs | Kludge | Unknown

  /** The dispatch of `parse_lemma`, on the raw line less trailing white
      space, tried in the source's order. */
  function KindOf(raw: string): LineKind {
    var l := TrimRight(raw);
    if StartsWith(l, TokBegPf) then BegPf
    else if StartsWith(l, TokEndPf) then EndPf
    else if StartsWith(l, TokBegSubPf) then BegSubPf
    else if StartsWith(l, TokEndSubPf) then EndSubPf
    else if StartsWith(l, TokBegTacSt) then BegTacSt
    else if StartsWith(l, TokEndTacSt) then EndTacSt
    else if StartsWith(l, TokTyps) then Typs
    else if StartsWith(l, TokBods) then Bods
    else if StartsWith(l, TokConstrs) then Constrs
    else if StartsWith(l, TokKludge) then Kludge
    else Unknown
  }

  /** The tokens `parse_lemma` tries, in its order, and the kind of line
      each selects. */
  const Tokens: seq<string> := [TokBegPf, TokEndPf, TokBegSubPf, TokEndSubPf, TokBegTacSt, TokEndTacSt, TokTyps, TokBods, TokConstrs, TokKludge]
  const Kinds: seq<LineKind> := [BegPf, EndPf, BegSubPf, EndSubPf, BegTacSt, EndTacSt, Typs, Bods, Constrs, Kludge]

  /** Each token line reaches its own branch: no token is shadowed by one
      tried before it. */
  lemma KindOfToken(i: nat, rest: string)
    requires i < |Tokens| && (rest == [] || !IsSpace(rest[|rest| - 1]))
    ensures KindOf(Tokens[i] + rest) == Kinds[i]
  {
    var t := Tokens[i];
    DeclLexer.TokenLine(t, rest);
    if i == 1 {
      DeclLexer.NotStartsWith(t + rest, TokBegPf, 0);
    } else if i == 2 {
      DeclLexer.NotStartsWith(t + rest, TokBegPf, 6);
      DeclLexer.NotStartsWith(t + rest, TokEndPf, 0);
    } else if i == 3 {
      DeclLexer.NotStartsWith(t + rest, TokBegPf, 0);
      DeclLexer.NotStartsWith(t + rest, TokEndPf, 4);
      DeclLexer.NotStartsWith(t + rest, TokBegSubPf, 0);
    } else if i == 4 {
      DeclLexer.NotStartsWith(t + rest, TokBegPf, 6);
      DeclLexer.NotStartsWith(t + rest, TokEndPf, 0);
      DeclLexer.NotStartsWith(t + rest, TokBegSubPf, 6);
      DeclLexer.NotStartsWith(t + rest, TokEndSubPf, 0);
    } else if i == 5 {
      DeclLexer.NotStartsWith(t + rest, TokBegPf, 0);
      DeclLexer.NotStartsWith(t + rest, TokEndPf, 4);
      DeclLexer.NotStartsWith(t + rest, TokBegSubPf, 0);
      DeclLexer.NotStartsWith(t + rest, TokEndSubPf, 4);
      DeclLexer.NotStartsWith(t + rest, TokBegTacSt, 0);
    } else if i == 6 {
      DeclLexer.NotStartsWith(t + rest, TokBegPf, 0);
      DeclLexer.NotStartsWith(t + rest, TokEndPf, 0);
      DeclLexer.NotStartsWith(t + rest, TokBegSubPf, 0);
      DeclLexer.NotStartsWith(t + rest, TokEndSubPf, 0);
      DeclLexer.NotStartsWith(t + rest, TokBegTacSt, 0);
      DeclLexer.NotStartsWith(t + rest, TokEndTacSt, 0);
    } else if i == 7 {
      DeclLexer.NotStartsWith(t + rest, TokBegPf, 0);
      DeclLexer.NotStartsWith(t + rest, TokEndPf, 0);
      DeclLexer.NotStartsWith(t + rest, TokBegSubPf, 0);
      DeclLexer.NotStartsWith(t + rest, TokEndSubPf, 0);
      DeclLexer.NotStartsWith(t + rest, TokBegTacSt, 0);
      DeclLexer.NotStartsWith(t + rest, TokEndTacSt, 0);
      DeclLexer.NotStartsWith(t + rest, TokTyps, 0);
    } else if i == 8 {
      DeclLexer.NotStartsWith(t + rest, TokBegPf, 0);
      DeclLexer.NotStartsWith(t + rest, TokEndPf, 0);
      DeclLexer.NotStartsWith(t + rest, TokBegSubPf, 0);
      DeclLexer.NotStartsWith(t + rest, TokEndSubPf, 0);
      DeclLexer.NotStartsWith(t + rest, TokBegTacSt, 0);
      DeclLexer.NotStartsWith(t + rest, TokEndTacSt, 0);
      DeclLexer.NotStartsWith(t + rest, TokTyps, 0);
      DeclLexer.NotStartsWith(t + rest, TokBods, 0);
    } else if i == 9 {
      DeclLexer.NotStartsWith(t + rest, TokBegPf, 0);
      DeclLexer.NotStartsWith(t + rest, TokEndPf, 0);
      DeclLexer.NotStartsWith(t + rest, TokBegSubPf, 0);
      DeclLexer.NotStartsWith(t + rest, TokEndSubPf, 0);
      DeclLexer.NotStartsWith(t + rest, TokBegTacSt, 0);
      DeclLexer.NotStartsWith(t + rest, TokEndTacSt, 0);
      DeclLexer.NotStartsWith(t + rest, TokTyps, 0);
      DeclLexer.NotStartsWith(t + rest, TokBods, 0);
      DeclLexer.NotStartsWith(t + rest, TokConstrs, 0);
    }
  }

  /** Line `k` is a `begin(pf)` line naming `name`. */
  predicate OpensLemma(lines: seq<string>, k: nat, name: string) {
    k < |lines| && KindOf(lines[k]) == BegPf && DeclLexer.LemmaNameOf(PeekAt(lines, k)) == Ok(name)
  }

  /** Line `k - 1` is an `end(pf)` line. */
  predicate ClosesLemma(lines: seq<string>, k: nat) {
    0 < k <= |lines| && KindOf(lines[k - 1]) == EndPf
  }

  /** What `parse_lemma` reads and writes: the declarations, the three
      tables, the lemmas recorded so far and whether `decls` is the very
      list the last recorded lemma holds. The `end(pf)` branch hands the
      list itself to the lemma and only a `begin(pf)` replaces it, so
      until then a declaration appended to `decls` is appended to that
      lemma's declarations as well. */
  datatype LexState = LexState(
    decls: seq<Decl>, typs: map<string, string>, bods: map<string, string>, constrs: map<string, string>,
    lems: seq<Lemma>, shared: bool)

  /** A shared list is the last lemma's. */
  predicate Coherent(s: LexState) {
    s.shared ==> s.lems != [] && s.lems[|s.lems| - 1].decls == s.decls
  }

  /** `self.decls += [decl]`: the list grows in place, and with it the
      last lemma's declarations when that lemma holds the list. */
  function AddDecl(s: LexState, d: Decl): LexState {
    var ds := s.decls + [d];
    if s.shared && s.lems != [] then
      s.(decls := ds, lems := s.lems[..|s.lems| - 1] + [s.lems[|s.lems| - 1].(decls := ds)])
    else s.(decls := ds)
  }

  /** A `begin(tacst)` block at `pos`: the six-field header, then the
      declaration it introduces. */
  function TacStDeclAt(lines: seq<string>, pos: nat): (r: Result<(Decl, nat), TraceError>)
    requires pos < |lines|
    ensures r.Ok? ==> pos < r.value.1 <= |lines|
  {
    var h :- Accumulate(lines, pos + 1, PeekAt(lines, pos), 6);
    var st :- DeclLexer.TacStStartOf(h.0);
    DeclAt(lines, h.1, st)
  }

  /** One line of `parse_lemma` other than `end(pf)` and an unknown line:
      the name a `begin(pf)` line opens, the state after the line and the
      position after what it read. */
  function LineAt(lines: seq<string>, pos: nat, kind: LineKind, s: LexState): (r: Result<(Option<string>, LexState, nat), TraceError>)
    requires pos < |lines| && KindOf(lines[pos]) == kind && kind != EndPf && kind != Unknown
    ensures r.Ok? ==> pos < r.value.2 <= |lines|
    ensures r.Ok? && r.value.0.Some? ==> OpensLemma(lines, pos, r.value.0.value)
  {
    match kind
    case BegPf =>
      var n :- DeclLexer.LemmaNameOf(PeekAt(lines, pos));
      Ok((Some(n), s.(decls := [], shared := false), pos + 1))
    case BegTacSt =>
      var d :- TacStDeclAt(lines, pos);
      Ok((None, AddDecl(s, d.0), d.1))
    case Typs =>
      var t :- SectionEntriesAt(lines, pos, TokBods);
      Ok((None, s.(typs := InsertAll(s.typs, t.0)), t.1))
    case Bods =>
      var t :- SectionEntriesAt(lines, pos, TokConstrs);
      Ok((None, s.(bods := InsertAll(s.bods, t.0)), t.1))
    case Constrs =>
      var t :- SectionEntriesAt(lines, pos, TokEndPf);
      Ok((None, s.(constrs := InsertAll(s.constrs, t.0)), t.1))
    case BegSubPf | EndSubPf | EndTacSt | Kludge => Ok((None, s, pos + 1))
  }

  /** The `end(pf)` branch: the lemma named by the `begin(pf)` of this
      call, holding the declaration list and the tables, and the state
      after it, which empties the tables and still holds the list. */
  function CloseAt(name: Option<string>, s: LexState): (r: Result<(Lemma, LexState), TraceError>)
    ensures r.Err? <==> name.None?
    ensures r.Ok? ==> Coherent(r.value.1) && r.value.1.lems == s.lems + [r.value.0]
  {
    if name.None? then Err(NoOpenLemma)
    else
      var lem := Lemma(name.value, s.decls, s.typs, s.bods, s.constrs);
      Ok((lem, LexState(s.decls, map[], map[], map[], s.lems + [lem], true)))
  }

  /** Where `parse_lemma` stops: after the `end(pf)` line at `end - 1`,
      with the lemma it closes and the state after it, or at the end of
      the file, with the state it has built. */
  datatype LemmaEnd = Closed(closed: Lemma, end: nat, after: LexState) | Ended(state: LexState)

  /** `parse_lemma` from `pos` with `name` the lemma name read so far in
      this call and the state `s`: the loop stops at the end of the
      file. */
  function LemmaFrom(lines: seq<string>, pos: nat, name: Option<string>, s: LexState): (r: Result<LemmaEnd, TraceError>)
    requires pos <= |lines|
    ensures r.Ok? && r.value.Closed? ==> pos < r.value.end <= |lines|
    decreases |lines| - pos, 1
  {
    if pos == |lines| then Ok(Ended(s)) else LineFrom(lines, pos, name, s)
  }

  /** One pass of the loop of `parse_lemma` at the line `pos`, then the
      rest of the loop. */
  function LineFrom(lines: seq<string>, pos: nat, name: Option<string>, s: LexState): (r: Result<LemmaEnd, TraceError>)
    requires pos < |lines|
    ensures r.Ok? && r.value.Closed? ==> pos < r.value.end <= |lines|
    decreases |lines| - pos, 0
  {
    var k := KindOf(lines[pos]);
    if k == EndPf then
      var c :- CloseAt(name, s);
      Ok(Closed(c.0, pos + 1, c.1))
    else if k == Unknown then Err(UnknownLine(pos, PeekAt(lines, pos)))
    else
      var l :- LineAt(lines, pos, k, s);
      LemmaFrom(lines, l.2, if l.0.Some? then l.0 else name, l.1)
  }

  /** `parse_file` from `pos` with the state `s`: the state once every
      lemma to the end of the file is read. */
  function FileFrom(lines: seq<string>, pos: nat, s: LexState): Result<LexState, TraceError>
    requires pos <= |lines|
    decreases |lines| - pos
  {
    if pos == |lines| then Ok(s)
    else
      var e :- LemmaFrom(lines, pos, None, s);
      match e
      case Ended(t) => Ok(t)
      case Closed(_, end, t) => FileFrom(lines, end, t)
  }

  /** `later` holds the lemmas of `earlier` in order, then more; the last
      of `earlier` may have gained declarations at its end when `shared`. */
  predicate Extends(earlier: seq<Lemma>, later: seq<Lemma>, shared: bool) {
    && |earlier| <= |later|
    && (forall i :: 0 <= i < |earlier| - 1 ==> later[i] == earlier[i])
    && (earlier != [] ==> Grown(earlier[|earlier| - 1], later[|earlier| - 1], shared))
  }

  /** `b` is `a`, or, when `shared`, `a` with declarations appended. */
  predicate Grown(a: Lemma, b: Lemma, shared: bool) {
    if shared then
      && b.name == a.name && b.typs == a.typs && b.bods == a.bods && b.constrs == a.constrs
      && |a.decls| <= |b.decls| && b.decls[..|a.decls|] == a.decls
    else b == a
  }

  lemma GrownTrans(a: Lemma, b: Lemma, c: Lemma, sh: bool, sh': bool)
    requires Grown(a, b, sh) && Grown(b, c, sh') && (sh' ==> sh)
    ensures Grown(a, c, sh)
  {
    if sh && sh' {
      assert c.decls[..|a.decls|] == c.decls[..|b.decls|][..|a.decls|];
    }
  }

  /** Joining two extensions: the first added a lemma, so only that one
      can grow in the second. */
  lemma ExtendsTrans(a: seq<Lemma>, b: seq<Lemma>, c: seq<Lemma>, sh: bool, sh': bool)
    requires Extends(a, b, sh) && Extends(b, c, sh') && |a| < |b|
    ensures Extends(a, c, sh)
  {
    if a != [] {
      assert Grown(b[|a| - 1], c[|a| - 1], false);
      GrownTrans(a[|a| - 1], b[|a| - 1], c[|a| - 1], sh, false);
    }
  }

  lemma ExtendsRefl(a: seq<Lemma>, sh: bool)
    ensures Extends(a, a, sh)
  {
    if a != [] && sh {
      assert a[|a| - 1].decls[..|a[|a| - 1].decls|] == a[|a| - 1].decls;
    }
  }

  /** Appending a declaration keeps the state coherent and grows the last
      lemma only while it holds the list. */
  lemma AddDeclKeeps(s: LexState, d: Decl)
    requires Coherent(s)
    ensures var t := AddDecl(s, d);
      Coherent(t) && |t.lems| == |s.lems| && Extends(s.lems, t.lems, s.shared) && t.shared == s.shared
  {
    var t := AddDecl(s, d);
    if s.shared {
      assert t.lems[|s.lems| - 1].decls[..|s.decls|] == s.decls;
    } else {
      ExtendsRefl(s.lems, false);
    }
  }

  /** A line read keeps the state coherent and only grows the last lemma,
      and only while it holds the list. */
  lemma LineAtKeeps(lines: seq<string>, pos: nat, kind: LineKind, s: LexState)
    requires pos < |lines| && KindOf(lines[pos]) == kind && kind != EndPf && kind != Unknown
    requires Coherent(s) && LineAt(lines, pos, kind, s).Ok?
    ensures var t := LineAt(lines, pos, kind, s).value.1;
      Coherent(t) && |t.lems| == |s.lems| && Extends(s.lems, t.lems, s.shared) && (t.shared ==> s.shared)
  {
    if kind == BegTacSt {
      AddDeclKeeps(s, TacStDeclAt(lines, pos).value.0);
    } else {
      ExtendsRefl(s.lems, s.shared);
    }
  }

  /** What a line other than `end(pf)` does to the declarations and the
      lemmas: a `begin(pf)` names a lemma and starts a new list, a
      `begin(tacst)` appends one declaration, and the other lines keep
      both. */
  lemma LineAtFacts(lines: seq<string>, pos: nat, kind: LineKind, s: LexState)
    requires pos < |lines| && KindOf(lines[pos]) == kind && kind != EndPf && kind != Unknown
    requires LineAt(lines, pos, kind, s).Ok?
    ensures var l := LineAt(lines, pos, kind, s).value;
      && (l.0.Some? <==> kind == BegPf)
      && (kind == BegPf ==> l.1.decls == [] && !l.1.shared)
      && (kind == BegTacSt ==> |l.1.decls| == |s.decls| + 1 && l.1.decls[..|s.decls|] == s.decls && l.1.shared == s.shared)
      && (kind != BegPf && kind != BegTacSt ==> l.1.decls == s.decls && l.1.lems == s.lems)
  {
    if kind == BegTacSt {
      var l := LineAt(lines, pos, kind, s).value;
      assert l.1.decls[..|s.decls|] == s.decls;
    }
  }

  /** What `parse_lemma`, started from the state `s`, keeps of it when
      it stops at `e`: the state stays coherent. A lemma it closes is
      added after the lemmas recorded before, of which only the last can
      have grown, and only while it held the list; the lemma is the last
      one recorded and holds the declaration list, and the tables are
      emptied. When the file ends first no lemma is added. */
  predicate Kept(lines: seq<string>, s: LexState, e: LemmaEnd) {
    && (e.Closed? ==>
      && ClosesLemma(lines, e.end) && Coherent(e.after)
      && |e.after.lems| == |s.lems| + 1 && e.after.lems[|s.lems|] == e.closed
      && Extends(s.lems, e.after.lems[..|s.lems|], s.shared)
      && e.after.decls == e.closed.decls && e.after.shared
      && e.after.typs == map[] && e.after.bods == map[] && e.after.constrs == map[])
    && (e.Ended? ==> Coherent(e.state) && |e.state.lems| == |s.lems| && Extends(s.lems, e.state.lems, s.shared))
  }

  /** `parse_lemma` keeps what `Kept` says. */
  lemma {:induction false} LemmaFromKeeps(lines: seq<string>, pos: nat, name: Option<string>, s: LexState)
    requires pos <= |lines| && Coherent(s) && LemmaFrom(lines, pos, name, s).Ok?
    ensures Kept(lines, s, LemmaFrom(lines, pos, name, s).value)
    decreases |lines| - pos, 1
  {
    if pos == |lines| {
      ExtendsRefl(s.lems, s.shared);
    } else {
      LineFromKeeps(lines, pos, name, s);
    }
  }

  /** One line of `parse_lemma`, then the rest, keeps what `Kept` says. */
  lemma {:induction false} LineFromKeeps(lines: seq<string>, pos: nat, name: Option<string>, s: LexState)
    requires pos < |lines| && Coherent(s) && LineFrom(lines, pos, name, s).Ok?
    ensures Kept(lines, s, LineFrom(lines, pos, name, s).value)
    decreases |lines| - pos, 0
  {
    var k := KindOf(lines[pos]);
    if k == EndPf {
      var c := CloseAt(name, s).value;
      assert c.1.lems[..|s.lems|] == s.lems;
      ExtendsRefl(s.lems, s.shared);
    } else {
      var l := LineAt(lines, pos, k, s).value;
      var name' := if l.0.Some? then l.0 else name;
      LineAtKeeps(lines, pos, k, s);
      LemmaFromKeeps(lines, l.2, name', l.1);
      var e := LemmaFrom(lines, l.2, name', l.1).value;
      var ls := if e.Closed? then e.after.lems[..|s.lems|] else e.state.lems;
      ExtendsSame(s.lems, l.1.lems, ls, s.shared, l.1.shared);
    }
  }

  /** Joining two extensions that add no lemma. */
  lemma ExtendsSame(a: seq<Lemma>, b: seq<Lemma>, c: seq<Lemma>, sh: bool, sh': bool)
    requires Extends(a, b, sh) && Extends(b, c, sh') && |a| == |b| && (sh' ==> sh)
    ensures Extends(a, c, sh)
  {
    if a != [] {
      GrownTrans(a[|a| - 1], b[|a| - 1], c[|a| - 1], sh, sh');
    }
  }

  /** The lemma closed is named by a `begin(pf)` line read on the way,
      when a name read before `pos` was read at `openAt`. */
  lemma {:induction false} LemmaFromOpens(lines: seq<string>, p0: nat, pos: nat, name: Option<string>, openAt: nat, s: LexState)
    requires p0 <= pos <= |lines|
    requires name.Some? ==> p0 <= openAt < pos && OpensLemma(lines, openAt, name.value)
    requires LemmaFrom(lines, pos, name, s).Ok? && LemmaFrom(lines, pos, name, s).value.Closed?
    ensures var e := LemmaFrom(lines, pos, name, s).value;
      exists k :: p0 <= k < e.end && OpensLemma(lines, k, e.closed.name)
    decreases |lines| - pos
  {
    var k := KindOf(lines[pos]);
    if k == EndPf {
      assert p0 <= openAt < pos + 1;
    } else {
      var l := LineAt(lines, pos, KindOf(lines[pos]), s).value;
      if l.0.Some? {
        LemmaFromOpens(lines, p0, l.2, l.0, pos, l.1);
      } else {
        LemmaFromOpens(lines, p0, l.2, name, openAt, l.1);
      }
    }
  }

  /** What `LemmaFromKeeps` and `LemmaFromOpens` say of a lemma closed by
      a call of `parse_lemma` that starts at `p0`. */
  lemma ClosedFacts(lines: seq<string>, p0: nat, s0: LexState, e: LemmaEnd)
    requires p0 <= |lines| && Coherent(s0) && LemmaFrom(lines, p0, None, s0) == Ok(e) && e.Closed?
    ensures p0 < e.end && ClosesLemma(lines, e.end)
    ensures exists k :: p0 <= k < e.end && OpensLemma(lines, k, e.closed.name)
    ensures Coherent(e.after) && |e.after.lems| == |s0.lems| + 1 && e.after.lems[|s0.lems|] == e.closed
    ensures Extends(s0.lems, e.after.lems[..|s0.lems|], s0.shared)
  {
    LemmaFromKeeps(lines, p0, None, s0);
    LemmaFromOpens(lines, p0, p0, None, 0, s0);
  }

  /** `parse_file` keeps the state coherent and the lemmas recorded
      before, of which only the last can grow, and only while it holds
      the declaration list. */
  lemma {:induction false} FileFromKeeps(lines: seq<string>, pos: nat, s: LexState)
    requires pos <= |lines| && Coherent(s) && FileFrom(lines, pos, s).Ok?
    ensures Coherent(FileFrom(lines, pos, s).value)
    ensures Extends(s.lems, FileFrom(lines, pos, s).value.lems, s.shared)
    decreases |lines| - pos
  {
    if pos == |lines| {
      ExtendsRefl(s.lems, s.shared);
    } else {
      LemmaFromKeeps(lines, pos, None, s);
      var e := LemmaFrom(lines, pos, None, s).value;
      if e.Closed? {
        FileFromKeeps(lines, e.end, e.after);
        var t := FileFrom(lines, e.end, e.after).value;
        ExtendsPush(s.lems, e.after.lems, s.shared);
        ExtendsTrans(s.lems, e.after.lems, t.lems, s.shared, true);
      }
    }
  }

  /** A lemma added after an extension that added none. */
  lemma ExtendsPush(a: seq<Lemma>, b: seq<Lemma>, sh: bool)
    requires |b| == |a| + 1 && Extends(a, b[..|a|], sh)
    ensures Extends(a, b, sh)
  {
  }

  /** `TacStParser` of the older lexer: a cursor over the trace plus the
      state of the lemma being read. `shared` is whether `decls` is the
      list the last of `lems` holds. */
  class TacStParser {
    const file: LineFile
    var exhausted: bool
    var decls: seq<Decl>
    var typsTable: map<string, string>
    var bodsTable: map<string, string>
    var constrsTable: map<string, string>
    var lems: seq<Lemma>
    var shared: bool

    ghost predicate Valid()
      reads this, file
    {
      file.Valid() && (shared ==> lems != [] && lems[|lems| - 1].decls == decls)
    }

    function StateOf(): LexState
      reads this
    {
      LexState(decls, typsTable, bodsTable, constrsTable, lems, shared)
    }

    /** The three tables are empty, as between lemmas. */
    predicate TablesClear()
      reads this
    {
      typsTable == map[] && bodsTable == map[] && constrsTable == map[]
    }

    constructor (text: seq<string>)
      requires forall k :: 0 <= k < |text| ==> text[k] != ""
      ensures Valid() && fresh(file) && file.lines == text && file.pos == 0
      ensures !exhausted && decls == [] && TablesClear() && lems == [] && !shared
    {
      file := new LineFile(text);
      exhausted := false;
      decls := [];
      typsTable, bodsTable, constrsTable := map[], map[], map[];
      lems := [];
      shared := false;
    }

    /** `parse_begin_pf`: the lemma's name, the third field. */
    method ParseBeginPf() returns (r: Result<string, TraceError>)
      requires Valid()
      modifies file
      ensures Valid()
      ensures old(file.pos) == |file.lines| ==> r.Err?
      ensures old(file.pos) < |file.lines| ==>
        r == DeclLexer.LemmaNameOf(PeekAt(file.lines, old(file.pos))) && file.pos == old(file.pos) + 1
    {
      var line :- file.ConsumeLine();
      r := DeclLexer.LemmaNameOf(line);
    }

    /** `parse_begtacst`: a header of six fields, possibly over several
        lines. */
    method ParseBegTacSt() returns (r: Result<DeclLexer.TacStStart, TraceError>)
      requires Valid()
      modifies file
      ensures Valid()
      ensures old(file.pos) == |file.lines| ==> r.Err?
      ensures old(file.pos) < |file.lines| ==>
        var acc := Accumulate(file.lines, old(file.pos) + 1, PeekAt(file.lines, old(file.pos)), 6);
        (r.Ok? <==> acc.Ok? && DeclLexer.TacStStartOf(acc.value.0).Ok?)
        && (r.Ok? ==> r.value == DeclLexer.TacStStartOf(acc.value.0).value && file.pos == acc.value.1)
    {
      var hdr :- ReadHeader(file, 6);
      r := DeclLexer.TacStStartOf(hdr);
    }

    /** `parse_typs_table`: entries up to the `Bods` line, kept as text. */
    method ParseTypsTable() returns (r: Result<(), TraceError>)
      requires Valid()
      modifies file, this`typsTable
      ensures Valid()
      ensures r.Ok? <==> SectionEntriesAt(file.lines, old(file.pos), TokBods).Ok?
      ensures r.Ok? ==> var t := SectionEntriesAt(file.lines, old(file.pos), TokBods).value;
        file.pos == t.1 && typsTable == InsertAll(old(typsTable), t.0)
    {
      var es :- ReadSection(file, TokBods);
      typsTable := InsertAll(typsTable, es);
      return Ok(());
    }

    /** `parse_bods_table`: entries up to the `Constrs` line. */
    method ParseBodsTable() returns (r: Result<(), TraceError>)
      requires Valid()
      modifies file, this`bodsTable
      ensures Valid()
      ensures r.Ok? <==> SectionEntriesAt(file.lines, old(file.pos), TokConstrs).Ok?
      ensures r.Ok? ==> var t := SectionEntriesAt(file.lines, old(file.pos), TokConstrs).value;
        file.pos == t.1 && bodsTable == InsertAll(old(bodsTable), t.0)
    {
      var es :- ReadSection(file, TokConstrs);
      bodsTable := InsertAll(bodsTable, es);
      return Ok(());
    }

    /** `parse_constrs_table`: entries up to the `end(pf)` line. */
    method ParseConstrsTable() returns (r: Result<(), TraceError>)
      requires Valid()
      modifies file, this`constrsTable
      ensures Valid()
      ensures r.Ok? <==> SectionEntriesAt(file.lines, old(file.pos), TokEndPf).Ok?
      ensures r.Ok? ==> var t := SectionEntriesAt(file.lines, old(file.pos), TokEndPf).value;
        file.pos == t.1 && constrsTable == InsertAll(old(constrsTable), t.0)
    {
      var es :- ReadSection(file, TokEndPf);
      constrsTable := InsertAll(constrsTable, es);
      return Ok(());
    }

    /** The `end(pf)` branch of `parse_lemma`: consumes the line, records
        the lemma under the name of the `begin(pf)` read in this call, and
        empties the tables; the lemma holds the declaration list itself,
        which is kept until the next `begin(pf)`. */
    method CloseLemma(lemName: Option<string>) returns (r: Result<Lemma, TraceError>)
      requires Valid() && file.pos < |file.lines| && !exhausted
      requires KindOf(file.lines[file.pos]) == EndPf
      modifies this, file
      ensures Valid() && file.pos == old(file.pos) + 1 && decls == old(decls)
      ensures ClosesLemma(file.lines, file.pos)
      ensures r.Err? <==> lemName.None?
      ensures r.Err? ==> r.error == NoOpenLemma && StateOf() == old(StateOf()) && !exhausted
      ensures r.Ok? ==>
        && CloseAt(lemName, old(StateOf())) == Ok((r.value, StateOf()))
        && r.value == Lemma(lemName.value, old(decls), old(typsTable), old(bodsTable), old(constrsTable))
        && lems == old(lems) + [r.value] && shared
        && exhausted == (file.pos == |file.lines|)
        && TablesClear()
    {
      var _ := file.ConsumeLine();
      if lemName.None? {
        return Err(NoOpenLemma);
      }
      var lem := Lemma(lemName.value, decls, typsTable, bodsTable, constrsTable);
      lems := lems + [lem];
      shared := true;
      if file.RawPeekLine() == "" {
        exhausted := true;
      }
      typsTable, bodsTable, constrsTable := map[], map[], map[];
      return Ok(lem);
    }

    /** The `begin(tacst)` branch of `parse_lemma`: the header, then the
        declaration. */
    method ReadTacSt() returns (r: Result<Decl, TraceError>)
      requires Valid() && file.pos < |file.lines|
      modifies file
      ensures Valid()
      ensures r.Ok? <==> TacStDeclAt(file.lines, old(file.pos)).Ok?
      ensures r.Ok? ==> Yields(TacStDeclAt(file.lines, old(file.pos)), r.value, file.pos)
    {
      var st :- ParseBegTacSt();
      r := ParseDecl(file, st);
    }

    /** `self.decls += [decl]`: the list grows, and the last lemma's with
        it while that lemma holds the list. */
    method AppendDecl(d: Decl)
      requires Valid()
      modifies this`decls, this`lems
      ensures Valid() && StateOf() == AddDecl(old(StateOf()), d)
    {
      decls := decls + [d];
      if shared && lems != [] {
        lems := lems[..|lems| - 1] + [lems[|lems| - 1].(decls := decls)];
      }
    }

    /** One line of `parse_lemma` other than `end(pf)` and an unknown line:
        a `begin(pf)` yields the lemma's name and starts a new declaration
        list; a `begin(tacst)` appends a declaration to the list, and so
        to the last lemma while that lemma holds it; the three table
        titles read their tables; `begin(subpf)`, `end(subpf)`,
        `end(tacst)` and the kludge line are consumed. */
    method ParseLemmaLine(kind: LineKind) returns (r: Result<Option<string>, TraceError>)
      requires Valid() && file.pos < |file.lines| && KindOf(file.lines[file.pos]) == kind
      requires kind != EndPf && kind != Unknown
      modifies file, this`decls, this`typsTable, this`bodsTable, this`constrsTable, this`lems, this`shared
      ensures Valid()
      ensures r.Ok? ==> old(file.pos) < file.pos <= |file.lines|
      ensures r.Ok? ==> (r.value.Some? <==> kind == BegPf)
      ensures r.Ok? && r.value.Some? ==> OpensLemma(file.lines, old(file.pos), r.value.value) && decls == [] && !shared
      ensures r.Ok? && kind == BegTacSt ==> |decls| == |old(decls)| + 1 && decls[..|old(decls)|] == old(decls)
      ensures r.Ok? && kind == BegTacSt && old(shared) ==> lems != [] && lems[|lems| - 1].decls == decls
      ensures r.Ok? && kind != BegPf && kind != BegTacSt ==> decls == old(decls) && lems == old(lems)
      ensures Took(r, old(file.pos), kind, old(StateOf()))
    {
      ghost var p0 := file.pos;
      ghost var s0 := StateOf();
      if kind == BegPf {
        r := BeginLemma();
      } else if kind == BegTacSt {
        r := AddTacSt();
      } else if kind == Typs {
        r := ReadTypsLine();
      } else if kind == Bods {
        r := ReadBodsLine();
      } else if kind == Constrs {
        r := ReadConstrsLine();
      } else {
        r := SkipLine(kind);
      }
      if r.Ok? {
        LineAtFacts(file.lines, p0, kind, s0);
      }
    }

    /** This call read the line at `p0` from the state `s0` as `LineAt`
        does. */
    ghost predicate Took(r: Result<Option<string>, TraceError>, p0: nat, kind: LineKind, s0: LexState)
      reads this, file
      requires p0 < |file.lines| && KindOf(file.lines[p0]) == kind && kind != EndPf && kind != Unknown
    {
      var l := LineAt(file.lines, p0, kind, s0);
      && (r.Ok? <==> l.Ok?)
      && (r.Ok? ==> r.value == l.value.0 && StateOf() == l.value.1 && file.pos == l.value.2)
    }

    /** The `begin(pf)` branch: the name, and a new declaration list. */
    method BeginLemma() returns (r: Result<Option<string>, TraceError>)
      requires Valid() && file.pos < |file.lines| && KindOf(file.lines[file.pos]) == BegPf
      modifies file, this`decls, this`shared
      ensures Valid() && Took(r, old(file.pos), BegPf, old(StateOf()))
    {
      var n :- ParseBeginPf();
      decls := [];
      shared := false;
      return Ok(Some(n));
    }

    /** The `begin(tacst)` branch: a declaration appended. */
    method AddTacSt() returns (r: Result<Option<string>, TraceError>)
      requires Valid() && file.pos < |file.lines| && KindOf(file.lines[file.pos]) == BegTacSt
      modifies file, this`decls, this`lems
      ensures Valid() && Took(r, old(file.pos), BegTacSt, old(StateOf()))
    {
      var d :- ReadTacSt();
      AppendDecl(d);
      return Ok(None);
    }

    /** The `Typs` branch: the types table read. */
    method ReadTypsLine() returns (r: Result<Option<string>, TraceError>)
      requires Valid() && file.pos < |file.lines| && KindOf(file.lines[file.pos]) == Typs
      modifies file, this`typsTable
      ensures Valid() && Took(r, old(file.pos), Typs, old(StateOf()))
    {
      var _ :- ParseTypsTable();
      return Ok(None);
    }

    /** The `Bods` branch: the bodies table read. */
    method ReadBodsLine() returns (r: Result<Option<string>, TraceError>)
      requires Valid() && file.pos < |file.lines| && KindOf(file.lines[file.pos]) == Bods
      modifies file, this`bodsTable
      ensures Valid() && Took(r, old(file.pos), Bods, old(StateOf()))
    {
      var _ :- ParseBodsTable();
      return Ok(None);
    }

    /** The `Constrs` branch: the constructors table read. */
    method ReadConstrsLine() returns (r: Result<Option<string>, TraceError>)
      requires Valid() && file.pos < |file.lines| && KindOf(file.lines[file.pos]) == Constrs
      modifies file, this`constrsTable
      ensures Valid() && Took(r, old(file.pos), Constrs, old(StateOf()))
    {
      var _ :- ParseConstrsTable();
      return Ok(None);
    }

    /** `begin(subpf)`, `end(subpf)`, `end(tacst)` and the kludge line:
        consumed. */
    method SkipLine(kind: LineKind) returns (r: Result<Option<string>, TraceError>)
      requires Valid() && file.pos < |file.lines| && KindOf(file.lines[file.pos]) == kind
      requires kind == BegSubPf || kind == EndSubPf || kind == EndTacSt || kind == Kludge
      modifies file
      ensures Valid() && Took(r, old(file.pos), kind, old(StateOf()))
    {
      var _ := file.ConsumeLine();
      return Ok(None);
    }

    /** One pass of the loop of `parse_lemma`, with `name` the lemma name
        read so far in this call: the line at the cursor closes the lemma,
        is rejected, or is read, which may name a lemma; each case is the
        corresponding step of `LemmaFrom`. */
    method LemmaStep(name: Option<string>) returns (r: Result<Option<Lemma>, TraceError>, name': Option<string>)
      requires Valid() && !exhausted && file.pos < |file.lines|
      modifies this, file
      ensures Valid()
      ensures r.Err? ==> LemmaFrom(file.lines, old(file.pos), name, old(StateOf())).Err?
      ensures r.Ok? && r.value.None? ==>
        && old(file.pos) < file.pos && !exhausted
        && LemmaFrom(file.lines, old(file.pos), name, old(StateOf())) == LemmaFrom(file.lines, file.pos, name', StateOf())
      ensures r.Ok? && r.value.Some? ==>
        && LemmaFrom(file.lines, old(file.pos), name, old(StateOf())) == Ok(Closed(r.value.value, file.pos, StateOf()))
        && exhausted == (file.pos == |file.lines|)
    {
      var f := file;
      name' := name;
      var kind := KindOf(f.lines[f.pos]);
      if kind == EndPf {
        var lem := CloseLemma(name);
        if lem.Err? {
          return Err(lem.error), name';
        }
        return Ok(Some(lem.value)), name';
      } else if kind == Unknown {
        return Err(UnknownLine(f.LineNo(), f.PeekLine())), name';
      }
      var n := ParseLemmaLine(kind);
      if n.Err? {
        return Err(n.error), name';
      }
      if n.value.Some? {
        name' := n.value;
      }
      return Ok(None), name';
    }

    /** `parse_lemma`: reads up to the next `end(pf)` and returns the lemma
        it closes; `None` when the file ends first. */
    method ParseLemma() returns (r: Result<Option<Lemma>, TraceError>)
      requires Valid()
      modifies this, file
      ensures Valid()
      ensures old(exhausted) ==> r == Err(AlreadyParsed) && file.pos == old(file.pos)
      ensures !old(exhausted) ==> var e := LemmaFrom(file.lines, old(file.pos), None, old(StateOf()));
        && (r.Ok? <==> e.Ok?)
        && (r.Ok? ==> (r.value.Some? <==> e.value.Closed?))
        && (r.Ok? && r.value.Some? ==> e.value == Closed(r.value.value, file.pos, StateOf()))
        && (r.Ok? && r.value.None? ==> StateOf() == e.value.state)
      ensures r.Ok? && r.value.None? ==>
        file.pos == |file.lines| && !exhausted && |lems| == |old(lems)| && Extends(old(lems), lems, old(shared))
      ensures r.Ok? && r.value.Some? ==> var lem := r.value.value;
        && old(file.pos) < file.pos && ClosesLemma(file.lines, file.pos)
        && (exists k :: old(file.pos) <= k < file.pos && OpensLemma(file.lines, k, lem.name))
        && lem.decls == decls && shared
        && |lems| == |old(lems)| + 1 && lems[|old(lems)|] == lem
        && Extends(old(lems), lems[..|old(lems)|], old(shared))
        && exhausted == (file.pos == |file.lines|)
        && TablesClear()
    {
      if exhausted {
        return Err(AlreadyParsed);
      }
      ghost var p0 := file.pos;
      ghost var s0 := StateOf();
      r := ReadLemma();
      if r.Ok? {
        LemmaFromKeeps(file.lines, p0, None, s0);
      }
      if r.Ok? && r.value.Some? {
        ClosedFacts(file.lines, p0, s0, LemmaFrom(file.lines, p0, None, s0).value);
      }
    }

    /** `parse_lemma` past its `exhausted` guard, which the loop of
        `parse_file` never trips: the loop, as the steps of `LemmaFrom`. */
    method ReadLemma() returns (r: Result<Option<Lemma>, TraceError>)
      requires Valid() && !exhausted
      modifies this, file
      ensures Valid()
      ensures var e := LemmaFrom(file.lines, old(file.pos), None, old(StateOf()));
        && (r.Ok? <==> e.Ok?)
        && (r.Ok? ==> (r.value.Some? <==> e.value.Closed?))
        && (r.Ok? && r.value.Some? ==> e.value == Closed(r.value.value, file.pos, StateOf()))
        && (r.Ok? && r.value.None? ==> StateOf() == e.value.state)
      ensures r.Ok? && r.value.None? ==> file.pos == |file.lines| && !exhausted
      ensures r.Ok? && r.value.Some? ==> exhausted == (file.pos == |file.lines|)
    {
      var f := file;
      ghost var p0 := f.pos;
      ghost var s0 := StateOf();
      var name: Option<string> := None;
      while f.RawPeekLine() != ""
        invariant Valid() && p0 <= f.pos <= |f.lines| && !exhausted
        invariant LemmaFrom(f.lines, f.pos, name, StateOf()) == LemmaFrom(f.lines, p0, None, s0)
        decreases |f.lines| - f.pos
      {
        var step;
        step, name := LemmaStep(name);
        if step.Err? || step.value.Some? {
          return step;
        }
      }
      return Ok(None);
    }

    /** `parse_file`: every lemma of the trace, in order. */
    method ParseFile() returns (r: Result<seq<Lemma>, TraceError>)
      requires Valid()
      modifies this, file
      ensures Valid()
      ensures old(exhausted) ==> r == Err(AlreadyParsed)
      ensures r.Ok? ==> exhausted && file.pos == |file.lines| && r.value == lems
      ensures r.Ok? ==> Extends(old(lems), lems, old(shared))
      ensures !old(exhausted) ==> var t := FileFrom(file.lines, old(file.pos), old(StateOf()));
        (r.Ok? <==> t.Ok?) && (r.Ok? ==> StateOf() == t.value)
    {
      if exhausted {
        return Err(AlreadyParsed);
      }
      ghost var p0 := file.pos;
      ghost var s0 := StateOf();
      r := ReadFile();
      if r.Ok? {
        FileFromKeeps(file.lines, p0, s0);
      }
    }

    /** The loop of `parse_file`, as `FileFrom`. */
    method ReadFile() returns (r: Result<seq<Lemma>, TraceError>)
      requires Valid() && !exhausted
      modifies this, file
      ensures Valid()
      ensures var t := FileFrom(file.lines, old(file.pos), old(StateOf()));
        && (r.Ok? <==> t.Ok?)
        && (r.Ok? ==> StateOf() == t.value && r.value == lems && exhausted && file.pos == |file.lines|)
    {
      var f := file;
      ghost var spec := FileFrom(f.lines, f.pos, StateOf());
      var line := f.RawPeekLine();
      while line != ""
        invariant Valid() && line == f.RawPeekLine() && !exhausted
        invariant FileFrom(f.lines, f.pos, StateOf()) == spec
        decreases |f.lines| - f.pos
      {
        var lem := ReadLemma();
        if lem.Err? {
          return Err(lem.error);
        }
        line := f.RawPeekLine();
        if line == "" {
          break;
        }
      }
      exhausted := true;
      return Ok(lems);
    }
  }
}
