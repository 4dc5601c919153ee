/** The declaration lexer of the reconstruction pipeline: it reads a
    `.dump` trace, one lemma at a time, into tactic-state declarations
    (`TacStDecl`) and the lemma's epilogue tables.

    Format ::= 'bg(pf)' { Decl } Epilogue 'en(pf)'
    Decl   ::= 'bg(ts)' Header Body 'en(ts)'
    Epilogue ::= Typs Bods Constrs PrTyps PrBods PrGls, each a titled list
               of `key: value` lines */
module DeclLexer {
  import opened Wrappers
  import opened Text
  import opened LineCursor
  import opened TraceText

  // ---------------------------------------------------------------------
  // Tokens

  const TokBefore: string := "bf"
  const TokAfter: string := "af"
  const TokAfterErr: string := "dead"
  const TokBegTacSt: string := "bg(ts)"
  const TokEndTacSt: string := "en(ts)"
  const TokBegSubPf: string := "bg(spf)"
  const TokEndSubPf: string := "en(spf)"
  const TokBegPf: string := "bg(pf)"
  const TokEndPf: string := "en(pf)"
  const TokTyps: string := "Typs"
  const TokBods: string := "Bods"
  const TokConstrs: string := "Constrs"
  const TokPrTyps: string := "PrTyps"
  const TokPrBods: string := "PrBods"
  const TokPrGls: string := "PrGls"

  /** The goal id of a solved state and of a failed one. */
  const GidSolved: int := -1
  const GidFailed: int := -2

  /** `is_after`: the declaration was taken after a tactic ran, whether
      it succeeded or failed. */
  predicate IsAfter(mode: string) {
    StartsWith(mode, TokAfter) || StartsWith(mode, TokAfterErr)
  }

  /** The three modes of the trace: only "bf" is a before-declaration. */
  lemma IsAfterModes(rest: string)
    ensures IsAfter(TokAfter + rest) && IsAfter(TokAfterErr + rest)
    ensures !IsAfter(TokBefore + rest)
  {
    assert (TokAfter + rest)[..2] == TokAfter;
    assert (TokAfterErr + rest)[..4] == TokAfterErr;
    assert (TokBefore + rest)[0] == 'b';
  }

  /** `DeclMode` */
  datatype DeclMode = BEFORE | AFTER | DEADEND

  // ---------------------------------------------------------------------
  // Declarations

  /** `TacStHdr`: `mode` keeps the first word of the mode field; a second
      word, when present, is the goal id the after-state belongs to. */
  datatype Header = Header(
    uid: int, mode: string, afgid: Option<int>, tac: string, kind: string,
    ftac: string, gid: int, ngs: int, loc: string)

  /** The mode field: its first word, and the second word read as a goal
      id when there is one. An empty mode is the `IndexError` of the
      source and a second word that is not a numeral its `ValueError`. */
  function ModeFields(mode: string): Result<(string, Option<int>), TraceError> {
    var toks := Words(mode);
    if |toks| == 0 then Err(MissingField(0))
    else if |toks| == 1 then Ok((Strip(toks[0]), None))
    else
      var g :- ToInt(Strip(toks[1]));
      Ok((Strip(toks[0]), Some(g)))
  }

  /** The `TacStHdr` constructor. */
  function MakeHeader(uid: int, mode: string, tac: string, kind: string,
                      ftac: string, gid: int, ngs: int, loc: string): Result<Header, TraceError>
  {
    var m :- ModeFields(mode);
    Ok(Header(uid, m.0, m.1, tac, kind, ftac, gid, ngs, loc))
  }

  lemma WordStripped(w: string)
    requires IsWord(w)
    ensures Strip(w) == w
  {
    StripNoop(w);
  }

  /** A one-word mode has no after-goal. */
  lemma ModeAlone(w: string)
    requires IsWord(w)
    ensures ModeFields(w) == Ok((w, None))
  {
    OneWord(w);
    WordStripped(w);
  }

  lemma ModeWords(w: string, sp: string, g: int)
    requires IsWord(w) && |sp| > 0 && AllSpace(sp)
    ensures Words(w + sp + IntToStr(g)) == [w, IntToStr(g)] && Strip(w) == w
  {
    assert IsWord(IntToStr(g));
    TwoWords(w, sp, IntToStr(g));
    WordStripped(w);
  }

  lemma IntStripped(g: int)
    ensures Strip(IntToStr(g)) == IntToStr(g) && ToInt(IntToStr(g)) == Ok(g)
  {
    assert IsWord(IntToStr(g));
    WordStripped(IntToStr(g));
    IntRoundTrip(g);
  }

  lemma ModeOfWords(m: string, w: string, n: string, g: int)
    requires Words(m) == [w, n] && Strip(w) == w && Strip(n) == n && ToInt(n) == Ok(g)
    ensures ModeFields(m) == Ok((w, Some(g)))
  {
  }

  /** A mode word followed by a goal id reads back as both. */
  lemma ModeWithGoal(w: string, sp: string, g: int)
    requires IsWord(w) && |sp| > 0 && AllSpace(sp)
    ensures ModeFields(w + sp + IntToStr(g)) == Ok((w, Some(g)))
  {
    ModeWords(w, sp, g);
    IntStripped(g);
    ModeOfWords(w + sp + IntToStr(g), w, IntToStr(g), g);
  }

  /** `TacStDecl`, with the pretty-printing tables the lemma's epilogue
      attaches to it. */
  datatype Decl = Decl(
    hdr: Header, ctxIdents: seq<string>, conclIdx: int,
    prTyps: map<string, string>, prBods: map<string, string>, prGls: map<int, string>)

  /** The fields of a `bg(ts)` header line. */
  datatype TacStStart = TacStStart(callid: int, mode: string, tac: string, kind: string, loc: string)

  /** An identifier as the trace prints it in a context line. */
  predicate IsIdent(x: string) {
    IsWord(x) && Lacks(x, ',') && Lacks(x, '{')
  }

  /** The body line of a live declaration: the context identifiers
      (printed innermost first, so they are reversed) and the conclusion's
      expression index. */
  function DeclBodyOf(line: string): Result<(seq<string>, int), TraceError> {
    var toks := Split(line, Sep);
    var idents := Strip(toks[0]);
    var cid :- IntField(toks, 1);
    var ids := if idents == "" then [] else StripAll(Split(idents, ","));
    Ok((Reverse(ids), cid))
  }

  /** An empty identifier field gives an empty context. */
  lemma DeclBodyEmpty(sp: string, cid: int)
    requires AllSpace(sp) && Lacks(sp, '{')
    ensures Yields(DeclBodyOf(sp + Sep + IntToStr(cid)), [], cid)
  {
    var n := IntToStr(cid);
    IntToStrLacks(cid, '{');
    SplitPair(sp, n, Sep);
    StripPadded(sp, [], []);
    assert sp + [] + [] == sp;
    IntRoundTrip(cid);
  }

  lemma IntToStrLacks(i: int, c: char)
    requires !IsDigit(c) && c != '-'
    ensures Lacks(IntToStr(i), c)
  {
    if i < 0 {
      var d := NatToStr(-i);
      assert IntToStr(i) == "-" + d;
      assert forall k :: 0 <= k < |d| ==> IsDigit(d[k]);
    }
  }

  lemma StripAllWords(xs: seq<string>)
    requires forall k :: 0 <= k < |xs| ==> IsWord(xs[k])
    ensures StripAll(xs) == xs
  {
    forall k | 0 <= k < |xs| ensures StripAll(xs)[k] == xs[k] {
      WordStripped(xs[k]);
    }
  }

  lemma JoinFirst(xs: seq<string>, sep: string)
    requires |xs| > 0
    ensures |Join(xs, sep)| >= |xs[0]|
  {
  }

  lemma DeclBodyOfParts(line: string, a: string, n: string, cid: int, ids: seq<string>)
    requires Split(line, Sep) == [a, n] && Strip(a) == a && ParseInt(n) == Some(cid)
    requires ids == if a == "" then [] else StripAll(Split(a, ","))
    ensures Yields(DeclBodyOf(line), Reverse(ids), cid)
  {
  }

  /** The identifiers of a context printed with commas read back. */
  lemma IdentsRoundTrip(rs: seq<string>)
    requires forall k :: 0 <= k < |rs| ==> IsIdent(rs[k])
    ensures NoSpace(Join(rs, ",")) && Lacks(Join(rs, ","), '{')
    ensures (if Join(rs, ",") == "" then [] else StripAll(Split(Join(rs, ","), ","))) == rs
  {
    var a := Join(rs, ",");
    JoinLacks(rs, ",", '{');
    JoinNoSpace(rs, ",");
    if rs == [] {
      assert a == "";
    } else {
      JoinFirst(rs, ",");
      assert a != "";
      assert forall k :: 0 <= k < |rs| ==> Lacks(rs[k], ',');
      SplitJoin(rs, ",");
      StripAllWords(rs);
    }
  }

  /** Identifiers printed innermost first and comma-separated, followed by
      the conclusion index, read back in context order. */
  lemma DeclBodyRoundTrip(xs: seq<string>, cid: int)
    requires forall k :: 0 <= k < |xs| ==> IsIdent(xs[k])
    ensures Yields(DeclBodyOf(Join(Reverse(xs), ",") + Sep + IntToStr(cid)), xs, cid)
  {
    var rs := Reverse(xs);
    assert forall k :: 0 <= k < |rs| ==> IsIdent(rs[k]);
    var a := Join(rs, ",");
    var n := IntToStr(cid);
    IdentsRoundTrip(rs);
    IntToStrLacks(cid, '{');
    SplitPair(a, n, Sep);
    StripNoop(a);
    IntRoundTrip(cid);
    DeclBodyOfParts(a + Sep + n, a, n, cid, rs);
    ReverseReverse(xs);
  }

  /** The three fields of a live header: open goals, full tactic, goal id. */
  function LiveFieldsOf(hdr: string): Result<(int, string, int), TraceError> {
    var toks := Split(hdr, Sep);
    var ngs :- IntField(toks, 0);
    var ftac :- Field(toks, 1);
    var gid :- IntField(toks, 2);
    Ok((ngs, ftac, gid))
  }

  /** The fields of a `bg(ts)` line: call id, mode, tactic, kind, location
      at positions 1 to 5. */
  function TacStStartOf(hdr: string): Result<TacStStart, TraceError> {
    var toks := Split(hdr, Sep);
    var callid :- IntField(toks, 1);
    var mode :- Field(toks, 2);
    var tac :- Field(toks, 3);
    var kind :- Field(toks, 4);
    var loc :- Field(toks, 5);
    Ok(TacStStart(callid, mode, tac, kind, loc))
  }

  /** A header field that survives the round trip: stripped, and free of
      the separator's first character. */
  predicate IsFieldText(s: string) {
    IsStripped(s) && Lacks(s, '{')
  }

  lemma IntFieldText(i: int)
    ensures IsFieldText(IntToStr(i))
  {
    IntToStrLacks(i, '{');
  }

  /** A live header printed on one line reads back as its three fields. */
  lemma LiveFieldsRoundTrip(ngs: int, ftac: string, gid: int)
    requires IsFieldText(ftac)
    ensures LiveFieldsOf(Join([IntToStr(ngs), ftac, IntToStr(gid)], Sep)) == Ok((ngs, ftac, gid))
  {
    var xs := [IntToStr(ngs), ftac, IntToStr(gid)];
    IntFieldText(ngs);
    IntFieldText(gid);
    SplitJoin(xs, Sep);
    StripNoop(ftac);
    IntRoundTrip(ngs);
    IntRoundTrip(gid);
  }

  /** A `bg(ts)` header printed on one line reads back as its fields. */
  lemma TacStStartRoundTrip(lead: string, st: TacStStart)
    requires IsFieldText(lead) && IsFieldText(st.mode) && IsFieldText(st.tac)
    requires IsFieldText(st.kind) && IsFieldText(st.loc)
    ensures TacStStartOf(Join([lead, IntToStr(st.callid), st.mode, st.tac, st.kind, st.loc], Sep)) == Ok(st)
  {
    var xs := [lead, IntToStr(st.callid), st.mode, st.tac, st.kind, st.loc];
    IntFieldText(st.callid);
    SplitJoin(xs, Sep);
    StripNoop(st.mode);
    StripNoop(st.tac);
    StripNoop(st.kind);
    StripNoop(st.loc);
    IntRoundTrip(st.callid);
  }

  const NoPretty: map<string, string> := map[]

  /** A solved state: the "ngs=0" line and the line after it. */
  function SolvedAt(lines: seq<string>, pos: nat, st: TacStStart): (r: Result<(Decl, nat), TraceError>)
    requires pos < |lines|
    ensures r.Ok? ==> pos < r.value.1 <= |lines|
  {
    if pos + 1 == |lines| then Err(EndOfFile(pos + 1))
    else
      var h :- MakeHeader(st.callid, st.mode, st.tac, st.kind, "", GidSolved, 0, st.loc);
      Ok((Decl(h, [], -1, NoPretty, NoPretty, map[]), pos + 2))
  }

  /** A live or dead state: a header read until it has three fields,
      then the body line. */
  function LiveAt(lines: seq<string>, pos: nat, st: TacStStart): (r: Result<(Decl, nat), TraceError>)
    requires pos < |lines|
    ensures r.Ok? ==> pos < r.value.1 <= |lines|
  {
    var acc :- Accumulate(lines, pos + 1, PeekAt(lines, pos), 3);
    var f :- LiveFieldsOf(acc.0);
    var h :- MakeHeader(st.callid, st.mode, st.tac, st.kind, f.1, f.2, f.0, st.loc);
    var body :- ConsumeAt(lines, acc.1);
    var ids :- DeclBodyOf(body);
    Ok((Decl(h, ids.0, ids.1, NoPretty, NoPretty, map[]), acc.1 + 1))
  }

  /** The successful path through `LiveAt`, step by step. */
  lemma LiveAtOk(lines: seq<string>, pos: nat, st: TacStStart, hdr: string, p1: nat,
                 fs: (int, string, int), h: Header, xs: seq<string>, cid: int)
    requires pos < |lines| && Yields(Accumulate(lines, pos + 1, PeekAt(lines, pos), 3), hdr, p1)
    requires LiveFieldsOf(hdr) == Ok(fs)
    requires MakeHeader(st.callid, st.mode, st.tac, st.kind, fs.1, fs.2, fs.0, st.loc) == Ok(h)
    requires p1 < |lines| && Yields(DeclBodyOf(PeekAt(lines, p1)), xs, cid)
    ensures Yields(LiveAt(lines, pos, st), Decl(h, xs, cid, NoPretty, NoPretty, map[]), p1 + 1)
  {
  }

  /** `LiveAt` fails when its header cannot be read. */
  lemma LiveAtNoHeader(lines: seq<string>, pos: nat, st: TacStStart)
    requires pos < |lines| && Accumulate(lines, pos + 1, PeekAt(lines, pos), 3).Err?
    ensures LiveAt(lines, pos, st).Err?
  {
  }

  /** `LiveAt` fails when the header's fields are malformed. */
  lemma LiveAtNoFields(lines: seq<string>, pos: nat, st: TacStStart, hdr: string, p1: nat)
    requires pos < |lines| && Yields(Accumulate(lines, pos + 1, PeekAt(lines, pos), 3), hdr, p1)
    requires var fs := LiveFieldsOf(hdr);
      fs.Err? || MakeHeader(st.callid, st.mode, st.tac, st.kind, fs.value.1, fs.value.2, fs.value.0, st.loc).Err?
    ensures LiveAt(lines, pos, st).Err?
  {
  }

  /** `LiveAt` fails when the line after a well-formed header is missing
      or is not a declaration body. */
  lemma LiveAtNoBody(lines: seq<string>, pos: nat, st: TacStStart, hdr: string, p1: nat,
                     fs: (int, string, int), h: Header)
    requires pos < |lines| && Yields(Accumulate(lines, pos + 1, PeekAt(lines, pos), 3), hdr, p1)
    requires LiveFieldsOf(hdr) == Ok(fs)
    requires MakeHeader(st.callid, st.mode, st.tac, st.kind, fs.1, fs.2, fs.0, st.loc) == Ok(h)
    requires p1 == |lines| || DeclBodyOf(PeekAt(lines, p1)).Err?
    ensures LiveAt(lines, pos, st).Err?
  {
  }

  /** `parse_decl` as a function of the lines and the position: a line
      starting with "ngs=0" opens a solved state; a line holding the
      separator opens a live or dead one; anything else is an error. */
  function DeclAt(lines: seq<string>, pos: nat, st: TacStStart): (r: Result<(Decl, nat), TraceError>)
    requires pos <= |lines|
    ensures r.Ok? ==> pos < r.value.1 <= |lines|
  {
    var peek := PeekAt(lines, pos);
    if StartsWith(peek, "ngs=0") then SolvedAt(lines, pos, st)
    else if Contains(peek, Sep) then LiveAt(lines, pos, st)
    else Err(UnknownDeclShape(pos, peek))
  }

  /** Both shapes of declaration start on a line of the file. */
  lemma DeclShapeInside(lines: seq<string>, pos: nat)
    requires pos <= |lines|
    requires StartsWith(PeekAt(lines, pos), "ngs=0") || Contains(PeekAt(lines, pos), Sep)
    ensures pos < |lines|
  {
  }

  /** A solved state consumes exactly its two lines and has goal id
      `GidSolved`, no open goals, no full tactic, an empty context and no
      conclusion. */
  lemma SolvedDeclAt(lines: seq<string>, pos: nat, st: TacStStart)
    requires pos + 2 <= |lines| && StartsWith(PeekAt(lines, pos), "ngs=0")
    requires IsWord(st.mode)
    ensures Yields(DeclAt(lines, pos, st), Decl(
      Header(st.callid, st.mode, None, st.tac, st.kind, "", GidSolved, 0, st.loc),
      [], -1, NoPretty, NoPretty, map[]), pos + 2)
  {
    ModeAlone(st.mode);
  }

  /** A header line that does not open a solved state. */
  lemma LiveHeaderShape(ngs: int, rest: string)
    ensures !StartsWith(IntToStr(ngs) + Sep + rest, "ngs=0")
    ensures Contains(IntToStr(ngs) + Sep + rest, Sep)
  {
    var n := IntToStr(ngs);
    var peek := n + Sep + rest;
    assert peek[0] == n[0];
    if ngs >= 0 { assert IsDigit(n[0]); } else { assert n[0] == '-'; }
    FirstSep(n, rest);
  }

  /** A header printed on one line is complete and consumes only itself. */
  lemma LiveHeaderOneLine(lines: seq<string>, pos: nat, ngs: int, ftac: string, gid: int)
    requires pos < |lines| && IsFieldText(ftac)
    requires PeekAt(lines, pos) == Join([IntToStr(ngs), ftac, IntToStr(gid)], Sep)
    ensures Yields(Accumulate(lines, pos + 1, PeekAt(lines, pos), 3), PeekAt(lines, pos), pos + 1)
  {
    IntFieldText(ngs);
    IntFieldText(gid);
    SplitJoin([IntToStr(ngs), ftac, IntToStr(gid)], Sep);
    AccumulateOneLine(lines, pos + 1, PeekAt(lines, pos), 3);
  }

  lemma HeaderOfMode(uid: int, w: string, tac: string, kind: string,
                     ftac: string, gid: int, ngs: int, loc: string)
    requires IsWord(w)
    ensures MakeHeader(uid, w, tac, kind, ftac, gid, ngs, loc) == Ok(Header(uid, w, None, tac, kind, ftac, gid, ngs, loc))
  {
    ModeAlone(w);
  }

  /** A live state printed as a one-line header and a body line reads back
      as the declaration printed, consuming those two lines. */
  lemma LiveDeclAt(lines: seq<string>, pos: nat, st: TacStStart,
                   ngs: int, ftac: string, gid: int, xs: seq<string>, cid: int)
    requires pos + 2 <= |lines| && IsWord(st.mode) && IsFieldText(ftac)
    requires forall k :: 0 <= k < |xs| ==> IsIdent(xs[k])
    requires PeekAt(lines, pos) == Join([IntToStr(ngs), ftac, IntToStr(gid)], Sep)
    requires PeekAt(lines, pos + 1) == Join(Reverse(xs), ",") + Sep + IntToStr(cid)
    ensures Yields(DeclAt(lines, pos, st), Decl(
      Header(st.callid, st.mode, None, st.tac, st.kind, ftac, gid, ngs, st.loc),
      xs, cid, NoPretty, NoPretty, map[]), pos + 2)
  {
    var peek := PeekAt(lines, pos);
    assert peek == IntToStr(ngs) + Sep + Join([ftac, IntToStr(gid)], Sep);
    LiveHeaderShape(ngs, Join([ftac, IntToStr(gid)], Sep));
    LiveHeaderOneLine(lines, pos, ngs, ftac, gid);
    LiveFieldsRoundTrip(ngs, ftac, gid);
    var h := Header(st.callid, st.mode, None, st.tac, st.kind, ftac, gid, ngs, st.loc);
    HeaderOfMode(st.callid, st.mode, st.tac, st.kind, ftac, gid, ngs, st.loc);
    DeclBodyRoundTrip(xs, cid);
    LiveAtOk(lines, pos, st, peek, pos + 1, (ngs, ftac, gid), h, xs, cid);
  }

  lemma FirstSep(a: string, rest: string)
    ensures Contains(a + Sep + rest, Sep)
  {
    var s := a + Sep + rest;
    assert s[|a|..|a| + 3] == Sep;
    assert OccursAt(s, Sep, |a|);
    IndexOfSpec(s, Sep);
  }

  // ---------------------------------------------------------------------
  // Epilogue tables

  /** A table whose values are expression indices. */
  function IntValuedAt(lines: seq<string>, pos: nat, stop: string): (r: Result<(seq<(string, int)>, nat), TraceError>)
    requires pos <= |lines| && stop != ""
    ensures r.Ok? ==> pos < r.value.1 < |lines| && StartsWith(PeekAt(lines, r.value.1), stop)
  {
    var s :- SectionEntriesAt(lines, pos, stop);
    var es :- ConvertValues(s.0, ToInt);
    Ok((es, s.1))
  }

  /** A table whose keys are expression or goal indices. */
  function IntKeyedAt(lines: seq<string>, pos: nat, stop: string): (r: Result<(seq<(int, string)>, nat), TraceError>)
    requires pos <= |lines| && stop != ""
    ensures r.Ok? ==> pos < r.value.1 < |lines| && StartsWith(PeekAt(lines, r.value.1), stop)
  {
    var s :- SectionEntriesAt(lines, pos, stop);
    var es :- ConvertKeys(s.0, ToInt);
    Ok((es, s.1))
  }

  /** The six tables of a lemma's epilogue, with their values (or keys)
      converted where the lexer converts them to integers. */
  datatype Epilogue = Epilogue(
    typs: seq<(string, int)>, bods: seq<(string, int)>, constrs: seq<(int, string)>,
    prTyps: seq<(string, string)>, prBods: seq<(string, string)>, prGls: seq<(int, string)>,
    end: nat)

  /** `parse_epilogue` as a function of the lines: the sections come in
      the fixed order Typs, Bods, Constrs, PrTyps, PrBods, PrGls, each
      ending where the next begins, the last at "en(pf)". */
  function EpilogueAt(lines: seq<string>, pos: nat): (r: Result<Epilogue, TraceError>)
    requires pos <= |lines|
    ensures r.Ok? ==> pos + 6 <= r.value.end < |lines| && StartsWith(PeekAt(lines, r.value.end), TokEndPf)
  {
    var t :- IntValuedAt(lines, pos, TokBods);
    var b :- IntValuedAt(lines, t.1, TokConstrs);
    var c :- IntKeyedAt(lines, b.1, TokPrTyps);
    var pt :- SectionEntriesAt(lines, c.1, TokPrBods);
    var pb :- SectionEntriesAt(lines, pt.1, TokPrGls);
    var pg :- IntKeyedAt(lines, pb.1, TokEndPf);
    Ok(Epilogue(t.0, b.0, c.0, pt.0, pb.0, pg.0, pg.1))
  }

  /** The successful path through `EpilogueAt`, table by table. */
  lemma EpilogueOk(lines: seq<string>, p0: nat, p1: nat, p2: nat, p3: nat, p4: nat, p5: nat, p6: nat,
                   typs: seq<(string, int)>, bods: seq<(string, int)>, constrs: seq<(int, string)>,
                   pt: seq<(string, string)>, pb: seq<(string, string)>, pg: seq<(int, string)>)
    requires p0 <= |lines|
    requires Yields(IntValuedAt(lines, p0, TokBods), typs, p1)
    requires Yields(IntValuedAt(lines, p1, TokConstrs), bods, p2)
    requires Yields(IntKeyedAt(lines, p2, TokPrTyps), constrs, p3)
    requires Yields(SectionEntriesAt(lines, p3, TokPrBods), pt, p4)
    requires Yields(SectionEntriesAt(lines, p4, TokPrGls), pb, p5)
    requires Yields(IntKeyedAt(lines, p5, TokEndPf), pg, p6)
    ensures EpilogueAt(lines, p0) == Ok(Epilogue(typs, bods, constrs, pt, pb, pg, p6))
  {
  }

  // ---------------------------------------------------------------------
  // Lemmas

  /** `LemTacSt`: the lemma's name, its declarations, and the tables the
      expression decoder is built from. */
  datatype Lemma = Lemma(
    name: string, decls: seq<Decl>,
    ctxTyps: map<string, int>, ctxBods: map<string, int>, constrShare: map<int, string>)

  /** Attaches the lemma's pretty-printing tables to every declaration. */
  function WithPretty(ds: seq<Decl>, pt: map<string, string>, pb: map<string, string>,
                      pg: map<int, string>): (r: seq<Decl>)
    ensures |r| == |ds|
    ensures forall i :: 0 <= i < |ds| ==>
      r[i] == ds[i].(prTyps := pt, prBods := pb, prGls := pg)
  {
    seq(|ds|, i requires 0 <= i < |ds| => ds[i].(prTyps := pt, prBods := pb, prGls := pg))
  }

  /** The per-goal entry of `get_tacst_info`. */
  datatype TacstInfo = TacstInfo(ctx: map<string, string>, goal: string, idents: seq<string>, conclIdx: int)

  /** The entry for one declaration; a context identifier without a
      pretty type, or a conclusion index without a pretty goal, is the
      `KeyError` of the source. */
  function InfoOf(d: Decl): Result<TacstInfo, TraceError> {
    if HasInfo(d) then Ok(InfoValue(d)) else Err(MissingKey)
  }

  /** Every context identifier has a pretty type and the conclusion, if
      any, a pretty goal. */
  predicate HasInfo(d: Decl) {
    (forall x :: x in d.ctxIdents ==> x in d.prTyps) && (d.conclIdx == -1 || d.conclIdx in d.prGls)
  }

  /** The context of `get_tacst_info`: each identifier, in order, mapped
      to its pretty type. */
  function CtxOf(xs: seq<string>, pt: map<string, string>): map<string, string>
    requires forall x :: x in xs ==> x in pt
  {
    if xs == [] then map[]
    else CtxOf(xs[..|xs| - 1], pt)[xs[|xs| - 1] := pt[xs[|xs| - 1]]]
  }

  lemma {:induction false} CtxOfSpec(xs: seq<string>, pt: map<string, string>)
    requires forall x :: x in xs ==> x in pt
    ensures CtxOf(xs, pt).Keys == set x | x in xs
    ensures forall x :: x in xs ==> CtxOf(xs, pt)[x] == pt[x]
  {
    if xs != [] {
      var init := xs[..|xs| - 1];
      assert forall x :: x in init ==> x in xs;
      CtxOfSpec(init, pt);
      assert xs == init + [xs[|xs| - 1]];
      assert (set x | x in xs) == (set x | x in init) + {xs[|xs| - 1]};
    }
  }

  function InfoValue(d: Decl): TacstInfo
    requires HasInfo(d)
  {
    var ctx := CtxOf(d.ctxIdents, d.prTyps);
    var goal := if d.conclIdx == -1 then "SOLVED" else d.prGls[d.conclIdx];
    TacstInfo(ctx, goal, d.ctxIdents, d.conclIdx)
  }


  /** The entry exists exactly when every context identifier has a pretty
      type and the conclusion has a pretty goal; it maps each identifier
      to its pretty type and keeps the identifiers and the conclusion
      index. */
  lemma InfoOfSpec(d: Decl)
    ensures InfoOf(d).Ok? <==>
      (forall x :: x in d.ctxIdents ==> x in d.prTyps) && (d.conclIdx == -1 || d.conclIdx in d.prGls)
    ensures InfoOf(d).Ok? ==> var t := InfoOf(d).value;
      && t.ctx.Keys == (set x | x in d.ctxIdents)
      && (forall x :: x in d.ctxIdents ==> t.ctx[x] == d.prTyps[x])
      && t.idents == d.ctxIdents && t.conclIdx == d.conclIdx
      && t.goal == if d.conclIdx == -1 then "SOLVED" else d.prGls[d.conclIdx]
  {
    if HasInfo(d) {
      CtxOfSpec(d.ctxIdents, d.prTyps);
    }
  }

  /** Declaration `j` is the first with its goal id. */
  predicate FirstOfGid(ds: seq<Decl>, j: int)
    requires 0 <= j < |ds|
  {
    forall k :: 0 <= k < j ==> ds[k].hdr.gid != ds[j].hdr.gid
  }

  /** The table `get_tacst_info` has built after the first `n`
      declarations: a goal id seen before keeps its entry. */
  function InfoTable(ds: seq<Decl>, n: nat): Result<map<int, TacstInfo>, TraceError>
    requires n <= |ds|
  {
    if n == 0 then Ok(map[])
    else
      var prev := InfoTable(ds, n - 1);
      var d := ds[n - 1];
      if prev.Err? || d.hdr.gid in prev.value then prev
      else if HasInfo(d) then Ok(prev.value[d.hdr.gid := InfoValue(d)])
      else Err(MissingKey)
  }

  /** The goal ids of the first `n` declarations. */
  function GidsOf(ds: seq<Decl>, n: nat): set<int>
    requires n <= |ds|
  {
    if n == 0 then {} else GidsOf(ds, n - 1) + {ds[n - 1].hdr.gid}
  }

  lemma {:induction false} GidsOfSet(ds: seq<Decl>, n: nat)
    requires n <= |ds|
    ensures GidsOf(ds, n) == set j | 0 <= j < n :: ds[j].hdr.gid
  {
    if n > 0 {
      GidsOfSet(ds, n - 1);
      assert (set j | 0 <= j < n :: ds[j].hdr.gid)
        == (set j | 0 <= j < n - 1 :: ds[j].hdr.gid) + {ds[n - 1].hdr.gid};
    }
  }

  /** A declaration is the first with its goal id exactly when no earlier
      one has that id. */
  lemma FirstOfGidFresh(ds: seq<Decl>, i: nat)
    requires i < |ds|
    ensures FirstOfGid(ds, i) <==> ds[i].hdr.gid !in GidsOf(ds, i)
  {
    GidsOfSet(ds, i);
    if ds[i].hdr.gid in GidsOf(ds, i) {
      var k :| 0 <= k < i && ds[k].hdr.gid == ds[i].hdr.gid;
    }
  }

  /** The table has one entry per goal id. */
  lemma {:induction false} InfoTableKeys(ds: seq<Decl>, n: nat)
    requires n <= |ds|
    ensures InfoTable(ds, n).Ok? ==> InfoTable(ds, n).value.Keys == GidsOf(ds, n)
  {
    if n > 0 {
      InfoTableKeys(ds, n - 1);
    }
  }

  /** Every declaration among the first `n` that is the first with its
      goal id has an entry. */
  predicate FirstsHaveInfo(ds: seq<Decl>, n: nat)
    requires n <= |ds|
  {
    n == 0 || (FirstsHaveInfo(ds, n - 1) && (FirstOfGid(ds, n - 1) ==> HasInfo(ds[n - 1])))
  }

  /** Each declaration among the first `n` that first carries its goal
      id has an entry, when `FirstsHaveInfo` holds ... */
  lemma {:induction false} FirstsHaveInfoAt(ds: seq<Decl>, n: nat, j: nat)
    requires j < n <= |ds| && FirstsHaveInfo(ds, n) && FirstOfGid(ds, j)
    ensures HasInfo(ds[j])
  {
    if j < n - 1 {
      FirstsHaveInfoAt(ds, n - 1, j);
    }
  }

  /** ... and when it does not, one of them is without an entry. */
  lemma {:induction false} FirstsHaveInfoWitness(ds: seq<Decl>, n: nat) returns (j: nat)
    requires n <= |ds| && !FirstsHaveInfo(ds, n)
    ensures j < n && FirstOfGid(ds, j) && !HasInfo(ds[j])
  {
    if FirstsHaveInfo(ds, n - 1) {
      j := n - 1;
    } else {
      j := FirstsHaveInfoWitness(ds, n - 1);
    }
  }

  /** The table fails exactly when one of the declarations that first
      carry their goal id has no entry. */
  lemma {:induction false} InfoTableOk(ds: seq<Decl>, n: nat)
    requires n <= |ds|
    ensures InfoTable(ds, n).Ok? <==> FirstsHaveInfo(ds, n)
  {
    if n > 0 {
      InfoTableOk(ds, n - 1);
      InfoTableKeys(ds, n - 1);
      FirstOfGidFresh(ds, n - 1);
    }
  }

  /** Each goal id's entry is that of the first declaration with the id. */
  lemma {:induction false} InfoTableValues(ds: seq<Decl>, n: nat, j: nat)
    requires j < n <= |ds| && InfoTable(ds, n).Ok? && FirstOfGid(ds, j)
    ensures HasInfo(ds[j]) && ds[j].hdr.gid in InfoTable(ds, n).value
    ensures InfoTable(ds, n).value[ds[j].hdr.gid] == InfoValue(ds[j])
    decreases n
  {
    InfoTableKeys(ds, n - 1);
    FirstOfGidFresh(ds, n - 1);
    if j < n - 1 {
      InfoTableValues(ds, n - 1, j);
    } else {
      InfoTableOk(ds, n - 1);
    }
  }

  /** Once the table has failed, it stays failed with the same error. */
  lemma {:induction false} InfoTableStaysErr(ds: seq<Decl>, i: nat, n: nat)
    requires i <= n <= |ds| && InfoTable(ds, i).Err?
    ensures InfoTable(ds, n) == InfoTable(ds, i)
    decreases n - i
  {
    if i < n {
      InfoTableStaysErr(ds, i, n - 1);
    }
  }

  /** `get_tacst_info`: the table of every declaration of the lemma. */
  method GetTacstInfo(lem: Lemma) returns (r: Result<map<int, TacstInfo>, TraceError>)
    ensures r.Ok? <==> InfoTable(lem.decls, |lem.decls|).Ok?
    ensures r.Ok? ==> r.value == InfoTable(lem.decls, |lem.decls|).value
    ensures r.Err? ==> r.error == InfoTable(lem.decls, |lem.decls|).error
  {
    var ds := lem.decls;
    var info: map<int, TacstInfo> := map[];
    var i := 0;
    while i < |ds|
      invariant 0 <= i <= |ds|
      invariant InfoTable(ds, i) == Ok(info)
    {
      var g := ds[i].hdr.gid;
      if g !in info {
        var t := InfoOf(ds[i]);
        if t.Err? {
          InfoTableStaysErr(ds, i + 1, |ds|);
          return Err(t.error);
        }
        info := info[g := t.value];
      }
      i := i + 1;
    }
    return Ok(info);
  }

  /** The name field of a `bg(pf)` line. */
  function LemmaNameOf(line: string): Result<string, TraceError> {
    Field(Split(line, Sep), 2)
  }

  /** A `bg(pf)` line (raw, trailing white space removed) naming `name`:
      what `seek_lemma` stops at. */
  predicate BegPfNamed(raw: string, name: string) {
    var l := TrimRight(raw);
    StartsWith(l, TokBegPf) && LemmaNameOf(l) == Ok(name)
  }

  /** A `bg(pf)` line with too few fields to name a lemma. */
  predicate BegPfNameless(raw: string) {
    var l := TrimRight(raw);
    StartsWith(l, TokBegPf) && LemmaNameOf(l).Err?
  }

  /** `seek_lemma` as a function of the lines: the position of the first
      `bg(pf)` line naming `name`; a `bg(pf)` line with too few fields on
      the way stops the search with its error. */
  function SeekAt(lines: seq<string>, pos: nat, name: string): (r: Result<nat, TraceError>)
    requires pos <= |lines|
    ensures r.Ok? ==> pos <= r.value < |lines|
    decreases |lines| - pos
  {
    if pos == |lines| then Err(LemmaNotFound(name))
    else
      var l := TrimRight(lines[pos]);
      if StartsWith(l, TokBegPf) then
        match LemmaNameOf(l)
        case Err(e) => Err(e)
        case Ok(n) => if n == name then Ok(pos) else SeekAt(lines, pos + 1, name)
      else SeekAt(lines, pos + 1, name)
  }

  /** Neither the `bg(pf)` line naming `name` nor a nameless one. */
  predicate SeekPasses(raw: string, name: string) {
    !BegPfNamed(raw, name) && !BegPfNameless(raw)
  }

  /** The search stops at a `bg(pf)` line naming `name` ... */
  lemma {:induction false} SeekAtFound(lines: seq<string>, pos: nat, name: string)
    requires pos <= |lines| && SeekAt(lines, pos, name).Ok?
    ensures BegPfNamed(lines[SeekAt(lines, pos, name).value], name)
    decreases |lines| - pos
  {
    var l := TrimRight(lines[pos]);
    if StartsWith(l, TokBegPf) && LemmaNameOf(l) == Ok(name) {
      assert SeekAt(lines, pos, name) == Ok(pos);
    } else {
      assert SeekAt(lines, pos, name) == SeekAt(lines, pos + 1, name);
      SeekAtFound(lines, pos + 1, name);
    }
  }

  /** ... and every line it passes over is neither such a line nor a
      nameless one, so the line it stops at is the first. */
  lemma {:induction false} SeekAtPassed(lines: seq<string>, pos: nat, name: string, k: nat)
    requires pos <= |lines| && SeekAt(lines, pos, name).Ok?
    requires pos <= k < SeekAt(lines, pos, name).value
    ensures SeekPasses(lines[k], name)
    decreases |lines| - pos
  {
    var l := TrimRight(lines[pos]);
    assert !(StartsWith(l, TokBegPf) && LemmaNameOf(l).Err?);
    assert !(StartsWith(l, TokBegPf) && LemmaNameOf(l) == Ok(name));
    if k > pos {
      assert SeekAt(lines, pos, name) == SeekAt(lines, pos + 1, name);
      SeekAtPassed(lines, pos + 1, name, k);
    }
  }

  /** The search fails with `LemmaNotFound` exactly when no line from
      `pos` on names `name` or is nameless. */
  lemma {:induction false} SeekAtNotFound(lines: seq<string>, pos: nat, name: string)
    requires pos <= |lines|
    ensures SeekAt(lines, pos, name) == Err(LemmaNotFound(name)) <==>
      forall k :: pos <= k < |lines| ==> SeekPasses(lines[k], name)
    decreases |lines| - pos
  {
    if pos < |lines| {
      SeekAtNotFound(lines, pos + 1, name);
      if !SeekPasses(lines[pos], name) {
        assert SeekAt(lines, pos, name) != Err(LemmaNotFound(name));
      }
    }
  }

  /** Any other failure is the missing name field of a nameless
      `bg(pf)` line. */
  lemma {:induction false} SeekAtNameless(lines: seq<string>, pos: nat, name: string)
    requires pos <= |lines|
    requires SeekAt(lines, pos, name).Err? && SeekAt(lines, pos, name) != Err(LemmaNotFound(name))
    ensures SeekAt(lines, pos, name) == Err(MissingField(2))
    ensures exists k :: pos <= k < |lines| && BegPfNameless(lines[k])
    decreases |lines| - pos
  {
    var l := TrimRight(lines[pos]);
    if StartsWith(l, TokBegPf) && LemmaNameOf(l).Err? {
      assert BegPfNameless(lines[pos]);
      assert LemmaNameOf(l) == Err(MissingField(2));
    } else {
      SeekAtNameless(lines, pos + 1, name);
    }
  }

  /** Line `k` is a `bg(pf)` line whose name field is `name`: where
      `parse_lemma` pushes `name`. */
  predicate OpensLemma(lines: seq<string>, k: nat, name: string) {
    k < |lines| && KindOf(lines[k]) == BegPf && LemmaNameOf(PeekAt(lines, k)) == Ok(name)
  }

  /** Line `k - 1` is an `en(pf)` line: a lemma read up to `k` was
      closed by its last line. */
  predicate ClosesLemma(lines: seq<string>, k: nat) {
    0 < k <= |lines| && KindOf(lines[k - 1]) == EndPf
  }

  /** The kinds of line `parse_lemma` dispatches on. */
  datatype LineKind = BegPf | EndPf | BegSubPf | EndSubPf | BegTacSt | EndTacSt | Tables | Unknown

  /** The dispatch of `parse_lemma`, on the raw line less trailing white
      space, tried in the source's order. */
  function KindOf(raw: string): LineKind {
    var l := TrimRight(raw);
    if IsPrefix(TokBegPf, l) then BegPf
    else if IsPrefix(TokEndPf, l) then EndPf
    else if IsPrefix(TokBegSubPf, l) then BegSubPf
    else if IsPrefix(TokEndSubPf, l) then EndSubPf
    else if IsPrefix(TokBegTacSt, l) then BegTacSt
    else if IsPrefix(TokEndTacSt, l) then EndTacSt
    else if IsPrefix(TokTyps, l) then Tables
    else Unknown
  }

  lemma StartsWithCat(p: string, rest: string)
    ensures StartsWith(p + rest, p)
  {
    assert (p + rest)[..|p|] == p;
  }

  lemma TokenLine(t: string, rest: string)
    requires |t| > 0 && !IsSpace(t[|t| - 1])
    requires rest == [] || !IsSpace(rest[|rest| - 1])
    ensures TrimRight(t + rest) == t + rest && StartsWith(t + rest, t)
  {
    TrimRightOfSpaced(t + rest, []);
    assert t + rest + [] == t + rest;
    StartsWithCat(t, rest);
  }

  lemma NotStartsWith(l: string, p: string, k: nat)
    requires k < |p| && k < |l| && l[k] != p[k]
    ensures !StartsWith(l, p)
  {
    if |p| <= |l| {
      assert l[..|p|][k] == l[k];
    }
  }

  /** No token `parse_lemma` dispatches on is a prefix of another, so a
      line starting with one of them, and not ending in white space, is of
      that token's kind. */
  lemma KindOfToken(rest: string)
    requires rest == [] || !IsSpace(rest[|rest| - 1])
    ensures KindOf(TokBegPf + rest) == BegPf
    ensures KindOf(TokEndPf + rest) == EndPf
    ensures KindOf(TokBegSubPf + rest) == BegSubPf
    ensures KindOf(TokEndSubPf + rest) == EndSubPf
    ensures KindOf(TokBegTacSt + rest) == BegTacSt
    ensures KindOf(TokEndTacSt + rest) == EndTacSt
    ensures KindOf(TokTyps + rest) == Tables
  {
    TokenLine(TokBegPf, rest);
    PrefixesOf(TokBegPf + rest);
    TokenLine(TokEndPf, rest);
    PrefixesOf(TokEndPf + rest);
    NotStartsWith(TokEndPf + rest, TokBegPf, 0);
    TokenLine(TokBegSubPf, rest);
    PrefixesOf(TokBegSubPf + rest);
    NotStartsWith(TokBegSubPf + rest, TokBegPf, 3);
    NotStartsWith(TokBegSubPf + rest, TokEndPf, 0);
    TokenLine(TokEndSubPf, rest);
    PrefixesOf(TokEndSubPf + rest);
    NotStartsWith(TokEndSubPf + rest, TokBegPf, 0);
    NotStartsWith(TokEndSubPf + rest, TokEndPf, 3);
    NotStartsWith(TokEndSubPf + rest, TokBegSubPf, 0);
    TokenLine(TokBegTacSt, rest);
    PrefixesOf(TokBegTacSt + rest);
    NotStartsWith(TokBegTacSt + rest, TokBegPf, 3);
    NotStartsWith(TokBegTacSt + rest, TokEndPf, 0);
    NotStartsWith(TokBegTacSt + rest, TokBegSubPf, 3);
    NotStartsWith(TokBegTacSt + rest, TokEndSubPf, 0);
    TokenLine(TokEndTacSt, rest);
    PrefixesOf(TokEndTacSt + rest);
    NotStartsWith(TokEndTacSt + rest, TokBegPf, 0);
    NotStartsWith(TokEndTacSt + rest, TokEndPf, 3);
    NotStartsWith(TokEndTacSt + rest, TokBegSubPf, 0);
    NotStartsWith(TokEndTacSt + rest, TokEndSubPf, 3);
    NotStartsWith(TokEndTacSt + rest, TokBegTacSt, 0);
    TokenLine(TokTyps, rest);
    PrefixesOf(TokTyps + rest);
    NotStartsWith(TokTyps + rest, TokBegPf, 0);
    NotStartsWith(TokTyps + rest, TokEndPf, 0);
    NotStartsWith(TokTyps + rest, TokBegSubPf, 0);
    NotStartsWith(TokTyps + rest, TokEndSubPf, 0);
    NotStartsWith(TokTyps + rest, TokBegTacSt, 0);
    NotStartsWith(TokTyps + rest, TokEndTacSt, 0);
  }

  /** Two declarations with the same header, context and conclusion. */
  predicate SameDecl(a: Decl, b: Decl) {
    a.hdr == b.hdr && a.ctxIdents == b.ctxIdents && a.conclIdx == b.conclIdx
  }

  /** All declarations of a lemma carry the same pretty-printing tables. */
  predicate SharePretty(ds: seq<Decl>) {
    forall i, j :: 0 <= i < |ds| && 0 <= j < |ds| ==>
      ds[i].prTyps == ds[j].prTyps && ds[i].prBods == ds[j].prBods && ds[i].prGls == ds[j].prGls
  }

  lemma WithPrettyShares(ds: seq<Decl>, pt: map<string, string>, pb: map<string, string>, pg: map<int, string>)
    ensures SharePretty(WithPretty(ds, pt, pb, pg))
    ensures forall i :: 0 <= i < |ds| ==> SameDecl(WithPretty(ds, pt, pb, pg)[i], ds[i])
  {
  }

  // ---------------------------------------------------------------------
  // `parse_lemma` and `parse_file` as functions of the lines

  /** The per-lemma state of the lexer: the declarations read so far and
      the six tables of the epilogue. */
  datatype LemmaState = LemmaState(
    decls: seq<Decl>, ctxTyps: map<string, int>, ctxBods: map<string, int>, constrShare: map<int, string>,
    prTyps: map<string, string>, prBods: map<string, string>, prGls: map<int, string>)

  /** The state `_reset` leaves. */
  const EmptyState: LemmaState := LemmaState([], map[], map[], map[], map[], map[], map[])

  /** The tables of an epilogue entered into the state's, in order. */
  function WithEpilogue(s: LemmaState, e: Epilogue): LemmaState {
    s.(ctxTyps := InsertAll(s.ctxTyps, e.typs), ctxBods := InsertAll(s.ctxBods, e.bods),
       constrShare := InsertAll(s.constrShare, e.constrs), prTyps := InsertAll(s.prTyps, e.prTyps),
       prBods := InsertAll(s.prBods, e.prBods), prGls := InsertAll(s.prGls, e.prGls))
  }

  /** A `bg(ts)` block at `pos`: the six-field header, then the
      declaration it introduces. */
  function TacStDeclAt(lines: seq<string>, pos: nat): (r: Result<(Decl, nat), TraceError>)
    requires pos < |lines|
    ensures r.Ok? ==> pos < r.value.1 <= |lines|
  {
    var h :- Accumulate(lines, pos + 1, PeekAt(lines, pos), 6);
    var st :- TacStStartOf(h.0);
    DeclAt(lines, h.1, st)
  }

  /** One line of `parse_lemma` other than `en(pf)` and an unknown line:
      the name a `bg(pf)` line opens, the state after the line and the
      position after what it read. */
  function LineAt(lines: seq<string>, pos: nat, s: LemmaState): (r: Result<(Option<string>, LemmaState, nat), TraceError>)
    requires pos < |lines| && KindOf(lines[pos]) != EndPf && KindOf(lines[pos]) != Unknown
    ensures r.Ok? ==> pos < r.value.2 <= |lines|
    ensures r.Ok? && r.value.0.Some? ==> OpensLemma(lines, pos, r.value.0.value)
  {
    match KindOf(lines[pos])
    case BegPf =>
      var n :- LemmaNameOf(PeekAt(lines, pos));
      Ok((Some(n), s, pos + 1))
    case BegTacSt =>
      var d :- TacStDeclAt(lines, pos);
      Ok((None, s.(decls := s.decls + [d.0]), d.1))
    case Tables =>
      var e :- EpilogueAt(lines, pos);
      Ok((None, WithEpilogue(s, e), e.end))
    case BegSubPf | EndSubPf | EndTacSt => Ok((None, s, pos + 1))
  }

  /** The stack of open lemma names after a line. */
  function Pushed(names: seq<string>, n: Option<string>): seq<string> {
    if n.Some? then names + [n.value] else names
  }

  /** The `en(pf)` branch: the innermost open lemma, whose declarations
      all get the pretty-printing tables, with the other three tables. */
  function CloseAt(names: seq<string>, s: LemmaState): (r: Result<Lemma, TraceError>)
    ensures r.Err? <==> names == []
  {
    if names == [] then Err(NoOpenLemma)
    else Ok(Lemma(names[|names| - 1], WithPretty(s.decls, s.prTyps, s.prBods, s.prGls),
                  s.ctxTyps, s.ctxBods, s.constrShare))
  }

  /** Where `parse_lemma` stops: after the `en(pf)` line at `end - 1`,
      with the lemma it closes, or at the end of the file, with the state
      it has built. */
  datatype LemmaEnd = Closed(closed: Lemma, end: nat) | Ended(state: LemmaState)

  /** `parse_lemma` from `pos` with the lemma names `names` open and the
      per-lemma state `s`: the loop stops at the end of the file. */
  function LemmaFrom(lines: seq<string>, pos: nat, names: seq<string>, s: LemmaState): (r: Result<LemmaEnd, TraceError>)
    requires pos <= |lines|
    ensures r.Ok? && r.value.Closed? ==> pos < r.value.end <= |lines|
    decreases |lines| - pos, 1
  {
    if pos == |lines| then Ok(Ended(s)) else LineFrom(lines, pos, names, s)
  }

  /** One pass of the loop of `parse_lemma` at the line `pos`, then the
      rest of the loop. */
  function LineFrom(lines: seq<string>, pos: nat, names: seq<string>, s: LemmaState): (r: Result<LemmaEnd, TraceError>)
    requires pos < |lines|
    ensures r.Ok? && r.value.Closed? ==> pos < r.value.end <= |lines|
    decreases |lines| - pos, 0
  {
    var k := KindOf(lines[pos]);
    if k == EndPf then
      var lem :- CloseAt(names, s);
      Ok(Closed(lem, pos + 1))
    else if k == Unknown then Err(UnknownLine(pos, PeekAt(lines, pos)))
    else
      var l :- LineAt(lines, pos, s);
      LemmaFrom(lines, l.2, Pushed(names, l.0), l.1)
  }

  /** `parse_file` from `pos` with the per-lemma state `s`: the lemmas
      closed one after another until the file ends. */
  function LemmasFrom(lines: seq<string>, pos: nat, s: LemmaState): (r: Result<seq<Lemma>, TraceError>)
    requires pos <= |lines|
    decreases |lines| - pos
  {
    if pos == |lines| then Ok([])
    else
      var e :- LemmaFrom(lines, pos, [], s);
      match e
      case Ended(_) => Ok([])
      case Closed(lem, end) =>
        var rest :- LemmasFrom(lines, end, EmptyState);
        Ok([lem] + rest)
  }

  /** What `LemmaFromKeeps` and `LemmaFromOpens` say of a lemma closed
      by an `en(pf)` read from `p0`, for the lemma `lem` ending at `end`. */
  lemma ClosedFacts(lines: seq<string>, p0: nat, s0: LemmaState, end: nat, lem: Lemma)
    requires p0 <= |lines| && LemmaFrom(lines, p0, [], s0).Ok?
    requires var e := LemmaFrom(lines, p0, [], s0).value; e.Closed? && e.end == end && e.closed == lem
    ensures p0 < end && ClosesLemma(lines, end)
    ensures exists k :: p0 <= k < end && OpensLemma(lines, k, lem.name)
    ensures |s0.decls| <= |lem.decls| && (forall i :: 0 <= i < |s0.decls| ==> SameDecl(lem.decls[i], s0.decls[i]))
    ensures SharePretty(lem.decls)
  {
    LemmaFromKeeps(lines, p0, [], s0, s0.decls);
    LemmaFromOpens(lines, p0, p0, [], [], s0);
  }

  /** A lemma closed from `pos` heads the lemmas read from `pos`. */
  lemma LemmasFromClosed(lines: seq<string>, pos: nat, s: LemmaState)
    requires pos < |lines|
    requires LemmaFrom(lines, pos, [], s).Ok? && LemmaFrom(lines, pos, [], s).value.Closed?
    ensures var e := LemmaFrom(lines, pos, [], s).value;
      LemmasFrom(lines, pos, s) == Prefixed([e.closed], LemmasFrom(lines, e.end, EmptyState))
  {
  }

  /** A line other than `en(pf)` only appends to the declarations. */
  lemma LineAtDecls(lines: seq<string>, pos: nat, s: LemmaState)
    requires pos < |lines| && KindOf(lines[pos]) != EndPf && KindOf(lines[pos]) != Unknown
    requires LineAt(lines, pos, s).Ok?
    ensures var t := LineAt(lines, pos, s).value.1;
      |s.decls| <= |t.decls| && t.decls[..|s.decls|] == s.decls
  {
    var t := LineAt(lines, pos, s).value.1;
    if KindOf(lines[pos]) == BegTacSt {
      assert t.decls[..|s.decls|] == s.decls;
    }
  }

  /** The `en(pf)` branch keeps the declarations, less their pretty
      tables, and gives them one set of pretty tables. */
  lemma CloseAtKeeps(names: seq<string>, s: LemmaState, ds: seq<Decl>)
    requires CloseAt(names, s).Ok? && |ds| <= |s.decls| && s.decls[..|ds|] == ds
    ensures var lem := CloseAt(names, s).value;
      && |ds| <= |lem.decls|
      && (forall i :: 0 <= i < |ds| ==> SameDecl(lem.decls[i], ds[i]))
      && SharePretty(lem.decls)
  {
    WithPrettyShares(s.decls, s.prTyps, s.prBods, s.prGls);
    assert forall i :: 0 <= i < |ds| ==> ds[i] == s.decls[i];
  }

  /** The lemmas `done` already read, before those of `r`. */
  function Prefixed(done: seq<Lemma>, r: Result<seq<Lemma>, TraceError>): Result<seq<Lemma>, TraceError> {
    if r.Ok? then Ok(done + r.value) else r
  }

  lemma PrefixedNone(r: Result<seq<Lemma>, TraceError>)
    ensures Prefixed([], r) == r
  {
    if r.Ok? {
      assert [] + r.value == r.value;
    }
  }

  lemma PrefixedPrefixed(a: seq<Lemma>, b: seq<Lemma>, r: Result<seq<Lemma>, TraceError>)
    ensures Prefixed(a, Prefixed(b, r)) == Prefixed(a + b, r)
  {
    if r.Ok? {
      assert a + (b + r.value) == a + b + r.value;
    }
  }

  /** A lemma `parse_lemma` closes ends at an `en(pf)` line, keeps the
      declarations the state held at `pos` (less their pretty tables)
      and shares one set of pretty tables; when the file ends first, the
      declarations read are appended to those. */
  lemma {:induction false} LemmaFromKeeps(lines: seq<string>, pos: nat, names: seq<string>, s: LemmaState, ds: seq<Decl>)
    requires pos <= |lines| && LemmaFrom(lines, pos, names, s).Ok?
    requires |ds| <= |s.decls| && s.decls[..|ds|] == ds
    ensures var e := LemmaFrom(lines, pos, names, s).value;
      && (e.Closed? ==>
        && ClosesLemma(lines, e.end)
        && |ds| <= |e.closed.decls|
        && (forall i :: 0 <= i < |ds| ==> SameDecl(e.closed.decls[i], ds[i]))
        && SharePretty(e.closed.decls))
      && (e.Ended? ==> |ds| <= |e.state.decls| && e.state.decls[..|ds|] == ds)
    decreases |lines| - pos
  {
    if pos < |lines| {
      var k := KindOf(lines[pos]);
      if k == EndPf {
        CloseAtKeeps(names, s, ds);
      } else if k != Unknown {
        var l := LineAt(lines, pos, s).value;
        LineAtDecls(lines, pos, s);
        assert l.1.decls[..|ds|] == ds by {
          assert l.1.decls[..|ds|] == l.1.decls[..|s.decls|][..|ds|];
        }
        LemmaFromKeeps(lines, l.2, Pushed(names, l.0), l.1, ds);
      }
    }
  }

  /** The lemma closed is named by a `bg(pf)` line read on the way, when
      the names open at the start were read from lines `openAt`. */
  lemma {:induction false} LemmaFromOpens(lines: seq<string>, p0: nat, pos: nat, names: seq<string>,
                                          openAt: seq<nat>, s: LemmaState)
    requires p0 <= pos <= |lines| && |openAt| == |names|
    requires forall i :: 0 <= i < |names| ==> p0 <= openAt[i] < pos && OpensLemma(lines, openAt[i], names[i])
    requires LemmaFrom(lines, pos, names, s).Ok? && LemmaFrom(lines, pos, names, s).value.Closed?
    ensures var e := LemmaFrom(lines, pos, names, s).value;
      exists k :: p0 <= k < e.end && OpensLemma(lines, k, e.closed.name)
    decreases |lines| - pos
  {
    var k := KindOf(lines[pos]);
    if k == EndPf {
      assert p0 <= openAt[|names| - 1] < pos + 1;
    } else {
      var l := LineAt(lines, pos, s).value;
      var openAt' := if l.0.Some? then openAt + [pos] else openAt;
      forall i | 0 <= i < |Pushed(names, l.0)|
        ensures p0 <= openAt'[i] < l.2 && OpensLemma(lines, openAt'[i], Pushed(names, l.0)[i])
      {
        if i < |names| {
          assert openAt'[i] == openAt[i] && Pushed(names, l.0)[i] == names[i];
        } else {
          assert openAt'[i] == pos && Pushed(names, l.0)[i] == l.0.value;
        }
      }
      LemmaFromOpens(lines, p0, l.2, Pushed(names, l.0), openAt', l.1);
    }
  }

  /** Every lemma of the file shares one set of pretty tables among its
      declarations. */
  lemma {:induction false} LemmasFromShare(lines: seq<string>, pos: nat, s: LemmaState)
    requires pos <= |lines| && LemmasFrom(lines, pos, s).Ok?
    ensures forall i :: 0 <= i < |LemmasFrom(lines, pos, s).value| ==> SharePretty(LemmasFrom(lines, pos, s).value[i].decls)
    decreases |lines| - pos
  {
    if pos < |lines| {
      LemmaFromKeeps(lines, pos, [], s, []);
      var e := LemmaFrom(lines, pos, [], s).value;
      if e.Closed? {
        LemmasFromShare(lines, e.end, EmptyState);
      }
    }
  }

  // ---------------------------------------------------------------------
  // The lexer

  /** `TacStParser`: a cursor over the trace plus the state of the lemma
      being read. */
  class TacStParser {
    const file: LineFile
    var exhausted: bool
    var decls: seq<Decl>
    var ctxTyps: map<string, int>
    var ctxBods: map<string, int>
    var constrShare: map<int, string>
    var prTyps: map<string, string>
    var prBods: map<string, string>
    var prGls: map<int, string>
    var lems: seq<Lemma>

    ghost predicate Valid()
      reads this, file
    {
      file.Valid()
    }

    /** The per-lemma state, as a value. */
    function StateOf(): LemmaState
      reads this
    {
      LemmaState(decls, ctxTyps, ctxBods, constrShare, prTyps, prBods, prGls)
    }

    /** No per-lemma state. */
    predicate Clear()
      reads this
    {
      decls == [] && ctxTyps == map[] && ctxBods == map[] && constrShare == map[]
      && prTyps == map[] && prBods == map[] && prGls == map[]
    }

    constructor (text: seq<string>)
      requires forall k :: 0 <= k < |text| ==> text[k] != ""
      ensures Valid() && fresh(file) && file.lines == text && file.pos == 0
      ensures !exhausted && Clear() && lems == []
    {
      file := new LineFile(text);
      exhausted := false;
      decls := [];
      ctxTyps, ctxBods, constrShare := map[], map[], map[];
      prTyps, prBods, prGls := map[], map[], map[];
      lems := [];
    }

    /** `_reset` */
    method Reset()
      modifies this
      ensures Clear()
      ensures exhausted == old(exhausted) && lems == old(lems)
    {
      decls := [];
      ctxTyps, ctxBods, constrShare := map[], map[], map[];
      prTyps, prBods, prGls := map[], map[], map[];
    }

    /** `parse_decl_body` */
    method ParseDeclBody() returns (r: Result<(seq<string>, int), TraceError>)
      requires Valid()
      modifies file
      ensures Valid()
      ensures old(file.pos) == |file.lines| ==> r.Err?
      ensures old(file.pos) < |file.lines| ==>
        r == DeclBodyOf(PeekAt(file.lines, old(file.pos))) && file.pos == old(file.pos) + 1
    {
      var line :- file.ConsumeLine();
      r := DeclBodyOf(line);
    }

    method ParseSolved(st: TacStStart) returns (r: Result<Decl, TraceError>)
      requires Valid() && file.pos < |file.lines|
      modifies file
      ensures Valid()
      ensures r.Ok? <==> SolvedAt(file.lines, old(file.pos), st).Ok?
      ensures r.Ok? ==> Yields(SolvedAt(file.lines, old(file.pos), st), r.value, file.pos)
      ensures r.Ok? ==> old(file.pos) < file.pos
    {
      var f := file;
      var _ := f.ConsumeLine();
      var _ :- f.ConsumeLine();
      var h :- MakeHeader(st.callid, st.mode, st.tac, st.kind, "", GidSolved, 0, st.loc);
      return Ok(Decl(h, [], -1, NoPretty, NoPretty, map[]));
    }

    method ParseLive(st: TacStStart) returns (r: Result<Decl, TraceError>)
      requires Valid() && file.pos < |file.lines|
      modifies file
      ensures Valid()
      ensures r.Ok? <==> LiveAt(file.lines, old(file.pos), st).Ok?
      ensures r.Ok? ==> Yields(LiveAt(file.lines, old(file.pos), st), r.value, file.pos)
      ensures r.Ok? ==> old(file.pos) < file.pos
    {
      var f := file;
      ghost var p0 := f.pos;
      var hdr := ReadHeader(f, 3);
      if hdr.Err? {
        LiveAtNoHeader(f.lines, p0, st);
        return Err(hdr.error);
      }
      ghost var p1 := f.pos;
      assert Yields(Accumulate(f.lines, p0 + 1, PeekAt(f.lines, p0), 3), hdr.value, p1);
      var fs := LiveFieldsOf(hdr.value);
      var h := if fs.Err? then Err(fs.error)
        else MakeHeader(st.callid, st.mode, st.tac, st.kind, fs.value.1, fs.value.2, fs.value.0, st.loc);
      if h.Err? {
        LiveAtNoFields(f.lines, p0, st, hdr.value, p1);
        return Err(h.error);
      }
      var ids := ParseDeclBody();
      if ids.Err? {
        LiveAtNoBody(f.lines, p0, st, hdr.value, p1, fs.value, h.value);
        return Err(ids.error);
      }
      LiveAtOk(f.lines, p0, st, hdr.value, p1, fs.value, h.value, ids.value.0, ids.value.1);
      return Ok(Decl(h.value, ids.value.0, ids.value.1, NoPretty, NoPretty, map[]));
    }

    /** `parse_decl` */
    method ParseDecl(st: TacStStart) returns (r: Result<Decl, TraceError>)
      requires Valid()
      modifies file
      ensures Valid()
      ensures r.Ok? <==> DeclAt(file.lines, old(file.pos), st).Ok?
      ensures r.Ok? ==> Yields(DeclAt(file.lines, old(file.pos), st), r.value, file.pos)
      ensures r.Ok? ==> old(file.pos) < file.pos
    {
      var peek := file.PeekLine();
      ghost var p0 := file.pos;
      if StartsWith(peek, "ngs=0") {
        DeclShapeInside(file.lines, p0);
        r := ParseSolved(st);
      } else if Contains(peek, Sep) {
        DeclShapeInside(file.lines, p0);
        r := ParseLive(st);
      } else {
        r := Err(UnknownDeclShape(file.LineNo(), peek));
      }
    }
 
    /** `parse_begin_pf`: the lemma's name, the third field. */
    method ParseBeginPf() returns (r: Result<string, TraceError>)
      requires Valid()
      modifies file
      ensures Valid()
      ensures old(file.pos) == |file.lines| ==> r.Err?
      ensures old(file.pos) < |file.lines| ==>
        r == LemmaNameOf(PeekAt(file.lines, old(file.pos))) && file.pos == old(file.pos) + 1
    {
      var line :- file.ConsumeLine();
      r := LemmaNameOf(line);
    }

    /** `parse_begtacst`: a header of six fields, possibly over several
        lines. */
    method ParseBegTacSt() returns (r: Result<TacStStart, TraceError>)
      requires Valid()
      modifies file
      ensures Valid()
      ensures old(file.pos) == |file.lines| ==> r.Err?
      ensures old(file.pos) < |file.lines| ==>
        var acc := Accumulate(file.lines, old(file.pos) + 1, PeekAt(file.lines, old(file.pos)), 6);
        (r.Ok? <==> acc.Ok? && TacStStartOf(acc.value.0).Ok?)
        && (r.Ok? ==> r.value == TacStStartOf(acc.value.0).value && file.pos == acc.value.1)
    {
      var hdr :- ReadHeader(file, 6);
      r := TacStStartOf(hdr);
    }

    /** `parse_ctx_typs` */
    method ParseCtxTyps() returns (r: Result<(), TraceError>)
      requires Valid()
      modifies file, this`ctxTyps
      ensures Valid()
      ensures ctxBods == old(ctxBods) && constrShare == old(constrShare) && prTyps == old(prTyps) && prBods == old(prBods) && prGls == old(prGls)
      ensures r.Ok? <==> IntValuedAt(file.lines, old(file.pos), TokBods).Ok?
      ensures r.Ok? ==> var t := IntValuedAt(file.lines, old(file.pos), TokBods).value;
        file.pos == t.1 && ctxTyps == InsertAll(old(ctxTyps), t.0)
    {
      var es :- ReadSection(file, TokBods);
      var vs :- ConvertValues(es, ToInt);
      ctxTyps := InsertAll(ctxTyps, vs);
      return Ok(());
    }

    /** `parse_ctx_bods` */
    method ParseCtxBods() returns (r: Result<(), TraceError>)
      requires Valid()
      modifies file, this`ctxBods
      ensures Valid()
      ensures ctxTyps == old(ctxTyps) && constrShare == old(constrShare) && prTyps == old(prTyps) && prBods == old(prBods) && prGls == old(prGls)
      ensures r.Ok? <==> IntValuedAt(file.lines, old(file.pos), TokConstrs).Ok?
      ensures r.Ok? ==> var t := IntValuedAt(file.lines, old(file.pos), TokConstrs).value;
        file.pos == t.1 && ctxBods == InsertAll(old(ctxBods), t.0)
    {
      var es :- ReadSection(file, TokConstrs);
      var vs :- ConvertValues(es, ToInt);
      ctxBods := InsertAll(ctxBods, vs);
      return Ok(());
    }

    /** `parse_constr_share` */
    method ParseConstrShare() returns (r: Result<(), TraceError>)
      requires Valid()
      modifies file, this`constrShare
      ensures Valid()
      ensures ctxTyps == old(ctxTyps) && ctxBods == old(ctxBods) && prTyps == old(prTyps) && prBods == old(prBods) && prGls == old(prGls)
      ensures r.Ok? <==> IntKeyedAt(file.lines, old(file.pos), TokPrTyps).Ok?
      ensures r.Ok? ==> var t := IntKeyedAt(file.lines, old(file.pos), TokPrTyps).value;
        file.pos == t.1 && constrShare == InsertAll(old(constrShare), t.0)
    {
      var es :- ReadSection(file, TokPrTyps);
      var ks :- ConvertKeys(es, ToInt);
      constrShare := InsertAll(constrShare, ks);
      return Ok(());
    }

    /** `parse_ctx_prtyps` */
    method ParseCtxPrTyps() returns (r: Result<(), TraceError>)
      requires Valid()
      modifies file, this`prTyps
      ensures Valid()
      ensures ctxTyps == old(ctxTyps) && ctxBods == old(ctxBods) && constrShare == old(constrShare) && prBods == old(prBods) && prGls == old(prGls)
      ensures r.Ok? <==> SectionEntriesAt(file.lines, old(file.pos), TokPrBods).Ok?
      ensures r.Ok? ==> var t := SectionEntriesAt(file.lines, old(file.pos), TokPrBods).value;
        file.pos == t.1 && prTyps == InsertAll(old(prTyps), t.0)
    {
      var es :- ReadSection(file, TokPrBods);
      prTyps := InsertAll(prTyps, es);
      return Ok(());
    }

    /** `parse_ctx_prbods` */
    method ParseCtxPrBods() returns (r: Result<(), TraceError>)
      requires Valid()
      modifies file, this`prBods
      ensures Valid()
      ensures ctxTyps == old(ctxTyps) && ctxBods == old(ctxBods) && constrShare == old(constrShare) && prTyps == old(prTyps) && prGls == old(prGls)
      ensures r.Ok? <==> SectionEntriesAt(file.lines, old(file.pos), TokPrGls).Ok?
      ensures r.Ok? ==> var t := SectionEntriesAt(file.lines, old(file.pos), TokPrGls).value;
        file.pos == t.1 && prBods == InsertAll(old(prBods), t.0)
    {
      var es :- ReadSection(file, TokPrGls);
      prBods := InsertAll(prBods, es);
      return Ok(());
    }

    /** `parse_ctx_prgls` */
    method ParseCtxPrGls() returns (r: Result<(), TraceError>)
      requires Valid()
      modifies file, this`prGls
      ensures Valid()
      ensures ctxTyps == old(ctxTyps) && ctxBods == old(ctxBods) && constrShare == old(constrShare) && prTyps == old(prTyps) && prBods == old(prBods)
      ensures r.Ok? <==> IntKeyedAt(file.lines, old(file.pos), TokEndPf).Ok?
      ensures r.Ok? ==> var t := IntKeyedAt(file.lines, old(file.pos), TokEndPf).value;
        file.pos == t.1 && prGls == InsertAll(old(prGls), t.0)
    {
      var es :- ReadSection(file, TokEndPf);
      var ks :- ConvertKeys(es, ToInt);
      prGls := InsertAll(prGls, ks);
      return Ok(());
    }
 
    /** `parse_epilogue`: the six tables in their fixed order. */
    method ParseEpilogue() returns (r: Result<(), TraceError>)
      requires Valid()
      modifies file, this`ctxTyps, this`ctxBods, this`constrShare, this`prTyps, this`prBods, this`prGls
      ensures Valid()
      ensures r.Ok? <==> EpilogueAt(file.lines, old(file.pos)).Ok?
      ensures r.Ok? ==> var e := EpilogueAt(file.lines, old(file.pos)).value;
        && file.pos == e.end
        && ctxTyps == InsertAll(old(ctxTyps), e.typs)
        && ctxBods == InsertAll(old(ctxBods), e.bods)
        && constrShare == InsertAll(old(constrShare), e.constrs)
        && prTyps == InsertAll(old(prTyps), e.prTyps)
        && prBods == InsertAll(old(prBods), e.prBods)
        && prGls == InsertAll(old(prGls), e.prGls)
    {
      ghost var p0 := file.pos;
      var r0 := ParseCtxTyps();
      if r0.Err? {
        return Err(r0.error);
      }
      ghost var p1 := file.pos;
      ghost var e0 := IntValuedAt(file.lines, p0, TokBods).value.0;
      var r1 := ParseCtxBods();
      if r1.Err? {
        return Err(r1.error);
      }
      ghost var p2 := file.pos;
      ghost var e1 := IntValuedAt(file.lines, p1, TokConstrs).value.0;
      var r2 := ParseConstrShare();
      if r2.Err? {
        return Err(r2.error);
      }
      ghost var p3 := file.pos;
      ghost var e2 := IntKeyedAt(file.lines, p2, TokPrTyps).value.0;
      var r3 := ParseCtxPrTyps();
      if r3.Err? {
        return Err(r3.error);
      }
      ghost var p4 := file.pos;
      ghost var e3 := SectionEntriesAt(file.lines, p3, TokPrBods).value.0;
      var r4 := ParseCtxPrBods();
      if r4.Err? {
        return Err(r4.error);
      }
      ghost var p5 := file.pos;
      ghost var e4 := SectionEntriesAt(file.lines, p4, TokPrGls).value.0;
      var r5 := ParseCtxPrGls();
      if r5.Err? {
        return Err(r5.error);
      }
      ghost var p6 := file.pos;
      ghost var e5 := IntKeyedAt(file.lines, p5, TokEndPf).value.0;
      EpilogueOk(file.lines, p0, p1, p2, p3, p4, p5, p6, e0, e1, e2, e3, e4, e5);
      return Ok(());
    }

    /** `seek_lemma`: skips raw lines up to the `bg(pf)` line naming
        `name`, which it leaves unread. */
    method SeekLemma(name: string) returns (r: Result<(), TraceError>)
      requires Valid()
      modifies file
      ensures Valid()
      ensures SeekAt(file.lines, old(file.pos), name) == if r.Ok? then Ok(file.pos) else Err(r.error)
    {
      var f := file;
      ghost var p0 := f.pos;
      var line := f.RawPeekLine();
      while line != ""
        invariant f.Valid() && p0 <= f.pos <= |f.lines| && line == f.RawPeekLine()
        invariant SeekAt(f.lines, f.pos, name) == SeekAt(f.lines, p0, name)
        decreases |f.lines| - f.pos
      {
        line := TrimRight(line);
        if StartsWith(line, TokBegPf) {
          var n :- LemmaNameOf(line);
          if n == name {
            return Ok(());
          }
        }
        f.RawConsumeLine();
        line := f.RawPeekLine();
      }
      return Err(LemmaNotFound(name));
    }

    /** The `en(pf)` branch of `parse_lemma`: consumes the line, attaches
        the pretty-printing tables to every declaration, pops the
        innermost open lemma's name and records the lemma, then resets
        the per-lemma state. */
    method CloseLemma(names: seq<string>) returns (r: Result<Lemma, TraceError>)
      requires Valid() && file.pos < |file.lines| && !exhausted
      requires KindOf(file.lines[file.pos]) == EndPf
      modifies this, file
      ensures Valid() && file.pos == old(file.pos) + 1
      ensures ClosesLemma(file.lines, file.pos)
      ensures r == CloseAt(names, old(StateOf()))
      ensures r.Err? <==> names == []
      ensures r.Err? ==> r.error == NoOpenLemma
      ensures r.Ok? ==> var lem := r.value;
        && lem.name == names[|names| - 1]
        && |lem.decls| == |old(decls)|
        && (forall i :: 0 <= i < |old(decls)| ==> SameDecl(lem.decls[i], old(decls)[i]))
        && SharePretty(lem.decls)
        && lem.ctxTyps == old(ctxTyps) && lem.ctxBods == old(ctxBods) && lem.constrShare == old(constrShare)
        && lems == old(lems) + [lem]
        && exhausted == (file.pos == |file.lines|)
        && Clear()
    {
      var f := file;
      var _ := f.ConsumeLine();
      decls := WithPretty(decls, prTyps, prBods, prGls);
      WithPrettyShares(old(decls), prTyps, prBods, prGls);
      if names == [] {
        return Err(NoOpenLemma);
      }
      var lem := Lemma(names[|names| - 1], decls, ctxTyps, ctxBods, constrShare);
      lems := lems + [lem];
      if f.RawPeekLine() == "" {
        exhausted := true;
      }
      Reset();
      return Ok(lem);
    }

    /** The `bg(ts)` branch of `parse_lemma`: the header, then the
        declaration. */
    method ReadTacSt() returns (r: Result<Decl, TraceError>)
      requires Valid() && file.pos < |file.lines|
      modifies file
      ensures Valid()
      ensures r.Ok? <==> TacStDeclAt(file.lines, old(file.pos)).Ok?
      ensures r.Ok? ==> Yields(TacStDeclAt(file.lines, old(file.pos)), r.value, file.pos)
    {
      var st :- ParseBegTacSt();
      r := ParseDecl(st);
    }

    /** One line of `parse_lemma` other than `en(pf)` and an unknown
        line: a `bg(pf)` yields the lemma's name; a `bg(ts)` adds a
        declaration; `Typs` reads the epilogue; `bg(spf)`, `en(spf)` and
        `en(ts)` are consumed and carry nothing the lexer keeps. */
    method ParseLemmaLine(kind: LineKind) returns (r: Result<Option<string>, TraceError>)
      requires Valid() && file.pos < |file.lines| && KindOf(file.lines[file.pos]) == kind
      requires kind != EndPf && kind != Unknown
      modifies file, this`decls, this`ctxTyps, this`ctxBods, this`constrShare, this`prTyps, this`prBods, this`prGls
      ensures Valid()
      ensures r.Ok? ==> old(file.pos) < file.pos <= |file.lines|
      ensures r.Ok? ==> |old(decls)| <= |decls| && forall i :: 0 <= i < |old(decls)| ==> decls[i] == old(decls)[i]
      ensures r.Ok? && r.value.Some? ==> kind == BegPf && OpensLemma(file.lines, old(file.pos), r.value.value)
      ensures r.Ok? && kind == BegTacSt ==> |decls| == |old(decls)| + 1
      ensures var l := LineAt(file.lines, old(file.pos), old(StateOf()));
        && (r.Ok? <==> l.Ok?)
        && (r.Ok? ==> r.value == l.value.0 && StateOf() == l.value.1 && file.pos == l.value.2)
    {
      var f := file;
      if kind == BegPf {
        var n :- ParseBeginPf();
        return Ok(Some(n));
      } else if kind == BegTacSt {
        var d :- ReadTacSt();
        decls := decls + [d];
      } else if kind == Tables {
        var _ :- ParseEpilogue();
      } else {
        var _ := f.ConsumeLine();
      }
      return Ok(None);
    }

    /** One pass of the loop of `parse_lemma`: the line at the cursor
        closes the innermost of the lemmas `names` opened so far, is
        rejected, or is read, which may open a lemma; each case is the
        corresponding step of `LemmaFrom`. */
    method LemmaStep(names: seq<string>) returns (r: Result<Option<Lemma>, TraceError>, names': seq<string>)
      requires Valid() && !exhausted && file.pos < |file.lines|
      modifies this, file
      ensures Valid()
      ensures r.Err? ==> LemmaFrom(file.lines, old(file.pos), names, old(StateOf())).Err?
      ensures r.Ok? && r.value.None? ==>
        && old(file.pos) < file.pos && !exhausted && lems == old(lems)
        && LemmaFrom(file.lines, old(file.pos), names, old(StateOf())) == LemmaFrom(file.lines, file.pos, names', StateOf())
      ensures r.Ok? && r.value.Some? ==> var e := LemmaFrom(file.lines, old(file.pos), names, old(StateOf()));
        && e.Ok? && e.value.Closed? && e.value.end == file.pos && r.value.value == e.value.closed
        && lems == old(lems) + [r.value.value]
        && exhausted == (file.pos == |file.lines|)
        && Clear()
    {
      var f := file;
      names' := names;
      var kind := KindOf(f.lines[f.pos]);
      if kind == EndPf {
        var lem := CloseLemma(names);
        if lem.Err? {
          return Err(lem.error), names';
        }
        return Ok(Some(lem.value)), names';
      } else if kind == Unknown {
        return Err(UnknownLine(f.LineNo(), f.PeekLine())), names';
      }
      var n := ParseLemmaLine(kind);
      if n.Err? {
        return Err(n.error), names';
      }
      names' := Pushed(names, n.value);
      return Ok(None), names';
    }

    /** `parse_lemma`: reads up to the `en(pf)` that closes the innermost
        open lemma and returns that lemma; `None` when the file ends
        first. */
    method ParseLemma() returns (r: Result<Option<Lemma>, TraceError>)
      requires Valid()
      modifies this, file
      ensures Valid()
      ensures old(exhausted) ==> r == Err(AlreadyParsed) && file.pos == old(file.pos)
      ensures r.Ok? && r.value.None? ==>
        file.pos == |file.lines| && lems == old(lems) && !exhausted
      ensures !old(exhausted) ==> var e := LemmaFrom(file.lines, old(file.pos), [], old(StateOf()));
        && (r.Ok? <==> e.Ok?)
        && (r.Ok? ==> (r.value.Some? <==> e.value.Closed?))
        && (r.Ok? && r.value.Some? ==> r.value.value == e.value.closed && file.pos == e.value.end)
        && (r.Ok? && r.value.None? ==> StateOf() == e.value.state)
      ensures r.Ok? && r.value.Some? ==> var lem := r.value.value;
        && old(file.pos) < file.pos && ClosesLemma(file.lines, file.pos)
        && (exists k :: old(file.pos) <= k < file.pos && OpensLemma(file.lines, k, lem.name))
        && |old(decls)| <= |lem.decls|
        && (forall i :: 0 <= i < |old(decls)| ==> SameDecl(lem.decls[i], old(decls)[i]))
        && SharePretty(lem.decls)
        && lems == old(lems) + [lem]
        && exhausted == (file.pos == |file.lines|)
        && Clear()
    {
      if exhausted {
        return Err(AlreadyParsed);
      }
      ghost var p0 := file.pos;
      ghost var s0 := StateOf();
      r := ReadLemma();
      if r.Ok? && r.value.Some? {
        ClosedFacts(file.lines, p0, s0, file.pos, r.value.value);
      }
    }

    /** `parse_lemma` past its `exhausted` guard, which the loop of
        `parse_file` never trips: the loop, as the steps of `LemmaFrom`. */
    method ReadLemma() returns (r: Result<Option<Lemma>, TraceError>)
      requires Valid() && !exhausted
      modifies this, file
      ensures Valid()
      ensures var e := LemmaFrom(file.lines, old(file.pos), [], old(StateOf()));
        && (r.Ok? <==> e.Ok?)
        && (r.Ok? ==> (r.value.Some? <==> e.value.Closed?))
        && (r.Ok? && r.value.Some? ==> r.value.value == e.value.closed && file.pos == e.value.end)
        && (r.Ok? && r.value.None? ==> StateOf() == e.value.state)
      ensures r.Ok? && r.value.None? ==>
        file.pos == |file.lines| && lems == old(lems) && !exhausted
      ensures r.Ok? && r.value.Some? ==>
        && lems == old(lems) + [r.value.value]
        && exhausted == (file.pos == |file.lines|)
        && Clear()
    {
      var f := file;
      ghost var p0 := f.pos;
      ghost var s0 := StateOf();
      var names: seq<string> := [];
      while f.RawPeekLine() != ""
        invariant Valid() && p0 <= f.pos <= |f.lines|
        invariant !exhausted && lems == old(lems)
        invariant LemmaFrom(f.lines, f.pos, names, StateOf()) == LemmaFrom(f.lines, p0, [], s0)
        decreases |f.lines| - f.pos
      {
        var step;
        step, names := LemmaStep(names);
        if step.Err? || step.value.Some? {
          return step;
        }
      }
      return Ok(None);
    }

    /** `parse_file`: every lemma of the trace, in order. */
    method ParseFile() returns (r: Result<seq<Lemma>, TraceError>)
      requires Valid()
      modifies this, file
      ensures Valid()
      ensures old(exhausted) ==> r == Err(AlreadyParsed)
      ensures r.Ok? ==> exhausted && file.pos == |file.lines| && r.value == lems
      ensures r.Ok? ==> |old(lems)| <= |lems| && lems[..|old(lems)|] == old(lems)
      ensures r.Ok? ==> forall i :: |old(lems)| <= i < |lems| ==> SharePretty(lems[i].decls)
      ensures !old(exhausted) ==> var ls := LemmasFrom(file.lines, old(file.pos), old(StateOf()));
        (r.Ok? <==> ls.Ok?) && (r.Ok? ==> r.value == old(lems) + ls.value)
    {
      if exhausted {
        return Err(AlreadyParsed);
      }
      ghost var p0 := file.pos;
      ghost var s0 := StateOf();
      r := ReadFile();
      if r.Ok? {
        LemmasFromShare(file.lines, p0, s0);
      }
    }

    /** The loop of `parse_file`, as `LemmasFrom`. */
    method ReadFile() returns (r: Result<seq<Lemma>, TraceError>)
      requires Valid() && !exhausted
      modifies this, file
      ensures Valid()
      ensures var ls := LemmasFrom(file.lines, old(file.pos), old(StateOf()));
        && (r.Ok? <==> ls.Ok?)
        && (r.Ok? ==> r.value == lems && lems == old(lems) + ls.value && exhausted && file.pos == |file.lines|)
    {
      var f := file;
      var line := f.RawPeekLine();
      ghost var spec := LemmasFrom(f.lines, f.pos, StateOf());
      ghost var done: seq<Lemma> := [];
      PrefixedNone(spec);
      while line != ""
        invariant Valid() && line == f.RawPeekLine() && !exhausted
        invariant lems == old(lems) + done
        invariant spec == Prefixed(done, LemmasFrom(f.lines, f.pos, StateOf()))
        decreases |f.lines| - f.pos
      {
        ghost var p := f.pos;
        ghost var st := StateOf();
        var lem := ReadLemma();
        if lem.Err? {
          return Err(lem.error);
        }
        if lem.value.Some? {
          LemmasFromClosed(f.lines, p, st);
          PrefixedPrefixed(done, [lem.value.value], LemmasFrom(f.lines, f.pos, StateOf()));
          done := done + [lem.value.value];
        }
        line := f.RawPeekLine();
        if line == "" {
          break;
        }
      }
      assert spec.Ok? && spec.value == done;
      exhausted := true;
      return Ok(lems);
    }
  }
}
