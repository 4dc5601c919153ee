# A verified model of gamepad's proof-trace reconstruction

gamepad is a Python framework for machine learning over Coq proofs. An
instrumented Coq prints a trace ("dump") of every tactic it runs: a
`bg(pf)` line names each lemma, and each tactic is recorded as a pair of
before/after tactic states (`bg(ts)` … `en(ts)`). After each lemma comes an
epilogue of six tables: the shared expression tables and the
pretty-printing tables. This project models in Dafny the part of gamepad
that turns such a trace into data:

* **Lexers.** Two generations of `TacStParser` read the trace line by line
  into tactic-state declarations grouped per lemma:
  * `ml4tputils/recon/lex_raw.py` is modelled by `DeclLexer`;
  * the older `ml4tputils/lex_raw.py` is modelled by `OldDeclLexer`.

  They share their text helpers (`Text`, `TraceText`) and a line cursor
  (`LineCursor.LineFile`), which stands in for the `MyFile` reader they use.
* **Tactic-tree parser** of `utils/parse_tacst.py` (`TacticParser`). It
  regroups a lemma's flat list of declarations into a tree of tactic
  invocations. The regrouping is chosen by a dispatch on each tactic's name
  (fixed-arity, varying-arity, nested, ssreflect `;`/`do` forms).
* **Tactic trees.** The builders of `ml4tputils/recon/tactr.py`
  (`ProofGraph`) and `ml4tputils/tactr.py` (`TacticTree`) turn declarations
  into a graph of goals joined by tactic edges. They provide its root,
  error and terminal goals, its shortest-path views and its grouping of
  edges per tactic. Both use `Graphs`, which stands in for the edge-list
  graph they keep, and `Groups`, for the grouping.
* **Coq expressions** of `ml4tputils/coq/util.py` (`CoqExp`): the
  well-formedness check of the shared expression table (`ChkCoqExp`) and
  the memoised size and per-kind histogram of an expression (`SizeCoqExp`,
  `HistCoqExp`).
* **The tactic catalogue** of `ml4tputils/coq/tactics.py` (`Tactics`).
* **Tactic-state preparation** for learning, `ml4tputils/ml/tacst_prep.py`
  (`TacstPrep`).
* **Bookkeeping of the position-evaluation model**, from
  `ml4tputils/ml/poseval/fold_model.py` and `fold_train.py` (`FoldModel`,
  `FoldTrain`). This covers the feature-table layout and the batching of
  training data, not the neural network itself.

Objects whose fields the Python code updates in place are classes:
`LineFile`, both `TacStParser`s, `TacTreeParser` and the tree builders.
Each method states its result and the new state as a function of its
inputs and the old state: the lexers' `parse_lemma` and `parse_file` as
`LemmaFrom` and `LemmasFrom` (`FileFrom` in the older lexer) of the lines,
the position and the lexer state they start from, one line of the loop as
`LineAt`, the tree builders as `FlatAt` and the views of the graph. Pure helpers are functions, with lemmas for their meaning
(round trips of the printed forms, first-match searches, which keys a
table ends up with, the layout of each tree).

## Model

| member | source | states |
|---|---|---|
| Text.IndexOfSpec | ml4tputils/recon/lex_raw.py:353 | `find` returns the first index where the substring occurs, and -1 exactly when it occurs nowhere |
| Text.IndexOfCharSpec | ml4tputils/recon/lex_raw.py:353 | a one-character `find` is -1 exactly when the character is absent; otherwise it holds the character and nothing before it does |
| Text.SplitInverse | ml4tputils/recon/lex_raw.py:327 | joining the pieces of `split(sep)` with `sep` gives the text back, and no piece contains `sep` |
| Text.SplitJoin | ml4tputils/recon/lex_raw.py:327 | splitting a join gives the pieces back when no piece holds the separator's first character |
| Text.StripPadded | ml4tputils/recon/lex_raw.py:335 | `strip` removes exactly the white space around a stripped text |
| Text.TwoWords | ml4tputils/recon/lex_raw.py:83 | `split()` of two words separated by white space is those two words |
| Text.IntRoundTrip | ml4tputils/recon/lex_raw.py:334 | `int(str(i)) == i` for every integer |
| Text.IntToStrInjective | ml4tputils/recon/lex_raw.py:334 | different integers print differently |
| LineCursor.LineFile.constructor | ml4tputils/recon/lex_raw.py:195 | a fresh reader over the lines, positioned at the first |
| LineCursor.LineFile.ConsumeLine | ml4tputils/recon/lex_raw.py:326 | returns the next logical line and advances by one; at the end of the file it fails and stays put |
| LineCursor.LineFile.RawConsumeLine | ml4tputils/recon/lex_raw.py:454 | skips one raw line, and does nothing at the end of the file |
| LineCursor.LineFile.AdvanceLine | ml4tputils/lex_raw.py:167 | consumes the current line and returns the one after it; fails, without moving, at the end of the file |
| TraceText.ReverseReverse | ml4tputils/recon/lex_raw.py:243 | reversing a list twice gives it back |
| TraceText.StripIdempotent | ml4tputils/recon/lex_raw.py:335 | stripping twice is stripping once |
| TraceText.IntField | ml4tputils/recon/lex_raw.py:334 | `int(toks[i].strip())` succeeds exactly when field `i` exists and is a numeral, with that numeral's value |
| TraceText.AccumulateText | ml4tputils/recon/lex_raw.py:326-331 | the accumulated header is the first line followed by the lines consumed after it |
| TraceText.AccumulateMinimal | ml4tputils/recon/lex_raw.py:328-331 | the header loop stops at the first line that gives enough fields: every shorter prefix has fewer |
| TraceText.AccumulateOneLine | ml4tputils/recon/lex_raw.py:328 | a header already complete on its first line consumes nothing more |
| TraceText.TableEntryWithoutColon | ml4tputils/recon/lex_raw.py:351-356 | without a ":", `find` gives -1: the key is the line less its last character and the value is the whole line |
| TraceText.TableEntryRoundTrip | ml4tputils/recon/lex_raw.py:351-356 | a line `key: value` (key without ":", both stripped) is read back as that key and value |
| TraceText.InsertAllSpec | ml4tputils/recon/lex_raw.py:365-367 | filling a dictionary from entries adds exactly their keys; each key takes the value of its last entry; other keys keep their values |
| TraceText.ConvertValuesSpec | ml4tputils/recon/lex_raw.py:367 | converting every value with `int` succeeds exactly when each value converts, and then converts each in place |
| TraceText.ConvertKeysSpec | ml4tputils/recon/lex_raw.py:390 | the same for converting every key |
| TraceText.SectionLines | ml4tputils/recon/lex_raw.py:364-367 | a table section is the lines from the cursor up to, not including, the first one starting with the next table's token |
| TraceText.SectionLine | ml4tputils/recon/lex_raw.py:364-367 | line `i` of a section is line `pos + i` of the file and does not start with the stop token |
| TraceText.SectionMissing | ml4tputils/recon/lex_raw.py:364 | with no stop line ahead, reading a section fails (consuming past the end) |
| TraceText.SectionErr | ml4tputils/recon/lex_raw.py:364 | when some line ahead starts with the stop token, the section is read |
| TraceText.SectionUnique | ml4tputils/recon/lex_raw.py:364-367 | the section is determined by its lines and its stop line |
| TraceText.ReadHeader | ml4tputils/recon/lex_raw.py:326-331 | consumes the header line and as many more as it takes to have `n` fields, as `Accumulate` describes; fails at the end of the file |
| TraceText.ReadSection | ml4tputils/recon/lex_raw.py:358-367 | consumes the title line and a section's lines, returning their `key: value` entries and stopping on the next table's line, as `SectionEntriesAt` describes |
| DeclLexer.IsAfterModes | ml4tputils/recon/lex_raw.py:52-53 | "af…" and "dead…" modes are after-states and "bf…" is not |
| DeclLexer.ModeAlone | ml4tputils/recon/lex_raw.py:83-86 | a one-word mode has no after-goal id |
| DeclLexer.ModeWithGoal | ml4tputils/recon/lex_raw.py:83-88 | a mode word followed by a goal id reads back as the word and `int` of the id |
| DeclLexer.DeclBodyEmpty | ml4tputils/recon/lex_raw.py:238-239 | an empty identifier field gives an empty context |
| DeclLexer.IdentsRoundTrip | ml4tputils/recon/lex_raw.py:241 | identifiers printed comma-separated read back as the same identifiers |
| DeclLexer.DeclBodyRoundTrip | ml4tputils/recon/lex_raw.py:228-244 | a body line of identifiers printed innermost first, then the conclusion index, reads back as the context in order (after the `reverse`) and that index |
| DeclLexer.LiveFieldsRoundTrip | ml4tputils/recon/lex_raw.py:271-273 | a live header `ngs{!}ftac{!}gid` reads back as its three fields |
| DeclLexer.TacStStartRoundTrip | ml4tputils/recon/lex_raw.py:321-341 | a one-line `bg(ts)` header with six fields reads back as call id, mode, tactic, kind and location |
| DeclLexer.DeclShapeInside | ml4tputils/recon/lex_raw.py:252-262 | both declaration shapes start on a line of the file |
| DeclLexer.SolvedDeclAt | ml4tputils/recon/lex_raw.py:252-262 | a state opened by "ngs=0" consumes two lines and has goal id -1, no open goals, no full tactic, an empty context and conclusion -1 |
| DeclLexer.LiveDeclAt | ml4tputils/recon/lex_raw.py:262-277 | a live state printed as a header and a body line reads back as the declaration printed, consuming those two lines |
| DeclLexer.LiveHeaderOneLine | ml4tputils/recon/lex_raw.py:265-270 | a header printed on one line consumes only that line |
| DeclLexer.LiveAtNoHeader | ml4tputils/recon/lex_raw.py:265-270 | a live state fails when its header runs past the end of the file |
| DeclLexer.LiveAtNoFields | ml4tputils/recon/lex_raw.py:271-273 | a live state fails when its header fields do not convert |
| DeclLexer.LiveAtNoBody | ml4tputils/recon/lex_raw.py:277 | a live state fails when its body line is missing or malformed |
| DeclLexer.EpilogueOk | ml4tputils/recon/lex_raw.py:427-437 | the epilogue is the six tables read one after another, each ending where the next begins |
| DeclLexer.CtxOfSpec | ml4tputils/recon/lex_raw.py:167-169 | the context maps exactly the lemma's identifiers, each to its pretty type |
| DeclLexer.InfoOfSpec | ml4tputils/recon/lex_raw.py:166-174 | a declaration's entry exists exactly when its identifiers have pretty types and its conclusion a pretty goal, and holds them |
| DeclLexer.InfoTableKeys | ml4tputils/recon/lex_raw.py:161-175 | the table has one entry per goal id of the declarations |
| DeclLexer.InfoTableOk | ml4tputils/recon/lex_raw.py:161-175 | the table fails exactly when a declaration that is the first with its goal id has no entry |
| DeclLexer.InfoTableValues | ml4tputils/recon/lex_raw.py:164-174 | each goal id's entry is that of the first declaration with that id; later ones are ignored |
| DeclLexer.InfoTableStaysErr | ml4tputils/recon/lex_raw.py:161-175 | once a declaration fails, the whole table fails with that error |
| DeclLexer.FirstOfGidFresh | ml4tputils/recon/lex_raw.py:164-165 | a declaration is the first with its goal id exactly when no earlier one has that id |
| DeclLexer.GetTacstInfo | ml4tputils/recon/lex_raw.py:161-175 | the loop builds exactly the table `InfoTable` describes, or fails with its error |
| DeclLexer.SeekAtFound | ml4tputils/recon/lex_raw.py:445-452 | the search stops at a `bg(pf)` line naming the lemma |
| DeclLexer.SeekAtPassed | ml4tputils/recon/lex_raw.py:445-454 | every line passed over neither names the lemma nor is a nameless `bg(pf)` line, so the one found is the first |
| DeclLexer.SeekAtNotFound | ml4tputils/recon/lex_raw.py:456 | the search raises "not found" exactly when no line ahead names the lemma or is nameless |
| DeclLexer.SeekAtNameless | ml4tputils/recon/lex_raw.py:449 | any other failure is a `bg(pf)` line with too few fields |
| DeclLexer.KindOfToken | ml4tputils/recon/lex_raw.py:474-509 | no token is a prefix of another, so a line starting with a token is dispatched to that token's branch |
| DeclLexer.WithPrettyShares | ml4tputils/recon/lex_raw.py:479-482 | after the tables are attached, every declaration holds the same tables and is otherwise unchanged |
| DeclLexer.TacStDeclAt | ml4tputils/recon/lex_raw.py:501-503 | a `bg(ts)` block is its six-field header, then the declaration it introduces, and ends past its first line |
| DeclLexer.LineAt | ml4tputils/recon/lex_raw.py:473-508 | one line other than `en(pf)`: the cursor moves forward, and a name it yields comes from a `bg(pf)` line at that position |
| DeclLexer.CloseAt | ml4tputils/recon/lex_raw.py:477-487 | the `en(pf)` branch fails exactly when no lemma is open (the `pop` of an empty stack) |
| DeclLexer.LineAtDecls | ml4tputils/recon/lex_raw.py:501-504 | a line other than `en(pf)` only appends to the declarations |
| DeclLexer.CloseAtKeeps | ml4tputils/recon/lex_raw.py:480-486 | the lemma closed keeps the declarations, less their pretty tables, and they share one set of pretty tables |
| DeclLexer.LemmaFromKeeps | ml4tputils/recon/lex_raw.py:472-512 | a lemma the loop closes ends at an `en(pf)` line, keeps the declarations held when the loop started and shares one set of pretty tables; when the file ends first, the declarations read are appended to those held |
| DeclLexer.LemmaFromOpens | ml4tputils/recon/lex_raw.py:474-484 | the lemma closed is named by a `bg(pf)` line read on the way, whatever was open before |
| DeclLexer.ClosedFacts | ml4tputils/recon/lex_raw.py:472-494 | a lemma closed by a call from the cursor ends at an `en(pf)` line after it, is named by a `bg(pf)` read in between, keeps the declarations held before and shares one set of pretty tables |
| DeclLexer.LemmasFromClosed | ml4tputils/recon/lex_raw.py:524-530 | the lemma the first call closes heads the lemmas of the file, and the rest are read from where it ended with the state reset |
| DeclLexer.LemmasFromShare | ml4tputils/recon/lex_raw.py:514-530 | every lemma of the file shares one set of pretty tables among its declarations |
| DeclLexer.TacStParser.constructor | ml4tputils/recon/lex_raw.py:192-213 | a fresh reader at the first line, not exhausted, with no lemma state and no lemmas |
| DeclLexer.TacStParser.Reset | ml4tputils/recon/lex_raw.py:219-226 | the declarations and the six tables are emptied; the lemmas read so far are kept |
| DeclLexer.TacStParser.ParseDeclBody | ml4tputils/recon/lex_raw.py:228-244 | consumes one line and reads it as `DeclBodyOf` describes; fails at the end of the file |
| DeclLexer.TacStParser.ParseSolved | ml4tputils/recon/lex_raw.py:252-262 | reads a solved state as `SolvedAt` describes |
| DeclLexer.TacStParser.ParseLive | ml4tputils/recon/lex_raw.py:262-277 | reads a live or dead state as `LiveAt` describes |
| DeclLexer.TacStParser.ParseDecl | ml4tputils/recon/lex_raw.py:246-281 | succeeds exactly when `DeclAt` does, with its declaration and end position; any other line is the parsing error |
| DeclLexer.TacStParser.ParseBeginPf | ml4tputils/recon/lex_raw.py:283-295 | consumes the `bg(pf)` line and returns its third field, the lemma's name |
| DeclLexer.TacStParser.ParseBegTacSt | ml4tputils/recon/lex_raw.py:321-341 | reads a header over as many lines as it takes to have six fields, then its call id, mode, tactic, kind and location |
| DeclLexer.TacStParser.ParseCtxTyps | ml4tputils/recon/lex_raw.py:358-367 | reads the `Typs` table up to `Bods` into `ctx_typs`, with `int` values; the other tables are unchanged |
| DeclLexer.TacStParser.ParseCtxBods | ml4tputils/recon/lex_raw.py:369-378 | reads the `Bods` table up to `Constrs` into `ctx_bods`, with `int` values |
| DeclLexer.TacStParser.ParseConstrShare | ml4tputils/recon/lex_raw.py:380-390 | reads the `Constrs` table up to `PrTyps` into `constr_share`, with `int` keys |
| DeclLexer.TacStParser.ParseCtxPrTyps | ml4tputils/recon/lex_raw.py:392-402 | reads the `PrTyps` table up to `PrBods` into `ctx_prtyps` |
| DeclLexer.TacStParser.ParseCtxPrBods | ml4tputils/recon/lex_raw.py:404-414 | reads the `PrBods` table up to `PrGls` into `ctx_prbods` |
| DeclLexer.TacStParser.ParseCtxPrGls | ml4tputils/recon/lex_raw.py:416-425 | reads the `PrGls` table up to `en(pf)` into `ctx_prgls`, with `int` keys |
| DeclLexer.TacStParser.ParseEpilogue | ml4tputils/recon/lex_raw.py:427-437 | succeeds exactly when `EpilogueAt` does; each table field becomes the old one updated with that table's entries |
| DeclLexer.TacStParser.SeekLemma | ml4tputils/recon/lex_raw.py:439-456 | stops at the position `SeekAt` gives, or fails with its error |
| DeclLexer.TacStParser.CloseLemma | ml4tputils/recon/lex_raw.py:477-494 | consumes `en(pf)` and ends as `CloseAt` says. With no open lemma it fails (the `pop` of an empty stack). Otherwise it returns a lemma named after the innermost open `bg(pf)`, with the declarations read, all sharing the pretty tables. It appends that lemma, sets `exhausted` exactly at the end of the file, and clears the lemma state |
| DeclLexer.TacStParser.ReadTacSt | ml4tputils/recon/lex_raw.py:501-503 | reads the block exactly as `TacStDeclAt` describes |
| DeclLexer.TacStParser.ParseLemmaLine | ml4tputils/recon/lex_raw.py:473-508 | one line other than `en(pf)`, read exactly as `LineAt` describes (result, new state and position): a `bg(pf)` returns the name it opens; a `bg(ts)` adds exactly one declaration; earlier declarations are kept |
| DeclLexer.TacStParser.LemmaStep | ml4tputils/recon/lex_raw.py:472-512 | one pass of the loop, as one step of `LemmaFrom`: a failure is a failure of `LemmaFrom`; a line read leaves `LemmaFrom` from the new cursor, names and state equal to `LemmaFrom` from the old; a lemma closed is the one `LemmaFrom` closes there, and is recorded |
| DeclLexer.TacStParser.ParseLemma | ml4tputils/recon/lex_raw.py:458-512 | fails once the file is exhausted; otherwise ends as `LemmaFrom` from the cursor with no lemma open: None at the end of the file, or the lemma closed by the next `en(pf)`, named by a `bg(pf)` read in this call, keeping the declarations held before, with one set of pretty tables, and appended to the lemmas |
| DeclLexer.TacStParser.ReadLemma | ml4tputils/recon/lex_raw.py:470-512 | the loop of `parse_lemma` ends exactly as `LemmaFrom` from the cursor with no lemma open |
| DeclLexer.TacStParser.ParseFile | ml4tputils/recon/lex_raw.py:514-530 | fails once the file is exhausted; otherwise returns the earlier lemmas followed by exactly the lemmas `LemmasFrom` reads from the cursor, each with one set of pretty tables, and marks the file exhausted |
| DeclLexer.TacStParser.ReadFile | ml4tputils/recon/lex_raw.py:524-530 | the loop of `parse_file` records exactly the lemmas `LemmasFrom` reads, ending at the end of the file |
| OldDeclLexer.TypeRestStep | ml4tputils/lex_raw.py:165-167 | a line that is neither the divider nor holds a ":" is appended to the type, stripped, after one space |
| OldDeclLexer.TypeRestEnd | ml4tputils/lex_raw.py:167 | running out of lines inside a type is the error of advancing past the end |
| OldDeclLexer.TypeRestSpec | ml4tputils/lex_raw.py:160-168 | a type is its first line's text followed by each continuation line, stripped, after one space |
| OldDeclLexer.TypeRestStops | ml4tputils/lex_raw.py:165 | the line that ends a type is the divider or holds a ":" |
| OldDeclLexer.HypLineSplit | ml4tputils/lex_raw.py:156-161 | the first ":" of a printed hypothesis follows its name, and stripping either side gives back the name and the type |
| OldDeclLexer.LocalDeclRoundTrip | ml4tputils/lex_raw.py:149-168 | a printed hypothesis followed by the divider or another hypothesis reads back as itself, consuming one line |
| OldDeclLexer.PrintedCtxNext | ml4tputils/lex_raw.py:178 | a printed context's first line is the divider or holds a ":" |
| OldDeclLexer.LocalCtxRoundTrip | ml4tputils/lex_raw.py:170-182 | a printed context reads back as that context, in order, stopping at the divider |
| OldDeclLexer.GoalRestSpec | ml4tputils/lex_raw.py:204-216 | the goal is its lines concatenated, up to the line starting with the separator |
| OldDeclLexer.GoalRestStops | ml4tputils/lex_raw.py:213 | the goal stops at a line starting with the separator |
| OldDeclLexer.GoalRestUnclosed | ml4tputils/lex_raw.py:213-215 | without a separator line below it, the goal runs into the end of the file |
| OldDeclLexer.GoalRestPasses | ml4tputils/lex_raw.py:213-214 | no line the goal takes after its first starts with the separator |
| OldDeclLexer.GoalSpec | ml4tputils/lex_raw.py:204-216 | the first goal line is taken whatever it holds, then the rest as above |
| OldDeclLexer.AstCtxOfEmptyLine | ml4tputils/lex_raw.py:218-226 | an empty index line reads as one empty index, not as none |
| OldDeclLexer.SolvedDeclAt | ml4tputils/lex_raw.py:242-252 | a solved state consumes two lines and has no open goals, goal id -1, no full tactic, no hypotheses, the placeholder goal and no indices |
| OldDeclLexer.ReadTypeRest | ml4tputils/lex_raw.py:164-167 | the continuation loop reads what `TypeRestAt` describes |
| OldDeclLexer.ParseLocalDecl | ml4tputils/lex_raw.py:149-168 | succeeds exactly when `LocalDeclAt` does: a line without ":" is the parsing error |
| OldDeclLexer.ParseLocalCtx | ml4tputils/lex_raw.py:170-182 | reads hypotheses for as long as the next line holds a ":", as `LocalCtxAt` describes |
| OldDeclLexer.ParsePfDiv | ml4tputils/lex_raw.py:193-202 | consumes one line and succeeds exactly when it is the divider |
| OldDeclLexer.ReadGoalRest | ml4tputils/lex_raw.py:213-215 | the goal loop reads what `GoalRestAt` describes |
| OldDeclLexer.ParseGoal | ml4tputils/lex_raw.py:204-216 | reads the goal as `GoalAt` describes |
| OldDeclLexer.ParseLocalAstCtx | ml4tputils/lex_raw.py:218-226 | consumes one line and splits it on "," into stripped indices; fails only at the end of the file |
| OldDeclLexer.ParseAstGoal | ml4tputils/lex_raw.py:228-234 | consumes one line and reads it with `int`, failing exactly when it is not a numeral |
| OldDeclLexer.ParseAst | ml4tputils/lex_raw.py:271-273 | reads the expression indices that close a live state, as `AstAt` describes |
| OldDeclLexer.ParseGoalSep | ml4tputils/lex_raw.py:269-270 | reads the goal and skips the separator line below it |
| OldDeclLexer.ParseHyps | ml4tputils/lex_raw.py:267-268 | reads the hypotheses and the divider below them |
| OldDeclLexer.ParseBody | ml4tputils/lex_raw.py:267-273 | reads the body of a live state as `BodyAt` describes |
| OldDeclLexer.ParseLiveHeader | ml4tputils/lex_raw.py:255-263 | reads a header over as many lines as it takes to have three fields |
| OldDeclLexer.ParseLive | ml4tputils/lex_raw.py:253-273 | reads a live or dead state as `LiveAt` describes, consuming at least one line |
| OldDeclLexer.ParseDecl | ml4tputils/lex_raw.py:236-276 | succeeds exactly when `DeclAt` does, with its declaration and end position |
| OldDeclLexer.KindOfToken | ml4tputils/lex_raw.py:403-445 | each token reaches its own branch of the dispatch: none is shadowed by one tried before it |
| OldDeclLexer.TacStDeclAt | ml4tputils/lex_raw.py:429-431 | a `begin(tacst)` block is its six-field header, then the declaration it introduces, and ends past its first line |
| OldDeclLexer.LineAt | ml4tputils/lex_raw.py:403-443 | one line other than `end(pf)`: the cursor moves forward, and a name it yields comes from a `begin(pf)` line at that position |
| OldDeclLexer.CloseAt | ml4tputils/lex_raw.py:408-420 | the `end(pf)` branch fails exactly when no `begin(pf)` was read in this call (the unbound name); otherwise the lemma is recorded last and the state after it still holds the lemma's own declaration list (lines 411 and 432 share it) |
| OldDeclLexer.AddDeclKeeps | ml4tputils/lex_raw.py:432 | appending a declaration grows the last lemma's declarations while it holds the list, changes no other lemma and keeps the state coherent |
| OldDeclLexer.LineAtKeeps | ml4tputils/lex_raw.py:403-443 | a line other than `end(pf)` keeps the state coherent, adds no lemma and grows only the last lemma, and only while it holds the list |
| OldDeclLexer.LineAtFacts | ml4tputils/lex_raw.py:403-443 | a `begin(pf)` names a lemma and starts a new, unshared list (line 407); a `begin(tacst)` appends exactly one declaration; the other lines keep the declarations and the lemmas |
| OldDeclLexer.LemmaFromKeeps | ml4tputils/lex_raw.py:401-447 | what the loop keeps (`Kept`): a lemma it closes ends at an `end(pf)` line, is recorded after the earlier lemmas, of which only the last can have grown, and holds the list the state keeps; the tables are emptied; when the file ends first no lemma is added |
| OldDeclLexer.LineFromKeeps | ml4tputils/lex_raw.py:401-447 | the same from one pass of the loop |
| OldDeclLexer.LemmaFromOpens | ml4tputils/lex_raw.py:403-411 | the lemma closed is named by a `begin(pf)` line read in this call |
| OldDeclLexer.ClosedFacts | ml4tputils/lex_raw.py:401-422 | a lemma closed by a call from the cursor ends at an `end(pf)` after it, is named by a `begin(pf)` read in between, and is recorded after the earlier lemmas, of which only the last can have grown |
| OldDeclLexer.FileFromKeeps | ml4tputils/lex_raw.py:458-466 | `parse_file` keeps the state coherent and the lemmas recorded before it, of which only the last can grow, and only while it holds the declaration list |
| OldDeclLexer.TacStParser.constructor | ml4tputils/lex_raw.py:130-142 | a fresh reader at the first line, not exhausted, with no declarations, empty tables and no lemmas |
| OldDeclLexer.TacStParser.ParseBeginPf | ml4tputils/lex_raw.py:278-290 | consumes the `begin(pf)` line and returns its third field |
| OldDeclLexer.TacStParser.ParseBegTacSt | ml4tputils/lex_raw.py:316-336 | reads a header of six fields over as many lines as needed, then its call id, mode, tactic, kind and location |
| OldDeclLexer.TacStParser.ParseTypsTable | ml4tputils/lex_raw.py:346-358 | reads the `Typs` entries up to `Bods`, as text, into the types table |
| OldDeclLexer.TacStParser.ParseBodsTable | ml4tputils/lex_raw.py:360-372 | reads the `Bods` entries up to `Constrs` into the bodies table |
| OldDeclLexer.TacStParser.ParseConstrsTable | ml4tputils/lex_raw.py:374-386 | reads the `Constrs` entries up to `end(pf)` into the constructors table |
| OldDeclLexer.TacStParser.CloseLemma | ml4tputils/lex_raw.py:408-422 | consumes `end(pf)` and ends as `CloseAt` says. Without a `begin(pf)` read in this call it fails (the name is unbound) and changes nothing else. Otherwise it records the lemma with the declaration list itself and the three tables, sets `exhausted` exactly at the end of the file, empties the tables and keeps the list, now shared with the lemma |
| OldDeclLexer.TacStParser.ReadTacSt | ml4tputils/lex_raw.py:429-431 | reads the block exactly as `TacStDeclAt` describes |
| OldDeclLexer.TacStParser.AppendDecl | ml4tputils/lex_raw.py:432 | the state becomes `AddDecl` of the old one: the list grows, and the last lemma's with it while it holds the list |
| OldDeclLexer.TacStParser.BeginLemma | ml4tputils/lex_raw.py:403-407 | reads the `begin(pf)` line as `LineAt` describes |
| OldDeclLexer.TacStParser.AddTacSt | ml4tputils/lex_raw.py:429-432 | reads the `begin(tacst)` block as `LineAt` describes |
| OldDeclLexer.TacStParser.ReadTypsLine | ml4tputils/lex_raw.py:435-436 | reads the `Typs` table as `LineAt` describes |
| OldDeclLexer.TacStParser.ReadBodsLine | ml4tputils/lex_raw.py:437-438 | reads the `Bods` table as `LineAt` describes |
| OldDeclLexer.TacStParser.ReadConstrsLine | ml4tputils/lex_raw.py:439-440 | reads the `Constrs` table as `LineAt` describes |
| OldDeclLexer.TacStParser.SkipLine | ml4tputils/lex_raw.py:423-443 | consumes a `begin(subpf)`, `end(subpf)`, `end(tacst)` or kludge line as `LineAt` describes |
| OldDeclLexer.TacStParser.ParseLemmaLine | ml4tputils/lex_raw.py:403-443 | one line other than `end(pf)`, read exactly as `LineAt` describes: a `begin(pf)` returns its name and starts a new, unshared list; a `begin(tacst)` appends one declaration, to the last lemma as well while it shares the list; a table title fills that table; `AfterHOHOHO` and the other tokens are consumed and change nothing else |
| OldDeclLexer.TacStParser.LemmaStep | ml4tputils/lex_raw.py:401-447 | one pass of the loop, as one step of `LemmaFrom`: a failure is a failure of `LemmaFrom`; a line read leaves `LemmaFrom` from the new cursor, name and state equal to `LemmaFrom` from the old; a lemma closed is the one `LemmaFrom` closes there, with the state after it |
| OldDeclLexer.TacStParser.ParseLemma | ml4tputils/lex_raw.py:388-447 | fails once the file is exhausted; otherwise ends as `LemmaFrom` from the cursor with no name read: None at the end of the file, or the lemma closed by the next `end(pf)`, named by a `begin(pf)` read before it in this call, holding the current declaration list and recorded after the earlier lemmas, of which only the last can have grown |
| OldDeclLexer.TacStParser.ReadLemma | ml4tputils/lex_raw.py:400-447 | the loop of `parse_lemma` ends exactly as `LemmaFrom` from the cursor with no name read |
| OldDeclLexer.TacStParser.ParseFile | ml4tputils/lex_raw.py:449-466 | fails once the file is exhausted; otherwise ends in the state `FileFrom` gives from the cursor, returns every lemma recorded, keeps the earlier ones (only the last can grow, while it holds the list) and marks the file exhausted |
| OldDeclLexer.TacStParser.ReadFile | ml4tputils/lex_raw.py:458-466 | the loop of `parse_file` ends in the state `FileFrom` gives, at the end of the file |
| TacticParser.HasSubtacBody | utils/parse_tacst.py:24-306 | only the nested shapes (`FixedNestedTac`, `VaryNestedTac`, `SsrtclseqTac`) have a sub-forest |
| TacticParser.InEdgeAsWrittenSpec | utils/parse_tacst.py:90-91 | `in_edge` as written fails exactly on a `VaryTac` and otherwise agrees with the corrected `in_edge` |
| TacticParser.DispatchCloser | utils/parse_tacst.py:634-673 | the loop returns at a declaration exactly when it is one of the closers: the after-declarations of the nested SSReflect tactics and the before-declaration of `ssrexact@0` |
| TacticParser.DispatchModes | utils/parse_tacst.py:581-690 | every before-declaration is handed to some routine (`parse_generic` last); any other declaration is a closer or the parsing error |
| TacticParser.DispatchIntro | utils/parse_tacst.py:582-585 | `intro` takes exactly the before-declarations whose tactic starts with "intro" but not "intros" |
| TacticParser.DispatchSplit | utils/parse_tacst.py:607-609 | a before-declaration of `split` goes to `parse_vary_seq` |
| TacticParser.SsrexactShadowed | utils/parse_tacst.py:594-640 | no declaration reaches the "exact (ssrexactarg)" rule: "exact" is tried first and is a prefix of it |
| TacticParser.FixedShapes | utils/parse_tacst.py:333-369 | both fixed routines succeed exactly when four declarations remain, consume four and draw one uid. The stacked form pairs the alias as (1st, 4th) and the core as (2nd, 3rd); the sequential form pairs the alias as (1st, 2nd) and the core as (3rd, 4th). Otherwise they fail having consumed everything |
| TacticParser.TailCases | utils/parse_tacst.py:388-405 | the tail: an exhausted iterator gives no afters and a terminal node; a next declaration without goals is the one after and makes the node terminal; otherwise exactly max(0, ngs - base + 1) afters, failing when fewer remain |
| TacticParser.VarySeqShape | utils/parse_tacst.py:371-407 | `parse_vary_seq` takes three declarations and then the tail measured against the goals of the third, building a `VaryTac`; it fails only when it runs out |
| TacticParser.GenericShape | utils/parse_tacst.py:535-563 | `parse_generic` takes one declaration. It has no afters and is terminal when the iterator is exhausted or the next declaration is of another tactic; otherwise it takes the tail measured against its own goals |
| TacticParser.NestTermShape | utils/parse_tacst.py:409-432 | `parse_nestterm` takes two declarations and at most two extras: the core's after when the next tactic starts with the core name, and only then the alias's after when the one after starts with the alias name |
| TacticParser.NestedTailCases | utils/parse_tacst.py:478-500 | the nested tail: none when exhausted; one core and one alias after when no goals are left; otherwise max(0, ngs - bf0.ngs + 1) core afters then max(0, ngs - bf.ngs + 1) alias afters |
| TacticParser.NestedDecls | utils/parse_tacst.py:434-521 | a nested node's declarations are the opening ones, its body's, then the closing ones |
| TacticParser.TreeStops | utils/parse_tacst.py:575-691 | the loop returns only when the iterator is exhausted or the table says to return at the next declaration, which is left unconsumed |
| TacticParser.ParseStops | utils/parse_tacst.py:575-691 | `parse_tactree` returns only at the end of the declarations or before a closer |
| TacticParser.TreeCovers | utils/parse_tacst.py:574-691 | the nodes the loop returns hold the nodes it started with plus every declaration it consumed, each exactly once (as multisets) |
| TacticParser.RuleCovers | utils/parse_tacst.py:333-563 | every routine's node holds exactly the declarations the routine consumed, its body included |
| TacticParser.TreeUids | utils/parse_tacst.py:328-331 | the ids in the loop's nodes are those it started with followed by the consecutive ids it drew, in post-order |
| TacticParser.RuleUids | utils/parse_tacst.py:328-331 | a node's ids are the consecutive ids its routine drew |
| TacticParser.ParseUids | utils/parse_tacst.py:320 | the ids of a lemma's nodes are `0, 1, …` in post-order, strictly increasing and therefore distinct |
| TacticParser.NestedUidAbove | utils/parse_tacst.py:450-454 | a nested node's id is drawn after its body is parsed, so it exceeds every id in its body |
| TacticParser.ParseSpec | utils/parse_tacst.py:565-691 | a lemma's parse stops at the end or before a closer, holds every declaration it consumed exactly once, and numbers its nodes `0, 1, …` in post-order |
| TacticParser.InEdgeFirst | utils/parse_tacst.py:61-292 | the corrected `in_edge` of every node is the goal id of the first declaration its routine consumed |
| TacticParser.OutEdgesOwn | utils/parse_tacst.py:63-292 | every goal `out_edges` names is the goal of one of the node's own declarations |
| TacticParser.VarySeqInEdgeFails | utils/parse_tacst.py:90-91 | `parse_vary_seq` always builds a `VaryTac`, whose `in_edge` as written fails |
| TacticParser.SplitInEdgeFails | utils/parse_tacst.py:607-609 | a concrete three-declaration `split` trace parses to one `VaryTac` whose `in_edge` as written fails; the corrected one gives goal 3 |
| TacticParser.TacTreeParser.constructor | utils/parse_tacst.py:313-321 | an iterator at the first declaration and a uid counter at 0 |
| TacticParser.TacTreeParser.Next | utils/parse_tacst.py:345 | `next(it)` returns the next declaration and advances, or raises `StopIteration` at the end and stays put |
| TacticParser.TacTreeParser.GetUid | utils/parse_tacst.py:328-331 | returns the counter and increments it |
| TacticParser.TacTreeParser.TakeRun | utils/parse_tacst.py:403-405 | the `for` loop over `range(n)` takes the next `n` declarations, or raises having consumed the rest |
| TacticParser.TacTreeParser.ParseTail | utils/parse_tacst.py:388-405 | consumes the tail `TailAt` describes, or raises having consumed everything |
| TacticParser.TacTreeParser.ParseNestedTail | utils/parse_tacst.py:478-500 | consumes the tail `NestedTailAt` describes, or raises having consumed everything |
| TacticParser.TacTreeParser.ParseFixedStk | utils/parse_tacst.py:333-350 | result, position and counter are those `FixedStkAt` gives |
| TacticParser.TacTreeParser.ParseFixedSeq | utils/parse_tacst.py:352-369 | result, position and counter are those `FixedSeqAt` gives |
| TacticParser.TacTreeParser.ParseVarySeq | utils/parse_tacst.py:371-407 | result, position and counter are those `VarySeqAt` gives |
| TacticParser.TacTreeParser.ParseNestTerm | utils/parse_tacst.py:409-432 | result, position and counter are those `NestTermAt` gives |
| TacticParser.TacTreeParser.ParseFixedStkNested | utils/parse_tacst.py:434-455 | result, position and counter are those `FixedStkNestedAt` gives, the body parsed by the same table |
| TacticParser.TacTreeParser.ParseVaryStkNested | utils/parse_tacst.py:457-502 | result, position and counter are those `VaryStkNestedAt` gives |
| TacticParser.TacTreeParser.ParseSsrtclseq | utils/parse_tacst.py:504-521 | result, position and counter are those `SsrtclseqAt` gives |
| TacticParser.TacTreeParser.ParseSsrtcldo | utils/parse_tacst.py:523-533 | result, position and counter are those `SsrtcldoAt` gives |
| TacticParser.TacTreeParser.ParseGeneric | utils/parse_tacst.py:535-563 | result, position and counter are those `GenericAt` gives |
| TacticParser.TacTreeParser.ParseRule | utils/parse_tacst.py:581-685 | runs the routine the rule names, as `RuleAt` describes |
| TacticParser.TacTreeParser.ParseTactree | utils/parse_tacst.py:565-691 | result, position and counter are those of `TreeLoop` from the current position with no nodes yet |
| TacticParser.ParseTactics | utils/parse_tacst.py:312-321 | building the parser on a lemma and calling `parse_tactree` gives `ParseLemma`, about which `ParseSpec` holds |
| Graphs.IsRootSpec | ml4tputils/recon/tactr.py:152-157 | comparing the in-degree with the self-loop count is the same as asking that every edge into the node is a self-loop |
| Graphs.FirstRootSpec | ml4tputils/recon/tactr.py:150-159 | the root found is the first node in node order that passes the root rule, and there is none exactly when no node passes it |
| Graphs.FindRoot | ml4tputils/recon/tactr.py:150-159 | the counting loop returns exactly the node `FirstRoot` describes |
| Graphs.SuccListSpec | ml4tputils/recon/tactr.py:210 | the successor list holds exactly the targets of the edges leaving the node, each once |
| Graphs.StepUpToSpec | ml4tputils/recon/tactr.py:259 | one breadth-first round over a prefix of the edges adds exactly the targets of the edges leaving the nodes found so far |
| Graphs.ReachMono | ml4tputils/recon/tactr.py:259 | the nodes within `j` edges are among those within `k >= j` edges |
| Graphs.ReachStable | ml4tputils/recon/tactr.py:259 | once a round of the search adds nothing, no later round adds anything |
| Graphs.PathReach | ml4tputils/recon/tactr.py:259 | the end of a path of `n` edges is within `n` edges of its start |
| Graphs.ReachPath | ml4tputils/recon/tactr.py:259 | a node within `k` edges of the start ends some path of at most `k` edges |
| Graphs.DistFromSpec | ml4tputils/recon/tactr.py:259 | the search from round `k` finds the first round that contains the target, or proves that no round ever does |
| Graphs.DistSpec | ml4tputils/recon/tactr.py:259 | the distance is None exactly when there is no path, and otherwise some path has that many edges and none has fewer |
| Graphs.Expand | ml4tputils/recon/tactr.py:259 | one round of the path search finds exactly the next breadth-first round, recording a path of at most one more edge to each node |
| Graphs.ShortestPath | ml4tputils/recon/tactr.py:259 | `shortest_path` gives nothing exactly when there is no path, and otherwise a path with the fewest edges |
| Graphs.ReachableSplit | ml4tputils/recon/tactr.py:255-262 | the reachable goals are exactly those with a path, and together with the unreachable ones they share out every goal |
| Graphs.FirstReachableSpec | ml4tputils/recon/tactr.py:278-285 | the first reachable goal has only unreachable goals before it, and there is none exactly when no goal is reachable |
| Graphs.FirstStray | ml4tputils/recon/tactr.py:259 | the position of the first goal for which the source or the goal is missing from the graph, none exactly when every lookup finds both |
| Graphs.FirstGoalSpec | ml4tputils/recon/tactr.py:278-285 | the search succeeds with the first reachable goal unless a goal that cannot be looked up comes before every reachable one; the node it reports is missing from the graph; with no such goal it never fails |
| Graphs.FirstGoalPath | ml4tputils/recon/tactr.py:278-285 | fails exactly when the search `FirstGoal` describes meets a node missing from the graph, with that node; otherwise the path is empty when no goal is reachable, and else a shortest path to the first reachable goal |
| Graphs.PathsTo | ml4tputils/recon/tactr.py:255-262 | stops at the first goal `FirstStray` finds the library cannot look up, and returns its position; for the goals before it, one shortest path for each reachable goal, in order, and the unreachable goals in order |
| Groups.GroupKeys | ml4tputils/recon/tactr.py:176-182 | the grouping has a key exactly for each key of a pair, and the key order lists each of them once |
| Groups.GroupValues | ml4tputils/recon/tactr.py:176-182 | each group holds the values of its key's pairs, in pair order |
| Groups.ValuesSpec | ml4tputils/recon/tactr.py:176-182 | a value is in a key's group exactly when a pair carries that key and value |
| Groups.GroupCovers | ml4tputils/recon/tactr.py:176-182 | the group sizes add up to the number of pairs |
| Groups.Group | ml4tputils/recon/tactr.py:176-182 | the dictionary loop builds exactly `GroupPairs`, with its keys in first-occurrence order |
| ProofGraph.UidInjective | ml4tputils/recon/tactr.py:39-69 | two nodes have the same identifier exactly when they are equal, so `__hash__` and `__str__` agree with `__eq__` |
| ProofGraph.ConnExactlyOne | ml4tputils/recon/tactr.py:107-114 | every edge leads to exactly one of a live, a terminal and an error state |
| ProofGraph.TargetsOfSpec | ml4tputils/recon/tactr.py:164-174 | the collected goals are exactly the targets of the edges into states of that kind |
| ProofGraph.TargetsPartition | ml4tputils/recon/tactr.py:164-174 | the live, terminal and error targets together have one entry per edge |
| ProofGraph.TacticsKeys | ml4tputils/recon/tactr.py:176-182 | `tactics` has a key exactly for each tactic identifier some edge carries |
| ProofGraph.TacticsValues | ml4tputils/recon/tactr.py:176-182 | each group is non-empty and holds exactly the edges of that tactic invocation |
| ProofGraph.TacticsCover | ml4tputils/recon/tactr.py:176-182 | the groups together hold every edge once |
| ProofGraph.EntryForSpec | ml4tputils/recon/tactr.py:187-199 | an entry is made only for an invocation not seen before, with the depth of a shortest path and the state information of the target, or of the source for a terminal or error target |
| ProofGraph.FlatAtEntries | ml4tputils/recon/tactr.py:184-199 | every entry of the flattened view has the shortest-path depth of its target and the right state information |
| ProofGraph.FlatAtFirst | ml4tputils/recon/tactr.py:186-199 | every entry comes from the first edge of its invocation |
| ProofGraph.FlatAtDistinct | ml4tputils/recon/tactr.py:186-199 | at most one entry per tactic invocation |
| ProofGraph.FlatAtComplete | ml4tputils/recon/tactr.py:184-199 | the first edge of each invocation whose target is reachable and has state to show has an entry |
| ProofGraph.FlatAtPrefixErr | ml4tputils/recon/tactr.py:192-195 | once a prefix of the edges raises the KeyError, the whole loop raises the same one |
| ProofGraph.FlatAtErrIff | ml4tputils/recon/tactr.py:187-197 | the view fails exactly when the root or some edge's target is not in the graph (the uncaught `NodeNotFound` of `shortest_path`), or the first edge of a reachable invocation goes to a terminal or error state and neither end has state information (the KeyError) |
| ProofGraph.Entry | ml4tputils/recon/tactr.py:187-199 | the loop body for one edge gives the entry `EntryFor` describes |
| ProofGraph.FlattenView | ml4tputils/recon/tactr.py:184-199 | the loop gives the view `FlatAt` describes over all the edges |
| ProofGraph.HaveEdgesSpec | ml4tputils/recon/tactr.py:276-277 | the edges reported are exactly the body edges of an ssreflect `have` |
| ProofGraph.HaveEdgesPrefix | ml4tputils/recon/tactr.py:274-277 | the `have` edges of a prefix of the edges come first, in order |
| ProofGraph.HaveEdgesStep | ml4tputils/recon/tactr.py:274-277 | one more edge adds itself exactly when it is a `have` body edge |
| ProofGraph.HaveEdgesAt | ml4tputils/recon/tactr.py:274-277 | a `have` edge comes right after those of the edges before it |
| ProofGraph.CtxItemValues | ml4tputils/recon/tactr.py:300-308 | the values grouped under a depth are the context item counts of the entries at that depth, in view order, an entry with an empty context counting 0 |
| ProofGraph.DepthItemKeys | ml4tputils/recon/tactr.py:300-308 | a grouping by depth has a key exactly for the depths of the entries |
| ProofGraph.DepthCtxItemsSpec | ml4tputils/recon/tactr.py:300-308 | `view_depth_ctx_items` has the entries' depths as keys, each with the item counts at that depth, one value per entry |
| ProofGraph.TacTree.constructor | ml4tputils/recon/tactr.py:125-138 | the inputs are stored and every computed field starts empty |
| ProofGraph.TacTree.ComputeRoot | ml4tputils/recon/tactr.py:150-159 | `root` becomes the first node passing the root rule and nothing else changes |
| ProofGraph.TacTree.ComputeGoals | ml4tputils/recon/tactr.py:161-162 | `goals` becomes the node list and nothing else changes |
| ProofGraph.TacTree.ComputeTermGoals | ml4tputils/recon/tactr.py:170-174 | `term_goals` becomes the targets of the edges into terminal states, in edge order |
| ProofGraph.TacTree.ComputeErrGoals | ml4tputils/recon/tactr.py:164-168 | `err_goals` becomes the targets of the edges into error states, in edge order |
| ProofGraph.TacTree.ComputeTactics | ml4tputils/recon/tactr.py:176-182 | `tactics` becomes the edges grouped by tactic identifier |
| ProofGraph.TacTree.ComputeFlatView | ml4tputils/recon/tactr.py:184-199 | `flatview` becomes the view `FlatAt` describes, or the KeyError is reported and `flatview` is left as it was |
| ProofGraph.TacTree.InEdge | ml4tputils/recon/tactr.py:201-207 | a node outside the graph is an error; otherwise the edges into the node from its predecessors, in edge order |
| ProofGraph.TacTree.OutEdges | ml4tputils/recon/tactr.py:209-215 | a node outside the graph is an error; otherwise the edges out of the node to its successors, in edge order |
| ProofGraph.TacTree.ViewErrPaths | ml4tputils/recon/tactr.py:255-262 | fails exactly when some error goal is not in the graph, with the first such; the unreachable goals before it are appended to `notok` by identifier; otherwise one shortest path from the root for each reachable error goal |
| ProofGraph.TacTree.ViewTermPaths | ml4tputils/recon/tactr.py:264-271 | the same for the terminal goals |
| ProofGraph.TacTree.HaveOf | ml4tputils/recon/tactr.py:276-286 | the search for one edge fails exactly as `FirstGoal` does; otherwise its entry is as `HaveFits` says |
| ProofGraph.TacTree.ViewHaveInfo | ml4tputils/recon/tactr.py:273-286 | fails exactly when some `have` body edge's search meets a node missing from the graph, with the node of the first such edge; otherwise one entry per `have` body edge, with its tactic, the tactic's length and the identifiers of a shortest path to the first reachable terminal goal, or none (`HaveFits`) |
| ProofGraph.TacTree.ViewDepthCtxItems | ml4tputils/recon/tactr.py:300-308 | the context item counts of the view grouped by depth, as `DepthCtxItemsSpec` describes them |
| ProofGraph.Build | ml4tputils/recon/tactr.py:124-148 | construction fails exactly as `BuildOutcome` says, and a built tree has every field computed and `notok` empty |
| ProofGraph.BuildOutcomeSpec | ml4tputils/recon/tactr.py:142-148 | the tree is built exactly when some node passes the root rule, every edge's target is in the graph and no edge misses its state information |
| ProofGraph.IntoSpec | ml4tputils/recon/tactr.py:201-207 | the edges kept are exactly those into the node whose source is a predecessor |
| ProofGraph.OutOfSpec | ml4tputils/recon/tactr.py:209-215 | the edges kept are exactly those out of the node whose target is a successor |
| ProofGraph.IntoAll | ml4tputils/recon/tactr.py:201-207 | when the graph is the edges' endpoints, `in_edge` keeps as many edges as the node's in-degree |
| TacticTree.TacticIdMapSpec | ml4tputils/tactr.py:61-63 | `TACTIC_ID_MAP` has a key for each tactic name, sent to the index of its last occurrence |
| TacticTree.IdTacticMapSpec | ml4tputils/tactr.py:66-68 | `ID_TACTIC_MAP` has exactly the indices as keys, each sent to its name |
| TacticTree.IdMapsInverse | ml4tputils/tactr.py:61-68 | a name's identifier gives the name back, and with distinct names an index's name gives the index back |
| TacticTree.TacticsDistinct | ml4tputils/tactr.py:10-55 | `TACTICS` holds 45 names, no two equal |
| TacticTree.TacticMapsInverse | ml4tputils/tactr.py:58-68 | over `TACTICS` the two maps are mutually inverse on the indices `0..44` and on the names |
| TacticTree.BuildTacticIdMap | ml4tputils/tactr.py:61-63 | the loop builds exactly `TacticIdMap` |
| TacticTree.BuildIdTacticMap | ml4tputils/tactr.py:66-68 | the loop builds exactly `IdTacticMap` |
| TacticTree.FirstPrefixSpec | ml4tputils/tactr.py:193-196 | the slot counted is the first tactic the name starts with, and there is none exactly when the name starts with no tactic |
| TacticTree.MatchTactic | ml4tputils/tactr.py:193-196 | the scan that breaks at the first match returns exactly `FirstPrefix` |
| TacticTree.FirstPrefixAt | ml4tputils/tactr.py:193-196 | a name that starts with tactic `i` and with none before it is counted in slot `i` |
| TacticTree.ErrTargetsSpec | ml4tputils/tactr.py:103-107 | a goal is an error goal exactly when an edge into an error goal ends there, one entry per such edge |
| TacticTree.TermTargetsSpec | ml4tputils/tactr.py:109-113 | the same for terminal goals |
| TacticTree.TacticsKeys | ml4tputils/tactr.py:115-121 | `tactics` has a key exactly for each tactic identifier of an edge, visited once each in insertion order |
| TacticTree.TacticsValues | ml4tputils/tactr.py:115-121 | each group is non-empty and holds exactly the edges of its invocation, in edge order |
| TacticTree.TacticsCover | ml4tputils/tactr.py:115-121 | the group sizes add up to the number of edges |
| TacticTree.EntryForSpec | ml4tputils/tactr.py:126-138 | an entry is made only for an invocation not seen before, with the depth of a shortest path and the context and goal of the target, or of the source for an error or terminal target |
| TacticTree.FlatAtEntries | ml4tputils/tactr.py:123-138 | every entry has the shortest-path depth of its target and the right context and goal |
| TacticTree.FlatAtFirst | ml4tputils/tactr.py:125-138 | every entry comes from the first edge of its invocation |
| TacticTree.FlatAtDistinct | ml4tputils/tactr.py:125-138 | at most one entry per invocation |
| TacticTree.FlatAtComplete | ml4tputils/tactr.py:123-138 | the first edge of each invocation whose target is reachable and has a state to show has an entry |
| TacticTree.FlatAtPrefixErr | ml4tputils/tactr.py:131-134 | once a prefix of the edges raises the KeyError, the whole loop raises the same one |
| TacticTree.FlatAtErrIff | ml4tputils/tactr.py:126-136 | the view fails exactly when the root or some edge's target is not in the graph (the uncaught `NodeNotFound` of `shortest_path`), or the first edge of a reachable invocation goes to an error or terminal goal and neither end has a context (the KeyError) |
| TacticTree.Entry | ml4tputils/tactr.py:126-138 | the loop body for one edge gives the entry `EntryFor` describes |
| TacticTree.FlattenView | ml4tputils/tactr.py:123-138 | the loop gives the view `FlatAt` describes over all the edges |
| TacticTree.CtxValues | ml4tputils/tactr.py:203-210 | the values grouped under a depth are the context sizes of the entries at that depth, in view order |
| TacticTree.GoalValues | ml4tputils/tactr.py:212-219 | the values grouped under a depth are the goal sizes of the entries at that depth, in view order |
| TacticTree.DepthKeys | ml4tputils/tactr.py:203-219 | a grouping by depth has a key exactly for the depths of the entries |
| TacticTree.DepthCtxSizeSpec | ml4tputils/tactr.py:203-210 | `view_depth_ctx_size` has the entries' depths as keys, each with the context sizes at that depth, one value per entry |
| TacticTree.DepthGoalSizeSpec | ml4tputils/tactr.py:212-219 | the same for the goal sizes |
| TacticTree.SumZeros | ml4tputils/tactr.py:190 | the fresh histogram counts nothing |
| TacticTree.BumpAt | ml4tputils/tactr.py:195 | an increment changes only the matched slot, by one |
| TacticTree.SumBump | ml4tputils/tactr.py:195 | incrementing one slot adds one to the total |
| TacticTree.HistOfSpec | ml4tputils/tactr.py:189-196 | each slot counts the names whose first matching tactic is that slot's, and the counts add up to the number of names that match some tactic |
| TacticTree.FirstEdgesAgree | ml4tputils/tactr.py:191-192 | visiting the groups in insertion order and taking each first edge gives the first edge of each invocation in edge order |
| TacticTree.FirstEdgesFirst | ml4tputils/tactr.py:191-192 | each edge looked at is the first of its invocation |
| TacticTree.FirstEdgesTids | ml4tputils/tactr.py:191-192 | the edges looked at belong to distinct invocations and cover every invocation |
| TacticTree.TacticHistBound | ml4tputils/tactr.py:189-196 | the histogram has one slot per tactic and counts at most one per invocation |
| TacticTree.TacticHist | ml4tputils/tactr.py:189-196 | the counting loop gives exactly `HistOf` over the groups' first names |
| TacticTree.MaxDepthSpec | ml4tputils/tactr.py:222 | the maximum depth bounds every entry's depth and is the depth of some entry |
| TacticTree.DepthHistSpec | ml4tputils/tactr.py:221-235 | the histogram has the keys `0..max`, one slot per tactic under each, and in each slot the number of entries at that depth whose first matching tactic is the slot's |
| TacticTree.DepthHistTotal | ml4tputils/tactr.py:227-234 | the counts over all depths add up to the number of entries whose tactic matches |
| TacticTree.MaxDepthOf | ml4tputils/tactr.py:222 | the loop finds exactly `MaxDepth` |
| TacticTree.ZeroHist | ml4tputils/tactr.py:223-225 | the loop builds exactly `InitHist` |
| TacticTree.CountDepths | ml4tputils/tactr.py:227-234 | the counting loop gives exactly `DepthHist` |
| TacticTree.DepthTacticHist | ml4tputils/tactr.py:221-235 | an empty view is the ValueError of `max`; otherwise the histogram `DepthHist` describes |
| TacticTree.IntoSpec | ml4tputils/tactr.py:140-146 | the edges kept are exactly those into the goal whose source is a predecessor |
| TacticTree.OutOfSpec | ml4tputils/tactr.py:148-154 | the edges kept are exactly those out of the goal whose target is a successor |
| TacticTree.IntoAll | ml4tputils/tactr.py:140-146 | when the graph is the edges' endpoints, `in_edge` keeps as many edges as the goal's in-degree |
| TacticTree.HaveEdgesSpec | ml4tputils/tactr.py:176-177 | the edges reported are exactly the body edges of an ssreflect `have` |
| TacticTree.HaveEdgesPrefix | ml4tputils/tactr.py:175-178 | the `have` edges of a prefix of the edges come first, in order |
| TacticTree.HaveEdgesStep | ml4tputils/tactr.py:175-178 | one more edge adds itself exactly when it is a `have` body edge |
| TacticTree.HaveEdgesAt | ml4tputils/tactr.py:175-178 | a `have` edge comes right after those of the edges before it |
| TacticTree.TacTree.constructor | ml4tputils/tactr.py:72-78 | the inputs are stored and every computed field starts empty |
| TacticTree.TacTree.ComputeRoot | ml4tputils/tactr.py:89-98 | `root` becomes the first node passing the root rule and nothing else changes |
| TacticTree.TacTree.ComputeGoals | ml4tputils/tactr.py:100-101 | `goals` becomes the node list and nothing else changes |
| TacticTree.TacTree.ComputeTermGoals | ml4tputils/tactr.py:109-113 | `term_goals` becomes the targets of the edges into terminal goals |
| TacticTree.TacTree.ComputeErrGoals | ml4tputils/tactr.py:103-107 | `err_goals` becomes the targets of the edges into error goals |
| TacticTree.TacTree.ComputeTactics | ml4tputils/tactr.py:115-121 | `tactics` becomes the edges grouped by tactic identifier, with the insertion order recorded |
| TacticTree.TacTree.ComputeFlatView | ml4tputils/tactr.py:123-138 | `flatview` becomes the view `FlatAt` describes, or the KeyError is reported and `flatview` is left as it was |
| TacticTree.TacTree.InEdge | ml4tputils/tactr.py:140-146 | a goal outside the graph is an error; otherwise the edges into it from its predecessors |
| TacticTree.TacTree.OutEdges | ml4tputils/tactr.py:148-154 | a goal outside the graph is an error; otherwise the edges out of it to its successors |
| TacticTree.TacTree.ViewErrPaths | ml4tputils/tactr.py:156-163 | fails exactly when some error goal is not in the graph, with the first such; the unreachable goals before it are appended to `notok`; otherwise one shortest path from the root for each reachable error goal |
| TacticTree.TacTree.ViewTermPaths | ml4tputils/tactr.py:165-172 | the same for the terminal goals |
| TacticTree.TacTree.HaveOf | ml4tputils/tactr.py:177-187 | the search for one edge fails exactly as `FirstGoal` does; otherwise its entry is as `HaveFits` says |
| TacticTree.TacTree.ViewHaveInfo | ml4tputils/tactr.py:174-187 | fails exactly when some `have` body edge's search meets a goal missing from the graph, with the goal of the first such edge; otherwise one entry per `have` body edge, with its tactic, the tactic's length and a shortest path to the first reachable terminal goal, or none (`HaveFits`) |
| TacticTree.TacTree.ViewTacticHist | ml4tputils/tactr.py:189-201 | one count per tactic of the invocations whose first edge's name it is the first match of, bare or paired with the names |
| TacticTree.TacTree.ViewDepthCtxSize | ml4tputils/tactr.py:203-210 | the context sizes of the view grouped by depth |
| TacticTree.TacTree.ViewDepthGoalSize | ml4tputils/tactr.py:212-219 | the goal sizes of the view grouped by depth |
| TacticTree.TacTree.ViewDepthTacticHist | ml4tputils/tactr.py:221-235 | an empty view fails, otherwise the depth histogram of the view |
| TacticTree.Build | ml4tputils/tactr.py:72-87 | construction fails exactly as `BuildOutcome` says, and a built tree has every field computed and `notok` empty |
| TacticTree.BuildOutcomeSpec | ml4tputils/tactr.py:80-87 | the tree is built exactly when a root exists and is not goal 0, every edge's target is in the graph, and no edge misses its context |
| CoqExp.ChildrenBelow | ml4tputils/coq/util.py:174-214 | every direct subexpression is structurally smaller than its node, so the traversals terminate |
| CoqExp.LeafChildren | ml4tputils/coq/util.py:168-202 | the leaf kinds and unsupported nodes have no subexpressions |
| CoqExp.ForestAppend | ml4tputils/coq/util.py:218-219 | `sizes` of a concatenation is the sum of the two parts' sizes |
| CoqExp.SizeOfChildren | ml4tputils/coq/util.py:174-214 | a node's size is one more than the sum of its direct subexpressions' sizes |
| CoqExp.ElemInForest | ml4tputils/coq/util.py:218-219 | each expression's size is at most the sum `sizes` returns |
| CoqExp.TreeSizeSpec | ml4tputils/coq/util.py:168-214 | a leaf has size 1 and every other node is larger than each subexpression |
| CoqExp.SizeAtMemoises | ml4tputils/coq/util.py:154-166 | the memo table only grows, and after a successful `size(c)` it holds the result under `c.tag`, so a second call returns it without changing the table |
| CoqExp.SizesAtMemoises | ml4tputils/coq/util.py:218-219 | sizing a list only adds entries to the memo table |
| CoqExp.SizeAtCorrect | ml4tputils/coq/util.py:161-216 | on a coherent, supported expression the memoised size is the tree size, shared subterms counted once per occurrence, and the memo table stays true |
| CoqExp.SizesAtCorrect | ml4tputils/coq/util.py:218-219 | `sizes` of coherent, supported expressions is the sum of their tree sizes |
| CoqExp.SizeAtUnsupported | ml4tputils/coq/util.py:215-216 | an unsupported kind not in the memo table raises and leaves the table as it was |
| CoqExp.SlotSumMerge | ml4tputils/coq/util.py:246-295 | merging two histograms adds their totals |
| CoqExp.SlotSumDelta | ml4tputils/coq/util.py:246-295 | a kind's delta counts one |
| CoqExp.SlotSumEmpty | ml4tputils/coq/util.py:246-295 | the empty histogram counts nothing |
| CoqExp.HistTotalIsSize | ml4tputils/coq/util.py:246-295 | the histogram of a supported tree counts every node once: its total is the tree size |
| CoqExp.ForestHistTotal | ml4tputils/coq/util.py:299-303 | the merged histogram of a list totals the sum of the sizes |
| CoqExp.LeafHist | ml4tputils/coq/util.py:251-260 | a leaf's histogram is the delta of its kind |
| CoqExp.HistAtMemoises | ml4tputils/coq/util.py:239-250 | the memo table only grows, and after a successful `hist(c)` it holds the result under `c.tag` |
| CoqExp.HistsAtMemoises | ml4tputils/coq/util.py:299-303 | histogramming a list only adds entries to the memo table |
| CoqExp.HistAtCorrect | ml4tputils/coq/util.py:246-297 | on a coherent, supported expression the memoised histogram is the tree's histogram, and the memo table stays true |
| CoqExp.HistsAtCorrect | ml4tputils/coq/util.py:299-303 | `hists` of coherent, supported expressions is the merge of their tree histograms |
| CoqExp.VisitAtSpec | ml4tputils/coq/util.py:41-45 | one visit passes exactly when the table entry has the node's tag, the kind is known and no direct child has the node's tag; a passing visit counts one use |
| CoqExp.ChksAtSpec | ml4tputils/coq/util.py:140-142 | checking a list passes exactly when each of its expressions passes one visit |
| CoqExp.ChksAtUsage | ml4tputils/coq/util.py:140-142 | a passing check of a list counts one use of each tag, in order |
| CoqExp.ChkAtSpec | ml4tputils/coq/util.py:41-138 | a check passes exactly when the node, and with `f_chk` each direct child, passes one visit; the uses counted follow |
| CoqExp.ChkAtMismatch | ml4tputils/coq/util.py:42-45 | a table entry filed under another tag raises after the use is counted |
| CoqExp.ChkEntryOk | ml4tputils/coq/util.py:24-25 | `chk_ast` passes exactly when the entry and its direct children pass one visit |
| CoqExp.ChkAllAtSpec | ml4tputils/coq/util.py:20-22 | the whole table passes exactly when every entry does |
| CoqExp.ChksAtStays | ml4tputils/coq/util.py:140-142 | once a check of a prefix has raised, the rest of the list is not looked at |
| CoqExp.ChkAllAtStays | ml4tputils/coq/util.py:20-22 | once a check of a prefix of the table has raised, the rest is not looked at |
| CoqExp.SizesAtStays | ml4tputils/coq/util.py:218-219 | once sizing a prefix has raised, the rest of the list is not sized |
| CoqExp.HistsAtStays | ml4tputils/coq/util.py:299-303 | once histogramming a prefix has raised, the rest of the list is not looked at |
| CoqExp.ChkCoqExp.constructor | ml4tputils/coq/util.py:16-18 | the table is stored with no uses counted |
| CoqExp.ChkCoqExp.OccursAsts | ml4tputils/coq/util.py:27-33 | raises exactly when some expression of the list carries the tag |
| CoqExp.ChkCoqExp.ChkAst | ml4tputils/coq/util.py:41-138 | result and use counts are those `ChkAt` gives |
| CoqExp.ChkCoqExp.ChkAsts | ml4tputils/coq/util.py:140-142 | result and use counts are those `ChksAt` gives, whatever the flag |
| CoqExp.ChkCoqExp.ChkConcrAst | ml4tputils/coq/util.py:20-22 | result and use counts are those `ChkAllAt` gives over the table's order |
| CoqExp.SizeCoqExp.constructor | ml4tputils/coq/util.py:149-152 | the table is stored with an empty memo table |
| CoqExp.SizeCoqExp.Size | ml4tputils/coq/util.py:161-216 | result and memo table are those `SizeAt` gives |
| CoqExp.SizeCoqExp.Sizes | ml4tputils/coq/util.py:218-219 | result and memo table are those `SizesAt` gives |
| CoqExp.SizeCoqExp.DecodeSize | ml4tputils/coq/util.py:158-159 | a missing key raises and leaves the memo table; otherwise the size of the key's expression |
| CoqExp.NewSizeCoqExp | ml4tputils/coq/util.py:149-152 | construction raises exactly when the table check does, with its error, and otherwise starts with an empty memo table |
| CoqExp.HistCoqExp.constructor | ml4tputils/coq/util.py:234-237 | the table is stored with an empty memo table |
| CoqExp.HistCoqExp.Hist | ml4tputils/coq/util.py:246-297 | result and memo table are those `HistAt` gives |
| CoqExp.HistCoqExp.Hists | ml4tputils/coq/util.py:299-303 | result and memo table are those `HistsAt` gives |
| CoqExp.HistCoqExp.DecodeHist | ml4tputils/coq/util.py:243-244 | a missing key raises and leaves the memo table; otherwise the histogram of the key's expression |
| CoqExp.NewHistCoqExp | ml4tputils/coq/util.py:234-237 | construction raises exactly when the table check does, with its error, and otherwise starts with an empty memo table |
| Tactics.NamesSpec | ml4tputils/coq/tactics.py:92 | the names of a list of tactic entries keep its length and order |
| Tactics.TacticNamesSpec | ml4tputils/coq/tactics.py:92 | `TACTICS` has one name per entry of `TACTIC_INFO`, in the same order |
| Tactics.ClassNamesSpec | ml4tputils/coq/tactics.py:161 | the names of each class keep the class's size and member order |
| Tactics.TacticsEquivSpec | ml4tputils/coq/tactics.py:161 | `TACTICS_EQUIV` has one class per class of `TACTICS_INFO_EQUIV`, member by member |
| Tactics.TclIntrosInternSpec | ml4tputils/coq/tactics.py:98-108 | `is_tclintros_intern` holds exactly for `ml4tp.SI`, `ml4tp.SC`, `ml4tp.SPS` and `ml4tp.SPC2`, and not for `ml4tp.SIO` |
| Tactics.TclIntrosAllSpec | ml4tputils/coq/tactics.py:98-113 | `is_tclintros_intern` implies `is_tclintros_all`, and `ml4tp.SIO` is the only tactic the latter adds |
| TacstPrep.SubtrBinRanges | ml4tputils/ml/tacst_prep.py:28-33 | the subtree bin is 0 below 5, 1 from 5 to below 20 and 2 from 20 |
| TacstPrep.SubtrBinMono | ml4tputils/ml/tacst_prep.py:28-33 | a larger subtree never gets a smaller bin |
| TacstPrep.LastClassSpec | ml4tputils/ml/tacst_prep.py:38-41 | a class is found exactly when some class holds a prefix of the name, and the one found holds one while no later class does |
| TacstPrep.TacBin | ml4tputils/ml/tacst_prep.py:38-41 | the two loops without a `break` give exactly the last matching class |
| TacstPrep.PointOfSpec | ml4tputils/ml/tacst_prep.py:24-44 | a point fails on an empty tactic list or when no class matches the last tactic; otherwise it stores its state as the four-tuple, keeps both sizes and bins the subtree size and the last tactic |
| TacstPrep.MkPosEvalPt | ml4tputils/ml/tacst_prep.py:24-44 | the constructor gives exactly `PointOf` over the classes given |
| TacstPrep.NewPosEvalPt | ml4tputils/ml/tacst_prep.py:24-44 | the constructor over `TACTICS_EQUIV` gives exactly `PointOf` over those classes |
| TacstPrep.ChildSizesSelf | ml4tputils/ml/tacst_prep.py:53-56 | children that are all the node itself add nothing |
| TacstPrep.SizeAbsent | ml4tputils/ml/tacst_prep.py:50-51 | a node the graph does not hold raises NetworkXError from `graph.successors`, unless the recursion limit comes first |
| TacstPrep.SizeLeaf | ml4tputils/ml/tacst_prep.py:50-57 | a node of the graph whose only successor, if any, is itself has size 1 |
| TacstPrep.SizeFuel | ml4tputils/ml/tacst_prep.py:50-57 | a size that is found does not change with a deeper recursion limit |
| TacstPrep.ChildSizesFuel | ml4tputils/ml/tacst_prep.py:53-56 | the same for the sum over the children |
| TacstPrep.ChildSizesStuck | ml4tputils/ml/tacst_prep.py:53-56 | once sizing a prefix of the children fails, the whole sum fails with the same error |
| TacstPrep.SubtreeSize | ml4tputils/ml/tacst_prep.py:50-57 | the recursive loop gives exactly `Size`: at least 1 for a node of the graph, NetworkXError for a node it does not hold, RecursionError past the limit |
| TacstPrep.PosEvalToTacPred | ml4tputils/ml/tacst_prep.py:144-148 | one pair per input pair, in order, with the same tree id and the same tactic state |
| FoldModel.GetOtherSpec | ml4tputils/ml/poseval/fold_model.py:40-43 | the item is the one at `index` modulo the length, negative indexes counting from the end; the rest is one shorter and putting the item back where it was gives the list again |
| FoldModel.Shifts | ml4tputils/ml/poseval/fold_model.py:424-431 | each table's offset is the sum of the sizes of the tables before it, in the order sort, const, ind, conid, evar, fix, fixbody, and the embedding table's size is the total |
| FoldModel.Layout | ml4tputils/ml/poseval/fold_model.py:426-430 | the offset loop over any distinct names: each offset is the running total before it, and the total is the sum of all sizes |
| FoldModel.FixIdDisjoint | ml4tputils/ml/poseval/fold_model.py:580-583 | the rows `fix_id` gives to valid entries of an earlier table all come before those of a later table, and all are below the total |
| FoldModel.ConcluLastSpec | ml4tputils/ml/poseval/fold_model.py:666-668 | with a non-zero `conclu_pos` the first item moves to the end and the others keep their order; the list keeps its length and items; with zero it is unchanged |
| FoldTrain.BatchedEndSpec | ml4tputils/ml/poseval/fold_train.py:20-21 | `n_end` is the largest multiple of `size` not above `len(data)`, and less than one batch is left over |
| FoldTrain.SlicesSpec | ml4tputils/ml/poseval/fold_train.py:25-26 | `k` strides from `start` give `k` batches of exactly `size` points that together are the data from `start` to `start + k * size` |
| FoldTrain.IterDataSpec | ml4tputils/ml/poseval/fold_train.py:19-26 | a zero `size` raises and a negative one yields nothing; otherwise `len(data) // size` batches of exactly `size` points that concatenate to the data up to `n_end` |

## Left out

- Neural-network code (`Folder`, `TacStFolder`, `TreeLSTM`, the layers of `PosEvalModel`, `WeightDrop`, the training and validation loops of `PosEvalTrainer`): floating-point numerics on tensors of a library that is not part of this model. Of `PosEvalModel` only the table layout (`shifts`, `fix_id`) and the conclusion rotation of `ctx_func` are modelled.
- Randomness: the shuffling branch of `iter_data` and `split_by_lemma` with its ratio-driven retry loop depend on `np.random`; `IterData` is the unshuffled path.
- Statistics and printing: `stats`, `log_stats`, `dump`, `pp`, every `__str__`, `_mylog` and progress output are I/O; `view_comp` needs an interpreter that is not part of this model; `view_depth_astctx_size`, `view_depth_astgoal_size`, `hist_coqexp`, `_traverse_info`, `bfs_traverse` and `dfs_traverse` need the expression decoder, which is not part of this model. The numpy means over the depth views are left out with `stats`.
- The other statistics views of `TacTree` in `ml4tputils/recon/tactr.py` (`view_tactic_hist`, `view_depth_ctx_size`, `view_depth_goal_size`, `view_depth_tactic_hist`) are not modelled; their counterparts in `ml4tputils/tactr.py` are, in `TacticTree`, and `view_depth_ctx_items` is, as `ProofGraph.TacTree.ViewDepthCtxItems`.
- `Text.ParseInt` reads only an optional sign and ASCII digits; Python's `int` also accepts `_` between digits and non-ASCII decimal digits, which the trace's numerals never contain.
- The `depth` counter of `TacTreeParser` only feeds `_mylog` indentation and affects no result.
- `MyFile` and `MyIter` are not part of this model: `LineCursor.LineFile` models the file reader from the way both lexers use it (peek, consume, raw line, line number), and the declaration iterator of `TacTreeParser` is a sequence with a position.
- The arguments of `_mylog` calls peek at the iterator eagerly; the model assumes that such a peek at the end of the iterator does not raise, since `MyIter` is not part of this model.
- `networkx` is not part of this model: a graph is an ordered node list and an ordered edge list (`Graphs.Graph`), `shortest_path` is a breadth-first search, its "no path" exception is an empty result, and its `NodeNotFound` for an end missing from the node list is the error `NodeMissing`. Which of several shortest paths the library would pick is not modelled: `Graphs.ShortestPath` promises some path of minimal length.
- `MyHist` is not part of this model: the kind histograms of `CoqExp` are count vectors indexed by kind slot, `delta` and `merge` as `Delta` and `Merge`.
- The expression decoder is not part of this model: the shared expression table is a map from tag to expression, and `Coherent` states the sharing discipline the decoder is expected to keep (every subexpression filed under its own tag). `SizeAtCorrect` and `HistAtCorrect` assume it.
- `TacstPrep.Size`: the recursion of `SizeSubTr.size` is bounded by a `fuel` argument standing for the interpreter's recursion limit; a tree deeper than the fuel gives `Err(RecursionLimit)` where Python raises `RecursionError`, and on a cyclic graph Python always raises.
- `parse_full_tac` returns its argument unchanged; there is nothing to model.
- `SsrhaveTac` is never built: `ssrhave` is parsed by `parse_fixed_stk_nested` into a nested node, which is what the model does.
- `UniqueCoqExp` is not modelled: it calls an undefined `_uniquecon`, and its constructor's `self.unique = set()` hides the method of the same name.
- `DeclMode.__str__` is not modelled: it tests enum members with `isinstance`, which never holds.
- `TacTree.__init__` of `ml4tputils/recon/tactr.py` calls `ChkCoqExp.chk_decoded` and passes an `f_shared` argument to `SizeCoqExp`, neither of which exists in `ml4tputils/coq/util.py`; `ProofGraph.Build` leaves those calls out, does not keep the `gid_tactic` and `decoder` inputs that no modelled method reads, and starts at the root computation.
- The commented-out `TraverseCoqExp` and the deprecated parser code kept inside string literals of `utils/parse_tacst.py` are not code.
- `PosEvalDataset.mk_tactrs` and `mk_tactr` are not modelled: they drive the decoder and end in `assert False`; a `PosEvalPt` is modelled directly (`TacstPrep.PointOf`).
- `OldDeclLexer.TacStParser.CloseLemma`: the list the returned lemma shares with the lexer (lines 411 and 432 of `ml4tputils/lex_raw.py`) is modelled through the lexer's own record of it, the last entry of `lems`, which each later `begin(tacst)` grows until a `begin(pf)`; a lemma value a caller already holds is a copy and does not grow with it.
- `DeclLexer.TacStParser.ParseCtxTyps` and the other table readers convert a whole section before inserting it; the source inserts entry by entry and raises on the first bad value, so the tables it leaves behind on that error path may hold a few more entries than the model's.
- The rule for `exact (ssrexactarg)` in the dispatch of `parse_tactree` can never fire, because the earlier `exact` rule matches every such name first; the model keeps the source's order, and `TacticParser.SsrexactShadowed` states the consequence.

## Findings

| source | as written | input that shows it | evidently intended | confidence | as-written member | corrected member |
|---|---|---|---|---|---|---|
| utils/parse_tacst.py:90-91 | `VaryTac.in_edge` returns `self.before.hdr.gid`, but a `VaryTac` has no `before` attribute, so every call raises `AttributeError` | the `split` trace `bg split` on goal 3 with 1 goal, `en split` on goal 3 with 2 goals, `bg split` on goal 4 with 2 goals: it parses to one `VaryTac` whose `in_edge` fails | `self.alias[0].hdr.gid`, the goal of the first declaration, as in `FixedTac.in_edge` | not executed | TacticParser.SplitInEdgeFails | TacticParser.InEdgeFirst |
