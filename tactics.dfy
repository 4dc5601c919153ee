/** The tactic tables and tactic-name predicates of `coq/tactics.py`:
    the list of known tactics with their origin, the names derived from
    it, the equivalence classes that group tactics into prediction bins,
    and the predicates that recognise the auxiliary tactics SSReflect's
    `tclintros` is unfolded into. */
module Tactics {

  /** Where a tactic comes from (`Type`). */
  datatype TacOrigin = ATOM | COQ_ML | SSR_ML | SSR_AUX

  /** How a traced tactic was invoked (`TacKind`). */
  datatype TacKind = NAME | ATOMIC | NOTATION | ML

  type TacInfo = (string, TacOrigin)

  /** `TACTIC_INFO` */
  const TacticInfo: seq<TacInfo> := [
    ("<coretactics::intro@0>", COQ_ML),
    ("<coretactics::assumption@0>", COQ_ML),
    ("<coretactics::clear@0>", COQ_ML),
    ("<coretactics::clearbody@0>", COQ_ML),
    ("<coretactics::constructor@0>", COQ_ML),
    ("<coretactics::constructor@1>", COQ_ML),
    ("<coretactics::exact@0>", COQ_ML),
    ("<coretactics::exists@1>", COQ_ML),
    ("<coretactics::left@0>", COQ_ML),
    ("<coretactics::reflexivity@0>", COQ_ML),
    ("<coretactics::right@0>", COQ_ML),
    ("<coretactics::right_with@0>", COQ_ML),
    ("<coretactics::split@0>", COQ_ML),
    ("<coretactics::symmetry@0>", COQ_ML),
    ("<coretactics::transitivity@0>", COQ_ML),
    ("<extratactics::contradiction@0>", COQ_ML),
    ("<extratactics::discriminate@0>", COQ_ML),
    ("<g_auto::auto@0>", COQ_ML),
    ("<g_auto::eauto@0>", COQ_ML),
    ("<g_auto::trivial@0>", COQ_ML),
    ("apply", ATOM),
    ("case", ATOM),
    ("compute", ATOM),
    ("intros", ATOM),
    ("red", ATOM),
    ("split", ATOM),
    ("simpl", ATOM),
    ("<ssreflect_plugin::ssrapply@0>", SSR_ML),
    ("<ssreflect_plugin::ssrapply@1>", SSR_ML),
    ("<ssreflect_plugin::ssrcase@0>", SSR_ML),
    ("<ssreflect_plugin::ssrcase@1>", SSR_ML),
    ("<ssreflect_plugin::ssrclear@0>", SSR_ML),
    ("<ssreflect_plugin::ssrcongr@0>", SSR_ML),
    ("<ssreflect_plugin::ssrelim@0>", SSR_ML),
    ("<ssreflect_plugin::ssrexact@0>", SSR_ML),
    ("<ssreflect_plugin::ssrexact@1>", SSR_ML),
    ("<ssreflect_plugin::ssrhave@0>", SSR_ML),
    ("<ssreflect_plugin::ssrmove@0>", SSR_ML),
    ("<ssreflect_plugin::ssrmove@1>", SSR_ML),
    ("<ssreflect_plugin::ssrmove@2>", SSR_ML),
    ("<ssreflect_plugin::ssrpose@0>", SSR_ML),
    ("<ssreflect_plugin::ssrpose@2>", SSR_ML),
    ("<ssreflect_plugin::ssrrewrite@0>", SSR_ML),
    ("<ssreflect_plugin::ssrset@0>", SSR_ML),
    ("<ssreflect_plugin::ssrsuff@0>", SSR_ML),
    ("<ssreflect_plugin::ssrsuffices@0>", SSR_ML),
    ("<ssreflect_plugin::ssrtclby@0>", SSR_ML),
    ("<ssreflect_plugin::ssrtcldo@0>", SSR_ML),
    ("<ssreflect_plugin::ssrtclintros@0>", SSR_ML),
    ("<ssreflect_plugin::ssrtclseq@0>", SSR_ML),
    ("<ssreflect_plugin::ssrwithoutloss@0>", SSR_ML),
    ("<ssreflect_plugin::ssrwithoutlossss@0>", SSR_ML),
    ("<ssreflect_plugin::ssrwlog@0>", SSR_ML),
    ("<ssreflect_plugin::ssrwlogs@0>", SSR_ML),
    ("<ssreflect_plugin::ssrwlogss@0>", SSR_ML),
    ("ml4tp.MYDONE", SSR_AUX),
    ("ml4tp.SI", SSR_AUX),
    ("ml4tp.SC", SSR_AUX),
    ("ml4tp.SPS", SSR_AUX),
    ("ml4tp.SPC2", SSR_AUX)
  ]

  /** The names of a list of tactic entries, in order (`[info[0] for
      info in ...]`). */
  function Names(info: seq<TacInfo>): seq<string> {
    if info == [] then [] else [info[0].0] + Names(info[1..])
  }

  /** The names keep the length and the order of the entries. */
  lemma {:induction false} NamesSpec(info: seq<TacInfo>)
    ensures |Names(info)| == |info|
    ensures forall i :: 0 <= i < |info| ==> Names(info)[i] == info[i].0
  {
    if info != [] {
      NamesSpec(info[1..]);
    }
  }

  /** `TACTICS` */
  const TacticNames: seq<string> := Names(TacticInfo)

  lemma TacticNamesSpec()
    ensures |TacticNames| == |TacticInfo|
    ensures forall i :: 0 <= i < |TacticInfo| ==> TacticNames[i] == TacticInfo[i].0
  {
    NamesSpec(TacticInfo);
  }

  /** `TACTICS_INFO_EQUIV`: tactics that count as the same prediction
      class. */
  const TacticsInfoEquiv: seq<seq<TacInfo>> := [
    [("<coretactics::intro@0>", COQ_ML), ("intros", ATOM), ("<ssreflect_plugin::ssrtclintros@0>", SSR_ML),
     ("ml4tp.SI", SSR_AUX), ("ml4tp.SPC2", SSR_AUX)],
    [("ml4tp.MYDONE", SSR_AUX), ("<coretactics::assumption@0>", COQ_ML), ("<g_auto::trivial@0>", COQ_ML),
     ("<coretactics::reflexivity@0>", COQ_ML), ("<extratactics::discriminate@0>", COQ_ML),
     ("<extratactics::contradiction@0>", COQ_ML)],
    [("<coretactics::clear@0>", COQ_ML), ("<ssreflect_plugin::ssrclear@0>", SSR_ML),
     ("<coretactics::clearbody@0>", COQ_ML), ("ml4tp.SC", SSR_AUX), ("ml4tp.DOEND", SSR_AUX)],
    [("<coretactics::exact@0>", COQ_ML), ("<ssreflect_plugin::ssrexact@0>", SSR_ML),
     ("<ssreflect_plugin::ssrexact@1>", SSR_ML)],
    [("<coretactics::constructor@0>", COQ_ML), ("<coretactics::constructor@1>", COQ_ML)],
    [("<coretactics::left@0>", COQ_ML), ("<coretactics::left_with@0>", COQ_ML)],
    [("<coretactics::right@0>", COQ_ML), ("<coretactics::right_with@0>", COQ_ML)],
    [("<coretactics::split@0>", COQ_ML), ("split", ATOM)],
    [("<coretactics::symmetry@0>", COQ_ML)],
    [("<coretactics::transitivity@0>", COQ_ML)],
    [("<g_auto::auto@0>", COQ_ML), ("<g_auto::eauto@0>", COQ_ML)],
    [("apply", ATOM), ("<ssreflect_plugin::ssrapply@0>", SSR_ML), ("<ssreflect_plugin::ssrapply@1>", SSR_ML)],
    [("case", ATOM), ("<ssreflect_plugin::ssrcase@0>", SSR_ML), ("<ssreflect_plugin::ssrcase@1>", SSR_ML)],
    [("compute", ATOM), ("red", ATOM), ("simpl", ATOM), ("ml4tp.SPS", SSR_AUX)],
    [("<ssreflect_plugin::ssrcongr@0>", SSR_ML)],
    [("<ssreflect_plugin::ssrelim@0>", SSR_ML)],
    [("<ssreflect_plugin::ssrhave@0>", SSR_ML), ("<coretactics::exists@0>", COQ_ML),
     ("<coretactics::exists@1>", COQ_ML)],
    [("<ssreflect_plugin::ssrmove@0>", SSR_ML), ("<ssreflect_plugin::ssrmove@1>", SSR_ML),
     ("<ssreflect_plugin::ssrmove@2>", SSR_ML), ("<ssreflect_plugin::ssrmove@3>", SSR_ML)],
    [("<ssreflect_plugin::ssrpose@0>", SSR_ML), ("<ssreflect_plugin::ssrpose@1>", SSR_ML),
     ("<ssreflect_plugin::ssrpose@2>", SSR_ML)],
    [("<ssreflect_plugin::ssrrewrite@0>", SSR_ML), ("rewrite", ATOM)],
    [("<ssreflect_plugin::ssrset@0>", SSR_ML)],
    [("<ssreflect_plugin::ssrsuff@0>", SSR_ML), ("<ssreflect_plugin::ssrsuffices@0>", SSR_ML)],
    [("<ssreflect_plugin::ssrtcldo@0>", SSR_ML)],
    [("<ssreflect_plugin::ssrwithoutloss@0>", SSR_ML), ("<ssreflect_plugin::ssrwithoutlossss@0>", SSR_ML),
     ("<ssreflect_plugin::ssrwlog@0>", SSR_ML), ("<ssreflect_plugin::ssrwlogs@0>", SSR_ML),
     ("<ssreflect_plugin::ssrwlogss@0>", SSR_ML)]
  ]

  /** The names of every class, class by class. */
  function ClassNames(classes: seq<seq<TacInfo>>): seq<seq<string>> {
    if classes == [] then [] else [Names(classes[0])] + ClassNames(classes[1..])
  }

  /** Each class keeps its size and the order of its members. */
  lemma {:induction false} ClassNamesSpec(classes: seq<seq<TacInfo>>)
    ensures |ClassNames(classes)| == |classes|
    ensures forall k :: 0 <= k < |classes| ==>
      |ClassNames(classes)[k]| == |classes[k]| &&
      forall i :: 0 <= i < |classes[k]| ==> ClassNames(classes)[k][i] == classes[k][i].0
  {
    if classes != [] {
      ClassNamesSpec(classes[1..]);
      NamesSpec(classes[0]);
    }
  }

  /** `TACTICS_EQUIV` */
  const TacticsEquiv: seq<seq<string>> := ClassNames(TacticsInfoEquiv)

  lemma TacticsEquivSpec()
    ensures |TacticsEquiv| == |TacticsInfoEquiv|
    ensures forall k :: 0 <= k < |TacticsInfoEquiv| ==>
      |TacticsEquiv[k]| == |TacticsInfoEquiv[k]| &&
      forall i :: 0 <= i < |TacticsInfoEquiv[k]| ==> TacticsEquiv[k][i] == TacticsInfoEquiv[k][i].0
  {
    ClassNamesSpec(TacticsInfoEquiv);
  }

  /** `is_tclintros_intern` on the tactic's name: one of the four
      auxiliary tactics `tclintros` is unfolded into (its introductions,
      its clears, and its simpl and case patterns). */
  predicate IsTclIntrosIntern(name: string) {
    name == "ml4tp.SI" || name == "ml4tp.SC" || name == "ml4tp.SPS" || name == "ml4tp.SPC2"
  }

  /** `is_tclintros_all`: those four and the tactic `tclintros` wraps. */
  predicate IsTclIntrosAll(name: string) {
    name == "ml4tp.SIO" || IsTclIntrosIntern(name)
  }

  /** The internal tactics are exactly the four listed ones; the wrapped
      tactic is not among them. */
  lemma TclIntrosInternSpec(name: string)
    ensures IsTclIntrosIntern(name) <==> name in ["ml4tp.SI", "ml4tp.SC", "ml4tp.SPS", "ml4tp.SPC2"]
    ensures !IsTclIntrosIntern("ml4tp.SIO")
  {
  }

  /** Every internal tactic counts for `is_tclintros_all`, and the wrapped
      tactic is the only one it adds. */
  lemma TclIntrosAllSpec(name: string)
    ensures IsTclIntrosIntern(name) ==> IsTclIntrosAll(name)
    ensures IsTclIntrosAll(name) && !IsTclIntrosIntern(name) <==> name == "ml4tp.SIO"
  {
    TclIntrosInternSpec(name);
  }
}
