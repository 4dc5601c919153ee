/** The list helpers and the embedding-offset arithmetic of the
    position-evaluation model (`ml/poseval/fold_model.py`): `get_other`,
    the shared embedding table's per-kind offsets with `fix_id`, and the
    step of `ctx_func` that moves the conclusion behind the context. */
module FoldModel {
  import opened Wrappers

  /** `get_other(l, index)`: the item at `index` taken modulo the length
      (Python's `%`, which for the positive length agrees with Dafny's),
      and the list without it. The empty list is the ZeroDivisionError of
      the source. */
  function GetOther<T>(l: seq<T>, index: int): (r: Option<(T, seq<T>)>)
    ensures r.Some? <==> l != []
  {
    if l == [] then None
    else
      var i := index % |l|;
      Some((l[i], l[..i] + l[i + 1..]))
  }

  /** The item is `l[index mod len(l)]`, negative indexes wrapping around,
      the rest is one shorter, and putting the item back where it was gives
      `l` again. */
  lemma GetOtherSpec<T>(l: seq<T>, index: int)
    requires l != []
    ensures var i := index % |l|;
      var (item, rest) := GetOther(l, index).value;
      0 <= i < |l| && item == l[i] && |rest| == |l| - 1 &&
      rest[..i] + [item] + rest[i..] == l
    ensures index < 0 && -|l| <= index ==> GetOther(l, index).value.0 == l[|l| + index]
  {
    Reinsert(l, index % |l|);
    if index < 0 && -|l| <= index {
      NegativeIndex(index, |l|);
    }
  }

  /** Python's `l[index]` for a negative `index` counts from the end. */
  lemma NegativeIndex(index: int, n: int)
    requires -n <= index < 0
    ensures index % n == n + index
  {
    assert index == -1 * n + (n + index);
  }

  /** Dropping the item at `i` and putting it back gives the list again. */
  lemma Reinsert<T>(l: seq<T>, i: nat)
    requires i < |l|
    ensures var rest := l[..i] + l[i + 1..];
      |rest| == |l| - 1 && rest[..i] + [l[i]] + rest[i..] == l
  {
    var rest := l[..i] + l[i + 1..];
    assert rest[..i] == l[..i];
    assert rest[i..] == l[i + 1..];
    assert l == l[..i] + [l[i]] + l[i + 1..];
  }

  /** The names of the embedding tables, in the order they share the
      embedding matrix (`table_names`). */
  const TableNames: seq<string> := ["sort", "const", "ind", "conid", "evar", "fix", "fixbody"]

  /** The sizes of the tables in that order: the fixpoint table occurs
      twice, once for fixpoint names and once for their bodies. */
  function TableSizes(sorts: nat, consts: nat, inds: nat, conids: nat, evars: nat, fixes: nat): (r: seq<nat>)
    ensures |r| == |TableNames|
  {
    [sorts, consts, inds, conids, evars, fixes, fixes]
  }

  function Sum(xs: seq<nat>): nat {
    if xs == [] then 0 else Sum(xs[..|xs| - 1]) + xs[|xs| - 1]
  }

  lemma SumPrefix(xs: seq<nat>, k: nat)
    requires k < |xs|
    ensures Sum(xs[..k + 1]) == Sum(xs[..k]) + xs[k]
  {
    assert xs[..k + 1][..k] == xs[..k];
  }

  /** Sums of prefixes grow with the prefix. */
  lemma {:induction false} SumMono(xs: seq<nat>, j: nat, k: nat)
    requires j <= k <= |xs|
    ensures Sum(xs[..j]) <= Sum(xs[..k])
    decreases k - j
  {
    if j < k {
      SumMono(xs, j, k - 1);
      SumPrefix(xs, k - 1);
    }
  }

  lemma NamesDistinct()
    ensures forall i, j :: 0 <= i < j < |TableNames| ==> TableNames[i] != TableNames[j]
  {
    assert TableNames[0][0] == 's' && TableNames[1][0] == 'c' && TableNames[2][0] == 'i';
    assert TableNames[3][0..3] == "con" && TableNames[1][0..3] == "con";
    assert TableNames[3][3] == 'i' && TableNames[1][3] == 's';
    assert TableNames[4][0] == 'e' && TableNames[5][0] == 'f' && TableNames[6][0] == 'f';
    assert |TableNames[5]| == 3 && |TableNames[6]| == 7;
  }

  /** The loop of `PosEvalModel.__init__` that lays the tables out one
      after the other: each table's offset is the running total before
      it, and the total is the size of the shared embedding table. */
  method Shifts(sorts: nat, consts: nat, inds: nat, conids: nat, evars: nat, fixes: nat)
    returns (shifts: map<string, nat>, total: nat)
    ensures shifts.Keys == set k | 0 <= k < |TableNames| :: TableNames[k]
    ensures var sizes := TableSizes(sorts, consts, inds, conids, evars, fixes);
      (forall k :: 0 <= k < |TableNames| ==> shifts[TableNames[k]] == Sum(sizes[..k])) &&
      total == Sum(sizes)
  {
    NamesDistinct();
    shifts, total := Layout(TableNames, TableSizes(sorts, consts, inds, conids, evars, fixes));
  }

  /** The loop itself, over any distinct names and their sizes. */
  method Layout(names: seq<string>, sizes: seq<nat>) returns (shifts: map<string, nat>, total: nat)
    requires |names| == |sizes|
    requires forall i, j :: 0 <= i < j < |names| ==> names[i] != names[j]
    ensures shifts.Keys == set k | 0 <= k < |names| :: names[k]
    ensures forall k :: 0 <= k < |names| ==> shifts[names[k]] == Sum(sizes[..k])
    ensures total == Sum(sizes)
  {
    shifts := map[];
    total := 0;
    var k := 0;
    while k < |names|
      invariant 0 <= k <= |names|
      invariant shifts.Keys == set j | 0 <= j < k :: names[j]
      invariant forall j :: 0 <= j < k ==> shifts[names[j]] == Sum(sizes[..j])
      invariant total == Sum(sizes[..k])
    {
      shifts := shifts[names[k] := total];
      SumPrefix(sizes, k);
      total := total + sizes[k];
      k := k + 1;
    }
    assert sizes[..k] == sizes;
  }

  /** `fix_id(table_name, id)`: the row of the shared embedding table for
      entry `id` of the named table; an unknown name is the KeyError of
      the source. */
  function FixId(shifts: map<string, nat>, name: string, id: int): (r: Option<int>)
    ensures r.Some? <==> name in shifts
    ensures r.Some? ==> r.value - id == shifts[name]
  {
    if name in shifts then Some(shifts[name] + id) else None
  }

  /** With the offsets laid out by `Shifts`, the rows of the entries of a
      table lie in that table's own range: the entries of an earlier table
      come before those of a later one, and each is below the total. */
  lemma FixIdDisjoint(sizes: seq<nat>, shifts: map<string, nat>, total: nat,
                      a: nat, ia: int, b: nat, ib: int)
    requires |sizes| == |TableNames|
    requires forall k :: 0 <= k < |TableNames| ==> TableNames[k] in shifts && shifts[TableNames[k]] == Sum(sizes[..k])
    requires total == Sum(sizes)
    requires a < b < |TableNames|
    requires 0 <= ia < sizes[a] && 0 <= ib < sizes[b]
    ensures 0 <= FixId(shifts, TableNames[a], ia).value < FixId(shifts, TableNames[b], ib).value < total
  {
    SumPrefix(sizes, a);
    SumMono(sizes, a + 1, b);
    SumPrefix(sizes, b);
    SumMono(sizes, b + 1, |sizes|);
    assert sizes[..|sizes|] == sizes;
  }

  /** The step of `ctx_func` before the context is embedded: with a
      non-zero `conclu_pos` the first item (the conclusion) moves to the
      end (on an empty list both slices are empty). */
  function ConcluLast<T>(xs: seq<T>, concluPos: int): (r: seq<T>)
  {
    if concluPos != 0 && xs != [] then xs[1..] + xs[0..1] else xs
  }

  lemma {:induction false} ConcluLastSpec<T>(xs: seq<T>, concluPos: int)
    ensures |ConcluLast(xs, concluPos)| == |xs|
    ensures multiset(ConcluLast(xs, concluPos)) == multiset(xs)
    ensures concluPos != 0 && xs != [] ==>
      ConcluLast(xs, concluPos)[|xs| - 1] == xs[0] &&
      forall i :: 1 <= i < |xs| ==> ConcluLast(xs, concluPos)[i - 1] == xs[i]
    ensures concluPos == 0 ==> ConcluLast(xs, concluPos) == xs
  {
    if concluPos != 0 && xs != [] {
      assert xs == xs[0..1] + xs[1..];
      calc {
        multiset(ConcluLast(xs, concluPos));
        multiset(xs[1..]) + multiset(xs[0..1]);
        multiset(xs);
      }
    }
  }
}
