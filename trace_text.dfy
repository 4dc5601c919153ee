/** Text conventions shared by both trace lexers: the `{!}` field
    separator, header lines that may wrap over several physical lines, and
    `key: value` table entries. */
module TraceText {
  import opened Wrappers
  import opened Text
  import opened LineCursor

  /** The field separator of header lines. */
  const Sep: string := "{!}"

  /** A successful result holding the pair `(v, u)`. */
  predicate Yields<T(==), U(==)>(r: Result<(T, U), TraceError>, v: T, u: U) {
    r.Ok? && r.value.0 == v && r.value.1 == u
  }

  /** `list.reverse()` */
  function Reverse<T>(xs: seq<T>): (r: seq<T>)
    ensures |r| == |xs|
    ensures forall k :: 0 <= k < |xs| ==> r[k] == xs[|xs| - 1 - k]
  {
    if xs == [] then [] else Reverse(xs[1..]) + [xs[0]]
  }

  lemma ReverseReverse<T>(xs: seq<T>)
    ensures Reverse(Reverse(xs)) == xs
  {
  }

  /** `[x.strip() for x in xs]` */
  function StripAll(xs: seq<string>): (r: seq<string>)
    ensures |r| == |xs|
    ensures forall k :: 0 <= k < |xs| ==> r[k] == Strip(xs[k])
  {
    if xs == [] then [] else [Strip(xs[0])] + StripAll(xs[1..])
  }

  /** `toks[i].strip()`, failing like Python's IndexError when there are
      too few fields. */
  function Field(toks: seq<string>, i: nat): (r: Result<string, TraceError>)
    ensures r.Ok? <==> i < |toks|
    ensures r.Ok? ==> r.value == Strip(toks[i])
  {
    if i < |toks| then Ok(Strip(toks[i])) else Err(MissingField(i))
  }

  /** `int(toks[i].strip())` */
  function IntField(toks: seq<string>, i: nat): (r: Result<int, TraceError>)
    ensures r.Ok? <==> i < |toks| && ParseInt(toks[i]).Some?
    ensures r.Ok? ==> Some(r.value) == ParseInt(toks[i])
  {
    if i >= |toks| then Err(MissingField(i))
    else
      StripIdempotent(toks[i]);
      match ParseInt(Strip(toks[i]))
      case None => Err(BadInt(toks[i]))
      case Some(n) => Ok(n)
  }

  /** `int(s)` as a result. */
  function ToInt(s: string): (r: Result<int, TraceError>)
    ensures r.Ok? <==> ParseInt(s).Some?
    ensures r.Ok? ==> Some(r.value) == ParseInt(s)
  {
    match ParseInt(s)
    case None => Err(BadInt(s))
    case Some(n) => Ok(n)
  }

  lemma StripIdempotent(s: string)
    ensures Strip(Strip(s)) == Strip(s)
  {
    StripNoop(Strip(s));
  }

  // ---------------------------------------------------------------------
  // Headers that wrap over several lines

  /** The number of fields of a header text. */
  function FieldCount(s: string): nat {
    |Split(s, Sep)|
  }

  lemma ConcatAssoc(a: string, b: string, c: string)
    ensures a + b + c == a + (b + c)
  {
  }

  /** The header text once enough fields are present: starting from the
      text `hdr` already read, the following lines are appended one at a
      time until splitting on `Sep` yields at least `n` fields. Running out
      of lines is the error of consuming past the end. */
  function Accumulate(lines: seq<string>, pos: nat, hdr: string, n: nat): (r: Result<(string, nat), TraceError>)
    requires pos <= |lines|
    ensures r.Ok? ==> pos <= r.value.1 <= |lines|
    ensures r.Ok? ==> FieldCount(r.value.0) >= n
    decreases |lines| - pos
  {
    if FieldCount(hdr) >= n then Ok((hdr, pos))
    else if pos == |lines| then Err(EndOfFile(pos))
    else Accumulate(lines, pos + 1, hdr + Chomp(lines[pos]), n)
  }

  /** The header text is what was already read followed by the lines
      consumed. */
  lemma {:induction false} AccumulateText(lines: seq<string>, pos: nat, hdr: string, n: nat)
    requires pos <= |lines| && Accumulate(lines, pos, hdr, n).Ok?
    ensures Accumulate(lines, pos, hdr, n).value.0
         == hdr + Concat(lines, pos, Accumulate(lines, pos, hdr, n).value.1)
    decreases |lines| - pos
  {
    if FieldCount(hdr) < n {
      var c := Chomp(lines[pos]);
      var r := Accumulate(lines, pos + 1, hdr + c, n);
      AccumulateText(lines, pos + 1, hdr + c, n);
      ConcatAssoc(hdr, c, Concat(lines, pos + 1, r.value.1));
    }
  }

  /** The accumulation stops at the first line that completes the header:
      every shorter prefix of the lines read has fewer than `n` fields. */
  lemma {:induction false} AccumulateMinimal(lines: seq<string>, pos: nat, hdr: string, n: nat, k: nat)
    requires pos <= |lines|
    requires Accumulate(lines, pos, hdr, n).Ok?
    requires pos <= k < Accumulate(lines, pos, hdr, n).value.1
    ensures FieldCount(hdr + Concat(lines, pos, k)) < n
    decreases |lines| - pos
  {
    var c := Chomp(lines[pos]);
    if k == pos {
      assert hdr + Concat(lines, pos, k) == hdr;
    } else {
      AccumulateMinimal(lines, pos + 1, hdr + c, n, k);
      ConcatAssoc(hdr, c, Concat(lines, pos + 1, k));
    }
  }

  /** A header already complete on its first line consumes no more. */
  lemma AccumulateOneLine(lines: seq<string>, pos: nat, hdr: string, n: nat)
    requires pos <= |lines| && FieldCount(hdr) >= n
    ensures Accumulate(lines, pos, hdr, n) == Ok((hdr, pos))
  {
  }

  // ---------------------------------------------------------------------
  // Table entries

  /** `hdr[:end]` with Python's meaning of a negative end. */
  function PyPrefix(s: string, end: int): (r: string)
    ensures end >= 0 ==> r == s[..if end <= |s| then end else |s|]
    ensures end == -1 && |s| > 0 ==> r == s[..|s| - 1]
  {
    if end >= 0 then s[..if end <= |s| then end else |s|]
    else if -end <= |s| then s[..|s| + end]
    else ""
  }

  /** `_parse_table_entry`: the key and value around the first ":", each
      stripped. When the line has no ":", `find` gives -1, so the key is
      the line less its last character and the value the whole line. */
  function TableEntry(line: string): (kv: (string, string))
  {
    var e := IndexOf(line, ":");
    (Strip(PyPrefix(line, e)), Strip(line[e + 1..]))
  }

  /** Without a ":", the key loses the line's last character and the value
      is the whole line. */
  lemma TableEntryWithoutColon(line: string)
    requires !Contains(line, ":") && |line| > 0
    ensures TableEntry(line) == (Strip(line[..|line| - 1]), Strip(line))
  {
    assert line[0..] == line;
  }

  /** The first ":" of `key + ":" + rest` when `key` has none. */
  lemma FirstColon(key: string, rest: string)
    requires Lacks(key, ':')
    ensures IndexOf(key + ":" + rest, ":") == |key|
  {
    var line := key + ":" + rest;
    assert OccursAt(line, ":", |key|) by {
      assert line[|key|..|key| + 1] == ":";
    }
    forall j | 0 <= j < |key| ensures !OccursAt(line, ":", j) {
      assert line[j..j + 1][0] == key[j];
    }
    IndexOfSpec(line, ":");
  }

  /** A key without ":" and a value, rendered as `key: value`, read back as
      that key and value. */
  lemma TableEntryRoundTrip(key: string, sp: string, val: string)
    requires Lacks(key, ':') && IsStripped(key)
    requires AllSpace(sp) && IsStripped(val)
    ensures TableEntry(key + ":" + sp + val) == (key, val)
  {
    var line := key + ":" + (sp + val);
    assert key + ":" + sp + val == line;
    FirstColon(key, sp + val);
    var e := |key|;
    assert PyPrefix(line, e) == key;
    assert line[e + 1..] == sp + val;
    StripNoop(key);
    StripPadded(sp, val, []);
    assert sp + val + [] == sp + val;
  }

  // ---------------------------------------------------------------------
  // Filling dictionaries

  /** The keys of a list of entries. */
  function KeysOf<K, V>(es: seq<(K, V)>): set<K> {
    set i | 0 <= i < |es| :: es[i].0
  }

  /** `for k, v in es: m[k] = v` */
  function InsertAll<K, V>(m: map<K, V>, es: seq<(K, V)>): map<K, V>
    decreases |es|
  {
    if es == [] then m else InsertAll(m[es[0].0 := es[0].1], es[1..])
  }

  lemma KeysOfCons<K, V>(es: seq<(K, V)>)
    requires es != []
    ensures KeysOf(es) == {es[0].0} + KeysOf(es[1..])
  {
    forall k | k in KeysOf(es) ensures k in {es[0].0} + KeysOf(es[1..]) {
      var i :| 0 <= i < |es| && es[i].0 == k;
      if i > 0 { assert es[1..][i - 1] == es[i]; }
    }
    forall k | k in KeysOf(es[1..]) ensures k in KeysOf(es) {
      var i :| 0 <= i < |es[1..]| && es[1..][i].0 == k;
      assert es[i + 1] == es[1..][i];
    }
  }

  /** Filling a dictionary adds the keys of the entries; a key takes the
      value of its last entry; other keys keep their values. */
  lemma {:induction false} InsertAllSpec<K, V>(m: map<K, V>, es: seq<(K, V)>)
    ensures InsertAll(m, es).Keys == m.Keys + KeysOf(es)
    ensures forall i :: 0 <= i < |es| && (forall j :: i < j < |es| ==> es[j].0 != es[i].0) ==>
      InsertAll(m, es)[es[i].0] == es[i].1
    ensures forall k :: k in m && k !in KeysOf(es) ==> InsertAll(m, es)[k] == m[k]
    decreases |es|
  {
    if es != [] {
      var m1 := m[es[0].0 := es[0].1];
      var r := InsertAll(m1, es[1..]);
      InsertAllSpec(m1, es[1..]);
      KeysOfCons(es);
      forall i | 0 <= i < |es| && (forall j :: i < j < |es| ==> es[j].0 != es[i].0)
        ensures r[es[i].0] == es[i].1
      {
        if i > 0 {
          assert es[1..][i - 1] == es[i];
          forall j | i - 1 < j < |es[1..]| ensures es[1..][j].0 != es[1..][i - 1].0 {
            assert es[1..][j] == es[j + 1];
          }
        }
      }
    }
  }

  /** Converts every value of a list of entries (`int(v)` in the lexers),
      failing at the first conversion that fails. */
  function ConvertValues<K, V, W>(es: seq<(K, V)>, f: V -> Result<W, TraceError>): Result<seq<(K, W)>, TraceError> {
    if es == [] then Ok([])
    else
      var v := f(es[0].1);
      if v.Err? then Err(v.error)
      else
        var rest := ConvertValues(es[1..], f);
        if rest.Err? then rest else Ok([(es[0].0, v.value)] + rest.value)
  }

  /** The conversion succeeds exactly when every value converts, and
      then converts each entry's value in place. */
  lemma {:induction false} ConvertValuesSpec<K, V, W>(es: seq<(K, V)>, f: V -> Result<W, TraceError>)
    ensures var r := ConvertValues(es, f);
      && (r.Ok? <==> forall i :: 0 <= i < |es| ==> f(es[i].1).Ok?)
      && (r.Ok? ==> |r.value| == |es| && forall i :: 0 <= i < |es| ==> r.value[i] == (es[i].0, f(es[i].1).value))
  {
    if es != [] {
      ConvertValuesSpec(es[1..], f);
      assert forall i :: 1 <= i < |es| ==> es[1..][i - 1] == es[i];
    }
  }

  /** Converts every key of a list of entries (`int(k)` in the lexers),
      failing at the first conversion that fails. */
  function ConvertKeys<K, L, V>(es: seq<(K, V)>, f: K -> Result<L, TraceError>): Result<seq<(L, V)>, TraceError> {
    if es == [] then Ok([])
    else
      var k := f(es[0].0);
      if k.Err? then Err(k.error)
      else
        var rest := ConvertKeys(es[1..], f);
        if rest.Err? then rest else Ok([(k.value, es[0].1)] + rest.value)
  }

  /** The conversion succeeds exactly when every key converts, and then
      converts each entry's key in place. */
  lemma {:induction false} ConvertKeysSpec<K, L, V>(es: seq<(K, V)>, f: K -> Result<L, TraceError>)
    ensures var r := ConvertKeys(es, f);
      && (r.Ok? <==> forall i :: 0 <= i < |es| ==> f(es[i].0).Ok?)
      && (r.Ok? ==> |r.value| == |es| && forall i :: 0 <= i < |es| ==> r.value[i] == (f(es[i].0).value, es[i].1))
  {
    if es != [] {
      ConvertKeysSpec(es[1..], f);
      assert forall i :: 1 <= i < |es| ==> es[1..][i - 1] == es[i];
    }
  }

  /** The lines of a table section: those from `pos` up to the first line
      that starts with `stop`, which is left unread. Running out of lines
      first is the error of consuming past the end. */
  function SectionAt(lines: seq<string>, pos: nat, stop: string): (r: Result<(seq<string>, nat), TraceError>)
    requires pos <= |lines| && stop != ""
    ensures r.Ok? ==> pos <= r.value.1 < |lines| && StartsWith(PeekAt(lines, r.value.1), stop)
    ensures r.Ok? ==> |r.value.0| == r.value.1 - pos
    decreases |lines| - pos
  {
    if StartsWith(PeekAt(lines, pos), stop) then Ok(([], pos))
    else if pos == |lines| then Err(EndOfFile(pos))
    else
      var r := SectionAt(lines, pos + 1, stop);
      if r.Err? then r
      else Ok(([PeekAt(lines, pos)] + r.value.0, r.value.1))
  }

  /** The section's lines are the lines from `pos`, none of them
      starting with `stop`. */
  lemma SectionLines(lines: seq<string>, pos: nat, stop: string)
    requires pos <= |lines| && stop != ""
    ensures var r := SectionAt(lines, pos, stop);
      r.Ok? ==> forall i :: 0 <= i < |r.value.0| ==>
        r.value.0[i] == PeekAt(lines, pos + i) && !StartsWith(r.value.0[i], stop)
  {
    var r := SectionAt(lines, pos, stop);
    if r.Ok? {
      forall i | 0 <= i < |r.value.0|
        ensures r.value.0[i] == PeekAt(lines, pos + i) && !StartsWith(r.value.0[i], stop)
      {
        SectionLine(lines, pos, stop, i);
      }
    }
  }

  /** Line `i` of the section is line `pos + i` of the file. */
  lemma {:induction false} SectionLine(lines: seq<string>, pos: nat, stop: string, i: nat)
    requires pos <= |lines| && stop != ""
    requires SectionAt(lines, pos, stop).Ok? && i < |SectionAt(lines, pos, stop).value.0|
    ensures SectionAt(lines, pos, stop).value.0[i] == PeekAt(lines, pos + i)
    ensures !StartsWith(PeekAt(lines, pos + i), stop)
    decreases |lines| - pos
  {
    var r := SectionAt(lines, pos, stop);
    assert pos < |lines| && !StartsWith(PeekAt(lines, pos), stop);
    var t := SectionAt(lines, pos + 1, stop);
    assert t.Ok? && r.value.0 == [PeekAt(lines, pos)] + t.value.0;
    if i > 0 {
      SectionLine(lines, pos + 1, stop, i - 1);
      assert pos + 1 + (i - 1) == pos + i;
      assert r.value.0[i] == t.value.0[i - 1];
    }
  }

  /** There is no section when no line from `pos` on starts with
      `stop`. */
  lemma {:induction false} SectionMissing(lines: seq<string>, pos: nat, stop: string)
    requires pos <= |lines| && stop != ""
    requires forall q :: pos <= q < |lines| ==> !StartsWith(PeekAt(lines, q), stop)
    ensures SectionAt(lines, pos, stop).Err?
    decreases |lines| - pos
  {
    if pos < |lines| {
      SectionMissing(lines, pos + 1, stop);
    }
  }

  /** A line from `pos` on that starts with `stop` ends a section. */
  lemma {:induction false} SectionErr(lines: seq<string>, pos: nat, stop: string, q: nat)
    requires pos <= q < |lines| && stop != "" && StartsWith(PeekAt(lines, q), stop)
    ensures SectionAt(lines, pos, stop).Ok?
    decreases q - pos
  {
    if StartsWith(PeekAt(lines, pos), stop) {
      assert SectionAt(lines, pos, stop) == Ok(([], pos));
    } else {
      SectionErr(lines, pos + 1, stop, q);
      var r := SectionAt(lines, pos + 1, stop);
      assert SectionAt(lines, pos, stop) == Ok(([PeekAt(lines, pos)] + r.value.0, r.value.1));
    }
  }

  lemma SectionStep(lines: seq<string>, pos: nat, stop: string, tail: seq<string>, p: nat)
    requires pos < |lines| && stop != "" && !StartsWith(PeekAt(lines, pos), stop)
    requires Yields(SectionAt(lines, pos + 1, stop), tail, p)
    ensures Yields(SectionAt(lines, pos, stop), [PeekAt(lines, pos)] + tail, p)
  {
  }

  /** The section is determined by its lines and its stop line: the
      lines from `pos` that do not start with `stop`, up to the first one
      that does. */
  lemma SectionUnique(lines: seq<string>, pos: nat, stop: string, ls: seq<string>, p: nat)
    requires pos <= p < |lines| && stop != "" && StartsWith(PeekAt(lines, p), stop)
    requires |ls| == p - pos
    requires forall i :: 0 <= i < |ls| ==> ls[i] == PeekAt(lines, pos + i) && !StartsWith(ls[i], stop)
    ensures Yields(SectionAt(lines, pos, stop), ls, p)
  {
    SectionErr(lines, pos, stop, p);
    SectionLines(lines, pos, stop);
    var r := SectionAt(lines, pos, stop).value;
    NoStopAmong(lines, pos, stop, ls, r.1);
    NoStopAmong(lines, pos, stop, r.0, p);
    assert r.0 == ls;
  }

  /** Lines that do not start with `stop` end before any that does. */
  lemma NoStopAmong(lines: seq<string>, pos: nat, stop: string, ls: seq<string>, q: nat)
    requires forall i :: 0 <= i < |ls| ==> ls[i] == PeekAt(lines, pos + i) && !StartsWith(ls[i], stop)
    requires pos <= q
    ensures StartsWith(PeekAt(lines, q), stop) ==> pos + |ls| <= q
  {
    if q < pos + |ls| {
      assert ls[q - pos] == PeekAt(lines, q);
    }
  }

  lemma SectionTail(lines: seq<string>, pos: nat, stop: string, ls: seq<string>)
    requires |ls| > 0
    requires forall i :: 0 <= i < |ls| ==> ls[i] == PeekAt(lines, pos + i) && !StartsWith(ls[i], stop)
    ensures ls[0] == PeekAt(lines, pos) && !StartsWith(PeekAt(lines, pos), stop)
    ensures forall i :: 0 <= i < |ls[1..]| ==> ls[1..][i] == PeekAt(lines, pos + 1 + i) && !StartsWith(ls[1..][i], stop)
  {
    forall i | 0 <= i < |ls[1..]|
      ensures ls[1..][i] == PeekAt(lines, pos + 1 + i) && !StartsWith(ls[1..][i], stop)
    {
      assert ls[1..][i] == ls[i + 1];
    }
  }

  /** The `key: value` entries of the lines of a table section. */
  function Entries(ls: seq<string>): seq<(string, string)> {
    seq(|ls|, i requires 0 <= i < |ls| => TableEntry(ls[i]))
  }

  /** A titled table section at `pos`: the title line, then its entries up
      to the line starting with `stop`. */
  function SectionEntriesAt(lines: seq<string>, pos: nat, stop: string): (r: Result<(seq<(string, string)>, nat), TraceError>)
    requires pos <= |lines| && stop != ""
    ensures r.Ok? ==> pos < r.value.1 < |lines| && StartsWith(PeekAt(lines, r.value.1), stop)
  {
    if pos == |lines| then Err(EndOfFile(pos))
    else
      var s :- SectionAt(lines, pos + 1, stop);
      Ok((Entries(s.0), s.1))
  }

  // ---------------------------------------------------------------------
  // Reading through the cursor

  /** Consumes a header line and as many more as it takes to have `n`
      fields. */
  method ReadHeader(f: LineFile, n: nat) returns (r: Result<string, TraceError>)
    requires f.Valid()
    modifies f
    ensures f.Valid()
    ensures old(f.pos) == |f.lines| ==> r.Err?
    ensures old(f.pos) < |f.lines| ==>
      var acc := Accumulate(f.lines, old(f.pos) + 1, PeekAt(f.lines, old(f.pos)), n);
      (r.Ok? <==> acc.Ok?) && (r.Ok? ==> r.value == acc.value.0 && f.pos == acc.value.1)
  {
    var first := f.ConsumeLine();
    if first.Err? {
      return Err(first.error);
    }
    var hdr := first.value;
    while FieldCount(hdr) < n
      invariant f.Valid() && old(f.pos) < f.pos
      invariant Accumulate(f.lines, f.pos, hdr, n) == Accumulate(f.lines, old(f.pos) + 1, first.value, n)
      decreases |f.lines| - f.pos
    {
      var line := f.ConsumeLine();
      if line.Err? {
        return Err(line.error);
      }
      hdr := hdr + line.value;
    }
    return Ok(hdr);
  }

  /** Consumes a table section: its title line, then every line up to the
      one starting with `stop`, read as `key: value` entries. */
  method ReadSection(f: LineFile, stop: string) returns (r: Result<seq<(string, string)>, TraceError>)
    requires f.Valid() && stop != ""
    modifies f
    ensures f.Valid()
    ensures r.Ok? <==> SectionEntriesAt(f.lines, old(f.pos), stop).Ok?
    ensures r.Ok? ==> Yields(SectionEntriesAt(f.lines, old(f.pos), stop), r.value, f.pos)
  {
    var _ :- f.ConsumeLine();
    ghost var p0 := f.pos;
    var ls: seq<string> := [];
    while !StartsWith(f.PeekLine(), stop)
      invariant f.Valid() && p0 + |ls| == f.pos
      invariant forall i :: 0 <= i < |ls| ==> ls[i] == PeekAt(f.lines, p0 + i) && !StartsWith(ls[i], stop)
      decreases |f.lines| - f.pos
    {
      var l := f.ConsumeLine();
      if l.Err? {
        assert forall q :: p0 <= q < |f.lines| ==> !StartsWith(PeekAt(f.lines, q), stop) by {
          forall q | p0 <= q < |f.lines| ensures !StartsWith(PeekAt(f.lines, q), stop) {
            assert ls[q - p0] == PeekAt(f.lines, q);
          }
        }
        SectionMissing(f.lines, p0, stop);
        return Err(l.error);
      }
      ls := ls + [l.value];
    }
    SectionUnique(f.lines, p0, stop, ls, f.pos);
    return Ok(Entries(ls));
  }
}
