/** The string operations of Python that the trace readers rely on:
    `startswith`, `find`, `split(sep)`, `split()`, `strip()`, `int()` and
    `str()` on integers, written out over `seq<char>`. */
module Text {
  import opened Wrappers

  /** `s.startswith(p)` */
  predicate StartsWith(s: string, p: string) {
    |p| <= |s| && s[..|p|] == p
  }

  /** `s.startswith(p)` again, compared character by character and
      unfolded one character of `s` at a time, so that a dispatch on
      several literal prefixes stays cheap to reason about; `PrefixesOf`
      equates it with `StartsWith`. */
  predicate IsPrefix(p: string, s: string)
    decreases |s|
  {
    p == [] || (s != [] && p[0] == s[0] && IsPrefix(p[1..], s[1..]))
  }

  lemma {:induction false} IsPrefixStartsWith(p: string, s: string)
    ensures IsPrefix(p, s) <==> StartsWith(s, p)
    decreases |s|
  {
    if p != [] && s != [] {
      IsPrefixStartsWith(p[1..], s[1..]);
      if |p| <= |s| {
        assert s[..|p|] == [s[0]] + s[1..][..|p| - 1];
        assert p == [p[0]] + p[1..];
      }
    }
  }

  /** Every prefix test on `s` agrees with `StartsWith`. */
  lemma PrefixesOf(s: string)
    ensures forall p :: IsPrefix(p, s) <==> StartsWith(s, p)
  {
    forall p {
      IsPrefixStartsWith(p, s);
    }
  }

  /** `sub` occurs in `s` starting at index `i`. */
  predicate OccursAt(s: string, sub: string, i: int) {
    0 <= i && i + |sub| <= |s| && s[i..i + |sub|] == sub
  }

  /** The search behind `s.find(sub)`, starting at index `i`. */
  function IndexOfFrom(s: string, sub: string, i: nat): (r: int)
    requires i <= |s| + 1
    ensures r == -1 || (i <= r && r + |sub| <= |s|)
    decreases |s| + 1 - i
  {
    if i + |sub| > |s| then -1
    else if s[i..i + |sub|] == sub then i
    else IndexOfFrom(s, sub, i + 1)
  }

  /** The search finds the first occurrence from `i` on, or reports
      that there is none. */
  lemma {:induction false} IndexOfFromSpec(s: string, sub: string, i: nat)
    requires i <= |s| + 1
    ensures IndexOfFrom(s, sub, i) == -1 || OccursAt(s, sub, IndexOfFrom(s, sub, i))
    ensures IndexOfFrom(s, sub, i) == -1 ==> forall j :: i <= j ==> !OccursAt(s, sub, j)
    ensures forall j :: i <= j < IndexOfFrom(s, sub, i) ==> !OccursAt(s, sub, j)
    decreases |s| + 1 - i
  {
    if i + |sub| <= |s| && s[i..i + |sub|] != sub {
      IndexOfFromSpec(s, sub, i + 1);
    }
  }

  /** `s.find(sub)`: the first index where `sub` occurs, or -1. */
  function IndexOf(s: string, sub: string): (r: int)
    ensures r == -1 || (0 <= r && r + |sub| <= |s|)
  {
    IndexOfFrom(s, sub, 0)
  }

  lemma IndexOfSpec(s: string, sub: string)
    ensures IndexOf(s, sub) == -1 || OccursAt(s, sub, IndexOf(s, sub))
    ensures IndexOf(s, sub) == -1 <==> forall j :: !OccursAt(s, sub, j)
    ensures forall j :: 0 <= j < IndexOf(s, sub) ==> !OccursAt(s, sub, j)
  {
    IndexOfFromSpec(s, sub, 0);
  }

  /** `s.find(c)` for a one-character `c`: the first index holding `c`,
      or -1. */
  function IndexOfChar(s: string, c: char): (r: int)
    ensures -1 <= r < |s|
    decreases |s|
  {
    if |s| == 0 then -1
    else if s[0] == c then 0
    else
      var k := IndexOfChar(s[1..], c);
      if k < 0 then -1 else k + 1
  }

  lemma {:induction false} IndexOfCharSpec(s: string, c: char)
    ensures IndexOfChar(s, c) == -1 <==> c !in s
    ensures IndexOfChar(s, c) >= 0 ==> s[IndexOfChar(s, c)] == c && c !in s[..IndexOfChar(s, c)]
    decreases |s|
  {
    if |s| > 0 && s[0] != c {
      var k := IndexOfChar(s[1..], c);
      IndexOfCharSpec(s[1..], c);
      assert s == [s[0]] + s[1..];
      if k >= 0 {
        assert s[..k + 1] == [s[0]] + s[1..][..k];
      }
    }
  }

  /** The character search agrees with the substring search. */
  lemma IndexOfCharAgrees(s: string, c: char)
    ensures IndexOfChar(s, c) == IndexOf(s, [c])
  {
    IndexOfCharSpec(s, c);
    IndexOfSpec(s, [c]);
    var i := IndexOfChar(s, c);
    if i >= 0 {
      assert OccursAt(s, [c], i) by {
        assert s[i..i + 1] == [c];
      }
      forall j | 0 <= j < i
        ensures !OccursAt(s, [c], j)
      {
        assert s[..i][j] == s[j];
      }
    } else {
      forall j
        ensures !OccursAt(s, [c], j)
      {
        if 0 <= j < |s| {
          assert s[j..j + 1][0] == s[j];
        }
      }
    }
  }

  /** The first `c` of `key + [c] + rest` when `key` has none. */
  lemma {:induction false} IndexOfCharAfter(key: string, c: char, rest: string)
    requires c !in key
    ensures IndexOfChar(key + [c] + rest, c) == |key|
    decreases |key|
  {
    if key != [] {
      assert (key + [c] + rest)[1..] == key[1..] + [c] + rest;
      IndexOfCharAfter(key[1..], c, rest);
    }
  }

  /** `sub in s` */
  predicate Contains(s: string, sub: string) {
    IndexOf(s, sub) >= 0
  }

  /** `sep.join(xs)` */
  function Join(xs: seq<string>, sep: string): string
    decreases |xs|
  {
    if |xs| == 0 then ""
    else if |xs| == 1 then xs[0]
    else xs[0] + sep + Join(xs[1..], sep)
  }

  lemma {:induction false} NoOccurrenceInPrefix(s: string, sub: string, i: int)
    requires 0 <= i <= |s| && |sub| > 0
    requires forall j :: 0 <= j < i ==> !OccursAt(s, sub, j)
    ensures forall j :: !OccursAt(s[..i], sub, j)
  {
    forall j | OccursAt(s[..i], sub, j)
      ensures false
    {
      assert s[..i][j..j + |sub|] == s[j..j + |sub|];
      assert OccursAt(s, sub, j);
    }
  }

  /** `s.split(sep)` for a non-empty separator: the pieces between the
      leftmost non-overlapping occurrences of `sep`. */
  function Split(s: string, sep: string): (r: seq<string>)
    requires |sep| > 0
    ensures |r| >= 1
    decreases |s|
  {
    var i := IndexOf(s, sep);
    if i < 0 then [s]
    else [s[..i]] + Split(s[i + |sep|..], sep)
  }

  /** Joining the pieces of a split with its separator gives the text
      back, and no piece holds the separator. */
  lemma {:induction false} SplitInverse(s: string, sep: string)
    requires |sep| > 0
    ensures Join(Split(s, sep), sep) == s
    ensures forall k :: 0 <= k < |Split(s, sep)| ==> !Contains(Split(s, sep)[k], sep)
    decreases |s|
  {
    IndexOfSpec(s, sep);
    var i := IndexOf(s, sep);
    if i >= 0 {
      var rest := Split(s[i + |sep|..], sep);
      SplitInverse(s[i + |sep|..], sep);
      assert s == s[..i] + sep + s[i + |sep|..];
      NoOccurrenceInPrefix(s, sep, i);
      IndexOfSpec(s[..i], sep);
      assert Split(s, sep) == [s[..i]] + rest;
      assert ([s[..i]] + rest)[1..] == rest;
    }
  }

  /** Splitting what was joined with a separator gives the pieces back,
      provided no piece holds the separator's first character. */
  lemma {:induction false} SplitJoin(xs: seq<string>, sep: string)
    requires |sep| > 0 && |xs| >= 1
    requires forall k :: 0 <= k < |xs| ==> Lacks(xs[k], sep[0])
    ensures Split(Join(xs, sep), sep) == xs
    decreases |xs|
  {
    if |xs| == 1 {
      SplitSingle(xs[0], sep);
    } else {
      var tail := xs[1..];
      assert Join(xs, sep) == xs[0] + sep + Join(tail, sep);
      forall k | 0 <= k < |tail| ensures Lacks(tail[k], sep[0]) {
        assert tail[k] == xs[k + 1];
      }
      SplitJoin(tail, sep);
      SplitCons(xs[0], Join(tail, sep), sep);
      assert xs == [xs[0]] + tail;
    }
  }

  /** A text without the separator's first character is one piece. */
  lemma SplitSingle(s: string, sep: string)
    requires |sep| > 0 && Lacks(s, sep[0])
    ensures Split(s, sep) == [s]
  {
    forall j | 0 <= j ensures !OccursAt(s, sep, j) {
      if j + |sep| <= |s| {
        assert s[j..j + |sep|][0] == s[j];
      }
    }
    IndexOfSpec(s, sep);
  }

  /** A first piece without the separator's first character, then the
      separator: the split is that piece and the split of the rest. */
  lemma SplitCons(x: string, rest: string, sep: string)
    requires |sep| > 0 && Lacks(x, sep[0])
    ensures Split(x + sep + rest, sep) == [x] + Split(rest, sep)
  {
    var s := x + sep + rest;
    assert OccursAt(s, sep, |x|) by {
      assert s[|x|..|x| + |sep|] == sep;
    }
    forall j | 0 <= j < |x| ensures !OccursAt(s, sep, j) {
      assert s[j..j + |sep|][0] == s[j] == x[j];
    }
    IndexOfSpec(s, sep);
    var i := IndexOf(s, sep);
    assert i == |x|;
    assert s[..i] == x;
    assert s[i + |sep|..] == rest;
  }

  /** Two pieces without the separator's first character, joined by it,
      split back into the two pieces. */
  lemma SplitPair(a: string, b: string, sep: string)
    requires |sep| > 0 && Lacks(a, sep[0]) && Lacks(b, sep[0])
    ensures Split(a + sep + b, sep) == [a, b]
  {
    SplitJoin([a, b], sep);
    assert Join([a, b], sep) == a + sep + b;
  }

  /** `c` does not occur in `s`. */
  predicate Lacks(s: string, c: char) {
    forall k :: 0 <= k < |s| ==> s[k] != c
  }

  /** A character absent from the pieces and the separator is absent from
      their join. */
  lemma {:induction false} JoinLacks(xs: seq<string>, sep: string, c: char)
    requires Lacks(sep, c)
    requires forall k :: 0 <= k < |xs| ==> Lacks(xs[k], c)
    ensures Lacks(Join(xs, sep), c)
    decreases |xs|
  {
    if |xs| > 1 {
      assert Lacks(xs[0], c);
      forall k | 0 <= k < |xs[1..]| ensures Lacks(xs[1..][k], c) {
        assert xs[1..][k] == xs[k + 1];
      }
      JoinLacks(xs[1..], sep, c);
    } else if |xs| == 1 {
      assert Lacks(xs[0], c);
    }
  }

  // ---------------------------------------------------------------------
  // Whitespace and strip()

  /** The characters Python's `str.isspace()` accepts. */
  predicate IsSpace(c: char) {
    ('\U{0009}' <= c <= '\U{000D}') || ('\U{001C}' <= c <= '\U{001F}') || c == ' '
    || c == '\U{0085}' || c == '\U{00A0}' || c == '\U{1680}'
    || ('\U{2000}' <= c <= '\U{200A}') || c == '\U{2028}' || c == '\U{2029}'
    || c == '\U{202F}' || c == '\U{205F}' || c == '\U{3000}'
  }

  predicate AllSpace(s: string) {
    forall k :: 0 <= k < |s| ==> IsSpace(s[k])
  }

  /** Neither the first nor the last character is white space. */
  predicate IsStripped(s: string) {
    s == [] || (!IsSpace(s[0]) && !IsSpace(s[|s| - 1]))
  }

  predicate NoSpace(s: string) {
    forall k :: 0 <= k < |s| ==> !IsSpace(s[k])
  }

  /** `s.lstrip()` */
  function TrimLeft(s: string): (r: string)
    ensures |r| <= |s|
    ensures r == [] || !IsSpace(r[0])
    decreases |s|
  {
    if |s| > 0 && IsSpace(s[0]) then TrimLeft(s[1..]) else s
  }

  /** `lstrip` removes a prefix of white space and nothing else. */
  lemma {:induction false} TrimLeftSuffix(s: string)
    ensures TrimLeft(s) == s[|s| - |TrimLeft(s)|..]
    ensures AllSpace(s[..|s| - |TrimLeft(s)|])
    decreases |s|
  {
    if |s| > 0 && IsSpace(s[0]) {
      var r := TrimLeft(s[1..]);
      TrimLeftSuffix(s[1..]);
      assert s[1..][..|s| - 1 - |r|] == s[1..|s| - |r|];
    }
  }

  /** `s.rstrip()` */
  function TrimRight(s: string): (r: string)
    ensures |r| <= |s|
    ensures r == [] || !IsSpace(r[|r| - 1])
    decreases |s|
  {
    if |s| > 0 && IsSpace(s[|s| - 1]) then TrimRight(s[..|s| - 1]) else s
  }

  /** `rstrip` removes a suffix of white space and nothing else. */
  lemma {:induction false} TrimRightPrefix(s: string)
    ensures TrimRight(s) == s[..|TrimRight(s)|]
    ensures AllSpace(s[|TrimRight(s)|..])
    decreases |s|
  {
    if |s| > 0 && IsSpace(s[|s| - 1]) {
      var r := TrimRight(s[..|s| - 1]);
      TrimRightPrefix(s[..|s| - 1]);
      assert s[..|s| - 1][..|r|] == s[..|r|];
      assert s[|r|..] == s[..|s| - 1][|r|..] + [s[|s| - 1]];
    }
  }

  /** `s.strip()` */
  function Strip(s: string): (r: string)
    ensures IsStripped(r)
    ensures |r| <= |s|
  {
    var l := TrimLeft(s);
    var r := TrimRight(l);
    TrimRightPrefix(l);
    assert r == [] || r[0] == l[0];
    r
  }

  lemma {:induction false} TrimLeftOfSpaced(sp: string, x: string)
    requires AllSpace(sp)
    requires x == [] || !IsSpace(x[0])
    ensures TrimLeft(sp + x) == x
    decreases |sp|
  {
    if |sp| > 0 {
      assert (sp + x)[1..] == sp[1..] + x;
      TrimLeftOfSpaced(sp[1..], x);
    } else {
      assert sp + x == x;
    }
  }

  lemma {:induction false} TrimRightOfSpaced(x: string, sp: string)
    requires AllSpace(sp)
    requires x == [] || !IsSpace(x[|x| - 1])
    ensures TrimRight(x + sp) == x
    decreases |sp|
  {
    if |sp| > 0 {
      assert (x + sp)[..|x + sp| - 1] == x + sp[..|sp| - 1];
      TrimRightOfSpaced(x, sp[..|sp| - 1]);
    } else {
      assert x + sp == x;
    }
  }

  /** Stripping removes exactly the white space around a stripped text. */
  lemma StripPadded(sp1: string, x: string, sp2: string)
    requires AllSpace(sp1) && AllSpace(sp2) && IsStripped(x)
    ensures Strip(sp1 + x + sp2) == x
  {
    if x == [] {
      assert sp1 + x + sp2 == sp1 + sp2;
      TrimLeftOfSpaced(sp1 + sp2, []);
      assert sp1 + sp2 + [] == sp1 + sp2;
      TrimRightOfSpaced([], []);
    } else {
      assert sp1 + x + sp2 == sp1 + (x + sp2);
      TrimLeftOfSpaced(sp1, x + sp2);
      TrimRightOfSpaced(x, sp2);
    }
  }

  lemma StripNoop(x: string)
    requires IsStripped(x)
    ensures Strip(x) == x
  {
    StripPadded([], x, []);
    assert [] + x + [] == x;
  }

  /** A join of texts without white space, by a separator without white
      space, has no white space. */
  lemma {:induction false} JoinNoSpace(xs: seq<string>, sep: string)
    requires NoSpace(sep)
    requires forall k :: 0 <= k < |xs| ==> NoSpace(xs[k])
    ensures NoSpace(Join(xs, sep))
    decreases |xs|
  {
    if |xs| > 1 {
      assert NoSpace(xs[0]);
      forall k | 0 <= k < |xs[1..]| ensures NoSpace(xs[1..][k]) {
        assert xs[1..][k] == xs[k + 1];
      }
      JoinNoSpace(xs[1..], sep);
    } else if |xs| == 1 {
      assert NoSpace(xs[0]);
    }
  }

  // ---------------------------------------------------------------------
  // split() without a separator

  /** Index of the first white-space character of `s`, or `|s|`. */
  function WordEnd(s: string): (k: nat)
    ensures k <= |s| && NoSpace(s[..k])
    ensures k < |s| ==> IsSpace(s[k])
    ensures |s| > 0 && !IsSpace(s[0]) ==> k > 0
    decreases |s|
  {
    if |s| == 0 || IsSpace(s[0]) then 0
    else
      var k := WordEnd(s[1..]);
      assert s[..k + 1] == [s[0]] + s[1..][..k];
      k + 1
  }

  /** A non-empty text without white space. */
  predicate IsWord(w: string) {
    |w| > 0 && NoSpace(w)
  }

  /** `s.split()`: the maximal runs of non-white-space characters. */
  function Words(s: string): (ws: seq<string>)
    ensures forall k :: 0 <= k < |ws| ==> IsWord(ws[k])
    decreases |s|
  {
    var t := TrimLeft(s);
    if t == [] then []
    else
      var k := WordEnd(t);
      var w := t[..k];
      assert |w| == k > 0 && NoSpace(w);
      [w] + Words(t[k..])
  }

  /** A text made of one word splits into that word alone. */
  lemma OneWord(x: string)
    requires IsWord(x)
    ensures Words(x) == [x]
  {
    assert TrimLeft(x) == x;
    assert WordEnd(x) == |x|;
    assert x[..|x|] == x;
    assert x[|x|..] == [];
    assert TrimLeft([]) == [];
    assert Words([]) == [];
  }

  lemma {:induction false} WordEndCat(x: string, rest: string)
    requires NoSpace(x)
    requires rest == [] || IsSpace(rest[0])
    ensures WordEnd(x + rest) == |x|
    decreases |x|
  {
    if |x| == 0 {
      assert x + rest == rest;
    } else {
      assert (x + rest)[1..] == x[1..] + rest;
      WordEndCat(x[1..], rest);
    }
  }

  /** A word followed by white space (or by nothing) is the first word. */
  lemma WordsCons(x: string, rest: string)
    requires IsWord(x)
    requires rest == [] || IsSpace(rest[0])
    ensures Words(x + rest) == [x] + Words(rest)
  {
    var s := x + rest;
    assert TrimLeft(s) == s;
    WordEndCat(x, rest);
    assert s[..|x|] == x;
    assert s[|x|..] == rest;
  }

  /** Leading white space does not change the words. */
  lemma WordsAfterSpace(sp: string, y: string)
    requires AllSpace(sp)
    requires IsWord(y)
    ensures Words(sp + y) == Words(y)
  {
    TrimLeftOfSpaced(sp, y);
    assert TrimLeft(y) == y;
  }

  /** Two words separated by white space split into those two words. */
  lemma TwoWords(x: string, sp: string, y: string)
    requires IsWord(x) && IsWord(y)
    requires |sp| > 0 && AllSpace(sp)
    ensures Words(x + sp + y) == [x, y]
  {
    assert x + sp + y == x + (sp + y);
    WordsCons(x, sp + y);
    WordsAfterSpace(sp, y);
    OneWord(y);
  }

  // ---------------------------------------------------------------------
  // Integers: int(s) and str(i)

  predicate IsDigit(c: char) { '0' <= c <= '9' }

  predicate AllDigits(s: string) {
    forall k :: 0 <= k < |s| ==> IsDigit(s[k])
  }

  function DigitValue(c: char): nat
    requires IsDigit(c)
  {
    (c as int - '0' as int) as nat
  }

  function DigitChar(d: nat): (c: char)
    requires d < 10
    ensures IsDigit(c) && DigitValue(c) == d
  {
    ('0' as int + d) as char
  }

  /** The value of a decimal numeral. */
  function NatValue(ds: string): nat
    requires AllDigits(ds)
    decreases |ds|
  {
    if |ds| == 0 then 0
    else NatValue(ds[..|ds| - 1]) * 10 + DigitValue(ds[|ds| - 1])
  }

  /** `str(n)` for a natural number. */
  function NatToStr(n: nat): (s: string)
    ensures |s| > 0 && AllDigits(s)
  {
    if n < 10 then [DigitChar(n)] else NatToStr(n / 10) + [DigitChar(n % 10)]
  }

  /** `str(i)` for an integer. */
  function IntToStr(i: int): (s: string)
    ensures |s| > 0 && NoSpace(s)
    ensures i >= 0 ==> AllDigits(s)
    ensures i < 0 ==> s[0] == '-'
  {
    if i < 0 then "-" + NatToStr(-i) else NatToStr(i)
  }

  /** `int(t)` for a stripped text: an optional sign followed by at least
      one decimal digit. */
  function ParseSigned(t: string): Option<int> {
    if |t| > 0 && (t[0] == '-' || t[0] == '+') then
      if |t| > 1 && AllDigits(t[1..]) then
        Some(if t[0] == '-' then 0 - NatValue(t[1..]) else NatValue(t[1..]))
      else None
    else if |t| > 0 && AllDigits(t) then Some(NatValue(t))
    else None
  }

  /** `int(s)`: Python strips the white space around the numeral first;
      None is the `ValueError` case. Only ASCII digits are read: the `_`
      separators and non-ASCII decimal digits Python also accepts are
      not. */
  function ParseInt(s: string): Option<int> {
    ParseSigned(Strip(s))
  }

  lemma {:induction false} NatRoundTrip(n: nat)
    ensures NatValue(NatToStr(n)) == n
  {
    if n >= 10 {
      NatRoundTrip(n / 10);
      var s := NatToStr(n);
      assert s[..|s| - 1] == NatToStr(n / 10);
    }
  }

  lemma DigitsNoSpace(s: string)
    requires AllDigits(s)
    ensures NoSpace(s)
  {
  }

  lemma SignedRoundTrip(i: int)
    ensures ParseSigned(IntToStr(i)) == Some(i)
  {
    var s := IntToStr(i);
    if i < 0 {
      var d := NatToStr(-i);
      assert s == "-" + d;
      assert s[1..] == d;
      NatRoundTrip(-i);
    } else {
      NatRoundTrip(i);
    }
  }

  /** `int(str(i)) == i` */
  lemma IntRoundTrip(i: int)
    ensures ParseInt(IntToStr(i)) == Some(i)
  {
    var s := IntToStr(i);
    assert IsStripped(s);
    StripNoop(s);
    SignedRoundTrip(i);
  }

  /** `str` on integers is injective. */
  lemma IntToStrInjective(a: int, b: int)
    requires IntToStr(a) == IntToStr(b)
    ensures a == b
  {
    IntRoundTrip(a);
    IntRoundTrip(b);
  }
}
