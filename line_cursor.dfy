/** The line cursor both trace lexers read through (the `MyFile` object
    they hold): the file is a sequence of raw lines, each as read from
    disk with its line terminator, and the cursor is the index of the next
    unread line. */
module LineCursor {
  import opened Wrappers

  /** Why reading a trace stopped: the Python exceptions the readers let
      escape. */
  datatype TraceError =
    | EndOfFile(line: nat)              // consuming past the last line
    | BadInt(text: string)              // `int(text)` raises ValueError
    | MissingField(index: nat)          // indexing past the fields of a split
    | UnknownDeclShape(line: nat, text: string)
    | UnknownLine(line: nat, text: string)
    | NoColon(text: string)             // a hypothesis line without ":"
    | NotDivider(text: string)          // the divider line was expected
    | AlreadyParsed                     // the file was read to its end before
    | LemmaNotFound(name: string)
    | NoOpenLemma                       // "en(pf)" without a lemma name
    | MissingKey                        // a dictionary lookup raises KeyError

  /** A raw line without its terminating newline. */
  function Chomp(l: string): string
  {
    if |l| > 0 && l[|l| - 1] == '\n' then l[..|l| - 1] else l
  }

  /** `raw_peek_line`: the raw text of the next line, or "" at the end. */
  function RawPeekAt(lines: seq<string>, pos: nat): string {
    if pos < |lines| then lines[pos] else ""
  }

  /** `peek_line`: the next logical line, or "" at the end. */
  function PeekAt(lines: seq<string>, pos: nat): string {
    if pos < |lines| then Chomp(lines[pos]) else ""
  }

  /** `consume_line`: the next logical line, or an error at the end. */
  function ConsumeAt(lines: seq<string>, pos: nat): (r: Result<string, TraceError>)
    ensures r.Ok? <==> pos < |lines|
    ensures r.Ok? ==> r.value == PeekAt(lines, pos)
  {
    if pos < |lines| then Ok(Chomp(lines[pos])) else Err(EndOfFile(pos))
  }

  /** The logical lines from `lo` up to `hi`, concatenated. */
  function Concat(lines: seq<string>, lo: nat, hi: nat): string
    requires lo <= hi <= |lines|
    decreases hi - lo
  {
    if lo == hi then "" else Chomp(lines[lo]) + Concat(lines, lo + 1, hi)
  }

  lemma {:induction false} ConcatSnoc(lines: seq<string>, lo: nat, hi: nat)
    requires lo <= hi < |lines|
    ensures Concat(lines, lo, hi + 1) == Concat(lines, lo, hi) + Chomp(lines[hi])
    decreases hi - lo
  {
    if lo < hi {
      ConcatSnoc(lines, lo + 1, hi);
    }
  }

  class LineFile {
    const lines: seq<string>
    var pos: nat

    /** Every raw line holds at least its terminator, so an empty raw
        peek means the end of the file. */
    ghost predicate Valid()
      reads this
    {
      pos <= |lines| && forall k :: 0 <= k < |lines| ==> lines[k] != ""
    }

    constructor (text: seq<string>)
      requires forall k :: 0 <= k < |text| ==> text[k] != ""
      ensures Valid() && lines == text && pos == 0
    {
      lines := text;
      pos := 0;
    }

    /** The number of lines consumed so far (`line`). */
    function LineNo(): nat
      reads this
    {
      pos
    }

    function PeekLine(): string
      reads this
    {
      PeekAt(lines, pos)
    }

    function RawPeekLine(): string
      reads this
    {
      RawPeekAt(lines, pos)
    }

    method ConsumeLine() returns (r: Result<string, TraceError>)
      requires Valid()
      modifies this
      ensures Valid()
      ensures r == ConsumeAt(lines, old(pos))
      ensures pos == if r.Ok? then old(pos) + 1 else old(pos)
    {
      r := ConsumeAt(lines, pos);
      if r.Ok? {
        pos := pos + 1;
      }
    }

    /** `raw_consume_line`: skips the next raw line; nothing at the end. */
    method RawConsumeLine()
      requires Valid()
      modifies this
      ensures Valid()
      ensures pos == if old(pos) < |lines| then old(pos) + 1 else old(pos)
    {
      if pos < |lines| {
        pos := pos + 1;
      }
    }

    /** `advance_line`: consume the current line and peek at the next. */
    method AdvanceLine() returns (r: Result<string, TraceError>)
      requires Valid()
      modifies this
      ensures Valid()
      ensures old(pos) < |lines| <==> r.Ok?
      ensures r.Ok? ==> pos == old(pos) + 1 && r.value == PeekAt(lines, pos)
      ensures r.Err? ==> pos == old(pos)
    {
      var c := ConsumeLine();
      if c.Err? {
        return Err(c.error);
      }
      r := Ok(PeekLine());
    }
  }
}
