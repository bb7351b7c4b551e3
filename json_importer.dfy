/**
 * The line handler of the JSON importer: each non-empty line is parsed
 * as JSON; a line that does not parse or is not an object is either an
 * error or, when bad lines are ignored, counted and skipped; an object is
 * flattened into named columns and recorded as one row.
 */
module JsonImport {
  import opened Wrappers

  /** A parsed JSON value, by kind; an object's members in the order the parser lists them. */
  datatype Json =
    | Null
    | Bool(b: bool)
    | Int(i: int)
    | Double(d: real)
    | String(s: string)
    | Array(elements: seq<Json>)
    | Object(members: seq<Member>)

  datatype Member = Member(key: string, value: Json)

  /** The value of an output column. */
  datatype CellValue = BoolCell(b: bool) | IntCell(i: int) | DoubleCell(d: real) | StringCell(s: string)

  datatype Column = Column(name: string, value: CellValue)

  /**
   * Formatting borrowed from libraries, taken as given: how a double and
   * an int print as text, and how a JSON value serialises.
   */
  datatype Printer = Printer(showDouble: real -> string, showInt: int -> string, serialise: Json -> string)

  predicate IsAtom(v: Json)
  {
    v.Bool? || v.Int? || v.Double? || v.String?
  }

  /** An array whose elements are neither arrays nor objects. */
  predicate OnlyAtomic(elements: seq<Json>)
  {
    forall k :: 0 <= k < |elements| ==> !elements[k].Array? && !elements[k].Object?
  }

  /**
   * The scan that decides whether an array holds only atoms: it stops at
   * the first element that is an array or an object.
   */
  method ScanOnlyAtomic(elements: seq<Json>) returns (onlyAtomic: bool)
    ensures onlyAtomic <==> OnlyAtomic(elements)
  {
    onlyAtomic := true;
    var i := 0;
    while i < |elements|
      invariant 0 <= i <= |elements|
      invariant onlyAtomic
      invariant OnlyAtomic(elements[..i])
    {
      if elements[i].Array? || elements[i].Object? {
        onlyAtomic := false;
        break;
      }
      assert elements[..i + 1] == elements[..i] + [elements[i]];
      i := i + 1;
    }
    assert onlyAtomic ==> elements[..i] == elements;
  }

  /**
   * The text an element of an atomic array contributes to its column's
   * name: a string is its own text, a boolean is "true" or "false", a
   * number is printed, and anything else is serialised.
   */
  function AtomKey(v: Json, p: Printer): (key: string)
    ensures v.String? ==> key == v.s
    ensures v.Bool? ==> (key == "true" <==> v.b) && (key == "false" <==> !v.b)
    ensures v.Double? ==> key == p.showDouble(v.d)
    ensures v.Int? ==> key == p.showInt(v.i)
    ensures v.Null? ==> key == p.serialise(v)
  {
    match v
    case String(s) => s
    case Bool(b) => if b then "true" else "false"
    case Double(d) => p.showDouble(d)
    case Int(i) => p.showInt(i)
    case _ => p.serialise(v)
  }

  /** The serialised text without its one trailing newline, if it has one. */
  function StripNewline(s: string): (t: string)
    ensures s == t || s == t + "\n"
    ensures |s| > 0 && s[|s| - 1] == '\n' ==> s == t + "\n"
  {
    if |s| > 0 && s[|s| - 1] == '\n' then s[..|s| - 1] else s
  }

  /**
   * emplaceCol: the columns that value `v` found under name `id`
   * contributes to the row. Every column's name begins with `id`.
   */
  function EmplaceCol(id: string, v: Json, p: Printer): (cols: seq<Column>)
    ensures forall k :: 0 <= k < |cols| ==> id <= cols[k].name
    decreases v
  {
    match v
    case Null => []
    case Bool(b) => [Column(id, BoolCell(b))]
    case Int(i) => [Column(id, IntCell(i))]
    case Double(d) => [Column(id, DoubleCell(d))]
    case String(s) => [Column(id, StringCell(s))]
    case Array(elements) =>
      if OnlyAtomic(elements) then
        seq(|elements|, k requires 0 <= k < |elements| =>
          Column(id + "." + AtomKey(elements[k], p), BoolCell(true)))
      else
        [Column(id, StringCell(StripNewline(p.serialise(v))))]
    case Object(members) =>
      var cols := FlattenMembers(id + ".", members, p);
      assert forall k :: 0 <= k < |cols| ==> id <= id + "." <= cols[k].name;
      cols
  }

  /**
   * The members of an object in order, each flattened under `prefix`
   * followed by its key. Every column's name begins with that of one of
   * the members.
   */
  function FlattenMembers(prefix: string, members: seq<Member>, p: Printer): (cols: seq<Column>)
    ensures forall k :: 0 <= k < |cols| ==>
              exists m :: 0 <= m < |members| && prefix + members[m].key <= cols[k].name
    decreases members
  {
    if members == [] then
      []
    else
      var first := EmplaceCol(prefix + members[0].key, members[0].value, p);
      var rest := FlattenMembers(prefix, members[1..], p);
      assert forall k :: 0 <= k < |rest| ==>
               exists m :: 1 <= m < |members| && prefix + members[m].key <= rest[k].name by {
        forall k | 0 <= k < |rest|
          ensures exists m :: 1 <= m < |members| && prefix + members[m].key <= rest[k].name
        {
          var m :| 0 <= m < |members[1..]| && prefix + members[1..][m].key <= rest[k].name;
          assert members[1..][m] == members[m + 1];
        }
      }
      first + rest
  }

  /** The columns of a line's root object: top-level members under their bare names. */
  function RowColumns(root: seq<Member>, p: Printer): (cols: seq<Column>)
    ensures forall k :: 0 <= k < |cols| ==>
              exists m :: 0 <= m < |root| && root[m].key <= cols[k].name
  {
    FlattenMembers("", root, p)
  }

  /** A null value contributes no column; an atom contributes exactly one, named `id`, holding its value. */
  lemma NullAndAtomColumns(id: string, v: Json, p: Printer)
    ensures v.Null? ==> EmplaceCol(id, v, p) == []
    ensures IsAtom(v) ==> |EmplaceCol(id, v, p)| == 1 && EmplaceCol(id, v, p)[0].name == id
    ensures v.Bool? ==> EmplaceCol(id, v, p)[0].value == BoolCell(v.b)
    ensures v.Int? ==> EmplaceCol(id, v, p)[0].value == IntCell(v.i)
    ensures v.Double? ==> EmplaceCol(id, v, p)[0].value == DoubleCell(v.d)
    ensures v.String? ==> EmplaceCol(id, v, p)[0].value == StringCell(v.s)
  {
  }

  /** An array of atoms (nulls included) gives one `true` column per element, named after the element. */
  lemma AtomicArrayColumns(id: string, elements: seq<Json>, p: Printer)
    requires OnlyAtomic(elements)
    ensures |EmplaceCol(id, Array(elements), p)| == |elements|
    ensures forall k :: 0 <= k < |elements| ==>
              EmplaceCol(id, Array(elements), p)[k] == Column(id + "." + AtomKey(elements[k], p), BoolCell(true))
  {
  }

  /** An array holding an array or an object gives a single column named `id` with the serialised array. */
  lemma NestedArrayColumn(id: string, elements: seq<Json>, p: Printer)
    requires exists k :: 0 <= k < |elements| && (elements[k].Array? || elements[k].Object?)
    ensures EmplaceCol(id, Array(elements), p) == [Column(id, StringCell(StripNewline(p.serialise(Array(elements)))))]
  {
  }

  /** The members that are not null. */
  function NonNull(members: seq<Member>): (kept: seq<Member>)
    ensures forall k :: 0 <= k < |kept| ==> !kept[k].value.Null? && kept[k] in members
    ensures |kept| <= |members|
  {
    if members == [] then []
    else if members[0].value.Null? then NonNull(members[1..])
    else [members[0]] + NonNull(members[1..])
  }

  /** Null members can be dropped from an object before flattening without changing its columns. */
  lemma {:induction false} NullMembersDropped(prefix: string, members: seq<Member>, p: Printer)
    ensures FlattenMembers(prefix, members, p) == FlattenMembers(prefix, NonNull(members), p)
  {
    if members != [] {
      NullMembersDropped(prefix, members[1..], p);
      if !members[0].value.Null? {
        var kept := [members[0]] + NonNull(members[1..]);
        assert kept[0] == members[0] && kept[1..] == NonNull(members[1..]);
      }
    }
  }

  /** The decimal digits of a natural number, as `%d` prints it. */
  function Decimal(n: nat): (s: string)
    ensures |s| >= 1
    ensures forall k :: 0 <= k < |s| ==> '0' <= s[k] <= '9'
    ensures n >= 10 ==> |s| >= 2
  {
    var digit := ['0' + (n % 10) as char];
    if n < 10 then digit else Decimal(n / 10) + digit
  }

  /** Different numbers print differently. */
  lemma {:induction false} DecimalInjective(m: nat, n: nat)
    requires Decimal(m) == Decimal(n)
    ensures m == n
  {
    var a, b := Decimal(m), Decimal(n);
    assert a[|a| - 1] == b[|b| - 1];
    assert m % 10 == n % 10;
    if m >= 10 && n >= 10 {
      assert a[..|a| - 1] == Decimal(m / 10);
      assert b[..|b| - 1] == Decimal(n / 10);
      DecimalInjective(m / 10, n / 10);
    }
  }

  /** The name of the row made from line `lineNumber` (counted from 0): "row" and the line's number counted from 1. */
  function RowName(lineNumber: nat): (name: string)
    ensures |name| > 3 && name[..3] == "row"
  {
    "row" + Decimal(lineNumber + 1)
  }

  /** Different lines make rows with different names. */
  lemma RowNamesDistinct(i: nat, j: nat)
    requires i != j
    ensures RowName(i) != RowName(j)
  {
    if RowName(i) == RowName(j) {
      assert RowName(i)[3..] == Decimal(i + 1);
      assert RowName(j)[3..] == Decimal(j + 1);
      DecimalInjective(i + 1, j + 1);
    }
  }

  /** What a line is, given the JSON parser's verdict on it. */
  datatype LineKind = EmptyLine | Unparsable | NotAnObject | Accepted(root: seq<Member>)

  function Classify(line: string, parse: string -> Option<Json>): (kind: LineKind)
    ensures kind.EmptyLine? <==> |line| == 0
    ensures kind.Unparsable? <==> |line| > 0 && parse(line).None?
    ensures kind.NotAnObject? <==> |line| > 0 && parse(line).Some? && !parse(line).value.Object?
    ensures kind.Accepted? <==> |line| > 0 && parse(line).Some? && parse(line).value.Object?
    ensures kind.Accepted? ==> parse(line) == Some(Object(kind.root))
  {
    if line == [] then EmptyLine
    else match parse(line)
      case None => Unparsable
      case Some(Object(members)) => Accepted(members)
      case Some(_) => NotAnObject
  }

  /** The error that stops an import whose bad lines are not ignored. */
  datatype LineError = ParseFailed(lineNumber: nat) | NotAnObjectAt(lineNumber: nat)

  /** A row as recorded to the output dataset. */
  datatype RecordedRow = RecordedRow(name: string, columns: seq<Column>)

  /** The result of a run: rows recorded and lines refused. */
  datatype RunOutput = RunOutput(rowCount: nat, numLineErrors: nat)

  /** The row an accepted line gives. */
  function RowOf(lineNumber: nat, root: seq<Member>, p: Printer): RecordedRow
  {
    RecordedRow(RowName(lineNumber), RowColumns(root, p))
  }

  /** The rows the first |lines| lines give, in order. */
  function AcceptedRows(lines: seq<string>, parse: string -> Option<Json>, p: Printer): seq<RecordedRow>
  {
    if lines == [] then []
    else
      var n := |lines| - 1;
      var earlier := AcceptedRows(lines[..n], parse, p);
      match Classify(lines[n], parse)
      case Accepted(root) => earlier + [RowOf(n, root, p)]
      case _ => earlier
  }

  /** How many lines do not parse or are not objects. */
  function BadCount(lines: seq<string>, parse: string -> Option<Json>): nat
  {
    if lines == [] then 0
    else
      var n := |lines| - 1;
      var kind := Classify(lines[n], parse);
      BadCount(lines[..n], parse) + if kind.Unparsable? || kind.NotAnObject? then 1 else 0
  }

  /** How many lines are not empty. */
  function NonEmptyCount(lines: seq<string>): nat
  {
    if lines == [] then 0 else NonEmptyCount(lines[..|lines| - 1]) + if lines[|lines| - 1] == [] then 0 else 1
  }

  /** Every non-empty line is either recorded as a row or counted as an error. */
  lemma {:induction false} EveryNonEmptyLineCounted(lines: seq<string>, parse: string -> Option<Json>, p: Printer)
    ensures |AcceptedRows(lines, parse, p)| + BadCount(lines, parse) == NonEmptyCount(lines)
  {
    if lines != [] {
      EveryNonEmptyLineCounted(lines[..|lines| - 1], parse, p);
    }
  }

  /** The recorded rows carry the names of their lines, so no two share a name. */
  lemma {:induction false} AcceptedRowNamesDistinct(lines: seq<string>, parse: string -> Option<Json>, p: Printer)
    ensures forall k :: 0 <= k < |AcceptedRows(lines, parse, p)| ==>
              exists i :: 0 <= i < |lines| && AcceptedRows(lines, parse, p)[k].name == RowName(i)
    ensures forall k, l :: 0 <= k < l < |AcceptedRows(lines, parse, p)| ==>
              AcceptedRows(lines, parse, p)[k].name != AcceptedRows(lines, parse, p)[l].name
  {
    if lines != [] {
      var n := |lines| - 1;
      AcceptedRowNamesDistinct(lines[..n], parse, p);
      var earlier := AcceptedRows(lines[..n], parse, p);
      var rows := AcceptedRows(lines, parse, p);
      forall k | 0 <= k < |earlier|
        ensures exists i :: 0 <= i < n && earlier[k].name == RowName(i)
      {
        var i :| 0 <= i < |lines[..n]| && earlier[k].name == RowName(i);
      }
      var kind := Classify(lines[n], parse);
      if kind.Accepted? {
        assert rows == earlier + [RowOf(n, kind.root, p)];
      } else {
        assert rows == earlier;
      }
      forall k | 0 <= k < |rows|
        ensures exists i :: 0 <= i < |lines| && rows[k].name == RowName(i)
      {
        if k < |earlier| {
          assert rows[k] == earlier[k];
          var i :| 0 <= i < n && earlier[k].name == RowName(i);
        } else {
          assert rows[k].name == RowName(n);
        }
      }
      if Classify(lines[n], parse).Accepted? {
        forall k, l | 0 <= k < l < |rows|
          ensures rows[k].name != rows[l].name
        {
          if l == |earlier| {
            var i :| 0 <= i < n && earlier[k].name == RowName(i);
            RowNamesDistinct(i, n);
          } else {
            assert rows[k] == earlier[k] && rows[l] == earlier[l];
          }
        }
      }
    } else {
      assert AcceptedRows(lines, parse, p) == [];
    }
  }

  /**
   * The state the line handler shares across lines: the settings, the
   * two counters, and the rows recorded to the output dataset.
   */
  class Importer {
    const ignoreBadLines: bool
    const parse: string -> Option<Json>
    const printer: Printer
    var errors: nat
    var recordedLines: nat
    var recorded: seq<RecordedRow>

    constructor (ignoreBadLines: bool, parse: string -> Option<Json>, printer: Printer)
      ensures this.ignoreBadLines == ignoreBadLines && this.parse == parse && this.printer == printer
      ensures errors == 0 && recordedLines == 0 && recorded == []
    {
      this.ignoreBadLines := ignoreBadLines;
      this.parse := parse;
      this.printer := printer;
      errors := 0;
      recordedLines := 0;
      recorded := [];
    }

    /**
     * onLine: an empty line changes nothing; a bad line is an error, or
     * when bad lines are ignored adds one to `errors`; an object line is
     * recorded as row "row<lineNumber + 1>" and adds one to
     * `recordedLines`.
     */
    method OnLine(line: string, lineNumber: nat) returns (failure: Option<LineError>)
      modifies this
      ensures match Classify(line, parse)
        case EmptyLine =>
          failure == None && errors == old(errors) && recordedLines == old(recordedLines) && recorded == old(recorded)
        case Unparsable =>
          && recordedLines == old(recordedLines) && recorded == old(recorded)
          && (if ignoreBadLines then failure == None && errors == old(errors) + 1
              else failure == Some(ParseFailed(lineNumber)) && errors == old(errors))
        case NotAnObject =>
          && recordedLines == old(recordedLines) && recorded == old(recorded)
          && (if ignoreBadLines then failure == None && errors == old(errors) + 1
              else failure == Some(NotAnObjectAt(lineNumber)) && errors == old(errors))
        case Accepted(root) =>
          && failure == None && errors == old(errors)
          && recordedLines == old(recordedLines) + 1
          && recorded == old(recorded) + [RowOf(lineNumber, root, printer)]
    {
      if line == [] {
        return None;
      }
      var root := parse(line);
      if root.None? {
        if !ignoreBadLines {
          return Some(ParseFailed(lineNumber));
        }
        errors := errors + 1;
        return None;
      }
      if !root.value.Object? {
        if !ignoreBadLines {
          return Some(NotAnObjectAt(lineNumber));
        }
        errors := errors + 1;
        return None;
      }
      var columns := RowColumns(root.value.members, printer);
      recordedLines := recordedLines + 1;
      recorded := recorded + [RecordedRow(RowName(lineNumber), columns)];
      return None;
    }
  }

  /** One more line: its row, if any, follows the earlier rows, and it adds one to the bad lines if it is bad. */
  lemma LineStep(lines: seq<string>, i: nat, parse: string -> Option<Json>, p: Printer)
    requires i < |lines|
    ensures var kind := Classify(lines[i], parse);
      AcceptedRows(lines[..i + 1], parse, p) ==
        AcceptedRows(lines[..i], parse, p) + (if kind.Accepted? then [RowOf(i, kind.root, p)] else [])
    ensures var kind := Classify(lines[i], parse);
      BadCount(lines[..i + 1], parse) ==
        BadCount(lines[..i], parse) + (if kind.Unparsable? || kind.NotAnObject? then 1 else 0)
    ensures var kind := Classify(lines[i], parse);
      NoBadLine(lines[..i], parse) && !kind.Unparsable? && !kind.NotAnObject? ==> NoBadLine(lines[..i + 1], parse)
  {
    var done := lines[..i + 1];
    assert done[..i] == lines[..i];
    assert done[i] == lines[i];
    if NoBadLine(lines[..i], parse) {
      forall k | 0 <= k < i
        ensures done[k] == lines[..i][k]
      {
      }
    }
  }

  /** No line is bad: every line is empty or an object. */
  predicate NoBadLine(lines: seq<string>, parse: string -> Option<Json>)
  {
    forall i :: 0 <= i < |lines| ==> !Classify(lines[i], parse).Unparsable? && !Classify(lines[i], parse).NotAnObject?
  }

  /**
   * The import run over the file's lines in order. With bad lines
   * ignored it always succeeds and rowCount + numLineErrors is the number
   * of non-empty lines; otherwise it stops with the first bad line's
   * error. On success the recorded rows are those of the object lines.
   */
  method Import(lines: seq<string>, ignoreBadLines: bool, parse: string -> Option<Json>, printer: Printer)
    returns (result: Result<RunOutput, LineError>, rows: seq<RecordedRow>)
    ensures ignoreBadLines ==> result.Success?
    ensures result.Success? <==> ignoreBadLines || NoBadLine(lines, parse)
    ensures result.Success? ==>
              && rows == AcceptedRows(lines, parse, printer)
              && result.value.rowCount == |rows|
              && result.value.numLineErrors == BadCount(lines, parse)
              && result.value.rowCount + result.value.numLineErrors == NonEmptyCount(lines)
    ensures result.Failure? ==>
              && var i := result.error.lineNumber;
              && i < |lines| && NoBadLine(lines[..i], parse)
              && (if result.error.ParseFailed? then Classify(lines[i], parse).Unparsable?
                  else Classify(lines[i], parse).NotAnObject?)
  {
    var importer := new Importer(ignoreBadLines, parse, printer);
    for i := 0 to |lines|
      invariant importer.ignoreBadLines == ignoreBadLines && importer.parse == parse && importer.printer == printer
      invariant importer.recorded == AcceptedRows(lines[..i], parse, printer)
      invariant importer.recordedLines == |importer.recorded|
      invariant importer.errors == BadCount(lines[..i], parse)
      invariant !ignoreBadLines ==> NoBadLine(lines[..i], parse)
    {
      LineStep(lines, i, parse, printer);
      var failure := importer.OnLine(lines[i], i);
      if failure.Some? {
        rows := importer.recorded;
        return Failure(failure.value), rows;
      }
    }
    assert lines[..|lines|] == lines;
    EveryNonEmptyLineCounted(lines, parse, printer);
    rows := importer.recorded;
    return Success(RunOutput(importer.recordedLines, importer.errors)), rows;
  }
}
