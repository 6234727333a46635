/**
 The containment test of the read preprocessing stage (scara.py:137-164):
 reads are aligned to contigs, and a sequence whose alignment lies inside the
 other sequence over at least half its own length is marked as contained.
 */
module Containment {
  import opened Wrappers
  import opened Strings
  import opened Decimal

  /** The twelve mandatory columns of one PAF line. */
  datatype PafRow = PafRow(
    qname: string, qlen: int, qstart: int, qend: int, strand: string,
    tname: string, tlen: int, tstart: int, tend: int,
    matches: int, blockLen: int, mapq: int)

  /** A line that does not have twelve columns or whose numeric column is not an integer stops the run. */
  datatype ParseError = MalformedOverlap(line: string)

  /**
   The query lies inside the target: it starts later on the target than on
   itself, leaves a longer tail on the target, and aligns over at least half
   its length (`qend-qstart >= 0.5*qlen`, kept exact by doubling).
   */
  predicate QueryContained(r: PafRow) {
    r.tstart > r.qstart && r.tlen - r.tend > r.qlen - r.qend && 2 * (r.qend - r.qstart) >= r.qlen
  }

  /** The same test with query and target exchanged. */
  predicate TargetContained(r: PafRow) {
    r.qstart > r.tstart && r.qlen - r.qend > r.tlen - r.tend && 2 * (r.tend - r.tstart) >= r.tlen
  }

  /** Some row marks `name`: as its query under the query test, or as its target under the target test. */
  ghost predicate Marked(rows: seq<PafRow>, name: string) {
    exists i :: 0 <= i < |rows| &&
      ((rows[i].qname == name && QueryContained(rows[i])) || (rows[i].tname == name && TargetContained(rows[i])))
  }

  /** The names one row marks. */
  function Marks(r: PafRow): set<string> {
    (if QueryContained(r) then {r.qname} else {}) + (if TargetContained(r) then {r.tname} else {})
  }

  /** The `contained_reads` dictionary after the loop over `rows`, starting from `acc`. */
  function ContainedFrom(acc: set<string>, rows: seq<PafRow>): (c: set<string>)
    ensures forall name :: name in c <==> name in acc || Marked(rows, name)
    decreases |rows|
  {
    if rows == [] then acc
    else
      var c := ContainedFrom(acc + Marks(rows[0]), rows[1..]);
      assert forall name :: Marked(rows[1..], name) ==> Marked(rows, name) by {
        forall name | Marked(rows[1..], name) ensures Marked(rows, name) {
          var i :| 0 <= i < |rows| - 1 && ((rows[1..][i].qname == name && QueryContained(rows[1..][i])) ||
            (rows[1..][i].tname == name && TargetContained(rows[1..][i])));
          assert rows[i + 1] == rows[1..][i];
        }
      }
      assert forall name :: Marked(rows, name) ==> name in Marks(rows[0]) || Marked(rows[1..], name) by {
        forall name | Marked(rows, name) ensures name in Marks(rows[0]) || Marked(rows[1..], name) {
          var i :| 0 <= i < |rows| && ((rows[i].qname == name && QueryContained(rows[i])) ||
            (rows[i].tname == name && TargetContained(rows[i])));
          if i > 0 { assert rows[1..][i - 1] == rows[i]; }
        }
      }
      c
  }

  /** Names of all contained sequences. */
  function ContainedSet(rows: seq<PafRow>): set<string> {
    ContainedFrom({}, rows)
  }

  /** A name is contained exactly when some row marks it. */
  lemma ContainedSetSpec(rows: seq<PafRow>, name: string)
    ensures name in ContainedSet(rows) <==> Marked(rows, name)
  {
  }

  /** Comment lines of the GTF-style header are skipped. */
  predicate IsHeaderLine(line: string) {
    StartsWith(line, "#") || StartsWith(line, "track") || StartsWith(line, "browser")
  }

  /** The lines Python's file iteration yields: each keeps its line break; a last unterminated piece is a line too. */
  function Lines(text: string): seq<string> {
    var parts := Split(text, '\n');
    seq(|parts| - 1, i requires 0 <= i < |parts| - 1 => parts[i] + "\n") +
      (if parts[|parts| - 1] == "" then [] else [parts[|parts| - 1]])
  }

  /** One data line split on tabs; every numeric column must satisfy `int()`. */
  function ParseRow(line: string): Result<PafRow, ParseError> {
    ParseFields(ParseInt, line, Split(line, '\t'))
  }

  /** The row of `line` from its columns `f`: `conv` (the source's `int()`) of columns 1-3 and 6-11,
      the rest kept as text. */
  function ParseFields(conv: string -> Option<int>, line: string, f: seq<string>): Result<PafRow, ParseError> {
    if |f| < 12 then Failure(MalformedOverlap(line))
    else
      match (conv(f[1]), conv(f[2]), conv(f[3]), conv(f[6]), conv(f[7]),
             conv(f[8]), conv(f[9]), conv(f[10]), conv(f[11]))
      case (Some(qlen), Some(qstart), Some(qend), Some(tlen), Some(tstart),
            Some(tend), Some(matches), Some(blockLen), Some(mapq)) =>
        Success(PafRow(f[0], qlen, qstart, qend, f[4], f[5], tlen, tstart, tend, matches, blockLen, mapq))
      case _ => Failure(MalformedOverlap(line))
  }

  /** At least twelve columns, and `int()` accepts every numeric one. */
  predicate NumericColumns(f: seq<string>) {
    |f| >= 12 &&
    ParseInt(f[1]).Some? && ParseInt(f[2]).Some? && ParseInt(f[3]).Some? &&
    ParseInt(f[6]).Some? && ParseInt(f[7]).Some? && ParseInt(f[8]).Some? &&
    ParseInt(f[9]).Some? && ParseInt(f[10]).Some? && ParseInt(f[11]).Some?
  }

  /** A data line is accepted exactly when it has twelve columns and `int()` accepts each numeric one. */
  lemma ParseRowAccepts(line: string)
    ensures ParseRow(line).Success? <==> NumericColumns(Split(line, '\t'))
  {
  }

  /** The rows of every non-header line, in order; the first malformed line stops the parse. */
  function ParseLines(lines: seq<string>): Result<seq<PafRow>, ParseError> {
    ParseEach(ParseRow, lines)
  }

  /** The loop over the lines of the file, for any way of parsing one data line. */
  function ParseEach(parse: string -> Result<PafRow, ParseError>, lines: seq<string>): Result<seq<PafRow>, ParseError> {
    if lines == [] then Success([])
    else if IsHeaderLine(lines[0]) then ParseEach(parse, lines[1..])
    else
      match parse(lines[0])
      case Failure(e) => Failure(e)
      case Success(row) =>
        match ParseEach(parse, lines[1..])
        case Failure(e) => Failure(e)
        case Success(rows) => Success([row] + rows)
  }

  /** A line the loop gets past: a header, or a well-formed data line. */
  predicate LineAccepted(line: string) {
    IsHeaderLine(line) || ParseRow(line).Success?
  }

  /** The lines that are not headers, in order. */
  function DataLines(lines: seq<string>): seq<string> {
    if lines == [] then []
    else (if IsHeaderLine(lines[0]) then [] else [lines[0]]) + DataLines(lines[1..])
  }

  lemma {:induction false} ParseEachAccepts(parse: string -> Result<PafRow, ParseError>, lines: seq<string>)
    ensures ParseEach(parse, lines).Success? <==>
      forall i :: 0 <= i < |lines| ==> IsHeaderLine(lines[i]) || parse(lines[i]).Success?
  {
    if lines != [] {
      ParseEachAccepts(parse, lines[1..]);
      assert forall i :: 1 <= i < |lines| ==> lines[i] == lines[1..][i - 1];
    }
  }

  lemma {:induction false} ParseEachRows(parse: string -> Result<PafRow, ParseError>, lines: seq<string>)
    requires ParseEach(parse, lines).Success?
    ensures |ParseEach(parse, lines).value| == |DataLines(lines)|
    ensures forall i :: 0 <= i < |DataLines(lines)| ==> parse(DataLines(lines)[i]) == Success(ParseEach(parse, lines).value[i])
  {
    if lines != [] {
      ParseEachRows(parse, lines[1..]);
      var rows := ParseEach(parse, lines[1..]).value;
      var data := DataLines(lines[1..]);
      if !IsHeaderLine(lines[0]) {
        var all := ParseEach(parse, lines).value;
        assert all == [parse(lines[0]).value] + rows;
        assert DataLines(lines) == [lines[0]] + data;
        forall i | 1 <= i < |DataLines(lines)| ensures parse(DataLines(lines)[i]) == Success(all[i]) {
          assert DataLines(lines)[i] == data[i - 1] && all[i] == rows[i - 1];
        }
      }
    }
  }

  /** Parsing the lines succeeds exactly when every line is accepted. */
  lemma ParseLinesAccepts(lines: seq<string>)
    ensures ParseLines(lines).Success? <==> forall i :: 0 <= i < |lines| ==> LineAccepted(lines[i])
  {
    ParseEachAccepts(ParseRow, lines);
  }

  /** On success, the rows are the parses of the data lines, one for one and in order. */
  lemma ParseLinesRows(lines: seq<string>)
    requires ParseLines(lines).Success?
    ensures |ParseLines(lines).value| == |DataLines(lines)|
    ensures forall i :: 0 <= i < |DataLines(lines)| ==> ParseRow(DataLines(lines)[i]) == Success(ParseLines(lines).value[i])
  {
    ParseEachRows(ParseRow, lines);
  }

  /** The set of contained names for the text of an overlap file. */
  function ContainedInText(text: string): Result<set<string>, ParseError> {
    match ParseLines(Lines(text))
    case Failure(e) => Failure(e)
    case Success(rows) => Success(ContainedSet(rows))
  }

  /** The line minimap2 writes for a row. */
  function FormatRow(r: PafRow): string {
    JoinWith(Columns(IntToString, r), '\t')
  }

  predicate PlainField(s: string) { '\t' !in s && '\n' !in s }

  /** The twelve columns of a row, integers written with `show`; the last carries the line break. */
  function Columns(show: int -> string, r: PafRow): seq<string> {
    [r.qname, show(r.qlen), show(r.qstart), show(r.qend), r.strand,
     r.tname, show(r.tlen), show(r.tstart), show(r.tend),
     show(r.matches), show(r.blockLen), show(r.mapq) + "\n"]
  }

  /** Parsing a formatted row, line break included, gives the row back. */
  lemma ParseFormatRow(r: PafRow)
    requires PlainField(r.qname) && PlainField(r.strand) && PlainField(r.tname)
    ensures ParseRow(FormatRow(r)) == Success(r)
  {
    IntTextsHaveNoTab();
    ColumnsSplit(IntToString, r);
    IntTextsParse();
    ColumnsRoundTrip(ParseInt, IntToString, FormatRow(r), r);
  }

  lemma IntTextsHaveNoTab()
    ensures forall n :: '\t' !in IntToString(n)
  {
    forall n: int ensures '\t' !in IntToString(n) {
      IntTextHasNoTab(n);
    }
  }

  /** `int()` reads back what `str()` writes, with or without a line break after it. */
  lemma IntTextsParse()
    ensures forall n :: ParseInt(IntToString(n)) == Some(n)
    ensures forall n :: ParseInt(IntToString(n) + "\n") == Some(n)
  {
    forall n: int ensures ParseInt(IntToString(n)) == Some(n) {
      assert IntToString(n) + "" == IntToString(n);
      ParseIntRoundTrip(n, "");
    }
    forall n: int ensures ParseInt(IntToString(n) + "\n") == Some(n) {
      ParseIntRoundTrip(n, "\n");
    }
  }

  /** Columns whose integers `conv` reads back, line break and all, parse back to the row. */
  lemma ColumnsRoundTrip(conv: string -> Option<int>, show: int -> string, line: string, r: PafRow)
    requires forall n :: conv(show(n)) == Some(n)
    requires forall n :: conv(show(n) + "\n") == Some(n)
    ensures ParseFields(conv, line, Columns(show, r)) == Success(r)
  {
    var f := Columns(show, r);
    assert conv(f[11]) == Some(r.mapq);
  }

  /** Joining the columns on tabs and splitting again gives them back when no column holds a tab. */
  lemma ColumnsSplit(show: int -> string, r: PafRow)
    requires PlainField(r.qname) && PlainField(r.strand) && PlainField(r.tname)
    requires forall n :: '\t' !in show(n)
    ensures Split(JoinWith(Columns(show, r), '\t'), '\t') == Columns(show, r)
  {
    var f := Columns(show, r);
    assert '\t' !in f[11] by {
      assert f[11] == show(r.mapq) + "\n";
    }
    assert forall k :: 0 <= k < |f| ==> '\t' !in f[k];
    SplitJoin(f, '\t');
  }

  lemma IntTextHasNoTab(n: int)
    ensures '\t' !in IntToString(n)
  {
    var s := IntToString(n);
    var d := if n < 0 then NatToString(-n) else NatToString(n);
    assert forall i :: 0 <= i < |d| ==> IsDigit(d[i]);
    if n < 0 {
      assert s == "-" + d;
      assert forall i :: 1 <= i < |s| ==> s[i] == d[i - 1];
    }
  }

  /**
   The worked example: a read aligned over 80% of its length, starting after
   the target's start and leaving the longer tail on the target, is
   contained; the same read aligned over 40% is not.
   */
  lemma ContainmentExample()
    ensures ContainedSet([PafRow("read1", 1000, 100, 900, "+", "ctg1", 50000, 20000, 20800, 800, 800, 60)]) == {"read1"}
    ensures ContainedSet([PafRow("read1", 1000, 100, 500, "+", "ctg1", 50000, 20000, 20400, 400, 400, 60)]) == {}
  {
    var a := PafRow("read1", 1000, 100, 900, "+", "ctg1", 50000, 20000, 20800, 800, 800, 60);
    var b := PafRow("read1", 1000, 100, 500, "+", "ctg1", 50000, 20000, 20400, 400, 400, 60);
    assert Marks(a) == {"read1"};
    assert Marks(b) == {};
  }
}
