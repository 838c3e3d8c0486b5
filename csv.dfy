/**
 * The part of Python's csv module the job archive relies on. A file is
 * either missing or a sequence of lines, each line a sequence of cells
 * (quoting, delimiters and encodings are below this level). DictWriter
 * turns a dict into one line, one cell per fieldname; DictReader takes the
 * first line as the header and zips every later non-blank line with it.
 */
module Csv {
  import opened Wrappers

  type Line = seq<string>

  /** A dict with string keys and values, as DictReader yields and DictWriter takes. */
  type Row = map<string, string>

  datatype CsvFile = Missing | Present(lines: seq<Line>)

  /** DictWriter's `extrasaction`: "raise" (the default) or "ignore". */
  datatype ExtrasAction = Raise | Ignore

  /** The ValueError DictWriter raises for a dict holding keys outside its fieldnames. */
  datatype CsvError = ExtraFields(fields: set<string>)

  /** `d.get(key, default)` */
  function Get(d: Row, key: string, default: string): string
  {
    if key in d then d[key] else default
  }

  /** The keys of `d` that are not among the fieldnames. */
  function Extras(fieldnames: seq<string>, d: Row): (extra: set<string>)
    ensures forall k :: k in extra <==> k in d && k !in fieldnames
  {
    set k | k in d && k !in fieldnames
  }

  /** The cells DictWriter writes for `d`: one per fieldname, in order, "" where `d` lacks the key. */
  function DictToLine(fieldnames: seq<string>, d: Row): (line: Line)
    ensures |line| == |fieldnames|
    ensures forall i :: 0 <= i < |fieldnames| ==> line[i] == Get(d, fieldnames[i], "")
  {
    if fieldnames == [] then [] else [Get(d, fieldnames[0], "")] + DictToLine(fieldnames[1..], d)
  }

  /** What `writerows` leaves behind: the lines of the dicts before the first refused one, and the error if one was refused. */
  datatype Written = Written(lines: seq<Line>, error: Option<CsvError>)

  /** DictWriter.writerows: rows are written one by one until a dict is refused. */
  function WriteRows(fieldnames: seq<string>, dicts: seq<Row>, action: ExtrasAction): (w: Written)
    ensures |w.lines| <= |dicts|
    ensures forall i :: 0 <= i < |w.lines| ==> w.lines[i] == DictToLine(fieldnames, dicts[i])
    ensures action == Raise ==> forall i :: 0 <= i < |w.lines| ==> Extras(fieldnames, dicts[i]) == {}
    ensures w.error == None <==> |w.lines| == |dicts|
    ensures w.error.Some? ==>
              && action == Raise
              && Extras(fieldnames, dicts[|w.lines|]) != {}
              && w.error.value == ExtraFields(Extras(fieldnames, dicts[|w.lines|]))
  {
    if dicts == [] then Written([], None)
    else if action == Raise && Extras(fieldnames, dicts[0]) != {} then
      Written([], Some(ExtraFields(Extras(fieldnames, dicts[0]))))
    else
      var rest := WriteRows(fieldnames, dicts[1..], action);
      Written([DictToLine(fieldnames, dicts[0])] + rest.lines, rest.error)
  }

  /** writerows completes exactly when extra keys are ignored or no dict has any. */
  lemma WriteRowsCompletes(fieldnames: seq<string>, dicts: seq<Row>, action: ExtrasAction)
    ensures WriteRows(fieldnames, dicts, action).error == None <==>
              action == Ignore || forall i :: 0 <= i < |dicts| ==> Extras(fieldnames, dicts[i]) == {}
  {
  }

  /** The dict DictReader builds from the header and one line, `dict(zip(header, line))`: a later duplicate name wins. */
  function ZipRow(header: Line, line: Line): (row: Row)
    ensures forall k :: k in row ==> k in header
  {
    if header == [] || line == [] then map[] else map[header[0] := line[0]] + ZipRow(header[1..], line[1..])
  }

  /** The rows DictReader yields for the lines below the header; blank lines are skipped. */
  function DataRows(header: Line, lines: seq<Line>): (rows: seq<Row>)
    ensures |rows| <= |lines|
  {
    if lines == [] then []
    else (if lines[0] == [] then [] else [ZipRow(header, lines[0])]) + DataRows(header, lines[1..])
  }

  /** `list(csv.DictReader(f))`: the first line is the header. */
  function ReadRows(lines: seq<Line>): (rows: seq<Row>)
    ensures |rows| < |lines| || lines == []
  {
    if lines == [] then [] else DataRows(lines[0], lines[1..])
  }

  /** The dict `d` seen through the columns `fieldnames`: what DictReader gets back from what DictWriter wrote. */
  function Columns(fieldnames: seq<string>, d: Row): (row: Row)
    ensures forall k :: k in row <==> k in fieldnames
  {
    map k | k in fieldnames :: Get(d, k, "")
  }

  /** Under a header without repeated names, each zipped cell lands under its own column name. */
  lemma {:induction false} ZipRowCells(header: Line, line: Line)
    requires forall i, j :: 0 <= i < j < |header| ==> header[i] != header[j]
    ensures forall i :: 0 <= i < |header| && i < |line| ==>
              header[i] in ZipRow(header, line) && ZipRow(header, line)[header[i]] == line[i]
  {
    if header != [] && line != [] {
      ZipRowCells(header[1..], line[1..]);
    }
  }

  /** A header line followed by n non-blank lines reads back as exactly n rows. */
  lemma {:induction false} ReadRowsCount(lines: seq<Line>)
    requires lines != [] && forall i :: 1 <= i < |lines| ==> lines[i] != []
    ensures |ReadRows(lines)| == |lines| - 1
  {
    DataRowsCount(lines[0], lines[1..]);
  }

  /** DataRows skips no line that is not blank. */
  lemma {:induction false} DataRowsCount(header: Line, lines: seq<Line>)
    requires forall i :: 0 <= i < |lines| ==> lines[i] != []
    ensures |DataRows(header, lines)| == |lines|
  {
    if lines != [] {
      DataRowsCount(header, lines[1..]);
    }
  }

  /** Reading one written line back under the same header gives `d` restricted to the columns. */
  lemma {:induction false} ZipWrittenLine(fieldnames: seq<string>, d: Row)
    ensures ZipRow(fieldnames, DictToLine(fieldnames, d)) == Columns(fieldnames, d)
  {
    if fieldnames != [] {
      var line := DictToLine(fieldnames, d);
      var tail := fieldnames[1..];
      assert line[1..] == DictToLine(tail, d);
      ZipWrittenLine(tail, d);
      ZipRowCons(fieldnames, line);
      ColumnsCons(fieldnames, d);
    }
  }

  /** One step of `dict(zip(header, line))`. */
  lemma ZipRowCons(header: Line, line: Line)
    requires header != [] && line != []
    ensures ZipRow(header, line) == map[header[0] := line[0]] + ZipRow(header[1..], line[1..])
  {
  }

  /** One step of restricting a dict to some columns. */
  lemma ColumnsCons(fieldnames: seq<string>, d: Row)
    requires fieldnames != []
    ensures Columns(fieldnames, d) == map[fieldnames[0] := Get(d, fieldnames[0], "")] + Columns(fieldnames[1..], d)
  {
    var c := map[fieldnames[0] := Get(d, fieldnames[0], "")] + Columns(fieldnames[1..], d);
    assert forall k :: k in fieldnames <==> k == fieldnames[0] || k in fieldnames[1..];
    assert c.Keys == Columns(fieldnames, d).Keys;
  }

  /** DictReader reads the lines of two consecutive stretches independently. */
  lemma {:induction false} DataRowsAppend(header: Line, a: seq<Line>, b: seq<Line>)
    ensures DataRows(header, a + b) == DataRows(header, a) + DataRows(header, b)
  {
    if a == [] {
      assert a + b == b;
    } else {
      assert (a + b)[1..] == a[1..] + b;
      DataRowsAppend(header, a[1..], b);
    }
  }

  /** Round trip: what DictWriter (ignoring extra keys) writes under a non-empty header, DictReader reads back as the column-restricted dicts. */
  lemma {:induction false} ReadBackWritten(fieldnames: seq<string>, dicts: seq<Row>)
    requires fieldnames != []
    ensures var rows := DataRows(fieldnames, WriteRows(fieldnames, dicts, Ignore).lines);
            |rows| == |dicts| && forall i :: 0 <= i < |dicts| ==> rows[i] == Columns(fieldnames, dicts[i])
  {
    if dicts != [] {
      var lines := WriteRows(fieldnames, dicts, Ignore).lines;
      var rest := WriteRows(fieldnames, dicts[1..], Ignore).lines;
      assert lines == [DictToLine(fieldnames, dicts[0])] + rest;
      assert lines[1..] == rest;
      ReadBackWritten(fieldnames, dicts[1..]);
      ZipWrittenLine(fieldnames, dicts[0]);
    }
  }
}
