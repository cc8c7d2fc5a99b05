/** `convert_txt_to_csv`: every line of an uploaded text file of the form
    `VEHICLE - PHONE` (or `VEHICLE - PHONE - ANYTHING`) becomes the CSV
    record `PHONE,VEHICLE` under the header `Number,Vehicle Number`; the
    number of records is then counted back from the written file. */
module Converter {
  import opened Wrappers
  import opened Text
  import opened TextFile
  import Csv
  import Generator

  /** What separates the vehicle number from the phone number on a line. */
  const Separator: string := " - "

  const Header: seq<string> := ["Number", "Vehicle Number"]

  /** One CSV record: the phone number first, the vehicle number second. */
  datatype Row = Row(number: string, vehicle: string)

  datatype ConvertError =
    | EmptyFile     // the file has no lines at all
    | NoValidData   // no line has the expected shape

  /** A field the converter writes: non-empty, stripped, free of the separator. */
  predicate IsField(f: string) {
    f != [] && Stripped(f) && !Contains(f, Separator)
  }

  // ---------------------------------------------------------------------------
  // One line
  // ---------------------------------------------------------------------------

  /** The record of one line: the line is stripped and split at most twice
      on the separator; the first two pieces, stripped, are the vehicle and
      the phone number, and the line counts only when both are non-empty. */
  function ParseLine(line: string): Option<Row> {
    var s := Strip(line);
    if s == [] || !Contains(s, Separator) then None
    else
      var parts := Split(s, Separator, 2);
      if |parts| < 2 then None
      else
        var vehicle := Strip(parts[0]);
        var number := Strip(parts[1]);
        if vehicle != [] && number != [] then Some(Row(number, vehicle)) else None
  }

  /** Both fields of a parsed line are proper fields, and the stripped line
      holds the separator. */
  lemma ParsedFields(line: string)
    ensures ParseLine(line).Some? ==> IsField(ParseLine(line).value.number) && IsField(ParseLine(line).value.vehicle)
    ensures ParseLine(line).Some? ==> Contains(Strip(line), Separator)
  {
    var s := Strip(line);
    if s != [] && Contains(s, Separator) {
      var parts := Split(s, Separator, 2);
      if |parts| >= 2 {
        StripIsStripped(parts[0]);
        StripIsStripped(parts[1]);
        StripKeepsAbsent(parts[0], Separator);
        StripKeepsAbsent(parts[1], Separator);
      }
    }
  }

  /** A parsed line is, once stripped, the vehicle's piece, the separator
      and the number's piece, then maybe a separator and anything; the two
      pieces hold no separator and strip to the two fields. */
  lemma ParsedLineParts(line: string) returns (a: string, b: string, other: Option<string>)
    requires ParseLine(line).Some?
    ensures Strip(line) == a + Separator + b + (if other.Some? then Separator + other.value else [])
    ensures Strip(a) == ParseLine(line).value.vehicle && Strip(b) == ParseLine(line).value.number
    ensures !Contains(a, Separator) && !Contains(b, Separator)
  {
    var s := Strip(line);
    var parts := Split(s, Separator, 2);
    a, b := parts[0], parts[1];
    if |parts| == 2 {
      other := None;
      assert parts == [a, b];
      JoinTwo(a, b, Separator);
    } else {
      other := Some(parts[2]);
      assert parts == [a, b, parts[2]];
      JoinThree(a, b, parts[2], Separator);
    }
  }

  /** A vehicle number that the separator cannot overlap from the right. */
  predicate IsVehicle(v: string) {
    IsField(v) && !Contains(v + " -", Separator)
  }

  /** A stripped line whose split has two stripped, non-empty first pieces
      parses to those pieces. */
  lemma ParseOfSplit(line: string, parts: seq<string>)
    requires |parts| >= 2 && Split(line, Separator, 2) == parts
    requires Stripped(line) && OccursAt(line, Separator, |parts[0]|)
    requires IsField(parts[0]) && IsField(parts[1])
    ensures ParseLine(line) == Some(Row(parts[1], parts[0]))
  {
    StripStripped(line);
    StripStripped(parts[0]);
    StripStripped(parts[1]);
  }

  /** `VEHICLE - PHONE` parses to `Row(PHONE, VEHICLE)`. */
  lemma ParseTwoParts(vehicle: string, number: string)
    requires IsVehicle(vehicle) && IsField(number)
    ensures ParseLine(vehicle + Separator + number) == Some(Row(number, vehicle))
  {
    var line := vehicle + Separator + number;
    assert Stripped(line) by {
      assert line[0] == vehicle[0];
      assert line[|line| - 1] == number[|number| - 1];
    }
    assert OccursAt(line, Separator, |vehicle|) by {
      assert line[|vehicle|..|vehicle| + 3] == Separator;
    }
    assert Separator[..|Separator| - 1] == " -";
    JoinTwo(vehicle, number, Separator);
    SplitJoin([vehicle, number], Separator, 2);
    ParseOfSplit(line, [vehicle, number]);
  }

  /** `VEHICLE - PHONE - OTHER` parses to `Row(PHONE, VEHICLE)`, whatever
      `OTHER` holds, separators and trailing blanks included, as long as it
      is not blank: the third piece is dropped. */
  lemma ParseThreeParts(vehicle: string, number: string, other: string)
    requires IsVehicle(vehicle) && IsVehicle(number)
    requires NotBlank(other)
    ensures ParseLine(vehicle + Separator + number + Separator + other) == Some(Row(number, vehicle))
  {
    var head := vehicle + Separator + number + Separator;
    var trimmed := TrimRight(other);
    TrimRightNotBlank(other);
    ParseTrimmedThree(vehicle, number, trimmed);
    var line := head + other;
    assert Strip(line) == head + trimmed by {
      assert line[0] == vehicle[0];
      assert TrimLeft(line) == line;
      TrimRightAppend(head, other);
    }
    var stripped := head + trimmed;
    assert stripped == vehicle + Separator + number + Separator + trimmed;
    StripIdempotent(line);
  }

  /** `strip()` changes nothing the second time. */
  lemma StripIdempotent(s: string)
    ensures Strip(Strip(s)) == Strip(s)
  {
    StripIsStripped(s);
    StripStripped(Strip(s));
  }

  /** The three-piece case on a line with nothing to strip. */
  lemma ParseTrimmedThree(vehicle: string, number: string, other: string)
    requires IsVehicle(vehicle) && IsVehicle(number)
    requires other != [] && !IsSpace(other[|other| - 1])
    ensures ParseLine(vehicle + Separator + number + Separator + other) == Some(Row(number, vehicle))
  {
    var line := vehicle + Separator + number + Separator + other;
    assert Stripped(line) by {
      assert line[0] == vehicle[0];
      assert line[|line| - 1] == other[|other| - 1];
    }
    assert OccursAt(line, Separator, |vehicle|) by {
      assert line[|vehicle|..|vehicle| + 3] == Separator;
    }
    var parts := [vehicle, number, other];
    assert Separator[..|Separator| - 1] == " -";
    assert parts[0] == vehicle && parts[1] == number;
    JoinThree(vehicle, number, other, Separator);
    SplitJoin(parts, Separator, 2);
    ParseOfSplit(line, parts);
  }

  // ---------------------------------------------------------------------------
  // The whole file
  // ---------------------------------------------------------------------------

  /** The records of the lines that parse, in the order of the lines. */
  function Rows(lines: seq<string>): (rows: seq<Row>)
    decreases |lines|
    ensures |rows| <= |lines|
  {
    if lines == [] then []
    else
      (match ParseLine(lines[0]) case Some(row) => [row] case None => []) + Rows(lines[1..])
  }

  /** Lines are converted independently, in order. */
  lemma {:induction false} RowsAppend(a: seq<string>, b: seq<string>)
    ensures Rows(a + b) == Rows(a) + Rows(b)
    decreases |a|
  {
    if a == [] {
      assert a + b == b;
    } else {
      assert (a + b)[0] == a[0];
      assert (a + b)[1..] == a[1..] + b;
      RowsAppend(a[1..], b);
    }
  }

  /** When every line parses, there is one record per line, in order. */
  lemma {:induction false} RowsEvery(lines: seq<string>)
    requires forall i :: 0 <= i < |lines| ==> ParseLine(lines[i]).Some?
    ensures |Rows(lines)| == |lines|
    ensures forall i :: 0 <= i < |lines| ==> Rows(lines)[i] == ParseLine(lines[i]).value
    decreases |lines|
  {
    if lines != [] {
      assert forall i :: 0 <= i < |lines| - 1 ==> lines[1..][i] == lines[i + 1];
      RowsEvery(lines[1..]);
    }
  }

  /** Lines that do not parse contribute nothing. */
  lemma {:induction false} RowsNone(lines: seq<string>)
    requires forall i :: 0 <= i < |lines| ==> ParseLine(lines[i]).None?
    ensures Rows(lines) == []
    decreases |lines|
  {
    if lines != [] {
      assert forall i :: 0 <= i < |lines| - 1 ==> lines[1..][i] == lines[i + 1];
      RowsNone(lines[1..]);
    }
  }

  /** The verdict on the lines of a file: an empty file first, then a file
      where no line parses, else the records. */
  function Convert(lines: seq<string>): (r: Result<seq<Row>, ConvertError>)
    ensures r == Failure(EmptyFile) <==> lines == []
    ensures r == Failure(NoValidData) <==> lines != [] && Rows(lines) == []
    ensures r.Success? ==> r.value == Rows(lines) && 0 < |r.value| <= |lines|
  {
    if lines == [] then Failure(EmptyFile)
    else
      var rows := Rows(lines);
      if rows == [] then Failure(NoValidData) else Success(rows)
  }

  /** The records written: the header, then one record per row. */
  function Records(rows: seq<Row>): (rs: seq<seq<string>>)
    ensures |rs| == |rows| + 1 && rs[0] == Header
    ensures forall i :: 0 <= i < |rows| ==> rs[i + 1] == [rows[i].number, rows[i].vehicle]
  {
    [Header] + seq(|rows|, i requires 0 <= i < |rows| => [rows[i].number, rows[i].vehicle])
  }

  /** The verdict together with what is left in the CSV file. */
  datatype Conversion = Conversion(result: Result<seq<Row>, ConvertError>, csv: Option<string>)

  /** Converting the raw text of an upload.  The CSV file is opened only
      after the emptiness test, and it is written before the verdict on the
      rows is known: a file with no valid line leaves a CSV holding only the
      header behind. */
  function ConvertFile(content: string): (c: Conversion)
    ensures c.csv.None? <==> c.result == Failure(EmptyFile)
    ensures c.result == Failure(EmptyFile) <==> content == []
    ensures c.result == Failure(NoValidData) ==> c.csv == Some(Csv.Write([Header]))
    ensures c.result.Success? ==> c.csv == Some(Csv.Write(Records(c.result.value)))
  {
    var lines := ReadLines(Translate(content));
    ReadLinesFlatten(Translate(content));
    assert Translate(content) == [] <==> content == [] by {
      if content != [] {
        assert |Translate(content)| > 0;
      }
    }
    var result := Convert(lines);
    if lines == [] then Conversion(result, None)
    else
      assert result == Failure(NoValidData) ==> Records(Rows(lines)) == [Header];
      Conversion(result, Some(Csv.Write(Records(Rows(lines)))))
  }

  // ---------------------------------------------------------------------------
  // Counting the records back
  // ---------------------------------------------------------------------------

  /** `sum(1 for line in f) - 1` on the written CSV file, read in text mode. */
  function RecordCount(csv: string): int {
    |ReadLines(Translate(csv))| - 1
  }

  /** A field parsed from a line of a text file holds no line break. */
  lemma ParsedFieldsSingleLine(line: string, t: string)
    requires IsLine(line, t) && Lacks(t, '\r') && ParseLine(line).Some?
    ensures Lacks(ParseLine(line).value.number, '\r') && Lacks(ParseLine(line).value.number, '\n')
    ensures Lacks(ParseLine(line).value.vehicle, '\r') && Lacks(ParseLine(line).value.vehicle, '\n')
  {
    var s := Strip(line);
    StripLacks(line, '\r');
    if Lacks(line, '\n') {
      StripLacks(line, '\n');
    } else {
      assert line[|line| - 1] == '\n';
      StripLacks(line, '\n');
    }
    var parts := Split(s, Separator, 2);
    SplitLacks(s, Separator, 2, '\r');
    SplitLacks(s, Separator, 2, '\n');
    StripLacks(parts[0], '\r');
    StripLacks(parts[0], '\n');
    StripLacks(parts[1], '\r');
    StripLacks(parts[1], '\n');
  }

  /** The records of the lines of a text file are single-line records. */
  lemma {:induction false} RowsSingleLine(lines: seq<string>, t: string)
    requires Lacks(t, '\r')
    requires forall j :: 0 <= j < |lines| ==> IsLine(lines[j], t)
    ensures forall i :: 0 <= i < |Rows(lines)| ==>
      Lacks(Rows(lines)[i].number, '\r') && Lacks(Rows(lines)[i].number, '\n') &&
      Lacks(Rows(lines)[i].vehicle, '\r') && Lacks(Rows(lines)[i].vehicle, '\n')
    decreases |lines|
  {
    if lines != [] {
      assert forall j :: 0 <= j < |lines| - 1 ==> lines[1..][j] == lines[j + 1];
      RowsSingleLine(lines[1..], t);
      if ParseLine(lines[0]).Some? {
        ParsedFieldsSingleLine(lines[0], t);
      }
    }
  }

  lemma RecordsSingleLine(rows: seq<Row>)
    requires forall i :: 0 <= i < |rows| ==>
      Lacks(rows[i].number, '\r') && Lacks(rows[i].number, '\n') &&
      Lacks(rows[i].vehicle, '\r') && Lacks(rows[i].vehicle, '\n')
    ensures Csv.SingleLine(Records(rows))
  {
    var rs := Records(rows);
    forall i, j | 0 <= i < |rs| && 0 <= j < |rs[i]|
      ensures Lacks(rs[i][j], '\r') && Lacks(rs[i][j], '\n')
    {
      if i > 0 {
        assert rs[i] == [rows[i - 1].number, rows[i - 1].vehicle];
      }
    }
  }

  /** The record count reported after a conversion is the number of rows. */
  lemma CountMatchesRows(content: string)
    requires ConvertFile(content).result.Success?
    ensures RecordCount(ConvertFile(content).csv.value) == |ConvertFile(content).result.value|
  {
    var t := Translate(content);
    var lines := ReadLines(t);
    TranslateLacksCR(content);
    ReadLinesShape(t);
    RowsSingleLine(lines, t);
    RecordsSingleLine(Rows(lines));
    Csv.LineCount(Records(Rows(lines)));
  }

  // ---------------------------------------------------------------------------
  // From pairs to a text file to CSV records
  // ---------------------------------------------------------------------------

  /** The lines `VEHICLE - PHONE` of a list of rows. */
  function PairLines(rows: seq<Row>): (lines: seq<string>)
    ensures |lines| == |rows|
    ensures forall i :: 0 <= i < |rows| ==> lines[i] == rows[i].vehicle + Separator + rows[i].number
  {
    seq(|rows|, i requires 0 <= i < |rows| => rows[i].vehicle + Separator + rows[i].number)
  }

  /** Rows that a text file can carry and the converter can read back. */
  predicate Carriable(rows: seq<Row>) {
    forall i :: 0 <= i < |rows| ==>
      && IsVehicle(rows[i].vehicle) && IsField(rows[i].number)
      && Lacks(rows[i].vehicle, '\r') && Lacks(rows[i].vehicle, '\n')
      && Lacks(rows[i].number, '\r') && Lacks(rows[i].number, '\n')
  }

  lemma PairLineLacks(row: Row, c: char)
    requires Lacks(row.vehicle, c) && Lacks(row.number, c) && c != ' ' && c != '-'
    ensures Lacks(row.vehicle + Separator + row.number, c)
  {
  }

  /** Writing `VEHICLE - PHONE` lines to a text file and converting it gives
      the rows back, one CSV record per line. */
  lemma ConvertPairs(rows: seq<Row>)
    requires rows != [] && Carriable(rows)
    ensures ConvertFile(WriteLines(PairLines(rows))).result == Success(rows)
  {
    var lines := PairLines(rows);
    var text := WriteLines(lines);
    forall i | 0 <= i < |lines| ensures Lacks(lines[i], '\r') && Lacks(lines[i], '\n') {
      PairLineLacks(rows[i], '\r');
      PairLineLacks(rows[i], '\n');
    }
    WrittenLacksCR(lines);
    TranslateKeeps(text, "");
    assert text + "" == text;
    ReadWritten(lines);
    var read := ReadLines(text);
    forall i | 0 <= i < |read| ensures ParseLine(read[i]) == Some(rows[i]) {
      var row := rows[i];
      ParseTwoParts(row.vehicle, row.number);
      var l := lines[i];
      assert Stripped(l) by {
        assert l[0] == row.vehicle[0];
        assert l[|l| - 1] == row.number[|row.number| - 1];
      }
      StripTrailing(l, '\n');
      assert read[i] == l + ['\n'];
    }
    RowsEvery(read);
    assert Rows(read) == rows;
  }

  /** Lines without carriage returns are written without them. */
  lemma {:induction false} WrittenLacksCR(lines: seq<string>)
    requires forall i :: 0 <= i < |lines| ==> Lacks(lines[i], '\r')
    ensures Lacks(WriteLines(lines), '\r')
    decreases |lines|
  {
    if lines != [] {
      assert forall i :: 0 <= i < |lines| - 1 ==> lines[1..][i] == lines[i + 1];
      WrittenLacksCR(lines[1..]);
    }
  }

  /** A generated vehicle number is a vehicle field. */
  lemma IdentifierIsVehicle(id: string)
    requires Generator.IsIdentifier(id)
    ensures IsVehicle(id) && Lacks(id, '\r') && Lacks(id, '\n')
  {
    assert forall i :: 0 <= i < |id| ==> !IsSpace(id[i]) && id[i] != '\r' && id[i] != '\n';
    var w := id + " -";
    assert forall j :: 0 <= j < |id| ==> w[j] == id[j];
  }

  /** Generated vehicle numbers paired with phone numbers survive the trip
      through a text file and the converter, in order. */
  lemma GeneratedPairsConvert(ids: seq<string>, phones: seq<string>)
    requires |ids| == |phones| > 0
    requires forall i :: 0 <= i < |ids| ==> Generator.IsIdentifier(ids[i])
    requires forall i :: 0 <= i < |phones| ==>
      IsField(phones[i]) && Lacks(phones[i], '\r') && Lacks(phones[i], '\n')
    ensures ConvertFile(WriteLines(PairLines(Pair(ids, phones)))).result == Success(Pair(ids, phones))
  {
    var rows := Pair(ids, phones);
    forall i | 0 <= i < |rows| ensures IsVehicle(rows[i].vehicle) && Lacks(rows[i].vehicle, '\r') && Lacks(rows[i].vehicle, '\n') {
      IdentifierIsVehicle(ids[i]);
    }
    ConvertPairs(rows);
  }

  /** Each vehicle number with its phone number. */
  function Pair(ids: seq<string>, phones: seq<string>): (rows: seq<Row>)
    requires |ids| == |phones|
    ensures |rows| == |ids|
    ensures forall i :: 0 <= i < |ids| ==> rows[i] == Row(phones[i], ids[i])
  {
    seq(|ids|, i requires 0 <= i < |ids| => Row(phones[i], ids[i]))
  }
}
