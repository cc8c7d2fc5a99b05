/** The CSV dialect of Python's `csv.writer` with its defaults, which the
    converter uses: fields separated by ',', a field enclosed in '"' only
    when it holds ',', '"', "\r" or "\n" (QUOTE_MINIMAL), a '"' inside an
    enclosed field written twice, and every record ended by "\r\n" -- rules
    4 to 7 of section 2 of RFC 4180.  A reader for one record is given as
    well, so that the writer can be stated against it. */
module Csv {
  import opened Wrappers
  import opened Text
  import opened TextFile

  /** Whether the writer encloses a field in quotes. */
  predicate NeedsQuotes(f: string) {
    !Lacks(f, ',') || !Lacks(f, '"') || !Lacks(f, '\r') || !Lacks(f, '\n')
  }

  /** Every '"' written twice. */
  function Escape(f: string): (e: string)
    decreases |f|
    ensures |e| >= |f|
  {
    if f == [] then "" else (if f[0] == '"' then "\"\"" else [f[0]]) + Escape(f[1..])
  }

  function EncodeField(f: string): string {
    if NeedsQuotes(f) then "\"" + Escape(f) + "\"" else f
  }

  /** The encoded fields joined by ','. */
  function EncodeFields(fs: seq<string>): string
    decreases |fs|
  {
    if fs == [] then ""
    else if |fs| == 1 then EncodeField(fs[0])
    else EncodeField(fs[0]) + "," + EncodeFields(fs[1..])
  }

  /** A record without its terminator; a record of one empty field is
      written as `""` so that it is not read back as a blank line. */
  function RecordText(fs: seq<string>): string {
    if fs == [""] then "\"\"" else EncodeFields(fs)
  }

  /** `writer.writerow(fs)`. */
  function EncodeRecord(fs: seq<string>): string {
    RecordText(fs) + "\r\n"
  }

  /** Everything a writer produces for `records`, in order. */
  function Write(records: seq<seq<string>>): string
    decreases |records|
  {
    if records == [] then "" else EncodeRecord(records[0]) + Write(records[1..])
  }

  // ---------------------------------------------------------------------------
  // Reading one record back
  // ---------------------------------------------------------------------------

  /** The rest of an enclosed field after its opening quote: the field's
      characters up to the closing quote (with `""` read as one '"') and the
      text after the closing quote; None when the closing quote is missing. */
  function ReadQuoted(s: string): (r: Option<(string, string)>)
    decreases |s|
    ensures r.Some? ==> |r.value.1| < |s|
  {
    if s == [] then None
    else if s[0] == '"' then
      if |s| > 1 && s[1] == '"' then
        match ReadQuoted(s[2..])
        case None => None
        case Some((f, rest)) => Some(("\"" + f, rest))
      else Some(("", s[1..]))
    else
      match ReadQuoted(s[1..])
      case None => None
      case Some((f, rest)) => Some(([s[0]] + f, rest))
  }

  /** The fields of a record's text; None when an enclosed field is not
      closed or is followed by something other than ',' or the end. */
  function DecodeFields(s: string): Option<seq<string>>
    decreases |s|
  {
    if |s| > 0 && s[0] == '"' then
      match ReadQuoted(s[1..])
      case None => None
      case Some((f, rest)) =>
        if rest == [] then Some([f])
        else if rest[0] != ',' then None
        else match DecodeFields(rest[1..])
          case None => None
          case Some(fs) => Some([f] + fs)
    else
      var k := IndexOf(s, ',', 0);
      if k == |s| then Some([s])
      else match DecodeFields(s[k + 1..])
        case None => None
        case Some(fs) => Some([s[..k]] + fs)
  }

  /** One record, terminator included. */
  function DecodeRecord(line: string): Option<seq<string>> {
    if |line| >= 2 && line[|line| - 2..] == "\r\n" then DecodeFields(line[..|line| - 2]) else None
  }

  // ---------------------------------------------------------------------------
  // The writer against the reader
  // ---------------------------------------------------------------------------

  /** An escaped field followed by the closing quote reads back as the
      field, provided no quote follows the closing one. */
  lemma {:induction false} ReadEscaped(f: string, rest: string)
    requires rest == [] || rest[0] != '"'
    ensures ReadQuoted(Escape(f) + "\"" + rest) == Some((f, rest))
    decreases |f|
  {
    var s := Escape(f) + "\"" + rest;
    if f == [] {
      assert s == "\"" + rest;
      assert s[1..] == rest;
    } else {
      ReadEscaped(f[1..], rest);
      var tail := Escape(f[1..]) + "\"" + rest;
      if f[0] == '"' {
        assert s == "\"\"" + tail;
        assert s[2..] == tail;
      } else {
        assert s == [f[0]] + tail;
        assert s[1..] == tail;
      }
      assert f == [f[0]] + f[1..];
    }
  }

  /** A field followed by ',' reads back as that field, then the rest. */
  lemma FieldThenComma(f: string, rest: string)
    ensures DecodeFields(EncodeField(f) + "," + rest)
            == match DecodeFields(rest)
               case None => None
               case Some(fs) => Some([f] + fs)
  {
    if NeedsQuotes(f) {
      QuotedThenComma(f, rest);
    } else {
      PlainThenComma(f, rest);
    }
  }

  lemma QuotedThenComma(f: string, rest: string)
    requires NeedsQuotes(f)
    ensures DecodeFields(EncodeField(f) + "," + rest)
            == match DecodeFields(rest)
               case None => None
               case Some(fs) => Some([f] + fs)
  {
    var s := EncodeField(f) + "," + rest;
    assert s == "\"" + (Escape(f) + "\"" + ("," + rest));
    assert s[1..] == Escape(f) + "\"" + ("," + rest);
    ReadEscaped(f, "," + rest);
    assert ("," + rest)[1..] == rest;
  }

  lemma PlainThenComma(f: string, rest: string)
    requires !NeedsQuotes(f)
    ensures DecodeFields(EncodeField(f) + "," + rest)
            == match DecodeFields(rest)
               case None => None
               case Some(fs) => Some([f] + fs)
  {
    var s := EncodeField(f) + "," + rest;
    assert s == f + "," + rest;
    assert IndexOf(s, ',', 0) == |f| by {
      assert forall i :: 0 <= i < |f| ==> s[i] == f[i];
      assert s[|f|] == ',';
    }
    assert s[..|f|] == f && s[|f| + 1..] == rest;
    if f != [] {
      assert s[0] == f[0];
    }
  }

  /** A last field reads back as itself. */
  lemma LastField(f: string)
    ensures DecodeFields(EncodeField(f)) == Some([f])
  {
    if NeedsQuotes(f) {
      var s := EncodeField(f);
      assert s[1..] == Escape(f) + "\"" + "";
      ReadEscaped(f, "");
    } else {
      assert IndexOf(f, ',', 0) == |f|;
    }
  }

  /** Reading back the fields written by `EncodeFields` gives the fields. */
  lemma {:induction false} DecodeEncodeFields(fs: seq<string>)
    requires |fs| >= 1
    ensures DecodeFields(EncodeFields(fs)) == Some(fs)
    decreases |fs|
  {
    if |fs| == 1 {
      LastField(fs[0]);
      assert fs == [fs[0]];
    } else {
      DecodeEncodeFields(fs[1..]);
      FieldThenComma(fs[0], EncodeFields(fs[1..]));
      assert fs == [fs[0]] + fs[1..];
    }
  }

  /** Reading a written record gives back its fields. */
  lemma DecodeEncodeRecord(fs: seq<string>)
    requires |fs| >= 1
    ensures DecodeRecord(EncodeRecord(fs)) == Some(fs)
  {
    var line := EncodeRecord(fs);
    assert line[|line| - 2..] == "\r\n";
    assert line[..|line| - 2] == RecordText(fs);
    if fs == [""] {
      var s := RecordText(fs);
      assert s[1..] == Escape("") + "\"" + "";
      ReadEscaped("", "");
    } else {
      DecodeEncodeFields(fs);
    }
  }

  // ---------------------------------------------------------------------------
  // Records never break across lines
  // ---------------------------------------------------------------------------

  /** Fields without `c` (other than the quote) encode without `c`. */
  lemma {:induction false} EscapeLacks(f: string, c: char)
    requires Lacks(f, c) && c != '"'
    ensures Lacks(Escape(f), c)
    decreases |f|
  {
    if f != [] {
      EscapeLacks(f[1..], c);
    }
  }

  lemma {:induction false} EncodeFieldsLacks(fs: seq<string>, c: char)
    requires forall j :: 0 <= j < |fs| ==> Lacks(fs[j], c)
    requires c != '"' && c != ','
    ensures Lacks(EncodeFields(fs), c)
    decreases |fs|
  {
    if fs != [] {
      EscapeLacks(fs[0], c);
      if |fs| > 1 {
        EncodeFieldsLacks(fs[1..], c);
      }
    }
  }

  /** No field holds a line break. */
  predicate SingleLine(records: seq<seq<string>>) {
    forall i, j :: 0 <= i < |records| && 0 <= j < |records[i]| ==>
      Lacks(records[i][j], '\r') && Lacks(records[i][j], '\n')
  }

  function Texts(records: seq<seq<string>>): (ts: seq<string>)
    decreases |records|
    ensures |ts| == |records|
  {
    if records == [] then [] else [RecordText(records[0])] + Texts(records[1..])
  }

  /** A record of single-line fields is written on one line. */
  lemma RecordTextLacks(r: seq<string>, c: char)
    requires forall j :: 0 <= j < |r| ==> Lacks(r[j], c)
    requires c != '"' && c != ','
    ensures Lacks(RecordText(r), c)
  {
    if r != [""] {
      EncodeFieldsLacks(r, c);
    }
  }

  lemma SingleLineTail(records: seq<seq<string>>)
    requires records != [] && SingleLine(records)
    ensures SingleLine(records[1..])
  {
    forall i, j | 0 <= i < |records| - 1 && 0 <= j < |records[1..][i]|
      ensures Lacks(records[1..][i][j], '\r') && Lacks(records[1..][i][j], '\n')
    {
      assert records[1..][i] == records[i + 1];
    }
  }

  /** A "\r\n" after text without carriage returns reads as "\n". */
  lemma TranslateLine(t: string, rest: string)
    requires Lacks(t, '\r')
    ensures Translate(t + "\r\n" + rest) == t + "\n" + Translate(rest)
  {
    assert t + "\r\n" + rest == t + ("\r\n" + rest);
    TranslateKeeps(t, "\r\n" + rest);
    assert ("\r\n" + rest)[2..] == rest;
  }

  /** The record texts of single-line records hold no line break. */
  lemma {:induction false} TextsLack(records: seq<seq<string>>, c: char)
    requires SingleLine(records) && (c == '\r' || c == '\n')
    ensures forall i :: 0 <= i < |records| ==> Lacks(Texts(records)[i], c)
    decreases |records|
  {
    if records != [] {
      RecordTextLacks(records[0], c);
      SingleLineTail(records);
      TextsLack(records[1..], c);
      var ts := Texts(records);
      assert ts[1..] == Texts(records[1..]);
    }
  }

  /** Read in text mode, a written file is its record texts one per line. */
  lemma {:induction false} TranslateWrite(records: seq<seq<string>>)
    requires SingleLine(records)
    ensures Translate(Write(records)) == WriteLines(Texts(records))
    decreases |records|
  {
    if records != [] {
      var t := RecordText(records[0]);
      RecordTextLacks(records[0], '\r');
      var rest := Write(records[1..]);
      SingleLineTail(records);
      TranslateWrite(records[1..]);
      assert Write(records) == t + "\r\n" + rest;
      TranslateLine(t, rest);
      assert Texts(records)[1..] == Texts(records[1..]);
    }
  }

  /** The number of lines of a written file is the number of records. */
  lemma LineCount(records: seq<seq<string>>)
    requires SingleLine(records)
    ensures |ReadLines(Translate(Write(records)))| == |records|
  {
    TranslateWrite(records);
    TextsLack(records, '\n');
    ReadWritten(Texts(records));
  }
}
