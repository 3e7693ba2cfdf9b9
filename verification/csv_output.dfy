/**
  The text Go's `encoding/csv` writer produces for the rows `main` writes (main.go:39-42, 79),
  with the default settings: `,` between fields, `\n` after each record.
 */
module CsvOutput {
  import opened GoStrings
  import opened Utf8
  import opened Rows

  /** The characters that force a field into quotes, besides a leading space. */
  predicate IsSpecial(c: char) {
    c == '\n' || c == '\r' || c == '"' || c == ','
  }

  /** A field is quoted when it holds a special character, starts with a space, or is `\.`;
      the empty field never is. */
  predicate NeedsQuotes(field: string) {
    && field != ""
    && (|| field == "\\."
        || (exists i :: 0 <= i < |field| && IsSpecial(field[i]))
        || IsSpace(field[0]))
  }

  /** A field's text with every `"` doubled. */
  function DoubleQuotes(s: string): (d: string)
    ensures |s| <= |d| <= 2 * |s|
  {
    if |s| == 0 then []
    else (if s[0] == '"' then "\"\"" else [s[0]]) + DoubleQuotes(s[1..])
  }

  /** Undoes `DoubleQuotes`: a pair `""` stands for one `"`. */
  function UndoubleQuotes(d: string): string {
    if |d| == 0 then []
    else if |d| >= 2 && d[0] == '"' && d[1] == '"' then "\"" + UndoubleQuotes(d[2..])
    else [d[0]] + UndoubleQuotes(d[1..])
  }

  lemma {:induction false} UndoubleDouble(s: string)
    ensures UndoubleQuotes(DoubleQuotes(s)) == s
    decreases |s|
  {
    if |s| > 0 {
      var rest := DoubleQuotes(s[1..]);
      UndoubleDouble(s[1..]);
      if s[0] == '"' {
        assert DoubleQuotes(s) == "\"\"" + rest;
        assert (("\"\"" + rest)[2..]) == rest;
      } else {
        assert DoubleQuotes(s) == [s[0]] + rest;
        assert ([s[0]] + rest)[1..] == rest;
      }
    }
  }

  /** A field as written: verbatim, or between quotes with its quotes doubled. */
  function EncodeField(field: string): string {
    if NeedsQuotes(field) then "\"" + DoubleQuotes(field) + "\"" else field
  }

  /** A field as a reader recovers it: a quoted field loses its quotes and its doubled quotes. */
  function DecodeField(text: string): string {
    if |text| >= 2 && text[0] == '"' && text[|text| - 1] == '"' then UndoubleQuotes(text[1..|text| - 1])
    else text
  }

  /** Every field is read back as written. */
  lemma {:induction false} DecodeEncodeField(field: string)
    ensures DecodeField(EncodeField(field)) == field
  {
    if NeedsQuotes(field) {
      var e := EncodeField(field);
      assert e[1..|e| - 1] == DoubleQuotes(field);
      UndoubleDouble(field);
    } else if |field| >= 2 && field[0] == '"' {
      assert IsSpecial(field[0]);
    }
  }

  /** The fields of a row as written. */
  function EncodeFields(row: Row): (fs: seq<string>)
    ensures |fs| == |row|
    ensures forall i :: 0 <= i < |row| ==> fs[i] == EncodeField(row[i])
  {
    if |row| == 0 then [] else [EncodeField(row[0])] + EncodeFields(row[1..])
  }

  /** One record: the fields as written, separated by commas, then a line feed. */
  function EncodeRecord(row: Row): (text: string)
    ensures |text| > 0 && text[|text| - 1] == '\n'
  {
    Join(EncodeFields(row), ",") + "\n"
  }

  /** The text of the file: the records one after the other. */
  function CsvText(rows: seq<Row>): string {
    if |rows| == 0 then [] else EncodeRecord(rows[0]) + CsvText(rows[1..])
  }

  /** The file's bytes. */
  function CsvBytes(rows: seq<Row>): seq<byte> {
    Encode(CsvText(rows))
  }

  /** A field free of special characters and leading spaces is written verbatim. */
  lemma {:induction false} PlainField(field: string)
    requires forall i :: 0 <= i < |field| ==> !IsSpecial(field[i])
    requires field == "" || !IsSpace(field[0])
    requires field != "\\."
    ensures EncodeField(field) == field
  {
  }

  /** A record of plain fields splits back into its fields at the commas. */
  lemma {:induction false} PlainRecordSplits(row: Row)
    requires |row| >= 1
    requires forall k :: 0 <= k < |row| ==> EncodeField(row[k]) == row[k]
    requires forall k, i :: 0 <= k < |row| && 0 <= i < |row[k]| ==> row[k][i] != ','
    ensures Split(EncodeRecord(row)[..|EncodeRecord(row)| - 1], ",") == row
  {
    var fs := EncodeFields(row);
    assert fs == row;
    var text := EncodeRecord(row);
    assert text[..|text| - 1] == Join(row, ",");
    forall k | 0 <= k < |row| ensures !Contains(row[k], ",") {
      NotContainsWithoutFirst(row[k], ",");
    }
    SplitJoin(row, ",");
  }

  /** A field grows by at most its own length and two quotes when written. */
  lemma {:induction false} EncodeFieldLength(field: string)
    ensures |field| <= |EncodeField(field)| <= 2 * |field| + 2
  {
  }

  /** Parts of at most `m` characters joined by `sep` take at most `m + |sep|` characters each. */
  lemma {:induction false} JoinLength(parts: seq<string>, sep: string, m: nat)
    requires forall k :: 0 <= k < |parts| ==> |parts[k]| <= m
    ensures |Join(parts, sep)| <= |parts| * (m + |sep|)
    decreases |parts|
  {
    if |parts| >= 2 {
      JoinLength(parts[1..], sep, m);
      assert |parts| * (m + |sep|) == (m + |sep|) + (|parts| - 1) * (m + |sep|);
    }
  }

  /** A record whose fields have at most `m` characters each is at most `|row| * (2 * m + 3) + 1`
      characters long. */
  lemma {:induction false} RecordLength(row: Row, m: nat)
    requires forall k :: 0 <= k < |row| ==> |row[k]| <= m
    ensures |EncodeRecord(row)| <= |row| * (2 * m + 3) + 1
  {
    var fs := EncodeFields(row);
    forall k | 0 <= k < |fs| ensures |fs[k]| <= 2 * m + 2 {
      EncodeFieldLength(row[k]);
    }
    JoinLength(fs, ",", 2 * m + 2);
  }
}
