/**
  The calls `encoding/csv`'s `Writer.Write` makes on its buffer for each record `main` writes,
  and what the file holds when `main` uploads it (main.go:39-42, 79, 98).
 */
module CsvWriter {
  import opened GoStrings
  import opened Utf8
  import opened Rows
  import opened CsvOutput
  import opened BufferedWriter

  /** One call on the buffer: `WriteString` of a text, or `WriteByte` of an ASCII character. */
  datatype Call = PutString(s: string) | PutByte(c: char)

  /** The text one call writes. */
  function CallChars(call: Call): string {
    match call
    case PutString(s) => s
    case PutByte(c) => [c]
  }

  /** The text a run of calls writes. */
  function CallText(calls: seq<Call>): string {
    if |calls| == 0 then [] else CallChars(calls[0]) + CallText(calls[1..])
  }

  lemma {:induction false} CallTextAppend(a: seq<Call>, b: seq<Call>)
    ensures CallText(a + b) == CallText(a) + CallText(b)
    decreases |a|
  {
    if |a| == 0 {
      assert a + b == b;
    } else {
      assert (a + b)[1..] == a[1..] + b;
      CallTextAppend(a[1..], b);
    }
  }

  /** The characters a quoted field's text stops at: `"`, carriage return and line feed. */
  predicate IsBreak(c: char) {
    c == '"' || c == '\r' || c == '\n'
  }

  /** The index of the first break character in `s`, or `|s|` if there is none. */
  function NextBreak(s: string): (i: nat)
    ensures i <= |s|
  {
    if |s| == 0 || IsBreak(s[0]) then 0 else 1 + NextBreak(s[1..])
  }

  /** `NextBreak` finds the first break: none comes before it, and it is one unless it is the end. */
  lemma {:induction false} NextBreakSpec(s: string)
    ensures forall j :: 0 <= j < NextBreak(s) ==> !IsBreak(s[j])
    ensures NextBreak(s) < |s| ==> IsBreak(s[NextBreak(s)])
    decreases |s|
  {
    if |s| > 0 && !IsBreak(s[0]) {
      NextBreakSpec(s[1..]);
      assert forall j :: 1 <= j < NextBreak(s) ==> s[j] == s[1..][j - 1];
    }
  }

  /** The call for a break character inside quotes: a quote is written doubled, as a string. */
  function BreakCalls(c: char): seq<Call> {
    if c == '"' then [PutString("\"\"")] else [PutByte(c)]
  }

  /** The inside of a quoted field: each stretch up to a break is written as one string (possibly
      empty), then the break. */
  function QuotedCalls(s: string): seq<Call>
    decreases |s|
  {
    if |s| == 0 then []
    else
      var i := NextBreak(s);
      if i == |s| then [PutString(s)]
      else [PutString(s[..i])] + BreakCalls(s[i]) + QuotedCalls(s[i + 1..])
  }

  /** The calls for one field. */
  function FieldCalls(field: string): seq<Call> {
    if NeedsQuotes(field) then [PutByte('"')] + QuotedCalls(field) + [PutByte('"')]
    else [PutString(field)]
  }

  /** Blocks of calls with a comma written between neighbours. */
  function Interleave(blocks: seq<seq<Call>>): seq<Call> {
    if |blocks| == 0 then []
    else if |blocks| == 1 then blocks[0]
    else blocks[0] + [PutByte(',')] + Interleave(blocks[1..])
  }

  /** The calls for one record: its fields, a comma between neighbours, then a line feed written as
      a single byte. */
  function RecordCalls(row: Row): (calls: seq<Call>)
    ensures |calls| > 0 && calls[|calls| - 1] == PutByte('\n')
  {
    Interleave(seq(|row|, i requires 0 <= i < |row| => FieldCalls(row[i]))) + [PutByte('\n')]
  }

  /** The calls for a whole file. */
  function FileCalls(rows: seq<Row>): seq<Call> {
    if |rows| == 0 then [] else RecordCalls(rows[0]) + FileCalls(rows[1..])
  }

  // ---------------------------------------------------------------------------------------------
  // The calls write exactly the text of the records

  lemma {:induction false} DoubleQuotesAppend(a: string, b: string)
    ensures DoubleQuotes(a + b) == DoubleQuotes(a) + DoubleQuotes(b)
    decreases |a|
  {
    if |a| == 0 {
      assert a + b == b;
    } else {
      assert (a + b)[1..] == a[1..] + b;
      DoubleQuotesAppend(a[1..], b);
    }
  }

  lemma {:induction false} DoubleQuotesPlain(s: string)
    requires forall j :: 0 <= j < |s| ==> s[j] != '"'
    ensures DoubleQuotes(s) == s
    decreases |s|
  {
    if |s| > 0 {
      DoubleQuotesPlain(s[1..]);
      assert s == [s[0]] + s[1..];
    }
  }

  /** A field holding a comma, such as the location `Austin, TX`, is written between quotes. */
  lemma {:induction false} CommaFieldIsQuoted(a: string, b: string)
    requires forall j :: 0 <= j < |a| ==> a[j] != '"'
    requires forall j :: 0 <= j < |b| ==> b[j] != '"'
    ensures EncodeField(a + "," + b) == "\"" + a + "," + b + "\""
  {
    var f := a + "," + b;
    assert NeedsQuotes(f) by { assert IsSpecial(f[|a|]); }
    assert forall j :: 0 <= j < |f| ==> f[j] != '"' by {
      forall j | 0 <= j < |f| ensures f[j] != '"' {
        if j < |a| { assert f[j] == a[j]; }
        else if j > |a| { assert f[j] == b[j - |a| - 1]; }
      }
    }
    DoubleQuotesPlain(f);
    assert EncodeField(f) == "\"" + f + "\"";
  }

  /** Quotes are doubled piece by piece; a piece without quotes stays as it is. */
  lemma {:induction false} DoubleQuotesAround(a: string, c: char, b: string)
    requires forall j :: 0 <= j < |a| ==> a[j] != '"'
    ensures DoubleQuotes(a + [c] + b) == a + DoubleQuotes([c]) + DoubleQuotes(b)
  {
    DoubleQuotesPlain(a);
    DoubleQuotesAppend(a + [c], b);
    DoubleQuotesAppend(a, [c]);
  }

  /** The calls of a quoted field cut at its first break. */
  lemma {:induction false} QuotedCallsAtBreak(s: string, i: nat)
    requires i == NextBreak(s) && i < |s|
    ensures QuotedCalls(s) == [PutString(s[..i])] + BreakCalls(s[i]) + QuotedCalls(s[i + 1..])
  {
  }

  /** The text of a string call followed by more calls. */
  lemma {:induction false} CallTextCons(t: string, mid: seq<Call>, tail: seq<Call>)
    ensures CallText([PutString(t)] + mid + tail) == t + CallText(mid) + CallText(tail)
  {
    CallTextAppend([PutString(t)] + mid, tail);
    CallTextAppend([PutString(t)], mid);
    assert CallText([PutString(t)]) == t + [];
  }

  /** A break is written as itself, doubled if it is a quote. */
  lemma {:induction false} BreakCallsSpell(c: char)
    ensures CallText(BreakCalls(c)) == DoubleQuotes([c])
  {
    assert [c][1..] == [];
  }

  /** A quoted field without breaks is written in one call. */
  lemma {:induction false} QuotedCallsNoBreak(s: string)
    requires |s| > 0 && NextBreak(s) == |s|
    ensures CallText(QuotedCalls(s)) == DoubleQuotes(s)
  {
    NextBreakSpec(s);
    DoubleQuotesPlain(s);
    assert CallText(QuotedCalls(s)) == s + [];
  }

  /** The text of a quoted field's calls, cut at its first break. */
  lemma {:induction false} QuotedTextAtBreak(s: string, i: nat)
    requires i == NextBreak(s) && i < |s|
    requires CallText(QuotedCalls(s[i + 1..])) == DoubleQuotes(s[i + 1..])
    ensures CallText(QuotedCalls(s)) == s[..i] + DoubleQuotes([s[i]]) + DoubleQuotes(s[i + 1..])
  {
    QuotedCallsAtBreak(s, i);
    CallTextCons(s[..i], BreakCalls(s[i]), QuotedCalls(s[i + 1..]));
    BreakCallsSpell(s[i]);
  }

  /** Doubling the quotes of a field, cut at its first break. */
  lemma {:induction false} DoubleQuotesAtBreak(s: string, i: nat)
    requires i == NextBreak(s) && i < |s|
    ensures DoubleQuotes(s) == s[..i] + DoubleQuotes([s[i]]) + DoubleQuotes(s[i + 1..])
  {
    NextBreakSpec(s);
    assert s == s[..i] + [s[i]] + s[i + 1..];
    DoubleQuotesAround(s[..i], s[i], s[i + 1..]);
  }

  /** The text of a quoted field's calls is the field with its quotes doubled. */
  lemma {:induction false} QuotedCallsSpell(s: string)
    ensures CallText(QuotedCalls(s)) == DoubleQuotes(s)
    decreases |s|
  {
    if |s| > 0 {
      var i := NextBreak(s);
      if i == |s| {
        QuotedCallsNoBreak(s);
      } else {
        QuotedCallsSpell(s[i + 1..]);
        QuotedTextAtBreak(s, i);
        DoubleQuotesAtBreak(s, i);
      }
    }
  }

  /** The text of a field's calls is the field as written. */
  lemma {:induction false} FieldCallsSpell(field: string)
    ensures CallText(FieldCalls(field)) == EncodeField(field)
  {
    if NeedsQuotes(field) {
      var q := [PutByte('"')];
      QuotedCallsSpell(field);
      CallTextAppend(q + QuotedCalls(field), q);
      CallTextAppend(q, QuotedCalls(field));
    } else {
      assert CallText(FieldCalls(field)) == field + [];
    }
  }

  /** The texts of blocks of calls. */
  function Texts(blocks: seq<seq<Call>>): (ts: seq<string>)
    ensures |ts| == |blocks|
    ensures forall i :: 0 <= i < |blocks| ==> ts[i] == CallText(blocks[i])
  {
    seq(|blocks|, i requires 0 <= i < |blocks| => CallText(blocks[i]))
  }

  /** Interleaved blocks write their texts joined by commas. */
  lemma {:induction false} InterleaveSpell(blocks: seq<seq<Call>>)
    ensures CallText(Interleave(blocks)) == Join(Texts(blocks), ",")
    decreases |blocks|
  {
    if |blocks| >= 2 {
      var rest := blocks[1..];
      InterleaveSpell(rest);
      CallTextAppend(blocks[0] + [PutByte(',')], Interleave(rest));
      CallTextAppend(blocks[0], [PutByte(',')]);
      assert Texts(blocks)[1..] == Texts(rest);
      assert CallText([PutByte(',')]) == ",";
    }
  }

  /** The text of a record's calls is the record. */
  lemma {:induction false} RecordCallsSpell(row: Row)
    ensures CallText(RecordCalls(row)) == EncodeRecord(row)
  {
    var blocks := seq(|row|, i requires 0 <= i < |row| => FieldCalls(row[i]));
    forall i | 0 <= i < |row| ensures CallText(blocks[i]) == EncodeFields(row)[i] {
      FieldCallsSpell(row[i]);
    }
    assert Texts(blocks) == EncodeFields(row);
    InterleaveSpell(blocks);
    CallTextAppend(Interleave(blocks), [PutByte('\n')]);
  }

  /** The text of a file's calls is the file's text. */
  lemma {:induction false} FileCallsSpell(rows: seq<Row>)
    ensures CallText(FileCalls(rows)) == CsvText(rows)
    decreases |rows|
  {
    if |rows| > 0 {
      RecordCallsSpell(rows[0]);
      FileCallsSpell(rows[1..]);
      CallTextAppend(RecordCalls(rows[0]), FileCalls(rows[1..]));
    }
  }
}
