/**
  The CSV file as it stands on disk: the writer's calls go through the 4096-byte buffer, and only
  what the buffer has handed on is in the file (main.go:39-42, 79, 98).
 */
module CsvFile {
  import opened Utf8
  import opened Rows
  import opened CsvOutput
  import opened BufferedWriter
  import opened CsvWriter

  /** Every `WriteByte` call writes an ASCII character. */
  predicate ByteCallsAscii(calls: seq<Call>) {
    forall i :: 0 <= i < |calls| && calls[i].PutByte? ==> calls[i].c as int < 0x80
  }

  lemma {:induction false} QuotedCallsAscii(s: string)
    ensures ByteCallsAscii(QuotedCalls(s))
    decreases |s|
  {
    if |s| > 0 {
      var i := NextBreak(s);
      if i < |s| {
        NextBreakSpec(s);
        QuotedCallsAtBreak(s, i);
        QuotedCallsAscii(s[i + 1..]);
      }
    }
  }

  lemma {:induction false} InterleaveAscii(blocks: seq<seq<Call>>)
    requires forall k :: 0 <= k < |blocks| ==> ByteCallsAscii(blocks[k])
    ensures ByteCallsAscii(Interleave(blocks))
    decreases |blocks|
  {
    if |blocks| >= 2 {
      InterleaveAscii(blocks[1..]);
    }
  }

  lemma {:induction false} RecordCallsAscii(row: Row)
    ensures ByteCallsAscii(RecordCalls(row))
  {
    var blocks := seq(|row|, i requires 0 <= i < |row| => FieldCalls(row[i]));
    forall k | 0 <= k < |blocks| ensures ByteCallsAscii(blocks[k]) {
      QuotedCallsAscii(row[k]);
    }
    InterleaveAscii(blocks);
  }

  lemma {:induction false} FileCallsAscii(rows: seq<Row>)
    ensures ByteCallsAscii(FileCalls(rows))
    decreases |rows|
  {
    if |rows| > 0 {
      RecordCallsAscii(rows[0]);
      FileCallsAscii(rows[1..]);
    }
  }

  /** An ASCII character is one byte. */
  lemma {:induction false} EncodeAsciiChar(c: char)
    requires c as int < 0x80
    ensures Encode([c]) == [Ascii(c)]
  {
    assert [c][1..] == [];
  }

  /** One call on the buffer. */
  function Perform(w: Writer, call: Call): (r: Writer)
    requires Valid(w)
    requires call.PutByte? ==> call.c as int < 0x80
    ensures Valid(r)
    ensures Written(r) == Written(w) + Encode(CallChars(call))
    ensures |Written(r)| <= Size ==> r.flushed == w.flushed
    ensures call.PutByte? ==> r.buf != []
  {
    match call
    case PutString(s) => WriteString(w, Encode(s))
    case PutByte(c) =>
      EncodeAsciiChar(c);
      WriteByte(w, Ascii(c))
  }

  /** Bytes written by a first call and then by the rest are the bytes of the whole run. */
  lemma {:induction false} WrittenInOrder(w: Writer, next: Writer, r: Writer, calls: seq<Call>)
    requires |calls| > 0
    requires Written(next) == Written(w) + Encode(CallChars(calls[0]))
    requires Written(r) == Written(next) + Encode(CallText(calls[1..]))
    ensures Written(r) == Written(w) + Encode(CallText(calls))
  {
    var first, rest := CallChars(calls[0]), CallText(calls[1..]);
    assert CallText(calls) == first + rest;
    EncodeAppend(first, rest);
    AppendAssoc(Written(w), Encode(first), Encode(rest));
  }

  lemma {:induction false} AppendAssoc(a: seq<byte>, b: seq<byte>, c: seq<byte>)
    ensures (a + b) + c == a + (b + c)
  {
  }

  /** A run of calls on the buffer, in order. Every byte ends up either handed to the file or
      in the buffer; nothing reaches the file until more than `Size` bytes have been written;
      and after a final `WriteByte` the buffer is not empty. */
  function PerformAll(w: Writer, calls: seq<Call>): (r: Writer)
    requires Valid(w) && ByteCallsAscii(calls)
    ensures Valid(r)
    ensures Written(r) == Written(w) + Encode(CallText(calls))
    ensures |Written(r)| <= Size ==> r.flushed == w.flushed
    ensures |calls| > 0 && calls[|calls| - 1].PutByte? ==> r.buf != []
    decreases |calls|
  {
    if |calls| == 0 then w
    else
      var next := Perform(w, calls[0]);
      var r := PerformAll(next, calls[1..]);
      WrittenInOrder(w, next, r, calls);
      r
  }

  // ---------------------------------------------------------------------------------------------
  // What the upload sees

  /** The calls of a non-empty file end with a `WriteByte`: the line feed of its last record. */
  lemma {:induction false} FileCallsEndWithByte(rows: seq<Row>)
    requires |rows| > 0
    ensures |FileCalls(rows)| > 0 && FileCalls(rows)[|FileCalls(rows)| - 1].PutByte?
    decreases |rows|
  {
    if |rows| > 1 {
      FileCallsEndWithByte(rows[1..]);
    }
  }

  /** The writer after the header and the rows have been written, before any flush. */
  function Buffered(rows: seq<Row>): (w: Writer)
    ensures Valid(w)
    ensures Written(w) == CsvBytes([Header] + rows)
    ensures w.buf != []
    ensures |CsvBytes([Header] + rows)| <= Size ==> w.flushed == []
  {
    FileCallsAscii([Header] + rows);
    FileCallsSpell([Header] + rows);
    FileCallsEndWithByte([Header] + rows);
    PerformAll(Fresh, FileCalls([Header] + rows))
  }

  /** The file as `main` uploads it: the flush is deferred to the end of `main` (main.go:40), so
      the upload (main.go:98) reads only what the buffer has handed on. */
  function FileAtUploadAsWritten(rows: seq<Row>): seq<byte> {
    Buffered(rows).flushed
  }

  /** The upload misses the end of the file: it gets a proper prefix of the CSV bytes, and nothing
      at all when the CSV fits in the buffer. */
  lemma {:induction false} UploadMissesTail(rows: seq<Row>)
    ensures var full := CsvBytes([Header] + rows);
      && |FileAtUploadAsWritten(rows)| < |full|
      && FileAtUploadAsWritten(rows) == full[..|FileAtUploadAsWritten(rows)|]
    ensures |CsvBytes([Header] + rows)| <= Size ==> FileAtUploadAsWritten(rows) == []
  {
    var w := Buffered(rows);
    assert Written(w)[..|w.flushed|] == w.flushed;
  }

  /** A run that writes no job rows uploads an empty object although the file holds the header. */
  lemma {:induction false} NoRowsUploadsNothing()
    ensures CsvBytes([Header]) != []
    ensures FileAtUploadAsWritten([]) == []
  {
    RecordLength(Header, 15);
    assert [Header] + [] == [Header];
    assert CsvText([Header]) == EncodeRecord(Header) + CsvText([]);
    UploadMissesTail([]);
  }

  /** The file once the buffer is flushed: the CSV in full. */
  function FlushedFile(rows: seq<Row>): (file: seq<byte>)
    ensures file == CsvBytes([Header] + rows)
  {
    Flush(Buffered(rows)).flushed
  }
}
