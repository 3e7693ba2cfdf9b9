/**
  The 4096-byte buffer Go's `encoding/csv` writer puts in front of the file (`bufio.Writer` with
  its default size). Bytes reach the file only when the buffer overflows or is flushed.
 */
module BufferedWriter {
  import opened Utf8

  /** The default buffer size. */
  const Size: nat := 4096

  /** What has been handed to the file so far, and what waits in the buffer. */
  datatype Writer = Writer(flushed: seq<byte>, buf: seq<byte>)

  /** The buffer never holds more than its size. */
  predicate Valid(w: Writer) {
    |w.buf| <= Size
  }

  /** A fresh writer on an empty file. */
  const Fresh: Writer := Writer([], [])

  /** Everything written, whether handed on or buffered. */
  function Written(w: Writer): seq<byte> {
    w.flushed + w.buf
  }

  /** Topping up the buffer with the first `n` bytes and writing the rest writes them all. */
  lemma {:induction false} TopUp(w: Writer, s: seq<byte>, n: nat)
    requires n <= |s|
    ensures (w.flushed + w.buf + s[..n]) + s[n..] == Written(w) + s
  {
    assert s == s[..n] + s[n..];
  }

  /** `WriteString`: while the text does not fit, either hand it to the file in one piece (when
      the buffer is empty) or top the buffer up and flush it; the rest is buffered. Nothing is
      handed on unless more than `Size` bytes have been written in all, and every byte written
      is accounted for. */
  function WriteString(w: Writer, s: seq<byte>): (r: Writer)
    requires Valid(w)
    ensures Valid(r)
    ensures Written(r) == Written(w) + s
    ensures |Written(r)| <= Size ==> r.flushed == w.flushed
    ensures |s| > 0 && |w.buf| + |s| <= Size ==> r.buf != []
    decreases |s|, |w.buf|
  {
    if |s| <= Size - |w.buf| then Writer(w.flushed, w.buf + s)
    else if |w.buf| == 0 then Writer(w.flushed + s, [])
    else
      var n := Size - |w.buf|;
      TopUp(w, s, n);
      WriteString(Writer(w.flushed + w.buf + s[..n], []), s[n..])
  }

  /** `WriteByte`: a full buffer is flushed first; then the byte is buffered. */
  function WriteByte(w: Writer, b: byte): (r: Writer)
    requires Valid(w)
    ensures Valid(r)
    ensures Written(r) == Written(w) + [b]
    ensures |Written(r)| <= Size ==> r.flushed == w.flushed
    ensures r.buf != []
  {
    if |w.buf| >= Size then Writer(w.flushed + w.buf, [b]) else Writer(w.flushed, w.buf + [b])
  }

  /** `Flush`: the buffer is handed to the file. */
  function Flush(w: Writer): (r: Writer)
    ensures r.flushed == Written(w) && r.buf == []
  {
    Writer(w.flushed + w.buf, [])
  }
}
