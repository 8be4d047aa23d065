/** Lines accumulated from chunks of a child process's output. */
module LineBuffers {
  import opened Text

  newtype byte = x: int | 0 <= x < 256

  const NEWLINE: byte := 10

  /** The text of a line without surrounding blanks, or None if it is not well-formed UTF-8. */
  type Decoder = seq<byte> -> Option<string>

  // ---------------------------------------------------------------- splitting a whole stream at once

  /** A stream read so far: the lines that were terminated, and the bytes behind them. */
  datatype Reading = Reading(lines: seq<seq<byte>>, rest: seq<byte>)

  function Read(start: Reading, s: seq<byte>): Reading {
    if s == [] then start
    else
      var before, b := Read(start, s[..|s| - 1]), s[|s| - 1];
      if b == NEWLINE then Reading(before.lines + [before.rest], []) else before.(rest := before.rest + [b])
  }

  const NOTHING: Reading := Reading([], [])

  function Whole(s: seq<byte>): Reading { Read(NOTHING, s) }

  /** What is reported of some lines: the text of those that decode to something. */
  function Reported(decode: Decoder, lines: seq<seq<byte>>): seq<string> {
    if lines == [] then []
    else Reported(decode, lines[..|lines| - 1]) + ReportedLine(decode, lines[|lines| - 1])
  }

  function ReportedLine(decode: Decoder, line: seq<byte>): seq<string> {
    if decode(line).Some? && decode(line).value != "" then [decode(line).value] else []
  }

  /** All that is reported of a stream that has ended. */
  function ReportedOfStream(decode: Decoder, s: seq<byte>): seq<string> {
    Reported(decode, Whole(s).lines) + ReportedLine(decode, Whole(s).rest)
  }

  /** The lines with a line feed behind each. */
  function Unsplit(lines: seq<seq<byte>>): seq<byte> {
    if lines == [] then [] else Unsplit(lines[..|lines| - 1]) + lines[|lines| - 1] + [10]
  }

  predicate IsSplitOf(r: Reading, s: seq<byte>) {
    && Unsplit(r.lines) + r.rest == s
    && 10 !in r.rest
    && forall i :: 0 <= i < |r.lines| ==> 10 !in r.lines[i]
  }

  /** Reading a stream splits it at its newlines. */
  lemma {:induction false} WholeIsSplit(s: seq<byte>)
    ensures IsSplitOf(Whole(s), s)
  {
    if s != [] {
      var before, b, now := Whole(s[..|s| - 1]), s[|s| - 1], Whole(s);
      WholeIsSplit(s[..|s| - 1]);
      assert s == s[..|s| - 1] + [b];
      if b == NEWLINE {
        assert now.lines[..|now.lines| - 1] == before.lines;
        assert Unsplit(now.lines) + [] == Unsplit(now.lines);
      } else {
        assert (Unsplit(before.lines) + before.rest) + [b] == Unsplit(before.lines) + (before.rest + [b]);
      }
    }
  }

  /** And there is only one way to do that. */
  lemma {:induction false} SplitIsWhole(r: Reading, s: seq<byte>)
    requires IsSplitOf(r, s)
    ensures r == Whole(s)
    decreases |s|
  {
    if r.rest != [] {
      var shorter := r.(rest := r.rest[..|r.rest| - 1]);
      assert Unsplit(r.lines) + shorter.rest == s[..|s| - 1];
      SplitIsWhole(shorter, s[..|s| - 1]);
      assert s[|s| - 1] == r.rest[|r.rest| - 1] && r.rest[|r.rest| - 1] in r.rest;
      assert shorter.rest + [s[|s| - 1]] == r.rest;
    } else if r.lines != [] {
      var front, line := r.lines[..|r.lines| - 1], r.lines[|r.lines| - 1];
      assert s == Unsplit(front) + line + [NEWLINE];
      assert Unsplit(front) + line == s[..|s| - 1];
      SplitIsWhole(Reading(front, line), s[..|s| - 1]);
      assert front + [line] == r.lines;
    } else {
      assert s == [] + [];
    }
  }

  lemma {:induction false} ReadOn(start: Reading, s: seq<byte>, t: seq<byte>)
    ensures Read(start, s + t) == Read(Read(start, s), t)
  {
    if t == [] {
      assert s + t == s;
    } else {
      assert (s + t)[..|s + t| - 1] == s + t[..|t| - 1];
      ReadOn(start, s, t[..|t| - 1]);
    }
  }

  lemma {:induction false} ReadPlain(start: Reading, s: seq<byte>)
    requires NEWLINE !in s
    ensures Read(start, s) == start.(rest := start.rest + s)
  {
    if s == [] {
      assert start.rest + s == start.rest;
    } else {
      assert s[|s| - 1] in s;
      ReadPlain(start, s[..|s| - 1]);
      assert start.rest + s[..|s| - 1] + [s[|s| - 1]] == start.rest + s;
    }
  }

  /** Reading what is buffered again, together with what follows it. */
  lemma ReadBuffered(start: Reading, s: seq<byte>)
    requires NEWLINE !in start.rest
    ensures Read(Reading(start.lines, []), start.rest + s) == Read(start, s)
  {
    ReadPlain(Reading(start.lines, []), start.rest);
    assert [] + start.rest == start.rest;
    ReadOn(Reading(start.lines, []), start.rest, s);
  }

  /** A line taken off the front of what is buffered. */
  lemma LineTakenOff(lines: seq<seq<byte>>, s: seq<byte>, n: nat)
    requires n < |s| && s[n] == NEWLINE && NEWLINE !in s[..n]
    ensures Read(Reading(lines, []), s) == Read(Reading(lines + [s[..n]], []), s[n + 1..])
  {
    ReadPlain(Reading(lines, []), s[..n]);
    assert [] + s[..n] == s[..n] && s[..n + 1][..n] == s[..n];
    assert s == s[..n + 1] + s[n + 1..];
    ReadOn(Reading(lines, []), s[..n + 1], s[n + 1..]);
  }

  lemma ReportedMore(decode: Decoder, lines: seq<seq<byte>>, line: seq<byte>)
    ensures Reported(decode, lines + [line]) == Reported(decode, lines) + ReportedLine(decode, line)
  {
    assert (lines + [line])[..|lines|] == lines;
  }

  // ---------------------------------------------------------------- the buffer

  class LineBuffer {
    const decode: Decoder
    var data: seq<byte>
    var isClosed: bool
    ghost var received: seq<byte>     // everything accepted so far
    ghost var reported: seq<string>   // everything reported so far

    ghost predicate Valid() reads this {
      && decode([]) == Some("")
      && (isClosed ==> data == [] && reported == ReportedOfStream(decode, received))
      && (!isClosed ==> data == Whole(received).rest && reported == Reported(decode, Whole(received).lines))
    }

    constructor (decode: Decoder)
      requires decode([]) == Some("")
      ensures Valid() && !isClosed && received == [] && reported == [] && this.decode == decode
    {
      this.decode := decode;
      data, isClosed, received, reported := [], false, [], [];
    }

    /** The lines that a chunk completes; none if the buffer is closed. */
    method ProcessChunk(chunk: seq<byte>) returns (lines: seq<string>)
      requires Valid()
      modifies this
      ensures Valid() && isClosed == old(isClosed)
      ensures received == if isClosed then old(received) else old(received) + chunk
      ensures reported == old(reported) + lines && (isClosed ==> lines == [])
    {
      lines := [];
      if isClosed || chunk == [] {
        assert received + [] == received && reported + [] == reported;
        return;
      }
      lines := Accept(chunk);
    }

    /** What is left at the end, terminated or not; afterwards the buffer is closed for good. */
    method CloseAndFlush(trailingData: seq<byte>) returns (lines: seq<string>)
      requires Valid()
      modifies this
      ensures Valid() && isClosed
      ensures received == if old(isClosed) then old(received) else old(received) + trailingData
      ensures reported == old(reported) + lines && (old(isClosed) ==> lines == [])
    {
      lines := [];
      if isClosed {
        return;
      }
      lines := Accept(trailingData);
      if data != [] {
        var line := decode(data);
        if line.Some? && line.value != "" { lines := lines + [line.value]; }
      }
      reported := reported + ReportedLine(decode, data);
      data := [];
      isClosed := true;
    }

    /** Data is appended, and the lines it completes are extracted. */
    method Accept(more: seq<byte>) returns (lines: seq<string>)
      requires Valid() && !isClosed
      modifies this`data, this`received, this`reported
      ensures Valid() && received == old(received) + more && reported == old(reported) + lines
    {
      ghost var before := Whole(received);
      WholeIsSplit(received);
      ReadBuffered(before, more);
      ReadOn(NOTHING, received, more);
      data := data + more;
      received := received + more;
      lines := ExtractLines(before.lines);
    }

    /** All terminated lines of the buffered data; those before it are done. */
    method ExtractLines(ghost before: seq<seq<byte>>) returns (lines: seq<string>)
      requires !isClosed && decode([]) == Some("")
      requires Read(Reading(before, []), data) == Whole(received) && reported == Reported(decode, before)
      modifies this`data, this`reported
      ensures Valid() && reported == old(reported) + lines
    {
      hide Read, Reported;
      ghost var done := before;
      lines := [];
      var i := 0;
      while i < |data|
        invariant 0 <= i <= |data| && NEWLINE !in data[..i]
        invariant Read(Reading(done, []), data) == Whole(received)
        invariant reported == Reported(decode, done) && reported == old(reported) + lines
        decreases |data|, |data| - i
      {
        if data[i] != NEWLINE {
          i := i + 1;
        } else {
          var lineData := data[..i];
          LineTakenOff(done, data, i);
          ReportedMore(decode, done, lineData);
          var line := decode(lineData);
          if line.Some? && line.value != "" { lines := lines + [line.value]; }
          done, reported := done + [lineData], reported + ReportedLine(decode, lineData);
          data, i := data[i + 1..], 0;
        }
      }
      assert data[..i] == data;
      ReadPlain(Reading(done, []), data);
      assert [] + data == data;
    }
  }

  // ---------------------------------------------------------------- chunk independence

  function Concat(chunks: seq<seq<byte>>): seq<byte> {
    if chunks == [] then [] else Concat(chunks[..|chunks| - 1]) + chunks[|chunks| - 1]
  }

  /**
   However a stream is cut into chunks and trailing data, the lines reported are those of the whole stream
   split at once; what arrives after the end is ignored.
   */
  method ReadStream(decode: Decoder, chunks: seq<seq<byte>>, trailing: seq<byte>, late: seq<byte>)
    returns (lines: seq<string>)
    requires decode([]) == Some("")
    ensures lines == ReportedOfStream(decode, Concat(chunks) + trailing)
  {
    var buffer := new LineBuffer(decode);
    lines := [];
    for i := 0 to |chunks|
      invariant fresh(buffer) && buffer.Valid() && !buffer.isClosed && buffer.decode == decode
      invariant buffer.received == Concat(chunks[..i]) && buffer.reported == lines
    {
      assert chunks[..i + 1][..i] == chunks[..i];
      var more := buffer.ProcessChunk(chunks[i]);
      lines := lines + more;
    }
    assert chunks[..|chunks|] == chunks;
    var last := buffer.CloseAndFlush(trailing);
    var ignored := buffer.ProcessChunk(late);
    lines := lines + last + ignored;
  }
}
