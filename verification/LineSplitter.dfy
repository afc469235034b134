/** The thermostat's streaming line splitter (pc/src/models/thermostat/dispatcher.py, `_handle_rx_chunk`).
    Lines are returned where the original writes them to the log. */
module LineSplitter {
  import opened Bytes

  const NEWLINE: byte := 0x0A
  const CARRIAGE_RETURN: byte := 0x0D

  /** The first newline of the bytes, or -1. */
  function Find(data: bytes): (r: int)
    ensures -1 <= r < |data|
    ensures r >= 0 ==> data[r] == NEWLINE && NEWLINE !in data[..r]
    ensures r < 0 ==> NEWLINE !in data
  {
    if data == [] then -1
    else if data[0] == NEWLINE then 0
    else
      var r := Find(data[1..]);
      assert r >= 0 ==> data[..r + 1] == [data[0]] + data[1..][..r];
      if r < 0 then -1 else r + 1
  }

  /** One trailing carriage return goes. */
  function Stripped(line: bytes): bytes {
    if line != [] && line[|line| - 1] == CARRIAGE_RETURN then line[..|line| - 1] else line
  }

  function AllStripped(lines: seq<bytes>): (r: seq<bytes>)
    ensures |r| == |lines| && forall i :: 0 <= i < |r| ==> r[i] == Stripped(lines[i])
  {
    seq(|lines|, i requires 0 <= i < |lines| => Stripped(lines[i]))
  }

  // ---------------------------------------------------------------------------
  // What a split is: the only way to write a stream as lines ended by newlines and an unended rest

  /** Every line with its newline put back. */
  function Joined(lines: seq<bytes>): bytes {
    if lines == [] then [] else lines[0] + [NEWLINE] + Joined(lines[1..])
  }

  ghost predicate IsSplit(stream: bytes, lines: seq<bytes>, rest: bytes) {
    && stream == Joined(lines) + rest
    && (forall i :: 0 <= i < |lines| ==> NEWLINE !in lines[i])
    && NEWLINE !in rest
  }

  lemma {:induction false} JoinedAppend(a: seq<bytes>, b: seq<bytes>)
    ensures Joined(a + b) == Joined(a) + Joined(b)
  {
    if a == [] {
      assert a + b == b;
    } else {
      assert (a + b)[1..] == a[1..] + b;
      JoinedAppend(a[1..], b);
    }
  }

  lemma {:induction false} FirstNewline(line: bytes, more: bytes)
    requires NEWLINE !in line
    ensures Find(line + [NEWLINE] + more) == |line|
  {
    if line != [] {
      assert (line + [NEWLINE] + more)[1..] == line[1..] + [NEWLINE] + more;
      FirstNewline(line[1..], more);
    }
  }

  // ---------------------------------------------------------------------------
  // The splitter

  datatype Split = Split(lines: seq<bytes>, rest: bytes)

  /** The split of a stream. */
  function SplitAll(stream: bytes): Split
    decreases |stream|
  {
    var at := Find(stream);
    if at < 0 then Split([], stream)
    else
      var tail := SplitAll(stream[at + 1..]);
      Split([stream[..at]] + tail.lines, tail.rest)
  }

  lemma SplitAt(stream: bytes)
    ensures var at := Find(stream);
      at >= 0 ==>
        var later := SplitAll(stream[at + 1..]);
        SplitAll(stream) == Split([stream[..at]] + later.lines, later.rest)
  {
    hide Find;
  }

  lemma {:induction false} SplitAllIsSplit(stream: bytes)
    ensures IsSplit(stream, SplitAll(stream).lines, SplitAll(stream).rest)
    decreases |stream|
  {
    hide SplitAll, Find;
    var at := Find(stream);
    if at < 0 {
      NoNewline(stream);
      assert Joined([]) + stream == stream;
    } else {
      hide Joined;
      var line, tail := stream[..at], SplitAll(stream[at + 1..]);
      SplitAllIsSplit(stream[at + 1..]);
      SplitAt(stream);
      JoinedFirst(line, tail.lines, tail.rest);
      assert stream == line + [NEWLINE] + stream[at + 1..];
    }
  }

  lemma JoinedFirst(line: bytes, lines: seq<bytes>, rest: bytes)
    ensures Joined([line] + lines) + rest == line + [NEWLINE] + (Joined(lines) + rest)
  {
    assert ([line] + lines)[1..] == lines;
  }

  lemma {:induction false} SplitOnly(stream: bytes, lines: seq<bytes>, rest: bytes)
    requires IsSplit(stream, lines, rest)
    ensures SplitAll(stream) == Split(lines, rest)
    decreases |lines|
  {
    hide SplitAll, Find;
    if lines == [] {
      assert stream == rest;
      NoNewline(rest);
    } else {
      hide Joined;
      var more := Joined(lines[1..]) + rest;
      JoinedFirst(lines[0], lines[1..], rest);
      assert lines == [lines[0]] + lines[1..];
      FirstNewline(lines[0], more);
      assert stream[..|lines[0]|] == lines[0] && stream[|lines[0]| + 1..] == more;
      SplitAt(stream);
      SplitOnly(more, lines[1..], rest);
    }
  }

  /** The splitter finds the one split there is. */
  lemma SplitExact(stream: bytes, lines: seq<bytes>, rest: bytes)
    ensures IsSplit(stream, lines, rest) <==> SplitAll(stream) == Split(lines, rest)
  {
    SplitAllIsSplit(stream);
    if IsSplit(stream, lines, rest) {
      SplitOnly(stream, lines, rest);
    }
  }

  /** Splitting in two steps, the rest of the first carried over to the second. */
  lemma SplitAppend(a: bytes, b: bytes)
    ensures var first := SplitAll(a);
      var second := SplitAll(first.rest + b);
      SplitAll(a + b) == Split(first.lines + second.lines, second.rest)
  {
    hide SplitAll, Joined;
    var first := SplitAll(a);
    var second := SplitAll(first.rest + b);
    SplitAllIsSplit(a);
    SplitAllIsSplit(first.rest + b);
    JoinedAppend(first.lines, second.lines);
    assert a + b == Joined(first.lines) + (first.rest + b);
    assert a + b == Joined(first.lines + second.lines) + second.rest;
    SplitExact(a + b, first.lines + second.lines, second.rest);
  }

  /** One chunk after the other, starting with `rest` in the buffer. */
  function SplitChunks(rest: bytes, chunks: seq<bytes>): Split
    decreases |chunks|
  {
    if chunks == [] then Split([], rest)
    else
      var now := SplitAll(rest + chunks[0]);
      var later := SplitChunks(now.rest, chunks[1..]);
      Split(now.lines + later.lines, later.rest)
  }

  lemma NoNewline(rest: bytes)
    requires NEWLINE !in rest
    ensures SplitAll(rest) == Split([], rest)
  {
  }

  /** However the stream is cut into chunks, empty ones included, the lines found over the whole run and
      the bytes left over are those of the whole stream. */
  lemma {:induction false} ChunkingIrrelevant(rest: bytes, chunks: seq<bytes>)
    requires NEWLINE !in rest
    ensures SplitChunks(rest, chunks) == SplitAll(rest + Flatten(chunks))
    decreases |chunks|
  {
    hide SplitAll, Find, Joined;
    if chunks == [] {
      assert rest + Flatten(chunks) == rest;
      NoNewline(rest);
    } else {
      var now := SplitAll(rest + chunks[0]);
      SplitAllIsSplit(rest + chunks[0]);
      ChunkingIrrelevant(now.rest, chunks[1..]);
      SplitAppend(rest + chunks[0], Flatten(chunks[1..]));
      assert rest + Flatten(chunks) == rest + chunks[0] + Flatten(chunks[1..]);
    }
  }

  lemma TakeLine(buffer: bytes, lines: seq<bytes>)
    requires Find(buffer) >= 0
    ensures var at := Find(buffer);
      var tail := SplitAll(buffer[at + 1..]);
      SplitAll(buffer).rest == tail.rest
      && lines + SplitAll(buffer).lines == (lines + [buffer[..at]]) + tail.lines
  {
    hide SplitAll, Find;
    var at := Find(buffer);
    SplitAt(buffer);
    Regrouped(lines, buffer[..at], SplitAll(buffer[at + 1..]).lines);
  }

  lemma Regrouped(lines: seq<bytes>, line: bytes, more: seq<bytes>)
    ensures lines + ([line] + more) == (lines + [line]) + more
  {
  }

  lemma StrippedOne(lines: seq<bytes>, line: bytes)
    ensures AllStripped(lines + [line]) == AllStripped(lines) + [Stripped(line)]
  {
  }

  lemma NothingStripped()
    ensures AllStripped([]) == []
  {
  }

  class LineSplitter {
    var rxBuffer: bytes

    constructor ()
      ensures rxBuffer == []
    {
      rxBuffer := [];
    }

    /** `_handle_rx_chunk`. The lines and the new buffer are the split of the old buffer and the chunk;
        the loop ends because every turn takes a newline off the buffer. */
    method HandleRxChunk(chunk: bytes) returns (completed: seq<bytes>)
      modifies this
      ensures completed == AllStripped(SplitAll(old(rxBuffer) + chunk).lines)
      ensures rxBuffer == SplitAll(old(rxBuffer) + chunk).rest && NEWLINE !in rxBuffer
    {
      hide SplitAll, Find, AllStripped;
      rxBuffer := rxBuffer + chunk;
      ghost var lines: seq<bytes> := [];
      completed := [];
      NothingStripped();
      var newline := Find(rxBuffer);
      while newline >= 0
        invariant newline == Find(rxBuffer)
        invariant completed == AllStripped(lines)
        invariant SplitAll(old(rxBuffer) + chunk) ==
          Split(lines + SplitAll(rxBuffer).lines, SplitAll(rxBuffer).rest)
        decreases |rxBuffer|
      {
        var line := rxBuffer[..newline];
        TakeLine(rxBuffer, lines);
        StrippedOne(lines, line);
        lines := lines + [line];
        rxBuffer := rxBuffer[newline + 1..];
        if line != [] && line[|line| - 1] == CARRIAGE_RETURN {
          line := line[..|line| - 1];
        }
        completed := completed + [line];
        newline := Find(rxBuffer);
      }
      NoNewline(rxBuffer);
    }

    /** `_reader_loop`: reads that give nothing are skipped. */
    method ReaderLoop(chunks: seq<Option<bytes>>) returns (logged: seq<bytes>)
      modifies this
      requires NEWLINE !in rxBuffer
      ensures logged == AllStripped(SplitAll(old(rxBuffer) + Gathered(chunks)).lines)
      ensures rxBuffer == SplitAll(old(rxBuffer) + Gathered(chunks)).rest && NEWLINE !in rxBuffer
    {
      hide SplitAll, Find, Stripped;
      logged := [];
      ghost var lines: seq<bytes> := [];
      ghost var start := rxBuffer;
      NoNewline(rxBuffer);
      for i := 0 to |chunks|
        invariant NEWLINE !in rxBuffer
        invariant logged == AllStripped(lines)
        invariant SplitAll(start) == Split(lines, rxBuffer)
        invariant old(rxBuffer) + Gathered(chunks) == start + Gathered(chunks[i..])
      {
        assert chunks[i..][1..] == chunks[i + 1..];
        if chunks[i].None? || chunks[i].value == [] {
          continue;
        }
        var chunk := chunks[i].value;
        SplitAppend(start, chunk);
        assert start + Gathered(chunks[i..]) == start + chunk + Gathered(chunks[i + 1..]);
        StrippedAppend(lines, SplitAll(rxBuffer + chunk).lines);
        start, lines := start + chunk, lines + SplitAll(rxBuffer + chunk).lines;
        var completed := HandleRxChunk(chunk);
        logged := logged + completed;
      }
      assert start + [] == start;
    }
  }

  lemma StrippedAppend(a: seq<bytes>, b: seq<bytes>)
    ensures AllStripped(a + b) == AllStripped(a) + AllStripped(b)
  {
  }

  /** The bytes of the reads that gave some. */
  function Gathered(chunks: seq<Option<bytes>>): bytes {
    if chunks == [] then []
    else (if chunks[0].None? then [] else chunks[0].value) + Gathered(chunks[1..])
  }

  /** A line with its ending: a newline, or a carriage return and a newline. */
  function Ended(line: bytes, crlf: bool): bytes {
    if crlf then line + [CARRIAGE_RETURN, NEWLINE] else line + [NEWLINE]
  }

  function AllEnded(lines: seq<bytes>, crlf: seq<bool>): bytes
    requires |crlf| == |lines|
  {
    if lines == [] then [] else Ended(lines[0], crlf[0]) + AllEnded(lines[1..], crlf[1..])
  }

  /** The lines as the splitter cuts them. */
  function CutLines(lines: seq<bytes>, crlf: seq<bool>): (r: seq<bytes>)
    requires |crlf| == |lines|
    ensures |r| == |lines|
  {
    seq(|lines|, i requires 0 <= i < |lines| => if crlf[i] then lines[i] + [CARRIAGE_RETURN] else lines[i])
  }

  lemma {:induction false} EndedIsJoined(lines: seq<bytes>, crlf: seq<bool>)
    requires |crlf| == |lines|
    ensures AllEnded(lines, crlf) == Joined(CutLines(lines, crlf))
    decreases |lines|
  {
    if lines != [] {
      var cut := CutLines(lines, crlf);
      assert cut[1..] == CutLines(lines[1..], crlf[1..]);
      EndedIsJoined(lines[1..], crlf[1..]);
      assert Ended(lines[0], crlf[0]) == cut[0] + [NEWLINE];
    }
  }

  /** Of either kind of line ending, mixed in any way, nothing is left: the lines logged are the text's lines,
      if these contain no newline and do not end in a carriage return themselves; and what follows the last
      ending stays in the buffer. */
  lemma LineEndings(lines: seq<bytes>, crlf: seq<bool>, rest: bytes)
    requires |crlf| == |lines| && NEWLINE !in rest
    requires forall i :: 0 <= i < |lines| ==>
      NEWLINE !in lines[i] && (lines[i] != [] ==> lines[i][|lines[i]| - 1] != CARRIAGE_RETURN)
    ensures var split := SplitAll(AllEnded(lines, crlf) + rest);
      AllStripped(split.lines) == lines && split.rest == rest
  {
    hide SplitAll, Joined, AllEnded;
    EndedIsJoined(lines, crlf);
    SplitExact(AllEnded(lines, crlf) + rest, CutLines(lines, crlf), rest);
    assert AllStripped(CutLines(lines, crlf)) == lines;
  }

  /** And a carriage return anywhere else, or a second one at the end, is the line's own. */
  lemma OneReturnGoes(line: bytes)
    ensures Stripped(line + [CARRIAGE_RETURN]) == line
    ensures line == [] || line[|line| - 1] != CARRIAGE_RETURN ==> Stripped(line) == line
  {
  }

  /** In text: "on", "off" and the beginning of a third line. */
  lemma SplitExample()
    ensures var stream := [0x6F, 0x6E, 0x0D, 0x0A, 0x6F, 0x66, 0x66, 0x0A, 0x6F];
      && SplitAll(stream).rest == [0x6F]
      && AllStripped(SplitAll(stream).lines) == [[0x6F, 0x6E], [0x6F, 0x66, 0x66]]
  {
    hide SplitAll, Joined, AllEnded;
    var lines: seq<bytes>, crlf := [[0x6F, 0x6E], [0x6F, 0x66, 0x66]], [true, false];
    LineEndings(lines, crlf, [0x6F]);
    EndedTwo(lines[0], lines[1]);
    assert AllEnded(lines, crlf) + [0x6F] == [0x6F, 0x6E, 0x0D, 0x0A, 0x6F, 0x66, 0x66, 0x0A, 0x6F];
  }

  lemma EndedTwo(a: bytes, b: bytes)
    ensures AllEnded([a, b], [true, false]) == a + [0x0D, 0x0A] + b + [0x0A]
  {
    assert [a, b][1..] == [b] && [true, false][1..] == [false] && [b][1..] == [] && [false][1..] == [];
    assert AllEnded([b], [false]) == b + [0x0A] + AllEnded([], []);
  }
}
