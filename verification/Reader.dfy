/** Finding frames in a byte stream (pc/src/frame/link.py, `_read_frame` and `_stream_read_exact`;
    device/src/factory_session.c, `read_frame` and `read_exact_until_deadline`).

    A stream holds the bytes still to come. How they arrive is a schedule: each entry is the number
    of bytes the next read may return at most, 0 being an empty read; the deadline has passed when
    the schedule is used up. */
module Reader {
  import opened Bytes
  import opened Crc
  import opened Frames

  // ---------------------------------------------------------------------------
  // What a reader is supposed to find

  predicate MagicAt(s: bytes, i: nat) {
    i + 2 <= |s| && s[i] == MAGIC_HIGH && s[i + 1] == MAGIC_LOW
  }

  /** No frame start is visible anywhere in the bytes. */
  ghost predicate Quiet(s: bytes) {
    forall i: nat :: !MagicAt(s, i)
  }

  /** `i` is the first place where a frame can start. */
  ghost predicate FirstMagic(s: bytes, i: nat) {
    MagicAt(s, i) && forall j: nat :: j < i ==> !MagicAt(s, j)
  }

  /** The outcome of one read, and how many bytes it takes off the stream. */
  ghost predicate Reads(s: bytes, r: Result<Frame, FrameError>, consumed: nat) {
    exists i: nat :: FirstMagic(s, i) && ReadsAt(s, i, r, consumed)
  }

  predicate ReadsAt(s: bytes, i: nat, r: Result<Frame, FrameError>, consumed: nat) {
    && i + HEADER_SIZE <= |s|
    && var size := U16At(s, i + 3);
       if size > MAX_DATA_SIZE then r == Err(ArgumentError) && consumed == i + HEADER_SIZE
       else
         && i + HEADER_SIZE + size <= |s|
         && r == Decode(s[i..i + HEADER_SIZE + size])
         && consumed == i + HEADER_SIZE + size
  }

  /** How many reads of the schedule can return something. */
  function Productive(schedule: seq<nat>): nat {
    if schedule == [] then 0 else (if schedule[0] > 0 then 1 else 0) + Productive(schedule[1..])
  }

  // ---------------------------------------------------------------------------
  // The reader

  class ByteStream {
    var pending: bytes
    var schedule: seq<nat>

    constructor (pending: bytes, schedule: seq<nat>)
      ensures this.pending == pending && this.schedule == schedule
    {
      this.pending, this.schedule := pending, schedule;
    }

    /** One `stream.read(size, timeout)`. */
    method Read(size: nat) returns (chunk: bytes)
      requires schedule != []
      modifies this
      ensures chunk + pending == old(pending) && |chunk| <= size
      ensures schedule == old(schedule)[1..]
      ensures old(schedule)[0] == 0 ==> chunk == []
      ensures old(schedule)[0] > 0 && size > 0 && old(pending) != [] ==> chunk != []
    {
      var n := if schedule[0] < size then schedule[0] else size;
      n := if n < |pending| then n else |pending|;
      chunk, pending, schedule := pending[..n], pending[n..], schedule[1..];
    }

    /** `_stream_read_exact`: all of `size` bytes, or a timeout when the schedule is used up. */
    method ReadExact(size: nat) returns (r: Result<bytes, FrameError>)
      modifies this
      ensures r.Ok? ==> |r.value| == size && r.value + pending == old(pending)
      ensures r.Err? ==> r.error == TimeoutError && schedule == []
      ensures r.Ok? && size > 0 ==> |schedule| < |old(schedule)|
      ensures size <= |old(pending)| && size <= Productive(old(schedule)) ==>
        r.Ok? && Productive(schedule) >= Productive(old(schedule)) - size
    {
      var buffer: bytes := [];
      while |buffer| < size
        invariant |buffer| <= size && buffer + pending == old(pending)
        invariant |schedule| <= |old(schedule)| && (buffer != [] ==> |schedule| < |old(schedule)|)
        invariant size <= Productive(old(schedule)) && |old(pending)| >= size ==>
          Productive(schedule) >= Productive(old(schedule)) - |buffer|
        decreases |schedule|
      {
        if schedule == [] {
          return Err(TimeoutError);
        }
        var chunk := Read(size - |buffer|);
        buffer := buffer + chunk;
      }
      r := Ok(buffer);
    }

    /** The magic search of `_read_frame`: slides a two-byte window over the stream. Returns with
        the window on the magic and the bytes behind it still pending. */
    method SkipToMagic() returns (found: bool, ghost skipped: nat)
      modifies this
      ensures found ==>
        skipped + 2 <= |old(pending)| && FirstMagic(old(pending), skipped) && pending == old(pending)[skipped + 2..]
      ensures !found ==> schedule == []
      ensures forall i: nat :: FirstMagic(old(pending), i) && i + 2 <= Productive(old(schedule)) ==>
        found && Productive(schedule) >= Productive(old(schedule)) - (i + 2)
    {
      var high: byte, low: byte := 0, 0;
      ghost var taken := 0;
      skipped := 0;
      while true
        invariant taken <= |old(pending)| && pending == old(pending)[taken..]
        invariant high == (if taken < 2 then 0 else old(pending)[taken - 2])
        invariant low == (if taken == 0 then 0 else old(pending)[taken - 1])
        invariant forall j: nat :: j + 2 <= taken ==> !MagicAt(old(pending), j)
        invariant forall i: nat :: FirstMagic(old(pending), i) && i + 2 <= Productive(old(schedule)) ==>
          taken < i + 2 && Productive(schedule) >= Productive(old(schedule)) - taken
        decreases |schedule|
      {
        if schedule == [] {
          return false, 0;
        }
        label before:
        high := low;
        var chunk := ReadExact(1);
        if chunk.Err? {
          return false, 0;
        }
        low := chunk.value[0];
        taken := taken + 1;
        assert old@before(pending) == chunk.value + pending;
        assert low == old(pending)[taken - 1];
        if high == MAGIC_HIGH && low == MAGIC_LOW {
          skipped := taken - 2;
          return true, skipped;
        }
      }
    }

    /** `_read_frame`: the next frame of the stream, whatever the stream does in between, or a
        timeout. With enough productive reads before the deadline it does not time out. */
    method ReadFrame() returns (r: Result<Frame, FrameError>, ghost consumed: nat)
      modifies this
      ensures r != Err(TimeoutError) ==>
        consumed <= |old(pending)| && Reads(old(pending), r, consumed) && pending == old(pending)[consumed..]
      ensures r == Err(TimeoutError) ==> schedule == []
      ensures forall x: Result<Frame, FrameError>, c: nat ::
        Reads(old(pending), x, c) && c <= Productive(old(schedule)) ==>
        r == x && consumed == c && Productive(schedule) >= Productive(old(schedule)) - c
    {
      hide Decode, U16At;
      ghost var s := pending;
      var found, skipped := SkipToMagic();
      if !found {
        return Err(TimeoutError), 0;
      }
      consumed := skipped;
      FirstMagicUnique(s, skipped);
      var rest := ReadExact(HEADER_SIZE - 2);
      if rest.Err? {
        return Err(TimeoutError), 0;
      }
      var header := [MAGIC_HIGH, MAGIC_LOW] + rest.value;
      assert header == s[skipped..skipped + HEADER_SIZE] && pending == s[skipped + HEADER_SIZE..];
      SliceU16(s, skipped, skipped + HEADER_SIZE, 3);
      var size := U16At(header, 3);
      if size > MAX_DATA_SIZE {
        r, consumed := Err(ArgumentError), skipped + HEADER_SIZE;
        assert ReadsAt(s, skipped, r, consumed);
        return;
      }
      var payload := ReadExact(size);
      if payload.Err? {
        return Err(TimeoutError), 0;
      }
      r, consumed := Decode(header + payload.value), skipped + HEADER_SIZE + size;
      assert header + payload.value == s[skipped..consumed] && pending == s[consumed..];
      assert ReadsAt(s, skipped, r, consumed);
      DecodeNeverTimesOut(header + payload.value);
    }

    /** Reads frames until `count` have come or something goes wrong. */
    method ReadFrames(count: nat, ghost segments: seq<Segment>)
      returns (frames: seq<Frame>, failure: Option<FrameError>)
      requires count == |segments| && AllQuiet(segments) && pending == Wire(segments)
      modifies this
      ensures failure.None? ==> frames == FramesOf(segments) && pending == []
      ensures failure.Some? ==> failure.value == TimeoutError && schedule == []
      ensures Productive(old(schedule)) >= |old(pending)| ==> failure.None?
    {
      hide Reads, Encode, FirstMagic;
      frames := [];
      for i := 0 to count
        invariant pending == Wire(segments[i..]) && frames == FramesOf(segments[..i])
        invariant Productive(old(schedule)) >= |old(pending)| ==> Productive(schedule) >= |pending|
      {
        var segment := segments[i];
        assert segments[i..][0] == segment && segments[i..][1..] == segments[i + 1..];
        ghost var s := pending;
        ghost var length := |segment.noise + Encode(segment.frame)|;
        WireStarts(segments[i..]);
        ResyncExact(segment.noise, segment.frame, Wire(segments[i + 1..]));
        var r, consumed := ReadFrame();
        if r == Err(TimeoutError) {
          return frames, Some(TimeoutError);
        }
        ReadsUnique(s, r, consumed, Ok(segment.frame), length);
        frames := frames + [r.value];
        assert segments[..i + 1] == segments[..i] + [segment];
        FramesOfSnoc(segments[..i], segment);
        assert s[length..] == Wire(segments[i + 1..]);
      }
      assert segments[count..] == [] && segments[..count] == segments;
      failure := None;
    }
  }

  lemma FirstMagicUnique(s: bytes, i: nat)
    requires FirstMagic(s, i)
    ensures forall j: nat :: FirstMagic(s, j) ==> j == i
  {
  }

  lemma SliceU16(s: bytes, lo: nat, hi: nat, i: nat)
    requires lo <= hi <= |s| && lo + i + 2 <= hi
    ensures U16At(s[lo..hi], i) == U16At(s, lo + i)
  {
  }

  lemma DecodeNeverTimesOut(raw: bytes)
    ensures Decode(raw) != Err(TimeoutError)
  {
    hide Crc16, U16At;
  }

  lemma ReadsUnique(s: bytes, r: Result<Frame, FrameError>, c: nat, x: Result<Frame, FrameError>, d: nat)
    requires Reads(s, r, c) && Reads(s, x, d)
    ensures r == x && c == d
  {
    hide Decode, U16At;
    var i: nat :| FirstMagic(s, i) && ReadsAt(s, i, r, c);
    FirstMagicUnique(s, i);
  }

  // ---------------------------------------------------------------------------
  // Resynchronisation

  /** In front of a frame, bytes without a magic pair are skipped and nothing else is; and only such
      bytes are. */
  lemma ResyncExact(noise: bytes, f: Frame, rest: bytes)
    ensures Reads(noise + Encode(f) + rest, Ok(f), |noise| + HEADER_SIZE + |f.payload|) <==> Quiet(noise)
  {
    if Quiet(noise) {
      QuietRead(noise, f, rest);
    } else {
      NoisyRead(noise, f, rest);
    }
  }

  lemma QuietRead(noise: bytes, f: Frame, rest: bytes)
    requires Quiet(noise)
    ensures Reads(noise + Encode(f) + rest, Ok(f), |noise| + HEADER_SIZE + |f.payload|)
  {
    hide Encode, Decode, U16At;
    var s, n, end := noise + Encode(f) + rest, |noise|, |noise| + HEADER_SIZE + |f.payload|;
    assert s[n..end] == Encode(f);
    EncodeStarts(f);
    assert FirstMagic(s, n) by {
      assert s[n] == Encode(f)[0] && s[n + 1] == Encode(f)[1];
      NoEarlierMagic(noise, f, rest);
    }
    SliceU16(s, n, end, 3);
    DecodeEncode(f);
    assert ReadsAt(s, n, Ok(f), end);
  }

  lemma EncodeStarts(f: Frame)
    ensures Encode(f)[0] == MAGIC_HIGH && Encode(f)[1] == MAGIC_LOW && U16At(Encode(f), 3) == |f.payload|
  {
    hide Crc16;
    var raw := Encode(f);
    assert raw[..HEADER_SIZE] == Header(KindCode(f.kind), f.payload);
    HeaderFields(KindCode(f.kind), f.payload, raw);
    assert raw[0] == raw[..HEADER_SIZE][0] == U16Be(MAGIC)[0];
    assert raw[1] == raw[..HEADER_SIZE][1] == U16Be(MAGIC)[1];
  }

  lemma NoEarlierMagic(noise: bytes, f: Frame, rest: bytes)
    requires Quiet(noise)
    ensures forall j: nat :: j < |noise| ==> !MagicAt(noise + Encode(f) + rest, j)
  {
    hide Encode;
    var s := noise + Encode(f) + rest;
    EncodeStarts(f);
    forall j: nat | j < |noise| ensures !MagicAt(s, j) {
      assert !MagicAt(noise, j);
      if j + 1 == |noise| {
        assert s[j + 1] == Encode(f)[0];
      } else {
        assert s[j] == noise[j] && s[j + 1] == noise[j + 1];
      }
    }
  }

  /** If the noise itself shows a magic pair, no read can return the frame and end where it ends: it
      would have to be longer than it is. */
  lemma NoisyRead(noise: bytes, f: Frame, rest: bytes)
    requires !Quiet(noise)
    ensures !Reads(noise + Encode(f) + rest, Ok(f), |noise| + HEADER_SIZE + |f.payload|)
  {
    hide Encode, U16At, Decode;
    var s, end := noise + Encode(f) + rest, |noise| + HEADER_SIZE + |f.payload|;
    var j: nat :| MagicAt(noise, j);
    assert MagicAt(s, j);
    if Reads(s, Ok(f), end) {
      var i: nat :| FirstMagic(s, i) && ReadsAt(s, i, Ok(f), end);
      assert i <= j;
      DecodedSize(s[i..end], f);
    }
  }

  lemma DecodedSize(raw: bytes, f: Frame)
    requires Decode(raw) == Ok(f)
    ensures |raw| == HEADER_SIZE + |f.payload|
  {
    hide Crc16;
  }

  /** One frame on the wire with the line noise in front of it. */
  datatype Segment = Segment(noise: bytes, frame: Frame)

  function Wire(segments: seq<Segment>): bytes {
    if segments == [] then [] else segments[0].noise + Encode(segments[0].frame) + Wire(segments[1..])
  }

  function FramesOf(segments: seq<Segment>): (r: seq<Frame>)
    ensures |r| == |segments|
  {
    seq(|segments|, i requires 0 <= i < |segments| => segments[i].frame)
  }

  ghost predicate AllQuiet(segments: seq<Segment>) {
    forall i :: 0 <= i < |segments| ==> Quiet(segments[i].noise)
  }

  lemma WireStarts(segments: seq<Segment>)
    requires segments != []
    ensures Wire(segments) == segments[0].noise + Encode(segments[0].frame) + Wire(segments[1..])
  {
  }

  lemma FramesOfSnoc(segments: seq<Segment>, last: Segment)
    ensures FramesOf(segments + [last]) == FramesOf(segments) + [last.frame]
  {
  }
}
