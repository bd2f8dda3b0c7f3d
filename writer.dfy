/**
 * The response writer: a state machine that lets the parts of a response be
 * written only in order (status line, headers, then a body or chunks, then
 * trailers), and the chunked transfer coding of section 7.1 of RFC 9112.  A
 * call made in the wrong state fails, writes nothing and keeps the state.
 */
module Writer {
  import opened Text
  import Headers
  import opened Response

  /** `writerState`, in the order the states are reached. */
  datatype WriterState = StatusLineState | HeadersState | BodyState | TrailersState

  function Rank(s: WriterState): nat {
    match s
    case StatusLineState => 0
    case HeadersState => 1
    case BodyState => 2
    case TrailersState => 3
  }

  /** The writer's operations. */
  datatype Op =
    | WriteStatusLineOp
    | WriteHeadersOp
    | WriteBodyOp
    | WriteChunkedBodyOp
    | WriteChunkedBodyDoneOp
    | WriteTrailersOp

  /** "cannot write ... in state %d": op was called in a state that does not allow it. */
  datatype WriteError = WrongState(op: Op, state: WriterState)

  // ---------------------------------------------------------------------------
  // The state machine

  /** The only state in which op is accepted. */
  function Guard(op: Op): WriterState {
    match op
    case WriteStatusLineOp => StatusLineState
    case WriteHeadersOp => HeadersState
    case WriteBodyOp => BodyState
    case WriteChunkedBodyOp => BodyState
    case WriteChunkedBodyDoneOp => BodyState
    case WriteTrailersOp => TrailersState
  }

  /** The state after op is accepted. */
  function After(op: Op): WriterState {
    match op
    case WriteStatusLineOp => HeadersState
    case WriteHeadersOp => BodyState
    case WriteBodyOp => TrailersState
    case WriteChunkedBodyOp => BodyState
    case WriteChunkedBodyDoneOp => TrailersState
    case WriteTrailersOp => TrailersState
  }

  /** One call from state s: the next state, or None when the call is rejected. */
  function Next(s: WriterState, op: Op): (r: Option<WriterState>)
    ensures r.Some? <==> s == Guard(op)
    ensures r.Some? ==> Rank(s) <= Rank(r.value) <= Rank(s) + 1
  {
    if s == Guard(op) then Some(After(op)) else None
  }

  /** The state after a new writer accepts every call of ops in turn; None when one is rejected. */
  function Play(ops: seq<Op>): Option<WriterState>
    decreases |ops|
  {
    if ops == [] then Some(StatusLineState)
    else match Play(ops[..|ops| - 1])
      case None => None
      case Some(s) => Next(s, ops[|ops| - 1])
  }

  /** The number of chunk writes at the front of ops. */
  function ChunkRun(ops: seq<Op>): (k: nat)
    ensures k <= |ops|
    ensures forall j :: 0 <= j < k ==> ops[j] == WriteChunkedBodyOp
    ensures k < |ops| ==> ops[k] != WriteChunkedBodyOp
  {
    if ops == [] || ops[0] != WriteChunkedBodyOp then 0 else 1 + ChunkRun(ops[1..])
  }

  /** What follows the headers: chunks, then one body write or the last chunk, then trailers; or a prefix of that. */
  predicate BodyPart(rest: seq<Op>) {
    var k := ChunkRun(rest);
    k == |rest|
    || ((rest[k] == WriteBodyOp || rest[k] == WriteChunkedBodyDoneOp)
        && forall j :: k < j < |rest| ==> rest[j] == WriteTrailersOp)
  }

  /** The calls a response is made of, in order: a prefix of status line, headers, chunks, body or last chunk, trailers. */
  predicate InOrder(ops: seq<Op>) {
    if |ops| == 0 then true
    else if |ops| == 1 then ops[0] == WriteStatusLineOp
    else ops[0] == WriteStatusLineOp && ops[1] == WriteHeadersOp && BodyPart(ops[2..])
  }

  /** The part of the response the calls of ops have reached. */
  function Reached(ops: seq<Op>): WriterState {
    if |ops| == 0 then StatusLineState
    else if |ops| == 1 then HeadersState
    else if ChunkRun(ops[2..]) == |ops| - 2 then BodyState
    else TrailersState
  }

  /**
   * A writer accepts every call of a sequence exactly when the calls come in
   * the order of a response, and then its state is the part reached.
   */
  lemma {:induction false} PlayInOrder(ops: seq<Op>)
    ensures Play(ops).Some? <==> InOrder(ops)
    ensures InOrder(ops) ==> Play(ops) == Some(Reached(ops))
    decreases |ops|
  {
    if ops != [] {
      var pre := ops[..|ops| - 1];
      var op := ops[|ops| - 1];
      assert ops == pre + [op];
      PlayInOrder(pre);
      if |pre| == 0 {
      } else if |pre| == 1 {
        assert ops[2..] == [];
      } else {
        assert ops[..2] == pre[..2];
        assert ops[2..] == pre[2..] + [op];
        BodyPartSnoc(pre[2..], op);
      }
    }
  }

  /** One more call after the headers, in terms of the part reached before it. */
  lemma BodyPartSnoc(rest: seq<Op>, op: Op)
    ensures var s := if ChunkRun(rest) == |rest| then BodyState else TrailersState;
            BodyPart(rest + [op]) <==> BodyPart(rest) && op != WriteStatusLineOp && op != WriteHeadersOp && Guard(op) == s
    ensures BodyPart(rest + [op]) ==>
              (After(op) == BodyState <==> ChunkRun(rest + [op]) == |rest| + 1)
  {
    ChunkRunSnoc(rest, op);
    if ChunkRun(rest) == |rest| {
      BodyPartAfterChunks(rest, op);
    } else {
      BodyPartAfterBody(rest, op);
    }
  }

  /** After chunk writes only, one more call keeps to the body part exactly when it is a body call. */
  lemma BodyPartAfterChunks(rest: seq<Op>, op: Op)
    requires ChunkRun(rest) == |rest|
    requires ChunkRun(rest + [op]) == if op == WriteChunkedBodyOp then |rest| + 1 else |rest|
    ensures BodyPart(rest + [op]) <==> Guard(op) == BodyState
    ensures BodyPart(rest + [op]) ==> (After(op) == BodyState <==> ChunkRun(rest + [op]) == |rest| + 1)
  {
    assert (rest + [op])[|rest|] == op;
  }

  /** After the body is written, one more call keeps to the body part exactly when it writes trailers. */
  lemma BodyPartAfterBody(rest: seq<Op>, op: Op)
    requires ChunkRun(rest) < |rest| && ChunkRun(rest + [op]) == ChunkRun(rest)
    ensures BodyPart(rest + [op]) <==> BodyPart(rest) && op == WriteTrailersOp
    ensures BodyPart(rest + [op]) ==> After(op) == TrailersState
  {
    var r := rest + [op];
    var k := ChunkRun(rest);
    assert r[k] == rest[k] && r[|rest|] == op;
    assert forall j :: k < j < |rest| ==> r[j] == rest[j];
  }

  /** Chunk writes at the front of rest + [op]. */
  lemma {:induction false} ChunkRunSnoc(rest: seq<Op>, op: Op)
    ensures ChunkRun(rest + [op]) ==
              if ChunkRun(rest) < |rest| then ChunkRun(rest)
              else if op == WriteChunkedBodyOp then |rest| + 1
              else |rest|
    decreases |rest|
  {
    if rest != [] {
      assert (rest + [op])[1..] == rest[1..] + [op];
      ChunkRunSnoc(rest[1..], op);
    }
  }

  // ---------------------------------------------------------------------------
  // Chunked transfer coding

  /** The last chunk: size 0, then the trailer section follows. */
  const LastChunk: string := "0\r\n"

  /** One chunk as `WriteChunkedBody` frames it: size in lower-case hex, CRLF, the data, CRLF. */
  function ChunkFrameAsWritten(p: string): (r: string)
    ensures |r| == |Hex(|p|)| + |p| + 4
  {
    Hex(|p|) + CRLF + p + CRLF
  }

  /**
   * The frame of p as a writer that evidently means a write of no bytes to
   * write nothing: the empty frame for empty data, the written frame otherwise.
   */
  function ChunkFrame(p: string): (r: string)
    ensures p == [] <==> r == []
  {
    if p == [] then [] else ChunkFrameAsWritten(p)
  }

  /** The frames of the pieces, one after another. */
  function Frames(pieces: seq<string>): string {
    if pieces == [] then [] else ChunkFrame(pieces[0]) + Frames(pieces[1..])
  }

  /** The frames of the pieces as `WriteChunkedBody` writes them, one after another. */
  function FramesAsWritten(pieces: seq<string>): string {
    if pieces == [] then [] else ChunkFrameAsWritten(pieces[0]) + FramesAsWritten(pieces[1..])
  }

  /** A chunked body read back: the data of its chunks, and what follows the last chunk. */
  datatype Chunked = Chunked(body: string, rest: string)

  /** Where the CRLF after a chunk's size is, and the size. */
  datatype Head = Head(at: nat, size: nat)

  /**
   * The head of a chunk: where the CRLF after its size is and the size it
   * gives (lower-case hex, as the writer puts it), provided a chunk with data
   * is followed by its CRLF.  None when the chunk is malformed or cut short.
   */
  function ChunkHead(data: string): (r: Option<Head>)
    ensures r.Some? ==> 0 < r.value.at && r.value.at + 2 <= |data|
    ensures r.Some? && r.value.size > 0 ==> r.value.at + 4 + r.value.size <= |data|
  {
    var i := IndexOfCrlf(data);
    if i <= 0 || !IsDigits(data[..i], 16) then None
    else
      var size := DigitsToNat(data[..i], 16);
      if size == 0 then Some(Head(i, 0))
      else if |data| < i + 4 + size || data[i + 2 + size..i + 4 + size] != CRLF then None
      else Some(Head(i, size))
  }

  /**
   * How a recipient reads a chunked body: chunk after chunk, each a size line,
   * that much data and CRLF; size 0 ends the body and leaves what follows (the
   * trailer section).  None on a malformed chunk.
   */
  function DecodeChunked(data: string): (r: Option<Chunked>)
    decreases |data|
  {
    match ChunkHead(data)
    case None => None
    case Some(Head(i, size)) =>
      if size == 0 then Some(Chunked([], data[i + 2..]))
      else Prepend(data[i + 2..i + 2 + size], DecodeChunked(data[i + 4 + size..]))
  }

  /** The data of one chunk in front of what the chunks after it read back as. */
  function Prepend(p: string, r: Option<Chunked>): Option<Chunked> {
    match r
    case None => None
    case Some(c) => Some(Chunked(p + c.body, c.rest))
  }

  /** Reading a chunk with data p followed by more: p, then what more reads back as. */
  lemma DecodeChunkedStep(data: string, p: string, more: string)
    requires ChunkHead(data).Some? && ChunkHead(data).value.size > 0
    requires var h := ChunkHead(data).value;
             data[h.at + 2..h.at + 2 + h.size] == p && data[h.at + 4 + h.size..] == more
    ensures DecodeChunked(data) == Prepend(p, DecodeChunked(more))
  {
  }

  /** The last chunk ends the body at once and leaves what follows it. */
  lemma DecodeLastChunk(tail: string)
    ensures DecodeChunked(LastChunk + tail) == Some(Chunked([], tail))
  {
    var data := LastChunk + tail;
    assert ChunkHead(data) == Some(Head(1, 0)) by {
      assert data == "0" + CRLF + tail;
      IndexOfCrlfAfterLine("0", tail);
      assert data[..1] == "0";
      assert DigitsToNat("0", 16) == 0 by {
        assert "0"[..0] == [];
      }
    }
    assert data[3..] == tail;
  }

  /** Where the parts of a frame sit in the frame and what follows it. */
  lemma FrameParts(h: string, p: string, more: string)
    ensures var data := h + CRLF + p + CRLF + more;
            var i := |h|;
            data == h + CRLF + (p + CRLF + more)
            && |data| >= i + 4 + |p| && data[..i] == h
            && data[i + 2..i + 2 + |p|] == p && data[i + 2 + |p|..i + 4 + |p|] == CRLF
            && data[i + 4 + |p|..] == more
  {
  }

  /** A chunk written with non-empty data is read back, and reading goes on after it. */
  lemma DecodeChunk(p: string, more: string)
    requires p != []
    ensures DecodeChunked(ChunkFrameAsWritten(p) + more) == Prepend(p, DecodeChunked(more))
  {
    var data := ChunkFrameAsWritten(p) + more;
    FrameHead(p, more);
    FrameParts(Hex(|p|), p, more);
    DecodeChunkedStep(data, p, more);
  }

  /** The head of a written frame gives the size of its data. */
  lemma FrameHead(p: string, more: string)
    requires p != []
    ensures var h := ChunkHead(ChunkFrameAsWritten(p) + more);
            h.Some? && h.value.at == |Hex(|p|)| && h.value.size == |p|
  {
    var h := Hex(|p|);
    FrameParts(h, p, more);
    IndexOfCrlfAfterLine(h, p + CRLF + more);
    HexRoundTrip(|p|);
  }

  /**
   * Round trip: the frames of any pieces, then the last chunk, read back as
   * all the pieces' bytes, with what follows the last chunk left over.
   */
  lemma {:induction false} ChunkedRoundTrip(pieces: seq<string>, tail: string)
    ensures DecodeChunked(Frames(pieces) + LastChunk + tail) == Some(Chunked(Concat(pieces), tail))
    decreases |pieces|
  {
    if pieces == [] {
      assert Frames(pieces) + LastChunk + tail == LastChunk + tail;
      DecodeLastChunk(tail);
    } else {
      var p := pieces[0];
      var more := Frames(pieces[1..]) + LastChunk + tail;
      ChunkedRoundTrip(pieces[1..], tail);
      FramesCons(pieces, tail);
      if p == [] {
        assert ChunkFrame(p) + more == more && p + Concat(pieces[1..]) == Concat(pieces[1..]);
      } else {
        DecodeChunk(p, more);
      }
    }
  }

  /**
   * The round trip of the writer as written: chunk writes of non-empty pieces,
   * then the last chunk, read back as all the pieces' bytes.  (An empty piece
   * would end the body; see EmptyChunkEndsBody.)
   */
  lemma ChunkedRoundTripAsWritten(pieces: seq<string>, tail: string)
    requires forall i :: 0 <= i < |pieces| ==> pieces[i] != []
    ensures DecodeChunked(FramesAsWritten(pieces) + LastChunk + tail) == Some(Chunked(Concat(pieces), tail))
  {
    FramesAgree(pieces);
    ChunkedRoundTrip(pieces, tail);
  }

  /** For non-empty pieces the written frames are the intended ones. */
  lemma {:induction false} FramesAgree(pieces: seq<string>)
    requires forall i :: 0 <= i < |pieces| ==> pieces[i] != []
    ensures FramesAsWritten(pieces) == Frames(pieces)
    decreases |pieces|
  {
    if pieces != [] {
      assert pieces[0] != [];
      FramesAgree(pieces[1..]);
    }
  }

  /** The frames of pieces and the last chunk: the first frame, then the rest. */
  lemma FramesCons(pieces: seq<string>, tail: string)
    requires pieces != []
    ensures Frames(pieces) + LastChunk + tail == ChunkFrame(pieces[0]) + (Frames(pieces[1..]) + LastChunk + tail)
    ensures Concat(pieces) == pieces[0] + Concat(pieces[1..])
  {
    var f, fs := ChunkFrame(pieces[0]), Frames(pieces[1..]);
    assert Frames(pieces) == f + fs;
    assert (f + fs) + LastChunk + tail == f + (fs + LastChunk + tail);
  }

  /**
   * As written, a chunk write of no bytes puts `0` CRLF CRLF on the wire: the
   * last chunk and an empty trailer section.  Whatever is written after it is
   * no longer part of the body.
   */
  lemma EmptyChunkEndsBody(more: string)
    ensures DecodeChunked(ChunkFrameAsWritten([]) + more) == Some(Chunked([], CRLF + more))
  {
    assert Hex(0) == "0";
    assert ChunkFrameAsWritten([]) + more == LastChunk + (CRLF + more);
    DecodeLastChunk(CRLF + more);
  }

  /** So an empty write between two chunks loses the second: the body read back is empty. */
  lemma EmptyChunkLosesData(p: string)
    requires p != []
    ensures var wire := ChunkFrameAsWritten([]) + ChunkFrameAsWritten(p) + LastChunk;
            DecodeChunked(wire) == Some(Chunked([], CRLF + ChunkFrameAsWritten(p) + LastChunk))
            && Concat([[], p]) == p
  {
    var rest := ChunkFrameAsWritten(p) + LastChunk;
    assert ChunkFrameAsWritten([]) + ChunkFrameAsWritten(p) + LastChunk == ChunkFrameAsWritten([]) + rest;
    EmptyChunkEndsBody(rest);
    assert CRLF + rest == CRLF + ChunkFrameAsWritten(p) + LastChunk;
    assert Concat([[], p]) == [] + Concat([p]);
    assert Concat([p]) == p + Concat([]);
  }

  /** The three writes of a chunk put its frame after what was written before. */
  lemma FrameWrites(before: string, p: string)
    ensures before + (Hex(|p|) + CRLF) + p + CRLF == before + ChunkFrameAsWritten(p)
  {
  }

  // ---------------------------------------------------------------------------
  // The writer

  /** `Writer`: the state and the sink it writes to. */
  class Writer {
    var writerState: WriterState
    var writer: Sink

    /** `NewWriter`: a writer at the status line. */
    constructor (w: Sink)
      ensures writerState == StatusLineState && writer == w
    {
      writerState := StatusLineState;
      writer := w;
    }

    /** `WriteStatusLine`: only first; then the headers are due. */
    method WriteStatusLine(code: StatusCode) returns (err: Option<WriteError>)
      modifies this, writer
      ensures writer == old(writer)
      ensures err.None? <==> old(writerState) == Guard(WriteStatusLineOp)
      ensures err.Some? ==> err.value == WrongState(WriteStatusLineOp, old(writerState))
                            && writerState == old(writerState) && writer.data == old(writer.data)
      ensures err.None? ==> Some(writerState) == Next(old(writerState), WriteStatusLineOp)
                            && writer.data == old(writer.data) + StatusLine(code)
    {
      if writerState != StatusLineState {
        return Some(WrongState(WriteStatusLineOp, writerState));
      }
      Response.WriteStatusLine(writer, code);
      writerState := HeadersState;
      err := None;
    }

    /** `WriteHeaders`: only after the status line; one line per entry, an empty line, then the body is due. */
    method WriteHeaders(h: map<string, string>) returns (err: Option<WriteError>, ghost order: seq<string>)
      modifies this, writer
      ensures writer == old(writer)
      ensures err.None? <==> old(writerState) == Guard(WriteHeadersOp)
      ensures err.Some? ==> err.value == WrongState(WriteHeadersOp, old(writerState))
                            && writerState == old(writerState) && writer.data == old(writer.data)
      ensures err.None? ==> Some(writerState) == Next(old(writerState), WriteHeadersOp)
                            && Headers.IsOrdering(order, h.Keys)
                            && writer.data == old(writer.data) + Headers.FieldLines(h, order) + CRLF
    {
      order := [];
      if writerState != HeadersState {
        return Some(WrongState(WriteHeadersOp, writerState)), order;
      }
      order := Response.WriteHeaders(writer, h);
      writerState := BodyState;
      err := None;
    }

    /** `WriteBody`: the whole body at once, as is; then only trailers are allowed. */
    method WriteBody(p: string) returns (n: nat, err: Option<WriteError>)
      modifies this, writer
      ensures writer == old(writer)
      ensures err.None? <==> old(writerState) == Guard(WriteBodyOp)
      ensures err.Some? ==> n == 0 && err.value == WrongState(WriteBodyOp, old(writerState))
                            && writerState == old(writerState) && writer.data == old(writer.data)
      ensures err.None? ==> n == |p| && Some(writerState) == Next(old(writerState), WriteBodyOp)
                            && writer.data == old(writer.data) + p
    {
      if writerState != BodyState {
        return 0, Some(WrongState(WriteBodyOp, writerState));
      }
      writer.Write(p);
      writerState := TrailersState;
      n, err := |p|, None;
    }

    /** `WriteTrailers`: only after the body; like the header block, and the state stays. */
    method WriteTrailers(h: map<string, string>) returns (err: Option<WriteError>, ghost order: seq<string>)
      modifies this, writer
      ensures writer == old(writer)
      ensures err.None? <==> old(writerState) == Guard(WriteTrailersOp)
      ensures err.Some? ==> err.value == WrongState(WriteTrailersOp, old(writerState))
                            && writerState == old(writerState) && writer.data == old(writer.data)
      ensures err.None? ==> Some(writerState) == Next(old(writerState), WriteTrailersOp)
                            && Headers.IsOrdering(order, h.Keys)
                            && writer.data == old(writer.data) + Headers.FieldLines(h, order) + CRLF
    {
      order := [];
      if writerState != TrailersState {
        return Some(WrongState(WriteTrailersOp, writerState)), order;
      }
      order := Response.WriteHeaders(writer, h);
      err := None;
    }

    /**
     * `WriteChunkedBody`: one chunk of the body, framed; the state stays at the
     * body.  A write of no bytes still writes its frame, which a reader takes
     * for the last chunk (see EmptyChunkEndsBody).
     */
    method WriteChunkedBody(p: string) returns (n: nat, err: Option<WriteError>)
      modifies this, writer
      ensures writer == old(writer)
      ensures err.None? <==> old(writerState) == Guard(WriteChunkedBodyOp)
      ensures err.Some? ==> n == 0 && err.value == WrongState(WriteChunkedBodyOp, old(writerState))
                            && writerState == old(writerState) && writer.data == old(writer.data)
      ensures err.None? ==> n == |p| && Some(writerState) == Next(old(writerState), WriteChunkedBodyOp)
                            && writer.data == old(writer.data) + ChunkFrameAsWritten(p)
    {
      if writerState != BodyState {
        return 0, Some(WrongState(WriteChunkedBodyOp, writerState));
      }
      ghost var before := writer.data;
      writer.Write(Hex(|p|) + CRLF);
      writer.Write(p);
      writer.Write(CRLF);
      FrameWrites(before, p);
      n, err := |p|, None;
    }

    /** `WriteChunkedBodyDone`: the last chunk, 3 bytes; then only trailers are allowed. */
    method WriteChunkedBodyDone() returns (n: nat, err: Option<WriteError>)
      modifies this, writer
      ensures writer == old(writer)
      ensures err.None? <==> old(writerState) == Guard(WriteChunkedBodyDoneOp)
      ensures err.Some? ==> n == 0 && err.value == WrongState(WriteChunkedBodyDoneOp, old(writerState))
                            && writerState == old(writerState) && writer.data == old(writer.data)
      ensures err.None? ==> n == |LastChunk| && Some(writerState) == Next(old(writerState), WriteChunkedBodyDoneOp)
                            && writer.data == old(writer.data) + LastChunk
    {
      if writerState != BodyState {
        return 0, Some(WrongState(WriteChunkedBodyDoneOp, writerState));
      }
      writer.Write(LastChunk);
      writerState := TrailersState;
      n, err := 3, None;
    }
  }
}
