/**
 * The request object and the loop that fills it from a byte stream.  A
 * `Request` holds the fields `parseSingle` and `parse` update in place, and is
 * proved to move exactly as `Step` and `Drive` say.  `RequestFromReader` reads
 * into a growable buffer, parses what the buffer holds and shifts the unparsed
 * bytes to the front; whatever way the stream is cut into reads, a request that
 * the whole stream completes is read back the same.
 */
module Request {
  import opened Text
  import Headers
  import opened StartLine
  import opened Parser

  /** `bufferSize`: the first capacity of the read buffer. */
  const BufferSize: nat := 8

  /** `Request`: the request-line, the header table, the parser stage and the body read so far. */
  class Request {
    var requestLine: RequestLine
    var headers: Headers.Headers
    var state: State
    var body: string

    ghost predicate Valid()
      reads this, headers
    {
      headers.Valid()
    }

    /** The request as the pure parser sees it. */
    function Current(): Snapshot
      reads this, headers
    {
      Snapshot(requestLine, headers.fields, state, body)
    }

    /** The request `RequestFromReader` starts from: Initialized, with an empty header table. */
    constructor ()
      ensures Valid() && fresh(headers)
      ensures Current() == Initial
    {
      requestLine := RequestLine("", "", "");
      headers := new Headers.Headers();
      state := Initialized;
      body := [];
    }

    /** `parseSingle`: one step of the current stage on the unparsed bytes. */
    method ParseSingle(data: string) returns (n: nat, err: Option<RequestError>)
      requires Valid()
      modifies this, headers
      ensures Valid() && headers == old(headers)
      ensures Outcome(n, err, Current()) == StepFn(old(Current()), data)
    {
      ghost var want := Step(Current(), data);
      match state
      case Initialized =>
        match ParseRequestLine(data) {
          case LinePending =>
            return 0, None;
          case Failed(e) =>
            return 0, Some(StartLineError(e));
          case Parsed(rl, k) =>
            requestLine := rl;
            state := ParsingHeaders;
            return k, None;
        }
      case ParsingHeaders =>
        var k, done, e := headers.Parse(data);
        if e.Some? {
          return 0, Some(FieldError(e.value));
        }
        if done {
          state := ParsingBody;
        }
        return k, None;
      case ParsingBody =>
        if ContentLength !in headers.fields {
          state := Done;
          return |data|, None;
        }
        body := body + data;
        var declared := headers.fields[ContentLength];
        var limit := Atoi(declared);
        if limit.None? {
          return 0, Some(InvalidContentLength(declared));
        }
        if |body| > limit.value {
          return 0, Some(BodyTooLong);
        }
        if |body| == limit.value {
          state := Done;
        }
        return |data|, None;
      case Done =>
        return 0, Some(ReadAfterDone);
    }

    /**
     * `parse`: repeat `parseSingle` on the bytes not yet consumed until the
     * request is done, a step fails (then 0 bytes are reported) or a step
     * consumes nothing.
     */
    method Parse(data: string) returns (n: nat, err: Option<RequestError>)
      requires Valid()
      modifies this, headers
      ensures Valid() && headers == old(headers)
      ensures Outcome(n, err, Current()) == Drive(old(Current()), data)
    {
      ghost var start := Current();
      ExtendZero(Drive(start, data));
      var total := 0;
      while state != Done
        invariant Valid() && headers == old(headers)
        invariant ParsedUpTo(start, data, total, Current())
        decreases |data| - total
      {
        ghost var v := Current();
        var k, e := ParseSingle(data[total..]);
        if e.Some? || k == 0 {
          DriveStepStops(v, data[total..], Outcome(k, e, Current()));
          if e.Some? {
            return 0, e;
          }
          return total, None;
        }
        var next := total + k;
        DriveAdvance(start, data, total, v, k, next, Current());
        total := next;
      }
      return total, None;
    }
  }

  /** A step of `parse` that consumes k bytes leaves the rest of the call to the bytes after them. */
  lemma DriveStepMoves(v: Snapshot, d: string, k: nat, w: Snapshot)
    requires v.state != Done && Outcome(k, None, w) == StepFn(v, d) && k > 0
    ensures k <= |d| && Drive(v, d) == Extend(k, Drive(w, d[k..]))
  {
    DriveIsRun(v, d);
    DriveIsRun(w, d[k..]);
    RunSteps(Step, v, d);
  }

  /**
   * `parse` from start on data, with total bytes consumed so far and the
   * request now at v: the rest of the call is `parse` from v on the bytes after
   * the first total.
   */
  ghost predicate ParsedUpTo(start: Snapshot, data: string, total: nat, v: Snapshot) {
    total <= |data| && Drive(start, data) == Extend(total, Drive(v, data[total..]))
  }

  /** After a step that consumes k bytes at total, the rest of the call starts at total + k. */
  lemma DriveAdvance(start: Snapshot, data: string, total: nat, v: Snapshot, k: nat, next: nat, w: Snapshot)
    requires ParsedUpTo(start, data, total, v) && next == total + k
    requires v.state != Done && Outcome(k, None, w) == StepFn(v, data[total..]) && k > 0
    ensures ParsedUpTo(start, data, next, w)
  {
    var d := data[total..];
    var rest := Drive(w, data[next..]);
    DriveStepMoves(v, d, k, w);
    DropDrop(data, total, k, next);
    assert Drive(v, d) == Extend(k, rest);
    ExtendExtend(total, k, next, rest);
  }

  /** A step of `parse` that fails, or consumes nothing, ends the call. */
  lemma DriveStepStops(v: Snapshot, d: string, o: Outcome)
    requires v.state != Done && o == StepFn(v, d) && (o.err.Some? || o.n == 0)
    ensures Drive(v, d) == Outcome(0, o.err, o.next)
  {
    DriveIsRun(v, d);
    if o.err.Some? {
      RunFails(Step, v, d);
    } else {
      RunIdle(Step, v, d);
    }
  }

  /** The first k bytes of a + b, when a has that many, are the first k of a. */
  lemma TakeAppend(a: string, b: string, k: nat)
    requires k <= |a|
    ensures (a + b)[..k] == a[..k]
  {
  }

  /**
   * An `io.Reader` over a fixed byte stream cut into non-empty chunks.  A read
   * returns bytes of the front chunk only, as many as fit in the space given;
   * once nothing is left it reports EOF and returns no bytes.
   */
  class ChunkReader {
    var chunks: seq<string>

    ghost predicate Valid()
      reads this
    {
      forall i :: 0 <= i < |chunks| ==> chunks[i] != []
    }

    /** The bytes not yet read. */
    function Remaining(): string
      reads this
    {
      Concat(chunks)
    }

    constructor (chunks: seq<string>)
      requires forall i :: 0 <= i < |chunks| ==> chunks[i] != []
      ensures Valid() && this.chunks == chunks
    {
      this.chunks := chunks;
    }

    /**
     * `Read(p[from:])`: copy the next bytes of the stream to the front of that
     * space, leave the rest of p alone, and report EOF exactly when the stream is
     * used up.
     */
    method Read(p: array<char>, from: nat) returns (n: nat, eof: bool)
      requires Valid() && from < p.Length
      modifies this, p
      ensures Valid()
      ensures eof <==> old(Remaining()) == []
      ensures eof ==> n == 0
      ensures !eof ==> 0 < n <= p.Length - from && n <= |old(Remaining())|
      ensures p[from..from + n] == old(Remaining())[..n]
      ensures p[..from] == old(p[..from]) && p[from + n..] == old(p[from + n..])
      ensures Remaining() == old(Remaining())[n..]
    {
      if chunks == [] {
        return 0, true;
      }
      var head, rest := chunks[0], chunks[1..];
      assert Concat(chunks) == head + Concat(rest);
      n := if |head| < p.Length - from then |head| else p.Length - from;
      var i := 0;
      while i < n
        modifies p
        invariant 0 <= i <= n
        invariant p[..from] == old(p[..from]) && p[from + n..] == old(p[from + n..])
        invariant p[from..from + i] == head[..i]
      {
        p[from + i] := head[i];
        i := i + 1;
      }
      TakeAppend(head, Concat(rest), n);
      DropAppend(head, Concat(rest), n);
      if n == |head| {
        chunks := rest;
      } else {
        chunks := [head[n..]] + rest;
        assert chunks[1..] == rest;
      }
      eof := false;
    }
  }

  /** Nothing read yet: `parse` waits for the request-line. */
  lemma DriveEmpty()
    ensures Drive(Initial, []) == Outcome(0, None, Initial)
  {
    assert IndexOfCrlf([]) == -1;
    assert Step(Initial, []) == Outcome(0, None, Initial);
    DriveIsRun(Initial, []);
    RunIdle(Step, Initial, []);
  }

  /**
   * The buffer loop resumes `parse` where it stopped: with the request at w after
   * all of c but its last `kept` bytes, `parse` on those bytes and the chunk just
   * read is `parse` on c and the chunk, shifted by what was consumed before.
   */
  lemma DriveResume(c: string, kept: nat, w: Snapshot, chunk: string, window: string, np: nat, perr: Option<RequestError>, w2: Snapshot)
    requires kept <= |c| && w.state != Done
    requires Drive(Initial, c) == Outcome(|c| - kept, None, w)
    requires window == c[|c| - kept..] + chunk && Outcome(np, perr, w2) == Drive(w, window)
    ensures perr.Some? ==> Drive(Initial, c + chunk).err == perr
    ensures perr.None? ==>
              np <= kept + |chunk| && Drive(Initial, c + chunk) == Outcome(|c| - kept + np, None, w2)
  {
    DriveIsRun(Initial, c);
    DriveIsRun(Initial, c + chunk);
    DriveIsRun(w, window);
    StepLawful();
    RunResume(Step, Initial, c, kept, w, chunk);
  }

  /**
   * The last k bytes of c, then x, are the last k + |x| bytes of c + x; so
   * dropping np of them leaves the last r = k + |x| - np bytes of c + x.
   */
  lemma SuffixShift(c: string, x: string, k: nat, window: string, np: nat, r: int)
    requires k <= |c| && window == c[|c| - k..] + x
    requires np <= k + |x| && r == k + |x| - np
    ensures 0 <= r <= |c + x| && window[np..] == (c + x)[|c + x| - r..]
  {
    assert window == (c + x)[|c + x| - (k + |x|)..];
  }

  /** A buffer twice as large whose front holds the old buffer. */
  method Grow(buf: array<char>) returns (bigger: array<char>)
    ensures fresh(bigger) && bigger.Length == 2 * buf.Length
    ensures bigger[..buf.Length] == buf[..]
  {
    bigger := new char[buf.Length * 2];
    forall i | 0 <= i < buf.Length {
      bigger[i] := buf[i];
    }
  }

  /** `copy(buf, buf[np:])`: the bytes from np on move to the front, the tail stays. */
  method ShiftLeft(buf: array<char>, np: nat)
    requires np <= buf.Length
    modifies buf
    ensures buf[..buf.Length - np] == old(buf[np..])
    ensures buf[buf.Length - np..] == old(buf[buf.Length - np..])
  {
    forall i | 0 <= i < buf.Length - np {
      buf[i] := buf[i + np];
    }
  }

  /** The first k + n elements of s are its first k, then the n after them. */
  lemma SplitAt(s: string, k: nat, n: nat)
    requires k + n <= |s|
    ensures s[..k + n] == s[..k] + s[k..k + n]
  {
  }

  /** A string is its first n elements followed by the rest. */
  lemma TakeDrop(s: string, n: nat)
    requires n <= |s|
    ensures s == s[..n] + s[n..]
  {
  }

  /** After the shift, the first r - np bytes are the old bytes np up to r. */
  lemma ShiftedWindow(before: string, after: string, np: nat, r: nat)
    requires np <= r <= |before| == |after| && after[..|after| - np] == before[np..]
    ensures after[..r - np] == before[np..r]
  {
    assert after[..r - np] == after[..|after| - np][..r - np];
  }

  /**
   * One read of the loop: double the buffer when it is full, then read into the
   * space after the `readToIndex` bytes it holds, which stay in front.
   */
  method ReadMore(reader: ChunkReader, buf: array<char>, readToIndex: nat) returns (next: array<char>, n: nat, eof: bool)
    requires reader.Valid() && 0 < buf.Length && readToIndex <= buf.Length
    modifies reader, buf
    ensures reader.Valid()
    ensures next == buf || fresh(next)
    ensures 0 < next.Length && readToIndex + n <= next.Length
    ensures readToIndex < buf.Length ==> next == buf
    ensures readToIndex == buf.Length ==> next.Length == 2 * buf.Length
    ensures eof <==> old(reader.Remaining()) == []
    ensures eof ==> n == 0
    ensures !eof ==> 0 < n
    ensures n <= |old(reader.Remaining())|
    ensures next[..readToIndex + n] == old(buf[..readToIndex]) + old(reader.Remaining())[..n]
    ensures reader.Remaining() == old(reader.Remaining())[n..]
  {
    next := buf;
    if readToIndex >= buf.Length {
      next := Grow(buf);
      assert next[..readToIndex] == next[..buf.Length][..readToIndex];
    }
    n, eof := reader.Read(next, readToIndex);
    SplitAt(next[..], readToIndex, n);
  }

  /**
   * The rest of one turn: `parse` what the buffer holds and, when that
   * succeeds, shift the bytes it did not consume to the front.
   */
  method ParseBuffered(req: Request, buf: array<char>, readToIndex: nat) returns (np: nat, err: Option<RequestError>)
    requires req.Valid() && readToIndex <= buf.Length
    modifies req, req.headers, buf
    ensures req.Valid() && req.headers == old(req.headers)
    ensures Outcome(np, err, req.Current()) == Drive(old(req.Current()), old(buf[..readToIndex]))
    ensures np <= readToIndex
    ensures err.None? ==> buf[..readToIndex - np] == old(buf[..readToIndex])[np..]
  {
    np, err := req.Parse(buf[..readToIndex]);
    DriveIsRun(old(req.Current()), old(buf[..readToIndex]));
    if err.None? {
      ghost var whole := buf[..];
      ShiftLeft(buf, np);
      ShiftedWindow(whole, buf[..], np, readToIndex);
    }
  }

  /** Reading n bytes of what is left moves them from the rest to what was read. */
  lemma Advance(stream: string, c: string, before: string, n: nat)
    requires stream == c + before && n <= |before|
    ensures stream == (c + before[..n]) + before[n..]
  {
    TakeDrop(before, n);
    AppendAssoc(c, before[..n], before[n..]);
  }

  /**
   * One turn of the loop, on values: c was read so far, its last `kept` bytes
   * still buffered, with the request at w; a read returns `chunk`, and `parse`
   * on the buffer gives (np, perr, w2).  A parse error is then the one `parse`
   * meets on everything read, and on the whole stream whatever `rest` follows,
   * so the read fails as `RequestFromReader` promises.
   */
  lemma TurnFails(stream: string, c: string, kept: nat, w: Snapshot, chunk: string, rest: string,
                  window: string, np: nat, perr: Option<RequestError>, w2: Snapshot)
    requires stream == (c + chunk) + rest
    requires kept <= |c| && w.state != Done
    requires Drive(Initial, c) == Outcome(|c| - kept, None, w)
    requires window == c[|c| - kept..] + chunk && Outcome(np, perr, w2) == Drive(w, window)
    requires perr.Some?
    ensures Failed(stream, c + chunk, rest, perr)
  {
    DriveResume(c, kept, w, chunk, window, np, perr, w2);
    DriveErrorPersists(Initial, c + chunk, rest);
  }

  /**
   * The same turn when `parse` succeeds (see TurnFails for the names): the r
   * bytes left in the buffer are the last r read, and the request is where
   * `parse` on everything read leaves it.
   */
  lemma TurnMoves(c: string, kept: nat, w: Snapshot, chunk: string,
                  window: string, np: nat, w2: Snapshot, r: int)
    requires kept <= |c| && w.state != Done
    requires Drive(Initial, c) == Outcome(|c| - kept, None, w)
    requires window == c[|c| - kept..] + chunk && Outcome(np, None, w2) == Drive(w, window)
    requires r == kept + |chunk| - np
    ensures np <= |window| && r == |window| - np && Buffered(c + chunk, window[np..], w2)
  {
    var read, held := c + chunk, window[np..];
    DriveResume(c, kept, w, chunk, window, np, None, w2);
    SuffixShift(c, chunk, kept, window, np, r);
    assert |held| == r && |read| - |held| == |c| - kept + np;
    assert held == read[|read| - |held|..];
    assert Drive(Initial, read) == Outcome(|read| - |held|, None, w2);
  }

  /** The loop ends at EOF: the whole stream was read and `parse` stopped short of Done. */
  lemma EndOfStream(stream: string, consumed: string, rest: string, kept: nat, w: Snapshot)
    requires stream == consumed + rest && rest == [] && kept <= |consumed|
    requires Drive(Initial, consumed) == Outcome(|consumed| - kept, None, w) && w.state != Done
    ensures consumed == stream && !Completes(Initial, stream)
  {
    assert consumed + [] == consumed;
  }

  /** The loop ends at Done: the request is what `parse` makes of the bytes read, and of the whole stream when that completes. */
  lemma EndOfRequest(stream: string, consumed: string, rest: string, kept: nat, w: Snapshot)
    requires stream == consumed + rest && kept <= |consumed|
    requires Drive(Initial, consumed) == Outcome(|consumed| - kept, None, w) && w.state == Done
    ensures Completes(Initial, consumed) && w == Drive(Initial, consumed).next
    ensures Completes(Initial, stream) ==> w == Drive(Initial, stream).next
  {
    if Completes(Initial, stream) {
      DriveDoneExtend(Initial, consumed, rest);
    }
  }

  /** The loop's hold on its state: the buffer holds the last bytes read, which `parse` left over, with the request at w. */
  ghost predicate Buffered(consumed: string, held: string, w: Snapshot)
  {
    |held| <= |consumed| && held == consumed[|consumed| - |held|..]
    && Drive(Initial, consumed) == Outcome(|consumed| - |held|, None, w)
  }

  /** How a read of `stream` can fail, once `consumed` of it was read and `rest` is left. */
  ghost predicate Failed(stream: string, consumed: string, rest: string, err: Option<RequestError>)
  {
    err.Some? && !Completes(Initial, stream)
    && (Drive(Initial, consumed).err.Some? ==> err == Drive(Initial, consumed).err)
    && (Drive(Initial, consumed).err.None? ==>
          rest == [] && Drive(Initial, consumed).next.state != Done
          && err == Some(Incomplete(Drive(Initial, consumed).next.state)))
  }

  /**
   * The parsing half of a turn: c was read before, its last `kept` bytes are
   * still in the buffer with the request at w, and a read appended `chunk`
   * to them; `rest` is what the reader still holds.  Parse the buffer and
   * shift what is left over to its front.
   */
  method Resume(req: Request, buf: array<char>, readTo: nat, ghost stream: string, ghost c: string,
                ghost kept: nat, ghost w: Snapshot, ghost chunk: string, ghost rest: string)
    returns (left: nat, err: Option<RequestError>, ghost read: string)
    requires req.Valid() && readTo <= buf.Length && req.Current() == w && w.state != Done
    requires stream == (c + chunk) + rest
    requires kept <= |c| && Drive(Initial, c) == Outcome(|c| - kept, None, w)
    requires buf[..readTo] == c[|c| - kept..] + chunk
    modifies req, req.headers, buf
    ensures req.Valid() && req.headers == old(req.headers)
    ensures read == c + chunk
    ensures err.None? ==> left <= readTo && Buffered(read, buf[..left], req.Current())
    ensures err.Some? ==> Failed(stream, read, rest, err)
  {
    ghost var window := buf[..readTo];
    var np;
    np, err := ParseBuffered(req, buf, readTo);
    read := c + chunk;
    left := readTo - np;
    if err.Some? {
      TurnFails(stream, c, kept, w, chunk, rest, window, np, err, req.Current());
    } else {
      TurnMoves(c, kept, w, chunk, window, np, req.Current(), left);
      assert buf[..left] == window[np..];
    }
  }

  /**
   * One turn of the loop of `RequestFromReader`: read once, then parse the
   * buffer.  It fails at EOF or on a parse error; otherwise it read at least
   * one more byte and the buffer again holds what `parse` left over.
   */
  method Turn(reader: ChunkReader, req: Request, buf: array<char>, readToIndex: nat, ghost stream: string, ghost consumed: string)
    returns (next: array<char>, readTo: nat, err: Option<RequestError>, ghost read: string)
    requires reader.Valid() && req.Valid() && req.state != Done
    requires 0 < buf.Length && readToIndex <= buf.Length
    requires stream == consumed + reader.Remaining()
    requires Buffered(consumed, buf[..readToIndex], req.Current())
    modifies reader, req, req.headers, buf
    ensures reader.Valid() && req.Valid() && req.headers == old(req.headers)
    ensures next == buf || fresh(next)
    ensures stream == read + reader.Remaining()
    ensures err.None? ==> 0 < next.Length && readTo <= next.Length
                          && Buffered(read, next[..readTo], req.Current())
                          && |reader.Remaining()| < |old(reader.Remaining())|
    ensures err.Some? ==> Failed(stream, read, reader.Remaining(), err)
  {
    ghost var before := reader.Remaining();
    ghost var kept := readToIndex;
    ghost var held := buf[..readToIndex];
    ghost var w := req.Current();
    assert kept <= |consumed| && held == consumed[|consumed| - kept..];
    assert Drive(Initial, consumed) == Outcome(|consumed| - kept, None, w);
    var n, eof;
    next, n, eof := ReadMore(reader, buf, readToIndex);
    assert req.Current() == w;
    if eof {
      EndOfStream(stream, consumed, reader.Remaining(), kept, w);
      readTo, err, read := readToIndex, Some(Incomplete(req.state)), consumed;
      return;
    }
    ghost var chunk := before[..n];
    assert next[..readToIndex + n] == held + chunk;
    Advance(stream, consumed, before, n);
    readTo, err, read := Resume(req, next, readToIndex + n, stream, consumed, kept, w, chunk, before[n..]);
  }

  /**
   * `RequestFromReader`: read into a buffer of 8 bytes that doubles whenever it
   * is full, parse what it holds, and shift the unparsed bytes to its front,
   * until the request is done.  EOF before that is an error, and so is any
   * parse error.  On success the request is what `parse` makes of all bytes read;
   * an error is the one `parse` meets on them.  Whenever the whole stream
   * completes a request, that request is read back, however the stream is cut
   * into reads.
   */
  method RequestFromReader(reader: ChunkReader) returns (req: Request?, err: Option<RequestError>, ghost consumed: string)
    requires reader.Valid()
    modifies reader
    ensures reader.Valid()
    ensures old(reader.Remaining()) == consumed + reader.Remaining()
    ensures err.None? <==> req != null
    ensures req != null ==> fresh(req) && fresh(req.headers) && req.Valid()
    ensures req != null ==> req.state == Done && Completes(Initial, consumed)
                            && req.Current() == Drive(Initial, consumed).next
    ensures err.Some? && Drive(Initial, consumed).err.Some? ==> err == Drive(Initial, consumed).err
    ensures err.Some? && Drive(Initial, consumed).err.None? ==>
              reader.Remaining() == [] && Drive(Initial, consumed).next.state != Done
              && err == Some(Incomplete(Drive(Initial, consumed).next.state))
    ensures Completes(Initial, old(reader.Remaining())) ==>
              req != null && req.Current() == Drive(Initial, old(reader.Remaining())).next
  {
    ghost var stream := reader.Remaining();
    var buf := new char[BufferSize];
    var readToIndex: nat := 0;
    req := new Request();
    consumed := [];
    DriveEmpty();
    while req.state != Done
      invariant reader.Valid() && req.Valid()
      invariant fresh(req) && fresh(req.headers) && fresh(buf)
      invariant 0 < buf.Length && readToIndex <= buf.Length
      invariant stream == consumed + reader.Remaining()
      invariant Buffered(consumed, buf[..readToIndex], req.Current())
      decreases |reader.Remaining()|
    {
      var e;
      buf, readToIndex, e, consumed := Turn(reader, req, buf, readToIndex, stream, consumed);
      if e.Some? {
        req, err := null, e;
        return;
      }
    }
    EndOfRequest(stream, consumed, reader.Remaining(), readToIndex, req.Current());
    err := None;
  }
}
