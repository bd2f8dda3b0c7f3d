/**
 * The incremental request parser as a pure state machine.  `Step` is one call of
 * `parseSingle` on a snapshot of the request; `Drive` is `parse`, which repeats
 * steps until the request is done or a step makes no progress.  The body is
 * framed by Content-Length as in section 6.3 of RFC 9112.  The class `Request`
 * (module Request) is proved to behave exactly as these functions say.
 */
module Parser {
  import opened Text
  import opened Headers
  import opened StartLine

  /** `requestState`: the four stages, in the order the parser passes through them. */
  datatype State = Initialized | ParsingHeaders | ParsingBody | Done

  /** The `iota` number of a state, as the "incomplete request" error prints it. */
  function Ordinal(s: State): (r: nat)
    ensures r <= 3
  {
    match s
    case Initialized => 0
    case ParsingHeaders => 1
    case ParsingBody => 2
    case Done => 3
  }

  /** Why parsing a request failed. */
  datatype RequestError =
    | StartLineError(lineErr: LineError)        // the request-line was refused
    | FieldError(fieldErr: HeaderError)         // a field line was refused
    | InvalidContentLength(value: string)       // Content-Length is not an int64 numeral
    | BodyTooLong                               // more body than Content-Length declares
    | ReadAfterDone                             // a step was asked for after Done
    | Incomplete(state: State)                  // the stream ended before Done

  /** The observable part of a `Request`: its request-line, header table, stage and body. */
  datatype Snapshot = Snapshot(requestLine: RequestLine, fields: map<string, string>, state: State, body: string)

  /** A freshly made request: empty line, empty table, nothing read. */
  const Initial: Snapshot := Snapshot(RequestLine("", "", ""), map[], Initialized, "")

  /** What one call reports (bytes consumed, error) and the snapshot it leaves behind. */
  datatype Outcome = Outcome(n: nat, err: Option<RequestError>, next: Snapshot)

  /** The key the body framing looks up; keys are stored lower-cased. */
  const ContentLength: string := "content-length"

  /** The request-line stage: wait for a CRLF, then store the line and move on. */
  function StepStartLine(v: Snapshot, data: string): (r: Outcome)
    ensures r.n > 0 ==> r.err.None? && IndexOfCrlf(data) >= 0 && r.n == IndexOfCrlf(data) + 2 && r.next.state == ParsingHeaders
    ensures r.n > 0 ==> RequestLineFromString(data[..IndexOfCrlf(data)]) == Ok(r.next.requestLine)
    ensures r.err.Some? ==> IndexOfCrlf(data) >= 0 && r.next == v
  {
    match ParseRequestLine(data)
    case LinePending => Outcome(0, None, v)
    case Failed(e) => Outcome(0, Some(StartLineError(e)), v)
    case Parsed(rl, n) => Outcome(n, None, v.(requestLine := rl, state := ParsingHeaders))
  }

  /** The header stage: one field line per call; an empty line ends the section. */
  function StepHeaders(v: Snapshot, data: string): (r: Outcome)
    requires v.state == ParsingHeaders
    ensures r.n > 0 || r.err.Some? ==> IndexOfCrlf(data) >= 0
    ensures r.next.state == ParsingHeaders || (r.next.state == ParsingBody && IndexOfCrlf(data) == 0 && r.n == 2)
    ensures r.err.Some? ==> r.n == 0 && r.next == v
  {
    match ParseFieldLine(data)
    case NeedMore => Outcome(0, None, v)
    case EndOfHeaders => Outcome(2, None, v.(state := ParsingBody))
    case Field(name, value, n) => Outcome(n, None, v.(fields := SetField(v.fields, name, value)))
    case Malformed(e) => Outcome(0, Some(FieldError(e)), v)
  }

  /**
   * The body stage.  Without Content-Length the request is done and all given
   * bytes count as consumed.  With it, the given bytes are appended to the body
   * first; then a value that is not a numeral, or a body longer than it, is an
   * error (the appended bytes stay), and a body of exactly that length is done.
   */
  function StepBody(v: Snapshot, data: string): (r: Outcome)
    requires v.state == ParsingBody
    ensures r.err.None? ==> r.n == |data|
    ensures r.err.Some? ==> r.n == 0
    ensures r.next.requestLine == v.requestLine && r.next.fields == v.fields
    ensures ContentLength !in v.fields ==> r.err.None? && r.next.state == Done && r.next.body == v.body
    ensures ContentLength in v.fields ==> r.next.body == v.body + data
    ensures ContentLength in v.fields && Atoi(v.fields[ContentLength]).None? ==>
              r.err == Some(InvalidContentLength(v.fields[ContentLength])) && r.next.state == ParsingBody
    ensures ContentLength in v.fields && Atoi(v.fields[ContentLength]).Some? ==>
              var limit := Atoi(v.fields[ContentLength]).value;
              (r.err.Some? <==> |v.body| + |data| > limit) && (r.err.Some? ==> r.err == Some(BodyTooLong))
              && (r.next.state == Done <==> |v.body| + |data| == limit)
              && (r.next.state != Done ==> r.next.state == ParsingBody)
  {
    if ContentLength !in v.fields then Outcome(|data|, None, v.(state := Done))
    else
      var body := v.body + data;
      var value := v.fields[ContentLength];
      match Atoi(value)
      case None => Outcome(0, Some(InvalidContentLength(value)), v.(body := body))
      case Some(limit) =>
        if |body| > limit then Outcome(0, Some(BodyTooLong), v.(body := body))
        else if |body| == limit then Outcome(|data|, None, v.(body := body, state := Done))
        else Outcome(|data|, None, v.(body := body))
  }

  /**
   * `parseSingle`: one step of the stage the snapshot is in.  It never consumes
   * more than it is given, consumes nothing when it fails, moves at most one stage
   * forward, and changes nothing when it neither fails nor progresses.
   */
  function Step(v: Snapshot, data: string): (r: Outcome)
    ensures r.n <= |data|
    ensures r.err.Some? ==> r.n == 0
    ensures Ordinal(v.state) <= Ordinal(r.next.state) <= Ordinal(v.state) + 1
    ensures v.state == Done ==> r == Outcome(0, Some(ReadAfterDone), v)
    ensures r.err.Some? ==> r.next.requestLine == v.requestLine && r.next.fields == v.fields && r.next.state == v.state
    ensures r.n == 0 && r.err.None? && r.next.state != Done ==> r.next == v
    ensures r.next.body == v.body || (v.state == ParsingBody && ContentLength in v.fields && r.next.body == v.body + data)
    ensures (v.state == Initialized || v.state == ParsingHeaders) && (r.n > 0 || r.err.Some?) ==> IndexOfCrlf(data) >= 0
  {
    match v.state
    case Initialized => StepStartLine(v, data)
    case ParsingHeaders => StepHeaders(v, data)
    case ParsingBody => StepBody(v, data)
    case Done => Outcome(0, Some(ReadAfterDone), v)
  }

  // ---------------------------------------------------------------------------
  // `parse` over any step that obeys the laws `parseSingle` obeys

  /** A stand-in for `parseSingle`: a snapshot and the unparsed bytes give an outcome. */
  type Stepper = (Snapshot, string) -> Outcome

  /** A step never consumes more than it is given, and consumes nothing when it fails. */
  ghost predicate Bounded(step: Stepper) {
    forall v: Snapshot, d: string :: step(v, d).n <= |d| && (step(v, d).err.Some? ==> step(v, d).n == 0)
  }

  /**
   * At one snapshot and input: a step moves at most one stage forward, and one
   * that neither fails nor consumes anything changes nothing unless it reaches Done.
   */
  ghost predicate ForwardAt(step: Stepper, v: Snapshot, d: string) {
    Ordinal(v.state) <= Ordinal(step(v, d).next.state) <= Ordinal(v.state) + 1
    && (step(v, d).err.None? && step(v, d).n == 0 && step(v, d).next.state != Done ==> step(v, d).next == v)
  }

  /**
   * At one snapshot and input: in the line stages a step that consumes or fails
   * has decided on a prefix, so the bytes e after it change nothing.
   */
  ghost predicate LineAt(step: Stepper, v: Snapshot, d: string, e: string) {
    (v.state == Initialized || v.state == ParsingHeaders) && (step(v, d).n > 0 || step(v, d).err.Some?)
    ==> step(v, d + e) == step(v, d)
  }

  /**
   * At one snapshot and input, in the body stage: a successful step takes all of
   * d and then waits for more; d and e given in two calls land as in one call;
   * an error stays the same error when e arrives; and a finished body stays as
   * it was only when e is refused or adds nothing.
   */
  ghost predicate BodyAt(step: Stepper, v: Snapshot, d: string, e: string) {
    var s := step(v, d);
    v.state == ParsingBody ==>
      (s.err.None? ==> s.n == |d| && (s.next.state == Done || s.next.state == ParsingBody))
      && (s.err.None? && s.next.state != Done ==>
            step(s.next, []) == Outcome(0, None, s.next) && step(v, d + e) == Extend(|d|, step(s.next, e)))
      && (s.err.Some? ==> step(v, d + e).err == s.err)
      && (s.err.None? && s.next.state == Done && step(v, d + e).err.None? ==> step(v, d + e).next == s.next)
  }

  /** The laws `parse` needs of its step, at every snapshot and input. */
  ghost predicate Lawful(step: Stepper) {
    Bounded(step)
    && (forall v: Snapshot, d: string :: ForwardAt(step, v, d))
    && (forall v: Snapshot, d: string, e: string :: LineAt(step, v, d, e) && BodyAt(step, v, d, e))
  }

  /** What `parse` reports after an earlier step consumed n bytes: errors report 0. */
  function Extend(n: nat, o: Outcome): Outcome {
    if o.err.Some? then Outcome(0, o.err, o.next) else Outcome(n + o.n, None, o.next)
  }

  /**
   * `parse`: steps until Done, an error, or a step that consumes nothing.  It
   * never reports more than it was given, reports 0 on error, and does nothing
   * once Done.
   */
  function Run(step: Stepper, v: Snapshot, data: string): (r: Outcome)
    requires Bounded(step)
    ensures r.n <= |data|
    ensures r.err.Some? ==> r.n == 0
    ensures v.state == Done ==> r == Outcome(0, None, v)
    decreases |data|
  {
    if v.state == Done then Outcome(0, None, v)
    else
      var s := step(v, data);
      if s.err.Some? then Outcome(0, s.err, s.next)
      else if s.n == 0 then Outcome(0, None, s.next)
      else Extend(s.n, Run(step, s.next, data[s.n..]))
  }

  /** Reporting a and then b consumed bytes is reporting a + b. */
  lemma ExtendExtend(a: nat, b: nat, c: nat, o: Outcome)
    requires c == a + b
    ensures Extend(a, Extend(b, o)) == Extend(c, o)
  {
  }

  /** A successful report after n bytes: n more bytes, the same snapshot. */
  lemma ExtendOk(n: nat, o: Outcome, r: Outcome)
    requires o.err.None? && r == Extend(n, o)
    ensures r.err.None? && r.n == n + o.n && r.next == o.next
  {
  }

  /** Dropping k bytes from d + e drops them from d, when d has that many. */
  lemma DropAppend(d: string, e: string, k: nat)
    requires k <= |d|
    ensures (d + e)[k..] == d[k..] + e
  {
  }

  /** Dropping a and then b bytes drops a + b. */
  lemma DropDrop(d: string, a: nat, b: nat, c: nat)
    requires a <= |d| && b <= |d| - a && c == a + b
    ensures d[a..][b..] == d[c..]
  {
  }

  /** `parse` after a step that consumed bytes: that step, then `parse` on the rest. */
  lemma RunSteps(step: Stepper, v: Snapshot, data: string)
    requires Bounded(step)
    requires v.state != Done && step(v, data).err.None? && step(v, data).n > 0
    ensures var s := step(v, data);
            Run(step, v, data) == Extend(s.n, Run(step, s.next, data[s.n..]))
  {
  }

  /** `parse` after a step that failed: the same error, nothing consumed. */
  lemma RunFails(step: Stepper, v: Snapshot, data: string)
    requires Bounded(step)
    requires v.state != Done && step(v, data).err.Some?
    ensures Run(step, v, data) == Outcome(0, step(v, data).err, step(v, data).next)
  {
  }

  /** `parse` after a step that neither failed nor consumed anything: it stops there. */
  lemma RunIdle(step: Stepper, v: Snapshot, data: string)
    requires Bounded(step)
    requires v.state != Done && step(v, data).err.None? && step(v, data).n == 0
    ensures Run(step, v, data) == Outcome(0, None, step(v, data).next)
  {
  }

  /** A report after no earlier bytes is the report itself. */
  lemma ExtendZero(o: Outcome)
    requires o.err.Some? ==> o.n == 0
    ensures Extend(0, o) == o
  {
  }

  /** `parse` never moves the request backward. */
  lemma {:induction false} RunForward(step: Stepper, v: Snapshot, data: string)
    requires Lawful(step)
    ensures Ordinal(v.state) <= Ordinal(Run(step, v, data).next.state)
    decreases |data|
  {
    if v.state != Done {
      var s := step(v, data);
      assert ForwardAt(step, v, data);
      if s.err.None? && s.n > 0 {
        RunForward(step, s.next, data[s.n..]);
      }
    }
  }

  /** In the body stage `parse` is a single step: a body step leaves nothing to do. */
  lemma RunBody(step: Stepper, v: Snapshot, data: string)
    requires Lawful(step) && v.state == ParsingBody
    ensures Run(step, v, data) == step(v, data)
  {
    var s := step(v, data);
    assert BodyAt(step, v, data, []);
    if s.err.None? && s.n > 0 {
      assert data[s.n..] == [];
    }
  }

  /**
   * Feeding d and then e equals feeding d + e, as long as d alone neither fails
   * nor finishes the request: `parse` on what is left over from d plus the new
   * bytes continues exactly where the whole input would have.
   */
  lemma {:induction false} RunAppend(step: Stepper, v: Snapshot, d: string, e: string)
    requires Lawful(step)
    requires Run(step, v, d).err.None? && Run(step, v, d).next.state != Done
    ensures var o := Run(step, v, d);
            Run(step, v, d + e) == Extend(o.n, Run(step, o.next, d[o.n..] + e))
    decreases |d|
  {
    var s := step(v, d);
    if v.state == ParsingBody {
      RunAppendBody(step, v, d, e);
    } else if s.n == 0 {
      assert ForwardAt(step, v, d);
      assert d[0..] + e == d + e;
    } else {
      RunAppend(step, s.next, d[s.n..], e);
      RunAppendLine(step, v, d, e);
    }
  }

  /** RunAppend in the body stage, where `parse` is a single step. */
  lemma RunAppendBody(step: Stepper, v: Snapshot, d: string, e: string)
    requires Lawful(step) && v.state == ParsingBody
    requires Run(step, v, d).err.None? && Run(step, v, d).next.state != Done
    ensures var o := Run(step, v, d);
            Run(step, v, d + e) == Extend(o.n, Run(step, o.next, d[o.n..] + e))
  {
    var s := step(v, d);
    RunBody(step, v, d);
    RunBody(step, v, d + e);
    assert BodyAt(step, v, d, e);
    assert d[s.n..] + e == e;
    RunBody(step, s.next, e);
  }

  /** The inductive step of RunAppend: a line step that consumed bytes, then the rest. */
  lemma RunAppendLine(step: Stepper, v: Snapshot, d: string, e: string)
    requires Lawful(step)
    requires (v.state == Initialized || v.state == ParsingHeaders) && step(v, d).err.None? && step(v, d).n > 0
    requires var s := step(v, d);
             var o' := Run(step, s.next, d[s.n..]);
             o'.err.None? && o'.next.state != Done
             && Run(step, s.next, d[s.n..] + e) == Extend(o'.n, Run(step, o'.next, d[s.n..][o'.n..] + e))
    ensures var o := Run(step, v, d);
            Run(step, v, d + e) == Extend(o.n, Run(step, o.next, d[o.n..] + e))
  {
    var s := step(v, d);
    var rest := d[s.n..];
    var o' := Run(step, s.next, rest);
    var o := Run(step, v, d);
    assert LineAt(step, v, d, e);
    DropAppend(d, e, s.n);
    ExtendOk(s.n, o', o);
    DropDrop(d, s.n, o'.n, o.n);
    ExtendExtend(s.n, o'.n, o.n, Run(step, o.next, d[o.n..] + e));
  }

  /**
   * `parse` stops short of Done only where the next step would make no progress:
   * the request is waiting for more bytes, not stuck.
   */
  lemma {:induction false} RunStopsIdle(step: Stepper, v: Snapshot, data: string)
    requires Lawful(step)
    requires Run(step, v, data).err.None? && Run(step, v, data).next.state != Done
    ensures var o := Run(step, v, data);
            step(o.next, data[o.n..]) == Outcome(0, None, o.next)
    decreases |data|
  {
    var s := step(v, data);
    if s.n == 0 {
      assert ForwardAt(step, v, data);
      assert data[0..] == data;
    } else {
      RunStopsIdle(step, s.next, data[s.n..]);
      var o' := Run(step, s.next, data[s.n..]);
      var o := Run(step, v, data);
      ExtendOk(s.n, o', o);
      DropDrop(data, s.n, o'.n, o.n);
    }
  }

  /**
   * Resuming: when `parse` on c left the request in w with the last k bytes of c
   * unconsumed, feeding those k bytes plus new ones to w continues the run on c + more.
   */
  lemma RunResume(step: Stepper, v: Snapshot, c: string, k: nat, w: Snapshot, more: string)
    requires Lawful(step)
    requires k <= |c| && Run(step, v, c) == Outcome(|c| - k, None, w) && w.state != Done
    ensures Run(step, v, c + more) == Extend(|c| - k, Run(step, w, c[|c| - k..] + more))
  {
    var o := Run(step, v, c);
    assert o.n == |c| - k && o.next == w;
    RunAppend(step, v, c, more);
    assert c[o.n..] + more == c[|c| - k..] + more;
    assert Run(step, o.next, c[o.n..] + more) == Run(step, w, c[|c| - k..] + more);
  }

  /** An error stays the same error however many more bytes arrive. */
  lemma {:induction false} RunErrorPersists(step: Stepper, v: Snapshot, d: string, e: string)
    requires Lawful(step)
    requires Run(step, v, d).err.Some?
    ensures Run(step, v, d + e).err == Run(step, v, d).err
    decreases |d|
  {
    var s := step(v, d);
    if v.state == ParsingBody {
      RunBody(step, v, d);
      RunBody(step, v, d + e);
      assert BodyAt(step, v, d, e);
    } else {
      assert LineAt(step, v, d, e);
      if s.n > 0 {
        DropAppend(d, e, s.n);
        RunErrorPersists(step, s.next, d[s.n..], e);
      }
    }
  }

  /**
   * Once d completes the request, more bytes either make it fail (a body longer
   * than Content-Length) or leave the finished request as it was.
   */
  lemma {:induction false} RunDoneExtend(step: Stepper, v: Snapshot, d: string, e: string)
    requires Lawful(step)
    requires Run(step, v, d).err.None? && Run(step, v, d).next.state == Done
    requires Run(step, v, d + e).err.None?
    ensures Run(step, v, d + e).next == Run(step, v, d).next
    decreases |d|
  {
    var s := step(v, d);
    if v.state == ParsingBody {
      RunBody(step, v, d);
      RunBody(step, v, d + e);
      assert BodyAt(step, v, d, e);
    } else if v.state != Done {
      assert ForwardAt(step, v, d);
      assert LineAt(step, v, d, e);
      if s.n > 0 {
        DropAppend(d, e, s.n);
        RunDoneExtend(step, s.next, d[s.n..], e);
      }
    }
  }

  // ---------------------------------------------------------------------------
  // `parseSingle` obeys the laws, so `parse` is `Run` over `Step`

  /** The line stages decide on the bytes up to the first CRLF: later bytes do not matter. */
  lemma StepLineExtend(v: Snapshot, d: string, e: string)
    requires v.state == Initialized || v.state == ParsingHeaders
    requires IndexOfCrlf(d) >= 0
    ensures Step(v, d + e) == Step(v, d)
  {
    if v.state == Initialized {
      ParseRequestLineExtend(d, e);
    } else {
      ParseFieldLineExtend(d, e);
    }
  }

  /** A body step that succeeded without finishing leaves a request that waits for more bytes. */
  lemma BodyWaits(v: Snapshot, d: string)
    requires v.state == ParsingBody && StepBody(v, d).err.None? && StepBody(v, d).next.state != Done
    ensures var w := StepBody(v, d).next;
            w.state == ParsingBody && StepBody(w, []) == Outcome(0, None, w)
  {
    var w := StepBody(v, d).next;
    assert w.body + [] == w.body;
  }

  /** Body bytes given in two calls land where they would in one call. */
  lemma BodyAppend(v: Snapshot, d: string, e: string)
    requires v.state == ParsingBody
    requires StepBody(v, d).err.None? && StepBody(v, d).next.state != Done
    ensures StepBody(v, d + e) == Extend(|d|, StepBody(StepBody(v, d).next, e))
  {
    var w := StepBody(v, d).next;
    assert w == v.(body := v.body + d);
    assert w.body + e == v.body + (d + e);
  }

  /** A body that reached its Content-Length stays the same only if nothing more arrives. */
  lemma BodyDone(v: Snapshot, d: string, e: string)
    requires v.state == ParsingBody
    requires StepBody(v, d).err.None? && StepBody(v, d).next.state == Done && StepBody(v, d + e).err.None?
    ensures StepBody(v, d + e).next == StepBody(v, d).next
  {
    if ContentLength in v.fields {
      assert |e| == 0;
      assert d + e == d;
    }
  }

  /** `parseSingle` consumes at most what it is given, and nothing when it fails. */
  lemma StepBounded()
    ensures Bounded(Step)
  {
  }

  /** `parseSingle` obeys all the laws `parse` relies on. */
  lemma StepLawful()
    ensures Lawful(Step)
  {
    forall v: Snapshot, d: string
      ensures ForwardAt(Step, v, d)
    {
    }
    forall v: Snapshot, d: string, e: string
      ensures LineAt(Step, v, d, e)
    {
      if (v.state == Initialized || v.state == ParsingHeaders) && (Step(v, d).n > 0 || Step(v, d).err.Some?) {
        StepLineExtend(v, d, e);
      }
    }
    forall v: Snapshot, d: string, e: string
      ensures BodyAt(Step, v, d, e)
    {
      StepBodyAt(v, d, e);
    }
  }

  /** The body laws at one snapshot and input. */
  lemma StepBodyAt(v: Snapshot, d: string, e: string)
    ensures BodyAt(Step, v, d, e)
  {
    if v.state == ParsingBody {
      var s := StepBody(v, d);
      if s.err.None? && s.next.state != Done {
        BodyWaits(v, d);
        BodyAppend(v, d, e);
      }
      if s.err.None? && s.next.state == Done && StepBody(v, d + e).err.None? {
        BodyDone(v, d, e);
      }
    }
  }

  /** `parse` from a snapshot: `Run` over `parseSingle`. */
  function ParseFrom(v: Snapshot, data: string): Outcome {
    StepBounded();
    Run(Step, v, data)
  }

  /**
   * `parse` as a value.  Applied, it is `ParseFrom`, but its definition is
   * unfolded only where a proof asks for it with `DriveIsRun`; everywhere else
   * the lemmas about it are what is known.
   */
  const Drive: (Snapshot, string) -> Outcome := ParseFrom

  /** The definition of `Drive`. */
  lemma DriveIsRun(v: Snapshot, data: string)
    ensures Bounded(Step) && Drive(v, data) == Run(Step, v, data)
  {
    StepBounded();
    assert Drive(v, data) == ParseFrom(v, data);
  }

  /** `Step` as a value, the form `Run` takes it in. */
  const StepFn: Stepper := Step

  /** The request was read to the end without error. */
  predicate Completes(v: Snapshot, data: string) {
    Drive(v, data).err.None? && Drive(v, data).next.state == Done
  }

  /** A parse error stays an error however many bytes follow. */
  lemma DriveErrorPersists(v: Snapshot, d: string, e: string)
    requires Drive(v, d).err.Some?
    ensures Drive(v, d + e).err == Drive(v, d).err
    ensures !Completes(v, d + e)
  {
    DriveIsRun(v, d);
    DriveIsRun(v, d + e);
    StepLawful();
    RunErrorPersists(Step, v, d, e);
  }

  /**
   * Once d completes the request, more bytes either make `parse` fail (a body
   * longer than Content-Length) or leave the finished request as it was.
   */
  lemma DriveDoneExtend(v: Snapshot, d: string, e: string)
    requires Completes(v, d) && Drive(v, d + e).err.None?
    ensures Drive(v, d + e).next == Drive(v, d).next
  {
    DriveIsRun(v, d);
    DriveIsRun(v, d + e);
    StepLawful();
    RunDoneExtend(Step, v, d, e);
  }

  // ---------------------------------------------------------------------------
  // Requests written in the wire form are read back

  /** The wire form of a request: request-line, field lines, an empty line, the body. */
  function RequestText(rl: RequestLine, m: map<string, string>, order: seq<string>, body: string): string
    requires forall i :: 0 <= i < |order| ==> order[i] in m
  {
    FormatRequestLine(rl) + CRLF + FieldLines(m, order) + CRLF + body
  }

  /** A request the parser can read back: a valid line, fields it stores unchanged, and a matching Content-Length. */
  predicate WellFormed(rl: RequestLine, m: map<string, string>, order: seq<string>, body: string) {
    IsMethod(rl.requestMethod) && ' ' !in rl.requestTarget && '\n' !in rl.requestTarget
    && rl.httpVersion == "1.1"
    && IsOrdering(order, m.Keys)
    && (forall k :: k in m ==> IsFieldName(k) && IsFieldValue(m[k]))
    && (ContentLength in m ==> m[ContentLength] == Itoa(|body|) && |body| <= MaxInt64)
  }

  /** A request-line and its CRLF move the parser to the header stage. */
  lemma DriveStartLine(rl: RequestLine, rest: string)
    requires IsMethod(rl.requestMethod) && ' ' !in rl.requestTarget && '\n' !in rl.requestTarget
    requires rl.httpVersion == "1.1"
    ensures var line := FormatRequestLine(rl);
            Drive(Initial, line + CRLF + rest)
              == Extend(|line| + 2, Drive(Initial.(requestLine := rl, state := ParsingHeaders), rest))
  {
    var line := FormatRequestLine(rl);
    ParseRequestLineRoundTrip(rl, rest);
    assert Step(Initial, line + CRLF + rest)
        == Outcome(|line| + 2, None, Initial.(requestLine := rl, state := ParsingHeaders));
    DriveIsRun(Initial, line + CRLF + rest);
    DriveIsRun(Initial.(requestLine := rl, state := ParsingHeaders), rest);
    RunSteps(Step, Initial, line + CRLF + rest);
    assert (line + CRLF + rest)[|line| + 2..] == rest;
  }

  /** One field line in the header stage is stored, and `parse` goes on after it. */
  lemma DriveFieldLine(v: Snapshot, name: string, value: string, rest: string)
    requires v.state == ParsingHeaders
    requires IsFieldName(name) && IsFieldValue(value)
    ensures Drive(v, FieldLine(name, value) + rest)
              == Extend(|FieldLine(name, value)|, Drive(v.(fields := SetField(v.fields, name, value)), rest))
  {
    var line := FieldLine(name, value);
    FieldLineRoundTrip(name, value, rest);
    assert Step(v, line + rest) == Outcome(|line|, None, v.(fields := SetField(v.fields, name, value)));
    DriveIsRun(v, line + rest);
    DriveIsRun(v.(fields := SetField(v.fields, name, value)), rest);
    RunSteps(Step, v, line + rest);
    assert (line + rest)[|line|..] == rest;
  }

  /** The first field line, then the others. */
  lemma FieldLinesCons(m: map<string, string>, order: seq<string>, tail: string)
    requires |order| > 0 && forall i :: 0 <= i < |order| ==> order[i] in m
    ensures var line := FieldLine(order[0], m[order[0]]);
            var more := FieldLines(m, order[1..]);
            FieldLines(m, order) + tail == line + (more + tail) && |FieldLines(m, order)| == |line| + |more|
  {
    var line := FieldLine(order[0], m[order[0]]);
    var more := FieldLines(m, order[1..]);
    assert FieldLines(m, order) == line + more;
    AppendAssoc(line, more, tail);
  }

  /** Concatenation is associative. */
  lemma AppendAssoc(a: string, b: string, c: string)
    ensures (a + b) + c == a + (b + c)
  {
  }

  /** Field lines in the header stage are stored one by one, in order. */
  lemma {:induction false} DriveFieldLines(v: Snapshot, m: map<string, string>, order: seq<string>, tail: string)
    requires v.state == ParsingHeaders
    requires forall i :: 0 <= i < |order| ==> order[i] in m && IsFieldName(order[i]) && IsFieldValue(m[order[i]])
    ensures Drive(v, FieldLines(m, order) + tail)
              == Extend(|FieldLines(m, order)|, Drive(v.(fields := SetFields(v.fields, m, order)), tail))
    decreases |order|
  {
    if order == [] {
      assert FieldLines(m, order) + tail == tail;
      assert v.(fields := SetFields(v.fields, m, order)) == v;
    } else {
      var name := order[0];
      var line := FieldLine(name, m[name]);
      var more := FieldLines(m, order[1..]);
      FieldLinesCons(m, order, tail);
      var w := v.(fields := SetField(v.fields, name, m[name]));
      var u := w.(fields := SetFields(w.fields, m, order[1..]));
      assert v.(fields := SetFields(v.fields, m, order)) == u by {
        assert SetFields(v.fields, m, order) == SetFields(w.fields, m, order[1..]);
      }
      DriveFieldLine(v, name, m[name], more + tail);
      DriveFieldLines(w, m, order[1..], tail);
      assert Drive(v, FieldLines(m, order) + tail) == Extend(|line|, Extend(|more|, Drive(u, tail)));
      ExtendExtend(|line|, |more|, |FieldLines(m, order)|, Drive(u, tail));
    }
  }

  /** The empty line ends the headers; what follows is read as the body. */
  lemma DriveEndOfHeaders(v: Snapshot, body: string)
    requires v.state == ParsingHeaders
    ensures Drive(v, CRLF + body) == Extend(2, StepBody(v.(state := ParsingBody), body))
  {
    assert IndexOfCrlf(CRLF + body) == 0;
    assert Step(v, CRLF + body) == Outcome(2, None, v.(state := ParsingBody));
    assert (CRLF + body)[2..] == body;
    DriveIsRun(v, CRLF + body);
    StepLawful();
    RunSteps(Step, v, CRLF + body);
    RunBody(Step, v.(state := ParsingBody), body);
  }

  /**
   * Round trip: a well-formed request in wire form is read to the end in one
   * call, every byte consumed, with its line, its fields and (when Content-Length
   * frames it) its body.  Without Content-Length the bytes after the headers are
   * consumed but not kept.
   */
  lemma RequestRoundTrip(rl: RequestLine, m: map<string, string>, order: seq<string>, body: string)
    requires WellFormed(rl, m, order, body)
    ensures var o := Drive(Initial, RequestText(rl, m, order, body));
            o.err.None? && o.n == |RequestText(rl, m, order, body)|
            && o.next == Snapshot(rl, m, Done, if ContentLength in m then body else "")
  {
    var line := FormatRequestLine(rl);
    var fieldsText := FieldLines(m, order);
    var text := RequestText(rl, m, order, body);
    assert text == line + CRLF + (fieldsText + (CRLF + body));
    DriveStartLine(rl, fieldsText + (CRLF + body));
    var v := Initial.(requestLine := rl, state := ParsingHeaders);
    DriveFieldLines(v, m, order, CRLF + body);
    SetFieldsRebuilds(m, order);
    var w := v.(fields := m);
    DriveEndOfHeaders(w, body);
    if ContentLength in m {
      AtoiItoa(|body|);
      assert "" + body == body;
    }
    var b := StepBody(w.(state := ParsingBody), body);
    assert b.err.None? && b.next == Snapshot(rl, m, Done, if ContentLength in m then body else "");
    ExtendExtend(|fieldsText|, 2, |fieldsText| + 2, b);
    ExtendExtend(|line| + 2, |fieldsText| + 2, |line| + 2 + |fieldsText| + 2, b);
  }
}
