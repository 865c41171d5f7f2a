/**
  The request/response engine of the radar driver: `_reset`, `send_command`, `update` and the
  command sequence of `init`, as functions of the bytes the sensor sends.

  The UART input is a finite byte sequence read from a position; reaching its end is the poll
  timeout. Every function returns what the Python call returns or raises, the position of the
  next unread byte, the new value of the global `failed_attempts`, and the frames written to
  the UART in order. The class `RadarSensor.Sensor` is proved to compute exactly these.
*/
module Link {
  import opened Wrappers
  import opened Bytes
  import opened Frames
  import opened RadarResponse

  const MAX_ATTEMPTS: nat := 5

  /** The frame `_reset` writes, and the echo it waits for. */
  const RESET_REQUEST: Frame := Frame(SYSTEM_FUNCTIONS, SYSTEM_RESET, NO_DATA)

  /** The query `init` sends for the hardware model. */
  const MODEL_QUERY: Frame := Frame(PRODUCT_INFO, HARDWARE_MODEL, NO_DATA)

  /** Hardware model strings: `b'R60A\x00'` (MR60BHA1) and `b'R24D'` (MR24HPC1). */
  const MR60BHA1: seq<byte> := [0x52, 0x36, 0x30, 0x41, 0x00]
  const MR24HPC1: seq<byte> := [0x52, 0x32, 0x34, 0x44]

  /** The exceptions that escape the engine. */
  datatype Error =
    | ReadFailed(reason: ReadError)           // a `_read` error raised outside any `try`
    | NotResponding                           // "Sensor is not responding", from `_reset`
    | Uninterpretable(fault: LabelIndexError) // `format_data` raised IndexError

  /** Reads a frame whose control word and command are those of the request. */
  predicate Answers(f: Frame, req: Frame)
  {
    f.control == req.control && f.command == req.command
  }

  /** Failed reads still tolerated before the counter passes `MAX_ATTEMPTS`. */
  function Budget(failed: nat): nat
  {
    if failed <= MAX_ATTEMPTS then MAX_ATTEMPTS + 1 - failed else 0
  }

  /** Every frame in `sent` is the request or the reset frame. */
  predicate Among(sent: seq<Frame>, req: Frame)
  {
    forall k | 0 <= k < |sent| :: sent[k] == req || sent[k] == RESET_REQUEST
  }

  /** What one `send_command(req)` writes: the request first, then resends and resets. */
  predicate Log(sent: seq<Frame>, req: Frame)
  {
    |sent| > 0 && sent[0] == req && Among(sent, req)
  }

  /** The stream holds an encoding of `f` inside positions `lo` to `hi`. */
  ghost predicate Received(input: seq<byte>, lo: nat, hi: nat, f: Frame)
  {
    exists m :: lo <= m && m + Size(f) <= hi && FrameAt(input, m, f)
  }

  // ---------------------------------------------------------------------------------------
  // _reset

  /** How the read loop of `_reset` ends: echoed or given up, where, and the counter. */
  datatype Echo = Echo(echoed: bool, pos: nat, failed: nat)

  /**
    The read loop of `_reset`: every read, good or bad, counts; a failed read that takes the
    counter past `MAX_ATTEMPTS` gives up; the echo of the reset frame ends the loop and clears
    the counter.
  */
  function AwaitEcho(input: seq<byte>, pos: nat, failed: nat): (w: Echo)
    requires pos <= |input|
    ensures pos <= w.pos <= |input|
    ensures w.echoed ==> pos + Size(RESET_REQUEST) <= w.pos && w.failed == 0
    ensures !w.echoed ==> w.failed > MAX_ATTEMPTS
    decreases |input| - pos, Budget(failed)
  {
    var o := Scan(input, pos);
    match o.result
    case Success(f) =>
      if f == RESET_REQUEST then Echo(true, o.next, 0)
      else AwaitEcho(input, o.next, failed + 1)
    case Failure(_) =>
      if failed + 1 > MAX_ATTEMPTS then Echo(false, o.next, failed + 1)
      else AwaitEcho(input, o.next, failed + 1)
  }

  // ---------------------------------------------------------------------------------------
  // send_command

  /** The result of `send_command`, and its effect on the stream, the counter and the UART. */
  datatype Exchange = Exchange(result: Result<seq<byte>, Error>, pos: nat, failed: nat, sent: seq<Frame>)

  /**
    `send_command(req)`: write the request, read once outside the `try` (a failure escapes),
    then wait for the answer.
  */
  function Send(input: seq<byte>, pos: nat, failed: nat, req: Frame): (x: Exchange)
    requires pos <= |input|
    ensures pos <= x.pos <= |input|
    ensures Log(x.sent, req)
    ensures x.result.Success? && failed <= MAX_ATTEMPTS ==> x.failed <= MAX_ATTEMPTS
    ensures x.result == Failure(NotResponding) ==> x.failed > MAX_ATTEMPTS
    ensures x.result.Failure? ==> !x.result.error.Uninterpretable?
    decreases |input| - pos, 1, 0, 0, 0
  {
    var first := Scan(input, pos);
    match first.result
    case Failure(e) => Exchange(Failure(ReadFailed(e)), first.next, failed, [req])
    case Success(f) =>
      var x := AwaitReply(input, first.next, failed, 0, f, req, pos);
      x.(sent := [req] + x.sent)
  }

  /**
    The loop of `send_command`, entered at `entry` and now at `pos`, with `last` the frame read
    most recently and `seen` the good reads inside the loop. A good read clears the counter; the
    third one resends the request by recursion, inside the `try`, so a failure of that call is
    handled like a failed read.
  */
  function AwaitReply(input: seq<byte>, pos: nat, failed: nat, seen: nat, last: Frame, req: Frame, entry: nat): (x: Exchange)
    requires entry < pos <= |input|
    ensures pos <= x.pos <= |input|
    ensures Among(x.sent, req)
    ensures x.result.Success? && failed <= MAX_ATTEMPTS ==> x.failed <= MAX_ATTEMPTS
    ensures x.result == Failure(NotResponding) ==> x.failed > MAX_ATTEMPTS
    ensures x.result.Failure? ==> !x.result.error.Uninterpretable?
    decreases |input| - entry, 0, |input| - pos, Budget(failed), 1
  {
    if Answers(last, req) then Exchange(Success(last.payload), pos, failed, [])
    else
      var o := Scan(input, pos);
      match o.result
      case Success(f) =>
        if seen + 1 > 2 then
          var x := Send(input, o.next, 0, req);
          if x.result.Success? then x
          else
            var y := Recover(input, x.pos, x.failed, seen + 1, f, req, entry);
            y.(sent := x.sent + y.sent)
        else AwaitReply(input, o.next, 0, seen + 1, f, req, entry)
      case Failure(_) => Recover(input, o.next, failed, seen, last, req, entry)
  }

  /** The `except` clause of `send_command`: count the failure; past the bound reset and resend. */
  function Recover(input: seq<byte>, pos: nat, failed: nat, seen: nat, last: Frame, req: Frame, entry: nat): (x: Exchange)
    requires entry < pos <= |input|
    ensures pos <= x.pos <= |input|
    ensures Among(x.sent, req)
    ensures x.result.Success? ==> x.failed <= MAX_ATTEMPTS
    ensures x.result == Failure(NotResponding) ==> x.failed > MAX_ATTEMPTS
    ensures x.result.Failure? ==> !x.result.error.Uninterpretable?
    decreases |input| - entry, 0, |input| - pos, Budget(failed), 0
  {
    if failed + 1 > MAX_ATTEMPTS then ResetAndResend(input, pos, req)
    else AwaitReply(input, pos, failed + 1, seen, last, req, entry)
  }

  /** `_reset()` followed by `return send_command(req)`; neither is inside a `try`. */
  function ResetAndResend(input: seq<byte>, pos: nat, req: Frame): (x: Exchange)
    requires pos <= |input|
    ensures pos <= x.pos <= |input|
    ensures |x.sent| > 0 && x.sent[0] == RESET_REQUEST && Among(x.sent, req)
    ensures x.result.Success? ==> x.failed <= MAX_ATTEMPTS
    ensures x.result == Failure(NotResponding) ==> x.failed > MAX_ATTEMPTS
    ensures x.result.Failure? ==> !x.result.error.Uninterpretable?
    decreases |input| - pos, 0, 0, 0, 0
  {
    var w := AwaitEcho(input, pos, 0);
    if !w.echoed then Exchange(Failure(NotResponding), w.pos, w.failed, [RESET_REQUEST])
    else
      var x := Send(input, w.pos, w.failed, req);
      x.(sent := [RESET_REQUEST] + x.sent)
  }

  // ---------------------------------------------------------------------------------------
  // update

  /** The dictionary `update` builds, or the exception it raised, and the link state. */
  datatype Poll = Poll(result: Result<map<string, Value>, Error>, pos: nat, failed: nat, sent: seq<Frame>)

  /**
    `d = send_command(control, command, NO_DATA)` followed by
    `data.update(format_data(control, command, d))`; skipped once an earlier statement raised.
  */
  function Query(input: seq<byte>, p: Poll, control: byte, command: byte): (q: Poll)
    requires p.pos <= |input|
    ensures p.pos <= q.pos <= |input|
  {
    if p.result.Failure? then p
    else
      var x := Send(input, p.pos, p.failed, Frame(control, command, NO_DATA));
      var sent := p.sent + x.sent;
      match x.result
      case Failure(e) => Poll(Failure(e), x.pos, x.failed, sent)
      case Success(d) =>
        match FormatData(control, command, d)
        case Failure(e) => Poll(Failure(Uninterpretable(e)), x.pos, x.failed, sent)
        case Success(entry) => Poll(Success(p.result.value[entry.key := entry.value]), x.pos, x.failed, sent)
  }

  /** `update()`: the queries the stored hardware model calls for, in the source's order. */
  function PollCycle(input: seq<byte>, pos: nat, failed: nat, model: seq<byte>): (p: Poll)
    requires pos <= |input|
    ensures pos <= p.pos <= |input|
  {
    var start := Poll(Success(map[]), pos, failed, []);
    if model == MR60BHA1 then
      var p1 := Query(input, start, PRESENCE, EXISTENCE_STATUS);
      var p2 := Query(input, p1, HEART, HEART_RATE);
      Query(input, p2, RESPIRATORY, RESPIRATORY_RATE)
    else if model == MR24HPC1 then
      Query(input, start, PRESENCE, EXISTENCE_STATUS)
    else start
  }

  // ---------------------------------------------------------------------------------------
  // init

  /** The state after a run of `send_command` statements whose replies are ignored. */
  datatype Chain = Chain(outcome: Outcome<Error>, pos: nat, failed: nat, sent: seq<Frame>)

  /** One `send_command(req)` statement of `init`; skipped once an earlier one raised. */
  function Then(input: seq<byte>, c: Chain, req: Frame): (d: Chain)
    requires c.pos <= |input|
    ensures c.pos <= d.pos <= |input|
  {
    if c.outcome.Fail? then c
    else
      var x := Send(input, c.pos, c.failed, req);
      Chain(if x.result.Success? then Pass else Fail(x.result.error), x.pos, x.failed, c.sent + x.sent)
  }

  /** The monitoring switches `init` sends for each known model, in order. */
  function Toggles(model: seq<byte>): seq<Frame>
  {
    if model == MR60BHA1 then
      [ Frame(PRESENCE, TOGGLE_PRESENCE_MONITORING, TURN_OFF),
        Frame(HEART, TOGGLE_HEART_MONITORING, TURN_OFF),
        Frame(RESPIRATORY, TOGGLE_RESPIRATORY_MONITORING, TURN_ON),
        Frame(SLEEP, TOGGLE_SLEEP_MONITORING, TURN_OFF),
        Frame(0x84, 0x0F, [0x00]) ]
    else if model == MR24HPC1 then
      [ Frame(UNDERLYING_OPEN_FUNCTION, TOGGLE_UNDERLYING_OPEN_FUNCTION, TURN_ON),
        Frame(PRESENCE, SET_EXISTENCE_TIME, [0x00]) ]
    else []
  }

  /** A run of `send_command` statements, one per request, in order. */
  function ThenAll(input: seq<byte>, c: Chain, reqs: seq<Frame>): (d: Chain)
    requires c.pos <= |input|
    ensures c.pos <= d.pos <= |input|
    ensures |c.sent| > 0 ==> |d.sent| > 0 && d.sent[0] == c.sent[0]
    decreases |reqs|
  {
    if reqs == [] then c else ThenAll(input, Then(input, c, reqs[0]), reqs[1..])
  }

  /** What `init` returns or raises, the global `model` it leaves, and the link state. */
  datatype Startup = Startup(result: Result<seq<byte>, Error>, model: seq<byte>, pos: nat, failed: nat, sent: seq<Frame>)

  /**
    The command sequence of `init`: reset, ask for the hardware model and store it, then send
    that model's switches. `model` is the global's value before the call.
  */
  function Initialize(input: seq<byte>, pos: nat, model: seq<byte>): (s: Startup)
    requires pos <= |input|
    ensures pos <= s.pos <= |input|
  {
    var w := AwaitEcho(input, pos, 0);
    if !w.echoed then Startup(Failure(NotResponding), model, w.pos, w.failed, [RESET_REQUEST])
    else Identified(input, w.pos, w.failed, model, [RESET_REQUEST])
  }

  /**
    The rest of `init` once the reset was echoed: ask for the hardware model, store it, then send
    that model's switches. `sent` holds the frames written before.
  */
  function Identified(input: seq<byte>, pos: nat, failed: nat, model: seq<byte>, sent: seq<Frame>): (s: Startup)
    requires pos <= |input|
    ensures pos <= s.pos <= |input|
  {
    var x := Send(input, pos, failed, MODEL_QUERY);
    match x.result
    case Failure(e) => Startup(Failure(e), model, x.pos, x.failed, sent + x.sent)
    case Success(m) =>
      var c := ThenAll(input, Chain(Pass, x.pos, x.failed, sent + x.sent), Toggles(m));
      Startup(if c.outcome.Pass? then Success(m) else Failure(c.outcome.error), m, c.pos, c.failed, c.sent)
  }

  // ---------------------------------------------------------------------------------------
  // Properties of `_reset`

  /** The echo that ends `_reset` is exactly the reset frame, the last bytes read. */
  lemma AwaitEchoSound(input: seq<byte>, pos: nat, failed: nat)
    requires pos <= |input|
    ensures var w := AwaitEcho(input, pos, failed);
      w.echoed ==> FrameAt(input, w.pos - Size(RESET_REQUEST), RESET_REQUEST)
  {
    var w := AwaitEcho(input, pos, failed);
    EchoEndsRead(input, pos, failed);
    if w.echoed {
      EndsAt(input, pos, w.pos, RESET_REQUEST);
    }
  }

  /** An echo ends the stretch `_reset` read with a well-formed reset frame. */
  lemma {:induction false} EchoEndsRead(input: seq<byte>, pos: nat, failed: nat)
    requires pos <= |input|
    ensures var w := AwaitEcho(input, pos, failed);
      w.echoed ==> EndsWithFrame(input, pos, w.pos, RESET_REQUEST)
    decreases |input| - pos, Budget(failed)
  {
    var o := Scan(input, pos);
    EchoStep(input, pos, failed, o.result, o.next);
    if o.result == Success(RESET_REQUEST) {
      ScanSound(input, pos);
    } else if o.result.Success? || failed + 1 <= MAX_ATTEMPTS {
      EchoEndsRead(input, o.next, failed + 1);
    }
  }

  /** One read of the loop of `_reset`, which returned `r` and stopped at `next`. */
  lemma EchoStep(input: seq<byte>, pos: nat, failed: nat, r: Result<Frame, ReadError>, next: nat)
    requires pos <= |input| && Scan(input, pos) == ReadOutcome(r, next)
    ensures r == Success(RESET_REQUEST) ==> AwaitEcho(input, pos, failed) == Echo(true, next, 0)
    ensures r.Failure? && failed + 1 > MAX_ATTEMPTS ==>
      AwaitEcho(input, pos, failed) == Echo(false, next, failed + 1)
    ensures (r.Success? && r.value != RESET_REQUEST) || (r.Failure? && failed + 1 <= MAX_ATTEMPTS) ==>
      AwaitEcho(input, pos, failed) == AwaitEcho(input, next, failed + 1)
  {
  }

  /** An echo waiting at the read position ends `_reset` at once, with the counter cleared. */
  lemma EchoFound(input: seq<byte>, pos: nat, failed: nat)
    requires FrameAt(input, pos, RESET_REQUEST)
    ensures AwaitEcho(input, pos, failed) == Echo(true, pos + Size(RESET_REQUEST), 0)
  {
    ScanAt(input, pos, RESET_REQUEST);
  }

  /** Another well-formed frame does not end `_reset`, but it is counted as an attempt. */
  lemma EchoSkipsOtherFrame(input: seq<byte>, pos: nat, failed: nat, f: Frame)
    requires FrameAt(input, pos, f) && f != RESET_REQUEST
    ensures AwaitEcho(input, pos, failed) == AwaitEcho(input, pos + Size(f), failed + 1)
  {
    ScanAt(input, pos, f);
  }

  /** A silent sensor: `_reset` gives up after the sixth timed-out read. */
  lemma {:induction false} EchoGivesUpOnSilence(input: seq<byte>, failed: nat)
    requires failed <= MAX_ATTEMPTS
    ensures AwaitEcho(input, |input|, failed) == Echo(false, |input|, MAX_ATTEMPTS + 1)
    decreases MAX_ATTEMPTS - failed
  {
    if failed < MAX_ATTEMPTS {
      EchoGivesUpOnSilence(input, failed + 1);
    }
  }

  // ---------------------------------------------------------------------------------------
  // Properties of `send_command`

  lemma Widen(input: seq<byte>, lo: nat, hi: nat, lo': nat, hi': nat, f: Frame)
    requires Received(input, lo, hi, f) && lo' <= lo && hi <= hi'
    ensures Received(input, lo', hi', f)
  {
    var m :| lo <= m && m + Size(f) <= hi && FrameAt(input, m, f);
    assert lo' <= m && m + Size(f) <= hi' && FrameAt(input, m, f);
  }

  lemma LastRead(input: seq<byte>, pos: nat)
    requires pos <= |input| && Scan(input, pos).result.Success?
    ensures Received(input, pos, Scan(input, pos).next, Scan(input, pos).result.value)
  {
    var o := Scan(input, pos);
    var f := o.result.value;
    ScanSound(input, pos);
    assert FrameAt(input, o.next - Size(f), f);
  }

  /**
    Soundness of `send_command`: a payload it returns arrived, in a frame carrying the
    request's control word and command, among the bytes the call read.
  */
  lemma {:induction false} SendSound(input: seq<byte>, pos: nat, failed: nat, req: Frame)
    requires pos <= |input|
    ensures var x := Send(input, pos, failed, req);
      x.result.Success? ==> Received(input, pos, x.pos, Frame(req.control, req.command, x.result.value))
    decreases |input| - pos, 1, 0, 0, 0
  {
    var first := Scan(input, pos);
    if first.result.Success? {
      LastRead(input, pos);
      AwaitReplySound(input, first.next, failed, 0, first.result.value, req, pos);
    }
  }

  lemma {:induction false} AwaitReplySound(input: seq<byte>, pos: nat, failed: nat, seen: nat, last: Frame, req: Frame, entry: nat)
    requires entry < pos <= |input| && Received(input, entry, pos, last)
    ensures var x := AwaitReply(input, pos, failed, seen, last, req, entry);
      x.result.Success? ==> Received(input, entry, x.pos, Frame(req.control, req.command, x.result.value))
    decreases |input| - entry, 0, |input| - pos, Budget(failed), 1
  {
    if Answers(last, req) {
      assert Frame(req.control, req.command, last.payload) == last;
    } else {
      var o := Scan(input, pos);
      if o.result.Success? {
        var f := o.result.value;
        LastRead(input, pos);
        Widen(input, pos, o.next, entry, o.next, f);
        if seen + 1 > 2 {
          var x := Send(input, o.next, 0, req);
          SendSound(input, o.next, 0, req);
          if x.result.Success? {
            Widen(input, o.next, x.pos, entry, x.pos, Frame(req.control, req.command, x.result.value));
          } else {
            Widen(input, entry, o.next, entry, x.pos, f);
            RecoverSound(input, x.pos, x.failed, seen + 1, f, req, entry);
          }
        } else {
          AwaitReplySound(input, o.next, 0, seen + 1, f, req, entry);
        }
      } else {
        Widen(input, entry, pos, entry, o.next, last);
        RecoverSound(input, o.next, failed, seen, last, req, entry);
      }
    }
  }

  lemma {:induction false} RecoverSound(input: seq<byte>, pos: nat, failed: nat, seen: nat, last: Frame, req: Frame, entry: nat)
    requires entry < pos <= |input| && Received(input, entry, pos, last)
    ensures var x := Recover(input, pos, failed, seen, last, req, entry);
      x.result.Success? ==> Received(input, entry, x.pos, Frame(req.control, req.command, x.result.value))
    decreases |input| - entry, 0, |input| - pos, Budget(failed), 0
  {
    if failed + 1 > MAX_ATTEMPTS {
      var x := ResetAndResend(input, pos, req);
      ResetAndResendSound(input, pos, req);
      if x.result.Success? {
        Widen(input, pos, x.pos, entry, x.pos, Frame(req.control, req.command, x.result.value));
      }
    } else {
      AwaitReplySound(input, pos, failed + 1, seen, last, req, entry);
    }
  }

  lemma {:induction false} ResetAndResendSound(input: seq<byte>, pos: nat, req: Frame)
    requires pos <= |input|
    ensures var x := ResetAndResend(input, pos, req);
      x.result.Success? ==> Received(input, pos, x.pos, Frame(req.control, req.command, x.result.value))
    decreases |input| - pos, 0, 0, 0, 0
  {
    var w := AwaitEcho(input, pos, 0);
    if w.echoed {
      var x := Send(input, w.pos, w.failed, req);
      SendSound(input, w.pos, w.failed, req);
      if x.result.Success? {
        Widen(input, w.pos, x.pos, pos, x.pos, Frame(req.control, req.command, x.result.value));
      }
    }
  }

  /** The first read of `send_command` is outside the `try`: its failure escapes unchanged. */
  lemma FirstReadFailureEscapes(input: seq<byte>, pos: nat, failed: nat, req: Frame)
    requires pos <= |input| && Scan(input, pos).result.Failure?
    ensures Send(input, pos, failed, req)
         == Exchange(Failure(ReadFailed(Scan(input, pos).result.error)), Scan(input, pos).next, failed, [req])
  {
  }

  /** An answer read first is returned at once; the counter is left as it was. */
  lemma ImmediateReply(input: seq<byte>, pos: nat, failed: nat, req: Frame, reply: Frame)
    requires FrameAt(input, pos, reply) && Answers(reply, req)
    ensures Send(input, pos, failed, req) == Exchange(Success(reply.payload), pos + Size(reply), failed, [req])
  {
    ScanAt(input, pos, reply);
  }

  /** A frame read first, outside the loop, becomes the last frame the loop starts from. */
  lemma FirstReadGood(input: seq<byte>, pos: nat, failed: nat, req: Frame, f: Frame, next: nat)
    requires pos <= |input| && Scan(input, pos) == ReadOutcome(Success(f), next)
    ensures var x := AwaitReply(input, next, failed, 0, f, req, pos);
      Send(input, pos, failed, req) == x.(sent := [req] + x.sent)
  {
  }

  /** A good read inside the loop, before the third, clears the counter and becomes the last frame. */
  lemma GoodReadContinues(input: seq<byte>, pos: nat, failed: nat, seen: nat, last: Frame, req: Frame, entry: nat, f: Frame, next: nat)
    requires entry < pos <= |input| && Scan(input, pos) == ReadOutcome(Success(f), next)
    requires !Answers(last, req) && seen < 2
    ensures AwaitReply(input, pos, failed, seen, last, req, entry) == AwaitReply(input, next, 0, seen + 1, f, req, entry)
  {
  }

  /** The third good read inside the loop resends the request, whatever frame it read. */
  lemma GoodReadResends(input: seq<byte>, pos: nat, failed: nat, seen: nat, last: Frame, req: Frame, entry: nat, f: Frame, next: nat)
    requires entry < pos <= |input| && Scan(input, pos) == ReadOutcome(Success(f), next)
    requires !Answers(last, req) && 2 <= seen
    ensures var x := AwaitReply(input, pos, failed, seen, last, req, entry);
      var y := Send(input, next, 0, req);
      && (y.result.Success? ==> x == y)
      && (y.result.Failure? ==> x == var z := Recover(input, y.pos, y.failed, seen + 1, f, req, entry); z.(sent := y.sent + z.sent))
  {
  }

  /** A stale frame read before the answer is skipped; the good read clears the counter. */
  lemma StaleFrameTolerated(input: seq<byte>, pos: nat, failed: nat, req: Frame, stale: Frame, p1: nat, reply: Frame, p2: nat)
    requires pos <= |input|
    requires Scan(input, pos) == ReadOutcome(Success(stale), p1) && !Answers(stale, req)
    requires Scan(input, p1) == ReadOutcome(Success(reply), p2) && Answers(reply, req)
    ensures Send(input, pos, failed, req) == Exchange(Success(reply.payload), p2, 0, [req])
  {
    var x := AwaitReply(input, p2, 0, 1, reply, req, pos);
    assert x == Exchange(Success(reply.payload), p2, 0, []);
    assert AwaitReply(input, p1, failed, 0, stale, req, pos) == x by {
      GoodReadContinues(input, p1, failed, 0, stale, req, pos, reply, p2);
    }
    FirstReadGood(input, pos, failed, req, stale, p1);
    assert [req] + x.sent == [req];
  }

  /**
    After three reads return frames that do not answer, the next good read resends the request,
    even when it returned the answer; if the resend succeeds its result is returned.
  */
  lemma ResendAfterThirdRead(input: seq<byte>, pos: nat, failed: nat, req: Frame, f0: Frame, p1: nat, f1: Frame, p2: nat, f2: Frame, p3: nat, f3: Frame, p4: nat)
    requires pos <= |input|
    requires Scan(input, pos) == ReadOutcome(Success(f0), p1) && !Answers(f0, req)
    requires Scan(input, p1) == ReadOutcome(Success(f1), p2) && !Answers(f1, req)
    requires Scan(input, p2) == ReadOutcome(Success(f2), p3) && !Answers(f2, req)
    requires Scan(input, p3) == ReadOutcome(Success(f3), p4)
    ensures var x := Send(input, pos, failed, req);
      var y := Send(input, p4, 0, req);
      && |x.sent| >= 2 && x.sent[..2] == [req, req]
      && (y.result.Success? ==> x == y.(sent := [req] + y.sent))
  {
    var a := AwaitReply(input, p3, 0, 2, f2, req, pos);
    assert AwaitReply(input, p2, 0, 1, f1, req, pos) == a by {
      GoodReadContinues(input, p2, 0, 1, f1, req, pos, f2, p3);
    }
    assert AwaitReply(input, p1, failed, 0, f0, req, pos) == a by {
      GoodReadContinues(input, p1, failed, 0, f0, req, pos, f1, p2);
    }
    FirstReadGood(input, pos, failed, req, f0, p1);
    GoodReadResends(input, p3, 0, 2, f2, req, pos, f3, p4);
    var y := Send(input, p4, 0, req);
    assert a.sent[..1] == [req] by {
      if y.result.Failure? {
        var z := Recover(input, y.pos, y.failed, 3, f3, req, pos);
        assert a.sent == y.sent + z.sent;
      }
    }
  }

  /** The position after `k` consecutive failed reads from `pos`, if the first `k` reads all fail. */
  function FailedReads(input: seq<byte>, pos: nat, k: nat): (r: Option<nat>)
    requires pos <= |input|
    ensures r.Some? ==> pos <= r.value <= |input|
    decreases k
  {
    if k == 0 then Some(pos)
    else
      var o := Scan(input, pos);
      if o.result.Success? then None else FailedReads(input, o.next, k - 1)
  }

  /** Failed reads that keep the counter within `MAX_ATTEMPTS` only raise it: the wait goes on. */
  lemma {:induction false} RetryWithinBound(input: seq<byte>, pos: nat, failed: nat, k: nat, seen: nat, last: Frame, req: Frame, entry: nat)
    requires entry < pos <= |input| && !Answers(last, req)
    requires failed + k <= MAX_ATTEMPTS && FailedReads(input, pos, k).Some?
    ensures var q := FailedReads(input, pos, k).value;
      AwaitReply(input, pos, failed, seen, last, req, entry) == AwaitReply(input, q, failed + k, seen, last, req, entry)
    decreases k
  {
    if k > 0 {
      var o := Scan(input, pos);
      var x := AwaitReply(input, o.next, failed + 1, seen, last, req, entry);
      assert Recover(input, o.next, failed, seen, last, req, entry) == x;
      RetryWithinBound(input, o.next, failed + 1, k - 1, seen, last, req, entry);
    }
  }

  /** One read of the loop of `send_command`, which returned `r` and stopped at `next`. */
  lemma ReplyStep(input: seq<byte>, pos: nat, failed: nat, seen: nat, last: Frame, req: Frame, entry: nat,
                  r: Result<Frame, ReadError>, next: nat)
    requires entry < pos <= |input| && !Answers(last, req) && Scan(input, pos) == ReadOutcome(r, next)
    ensures r.Success? && seen + 1 <= 2 ==>
      AwaitReply(input, pos, failed, seen, last, req, entry) == AwaitReply(input, next, 0, seen + 1, r.value, req, entry)
    ensures r.Success? && seen + 1 > 2 ==>
      var x := Send(input, next, 0, req);
      AwaitReply(input, pos, failed, seen, last, req, entry)
        == if x.result.Success? then x
           else var y := Recover(input, x.pos, x.failed, seen + 1, r.value, req, entry);
             y.(sent := x.sent + y.sent)
    ensures r.Failure? ==>
      AwaitReply(input, pos, failed, seen, last, req, entry) == Recover(input, next, failed, seen, last, req, entry)
  {
  }

  /** The `except` clause of the loop of `send_command`, unfolded once. */
  lemma RecoverStep(input: seq<byte>, pos: nat, failed: nat, seen: nat, last: Frame, req: Frame, entry: nat)
    requires entry < pos <= |input|
    ensures Recover(input, pos, failed, seen, last, req, entry)
      == if failed + 1 > MAX_ATTEMPTS then ResetAndResend(input, pos, req)
         else AwaitReply(input, pos, failed + 1, seen, last, req, entry)
  {
  }

  /** The failed read that takes the counter past `MAX_ATTEMPTS` resets the sensor and resends. */
  lemma ResetPastBound(input: seq<byte>, pos: nat, failed: nat, k: nat, seen: nat, last: Frame, req: Frame, entry: nat)
    requires entry < pos <= |input| && !Answers(last, req)
    requires 0 < k && failed + k == MAX_ATTEMPTS + 1 && FailedReads(input, pos, k).Some?
    ensures var q := FailedReads(input, pos, k).value;
      AwaitReply(input, pos, failed, seen, last, req, entry) == ResetAndResend(input, q, req)
  {
    RetryWithinBound(input, pos, failed, k - 1, seen, last, req, entry);
    FailedReadsStep(input, pos, k);
    var q := FailedReads(input, pos, k - 1).value;
    var o := Scan(input, q);
    ReplyStep(input, q, MAX_ATTEMPTS, seen, last, req, entry, o.result, o.next);
    RecoverStep(input, o.next, MAX_ATTEMPTS, seen, last, req, entry);
  }

  lemma {:induction false} FailedReadsStep(input: seq<byte>, pos: nat, k: nat)
    requires pos <= |input| && 0 < k && FailedReads(input, pos, k).Some?
    ensures var q' := FailedReads(input, pos, k - 1);
      && q'.Some? && Scan(input, q'.value).result.Failure?
      && FailedReads(input, pos, k).value == Scan(input, q'.value).next
    decreases k
  {
    if k > 1 {
      FailedReadsStep(input, Scan(input, pos).next, k - 1);
    }
  }

  /**
    Within the bound, an answer that arrives after failed reads is taken, unless it is the third
    good read of the loop, which resends instead.
  */
  lemma RecoversWithinBound(input: seq<byte>, pos: nat, failed: nat, k: nat, seen: nat, last: Frame, req: Frame, entry: nat, reply: Frame)
    requires entry < pos <= |input| && !Answers(last, req) && seen < 2
    requires failed + k <= MAX_ATTEMPTS && FailedReads(input, pos, k).Some?
    requires FrameAt(input, FailedReads(input, pos, k).value, reply) && Answers(reply, req)
    ensures var q := FailedReads(input, pos, k).value;
      AwaitReply(input, pos, failed, seen, last, req, entry).result == Success(reply.payload)
  {
    var q := FailedReads(input, pos, k).value;
    RetryWithinBound(input, pos, failed, k, seen, last, req, entry);
    ScanAt(input, q, reply);
    GoodReadContinues(input, q, failed + k, seen, last, req, entry, reply, q + Size(reply));
  }

  // ---------------------------------------------------------------------------------------
  // Order of the requests written

  /** The requests in a write log, in order: reset frames dropped, repeats of a request merged. */
  function Requests(sent: seq<Frame>): seq<Frame>
  {
    if sent == [] then []
    else
      var earlier := Requests(sent[..|sent| - 1]);
      var f := sent[|sent| - 1];
      if f == RESET_REQUEST || (earlier != [] && earlier[|earlier| - 1] == f) then earlier
      else earlier + [f]
  }

  lemma {:induction false} RequestsExtend(a: seq<Frame>, b: seq<Frame>, req: Frame)
    requires req != RESET_REQUEST && Among(b, req)
    requires Requests(a) == [] || Requests(a)[|Requests(a)| - 1] != req
    ensures Requests(a + b) == if req in b then Requests(a) + [req] else Requests(a)
    decreases |b|
  {
    if b == [] {
      assert a + b == a;
    } else {
      var b' := b[..|b| - 1];
      assert (a + b)[..|a + b| - 1] == a + b';
      assert b == b' + [b[|b| - 1]];
      RequestsExtend(a, b', req);
    }
  }

  /** One `send_command` adds its request, once, to the requests written before it. */
  lemma SendExtends(input: seq<byte>, pos: nat, failed: nat, req: Frame, a: seq<Frame>)
    requires pos <= |input| && req != RESET_REQUEST
    requires Requests(a) == [] || Requests(a)[|Requests(a)| - 1] != req
    ensures Requests(a + Send(input, pos, failed, req).sent) == Requests(a) + [req]
  {
    var x := Send(input, pos, failed, req);
    RequestsExtend(a, x.sent, req);
  }

  // ---------------------------------------------------------------------------------------
  // Properties of `update` and `init`

  /** The queries `update` makes for each known model, in order. */
  function Queries(model: seq<byte>): seq<Frame>
  {
    if model == MR60BHA1 then
      [ Frame(PRESENCE, EXISTENCE_STATUS, NO_DATA),
        Frame(HEART, HEART_RATE, NO_DATA),
        Frame(RESPIRATORY, RESPIRATORY_RATE, NO_DATA) ]
    else if model == MR24HPC1 then [Frame(PRESENCE, EXISTENCE_STATUS, NO_DATA)]
    else []
  }

  /** The keys of the dictionary `update` returns for each known model. */
  function Keys(model: seq<byte>): set<string>
  {
    if model == MR60BHA1 then {"existence_status", "heart_rate", "respiratory_rate"}
    else if model == MR24HPC1 then {"existence_status"}
    else {}
  }

  lemma QueryStep(input: seq<byte>, p: Poll, control: byte, command: byte)
    requires p.pos <= |input| && Frame(control, command, NO_DATA) != RESET_REQUEST
    requires Requests(p.sent) == [] || Requests(p.sent)[|Requests(p.sent)| - 1] != Frame(control, command, NO_DATA)
    ensures var q := Query(input, p, control, command);
      if p.result.Failure? then q == p
      else Requests(q.sent) == Requests(p.sent) + [Frame(control, command, NO_DATA)]
  {
    if p.result.Success? {
      SendExtends(input, p.pos, p.failed, Frame(control, command, NO_DATA), p.sent);
    }
  }

  /**
    `update` sends its model's queries in order, each once apart from resends, and nothing after
    a query that raised; an unknown model sends nothing.
  */
  lemma PollRequests(input: seq<byte>, pos: nat, failed: nat, model: seq<byte>)
    requires pos <= |input|
    ensures var p := PollCycle(input, pos, failed, model);
      && Requests(p.sent) <= Queries(model)
      && (p.result.Success? ==> Requests(p.sent) == Queries(model))
      && (Queries(model) == [] ==> p == Poll(Success(map[]), pos, failed, []))
  {
    var start := Poll(Success(map[]), pos, failed, []);
    var q := Queries(model);
    if model == MR60BHA1 {
      var p1 := Query(input, start, PRESENCE, EXISTENCE_STATUS);
      var p2 := Query(input, p1, HEART, HEART_RATE);
      QueryStep(input, start, PRESENCE, EXISTENCE_STATUS);
      QueryStep(input, p1, HEART, HEART_RATE);
      QueryStep(input, p2, RESPIRATORY, RESPIRATORY_RATE);
      assert q[..1] <= q && q[..2] <= q;
      assert [] + [q[0]] == q[..1] && q[..1] + [q[1]] == q[..2] && q[..2] + [q[2]] == q;
    } else if model == MR24HPC1 {
      QueryStep(input, start, PRESENCE, EXISTENCE_STATUS);
      assert [] + [q[0]] == q;
    }
  }

  /**
    A dictionary `update` returns holds exactly its model's readings, and the readings it asks
    for never raise `IndexError`.
  */
  lemma PollKeys(input: seq<byte>, pos: nat, failed: nat, model: seq<byte>)
    requires pos <= |input|
    ensures var p := PollCycle(input, pos, failed, model);
      && (p.result.Success? ==> p.result.value.Keys == Keys(model))
      && (p.result.Failure? ==> !p.result.error.Uninterpretable?)
  {
    var start := Poll(Success(map[]), pos, failed, []);
    if model == MR60BHA1 {
      var p1 := Query(input, start, PRESENCE, EXISTENCE_STATUS);
      var p2 := Query(input, p1, HEART, HEART_RATE);
      QueryAddsKey(input, start, PRESENCE, EXISTENCE_STATUS, "existence_status");
      QueryAddsKey(input, p1, HEART, HEART_RATE, "heart_rate");
      QueryAddsKey(input, p2, RESPIRATORY, RESPIRATORY_RATE, "respiratory_rate");
    } else if model == MR24HPC1 {
      QueryAddsKey(input, start, PRESENCE, EXISTENCE_STATUS, "existence_status");
    }
  }

  /** A query whose reading cannot raise adds its key, or passes on the error that stopped it. */
  lemma QueryAddsKey(input: seq<byte>, p: Poll, control: byte, command: byte, key: string)
    requires p.pos <= |input|
    requires forall d :: FormatData(control, command, d).Success? && FormatData(control, command, d).value.key == key
    ensures var q := Query(input, p, control, command);
      && (q.result.Success? ==> p.result.Success? && q.result.value.Keys == p.result.value.Keys + {key})
      && (q.result.Failure? && q.result.error.Uninterpretable? ==> p.result.Failure? && p.result.error.Uninterpretable?)
  {
  }

  lemma ThenStep(input: seq<byte>, c: Chain, req: Frame)
    requires c.pos <= |input| && c.outcome.Pass? && req != RESET_REQUEST
    requires Requests(c.sent) == [] || Requests(c.sent)[|Requests(c.sent)| - 1] != req
    ensures Requests(Then(input, c, req).sent) == Requests(c.sent) + [req]
  {
    SendExtends(input, c.pos, c.failed, req, c.sent);
  }

  /** No request is the reset frame and no two neighbours are the same request. */
  predicate Separated(reqs: seq<Frame>)
  {
    && (forall i | 0 <= i < |reqs| :: reqs[i] != RESET_REQUEST)
    && (forall i | 0 < i < |reqs| :: reqs[i] != reqs[i - 1])
  }

  /** Once a statement has raised, the remaining ones do not run. */
  lemma {:induction false} ThenAllSkips(input: seq<byte>, c: Chain, reqs: seq<Frame>)
    requires c.pos <= |input| && c.outcome.Fail?
    ensures ThenAll(input, c, reqs) == c
    decreases |reqs|
  {
    if reqs != [] {
      ThenAllSkips(input, c, reqs[1..]);
    }
  }

  /**
    A run of `send_command` statements adds its requests in order, each once, and stops adding
    at the first one that raised.
  */
  lemma {:induction false} ThenAllRequests(input: seq<byte>, c: Chain, reqs: seq<Frame>)
    requires c.pos <= |input| && c.outcome.Pass? && Separated(reqs)
    requires reqs != [] && Requests(c.sent) != [] ==> Requests(c.sent)[|Requests(c.sent)| - 1] != reqs[0]
    ensures var d := ThenAll(input, c, reqs);
      && Requests(d.sent) <= Requests(c.sent) + reqs
      && (d.outcome.Pass? ==> Requests(d.sent) == Requests(c.sent) + reqs)
    decreases |reqs|
  {
    var R := Requests(c.sent);
    if reqs == [] {
      assert R + reqs == R;
    } else {
      var c1 := Then(input, c, reqs[0]);
      ThenStep(input, c, reqs[0]);
      if c1.outcome.Fail? {
        ThenAllHalts(input, c, reqs);
      } else {
        assert ThenAll(input, c, reqs) == ThenAll(input, c1, reqs[1..]);
        PeelFirst(R, reqs);
        SeparatedTail(reqs);
        ThenAllRequests(input, c1, reqs[1..]);
      }
    }
  }

  lemma SeparatedTail(reqs: seq<Frame>)
    requires Separated(reqs) && reqs != []
    ensures Separated(reqs[1..])
  {
    assert forall i | 0 <= i < |reqs| - 1 :: reqs[1..][i] == reqs[i + 1];
  }

  /** The first of a run of statements raised: its request is the last one added. */
  lemma ThenAllHalts(input: seq<byte>, c: Chain, reqs: seq<Frame>)
    requires c.pos <= |input| && c.outcome.Pass? && reqs != []
    requires var c1 := Then(input, c, reqs[0]);
      c1.outcome.Fail? && Requests(c1.sent) == Requests(c.sent) + [reqs[0]]
    ensures var d := ThenAll(input, c, reqs);
      d.outcome.Fail? && Requests(d.sent) <= Requests(c.sent) + reqs
  {
    var c1 := Then(input, c, reqs[0]);
    ThenAllSkips(input, c1, reqs[1..]);
    var R := Requests(c.sent);
    assert R + [reqs[0]] == (R + reqs)[..|R| + 1];
  }

  lemma PeelFirst(a: seq<Frame>, b: seq<Frame>)
    requires b != []
    ensures (a + [b[0]]) + b[1..] == a + b
  {
    assert b == [b[0]] + b[1..];
  }

  /** Each model's switches can follow the model query without merging into a resend. */
  lemma TogglesSeparated(model: seq<byte>)
    ensures Separated(Toggles(model))
    ensures Toggles(model) != [] ==> Toggles(model)[0] != MODEL_QUERY
  {
    var t := Toggles(model);
    if model == MR60BHA1 {
      assert t[0].control == PRESENCE && t[1].control == HEART && t[2].control == RESPIRATORY;
      assert t[3].control == SLEEP && t[4].control == 0x84;
    } else if model == MR24HPC1 {
      assert t[0].control == UNDERLYING_OPEN_FUNCTION && t[1].control == PRESENCE;
    }
  }

  /**
    After the reset, `init` writes the model query, then the switches of the model it read, in
    order; it stops sending at the first call that raised.
  */
  lemma IdentifiedRequests(input: seq<byte>, pos: nat, failed: nat, model: seq<byte>)
    requires pos <= |input|
    ensures var s := Identified(input, pos, failed, model, [RESET_REQUEST]);
      && |s.sent| > 0 && s.sent[0] == RESET_REQUEST
      && Requests(s.sent) <= [MODEL_QUERY] + Toggles(s.model)
      && (s.result.Success? ==> Requests(s.sent) == [MODEL_QUERY] + Toggles(s.model))
  {
    assert Requests([RESET_REQUEST]) == [] by {
      assert [RESET_REQUEST][..0] == [];
    }
    var x := Send(input, pos, failed, MODEL_QUERY);
    SendExtends(input, pos, failed, MODEL_QUERY, [RESET_REQUEST]);
    assert [] + [MODEL_QUERY] == [MODEL_QUERY];
    if x.result.Success? {
      var m := x.result.value;
      TogglesSeparated(m);
      ThenAllRequests(input, Chain(Pass, x.pos, x.failed, [RESET_REQUEST] + x.sent), Toggles(m));
      assert [MODEL_QUERY] <= [MODEL_QUERY] + Toggles(m);
    }
  }

  /**
    `init` writes the reset frame first, then the model query, then the switches of the model it
    read, in order; it stops sending at the first call that raised.
  */
  lemma StartupRequests(input: seq<byte>, pos: nat, model: seq<byte>)
    requires pos <= |input|
    ensures var s := Initialize(input, pos, model);
      && |s.sent| > 0 && s.sent[0] == RESET_REQUEST
      && Requests(s.sent) <= [MODEL_QUERY] + Toggles(s.model)
      && (s.result.Success? ==> Requests(s.sent) == [MODEL_QUERY] + Toggles(s.model))
  {
    var w := AwaitEcho(input, pos, 0);
    if w.echoed {
      IdentifiedRequests(input, w.pos, w.failed, model);
    } else {
      assert Requests([RESET_REQUEST]) == [] by {
        assert [RESET_REQUEST][..0] == [];
      }
    }
  }

  /**
    The model `init` stores and returns is the payload of a hardware-model reply that arrived
    during the call; the global is left alone when no such reply came.
  */
  lemma StartupModelReceived(input: seq<byte>, pos: nat, model: seq<byte>)
    requires pos <= |input|
    ensures var s := Initialize(input, pos, model);
      && (s.result.Success? ==> s.result.value == s.model)
      && (s.model == model || Received(input, pos, s.pos, Frame(PRODUCT_INFO, HARDWARE_MODEL, s.model)))
      && (s.result.Success? ==> Received(input, pos, s.pos, Frame(PRODUCT_INFO, HARDWARE_MODEL, s.model)))
  {
    var w := AwaitEcho(input, pos, 0);
    if w.echoed {
      var x := Send(input, w.pos, w.failed, MODEL_QUERY);
      SendSound(input, w.pos, w.failed, MODEL_QUERY);
      if x.result.Success? {
        var s := Initialize(input, pos, model);
        Widen(input, w.pos, x.pos, pos, s.pos, Frame(PRODUCT_INFO, HARDWARE_MODEL, x.result.value));
      }
    }
  }
}
