/**
  The driver as the firmware runs it: a serial port object and the module state of
  `radar_sensor.py` (the stored hardware model and the failed-attempt counter). Each routine is
  written as the firmware writes it, loops and recursion included, and is proved to do exactly
  what the corresponding function of `Link` describes: same result or error, same bytes read,
  same counter, same frames written.
*/
module RadarSensor {
  import opened Wrappers
  import opened Bytes
  import opened Frames
  import opened RadarResponse
  import opened Link

  /** Bytes written for one log of frames followed by another are the bytes of the joint log. */
  lemma OutputAppend(out: seq<byte>, a: seq<Frame>, b: seq<Frame>)
    ensures out + EncodeAll(a) + EncodeAll(b) == out + EncodeAll(a + b)
  {
    EncodeAllAppend(a, b);
    Associate(out, EncodeAll(a), EncodeAll(b));
  }

  lemma Associate(x: seq<byte>, y: seq<byte>, z: seq<byte>)
    ensures x + y + z == x + (y + z)
  {
  }

  /** One pass of the marker hunt of `_read`, from position `i` of the stream. */
  lemma HuntStep(s: seq<byte>, i: nat)
    requires i < |s|
    ensures s[i..i + 1] == [s[i]]
    ensures s[i] != 0x53 ==> Scan(s, i) == Scan(s, i + 1)
    ensures s[i] == 0x53 && i + 1 == |s| ==> Scan(s, i) == Scan(s, |s|)
    ensures s[i] == 0x53 && i + 1 < |s| ==>
      s[i + 1..i + 2] == [s[i + 1]] && Scan(s, i) == if s[i + 1] == 0x59 then ParseBody(s, i + 2) else Scan(s, i + 2)
  {
  }

  /**
    `ParseBody` seen through the reads of `_read`: past the start marker at `j` the length field
    is read from `j + 2`, and `p3` to `p6` are where the reads of the length, the payload, the
    checksum and the end marker stop.
  */
  lemma BodyReads(s: seq<byte>, j: nat, p3: nat, p4: nat, p5: nat, p6: nat)
    requires j + 2 < |s|
    requires p3 == if j + 4 <= |s| then j + 4 else |s|
    requires var n := FromBytesBig(s[j + 2..p3]); p4 == if p3 + n <= |s| then p3 + n else |s|
    requires p5 == if p4 + 1 <= |s| then p4 + 1 else |s|
    requires p6 == if p5 + 2 <= |s| then p5 + 2 else |s|
    ensures s[j..j + 1] == [s[j]] && s[j + 1..j + 2] == [s[j + 1]]
    ensures !(p5 < |s| && s[p5..p6] == FRAME_END) ==> ParseBody(s, j) == ReadOutcome(Failure(NotClosed), p6)
    ensures p5 < |s| && s[p5..p6] == FRAME_END ==>
      && p4 == j + 4 + FromBytesBig(s[j + 2..p3]) && p5 == p4 + 1
      && s[p4..p5] == [s[p4]]
      && FRAME_START + s[j..j + 1] + s[j + 1..j + 2] + s[j + 2..p3] + s[p3..p4] == FRAME_START + s[j..p4]
      && ParseBody(s, j) == ReadOutcome(
        if [Checksum(FRAME_START + s[j..p4])] != [s[p4]] then Failure(ChecksumFailed)
        else Success(Frame(s[j], s[j + 1], s[p3..p4])), p6)
  {
    assert s[j..j + 1] == [s[j]] && s[j + 1..j + 2] == [s[j + 1]];
    if p5 < |s| && s[p5..p6] == FRAME_END {
      assert s[p4..p5] == [s[p4]];
      assert s[j..p4] == s[j..j + 1] + s[j + 1..j + 2] + s[j + 2..p3] + s[p3..p4];
    }
  }

  /** Once a statement of `update` has raised, the next one does not run. */
  lemma QuerySkips(input: seq<byte>, p: Poll, control: byte, command: byte)
    requires p.pos <= |input|
    ensures p.result.Failure? ==> Query(input, p, control, command) == p
  {
  }

  /** The first of a run of `send_command` statements, then the rest unless it raised. */
  lemma ThenAllStep(input: seq<byte>, c: Chain, reqs: seq<Frame>)
    requires c.pos <= |input| && reqs != []
    ensures var d := Then(input, c, reqs[0]);
      ThenAll(input, c, reqs) == if d.outcome.Fail? then d else ThenAll(input, d, reqs[1..])
  {
    var d := Then(input, c, reqs[0]);
    if d.outcome.Fail? {
      ThenAllSkips(input, d, reqs[1..]);
    }
  }

  /** `ResetAndResend` unfolded once, given how its `_reset` ended. */
  lemma ResetAndResendStep(input: seq<byte>, pos: nat, req: Frame, w: Echo)
    requires pos <= |input| && w == AwaitEcho(input, pos, 0)
    ensures !w.echoed ==>
      ResetAndResend(input, pos, req) == Exchange(Failure(NotResponding), w.pos, w.failed, [RESET_REQUEST])
    ensures w.echoed ==>
      var x := Send(input, w.pos, 0, req);
      ResetAndResend(input, pos, req) == x.(sent := [RESET_REQUEST] + x.sent)
  {
  }

  /** Writing a single frame logs that frame. */
  lemma OutputOne(out: seq<byte>, f: Frame)
    ensures out + EncodeFrame(f) == out + EncodeAll([f])
  {
    OutputPush(out, [], f);
    assert [] + [f] == [f];
  }

  lemma Regroup(a: seq<Frame>, b: seq<Frame>, c: seq<Frame>)
    ensures a + (b + c) == a + b + c
  {
  }

  /** Writing one more frame extends the log by that frame. */
  lemma OutputPush(out: seq<byte>, a: seq<Frame>, f: Frame)
    ensures out + EncodeAll(a) + EncodeFrame(f) == out + EncodeAll(a + [f])
  {
    var e := EncodeFrame(f);
    assert EncodeAll([f]) == e by {
      assert [f][1..] == [];
      assert EncodeAll([f]) == e + EncodeAll([]);
    }
    OutputAppend(out, a, [f]);
  }

  /**
    The serial port. `input` is every byte the sensor will send, `pos` counts the bytes read so
    far and `output` is every byte written. A read that finds the input exhausted has waited out
    the timeout.
  */
  class Uart {
    const input: seq<byte>
    var pos: nat
    var output: seq<byte>

    ghost predicate Valid()
      reads this
    {
      pos <= |input|
    }

    constructor (input: seq<byte>)
      ensures Valid() && this.input == input && pos == 0 && output == []
    {
      this.input := input;
      pos := 0;
      output := [];
    }

    /** `uart.read(n)`: up to `n` bytes, fewer when the input runs out, `None` when none arrived. */
    method Read(n: nat) returns (r: Option<seq<byte>>)
      requires Valid()
      modifies this
      ensures Valid() && output == old(output)
      ensures pos == if old(pos) + n <= |input| then old(pos) + n else |input|
      ensures r == if 0 < n && old(pos) == |input| then None else Some(input[old(pos)..pos])
    {
      if 0 < n && pos == |input| {
        return None;
      }
      var stop := if pos + n <= |input| then pos + n else |input|;
      r := Some(input[pos..stop]);
      pos := stop;
    }

    /** `uart.write(bytes)`. */
    method Write(bytes: seq<byte>)
      modifies this
      ensures output == old(output) + bytes && pos == old(pos)
    {
      output := output + bytes;
    }
  }

  /** The module state of the driver, and its routines. */
  class Sensor {
    const uart: Uart
    var model: seq<byte>
    var failedAttempts: nat

    ghost predicate Valid()
      reads this, uart
    {
      uart.Valid()
    }

    constructor (uart: Uart)
      requires uart.Valid()
      ensures Valid() && this.uart == uart && model == [] && failedAttempts == 0
    {
      this.uart := uart;
      model := [];
      failedAttempts := 0;
    }

    /** `_read`: hunt for a start marker, then read and check the rest of the frame. */
    method ReadFrame() returns (r: Result<Frame, ReadError>)
      requires Valid()
      modifies uart
      ensures Valid() && uart.output == old(uart.output)
      ensures ReadOutcome(r, uart.pos) == Scan(uart.input, old(uart.pos))
    {
      ghost var s, i := uart.input, uart.pos;
      while uart.pos < |uart.input|
        invariant Valid() && uart.output == old(uart.output) && s == uart.input && i == uart.pos
        invariant Scan(s, i) == Scan(s, old(uart.pos))
        decreases |s| - i
      {
        HuntStep(s, i);
        var first := uart.Read(1);
        if first == Some([0x53]) {
          var second := uart.Read(1);
          if second == Some([0x59]) {
            r := ReadBody();
            return;
          }
        }
        i := uart.pos;
      }
      r := Failure(Timeout);
    }

    /**
      The part of `_read` after a start marker: read the fields inside the `try`, then check the
      end marker, then the checksum.
    */
    method ReadBody() returns (r: Result<Frame, ReadError>)
      requires Valid()
      modifies uart
      ensures Valid() && uart.output == old(uart.output)
      ensures ReadOutcome(r, uart.pos) == ParseBody(uart.input, old(uart.pos))
    {
      ghost var s, j := uart.input, uart.pos;
      var control := uart.Read(1);
      var command := uart.Read(1);
      var length := uart.Read(2);
      if length.None? {
        // `int.from_bytes(None, "big")` raises inside the `try`
        return Failure(PacketUnreadable);
      }
      ghost var p3 := uart.pos;
      var data := uart.Read(FromBytesBig(length.value));
      ghost var p4 := uart.pos;
      var checksum := uart.Read(1);
      ghost var p5 := uart.pos;
      var endFrame := uart.Read(2);
      BodyReads(s, j, p3, p4, p5, uart.pos);
      if endFrame != Some(FRAME_END) {
        return Failure(NotClosed);
      }
      var frame := FRAME_START + control.value + command.value + length.value + data.value;
      if Some([Checksum(frame)]) == checksum {
        return Success(Frame(control.value[0], command.value[0], data.value));
      }
      return Failure(ChecksumFailed);
    }

    /** `_write`: frame the request and send it. */
    method WriteFrame(control: byte, command: byte, data: seq<byte>)
      requires Valid()
      modifies uart
      ensures Valid() && uart.pos == old(uart.pos)
      ensures uart.output == old(uart.output) + Encode(control, command, data)
    {
      var length := ToBytesBig2(|data|);
      var checksum := [Checksum(FRAME_START + [control] + [command] + length + data)];
      assert FRAME_START + [control] + [command] + length + data == Header(control, command, data);
      uart.Write(FRAME_START + [control] + [command] + length + data + checksum + FRAME_END);
    }

    /** `_reset`: send the reset frame and read until it is echoed, or give up. */
    method Reset() returns (o: Outcome<Error>)
      requires Valid()
      modifies this, uart
      ensures Valid() && model == old(model)
      ensures var w := AwaitEcho(uart.input, old(uart.pos), 0);
        && uart.pos == w.pos && failedAttempts == w.failed
        && uart.output == old(uart.output) + EncodeFrame(RESET_REQUEST)
        && o == if w.echoed then Pass else Fail(NotResponding)
    {
      var control, command, data := SYSTEM_FUNCTIONS, SYSTEM_RESET, NO_DATA;
      WriteFrame(control, command, data);
      failedAttempts := 0;
      var last: Option<Frame> := None;
      ghost var w := AwaitEcho(uart.input, uart.pos, 0);
      assert Frame(control, command, data) == RESET_REQUEST;
      while last != Some(Frame(control, command, data))
        invariant Valid() && model == old(model) && uart.output == old(uart.output) + EncodeFrame(RESET_REQUEST)
        invariant old(uart.pos) <= uart.pos
        invariant last != Some(RESET_REQUEST) ==> AwaitEcho(uart.input, uart.pos, failedAttempts) == w
        invariant last == Some(RESET_REQUEST) ==> w == Echo(true, uart.pos, 0)
        decreases |uart.input| - uart.pos, Budget(failedAttempts)
      {
        var r, over := EchoAttempt(w);
        if over {
          return Fail(NotResponding);
        }
        if r.Success? {
          last := Some(r.value);
        }
      }
      failedAttempts := 0;
      o := Pass;
    }

    /**
      One pass of the read loop of `_reset`, whose outcome is `w`: read, count the attempt, and
      give up past `MAX_ATTEMPTS` failed reads.
    */
    method EchoAttempt(ghost w: Echo) returns (r: Result<Frame, ReadError>, over: bool)
      requires Valid() && AwaitEcho(uart.input, uart.pos, failedAttempts) == w
      modifies this, uart
      ensures Valid() && model == old(model) && uart.output == old(uart.output)
      ensures old(uart.pos) <= uart.pos && failedAttempts == old(failedAttempts) + 1
      ensures Scan(uart.input, old(uart.pos)) == ReadOutcome(r, uart.pos)
      ensures over <==> r.Failure? && failedAttempts > MAX_ATTEMPTS
      ensures over ==> w == Echo(false, uart.pos, failedAttempts)
      ensures r == Success(RESET_REQUEST) ==> w == Echo(true, uart.pos, 0)
      ensures !over && r != Success(RESET_REQUEST) ==> AwaitEcho(uart.input, uart.pos, failedAttempts) == w
    {
      ghost var pos, failed := uart.pos, failedAttempts;
      r := ReadFrame();
      EchoStep(uart.input, pos, failed, r, uart.pos);
      failedAttempts := failedAttempts + 1;
      over := r.Failure? && failedAttempts > MAX_ATTEMPTS;
    }

    /**
      `send_command`: write the request and read until a frame answers it. The third good read
      inside the loop resends by recursion inside the `try`; a failure there, or a failed read,
      is counted, and past `MAX_ATTEMPTS` the sensor is reset and the request sent afresh.
    */
    method SendCommand(control: byte, command: byte, data: seq<byte>) returns (r: Result<seq<byte>, Error>)
      requires Valid()
      modifies this, uart
      ensures Valid() && model == old(model)
      ensures var x := Send(uart.input, old(uart.pos), old(failedAttempts), Frame(control, command, data));
        && r == x.result && uart.pos == x.pos && failedAttempts == x.failed
        && uart.output == old(uart.output) + EncodeAll(x.sent)
      decreases |uart.input| - uart.pos, 4
    {
      ghost var req := Frame(control, command, data);
      ghost var entry := uart.pos;
      ghost var target := Send(uart.input, entry, failedAttempts, req);
      WriteFrame(control, command, data);
      OutputPush(old(uart.output), [], req);
      var seen := 0;
      var first := ReadFrame();
      if first.Failure? {
        return Failure(ReadFailed(first.error));
      }
      var last := first.value;
      // the frames written so far: the request, then those of failed resends and resets
      ghost var log: seq<Frame> := [req];
      while last.control != control || last.command != command
        invariant Valid() && model == old(model) && entry == old(uart.pos) < uart.pos
        invariant var x := AwaitReply(uart.input, uart.pos, failedAttempts, seen, last, req, entry);
          target == x.(sent := log + x.sent)
        invariant uart.output == old(uart.output) + EncodeAll(log)
        decreases |uart.input| - uart.pos, Budget(failedAttempts)
      {
        var over;
        ghost var extra;
        over, r, seen, last, extra := AwaitStep(control, command, data, seen, last, entry);
        OutputAppend(old(uart.output), log, extra);
        if over {
          return;
        }
        Regroup(log, extra, AwaitReply(uart.input, uart.pos, failedAttempts, seen, last, req, entry).sent);
        log := log + extra;
      }
      assert log + [] == log;
      r := Success(last.payload);
    }

    /**
      One pass of the loop of `send_command`, entered with the reply not yet read: read a frame;
      a good read clears the counter and the third one resends the request; a failed read or a
      failed resend goes to the `except` clause. Either the exchange is `over` with result `r`, or
      the loop goes on with `nextSeen` good reads and `nextLast` the frame read last; `extra`
      holds the frames written meanwhile.
    */
    method AwaitStep(control: byte, command: byte, data: seq<byte>, seen: nat, last: Frame, ghost entry: nat)
      returns (over: bool, r: Result<seq<byte>, Error>, nextSeen: nat, nextLast: Frame, ghost extra: seq<Frame>)
      requires Valid() && entry < uart.pos && !Answers(last, Frame(control, command, data))
      modifies this, uart
      ensures Valid() && model == old(model)
      ensures uart.output == old(uart.output) + EncodeAll(extra)
      ensures var step := AwaitReply(uart.input, old(uart.pos), old(failedAttempts), seen, last, Frame(control, command, data), entry);
        if over then step == Exchange(r, uart.pos, failedAttempts, extra)
        else (entry < uart.pos && (
          var x := AwaitReply(uart.input, uart.pos, failedAttempts, nextSeen, nextLast, Frame(control, command, data), entry);
          step == x.(sent := extra + x.sent)))
      ensures !over ==> (old(uart.pos) < uart.pos
        || (uart.pos == old(uart.pos) && failedAttempts == old(failedAttempts) + 1 <= MAX_ATTEMPTS))
      decreases |uart.input| - uart.pos, 3
    {
      ghost var req := Frame(control, command, data);
      ghost var input, pos := uart.input, uart.pos;
      // `r` is meaningful only once the exchange is over
      r, nextSeen, nextLast, extra := Failure(NotResponding), seen, last, [];
      var next := ReadFrame();
      ReplyStep(input, pos, failedAttempts, seen, last, req, entry, next, uart.pos);
      if next.Failure? {
        over, r, extra := Fallback(control, command, data, seen, last, entry);
        if !over {
          ghost var x := AwaitReply(input, uart.pos, failedAttempts, seen, last, req, entry);
          assert x == x.(sent := [] + x.sent);
        }
        return;
      }
      nextLast, nextSeen := next.value, seen + 1;
      failedAttempts := 0;
      if nextSeen <= 2 {
        ghost var x := AwaitReply(input, uart.pos, 0, nextSeen, nextLast, req, entry);
        assert x == x.(sent := [] + x.sent);
        return false, r, nextSeen, nextLast, [];
      }
      over, r, extra := Resend(control, command, data, nextSeen, nextLast, entry);
    }

    /**
      The third good read of the loop of `send_command`: call `send_command` again, inside the
      `try`, so that its failure is handled like a failed read.
    */
    method Resend(control: byte, command: byte, data: seq<byte>, seen: nat, last: Frame, ghost entry: nat)
      returns (over: bool, r: Result<seq<byte>, Error>, ghost extra: seq<Frame>)
      requires Valid() && entry < uart.pos && failedAttempts == 0
      modifies this, uart
      ensures Valid() && model == old(model) && old(uart.pos) <= uart.pos
      ensures uart.output == old(uart.output) + EncodeAll(extra)
      ensures var req := Frame(control, command, data);
        var x := Send(uart.input, old(uart.pos), 0, req);
        var t := if x.result.Success? then x
          else var y := Recover(uart.input, x.pos, x.failed, seen, last, req, entry); y.(sent := x.sent + y.sent);
        if over then t == Exchange(r, uart.pos, failedAttempts, extra)
        else (entry < uart.pos && (
          var y := AwaitReply(uart.input, uart.pos, failedAttempts, seen, last, req, entry);
          t == y.(sent := extra + y.sent)))
      decreases |uart.input| - uart.pos, 5
    {
      ghost var req := Frame(control, command, data);
      ghost var x := Send(uart.input, uart.pos, 0, req);
      r := SendCommand(control, command, data);
      if r.Success? {
        return true, r, x.sent;
      }
      ghost var e;
      over, r, e := Fallback(control, command, data, seen, last, entry);
      OutputAppend(old(uart.output), x.sent, e);
      extra := x.sent + e;
      if !over {
        assert x.sent + [] == x.sent;
      }
    }

    /**
      The `except` clause of the loop of `send_command`, as `Recover` describes it: either the
      exchange is over, or the loop goes on with the counter one higher.
    */
    method Fallback(control: byte, command: byte, data: seq<byte>, seen: nat, last: Frame, ghost entry: nat)
      returns (over: bool, r: Result<seq<byte>, Error>, ghost extra: seq<Frame>)
      requires Valid() && entry < uart.pos
      modifies this, uart
      ensures Valid() && model == old(model)
      ensures uart.output == old(uart.output) + EncodeAll(extra)
      ensures var t := Recover(uart.input, old(uart.pos), old(failedAttempts), seen, last, Frame(control, command, data), entry);
        if over then t == Exchange(r, uart.pos, failedAttempts, extra)
        else (extra == [] && uart.pos == old(uart.pos) && failedAttempts == old(failedAttempts) + 1 <= MAX_ATTEMPTS
          && t == AwaitReply(uart.input, uart.pos, failedAttempts, seen, last, Frame(control, command, data), entry))
      decreases |uart.input| - uart.pos, 2
    {
      ghost var req := Frame(control, command, data);
      RecoverStep(uart.input, uart.pos, failedAttempts, seen, last, req, entry);
      ghost var z := ResetAndResend(uart.input, uart.pos, req);
      over, r := CountFailure(control, command, data);
      extra := if over then z.sent else [];
      if !over {
        assert uart.output == old(uart.output) + EncodeAll([]);
      }
    }

    /**
      The `except` clause of `send_command`: count the failure; past `MAX_ATTEMPTS` reset the
      sensor and send the request afresh, and report that the exchange is over.
    */
    method CountFailure(control: byte, command: byte, data: seq<byte>) returns (over: bool, r: Result<seq<byte>, Error>)
      requires Valid()
      modifies this, uart
      ensures Valid() && model == old(model)
      ensures over <==> old(failedAttempts) + 1 > MAX_ATTEMPTS
      ensures over ==> var z := ResetAndResend(uart.input, old(uart.pos), Frame(control, command, data));
        && r == z.result && uart.pos == z.pos && failedAttempts == z.failed
        && uart.output == old(uart.output) + EncodeAll(z.sent)
      ensures !over ==>
        failedAttempts == old(failedAttempts) + 1 && uart.pos == old(uart.pos) && uart.output == old(uart.output)
      decreases |uart.input| - uart.pos, 1
    {
      failedAttempts := failedAttempts + 1;
      if failedAttempts <= MAX_ATTEMPTS {
        return false, Failure(NotResponding);
      }
      r := ResetAndResendNow(control, command, data);
      over := true;
    }

    /** `_reset()` followed by `return send_command(...)`, past `MAX_ATTEMPTS` failures. */
    method ResetAndResendNow(control: byte, command: byte, data: seq<byte>) returns (r: Result<seq<byte>, Error>)
      requires Valid()
      modifies this, uart
      ensures Valid() && model == old(model)
      ensures var z := ResetAndResend(uart.input, old(uart.pos), Frame(control, command, data));
        && r == z.result && uart.pos == z.pos && failedAttempts == z.failed
        && uart.output == old(uart.output) + EncodeAll(z.sent)
      decreases |uart.input| - uart.pos, 0
    {
      ghost var req := Frame(control, command, data);
      ghost var w := AwaitEcho(uart.input, uart.pos, 0);
      ResetAndResendStep(uart.input, uart.pos, req, w);
      var reset := Reset();
      OutputOne(old(uart.output), RESET_REQUEST);
      if reset.Fail? {
        return Failure(reset.error);
      }
      ghost var v := Send(uart.input, w.pos, 0, req);
      r := SendCommand(control, command, data);
      OutputAppend(old(uart.output), [RESET_REQUEST], v.sent);
    }

    /**
      One query of `update`: `d = send_command(control, command, NO_DATA)`, then
      `data.update(format_data(control, command, d))`. `p` is the poll so far, whose frames were
      written after `base`.
    */
    method Ask(control: byte, command: byte, data: map<string, Value>, ghost p: Poll, ghost base: seq<byte>)
      returns (r: Result<map<string, Value>, Error>)
      requires Valid() && p.result == Success(data) && p.pos == uart.pos && p.failed == failedAttempts
      requires uart.output == base + EncodeAll(p.sent)
      modifies this, uart
      ensures Valid() && model == old(model)
      ensures var q := Query(uart.input, p, control, command);
        && r == q.result && uart.pos == q.pos && failedAttempts == q.failed
        && uart.output == base + EncodeAll(q.sent)
    {
      ghost var x := Send(uart.input, uart.pos, failedAttempts, Frame(control, command, NO_DATA));
      OutputAppend(base, p.sent, x.sent);
      var d :- SendCommand(control, command, NO_DATA);
      var e :- FormatData(control, command, d).MapFailure(f => Uninterpretable(f));
      r := Success(data[e.key := e.value]);
    }

    /** `update`: ask for the readings the stored model supports and collect them. */
    method Update() returns (r: Result<map<string, Value>, Error>)
      requires Valid()
      modifies this, uart
      ensures Valid() && model == old(model)
      ensures var p := PollCycle(uart.input, old(uart.pos), old(failedAttempts), model);
        && r == p.result && uart.pos == p.pos && failedAttempts == p.failed
        && uart.output == old(uart.output) + EncodeAll(p.sent)
    {
      ghost var input, base := uart.input, uart.output;
      ghost var p0 := Poll(Success(map[]), uart.pos, failedAttempts, []);
      assert base == base + EncodeAll(p0.sent);
      var data: map<string, Value> := map[];
      if model == MR60BHA1 {
        ghost var p1 := Query(input, p0, PRESENCE, EXISTENCE_STATUS);
        ghost var p2 := Query(input, p1, HEART, HEART_RATE);
        assert PollCycle(input, p0.pos, p0.failed, model) == Query(input, p2, RESPIRATORY, RESPIRATORY_RATE);
        QuerySkips(input, p1, HEART, HEART_RATE);
        QuerySkips(input, p2, RESPIRATORY, RESPIRATORY_RATE);
        data :- Ask(PRESENCE, EXISTENCE_STATUS, data, p0, base);
        data :- Ask(HEART, HEART_RATE, data, p1, base);
        data :- Ask(RESPIRATORY, RESPIRATORY_RATE, data, p2, base);
      } else if model == MR24HPC1 {
        assert PollCycle(input, p0.pos, p0.failed, model) == Query(input, p0, PRESENCE, EXISTENCE_STATUS);
        data :- Ask(PRESENCE, EXISTENCE_STATUS, data, p0, base);
      }
      r := Success(data);
    }

    /**
      The switches `init` sends once the model is known, one `send_command` statement each,
      replies ignored. `c` is the state of the statements so far, whose frames were written after
      `base`.
    */
    method Configure(ghost c: Chain, ghost base: seq<byte>) returns (o: Outcome<Error>)
      requires Valid() && c.outcome.Pass? && c.pos == uart.pos && c.failed == failedAttempts
      requires uart.output == base + EncodeAll(c.sent)
      modifies this, uart
      ensures Valid() && model == old(model)
      ensures var d := ThenAll(uart.input, c, Toggles(model));
        && o == d.outcome && uart.pos == d.pos && failedAttempts == d.failed
        && uart.output == base + EncodeAll(d.sent)
    {
      ghost var input := uart.input;
      ghost var cur, rest := c, Toggles(model);
      if model == MR60BHA1 {
        o := Switch(PRESENCE, TOGGLE_PRESENCE_MONITORING, TURN_OFF, cur, rest, base);
        if o.Fail? {
          return;
        }
        cur, rest := Then(input, cur, rest[0]), rest[1..];
        o := Switch(HEART, TOGGLE_HEART_MONITORING, TURN_OFF, cur, rest, base);
        if o.Fail? {
          return;
        }
        cur, rest := Then(input, cur, rest[0]), rest[1..];
        o := Switch(RESPIRATORY, TOGGLE_RESPIRATORY_MONITORING, TURN_ON, cur, rest, base);
        if o.Fail? {
          return;
        }
        cur, rest := Then(input, cur, rest[0]), rest[1..];
        o := Switch(SLEEP, TOGGLE_SLEEP_MONITORING, TURN_OFF, cur, rest, base);
        if o.Fail? {
          return;
        }
        cur, rest := Then(input, cur, rest[0]), rest[1..];
        o := Switch(0x84, 0x0F, [0x00], cur, rest, base);
        if o.Fail? {
          return;
        }
        cur, rest := Then(input, cur, rest[0]), rest[1..];
      } else if model == MR24HPC1 {
        o := Switch(UNDERLYING_OPEN_FUNCTION, TOGGLE_UNDERLYING_OPEN_FUNCTION, TURN_ON, cur, rest, base);
        if o.Fail? {
          return;
        }
        cur, rest := Then(input, cur, rest[0]), rest[1..];
        o := Switch(PRESENCE, SET_EXISTENCE_TIME, [0x00], cur, rest, base);
        if o.Fail? {
          return;
        }
        cur, rest := Then(input, cur, rest[0]), rest[1..];
      }
      assert rest == [];
      o := Pass;
    }

    /**
      One `send_command` statement of `init` whose reply is ignored: the first of the requests
      `rest` still to send from state `c`. If it raised, the run ends here.
    */
    method Switch(control: byte, command: byte, data: seq<byte>, ghost c: Chain, ghost rest: seq<Frame>, ghost base: seq<byte>)
      returns (o: Outcome<Error>)
      requires Valid() && c.outcome.Pass? && c.pos == uart.pos && c.failed == failedAttempts
      requires uart.output == base + EncodeAll(c.sent)
      requires rest != [] && rest[0] == Frame(control, command, data)
      modifies this, uart
      ensures Valid() && model == old(model)
      ensures var d := Then(uart.input, c, rest[0]);
        && o == d.outcome && uart.pos == d.pos && failedAttempts == d.failed
        && uart.output == base + EncodeAll(d.sent)
        && ThenAll(uart.input, c, rest) == if o.Fail? then d else ThenAll(uart.input, d, rest[1..])
    {
      ghost var x := Send(uart.input, uart.pos, failedAttempts, rest[0]);
      OutputAppend(base, c.sent, x.sent);
      ThenAllStep(uart.input, c, rest);
      var reply := SendCommand(control, command, data);
      o := if reply.Success? then Pass else Fail(reply.error);
    }

    /** The command sequence of `init`: reset, read and store the model, switch its monitors. */
    method Init() returns (r: Result<seq<byte>, Error>)
      requires Valid()
      modifies this, uart
      ensures Valid()
      ensures var s := Initialize(uart.input, old(uart.pos), old(model));
        && r == s.result && model == s.model && uart.pos == s.pos && failedAttempts == s.failed
        && uart.output == old(uart.output) + EncodeAll(s.sent)
    {
      ghost var base := uart.output;
      var reset := Reset();
      OutputPush(base, [], RESET_REQUEST);
      if reset.Fail? {
        return Failure(reset.error);
      }
      r := Identify(base);
    }

    /** What `init` does after the reset was echoed: everything past its `_reset` call. */
    method Identify(ghost base: seq<byte>) returns (r: Result<seq<byte>, Error>)
      requires Valid() && uart.output == base + EncodeAll([RESET_REQUEST])
      modifies this, uart
      ensures Valid()
      ensures var s := Identified(uart.input, old(uart.pos), old(failedAttempts), old(model), [RESET_REQUEST]);
        && r == s.result && model == s.model && uart.pos == s.pos && failedAttempts == s.failed
        && uart.output == base + EncodeAll(s.sent)
    {
      ghost var x := Send(uart.input, uart.pos, failedAttempts, MODEL_QUERY);
      OutputAppend(base, [RESET_REQUEST], x.sent);
      model :- SendCommand(PRODUCT_INFO, HARDWARE_MODEL, NO_DATA);
      var switched := Configure(Chain(Pass, uart.pos, failedAttempts, [RESET_REQUEST] + x.sent), base);
      if switched.Fail? {
        return Failure(switched.error);
      }
      r := Success(model);
    }
  }
}
