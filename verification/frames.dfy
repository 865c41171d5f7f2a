/**
  The serial frame format of the radar link and its codec.

  On the wire a frame is
    53 59 | control | command | length (2 bytes, big-endian) | payload | checksum | 54 43
  where the checksum is the low byte of the sum of every byte before it.
  `Encode` is what `_write` sends; `Scan` is what `_read` returns when it is started at a
  position of a finite input stream, together with the position where it stops reading.
*/
module Frames {
  import opened Wrappers
  import opened Bytes

  const FRAME_START: seq<byte> := [0x53, 0x59]
  const FRAME_END: seq<byte> := [0x54, 0x43]

  /** What `_read` hands upward: control word, command and payload. */
  datatype Frame = Frame(control: byte, command: byte, payload: seq<byte>)

  /** The exceptions `_read` raises. */
  datatype ReadError =
    | Timeout           // "Sensor timeout": no byte arrived in the wait window
    | PacketUnreadable  // "Error while reading packet": the length field never arrived
    | NotClosed         // "Data frame not closed": end marker missing or wrong
    | ChecksumFailed    // "Checksum failed"

  /** The result of one `_read`, and the position of the next unread byte. */
  datatype ReadOutcome = ReadOutcome(result: Result<Frame, ReadError>, next: nat)

  /** The bytes the checksum covers: start marker, control, command, length field, payload. */
  function Header(control: byte, command: byte, data: seq<byte>): seq<byte>
  {
    FRAME_START + [control, command] + ToBytesBig2(|data|) + data
  }

  /** The bytes `_write(control, command, data)` writes to the UART. */
  function Encode(control: byte, command: byte, data: seq<byte>): (r: seq<byte>)
    ensures |r| == 9 + |data|
  {
    var h := Header(control, command, data);
    h + [Checksum(h)] + FRAME_END
  }

  function EncodeFrame(f: Frame): seq<byte>
  {
    Encode(f.control, f.command, f.payload)
  }

  /** The bytes written by a sequence of `_write` calls, in order. */
  function EncodeAll(frames: seq<Frame>): seq<byte>
  {
    if frames == [] then [] else EncodeFrame(frames[0]) + EncodeAll(frames[1..])
  }

  lemma {:induction false} EncodeAllAppend(a: seq<Frame>, b: seq<Frame>)
    ensures EncodeAll(a + b) == EncodeAll(a) + EncodeAll(b)
  {
    if a != [] {
      assert (a + b)[1..] == a[1..] + b;
      EncodeAllAppend(a[1..], b);
    } else {
      assert a + b == b;
    }
  }

  /** The frame layout, field by field: markers, header fields, payload and checksum. */
  lemma EncodeLayout(control: byte, command: byte, data: seq<byte>)
    ensures var r, n := Encode(control, command, data), |data|;
      && r[..2] == FRAME_START && r[2] == control && r[3] == command
      && FromBytesBig(r[4..6]) == n % 65536
      && r[6..6 + n] == data
      && r[6 + n] as int == Sum(r[..6 + n]) % 256
      && r[7 + n..] == FRAME_END
  {
    var r, n := Encode(control, command, data), |data|;
    var h := Header(control, command, data);
    assert r[..6 + n] == h;
    assert r[4..6] == ToBytesBig2(n);
  }

  /**
    `_read` from position `i`: skip bytes until a 0x53 is followed by 0x59. After a 0x53 the
    next byte is consumed whatever it is. The stream ending is the poll timeout.
  */
  function Scan(s: seq<byte>, i: nat): (o: ReadOutcome)
    requires i <= |s|
    ensures i <= o.next <= |s|
    ensures o.result.Success? ==> i + 9 + |o.result.value.payload| <= o.next
    decreases |s| - i
  {
    if i == |s| then ReadOutcome(Failure(Timeout), i)
    else if s[i] != 0x53 then Scan(s, i + 1)
    else if i + 1 == |s| then ReadOutcome(Failure(Timeout), |s|)
    else if s[i + 1] != 0x59 then Scan(s, i + 2)
    else ParseBody(s, i + 2)
  }

  /**
    The body of a frame whose start marker ends just before `j`. A read that finds the stream
    exhausted returns what it has; the length field missing entirely raises inside the `try`,
    any later shortfall leaves the end marker unread. The end marker is checked before the checksum.
  */
  function ParseBody(s: seq<byte>, j: nat): (o: ReadOutcome)
    requires j <= |s|
    ensures j <= o.next <= |s|
    ensures o.result.Success? ==> j + 7 + |o.result.value.payload| == o.next
  {
    if |s| < j + 3 then ReadOutcome(Failure(PacketUnreadable), |s|)
    else if |s| < j + 4 then ReadOutcome(Failure(NotClosed), |s|)
    else
      var n := FromBytesBig(s[j + 2..j + 4]);
      var p := j + 4;
      if |s| < p + n + 3 then ReadOutcome(Failure(NotClosed), |s|)
      else if s[p + n + 1..p + n + 3] != FRAME_END then ReadOutcome(Failure(NotClosed), p + n + 3)
      else if [Checksum(FRAME_START + s[j..p + n])] != [s[p + n]] then
        ReadOutcome(Failure(ChecksumFailed), p + n + 3)
      else ReadOutcome(Success(Frame(s[j], s[j + 1], s[p..p + n])), p + n + 3)
  }

  /** A frame `_read` returns occupies, encoded, the bytes just before where it stopped. */
  ghost predicate EndsWithFrame(s: seq<byte>, lo: nat, hi: nat, f: Frame)
  {
    && |f.payload| < 65536
    && lo + 9 + |f.payload| <= hi <= |s|
    && s[hi - (9 + |f.payload|)..hi] == EncodeFrame(f)
  }

  lemma ParseBodySound(s: seq<byte>, j: nat)
    requires 2 <= j <= |s| && s[j - 2..j] == FRAME_START
    ensures var o := ParseBody(s, j);
      o.result.Success? ==> EndsWithFrame(s, j - 2, o.next, o.result.value)
  {
    var o := ParseBody(s, j);
    if o.result.Success? {
      var f := o.result.value;
      var n := FromBytesBig(s[j + 2..j + 4]);
      var p := j + 4;
      TwoByteField(s[j + 2..j + 4]);
      assert |f.payload| == n;
      var h := Header(f.control, f.command, f.payload);
      assert h == FRAME_START + s[j..p + n] by {
        assert s[j..p + n] == [s[j], s[j + 1]] + s[j + 2..j + 4] + s[p..p + n];
      }
      FourSlices(s, j - 2, j, p + n, p + n + 1, p + n + 3);
      assert s[p + n] == Checksum(h);
      assert EncodeFrame(f) == h + [Checksum(h)] + FRAME_END;
      assert o.next - (9 + n) == j - 2;
    }
  }

  /** Soundness of `_read`: a frame it returns failed neither check, it is exactly an encoded frame. */
  lemma {:induction false} ScanSound(s: seq<byte>, i: nat)
    requires i <= |s|
    ensures var o := Scan(s, i);
      o.result.Success? ==> EndsWithFrame(s, i, o.next, o.result.value)
    decreases |s| - i
  {
    if i == |s| {
    } else if s[i] != 0x53 {
      ScanSound(s, i + 1);
    } else if i + 1 == |s| {
    } else if s[i + 1] != 0x59 {
      ScanSound(s, i + 2);
    } else {
      assert s[i..i + 2] == FRAME_START;
      ParseBodySound(s, i + 2);
    }
  }

  lemma ParseEncoded(s: seq<byte>, j: nat, control: byte, command: byte, data: seq<byte>)
    requires 2 <= j && j + 7 + |data| <= |s| && |data| < 65536
    requires s[j - 2..j + 7 + |data|] == Encode(control, command, data)
    ensures ParseBody(s, j) == ReadOutcome(Success(Frame(control, command, data)), j + 7 + |data|)
  {
    var n := |data|;
    var e := Encode(control, command, data);
    var w := s[j - 2..j + 7 + n];
    EncodeLayout(control, command, data);
    SubSlice(s, j - 2, j + 7 + n, 4, 6);
    assert FromBytesBig(s[j + 2..j + 4]) == n;
    var p := j + 4;
    SubSlice(s, j - 2, j + 7 + n, 7 + n, 9 + n);
    assert e[7 + n..] == e[7 + n..9 + n];
    SubSlice(s, j - 2, j + 7 + n, 6, 6 + n);
    SubSlice(s, j - 2, j + 7 + n, 2, 6 + n);
    assert e[..6 + n] == e[..2] + e[2..6 + n];
    assert s[p + n] == w[6 + n] == e[6 + n];
    ParseBodyAccepts(s, j, n);
  }

  /** A body with its length field, end marker and checksum all right is accepted. */
  lemma ParseBodyAccepts(s: seq<byte>, j: nat, n: nat)
    requires j + 7 + n <= |s| && FromBytesBig(s[j + 2..j + 4]) == n
    requires s[j + 5 + n..j + 7 + n] == FRAME_END && s[j + 4 + n] == Checksum(FRAME_START + s[j..j + 4 + n])
    ensures ParseBody(s, j) == ReadOutcome(Success(Frame(s[j], s[j + 1], s[j + 4..j + 4 + n])), j + 7 + n)
  {
  }

  /** A body whose length field announces more than the stream still holds is not closed. */
  lemma ParseBodyShort(s: seq<byte>, j: nat, n: nat)
    requires j + 4 <= |s| < j + 7 + n && FromBytesBig(s[j + 2..j + 4]) == n
    ensures ParseBody(s, j) == ReadOutcome(Failure(NotClosed), |s|)
  {
  }

  /** A slice cut into four consecutive slices, the third of them one byte long. */
  lemma FourSlices(s: seq<byte>, a: nat, b: nat, c: nat, d: nat, e: nat)
    requires a <= b <= c && d == c + 1 && d <= e <= |s|
    ensures s[a..e] == s[a..b] + s[b..c] + [s[c]] + s[d..e]
  {
    assert s[a..e] == s[a..b] + s[b..e];
    assert s[b..e] == s[b..c] + s[c..e];
    assert s[c..e] == [s[c]] + s[d..e];
  }

  lemma SubSlice(s: seq<byte>, a: nat, b: nat, c: nat, d: nat)
    requires a <= b <= |s| && c <= d <= b - a
    ensures s[a..b][c..d] == s[a + c..a + d]
  {
    assert |s[a..b][c..d]| == d - c;
    forall k | 0 <= k < d - c
      ensures s[a..b][c..d][k] == s[a + c..a + d][k]
    {
    }
  }

  /** Bytes other than 0x53 are skipped one at a time. */
  lemma {:induction false} ScanSkipsNoise(s: seq<byte>, i: nat, k: nat)
    requires i <= k <= |s|
    requires forall m | i <= m < k :: s[m] != 0x53
    ensures Scan(s, i) == Scan(s, k)
    decreases k - i
  {
    if i < k {
      ScanSkipsNoise(s, i + 1, k);
    }
  }

  /** The number of bytes a frame occupies on the wire. */
  function Size(f: Frame): nat
  {
    9 + |f.payload|
  }

  /** The stream holds, from position `m`, the encoding of `f`, whose length fits its field. */
  ghost predicate FrameAt(s: seq<byte>, m: nat, f: Frame)
  {
    |f.payload| < 65536 && m + Size(f) <= |s| && s[m..m + Size(f)] == EncodeFrame(f)
  }

  /** A frame that ends a stretch of the stream lies at its size before the stretch's end. */
  lemma EndsAt(s: seq<byte>, lo: nat, hi: nat, f: Frame)
    requires EndsWithFrame(s, lo, hi, f)
    ensures lo + Size(f) <= hi && FrameAt(s, hi - Size(f), f)
  {
  }

  /** `_read` started on an encoded frame returns that frame and stops right after it. */
  lemma ScanAt(s: seq<byte>, m: nat, f: Frame)
    requires FrameAt(s, m, f)
    ensures Scan(s, m) == ReadOutcome(Success(f), m + Size(f))
  {
    var e := EncodeFrame(f);
    EncodeLayout(f.control, f.command, f.payload);
    assert e[..2] == FRAME_START;
    assert s[m] == e[0] == 0x53 && s[m + 1] == e[1] == 0x59;
    ParseEncoded(s, m + 2, f.control, f.command, f.payload);
  }

  /** Round trip: `_read` after noise free of 0x53 returns the frame `_write` encoded. */
  lemma RoundTrip(noise: seq<byte>, control: byte, command: byte, data: seq<byte>, rest: seq<byte>)
    requires |data| < 65536
    requires forall m | 0 <= m < |noise| :: noise[m] != 0x53
    ensures Scan(noise + Encode(control, command, data) + rest, 0)
         == ReadOutcome(Success(Frame(control, command, data)), |noise| + 9 + |data|)
  {
    var s := noise + Encode(control, command, data) + rest;
    var k := |noise|;
    ScanSkipsNoise(s, 0, k);
    assert s[k..k + 9 + |data|] == Encode(control, command, data);
    ScanAt(s, k, Frame(control, command, data));
  }

  /** After a 0x53 the next byte is consumed unchecked, so `53 53 59 ...` skips that frame's marker. */
  lemma DoubledMarkerSkipsFrame(control: byte, command: byte, data: seq<byte>)
    ensures var s := [0x53 as byte] + Encode(control, command, data);
      s[1..3] == FRAME_START && Scan(s, 0) == Scan(s, 2)
  {
    EncodeLayout(control, command, data);
  }

  /** `_read` on a stream that starts with a frame whose end marker is right but checksum is not. */
  lemma ScanChecksumFails(s: seq<byte>, n: nat)
    requires 9 + n <= |s| && s[..2] == FRAME_START && FromBytesBig(s[4..6]) == n
    requires s[7 + n..9 + n] == FRAME_END && s[6 + n] != Checksum(FRAME_START + s[2..6 + n])
    ensures Scan(s, 0) == ReadOutcome(Failure(ChecksumFailed), 9 + n)
  {
    assert s[0] == s[..2][0] && s[1] == s[..2][1];
    assert Scan(s, 0) == ParseBody(s, 2);
  }

  /** A wrong end marker is reported as "not closed" whatever the checksum byte holds. */
  lemma EndMarkerCheckedFirst(control: byte, command: byte, data: seq<byte>, ck: byte, end: seq<byte>, rest: seq<byte>)
    requires |data| < 65536 && |end| == 2 && end != FRAME_END
    ensures var s := Header(control, command, data) + [ck] + end + rest;
      Scan(s, 0) == ReadOutcome(Failure(NotClosed), 9 + |data|)
  {
    var s := Header(control, command, data) + [ck] + end + rest;
    var n := |data|;
    assert s[4..6] == ToBytesBig2(n);
    assert s[n + 7..n + 9] == end;
  }

  /** A checksum byte other than the low byte of the sum is rejected, and the frame discarded. */
  lemma ChecksumMismatchRejected(control: byte, command: byte, data: seq<byte>, ck: byte, rest: seq<byte>)
    requires |data| < 65536 && ck != Checksum(Header(control, command, data))
    ensures var s := Header(control, command, data) + [ck] + FRAME_END + rest;
      Scan(s, 0) == ReadOutcome(Failure(ChecksumFailed), 9 + |data|)
  {
    var h := Header(control, command, data);
    var s := h + [ck] + FRAME_END + rest;
    var n := |data|;
    assert s[..2] == FRAME_START;
    assert s[4..6] == ToBytesBig2(n);
    assert s[n + 7..n + 9] == FRAME_END;
    assert FRAME_START + s[2..6 + n] == h;
    ScanChecksumFails(s, n);
  }

  /** A stream that ends inside a frame never yields it: the read fails. */
  lemma TruncatedFrameRejected(control: byte, command: byte, data: seq<byte>, t: nat)
    requires |data| < 65536 && t < 9 + |data|
    ensures Scan(Encode(control, command, data)[..t], 0).result
         == Failure(if t < 2 then Timeout else if t < 5 then PacketUnreadable else NotClosed)
  {
    var e := Encode(control, command, data);
    var s := e[..t];
    EncodeLayout(control, command, data);
    if t >= 2 {
      assert s[0] == 0x53 && s[1] == 0x59;
      assert Scan(s, 0) == ParseBody(s, 2);
      if t >= 6 {
        assert s[4..6] == e[4..6];
        ParseBodyShort(s, 2, |data|);
      }
    }
  }

  /**
    Changing one byte of the control word, the command or the payload to another value always
    makes the checksum fail: the sum moves by a non-zero amount smaller than 256.
  */
  lemma CorruptedByteDetected(control: byte, command: byte, data: seq<byte>, q: nat, v: byte)
    requires |data| < 65536
    requires q == 2 || q == 3 || 6 <= q < 6 + |data|
    requires v != Encode(control, command, data)[q]
    ensures Scan(Encode(control, command, data)[q := v], 0)
         == ReadOutcome(Failure(ChecksumFailed), 9 + |data|)
  {
    var e := Encode(control, command, data);
    var s := e[q := v];
    var n := |data|;
    var h := e[..6 + n];
    EncodeLayout(control, command, data);
    assert s[..2] == FRAME_START;
    assert s[4..6] == e[4..6];
    assert s[7 + n..9 + n] == FRAME_END;
    assert FRAME_START + s[2..6 + n] == h[q := v];
    ChecksumSensitive(h, q, v);
    assert s[6 + n] == e[6 + n] == Checksum(h);
    ScanChecksumFails(s, n);
  }

  /**
    A corrupted length field is not covered by the checksum check: `_read` uses the length to find
    the checksum and the end marker before checking either. It never returns the frame that was sent.
  */
  lemma CorruptedLengthNotAccepted(control: byte, command: byte, data: seq<byte>, q: nat, v: byte)
    requires |data| < 65536
    requires q == 4 || q == 5
    requires v != Encode(control, command, data)[q]
    ensures Scan(Encode(control, command, data)[q := v], 0).result != Success(Frame(control, command, data))
  {
    var e := Encode(control, command, data);
    var s := e[q := v];
    EncodeLayout(control, command, data);
    TwoByteField(e[4..6]);
    TwoByteField(s[4..6]);
    assert s[..2] == FRAME_START;
    assert Scan(s, 0) == ParseBody(s, 2);
    assert FromBytesBig(s[4..6]) != |data|;
  }

  /** ... but it can make `_read` accept a different frame: here the shortened frame's checksum happens to match. */
  lemma CorruptedLengthAcceptsOtherFrame()
    ensures Scan(Encode(0, 0, [0xAC, 0x54, 0x43])[5 := 0], 0) == ReadOutcome(Success(Frame(0, 0, [])), 9)
  {
    var s := Encode(0, 0, [0xAC, 0x54, 0x43])[5 := 0];
    EncodeLayout(0, 0, [0xAC, 0x54, 0x43]);
    assert s[..6] == FRAME_START + [0, 0, 0, 0] && s[6] == 0xAC && s[7..9] == FRAME_END;
    assert s[4..6] == [0, 0] && FRAME_START + s[2..6] == s[..6];
    PairValue(0, 0);
    EmptyFrameChecksum();
    ParseBodyAccepts(s, 2, 0);
    assert s[0] == 0x53 && s[1] == 0x59;
  }

  /** The checksum of a frame with control, command and payload all empty or zero is 0xAC. */
  lemma EmptyFrameChecksum()
    ensures Checksum(FRAME_START + [0, 0, 0, 0]) == 0xAC
  {
    var z: seq<byte> := [0, 0, 0, 0];
    SumAppend(FRAME_START, z);
    assert FRAME_START[1..][1..] == [];
    assert Sum(FRAME_START) == 0xAC;
    assert z[3..][1..] == [] && z[2..][1..] == z[3..] && z[1..][1..] == z[2..];
    assert Sum(z[3..]) == 0 && Sum(z[2..]) == 0 && Sum(z[1..]) == 0;
  }

  lemma ChecksumSensitive(h: seq<byte>, q: nat, v: byte)
    requires q < |h| && v != h[q]
    ensures Checksum(h[q := v]) != Checksum(h)
  {
    SumUpdate(h, q, v);
    ShiftChangesResidue(Sum(h), v as int - h[q] as int);
  }

  lemma ShiftChangesResidue(a: int, d: int)
    requires d != 0 && -256 < d < 256
    ensures (a + d) % 256 != a % 256
  {
    var r := a % 256;
    assert a == (a / 256) * 256 + r;
    if r + d >= 256 {
      assert a + d == (a / 256 + 1) * 256 + (r + d - 256);
    } else if r + d < 0 {
      assert a + d == (a / 256 - 1) * 256 + (r + d + 256);
    } else {
      assert a + d == (a / 256) * 256 + (r + d);
    }
  }
}
