/** The `PN532` driver object: the framing and exchange routines working in
    place on byte buffers over the SPI bus, and the four commands built on
    them. Every method starts and ends with chip-select released, and is
    proved to do on the bus exactly what the pure model in `Frame`,
    `Exchange` and `Commands` says. */
module Driver {
  import opened Bytes
  import opened Constants
  import opened Frame
  import opened Transport
  import opened Exchange
  import opened Commands

  /** A wait's outcome `p`, preceded by `polls` earlier status reads and the
      events they produced. */
  ghost function After(polls: nat, events: seq<Event>, p: Poll): Poll {
    Poll(p.ready, polls + p.polls, p.rest, events + p.events)
  }

  /** One status read of a wait, unfolded: a ready status ends it... */
  lemma PollReadyStep(q: seq<byte>, timer: nat, timeout: nat)
    requires timer < timeout && IsReady(Next(q))
    ensures PollFrom(q, timer, timeout) == Poll(true, 1, Drop(q, 1), [Out([SPI_STATUSREAD])])
  {
  }

  /** ...and any other status costs a poll interval before the wait goes on. */
  lemma PollWaitStep(q: seq<byte>, timer: nat, timeout: nat, polls: nat, events: seq<Event>)
    requires timer < timeout && !IsReady(Next(q))
    ensures After(polls, events, PollFrom(q, timer, timeout))
         == After(polls + 1, events + [Out([SPI_STATUSREAD]), Delay(SPI_STATUSPOLLINTERVAL)],
                  PollFrom(Drop(q, 1), timer + SPI_STATUSPOLLINTERVAL, timeout))
  {
    var p := PollFrom(Drop(q, 1), timer + SPI_STATUSPOLLINTERVAL, timeout);
    assert events + ([Out([SPI_STATUSREAD]), Delay(SPI_STATUSPOLLINTERVAL)] + p.events)
        == events + [Out([SPI_STATUSREAD]), Delay(SPI_STATUSPOLLINTERVAL)] + p.events;
  }

  /** Checksum arithmetic in `uint8_t`: truncating a running sum early does not change it. */
  lemma AddMod(x: int, y: int)
    ensures U8(U8(x) + y) == U8(x + y)
  {
  }

  lemma NegMod(x: int)
    ensures U8(0 - U8(x) as int) == Checksum(x)
  {
  }

  /** A buffer laid out field by field as `_write_frame` fills it is the encoded frame. */
  lemma EncodeParts(data: seq<byte>, f: seq<byte>)
    requires |data| <= 247 && |f| == |data| + 8
    requires f[0] == PREAMBLE && f[1] == STARTCODE1 && f[2] == STARTCODE2
    requires f[3] == |data| + 1 && f[4] == U8(-1 - |data|) && f[5] == HOSTTOPN532
    requires f[6..6 + |data|] == data
    requires f[6 + |data|] == DataChecksum(HOSTTOPN532, data) && f[7 + |data|] == POSTAMBLE
    ensures f == Encode(data)
  {
    assert f[4] == Checksum(|data| + 1);
    EncodeHeaderMatches(data, f);
    EncodeDataMatches(data, f);
    EncodeTrailerMatches(data, f);
    Pointwise(f, Encode(data));
  }

  lemma EncodeTrailerMatches(data: seq<byte>, f: seq<byte>)
    requires |data| <= 247 && |f| == |data| + 8
    requires f[6 + |data|] == DataChecksum(HOSTTOPN532, data) && f[7 + |data|] == POSTAMBLE
    ensures |Encode(data)| == |f|
    ensures forall i :: 6 + |data| <= i < |f| ==> f[i] == Encode(data)[i]
  {
    EncodeTrailerAt(data);
  }

  lemma EncodeHeaderMatches(data: seq<byte>, f: seq<byte>)
    requires |data| <= 247 && |f| >= 6
    requires f[0] == PREAMBLE && f[1] == STARTCODE1 && f[2] == STARTCODE2
    requires f[3] == |data| + 1 && f[4] == Checksum(|data| + 1) && f[5] == HOSTTOPN532
    ensures forall i :: 0 <= i < 6 ==> f[i] == Encode(data)[i]
  {
    var n := |data|;
    forall i | 0 <= i < 6
      ensures f[i] == Encode(data)[i]
    {
      EncodeHeaderAt(data, i);
      assert f[i] == [PREAMBLE, STARTCODE1, STARTCODE2, n + 1, Checksum(n + 1), HOSTTOPN532][i];
    }
  }

  lemma EncodeDataMatches(data: seq<byte>, f: seq<byte>)
    requires |data| <= 247 && |f| >= |data| + 6
    requires f[6..6 + |data|] == data
    ensures forall i :: 6 <= i < 6 + |data| ==> f[i] == Encode(data)[i]
  {
    var n := |data|;
    forall i | 6 <= i < 6 + n
      ensures f[i] == Encode(data)[i]
    {
      EncodeDataAt(data, i);
      assert f[i] == f[6..6 + n][i - 6];
    }
  }

  lemma SumSlice(s: seq<byte>, lo: nat, i: nat)
    requires lo <= i < |s|
    ensures Sum(s[lo..i + 1]) == Sum(s[lo..i]) + s[i]
  {
    assert s[lo..i + 1][..i - lo] == s[lo..i];
  }

  lemma SumSnoc(s: seq<byte>, i: nat)
    requires i < |s|
    ensures Sum(s[..i + 1]) == Sum(s[..i]) + s[i]
  {
    assert s[..i + 1][..i] == s[..i];
  }

  /** Index of the first non-zero byte of `frame` (`frame.Length` when
      there is none): the loop that swallows the zero bytes before the start
      code. */
  method SkipZeros(frame: array<byte>) returns (offset: nat)
    ensures offset == FirstNonZero(frame[..], 0)
  {
    offset := 0;
    while offset < frame.Length && frame[offset] == 0
      invariant offset <= frame.Length
      invariant forall i :: 0 <= i < offset ==> frame[i] == 0
    {
      offset := offset + 1;
    }
    FirstNonZeroAt(frame[..], offset);
  }

  /** `uint8_t` sum of `frame[from..to]`. */
  method Checksum8(frame: array<byte>, from: nat, to: nat) returns (checksum: byte)
    requires from <= to <= frame.Length
    ensures checksum == U8(Sum(frame[from..to]))
  {
    checksum := 0;
    for i := from to to
      invariant checksum == U8(Sum(frame[from..i]))
    {
      SumSlice(frame[..], from, i);
      assert frame[..][from..i] == frame[from..i] && frame[..][from..i + 1] == frame[from..i + 1];
      AddMod(Sum(frame[from..i]), frame[i]);
      checksum := U8(checksum as int + frame[i]);
    }
  }

  /** Copy `src[from..from + n]` to the front of `dst`. */
  method CopyOut(src: array<byte>, from: nat, dst: array<byte>, n: nat)
    requires src != dst && from + n <= src.Length && n <= dst.Length
    modifies dst
    ensures dst[..n] == src[from..from + n] && dst[n..] == old(dst[n..])
  {
    for i := 0 to n
      invariant dst[..i] == src[from..from + i]
      invariant dst[i..] == old(dst[i..])
    {
      dst[i] := src[from + i];
    }
  }

  /** The buffer `_write_frame` fills: header, data, data checksum and
      postamble, field by field. */
  method BuildFrame(data: array<byte>, count: byte) returns (frame: array<byte>)
    requires count <= data.Length && count <= 247
    ensures fresh(frame) && frame[..] == Encode(data[..count])
  {
    var frameLength: byte := count + 8;
    frame := new byte[frameLength];
    frame[0] := PREAMBLE;
    frame[1] := STARTCODE1;
    frame[2] := STARTCODE2;
    frame[3] := count + 1;
    frame[4] := U8(-1 - count as int);  // ~count
    frame[5] := HOSTTOPN532;
    var checksum := FillPayload(frame, data, count);
    frame[6 + count] := U8(-1 - checksum as int + 1);  // ~checksum + 1
    frame[7 + count] := POSTAMBLE;
    NegMod(HOSTTOPN532 + Sum(data[..count]));
    EncodeParts(data[..count], frame[..]);
  }

  /** The loop of `_write_frame` that copies the data after the frame
      identifier and sums the identifier and the data in `uint8_t`. */
  method FillPayload(frame: array<byte>, data: array<byte>, count: byte) returns (checksum: byte)
    requires frame != data && count <= data.Length && frame.Length == count + 8
    modifies frame
    ensures frame[6..6 + count] == data[..count]
    ensures forall i :: 0 <= i < 6 || 6 + count <= i < frame.Length ==> frame[i] == old(frame[i])
    ensures checksum == U8(HOSTTOPN532 + Sum(data[..count]))
  {
    checksum := HOSTTOPN532;
    for i := 0 to count
      invariant frame[6..6 + i] == data[..i]
      invariant forall j :: 0 <= j < 6 || 6 + i <= j < frame.Length ==> frame[j] == old(frame[j])
      invariant checksum == U8(HOSTTOPN532 + Sum(data[..i]))
    {
      frame[6 + i] := data[i];
      SumSnoc(data[..count], i);
      assert data[..count][..i + 1] == data[..i + 1] && data[..count][..i] == data[..i];
      AddMod(HOSTTOPN532 + Sum(data[..i]), data[i]);
      checksum := U8(checksum as int + data[i]);
    }
  }

  /** The end of `read_passive_target_id`: find the UID in the first
      `rLen` bytes of an InListPassiveTarget response and copy it into `uid`
      when it fits in `uidLen` bytes. */
  method ExtractUid(r: array<byte>, rLen: byte, baud: byte, uid: array<byte>, uidLen: byte)
    returns (found: bool, newUidLen: byte)
    requires r != uid && rLen <= r.Length && uidLen <= uid.Length
    modifies uid
    ensures var u := TargetUid(r[..rLen], baud, uidLen);
      && found == u.Some?
      && (found ==>
            u.Some? && newUidLen == |u.value| && uid[..newUidLen] == u.value
            && uid[newUidLen..] == old(uid[newUidLen..]))
      && (!found ==> newUidLen == uidLen && uid[..] == old(uid[..]))
  {
    found, newUidLen := false, uidLen;
    if rLen <= 1 || r[0] == 0 {
      return;
    }
    var uidOffset: byte;
    var rUidLen: byte;
    if baud == ISO14443A_BAUD {
      if rLen < 6 {
        return;
      }
      rUidLen, uidOffset := r[5], 6;
    } else if baud == FELICA_212_BAUD || baud == FELICA_424_BAUD {
      rUidLen, uidOffset := 8, 4;
    } else if baud == ISO14443B_BAUD {
      if rLen < 15 {
        return;
      }
      rUidLen, uidOffset := r[14], 15;
    } else if baud == INNOVISION_JEWEL_BAUD {
      rUidLen, uidOffset := 4, 4;
    } else {
      return;
    }
    // the UID must lie inside the response and fit the caller's buffer
    if rLen < uidOffset + rUidLen || uidLen < rUidLen {
      return;
    }
    newUidLen := rUidLen;
    CopyOut(r, uidOffset, uid, rUidLen);
    assert r[..rLen][uidOffset..uidOffset + rUidLen] == r[uidOffset..uidOffset + rUidLen];
    found := true;
  }

  /** What `_read_frame` leaves behind for decoder outcome `d`: on success
      the payload at the front of the response buffer and its length in
      `*count`; on an error the code, and buffer and count untouched. */
  ghost predicate Delivers(d: Result<seq<byte>>, count: byte, status: byte, newCount: byte,
                           response: seq<byte>, before: seq<byte>)
  {
    && |response| == |before|
    && (d.Ok? ==>
          status == SUCCESS && newCount == |d.value| <= |response|
          && response[..newCount] == d.value && response[newCount..] == before[newCount..])
    && (d.Err? ==> status == d.code && newCount == count && response == before)
  }

  /** The checks of `_read_frame` on a frame already read: the start code
      after any zero bytes... */
  method ParseFrame(frame: array<byte>, stray: byte, response: array<byte>, count: byte)
    returns (status: byte, newCount: byte)
    requires frame.Length == count + 8 && count <= 247 && count <= response.Length && frame != response
    modifies response
    ensures Delivers(Decode(frame[..], count, stray), count, status, newCount, response[..], old(response[..]))
  {
    var offset := SkipZeros(frame);
    if offset == frame.Length {
      return ERR_BAD_PREAMBLE, count;
    }
    if frame[offset] != STARTCODE2 {
      return ERR_BAD_PACKET_START, count;
    }
    offset := offset + 1;
    if offset == frame.Length {
      return ERR_EMPTY_PACKET, count;
    }
    status, newCount := ParseLength(frame, offset, stray, response, count);
  }

  /** ...the length and its checksum... */
  method ParseLength(frame: array<byte>, at: nat, stray: byte, response: array<byte>, count: byte)
    returns (status: byte, newCount: byte)
    requires frame.Length == count + 8 && count <= 247 && count <= response.Length && frame != response
    requires at < frame.Length
    modifies response
    ensures Delivers(DecodeLength(frame[..], count, stray, at), count, status, newCount,
                     response[..], old(response[..]))
  {
    var responseLength := frame[at];
    if responseLength == 0 {
      return ERR_EMPTY_RESPONSE, count;
    }
    var lcs := if at + 1 < frame.Length then frame[at + 1] else stray;  // frame[offset+1]
    var checksum := U8(responseLength as int + lcs);
    if checksum != 0 {
      return ERR_BAD_LENGTH_CHECKSUM, count;
    }
    var offset := U8(at + 2);
    status, newCount := ParseBody(frame, offset, responseLength, response, count);
  }

  /** ...and the body: its length against the buffer, the data checksum,
      the frame identifier, the postamble and the caller's capacity. */
  method ParseBody(frame: array<byte>, offset: byte, responseLength: byte, response: array<byte>, count: byte)
    returns (status: byte, newCount: byte)
    requires frame.Length == count + 8 && count <= 247 && count <= response.Length && frame != response
    requires responseLength != 0
    modifies response
    ensures Delivers(DecodeBody(frame[..], count, offset, responseLength), count, status, newCount,
                     response[..], old(response[..]))
  {
    if responseLength + offset > frame.Length - 2 {
      return ERR_LONG_RESPONSE, count;
    }
    // the data checksum covers TFI, the data and DCS
    var checksum := Checksum8(frame, offset, offset + responseLength + 1);
    if checksum != 0 {
      return ERR_BAD_DATA_CHECKSUM, count;
    }
    if frame[offset] != PN532TOHOST {
      return ERR_BAD_TFI, count;
    }
    if frame[offset + responseLength + 1] != POSTAMBLE {
      return ERR_BAD_POSTAMBLE, count;
    }
    if responseLength - 1 > count {
      return ERR_LONG_RESPONSE, count;
    }
    newCount := responseLength - 1;
    CopyOut(frame, offset + 1, response, newCount);
    status := SUCCESS;
  }

  class PN532 {
    /** The SPI device the chip is wired to. */
    const bus: Bus
    /** Whether the chip answered the firmware probe at start-up. */
    var wakeSuccess: bool

    /** Wake the chip, then probe its firmware version, once more if the first
        probe fails (the first exchange after power-up often does). */
    constructor (bus: Bus)
      requires !bus.selected
      modifies bus
      ensures this.bus == bus && !bus.selected
      ensures var woken := old(bus.trace) + [Event.Enter, Delay(WAKE_DELAY), Event.Exit];
        var p1 := FirmwareCall(old(bus.statusIn), old(bus.dataIn));
        var p2 := FirmwareCall(p1.statusIn, p1.dataIn);
        && wakeSuccess == (FirmwareOk(p1) || FirmwareOk(p2))
        && (FirmwareOk(p1) ==>
              bus.statusIn == p1.statusIn && bus.dataIn == p1.dataIn && bus.trace == woken + p1.events)
        && (!FirmwareOk(p1) ==>
              bus.statusIn == p2.statusIn && bus.dataIn == p2.dataIn
              && bus.trace == woken + p1.events + p2.events)
    {
      this.bus := bus;
      new;
      WakeUp();
      var version := new byte[FIRMWARE_VERSION_LEN];
      var success := GetFirmwareVersion(version);
      if success {
        wakeSuccess := true;
      } else {
        success := GetFirmwareVersion(version);
        wakeSuccess := success;
      }
    }

    /** `wake_success`: the start-up verdict. */
    function WakeSuccess(): bool
      reads this
    {
      wakeSuccess
    }

    /** Hold chip-select asserted for a moment, which wakes the chip. */
    method WakeUp()
      requires !bus.selected
      modifies bus
      ensures !bus.selected && bus.statusIn == old(bus.statusIn) && bus.dataIn == old(bus.dataIn)
      ensures bus.trace == old(bus.trace) + [Event.Enter, Delay(WAKE_DELAY), Event.Exit]
    {
      bus.Enter();
      bus.Sleep(WAKE_DELAY);
      bus.Exit();
    }

    /** Poll the status byte every 5 ms until the chip is ready or `timeout`
        ms have been spent, all in one transaction. */
    method WaitReady(timeout: uint16) returns (ready: bool)
      requires !bus.selected
      modifies bus
      ensures var p := PollFrom(old(bus.statusIn), 0, timeout);
        && ready == p.ready && bus.statusIn == p.rest && bus.dataIn == old(bus.dataIn)
        && bus.trace == old(bus.trace) + WaitEvents(p) && !bus.selected
    {
      ghost var q0 := bus.statusIn;
      ghost var polls: nat := 0;
      ghost var events: seq<Event> := [];
      var timer: uint16 := 0;
      ready := false;
      bus.Enter();
      ghost var t0 := bus.trace;
      while !ready && timer < timeout
        modifies bus
        invariant bus.selected && bus.dataIn == old(bus.dataIn)
        invariant timer % SPI_STATUSPOLLINTERVAL == 0
        invariant bus.trace == t0 + events
        invariant ready ==> PollFrom(q0, 0, timeout) == Poll(true, polls, bus.statusIn, events)
        invariant !ready ==> PollFrom(q0, 0, timeout) == After(polls, events, PollFrom(bus.statusIn, timer, timeout))
        decreases !ready, timeout - timer
      {
        ghost var q := bus.statusIn;
        var status := bus.Transfer(SPI_STATUSREAD);
        ready := IsReady(status);
        if ready {
          PollReadyStep(q, timer, timeout);
          Assoc(t0, events, [Out([SPI_STATUSREAD])]);
          polls := polls + 1;
          events := events + [Out([SPI_STATUSREAD])];
        } else {
          PollWaitStep(q, timer, timeout, polls, events);
          bus.Sleep(SPI_STATUSPOLLINTERVAL);
          Assoc(t0 + events, [Out([SPI_STATUSREAD])], [Delay(SPI_STATUSPOLLINTERVAL)]);
          Assoc(t0, events, [Out([SPI_STATUSREAD]), Delay(SPI_STATUSPOLLINTERVAL)]);
          assert timer <= 65530;
          timer := timer + SPI_STATUSPOLLINTERVAL;
          polls := polls + 1;
          events := events + [Out([SPI_STATUSREAD]), Delay(SPI_STATUSPOLLINTERVAL)];
        }
      }
      assert events + [] == events;
      ghost var p := PollFrom(q0, 0, timeout);
      assert p.events == events;
      bus.Exit();
      Assoc(old(bus.trace) + [Event.Enter], events, [Event.Exit]);
      Assoc(old(bus.trace), [Event.Enter] + events, [Event.Exit]);
      Assoc(old(bus.trace), [Event.Enter], events);
    }

    /** Read `count` bytes in one data-read transaction. */
    method ReadData(buf: array<byte>, count: byte)
      requires !bus.selected && count <= buf.Length
      modifies bus, buf
      ensures buf[..count] == Take(old(bus.dataIn), count) && buf[count..] == old(buf[count..])
      ensures bus.dataIn == Drop(old(bus.dataIn), count) && bus.statusIn == old(bus.statusIn)
      ensures bus.trace == old(bus.trace) + ReadEvents(Take(old(bus.dataIn), count)) && !bus.selected
    {
      bus.Enter();
      var ignored := bus.Transfer(SPI_DATAREAD);
      bus.Receive(buf, count);
      bus.Exit();
    }

    /** Write `buf[..count]` in one data-write transaction. */
    method WriteData(buf: array<byte>, count: byte)
      requires !bus.selected && count <= buf.Length
      modifies bus
      ensures bus.dataIn == old(bus.dataIn) && bus.statusIn == old(bus.statusIn)
      ensures bus.trace == old(bus.trace) + WriteEvents(buf[..count]) && !bus.selected
    {
      bus.Enter();
      var ignored := bus.Transfer(SPI_DATAWRITE);
      bus.Send(buf, count);
      bus.Exit();
    }

    /** Wrap `data[..count]` in a host-to-chip frame and write it. */
    method WriteFrame(data: array<byte>, count: byte)
      requires !bus.selected && count <= data.Length && count <= 247
      modifies bus
      ensures bus.dataIn == old(bus.dataIn) && bus.statusIn == old(bus.statusIn)
      ensures bus.trace == old(bus.trace) + WriteEvents(Encode(data[..count])) && !bus.selected
    {
      var frameLength: byte := count + 8;
      var frame := BuildFrame(data, count);
      assert frame[..frameLength] == frame[..];
      WriteData(frame, frameLength);
    }

    /** Read a frame of `count + 8` bytes and, when it is a well-formed
        chip-to-host frame with at most `count` payload bytes, copy the
        payload into `response`. On an error `response` and `count` are left
        as they were. `past` is the byte read beyond the frame buffer when
        the start code is its last byte but one. */
    method ReadFrame(response: array<byte>, count: byte) returns (status: byte, newCount: byte, ghost past: byte)
      requires !bus.selected && count <= response.Length && count <= 247
      modifies bus, response
      ensures Delivers(Decode(Take(old(bus.dataIn), count + 8), count, past), count,
                       status, newCount, response[..], old(response[..]))
      ensures bus.dataIn == Drop(old(bus.dataIn), count + 8) && bus.statusIn == old(bus.statusIn)
      ensures bus.trace == old(bus.trace) + ReadEvents(Take(old(bus.dataIn), count + 8)) && !bus.selected
    {
      var frameLength: byte := count + 8;
      var frame := new byte[frameLength];
      ReadData(frame, frameLength);
      assert frame[..] == Take(old(bus.dataIn), count + 8) by {
        assert frame[..frameLength] == frame[..];
      }
      var stray: byte :| true;
      past := stray;
      status, newCount := ParseFrame(frame, stray, response, count);
    }

    /** The start of `_call_function_try`: the opcode and the parameters,
        written as one frame. */
    method SendCommand(command: byte, params: array<byte>, paramsLen: byte)
      requires !bus.selected && paramsLen <= params.Length && U8(1 + paramsLen) <= 247
      modifies bus
      ensures bus.dataIn == old(bus.dataIn) && bus.statusIn == old(bus.statusIn)
      ensures bus.trace == old(bus.trace) + WriteEvents(Encode(CommandData(command, params[..paramsLen])))
      ensures !bus.selected
    {
      var commandData := new byte[1 + paramsLen];
      commandData[0] := command;
      for i := 0 to paramsLen
        modifies commandData
        invariant commandData[0] == command && commandData[1..i + 1] == params[..i]
      {
        commandData[i + 1] := params[i];
      }
      assert commandData[..] == [command] + params[..paramsLen];
      assert U8(1 + paramsLen) <= 1 + paramsLen;
      WriteFrame(commandData, U8(1 + paramsLen));
    }

    /** Read the 6 bytes after the command and compare them with the ACK frame. */
    method CheckAck() returns (status: byte)
      requires !bus.selected
      modifies bus
      ensures var ack := Take(old(bus.dataIn), ACK_LEN);
        && status == (if ack == ACK_FRAME then SUCCESS else ERR_NO_COMMAND_ACK)
        && bus.dataIn == Drop(old(bus.dataIn), ACK_LEN) && bus.statusIn == old(bus.statusIn)
        && bus.trace == old(bus.trace) + ReadEvents(ack) && !bus.selected
    {
      var ackP := new byte[ACK_LEN];
      ReadData(ackP, ACK_LEN);
      status := SUCCESS;
      for i := 0 to ACK_LEN
        modifies {}
        invariant status == SUCCESS || status == ERR_NO_COMMAND_ACK
        invariant status == SUCCESS <==> forall j :: 0 <= j < i ==> ackP[j] == ACK_FRAME[j]
      {
        if ackP[i] != ACK_FRAME[i] {
          status := ERR_NO_COMMAND_ACK;
        }
      }
      assert ackP[..ACK_LEN] == ackP[..];
      assert status == SUCCESS <==> ackP[..] == ACK_FRAME;
    }

    /** The end of `_call_function_try`: read the response frame into a
        buffer one byte longer than the caller's, check the echoed opcode,
        and copy the rest out. */
    method ReadResponse(command: byte, response: array<byte>, responseLen: byte)
      returns (status: byte, newLen: byte, ghost past: byte)
      requires !bus.selected && responseLen <= response.Length && U8(responseLen + 1) <= 247
      modifies bus, response
      ensures var frame := Take(old(bus.dataIn), U8(responseLen + 1) + 8);
        var e := Respond(command, responseLen, frame, past);
        && status == e.status && newLen == e.len
        && bus.dataIn == Drop(old(bus.dataIn), U8(responseLen + 1) + 8) && bus.statusIn == old(bus.statusIn)
        && bus.trace == old(bus.trace) + ReadEvents(frame) && !bus.selected
        && (status == SUCCESS ==> response[..newLen] == e.response && response[newLen..] == old(response[newLen..]))
        && (status != SUCCESS ==> response[..] == old(response[..]))
    {
      newLen := U8(responseLen + 1);
      var responseData := new byte[1 + responseLen];
      ghost var frame := Take(bus.dataIn, newLen + 8);
      status, newLen, past := ReadFrame(responseData, newLen);
      ghost var d := Decode(frame, U8(responseLen + 1), past);
      ghost var e := Respond(command, responseLen, frame, past);
      if status != SUCCESS {
        assert d.Err? && e == Echo(d.code, U8(responseLen + 1), []);
        return;
      }
      assert d.Ok? && e == EchoCheck(d.value, command);
      // the source tests only the echo byte; an empty payload has none
      if newLen == 0 || responseData[0] as int != command as int + 1 {
        assert e.status == ERR_WRONG_COMMAND_RESPONSE && e.len == newLen;
        return ERR_WRONG_COMMAND_RESPONSE, newLen, past;
      }
      assert responseData[..newLen] == d.value;
      newLen := newLen - 1;
      CopyOut(responseData, 1, response, newLen);
      assert response[..newLen] == d.value[1..];
      status := SUCCESS;
    }

    /** `_call_function_try`: send the command, wait for and check the ACK,
        wait for and read the response. `past` is as for `ReadFrame`. */
    method CallFunctionTry(command: byte, params: array<byte>, paramsLen: byte,
                           response: array<byte>, responseLen: byte, timeout: uint16)
      returns (status: byte, newLen: byte, ghost past: byte)
      requires !bus.selected && paramsLen <= params.Length && responseLen <= response.Length
      requires Fits(params[..paramsLen], responseLen)
      modifies bus, response
      ensures var t := Try(command, old(params[..paramsLen]), responseLen, timeout,
                           old(bus.statusIn), old(bus.dataIn), past);
        && status == t.status && newLen == t.len
        && bus.statusIn == t.statusIn && bus.dataIn == t.dataIn
        && bus.trace == old(bus.trace) + t.events && !bus.selected
        && (status == SUCCESS ==> response[..newLen] == t.response && response[newLen..] == old(response[newLen..]))
        && (status != SUCCESS ==> response[..] == old(response[..]))
    {
      ghost var ps := params[..paramsLen];
      ghost var sq := bus.statusIn;
      ghost var dq := bus.dataIn;
      ghost var t0 := bus.trace;
      past := 0;
      newLen := responseLen;
      SendCommand(command, params, paramsLen);
      ghost var ev := WriteEvents(Encode(CommandData(command, ps)));
      // wait for the ACK
      ghost var ack := PollFrom(sq, 0, timeout);
      var ready := WaitReady(timeout);
      Assoc(t0, ev, WaitEvents(ack));
      ev := ev + WaitEvents(ack);
      if !ready {
        return ERR_ACK_TIMEOUT, newLen, past;
      }
      status := CheckAck();
      Assoc(t0, ev, ReadEvents(Take(dq, ACK_LEN)));
      ev := ev + ReadEvents(Take(dq, ACK_LEN));
      if status != SUCCESS {
        return;
      }
      // wait for the response
      ghost var resp := PollFrom(ack.rest, 0, timeout);
      ready := WaitReady(timeout);
      Assoc(t0, ev, WaitEvents(resp));
      ev := ev + WaitEvents(resp);
      if !ready {
        return ERR_RESPONSE_TIMEOUT, newLen, past;
      }
      ghost var frame := Take(Drop(dq, ACK_LEN), U8(responseLen + 1) + 8);
      status, newLen, past := ReadResponse(command, response, responseLen);
      Assoc(t0, ev, ReadEvents(frame));
    }

    /** `_call_function`: the exchange, and the ACK frame written as an abort
        when it failed. */
    method CallFunction(command: byte, params: array<byte>, paramsLen: byte,
                        response: array<byte>, responseLen: byte, timeout: uint16)
      returns (status: byte, newLen: byte, ghost past: byte)
      requires !bus.selected && paramsLen <= params.Length && responseLen <= response.Length
      requires Fits(params[..paramsLen], responseLen)
      modifies bus, response
      ensures var c := Call(command, old(params[..paramsLen]), responseLen, timeout,
                            old(bus.statusIn), old(bus.dataIn), past);
        && status == c.status && newLen == c.len
        && bus.statusIn == c.statusIn && bus.dataIn == c.dataIn
        && bus.trace == old(bus.trace) + c.events && !bus.selected
        && (status == SUCCESS ==> response[..newLen] == c.response && response[newLen..] == old(response[newLen..]))
        && (status != SUCCESS ==> response[..] == old(response[..]))
    {
      status, newLen, past := CallFunctionTry(command, params, paramsLen, response, responseLen, timeout);
      if status != SUCCESS {
        var ackP := new byte[ACK_LEN];
        for i := 0 to ACK_LEN
          modifies ackP
          invariant ackP[..i] == ACK_FRAME[..i]
        {
          ackP[i] := ACK_FRAME[i];
        }
        assert ackP[..ACK_LEN] == ACK_FRAME;
        ghost var before := bus.trace;
        WriteData(ackP, ACK_LEN);
        Assoc(old(bus.trace), before[|old(bus.trace)|..], WriteEvents(ACK_FRAME));
      }
    }

    /** `get_firmware_version`: true when the probe succeeded with all 4
        version bytes, which are then in `version`. */
    method GetFirmwareVersion(version: array<byte>) returns (ok: bool)
      requires !bus.selected && version.Length == FIRMWARE_VERSION_LEN
      modifies bus, version
      ensures var c := FirmwareCall(old(bus.statusIn), old(bus.dataIn));
        && ok == FirmwareOk(c)
        && (ok ==> version[..] == c.response)
        && (c.status == SUCCESS ==> version[..c.len] == c.response && version[c.len..] == old(version[c.len..]))
        && (c.status != SUCCESS ==> version[..] == old(version[..]))
        && bus.statusIn == c.statusIn && bus.dataIn == c.dataIn
        && bus.trace == old(bus.trace) + c.events && !bus.selected
    {
      var versionLength: byte := FIRMWARE_VERSION_LEN;
      var noParams := new byte[0];
      var status;
      ghost var past;
      assert noParams[..0] == [];
      status, versionLength, past :=
        CallFunction(COMMAND_GETFIRMWAREVERSION, noParams, 0, version, versionLength, COMMAND_TIMEOUT);
      CallIgnoresPast(COMMAND_GETFIRMWAREVERSION, [], FIRMWARE_VERSION_LEN, COMMAND_TIMEOUT,
                      old(bus.statusIn), old(bus.dataIn), past, 0);
      ok := status == SUCCESS && versionLength == FIRMWARE_VERSION_LEN;
    }

    /** `SAM_disable`: configure the SAM for normal mode; true when the
        exchange succeeded (the chip then answers no data). */
    method SamDisable() returns (ok: bool)
      requires !bus.selected
      modifies bus
      ensures var c := Call(COMMAND_SAMCONFIGURATION, SAM_PARAMS, 0, COMMAND_TIMEOUT,
                            old(bus.statusIn), old(bus.dataIn), 0);
        && ok == (c.status == SUCCESS)
        && (ok ==> c.len == 0 && c.response == [])
        && bus.statusIn == c.statusIn && bus.dataIn == c.dataIn
        && bus.trace == old(bus.trace) + c.events && !bus.selected
    {
      var params := new byte[3];
      params[0], params[1], params[2] := 0x01, 0x00, 0x00;
      assert params[..3] == SAM_PARAMS;
      var none := new byte[0];
      var emptyLength: byte := 0;
      var status;
      ghost var past;
      status, emptyLength, past :=
        CallFunction(COMMAND_SAMCONFIGURATION, params, 3, none, emptyLength, COMMAND_TIMEOUT);
      CallIgnoresPast(COMMAND_SAMCONFIGURATION, SAM_PARAMS, 0, COMMAND_TIMEOUT,
                      old(bus.statusIn), old(bus.dataIn), past, 0);
      ok := status == SUCCESS;
    }

    /** `read_passive_target_id`: list at most one target at `baud` and, when
        one is found, copy its UID into `uid` (which holds `uidLen` bytes). */
    method ReadPassiveTargetId(uid: array<byte>, uidLen: byte, baud: byte, timeout: uint16)
      returns (found: bool, newUidLen: byte)
      requires !bus.selected && uidLen <= uid.Length
      modifies bus, uid
      ensures var c := Call(COMMAND_INLISTPASSIVETARGET, TargetParams(baud), MAX_PAYLOAD_LEN, timeout,
                            old(bus.statusIn), old(bus.dataIn), 0);
        var u := if c.status == SUCCESS then TargetUid(c.response, baud, uidLen) else None;
        && found == u.Some?
        && (found ==>
              u.Some? && newUidLen == |u.value| && uid[..newUidLen] == u.value
              && uid[newUidLen..] == old(uid[newUidLen..]))
        && (!found ==> newUidLen == uidLen && uid[..] == old(uid[..]))
        && bus.statusIn == c.statusIn && bus.dataIn == c.dataIn
        && bus.trace == old(bus.trace) + c.events && !bus.selected
    {
      var params := new byte[2];
      params[0], params[1] := 0x01, baud;
      assert params[..2] == TargetParams(baud);
      var r := new byte[MAX_PAYLOAD_LEN];
      var rLen: byte := MAX_PAYLOAD_LEN;
      var status;
      ghost var past;
      status, rLen, past := CallFunction(COMMAND_INLISTPASSIVETARGET, params, 2, r, rLen, timeout);
      CallIgnoresPast(COMMAND_INLISTPASSIVETARGET, TargetParams(baud), MAX_PAYLOAD_LEN, timeout,
                      old(bus.statusIn), old(bus.dataIn), past, 0);
      if status != SUCCESS {
        return false, uidLen;
      }
      found, newUidLen := ExtractUid(r, rLen, baud, uid, uidLen);
    }

    /** `power_down`: put the chip to sleep, to wake on SPI; true, after a
        short settling delay, when the chip accepted it with status 0. */
    method PowerDown() returns (ok: bool)
      requires !bus.selected
      modifies bus
      ensures var c := Call(COMMAND_POWERDOWN, POWERDOWN_PARAMS, 1, COMMAND_TIMEOUT,
                            old(bus.statusIn), old(bus.dataIn), 0);
        && ok == (c.status == SUCCESS && c.len == 1 && c.response[0] == SUCCESS)
        && bus.statusIn == c.statusIn && bus.dataIn == c.dataIn
        && bus.trace == old(bus.trace) + c.events + (if ok then [Delay(POWERDOWN_DELAY)] else [])
        && !bus.selected
    {
      var params := new byte[2];
      params[0], params[1] := POWERDOWN_WAKEFROM_SPI, POWERDOWN_NO_IRQ;
      assert params[..2] == POWERDOWN_PARAMS;
      var powerdownStatus := new byte[1];
      var powerdownStatusLen: byte := 1;
      var status;
      ghost var past;
      status, powerdownStatusLen, past :=
        CallFunction(COMMAND_POWERDOWN, params, 2, powerdownStatus, powerdownStatusLen, COMMAND_TIMEOUT);
      CallIgnoresPast(COMMAND_POWERDOWN, POWERDOWN_PARAMS, 1, COMMAND_TIMEOUT,
                      old(bus.statusIn), old(bus.dataIn), past, 0);
      if status == SUCCESS && powerdownStatusLen == 1 && powerdownStatus[0] == SUCCESS {
        bus.Sleep(POWERDOWN_DELAY);
        ok := true;
      } else {
        ok := false;
      }
    }
  }
}
