/** The command exchange of `_wait_ready`, `_call_function_try` and
    `_call_function` as pure functions of what the chip answers: the scripted
    status bytes, the scripted data bytes, and (for the one case where the
    decoder reads past its buffer) the stray byte it reads there. The driver's
    methods are proved to compute exactly these. */
module Exchange {
  import opened Bytes
  import opened Constants
  import opened Frame
  import opened Transport

  /** `status & SPI_READY`: bit 0 of the status byte says the chip is ready. */
  predicate IsReady(status: byte) {
    status % 2 == SPI_READY
  }

  /** The status byte answered to the `i`-th status read (0x00 once the script is exhausted). */
  function StatusAt(q: seq<byte>, i: nat): byte {
    if i < |q| then q[i] else 0
  }

  /** The outcome of a wait: whether the chip became ready, how many status
      reads were made, what is left of the status script, and the bus events
      between entering and leaving the transaction. */
  datatype Poll = Poll(ready: bool, polls: nat, rest: seq<byte>, events: seq<Event>)

  /** The loop of `_wait_ready` from timer value `timer` on. */
  function PollFrom(q: seq<byte>, timer: nat, timeout: nat): (p: Poll)
    decreases timeout - timer
  {
    if timer >= timeout then Poll(false, 0, q, [])
    else if IsReady(Next(q)) then Poll(true, 1, Drop(q, 1), [Out([SPI_STATUSREAD])])
    else
      var p := PollFrom(Drop(q, 1), timer + SPI_STATUSPOLLINTERVAL, timeout);
      Poll(p.ready, p.polls + 1, p.rest,
           [Out([SPI_STATUSREAD]), Delay(SPI_STATUSPOLLINTERVAL)] + p.events)
  }

  /** The most status reads a wait of `timeout` ms may make from timer value `timer`:
      one per started poll interval. */
  function Budget(timer: nat, timeout: nat): nat {
    if timer >= timeout then 0
    else (timeout - timer + SPI_STATUSPOLLINTERVAL - 1) / SPI_STATUSPOLLINTERVAL
  }

  lemma PollFromFacts(q: seq<byte>, timer: nat, timeout: nat)
    ensures var p := PollFrom(q, timer, timeout);
      && p.rest == Drop(q, p.polls)
      && (p.ready ==> 1 <= p.polls <= Budget(timer, timeout))
      && (p.ready ==> IsReady(StatusAt(q, p.polls - 1)))
      && (p.ready ==> forall i :: 0 <= i < p.polls - 1 ==> !IsReady(StatusAt(q, i)))
      && (!p.ready ==> p.polls == Budget(timer, timeout))
      && (!p.ready ==> forall i :: 0 <= i < p.polls ==> !IsReady(StatusAt(q, i)))
  {
    PollRest(q, timer, timeout);
    PollCount(q, timer, timeout);
    PollScan(q, timer, timeout);
  }

  /** A wait consumes exactly one status byte per poll. */
  lemma {:induction false} PollRest(q: seq<byte>, timer: nat, timeout: nat)
    ensures PollFrom(q, timer, timeout).rest == Drop(q, PollFrom(q, timer, timeout).polls)
    decreases timeout - timer
  {
    if timer < timeout && !IsReady(Next(q)) {
      var q' := Drop(q, 1);
      PollRest(q', timer + SPI_STATUSPOLLINTERVAL, timeout);
      DropDrop(q, 1, PollFrom(q', timer + SPI_STATUSPOLLINTERVAL, timeout).polls);
    }
  }

  lemma BudgetStep(timer: nat, timeout: nat)
    requires timer < timeout
    ensures Budget(timer, timeout) == Budget(timer + SPI_STATUSPOLLINTERVAL, timeout) + 1
  {
  }

  /** A wait that sees the chip ready polls at least once and within the
      budget; one that times out uses the whole budget. */
  lemma {:induction false} PollCount(q: seq<byte>, timer: nat, timeout: nat)
    ensures var p := PollFrom(q, timer, timeout);
      && (p.ready ==> 1 <= p.polls <= Budget(timer, timeout))
      && (!p.ready ==> p.polls == Budget(timer, timeout))
    decreases timeout - timer
  {
    if timer < timeout {
      BudgetStep(timer, timeout);
      if !IsReady(Next(q)) {
        PollCount(Drop(q, 1), timer + SPI_STATUSPOLLINTERVAL, timeout);
      }
    }
  }

  /** A wait stops at the first ready status byte. */
  lemma {:induction false} PollScan(q: seq<byte>, timer: nat, timeout: nat)
    ensures var p := PollFrom(q, timer, timeout);
      && (p.ready ==> p.polls >= 1 && IsReady(StatusAt(q, p.polls - 1)))
      && (p.ready ==> forall i :: 0 <= i < p.polls - 1 ==> !IsReady(StatusAt(q, i)))
      && (!p.ready ==> forall i :: 0 <= i < p.polls ==> !IsReady(StatusAt(q, i)))
    decreases timeout - timer
  {
    if timer < timeout && !IsReady(Next(q)) {
      var q' := Drop(q, 1);
      PollScan(q', timer + SPI_STATUSPOLLINTERVAL, timeout);
      var p' := PollFrom(q', timer + SPI_STATUSPOLLINTERVAL, timeout);
      assert StatusAt(q, 0) == Next(q);
      forall i | 1 <= i <= p'.polls
        ensures StatusAt(q, i) == StatusAt(q', i - 1)
      {
      }
    }
  }

  /** `_wait_ready` returns true iff some status byte it read has bit 0 set;
      it reads at most one status byte per started 5 ms of the timeout, stops
      at the first ready one, and reads none when the timeout is 0. */
  lemma WaitReadyIff(q: seq<byte>, timeout: nat)
    ensures var p := PollFrom(q, 0, timeout);
      && (p.ready <==> exists i :: 0 <= i < p.polls && IsReady(StatusAt(q, i)))
      && p.polls <= (timeout + SPI_STATUSPOLLINTERVAL - 1) / SPI_STATUSPOLLINTERVAL
      && (p.ready ==> IsReady(StatusAt(q, p.polls - 1)))
      && (!p.ready ==> p.polls == (timeout + SPI_STATUSPOLLINTERVAL - 1) / SPI_STATUSPOLLINTERVAL)
      && (timeout == 0 ==> p.polls == 0 && !p.ready)
      && p.rest == Drop(q, p.polls)
  {
    PollFromFacts(q, 0, timeout);
  }

  /** The bus events of `_write_data(bytes)` and `_read_data` returning `bytes`. */
  function WriteEvents(bytes: seq<byte>): seq<Event> {
    [Event.Enter, Out([SPI_DATAWRITE]), Out(bytes), Event.Exit]
  }

  function ReadEvents(bytes: seq<byte>): seq<Event> {
    [Event.Enter, Out([SPI_DATAREAD]), In(bytes), Event.Exit]
  }

  /** The bus events of a whole `_wait_ready`. */
  function WaitEvents(p: Poll): seq<Event> {
    [Event.Enter] + p.events + [Event.Exit]
  }

  /** What `_call_function_try` writes: the opcode, then the parameters. The
      length is passed to `_write_frame` as a `uint8_t`. */
  function CommandData(command: byte, params: seq<byte>): (r: seq<byte>)
    requires |params| <= 255 && U8(1 + |params|) <= 247
    ensures |params| <= 246 ==> r == [command] + params
  {
    ([command] + params)[..U8(1 + |params|)]
  }

  /** What the callers of `_call_function` can pass without `count + 8`
      overflowing `uint8_t` in `_write_frame` or `_read_frame`. */
  predicate Fits(params: seq<byte>, cap: byte) {
    |params| <= 255 && U8(1 + |params|) <= 247 && U8(cap + 1) <= 247
  }

  /** The outcome of the echo check on a decoded payload. */
  datatype Echo = Echo(status: byte, len: byte, response: seq<byte>)

  /** Lines 173-178 as written: `response_data[0]` holds the stale stack byte
      `stale` when the decoded payload is empty, and `*response_len -= 1` is
      computed in `uint8_t`. What the copy loop then reads beyond the payload
      is not modelled: the response is left empty. */
  function EchoCheckAsWritten(payload: seq<byte>, stale: byte, command: byte): (e: Echo)
    requires |payload| <= 255
    ensures e.status == SUCCESS || e.status == ERR_WRONG_COMMAND_RESPONSE
  {
    var first := if |payload| > 0 then payload[0] else stale;
    if first as int != command as int + 1 then Echo(ERR_WRONG_COMMAND_RESPONSE, |payload|, [])
    else Echo(SUCCESS, U8(|payload| - 1), if |payload| > 0 then payload[1..] else [])
  }

  /** The input that shows it: an empty payload whose stale first byte happens
      to equal the echo passes the check, and the response length underflows
      to 255, longer than any buffer a caller can pass. */
  lemma EchoEmptyPayloadUnderflows(command: byte)
    requires command < 255
    ensures EchoCheckAsWritten([], command + 1, command) == Echo(SUCCESS, 255, [])
  {
  }

  /** The echo check as intended: the payload must start with opcode + 1;
      an empty payload has no echo and is a wrong command response. */
  function EchoCheck(payload: seq<byte>, command: byte): (e: Echo)
    requires |payload| <= 255
    ensures e.status == SUCCESS || e.status == ERR_WRONG_COMMAND_RESPONSE
    ensures e.status == SUCCESS <==> |payload| >= 1 && payload[0] as int == command as int + 1
    ensures e.status == SUCCESS ==> [payload[0]] + e.response == payload && e.len == |e.response|
    ensures e.status != SUCCESS ==> e.len == |payload| && e.response == []
  {
    if |payload| == 0 || payload[0] as int != command as int + 1 then
      Echo(ERR_WRONG_COMMAND_RESPONSE, |payload|, [])
    else Echo(SUCCESS, |payload| - 1, payload[1..])
  }

  /** The intended check agrees with the source on every non-empty payload. */
  lemma EchoCheckAgrees(payload: seq<byte>, stale: byte, command: byte)
    requires 1 <= |payload| <= 255
    ensures EchoCheckAsWritten(payload, stale, command) == EchoCheck(payload, command)
  {
  }

  /** The result of one exchange: the status, the new `*response_len`, the
      response bytes, what is left of both scripts, and the bus events. */
  datatype Outcome = Outcome(status: byte, len: byte, response: seq<byte>,
                             statusIn: seq<byte>, dataIn: seq<byte>, events: seq<Event>)

  /** `_call_function_try`: send the command frame, wait, read and compare the
      6-byte ACK, wait, read `*response_len + 1 + 8` bytes and decode them,
      then check the echoed opcode. */
  function Try(command: byte, params: seq<byte>, cap: byte, timeout: uint16,
               sq: seq<byte>, dq: seq<byte>, past: byte): (r: Outcome)
    requires Fits(params, cap)
    ensures r.status == SUCCESS || IsError(r.status)
    ensures r.status == SUCCESS ==> r.len == |r.response| <= cap
  {
    var sent := WriteEvents(Encode(CommandData(command, params)));
    var ack := PollFrom(sq, 0, timeout);
    var ev1 := sent + WaitEvents(ack);
    if !ack.ready then Outcome(ERR_ACK_TIMEOUT, cap, [], ack.rest, dq, ev1)
    else
      var ackBytes := Take(dq, ACK_LEN);
      var ev2 := ev1 + ReadEvents(ackBytes);
      var dq2 := Drop(dq, ACK_LEN);
      if ackBytes != ACK_FRAME then Outcome(ERR_NO_COMMAND_ACK, cap, [], ack.rest, dq2, ev2)
      else
        var resp := PollFrom(ack.rest, 0, timeout);
        var ev3 := ev2 + WaitEvents(resp);
        if !resp.ready then Outcome(ERR_RESPONSE_TIMEOUT, cap, [], resp.rest, dq2, ev3)
        else
          var frame := Take(dq2, U8(cap + 1) + 8);
          var e := Respond(command, cap, frame, past);
          Outcome(e.status, e.len, e.response, resp.rest, Drop(dq2, U8(cap + 1) + 8), ev3 + ReadEvents(frame))
  }

  /** The last stage of `_call_function_try`: decode the `*response_len + 1 + 8`
      bytes read (the length incremented in `uint8_t`), then check the echo. */
  function Respond(command: byte, cap: byte, frame: seq<byte>, past: byte): (e: Echo)
    requires U8(cap + 1) <= 247 && |frame| == U8(cap + 1) + 8
    ensures e.status == SUCCESS || IsError(e.status)
    ensures e.status == SUCCESS ==> e.len == |e.response| <= cap
  {
    var d := Decode(frame, U8(cap + 1), past);
    if d.Err? then Echo(d.code, U8(cap + 1), [])
    else EchoCheck(d.value, command)
  }

  /** `_call_function`: the exchange, followed by the raw ACK frame as an
      abort whenever it did not succeed. */
  function Call(command: byte, params: seq<byte>, cap: byte, timeout: uint16,
                sq: seq<byte>, dq: seq<byte>, past: byte): (r: Outcome)
    requires Fits(params, cap)
  {
    var t := Try(command, params, cap, timeout, sq, dq, past);
    if t.status != SUCCESS then t.(events := t.events + WriteEvents(ACK_FRAME)) else t
  }

  /** `_call_function` returns the status of the exchange, and ends with the
      abort frame on the bus exactly when that status is not SUCCESS. */
  lemma CallAbortsIffFailure(command: byte, params: seq<byte>, cap: byte, timeout: uint16,
                             sq: seq<byte>, dq: seq<byte>, past: byte)
    requires Fits(params, cap)
    ensures var t := Try(command, params, cap, timeout, sq, dq, past);
      var c := Call(command, params, cap, timeout, sq, dq, past);
      && c.status == t.status && c.len == t.len && c.response == t.response
      && |c.events| >= 4 && c.events[..|t.events|] == t.events
      && (c.events[|c.events| - 4..] == WriteEvents(ACK_FRAME) <==> c.status != SUCCESS)
  {
    var t := Try(command, params, cap, timeout, sq, dq, past);
    if t.status == SUCCESS {
      var e := t.events;
      // a successful exchange ends with the read of the response frame
      assert e[|e| - 2].In?;
    }
  }

  /** Each way the exchange fails, with the status and the new `*response_len`
      it leaves: unchanged on a timeout or a missing ACK, incremented by one
      on a decode error, the decoded length on a wrong echo. */
  lemma CallFailures(command: byte, params: seq<byte>, cap: byte, timeout: uint16,
                     sq: seq<byte>, dq: seq<byte>, past: byte)
    requires Fits(params, cap)
    ensures var c := Call(command, params, cap, timeout, sq, dq, past);
      var ack := PollFrom(sq, 0, timeout);
      var resp := PollFrom(ack.rest, 0, timeout);
      var frame := Take(Drop(dq, ACK_LEN), U8(cap + 1) + 8);
      var d := Decode(frame, U8(cap + 1), past);
      && (!ack.ready ==> c.status == ERR_ACK_TIMEOUT && c.len == cap && c.dataIn == dq)
      && (ack.ready && Take(dq, ACK_LEN) != ACK_FRAME ==>
            c.status == ERR_NO_COMMAND_ACK && c.len == cap && c.statusIn == ack.rest)
      && (ack.ready && Take(dq, ACK_LEN) == ACK_FRAME && !resp.ready ==>
            c.status == ERR_RESPONSE_TIMEOUT && c.len == cap)
      && (ack.ready && Take(dq, ACK_LEN) == ACK_FRAME && resp.ready && d.Err? ==>
            c.status == d.code && c.len == U8(cap + 1))
      && (ack.ready && Take(dq, ACK_LEN) == ACK_FRAME && resp.ready && d.Ok? &&
          (|d.value| == 0 || d.value[0] as int != command as int + 1) ==>
            c.status == ERR_WRONG_COMMAND_RESPONSE && c.len == |d.value|)
  {
  }

  /** A successful exchange saw the ACK and a well-formed response frame whose
      payload is the echoed opcode followed by the response. */
  lemma CallSuccessSound(command: byte, params: seq<byte>, cap: byte, timeout: uint16,
                         sq: seq<byte>, dq: seq<byte>, past: byte)
    requires Fits(params, cap)
    requires Call(command, params, cap, timeout, sq, dq, past).status == SUCCESS
    ensures var c := Call(command, params, cap, timeout, sq, dq, past);
      var ack := PollFrom(sq, 0, timeout);
      var frame := Take(Drop(dq, ACK_LEN), U8(cap + 1) + 8);
      && ack.ready && Take(dq, ACK_LEN) == ACK_FRAME && PollFrom(ack.rest, 0, timeout).ready
      && command < 255
      && Decode(frame, U8(cap + 1), past) == Ok([command + 1] + c.response)
      && c.len == |c.response| <= cap
      && c.events[|c.events| - 4..] == ReadEvents(frame)
  {
    var t := Try(command, params, cap, timeout, sq, dq, past);
    var ack := PollFrom(sq, 0, timeout);
    var frame := Take(Drop(dq, ACK_LEN), U8(cap + 1) + 8);
    assert t.status == SUCCESS;
    assert ack.ready && Take(dq, ACK_LEN) == ACK_FRAME && PollFrom(ack.rest, 0, timeout).ready;
    var d := Decode(frame, U8(cap + 1), past);
    assert t == Outcome(Respond(command, cap, frame, past).status, Respond(command, cap, frame, past).len,
                        Respond(command, cap, frame, past).response, PollFrom(ack.rest, 0, timeout).rest,
                        Drop(Drop(dq, ACK_LEN), U8(cap + 1) + 8),
                        WriteEvents(Encode(CommandData(command, params))) + WaitEvents(ack)
                        + ReadEvents(Take(dq, ACK_LEN)) + WaitEvents(PollFrom(ack.rest, 0, timeout))
                        + ReadEvents(frame));
    assert d.Ok? && EchoCheck(d.value, command).status == SUCCESS;
  }

  /** End to end: a chip that is ready within the timeout twice, acknowledges,
      and answers with a well-formed response frame (after any number of zero
      bytes that still leave it inside the `*response_len + 1 + 8` bytes read)
      echoing opcode + 1, makes the exchange succeed with exactly its answer;
      nothing is aborted, and the data script is consumed up to the end of the
      read window whatever follows the frame. */
  lemma CallRoundTrip(command: byte, params: seq<byte>, cap: byte, timeout: uint16,
                      sq: seq<byte>, dq: seq<byte>, past: byte,
                      k: nat, answer: seq<byte>, tail: seq<byte>)
    requires Fits(params, cap) && command < 255
    requires PollFrom(sq, 0, timeout).ready && PollFrom(PollFrom(sq, 0, timeout).rest, 0, timeout).ready
    requires |answer| <= 246
    requires dq == ACK_FRAME + Zeros(k) + ResponseFrame([command + 1] + answer) + tail
    requires k + |answer| + 9 <= U8(cap + 1) + 8
    ensures var c := Call(command, params, cap, timeout, sq, dq, past);
      && c.status == SUCCESS && c.response == answer && c.len == |answer|
      && c.dataIn == Drop(dq, ACK_LEN + U8(cap + 1) + 8)
  {
    RoundTripScript(command, cap, past, k, answer, tail, dq);
    CallOk(command, params, cap, timeout, sq, dq, past);
  }

  /** What the exchange reads from such a data script: the ACK, then a read
      window that decodes to the answer. */
  lemma RoundTripScript(command: byte, cap: byte, past: byte, k: nat, answer: seq<byte>, tail: seq<byte>,
                        dq: seq<byte>)
    requires U8(cap + 1) <= 247 && command < 255 && |answer| <= 246
    requires dq == ACK_FRAME + Zeros(k) + ResponseFrame([command + 1] + answer) + tail
    requires k + |answer| + 9 <= U8(cap + 1) + 8
    ensures Take(dq, ACK_LEN) == ACK_FRAME
    ensures Respond(command, cap, Take(Drop(dq, ACK_LEN), U8(cap + 1) + 8), past) ==
      Echo(SUCCESS, |answer| as byte, answer)
    ensures Drop(Drop(dq, ACK_LEN), U8(cap + 1) + 8) == Drop(dq, ACK_LEN + U8(cap + 1) + 8)
  {
    var rf := ResponseFrame([command + 1] + answer);
    var rest := Zeros(k) + rf + tail;
    Assoc(ACK_FRAME, Zeros(k), rf);
    Assoc(ACK_FRAME, Zeros(k) + rf, tail);
    AckScript(dq, rest);
    DropDrop(dq, ACK_LEN, U8(cap + 1) + 8);
    RespondRoundTrip(command, cap, past, k, answer, tail, Take(rest, U8(cap + 1) + 8));
  }

  /** A data script that starts with the ACK frame. */
  lemma AckScript(dq: seq<byte>, rest: seq<byte>)
    requires dq == ACK_FRAME + rest
    ensures Take(dq, ACK_LEN) == ACK_FRAME && Drop(dq, ACK_LEN) == rest
  {
    TakeAppend(ACK_FRAME, rest, ACK_LEN);
    assert Take(rest, 0) == [];
    DropAppend(ACK_FRAME, rest);
  }

  /** The round trip of a chip that answers with no zero bytes before the
      response frame: the exchange succeeds with exactly the answer. */
  lemma CallAnswers(command: byte, params: seq<byte>, cap: byte, timeout: uint16,
                    sq: seq<byte>, dq: seq<byte>, past: byte, answer: seq<byte>, tail: seq<byte>)
    requires Fits(params, cap) && command < 255 && |answer| + 9 <= U8(cap + 1) + 8
    requires PollFrom(sq, 0, timeout).ready
    requires PollFrom(PollFrom(sq, 0, timeout).rest, 0, timeout).ready
    requires dq == ACK_FRAME + ResponseFrame([command + 1] + answer) + tail
    ensures Call(command, params, cap, timeout, sq, dq, past).status == SUCCESS
    ensures Call(command, params, cap, timeout, sq, dq, past).response == answer
    ensures Call(command, params, cap, timeout, sq, dq, past).len == |answer|
  {
    assert ACK_FRAME + Zeros(0) == ACK_FRAME;
    CallRoundTrip(command, params, cap, timeout, sq, dq, past, 0, answer, tail);
  }

  /** Completeness of the exchange: when both waits see the chip ready, the
      ACK is read back and the response passes the decoder and the echo
      check, the call succeeds with that response and consumes the ACK and
      the read window. */
  lemma CallOk(command: byte, params: seq<byte>, cap: byte, timeout: uint16,
               sq: seq<byte>, dq: seq<byte>, past: byte)
    requires Fits(params, cap)
    requires PollFrom(sq, 0, timeout).ready && PollFrom(PollFrom(sq, 0, timeout).rest, 0, timeout).ready
    requires Take(dq, ACK_LEN) == ACK_FRAME
    requires Respond(command, cap, Take(Drop(dq, ACK_LEN), U8(cap + 1) + 8), past).status == SUCCESS
    ensures Call(command, params, cap, timeout, sq, dq, past).status == SUCCESS
    ensures Call(command, params, cap, timeout, sq, dq, past).len ==
      Respond(command, cap, Take(Drop(dq, ACK_LEN), U8(cap + 1) + 8), past).len
    ensures Call(command, params, cap, timeout, sq, dq, past).response ==
      Respond(command, cap, Take(Drop(dq, ACK_LEN), U8(cap + 1) + 8), past).response
    ensures Call(command, params, cap, timeout, sq, dq, past).dataIn ==
      Drop(Drop(dq, ACK_LEN), U8(cap + 1) + 8)
  {
  }

  /** The response half of the round trip: the read window over a response
      frame after `k` zero bytes yields exactly the answer. */
  lemma RespondRoundTrip(command: byte, cap: byte, past: byte, k: nat, answer: seq<byte>, tail: seq<byte>,
                         frame: seq<byte>)
    requires U8(cap + 1) <= 247 && command < 255 && |answer| <= 246
    requires k + |answer| + 9 <= U8(cap + 1) + 8
    requires frame == Take(Zeros(k) + ResponseFrame([command + 1] + answer) + tail, U8(cap + 1) + 8)
    ensures Respond(command, cap, frame, past) == Echo(SUCCESS, |answer| as byte, answer)
  {
    var payload := [command + 1] + answer;
    var rf := ResponseFrame(payload);
    var window := Take(tail, U8(cap + 1) + 8 - k - |rf|);
    TakeAppend(Zeros(k) + rf, tail, U8(cap + 1) + 8);
    DecodeResponseFrame(frame, U8(cap + 1), past, k, payload, window);
    RespondOk(command, cap, frame, past, payload);
    assert payload[1..] == answer && |payload| - 1 == |answer|;
  }

  /** A decoded payload that echoes the opcode is answered with the rest of it. */
  lemma RespondOk(command: byte, cap: byte, frame: seq<byte>, past: byte, payload: seq<byte>)
    requires U8(cap + 1) <= 247 && |frame| == U8(cap + 1) + 8
    requires Decode(frame, U8(cap + 1), past) == Ok(payload)
    requires |payload| >= 1 && payload[0] as int == command as int + 1
    ensures Respond(command, cap, frame, past) == Echo(SUCCESS, |payload| - 1, payload[1..])
  {
  }

  /** The stray byte the decoder may read past its buffer never decides
      whether an exchange succeeds, nor anything but which error it reports. */
  lemma CallIgnoresPast(command: byte, params: seq<byte>, cap: byte, timeout: uint16,
                        sq: seq<byte>, dq: seq<byte>, p1: byte, p2: byte)
    requires Fits(params, cap)
    ensures var c1 := Call(command, params, cap, timeout, sq, dq, p1);
      var c2 := Call(command, params, cap, timeout, sq, dq, p2);
      && (c1.status == SUCCESS <==> c2.status == SUCCESS)
      && c1.(status := SUCCESS) == c2.(status := SUCCESS)
  {
    var ack := PollFrom(sq, 0, timeout);
    var frame := Take(Drop(dq, ACK_LEN), U8(cap + 1) + 8);
    DecodeIgnoresPast(frame, U8(cap + 1), p1, p2);
  }
}
