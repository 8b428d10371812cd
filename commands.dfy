/** What the four high-level commands send and how they read the answer:
    GetFirmwareVersion, SAMConfiguration, InListPassiveTarget (UM0701-02,
    section 7.3.5) and PowerDown. */
module Commands {
  import opened Bytes
  import opened Constants
  import opened Frame
  import opened Exchange

  datatype Option<T> = None | Some(value: T)

  /** The timeout every command but InListPassiveTarget uses. */
  const COMMAND_TIMEOUT: uint16 := 500
  /** Bytes of version information GetFirmwareVersion answers. */
  const FIRMWARE_VERSION_LEN: byte := 4
  /** SAMConfiguration: normal mode, no timeout, no IRQ. */
  const SAM_PARAMS: seq<byte> := [0x01, 0x00, 0x00]
  /** PowerDown: wake on SPI, no IRQ. */
  const POWERDOWN_PARAMS: seq<byte> := [POWERDOWN_WAKEFROM_SPI, POWERDOWN_NO_IRQ]
  /** The largest InListPassiveTarget response the driver reads. */
  const MAX_PAYLOAD_LEN: byte := 23

  /** InListPassiveTarget for at most one target at `baud`. */
  function TargetParams(baud: byte): seq<byte> {
    [0x01, baud]
  }

  /** The firmware probe issued at start-up and by `get_firmware_version`. */
  function FirmwareCall(sq: seq<byte>, dq: seq<byte>): Outcome {
    Call(COMMAND_GETFIRMWAREVERSION, [], FIRMWARE_VERSION_LEN, COMMAND_TIMEOUT, sq, dq, 0)
  }

  /** `get_firmware_version` succeeds when the exchange does and all 4 bytes came back. */
  predicate FirmwareOk(c: Outcome) {
    c.status == SUCCESS && c.len == FIRMWARE_VERSION_LEN
  }

  /** Where the UID sits in an InListPassiveTarget response for each baud
      code, as (offset, length); None for a response too short to hold the
      length byte, or an unsupported baud code. */
  function UidField(r: seq<byte>, baud: byte): Option<(nat, nat)> {
    if baud == ISO14443A_BAUD then (if |r| < 6 then None else Some((6, r[5] as nat)))
    else if baud == FELICA_212_BAUD || baud == FELICA_424_BAUD then Some((4, 8))
    else if baud == ISO14443B_BAUD then (if |r| < 15 then None else Some((15, r[14] as nat)))
    else if baud == INNOVISION_JEWEL_BAUD then Some((4, 4))
    else None
  }

  /** The UID `read_passive_target_id` returns from response `r` into a
      buffer of `cap` bytes, or None when it reports no card. */
  function TargetUid(r: seq<byte>, baud: byte, cap: nat): (u: Option<seq<byte>>)
    ensures u.Some? ==> |u.value| <= cap && |r| > 1 && r[0] != 0
  {
    if |r| <= 1 || r[0] == 0 then None
    else match UidField(r, baud)
      case None => None
      case Some((offset, len)) =>
        if |r| < offset + len || cap < len then None else Some(r[offset..offset + len])
  }

  /** The UID table of InListPassiveTarget, both directions: a UID is
      reported exactly when a target was listed, the response holds the UID
      field the baud code calls for, and it fits the caller's buffer. */
  lemma TargetUidByBaud(r: seq<byte>, baud: byte, cap: nat)
    ensures var u := TargetUid(r, baud, cap);
      && (baud == ISO14443A_BAUD ==>
            (u.Some? <==> |r| >= 6 && r[0] != 0 && 6 + r[5] <= |r| && r[5] <= cap)
            && (u.Some? ==> u.value == r[6..6 + r[5]]))
      && (baud == FELICA_212_BAUD || baud == FELICA_424_BAUD ==>
            (u.Some? <==> |r| >= 12 && r[0] != 0 && 8 <= cap)
            && (u.Some? ==> u.value == r[4..12]))
      && (baud == ISO14443B_BAUD ==>
            (u.Some? <==> |r| >= 15 && r[0] != 0 && 15 + r[14] <= |r| && r[14] <= cap)
            && (u.Some? ==> u.value == r[15..15 + r[14]]))
      && (baud == INNOVISION_JEWEL_BAUD ==>
            (u.Some? <==> |r| >= 8 && r[0] != 0 && 4 <= cap)
            && (u.Some? ==> u.value == r[4..8]))
      && (baud > INNOVISION_JEWEL_BAUD ==> u.None?)
  {
  }

  /** An ISO14443A answer `{count=1, Tg, SENS_RES(2), SEL_RES, NFCIDLength=4,
      NFCID(4)}` yields its 4-byte UID; a count of 0 yields none. */
  lemma TargetUidTypeA(tg: byte, sens: seq<byte>, sel: byte, uid: seq<byte>, cap: nat)
    requires |sens| == 2 && |uid| == 4 && cap >= 4
    ensures TargetUid([1, tg] + sens + [sel, 4] + uid, ISO14443A_BAUD, cap) == Some(uid)
    ensures TargetUid([0, tg] + sens + [sel, 4] + uid, ISO14443A_BAUD, cap) == None
  {
    var r := [1, tg] + sens + [sel, 4] + uid;
    assert r[5] == 4 && r[6..10] == uid;
  }

  /** A successful firmware probe carries exactly the 4 version bytes. */
  lemma FirmwareOkLength(sq: seq<byte>, dq: seq<byte>)
    ensures FirmwareOk(FirmwareCall(sq, dq)) ==> |FirmwareCall(sq, dq).response| == 4
  {
  }

  /** A chip that answers GetFirmwareVersion with a well-formed frame carrying
      four version bytes (IC, Ver, Rev, Support) makes the probe succeed with
      exactly those bytes. */
  lemma FirmwareRoundTrip(sq: seq<byte>, dq: seq<byte>, version: seq<byte>, tail: seq<byte>)
    requires PollFrom(sq, 0, COMMAND_TIMEOUT).ready
    requires PollFrom(PollFrom(sq, 0, COMMAND_TIMEOUT).rest, 0, COMMAND_TIMEOUT).ready
    requires |version| == 4
    requires dq == ACK_FRAME + ResponseFrame([COMMAND_GETFIRMWAREVERSION + 1] + version) + tail
    ensures FirmwareOk(FirmwareCall(sq, dq)) && FirmwareCall(sq, dq).response == version
  {
    FirmwareSizes(version);
    CallAnswers(COMMAND_GETFIRMWAREVERSION, [], FIRMWARE_VERSION_LEN, COMMAND_TIMEOUT, sq, dq, 0, version, tail);
  }

  lemma FirmwareSizes(version: seq<byte>)
    requires |version| == 4
    ensures Fits([], FIRMWARE_VERSION_LEN) && COMMAND_GETFIRMWAREVERSION < 255
    ensures |version| + 9 <= U8(FIRMWARE_VERSION_LEN + 1) + 8
    ensures |version| == FIRMWARE_VERSION_LEN as int
  {
  }

  /** A chip that answers PowerDown with a well-formed frame carrying status
      byte `s` makes the exchange succeed with `[s]`, so power-down succeeds
      exactly when `s` is 0. */
  lemma PowerDownRoundTrip(sq: seq<byte>, dq: seq<byte>, s: byte, tail: seq<byte>)
    requires PollFrom(sq, 0, COMMAND_TIMEOUT).ready
    requires PollFrom(PollFrom(sq, 0, COMMAND_TIMEOUT).rest, 0, COMMAND_TIMEOUT).ready
    requires dq == ACK_FRAME + ResponseFrame([COMMAND_POWERDOWN + 1, s]) + tail
    ensures var c := Call(COMMAND_POWERDOWN, POWERDOWN_PARAMS, 1, COMMAND_TIMEOUT, sq, dq, 0);
      c.status == SUCCESS && c.len == 1 && c.response == [s]
  {
    PowerDownSizes(s);
    CallAnswers(COMMAND_POWERDOWN, POWERDOWN_PARAMS, 1, COMMAND_TIMEOUT, sq, dq, 0, [s], tail);
  }

  lemma PowerDownSizes(s: byte)
    ensures Fits(POWERDOWN_PARAMS, 1) && COMMAND_POWERDOWN < 255
    ensures |[s]| + 9 <= U8(1 + 1) + 8
    ensures [COMMAND_POWERDOWN + 1, s] == [COMMAND_POWERDOWN + 1] + [s]
  {
  }
}
