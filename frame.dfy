/** The PN532 normal information frame (NXP PN532 User Manual UM0701-02,
    section 6.2.1) as pure functions: the encoder behind `_write_frame`, the
    decoder behind `_read_frame`, and what is proved about the two. */
module Frame {
  import opened Bytes
  import opened Constants

  /** A decoded payload, or the status code the decoder returns instead. */
  datatype Result<T> = Ok(value: T) | Err(code: byte)

  /** The checksum byte that brings a running sum to 0 modulo 256 (`~sum + 1` in `uint8_t`). */
  function Checksum(sum: int): byte
  {
    (-sum) % 256
  }

  /** Adding the checksum byte to the sum it was computed from gives 0 modulo 256. */
  lemma ChecksumCancels(sum: int)
    ensures (sum + Checksum(sum)) % 256 == 0
  {
  }

  /** The checksum byte is the only byte that cancels the sum. */
  lemma ChecksumUnique(sum: int, r: byte)
    requires (sum + r) % 256 == 0
    ensures r == Checksum(sum)
  {
  }

  /** DCS, the data checksum of a frame: it cancels the frame identifier
      and the data. */
  function DataChecksum(tfi: byte, data: seq<byte>): byte {
    Checksum(tfi + Sum(data))
  }

  /** The checksummed region of a frame: the frame identifier, the data, and DCS. */
  function Body(tfi: byte, data: seq<byte>): (r: seq<byte>)
    ensures |r| == |data| + 2
  {
    [tfi] + data + [DataChecksum(tfi, data)]
  }

  /** A frame from its start code on: `FF LEN LCS TFI data... DCS 00`. */
  function Packet(tfi: byte, data: seq<byte>): (r: seq<byte>)
    requires |data| <= 254
    ensures |r| == |data| + 6
  {
    [STARTCODE2, |data| + 1, Checksum(|data| + 1)] + Body(tfi, data) + [POSTAMBLE]
  }

  /** The frame `_write_frame` sends for `data` (the opcode and its parameters). */
  function Encode(data: seq<byte>): (r: seq<byte>)
    requires |data| <= 247
  {
    [PREAMBLE, STARTCODE1] + Packet(HOSTTOPN532, data)
  }

  /** The frame a PN532 sends back carrying `data` (opcode + 1 and the results). */
  function ResponseFrame(data: seq<byte>): (r: seq<byte>)
    requires |data| <= 247
  {
    [PREAMBLE, STARTCODE1] + Packet(PN532TOHOST, data)
  }

  lemma {:induction false} BodySum(tfi: byte, data: seq<byte>)
    ensures Sum(Body(tfi, data)) % 256 == 0
  {
    ChecksumCancels(tfi + Sum(data));
    SumAppend([tfi] + data, [DataChecksum(tfi, data)]);
    SumAppend([tfi], data);
    assert Sum([tfi]) == tfi by { assert [tfi][..0] == []; }
    assert Sum([DataChecksum(tfi, data)]) == DataChecksum(tfi, data) by {
      assert [DataChecksum(tfi, data)][..0] == [];
    }
  }

  /** The layout `_write_frame` produces, and both checksum invariants of it. */
  lemma EncodeLayout(data: seq<byte>)
    requires |data| <= 247
    ensures var f := Encode(data);
      && |f| == |data| + 8
      && f[0] == PREAMBLE && f[1] == STARTCODE1 && f[2] == STARTCODE2
      && f[3] == |data| + 1 && f[4] == 255 - |data| && f[5] == HOSTTOPN532
      && f[6..6 + |data|] == data && f[|data| + 7] == POSTAMBLE
      && (f[3] as int + f[4]) % 256 == 0
      && Sum(f[5..|data| + 7]) % 256 == 0
  {
    var f := Encode(data);
    assert f[5..|data| + 7] == Body(HOSTTOPN532, data);
    BodySum(HOSTTOPN532, data);
  }

  /** The header bytes of the encoded frame. */
  lemma EncodeHeaderAt(data: seq<byte>, i: nat)
    requires |data| <= 247 && i < 6
    ensures Encode(data)[i] ==
      [PREAMBLE, STARTCODE1, STARTCODE2, |data| + 1, Checksum(|data| + 1), HOSTTOPN532][i]
  {
  }

  /** The payload bytes of the encoded frame. */
  lemma EncodeDataAt(data: seq<byte>, i: nat)
    requires |data| <= 247 && 6 <= i < |data| + 6
    ensures Encode(data)[i] == data[i - 6]
  {
  }

  /** The checksum and postamble at the end of a packet. */
  lemma PacketTrailerAt(tfi: byte, data: seq<byte>)
    requires |data| <= 247
    ensures Packet(tfi, data)[|data| + 4] == Body(tfi, data)[|data| + 1]
    ensures Packet(tfi, data)[|data| + 5] == POSTAMBLE
  {
  }

  /** The checksum and postamble of the encoded frame. */
  lemma EncodeTrailerAt(data: seq<byte>)
    requires |data| <= 247
    ensures Encode(data)[|data| + 6] == DataChecksum(HOSTTOPN532, data)
    ensures Encode(data)[|data| + 7] == POSTAMBLE
  {
    PacketTrailerAt(HOSTTOPN532, data);
    BodyChecksumAt(HOSTTOPN532, data);
    var p := Packet(HOSTTOPN532, data);
    assert Encode(data)[|data| + 6] == p[|data| + 4];
  }

  /** The last byte of the checksummed region is the data checksum. */
  lemma BodyChecksumAt(tfi: byte, data: seq<byte>)
    ensures Body(tfi, data)[|data| + 1] == DataChecksum(tfi, data)
  {
  }

  /** The index of the first non-zero byte at or after `from` (`|s|` if there is none). */
  function FirstNonZero(s: seq<byte>, from: nat): (r: nat)
    requires from <= |s|
    ensures from <= r <= |s|
    ensures forall i :: from <= i < r ==> s[i] == 0
    ensures r < |s| ==> s[r] != 0
    decreases |s| - from
  {
    if from == |s| || s[from] != 0 then from else FirstNonZero(s, from + 1)
  }

  lemma FirstNonZeroAt(s: seq<byte>, k: nat)
    requires k <= |s|
    requires forall i :: 0 <= i < k ==> s[i] == 0
    requires k < |s| ==> s[k] != 0
    ensures FirstNonZero(s, 0) == k
  {
  }

  /** The decoder of `_read_frame` on the `cap + 8` bytes read from the chip:
      skip the leading zeros, then the start code. */
  function Decode(frame: seq<byte>, cap: nat, past: byte): (r: Result<seq<byte>>)
    requires |frame| == cap + 8 <= 255
    ensures r.Ok? ==> |r.value| <= cap
    ensures r.Err? ==> IsDecodeError(r.code)
  {
    var start := FirstNonZero(frame, 0);
    if start == |frame| then Err(ERR_BAD_PREAMBLE)
    else if frame[start] != STARTCODE2 then Err(ERR_BAD_PACKET_START)
    else if start + 1 == |frame| then Err(ERR_EMPTY_PACKET)
    else DecodeLength(frame, cap, past, start + 1)
  }

  /** The length field at index `at` and its checksum. `past` stands for the
      byte just after the buffer, which the source reads as the length
      checksum when the length is the last byte. */
  function DecodeLength(frame: seq<byte>, cap: nat, past: byte, at: nat): (r: Result<seq<byte>>)
    requires |frame| == cap + 8 <= 255 && at < |frame|
    ensures r.Ok? ==> |r.value| <= cap
    ensures r.Err? ==> IsDecodeError(r.code)
  {
    var len := frame[at];
    var lcs := if at + 1 < |frame| then frame[at + 1] else past;
    if len == 0 then Err(ERR_EMPTY_RESPONSE)
    else if (len as int + lcs) % 256 != 0 then Err(ERR_BAD_LENGTH_CHECKSUM)
    else DecodeBody(frame, cap, U8(at + 2), len)
  }

  /** The `len + 1` checksummed bytes from the identifier at `offset` on, the
      postamble after them, and the caller's capacity. */
  function DecodeBody(frame: seq<byte>, cap: nat, offset: nat, len: byte): (r: Result<seq<byte>>)
    requires |frame| == cap + 8 <= 255 && len != 0
    ensures r.Ok? ==> |r.value| <= cap
    ensures r.Err? ==> IsDecodeError(r.code)
  {
    if len + offset > |frame| - 2 then Err(ERR_LONG_RESPONSE)
    else if Sum(frame[offset..offset + len + 1]) % 256 != 0 then Err(ERR_BAD_DATA_CHECKSUM)
    else if frame[offset] != PN532TOHOST then Err(ERR_BAD_TFI)
    else if frame[offset + len + 1] != POSTAMBLE then Err(ERR_BAD_POSTAMBLE)
    else if len - 1 > cap then Err(ERR_LONG_RESPONSE)
    else Ok(frame[offset + 1..offset + len])
  }

  /** Leading zeros: all zeros is a bad preamble; after any number of zeros
      (none included) the first other byte must be the start code, and a start
      code with nothing after it is an empty packet. */
  lemma DecodeStartMarker(frame: seq<byte>, cap: nat, past: byte, k: nat)
    requires |frame| == cap + 8 <= 255
    requires k <= |frame| && forall i :: 0 <= i < k ==> frame[i] == 0
    ensures k == |frame| ==> Decode(frame, cap, past) == Err(ERR_BAD_PREAMBLE)
    ensures k < |frame| && frame[k] != 0 && frame[k] != STARTCODE2 ==>
      Decode(frame, cap, past) == Err(ERR_BAD_PACKET_START)
    ensures k == |frame| - 1 && frame[k] == STARTCODE2 ==>
      Decode(frame, cap, past) == Err(ERR_EMPTY_PACKET)
  {
    if k == |frame| || frame[k] != 0 {
      FirstNonZeroAt(frame, k);
    }
  }

  /** After the start code at index `k`, the header checks fail in the
      source's order, each whatever the bytes after the field it inspects. */
  lemma DecodeHeaderOrder(frame: seq<byte>, cap: nat, past: byte, k: nat)
    requires |frame| == cap + 8 <= 255
    requires k + 3 <= |frame| && forall i :: 0 <= i < k ==> frame[i] == 0
    requires frame[k] == STARTCODE2
    ensures frame[k + 1] == 0 ==> Decode(frame, cap, past) == Err(ERR_EMPTY_RESPONSE)
    ensures frame[k + 1] != 0 && (frame[k + 1] as int + frame[k + 2]) % 256 != 0 ==>
      Decode(frame, cap, past) == Err(ERR_BAD_LENGTH_CHECKSUM)
    ensures (frame[k + 1] != 0 && (frame[k + 1] as int + frame[k + 2]) % 256 == 0 &&
             frame[k + 1] + k + 3 > |frame| - 2) ==>
      Decode(frame, cap, past) == Err(ERR_LONG_RESPONSE)
  {
    FirstNonZeroAt(frame, k);
  }

  /** The checks on the checksummed region, in order, once the header of a
      frame starting at index `k` is sound. */
  lemma DecodeBodyOrder(frame: seq<byte>, cap: nat, past: byte, k: nat)
    requires |frame| == cap + 8 <= 255
    requires k + 3 <= |frame| && forall i :: 0 <= i < k ==> frame[i] == 0
    requires frame[k] == STARTCODE2 && frame[k + 1] != 0
    requires (frame[k + 1] as int + frame[k + 2]) % 256 == 0
    requires frame[k + 1] + k + 3 <= |frame| - 2
    ensures var len := frame[k + 1];
      && (Sum(frame[k + 3..k + len + 4]) % 256 != 0 ==>
          Decode(frame, cap, past) == Err(ERR_BAD_DATA_CHECKSUM))
      && (Sum(frame[k + 3..k + len + 4]) % 256 == 0 && frame[k + 3] != PN532TOHOST ==>
          Decode(frame, cap, past) == Err(ERR_BAD_TFI))
      && (Sum(frame[k + 3..k + len + 4]) % 256 == 0 && frame[k + 3] == PN532TOHOST &&
          frame[k + len + 4] != POSTAMBLE ==>
          Decode(frame, cap, past) == Err(ERR_BAD_POSTAMBLE))
      && (Sum(frame[k + 3..k + len + 4]) % 256 == 0 && frame[k + 3] == PN532TOHOST &&
          frame[k + len + 4] == POSTAMBLE ==>
          Decode(frame, cap, past) ==
            if len - 1 > cap then Err(ERR_LONG_RESPONSE) else Ok(frame[k + 4..k + len + 3]))
  {
    DecodeAt(frame, cap, past, k);
    assert frame[k + 3..k + 3 + frame[k + 1] + 1] == frame[k + 3..k + frame[k + 1] + 4];
  }

  /** Past a sound header at index `k`, the decoder is the check of the
      region that starts at `k + 3`. */
  lemma DecodeAt(frame: seq<byte>, cap: nat, past: byte, k: nat)
    requires |frame| == cap + 8 <= 255 && k + 3 <= |frame|
    requires forall i :: 0 <= i < k ==> frame[i] == 0
    requires frame[k] == STARTCODE2 && frame[k + 1] != 0
    requires (frame[k + 1] as int + frame[k + 2]) % 256 == 0
    ensures Decode(frame, cap, past) == DecodeBody(frame, cap, k + 3, frame[k + 1])
  {
    FirstNonZeroAt(frame, k);
    assert U8(k + 1 + 2) == k + 3;
  }

  /** The checks after the data checksum, for a sound header announcing
      `n` data bytes and a region that sums to 0 modulo 256. */
  lemma DecodeChecked(frame: seq<byte>, cap: nat, past: byte, k: nat, n: nat)
    requires |frame| == cap + 8 <= 255 && k + n + 6 <= |frame|
    requires forall i :: 0 <= i < k ==> frame[i] == 0
    requires frame[k] == STARTCODE2 && frame[k + 1] == n + 1
    requires (frame[k + 1] as int + frame[k + 2]) % 256 == 0
    requires Sum(frame[k + 3..k + n + 5]) % 256 == 0
    ensures frame[k + 3] != PN532TOHOST ==> Decode(frame, cap, past) == Err(ERR_BAD_TFI)
    ensures frame[k + 3] == PN532TOHOST && frame[k + n + 5] != POSTAMBLE ==>
      Decode(frame, cap, past) == Err(ERR_BAD_POSTAMBLE)
    ensures frame[k + 3] == PN532TOHOST && frame[k + n + 5] == POSTAMBLE ==>
      Decode(frame, cap, past) == if n > cap then Err(ERR_LONG_RESPONSE) else Ok(frame[k + 4..k + n + 4])
  {
    DecodeAt(frame, cap, past, k);
    assert frame[k + 3..k + 3 + frame[k + 1] + 1] == frame[k + 3..k + n + 5];
  }

  /** A start code in the second-to-last byte makes the source read past the
      buffer; whatever that byte is, the frame is rejected. */
  lemma DecodeOverrunFails(frame: seq<byte>, cap: nat, past: byte)
    requires |frame| == cap + 8 <= 255
    requires FirstNonZero(frame, 0) == |frame| - 2 && frame[|frame| - 2] == STARTCODE2
    ensures Decode(frame, cap, past).Err?
    ensures frame[|frame| - 1] != 0 ==>
      Decode(frame, cap, past).code in
        {ERR_BAD_LENGTH_CHECKSUM, ERR_LONG_RESPONSE, ERR_BAD_DATA_CHECKSUM, ERR_BAD_TFI}
  {
    var k := |frame| - 2;
    var len := frame[k + 1];
    if len != 0 && (len + past) % 256 == 0 && k + 3 == 256 {
      // offset wraps to 0, and frame[..k] are zeros
      assert frame[0] == 0;
    }
  }

  /** What the decoder accepts never depends on the byte past the buffer. */
  lemma DecodeIgnoresPast(frame: seq<byte>, cap: nat, p1: byte, p2: byte)
    requires |frame| == cap + 8 <= 255
    ensures Decode(frame, cap, p1).Ok? <==> Decode(frame, cap, p2).Ok?
    ensures Decode(frame, cap, p1).Ok? ==> Decode(frame, cap, p1) == Decode(frame, cap, p2)
  {
    var k := FirstNonZero(frame, 0);
    if k == |frame| - 2 && frame[k] == STARTCODE2 {
      DecodeOverrunFails(frame, cap, p1);
      DecodeOverrunFails(frame, cap, p2);
    }
  }

  /** Where the fields of a packet preceded by `k` zero bytes sit. */
  lemma PacketFields(frame: seq<byte>, k: nat, tfi: byte, data: seq<byte>, tail: seq<byte>)
    requires |data| <= 247
    requires frame == Zeros(k) + Packet(tfi, data) + tail
    ensures forall i :: 0 <= i < k ==> frame[i] == 0
    ensures frame[k] == STARTCODE2 && frame[k + 1] == |data| + 1
    ensures frame[k + 2] == Checksum(|data| + 1)
    ensures frame[k + 3..k + |data| + 5] == Body(tfi, data)
    ensures frame[k + 3] == tfi && frame[k + 4..k + |data| + 4] == data
    ensures frame[k + |data| + 5] == POSTAMBLE
    ensures Sum(frame[k + 3..k + |data| + 5]) % 256 == 0
    ensures (frame[k + 1] as int + frame[k + 2]) % 256 == 0
  {
    var n := |data|;
    assert frame[k..k + n + 6] == Packet(tfi, data);
    assert frame[k + 3..k + n + 5] == Packet(tfi, data)[3..n + 5];
    BodySum(tfi, data);
    BodyData(tfi, data);
    assert frame[k + 4..k + n + 4] == frame[k + 3..k + n + 5][1..n + 1];
    ChecksumCancels(n + 1);
    assert frame[k + 1] as int + frame[k + 2] == n + 1 + Checksum(n + 1);
  }

  /** The data sits between the identifier and the checksum. */
  lemma BodyData(tfi: byte, data: seq<byte>)
    ensures Body(tfi, data)[1..|data| + 1] == data
  {
    assert ([tfi] + data + [DataChecksum(tfi, data)])[1..|data| + 1] == data;
  }

  /** Round trip: a response packet after any number of zero bytes (none
      included), followed by anything, decodes to its data when the data fits
      the caller's capacity, and is a long response when it does not. */
  lemma DecodePacket(frame: seq<byte>, cap: nat, past: byte, k: nat, data: seq<byte>, tail: seq<byte>)
    requires |data| <= 247
    requires frame == Zeros(k) + Packet(PN532TOHOST, data) + tail
    requires |frame| == cap + 8 <= 255
    ensures Decode(frame, cap, past) == if |data| <= cap then Ok(data) else Err(ERR_LONG_RESPONSE)
  {
    PacketFields(frame, k, PN532TOHOST, data, tail);
    DecodeChecked(frame, cap, past, k, |data|);
  }

  /** The round trip for a whole encoder-shaped response frame (preamble included). */
  lemma DecodeResponseFrame(frame: seq<byte>, cap: nat, past: byte, k: nat, data: seq<byte>, tail: seq<byte>)
    requires |data| <= 247
    requires frame == Zeros(k) + ResponseFrame(data) + tail
    requires |frame| == cap + 8 <= 255
    ensures Decode(frame, cap, past) == Ok(data)
  {
    assert frame == Zeros(k + 2) + Packet(PN532TOHOST, data) + tail;
    DecodePacket(frame, cap, past, k + 2, data, tail);
  }

  /** The host's own frame read back is refused: its identifier is not PN532-to-host. */
  lemma DecodeRejectsHostFrame(frame: seq<byte>, cap: nat, past: byte, k: nat, data: seq<byte>, tail: seq<byte>)
    requires |data| <= 247
    requires frame == Zeros(k) + Encode(data) + tail
    requires |frame| == cap + 8 <= 255
    ensures Decode(frame, cap, past) == Err(ERR_BAD_TFI)
  {
    assert frame == Zeros(k + 2) + Packet(HOSTTOPN532, data) + tail;
    PacketFields(frame, k + 2, HOSTTOPN532, data, tail);
    DecodeChecked(frame, cap, past, k + 2, |data|);
  }

  /** What DecodeBody accepts is a checksummed region with the PN532-to-host identifier. */
  lemma DecodeBodySound(frame: seq<byte>, cap: nat, offset: nat, len: byte)
    requires |frame| == cap + 8 <= 255 && len != 0
    requires DecodeBody(frame, cap, offset, len).Ok?
    ensures var data := DecodeBody(frame, cap, offset, len).value;
      && |data| + 1 == len
      && offset + len + 2 <= |frame|
      && frame[offset..offset + len + 1] == Body(PN532TOHOST, data)
      && frame[offset + len + 1] == POSTAMBLE
  {
    var data := frame[offset + 1..offset + len];
    assert DecodeBody(frame, cap, offset, len) == Ok(data);
    var region := frame[offset..offset + len + 1];
    assert region == [PN532TOHOST] + data + [frame[offset + len]];
    RegionIsBody(region, PN532TOHOST, data, frame[offset + len]);
  }

  /** A region `tfi data… dcs` whose sum is 0 modulo 256 carries the data
      checksum of `tfi` and the data. */
  lemma RegionIsBody(region: seq<byte>, tfi: byte, data: seq<byte>, dcs: byte)
    requires region == [tfi] + data + [dcs] && Sum(region) % 256 == 0
    ensures region == Body(tfi, data)
  {
    SumAppend([tfi] + data, [dcs]);
    SumAppend([tfi], data);
    assert Sum([tfi]) == tfi by { assert [tfi][..0] == []; }
    assert Sum([dcs]) == dcs by { assert [dcs][..0] == []; }
    ChecksumUnique(tfi + Sum(data), dcs);
  }

  /** Soundness: an accepted frame is zero bytes followed by a well-formed response packet. */
  lemma DecodeSound(frame: seq<byte>, cap: nat, past: byte)
    requires |frame| == cap + 8 <= 255
    requires Decode(frame, cap, past).Ok?
    ensures var data := Decode(frame, cap, past).value;
      var k := FirstNonZero(frame, 0);
      && |data| <= cap
      && k + |data| + 6 <= |frame|
      && frame[..k] == Zeros(k)
      && frame[k..k + |data| + 6] == Packet(PN532TOHOST, data)
  {
    var data := Decode(frame, cap, past).value;
    var k := FirstNonZero(frame, 0);
    DecodeAccepted(frame, cap, past);
    DecodeBodySound(frame, cap, k + 3, frame[k + 1]);
    PacketAt(frame, k, PN532TOHOST, data);
  }

  /** An accepted frame has a start code, a non-zero length and its
      checksum inside the buffer, and the rest is up to DecodeBody. */
  lemma DecodeAccepted(frame: seq<byte>, cap: nat, past: byte)
    requires |frame| == cap + 8 <= 255
    requires Decode(frame, cap, past).Ok?
    ensures var k := FirstNonZero(frame, 0);
      && k + 3 <= |frame| && frame[k] == STARTCODE2 && frame[k + 1] != 0
      && (frame[k + 1] as int + frame[k + 2]) % 256 == 0
      && DecodeBody(frame, cap, k + 3, frame[k + 1]) == Decode(frame, cap, past)
  {
    var k := FirstNonZero(frame, 0);
    if k == |frame| - 2 {
      DecodeOverrunFails(frame, cap, past);
    }
  }

  /** The fields of a packet at index `k` of `frame`, with the length
      checksum as the decoder checks it, make up that packet. */
  lemma PacketAt(frame: seq<byte>, k: nat, tfi: byte, data: seq<byte>)
    requires |data| <= 247 && k + |data| + 6 <= |frame|
    requires frame[k] == STARTCODE2 && frame[k + 1] == |data| + 1
    requires (frame[k + 1] as int + frame[k + 2]) % 256 == 0
    requires frame[k + 3..k + |data| + 5] == Body(tfi, data)
    requires frame[k + |data| + 5] == POSTAMBLE
    ensures frame[k..k + |data| + 6] == Packet(tfi, data)
  {
    ChecksumUnique(frame[k + 1], frame[k + 2]);
    var n := |data|;
    assert frame[k..k + n + 6] ==
      [frame[k], frame[k + 1], frame[k + 2]] + frame[k + 3..k + n + 5] + [frame[k + n + 5]];
  }

  /** The sum of a sequence with one byte replaced. */
  lemma {:induction false} SumUpdate(s: seq<byte>, j: nat, b: byte)
    requires j < |s|
    ensures Sum(s[j := b]) == Sum(s) - s[j] + b
    decreases |s|
  {
    var t := s[j := b];
    if j < |s| - 1 {
      assert t[..|t| - 1] == s[..|s| - 1][j := b];
      SumUpdate(s[..|s| - 1], j, b);
    } else {
      assert t[..|t| - 1] == s[..|s| - 1];
    }
  }

  /** Corrupting any one byte of a well-formed response packet is caught, with
      the error of the field it lands in. */
  lemma DecodeDetectsCorruption(frame: seq<byte>, cap: nat, past: byte, k: nat,
                                data: seq<byte>, tail: seq<byte>, j: nat, b: byte)
    requires |data| <= 247
    requires frame == Zeros(k) + Packet(PN532TOHOST, data) + tail
    requires |frame| == cap + 8 <= 255
    requires k <= j < k + |data| + 6 && b != frame[j]
    ensures j == k ==> Decode(frame[j := b], cap, past) == Err(ERR_BAD_PACKET_START)
    ensures j == k + 1 ==>
      Decode(frame[j := b], cap, past) ==
        Err(if b == 0 then ERR_EMPTY_RESPONSE else ERR_BAD_LENGTH_CHECKSUM)
    ensures j == k + 2 ==> Decode(frame[j := b], cap, past) == Err(ERR_BAD_LENGTH_CHECKSUM)
    ensures k + 3 <= j < k + |data| + 5 ==>
      Decode(frame[j := b], cap, past) == Err(ERR_BAD_DATA_CHECKSUM)
    ensures j == k + |data| + 5 ==> Decode(frame[j := b], cap, past) == Err(ERR_BAD_POSTAMBLE)
  {
    PacketFields(frame, k, PN532TOHOST, data, tail);
    ChecksumCancels(|data| + 1);
    if j == k {
      CorruptStart(frame, cap, past, k, |data|, b);
    } else if j < k + 3 {
      CorruptLength(frame, cap, past, k, j, b);
    } else if j < k + |data| + 5 {
      CorruptBody(frame, cap, past, k, |data|, j, b);
    } else {
      CorruptPostamble(frame, cap, past, k, |data|, j, b);
    }
  }

  lemma CorruptLength(frame: seq<byte>, cap: nat, past: byte, k: nat, j: nat, b: byte)
    requires |frame| == cap + 8 <= 255 && k + 3 <= |frame|
    requires forall i :: 0 <= i < k ==> frame[i] == 0
    requires frame[k] == STARTCODE2 && frame[k + 1] != 0
    requires (frame[k + 1] as int + frame[k + 2]) % 256 == 0
    requires (j == k + 1 || j == k + 2) && b != frame[j]
    ensures Decode(frame[j := b], cap, past) ==
      Err(if j == k + 1 && b == 0 then ERR_EMPTY_RESPONSE else ERR_BAD_LENGTH_CHECKSUM)
  {
    DecodeHeaderOrder(frame[j := b], cap, past, k);
  }

  lemma CorruptPostamble(frame: seq<byte>, cap: nat, past: byte, k: nat, n: nat, j: nat, b: byte)
    requires |frame| == cap + 8 <= 255 && k + n + 6 <= |frame|
    requires forall i :: 0 <= i < k ==> frame[i] == 0
    requires frame[k] == STARTCODE2 && frame[k + 1] == n + 1 && frame[k + 2] == Checksum(n + 1)
    requires Sum(frame[k + 3..k + n + 5]) % 256 == 0 && frame[k + 3] == PN532TOHOST
    requires j == k + n + 5 && frame[j] == POSTAMBLE && b != frame[j]
    ensures Decode(frame[j := b], cap, past) == Err(ERR_BAD_POSTAMBLE)
  {
    var g := frame[j := b];
    assert g[k + 3..k + n + 5] == frame[k + 3..k + n + 5];
    DecodeBodyOrder(g, cap, past, k);
  }

  lemma CorruptStart(frame: seq<byte>, cap: nat, past: byte, k: nat, n: nat, b: byte)
    requires |frame| == cap + 8 <= 255 && k + n + 6 <= |frame| && n <= 247
    requires forall i :: 0 <= i < k ==> frame[i] == 0
    requires frame[k] == STARTCODE2 && frame[k + 1] == n + 1 && b != STARTCODE2
    ensures Decode(frame[k := b], cap, past) == Err(ERR_BAD_PACKET_START)
  {
    var g := frame[k := b];
    if b == 0 {
      FirstNonZeroAt(g, k + 1);
    } else {
      FirstNonZeroAt(g, k);
    }
  }

  lemma CorruptBody(frame: seq<byte>, cap: nat, past: byte, k: nat, n: nat, j: nat, b: byte)
    requires |frame| == cap + 8 <= 255 && k + n + 6 <= |frame|
    requires forall i :: 0 <= i < k ==> frame[i] == 0
    requires frame[k] == STARTCODE2 && frame[k + 1] == n + 1 && frame[k + 2] == Checksum(n + 1)
    requires Sum(frame[k + 3..k + n + 5]) % 256 == 0
    requires k + 3 <= j < k + n + 5 && b != frame[j]
    ensures Decode(frame[j := b], cap, past) == Err(ERR_BAD_DATA_CHECKSUM)
  {
    var g := frame[j := b];
    BodyBroken(frame, k, n, j, b, g);
    DecodeBadDataChecksum(g, cap, past, k, n);
  }

  /** What a byte changed inside the checksummed region leaves of a sound
      header, and what it does to the checksum. */
  lemma BodyBroken(frame: seq<byte>, k: nat, n: nat, j: nat, b: byte, g: seq<byte>)
    requires k + n + 6 <= |frame|
    requires forall i :: 0 <= i < k ==> frame[i] == 0
    requires frame[k] == STARTCODE2 && frame[k + 1] == n + 1 && frame[k + 2] == Checksum(n + 1)
    requires Sum(frame[k + 3..k + n + 5]) % 256 == 0
    requires k + 3 <= j < k + n + 5 && b != frame[j]
    requires g == frame[j := b]
    ensures |g| == |frame|
    ensures forall i :: 0 <= i < k ==> g[i] == 0
    ensures g[k] == STARTCODE2 && g[k + 1] == n + 1
    ensures (g[k + 1] as int + g[k + 2]) % 256 == 0
    ensures Sum(g[k + 3..k + n + 5]) % 256 != 0
  {
    ChecksumCancels(n + 1);
    var s := frame[k + 3..k + n + 5];
    assert g[k + 3..k + n + 5] == s[j - (k + 3) := b];
    SumUpdate(s, j - (k + 3), b);
    SumChanged(Sum(s), frame[j], b);
  }

  /** A sound header followed by a region whose sum is not 0 mod 256. */
  lemma DecodeBadDataChecksum(frame: seq<byte>, cap: nat, past: byte, k: nat, n: nat)
    requires |frame| == cap + 8 <= 255 && k + n + 6 <= |frame|
    requires forall i :: 0 <= i < k ==> frame[i] == 0
    requires frame[k] == STARTCODE2 && frame[k + 1] == n + 1
    requires (frame[k + 1] as int + frame[k + 2]) % 256 == 0
    requires Sum(frame[k + 3..k + n + 5]) % 256 != 0
    ensures Decode(frame, cap, past) == Err(ERR_BAD_DATA_CHECKSUM)
  {
    DecodeAt(frame, cap, past, k);
    assert frame[k + 3..k + 3 + frame[k + 1] + 1] == frame[k + 3..k + n + 5];
  }

  /** Replacing one byte of a sequence whose sum is 0 mod 256 by a different
      byte makes the sum nonzero mod 256. */
  lemma SumChanged(sum: int, a: byte, b: byte)
    requires sum % 256 == 0 && a != b
    ensures (sum - a + b) % 256 != 0
  {
  }
}
