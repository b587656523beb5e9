/** Outgoing SmartAudio request frames, as built by
    `serial_smart_audio_send_payload`:
    `[0x00, 0xAA, 0x55, (cmd << 1) | 1, size, payload..., crc]`. */
module Encoder {
  import opened Bytes
  import opened Crc

  const Pad: byte := 0x00
  const Sync1: byte := 0xAA
  const Sync2: byte := 0x55

  /** Largest payload whose frame length still fits the `uint8_t frame_length`
      (and so the frame array). */
  const MaxPayload: nat := 249

  /** Largest payload whose CRC length `frame_length - 2` still fits the
      `int8_t` length parameter of `crc8_data`. */
  const MaxCrcPayload: nat := 123

  /** The command byte on the wire, `(cmd << 1) | 1` stored in a byte: the
      shifted id is even, so setting the low bit adds 1. */
  function CommandByte(cmd: byte): byte {
    ((cmd as int * 2 + 1) % 256) as byte
  }

  /** The frame `send_payload` transmits. For payloads over 123 bytes the
      CRC length wraps negative in `int8_t` and the CRC byte is 0. */
  function FrameOf(cmd: byte, payload: seq<byte>): seq<byte>
    requires |payload| <= MaxPayload
  {
    var body := [Sync1, Sync2, CommandByte(cmd), |payload| as byte] + payload;
    [Pad] + body + [if |payload| <= MaxCrcPayload then Crc8Data(body) else 0]
  }

  /** The frame builder of `send_payload`, filling a frame array. */
  method EncodeFrame(cmd: byte, payload: seq<byte>) returns (frame: seq<byte>)
    requires |payload| <= MaxPayload
    ensures frame == FrameOf(cmd, payload)
  {
    var size := |payload|;
    var frameLength := (size + 1 + 5) % 256;
    var a := FillFrame(cmd, payload, frameLength);
    ghost var body := [Sync1, Sync2, CommandByte(cmd), size as byte] + payload;
    ghost var tail := a[1..];
    var crc := Crc8DataLoop(a[1..], ToInt8(frameLength - 2));
    CrcLengthCovers(tail, size);
    assert tail[..size + 4] == body;
    a[size + 5] := crc;
    assert a[1..size + 5] == body;
    frame := a[..];
    FrameFromParts(cmd, payload, frame);
  }

  /** Allocating the frame array and writing the pad, the header and the
      payload into it. */
  method FillFrame(cmd: byte, payload: seq<byte>, frameLength: int) returns (a: array<byte>)
    requires |payload| <= MaxPayload && frameLength == (|payload| + 1 + 5) % 256
    ensures fresh(a) && a.Length == |payload| + 6
    ensures a[0] == Pad
    ensures a[1..|payload| + 5] == [Sync1, Sync2, CommandByte(cmd), |payload| as byte] + payload
  {
    var size := |payload|;
    a := new byte[frameLength];
    a[0] := 0x00;
    a[1] := 0xAA;
    a[2] := 0x55;
    a[3] := ((cmd as int * 2 + 1) % 256) as byte;
    a[4] := size as byte;
    for i := 0 to size
      invariant a[0] == Pad && a[1] == Sync1 && a[2] == Sync2
      invariant a[3] == CommandByte(cmd) && a[4] == size as byte
      invariant forall k :: 0 <= k < i ==> a[k + 5] == payload[k]
    {
      a[i + 5] := payload[i];
    }
    assert a[5..size + 5] == payload;
  }

  /** The CRC length `frame_length - 2` seen as an `int8_t` covers the body
      exactly when it does not wrap. */
  lemma CrcLengthCovers(s: seq<byte>, size: nat)
    requires size <= MaxPayload && |s| == size + 5
    ensures var len := ToInt8((size + 6) % 256 - 2);
      && -128 <= len <= 127 && len <= |s|
      && (size <= MaxCrcPayload ==> len == size + 4 && s[..len] == s[..size + 4])
      && (size > MaxCrcPayload ==> len < 0)
  {
  }

  /** A sequence with the layout of a frame is that frame. */
  lemma FrameFromParts(cmd: byte, payload: seq<byte>, f: seq<byte>)
    requires |payload| <= MaxPayload
    requires |f| == |payload| + 6 && f[0] == Pad
    requires f[1..|payload| + 5] == [Sync1, Sync2, CommandByte(cmd), |payload| as byte] + payload
    requires f[|payload| + 5] == if |payload| <= MaxCrcPayload then Crc8Data(f[1..|payload| + 5]) else 0
    ensures f == FrameOf(cmd, payload)
  {
    assert f == [f[0]] + f[1..|payload| + 5] + [f[|payload| + 5]];
  }

  // ---------------------------------------------------------------------
  // Properties

  /** Byte-by-byte layout of a frame. The CRC byte covers exactly the bytes
      between the pad byte and itself. */
  lemma FrameLayout(cmd: byte, payload: seq<byte>)
    requires |payload| <= MaxPayload
    ensures var f := FrameOf(cmd, payload);
      && |f| == |payload| + 6
      && f[0] == 0x00 && f[1] == 0xAA && f[2] == 0x55
      && f[3] == CommandByte(cmd)
      && f[4] as int == |payload|
      && f[5..|payload| + 5] == payload
      && (|payload| <= MaxCrcPayload ==> f[|payload| + 5] == Crc8Data(f[1..|payload| + 5]))
      && (|payload| > MaxCrcPayload ==> f[|payload| + 5] == 0)
  {
    var f := FrameOf(cmd, payload);
    var body := [Sync1, Sync2, CommandByte(cmd), |payload| as byte] + payload;
    assert f[1..|payload| + 5] == body;
    assert f[5..|payload| + 5] == payload;
  }

  /** Everything after the pad byte, CRC byte included, checksums to 0. */
  lemma FrameChecksumsToZero(cmd: byte, payload: seq<byte>)
    requires |payload| <= MaxCrcPayload
    ensures var f := FrameOf(cmd, payload); Crc8Data(f[1..]) == 0
  {
    var f := FrameOf(cmd, payload);
    var body := [Sync1, Sync2, CommandByte(cmd), |payload| as byte] + payload;
    assert f[1..] == body + [Crc8Data(body)];
    Crc8DataWithTrailer(body);
  }

  /** The command byte is odd and carries the low seven bits of the id. */
  lemma CommandByteDecodes(cmd: byte)
    ensures CommandByte(cmd) % 2 == 1
    ensures CommandByte(cmd) / 2 == cmd % 128
  {
  }

  /** Distinct command ids below 128 give distinct command bytes. */
  lemma CommandByteInjective(a: byte, b: byte)
    requires a < 0x80 && b < 0x80
    requires CommandByte(a) == CommandByte(b)
    ensures a == b
  {
    CommandByteDecodes(a);
    CommandByteDecodes(b);
  }

  /** A request without payload. */
  lemma EmptyRequest(cmd: byte)
    ensures FrameOf(cmd, []) == [0x00, 0xAA, 0x55, CommandByte(cmd), 0x00, Crc8Data([0xAA, 0x55, CommandByte(cmd), 0x00])]
  {
    var body: seq<byte> := [Sync1, Sync2, CommandByte(cmd), 0 as byte] + [];
    assert body == [0xAA, 0x55, CommandByte(cmd), 0x00];
  }

  /** The GET_SETTINGS request (id 0x01, no payload) is `00 AA 55 03 00 9F`. */
  lemma GetSettingsRequestBytes()
    ensures FrameOf(0x01, []) == [0x00, 0xAA, 0x55, 0x03, 0x00, 0x9F]
  {
    EmptyRequest(0x01);
    assert CommandByte(0x01) == 0x03;
    Crc8DataReferenceVector();
  }
}
