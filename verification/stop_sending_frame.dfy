/**
  The STOP_SENDING frame codec (`internal/wire/stop_sending_frame.go`): a
  type byte 0x0c, the stream ID as a variable-length integer and a fixed
  two-byte big-endian error code.  The two-byte error code is what this
  draft-era code writes (RFC 9000 later made it a variable-length integer).
  The input is the unread part of the packet, the output the bytes
  appended to the caller's buffer.  The `version` argument is accepted
  everywhere and used nowhere.
*/
module StopSending {
  import opened Common
  import opened ByteOrder
  import opened VarInt

  /** The type byte written in front of every STOP_SENDING frame. */
  const TypeByte: byte := 0x0c

  /** Error codes are carried opaque; only their low 16 bits reach the wire. */
  const ErrorCodeLimit: nat := 0x1_0000

  datatype StopSendingFrame = StopSendingFrame(streamId: nat, errorCode: nat)

  /** A frame as it reads back after being written: the error code cut to its low 16 bits. */
  function OnWire(f: StopSendingFrame): StopSendingFrame {
    f.(errorCode := f.errorCode % ErrorCodeLimit)
  }

  /** Bytes a parse consumes: the type byte, the stream ID in the length its first byte announces, and the error code. */
  function ConsumedBy(r: seq<byte>): nat
    requires |r| >= 2
  {
    1 + LengthOf(r[1]) + 2
  }

  /**
    `ParseStopSendingFrame`: skip the type byte unread, then read the stream
    ID and the error code.  Any shortage of input is EOF and yields no frame.
  */
  function ParseStopSendingFrame(r: seq<byte>, version: nat): (res: Result<(StopSendingFrame, seq<byte>)>)
    ensures res.Ok? <==> |r| >= 2 && ConsumedBy(r) <= |r|
    ensures res.Ok? ==> res.value.1 == r[ConsumedBy(r)..]
    ensures res.Ok? ==> res.value.0.streamId <= MaxVarInt8 && res.value.0.errorCode < ErrorCodeLimit
  {
    if |r| == 0 then Err(EOF)
    else
      match ReadVarInt(r[1..])
      case Err(e) => Err(e)
      case Ok((streamId, r1)) =>
        match ReadUint16(r1)
        case Err(e) => Err(e)
        case Ok((errorCode, r2)) => Ok((StopSendingFrame(streamId, errorCode), r2))
  }

  /** `MinLength`: the number of bytes `Write` will append, between 4 and 11. */
  function MinLength(f: StopSendingFrame, version: nat): (n: nat)
    requires f.streamId <= MaxVarInt8
    ensures 4 <= n <= 11
  {
    1 + VarIntLen(f.streamId) + 2
  }

  /** `Write`: append the type byte, the minimal stream-ID encoding and the low 16 bits of the error code. */
  function Write(b: seq<byte>, f: StopSendingFrame, version: nat): (r: seq<byte>)
    requires f.streamId <= MaxVarInt8
    ensures |r| == |b| + MinLength(f, version)
    ensures r[..|b|] == b
    ensures r[|b|] == TypeByte
    ensures r[|b| + 1..|r| - 2] == WriteVarInt(f.streamId)
    ensures r[|r| - 2..] == WriteUint16(f.errorCode % ErrorCodeLimit)
  {
    b + [TypeByte] + WriteVarInt(f.streamId) + WriteUint16(f.errorCode % ErrorCodeLimit)
  }

  /** Parsing what `Write` appended gives back the frame, modulo error-code truncation, and leaves the rest unread. */
  lemma ParseWrite(f: StopSendingFrame, rest: seq<byte>, v1: nat, v2: nat)
    requires f.streamId <= MaxVarInt8
    ensures ParseStopSendingFrame(Write([], f, v1) + rest, v2) == Ok((OnWire(f), rest))
  {
    var id := WriteVarInt(f.streamId);
    var code := WriteUint16(f.errorCode % ErrorCodeLimit);
    var r := Write([], f, v1) + rest;
    assert r[1..] == id + (code + rest);
    ReadWriteVarInt(f.streamId, code + rest);
    Uint16RoundTrip(f.errorCode % ErrorCodeLimit, rest);
  }

  /** Every frame whose stream ID and error code fit the wire comes back unchanged. */
  lemma RoundTrip(f: StopSendingFrame, version: nat)
    requires f.streamId <= MaxVarInt8 && f.errorCode < ErrorCodeLimit
    ensures ParseStopSendingFrame(Write([], f, version), version) == Ok((f, []))
  {
    ParseWrite(f, [], version, version);
    assert Write([], f, version) + [] == Write([], f, version);
  }

  /**
    A successful parse consumed a type byte, the stream ID in the length its
    first byte announced (minimal or not) and the two error-code bytes.
  */
  lemma ParseExact(r: seq<byte>, version: nat)
    requires ParseStopSendingFrame(r, version).Ok?
    ensures var (f, rest) := ParseStopSendingFrame(r, version).value;
      && f.streamId < Capacity(LengthOf(r[1]))
      && f.errorCode < ErrorCodeLimit
      && r == [r[0]] + EncodeWithLength(f.streamId, LengthOf(r[1])) + WriteUint16(f.errorCode) + rest
  {
    var (f, rest) := ParseStopSendingFrame(r, version).value;
    var (id, r1) := ReadVarInt(r[1..]).value;
    ReadVarIntExact(r[1..]);
    var (code, r2) := ReadUint16(r1).value;
    assert r1 == WriteUint16(code) + r2;
    assert r == [r[0]] + r[1..];
  }

  /** Parsing fails on empty input, on a missing or truncated stream ID and on a missing error-code byte. */
  lemma ParseTruncated(r: seq<byte>, version: nat)
    requires || |r| <= 1
             || (|r| >= 2 && |r| < 1 + LengthOf(r[1]))
             || (|r| >= 2 && 1 + LengthOf(r[1]) <= |r| < ConsumedBy(r))
    ensures ParseStopSendingFrame(r, version) == Err(EOF)
  {
  }

  /** The type byte is skipped without being looked at. */
  lemma ParseIgnoresTypeByte(t1: byte, t2: byte, rest: seq<byte>, version: nat)
    ensures ParseStopSendingFrame([t1] + rest, version) == ParseStopSendingFrame([t2] + rest, version)
  {
    assert ([t1] + rest)[1..] == rest == ([t2] + rest)[1..];
  }

  /** The version argument changes nothing. */
  lemma VersionIgnored(f: StopSendingFrame, b: seq<byte>, r: seq<byte>, v1: nat, v2: nat)
    requires f.streamId <= MaxVarInt8
    ensures MinLength(f, v1) == MinLength(f, v2)
    ensures Write(b, f, v1) == Write(b, f, v2)
    ensures ParseStopSendingFrame(r, v1) == ParseStopSendingFrame(r, v2)
  {
  }
}
