# QUIC STOP_SENDING codec and stream accounting, in Dafny

This project models two small parts of a Go QUIC library (quic-go) and proves
properties about them.

- **The STOP_SENDING frame codec** (`internal/wire/stop_sending_frame.go`).
  A frame is the type byte `0x0c`, then the stream ID as a QUIC
  variable-length integer, then a fixed two-byte big-endian error code.
  The two-byte error code is how this draft-era code works; section 19.5 of
  RFC 9000 later made it a variable-length integer, and the model follows
  the code. The helpers the codec calls are defined in `internal/utils`,
  outside the two files modelled: `utils.ReadVarInt`, `utils.WriteVarInt`,
  `utils.VarIntLen` and `utils.BigEndian.ReadUint16`/`WriteUint16`. They are
  modelled as pure functions following section 16 of RFC 9000. The two high bits of the
  first byte select a length of 1, 2, 4 or 8 bytes. The encoder picks the
  shortest length, and the decoder accepts every length.
- **A stream's read and write accounting** (`stream.go`). `Read` drains a
  FIFO of received stream frames into the caller's buffer. It uses a
  "current frame + position in frame" cursor. `Write` and `Close` stamp
  outgoing frames with a running write offset. `Read` concatenates frame
  data in arrival order. It ignores each frame's offset and FIN bit, so
  there is no reassembly and no end-of-stream report.

Modules:

- `Common` (`common.dfy`): bytes, `uint64`, `Option`, and `Result` with `EOF`.
- `ByteOrder` (`byte_order.dfy`): big-endian integers.
- `VarInt` (`varint.dfy`): variable-length integers.
- `StopSending` (`stop_sending_frame.dfy`): the frame codec.
- `QuicStream` (`stream.dfy`): the stream state and its operations.
- `StreamTraces` (`stream_traces.dfy`): properties over sequences of calls.

Modelling choices:

- The Go `bytes.Reader` is the sequence of unread bytes. A parse returns the
  frame together with the bytes it left unread.
- A `bytes.Buffer` is the sequence written so far. `Write` returns it with
  the frame appended.
- The frame channel is a sequence of frames, `Stream.queue`.
- A blocking receive on an empty channel is the outcome `Blocked`. It
  carries the stream as it stood at the blocking point, after any
  empty-data frames had been drained.
- `Session.SendFrames` and `Session.SendFrame` become a `SendOutcome`
  argument, either `Sent` or `SendFailed(reason)`. The frame handed to the
  session is returned with the result.
- Go mutates the caller's buffer in place. `Read` returns the buffer after
  the copy.
- `WriteOffset` is a Go `uint64`, so adding to it wraps modulo 2^64.
- Stream state is valid when a current frame always has unread bytes left
  (`QuicStream.Valid`). `NewStream` establishes it and every operation
  keeps it. `Read` itself demands only `CursorInBounds`: the read position
  is not past the end of the current frame, which is what Go needs to
  slice there without panicking.
- Where `ReadPosInFrame` has no current frame, it holds a stale value, as in
  Go.

## Model

| member | source | states |
|---|---|---|
| `ByteOrder.ReadUint16` | internal/wire/stop_sending_frame.go:27-30 | Reading the error code succeeds exactly when two bytes remain. It yields a value below 2^16 whose high and low bytes are the first and second input bytes, and it leaves the rest unread. |
| `ByteOrder.WriteUint16` | internal/wire/stop_sending_frame.go:46 | The error code is written as two bytes, most significant first, that together spell the value. |
| `ByteOrder.Uint16RoundTrip` | internal/wire/stop_sending_frame.go:27-46 | Reading back a written 16-bit code yields the code and leaves what follows untouched. |
| `ByteOrder.DecodeEncodeBE` | internal/wire/stop_sending_frame.go:23-45 | The big-endian body of a variable-length integer decodes back to the value encoded. |
| `ByteOrder.EncodeDecodeBE` | internal/wire/stop_sending_frame.go:23-45 | A big-endian byte string is determined by its value and its width. |
| `VarInt.VarIntLen` | internal/wire/stop_sending_frame.go:40 | The stream-ID length is 1, 2, 4 or 8 bytes. It is the shortest of these whose capacity, 2^(8n-2), holds the value. |
| `VarInt.EncodeWithLength` | internal/wire/stop_sending_frame.go:23-26 | An encoding in any legal length has that many bytes, and its first byte announces that length. |
| `VarInt.WriteVarInt` | internal/wire/stop_sending_frame.go:45 | The stream ID is written in exactly `VarIntLen` bytes. |
| `VarInt.ReadVarInt` | internal/wire/stop_sending_frame.go:23-26 | Reading the stream ID succeeds exactly when the input holds the full length its first byte announces. The value is at most 2^62 - 1, and exactly that many bytes are consumed. |
| `VarInt.ReadEncodeWithLength` | internal/wire/stop_sending_frame.go:23-26 | The decoder accepts every legal length, minimal or not, and returns the encoded value and the rest. |
| `VarInt.ReadWriteVarInt` | internal/wire/stop_sending_frame.go:23-45 | Reading back a written stream ID returns it and leaves what follows. |
| `VarInt.ReadVarIntExact` | internal/wire/stop_sending_frame.go:23-26 | Any successful read consumed exactly an encoding of the returned value, in the length announced by the first byte. |
| `StopSending.ParseStopSendingFrame` | internal/wire/stop_sending_frame.go:18-36 | Parsing succeeds exactly when the input holds a type byte, the whole stream ID and two error-code bytes. It leaves exactly the bytes after those unread. The parsed stream ID is below 2^62 and the error code below 2^16. |
| `StopSending.MinLength` | internal/wire/stop_sending_frame.go:39-41 | The predicted frame length is between 4 and 11 bytes. |
| `StopSending.Write` | internal/wire/stop_sending_frame.go:43-48 | The buffer keeps its old contents and gains exactly `MinLength` bytes: `0x0c`, the minimal stream-ID encoding, then the low 16 bits of the error code, big-endian. |
| `StopSending.ParseWrite` | internal/wire/stop_sending_frame.go:18-48 | Parsing what `Write` appended, under any version, gives back the frame with its error code cut to 16 bits. It leaves any following bytes unread. |
| `StopSending.RoundTrip` | internal/wire/stop_sending_frame.go:18-48 | A frame with stream ID below 2^62 and error code below 2^16 survives a write and a parse unchanged. |
| `StopSending.ParseExact` | internal/wire/stop_sending_frame.go:18-36 | A successful parse consumed some type byte, a legal-length encoding of the stream ID, and the two bytes of the error code, and nothing more. |
| `StopSending.ParseTruncated` | internal/wire/stop_sending_frame.go:19-30 | Input of at most one byte (no stream ID at all), a cut-off stream ID, or fewer than two error-code bytes each yield EOF and no frame. |
| `StopSending.ParseIgnoresTypeByte` | internal/wire/stop_sending_frame.go:19-21 | The parse result does not depend on the value of the first byte. |
| `StopSending.VersionIgnored` | internal/wire/stop_sending_frame.go:18-47 | The version argument changes neither `MinLength`, `Write` nor the parse. |
| `QuicStream.NewStream` | stream.go:20-26 | A new stream has an empty queue and no current frame, so it is valid with nothing pending to read. It writes from offset 0. |
| `QuicStream.AddStreamFrame` | stream.go:93-96 | A received frame joins the tail of the queue, and its data becomes the last pending bytes. Nothing else changes and validity is kept. |
| `QuicStream.ReadStepAdvances` | stream.go:42-50 | One pass of the read loop copies exactly the next pending bytes. It removes them from the stream and leaves the cursor valid. |
| `QuicStream.ReadLoop` | stream.go:30-53 | The loop, from any number of bytes already copied, blocks exactly when it has copied nothing and nothing is pending. Otherwise it copies the next pending bytes, as many as fit, after the ones already copied. It removes them from the stream, and a short count means queue and current frame are empty. |
| `QuicStream.Read` | stream.go:29-54 | `Read` returns `n = min(len(p), pending)` and never an error. `p[0:n]` is the next `n` pending bytes, in order, and the rest of `p` is untouched. A short read has `n > 0` with the stream drained. It blocks exactly when `p` is non-empty and nothing is pending. The cursor stays valid and the write offset is unchanged. |
| `QuicStream.ReadByte` | stream.go:57-68 | The panic on a short read is unreachable. `ReadByte` blocks exactly when nothing is pending, and otherwise returns the next pending byte and consumes it. A blocked call leaves the stream valid and drained. Stream ID and write offset never change. |
| `QuicStream.Write` | stream.go:70-82 | The frame handed to the session carries the payload at the old write offset, without FIN. On success `Write` reports `len(p)` and advances the offset by `len(p)`, modulo 2^64. On failure it reports 0, returns the session's error and leaves the stream as it was. |
| `QuicStream.Close` | stream.go:84-90 | `Close` hands the session an empty frame with FIN set at the current write offset. On failure it returns exactly the session's error, and on success none. The stream is unchanged. |
| `StreamTraces.Apply` | stream.go:29-96 | For one `AddStreamFrame` or `Read`, the pending bytes plus the frame's data equal what the read copied out plus what is still pending. |
| `StreamTraces.ReadSplitsPending` | stream.go:29-54 | A read splits the pending bytes into the ones it copied out followed by the ones it left. |
| `StreamTraces.Replay` | stream.go:29-96 | Over any sequence of frame arrivals and reads, nothing is lost, duplicated or reordered. The pending bytes plus all arriving data equal everything delivered plus what remains. |
| `StreamTraces.DeliveredIsPrefix` | stream.go:20-96 | From a new stream, the bytes all reads deliver are a prefix of the concatenated data of the frames received, in arrival order. |
| `StreamTraces.WriteAllContiguous` | stream.go:70-90 | Over any run of writes with any send outcomes, until the offset wraps, the accepted frames tile the stream. Each starts where the previous one's data ends, and the write offset ends after all of them. |
| `StreamTraces.FinMarksEnd` | stream.go:70-90 | A `Close` after a run of writes puts its FIN right after the last accepted byte. |

## Left out

- Go channel concurrency and goroutine blocking: the channel is a sequence. A blocking receive is the `Blocked` outcome, and the caller reads again after more frames arrive. That gives the same result as the resumed Go call, because nothing was copied before blocking.
- The channel's capacity of 8: `AddStreamFrame` never blocks in the model. Its error result, always nil in the code, has no counterpart.
- `Session.SendFrames` / `SendFrame` network I/O: these are the `SendOutcome` argument. The frame that would be sent is returned.
- The `bytes.Reader` position after a failed parse: the model returns only `EOF`, which is all the caller uses.
- `utils.ReadVarInt` reads its bytes one at a time and fails at the first missing one. The model checks the announced length once, with the same result.
- `StopSending.Write`, `StopSending.MinLength`, `VarInt.VarIntLen`, `VarInt.WriteVarInt`: require a value of at most 2^62 - 1. Go's `utils.VarIntLen` and `utils.WriteVarInt` panic above that, and the requires stands in for the panic.
- `qerr.ErrorCode` width: error codes are opaque natural numbers. Only the 16-bit truncation on writing is modelled.
- Stream IDs are opaque natural numbers in the stream model.
- A nil frame pointer queued by `AddStreamFrame`: Go would panic when reading it. Frames are values in the model.
- Flow control, out-of-order reassembly, end-of-stream detection, RESET_STREAM handling, write-after-close errors and stream multiplexing: none of these appear in `stream.go`.
