/**
  A stream's read and write accounting (`stream.go`).  The frame channel is a
  FIFO queue of frames, a blocking receive on an empty channel is the
  `Blocked` outcome, and the session's send primitive is an outcome passed in
  by the caller.  Frames are read in arrival order: their offsets and FIN
  bits are not looked at, so there is no reassembly.
*/
module QuicStream {
  import opened Common

  /** A STREAM frame as the stream sees it. */
  datatype StreamFrame = StreamFrame(streamId: nat, offset: uint64, data: seq<byte>, finBit: bool)

  /**
    Stream state: the queued frames (the channel), the frame being read and
    the read position inside it, and the offset of the next byte written.
    While `current` is `None`, `readPosInFrame` holds a stale value that no
    operation looks at.
  */
  datatype Stream = Stream(
    streamId: nat,
    queue: seq<StreamFrame>,
    current: Option<StreamFrame>,
    readPosInFrame: nat,
    writeOffset: uint64)

  /** What the session's send call reported. */
  datatype SendOutcome = Sent | SendFailed(reason: nat)

  /** What `Read` did: copied `n` bytes into the buffer, now `p`, or blocked on the empty channel. */
  datatype ReadOutcome =
    | Done(n: nat, p: seq<byte>, s: Stream)
    | Blocked(s: Stream)

  /** What `ReadByte` did; `Panicked` is the source's "should have returned error" branch. */
  datatype ReadByteOutcome =
    | Byte(b: byte, s: Stream)
    | ByteBlocked(s: Stream)
    | Panicked

  /** `Write`'s result: bytes reported written, the session's error, the frame handed to the session and the new state. */
  datatype WriteResult = WriteResult(n: nat, err: Option<nat>, sent: StreamFrame, s: Stream)

  /** `Close`'s result: the session's error, the frame handed to the session and the (unchanged) state. */
  datatype CloseResult = CloseResult(err: Option<nat>, sent: StreamFrame, s: Stream)

  /** The read cursor never points past the end of the current frame; slicing there is safe. */
  predicate CursorInBounds(s: Stream) {
    s.current.Some? ==> s.readPosInFrame <= |s.current.value.data|
  }

  /** The invariant every reachable state keeps: a fully read frame is dropped at once. */
  predicate Valid(s: Stream) {
    s.current.Some? ==> s.readPosInFrame < |s.current.value.data|
  }

  /** All data of a sequence of frames, in order. */
  function FrameData(fs: seq<StreamFrame>): seq<byte> {
    if |fs| == 0 then [] else fs[0].data + FrameData(fs[1..])
  }

  lemma {:induction false} FrameDataAppend(fs: seq<StreamFrame>, gs: seq<StreamFrame>)
    ensures FrameData(fs + gs) == FrameData(fs) + FrameData(gs)
  {
    if |fs| > 0 {
      assert (fs + gs)[1..] == fs[1..] + gs;
      FrameDataAppend(fs[1..], gs);
    } else {
      assert fs + gs == gs;
    }
  }

  /** The bytes a reader has yet to receive: the rest of the current frame, then every queued frame. */
  function Pending(s: Stream): seq<byte>
    requires CursorInBounds(s)
  {
    (if s.current.Some? then s.current.value.data[s.readPosInFrame..] else []) + FrameData(s.queue)
  }

  /** `NewStream`: nothing queued, no current frame, writing from offset 0. */
  function NewStream(streamId: nat): (s: Stream)
    ensures Valid(s) && Pending(s) == []
    ensures s.queue == [] && s.current.None?
    ensures s.streamId == streamId && s.writeOffset == 0
  {
    Stream(streamId, [], None, 0, 0)
  }

  /** `AddStreamFrame`: the frame joins the tail of the queue; its data becomes the last pending bytes. */
  function AddStreamFrame(s: Stream, f: StreamFrame): (r: Stream)
    requires CursorInBounds(s)
    ensures CursorInBounds(r) && (Valid(s) ==> Valid(r))
    ensures r.queue == s.queue + [f]
    ensures Pending(r) == Pending(s) + f.data
    ensures r.(queue := s.queue) == s
  {
    FrameDataAppend(s.queue, [f]);
    assert FrameData([f]) == f.data + FrameData([]);
    s.(queue := s.queue + [f])
  }

  /**
    `p'` is `p` with positions `from` up to `n` overwritten by the first
    `n - from` bytes of `pending`, and nothing else changed.
  */
  predicate Copied(pending: seq<byte>, p: seq<byte>, from: nat, n: nat, p': seq<byte>) {
    && from <= n <= |p|
    && n - from <= |pending|
    && |p'| == |p|
    && p'[..from] == p[..from]
    && p'[from..n] == pending[..n - from]
    && p'[n..] == p[n..]
  }

  /** Copying `m` bytes and then `n - from - m` more copies `n - from` bytes. */
  lemma CopiedCompose(pending: seq<byte>, p: seq<byte>, from: nat, m: nat, p1: seq<byte>, n: nat, p': seq<byte>)
    requires from + m <= |p| && m <= |pending|
    requires p1 == p[..from] + pending[..m] + p[from + m..]
    requires Copied(pending[m..], p1, from + m, n, p')
    ensures Copied(pending, p, from, n, p')
    ensures pending[m..][n - from - m..] == pending[n - from..]
  {
    assert p'[..from] == p1[..from + m][..from];
    assert p'[from..n] == p1[from..from + m] + p'[from + m..n];
    assert p1[from..from + m] == pending[..m];
    assert pending[..n - from] == pending[..m] + pending[m..][..n - from - m];
  }

  /**
    What running `Read`'s loop from `bytesRead` copied bytes promises: it
    blocks exactly when nothing is copied yet, the buffer has room and nothing
    is pending; otherwise it copies the next pending bytes, as many as fit,
    into `p` after the ones already there, and removes them from the stream.
    A short count means the stream ran dry.
  */
  predicate ReadPost(s: Stream, p: seq<byte>, bytesRead: nat, r: ReadOutcome)
    requires bytesRead <= |p| && CursorInBounds(s)
  {
    && CursorInBounds(r.s)
    && (r.Blocked? <==> bytesRead == 0 && |p| > 0 && Pending(s) == [])
    && (r.Blocked? ==> r.s.current.None? && r.s.queue == [])
    && (r.Done? ==>
          && r.n == bytesRead + Min(|p| - bytesRead, |Pending(s)|)
          && Copied(Pending(s), p, bytesRead, r.n, r.p)
          && Pending(r.s) == Pending(s)[r.n - bytesRead..])
    && (r.Done? && r.n < |p| ==> r.s.current.None? && r.s.queue == [])
    && r.s.streamId == s.streamId && r.s.writeOffset == s.writeOffset
    && (bytesRead < |p| || Valid(s) ==> Valid(r.s))
  }

  /**
    `Read`'s loop, one pass per call, with `bytesRead` bytes already copied
    into `p`.  A pass takes the next frame when there is no current one
    (blocking if nothing is copied yet and the queue is empty, returning if
    something is), copies as much as fits, and drops the frame once it is
    used up.
  */
  function ReadLoop(s: Stream, p: seq<byte>, bytesRead: nat): (r: ReadOutcome)
    requires bytesRead <= |p|
    requires CursorInBounds(s)
    ensures ReadPost(s, p, bytesRead, r)
    decreases |p| - bytesRead, |s.queue|, if s.current.Some? then 1 else 0
  {
    if bytesRead >= |p| then
      assert Pending(s)[0..] == Pending(s);
      Done(bytesRead, p, s)
    else if s.current.None? && s.queue == [] then
      if bytesRead == 0 then Blocked(s)
      else
        assert Pending(s)[0..] == Pending(s);
        Done(bytesRead, p, s)
    else
      var s1 := if s.current.Some? then s else s.(current := Some(s.queue[0]), queue := s.queue[1..], readPosInFrame := 0);
      var f, pos := s1.current.value, s1.readPosInFrame;
      var m := Min(|p| - bytesRead, |f.data| - pos);
      var p1 := p[..bytesRead] + f.data[pos..pos + m] + p[bytesRead + m..];
      var s2 :=
        if pos + m >= |f.data| then s1.(current := None, readPosInFrame := pos + m)
        else s1.(readPosInFrame := pos + m);
      ReadStepAdvances(s, s1, s2, pos, m);
      var r := ReadLoop(s2, p1, bytesRead + m);
      ReadPostStep(s, s2, p, p1, bytesRead, m, r);
      r
  }

  /** The promise of the rest of the loop, after a pass that moved `m` bytes, is the promise of the whole loop. */
  lemma ReadPostStep(s: Stream, s2: Stream, p: seq<byte>, p1: seq<byte>, bytesRead: nat, m: nat, r: ReadOutcome)
    requires bytesRead < |p| && CursorInBounds(s) && CursorInBounds(s2) && Valid(s2)
    requires m <= |Pending(s)| && bytesRead + m <= |p|
    requires p1 == p[..bytesRead] + Pending(s)[..m] + p[bytesRead + m..]
    requires Pending(s2) == Pending(s)[m..]
    requires s2.streamId == s.streamId && s2.writeOffset == s.writeOffset
    requires ReadPost(s2, p1, bytesRead + m, r)
    ensures ReadPost(s, p, bytesRead, r)
  {
    if r.Done? {
      CopiedCompose(Pending(s), p, bytesRead, m, p1, r.n, r.p);
    }
  }

  /** One pass of the loop moves exactly the first `m` pending bytes out of the stream. */
  lemma ReadStepAdvances(s: Stream, s1: Stream, s2: Stream, pos: nat, m: nat)
    requires CursorInBounds(s) && (s.current.Some? || s.queue != [])
    requires s1 == if s.current.Some? then s else s.(current := Some(s.queue[0]), queue := s.queue[1..], readPosInFrame := 0)
    requires pos == s1.readPosInFrame && pos + m <= |s1.current.value.data|
    requires s2 ==
      if pos + m >= |s1.current.value.data| then s1.(current := None, readPosInFrame := pos + m)
      else s1.(readPosInFrame := pos + m)
    ensures CursorInBounds(s1) && CursorInBounds(s2) && Valid(s2)
    ensures m <= |Pending(s)|
    ensures s1.current.value.data[pos..pos + m] == Pending(s)[..m]
    ensures Pending(s2) == Pending(s)[m..]
  {
    var d := s1.current.value.data;
    var tail := FrameData(s1.queue);
    assert Pending(s) == d[pos..] + tail by {
      if s.current.None? {
        assert d[0..] == d;
      }
    }
    assert Pending(s2) == d[pos..][m..] + tail by {
      if pos + m >= |d| {
        assert d[pos..][m..] == [];
      }
    }
    ConcatSlices(d[pos..], tail, m);
  }

  /** Cutting `x + y` inside `x`. */
  lemma ConcatSlices<T>(x: seq<T>, y: seq<T>, m: nat)
    requires m <= |x|
    ensures (x + y)[..m] == x[..m]
    ensures (x + y)[m..] == x[m..] + y
  {
  }

  /**
    `Read`: fill `p` from the pending bytes.  It copies as many as fit or as
    are pending, in order, and never returns an error; it blocks only when
    `p` is non-empty and nothing is pending.
  */
  function Read(s: Stream, p: seq<byte>): (r: ReadOutcome)
    requires CursorInBounds(s)
    ensures CursorInBounds(r.s)
    ensures r.Blocked? <==> |p| > 0 && Pending(s) == []
    ensures r.Done? ==>
      && r.n == Min(|p|, |Pending(s)|)
      && r.p == Pending(s)[..r.n] + p[r.n..]
      && Pending(r.s) == Pending(s)[r.n..]
    ensures r.Blocked? || r.n < |p| ==> r.s.current.None? && r.s.queue == []
    ensures r.s.streamId == s.streamId && r.s.writeOffset == s.writeOffset
    ensures |p| > 0 || Valid(s) ==> Valid(r.s)
  {
    ReadLoop(s, p, 0)
  }

  /**
    `ReadByte`: a one-byte `Read`.  Since that read returns exactly one byte
    whenever it returns, the panic on a short read is unreachable.
  */
  function ReadByte(s: Stream): (r: ReadByteOutcome)
    requires CursorInBounds(s)
    ensures !r.Panicked?
    ensures r.ByteBlocked? <==> Pending(s) == []
    ensures r.Byte? ==> Valid(r.s) && CursorInBounds(r.s)
    ensures r.Byte? ==> r.b == Pending(s)[0] && Pending(r.s) == Pending(s)[1..]
    ensures r.ByteBlocked? ==> Valid(r.s) && CursorInBounds(r.s) && r.s.current.None? && r.s.queue == []
    ensures !r.Panicked? ==> r.s.streamId == s.streamId && r.s.writeOffset == s.writeOffset
  {
    match Read(s, [0])
    case Blocked(s') => ByteBlocked(s')
    case Done(n, p, s') => if n != 1 then Panicked else Byte(p[0], s')
  }

  /**
    `Write`: hand the session one frame holding `p` at the current write
    offset.  Only when the send succeeds is `len(p)` reported and the offset
    advanced (as a `uint64`, so modulo 2^64).
  */
  function Write(s: Stream, p: seq<byte>, outcome: SendOutcome): (r: WriteResult)
    ensures r.sent == StreamFrame(s.streamId, s.writeOffset, p, false)
    ensures outcome.Sent? ==> r.n == |p| && r.err.None?
    ensures outcome.Sent? ==> r.s.writeOffset == (s.writeOffset + |p|) % TwoTo64
    ensures outcome.Sent? && s.writeOffset + |p| < TwoTo64 ==> r.s.writeOffset == s.writeOffset + |p|
    ensures outcome.SendFailed? ==> r.n == 0 && r.err == Some(outcome.reason) && r.s == s
    ensures r.s.(writeOffset := s.writeOffset) == s
  {
    var frame := StreamFrame(s.streamId, s.writeOffset, p, false);
    match outcome
    case SendFailed(reason) => WriteResult(0, Some(reason), frame, s)
    case Sent => WriteResult(|p|, None, frame, s.(writeOffset := (s.writeOffset + |p|) % TwoTo64))
  }

  /** `Close`: hand the session an empty frame with the FIN bit at the current write offset; the state stays as it is. */
  function Close(s: Stream, outcome: SendOutcome): (r: CloseResult)
    ensures r.sent.streamId == s.streamId && r.sent.offset == s.writeOffset
    ensures r.sent.data == [] && r.sent.finBit
    ensures r.err.Some? <==> outcome.SendFailed?
    ensures outcome.SendFailed? ==> r.err == Some(outcome.reason)
    ensures r.s == s
  {
    var frame := StreamFrame(s.streamId, s.writeOffset, [], true);
    match outcome
    case SendFailed(reason) => CloseResult(Some(reason), frame, s)
    case Sent => CloseResult(None, frame, s)
  }
}
