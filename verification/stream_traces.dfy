/**
  Properties of a stream over many calls: the reader receives exactly the
  bytes the frames carried, in arrival order, and the frames a writer's
  successful sends produce tile the stream without gaps or overlaps.
*/
module StreamTraces {
  import opened Common
  import opened QuicStream

  /** One call on a stream: a frame arriving from the session, or a `Read` into a buffer. */
  datatype Op = Add(frame: StreamFrame) | ReadInto(buf: seq<byte>)

  /** The frames the operations add, in order. */
  function Added(ops: seq<Op>): seq<StreamFrame> {
    if |ops| == 0 then []
    else (if ops[0].Add? then [ops[0].frame] else []) + Added(ops[1..])
  }

  /** The data an operation brings into the stream. */
  function Brought(op: Op): seq<byte> {
    if op.Add? then op.frame.data else []
  }

  /**
    Applies one operation and returns the bytes it copied out.  A read that
    would block delivers nothing and leaves the stream in the state at the
    blocking point; the caller may read again later.  What the stream held
    plus what the operation brought is what it delivered plus what remains.
  */
  function Apply(s: Stream, op: Op): (r: (Stream, seq<byte>))
    requires CursorInBounds(s)
    ensures CursorInBounds(r.0)
    ensures Valid(s) ==> Valid(r.0)
    ensures Pending(s) + Brought(op) == r.1 + Pending(r.0)
  {
    match op
    case Add(f) => (AddStreamFrame(s, f), [])
    case ReadInto(buf) =>
      var r := Read(s, buf);
      ReadSplitsPending(s, buf);
      if r.Blocked? then (r.s, []) else (r.s, r.p[..r.n])
  }

  /** A read splits the pending bytes into the ones it copied out and the ones it left. */
  lemma ReadSplitsPending(s: Stream, p: seq<byte>)
    requires CursorInBounds(s)
    ensures var r := Read(s, p);
      && (r.Blocked? ==> Pending(s) == [] && Pending(r.s) == [])
      && (r.Done? ==> Pending(s) == r.p[..r.n] + Pending(r.s))
  {
    var r := Read(s, p);
    if r.Done? {
      SplitAt(Pending(s), r.n, r.p[..r.n], Pending(r.s));
    }
  }

  lemma SplitAt<T>(x: seq<T>, n: nat, a: seq<T>, b: seq<T>)
    requires n <= |x| && a == x[..n] && b == x[n..]
    ensures x == a + b
  {
  }

  /**
    Applies the operations in turn and collects the bytes the reads copied
    out.  Nothing is lost, duplicated or reordered: what was pending plus what
    arrived equals what the reads delivered plus what is still pending.
  */
  function Replay(s: Stream, ops: seq<Op>): (r: (Stream, seq<byte>))
    requires CursorInBounds(s)
    ensures CursorInBounds(r.0)
    ensures Valid(s) ==> Valid(r.0)
    ensures Pending(s) + FrameData(Added(ops)) == r.1 + Pending(r.0)
    decreases |ops|
  {
    if |ops| == 0 then (s, [])
    else
      var (s1, out1) := Apply(s, ops[0]);
      var (s2, out2) := Replay(s1, ops[1..]);
      AddedCons(ops);
      Regroup(Pending(s), Brought(ops[0]), FrameData(Added(ops[1..])), out1, Pending(s1), out2, Pending(s2));
      (s2, out1 + out2)
  }

  /** If a + b splits as o1 + p1 and p1 + c as o2 + p2, then a + b + c splits as o1 + o2 + p2. */
  lemma Regroup<T>(a: seq<T>, b: seq<T>, c: seq<T>, o1: seq<T>, p1: seq<T>, o2: seq<T>, p2: seq<T>)
    requires a + b == o1 + p1 && p1 + c == o2 + p2
    ensures a + (b + c) == (o1 + o2) + p2
  {
    calc {
      a + (b + c);
      (a + b) + c;
      (o1 + p1) + c;
      o1 + (p1 + c);
      o1 + (o2 + p2);
    }
  }

  /** The data of the frames added is what the first operation brought, then the data of the rest. */
  lemma AddedCons(ops: seq<Op>)
    requires |ops| > 0
    ensures FrameData(Added(ops)) == Brought(ops[0]) + FrameData(Added(ops[1..]))
  {
    if ops[0].Add? {
      var fs := [ops[0].frame] + Added(ops[1..]);
      assert fs[1..] == Added(ops[1..]);
    } else {
      assert Added(ops) == Added(ops[1..]);
    }
  }

  /** From a fresh stream, the reads deliver a prefix of the data of the frames added, in arrival order. */
  lemma DeliveredIsPrefix(streamId: nat, ops: seq<Op>)
    ensures var delivered := Replay(NewStream(streamId), ops).1;
      |delivered| <= |FrameData(Added(ops))| && delivered == FrameData(Added(ops))[..|delivered|]
  {
    var s := NewStream(streamId);
    var (s', delivered) := Replay(s, ops);
    assert FrameData(Added(ops)) == delivered + Pending(s');
    assert (delivered + Pending(s'))[..|delivered|] == delivered;
  }

  /** Writes each payload in turn with the send outcome the session reports; collects the frames it accepted. */
  function WriteAll(s: Stream, writes: seq<(seq<byte>, SendOutcome)>): (r: (Stream, seq<StreamFrame>))
    decreases |writes|
  {
    if |writes| == 0 then (s, [])
    else
      var w := Write(s, writes[0].0, writes[0].1);
      var (s', accepted) := WriteAll(w.s, writes[1..]);
      (s', (if writes[0].1.Sent? then [w.sent] else []) + accepted)
  }

  /** Each frame starts at `base` plus the length of the data of the frames before it. */
  ghost predicate Tiled(base: nat, fs: seq<StreamFrame>) {
    forall i :: 0 <= i < |fs| ==> fs[i].offset == base + |FrameData(fs[..i])|
  }

  lemma TiledCons(base: nat, f: StreamFrame, fs: seq<StreamFrame>)
    requires f.offset == base && Tiled(base + |f.data|, fs)
    ensures Tiled(base, [f] + fs)
  {
    var gs := [f] + fs;
    forall i | 0 <= i < |gs|
      ensures gs[i].offset == base + |FrameData(gs[..i])|
    {
      if i > 0 {
        assert gs[..i] == [f] + fs[..i - 1];
        assert gs[..i][1..] == fs[..i - 1];
        assert FrameData(gs[..i]) == f.data + FrameData(fs[..i - 1]);
      }
    }
  }

  /**
    Until the 64-bit offset wraps, the accepted frames carry consecutive
    offsets: each starts where the data of the ones before it ends, and the
    write offset ends just past all of them, where `Close` puts its FIN.
    Nothing but the write offset changes, and no accepted frame has FIN set.
  */
  lemma {:induction false} WriteAllContiguous(s: Stream, writes: seq<(seq<byte>, SendOutcome)>)
    requires s.writeOffset + |FrameData(WriteAll(s, writes).1)| < TwoTo64
    ensures var (s', accepted) := WriteAll(s, writes);
      && s'.writeOffset == s.writeOffset + |FrameData(accepted)|
      && s'.(writeOffset := s.writeOffset) == s
      && Tiled(s.writeOffset, accepted)
      && forall i :: 0 <= i < |accepted| ==> accepted[i].streamId == s.streamId && !accepted[i].finBit
    decreases |writes|
  {
    if |writes| > 0 {
      var (payload, outcome) := writes[0];
      var w := Write(s, payload, outcome);
      var (s', rest) := WriteAll(w.s, writes[1..]);
      var accepted := WriteAll(s, writes).1;
      if outcome.Sent? {
        assert accepted == [w.sent] + rest;
        assert ([w.sent] + rest)[1..] == rest;
        assert FrameData(accepted) == payload + FrameData(rest);
        WriteAllContiguous(w.s, writes[1..]);
        TiledCons(s.writeOffset, w.sent, rest);
      } else {
        assert accepted == rest;
        WriteAllContiguous(w.s, writes[1..]);
      }
    }
  }

  /** A `Close` after a run of writes puts its FIN right after the last accepted byte, and carries no data. */
  lemma FinMarksEnd(s: Stream, writes: seq<(seq<byte>, SendOutcome)>, outcome: SendOutcome)
    requires s.writeOffset + |FrameData(WriteAll(s, writes).1)| < TwoTo64
    ensures var (s', accepted) := WriteAll(s, writes);
      var fin := Close(s', outcome).sent;
      && fin.offset == s.writeOffset + |FrameData(accepted)|
      && fin.finBit && fin.data == [] && fin.streamId == s.streamId
  {
    WriteAllContiguous(s, writes);
  }
}
