/** A receiver that takes in a stream piece by piece and reads after each of them until nothing comes
    out (ae/packet.cpp). */
module PacketPieces {
  import opened NumberCodec
  import opened PacketStream
  import opened PacketChannel
  import opened PacketLoss

  /** The pieces of a stream, put together. */
  function Flatten(chunks: seq<seq<Byte>>): seq<Byte> {
    if chunks == [] then [] else chunks[0] + Flatten(chunks[1..])
  }

  /** Reads until nothing comes out. */
  function Drained(mode: DataMode, ch: Channel): Channel
    decreases |ch.buf|
  {
    var next := Next(mode, ch, Read);
    if Scan(mode, ch.buf, []).Packet? && |next.buf| < |ch.buf| then Drained(mode, next) else next
  }

  function Received(mode: DataMode, ch: Channel, chunks: seq<seq<Byte>>): Channel
    decreases |chunks|
  {
    if chunks == [] then ch
    else Received(mode, Drained(mode, Next(mode, ch, Append(chunks[0]))), chunks[1..])
  }

  /** None of the reads finds the size of an incomplete frame wrapped. */
  predicate SafeDrain(mode: DataMode, ch: Channel)
    decreases |ch.buf|
  {
    var next := Next(mode, ch, Read);
    && !Wraps(mode, ch.buf)
    && (Scan(mode, ch.buf, []).Packet? && |next.buf| < |ch.buf| ==> SafeDrain(mode, next))
  }

  predicate SafeChunks(mode: DataMode, ch: Channel, chunks: seq<seq<Byte>>)
    decreases |chunks|
  {
    chunks == [] ||
      var full := Next(mode, ch, Append(chunks[0]));
      SafeDrain(mode, full) && SafeChunks(mode, Drained(mode, full), chunks[1..])
  }

  // ---------- The receiver as a run ----------

  lemma FirstOfBoth(a: seq<Op>, b: seq<Op>)
    ensures a == [] ==> a + b == b
    ensures a != [] ==> a + b != [] && (a + b)[0] == a[0] && (a + b)[1..] == a[1..] + b
  {}

  lemma {:induction false} RunConcat(mode: DataMode, ch: Channel, a: seq<Op>, b: seq<Op>)
    ensures RunOps(mode, ch, a + b) == RunOps(mode, RunOps(mode, ch, a), b)
    decreases |a|
  {
    FirstOfBoth(a, b);
    if a != [] { RunConcat(mode, Next(mode, ch, a[0]), a[1..], b); }
  }

  lemma {:induction false} SafeConcat(mode: DataMode, ch: Channel, a: seq<Op>, b: seq<Op>)
    ensures SafeRun(mode, ch, a + b) <==> SafeRun(mode, ch, a) && SafeRun(mode, RunOps(mode, ch, a), b)
    decreases |a|
  {
    FirstOfBoth(a, b);
    if a != [] { SafeConcat(mode, Next(mode, ch, a[0]), a[1..], b); }
  }

  lemma {:induction false} ArrivedConcat(a: seq<Op>, b: seq<Op>)
    ensures Arrived(a + b) == Arrived(a) + Arrived(b)
  {
    FirstOfBoth(a, b);
    if a != [] { ArrivedConcat(a[1..], b); }
  }

  lemma RunFirst(mode: DataMode, ch: Channel, op: Op, ops: seq<Op>)
    ensures RunOps(mode, ch, [op] + ops) == RunOps(mode, Next(mode, ch, op), ops)
    ensures Arrived([op] + ops) == (match op case Append(chunk) => chunk case Read => []) + Arrived(ops)
    ensures SafeRun(mode, ch, [op] + ops) <==>
      (op == Read ==> !Wraps(mode, ch.buf)) && SafeRun(mode, Next(mode, ch, op), ops)
  {
    assert ([op] + ops)[1..] == ops;
  }

  lemma {:induction false} DrainOps(mode: DataMode, ch: Channel) returns (ops: seq<Op>)
    ensures RunOps(mode, ch, ops) == Drained(mode, ch) && Arrived(ops) == []
    ensures SafeRun(mode, ch, ops) <==> SafeDrain(mode, ch)
    decreases |ch.buf|
  {
    var next := Next(mode, ch, Read);
    var more := [];
    if Scan(mode, ch.buf, []).Packet? && |next.buf| < |ch.buf| {
      more := DrainOps(mode, next);
    }
    RunFirst(mode, ch, Read, more);
    ops := [Read] + more;
  }

  /** What the receiver does is a run of appends and reads. */
  lemma {:induction false} ReceiveOps(mode: DataMode, ch: Channel, chunks: seq<seq<Byte>>) returns (ops: seq<Op>)
    ensures RunOps(mode, ch, ops) == Received(mode, ch, chunks) && Arrived(ops) == Flatten(chunks)
    ensures SafeRun(mode, ch, ops) <==> SafeChunks(mode, ch, chunks)
    decreases |chunks|
  {
    if chunks == [] {
      return [];
    }
    var full := Next(mode, ch, Append(chunks[0]));
    var drain := DrainOps(mode, full);
    var more := ReceiveOps(mode, Drained(mode, full), chunks[1..]);
    RunConcat(mode, full, drain, more);
    SafeConcat(mode, full, drain, more);
    ArrivedConcat(drain, more);
    RunFirst(mode, ch, Append(chunks[0]), drain + more);
    assert [] + Arrived(more) == Arrived(more);
    ops := [Append(chunks[0])] + (drain + more);
  }

  function Reads(n: nat): (ops: seq<Op>)
    ensures |ops| == n && forall i :: 0 <= i < n ==> ops[i] == Read
  {
    seq(n, _ => Read)
  }

  lemma OneReadMore(mode: DataMode, ch: Channel, m: nat)
    ensures RunOps(mode, ch, Reads(m + 1)) == RunOps(mode, Next(mode, ch, Read), Reads(m))
  {
    assert Reads(m + 1)[1..] == Reads(m);
  }

  /** Reading until nothing comes out, on any bytes: `n` reads give a packet each, and one more, the
      last, finds nothing. */
  lemma {:induction false} DrainEnds(mode: DataMode, ch: Channel) returns (n: nat)
    ensures Drained(mode, ch) == RunOps(mode, ch, Reads(n + 1))
    ensures forall m: nat {:trigger Reads(m)} :: m < n ==> Scan(mode, RunOps(mode, ch, Reads(m)).buf, []).Packet?
    ensures Scan(mode, RunOps(mode, ch, Reads(n)).buf, []).Wait?
    decreases |ch.buf|
  {
    var next := Next(mode, ch, Read);
    RestIsSuffix(mode, ch.buf, []);
    assert RunOps(mode, ch, Reads(0)) == ch && RunOps(mode, next, Reads(0)) == next;
    n := 0;
    if Scan(mode, ch.buf, []).Packet? {
      var k := DrainEnds(mode, next);
      n := k + 1;
      OneReadMore(mode, ch, k);
      forall m: nat | m < n ensures Scan(mode, RunOps(mode, ch, Reads(m)).buf, []).Packet? {
        if m > 0 { OneReadMore(mode, ch, m - 1); }
      }
    }
    OneReadMore(mode, ch, n);
  }

  // ---------- What it receives ----------

  lemma {:induction false} SafeDrainTakesAll(mode: DataMode, segs: seq<Segment>, ch: Channel, later: seq<Byte>)
    returns (left: seq<Segment>, got: seq<seq<Byte>>)
    requires Clean(segs) && ch.buf + later == Wire(mode, segs) && SafeDrain(mode, ch)
    ensures var end := Drained(mode, ch);
      && Clean(left) && end.buf + later == Wire(mode, left)
      && end.packets == ch.packets + FramesOf(mode, got) && Payloads(segs) == got + Payloads(left)
    ensures later == [] ==> Payloads(left) == []
    decreases |ch.buf|
  {
    var next := Next(mode, ch, Read);
    left := ReadStep(mode, segs, ch.buf, later);
    got := [];
    RestIsSuffix(mode, ch.buf, []);
    if Scan(mode, ch.buf, []).Packet? {
      left, got := SafeDrainTakesAll(mode, left, next, later);
      got := GotOne(mode, Payloads(segs), ch.packets, got, Payloads(left));
    }
  }

  lemma {:induction false} SafeChunksGiveAll(mode: DataMode, segs: seq<Segment>, ch: Channel, chunks: seq<seq<Byte>>)
    requires Clean(segs) && ch.buf + Flatten(chunks) == Wire(mode, segs) && SafeChunks(mode, ch, chunks)
    requires chunks == [] ==> Payloads(segs) == []
    ensures Received(mode, ch, chunks).packets == ch.packets + FramesOf(mode, Payloads(segs))
    decreases |chunks|
  {
    if chunks != [] {
      var later := Flatten(chunks[1..]);
      Regroup(ch.buf, chunks[0], later);
      var full := Next(mode, ch, Append(chunks[0]));
      var left, got := SafeDrainTakesAll(mode, segs, full, later);
      SafeChunksGiveAll(mode, left, Drained(mode, full), chunks[1..]);
      FramesConcat(mode, ch.packets, got, Payloads(left));
    }
  }

  lemma FramesConcat(mode: DataMode, packets: seq<seq<Byte>>, a: seq<seq<Byte>>, b: seq<seq<Byte>>)
    ensures packets + FramesOf(mode, a) + FramesOf(mode, b) == packets + FramesOf(mode, a + b)
  {
    assert FramesOf(mode, a) + FramesOf(mode, b) == FramesOf(mode, a + b);
  }

  /** The receiver gets the frames sent, in order and nothing else, if and only if no piece ended where
      the size of an incomplete frame wraps. */
  lemma ReceivedExact(mode: DataMode, segs: seq<Segment>, chunks: seq<seq<Byte>>)
    requires Clean(segs) && Flatten(chunks) == Wire(mode, segs)
    ensures Received(mode, Channel([], []), chunks).packets == FramesOf(mode, Payloads(segs))
      <==> SafeChunks(mode, Channel([], []), chunks)
  {
    var start := Channel([], []);
    assert [] + Flatten(chunks) == Flatten(chunks);
    assert [] + FramesOf(mode, Payloads(segs)) == FramesOf(mode, Payloads(segs));
    if SafeChunks(mode, start, chunks) {
      WireOfFrames(mode, segs);
      SafeChunksGiveAll(mode, segs, start, chunks);
    } else {
      var ops := ReceiveOps(mode, start, chunks);
      assert [] + Arrived(ops) + [] == Arrived(ops);
      UnsafeRunLoses(mode, segs, start, ops, []);
    }
  }

  /** Small payloads may come in any pieces. */
  lemma SmallChunksAreSafe(mode: DataMode, segs: seq<Segment>, ch: Channel, chunks: seq<seq<Byte>>)
    requires Clean(segs) && Small(segs) && ch.buf + Flatten(chunks) == Wire(mode, segs)
    ensures SafeChunks(mode, ch, chunks)
  {
    var ops := ReceiveOps(mode, ch, chunks);
    assert ch.buf + Arrived(ops) + [] == ch.buf + Arrived(ops);
    SmallIsSafe(mode, segs, ch, ops, []);
  }
}
