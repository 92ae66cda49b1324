/** Streams with frames of any size that `pack` takes: which readings lose a frame. */
module PacketLoss {
  import opened NumberCodec
  import opened PacketStream
  import opened PacketResume
  import opened PacketChannel

  // ---------- A packet that is a frame ----------

  lemma WindowKeepsHeader(data: seq<Byte>, header: seq<Byte>, after: seq<Byte>, size: nat)
    requires |header| == |data| + 3 && header[..|data|] == data
    ensures var window := Window(header, after, size);
      |window| >= |header| && window[..|header|] == header && window[..|data|] == data
  {}

  /** A packet comes only from enough bytes for the guard. */
  lemma FedPacket(mode: DataMode, rest: seq<Byte>, data: seq<Byte>, len: nat)
    requires HeaderSays(mode, rest, data, len) && Scan(mode, rest, data).Packet?
    ensures MIN_SIZE <= |rest| && Cut16(len + MIN_SIZE) <= |rest|
  {
    if |rest| >= MIN_SIZE { HeaderKept(rest, data, 3); }
  }

  lemma TakeTake(packet: seq<Byte>, window: seq<Byte>, data: seq<Byte>)
    requires |data| <= |window| <= |packet| && packet[..|window|] == window && window[..|data|] == data
    ensures packet[..|data|] == data
  {
    assert packet[..|window|][..|data|] == packet[..|data|];
  }

  /** What the reader has in hand stays at the front of the packet. */
  lemma {:induction false} HandIsKept(mode: DataMode, rest: seq<Byte>, data: seq<Byte>)
    requires |data| >= 3 && data[0] == HEAD_BYTE && Scan(mode, rest, data).Packet?
    ensures var r := Scan(mode, rest, data);
      |r.data| >= |data| + 3 && r.data[..|data|] == data
    decreases |rest|
  {
    var size := SizeField(mode, data);
    FedPacket(mode, rest, data, size);
    HeaderKept(rest, data, 3);
    var header := data + rest[..3];
    var window := Window(header, rest[3..], size);
    Iteration(mode, rest, data, header, size);
    WindowKeepsHeader(data, header, rest[3..], size);
    if window[|window| - 1] != END_BYTE {
      HandIsKept(mode, rest[3..], window);
      TakeTake(Scan(mode, rest[3..], window).data, window, data);
    }
  }

  /** While no window is complete a packet is no longer than the bytes there are. */
  lemma {:induction false} NoMoreThanThere(mode: DataMode, rest: seq<Byte>, data: seq<Byte>, len: nat)
    requires HeaderSays(mode, rest, data, len) && |rest| < len + MIN_SIZE && Scan(mode, rest, data).Packet?
    ensures |Scan(mode, rest, data).data| <= |data| + |rest|
    decreases |rest|
  {
    FedPacket(mode, rest, data, len);
    var header := data + rest[..3];
    HeaderKept(rest, data, 3);
    Iteration(mode, rest, data, header, len);
    assert Window(header, rest[3..], len) == header;
    if header[|header| - 1] != END_BYTE {
      NoMoreThanThere(mode, rest[3..], header, len);
    }
  }

  lemma FrameSays(mode: DataMode, q: seq<Byte>)
    requires |q| < SIZE_LIMIT
    ensures SizeField(mode, Frame(mode, q)) == |q|
  {
    FrameHeader(mode, q, []);
    assert Frame(mode, q) + [] == Frame(mode, q);
  }

  lemma PacketHeader(mode: DataMode, rest: seq<Byte>)
    requires |rest| >= 3 && rest[0] == HEAD_BYTE && Scan(mode, rest, []).Packet?
    ensures |rest| >= MIN_SIZE && |Scan(mode, rest, []).data| >= 3
    ensures Scan(mode, rest, []).data[1] == rest[1] && Scan(mode, rest, []).data[2] == rest[2]
  {
    FedPacket(mode, rest, [], SizeField(mode, rest));
    var header, size := [] + rest[..3], SizeField(mode, rest);
    var window := Window(header, rest[3..], size);
    HeaderKept(rest, [], 3);
    Iteration(mode, rest, [], header, size);
    WindowKeepsHeader([], header, rest[3..], size);
    if window[|window| - 1] != END_BYTE {
      HandIsKept(mode, rest[3..], window);
    }
    SameHeader(Scan(mode, rest, []).data, window, header);
  }

  lemma SameHeader(data: seq<Byte>, window: seq<Byte>, header: seq<Byte>)
    requires 3 <= |window| <= |data| && data[..|window|] == window && |header| == 3 && window[..3] == header
    ensures data[1] == header[1] && data[2] == header[2]
  {
    assert data[1] == data[..|window|][1] == window[..3][1] && data[2] == data[..|window|][2] == window[..3][2];
  }

  /** If the first window is complete and the packet is no longer, it is that window. */
  lemma FirstWindowOnly(mode: DataMode, rest: seq<Byte>, len: nat)
    requires HeaderSays(mode, rest, [], len) && len + MIN_SIZE <= |rest| && Scan(mode, rest, []).Packet?
    requires |Scan(mode, rest, []).data| == len + MIN_SIZE
    ensures rest == Scan(mode, rest, []).data + Scan(mode, rest, []).rest
  {
    var window := [] + rest[..len + MIN_SIZE];
    ScanStep(mode, rest, [], len);
    HeaderKept(rest, [], len + MIN_SIZE);
    if rest[len + 3] != END_BYTE {
      HandIsKept(mode, rest[3..], window);
    }
  }

  /** At a head byte: a packet that is a frame was there as a whole. */
  lemma FrameWasThere(mode: DataMode, rest: seq<Byte>, q: seq<Byte>)
    requires |q| < SIZE_LIMIT && |rest| >= 3 && rest[0] == HEAD_BYTE
    requires Scan(mode, rest, []).Packet? && Scan(mode, rest, []).data == Frame(mode, q)
    ensures |q| + MIN_SIZE <= |rest| && rest == Frame(mode, q) + Scan(mode, rest, []).rest
  {
    PacketHeader(mode, rest);
    FrameSays(mode, q);
    if |rest| < |q| + MIN_SIZE {
      NoMoreThanThere(mode, rest, [], |q|);
    } else {
      FirstWindowOnly(mode, rest, |q|);
    }
  }

  // ---------- Head bytes ----------

  function Heads(data: seq<Byte>): nat {
    if data == [] then 0 else (if data[0] == HEAD_BYTE then 1 else 0) + Heads(data[1..])
  }

  /** The head bytes in the frames of `payloads`. */
  function HeadsOf(mode: DataMode, payloads: seq<seq<Byte>>): nat {
    if payloads == [] then 0 else Heads(Frame(mode, payloads[0])) + HeadsOf(mode, payloads[1..])
  }

  lemma {:induction false} HeadsConcat(a: seq<Byte>, b: seq<Byte>)
    ensures Heads(a + b) == Heads(a) + Heads(b)
  {
    if a == [] {
      assert a + b == b;
    } else {
      assert (a + b)[1..] == a[1..] + b;
      HeadsConcat(a[1..], b);
    }
  }

  lemma HeadsSplit(data: seq<Byte>, n: nat)
    requires n <= |data|
    ensures Heads(data) == Heads(data[..n]) + Heads(data[n..])
  {
    assert data == data[..n] + data[n..];
    HeadsConcat(data[..n], data[n..]);
  }

  lemma {:induction false} NoiseHasNoHead(bytes: seq<Byte>)
    requires HEAD_BYTE !in bytes
    ensures Heads(bytes) == 0
  {
    if bytes != [] { NoiseHasNoHead(bytes[1..]); }
  }

  /** The head bytes of a stream are those of its frames. */
  lemma {:induction false} HeadsOfWire(mode: DataMode, segs: seq<Segment>)
    requires Clean(segs)
    ensures Heads(Wire(mode, segs)) == HeadsOf(mode, Payloads(segs))
  {
    if segs != [] {
      var tail := Wire(mode, segs[1..]);
      assert CleanSegment(segs[0]);
      HeadsOfWire(mode, segs[1..]);
      match segs[0] {
        case Noise(bytes) =>
          NoiseHasNoHead(bytes);
          HeadsConcat(bytes, tail);
          assert [] + Payloads(segs[1..]) == Payloads(segs[1..]);
        case Frames(p) =>
          HeadsConcat(Frame(mode, p), tail);
          assert ([p] + Payloads(segs[1..]))[1..] == Payloads(segs[1..]);
      }
    }
  }

  /** A read gives up no head byte it did not have, and for a packet that is a frame it gives up
      those of the frame. */
  lemma ReadTakesHeads(mode: DataMode, buf: seq<Byte>)
    ensures Heads(Scan(mode, buf, []).rest) <= Heads(buf)
  {
    RestIsSuffix(mode, buf, []);
    HeadsSplit(buf, |buf| - |Scan(mode, buf, []).rest|);
  }

  lemma FrameTakesHeads(mode: DataMode, buf: seq<Byte>, q: seq<Byte>)
    requires |q| < SIZE_LIMIT && Scan(mode, buf, []).Packet? && Scan(mode, buf, []).data == Frame(mode, q)
    ensures Heads(Frame(mode, q)) + Heads(Scan(mode, buf, []).rest) <= Heads(buf)
  {
    var s := Skipped(buf);
    SkippedMeaning(buf);
    ScanSkips(mode, buf);
    FrameWasThere(mode, buf[s..], q);
    HeadsConcat(Frame(mode, q), Scan(mode, buf, []).rest);
    HeadsSplit(buf, s);
  }

  // ---------- A read that goes on too early ----------

  /** The reader takes the header out of the buffer. */
  lemma WrappedReadConsumes(mode: DataMode, buf: seq<Byte>)
    requires Wraps(mode, buf)
    ensures var s := Skipped(buf); s < |buf| && buf[s] == HEAD_BYTE && |Scan(mode, buf, []).rest| < |buf| - s
  {
    var rest := buf[Skipped(buf)..];
    SkippedMeaning(buf);
    ScanSkips(mode, buf);
    WrappedSizeGoesOn(mode, rest, SizeField(mode, rest));
  }

  lemma HeadLost(buf: seq<Byte>, s: nat, rest: seq<Byte>)
    requires s < |buf| && buf[s] == HEAD_BYTE && Suffix(rest, buf) && |rest| < |buf| - s
    ensures Heads(rest) < Heads(buf)
  {
    var gone := buf[..|buf| - |rest|];
    HeadsSplit(buf, |gone|);
    HeadsSplit(gone, s);
    assert gone[s..][0] == HEAD_BYTE;
  }

  lemma WrappedAtFrame(mode: DataMode, segs: seq<Segment>, buf: seq<Byte>, later: seq<Byte>)
    requires Clean(segs) && buf + later == Wire(mode, segs) && Wraps(mode, buf)
    ensures Payloads(segs) != [] && |Payloads(segs)[0]| < SIZE_LIMIT
    ensures |buf| - Skipped(buf) < |Payloads(segs)[0]| + MIN_SIZE
  {
    var left := SkipNoise(mode, segs, buf, later);
    var n := FrameAtFront(mode, left, buf[Skipped(buf)..], later);
    assert Payloads(left)[0] == left[0].payload;
  }

  /** Such a read at a frame of the stream: what comes out, if anything, is not that frame, and if
      nothing comes out a head byte is lost. */
  lemma FrameIsLost(mode: DataMode, segs: seq<Segment>, buf: seq<Byte>, later: seq<Byte>)
    requires Clean(segs) && buf + later == Wire(mode, segs) && Wraps(mode, buf)
    ensures Payloads(segs) != []
    ensures Scan(mode, buf, []).Packet? ==> Scan(mode, buf, []).data != Frame(mode, Payloads(segs)[0])
    ensures Heads(Scan(mode, buf, []).rest) + Heads(later) < HeadsOf(mode, Payloads(segs))
  {
    var s, r := Skipped(buf), Scan(mode, buf, []);
    WrappedAtFrame(mode, segs, buf, later);
    WrappedReadConsumes(mode, buf);
    ScanSkips(mode, buf);
    if r.Packet? && r.data == Frame(mode, Payloads(segs)[0]) {
      FrameWasThere(mode, buf[s..], Payloads(segs)[0]);
    }
    RestIsSuffix(mode, buf, []);
    HeadLost(buf, s, r.rest);
    HeadsConcat(buf, later);
    HeadsOfWire(mode, segs);
  }

  // ---------- Whole readings ----------

  lemma {:induction false} PacketsStay(mode: DataMode, ch: Channel, ops: seq<Op>)
    ensures ch.packets <= RunOps(mode, ch, ops).packets
    decreases |ops|
  {
    if ops != [] { PacketsStay(mode, Next(mode, ch, ops[0]), ops[1..]); }
  }

  /** Nobody reads more frames than the head bytes allow. */
  lemma {:induction false} FramesNeedHeads(mode: DataMode, ch: Channel, ops: seq<Op>, want: seq<seq<Byte>>)
    requires forall i :: 0 <= i < |want| ==> |want[i]| < SIZE_LIMIT
    requires RunOps(mode, ch, ops).packets == ch.packets + FramesOf(mode, want)
    ensures HeadsOf(mode, want) <= Heads(ch.buf) + Heads(Arrived(ops))
    decreases |ops|
  {
    if ops == [] {
      assert |want| == 0;
    } else {
      var next, coming := Next(mode, ch, ops[0]), Arrived(ops[1..]);
      match ops[0] {
        case Append(chunk) =>
          FramesNeedHeads(mode, next, ops[1..], want);
          HeadsConcat(ch.buf, chunk);
          HeadsConcat(chunk, coming);
        case Read =>
          assert [] + coming == coming;
          match Scan(mode, ch.buf, []) {
            case Wait(_, _) =>
              FramesNeedHeads(mode, next, ops[1..], want);
              ReadTakesHeads(mode, ch.buf);
            case Packet(_, data) =>
              PacketsStay(mode, next, ops[1..]);
              FirstWanted(mode, ch.packets, data, RunOps(mode, ch, ops).packets, want);
              FramesNeedHeads(mode, next, ops[1..], want[1..]);
              FrameTakesHeads(mode, ch.buf, want[0]);
          }
      }
    }
  }

  lemma NextIsFirst(a: seq<seq<Byte>>, d: seq<Byte>, end: seq<seq<Byte>>, b: seq<seq<Byte>>)
    requires a + [d] <= end && end == a + b
    ensures b != [] && b[0] == d && end == a + [d] + b[1..]
  {
    assert b == end[|a|..] && end[|a|] == (a + [d])[|a|];
  }

  lemma FirstWanted(mode: DataMode, packets: seq<seq<Byte>>, data: seq<Byte>, end: seq<seq<Byte>>, want: seq<seq<Byte>>)
    requires packets + [data] <= end && end == packets + FramesOf(mode, want)
    ensures want != [] && data == Frame(mode, want[0]) && end == packets + [data] + FramesOf(mode, want[1..])
  {
    NextIsFirst(packets, data, end, FramesOf(mode, want));
    assert FramesOf(mode, want)[1..] == FramesOf(mode, want[1..]);
  }

  /** After a read that goes on too early the frames do not all come out any more. */
  lemma {:induction false} UnsafeRunLoses(mode: DataMode, segs: seq<Segment>, ch: Channel, ops: seq<Op>,
      later: seq<Byte>)
    requires Clean(segs) && ch.buf + Arrived(ops) + later == Wire(mode, segs) && !SafeRun(mode, ch, ops)
    ensures RunOps(mode, ch, ops).packets != ch.packets + FramesOf(mode, Payloads(segs))
    decreases |ops|
  {
    var next, coming := Next(mode, ch, ops[0]), Arrived(ops[1..]);
    match ops[0] {
      case Append(chunk) =>
        Arrive(ch.buf, chunk, coming, later);
        UnsafeRunLoses(mode, segs, next, ops[1..], later);
      case Read =>
        assert [] + coming == coming;
        Regroup(ch.buf, coming, later);
        if Wraps(mode, ch.buf) {
          UnsafeRead(mode, segs, ch, ops, later);
        } else {
          var after := ReadStep(mode, segs, ch.buf, coming + later);
          Regroup(next.buf, coming, later);
          UnsafeRunLoses(mode, after, next, ops[1..], later);
          if Scan(mode, ch.buf, []).Packet? {
            FirstRead(mode, Payloads(segs), ch.packets, Payloads(after));
          }
        }
    }
  }

  lemma FirstRead(mode: DataMode, payloads: seq<seq<Byte>>, packets: seq<seq<Byte>>, left: seq<seq<Byte>>)
    requires payloads != [] && left == payloads[1..]
    ensures packets + [Frame(mode, payloads[0])] + FramesOf(mode, left) == packets + FramesOf(mode, payloads)
  {
    assert [Frame(mode, payloads[0])] + FramesOf(mode, left) == FramesOf(mode, payloads);
  }

  lemma UnsafeRead(mode: DataMode, segs: seq<Segment>, ch: Channel, ops: seq<Op>, later: seq<Byte>)
    requires Clean(segs) && ops != [] && ops[0] == Read && Wraps(mode, ch.buf)
    requires ch.buf + (Arrived(ops[1..]) + later) == Wire(mode, segs)
    ensures RunOps(mode, ch, ops).packets != ch.packets + FramesOf(mode, Payloads(segs))
  {
    var next, coming, want := Next(mode, ch, ops[0]), Arrived(ops[1..]), Payloads(segs);
    var end := RunOps(mode, ch, ops).packets;
    FrameIsLost(mode, segs, ch.buf, coming + later);
    if end == ch.packets + FramesOf(mode, want) {
      PayloadsFit(segs);
      match Scan(mode, ch.buf, []) {
        case Wait(_, _) =>
          FramesNeedHeads(mode, next, ops[1..], want);
          HeadsConcat(coming, later);
        case Packet(_, data) =>
          PacketsStay(mode, next, ops[1..]);
          FirstWanted(mode, ch.packets, data, end, want);
      }
    }
  }

  lemma {:induction false} PayloadsFit(segs: seq<Segment>)
    requires Clean(segs)
    ensures forall i :: 0 <= i < |Payloads(segs)| ==> |Payloads(segs)[i]| < SIZE_LIMIT
  {
    if segs != [] {
      assert CleanSegment(segs[0]);
      PayloadsFit(segs[1..]);
    }
  }

  /** The exact condition, for frames of every size: when a whole stream has arrived and a read finds
      nothing, the packets are the frames sent, in order, if and only if no read happened while the
      size of an incomplete frame at the front wrapped. */
  lemma ChunkingExact(mode: DataMode, segs: seq<Segment>, ops: seq<Op>)
    requires Clean(segs) && Arrived(ops) == Wire(mode, segs)
    requires Scan(mode, RunOps(mode, Channel([], []), ops).buf, []).Wait?
    ensures RunOps(mode, Channel([], []), ops).packets == FramesOf(mode, Payloads(segs))
      <==> SafeRun(mode, Channel([], []), ops)
  {
    var start := Channel([], []);
    assert [] + Arrived(ops) + [] == Arrived(ops) + [] == Arrived(ops);
    if SafeRun(mode, start, ops) {
      ChunkingDoesNotMatter(mode, segs, ops, []);
    } else {
      UnsafeRunLoses(mode, segs, start, ops, []);
      assert [] + FramesOf(mode, Payloads(segs)) == FramesOf(mode, Payloads(segs));
    }
  }

  // ---------- One frame in two pieces ----------

  /** A frame cut anywhere and read after each piece comes out if and only if it was not cut behind
      its third byte, or not cut at all, or has a size that does not wrap. */
  lemma FrameCut(mode: DataMode, p: seq<Byte>, n: nat)
    requires |p| < SIZE_LIMIT && n <= |p| + MIN_SIZE
    ensures var f := Frame(mode, p);
      RunOps(mode, Channel([], []), [Append(f[..n]), Read, Append(f[n..]), Read]).packets == [f]
      <==> n < MIN_SIZE || n == |f| || |p| + MIN_SIZE < SIZE_LIMIT
  {
    var f := Frame(mode, p);
    if n == |f| {
      WholeFrame(mode, p);
    } else if n < MIN_SIZE || |p| + MIN_SIZE < SIZE_LIMIT {
      FramePrefixWaits(mode, p, n);
      FrameIsRead(mode, p, []);
      assert f[..n] + f[n..] == f + [] == f;
      FourSteps(mode, f[..n], f[n..]);
    } else {
      CutFrameIsLost(mode, p, n);
    }
  }

  lemma FourOps(a: seq<Byte>, b: seq<Byte>)
    ensures var ops := [Append(a), Read, Append(b), Read];
      && ops[1..] == [Read, Append(b), Read] && [Read, Append(b), Read][1..] == [Append(b), Read]
      && [Append(b), Read][1..] == [Read] && [Read][1..] == []
  {}

  /** Two appends, each with a read behind it. */
  lemma FourSteps(mode: DataMode, a: seq<Byte>, b: seq<Byte>)
    ensures RunOps(mode, Channel([], []), [Append(a), Read, Append(b), Read]).packets ==
      Read2(mode, Scan(mode, a, []), b)
  {
    var start := Channel([], []);
    var one := Next(mode, start, Append(a));
    var two := Next(mode, one, Read);
    var three := Next(mode, two, Append(b));
    FourOps(a, b);
    assert one.buf == a;
    assert RunOps(mode, three, [Read]) == Next(mode, three, Read);
    assert RunOps(mode, two, [Append(b), Read]) == Next(mode, three, Read);
    assert RunOps(mode, one, [Read, Append(b), Read]) == Next(mode, three, Read);
  }

  function Read2(mode: DataMode, first: Outcome, b: seq<Byte>): seq<seq<Byte>> {
    var second := Scan(mode, first.rest + b, []);
    (if first.Packet? then [first.data] else []) + (if second.Packet? then [second.data] else [])
  }

  lemma WholeFrame(mode: DataMode, p: seq<Byte>)
    requires |p| < SIZE_LIMIT
    ensures var f := Frame(mode, p);
      RunOps(mode, Channel([], []), [Append(f[..|f|]), Read, Append(f[|f|..]), Read]).packets == [f]
  {
    var f := Frame(mode, p);
    FrameIsRead(mode, p, []);
    assert f[..|f|] == f == f + [] && f[|f|..] == [];
    FourSteps(mode, f, []);
  }

  lemma OneFrame(mode: DataMode, p: seq<Byte>)
    ensures Wire(mode, [Frames(p)]) == Frame(mode, p) && Payloads([Frames(p)]) == [p]
  {
    var segs := [Frames(p)];
    assert segs[1..] == [];
    assert Wire(mode, []) == [] && Payloads([]) == [];
    assert Frame(mode, p) + [] == Frame(mode, p) && [p] + [] == [p];
  }

  lemma CutFrameIsLost(mode: DataMode, p: seq<Byte>, n: nat)
    requires |p| < SIZE_LIMIT <= |p| + MIN_SIZE && MIN_SIZE <= n < |p| + MIN_SIZE
    ensures var f := Frame(mode, p);
      RunOps(mode, Channel([], []), [Append(f[..n]), Read, Append(f[n..]), Read]).packets != [f]
  {
    var f, segs := Frame(mode, p), [Frames(p)];
    var ops := [Append(f[..n]), Read, Append(f[n..]), Read];
    OneFrame(mode, p);
    CutArrives(f[..n], f[n..]);
    PrefixHeader(mode, p, n);
    assert f[..n][0..] == f[..n];
    UnsafeRunLoses(mode, segs, Channel([], []), ops, []);
    assert [] + FramesOf(mode, [p]) == [f];
  }

  lemma CutArrives(a: seq<Byte>, b: seq<Byte>)
    ensures Arrived([Append(a), Read, Append(b), Read]) == a + b
  {
    FourOps(a, b);
    assert Arrived([Append(b), Read]) == b;
    assert Arrived([Read, Append(b), Read]) == b;
  }
}
