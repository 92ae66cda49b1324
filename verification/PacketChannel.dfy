/** Framing end to end: payloads packed into a byte stream, cut into arbitrary pieces and read back
    (ae/packet.cpp over ae/list_buffer.cpp). */
module PacketChannel {
  import opened NumberCodec
  import opened PacketStream

  // ---------- One frame ----------

  lemma FrameHeader(mode: DataMode, p: seq<Byte>, b: seq<Byte>)
    requires |p| < SIZE_LIMIT
    ensures HeaderSays(mode, Frame(mode, p) + b, [], |p|)
    ensures (Frame(mode, p) + b)[|p| + 3] == END_BYTE
  {
    var c := Frame(mode, p) + b;
    assert c[1..3] == Encode(mode, 2, |p|);
    assert Pow256(2) == 256 * Pow256(1) == SIZE_LIMIT;
    DecodeEncode(mode, 2, |p|);
    SizeFieldIsDecode(mode, c);
  }

  /** A frame byte by byte. */
  lemma FrameLayout(mode: DataMode, p: seq<Byte>)
    requires |p| < SIZE_LIMIT
    ensures var f := Frame(mode, p);
      && f[0] == 0x7e && f[3..3 + |p|] == p && f[|p| + 3] == 0xe7
      && f[if mode.BigEndian? then 1 else 2] == |p| / 256 && f[if mode.BigEndian? then 2 else 1] == |p| % 256
  {
    var f := Frame(mode, p);
    EncodeByte(mode, 2, |p|, 0);
    EncodeByte(mode, 2, |p|, 1);
    assert Pow256(0) == 1 && Pow256(1) == 256 * Pow256(0);
    assert f[1] == Encode(mode, 2, |p|)[0] && f[2] == Encode(mode, 2, |p|)[1];
  }

  /** A whole frame is read back, whatever follows it: for every size `pack` accepts. */
  lemma FrameIsRead(mode: DataMode, p: seq<Byte>, b: seq<Byte>)
    requires |p| < SIZE_LIMIT
    ensures Scan(mode, Frame(mode, p) + b, []) == Packet(b, Frame(mode, p))
  {
    var c := Frame(mode, p) + b;
    FrameHeader(mode, p, b);
    ScanStep(mode, c, [], |p|);
    assert c[..|p| + MIN_SIZE] == Frame(mode, p) && c[|p| + MIN_SIZE..] == b;
    assert [] + Frame(mode, p) == Frame(mode, p);
  }

  /** The beginning of a frame is left in the buffer until the rest arrives, except that a size
      above 65531 wraps and lets the reader go on once four bytes are there. */
  lemma FramePrefixWaits(mode: DataMode, p: seq<Byte>, n: nat)
    requires |p| < SIZE_LIMIT && n < |p| + MIN_SIZE
    ensures var c := Frame(mode, p)[..n];
      Scan(mode, c, []) == Wait(c, []) <==> n < MIN_SIZE || |p| + MIN_SIZE < SIZE_LIMIT
  {
    var c := Frame(mode, p)[..n];
    if n >= MIN_SIZE {
      PrefixHeader(mode, p, n);
      if |p| + MIN_SIZE < SIZE_LIMIT {
        ScanWaits(mode, c, [], |p|);
      } else {
        WrappedSizeGoesOn(mode, c, |p|);
      }
    }
  }

  lemma PrefixHeader(mode: DataMode, p: seq<Byte>, n: nat)
    requires |p| < SIZE_LIMIT && MIN_SIZE <= n < |p| + MIN_SIZE
    ensures HeaderSays(mode, Frame(mode, p)[..n], [], |p|)
  {
    FrameHeader(mode, p, []);
    assert Frame(mode, p) + [] == Frame(mode, p);
  }

  /** A size that wraps makes the reader take the header out of the buffer. */
  lemma WrappedSizeGoesOn(mode: DataMode, c: seq<Byte>, len: nat)
    requires |c| >= MIN_SIZE && HeaderSays(mode, c, [], len) && len < SIZE_LIMIT <= len + MIN_SIZE
    ensures Scan(mode, c, []) != Wait(c, []) && |Scan(mode, c, []).rest| + 3 <= |c|
  {
    var header := [] + c[..3];
    HeaderKept(c, [], 3);
    assert Cut16(len + MIN_SIZE) == len + MIN_SIZE - SIZE_LIMIT;
    Iteration(mode, c, [], header, len);
    RestIsSuffix(mode, c[3..], Window(header, c[3..], len));
    assert |Scan(mode, c, []).rest| + 3 <= |c|;
  }

  // ---------- A stream of frames ----------

  /** What a peer sends: frames of any size `pack` takes, and bytes between them that are no head
      byte. */
  datatype Segment = Noise(bytes: seq<Byte>) | Frames(payload: seq<Byte>)

  predicate CleanSegment(seg: Segment) {
    match seg
    case Noise(bytes) => HEAD_BYTE !in bytes
    case Frames(p) => |p| < SIZE_LIMIT
  }

  ghost predicate Clean(segs: seq<Segment>) {
    forall i :: 0 <= i < |segs| ==> CleanSegment(segs[i])
  }

  function Wire(mode: DataMode, segs: seq<Segment>): seq<Byte> {
    if segs == [] then []
    else
      (match segs[0] case Noise(bytes) => bytes case Frames(p) => Frame(mode, p)) + Wire(mode, segs[1..])
  }

  function Payloads(segs: seq<Segment>): seq<seq<Byte>> {
    if segs == [] then []
    else (match segs[0] case Noise(_) => [] case Frames(p) => [p]) + Payloads(segs[1..])
  }

  lemma {:induction false} WireOfFrames(mode: DataMode, segs: seq<Segment>)
    ensures Payloads(segs) != [] ==> |Wire(mode, segs)| >= MIN_SIZE
  {
    if segs != [] {
      WireOfFrames(mode, segs[1..]);
    }
  }

  /** What a read may do to a clean stream: wait, or take the next payload. `left` is the stream
      that the remaining bytes begin. */
  ghost predicate Advances(mode: DataMode, segs: seq<Segment>, r: Outcome, left: seq<Segment>) {
    match r
    case Wait(_, stale) => stale == [] && Payloads(left) == Payloads(segs)
    case Packet(_, data) =>
      && |Payloads(segs)| > 0 && Payloads(left) == Payloads(segs)[1..]
      && data == Frame(mode, Payloads(segs)[0])
  }

  /** No size wraps: the payloads have at most 65531 bytes. */
  ghost predicate Small(segs: seq<Segment>) {
    forall i :: 0 <= i < |Payloads(segs)| ==> |Payloads(segs)[i]| + MIN_SIZE < SIZE_LIMIT
  }

  /** The guard that fails to hold the reader back: the sum of the size and four wraps, and the frame
      at the front is not complete. */
  predicate Short(mode: DataMode, rest: seq<Byte>) {
    |rest| >= MIN_SIZE && SIZE_LIMIT <= SizeField(mode, rest) + MIN_SIZE && |rest| < SizeField(mode, rest) + MIN_SIZE
  }

  predicate Wraps(mode: DataMode, buf: seq<Byte>) {
    Short(mode, buf[Skipped(buf)..])
  }

  /** The skipped bytes of a stream are noise, and a frame follows if four bytes are left. */
  lemma {:induction false} SkipNoise(mode: DataMode, segs: seq<Segment>, buf: seq<Byte>, later: seq<Byte>)
    returns (left: seq<Segment>)
    requires Clean(segs) && buf + later == Wire(mode, segs)
    ensures var rest := buf[Skipped(buf)..];
      && Clean(left) && rest + later == Wire(mode, left) && Payloads(left) == Payloads(segs)
      && (|rest| >= MIN_SIZE ==> left != [] && left[0].Frames?)
    decreases |buf|, |segs|
  {
    assert buf[0..] == buf;
    if |buf| < MIN_SIZE || segs[0].Frames? {
      left := segs;
      if |buf| >= MIN_SIZE { FrontIsHead(mode, segs, buf, later); }
    } else if segs[0].bytes == [] {
      EmptyNoise(mode, segs);
      left := SkipNoise(mode, segs[1..], buf, later);
    } else {
      NoiseByte(mode, segs, buf, later);
      left := SkipNoise(mode, [Noise(segs[0].bytes[1..])] + segs[1..], buf[1..], later);
      DropDrop(buf, 1, Skipped(buf[1..]));
    }
  }

  lemma EmptyNoise(mode: DataMode, segs: seq<Segment>)
    requires segs != [] && segs[0] == Noise([])
    ensures Wire(mode, segs) == Wire(mode, segs[1..]) && Payloads(segs) == Payloads(segs[1..])
  {
    assert [] + Wire(mode, segs[1..]) == Wire(mode, segs[1..]);
    assert [] + Payloads(segs[1..]) == Payloads(segs[1..]);
  }

  lemma FrontIsHead(mode: DataMode, segs: seq<Segment>, buf: seq<Byte>, later: seq<Byte>)
    requires segs != [] && segs[0].Frames? && buf != [] && buf + later == Wire(mode, segs)
    ensures buf[0] == HEAD_BYTE
  {
    assert buf[0] == (buf + later)[0] == Frame(mode, segs[0].payload)[0];
  }

  /** One read of a buffer that holds the first bytes of a clean stream: `later` is what has not
      arrived yet. */
  lemma ReadStep(mode: DataMode, segs: seq<Segment>, buf: seq<Byte>, later: seq<Byte>)
    returns (left: seq<Segment>)
    requires Clean(segs) && buf + later == Wire(mode, segs) && !Wraps(mode, buf)
    ensures var r := Scan(mode, buf, []);
      && Clean(left) && r.rest + later == Wire(mode, left) && Advances(mode, segs, r, left)
      && (r.Wait? && later == [] ==> Payloads(segs) == [] && |r.rest| < MIN_SIZE)
  {
    var rest := buf[Skipped(buf)..];
    ScanSkips(mode, buf);
    left := SkipNoise(mode, segs, buf, later);
    if |rest| < MIN_SIZE {
      WireOfFrames(mode, left);
      assert later == [] ==> rest + later == rest;
    } else {
      left := FrameStep(mode, left, rest, later);
    }
  }

  lemma FrameStep(mode: DataMode, segs: seq<Segment>, buf: seq<Byte>, later: seq<Byte>)
    returns (left: seq<Segment>)
    requires Clean(segs) && segs != [] && segs[0].Frames?
    requires |buf| >= MIN_SIZE && buf + later == Wire(mode, segs) && !Short(mode, buf)
    ensures var r := Scan(mode, buf, []);
      && Clean(left) && r.rest + later == Wire(mode, left) && Advances(mode, segs, r, left)
      && (r.Wait? ==> later != [])
  {
    assert CleanSegment(segs[0]);
    var p, tail := segs[0].payload, Wire(mode, segs[1..]);
    var frame := Frame(mode, p);
    if |frame| <= |buf| {
      SplitAt(buf, later, frame, tail);
      FrameIsRead(mode, p, buf[|frame|..]);
      left := segs[1..];
    } else {
      CutOff(buf, later, frame, tail);
      PrefixHeader(mode, p, |buf|);
      FramePrefixWaits(mode, p, |buf|);
      left := segs;
    }
  }

  /** The guard can only fail on an oversize frame that has not arrived as a whole. */
  lemma NeverWraps(mode: DataMode, segs: seq<Segment>, buf: seq<Byte>, later: seq<Byte>)
    requires Clean(segs) && buf + later == Wire(mode, segs) && (Small(segs) || later == [])
    ensures !Wraps(mode, buf)
  {
    var rest := buf[Skipped(buf)..];
    var left := SkipNoise(mode, segs, buf, later);
    if |rest| >= MIN_SIZE {
      var n := FrameAtFront(mode, left, rest, later);
      assert left[0].payload == Payloads(left)[0];
    }
  }

  /** The bytes at the front are a frame or the beginning of one, `n` bytes of it. */
  lemma FrameAtFront(mode: DataMode, segs: seq<Segment>, buf: seq<Byte>, later: seq<Byte>) returns (n: nat)
    requires Clean(segs) && segs != [] && segs[0].Frames?
    requires |buf| >= MIN_SIZE && buf + later == Wire(mode, segs)
    ensures var p := segs[0].payload;
      && HeaderSays(mode, buf, [], |p|) && |p| < SIZE_LIMIT && n == Min(|buf|, |p| + MIN_SIZE)
      && (n < |p| + MIN_SIZE ==> later != [] && buf == Frame(mode, p)[..n])
  {
    assert CleanSegment(segs[0]);
    var p, tail := segs[0].payload, Wire(mode, segs[1..]);
    var frame := Frame(mode, p);
    n := Min(|buf|, |frame|);
    if |frame| <= |buf| {
      SplitAt(buf, later, frame, tail);
      FrameHeader(mode, p, buf[|frame|..]);
    } else {
      CutOff(buf, later, frame, tail);
      PrefixHeader(mode, p, |buf|);
    }
  }

  lemma SplitAt(a: seq<Byte>, b: seq<Byte>, c: seq<Byte>, d: seq<Byte>)
    requires a + b == c + d && |c| <= |a|
    ensures a == c + a[|c|..] && a[|c|..] + b == d
  {
    assert a[..|c|] == (a + b)[..|c|] == c;
    assert a[|c|..] + b == (a + b)[|c|..];
  }

  lemma CutOff(a: seq<Byte>, b: seq<Byte>, c: seq<Byte>, d: seq<Byte>)
    requires a + b == c + d && |a| < |c|
    ensures a == c[..|a|] && b != []
  {
    assert a == (a + b)[..|a|];
    assert |a + b| >= |c|;
  }

  lemma NoiseByte(mode: DataMode, segs: seq<Segment>, buf: seq<Byte>, later: seq<Byte>)
    requires Clean(segs) && segs != [] && segs[0].Noise? && segs[0].bytes != []
    requires |buf| >= MIN_SIZE && buf + later == Wire(mode, segs)
    ensures var rest := [Noise(segs[0].bytes[1..])] + segs[1..];
      && Clean(rest) && Payloads(rest) == Payloads(segs)
      && buf[1..] + later == Wire(mode, rest) && buf[0] != HEAD_BYTE
  {
    var bytes := segs[0].bytes;
    var rest := [Noise(bytes[1..])] + segs[1..];
    assert rest[1..] == segs[1..];
    assert CleanSegment(segs[0]) && bytes[0] in bytes;
    DropFirst(buf, later, bytes, Wire(mode, segs[1..]));
  }

  lemma DropFirst(a: seq<Byte>, b: seq<Byte>, c: seq<Byte>, d: seq<Byte>)
    requires a + b == c + d && a != [] && c != []
    ensures a[0] == c[0] && a[1..] + b == c[1..] + d
  {
    assert a[0] == (a + b)[0] == (c + d)[0] == c[0];
    assert a[1..] + b == (a + b)[1..] == (c + d)[1..] == c[1..] + d;
  }

  // ---------- Any cutting into pieces, any interleaving with reads ----------

  datatype Op = Append(chunk: seq<Byte>) | Read

  /** The buffered bytes, and the packets read so far. */
  datatype Channel = Channel(buf: seq<Byte>, packets: seq<seq<Byte>>)

  function Next(mode: DataMode, ch: Channel, op: Op): Channel {
    match op
    case Append(chunk) => Channel(ch.buf + chunk, ch.packets)
    case Read =>
      match Scan(mode, ch.buf, [])
      case Wait(rest, _) => Channel(rest, ch.packets)
      case Packet(rest, data) => Channel(rest, ch.packets + [data])
  }

  function RunOps(mode: DataMode, ch: Channel, ops: seq<Op>): Channel
    decreases |ops|
  {
    if ops == [] then ch else RunOps(mode, Next(mode, ch, ops[0]), ops[1..])
  }

  function Arrived(ops: seq<Op>): seq<Byte> {
    if ops == [] then []
    else (match ops[0] case Append(chunk) => chunk case Read => []) + Arrived(ops[1..])
  }

  function FramesOf(mode: DataMode, payloads: seq<seq<Byte>>): (frames: seq<seq<Byte>>)
    ensures |frames| == |payloads|
    ensures forall i :: 0 <= i < |frames| ==> frames[i] == Frame(mode, payloads[i])
  {
    seq(|payloads|, i requires 0 <= i < |payloads| => Frame(mode, payloads[i]))
  }

  /** No read happens while the guard fails: something to look at before each read. */
  ghost predicate SafeRun(mode: DataMode, ch: Channel, ops: seq<Op>)
    decreases |ops|
  {
    ops == [] || ((ops[0] == Read ==> !Wraps(mode, ch.buf)) && SafeRun(mode, Next(mode, ch, ops[0]), ops[1..]))
  }

  /** From any point of a clean stream on: the packets read are frames of the next payloads, in
      order, and what is left is again a clean stream. */
  lemma {:induction false} RunFrom(mode: DataMode, segs: seq<Segment>, ch: Channel, ops: seq<Op>, later: seq<Byte>)
    returns (left: seq<Segment>, got: seq<seq<Byte>>)
    requires Clean(segs) && ch.buf + Arrived(ops) + later == Wire(mode, segs) && SafeRun(mode, ch, ops)
    ensures var end := RunOps(mode, ch, ops);
      && Clean(left) && end.buf + later == Wire(mode, left)
      && end.packets == ch.packets + FramesOf(mode, got) && Payloads(segs) == got + Payloads(left)
    decreases |ops|
  {
    if ops == [] {
      assert ch.buf + [] + later == ch.buf + later;
      return segs, [];
    }
    var next := Next(mode, ch, ops[0]);
    var coming := Arrived(ops[1..]);
    match ops[0] {
      case Append(chunk) =>
        Arrive(ch.buf, chunk, coming, later);
        left, got := RunFrom(mode, segs, next, ops[1..], later);
      case Read =>
        assert [] + coming == coming;
        Regroup(ch.buf, coming, later);
        var after := ReadStep(mode, segs, ch.buf, coming + later);
        Regroup(next.buf, coming, later);
        left, got := RunFrom(mode, after, next, ops[1..], later);
        if Scan(mode, ch.buf, []).Packet? {
          got := GotOne(mode, Payloads(segs), ch.packets, got, Payloads(left));
        }
    }
  }

  lemma Arrive(buf: seq<Byte>, chunk: seq<Byte>, coming: seq<Byte>, later: seq<Byte>)
    ensures buf + (chunk + coming) + later == buf + chunk + coming + later
  {
    Regroup(buf, chunk, coming);
  }

  lemma GotOne(mode: DataMode, payloads: seq<seq<Byte>>, packets: seq<seq<Byte>>, got: seq<seq<Byte>>,
      left: seq<seq<Byte>>)
    returns (all: seq<seq<Byte>>)
    requires payloads != [] && payloads[1..] == got + left
    ensures payloads == all + left
    ensures packets + [Frame(mode, payloads[0])] + FramesOf(mode, got) == packets + FramesOf(mode, all)
  {
    all := [payloads[0]] + got;
    assert payloads == [payloads[0]] + payloads[1..];
    assert [Frame(mode, payloads[0])] + FramesOf(mode, got) == FramesOf(mode, all);
  }

  lemma NothingLeft(mode: DataMode, left: seq<Segment>, buf: seq<Byte>)
    requires Clean(left) && buf + [] == Wire(mode, left) && Scan(mode, buf, []).Wait?
    ensures Payloads(left) == [] && |Scan(mode, buf, []).rest| < MIN_SIZE
  {
    NeverWraps(mode, left, buf, []);
    var after := ReadStep(mode, left, buf, []);
  }

  /** Independence of the cutting: however a clean stream is cut into appends and interleaved with
      reads none of which the guard should have held back, the packets read so far are the frames of
      the first payloads, in order. Once the whole stream is there and a read finds nothing, all of
      them have come out and at most three bytes are left. */
  lemma ChunkingDoesNotMatter(mode: DataMode, segs: seq<Segment>, ops: seq<Op>, later: seq<Byte>)
    requires Clean(segs) && Arrived(ops) + later == Wire(mode, segs) && SafeRun(mode, Channel([], []), ops)
    ensures var end := RunOps(mode, Channel([], []), ops);
      && |end.packets| <= |Payloads(segs)|
      && end.packets == FramesOf(mode, Payloads(segs)[..|end.packets|])
      && (later == [] && Scan(mode, end.buf, []).Wait? ==>
            end.packets == FramesOf(mode, Payloads(segs)) && |Scan(mode, end.buf, []).rest| < MIN_SIZE)
  {
    var start := Channel([], []);
    assert [] + Arrived(ops) + later == Arrived(ops) + later;
    var left, got := RunFrom(mode, segs, start, ops, later);
    var end := RunOps(mode, start, ops);
    FirstPayloads(mode, Payloads(segs), got, Payloads(left), end.packets);
    if later == [] && Scan(mode, end.buf, []).Wait? {
      NothingLeft(mode, left, end.buf);
    }
  }

  lemma FirstPayloads(mode: DataMode, all: seq<seq<Byte>>, got: seq<seq<Byte>>, left: seq<seq<Byte>>,
      packets: seq<seq<Byte>>)
    requires all == got + left && packets == [] + FramesOf(mode, got)
    ensures |packets| <= |all| && packets == FramesOf(mode, all[..|packets|])
    ensures left == [] ==> packets == FramesOf(mode, all)
  {
    assert packets == FramesOf(mode, got) && all[..|got|] == got;
    if left == [] { assert got + [] == got; }
  }

  /** Every reading of a stream of small payloads is safe. */
  lemma {:induction false} SmallIsSafe(mode: DataMode, segs: seq<Segment>, ch: Channel, ops: seq<Op>, later: seq<Byte>)
    requires Clean(segs) && Small(segs) && ch.buf + Arrived(ops) + later == Wire(mode, segs)
    ensures SafeRun(mode, ch, ops)
    decreases |ops|
  {
    if ops != [] {
      var next, coming := Next(mode, ch, ops[0]), Arrived(ops[1..]);
      match ops[0] {
        case Append(chunk) =>
          Arrive(ch.buf, chunk, coming, later);
          SmallIsSafe(mode, segs, next, ops[1..], later);
        case Read =>
          assert [] + coming == coming;
          Regroup(ch.buf, coming, later);
          NeverWraps(mode, segs, ch.buf, coming + later);
          var after := ReadStep(mode, segs, ch.buf, coming + later);
          Regroup(next.buf, coming, later);
          SmallIsSafe(mode, after, next, ops[1..], later);
      }
    }
  }
}
