/** The classes of ae/list_buffer.cpp and ae/packet.cpp. */
module PacketReader {
  import opened NumberCodec
  import opened PacketStream
  import opened PacketChannel
  import opened PacketLoss
  import opened PacketPieces

  /** A FIFO of bytes, not thread safe. */
  class ListBuffer {
    var buffer: seq<Byte>

    constructor ()
      ensures buffer == []
    {
      buffer := [];
    }

    method Append(data: seq<Byte>)
      modifies this
      ensures buffer == old(buffer) + data
    {
      for i := 0 to |data|
        invariant buffer == old(buffer) + data[..i]
      {
        buffer := buffer + [data[i]];
      }
      assert data[..|data|] == data;
    }

    /** Appends the first `n` bytes to `data` without consuming them, or fails and leaves `data`. */
    method ReadBufferN(data: seq<Byte>, n: nat) returns (rc: int, data': seq<Byte>)
      ensures if n > |buffer| then rc == -1 && data' == data else rc == 0 && data' == data + buffer[..n]
    {
      data' := data;
      if n > |buffer| {
        return -1, data';
      }
      for i := 0 to n
        invariant data' == data + buffer[..i]
      {
        data' := data' + [buffer[i]];
      }
      rc := 0;
    }

    method ReadSize() returns (size: nat)
      ensures size == |buffer|
    {
      size := |buffer|;
    }

    /** Removes `n` bytes, or all there are. */
    method ClearBufferN(n: nat)
      modifies this
      ensures buffer == old(buffer)[Min(n, |old(buffer)|)..]
    {
      for i := 0 to n
        invariant buffer == old(buffer)[Min(i, |old(buffer)|)..]
      {
        if |buffer| == 0 {
          break;
        }
        buffer := buffer[1..];
      }
    }
  }

  /** A framed packet. The data mode, a static variable of the source, is passed in. */
  class Packet {
    var buffer: array<Byte>
    var dataSize: nat

    constructor ()
      ensures fresh(buffer) && buffer.Length == 0 && dataSize == 0
    {
      buffer := new Byte[0];
      dataSize := 0;
    }

    /** The string is resized, and then overwritten in place. */
    method Pack(mode: DataMode, data: seq<Byte>)
      requires |data| < SIZE_LIMIT
      modifies this
      ensures fresh(buffer) && buffer[..] == Frame(mode, data) && dataSize == |data|
    {
      dataSize := |data|;
      var str := new Byte[|data| + MIN_SIZE];
      str[0] := HEAD_BYTE;
      PackNum(mode, str, 1, 2, |data|);
      assert str[..3] == [HEAD_BYTE] + Encode(mode, 2, |data|);
      for i := 0 to |data|
        invariant dataSize == |data|
        invariant str[..3 + i] == [HEAD_BYTE] + Encode(mode, 2, |data|) + data[..i]
      {
        str[3 + i] := data[i];
        assert str[..3 + (i + 1)] == str[..3 + i] + [data[i]];
      }
      str[|data| + 3] := END_BYTE;
      assert data[..|data|] == data;
      assert str[..] == str[..|data| + 3] + [END_BYTE];
      buffer := str;
    }

    /** Takes over the string; the size is cut to 16 bits. */
    method Swap(str: array<Byte>) returns (previous: array<Byte>)
      modifies this
      ensures buffer == str && previous == old(buffer)
      ensures dataSize == (str.Length - MIN_SIZE) % SIZE_LIMIT
    {
      previous := buffer;
      buffer := str;
      dataSize := (buffer.Length - MIN_SIZE) % SIZE_LIMIT;
    }

    /** The `dataSize` bytes behind the header. */
    method GetData() returns (data: seq<Byte>)
      requires dataSize + 3 <= buffer.Length
      ensures data == buffer[3..3 + dataSize]
    {
      data := buffer[3..3 + dataSize];
    }

    /** Reads one packet, or returns -1 and leaves `out` as it was. */
    static method ReadFromBuffer(mode: DataMode, source: ListBuffer, out: Packet) returns (rc: int)
      modifies source, out
      ensures var r := Scan(mode, old(source.buffer), []);
        && source.buffer == r.rest && rc == (if r.Packet? then 0 else -1)
        && (r.Packet? ==> out.Holds(r.data))
      ensures rc == -1 ==> out.buffer == old(out.buffer) && out.dataSize == old(out.dataSize)
    {
      var data;
      rc, data := ReadBytes(mode, source);
      if rc == 0 {
        var str := new Byte[|data|](i requires 0 <= i < |data| => data[i]);
        assert str[..] == data;
        var previous := out.Swap(str);
      }
    }

    ghost predicate Holds(data: seq<Byte>)
      reads this, buffer
    {
      buffer[..] == data && dataSize == (|data| - MIN_SIZE) % SIZE_LIMIT
    }

    /** The loop of the reader. */
    static method ReadBytes(mode: DataMode, source: ListBuffer) returns (rc: int, data: seq<Byte>)
      modifies source
      ensures var r := Scan(mode, old(source.buffer), []);
        && source.buffer == r.rest && rc == (if r.Packet? then 0 else -1) && (r.Packet? ==> data == r.data)
    {
      rc, data := -1, [];
      while true
        invariant Scan(mode, source.buffer, data) == Scan(mode, old(source.buffer), [])
        invariant rc == -1
        decreases |source.buffer|
      {
        ghost var rest, inHand := source.buffer, data;
        var size := source.ReadSize();
        if size < MIN_SIZE {
          return;
        }
        var ignored;
        ignored, data := source.ReadBufferN(data, 3);
        if data[0] != HEAD_BYTE {
          SkipStep(mode, rest, inHand);
          data := [];
          source.ClearBufferN(1);
          continue;
        }
        var dataSize := UnpackNum(mode, data[1..3]);
        SizeFieldIsDecode(mode, data);
        var msgsize := (dataSize + MIN_SIZE) % SIZE_LIMIT;
        Cut16IsRemainder(dataSize + MIN_SIZE);
        if size < msgsize {
          return;
        }
        Iteration(mode, rest, inHand, data, dataSize);
        var found;
        found, data := ReadBody(source, data, dataSize);
        if found {
          return 0, data;
        }
      }
    }

    /** The end of an iteration: the header is consumed, and the payload too if the end byte is right. */
    static method ReadBody(source: ListBuffer, header: seq<Byte>, dataSize: nat) returns (found: bool, data: seq<Byte>)
      requires |header| >= 3 && |source.buffer| >= 3
      modifies source
      ensures data == Window(header, old(source.buffer)[3..], dataSize)
      ensures found <==> data[|data| - 1] == END_BYTE
      ensures var after := old(source.buffer)[3..];
        source.buffer == if found then after[Min(dataSize + 1, |after|)..] else after
    {
      var ignored;
      source.ClearBufferN(3);
      ignored, data := source.ReadBufferN(header, dataSize + 1);
      found := data[|data| - 1] == END_BYTE;
      if found {
        source.ClearBufferN(dataSize + 1);
      }
    }
  }

  /** What `GetData` finds in a packet. */
  function Content(packet: seq<Byte>): seq<Byte> {
    if |packet| < MIN_SIZE then [] else packet[3..3 + (|packet| - MIN_SIZE) % SIZE_LIMIT]
  }

  function Contents(packets: seq<seq<Byte>>): (payloads: seq<seq<Byte>>)
    ensures |payloads| == |packets|
    ensures forall i :: 0 <= i < |payloads| ==> payloads[i] == Content(packets[i])
  {
    seq(|packets|, i requires 0 <= i < |packets| => Content(packets[i]))
  }

  lemma ContentOfFrame(mode: DataMode, p: seq<Byte>)
    requires |p| < SIZE_LIMIT
    ensures Content(Frame(mode, p)) == p
  {
    SmallMod(|p|, SIZE_LIMIT);
  }

  lemma ContentsOfFrames(mode: DataMode, segs: seq<Segment>)
    requires Clean(segs)
    ensures Contents(FramesOf(mode, Payloads(segs))) == Payloads(segs)
  {
    var payloads := Payloads(segs);
    PayloadsFit(segs);
    forall i | 0 <= i < |payloads| ensures Content(FramesOf(mode, payloads)[i]) == payloads[i] {
      ContentOfFrame(mode, payloads[i]);
    }
  }

  lemma ContentsSnoc(packets: seq<seq<Byte>>, packet: seq<Byte>)
    ensures Contents(packets + [packet]) == Contents(packets) + [Content(packet)]
  {}

  /** Reads once, on any bytes whatever. */
  method ReadNext(mode: DataMode, source: ListBuffer, out: Packet)
    returns (rc: int, packet: seq<Byte>, payload: seq<Byte>)
    modifies source, out
    ensures var r := Scan(mode, old(source.buffer), []);
      && source.buffer == r.rest && |r.rest| <= |old(source.buffer)| && rc == (if r.Packet? then 0 else -1)
      && (r.Packet? ==> packet == r.data && payload == Content(r.data) && |r.rest| < |old(source.buffer)|)
  {
    RestIsSuffix(mode, source.buffer, []);
    ghost var r := Scan(mode, source.buffer, []);
    PacketIsLong(mode, source.buffer, []);
    rc := Packet.ReadFromBuffer(mode, source, out);
    packet, payload := [], [];
    if rc == 0 {
      assert out.Holds(r.data);
      packet := out.buffer[..];
      payload := out.GetData();
    }
  }

  /** One packet from `Pack` to `GetData`: the payload comes back, whatever its size and whatever
      arrived behind it. */
  method SendOne(mode: DataMode, data: seq<Byte>, more: seq<Byte>)
    returns (rc: int, payload: seq<Byte>, rest: seq<Byte>)
    requires |data| < SIZE_LIMIT
    ensures rc == 0 && payload == data && rest == more
  {
    var packet := new Packet();
    var out := new Packet();
    packet.Pack(mode, data);
    var source := new ListBuffer();
    source.Append(packet.buffer[..]);
    source.Append(more);
    assert source.buffer == Frame(mode, data) + more;
    FrameIsRead(mode, data, more);
    ContentOfFrame(mode, data);
    var same;
    rc, same, payload := ReadNext(mode, source, out);
    rest := source.buffer;
  }

  /** Reads until nothing comes out, behind the packets there are already. */
  method Drain(mode: DataMode, source: ListBuffer, out: Packet, before: seq<seq<Byte>>)
    returns (packets: seq<seq<Byte>>, payloads: seq<seq<Byte>>)
    modifies source, out
    ensures Channel(source.buffer, packets) == Drained(mode, Channel(old(source.buffer), before))
    ensures before <= packets && payloads == Contents(packets[|before|..])
  {
    packets, payloads := before, [];
    var rc := 0;
    while rc == 0
      invariant before <= packets && payloads == Contents(packets[|before|..])
      invariant var ch := Channel(source.buffer, packets);
        (if rc == 0 then Drained(mode, ch) else ch) == Drained(mode, Channel(old(source.buffer), before))
      decreases rc == 0, |source.buffer|
    {
      var packet, payload;
      rc, packet, payload := ReadNext(mode, source, out);
      if rc == 0 {
        ContentsSnoc(packets[|before|..], packet);
        assert (packets + [packet])[|before|..] == packets[|before|..] + [packet];
        packets, payloads := packets + [packet], payloads + [payload];
      }
    }
  }

  /** Receives a clean stream in pieces, reading after each of them until nothing comes out: exactly
      the frames sent come out if and only if no piece ends where the size of an incomplete frame
      wraps. Small payloads are received however the stream is cut. */
  method Receive(mode: DataMode, chunks: seq<seq<Byte>>, ghost segs: seq<Segment>)
    returns (packets: seq<seq<Byte>>, payloads: seq<seq<Byte>>)
    requires Clean(segs) && Flatten(chunks) == Wire(mode, segs)
    ensures packets == FramesOf(mode, Payloads(segs)) <==> SafeChunks(mode, Channel([], []), chunks)
    ensures SafeChunks(mode, Channel([], []), chunks) || Small(segs) ==> payloads == Payloads(segs)
  {
    packets, payloads := ReceiveAll(mode, chunks);
    ReceivedExact(mode, segs, chunks);
    ContentsOfFrames(mode, segs);
    if Small(segs) {
      assert [] + Flatten(chunks) == Flatten(chunks);
      SmallChunksAreSafe(mode, segs, Channel([], []), chunks);
    }
  }

  /** The loop of it, on any pieces whatever. */
  method ReceiveAll(mode: DataMode, chunks: seq<seq<Byte>>)
    returns (packets: seq<seq<Byte>>, payloads: seq<seq<Byte>>)
    ensures packets == Received(mode, Channel([], []), chunks).packets && payloads == Contents(packets)
  {
    var source := new ListBuffer();
    var out := new Packet();
    packets, payloads := [], [];
    assert chunks[0..] == chunks;
    for n := 0 to |chunks|
      invariant fresh(source) && fresh(out) && payloads == Contents(packets)
      invariant Received(mode, Channel(source.buffer, packets), chunks[n..])
        == Received(mode, Channel([], []), chunks)
    {
      assert chunks[n..][1..] == chunks[n + 1..];
      ghost var before := packets;
      var got;
      source.Append(chunks[n]);
      packets, got := Drain(mode, source, out, packets);
      ContentsConcat(before, packets[|before|..]);
      assert packets == before + packets[|before|..];
      payloads := payloads + got;
    }
    assert chunks[|chunks|..] == [];
  }

  lemma ContentsConcat(a: seq<seq<Byte>>, b: seq<seq<Byte>>)
    ensures Contents(a + b) == Contents(a) + Contents(b)
  {}
}
