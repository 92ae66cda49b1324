/** The packet reader and writer of ae/packet.cpp over the FIFO byte buffer of
    ae/list_buffer.cpp.

    A frame is a head byte, a two-byte payload size, the payload and an end byte. The reader
    resynchronises by skipping bytes up to a head byte; when the end byte is wrong it goes round
    with the bytes read so far still in hand, so that rejected windows pile up. */
module PacketStream {
  import opened NumberCodec

  const HEAD_BYTE: Byte := 0x7e
  const END_BYTE: Byte := 0xe7
  const MIN_SIZE: nat := 4

  /** Sizes are kept in 16 bits. */
  const SIZE_LIMIT: nat := 0x1_0000

  /** A sum kept in 16 bits: what wraps starts again from zero. */
  function Cut16(n: nat): (r: nat)
    ensures r <= n && r < SIZE_LIMIT
  {
    if n < SIZE_LIMIT then n else Cut16(n - SIZE_LIMIT)
  }

  lemma {:induction false} Cut16IsRemainder(n: nat)
    ensures Cut16(n) == n % SIZE_LIMIT
  {
    if n >= SIZE_LIMIT { Cut16IsRemainder(n - SIZE_LIMIT); }
  }

  function Min(a: nat, b: nat): nat {
    if a < b then a else b
  }

  /** The bytes `pack` produces. */
  function Frame(mode: DataMode, payload: seq<Byte>): (frame: seq<Byte>)
    ensures |frame| == |payload| + MIN_SIZE
  {
    [HEAD_BYTE] + Encode(mode, 2, |payload|) + payload + [END_BYTE]
  }

  /** The two bytes behind the head byte, as the number they stand for. */
  function SizeField(mode: DataMode, header: seq<Byte>): (size: nat)
    requires |header| >= 3
    ensures size < SIZE_LIMIT
  {
    var first: nat, second: nat := header[1], header[2];
    if mode.BigEndian? then first * 256 + second else second * 256 + first
  }

  lemma SizeFieldIsDecode(mode: DataMode, header: seq<Byte>)
    requires |header| >= 3
    ensures SizeField(mode, header) == Decode(mode, header[1..3])
  {
    var field := header[1..3];
    var one := if mode.BigEndian? then field[..1] else field[1..];
    assert one == [if mode.BigEndian? then header[1] else header[2]];
    assert one[..0] == one[1..] == [];
    assert Decode(mode, one) == one[0];
  }

  // ---------- The reader as a function of the buffered bytes ----------

  /** How a read ends: with nothing, waiting for more bytes, or with a packet. `rest` is what the
      buffer still holds. `stale` is what the reader had in hand when its last iteration began:
      it is not empty exactly when an end byte was rejected. */
  datatype Outcome = Wait(rest: seq<Byte>, stale: seq<Byte>) | Packet(rest: seq<Byte>, data: seq<Byte>)

  /** What the end-byte check looks at: the header in hand and, if they are all there, the
      `size + 1` bytes that follow it. A short buffer leaves the string as it was. */
  function Window(header: seq<Byte>, after: seq<Byte>, size: nat): seq<Byte> {
    if size + 1 <= |after| then header + after[..size + 1] else header
  }

  /** One `read_from_buffer` with `rest` buffered and `data` in hand. */
  function Scan(mode: DataMode, rest: seq<Byte>, data: seq<Byte>): (r: Outcome)
    decreases |rest|
  {
    if |rest| < MIN_SIZE then Wait(rest, data)
    else
      var header := data + rest[..3];
      if header[0] != HEAD_BYTE then Scan(mode, rest[1..], [])
      else
        var size := SizeField(mode, header);
        if |rest| < Cut16(size + MIN_SIZE) then Wait(rest, data)
        else
          var window := Window(header, rest[3..], size);
          if window[|window| - 1] == END_BYTE then Packet(rest[3..][Min(size + 1, |rest| - 3)..], window)
          else Scan(mode, rest[3..], window)
  }

  lemma SkipStep(mode: DataMode, rest: seq<Byte>, data: seq<Byte>)
    requires MIN_SIZE <= |rest| && (data + rest[..3])[0] != HEAD_BYTE
    ensures Scan(mode, rest, data) == Scan(mode, rest[1..], [])
  {}

  lemma Iteration(mode: DataMode, rest: seq<Byte>, data: seq<Byte>, header: seq<Byte>, len: nat)
    requires MIN_SIZE <= |rest| && Cut16(len + MIN_SIZE) <= |rest| && header == data + rest[..3]
    requires header[0] == HEAD_BYTE && len == SizeField(mode, header)
    ensures var window := Window(header, rest[3..], len);
      Scan(mode, rest, data) ==
        if window[|window| - 1] == END_BYTE then Packet(rest[3..][Min(len + 1, |rest| - 3)..], window)
        else Scan(mode, rest[3..], window)
  {}

  ghost predicate Suffix(part: seq<Byte>, whole: seq<Byte>) {
    |part| <= |whole| && part == whole[|whole| - |part|..]
  }

  lemma DropDrop(buf: seq<Byte>, i: nat, j: nat)
    requires i + j <= |buf|
    ensures buf[i..][j..] == buf[i + j..]
  {}

  /** A read has consumed the first `n` bytes. */
  ghost predicate Consumes(r: Outcome, rest: seq<Byte>, n: nat) {
    n <= |rest| && r.rest == rest[n..] && (r.Packet? ==> n >= MIN_SIZE)
  }

  lemma ConsumesMore(r: Outcome, rest: seq<Byte>, i: nat, n: nat)
    requires i <= |rest| && Consumes(r, rest[i..], n)
    ensures Consumes(r, rest, i + n)
  {
    DropDrop(rest, i, n);
  }

  lemma {:induction false} RestAt(mode: DataMode, rest: seq<Byte>, data: seq<Byte>) returns (n: nat)
    ensures Consumes(Scan(mode, rest, data), rest, n)
    decreases |rest|, 1
  {
    n := 0;
    if |rest| >= MIN_SIZE {
      var header := data + rest[..3];
      if header[0] != HEAD_BYTE {
        SkipStep(mode, rest, data);
        n := RestAt(mode, rest[1..], []);
        ConsumesMore(Scan(mode, rest[1..], []), rest, 1, n);
        n := n + 1;
      } else {
        n := RestAtHeader(mode, rest, data, header, SizeField(mode, header));
      }
    }
  }

  lemma {:induction false} RestAtHeader(mode: DataMode, rest: seq<Byte>, data: seq<Byte>, header: seq<Byte>, size: nat)
    returns (n: nat)
    requires |rest| >= MIN_SIZE && header == data + rest[..3]
    requires header[0] == HEAD_BYTE && size == SizeField(mode, header)
    ensures Consumes(Scan(mode, rest, data), rest, n)
    decreases |rest|, 0
  {
    n := 0;
    if Cut16(size + MIN_SIZE) <= |rest| {
      var window := Window(header, rest[3..], size);
      Iteration(mode, rest, data, header, size);
      n := Min(size + 1, |rest| - 3);
      if window[|window| - 1] == END_BYTE {
        DropDrop(rest, 3, n);
      } else {
        n := RestAt(mode, rest[3..], window);
        ConsumesMore(Scan(mode, rest[3..], window), rest, 3, n);
      }
      n := n + 3;
    }
  }

  /** On every byte sequence, wrapped lengths included, a read leaves a suffix of the buffer, and
      a packet costs at least four bytes. */
  lemma RestIsSuffix(mode: DataMode, rest: seq<Byte>, data: seq<Byte>)
    ensures var r := Scan(mode, rest, data);
      Suffix(r.rest, rest) && (r.Packet? ==> |r.rest| + MIN_SIZE <= |rest|)
  {
    var n := RestAt(mode, rest, data);
  }

  /** Three bytes alone do not end with an end byte if they wrap. */
  lemma EndedIsLong(mode: DataMode, header: seq<Byte>, after: seq<Byte>, size: nat)
    requires |header| == 3 || |header| >= 6
    requires |header| >= 3 && size == SizeField(mode, header) && Cut16(size + MIN_SIZE) <= |after| + 3
    ensures var window := Window(header, after, size);
      |window| >= 3 && (window[|window| - 1] == END_BYTE ==> |window| >= MIN_SIZE)
  {}

  /** A packet has at least four bytes, wrapped lengths included: the size of its payload does not
      fall below zero. */
  lemma {:induction false} PacketIsLong(mode: DataMode, rest: seq<Byte>, data: seq<Byte>)
    requires data == [] || |data| >= 3
    ensures var r := Scan(mode, rest, data); r.Packet? ==> |r.data| >= MIN_SIZE
    decreases |rest|, 1
  {
    if |rest| >= MIN_SIZE {
      var header := data + rest[..3];
      if header[0] != HEAD_BYTE {
        SkipStep(mode, rest, data);
        PacketIsLong(mode, rest[1..], []);
      } else {
        LongAtHeader(mode, rest, data, header, SizeField(mode, header));
      }
    }
  }

  lemma {:induction false} LongAtHeader(mode: DataMode, rest: seq<Byte>, data: seq<Byte>, header: seq<Byte>, size: nat)
    requires data == [] || |data| >= 3
    requires |rest| >= MIN_SIZE && header == data + rest[..3]
    requires header[0] == HEAD_BYTE && size == SizeField(mode, header)
    ensures var r := Scan(mode, rest, data); r.Packet? ==> |r.data| >= MIN_SIZE
    decreases |rest|, 0
  {
    if Cut16(size + MIN_SIZE) <= |rest| {
      var window := Window(header, rest[3..], size);
      Iteration(mode, rest, data, header, size);
      EndedIsLong(mode, header, rest[3..], size);
      PacketIsLong(mode, rest[3..], window);
    }
  }

  // ---------- Skipping, and the windows that follow a head byte ----------

  /** How many bytes are skipped before a head byte is found or fewer than four are left. */
  function Skipped(buf: seq<Byte>): (s: nat)
    ensures s <= |buf|
  {
    if |buf| < MIN_SIZE || buf[0] == HEAD_BYTE then 0 else 1 + Skipped(buf[1..])
  }

  lemma {:induction false} SkippedMeaning(buf: seq<Byte>)
    ensures var s := Skipped(buf);
      && s <= |buf| && (forall i :: 0 <= i < s ==> buf[i] != HEAD_BYTE)
      && (MIN_SIZE <= |buf| - s ==> buf[s] == HEAD_BYTE)
  {
    if |buf| >= MIN_SIZE && buf[0] != HEAD_BYTE {
      SkippedMeaning(buf[1..]);
      forall i | 0 <= i < Skipped(buf) ensures buf[i] != HEAD_BYTE {
        if i > 0 { assert buf[i] == buf[1..][i - 1]; }
      }
    }
  }

  lemma {:induction false} ScanSkips(mode: DataMode, buf: seq<Byte>)
    ensures var s := Skipped(buf); s <= |buf| && Scan(mode, buf, []) == Scan(mode, buf[s..], [])
  {
    if |buf| >= MIN_SIZE && buf[0] != HEAD_BYTE {
      ScanSkips(mode, buf[1..]);
      assert buf[1..][Skipped(buf[1..])..] == buf[Skipped(buf)..];
    } else {
      assert buf[0..] == buf;
    }
  }

  /** How many windows are rejected: windows of `len + 4` bytes start 3 bytes apart, and the first
      incomplete or well ended one stops the reader. */
  function Rejected(rest: seq<Byte>, len: nat): (k: nat)
    ensures 3 * k <= |rest|
    decreases |rest|
  {
    if |rest| < len + MIN_SIZE || rest[len + 3] == END_BYTE then 0 else 1 + Rejected(rest[3..], len)
  }

  lemma {:induction false} RejectedMeaning(rest: seq<Byte>, len: nat)
    ensures var k := Rejected(rest, len);
      && 3 * k <= |rest|
      && (forall j :: 0 <= j < k ==> 3 * j + len + MIN_SIZE <= |rest| && rest[3 * j + len + 3] != END_BYTE)
      && (3 * k + len + MIN_SIZE <= |rest| ==> rest[3 * k + len + 3] == END_BYTE)
    decreases |rest|
  {
    if len + MIN_SIZE <= |rest| && rest[len + 3] != END_BYTE {
      var k := Rejected(rest, len);
      RejectedMeaning(rest[3..], len);
      forall j | 0 <= j < k
        ensures 3 * j + len + MIN_SIZE <= |rest| && rest[3 * j + len + 3] != END_BYTE
      {
        if j > 0 {
          assert 3 * (j - 1) + len + MIN_SIZE <= |rest[3..]|;
          assert rest[3 * j + len + 3] == rest[3..][3 * (j - 1) + len + 3];
        }
      }
    }
  }

  /** The windows of `rest`, one after the other, up to the first well ended one if there is one. */
  function Windows(rest: seq<Byte>, len: nat): seq<Byte>
    decreases |rest|
  {
    if |rest| < len + MIN_SIZE then []
    else if rest[len + 3] == END_BYTE then rest[..len + MIN_SIZE]
    else rest[..len + MIN_SIZE] + Windows(rest[3..], len)
  }

  /** Some window is well ended, so that there is a packet. */
  predicate HasEnd(rest: seq<Byte>, len: nat) {
    3 * Rejected(rest, len) + len + MIN_SIZE <= |rest|
  }

  /** `j` times `n`. */
  function Times(j: nat, n: nat): nat {
    if j == 0 then 0 else Times(j - 1, n) + n
  }

  lemma {:induction false} TimesIsProduct(j: nat, n: nat)
    ensures Times(j, n) == j * n
  {
    if j > 0 { TimesIsProduct(j - 1, n); }
  }

  lemma ConcatSlice(a: seq<Byte>, b: seq<Byte>, i: nat, m: nat)
    requires i + m <= |b|
    ensures (a + b)[|a| + i..|a| + i + m] == b[i..i + m]
  {}

  lemma DropSlice(buf: seq<Byte>, s: nat, i: nat, j: nat)
    requires i <= j && s + j <= |buf|
    ensures buf[s..][i..j] == buf[s + i..s + j]
  {}

  /** The `j`-th `n` bytes of `data` are the `n` bytes of `rest` that start at `3 * j`. */
  ghost predicate IsWindow(data: seq<Byte>, rest: seq<Byte>, n: nat, j: nat) {
    var at := Times(j, n);
    at + n <= |data| && 3 * j + n <= |rest| && data[at..at + n] == rest[3 * j..3 * j + n]
  }

  /** With `k` rejected windows there are `k + 1` in all. */
  lemma {:induction false} WindowsLength(rest: seq<Byte>, len: nat)
    requires HasEnd(rest, len)
    ensures |Windows(rest, len)| == Times(Rejected(rest, len) + 1, len + MIN_SIZE)
    decreases |rest|
  {
    if rest[len + 3] != END_BYTE { WindowsLength(rest[3..], len); }
  }

  lemma NextWindow(first: seq<Byte>, tail: seq<Byte>, rest: seq<Byte>, n: nat, j: nat)
    requires j > 0 && |first| == n && 3 <= |rest| && IsWindow(tail, rest[3..], n, j - 1)
    ensures IsWindow(first + tail, rest, n, j)
  {
    ConcatSlice(first, tail, Times(j - 1, n), n);
    DropSlice(rest, 3, 3 * (j - 1), 3 * (j - 1) + n);
  }

  /** The `j`-th window starts `3 * j` bytes after the first. */
  lemma {:induction false} WindowAt(rest: seq<Byte>, len: nat, j: nat)
    requires HasEnd(rest, len) && j <= Rejected(rest, len)
    ensures IsWindow(Windows(rest, len), rest, len + MIN_SIZE, j)
    decreases |rest|
  {
    if j > 0 {
      WindowAt(rest[3..], len, j - 1);
      NextWindow(rest[..len + MIN_SIZE], Windows(rest[3..], len), rest, len + MIN_SIZE, j);
    } else {
      FirstWindowAt(rest, len);
    }
  }

  lemma FirstWindowAt(rest: seq<Byte>, len: nat)
    requires len + MIN_SIZE <= |rest|
    ensures |Windows(rest, len)| >= len + MIN_SIZE && Windows(rest, len)[..len + MIN_SIZE] == rest[..len + MIN_SIZE]
  {}

  /** They end with an end byte. */
  lemma {:induction false} WindowsEnd(rest: seq<Byte>, len: nat)
    requires HasEnd(rest, len)
    ensures Windows(rest, len) != [] && Windows(rest, len)[|Windows(rest, len)| - 1] == END_BYTE
    decreases |rest|
  {
    if rest[len + 3] != END_BYTE { WindowsEnd(rest[3..], len); }
  }

  /** `len` is the size field of the header in hand, or of the one at the front of the buffer. */
  predicate HeaderSays(mode: DataMode, rest: seq<Byte>, data: seq<Byte>, len: nat) {
    var header := if |data| >= 3 then data else rest;
    && (data == [] || |data| >= 3) && |header| >= 3
    && header[0] == HEAD_BYTE && len == SizeField(mode, header)
  }

  /** What a read that stands at a head byte amounts to. */
  function Windowed(rest: seq<Byte>, data: seq<Byte>, len: nat): Outcome {
    var k := Rejected(rest, len);
    if HasEnd(rest, len) then Packet(rest[3 * k + len + MIN_SIZE..], data + Windows(rest, len))
    else Wait(rest[3 * k..], data + Windows(rest, len))
  }

  lemma HeaderKept(rest: seq<Byte>, data: seq<Byte>, n: nat)
    requires (data == [] || |data| >= 3) && 3 <= n <= |rest|
    ensures (data + rest[..n])[0] == (if |data| >= 3 then data else rest)[0]
    ensures (data + rest[..n])[1] == (if |data| >= 3 then data else rest)[1]
    ensures (data + rest[..n])[2] == (if |data| >= 3 then data else rest)[2]
  {}

  lemma WindowBytes(rest: seq<Byte>, data: seq<Byte>, len: nat, header: seq<Byte>, window: seq<Byte>)
    requires len + MIN_SIZE <= |rest| && header == data + rest[..3] && window == data + rest[..len + MIN_SIZE]
    ensures Window(header, rest[3..], len) == window && window != [] && window[|window| - 1] == rest[len + 3]
    ensures rest[3..][Min(len + 1, |rest| - 3)..] == rest[len + MIN_SIZE..]
  {}

  lemma ScanWaits(mode: DataMode, rest: seq<Byte>, data: seq<Byte>, len: nat)
    requires HeaderSays(mode, rest, data, len) && len + MIN_SIZE < SIZE_LIMIT && |rest| < len + MIN_SIZE
    ensures Scan(mode, rest, data) == Wait(rest, data)
  {
    if |rest| >= MIN_SIZE { HeaderKept(rest, data, 3); }
  }

  lemma CompleteWindow(
      mode: DataMode, rest: seq<Byte>, data: seq<Byte>, len: nat,
      header: seq<Byte>, window: seq<Byte>, after: seq<Byte>)
    requires len + MIN_SIZE <= |rest| && header == data + rest[..3]
    requires header[0] == HEAD_BYTE && len == SizeField(mode, header)
    requires window == data + rest[..len + MIN_SIZE] && after == rest[len + MIN_SIZE..]
    ensures Scan(mode, rest, data) ==
        if rest[len + 3] == END_BYTE then Packet(after, window) else Scan(mode, rest[3..], window)
  {
    WindowBytes(rest, data, len, header, window);
    Iteration(mode, rest, data, header, len);
  }

  /** One iteration on a complete window, whatever its size. */
  lemma ScanStep(mode: DataMode, rest: seq<Byte>, data: seq<Byte>, len: nat)
    requires HeaderSays(mode, rest, data, len) && len + MIN_SIZE <= |rest|
    ensures var window := data + rest[..len + MIN_SIZE];
      Scan(mode, rest, data) ==
        if rest[len + 3] == END_BYTE then Packet(rest[len + MIN_SIZE..], window)
        else Scan(mode, rest[3..], window)
  {
    HeaderKept(rest, data, 3);
    CompleteWindow(mode, rest, data, len, data + rest[..3], data + rest[..len + MIN_SIZE], rest[len + MIN_SIZE..]);
  }

  /** Reading from a head byte: exact for every size that does not wrap, and for any size as soon
      as a well ended window is complete. */
  lemma {:induction false} ScanFromHeader(mode: DataMode, rest: seq<Byte>, data: seq<Byte>, len: nat)
    requires HeaderSays(mode, rest, data, len)
    requires len + MIN_SIZE < SIZE_LIMIT || HasEnd(rest, len)
    ensures Scan(mode, rest, data) == Windowed(rest, data, len)
    decreases |rest|
  {
    if |rest| < len + MIN_SIZE {
      ScanWaits(mode, rest, data, len);
      NoWindow(rest, data, len);
    } else {
      ScanStep(mode, rest, data, len);
      if rest[len + 3] == END_BYTE {
        FirstWindow(rest, data, len);
      } else {
        HeaderKept(rest, data, len + MIN_SIZE);
        ScanFromHeader(mode, rest[3..], data + rest[..len + MIN_SIZE], len);
        WindowedStep(rest, data, len);
      }
    }
  }

  lemma NoWindow(rest: seq<Byte>, data: seq<Byte>, len: nat)
    requires |rest| < len + MIN_SIZE
    ensures Windowed(rest, data, len) == Wait(rest, data)
  {
    assert rest[0..] == rest && data + [] == data;
  }

  lemma FirstWindow(rest: seq<Byte>, data: seq<Byte>, len: nat)
    requires len + MIN_SIZE <= |rest| && rest[len + 3] == END_BYTE
    ensures Windowed(rest, data, len) == Packet(rest[len + MIN_SIZE..], data + rest[..len + MIN_SIZE])
  {}

  lemma Regroup(a: seq<Byte>, b: seq<Byte>, c: seq<Byte>)
    ensures a + (b + c) == a + b + c
  {}

  lemma WindowedStep(rest: seq<Byte>, data: seq<Byte>, len: nat)
    requires len + MIN_SIZE <= |rest| && rest[len + 3] != END_BYTE
    ensures Windowed(rest, data, len) == Windowed(rest[3..], data + rest[..len + MIN_SIZE], len)
  {
    var k := Rejected(rest[3..], len);
    Regroup(data, rest[..len + MIN_SIZE], Windows(rest[3..], len));
    if HasEnd(rest[3..], len) {
      DropDrop(rest, 3, 3 * k + len + MIN_SIZE);
    } else {
      DropDrop(rest, 3, 3 * k);
    }
  }

  lemma AtHeader(mode: DataMode, buf: seq<Byte>, len: nat)
    requires Skipped(buf) + MIN_SIZE <= |buf| && len == SizeField(mode, buf[Skipped(buf)..])
    ensures HeaderSays(mode, buf[Skipped(buf)..], [], len)
    ensures Scan(mode, buf, []) == Scan(mode, buf[Skipped(buf)..], [])
  {
    SkippedMeaning(buf);
    ScanSkips(mode, buf);
  }

  /** The length of `k` windows, and the place of the `j`-th. */
  lemma WindowsLook(rest: seq<Byte>, len: nat, k: nat, j: nat, data: seq<Byte>)
    requires HasEnd(rest, len) && data == Windows(rest, len) && k == Rejected(rest, len) + 1
    ensures |data| == Times(k, len + MIN_SIZE)
    ensures j < k ==> IsWindow(data, rest, len + MIN_SIZE, j)
  {
    WindowsLength(rest, len);
    if j < k { WindowAt(rest, len, j); }
  }

  lemma WindowsEnds(rest: seq<Byte>, len: nat, data: seq<Byte>)
    requires HasEnd(rest, len) && data == Windows(rest, len) && rest[0] == HEAD_BYTE
    ensures data != [] && data[0] == HEAD_BYTE && data[|data| - 1] == END_BYTE
  {
    WindowsEnd(rest, len);
    FirstWindowAt(rest, len);
    assert data[..len + MIN_SIZE][0] == rest[0];
  }

  lemma WindowedPacket(rest: seq<Byte>, len: nat, r: Outcome)
    requires r == Windowed(rest, [], len) && r.Packet?
    ensures HasEnd(rest, len) && r.data == Windows(rest, len)
    ensures |rest| - |r.rest| == 3 * Rejected(rest, len) + len + MIN_SIZE
  {
    assert [] + Windows(rest, len) == Windows(rest, len);
  }

  /** The window invariant: after `s` skipped bytes a read returns the windows up to the first well
      ended one, or waits at the first incomplete one. With `k - 1` rejected end bytes the packet has
      `k` windows, of which any `j`-th starts `3 * j` bytes behind the first; it begins with a head
      byte, ends with an end byte, and has cost `s + 3k + len + 1` bytes. */
  lemma ReaderWindows(mode: DataMode, buf: seq<Byte>, len: nat, k: nat, j: nat)
    requires Skipped(buf) + MIN_SIZE <= |buf|
    requires len == SizeField(mode, buf[Skipped(buf)..]) && len + MIN_SIZE < SIZE_LIMIT
    requires k == Rejected(buf[Skipped(buf)..], len) + 1
    ensures var r, s, rest := Scan(mode, buf, []), Skipped(buf), buf[Skipped(buf)..];
      && r == Windowed(rest, [], len)
      && (r.Packet? ==>
            && |buf| - |r.rest| == s + 3 * k + len + 1 && r.data == Windows(rest, len)
            && r.data != [] && r.data[0] == HEAD_BYTE && r.data[|r.data| - 1] == END_BYTE
            && |r.data| == Times(k, len + MIN_SIZE)
            && (j < k ==> IsWindow(r.data, rest, len + MIN_SIZE, j)))
  {
    var rest := buf[Skipped(buf)..];
    AtHeader(mode, buf, len);
    ScanFromHeader(mode, rest, [], len);
    var r := Scan(mode, buf, []);
    if r.Packet? {
      WindowedPacket(rest, len, r);
      WindowsEnds(rest, len, r.data);
      WindowsLook(rest, len, k, j, r.data);
    }
  }

  /** A packet read without a rejected end byte is one well-formed frame. */
  lemma NoRejectionIsOneFrame(mode: DataMode, rest: seq<Byte>, len: nat)
    requires HeaderSays(mode, rest, [], len) && len + MIN_SIZE < SIZE_LIMIT
    requires len + MIN_SIZE <= |rest| && Rejected(rest, len) == 0
    ensures Scan(mode, rest, []) == Packet(rest[len + MIN_SIZE..], Frame(mode, rest[3..3 + len]))
  {
    ScanStep(mode, rest, [], len);
    FrameBytes(mode, rest, len);
    assert [] + rest[..len + MIN_SIZE] == rest[..len + MIN_SIZE];
  }

  lemma FrameBytes(mode: DataMode, rest: seq<Byte>, len: nat)
    requires len + MIN_SIZE <= |rest| && rest[0] == HEAD_BYTE && rest[len + 3] == END_BYTE
    requires len == SizeField(mode, rest)
    ensures rest[..len + MIN_SIZE] == Frame(mode, rest[3..3 + len])
  {
    SizeFieldIsDecode(mode, rest);
    EncodeDecode(mode, rest[1..3]);
    TakeSlice(rest, len + MIN_SIZE, 1, 3);
    TakeSlice(rest, len + MIN_SIZE, 3, 3 + len);
    FourParts(rest[..len + MIN_SIZE], len);
  }

  lemma TakeSlice(buf: seq<Byte>, n: nat, i: nat, j: nat)
    requires i <= j <= n <= |buf|
    ensures buf[..n][i..j] == buf[i..j]
  {}

  lemma FourParts(frame: seq<Byte>, len: nat)
    requires |frame| == len + MIN_SIZE
    ensures frame == [frame[0]] + frame[1..3] + frame[3..3 + len] + [frame[len + 3]]
  {}
}
