/** When a read that ended without a packet can be taken up again after more bytes arrive. */
module PacketResume {
  import opened NumberCodec
  import opened PacketStream

  /** Whatever arrives next, the result is the one of a single read of all the bytes. */
  ghost predicate Resumable(mode: DataMode, a: seq<Byte>) {
    forall b :: Scan(mode, a + b, []) == Scan(mode, Scan(mode, a, []).rest + b, [])
  }

  /** A read that has a header in hand never gives it up. */
  lemma {:induction false} HeaderStaysInHand(mode: DataMode, rest: seq<Byte>, data: seq<Byte>)
    requires |data| >= 3 && data[0] == HEAD_BYTE
    ensures Scan(mode, rest, data).Wait? ==> |Scan(mode, rest, data).stale| >= 3
    decreases |rest|
  {
    if |rest| >= MIN_SIZE {
      var header := data + rest[..3];
      var size := SizeField(mode, header);
      if |rest| >= Cut16(size + MIN_SIZE) {
        HeaderStaysInHand(mode, rest[3..], Window(header, rest[3..], size));
      }
    }
  }

  lemma ScanSkipsByte(mode: DataMode, a: seq<Byte>, b: seq<Byte>)
    requires |a| >= MIN_SIZE && a[0] != HEAD_BYTE
    ensures Scan(mode, a + b, []) == Scan(mode, a[1..] + b, [])
  {
    assert (a + b)[1..] == a[1..] + b;
    assert ([] + (a + b)[..3])[0] == a[0];
  }

  /** At a head byte only a buffer that is left alone leaves the reader empty-handed. */
  lemma WaitAtHeader(mode: DataMode, a: seq<Byte>)
    requires |a| >= MIN_SIZE && a[0] == HEAD_BYTE
    requires Scan(mode, a, []).Wait? && Scan(mode, a, []).stale == []
    ensures Scan(mode, a, []).rest == a
  {
    var header := [] + a[..3];
    var size := SizeField(mode, header);
    if |a| >= Cut16(size + MIN_SIZE) {
      HeaderStaysInHand(mode, a[3..], Window(header, a[3..], size));
    }
  }

  lemma {:induction false} ResumeWait(mode: DataMode, a: seq<Byte>, b: seq<Byte>)
    requires Scan(mode, a, []).Wait? && Scan(mode, a, []).stale == []
    ensures Scan(mode, a + b, []) == Scan(mode, Scan(mode, a, []).rest + b, [])
  {
    if |a| >= MIN_SIZE {
      if a[0] == HEAD_BYTE {
        WaitAtHeader(mode, a);
      } else {
        assert ([] + a[..3])[0] == a[0];
        ResumeWait(mode, a[1..], b);
        ScanSkipsByte(mode, a, b);
      }
    }
  }

  /** A rejected end byte means that a head byte was passed and at least three bytes are gone. */
  lemma RejectionConsumes(mode: DataMode, a: seq<Byte>)
    requires Scan(mode, a, []).Wait? && Scan(mode, a, []).stale != []
    ensures Skipped(a) + MIN_SIZE <= |a| && a[Skipped(a)] == HEAD_BYTE
    ensures |Scan(mode, a, []).rest| + 3 <= |a| - Skipped(a)
  {
    var s := Skipped(a);
    SkippedMeaning(a);
    ScanSkips(mode, a);
    var rest := a[s..];
    if |rest| >= MIN_SIZE {
      assert [] + rest[..3] == rest[..3];
      RestIsSuffix(mode, rest[3..], Window(rest[..3], rest[3..], SizeField(mode, rest[..3])));
    }
  }

  ghost predicate AllEnds(b: seq<Byte>) {
    forall i :: 0 <= i < |b| ==> b[i] == END_BYTE
  }

  /** Enough end bytes at the end of the buffer complete a window. */
  lemma {:induction false} EndsComplete(x: seq<Byte>, b: seq<Byte>, len: nat)
    requires AllEnds(b) && len + MIN_SIZE <= |b|
    ensures 3 * Rejected(x + b, len) + len + MIN_SIZE <= |x + b|
    decreases |x|
  {
    var c := x + b;
    if c[len + 3] != END_BYTE {
      assert len + 3 < |x|;
      assert c[3..] == x[3..] + b;
      EndsComplete(x[3..], b, len);
    }
  }

  /** `r` is a packet made of all the windows of `c`, which begins with a header. */
  ghost predicate ReadsWindows(mode: DataMode, c: seq<Byte>, r: Outcome) {
    && r.Packet? && |c| >= 3 && |r.data| >= 3 && r.data[1] == c[1] && r.data[2] == c[2]
    && var len := SizeField(mode, c);
       var k := Rejected(c, len);
       |r.rest| + 3 * k + len + MIN_SIZE == |c| && |r.data| == Times(k + 1, len + MIN_SIZE)
  }

  /** The size field and the length of the packet tell how many bytes it took. */
  lemma SameReadSameLength(mode: DataMode, c: seq<Byte>, d: seq<Byte>, r: Outcome)
    requires ReadsWindows(mode, c, r) && ReadsWindows(mode, d, r)
    ensures |c| == |d|
  {
    var len := SizeField(mode, c);
    SameCount(Rejected(c, len) + 1, Rejected(d, len) + 1, len + MIN_SIZE);
  }

  lemma {:induction false} TimesGrows(j: nat, k: nat, n: nat)
    requires j < k
    ensures Times(j, n) + n <= Times(k, n)
  {
    if j + 1 < k { TimesGrows(j, k - 1, n); }
  }

  lemma SameCount(i: nat, j: nat, n: nat)
    requires n > 0 && Times(i, n) == Times(j, n)
    ensures i == j
  {
    if i < j { TimesGrows(i, j, n); }
    if j < i { TimesGrows(j, i, n); }
  }

  lemma FirstOfWindows(c: seq<Byte>, len: nat)
    requires HasEnd(c, len)
    ensures |Windows(c, len)| == Times(Rejected(c, len) + 1, len + MIN_SIZE) && |Windows(c, len)| >= 3
    ensures Windows(c, len)[1] == c[1] && Windows(c, len)[2] == c[2]
  {
    WindowsLength(c, len);
    FirstWindowAt(c, len);
    var first := Windows(c, len)[..len + MIN_SIZE];
    assert first[1] == c[1] && first[2] == c[2];
  }

  lemma ReadToTheEnds(mode: DataMode, x: seq<Byte>, b: seq<Byte>)
    requires AllEnds(b) && SIZE_LIMIT + MIN_SIZE <= |b| && (x + b)[0] == HEAD_BYTE
    ensures ReadsWindows(mode, x + b, Scan(mode, x + b, []))
  {
    var c := x + b;
    var len := SizeField(mode, c);
    EndsComplete(x, b, len);
    ScanFromHeader(mode, c, [], len);
    FirstOfWindows(c, len);
    assert [] + Windows(c, len) == Windows(c, len);
  }

  lemma {:induction false} ScanSkipsAhead(mode: DataMode, a: seq<Byte>, b: seq<Byte>)
    requires Skipped(a) + MIN_SIZE <= |a|
    ensures Scan(mode, a + b, []) == Scan(mode, a[Skipped(a)..] + b, [])
  {
    if a[0] != HEAD_BYTE {
      ScanSkipsByte(mode, a, b);
      ScanSkipsAhead(mode, a[1..], b);
      assert a[1..][Skipped(a[1..])..] == a[Skipped(a)..];
    } else {
      assert a[0..] == a;
    }
  }

  /** A read of `rest` and end bytes finds no header, or one that begins inside `rest`. */
  lemma ReadAnew(mode: DataMode, rest: seq<Byte>, b: seq<Byte>) returns (t: nat)
    requires AllEnds(b) && SIZE_LIMIT + MIN_SIZE <= |b|
    ensures Scan(mode, rest + b, []).Packet? ==>
      t < |rest| && ReadsWindows(mode, rest[t..] + b, Scan(mode, rest + b, []))
  {
    var c := rest + b;
    t := Skipped(c);
    SkippedMeaning(c);
    ScanSkips(mode, c);
    if t < |rest| {
      assert c[t..] == rest[t..] + b;
      ReadToTheEnds(mode, rest[t..], b);
    }
  }

  /** After a rejected end byte some continuation is read differently. */
  lemma RejectionNotResumable(mode: DataMode, a: seq<Byte>, b: seq<Byte>)
    requires Scan(mode, a, []).Wait? && Scan(mode, a, []).stale != []
    requires AllEnds(b) && SIZE_LIMIT + MIN_SIZE <= |b|
    ensures Scan(mode, a + b, []) != Scan(mode, Scan(mode, a, []).rest + b, [])
  {
    var rest := Scan(mode, a, []).rest;
    RejectionConsumes(mode, a);
    var x := a[Skipped(a)..];
    ScanSkipsAhead(mode, a, b);
    ReadToTheEnds(mode, x, b);
    var t := ReadAnew(mode, rest, b);
    var whole := Scan(mode, a + b, []);
    if t < |rest| && ReadsWindows(mode, rest[t..] + b, whole) {
      SameReadSameLength(mode, x + b, rest[t..] + b, whole);
    }
  }

  /** The guard of the two branches that wait: there are fewer bytes than four, or than the 16-bit
      sum of the size field and four. */
  predicate Starved(mode: DataMode, rest: seq<Byte>) {
    |rest| < MIN_SIZE || |rest| < Cut16(SizeField(mode, rest) + MIN_SIZE)
  }

  /** The reader skips to a head byte and then waits. */
  predicate MustWait(mode: DataMode, a: seq<Byte>) {
    Starved(mode, a[Skipped(a)..])
  }

  lemma StarvedWaits(mode: DataMode, rest: seq<Byte>)
    requires Starved(mode, rest) && (|rest| >= MIN_SIZE ==> rest[0] == HEAD_BYTE)
    ensures Scan(mode, rest, []) == Wait(rest, [])
  {
    if |rest| >= MIN_SIZE { HeaderKept(rest, [], 3); }
  }

  lemma FedRejects(mode: DataMode, rest: seq<Byte>)
    requires !Starved(mode, rest) && rest[0] == HEAD_BYTE && Scan(mode, rest, []).Wait?
    ensures |Scan(mode, rest, []).stale| >= 3
  {
    var header, size := [] + rest[..3], SizeField(mode, rest);
    HeaderKept(rest, [], 3);
    Iteration(mode, rest, [], header, size);
    HeaderStaysInHand(mode, rest[3..], Window(header, rest[3..], size));
  }

  /** Where the guard holds the read only skips. Where it does not and yet no packet comes, an end
      byte was rejected. */
  lemma GuardMeaning(mode: DataMode, a: seq<Byte>)
    ensures MustWait(mode, a) ==> Scan(mode, a, []) == Wait(a[Skipped(a)..], [])
    ensures !MustWait(mode, a) && Scan(mode, a, []).Wait? ==> |Scan(mode, a, []).stale| >= 3
  {
    var rest := a[Skipped(a)..];
    SkippedMeaning(a);
    ScanSkips(mode, a);
    if MustWait(mode, a) {
      StarvedWaits(mode, rest);
    } else if Scan(mode, a, []).Wait? {
      FedRejects(mode, rest);
    }
  }

  /** A read that gave no packet can be taken up again exactly when it stopped at that guard. */
  lemma ResumeIff(mode: DataMode, a: seq<Byte>)
    requires Scan(mode, a, []).Wait?
    ensures Resumable(mode, a) <==> MustWait(mode, a)
  {
    GuardMeaning(mode, a);
    if MustWait(mode, a) {
      forall b ensures Scan(mode, a + b, []) == Scan(mode, Scan(mode, a, []).rest + b, []) {
        ResumeWait(mode, a, b);
      }
    } else {
      RejectionNotResumable(mode, a, seq(SIZE_LIMIT + MIN_SIZE, _ => END_BYTE));
    }
  }

  lemma ZeroHeader(mode: DataMode, rest: seq<Byte>)
    requires |rest| >= MIN_SIZE && rest[0] == HEAD_BYTE && rest[1] == rest[2] == 0
    ensures HeaderSays(mode, rest, [], 0)
  {}

  /** Four bytes that look like an empty frame with a wrong end byte. */
  lemma FourBytes(mode: DataMode)
    ensures Scan(mode, [HEAD_BYTE, 0, 0, 0], []) == Wait([0], [HEAD_BYTE, 0, 0, 0])
  {
    var a: seq<Byte> := [HEAD_BYTE, 0, 0, 0];
    ZeroHeader(mode, a);
    ScanStep(mode, a, [], 0);
    assert a[3..] == [0] && [] + a[..4] == a;
  }

  lemma SevenBytes(mode: DataMode)
    ensures Scan(mode, [HEAD_BYTE, 0, 0, 0, 0, 0, END_BYTE], []).Packet?
  {
    var c: seq<Byte>, first: seq<Byte> := [HEAD_BYTE, 0, 0, 0, 0, 0, END_BYTE], [HEAD_BYTE, 0, 0, 0];
    ZeroHeader(mode, c);
    ScanStep(mode, c, [], 0);
    assert [] + c[..4] == first && c[3..] == [0, 0, 0, END_BYTE];
    ZeroHeader(mode, first);
    ScanStep(mode, c[3..], first, 0);
  }

  /** Read at once with three more bytes they are a packet, taken up again they are not. */
  lemma WrongEndByte(mode: DataMode)
    ensures var a: seq<Byte>, b: seq<Byte> := [HEAD_BYTE, 0, 0, 0], [0, 0, END_BYTE];
      && Scan(mode, a, []).Wait? && !MustWait(mode, a) && !Resumable(mode, a)
      && Scan(mode, a + b, []).Packet? && Scan(mode, Scan(mode, a, []).rest + b, []).Wait?
  {
    var a: seq<Byte>, b: seq<Byte> := [HEAD_BYTE, 0, 0, 0], [0, 0, END_BYTE];
    FourBytes(mode);
    GuardMeaning(mode, a);
    SevenBytes(mode);
    assert a + b == [HEAD_BYTE, 0, 0, 0, 0, 0, END_BYTE];
    ThreeLeft(mode, [0] + b);
  }

  lemma ThreeLeft(mode: DataMode, c: seq<Byte>)
    requires |c| == MIN_SIZE && c[0] != HEAD_BYTE
    ensures Scan(mode, c, []).Wait?
  {
    assert ([] + c[..3])[0] == c[0];
  }

  /** In particular, repeating such a read without new bytes changes nothing. */
  lemma WaitIsIdempotent(mode: DataMode, a: seq<Byte>)
    requires MustWait(mode, a)
    ensures Scan(mode, Scan(mode, a, []).rest, []) == Scan(mode, a, [])
  {
    GuardMeaning(mode, a);
    ResumeWait(mode, a, []);
    var rest := Scan(mode, a, []).rest;
    assert a + [] == a && rest + [] == rest;
  }

  lemma MoreBytes(rest: seq<Byte>, data: seq<Byte>, n: nat, b: seq<Byte>)
    requires 3 <= n <= |rest|
    ensures (rest + b)[..n] == rest[..n] && (rest + b)[n..] == rest[n..] + b
    ensures (rest + b)[3..] == rest[3..] + b && (rest + b)[1] == rest[1] && (rest + b)[2] == rest[2]
  {}

  /** More bytes behind a packet do not change it, if its size does not wrap. */
  lemma {:induction false} PacketIsStable(mode: DataMode, rest: seq<Byte>, data: seq<Byte>, len: nat, b: seq<Byte>)
    requires HeaderSays(mode, rest, data, len) && len + MIN_SIZE < SIZE_LIMIT
    requires Scan(mode, rest, data).Packet?
    ensures Scan(mode, rest + b, data) == Packet(Scan(mode, rest, data).rest + b, Scan(mode, rest, data).data)
    decreases |rest|
  {
    if |rest| < len + MIN_SIZE {
      ScanWaits(mode, rest, data, len);
      assert false;
    }
    var n := len + MIN_SIZE;
    MoreBytes(rest, data, n, b);
    ScanStep(mode, rest, data, len);
    ScanStep(mode, rest + b, data, len);
    if rest[len + 3] != END_BYTE {
      HeaderKept(rest, data, n);
      PacketIsStable(mode, rest[3..], data + rest[..n], len, b);
    }
  }
}
