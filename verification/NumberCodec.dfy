/** `Packet::pack_num` and `Packet::unpack_num` of ae/packet.h: unsigned integers of any byte
    width, in both byte orders. */
module NumberCodec {

  type Byte = b: int | 0 <= b < 256

  datatype DataMode = BigEndian | LittleEndian

  function Pow256(width: nat): (p: nat)
    ensures p > 0
  {
    if width == 0 then 1 else 256 * Pow256(width - 1)
  }

  /** The value a byte string stands for: the first byte weighs most in big endian. */
  function Decode(mode: DataMode, data: seq<Byte>): nat {
    if data == [] then 0
    else if mode.BigEndian? then Decode(mode, data[..|data| - 1]) * 256 + data[|data| - 1]
    else Decode(mode, data[1..]) * 256 + data[0]
  }

  function Encode(mode: DataMode, width: nat, num: nat): (data: seq<Byte>)
    ensures |data| == width
  {
    if width == 0 then []
    else if mode.BigEndian? then Encode(mode, width - 1, num / 256) + [num % 256]
    else [num % 256] + Encode(mode, width - 1, num / 256)
  }

  function Reversed(data: seq<Byte>): (r: seq<Byte>)
    ensures |r| == |data|
  {
    if data == [] then [] else Reversed(data[1..]) + [data[0]]
  }

  lemma {:induction false} DecodeBound(mode: DataMode, data: seq<Byte>)
    ensures Decode(mode, data) < Pow256(|data|)
  {
    if data != [] {
      DecodeBound(mode, if mode.BigEndian? then data[..|data| - 1] else data[1..]);
    }
  }

  /** Unpacking what was packed gives the number back, if it fits the width. */
  lemma {:induction false} DecodeEncode(mode: DataMode, width: nat, num: nat)
    ensures Decode(mode, Encode(mode, width, num)) == num % Pow256(width)
    ensures num < Pow256(width) ==> Decode(mode, Encode(mode, width, num)) == num
  {
    if width > 0 {
      var data := Encode(mode, width, num);
      var rest := Encode(mode, width - 1, num / 256);
      assert (if mode.BigEndian? then data[..width - 1] else data[1..]) == rest;
      DecodeEncode(mode, width - 1, num / 256);
      SplitMod(num, Pow256(width - 1));
      if num < Pow256(width) { SmallMod(num, Pow256(width)); }
    }
  }

  lemma SmallMod(num: nat, p: nat)
    requires num < p
    ensures num % p == num
  {}

  lemma SplitMod(num: nat, p: nat)
    requires p > 0
    ensures num / 256 % p * 256 + num % 256 == num % (256 * p)
  {
    var q, r, low := num / 256 / p, num / 256 % p, num % 256;
    assert num / 256 == q * p + r;
    assert num == 256 * (q * p + r) + low;
    assert 256 * (q * p) == (256 * p) * q;
    DivModUnique(num, 256 * p, q, r * 256 + low);
  }

  lemma DivModUnique(num: nat, d: nat, q: nat, r: nat)
    requires d > 0 && num == d * q + r && r < d
    ensures num % d == r
  {
    var q1 := num / d;
    assert num == d * q1 + num % d;
    MulMonotone(d, q1 + 1, q);
    MulMonotone(d, q + 1, q1);
  }

  lemma MulMonotone(d: nat, a: nat, b: nat)
    ensures a <= b ==> d * a <= d * b
  {}

  lemma LastByte(num: nat, byte: Byte)
    ensures (num * 256 + byte) / 256 == num && (num * 256 + byte) % 256 == byte
  {}

  lemma EncodeStep(mode: DataMode, width: nat, num: nat, byte: Byte)
    ensures Encode(mode, width + 1, num * 256 + byte) ==
      if mode.BigEndian? then Encode(mode, width, num) + [byte] else [byte] + Encode(mode, width, num)
  {
    LastByte(num, byte);
  }

  /** Packing what was unpacked gives the bytes back. */
  lemma {:induction false} EncodeDecode(mode: DataMode, data: seq<Byte>)
    ensures Encode(mode, |data|, Decode(mode, data)) == data
  {
    if data != [] {
      var last := if mode.BigEndian? then |data| - 1 else 0;
      var others := if mode.BigEndian? then data[..|data| - 1] else data[1..];
      EncodeDecode(mode, others);
      EncodeStep(mode, |data| - 1, Decode(mode, others), data[last]);
    }
  }

  lemma DivDiv(num: nat, p: nat)
    requires p > 0
    ensures num / 256 / p == num / (256 * p)
  {
    var q, r := num / 256 / p, num / 256 % p;
    var low := num % 256;
    assert num / 256 == p * q + r;
    assert num == 256 * (p * q + r) + low == (256 * p) * q + (256 * r + low);
    assert 256 * r + low < 256 * p;
    DivUnique(num, 256 * p, q, 256 * r + low);
  }

  lemma DivUnique(num: nat, d: nat, q: nat, r: nat)
    requires d > 0 && num == d * q + r && r < d
    ensures num / d == q
  {
    var q1 := num / d;
    assert num == d * q1 + num % d;
    MulMonotone(d, q1 + 1, q);
    MulMonotone(d, q + 1, q1);
  }

  /** Every byte on its own: the one of weight `256^i` stands `i` bytes from the low end. */
  lemma {:induction false} EncodeByte(mode: DataMode, width: nat, num: nat, i: nat)
    requires i < width
    ensures Encode(mode, width, num)[if mode.BigEndian? then width - 1 - i else i] == num / Pow256(i) % 256
  {
    if i > 0 {
      EncodeByte(mode, width - 1, num / 256, i - 1);
      DivDiv(num, Pow256(i - 1));
    }
  }

  /** The two byte orders are reversals of each other. */
  lemma {:induction false} OrdersReversed(width: nat, num: nat)
    ensures Encode(BigEndian, width, num) == Reversed(Encode(LittleEndian, width, num))
  {
    if width > 0 {
      OrdersReversed(width - 1, num / 256);
      assert Encode(LittleEndian, width, num)[1..] == Encode(LittleEndian, width - 1, num / 256);
    }
  }

  /** Writes the low `width` bytes of `num` into `data` from `at` on. The source masks with
      0xff and shifts right by 8, which on an unsigned number are `% 256` and `/ 256`. */
  method PackNum(mode: DataMode, data: array<Byte>, at: nat, width: nat, num: nat)
    requires at + width <= data.Length
    modifies data
    ensures data[..] == old(data[..at]) + Encode(mode, width, num) + old(data[at + width..])
  {
    ghost var head, tail := data[..at], data[at + width..];
    if mode.BigEndian? {
      PackBig(data, at, width, num);
    } else {
      PackLittle(data, at, width, num);
    }
    assert data[..] == data[..at] + data[at..at + width] + data[at + width..];
  }

  method PackBig(data: array<Byte>, at: nat, width: nat, num: nat)
    requires at + width <= data.Length
    modifies data
    ensures Split(data[..], old(data[..at]), old(data[at + width..]), at, width)
    ensures data[at..at + width] == Encode(BigEndian, width, num)
  {
    var n, i := num, width;
    while i > 0
      invariant 0 <= i <= width
      invariant Split(data[..], old(data[..at]), old(data[at + width..]), at, width)
      invariant Encode(BigEndian, width, num) == Encode(BigEndian, i, n) + data[at + i..at + width]
    {
      i := i - 1;
      Prepended(data[..], at + i, at + width, n % 256);
      data[at + i] := n % 256;
      n := n / 256;
    }
  }

  method PackLittle(data: array<Byte>, at: nat, width: nat, num: nat)
    requires at + width <= data.Length
    modifies data
    ensures Split(data[..], old(data[..at]), old(data[at + width..]), at, width)
    ensures data[at..at + width] == Encode(LittleEndian, width, num)
  {
    var n, i := num, 0;
    while i < width
      invariant 0 <= i <= width
      invariant Split(data[..], old(data[..at]), old(data[at + width..]), at, width)
      invariant Encode(LittleEndian, width, num) == data[at..at + i] + Encode(LittleEndian, width - i, n)
    {
      Appended(data[..], at, at + i, n % 256);
      data[at + i] := n % 256;
      n := n / 256;
      i := i + 1;
    }
  }

  /** `data` keeps `head` and `tail` around the `width` bytes from `at` on. */
  ghost predicate Split(data: seq<Byte>, head: seq<Byte>, tail: seq<Byte>, at: nat, width: nat) {
    at + width <= |data| && data[..at] == head && data[at + width..] == tail
  }

  lemma Prepended(data: seq<Byte>, i: nat, j: nat, b: Byte)
    requires i < j <= |data|
    ensures data[i := b][i..j] == [b] + data[i + 1..j]
  {}

  lemma Appended(data: seq<Byte>, i: nat, j: nat, b: Byte)
    requires i <= j < |data|
    ensures data[j := b][i..j + 1] == data[i..j] + [b]
  {}

  /** Reads a number of `|data|` bytes. The shift left by 8 drops what leaves the width; the
      byte then or-ed in meets a zero low byte, so it is added. */
  method UnpackNum(mode: DataMode, data: seq<Byte>) returns (num: nat)
    ensures num == Decode(mode, data)
  {
    num := 0;
    if mode.BigEndian? {
      for i := 0 to |data|
        invariant num == Decode(mode, data[..i])
      {
        assert data[..i + 1][..i] == data[..i];
        ShiftFits(mode, data[..i], |data|);
        num := num * 256 % Pow256(|data|);
        num := num + data[i];
      }
      assert data[..|data|] == data;
    } else {
      for i := |data| downto 0
        invariant num == Decode(mode, data[i..])
      {
        assert data[i..][1..] == data[i + 1..];
        ShiftFits(mode, data[i + 1..], |data|);
        num := num * 256 % Pow256(|data|);
        num := num + data[i];
      }
    }
  }

  lemma ShiftFits(mode: DataMode, part: seq<Byte>, width: nat)
    requires |part| < width
    ensures Decode(mode, part) * 256 % Pow256(width) == Decode(mode, part) * 256
  {
    DecodeBound(mode, part);
    Pow256Grows(|part| + 1, width);
    SmallMod(Decode(mode, part) * 256, Pow256(width));
  }

  lemma {:induction false} Pow256Grows(v: nat, width: nat)
    requires v <= width
    ensures Pow256(v) <= Pow256(width)
  {
    if v < width {
      Pow256Grows(v, width - 1);
    }
  }
}
