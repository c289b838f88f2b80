/** Byte strings and little-endian records: the common ground of Python's `struct` formats and C's packed structs. */
module Bytes {

  type Byte = x: int | 0 <= x < 256

  function Min(a: int, b: int): int {
    if a <= b then a else b
  }

  function Max(a: int, b: int): int {
    if a <= b then b else a
  }

  function Zeros(n: nat): (bs: seq<Byte>)
    ensures |bs| == n
    ensures forall k :: 0 <= k < n ==> bs[k] == 0
  {
    seq(n, _ => 0)
  }

  /** `bs` copied over `img` at `at`: memcpy, and the in-place part of struct.pack_into. */
  function Overwrite(img: seq<Byte>, at: nat, bs: seq<Byte>): (r: seq<Byte>)
    requires at + |bs| <= |img|
    ensures |r| == |img|
    ensures forall k :: 0 <= k < |img| ==> r[k] == if at <= k < at + |bs| then bs[k - at] else img[k]
  {
    img[..at] + bs + img[at + |bs|..]
  }

  method Memcpy(dst: array<Byte>, at: nat, src: seq<Byte>)
    requires at + |src| <= dst.Length
    modifies dst
    ensures dst[..] == Overwrite(old(dst[..]), at, src)
  {
    for i := 0 to |src|
      invariant dst[..] == Overwrite(old(dst[..]), at, src[..i])
    {
      dst[at + i] := src[i];
    }
    assert src[..|src|] == src;
  }

  lemma {:induction false} OverwriteAppend(img: seq<Byte>, at: nat, a: seq<Byte>, b: seq<Byte>)
    requires at + |a| + |b| <= |img|
    ensures Overwrite(Overwrite(img, at, a), at + |a|, b) == Overwrite(img, at, a + b)
  {
  }

  /** Python's `img[a:b] = c` on a bytearray: bounds are clamped, and the array shrinks or grows when |c| != b - a. */
  function SliceAssign(img: seq<Byte>, a: nat, b: nat, c: seq<Byte>): seq<Byte>
    requires a <= b
  {
    img[..Min(a, |img|)] + c + img[Min(b, |img|)..]
  }

  /** Python's `data[a:b]`. */
  function Slice(data: seq<Byte>, a: nat, b: nat): (r: seq<Byte>)
    requires a <= b
    ensures b <= |data| ==> r == data[a..b]
    ensures |r| == b - a <==> b <= |data| || a == b
  {
    data[Min(a, |data|)..Min(b, |data|)]
  }

  // ---- little-endian integers ----

  function Capacity(width: nat): (c: nat)
    ensures c >= 1
  {
    if width == 0 then 1 else 256 * Capacity(width - 1)
  }

  lemma {:induction false} Capacities()
    ensures Capacity(1) == 0x100 && Capacity(2) == 0x1_0000 && Capacity(4) == 0x1_0000_0000
    ensures Capacity(8) == 0x1_0000_0000_0000_0000
  {
    assert Capacity(3) == 0x100_0000 && Capacity(5) == 0x100_0000_0000;
    assert Capacity(6) == 0x1_0000_0000_0000;
  }

  function Encode(n: nat, width: nat): (bs: seq<Byte>)
    ensures |bs| == width
  {
    if width == 0 then [] else [n % 256] + Encode(n / 256, width - 1)
  }

  function Decode(bs: seq<Byte>): (n: nat)
    ensures n < Capacity(|bs|)
  {
    if bs == [] then 0 else bs[0] + 256 * Decode(bs[1..])
  }

  lemma {:induction false} DecodeEncode(n: nat, width: nat)
    requires n < Capacity(width)
    ensures Decode(Encode(n, width)) == n
  {
    if width > 0 {
      DecodeEncode(n / 256, width - 1);
      assert Encode(n, width)[1..] == Encode(n / 256, width - 1);
    }
  }

  lemma {:induction false} DivideByByte(low: Byte, high: nat)
    ensures (low + 256 * high) % 256 == low && (low + 256 * high) / 256 == high
  {
  }

  lemma {:induction false} EncodeDecode(bs: seq<Byte>)
    ensures Encode(Decode(bs), |bs|) == bs
  {
    if bs != [] {
      var high := Decode(bs[1..]);
      DivideByByte(bs[0], high);
      EncodeDecode(bs[1..]);
      assert bs == [bs[0]] + bs[1..];
    }
  }

  // ---- records: a format is the sequence of its field widths ----

  function Span(widths: seq<nat>): nat {
    if widths == [] then 0 else widths[0] + Span(widths[1..])
  }

  lemma {:induction false} SpanOfConcat(a: seq<nat>, b: seq<nat>)
    ensures Span(a + b) == Span(a) + Span(b)
  {
    if a == [] {
      assert a + b == b;
    } else {
      SpanOfConcat(a[1..], b);
      assert (a + b)[1..] == a[1..] + b;
    }
  }

  lemma {:induction false} SpanOfRun(n: nat, width: nat)
    ensures Span(seq(n, _ => width)) == n * width
  {
    if n > 0 {
      SpanOfRun(n - 1, width);
      assert seq(n, _ => width)[1..] == seq(n - 1, _ => width);
    }
  }

  /** The range check of struct.pack: every value fits the width of its field. */
  predicate Fits(widths: seq<nat>, values: seq<nat>) {
    && |widths| == |values|
    && forall i :: 0 <= i < |widths| ==> values[i] < Capacity(widths[i])
  }

  function Pack(widths: seq<nat>, values: seq<nat>): (bs: seq<Byte>)
    requires |widths| == |values|
    ensures |bs| == Span(widths)
  {
    if widths == [] then [] else Encode(values[0], widths[0]) + Pack(widths[1..], values[1..])
  }

  lemma {:induction false} PackConcat(a: seq<nat>, x: seq<nat>, b: seq<nat>, y: seq<nat>)
    requires |a| == |x| && |b| == |y|
    ensures Pack(a + b, x + y) == Pack(a, x) + Pack(b, y)
  {
    if a == [] {
      assert a + b == b && x + y == y;
    } else {
      PackConcat(a[1..], x[1..], b, y);
      assert (a + b)[1..] == a[1..] + b && (x + y)[1..] == x[1..] + y;
    }
  }

  lemma {:induction false} PackOne(width: nat, value: nat)
    ensures Pack([width], [value]) == Encode(value, width)
  {
    assert [width][1..] == [];
  }

  lemma {:induction false} EncodeZero(width: nat)
    ensures Encode(0, width) == Zeros(width)
  {
    if width > 0 {
      EncodeZero(width - 1);
    }
  }

  function Unpack(widths: seq<nat>, bs: seq<Byte>): (values: seq<nat>)
    requires |bs| == Span(widths)
    ensures Fits(widths, values)
  {
    if widths == [] then [] else
      var rest := Unpack(widths[1..], bs[widths[0]..]);
      assert forall i :: 1 <= i < |widths| ==> widths[i] == widths[1..][i - 1];
      [Decode(bs[..widths[0]])] + rest
  }

  lemma {:induction false} UnpackPack(widths: seq<nat>, values: seq<nat>)
    requires Fits(widths, values)
    ensures Unpack(widths, Pack(widths, values)) == values
  {
    if widths != [] {
      var bs := Pack(widths, values);
      assert bs[..widths[0]] == Encode(values[0], widths[0]);
      assert bs[widths[0]..] == Pack(widths[1..], values[1..]);
      DecodeEncode(values[0], widths[0]);
      UnpackPack(widths[1..], values[1..]);
    }
  }

  lemma {:induction false} PackUnpack(widths: seq<nat>, bs: seq<Byte>)
    requires |bs| == Span(widths)
    ensures Pack(widths, Unpack(widths, bs)) == bs
  {
    if widths != [] {
      EncodeDecode(bs[..widths[0]]);
      PackUnpack(widths[1..], bs[widths[0]..]);
      assert bs == bs[..widths[0]] + bs[widths[0]..];
    }
  }
}
