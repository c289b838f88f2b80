/** The byte strings elf2self.py can decode are exactly the UTF-8 encodings of Unicode scalar values (RFC 3629,
    section 3). */
module Utf8Laws {
  import opened Bytes
  import opened SelfRows

  /** A Unicode scalar value: a code point that is no surrogate. */
  predicate IsScalar(c: nat) {
    c < 0x11_0000 && !(0xD800 <= c < 0xE000)
  }

  /** The encoding of one character. */
  function EncodeChar(c: nat): (bs: seq<Byte>)
    requires IsScalar(c)
    ensures 1 <= |bs| <= 4
  {
    if c < 0x80 then [c]
    else if c < 0x800 then [0xC0 + c / 0x40, 0x80 + c % 0x40]
    else if c < 0x1_0000 then [0xE0 + c / 0x1000, 0x80 + c / 0x40 % 0x40, 0x80 + c % 0x40]
    else [0xF0 + c / 0x4_0000, 0x80 + c / 0x1000 % 0x40, 0x80 + c / 0x40 % 0x40, 0x80 + c % 0x40]
  }

  function EncodeText(cs: seq<nat>): seq<Byte>
    requires forall i :: 0 <= i < |cs| ==> IsScalar(cs[i])
  {
    if cs == [] then [] else EncodeChar(cs[0]) + EncodeText(cs[1..])
  }

  /** The payload of a trailing byte. */
  function Low(b: Byte): int {
    b as int - 0x80
  }

  /** The character at the start of a well-formed byte string. */
  function FirstChar(bs: seq<Byte>): (c: int)
    requires bs != [] && CharLength(bs) > 0
  {
    var n, b := CharLength(bs), bs[0] as int;
    if n == 1 then b
    else if n == 2 then (b - 0xC0) * 0x40 + Low(bs[1])
    else if n == 3 then (b - 0xE0) * 0x1000 + Low(bs[1]) * 0x40 + Low(bs[2])
    else (b - 0xF0) * 0x4_0000 + Low(bs[1]) * 0x1000 + Low(bs[2]) * 0x40 + Low(bs[3])
  }

  lemma {:induction false} Digits64(a: int, b: int, c: int, d: int)
    requires a >= 0 && 0 <= b < 0x40 && 0 <= c < 0x40 && 0 <= d < 0x40
    ensures var n := a * 0x4_0000 + b * 0x1000 + c * 0x40 + d;
      n / 0x4_0000 == a && n / 0x1000 % 0x40 == b && n / 0x40 % 0x40 == c && n % 0x40 == d && n / 0x1000 == a * 0x40 + b
      && n / 0x40 == a * 0x1000 + b * 0x40 + c
  {
  }

  lemma {:induction false} FirstCharEncodes(bs: seq<Byte>)
    requires bs != [] && CharLength(bs) > 0
    ensures FirstChar(bs) >= 0 && IsScalar(FirstChar(bs)) && EncodeChar(FirstChar(bs)) == bs[..CharLength(bs)]
  {
    if CharLength(bs) == 2 {
      TwoBytes(bs);
    } else if CharLength(bs) == 3 {
      ThreeBytes(bs);
    } else if CharLength(bs) == 4 {
      FourBytes(bs);
    }
  }

  lemma {:induction false} TwoBytes(bs: seq<Byte>)
    requires bs != [] && CharLength(bs) == 2
    ensures FirstChar(bs) >= 0 && IsScalar(FirstChar(bs)) && EncodeChar(FirstChar(bs)) == bs[..2]
  {
    Digits64(0, 0, bs[0] as int - 0xC0, Low(bs[1]));
  }

  lemma {:induction false} ThreeBytes(bs: seq<Byte>)
    requires bs != [] && CharLength(bs) == 3
    ensures FirstChar(bs) >= 0 && IsScalar(FirstChar(bs)) && EncodeChar(FirstChar(bs)) == bs[..3]
  {
    Digits64(0, bs[0] as int - 0xE0, Low(bs[1]), Low(bs[2]));
  }

  lemma {:induction false} FourBytes(bs: seq<Byte>)
    requires bs != [] && CharLength(bs) == 4
    ensures FirstChar(bs) >= 0 && IsScalar(FirstChar(bs)) && EncodeChar(FirstChar(bs)) == bs[..4]
  {
    Digits64(bs[0] as int - 0xF0, Low(bs[1]), Low(bs[2]), Low(bs[3]));
  }

  lemma {:induction false} EncodedCharLength(c: nat, rest: seq<Byte>)
    requires IsScalar(c)
    ensures CharLength(EncodeChar(c) + rest) == |EncodeChar(c)|
  {
  }

  lemma {:induction false} EncodedIsUtf8(cs: seq<nat>)
    requires forall i :: 0 <= i < |cs| ==> IsScalar(cs[i])
    ensures Utf8(EncodeText(cs))
  {
    hide CharLength, EncodeChar;
    if cs != [] {
      EncodedIsUtf8(cs[1..]);
      EncodedCharLength(cs[0], EncodeText(cs[1..]));
      assert EncodeText(cs)[|EncodeChar(cs[0])|..] == EncodeText(cs[1..]);
    }
  }

  lemma {:induction false} Utf8IsEncoded(bs: seq<Byte>) returns (cs: seq<nat>)
    requires Utf8(bs)
    ensures forall i :: 0 <= i < |cs| ==> IsScalar(cs[i])
    ensures EncodeText(cs) == bs
    decreases |bs|
  {
    hide CharLength, EncodeChar, FirstChar, IsScalar;
    cs := [];
    if bs != [] {
      var n := CharLength(bs);
      FirstCharEncodes(bs);
      var rest := Utf8IsEncoded(bs[n..]);
      cs := [FirstChar(bs)] + rest;
      assert cs[1..] == rest && bs == bs[..n] + bs[n..];
    }
  }

  ghost predicate Scalars(cs: seq<nat>) {
    forall i :: 0 <= i < |cs| ==> IsScalar(cs[i])
  }

  /** decode() succeeds on exactly the encodings of texts. */
  lemma {:induction false} Utf8Exactly(bs: seq<Byte>)
    ensures Utf8(bs) <==> exists cs :: Scalars(cs) && EncodeText(cs) == bs
  {
    hide Utf8, EncodeText;
    if Utf8(bs) {
      var cs := Utf8IsEncoded(bs);
      assert Scalars(cs);
    }
    if cs :| Scalars(cs) && EncodeText(cs) == bs {
      EncodedIsUtf8(cs);
    }
  }
}
