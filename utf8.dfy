/**
  UTF-8, as Python's `str.encode("utf-8")` produces it. A Python `str` handed to the
  register endpoint is a sequence of Unicode scalar values, which is what a Dafny `char`
  is; each one is encoded in 1, 2, 3 or 4 bytes. The register endpoint limits the
  ENCODED length of a password, so this module gives the encoder, the byte length it
  yields, and a strict decoder that undoes it.
 */
module Utf8 {
  import opened Results

  type Byte = b: int | 0 <= b < 0x100

  /** Number of bytes UTF-8 uses for one scalar value. */
  function Width(c: char): (w: nat)
    ensures 1 <= w <= 4
    ensures w == 1 <==> (c as int) < 0x80
  {
    var n := c as int;
    if n < 0x80 then 1
    else if n < 0x800 then 2
    else if n < 0x1_0000 then 3
    else 4
  }

  /** Total encoded length, as a sum of per-character widths: the character count, up to
      a factor of four. */
  function ByteLength(s: string): (n: nat)
    ensures |s| <= n <= 4 * |s|
  {
    if s == [] then 0 else Width(s[0]) + ByteLength(s[1..])
  }

  predicate IsContinuation(b: Byte) { 0x80 <= b < 0xC0 }

  /** The bytes of one scalar value: a lead byte, then 6 payload bits per continuation byte. */
  function EncodeChar(c: char): (bs: seq<Byte>)
    ensures |bs| == Width(c)
    ensures forall k :: 1 <= k < |bs| ==> IsContinuation(bs[k])
    ensures !IsContinuation(bs[0])
  {
    var n := c as int;
    if n < 0x80 then
      [n]
    else if n < 0x800 then
      [0xC0 + n / 0x40, 0x80 + n % 0x40]
    else if n < 0x1_0000 then
      [0xE0 + n / 0x1000, 0x80 + (n / 0x40) % 0x40, 0x80 + n % 0x40]
    else
      [0xF0 + n / 0x4_0000, 0x80 + (n / 0x1000) % 0x40, 0x80 + (n / 0x40) % 0x40, 0x80 + n % 0x40]
  }

  /** `s.encode("utf-8")`: exactly ByteLength(s) bytes. */
  function Encode(s: string): (bs: seq<Byte>)
    ensures |bs| == ByteLength(s)
  {
    if s == [] then [] else EncodeChar(s[0]) + Encode(s[1..])
  }

  datatype Decoded = Decoded(c: char, width: nat)

  predicate IsScalar(n: int) { 0 <= n < 0xD800 || 0xE000 <= n < 0x11_0000 }

  /** Decodes the first scalar value of `bs`, rejecting overlong forms, surrogates and
      values above U+10FFFF. */
  function DecodeFirst(bs: seq<Byte>): (r: Option<Decoded>)
    requires |bs| > 0
    ensures r.Some? ==> 1 <= r.value.width <= 4 && r.value.width <= |bs|
  {
    var b0: int := bs[0];
    if b0 < 0x80 then
      Some(Decoded(b0 as char, 1))
    else if 0xC2 <= b0 < 0xE0 then
      if |bs| >= 2 && IsContinuation(bs[1]) then
        var n := (b0 - 0xC0) * 0x40 + (bs[1] as int - 0x80);
        Some(Decoded(n as char, 2))
      else None
    else if 0xE0 <= b0 < 0xF0 then
      if |bs| >= 3 && IsContinuation(bs[1]) && IsContinuation(bs[2]) then
        var n := (b0 - 0xE0) * 0x1000 + (bs[1] as int - 0x80) * 0x40 + (bs[2] as int - 0x80);
        if 0x800 <= n && IsScalar(n) then Some(Decoded(n as char, 3)) else None
      else None
    else if 0xF0 <= b0 < 0xF5 then
      if |bs| >= 4 && IsContinuation(bs[1]) && IsContinuation(bs[2]) && IsContinuation(bs[3]) then
        var n := (b0 - 0xF0) * 0x4_0000 + (bs[1] as int - 0x80) * 0x1000 + (bs[2] as int - 0x80) * 0x40 + (bs[3] as int - 0x80);
        if 0x1_0000 <= n < 0x11_0000 then Some(Decoded(n as char, 4)) else None
      else None
    else
      None
  }

  /** Strict UTF-8 decoding: None for any ill-formed byte sequence. */
  function Decode(bs: seq<Byte>): Option<string>
    decreases |bs|
  {
    if bs == [] then Some([])
    else
      match DecodeFirst(bs)
      case None => None
      case Some(d) =>
        match Decode(bs[d.width..])
        case None => None
        case Some(rest) => Some([d.c] + rest)
  }

  /** The byte length equals the character count exactly for ASCII text. */
  lemma {:induction false} ByteLengthBounds(s: string)
    ensures ByteLength(s) == |s| <==> forall k :: 0 <= k < |s| ==> (s[k] as int) < 0x80
  {
    if s != [] {
      ByteLengthBounds(s[1..]);
      assert forall k :: 1 <= k < |s| ==> s[k] == s[1..][k - 1];
    }
  }

  /** Decoding the encoding of one character, case by case on its width. */
  lemma DecodeFirstOfEncodeChar(c: char, rest: seq<Byte>)
    ensures DecodeFirst(EncodeChar(c) + rest) == Some(Decoded(c, Width(c)))
  {
    var n := c as int;
    if n < 0x80 {
    } else if n < 0x800 {
      DecodeTwoBytes(c, rest);
    } else if n < 0x1_0000 {
      DecodeThreeBytes(c, rest);
    } else {
      DecodeFourBytes(c, rest);
    }
  }

  // One lemma per width keeps each proof obligation small enough for the solver.
  lemma DecodeTwoBytes(c: char, rest: seq<Byte>)
    requires 0x80 <= c as int < 0x800
    ensures DecodeFirst(EncodeChar(c) + rest) == Some(Decoded(c, 2))
  {
  }

  lemma DecodeThreeBytes(c: char, rest: seq<Byte>)
    requires 0x800 <= c as int < 0x1_0000
    ensures DecodeFirst(EncodeChar(c) + rest) == Some(Decoded(c, 3))
  {
  }

  lemma DecodeFourBytes(c: char, rest: seq<Byte>)
    requires 0x1_0000 <= c as int
    ensures DecodeFirst(EncodeChar(c) + rest) == Some(Decoded(c, 4))
  {
  }

  /** Decoding undoes encoding. */
  lemma {:induction false} DecodeEncode(s: string)
    ensures Decode(Encode(s)) == Some(s)
  {
    if s != [] {
      var head := EncodeChar(s[0]);
      DecodeFirstOfEncodeChar(s[0], Encode(s[1..]));
      assert (head + Encode(s[1..]))[Width(s[0])..] == Encode(s[1..]);
      DecodeEncode(s[1..]);
      assert [s[0]] + s[1..] == s;
    }
  }

  /** The bytes DecodeFirst consumes are the encoding of the character it returns. */
  lemma EncodeCharOfDecodeFirst(bs: seq<Byte>)
    requires |bs| > 0 && DecodeFirst(bs).Some?
    ensures bs[..DecodeFirst(bs).value.width] == EncodeChar(DecodeFirst(bs).value.c)
  {
    var b0: int := bs[0];
    if b0 < 0x80 {
    } else if b0 < 0xE0 {
      EncodeTwoBytes(bs);
    } else if b0 < 0xF0 {
      EncodeThreeBytes(bs);
    } else {
      EncodeFourBytes(bs);
    }
  }

  // As above, one lemma per width.
  lemma EncodeTwoBytes(bs: seq<Byte>)
    requires |bs| > 0 && 0x80 <= bs[0] < 0xE0 && DecodeFirst(bs).Some?
    ensures bs[..DecodeFirst(bs).value.width] == EncodeChar(DecodeFirst(bs).value.c)
  {
  }

  lemma EncodeThreeBytes(bs: seq<Byte>)
    requires |bs| > 0 && 0xE0 <= bs[0] < 0xF0 && DecodeFirst(bs).Some?
    ensures bs[..DecodeFirst(bs).value.width] == EncodeChar(DecodeFirst(bs).value.c)
  {
  }

  lemma EncodeFourBytes(bs: seq<Byte>)
    requires |bs| > 0 && 0xF0 <= bs[0] && DecodeFirst(bs).Some?
    ensures bs[..DecodeFirst(bs).value.width] == EncodeChar(DecodeFirst(bs).value.c)
  {
    var n := DecodeFirst(bs).value.c as int;
    var top, hi, mid, lo := bs[0] as int - 0xF0, bs[1] as int - 0x80, bs[2] as int - 0x80, bs[3] as int - 0x80;
    assert n == top * 0x4_0000 + hi * 0x1000 + mid * 0x40 + lo;
    assert 0 <= hi < 0x40 && 0 <= mid < 0x40 && 0 <= lo < 0x40;
    assert n / 0x40 == top * 0x1000 + hi * 0x40 + mid && n % 0x40 == lo;
    assert n / 0x1000 == top * 0x40 + hi && (n / 0x40) % 0x40 == mid;
    assert n / 0x4_0000 == top && (n / 0x1000) % 0x40 == hi;
  }

  /** Encoding undoes decoding: the only byte sequences Decode accepts are encodings. */
  lemma {:induction false} EncodeDecode(bs: seq<Byte>)
    requires Decode(bs).Some?
    ensures Encode(Decode(bs).value) == bs
    decreases |bs|
  {
    if bs != [] {
      var d := DecodeFirst(bs).value;
      EncodeCharOfDecodeFirst(bs);
      EncodeDecode(bs[d.width..]);
      var s := Decode(bs).value;
      assert s[0] == d.c && s[1..] == Decode(bs[d.width..]).value;
      assert bs == bs[..d.width] + bs[d.width..];
    }
  }
}
