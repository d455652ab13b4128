/**
 * UTF-8 as Python's `str.encode('utf-8')` and `str(bytes, 'utf-8')` use it
 * (RFC 3629, section 3): every Unicode scalar value takes one to four bytes,
 * and the strict decoder refuses overlong forms, surrogates, values above
 * U+10FFFF, stray continuation bytes and truncated sequences.
 */
module Utf8 {
  import opened Wrappers

  newtype uint8 = x: int | 0 <= x < 256

  /** The number of bytes UTF-8 spends on one code point. */
  function Width(c: char): (w: nat)
    ensures 1 <= w <= 4
  {
    var v := c as int;
    if v < 0x80 then 1 else if v < 0x800 then 2 else if v < 0x10000 then 3 else 4
  }

  /** `len(s.encode('utf-8'))`, computed without building the bytes. */
  function Utf8Len(s: string): nat
  {
    if s == [] then 0 else Width(s[0]) + Utf8Len(s[1..])
  }

  lemma {:induction false} Utf8LenBounds(s: string)
    ensures |s| <= Utf8Len(s) <= 4 * |s|
  {
    if s != [] {
      Utf8LenBounds(s[1..]);
    }
  }

  predicate IsContinuation(b: uint8)
  {
    0x80 <= b < 0xC0
  }

  /** The bytes of one code point: a lead byte, then six bits per continuation byte. */
  function EncodeChar(c: char): (bs: seq<uint8>)
    ensures |bs| == Width(c)
    ensures bs[0] < 0x80 || 0xC2 <= bs[0] <= 0xF4
    ensures forall i :: 1 <= i < |bs| ==> IsContinuation(bs[i])
  {
    var v := c as int;
    var q1, r1 := v / 64, v % 64;
    var q2, r2 := q1 / 64, q1 % 64;
    var q3, r3 := q2 / 64, q2 % 64;
    if v < 0x80 then
      [v as uint8]
    else if v < 0x800 then
      [(0xC0 + q1) as uint8, (0x80 + r1) as uint8]
    else if v < 0x10000 then
      [(0xE0 + q2) as uint8, (0x80 + r2) as uint8, (0x80 + r1) as uint8]
    else
      [(0xF0 + q3) as uint8, (0x80 + r3) as uint8, (0x80 + r2) as uint8, (0x80 + r1) as uint8]
  }

  /** `s.encode('utf-8')`. */
  function Encode(s: string): seq<uint8>
  {
    if s == [] then [] else EncodeChar(s[0]) + Encode(s[1..])
  }

  /** The encoded length is the length `Utf8Len` charges. */
  lemma {:induction false} EncodeLength(s: string)
    ensures |Encode(s)| == Utf8Len(s)
  {
    if s != [] {
      EncodeLength(s[1..]);
    }
  }

  predicate IsScalar(v: int)
  {
    0 <= v < 0xD800 || 0xE000 <= v < 0x110000
  }

  /**
   * Decodes the first well-formed sequence of `bs`: the code point and the
   * number of bytes it took, or None where the strict decoder raises.
   */
  function DecodeFirst(bs: seq<uint8>): (r: Option<(char, nat)>)
    requires |bs| > 0
    ensures r.Some? ==> 1 <= r.value.1 <= |bs|
  {
    var b0 := bs[0] as int;
    if b0 < 0x80 then
      Some((b0 as char, 1))
    else if 0xC2 <= b0 <= 0xDF && |bs| >= 2 && IsContinuation(bs[1]) then
      var v := (b0 - 0xC0) * 64 + (bs[1] as int - 0x80);
      Some((v as char, 2))
    else if 0xE0 <= b0 <= 0xEF && |bs| >= 3 && IsContinuation(bs[1]) && IsContinuation(bs[2]) then
      var v := (b0 - 0xE0) * 4096 + (bs[1] as int - 0x80) * 64 + (bs[2] as int - 0x80);
      if 0x800 <= v && IsScalar(v) then Some((v as char, 3)) else None
    else if 0xF0 <= b0 <= 0xF4 && |bs| >= 4
         && IsContinuation(bs[1]) && IsContinuation(bs[2]) && IsContinuation(bs[3]) then
      var v := (b0 - 0xF0) * 262144 + (bs[1] as int - 0x80) * 4096
               + (bs[2] as int - 0x80) * 64 + (bs[3] as int - 0x80);
      if 0x10000 <= v < 0x110000 then Some((v as char, 4)) else None
    else
      None
  }

  /** `str(bs, 'utf-8')`: None where Python raises UnicodeDecodeError. */
  function Decode(bs: seq<uint8>): Option<string>
    decreases |bs|
  {
    if bs == [] then Some([])
    else
      match DecodeFirst(bs)
      case None => None
      case Some((c, n)) =>
        match Decode(bs[n..])
        case None => None
        case Some(rest) => Some([c] + rest)
  }

  lemma DecodeFirstOfEncodeChar(c: char, rest: seq<uint8>)
    ensures DecodeFirst(EncodeChar(c) + rest) == Some((c, Width(c)))
  {
    var v := c as int;
    var bs := EncodeChar(c) + rest;
    if v < 0x80 {
    } else if v < 0x800 {
      assert (bs[0] as int - 0xC0) * 64 + (bs[1] as int - 0x80) == v;
    } else if v < 0x10000 {
      assert (bs[0] as int - 0xE0) * 4096 + (bs[1] as int - 0x80) * 64 + (bs[2] as int - 0x80) == v;
    } else {
      assert (bs[0] as int - 0xF0) * 262144 + (bs[1] as int - 0x80) * 4096
             + (bs[2] as int - 0x80) * 64 + (bs[3] as int - 0x80) == v;
    }
  }

  /** Decoding what was encoded gives the text back. */
  lemma {:induction false} DecodeEncode(s: string)
    ensures Decode(Encode(s)) == Some(s)
  {
    if s != [] {
      var bs := Encode(s);
      DecodeFirstOfEncodeChar(s[0], Encode(s[1..]));
      assert bs[Width(s[0])..] == Encode(s[1..]);
      DecodeEncode(s[1..]);
      assert [s[0]] + s[1..] == s;
    }
  }

  lemma DivMod64(a: int, b: int)
    requires 0 <= b < 64
    ensures (a * 64 + b) / 64 == a && (a * 64 + b) % 64 == b
  {
  }

  lemma EncodeTwo(b0: int, b1: int)
    requires 0xC2 <= b0 <= 0xDF && 0x80 <= b1 < 0xC0
    ensures var v := (b0 - 0xC0) * 64 + (b1 - 0x80);
      IsScalar(v) && EncodeChar(v as char) == [b0 as uint8, b1 as uint8]
  {
    DivMod64(b0 - 0xC0, b1 - 0x80);
  }

  lemma EncodeThree(b0: int, b1: int, b2: int)
    requires 0xE0 <= b0 <= 0xEF && 0x80 <= b1 < 0xC0 && 0x80 <= b2 < 0xC0
    requires var v := (b0 - 0xE0) * 4096 + (b1 - 0x80) * 64 + (b2 - 0x80); 0x800 <= v && IsScalar(v)
    ensures var v := (b0 - 0xE0) * 4096 + (b1 - 0x80) * 64 + (b2 - 0x80);
      EncodeChar(v as char) == [b0 as uint8, b1 as uint8, b2 as uint8]
  {
    var q1 := (b0 - 0xE0) * 64 + (b1 - 0x80);
    DivMod64(q1, b2 - 0x80);
    DivMod64(b0 - 0xE0, b1 - 0x80);
  }

  lemma EncodeFour(b0: int, b1: int, b2: int, b3: int)
    requires 0xF0 <= b0 <= 0xF4 && 0x80 <= b1 < 0xC0 && 0x80 <= b2 < 0xC0 && 0x80 <= b3 < 0xC0
    requires var v := (b0 - 0xF0) * 262144 + (b1 - 0x80) * 4096 + (b2 - 0x80) * 64 + (b3 - 0x80);
      0x10000 <= v < 0x110000
    ensures var v := (b0 - 0xF0) * 262144 + (b1 - 0x80) * 4096 + (b2 - 0x80) * 64 + (b3 - 0x80);
      EncodeChar(v as char) == [b0 as uint8, b1 as uint8, b2 as uint8, b3 as uint8]
  {
    var q2 := (b0 - 0xF0) * 64 + (b1 - 0x80);
    var q1 := q2 * 64 + (b2 - 0x80);
    DivMod64(q1, b3 - 0x80);
    DivMod64(q2, b2 - 0x80);
    DivMod64(b0 - 0xF0, b1 - 0x80);
  }

  lemma EncodeCharOfDecodeFirst(bs: seq<uint8>)
    requires |bs| > 0 && DecodeFirst(bs).Some?
    ensures EncodeChar(DecodeFirst(bs).value.0) == bs[..DecodeFirst(bs).value.1]
  {
    var b0 := bs[0] as int;
    if b0 < 0x80 {
    } else if 0xC2 <= b0 <= 0xDF {
      EncodeTwo(b0, bs[1] as int);
    } else if 0xE0 <= b0 <= 0xEF {
      EncodeThree(b0, bs[1] as int, bs[2] as int);
    } else {
      EncodeFour(b0, bs[1] as int, bs[2] as int, bs[3] as int);
    }
  }

  lemma EncodeCons(c: char, s: string)
    ensures Encode([c] + s) == EncodeChar(c) + Encode(s)
  {
    assert ([c] + s)[1..] == s;
  }

  /**
   * One step of a successful decoding: the first code point takes n bytes,
   * which are its encoding, and the rest decodes on its own.
   */
  lemma DecodeStep(bs: seq<uint8>) returns (n: nat)
    requires bs != [] && Decode(bs).Some?
    ensures 1 <= n <= |bs| && Decode(bs[n..]).Some?
    ensures Encode(Decode(bs).value) == bs[..n] + Encode(Decode(bs[n..]).value)
  {
    var c := DecodeFirst(bs).value.0;
    n := DecodeFirst(bs).value.1;
    EncodeCharOfDecodeFirst(bs);
    EncodeCons(c, Decode(bs[n..]).value);
  }

  /** Whatever decodes successfully is exactly the encoding of its result. */
  lemma {:induction false} EncodeDecode(bs: seq<uint8>)
    requires Decode(bs).Some?
    ensures Encode(Decode(bs).value) == bs
    decreases |bs|
  {
    if bs != [] {
      var n := DecodeStep(bs);
      EncodeDecode(bs[n..]);
      assert bs == bs[..n] + bs[n..];
    }
  }
}
