/** UTF-8 as defined in section 3 of RFC 3629: the byte form that
    `Buffer.from(text)` gives a JavaScript string before it is Base64 encoded.
    Characters are Unicode scalar values, so the encoder is total and the
    strict decoder below is its exact inverse. */
module Utf8 {
  import opened Wrappers
  import opened Bytes

  /** Number of bytes the encoding of `c` occupies. */
  function Width(c: char): nat
  {
    var v := c as int;
    if v < 0x80 then 1 else if v < 0x800 then 2 else if v < 0x1_0000 then 3 else 4
  }

  predicate IsContinuation(b: byte)
  {
    0x80 <= b < 0xC0
  }

  function EncodeChar(c: char): (r: seq<byte>)
    ensures |r| == Width(c)
    ensures 1 < |r| ==> forall i :: 1 <= i < |r| ==> IsContinuation(r[i])
  {
    var v := c as int;
    if v < 0x80 then [v]
    else if v < 0x800 then [0xC0 + v / 64, 0x80 + v % 64]
    else if v < 0x1_0000 then [0xE0 + v / 4096, 0x80 + (v / 64) % 64, 0x80 + v % 64]
    else [0xF0 + v / 262144, 0x80 + (v / 4096) % 64, 0x80 + (v / 64) % 64, 0x80 + v % 64]
  }

  function Encode(s: string): (r: seq<byte>)
    ensures |s| <= |r| <= 4 * |s|
  {
    if |s| == 0 then [] else EncodeChar(s[0]) + Encode(s[1..])
  }

  /** Decodes the first character of `bs`, returning it with the number of
      bytes it used; `None` for a malformed, overlong or surrogate sequence. */
  function DecodeFirst(bs: seq<byte>): (r: Option<(char, nat)>)
    requires |bs| > 0
    ensures r.Some? ==> 1 <= r.value.1 <= |bs|
  {
    var b0: int := bs[0];
    if b0 < 0x80 then
      Some((b0 as char, 1))
    else if 0xC0 <= b0 < 0xE0 && 2 <= |bs| && IsContinuation(bs[1]) then
      var v := (b0 - 0xC0) * 64 + (bs[1] as int - 0x80);
      if 0x80 <= v then Some((v as char, 2)) else None
    else if 0xE0 <= b0 < 0xF0 && 3 <= |bs| && IsContinuation(bs[1]) && IsContinuation(bs[2]) then
      var v := (b0 - 0xE0) * 4096 + (bs[1] as int - 0x80) * 64 + (bs[2] as int - 0x80);
      if 0x800 <= v && !(0xD800 <= v < 0xE000) then Some((v as char, 3)) else None
    else if 0xF0 <= b0 < 0xF8 && 4 <= |bs| && IsContinuation(bs[1]) && IsContinuation(bs[2]) && IsContinuation(bs[3]) then
      var v := (b0 - 0xF0) * 262144 + (bs[1] as int - 0x80) * 4096 + (bs[2] as int - 0x80) * 64 + (bs[3] as int - 0x80);
      if 0x1_0000 <= v < 0x11_0000 then Some((v as char, 4)) else None
    else
      None
  }

  function Decode(bs: seq<byte>): Option<string>
    decreases |bs|
  {
    if |bs| == 0 then Some([])
    else
      match DecodeFirst(bs)
      case None => None
      case Some((c, n)) =>
        var rest :- Decode(bs[n..]);
        Some([c] + rest)
  }

  /** Decoding the encoding of one character, followed by anything, gives the character back. */
  lemma DecodeFirstOfEncodeChar(c: char, rest: seq<byte>)
    ensures DecodeFirst(EncodeChar(c) + rest) == Some((c, Width(c)))
  {
    var v := c as int;
    var bs := EncodeChar(c) + rest;
    if v < 0x80 {
      assert bs[0] == v;
    } else if v < 0x800 {
      TwoByteDecodes(c, rest);
    } else if v < 0x1_0000 {
      ThreeByteDecodes(c, rest);
    } else {
      FourByteDecodes(c, rest);
    }
  }

  lemma TwoByteDecodes(c: char, rest: seq<byte>)
    requires 0x80 <= c as int < 0x800
    ensures DecodeFirst(EncodeChar(c) + rest) == Some((c, 2))
  {
    var v := c as int;
    var bs := EncodeChar(c) + rest;
    var b0: int, b1: int := bs[0], bs[1];
    assert b0 == 0xC0 + v / 64 && b1 == 0x80 + v % 64;
    assert (b0 - 0xC0) * 64 + (b1 - 0x80) == v;
  }

  lemma ThreeByteDecodes(c: char, rest: seq<byte>)
    requires 0x800 <= c as int < 0x1_0000
    ensures DecodeFirst(EncodeChar(c) + rest) == Some((c, 3))
  {
    var v := c as int;
    var bs := EncodeChar(c) + rest;
    var b0: int, b1: int, b2: int := bs[0], bs[1], bs[2];
    assert b0 == 0xE0 + v / 4096 && b1 == 0x80 + (v / 64) % 64 && b2 == 0x80 + v % 64;
    assert (v / 4096) * 64 + (v / 64) % 64 == v / 64;
    assert (b0 - 0xE0) * 4096 + (b1 - 0x80) * 64 + (b2 - 0x80) == v;
  }

  lemma FourByteDecodes(c: char, rest: seq<byte>)
    requires 0x1_0000 <= c as int
    ensures DecodeFirst(EncodeChar(c) + rest) == Some((c, 4))
  {
    var v := c as int;
    var bs := EncodeChar(c) + rest;
    var b0: int, b1: int, b2: int, b3: int := bs[0], bs[1], bs[2], bs[3];
    assert b0 == 0xF0 + v / 262144 && b1 == 0x80 + (v / 4096) % 64;
    assert b2 == 0x80 + (v / 64) % 64 && b3 == 0x80 + v % 64;
    assert (v / 262144) * 64 + (v / 4096) % 64 == v / 4096;
    assert (v / 4096) * 64 + (v / 64) % 64 == v / 64;
    assert (b0 - 0xF0) * 262144 + (b1 - 0x80) * 4096 + (b2 - 0x80) * 64 + (b3 - 0x80) == v;
  }

  /** A well-formed leading sequence is exactly the encoding of the character it decodes to. */
  lemma EncodeCharOfDecodeFirst(bs: seq<byte>)
    requires |bs| > 0 && DecodeFirst(bs).Some?
    ensures EncodeChar(DecodeFirst(bs).value.0) == bs[..DecodeFirst(bs).value.1]
  {
    var b0: int := bs[0];
    if b0 < 0x80 {
      assert bs[..1] == [bs[0]];
    } else if b0 < 0xE0 {
      EncodeTwoByteLead(bs);
    } else if b0 < 0xF0 {
      EncodeThreeByteLead(bs);
    } else {
      EncodeFourByteLead(bs);
    }
  }

  // Bit arithmetic of the multi-byte forms, on plain integers.

  lemma SplitTwo(x0: int, x1: int)
    requires 0 <= x1 < 64
    ensures (x0 * 64 + x1) / 64 == x0 && (x0 * 64 + x1) % 64 == x1
  {
  }

  lemma SplitThree(x0: int, x1: int, x2: int)
    requires 0 <= x1 < 64 && 0 <= x2 < 64
    ensures var v := x0 * 4096 + x1 * 64 + x2;
      v / 4096 == x0 && (v / 64) % 64 == x1 && v % 64 == x2
  {
    SplitTwo(x0 * 64 + x1, x2);
    SplitTwo(x0, x1);
  }

  lemma SplitFour(x0: int, x1: int, x2: int, x3: int)
    requires 0 <= x1 < 64 && 0 <= x2 < 64 && 0 <= x3 < 64
    ensures var v := x0 * 262144 + x1 * 4096 + x2 * 64 + x3;
      v / 262144 == x0 && (v / 4096) % 64 == x1 && (v / 64) % 64 == x2 && v % 64 == x3
  {
    SplitTwo(x0 * 4096 + x1 * 64 + x2, x3);
    SplitThree(x0, x1, x2);
  }

  lemma EncodeTwoByteLead(bs: seq<byte>)
    requires |bs| > 0 && DecodeFirst(bs).Some? && 0x80 <= bs[0] < 0xE0
    ensures DecodeFirst(bs).value.1 == 2
    ensures EncodeChar(DecodeFirst(bs).value.0) == bs[..2]
  {
    var x0, x1 := bs[0] as int - 0xC0, bs[1] as int - 0x80;
    SplitTwo(x0, x1);
    assert bs[..2] == [bs[0], bs[1]];
  }

  lemma EncodeThreeByteLead(bs: seq<byte>)
    requires |bs| > 0 && DecodeFirst(bs).Some? && 0xE0 <= bs[0] < 0xF0
    ensures DecodeFirst(bs).value.1 == 3
    ensures EncodeChar(DecodeFirst(bs).value.0) == bs[..3]
  {
    var x0, x1, x2 := bs[0] as int - 0xE0, bs[1] as int - 0x80, bs[2] as int - 0x80;
    SplitThree(x0, x1, x2);
    assert bs[..3] == [bs[0], bs[1], bs[2]];
  }

  lemma EncodeFourByteLead(bs: seq<byte>)
    requires |bs| > 0 && DecodeFirst(bs).Some? && 0xF0 <= bs[0]
    ensures DecodeFirst(bs).value.1 == 4
    ensures EncodeChar(DecodeFirst(bs).value.0) == bs[..4]
  {
    var x0, x1, x2, x3 := bs[0] as int - 0xF0, bs[1] as int - 0x80, bs[2] as int - 0x80, bs[3] as int - 0x80;
    SplitFour(x0, x1, x2, x3);
    assert bs[..4] == [bs[0], bs[1], bs[2], bs[3]];
  }

  /** Decoding undoes encoding: the bytes of any string decode to that string. */
  lemma {:induction false} DecodeEncode(s: string)
    ensures Decode(Encode(s)) == Some(s)
  {
    if |s| > 0 {
      var e := EncodeChar(s[0]);
      DecodeFirstOfEncodeChar(s[0], Encode(s[1..]));
      assert (e + Encode(s[1..]))[|e|..] == Encode(s[1..]);
      DecodeEncode(s[1..]);
      assert [s[0]] + s[1..] == s;
    }
  }

  /** Encoding undoes decoding: only the encoding of a string decodes to it. */
  lemma {:induction false} EncodeDecode(bs: seq<byte>)
    requires Decode(bs).Some?
    ensures Encode(Decode(bs).value) == bs
    decreases |bs|
  {
    if |bs| > 0 {
      var first := DecodeFirst(bs);
      var c, n := first.value.0, first.value.1;
      var tail := Decode(bs[n..]).value;
      assert Decode(bs) == Some([c] + tail);
      EncodeDecode(bs[n..]);
      EncodeCharOfDecodeFirst(bs);
      EncodeCons(bs, n, c, tail);
    }
  }

  /** A character whose encoding is the front of `bs`, followed by a string
      whose encoding is the rest, encodes to `bs`. */
  lemma EncodeCons(bs: seq<byte>, n: nat, c: char, s: string)
    requires n <= |bs| && EncodeChar(c) == bs[..n] && Encode(s) == bs[n..]
    ensures Encode([c] + s) == bs
  {
    var t := [c] + s;
    assert t[0] == c && t[1..] == s;
    assert bs[..n] + bs[n..] == bs;
  }
}
