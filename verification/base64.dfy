/** The base64 encoding of section 4 of RFC 4648 (alphabet `A-Z a-z 0-9 + /`,
    `=` padding), which `Buffer.toString('base64')` produces. The decoder is
    the strict one: it accepts only canonical encodings (section 3.5: pad bits
    are zero), so encoding and decoding are inverse bijections. */
module Base64 {
  import opened Wrappers
  import opened Bytes

  type sextet = s: int | 0 <= s < 64

  const Padding: char := '='

  /** The alphabet of Table 1 of RFC 4648. */
  function CharOf(s: sextet): char
  {
    if s < 26 then (65 + s) as char
    else if s < 52 then (97 + s - 26) as char
    else if s < 62 then (48 + s - 52) as char
    else if s == 62 then '+'
    else '/'
  }

  /** The inverse of the alphabet table; `None` for a character outside it. */
  function SextetOf(c: char): (r: Option<sextet>)
    ensures r.Some? ==> CharOf(r.value) == c
    ensures c != Padding || r.None?
  {
    if 'A' <= c <= 'Z' then Some(c as int - 65)
    else if 'a' <= c <= 'z' then Some(c as int - 97 + 26)
    else if '0' <= c <= '9' then Some(c as int - 48 + 52)
    else if c == '+' then Some(62)
    else if c == '/' then Some(63)
    else None
  }

  predicate InAlphabet(c: char)
  {
    SextetOf(c).Some?
  }

  lemma SextetOfCharOf(s: sextet)
    ensures SextetOf(CharOf(s)) == Some(s)
    ensures CharOf(s) != Padding
  {
  }

  /** Three bytes become four characters, six bits each, most significant first. */
  function EncodeGroup(a: byte, b: byte, c: byte): seq<char>
  {
    [CharOf(a / 4), CharOf((a % 4) * 16 + b / 16), CharOf((b % 16) * 4 + c / 64), CharOf(c % 64)]
  }

  function Encode(bs: seq<byte>): (r: seq<char>)
    ensures |r| == 4 * ((|bs| + 2) / 3)
    decreases |bs|
  {
    if |bs| == 0 then []
    else if |bs| == 1 then [CharOf(bs[0] / 4), CharOf((bs[0] % 4) * 16), Padding, Padding]
    else if |bs| == 2 then [CharOf(bs[0] / 4), CharOf((bs[0] % 4) * 16 + bs[1] / 16), CharOf((bs[1] % 16) * 4), Padding]
    else EncodeGroup(bs[0], bs[1], bs[2]) + Encode(bs[3..])
  }

  /** Decodes one group of four characters; only the `last` group may carry padding,
      and the bits the padding discards must be zero. */
  function DecodeGroup(q: seq<char>, last: bool): Option<seq<byte>>
    requires |q| == 4
  {
    var s0 :- SextetOf(q[0]);
    var s1 :- SextetOf(q[1]);
    if last && q[2] == Padding && q[3] == Padding then
      if s1 % 16 == 0 then Some([s0 * 4 + s1 / 16]) else None
    else
      var s2 :- SextetOf(q[2]);
      if last && q[3] == Padding then
        if s2 % 4 == 0 then Some([s0 * 4 + s1 / 16, (s1 % 16) * 16 + s2 / 4]) else None
      else
        var s3 :- SextetOf(q[3]);
        Some([s0 * 4 + s1 / 16, (s1 % 16) * 16 + s2 / 4, (s2 % 4) * 64 + s3])
  }

  function Decode(s: seq<char>): Option<seq<byte>>
    decreases |s|
  {
    if |s| == 0 then Some([])
    else if |s| < 4 then None
    else
      var group :- DecodeGroup(s[..4], |s| == 4);
      var rest :- Decode(s[4..]);
      Some(group + rest)
  }

  /** Every character of an encoding is an alphabet character or padding. */
  lemma {:induction false} EncodeInAlphabet(bs: seq<byte>)
    ensures forall c :: c in Encode(bs) ==> InAlphabet(c) || c == Padding
    decreases |bs|
  {
    var a: int := if |bs| > 0 then bs[0] else 0;
    var b: int := if |bs| > 1 then bs[1] else 0;
    var c: int := if |bs| > 2 then bs[2] else 0;
    SextetOfCharOf(a / 4);
    SextetOfCharOf((a % 4) * 16 + b / 16);
    SextetOfCharOf((b % 16) * 4 + c / 64);
    SextetOfCharOf(c % 64);
    if |bs| >= 3 {
      EncodeInAlphabet(bs[3..]);
    }
  }

  // Bit arithmetic of the group split, on plain integers.

  /** Three bytes cut into four sextets are recovered from them. */
  lemma JoinSplitThree(a: int, b: int, c: int)
    requires 0 <= a < 256 && 0 <= b < 256 && 0 <= c < 256
    ensures var s1, s2 := (a % 4) * 16 + b / 16, (b % 16) * 4 + c / 64;
      (a / 4) * 4 + s1 / 16 == a && (s1 % 16) * 16 + s2 / 4 == b && (s2 % 4) * 64 + c % 64 == c
  {
  }

  /** Two bytes cut into three sextets, the last with two zero pad bits. */
  lemma SplitTwoBytes(a: int, b: int)
    requires 0 <= a < 256 && 0 <= b < 256
    ensures var s0, s1, s2 := a / 4, (a % 4) * 16 + b / 16, (b % 16) * 4;
      0 <= s0 < 64 && 0 <= s1 < 64 && 0 <= s2 < 64 && s2 % 4 == 0
      && s0 * 4 + s1 / 16 == a && (s1 % 16) * 16 + s2 / 4 == b
  {
  }

  /** One byte cut into two sextets, the last with four zero pad bits. */
  lemma SplitOneByte(a: int)
    requires 0 <= a < 256
    ensures var s0, s1 := a / 4, (a % 4) * 16;
      0 <= s0 < 64 && 0 <= s1 < 64 && s1 % 16 == 0 && s0 * 4 + s1 / 16 == a
  {
  }

  /** Four sextets joined into three bytes are recovered from them. */
  lemma SplitJoinThree(s0: int, s1: int, s2: int, s3: int)
    requires 0 <= s0 < 64 && 0 <= s1 < 64 && 0 <= s2 < 64 && 0 <= s3 < 64
    ensures var a, b, c := s0 * 4 + s1 / 16, (s1 % 16) * 16 + s2 / 4, (s2 % 4) * 64 + s3;
      a / 4 == s0 && (a % 4) * 16 + b / 16 == s1 && (b % 16) * 4 + c / 64 == s2 && c % 64 == s3
  {
  }

  // Decoding groups written as sextets, away from any byte string.

  lemma DecodeFullGroup(s0: sextet, s1: sextet, s2: sextet, s3: sextet, last: bool)
    ensures DecodeGroup([CharOf(s0), CharOf(s1), CharOf(s2), CharOf(s3)], last)
      == Some([s0 * 4 + s1 / 16, (s1 % 16) * 16 + s2 / 4, (s2 % 4) * 64 + s3])
  {
    SextetOfCharOf(s0);
    SextetOfCharOf(s1);
    SextetOfCharOf(s2);
    SextetOfCharOf(s3);
  }

  lemma DecodeOnePadGroup(s0: sextet, s1: sextet, s2: sextet)
    requires s2 % 4 == 0
    ensures DecodeGroup([CharOf(s0), CharOf(s1), CharOf(s2), Padding], true)
      == Some([s0 * 4 + s1 / 16, (s1 % 16) * 16 + s2 / 4])
  {
    SextetOfCharOf(s0);
    SextetOfCharOf(s1);
    SextetOfCharOf(s2);
  }

  lemma DecodeTwoPadGroup(s0: sextet, s1: sextet)
    requires s1 % 16 == 0
    ensures DecodeGroup([CharOf(s0), CharOf(s1), Padding, Padding], true) == Some([s0 * 4 + s1 / 16])
  {
    SextetOfCharOf(s0);
    SextetOfCharOf(s1);
  }

  lemma DecodeEncodeGroup(a: byte, b: byte, c: byte, last: bool)
    ensures DecodeGroup(EncodeGroup(a, b, c), last) == Some([a, b, c])
  {
    DecodeFullGroup(a / 4, (a % 4) * 16 + b / 16, (b % 16) * 4 + c / 64, c % 64, last);
    JoinSplitThree(a, b, c);
  }

  /** Decoding undoes encoding for every byte string. */
  lemma {:induction false} DecodeEncode(bs: seq<byte>)
    ensures Decode(Encode(bs)) == Some(bs)
    decreases |bs|
  {
    if |bs| == 1 {
      DecodeEncodeOne(bs);
    } else if |bs| == 2 {
      DecodeEncodeTwo(bs);
    } else if |bs| >= 3 {
      DecodeEncode(bs[3..]);
      DecodeEncodeStep(bs);
    }
  }

  /** A full group in front of an encoding that decodes correctly decodes correctly. */
  lemma DecodeEncodeStep(bs: seq<byte>)
    requires |bs| >= 3 && Decode(Encode(bs[3..])) == Some(bs[3..])
    ensures Decode(Encode(bs)) == Some(bs)
  {
    var g := EncodeGroup(bs[0], bs[1], bs[2]);
    var tail := Encode(bs[3..]);
    SplitFront(bs);
    assert Encode(bs) == g + tail;
    DecodeEncodeGroup(bs[0], bs[1], bs[2], |tail| == 0);
    DecodeAppend(g, tail, [bs[0], bs[1], bs[2]], bs[3..]);
  }

  lemma SplitFront(bs: seq<byte>)
    requires |bs| >= 3
    ensures [bs[0], bs[1], bs[2]] + bs[3..] == bs
  {
  }

  /** Decoding proceeds group by group from the front. */
  lemma DecodeAppend(q: seq<char>, tail: seq<char>, g: seq<byte>, t: seq<byte>)
    requires |q| == 4 && DecodeGroup(q, |tail| == 0) == Some(g) && Decode(tail) == Some(t)
    ensures Decode(q + tail) == Some(g + t)
  {
    var s := q + tail;
    assert s[..4] == q && s[4..] == tail;
  }

  /** A four-character input is decoded as one final group. */
  lemma DecodeSingleGroup(q: seq<char>, g: seq<byte>)
    requires |q| == 4 && DecodeGroup(q, true) == Some(g)
    ensures Decode(q) == Some(g)
  {
    assert q[..4] == q && q[4..] == [];
    assert g + [] == g;
  }

  /** One trailing byte: two characters and two pad characters. */
  lemma DecodeEncodeOne(bs: seq<byte>)
    requires |bs| == 1
    ensures Decode(Encode(bs)) == Some(bs)
  {
    assert Encode(bs) == [CharOf(bs[0] / 4), CharOf((bs[0] % 4) * 16), Padding, Padding];
    assert bs == [bs[0]];
    DecodeOneByte(bs[0]);
  }

  lemma DecodeOneByte(a: byte)
    ensures Decode([CharOf(a / 4), CharOf((a % 4) * 16), Padding, Padding]) == Some([a])
  {
    SplitOneByte(a);
    var s0: sextet, s1: sextet := a / 4, (a % 4) * 16;
    var q := [CharOf(s0), CharOf(s1), Padding, Padding];
    DecodeTwoPadGroup(s0, s1);
    DecodeSingleGroup(q, [a]);
  }

  /** Two trailing bytes: three characters and one pad character. */
  lemma DecodeEncodeTwo(bs: seq<byte>)
    requires |bs| == 2
    ensures Decode(Encode(bs)) == Some(bs)
  {
    assert Encode(bs) == [CharOf(bs[0] / 4), CharOf((bs[0] % 4) * 16 + bs[1] / 16), CharOf((bs[1] % 16) * 4), Padding];
    assert bs == [bs[0], bs[1]];
    DecodeTwoBytes(bs[0], bs[1]);
  }

  lemma DecodeTwoBytes(a: byte, b: byte)
    ensures Decode([CharOf(a / 4), CharOf((a % 4) * 16 + b / 16), CharOf((b % 16) * 4), Padding]) == Some([a, b])
  {
    SplitTwoBytes(a, b);
    var s0: sextet, s1: sextet, s2: sextet := a / 4, (a % 4) * 16 + b / 16, (b % 16) * 4;
    var q := [CharOf(s0), CharOf(s1), CharOf(s2), Padding];
    DecodeOnePadGroup(s0, s1, s2);
    DecodeSingleGroup(q, [a, b]);
  }

  /** A group that decodes is the encoding of what it decodes to. */
  lemma EncodeDecodeGroup(q: seq<char>, last: bool)
    requires |q| == 4 && DecodeGroup(q, last).Some?
    ensures GroupEncodes(q, last)
  {
    if last && q[2] == Padding && q[3] == Padding {
      EncodeTwoPadGroup(q);
    } else if last && q[3] == Padding {
      EncodeOnePadGroup(q);
    } else {
      EncodeFullGroup(q, last);
    }
  }

  /** What a decodable group `q` decodes to has `q` as its encoding. */
  predicate GroupEncodes(q: seq<char>, last: bool)
    requires |q| == 4 && DecodeGroup(q, last).Some?
  {
    var g := DecodeGroup(q, last).value;
    1 <= |g| <= 3 && (|g| < 3 ==> last) && Encode(g) == q
    && (|g| == 3 ==> EncodeGroup(g[0], g[1], g[2]) == q)
  }

  lemma EncodeTwoPadGroup(q: seq<char>)
    requires |q| == 4 && DecodeGroup(q, true).Some? && q[2] == Padding && q[3] == Padding
    ensures GroupEncodes(q, true)
  {
    var s0, s1 := SextetOf(q[0]).value, SextetOf(q[1]).value;
    SplitJoinThree(s0, s1, 0, 0);
    assert q == [CharOf(s0), CharOf(s1), Padding, Padding];
  }

  lemma EncodeOnePadGroup(q: seq<char>)
    requires |q| == 4 && DecodeGroup(q, true).Some? && q[2] != Padding && q[3] == Padding
    ensures GroupEncodes(q, true)
  {
    var s0, s1, s2 := SextetOf(q[0]).value, SextetOf(q[1]).value, SextetOf(q[2]).value;
    SplitJoinThree(s0, s1, s2, 0);
    assert q == [CharOf(s0), CharOf(s1), CharOf(s2), Padding];
  }

  lemma EncodeFullGroup(q: seq<char>, last: bool)
    requires |q| == 4 && DecodeGroup(q, last).Some? && !(last && q[3] == Padding)
    ensures GroupEncodes(q, last)
  {
    var s0: int, s1: int, s2: int, s3: int := SextetOf(q[0]).value, SextetOf(q[1]).value, SextetOf(q[2]).value, SextetOf(q[3]).value;
    var g: seq<byte> := [s0 * 4 + s1 / 16, (s1 % 16) * 16 + s2 / 4, (s2 % 4) * 64 + s3];
    assert DecodeGroup(q, last) == Some(g);
    SplitJoinThree(s0, s1, s2, s3);
    assert q == [CharOf(s0), CharOf(s1), CharOf(s2), CharOf(s3)];
    assert Encode(g) == EncodeGroup(g[0], g[1], g[2]) + Encode(g[3..]);
  }

  /** Encoding undoes decoding: every string the decoder accepts is the
      canonical encoding of its result. */
  lemma {:induction false} EncodeDecode(s: seq<char>)
    requires Decode(s).Some?
    ensures Encode(Decode(s).value) == s
    decreases |s|
  {
    if |s| > 0 {
      var g := DecodeGroup(s[..4], |s| == 4).value;
      var rest := Decode(s[4..]).value;
      assert Decode(s).value == g + rest;
      EncodeDecodeGroup(s[..4], |s| == 4);
      EncodeDecode(s[4..]);
      EncodeAppendGroup(g, rest, |s| == 4);
      assert s[..4] + s[4..] == s;
    }
  }

  /** Encoding distributes over a decoded group followed by the rest of the input. */
  lemma EncodeAppendGroup(g: seq<byte>, rest: seq<byte>, last: bool)
    requires 1 <= |g| <= 3 && (|g| < 3 ==> last) && (last ==> rest == [])
    requires |g| == 3 ==> Encode(g) == EncodeGroup(g[0], g[1], g[2])
    ensures Encode(g + rest) == Encode(g) + Encode(rest)
  {
    if last {
      assert g + rest == g;
    } else {
      var bs := g + rest;
      assert bs[..3] == g && bs[3..] == rest;
    }
  }
}
