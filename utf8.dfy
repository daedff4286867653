/**
 * UTF-8 as RFC 3629 defines it: the encoder of section 3 and a decoder that
 * accepts exactly the well-formed sequences of the grammar in section 4
 * (no overlong forms, no surrogates, nothing above U+10FFFF).
 */
module Utf8 {
  import opened Wrappers
  import opened Base64
  import opened SeqFacts

  predicate IsTail(b: Byte) {
    0x80 <= b <= 0xBF
  }

  /** The one to four bytes that encode a Unicode scalar value. */
  function EncodeChar(c: char): (bs: seq<Byte>)
    ensures 1 <= |bs| <= 4
  {
    var cp := c as int;
    var q1 := cp / 64;
    var q2 := q1 / 64;
    if cp < 0x80 then [cp]
    else if cp < 0x800 then [0xC0 + q1, 0x80 + cp % 64]
    else if cp < 0x10000 then [0xE0 + q2, 0x80 + q1 % 64, 0x80 + cp % 64]
    else [0xF0 + q2 / 64, 0x80 + q2 % 64, 0x80 + q1 % 64, 0x80 + cp % 64]
  }

  function Encode(s: string): (bs: seq<Byte>)
    ensures |s| <= |bs| <= 4 * |s|
  {
    if s == [] then [] else EncodeChar(s[0]) + Encode(s[1..])
  }

  /**
   * The first character of `bs` and the number of bytes it takes, if `bs`
   * starts with a well-formed UTF-8 sequence.
   */
  function DecodeFirst(bs: seq<Byte>): (r: Option<(char, nat)>)
    requires |bs| > 0
    ensures r.Some? ==> 1 <= r.value.1 <= |bs| && r.value.1 <= 4
  {
    var b0 := bs[0] as int;
    if b0 < 0x80 then Some((b0 as char, 1))
    else if 0xC2 <= b0 <= 0xDF then
      if |bs| >= 2 && IsTail(bs[1]) then
        Some((((b0 - 0xC0) * 64 + (bs[1] as int - 0x80)) as char, 2))
      else None
    else if 0xE0 <= b0 <= 0xEF then
      var lo := if b0 == 0xE0 then 0xA0 else 0x80;
      var hi := if b0 == 0xED then 0x9F else 0xBF;
      if |bs| >= 3 && lo <= bs[1] <= hi && IsTail(bs[2]) then
        Some((((b0 - 0xE0) * 4096 + (bs[1] as int - 0x80) * 64 + (bs[2] as int - 0x80)) as char, 3))
      else None
    else if 0xF0 <= b0 <= 0xF4 then
      var lo := if b0 == 0xF0 then 0x90 else 0x80;
      var hi := if b0 == 0xF4 then 0x8F else 0xBF;
      if |bs| >= 4 && lo <= bs[1] <= hi && IsTail(bs[2]) && IsTail(bs[3]) then
        Some((((b0 - 0xF0) * 262144 + (bs[1] as int - 0x80) * 4096 + (bs[2] as int - 0x80) * 64 + (bs[3] as int - 0x80)) as char, 4))
      else None
    else None
  }

  /** The text `bs` encodes, or None if `bs` is not well-formed UTF-8. */
  function Decode(bs: seq<Byte>): (r: Option<string>)
    decreases |bs|
    ensures r.Some? ==> |r.value| <= |bs| <= 4 * |r.value|
  {
    if bs == [] then Some([])
    else match DecodeFirst(bs)
      case None => None
      case Some((c, n)) =>
        match Decode(bs[n..])
        case None => None
        case Some(rest) => Some([c] + rest)
  }

  lemma EncodeCharDecodes(c: char, rest: seq<Byte>)
    ensures DecodeFirst(EncodeChar(c) + rest) == Some((c, |EncodeChar(c)|))
  {
    var cp := c as int;
    var q1 := cp / 64;
    var q2 := q1 / 64;
    var bs := EncodeChar(c) + rest;
    if cp < 0x80 {
    } else if cp < 0x800 {
      assert cp == q1 * 64 + cp % 64;
    } else if cp < 0x10000 {
      assert cp == q1 * 64 + cp % 64;
      assert q1 == q2 * 64 + q1 % 64;
      assert bs[0] == 0xED ==> q1 % 64 < 32;
    } else {
      var q3 := q2 / 64;
      assert cp == q1 * 64 + cp % 64;
      assert q1 == q2 * 64 + q1 % 64;
      assert q2 == q3 * 64 + q2 % 64;
      assert q3 <= 4;
      assert q3 == 0 ==> q2 % 64 >= 16;
      assert q3 == 4 ==> q2 % 64 < 16;
    }
  }

  lemma EncodeOfDecodedFirst(bs: seq<Byte>)
    requires |bs| > 0 && DecodeFirst(bs).Some?
    ensures EncodeChar(DecodeFirst(bs).value.0) == bs[..DecodeFirst(bs).value.1]
  {
    var b0 := bs[0] as int;
    var cp := DecodeFirst(bs).value.0 as int;
    if b0 < 0x80 {
    } else if b0 <= 0xDF {
      EncodeTwo(cp, b0 - 0xC0, bs[1] - 0x80);
    } else if b0 <= 0xEF {
      EncodeThree(cp, b0 - 0xE0, bs[1] - 0x80, bs[2] - 0x80);
    } else {
      EncodeFour(cp, b0 - 0xF0, bs[1] - 0x80, bs[2] - 0x80, bs[3] - 0x80);
    }
  }

  /** A two-byte sequence is the encoding of the code point it carries. */
  lemma EncodeTwo(cp: int, x0: int, x1: int)
    requires 2 <= x0 < 32 && 0 <= x1 < 64 && cp == x0 * 64 + x1
    ensures 0x80 <= cp < 0x800 && EncodeChar(cp as char) == [0xC0 + x0, 0x80 + x1]
  {
    DivMod64(cp, x0, x1);
  }

  /** A three-byte sequence is the encoding of the code point it carries. */
  lemma EncodeThree(cp: int, x0: int, x1: int, x2: int)
    requires 0 <= x0 < 16 && 0 <= x1 < 64 && 0 <= x2 < 64 && cp == x0 * 4096 + x1 * 64 + x2
    requires 0x800 <= cp && (cp < 0xD800 || 0xE000 <= cp)
    ensures EncodeChar(cp as char) == [0xE0 + x0, 0x80 + x1, 0x80 + x2]
  {
    DivMod64(cp, x0 * 64 + x1, x2);
    DivMod64(cp / 64, x0, x1);
  }

  /** A four-byte sequence is the encoding of the code point it carries. */
  lemma EncodeFour(cp: int, x0: int, x1: int, x2: int, x3: int)
    requires 0 <= x0 < 5 && 0 <= x1 < 64 && 0 <= x2 < 64 && 0 <= x3 < 64
    requires cp == x0 * 262144 + x1 * 4096 + x2 * 64 + x3
    requires 0x10000 <= cp < 0x110000
    ensures EncodeChar(cp as char) == [0xF0 + x0, 0x80 + x1, 0x80 + x2, 0x80 + x3]
  {
    DivMod64(cp, x0 * 4096 + x1 * 64 + x2, x3);
    DivMod64(cp / 64, x0 * 64 + x1, x2);
    DivMod64(cp / 64 / 64, x0, x1);
  }

  /** Splitting a number into its last base-64 digit and the rest. */
  lemma DivMod64(x: int, hi: int, lo: int)
    requires 0 <= lo < 64 && x == hi * 64 + lo
    ensures x / 64 == hi && x % 64 == lo
  {
  }

  /** Decoding undoes encoding: every string survives a trip through UTF-8. */
  lemma {:induction false} DecodeEncode(s: string)
    ensures Decode(Encode(s)) == Some(s)
  {
    if s != [] {
      var e := EncodeChar(s[0]);
      EncodeCharDecodes(s[0], Encode(s[1..]));
      assert (e + Encode(s[1..]))[|e|..] == Encode(s[1..]);
      DecodeEncode(s[1..]);
      assert [s[0]] + s[1..] == s;
    }
  }

  /**
   * Encoding undoes decoding: bytes that decode are exactly the encoding of
   * what they decode to, so the well-formed sequences and the encodings of
   * strings are the same set.
   */
  lemma {:induction false} EncodeDecode(bs: seq<Byte>)
    requires Decode(bs).Some?
    ensures Encode(Decode(bs).value) == bs
    decreases |bs|
  {
    if bs != [] {
      var c, n := DecodeStep(bs);
      EncodeDecode(bs[n..]);
      EncodeCons(c, Decode(bs[n..]).value);
      SplitAt(bs, n);
    }
  }

  /** Decoding a non-empty sequence: its first character, then the rest. */
  lemma DecodeStep(bs: seq<Byte>) returns (c: char, n: nat)
    requires bs != [] && Decode(bs).Some?
    ensures 1 <= n <= |bs| && Decode(bs[n..]).Some?
    ensures Decode(bs).value == [c] + Decode(bs[n..]).value
    ensures EncodeChar(c) == bs[..n]
  {
    c := DecodeFirst(bs).value.0;
    n := DecodeFirst(bs).value.1;
    EncodeOfDecodedFirst(bs);
  }

  lemma EncodeCons(c: char, rest: string)
    ensures Encode([c] + rest) == EncodeChar(c) + Encode(rest)
  {
    assert ([c] + rest)[0] == c && ([c] + rest)[1..] == rest;
  }
}
