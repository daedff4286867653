/**
 * Base64 as the browser's `atob` decodes it (the forgiving-base64 decode of
 * the WHATWG Infra Standard), and the padded encoder of RFC 4648 in both of
 * its alphabets, used to state round trips.
 */
module Base64 {
  import opened Wrappers

  type Byte = b: int | 0 <= b < 256
  type Sextet = v: int | 0 <= v < 64

  /** The `InvalidCharacterError` DOMException that `atob` throws. */
  datatype DecodeError = InvalidCharacterError

  /**
   * The character for value `v`: the standard alphabet of RFC 4648
   * section 4, or with `urlSafe` the alphabet of section 5, which writes
   * 62 and 63 as '-' and '_' instead of '+' and '/'.
   */
  function AlphabetChar(v: Sextet, urlSafe: bool): char {
    if v < 26 then ('A' as int + v) as char
    else if v < 52 then ('a' as int + (v - 26)) as char
    else if v < 62 then ('0' as int + (v - 52)) as char
    else if v == 62 then (if urlSafe then '-' else '+')
    else (if urlSafe then '_' else '/')
  }

  /** Characters of the standard alphabet. */
  predicate IsStdChar(c: char) {
    ('A' <= c <= 'Z') || ('a' <= c <= 'z') || ('0' <= c <= '9') || c == '+' || c == '/'
  }

  /** The value a standard-alphabet character stands for. */
  function StdValue(c: char): (v: Sextet)
    requires IsStdChar(c)
    ensures AlphabetChar(v, false) == c
  {
    if 'A' <= c <= 'Z' then c as int - 'A' as int
    else if 'a' <= c <= 'z' then c as int - 'a' as int + 26
    else if '0' <= c <= '9' then c as int - '0' as int + 52
    else if c == '+' then 62
    else 63
  }

  lemma StdValueOfChar(v: Sextet)
    ensures IsStdChar(AlphabetChar(v, false)) && StdValue(AlphabetChar(v, false)) == v
  {
  }

  /** ASCII white space as the Infra Standard defines it. */
  predicate IsAsciiWhitespace(c: char) {
    c == '\t' || c == '\n' || c == '\U{000C}' || c == '\r' || c == ' '
  }

  /** `s` with its ASCII white space removed, all else kept in order. */
  function RemoveWhitespace(s: string): (r: string)
    ensures |r| <= |s|
    ensures forall i :: 0 <= i < |r| ==> !IsAsciiWhitespace(r[i])
    ensures (forall i :: 0 <= i < |s| ==> !IsAsciiWhitespace(s[i])) ==> r == s
  {
    if s == [] then []
    else (if IsAsciiWhitespace(s[0]) then [] else [s[0]]) + RemoveWhitespace(s[1..])
  }

  /** Removing white space works piece by piece: it distributes over concatenation. */
  lemma {:induction false} RemoveWhitespaceAppend(a: string, b: string)
    decreases |a|
    ensures RemoveWhitespace(a + b) == RemoveWhitespace(a) + RemoveWhitespace(b)
  {
    if a == [] {
      assert a + b == b;
    } else {
      assert (a + b)[0] == a[0] && (a + b)[1..] == a[1..] + b;
      RemoveWhitespaceAppend(a[1..], b);
    }
  }

  /** A single character is dropped exactly when it is ASCII white space. */
  lemma RemoveWhitespaceChar(c: char)
    ensures RemoveWhitespace([c]) == if IsAsciiWhitespace(c) then [] else [c]
  {
    assert [c][1..] == [];
  }

  /** Drops a trailing "==" or, failing that, a trailing "=". */
  function StripPadding(d: string): string {
    if |d| >= 2 && d[|d| - 2] == '=' && d[|d| - 1] == '=' then d[..|d| - 2]
    else if |d| >= 1 && d[|d| - 1] == '=' then d[..|d| - 1]
    else d
  }

  predicate AllStd(d: string) {
    forall i :: 0 <= i < |d| ==> IsStdChar(d[i])
  }

  /** The three bytes that four characters carry. */
  function DecodeQuad(c0: char, c1: char, c2: char, c3: char): seq<Byte>
    requires IsStdChar(c0) && IsStdChar(c1) && IsStdChar(c2) && IsStdChar(c3)
  {
    var v0, v1, v2, v3 := StdValue(c0), StdValue(c1), StdValue(c2), StdValue(c3);
    [v0 * 4 + v1 / 16, (v1 % 16) * 16 + v2 / 4, (v2 % 4) * 64 + v3]
  }

  /**
   * Decodes characters of the standard alphabet, 24 bits per four
   * characters; a final group of two (three) characters leaves 12 (18)
   * bits, of which the last 4 (2) are discarded.
   */
  function DecodeChars(d: string): (bs: seq<Byte>)
    requires AllStd(d) && |d| % 4 != 1
    ensures |bs| == |d| * 3 / 4
    decreases |d|
  {
    if |d| == 0 then []
    else if |d| == 2 then
      [StdValue(d[0]) * 4 + StdValue(d[1]) / 16]
    else if |d| == 3 then
      [StdValue(d[0]) * 4 + StdValue(d[1]) / 16, (StdValue(d[1]) % 16) * 16 + StdValue(d[2]) / 4]
    else
      DecodeQuad(d[0], d[1], d[2], d[3]) + DecodeChars(d[4..])
  }

  /**
   * The forgiving-base64 decode that `atob` runs: remove ASCII white space;
   * if the length is a multiple of four, drop up to two trailing '='; fail
   * if the length is then 1 modulo 4 or a character is outside the standard
   * alphabet; otherwise decode.
   */
  function ForgivingDecode(s: string): (r: Result<seq<Byte>, DecodeError>)
    ensures |RemoveWhitespace(s)| % 4 == 1 ==> r.Failure?
  {
    var d0 := RemoveWhitespace(s);
    var d := if |d0| % 4 == 0 then StripPadding(d0) else d0;
    if |d| % 4 == 1 then Failure(InvalidCharacterError)
    else if !AllStd(d) then Failure(InvalidCharacterError)
    else Success(DecodeChars(d))
  }

  /** The characters for whole and partial three-byte groups, without padding. */
  function EncodeUnpadded(bs: seq<Byte>, urlSafe: bool): (s: string)
    ensures |s| == (|bs| * 4 + 2) / 3
    decreases |bs|
  {
    if |bs| == 0 then []
    else if |bs| == 1 then
      [AlphabetChar(bs[0] / 4, urlSafe), AlphabetChar((bs[0] % 4) * 16, urlSafe)]
    else if |bs| == 2 then
      [AlphabetChar(bs[0] / 4, urlSafe), AlphabetChar((bs[0] % 4) * 16 + bs[1] / 16, urlSafe),
       AlphabetChar((bs[1] % 16) * 4, urlSafe)]
    else
      [AlphabetChar(bs[0] / 4, urlSafe), AlphabetChar((bs[0] % 4) * 16 + bs[1] / 16, urlSafe),
       AlphabetChar((bs[1] % 16) * 4 + bs[2] / 64, urlSafe), AlphabetChar(bs[2] % 64, urlSafe)]
      + EncodeUnpadded(bs[3..], urlSafe)
  }

  /** RFC 4648 encoding with '=' padding to a multiple of four characters. */
  function Encode(bs: seq<Byte>, urlSafe: bool): (s: string)
    ensures |s| % 4 == 0
  {
    PaddedLength(|bs|);
    EncodeUnpadded(bs, urlSafe) + Padding(|bs|)
  }

  /** The '=' characters that complete the last group of `n` bytes. */
  function Padding(n: nat): string {
    if n % 3 == 1 then "==" else if n % 3 == 2 then "=" else ""
  }

  lemma PaddedLength(n: nat)
    ensures ((n * 4 + 2) / 3 + |Padding(n)|) % 4 == 0
  {
    var q, r := n / 3, n % 3;
    assert n == 3 * q + r;
    assert n * 4 + 2 == 3 * (4 * q + r) + (r + 2);
    if r == 0 {
      assert (n * 4 + 2) / 3 == 4 * q;
    } else if r == 1 {
      assert (n * 4 + 2) / 3 == 4 * q + 2;
    } else {
      assert (n * 4 + 2) / 3 == 4 * q + 3;
    }
  }

  lemma {:induction false} UnpaddedIsStd(bs: seq<Byte>)
    ensures AllStd(EncodeUnpadded(bs, false))
    ensures (|bs| * 4 + 2) / 3 % 4 != 1
    decreases |bs|
  {
    UnpaddedLength(|bs|);
    if |bs| >= 3 {
      UnpaddedIsStd(bs[3..]);
      EncodeCons(bs);
      StdValueOfChar(bs[0] / 4);
      StdValueOfChar((bs[0] % 4) * 16 + bs[1] / 16);
      StdValueOfChar((bs[1] % 16) * 4 + bs[2] / 64);
      StdValueOfChar(bs[2] % 64);
      AllStdCons(EncodeUnpadded(bs, false));
    } else if |bs| > 0 {
      StdValueOfChar(bs[0] / 4);
      if |bs| == 1 {
        StdValueOfChar((bs[0] % 4) * 16);
      } else {
        StdValueOfChar((bs[0] % 4) * 16 + bs[1] / 16);
        StdValueOfChar((bs[1] % 16) * 4);
      }
    }
  }

  /** Helper: four alphabet characters followed by alphabet characters. */
  lemma AllStdCons(s: string)
    requires |s| >= 4 && IsStdChar(s[0]) && IsStdChar(s[1]) && IsStdChar(s[2]) && IsStdChar(s[3])
    requires AllStd(s[4..])
    ensures AllStd(s)
  {
    forall i | 4 <= i < |s| ensures IsStdChar(s[i]) {
      assert s[i] == s[4..][i - 4];
    }
  }

  /** The unpadded length of `n` bytes is never 1 modulo 4. */
  lemma UnpaddedLength(n: nat)
    ensures (n * 4 + 2) / 3 % 4 != 1
  {
    var q, r := n / 3, n % 3;
    assert n * 4 + 2 == 3 * (4 * q + r) + (r + 2);
    if r == 0 {
      assert (n * 4 + 2) / 3 == 4 * q;
    } else if r == 1 {
      assert (n * 4 + 2) / 3 == 4 * q + 2;
    } else {
      assert (n * 4 + 2) / 3 == 4 * q + 3;
    }
  }

  /** Three bytes survive a trip through their four characters. */
  lemma QuadRoundTrip(b0: Byte, b1: Byte, b2: Byte)
    ensures var c0, c1, c2, c3 := AlphabetChar(b0 / 4, false), AlphabetChar((b0 % 4) * 16 + b1 / 16, false),
                                  AlphabetChar((b1 % 16) * 4 + b2 / 64, false), AlphabetChar(b2 % 64, false);
            IsStdChar(c0) && IsStdChar(c1) && IsStdChar(c2) && IsStdChar(c3)
            && DecodeQuad(c0, c1, c2, c3) == [b0, b1, b2]
  {
    var v0, v1, v2, v3 := b0 / 4, (b0 % 4) * 16 + b1 / 16, (b1 % 16) * 4 + b2 / 64, b2 % 64;
    StdValueOfChar(v0);
    StdValueOfChar(v1);
    StdValueOfChar(v2);
    StdValueOfChar(v3);
    SplitAt16(b0 % 4, b1 / 16);
    SplitAt4(b1 % 16, b2 / 64);
    assert b0 == v0 * 4 + v1 / 16;
    assert b1 == (v1 % 16) * 16 + v2 / 4;
    assert b2 == (v2 % 4) * 64 + v3;
  }

  lemma SplitAt16(q: int, r: int)
    requires 0 <= r < 16
    ensures (q * 16 + r) / 16 == q && (q * 16 + r) % 16 == r
  {
  }

  lemma SplitAt4(q: int, r: int)
    requires 0 <= r < 4
    ensures (q * 4 + r) / 4 == q && (q * 4 + r) % 4 == r
  {
  }

  /** One byte survives a trip through its two characters. */
  lemma PairRoundTrip(b0: Byte)
    ensures var c0, c1 := AlphabetChar(b0 / 4, false), AlphabetChar((b0 % 4) * 16, false);
            IsStdChar(c0) && IsStdChar(c1) && StdValue(c0) * 4 + StdValue(c1) / 16 == b0
  {
    StdValueOfChar(b0 / 4);
    StdValueOfChar((b0 % 4) * 16);
  }

  /** Two bytes survive a trip through their three characters. */
  lemma TripleRoundTrip(b0: Byte, b1: Byte)
    ensures var c0, c1, c2 := AlphabetChar(b0 / 4, false), AlphabetChar((b0 % 4) * 16 + b1 / 16, false),
                              AlphabetChar((b1 % 16) * 4, false);
            IsStdChar(c0) && IsStdChar(c1) && IsStdChar(c2)
            && StdValue(c0) * 4 + StdValue(c1) / 16 == b0
            && (StdValue(c1) % 16) * 16 + StdValue(c2) / 4 == b1
  {
    var v1 := (b0 % 4) * 16 + b1 / 16;
    StdValueOfChar(b0 / 4);
    StdValueOfChar(v1);
    StdValueOfChar((b1 % 16) * 4);
    SplitAt16(b0 % 4, b1 / 16);
    SplitAt4(b1 % 16, 0);
  }

  lemma DecodeShort(bs: seq<Byte>)
    requires |bs| < 3
    ensures AllStd(EncodeUnpadded(bs, false)) && |EncodeUnpadded(bs, false)| % 4 != 1
    ensures DecodeChars(EncodeUnpadded(bs, false)) == bs
  {
    UnpaddedIsStd(bs);
    if |bs| == 1 {
      DecodePair(bs[0]);
      assert bs == [bs[0]];
    } else if |bs| == 2 {
      DecodeTriple(bs[0], bs[1]);
      assert bs == [bs[0], bs[1]];
    }
  }

  lemma DecodePair(b0: Byte)
    ensures AllStd(EncodeUnpadded([b0], false)) && DecodeChars(EncodeUnpadded([b0], false)) == [b0]
  {
    PairRoundTrip(b0);
  }

  lemma DecodeTriple(b0: Byte, b1: Byte)
    ensures AllStd(EncodeUnpadded([b0, b1], false)) && DecodeChars(EncodeUnpadded([b0, b1], false)) == [b0, b1]
  {
    var c0, c1, c2 := AlphabetChar(b0 / 4, false), AlphabetChar((b0 % 4) * 16 + b1 / 16, false),
                      AlphabetChar((b1 % 16) * 4, false);
    var s := EncodeUnpadded([b0, b1], false);
    assert s == [c0, c1, c2];
    TripleRoundTrip(b0, b1);
    assert DecodeChars(s) == [StdValue(c0) * 4 + StdValue(c1) / 16, (StdValue(c1) % 16) * 16 + StdValue(c2) / 4];
  }

  lemma DecodeCons(s: string)
    requires |s| >= 4 && AllStd(s) && |s| % 4 != 1
    ensures AllStd(s[4..]) && |s[4..]| % 4 != 1
    ensures DecodeChars(s) == DecodeQuad(s[0], s[1], s[2], s[3]) + DecodeChars(s[4..])
  {
  }

  lemma EncodeCons(bs: seq<Byte>)
    requires |bs| >= 3
    ensures var s := EncodeUnpadded(bs, false);
            |s| >= 4 && s[4..] == EncodeUnpadded(bs[3..], false)
            && s[0] == AlphabetChar(bs[0] / 4, false)
            && s[1] == AlphabetChar((bs[0] % 4) * 16 + bs[1] / 16, false)
            && s[2] == AlphabetChar((bs[1] % 16) * 4 + bs[2] / 64, false)
            && s[3] == AlphabetChar(bs[2] % 64, false)
  {
  }

  lemma {:induction false} DecodeUnpadded(bs: seq<Byte>)
    ensures AllStd(EncodeUnpadded(bs, false)) && |EncodeUnpadded(bs, false)| % 4 != 1
    ensures DecodeChars(EncodeUnpadded(bs, false)) == bs
    decreases |bs|
  {
    UnpaddedIsStd(bs);
    if |bs| < 3 {
      DecodeShort(bs);
    } else {
      var s := EncodeUnpadded(bs, false);
      EncodeCons(bs);
      DecodeCons(s);
      QuadRoundTrip(bs[0], bs[1], bs[2]);
      DecodeUnpadded(bs[3..]);
      assert bs == [bs[0], bs[1], bs[2]] + bs[3..];
    }
  }

  /** `atob` undoes the padded standard-alphabet encoding of any bytes. */
  lemma {:induction false} DecodeEncode(bs: seq<Byte>)
    ensures ForgivingDecode(Encode(bs, false)) == Success(bs)
  {
    EncodedHasNoSpace(bs);
    StripPaddingOfEncode(bs);
    DecodeUnpadded(bs);
  }

  /**
   * `atob` also undoes the encoding without its '=' padding, which the
   * forgiving decode accepts.
   */
  lemma {:induction false} DecodeEncodeUnpadded(bs: seq<Byte>)
    ensures ForgivingDecode(EncodeUnpadded(bs, false)) == Success(bs)
  {
    var u := EncodeUnpadded(bs, false);
    UnpaddedIsStd(bs);
    NoSpaceAppend(u, "");
    assert u + "" == u;
    StripPaddingOf(u, "");
    DecodeUnpadded(bs);
  }

  /** Helper: an encoding holds only alphabet characters and '='. */
  lemma EncodedHasNoSpace(bs: seq<Byte>)
    ensures RemoveWhitespace(Encode(bs, false)) == Encode(bs, false)
  {
    UnpaddedIsStd(bs);
    NoSpaceAppend(EncodeUnpadded(bs, false), Padding(|bs|));
  }

  lemma NoSpaceAppend(a: string, b: string)
    requires AllStd(a)
    requires forall i :: 0 <= i < |b| ==> b[i] == '='
    ensures forall i :: 0 <= i < |a + b| ==> !IsAsciiWhitespace((a + b)[i])
  {
    forall i | 0 <= i < |a + b| ensures !IsAsciiWhitespace((a + b)[i]) {
      if i < |a| {
        assert (a + b)[i] == a[i];
      } else {
        assert (a + b)[i] == b[i - |a|];
      }
    }
  }

  /** Helper: dropping the padding of an encoding leaves its characters. */
  lemma StripPaddingOfEncode(bs: seq<Byte>)
    ensures StripPadding(Encode(bs, false)) == EncodeUnpadded(bs, false)
  {
    UnpaddedIsStd(bs);
    var core := EncodeUnpadded(bs, false);
    if bs != [] {
      assert core[0] == AlphabetChar(bs[0] / 4, false);
    }
    StripPaddingOf(core, Padding(|bs|));
  }

  lemma StripPaddingOf(core: string, pad: string)
    requires AllStd(core)
    requires pad == "" || pad == "=" || pad == "=="
    requires pad != "" ==> core != []
    ensures StripPadding(core + pad) == core
  {
    var e := core + pad;
    if core != [] {
      assert e[|core| - 1] == core[|core| - 1];
      assert IsStdChar(core[|core| - 1]);
    }
    if pad == "" {
      assert e == core;
    } else if pad == "=" {
      assert e[..|e| - 1] == core;
    } else {
      assert e[..|e| - 2] == core;
    }
  }
}
