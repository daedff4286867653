/**
 * `decodeUrlSafeBase64` (src/main.js): the body data of a Gmail message
 * part is base64url text; it is mapped back to the standard alphabet,
 * decoded with `atob`, and the bytes are read as UTF-8 through
 * `decodeURIComponent(escape(...))`, falling back to one character per byte
 * when they are not UTF-8.
 */
module PayloadDecoder {
  import opened Wrappers
  import opened Base64
  import Utf8

  /** `s.replace(/x/g, y)` for single characters `x` and `y`. */
  function ReplaceChar(s: string, x: char, y: char): (r: string)
    ensures |r| == |s|
    ensures forall i :: 0 <= i < |s| ==> r[i] == (if s[i] == x then y else s[i])
  {
    if s == [] then [] else [if s[0] == x then y else s[0]] + ReplaceChar(s[1..], x, y)
  }

  /** The two `replace` calls: every '-' becomes '+', every '_' becomes '/'. */
  function UrlSafeToStandard(s: string): (r: string)
    ensures |r| == |s|
    ensures forall i :: 0 <= i < |s| && s[i] == '-' ==> r[i] == '+'
    ensures forall i :: 0 <= i < |s| && s[i] == '_' ==> r[i] == '/'
    ensures forall i :: 0 <= i < |s| && s[i] != '-' && s[i] != '_' ==> r[i] == s[i]
  {
    ReplaceChar(ReplaceChar(s, '-', '+'), '_', '/')
  }

  /** The "binary string" `atob` returns: one character per byte. */
  function BinaryString(bs: seq<Byte>): (r: string)
    ensures |r| == |bs|
    ensures forall i :: 0 <= i < |bs| ==> r[i] as int == bs[i]
  {
    if bs == [] then [] else [bs[0] as char] + BinaryString(bs[1..])
  }

  /**
   * `decodeUrlSafeBase64(data)`. Absent and empty data give ''. When `atob`
   * throws, the `catch` calls `atob` on the same text again, which throws
   * again, so the error reaches the caller.
   */
  function DecodeUrlSafeBase64(data: Option<string>): (r: Result<string, DecodeError>)
    ensures (data.None? || data.value == "") ==> r == Success("")
  {
    if data.None? || data.value == "" then Success("")
    else
      match ForgivingDecode(UrlSafeToStandard(data.value))
      case Failure(e) => Failure(e)
      case Success(bytes) =>
        match Utf8.Decode(bytes)
        case Some(text) => Success(text)
        case None => Success(BinaryString(bytes))
  }

  /** The base64url encoding (RFC 4648 section 5, padded) of the UTF-8 bytes of `s`. */
  function EncodeUrlSafeUtf8(s: string): string {
    Encode(Utf8.Encode(s), true)
  }

  /** Mapping the URL-safe alphabet back gives the standard-alphabet encoding. */
  lemma {:induction false} UrlSafeEncodingMapsToStandard(bs: seq<Byte>)
    ensures UrlSafeToStandard(Encode(bs, true)) == Encode(bs, false)
  {
    var u := Encode(bs, true);
    var e := Encode(bs, false);
    UnpaddedAlphabets(bs);
    assert |u| == |e|;
    forall i | 0 <= i < |u| ensures UrlSafeToStandard(u)[i] == e[i] {
      var n := |EncodeUnpadded(bs, true)|;
      if i >= n {
        assert u[i] == e[i] == '=';
      } else {
        assert u[i] == EncodeUnpadded(bs, true)[i] && e[i] == EncodeUnpadded(bs, false)[i];
        assert ToStandard(u[i]) == e[i];
      }
    }
  }

  /** What the two `replace` calls do to one character. */
  function ToStandard(c: char): char {
    if c == '-' then '+' else if c == '_' then '/' else c
  }

  /** Each character of the URL-safe encoding maps to the standard one. */
  lemma {:induction false} UnpaddedAlphabets(bs: seq<Byte>)
    ensures var u, e := EncodeUnpadded(bs, true), EncodeUnpadded(bs, false);
            |u| == |e| && forall i :: 0 <= i < |u| ==> ToStandard(u[i]) == e[i]
    decreases |bs|
  {
    var u, e := EncodeUnpadded(bs, true), EncodeUnpadded(bs, false);
    if |bs| >= 3 {
      UnpaddedAlphabets(bs[3..]);
      var u', e' := EncodeUnpadded(bs[3..], true), EncodeUnpadded(bs[3..], false);
      assert u[4..] == u' && e[4..] == e';
      forall i | 4 <= i < |u| ensures ToStandard(u[i]) == e[i] {
        assert ToStandard(u'[i - 4]) == e'[i - 4];
      }
    }
  }

  /**
   * Round trip: base64url-encoding the UTF-8 bytes of any string and
   * decoding the result gives the string back.
   */
  lemma RoundTrip(s: string)
    ensures DecodeUrlSafeBase64(Some(EncodeUrlSafeUtf8(s))) == Success(s)
  {
    var bytes := Utf8.Encode(s);
    UrlSafeEncodingMapsToStandard(bytes);
    DecodeEncode(bytes);
    Utf8.DecodeEncode(s);
    if s != [] {
      assert |EncodeUrlSafeUtf8(s)| > 0;
    }
  }

  /** The same encoding without the trailing '=' padding (RFC 4648 section 3.2). */
  function EncodeUrlSafeUtf8Unpadded(s: string): string {
    EncodeUnpadded(Utf8.Encode(s), true)
  }

  /** Round trip for the unpadded base64url form, which the forgiving decode accepts. */
  lemma UnpaddedRoundTrip(s: string)
    ensures DecodeUrlSafeBase64(Some(EncodeUrlSafeUtf8Unpadded(s))) == Success(s)
  {
    var bytes := Utf8.Encode(s);
    var u, e := EncodeUnpadded(bytes, true), EncodeUnpadded(bytes, false);
    UnpaddedAlphabets(bytes);
    assert UrlSafeToStandard(u) == e;
    DecodeEncodeUnpadded(bytes);
    Utf8.DecodeEncode(s);
    if s != [] {
      assert |u| > 0;
    }
  }

  /**
   * When the decoded bytes are not UTF-8, the result has one character per
   * byte, each below 256.
   */
  lemma InvalidUtf8FallsBack(data: string, bytes: seq<Byte>)
    requires data != ""
    requires ForgivingDecode(UrlSafeToStandard(data)) == Success(bytes)
    requires Utf8.Decode(bytes).None?
    ensures var r := DecodeUrlSafeBase64(Some(data));
            r.Success? && |r.value| == |bytes|
            && forall i :: 0 <= i < |bytes| ==> r.value[i] as int == bytes[i] < 256
  {
  }

  /**
   * Non-empty data fails to decode exactly when `atob` rejects its
   * standard-alphabet form: invalid UTF-8 never makes it fail.
   */
  lemma FailsExactlyWhenAtobFails(data: string)
    requires data != ""
    ensures DecodeUrlSafeBase64(Some(data)).Failure? <==> ForgivingDecode(UrlSafeToStandard(data)).Failure?
  {
  }

  /** Whitespace sits at the same places before and after the alphabet mapping. */
  lemma {:induction false} MappingKeepsWhitespace(s: string)
    ensures |RemoveWhitespace(UrlSafeToStandard(s))| == |RemoveWhitespace(s)|
    decreases |s|
  {
    if s != [] {
      var t := UrlSafeToStandard(s);
      MappingKeepsWhitespace(s[1..]);
      assert UrlSafeToStandard(s[1..]) == t[1..];
    }
  }

  /**
   * Malformed base64 is not recovered: when the non-whitespace characters
   * number 1 modulo 4, the decode fails rather than degrading.
   */
  lemma MalformedLengthFails(data: string)
    requires |RemoveWhitespace(data)| % 4 == 1
    ensures DecodeUrlSafeBase64(Some(data)).Failure?
  {
    MappingKeepsWhitespace(data);
  }
}
