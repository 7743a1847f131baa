/**
  The global `encodeURIComponent` of ECMAScript, and `decodeURIComponent` as
  its inverse. Characters other than ASCII letters, digits and `-_.!~*'()`
  are written as the UTF-8 encoding of their code point, one `%XX` escape
  (upper-case hexadecimal) per byte. Dafny characters are Unicode scalar
  values, so the encoder never meets a lone surrogate and never fails.
 */
module UriComponent {

  import opened Wrappers

  type Byte = b: int | 0 <= b < 0x100

  /** Characters `encodeURIComponent` copies unchanged. */
  predicate IsUnreserved(c: char) {
    || 'A' <= c <= 'Z'
    || 'a' <= c <= 'z'
    || '0' <= c <= '9'
    || c == '-' || c == '_' || c == '.' || c == '!' || c == '~' || c == '*' || c == '\'' || c == '(' || c == ')'
  }

  predicate IsUpperHexDigit(c: char) {
    '0' <= c <= '9' || 'A' <= c <= 'F'
  }

  /** Every character the encoder can emit. */
  predicate IsEncoderOutput(c: char) {
    IsUnreserved(c) || c == '%' || IsUpperHexDigit(c)
  }

  // ---------------------------------------------------------------------
  // UTF-8

  predicate IsContinuation(b: Byte) {
    0x80 <= b < 0xC0
  }

  /** UTF-8 bytes of one code point (RFC 3629, section 3). */
  function Utf8Encode(c: char): (bytes: seq<Byte>)
    ensures 1 <= |bytes| <= 4
    ensures |bytes| == 1 <==> c as int < 0x80
    ensures forall i :: 1 <= i < |bytes| ==> IsContinuation(bytes[i])
  {
    var cp := c as int;
    if cp < 0x80 then [cp]
    else if cp < 0x800 then [0xC0 + cp / 0x40, 0x80 + cp % 0x40]
    else if cp < 0x1_0000 then [0xE0 + cp / 0x1000, 0x80 + cp / 0x40 % 0x40, 0x80 + cp % 0x40]
    else [0xF0 + cp / 0x4_0000, 0x80 + cp / 0x1000 % 0x40, 0x80 + cp / 0x40 % 0x40, 0x80 + cp % 0x40]
  }

  /** Length of the sequence a lead byte announces; 0 for a byte that cannot lead. */
  function SequenceLength(lead: Byte): (n: nat)
    ensures n <= 4
  {
    if lead < 0x80 then 1
    else if 0xC0 <= lead < 0xE0 then 2
    else if 0xE0 <= lead < 0xF0 then 3
    else if 0xF0 <= lead < 0xF8 then 4
    else 0
  }

  /** Payload bits of a lead byte, given the sequence length. */
  function LeadBits(lead: Byte, n: nat): nat {
    if n <= 1 then lead else if n == 2 then lead % 0x20 else if n == 3 then lead % 0x10 else lead % 0x08
  }

  /** Code point of a byte sequence: the lead's payload, then six bits per continuation byte. */
  function CodePoint(bytes: seq<Byte>): nat
    requires |bytes| >= 1
    decreases |bytes|
  {
    if |bytes| == 1 then LeadBits(bytes[0], SequenceLength(bytes[0]))
    else CodePoint(bytes[..|bytes| - 1]) * 0x40 + bytes[|bytes| - 1] % 0x40
  }

  /** Smallest code point a sequence of length `n` may carry (longer forms are overlong). */
  function MinCodePoint(n: nat): nat {
    if n <= 1 then 0 else if n == 2 then 0x80 else if n == 3 then 0x800 else 0x1_0000
  }

  /** The scalar value a well-formed sequence encodes; `None` for an ill-formed one. */
  function Utf8DecodeChar(bytes: seq<Byte>): (c: Option<char>)
  {
    if |bytes| == 0 || SequenceLength(bytes[0]) != |bytes| then None
    else if exists i :: 1 <= i < |bytes| && !IsContinuation(bytes[i]) then None
    else
      var cp := CodePoint(bytes);
      if cp < MinCodePoint(|bytes|) || (0xD800 <= cp < 0xE000) || cp >= 0x11_0000 then None
      else Some(cp as char)
  }

  // ---------------------------------------------------------------------
  // Percent escapes

  const HexDigits: string := "0123456789ABCDEF"

  /** `%XX` for one byte. */
  function EscapeByte(b: Byte): (t: string)
    ensures |t| == 3 && t[0] == '%' && IsUpperHexDigit(t[1]) && IsUpperHexDigit(t[2])
  {
    ['%', HexDigits[b / 16], HexDigits[b % 16]]
  }

  function EscapeBytes(bytes: seq<Byte>): (t: string)
    ensures |t| == 3 * |bytes|
    ensures forall i :: 0 <= i < |t| ==> t[i] == '%' || IsUpperHexDigit(t[i])
    ensures |bytes| > 0 ==> t[0] == '%'
  {
    if |bytes| == 0 then "" else EscapeByte(bytes[0]) + EscapeBytes(bytes[1..])
  }

  /** The escapes come one per byte, in order: characters `3i` to `3i + 2` are the escape of byte `i`. */
  lemma {:induction false} EscapeBytesAt(bytes: seq<Byte>, i: nat)
    requires i < |bytes|
    ensures EscapeBytes(bytes)[3 * i..3 * i + 3] == EscapeByte(bytes[i])
  {
    var head := EscapeByte(bytes[0]);
    var rest := EscapeBytes(bytes[1..]);
    assert EscapeBytes(bytes) == head + rest;
    if i > 0 {
      EscapeBytesAt(bytes[1..], i - 1);
      assert (head + rest)[3 * i..3 * i + 3] == rest[3 * (i - 1)..3 * (i - 1) + 3];
    }
  }

  /** Value of a hexadecimal digit of either case. */
  function HexValue(c: char): Option<nat> {
    if '0' <= c <= '9' then Some(c as int - '0' as int)
    else if 'A' <= c <= 'F' then Some(c as int - 'A' as int + 10)
    else if 'a' <= c <= 'f' then Some(c as int - 'a' as int + 10)
    else None
  }

  /** The byte a `%XX` escape at the head of `s` stands for. */
  function UnescapeByte(s: string): (b: Option<Byte>)
  {
    if |s| < 3 || s[0] != '%' then None
    else match (HexValue(s[1]), HexValue(s[2]))
      case (Some(hi), Some(lo)) => if hi < 16 && lo < 16 then Some(hi * 16 + lo) else None
      case _ => None
  }

  /** The bytes of `n` consecutive escapes at the head of `s`. */
  function UnescapeBytes(s: string, n: nat): Option<seq<Byte>>
    decreases n
  {
    if n == 0 then Some([])
    else if |s| < 3 then None
    else match (UnescapeByte(s), UnescapeBytes(s[3..], n - 1))
      case (Some(b), Some(bs)) => Some([b] + bs)
      case _ => None
  }

  // ---------------------------------------------------------------------
  // The two global functions

  /** What `encodeURIComponent` emits for one character. */
  function EncodeChar(c: char): (t: string)
    ensures |t| >= 1
    ensures forall i :: 0 <= i < |t| ==> IsEncoderOutput(t[i])
  {
    if IsUnreserved(c) then [c] else EscapeBytes(Utf8Encode(c))
  }

  /** `encodeURIComponent(s)`: the characters of `s` encoded one after another. */
  function EncodeUriComponent(s: string): (r: string)
    ensures forall i :: 0 <= i < |r| ==> IsEncoderOutput(r[i])
    ensures |r| >= |s|
  {
    if |s| == 0 then "" else EncodeChar(s[0]) + EncodeUriComponent(s[1..])
  }

  /** `decodeURIComponent(s)`; `None` where it would throw a URIError. */
  function DecodeUriComponent(s: string): Option<string>
    decreases |s|
  {
    if |s| == 0 then Some("")
    else if s[0] != '%' then
      match DecodeUriComponent(s[1..])
      case Some(rest) => Some([s[0]] + rest)
      case None => None
    else
      match UnescapeByte(s)
      case None => None
      case Some(lead) =>
        var n := SequenceLength(lead);
        if n == 0 || |s| < 3 * n then None
        else match (UnescapeBytes(s, n), DecodeUriComponent(s[3 * n..]))
          case (Some(bytes), Some(rest)) =>
            (match Utf8DecodeChar(bytes)
             case Some(c) => Some([c] + rest)
             case None => None)
          case _ => None
  }

  // ---------------------------------------------------------------------
  // Properties

  /** Neither form delimiter `&` nor `=` ever appears in the encoder's output. */
  lemma EncoderOmitsFormDelimiters(s: string)
    ensures '&' !in EncodeUriComponent(s) && '=' !in EncodeUriComponent(s)
  {
    var r := EncodeUriComponent(s);
    forall i | 0 <= i < |r|
      ensures r[i] != '&' && r[i] != '='
    {
      assert IsEncoderOutput(r[i]);
    }
  }

  /** A string of unreserved characters is its own encoding. */
  lemma {:induction false} UnreservedUnchanged(s: string)
    requires forall i :: 0 <= i < |s| ==> IsUnreserved(s[i])
    ensures EncodeUriComponent(s) == s
  {
    if |s| > 0 {
      UnreservedUnchanged(s[1..]);
      assert s == [s[0]] + s[1..];
    }
  }

  /** Space is escaped as `%20`, not as the `+` of HTML form encoding; the delimiters are escaped too. */
  lemma EscapeExamples()
    ensures EncodeUriComponent(" ") == "%20"
    ensures EncodeUriComponent("&") == "%26"
    ensures EncodeUriComponent("=") == "%3D"
    ensures EncodeUriComponent("+") == "%2B"
  {
    assert EncodeUriComponent(" ") == EncodeChar(' ');
    assert EncodeUriComponent("&") == EncodeChar('&');
    assert EncodeUriComponent("=") == EncodeChar('=');
    assert EncodeUriComponent("+") == EncodeChar('+');
  }

  /** Dividing by 64 twice is dividing by 64 * 64. */
  lemma DivDiv64(x: nat)
    ensures x / 0x40 / 0x40 == x / 0x1000
  {
    var q := x / 0x1000;
    var r := x % 0x1000;
    assert x == q * 0x1000 + r;
    assert x / 0x40 == q * 0x40 + r / 0x40;
  }

  /** A continuation byte carrying the low six bits of `x`, after a prefix that encodes `x / 64`, encodes `x`. */
  lemma CodePointAppend(prefix: seq<Byte>, b: Byte, x: nat)
    requires |prefix| >= 1
    requires CodePoint(prefix) == x / 0x40
    requires b % 0x40 == x % 0x40
    ensures CodePoint(prefix + [b]) == x
  {
    assert (prefix + [b])[..|prefix|] == prefix;
    assert x == x / 0x40 * 0x40 + x % 0x40;
  }

  lemma CodePointOfTwoBytes(c: char)
    requires 0x80 <= c as int < 0x800
    ensures CodePoint(Utf8Encode(c)) == c as int
  {
    var cp := c as int;
    var bytes := Utf8Encode(c);
    assert CodePoint([bytes[0]]) == cp / 0x40;
    CodePointAppend([bytes[0]], bytes[1], cp);
    assert [bytes[0]] + [bytes[1]] == bytes;
  }

  lemma CodePointOfThreeBytes(c: char)
    requires 0x800 <= c as int < 0x1_0000
    ensures CodePoint(Utf8Encode(c)) == c as int
  {
    var cp := c as int;
    var bytes := Utf8Encode(c);
    assert CodePoint([bytes[0]]) == cp / 0x40 / 0x40 by {
      DivDiv64(cp);
    }
    CodePointAppend([bytes[0]], bytes[1], cp / 0x40);
    assert [bytes[0]] + [bytes[1]] == bytes[..2];
    CodePointAppend(bytes[..2], bytes[2], cp);
    assert bytes[..2] + [bytes[2]] == bytes;
  }

  lemma CodePointOfFourBytes(c: char)
    requires 0x1_0000 <= c as int
    ensures CodePoint(Utf8Encode(c)) == c as int
  {
    var cp := c as int;
    var bytes := Utf8Encode(c);
    assert CodePoint([bytes[0]]) == cp / 0x1000 / 0x40 by {
      DivDiv64(cp / 0x40);
      DivDiv64(cp);
    }
    CodePointAppend([bytes[0]], bytes[1], cp / 0x1000);
    assert [bytes[0]] + [bytes[1]] == bytes[..2];
    assert cp / 0x1000 == cp / 0x40 / 0x40 by {
      DivDiv64(cp);
    }
    CodePointAppend(bytes[..2], bytes[2], cp / 0x40);
    assert bytes[..2] + [bytes[2]] == bytes[..3];
    CodePointAppend(bytes[..3], bytes[3], cp);
    assert bytes[..3] + [bytes[3]] == bytes;
  }

  /** Re-assembling the UTF-8 bytes of a character gives back its code point. */
  lemma CodePointOfUtf8(c: char)
    ensures CodePoint(Utf8Encode(c)) == c as int
    ensures SequenceLength(Utf8Encode(c)[0]) == |Utf8Encode(c)|
  {
    var cp := c as int;
    if cp < 0x80 {
    } else if cp < 0x800 {
      CodePointOfTwoBytes(c);
    } else if cp < 0x1_0000 {
      CodePointOfThreeBytes(c);
    } else {
      CodePointOfFourBytes(c);
    }
  }

  /** UTF-8 decoding inverts UTF-8 encoding. */
  lemma Utf8RoundTrip(c: char)
    ensures Utf8DecodeChar(Utf8Encode(c)) == Some(c)
  {
    CodePointOfUtf8(c);
  }

  lemma HexDigitRoundTrip(d: nat)
    requires d < 16
    ensures HexValue(HexDigits[d]) == Some(d)
  {
  }

  lemma UnescapeEscapeByte(b: Byte, rest: string)
    ensures UnescapeByte(EscapeByte(b) + rest) == Some(b)
  {
    HexDigitRoundTrip(b / 16);
    HexDigitRoundTrip(b % 16);
  }

  /** Reading back `|bytes|` escapes yields the escaped bytes. */
  lemma {:induction false} UnescapeEscapeBytes(bytes: seq<Byte>, rest: string)
    ensures UnescapeBytes(EscapeBytes(bytes) + rest, |bytes|) == Some(bytes)
  {
    if |bytes| > 0 {
      var t := EscapeBytes(bytes) + rest;
      assert t == EscapeByte(bytes[0]) + (EscapeBytes(bytes[1..]) + rest);
      UnescapeEscapeByte(bytes[0], EscapeBytes(bytes[1..]) + rest);
      assert t[3..] == EscapeBytes(bytes[1..]) + rest;
      UnescapeEscapeBytes(bytes[1..], rest);
      assert [bytes[0]] + bytes[1..] == bytes;
    }
  }

  /** Decoding reads one encoded character off the front and continues with the rest. */
  lemma DecodeEncodedChar(c: char, rest: string)
    ensures DecodeUriComponent(EncodeChar(c) + rest) ==
            match DecodeUriComponent(rest)
            case Some(r) => Some([c] + r)
            case None => None
  {
    var t := EncodeChar(c) + rest;
    if IsUnreserved(c) {
      assert t[0] == c && t[1..] == rest;
    } else {
      var bytes := Utf8Encode(c);
      var n := |bytes|;
      assert EscapeBytes(bytes) == EscapeByte(bytes[0]) + EscapeBytes(bytes[1..]);
      UnescapeEscapeByte(bytes[0], EscapeBytes(bytes[1..]) + rest);
      assert t == EscapeByte(bytes[0]) + (EscapeBytes(bytes[1..]) + rest);
      CodePointOfUtf8(c);
      UnescapeEscapeBytes(bytes, rest);
      assert t[3 * n..] == rest;
      Utf8RoundTrip(c);
    }
  }

  /** `decodeURIComponent(encodeURIComponent(s)) == s`: the encoding loses nothing. */
  lemma {:induction false} DecodeEncode(s: string)
    ensures DecodeUriComponent(EncodeUriComponent(s)) == Some(s)
  {
    if |s| > 0 {
      DecodeEncodedChar(s[0], EncodeUriComponent(s[1..]));
      DecodeEncode(s[1..]);
      assert [s[0]] + s[1..] == s;
    }
  }

  /** Distinct strings have distinct encodings. */
  lemma EncodeInjective(s: string, t: string)
    ensures EncodeUriComponent(s) == EncodeUriComponent(t) ==> s == t
  {
    DecodeEncode(s);
    DecodeEncode(t);
  }
}
