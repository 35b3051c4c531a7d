/** Percent-encoding as ECMAScript's `encodeURIComponent` and
    `decodeURIComponent` do it (ECMAScript 2015 sections 18.2.6.5, 18.2.6.3 and
    the shared Encode/Decode operations of 18.2.6.1): every character outside
    the unreserved set becomes the `%XY` escapes of its UTF-8 octets, with
    upper-case hexadecimal digits as in section 2.1 of RFC 3986. */
module Uri {
  import opened Outcomes

  /** The characters `encodeURIComponent` leaves alone: uriAlpha, DecimalDigit
      and uriMark. */
  predicate IsUnreserved(c: char)
  {
    ('a' <= c <= 'z') || ('A' <= c <= 'Z') || ('0' <= c <= '9') ||
    c == '-' || c == '_' || c == '.' || c == '!' || c == '~' || c == '*' ||
    c == '\'' || c == '(' || c == ')'
  }

  /** The characters encoded text is made of. */
  predicate IsEncodedChar(c: char)
  {
    IsUnreserved(c) || c == '%'
  }

  predicate IsHexDigit(c: char)
  {
    ('0' <= c <= '9') || ('a' <= c <= 'f') || ('A' <= c <= 'F')
  }

  /** The upper-case hexadecimal digit for `d`. */
  function HexDigit(d: nat): (c: char)
    requires d < 16
    ensures IsHexDigit(c) && IsUnreserved(c)
  {
    if d < 10 then ('0' as int + d) as char else ('A' as int + d - 10) as char
  }

  /** The value of a hexadecimal digit of either case. */
  function HexValue(c: char): (v: nat)
    requires IsHexDigit(c)
    ensures v < 16
  {
    if c <= '9' then c as int - '0' as int
    else if c <= 'F' then c as int - 'A' as int + 10
    else c as int - 'a' as int + 10
  }

  /** `%XY` for one octet. */
  function Escape(b: nat): (r: string)
    requires b < 256
    ensures |r| == 3
  {
    ['%', HexDigit(b / 16), HexDigit(b % 16)]
  }

  predicate IsOctets(bs: seq<nat>)
  {
    forall i :: 0 <= i < |bs| ==> bs[i] < 256
  }

  function EscapeOctets(bs: seq<nat>): (r: string)
    requires IsOctets(bs)
    ensures |r| == 3 * |bs|
    ensures forall i :: 0 <= i < |r| ==> IsEncodedChar(r[i])
  {
    if |bs| == 0 then "" else Escape(bs[0]) + EscapeOctets(bs[1..])
  }

  /** The UTF-8 octets of a code point (Table 3-6 of the Unicode Standard). The
      payload is cut into 6-bit groups by repeated division by 64. */
  function Utf8(c: char): (bs: seq<nat>)
    ensures 1 <= |bs| <= 4 && IsOctets(bs)
  {
    var v := c as int;
    if v < 0x80 then [v]
    else if v < 0x800 then [0xC0 + v / 64, 0x80 + v % 64]
    else if v < 0x1_0000 then [0xE0 + (v / 64) / 64, 0x80 + (v / 64) % 64, 0x80 + v % 64]
    else [0xF0 + ((v / 64) / 64) / 64, 0x80 + ((v / 64) / 64) % 64, 0x80 + (v / 64) % 64, 0x80 + v % 64]
  }

  function EncodeChar(c: char): string
  {
    if IsUnreserved(c) then [c] else EscapeOctets(Utf8(c))
  }

  /** `encodeURIComponent(s)`. Dafny strings hold Unicode scalar values, so
      the lone-surrogate `URIError` of the source cannot arise. Only unreserved
      characters and `%` appear in the result. */
  function EncodeURIComponent(s: string): (r: string)
    ensures forall i :: 0 <= i < |r| ==> IsEncodedChar(r[i])
    ensures |r| >= |s|
  {
    if |s| == 0 then "" else EncodeChar(s[0]) + EncodeURIComponent(s[1..])
  }

  /** The octet written as `%XY` at index `i`, if one is written there. */
  function OctetAt(s: string, i: nat): (r: Option<nat>)
    ensures r.Some? ==> r.value < 256
  {
    if i + 3 <= |s| && s[i] == '%' && IsHexDigit(s[i + 1]) && IsHexDigit(s[i + 2])
    then Some(16 * HexValue(s[i + 1]) + HexValue(s[i + 2]))
    else None
  }

  /** The 6-bit payload of a continuation octet `10xxxxxx` escaped at index `i`,
      or -1 when there is none. */
  function Payload(s: string, i: nat): (p: int)
    ensures -1 <= p < 64
  {
    match OctetAt(s, i)
    case Some(o) => if 0x80 <= o < 0xC0 then o - 0x80 else -1
    case None => -1
  }

  /** The number of octets a leading octet announces; 0 when the octet cannot
      lead a sequence (`10xxxxxx`, or five or more leading one bits). */
  function LeadLength(b: nat): nat
  {
    if b < 0x80 then 1
    else if b < 0xC0 then 0
    else if b < 0xE0 then 2
    else if b < 0xF0 then 3
    else if b < 0xF8 then 4
    else 0
  }

  /** Decodes the escape sequence at the head of `s` (which starts with `%`):
      one octet, or a whole UTF-8 sequence of escaped octets. Returns the
      character and the number of characters consumed. Every malformed,
      truncated, overlong, surrogate or out-of-range sequence is a `URIError`. */
  function DecodeEscape(s: string): (r: Outcome<(char, nat)>)
    requires |s| > 0 && s[0] == '%'
    ensures r.Ok? ==> 3 <= r.value.1 <= |s|
    ensures r.Throws? ==> r.error == URIError
  {
    match OctetAt(s, 0)
    case None => Throws(URIError)
    case Some(b) =>
      var n := LeadLength(b);
      if n == 1 then Ok((b as char, 3))
      else if n == 2 then
        var x1 := Payload(s, 3);
        var v := (b - 0xC0) * 64 + x1;
        if x1 < 0 || v < 0x80 then Throws(URIError) else Ok((v as char, 6))
      else if n == 3 then
        var x1, x2 := Payload(s, 3), Payload(s, 6);
        var v := ((b - 0xE0) * 64 + x1) * 64 + x2;
        if x1 < 0 || x2 < 0 || v < 0x800 || (0xD800 <= v < 0xE000) then Throws(URIError)
        else Ok((v as char, 9))
      else if n == 4 then
        var x1, x2, x3 := Payload(s, 3), Payload(s, 6), Payload(s, 9);
        var v := (((b - 0xF0) * 64 + x1) * 64 + x2) * 64 + x3;
        if x1 < 0 || x2 < 0 || x3 < 0 || v < 0x1_0000 || v >= 0x11_0000 then Throws(URIError)
        else Ok((v as char, 12))
      else Throws(URIError)
  }

  /** `decodeURIComponent(s)`: characters other than `%` are copied, escape
      sequences are decoded (none is kept back: the reserved set of
      `decodeURIComponent` is empty). The only error is `URIError`; text without
      `%` decodes to itself; decoding never lengthens the text. */
  function DecodeURIComponent(s: string): (r: Outcome<string>)
    ensures r.Ok? ==> |r.value| <= |s|
    ensures r.Throws? ==> r.error == URIError
    ensures '%' !in s ==> r == Ok(s)
  {
    if |s| == 0 then Ok("")
    else if s[0] != '%' then
      assert s == [s[0]] + s[1..];
      assert '%' !in s ==> '%' !in s[1..];
      match DecodeURIComponent(s[1..])
      case Ok(t) => Ok([s[0]] + t)
      case Throws(e) => Throws(e)
    else
      match DecodeEscape(s)
      case Throws(e) => Throws(e)
      case Ok(ck) =>
        match DecodeURIComponent(s[ck.1..])
        case Ok(t) => Ok([ck.0] + t)
        case Throws(e) => Throws(e)
  }

  // ---------------------------------------------------------------------------
  // Round trip

  lemma {:induction false} HexRoundTrip(d: nat)
    requires d < 16
    ensures HexValue(HexDigit(d)) == d
  {
  }

  /** An escape written in front of any text reads back as its octet. */
  lemma {:induction false} OctetAtEscape(b: nat, rest: string)
    requires b < 256
    ensures OctetAt(Escape(b) + rest, 3 * 0) == Some(b)
  {
    HexRoundTrip(b / 16);
    HexRoundTrip(b % 16);
  }

  /** Reading an octet behind a prefix is reading it in the remainder. */
  lemma {:induction false} OctetAtShift(p: string, t: string, i: nat)
    ensures OctetAt(p + t, |p| + i) == OctetAt(t, i)
  {
    if |p| + i + 3 <= |p + t| {
      assert (p + t)[|p| + i] == t[i];
      assert (p + t)[|p| + i + 1] == t[i + 1];
      assert (p + t)[|p| + i + 2] == t[i + 2];
    }
  }

  lemma {:induction false} OctetShiftStep(x: string, p: string, t: string, k: nat, o: nat)
    requires x == p + t && |p| == 3 && OctetAt(t, k) == Some(o)
    ensures OctetAt(x, k + 3) == Some(o)
  {
    OctetAtShift(p, t, k);
  }

  lemma {:induction false} EscapeOctetsCons(bs: seq<nat>, rest: string)
    requires IsOctets(bs) && |bs| > 0
    ensures EscapeOctets(bs) + rest == Escape(bs[0]) + (EscapeOctets(bs[1..]) + rest)
  {
  }

  /** The `j`-th escape of an escaped octet sequence reads back as the `j`-th octet. */
  lemma {:induction false} OctetAtEscapeOctets(bs: seq<nat>, rest: string, j: nat)
    requires IsOctets(bs) && j < |bs|
    ensures OctetAt(EscapeOctets(bs) + rest, 3 * j) == Some(bs[j])
  {
    var x := EscapeOctets(bs) + rest;
    var t := EscapeOctets(bs[1..]) + rest;
    EscapeOctetsCons(bs, rest);
    if j == 0 {
      OctetAtEscape(bs[0], t);
    } else {
      var tl := bs[1..];
      assert IsOctets(tl) && tl[j - 1] == bs[j];
      assert OctetAt(t, 3 * (j - 1)) == Some(bs[j]) by {
        OctetAtEscapeOctets(tl, rest, j - 1);
      }
      OctetShiftStep(x, Escape(bs[0]), t, 3 * (j - 1), bs[j]);
    }
  }

  /** An escaped character followed by anything decodes back to that character
      and consumes exactly its own escapes. */
  lemma {:induction false} DecodeEscapeOfEncoded(c: char, rest: string)
    requires !IsUnreserved(c)
    ensures var e := EncodeChar(c);
      |e + rest| > 0 && (e + rest)[0] == '%' && DecodeEscape(e + rest) == Ok((c, |e|))
  {
    var v := c as int;
    if v < 0x80 {
      DecodeOneOctet(c, rest);
    } else if v < 0x800 {
      DecodeTwoOctets(c, rest);
    } else if v < 0x1_0000 {
      DecodeThreeOctets(c, rest);
    } else {
      DecodeFourOctets(c, rest);
    }
  }

  lemma {:induction false} DecodeOneOctet(c: char, rest: string)
    requires !IsUnreserved(c) && c as int < 0x80
    ensures var e := EncodeChar(c);
      |e + rest| > 0 && (e + rest)[0] == '%' && DecodeEscape(e + rest) == Ok((c, |e|))
  {
    var bs := Utf8(c);
    OctetAtEscapeOctets(bs, rest, 0);
  }

  /** Cutting off the low six bits. */
  lemma {:induction false} Split64(v: int)
    requires v >= 0
    ensures v == (v / 64) * 64 + v % 64 && 0 <= v % 64 < 64 && v / 64 >= 0
  {
  }

  /** `DecodeEscape` on a well-formed two-octet sequence. */
  lemma {:induction false} DecodeTwoFrom(s: string, b: nat, o1: nat)
    requires |s| > 0 && s[0] == '%'
    requires OctetAt(s, 0) == Some(b) && OctetAt(s, 3) == Some(o1)
    requires 0xC0 <= b < 0xE0 && 0x80 <= o1 < 0xC0
    requires 0x80 <= (b - 0xC0) * 64 + (o1 - 0x80)
    ensures DecodeEscape(s) == Ok((((b - 0xC0) * 64 + (o1 - 0x80)) as char, 6))
  {
  }

  /** `DecodeEscape` on a well-formed three-octet sequence. */
  lemma {:induction false} DecodeThreeFrom(s: string, b: nat, o1: nat, o2: nat)
    requires |s| > 0 && s[0] == '%'
    requires OctetAt(s, 0) == Some(b) && OctetAt(s, 3) == Some(o1) && OctetAt(s, 6) == Some(o2)
    requires 0xE0 <= b < 0xF0 && 0x80 <= o1 < 0xC0 && 0x80 <= o2 < 0xC0
    requires var v := ((b - 0xE0) * 64 + (o1 - 0x80)) * 64 + (o2 - 0x80);
      0x800 <= v && !(0xD800 <= v < 0xE000)
    ensures DecodeEscape(s) == Ok(((((b - 0xE0) * 64 + (o1 - 0x80)) * 64 + (o2 - 0x80)) as char, 9))
  {
  }

  /** `DecodeEscape` on a well-formed four-octet sequence. */
  lemma {:induction false} DecodeFourFrom(s: string, b: nat, o1: nat, o2: nat, o3: nat)
    requires |s| > 0 && s[0] == '%'
    requires OctetAt(s, 0) == Some(b) && OctetAt(s, 3) == Some(o1)
    requires OctetAt(s, 6) == Some(o2) && OctetAt(s, 9) == Some(o3)
    requires 0xF0 <= b < 0xF8 && 0x80 <= o1 < 0xC0 && 0x80 <= o2 < 0xC0 && 0x80 <= o3 < 0xC0
    requires var v := (((b - 0xF0) * 64 + (o1 - 0x80)) * 64 + (o2 - 0x80)) * 64 + (o3 - 0x80);
      0x1_0000 <= v < 0x11_0000
    ensures DecodeEscape(s) ==
      Ok((((((b - 0xF0) * 64 + (o1 - 0x80)) * 64 + (o2 - 0x80)) * 64 + (o3 - 0x80)) as char, 12))
  {
  }

  lemma {:induction false} DecodeTwoOctets(c: char, rest: string)
    requires 0x80 <= c as int < 0x800
    ensures var e := EncodeChar(c);
      |e + rest| > 0 && (e + rest)[0] == '%' && DecodeEscape(e + rest) == Ok((c, |e|))
  {
    var bs := Utf8(c);
    var s := EncodeChar(c) + rest;
    Utf8Two(c);
    OctetAtEscapeOctets(bs, rest, 0);
    OctetAtEscapeOctets(bs, rest, 1);
    DecodeTwoFrom(s, bs[0], bs[1]);
  }

  /** The two octets of a character from U+0080 to U+07FF carry its bits back. */
  lemma {:induction false} Utf8Two(c: char)
    requires 0x80 <= c as int < 0x800
    ensures var bs := Utf8(c);
      |bs| == 2 && 0xC0 <= bs[0] < 0xE0 && 0x80 <= bs[1] < 0xC0 &&
      (bs[0] - 0xC0) * 64 + (bs[1] - 0x80) == c as int
  {
    Split64(c as int);
  }

  lemma {:induction false} DecodeThreeOctets(c: char, rest: string)
    requires 0x800 <= c as int < 0x1_0000
    ensures var e := EncodeChar(c);
      |e + rest| > 0 && (e + rest)[0] == '%' && DecodeEscape(e + rest) == Ok((c, |e|))
  {
    var bs := Utf8(c);
    var s := EncodeChar(c) + rest;
    Utf8Three(c);
    OctetAtEscapeOctets(bs, rest, 0);
    OctetAtEscapeOctets(bs, rest, 1);
    OctetAtEscapeOctets(bs, rest, 2);
    DecodeThreeFrom(s, bs[0], bs[1], bs[2]);
  }

  /** The three octets of a character from U+0800 to U+FFFF carry its bits back. */
  lemma {:induction false} Utf8Three(c: char)
    requires 0x800 <= c as int < 0x1_0000
    ensures var bs := Utf8(c);
      |bs| == 3 && 0xE0 <= bs[0] < 0xF0 && 0x80 <= bs[1] < 0xC0 && 0x80 <= bs[2] < 0xC0 &&
      ((bs[0] - 0xE0) * 64 + (bs[1] - 0x80)) * 64 + (bs[2] - 0x80) == c as int
  {
    var v := c as int;
    Split64(v);
    Split64(v / 64);
  }

  lemma {:induction false} DecodeFourOctets(c: char, rest: string)
    requires 0x1_0000 <= c as int
    ensures var e := EncodeChar(c);
      |e + rest| > 0 && (e + rest)[0] == '%' && DecodeEscape(e + rest) == Ok((c, |e|))
  {
    var bs := Utf8(c);
    var s := EncodeChar(c) + rest;
    Utf8Four(c);
    OctetAtEscapeOctets(bs, rest, 0);
    OctetAtEscapeOctets(bs, rest, 1);
    OctetAtEscapeOctets(bs, rest, 2);
    OctetAtEscapeOctets(bs, rest, 3);
    DecodeFourFrom(s, bs[0], bs[1], bs[2], bs[3]);
  }

  /** The four octets of a supplementary character carry its bits back. */
  lemma {:induction false} Utf8Four(c: char)
    requires 0x1_0000 <= c as int
    ensures var bs := Utf8(c);
      |bs| == 4 && 0xF0 <= bs[0] < 0xF8 && 0x80 <= bs[1] < 0xC0 && 0x80 <= bs[2] < 0xC0 && 0x80 <= bs[3] < 0xC0 &&
      (((bs[0] - 0xF0) * 64 + (bs[1] - 0x80)) * 64 + (bs[2] - 0x80)) * 64 + (bs[3] - 0x80) == c as int
  {
    var v := c as int;
    var q1 := v / 64;
    var q2 := q1 / 64;
    Split64(v);
    Split64(q1);
    Split64(q2);
  }

  /** Decoding one encoded character in front of `rest`. */
  lemma {:induction false} DecodeCharStep(c: char, rest: string)
    ensures DecodeURIComponent(EncodeChar(c) + rest) ==
      match DecodeURIComponent(rest)
      case Ok(t) => Ok([c] + t)
      case Throws(e) => Throws(e)
  {
    var s := EncodeChar(c) + rest;
    if IsUnreserved(c) {
      assert s[0] == c && s[1..] == rest;
    } else {
      DecodeEscapeOfEncoded(c, rest);
      assert s[|EncodeChar(c)|..] == rest;
    }
  }

  /** `decodeURIComponent(encodeURIComponent(s)) == s` for every string. */
  lemma {:induction false} DecodeEncode(s: string)
    ensures DecodeURIComponent(EncodeURIComponent(s)) == Ok(s)
  {
    if |s| > 0 {
      DecodeEncode(s[1..]);
      DecodeCharStep(s[0], EncodeURIComponent(s[1..]));
      assert [s[0]] + s[1..] == s;
    }
  }

  /** Encoding is injective: distinct strings have distinct encodings. */
  lemma {:induction false} EncodeInjective(s: string, t: string)
    requires EncodeURIComponent(s) == EncodeURIComponent(t)
    ensures s == t
  {
    DecodeEncode(s);
    DecodeEncode(t);
  }

  /** Encoded text never holds the characters that delimit cookie pairs and
      attributes: `;`, `=` and space. */
  lemma {:induction false} EncodedHasNoDelimiters(s: string)
    ensures ';' !in EncodeURIComponent(s)
    ensures '=' !in EncodeURIComponent(s)
    ensures ' ' !in EncodeURIComponent(s)
  {
    var r := EncodeURIComponent(s);
    assert forall i :: 0 <= i < |r| ==> IsEncodedChar(r[i]);
  }

  predicate AllUnreserved(s: string)
  {
    forall i :: 0 <= i < |s| ==> IsUnreserved(s[i])
  }

  /** Encoding leaves a string unchanged exactly when all its characters are
      unreserved; any other character grows into at least three. */
  lemma {:induction false} EncodeIdentity(s: string)
    ensures EncodeURIComponent(s) == s <==> AllUnreserved(s)
  {
    if |s| > 0 {
      EncodeIdentity(s[1..]);
      var tail := EncodeURIComponent(s[1..]);
      if IsUnreserved(s[0]) {
        assert EncodeURIComponent(s) == [s[0]] + tail;
        assert s == [s[0]] + s[1..];
        if EncodeURIComponent(s) == s {
          assert tail == s[1..];
        }
        assert AllUnreserved(s) ==> AllUnreserved(s[1..]);
      } else {
        assert |EncodeChar(s[0])| >= 3;
        assert |EncodeURIComponent(s)| > |s|;
      }
    }
  }

  /** A string with a character outside the unreserved set grows by at least
      two characters when encoded. */
  lemma {:induction false} EncodeGrows(s: string)
    requires !AllUnreserved(s)
    ensures |EncodeURIComponent(s)| >= |s| + 2
  {
    if IsUnreserved(s[0]) {
      assert !AllUnreserved(s[1..]) by {
        if AllUnreserved(s[1..]) {
          forall i | 0 <= i < |s| ensures IsUnreserved(s[i]) {
            if i > 0 {
              assert s[i] == s[1..][i - 1];
            }
          }
        }
      }
      EncodeGrows(s[1..]);
    } else {
      assert |Utf8(s[0])| >= 1;
      assert |EncodeChar(s[0])| >= 3;
    }
  }

  /** Encoding twice gives back the original only when encoding once does. */
  lemma {:induction false} EncodeTwiceChanges(s: string)
    requires !AllUnreserved(s)
    ensures EncodeURIComponent(EncodeURIComponent(s)) != s
  {
    EncodeGrows(s);
  }
}
