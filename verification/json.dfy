/** `JSON.stringify` and `JSON.parse` (ECMAScript 2015 sections 24.3.2 and
    24.3.1, grammar of RFC 8259) over JSON values whose numbers are integers. */
module Json {
  import opened Outcomes
  import Uri

  datatype Json =
    | Null
    | Bool(b: bool)
    | Num(n: int)
    | Str(s: string)
    | Arr(items: seq<Json>)
    | Obj(members: seq<Member>)

  /** One own property of an object, in enumeration order. */
  datatype Member = Member(name: string, value: Json)

  /** A JavaScript value as the facades see it: `undefined`, or a JSON value. */
  datatype JsValue = Undefined | Defined(json: Json)

  /** An object never holds two properties of one name; this holds of every
      value a script can build. */
  predicate WellFormed(v: Json)
  {
    match v
    case Arr(items) => forall i :: 0 <= i < |items| ==> WellFormed(items[i])
    case Obj(ms) =>
      (forall i, j :: 0 <= i < j < |ms| ==> ms[i].name != ms[j].name) &&
      (forall i :: 0 <= i < |ms| ==> WellFormed(ms[i].value))
    case _ => true
  }

  // ---------------------------------------------------------------------------
  // Serialisation

  predicate IsDigit(c: char)
  {
    '0' <= c <= '9'
  }

  function DigitChar(d: nat): (c: char)
    requires d < 10
    ensures IsDigit(c)
  {
    ('0' as int + d) as char
  }

  /** Decimal digits of `n`, without leading zeros. */
  function NatText(n: nat): (r: string)
    ensures |r| > 0 && (forall i :: 0 <= i < |r| ==> IsDigit(r[i]))
    ensures r[0] == '0' <==> n == 0
    ensures n == 0 ==> r == "0"
  {
    if n < 10 then [DigitChar(n)] else NatText(n / 10) + [DigitChar(n % 10)]
  }

  /** Decimal text of an integer, as Number::toString writes a whole Number
      whose magnitude is below 10^21 (from there on it switches to exponent
      form, which the model does not write). */
  function IntText(n: int): string
  {
    if n < 0 then "-" + NatText(-n) else NatText(n)
  }

  function LowerHexDigit(d: nat): (c: char)
    requires d < 16
    ensures Uri.IsHexDigit(c) && Uri.HexValue(c) == d
  {
    if d < 10 then ('0' as int + d) as char else ('a' as int + d - 10) as char
  }

  /** One character of the Quote operation: `"` and `\` are escaped, the five
      named control characters get their short escapes, other control
      characters become `\u00xy` with lower-case digits. */
  function QuoteChar(c: char): string
  {
    if c == '"' then "\\\""
    else if c == '\\' then "\\\\"
    else if c == '\U{8}' then "\\b"
    else if c == '\U{C}' then "\\f"
    else if c == '\n' then "\\n"
    else if c == '\r' then "\\r"
    else if c == '\t' then "\\t"
    else if c < ' ' then "\\u00" + [LowerHexDigit(c as int / 16), LowerHexDigit(c as int % 16)]
    else [c]
  }

  function QuoteBody(s: string): string
  {
    if |s| == 0 then "" else QuoteChar(s[0]) + QuoteBody(s[1..])
  }

  function Quote(s: string): string
  {
    "\"" + QuoteBody(s) + "\""
  }

  /** `JSON.stringify(v)` of a JSON value: no whitespace, members and items
      joined by `,`. */
  function Stringify(v: Json): (r: string)
    ensures |r| > 0 && StartsValue(r[0])
  {
    match v
    case Null => "null"
    case Bool(b) => if b then "true" else "false"
    case Num(n) => IntText(n)
    case Str(s) => Quote(s)
    case Arr(items) => "[" + StringifyItems(items) + "]"
    case Obj(ms) => "{" + StringifyMembers(ms) + "}"
  }

  function StringifyItems(items: seq<Json>): (r: string)
    ensures |items| > 0 ==> |r| > 0 && StartsValue(r[0])
  {
    if |items| == 0 then ""
    else if |items| == 1 then Stringify(items[0])
    else Stringify(items[0]) + "," + StringifyItems(items[1..])
  }

  function StringifyMember(m: Member): string
  {
    Quote(m.name) + ":" + Stringify(m.value)
  }

  function StringifyMembers(ms: seq<Member>): (r: string)
    ensures |ms| > 0 ==> |r| > 0 && r[0] == '"'
  {
    if |ms| == 0 then ""
    else if |ms| == 1 then StringifyMember(ms[0])
    else StringifyMember(ms[0]) + "," + StringifyMembers(ms[1..])
  }

  /** `JSON.stringify` at top level: `undefined` has no JSON text and gives
      `undefined` back. */
  function StringifyValue(v: JsValue): (r: Option<string>)
    ensures r.None? <==> v.Undefined?
  {
    match v
    case Undefined => None
    case Defined(j) => Some(Stringify(j))
  }

  // ---------------------------------------------------------------------------
  // Parsing

  /** The characters a JSON value text can start with. */
  predicate StartsValue(c: char)
  {
    c == 'n' || c == 't' || c == 'f' || c == '"' || c == '[' || c == '{' || c == '-' || IsDigit(c)
  }

  /** JSON insignificant whitespace. */
  predicate IsJsonSpace(c: char)
  {
    c == ' ' || c == '\t' || c == '\n' || c == '\r'
  }

  function SkipSpace(s: string): (r: string)
    ensures |r| <= |s|
  {
    if |s| > 0 && IsJsonSpace(s[0]) then SkipSpace(s[1..]) else s
  }

  /** The value of four hexadecimal digits at index `i`. */
  function Hex4(s: string, i: nat): (r: Option<nat>)
    ensures r.Some? ==> r.value < 0x1_0000
  {
    if i + 4 <= |s| && Uri.IsHexDigit(s[i]) && Uri.IsHexDigit(s[i + 1])
       && Uri.IsHexDigit(s[i + 2]) && Uri.IsHexDigit(s[i + 3])
    then Some(((Uri.HexValue(s[i]) * 16 + Uri.HexValue(s[i + 1])) * 16
               + Uri.HexValue(s[i + 2])) * 16 + Uri.HexValue(s[i + 3]))
    else None
  }

  /** The escape at the head of `s` (which starts with `\`): the character it
      stands for and the number of characters it takes. A surrogate pair of
      `\u` escapes makes one character. */
  function ParseEscape(s: string): (r: Outcome<(char, nat)>)
    requires |s| > 0 && s[0] == '\\'
    ensures r.Ok? ==> 2 <= r.value.1 <= |s|
  {
    if |s| < 2 then Throws(SyntaxError)
    else if s[1] == '"' then Ok(('"', 2))
    else if s[1] == '\\' then Ok(('\\', 2))
    else if s[1] == '/' then Ok(('/', 2))
    else if s[1] == 'b' then Ok(('\U{8}', 2))
    else if s[1] == 'f' then Ok(('\U{C}', 2))
    else if s[1] == 'n' then Ok(('\n', 2))
    else if s[1] == 'r' then Ok(('\r', 2))
    else if s[1] == 't' then Ok(('\t', 2))
    else if s[1] == 'u' then
      match Hex4(s, 2)
      case None => Throws(SyntaxError)
      case Some(h) =>
        if h < 0xD800 || h >= 0xE000 then Ok((h as char, 6))
        else if h >= 0xDC00 || |s| < 12 || s[6] != '\\' || s[7] != 'u' then Throws(SyntaxError)
        else
          match Hex4(s, 8)
          case None => Throws(SyntaxError)
          case Some(l) =>
            if l < 0xDC00 || l >= 0xE000 then Throws(SyntaxError)
            else Ok(((0x1_0000 + (h - 0xD800) * 0x400 + (l - 0xDC00)) as char, 12))
    else Throws(SyntaxError)
  }

  /** The characters of a string literal after its opening quote, up to and
      including the closing quote; returns the text and what follows. */
  function ParseChars(s: string): (r: Outcome<(string, string)>)
    ensures r.Ok? ==> |r.value.1| < |s|
  {
    if |s| == 0 then Throws(SyntaxError)
    else if s[0] == '"' then Ok(("", s[1..]))
    else if s[0] == '\\' then
      match ParseEscape(s)
      case Throws(e) => Throws(e)
      case Ok(ck) =>
        match ParseChars(s[ck.1..])
        case Throws(e) => Throws(e)
        case Ok(tr) => Ok(([ck.0] + tr.0, tr.1))
    else if s[0] < ' ' then Throws(SyntaxError)
    else
      match ParseChars(s[1..])
      case Throws(e) => Throws(e)
      case Ok(tr) => Ok(([s[0]] + tr.0, tr.1))
  }

  /** Length of the run of decimal digits at the head of `s`. */
  function DigitRun(s: string): (n: nat)
    ensures n <= |s|
  {
    if |s| > 0 && IsDigit(s[0]) then 1 + DigitRun(s[1..]) else 0
  }

  /** The number a run of decimal digits denotes. */
  function DigitsValue(ds: string): int
  {
    if |ds| == 0 then 0
    else DigitsValue(ds[..|ds| - 1]) * 10 + (ds[|ds| - 1] as int - '0' as int)
  }

  /** A number literal: `-`, then `0` or a digit run without leading zero. A
      fraction or exponent part ends in `SyntaxError`: floating point is outside
      the model. */
  function ParseNumber(s: string): (r: Outcome<(int, string)>)
    requires |s| > 0
    ensures r.Ok? ==> |r.value.1| < |s|
  {
    if s[0] == '-' then
      match ParseUnsigned(s[1..])
      case Throws(e) => Throws(e)
      case Ok(ur) => Ok((-ur.0, ur.1))
    else ParseUnsigned(s)
  }

  /** The digits of a number literal after its optional `-`. */
  function ParseUnsigned(t: string): (r: Outcome<(int, string)>)
    ensures r.Ok? ==> |r.value.1| < |t|
  {
    if |t| == 0 || !IsDigit(t[0]) then Throws(SyntaxError)
    else
      var len := if t[0] == '0' then 1 else DigitRun(t);
      var rest := t[len..];
      if |rest| > 0 && (rest[0] == '.' || rest[0] == 'e' || rest[0] == 'E') then Throws(SyntaxError)
      else Ok((DigitsValue(t[..len]), rest))
  }

  /** One value, after optional leading whitespace; returns it and the text
      after it. */
  function ParseValue(s: string): (r: Outcome<(Json, string)>)
    ensures r.Ok? ==> |r.value.1| < |s|
    decreases |s|, 0
  {
    var t := SkipSpace(s);
    if |t| == 0 then Throws(SyntaxError)
    else if t[0] == 'n' then
      if |t| >= 4 && t[1] == 'u' && t[2] == 'l' && t[3] == 'l' then Ok((Null, t[4..]))
      else Throws(SyntaxError)
    else if t[0] == 't' then
      if |t| >= 4 && t[1] == 'r' && t[2] == 'u' && t[3] == 'e' then Ok((Bool(true), t[4..]))
      else Throws(SyntaxError)
    else if t[0] == 'f' then
      if |t| >= 5 && t[1] == 'a' && t[2] == 'l' && t[3] == 's' && t[4] == 'e' then Ok((Bool(false), t[5..]))
      else Throws(SyntaxError)
    else if t[0] == '"' then
      match ParseChars(t[1..])
      case Throws(e) => Throws(e)
      case Ok(sr) => Ok((Str(sr.0), sr.1))
    else if t[0] == '[' then ParseArray(t[1..])
    else if t[0] == '{' then ParseObject(t[1..])
    else if t[0] == '-' || IsDigit(t[0]) then
      match ParseNumber(t)
      case Throws(e) => Throws(e)
      case Ok(nr) => Ok((Num(nr.0), nr.1))
    else Throws(SyntaxError)
  }

  /** An array after its `[`. */
  function ParseArray(s: string): (r: Outcome<(Json, string)>)
    ensures r.Ok? ==> |r.value.1| < |s|
    decreases |s|, 2
  {
    var t := SkipSpace(s);
    if |t| > 0 && t[0] == ']' then Ok((Arr([]), t[1..]))
    else
      match ParseItems(s)
      case Throws(e) => Throws(e)
      case Ok(ir) => Ok((Arr(ir.0), ir.1))
  }

  /** One or more items separated by `,`, up to and including the `]`. */
  function ParseItems(s: string): (r: Outcome<(seq<Json>, string)>)
    ensures r.Ok? ==> |r.value.1| < |s| && |r.value.0| > 0
    decreases |s|, 1
  {
    match ParseValue(s)
    case Throws(e) => Throws(e)
    case Ok(vr) =>
      var t := SkipSpace(vr.1);
      if |t| == 0 then Throws(SyntaxError)
      else if t[0] == ']' then Ok(([vr.0], t[1..]))
      else if t[0] == ',' then
        match ParseItems(t[1..])
        case Throws(e) => Throws(e)
        case Ok(ir) => Ok(([vr.0] + ir.0, ir.1))
      else Throws(SyntaxError)
  }

  /** An object after its `{`. Properties are created in text order; a repeated
      name keeps its first position and takes the last value. */
  function ParseObject(s: string): (r: Outcome<(Json, string)>)
    ensures r.Ok? ==> |r.value.1| < |s|
    decreases |s|, 2
  {
    var t := SkipSpace(s);
    if |t| > 0 && t[0] == '}' then Ok((Obj([]), t[1..]))
    else
      match ParseMembers(s)
      case Throws(e) => Throws(e)
      case Ok(mr) => Ok((Obj(Dedup(mr.0)), mr.1))
  }

  /** One or more `"name":value` members separated by `,`, up to and including
      the `}`, as written. */
  function ParseMembers(s: string): (r: Outcome<(seq<Member>, string)>)
    ensures r.Ok? ==> |r.value.1| < |s|
    decreases |s|, 1
  {
    var t := SkipSpace(s);
    if |t| == 0 || t[0] != '"' then Throws(SyntaxError)
    else
      match ParseChars(t[1..])
      case Throws(e) => Throws(e)
      case Ok(nr) =>
        var u := SkipSpace(nr.1);
        if |u| == 0 || u[0] != ':' then Throws(SyntaxError)
        else
          match ParseValue(u[1..])
          case Throws(e) => Throws(e)
          case Ok(vr) =>
            var w := SkipSpace(vr.1);
            if |w| == 0 then Throws(SyntaxError)
            else if w[0] == '}' then Ok(([Member(nr.0, vr.0)], w[1..]))
            else if w[0] == ',' then
              match ParseMembers(w[1..])
              case Throws(e) => Throws(e)
              case Ok(mr) => Ok(([Member(nr.0, vr.0)] + mr.0, mr.1))
            else Throws(SyntaxError)
  }

  /** Creating one data property: an existing name is overwritten in place, a
      new name is appended. */
  function Put(ms: seq<Member>, m: Member): seq<Member>
  {
    if |ms| == 0 then [m]
    else if ms[0].name == m.name then [m] + ms[1..]
    else [ms[0]] + Put(ms[1..], m)
  }

  /** The properties an object ends up with after creating `ms` in order. */
  function Dedup(ms: seq<Member>): seq<Member>
  {
    if |ms| == 0 then [] else Put(Dedup(ms[..|ms| - 1]), ms[|ms| - 1])
  }

  /** `JSON.parse(s)`: one value, with nothing but whitespace around it. */
  function Parse(s: string): (r: Outcome<Json>)
    ensures r.Throws? ==> r.error == SyntaxError
  {
    match ParseValue(s)
    case Throws(_) => Throws(SyntaxError)
    case Ok(vr) => if SkipSpace(vr.1) == "" then Ok(vr.0) else Throws(SyntaxError)
  }

  // ---------------------------------------------------------------------------
  // Round trip

  /** What may follow a value inside stringified text. */
  predicate Delimited(rest: string)
  {
    |rest| == 0 || rest[0] == ',' || rest[0] == ']' || rest[0] == '}'
  }

  lemma {:induction false} DigitsValueOfNatText(n: nat)
    ensures DigitsValue(NatText(n)) == n
  {
    if n >= 10 {
      DigitsValueOfNatText(n / 10);
      var ds := NatText(n);
      assert ds[..|ds| - 1] == NatText(n / 10);
    }
  }

  lemma {:induction false} DigitRunOf(ds: string, rest: string)
    requires forall i :: 0 <= i < |ds| ==> IsDigit(ds[i])
    requires |rest| == 0 || !IsDigit(rest[0])
    ensures DigitRun(ds + rest) == |ds|
  {
    if |ds| > 0 {
      DigitRunOf(ds[1..], rest);
      assert (ds + rest)[1..] == ds[1..] + rest;
    }
  }

  /** The digits of `m` followed by a delimiter are read as exactly `m`. */
  lemma {:induction false} UnsignedRoundTrip(m: nat, rest: string)
    requires Delimited(rest)
    ensures ParseUnsigned(NatText(m) + rest) == Ok((m, rest))
  {
    var ds := NatText(m);
    var t := ds + rest;
    assert t[0] == ds[0];
    if ds[0] != '0' {
      DigitRunOf(ds, rest);
    }
    assert t[..|ds|] == ds;
    assert t[|ds|..] == rest;
    DigitsValueOfNatText(m);
  }

  lemma {:induction false} NumberRoundTrip(n: int, rest: string)
    requires Delimited(rest)
    ensures ParseNumber(IntText(n) + rest) == Ok((n, rest))
  {
    if n < 0 {
      NegativeRoundTrip(-n, rest);
    } else {
      NonNegativeRoundTrip(n, rest);
    }
  }

  lemma {:induction false} NegativeRoundTrip(m: nat, rest: string)
    requires m > 0 && Delimited(rest)
    ensures ParseNumber("-" + NatText(m) + rest) == Ok((-(m as int), rest))
  {
    var t := NatText(m) + rest;
    var s := "-" + NatText(m) + rest;
    assert s == "-" + t;
    assert s[0] == '-' && s[1..] == t;
    UnsignedRoundTrip(m, rest);
  }

  lemma {:induction false} NonNegativeRoundTrip(m: nat, rest: string)
    requires Delimited(rest)
    ensures ParseNumber(NatText(m) + rest) == Ok((m, rest))
  {
    var s := NatText(m) + rest;
    assert s[0] == NatText(m)[0];
    UnsignedRoundTrip(m, rest);
  }

  /** One quoted character followed by anything reads back as that character. */
  lemma {:induction false} QuoteCharRoundTrip(c: char, rest: string)
    ensures ParseChars(QuoteChar(c) + rest) ==
      match ParseChars(rest)
      case Throws(e) => Throws(e)
      case Ok(tr) => Ok(([c] + tr.0, tr.1))
  {
    var q := QuoteChar(c);
    var s := q + rest;
    assert s[|q|..] == rest;
    if c == '"' || c == '\\' || c == '\U{8}' || c == '\U{C}' || c == '\n' || c == '\r' || c == '\t' {
      ShortEscapeOf(c, rest);
      EscapeStep(s, c, 2, rest);
    } else if c < ' ' {
      UnicodeEscapeOf(c, rest);
      EscapeStep(s, c, 6, rest);
    } else {
      PlainStep(s, rest);
    }
  }

  /** An unescaped character other than `"`, `\` and the control characters. */
  lemma {:induction false} PlainStep(s: string, rest: string)
    requires |s| > 0 && s[0] != '"' && s[0] != '\\' && s[0] >= ' ' && s[1..] == rest
    ensures ParseChars(s) ==
      match ParseChars(rest)
      case Throws(e) => Throws(e)
      case Ok(tr) => Ok(([s[0]] + tr.0, tr.1))
  {
  }

  /** An escape standing for `c` that takes `k` characters. */
  lemma {:induction false} EscapeStep(s: string, c: char, k: nat, rest: string)
    requires |s| > 0 && s[0] == '\\' && ParseEscape(s) == Ok((c, k)) && s[k..] == rest
    ensures ParseChars(s) ==
      match ParseChars(rest)
      case Throws(e) => Throws(e)
      case Ok(tr) => Ok(([c] + tr.0, tr.1))
  {
  }

  lemma {:induction false} ShortEscapeOf(c: char, rest: string)
    requires c == '"' || c == '\\' || c == '\U{8}' || c == '\U{C}' || c == '\n' || c == '\r' || c == '\t'
    ensures var s := QuoteChar(c) + rest;
      |QuoteChar(c)| == 2 && s[0] == '\\' && ParseEscape(s) == Ok((c, 2))
  {
  }

  lemma {:induction false} UnicodeEscapeOf(c: char, rest: string)
    requires c < ' ' && c != '\U{8}' && c != '\U{C}' && c != '\n' && c != '\r' && c != '\t'
    ensures var s := QuoteChar(c) + rest;
      |QuoteChar(c)| == 6 && s[0] == '\\' && ParseEscape(s) == Ok((c, 6))
  {
    var s := QuoteChar(c) + rest;
    var v := c as int;
    assert s[1] == 'u';
    assert Hex4(s, 2) == Some(v);
  }

  lemma {:induction false} QuoteBodyRoundTrip(str: string, rest: string)
    ensures ParseChars(QuoteBody(str) + "\"" + rest) == Ok((str, rest))
  {
    if |str| == 0 {
      assert QuoteBody(str) + "\"" + rest == "\"" + rest;
    } else {
      QuoteBodyRoundTrip(str[1..], rest);
      QuoteCharRoundTrip(str[0], QuoteBody(str[1..]) + "\"" + rest);
      assert QuoteBody(str) + "\"" + rest == QuoteChar(str[0]) + (QuoteBody(str[1..]) + "\"" + rest);
      assert [str[0]] + str[1..] == str;
    }
  }

  lemma {:induction false} SkipSpaceNone(s: string)
    requires |s| > 0 && !IsJsonSpace(s[0])
    ensures SkipSpace(s) == s
  {
  }

  /** `JSON.parse` rejects text that starts with no value, such as `undefined`. */
  lemma {:induction false} ParseRejectsNonValue(s: string)
    requires |s| > 0 && !IsJsonSpace(s[0]) && !StartsValue(s[0])
    ensures Parse(s) == Throws(SyntaxError)
  {
    SkipSpaceNone(s);
  }

  /** Creating a property under a new name appends it. */
  lemma {:induction false} PutNew(ms: seq<Member>, m: Member)
    requires forall i :: 0 <= i < |ms| ==> ms[i].name != m.name
    ensures Put(ms, m) == ms + [m]
  {
    if |ms| > 0 {
      PutNew(ms[1..], m);
      assert [ms[0]] + (ms[1..] + [m]) == ms + [m];
    }
  }

  /** A member list with distinct names is what creating its members in order gives. */
  lemma {:induction false} DedupDistinct(ms: seq<Member>)
    requires forall i, j :: 0 <= i < j < |ms| ==> ms[i].name != ms[j].name
    ensures Dedup(ms) == ms
  {
    if |ms| > 0 {
      var init := ms[..|ms| - 1];
      var last := ms[|ms| - 1];
      DedupDistinct(init);
      assert forall i :: 0 <= i < |init| ==> init[i].name != last.name;
      PutNew(init, last);
      assert ms == init + [last];
    }
  }

  lemma {:induction false} StrRoundTrip(str: string, rest: string)
    requires Delimited(rest)
    ensures ParseValue(Quote(str) + rest) == Ok((Str(str), rest))
  {
    var s := Quote(str) + rest;
    SkipSpaceNone(s);
    assert s[1..] == QuoteBody(str) + "\"" + rest;
    QuoteBodyRoundTrip(str, rest);
  }

  lemma {:induction false} NullRoundTrip(rest: string)
    ensures ParseValue("null" + rest) == Ok((Null, rest))
  {
    var s := "null" + rest;
    SkipSpaceNone(s);
    assert s[4..] == rest;
  }

  lemma {:induction false} TrueRoundTrip(rest: string)
    ensures ParseValue("true" + rest) == Ok((Bool(true), rest))
  {
    var s := "true" + rest;
    SkipSpaceNone(s);
    assert s[4..] == rest;
  }

  lemma {:induction false} FalseRoundTrip(rest: string)
    ensures ParseValue("false" + rest) == Ok((Bool(false), rest))
  {
    var s := "false" + rest;
    SkipSpaceNone(s);
    assert s[5..] == rest;
  }

  /** A value text opening with `-` or a digit is read as a number. */
  lemma {:induction false} ParseValueNumber(s: string)
    requires |s| > 0 && (s[0] == '-' || IsDigit(s[0]))
    ensures ParseValue(s) ==
      match ParseNumber(s)
      case Throws(e) => Throws(e)
      case Ok(nr) => Ok((Num(nr.0), nr.1))
  {
    SkipSpaceNone(s);
  }

  lemma {:induction false} NumRoundTrip(n: int, rest: string)
    requires Delimited(rest)
    ensures ParseValue(IntText(n) + rest) == Ok((Num(n), rest))
  {
    var s := IntText(n) + rest;
    assert s[0] == IntText(n)[0];
    ParseValueNumber(s);
    NumberRoundTrip(n, rest);
  }

  lemma {:induction false} ScalarRoundTrip(v: Json, rest: string)
    requires v.Null? || v.Bool? || v.Num?
    requires Delimited(rest)
    ensures ParseValue(Stringify(v) + rest) == Ok((v, rest))
  {
    match v
    case Null => NullRoundTrip(rest);
    case Bool(b) => if b { TrueRoundTrip(rest); } else { FalseRoundTrip(rest); }
    case Num(n) => NumRoundTrip(n, rest);
  }

  /** Parsing a stringified well-formed value, followed by a delimiter or
      nothing, gives the value back and leaves the rest untouched. */
  lemma {:induction false} ValueRoundTrip(v: Json, rest: string)
    requires WellFormed(v) && Delimited(rest)
    ensures ParseValue(Stringify(v) + rest) == Ok((v, rest))
    decreases v, 1
  {
    match v
    case Null => ScalarRoundTrip(v, rest);
    case Bool(_) => ScalarRoundTrip(v, rest);
    case Num(_) => ScalarRoundTrip(v, rest);
    case Str(str) => StrRoundTrip(str, rest);
    case Arr(items) => ArrRoundTrip(items, rest);
    case Obj(ms) => ObjRoundTrip(ms, rest);
  }

  /** A value text opening with `[` is parsed as an array. */
  lemma {:induction false} ParseValueOpenBracket(tail: string)
    ensures ParseValue("[" + tail) == ParseArray(tail)
  {
    var s := "[" + tail;
    SkipSpaceNone(s);
    assert s[1..] == tail;
  }

  /** A value text opening with `{` is parsed as an object. */
  lemma {:induction false} ParseValueOpenBrace(tail: string)
    ensures ParseValue("{" + tail) == ParseObject(tail)
  {
    var s := "{" + tail;
    SkipSpaceNone(s);
    assert s[1..] == tail;
  }

  /** `]` right after `[` is the empty array. */
  lemma {:induction false} ParseArrayEmpty(rest: string)
    ensures ParseArray("]" + rest) == Ok((Arr([]), rest))
  {
    var t := "]" + rest;
    SkipSpaceNone(t);
    assert t[1..] == rest;
  }

  /** Anything else right after `[` is read as a list of items. */
  lemma {:induction false} ParseArrayItems(s: string, items: seq<Json>, rest: string)
    requires |s| > 0 && s[0] != ']' && !IsJsonSpace(s[0])
    requires ParseItems(s) == Ok((items, rest))
    ensures ParseArray(s) == Ok((Arr(items), rest))
  {
    SkipSpaceNone(s);
  }

  /** `}` right after `{` is the empty object. */
  lemma {:induction false} ParseObjectEmpty(rest: string)
    ensures ParseObject("}" + rest) == Ok((Obj([]), rest))
  {
    var t := "}" + rest;
    SkipSpaceNone(t);
    assert t[1..] == rest;
  }

  /** Anything else right after `{` is read as a list of members. */
  lemma {:induction false} ParseObjectMembers(s: string, ms: seq<Member>, rest: string)
    requires |s| > 0 && s[0] != '}' && !IsJsonSpace(s[0])
    requires ParseMembers(s) == Ok((ms, rest))
    ensures ParseObject(s) == Ok((Obj(Dedup(ms)), rest))
  {
    SkipSpaceNone(s);
  }

  lemma {:induction false} ArrText(items: seq<Json>, rest: string)
    ensures Stringify(Arr(items)) + rest == "[" + (StringifyItems(items) + "]" + rest)
  {
  }

  lemma {:induction false} ObjText(ms: seq<Member>, rest: string)
    ensures Stringify(Obj(ms)) + rest == "{" + (StringifyMembers(ms) + "}" + rest)
  {
  }

  lemma {:induction false} ArrRoundTrip(items: seq<Json>, rest: string)
    requires forall i :: 0 <= i < |items| ==> WellFormed(items[i])
    requires Delimited(rest)
    ensures ParseValue(Stringify(Arr(items)) + rest) == Ok((Arr(items), rest))
    decreases items, 1
  {
    var tail := StringifyItems(items) + "]" + rest;
    assert ParseArray(tail) == Ok((Arr(items), rest)) by {
      if |items| == 0 {
        assert tail == "]" + rest;
        ParseArrayEmpty(rest);
      } else {
        ItemsRoundTrip(items, rest);
        ParseArrayItems(tail, items, rest);
      }
    }
    ParseValueOpenBracket(tail);
    ArrText(items, rest);
  }

  lemma {:induction false} ObjRoundTrip(ms: seq<Member>, rest: string)
    requires WellFormed(Obj(ms))
    requires Delimited(rest)
    ensures ParseValue(Stringify(Obj(ms)) + rest) == Ok((Obj(ms), rest))
    decreases ms, 2
  {
    var tail := StringifyMembers(ms) + "}" + rest;
    assert ParseObject(tail) == Ok((Obj(ms), rest)) by {
      if |ms| == 0 {
        assert tail == "}" + rest;
        ParseObjectEmpty(rest);
      } else {
        MembersRoundTrip(ms, rest);
        ParseObjectMembers(tail, ms, rest);
        DedupDistinct(ms);
      }
    }
    ParseValueOpenBrace(tail);
    ObjText(ms, rest);
  }

  /** The last item: a value followed by `]`. */
  lemma {:induction false} ItemsLast(s: string, v: Json, rest: string)
    requires ParseValue(s) == Ok((v, "]" + rest))
    ensures ParseItems(s) == Ok(([v], rest))
  {
    var after := "]" + rest;
    SkipSpaceNone(after);
    assert after[1..] == rest;
  }

  /** An item followed by `,` and more items. */
  lemma {:induction false} ItemsMore(s: string, v: Json, tail: string, more: seq<Json>, rest: string)
    requires ParseValue(s) == Ok((v, "," + tail))
    requires ParseItems(tail) == Ok((more, rest))
    ensures ParseItems(s) == Ok(([v] + more, rest))
  {
    var after := "," + tail;
    SkipSpaceNone(after);
    assert after[1..] == tail;
  }

  lemma {:induction false} ItemsTextLast(items: seq<Json>, rest: string)
    requires |items| == 1
    ensures StringifyItems(items) + "]" + rest == Stringify(items[0]) + ("]" + rest)
  {
  }

  lemma {:induction false} ItemsTextMore(items: seq<Json>, rest: string)
    requires |items| > 1
    ensures StringifyItems(items) + "]" + rest
      == Stringify(items[0]) + ("," + (StringifyItems(items[1..]) + "]" + rest))
  {
  }

  lemma {:induction false} ItemsRoundTrip(items: seq<Json>, rest: string)
    requires |items| > 0 && Delimited(rest)
    requires forall i :: 0 <= i < |items| ==> WellFormed(items[i])
    ensures ParseItems(StringifyItems(items) + "]" + rest) == Ok((items, rest))
    decreases items, 0
  {
    var v := items[0];
    if |items| == 1 {
      var after := "]" + rest;
      assert ParseValue(Stringify(v) + after) == Ok((v, after)) by {
        ValueRoundTrip(v, after);
      }
      ItemsLast(Stringify(v) + after, v, rest);
      ItemsTextLast(items, rest);
      assert items == [v];
    } else {
      var tail := StringifyItems(items[1..]) + "]" + rest;
      var after := "," + tail;
      assert ParseValue(Stringify(v) + after) == Ok((v, after)) by {
        ValueRoundTrip(v, after);
      }
      assert ParseItems(tail) == Ok((items[1..], rest)) by {
        ItemsRoundTrip(items[1..], rest);
      }
      ItemsMore(Stringify(v) + after, v, tail, items[1..], rest);
      ItemsTextMore(items, rest);
      ConsItems(items);
    }
  }

  lemma {:induction false} ConsItems(items: seq<Json>)
    requires |items| > 0
    ensures [items[0]] + items[1..] == items
  {
  }

  /** A stringified member starts with its quoted name, then `:` and the value. */
  lemma {:induction false} MemberText(m: Member, after: string)
    ensures var t := StringifyMember(m) + after;
      |t| > 0 && t[0] == '"' && ParseChars(t[1..]) == Ok((m.name, ":" + (Stringify(m.value) + after)))
  {
    var qb := QuoteBody(m.name);
    var sv := Stringify(m.value);
    MemberShape(qb, sv, after);
    assert StringifyMember(m) + after == "\"" + qb + "\"" + ":" + sv + after;
    QuoteBodyRoundTrip(m.name, ":" + (sv + after));
  }

  lemma {:induction false} MemberShape(qb: string, sv: string, after: string)
    ensures var t := "\"" + qb + "\"" + ":" + sv + after;
      |t| > 0 && t[0] == '"' && t[1..] == qb + "\"" + (":" + (sv + after))
  {
  }

  /** One member: a quoted name, then `:` after it and the value after that. */
  predicate MemberRead(s: string, name: string, u: string, v: Json, after: string)
  {
    |s| > 0 && s[0] == '"' && ParseChars(s[1..]) == Ok((name, u)) &&
    |u| > 0 && u[0] == ':' && ParseValue(u[1..]) == Ok((v, after))
  }

  lemma {:induction false} MemberReadOf(m: Member, after: string)
    requires ParseValue(Stringify(m.value) + after) == Ok((m.value, after))
    ensures MemberRead(StringifyMember(m) + after, m.name, ":" + (Stringify(m.value) + after), m.value, after)
  {
    MemberText(m, after);
    var u := ":" + (Stringify(m.value) + after);
    assert u[1..] == Stringify(m.value) + after;
  }

  /** What `ParseMembers` gives once a member has been read. */
  lemma {:induction false} MembersAfterMember(s: string, name: string, u: string, v: Json, after: string)
    requires MemberRead(s, name, u, v, after)
    requires |after| > 0 && !IsJsonSpace(after[0])
    ensures ParseMembers(s) ==
      if after[0] == '}' then Ok(([Member(name, v)], after[1..]))
      else if after[0] == ',' then
        (match ParseMembers(after[1..])
         case Throws(e) => Throws(e)
         case Ok(mr) => Ok(([Member(name, v)] + mr.0, mr.1)))
      else Throws(SyntaxError)
  {
    SkipSpaceNone(s);
    SkipSpaceNone(u);
    SkipSpaceNone(after);
  }

  /** The last member: followed by `}`. */
  lemma {:induction false} MembersLast(s: string, name: string, u: string, v: Json, rest: string)
    requires MemberRead(s, name, u, v, "}" + rest)
    ensures ParseMembers(s) == Ok(([Member(name, v)], rest))
  {
    var after := "}" + rest;
    MembersAfterMember(s, name, u, v, after);
    assert after[1..] == rest;
  }

  /** A member followed by `,` and more members. */
  lemma {:induction false} MembersMore(s: string, name: string, u: string, v: Json, tail: string, more: seq<Member>, rest: string)
    requires MemberRead(s, name, u, v, "," + tail)
    requires ParseMembers(tail) == Ok((more, rest))
    ensures ParseMembers(s) == Ok(([Member(name, v)] + more, rest))
  {
    var after := "," + tail;
    MembersAfterMember(s, name, u, v, after);
    assert after[1..] == tail;
  }

  lemma {:induction false} MembersTextLast(ms: seq<Member>, rest: string)
    requires |ms| == 1
    ensures StringifyMembers(ms) + "}" + rest == StringifyMember(ms[0]) + ("}" + rest)
  {
  }

  lemma {:induction false} MembersTextMore(ms: seq<Member>, rest: string)
    requires |ms| > 1
    ensures StringifyMembers(ms) + "}" + rest
      == StringifyMember(ms[0]) + ("," + (StringifyMembers(ms[1..]) + "}" + rest))
  {
  }

  lemma {:induction false} MembersRoundTrip(ms: seq<Member>, rest: string)
    requires |ms| > 0 && Delimited(rest)
    requires forall i :: 0 <= i < |ms| ==> WellFormed(ms[i].value)
    ensures ParseMembers(StringifyMembers(ms) + "}" + rest) == Ok((ms, rest))
    decreases ms, 1
  {
    if |ms| == 1 {
      LastMemberRoundTrip(ms, rest);
    } else {
      MoreMembersRoundTrip(ms, rest);
    }
  }

  lemma {:induction false} LastMemberRoundTrip(ms: seq<Member>, rest: string)
    requires |ms| == 1 && Delimited(rest)
    requires WellFormed(ms[0].value)
    ensures ParseMembers(StringifyMembers(ms) + "}" + rest) == Ok((ms, rest))
    decreases ms, 0
  {
    var m := ms[0];
    var after := "}" + rest;
    var s := StringifyMember(m) + after;
    var u := ":" + (Stringify(m.value) + after);
    assert MemberRead(s, m.name, u, m.value, after) by {
      ValueRoundTrip(m.value, after);
      MemberReadOf(m, after);
    }
    MembersLast(s, m.name, u, m.value, rest);
    MembersTextLast(ms, rest);
    SingleMember(ms);
  }

  lemma {:induction false} MoreMembersRoundTrip(ms: seq<Member>, rest: string)
    requires |ms| > 1 && Delimited(rest)
    requires forall i :: 0 <= i < |ms| ==> WellFormed(ms[i].value)
    ensures ParseMembers(StringifyMembers(ms) + "}" + rest) == Ok((ms, rest))
    decreases ms, 0
  {
    var m := ms[0];
    var tail := StringifyMembers(ms[1..]) + "}" + rest;
    var after := "," + tail;
    var s := StringifyMember(m) + after;
    var u := ":" + (Stringify(m.value) + after);
    assert MemberRead(s, m.name, u, m.value, after) by {
      ValueRoundTrip(m.value, after);
      MemberReadOf(m, after);
    }
    assert ParseMembers(tail) == Ok((ms[1..], rest)) by {
      MembersRoundTrip(ms[1..], rest);
    }
    MembersMore(s, m.name, u, m.value, tail, ms[1..], rest);
    MembersTextMore(ms, rest);
    ConsMembers(ms);
  }

  lemma {:induction false} SingleMember(ms: seq<Member>)
    requires |ms| == 1
    ensures [Member(ms[0].name, ms[0].value)] == ms
  {
  }

  lemma {:induction false} ConsMembers(ms: seq<Member>)
    requires |ms| > 0
    ensures [Member(ms[0].name, ms[0].value)] + ms[1..] == ms
  {
  }

  /** `JSON.parse(JSON.stringify(v))` is `v` for every well-formed value. */
  lemma {:induction false} ParseStringify(v: Json)
    requires WellFormed(v)
    ensures Parse(Stringify(v)) == Ok(v)
  {
    ValueRoundTrip(v, "");
    assert Stringify(v) + "" == Stringify(v);
  }
}
