/** `document.cookie` as both facades use it. Reading gives one string of
    `name=value` pairs separated by `;` (section 5.4 of RFC 6265 joins them
    with `"; "`); assigning a string asks the host to store one cookie. How the
    host merges assignments into later reads is its own business, so the jar
    keeps what it returns on read apart from the list of assigned strings. */
module Cookies {
  import opened Outcomes
  import opened Text

  /** The cookie string the host returns on read, and the strings assigned
      to `document.cookie`, oldest first. */
  datatype Jar = Jar(text: string, writes: seq<string>)

  /** `document.cookie = w`. */
  function Assign(jar: Jar, w: string): (r: Jar)
    ensures r.text == jar.text && r.writes == jar.writes + [w]
  {
    Jar(jar.text, jar.writes + [w])
  }

  // ---------------------------------------------------------------------------
  // Reading one value: `text.match('(^|;) ?' + key + '=([^;]*)(;|$)')`

  /** A key that, pasted into a regular expression source, stands for itself
      (no ECMAScript SyntaxCharacter) and cannot reach across a `;`. For such
      keys the pattern can only match at the start of the text or just after a
      `;`, that is, at the start of one segment of `text.split(';')`, and its
      value group `([^;]*)` takes the rest of that segment. */
  predicate RegexPlain(key: string)
  {
    forall i :: 0 <= i < |key| ==> key[i] !in "^$\\.*+?()[]{}|;"
  }

  /** How the pattern ` ?KEY=([^;]*)` matches one whole segment: the optional
      space is tried first, then the bare key; the value is everything after
      the `=`. */
  function SegmentValue(seg: string, key: string): (r: Option<string>)
    ensures r.None? <==> !(" " + key + "=" <= seg) && !(key + "=" <= seg)
    ensures r.Some? && " " + key + "=" <= seg ==> seg == " " + key + "=" + r.value
    ensures r.Some? && !(" " + key + "=" <= seg) ==> seg == key + "=" + r.value
  {
    var spaced := " " + key + "=";
    var plain := key + "=";
    if spaced <= seg then
      assert seg == spaced + seg[|spaced|..];
      Some(seg[|spaced|..])
    else if plain <= seg then
      assert seg == plain + seg[|plain|..];
      Some(seg[|plain|..])
    else None
  }

  /** The value in the first segment that matches, scanning left to right as
      the regular expression engine tries start positions. */
  function FirstMatch(segs: seq<string>, key: string): (r: Option<string>)
    ensures r.None? <==> forall i :: 0 <= i < |segs| ==> SegmentValue(segs[i], key).None?
    ensures r.Some? ==> exists i :: 0 <= i < |segs| && SegmentValue(segs[i], key) == r &&
                           forall j :: 0 <= j < i ==> SegmentValue(segs[j], key).None?
  {
    if |segs| == 0 then None
    else
      match SegmentValue(segs[0], key)
      case Some(v) => Some(v)
      case None =>
        var r := FirstMatch(segs[1..], key);
        assert forall i :: 1 <= i < |segs| ==> segs[i] == segs[1..][i - 1];
        if r.Some? then
          var i :| 0 <= i < |segs| - 1 && SegmentValue(segs[1..][i], key) == r &&
                   forall j :: 0 <= j < i ==> SegmentValue(segs[1..][j], key).None?;
          assert SegmentValue(segs[i + 1], key) == r;
          assert forall j :: 0 <= j < i + 1 ==> SegmentValue(segs[j], key).None? by {
            forall j | 0 <= j < i + 1 ensures SegmentValue(segs[j], key).None? {
              if j > 0 {
                assert segs[j] == segs[1..][j - 1];
              }
            }
          }
          r
        else
          r
  }

  /** Group 2 of the cookie regular expression for `key`, or `None` when the
      pattern does not match. The value never holds a `;`. */
  function Match(text: string, key: string): (r: Option<string>)
    ensures r.Some? ==> ';' !in r.value
  {
    var segs := Split(text, ';');
    var r := FirstMatch(segs, key);
    if r.Some? then
      var i :| 0 <= i < |segs| && SegmentValue(segs[i], key) == r;
      assert ';' !in segs[i];
      assert r.value <= segs[i][|segs[i]| - |r.value|..];
      r
    else r
  }

  // ---------------------------------------------------------------------------
  // Listing names: `text.split(';')` and `pair.split('=')[0]`

  /** One entry per `;`-separated segment, holding that segment's text before
      its first `=`, untrimmed. */
  function SegmentNames(text: string): (r: seq<string>)
    ensures |r| == Count(text, ';') + 1
    ensures forall i :: 0 <= i < |r| ==>
              r[i] <= Split(text, ';')[i] && '=' !in r[i] &&
              (|r[i]| < |Split(text, ';')[i]| ==> Split(text, ';')[i][|r[i]|] == '=')
  {
    var segs := Split(text, ';');
    seq(|segs|, i requires 0 <= i < |segs| => Before(segs[i], '='))
  }

  /** The empty cookie string still lists one, empty, name. */
  lemma {:induction false} NoCookiesOneName()
    ensures SegmentNames("") == [""]
  {
    assert |SegmentNames("")| == 1;
  }

  // ---------------------------------------------------------------------------
  // The cookie string of section 5.4 of RFC 6265

  datatype Pair = Pair(name: string, value: string)

  /** A name the segment scan reads back unambiguously: no `;`, `=` or space.
      Every `encodeURIComponent` result is one. */
  predicate IsToken(s: string)
  {
    ';' !in s && '=' !in s && ' ' !in s
  }

  predicate PairsOk(pairs: seq<Pair>)
  {
    forall i :: 0 <= i < |pairs| ==> IsToken(pairs[i].name) && ';' !in pairs[i].value
  }

  function Piece(p: Pair): string
  {
    p.name + "=" + p.value
  }

  /** The pairs joined by `"; "`, as a host returns them on read. */
  function CookieText(pairs: seq<Pair>): string
  {
    if |pairs| == 0 then ""
    else if |pairs| == 1 then Piece(pairs[0])
    else Piece(pairs[0]) + "; " + CookieText(pairs[1..])
  }

  /** The value of the first pair called `key`. */
  function Lookup(pairs: seq<Pair>, key: string): (r: Option<string>)
    ensures r.None? <==> forall i :: 0 <= i < |pairs| ==> pairs[i].name != key
    ensures r.Some? ==> exists i :: 0 <= i < |pairs| && pairs[i] == Pair(key, r.value) &&
                                    forall j :: 0 <= j < i ==> pairs[j].name != key
  {
    if |pairs| == 0 then None
    else if pairs[0].name == key then Some(pairs[0].value)
    else
      assert forall i :: 1 <= i < |pairs| ==> pairs[i] == pairs[1..][i - 1];
      var r := Lookup(pairs[1..], key);
      if r.Some? then
        var i :| 0 <= i < |pairs[1..]| && pairs[1..][i] == Pair(key, r.value) &&
                 forall j :: 0 <= j < i ==> pairs[1..][j].name != key;
        assert pairs[i + 1] == Pair(key, r.value);
        assert forall j :: 0 <= j < i + 1 ==> pairs[j].name != key;
        r
      else r
  }

  /** The segments `split(';')` cuts a cookie string into: the first pair
      after `lead`, every later one after the space of its `"; "`. */
  function Segments(pairs: seq<Pair>, lead: string): (r: seq<string>)
    requires |pairs| > 0
    ensures |r| == |pairs|
  {
    if |pairs| == 1 then [lead + Piece(pairs[0])]
    else [lead + Piece(pairs[0])] + Segments(pairs[1..], " ")
  }

  lemma {:induction false} SegmentsAt(pairs: seq<Pair>, lead: string, i: nat)
    requires 0 <= i < |pairs|
    ensures Segments(pairs, lead)[i] == (if i == 0 then lead else " ") + Piece(pairs[i])
  {
    if i > 0 {
      SegmentsAt(pairs[1..], " ", i - 1);
    }
  }

  lemma {:induction false} PieceFree(p: Pair)
    requires IsToken(p.name) && ';' !in p.value
    ensures ';' !in Piece(p)
  {
  }

  /** A cookie string splits into its pairs' pieces, each but the first
      after the space of its `"; "`. */
  lemma {:induction false} SplitPairs(pairs: seq<Pair>)
    requires |pairs| > 0 && PairsOk(pairs)
    ensures Split(CookieText(pairs), ';') == Segments(pairs, "")
  {
    SplitCookieText(pairs, "");
    assert "" + CookieText(pairs) == CookieText(pairs);
  }

  lemma {:induction false} SplitCookieText(pairs: seq<Pair>, lead: string)
    requires |pairs| > 0 && PairsOk(pairs) && ';' !in lead
    ensures Split(lead + CookieText(pairs), ';') == Segments(pairs, lead)
  {
    var head := lead + Piece(pairs[0]);
    PieceFree(pairs[0]);
    assert ';' !in head;
    if |pairs| == 1 {
      SplitFree(head, ';');
    } else {
      var tail := pairs[1..];
      assert PairsOk(tail) by {
        forall i | 0 <= i < |tail| ensures IsToken(tail[i].name) && ';' !in tail[i].value {
          assert tail[i] == pairs[i + 1];
        }
      }
      var t := "; " + CookieText(tail);
      assert lead + CookieText(pairs) == head + t;
      SplitPrefix(head, t, ';');
      assert t[1..] == " " + CookieText(tail);
      SplitCookieText(tail, " ");
    }
  }

  /** `a=` starts `b=rest` only when `a` is `b`, for names without `=`. */
  lemma {:induction false} NamePrefix(a: string, b: string, rest: string)
    requires '=' !in a && '=' !in b
    requires a + "=" <= b + "=" + rest
    ensures a == b
  {
    var s := b + "=" + rest;
    PrefixAt(a + "=", s, |a|);
    if |a| < |b| {
      NoEqualsAt(b, rest, |a|);
    } else if |a| > |b| {
      EqualsAfter(b, rest);
    } else {
      assert a == s[..|a|] == b;
    }
  }

  lemma {:induction false} PrefixAt(p: string, s: string, i: nat)
    requires p <= s && i < |p|
    ensures p[i] == s[i]
  {
  }

  lemma {:induction false} NoEqualsAt(b: string, rest: string, k: nat)
    requires '=' !in b && k < |b|
    ensures (b + "=" + rest)[k] != '=' && (b + rest)[k] != '='
  {
    assert (b + "=" + rest)[k] == b[k] == (b + rest)[k];
    assert b[k] in b;
  }

  lemma {:induction false} EqualsAfter(b: string, rest: string)
    ensures (b + "=" + rest)[|b|] == '='
  {
  }

  /** Text that does not start with a space cannot start with `" " + x`. */
  lemma {:induction false} NotSpaced(x: string, seg: string)
    requires |seg| > 0 && seg[0] != ' '
    ensures !(" " + x <= seg)
  {
  }

  lemma {:induction false} DiffersAtZero(p: string, seg: string)
    requires |p| > 0 && |seg| > 0 && p[0] != seg[0]
    ensures !(p <= seg)
  {
  }

  lemma {:induction false} HeadNotSpace(name: string, rest: string)
    requires ' ' !in name
    ensures (name + "=" + rest)[0] != ' '
  {
    if |name| > 0 {
      assert (name + "=" + rest)[0] == name[0];
      assert name[0] in name;
    }
  }

  /** A segment made of one pair matches exactly the pair's own name. */
  lemma {:induction false} SegmentOfPiece(p: Pair, lead: string, key: string)
    requires lead == "" || lead == " "
    requires IsToken(p.name) && IsToken(key)
    ensures SegmentValue(lead + Piece(p), key) == if p.name == key then Some(p.value) else None
  {
    var seg := lead + Piece(p);
    var spaced := " " + key + "=";
    var plain := key + "=";
    if lead == " " {
      assert seg == " " + (p.name + "=" + p.value);
      if p.name == key {
        assert seg == spaced + p.value;
      }
      HeadNotSpace(key, "");
      assert key + "=" + "" == plain;
      DiffersAtZero(plain, seg);
      if spaced <= seg {
        assert plain <= p.name + "=" + p.value by {
          assert seg[1..] == p.name + "=" + p.value;
          assert spaced[1..] == plain;
        }
        NamePrefix(key, p.name, p.value);
        assert seg == spaced + p.value;
        assert seg[|spaced|..] == p.value;
      }
    } else {
      assert seg == p.name + "=" + p.value;
      HeadNotSpace(p.name, p.value);
      NotSpaced(plain, seg);
      if plain <= seg {
        NamePrefix(key, p.name, p.value);
      }
      if p.name == key {
        assert seg == plain + p.value;
      }
    }
  }

  lemma {:induction false} FirstMatchSegments(pairs: seq<Pair>, lead: string, key: string)
    requires |pairs| > 0 && PairsOk(pairs) && IsToken(key)
    requires lead == "" || lead == " "
    ensures FirstMatch(Segments(pairs, lead), key) == Lookup(pairs, key)
  {
    var segs := Segments(pairs, lead);
    SegmentOfPiece(pairs[0], lead, key);
    assert segs[0] == lead + Piece(pairs[0]);
    if |pairs| > 1 && pairs[0].name != key {
      var tail := pairs[1..];
      assert PairsOk(tail) by {
        forall i | 0 <= i < |tail| ensures IsToken(tail[i].name) && ';' !in tail[i].value {
          assert tail[i] == pairs[i + 1];
        }
      }
      FirstMatchSegments(tail, " ", key);
      assert segs[1..] == Segments(tail, " ");
    }
  }

  /** Reading a cookie string back: the pattern finds the value of the first
      pair named `key`, and nothing when no pair has that name. */
  lemma {:induction false} ReadCookieText(pairs: seq<Pair>, key: string)
    requires PairsOk(pairs) && IsToken(key)
    ensures Match(CookieText(pairs), key) == Lookup(pairs, key)
  {
    if |pairs| == 0 {
      assert Split("", ';') == [""];
      assert !(" " + key + "=" <= "") && !(key + "=" <= "");
    } else {
      SplitCookieText(pairs, "");
      assert "" + CookieText(pairs) == CookieText(pairs);
      FirstMatchSegments(pairs, "", key);
    }
  }

  lemma {:induction false} BeforeEquals(name: string, rest: string)
    requires '=' !in name
    ensures Before(name + "=" + rest, '=') == name
  {
    if |name| > 0 {
      BeforeEquals(name[1..], rest);
      assert (name + "=" + rest)[1..] == name[1..] + "=" + rest;
    }
  }

  /** The names listed for a cookie string: each pair's name, after the space
      of its `"; "` for every pair but the first. */
  lemma {:induction false} NamesOfCookieText(pairs: seq<Pair>)
    requires |pairs| > 0 && PairsOk(pairs)
    ensures |SegmentNames(CookieText(pairs))| == |pairs|
    ensures forall i :: 0 <= i < |pairs| ==>
              SegmentNames(CookieText(pairs))[i] == (if i == 0 then "" else " ") + pairs[i].name
  {
    SplitPairs(pairs);
    forall i | 0 <= i < |pairs|
      ensures SegmentNames(CookieText(pairs))[i] == (if i == 0 then "" else " ") + pairs[i].name
    {
      NameAt(pairs, i);
    }
  }

  lemma {:induction false} NameAt(pairs: seq<Pair>, i: nat)
    requires 0 <= i < |pairs| && PairsOk(pairs)
    requires Split(CookieText(pairs), ';') == Segments(pairs, "")
    ensures SegmentNames(CookieText(pairs))[i] == (if i == 0 then "" else " ") + pairs[i].name
  {
    SegmentsAt(pairs, "", i);
    var lead := if i == 0 then "" else " ";
    var p := pairs[i];
    assert Segments(pairs, "")[i] == (lead + p.name) + "=" + p.value;
    BeforeEquals(lead + p.name, p.value);
  }

  // ---------------------------------------------------------------------------
  // Writing one cookie: `name + '=' + value + expires + '; path=/'`

  /** The optional third argument of `set`: left out (its default is `false`)
      or a number of days. */
  datatype DaysToLive = Omitted | Days(n: int)

  /** JavaScript truthiness of `days_to_live`: `false` and `0` are falsy. */
  predicate Truthy(d: DaysToLive)
  {
    d.Days? && d.n != 0
  }

  const MillisPerDay: int := 24 * 60 * 60 * 1000

  /** The instant, in milliseconds from `now`, the expiry date is set to; none
      when `days_to_live` is falsy. For a number argument the source's
      `days_to_live == 0` branch sits inside the truthy test, so it never runs
      and every expiry is `now` plus whole days. (The text `"0"` is truthy and
      equal to 0; the model takes only numbers.) */
  function ExpiryTime(now: int, d: DaysToLive): (r: Option<int>)
    ensures r.Some? <==> Truthy(d)
    ensures r.Some? ==> r.value == now + d.n * MillisPerDay
  {
    if Truthy(d) then
      if d.n == 0 then Some(now) else Some(now + d.n * MillisPerDay)
    else None
  }

  /** The `; expires=...` attribute; `gmt` is the host's `toGMTString()` of
      the expiry instant. */
  function ExpiresClause(d: DaysToLive, gmt: string): string
  {
    if Truthy(d) then "; expires=" + gmt else ""
  }

  /** The string assigned to `document.cookie` for one cookie. */
  function Write(name: string, value: string, d: DaysToLive, gmt: string): string
  {
    name + "=" + value + ExpiresClause(d, gmt) + "; path=/"
  }

  /** Without a truthy `days_to_live` the write is the pair and the path. */
  lemma {:induction false} WriteWithoutExpiry(name: string, value: string, d: DaysToLive, gmt: string)
    requires !Truthy(d)
    ensures Write(name, value, d, gmt) == name + "=" + value + "; path=/"
  {
  }

  /** With a truthy `days_to_live` the write carries the expiry date. */
  lemma {:induction false} WriteWithExpiry(name: string, value: string, d: DaysToLive, gmt: string)
    requires Truthy(d)
    ensures Write(name, value, d, gmt) == name + "=" + value + "; expires=" + gmt + "; path=/"
  {
  }

  /** A write whose name and value hold no `;` is one name/value segment
      followed by its attributes. */
  lemma {:induction false} WriteSegments(name: string, value: string, d: DaysToLive, gmt: string)
    requires ';' !in name && ';' !in value && ';' !in gmt
    ensures Split(Write(name, value, d, gmt), ';') ==
              [name + "=" + value] + (if Truthy(d) then [" expires=" + gmt] else []) + [" path=/"]
  {
    var pair := name + "=" + value;
    assert ';' !in pair;
    if Truthy(d) {
      assert Write(name, value, d, gmt) == pair + ("; expires=" + gmt + "; path=/");
      ExpiringSegments(pair, gmt);
    } else {
      assert Write(name, value, d, gmt) == pair + "; path=/";
      PathSegments(pair);
    }
  }

  lemma {:induction false} PathSegments(pair: string)
    requires ';' !in pair
    ensures Split(pair + "; path=/", ';') == [pair, " path=/"]
  {
    var path := "; path=/";
    SplitFree(" path=/", ';');
    assert path[1..] == " path=/";
    SplitPrefix(pair, path, ';');
  }

  lemma {:induction false} ExpiringSegments(pair: string, gmt: string)
    requires ';' !in pair && ';' !in gmt
    ensures Split(pair + ("; expires=" + gmt + "; path=/"), ';') == [pair, " expires=" + gmt, " path=/"]
  {
    var exp := " expires=" + gmt;
    assert ';' !in exp;
    PathSegments(exp);
    var t := "; expires=" + gmt + "; path=/";
    assert t[1..] == exp + "; path=/";
    SplitPrefix(pair, t, ';');
  }

  /** The first segment of a write reads back, under its name, as the value. */
  lemma {:induction false} WriteReadsBack(name: string, value: string, d: DaysToLive, gmt: string)
    requires IsToken(name) && ';' !in value && ';' !in gmt
    ensures SegmentValue(Split(Write(name, value, d, gmt), ';')[0], name) == Some(value)
  {
    WriteSegments(name, value, d, gmt);
    SegmentOfPiece(Pair(name, value), "", name);
    assert "" + Piece(Pair(name, value)) == name + "=" + value;
  }
}
