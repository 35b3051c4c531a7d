/** String helpers with the meaning of the ECMAScript built-ins the facades
    call: `String.prototype.split` with a one-character separator, and the
    whitespace trim written as `replace(/(^\s+|\s+$)/g, '')`. */
module Text {

  /** Number of occurrences of `d` in `s`. */
  function Count(s: string, d: char): nat
  {
    if |s| == 0 then 0
    else (if s[0] == d then 1 else 0) + Count(s[1..], d)
  }

  /** `s.split(d)` for a one-character separator `d`: the pieces between
      consecutive separators, so the empty string gives one empty piece. */
  function Split(s: string, d: char): (r: seq<string>)
    ensures |r| == Count(s, d) + 1
    ensures forall i :: 0 <= i < |r| ==> d !in r[i]
  {
    if |s| == 0 then [""]
    else
      var rest := Split(s[1..], d);
      if s[0] == d then [""] + rest
      else [[s[0]] + rest[0]] + rest[1..]
  }

  /** `parts.join(d)`: the pieces with one separator between neighbours. */
  function Join(parts: seq<string>, d: char): string
    requires |parts| > 0
  {
    if |parts| == 1 then parts[0]
    else parts[0] + [d] + Join(parts[1..], d)
  }

  /** Splitting, then joining with the same separator, gives back the input. */
  lemma {:induction false} JoinSplit(s: string, d: char)
    ensures Join(Split(s, d), d) == s
  {
    if |s| == 0 {
    } else {
      JoinSplit(s[1..], d);
      var rest := Split(s[1..], d);
      if s[0] == d {
        assert Split(s, d) == [""] + rest;
        assert Split(s, d)[1..] == rest;
        assert s == [d] + s[1..];
      } else {
        var parts := Split(s, d);
        assert parts == [[s[0]] + rest[0]] + rest[1..];
        if |rest| == 1 {
          assert Join(rest, d) == rest[0];
          assert s == [s[0]] + s[1..];
        } else {
          assert parts[1..] == rest[1..];
          assert Join(rest, d) == rest[0] + [d] + Join(rest[1..], d);
          assert s == [s[0]] + s[1..];
        }
      }
    }
  }

  /** Splitting a join of separator-free pieces gives back the pieces. */
  lemma {:induction false} SplitJoin(parts: seq<string>, d: char)
    requires |parts| > 0
    requires forall i :: 0 <= i < |parts| ==> d !in parts[i]
    ensures Split(Join(parts, d), d) == parts
  {
    if |parts| == 1 {
      SplitFree(parts[0], d);
    } else {
      SplitJoin(parts[1..], d);
      SplitPrefix(parts[0], [d] + Join(parts[1..], d), d);
      assert Join(parts, d) == parts[0] + ([d] + Join(parts[1..], d));
      assert ([d] + Join(parts[1..], d))[1..] == Join(parts[1..], d);
      assert [parts[0]] + parts[1..] == parts;
    }
  }

  /** A separator-free string is one piece. */
  lemma {:induction false} SplitFree(s: string, d: char)
    requires d !in s
    ensures Split(s, d) == [s]
  {
    if |s| > 0 {
      SplitFree(s[1..], d);
      assert [s[0]] + s[1..] == s;
    }
  }

  /** A separator-free head glues onto the first piece of what follows it,
      when that starts with the separator. */
  lemma {:induction false} SplitPrefix(p: string, t: string, d: char)
    requires d !in p
    requires |t| > 0 && t[0] == d
    ensures Split(p + t, d) == [p] + Split(t[1..], d)
  {
    if |p| == 0 {
      assert p + t == t;
    } else {
      SplitPrefix(p[1..], t, d);
      assert (p + t)[1..] == p[1..] + t;
      assert [p[0]] + p[1..] == p;
    }
  }

  /** The text before the first `d`, as `s.split(d)[0]` gives it. */
  function Before(s: string, d: char): (r: string)
    ensures d !in r
    ensures r <= s
    ensures |r| < |s| ==> s[|r|] == d
  {
    if |s| == 0 || s[0] == d then ""
    else [s[0]] + Before(s[1..], d)
  }

  /** `Before` is the first piece of `Split`. */
  lemma {:induction false} BeforeIsFirstPiece(s: string, d: char)
    ensures Split(s, d)[0] == Before(s, d)
  {
    if |s| > 0 && s[0] != d {
      BeforeIsFirstPiece(s[1..], d);
    }
  }

  /** The characters ECMAScript's `\s` class matches: WhiteSpace and
      LineTerminator code points. */
  predicate IsJsSpace(c: char)
  {
    c == '\t' || c == '\n' || c == '\U{B}' || c == '\U{C}' || c == '\r' || c == ' ' ||
    c == '\U{A0}' || c == '\U{1680}' || ('\U{2000}' <= c <= '\U{200A}') ||
    c == '\U{2028}' || c == '\U{2029}' || c == '\U{202F}' || c == '\U{205F}' ||
    c == '\U{3000}' || c == '\U{FEFF}'
  }

  /** Where the run of `\s` characters that starts at `i` ends. */
  function SpacesFrom(s: string, i: nat): (j: nat)
    requires i <= |s|
    ensures i <= j <= |s|
    ensures forall k :: i <= k < j ==> IsJsSpace(s[k])
    ensures j < |s| ==> !IsJsSpace(s[j])
    decreases |s| - i
  {
    if i < |s| && IsJsSpace(s[i]) then SpacesFrom(s, i + 1) else i
  }

  /** Where the run of `\s` characters that ends at `j` starts, going back
      no further than `lo`. */
  function SpacesBefore(s: string, lo: nat, j: nat): (i: nat)
    requires lo <= j <= |s|
    ensures lo <= i <= j
    ensures forall k :: i <= k < j ==> IsJsSpace(s[k])
    ensures lo < i ==> !IsJsSpace(s[i - 1])
    decreases j - lo
  {
    if lo < j && IsJsSpace(s[j - 1]) then SpacesBefore(s, lo, j - 1) else j
  }

  /** `s.replace(/(^\s+|\s+$)/g, '')`: the global replace removes the leading
      run (a match anchored at `^`) and the trailing run (a match reaching `$`).
      What is left is the middle of `s`; it neither starts nor ends with
      whitespace, and it is empty exactly when the input is whitespace only. */
  function Trim(s: string): (r: string)
    ensures exists i, j :: 0 <= i <= j <= |s| && r == s[i..j] &&
              (forall k :: 0 <= k < i ==> IsJsSpace(s[k])) &&
              (forall k :: j <= k < |s| ==> IsJsSpace(s[k]))
    ensures |r| > 0 ==> !IsJsSpace(r[0]) && !IsJsSpace(r[|r| - 1])
    ensures |r| == 0 <==> forall i :: 0 <= i < |s| ==> IsJsSpace(s[i])
  {
    var i := SpacesFrom(s, 0);
    var j := SpacesBefore(s, i, |s|);
    assert i < j ==> s[i..j][0] == s[i] && s[i..j][j - i - 1] == s[j - 1];
    s[i..j]
  }

  /** The trim is the one slice of `s` between whitespace-only margins that
      neither starts nor ends with whitespace. */
  lemma {:induction false} TrimUnique(s: string, i: nat, j: nat)
    requires i <= j <= |s|
    requires forall k :: 0 <= k < i ==> IsJsSpace(s[k])
    requires forall k :: j <= k < |s| ==> IsJsSpace(s[k])
    requires i < j ==> !IsJsSpace(s[i]) && !IsJsSpace(s[j - 1])
    ensures Trim(s) == s[i..j]
  {
    var i' := SpacesFrom(s, 0);
    var j' := SpacesBefore(s, i', |s|);
    assert Trim(s) == s[i'..j'];
    SameMargins(s, i, j, i', j');
  }

  /** Two cuts of `s` with whitespace-only margins and a middle that starts
      and ends with a non-space (when it is not empty) are the same cut, or
      both middles are empty. */
  lemma {:induction false} SameMargins(s: string, i: nat, j: nat, i': nat, j': nat)
    requires i <= j <= |s| && i' <= j' <= |s|
    requires forall k :: 0 <= k < i ==> IsJsSpace(s[k])
    requires forall k :: j <= k < |s| ==> IsJsSpace(s[k])
    requires forall k :: 0 <= k < i' ==> IsJsSpace(s[k])
    requires forall k :: j' <= k < |s| ==> IsJsSpace(s[k])
    requires i < j ==> !IsJsSpace(s[i]) && !IsJsSpace(s[j - 1])
    requires i' < j' ==> !IsJsSpace(s[i']) && !IsJsSpace(s[j' - 1])
    ensures s[i'..j'] == s[i..j]
  {
    if i < j {
      assert i' <= i < j';
      assert i' == i;
      assert j' == j;
    } else if i' < j' {
      assert false;
    }
  }

  /** A name that neither starts nor ends with whitespace survives the trim,
      also behind the single space that follows a `;` in a cookie string. */
  lemma {:induction false} TrimPadded(lead: string, n: string)
    requires lead == "" || lead == " "
    requires |n| > 0 && !IsJsSpace(n[0]) && !IsJsSpace(n[|n| - 1])
    ensures Trim(lead + n) == n
  {
    var s := lead + n;
    assert s[|lead|] == n[0] && s[|s| - 1] == n[|n| - 1];
    assert forall k :: 0 <= k < |lead| ==> s[k] == ' ';
    TrimUnique(s, |lead|, |s|);
    assert s[|lead|..|s|] == n;
  }
}
