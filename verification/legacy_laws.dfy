/** Properties of the `BrowserStorage` model that relate several calls. */
module LegacyLaws {
  import opened Outcomes
  import opened Text
  import Uri
  import LocalStore
  import Cookies
  import Facade
  import opened Legacy

  // ---------------------------------------------------------------------------
  // Dispatch

  /** With neither backend supported `get` answers `"null"`, the other calls
      answer `false`, and nothing changes. */
  lemma {:induction false} NoBackendAnswersNull(s: Storage, key: string, value: string,
                                                days: Cookies.DaysToLive, gmt: string, globalName: string)
    requires !s.flags.supportsLocalStorage && !s.flags.supportsCookies
    ensures Get(s, key) == NullText
    ensures Set(s, key, value, days, gmt, globalName) == Facade.Step(Ok(false), s)
    ensures Remove(s, key, gmt, globalName) == Facade.Step(Ok(false), s)
    ensures Clear(s, gmt, globalName) == Facade.Step(Ok(false), s)
  {
    NullUnreserved();
    Uri.EncodeIdentity(NullText);
  }

  lemma {:induction false} NullUnreserved()
    ensures Uri.AllUnreserved(NullText)
  {
  }

  // ---------------------------------------------------------------------------
  // Local storage

  /** `get(k)` after `set(k, v)` gives `v` encoded. */
  lemma {:induction false} SetThenGet(s: Storage, key: string, value: string,
                                      days: Cookies.DaysToLive, gmt: string, globalName: string)
    requires s.flags.supportsLocalStorage
    ensures Get(Set(s, key, value, days, gmt, globalName).after, key) == Uri.EncodeURIComponent(value)
  {
  }

  /** `set(k, ...)` leaves what every other key reads as it was. */
  lemma {:induction false} SetKeepsOtherKeys(s: Storage, key: string, other: string, value: string,
                                             days: Cookies.DaysToLive, gmt: string, globalName: string)
    requires s.flags.supportsLocalStorage && key != other
    ensures Get(Set(s, key, value, days, gmt, globalName).after, other) == Get(s, other)
  {
  }

  /** A missing key and a key holding the string `"null"` read the same. */
  lemma {:induction false} AbsentReadsAsStoredNull(s: Storage, key: string,
                                                   days: Cookies.DaysToLive, gmt: string, globalName: string)
    requires s.flags.supportsLocalStorage && key !in s.local.items
    ensures Get(s, key) == Get(Set(s, key, NullText, days, gmt, globalName).after, key) == NullText
  {
    NullUnreserved();
    Uri.EncodeIdentity(NullText);
  }

  /** `remove(k)` after `set(k, v)` of a new key gives back the state before:
      both calls use the key as given. */
  lemma {:induction false} RemoveUndoesSet(s: Storage, key: string, value: string,
                                           days: Cookies.DaysToLive, gmt: string, globalName: string)
    requires s.flags.supportsLocalStorage && LocalStore.Valid(s.local) && key !in s.local.items
    ensures Remove(Set(s, key, value, days, gmt, globalName).after, key, gmt, globalName).after == s
  {
    var t := Set(s, key, value, days, gmt, globalName).after;
    assert t == s.(local := LocalStore.SetItem(s.local, key, value));
    assert Remove(t, key, gmt, globalName).after == t.(local := LocalStore.RemoveItem(t.local, key));
    LocalStore.RemoveUndoesSet(s.local, key, value);
  }

  /** After `remove(k)`, `get(k)` answers `"null"`. */
  lemma {:induction false} RemoveThenGet(s: Storage, key: string, gmt: string, globalName: string)
    requires s.flags.supportsLocalStorage
    ensures Get(Remove(s, key, gmt, globalName).after, key) == NullText
  {
    NullUnreserved();
    Uri.EncodeIdentity(NullText);
  }

  /** After `clear()` every key answers `"null"`. */
  lemma {:induction false} ClearThenGet(s: Storage, key: string, gmt: string, globalName: string)
    requires s.flags.supportsLocalStorage
    ensures Get(Clear(s, gmt, globalName).after, key) == NullText
  {
    NullUnreserved();
    Uri.EncodeIdentity(NullText);
  }

  // ---------------------------------------------------------------------------
  // Cookies

  /** For a cookie string of pairs, `get(k)` gives the value of the first
      pair named `k`, encoded, or `"null"`. */
  lemma {:induction false} CookieGet(s: Storage, key: string, pairs: seq<Cookies.Pair>)
    requires !s.flags.supportsLocalStorage && s.flags.supportsCookies
    requires Cookies.RegexPlain(key) && Cookies.IsToken(key)
    requires s.jar.text == Cookies.CookieText(pairs) && Cookies.PairsOk(pairs)
    ensures Get(s, key) == Uri.EncodeURIComponent(AsString(Cookies.Lookup(pairs, key)))
  {
    Cookies.ReadCookieText(pairs, key);
  }

  /** In cookie mode the key has no effect on what `set` does. */
  lemma {:induction false} CookieSetIgnoresKey(s: Storage, key: string, other: string, value: string,
                                               days: Cookies.DaysToLive, gmt: string, globalName: string)
    requires !s.flags.supportsLocalStorage && s.flags.supportsCookies
    ensures Set(s, key, value, days, gmt, globalName) == Set(s, other, value, days, gmt, globalName)
  {
  }

  /** Once the host keeps only the cookie `set(k, v)` wrote, `get(k)` still
      answers `"null"` unless `k` happens to equal the global `name`. */
  lemma {:induction false} CookieSetThenGetMisses(s: Storage, key: string, value: string,
                                                  days: Cookies.DaysToLive, gmt: string, globalName: string)
    requires !s.flags.supportsLocalStorage && s.flags.supportsCookies
    requires Cookies.RegexPlain(key) && Cookies.IsToken(key) && key != globalName
    requires Cookies.IsToken(globalName) && ';' !in value
    ensures var t := Set(s, key, value, days, gmt, globalName).after;
      var written := t.jar.writes[|t.jar.writes| - 1];
      Cookies.SegmentValue(Split(written, ';')[0], globalName) == Some(value) &&
      Get(t.(jar := t.jar.(text := Cookies.CookieText([Cookies.Pair(globalName, value)]))), key) == NullText
  {
    var t := Set(s, key, value, days, gmt, globalName).after;
    var pairs := [Cookies.Pair(globalName, value)];
    WrittenSegment(globalName, value, days, gmt);
    CookieGet(t.(jar := t.jar.(text := Cookies.CookieText(pairs))), key, pairs);
    assert Cookies.Lookup(pairs, key) == None;
    NullUnreserved();
    Uri.EncodeIdentity(NullText);
  }

  /** The first segment of a write holds the pair, whatever the date text. */
  lemma {:induction false} WrittenSegment(name: string, value: string, days: Cookies.DaysToLive, gmt: string)
    requires Cookies.IsToken(name) && ';' !in value
    ensures Split(Cookies.Write(name, value, days, gmt), ';')[0] == name + "=" + value
    ensures Cookies.SegmentValue(Split(Cookies.Write(name, value, days, gmt), ';')[0], name) == Some(value)
  {
    var rest := Cookies.ExpiresClause(days, gmt) + "; path=/";
    assert Cookies.Write(name, value, days, gmt) == (name + "=" + value) + rest;
    assert rest[0] == ';';
    Cookies.PieceFree(Cookies.Pair(name, value));
    Text.SplitPrefix(name + "=" + value, rest, ';');
    Cookies.SegmentOfPiece(Cookies.Pair(name, value), "", name);
    assert "" + Cookies.Piece(Cookies.Pair(name, value)) == name + "=" + value;
  }

  /** The corrected `set` names its cookie after the key, so once the host
      lists that cookie first, `get(k)` reads back `v`, encoded. */
  lemma {:induction false} CookieSetIntendedThenGet(s: Storage, key: string, value: string,
                                                    days: Cookies.DaysToLive, gmt: string,
                                                    others: seq<Cookies.Pair>)
    requires !s.flags.supportsLocalStorage && s.flags.supportsCookies
    requires Cookies.RegexPlain(key) && Cookies.IsToken(key) && ';' !in value
    requires Cookies.PairsOk(others)
    ensures var t := SetIntended(s, key, value, days, gmt).after;
      var written := t.jar.writes[|t.jar.writes| - 1];
      var pairs := [Cookies.Pair(key, value)] + others;
      Cookies.SegmentValue(Split(written, ';')[0], key) == Some(value) &&
      Get(t.(jar := t.jar.(text := Cookies.CookieText(pairs))), key) == Uri.EncodeURIComponent(value)
  {
    var t := SetIntended(s, key, value, days, gmt).after;
    var pairs := [Cookies.Pair(key, value)] + others;
    WrittenSegment(key, value, days, gmt);
    assert Cookies.PairsOk(pairs) by {
      forall i | 0 <= i < |pairs| ensures Cookies.IsToken(pairs[i].name) && ';' !in pairs[i].value {
        if i > 0 {
          assert pairs[i] == others[i - 1];
        }
      }
    }
    CookieGet(t.(jar := t.jar.(text := Cookies.CookieText(pairs))), key, pairs);
  }

  /** `clear()` on an empty cookie string still assigns one cookie: the
      single empty segment is not skipped. */
  lemma {:induction false} ClearOfNoCookies(s: Storage, gmt: string, globalName: string)
    requires !s.flags.supportsLocalStorage && s.flags.supportsCookies && s.jar.text == ""
    ensures Clear(s, gmt, globalName).after.jar.writes == s.jar.writes + [ClearWrite(gmt, globalName)]
  {
    assert Split("", ';') == [""];
    assert ClearWrites(1, gmt, globalName) == [ClearWrite(gmt, globalName)];
  }
}
