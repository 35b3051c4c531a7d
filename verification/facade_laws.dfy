/** Properties of the `Browser_Storage` model that relate several calls:
    dispatch, the `set`/`get` round trips through either backend, and how far
    `remove` and `clear` undo `set`. */
module FacadeLaws {
  import opened Outcomes
  import opened Text
  import Uri
  import Json
  import LocalStore
  import Cookies
  import opened Facade

  // ---------------------------------------------------------------------------
  // Dispatch

  /** With neither backend supported every operation throws `ReferenceError`
      and neither backend changes. */
  lemma {:induction false} NoBackendThrows(s: Storage, key: string, value: Json.JsValue,
                                           days: Cookies.DaysToLive, gmt: string)
    requires !s.flags.supportsLocalStorage && !s.flags.supportsCookies
    ensures Get(s, key) == Throws(ReferenceError)
    ensures Set(s, key, value, days, gmt) == Step(Throws(ReferenceError), s)
    ensures Remove(s, key, gmt) == Step(Throws(ReferenceError), s)
    ensures Keys(s) == Throws(ReferenceError)
    ensures Clear(s, gmt) == Step(Throws(ReferenceError), s)
  {
  }

  /** With local storage supported the cookie jar is neither read nor written,
      whatever `supports_cookies` says. */
  lemma {:induction false} LocalIgnoresCookies(s: Storage, key: string, value: Json.JsValue,
                                               days: Cookies.DaysToLive, gmt: string,
                                               jar: Cookies.Jar, cookies: bool)
    requires s.flags.supportsLocalStorage
    ensures var t := s.(jar := jar, flags := s.flags.(supportsCookies := cookies));
      Get(t, key) == Get(s, key) && Keys(t) == Keys(s) &&
      Set(t, key, value, days, gmt).after.local == Set(s, key, value, days, gmt).after.local &&
      Remove(t, key, gmt).after.local == Remove(s, key, gmt).after.local &&
      Clear(t, gmt).after.local == Clear(s, gmt).after.local
    ensures Set(s, key, value, days, gmt).after.jar == s.jar
    ensures Remove(s, key, gmt).after.jar == s.jar
    ensures Clear(s, gmt).after.jar == s.jar
  {
  }

  // ---------------------------------------------------------------------------
  // Local round trip

  /** `get(k)` after `set(k, v)` gives `v` back for every JSON value. */
  lemma {:induction false} SetThenGet(s: Storage, key: string, v: Json.Json, days: Cookies.DaysToLive, gmt: string)
    requires s.flags.supportsLocalStorage && Json.WellFormed(v)
    ensures Set(s, key, Json.Defined(v), days, gmt).result == Ok(true)
    ensures Get(Set(s, key, Json.Defined(v), days, gmt).after, key) == Ok(Json.Defined(v))
  {
    ReadBackEncoded(v);
  }

  /** The stored form of a JSON value reads back as that value. */
  lemma {:induction false} ReadBackEncoded(v: Json.Json)
    requires Json.WellFormed(v)
    ensures ReadBack(EncodedValue(Json.Defined(v))) == Ok(Json.Defined(v))
    ensures ReadBackIntended(EncodedValue(Json.Defined(v))) == Ok(Json.Defined(v))
  {
    var text := Json.Stringify(v);
    assert StoredText(Json.Defined(v)) == text;
    Uri.DecodeEncode(text);
    Json.ParseStringify(v);
    assert text != UndefinedText by {
      assert Json.StartsValue(text[0]);
    }
  }

  /** `set(k, ...)` leaves what every other key reads as it was. */
  lemma {:induction false} SetKeepsOtherKeys(s: Storage, key: string, other: string, value: Json.JsValue,
                                             days: Cookies.DaysToLive, gmt: string)
    requires s.flags.supportsLocalStorage && key != other
    ensures Get(Set(s, key, value, days, gmt).after, other) == Get(s, other)
  {
    if Uri.EncodeURIComponent(key) == Uri.EncodeURIComponent(other) {
      Uri.EncodeInjective(key, other);
    }
  }

  /** `set(k, undefined)` stores the text `undefined`, which `get(k)` hands
      to `JSON.parse`, so the read throws `SyntaxError`. */
  lemma {:induction false} SetUndefinedThenGetThrows(s: Storage, key: string, days: Cookies.DaysToLive, gmt: string)
    requires s.flags.supportsLocalStorage
    ensures Get(Set(s, key, Json.Undefined, days, gmt).after, key) == Throws(SyntaxError)
  {
    UndefinedStoredAsIs();
    Json.ParseRejectsNonValue(UndefinedText);
  }

  /** `undefined` is stored as the text `undefined`, which decoding keeps. */
  lemma {:induction false} UndefinedStoredAsIs()
    ensures EncodedValue(Json.Undefined) == UndefinedText
    ensures Uri.DecodeURIComponent(UndefinedText) == Ok(UndefinedText)
  {
    UndefinedUnreserved();
    UnreservedStoredAsIs(UndefinedText);
  }

  lemma {:induction false} UndefinedUnreserved()
    ensures Uri.AllUnreserved(UndefinedText)
  {
  }

  /** Text of unreserved characters is stored and decoded unchanged. */
  lemma {:induction false} UnreservedStoredAsIs(text: string)
    requires Uri.AllUnreserved(text)
    ensures Uri.EncodeURIComponent(text) == text
    ensures Uri.DecodeURIComponent(text) == Ok(text)
  {
    Uri.EncodeIdentity(text);
    assert '%' !in text by {
      assert !Uri.IsUnreserved('%');
    }
  }

  /** The corrected `get` gives back every value `set` stores, `undefined`
      included. */
  lemma {:induction false} SetThenGetIntended(s: Storage, key: string, v: Json.JsValue,
                                              days: Cookies.DaysToLive, gmt: string)
    requires s.flags.supportsLocalStorage
    requires v.Defined? ==> Json.WellFormed(v.json)
    ensures GetIntended(Set(s, key, v, days, gmt).after, key) == Ok(v)
  {
    match v
    case Undefined => UndefinedStoredAsIs();
    case Defined(j) => ReadBackEncoded(j);
  }

  /** The corrected `get` differs from the source's only where the source
      throws. */
  lemma {:induction false} GetIntendedAgrees(s: Storage, key: string)
    requires CookieReadable(s, key)
    ensures Get(s, key).Ok? ==> GetIntended(s, key) == Get(s, key)
  {
    var encodedKey := Uri.EncodeURIComponent(key);
    match BackendOf(s.flags)
    case LocalBackend =>
      if LocalStore.GetItem(s.local, encodedKey).Some? {
        ReadBackAgrees(LocalStore.GetItem(s.local, encodedKey).value);
      }
    case CookieBackend =>
      if Cookies.Match(s.jar.text, encodedKey).Some? {
        ReadBackAgrees(Cookies.Match(s.jar.text, encodedKey).value);
      }
    case NoBackend =>
  }

  lemma {:induction false} ReadBackAgrees(raw: string)
    ensures ReadBack(raw).Ok? ==> ReadBackIntended(raw) == ReadBack(raw)
  {
    Json.ParseRejectsNonValue(UndefinedText);
  }

  // ---------------------------------------------------------------------------
  // Cookie round trip

  /** A cookie string whose first pair named `encodeURIComponent(k)` holds
      the stored form of `v` reads back as `v`. */
  lemma {:induction false} CookieGet(s: Storage, key: string, pairs: seq<Cookies.Pair>, v: Json.Json)
    requires !s.flags.supportsLocalStorage && s.flags.supportsCookies
    requires Cookies.RegexPlain(Uri.EncodeURIComponent(key))
    requires s.jar.text == Cookies.CookieText(pairs) && Cookies.PairsOk(pairs)
    requires Cookies.Lookup(pairs, Uri.EncodeURIComponent(key)) == Some(EncodedValue(Json.Defined(v)))
    requires Json.WellFormed(v)
    ensures Get(s, key) == Ok(Json.Defined(v))
  {
    Uri.EncodedHasNoDelimiters(key);
    Cookies.ReadCookieText(pairs, Uri.EncodeURIComponent(key));
    ReadBackEncoded(v);
  }

  /** A cookie string with no pair named `encodeURIComponent(k)` reads as
      `undefined`. */
  lemma {:induction false} CookieGetAbsent(s: Storage, key: string, pairs: seq<Cookies.Pair>)
    requires !s.flags.supportsLocalStorage && s.flags.supportsCookies
    requires Cookies.RegexPlain(Uri.EncodeURIComponent(key))
    requires s.jar.text == Cookies.CookieText(pairs) && Cookies.PairsOk(pairs)
    requires forall i :: 0 <= i < |pairs| ==> pairs[i].name != Uri.EncodeURIComponent(key)
    ensures Get(s, key) == Ok(Json.Undefined)
  {
    Uri.EncodedHasNoDelimiters(key);
    Cookies.ReadCookieText(pairs, Uri.EncodeURIComponent(key));
  }

  /** The string `set` assigns in cookie mode is one name/value segment,
      named by the encoded key and holding the encoded value, followed by
      its attributes; the segment scan reads the value back under that name. */
  lemma {:induction false} CookieSetWritesOnePair(s: Storage, key: string, v: Json.JsValue,
                                                  days: Cookies.DaysToLive, gmt: string)
    requires !s.flags.supportsLocalStorage && s.flags.supportsCookies
    requires ';' !in gmt
    ensures |Set(s, key, v, days, gmt).after.jar.writes| == |s.jar.writes| + 1
    ensures var segs := Split(Set(s, key, v, days, gmt).after.jar.writes[|s.jar.writes|], ';');
      |segs| == (if Cookies.Truthy(days) then 3 else 2) &&
      segs[0] == Uri.EncodeURIComponent(key) + "=" + EncodedValue(v) &&
      Cookies.SegmentValue(segs[0], Uri.EncodeURIComponent(key)) == Some(EncodedValue(v))
  {
    var name := Uri.EncodeURIComponent(key);
    Uri.EncodedHasNoDelimiters(key);
    Uri.EncodedHasNoDelimiters(StoredText(v));
    Cookies.WriteSegments(name, EncodedValue(v), days, gmt);
    Cookies.WriteReadsBack(name, EncodedValue(v), days, gmt);
  }

  /** Without a truthy `days_to_live` the cookie written is exactly the pair
      and `; path=/`. */
  lemma {:induction false} CookieSetWithoutExpiry(s: Storage, key: string, v: Json.JsValue,
                                                  days: Cookies.DaysToLive, gmt: string)
    requires !s.flags.supportsLocalStorage && s.flags.supportsCookies
    requires days == Cookies.Omitted || days == Cookies.Days(0)
    ensures Set(s, key, v, days, gmt).after.jar.writes ==
              s.jar.writes + [Uri.EncodeURIComponent(key) + "=" + EncodedValue(v) + "; path=/"]
  {
    Cookies.WriteWithoutExpiry(Uri.EncodeURIComponent(key), EncodedValue(v), days, gmt);
  }

  /** Once the host lists the written pair first among any others, `get`
      reads back the value `set` wrote. */
  lemma {:induction false} CookieSetThenGet(s: Storage, key: string, v: Json.Json, days: Cookies.DaysToLive,
                                            gmt: string, others: seq<Cookies.Pair>)
    requires !s.flags.supportsLocalStorage && s.flags.supportsCookies
    requires Cookies.RegexPlain(Uri.EncodeURIComponent(key))
    requires Cookies.PairsOk(others) && Json.WellFormed(v)
    ensures var t := Set(s, key, Json.Defined(v), days, gmt).after;
      var pairs := [Cookies.Pair(Uri.EncodeURIComponent(key), EncodedValue(Json.Defined(v)))] + others;
      Get(t.(jar := t.jar.(text := Cookies.CookieText(pairs))), key) == Ok(Json.Defined(v))
  {
    var t := Set(s, key, Json.Defined(v), days, gmt).after;
    var p := Cookies.Pair(Uri.EncodeURIComponent(key), EncodedValue(Json.Defined(v)));
    var pairs := [p] + others;
    Uri.EncodedHasNoDelimiters(key);
    Uri.EncodedHasNoDelimiters(StoredText(Json.Defined(v)));
    assert Cookies.PairsOk(pairs) by {
      forall i | 0 <= i < |pairs| ensures Cookies.IsToken(pairs[i].name) && ';' !in pairs[i].value {
        if i > 0 {
          assert pairs[i] == others[i - 1];
        }
      }
    }
    CookieGet(t.(jar := t.jar.(text := Cookies.CookieText(pairs))), key, pairs, v);
  }

  // ---------------------------------------------------------------------------
  // Remove

  /** In local mode `remove(k)` undoes `set(k, v)` exactly when encoding
      leaves `k` unchanged: it deletes the raw key, and `set` stored under the
      encoded one. */
  lemma {:induction false} RemoveUndoesSetIff(s: Storage, key: string, v: Json.JsValue,
                                              days: Cookies.DaysToLive, gmt: string)
    requires s.flags.supportsLocalStorage && LocalStore.Valid(s.local)
    requires Uri.EncodeURIComponent(key) !in s.local.items
    ensures Remove(Set(s, key, v, days, gmt).after, key, gmt).after == s <==>
              Uri.EncodeURIComponent(key) == key
  {
    var encodedKey := Uri.EncodeURIComponent(key);
    RemoveAfterSetLocal(s, key, v, days, gmt);
    var local := LocalStore.RemoveItem(LocalStore.SetItem(s.local, encodedKey, EncodedValue(v)), key);
    if encodedKey == key {
      LocalStore.RemoveUndoesSet(s.local, key, EncodedValue(v));
    } else {
      LocalStore.RemoveOtherKeepsSet(s.local, encodedKey, EncodedValue(v), key);
    }
  }

  /** In local mode `remove(k)` after `set(k, v)` changes the local store alone. */
  lemma {:induction false} RemoveAfterSetLocal(s: Storage, key: string, v: Json.JsValue,
                                               days: Cookies.DaysToLive, gmt: string)
    requires s.flags.supportsLocalStorage
    ensures Remove(Set(s, key, v, days, gmt).after, key, gmt).after ==
              s.(local := LocalStore.RemoveItem(
                   LocalStore.SetItem(s.local, Uri.EncodeURIComponent(key), EncodedValue(v)), key))
  {
    LocalSetStep(s, key, v, days, gmt);
    LocalRemoveStep(Set(s, key, v, days, gmt).after, key, gmt);
  }

  /** In local mode `set` touches the local store alone. */
  lemma {:induction false} LocalSetStep(s: Storage, key: string, v: Json.JsValue,
                                        days: Cookies.DaysToLive, gmt: string)
    requires s.flags.supportsLocalStorage
    ensures Set(s, key, v, days, gmt).after ==
              s.(local := LocalStore.SetItem(s.local, Uri.EncodeURIComponent(key), EncodedValue(v)))
  {
  }

  /** In local mode `remove` touches the local store alone. */
  lemma {:induction false} LocalRemoveStep(s: Storage, key: string, gmt: string)
    requires s.flags.supportsLocalStorage
    ensures Remove(s, key, gmt).after == s.(local := LocalStore.RemoveItem(s.local, key))
  {
  }

  /** For a key with a character outside the unreserved set, `remove(k)`
      after `set(k, v)` leaves `v` readable. */
  lemma {:induction false} RemoveMissesEncodedKey(s: Storage, key: string, v: Json.Json,
                                                  days: Cookies.DaysToLive, gmt: string)
    requires s.flags.supportsLocalStorage && !Uri.AllUnreserved(key) && Json.WellFormed(v)
    ensures Get(Remove(Set(s, key, Json.Defined(v), days, gmt).after, key, gmt).after, key) == Ok(Json.Defined(v))
  {
    Uri.EncodeIdentity(key);
    ReadBackEncoded(v);
  }

  /** The corrected `remove` undoes `set` for every key. */
  lemma {:induction false} RemoveIntendedUndoesSet(s: Storage, key: string, v: Json.JsValue,
                                                   days: Cookies.DaysToLive, gmt: string)
    requires s.flags.supportsLocalStorage && LocalStore.Valid(s.local)
    requires Uri.EncodeURIComponent(key) !in s.local.items
    ensures RemoveIntended(Set(s, key, v, days, gmt).after, key, gmt).after == s
    ensures Get(RemoveIntended(Set(s, key, v, days, gmt).after, key, gmt).after, key) == Ok(Json.Undefined)
  {
    var encodedKey := Uri.EncodeURIComponent(key);
    var t := Set(s, key, v, days, gmt).after;
    assert t.local == LocalStore.SetItem(s.local, encodedKey, EncodedValue(v));
    LocalStore.RemoveUndoesSet(s.local, encodedKey, EncodedValue(v));
  }

  /** In cookie mode `remove(k)` assigns the encoded empty-string value
      under the encoded key, expiring seven days back. */
  lemma {:induction false} CookieRemoveExpires(s: Storage, key: string, gmt: string)
    requires !s.flags.supportsLocalStorage && s.flags.supportsCookies
    ensures Remove(s, key, gmt).after.jar.writes ==
              s.jar.writes + [Uri.EncodeURIComponent(key) + "=" + "%22%22" + "; expires=" + gmt + "; path=/"]
  {
    RemoveCookieStep(s, key, gmt);
    Cookies.WriteWithExpiry(Uri.EncodeURIComponent(key), EmptyStringValue, Cookies.Days(-7), gmt);
  }

  // ---------------------------------------------------------------------------
  // Keys

  /** In local mode a key that was set is listed by `keys()`, encoded,
      unless its encoding is the name of a prototype property. */
  lemma {:induction false} KeysAfterSet(s: Storage, key: string, v: Json.JsValue,
                                        days: Cookies.DaysToLive, gmt: string)
    requires s.flags.supportsLocalStorage && LocalStore.Valid(s.local)
    ensures Uri.EncodeURIComponent(key) in Keys(Set(s, key, v, days, gmt).after).value <==>
              !LocalStore.Shadowed(Uri.EncodeURIComponent(key))
  {
    var t := Set(s, key, v, days, gmt).after;
    assert t.local == LocalStore.SetItem(s.local, Uri.EncodeURIComponent(key), EncodedValue(v));
    LocalStore.SetItemValid(s.local, Uri.EncodeURIComponent(key), EncodedValue(v));
  }

  /** An empty cookie string lists one empty name. */
  lemma {:induction false} KeysOfNoCookies(s: Storage)
    requires !s.flags.supportsLocalStorage && s.flags.supportsCookies && s.jar.text == ""
    ensures Keys(s) == Ok([""])
  {
    Cookies.NoCookiesOneName();
  }

  /** For a cookie string of pairs, `keys()` lists the pair names, each after
      the space of its `"; "` except the first. */
  lemma {:induction false} KeysOfCookieText(s: Storage, pairs: seq<Cookies.Pair>)
    requires !s.flags.supportsLocalStorage && s.flags.supportsCookies
    requires |pairs| > 0 && Cookies.PairsOk(pairs) && s.jar.text == Cookies.CookieText(pairs)
    ensures |Keys(s).value| == |pairs|
    ensures forall i :: 0 <= i < |pairs| ==> Keys(s).value[i] == (if i == 0 then "" else " ") + pairs[i].name
  {
    Cookies.NamesOfCookieText(pairs);
  }

  // ---------------------------------------------------------------------------
  // Clear

  /** In local mode `clear()` leaves no keys, and every key reads as `undefined`. */
  lemma {:induction false} ClearLocalEmpties(s: Storage, key: string, gmt: string)
    requires s.flags.supportsLocalStorage
    ensures Keys(Clear(s, gmt).after) == Ok([])
    ensures Get(Clear(s, gmt).after, key) == Ok(Json.Undefined)
  {
  }

  /** Cookie names as `set` writes them: non-empty, made of the characters
      `encodeURIComponent` produces. */
  predicate EncodedNames(pairs: seq<Cookies.Pair>)
  {
    forall i :: 0 <= i < |pairs| ==>
      |pairs[i].name| > 0 && forall j :: 0 <= j < |pairs[i].name| ==> Uri.IsEncodedChar(pairs[i].name[j])
  }

  /** Every segment of a cookie string of pairs is named by its pair. */
  lemma {:induction false} SegmentNamesOfPairs(pairs: seq<Cookies.Pair>)
    requires |pairs| > 0 && Cookies.PairsOk(pairs) && EncodedNames(pairs)
    ensures |Split(Cookies.CookieText(pairs), ';')| == |pairs|
    ensures forall i :: 0 <= i < |pairs| ==> SegmentName(Split(Cookies.CookieText(pairs), ';')[i]) == pairs[i].name
    ensures AllNamed(Split(Cookies.CookieText(pairs), ';'))
  {
    Cookies.SplitPairs(pairs);
    forall i | 0 <= i < |pairs|
      ensures SegmentName(Split(Cookies.CookieText(pairs), ';')[i]) == pairs[i].name
    {
      SegmentNameAt(pairs, i);
    }
  }

  lemma {:induction false} SegmentNameAt(pairs: seq<Cookies.Pair>, i: nat)
    requires 0 <= i < |pairs| && Cookies.PairsOk(pairs) && EncodedNames(pairs)
    ensures SegmentName(Cookies.Segments(pairs, "")[i]) == pairs[i].name
  {
    Cookies.SegmentsAt(pairs, "", i);
    var lead := if i == 0 then "" else " ";
    var p := pairs[i];
    assert Cookies.Segments(pairs, "")[i] == (lead + p.name) + "=" + p.value;
    Cookies.BeforeEquals(lead + p.name, p.value);
    assert Uri.IsEncodedChar(p.name[0]) && Uri.IsEncodedChar(p.name[|p.name| - 1]);
    TrimPadded(lead, p.name);
  }

  /** Every segment has a name. */
  predicate AllNamed(segs: seq<string>)
  {
    forall i :: 0 <= i < |segs| ==> SegmentName(segs[i]) != ""
  }

  lemma {:induction false} AllNamedTail(segs: seq<string>)
    requires |segs| > 0 && AllNamed(segs)
    ensures AllNamed(segs[1..])
  {
    forall i | 0 <= i < |segs| - 1 ensures SegmentName(segs[1..][i]) != "" {
      assert segs[1..][i] == segs[i + 1];
    }
  }

  /** The corrected targets of segments that all have a name: those names. */
  lemma {:induction false} IntendedTargetsAllNamed(segs: seq<string>)
    requires AllNamed(segs)
    ensures |IntendedTargets(segs)| == |segs|
    ensures forall i :: 0 <= i < |segs| ==> IntendedTargets(segs)[i] == SegmentName(segs[i])
  {
    if |segs| > 0 {
      var tail := segs[1..];
      AllNamedTail(segs);
      IntendedTargetsAllNamed(tail);
      var r := IntendedTargets(segs);
      assert r == [SegmentName(segs[0])] + IntendedTargets(tail);
      forall i | 0 <= i < |segs| ensures r[i] == SegmentName(segs[i]) {
        if i > 0 {
          assert segs[i] == tail[i - 1];
        }
      }
    }
  }

  /** The source's targets of segments that all have a name: those names,
      encoded. */
  lemma {:induction false} ClearTargetsAllNamed(segs: seq<string>)
    requires AllNamed(segs)
    ensures |ClearTargets(segs)| == |segs|
    ensures forall i :: 0 <= i < |segs| ==> ClearTargets(segs)[i] == ClearKey(segs[i])
  {
    if |segs| > 0 {
      var tail := segs[1..];
      AllNamedTail(segs);
      ClearTargetsAllNamed(tail);
      assert ClearKey(segs[0]) != "" by {
        assert |Uri.EncodeURIComponent(SegmentName(segs[0]))| >= |SegmentName(segs[0])|;
      }
      var r := ClearTargets(segs);
      assert r == [ClearKey(segs[0])] + ClearTargets(tail);
      forall i | 0 <= i < |segs| ensures r[i] == ClearKey(segs[i]) {
        if i > 0 {
          assert segs[i] == tail[i - 1];
        }
      }
    }
  }

  /** The source's `clear()` on a cookie string of `set`-written pairs: one
      write per pair, in order, expiring the pair's name encoded twice more.
      A name holding `%`, as every name does whose key had a character
      outside the unreserved set, is therefore never expired. */
  lemma {:induction false} ClearExpiresReencodedNames(s: Storage, pairs: seq<Cookies.Pair>, gmt: string)
    requires !s.flags.supportsLocalStorage && s.flags.supportsCookies
    requires |pairs| > 0 && Cookies.PairsOk(pairs) && EncodedNames(pairs)
    requires s.jar.text == Cookies.CookieText(pairs)
    ensures Clear(s, gmt).after.jar.writes == s.jar.writes +
              seq(|pairs|, i requires 0 <= i < |pairs| =>
                    ExpireWrite(Uri.EncodeURIComponent(Uri.EncodeURIComponent(pairs[i].name)), gmt))
    ensures forall i :: 0 <= i < |pairs| && '%' in pairs[i].name ==>
              Uri.EncodeURIComponent(Uri.EncodeURIComponent(pairs[i].name)) != pairs[i].name
  {
    ClearWritesOfPairs(pairs, gmt);
    ReencodedNamesDiffer(pairs);
  }

  /** A name holding `%` is never its own double encoding. */
  lemma {:induction false} ReencodedNamesDiffer(pairs: seq<Cookies.Pair>)
    ensures forall i :: 0 <= i < |pairs| && '%' in pairs[i].name ==>
              Uri.EncodeURIComponent(Uri.EncodeURIComponent(pairs[i].name)) != pairs[i].name
  {
    forall i | 0 <= i < |pairs| && '%' in pairs[i].name
      ensures Uri.EncodeURIComponent(Uri.EncodeURIComponent(pairs[i].name)) != pairs[i].name
    {
      assert !Uri.AllUnreserved(pairs[i].name);
      Uri.EncodeTwiceChanges(pairs[i].name);
    }
  }

  lemma {:induction false} ClearWritesOfPairs(pairs: seq<Cookies.Pair>, gmt: string)
    requires |pairs| > 0 && Cookies.PairsOk(pairs) && EncodedNames(pairs)
    ensures ExpiryWrites(ClearTargets(Split(Cookies.CookieText(pairs), ';')), gmt) ==
              seq(|pairs|, i requires 0 <= i < |pairs| =>
                    ExpireWrite(Uri.EncodeURIComponent(Uri.EncodeURIComponent(pairs[i].name)), gmt))
  {
    var targets := ClearTargets(Split(Cookies.CookieText(pairs), ';'));
    ClearTargetsOfPairs(pairs);
    var l := ExpiryWrites(targets, gmt);
    var r := seq(|pairs|, i requires 0 <= i < |pairs| =>
                   ExpireWrite(Uri.EncodeURIComponent(Uri.EncodeURIComponent(pairs[i].name)), gmt));
    assert |l| == |r|;
    forall i | 0 <= i < |l| ensures l[i] == r[i] {
      assert targets[i] == Uri.EncodeURIComponent(pairs[i].name);
    }
  }

  lemma {:induction false} ClearTargetsOfPairs(pairs: seq<Cookies.Pair>)
    requires |pairs| > 0 && Cookies.PairsOk(pairs) && EncodedNames(pairs)
    ensures var targets := ClearTargets(Split(Cookies.CookieText(pairs), ';'));
      |targets| == |pairs| &&
      forall i :: 0 <= i < |pairs| ==> targets[i] == Uri.EncodeURIComponent(pairs[i].name)
  {
    var segs := Split(Cookies.CookieText(pairs), ';');
    SegmentNamesOfPairs(pairs);
    ClearTargetsAllNamed(segs);
    forall i | 0 <= i < |pairs|
      ensures ClearTargets(segs)[i] == Uri.EncodeURIComponent(pairs[i].name)
    {
      assert ClearKey(segs[i]) == Uri.EncodeURIComponent(SegmentName(segs[i]));
    }
  }

  /** The corrected `clear()` on a cookie string of `set`-written pairs: one
      write per pair, in order, expiring exactly that pair's name. */
  lemma {:induction false} ClearIntendedExpiresEveryPair(s: Storage, pairs: seq<Cookies.Pair>, gmt: string)
    requires !s.flags.supportsLocalStorage && s.flags.supportsCookies
    requires |pairs| > 0 && Cookies.PairsOk(pairs) && EncodedNames(pairs)
    requires s.jar.text == Cookies.CookieText(pairs)
    ensures ClearIntended(s, gmt).after.jar.writes == s.jar.writes +
              seq(|pairs|, i requires 0 <= i < |pairs| => ExpireWrite(pairs[i].name, gmt))
  {
    IntendedWritesOfPairs(pairs, gmt);
  }

  lemma {:induction false} IntendedWritesOfPairs(pairs: seq<Cookies.Pair>, gmt: string)
    requires |pairs| > 0 && Cookies.PairsOk(pairs) && EncodedNames(pairs)
    ensures ExpireWrites(IntendedTargets(Split(Cookies.CookieText(pairs), ';')), gmt) ==
              seq(|pairs|, i requires 0 <= i < |pairs| => ExpireWrite(pairs[i].name, gmt))
  {
    var segs := Split(Cookies.CookieText(pairs), ';');
    SegmentNamesOfPairs(pairs);
    IntendedTargetsAllNamed(segs);
    var targets := IntendedTargets(segs);
    var l := ExpireWrites(targets, gmt);
    var r := seq(|pairs|, i requires 0 <= i < |pairs| => ExpireWrite(pairs[i].name, gmt));
    assert |l| == |r|;
    forall i | 0 <= i < |l| ensures l[i] == r[i] {
      assert targets[i] == pairs[i].name;
    }
  }
}
