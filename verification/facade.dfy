/** The `Browser_Storage` class of browser-storage.js: it probes for
    `localStorage` and cookies once, then routes `get`, `set`, `remove`,
    `keys` and `clear` to the local store when it is supported, else to the
    cookie string, and throws `ReferenceError` when neither is. Values travel
    as `encodeURIComponent(JSON.stringify(value))` under
    `encodeURIComponent(key)`. */
module Facade {
  import opened Outcomes
  import opened Text
  import Uri
  import Json
  import LocalStore
  import Cookies

  // ---------------------------------------------------------------------------
  // Support flags

  /** The three properties the constructor sets. */
  datatype Flags = Flags(supportsLocalStorage: bool, supportsCookies: bool, storageAvailable: bool)

  /** `storage_available` says whether either backend is supported. */
  predicate Consistent(f: Flags)
  {
    f.storageAvailable == (f.supportsCookies || f.supportsLocalStorage)
  }

  /** The name the local probe writes and removes. */
  const ProbeKey: string := "test_key"

  /** The result of `supportsLocalStorage()`, given how the host's
      `setItem('test_key', true)` and the `removeItem('test_key')` of the
      `finally` block complete. A `ReferenceError` from `setItem` means "no
      local storage"; any other error is rethrown; an error from `removeItem`
      replaces whatever the `try` statement was about to do. */
  function ProbeLocalStorage(setItem: HostCall, removeItem: HostCall): (r: Outcome<bool>)
    ensures r == Ok(true) <==> setItem.Done? && removeItem.Done?
    ensures r == Ok(false) <==> setItem == Fails(ReferenceError) && removeItem.Done?
    ensures removeItem.Fails? ==> r == Throws(removeItem.error)
    ensures removeItem.Done? && setItem.Fails? && setItem.error != ReferenceError ==>
              r == Throws(setItem.error)
  {
    var caught: Outcome<bool> :=
      match setItem
      case Done => Ok(true)
      case Fails(e) => if e == ReferenceError then Ok(false) else Throws(e);
    match removeItem
    case Fails(e) => Throws(e)
    case Done => caught
  }

  /** What the probe does to the local store: `test_key` is set to `"true"`
      (the string form of `true`) and then removed. A `test_key` the page had
      stored itself is lost whenever the removal completes. */
  function ProbeEffect(st: LocalStore.Store, setItem: HostCall, removeItem: HostCall): (r: LocalStore.Store)
    ensures r.items - {ProbeKey} == st.items - {ProbeKey}
    ensures removeItem.Done? ==> ProbeKey !in r.items
    ensures removeItem.Fails? && setItem.Done? ==> LocalStore.GetItem(r, ProbeKey) == Some("true")
  {
    var afterSet := if setItem.Done? then LocalStore.SetItem(st, ProbeKey, "true") else st;
    if removeItem.Done? then LocalStore.RemoveItem(afterSet, ProbeKey) else afterSet
  }

  /** `new Browser_Storage()`, given the outcomes of the two static probes in
      the order the constructor runs them. */
  function Construct(localProbe: Outcome<bool>, cookieProbe: Outcome<bool>): (r: Outcome<Flags>)
    ensures r.Ok? <==> localProbe.Ok? && cookieProbe.Ok?
    ensures r.Ok? ==> Consistent(r.value) &&
                      r.value.supportsLocalStorage == localProbe.value &&
                      r.value.supportsCookies == cookieProbe.value
    ensures r.Throws? ==> r.error == (if localProbe.Throws? then localProbe.error else cookieProbe.error)
  {
    var local :- localProbe;
    var cookies :- cookieProbe;
    Ok(Flags(local, cookies, if cookies || local then true else false))
  }

  /** `constructorRefresh()` on flags `f`: the same three assignments, one
      after another, so a probe that throws leaves the assignments before it
      in place. Returns the new flags and how the call completed. */
  function Refresh(f: Flags, localProbe: Outcome<bool>, cookieProbe: Outcome<bool>): (r: (Flags, HostCall))
    ensures r.1.Done? <==> localProbe.Ok? && cookieProbe.Ok?
    ensures r.1.Done? ==> Consistent(r.0)
    ensures localProbe.Throws? ==> r.0 == f
    ensures r.1.Fails? ==> r.0.supportsCookies == f.supportsCookies && r.0.storageAvailable == f.storageAvailable
  {
    match localProbe
    case Throws(e) => (f, Fails(e))
    case Ok(local) =>
      var f1 := f.(supportsLocalStorage := local);
      match cookieProbe
      case Throws(e) => (f1, Fails(e))
      case Ok(cookies) =>
        (f1.(supportsCookies := cookies, storageAvailable := if cookies || local then true else false), Done)
  }

  /** A refresh that completes leaves the flags a fresh construction would. */
  lemma {:induction false} RefreshAgreesWithConstruct(f: Flags, localProbe: Outcome<bool>, cookieProbe: Outcome<bool>)
    ensures Refresh(f, localProbe, cookieProbe).1.Done? <==> Construct(localProbe, cookieProbe).Ok?
    ensures Construct(localProbe, cookieProbe).Ok? ==>
              Refresh(f, localProbe, cookieProbe).0 == Construct(localProbe, cookieProbe).value
  {
  }

  /** A refresh whose cookie probe throws after local storage turned up
      leaves `storage_available` false beside a true `supports_local_storage`. */
  lemma {:induction false} RefreshCanLeaveStaleAvailability()
    ensures var r := Refresh(Flags(false, false, false), Ok(true), Throws(TypeError));
            r.1 == Fails(TypeError) && r.0.supportsLocalStorage && !Consistent(r.0)
  {
  }

  // ---------------------------------------------------------------------------
  // Storage state and dispatch

  /** The instance's flags and the two host backends it may touch. */
  datatype Storage = Storage(flags: Flags, local: LocalStore.Store, jar: Cookies.Jar)

  datatype Backend = LocalBackend | CookieBackend | NoBackend

  /** Which backend a call uses: local storage whenever it is supported, then
      cookies; `storage_available` is never consulted. */
  function BackendOf(f: Flags): (b: Backend)
    ensures b == LocalBackend <==> f.supportsLocalStorage
    ensures b == CookieBackend <==> !f.supportsLocalStorage && f.supportsCookies
  {
    if f.supportsLocalStorage then LocalBackend
    else if f.supportsCookies then CookieBackend
    else NoBackend
  }

  /** The result of a call that may change the backends, and the state after it. */
  datatype Step<T> = Step(result: Outcome<T>, after: Storage)

  // ---------------------------------------------------------------------------
  // Value encoding

  /** `JSON.stringify(value)` as `encodeURIComponent` sees it: the JSON text,
      or, for `undefined`, the string `"undefined"` its argument converts to. */
  function StoredText(v: Json.JsValue): (r: string)
    ensures v.Defined? ==> Json.StringifyValue(v) == Some(r)
  {
    match Json.StringifyValue(v)
    case Some(text) => text
    case None => UndefinedText
  }

  /** `String(undefined)`. */
  const UndefinedText: string := "undefined"

  /** `encodeURIComponent(JSON.stringify(value))`. */
  function EncodedValue(v: Json.JsValue): string
  {
    Uri.EncodeURIComponent(StoredText(v))
  }

  /** `JSON.parse(decodeURIComponent(raw))`: a stored string read back as a
      value. It is never `undefined`, and it fails only with the errors of
      the two built-ins. */
  function ReadBack(raw: string): (r: Outcome<Json.JsValue>)
    ensures r.Ok? ==> r.value.Defined?
    ensures r.Throws? ==> r.error == URIError || r.error == SyntaxError
  {
    var text :- Uri.DecodeURIComponent(raw);
    var v :- Json.Parse(text);
    Ok(Json.Defined(v))
  }

  // ---------------------------------------------------------------------------
  // The five operations

  /** The cookie read needs a key whose encoding the regular expression takes
      literally. */
  predicate CookieReadable(s: Storage, key: string)
  {
    BackendOf(s.flags) == CookieBackend ==> Cookies.RegexPlain(Uri.EncodeURIComponent(key))
  }

  /** `get(key)`: reads the stored string under the encoded key and decodes
      it; a missing entry reads as `undefined`. */
  function Get(s: Storage, key: string): (r: Outcome<Json.JsValue>)
    requires CookieReadable(s, key)
    ensures r == Throws(ReferenceError) <==> BackendOf(s.flags) == NoBackend
    ensures BackendOf(s.flags) == LocalBackend ==>
              (r == Ok(Json.Undefined) <==> Uri.EncodeURIComponent(key) !in s.local.items)
    ensures BackendOf(s.flags) == CookieBackend ==>
              (r == Ok(Json.Undefined) <==> Cookies.Match(s.jar.text, Uri.EncodeURIComponent(key)).None?)
  {
    var encodedKey := Uri.EncodeURIComponent(key);
    match BackendOf(s.flags)
    case LocalBackend =>
      (match LocalStore.GetItem(s.local, encodedKey)
       case None => Ok(Json.Undefined)
       case Some(raw) => ReadBack(raw))
    case CookieBackend =>
      (match Cookies.Match(s.jar.text, encodedKey)
       case None => Ok(Json.Undefined)
       case Some(raw) => ReadBack(raw))
    case NoBackend => Throws(ReferenceError)
  }

  /** `set(key, value, days_to_live)`: stores the encoded value under the
      encoded key in the local store, or assigns one cookie; `gmt` is the
      host's rendering of the expiry date, used only when `days_to_live` is
      truthy. */
  function Set(s: Storage, key: string, value: Json.JsValue, days: Cookies.DaysToLive, gmt: string): (r: Step<bool>)
    ensures r.result.Throws? <==> BackendOf(s.flags) == NoBackend
    ensures r.result.Throws? ==> r.result.error == ReferenceError && r.after == s
    ensures r.result.Ok? ==> r.result.value && r.after.flags == s.flags
    ensures BackendOf(s.flags) == LocalBackend ==>
              r.after.jar == s.jar &&
              r.after.local.items == s.local.items[Uri.EncodeURIComponent(key) := EncodedValue(value)]
    ensures BackendOf(s.flags) == CookieBackend ==>
              r.after.local == s.local && r.after.jar.text == s.jar.text &&
              r.after.jar.writes ==
                s.jar.writes + [Cookies.Write(Uri.EncodeURIComponent(key), EncodedValue(value), days, gmt)]
  {
    var encodedKey := Uri.EncodeURIComponent(key);
    var encodedValue := EncodedValue(value);
    match BackendOf(s.flags)
    case LocalBackend =>
      Step(Ok(true), s.(local := LocalStore.SetItem(s.local, encodedKey, encodedValue)))
    case CookieBackend =>
      Step(Ok(true), s.(jar := Cookies.Assign(s.jar, Cookies.Write(encodedKey, encodedValue, days, gmt))))
    case NoBackend => Step(Throws(ReferenceError), s)
  }

  /** `remove(key)`: deletes the key as given from the local store, or sets
      the cookie to the empty string with an expiry seven days back. */
  function Remove(s: Storage, key: string, gmt: string): (r: Step<bool>)
    ensures r.result.Throws? <==> BackendOf(s.flags) == NoBackend
    ensures r.result.Throws? ==> r.result.error == ReferenceError && r.after == s
    ensures r.result.Ok? ==> r.result.value && r.after.flags == s.flags
    ensures BackendOf(s.flags) == LocalBackend ==>
              r.after.jar == s.jar && r.after.local.items == s.local.items - {key}
    ensures BackendOf(s.flags) == CookieBackend ==>
              r == Set(s, key, Json.Defined(Json.Str("")), Cookies.Days(-7), gmt)
  {
    match BackendOf(s.flags)
    case LocalBackend => Step(Ok(true), s.(local := LocalStore.RemoveItem(s.local, key)))
    case CookieBackend => Set(s, key, Json.Defined(Json.Str("")), Cookies.Days(-7), gmt)
    case NoBackend => Step(Throws(ReferenceError), s)
  }

  /** `keys()`: the local store's keys that no prototype property shadows, or
      the untrimmed text before the first `=` of every `;`-separated cookie
      segment. */
  function Keys(s: Storage): (r: Outcome<seq<string>>)
    ensures r.Throws? <==> BackendOf(s.flags) == NoBackend
    ensures r.Throws? ==> r.error == ReferenceError
    ensures BackendOf(s.flags) == LocalBackend && LocalStore.Valid(s.local) ==>
              forall k :: k in r.value <==> k in s.local.items && !LocalStore.Shadowed(k)
    ensures BackendOf(s.flags) == CookieBackend ==>
              |r.value| == Count(s.jar.text, ';') + 1 &&
              forall i :: 0 <= i < |r.value| ==> r.value[i] == Before(Split(s.jar.text, ';')[i], '=')
  {
    match BackendOf(s.flags)
    case LocalBackend => Ok(LocalStore.Keys(s.local))
    case CookieBackend =>
      var names := Cookies.SegmentNames(s.jar.text);
      assert forall i :: 0 <= i < |names| ==> names[i] == Before(Split(s.jar.text, ';')[i], '=') by {
        forall i | 0 <= i < |names| ensures names[i] == Before(Split(s.jar.text, ';')[i], '=') {
          BeforeIsPrefixName(Split(s.jar.text, ';')[i], names[i]);
        }
      }
      Ok(names)
    case NoBackend => Throws(ReferenceError)
  }

  /** The name of one cookie segment: the text before its first `=`, with
      the whitespace around it trimmed. */
  function SegmentName(seg: string): string
  {
    Trim(Before(seg, '='))
  }

  /** The name `clear()` passes to `remove` for one cookie segment: the text
      before its first `=`, trimmed and then encoded. */
  function ClearKey(seg: string): string
  {
    Uri.EncodeURIComponent(SegmentName(seg))
  }

  /** The cookie branch of `clear()`: `remove` for each segment, in order,
      whose name is not empty. */
  function ClearSegments(s: Storage, segs: seq<string>, gmt: string): (r: Storage)
    requires BackendOf(s.flags) == CookieBackend
    ensures r.flags == s.flags && r.local == s.local && r.jar.text == s.jar.text
    ensures r.jar.writes == s.jar.writes + ExpiryWrites(ClearTargets(segs), gmt)
    decreases |segs|
  {
    if |segs| == 0 then s
    else
      var next := ClearNext(s, segs[0], gmt);
      ClearStep(s, segs, gmt);
      var r := ClearSegments(next, segs[1..], gmt);
      var head := ExpiryWrites(ClearHead(segs[0]), gmt);
      var tail := ExpiryWrites(ClearTargets(segs[1..]), gmt);
      ExpiryWritesAppend(ClearHead(segs[0]), ClearTargets(segs[1..]), gmt);
      Associative(s.jar.writes, head, tail);
      r
  }

  /** The state after `clear()` handles one segment. */
  function ClearNext(s: Storage, seg: string, gmt: string): Storage
  {
    var key := ClearKey(seg);
    if key != "" then Remove(s, key, gmt).after else s
  }

  /** The name `clear()` removes for one segment, if any. */
  function ClearHead(seg: string): (r: seq<string>)
    ensures |r| <= 1 && "" !in r
  {
    if ClearKey(seg) != "" then [ClearKey(seg)] else []
  }

  /** The names `clear()` removes, one per segment with a non-empty name. */
  function ClearTargets(segs: seq<string>): (r: seq<string>)
    ensures |r| <= |segs| && "" !in r
  {
    if |segs| == 0 then []
    else ClearHead(segs[0]) + ClearTargets(segs[1..])
  }

  /** The cookie writes of `remove(key)` for each key in turn. */
  function ExpiryWrites(keys: seq<string>, gmt: string): (r: seq<string>)
    ensures |r| == |keys|
  {
    seq(|keys|, i requires 0 <= i < |keys| => RemovalWrite(keys[i], gmt))
  }

  /** The string `remove(key)` assigns in cookie mode. */
  function RemovalWrite(key: string, gmt: string): string
  {
    ExpireWrite(Uri.EncodeURIComponent(key), gmt)
  }

  /** The assignment that expires the cookie called `name`: the encoded JSON
      text of the empty string with an expiry seven days back. */
  function ExpireWrite(name: string, gmt: string): string
  {
    Cookies.Write(name, EmptyStringValue, Cookies.Days(-7), gmt)
  }

  /** `encodeURIComponent(JSON.stringify(''))`. */
  const EmptyStringValue: string := "%22%22"

  /** `clear()`: empties the local store, or expires every named cookie. */
  function Clear(s: Storage, gmt: string): (r: Step<bool>)
    ensures r.result.Throws? <==> BackendOf(s.flags) == NoBackend
    ensures r.result.Throws? ==> r.result.error == ReferenceError && r.after == s
    ensures r.result.Ok? ==> r.result.value && r.after.flags == s.flags
    ensures BackendOf(s.flags) == LocalBackend ==>
              r.after.jar == s.jar && r.after.local.items == map[] && |r.after.local.order| == 0
    ensures BackendOf(s.flags) == CookieBackend ==>
              r.after.local == s.local && r.after.jar.text == s.jar.text &&
              r.after.jar.writes == s.jar.writes + ExpiryWrites(ClearTargets(Split(s.jar.text, ';')), gmt)
  {
    match BackendOf(s.flags)
    case LocalBackend => Step(Ok(true), s.(local := LocalStore.Empty()))
    case CookieBackend => Step(Ok(true), ClearSegments(s, Split(s.jar.text, ';'), gmt))
    case NoBackend => Step(Throws(ReferenceError), s)
  }

  // ---------------------------------------------------------------------------
  // Corrected operations

  /** `get` as the callers expect it: the text `undefined`, which `set` stores
      for an `undefined` value, reads back as `undefined` instead of making
      `JSON.parse` throw. */
  function GetIntended(s: Storage, key: string): (r: Outcome<Json.JsValue>)
    requires CookieReadable(s, key)
    ensures r == Throws(ReferenceError) <==> BackendOf(s.flags) == NoBackend
    ensures BackendOf(s.flags) == LocalBackend && Uri.EncodeURIComponent(key) !in s.local.items ==>
              r == Ok(Json.Undefined)
  {
    var encodedKey := Uri.EncodeURIComponent(key);
    match BackendOf(s.flags)
    case LocalBackend =>
      (match LocalStore.GetItem(s.local, encodedKey)
       case None => Ok(Json.Undefined)
       case Some(raw) => ReadBackIntended(raw))
    case CookieBackend =>
      (match Cookies.Match(s.jar.text, encodedKey)
       case None => Ok(Json.Undefined)
       case Some(raw) => ReadBackIntended(raw))
    case NoBackend => Throws(ReferenceError)
  }

  /** `ReadBack` with the stored text `undefined` taken as `undefined`. */
  function ReadBackIntended(raw: string): (r: Outcome<Json.JsValue>)
    ensures r.Throws? ==> r.error == URIError || r.error == SyntaxError
    ensures Uri.DecodeURIComponent(raw) == Ok(UndefinedText) ==> r == Ok(Json.Undefined)
  {
    var text :- Uri.DecodeURIComponent(raw);
    if text == UndefinedText then Ok(Json.Undefined)
    else
      var v :- Json.Parse(text);
      Ok(Json.Defined(v))
  }

  /** `remove` as `set` stores: the local entry deleted is the one under the
      encoded key. The cookie branch is the source's. */
  function RemoveIntended(s: Storage, key: string, gmt: string): (r: Step<bool>)
    ensures r.result.Throws? <==> BackendOf(s.flags) == NoBackend
    ensures BackendOf(s.flags) == LocalBackend ==>
              r.after.jar == s.jar && r.after.local.items == s.local.items - {Uri.EncodeURIComponent(key)}
    ensures BackendOf(s.flags) != LocalBackend ==> r == Remove(s, key, gmt)
  {
    match BackendOf(s.flags)
    case LocalBackend =>
      Step(Ok(true), s.(local := LocalStore.RemoveItem(s.local, Uri.EncodeURIComponent(key))))
    case _ => Remove(s, key, gmt)
  }

  /** The non-empty segment names, in order. */
  function IntendedTargets(segs: seq<string>): (r: seq<string>)
    ensures |r| <= |segs| && "" !in r
  {
    if |segs| == 0 then []
    else (if SegmentName(segs[0]) != "" then [SegmentName(segs[0])] else []) + IntendedTargets(segs[1..])
  }

  function ExpireWrites(names: seq<string>, gmt: string): (r: seq<string>)
    ensures |r| == |names|
  {
    seq(|names|, i requires 0 <= i < |names| => ExpireWrite(names[i], gmt))
  }

  /** `clear` expiring every cookie under the name it is stored under. */
  function ClearIntended(s: Storage, gmt: string): (r: Step<bool>)
    ensures r.result.Throws? <==> BackendOf(s.flags) == NoBackend
    ensures BackendOf(s.flags) == CookieBackend ==>
              r.after.local == s.local && r.after.jar.text == s.jar.text &&
              r.after.jar.writes == s.jar.writes + ExpireWrites(IntendedTargets(Split(s.jar.text, ';')), gmt)
    ensures BackendOf(s.flags) != CookieBackend ==> r == Clear(s, gmt)
  {
    match BackendOf(s.flags)
    case CookieBackend =>
      var names := IntendedTargets(Split(s.jar.text, ';'));
      Step(Ok(true), s.(jar := s.jar.(writes := s.jar.writes + ExpireWrites(names, gmt))))
    case _ => Clear(s, gmt)
  }

  // ---------------------------------------------------------------------------
  // Helpers

  lemma {:induction false} ClearStep(s: Storage, segs: seq<string>, gmt: string)
    requires |segs| > 0 && BackendOf(s.flags) == CookieBackend
    ensures var next := ClearNext(s, segs[0], gmt);
      next.flags == s.flags && next.local == s.local && next.jar.text == s.jar.text &&
      next.jar.writes == s.jar.writes + ExpiryWrites(ClearHead(segs[0]), gmt)
    ensures ClearTargets(segs) == ClearHead(segs[0]) + ClearTargets(segs[1..])
  {
    var key := ClearKey(segs[0]);
    if key != "" {
      RemoveCookieStep(s, key, gmt);
      EncodedEmptyString();
      assert ExpiryWrites([key], gmt) == [RemovalWrite(key, gmt)];
    }
  }

  lemma {:induction false} Associative(a: seq<string>, b: seq<string>, c: seq<string>)
    ensures (a + b) + c == a + (b + c)
  {
  }

  /** In cookie mode `remove(key)` assigns exactly its removal string. */
  lemma {:induction false} RemoveCookieStep(s: Storage, key: string, gmt: string)
    requires BackendOf(s.flags) == CookieBackend
    ensures Remove(s, key, gmt).after == s.(jar := Cookies.Assign(s.jar, RemovalWrite(key, gmt)))
  {
    EncodedEmptyString();
  }

  lemma {:induction false} EncodedEmptyString()
    ensures EncodedValue(Json.Defined(Json.Str(""))) == EmptyStringValue
  {
  }

  lemma {:induction false} BeforeIsPrefixName(seg: string, name: string)
    requires name <= seg && '=' !in name && (|name| < |seg| ==> seg[|name|] == '=')
    ensures name == Before(seg, '=')
  {
    if |name| > 0 {
      assert name[0] == seg[0];
      assert name[0] in name;
      BeforeIsPrefixName(seg[1..], name[1..]);
      assert name == [name[0]] + name[1..];
    }
  }

  lemma {:induction false} ExpiryWritesAppend(a: seq<string>, b: seq<string>, gmt: string)
    ensures ExpiryWrites(a + b, gmt) == ExpiryWrites(a, gmt) + ExpiryWrites(b, gmt)
  {
    var l := ExpiryWrites(a + b, gmt);
    var r := ExpiryWrites(a, gmt) + ExpiryWrites(b, gmt);
    assert |l| == |r|;
    forall i | 0 <= i < |l| ensures l[i] == r[i] {
      if i < |a| {
        assert (a + b)[i] == a[i];
      } else {
        assert (a + b)[i] == b[i - |a|];
      }
    }
  }
}
