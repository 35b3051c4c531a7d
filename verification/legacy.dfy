/** The older `BrowserStorage` class of BrowserStorage.js. It routes calls the
    same way as `Browser_Storage`, but it stores keys and values as given,
    never throws for a missing backend (it answers `false`, or `"null"` for
    `get`), and `get` returns the stored string passed through
    `encodeURIComponent`. In cookie mode `set` names the cookie after the
    page's global `name` rather than after the key. */
module Legacy {
  import opened Outcomes
  import opened Text
  import Uri
  import LocalStore
  import Cookies
  import Facade

  type Storage = Facade.Storage
  type Step = Facade.Step<bool>

  // ---------------------------------------------------------------------------
  // Support flags

  /** The name the local probe writes, reads and removes. */
  const ProbeKey: string := "test"

  /** `String(true)`, the value the local probe stores. */
  const ProbeValue: string := "true"

  /** The result of `supportsLocalStorage()`: `true` when `setItem`, `getItem`
      and `removeItem` all complete; any error is caught and gives `false`. */
  function ProbeLocalStorage(setItem: HostCall, getItem: HostCall, removeItem: HostCall): (r: bool)
    ensures r <==> setItem.Done? && getItem.Done? && removeItem.Done?
    ensures setItem.Fails? ==> !r
  {
    match setItem
    case Fails(_) => false
    case Done =>
      match getItem
      case Fails(_) => false
      case Done => removeItem.Done?
  }

  /** What the probe does to the local store. The calls after the first
      that throws are skipped, so a failed `getItem` or `removeItem` leaves
      `test` holding `"true"`; a `test` the page had stored itself is
      overwritten either way. */
  function ProbeEffect(st: LocalStore.Store, setItem: HostCall, getItem: HostCall, removeItem: HostCall)
    : (r: LocalStore.Store)
    ensures r.items - {ProbeKey} == st.items - {ProbeKey}
    ensures ProbeLocalStorage(setItem, getItem, removeItem) ==> ProbeKey !in r.items
    ensures setItem.Done? && !ProbeLocalStorage(setItem, getItem, removeItem) ==>
              LocalStore.GetItem(r, ProbeKey) == Some(ProbeValue)
    ensures setItem.Fails? ==> r == st
  {
    match setItem
    case Fails(_) => st
    case Done =>
      var afterSet := LocalStore.SetItem(st, ProbeKey, ProbeValue);
      match getItem
      case Fails(_) => afterSet
      case Done =>
        if removeItem.Done? then LocalStore.RemoveItem(afterSet, ProbeKey) else afterSet
  }

  /** `new BrowserStorage()`, given the probe results in the order the
      constructor takes them. The local probe catches every error, so it
      always returns; `supportsCookies()` can throw, from the read of
      `navigator.cookieEnabled` or from the read of `document.cookie` in its
      `finally` block, and its error then escapes the constructor. */
  function Construct(supportsLocalStorage: bool, cookieProbe: Outcome<bool>): (r: Outcome<Facade.Flags>)
    ensures r.Ok? <==> cookieProbe.Ok?
    ensures r.Ok? ==> Facade.Consistent(r.value) &&
                      r.value.supportsLocalStorage == supportsLocalStorage &&
                      r.value.supportsCookies == cookieProbe.value
    ensures r.Throws? ==> r.error == cookieProbe.error
  {
    var cookies :- cookieProbe;
    Ok(Facade.Flags(supportsLocalStorage, cookies, if cookies || supportsLocalStorage then true else false))
  }

  /** `constructorRefresh()` on flags `f`: the three assignments run one after
      another, so a cookie probe that throws leaves `supports_local_storage`
      already updated and the other two flags as they were. Returns the new
      flags and how the call completed. */
  function Refresh(f: Facade.Flags, supportsLocalStorage: bool, cookieProbe: Outcome<bool>)
    : (r: (Facade.Flags, HostCall))
    ensures r.1.Done? <==> cookieProbe.Ok?
    ensures r.1.Done? ==> Facade.Consistent(r.0) && r.0.supportsCookies == cookieProbe.value
    ensures r.0.supportsLocalStorage == supportsLocalStorage
    ensures r.1.Fails? ==> r.1.error == cookieProbe.error &&
                           r.0.supportsCookies == f.supportsCookies &&
                           r.0.storageAvailable == f.storageAvailable
  {
    var f1 := f.(supportsLocalStorage := supportsLocalStorage);
    match cookieProbe
    case Throws(e) => (f1, Fails(e))
    case Ok(cookies) =>
      (f1.(supportsCookies := cookies, storageAvailable := if cookies || supportsLocalStorage then true else false),
       Done)
  }

  /** A refresh completes exactly when a construction would, and then it
      forgets the previous flags entirely. */
  lemma {:induction false} RefreshIsConstruct(f: Facade.Flags, supportsLocalStorage: bool, cookieProbe: Outcome<bool>)
    ensures Refresh(f, supportsLocalStorage, cookieProbe).1.Done? <==> Construct(supportsLocalStorage, cookieProbe).Ok?
    ensures Construct(supportsLocalStorage, cookieProbe).Ok? ==>
              Refresh(f, supportsLocalStorage, cookieProbe).0 == Construct(supportsLocalStorage, cookieProbe).value
  {
  }

  /** A refresh whose cookie probe throws after local storage went away
      leaves `storage_available` true beside two false support flags. */
  lemma {:induction false} RefreshCanLeaveStaleAvailability()
    ensures var r := Refresh(Facade.Flags(true, false, true), false, Throws(OtherError));
            r.1 == Fails(OtherError) && !r.0.supportsLocalStorage && !r.0.supportsCookies &&
            !Facade.Consistent(r.0)
  {
  }

  /** The cookie `supportsCookies()` assigns and looks for. */
  const TestCookie: string := "testcookie"

  /** What `supportsCookies()` does to the storage. With a truthy
      `navigator.cookieEnabled` it returns at once and changes nothing.
      Otherwise it assigns `testcookie` (recorded when the assignment
      completes), and when the cookie text its `finally` block reads holds
      `testcookie` (`found`; false when that read throws) it calls this
      instance's own `remove('testcookie')`. That call goes to whichever
      backend the flags of the moment pick: `s.flags` holds the new
      `supports_local_storage` beside the `supports_cookies` of before. */
  function CookieProbeEffect(s: Storage, cookieEnabled: bool, assign: HostCall, found: bool,
                             gmt: string, globalName: string): (r: Storage)
    ensures r.flags == s.flags && r.jar.text == s.jar.text
    ensures cookieEnabled ==> r == s
    ensures !cookieEnabled && found && Facade.BackendOf(s.flags) == Facade.LocalBackend ==>
              r.local.items == s.local.items - {TestCookie}
    ensures cookieEnabled || !found || Facade.BackendOf(s.flags) != Facade.LocalBackend ==> r.local == s.local
    ensures r.jar.writes ==
              s.jar.writes + (if !cookieEnabled && assign.Done? then [TestCookie] else []) +
              (if !cookieEnabled && found && Facade.BackendOf(s.flags) == Facade.CookieBackend
               then [ClearWrite(gmt, globalName)] else [])
  {
    if cookieEnabled then s
    else
      var s1 := if assign.Done? then s.(jar := Cookies.Assign(s.jar, TestCookie)) else s;
      if found then Remove(s1, TestCookie, gmt, globalName).after else s1
  }

  /** While the constructor runs, `supports_cookies` is not yet assigned, so
      the probe's `remove` reaches the local store or nothing: the only cookie
      it can assign is the test cookie itself. */
  lemma {:induction false} ConstructorProbeWritesOnlyTestCookie(st: LocalStore.Store, jar: Cookies.Jar,
                                                               supportsLocalStorage: bool, assign: HostCall,
                                                               found: bool, gmt: string, globalName: string)
    ensures var r := CookieProbeEffect(Facade.Storage(Facade.Flags(supportsLocalStorage, false, false), st, jar),
                                       false, assign, found, gmt, globalName);
            r.jar.writes == jar.writes + (if assign.Done? then [TestCookie] else []) &&
            (found && supportsLocalStorage ==> r.local.items == st.items - {TestCookie}) &&
            (!found || !supportsLocalStorage ==> r.local == st)
  {
  }

  /** With local storage supported and `navigator.cookieEnabled` falsy, a
      probe that finds its cookie deletes the page's own `testcookie` entry
      from the local store, and no cookie is removed. */
  lemma {:induction false} CookieProbeErasesLocalEntry(s: Storage, value: string, assign: HostCall,
                                                      gmt: string, globalName: string)
    requires s.flags.supportsLocalStorage
    ensures var before := s.(local := LocalStore.SetItem(s.local, TestCookie, value));
            var r := CookieProbeEffect(before, false, assign, true, gmt, globalName);
            LocalStore.GetItem(r.local, TestCookie) == None &&
            r.jar.writes == s.jar.writes + (if assign.Done? then [TestCookie] else [])
  {
  }

  /** A refresh after local storage went away, on an instance that had
      cookies, makes the probe's `remove` assign a clearing cookie named after
      the global `name`, not `testcookie`. */
  lemma {:induction false} RefreshProbeClearsGlobalName(f: Facade.Flags, st: LocalStore.Store, jar: Cookies.Jar,
                                                       gmt: string, globalName: string)
    requires f.supportsCookies
    ensures var s := Facade.Storage(f.(supportsLocalStorage := false), st, jar);
            var r := CookieProbeEffect(s, false, Done, true, gmt, globalName);
            r.local == st && r.jar.writes == jar.writes + [TestCookie, ClearWrite(gmt, globalName)]
  {
  }

  /** A successful probe leaves no `test` key, even one the page had stored. */
  lemma {:induction false} ProbeErasesTestKey(st: LocalStore.Store, value: string)
    ensures var before := LocalStore.SetItem(st, ProbeKey, value);
      ProbeEffect(before, Done, Done, Done).items == st.items - {ProbeKey}
  {
  }

  // ---------------------------------------------------------------------------
  // The four operations

  /** `String(value)` for what a backend lookup gives: the string, or
      `"null"`. */
  function AsString(value: Option<string>): (r: string)
    ensures value.Some? ==> r == value.value
  {
    match value
    case Some(v) => v
    case None => NullText
  }

  /** `String(null)`. */
  const NullText: string := "null"

  /** The cookie read needs a key the regular expression takes literally;
      the key is used as given. */
  predicate CookieReadable(s: Storage, key: string)
  {
    Facade.BackendOf(s.flags) == Facade.CookieBackend ==> Cookies.RegexPlain(key)
  }

  /** `get(key)`: the string stored under `key`, or `"null"`, passed through
      `encodeURIComponent`. */
  function Get(s: Storage, key: string): (r: string)
    requires CookieReadable(s, key)
    ensures Facade.BackendOf(s.flags) == Facade.LocalBackend ==>
              r == Uri.EncodeURIComponent(AsString(LocalStore.GetItem(s.local, key)))
    ensures Facade.BackendOf(s.flags) == Facade.CookieBackend ==>
              r == Uri.EncodeURIComponent(AsString(Cookies.Match(s.jar.text, key)))
    ensures Facade.BackendOf(s.flags) == Facade.NoBackend ==> r == Uri.EncodeURIComponent(NullText)
    ensures forall i :: 0 <= i < |r| ==> Uri.IsEncodedChar(r[i])
  {
    var value :=
      match Facade.BackendOf(s.flags)
      case LocalBackend => LocalStore.GetItem(s.local, key)
      case CookieBackend => Cookies.Match(s.jar.text, key)
      case NoBackend => None;
    Uri.EncodeURIComponent(AsString(value))
  }

  /** `set(key, value, days_to_live)`: stores `value` under `key` in the
      local store, or assigns one cookie named after the page's global
      `name` (`globalName`); `gmt` is the host's rendering of the expiry
      date. */
  function Set(s: Storage, key: string, value: string, days: Cookies.DaysToLive, gmt: string,
               globalName: string): (r: Step)
    ensures r.result == Ok(Facade.BackendOf(s.flags) != Facade.NoBackend)
    ensures r.after.flags == s.flags
    ensures Facade.BackendOf(s.flags) == Facade.LocalBackend ==>
              r.after.jar == s.jar && r.after.local.items == s.local.items[key := value]
    ensures Facade.BackendOf(s.flags) == Facade.CookieBackend ==>
              r.after.local == s.local && r.after.jar.text == s.jar.text &&
              r.after.jar.writes == s.jar.writes + [Cookies.Write(globalName, value, days, gmt)]
    ensures Facade.BackendOf(s.flags) == Facade.NoBackend ==> r.after == s
  {
    match Facade.BackendOf(s.flags)
    case LocalBackend => Facade.Step(Ok(true), s.(local := LocalStore.SetItem(s.local, key, value)))
    case CookieBackend =>
      Facade.Step(Ok(true), s.(jar := Cookies.Assign(s.jar, Cookies.Write(globalName, value, days, gmt))))
    case NoBackend => Facade.Step(Ok(false), s)
  }

  /** `remove(key)`: deletes `key` from the local store, or calls
      `set(key, '', -7)`. */
  function Remove(s: Storage, key: string, gmt: string, globalName: string): (r: Step)
    ensures r.result == Ok(Facade.BackendOf(s.flags) != Facade.NoBackend)
    ensures r.after.flags == s.flags
    ensures Facade.BackendOf(s.flags) == Facade.LocalBackend ==>
              r.after.jar == s.jar && r.after.local.items == s.local.items - {key}
    ensures Facade.BackendOf(s.flags) == Facade.CookieBackend ==>
              r == Set(s, key, "", Cookies.Days(-7), gmt, globalName)
    ensures Facade.BackendOf(s.flags) == Facade.NoBackend ==> r.after == s
  {
    match Facade.BackendOf(s.flags)
    case LocalBackend => Facade.Step(Ok(true), s.(local := LocalStore.RemoveItem(s.local, key)))
    case CookieBackend => Set(s, key, "", Cookies.Days(-7), gmt, globalName)
    case NoBackend => Facade.Step(Ok(false), s)
  }

  /** The cookie branch of `clear()`: `remove` for every segment, in order,
      with the segment's name trimmed and encoded; the name is always a
      string, so the loop never stops early. */
  function ClearSegments(s: Storage, segs: seq<string>, gmt: string, globalName: string): (r: Storage)
    requires Facade.BackendOf(s.flags) == Facade.CookieBackend
    ensures r.flags == s.flags && r.local == s.local && r.jar.text == s.jar.text
    ensures r.jar.writes == s.jar.writes + ClearWrites(|segs|, gmt, globalName)
    decreases |segs|
  {
    if |segs| == 0 then s
    else
      var next := Remove(s, Facade.ClearKey(segs[0]), gmt, globalName).after;
      RemoveCookieStep(s, Facade.ClearKey(segs[0]), gmt, globalName);
      var r := ClearSegments(next, segs[1..], gmt, globalName);
      ClearWritesCons(|segs|, gmt, globalName);
      Facade.Associative(s.jar.writes, [ClearWrite(gmt, globalName)], ClearWrites(|segs| - 1, gmt, globalName));
      r
  }

  /** `n` copies of the clear string. */
  function ClearWrites(n: nat, gmt: string, globalName: string): (r: seq<string>)
    ensures |r| == n
  {
    seq(n, i requires 0 <= i < n => ClearWrite(gmt, globalName))
  }

  lemma {:induction false} ClearWritesCons(n: nat, gmt: string, globalName: string)
    requires n > 0
    ensures ClearWrites(n, gmt, globalName) == [ClearWrite(gmt, globalName)] + ClearWrites(n - 1, gmt, globalName)
  {
  }

  /** The string every `remove` of `clear()` assigns: the global `name`
      with an empty value, expiring seven days back. */
  function ClearWrite(gmt: string, globalName: string): string
  {
    Cookies.Write(globalName, "", Cookies.Days(-7), gmt)
  }

  /** `clear()`: empties the local store, or expires one cookie per segment. */
  function Clear(s: Storage, gmt: string, globalName: string): (r: Step)
    ensures r.result == Ok(Facade.BackendOf(s.flags) != Facade.NoBackend)
    ensures r.after.flags == s.flags
    ensures Facade.BackendOf(s.flags) == Facade.LocalBackend ==>
              r.after.jar == s.jar && r.after.local == LocalStore.Empty()
    ensures Facade.BackendOf(s.flags) == Facade.CookieBackend ==>
              r.after.local == s.local && r.after.jar.text == s.jar.text &&
              r.after.jar.writes == s.jar.writes + ClearWrites(|Split(s.jar.text, ';')|, gmt, globalName)
    ensures Facade.BackendOf(s.flags) == Facade.NoBackend ==> r.after == s
  {
    match Facade.BackendOf(s.flags)
    case LocalBackend => Facade.Step(Ok(true), s.(local := LocalStore.Empty()))
    case CookieBackend => Facade.Step(Ok(true), ClearSegments(s, Split(s.jar.text, ';'), gmt, globalName))
    case NoBackend => Facade.Step(Ok(false), s)
  }

  /** In cookie mode `remove(key)` assigns the clear string, whatever the key. */
  lemma {:induction false} RemoveCookieStep(s: Storage, key: string, gmt: string, globalName: string)
    requires Facade.BackendOf(s.flags) == Facade.CookieBackend
    ensures Remove(s, key, gmt, globalName).after == s.(jar := Cookies.Assign(s.jar, ClearWrite(gmt, globalName)))
  {
  }

  // ---------------------------------------------------------------------------
  // Corrected cookie write

  /** `set` naming the cookie after `key`, as its documentation says. */
  function SetIntended(s: Storage, key: string, value: string, days: Cookies.DaysToLive, gmt: string)
    : (r: Step)
    ensures Facade.BackendOf(s.flags) == Facade.CookieBackend ==>
              r.after.local == s.local && r.after.jar.text == s.jar.text &&
              r.after.jar.writes == s.jar.writes + [Cookies.Write(key, value, days, gmt)]
    ensures Facade.BackendOf(s.flags) != Facade.CookieBackend ==> r == Set(s, key, value, days, gmt, key)
  {
    Set(s, key, value, days, gmt, key)
  }
}
