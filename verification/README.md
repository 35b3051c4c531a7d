# browser-storage, modelled in Dafny

The repository offers two versions of one small JavaScript class that keeps
a page's settings in the browser.

- `Browser_Storage` (browser-storage.js) probes once for `localStorage` and
  for cookies. It then sends `get`, `set`, `remove`, `keys` and `clear` to
  the local store when that is supported, and to `document.cookie`
  otherwise. With neither backend it throws `ReferenceError`. Values are
  stored as `encodeURIComponent(JSON.stringify(value))`, under
  `encodeURIComponent(key)`.
- `BrowserStorage` (BrowserStorage.js) is the older version. It routes
  calls the same way, but it keeps keys and values as given. With no
  backend it answers `false` instead of throwing. Its `get` returns the
  stored string passed through `encodeURIComponent`.

The model has these modules:

| module | file | what it is |
|---|---|---|
| `Outcomes` | outcomes.dfy | JavaScript completions: a value or a thrown error class, and host calls that complete or throw |
| `Text` | text.dfy | `String.prototype.split` on one character, the text before a delimiter, and trimming of JavaScript whitespace |
| `Uri` | uri.dfy | `encodeURIComponent` and `decodeURIComponent` over UTF-8 |
| `Json` | json.dfy | `JSON.stringify` and `JSON.parse` on integers, strings, arrays and objects |
| `LocalStore` | local_store.dfy | the host's `localStorage`: a map plus the order keys were created in |
| `Cookies` | cookies.dfy | the regular-expression read of `document.cookie`, how a host lists cookies as `name=value` pairs, and the strings a write assigns |
| `Facade`, `FacadeLaws` | facade.dfy, facade_laws.dfy | `Browser_Storage` and the properties that relate its calls |
| `Legacy`, `LegacyLaws` | legacy.dfy, legacy_laws.dfy | `BrowserStorage` and the properties that relate its calls |

Both classes share `Facade.Storage`, which holds the three support flags,
the local store and a cookie jar. The jar holds the text a read of
`document.cookie` returns, plus the list of strings assigned to it so far.
What a browser does with an assignment is not modelled. Lemmas that read
back what was written therefore state the cookie text the host returns as
a list of pairs.

A few behaviours of the code are easy to miss, and the model keeps them:

- `Browser_Storage`'s `get`, `set`, `remove`, `keys` and `clear` throw
  `ReferenceError` when no backend is supported (browser-storage.js:115,
  134, 169, 189, 210); the older class answers `false` or `"null"` instead.
- `Browser_Storage`'s cookie `clear()` encodes each cookie name before it
  hands the name to `remove`, which encodes it again (browser-storage.js:204).
- `BrowserStorage`'s cookie `clear()` assigns one clearing cookie for every
  segment of the cookie string, including empty ones (BrowserStorage.js:157-168).

## Model

| member | source | states |
|---|---|---|
| Facade.ProbeLocalStorage | browser-storage.js:59-71 | the probe is true exactly when `setItem` and the `finally` block's `removeItem` both complete; it is false exactly when `setItem` throws `ReferenceError` and the removal completes; any other `setItem` error is rethrown; an error from `removeItem` replaces every other outcome |
| Facade.ProbeEffect | browser-storage.js:62-69 | the probe changes no key but `test_key`; a completed removal leaves `test_key` absent, even if the page had stored it; a failed removal after a completed write leaves `"true"` there |
| Facade.Construct | browser-storage.js:38-42 | construction succeeds exactly when both probes return; `storage_available` is then the disjunction of the two flags; otherwise the first probe's error propagates |
| Facade.Refresh | browser-storage.js:49-53 | a refresh completes exactly when both probes return, and then leaves consistent flags; a throwing local probe leaves the flags as they were; a throwing cookie probe keeps the old cookie and availability flags |
| Facade.RefreshAgreesWithConstruct | browser-storage.js:38-53 | a completed refresh leaves exactly the flags a fresh construction would, whatever the flags were before |
| Facade.RefreshCanLeaveStaleAvailability | browser-storage.js:49-53 | a refresh whose cookie probe throws after local storage turned up leaves `supports_local_storage` true next to a false `storage_available` |
| Facade.BackendOf | browser-storage.js:105-115 | the local store is used exactly when it is supported; cookies are used exactly when local storage is not supported and cookies are; `storage_available` plays no part |
| Facade.ReadBack | browser-storage.js:108 | a stored string never reads back as `undefined`, and fails only with `URIError` or `SyntaxError` |
| Facade.Get | browser-storage.js:102-116 | `get` throws `ReferenceError` exactly when no backend is supported; a local read gives `undefined` exactly when the encoded key is absent; a cookie read gives `undefined` exactly when no segment matches the encoded key |
| Facade.Set | browser-storage.js:146-170 | with no backend `set` throws `ReferenceError` and changes nothing; otherwise it returns true; a local write stores the encoded value under the encoded key and leaves the cookies alone; a cookie write leaves the local store alone and assigns one string: encoded key, `=`, encoded value, optional expiry, `; path=/` |
| Facade.Remove | browser-storage.js:124-135 | with no backend `remove` throws `ReferenceError`; a local remove deletes the key as given; a cookie remove is exactly `set(key, '', -7)` |
| Facade.Keys | browser-storage.js:178-190 | with no backend `keys` throws `ReferenceError`; local keys are exactly the stored keys that no property of `Storage.prototype` or `Object.prototype` shadows; cookie keys are one per `;`-separated segment, each the untrimmed text before the segment's first `=` |
| Facade.ClearTargets | browser-storage.js:203-205 | the names `clear()` removes: at most one per segment, never the empty name |
| Facade.ClearSegments | browser-storage.js:203-206 | the cookie loop of `clear()` assigns, in order, the string of `remove(name)` for each target name and changes nothing else |
| Facade.Clear | browser-storage.js:198-211 | with no backend `clear` throws `ReferenceError`; the local store is emptied; in cookie mode one removal is assigned per named segment |
| Facade.GetIntended | browser-storage.js:102-116 | the corrected `get`: it throws `ReferenceError` exactly when no backend is supported, and an absent local key reads as `undefined` |
| Facade.ReadBackIntended | browser-storage.js:108 | the corrected read-back turns the stored text `undefined` into `undefined` and otherwise fails only as the built-ins do |
| Facade.RemoveIntended | browser-storage.js:124-127 | the corrected local remove deletes the entry under the encoded key, where `set` stored it; the other branches are the source's |
| Facade.IntendedTargets | browser-storage.js:203-205 | the corrected clear targets: the non-empty trimmed segment names, never encoded again |
| Facade.ClearIntended | browser-storage.js:198-211 | the corrected `clear` expires each named cookie under its own name; the other branches are the source's |
| FacadeLaws.NoBackendThrows | browser-storage.js:115 | with neither backend, all five calls throw `ReferenceError` and change nothing |
| FacadeLaws.LocalIgnoresCookies | browser-storage.js:105-109 | with local storage supported, no call reads or writes the cookie jar, whatever `supports_cookies` says |
| FacadeLaws.SetThenGet | browser-storage.js:146-151 | in local mode, `get(k)` after `set(k, v)` gives back `v` for every JSON value |
| FacadeLaws.ReadBackEncoded | browser-storage.js:148 | the stored form of a JSON value reads back as that value, under both the source's and the corrected read-back |
| FacadeLaws.SetKeepsOtherKeys | browser-storage.js:147-151 | `set(k, ...)` leaves what every other key reads unchanged, since encoding is injective |
| FacadeLaws.SetUndefinedThenGetThrows | browser-storage.js:148 | `set(k, undefined)` stores the text `undefined`, so a later `get(k)` throws `SyntaxError` |
| FacadeLaws.UndefinedStoredAsIs | browser-storage.js:148 | `undefined` is stored as the plain text `undefined`, and decoding leaves it unchanged |
| FacadeLaws.SetThenGetIntended | browser-storage.js:146-151 | with the corrected `get`, every value `set` stores reads back, `undefined` included |
| FacadeLaws.GetIntendedAgrees | browser-storage.js:102-112 | wherever the source's `get` returns a value, the corrected `get` returns the same value |
| FacadeLaws.ReadBackAgrees | browser-storage.js:108 | the corrected read-back agrees with the source's wherever the source returns |
| FacadeLaws.CookieGet | browser-storage.js:109-112 | in cookie mode, a cookie string whose first pair named by the encoded key holds the stored form of `v` reads back as `v` |
| FacadeLaws.CookieGetAbsent | browser-storage.js:110-111 | a cookie string with no pair named by the encoded key reads as `undefined` |
| FacadeLaws.CookieSetWritesOnePair | browser-storage.js:153-165 | a cookie `set` assigns one string; its first segment is the encoded key, `=` and the encoded value, and the segment scan reads that value back; two or three segments follow from whether an expiry is written |
| FacadeLaws.CookieSetWithoutExpiry | browser-storage.js:154-165 | without a truthy `days_to_live`, the string written is exactly the pair followed by `; path=/` |
| FacadeLaws.CookieSetThenGet | browser-storage.js:110-165 | once the host lists the written pair first, `get` reads back the value `set` wrote |
| FacadeLaws.RemoveUndoesSetIff | browser-storage.js:124-151 | in local mode, `remove(k)` after `set(k, v)` restores the previous state exactly when encoding leaves `k` unchanged |
| FacadeLaws.RemoveAfterSetLocal | browser-storage.js:124-151 | in local mode, `remove(k)` after `set(k, v)` changes only the local store: it writes under the encoded key and deletes the raw one |
| FacadeLaws.LocalSetStep | browser-storage.js:150-152 | a local `set` changes the local store alone |
| FacadeLaws.LocalRemoveStep | browser-storage.js:125-127 | a local `remove` changes the local store alone |
| FacadeLaws.RemoveMissesEncodedKey | browser-storage.js:126 | for a key with a character outside the unreserved set, `get(k)` still returns `v` after `set(k, v)` and then `remove(k)` |
| FacadeLaws.RemoveIntendedUndoesSet | browser-storage.js:124-151 | the corrected `remove` undoes `set` for every key, and the key then reads as `undefined` |
| FacadeLaws.CookieRemoveExpires | browser-storage.js:131 | a cookie `remove(k)` assigns the encoded key, `=%22%22`, an expiry and `; path=/` |
| FacadeLaws.KeysAfterSet | browser-storage.js:178-180 | in local mode, a key that was set is listed by `keys()` in encoded form exactly when that form is not the name of a prototype property such as `length` |
| FacadeLaws.KeysOfNoCookies | browser-storage.js:183-185 | an empty cookie string lists one empty name |
| FacadeLaws.KeysOfCookieText | browser-storage.js:183-185 | for a cookie string of pairs, `keys()` lists each pair's name in order; every name but the first keeps the leading space of its `"; "` |
| FacadeLaws.ClearLocalEmpties | browser-storage.js:199-201 | after a local `clear()`, `keys()` is empty and every key reads as `undefined` |
| FacadeLaws.SegmentNamesOfPairs | browser-storage.js:204 | each segment of a cookie string of encoded pairs is named, once trimmed, by its own pair |
| FacadeLaws.SegmentNameAt | browser-storage.js:204 | trimming the text before `=` in one segment gives that pair's name |
| FacadeLaws.AllNamedTail | browser-storage.js:203-205 | if every segment has a name, every later segment has one too |
| FacadeLaws.IntendedTargetsAllNamed | browser-storage.js:203-205 | when every segment has a name, the corrected targets are exactly those names, in order |
| FacadeLaws.ClearTargetsAllNamed | browser-storage.js:203-205 | when every segment has a name, the source's targets are exactly those names encoded, in order |
| FacadeLaws.ClearTargetsOfPairs | browser-storage.js:203-205 | for a cookie string of encoded pairs, the source's targets are the pair names encoded again |
| FacadeLaws.ClearWritesOfPairs | browser-storage.js:203-206 | for a cookie string of encoded pairs, the source's `clear()` expires each pair's name encoded twice more |
| FacadeLaws.ClearExpiresReencodedNames | browser-storage.js:198-206 | the source's `clear()` writes one expiry per pair, in order, under the name encoded twice more; that name differs from the stored one whenever the stored one holds `%` |
| FacadeLaws.IntendedWritesOfPairs | browser-storage.js:203-206 | for a cookie string of encoded pairs, the corrected `clear()` expires exactly each pair's name |
| FacadeLaws.ClearIntendedExpiresEveryPair | browser-storage.js:198-206 | the corrected `clear()` writes one expiry per pair, in order, under exactly that pair's name |
| Cookies.SegmentValue | browser-storage.js:110 | one segment matches ` ?KEY=` exactly when it starts with the key (with or without one leading space) followed by `=`; the value is the rest of the segment |
| Cookies.FirstMatch | browser-storage.js:110 | the scan finds nothing exactly when no segment matches; otherwise it returns the value of the first segment that matches |
| Cookies.Match | browser-storage.js:110 | a value read from the cookie string never holds `;` |
| Cookies.ReadCookieText | browser-storage.js:110 | for a cookie string of pairs, the regular-expression read returns the value of the first pair with the key's name, or nothing |
| Cookies.SegmentNames | browser-storage.js:183-185 | there is one name per `;`-separated segment, each a prefix of its segment without `=` and followed by `=` when shorter than the segment |
| Cookies.NoCookiesOneName | browser-storage.js:183-185 | an empty cookie string splits into one segment, with the empty name |
| Cookies.NamesOfCookieText | browser-storage.js:183-185 | for a cookie string of pairs, the names are the pair names in order; every name but the first is prefixed by one space |
| Cookies.ExpiryTime | browser-storage.js:155-161 | for a numeric or omitted `days_to_live`, an expiry is computed exactly when it is truthy, and it lies `days_to_live` whole days after now; the branch for zero is never taken |
| Cookies.WriteSegments | browser-storage.js:154-165 | a write splits on `;` into the pair, an expiry segment when `days_to_live` is truthy, and the path segment |
| Cookies.WriteWithoutExpiry | browser-storage.js:154-165 | without a truthy `days_to_live`, the write is the pair and `; path=/` |
| Cookies.WriteWithExpiry | browser-storage.js:154-165 | with a truthy `days_to_live`, the write is the pair, `; expires=`, the date and `; path=/` |
| Cookies.WriteReadsBack | browser-storage.js:165 | the first segment of a write matches its own name and yields its own value |
| Uri.EncodeURIComponent | browser-storage.js:147-148 | every character of an encoding is unreserved, `%` or a hex digit, and the encoding is never shorter than its input |
| Uri.DecodeURIComponent | browser-storage.js:108 | decoding fails only with `URIError`, and text without `%` decodes to itself |
| Uri.DecodeEncode | browser-storage.js:108 | decoding an encoding gives back the original text |
| Uri.EncodeInjective | browser-storage.js:103 | distinct keys have distinct encodings |
| Uri.EncodedHasNoDelimiters | browser-storage.js:165 | an encoding holds no `;`, `=` or space, so it is a single cookie token |
| Uri.EncodeIdentity | browser-storage.js:103 | encoding leaves text unchanged exactly when all its characters are unreserved |
| Uri.EncodeGrows | browser-storage.js:103 | text with any character outside the unreserved set grows by at least two characters when encoded |
| Uri.EncodeTwiceChanges | browser-storage.js:204-205 | such text is never its own double encoding |
| Json.Stringify | browser-storage.js:148 | JSON text is never empty and starts a value |
| Json.Parse | browser-storage.js:108 | parsing fails only with `SyntaxError` |
| Json.ParseStringify | browser-storage.js:148 | parsing the text of a well-formed value gives back that value |
| Json.ParseRejectsNonValue | browser-storage.js:108 | text that starts with no JSON value, such as `undefined`, is rejected with `SyntaxError` |
| LocalStore.RemoveItem | browser-storage.js:126 | a removal forgets exactly that key and its listing |
| LocalStore.Keys | browser-storage.js:180 | for a valid store, `Object.keys(localStorage)` lists exactly the stored keys that no prototype property shadows, as the named property visibility algorithm of Web IDL hides those |
| LocalStore.Empty | browser-storage.js:200 | a cleared store holds and lists nothing |
| LocalStore.GetSetSame | browser-storage.js:151 | a read right after a write returns the value written |
| LocalStore.GetSetOther | browser-storage.js:151 | a write leaves every other key's value as it was |
| LocalStore.GetRemove | browser-storage.js:126 | after a removal the key reads as absent and every other key as before |
| LocalStore.SetItemValid | browser-storage.js:151 | a write keeps every key listed exactly once |
| LocalStore.RemoveItemValid | browser-storage.js:126 | a removal keeps every key listed exactly once |
| LocalStore.RemoveUndoesSet | browser-storage.js:126 | removing a key that was just created gives back the store as it was |
| LocalStore.RemoveOtherKeepsSet | browser-storage.js:126 | removing a different key leaves a value just written in place |
| Text.Split | browser-storage.js:183 | a split has one piece more than the text has delimiters, and no piece holds a delimiter |
| Text.JoinSplit | browser-storage.js:183 | joining the pieces of a split gives back the text |
| Text.Before | browser-storage.js:184 | `split('=')[0]` is the longest prefix without `=` |
| Text.Trim | browser-storage.js:204 | the trimmed text is a slice of the input with only whitespace cut away on either side; it neither starts nor ends with whitespace, and it is empty exactly when the text is all whitespace |
| Text.TrimUnique | browser-storage.js:204 | any slice between whitespace-only margins that neither starts nor ends with whitespace is the trim, so the trim is determined by the text |
| Text.TrimPadded | browser-storage.js:204 | trimming a name that has at most one leading space gives back the name |
| Legacy.ProbeLocalStorage | BrowserStorage.js:41-52 | the probe is true exactly when `setItem`, `getItem` and `removeItem` all complete |
| Legacy.ProbeEffect | BrowserStorage.js:42-47 | the probe changes no key but `test`; a successful probe leaves `test` absent; a probe whose write completed but which failed later leaves `"true"` there; a failed write changes nothing |
| Legacy.ProbeErasesTestKey | BrowserStorage.js:42-47 | a successful probe deletes a `test` value the page had stored itself |
| Legacy.Construct | BrowserStorage.js:31-35 | construction succeeds exactly when `supportsCookies()` returns, and then records both probe results with `storage_available` their disjunction; otherwise the cookie probe's error escapes |
| Legacy.Refresh | BrowserStorage.js:77-81 | a refresh always records the local probe's result; it completes exactly when `supportsCookies()` returns, and then leaves consistent flags; a throwing cookie probe keeps the old cookie and availability flags and its error escapes |
| Legacy.RefreshIsConstruct | BrowserStorage.js:31-81 | a refresh completes exactly when a construction would, and a completed refresh leaves exactly the flags a fresh construction would, whatever the flags were before |
| Legacy.CookieProbeEffect | BrowserStorage.js:58-72 | with a truthy `navigator.cookieEnabled` the cookie probe changes nothing; otherwise it records the `testcookie` assignment when that completes, and when it finds its cookie its `remove('testcookie')` deletes that local entry in local mode or assigns one clearing cookie in cookie mode; the cookie text read and the flags never change |
| Legacy.ConstructorProbeWritesOnlyTestCookie | BrowserStorage.js:31-72 | during construction `supports_cookies` is still unset, so the cookie probe assigns no cookie but its own and its `remove` can reach only the local store |
| Legacy.CookieProbeErasesLocalEntry | BrowserStorage.js:65-67 | in local mode a probe that finds its cookie deletes the page's own `testcookie` entry from the local store and removes no cookie |
| Legacy.RefreshProbeClearsGlobalName | BrowserStorage.js:65-67 | on a refresh after local storage went away, on an instance that had cookies, the probe's `remove` assigns a clearing cookie named after the global `name` |
| Legacy.RefreshCanLeaveStaleAvailability | BrowserStorage.js:77-81 | a refresh whose cookie probe throws after local storage went away leaves `storage_available` true beside two false support flags |
| Legacy.Get | BrowserStorage.js:88-97 | `get` returns the local value under the raw key, or the first cookie value matching the raw key, or `"null"`; in every case the result is passed through `encodeURIComponent`, so it holds only encoded characters |
| Legacy.Set | BrowserStorage.js:125-146 | `set` returns true exactly when a backend is supported; a local write stores the value under the raw key; a cookie write assigns `name=value`, optional expiry and `; path=/`, where `name` is the page's global; with no backend nothing changes |
| Legacy.Remove | BrowserStorage.js:104-115 | `remove` returns true exactly when a backend is supported; a local remove deletes the raw key; a cookie remove is exactly `set(key, '', -7)`; with no backend nothing changes |
| Legacy.ClearSegments | BrowserStorage.js:158-168 | the cookie loop of `clear()` assigns one clear string per segment, empty segments included, and changes nothing else |
| Legacy.ClearWrites | BrowserStorage.js:158-168 | the loop writes as many strings as there are segments |
| Legacy.ClearWritesCons | BrowserStorage.js:159-167 | one more segment means one more clear string, in front |
| Legacy.RemoveCookieStep | BrowserStorage.js:108-112 | a cookie `remove` assigns the same clear string whatever the key |
| Legacy.Clear | BrowserStorage.js:153-171 | `clear` returns true exactly when a backend is supported; the local store is emptied; in cookie mode one clear string is assigned per segment; with no backend nothing changes |
| Legacy.SetIntended | BrowserStorage.js:125-146 | the corrected `set` names its cookie after the key; otherwise it is the source's `set` |
| LegacyLaws.NoBackendAnswersNull | BrowserStorage.js:88-171 | with neither backend, `get` answers `"null"`, the other calls answer `false`, and nothing changes |
| LegacyLaws.SetThenGet | BrowserStorage.js:88-128 | in local mode, `get(k)` after `set(k, v)` gives `v` encoded |
| LegacyLaws.SetKeepsOtherKeys | BrowserStorage.js:125-128 | `set(k, ...)` leaves what every other key reads unchanged |
| LegacyLaws.AbsentReadsAsStoredNull | BrowserStorage.js:89-96 | a missing key and a key holding the string `"null"` both read as `"null"` |
| LegacyLaws.RemoveUndoesSet | BrowserStorage.js:104-128 | in local mode, `remove(k)` after `set(k, v)` of a new key restores the previous state |
| LegacyLaws.RemoveThenGet | BrowserStorage.js:104-107 | after a local `remove(k)`, `get(k)` answers `"null"` |
| LegacyLaws.ClearThenGet | BrowserStorage.js:153-156 | after a local `clear()`, every key answers `"null"` |
| LegacyLaws.CookieGet | BrowserStorage.js:92-96 | in cookie mode, `get(k)` gives the encoded value of the first pair named `k`, or `"null"` |
| LegacyLaws.CookieSetIgnoresKey | BrowserStorage.js:142 | in cookie mode the key has no effect on what `set` does |
| LegacyLaws.CookieSetThenGetMisses | BrowserStorage.js:142 | the cookie `set(k, v)` writes a pair named after the global `name`, so `get(k)` answers `"null"` even when that pair is all the host keeps |
| LegacyLaws.WrittenSegment | BrowserStorage.js:142 | the first segment of a write is its pair, and the scan reads its value back under its name |
| LegacyLaws.CookieSetIntendedThenGet | BrowserStorage.js:142 | with the corrected `set`, the written pair is named by the key, so `get(k)` reads back `v` once the host lists that pair first |
| LegacyLaws.ClearOfNoCookies | BrowserStorage.js:158-168 | `clear()` on an empty cookie string still assigns one clear string |

## Left out

- `supportsCookies()` of both classes is an input to the constructor and to
  the refresh: the value it returns or the error it throws is a parameter.
  It reads `navigator.cookieEnabled` and writes and reads a test cookie, all
  host behaviour. In browser-storage.js it calls `this.remove` on the class
  itself; in BrowserStorage.js the read of `navigator.cookieEnabled` and the
  read of `document.cookie` in its `finally` block can throw. In
  BrowserStorage.js what the probe does to the storage is modelled
  separately by `Legacy.CookieProbeEffect`, with whether its cookie is
  found as a parameter. In browser-storage.js the probe's writes are left
  out.
- The date: `new Date()`, `setTime` and `toGMTString()` are host calls. The
  text the host renders is the `gmt` parameter. `Cookies.ExpiryTime` models
  the arithmetic on an integer clock reading. One call to `clear()` uses one
  date text for all its removals, which assumes the clock reading renders
  the same way throughout the loop.
- What the browser does with an assigned cookie string is left out:
  attribute parsing, expiry and replacement of older cookies. Writes are
  recorded, and reads take the host's cookie text as given.
- JSON numbers are integers. Floating point, `-0`, `Infinity`, lone
  surrogates in strings and `JSON.stringify`'s handling of functions,
  symbols and `toJSON` are left out. Object members keep the order of the
  text, while JavaScript lists names that are array indices (such as `"1"`)
  first, in ascending order, so `JSON.parse('{"b":1,"1":2}')` lists `1` first
  and the model does not. For a repeated name, `JSON.parse` keeps the last
  value, in the first position.
- Keys are strings. A number key is converted by `encodeURIComponent` (or
  by the host, in BrowserStorage.js) before the model sees it. The
  `String()` conversion of a non-string `BrowserStorage` value is likewise
  left to the caller.
- Facade.Get: cookie-mode reads are modelled only for keys whose encoding
  holds no regular-expression metacharacter, because the scan stands in for
  the regular expression only for such keys. Encoding removes every
  metacharacter except `.`, `*`, `(` and `)`.
- Legacy.Get: cookie-mode reads are modelled only for raw keys without a
  regular-expression metacharacter, for the same reason.
- Legacy.ProbeEffect: a `setItem` that throws is taken to store nothing.
- LocalStore.Keys: the model lists keys in the order they were first
  created. Browsers do not promise an order for `Object.keys(localStorage)`,
  so no contract about `keys()` in local mode states one.
- Json.Parse: JSON numbers are integers only, and a `\u` escape must not
  leave a lone surrogate. So the model rejects with `SyntaxError` the
  texts `3.5`, `1e2` and `"\ud800"`, which `JSON.parse` accepts. As a
  consequence, `Facade.Get` of a stored number with a fraction or an
  exponent, or of stored JSON text that escapes a lone surrogate, throws in
  the model where browser-storage.js:108 returns the value.
- Cookies.ExpiryTime: `days_to_live` is an integer number of days or left
  out. A fraction such as `0.5` (truthy, half a day) and a string such as
  `"0"` (truthy and equal to 0) are not modelled.
- Json.Stringify: JSON numbers are unbounded integers written with every
  digit. `JSON.stringify` writes a whole Number of magnitude 10^21 or more
  in exponent form (`1e+21`), and a JavaScript Number holds integers
  exactly only up to 2^53 in magnitude; neither limit is modelled.
- `localStorage` quota errors on `set` are not modelled. A write is taken to
  complete.
- `module.exports` (browser-storage.js:220) and the demonstration page
  script assets/javascript/main.js are not part of this model.

## Findings

| source | as written | input that shows it | evidently intended | confidence | as-written member | corrected member |
|---|---|---|---|---|---|---|
| browser-storage.js:148 | `set(k, undefined)` stores `encodeURIComponent(JSON.stringify(undefined))`, the text `undefined`, which `get` hands to `JSON.parse` | `set('bad_idea4', undefined)` then `get('bad_idea4')` throws `SyntaxError` | the value reads back as `undefined`, as the test suite's data map expects | not executed | FacadeLaws.SetUndefinedThenGetThrows | FacadeLaws.SetThenGetIntended |
| browser-storage.js:126 | the local `remove(key)` deletes `key` as given, while `set` stored under `encodeURIComponent(key)` | `set('&^', '?!')`, `remove('&^')`, then `get('&^')` still returns `'?!'` | `remove` deletes the entry `set` created | not executed | FacadeLaws.RemoveMissesEncodedKey | FacadeLaws.RemoveIntendedUndoesSet |
| browser-storage.js:204 | the cookie `clear()` encodes each name and then calls `remove`, whose `set` encodes it again | with a cookie `%26%5E=...` stored by `set('&^', ...)`, `clear()` passes `%2526%255E` to `remove`, whose `set` expires `%252526%25255E`, and the cookie survives | every cookie is expired under its own name | not executed | FacadeLaws.ClearExpiresReencodedNames | FacadeLaws.ClearIntendedExpiresEveryPair |
| BrowserStorage.js:142 | the cookie `set` writes `name + '=' + value`, where `name` is the page's global `name`, not the key | `set('a', 'b')` in cookie mode with `window.name == ''` assigns `=b; path=/`; `get('a')` answers `"null"` | the cookie is named after `key` | not executed | LegacyLaws.CookieSetThenGetMisses | LegacyLaws.CookieSetIntendedThenGet |
