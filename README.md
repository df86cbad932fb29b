# Caching proxy for the European Parliament open-data API — verified model

`proxy.js` is a small Express server that sits between a browser UI and the
European Parliament's open-data API (`https://data.europarl.europa.eu/api/v2`).
It forwards two routes — `/api/meetings` with all its sub-paths and
`/api/meps/:id` — and keeps replies in an in-memory cache keyed by the exact
upstream URL for two hours. The meetings route caches only OK replies whose body
is read and parses as JSON. The MEP route caches every reply whose body is read,
whatever its status, except a JSON reply whose body fails to parse. Two
administrative routes report and clear that cache.

This project models that core in Dafny:

- `wrappers.dfy` — `Option` and `Result`.
- `http.dfy` — header lists and the text tests on them: ASCII lower-casing,
  `includes`, exact and case-insensitive header lookup, and the filter that drops
  `content-length` and `transfer-encoding` before a reply is cached. The filter
  exists twice: as a function (`Cacheable`) and as the loop of the source
  (`FilterHeaders`), proved equal.
- `query.dfy` — the query as the list of (name, value) pairs URLSearchParams
  holds, the injection of `format=application/ld+json`, the
  `application/x-www-form-urlencoded` serialisation (including the UTF-8
  percent-encoding of non-ASCII characters), and the two upstream URL builders.
- `cache.dfy` — the cache. `ResponseCache` is a class whose fields are the map
  from URL to entry and the Map's insertion order. Its methods `Get` (lazy expiry),
  `Set`, `Clear` and `Status` mirror `getCachedResponse`, `setCachedResponse` and
  the two admin routes. `Date.now()` is a parameter.
- `handlers.dfy` — each proxied route twice: as a function of (cache contents,
  clock, request, upstream reply) that yields the response and the entry stored,
  and as a method that reads and updates a `ResponseCache` the way the handler
  does. The method is proved to give the function's response, its map of entries
  and the Map's key order. A handler reads the clock twice: `now` for the lookup,
  and a later `written` for the entry's timestamp, taken after the awaited fetch.
  The lemmas about hits, misses, errors, replay within the window and expiry are
  stated on the functions.
- `keys.dfy` — the cache key. The upstream URL is the key, and the lemmas show
  that it conflates no two requests. Form-urlencoding is injective (UTF-8 and the
  percent-encoding form a prefix-free code), and so is the serialised query. Two
  meetings requests share a key exactly when they name the same sub-resource
  and the same query with the format injected. Two MEP ids never share a key,
  and a MEP key never equals a meetings key.

The upstream reply is an input (`Upstream`: a reply with status, status text,
headers and body; a reply whose status and headers arrived but whose body could
not be read; or a network failure). `JSON.parse` and `JSON.stringify` are a
parameter (`JsonCodec`), so a parse failure is a `Result` error. The response is
an output datatype: its status, the headers the handler sets explicitly, and its
body.

Behaviour of the code worth knowing:

- The MEP route has no `response.ok` check. A miss stores the reply whatever its
  status (lines 211-249), so a 404 or a 503 is served from the cache for two
  hours. Only the meetings route leaves non-OK replies uncached (lines 129-136).
  `Handlers.MepMissText` states this.
- On a miss the meetings route sends the parsed body without setting any
  upstream header (lines 153-155). Stored headers are re-applied only on a hit.
- The default format is sent percent-encoded
  (`format=application%2Fld%2Bjson`), as URLSearchParams serialises it. It is not
  sent as the literal `application/ld+json`.
- The startup message speaks of five-minute caching. The constant is two hours
  (line 15), and the model uses the constant.

## Model

| member | source | states |
|---|---|---|
| `Http.Cacheable` | proxy.js:143-150 | the cached header list holds exactly the upstream pairs whose lower-cased name is neither `content-length` nor `transfer-encoding`, and is no longer than the original |
| `Http.CacheableAppend` | proxy.js:144-149 | filtering keeps the original order: the filter of a concatenation is the concatenation of the filters |
| `Http.CacheableKeepsClean` | proxy.js:147-148 | a list without framing headers passes the filter unchanged |
| `Http.CacheableIdempotent` | proxy.js:143-150 | filtering an already filtered list changes nothing |
| `Http.FilterHeaders` | proxy.js:143-150 | the `forEach` loop over the upstream headers builds exactly `Cacheable(h)` (same lines at 221-228 and 239-245) |
| `Http.Find` | proxy.js:186 | property lookup on the stored header object finds a value exactly when some pair has that exact name, and the value belongs to such a pair |
| `Http.FindIgnoreCase` | proxy.js:213 | `headers.get` finds a value exactly when some name matches ignoring ASCII case, and returns the value of such a pair |
| `Http.Includes` | proxy.js:188 | `includes` holds exactly when the searched text occurs at some position |
| `Http.FindInCacheable` | proxy.js:221-228 | with lower-case names, exact lookup of a non-framing name in the filtered list equals case-insensitive lookup in the upstream list |
| `Query.WithDefaultFormat` | proxy.js:77-80 | after injection the query has `format`; its value is the caller's if there was one, else `application/ld+json`; every other parameter reads as before; the caller's pairs are a prefix, and at most one pair is added |
| `Query.DefaultFormatKeepsExplicit` | proxy.js:78 | a query that already names a format is sent unmodified |
| `Query.DefaultFormatIdempotent` | proxy.js:78-80 | injecting the default twice is injecting it once |
| `Query.FormEncodeAlphabet` | proxy.js:86 | a form-encoded name or value contains only unreserved characters, `+` and `%`, never `&`, `=` or `?` |
| `Query.FormEncodeAppend` | proxy.js:86 | form-encoding works character by character: it distributes over concatenation |
| `Query.FormEncodeUnreserved` | proxy.js:86 | text made of letters, digits and `*-._` is sent as it is |
| `Query.Has` | proxy.js:78 | `params.has(name)`: some pair carries that name |
| `Query.Get` | proxy.js:78-79 | there is a value exactly when the name is present, and it is the value of the first pair with that name |
| `Query.FormEncode` | proxy.js:86 | `application/x-www-form-urlencoded` encoding of one name or value: unreserved characters kept, space as `+`, every other character as the percent-encoded bytes of its UTF-8 encoding |
| `Query.Serialize` | proxy.js:86 | `params.toString()`: the encoded pairs joined by `&`; empty exactly when the query is |
| `Query.MeetingsUrl` | proxy.js:76-92 | the meetings upstream URL starts with the meetings base and goes on past it |
| `Query.MepUrl` | proxy.js:170 | the MEP upstream URL starts with the MEP base, is followed by the id, and goes on past it |
| `Query.MepUrlQuery` | proxy.js:170 | the MEP URL is the base, the id, `?` and exactly what URLSearchParams writes for the single pair `format=application/ld+json` |
| `Query.EncodeSlashAndPlus` | proxy.js:86 | URLSearchParams sends `/` as `%2F` and `+` as `%2B` |
| `Query.LdJsonEncoding` | proxy.js:79-86 | the default format is sent as `application%2Fld%2Bjson` |
| `Query.FormatQueryText` | proxy.js:79-86 | the query holding only the default format serialises to `format=application%2Fld%2Bjson` |
| `Query.MeetingsUrlRoot` | proxy.js:76-86 | an empty sub-path and `/` both map to the base meetings URL followed by `?` and the serialised query |
| `Query.MeetingsUrlSubPath` | proxy.js:87-92 | a sub-path is appended after `/` with one leading slash removed, so `/x` and `x` reach the same upstream URL |
| `Cache.ResponseCache.constructor` | proxy.js:16 | the cache starts empty |
| `Cache.ResponseCache.Get` | proxy.js:23-36 | returns the entry exactly when the key is present and younger than CacheDuration; a stale entry found is deleted from map and order; otherwise nothing changes |
| `Cache.ResponseCache.Set` | proxy.js:38-48 | the key now maps to data, status, headers and timestamp `now`, replacing any previous entry; a new key goes last in iteration order |
| `Cache.ResponseCache.Clear` | proxy.js:66-71 | the map and its order become empty; the result is the size just before, and the message reports that size |
| `Cache.ResponseCache.Status` | proxy.js:51-63 | `cacheSize` is the number of entries, `cacheDuration` is 7200 s, there is exactly one row per key in Map order, carrying that key as `url` with its rounded age and remaining life |
| `Cache.RoundedSeconds` | proxy.js:55-56 | `Math.round(ms / 1000)` is the whole number of seconds within half a second of `ms`, halves rounded up |
| `Cache.Without` | proxy.js:33 | after `delete` the iteration order lists every other key and not the deleted one, still once each |
| `Cache.WithoutAppend` | proxy.js:33 | `delete` works piecewise on the iteration order, so the other keys keep their relative order |
| `Cache.WithoutAt` | proxy.js:33 | in an order that lists each key once, deleting the key at position `i` removes exactly that position and nothing else |
| `Cache.WithKey` | proxy.js:41 | after `set` the iteration order lists the old keys and the new one, still once each |
| `Cache.SizeIsOrderLength` | proxy.js:52-53 | `cache.size` equals the number of keys `cache.entries()` yields |
| `Cache.Decimal` | proxy.js:70 | the count in the clear message is written as decimal digits that denote the count, with no leading zero |
| `Cache.ClearedMessage` | proxy.js:70 | the message of the clear route: fixed words around the decimal count |
| `Cache.ClearedMessageReportsCount` | proxy.js:67-70 | the message starts with `Cache cleared: `, ends with ` entries removed`, and the digits between them denote the number of entries removed |
| `Cache.Lookup` | proxy.js:23-36 | what `getCachedResponse` returns: the entry when the key is present and younger than CacheDuration, else nothing |
| `Cache.AfterLookup` | proxy.js:31-34 | the map after the read: a stale entry found is deleted, nothing else changes |
| `Cache.OrderAfterLookup` | proxy.js:31-34 | the Map's key order after the read: a stale key found leaves the order |
| `Cache.WithoutAbsent` | proxy.js:33 | deleting a key the Map does not hold leaves the key order as it was |
| `Cache.ReadAfterWrite` | proxy.js:23-48 | a read after a write of the same key returns exactly the stored fields while `now - written < CacheDuration`, and nothing from then on |
| `Cache.StaleAtExactlyCacheDuration` | proxy.js:25-34 | an entry read exactly CacheDuration after its write is stale and deleted; one millisecond earlier it is served |
| `Cache.LookupFrame` | proxy.js:23-36 | a read changes only its own key, deletes it only when stale, and leaves the map unchanged on a hit or an absent key |
| `Cache.ReadAfterClear` | proxy.js:66-68 | on the class: a clear followed by a read of any key misses, and the cache stays empty |
| `Cache.WriteFrame` | proxy.js:41-46 | a write leaves every other key's entry as it was |
| `Handlers.HandleMeetings` | proxy.js:74-160 | the meetings handler's response, entries and key order are those of `Handlers.Meetings`, `Handlers.CacheAfter` and `Handlers.OrderAfter`: lazy eviction of its URL, then a store stamped with the write time only on an OK reply whose body is read and parses |
| `Handlers.HandleMep` | proxy.js:163-254 | the MEP handler's response, entries and key order are those of `Handlers.Mep`, `Handlers.CacheAfter` and `Handlers.OrderAfter` |
| `Handlers.CacheAfter` | proxy.js:23-48 | the entries after a request: the read's eviction, then the store, if any |
| `Handlers.OrderAfter` | proxy.js:33-41 | the Map's key order after a request: the read's eviction, then the store, if any |
| `Handlers.OrderAfterListsKeys` | proxy.js:33-41 | after a request the key order still lists each key the cache holds, once each, and no other |
| `Handlers.StoreOnMissGoesLast` | proxy.js:31-41 | a store after a miss puts the URL last in iteration order, also when its stale entry was just deleted; the other keys keep their relative order |
| `Handlers.Meetings` | proxy.js:97-159 | a fresh entry answers the request without going upstream, stores nothing and replays the stored headers; on a miss the outcome is `Handlers.FetchMeetings` |
| `Handlers.ServeCachedMeetings` | proxy.js:101-119 | a hit sends the stored headers; the stored status and the parsed value when the stored body parses, otherwise 500 with the invalid-cache error |
| `Handlers.FetchMeetings` | proxy.js:121-159 | a miss stores an entry exactly when upstream answers OK with a body that is read and parses: the re-serialised value, the status, the filtered headers and the write time; the response sets no header, and an OK status in it is upstream's |
| `Handlers.Mep` | proxy.js:163-201 | a fresh entry answers the request without going upstream, stores nothing and replays the stored headers; on a miss the outcome is `Handlers.FetchMep` |
| `Handlers.ServeCachedMep` | proxy.js:177-201 | a hit sends the stored headers; a stored body is parsed only when the stored content type is JSON, otherwise it is sent as the stored text with the stored status |
| `Handlers.FetchMep` | proxy.js:203-253 | a miss stores an entry exactly when upstream answers, its body is read and it is not JSON that fails to parse, with upstream's status, the filtered headers and the write time; every reply that arrives gets the content-type header, and one whose body cannot be read gives 500 |
| `Handlers.CachedContentType` | proxy.js:186 | the stored content type: the `content-type` value if non-empty, else the `Content-Type` value, else empty |
| `Handlers.ReplyContentType` | proxy.js:213 | the upstream content type looked up ignoring case, or empty |
| `Handlers.SentContentType` | proxy.js:212 | the response carries one `content-type` header, never empty: upstream's content type, or `application/json` when it has none |
| `Handlers.IsJsonContentType` | proxy.js:188 | a content type is handled as JSON when it contains `application/json` or `application/ld+json` (also line 215) |
| `Handlers.CacheAfterFrame` | proxy.js:97-99 | a request changes only the cache entry of its own upstream URL |
| `Handlers.MeetingsHit` | proxy.js:101-119 | a fresh hit ignores the upstream reply and the clock at write time, stores nothing, replays stored status and headers with the parsed stored body, or answers 500 when that body does not parse |
| `Handlers.MeetingsCorruptEntryKept` | proxy.js:111-118 | a cached body that fails to parse gives 500 and the entry is not evicted |
| `Handlers.MeetingsNotOkNotCached` | proxy.js:129-136 | a non-OK upstream status is passed on with its status text and the URL keeps no entry |
| `Handlers.MeetingsFailureNotCached` | proxy.js:121-159 | a network failure, or an OK reply whose body cannot be read or does not parse, gives 500 with a proxy error and stores nothing |
| `Handlers.MeetingsMissStores` | proxy.js:138-155 | an OK miss sends the parsed value with the upstream status and stores its re-serialisation, the status, the filtered headers and the write time |
| `Handlers.MeetingsReplay` | proxy.js:97-155 | after such a store, a repeat request less than CacheDuration after the write time gets the same status and value with the filtered upstream headers, whatever upstream would answer |
| `Handlers.MeetingsExpires` | proxy.js:25-35 | once an entry is CacheDuration old, the request is a miss and is answered from upstream, its store stamped with the new write time |
| `Handlers.MeetingsAfterClear` | proxy.js:66-68 | after a clear every meetings request is answered from upstream |
| `Handlers.MepIgnoresQuery` | proxy.js:164-170 | the MEP outcome does not depend on the caller's query, only on the id |
| `Handlers.MepHit` | proxy.js:177-201 | a cached MEP body is parsed only when the stored content type contains a JSON type; otherwise the stored text is sent; a JSON body that fails to parse gives 500 and stays cached |
| `Handlers.MepMissText` | proxy.js:211-249 | a non-JSON reply is sent as text with the upstream status, whatever it is, and stored with that status |
| `Handlers.MepMissJson` | proxy.js:211-231 | a JSON reply is parsed: the value is sent with the upstream status and stored re-serialised; a parse error gives 500 and stores nothing |
| `Handlers.MepFailureNotCached` | proxy.js:203-253 | a network failure gives 500 with a proxy error and stores nothing |
| `Handlers.MepBodyReadFailureNotCached` | proxy.js:211-253 | a reply whose body cannot be read gives 500 with a proxy error, keeps the content type already set, and stores nothing, whatever its status |
| `Handlers.ContentTypeAfterCaching` | proxy.js:186-188 | for lower-case upstream names, the content type the cached copy is judged by equals the one the reply was judged by |
| `Handlers.MepReplay` | proxy.js:173-249 | after a store, a repeat MEP request less than CacheDuration after the write time gets the same status and body (JSON or text) with the filtered upstream headers, whatever upstream would answer |
| `Keys.Utf8Injective` | proxy.js:77-91 | distinct characters have distinct UTF-8 byte sequences, as URLSearchParams encodes them |
| `Keys.EncodeCharPrefixFree` | proxy.js:86-91 | the encoding of one character is never a proper prefix of another's: equal encoded strings start with the same character and continue equally |
| `Keys.FormEncodeInjective` | proxy.js:86-91 | two names or values with the same form-urlencoding are equal |
| `Keys.SerializeInjective` | proxy.js:86-91 | two query lists with the same `params.toString()` are the same list of pairs, in the same order |
| `Keys.NoQuestionMarkInQuery` | proxy.js:86-91 | a serialised query never contains `?`, so the first `?` of a meetings URL ends the path |
| `Keys.MeetingsUrlShape` | proxy.js:79-92 | a meetings URL is the base followed by the sub-resource, if any, then `?` and the query with the default format |
| `Keys.MeetingsKeyDeterminesRequest` | proxy.js:76-98 | two meetings requests get the same cache key if and only if they name the same sub-resource and, with the format injected, the same query |
| `Keys.MepKeyDeterminesId` | proxy.js:170-174 | two MEP requests get the same cache key only for the same id |
| `Keys.RoutesNeverShareKeys` | proxy.js:86-170 | a MEP cache key is never a meetings cache key, so the two routes never read each other's entries |

## Left out

- Express and node-fetch. This covers app setup, the request-logging middleware, `/health`, `app.listen` and the port (lines 1-12, 256-257). `await`, the accept header sent upstream and the mutation of the response object are also out. The upstream reply is an input and the response is an output value.
- Headers Express adds itself: the content type that `res.json` and `res.send` set, and the charset that `res.set` appends. The response lists only the headers the handler sets.
- `getCacheKey` (lines 19-21) is the identity, so the model keys the cache by the URL directly.
- `JSON.parse` and `JSON.stringify` are an abstract codec. The replay lemmas require that the value survives stringify then parse.
- Express's query parsing into `req.query` (nested objects, repeated keys) is not modelled. The query is taken as the list of pairs URLSearchParams holds.
- Header names come from node-fetch in lower case and once each. Lemmas that compare the miss path with the hit path require lower-case names. Lists with repeated names are not related to the plain object the source builds.
- Lower-casing maps only `A`-`Z`. Full Unicode case mapping is left out. No other character lower-cases into a letter of the two framing header names.
- `Cache.RoundedSeconds` assumes millisecond values far below 2^53, where JavaScript's division is exact enough for `Math.round`. Current `Date.now()` values are.
- Two requests that miss on the same key at the same time can interleave; this concurrency is not modelled. Each handler runs as one uninterrupted step, and the last write wins.
- `Keys.MeetingsKeyDeterminesRequest` requires paths without `?`, which is what Express gives as `req.path`. Paths are taken as given, with no percent-decoding.
- `Cache.ResponseCache.Status` reads the clock once for the whole report. The source calls `Date.now()` twice for every entry (lines 55-56), so its age and expiry can come from instants a millisecond apart.
- Logging (`console.log`, `console.error`) is not modelled.
- `eu-hack/src/App.js` is not part of this model. It is the React UI: fetches, hook state and display fallbacks.
