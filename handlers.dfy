/** The two proxied routes (proxy.js, lines 74-160 and 163-254) as functions of the
    cache contents, the clock, the request and the upstream reply, and as methods
    that read and update a ResponseCache the way the route handlers do.

    A handler reads the clock twice: `now` when it looks the URL up, and `written`
    when `setCachedResponse` stamps the entry, after the awaited fetch and body
    read. The two readings are independent: a wall clock may also step back in
    between. */
module Handlers {
  import opened Wrappers
  import opened Http
  import opened Query
  import opened Cache

  /** What `await fetch(url, ...)` and the later read of the body yield: a reply
      with its status, status text, headers and body text; a reply whose status and
      headers arrived but whose body read (`response.json()` or `response.text()`)
      rejects with a message; or a thrown network error. */
  datatype Upstream =
    | Reply(status: int, statusText: string, headers: Headers, body: string)
    | BodyReadFailure(status: int, statusText: string, headers: Headers, message: string)
    | NetworkFailure(message: string)

  /** `JSON.parse` (which can throw, with a message) and `JSON.stringify`. */
  datatype JsonCodec<!J> = JsonCodec(parse: string -> Result<J, string>, stringify: J -> string)

  /** The value survives being stored as text and parsed back. */
  ghost predicate RoundTrips<J>(codec: JsonCodec<J>, v: J)
  {
    codec.parse(codec.stringify(v)) == Ok(v)
  }

  /** The body a handler sends. */
  datatype Body<J> =
    | Json(value: J)                                  // res.json(data)
    | Text(text: string)                              // res.send(data)
    | ExternalApiError(status: int, message: string)  // { error: "External API error", status, message }
    | ProxyError(details: string)                     // { error: "Proxy error", details }
    | InvalidCachedData(error: string)                // { error: "Invalid cached ... data" }

  /** The status, the headers the handler sets explicitly, and the body. */
  datatype Response<J> = Response(status: int, headers: Headers, body: Body<J>)

  /** The response of one request and the entry it stores under its URL, if any. */
  datatype Outcome<J> = Outcome(response: Response<J>, stored: Option<Entry>)

  /** `response.ok` of node-fetch. */
  predicate IsOk(status: int)
  {
    200 <= status <= 299
  }

  /** The cache after a request for `url`: the read's lazy eviction, then the
      store, if the handler made one. */
  function CacheAfter(m: map<string, Entry>, url: string, now: nat, stored: Option<Entry>): map<string, Entry>
  {
    var read := AfterLookup(m, url, now);
    if stored.Some? then read[url := stored.value] else read
  }

  /** The Map's key order after a request for `url`: the read's eviction, then the
      store, if the handler made one. */
  function OrderAfter(order: seq<string>, m: map<string, Entry>, url: string, now: nat,
                      stored: Option<Entry>): seq<string>
  {
    var read := OrderAfterLookup(order, m, url, now);
    if stored.Some? then WithKey(read, url) else read
  }

  // ---------------------------------------------------------------------------
  // GET /api/meetings and its sub-paths (lines 74-160)
  // ---------------------------------------------------------------------------

  const InvalidCachedMeetings: string := "Invalid cached meetings data"

  /** Lines 101-119: the stored status and headers, and the stored body parsed
      again; a body that no longer parses gives 500 and stays in the cache. */
  function ServeCachedMeetings<J>(e: Entry, codec: JsonCodec<J>): (r: Response<J>)
    ensures r.headers == e.headers
    ensures codec.parse(e.data).Ok? ==> r.status == e.status
    ensures codec.parse(e.data).Err? ==> r.status == 500 && r.body == InvalidCachedData(InvalidCachedMeetings)
    ensures r.body.Json? <==> codec.parse(e.data).Ok?
    ensures r.body.Json? ==> Ok(r.body.value) == codec.parse(e.data)
  {
    match codec.parse(e.data)
    case Ok(v) => Response(e.status, e.headers, Json(v))
    case Err(_) => Response(500, e.headers, InvalidCachedData(InvalidCachedMeetings))
  }

  /** Lines 121-159: a miss goes upstream; only an OK reply whose body is read and
      parses is stored, as its re-serialised JSON with the framing headers removed,
      stamped with the time of the write. The body of a non-OK reply is never read. */
  function FetchMeetings<J>(up: Upstream, codec: JsonCodec<J>, written: nat): (o: Outcome<J>)
    ensures o.stored.Some? <==> up.Reply? && IsOk(up.status) && codec.parse(up.body).Ok?
    ensures o.stored.Some? ==>
      o.stored.value == Entry(codec.stringify(codec.parse(up.body).value), up.status, Cacheable(up.headers), written)
    ensures o.response.headers == []
    ensures IsOk(o.response.status) ==> up.Reply? && o.response.status == up.status
  {
    match up
    case NetworkFailure(message) =>
      Outcome(Response(500, [], ProxyError(message)), None)
    case BodyReadFailure(status, statusText, _, message) =>
      if !IsOk(status) then
        Outcome(Response(status, [], ExternalApiError(status, statusText)), None)
      else
        Outcome(Response(500, [], ProxyError(message)), None)
    case Reply(status, statusText, headers, body) =>
      if !IsOk(status) then
        Outcome(Response(status, [], ExternalApiError(status, statusText)), None)
      else
        match codec.parse(body)
        case Err(message) => Outcome(Response(500, [], ProxyError(message)), None)
        case Ok(v) =>
          Outcome(Response(status, [], Json(v)),
                  Some(Entry(codec.stringify(v), status, Cacheable(headers), written)))
  }

  /** One request to the meetings route: a fresh entry answers it without going
      upstream; otherwise upstream does. */
  function Meetings<J>(m: map<string, Entry>, now: nat, written: nat, path: string, query: Query,
                       up: Upstream, codec: JsonCodec<J>): (o: Outcome<J>)
    ensures var hit := Lookup(m, MeetingsUrl(path, query), now);
      (hit.Some? ==> o.stored == None && o.response.headers == hit.value.headers) &&
      (hit.None? ==> o == FetchMeetings(up, codec, written))
  {
    match Lookup(m, MeetingsUrl(path, query), now)
    case Some(e) => Outcome(ServeCachedMeetings(e, codec), None)
    case None => FetchMeetings(up, codec, written)
  }

  method HandleMeetings<J>(cache: ResponseCache, path: string, query: Query, now: nat, written: nat,
                           up: Upstream, codec: JsonCodec<J>) returns (response: Response<J>)
    requires cache.Valid()
    modifies cache
    ensures cache.Valid()
    ensures var url, o := MeetingsUrl(path, query), Meetings(old(cache.entries), now, written, path, query, up, codec);
      response == o.response &&
      cache.entries == CacheAfter(old(cache.entries), url, now, o.stored) &&
      cache.order == OrderAfter(old(cache.order), old(cache.entries), url, now, o.stored)
  {
    var url := MeetingsUrl(path, query);
    var cached := cache.Get(url, now);
    if cached.Some? {
      var e := cached.value;
      match codec.parse(e.data) {
        case Ok(v) => return Response(e.status, e.headers, Json(v));
        case Err(_) => return Response(500, e.headers, InvalidCachedData(InvalidCachedMeetings));
      }
    }
    match up {
      case NetworkFailure(message) =>
        response := Response(500, [], ProxyError(message));
      case BodyReadFailure(status, statusText, _, message) =>
        if !IsOk(status) {
          return Response(status, [], ExternalApiError(status, statusText));
        }
        response := Response(500, [], ProxyError(message));
      case Reply(status, statusText, headers, body) =>
        if !IsOk(status) {
          return Response(status, [], ExternalApiError(status, statusText));
        }
        match codec.parse(body) {
          case Err(message) =>
            response := Response(500, [], ProxyError(message));
          case Ok(v) =>
            var kept := FilterHeaders(headers);
            cache.Set(url, codec.stringify(v), status, kept, written);
            response := Response(status, [], Json(v));
        }
    }
  }

  // ---------------------------------------------------------------------------
  // GET /api/meps/:id (lines 163-254)
  // ---------------------------------------------------------------------------

  const InvalidCachedMep: string := "Invalid cached MEP data"

  /** Lines 188 and 215: the content types whose bodies are handled as JSON. */
  predicate IsJsonContentType(contentType: string)
  {
    Includes(contentType, "application/json") || Includes(contentType, "application/ld+json")
  }

  /** Line 186: `cached.headers["content-type"] || cached.headers["Content-Type"]`,
      with a missing or empty value read as "". */
  function CachedContentType(h: Headers): string
  {
    var lower := Find(h, "content-type");
    if lower.Some? && lower.value != "" then lower.value
    else
      match Find(h, "Content-Type")
      case Some(v) => v
      case None => ""
  }

  /** Line 213: `response.headers.get("content-type") || ""`. */
  function ReplyContentType(h: Headers): string
  {
    var declared := FindIgnoreCase(h, "content-type");
    if declared.Some? then declared.value else ""
  }

  /** Line 212: the content type sent on a miss, `application/json` when the reply
      names none. */
  function SentContentType(h: Headers): (r: Headers)
    ensures |r| == 1 && r[0].0 == "content-type" && r[0].1 != ""
    ensures ReplyContentType(h) != "" ==> r[0].1 == ReplyContentType(h)
    ensures ReplyContentType(h) == "" ==> r[0].1 == "application/json"
  {
    var contentType := ReplyContentType(h);
    [("content-type", if contentType != "" then contentType else "application/json")]
  }

  /** Lines 177-201: the stored status and headers; the body is parsed only when
      the stored content type is JSON, otherwise sent as text. */
  function ServeCachedMep<J>(e: Entry, codec: JsonCodec<J>): (r: Response<J>)
    ensures r.headers == e.headers
    ensures r.body.Json? ==> IsJsonContentType(CachedContentType(e.headers)) && Ok(r.body.value) == codec.parse(e.data)
    ensures r.body.Text? <==> !IsJsonContentType(CachedContentType(e.headers))
    ensures r.body.Text? ==> r.body.text == e.data && r.status == e.status
  {
    if IsJsonContentType(CachedContentType(e.headers)) then
      match codec.parse(e.data)
      case Ok(v) => Response(e.status, e.headers, Json(v))
      case Err(_) => Response(500, e.headers, InvalidCachedData(InvalidCachedMep))
    else
      Response(e.status, e.headers, Text(e.data))
  }

  /** Lines 203-253: a miss goes upstream; the status and the content type are set
      as soon as the reply arrives, the reply's status is passed on whatever it is,
      and the reply is stored unless its body cannot be read or a JSON body fails
      to parse. */
  function FetchMep<J>(up: Upstream, codec: JsonCodec<J>, written: nat): (o: Outcome<J>)
    ensures o.stored.Some? <==>
      up.Reply? && (IsJsonContentType(ReplyContentType(up.headers)) ==> codec.parse(up.body).Ok?)
    ensures o.stored.Some? ==>
      o.stored.value.status == up.status && o.stored.value.headers == Cacheable(up.headers) &&
      o.stored.value.timestamp == written && o.response.status == up.status
    ensures !up.NetworkFailure? ==> o.response.headers == SentContentType(up.headers)
    ensures up.BodyReadFailure? ==> o.response.status == 500
  {
    match up
    case NetworkFailure(message) =>
      Outcome(Response(500, [], ProxyError(message)), None)
    case BodyReadFailure(_, _, headers, message) =>
      Outcome(Response(500, SentContentType(headers), ProxyError(message)), None)
    case Reply(status, _, headers, body) =>
      var contentType := ReplyContentType(headers);
      var sent := SentContentType(headers);
      if IsJsonContentType(contentType) then
        match codec.parse(body)
        case Err(message) => Outcome(Response(500, sent, ProxyError(message)), None)
        case Ok(v) =>
          Outcome(Response(status, sent, Json(v)),
                  Some(Entry(codec.stringify(v), status, Cacheable(headers), written)))
      else
        Outcome(Response(status, sent, Text(body)), Some(Entry(body, status, Cacheable(headers), written)))
  }

  /** One request to the MEP route. The caller's query is read (lines 165-168) and
      then not used: the URL comes from the id alone. */
  function Mep<J>(m: map<string, Entry>, now: nat, written: nat, id: string, query: Query,
                  up: Upstream, codec: JsonCodec<J>): (o: Outcome<J>)
    ensures var hit := Lookup(m, MepUrl(id), now);
      (hit.Some? ==> o.stored == None && o.response.headers == hit.value.headers) &&
      (hit.None? ==> o == FetchMep(up, codec, written))
  {
    match Lookup(m, MepUrl(id), now)
    case Some(e) => Outcome(ServeCachedMep(e, codec), None)
    case None => FetchMep(up, codec, written)
  }

  method HandleMep<J>(cache: ResponseCache, id: string, query: Query, now: nat, written: nat,
                      up: Upstream, codec: JsonCodec<J>) returns (response: Response<J>)
    requires cache.Valid()
    modifies cache
    ensures cache.Valid()
    ensures var url, o := MepUrl(id), Mep(old(cache.entries), now, written, id, query, up, codec);
      response == o.response &&
      cache.entries == CacheAfter(old(cache.entries), url, now, o.stored) &&
      cache.order == OrderAfter(old(cache.order), old(cache.entries), url, now, o.stored)
  {
    var url := MepUrl(id);
    var cached := cache.Get(url, now);
    if cached.Some? {
      var e := cached.value;
      if IsJsonContentType(CachedContentType(e.headers)) {
        match codec.parse(e.data) {
          case Ok(v) => return Response(e.status, e.headers, Json(v));
          case Err(_) => return Response(500, e.headers, InvalidCachedData(InvalidCachedMep));
        }
      }
      return Response(e.status, e.headers, Text(e.data));
    }
    match up {
      case NetworkFailure(message) =>
        response := Response(500, [], ProxyError(message));
      case BodyReadFailure(_, _, headers, message) =>
        response := Response(500, SentContentType(headers), ProxyError(message));
      case Reply(status, _, headers, body) =>
        var contentType := ReplyContentType(headers);
        var sent := SentContentType(headers);
        if IsJsonContentType(contentType) {
          match codec.parse(body) {
            case Err(message) =>
              response := Response(500, sent, ProxyError(message));
            case Ok(v) =>
              var kept := FilterHeaders(headers);
              cache.Set(url, codec.stringify(v), status, kept, written);
              response := Response(status, sent, Json(v));
          }
        } else {
          var kept := FilterHeaders(headers);
          cache.Set(url, body, status, kept, written);
          response := Response(status, sent, Text(body));
        }
    }
  }

  // ---------------------------------------------------------------------------
  // Properties of the meetings route
  // ---------------------------------------------------------------------------

  /** A request only ever touches the entry of its own URL. */
  lemma CacheAfterFrame(m: map<string, Entry>, url: string, now: nat, stored: Option<Entry>)
    ensures forall k :: k != url ==> (k in CacheAfter(m, url, now, stored) <==> k in m)
    ensures forall k :: k != url && k in m ==> CacheAfter(m, url, now, stored)[k] == m[k]
  {
  }

  /** The key order stays a duplicate-free listing of exactly the keys the cache
      holds after the request. */
  lemma OrderAfterListsKeys(order: seq<string>, m: map<string, Entry>, url: string, now: nat,
                            stored: Option<Entry>)
    requires Distinct(order) && forall k :: k in m <==> k in order
    ensures var o := OrderAfter(order, m, url, now, stored);
      Distinct(o) && forall k :: k in o <==> k in CacheAfter(m, url, now, stored)
  {
  }

  /** A store after a miss puts the URL last in the Map's order, whether the key
      was absent or its stale entry was just evicted; every other key keeps its
      relative place. */
  lemma StoreOnMissGoesLast(order: seq<string>, m: map<string, Entry>, url: string, now: nat, e: Entry)
    requires Distinct(order) && forall k :: k in m <==> k in order
    requires Lookup(m, url, now).None?
    ensures OrderAfter(order, m, url, now, Some(e)) == Without(order, url) + [url]
  {
    if url !in m {
      WithoutAbsent(order, url);
    }
  }

  /** A fresh hit is answered from the cache alone: the upstream reply and the
      clock at write time play no part, nothing is stored, and the stored status and headers are replayed. */
  lemma MeetingsHit<J>(m: map<string, Entry>, now: nat, written: nat, written': nat, path: string, query: Query,
                       up: Upstream, up': Upstream, codec: JsonCodec<J>)
    requires Lookup(m, MeetingsUrl(path, query), now).Some?
    ensures var e, o := m[MeetingsUrl(path, query)], Meetings(m, now, written, path, query, up, codec);
      o == Meetings(m, now, written', path, query, up', codec) &&
      o.stored == None &&
      o.response.headers == e.headers &&
      (codec.parse(e.data).Ok? ==> o.response == Response(e.status, e.headers, Json(codec.parse(e.data).value))) &&
      (codec.parse(e.data).Err? ==> o.response.status == 500 && o.response.body == InvalidCachedData(InvalidCachedMeetings))
  {
  }

  /** A cached body that no longer parses gives 500 and is not evicted. */
  lemma MeetingsCorruptEntryKept<J>(m: map<string, Entry>, now: nat, written: nat, path: string, query: Query,
                                    up: Upstream, codec: JsonCodec<J>)
    requires var url := MeetingsUrl(path, query);
      Lookup(m, url, now).Some? && codec.parse(m[url].data).Err?
    ensures var url, o := MeetingsUrl(path, query), Meetings(m, now, written, path, query, up, codec);
      o.response.status == 500 && CacheAfter(m, url, now, o.stored) == m
  {
  }

  /** A non-OK upstream status is passed on with its status text, and the URL is
      left without an entry. */
  lemma MeetingsNotOkNotCached<J>(m: map<string, Entry>, now: nat, written: nat, path: string, query: Query,
                                  status: int, statusText: string, headers: Headers, body: string,
                                  codec: JsonCodec<J>)
    requires Lookup(m, MeetingsUrl(path, query), now).None?
    requires !IsOk(status)
    ensures var url, o := MeetingsUrl(path, query), Meetings(m, now, written, path, query, Reply(status, statusText, headers, body), codec);
      o.response == Response(status, [], ExternalApiError(status, statusText)) &&
      o.stored == None && url !in CacheAfter(m, url, now, o.stored)
  {
  }

  /** A network failure, or an OK reply whose body cannot be read or does not
      parse, gives 500 and stores nothing. */
  lemma MeetingsFailureNotCached<J>(m: map<string, Entry>, now: nat, written: nat, path: string, query: Query,
                                    up: Upstream, codec: JsonCodec<J>)
    requires Lookup(m, MeetingsUrl(path, query), now).None?
    requires up.NetworkFailure? || (up.BodyReadFailure? && IsOk(up.status)) ||
             (up.Reply? && IsOk(up.status) && codec.parse(up.body).Err?)
    ensures var o := Meetings(m, now, written, path, query, up, codec);
      o.response.status == 500 && o.response.body.ProxyError? && o.stored == None
  {
  }

  /** A miss answered OK stores the re-serialised body, the status, the headers
      without the framing ones and the time, and sends the parsed body. */
  lemma MeetingsMissStores<J>(m: map<string, Entry>, now: nat, written: nat, path: string, query: Query,
                              status: int, statusText: string, headers: Headers, body: string,
                              codec: JsonCodec<J>)
    requires Lookup(m, MeetingsUrl(path, query), now).None?
    requires IsOk(status) && codec.parse(body).Ok?
    ensures var v, o := codec.parse(body).value, Meetings(m, now, written, path, query, Reply(status, statusText, headers, body), codec);
      o.response == Response(status, [], Json(v)) &&
      o.stored == Some(Entry(codec.stringify(v), status, Cacheable(headers), written))
  {
  }

  /** Store, then replay: within the window a second request for the same URL gets
      the same status and value, with the upstream headers minus the framing ones,
      whatever upstream would now answer. */
  lemma {:induction false} MeetingsReplay<J>(m: map<string, Entry>, now: nat, written: nat, later: nat,
                                             path: string, query: Query,
                                             status: int, statusText: string, headers: Headers, body: string,
                                             written': nat, up': Upstream, codec: JsonCodec<J>)
    requires Lookup(m, MeetingsUrl(path, query), now).None?
    requires IsOk(status) && codec.parse(body).Ok? && RoundTrips(codec, codec.parse(body).value)
    requires later - written < CacheDuration
    ensures var url, o := MeetingsUrl(path, query), Meetings(m, now, written, path, query, Reply(status, statusText, headers, body), codec);
      var o' := Meetings(CacheAfter(m, url, now, o.stored), later, written', path, query, up', codec);
      o'.response == Response(status, Cacheable(headers), o.response.body) && o'.stored == None
  {
    var url := MeetingsUrl(path, query);
    var v := codec.parse(body).value;
    var o := Meetings(m, now, written, path, query, Reply(status, statusText, headers, body), codec);
    MeetingsMissStores(m, now, written, path, query, status, statusText, headers, body, codec);
    var e := Entry(codec.stringify(v), status, Cacheable(headers), written);
    assert CacheAfter(m, url, now, o.stored) == AfterLookup(m, url, now)[url := e];
    ReadAfterWrite(AfterLookup(m, url, now), url, e.data, status, e.headers, written, later);
  }

  /** Once the window has passed, the same request is a miss again and goes
      upstream. */
  lemma MeetingsExpires<J>(m: map<string, Entry>, later: nat, written: nat, path: string, query: Query,
                           stored: Entry, up: Upstream, codec: JsonCodec<J>)
    requires later - stored.timestamp >= CacheDuration
    ensures var url := MeetingsUrl(path, query);
      Meetings(m[url := stored], later, written, path, query, up, codec) == FetchMeetings(up, codec, written)
  {
  }

  /** After the cache is cleared, every request goes upstream. */
  lemma MeetingsAfterClear<J>(now: nat, written: nat, path: string, query: Query, up: Upstream, codec: JsonCodec<J>)
    ensures Meetings(map[], now, written, path, query, up, codec) == FetchMeetings(up, codec, written)
  {
  }

  // ---------------------------------------------------------------------------
  // Properties of the MEP route
  // ---------------------------------------------------------------------------

  /** The MEP URL, and so the whole outcome, does not depend on the caller's query. */
  lemma MepIgnoresQuery<J>(m: map<string, Entry>, now: nat, written: nat, id: string, q: Query, q': Query,
                           up: Upstream, codec: JsonCodec<J>)
    ensures Mep(m, now, written, id, q, up, codec) == Mep(m, now, written, id, q', up, codec)
  {
  }

  /** A cached entry is parsed only when its stored content type is JSON; any other
      body is sent back as the stored text, and a JSON body that fails to parse
      gives 500 and stays cached. */
  lemma MepHit<J>(m: map<string, Entry>, now: nat, written: nat, id: string, query: Query,
                  up: Upstream, codec: JsonCodec<J>)
    requires Lookup(m, MepUrl(id), now).Some?
    ensures var url := MepUrl(id);
      var e, o := m[url], Mep(m, now, written, id, query, up, codec);
      o.stored == None && CacheAfter(m, url, now, o.stored) == m &&
      (!IsJsonContentType(CachedContentType(e.headers)) ==> o.response == Response(e.status, e.headers, Text(e.data))) &&
      (IsJsonContentType(CachedContentType(e.headers)) && codec.parse(e.data).Ok? ==>
         o.response == Response(e.status, e.headers, Json(codec.parse(e.data).value))) &&
      (IsJsonContentType(CachedContentType(e.headers)) && codec.parse(e.data).Err? ==>
         o.response == Response(500, e.headers, InvalidCachedData(InvalidCachedMep)))
  {
  }

  /** On a miss the upstream status is passed on whatever it is, and a body that is
      not JSON is sent and stored as text, error statuses included. */
  lemma MepMissText<J>(m: map<string, Entry>, now: nat, written: nat, id: string, query: Query,
                       status: int, statusText: string, headers: Headers, body: string,
                       codec: JsonCodec<J>)
    requires Lookup(m, MepUrl(id), now).None?
    requires !IsJsonContentType(ReplyContentType(headers))
    ensures var o := Mep(m, now, written, id, query, Reply(status, statusText, headers, body), codec);
      o.response == Response(status, SentContentType(headers), Text(body)) &&
      o.stored == Some(Entry(body, status, Cacheable(headers), written))
  {
  }

  /** On a miss with a JSON content type the body is parsed: a value is sent with
      the upstream status and stored re-serialised; a parse error gives 500 and
      stores nothing. */
  lemma MepMissJson<J>(m: map<string, Entry>, now: nat, written: nat, id: string, query: Query,
                       status: int, statusText: string, headers: Headers, body: string,
                       codec: JsonCodec<J>)
    requires Lookup(m, MepUrl(id), now).None?
    requires IsJsonContentType(ReplyContentType(headers))
    ensures var o := Mep(m, now, written, id, query, Reply(status, statusText, headers, body), codec);
      match codec.parse(body)
      case Ok(v) =>
        o.response == Response(status, SentContentType(headers), Json(v)) &&
        o.stored == Some(Entry(codec.stringify(v), status, Cacheable(headers), written))
      case Err(message) =>
        o.response == Response(500, SentContentType(headers), ProxyError(message)) && o.stored == None
  {
  }

  /** A network failure gives 500 and stores nothing. */
  lemma MepFailureNotCached<J>(m: map<string, Entry>, now: nat, written: nat, id: string, query: Query,
                               message: string, codec: JsonCodec<J>)
    requires Lookup(m, MepUrl(id), now).None?
    ensures var o := Mep(m, now, written, id, query, NetworkFailure(message), codec);
      o.response == Response(500, [], ProxyError(message)) && o.stored == None
  {
  }

  /** A reply whose body cannot be read gives 500, keeps the content type already
      set from the reply, and stores nothing, whatever its status. */
  lemma MepBodyReadFailureNotCached<J>(m: map<string, Entry>, now: nat, written: nat, id: string, query: Query,
                                       status: int, statusText: string, headers: Headers, message: string,
                                       codec: JsonCodec<J>)
    requires Lookup(m, MepUrl(id), now).None?
    ensures var o := Mep(m, now, written, id, query, BodyReadFailure(status, statusText, headers, message), codec);
      o.response == Response(500, SentContentType(headers), ProxyError(message)) && o.stored == None
  {
  }

  /** The content type the cached copy is later judged by is the one the reply was
      judged by: the name is not a framing header, and node-fetch gives header
      names in lower case. */
  lemma {:induction false} ContentTypeAfterCaching(h: Headers)
    requires LowerCaseNames(h)
    ensures CachedContentType(Cacheable(h)) == ReplyContentType(h)
    ensures CachedContentType(h) == ReplyContentType(h)
  {
    ContentTypeNames();
    FindInCacheable(h, "content-type");
    FindInLowerCase(h, "content-type");
    FindMissesUpperCaseName(h, "Content-Type");
    FindMissesUpperCaseName(Cacheable(h), "Content-Type");
    assert LowerCaseNames(Cacheable(h)) by {
      var r := Cacheable(h);
      forall i | 0 <= i < |r| ensures Lower(r[i].0) == r[i].0 {
        assert r[i] in h;
      }
    }
  }

  /** Store, then replay: within the window a second request for the same MEP gets
      the same status and body (JSON or text) with the upstream headers minus the
      framing ones, whatever upstream would now answer. */
  lemma {:induction false} MepReplay<J>(m: map<string, Entry>, now: nat, written: nat, later: nat,
                                        id: string, query: Query, query': Query,
                                        status: int, statusText: string, headers: Headers, body: string,
                                        written': nat, up': Upstream, codec: JsonCodec<J>)
    requires Lookup(m, MepUrl(id), now).None?
    requires LowerCaseNames(headers)
    requires var o := Mep(m, now, written, id, query, Reply(status, statusText, headers, body), codec);
      o.stored.Some? && (o.response.body.Json? ==> RoundTrips(codec, o.response.body.value))
    requires later - written < CacheDuration
    ensures var url, o := MepUrl(id), Mep(m, now, written, id, query, Reply(status, statusText, headers, body), codec);
      var o' := Mep(CacheAfter(m, url, now, o.stored), later, written', id, query', up', codec);
      o'.response == Response(status, Cacheable(headers), o.response.body) && o'.stored == None
  {
    var url := MepUrl(id);
    var o := Mep(m, now, written, id, query, Reply(status, statusText, headers, body), codec);
    var e := o.stored.value;
    ContentTypeAfterCaching(headers);
    assert e.headers == Cacheable(headers) && e.status == status && e.timestamp == written;
    ReadAfterWrite(AfterLookup(m, url, now), url, e.data, status, e.headers, written, later);
  }
}
