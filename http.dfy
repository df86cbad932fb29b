/** Header lists and the text tests the proxy applies to them: ASCII lower-casing,
    substring search on content types, header lookup and the filter that drops the
    framing headers before a response is cached (proxy.js, lines 143-150, 221-228,
    239-245). */
module Http {
  import opened Wrappers

  /** A header list: (name, value) pairs in the order node-fetch's `forEach`
      yields them, each name once and in lower case. */
  type Headers = seq<(string, string)>

  /** `String.prototype.toLowerCase` on one character. Only A-Z are mapped: header
      names are ASCII tokens, and no other character lower-cases into a letter of
      "content-length" or "transfer-encoding". */
  function LowerChar(c: char): char
  {
    if 'A' <= c <= 'Z' then (c as int + 32) as char else c
  }

  function Lower(s: string): string
  {
    seq(|s|, i requires 0 <= i < |s| => LowerChar(s[i]))
  }

  const ContentLength: string := "content-length"
  const TransferEncoding: string := "transfer-encoding"

  /** A header that describes the framing of the upstream body and must not be
      replayed on a re-serialised body. */
  predicate IsFramingHeader(name: string)
  {
    var n := Lower(name);
    n == ContentLength || n == TransferEncoding
  }

  /** The headers kept when a reply is cached: every pair whose name is not a
      framing header, in the original order. */
  function Cacheable(h: Headers): (r: Headers)
    ensures |r| <= |h|
    ensures forall p :: p in r <==> p in h && !IsFramingHeader(p.0)
  {
    if h == [] then []
    else if IsFramingHeader(h[0].0) then Cacheable(h[1..])
    else [h[0]] + Cacheable(h[1..])
  }

  /** Filtering a concatenation filters each part: the kept headers stay in order. */
  lemma {:induction false} CacheableAppend(a: Headers, b: Headers)
    ensures Cacheable(a + b) == Cacheable(a) + Cacheable(b)
  {
    if a == [] {
      assert a + b == b;
    } else {
      assert (a + b)[0] == a[0];
      assert (a + b)[1..] == a[1..] + b;
      CacheableAppend(a[1..], b);
    }
  }

  /** A list without framing headers passes through unchanged ... */
  lemma {:induction false} CacheableKeepsClean(h: Headers)
    requires forall i :: 0 <= i < |h| ==> !IsFramingHeader(h[i].0)
    ensures Cacheable(h) == h
  {
    if h != [] {
      CacheableKeepsClean(h[1..]);
    }
  }

  /** ... so filtering twice is filtering once. */
  lemma CacheableIdempotent(h: Headers)
    ensures Cacheable(Cacheable(h)) == Cacheable(h)
  {
    var r := Cacheable(h);
    forall i | 0 <= i < |r| ensures !IsFramingHeader(r[i].0) {
      assert r[i] in r;
    }
    CacheableKeepsClean(r);
  }

  /** The loop of proxy.js lines 143-150: walk the upstream headers and copy every
      pair that is not a framing header into a fresh list. */
  method FilterHeaders(h: Headers) returns (kept: Headers)
    ensures kept == Cacheable(h)
  {
    kept := [];
    var i := 0;
    while i < |h|
      invariant 0 <= i <= |h|
      invariant kept == Cacheable(h[..i])
    {
      var (name, value) := h[i];
      CacheableAppend(h[..i], [h[i]]);
      assert h[..i + 1] == h[..i] + [h[i]];
      if !IsFramingHeader(name) {
        kept := kept + [(name, value)];
      }
      i := i + 1;
    }
    assert h[..i] == h;
  }

  /** Property lookup on the plain object the headers were copied into
      (`headers["content-type"]`): the name must match exactly. */
  function Find(h: Headers, name: string): (r: Option<string>)
    ensures r.Some? <==> exists i :: 0 <= i < |h| && h[i].0 == name
    ensures r.Some? ==> (name, r.value) in h
  {
    if h == [] then None
    else if h[0].0 == name then Some(h[0].1)
    else Find(h[1..], name)
  }

  /** `Headers.get(name)` of node-fetch: the name is matched without regard to case. */
  function FindIgnoreCase(h: Headers, name: string): (r: Option<string>)
    ensures r.Some? <==> exists i :: 0 <= i < |h| && Lower(h[i].0) == Lower(name)
    ensures r.Some? ==> exists i :: 0 <= i < |h| && Lower(h[i].0) == Lower(name) && h[i].1 == r.value
  {
    if h == [] then None
    else if Lower(h[0].0) == Lower(name) then Some(h[0].1)
    else FindIgnoreCase(h[1..], name)
  }

  /** `String.prototype.includes`: `sub` occurs somewhere in `s`. */
  function Includes(s: string, sub: string): (r: bool)
    ensures r <==> exists k :: 0 <= k <= |s| - |sub| && sub <= s[k..]
  {
    if |s| < |sub| then false
    else if sub <= s then (assert s[0..] == s; true)
    else
      var r := Includes(s[1..], sub);
      assert forall k :: 1 <= k <= |s| - |sub| ==> s[k..] == s[1..][k - 1..];
      r
  }

  /** Header names as node-fetch iterates them: already lower case. */
  predicate LowerCaseNames(h: Headers)
  {
    forall i :: 0 <= i < |h| ==> Lower(h[i].0) == h[i].0
  }

  /** Once the framing headers are filtered out of a list with lower-case names,
      an exact lookup of a lower-case, non-framing name finds what the
      case-insensitive lookup found in the original list. */
  lemma {:induction false} FindInCacheable(h: Headers, name: string)
    requires LowerCaseNames(h)
    requires Lower(name) == name && !IsFramingHeader(name)
    ensures Find(Cacheable(h), name) == FindIgnoreCase(h, name)
  {
    if h != [] {
      assert LowerCaseNames(h[1..]) by {
        forall i | 0 <= i < |h[1..]| ensures Lower(h[1..][i].0) == h[1..][i].0 {
          assert h[1..][i] == h[i + 1];
        }
      }
      FindInCacheable(h[1..], name);
      assert Lower(h[0].0) == h[0].0;
      if IsFramingHeader(h[0].0) {
        assert h[0].0 != name;
      }
    }
  }

  /** In a list with lower-case names, the case-insensitive lookup of a lower-case
      name is the exact one. */
  lemma {:induction false} FindInLowerCase(h: Headers, name: string)
    requires LowerCaseNames(h) && Lower(name) == name
    ensures FindIgnoreCase(h, name) == Find(h, name)
  {
    if h != [] {
      assert LowerCaseNames(h[1..]) by {
        forall i | 0 <= i < |h[1..]| ensures Lower(h[1..][i].0) == h[1..][i].0 {
          assert h[1..][i] == h[i + 1];
        }
      }
      assert Lower(h[0].0) == h[0].0;
      FindInLowerCase(h[1..], name);
    }
  }

  /** A name with an upper-case letter is never found by exact lookup in a list
      whose names are all lower case. */
  lemma FindMissesUpperCaseName(h: Headers, name: string)
    requires LowerCaseNames(h) && Lower(name) != name
    ensures Find(h, name) == None
  {
  }

  /** "content-type" is its own lower case and not a framing header;
      "Content-Type" is not in lower case. */
  lemma ContentTypeNames()
    ensures Lower("content-type") == "content-type" && !IsFramingHeader("content-type")
    ensures Lower("Content-Type") != "Content-Type"
  {
    assert Lower("Content-Type")[0] == 'c';
  }
}
