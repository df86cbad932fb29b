/** The upstream URLs of the two proxied routes (proxy.js, lines 76-92 and 170):
    a query string built with URLSearchParams, the default `format` parameter and
    the mapping of the meetings sub-path. */
module Query {
  import opened Wrappers

  /** The query of a request, as the (name, value) pairs URLSearchParams holds. */
  type Query = seq<(string, string)>

  const FormatKey: string := "format"
  const LdJson: string := "application/ld+json"

  const MeetingsBase: string := "https://data.europarl.europa.eu/api/v2/meetings"
  const MepsBase: string := "https://data.europarl.europa.eu/api/v2/meps/"
  /** The query the MEP URL template (line 170) carries. */
  const MepQuery: string := "format=application%2Fld%2Bjson"

  /** `URLSearchParams.has(name)` */
  predicate Has(q: Query, name: string)
  {
    exists i :: 0 <= i < |q| && q[i].0 == name
  }

  /** `URLSearchParams.get(name)`: the value of the first pair with that name. */
  function Get(q: Query, name: string): (r: Option<string>)
    ensures r.Some? <==> Has(q, name)
    ensures r.Some? ==>
      exists i :: 0 <= i < |q| && q[i] == (name, r.value) && (forall j :: 0 <= j < i ==> q[j].0 != name)
  {
    if q == [] then None
    else if q[0].0 == name then Some(q[0].1)
    else Get(q[1..], name)
  }

  lemma {:induction false} GetAppendAbsent(q: Query, name: string, value: string)
    requires !Has(q, name)
    ensures Get(q + [(name, value)], name) == Some(value)
  {
    if q == [] {
    } else {
      assert (q + [(name, value)])[1..] == q[1..] + [(name, value)];
      assert !Has(q[1..], name) by {
        forall i | 0 <= i < |q[1..]| ensures q[1..][i].0 != name {
          assert q[1..][i] == q[i + 1];
        }
      }
      GetAppendAbsent(q[1..], name, value);
    }
  }

  lemma {:induction false} GetAppendOther(q: Query, name: string, value: string, other: string)
    requires other != name
    ensures Get(q + [(name, value)], other) == Get(q, other)
  {
    if q == [] {
    } else {
      assert (q + [(name, value)])[1..] == q[1..] + [(name, value)];
      GetAppendOther(q[1..], name, value, other);
    }
  }

  /** Lines 78-80 (and 166-168): `if (!params.has("format")) params.set("format", ...)`.
      `set` on an absent name appends the pair. */
  function WithDefaultFormat(q: Query): (r: Query)
    ensures Has(r, FormatKey)
    ensures Get(r, FormatKey) == if Has(q, FormatKey) then Get(q, FormatKey) else Some(LdJson)
    ensures forall name :: name != FormatKey ==> Get(r, name) == Get(q, name)
    ensures |q| <= |r| <= |q| + 1 && r[..|q|] == q
  {
    if Has(q, FormatKey) then q
    else
      var r := q + [(FormatKey, LdJson)];
      GetAppendAbsent(q, FormatKey, LdJson);
      forall name | name != FormatKey ensures Get(r, name) == Get(q, name) {
        GetAppendOther(q, FormatKey, LdJson, name);
      }
      assert r[|q|] == (FormatKey, LdJson);
      r
  }

  /** A query that names a format is left exactly as it was. */
  lemma DefaultFormatKeepsExplicit(q: Query)
    requires Has(q, FormatKey)
    ensures WithDefaultFormat(q) == q
  {
  }

  /** Injecting the default twice is injecting it once. */
  lemma DefaultFormatIdempotent(q: Query)
    ensures WithDefaultFormat(WithDefaultFormat(q)) == WithDefaultFormat(q)
  {
  }

  // ---------------------------------------------------------------------------
  // application/x-www-form-urlencoded serialisation (URLSearchParams.toString)
  // ---------------------------------------------------------------------------

  /** Characters the form-urlencoded serialiser writes as themselves. */
  predicate IsUnreserved(c: char)
  {
    ('a' <= c <= 'z') || ('A' <= c <= 'Z') || ('0' <= c <= '9') ||
    c == '*' || c == '-' || c == '.' || c == '_'
  }

  /** Upper-case hexadecimal digit of a value below 16. */
  function HexDigit(d: nat): (c: char)
    requires d < 16
    ensures ('0' <= c <= '9') || ('A' <= c <= 'F')
  {
    if d < 10 then ('0' as int + d) as char else ('A' as int + d - 10) as char
  }

  /** `%XY` for one byte. */
  function PercentByte(b: nat): (r: string)
    requires b < 256
    ensures |r| == 3 && r[0] == '%'
  {
    ['%', HexDigit(b / 16), HexDigit(b % 16)]
  }

  /** The UTF-8 bytes of one Unicode scalar value. */
  function Utf8(c: char): (r: seq<nat>)
    ensures 1 <= |r| <= 4
    ensures forall i :: 0 <= i < |r| ==> r[i] < 256
  {
    var n := c as int;
    if n < 0x80 then [n]
    else if n < 0x800 then [0xC0 + n / 0x40, 0x80 + n % 0x40]
    else if n < 0x1_0000 then [0xE0 + n / 0x1000, 0x80 + (n / 0x40) % 0x40, 0x80 + n % 0x40]
    else [0xF0 + n / 0x4_0000, 0x80 + (n / 0x1000) % 0x40, 0x80 + (n / 0x40) % 0x40, 0x80 + n % 0x40]
  }

  function PercentBytes(bs: seq<nat>): (r: string)
    requires forall i :: 0 <= i < |bs| ==> bs[i] < 256
    ensures |r| == 3 * |bs|
  {
    if bs == [] then [] else PercentByte(bs[0]) + PercentBytes(bs[1..])
  }

  /** The encoding of one character: itself, `+` for a space, or the
      percent-encoded UTF-8 bytes. */
  function EncodeChar(c: char): (r: string)
  {
    if IsUnreserved(c) then [c]
    else if c == ' ' then "+"
    else PercentBytes(Utf8(c))
  }

  /** The characters an encoded name or value can contain. */
  predicate IsEncodedChar(c: char)
  {
    IsUnreserved(c) || c == '+' || c == '%'
  }

  /** The form-urlencoded serialisation of one name or value. */
  function FormEncode(s: string): string
  {
    if s == [] then [] else EncodeChar(s[0]) + FormEncode(s[1..])
  }

  /** An encoded name or value never contains `=`, `&`, `?`, `#` or `/`, so the
      pairs of a serialised query stay apart. */
  lemma {:induction false} FormEncodeAlphabet(s: string)
    ensures forall i :: 0 <= i < |FormEncode(s)| ==> IsEncodedChar(FormEncode(s)[i])
  {
    if s != [] {
      EncodeCharAlphabet(s[0]);
      FormEncodeAlphabet(s[1..]);
      var head, tail := EncodeChar(s[0]), FormEncode(s[1..]);
      assert FormEncode(s) == head + tail;
      forall i | 0 <= i < |head + tail| ensures IsEncodedChar((head + tail)[i]) {
        if i >= |head| {
          assert (head + tail)[i] == tail[i - |head|];
        }
      }
    }
  }

  lemma EncodeCharAlphabet(c: char)
    ensures forall i :: 0 <= i < |EncodeChar(c)| ==> IsEncodedChar(EncodeChar(c)[i])
  {
    if !IsUnreserved(c) && c != ' ' {
      PercentBytesAlphabet(Utf8(c));
    }
  }

  lemma {:induction false} PercentBytesAlphabet(bs: seq<nat>)
    requires forall i :: 0 <= i < |bs| ==> bs[i] < 256
    ensures forall i :: 0 <= i < |PercentBytes(bs)| ==> IsEncodedChar(PercentBytes(bs)[i])
  {
    if bs != [] {
      PercentBytesAlphabet(bs[1..]);
    }
  }

  /** `URLSearchParams.toString()`: `name=value` pairs joined by `&`. */
  function Serialize(q: Query): (r: string)
    ensures r == [] <==> q == []
  {
    if q == [] then ""
    else
      var pair := FormEncode(q[0].0) + "=" + FormEncode(q[0].1);
      if |q| == 1 then pair else pair + "&" + Serialize(q[1..])
  }

  // ---------------------------------------------------------------------------
  // Upstream URLs
  // ---------------------------------------------------------------------------

  /** Lines 76-92. `path` is Express's `req.path` below the `/api/meetings` mount
      point; `query` is the request's query. */
  function MeetingsUrl(path: string, query: Query): (r: string)
    ensures |r| > |MeetingsBase| && r[..|MeetingsBase|] == MeetingsBase
  {
    var subPath := if path == "/" then "" else path;
    var params := WithDefaultFormat(query);
    if subPath == "" || subPath == "/" then
      MeetingsBase + "?" + Serialize(params)
    else
      var cleanPath := if subPath[0] == '/' then subPath[1..] else subPath;
      MeetingsBase + "/" + cleanPath + "?" + Serialize(params)
  }

  /** Line 170: the id is substituted into a fixed template; the request's query
      takes no part. */
  function MepUrl(id: string): (r: string)
    ensures |r| > |MepsBase| + |id| && r[..|MepsBase|] == MepsBase
    ensures r[|MepsBase|..|MepsBase| + |id|] == id
  {
    MepsBase + id + "?" + MepQuery
  }

  /** The URL's query is exactly what URLSearchParams writes for the single
      pair `format=application/ld+json`. */
  lemma MepUrlQuery(id: string)
    ensures MepUrl(id) == MepsBase + id + "?" + Serialize([(FormatKey, LdJson)])
  {
    FormatQueryText();
  }

  lemma {:induction false} FormEncodeAppend(a: string, b: string)
    ensures FormEncode(a + b) == FormEncode(a) + FormEncode(b)
  {
    if a == [] {
      assert a + b == b;
    } else {
      assert (a + b)[0] == a[0] && (a + b)[1..] == a[1..] + b;
      FormEncodeAppend(a[1..], b);
    }
  }

  /** Text made only of unreserved characters is its own encoding. */
  lemma {:induction false} FormEncodeUnreserved(s: string)
    requires forall i :: 0 <= i < |s| ==> IsUnreserved(s[i])
    ensures FormEncode(s) == s
  {
    if s != [] {
      FormEncodeUnreserved(s[1..]);
    }
  }

  /** `/` and `+` are sent as the percent-encoded bytes of their UTF-8 encoding. */
  lemma EncodeSlashAndPlus()
    ensures FormEncode("/") == "%2F" && FormEncode("+") == "%2B"
  {
    assert FormEncode("/") == EncodeChar('/') + FormEncode([]);
    assert Utf8('/') == [0x2F] && Utf8('+') == [0x2B];
    assert PercentBytes([0x2F]) == PercentByte(0x2F) + PercentBytes([]);
    assert PercentByte(0x2F) == ['%', HexDigit(2), HexDigit(15)];
    assert FormEncode("+") == EncodeChar('+') + FormEncode([]);
    assert PercentBytes([0x2B]) == PercentByte(0x2B) + PercentBytes([]);
    assert PercentByte(0x2B) == ['%', HexDigit(2), HexDigit(11)];
  }

  /** Three unreserved words joined by `/` and `+` keep the words and
      percent-encode the two separators. */
  lemma UnreservedJoin(a: string, l: string, j: string)
    requires forall i :: 0 <= i < |a| ==> IsUnreserved(a[i])
    requires forall i :: 0 <= i < |l| ==> IsUnreserved(l[i])
    requires forall i :: 0 <= i < |j| ==> IsUnreserved(j[i])
    ensures FormEncode(a + "/" + l + "+" + j) == a + "%2F" + l + "%2B" + j
  {
    FormEncodeAppend(a + "/" + l + "+", j);
    FormEncodeAppend(a + "/" + l, "+");
    FormEncodeAppend(a + "/", l);
    FormEncodeAppend(a, "/");
    FormEncodeUnreserved(a);
    FormEncodeUnreserved(l);
    FormEncodeUnreserved(j);
    EncodeSlashAndPlus();
  }

  lemma LdJsonPieces()
    ensures FormEncode(LdJson) == "application" + "%2F" + "ld" + "%2B" + "json"
  {
    assert LdJson == "application" + "/" + "ld" + "+" + "json";
    UnreservedJoin("application", "ld", "json");
  }

  /** The default format as URLSearchParams writes it. */
  lemma LdJsonEncoding()
    ensures FormEncode(LdJson) == "application%2Fld%2Bjson"
  {
    LdJsonPieces();
    LdJsonText();
  }

  lemma LdJsonText()
    ensures "application" + "%2F" + "ld" + "%2B" + "json" == "application%2Fld%2Bjson"
  {
  }

  lemma FormatQueryJoin()
    ensures FormatKey + "=" + "application%2Fld%2Bjson" == MepQuery
  {
  }

  lemma FormatKeyEncoding()
    ensures FormEncode(FormatKey) == FormatKey
  {
    FormEncodeUnreserved(FormatKey);
  }

  lemma FormatQueryPieces()
    ensures Serialize([(FormatKey, LdJson)]) == FormEncode(FormatKey) + "=" + FormEncode(LdJson)
  {
  }

  /** The query of the MEP URL is what URLSearchParams makes of the one pair
      `format=application/ld+json`. */
  lemma FormatQueryText()
    ensures Serialize([(FormatKey, LdJson)]) == MepQuery
  {
    FormatQueryPieces();
    FormatKeyEncoding();
    LdJsonEncoding();
    FormatQueryJoin();
  }

  /** The mount point itself, with or without its slash, maps to the base URL. */
  lemma MeetingsUrlRoot(query: Query)
    ensures MeetingsUrl("", query) == MeetingsUrl("/", query)
    ensures MeetingsUrl("", query) == MeetingsBase + "?" + Serialize(WithDefaultFormat(query))
  {
  }

  /** Exactly one leading slash of a sub-path is dropped: `/x` and `x` reach the same
      upstream resource, below the base URL. */
  lemma MeetingsUrlSubPath(rest: string, query: Query)
    requires rest != "" && rest[0] != '/'
    ensures MeetingsUrl("/" + rest, query) == MeetingsUrl(rest, query)
    ensures MeetingsUrl(rest, query) == MeetingsBase + "/" + rest + "?" + Serialize(WithDefaultFormat(query))
  {
    assert ("/" + rest)[1..] == rest;
  }
}
