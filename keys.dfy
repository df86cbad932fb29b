/** The cache key is the upstream URL (proxy.js, lines 19-21, 98, 174). These
    lemmas show that the key conflates nothing: two meetings requests share a key
    exactly when they name the same sub-resource and, once the default format is
    injected, the same query; MEP keys differ with the id and never meet a
    meetings key. The core of the argument is that form-urlencoding is injective. */
module Keys {
  import opened Wrappers
  import opened Query

  // ---------------------------------------------------------------------------
  // Form-urlencoding is injective
  // ---------------------------------------------------------------------------

  lemma HexDigitInjective(a: nat, b: nat)
    requires a < 16 && b < 16 && HexDigit(a) == HexDigit(b)
    ensures a == b
  {
  }

  /** Two runs of percent-encoded bytes of the same length that start two equal
      strings are the same bytes, and what follows them is equal too. */
  lemma {:induction false} PercentBytesPrefix(bs1: seq<nat>, bs2: seq<nat>, r1: string, r2: string)
    requires forall i :: 0 <= i < |bs1| ==> bs1[i] < 256
    requires forall i :: 0 <= i < |bs2| ==> bs2[i] < 256
    requires |bs1| == |bs2|
    requires PercentBytes(bs1) + r1 == PercentBytes(bs2) + r2
    ensures bs1 == bs2 && r1 == r2
  {
    if bs1 == [] {
      assert bs2 == [];
      assert PercentBytes(bs1) + r1 == r1 && PercentBytes(bs2) + r2 == r2;
    } else {
      var t1, t2 := PercentBytes(bs1[1..]) + r1, PercentBytes(bs2[1..]) + r2;
      assert PercentBytes(bs1) == PercentByte(bs1[0]) + PercentBytes(bs1[1..]);
      assert PercentBytes(bs2) == PercentByte(bs2[0]) + PercentBytes(bs2[1..]);
      assert PercentBytes(bs1) + r1 == PercentByte(bs1[0]) + t1;
      assert PercentBytes(bs2) + r2 == PercentByte(bs2[0]) + t2;
      FirstByteOfPercent(bs1[0], bs2[0], t1, t2);
      PercentBytesPrefix(bs1[1..], bs2[1..], r1, r2);
      assert bs1 == [bs1[0]] + bs1[1..] && bs2 == [bs2[0]] + bs2[1..];
    }
  }

  lemma FirstByteOfPercent(b1: nat, b2: nat, t1: string, t2: string)
    requires b1 < 256 && b2 < 256
    requires PercentByte(b1) + t1 == PercentByte(b2) + t2
    ensures b1 == b2 && t1 == t2
  {
    var s1, s2 := PercentByte(b1) + t1, PercentByte(b2) + t2;
    assert s1[1] == HexDigit(b1 / 16) && s2[1] == HexDigit(b2 / 16);
    assert s1[2] == HexDigit(b1 % 16) && s2[2] == HexDigit(b2 % 16);
    HexDigitInjective(b1 / 16, b2 / 16);
    HexDigitInjective(b1 % 16, b2 % 16);
    assert t1 == s1[3..] && t2 == s2[3..];
  }

  /** The number of bytes of a UTF-8 sequence, read off its first byte. */
  function LeadLength(b: nat): nat
  {
    if b < 0x80 then 1 else if b < 0xE0 then 2 else if b < 0xF0 then 3 else 4
  }

  lemma Utf8Lead(c: char)
    ensures |Utf8(c)| == LeadLength(Utf8(c)[0])
  {
  }

  /** The length of a character's UTF-8 sequence tells the range it lies in. */
  lemma Utf8Range(c: char)
    ensures |Utf8(c)| == 1 <==> (c as int) < 0x80
    ensures |Utf8(c)| == 2 <==> 0x80 <= (c as int) < 0x800
    ensures |Utf8(c)| == 3 <==> 0x800 <= (c as int) < 0x1_0000
    ensures |Utf8(c)| == 4 <==> 0x1_0000 <= (c as int)
  {
  }

  lemma SixBitDigits(n1: nat, n2: nat)
    requires n1 / 0x40 == n2 / 0x40 && n1 % 0x40 == n2 % 0x40
    ensures n1 == n2
  {
  }

  lemma DivBy64(n: nat, q: nat, r: nat)
    requires n == 0x40 * q + r && r < 0x40
    ensures n / 0x40 == q
  {
  }

  /** Dividing by 64 twice is dividing by 4096. */
  lemma DivBy64Twice(n: nat)
    ensures (n / 0x40) / 0x40 == n / 0x1000
  {
    var q, r := n / 0x1000, n % 0x1000;
    assert r == 0x40 * (r / 0x40) + r % 0x40;
    DivBy64(n, 0x40 * q + r / 0x40, r % 0x40);
    DivBy64(0x40 * q + r / 0x40, q, r / 0x40);
  }

  lemma TwelveBitDigits(n1: nat, n2: nat)
    requires n1 / 0x1000 == n2 / 0x1000 && (n1 / 0x40) % 0x40 == (n2 / 0x40) % 0x40
    ensures n1 / 0x40 == n2 / 0x40
  {
    DivBy64Twice(n1);
    DivBy64Twice(n2);
    SixBitDigits(n1 / 0x40, n2 / 0x40);
  }

  lemma EighteenBitDigits(n1: nat, n2: nat)
    requires n1 / 0x4_0000 == n2 / 0x4_0000 && (n1 / 0x1000) % 0x40 == (n2 / 0x1000) % 0x40
    ensures n1 / 0x1000 == n2 / 0x1000
  {
    DivBy64Twice(n1 / 0x40);
    DivBy64Twice(n2 / 0x40);
    DivBy64Twice(n1);
    DivBy64Twice(n2);
    SixBitDigits(n1 / 0x1000, n2 / 0x1000);
  }

  lemma Utf8Injective(c1: char, c2: char)
    requires Utf8(c1) == Utf8(c2)
    ensures c1 == c2
  {
    var n1, n2 := c1 as int, c2 as int;
    var u := Utf8(c1);
    Utf8Range(c1);
    Utf8Range(c2);
    if |u| == 1 {
      assert u[0] == n1 == n2;
    } else if |u| == 2 {
      assert u[0] == 0xC0 + n1 / 0x40 == 0xC0 + n2 / 0x40;
      assert u[1] == 0x80 + n1 % 0x40 == 0x80 + n2 % 0x40;
      SixBitDigits(n1, n2);
    } else if |u| == 3 {
      assert u[0] == 0xE0 + n1 / 0x1000 == 0xE0 + n2 / 0x1000;
      assert u[1] == 0x80 + (n1 / 0x40) % 0x40 == 0x80 + (n2 / 0x40) % 0x40;
      assert u[2] == 0x80 + n1 % 0x40 == 0x80 + n2 % 0x40;
      TwelveBitDigits(n1, n2);
      SixBitDigits(n1, n2);
    } else {
      assert u[0] == 0xF0 + n1 / 0x4_0000 == 0xF0 + n2 / 0x4_0000;
      assert u[1] == 0x80 + (n1 / 0x1000) % 0x40 == 0x80 + (n2 / 0x1000) % 0x40;
      assert u[2] == 0x80 + (n1 / 0x40) % 0x40 == 0x80 + (n2 / 0x40) % 0x40;
      assert u[3] == 0x80 + n1 % 0x40 == 0x80 + n2 % 0x40;
      EighteenBitDigits(n1, n2);
      TwelveBitDigits(n1, n2);
      SixBitDigits(n1, n2);
    }
  }

  /** The encodings of single characters form a prefix-free code. */
  lemma EncodeCharPrefixFree(c1: char, c2: char, r1: string, r2: string)
    requires EncodeChar(c1) + r1 == EncodeChar(c2) + r2
    ensures c1 == c2 && r1 == r2
  {
    var e1, e2 := EncodeChar(c1), EncodeChar(c2);
    var s := e1 + r1;
    EncodeCharFirst(c1);
    EncodeCharFirst(c2);
    assert s[0] == e1[0] == e2[0];
    if IsUnreserved(c1) || c1 == ' ' {
      assert c1 == c2;
      assert r1 == s[1..] == r2;
    } else {
      var u1, u2 := Utf8(c1), Utf8(c2);
      assert PercentBytes(u1) == PercentByte(u1[0]) + PercentBytes(u1[1..]);
      assert PercentBytes(u2) == PercentByte(u2[0]) + PercentBytes(u2[1..]);
      Associative(PercentByte(u1[0]), PercentBytes(u1[1..]), r1);
      Associative(PercentByte(u2[0]), PercentBytes(u2[1..]), r2);
      FirstByteOfPercent(u1[0], u2[0], PercentBytes(u1[1..]) + r1, PercentBytes(u2[1..]) + r2);
      Utf8Lead(c1);
      Utf8Lead(c2);
      PercentBytesPrefix(u1, u2, r1, r2);
      Utf8Injective(c1, c2);
    }
  }

  /** A character left as is or turned into `+` encodes to one character other
      than `%`; every other character to a run starting with `%`. */
  lemma EncodeCharFirst(c: char)
    ensures |EncodeChar(c)| >= 1
    ensures IsUnreserved(c) || c == ' ' <==> EncodeChar(c)[0] != '%'
    ensures IsUnreserved(c) || c == ' ' ==> |EncodeChar(c)| == 1
  {
    if !IsUnreserved(c) && c != ' ' {
      Utf8Lead(c);
      var u := Utf8(c);
      assert EncodeChar(c) == PercentByte(u[0]) + PercentBytes(u[1..]);
    }
  }

  lemma {:induction false} FormEncodeInjective(s1: string, s2: string)
    requires FormEncode(s1) == FormEncode(s2)
    ensures s1 == s2
  {
    if s1 == [] || s2 == [] {
      if s1 != [] { EncodeCharFirst(s1[0]); }
      if s2 != [] { EncodeCharFirst(s2[0]); }
    } else {
      EncodeCharPrefixFree(s1[0], s2[0], FormEncode(s1[1..]), FormEncode(s2[1..]));
      FormEncodeInjective(s1[1..], s2[1..]);
      assert s1 == [s1[0]] + s1[1..] && s2 == [s2[0]] + s2[1..];
    }
  }

  // ---------------------------------------------------------------------------
  // The serialised query determines the query
  // ---------------------------------------------------------------------------

  /** Cutting two equal strings at the first occurrence of a separator gives
      equal pieces. */
  lemma SplitAtSeparator(a: string, b: string, a': string, b': string, sep: char)
    requires sep !in a && sep !in a'
    requires a + [sep] + b == a' + [sep] + b'
    ensures a == a' && b == b'
  {
    var s := a + [sep] + b;
    assert forall i :: 0 <= i < |a| ==> s[i] == a[i] != sep;
    assert forall i :: 0 <= i < |a'| ==> s[i] == a'[i] != sep;
    assert s[|a|] == sep && s[|a'|] == sep;
    assert |a| == |a'|;
    assert a == s[..|a|] == a';
    assert b == s[|a| + 1..] == b';
  }

  lemma NoSeparatorInEncoding(s: string)
    ensures '=' !in FormEncode(s) && '&' !in FormEncode(s) && '?' !in FormEncode(s)
  {
    FormEncodeAlphabet(s);
  }

  /** What follows the first `=` of a serialised query. */
  function AfterName(q: Query): string
    requires q != []
  {
    if |q| == 1 then FormEncode(q[0].1) else FormEncode(q[0].1) + "&" + Serialize(q[1..])
  }

  lemma SerializeShape(q: Query)
    requires q != []
    ensures Serialize(q) == FormEncode(q[0].0) + ['='] + AfterName(q)
  {
    var k, v := FormEncode(q[0].0), FormEncode(q[0].1);
    var pair := k + "=" + v;
    if |q| == 1 {
      assert Serialize(q) == pair;
      assert AfterName(q) == v;
    } else {
      var rest := Serialize(q[1..]);
      assert Serialize(q) == pair + "&" + rest;
      assert AfterName(q) == v + "&" + rest;
      Associative(pair, "&", rest);
      Associative(k + "=", v, "&" + rest);
      Associative(v, "&", rest);
    }
  }

  lemma SeparatorIn(a: string, sep: char, b: string)
    ensures sep in a + [sep] + b
  {
    assert (a + [sep] + b)[|a|] == sep;
  }

  /** Equal text after the first `=` means equal first values and equal
      serialised remainders. */
  lemma AfterNameSplit(q1: Query, q2: Query)
    requires q1 != [] && q2 != [] && AfterName(q1) == AfterName(q2)
    ensures q1[0].1 == q2[0].1
    ensures |q1| == 1 <==> |q2| == 1
    ensures |q1| > 1 ==> Serialize(q1[1..]) == Serialize(q2[1..])
  {
    var v1, v2 := FormEncode(q1[0].1), FormEncode(q2[0].1);
    NoSeparatorInEncoding(q1[0].1);
    NoSeparatorInEncoding(q2[0].1);
    if |q1| == 1 && |q2| == 1 {
      FormEncodeInjective(q1[0].1, q2[0].1);
    } else if |q1| == 1 {
      SeparatorIn(v2, '&', Serialize(q2[1..]));
      assert false;
    } else if |q2| == 1 {
      SeparatorIn(v1, '&', Serialize(q1[1..]));
      assert false;
    } else {
      SplitAtSeparator(v1, Serialize(q1[1..]), v2, Serialize(q2[1..]), '&');
      FormEncodeInjective(q1[0].1, q2[0].1);
    }
  }

  lemma {:induction false} SerializeInjective(q1: Query, q2: Query)
    requires Serialize(q1) == Serialize(q2)
    ensures q1 == q2
  {
    if q1 == [] || q2 == [] {
    } else {
      var k1, k2 := FormEncode(q1[0].0), FormEncode(q2[0].0);
      SerializeShape(q1);
      SerializeShape(q2);
      NoSeparatorInEncoding(q1[0].0);
      NoSeparatorInEncoding(q2[0].0);
      SplitAtSeparator(k1, AfterName(q1), k2, AfterName(q2), '=');
      FormEncodeInjective(q1[0].0, q2[0].0);
      AfterNameSplit(q1, q2);
      if |q1| > 1 {
        SerializeInjective(q1[1..], q2[1..]);
      }
      assert q1 == [q1[0]] + q1[1..] && q2 == [q2[0]] + q2[1..];
    }
  }

  lemma {:induction false} NoQuestionMarkInQuery(q: Query)
    ensures '?' !in Serialize(q)
  {
    if q != [] {
      NoSeparatorInEncoding(q[0].0);
      NoSeparatorInEncoding(q[0].1);
      if |q| > 1 {
        NoQuestionMarkInQuery(q[1..]);
      }
    }
  }

  // ---------------------------------------------------------------------------
  // Cache keys of the two routes
  // ---------------------------------------------------------------------------

  /** The upstream resource below the meetings base a request path names: none for
      the mount point itself, otherwise the path without one leading slash. */
  function SubResource(path: string): Option<string>
  {
    var subPath := if path == "/" then "" else path;
    if subPath == "" || subPath == "/" then None
    else Some(if subPath[0] == '/' then subPath[1..] else subPath)
  }

  /** The part of a meetings URL after the base. */
  function UrlTail(path: string, query: Query): string
  {
    Tail(SubResource(path), Serialize(WithDefaultFormat(query)))
  }

  /** A sub-resource, if any, then the serialised query after a `?`. */
  function Tail(sub: Option<string>, q: string): string
  {
    match sub
    case None => "?" + q
    case Some(r) => "/" + r + "?" + q
  }

  lemma MeetingsUrlShape(path: string, query: Query)
    ensures MeetingsUrl(path, query) == MeetingsBase + UrlTail(path, query)
  {
    var q := Serialize(WithDefaultFormat(query));
    if path == "/" || path == "" {
      assert MeetingsUrl(path, query) == MeetingsBase + "?" + q;
      assert UrlTail(path, query) == "?" + q;
      Associative(MeetingsBase, "?", q);
    } else {
      var r := if path[0] == '/' then path[1..] else path;
      assert MeetingsUrl(path, query) == MeetingsBase + "/" + r + "?" + q;
      assert UrlTail(path, query) == "/" + r + "?" + q;
      Associative(MeetingsBase, "/" + r + "?", q);
      Associative(MeetingsBase, "/" + r, "?");
      Associative(MeetingsBase, "/", r);
    }
  }

  lemma Associative(a: string, b: string, c: string)
    ensures a + b + c == a + (b + c)
  {
  }

  lemma CancelPrefix(a: string, t1: string, t2: string)
    requires a + t1 == a + t2
    ensures t1 == t2
  {
    assert t1 == (a + t1)[|a|..];
    assert t2 == (a + t2)[|a|..];
  }

  lemma SubResourceHasNoQuestionMark(path: string)
    requires '?' !in path
    ensures SubResource(path).Some? ==> '?' !in SubResource(path).value
  {
  }

  /** The tail after the base gives back the sub-resource and the serialised
      query. */
  lemma TailInjective(sub1: Option<string>, q1: string, sub2: Option<string>, q2: string)
    requires sub1.Some? ==> '?' !in sub1.value
    requires sub2.Some? ==> '?' !in sub2.value
    requires Tail(sub1, q1) == Tail(sub2, q2)
    ensures sub1 == sub2 && q1 == q2
  {
    var t1, t2 := Tail(sub1, q1), Tail(sub2, q2);
    assert t1[0] == '?' <==> sub1.None?;
    assert t2[0] == '?' <==> sub2.None?;
    if sub1.None? {
      assert q1 == t1[1..] == q2;
    } else {
      var r1, r2 := sub1.value, sub2.value;
      assert t1[1..] == r1 + ['?'] + q1 && t2[1..] == r2 + ['?'] + q2;
      SplitAtSeparator(r1, q1, r2, q2, '?');
    }
  }

  /** Two meetings requests (whose paths, as Express gives them, hold no `?`) share
      a cache key exactly when they name the same sub-resource and, with the
      default format injected, the same query. */
  lemma MeetingsKeyDeterminesRequest(p1: string, q1: Query, p2: string, q2: Query)
    requires '?' !in p1 && '?' !in p2
    ensures MeetingsUrl(p1, q1) == MeetingsUrl(p2, q2) <==>
      SubResource(p1) == SubResource(p2) && WithDefaultFormat(q1) == WithDefaultFormat(q2)
  {
    MeetingsUrlShape(p1, q1);
    MeetingsUrlShape(p2, q2);
    if MeetingsUrl(p1, q1) == MeetingsUrl(p2, q2) {
      CancelPrefix(MeetingsBase, UrlTail(p1, q1), UrlTail(p2, q2));
      SubResourceHasNoQuestionMark(p1);
      SubResourceHasNoQuestionMark(p2);
      TailInjective(SubResource(p1), Serialize(WithDefaultFormat(q1)),
                    SubResource(p2), Serialize(WithDefaultFormat(q2)));
      SerializeInjective(WithDefaultFormat(q1), WithDefaultFormat(q2));
    }
  }

  /** Different MEP ids never share a cache key. */
  lemma MepKeyDeterminesId(id1: string, id2: string)
    requires MepUrl(id1) == MepUrl(id2)
    ensures id1 == id2
  {
    var u := MepUrl(id1);
    assert id1 == u[|MepsBase|..|MepsBase| + |id1|];
    assert id2 == u[|MepsBase|..|MepsBase| + |id2|];
  }

  /** A MEP key and a meetings key are never the same URL: the bases part at
      `meps/` against `meetings`. */
  lemma RoutesNeverShareKeys(id: string, path: string, query: Query)
    ensures MepUrl(id) != MeetingsUrl(path, query)
  {
    MeetingsUrlShape(path, query);
    assert MepsBase[41] == 'p' && MeetingsBase[41] == 'e';
    assert MepUrl(id)[41] == 'p';
    assert MeetingsUrl(path, query)[41] == 'e';
  }
}
