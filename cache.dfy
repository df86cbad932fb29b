/** The proxy's response cache (proxy.js, lines 14-71): a process-wide Map from the
    upstream URL to the stored reply, read with lazy expiry, overwritten on store,
    cleared and reported on demand. `Date.now()` is the parameter `now`. */
module Cache {
  import opened Wrappers
  import opened Http

  /** Two hours in milliseconds (line 15). */
  const CacheDuration: int := 2 * 60 * 60 * 1000

  /** What `setCachedResponse` stores: the body as a string, the status, the
      filtered headers and the time of the write. */
  datatype Entry = Entry(data: string, status: int, headers: Headers, timestamp: nat)

  /** An entry may be served while it is younger than the retention window; at
      exactly CacheDuration it is stale (the test of line 25 is strict). */
  predicate IsFresh(e: Entry, now: nat)
  {
    now - e.timestamp < CacheDuration
  }

  /** What `getCachedResponse` returns (lines 23-36). */
  function Lookup(m: map<string, Entry>, key: string, now: nat): Option<Entry>
  {
    if key in m && IsFresh(m[key], now) then Some(m[key]) else None
  }

  /** The map after `getCachedResponse`: a stale entry found by the read is deleted
      (line 33); nothing else changes. */
  function AfterLookup(m: map<string, Entry>, key: string, now: nat): map<string, Entry>
  {
    if key in m && !IsFresh(m[key], now) then m - {key} else m
  }

  /** The key order after `getCachedResponse`: a stale key found by the read
      leaves the Map's order with its entry. */
  function OrderAfterLookup(order: seq<string>, m: map<string, Entry>, key: string, now: nat): seq<string>
  {
    if key in m && !IsFresh(m[key], now) then Without(order, key) else order
  }

  // ---------------------------------------------------------------------------
  // Insertion order: a JavaScript Map iterates its keys in the order they were
  // first set; deleting a key removes it from that order.
  // ---------------------------------------------------------------------------

  predicate Distinct(s: seq<string>)
  {
    forall i, j :: 0 <= i < j < |s| ==> s[i] != s[j]
  }

  /** The key order after `cache.delete(key)`. */
  function Without(order: seq<string>, key: string): (r: seq<string>)
    ensures forall k :: k in r <==> k in order && k != key
    ensures Distinct(order) ==> Distinct(r)
  {
    if order == [] then []
    else
      assert Distinct(order) ==> Distinct(order[1..]) && order[0] !in order[1..] by {
        if Distinct(order) {
          DistinctTail(order);
        }
      }
      if order[0] == key then Without(order[1..], key)
      else [order[0]] + Without(order[1..], key)
  }

  /** Deleting a key the Map does not hold leaves the order as it was. */
  lemma {:induction false} WithoutAbsent(order: seq<string>, key: string)
    requires key !in order
    ensures Without(order, key) == order
  {
    if order != [] {
      WithoutAbsent(order[1..], key);
      assert order == [order[0]] + order[1..];
    }
  }

  /** Deletion works piecewise: it keeps the relative order of everything else. */
  lemma {:induction false} WithoutAppend(a: seq<string>, b: seq<string>, key: string)
    ensures Without(a + b, key) == Without(a, key) + Without(b, key)
  {
    if a == [] {
      assert a + b == b;
    } else {
      assert (a + b)[0] == a[0] && (a + b)[1..] == a[1..] + b;
      WithoutAppend(a[1..], b, key);
    }
  }

  /** In a Map's key order, deleting the key at index `i` cuts out exactly that
      position. */
  lemma WithoutAt(order: seq<string>, i: int)
    requires Distinct(order) && 0 <= i < |order|
    ensures Without(order, order[i]) == order[..i] + order[i + 1..]
  {
    DistinctSplit(order, i);
    assert order == order[..i] + [order[i]] + order[i + 1..];
    WithoutSplit(order[..i], order[i], order[i + 1..]);
  }

  /** Deleting a key held once, between `pre` and `rest`, leaves `pre + rest`. */
  lemma WithoutSplit(pre: seq<string>, key: string, rest: seq<string>)
    requires key !in pre && key !in rest
    ensures Without(pre + [key] + rest, key) == pre + rest
  {
    calc {
      Without(pre + [key] + rest, key);
      == { WithoutAppend(pre + [key], rest, key); }
      Without(pre + [key], key) + Without(rest, key);
      == { WithoutAppend(pre, [key], key); }
      Without(pre, key) + Without([key], key) + Without(rest, key);
      == { WithoutAbsent(pre, key); WithoutAbsent(rest, key); WithoutOnly(key); }
      pre + [] + rest;
      == { assert pre + [] == pre; }
      pre + rest;
    }
  }

  lemma WithoutOnly(key: string)
    ensures Without([key], key) == []
  {
    assert [key][1..] == [];
  }

  /** A key listed once appears neither before nor after its own position. */
  lemma DistinctSplit(order: seq<string>, i: int)
    requires Distinct(order) && 0 <= i < |order|
    ensures order[i] !in order[..i] && order[i] !in order[i + 1..]
  {
    var pre, rest := order[..i], order[i + 1..];
    forall j | 0 <= j < |pre| ensures pre[j] != order[i] {
      assert pre[j] == order[j];
    }
    forall j | 0 <= j < |rest| ensures rest[j] != order[i] {
      assert rest[j] == order[i + 1 + j];
    }
  }

  lemma DistinctTail(s: seq<string>)
    requires Distinct(s) && s != []
    ensures Distinct(s[1..]) && s[0] !in s[1..]
  {
    forall i, j | 0 <= i < j < |s[1..]| ensures s[1..][i] != s[1..][j] {
      assert s[1..][i] == s[i + 1] && s[1..][j] == s[j + 1];
    }
    forall j | 0 <= j < |s[1..]| ensures s[1..][j] != s[0] {
      assert s[1..][j] == s[j + 1];
    }
  }

  /** The key order after `cache.set(key, ...)`: a new key goes last, an existing
      key keeps its place. */
  function WithKey(order: seq<string>, key: string): (r: seq<string>)
    ensures forall k :: k in r <==> k in order || k == key
    ensures Distinct(order) ==> Distinct(r)
  {
    if key in order then order else order + [key]
  }

  lemma {:induction false} DistinctCardinality(s: seq<string>)
    requires Distinct(s)
    ensures |set k | k in s| == |s|
  {
    if s != [] {
      DistinctTail(s);
      DistinctCardinality(s[1..]);
      assert (set k | k in s) == {s[0]} + (set k | k in s[1..]);
    }
  }

  /** A map whose keys are listed once each in `order` has as many entries as
      `order` has elements. */
  lemma SizeIsOrderLength(m: map<string, Entry>, order: seq<string>)
    requires Distinct(order)
    requires forall k :: k in m <==> k in order
    ensures |m| == |order|
  {
    assert m.Keys == set k | k in order;
    DistinctCardinality(order);
  }

  // ---------------------------------------------------------------------------
  // Status report (lines 51-63)
  // ---------------------------------------------------------------------------

  /** `Math.round(x / 1000)`: the nearest whole number of seconds, halves rounded
      up. */
  function RoundedSeconds(ms: int): (s: int)
    ensures 1000 * s - 500 <= ms < 1000 * s + 500
  {
    (ms + 500) / 1000
  }

  datatype StatusRow = StatusRow(url: string, age: int, expires: int)

  datatype StatusReport = StatusReport(cacheSize: nat, cacheDuration: int, entries: seq<StatusRow>)

  /** The report line of one entry: its age and remaining life in seconds. */
  function RowOf(url: string, e: Entry, now: nat): StatusRow
  {
    var age := now - e.timestamp;
    StatusRow(url, RoundedSeconds(age), RoundedSeconds(CacheDuration - age))
  }

  /** The number a string of decimal digits denotes, most significant digit
      first. */
  function DecimalValue(s: string): int
  {
    if s == [] then 0 else 10 * DecimalValue(s[..|s| - 1]) + (s[|s| - 1] as int - '0' as int)
  }

  /** Decimal digits of a count, as a template literal renders it: they denote the
      count, and only zero itself starts with `0`. */
  function Decimal(n: nat): (r: string)
    ensures |r| >= 1
    ensures forall i :: 0 <= i < |r| ==> '0' <= r[i] <= '9'
    ensures DecimalValue(r) == n
    ensures r[0] == '0' ==> n == 0
  {
    var d := [('0' as int + n % 10) as char];
    if n < 10 then d
    else
      var prefix := Decimal(n / 10);
      assert (prefix + d)[..|prefix|] == prefix;
      prefix + d
  }

  const ClearedPrefix: string := "Cache cleared: "
  const ClearedSuffix: string := " entries removed"

  /** The message of `DELETE /api/cache` (line 70). */
  function ClearedMessage(clearedSize: nat): string
  {
    ClearedPrefix + Decimal(clearedSize) + ClearedSuffix
  }

  /** The message names the number of entries removed, and a reader can get it
      back: the digits between the fixed words denote the count. */
  lemma ClearedMessageReportsCount(n: nat)
    ensures var msg := ClearedMessage(n);
      |msg| > |ClearedPrefix| + |ClearedSuffix| &&
      msg[..|ClearedPrefix|] == ClearedPrefix &&
      msg[|msg| - |ClearedSuffix|..] == ClearedSuffix &&
      DecimalValue(msg[|ClearedPrefix|..|msg| - |ClearedSuffix|]) == n
  {
    var digits := Decimal(n);
    var msg := ClearedMessage(n);
    assert msg[..|ClearedPrefix|] == ClearedPrefix;
    assert msg[|ClearedPrefix|..|msg| - |ClearedSuffix|] == digits;
    assert msg[|msg| - |ClearedSuffix|..] == ClearedSuffix;
  }

  class ResponseCache {
    /** The stored replies, by upstream URL. */
    var entries: map<string, Entry>
    /** The keys of `entries` in the Map's iteration order. */
    var order: seq<string>

    ghost predicate Valid()
      reads this
    {
      Distinct(order) && forall k :: k in entries <==> k in order
    }

    /** `new Map()` (line 16). */
    constructor ()
      ensures Valid()
      ensures entries == map[] && order == []
    {
      entries := map[];
      order := [];
    }

    /** `getCachedResponse(cacheKey)` (lines 23-36). */
    method Get(key: string, now: nat) returns (r: Option<Entry>)
      requires Valid()
      modifies this
      ensures Valid()
      ensures r == Lookup(old(entries), key, now)
      ensures entries == AfterLookup(old(entries), key, now)
      ensures order == OrderAfterLookup(old(order), old(entries), key, now)
    {
      if key in entries && now - entries[key].timestamp < CacheDuration {
        return Some(entries[key]);
      }
      if key in entries {
        entries := entries - {key};
        order := Without(order, key);
      }
      return None;
    }

    /** `setCachedResponse(cacheKey, data, status, headers)` (lines 38-48). */
    method Set(key: string, data: string, status: int, headers: Headers, now: nat)
      requires Valid()
      modifies this
      ensures Valid()
      ensures entries == old(entries)[key := Entry(data, status, headers, now)]
      ensures order == WithKey(old(order), key)
    {
      entries := entries[key := Entry(data, status, headers, now)];
      order := WithKey(order, key);
    }

    /** `DELETE /api/cache` (lines 66-71): the size just before the clear, and
        the message that reports it. */
    method Clear() returns (clearedSize: nat, message: string)
      requires Valid()
      modifies this
      ensures Valid()
      ensures clearedSize == |old(entries)| == |old(order)|
      ensures message == ClearedMessage(clearedSize)
      ensures entries == map[] && order == []
    {
      clearedSize := |entries|;
      SizeIsOrderLength(entries, order);
      entries := map[];
      order := [];
      message := ClearedMessage(clearedSize);
    }

    /** `GET /api/cache/status` (lines 51-63): one row per entry, in the Map's
        order, each carrying its own URL. */
    method Status(now: nat) returns (report: StatusReport)
      requires Valid()
      ensures report.cacheSize == |entries|
      ensures report.cacheDuration == 7200
      ensures |report.entries| == |order| == |entries|
      ensures forall i :: 0 <= i < |order| ==>
        order[i] in entries && report.entries[i] == RowOf(order[i], entries[order[i]], now)
      ensures forall k :: k in entries <==> exists i :: 0 <= i < |report.entries| && report.entries[i].url == k
      ensures forall i, j :: 0 <= i < j < |report.entries| ==> report.entries[i].url != report.entries[j].url
    {
      var m, keys := entries, order;
      SizeIsOrderLength(m, keys);
      assert forall i :: 0 <= i < |keys| ==> keys[i] in m;
      var rows := seq(|keys|, i requires 0 <= i < |keys| => RowOf(keys[i], m[keys[i]], now));
      report := StatusReport(|m|, CacheDuration / 1000, rows);
      forall k | k in m ensures exists i :: 0 <= i < |rows| && rows[i].url == k {
        var i :| 0 <= i < |keys| && keys[i] == k;
        assert rows[i].url == k;
      }
    }
  }

  // ---------------------------------------------------------------------------
  // Properties of the cache operations
  // ---------------------------------------------------------------------------

  /** A write followed by a read of the same key, at any later time within the
      window, returns exactly the stored fields; from CacheDuration on, nothing. */
  lemma ReadAfterWrite(m: map<string, Entry>, key: string, data: string, status: int,
                       headers: Headers, written: nat, now: nat)
    ensures var e := Entry(data, status, headers, written);
      Lookup(m[key := e], key, now) == if now - written < CacheDuration then Some(e) else None
  {
  }

  /** An entry read exactly CacheDuration after it was written is stale and is
      deleted by the read; one millisecond earlier it is served. */
  lemma StaleAtExactlyCacheDuration(m: map<string, Entry>, key: string)
    requires key in m
    ensures Lookup(m, key, m[key].timestamp + CacheDuration) == None
    ensures key !in AfterLookup(m, key, m[key].timestamp + CacheDuration)
    ensures Lookup(m, key, m[key].timestamp + CacheDuration - 1) == Some(m[key])
  {
  }

  /** A read only ever deletes its own key, and only a stale one: a fresh or
      absent key leaves the map as it was. */
  lemma LookupFrame(m: map<string, Entry>, key: string, now: nat)
    ensures forall k :: k != key ==> (k in AfterLookup(m, key, now) <==> k in m)
    ensures forall k :: k != key && k in m ==> AfterLookup(m, key, now)[k] == m[k]
    ensures Lookup(m, key, now).Some? || key !in m ==> AfterLookup(m, key, now) == m
    ensures Lookup(m, key, now).None? ==> key !in AfterLookup(m, key, now)
  {
  }

  /** After a clear, every read misses, and the read leaves the cache empty. */
  method ReadAfterClear(cache: ResponseCache, key: string, now: nat) returns (r: Option<Entry>)
    requires cache.Valid()
    modifies cache
    ensures r.None?
    ensures cache.entries == map[] && cache.order == []
  {
    var _, _ := cache.Clear();
    r := cache.Get(key, now);
  }

  /** A write leaves the entries of all other keys as they were. */
  lemma WriteFrame(m: map<string, Entry>, key: string, e: Entry)
    ensures forall k :: k != key ==> (k in m[key := e] <==> k in m)
    ensures forall k :: k != key && k in m ==> m[key := e][k] == m[k]
  {
  }
}
