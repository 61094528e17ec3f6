/** The value-level model of core/cache/lru_cache.go and ttl_manager.go: entries in most-recent-first
    order, one function per operation, and the theorems about whole runs. */
module CacheModel {
  import opened Common

  newtype Byte = x: int | 0 <= x < 256

  /** A Go string: bytes. */
  type Text = seq<Byte>

  /** A cached response; None is Go's nil map, nil slice, or zero time. */
  datatype Response = Response(
    statusCode: int,
    expiry: Option<int>,
    headers: Option<map<Text, seq<Text>>>,
    body: Option<seq<Byte>>)

  // ---------- sizes ----------

  function ValueBytes(values: seq<Text>): nat {
    if values == [] then 0 else ValueBytes(values[..|values| - 1]) + |values[|values| - 1]|
  }

  function Joined(values: seq<Text>): Text {
    if values == [] then [] else values[0] + Joined(values[1..])
  }

  lemma {:induction false} JoinedAppend(values: seq<Text>, v: Text)
    ensures Joined(values + [v]) == Joined(values) + v
  {
    if values == [] {
      assert values + [v] == [v] && Joined([v]) == v + [];
    } else {
      JoinedAppend(values[1..], v);
      assert (values + [v])[1..] == values[1..] + [v];
    }
  }

  /** The values of a header count as the bytes they have together. */
  lemma {:induction false} ValueBytesAreJoined(values: seq<Text>)
    ensures ValueBytes(values) == |Joined(values)|
  {
    if values == [] {
    } else {
      var front, last := values[..|values| - 1], values[|values| - 1];
      ValueBytesAreJoined(front);
      JoinedAppend(front, last);
      assert values == front + [last];
    }
  }

  ghost function HeaderBytes(headers: map<Text, seq<Text>>): nat
    decreases |headers|
  {
    if headers == map[] then 0
    else
      var k :| k in headers;
      HeaderBytes(headers - {k}) + |k| + ValueBytes(headers[k])
  }

  /** The size does not depend on the order in which the map is visited. */
  lemma {:induction false} HeaderBytesPick(headers: map<Text, seq<Text>>, k: Text)
    requires k in headers
    ensures HeaderBytes(headers) == HeaderBytes(headers - {k}) + |k| + ValueBytes(headers[k])
    decreases |headers|
  {
    var p :| p in headers && HeaderBytes(headers) == HeaderBytes(headers - {p}) + |p| + ValueBytes(headers[p]);
    if p == k {
    } else {
      HeaderBytesPick(headers - {p}, k);
      HeaderBytesPick(headers - {k}, p);
      assert headers - {p} - {k} == headers - {k} - {p};
    }
  }

  ghost function EntrySize(key: Text, response: Response): nat {
    |key| + (if response.body.Some? then |response.body.value| else 0) + 8 + 24 +
    if response.headers.Some? then HeaderBytes(response.headers.value) else 0
  }

  // ---------- entries ----------

  datatype Entry = Entry(key: Text, value: Response, size: int)

  predicate Expired(response: Response, now: int) {
    response.expiry.Some? && now > response.expiry.value
  }

  function Total(entries: seq<Entry>): int {
    if entries == [] then 0 else Total(entries[..|entries| - 1]) + entries[|entries| - 1].size
  }

  ghost predicate Unique(entries: seq<Entry>) {
    forall i, j :: 0 <= i < j < |entries| ==> entries[i].key != entries[j].key
  }

  predicate Has(entries: seq<Entry>, key: Text) {
    exists i :: 0 <= i < |entries| && entries[i].key == key
  }

  function Lookup(entries: seq<Entry>, key: Text): (e: Entry)
    requires Has(entries, key)
    ensures e in entries && e.key == key
  {
    if entries[|entries| - 1].key == key then entries[|entries| - 1]
    else
      assert Has(entries[..|entries| - 1], key) by {
        var i :| 0 <= i < |entries| && entries[i].key == key;
        assert entries[..|entries| - 1][i].key == key;
      }
      Lookup(entries[..|entries| - 1], key)
  }

  function Filter(entries: seq<Entry>, p: Entry -> bool): (r: seq<Entry>)
    ensures |r| <= |entries|
    ensures forall e :: e in r <==> e in entries && p(e)
  {
    if entries == [] then []
    else
      var last := entries[|entries| - 1];
      assert entries == entries[..|entries| - 1] + [last];
      if p(last) then Filter(entries[..|entries| - 1], p) + [last] else Filter(entries[..|entries| - 1], p)
  }

  function OtherThan(key: Text): Entry -> bool {
    (e: Entry) => e.key != key
  }

  function LiveAt(now: int): Entry -> bool {
    (e: Entry) => !Expired(e.value, now)
  }

  function Without(entries: seq<Entry>, key: Text): seq<Entry> {
    Filter(entries, OtherThan(key))
  }

  // ---------- operations ----------

  datatype Cache = Cache(capacity: nat, maxMemory: nat, entries: seq<Entry>, hits: nat, misses: nat, evictions: nat)

  /** NewLRUCache. A nonpositive capacity becomes 1, a nonpositive memory cap means unlimited. */
  function Empty(capacity: int, maxMemory: int): Cache {
    Cache(if capacity <= 0 then 1 else capacity, if maxMemory > 0 then maxMemory else 0, [], 0, 0, 0)
  }

  /** What Get answers. */
  function Answer(c: Cache, key: Text, now: int): Option<Response> {
    if Has(c.entries, key) && !Expired(Lookup(c.entries, key).value, now)
    then Some(Lookup(c.entries, key).value) else None
  }

  function Get(c: Cache, key: Text, now: int): Cache {
    if !Has(c.entries, key) then c.(misses := c.misses + 1)
    else if Expired(Lookup(c.entries, key).value, now) then
      c.(entries := Without(c.entries, key), misses := c.misses + 1, evictions := c.evictions + 1)
    else
      c.(entries := [Lookup(c.entries, key)] + Without(c.entries, key), hits := c.hits + 1)
  }

  /** The stored form of a response: its expiry is replaced according to the TTL. */
  function Stamped(value: Response, ttl: int, now: int): Response {
    value.(expiry := if ttl > 0 then Some(now + ttl) else None)
  }

  ghost function NewEntry(key: Text, value: Response, ttl: int, now: int): Entry {
    Entry(key, Stamped(value, ttl, now), EntrySize(key, Stamped(value, ttl, now)))
  }

  predicate Fits(entries: seq<Entry>, capacity: nat, maxMemory: nat) {
    |entries| <= capacity && (maxMemory > 0 ==> Total(entries) <= maxMemory)
  }

  /** Evicts from the back until both caps hold. */
  function Evict(entries: seq<Entry>, capacity: nat, maxMemory: nat): (r: seq<Entry>)
    ensures |r| <= |entries| && r == entries[..|r|] && Fits(r, capacity, maxMemory)
  {
    if entries == [] || Fits(entries, capacity, maxMemory) then entries
    else Evict(entries[..|entries| - 1], capacity, maxMemory)
  }

  function StoreEntry(c: Cache, e: Entry): Cache {
    if Has(c.entries, e.key) then c.(entries := [e] + Without(c.entries, e.key))
    else
      var kept := Evict([e] + c.entries, c.capacity, c.maxMemory);
      c.(entries := kept, evictions := c.evictions + (|c.entries| + 1 - |kept|))
  }

  ghost function Set(c: Cache, key: Text, value: Response, ttl: int, now: int): Cache {
    StoreEntry(c, NewEntry(key, value, ttl, now))
  }

  function Delete(c: Cache, key: Text): Cache {
    c.(entries := Without(c.entries, key))
  }

  function Sweep(c: Cache, now: int): Cache {
    var live := Filter(c.entries, LiveAt(now));
    c.(entries := live, evictions := c.evictions + (|c.entries| - |live|))
  }

  // ---------- eviction is exact ----------

  /** An inserting Set keeps the longest prefix of new entry and old recency order that meets both
      caps: it meets them, and no longer prefix does. */
  lemma {:induction false} EvictIsLongest(entries: seq<Entry>, capacity: nat, maxMemory: nat, j: nat)
    requires |Evict(entries, capacity, maxMemory)| < j <= |entries|
    ensures !Fits(entries[..j], capacity, maxMemory)
  {
    if j == |entries| {
      assert entries[..j] == entries;
    } else {
      EvictIsLongest(entries[..|entries| - 1], capacity, maxMemory, j);
      assert entries[..|entries| - 1][..j] == entries[..j];
    }
  }

  /** An inserting Set leaves nothing at all, not even the new entry, if and only if the new entry alone is
      over the byte cap. */
  lemma OversizedEmpties(c: Cache, key: Text, value: Response, ttl: int, now: int)
    requires !Has(c.entries, key) && c.capacity > 0
    requires forall e :: e in c.entries ==> e.size >= 0
    ensures Set(c, key, value, ttl, now).entries == [] <==>
            c.maxMemory > 0 && NewEntry(key, value, ttl, now).size > c.maxMemory
  {
    var e := NewEntry(key, value, ttl, now);
    var p := [e] + c.entries;
    var kept := Evict(p, c.capacity, c.maxMemory);
    if c.maxMemory > 0 && e.size > c.maxMemory {
      if kept != [] {
        TotalAtLeastHead(kept);
      }
    } else {
      TotalSingle(e);
      assert p[..1] == [e];
      assert Fits(p[..1], c.capacity, c.maxMemory);
      if kept == [] {
        EvictIsLongest(p, c.capacity, c.maxMemory, 1);
      }
    }
  }

  lemma {:induction false} TotalAtLeastHead(entries: seq<Entry>)
    requires entries != [] && forall i :: 1 <= i < |entries| ==> entries[i].size >= 0
    ensures Total(entries) >= entries[0].size
  {
    if |entries| > 1 {
      TotalAtLeastHead(entries[..|entries| - 1]);
    } else {
      assert Total(entries[..0]) == 0;
    }
  }

  // ---------- filters ----------

  lemma {:induction false} FilterUnique(entries: seq<Entry>, p: Entry -> bool)
    requires Unique(entries)
    ensures Unique(Filter(entries, p))
  {
    if entries == [] {
    } else {
      var front, last := entries[..|entries| - 1], entries[|entries| - 1];
      FilterUnique(front, p);
      forall e | e in Filter(front, p) ensures e.key != last.key {
        var i :| 0 <= i < |front| && front[i] == e;
        assert entries[i].key != last.key;
      }
    }
  }

  lemma {:induction false} FilterAll(entries: seq<Entry>, p: Entry -> bool)
    requires forall e :: e in entries ==> p(e)
    ensures Filter(entries, p) == entries
  {
    if entries == [] {
    } else {
      FilterAll(entries[..|entries| - 1], p);
    }
  }

  lemma {:induction false} WithoutLength(entries: seq<Entry>, key: Text)
    requires Unique(entries)
    ensures |Without(entries, key)| == |entries| - if Has(entries, key) then 1 else 0
  {
    if entries == [] {
    } else {
      var front, last := entries[..|entries| - 1], entries[|entries| - 1];
      WithoutLength(front, key);
      HasLast(entries, key);
      assert last.key == key ==> !Has(front, key);
    }
  }

  lemma HasLast(entries: seq<Entry>, key: Text)
    requires entries != []
    ensures Has(entries, key) <==> entries[|entries| - 1].key == key || Has(entries[..|entries| - 1], key)
  {
    if Has(entries, key) {
      var i :| 0 <= i < |entries| && entries[i].key == key;
      assert i < |entries| - 1 ==> entries[..|entries| - 1][i].key == key;
    }
  }

  lemma UniqueLookup(entries: seq<Entry>, e: Entry)
    requires Unique(entries) && e in entries
    ensures Has(entries, e.key) && Lookup(entries, e.key) == e
  {
    var i :| 0 <= i < |entries| && entries[i] == e;
    assert entries[i].key == e.key;
    var j :| 0 <= j < |entries| && entries[j] == Lookup(entries, e.key);
  }

  lemma PrependUnique(entries: seq<Entry>, e: Entry)
    requires Unique(entries) && !Has(entries, e.key)
    ensures Unique([e] + entries)
  {
  }

  // ---------- removing by position ----------

  /** Among unique keys, removing the entry at an index is removing its key. */
  lemma {:induction false} WithoutAt(entries: seq<Entry>, i: nat)
    requires Unique(entries) && i < |entries|
    ensures Without(entries, entries[i].key) == entries[..i] + entries[i + 1..]
    ensures Has(entries, entries[i].key) && Lookup(entries, entries[i].key) == entries[i]
  {
    UniqueLookup(entries, entries[i]);
    var front, last := entries[..|entries| - 1], entries[|entries| - 1];
    if i == |entries| - 1 {
      assert !Has(front, last.key);
      FilterAll(front, OtherThan(last.key));
      assert entries[i + 1..] == [];
    } else {
      WithoutAt(front, i);
      assert front[i] == entries[i];
      assert front[..i] + front[i + 1..] + [last] == entries[..i] + entries[i + 1..];
    }
  }

  lemma {:induction false} FilterConcat(a: seq<Entry>, b: seq<Entry>, p: Entry -> bool)
    ensures Filter(a + b, p) == Filter(a, p) + Filter(b, p)
  {
    if b == [] {
      assert a + b == a;
    } else {
      assert (a + b)[..|a + b| - 1] == a + b[..|b| - 1];
      FilterConcat(a, b[..|b| - 1], p);
    }
  }

  lemma {:induction false} TotalConcat(a: seq<Entry>, b: seq<Entry>)
    ensures Total(a + b) == Total(a) + Total(b)
  {
    if b == [] {
      assert a + b == a;
    } else {
      assert (a + b)[..|a + b| - 1] == a + b[..|b| - 1];
      TotalConcat(a, b[..|b| - 1]);
    }
  }

  /** Removing the entry at an index takes its size off the total. */
  lemma TotalWithoutAt(entries: seq<Entry>, i: nat)
    requires i < |entries|
    ensures Total(entries[..i] + entries[i + 1..]) == Total(entries) - entries[i].size
  {
    hide Total;
    assert entries == entries[..i] + ([entries[i]] + entries[i + 1..]);
    TotalConcat(entries[..i], [entries[i]] + entries[i + 1..]);
    TotalConcat([entries[i]], entries[i + 1..]);
    TotalConcat(entries[..i], entries[i + 1..]);
    TotalSingle(entries[i]);
  }

  lemma TotalSingle(e: Entry)
    ensures Total([e]) == e.size
  {
    assert [e][..0] == [];
  }
}
