/** Whole runs of the cache: what every sequence of operations keeps, and how caches of different
    capacities compare on the same sequence. */
module CacheRuns {
  import opened Common
  import opened CacheModel

  datatype Op =
    | DoGet(key: Text, now: int)
    | DoSet(key: Text, value: Response, ttl: int, now: int)
    | DoDelete(key: Text)
    | DoSweep(now: int)

  ghost function Step(c: Cache, op: Op): Cache {
    match op
    case DoGet(key, now) => Get(c, key, now)
    case DoSet(key, value, ttl, now) => Set(c, key, value, ttl, now)
    case DoDelete(key) => Delete(c, key)
    case DoSweep(now) => Sweep(c, now)
  }

  ghost function Run(c: Cache, ops: seq<Op>): Cache {
    if ops == [] then c else Step(Run(c, ops[..|ops| - 1]), ops[|ops| - 1])
  }

  // ---------- what every operation keeps ----------

  ghost predicate Sized(entries: seq<Entry>) {
    forall e :: e in entries ==> e.size == EntrySize(e.key, e.value)
  }

  /** The invariant: configured caps are legal, keys are unique, sizes are those of the stored
      responses, and the count cap holds. (The byte cap is no invariant: an update does not evict.) */
  ghost predicate Inv(c: Cache) {
    c.capacity > 0 && Unique(c.entries) && Sized(c.entries) && |c.entries| <= c.capacity
  }

  lemma StepKeepsInv(c: Cache, op: Op)
    requires Inv(c)
    ensures Inv(Step(c, op)) && Step(c, op).capacity == c.capacity && Step(c, op).maxMemory == c.maxMemory
  {
    match op
    case DoGet(key, now) =>
      MoveKeepsUnique(c.entries, key);
    case DoSet(key, value, ttl, now) =>
      var e := NewEntry(key, value, ttl, now);
      if Has(c.entries, key) {
        MoveKeepsUnique(c.entries, key);
        PrependUnique(Without(c.entries, key), e);
      } else {
        PrependUnique(c.entries, e);
      }
    case DoDelete(key) =>
      FilterUnique(c.entries, OtherThan(key));
    case DoSweep(now) =>
      FilterUnique(c.entries, LiveAt(now));
  }

  lemma MoveKeepsUnique(entries: seq<Entry>, key: Text)
    requires Unique(entries)
    ensures Unique(Without(entries, key)) && !Has(Without(entries, key), key)
    ensures |Without(entries, key)| == |entries| - if Has(entries, key) then 1 else 0
    ensures Has(entries, key) ==> Unique([Lookup(entries, key)] + Without(entries, key))
  {
    FilterUnique(entries, OtherThan(key));
    WithoutLength(entries, key);
    var rest := Without(entries, key);
    forall i | 0 <= i < |rest| ensures rest[i].key != key {
      assert rest[i] in rest;
    }
    if Has(entries, key) {
      PrependUnique(Without(entries, key), Lookup(entries, key));
    }
  }

  lemma {:induction false} RunKeepsInv(c: Cache, ops: seq<Op>)
    requires Inv(c)
    ensures Inv(Run(c, ops)) && Run(c, ops).capacity == c.capacity && Run(c, ops).maxMemory == c.maxMemory
  {
    if ops == [] {
    } else {
      RunKeepsInv(c, ops[..|ops| - 1]);
      StepKeepsInv(Run(c, ops[..|ops| - 1]), ops[|ops| - 1]);
    }
  }

  // ---------- the byte cap ----------

  lemma {:induction false} TotalOfFilter(entries: seq<Entry>, p: Entry -> bool)
    requires Sized(entries)
    ensures Total(Filter(entries, p)) <= Total(entries)
  {
    if entries == [] {
    } else {
      var front, last := entries[..|entries| - 1], entries[|entries| - 1];
      assert forall e :: e in front ==> e in entries;
      TotalOfFilter(front, p);
      TotalConcat(Filter(front, p), [last]);
      TotalSingle(last);
    }
  }

  lemma TotalAfterMove(entries: seq<Entry>, key: Text, e: Entry)
    requires Unique(entries) && Has(entries, key)
    ensures Total([e] + Without(entries, key)) == Total(entries) - Lookup(entries, key).size + e.size
  {
    var i :| 0 <= i < |entries| && entries[i].key == key;
    WithoutAt(entries, i);
    TotalWithoutAt(entries, i);
    TotalConcat([e], Without(entries, key));
    TotalSingle(e);
  }

  /** An operation that starts within the byte cap ends within it, unless it is an update that
      itself adds more than there is room for. */
  lemma ByteCapExactly(c: Cache, op: Op)
    requires Inv(c) && c.maxMemory > 0 && Total(c.entries) <= c.maxMemory
    ensures Total(Step(c, op).entries) <= c.maxMemory <==>
      !(op.DoSet? && Has(c.entries, op.key) &&
        Total(c.entries) - Lookup(c.entries, op.key).size + NewEntry(op.key, op.value, op.ttl, op.now).size
          > c.maxMemory)
  {
    match op
    case DoGet(key, now) =>
      TotalOfFilter(c.entries, OtherThan(key));
      if Has(c.entries, key) {
        TotalAfterMove(c.entries, key, Lookup(c.entries, key));
      }
    case DoSet(key, value, ttl, now) =>
      if Has(c.entries, key) {
        TotalAfterMove(c.entries, key, NewEntry(key, value, ttl, now));
      }
    case DoDelete(key) => TotalOfFilter(c.entries, OtherThan(key));
    case DoSweep(now) => TotalOfFilter(c.entries, LiveAt(now));
  }

  /** Below the size of the smallest entry, nothing ever stays. */
  lemma {:induction false} TinyCapStaysEmpty(capacity: int, maxMemory: int, ops: seq<Op>)
    requires 0 < maxMemory < 32
    ensures Run(Empty(capacity, maxMemory), ops).entries == []
  {
    if ops == [] {
    } else {
      var front, op := ops[..|ops| - 1], ops[|ops| - 1];
      TinyCapStaysEmpty(capacity, maxMemory, front);
      RunKeepsInv(Empty(capacity, maxMemory), front);
      if op.DoSet? {
        OversizedEmpties(Run(Empty(capacity, maxMemory), front), op.key, op.value, op.ttl, op.now);
      }
    }
  }

  /** A small response updated to one with a body as large as the cap. */
  function GrowInPlace(maxMemory: nat): seq<Op> {
    [DoSet([], Response(200, None, None, None), 0, 0),
     DoSet([], Response(200, None, None, Some(seq(maxMemory, _ => 0))), 0, 0)]
  }

  lemma GrowInPlaceExceeds(capacity: int, maxMemory: nat)
    requires maxMemory >= 32
    ensures Total(Run(Empty(capacity, maxMemory), GrowInPlace(maxMemory)).entries) > maxMemory
  {
    var c, ops := Empty(capacity, maxMemory), GrowInPlace(maxMemory);
    assert Run(c, []) == c;
    assert ops[..1] == [ops[0]] && [ops[0]][..0] == [];
    var e, big := NewEntry([], ops[0].value, 0, 0), NewEntry([], ops[1].value, 0, 0);
    TotalSingle(e);
    assert [e] + [] == [e] && Fits([e], c.capacity, maxMemory);
    assert Run(c, [ops[0]]).entries == [e];
    assert [e][0].key == [];
    TotalAfterMove([e], [], big);
    assert Run(c, ops).entries == [big] + Without([e], []);
  }

  /** The byte cap is an invariant only where it lets nothing in: for every capacity, some run ends above
      the cap if and only if the cap has room for the smallest entry, 32 bytes. */
  lemma UpdateExceedsByteCap(capacity: int, maxMemory: nat)
    requires maxMemory > 0
    ensures (exists ops :: Total(Run(Empty(capacity, maxMemory), ops).entries) > maxMemory) <==> maxMemory >= 32
  {
    if maxMemory >= 32 {
      GrowInPlaceExceeds(capacity, maxMemory);
    } else {
      forall ops ensures Total(Run(Empty(capacity, maxMemory), ops).entries) <= maxMemory {
        TinyCapStaysEmpty(capacity, maxMemory, ops);
      }
    }
  }

  // ---------- conservation of the counters ----------

  function Gets(ops: seq<Op>): nat {
    if ops == [] then 0 else Gets(ops[..|ops| - 1]) + if ops[|ops| - 1].DoGet? then 1 else 0
  }

  /** Sets of a key that was absent at that moment. */
  ghost function Inserts(c: Cache, ops: seq<Op>): nat {
    if ops == [] then 0
    else
      var before, op := Run(c, ops[..|ops| - 1]), ops[|ops| - 1];
      Inserts(c, ops[..|ops| - 1]) + if op.DoSet? && !Has(before.entries, op.key) then 1 else 0
  }

  /** Deletes of a key that was present at that moment. */
  ghost function Removals(c: Cache, ops: seq<Op>): nat {
    if ops == [] then 0
    else
      var before, op := Run(c, ops[..|ops| - 1]), ops[|ops| - 1];
      Removals(c, ops[..|ops| - 1]) + if op.DoDelete? && Has(before.entries, op.key) then 1 else 0
  }

  /** Every Get is a hit or a miss, and every inserted entry is still there, was evicted, or was
      deleted. */
  lemma {:induction false} CountersConserve(c: Cache, ops: seq<Op>)
    requires Inv(c) && c.entries == [] && c.hits == c.misses == c.evictions == 0
    ensures var r := Run(c, ops);
      && r.hits + r.misses == Gets(ops)
      && Inserts(c, ops) == |r.entries| + r.evictions + Removals(c, ops)
  {
    if ops == [] {
    } else {
      var before, op := Run(c, ops[..|ops| - 1]), ops[|ops| - 1];
      CountersConserve(c, ops[..|ops| - 1]);
      RunKeepsInv(c, ops[..|ops| - 1]);
      if !op.DoSweep? {
        MoveKeepsUnique(before.entries, op.key);
      }
    }
  }

  /** Operation k is a Get that finds something. */
  ghost predicate IsHit(c: Cache, ops: seq<Op>, k: int)
    requires 0 <= k < |ops|
  {
    ops[k].DoGet? && Answer(Run(c, ops[..k]), ops[k].key, ops[k].now).Some?
  }

  /** The Gets of a run that find something. */
  ghost function Hits(c: Cache, ops: seq<Op>): set<int> {
    set k | 0 <= k < |ops| && IsHit(c, ops, k)
  }

  /** The hit counter counts exactly those. */
  lemma {:induction false} HitsCounted(c: Cache, ops: seq<Op>)
    requires c.hits == 0
    ensures Run(c, ops).hits == |Hits(c, ops)|
  {
    hide Hits, Answer, Step;
    if ops == [] {
      NoHits(c);
    } else {
      HitsCounted(c, ops[..|ops| - 1]);
      HitsStep(c, ops);
      HitStep(Run(c, ops[..|ops| - 1]), ops[|ops| - 1]);
    }
  }

  lemma SameHits(c: Cache, ops: seq<Op>, k: nat)
    requires k < |ops| - 1
    ensures IsHit(c, ops, k) <==> IsHit(c, ops[..|ops| - 1], k)
  {
    hide Run, Answer;
    assert ops[..|ops| - 1][..k] == ops[..k];
  }

  lemma HitsStep(c: Cache, ops: seq<Op>)
    requires ops != []
    ensures |Hits(c, ops)| == |Hits(c, ops[..|ops| - 1])| + if IsHit(c, ops, |ops| - 1) then 1 else 0
  {
    hide IsHit;
    var front, n := ops[..|ops| - 1], |ops| - 1;
    forall k: nat | k < n ensures IsHit(c, ops, k) <==> IsHit(c, front, k) {
      SameHits(c, ops, k);
    }
    var last: set<int> := if IsHit(c, ops, n) then {n} else {};
    assert Hits(c, ops) == Hits(c, front) + last;
  }

  lemma NoHits(c: Cache)
    ensures Hits(c, []) == {}
  {
  }

  lemma HitStep(c: Cache, op: Op)
    ensures Step(c, op).hits == c.hits + if op.DoGet? && Answer(c, op.key, op.now).Some? then 1 else 0
  {
  }

  // ---------- a hit is the last Set ----------

  /** What the last Set or Delete of a key left behind: its stamped response, or nothing. */
  function LastStored(ops: seq<Op>, key: Text): Option<Response> {
    if ops == [] then None
    else match ops[|ops| - 1]
      case DoSet(k, value, ttl, now) =>
        if k == key then Some(Stamped(value, ttl, now)) else LastStored(ops[..|ops| - 1], key)
      case DoDelete(k) => if k == key then None else LastStored(ops[..|ops| - 1], key)
      case _ => LastStored(ops[..|ops| - 1], key)
  }

  lemma {:induction false} EntriesAreLastStored(c: Cache, ops: seq<Op>, e: Entry)
    requires Inv(c) && c.entries == [] && e in Run(c, ops).entries
    ensures LastStored(ops, e.key) == Some(e.value)
  {
    if ops == [] {
    } else {
      var before, op := Run(c, ops[..|ops| - 1]), ops[|ops| - 1];
      RunKeepsInv(c, ops[..|ops| - 1]);
      if op.DoSet? {
        MoveKeepsUnique(before.entries, op.key);
        var stored := NewEntry(op.key, op.value, op.ttl, op.now);
        if e != stored {
          assert e in before.entries;
          if e.key == op.key {
            UniqueLookup(before.entries, e);
          }
        }
      }
      if e in before.entries {
        EntriesAreLastStored(c, ops[..|ops| - 1], e);
      }
    }
  }

  /** Operation i sets the key, and no later one sets or deletes it. */
  ghost predicate LastSetAt(ops: seq<Op>, key: Text, i: int) {
    && 0 <= i < |ops| && ops[i].DoSet? && ops[i].key == key
    && forall j :: i < j < |ops| && (ops[j].DoSet? || ops[j].DoDelete?) ==> ops[j].key != key
  }

  /** What a Set stores may be served at now: it was stored for good, or its time to live is not over. */
  ghost predicate FreshAt(op: Op, now: int)
    requires op.DoSet?
  {
    op.ttl <= 0 || now <= op.now + op.ttl
  }

  lemma {:induction false} LastStoredIsLastSet(ops: seq<Op>, key: Text)
    ensures LastStored(ops, key).Some? ==> exists i :: LastSetAt(ops, key, i)
    ensures forall i :: LastSetAt(ops, key, i) ==>
      LastStored(ops, key) == Some(Stamped(ops[i].value, ops[i].ttl, ops[i].now))
  {
    if ops == [] {
    } else {
      var front, op := ops[..|ops| - 1], ops[|ops| - 1];
      LastStoredIsLastSet(front, key);
      if op.DoSet? && op.key == key {
        assert LastSetAt(ops, key, |ops| - 1);
      } else {
        forall i | LastSetAt(front, key, i) && !(op.DoDelete? && op.key == key) ensures LastSetAt(ops, key, i) {}
        forall i | LastSetAt(ops, key, i) ensures LastSetAt(front, key, i) {}
      }
    }
  }

  /** In every run, a key that is present was set, and its Get at now finds something if and only if its last Set is
      still fresh; what it finds has the status, headers and body of that Set. */
  lemma HitIsLastSet(c: Cache, ops: seq<Op>, key: Text, now: int)
    requires Inv(c) && c.entries == []
    ensures var r := Run(c, ops); var answer := Answer(r, key, now);
      && (Has(r.entries, key) ==> exists i :: LastSetAt(ops, key, i))
      && (answer.Some? ==> Has(r.entries, key))
      && forall i :: LastSetAt(ops, key, i) && Has(r.entries, key) ==>
        && (answer.Some? <==> FreshAt(ops[i], now))
        && (answer.Some? ==>
              && answer.value.statusCode == ops[i].value.statusCode
              && answer.value.headers == ops[i].value.headers && answer.value.body == ops[i].value.body)
  {
    var r := Run(c, ops);
    LastStoredIsLastSet(ops, key);
    if Has(r.entries, key) {
      EntriesAreLastStored(c, ops, Lookup(r.entries, key));
    }
  }

  /** A sweep leaves exactly the keys whose last Set is still fresh. */
  lemma SweepLeavesFresh(c: Cache, ops: seq<Op>, key: Text, now: int)
    requires Inv(c) && c.entries == []
    ensures Has(Run(c, ops + [DoSweep(now)]).entries, key) <==>
      Has(Run(c, ops).entries, key) && exists i :: LastSetAt(ops, key, i) && FreshAt(ops[i], now)
  {
    var r := Run(c, ops);
    assert (ops + [DoSweep(now)])[..|ops|] == ops;
    RunKeepsInv(c, ops);
    HitIsLastSet(c, ops, key, now);
    var live := Filter(r.entries, LiveAt(now));
    if Has(live, key) {
      var m :| 0 <= m < |live| && live[m].key == key;
      assert live[m] in r.entries;
      UniqueLookup(r.entries, live[m]);
    }
    if Has(r.entries, key) && !Expired(Lookup(r.entries, key).value, now) {
      assert Lookup(r.entries, key) in live;
    }
  }

  // ---------- the list order is recency order ----------

  /** One more than the index of the last Get or Set that names the key, or 0. */
  function LastTouch(ops: seq<Op>, key: Text): nat {
    if ops == [] then 0
    else if (ops[|ops| - 1].DoGet? || ops[|ops| - 1].DoSet?) && ops[|ops| - 1].key == key then |ops|
    else LastTouch(ops[..|ops| - 1], key)
  }

  lemma {:induction false} TouchBound(ops: seq<Op>, key: Text)
    ensures LastTouch(ops, key) <= |ops|
  {
    if ops == [] {
    } else {
      TouchBound(ops[..|ops| - 1], key);
    }
  }

  ghost predicate ByRecency(entries: seq<Entry>, ops: seq<Op>) {
    forall i, j :: 0 <= i < j < |entries| ==> LastTouch(ops, entries[i].key) > LastTouch(ops, entries[j].key)
  }

  lemma {:induction false} FilterByRecency(entries: seq<Entry>, ops: seq<Op>, p: Entry -> bool)
    requires ByRecency(entries, ops)
    ensures ByRecency(Filter(entries, p), ops)
  {
    if entries == [] {
    } else {
      var front, last := entries[..|entries| - 1], entries[|entries| - 1];
      FilterByRecency(front, ops, p);
      forall e | e in Filter(front, p) ensures LastTouch(ops, e.key) > LastTouch(ops, last.key) {
        var i :| 0 <= i < |front| && front[i] == e;
        assert entries[i].key == e.key;
      }
    }
  }

  /** One more operation does not disturb the order of entries it does not name. */
  lemma UntouchedOrder(entries: seq<Entry>, ops: seq<Op>, op: Op)
    requires ByRecency(entries, ops)
    requires op.DoGet? || op.DoSet? ==> !Has(entries, op.key)
    ensures ByRecency(entries, ops + [op])
  {
    assert (ops + [op])[..|ops|] == ops;
    forall i | 0 <= i < |entries| ensures LastTouch(ops + [op], entries[i].key) == LastTouch(ops, entries[i].key) {}
  }

  lemma TouchedFirst(entries: seq<Entry>, ops: seq<Op>, op: Op, e: Entry)
    requires ByRecency(entries, ops + [op]) && (op.DoGet? || op.DoSet?) && e.key == op.key
    requires !Has(entries, op.key)
    ensures ByRecency([e] + entries, ops + [op])
  {
    assert (ops + [op])[..|ops|] == ops;
    forall i | 0 <= i < |entries| ensures LastTouch(ops + [op], entries[i].key) < |ops| + 1 {
      TouchBound(ops, entries[i].key);
    }
  }

  /** In every run, the entries stand in the order of their last use, most recent first. */
  lemma {:induction false} OrderIsRecency(c: Cache, ops: seq<Op>)
    requires Inv(c) && c.entries == []
    ensures ByRecency(Run(c, ops).entries, ops)
  {
    if ops == [] {
    } else {
      var prefix, op := ops[..|ops| - 1], ops[|ops| - 1];
      var before := Run(c, prefix);
      assert ops == prefix + [op];
      OrderIsRecency(c, prefix);
      RunKeepsInv(c, prefix);
      match op {
        case DoDelete(key) =>
          FilterByRecency(before.entries, prefix, OtherThan(key));
          UntouchedOrder(Without(before.entries, key), prefix, op);
        case DoSweep(now) =>
          FilterByRecency(before.entries, prefix, LiveAt(now));
          UntouchedOrder(Filter(before.entries, LiveAt(now)), prefix, op);
        case DoGet(key, now) =>
          RecencyAfterTouch(before.entries, prefix, op);
          if !Has(before.entries, key) {
            UntouchedOrder(before.entries, prefix, op);
          } else {
            TouchedFirst(Without(before.entries, key), prefix, op, Lookup(before.entries, key));
          }
        case DoSet(key, value, ttl, now) =>
          var e := NewEntry(key, value, ttl, now);
          RecencyAfterTouch(before.entries, prefix, op);
          if Has(before.entries, key) {
            TouchedFirst(Without(before.entries, key), prefix, op, e);
          } else {
            UntouchedOrder(before.entries, prefix, op);
            TouchedFirst(before.entries, prefix, op, e);
          }
      }
    }
  }

  lemma RecencyAfterTouch(entries: seq<Entry>, ops: seq<Op>, op: Op)
    requires ByRecency(entries, ops) && Unique(entries) && (op.DoGet? || op.DoSet?)
    ensures !Has(Without(entries, op.key), op.key) && ByRecency(Without(entries, op.key), ops + [op])
  {
    MoveKeepsUnique(entries, op.key);
    FilterByRecency(entries, ops, OtherThan(op.key));
    UntouchedOrder(Without(entries, op.key), ops, op);
  }

  // ---------- what is fresh and recent is there ----------

  /** The other keys that Gets and Sets name after operation t. */
  ghost function OthersSince(ops: seq<Op>, t: int, key: Text): set<Text> {
    set k | 0 <= k < |ops| && t < k && (ops[k].DoGet? || ops[k].DoSet?) && ops[k].key != key :: ops[k].key
  }

  lemma {:induction false} LastTouchNames(ops: seq<Op>, key: Text, t: int)
    ensures var x := LastTouch(ops, key);
      x > 0 ==> x <= |ops| && (ops[x - 1].DoGet? || ops[x - 1].DoSet?) && ops[x - 1].key == key
    ensures 0 <= t < |ops| && (ops[t].DoGet? || ops[t].DoSet?) && ops[t].key == key ==> LastTouch(ops, key) > t
  {
    if ops == [] {
    } else {
      LastTouchNames(ops[..|ops| - 1], key, t);
    }
  }

  lemma {:induction false} KeysOfPrefix(entries: seq<Entry>, n: nat)
    requires Unique(entries) && n <= |entries|
    ensures |set m | 0 <= m < n :: entries[m].key| == n
  {
    if n == 0 {
    } else {
      KeysOfPrefix(entries, n - 1);
      assert (set m | 0 <= m < n :: entries[m].key) ==
             (set m | 0 <= m < n - 1 :: entries[m].key) + {entries[n - 1].key};
    }
  }

  /** Whatever stands before the key in the list was named since the key was. */
  lemma AheadWereNamed(c: Cache, ops: seq<Op>, key: Text, t: int, n: nat)
    requires Inv(c) && c.entries == [] && n < |Run(c, ops).entries| && Run(c, ops).entries[n].key == key
    requires 0 <= t < |ops| && (ops[t].DoGet? || ops[t].DoSet?) && ops[t].key == key
    ensures (set m | 0 <= m < n :: Run(c, ops).entries[m].key) <= OthersSince(ops, t, key)
  {
    hide Run, LastTouch, Inv;
    var entries := Run(c, ops).entries;
    OrderIsRecency(c, ops);
    LastTouchNames(ops, key, t);
    forall m | 0 <= m < n ensures entries[m].key in OthersSince(ops, t, key) {
      RecentIsNamed(entries, ops, t, m, n);
    }
  }

  lemma RecentIsNamed(entries: seq<Entry>, ops: seq<Op>, t: int, m: nat, n: nat)
    requires m < n < |entries| && ByRecency(entries, ops) && 0 <= t < LastTouch(ops, entries[n].key)
    ensures entries[m].key in OthersSince(ops, t, entries[n].key)
  {
    hide LastTouch;
    var x := LastTouch(ops, entries[m].key);
    LastTouchNames(ops, entries[m].key, t);
    assert ops[x - 1].key == entries[m].key != entries[n].key;
  }

  /** At operation t the key is present and goes to the front: t is its last Set, or a later Get that finds it. */
  ghost predicate FrontAt(c: Cache, ops: seq<Op>, key: Text, i: int, t: int) {
    && 0 <= i <= t < |ops|
    && (t > i ==> ops[t].DoGet? && ops[t].key == key && Has(Run(c, ops[..t]).entries, key))
  }

  /** The times of all later operations are at most now. */
  ghost predicate NotAfter(ops: seq<Op>, i: int, now: int) {
    forall j :: 0 <= j < |ops| && i < j && !ops[j].DoDelete? ==> ops[j].now <= now
  }

  lemma {:induction false} FreshStays(c: Cache, ops: seq<Op>, key: Text, now: int, i: int, t: int)
    requires Inv(c) && c.entries == [] && c.maxMemory == 0
    requires LastSetAt(ops, key, i) && FreshAt(ops[i], now) && NotAfter(ops, i, now)
    requires FrontAt(c, ops, key, i, t) && |OthersSince(ops, t, key)| < c.capacity
    ensures Has(Run(c, ops).entries, key)
  {
    hide Inv, OthersSince, LastSetAt, FreshAt, Lookup, Without, Unique, Filter;
    var prefix, op := ops[..|ops| - 1], ops[|ops| - 1];
    RunKeepsInv(c, prefix);
    assert ops == prefix + [op];
    if t < |ops| - 1 {
      assert prefix[..t] == ops[..t];
      OthersGrow(prefix, op, t, key);
      LastSetBefore(prefix, op, key, i);
      FreshStays(c, prefix, key, now, i, t);
      FreshStep(c, prefix, op, key, now, i, t);
    } else {
      FrontStep(c, prefix, op, key, now, i);
    }
  }

  lemma OthersGrow(ops: seq<Op>, op: Op, t: int, key: Text)
    ensures OthersSince(ops, t, key) <= OthersSince(ops + [op], t, key)
    ensures |OthersSince(ops, t, key)| <= |OthersSince(ops + [op], t, key)|
  {
    var a, b := OthersSince(ops, t, key), OthersSince(ops + [op], t, key);
    forall x | x in a ensures x in b {
      var k :| 0 <= k < |ops| && t < k && (ops[k].DoGet? || ops[k].DoSet?) && ops[k].key != key && ops[k].key == x;
      assert (ops + [op])[k] == ops[k];
    }
    assert b == a + (b - a);
  }

  lemma LastSetBefore(ops: seq<Op>, op: Op, key: Text, i: int)
    requires LastSetAt(ops + [op], key, i) && i < |ops|
    ensures LastSetAt(ops, key, i) && (op.DoSet? || op.DoDelete? ==> op.key != key)
  {
    assert (ops + [op])[|ops|] == op;
    forall j | i < j < |ops| && (ops[j].DoSet? || ops[j].DoDelete?) ensures ops[j].key != key {
      assert (ops + [op])[j] == ops[j];
    }
  }

  /** As long as its last Set is fresh, a present key is not dropped as expired. */
  lemma PresentIsLive(c: Cache, ops: seq<Op>, key: Text, i: int, now: int, time: int)
    requires Inv(c) && c.entries == [] && LastSetAt(ops, key, i) && FreshAt(ops[i], now) && time <= now
    requires Has(Run(c, ops).entries, key)
    ensures !Expired(Lookup(Run(c, ops).entries, key).value, time)
  {
    HitIsLastSet(c, ops, key, time);
  }

  /** The operation that names the key puts it in front. */
  lemma FrontStep(c: Cache, ops: seq<Op>, op: Op, key: Text, now: int, i: int)
    requires Inv(c) && c.entries == [] && c.maxMemory == 0
    requires LastSetAt(ops + [op], key, i) && FreshAt((ops + [op])[i], now) && NotAfter(ops + [op], i, now)
    requires FrontAt(c, ops + [op], key, i, |ops|)
    ensures Has(Step(Run(c, ops), op).entries, key)
  {
    var r := Run(c, ops);
    RunKeepsInv(c, ops);
    assert (ops + [op])[..|ops|] == ops && (ops + [op])[|ops|] == op;
    if i < |ops| {
      LastSetBefore(ops, op, key, i);
      PresentIsLive(c, ops, key, i, now, op.now);
      assert Step(r, op).entries[0].key == key;
    } else {
      var e := NewEntry(key, op.value, op.ttl, op.now);
      EvictByCount([e] + r.entries, r.capacity);
      assert Step(r, op).entries[0].key == key;
    }
  }

  /** An operation on something else leaves the key in place, if fewer other keys than the capacity were named. */
  lemma FreshStep(c: Cache, ops: seq<Op>, op: Op, key: Text, now: int, i: int, t: int)
    requires Inv(c) && c.entries == [] && c.maxMemory == 0
    requires LastSetAt(ops, key, i) && FreshAt(ops[i], now) && NotAfter(ops + [op], i, now)
    requires op.DoSet? || op.DoDelete? ==> op.key != key
    requires FrontAt(c, ops, key, i, t) && |OthersSince(ops + [op], t, key)| < c.capacity
    requires Has(Run(c, ops).entries, key)
    ensures Has(Step(Run(c, ops), op).entries, key)
  {
    hide OthersSince, FreshAt, Lookup, Expired, Step, Filter, Run, Unique, Sized;
    var r := Run(c, ops);
    assert (ops + [op])[|ops|] == op;
    if !op.DoDelete? {
      PresentIsLive(c, ops, key, i, now, op.now);
    }
    if op.DoSet? && !Has(r.entries, op.key) {
      InsertKeeps(c, ops, op, key, t);
    } else {
      LiveStays(r, op, key);
    }
  }

  /** Nothing but an insertion, a Delete or the end of its life removes a key. */
  lemma LiveStays(r: Cache, op: Op, key: Text)
    requires Has(r.entries, key) && (!op.DoDelete? ==> !Expired(Lookup(r.entries, key).value, op.now))
    requires op.DoSet? || op.DoDelete? ==> op.key != key
    requires op.DoSet? ==> Has(r.entries, op.key)
    ensures Has(Step(r, op).entries, key)
  {
    hide Lookup, Stamped, Expired, EntrySize;
    var e := Lookup(r.entries, key);
    assert e in Step(r, op).entries by {
      if op.DoSweep? {
        assert LiveAt(op.now)(e);
      } else if op.key != key {
        assert OtherThan(op.key)(e);
      }
    }
  }

  /** An insertion pushes out a key only if the capacity is used up by others that were named since. */
  lemma InsertKeeps(c: Cache, ops: seq<Op>, op: Op, key: Text, t: int)
    requires Inv(c) && c.entries == [] && c.maxMemory == 0
    requires op.DoSet? && !Has(Run(c, ops).entries, op.key) && Has(Run(c, ops).entries, key)
    requires 0 <= t < |ops| && (ops[t].DoGet? || ops[t].DoSet?) && ops[t].key == key
    requires |OthersSince(ops + [op], t, key)| < c.capacity
    ensures Has(Step(Run(c, ops), op).entries, key)
  {
    hide Inv, OthersSince, Lookup, Filter, LastTouch, EntrySize, Stamped;
    var r := Run(c, ops);
    var n :| 0 <= n < |r.entries| && r.entries[n].key == key;
    RunKeepsInv(c, ops);
    AheadAndNew(c, ops, op, key, t, n);
    InsertAt(r, op, n);
  }

  lemma AheadAndNew(c: Cache, ops: seq<Op>, op: Op, key: Text, t: int, n: nat)
    requires Inv(c) && c.entries == [] && n < |Run(c, ops).entries| && Run(c, ops).entries[n].key == key
    requires op.DoSet? && !Has(Run(c, ops).entries, op.key)
    requires 0 <= t < |ops| && (ops[t].DoGet? || ops[t].DoSet?) && ops[t].key == key
    ensures n + 1 <= |OthersSince(ops + [op], t, key)|
  {
    hide Run, LastTouch;
    var entries, all := Run(c, ops).entries, OthersSince(ops + [op], t, key);
    var ahead := set m | 0 <= m < n :: entries[m].key;
    assert Unique(entries) by { RunKeepsInv(c, ops); }
    KeysOfPrefix(entries, n);
    AheadWereNamed(c, ops, key, t, n);
    OthersGrow(ops, op, t, key);
    assert (ops + [op])[|ops|] == op && op.key in all;
    assert op.key !in ahead;
    assert all == ahead + {op.key} + (all - ahead - {op.key});
  }

  /** An inserted entry moves the others back by one. */
  lemma InsertAt(r: Cache, op: Op, n: nat)
    requires r.maxMemory == 0 && op.DoSet? && !Has(r.entries, op.key) && n < |r.entries| && n + 1 < r.capacity
    ensures Has(Step(r, op).entries, r.entries[n].key)
  {
    var e := NewEntry(op.key, op.value, op.ttl, op.now);
    EvictByCount([e] + r.entries, r.capacity);
    assert Step(r, op).entries[n + 1].key == r.entries[n].key;
  }

  /** Without a byte cap: if the last Set of a key is still fresh at now, and since then, or since a later Get that
      found the key, fewer other keys than the capacity were named, then a Get at now finds it. */
  lemma FreshAndRecentIsHit(c: Cache, ops: seq<Op>, key: Text, now: int, i: int, t: int)
    requires Inv(c) && c.entries == [] && c.maxMemory == 0
    requires LastSetAt(ops, key, i) && FreshAt(ops[i], now) && NotAfter(ops, i, now)
    requires FrontAt(c, ops, key, i, t) && |OthersSince(ops, t, key)| < c.capacity
    ensures Answer(Run(c, ops), key, now).Some?
  {
    FreshStays(c, ops, key, now, i, t);
    HitIsLastSet(c, ops, key, now);
  }

  // ---------- inclusion: a larger cache holds everything a smaller one does ----------

  /** a is a subsequence of b. */
  ghost predicate Sub(a: seq<Entry>, b: seq<Entry>)
    decreases |b|
  {
    || a == []
    || (b != [] && Sub(a, b[..|b| - 1]))
    || (b != [] && a[|a| - 1] == b[|b| - 1] && Sub(a[..|a| - 1], b[..|b| - 1]))
  }

  lemma {:induction false} SubMember(a: seq<Entry>, b: seq<Entry>, e: Entry)
    requires Sub(a, b) && e in a
    ensures e in b && |a| <= |b|
    decreases |b|
  {
    if Sub(a, b[..|b| - 1]) {
      SubMember(a, b[..|b| - 1], e);
    } else if |a| > 1 {
      if e in a[..|a| - 1] {
        SubMember(a[..|a| - 1], b[..|b| - 1], e);
      } else {
        SubMember(a[..|a| - 1], b[..|b| - 1], a[0]);
      }
    }
  }

  lemma {:induction false} SubPrepend(a: seq<Entry>, b: seq<Entry>, x: Entry)
    requires Sub(a, b)
    ensures Sub(a, [x] + b) && Sub([x] + a, [x] + b)
    decreases |b|
  {
    if b == [] {
      assert Sub([], []);
      assert ([x] + a)[..0] == [] && ([x] + b)[..0] == [];
    } else {
      assert ([x] + b)[..|b|] == [x] + b[..|b| - 1];
      if Sub(a, b[..|b| - 1]) {
        SubPrepend(a, b[..|b| - 1], x);
      } else if a != [] {
        SubPrepend(a[..|a| - 1], b[..|b| - 1], x);
        assert ([x] + a)[..|a|] == [x] + a[..|a| - 1];
      }
    }
  }

  lemma {:induction false} SubDropLast(a: seq<Entry>, b: seq<Entry>)
    requires Sub(a, b)
    ensures a != [] ==> Sub(a[..|a| - 1], b)
    ensures a != [] && b != [] ==> Sub(a[..|a| - 1], b[..|b| - 1])
    decreases |b|
  {
    if a != [] && Sub(a, b[..|b| - 1]) {
      SubDropLast(a, b[..|b| - 1]);
    }
  }

  lemma {:induction false} SubFilter(a: seq<Entry>, b: seq<Entry>, p: Entry -> bool)
    requires Sub(a, b)
    ensures Sub(Filter(a, p), Filter(b, p))
    decreases |b|
  {
    if a == [] {
    } else {
      var fb, x := Filter(b[..|b| - 1], p), b[|b| - 1];
      if Sub(a, b[..|b| - 1]) {
        SubFilter(a, b[..|b| - 1], p);
        assert (fb + [x])[..|fb|] == fb;
      } else {
        var fa := Filter(a[..|a| - 1], p);
        SubFilter(a[..|a| - 1], b[..|b| - 1], p);
        assert (fb + [x])[..|fb|] == fb && (fa + [x])[..|fa|] == fa;
      }
    }
  }

  lemma {:induction false} FilterLoses(a: seq<Entry>, b: seq<Entry>, p: Entry -> bool)
    requires Sub(a, b)
    ensures |Filter(b, p)| - |Filter(a, p)| <= |b| - |a|
    decreases |b|
  {
    if b != [] && a != [] {
      if Sub(a, b[..|b| - 1]) {
        FilterLoses(a, b[..|b| - 1], p);
      } else {
        FilterLoses(a[..|a| - 1], b[..|b| - 1], p);
      }
    }
  }

  /** The contents of the smaller cache are a subsequence of those of the larger, which has at most
      as many extra entries as it has extra capacity. */
  ghost predicate Included(small: Cache, large: Cache) {
    && Inv(small) && Inv(large) && small.maxMemory == large.maxMemory == 0
    && small.capacity <= large.capacity
    && Sub(small.entries, large.entries)
    && |large.entries| - |small.entries| <= large.capacity - small.capacity
  }

  /** Included caches agree on the key of everything the smaller one holds. */
  lemma IncludedLookup(small: Cache, large: Cache, key: Text)
    requires Included(small, large) && Has(small.entries, key)
    ensures Has(large.entries, key) && Lookup(large.entries, key) == Lookup(small.entries, key)
  {
    SubMember(small.entries, large.entries, Lookup(small.entries, key));
    UniqueLookup(large.entries, Lookup(small.entries, key));
  }

  lemma IncludedGet(small: Cache, large: Cache, key: Text, now: int)
    requires Included(small, large)
    ensures Included(Get(small, key, now), Get(large, key, now))
  {
    var a, b := small.entries, large.entries;
    StepKeepsInv(small, DoGet(key, now));
    StepKeepsInv(large, DoGet(key, now));
    MoveKeepsUnique(a, key);
    MoveKeepsUnique(b, key);
    SubFilter(a, b, OtherThan(key));
    FilterLoses(a, b, OtherThan(key));
    if Has(a, key) {
      IncludedLookup(small, large, key);
      SubPrepend(Without(a, key), Without(b, key), Lookup(a, key));
    } else {
      FilterAll(a, OtherThan(key));
      if Has(b, key) {
        SubPrepend(a, Without(b, key), Lookup(b, key));
      }
    }
  }

  lemma {:induction false} EvictByCount(entries: seq<Entry>, capacity: nat)
    ensures Evict(entries, capacity, 0) == Trim(entries, capacity)
  {
    if |entries| <= capacity {
    } else {
      EvictByCount(entries[..|entries| - 1], capacity);
    }
  }

  function Trim(entries: seq<Entry>, capacity: nat): seq<Entry> {
    if |entries| <= capacity then entries else entries[..capacity]
  }

  /** Cutting one overflowing entry from either list keeps the inclusion. */
  lemma SubTrim(a: seq<Entry>, b: seq<Entry>, small: nat, large: nat)
    requires Sub(a, b) && |a| <= |b| && |a| <= small + 1 && |b| <= large + 1 && small <= large
    requires |b| - |a| <= large - small
    ensures Sub(Trim(a, small), Trim(b, large))
    ensures |Trim(b, large)| - |Trim(a, small)| <= large - small
  {
    SubDropLast(a, b);
  }

  lemma IncludedSet(small: Cache, large: Cache, key: Text, value: Response, ttl: int, now: int)
    requires Included(small, large)
    ensures Included(Set(small, key, value, ttl, now), Set(large, key, value, ttl, now))
  {
    hide Inv, Sub, Has, Lookup, Without, EntrySize, Stamped, Trim;
    var a, b, e := small.entries, large.entries, NewEntry(key, value, ttl, now);
    StepKeepsInv(small, DoSet(key, value, ttl, now));
    StepKeepsInv(large, DoSet(key, value, ttl, now));
    if Has(a, key) {
      IncludedLookup(small, large, key);
      UpdateBoth(small, large, key, e);
    } else {
      EvictByCount([e] + a, small.capacity);
      if Has(b, key) {
        UpdateLarge(small, large, key, e);
      } else {
        EvictByCount([e] + b, large.capacity);
        InsertBoth(small, large, e);
      }
    }
  }

  lemma UpdateBoth(small: Cache, large: Cache, key: Text, e: Entry)
    requires Included(small, large) && Has(small.entries, key) && Has(large.entries, key)
    ensures Sub([e] + Without(small.entries, key), [e] + Without(large.entries, key))
    ensures var n := |[e] + Without(large.entries, key)| - |[e] + Without(small.entries, key)|;
      0 <= n <= large.capacity - small.capacity
  {
    hide Sub, Without, Has;
    var a, b := small.entries, large.entries;
    MoveKeepsUnique(a, key);
    MoveKeepsUnique(b, key);
    SubFilter(a, b, OtherThan(key));
    WithoutIsFilter(a, key);
    WithoutIsFilter(b, key);
    SubPrepend(Without(a, key), Without(b, key), e);
    SubLength(Without(a, key), Without(b, key));
  }

  /** The small cache inserts and may evict while the large one updates. */
  lemma UpdateLarge(small: Cache, large: Cache, key: Text, e: Entry)
    requires Included(small, large) && !Has(small.entries, key) && Has(large.entries, key)
    ensures Sub(Trim([e] + small.entries, small.capacity), [e] + Without(large.entries, key))
    ensures var n := |[e] + Without(large.entries, key)| - |Trim([e] + small.entries, small.capacity)|;
      0 <= n <= large.capacity - small.capacity
  {
    hide Sub, Without, Lookup;
    var a, b := small.entries, large.entries;
    MoveKeepsUnique(b, key);
    SubFilter(a, b, OtherThan(key));
    WithoutIsFilter(b, key);
    FilterAll(a, OtherThan(key));
    SubPrepend(a, Without(b, key), e);
    SubLength([e] + a, [e] + Without(b, key));
    SubTrim([e] + a, [e] + Without(b, key), small.capacity, large.capacity);
  }

  lemma InsertBoth(small: Cache, large: Cache, e: Entry)
    requires Included(small, large)
    ensures Sub(Trim([e] + small.entries, small.capacity), Trim([e] + large.entries, large.capacity))
    ensures var n := |Trim([e] + large.entries, large.capacity)| - |Trim([e] + small.entries, small.capacity)|;
      0 <= n <= large.capacity - small.capacity
  {
    hide Sub;
    var a, b := small.entries, large.entries;
    SubLength(a, b);
    SubPrepend(a, b, e);
    SubTrim([e] + a, [e] + b, small.capacity, large.capacity);
  }

  lemma WithoutIsFilter(entries: seq<Entry>, key: Text)
    ensures Without(entries, key) == Filter(entries, OtherThan(key))
  {
  }

  lemma SubLength(a: seq<Entry>, b: seq<Entry>)
    requires Sub(a, b)
    ensures |a| <= |b|
  {
    if a != [] { SubMember(a, b, a[0]); }
  }

  lemma IncludedStep(small: Cache, large: Cache, op: Op)
    requires Included(small, large)
    ensures Included(Step(small, op), Step(large, op))
  {
    match op
    case DoGet(key, now) => IncludedGet(small, large, key, now);
    case DoSet(key, value, ttl, now) => IncludedSet(small, large, key, value, ttl, now);
    case DoDelete(key) =>
      StepKeepsInv(small, op);
      StepKeepsInv(large, op);
      SubFilter(small.entries, large.entries, OtherThan(key));
      FilterLoses(small.entries, large.entries, OtherThan(key));
    case DoSweep(now) =>
      StepKeepsInv(small, op);
      StepKeepsInv(large, op);
      SubFilter(small.entries, large.entries, LiveAt(now));
      FilterLoses(small.entries, large.entries, LiveAt(now));
  }

  /** The inclusion property of LRU over whole runs, with expiry, deletion and sweeps: without a
      byte cap, a cache of larger capacity always contains the smaller one. */
  lemma {:induction false} RunsIncluded(capacity: nat, larger: nat, ops: seq<Op>)
    requires 0 < capacity <= larger
    ensures Included(Run(Empty(capacity, 0), ops), Run(Empty(larger, 0), ops))
  {
    if ops == [] {
    } else {
      RunsIncluded(capacity, larger, ops[..|ops| - 1]);
      IncludedStep(Run(Empty(capacity, 0), ops[..|ops| - 1]), Run(Empty(larger, 0), ops[..|ops| - 1]), ops[|ops| - 1]);
    }
  }

  /** Hence every hit of the smaller cache is the same hit in the larger one. */
  lemma LargerCacheHits(capacity: nat, larger: nat, ops: seq<Op>, key: Text, now: int)
    requires 0 < capacity <= larger
    ensures var small, large := Run(Empty(capacity, 0), ops), Run(Empty(larger, 0), ops);
      Answer(small, key, now).Some? ==> Answer(large, key, now) == Answer(small, key, now)
  {
    RunsIncluded(capacity, larger, ops);
    var small, large := Run(Empty(capacity, 0), ops), Run(Empty(larger, 0), ops);
    if Has(small.entries, key) {
      IncludedLookup(small, large, key);
    }
  }
}
