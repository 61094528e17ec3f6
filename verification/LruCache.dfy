/** core/cache/lru_cache.go and ttl_manager.go on the heap: a map from keys to list elements and the
    doubly linked list, refining the value-level cache of CacheModel. */
module LruCache {
  import opened Common
  import opened CacheModel
  import opened Responses
  import opened LinkedList

  /** The map sends exactly the keys of the entries to the corresponding list elements. */
  ghost predicate Indexed(items: map<Text, Element>, nodes: seq<Element>, entries: seq<Entry>) {
    && |nodes| == |entries|
    && (forall i :: 0 <= i < |entries| ==> entries[i].key in items && items[entries[i].key] == nodes[i])
    && (forall k :: k in items ==> Has(entries, k))
  }

  lemma IndexedFind(items: map<Text, Element>, nodes: seq<Element>, entries: seq<Entry>, key: Text) returns (i: nat)
    requires Indexed(items, nodes, entries) && key in items
    ensures i < |entries| && nodes[i] == items[key] && entries[i].key == key
  {
    i :| 0 <= i < |entries| && entries[i].key == key;
  }

  lemma IndexedUnique(items: map<Text, Element>, nodes: seq<Element>, entries: seq<Entry>)
    requires Indexed(items, nodes, entries) && forall i, j :: 0 <= i < j < |nodes| ==> nodes[i] != nodes[j]
    ensures Unique(entries)
  {
  }

  lemma IndexedCut(items: map<Text, Element>, nodes: seq<Element>, entries: seq<Entry>, i: nat)
    requires Indexed(items, nodes, entries) && Unique(entries) && i < |entries|
    ensures Indexed(items - {entries[i].key}, Cut(nodes, i), Cut(entries, i))
  {
    forall k | k in items - {entries[i].key} ensures Has(Cut(entries, i), k) {
      var j :| 0 <= j < |entries| && entries[j].key == k;
      assert Cut(entries, i)[if j < i then j else j - 1] == entries[j];
    }
  }

  lemma BooksCut(items: map<Text, Element>, nodes: seq<Element>, entries: seq<Entry>, i: nat)
    requires Indexed(items, nodes, entries) && i < |entries|
    requires forall i, j :: 0 <= i < j < |nodes| ==> nodes[i] != nodes[j]
    ensures Indexed(items - {entries[i].key}, Cut(nodes, i), Cut(entries, i))
    ensures Total(Cut(entries, i)) == Total(entries) - entries[i].size
  {
    IndexedUnique(items, nodes, entries);
    IndexedCut(items, nodes, entries, i);
    TotalWithoutAt(entries, i);
  }

  lemma BooksPromote(items: map<Text, Element>, nodes: seq<Element>, entries: seq<Entry>, i: nat)
    requires Indexed(items, nodes, entries) && i < |entries|
    requires forall i, j :: 0 <= i < j < |nodes| ==> nodes[i] != nodes[j]
    ensures Indexed(items, [nodes[i]] + Cut(nodes, i), [entries[i]] + Cut(entries, i))
    ensures Total([entries[i]] + Cut(entries, i)) == Total(entries)
  {
    hide Indexed, Total, Cut;
    IndexedAt(items, nodes, entries, i);
    var k := entries[i].key;
    BooksCut(items, nodes, entries, i);
    IndexedPrepend(items - {k}, Cut(nodes, i), Cut(entries, i), nodes[i], entries[i]);
    assert (items - {k})[k := nodes[i]] == items;
    TotalConcat([entries[i]], Cut(entries, i));
    TotalSingle(entries[i]);
  }

  /** Replacing the first entry by another one of the same key. */
  lemma BooksStore(items: map<Text, Element>, nodes: seq<Element>, entries: seq<Entry>, entry: Entry)
    requires Indexed(items, nodes, entries) && entries != [] && entry.key == entries[0].key
    ensures Indexed(items, nodes, [entry] + entries[1..])
    ensures Total([entry] + entries[1..]) == Total(entries) - entries[0].size + entry.size
  {
    hide Total, Indexed;
    SameKeys(items, nodes, entries, [entry] + entries[1..]);
    TotalOfFirst(entries);
    TotalConcat([entry], entries[1..]);
    TotalSingle(entry);
  }

  lemma TotalOfFirst(entries: seq<Entry>)
    requires entries != []
    ensures Total(entries) == entries[0].size + Total(entries[1..])
  {
    hide Total;
    assert entries == [entries[0]] + entries[1..];
    TotalConcat([entries[0]], entries[1..]);
    TotalSingle(entries[0]);
  }

  /** The map only knows about the keys. */
  lemma SameKeys(items: map<Text, Element>, nodes: seq<Element>, entries: seq<Entry>, others: seq<Entry>)
    requires Indexed(items, nodes, entries) && |others| == |entries|
    requires forall i :: 0 <= i < |entries| ==> others[i].key == entries[i].key
    ensures Indexed(items, nodes, others)
  {
    forall k | k in items ensures Has(others, k) {
      var i :| 0 <= i < |entries| && entries[i].key == k;
      assert others[i].key == k;
    }
  }

  lemma IndexedAt(items: map<Text, Element>, nodes: seq<Element>, entries: seq<Entry>, i: nat)
    requires Indexed(items, nodes, entries) && i < |entries|
    ensures |nodes| == |entries| && entries[i].key in items && items[entries[i].key] == nodes[i]
  {
  }

  lemma FilterNone(p: Entry -> bool)
    ensures Filter([], p) == []
  {
  }

  lemma FilterOne(e: Entry, p: Entry -> bool)
    ensures Filter([e], p) == if p(e) then [e] else []
  {
    assert [e][..0] == [];
  }

  /** Sweeping the entry before a swept suffix extends the swept suffix. */
  lemma SweepOne(all: seq<Entry>, k: nat, p: Entry -> bool)
    requires 0 < k <= |all|
    ensures var before := all[..k] + Filter(all[k..], p);
      before[..k - 1] + Filter([before[k - 1]], p) + before[k..] == all[..k - 1] + Filter(all[k - 1..], p)
  {
    hide Filter;
    assert all[k - 1..] == [all[k - 1]] + all[k..];
    FilterConcat([all[k - 1]], all[k..], p);
    SweepParts(all, k, Filter(all[k..], p), Filter([all[k - 1]], p));
  }

  lemma SweepParts(all: seq<Entry>, k: nat, swept: seq<Entry>, one: seq<Entry>)
    requires 0 < k <= |all|
    ensures var before := all[..k] + swept;
      before[k - 1] == all[k - 1] && before[..k - 1] + one + before[k..] == all[..k - 1] + (one + swept)
  {
    var before := all[..k] + swept;
    assert before[..k - 1] == all[..k - 1] && before[k..] == swept;
  }

  lemma AbsentKey(items: map<Text, Element>, nodes: seq<Element>, entries: seq<Entry>, key: Text)
    requires Indexed(items, nodes, entries) && key !in items
    ensures !Has(entries, key)
  {
  }

  /** The entry at an index is the one a lookup of its key finds, and cutting it out is removing
      its key. */
  lemma LookupAt(items: map<Text, Element>, nodes: seq<Element>, entries: seq<Entry>, i: nat)
    requires Indexed(items, nodes, entries) && i < |entries|
    requires forall i, j :: 0 <= i < j < |nodes| ==> nodes[i] != nodes[j]
    ensures Has(entries, entries[i].key) && Lookup(entries, entries[i].key) == entries[i]
    ensures Cut(entries, i) == Without(entries, entries[i].key)
  {
    IndexedUnique(items, nodes, entries);
    WithoutAt(entries, i);
  }

  lemma IndexedPrepend(items: map<Text, Element>, nodes: seq<Element>, entries: seq<Entry>, e: Element, entry: Entry)
    requires Indexed(items, nodes, entries) && entry.key !in items
    ensures Indexed(items[entry.key := e], [e] + nodes, [entry] + entries)
  {
    forall k | k in items[entry.key := e] ensures Has([entry] + entries, k) {
      if k == entry.key {
        assert ([entry] + entries)[0].key == k;
      } else {
        var j :| 0 <= j < |entries| && entries[j].key == k;
        assert ([entry] + entries)[j + 1] == entries[j];
      }
    }
  }

  /** The element holds the entry, and its response is stored within the given objects. */
  ghost predicate Holds(e: Element, entry: Entry, owned: set<object>)
    reads e`key, e`value, e`size, owned
  {
    && e.value in owned
    && (e.value.headers != null ==> e.value.headers in owned)
    && e.value.Footprint() <= owned
    && entry == Entry(e.key, e.value.Value(), e.size)
  }

  ghost predicate AllHold(nodes: seq<Element>, entries: seq<Entry>, owned: set<object>)
    requires |nodes| == |entries|
    reads nodes`key, nodes`value, nodes`size, owned
  {
    forall i :: 0 <= i < |nodes| ==> Holds(nodes[i], entries[i], owned)
  }

  lemma NewHolds(e: Element, entry: Entry, owned: set<object>)
    requires e.value.Footprint() <= owned && entry == Entry(e.key, e.value.Value(), e.size)
    ensures Holds(e, entry, owned)
  {
  }

  lemma CutHolds(nodes: seq<Element>, entries: seq<Entry>, i: nat, owned: set<object>)
    requires |nodes| == |entries| && i < |nodes| && AllHold(nodes, entries, owned)
    ensures AllHold(Cut(nodes, i), Cut(entries, i), owned)
    ensures AllHold([nodes[i]] + Cut(nodes, i), [entries[i]] + Cut(entries, i), owned)
  {
  }

  lemma TailHolds(nodes: seq<Element>, entries: seq<Entry>, owned: set<object>)
    requires |nodes| == |entries| > 0 && AllHold(nodes, entries, owned)
    ensures AllHold(nodes[1..], entries[1..], owned)
  {
    forall i | 0 <= i < |nodes| - 1 ensures Holds(nodes[1..][i], entries[1..][i], owned) {
      assert Holds(nodes[i + 1], entries[i + 1], owned);
    }
  }

  /** One more element at the front, in possibly more storage. */
  lemma PrependHolds(nodes: seq<Element>, entries: seq<Entry>, owned: set<object>, e: Element, entry: Entry,
        more: set<object>)
    requires |nodes| == |entries| && AllHold(nodes, entries, owned) && owned <= more && Holds(e, entry, more)
    ensures AllHold([e] + nodes, [entry] + entries, more)
  {
    forall i | 0 <= i <= |nodes| ensures Holds(([e] + nodes)[i], ([entry] + entries)[i], more) {
      assert i > 0 ==> Holds(nodes[i - 1], entries[i - 1], owned);
    }
  }

  /** A new front element brings the storage of its response with it. */
  lemma NewFrontHolds(nodes: seq<Element>, entries: seq<Entry>, owned: set<object>, e: Element)
    requires |nodes| == |entries| && AllHold(nodes, entries, owned)
    ensures AllHold([e] + nodes, [Entry(e.key, e.value.Value(), e.size)] + entries, owned + e.value.Footprint())
  {
    hide AllHold, Holds;
    var entry, more := Entry(e.key, e.value.Value(), e.size), owned + e.value.Footprint();
    NewHolds(e, entry, more);
    PrependHolds(nodes, entries, owned, e, entry, more);
  }

  /** Neither the cache nor its list is part of the storage of the responses. */
  ghost predicate Apart(cache: LRUCache, order: List, nodes: seq<Element>, owned: set<object>) {
    cache !in owned && order !in owned && forall n :: n in nodes ==> n !in owned
  }

  lemma ApartGrows(cache: LRUCache, order: List, nodes: seq<Element>, owned: set<object>, e: Element, more: set<object>)
    requires Apart(cache, order, nodes, owned) && e !in owned + more
    requires more !! {cache, order} + (set n | n in nodes)
    ensures Apart(cache, order, nodes, owned + more) && Apart(cache, order, [e] + nodes, owned + more)
  {
    assert forall n | n in nodes :: n in (set m | m in nodes);
  }

  class LRUCache {
    const capacity: nat
    const maxMemory: nat
    const order: List
    var currentMemory: int
    var items: map<Text, Element>
    var hits: nat
    var misses: nat
    var evictions: nat
    ghost var entries: seq<Entry>  // what the list elements stand for, front to back
    ghost var owned: set<object>   // the storage of the cached responses

    /** The value-level cache that this object represents. */
    ghost function Abs(): Cache
      reads this
    {
      Cache(capacity, maxMemory, entries, hits, misses, evictions)
    }

    /** The list is well formed, and its elements hold the entries in storage apart from it. */
    ghost predicate Stored()
      reads `entries, `owned, order, order.nodes, owned
    {
      && order.Valid()
      && Apart(this, order, order.nodes, owned)
      && |entries| == |order.nodes|
      && AllHold(order.nodes, entries, owned)
    }

    /** What holds between operations, except for the caps. */
    ghost predicate Consistent()
      reads `items, `entries, `currentMemory, `owned, order, order.nodes, owned
    {
      Stored() && Indexed(items, order.nodes, entries) && currentMemory == Total(entries)
    }

    ghost predicate Valid()
      reads `items, `entries, `currentMemory, `owned, order, order.nodes, owned
    {
      Consistent() && capacity > 0 && |entries| <= capacity
    }

    /** Everything this cache is made of. */
    ghost function Repr(): set<object>
      reads this, order
    {
      {this, order} + order.NodeSet() + owned
    }

    constructor (capacity: int, maxMemory: int)
      ensures Valid() && fresh(Repr()) && Abs() == Empty(capacity, maxMemory)
      ensures this.capacity == (if capacity <= 0 then 1 else capacity) && entries == []
      ensures this.maxMemory == (if maxMemory <= 0 then 0 else maxMemory) && hits == misses == evictions == 0
    {
      this.capacity := if capacity <= 0 then 1 else capacity;
      this.maxMemory := if maxMemory > 0 then maxMemory else 0;
      order := new List();
      currentMemory, items := 0, map[];
      hits, misses, evictions := 0, 0, 0;
      entries, owned := [], {};
    }

    method Unlink(element: Element, ghost i: nat)
      requires Stored() && i < |order.nodes| && order.nodes[i] == element
      modifies `entries, order, order.NodeSet()`prev, order.NodeSet()`next
      ensures Stored() && order.nodes == Cut(old(order.nodes), i) && entries == Cut(old(entries), i)
      ensures order.NodeSet() <= old(order.NodeSet())
    {
      hide AllHold, Cut;
      ghost var nodes := order.nodes;
      order.Remove(element, i);
      assert AllHold(nodes, entries, owned);
      CutHolds(nodes, entries, i, owned);
      entries := Cut(entries, i);
    }

    lemma CutBooks(i: nat)
      requires Consistent() && i < |order.nodes|
      ensures this !in owned && order !in owned && |entries| == |order.nodes|
      ensures entries[i].key == order.nodes[i].key && entries[i].size == order.nodes[i].size
      ensures Indexed(items - {entries[i].key}, Cut(order.nodes, i), Cut(entries, i))
      ensures Total(Cut(entries, i)) == Total(entries) - entries[i].size
    {
      assert Holds(order.nodes[i], entries[i], owned);
      BooksCut(items, order.nodes, entries, i);
    }

    /** Unlinks an element, takes its size off the books and its key off the map. */
    method RemoveElement(element: Element, ghost i: nat)
      requires Consistent() && i < |order.nodes| && order.nodes[i] == element
      modifies `currentMemory, `items, `entries, order, order.NodeSet()`prev, order.NodeSet()`next
      ensures Consistent()
      ensures order.nodes == Cut(old(order.nodes), i) && entries == Cut(old(entries), i)
      ensures items == old(items) - {element.key}
      ensures order.NodeSet() <= old(order.NodeSet())
    {
      hide Stored, Indexed, Total, Cut;
      CutBooks(i);
      Unlink(element, i);
      currentMemory := currentMemory - element.size;
      items := items - {element.key};
    }

    lemma LastHeld()
      requires Consistent()
      ensures this !in owned
      ensures |order.nodes| == |entries| == order.len && (order.back == null <==> entries == [])
      ensures entries != [] ==> order.back == order.nodes[|entries| - 1]
    {
    }

    /** Drops the least recently used entry, if there is one. */
    method EvictLast()
      requires Consistent()
      modifies `currentMemory, `items, `entries, `evictions, order, order.NodeSet()`prev, order.NodeSet()`next
      ensures Consistent()
      ensures old(entries) == [] ==> entries == [] && evictions == old(evictions) && order.nodes == old(order.nodes)
      ensures old(entries) != [] ==>
        && entries == old(entries)[..|old(entries)| - 1] && evictions == old(evictions) + 1
        && order.nodes == old(order.nodes)[..|old(order.nodes)| - 1]
      ensures order.NodeSet() <= old(order.NodeSet())
    {
      hide Consistent, Cut, Has, Lookup, Without;
      LastHeld();
      var lastElement := order.back;
      if lastElement != null {
        CutLast(order.nodes);
        CutLast(entries);
        RemoveElement(lastElement, |order.nodes| - 1);
        evictions := evictions + 1;
      }
    }

    method Promote(element: Element, ghost i: nat)
      requires Stored() && i < |order.nodes| && order.nodes[i] == element
      modifies `entries, order, order.NodeSet()`prev, order.NodeSet()`next
      ensures Stored()
      ensures order.nodes == [element] + Cut(old(order.nodes), i) && entries == [old(entries)[i]] + Cut(old(entries), i)
      ensures order.NodeSet() <= old(order.NodeSet())
    {
      hide AllHold, Cut;
      ghost var nodes := order.nodes;
      order.MoveToFront(element, i);
      assert AllHold(nodes, entries, owned);
      CutHolds(nodes, entries, i, owned);
      entries := [entries[i]] + Cut(entries, i);
    }

    /** Moves an element to the front; the map and the memory count stay as they are. */
    method Touch(element: Element, ghost i: nat)
      requires Consistent() && i < |order.nodes| && order.nodes[i] == element
      modifies `entries, order, order.NodeSet()`prev, order.NodeSet()`next
      ensures Consistent()
      ensures order.nodes == [element] + Cut(old(order.nodes), i) && entries == [old(entries)[i]] + Cut(old(entries), i)
      ensures order.NodeSet() <= old(order.NodeSet())
    {
      hide Indexed, Total, Cut;
      BooksPromote(items, order.nodes, entries, i);
      Promote(element, i);
    }

    lemma Absent(key: Text)
      requires Consistent() && key !in items
      ensures this !in owned && !Has(entries, key)
    {
      AbsentKey(items, order.nodes, entries, key);
    }

    /** A key of the map sits at one position of the list, holding the entry that a lookup finds. */
    lemma Locate(key: Text) returns (i: nat)
      requires Consistent() && key in items
      ensures i < |order.nodes| == |entries| && order.nodes[i] == items[key]
      ensures entries[i] == Entry(key, items[key].value.Value(), items[key].size) && items[key].key == key
      ensures Has(entries, key) && Lookup(entries, key) == entries[i]
      ensures Cut(entries, i) == Without(entries, key)
      ensures this !in owned && items[key].value in owned && items[key].value.Footprint() <= owned
    {
      i := IndexedFind(items, order.nodes, entries, key);
      LookupAt(items, order.nodes, entries, i);
      assert Holds(items[key], entries[i], owned);
    }

    lemma FirstHeld(e: Element)
      requires Consistent() && order.nodes != [] && order.nodes[0] == e
      ensures this !in owned && |entries| == |order.nodes|
      ensures entries[0].key == e.key && entries[0].value == e.value.Value() && entries[0].size == e.size
    {
      assert Holds(e, entries[0], owned);
    }

    /** Get: a hit moves the entry to the front and returns a copy in fresh storage; an expired
        entry is dropped and counts as a miss and an eviction. */
    method Get(key: Text, now: int) returns (response: CachedResponse?, found: bool)
      requires Valid()
      modifies this, order, order.NodeSet()`prev, order.NodeSet()`next
      ensures Valid() && Repr() <= old(Repr())
      ensures Abs() == CacheModel.Get(old(Abs()), key, now)
      ensures found <==> Answer(old(Abs()), key, now).Some?
      ensures response != null <==> found
      ensures found ==> fresh(response.Footprint())
      ensures found ==> response.Value() == Answer(old(Abs()), key, now).value
    {
      hide Consistent, Cut, Has, Lookup, Without;
      if key !in items {
        Absent(key);
        misses := misses + 1;
        return null, false;
      }
      var element := items[key];
      ghost var i := Locate(key);
      if element.value.expiry.Some? && now > element.value.expiry.value {
        RemoveElement(element, i);
        misses := misses + 1;
        evictions := evictions + 1;
        return null, false;
      }
      response := Hit(element, i);
      found := true;
    }

    /** The hit path of Get. */
    method Hit(element: Element, ghost i: nat) returns (response: CachedResponse)
      requires Consistent() && i < |order.nodes| && order.nodes[i] == element
      modifies `entries, `hits, order, order.NodeSet()`prev, order.NodeSet()`next
      ensures Consistent() && hits == old(hits) + 1
      ensures i < |old(entries)| && entries == [old(entries)[i]] + Cut(old(entries), i)
      ensures order.NodeSet() <= old(order.NodeSet())
      ensures fresh(response.Footprint()) && response.Value() == old(entries)[i].value
    {
      hide Consistent, Cut;
      PrevHeld(i);
      Touch(element, i);
      hits := hits + 1;
      FirstHeld(element);
      response := CopyResponse(element.value);
    }

    method Delete(key: Text)
      requires Valid()
      modifies this, order, order.NodeSet()`prev, order.NodeSet()`next
      ensures Valid() && Repr() <= old(Repr())
      ensures Abs() == CacheModel.Delete(old(Abs()), key)
    {
      hide Consistent;
      if key in items {
        var element := items[key];
        ghost var i := Locate(key);
        RemoveElement(element, i);
      } else {
        Absent(key);
        FilterAll(entries, OtherThan(key));
      }
    }

    // ---------- Set ----------

    /** Stores a new value in an existing element, which moves to the front. */
    method Replace(element: Element, ghost i: nat, value: CachedResponse, size: nat, ghost entry: Entry)
      requires Consistent() && i < |order.nodes| && order.nodes[i] == element
      requires value.Footprint() !! Repr() && entry == Entry(element.key, value.Value(), size)
      modifies `currentMemory, `entries, `owned, element`value, element`size
      modifies order, order.NodeSet()`prev, order.NodeSet()`next
      ensures Consistent() && owned == old(owned + value.Footprint())
      ensures entries == [entry] + Cut(old(entries), i)
      ensures order.NodeSet() <= old(order.NodeSet())
    {
      hide Consistent;
      Touch(element, i);
      StoreFirst(element, value, size, entry);
    }

    /** Overwrites the value and size of the front element and adjusts the memory count. */
    method StoreFirst(element: Element, value: CachedResponse, size: nat, ghost entry: Entry)
      requires Consistent() && order.nodes != [] && order.nodes[0] == element
      requires value.Footprint() !! Repr() && entry == Entry(element.key, value.Value(), size)
      modifies `currentMemory, `entries, `owned, element`value, element`size
      ensures Consistent() && owned == old(owned + value.Footprint())
      ensures entries == [entry] + old(entries)[1..]
    {
      hide Stored, Indexed, Total;
      FirstHeld(element);
      BooksStore(items, order.nodes, entries, entry);
      currentMemory := currentMemory + (size - element.size);
      OverwriteFirst(element, value, size, entry);
    }

    lemma Overwritable(element: Element, value: CachedResponse)
      requires Stored() && order.nodes != [] && order.nodes[0] == element && value.Footprint() !! Repr()
      ensures element !in order.nodes[1..] && element !in owned && element !in value.Footprint() && this !in owned
      ensures Apart(this, order, order.nodes, owned + value.Footprint())
    {
      assert forall n | n in order.nodes :: n in order.NodeSet();
    }

    method OverwriteFirst(element: Element, value: CachedResponse, size: nat, ghost entry: Entry)
      requires Stored() && order.nodes != [] && order.nodes[0] == element
      requires value.Footprint() !! Repr() && entry == Entry(element.key, value.Value(), size)
      modifies `entries, `owned, element`value, element`size
      ensures Stored() && owned == old(owned + value.Footprint())
      ensures entries == [entry] + old(entries)[1..]
    {
      hide AllHold, Holds, Apart, List.Valid;
      Overwritable(element, value);
      ghost var nodes, rest, storage := order.nodes[1..], entries[1..], owned;
      assert order.nodes == [element] + nodes;
      TailHolds(order.nodes, entries, owned);
      element.value := value;
      element.size := size;
      owned := owned + value.Footprint();
      assert AllHold(nodes, rest, storage);
      NewHolds(element, entry, owned);
      PrependHolds(nodes, rest, storage, element, entry, owned);
      entries := [entry] + rest;
    }

    method NewElement(key: Text, value: CachedResponse, size: nat) returns (element: Element)
      requires Stored()
      ensures fresh(element) && element.key == key && element.value == value && element.size == size
      ensures element !in order.nodes && element !in owned && element !in value.Footprint()
    {
      element := new Element(key, value, size);
    }

    /** Puts an element that is not in the list yet at its front. */
    method Attach(element: Element, ghost entry: Entry)
      requires Stored() && element.value.Footprint() !! Repr()
      requires element !in order.nodes && element !in owned && element !in element.value.Footprint()
      requires entry == Entry(element.key, element.value.Value(), element.size)
      modifies `entries, `owned, order, order.NodeSet()`prev, element`prev, element`next
      ensures Stored() && owned == old(owned + element.value.Footprint())
      ensures order.nodes == [element] + old(order.nodes)
      ensures entries == [entry] + old(entries)
    {
      hide AllHold, Holds, Apart, List.Valid;
      ghost var nodes, before, storage := order.nodes, entries, owned;
      ApartGrows(this, order, nodes, owned, element, element.value.Footprint());
      order.PushFront(element);
      assert AllHold(nodes, before, storage);
      NewFrontHolds(nodes, before, storage, element);
      owned := owned + element.value.Footprint();
      entries := [entry] + entries;
    }

    method Link(key: Text, value: CachedResponse, size: nat, ghost entry: Entry) returns (element: Element)
      requires Stored() && value.Footprint() !! Repr() && entry == Entry(key, value.Value(), size)
      modifies `entries, `owned, order, order.NodeSet()`prev
      ensures Stored() && fresh(element) && owned == old(owned + value.Footprint())
      ensures order.nodes == [element] + old(order.nodes)
      ensures entries == [entry] + old(entries)
    {
      hide Stored;
      element := NewElement(key, value, size);
      Attach(element, entry);
    }

    /** Puts a new element at the front and on the books, without evicting anything. */
    method Insert(key: Text, value: CachedResponse, size: nat, ghost entry: Entry)
      requires Consistent() && key !in items
      requires value.Footprint() !! Repr() && entry == Entry(key, value.Value(), size)
      modifies `currentMemory, `items, `entries, `owned, order, order.NodeSet()`prev
      ensures Consistent() && owned == old(owned + value.Footprint())
      ensures entries == [entry] + old(entries)
      ensures fresh(order.NodeSet() - old(order.NodeSet()))
    {
      hide Stored, Indexed, Total;
      ghost var nodes, before := order.nodes, entries;
      Absent(key);
      currentMemory := currentMemory + size;
      var element := Link(key, value, size, entry);
      IndexedPrepend(items, nodes, before, element, entry);
      items := items[key := element];
      TotalConcat([entry], before);
      TotalSingle(entry);
    }

    /** The two eviction loops: first by count, then by memory. */
    method EvictOver()
      requires Consistent()
      modifies `currentMemory, `items, `entries, `evictions, order, order.NodeSet()`prev, order.NodeSet()`next
      ensures Consistent() && order.NodeSet() <= old(order.NodeSet())
      ensures entries == Evict(old(entries), capacity, maxMemory)
      ensures evictions == old(evictions) + (|old(entries)| - |entries|)
    {
      hide Stored, Indexed, Total;
      ghost var all := entries;
      assert order.len == |entries| by { LastHeld(); }
      while order.len > capacity
        invariant Consistent() && order.len == |entries| <= |all| && order.NodeSet() <= old(order.NodeSet())
        invariant Evict(entries, capacity, maxMemory) == Evict(all, capacity, maxMemory)
        invariant evictions == old(evictions) + (|all| - |entries|)
      {
        EvictLast();
        LastHeld();
      }
      if maxMemory > 0 {
        while currentMemory > maxMemory && order.len > 0
          invariant Consistent() && order.len == |entries| <= |all| && order.NodeSet() <= old(order.NodeSet())
          invariant |entries| <= capacity
          invariant Evict(entries, capacity, maxMemory) == Evict(all, capacity, maxMemory)
          invariant evictions == old(evictions) + (|all| - |entries|)
          decreases order.len
        {
          EvictLast();
          LastHeld();
        }
      }
    }

    /** The copy that the cache stores: new storage, expiry set from the TTL. */
    method Stamp(value: CachedResponse, ttl: int, now: int) returns (copy: CachedResponse)
      ensures fresh(copy.Footprint()) && copy.Value() == Stamped(old(value.Value()), ttl, now)
    {
      copy := CopyResponse(value);
      copy.expiry := if ttl > 0 then Some(now + ttl) else None;
      assert copy.headers != null ==> copy.headers.Contents() == old(value.headers.Contents());
    }

    /** Set: an existing key is updated and moves to the front, with no eviction; a new key is
        inserted at the front, and the back is evicted until both caps hold. */
    method Set(key: Text, value: CachedResponse, ttl: int, now: int)
      requires Valid()
      modifies this, order, order.nodes
      ensures Valid() && fresh(Repr() - old(Repr()))
      ensures Abs() == CacheModel.Set(old(Abs()), key, old(value.Value()), ttl, now)
    {
      hide Consistent, Valid, EntrySize, StoreEntry;
      var valCopy := Stamp(value, ttl, now);
      var newSize := EntrySizeOf(key, valCopy);
      Store(key, valCopy, newSize, Entry(key, valCopy.Value(), newSize));
    }

    method Store(key: Text, value: CachedResponse, size: nat, ghost entry: Entry)
      requires Valid() && value.Footprint() !! Repr() && entry == Entry(key, value.Value(), size)
      modifies this, order, order.nodes
      ensures Valid() && fresh(Repr() - old(Repr() + value.Footprint()))
      ensures Abs() == StoreEntry(old(Abs()), entry)
    {
      hide Consistent, Cut, Has, Lookup, Without, Evict;
      if key in items {
        ghost var i := Locate(key);
        Replace(items[key], i, value, size, entry);
        return;
      }
      Absent(key);
      Insert(key, value, size, entry);
      EvictOver();
    }

    lemma PrevHeld(i: nat)
      requires Consistent() && i < |order.nodes|
      ensures this !in owned && |order.nodes| == |entries|
      ensures order.nodes[i].prev == if i == 0 then null else order.nodes[i - 1]
      ensures entries[i].value == order.nodes[i].value.Value()
    {
      assert Holds(order.nodes[i], entries[i], owned);
    }

    /** The body of the sweep. */
    method DropIfExpired(element: Element, now: int, ghost i: nat)
      requires Consistent() && i < |order.nodes| && order.nodes[i] == element
      modifies `currentMemory, `items, `entries, `evictions, order, order.NodeSet()`prev, order.NodeSet()`next
      ensures Consistent() && order.NodeSet() <= old(order.NodeSet())
      ensures i <= |entries| == |order.nodes| && order.nodes[..i] == old(order.nodes)[..i]
      ensures entries == old(entries)[..i] + Filter([old(entries)[i]], LiveAt(now)) + old(entries)[i + 1..]
      ensures evictions == old(evictions) + (|old(entries)| - |entries|)
    {
      hide Consistent;
      PrevHeld(i);
      FilterOne(entries[i], LiveAt(now));
      if element.value.expiry.Some? && now > element.value.expiry.value {
        RemoveElement(element, i);
        evictions := evictions + 1;
      }
    }

    /** removeExpired: walks from the back to the front, remembering the previous element before
        it removes the current one. */
    method RemoveExpired(now: int)
      requires Valid()
      modifies this, order, order.NodeSet()`prev, order.NodeSet()`next
      ensures Valid() && Repr() <= old(Repr())
      ensures Abs() == Sweep(old(Abs()), now)
    {
      hide Consistent, Filter;
      LastHeld();
      ghost var all, k := entries, |entries|;
      FilterNone(LiveAt(now));
      var element := order.back;
      while element != null
        invariant Consistent() && 0 <= k <= |order.nodes| == |entries| && owned == old(owned)
        invariant order.NodeSet() <= old(order.NodeSet()) && |entries| <= capacity
        invariant element == if k == 0 then null else order.nodes[k - 1]
        invariant k <= |all| && entries == all[..k] + Filter(all[k..], LiveAt(now))
        invariant evictions == old(evictions) + (|all| - |entries|)
        invariant hits == old(hits) && misses == old(misses)
        decreases k
      {
        PrevHeld(k - 1);
        SweepOne(all, k, LiveAt(now));
        ghost var nodes := order.nodes;
        var prev := element.prev;
        DropIfExpired(element, now, k - 1);
        assert k > 1 ==> order.nodes[k - 2] == order.nodes[..k - 1][k - 2] == nodes[k - 2];
        element := prev;
        k := k - 1;
      }
    }

    /** Whatever a caller writes outside the cache's own storage, such as into a response that Get
        handed out or one that Set was given, the cache and its contents stay as they were. */
    twostate lemma OutsideWritesAreHarmless()
      requires old(Valid()) && unchanged(this) && unchanged(order)
      requires unchanged(old(order.NodeSet())) && unchanged(old(owned))
      ensures Valid() && Abs() == old(Abs()) && Repr() == old(Repr())
    {
      hide Consistent;
      assert forall n | n in order.nodes :: n in order.NodeSet();
    }
  }
}
