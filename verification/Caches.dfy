/** The parse daemon's two caches (malong-parse/src/cache.rs). */
module Caches {
  import opened Common

  // ---- Trees ----

  datatype Key = Key(path: Path, mtime: nat, size: nat)

  /** A parsed file and the memory it is booked with. */
  datatype Entry = Entry(tree: string, bytes: nat)

  datatype Slot = Slot(key: Key, entry: Entry)

  const MAX_ENTRIES := 100
  const MAX_MEMORY := 128 * 1024 * 1024

  ghost function Bytes(slots: seq<Slot>): nat {
    if slots == [] then 0 else slots[0].entry.bytes + Bytes(slots[1..])
  }

  lemma {:induction false} BytesConcat(a: seq<Slot>, b: seq<Slot>)
    ensures Bytes(a + b) == Bytes(a) + Bytes(b)
  {
    if a == [] {
      assert a + b == b;
    } else {
      assert (a + b)[1..] == a[1..] + b;
      BytesConcat(a[1..], b);
    }
  }

  lemma {:induction false} BytesCons(x: Slot, rest: seq<Slot>)
    ensures Bytes([x] + rest) == x.entry.bytes + Bytes(rest)
  {
    assert ([x] + rest)[1..] == rest;
  }

  lemma {:induction false} BytesWithout(slots: seq<Slot>, i: nat)
    requires i < |slots|
    ensures Bytes(slots) == Bytes(slots[..i] + slots[i+1..]) + slots[i].entry.bytes
  {
    var before, x, after := slots[..i], slots[i], slots[i+1..];
    Rejoined(slots, i);
    BytesConcat(before, [x] + after);
    BytesCons(x, after);
    BytesConcat(before, after);
  }

  lemma {:induction false} Rejoined(slots: seq<Slot>, i: nat)
    requires i < |slots|
    ensures slots == slots[..i] + ([slots[i]] + slots[i+1..])
  {
  }

  predicate Has(slots: seq<Slot>, k: Key) {
    exists i :: 0 <= i < |slots| && slots[i].key == k
  }

  ghost predicate DistinctKeys(slots: seq<Slot>) {
    forall i, j :: 0 <= i < j < |slots| ==> slots[i].key != slots[j].key
  }

  /** The entry at place i, which has the key, is the last; all others stand as they stood. */
  ghost predicate MovedToEnd(before: seq<Slot>, k: Key, i: int, after: seq<Slot>) {
    && 0 <= i < |before| && before[i].key == k && |after| == |before|
    && (forall n :: 0 <= n < i ==> after[n] == before[n])
    && (forall n :: i <= n < |before| - 1 ==> after[n] == before[n+1])
    && after[|after|-1] == before[i]
  }

  /** What insert leaves of the entries before it puts the new one: the least recently used go until it fits by the
      booked memory. */
  ghost function MadeRoom(slots: seq<Slot>, booked: nat, bytes: nat): seq<Slot> {
    if booked + bytes > MAX_MEMORY && slots != [] then
      MadeRoom(slots[1..], if booked > slots[0].entry.bytes then booked - slots[0].entry.bytes else 0, bytes)
    else slots
  }

  /** The entries that stay are the last ones, and only as many go as must: the new entry fits beside what stays, or
      nothing stays, and with one more of those that went it would not fit. */
  lemma {:induction false} MadeRoomMeaning(slots: seq<Slot>, booked: nat, bytes: nat)
    requires Bytes(slots) <= booked
    ensures var n := |slots| - |MadeRoom(slots, booked, bytes)|;
            && n >= 0 && MadeRoom(slots, booked, bytes) == slots[n..]
            && (n < |slots| ==> booked - Bytes(slots[..n]) + bytes <= MAX_MEMORY)
            && (n > 0 ==> booked - Bytes(slots[..n-1]) + bytes > MAX_MEMORY)
  {
    if booked + bytes > MAX_MEMORY && slots != [] {
      MadeRoomMeaning(slots[1..], booked - slots[0].entry.bytes, bytes);
      var n := |slots| - |MadeRoom(slots, booked, bytes)|;
      assert slots[1..][n-1..] == slots[n..];
      FirstGone(slots, n);
      if n > 1 {
        FirstGone(slots, n - 1);
      }
    }
  }

  lemma {:induction false} FirstGone(slots: seq<Slot>, n: nat)
    requires 0 < n <= |slots|
    ensures Bytes(slots[..n]) == slots[0].entry.bytes + Bytes(slots[1..][..n-1])
  {
    assert slots[..n] == [slots[0]] + slots[1..][..n-1];
    BytesCons(slots[0], slots[1..][..n-1]);
  }

  /** What the library drops without taking it off the books: the least recently used entry, if a new key comes to a
      full cache. */
  ghost function Unbooked(slots: seq<Slot>, k: Key): nat {
    if |slots| == MAX_ENTRIES && !Has(slots, k) then slots[0].entry.bytes else 0
  }

  class TreeCache {
    /** The least recently used first. */
    var slots: seq<Slot>
    var totalMemory: nat
    var hits: nat
    var misses: nat
    /** The entry last inserted for a key. */
    ghost var last: map<Key, Entry>

    /** Memory that is booked but no longer held. */
    ghost function Leak(): int
      reads this
    {
      totalMemory - Bytes(slots)
    }

    ghost predicate Valid()
      reads this
    {
      && |slots| <= MAX_ENTRIES && DistinctKeys(slots)
      && Bytes(slots) <= MAX_MEMORY
      && 0 <= Leak() <= MAX_MEMORY && totalMemory <= 2 * MAX_MEMORY
      && (forall i :: 0 <= i < |slots| ==> slots[i].key in last && last[slots[i].key] == slots[i].entry)
    }

    constructor ()
      ensures Valid() && slots == [] && totalMemory == hits == misses == 0 && last == map[]
    {
      slots, totalMemory, hits, misses, last := [], 0, 0, 0, map[];
    }

    method Find(k: Key) returns (i: int)
      ensures if Has(slots, k) then 0 <= i < |slots| && slots[i].key == k else i == -1
    {
      for n := 0 to |slots|
        invariant forall j :: 0 <= j < n ==> slots[j].key != k
      {
        if slots[n].key == k {
          return n;
        }
      }
      i := -1;
    }

    /** get: looking an entry up makes it the most recently used, even if it turns out to be too old. */
    method Get(k: Key, expired: bool) returns (r: Option<Entry>)
      requires Valid()
      modifies this`slots, this`hits, this`misses
      ensures Valid() && Leak() == old(Leak())
      ensures r.Some? <==> Has(old(slots), k) && !expired
      ensures r.Some? ==> k in last && r.value == last[k] && hits == old(hits) + 1 && misses == old(misses)
      ensures r.None? ==> misses == old(misses) + 1 && hits == old(hits)
      ensures Has(old(slots), k) ==> exists i :: MovedToEnd(old(slots), k, i, slots)
      ensures !Has(old(slots), k) ==> slots == old(slots)
    {
      var i := Find(k);
      if i == -1 {
        misses := misses + 1;
        return None;
      }
      var slot := slots[i];
      ghost var before := slots;
      Promote(i);
      assert MovedToEnd(before, k, i, slots);
      if expired {
        misses := misses + 1;
        return None;
      }
      hits := hits + 1;
      r := Some(slot.entry);
    }

    /** The entry at i becomes the most recently used. */
    method Promote(i: nat)
      requires Valid() && i < |slots|
      modifies this`slots
      ensures Valid() && Leak() == old(Leak()) && slots == old(slots)[..i] + old(slots)[i+1..] + [old(slots)[i]]
    {
      Promoted(slots, i);
      ghost var before := slots;
      slots := slots[..i] + slots[i+1..] + [slots[i]];
      forall n | 0 <= n < |slots| ensures slots[n].key in last && last[slots[n].key] == slots[n].entry {
        assert slots[n] in before;
        var m :| 0 <= m < |before| && before[m] == slots[n];
      }
    }

    /** The loop of insert: least recently used entries go until the new one fits by the booked memory. */
    method MakeRoom(bytes: nat)
      requires Valid() && bytes <= MAX_MEMORY
      modifies this`slots, this`totalMemory
      ensures Valid() && Leak() == old(Leak())
      ensures |slots| <= |old(slots)| && slots == old(slots)[|old(slots)|-|slots|..]
      ensures totalMemory + bytes <= MAX_MEMORY || slots == []
      ensures slots == MadeRoom(old(slots), old(totalMemory), bytes)
    {
      while totalMemory + bytes > MAX_MEMORY && |slots| > 0
        invariant Valid() && Leak() == old(Leak())
        invariant |slots| <= |old(slots)| && slots == old(slots)[|old(slots)|-|slots|..]
        invariant MadeRoom(slots, totalMemory, bytes) == MadeRoom(old(slots), old(totalMemory), bytes)
        decreases |slots|
      {
        var evicted := slots[0].entry.bytes;
        slots := slots[1..];
        totalMemory := if totalMemory > evicted then totalMemory - evicted else 0;
      }
    }

    /** put at the library: a known key is replaced, and a new one at capacity pushes out the least recently used
        entry without taking its bytes off the books. */
    method Put(k: Key, e: Entry)
      requires |slots| <= MAX_ENTRIES && DistinctKeys(slots)
      modifies this`slots
      ensures |slots| <= MAX_ENTRIES && DistinctKeys(slots) && slots != [] && slots[|slots|-1] == Slot(k, e)
      ensures forall i :: 0 <= i < |slots| - 1 ==> slots[i] in old(slots) && slots[i].key != k
      ensures Bytes(slots) <= Bytes(old(slots)) + e.bytes && Replaced(old(slots), k, e, slots)
      ensures forall i ::
                0 <= i < |old(slots)| && old(slots)[i].key == k ==>
                    Bytes(slots) == Bytes(old(slots)) - old(slots)[i].entry.bytes + e.bytes
      ensures !Has(old(slots), k) && |old(slots)| < MAX_ENTRIES ==>
                slots == old(slots) + [Slot(k, e)] && Bytes(slots) == Bytes(old(slots)) + e.bytes
      ensures !Has(old(slots), k) && |old(slots)| == MAX_ENTRIES ==>
                slots == old(slots)[1..] + [Slot(k, e)] &&
                    Bytes(slots) == Bytes(old(slots)) - old(slots)[0].entry.bytes + e.bytes
    {
      ghost var before := slots;
      var i := Find(k);
      if i != -1 {
        BytesWithout(slots, i);
        slots := slots[..i] + slots[i+1..];
      } else if |slots| == MAX_ENTRIES {
        slots := slots[1..];
      }
      BytesConcat(slots, [Slot(k, e)]);
      slots := slots + [Slot(k, e)];
      assert i != -1 ==> TakesPlace(before, k, e, slots, i);
    }

    /** insert: what is held never exceeds the limits. The books may say more than is held, and never less: what
        they say too much grows by exactly what the library drops, and where the new entry does not fit beside it,
        everything else goes. */
    method Insert(k: Key, e: Entry)
      requires Valid()
      modifies this
      ensures Valid()
      ensures e.bytes > MAX_MEMORY ==> slots == old(slots) && last == old(last)
      ensures e.bytes <= MAX_MEMORY ==> last == old(last)[k := e] && slots != [] && slots[|slots|-1] == Slot(k, e)
      ensures e.bytes > MAX_MEMORY ==> Leak() == old(Leak())
      ensures e.bytes <= MAX_MEMORY ==>
                Leak() == old(Leak()) + Unbooked(MadeRoom(old(slots), old(totalMemory), e.bytes), k)
      ensures e.bytes <= MAX_MEMORY ==> Replaced(MadeRoom(old(slots), old(totalMemory), e.bytes), k, e, slots)
      ensures e.bytes <= MAX_MEMORY && old(Leak()) + e.bytes > MAX_MEMORY ==> |slots| == 1
    {
      if e.bytes > MAX_MEMORY {
        return;
      }
      MakeRoom(e.bytes);
      ghost var room := slots;
      assert room == MadeRoom(old(slots), old(totalMemory), e.bytes);
      Replace(k, e);
    }

    /** The end of insert: the bytes of an entry with the same key come off the books, those of the new one go on. */
    method Replace(k: Key, e: Entry)
      requires Valid() && e.bytes <= MAX_MEMORY && (totalMemory + e.bytes <= MAX_MEMORY || slots == [])
      modifies this`slots, this`totalMemory, this`last
      ensures Valid() && Leak() == old(Leak()) + Unbooked(old(slots), k) && Replaced(old(slots), k, e, slots)
      ensures last == old(last)[k := e] && slots != [] && slots[|slots|-1] == Slot(k, e)
      ensures old(slots) == [] ==> |slots| == 1
    {
      ghost var held := slots;
      var i := Find(k);
      if i != -1 {
        BytesWithout(slots, i);
        var freed := slots[i].entry.bytes;
        totalMemory := if totalMemory > freed then totalMemory - freed else 0;
      }
      totalMemory := totalMemory + e.bytes;
      Put(k, e);
      last := last[k := e];
      forall n | 0 <= n < |slots| - 1 ensures slots[n].key in last && last[slots[n].key] == slots[n].entry {
        assert slots[n] in held;
        var m :| 0 <= m < |held| && held[m] == slots[n];
      }
    }
  }

  /** The new entry stands last. Before it, in their order, stand the others: all but the one with its key or, for a
      new key in a full cache, all but the least recently used. */
  ghost predicate Replaced(before: seq<Slot>, k: Key, e: Entry, after: seq<Slot>) {
    if exists i :: 0 <= i < |before| && before[i].key == k then exists i :: TakesPlace(before, k, e, after, i)
    else after == (if |before| == MAX_ENTRIES then before[1..] else before) + [Slot(k, e)]
  }

  ghost predicate TakesPlace(before: seq<Slot>, k: Key, e: Entry, after: seq<Slot>, i: int) {
    0 <= i < |before| && before[i].key == k && after == before[..i] + before[i+1..] + [Slot(k, e)]
  }

  /** A run in which the books grow away from what is held: 101 entries of one byte. The first is dropped by the
      library, and its byte stays on the books. */
  method LeakGrows(path: Path, tree: string) returns (c: TreeCache)
    ensures fresh(c) && c.Valid() && c.Leak() == 1 && |c.slots| == MAX_ENTRIES
  {
    c := new TreeCache();
    for i := 0 to MAX_ENTRIES
      invariant fresh(c) && c.Valid() && c.Leak() == 0 && |c.slots| == i && Bytes(c.slots) == i
      invariant forall n :: 0 <= n < i ==> c.slots[n] == Slot(Key(path, n, 0), Entry(tree, 1))
    {
      assert MadeRoom(c.slots, c.totalMemory, 1) == c.slots && !Has(c.slots, Key(path, i, 0));
      BytesConcat(c.slots, [Slot(Key(path, i, 0), Entry(tree, 1))]);
      c.Insert(Key(path, i, 0), Entry(tree, 1));
    }
    assert MadeRoom(c.slots, c.totalMemory, 1) == c.slots && !Has(c.slots, Key(path, MAX_ENTRIES, 0));
    assert c.slots[0].entry.bytes == 1;
    c.Insert(Key(path, MAX_ENTRIES, 0), Entry(tree, 1));
  }

  /** Where each slot comes from when slot i is moved to the end. */
  function Source(i: nat, n: nat, len: nat): nat
    requires i < len && n < len
  {
    if n < i then n else if n < len - 1 then n + 1 else i
  }

  lemma {:induction false} PromotedAt(slots: seq<Slot>, i: nat, n: nat)
    requires i < |slots| && n < |slots|
    ensures var s := slots[..i] + slots[i+1..] + [slots[i]];
            |s| == |slots| && Source(i, n, |slots|) < |slots| && s[n] == slots[Source(i, n, |slots|)]
  {
  }

  lemma {:induction false} Promoted(slots: seq<Slot>, i: nat)
    requires i < |slots| && DistinctKeys(slots)
    ensures var s := slots[..i] + slots[i+1..] + [slots[i]];
            && |s| == |slots| && DistinctKeys(s) && Bytes(s) == Bytes(slots) && multiset(s) == multiset(slots)
            && forall n :: 0 <= n < |s| ==> s[n] in slots
  {
    var rest := slots[..i] + slots[i+1..];
    var s := rest + [slots[i]];
    BytesWithout(slots, i);
    BytesConcat(rest, [slots[i]]);
    BytesCons(slots[i], []);
    assert [slots[i]] + [] == [slots[i]];
    assert slots == slots[..i] + [slots[i]] + slots[i+1..];
    forall n | 0 <= n < |s| ensures s[n] in slots {
      PromotedAt(slots, i, n);
    }
    forall m, n | 0 <= m < n < |s| ensures s[m].key != s[n].key {
      PromotedAt(slots, i, m);
      PromotedAt(slots, i, n);
    }
  }

  // ---- Sources ----

  const SOURCE_MAX := 50

  class SourceCache<V(==)> {
    var entries: map<nat, V>
    var order: seq<nat>
    var hits: nat
    var misses: nat
    ghost var last: map<nat, V>

    /** The order lists exactly the keys, each once; what is held is what was last inserted. */
    ghost predicate Valid()
      reads this
    {
      && (forall i, j :: 0 <= i < j < |order| ==> order[i] != order[j])
      && (forall k :: k in order <==> k in entries)
      && |order| <= SOURCE_MAX
      && (forall k :: k in entries ==> k in last && entries[k] == last[k])
    }

    constructor ()
      ensures Valid() && entries == map[] && order == [] && hits == misses == 0 && last == map[]
    {
      entries, order, hits, misses, last := map[], [], 0, 0, map[];
    }

    method Get(key: nat, tooOld: bool) returns (r: Option<V>)
      requires Valid()
      modifies this`entries, this`order, this`hits, this`misses
      ensures Valid()
      ensures r.Some? <==> key in old(entries) && !tooOld
      ensures r.Some? ==> key in last && r.value == last[key] && entries == old(entries) && order == old(order)
      ensures r.Some? ==> hits == old(hits) + 1 && misses == old(misses)
      ensures r.None? ==> misses == old(misses) + 1 && hits == old(hits) && key !in entries
      ensures r.None? ==> entries == old(entries) - {key} && WithoutKey(old(order), key, order)
    {
      if key in entries && tooOld {
        entries := entries - {key};
        ghost var i :| 0 <= i < |order| && order[i] == key;
        RetainMeaning(order, key, i);
        order := Retain(order, key);
        misses := misses + 1;
        return None;
      }
      if key in entries {
        hits := hits + 1;
        return Some(entries[key]);
      }
      misses := misses + 1;
      assert entries == entries - {key};
      r := None;
    }

    method Insert(key: nat, value: V)
      requires Valid()
      modifies this`entries, this`order, this`last
      ensures Valid() && last == old(last)[key := value]
      ensures key in entries && entries[key] == value
      ensures key in old(entries) ==> order == old(order) && entries == old(entries)[key := value]
      ensures key !in old(entries) && |old(order)| < SOURCE_MAX ==>
                order == old(order) + [key] && entries == old(entries)[key := value]
      ensures key !in old(entries) && |old(order)| == SOURCE_MAX ==>
                order == old(order)[1..] + [key] && entries == (old(entries) - {old(order)[0]})[key := value]
    {
      last := last[key := value];
      if key in entries {
        entries := entries[key := value];
        return;
      }
      SameSize(order, entries);
      if |entries| >= SOURCE_MAX {
        var oldest := order[0];
        entries := entries - {oldest};
        order := order[1..];
      }
      order := order + [key];
      entries := entries[key := value];
    }
  }

  /** The order without the key, everything else as it stood. */
  ghost predicate WithoutKey(before: seq<nat>, key: nat, after: seq<nat>) {
    if key in before then exists i :: 0 <= i < |before| && before[i] == key && after == before[..i] + before[i+1..]
    else after == before
  }

  /** order.retain(|k| k != key) */
  function Retain(order: seq<nat>, key: nat): (r: seq<nat>)
    ensures |r| <= |order| && (forall k :: k in r <==> k in order && k != key)
    ensures (forall i, j :: 0 <= i < j < |order| ==> order[i] != order[j]) ==>
              forall i, j :: 0 <= i < j < |r| ==> r[i] != r[j]
    ensures key !in order ==> r == order
  {
    if order == [] then []
    else
      var rest := Retain(order[1..], key);
      assert order == [order[0]] + order[1..];
      if order[0] == key then rest
      else
        assert (forall i, j :: 0 <= i < j < |order| ==> order[i] != order[j]) ==> order[0] !in order[1..];
        [order[0]] + rest
  }

  /** Of an order in which the key stands once all others are kept as they stand. */
  lemma {:induction false} RetainMeaning(order: seq<nat>, key: nat, i: nat)
    requires i < |order| && order[i] == key && forall j :: 0 <= j < |order| && j != i ==> order[j] != key
    ensures Retain(order, key) == order[..i] + order[i+1..]
  {
    if i == 0 {
      assert key !in order[1..];
    } else {
      RetainMeaning(order[1..], key, i - 1);
      assert order[..i] == [order[0]] + order[1..][..i-1] && order[i+1..] == order[1..][i..];
    }
  }

  lemma {:induction false} SameSize<V>(order: seq<nat>, entries: map<nat, V>)
    requires forall i, j :: 0 <= i < j < |order| ==> order[i] != order[j]
    requires forall k :: k in order <==> k in entries
    ensures |order| == |entries|
  {
    if order == [] {
      assert entries.Keys == {};
    } else {
      var rest := entries - {order[0]};
      assert order == [order[0]] + order[1..];
      assert entries.Keys == rest.Keys + {order[0]};
      SameSize(order[1..], rest);
      assert |entries.Keys| == |rest.Keys| + 1;
      assert |entries| == |entries.Keys| && |rest| == |rest.Keys|;
    }
  }
}
