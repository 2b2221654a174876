// internal/lru: a least-recently-used cache kept as a ring of linked entries
// plus a map index and a running size, updated in place.

module Lru {
  import opened Wrappers
  import opened LruSpec

  // An entry of the ring. Its key never changes.
  class Entry<K(==), V> {
    var prev: Entry<K, V>
    var next: Entry<K, V>
    const key: K
    var value: V

    constructor (key: K, value: V)
      ensures this.key == key && this.value == value && prev == this && next == this
    {
      this.key, this.value := key, value;
      prev, next := this, this;
    }
  }

  // The index that follows i around a ring of n entries, and the one before it.
  ghost function After(i: nat, n: nat): nat { if i + 1 == n then 0 else i + 1 }

  ghost function Before(i: nat, n: nat): int { if i == 0 then n - 1 else i - 1 }

  // The entries of r, all among nodes, form one doubly linked ring.
  ghost predicate Linked<K, V>(r: seq<Entry<K, V>>, nodes: set<Entry<K, V>>)
    reads nodes
  {
    && (forall i :: 0 <= i < |r| ==> r[i] in nodes)
    && (forall i {:trigger r[i].next} :: 0 <= i < |r| ==> r[i].next == r[After(i, |r|)])
    && (forall i {:trigger r[i].prev} :: 0 <= i < |r| ==> r[i].prev == r[Before(i, |r|)])
  }

  // The entries of r hold the bindings c.
  ghost predicate Binds<K, V>(r: seq<Entry<K, V>>, c: seq<(K, V)>, nodes: set<Entry<K, V>>)
    reads nodes
  {
    && (forall i :: 0 <= i < |r| ==> r[i] in nodes)
    && |c| == |r|
    && forall i :: 0 <= i < |r| ==> c[i] == (r[i].key, r[i].value)
  }

  ghost predicate Indexes<K, V>(m: map<K, Entry<K, V>>, r: seq<Entry<K, V>>) {
    && (forall i :: 0 <= i < |r| ==> r[i].key in m && m[r[i].key] == r[i])
    && (forall k :: k in m ==> m[k] in r && m[k].key == k)
  }

  class Cache<K(==), V> {
    var maxSize: int
    var entrySize: Option<(K, V) -> int>
    var curSize: int
    var head: Entry?<K, V>
    var lookup: map<K, Entry<K, V>>

    // The ring from head along next, the bindings it holds, and the footprint.
    ghost var ring: seq<Entry<K, V>>
    ghost var content: seq<(K, V)>
    ghost var nodes: set<Entry<K, V>>

    ghost function SizeOf(): (K, V) -> int
      reads this
    {
      if entrySize.None? then (k, v) => 1 else entrySize.value
    }

    // Everything but the running size: the ring is doubly linked, visits each
    // entry once, starts at head, and lookup indexes exactly its entries.
    ghost predicate Shape()
      reads this, nodes
    {
      && Binds(ring, content, nodes)
      && DistinctKeys(content)
      && Linked(ring, nodes)
      && head == (if ring == [] then null else ring[0])
      && Indexes(lookup, ring)
    }

    ghost predicate Valid()
      reads this, nodes
    {
      && Shape()
      && curSize == Total(content, SizeOf())
    }

    constructor ()
      ensures Valid() && nodes == {}
      ensures content == [] && maxSize == 0 && entrySize == None
    {
      maxSize, entrySize, curSize, head, lookup := 0, None, 0, null, map[];
      ring, content, nodes := [], [], {};
    }

    method EntrySizeOf(key: K, value: V) returns (n: int)
      ensures n == SizeOf()(key, value)
    {
      if entrySize.None? { return 1; }
      return entrySize.value(key, value);
    }

    // Where the entry that lookup holds for k sits in the ring.
    ghost method Locate(k: K) returns (i: nat)
      requires Shape() && k in lookup
      ensures i < |ring| && ring[i] == lookup[k]
      ensures LruSpec.Lookup(content, k) == Some(ring[i].value)
    {
      i :| 0 <= i < |ring| && ring[i] == lookup[k];
      IndexIsUnique(content, i);
    }

    lemma AbsentFromIndex(k: K)
      requires Shape() && k !in lookup
      ensures LruSpec.Lookup(content, k) == None
      ensures Remove(content, k) == content && Touch(content, k) == content
    {
      forall i | 0 <= i < |content| ensures content[i].0 != k { assert ring[i].key in lookup; }
    }

    ghost method Record(r: seq<Entry<K, V>>, c: seq<(K, V)>, n: set<Entry<K, V>>)
      modifies this`ring, this`content, this`nodes
      ensures ring == r && content == c && nodes == n
    {
      ring, content, nodes := r, c, n;
    }

    // ----- ring surgery

    method NewAtFront(key: K, value: V) returns (ret: Entry<K, V>)
      requires Shape() && key !in lookup
      modifies this, nodes
      ensures Shape() && fresh(nodes - old(nodes)) && fresh(ret)
      ensures content == [(key, value)] + old(content)
      ensures ring == [ret] + old(ring)
      ensures curSize == old(curSize) && maxSize == old(maxSize) && entrySize == old(entrySize)
    {
      hide DistinctKeys, NoRepeats, Indexes, Linked;
      ret := new Entry(key, value);
      IndexesCons(lookup, ring, content, ret, nodes);
      LinkBefore(ret, head, ring, nodes);
      assert Binds([ret] + ring, [(key, value)] + content, nodes + {ret});
      hide Binds;
      head := ret;
      lookup := lookup[key := ret];
      Record([ret] + ring, [(key, value)] + content, nodes + {ret});
    }

    method MoveToFront(ent: Entry<K, V>)
      requires Shape() && ent in ring
      modifies this, nodes
      ensures Shape() && nodes == old(nodes)
      ensures content == Touch(old(content), ent.key)
      ensures ring != [] && ring[0] == ent && ent.value == old(ent.value)
      ensures lookup == old(lookup)
      ensures curSize == old(curSize) && maxSize == old(maxSize) && entrySize == old(entrySize)
    {
      hide DistinctKeys, NoRepeats, Indexes, Linked, Touch;
      ghost var i :| 0 <= i < |ring| && ring[i] == ent;
      MovedToFront(lookup, ring, content, i, nodes);
      if head == ent {
        return;
      }
      Relink(ent, head, ring, i, nodes);
      hide Binds;
      head := ent;
      Record(Fronted(ring, i), Touch(content, ent.key), nodes);
    }

    method DeleteElement(ent: Entry<K, V>)
      requires Valid() && ent in ring
      modifies this, nodes
      ensures Valid() && nodes == old(nodes)
      ensures content == Remove(old(content), ent.key)
      ensures maxSize == old(maxSize) && entrySize == old(entrySize)
    {
      hide DistinctKeys, NoRepeats, Indexes, Linked, Remove;
      ghost var i :| 0 <= i < |ring| && ring[i] == ent;
      ghost var rest := Without(ring, i);
      Dropped(lookup, ring, content, i, SizeOf(), nodes);
      head := Detach(ent, head, ring, i, nodes);
      hide Binds;
      lookup := lookup - {ent.key};
      var size := EntrySizeOf(ent.key, ent.value);
      curSize := curSize - size;
      Record(rest, Remove(content, ent.key), nodes);
    }

    // ----- operations

    // The first half of Set: bind key to value in a new or moved front entry.
    method Bind(key: K, value: V)
      requires Valid()
      modifies this, nodes
      ensures Valid() && fresh(nodes - old(nodes))
      ensures content == [(key, value)] + Remove(old(content), key)
      ensures maxSize == old(maxSize) && entrySize == old(entrySize)
    {
      hide DistinctKeys, NoRepeats, Linked, Binds, Remove, IndexOf, LruSpec.Lookup;
      ghost var size, was := SizeOf(), content;
      TotalRemove(was, key, size);
      TotalCons(Remove(was, key), key, value, size);
      if key in lookup {
        ghost var i := Locate(key);
        Rebind(lookup[key], value);
      } else {
        AbsentFromIndex(key);
        var ent := NewAtFront(key, value);
      }
      var add := EntrySizeOf(key, value);
      curSize := curSize + add;
    }

    // Set on a present key: the entry moves to the front and takes the new value.
    method Rebind(ent: Entry<K, V>, value: V)
      requires Valid() && ent in ring
      modifies this, nodes
      ensures Shape() && nodes == old(nodes)
      ensures content == [(ent.key, value)] + Remove(old(content), ent.key)
      ensures curSize == old(curSize - SizeOf()(ent.key, ent.value))
      ensures maxSize == old(maxSize) && entrySize == old(entrySize)
    {
      hide DistinctKeys, NoRepeats, Indexes, Touch, Remove, IndexOf;
      ghost var was := content;
      TouchFirst(was, ent.key, value);
      MoveToFront(ent);
      assert HasKey(was, ent.key) by {
        ghost var i :| 0 <= i < |old(ring)| && old(ring)[i] == ent;
        assert was[i].0 == ent.key;
      }
      var size := EntrySizeOf(ent.key, ent.value);
      curSize := curSize - size;
      ent.value := value;
      Record(ring, [(ent.key, value)] + Remove(was, ent.key), nodes);
    }

    method Set(key: K, value: V)
      requires Valid() && maxSize >= 0
      modifies this, nodes
      ensures Valid() && fresh(nodes - old(nodes))
      ensures content == Put(old(content), key, value, SizeOf(), maxSize)
      ensures maxSize == old(maxSize) && entrySize == old(entrySize)
    {
      Bind(key, value);
      ghost var bound := content;
      while maxSize != 0 && curSize > maxSize
        invariant Valid() && fresh(nodes - old(nodes))
        invariant maxSize == old(maxSize) && entrySize == old(entrySize)
        invariant maxSize == 0 ==> content == bound
        invariant maxSize != 0 ==> Fit(content, SizeOf(), maxSize) == Fit(bound, SizeOf(), maxSize)
        decreases |content|
      {
        EvictOldest();
      }
    }

    // deleteOldest: panics on a nil head, so the ring must not be empty.
    method EvictOldest()
      requires Valid() && content != []
      modifies this, nodes
      ensures Valid() && nodes == old(nodes)
      ensures content == DropOldest(old(content))
      ensures maxSize == old(maxSize) && entrySize == old(entrySize)
    {
      ghost var n := |ring|;
      assert ring[0].prev == ring[Before(0, n)];
      assert content[n - 1].0 == head.prev.key;
      IndexIsUnique(content, n - 1);
      DeleteElement(head.prev);
    }

    method Clear()
      requires Valid()
      modifies this
      ensures Valid() && content == []
      ensures maxSize == old(maxSize) && entrySize == old(entrySize) && nodes == old(nodes)
    {
      head, lookup, curSize := null, map[], 0;
      Record([], [], nodes);
    }

    method GetOk(key: K) returns (r: Option<V>)
      requires Valid()
      modifies this, nodes
      ensures Valid() && nodes == old(nodes)
      ensures r == LruSpec.Lookup(old(content), key)
      ensures content == Touch(old(content), key)
      ensures maxSize == old(maxSize) && entrySize == old(entrySize)
    {
      if key in lookup {
        var ent := lookup[key];
        ghost var i := Locate(key);
        TotalTouch(content, key, SizeOf());
        MoveToFront(ent);
        assert content[0].1 == ent.value;
        return Some(ent.value);
      }
      AbsentFromIndex(key);
      return None;
    }

    method PeekOk(key: K) returns (r: Option<V>)
      requires Valid()
      ensures r == LruSpec.Lookup(content, key)
    {
      if key in lookup {
        ghost var i := Locate(key);
        return Some(lookup[key].value);
      }
      AbsentFromIndex(key);
      return None;
    }

    method Delete(key: K)
      requires Valid()
      modifies this, nodes
      ensures Valid() && nodes == old(nodes)
      ensures content == Remove(old(content), key)
      ensures maxSize == old(maxSize) && entrySize == old(entrySize)
    {
      if key in lookup {
        DeleteElement(lookup[key]);
      } else {
        AbsentFromIndex(key);
      }
    }

    method DeleteOldest() returns (r: Option<(K, V)>)
      requires Valid()
      modifies this, nodes
      ensures Valid() && nodes == old(nodes)
      ensures r == if old(content) == [] then None else Some(old(content)[|old(content)| - 1])
      ensures content == DropOldest(old(content))
      ensures maxSize == old(maxSize) && entrySize == old(entrySize)
    {
      if head == null {
        return None;
      }
      assert ring[0].prev == ring[Before(0, |ring|)];
      var ent := head.prev;
      r := Some((ent.key, ent.value));
      EvictOldest();
    }

    method Len() returns (n: nat)
      requires Valid()
      ensures n == |content|
    {
      EntriesPerKey(lookup, ring, content, nodes);
      return |lookup|;
    }

    method Size() returns (n: int)
      requires Valid()
      ensures n == Total(content, SizeOf())
    {
      return curSize;
    }

    // ForEach hands fn each binding in turn; here they are collected.
    method ForEach() returns (visited: seq<(K, V)>)
      requires Valid()
      ensures visited == content
    {
      visited := [];
      if head == null {
        return;
      }
      var cur: Entry<K, V> := head;
      ghost var i := 0;
      while true
        invariant 0 <= i < |ring| && cur == ring[i]
        invariant visited == content[..i]
        decreases |ring| - i
      {
        visited := visited + [(cur.key, cur.value)];
        assert ring[i].next == ring[After(i, |ring|)];
        cur := cur.next;
        if cur == head {
          NoEntryTwice(ring, content, nodes);
          return;
        }
        i := i + 1;
      }
    }
  }

  // A touched cache starts with k; replacing that value leaves keys distinct.
  lemma TouchFirst<K, V>(s: seq<(K, V)>, k: K, v: V)
    requires DistinctKeys(s)
    ensures HasKey(s, k) ==> |Touch(s, k)| > 0 && Touch(s, k)[1..] == Remove(s, k)
    ensures DistinctKeys([(k, v)] + Remove(s, k))
  {
    ConsLookup(s, k, v);
  }

  lemma EntriesPerKey<K, V>(m: map<K, Entry<K, V>>, r: seq<Entry<K, V>>, c: seq<(K, V)>,
                            nodes: set<Entry<K, V>>)
    requires Indexes(m, r) && Binds(r, c, nodes) && DistinctKeys(c)
    ensures |m| == |c|
  {
    forall k | k in m ensures k in Keys(c) {
      var i :| 0 <= i < |r| && r[i] == m[k];
      assert c[i].0 == k;
    }
    assert m.Keys == Keys(c);
    KeyCount(c);
  }

  lemma IndexesCons<K, V>(m: map<K, Entry<K, V>>, r: seq<Entry<K, V>>, c: seq<(K, V)>, e: Entry<K, V>,
                          nodes: set<Entry<K, V>>)
    requires Indexes(m, r) && Binds(r, c, nodes) && DistinctKeys(c) && e.key !in m
    ensures Indexes(m[e.key := e], [e] + r)
    ensures DistinctKeys([(e.key, e.value)] + c)
    ensures NoRepeats(r) && e !in r
  {
    var s := [e] + r;
    forall i | 0 <= i < |s| ensures s[i].key in m[e.key := e] && m[e.key := e][s[i].key] == s[i] {
      if i > 0 { assert s[i] == r[i - 1]; }
    }
    forall i, j | 0 <= i < j < |r| ensures r[i] != r[j] { assert c[i].0 != c[j].0; }
    forall i | 0 <= i < |c| ensures c[i].0 != e.key { assert r[i].key in m; }
  }

  lemma NoEntryTwice<K, V>(r: seq<Entry<K, V>>, c: seq<(K, V)>, nodes: set<Entry<K, V>>)
    requires Binds(r, c, nodes) && DistinctKeys(c)
    ensures NoRepeats(r)
  {
    forall i, j | 0 <= i < j < |r| ensures r[i] != r[j] { assert c[i].0 != c[j].0; }
  }

  // The index of the ring without entry i.
  lemma IndexesDrop<K, V>(m: map<K, Entry<K, V>>, r: seq<Entry<K, V>>, i: nat)
    requires Indexes(m, r) && i < |r|
    requires forall j :: 0 <= j < |r| && j != i ==> r[j].key != r[i].key
    ensures Indexes(m - {r[i].key}, Without(r, i))
  {
    var s, k := Without(r, i), r[i].key;
    forall j | 0 <= j < |s| ensures s[j].key in m - {k} && (m - {k})[s[j].key] == s[j] {
      assert s[j] == r[if j < i then j else j + 1];
    }
    forall q | q in m - {k} ensures m[q] in s {
      var j :| 0 <= j < |r| && r[j] == m[q];
      assert s[if j < i then j else j - 1] == r[j];
    }
  }

  // Reordering the ring leaves its index alone.
  lemma IndexesMove<K, V>(m: map<K, Entry<K, V>>, r: seq<Entry<K, V>>, i: nat)
    requires Indexes(m, r) && i < |r|
    ensures Indexes(m, Fronted(r, i))
  {
    var t := Fronted(r, i);
    forall j | 0 <= j < |t| ensures t[j].key in m && m[t[j].key] == t[j] {
      assert t[j] == r[if j == 0 then i else if j <= i then j - 1 else j];
    }
    forall q | q in m ensures m[q] in t {
      var j :| 0 <= j < |r| && r[j] == m[q];
      assert t[if j == i then 0 else if j < i then j + 1 else j] == r[j];
    }
  }

  lemma MovedToFront<K, V>(m: map<K, Entry<K, V>>, r: seq<Entry<K, V>>, c: seq<(K, V)>, i: nat,
                           nodes: set<Entry<K, V>>)
    requires Indexes(m, r) && Binds(r, c, nodes) && DistinctKeys(c) && i < |r|
    ensures NoRepeats(r)
    ensures Indexes(m, Fronted(r, i))
    ensures DistinctKeys(Touch(c, r[i].key))
    ensures Binds(Fronted(r, i), Touch(c, r[i].key), nodes)
    ensures r[0] == r[i] ==> Touch(c, r[i].key) == c
  {
    hide DistinctKeys, NoRepeats, Indexes, Touch, Remove;
    NoEntryTwice(r, c, nodes);
    IndexesMove(m, r, i);
    TouchProperties(c, r[i].key);
    TouchAt(c, i);
    HoldsFronted(r, c, i, nodes);
    if r[0] == r[i] { FirstOnly(c, i); }
  }

  lemma HoldsFronted<K, V>(r: seq<Entry<K, V>>, c: seq<(K, V)>, i: nat, nodes: set<Entry<K, V>>)
    requires Binds(r, c, nodes) && i < |r|
    ensures Binds(Fronted(r, i), Fronted(c, i), nodes)
  {
  }

  lemma FirstOnly<K, V>(c: seq<(K, V)>, i: nat)
    requires DistinctKeys(c) && i < |c| && c[0].0 == c[i].0
    ensures i == 0 && Fronted(c, i) == c
  {
  }

  lemma Dropped<K, V>(m: map<K, Entry<K, V>>, r: seq<Entry<K, V>>, c: seq<(K, V)>, i: nat,
                      size: (K, V) -> int, nodes: set<Entry<K, V>>)
    requires Indexes(m, r) && Binds(r, c, nodes) && DistinctKeys(c) && i < |r|
    ensures NoRepeats(r)
    ensures Indexes(m - {r[i].key}, Without(r, i))
    ensures DistinctKeys(Remove(c, r[i].key))
    ensures Binds(Without(r, i), Remove(c, r[i].key), nodes)
    ensures Total(Remove(c, r[i].key), size) == Total(c, size) - size(r[i].key, r[i].value)
  {
    NoEntryTwice(r, c, nodes);
    forall j | 0 <= j < |r| && j != i ensures r[j].key != r[i].key { assert c[j].0 != c[i].0; }
    hide DistinctKeys, NoRepeats, Indexes;
    IndexesDrop(m, r, i);
    RemoveProperties(c, r[i].key);
    TouchAt(c, i);
    TotalWithout(c, i, size);
  }

  ghost predicate NoRepeats<T>(r: seq<T>) {
    forall i, j :: 0 <= i < j < |r| ==> r[i] != r[j]
  }

  // Link ret into the ring r before its first entry.
  method LinkBefore<K, V>(ret: Entry<K, V>, head: Entry?<K, V>, ghost r: seq<Entry<K, V>>,
                          ghost nodes: set<Entry<K, V>>)
    requires Linked(r, nodes) && NoRepeats(r) && ret !in r
    requires head == if r == [] then null else r[0]
    requires r == [] ==> ret.prev == ret && ret.next == ret
    modifies nodes`prev, nodes`next, ret`prev, ret`next
    ensures Linked([ret] + r, nodes + {ret})
  {
    ghost var n := |r|;
    ghost var t := [ret] + r;
    if head != null {
      ret.next := head;
      ret.prev := head.prev;
      head.prev.next := ret;
      head.prev := ret;
    }
    forall i {:trigger t[i].next} | 0 <= i < |t| ensures t[i].next == t[After(i, |t|)] {
      if 0 < i { assert t[i] == r[i - 1]; }
    }
    forall i {:trigger t[i].prev} | 0 <= i < |t| ensures t[i].prev == t[Before(i, |t|)] {
      if 0 < i { assert t[i] == r[i - 1]; }
    }
  }

  // Take entry i out of the ring r.
  method Unlink<K, V>(ent: Entry<K, V>, ghost r: seq<Entry<K, V>>, ghost i: nat,
                      ghost nodes: set<Entry<K, V>>)
    requires Linked(r, nodes) && NoRepeats(r) && 1 < |r|
    requires i < |r| && r[i] == ent
    modifies nodes`prev, nodes`next
    ensures Linked(Without(r, i), nodes)
    ensures ent.next == old(ent.next)
  {
    ghost var t := Without(r, i);
    ent.next.prev := ent.prev;
    ent.prev.next := ent.next;
    forall j {:trigger t[j].next} | 0 <= j < |t| ensures t[j].next == t[After(j, |t|)] {
      assert t[j] == r[if j < i then j else j + 1];
    }
    forall j {:trigger t[j].prev} | 0 <= j < |t| ensures t[j].prev == t[Before(j, |t|)] {
      assert t[j] == r[if j < i then j else j + 1];
    }
  }

  // Move entry i, not the first, to just before the first entry, head.
  method Relink<K, V>(ent: Entry<K, V>, head: Entry<K, V>, ghost r: seq<Entry<K, V>>, ghost i: nat,
                      ghost nodes: set<Entry<K, V>>)
    requires Linked(r, nodes) && NoRepeats(r)
    requires 0 < i < |r| && r[i] == ent && r[0] == head
    modifies nodes`prev, nodes`next
    ensures Linked(Fronted(r, i), nodes)
  {
    ghost var rest := Without(r, i);
    Unlink(ent, r, i, nodes);
    forall j | 0 <= j < |rest| ensures rest[j] == r[if j < i then j else j + 1] {}
    LinkBefore(ent, head, rest, nodes);
    assert nodes + {ent} == nodes;
  }

  // Take entry i out of the ring that starts at head; returns where it starts now.
  method Detach<K, V>(ent: Entry<K, V>, head: Entry?<K, V>, ghost r: seq<Entry<K, V>>, ghost i: nat,
                      ghost nodes: set<Entry<K, V>>) returns (start: Entry?<K, V>)
    requires Linked(r, nodes) && NoRepeats(r)
    requires i < |r| && r[i] == ent && r[0] == head
    modifies nodes`prev, nodes`next
    ensures Linked(Without(r, i), nodes)
    ensures start == var rest := Without(r, i); if rest == [] then null else rest[0]
  {
    start := head;
    if ent.next == ent {
      assert r[i].next == r[After(i, |r|)];
      start := null;
    } else {
      Unlink(ent, r, i, nodes);
      if head == ent {
        start := ent.next;
      }
    }
  }
}
