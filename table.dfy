/** The hash table object: its slot array, bucket count and live count, updated in place
    by insert, delete and resize. */
module HashTable {
  import opened Prime
  import opened Probing
  import opened Slots

  /** The base size of a new table, and the smallest base a resize accepts. */
  const InitialBaseSize := 53

  /** The load percentage that insert compares with 70 and delete with 10. */
  function Load(count: int, size: int): (r: int)
    requires size > 0
    ensures 0 <= count <= size ==> 0 <= r <= 100
  {
    var r := count * 100 / size;
    if 0 <= count <= size then DivBound(count * 100, size, 100); r else r
  }

  class Table {
    var size: nat             // the number of buckets
    var count: nat            // the number of live items
    var items: array<Slot>    // the buckets

    /** The object invariant: count is the number of live buckets, and every live item is
        found by the walk for its key. */
    ghost predicate Valid()
      reads this, items
    {
      items.Length == size && size > 0 &&
      count == CountLive(items[..]) &&
      Placed(items[..])
    }

    /** A table of next_prime(baseSize) empty buckets. */
    constructor Sized(baseSize: int)
      ensures Valid() && fresh(items)
      ensures size == NextPrime(baseSize) && count == 0
      ensures forall j :: 0 <= j < size ==> items[j] == Empty
    {
      var n := NextPrime(baseSize);
      size := n;
      count := 0;
      items := new Slot[n](_ => Empty);
    }

    /** A table at the initial base size. */
    static method New() returns (t: Table)
      ensures fresh(t) && fresh(t.items) && t.Valid()
      ensures t.size == NextPrime(InitialBaseSize) && t.count == 0
      ensures forall j :: 0 <= j < t.size ==> t.items[j] == Empty
    {
      t := new Table.Sized(InitialBaseSize);
    }

    /** The value stored under key, or None. Reads the table and changes nothing. */
    method Search(key: string) returns (r: Option<string>)
      requires Valid()
      ensures r == Lookup(items[..], key)
      ensures r == Find(items[..], key)
    {
      LookupIsFind(items[..], key);
      var i := 0;
      while i < size
        invariant 0 <= i <= size
        invariant Locate(items[..], key, i) == Locate(items[..], key, 0)
      {
        var item := items[Probe(key, size, i)];
        if item == Empty {
          return None;
        }
        if item.Live? && item.item.key == key {
          return Some(item.item.value);
        }
        i := i + 1;
      }
      return None;
    }

    /** The probe-and-store part of insert, without the load check: the item goes to the
        slot holding the key if the walk meets it, otherwise to the first empty slot met.
        Tombstones are passed over, never written into. ok is false when the walk meets
        neither within `size` attempts, where ht_insert never returns. */
    method Put(key: string, value: string) returns (ok: bool)
      requires Valid()
      modifies this, items
      ensures Valid() && items == old(items) && size == old(size)
      ensures items[..] == Stored(old(items[..]), key, value)
      ensures ok == !Locate(old(items[..]), key, 0).Exhausted?
      ensures forall x :: Find(items[..], x) ==
                if ok && x == key then Some(value) else old(Find(items[..], x))
      ensures count == if ok && old(Find(items[..], key)).None? then old(count) + 1 else old(count)
    {
      ghost var s := items[..];
      StoredPreserves(s, key, value);
      var i := 0;
      while i < size
        invariant 0 <= i <= size
        invariant items == old(items) && size == old(size) && count == old(count)
        invariant items[..] == s
        invariant Locate(s, key, i) == Locate(s, key, 0)
      {
        var index := Probe(key, size, i);
        var item := items[index];
        if item == Empty {
          assert Locate(s, key, 0) == Vacant(index);
          items[index] := Live(Item(key, value));
          count := count + 1;
          return true;
        }
        if item.Live? && item.item.key == key {
          assert Locate(s, key, 0) == Match(index);
          items[index] := Live(Item(key, value));
          return true;
        }
        i := i + 1;
      }
      return false;
    }

    /** Inserts key/value, first growing the table to next_prime(2 * size) when the load
        count * 100 / size exceeds 70. ok is false when a probe walk, of the rehash or of
        the insertion, is exhausted; ht_insert never returns then. */
    method Insert(key: string, value: string) returns (ok: bool)
      requires Valid()
      modifies this, items
      ensures Valid()
      ensures forall x :: Find(items[..], x) ==
                if ok && x == key then Some(value) else old(Find(items[..], x))
      ensures count == if ok && old(Find(items[..], key)).None? then old(count) + 1 else old(count)
      ensures old(Load(count, size)) <= 70 || old(size) * 2 < InitialBaseSize ==>
                items == old(items) && size == old(size) &&
                items[..] == Stored(old(items[..]), key, value) &&
                ok == !Locate(old(items[..]), key, 0).Exhausted?
      ensures old(Load(count, size)) > 70 && old(size) * 2 >= InitialBaseSize && ok ==>
                size == NextPrime(old(size) * 2)
      ensures old(Load(count, size)) > 70 && old(size) * 2 >= InitialBaseSize ==>
                var grown := RehashFrom(old(items[..]), Empties(NextPrime(old(size) * 2)), 0);
                ok == (grown.Some? && !Locate(grown.value, key, 0).Exhausted?) &&
                (grown.Some? ==> items[..] == Stored(grown.value, key, value)) &&
                (grown.None? ==> items == old(items) && size == old(size) && items[..] == old(items[..]))
    {
      if Load(count, size) > 70 {
        ok := ResizeUp();
        if !ok {
          return;
        }
      }
      ok := Put(key, value);
    }

    /** The walk part of delete, without the load check: every live slot holding the key
        that the walk meets becomes a tombstone, and count drops once per such slot. The
        walk does not stop at a match; it stops at the first empty slot. ok is false when
        there is none on the path, where ht_delete never returns. */
    method Remove(key: string) returns (ok: bool)
      requires Valid()
      modifies this, items
      ensures Valid() && items == old(items) && size == old(size)
      ensures items[..] == Tombstoned(old(items[..]), key, 0)
      ensures ok == ReachesEmpty(old(items[..]), key, 0)
      ensures forall x :: Find(items[..], x) == if x == key then None else old(Find(items[..], x))
      ensures count == if old(Find(items[..], key)).Some? then old(count) - 1 else old(count)
    {
      ghost var s := items[..];
      TombstonedErases(s, key);
      var i := 0;
      while i < size
        invariant 0 <= i <= size
        invariant items == old(items) && size == old(size)
        invariant Tombstoned(items[..], key, i) == Tombstoned(s, key, 0)
        invariant ReachesEmpty(items[..], key, i) == ReachesEmpty(s, key, 0)
        invariant count == CountLive(items[..])
      {
        var index := Probe(key, size, i);
        var item := items[index];
        if item == Empty {
          assert items[..] == Tombstoned(s, key, 0);
          return true;
        }
        TombstonedStep(items[..], key, i);
        if item.Live? && item.item.key == key {
          items[index] := Deleted;
          count := count - 1;
        }
        i := i + 1;
      }
      assert items[..] == Tombstoned(s, key, 0);
      return false;
    }

    /** Deletes key, first shrinking the table to next_prime(size / 2) when the load
        count * 100 / size is below 10. ok is false when a probe walk, of the rehash or of
        the deletion, is exhausted; ht_delete never returns then. */
    method Delete(key: string) returns (ok: bool)
      requires Valid()
      modifies this, items
      ensures Valid()
      ensures forall x :: x != key ==> Find(items[..], x) == old(Find(items[..], x))
      ensures ok ==> Find(items[..], key) == None
      ensures Find(items[..], key) == None || Find(items[..], key) == old(Find(items[..], key))
      ensures count == if old(Find(items[..], key)).Some? && Find(items[..], key).None?
                       then old(count) - 1 else old(count)
      ensures old(Load(count, size)) >= 10 || old(size) / 2 < InitialBaseSize ==>
                items == old(items) && size == old(size) &&
                items[..] == Tombstoned(old(items[..]), key, 0) &&
                Find(items[..], key) == None &&
                ok == ReachesEmpty(old(items[..]), key, 0)
      ensures old(Load(count, size)) < 10 && old(size) / 2 >= InitialBaseSize && ok ==>
                size == NextPrime(old(size) / 2)
      ensures old(Load(count, size)) < 10 && old(size) / 2 >= InitialBaseSize ==>
                var shrunk := RehashFrom(old(items[..]), Empties(NextPrime(old(size) / 2)), 0);
                ok == (shrunk.Some? && ReachesEmpty(shrunk.value, key, 0)) &&
                (shrunk.Some? ==> items[..] == Tombstoned(shrunk.value, key, 0)) &&
                (shrunk.None? ==> items == old(items) && size == old(size) && items[..] == old(items[..]))
    {
      if Load(count, size) < 10 {
        ok := ResizeDown();
        if !ok {
          return;
        }
      }
      ok := Remove(key);
    }

    method ResizeUp() returns (ok: bool)
      requires Valid()
      modifies this
      ensures Valid() && count == old(count)
      ensures forall x :: Find(items[..], x) == old(Find(items[..], x))
      ensures ok && old(size) * 2 >= InitialBaseSize ==> fresh(items) && size == NextPrime(old(size) * 2)
      ensures old(size) * 2 < InitialBaseSize ==> ok
      ensures !ok || old(size) * 2 < InitialBaseSize ==> items == old(items) && size == old(size)
      ensures old(size) * 2 >= InitialBaseSize ==>
                ok == RehashFrom(old(items[..]), Empties(NextPrime(old(size) * 2)), 0).Some?
      ensures old(size) * 2 >= InitialBaseSize && ok ==>
                items[..] == RehashFrom(old(items[..]), Empties(NextPrime(old(size) * 2)), 0).value
      ensures ok && old(size) * 2 >= InitialBaseSize ==>
                forall c :: 0 <= c <= count ==> Load(c, size) <= 70
    {
      ok := Resize(size * 2);
      if ok && old(size) * 2 >= InitialBaseSize {
        forall c | 0 <= c <= count ensures Load(c, size) <= 70 {
          GrowRehashNeverResizes(old(size), count, size, c);
        }
      }
    }

    method ResizeDown() returns (ok: bool)
      requires Valid()
      modifies this
      ensures Valid() && count == old(count)
      ensures forall x :: Find(items[..], x) == old(Find(items[..], x))
      ensures ok && old(size) / 2 >= InitialBaseSize ==> fresh(items) && size == NextPrime(old(size) / 2)
      ensures old(size) / 2 < InitialBaseSize ==> ok
      ensures !ok || old(size) / 2 < InitialBaseSize ==> items == old(items) && size == old(size)
      ensures old(size) / 2 >= InitialBaseSize ==>
                ok == RehashFrom(old(items[..]), Empties(NextPrime(old(size) / 2)), 0).Some?
      ensures old(size) / 2 >= InitialBaseSize && ok ==>
                items[..] == RehashFrom(old(items[..]), Empties(NextPrime(old(size) / 2)), 0).value
      ensures ok && old(size) / 2 >= InitialBaseSize && old(Load(count, size)) < 10 ==>
                forall c :: 0 <= c <= count ==> Load(c, size) <= 70
    {
      ok := Resize(size / 2);
      if ok && old(size) / 2 >= InitialBaseSize && old(Load(count, size)) < 10 {
        forall c | 0 <= c <= count ensures Load(c, size) <= 70 {
          ShrinkRehashNeverResizes(old(size), count, size, c);
        }
      }
    }

    /** Rebuilds the table at next_prime(baseSize): every live item is inserted afresh into
        a new table, so tombstones are dropped, and the new buckets, size and count are
        installed in this object. A base below the initial base size is refused and the
        table is left untouched. ok is false when a re-insertion's walk is exhausted
        (ht_resize never returns); the table is then left untouched as well. */
    method Resize(baseSize: int) returns (ok: bool)
      requires Valid()
      modifies this
      ensures Valid() && count == old(count)
      ensures forall x :: Find(items[..], x) == old(Find(items[..], x))
      ensures baseSize < InitialBaseSize ==> ok
      ensures baseSize < InitialBaseSize || !ok ==> items == old(items) && size == old(size)
      ensures baseSize >= InitialBaseSize && ok ==>
                fresh(items) && size == NextPrime(baseSize) &&
                forall j :: 0 <= j < size ==> items[j] != Deleted
      ensures baseSize >= InitialBaseSize ==>
                ok == RehashFrom(old(items[..]), Empties(NextPrime(baseSize)), 0).Some?
      ensures baseSize >= InitialBaseSize && ok ==>
                items[..] == RehashFrom(old(items[..]), Empties(NextPrime(baseSize)), 0).value
    {
      if baseSize < InitialBaseSize {
        return true;
      }
      var next;
      next, ok := Rehashed(baseSize);
      if ok {
        size, count, items := next.size, next.count, next.items;
      }
    }

    /** The rehash loop of a resize: a new table of next_prime(baseSize) buckets into which
        every live item of this table is inserted, in bucket order. ok is true exactly when
        no re-insertion's walk is exhausted; the new table then holds the same key/value
        pairs and count as this table and no tombstone. This table is not changed. */
    method Rehashed(baseSize: int) returns (next: Table, ok: bool)
      requires Valid()
      ensures fresh(next) && fresh(next.items) && next.Valid()
      ensures next.size == NextPrime(baseSize)
      ensures ok == RehashFrom(items[..], Empties(NextPrime(baseSize)), 0).Some?
      ensures ok ==> next.items[..] == RehashFrom(items[..], Empties(NextPrime(baseSize)), 0).value
      ensures ok ==> forall j :: 0 <= j < next.size ==> next.items[j] != Deleted
      ensures ok ==> next.count == count
      ensures ok ==> forall x :: Find(next.items[..], x) == Find(items[..], x)
    {
      next := new Table.Sized(baseSize);
      ghost var s := items[..];
      ghost var e := next.items[..];
      assert e == Empties(NextPrime(baseSize));
      var i := 0;
      ok := true;
      while i < size && ok
        invariant 0 <= i <= size
        invariant fresh(next) && fresh(next.items) && next.Valid()
        invariant next.size == NextPrime(baseSize)
        invariant ok ==> RehashFrom(s, next.items[..], i) == RehashFrom(s, e, 0)
        invariant !ok ==> RehashFrom(s, e, 0) == None
        decreases size - i
      {
        var item := items[i];
        if item.Live? {
          ok := next.Put(item.item.key, item.item.value);
        }
        i := i + 1;
      }
      if ok {
        assert s[..0] == [];
        RehashFromKeeps(s, e, 0);
      }
    }
  }

  /** The rehash of a grow re-inserts at most the old size's worth of items into at least
      twice as many buckets, so the load check of each re-insertion never fires. */
  lemma GrowRehashNeverResizes(oldSize: int, live: int, newSize: int, c: int)
    requires 0 < oldSize && 0 <= c <= live <= oldSize && newSize >= 2 * oldSize
    ensures c * 100 / newSize <= 70
  {
    DivBound(c * 100, newSize, 70);
  }

  /** The rehash of a shrink re-inserts fewer than a tenth of the old size's worth of items
      into at least half as many buckets, so the load check of each re-insertion never fires. */
  lemma ShrinkRehashNeverResizes(oldSize: int, live: int, newSize: int, c: int)
    requires oldSize > 0 && 0 <= c <= live && live * 100 / oldSize < 10
    requires newSize >= oldSize / 2 && newSize > 0
    ensures c * 100 / newSize <= 70
  {
    DivUpper(live * 100, oldSize, 9);
    assert c * 100 < 10 * oldSize;
    assert oldSize <= 2 * newSize + 1;
    DivBound(c * 100, newSize, 70);
  }

  /** a < (k + 1) * b whenever a / b <= k. */
  lemma DivUpper(a: int, b: int, k: int)
    requires a >= 0 && b > 0 && a / b <= k
    ensures a < (k + 1) * b
  {
    var q := a / b;
    assert a == q * b + a % b;
    assert (k - q) * b >= 0;
    assert (k + 1) * b == q * b + (k - q) * b + b;
  }

  /** a / b <= k whenever a <= k * b + (b - 1). */
  lemma DivBound(a: int, b: int, k: int)
    requires a >= 0 && b > 0 && k >= 0 && a < (k + 1) * b
    ensures a / b <= k
  {
    var q := a / b;
    assert a == q * b + a % b;
  }
}
