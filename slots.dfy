/** The slot array of the table as a value, the probe walks over it as functions,
    and what the walks do to it. */
module Slots {
  import opened Probing

  datatype Option<T> = None | Some(value: T)

  /** A key/value pair; both are owned copies of the caller's text. */
  datatype Item = Item(key: string, value: string)

  /** A bucket: never used, a tombstone left by a deletion, or holding a live item. */
  datatype Slot = Empty | Deleted | Live(item: Item)

  /** Where a probe walk for a key stops. */
  datatype Landing =
    | Match(index: nat)    // a live slot holding the key
    | Vacant(index: nat)   // the first empty slot, met before any match
    | Exhausted            // `|s|` attempts met neither: the unbounded walk never stops

  predicate IsLiveKey(sl: Slot, key: string) {
    sl.Live? && sl.item.key == key
  }

  /** The walk shared by insert and search, from attempt t: it passes over tombstones and
      live slots holding other keys and stops at the first empty slot or the key. */
  function Locate(s: seq<Slot>, key: string, t: nat): (r: Landing)
    ensures r.Match? ==> r.index < |s| && IsLiveKey(s[r.index], key)
    ensures r.Vacant? ==> r.index < |s| && s[r.index] == Empty
    decreases |s| - t
  {
    if t >= |s| then Exhausted
    else
      var p := Probe(key, |s|, t);
      if s[p] == Empty then Vacant(p)
      else if IsLiveKey(s[p], key) then Match(p)
      else Locate(s, key, t + 1)
  }

  /** What a search for `key` returns. */
  function Lookup(s: seq<Slot>, key: string): (r: Option<string>)
    ensures r.Some? ==> Live(Item(key, r.value)) in s
  {
    match Locate(s, key, 0)
    case Match(j) => Some(s[j].item.value)
    case _ => None
  }

  /** The table's content, independently of probing: the value of the last live slot
      holding `key`, or None when no live slot holds it. */
  function Find(s: seq<Slot>, key: string): (r: Option<string>)
    ensures r.Some? ==> Live(Item(key, r.value)) in s
    ensures r.None? <==> forall i :: 0 <= i < |s| ==> !IsLiveKey(s[i], key)
    decreases |s|
  {
    if s == [] then None
    else if IsLiveKey(s[|s| - 1], key) then Some(s[|s| - 1].item.value)
    else Find(s[..|s| - 1], key)
  }

  /** The number of live slots. */
  function CountLive(s: seq<Slot>): (n: nat)
    ensures n <= |s|
    ensures n == 0 <==> forall i :: 0 <= i < |s| ==> !s[i].Live?
    decreases |s|
  {
    if s == [] then 0
    else CountLive(s[..|s| - 1]) + (if s[|s| - 1].Live? then 1 else 0)
  }

  /** The slots after storing key/value: the slot where the walk lands (the key's own slot
      or the first empty one) receives the item; an exhausted walk changes nothing. */
  function Stored(s: seq<Slot>, key: string, value: string): (r: seq<Slot>)
    ensures |r| == |s|
  {
    var landing := Locate(s, key, 0);
    if landing.Exhausted? then s else s[landing.index := Live(Item(key, value))]
  }

  /** Insert passes over tombstones and never writes into one, nor creates one. */
  lemma StoredKeepsTombstones(s: seq<Slot>, key: string, value: string)
    ensures forall i :: 0 <= i < |s| ==> (Stored(s, key, value)[i] == Deleted <==> s[i] == Deleted)
  {
  }

  /** The slots after the deletion walk from attempt t: every live slot holding the key is
      replaced by a tombstone until an empty slot is met or the attempts run out. */
  function Tombstoned(s: seq<Slot>, key: string, t: nat): (r: seq<Slot>)
    ensures |r| == |s|
    decreases |s| - t
  {
    if t >= |s| then s
    else
      var p := Probe(key, |s|, t);
      if s[p] == Empty then s
      else if IsLiveKey(s[p], key) then Tombstoned(s[p := Deleted], key, t + 1)
      else Tombstoned(s, key, t + 1)
  }

  /** No slot becomes empty by deletion: the walk only turns live slots into tombstones. */
  lemma {:induction false} TombstonedKeepsEmpties(s: seq<Slot>, key: string, t: nat)
    ensures forall i :: 0 <= i < |s| ==> (Tombstoned(s, key, t)[i] == Empty <==> s[i] == Empty)
    decreases |s| - t
  {
    if t < |s| {
      var p := Probe(key, |s|, t);
      if s[p] != Empty {
        if IsLiveKey(s[p], key) {
          TombstonedKeepsEmpties(s[p := Deleted], key, t + 1);
        } else {
          TombstonedKeepsEmpties(s, key, t + 1);
        }
      }
    }
  }

  /** One attempt of the deletion walk at a non-empty slot: a live slot holding the key
      becomes a tombstone, one live slot fewer, and the rest of the walk meets an empty slot
      exactly when the whole walk does. */
  lemma TombstonedStep(s: seq<Slot>, key: string, t: nat)
    requires t < |s| && s[Probe(key, |s|, t)] != Empty
    ensures var p := Probe(key, |s|, t);
      if IsLiveKey(s[p], key) then
        Tombstoned(s, key, t) == Tombstoned(s[p := Deleted], key, t + 1) &&
        ReachesEmpty(s, key, t) == ReachesEmpty(s[p := Deleted], key, t + 1) &&
        CountLive(s[p := Deleted]) == CountLive(s) - 1
      else
        Tombstoned(s, key, t) == Tombstoned(s, key, t + 1) &&
        ReachesEmpty(s, key, t) == ReachesEmpty(s, key, t + 1)
  {
    var p := Probe(key, |s|, t);
    if IsLiveKey(s[p], key) {
      CountUpdate(s, p, Deleted);
      ReachesEmptyUpdate(s, p, Deleted, key, t + 1);
    }
  }

  /** The deletion walk from attempt t meets an empty slot, that is, it terminates. */
  predicate ReachesEmpty(s: seq<Slot>, key: string, t: nat)
    decreases |s| - t
  {
    t < |s| && (s[Probe(key, |s|, t)] == Empty || ReachesEmpty(s, key, t + 1))
  }

  /** The deletion walk from attempt t terminates exactly when some attempt from t on,
      below |s|, lands on an empty slot. */
  lemma {:induction false} ReachesEmptyMeans(s: seq<Slot>, key: string, t: nat)
    ensures ReachesEmpty(s, key, t) <==>
              exists u :: t <= u < |s| && s[Probe(key, |s|, u)] == Empty
    decreases |s| - t
  {
    if t < |s| {
      ReachesEmptyMeans(s, key, t + 1);
      if s[Probe(key, |s|, t)] != Empty {
        assert (exists u :: t <= u < |s| && s[Probe(key, |s|, u)] == Empty) ==>
               (exists u :: t + 1 <= u < |s| && s[Probe(key, |s|, u)] == Empty);
      }
    }
  }

  /** Slot j, if live, is where a walk for its key lands. */
  predicate PlacedAt(s: seq<Slot>, j: int)
    requires 0 <= j < |s|
  {
    s[j].Live? ==> Locate(s, s[j].item.key, 0) == Match(j)
  }

  /** The probing invariant: every live item is found by the walk for its key. It implies
      that no key is live twice and that every slot the walk passes before it is non-empty. */
  predicate Placed(s: seq<Slot>) {
    forall j :: 0 <= j < |s| ==> PlacedAt(s, j)
  }

  // ---------------------------------------------------------------------------------
  // Walks under a change of one slot

  /** Changing a slot into one the walk for x treats alike leaves the walk unchanged. */
  lemma {:induction false} LocateUpdate(s: seq<Slot>, j: int, sl: Slot, x: string, t: nat)
    requires 0 <= j < |s|
    requires (s[j] == Empty) == (sl == Empty) && IsLiveKey(s[j], x) == IsLiveKey(sl, x)
    ensures Locate(s[j := sl], x, t) == Locate(s, x, t)
    decreases |s| - t
  {
    if t < |s| {
      LocateUpdate(s, j, sl, x, t + 1);
    }
  }

  /** Filling the empty slot a walk lands on with its key turns the landing into a match. */
  lemma {:induction false} LocateFill(s: seq<Slot>, j: nat, value: string, x: string, t: nat)
    requires Locate(s, x, t) == Vacant(j)
    ensures j < |s| && Locate(s[j := Live(Item(x, value))], x, t) == Match(j)
    decreases |s| - t
  {
    var p := Probe(x, |s|, t);
    if p != j {
      LocateFill(s, j, value, x, t + 1);
    }
  }

  /** A walk that reaches a match never passed an empty slot, so filling one changes nothing. */
  lemma {:induction false} LocateAvoidsEmpty(s: seq<Slot>, j: int, sl: Slot, x: string, t: nat, k: nat)
    requires 0 <= j < |s| && s[j] == Empty
    requires Locate(s, x, t) == Match(k)
    ensures Locate(s[j := sl], x, t) == Match(k)
    decreases |s| - t
  {
    var p := Probe(x, |s|, t);
    if p != k {
      LocateAvoidsEmpty(s, j, sl, x, t + 1, k);
    }
  }

  lemma {:induction false} FindUpdate(s: seq<Slot>, j: int, sl: Slot, x: string)
    requires 0 <= j < |s| && !IsLiveKey(s[j], x) && !IsLiveKey(sl, x)
    ensures Find(s[j := sl], x) == Find(s, x)
    decreases |s|
  {
    var n := |s|;
    if j < n - 1 {
      assert s[j := sl][..n - 1] == s[..n - 1][j := sl];
      FindUpdate(s[..n - 1], j, sl, x);
    } else {
      assert s[j := sl][..n - 1] == s[..n - 1];
    }
  }

  /** When slot j is the only live slot holding x, Find returns its value. */
  lemma {:induction false} FindUnique(s: seq<Slot>, j: int, x: string)
    requires 0 <= j < |s| && IsLiveKey(s[j], x)
    requires forall i :: 0 <= i < |s| && IsLiveKey(s[i], x) ==> i == j
    ensures Find(s, x) == Some(s[j].item.value)
    decreases |s|
  {
    var n := |s|;
    if j < n - 1 {
      FindUnique(s[..n - 1], j, x);
    }
  }

  lemma {:induction false} CountUpdate(s: seq<Slot>, j: int, sl: Slot)
    requires 0 <= j < |s|
    ensures CountLive(s[j := sl]) ==
            CountLive(s) - (if s[j].Live? then 1 else 0) + (if sl.Live? then 1 else 0)
    decreases |s|
  {
    var n := |s|;
    if j < n - 1 {
      assert s[j := sl][..n - 1] == s[..n - 1][j := sl];
      CountUpdate(s[..n - 1], j, sl);
    } else {
      assert s[j := sl][..n - 1] == s[..n - 1];
    }
  }

  // ---------------------------------------------------------------------------------
  // Search

  /** Under the probing invariant no key is live in two slots. */
  lemma PlacedUnique(s: seq<Slot>, i: int, j: int)
    requires Placed(s) && 0 <= i < |s| && 0 <= j < |s|
    requires s[i].Live? && IsLiveKey(s[j], s[i].item.key)
    ensures i == j
  {
    assert PlacedAt(s, i) && PlacedAt(s, j);
  }

  /** Extending a prefix of the slots by one slot: its item, if live, overrides that key and
      adds one live slot; under the probing invariant its key is absent from the prefix. */
  lemma PrefixExtend(s: seq<Slot>, i: int)
    requires Placed(s) && 0 <= i < |s|
    ensures CountLive(s[..i + 1]) == CountLive(s[..i]) + (if s[i].Live? then 1 else 0)
    ensures forall x :: Find(s[..i + 1], x) ==
              if IsLiveKey(s[i], x) then Some(s[i].item.value) else Find(s[..i], x)
    ensures s[i].Live? ==> Find(s[..i], s[i].item.key) == None
  {
    assert s[..i + 1][..i] == s[..i];
    if s[i].Live? {
      forall j | 0 <= j < i ensures !IsLiveKey(s[..i][j], s[i].item.key) {
        if IsLiveKey(s[j], s[i].item.key) {
          PlacedUnique(s, i, j);
        }
      }
    }
  }

  /** Search returns exactly the table's content: the value of the live item holding the
      key, and None when no live item holds it. */
  lemma LookupIsFind(s: seq<Slot>, x: string)
    requires Placed(s)
    ensures Lookup(s, x) == Find(s, x)
  {
    match Locate(s, x, 0)
    case Match(j) =>
      forall i | 0 <= i < |s| && IsLiveKey(s[i], x) ensures i == j {
        PlacedUnique(s, j, i);
      }
      FindUnique(s, j, x);
    case _ =>
      forall i | 0 <= i < |s| ensures !IsLiveKey(s[i], x) {
        assert PlacedAt(s, i);
      }
  }

  /** The probing invariant as a statement about the path: a live item at slot j is reached
      at some attempt a < |s|, and every slot visited at an earlier attempt is non-empty. */
  lemma {:induction false} LocateMatchPath(s: seq<Slot>, x: string, t: nat, j: nat)
    requires Locate(s, x, t) == Match(j)
    ensures exists a :: t <= a < |s| && Probe(x, |s|, a) == j &&
              forall u :: t <= u < a ==> s[Probe(x, |s|, u)] != Empty
    decreases |s| - t
  {
    if Probe(x, |s|, t) != j {
      LocateMatchPath(s, x, t + 1, j);
      var a :| t + 1 <= a < |s| && Probe(x, |s|, a) == j &&
                forall u :: t + 1 <= u < a ==> s[Probe(x, |s|, u)] != Empty;
      assert forall u :: t <= u < a ==> s[Probe(x, |s|, u)] != Empty;
    }
  }

  // ---------------------------------------------------------------------------------
  // Insert

  /** Storing a key/value pair keeps the probing invariant; afterwards the key holds the new
      value (unless the walk was exhausted), every other key keeps its value, and the number
      of live slots grows by one exactly when the key was absent. */
  lemma StoredPreserves(s: seq<Slot>, key: string, value: string)
    requires Placed(s)
    ensures Placed(Stored(s, key, value))
    ensures forall x :: Find(Stored(s, key, value), x) ==
              if x == key && !Locate(s, key, 0).Exhausted? then Some(value) else Find(s, x)
    ensures Locate(s, key, 0).Match? <==> Find(s, key).Some?
    ensures CountLive(Stored(s, key, value)) ==
              CountLive(s) + (if Locate(s, key, 0).Vacant? then 1 else 0)
  {
    LookupIsFind(s, key);
    var landing := Locate(s, key, 0);
    if !landing.Exhausted? {
      var j := landing.index;
      var sl := Live(Item(key, value));
      var s' := s[j := sl];
      forall i | 0 <= i < |s'| ensures PlacedAt(s', i) {
        if i == j {
          if landing.Match? {
            LocateUpdate(s, j, sl, key, 0);
          } else {
            LocateFill(s, j, value, key, 0);
          }
        } else if s'[i].Live? {
          var x := s[i].item.key;
          assert PlacedAt(s, i);
          if landing.Match? {
            LocateUpdate(s, j, sl, x, 0);
          } else {
            LocateAvoidsEmpty(s, j, sl, x, 0, i);
          }
        }
      }
      forall x ensures Find(s', x) == if x == key then Some(value) else Find(s, x) {
        if x == key {
          assert PlacedAt(s', j);
          LookupIsFind(s', key);
        } else {
          FindUpdate(s, j, sl, x);
        }
      }
      CountUpdate(s, j, sl);
    }
  }

  /** After an insert whose walk was not exhausted, a search for the key returns the new
      value, and a search for any other key returns what it returned before. */
  lemma InsertThenSearch(s: seq<Slot>, key: string, value: string, other: string)
    requires Placed(s) && !Locate(s, key, 0).Exhausted?
    ensures Lookup(Stored(s, key, value), key) == Some(value)
    ensures other != key ==> Lookup(Stored(s, key, value), other) == Lookup(s, other)
  {
    StoredPreserves(s, key, value);
    LookupIsFind(s, other);
    LookupIsFind(Stored(s, key, value), key);
    LookupIsFind(Stored(s, key, value), other);
  }

  // ---------------------------------------------------------------------------------
  // Delete

  lemma {:induction false} TombstonedAbsent(s: seq<Slot>, key: string, t: nat)
    requires forall i :: 0 <= i < |s| ==> !IsLiveKey(s[i], key)
    ensures Tombstoned(s, key, t) == s
    decreases |s| - t
  {
    if t < |s| {
      TombstonedAbsent(s, key, t + 1);
    }
  }

  lemma {:induction false} TombstonedReaches(s: seq<Slot>, key: string, t: nat, j: nat)
    requires Locate(s, key, t) == Match(j)
    requires forall i :: 0 <= i < |s| && IsLiveKey(s[i], key) ==> i == j
    ensures Tombstoned(s, key, t) == s[j := Deleted]
    decreases |s| - t
  {
    var p := Probe(key, |s|, t);
    if p == j {
      TombstonedAbsent(s[j := Deleted], key, t + 1);
    } else {
      TombstonedReaches(s, key, t + 1, j);
    }
  }

  /** The deletion walk tombstones the key's one live slot and nothing else; the probing
      invariant still holds, the key is gone, every other key keeps its value, and the
      number of live slots drops by one exactly when the key was present. */
  lemma TombstonedErases(s: seq<Slot>, key: string)
    requires Placed(s)
    ensures Tombstoned(s, key, 0) ==
              if Locate(s, key, 0).Match? then s[Locate(s, key, 0).index := Deleted] else s
    ensures Placed(Tombstoned(s, key, 0))
    ensures forall x :: Find(Tombstoned(s, key, 0), x) == if x == key then None else Find(s, x)
    ensures CountLive(Tombstoned(s, key, 0)) == CountLive(s) - (if Find(s, key).Some? then 1 else 0)
  {
    LookupIsFind(s, key);
    match Locate(s, key, 0)
    case Match(j) =>
      forall i | 0 <= i < |s| && IsLiveKey(s[i], key) ensures i == j {
        PlacedUnique(s, j, i);
      }
      TombstonedReaches(s, key, 0, j);
      var s' := s[j := Deleted];
      forall i | 0 <= i < |s'| ensures PlacedAt(s', i) {
        if s'[i].Live? {
          assert PlacedAt(s, i);
          LocateUpdate(s, j, Deleted, s[i].item.key, 0);
        }
      }
      forall x ensures Find(s', x) == if x == key then None else Find(s, x) {
        if x != key {
          FindUpdate(s, j, Deleted, x);
        }
      }
      CountUpdate(s, j, Deleted);
    case _ =>
      TombstonedAbsent(s, key, 0);
  }

  /** After a delete, a search for the key returns None and a search for any other key
      returns what it returned before. */
  lemma DeleteThenSearch(s: seq<Slot>, key: string, other: string)
    requires Placed(s)
    ensures Lookup(Tombstoned(s, key, 0), key) == None
    ensures other != key ==> Lookup(Tombstoned(s, key, 0), other) == Lookup(s, other)
  {
    TombstonedErases(s, key);
    LookupIsFind(s, other);
    LookupIsFind(Tombstoned(s, key, 0), key);
    LookupIsFind(Tombstoned(s, key, 0), other);
  }

  /** Turning a live slot into a tombstone does not change where the deletion walk meets
      an empty slot. */
  lemma {:induction false} ReachesEmptyUpdate(s: seq<Slot>, j: int, sl: Slot, key: string, t: nat)
    requires 0 <= j < |s| && (s[j] == Empty) == (sl == Empty)
    ensures ReachesEmpty(s[j := sl], key, t) == ReachesEmpty(s, key, t)
    decreases |s| - t
  {
    if t < |s| {
      ReachesEmptyUpdate(s, j, sl, key, t + 1);
    }
  }

  // ---------------------------------------------------------------------------------
  // Resize

  /** The buckets of a new table: n empty slots. */
  function Empties(n: nat): (r: seq<Slot>)
    ensures |r| == n && forall j :: 0 <= j < n ==> r[j] == Empty
  {
    seq(n, _ => Empty)
  }

  /** The rehash of a resize as a value: the live items of s from index i on are stored,
      in index order, into the buckets acc; None when one of those stores finds its walk
      exhausted (the C rehash then never returns). */
  function RehashFrom(s: seq<Slot>, acc: seq<Slot>, i: nat): (r: Option<seq<Slot>>)
    ensures r.Some? ==> |r.value| == |acc|
    decreases |s| - i
  {
    if i >= |s| then Some(acc)
    else if !s[i].Live? then RehashFrom(s, acc, i + 1)
    else if Locate(acc, s[i].item.key, 0).Exhausted? then None
    else RehashFrom(s, Stored(acc, s[i].item.key, s[i].item.value), i + 1)
  }

  /** A rehash that completes keeps the probing invariant, leaves no tombstone, and ends
      with the same key/value pairs and the same number of live slots as the old buckets,
      given a start that agrees with the old buckets below index i. */
  lemma {:induction false} RehashFromKeeps(s: seq<Slot>, acc: seq<Slot>, i: nat)
    requires Placed(s) && Placed(acc) && i <= |s|
    requires forall j :: 0 <= j < |acc| ==> acc[j] != Deleted
    requires forall x :: Find(acc, x) == Find(s[..i], x)
    requires CountLive(acc) == CountLive(s[..i])
    requires RehashFrom(s, acc, i).Some?
    ensures Placed(RehashFrom(s, acc, i).value)
    ensures forall j :: 0 <= j < |acc| ==> RehashFrom(s, acc, i).value[j] != Deleted
    ensures forall x :: Find(RehashFrom(s, acc, i).value, x) == Find(s, x)
    ensures CountLive(RehashFrom(s, acc, i).value) == CountLive(s)
    decreases |s| - i
  {
    if i == |s| {
      assert s[..i] == s;
    } else {
      PrefixExtend(s, i);
      if s[i].Live? {
        var key, value := s[i].item.key, s[i].item.value;
        StoredPreserves(acc, key, value);
        StoredKeepsTombstones(acc, key, value);
        RehashFromKeeps(s, Stored(acc, key, value), i + 1);
      } else {
        RehashFromKeeps(s, acc, i + 1);
      }
    }
  }

  // ---------------------------------------------------------------------------------
  // Walks that never stop

  /** Insert never reuses a tombstone and no operation but a resize clears one: once every
      slot is a tombstone, every walk is exhausted (the C probe loops run forever). */
  lemma {:induction false} AllTombstonesExhaust(s: seq<Slot>, key: string, t: nat)
    requires forall i :: 0 <= i < |s| ==> s[i] == Deleted
    ensures Locate(s, key, t) == Exhausted
    ensures !ReachesEmpty(s, key, t)
    decreases |s| - t
  {
    if t < |s| {
      AllTombstonesExhaust(s, key, t + 1);
    }
  }

  /** An exhausted walk of insert and search never stops, however long it goes on: every
      attempt lands on a tombstone or on a live slot holding another key. So reporting
      exhaustion after |s| attempts is exactly the case where the unbounded loop runs forever. */
  lemma ExhaustedNeverStops(s: seq<Slot>, key: string, u: nat)
    requires |s| > 0 && Locate(s, key, 0) == Exhausted
    ensures s[Probe(key, |s|, u)] != Empty && !IsLiveKey(s[Probe(key, |s|, u)], key)
  {
    ProbeMod(key, |s|, u);
    ExhaustedWalk(s, key, 0, u % |s|);
  }

  lemma {:induction false} ExhaustedWalk(s: seq<Slot>, key: string, t: nat, a: nat)
    requires Locate(s, key, t) == Exhausted && t <= a < |s|
    ensures s[Probe(key, |s|, a)] != Empty && !IsLiveKey(s[Probe(key, |s|, a)], key)
    decreases a - t
  {
    if t < a {
      ExhaustedWalk(s, key, t + 1, a);
    }
  }

  /** A deletion walk that meets no empty slot within |s| attempts never meets one: every
      attempt, however late, lands on a non-empty slot, before and after the walk's own
      tombstoning. */
  lemma NoEmptyNeverStops(s: seq<Slot>, key: string, u: nat)
    requires |s| > 0 && !ReachesEmpty(s, key, 0)
    ensures s[Probe(key, |s|, u)] != Empty
    ensures Tombstoned(s, key, 0)[Probe(key, |s|, u)] != Empty
  {
    ProbeMod(key, |s|, u);
    ReachesEmptyMeans(s, key, 0);
    TombstonedKeepsEmpties(s, key, 0);
  }

  /** A walk whose every remaining attempt lands on one slot holding another key is exhausted. */
  lemma {:induction false} StuckWalkExhausts(s: seq<Slot>, key: string, t: nat, p: int)
    requires 0 <= p < |s| && s[p].Live? && s[p].item.key != key
    requires forall u :: t <= u < |s| ==> Probe(key, |s|, u) == p
    ensures Locate(s, key, t) == Exhausted
    decreases |s| - t
  {
    if t < |s| {
      StuckWalkExhausts(s, key, t + 1, p);
    }
  }
}
