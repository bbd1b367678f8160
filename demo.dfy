/** Client scenarios, proved from the contracts of the table's operations alone. */
module Demo {
  import opened Prime
  import opened Probing
  import opened Slots
  import opened HashTable

  /** A new table has 53 buckets. */
  lemma InitialSizeIs53()
    ensures NextPrime(InitialBaseSize) == 53
  {
    assert IsPrime(53);
  }

  /** The key "+" has second hash 52 in a 53-bucket table, so its probe step is 53, a
      multiple of the bucket count: every attempt visits bucket 49, the first bucket of "aM". */
  lemma PlusProbesOneBucket()
    ensures Hash("+", HashPrime2, 53) == 52
    ensures forall u: nat :: Probe("+", 53, u) == 49
    ensures Probe("aM", 53, 0) == 49
  {
    assert "+"[0] as int == 43 && |"+"| == 1;
    assert Pow(151, 2) == 22801 && Pow(163, 2) == 26569;
    assert HashAfter("+", HashPrime1, 53, 1) == (22801 * 43) % 53 == 49;
    assert HashAfter("+", HashPrime2, 53, 1) == (26569 * 43) % 53 == 52;
    assert "aM"[0] as int == 97 && "aM"[1] as int == 77 && |"aM"| == 2;
    assert Pow(151, 3) == 3442951;
    assert HashAfter("aM", HashPrime1, 53, 1) == (3442951 * 97) % 53 == 50;
    assert HashAfter("aM", HashPrime1, 53, 2) == (50 + 22801 * 77) % 53 == 49;
    forall u: nat ensures Probe("+", 53, u) == 49 {
      ShiftMod(49, u, 53);
    }
  }

  /** The demonstration program inserts "chien" -> "dog" into a new table and searches it;
      the scenario goes on to delete it, search again and read the count. */
  method ChienScenario() returns (found: Option<string>, afterDelete: Option<string>, count: nat)
    ensures found == Some("dog")
    ensures afterDelete == None
    ensures count == 0
  {
    InitialSizeIs53();
    var t := Table.New();
    assert Locate(t.items[..], "chien", 0).Vacant?;
    var ok := t.Insert("chien", "dog");
    found := t.Search("chien");
    ok := t.Delete("chien");
    afterDelete := t.Search("chien");
    count := t.count;
  }

  /** Inserting "aM" into a new table and then "+": the second insertion's walk is
      exhausted (ht_insert's probe loop runs forever), although the table holds a single item. */
  method StalledInsert() returns (first: bool, second: bool)
    ensures first && !second
  {
    InitialSizeIs53();
    PlusProbesOneBucket();
    var t := Table.New();
    ghost var empty := t.items[..];
    assert Locate(empty, "aM", 0) == Vacant(49);
    first := t.Insert("aM", "x");
    ghost var one := t.items[..];
    assert one == empty[49 := Live(Item("aM", "x"))];
    StuckWalkExhausts(one, "+", 0, 49);
    second := t.Insert("+", "y");
  }
}
