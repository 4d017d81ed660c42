/**
 * Properties that relate several operations of the hash map: handle
 * stability, first-write-wins, erase undoing insert, the doubling schedule,
 * and a worked example with string keys.
 */
module Properties {
  import opened Wrappers
  import opened Pairs
  import opened Chains
  import opened HashMap

  /** Keys are unique, so find returns the one handle of the store whose entry has the key. */
  lemma {:induction false} FindUnique<K, V>(t: Table<K, V>, hash: K -> nat, k: K, h: Handle)
    requires Consistent(t, hash)
    requires h in t.order && h in t.arena && t.arena[h].key == k
    ensures Find(t, hash, k) == Some(h)
  {
    var i := IndexOf(t.order, h);
    LookupDistinct(Items(t), i);
    var h' := Find(t, hash, k).value;
    var j := IndexOf(t.order, h');
    assert Items(t)[i].key == Items(t)[j].key;
  }

  /** Insert as seen by lookups: only an absent key changes, and it gets the inserted value. */
  lemma {:induction false} InsertLookup<K, V>(t: Table<K, V>, hash: K -> nat, k: K, v: V, k': K)
    requires Consistent(t, hash)
    ensures Lookup(Items(Insert(t, hash, k, v)), k')
      == if k' == k && Lookup(Items(t), k).None? then Some(v) else Lookup(Items(t), k')
  {
    if Lookup(Items(t), k).None? {
      LookupCons(Entry(k, v), Items(t), k');
    }
  }

  /** First write wins: a second insert of the same key changes nothing. */
  lemma {:induction false} InsertTwice<K, V>(t: Table<K, V>, hash: K -> nat, k: K, v1: V, v2: V)
    requires Consistent(t, hash)
    ensures Insert(Insert(t, hash, k, v1), hash, k, v2) == Insert(t, hash, k, v1)
    ensures Lookup(Items(t), k).None? ==> Lookup(Items(Insert(Insert(t, hash, k, v1), hash, k, v2)), k) == Some(v1)
  {
    InsertLookup(t, hash, k, v1, k);
  }

  /** A handle obtained from find survives any insert, including one that rehashes. */
  lemma {:induction false} FindSurvivesInsert<K, V>(t: Table<K, V>, hash: K -> nat, k: K, k2: K, v: V)
    requires Consistent(t, hash) && Find(t, hash, k).Some?
    ensures var h := Find(t, hash, k).value;
      var t' := Insert(t, hash, k2, v);
      && Find(t', hash, k) == Some(h)
      && h in t'.arena && t'.arena[h] == t.arena[h]
  {
    var h := Find(t, hash, k).value;
    var t' := Insert(t, hash, k2, v);
    if Lookup(Items(t), k2).None? {
      assert h in t'.order;
      FindUnique(t', hash, k, h);
    }
  }

  /** A handle obtained from find survives the erase of any other key. */
  lemma {:induction false} FindSurvivesErase<K, V>(t: Table<K, V>, hash: K -> nat, k: K, k2: K)
    requires Valid(t, hash) && Find(t, hash, k).Some? && k2 != k
    ensures var h := Find(t, hash, k).value;
      var t' := Erase(t, hash, k2);
      && Find(t', hash, k) == Some(h)
      && h in t'.arena && t'.arena[h] == t.arena[h]
  {
    var h := Find(t, hash, k).value;
    if Lookup(Items(t), k2).Some? {
      var h2 := Find(t, hash, k2).value;
      InWithout(t.order, IndexOf(t.order, h2), h);
      FindUnique(Erase(t, hash, k2), hash, k, h);
    }
  }

  /** A rehash changes neither what find returns nor the entries iteration yields. */
  lemma {:induction false} FindSurvivesRehash<K, V>(t: Table<K, V>, hash: K -> nat, k: K)
    requires Consistent(t, hash)
    ensures Find(Rehash(t, hash), hash, k) == Find(t, hash, k)
    ensures Items(Rehash(t, hash)) == Items(t)
  {
    if Find(t, hash, k).Some? {
      FindUnique(Rehash(t, hash), hash, k, Find(t, hash, k).value);
    }
  }

  /** The next handle to allocate names no entry yet. */
  lemma {:induction false} NextIsFresh<K, V>(t: Table<K, V>, hash: K -> nat)
    requires Consistent(t, hash)
    ensures t.next !in t.arena && t.next !in t.order
  {
    forall h | h in t.arena ensures h != t.next {
      var i := IndexOf(t.order, h);
    }
  }

  /** Erasing the key of the front entry drops exactly the front of the store. */
  lemma {:induction false} EraseFront<K, V>(t: Table<K, V>, hash: K -> nat, k: K)
    requires Valid(t, hash) && |t.order| > 0 && t.arena[t.order[0]].key == k
    ensures var t' := Erase(t, hash, k);
      && t'.order == t.order[1..] && t'.arena == t.arena - {t.order[0]}
      && Items(t') == Items(t)[1..] && t'.count == t.count - 1
  {
    LookupDistinct(Items(t), 0);
    FindUnique(t, hash, k, t.order[0]);
    assert IndexOf(t.order, t.order[0]) == 0;
    assert Without(t.order, 0) == t.order[1..];
    assert Without(Items(t), 0) == Items(t)[1..];
  }

  /** Erase undoes the insert of an absent key: same store, same entries, same count. */
  lemma {:induction false} EraseUndoesInsert<K, V>(t: Table<K, V>, hash: K -> nat, k: K, v: V)
    requires Valid(t, hash) && Lookup(Items(t), k).None?
    ensures var t' := Erase(Insert(t, hash, k, v), hash, k);
      && Items(t') == Items(t)
      && t'.order == t.order && t'.arena == t.arena && t'.count == t.count
  {
    var t1 := Insert(t, hash, k, v);
    NextIsFresh(t, hash);
    EraseFront(t1, hash, k);
    assert t1.order[1..] == t.order;
    assert Items(t1)[1..] == Items(t);
    AddThenRemove(t.arena, t.next, Entry(k, v));
  }

  lemma {:induction false} AddThenRemove<K, V>(m: map<Handle, Entry<K, V>>, h: Handle, e: Entry<K, V>)
    requires h !in m
    ensures m[h := e] - {h} == m
  {
  }

  /** From an empty table, three distinct inserts take the bucket count 2, 2, 4, 8. */
  lemma {:induction false} DoublingSchedule<K, V>(hash: K -> nat, k1: K, k2: K, k3: K, v1: V, v2: V, v3: V)
    requires k1 != k2 && k1 != k3 && k2 != k3
    ensures var t0 := New(hash);
      var t1 := Insert(t0, hash, k1, v1);
      var t2 := Insert(t1, hash, k2, v2);
      var t3 := Insert(t2, hash, k3, v3);
      && t0.hashSize == 2 && t1.hashSize == 2 && t2.hashSize == 4 && t3.hashSize == 8
      && t3.count == 3 && Valid(t3, hash)
  {
    var t0 := New(hash);
    var t1 := Insert(t0, hash, k1, v1);
    var t2 := Insert(t1, hash, k2, v2);
    LookupCons(Entry(k1, v1), [], k2);
    LookupCons(Entry(k2, v2), [Entry(k1, v1)], k3);
    LookupCons(Entry(k1, v1), [], k3);
  }

  /** The entries the fold keeps from ("a", 1), ("b", 2), ("a", 99): the first "a" and the "b". */
  lemma {:induction false} ScenarioNovel()
    ensures Novel([Entry("a", 1), Entry("b", 2), Entry("a", 99)], {}) == [Entry("a", 1), Entry("b", 2)]
    ensures Reverse(Novel([Entry("a", 1), Entry("b", 2), Entry("a", 99)], {})) == [Entry("b", 2), Entry("a", 1)]
  {
    var ps := [Entry("a", 1), Entry("b", 2), Entry("a", 99)];
    assert ps[1..] == [Entry("b", 2), Entry("a", 99)];
    assert ps[1..][1..] == [Entry("a", 99)];
    assert "a" != "b" by {
      assert "a"[0] != "b"[0];
    }
    var none: set<string> := {};
    assert none + {"a"} == {"a"} && {"a"} + {"b"} == {"a", "b"};
    assert Novel(ps[1..][1..], {"a", "b"}) == [];
    assert Novel(ps[1..], {"a"}) == [Entry("b", 2)];
  }

  /** Size and at on a table that iterates ("b", 2), ("a", 1). */
  lemma {:induction false} ScenarioQueries(t: Table<string, int>, hash: string -> nat)
    requires Valid(t, hash) && Items(t) == [Entry("b", 2), Entry("a", 1)]
    ensures Size(t, hash) == 2
    ensures At(t, hash, "a") == Ok(1) && At(t, hash, "b") == Ok(2)
    ensures At(t, hash, "missing") == Err(OutOfRange)
  {
    assert "a" != "b" && "missing" != "a" && "missing" != "b" by {
      assert "a"[0] != "b"[0] && |"missing"| != 1;
    }
    LookupCons(Entry("b", 2), [Entry("a", 1)], "a");
    LookupCons(Entry("b", 2), [Entry("a", 1)], "missing");
    LookupCons(Entry("a", 1), [], "missing");
  }

  /**
   * Inserting ("a", 1), ("b", 2), ("a", 99) keeps two entries, iterates
   * most recent first, and keeps the first value of "a".
   */
  lemma {:induction false} StringScenario(hash: string -> nat)
    ensures var t := FromPairs(hash, [Entry("a", 1), Entry("b", 2), Entry("a", 99)]);
      && Items(t) == [Entry("b", 2), Entry("a", 1)]
      && Size(t, hash) == 2
      && At(t, hash, "a") == Ok(1)
      && At(t, hash, "b") == Ok(2)
      && At(t, hash, "missing") == Err(OutOfRange)
  {
    var t := FromPairs(hash, [Entry("a", 1), Entry("b", 2), Entry("a", 99)]);
    ScenarioNovel();
    ScenarioQueries(t, hash);
  }
}
