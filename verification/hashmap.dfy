/**
 * A separate-chaining hash map. The element store is a list of key/value
 * entries, most recently inserted first; the bucket index is a vector of
 * chains of references into that store. Here the store is an arena of
 * entries addressed by stable handles plus the sequence of live handles in
 * store order, and each bucket is a sequence of handles.
 *
 * The hash functor is the parameter `hash`, passed to every operation: it
 * stands for the table's `hash` member.
 */
module HashMap {
  import opened Wrappers
  import opened Pairs
  import opened Chains

  /** Bucket count of a freshly constructed table. */
  const InitSize: nat := 2

  /** Growth factor of a rehash; also the load bound count * RehashFactor <= bucket count. */
  const RehashFactor: nat := 2

  /** The failure `at` reports for an absent key. */
  datatype Error = OutOfRange

  datatype Table<K, V> = Table(
    arena: map<Handle, Entry<K, V>>,  // the store's entries, by handle
    order: seq<Handle>,               // store order: most recently inserted first
    buckets: seq<seq<Handle>>,        // the bucket index
    count: nat,                       // the element counter
    hashSize: nat,                    // the bucket count keys are reduced modulo
    next: Handle)                     // the handle the next inserted entry receives

  /** What iteration from begin to end yields. */
  function Items<K, V>(t: Table<K, V>): (items: seq<Entry<K, V>>)
    requires Resolves(t.order, t.arena)
    ensures |items| == |t.order|
    ensures forall i :: 0 <= i < |t.order| ==> items[i] == t.arena[t.order[i]]
  {
    Entries(t.order, t.arena)
  }

  /**
   * The store and the bucket index agree: every handle of the store names an
   * entry, the arena holds nothing else, every handle of the store is below
   * `next`, keys are unique, and bucket b lists exactly the store's handles whose key
   * hashes to b, in store order. Buckets at or above `hashSize` are empty.
   */
  ghost predicate Consistent<K, V>(t: Table<K, V>, hash: K -> nat) {
    && Resolves(t.order, t.arena)
    && (forall h :: h in t.arena ==> h in t.order)
    && (forall i :: 0 <= i < |t.order| ==> t.order[i] < t.next)
    && DistinctKeys(Items(t))
    && 0 < t.hashSize <= |t.buckets|
    && (forall b :: 0 <= b < |t.buckets| ==> t.buckets[b] == Chain(t.order, t.arena, hash, t.hashSize, b))
  }

  /**
   * The representation invariant the public operations keep: a consistent
   * table with one bucket per hash value, a counter equal to the number of
   * entries, at least InitSize buckets and the load bound.
   */
  ghost predicate Valid<K, V>(t: Table<K, V>, hash: K -> nat) {
    && Consistent(t, hash)
    && |t.buckets| == t.hashSize
    && t.count == |t.order|
    && InitSize <= t.hashSize
    && RehashFactor * t.count <= t.hashSize
  }

  /** No handle occurs twice in the store of a consistent table. */
  lemma {:induction false} HandlesDistinct<K, V>(t: Table<K, V>, hash: K -> nat)
    requires Consistent(t, hash)
    ensures forall i, j :: 0 <= i < j < |t.order| ==> t.order[i] != t.order[j]
  {
    forall i, j | 0 <= i < j < |t.order| ensures t.order[i] != t.order[j] {
      assert Items(t)[i].key != Items(t)[j].key;
    }
  }

  /** The empty table every constructor starts from. */
  function New<K, V>(hash: K -> nat): (t: Table<K, V>)
    ensures Valid(t, hash)
    ensures Items(t) == [] && t.hashSize == InitSize
  {
    Table(map[], [], seq(InitSize, _ => []), 0, InitSize, 0)
  }

  /** The bucket of k alone settles whether k is in the store, and where. */
  lemma {:induction false} BucketDecides<K, V>(t: Table<K, V>, hash: K -> nat, k: K)
    requires Consistent(t, hash)
    ensures Resolves(t.buckets[Slot(hash, k, t.hashSize)], t.arena)
    ensures var chain := t.buckets[Slot(hash, k, t.hashSize)];
            var i := ScanChain(chain, t.arena, k);
            if i < |chain| then chain[i] in t.order && Lookup(Items(t), k) == Some(t.arena[chain[i]].value)
            else Lookup(Items(t), k).None?
  {
    var s := Slot(hash, k, t.hashSize);
    var chain := t.buckets[s];
    ChainResolves(t.order, t.arena, hash, t.hashSize, s);
    var i := ScanChain(chain, t.arena, k);
    if i < |chain| {
      ChainMember(t.order, t.arena, hash, t.hashSize, s, chain[i]);
      var p := IndexOf(t.order, chain[i]);
      LookupDistinct(Items(t), p);
    } else {
      forall p | 0 <= p < |t.order| ensures Items(t)[p].key != k {
        ChainMember(t.order, t.arena, hash, t.hashSize, s, t.order[p]);
      }
      LookupNone(Items(t), k);
    }
  }

  /**
   * Lookup: scan the key's bucket for an entry with an equal key. The result
   * is that entry's handle, or None for the end-of-store sentinel.
   */
  function Find<K(==), V>(t: Table<K, V>, hash: K -> nat, k: K): (r: Option<Handle>)
    requires Consistent(t, hash)
    ensures r.Some? ==> r.value in t.order && r.value in t.arena && t.arena[r.value].key == k
    ensures r.Some? ==> Lookup(Items(t), k) == Some(t.arena[r.value].value)
    ensures r.None? <==> Lookup(Items(t), k).None?
  {
    var chain := t.buckets[Slot(hash, k, t.hashSize)];
    BucketDecides(t, hash, k);
    var i := ScanChain(chain, t.arena, k);
    if i < |chain| then Some(chain[i]) else None
  }

  /** Rebuild the bucket index for twice as many buckets; the store is untouched. */
  function Rehash<K, V>(t: Table<K, V>, hash: K -> nat): (r: Table<K, V>)
    requires Consistent(t, hash)
    ensures Consistent(r, hash)
    ensures r.hashSize == RehashFactor * t.hashSize && |r.buckets| == r.hashSize
    ensures r.arena == t.arena && r.order == t.order && Items(r) == Items(t)
    ensures r.count == t.count && r.next == t.next
    ensures t.count == |t.order| && RehashFactor * t.count <= r.hashSize ==> Valid(r, hash)
  {
    var n := RehashFactor * t.hashSize;
    Table(t.arena, t.order, Distribute(t.order, t.arena, hash, n), t.count, n, t.next)
  }

  /** Putting a fresh handle in front of the store puts it in front of its own chain only. */
  lemma {:induction false} PrependChain<K, V>(t: Table<K, V>, hash: K -> nat, k: K, v: V, n: nat, b: nat)
    requires Resolves(t.order, t.arena) && 0 < n
    requires forall i :: 0 <= i < |t.order| ==> t.order[i] < t.next
    ensures Resolves([t.next] + t.order, t.arena[t.next := Entry(k, v)])
    ensures Chain([t.next] + t.order, t.arena[t.next := Entry(k, v)], hash, n, b)
      == (if Slot(hash, k, n) == b then [t.next] else []) + Chain(t.order, t.arena, hash, n, b)
  {
    var arena' := t.arena[t.next := Entry(k, v)];
    var order' := [t.next] + t.order;
    assert Resolves(order', arena') by {
      forall i | 0 <= i < |order'| ensures order'[i] in arena' {
        if i > 0 { assert order'[i] == t.order[i - 1]; }
      }
    }
    assert order'[1..] == t.order;
    ChainFrame(t.order, t.arena, arena', hash, n, b);
  }

  /** The table after linking a fresh entry for an absent key, before any rehash. */
  function Link<K, V>(t: Table<K, V>, hash: K -> nat, k: K, v: V): Table<K, V>
    requires 0 < t.hashSize <= |t.buckets|
  {
    var s := Slot(hash, k, t.hashSize);
    Table(t.arena[t.next := Entry(k, v)], [t.next] + t.order,
          t.buckets[s := [t.next] + t.buckets[s]], t.count + 1, t.hashSize, t.next + 1)
  }

  lemma {:induction false} LinkItems<K, V>(t: Table<K, V>, hash: K -> nat, k: K, v: V)
    requires Resolves(t.order, t.arena) && DistinctKeys(Items(t))
    requires forall i :: 0 <= i < |t.order| ==> t.order[i] < t.next
    requires 0 < t.hashSize <= |t.buckets|
    requires Lookup(Items(t), k).None?
    ensures Resolves(Link(t, hash, k, v).order, Link(t, hash, k, v).arena)
    ensures Items(Link(t, hash, k, v)) == [Entry(k, v)] + Items(t)
    ensures DistinctKeys(Items(Link(t, hash, k, v)))
  {
    assert t.next !in t.order;
    EntriesCons(t.order, t.arena, t.next, Entry(k, v));
    DistinctCons(Entry(k, v), Items(t));
  }

  lemma {:induction false} LinkStore<K, V>(t: Table<K, V>, hash: K -> nat, k: K, v: V)
    requires Consistent(t, hash)
    ensures forall i :: 0 <= i < |Link(t, hash, k, v).order| ==> Link(t, hash, k, v).order[i] < t.next + 1
    ensures forall h :: h in Link(t, hash, k, v).arena ==> h in Link(t, hash, k, v).order
  {
    var t1 := Link(t, hash, k, v);
    forall i | 0 <= i < |t1.order| ensures t1.order[i] < t1.next {
      if i > 0 { assert t1.order[i] == t.order[i - 1]; }
    }
    forall h | h in t1.arena ensures h in t1.order {
      if h != t.next { assert h in t.order; }
    }
  }

  lemma {:induction false} LinkChains<K, V>(t: Table<K, V>, hash: K -> nat, k: K, v: V)
    requires Consistent(t, hash)
    ensures Resolves(Link(t, hash, k, v).order, Link(t, hash, k, v).arena)
    ensures forall b :: 0 <= b < |t.buckets| ==>
      Link(t, hash, k, v).buckets[b] == Chain(Link(t, hash, k, v).order, Link(t, hash, k, v).arena, hash, t.hashSize, b)
  {
    var t1 := Link(t, hash, k, v);
    PrependChain(t, hash, k, v, t.hashSize, 0);
    forall b | 0 <= b < |t1.buckets|
      ensures t1.buckets[b] == Chain(t1.order, t1.arena, hash, t1.hashSize, b)
    {
      PrependChain(t, hash, k, v, t.hashSize, b);
    }
  }

  lemma {:induction false} LinkConsistent<K, V>(t: Table<K, V>, hash: K -> nat, k: K, v: V)
    requires Consistent(t, hash)
    requires Lookup(Items(t), k).None?
    ensures Consistent(Link(t, hash, k, v), hash)
    ensures Items(Link(t, hash, k, v)) == [Entry(k, v)] + Items(t)
  {
    LinkItems(t, hash, k, v);
    LinkStore(t, hash, k, v);
    LinkChains(t, hash, k, v);
  }

  /** The rehash check that follows linking a new entry. */
  function Grow<K, V>(t: Table<K, V>, hash: K -> nat): (r: Table<K, V>)
    requires Consistent(t, hash)
    ensures Consistent(r, hash)
    ensures r.arena == t.arena && r.order == t.order && Items(r) == Items(t)
    ensures r.count == t.count && r.next == t.next
    ensures r.hashSize == if t.hashSize < RehashFactor * t.count then RehashFactor * t.hashSize else t.hashSize
    ensures t.count == |t.order| && |t.buckets| == t.hashSize && InitSize <= t.hashSize && t.count <= t.hashSize
      ==> Valid(r, hash)
  {
    if t.hashSize < RehashFactor * t.count then Rehash(t, hash) else t
  }

  /** The link-then-grow step of an insert of a new key, in terms of the table before it. */
  lemma {:induction false} LinkGrow<K, V>(t: Table<K, V>, hash: K -> nat, k: K, v: V)
    requires Consistent(t, hash)
    requires Lookup(Items(t), k).None?
    ensures Consistent(Link(t, hash, k, v), hash)
    ensures var r := Grow(Link(t, hash, k, v), hash);
      && Consistent(r, hash)
      && r.order == [t.next] + t.order
      && r.arena == t.arena[t.next := Entry(k, v)]
      && Items(r) == [Entry(k, v)] + Items(t)
      && r.count == t.count + 1
      && r.next == t.next + 1
      && r.hashSize == (if t.hashSize < RehashFactor * r.count then RehashFactor * t.hashSize else t.hashSize)
      && r.buckets[Slot(hash, k, r.hashSize)]
           == [t.next] + Chain(t.order, t.arena, hash, r.hashSize, Slot(hash, k, r.hashSize))
      && (Valid(t, hash) ==> Valid(r, hash))
  {
    var t1 := Link(t, hash, k, v);
    LinkConsistent(t, hash, k, v);
    var r := Grow(t1, hash);
    PrependChain(t, hash, k, v, r.hashSize, Slot(hash, k, r.hashSize));
    if Valid(t, hash) {
      assert t1.count <= t1.hashSize && |t1.buckets| == t1.hashSize;
    }
  }

  /**
   * Insert: a key already present leaves the table as it is (the first write
   * wins); otherwise the entry goes to the front of the store and of its
   * bucket, and the table doubles its buckets once if the load bound no
   * longer holds.
   */
  function Insert<K(==), V>(t: Table<K, V>, hash: K -> nat, k: K, v: V): (r: Table<K, V>)
    requires Consistent(t, hash)
    ensures Consistent(r, hash)
    ensures Lookup(Items(t), k).Some? ==> r == t
    ensures Lookup(Items(t), k).None? ==>
      && r.order == [t.next] + t.order
      && r.arena == t.arena[t.next := Entry(k, v)]
      && Items(r) == [Entry(k, v)] + Items(t)
      && r.count == t.count + 1
      && r.next == t.next + 1
      && r.hashSize == (if t.hashSize < RehashFactor * r.count then RehashFactor * t.hashSize else t.hashSize)
      && r.buckets[Slot(hash, k, r.hashSize)]
           == [t.next] + Chain(t.order, t.arena, hash, r.hashSize, Slot(hash, k, r.hashSize))
    ensures Valid(t, hash) ==> Valid(r, hash)
  {
    if Find(t, hash, k).Some? then t
    else
      LinkGrow(t, hash, k, v);
      Grow(Link(t, hash, k, v), hash)
  }

  /** Insert in terms of the key set: a new key adds one entry in front, a known key nothing. */
  lemma {:induction false} InsertKeys<K, V>(t: Table<K, V>, hash: K -> nat, k: K, v: V)
    requires Consistent(t, hash)
    ensures k in KeysOf(Items(t)) ==> Insert(t, hash, k, v) == t
    ensures k !in KeysOf(Items(t)) ==>
      && Items(Insert(t, hash, k, v)) == [Entry(k, v)] + Items(t)
      && KeysOf(Items(Insert(t, hash, k, v))) == KeysOf(Items(t)) + {k}
      && Insert(t, hash, k, v).count == t.count + 1
  {
    KeysOfLookup(Items(t), k);
    KeysOfCons(Entry(k, v), Items(t));
  }

  /** The left fold of Insert over ps: what the range and list constructors run. */
  function InsertAll<K(==), V>(t: Table<K, V>, hash: K -> nat, ps: seq<Entry<K, V>>): (r: Table<K, V>)
    requires Consistent(t, hash)
    ensures Consistent(r, hash)
    ensures Valid(t, hash) ==> Valid(r, hash)
    decreases |ps|
  {
    if |ps| == 0 then t
    else InsertAll(Insert(t, hash, ps[0].key, ps[0].value), hash, ps[1..])
  }

  /**
   * The fold keeps the first entry of each key not already present and puts
   * each kept entry in front of the previous ones.
   */
  lemma {:induction false} InsertAllItems<K, V>(t: Table<K, V>, hash: K -> nat, ps: seq<Entry<K, V>>)
    requires Consistent(t, hash)
    ensures Items(InsertAll(t, hash, ps)) == Reverse(Novel(ps, KeysOf(Items(t)))) + Items(t)
    ensures InsertAll(t, hash, ps).count == t.count + |Novel(ps, KeysOf(Items(t)))|
    decreases |ps|
  {
    if |ps| > 0 {
      var p := ps[0];
      var t1 := Insert(t, hash, p.key, p.value);
      InsertKeys(t, hash, p.key, p.value);
      InsertAllItems(t1, hash, ps[1..]);
      NovelStep(ps, KeysOf(Items(t)), Items(t));
    }
  }

  /** Lookups after the fold: a key already present keeps its value, otherwise its first entry in ps wins. */
  lemma {:induction false} InsertAllLookup<K, V>(t: Table<K, V>, hash: K -> nat, ps: seq<Entry<K, V>>, k: K)
    requires Consistent(t, hash)
    ensures Lookup(Items(InsertAll(t, hash, ps)), k)
      == (if Lookup(Items(t), k).Some? then Lookup(Items(t), k) else Lookup(ps, k))
    decreases |ps|
  {
    if |ps| > 0 {
      var p := ps[0];
      var t1 := Insert(t, hash, p.key, p.value);
      InsertAllLookup(t1, hash, ps[1..], k);
      if Lookup(Items(t), p.key).None? {
        LookupCons(p, Items(t), k);
      }
    }
  }

  /** The range and initializer-list constructors: an empty table, then Insert of each pair in turn. */
  function FromPairs<K(==), V>(hash: K -> nat, ps: seq<Entry<K, V>>): (t: Table<K, V>)
    ensures Valid(t, hash)
    ensures Items(t) == Reverse(Novel(ps, {}))
  {
    var t0 := New(hash);
    InsertAllItems(t0, hash, ps);
    assert KeysOf(Items(t0)) == {};
    InsertAll(t0, hash, ps)
  }

  /** After construction, each key maps to the value of its first pair in the input. */
  lemma {:induction false} FromPairsLookup<K, V>(hash: K -> nat, ps: seq<Entry<K, V>>, k: K)
    ensures Lookup(Items(FromPairs(hash, ps)), k) == Lookup(ps, k)
  {
    InsertAllLookup(New(hash), hash, ps, k);
  }

  /** The table with the entry at store position p, which is position i of bucket s, unlinked. */
  function Unlink<K, V>(t: Table<K, V>, s: nat, i: nat, p: nat): Table<K, V>
    requires s < |t.buckets| && i < |t.buckets[s]| && p < |t.order| && 0 < t.count
  {
    var chain := t.buckets[s];
    Table(t.arena - {t.order[p]}, Without(t.order, p),
          t.buckets[s := chain[..i] + chain[i + 1..]], t.count - 1, t.hashSize, t.next)
  }

  lemma {:induction false} UnlinkItems<K, V>(t: Table<K, V>, s: nat, i: nat, p: nat)
    requires Resolves(t.order, t.arena) && DistinctKeys(Items(t))
    requires forall h :: h in t.arena ==> h in t.order
    requires forall j :: 0 <= j < |t.order| ==> t.order[j] < t.next
    requires s < |t.buckets| && i < |t.buckets[s]| && p < |t.order| && 0 < t.count
    requires forall j :: 0 <= j < |t.order| && j != p ==> t.order[j] != t.order[p]
    ensures var r := Unlink(t, s, i, p);
      && Resolves(r.order, r.arena)
      && Items(r) == Without(Items(t), p)
      && DistinctKeys(Items(r))
      && (forall h :: h in r.arena ==> h in r.order)
      && (forall j :: 0 <= j < |r.order| ==> r.order[j] < r.next)
  {
    var r := Unlink(t, s, i, p);
    EntriesRemoveAt(t.order, t.arena, p);
    DistinctRemoveAt(Items(t), p);
    forall h | h in r.arena ensures h in r.order {
      InWithout(t.order, p, h);
    }
  }

  /** Unlinking the entry the scan found leaves every bucket equal to its chain in the shorter store. */
  lemma {:induction false} UnlinkBucket<K, V>(t: Table<K, V>, hash: K -> nat, s: nat, i: nat, p: nat, b: nat)
    requires Resolves(t.order, t.arena) && 0 < t.hashSize <= |t.buckets| && 0 < t.count
    requires s < |t.buckets| && i < |t.buckets[s]| && p < |t.order| && t.order[p] == t.buckets[s][i]
    requires t.buckets[s] == Chain(t.order, t.arena, hash, t.hashSize, s)
    requires b < |t.buckets| && (b != s ==> t.buckets[b] == Chain(t.order, t.arena, hash, t.hashSize, b))
    requires forall j :: 0 <= j < |t.order| && j != p ==> t.order[j] != t.order[p]
    ensures var r := Unlink(t, s, i, p);
      Resolves(r.order, r.arena) && r.buckets[b] == Chain(r.order, r.arena, hash, r.hashSize, b)
  {
    var n := t.hashSize;
    var h := t.order[p];
    var front, back := t.order[..p], t.order[p + 1..];
    SplitOnce(t.order, p);
    ChainRemove(front, h, back, t.arena, hash, n, b);
    ChainSplit(front, h, back, t.arena, hash, n, b);
    ChainMember(t.order, t.arena, hash, n, s, h);
    if b == s {
      var a := Chain(front, t.arena, hash, n, b);
      var c := Chain(back, t.arena, hash, n, b);
      ChainMember(front, t.arena, hash, n, b, h);
      ChainMember(back, t.arena, hash, n, b, h);
      assert t.buckets[s] == a + [h] + c;
      DropOnly(t.buckets[s], a, h, c, i);
    }
  }

  lemma {:induction false} UnlinkValid<K, V>(t: Table<K, V>, hash: K -> nat, s: nat, i: nat, p: nat)
    requires Valid(t, hash) && s < |t.buckets| && i < |t.buckets[s]|
    requires p < |t.order| && t.order[p] == t.buckets[s][i]
    ensures Valid(Unlink(t, s, i, p), hash)
    ensures Items(Unlink(t, s, i, p)) == Without(Items(t), p)
  {
    var r := Unlink(t, s, i, p);
    HandlesDistinct(t, hash);
    UnlinkItems(t, s, i, p);
    forall b | 0 <= b < |r.buckets|
      ensures r.buckets[b] == Chain(r.order, r.arena, hash, r.hashSize, b)
    {
      UnlinkBucket(t, hash, s, i, p, b);
    }
  }

  /** The scan of k's bucket finds an entry exactly when k is present, and then it is the one find returns. */
  lemma {:induction false} ScanLocates<K, V>(t: Table<K, V>, hash: K -> nat, k: K)
    requires Valid(t, hash)
    ensures Resolves(t.buckets[Slot(hash, k, t.hashSize)], t.arena)
    ensures var chain := t.buckets[Slot(hash, k, t.hashSize)];
      var i := ScanChain(chain, t.arena, k);
      && (i == |chain| <==> Lookup(Items(t), k).None?)
      && (i < |chain| ==> chain[i] in t.order && Find(t, hash, k) == Some(chain[i]) && 0 < t.count)
  {
    BucketDecides(t, hash, k);
  }

  /**
   * Erase: scan the key's bucket; if an entry has the key, unlink it from
   * the store and from the bucket and decrement the counter. An absent key
   * is a no-op.
   */
  function Erase<K(==), V>(t: Table<K, V>, hash: K -> nat, k: K): (r: Table<K, V>)
    requires Valid(t, hash)
    ensures Valid(r, hash)
    ensures r.hashSize == t.hashSize && r.next == t.next
    ensures Lookup(Items(t), k).None? ==> r == t
    ensures Lookup(Items(t), k).Some? ==>
      var h := Find(t, hash, k).value;
      var p := IndexOf(t.order, h);
      && r.order == Without(t.order, p)
      && r.arena == t.arena - {h}
      && Items(r) == Without(Items(t), p)
      && r.count == t.count - 1
  {
    var s := Slot(hash, k, t.hashSize);
    var chain := t.buckets[s];
    ScanLocates(t, hash, k);
    var i := ScanChain(chain, t.arena, k);
    if i == |chain| then t
    else
      var p := IndexOf(t.order, chain[i]);
      UnlinkValid(t, hash, s, i, p);
      Unlink(t, s, i, p)
  }

  /** Erasing k makes k absent and changes the lookup of no other key. */
  lemma {:induction false} EraseLookup<K, V>(t: Table<K, V>, hash: K -> nat, k: K, k': K)
    requires Valid(t, hash)
    ensures Lookup(Items(Erase(t, hash, k)), k) == None
    ensures k' != k ==> Lookup(Items(Erase(t, hash, k)), k') == Lookup(Items(t), k')
  {
    if Lookup(Items(t), k).Some? {
      var p := IndexOf(t.order, Find(t, hash, k).value);
      assert Items(t)[p].key == k;
      LookupWithout(Items(t), p);
      if k' != k {
        LookupRemoveAt(Items(t), p, k');
      }
    }
  }

  /** operator[]: the entry of k, inserting (k, default) first when k is absent. */
  function Subscript<K(==), V>(t: Table<K, V>, hash: K -> nat, k: K, default: V): (r: (Table<K, V>, Handle))
    requires Valid(t, hash)
    ensures Valid(r.0, hash)
    ensures r.1 in r.0.order && r.1 in r.0.arena && r.0.arena[r.1].key == k
    ensures Lookup(Items(t), k).Some? ==> r.0 == t && Lookup(Items(t), k) == Some(r.0.arena[r.1].value)
    ensures Lookup(Items(t), k).None? ==> r.0 == Insert(t, hash, k, default) && r.0.arena[r.1].value == default
  {
    match Find(t, hash, k)
    case Some(h) => (t, h)
    case None =>
      var t' := Insert(t, hash, k, default);
      assert Lookup(Items(t'), k) == Some(default);
      (t', Find(t', hash, k).value)
  }

  /** Assigning through the reference operator[] returns: only that entry's value changes. */
  function SetValue<K, V>(t: Table<K, V>, hash: K -> nat, h: Handle, v: V): (r: Table<K, V>)
    requires Valid(t, hash) && h in t.arena
    ensures Valid(r, hash)
    ensures r.order == t.order && r.buckets == t.buckets && r.count == t.count && r.hashSize == t.hashSize
    ensures |Items(r)| == |Items(t)|
    ensures forall i :: 0 <= i < |t.order| ==>
      Items(r)[i] == if t.order[i] == h then Entry(Items(t)[i].key, v) else Items(t)[i]
  {
    var r := t.(arena := t.arena[h := Entry(t.arena[h].key, v)]);
    SetValueValid(t, hash, h, v);
    r
  }

  lemma {:induction false} SetValueValid<K, V>(t: Table<K, V>, hash: K -> nat, h: Handle, v: V)
    requires Valid(t, hash) && h in t.arena
    ensures Valid(t.(arena := t.arena[h := Entry(t.arena[h].key, v)]), hash)
  {
    var r := t.(arena := t.arena[h := Entry(t.arena[h].key, v)]);
    assert forall i :: 0 <= i < |t.order| ==> Items(r)[i].key == Items(t)[i].key;
    forall b | 0 <= b < |r.buckets| ensures r.buckets[b] == Chain(r.order, r.arena, hash, r.hashSize, b) {
      ChainFrame(t.order, t.arena, r.arena, hash, t.hashSize, b);
    }
  }

  /** at: the value of k, or OutOfRange when k is absent. */
  function At<K(==), V>(t: Table<K, V>, hash: K -> nat, k: K): (r: Result<V, Error>)
    requires Consistent(t, hash)
    ensures r.Ok? <==> Lookup(Items(t), k).Some?
    ensures r.Ok? ==> Lookup(Items(t), k) == Some(r.value)
    ensures r.Err? ==> r.error == OutOfRange
  {
    match Find(t, hash, k)
    case Some(h) => Ok(t.arena[h].value)
    case None => Err(OutOfRange)
  }

  /** After the clearing loop every bucket of a consistent table is empty. */
  lemma {:induction false} ClearChainsEmpties<K, V>(t: Table<K, V>, hash: K -> nat)
    requires Consistent(t, hash)
    ensures forall b :: 0 <= b < |t.buckets| ==>
      ClearChains(t.order, t.arena, hash, t.hashSize, t.buckets)[b] == []
  {
    var r := ClearChains(t.order, t.arena, hash, t.hashSize, t.buckets);
    forall b | 0 <= b < |t.buckets| ensures r[b] == [] {
      if t.buckets[b] != [] {
        var c := Chain(t.order, t.arena, hash, t.hashSize, b);
        ChainMember(t.order, t.arena, hash, t.hashSize, b, c[0]);
        var j := IndexOf(t.order, c[0]);
        assert r[Slot(hash, t.arena[t.order[j]].key, t.hashSize)] == [];
      }
    }
  }

  /** clear: empty every bucket that holds an entry, then the store; the bucket count stays. */
  function Clear<K, V>(t: Table<K, V>, hash: K -> nat): (r: Table<K, V>)
    requires Valid(t, hash)
    ensures Valid(r, hash)
    ensures Items(r) == [] && r.count == 0
    ensures r.hashSize == t.hashSize && |r.buckets| == |t.buckets|
    ensures forall b :: 0 <= b < |r.buckets| ==> r.buckets[b] == []
  {
    ClearChainsEmpties(t, hash);
    Table(map[], [], ClearChains(t.order, t.arena, hash, t.hashSize, t.buckets), 0, t.hashSize, t.next)
  }

  /** size: the number of entries iteration yields. */
  function Size<K, V>(t: Table<K, V>, hash: K -> nat): (n: nat)
    requires Valid(t, hash)
    ensures n == |Items(t)|
  {
    t.count
  }

  /** empty: whether iteration yields nothing. */
  function IsEmpty<K, V>(t: Table<K, V>, hash: K -> nat): (e: bool)
    requires Valid(t, hash)
    ensures e <==> Items(t) == []
  {
    t.count == 0
  }
}
