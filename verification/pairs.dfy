/**
 * Key/value entries and the reference semantics of a sequence of entries:
 * first-match lookup, the key set, the entries a first-write-wins fold keeps,
 * and reversal (the order in which a prepending fold leaves its input).
 */
module Pairs {
  import opened Wrappers

  /** One element of the store: the key never changes once inserted, the value may. */
  datatype Entry<K, V> = Entry(key: K, value: V)

  /** No two entries share a key. */
  ghost predicate DistinctKeys<K, V>(items: seq<Entry<K, V>>) {
    forall i, j :: 0 <= i < j < |items| ==> items[i].key != items[j].key
  }

  /** The value of the first entry whose key is k, in sequence order. */
  function Lookup<K(==), V>(items: seq<Entry<K, V>>, k: K): Option<V>
  {
    if |items| == 0 then None
    else if items[0].key == k then Some(items[0].value)
    else Lookup(items[1..], k)
  }

  /** The keys carried by a sequence of entries. */
  ghost function KeysOf<K, V>(items: seq<Entry<K, V>>): set<K>
  {
    if |items| == 0 then {} else {items[0].key} + KeysOf(items[1..])
  }

  /**
   * The entries of ps whose key is neither in seen nor carried by an earlier
   * entry of ps: what survives a first-write-wins fold over ps.
   */
  ghost function Novel<K, V>(ps: seq<Entry<K, V>>, seen: set<K>): seq<Entry<K, V>>
  {
    if |ps| == 0 then []
    else if ps[0].key in seen then Novel(ps[1..], seen)
    else [ps[0]] + Novel(ps[1..], seen + {ps[0].key})
  }

  function Reverse<T>(s: seq<T>): (r: seq<T>)
    ensures |r| == |s|
    ensures forall i :: 0 <= i < |s| ==> r[i] == s[|s| - 1 - i]
  {
    if |s| == 0 then [] else Reverse(s[1..]) + [s[0]]
  }

  /** Looking up in a sequence with one more entry in front. */
  lemma {:induction false} LookupCons<K, V>(e: Entry<K, V>, items: seq<Entry<K, V>>, k: K)
    ensures Lookup([e] + items, k) == if e.key == k then Some(e.value) else Lookup(items, k)
  {
    assert ([e] + items)[1..] == items;
  }

  /** The keys of a sequence with one more entry in front. */
  lemma {:induction false} KeysOfCons<K, V>(e: Entry<K, V>, items: seq<Entry<K, V>>)
    ensures KeysOf([e] + items) == {e.key} + KeysOf(items)
  {
    assert ([e] + items)[1..] == items;
  }

  lemma {:induction false} ReverseCons<T>(x: T, s: seq<T>)
    ensures Reverse([x] + s) == Reverse(s) + [x]
  {
    assert ([x] + s)[1..] == s;
  }

  /** One step of a prepending first-write-wins fold, seen from its final result. */
  lemma {:induction false} NovelStep<K, V>(ps: seq<Entry<K, V>>, seen: set<K>, items: seq<Entry<K, V>>)
    requires |ps| > 0
    ensures ps[0].key in seen ==>
      Reverse(Novel(ps, seen)) + items == Reverse(Novel(ps[1..], seen)) + items
    ensures ps[0].key !in seen ==>
      && Reverse(Novel(ps, seen)) + items == Reverse(Novel(ps[1..], seen + {ps[0].key})) + ([ps[0]] + items)
      && |Novel(ps, seen)| == 1 + |Novel(ps[1..], seen + {ps[0].key})|
  {
    if ps[0].key !in seen {
      var rest := Novel(ps[1..], seen + {ps[0].key});
      assert Novel(ps, seen) == [ps[0]] + rest;
      ReverseCons(ps[0], rest);
      assert Reverse(Novel(ps, seen)) + items == Reverse(rest) + ([ps[0]] + items);
    }
  }

  /** A key is absent exactly when no entry carries it. */
  lemma {:induction false} LookupNone<K, V>(items: seq<Entry<K, V>>, k: K)
    ensures Lookup(items, k).None? <==> forall i :: 0 <= i < |items| ==> items[i].key != k
  {
    if |items| > 0 && items[0].key != k {
      LookupNone(items[1..], k);
      assert forall i :: 1 <= i < |items| ==> items[i] == items[1..][i - 1];
    }
  }

  /** With distinct keys, looking up an entry's key yields that entry's value. */
  lemma {:induction false} LookupDistinct<K, V>(items: seq<Entry<K, V>>, i: nat)
    requires DistinctKeys(items)
    requires i < |items|
    ensures Lookup(items, items[i].key) == Some(items[i].value)
  {
    if i > 0 {
      assert items[0].key != items[i].key;
      assert DistinctKeys(items[1..]) by {
        forall a, b | 0 <= a < b < |items[1..]|
          ensures items[1..][a].key != items[1..][b].key
        {
          assert items[1..][a] == items[a + 1] && items[1..][b] == items[b + 1];
        }
      }
      LookupDistinct(items[1..], i - 1);
    }
  }

  /** Removing an entry that does not carry k leaves the lookup of k unchanged. */
  lemma {:induction false} LookupRemoveAt<K, V>(items: seq<Entry<K, V>>, p: nat, k: K)
    requires p < |items| && items[p].key != k
    ensures Lookup(Without(items, p), k) == Lookup(items, k)
  {
    if p == 0 {
      assert Without(items, 0) == items[1..];
    } else {
      var rest := items[1..];
      assert Without(items, p) == [items[0]] + Without(rest, p - 1);
      LookupRemoveAt(rest, p - 1, k);
    }
  }

  /** The key set is exactly the set of keys a lookup finds. */
  lemma {:induction false} KeysOfLookup<K, V>(items: seq<Entry<K, V>>, k: K)
    ensures k in KeysOf(items) <==> Lookup(items, k).Some?
  {
    if |items| > 0 {
      KeysOfLookup(items[1..], k);
    }
  }

  /** A sequence with distinct keys, none of them already seen, loses nothing to the fold. */
  lemma {:induction false} NovelOfDistinct<K, V>(ps: seq<Entry<K, V>>, seen: set<K>)
    requires DistinctKeys(ps)
    requires forall i :: 0 <= i < |ps| ==> ps[i].key !in seen
    ensures Novel(ps, seen) == ps
  {
    if |ps| > 0 {
      var rest := ps[1..];
      assert DistinctKeys(rest) by {
        forall a, b | 0 <= a < b < |rest|
          ensures rest[a].key != rest[b].key
        {
          assert rest[a] == ps[a + 1] && rest[b] == ps[b + 1];
        }
      }
      forall i | 0 <= i < |rest|
        ensures rest[i].key !in seen + {ps[0].key}
      {
        assert rest[i] == ps[i + 1];
      }
      NovelOfDistinct(rest, seen + {ps[0].key});
      assert ps == [ps[0]] + rest;
    }
  }

  lemma {:induction false} ReverseReverse<T>(s: seq<T>)
    ensures Reverse(Reverse(s)) == s
  {
  }

  /** With distinct keys, two or more entries never read the same backwards. */
  lemma {:induction false} ReverseDiffers<K, V>(items: seq<Entry<K, V>>)
    requires DistinctKeys(items) && |items| >= 2
    ensures Reverse(items) != items
  {
    assert Reverse(items)[0] == items[|items| - 1];
    assert items[0].key != items[|items| - 1].key;
  }

  lemma {:induction false} ReverseDistinct<K, V>(s: seq<Entry<K, V>>)
    requires DistinctKeys(s)
    ensures DistinctKeys(Reverse(s))
  {
  }

  /** s with position p dropped. */
  function Without<T>(s: seq<T>, p: nat): (r: seq<T>)
    requires p < |s|
    ensures |r| == |s| - 1
    ensures forall j :: 0 <= j < |r| ==> r[j] == s[if j < p then j else j + 1]
  {
    s[..p] + s[p + 1..]
  }

  /** An element that occurs once splits its sequence into the parts before and after it. */
  lemma {:induction false} SplitOnce<T>(s: seq<T>, p: nat)
    requires p < |s| && forall j :: 0 <= j < |s| && j != p ==> s[j] != s[p]
    ensures s == s[..p] + [s[p]] + s[p + 1..]
    ensures s[p] !in s[..p] && s[p] !in s[p + 1..]
    ensures Without(s, p) == s[..p] + s[p + 1..]
  {
    var front, back := s[..p], s[p + 1..];
    assert forall j :: 0 <= j < |front| ==> front[j] == s[j];
    assert forall j :: 0 <= j < |back| ==> back[j] == s[p + 1 + j];
  }

  /** Dropping a position keeps every element that differs from the one there. */
  lemma {:induction false} InWithout<T>(s: seq<T>, p: nat, x: T)
    requires p < |s| && x in s && x != s[p]
    ensures x in Without(s, p)
  {
    var j :| 0 <= j < |s| && s[j] == x;
    assert Without(s, p)[if j < p then j else j - 1] == x;
  }

  /** With distinct keys, dropping the entry of k leaves no entry for k. */
  lemma {:induction false} LookupWithout<K, V>(items: seq<Entry<K, V>>, p: nat)
    requires DistinctKeys(items) && p < |items|
    ensures Lookup(Without(items, p), items[p].key) == None
  {
    var r := Without(items, p);
    forall j | 0 <= j < |r| ensures r[j].key != items[p].key {
      assert r[j] == items[if j < p then j else j + 1];
    }
    LookupNone(r, items[p].key);
  }

  /** An entry for an absent key in front keeps the keys distinct. */
  lemma {:induction false} DistinctCons<K, V>(e: Entry<K, V>, items: seq<Entry<K, V>>)
    requires DistinctKeys(items) && Lookup(items, e.key).None?
    ensures DistinctKeys([e] + items)
  {
    LookupNone(items, e.key);
    var r := [e] + items;
    forall i, j | 0 <= i < j < |r| ensures r[i].key != r[j].key {
      assert r[j] == items[j - 1];
      if i > 0 { assert r[i] == items[i - 1]; }
    }
  }

  /** Dropping one entry keeps the keys distinct. */
  lemma {:induction false} DistinctRemoveAt<K, V>(items: seq<Entry<K, V>>, p: nat)
    requires DistinctKeys(items) && p < |items|
    ensures DistinctKeys(Without(items, p))
  {
    var r := Without(items, p);
    forall a, b | 0 <= a < b < |r| ensures r[a].key != r[b].key {
      assert r[a] == items[if a < p then a else a + 1];
      assert r[b] == items[if b < p then b else b + 1];
    }
  }
}
