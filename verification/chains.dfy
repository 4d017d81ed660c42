/**
 * The bucket index: chains of handles into the element store, how a chain is
 * determined by the store, and the loops the table runs over chains
 * (scanning one, rebuilding all of them, emptying all of them).
 */
module Chains {
  import opened Pairs

  /** A stable reference to one entry of the store, standing for a list iterator. */
  type Handle = nat

  /** Every handle of hs names an entry of the arena. */
  ghost predicate Resolves<K, V>(hs: seq<Handle>, arena: map<Handle, Entry<K, V>>) {
    forall i :: 0 <= i < |hs| ==> hs[i] in arena
  }

  /** The entries the handles name, in the same order. */
  function Entries<K, V>(hs: seq<Handle>, arena: map<Handle, Entry<K, V>>): (items: seq<Entry<K, V>>)
    requires Resolves(hs, arena)
    ensures |items| == |hs|
    ensures forall i :: 0 <= i < |hs| ==> items[i] == arena[hs[i]]
  {
    seq(|hs|, i requires 0 <= i < |hs| => arena[hs[i]])
  }

  /** A fresh handle in front of the store puts its entry in front of the entries. */
  lemma {:induction false} EntriesCons<K, V>(hs: seq<Handle>, arena: map<Handle, Entry<K, V>>, h: Handle, e: Entry<K, V>)
    requires Resolves(hs, arena) && h !in hs
    ensures Resolves([h] + hs, arena[h := e])
    ensures Entries([h] + hs, arena[h := e]) == [e] + Entries(hs, arena)
  {
    var hs' := [h] + hs;
    assert forall i :: 0 < i < |hs'| ==> hs'[i] == hs[i - 1];
    assert Resolves(hs', arena[h := e]);
  }

  /** Dropping a handle that occurs once from the store drops its entry from the entries. */
  lemma {:induction false} EntriesRemoveAt<K, V>(hs: seq<Handle>, arena: map<Handle, Entry<K, V>>, p: nat)
    requires Resolves(hs, arena) && p < |hs|
    requires forall j :: 0 <= j < |hs| && j != p ==> hs[j] != hs[p]
    ensures Resolves(Without(hs, p), arena - {hs[p]})
    ensures Entries(Without(hs, p), arena - {hs[p]}) == Without(Entries(hs, arena), p)
  {
    var r := Without(hs, p);
    assert Resolves(r, arena - {hs[p]});
  }

  /** The bucket a key belongs to among n buckets. */
  function Slot<K>(hash: K -> nat, k: K, n: nat): (b: nat)
    requires 0 < n
    ensures b < n
  {
    hash(k) % n
  }

  /**
   * The chain bucket b must hold among n buckets: the handles of the store
   * whose key hashes to b, in store order.
   */
  ghost function Chain<K, V>(order: seq<Handle>, arena: map<Handle, Entry<K, V>>,
                             hash: K -> nat, n: nat, b: nat): seq<Handle>
    requires 0 < n && Resolves(order, arena)
    decreases |order|
  {
    if |order| == 0 then []
    else
      (if Slot(hash, arena[order[0]].key, n) == b then [order[0]] else [])
      + Chain(order[1..], arena, hash, n, b)
  }

  lemma {:induction false} ChainAppend<K, V>(a: seq<Handle>, c: seq<Handle>, arena: map<Handle, Entry<K, V>>,
                                             hash: K -> nat, n: nat, b: nat)
    requires 0 < n && Resolves(a, arena) && Resolves(c, arena)
    ensures Resolves(a + c, arena)
    ensures Chain(a + c, arena, hash, n, b) == Chain(a, arena, hash, n, b) + Chain(c, arena, hash, n, b)
  {
    assert Resolves(a + c, arena) by {
      forall i | 0 <= i < |a + c| ensures (a + c)[i] in arena {
        if i >= |a| { assert (a + c)[i] == c[i - |a|]; }
      }
    }
    if |a| > 0 {
      assert (a + c)[1..] == a[1..] + c;
      ChainAppend(a[1..], c, arena, hash, n, b);
    } else {
      assert a + c == c;
    }
  }

  /** A handle is on chain b exactly when it is in the store and its key hashes to b. */
  lemma {:induction false} ChainMember<K, V>(order: seq<Handle>, arena: map<Handle, Entry<K, V>>,
                                             hash: K -> nat, n: nat, b: nat, h: Handle)
    requires 0 < n && Resolves(order, arena)
    ensures h in Chain(order, arena, hash, n, b) <==> h in order && Slot(hash, arena[h].key, n) == b
  {
    if |order| > 0 {
      ChainMember(order[1..], arena, hash, n, b, h);
      assert order == [order[0]] + order[1..];
    }
  }

  /** Every handle on a chain names an entry of the arena. */
  lemma {:induction false} ChainResolves<K, V>(order: seq<Handle>, arena: map<Handle, Entry<K, V>>, hash: K -> nat, n: nat, b: nat)
    requires 0 < n && Resolves(order, arena)
    ensures Resolves(Chain(order, arena, hash, n, b), arena)
  {
    var c := Chain(order, arena, hash, n, b);
    forall i | 0 <= i < |c| ensures c[i] in arena {
      ChainMember(order, arena, hash, n, b, c[i]);
    }
  }

  /** A chain depends only on the keys of the handles in the store. */
  lemma {:induction false} ChainFrame<K, V>(order: seq<Handle>, arena: map<Handle, Entry<K, V>>,
                                            arena': map<Handle, Entry<K, V>>, hash: K -> nat, n: nat, b: nat)
    requires 0 < n && Resolves(order, arena) && Resolves(order, arena')
    requires forall i :: 0 <= i < |order| ==> arena'[order[i]].key == arena[order[i]].key
    ensures Chain(order, arena', hash, n, b) == Chain(order, arena, hash, n, b)
  {
    if |order| > 0 {
      ChainFrame(order[1..], arena, arena', hash, n, b);
    }
  }

  /** The chains of a store with one handle taken out are the chains of the parts before and after it. */
  lemma {:induction false} ChainRemove<K, V>(front: seq<Handle>, h: Handle, back: seq<Handle>, arena: map<Handle, Entry<K, V>>,
                                             hash: K -> nat, n: nat, b: nat)
    requires 0 < n && Resolves(front, arena) && Resolves(back, arena)
    requires h !in front && h !in back
    ensures Resolves(front + back, arena - {h})
    ensures Chain(front + back, arena - {h}, hash, n, b) == Chain(front, arena, hash, n, b) + Chain(back, arena, hash, n, b)
  {
    var arena' := arena - {h};
    assert Resolves(front, arena') && Resolves(back, arena');
    ChainAppend(front, back, arena', hash, n, b);
    ChainFrame(front, arena, arena', hash, n, b);
    ChainFrame(back, arena, arena', hash, n, b);
  }

  /** A handle between two parts of the store is on its own chain only, between their chains. */
  lemma {:induction false} ChainSplit<K, V>(front: seq<Handle>, h: Handle, back: seq<Handle>, arena: map<Handle, Entry<K, V>>,
                                            hash: K -> nat, n: nat, b: nat)
    requires 0 < n && Resolves(front, arena) && Resolves(back, arena) && h in arena
    ensures Resolves(front + [h] + back, arena)
    ensures Chain(front + [h] + back, arena, hash, n, b)
      == Chain(front, arena, hash, n, b)
         + (if Slot(hash, arena[h].key, n) == b then [h] else [])
         + Chain(back, arena, hash, n, b)
  {
    ChainAppend([h], back, arena, hash, n, b);
    assert ([h] + back)[1..] == back;
    ChainAppend(front, [h] + back, arena, hash, n, b);
    assert front + [h] + back == front + ([h] + back);
  }

  /** In a sequence where h occurs once, dropping the position that holds h leaves the rest. */
  lemma {:induction false} DropOnly(s: seq<Handle>, a: seq<Handle>, h: Handle, c: seq<Handle>, i: nat)
    requires s == a + [h] + c && h !in a && h !in c
    requires i < |s| && s[i] == h
    ensures i == |a| && s[..i] + s[i + 1..] == a + c
  {
    forall j | 0 <= j < |s| && j != |a| ensures s[j] != h {
      if j < |a| { assert s[j] == a[j]; } else { assert s[j] == c[j - |a| - 1]; }
    }
    assert s[..|a|] == a && s[|a| + 1..] == c;
  }

  /**
   * Rebuilding the bucket index: start from n empty buckets, walk the store
   * from front to back and append each handle to its key's bucket.
   */
  function Distribute<K, V>(order: seq<Handle>, arena: map<Handle, Entry<K, V>>, hash: K -> nat, n: nat)
    : (buckets: seq<seq<Handle>>)
    requires 0 < n && Resolves(order, arena)
    ensures |buckets| == n
    ensures forall b :: 0 <= b < n ==> buckets[b] == Chain(order, arena, hash, n, b)
    decreases |order|
  {
    if |order| == 0 then seq(n, _ => [])
    else
      var front := order[..|order| - 1];
      var h := order[|order| - 1];
      var prev := Distribute(front, arena, hash, n);
      var i := Slot(hash, arena[h].key, n);
      DistributeStep(front, h, arena, hash, n);
      assert order == front + [h];
      prev[i := prev[i] + [h]]
  }

  /** Appending one handle to the store appends it to its own chain only. */
  lemma {:induction false} DistributeStep<K, V>(front: seq<Handle>, h: Handle, arena: map<Handle, Entry<K, V>>, hash: K -> nat, n: nat)
    requires 0 < n && Resolves(front, arena) && h in arena
    ensures Resolves(front + [h], arena)
    ensures forall b :: 0 <= b < n ==>
      Chain(front + [h], arena, hash, n, b)
        == Chain(front, arena, hash, n, b) + (if Slot(hash, arena[h].key, n) == b then [h] else [])
  {
    forall b | 0 <= b < n
      ensures Chain(front + [h], arena, hash, n, b)
        == Chain(front, arena, hash, n, b) + (if Slot(hash, arena[h].key, n) == b then [h] else [])
    {
      ChainAppend(front, [h], arena, hash, n, b);
      assert [h][1..] == [];
    }
  }

  /**
   * The clearing loop: for each handle of the store, in order, empty the
   * bucket its key hashes to. Other buckets are left as they are.
   */
  function ClearChains<K, V>(order: seq<Handle>, arena: map<Handle, Entry<K, V>>, hash: K -> nat, n: nat,
                             buckets: seq<seq<Handle>>): (r: seq<seq<Handle>>)
    requires 0 < n <= |buckets| && Resolves(order, arena)
    ensures |r| == |buckets|
    ensures forall b :: 0 <= b < |r| ==> r[b] == [] || r[b] == buckets[b]
    ensures forall i :: 0 <= i < |order| ==> r[Slot(hash, arena[order[i]].key, n)] == []
    decreases |order|
  {
    if |order| == 0 then buckets
    else
      var rest := ClearChains(order[1..], arena, hash, n, buckets[Slot(hash, arena[order[0]].key, n) := []]);
      assert forall i :: 1 <= i < |order| ==> order[i] == order[1..][i - 1];
      rest
  }

  /**
   * The position of the first handle on the chain whose key is k, or |chain|
   * when there is none (the scan ran off the end).
   */
  function ScanChain<K(==), V>(chain: seq<Handle>, arena: map<Handle, Entry<K, V>>, k: K): (r: nat)
    requires Resolves(chain, arena)
    ensures r <= |chain|
    ensures r < |chain| ==> arena[chain[r]].key == k
    ensures forall i :: 0 <= i < r ==> arena[chain[i]].key != k
    decreases |chain|
  {
    if |chain| == 0 then 0
    else if arena[chain[0]].key == k then 0
    else
      var r := 1 + ScanChain(chain[1..], arena, k);
      assert forall i :: 1 <= i < |chain| ==> chain[i] == chain[1..][i - 1];
      r
  }

  /** Where the store node a handle refers to sits: its first position. */
  function IndexOf(s: seq<Handle>, h: Handle): (p: nat)
    requires h in s
    ensures p < |s| && s[p] == h && h !in s[..p]
    ensures forall j :: 0 <= j < p ==> s[j] != h
  {
    if s[0] == h then 0
    else
      var p := 1 + IndexOf(s[1..], h);
      assert s[..p] == [s[0]] + s[1..][..p - 1];
      p
  }
}
