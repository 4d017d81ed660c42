/**
 * Copy assignment. The operator empties the target's buckets and store,
 * resets the bucket count, adopts the other table's hash functor, resizes
 * the bucket vector to the other table's bucket count, and inserts the
 * other table's entries one by one in its iteration order.
 *
 * `AssignAsWritten` follows that code; it leaves the element counter at its
 * old value and, since insert prepends, reverses the order. `Assign` is the
 * evidently intended operation: the counter starts from zero, the bucket
 * vector matches the bucket count, and the entries go in back to front so
 * the copy iterates like the original.
 */
module Assignment {
  import opened Pairs
  import opened Chains
  import opened HashMap

  /** Resizing the bucket vector: keep the first n buckets, or pad with empty ones. */
  function Resize(buckets: seq<seq<Handle>>, n: nat): (r: seq<seq<Handle>>)
    ensures |r| == n
    ensures forall b :: 0 <= b < n ==> r[b] == if b < |buckets| then buckets[b] else []
  {
    if n <= |buckets| then buckets[..n] else buckets + seq(n - |buckets|, _ => [])
  }

  /** The target after its store and buckets are emptied, with the given counter and vector length. */
  function Emptied<K, V>(t: Table<K, V>, hash: K -> nat, newHash: K -> nat, count: nat, width: nat): (r: Table<K, V>)
    requires Consistent(t, hash) && InitSize <= width
    ensures Consistent(r, newHash)
    ensures count == 0 && width == InitSize ==> Valid(r, newHash)
    ensures Items(r) == [] && r.count == count && r.hashSize == InitSize && |r.buckets| == width
  {
    ClearChainsEmpties(t, hash);
    var buckets := Resize(ClearChains(t.order, t.arena, hash, t.hashSize, t.buckets), width);
    Table(map[], [], buckets, count, InitSize, t.next)
  }

  /**
   * The assignment as the code does it: the counter keeps the target's old
   * value, the vector takes the other table's bucket count while the bucket
   * count used for hashing restarts at InitSize, and the other table's entries
   * are inserted front to back.
   */
  function AssignAsWritten<K(==), V>(t: Table<K, V>, hash: K -> nat, other: Table<K, V>, otherHash: K -> nat)
    : (r: Table<K, V>)
    requires Consistent(t, hash) && Consistent(other, otherHash) && InitSize <= other.hashSize
    ensures Consistent(r, otherHash)
    ensures Items(r) == Reverse(Items(other))
    ensures r.count == t.count + |Items(other)|
  {
    var start := Emptied(t, hash, otherHash, t.count, other.hashSize);
    InsertAllItems(start, otherHash, Items(other));
    NovelOfDistinct(Items(other), {});
    assert KeysOf(Items(start)) == {};
    InsertAll(start, otherHash, Items(other))
  }

  /**
   * As written, the counter after assignment overstates the entries by the
   * target's old counter, so assigning to a non-empty table breaks the invariant.
   */
  lemma {:induction false} AssignAsWrittenMiscounts<K, V>(t: Table<K, V>, hash: K -> nat, other: Table<K, V>, otherHash: K -> nat)
    requires Consistent(t, hash) && Consistent(other, otherHash) && InitSize <= other.hashSize
    ensures var r := AssignAsWritten(t, hash, other, otherHash);
      && r.count == |Items(r)| + t.count
      && (0 < t.count ==> r.count > |Items(r)| && !Valid(r, otherHash))
  {
  }

  /** Two assignments in a row, as written: the counter accumulates both copies on top of the old one. */
  lemma {:induction false} AssignAsWrittenTwice<K, V>(a: Table<K, V>, b: Table<K, V>, c: Table<K, V>, hash: K -> nat)
    requires Consistent(a, hash) && Consistent(b, hash) && Consistent(c, hash)
    requires InitSize <= b.hashSize && InitSize <= c.hashSize
    ensures var r := AssignAsWritten(AssignAsWritten(a, hash, b, hash), hash, c, hash);
      && Consistent(r, hash)
      && Items(r) == Reverse(Items(c))
      && r.count == a.count + |Items(b)| + |Items(c)|
  {
  }

  /** As written, a copy of a table with two or more entries iterates in a different order. */
  lemma {:induction false} AssignAsWrittenReverses<K, V>(t: Table<K, V>, hash: K -> nat, other: Table<K, V>, otherHash: K -> nat)
    requires Consistent(t, hash) && Consistent(other, otherHash) && InitSize <= other.hashSize
    requires |other.order| >= 2
    ensures Items(AssignAsWritten(t, hash, other, otherHash)) != Items(other)
  {
    ReverseDiffers(Items(other));
  }

  /**
   * The assignment as evidently intended: an empty target with InitSize
   * buckets and a zero counter receives the other table's entries back to
   * front, so it ends up with the same entries in the same order.
   */
  function Assign<K(==), V>(t: Table<K, V>, hash: K -> nat, other: Table<K, V>, otherHash: K -> nat)
    : (r: Table<K, V>)
    requires Consistent(t, hash) && Valid(other, otherHash)
    ensures Valid(r, otherHash)
    ensures Items(r) == Items(other)
    ensures r.count == other.count
  {
    var start := Emptied(t, hash, otherHash, 0, InitSize);
    var ps := Reverse(Items(other));
    InsertAllItems(start, otherHash, ps);
    ReverseDistinct(Items(other));
    NovelOfDistinct(ps, {});
    ReverseReverse(Items(other));
    assert KeysOf(Items(start)) == {};
    InsertAll(start, otherHash, ps)
  }
}
