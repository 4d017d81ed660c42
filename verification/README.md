# HashMap: a verified functional model

This project models the `HashMap<KeyType, ValueType, Hash>` class template of
`hash.h`, a separate-chaining hash map, and proves properties of the model in
Dafny.

The class keeps two structures side by side:

- the element store (`elem_value`), a list of key/value pairs with the most
  recently inserted entry in front;
- the bucket index (`hash_table`), a vector of lists of iterators into that
  store.

It also keeps two counters, `elem_size` and `hash_size`.

In the model the table is an immutable record `HashMap.Table`:

- the store is an arena `map<Handle, Entry>` together with `order`, the
  sequence of live handles in store order;
- each bucket is a sequence of handles;
- `count` and `hashSize` are the two counters;
- `next` is the handle the next inserted entry receives. A handle stands for
  a list iterator, so an entry keeps its handle until it is erased.

The hash functor is an abstract function `hash: K -> nat`, passed to every
operation. A key's bucket is `hash(k) % hashSize` (`Chains.Slot`).

Two predicates give the representation invariant:

- `HashMap.Consistent` requires that every handle of the store names an
  entry, that keys are unique, and that bucket `b` lists exactly the store's
  handles whose key hashes to `b`, in store order (`Chains.Chain`).
- `HashMap.Valid` adds that there is one bucket per hash value, that
  `count` equals the number of entries, that there are at least `InitSize`
  (2) buckets, and that the load bound `RehashFactor * count <= hashSize`
  holds, with `RehashFactor` equal to 2.

The reference semantics is the list of entries that iteration yields,
`HashMap.Items`. A lookup on that list, `Pairs.Lookup`, is a first-match
linear search. Every operation is related to this reference.

Files:

- `wrappers.dfy`: `Option` and `Result`.
- `pairs.dfy`: entries and the reference lookup, plus facts about key
  lists.
- `chains.dfy`: chains of handles and the loops over them, that is scanning
  one bucket, rebuilding all buckets, and emptying buckets.
- `hashmap.dfy`: the table and its operations.
- `properties.dfy`: properties that relate several operations.
- `assignment.dfy`: copy-assignment, both as written and corrected.

Two behaviours of the code are modelled as written:

- Insert puts a new entry at the head of the store (hash.h:154).
- The copy made by assignment iterates in reverse order. See Findings.

## Model

| member | source | states |
|---|---|---|
| HashMap.Items | hash.h:83-97 | Iteration from begin to end visits the store in order: it yields one entry per live handle, and position i holds the entry that the store's i-th handle names. |
| HashMap.New | hash.h:20-23 | The default constructor gives a table that satisfies the full invariant, has no entries, and has 2 buckets. |
| HashMap.FromPairs | hash.h:25-45 | The range and list constructors are a fold of insert from the empty table. The result satisfies the invariant. It iterates over the first occurrence of each key, in reverse input order, which does not depend on the hash. |
| HashMap.InsertAll | hash.h:29-30 | A fold of insert keeps the store/bucket agreement, and it keeps the full invariant when it holds at the start. |
| HashMap.InsertAllItems | hash.h:29-30 | After the fold, iteration yields the entries of the input whose key was new, newest first, followed by the old entries. The counter grows by exactly the number of those entries. |
| HashMap.InsertAllLookup | hash.h:29-30 | After the fold, a key that was already present keeps its value. Any other key maps to the value of its first pair in the input. |
| HashMap.FromPairsLookup | hash.h:33-38 | After construction, each key maps to the value of its first pair in the input (first write wins), and a key not in the input is absent. |
| Chains.ScanChain | hash.h:65-70 | The bucket scan returns the position of the first handle whose key equals k. No earlier handle has that key. The scan runs off the end exactly when no handle has it. |
| HashMap.BucketDecides | hash.h:63-70 | With consistent buckets, the scan of k's bucket alone decides whether k is in the store. When the scan finds k, the value found is the one a linear lookup over the whole store returns. |
| HashMap.Find | hash.h:63-81 | find returns a handle exactly when the key is present. That handle is in the store and names an entry with that key and with the value that lookup returns. The end sentinel is None, and it is returned exactly when the key is absent. |
| Properties.FindUnique | hash.h:63-81 | Because keys are unique, the only handle find can return for k is the handle of the entry whose key is k. |
| Chains.Distribute | hash.h:178-184 | The rebuild loop gives exactly n buckets, and bucket b equals the store-order chain of handles that hash to b. |
| HashMap.Rehash | hash.h:177-185 | rehash exactly doubles the bucket count and leaves the store, the handles, the iteration order and the counter untouched. It rebuilds consistent buckets, and it restores the full invariant when the load bound holds for the doubled count. |
| HashMap.Grow | hash.h:156-158 | The post-insert check doubles once exactly when `hashSize < 2 * count`. Otherwise it keeps the table. It never changes the store, and one doubling restores the invariant when `count <= hashSize`. |
| HashMap.LinkGrow | hash.h:152-158 | Linking a fresh handle at the head of the store and of its key's bucket, and then applying the doubling rule, keeps the store/bucket agreement, and it keeps the full invariant when that held before. Iteration gains the new entry in front, and the counter and the next handle each rise by 1. The bucket count doubles exactly when it is below twice the new counter. The new handle heads its key's bucket under the final bucket count. |
| HashMap.Insert | hash.h:149-159 | An insert of a present key returns the table unchanged. An insert of an absent key does all of the following: puts a fresh handle in front of the store, and its entry in front of the iteration; leaves every other handle and entry alone; raises the counter by 1; applies the doubling rule; and puts the handle at the head of its key's bucket. The full invariant is preserved. |
| HashMap.InsertKeys | hash.h:150-155 | Insert in terms of the key set: a new key adds one entry in front, and a known key changes nothing. |
| Properties.InsertLookup | hash.h:149-155 | After insert, only an absent key k changes, and it maps to the inserted value. Every other lookup is unchanged. |
| Properties.InsertTwice | hash.h:150-151 | First write wins: a second insert of the same key, with any value, changes nothing and keeps the first value. |
| Properties.FindSurvivesInsert | hash.h:149-159 | The handle find returns for k, and its entry, survive any insert, including one that rehashes. |
| Properties.FindSurvivesRehash | hash.h:177-185 | find returns the same handle before and after a rehash, and iteration is unchanged. |
| Properties.DoublingSchedule | hash.h:8-9 | Starting from an empty table, three inserts of distinct keys give bucket counts 2, 2, 4 and 8. The result has count 3 and satisfies the invariant. |
| HashMap.Erase | hash.h:164-174 | An erase of an absent key changes nothing. An erase of a present key does all of the following: removes exactly its handle from the store and its entry from the arena; keeps the remaining entries in order; lowers the counter by 1; and preserves the invariant. The bucket count never changes. |
| HashMap.ScanLocates | hash.h:165-167 | The erase scan finds an entry exactly when the key is present, and it finds the handle find returns. |
| HashMap.UnlinkValid | hash.h:168-170 | Unlinking the found entry from the store and from its bucket, and decrementing the counter, keeps the full invariant. Iteration loses exactly that entry. |
| HashMap.EraseLookup | hash.h:164-174 | After erase, the erased key is absent and every other key keeps its lookup. |
| Properties.FindSurvivesErase | hash.h:164-174 | The handle find returns for k, and its entry, survive the erase of any other key. |
| Properties.EraseFront | hash.h:164-174 | Erasing the key of the front entry drops exactly the front of the store. |
| Properties.EraseUndoesInsert | hash.h:149-174 | Erasing a key that was just inserted as new gives back the same store, the same entries and the same counter. |
| Properties.NextIsFresh | hash.h:154 | The handle given to the next inserted entry names no live entry. |
| HashMap.Subscript | hash.h:188-195 | operator[] on a present key leaves the table unchanged and returns the handle of the entry holding that key's value. On an absent key it is exactly insert(k, default), and it returns the new entry, whose value is the default. |
| HashMap.SetValue | hash.h:194 | Writing through the reference that operator[] returns changes only that entry's value. The store order, the buckets, the counters and the invariant are unchanged. |
| HashMap.At | hash.h:198-204 | at succeeds exactly when the key is present, and then returns the value lookup finds. Otherwise it fails with OutOfRange. |
| Chains.ClearChains | hash.h:208-211 | The clearing loop empties the bucket of every entry in the store. Every bucket ends either empty or as it was, and the vector keeps its length. |
| HashMap.ClearChainsEmpties | hash.h:208-211 | For a consistent table the clearing loop leaves every bucket empty. |
| HashMap.Clear | hash.h:207-214 | clear empties the store and every bucket and sets the counter to 0. It keeps the bucket count and the invariant. |
| HashMap.Size | hash.h:134-136 | size equals the number of entries iteration yields. |
| HashMap.IsEmpty | hash.h:139-141 | empty holds exactly when iteration yields nothing. |
| Properties.StringScenario | hash.h:149-159 | Inserting ("a", 1), ("b", 2), ("a", 99) gives iteration [("b", 2), ("a", 1)], size 2, at("a") = 1 and at("b") = 2, and at("missing") fails with OutOfRange. |
| Assignment.Resize | hash.h:126 | Resizing the bucket vector gives exactly n buckets. Buckets below the old length keep their contents, and the added ones are empty. |
| Assignment.Emptied | hash.h:118-126 | The first half of assignment: clear the old buckets with the old hash, empty the store, and reset the bucket count. It needs only the store/bucket agreement of the target, so it also applies to a target that was itself assigned. The result is consistent and empty, and it has the counter and vector length it is given. |
| Assignment.AssignAsWritten | hash.h:113-131 | Assignment as the code does it, for any target and source whose store and buckets agree, including tables produced by an earlier assignment. The result has consistent buckets. It iterates over the other table's entries in reverse order, and its counter is the old counter plus the number of copied entries. |
| Assignment.AssignAsWrittenMiscounts | hash.h:118-129 | After the as-written assignment the counter exceeds the number of entries by the target's old counter. When that counter was not zero, the invariant is broken. |
| Assignment.AssignAsWrittenTwice | hash.h:113-131 | Two as-written assignments in a row, `a = b; a = c;`, leave a consistent table that iterates over c's entries in reverse, with counter a's old counter plus the entries of b and of c. |
| Assignment.AssignAsWrittenReverses | hash.h:127-128 | When the source has two or more entries, the as-written copy iterates in a different order from the source. |
| Assignment.Assign | hash.h:113-131 | The corrected assignment, applied to any target whose store and buckets agree, satisfies the invariant, iterates over exactly the other table's entries in the same order, and has the other table's counter. |

## Left out

- The hash functor is abstract. `std::hash` and `hash_function`
  (hash.h:144-146) are not modelled, because the functor is the parameter
  `hash` that every operation receives. The functor `Assign` adopts is the
  other table's, which is the parameter `otherHash`.
- The self-assignment guard (hash.h:115-117) is not modelled. A value model
  has no object identity, so "the same object" cannot be expressed.
- `size_t` wrap-around is not modelled. Counters and hash values are
  unbounded naturals. Erase decrements the counter only when an entry is
  found, and then the counter of a valid table is at least 1.
- Iterators, `begin`/`end` and the duplicate const/non-const overloads of
  `find` are modelled as one thing: a handle into the arena, with iteration
  given by `HashMap.Items`.
- Memory management of `std::list`/`std::vector`, allocation failure and
  exceptions other than `at`'s `out_of_range` are left out.
- Copy independence (mutating one table after `A = B` does not affect the
  other) is not stated. In a value model it holds for every table.
- HashMap.Subscript: the default value `ValueType()` is a parameter
  `default`, because a value type has no generic default in the model.
- HashMap.Erase, HashMap.Subscript, HashMap.SetValue, HashMap.Clear,
  HashMap.Size and HashMap.IsEmpty require the full invariant (`Valid`).
  Only assignment as written produces tables outside it, and only
  `Consistent` is proved for those.
- Assignment.AssignAsWritten: the bucket vector is resized to the other
  table's bucket count while hashing restarts at 2 buckets (hash.h:124-126).
  The model keeps that mismatch, and only the store/bucket agreement is
  proved for the result. The load bound is not claimed.

## Findings

| source | as written | input that shows it | evidently intended | confidence | as-written member | corrected member |
|---|---|---|---|---|---|---|
| hash.h:118-129 | `operator=` empties the store but never resets `elem_size`, so `size()` afterwards is the old size plus the number of copied entries | assign a table with one entry to a non-empty table: `size()` counts the target's old entries too | `elem_size` starts from 0, so `size()` equals the other table's size | not executed | Assignment.AssignAsWrittenMiscounts | Assignment.Assign |
| hash.h:127-128 | `operator=` walks the other table front to back and inserts each entry, and insert prepends (hash.h:154), so the copy iterates in reverse | copy a table that iterates [("b", 2), ("a", 1)]: the copy iterates [("a", 1), ("b", 2)] | the copy iterates in the same order as the original | not executed | Assignment.AssignAsWrittenReverses | Assignment.Assign |
