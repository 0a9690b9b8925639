# A verified model of hashtable.c

`hashtable.c` implements a hash map from C strings to tagged values. It uses
separate chaining: an array of `size` buckets, each the head of a singly
linked, null-terminated chain of nodes, and a counter `count` of nodes.

- **Placing a key.** A key goes to bucket `hash_string(key) % size`.
  `hash_string` is the 64-bit FNV-1a hash.
- **Inserting.** Insertion first doubles the array (`hashtable_rehash`)
  once `count / size` has reached one half. It then either overwrites the
  value of the node holding the key or links a new node, with a copy of the
  key, at the tail of the key's chain.
- **Removing.** Removal unlinks the key's node: either the head of the
  chain or a later node, found by walking with its predecessor.
- **Reading.** `hashtable_contains` and `hashtable_get` walk the key's
  chain. `get` yields the Nil value for an absent key.

The model has five modules:

- `Values` (value.dfy): the tagged value `struct value`. It is a datatype
  with five kinds, a predicate, maker and accessor per kind, and a
  `ValueCell` class whose methods are the in-place `value_set_*` functions.
- `CStrings` (cstring.dfy): keys as NUL-terminated byte sequences
  (`CString`), with the `copy_string` and `string_equal` loops.
- `Hashing` (hash.dfy): FNV-1a as a left fold over the bytes, the
  `hash_string` loop proved against it, and the discrepancy listed under
  Findings.
- `Chains` (chains.dfy): the table seen as values. Bucket `i` is the
  sequence of key/value entries of its chain. The module defines:
  - the map the table stands for (`TableMap`: the union of the chains'
    maps, which are disjoint in a well-formed table; within one chain an
    earlier node wins);
  - the table invariant (`WellFormed`: at least one bucket, every entry in
    the bucket of its hash, no key twice in a chain);
  - the node count (`TotalCount`);
  - what overwrite, append, unlink and one step of rehash do to these.
- `Hashtable` (hashtable.dfy): the table on the heap.
  - `Node` objects with a constant key and mutable `value` and `next`
    fields.
  - The bucket routines as recursive methods over linked nodes.
  - The `Table` class, with fields `buckets: array<Node?>`, `size` and
    `count`. Its ghost state records each bucket's chain of nodes, the
    entries those nodes hold, and the footprint.
  - `Table.Valid()` ties the three together: every `buckets[i]` heads a
    null-terminated chain whose nodes carry exactly the entries of bucket
    `i`, the entries are `WellFormed`, `size` is the array length, and
    `count` is `TotalCount` and never exceeds `size` (the load-factor test
    in `hashtable_insert` keeps it there).
  - The abstract state is `Contents()`, a map from keys to values. Every
    public operation is specified against it.

## Model

| member | source | states |
|---|---|---|
| Values.ExactlyOneKind | hashtable.c:12-34 | every value satisfies exactly one of the five `value_is_*` predicates |
| Values.MakeNil | hashtable.c:82-86 | the made value is Nil and of no other kind |
| Values.MakeBoolean | hashtable.c:88-92 | the made value is Boolean and of no other kind, and `value_get_boolean` gives back the argument |
| Values.MakeInteger | hashtable.c:94-98 | the made value is Integer and of no other kind, and `value_get_integer` gives back the argument |
| Values.MakeReal | hashtable.c:100-104 | the made value is Real and of no other kind, and `value_get_real` gives back the argument |
| Values.MakeCustom | hashtable.c:106-110 | the made value is Custom and of no other kind, and `value_get_custom` gives back the argument |
| Values.GetBoolean | hashtable.c:61-64 | defined only on a Boolean value (the source's tag assertion), and inverts the maker: the value is `Boolean(result)` |
| Values.GetInteger | hashtable.c:66-69 | defined only on an Integer value, and the value is `Integer(result)` |
| Values.GetReal | hashtable.c:71-74 | defined only on a Real value, and the value is `Real(result)` |
| Values.GetCustom | hashtable.c:76-79 | defined only on a Custom value, and the value is `Custom(result)` |
| Values.ValueCell.SetNil | hashtable.c:36-38 | after the call the cell holds Nil, the value `value_make_nil` makes |
| Values.ValueCell.SetBoolean | hashtable.c:40-43 | after the call the cell is Boolean, and its accessor returns the argument |
| Values.ValueCell.SetInteger | hashtable.c:45-48 | after the call the cell is Integer, and its accessor returns the argument |
| Values.ValueCell.SetReal | hashtable.c:50-53 | after the call the cell is Real, and its accessor returns the argument |
| Values.ValueCell.SetCustom | hashtable.c:55-58 | after the call the cell is Custom, and its accessor returns the argument |
| CStrings.CopyString | hashtable.c:155-161 | the copy is byte for byte the key, terminator included, so it has the same length and text |
| CStrings.StringEqual | hashtable.c:163-169 | true exactly when the two terminated strings are identical, that is, exactly when their texts are equal |
| Hashing.HashString | hashtable.c:115-123 | the loop, stopping at the terminator, returns FNV-1a of the key's text with 64-bit wrap-around |
| Hashing.FnvFromSnoc | hashtable.c:116-121 | the hash is a left fold: one more byte costs one more round `(h ^ b) * 0x100000001b3` on the hash so far |
| Hashing.Fnv1aSnoc | hashtable.c:116-121 | the same, from the offset basis 0xcbf29ce484222325 |
| Hashing.Fnv1aTestVectors | hashtable.c:116-119 | the constants give the published 64-bit FNV-1a values for "" and "a" |
| Hashing.HashCode | hashtable.c:115-123 | the hash, read as an unsigned `size_t`, is below 2^64 |
| Hashing.AsWrittenNeverStops | hashtable.c:117-120 | as written, the loop guard `str != NULL` still holds after any number of rounds, including rounds past the key's last byte |
| Chains.Slot | hashtable.c:198 | the bucket index `hash % size` is below `size` |
| Hashtable.SlotOfHash | hashtable.c:198 | the index computed from `hash_string` is the slot the table invariant places the key in |
| Chains.EmptyTable | hashtable.c:129-134 | a table of empty buckets satisfies the invariant, maps nothing and counts no node |
| Chains.LookupInBucket | hashtable.c:226-234 | in a well-formed table a key is bound exactly when its own bucket holds it, and any node there with the key carries the bound value |
| Chains.Overwrite | hashtable.c:176-183 | overwriting the value of the key's node keeps the invariant and the count and rebinds the key |
| Chains.Append | hashtable.c:200-206 | appending a node for an absent key at the tail of its bucket keeps the invariant, adds one to the count and binds the key |
| Chains.Unlink | hashtable.c:210-223 | unlinking the key's node keeps the invariant, takes one off the count and unbinds the key, leaving every other binding |
| Chains.RehashStep | hashtable.c:241-247 | moving the next pending node to the tail of its bucket in the larger table keeps that table well-formed and equal, in map and count, to the part moved so far |
| Chains.CountIsSize | hashtable.c:147-149 | in a well-formed table the node count equals the number of keys bound |
| Hashtable.BucketInsert | hashtable.c:171-174 | the chain from the head now runs through all the old nodes and ends at the inserted node |
| Hashtable.BucketTryReplace | hashtable.c:176-183 | succeeds exactly when the chain holds the key; then an entry with the key carries the new value and every other entry is kept; otherwise the entries are unchanged |
| Hashtable.BucketRemove | hashtable.c:185-194 | succeeds exactly when a node after the head holds the key; then a node with the key is unlinked and the chain is the old one without it; otherwise the chain is unchanged |
| Hashtable.Link | hashtable.c:204-205 | the new node becomes the head of an empty bucket or is linked behind the tail; no other bucket changes |
| Hashtable.Replace | hashtable.c:198-199 | overwriting succeeds exactly when the key is bound; then the key is rebound and the invariant and count are kept; otherwise nothing changes |
| Hashtable.Attach | hashtable.c:204-205 | the key's chain gains the new node at its tail; every other chain is kept |
| Hashtable.Add | hashtable.c:200-206 | a fresh node holding a copy of an absent key and the value is the new last node of the key's chain, and its entry the new last entry of the key's bucket; no other chain changes; the invariant holds, the key is bound and the count grows by one |
| Hashtable.Delete | hashtable.c:210-223 | removal succeeds exactly when the key is bound; afterwards the key is unbound, every other binding is kept, the invariant holds and the count drops by one exactly on success |
| Hashtable.Detach | hashtable.c:213-222 | the head is unlinked when it holds the key, otherwise a later node with the key is; the result says whether the bucket held the key |
| Hashtable.UnlinkFirst | hashtable.c:213-218 | the bucket's head now points past the first node, and the bucket's chain and entries lose their first element |
| Hashtable.UnlinkLater | hashtable.c:220-222 | a later node with the key is unlinked exactly when one exists, and the bucket loses that entry |
| Hashtable.Search | hashtable.c:228-233 | the walk of a chain finds the key exactly when one of its entries holds it |
| Hashtable.FindValue | hashtable.c:277-284 | once the key is known to be in the chain, the walk never runs off its end and returns the value of the first node with the key |
| Hashtable.NewBuckets | hashtable.c:237-238 | a fresh array of `n` null heads is a table of `n` empty chains: well-formed, mapping nothing, counting nothing |
| Hashtable.Relocate | hashtable.c:242-247 | the node moves to the tail of the new chain of its slot, which gains its entry; every new chain still heads a null-terminated chain mirroring its entries; only the links of that chain and of the node change; the node that followed it is handed back |
| Hashtable.MoveStep | hashtable.c:241-247 | one pass of the inner loop on the heap: the node moves to the tail of its new chain, the rest of its old chain and the old chains not yet visited keep their links and entries, and the next node is the head of the rest of its old chain |
| Hashtable.MoveNode | hashtable.c:242-247 | the node joins the tail of the chain of its slot in the larger array and its own link is cleared; the node that followed it is handed back; no other bucket changes |
| Hashtable.MoveRound | hashtable.c:241-247 | one pass of the inner loop moves the next pending node and keeps the new chains well-formed and equal, in map and count, to what was moved including that node |
| Hashtable.MoveChain | hashtable.c:240-248 | after all nodes of old bucket `i` have moved, the new array holds exactly the old buckets up to `i`, well-formed and with the same count |
| Hashtable.RehashChains | hashtable.c:236-249 | the new array is twice as long and holds the same map and the same node count, well-formed for the new size |
| Hashtable.Table.constructor | hashtable.c:129-134 | a new table is valid and empty, with `count` 0 and the requested number of buckets |
| Hashtable.Table.GetCount | hashtable.c:147-149 | the count is the number of keys in the table |
| Hashtable.Table.GetSize | hashtable.c:151-153 | the number of buckets, which is never zero |
| Hashtable.Table.Rehash | hashtable.c:236-253 | the bucket array doubles; the contents, the count and the invariant are kept |
| Hashtable.Table.Insert | hashtable.c:196-208 | the result is true exactly when the key was absent; afterwards the key maps to the value and all else is kept; the count grows by one exactly when a node was created; the array doubled exactly when `2*count >= size` on entry; the invariant is kept |
| Hashtable.Table.TryReplace | hashtable.c:198-199 | overwrites exactly when the key is present, then rebinding it; otherwise the contents are kept; count and size are unchanged |
| Hashtable.Table.AddNode | hashtable.c:200-207 | an absent key becomes bound to the value and the count grows by one, staying within `size` because the caller has made room (`count < size`) |
| Hashtable.Table.Remove | hashtable.c:210-223 | true exactly when the key was present; afterwards the key is absent, every other binding is kept, and the count drops by one exactly on success |
| Hashtable.Table.SetNil | hashtable.c:255-257 | the key maps to Nil afterwards and every other binding is kept |
| Hashtable.Table.SetBoolean | hashtable.c:259-261 | the key maps to the Boolean afterwards and every other binding is kept |
| Hashtable.Table.SetInteger | hashtable.c:263-265 | the key maps to the Integer afterwards and every other binding is kept |
| Hashtable.Table.SetReal | hashtable.c:267-269 | the key maps to the Real afterwards and every other binding is kept |
| Hashtable.Table.SetCustom | hashtable.c:271-273 | the key maps to the Custom handle afterwards and every other binding is kept |
| Hashtable.Table.Contains | hashtable.c:226-234 | true exactly when the key is in the table; nothing changes |
| Hashtable.Table.Get | hashtable.c:275-285 | the stored value for a present key, Nil for an absent one; nothing changes |
| Hashtable.InsertThenGet | hashtable.c:196-208 | after inserting a value under a key, get returns that value, whatever the table held before |
| Hashtable.RemoveThenGet | hashtable.c:210-234 | after removing a key, contains is false and get returns Nil |

## Left out

- Memory management is not modelled: `malloc`, `calloc`, `free`, `bucket_destroy` and `hashtable_destroy` (lines 136-145). Nodes are Dafny objects, and allocation never fails.
- Two memory defects are noted but not modelled:
  - `hashtable_destroy` visits buckets `0 .. count-1` instead of `0 .. size-1` (line 143), so it leaks the chains in buckets `count .. size-1`. It never reads past the array: `Table.Valid()` includes `count <= size`, which the load-factor test in `hashtable_insert` maintains.
  - Removal frees the node but not the key copy that `copy_string` made for it (lines 190 and 216).
- Hashing.HashString: bytes are unsigned 0..255. Where `char` is signed, `hash ^ *str` (line 118) sign-extends bytes of 0x80 and above to 64 bits. That would change the hash of such keys, though not the table's behaviour as a map.
- A `double` payload is kept as its 64 bits and never interpreted.
- A `void *` payload is an opaque handle (a `nat`). The table never dereferences or frees it.
- The load-factor test `(double)count / (double)size >= 0.5` (line 197) is modelled as the integer test `2*count >= size`, which agrees with it for natural numbers.
- Hashtable.Table.Rehash: `size * 2` (lines 237, 242, 251) is unbounded here; `size_t` overflow is not modelled.
- Hashtable.Table.constructor: `HASHTABLE_INITIAL_SIZE` is defined in hashtable.h, which is not part of this model. The constructor takes it as a positive parameter.
- The recursion in `bucket_insert`, `bucket_try_replace` and `bucket_remove` is kept as recursion. `hash_string`, `copy_string`, `string_equal`, `hashtable_contains`, `hashtable_get` and `hashtable_rehash` keep their loops.
- `value_get_kind` and the `value_is_*` predicates are plain functions. Their meaning is stated by `ExactlyOneKind` and the makers' contracts.
- `assert(curr != NULL)` in `hashtable_get` (lines 279, 282) becomes a proof obligation: `FindValue` never reads a null node.

## Findings

| source | as written | input that shows it | evidently intended | confidence | as-written member | corrected member |
|---|---|---|---|---|---|---|
| hashtable.c:117 | `while (str != NULL)` tests the address `str`, which `str++` never makes null, so the loop runs past the terminator and reads beyond the key | the empty key `""`: one byte of storage, but the guard still holds at offset 1 and later | `while (*str != '\0')`: hash the bytes before the terminator | high (from the code's text; not executed) | Hashing.AsWrittenNeverStops | Hashing.HashString |
