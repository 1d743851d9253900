# Hash sets and singly linked lists, modelled in Dafny

This project models the core of a small Rust learning repository. The core has two hash-set
implementations and the linked lists that one of them uses:

- **`GlobalSet`** (src/global_set.rs) is an open-addressing set. It keeps a vector of optional
  slots and a count of stored elements. `index_for` starts at `hash % capacity` and walks forward,
  wrapping round the table. It gives up once it has passed `COLLISION_LIMIT` (2) occupied slots that
  hold other values. When `add` gets that answer, it rebuilds the table at
  `max(2 * capacity, 4)` slots and tries again.
- **`BucketSet`** (data-structures/custom-set/src/bucket_set.rs) is a separate-chaining set. It keeps
  a vector of `SimpleLinkedList` buckets and a count. An element lives in bucket
  `hash % capacity`. When the element is new and its bucket already holds `COLLISION_LIMIT` (2)
  elements, `add` rebuilds the table at `max(2 * capacity, 4)` buckets and tries again.
- **`SimpleLinkedList`** (data-structures/linked-list/src/lib.rs) is a stack-like singly linked list.
  It caches its length and has a borrowing iterator and `contains`. The buckets of `BucketSet` are
  these lists.
- **`SimpleLinkedList`** (src/linked_list.rs) is the minimal version of the same list. It has no
  cached length, and `len` counts the nodes by walking them.

Both sets also offer `contains`, `is_subset`, `is_empty`, `is_disjoint`, `intersection`,
`difference`, `union` and equality. `BucketSet` adds `values` and construction from an iterator.

## How the model is built

**Modules:**
- `Growth`: the constant, the home-position rule and the capacity function the two set files share.
- `SetFacts`: small facts about sequences and sets.
- `Nodes`: the list nodes as a value chain (`Item`), plus `Reverse`.
- `MinimalList` and `LinkedList`: the two list files.
- `OpenAddressing` and `Chaining`: the two set files.

**Data model:**
- Each list is a `class` whose `head` field the methods reassign. The cached list also has a `len`
  field, and `Valid()` ties it to the number of nodes.
- The open-addressing table is an `array<Option<T>>`. Its invariant `Findable` says that looking up
  any stored value finds it in its own slot.
- The chaining table is an `array` of distinct list objects. Ghost fields mirror it:
  - `Buckets` holds each bucket's contents;
  - `Elements` holds the abstract set;
  - `Repr` is the footprint.

  The invariant `WellChained` says three things: every element sits in its home bucket, no bucket
  holds a duplicate, and no bucket is longer than `COLLISION_LIMIT`.
- Each set object carries its hash function as a constant field given at construction. The model
  states nothing about the hasher other than that it is a fixed function.

**Termination and fuel:** the resize-and-retry recursion in `add` does not always terminate in the
source. Three elements with equal hashes make it grow the table forever. So every operation that can
rebuild a table takes a `fuel: nat` argument and returns `ok: bool`:
- when `ok` holds, the full property is proved;
- an `add` that needs no rebuild always succeeds, and its contract says so: it stores the element
  in the slot or bucket the source picks and raises the count by one;
- `ok` can be false only when a rebuild was needed and the fuel ran out; the contract then still
  says what holds (the set is valid and no element was invented).

## Model

| member | source | states |
|---|---|---|
| Growth.HomeIndex | src/global_set.rs:32-34 | the home position `hash % capacity` (the probe start in the open-addressing set, the bucket in the chaining set) is inside the table |
| Growth.NextCapacityStep | src/global_set.rs:17-19 | the new capacity is `max(2 * current, 4)`: at least 4, at least twice the old one, and always larger than it |
| Growth.ReachableTransitive | data-structures/custom-set/src/bucket_set.rs:13-15 | applying the growth step repeatedly composes: a capacity reachable from a reachable capacity is reachable |
| Growth.ReachableNeverShrinks | src/global_set.rs:75-77 | a capacity reached by rebuilding is never smaller than the starting one (tables only grow) |
| SetFacts.DistinctCard | data-structures/custom-set/src/bucket_set.rs:82-87 | a sequence without duplicates has exactly as many distinct values as entries |
| SetFacts.SubsetSameSize | src/global_set.rs:155-162 | a subset is no larger than its superset, and a subset of the same size is equal to it (why equality can compare counts and then test subset) |
| SetFacts.NoDupConcat | data-structures/custom-set/src/bucket_set.rs:82-87 | joining two duplicate-free sequences that share no value gives a duplicate-free sequence |
| Nodes.Reverse | data-structures/linked-list/src/lib.rs:48-59 | reversal keeps the length |
| Nodes.ReverseAt | data-structures/linked-list/src/lib.rs:48-59 | element `k` of the input is element `n-1-k` of the reversal |
| Nodes.ReverseSnoc | data-structures/linked-list/src/lib.rs:93-103 | pushing one more item onto the front of a reversed sequence is the same as reversing the sequence with that item appended |
| Nodes.ReverseInvolution | data-structures/linked-list/src/lib.rs:105-116 | reversing twice gives back the original sequence |
| MinimalList.SimpleLinkedList.constructor | src/linked_list.rs:13-15 | a new list is empty |
| MinimalList.SimpleLinkedList.IsEmpty | src/linked_list.rs:17-19 | true exactly when the list holds no elements |
| MinimalList.SimpleLinkedList.Len | src/linked_list.rs:21-31 | the node-walking loop returns the number of elements; it returns zero exactly when `IsEmpty` holds |
| MinimalList.SimpleLinkedList.Push | src/linked_list.rs:33-38 | the element becomes the new head and the old contents follow it |
| MinimalList.SimpleLinkedList.Pop | src/linked_list.rs:40-44 | gives `None` and leaves an empty list empty; otherwise returns the head and leaves the rest |
| MinimalList.SimpleLinkedList.Peek | src/linked_list.rs:46-48 | `None` exactly when the list is empty, otherwise the head element |
| MinimalList.SimpleLinkedList.Rev | src/linked_list.rs:51-62 | gives a fresh list whose contents are the reversal of the original's |
| MinimalList.PushThenPop | src/linked_list.rs:33-44 | popping right after pushing `x` returns `x` and restores the list |
| MinimalList.FromIter | src/linked_list.rs:65-75 | building from a sequence pushes each item in turn, so the list holds the sequence reversed |
| MinimalList.ToVec | src/linked_list.rs:77-88 | converting to a vector gives the list's contents from tail to head |
| MinimalList.RoundTrip | src/linked_list.rs:65-88 | converting a sequence to a list and back gives the same sequence |
| LinkedList.SimpleLinkedList.constructor | data-structures/linked-list/src/lib.rs:16-18 | a new list is empty and its cached length is consistent |
| LinkedList.SimpleLinkedList.IsEmpty | data-structures/linked-list/src/lib.rs:20-22 | testing the head is the same as the list being empty, and the same as the cached length being 0 |
| LinkedList.SimpleLinkedList.Len | data-structures/linked-list/src/lib.rs:24-26 | the cached counter equals the number of elements |
| LinkedList.SimpleLinkedList.Push | data-structures/linked-list/src/lib.rs:28-34 | the element becomes the head, the old contents follow, and the counter goes up by one |
| LinkedList.SimpleLinkedList.Pop | data-structures/linked-list/src/lib.rs:36-41 | on an empty list: `None`, and the counter is unchanged; otherwise: the head, the rest stays, and the counter goes down by one |
| LinkedList.SimpleLinkedList.Peek | data-structures/linked-list/src/lib.rs:43-45 | `None` exactly when the list is empty, otherwise the head element |
| LinkedList.SimpleLinkedList.Rev | data-structures/linked-list/src/lib.rs:48-59 | gives a fresh valid list holding the reversed contents, with the same length |
| LinkedList.SimpleLinkedList.Iter | data-structures/linked-list/src/lib.rs:61-63 | gives a fresh iterator that will yield exactly the list's contents, head first |
| LinkedList.Iter.constructor | data-structures/linked-list/src/lib.rs:76-80 | the iterator starts at the list's head |
| LinkedList.Iter.Next | data-structures/linked-list/src/lib.rs:85-90 | at the end, gives `None` and stays at the end; otherwise gives the current element and moves one node on |
| LinkedList.Collect | data-structures/linked-list/src/lib.rs:61-90 | running the iterator to its end yields the list's contents in order |
| LinkedList.Contains | data-structures/linked-list/src/lib.rs:66-70 | true exactly when the element is in the list |
| LinkedList.ChainContains | data-structures/linked-list/src/lib.rs:66-70 | walking a node chain finds an element exactly when the chain holds it |
| LinkedList.PushThenPop | data-structures/linked-list/src/lib.rs:28-41 | popping right after pushing `x` returns `x` and restores both the contents and the length |
| LinkedList.FromIter | data-structures/linked-list/src/lib.rs:93-103 | gives a valid list holding the sequence reversed |
| LinkedList.ToVec | data-structures/linked-list/src/lib.rs:105-116 | converting to a vector gives the contents from tail to head |
| LinkedList.RoundTrip | data-structures/linked-list/src/lib.rs:93-116 | converting a sequence to a list and back gives the same sequence |
| OpenAddressing.Slot | src/global_set.rs:37 | the wrapped probe index is always inside the table |
| OpenAddressing.Lookup | src/global_set.rs:31-56 | `index_for`: `Existing(i)` is a slot holding the element and `Empty(i)` a free slot; a free home slot is answered `Empty` there, a home slot holding the element `Existing` there |
| OpenAddressing.AllLookups | src/global_set.rs:105-108 | the `all` fold of `is_subset` and `is_disjoint` (lines 116-119): true exactly when every stored value's membership in the other table is the one wanted |
| OpenAddressing.Probe | src/global_set.rs:39-55 | `Existing(i)` points at a slot holding the element; `Empty(i)` points at a free slot |
| OpenAddressing.EmptyTable | src/global_set.rs:58-62 | a table of free slots satisfies the lookup invariant, holds no values and has no occupied slots |
| OpenAddressing.NoneOccupied | src/global_set.rs:60-61 | a table of free slots has an occupied count of zero |
| OpenAddressing.FillOccupied | src/global_set.rs:89-92 | storing into a free slot raises the occupied count by one |
| OpenAddressing.LookupFindsStored | src/global_set.rs:71-73 | under the invariant, lookup answers `Existing` exactly for the stored values |
| OpenAddressing.ProbeAfterFill | src/global_set.rs:89-92 | filling a free slot does not change where an already stored value is found |
| OpenAddressing.ProbeFindsFilled | src/global_set.rs:89-92 | after storing `x` in the free slot that lookup returned, lookup of `x` finds it there |
| OpenAddressing.FillKeepsFindable | src/global_set.rs:86-92 | storing `x` in the slot that lookup returned as free keeps the invariant, and the stored values become the old ones plus `x` (which was absent) |
| OpenAddressing.ProbePath | src/global_set.rs:39-55 | a probe that does not give up ends at some offset `j` below `COLLISION_LIMIT`, and every slot it passed holds another value; a probe that gives up passed `COLLISION_LIMIT` such slots |
| OpenAddressing.StoredNearHome | src/global_set.rs:31-56 | every stored value sits fewer than `COLLISION_LIMIT` slots after its home slot |
| OpenAddressing.FindableDistinct | src/global_set.rs:86-92 | under the invariant, no value is stored twice |
| OpenAddressing.DistinctOccupied | src/global_set.rs:8 | when there are no duplicates, the occupied count equals the number of distinct values stored |
| OpenAddressing.OccupiedIsCount | src/global_set.rs:8 | under the invariant, the occupied count equals the size of the set |
| OpenAddressing.FilterStep | src/global_set.rs:123-143 | filtering one more slot adds that slot's value exactly when its membership in the other set is the one wanted |
| OpenAddressing.FilteredPrefix | src/global_set.rs:123-143 | filtering a prefix of the slots picks out no more than filtering all of them |
| OpenAddressing.GlobalSet.CountIsSize | src/global_set.rs:8 | the counter `inserted_elements` equals the number of elements |
| OpenAddressing.GlobalSet.WithCapacity | src/global_set.rs:59-62 | an empty, valid table of the given capacity |
| OpenAddressing.GlobalSet.Clone | src/global_set.rs:5 | a fresh table with the same hash, slots and count |
| OpenAddressing.GlobalSet.IndexFor | src/global_set.rs:31-56 | the probe loop's result equals the lookup function on the current slots |
| OpenAddressing.GlobalSet.Contains | src/global_set.rs:71-73 | true exactly when the element is in the set |
| OpenAddressing.GlobalSet.Resize | src/global_set.rs:75-84 | re-inserting every old value keeps the same set; the new capacity is a growth step (or more) beyond the old one |
| OpenAddressing.GlobalSet.Add | src/global_set.rs:86-98 | stays valid and the capacity only grows; the set becomes the old one plus the element; an element already present changes nothing; when the probe does not give up, the call succeeds without a rebuild, and a free slot found by the probe receives the element and raises the count by one |
| OpenAddressing.GlobalSet.New | src/global_set.rs:58-69 | starts at `max(2 * len, 4)` slots and holds exactly the input's distinct values, counted once each |
| OpenAddressing.GlobalSet.IsSubset | src/global_set.rs:100-109 | true exactly when every element is in the other set (the early count test included) |
| OpenAddressing.GlobalSet.IsEmpty | src/global_set.rs:111-113 | a zero counter means exactly that there are no elements |
| OpenAddressing.GlobalSet.IsDisjoint | src/global_set.rs:115-120 | true exactly when the two sets share no element |
| OpenAddressing.GlobalSet.Eq | src/global_set.rs:155-163 | comparing counts and then testing subset is set equality |
| OpenAddressing.GlobalSet.CopyIfMember | src/global_set.rs:125-128 | one loop step: adds the slot's value to the result exactly when its membership in the other set is the one wanted |
| OpenAddressing.GlobalSet.Intersection | src/global_set.rs:122-131 | the result is a fresh valid set holding exactly the common elements |
| OpenAddressing.GlobalSet.Difference | src/global_set.rs:133-143 | the result is a fresh valid set holding exactly the elements not in the other set |
| OpenAddressing.GlobalSet.Union | src/global_set.rs:145-152 | the result is a fresh valid set that starts as a copy of this one and holds exactly the elements of either set |
| Chaining.EmptyChains | data-structures/custom-set/src/bucket_set.rs:21-25 | empty buckets satisfy the chaining invariant and hold nothing |
| Chaining.InFlatten | data-structures/custom-set/src/bucket_set.rs:82-87 | a value is among the buckets' concatenated contents exactly when some bucket holds it |
| Chaining.SetOfFlatten | data-structures/custom-set/src/bucket_set.rs:82-87 | the values of the concatenated buckets are exactly the set |
| Chaining.FlattenNoDup | data-structures/custom-set/src/bucket_set.rs:82-87 | duplicate-free buckets that do not overlap concatenate without duplicates |
| Chaining.MemberAtHome | data-structures/custom-set/src/bucket_set.rs:46-49 | under the invariant, an element is in the set exactly when its home bucket holds it |
| Chaining.WellChainedCount | data-structures/custom-set/src/bucket_set.rs:10 | under the invariant, the concatenated buckets have no duplicate, and their length is the size of the set |
| Chaining.PushLength | data-structures/custom-set/src/bucket_set.rs:78-79 | pushing onto one bucket makes the concatenation one longer |
| Chaining.PushChain | data-structures/custom-set/src/bucket_set.rs:73-79 | pushing a new element onto its not-yet-full home bucket keeps the invariant, adds exactly that element and makes the total one larger |
| Chaining.ChainSetSnoc | data-structures/custom-set/src/bucket_set.rs:58-62 | the set held by buckets `0..k` plus bucket `k` is the set held by buckets `0..k+1` |
| Chaining.BucketSet.CountIsSize | data-structures/custom-set/src/bucket_set.rs:10 | the counter `inserted_elements` equals the number of elements |
| Chaining.BucketSet.Shape | data-structures/custom-set/src/bucket_set.rs:40-49 | each element's home bucket list contains it; a list that contains `x` is `x`'s home bucket; no list is longer than `COLLISION_LIMIT` |
| Chaining.BucketSet.EmptyBuckets | data-structures/custom-set/src/bucket_set.rs:23 | `n` fresh, empty and pairwise distinct lists |
| Chaining.BucketSet.WithCapacity | data-structures/custom-set/src/bucket_set.rs:22-25 | an empty, valid table of the given capacity |
| Chaining.BucketSet.GetBucket | data-structures/custom-set/src/bucket_set.rs:40-44 | the bucket index is inside the table |
| Chaining.BucketSet.Contains | data-structures/custom-set/src/bucket_set.rs:46-49 | searching the home bucket is true exactly when the element is in the set |
| Chaining.BucketSet.Resize | data-structures/custom-set/src/bucket_set.rs:51-63 | re-adding every bucket's elements keeps the same set; the new capacity is a growth step (or more) beyond the old one |
| Chaining.BucketSet.Adopt | data-structures/custom-set/src/bucket_set.rs:53-54 | takes over the rebuilt table: its buckets, its set and its footprint |
| Chaining.BucketSet.AddChain | data-structures/custom-set/src/bucket_set.rs:59-61 | adding every element of one old bucket adds exactly that bucket's values |
| Chaining.BucketSet.AddNext | data-structures/custom-set/src/bucket_set.rs:59-60 | one inner-loop step: advances the iterator and adds the element it yields, or reports that it is at the end |
| Chaining.BucketSet.Add | data-structures/custom-set/src/bucket_set.rs:65-80 | stays valid and the capacity only grows; the set becomes the old one plus the element; an element already present changes nothing; when the home bucket has room, the call succeeds without a rebuild, pushes a new element onto the front of that bucket and raises the count by one |
| Chaining.BucketSet.New | data-structures/custom-set/src/bucket_set.rs:21-32 | starts with `max(2 * len, 4)` buckets and holds exactly the distinct input values, counted once each |
| Chaining.BucketSet.FromIter | data-structures/custom-set/src/bucket_set.rs:137-147 | starts from an empty 4-bucket set and holds exactly the values of the sequence |
| Chaining.BucketSet.ValuesFrom | data-structures/custom-set/src/bucket_set.rs:82-87 | the values of buckets `k..`, skipping empty ones, in bucket order and head first inside each bucket |
| Chaining.BucketSet.Values | data-structures/custom-set/src/bucket_set.rs:82-87 | gives each element exactly once, as many entries as the counter, and nothing else |
| Chaining.BucketSet.AllHaveMembership | data-structures/custom-set/src/bucket_set.rs:94 | true exactly when every value of the sequence has the wanted membership in this set |
| Chaining.BucketSet.IsSubset | data-structures/custom-set/src/bucket_set.rs:89-95 | true exactly when every element is in the other set (the early count test included) |
| Chaining.BucketSet.IsEmpty | data-structures/custom-set/src/bucket_set.rs:97-99 | a zero counter means exactly that there are no elements |
| Chaining.BucketSet.IsDisjoint | data-structures/custom-set/src/bucket_set.rs:101-103 | true exactly when the two sets share no element |
| Chaining.BucketSet.Eq | data-structures/custom-set/src/bucket_set.rs:127-135 | comparing counts and then testing subset is set equality |
| Chaining.BucketSet.Filter | data-structures/custom-set/src/bucket_set.rs:107-108 | keeps exactly the values whose membership in the other set is the one wanted |
| Chaining.BucketSet.Intersection | data-structures/custom-set/src/bucket_set.rs:105-111 | the result is a fresh valid set holding exactly the common elements |
| Chaining.BucketSet.Difference | data-structures/custom-set/src/bucket_set.rs:113-119 | the result is a fresh valid set holding exactly the elements not in the other set |
| Chaining.BucketSet.Union | data-structures/custom-set/src/bucket_set.rs:121-124 | the result is a fresh valid set holding exactly the elements of either set |

## Left out

- OpenAddressing.GlobalSet.Add: after a rebuild, the model states the result only for `ok`. This is because the source's resize-and-retry recursion need not terminate: three values with the same hash make it grow the table forever. With fuel exhausted, the set is left valid and unchanged. Without a rebuild, `ok` is always true.
- Chaining.BucketSet.Add: the same fuel bound on the rebuild path, for the same reason. When the home bucket has room, `ok` is always true.
- OpenAddressing.GlobalSet.Resize, Chaining.BucketSet.Resize: the new capacity is stated as "reachable by one or more growth steps" rather than exactly one step. This is because a nested rebuild during re-insertion can grow it further, which is what the source does too.
- OpenAddressing.GlobalSet.New, OpenAddressing.GlobalSet.Intersection, OpenAddressing.GlobalSet.Difference, OpenAddressing.GlobalSet.Union: exact contents are stated only when `ok`. Otherwise the result is a valid subset of the intended set, because fuel bounds the inner `add` calls.
- Chaining.BucketSet.New, Chaining.BucketSet.FromIter, Chaining.BucketSet.Intersection, Chaining.BucketSet.Difference, Chaining.BucketSet.Union: the same fuel weakening as above.
- OpenAddressing.GlobalSet.Resize: when fuel gives out partway, the model puts back the old table. The source has no such case, since it simply recurses.
- Chaining.BucketSet.Resize: the model fills a fresh set and adopts its table (`Adopt`). The source swaps the vector out with `mem::replace` and re-adds into itself. Both give the same set and the same kind of table. When fuel gives out partway, the model keeps the old table, as the open-addressing set does; the source has no such case.
- The hash: the standard library's `DefaultHasher` is not modelled. Each set takes its hash as a fixed function supplied when it is built. All properties hold for every such function.
- Element equality: the model uses Dafny's built-in equality. That is a true equivalence, and every hash function agrees with it. The source asks only for `Hash + PartialEq` (src/global_set.rs:21-22, data-structures/custom-set/src/bucket_set.rs:17-18), and it compares with `==` (src/global_set.rs:44, data-structures/linked-list/src/lib.rs:68). A `PartialEq` that is not reflexive, or a `Hash` that disagrees with `==`, would make `contains` miss stored values and `add` store duplicates. The model cannot express that case: every property assumes lawful equality and hashing.
- Integer widths: `usize`/`u64` overflow of counters, capacities and `current * 2` is not modelled. Integers are unbounded.
- SimpleLinkedList.rev, in both list files, takes the list by value in the source. Here it reads the list and returns a fresh one. What happens to the consumed original is not captured.
- Iterator lifetimes and borrowing are not modelled. `Iter` holds the remaining node chain as a value.
- The derived `Clone` and `Debug` and the `#[must_use]` markers are not modelled. `GlobalSet.Clone` models the one clone that `union` uses.
- The sets' buckets: Rust owns each bucket list by value. Here they are list objects in an array, and the invariant requires them to be pairwise distinct, so aliasing cannot arise.
- `BucketSet::values` returns a lazy iterator in the source. Here it is a sequence built eagerly in the same order.
- src/bucket_set.rs is not part of this model. It is an earlier, unfinished draft of the chaining set.
- The graph parser and graph DSL crates are not part of this model. They are unrelated to the sets and lists.
