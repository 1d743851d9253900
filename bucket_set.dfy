/**
  The chaining hash set of data-structures/custom-set (`BucketSet`): a vector of
  buckets, each one of the crate's linked lists holding the values whose hash
  lands in it, plus a count of the stored values. A bucket that already holds
  `COLLISION_LIMIT` values makes the table grow. Nothing is ever removed.

  As in the open-addressing set, the hash is the set's `hash` function, fixed
  when the set is made.
*/
module Chaining {
  import opened Nodes
  import opened Growth
  import opened SetFacts
  import LinkedList

  type List<T> = LinkedList.SimpleLinkedList<T>

  /** The chains one after the other, each front to back. */
  ghost function Flatten<T>(b: seq<seq<T>>): seq<T>
  {
    if b == [] then [] else b[0] + Flatten(b[1..])
  }

  /** The values held by any chain. */
  ghost function ChainSet<T>(b: seq<seq<T>>): set<T>
  {
    set k, x | 0 <= k < |b| && x in b[k] :: x
  }

  /**
   * The shape `add` keeps: every value sits in its own bucket, no chain holds a
   * value twice, and no chain is longer than the collision limit.
   */
  ghost predicate WellChained<T>(b: seq<seq<T>>, hash: T -> nat)
  {
    (forall k, j :: 0 <= k < |b| && 0 <= j < |b[k]| ==> HomeIndex(hash, b[k][j], |b|) == k)
    && (forall k :: 0 <= k < |b| ==> NoDup(b[k]) && |b[k]| <= COLLISION_LIMIT)
  }

  /** `n` empty chains. */
  ghost function NoChains<T>(n: nat): seq<seq<T>>
  {
    seq(n, _ => [])
  }

  lemma EmptyChains<T>(n: nat, hash: T -> nat)
    ensures WellChained(NoChains<T>(n), hash)
    ensures ChainSet(NoChains<T>(n)) == {}
    ensures Flatten(NoChains<T>(n)) == []
    decreases n
  {
    var b := NoChains<T>(n);
    if n > 0 {
      EmptyChains<T>(n - 1, hash);
      assert b[1..] == NoChains<T>(n - 1);
    }
  }

  /** A value is in the flattened chains exactly when some chain holds it. */
  lemma {:induction false} InFlatten<T>(b: seq<seq<T>>, x: T)
    ensures x in Flatten(b) <==> x in ChainSet(b)
    decreases |b|
  {
    if b != [] {
      InFlatten(b[1..], x);
      if x in ChainSet(b[1..]) {
        var k :| 0 <= k < |b[1..]| && x in b[1..][k];
        assert x in b[k + 1];
      }
      if x in ChainSet(b) {
        var k :| 0 <= k < |b| && x in b[k];
        if k > 0 {
          assert x in b[1..][k - 1];
        }
      }
    }
  }

  lemma SetOfFlatten<T>(b: seq<seq<T>>)
    ensures (set x | x in Flatten(b)) == ChainSet(b)
  {
    forall x | x in Flatten(b) ensures x in ChainSet(b) {
      InFlatten(b, x);
    }
    forall x | x in ChainSet(b) ensures x in Flatten(b) {
      InFlatten(b, x);
    }
  }

  /** Chains that are each duplicate-free and pairwise disjoint flatten to a duplicate-free sequence. */
  lemma {:induction false} FlattenNoDup<T>(b: seq<seq<T>>)
    requires forall k :: 0 <= k < |b| ==> NoDup(b[k])
    requires forall k, l, x :: 0 <= k < l < |b| && x in b[k] ==> x !in b[l]
    ensures NoDup(Flatten(b))
    decreases |b|
  {
    if b != [] {
      FlattenNoDup(b[1..]);
      forall x | x in b[0] ensures x !in Flatten(b[1..]) {
        InFlatten(b[1..], x);
      }
      NoDupConcat(b[0], Flatten(b[1..]));
    }
  }

  /** In a well-chained table a value is stored exactly when its own bucket holds it. */
  lemma MemberAtHome<T>(b: seq<seq<T>>, hash: T -> nat, x: T)
    requires |b| > 0 && WellChained(b, hash)
    ensures x in ChainSet(b) <==> x in b[HomeIndex(hash, x, |b|)]
  {
    if x in ChainSet(b) {
      var k :| 0 <= k < |b| && x in b[k];
      var j :| 0 <= j < |b[k]| && b[k][j] == x;
    }
  }

  /** The values of a well-chained table are all distinct, so the count is the size. */
  lemma WellChainedCount<T>(b: seq<seq<T>>, hash: T -> nat)
    requires WellChained(b, hash)
    ensures NoDup(Flatten(b))
    ensures |ChainSet(b)| == |Flatten(b)|
  {
    forall k, l, x | 0 <= k < l < |b| && x in b[k] ensures x !in b[l] {
      var j :| 0 <= j < |b[k]| && b[k][j] == x;
      assert HomeIndex(hash, x, |b|) == k;
    }
    FlattenNoDup(b);
    DistinctCard(Flatten(b));
    SetOfFlatten(b);
  }

  /** Pushing a value onto one chain lengthens the flattened chains by one. */
  lemma {:induction false} PushLength<T>(b: seq<seq<T>>, i: nat, x: T)
    requires i < |b|
    ensures |Flatten(b[i := [x] + b[i]])| == |Flatten(b)| + 1
    decreases |b|
  {
    var b' := b[i := [x] + b[i]];
    if i == 0 {
      assert b'[1..] == b[1..];
    } else {
      PushLength(b[1..], i - 1, x);
      assert b'[1..] == b[1..][i - 1 := [x] + b[i]];
    }
  }

  /** Pushing a new value onto its own bucket, below the limit, keeps the table well chained and adds it. */
  lemma PushChain<T>(b: seq<seq<T>>, hash: T -> nat, i: nat, x: T)
    requires WellChained(b, hash) && i < |b|
    requires HomeIndex(hash, x, |b|) == i && x !in b[i] && |b[i]| < COLLISION_LIMIT
    ensures WellChained(b[i := [x] + b[i]], hash)
    ensures ChainSet(b[i := [x] + b[i]]) == ChainSet(b) + {x}
    ensures |Flatten(b[i := [x] + b[i]])| == |Flatten(b)| + 1
  {
    var b' := b[i := [x] + b[i]];
    forall k, j | 0 <= k < |b'| && 0 <= j < |b'[k]| ensures HomeIndex(hash, b'[k][j], |b'|) == k {
      if k == i && j > 0 {
        assert b'[k][j] == b[k][j - 1];
      }
    }
    forall k | 0 <= k < |b'| ensures NoDup(b'[k]) {
      if k == i {
        NoDupConcat([x], b[i]);
      }
    }
    forall y: T ensures y in ChainSet(b') <==> y in ChainSet(b) + {x} {
      if y in ChainSet(b') {
        var k :| 0 <= k < |b'| && y in b'[k];
        if k == i && y != x {
          assert y in b[k];
        }
      }
      if y in ChainSet(b) {
        var k :| 0 <= k < |b| && y in b[k];
        assert y in b'[k];
      }
      if y == x {
        assert y in b'[i];
      }
    }
    PushLength(b, i, x);
  }

  /** Growing a scan of the chains by one chain adds exactly that chain's values. */
  lemma ChainSetSnoc<T>(b: seq<seq<T>>, k: nat)
    requires k < |b|
    ensures ChainSet(b[..k + 1]) == ChainSet(b[..k]) + set x | x in b[k]
  {
    forall y | y in ChainSet(b[..k + 1]) ensures y in ChainSet(b[..k]) || y in b[k] {
      var l :| 0 <= l < k + 1 && y in b[..k + 1][l];
      if l < k {
        assert y in b[..k][l];
      }
    }
    forall y | y in ChainSet(b[..k]) ensures y in ChainSet(b[..k + 1]) {
      var l :| 0 <= l < k && y in b[..k][l];
      assert y in b[..k + 1][l];
    }
    forall y | y in b[k] ensures y in ChainSet(b[..k + 1]) {
      assert y in b[..k + 1][k];
    }
  }

  class BucketSet<T(==)> {
    const hash: T -> nat
    var data: array<List<T>>
    var insertedElements: nat
    /** The contents of the buckets, in order. */
    ghost var Buckets: seq<seq<T>>
    /** The set's contents. */
    ghost var Elements: set<T>
    /** This set, its vector and its lists. */
    ghost var Repr: set<object>

    ghost predicate Valid()
      reads this, Repr
    {
      this in Repr && data in Repr
      && data.Length >= 4 && |Buckets| == data.Length
      && (forall i :: 0 <= i < data.Length ==>
            data[i] in Repr && data[i].Valid() && data[i].Contents() == Buckets[i])
      && (forall i, j :: 0 <= i < j < data.Length ==> data[i] != data[j])
      && WellChained(Buckets, hash)
      && Elements == ChainSet(Buckets)
      && insertedElements == |Flatten(Buckets)|
    }

    /** `inserted_elements` is the number of stored values. */
    lemma CountIsSize()
      requires Valid()
      ensures insertedElements == |Elements|
    {
      WellChainedCount(Buckets, hash);
    }

    /**
     * The shape `add` keeps, read off the lists: each stored value is in the
     * list `get_bucket` picks for it and in no other, and no list is longer
     * than the collision limit.
     */
    lemma Shape()
      requires Valid()
      ensures forall x :: x in Elements ==> LinkedList.Contains(data[GetBucket(x)], x)
      ensures forall x, k :: 0 <= k < data.Length && LinkedList.Contains(data[k], x) ==> k == GetBucket(x)
      ensures forall k :: 0 <= k < data.Length ==> data[k].Len() <= COLLISION_LIMIT
    {
      forall x | x in Elements ensures LinkedList.Contains(data[GetBucket(x)], x) {
        MemberAtHome(Buckets, hash, x);
      }
      forall x, k | 0 <= k < data.Length && LinkedList.Contains(data[k], x) ensures k == GetBucket(x) {
        var j :| 0 <= j < |Buckets[k]| && Buckets[k][j] == x;
      }
    }

    /** `vec![SimpleLinkedList::new(); n]`: `n` distinct new empty lists. */
    static method EmptyBuckets(n: nat) returns (a: array<List<T>>)
      ensures fresh(a) && a.Length == n
      ensures forall i :: 0 <= i < n ==> fresh(a[i]) && a[i].Valid() && a[i].Contents() == []
      ensures forall i, j :: 0 <= i < j < n ==> a[i] != a[j]
    {
      var first := new LinkedList.SimpleLinkedList<T>();
      a := new List<T>[n](_ => first);
      for i := 0 to n
        invariant forall k :: 0 <= k < i ==> fresh(a[k]) && a[k].Valid() && a[k].Contents() == []
        invariant forall k, l :: 0 <= k < l < i ==> a[k] != a[l]
      {
        var list := new LinkedList.SimpleLinkedList<T>();
        a[i] := list;
      }
    }

    /** A set with `capacity` empty buckets. */
    constructor WithCapacity(hash: T -> nat, capacity: nat)
      requires capacity >= 4
      ensures Valid() && fresh(Repr) && this.hash == hash
      ensures data.Length == capacity && Elements == {} && insertedElements == 0
    {
      this.hash := hash;
      var lists := EmptyBuckets(capacity);
      data := lists;
      insertedElements := 0;
      Buckets := NoChains(capacity);
      Elements := {};
      Repr := {this, lists} + set i | 0 <= i < capacity :: lists[i];
      new;
      EmptyChains<T>(capacity, hash);
    }

    /** `get_bucket`: the index of the bucket `input` belongs to. */
    function GetBucket(input: T): (r: nat)
      reads this
      requires data.Length > 0
      ensures r < data.Length
    {
      HomeIndex(hash, input, data.Length)
    }

    /** `contains`: whether the home bucket of `element` holds it. */
    function Contains(element: T): (b: bool)
      reads this, Repr
      requires Valid()
      ensures b <==> element in Elements
    {
      MemberAtHome(Buckets, hash, element);
      LinkedList.Contains(data[GetBucket(element)], element)
    }

    /**
     * `resize`: every value of the buckets is added again to a table of
     * `next_capacity_step` empty buckets, which then replaces this one. The
     * new table is filled as a set of its own, so a bucket that fills up again
     * grows it through the ordinary `add`. Should the fuel run out part way,
     * this set keeps its old table.
     */
    method Resize(fuel: nat) returns (ok: bool)
      requires Valid()
      modifies Repr
      ensures Valid() && fresh(Repr - old(Repr))
      ensures Elements == old(Elements)
      ensures ok ==> Reachable(NextCapacityStep(old(data.Length)), data.Length)
      ensures !ok ==> data == old(data) && Buckets == old(Buckets) && insertedElements == old(insertedElements)
      decreases fuel, 4
    {
      var newCapacity := NextCapacityStep(data.Length);
      var grown := new BucketSet.WithCapacity(hash, newCapacity);
      for k := 0 to data.Length
        invariant unchanged(old(Repr))
        invariant grown.Valid() && fresh(grown.Repr) && grown.hash == hash
        invariant grown.Elements == ChainSet(Buckets[..k])
        invariant Reachable(newCapacity, grown.data.Length)
      {
        ghost var before := grown.data.Length;
        ok := grown.AddChain(data[k], fuel);
        ReachableTransitive(newCapacity, before, grown.data.Length);
        if !ok {
          return;
        }
        ChainSetSnoc(Buckets, k);
      }
      assert Buckets[..data.Length] == Buckets;
      Adopt(grown);
      ok := true;
    }

    /** The `mem::replace` of `resize`: this set takes over the table of `grown`. */
    method Adopt(grown: BucketSet<T>)
      requires grown.Valid() && grown.hash == hash && this !in grown.Repr
      modifies this
      ensures Valid() && Repr == grown.Repr - {grown} + {this}
      ensures data == grown.data && Buckets == grown.Buckets && Elements == grown.Elements
    {
      data, Buckets, Elements := grown.data, grown.Buckets, grown.Elements;
      insertedElements, Repr := grown.insertedElements, grown.Repr - {grown} + {this};
    }

    /** The inner loop of `resize`: every value of `list`, in order, added to this set. */
    method AddChain(list: List<T>, fuel: nat) returns (ok: bool)
      requires Valid()
      modifies Repr
      ensures Valid() && fresh(Repr - old(Repr))
      ensures Reachable(old(data.Length), data.Length)
      ensures ok ==> Elements == old(Elements) + set x | x in old(list.Contents())
      decreases fuel, 3
    {
      var it := list.Iter();
      ghost var done: seq<T> := [];
      var more := true;
      ok := true;
      while more
        invariant Valid() && fresh(Repr - old(Repr)) && fresh(it) && it !in Repr
        invariant done + it.Remaining() == old(list.Contents())
        invariant more || it.Remaining() == []
        invariant Elements == old(Elements) + set x | x in done
        invariant Reachable(old(data.Length), data.Length)
        decreases |it.Remaining()| + (if more then 1 else 0)
      {
        ghost var rest, before, reprBefore := it.Remaining(), data.Length, Repr;
        ok, more := AddNext(it, fuel);
        assert Repr - old(Repr) <= (Repr - reprBefore) + (reprBefore - old(Repr));
        ReachableTransitive(old(data.Length), before, data.Length);
        if !ok {
          return;
        }
        if more {
          MoveFront(done, rest);
          SetOfSnoc(done, rest[0]);
          done := done + [rest[0]];
        }
      }
    }

    /** One step of that loop: the next value of `it`, if any, added to this set. */
    method AddNext(it: LinkedList.Iter<T>, fuel: nat) returns (ok: bool, more: bool)
      requires Valid() && it !in Repr
      modifies Repr, it
      ensures Valid() && fresh(Repr - old(Repr)) && it !in Repr
      ensures Reachable(old(data.Length), data.Length)
      ensures more <==> old(it.Remaining()) != []
      ensures !more ==> ok && Elements == old(Elements) && it.Remaining() == []
      ensures more ==> it.Remaining() == old(it.Remaining())[1..]
      ensures more && ok ==> Elements == old(Elements) + {old(it.Remaining())[0]}
      decreases fuel, 2
    {
      var next := it.Next();
      ok, more := true, next.Some?;
      if more {
        ok := Add(next.value, fuel);
      }
    }

    /**
     * `add`: nothing changes if the home bucket holds `element`; a full home
     * bucket makes the table grow and the add start again; otherwise the value
     * is pushed onto its bucket and counted. `fuel` bounds the retries.
     */
    method Add(element: T, fuel: nat) returns (ok: bool)
      requires Valid()
      modifies Repr
      ensures Valid() && fresh(Repr - old(Repr))
      ensures Reachable(old(data.Length), data.Length)
      ensures ok ==> Elements == old(Elements) + {element}
      ensures !ok ==> Elements == old(Elements)
      ensures element in old(Elements) ==>
                ok && data == old(data) && Buckets == old(Buckets) && insertedElements == old(insertedElements)
      ensures |old(Buckets)[HomeIndex(hash, element, |old(Buckets)|)]| < COLLISION_LIMIT ==> ok && data == old(data)
      ensures element !in old(Elements) && |old(Buckets)[HomeIndex(hash, element, |old(Buckets)|)]| < COLLISION_LIMIT ==>
                Buckets == old(Buckets)[HomeIndex(hash, element, |old(Buckets)|) :=
                                          [element] + old(Buckets)[HomeIndex(hash, element, |old(Buckets)|)]] &&
                insertedElements == old(insertedElements) + 1
      decreases fuel, 1
    {
      var bucket := GetBucket(element);
      var list := data[bucket];
      MemberAtHome(Buckets, hash, element);
      if LinkedList.Contains(list, element) {
        return true;
      }
      if list.Len() >= COLLISION_LIMIT {
        if fuel == 0 {
          return false;
        }
        ghost var oldLength := data.Length;
        ok := Resize(fuel - 1);
        if ok {
          ghost var grown := data.Length;
          ok := Add(element, fuel - 1);
          ReachableTransitive(NextCapacityStep(oldLength), grown, data.Length);
        }
        return;
      }
      PushChain(Buckets, hash, bucket, element);
      list.Push(element);
      Buckets := Buckets[bucket := [element] + Buckets[bucket]];
      Elements := Elements + {element};
      insertedElements := insertedElements + 1;
      ok := true;
    }

    /** `new`: a set with `next_capacity_step(input.len())` buckets, then each input value added. */
    static method New(hash: T -> nat, input: seq<T>, fuel: nat) returns (s: BucketSet<T>, ok: bool)
      ensures fresh(s.Repr) && s.Valid() && s.hash == hash
      ensures Reachable(NextCapacityStep(|input|), s.data.Length)
      ensures s.Elements <= set x | x in input
      ensures ok ==> s.Elements == (set x | x in input) && s.insertedElements == |set x | x in input|
    {
      s := new BucketSet.WithCapacity(hash, NextCapacityStep(|input|));
      ok := true;
      for i := 0 to |input|
        invariant fresh(s.Repr) && s.Valid() && s.hash == hash
        invariant Reachable(NextCapacityStep(|input|), s.data.Length)
        invariant s.Elements == set x | x in input[..i]
      {
        ghost var before := s.data.Length;
        ok := s.Add(input[i], fuel);
        ReachableTransitive(NextCapacityStep(|input|), before, s.data.Length);
        assert input[..i + 1] == input[..i] + [input[i]];
        if !ok {
          return;
        }
      }
      assert input[..|input|] == input;
      s.CountIsSize();
    }

    /** `from_iter`: `new(&[])`, then each value added in order. */
    static method FromIter(hash: T -> nat, xs: seq<T>, fuel: nat) returns (s: BucketSet<T>, ok: bool)
      ensures fresh(s.Repr) && s.Valid() && s.hash == hash
      ensures Reachable(4, s.data.Length)
      ensures s.Elements <= set x | x in xs
      ensures ok ==> s.Elements == set x | x in xs
    {
      s, ok := New(hash, [], fuel);
      for i := 0 to |xs|
        invariant fresh(s.Repr) && s.Valid() && s.hash == hash
        invariant Reachable(4, s.data.Length)
        invariant s.Elements == set x | x in xs[..i]
      {
        ghost var before := s.data.Length;
        ok := s.Add(xs[i], fuel);
        ReachableTransitive(4, before, s.data.Length);
        assert xs[..i + 1] == xs[..i] + [xs[i]];
        if !ok {
          return;
        }
      }
      assert xs[..|xs|] == xs;
      ok := true;
    }

    /** The values of the buckets from `k` on, skipping empty lists. */
    function ValuesFrom(k: nat): (vs: seq<T>)
      reads this, Repr
      requires Valid() && k <= data.Length
      ensures vs == Flatten(Buckets[k..])
      decreases data.Length - k
    {
      if k == data.Length then
        []
      else
        assert Buckets[k..][1..] == Buckets[k + 1..];
        (if data[k].IsEmpty() then [] else data[k].Contents()) + ValuesFrom(k + 1)
    }

    /** `values`: every stored value exactly once. */
    function Values(): (vs: seq<T>)
      reads this, Repr
      requires Valid()
      ensures NoDup(vs) && |vs| == insertedElements
      ensures forall x :: x in vs ==> x in Elements
      ensures forall x :: x in Elements ==> x in vs
    {
      assert Buckets[0..] == Buckets;
      WellChainedCount(Buckets, hash);
      SetOfFlatten(Buckets);
      ValuesFrom(0)
    }

    /** `vs.iter().all(|e| self.contains(e) == want)`. */
    function AllHaveMembership(vs: seq<T>, want: bool): (b: bool)
      reads this, Repr
      requires Valid()
      ensures b <==> forall x :: x in vs ==> (x in Elements) == want
    {
      if vs == [] then true else (Contains(vs[0]) == want) && AllHaveMembership(vs[1..], want)
    }

    /** `is_subset`: more stored values than `other` means no; else every value is in `other`. */
    function IsSubset(other: BucketSet<T>): (b: bool)
      reads this, Repr, other, other.Repr
      requires Valid() && other.Valid()
      ensures b <==> Elements <= other.Elements
    {
      CountIsSize();
      other.CountIsSize();
      if insertedElements > other.insertedElements then
        assert !(Elements <= other.Elements) by {
          if Elements <= other.Elements {
            SubsetSameSize(Elements, other.Elements);
          }
        }
        false
      else
        other.AllHaveMembership(Values(), true)
    }

    /** `is_empty`: no value has been inserted. */
    function IsEmpty(): (b: bool)
      reads this, Repr
      requires Valid()
      ensures b <==> Elements == {}
    {
      CountIsSize();
      insertedElements == 0
    }

    /** `is_disjoint`: no value is in `other`. */
    function IsDisjoint(other: BucketSet<T>): (b: bool)
      reads this, Repr, other, other.Repr
      requires Valid() && other.Valid()
      ensures b <==> Elements * other.Elements == {}
    {
      var r := other.AllHaveMembership(Values(), false);
      assert r <==> Elements * other.Elements == {} by {
        if !r {
          var x :| x in Values() && x in other.Elements;
          assert x in Elements * other.Elements;
        }
      }
      r
    }

    /** `eq`: the same count, and a subset of `other`. */
    function Eq(other: BucketSet<T>): (b: bool)
      reads this, Repr, other, other.Repr
      requires Valid() && other.Valid()
      ensures b <==> Elements == other.Elements
    {
      CountIsSize();
      other.CountIsSize();
      if insertedElements != other.insertedElements then
        false
      else
        assert IsSubset(other) <==> Elements == other.Elements by {
          if IsSubset(other) {
            SubsetSameSize(Elements, other.Elements);
          }
        }
        IsSubset(other)
    }

    /** The `filter(|e| other.contains(e) == keep)` of a value sequence. */
    method Filter(vs: seq<T>, other: BucketSet<T>, keep: bool) returns (kept: seq<T>)
      requires other.Valid()
      ensures forall x :: x in kept <==> x in vs && (x in other.Elements) == keep
    {
      kept := [];
      for i := 0 to |vs|
        invariant forall x :: x in kept <==> x in vs[..i] && (x in other.Elements) == keep
      {
        assert vs[..i + 1] == vs[..i] + [vs[i]];
        if other.Contains(vs[i]) == keep {
          kept := kept + [vs[i]];
        }
      }
      assert vs[..|vs|] == vs;
    }

    /** `intersection`: the values that `other` also contains, collected into a new set. */
    method Intersection(other: BucketSet<T>, fuel: nat) returns (r: BucketSet<T>, ok: bool)
      requires Valid() && other.Valid()
      ensures fresh(r.Repr) && r.Valid() && r.hash == hash
      ensures r.Elements <= Elements * other.Elements
      ensures ok ==> r.Elements == Elements * other.Elements
    {
      var kept := Filter(Values(), other, true);
      r, ok := FromIter(hash, kept, fuel);
    }

    /** `difference`: the values that `other` lacks, collected into a new set. */
    method Difference(other: BucketSet<T>, fuel: nat) returns (r: BucketSet<T>, ok: bool)
      requires Valid() && other.Valid()
      ensures fresh(r.Repr) && r.Valid() && r.hash == hash
      ensures r.Elements <= Elements - other.Elements
      ensures ok ==> r.Elements == Elements - other.Elements
    {
      var kept := Filter(Values(), other, false);
      r, ok := FromIter(hash, kept, fuel);
    }

    /** `union`: the values of this set, then those of `other`, collected into a new set. */
    method Union(other: BucketSet<T>, fuel: nat) returns (r: BucketSet<T>, ok: bool)
      requires Valid() && other.Valid()
      ensures fresh(r.Repr) && r.Valid() && r.hash == hash
      ensures r.Elements <= Elements + other.Elements
      ensures ok ==> r.Elements == Elements + other.Elements
    {
      r, ok := FromIter(hash, Values() + other.Values(), fuel);
    }
  }
}
