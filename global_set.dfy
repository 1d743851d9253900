/**
  The open-addressing hash set of src/global_set.rs (`GlobalSet`): a vector of
  optional slots, searched by a bounded linear probe from the element's home
  slot, plus a count of the stored elements. Nothing is ever removed.

  The hash is the set's `hash` function, fixed when the set is made; the source
  uses the standard library's hasher, which is deterministic for a given type.
*/
module OpenAddressing {
  import opened Nodes
  import opened Growth
  import opened SetFacts

  /** The three outcomes of `index_for`. */
  datatype IndexResult = Existing(index: nat) | Empty(index: nat) | CollisionLimitReached

  /** The slot examined after `k` collisions: `(home + k) mod n`, the source's `wrap_index`. */
  function Slot(n: nat, home: nat, k: nat): (i: nat)
    requires n > 0
    ensures i < n
  {
    (home + k) % n
  }

  /** The probe from `home` walks over slots `k .. j-1`: each is occupied by a
      value other than `x`. */
  ghost predicate Passes<T>(s: seq<Option<T>>, x: T, home: nat, k: nat, j: nat)
    requires |s| > 0
  {
    forall m :: k <= m < j ==> s[Slot(|s|, home, m)].Some? && s[Slot(|s|, home, m)].value != x
  }

  /** The probe loop of `index_for`, after `k` collisions. */
  function Probe<T(==)>(s: seq<Option<T>>, x: T, home: nat, k: nat): (r: IndexResult)
    requires |s| > 0 && k < COLLISION_LIMIT
    ensures r.Existing? ==> r.index < |s| && s[r.index] == Some(x)
    ensures r.Empty? ==> r.index < |s| && s[r.index].None?
    decreases COLLISION_LIMIT - k
  {
    var i := Slot(|s|, home, k);
    match s[i]
    case None => Empty(i)
    case Some(v) =>
      if v == x then Existing(i)
      else if k + 1 >= COLLISION_LIMIT then CollisionLimitReached
      else Probe(s, x, home, k + 1)
  }

  /** `index_for` on a snapshot of the slots. */
  function Lookup<T(==)>(s: seq<Option<T>>, hash: T -> nat, x: T): (r: IndexResult)
    requires |s| > 0
    ensures r.Existing? ==> r.index < |s| && s[r.index] == Some(x)
    ensures r.Empty? ==> r.index < |s| && s[r.index].None?
    ensures s[HomeIndex(hash, x, |s|)].None? ==> r == Empty(HomeIndex(hash, x, |s|))
    ensures s[HomeIndex(hash, x, |s|)] == Some(x) ==> r == Existing(HomeIndex(hash, x, |s|))
  {
    Probe(s, x, HomeIndex(hash, x, |s|), 0)
  }

  /** The values held by the slots. */
  ghost function SlotSet<T>(s: seq<Option<T>>): set<T>
  {
    set i | 0 <= i < |s| && s[i].Some? :: s[i].value
  }

  /** Slot `i` holds a value. */
  ghost predicate Stored<T>(s: seq<Option<T>>, i: int)
  {
    0 <= i < |s| && s[i].Some?
  }

  /** The table invariant: looking up any stored value finds it in its own slot. */
  ghost predicate Findable<T>(s: seq<Option<T>>, hash: T -> nat)
  {
    |s| > 0 &&
    forall i {:trigger Stored(s, i)} :: Stored(s, i) ==> Lookup(s, hash, s[i].value) == Existing(i)
  }

  /** The number of occupied slots. */
  function Occupied<T>(s: seq<Option<T>>): nat
  {
    if s == [] then 0 else Occupied(s[..|s| - 1]) + (if s[|s| - 1].Some? then 1 else 0)
  }

  /** No value is held by two slots. */
  ghost predicate DistinctSlots<T>(s: seq<Option<T>>)
  {
    forall i, j :: 0 <= i < |s| && 0 <= j < |s| && s[i].Some? && s[j].Some? && s[i].value == s[j].value ==> i == j
  }

  lemma SlotSetSnoc<T>(s: seq<Option<T>>, i: nat)
    requires i < |s|
    ensures SlotSet(s[..i + 1]) == SlotSet(s[..i]) + (if s[i].Some? then {s[i].value} else {})
  {
    assert forall j :: 0 <= j < i ==> s[..i + 1][j] == s[..i][j];
  }

  /** A table of empty slots satisfies the invariant and holds nothing. */
  lemma {:induction false} EmptyTable<T>(s: seq<Option<T>>, hash: T -> nat)
    requires |s| > 0 && forall i :: 0 <= i < |s| ==> s[i].None?
    ensures Findable(s, hash) && SlotSet(s) == {} && Occupied(s) == 0
  {
    NoneOccupied(s);
  }

  lemma {:induction false} NoneOccupied<T>(s: seq<Option<T>>)
    requires forall i :: 0 <= i < |s| ==> s[i].None?
    ensures Occupied(s) == 0
  {
    if s != [] {
      NoneOccupied(s[..|s| - 1]);
    }
  }

  /** Filling an empty slot adds one occupied slot. */
  lemma {:induction false} FillOccupied<T>(s: seq<Option<T>>, e: nat, x: T)
    requires e < |s| && s[e].None?
    ensures Occupied(s[e := Some(x)]) == Occupied(s) + 1
  {
    var n := |s| - 1;
    var s' := s[e := Some(x)];
    if e == n {
      assert s'[..n] == s[..n];
    } else {
      assert s'[..n] == s[..n][e := Some(x)];
      FillOccupied(s[..n], e, x);
    }
  }

  /** Under the invariant, a lookup reports `Existing` exactly for stored values. */
  lemma LookupFindsStored<T>(s: seq<Option<T>>, hash: T -> nat, x: T)
    requires Findable(s, hash)
    ensures Lookup(s, hash, x).Existing? <==> x in SlotSet(s)
  {
    if x in SlotSet(s) {
      var i :| 0 <= i < |s| && s[i].Some? && s[i].value == x;
      assert Stored(s, i);
    }
  }

  /** Filling an empty slot does not change a probe that found its value. */
  lemma {:induction false} ProbeAfterFill<T>(s: seq<Option<T>>, x: T, e: nat, v: T, home: nat, k: nat)
    requires |s| > 0 && k < COLLISION_LIMIT && e < |s| && s[e].None?
    requires Probe(s, v, home, k).Existing?
    ensures Probe(s[e := Some(x)], v, home, k) == Probe(s, v, home, k)
    decreases COLLISION_LIMIT - k
  {
    var i := Slot(|s|, home, k);
    assert s[e := Some(x)][i] == s[i];
    if s[i].value != v {
      ProbeAfterFill(s, x, e, v, home, k + 1);
    }
  }

  /** After the slot a probe reported `Empty` is filled with `x`, the probe finds `x` there. */
  lemma {:induction false} ProbeFindsFilled<T>(s: seq<Option<T>>, x: T, home: nat, k: nat)
    requires |s| > 0 && k < COLLISION_LIMIT
    requires Probe(s, x, home, k).Empty?
    ensures Probe(s[Probe(s, x, home, k).index := Some(x)], x, home, k) == Existing(Probe(s, x, home, k).index)
    decreases COLLISION_LIMIT - k
  {
    var e := Probe(s, x, home, k).index;
    var i := Slot(|s|, home, k);
    if s[i].Some? {
      assert s[e := Some(x)][i] == s[i];
      ProbeFindsFilled(s, x, home, k + 1);
    }
  }

  /** `add`'s `Empty` branch keeps the invariant and adds exactly `x`, which was absent. */
  lemma FillKeepsFindable<T>(s: seq<Option<T>>, hash: T -> nat, x: T, e: nat)
    requires Findable(s, hash) && Lookup(s, hash, x) == Empty(e)
    ensures x !in SlotSet(s)
    ensures Findable(s[e := Some(x)], hash)
    ensures SlotSet(s[e := Some(x)]) == SlotSet(s) + {x}
  {
    LookupFindsStored(s, hash, x);
    var s' := s[e := Some(x)];
    forall i | 0 <= i < |s'| && s'[i].Some?
      ensures Lookup(s', hash, s'[i].value) == Existing(i)
    {
      if i == e {
        ProbeFindsFilled(s, x, HomeIndex(hash, x, |s|), 0);
      } else {
        var v := s[i].value;
        assert Stored(s, i);
        ProbeAfterFill(s, x, e, v, HomeIndex(hash, v, |s|), 0);
      }
    }
    assert SlotSet(s') == SlotSet(s) + {x} by {
      forall y | y in SlotSet(s) ensures y in SlotSet(s') {
        var i :| 0 <= i < |s| && s[i].Some? && s[i].value == y;
        assert s'[i] == s[i];
      }
      assert s'[e] == Some(x);
    }
  }

  /** The probe from `home` examines only slots `k .. COLLISION_LIMIT - 1`; every
      slot it walks over holds another value. */
  lemma {:induction false} ProbePath<T>(s: seq<Option<T>>, x: T, home: nat, k: nat)
    requires |s| > 0 && k < COLLISION_LIMIT
    ensures !Probe(s, x, home, k).CollisionLimitReached? ==>
              exists j :: k <= j < COLLISION_LIMIT && Probe(s, x, home, k).index == Slot(|s|, home, j)
                          && Passes(s, x, home, k, j)
    ensures Probe(s, x, home, k).CollisionLimitReached? ==> Passes(s, x, home, k, COLLISION_LIMIT)
    decreases COLLISION_LIMIT - k
  {
    var i := Slot(|s|, home, k);
    if s[i].None? || s[i].value == x {
      assert Passes(s, x, home, k, k);
    } else if k + 1 < COLLISION_LIMIT {
      ProbePath(s, x, home, k + 1);
      var r := Probe(s, x, home, k + 1);
      if r.CollisionLimitReached? {
        assert Passes(s, x, home, k, COLLISION_LIMIT);
      } else {
        var j :| k + 1 <= j < COLLISION_LIMIT && r.index == Slot(|s|, home, j) && Passes(s, x, home, k + 1, j);
        assert Passes(s, x, home, k, j);
      }
    }
  }

  /** Every stored value sits `k < COLLISION_LIMIT` slots past its home, and the
      slots in between hold other values. */
  lemma StoredNearHome<T>(s: seq<Option<T>>, hash: T -> nat, i: nat)
    requires Findable(s, hash) && i < |s| && s[i].Some?
    ensures exists k :: 0 <= k < COLLISION_LIMIT && i == Slot(|s|, HomeIndex(hash, s[i].value, |s|), k)
                        && Passes(s, s[i].value, HomeIndex(hash, s[i].value, |s|), 0, k)
  {
    assert Stored(s, i);
    ProbePath(s, s[i].value, HomeIndex(hash, s[i].value, |s|), 0);
  }

  /** The invariant implies that no value is stored twice. */
  lemma FindableDistinct<T>(s: seq<Option<T>>, hash: T -> nat)
    requires Findable(s, hash)
    ensures DistinctSlots(s)
  {
    forall i, j | 0 <= i < |s| && 0 <= j < |s| && s[i].Some? && s[j].Some? && s[i].value == s[j].value
      ensures i == j
    {
      assert Stored(s, i) && Stored(s, j);
    }
  }

  /** With no value stored twice, the occupied slots are as many as the stored values. */
  lemma {:induction false} DistinctOccupied<T>(s: seq<Option<T>>)
    requires DistinctSlots(s)
    ensures Occupied(s) == |SlotSet(s)|
  {
    if s != [] {
      var n := |s| - 1;
      var p := s[..n];
      assert DistinctSlots(p) by {
        forall i | 0 <= i < |p| ensures p[i] == s[i] { }
      }
      DistinctOccupied(p);
      SlotSetSnoc(s, n);
      assert s[..n + 1] == s;
      if s[n].Some? {
        forall i | 0 <= i < |p| && p[i].Some? ensures p[i].value != s[n].value {
          assert s[i] == p[i];
        }
      }
    }
  }

  /** Under the table invariant the stored count is the number of occupied slots. */
  lemma OccupiedIsCount<T>(s: seq<Option<T>>, hash: T -> nat)
    requires Findable(s, hash)
    ensures Occupied(s) == |SlotSet(s)|
  {
    FindableDistinct(s, hash);
    DistinctOccupied(s);
  }

  /** `all(|e| other.contains(e) == want)` over the values of `s`, looking them up in `t`. */
  function AllLookups<T(==)>(s: seq<Option<T>>, t: seq<Option<T>>, hash: T -> nat, want: bool): (b: bool)
    requires |t| > 0
    ensures b <==> forall i :: 0 <= i < |s| && s[i].Some? ==> Lookup(t, hash, s[i].value).Existing? == want
  {
    if s == [] then true
    else (s[0].None? || Lookup(t, hash, s[0].value).Existing? == want) && AllLookups(s[1..], t, hash, want)
  }

  /** The value of slot `o` if it is present and its membership in `b` is `keep`. */
  ghost function Kept<T>(o: Option<T>, b: set<T>, keep: bool): set<T>
  {
    if o.Some? && (o.value in b) == keep then {o.value} else {}
  }

  /** The stored values of `s` whose membership in `b` is `keep`. */
  ghost function Filtered<T>(s: seq<Option<T>>, b: set<T>, keep: bool): set<T>
  {
    if keep then SlotSet(s) * b else SlotSet(s) - b
  }

  /** One slot more of a scan. */
  lemma FilterStep<T>(s: seq<Option<T>>, i: nat, b: set<T>, keep: bool)
    requires i < |s|
    ensures Filtered(s[..i + 1], b, keep) == Filtered(s[..i], b, keep) + Kept(s[i], b, keep)
    ensures SlotSet(s[..i + 1]) == SlotSet(s[..i]) + (if s[i].Some? then {s[i].value} else {})
  {
    SlotSetSnoc(s, i);
  }

  /** A scan that stops early has kept no more than a full one. */
  lemma FilteredPrefix<T>(s: seq<Option<T>>, i: nat, b: set<T>, keep: bool)
    requires i <= |s|
    ensures Filtered(s[..i], b, keep) <= Filtered(s, b, keep)
  {
    forall x | x in SlotSet(s[..i]) ensures x in SlotSet(s) {
      var j :| 0 <= j < i && s[..i][j].Some? && s[..i][j].value == x;
      assert s[j] == s[..i][j];
    }
  }

  class GlobalSet<T(==)> {
    const hash: T -> nat
    var data: array<Option<T>>
    var insertedElements: nat

    /** The capacity is at least 4, the slots satisfy the probe invariant, and the
        count is the number of occupied slots. */
    ghost predicate Valid()
      reads this, data
    {
      data.Length >= 4 && Findable(data[..], hash) && insertedElements == Occupied(data[..])
    }

    /** The mathematical set the table stands for. */
    ghost function Elements(): set<T>
      reads this, data
    {
      SlotSet(data[..])
    }

    /** The count is the size of the set. */
    lemma CountIsSize()
      requires Valid()
      ensures insertedElements == |Elements()|
    {
      OccupiedIsCount(data[..], hash);
    }

    /** The struct literal `Self { data: vec![None; capacity], inserted_elements: 0 }`. */
    constructor WithCapacity(hash: T -> nat, capacity: nat)
      requires capacity >= 4
      ensures Valid() && fresh(data)
      ensures this.hash == hash && data.Length == capacity && Elements() == {}
    {
      this.hash := hash;
      data := new Option<T>[capacity](_ => None);
      insertedElements := 0;
      new;
      EmptyTable(data[..], hash);
    }

    /** `#[derive(Clone)]`: a copy with its own slot vector. */
    constructor Clone(other: GlobalSet<T>)
      requires other.Valid()
      ensures Valid() && fresh(data)
      ensures hash == other.hash && data[..] == other.data[..] && insertedElements == other.insertedElements
    {
      hash := other.hash;
      var src := other.data;
      data := new Option<T>[src.Length](i requires 0 <= i < src.Length reads src => src[i]);
      insertedElements := other.insertedElements;
      new;
      assert data[..] == other.data[..];
    }

    /** `index_for`: the bounded linear probe. */
    method IndexFor(input: T) returns (r: IndexResult)
      requires data.Length > 0
      ensures r == Lookup(data[..], hash, input)
    {
      var listSize := data.Length;
      var index := hash(input) % listSize;
      var collisions := 0;
      while data[Slot(listSize, index, collisions)].Some?
        invariant 0 <= collisions < COLLISION_LIMIT
        invariant Probe(data[..], input, index, collisions) == Lookup(data[..], hash, input)
        decreases COLLISION_LIMIT - collisions
      {
        if data[Slot(listSize, index, collisions)].value == input {
          return Existing(Slot(listSize, index, collisions));
        }
        collisions := collisions + 1;
        if collisions >= COLLISION_LIMIT {
          return CollisionLimitReached;
        }
      }
      r := Empty(Slot(listSize, index, collisions));
    }

    /** `contains`: the probe reports `Existing`. */
    method Contains(element: T) returns (b: bool)
      requires Valid()
      ensures b <==> element in Elements()
    {
      var r := IndexFor(element);
      LookupFindsStored(data[..], hash, element);
      b := r.Existing?;
    }

    /** `resize`: swaps in an empty table of the next capacity and re-adds every
        stored value, recounting from zero. If the fuel runs out on the way, the
        old table is put back. */
    method Resize(fuel: nat) returns (ok: bool)
      requires Valid()
      modifies this, data
      ensures Valid() && Elements() == old(Elements())
      ensures ok ==> fresh(data) && Reachable(NextCapacityStep(old(data.Length)), data.Length)
      ensures !ok ==> data == old(data) && data[..] == old(data[..]) && insertedElements == old(insertedElements)
      decreases fuel, 2
    {
      var newCapacity := NextCapacityStep(data.Length);
      var oldVec, oldCount := data, insertedElements;
      ghost var oldSlots := data[..];
      data := new Option<T>[newCapacity](_ => None);
      insertedElements := 0;
      EmptyTable(data[..], hash);
      var i := 0;
      while i < oldVec.Length
        invariant 0 <= i <= oldVec.Length
        invariant oldVec[..] == oldSlots
        invariant fresh(data) && Valid()
        invariant Elements() == SlotSet(oldSlots[..i])
        invariant Reachable(newCapacity, data.Length)
      {
        SlotSetSnoc(oldSlots, i);
        if oldVec[i].Some? {
          ghost var before := data.Length;
          ok := Add(oldVec[i].value, fuel);
          ReachableTransitive(newCapacity, before, data.Length);
          if !ok {
            data, insertedElements := oldVec, oldCount;
            return;
          }
        }
        i := i + 1;
      }
      assert oldSlots[..i] == oldSlots;
      ok := true;
    }

    /** `add`: fills the empty slot the probe found, does nothing if the value is
        already there, and otherwise grows the table and tries again (with one
        unit of fuel less). On `ok = false` the set of values is unchanged. */
    method Add(element: T, fuel: nat) returns (ok: bool)
      requires Valid()
      modifies this, data
      ensures Valid()
      ensures data == old(data) || fresh(data)
      ensures Reachable(old(data.Length), data.Length)
      ensures ok ==> Elements() == old(Elements()) + {element}
      ensures !ok ==> Elements() == old(Elements())
      ensures element in old(Elements()) ==>
                ok && data == old(data) && data[..] == old(data[..]) && insertedElements == old(insertedElements)
      ensures !Lookup(old(data[..]), hash, element).CollisionLimitReached? ==> ok && data == old(data)
      ensures Lookup(old(data[..]), hash, element).Empty? ==>
                data[..] == old(data[..])[Lookup(old(data[..]), hash, element).index := Some(element)] &&
                insertedElements == old(insertedElements) + 1
      decreases fuel, 1
    {
      var r := IndexFor(element);
      LookupFindsStored(data[..], hash, element);
      match r
      case Existing(_) =>
        ok := true;
      case Empty(index) =>
        FillKeepsFindable(data[..], hash, element, index);
        FillOccupied(data[..], index, element);
        data[index] := Some(element);
        insertedElements := insertedElements + 1;
        ok := true;
      case CollisionLimitReached =>
        if fuel == 0 {
          ok := false;
          return;
        }
        ghost var oldLength := data.Length;
        ok := Resize(fuel - 1);
        if ok {
          ghost var grown := data.Length;
          ok := Add(element, fuel - 1);
          ReachableTransitive(NextCapacityStep(oldLength), grown, data.Length);
        }
    }

    /** `new`: a table of capacity `next_capacity_step(input.len())` with every
        input value added in turn. */
    static method New(hash: T -> nat, input: seq<T>, fuel: nat) returns (s: GlobalSet<T>, ok: bool)
      ensures fresh(s) && fresh(s.data) && s.Valid() && s.hash == hash
      ensures Reachable(NextCapacityStep(|input|), s.data.Length)
      ensures s.Elements() <= set x | x in input
      ensures ok ==> s.Elements() == (set x | x in input) && s.insertedElements == |set x | x in input|
    {
      s := new GlobalSet.WithCapacity(hash, NextCapacityStep(|input|));
      for i := 0 to |input|
        invariant fresh(s) && fresh(s.data) && s.Valid() && s.hash == hash
        invariant Reachable(NextCapacityStep(|input|), s.data.Length)
        invariant s.Elements() == set x | x in input[..i]
      {
        ghost var before := s.data.Length;
        ok := s.Add(input[i], fuel);
        ReachableTransitive(NextCapacityStep(|input|), before, s.data.Length);
        assert input[..i + 1] == input[..i] + [input[i]];
        if !ok {
          return;
        }
      }
      assert input[..|input|] == input;
      s.CountIsSize();
      ok := true;
    }

    /** `is_subset`: rejects at once on a larger count, otherwise checks every
        stored value against `other`. */
    function IsSubset(other: GlobalSet<T>): (b: bool)
      reads this, data, other, other.data
      requires Valid() && other.Valid()
      ensures b <==> Elements() <= other.Elements()
    {
      CountIsSize();
      other.CountIsSize();
      if insertedElements > other.insertedElements then
        assert !(Elements() <= other.Elements()) by {
          if Elements() <= other.Elements() {
            SubsetSameSize(Elements(), other.Elements());
          }
        }
        false
      else
        assert AllLookups(data[..], other.data[..], other.hash, true) <==> Elements() <= other.Elements() by {
          forall x ensures Lookup(other.data[..], other.hash, x).Existing? <==> x in other.Elements() {
            LookupFindsStored(other.data[..], other.hash, x);
          }
        }
        AllLookups(data[..], other.data[..], other.hash, true)
    }

    /** `is_empty`: the count is zero. */
    function IsEmpty(): (b: bool)
      reads this, data
      requires Valid()
      ensures b <==> Elements() == {}
    {
      CountIsSize();
      insertedElements == 0
    }

    /** `is_disjoint`: no stored value is found in `other`. */
    function IsDisjoint(other: GlobalSet<T>): (b: bool)
      reads this, data, other, other.data
      requires Valid() && other.Valid()
      ensures b <==> Elements() !! other.Elements()
    {
      assert AllLookups(data[..], other.data[..], other.hash, false) <==> Elements() !! other.Elements() by {
        forall x ensures Lookup(other.data[..], other.hash, x).Existing? <==> x in other.Elements() {
          LookupFindsStored(other.data[..], other.hash, x);
        }
      }
      AllLookups(data[..], other.data[..], other.hash, false)
    }

    /** `PartialEq::eq`: equal counts and `is_subset`. */
    function Eq(other: GlobalSet<T>): (b: bool)
      reads this, data, other, other.data
      requires Valid() && other.Valid()
      ensures b <==> Elements() == other.Elements()
    {
      CountIsSize();
      other.CountIsSize();
      if insertedElements != other.insertedElements then
        false
      else
        assert IsSubset(other) ==> Elements() == other.Elements() by {
          if IsSubset(other) {
            SubsetSameSize(Elements(), other.Elements());
          }
        }
        IsSubset(other)
    }

    /**
     * The loop body shared by `intersection` and `difference`: the value in
     * slot `i`, if any, goes into `r` when its membership in `other` is `keep`.
     */
    method CopyIfMember(i: nat, other: GlobalSet<T>, keep: bool, r: GlobalSet<T>, fuel: nat) returns (ok: bool)
      requires Valid() && other.Valid() && r.Valid() && i < data.Length
      requires r != this && r != other && r.data != data && r.data != other.data
      requires r.Elements() == Filtered(data[..i], other.Elements(), keep)
      modifies r, r.data
      ensures r.Valid() && (r.data == old(r.data) || fresh(r.data))
      ensures ok ==> r.Elements() == Filtered(data[..i + 1], other.Elements(), keep)
      ensures !ok ==> r.Elements() == old(r.Elements())
    {
      FilterStep(data[..], i, other.Elements(), keep);
      ok := true;
      if data[i].Some? {
        var c := other.Contains(data[i].value);
        if c == keep {
          ok := r.Add(data[i].value, fuel);
        }
      }
    }

    /** `intersection`: a new set, from `new(&[])`, of the stored values `other` also contains. */
    method Intersection(other: GlobalSet<T>, fuel: nat) returns (r: GlobalSet<T>, ok: bool)
      requires Valid() && other.Valid()
      ensures fresh(r) && fresh(r.data) && r.Valid() && r.hash == hash
      ensures r.Elements() <= Elements() * other.Elements()
      ensures ok ==> r.Elements() == Elements() * other.Elements()
    {
      r, ok := New(hash, [], fuel);
      ghost var slots, theirs := data[..], other.Elements();
      for i := 0 to data.Length
        invariant fresh(r) && fresh(r.data) && r.Valid() && r.hash == hash
        invariant r.Elements() == Filtered(slots[..i], theirs, true)
      {
        ok := CopyIfMember(i, other, true, r, fuel);
        if !ok {
          FilteredPrefix(slots, i, theirs, true);
          return;
        }
      }
      assert slots[..data.Length] == slots;
      ok := true;
    }

    /** `difference`: a new set, from `new(&[])`, of the stored values `other` lacks. */
    method Difference(other: GlobalSet<T>, fuel: nat) returns (r: GlobalSet<T>, ok: bool)
      requires Valid() && other.Valid()
      ensures fresh(r) && fresh(r.data) && r.Valid() && r.hash == hash
      ensures r.Elements() <= Elements() - other.Elements()
      ensures ok ==> r.Elements() == Elements() - other.Elements()
    {
      r, ok := New(hash, [], fuel);
      ghost var slots, theirs := data[..], other.Elements();
      for i := 0 to data.Length
        invariant fresh(r) && fresh(r.data) && r.Valid() && r.hash == hash
        invariant r.Elements() == Filtered(slots[..i], theirs, false)
      {
        ok := CopyIfMember(i, other, false, r, fuel);
        if !ok {
          FilteredPrefix(slots, i, theirs, false);
          return;
        }
      }
      assert slots[..data.Length] == slots;
      ok := true;
    }

    /** `union`: a clone of this set with every value of `other` added. */
    method Union(other: GlobalSet<T>, fuel: nat) returns (r: GlobalSet<T>, ok: bool)
      requires Valid() && other.Valid()
      ensures fresh(r) && fresh(r.data) && r.Valid() && r.hash == hash
      ensures Elements() <= r.Elements() <= Elements() + other.Elements()
      ensures ok ==> r.Elements() == Elements() + other.Elements()
    {
      r := new GlobalSet.Clone(this);
      ghost var mine, slots := Elements(), other.data[..];
      for i := 0 to other.data.Length
        invariant fresh(r) && fresh(r.data) && r.Valid() && r.hash == hash
        invariant r.Elements() == mine + SlotSet(slots[..i])
      {
        FilterStep(slots, i, {}, false);
        if other.data[i].Some? {
          ok := r.Add(other.data[i].value, fuel);
          if !ok {
            return;
          }
        }
      }
      assert slots[..other.data.Length] == slots;
      ok := true;
    }
  }
}
