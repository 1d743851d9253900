/**
  The growth policy shared by the open-addressing set (src/global_set.rs) and
  the separate-chaining set (data-structures/custom-set/src/bucket_set.rs).
  Both files declare the same constant and the same capacity function.
*/
module Growth {

  /** A bucket holds at most this many elements, and a probe run examines at most
      this many occupied slots, before the table is rebuilt. */
  const COLLISION_LIMIT: nat := 2

  /** The home position of `x` in a table of `n` slots or buckets: its hash modulo `n`.
      The open-addressing probe starts here and the chaining set keeps `x` in this bucket. */
  function HomeIndex<T>(hash: T -> nat, x: T, n: nat): (i: nat)
    requires n > 0
    ensures i < n
  {
    hash(x) % n
  }

  /** `max(2 * current, 4)`: the capacity of a rebuilt table. */
  function NextCapacityStep(current: nat): (r: nat)
    ensures r >= 4 && r >= 2 * current
    ensures r == 4 || r == 2 * current
    ensures r > current
  {
    if current * 2 > 4 then current * 2 else 4
  }

  /** `to` is `from` with the growth step applied zero or more times. */
  ghost predicate Reachable(from: nat, to: nat)
    decreases to - from
  {
    from == to || (from < to && Reachable(NextCapacityStep(from), to))
  }

  /** Growing twice is growing. */
  lemma {:induction false} ReachableTransitive(a: nat, b: nat, c: nat)
    requires Reachable(a, b) && Reachable(b, c)
    ensures Reachable(a, c)
    decreases b - a
  {
    if a != b {
      ReachableTransitive(NextCapacityStep(a), b, c);
    }
  }

  /** A reachable capacity is never smaller than where it started. */
  lemma {:induction false} ReachableNeverShrinks(a: nat, b: nat)
    requires Reachable(a, b)
    ensures a <= b
    decreases b - a
  {
    if a != b {
      ReachableNeverShrinks(NextCapacityStep(a), b);
    }
  }
}
