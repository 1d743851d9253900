/** Facts about finite sets and duplicate-free sequences that both hash sets rely on. */
module SetFacts {
  /** No value occurs twice in `s`. */
  ghost predicate NoDup<T>(s: seq<T>)
  {
    forall i, j :: 0 <= i < j < |s| ==> s[i] != s[j]
  }

  /** A subset is no larger than its superset, and one of the same size is the whole of it. */
  lemma SubsetSameSize<T>(a: set<T>, b: set<T>)
    requires a <= b
    ensures |a| <= |b|
    ensures |a| == |b| ==> a == b
  {
    assert b == a + (b - a);
    assert |b| == |a| + |b - a|;
    if |a| == |b| {
      assert |b - a| == 0;
    }
  }

  /** A duplicate-free sequence has as many distinct values as it has entries. */
  lemma {:induction false} DistinctCard<T>(s: seq<T>)
    requires NoDup(s)
    ensures |set x | x in s| == |s|
  {
    if s != [] {
      assert NoDup(s[1..]) by {
        forall i, j | 0 <= i < j < |s[1..]| ensures s[1..][i] != s[1..][j] {
          assert s[1..][i] == s[i + 1] && s[1..][j] == s[j + 1];
        }
      }
      DistinctCard(s[1..]);
      assert (set x | x in s) == {s[0]} + (set x | x in s[1..]);
      assert s[0] !in (set x | x in s[1..]);
    }
  }

  /** Two duplicate-free sequences with no value in common concatenate to a duplicate-free one. */
  lemma NoDupConcat<T>(a: seq<T>, c: seq<T>)
    requires NoDup(a) && NoDup(c)
    requires forall x :: x in a ==> x !in c
    ensures NoDup(a + c)
  {
    forall i, j | 0 <= i < j < |a + c| ensures (a + c)[i] != (a + c)[j] {
      if j < |a| {
        assert (a + c)[i] == a[i] && (a + c)[j] == a[j];
      } else if i < |a| {
        assert (a + c)[i] == a[i] && (a + c)[j] == c[j - |a|];
        assert a[i] in a;
      } else {
        assert (a + c)[i] == c[i - |a|] && (a + c)[j] == c[j - |a|];
      }
    }
  }

  /** The values of `s + [x]` are those of `s` and `x`. */
  lemma SetOfSnoc<T>(s: seq<T>, x: T)
    ensures (set y | y in s + [x]) == (set y | y in s) + {x}
  {
  }

  /** Taking one value off the front of what is left moves it to the end of what is done. */
  lemma MoveFront<T>(done: seq<T>, rest: seq<T>)
    requires rest != []
    ensures (done + [rest[0]]) + rest[1..] == done + rest
  {
  }
}
