/**
  The node chain behind both singly-linked lists
  (data-structures/linked-list/src/lib.rs and src/linked_list.rs).

  The source's `Option<Box<Node<T>>>` is an exclusively owned chain: no node is
  shared, so the chain is a value. `Nil` stands for `None`, `Node(v, next)` for
  `Some(Box::new(Node { value: v, next }))`.
*/
module Nodes {

  datatype Item<T> = Nil | Node(value: T, next: Item<T>)

  /** Rust's `Option`, for the values `pop`, `peek` and `next` hand out. */
  datatype Option<T> = None | Some(value: T)

  /** The values of a chain, head to tail. */
  function Elements<T>(head: Item<T>): seq<T>
  {
    match head
    case Nil => []
    case Node(v, next) => [v] + Elements(next)
  }

  /** The sequence read back to front. */
  function Reverse<T>(s: seq<T>): (r: seq<T>)
    ensures |r| == |s|
  {
    if s == [] then [] else Reverse(s[1..]) + [s[0]]
  }

  /** Reverse puts the element at position `k` at position `|s| - 1 - k`. */
  lemma {:induction false} ReverseAt<T>(s: seq<T>, k: nat)
    requires k < |s|
    ensures Reverse(s)[|s| - 1 - k] == s[k]
  {
    if k > 0 {
      ReverseAt(s[1..], k - 1);
    }
  }

  /** Appending at the back is prepending to the reverse. */
  lemma {:induction false} ReverseSnoc<T>(s: seq<T>, x: T)
    ensures Reverse(s + [x]) == [x] + Reverse(s)
  {
    if s == [] {
      assert s + [x] == [x];
    } else {
      assert (s + [x])[1..] == s[1..] + [x];
      ReverseSnoc(s[1..], x);
    }
  }

  /** Reversing twice gives back the original sequence. */
  lemma {:induction false} ReverseInvolution<T>(s: seq<T>)
    ensures Reverse(Reverse(s)) == s
  {
    if s != [] {
      ReverseInvolution(s[1..]);
      ReverseSnoc(Reverse(s[1..]), s[0]);
      assert [s[0]] + s[1..] == s;
    }
  }
}
