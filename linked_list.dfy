/**
  The singly-linked list of data-structures/linked-list/src/lib.rs: a stack of
  nodes owned from `head` that caches its length in `len`. It is the bucket type
  of the separate-chaining set.
*/
module LinkedList {
  import opened Nodes

  class SimpleLinkedList<T> {
    var head: Item<T>
    var len: nat

    /** The cached length is the number of nodes. */
    ghost predicate Valid()
      reads this
    {
      len == |Elements(head)|
    }

    /** The values from head to tail. */
    function Contents(): seq<T>
      reads this
    {
      Elements(head)
    }

    /** `new`: the empty list. */
    constructor ()
      ensures Valid() && Contents() == []
    {
      head, len := Nil, 0;
    }

    /** `is_empty`: no head, which is no values and a zero length. */
    function IsEmpty(): (b: bool)
      reads this
      requires Valid()
      ensures b <==> Contents() == []
      ensures b <==> Len() == 0
    {
      head.Nil?
    }

    /** `len`: the cached count. */
    function Len(): (n: nat)
      reads this
      requires Valid()
      ensures n == |Contents()|
    {
      len
    }

    /** `push`: the new value becomes the head and the count grows by one. */
    method Push(element: T)
      requires Valid()
      modifies this
      ensures Valid()
      ensures Contents() == [element] + old(Contents())
      ensures len == old(len) + 1
    {
      head := Node(element, head);
      len := len + 1;
    }

    /** `pop`: removes and returns the head value. On an empty list the `?`
        returns before the decrement, so nothing changes. */
    method Pop() returns (r: Option<T>)
      requires Valid()
      modifies this
      ensures Valid()
      ensures old(Contents()) == [] ==> r == None && Contents() == [] && len == old(len)
      ensures old(Contents()) != [] ==>
                && r == Some(old(Contents())[0])
                && Contents() == old(Contents())[1..]
                && len == old(len) - 1
    {
      match head
      case Nil =>
        r := None;
      case Node(v, next) =>
        head := next;
        len := len - 1;
        r := Some(v);
    }

    /** `peek`: the head value, if any, without removing it. */
    function Peek(): (r: Option<T>)
      reads this
      ensures r.None? <==> Contents() == []
      ensures r.Some? ==> r.value == Contents()[0]
    {
      match head
      case Nil => None
      case Node(v, _) => Some(v)
    }

    /** `rev`: a new list holding the values in the opposite order, with the same
        length. The source consumes `self`; here the original is only read. */
    method Rev() returns (r: SimpleLinkedList<T>)
      requires Valid()
      ensures fresh(r) && r.Valid()
      ensures r.Contents() == Reverse(Contents())
      ensures r.Len() == Len()
    {
      r := new SimpleLinkedList();
      var next := head;
      while next.Node?
        invariant fresh(r) && r.Valid()
        invariant Reverse(Elements(next)) + r.Contents() == Reverse(Contents())
        decreases next
      {
        r.Push(next.value);
        next := next.next;
      }
    }

    /** `iter`: a cursor at the head. */
    method Iter() returns (it: Iter<T>)
      ensures fresh(it)
      ensures it.Remaining() == Contents()
    {
      it := new Iter(this);
    }
  }

  /** `contains`, from the `impl<T: PartialEq>` block: some value equals
      `element` (`iter().any(..)`). */
  function Contains<T(==)>(list: SimpleLinkedList<T>, element: T): (b: bool)
    reads list
    ensures b <==> element in list.Contents()
  {
    ChainContains(list.head, element)
  }

  /** The `any` fold of `contains`, node by node. */
  function ChainContains<T(==)>(c: Item<T>, element: T): (b: bool)
    ensures b <==> element in Elements(c)
  {
    match c
    case Nil => false
    case Node(v, next) => v == element || ChainContains(next, element)
  }

  /** `Iter`: a cursor over the nodes of a list, advanced in place. */
  class Iter<T> {
    var curr: Item<T>

    /** The values the cursor has yet to yield. */
    function Remaining(): seq<T>
      reads this
    {
      Elements(curr)
    }

    /** `Iter::new`: starts at the list's head. */
    constructor (list: SimpleLinkedList<T>)
      ensures Remaining() == list.Contents()
    {
      curr := list.head;
    }

    /** `next`: yields the current value and moves past it; at the end yields
        nothing and stays put. */
    method Next() returns (r: Option<T>)
      modifies this
      ensures old(Remaining()) == [] ==> r == None && Remaining() == []
      ensures old(Remaining()) != [] ==>
                r == Some(old(Remaining())[0]) && Remaining() == old(Remaining())[1..]
    {
      match curr
      case Nil =>
        r := None;
      case Node(v, next) =>
        curr := next;
        r := Some(v);
    }
  }

  /** Draining a fresh cursor yields the list's values head to tail. */
  method Collect<T>(list: SimpleLinkedList<T>) returns (xs: seq<T>)
    ensures xs == list.Contents()
  {
    xs := [];
    var it := list.Iter();
    var x := it.Next();
    while x.Some?
      invariant fresh(it)
      invariant x.Some? ==> xs + [x.value] + it.Remaining() == list.Contents()
      invariant x.None? ==> xs == list.Contents()
      decreases |it.Remaining()| + (if x.Some? then 1 else 0)
    {
      xs := xs + [x.value];
      x := it.Next();
    }
  }

  /** `from_iter`: pushes the values in order, so the head is the last one. */
  method FromIter<T>(xs: seq<T>) returns (list: SimpleLinkedList<T>)
    ensures fresh(list) && list.Valid()
    ensures list.Contents() == Reverse(xs)
  {
    list := new SimpleLinkedList();
    for i := 0 to |xs|
      invariant fresh(list) && list.Valid()
      invariant list.Contents() == Reverse(xs[..i])
    {
      ReverseSnoc(xs[..i], xs[i]);
      assert xs[..i + 1] == xs[..i] + [xs[i]];
      list.Push(xs[i]);
    }
    assert xs[..|xs|] == xs;
  }

  /** `From<SimpleLinkedList<T>> for Vec<T>`: reverses the list and pops it empty,
      so the vector lists the values tail to head. */
  method ToVec<T>(list: SimpleLinkedList<T>) returns (v: seq<T>)
    requires list.Valid()
    ensures v == Reverse(list.Contents())
  {
    v := [];
    var revList := list.Rev();
    var item := revList.Pop();
    while item.Some?
      invariant fresh(revList) && revList.Valid()
      invariant item.Some? ==> v + [item.value] + revList.Contents() == Reverse(list.Contents())
      invariant item.None? ==> v == Reverse(list.Contents()) && revList.Contents() == []
      decreases |revList.Contents()| + (if item.Some? then 1 else 0)
    {
      v := v + [item.value];
      item := revList.Pop();
    }
  }

  /** Collecting a list built by `from_iter` gives back the original order. */
  method RoundTrip<T>(xs: seq<T>) returns (ys: seq<T>)
    ensures ys == xs
  {
    var list := FromIter(xs);
    ys := ToVec(list);
    ReverseInvolution(xs);
  }

  /** A push followed by a pop hands back the pushed value and restores the list. */
  method PushThenPop<T>(list: SimpleLinkedList<T>, x: T) returns (r: Option<T>)
    requires list.Valid()
    modifies list
    ensures list.Valid()
    ensures r == Some(x)
    ensures list.Contents() == old(list.Contents()) && list.Len() == old(list.Len())
  {
    list.Push(x);
    assert list.Peek() == Some(x);
    r := list.Pop();
  }
}
