/**
  The minimal singly-linked list of src/linked_list.rs: a stack of nodes
  owned from `head`, with no cached length.
*/
module MinimalList {
  import opened Nodes

  class SimpleLinkedList<T> {
    var head: Item<T>

    /** The values from head to tail. */
    function Contents(): seq<T>
      reads this
    {
      Elements(head)
    }

    /** `new`: the empty list. */
    constructor ()
      ensures Contents() == []
    {
      head := Nil;
    }

    /** `is_empty`: the head is absent exactly when there are no values. */
    function IsEmpty(): (b: bool)
      reads this
      ensures b <==> Contents() == []
    {
      head.Nil?
    }

    /** `len`: counts the nodes by walking the chain. */
    method Len() returns (count: nat)
      ensures count == |Contents()|
      ensures count == 0 <==> IsEmpty()
    {
      count := 0;
      var nextNode := head;
      while nextNode.Node?
        invariant count + |Elements(nextNode)| == |Elements(head)|
        decreases nextNode
      {
        count := count + 1;
        nextNode := nextNode.next;
      }
    }

    /** `push`: the new value becomes the head. */
    method Push(element: T)
      modifies this
      ensures Contents() == [element] + old(Contents())
    {
      head := Node(element, head);
    }

    /** `pop`: removes and returns the head value; an empty list is left alone. */
    method Pop() returns (r: Option<T>)
      modifies this
      ensures old(Contents()) == [] ==> r == None && Contents() == []
      ensures old(Contents()) != [] ==>
                r == Some(old(Contents())[0]) && Contents() == old(Contents())[1..]
    {
      match head
      case Nil =>
        r := None;
      case Node(v, next) =>
        head := next;
        r := Some(v);
    }

    /** `peek`: the head value, if any, without removing it. */
    function Peek(): (r: Option<T>)
      reads this
      ensures r.None? <==> Contents() == []
      ensures r.Some? ==> r.value == Contents()[0]
    {
      match head
      case Nil => None
      case Node(v, _) => Some(v)
    }

    /** `rev`: a new list holding the values in the opposite order. The source
        consumes `self`; here the original is only read. */
    method Rev() returns (r: SimpleLinkedList<T>)
      ensures fresh(r)
      ensures r.Contents() == Reverse(Contents())
    {
      r := new SimpleLinkedList();
      var next := head;
      while next.Node?
        invariant fresh(r)
        invariant Reverse(Elements(next)) + r.Contents() == Reverse(Contents())
        decreases next
      {
        r.Push(next.value);
        next := next.next;
      }
    }
  }

  /** A push followed by a pop hands back the pushed value and restores the list. */
  method PushThenPop<T>(list: SimpleLinkedList<T>, x: T) returns (r: Option<T>)
    modifies list
    ensures r == Some(x)
    ensures list.Contents() == old(list.Contents())
  {
    list.Push(x);
    assert list.Peek() == Some(x);
    r := list.Pop();
  }

  /** `from_iter`: pushes the values in order, so the head is the last one. */
  method FromIter<T>(xs: seq<T>) returns (list: SimpleLinkedList<T>)
    ensures fresh(list)
    ensures list.Contents() == Reverse(xs)
  {
    list := new SimpleLinkedList();
    for i := 0 to |xs|
      invariant fresh(list)
      invariant list.Contents() == Reverse(xs[..i])
    {
      ReverseSnoc(xs[..i], xs[i]);
      assert xs[..i + 1] == xs[..i] + [xs[i]];
      list.Push(xs[i]);
    }
    assert xs[..|xs|] == xs;
  }

  /** `From<SimpleLinkedList<T>> for Vec<T>`: reverses the list and pops it empty,
      so the vector lists the values tail to head. */
  method ToVec<T>(list: SimpleLinkedList<T>) returns (v: seq<T>)
    ensures v == Reverse(list.Contents())
  {
    v := [];
    var revList := list.Rev();
    var item := revList.Pop();
    while item.Some?
      invariant fresh(revList)
      invariant item.Some? ==> v + [item.value] + revList.Contents() == Reverse(list.Contents())
      invariant item.None? ==> v == Reverse(list.Contents()) && revList.Contents() == []
      decreases |revList.Contents()| + (if item.Some? then 1 else 0)
    {
      v := v + [item.value];
      item := revList.Pop();
    }
  }

  /** Collecting a list built by `from_iter` gives back the original order. */
  method RoundTrip<T>(xs: seq<T>) returns (ys: seq<T>)
    ensures ys == xs
  {
    var list := FromIter(xs);
    ys := ToVec(list);
    ReverseInvolution(xs);
  }
}
