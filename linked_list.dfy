/** A singly linked list with a tail link: nodes live on the heap, `head`
    and `tail` point at the first and last node, `append` links at the tail,
    `prepend` and `pop` work at the head, and an iterator walks the chain.

    The abstraction is the ghost `spine` (the nodes from head to tail) and
    `contents` (their payloads). Reference counting is not modelled: every
    node is owned by exactly one list. */
module LinkedList {
  import opened Options

  class Node<T> {
    const data: T
    var next: Node?<T>

    /** `Node::new(data)`: a node with no successor. */
    constructor (data: T)
      ensures this.data == data && next == null
    {
      this.data := data;
      next := null;
    }
  }

  /** `spine` is a chain carrying `items`: node i holds item i and links to
      node i + 1, and the last node has no successor. */
  ghost predicate Chain<T>(spine: seq<Node<T>>, items: seq<T>)
    reads spine
  {
    |spine| == |items| &&
    (forall i :: 0 <= i < |spine| ==> spine[i].data == items[i]) &&
    (forall i :: 0 <= i < |spine| - 1 ==> spine[i].next == spine[i + 1]) &&
    (|spine| > 0 ==> spine[|spine| - 1].next == null)
  }

  /** The node a link to the chain's start points at, `null` for no node. */
  ghost function First<T>(spine: seq<Node<T>>): Node?<T>
  {
    if |spine| == 0 then null else spine[0]
  }

  ghost function Last<T>(spine: seq<Node<T>>): Node?<T>
  {
    if |spine| == 0 then null else spine[|spine| - 1]
  }

  class LinkedList<T> {
    var head: Node?<T>
    var tail: Node?<T>
    var length: nat
    /** The nodes from head to tail. */
    ghost var spine: seq<Node<T>>
    /** The payloads from head to tail. */
    ghost var contents: seq<T>
    ghost var Repr: set<object>

    /** The list's invariant: the nodes form one acyclic chain of `length`
        distinct nodes carrying `contents`; head is its first node and tail
        its last, so head, tail and `length == 0` are absent together. */
    ghost predicate Valid()
      reads this, Repr
    {
      (forall i :: 0 <= i < |spine| ==> spine[i] in Repr) &&
      Chain(spine, contents) &&
      (forall i, j :: 0 <= i < j < |spine| ==> spine[i] != spine[j]) &&
      |spine| == length &&
      head == First(spine) &&
      tail == Last(spine)
    }

    /** `new()`: no head, no tail, length 0. */
    constructor ()
      ensures Valid() && fresh(Repr)
      ensures head == null && tail == null && length == 0 && contents == []
    {
      head := null;
      tail := null;
      length := 0;
      spine := [];
      contents := [];
      Repr := {};
    }

    /** `append(value)`: the new node is linked after the tail (or becomes
        the head of an empty list) and becomes the tail. */
    method Append(value: T)
      requires Valid()
      modifies this, Repr
      ensures Valid() && fresh(Repr - old(Repr))
      ensures contents == old(contents) + [value]
      ensures length == old(length) + 1
      ensures tail != null && fresh(tail) && tail.data == value
      ensures old(length) > 0 ==> head == old(head)
    {
      var node := new Node(value);
      if tail != null {
        tail.next := node;
      } else {
        head := node;
      }
      tail := node;
      length := length + 1;
      spine := spine + [node];
      contents := contents + [value];
      Repr := Repr + {node};
    }

    /** `prepend(value)`: the new node links to the old head (or becomes the
        tail of an empty list) and becomes the head. */
    method Prepend(value: T)
      requires Valid()
      modifies this
      ensures Valid() && fresh(Repr - old(Repr))
      ensures contents == [value] + old(contents)
      ensures length == old(length) + 1
      ensures head != null && fresh(head) && head.data == value
      ensures old(length) > 0 ==> tail == old(tail)
    {
      var node := new Node(value);
      if head != null {
        node.next := head;
      } else {
        tail := node;
      }
      length := length + 1;
      head := node;
      spine := [node] + spine;
      contents := [value] + contents;
      Repr := Repr + {node};
    }

    /** `pop()`: on an empty list, `None` and nothing changes; otherwise the
        head node is unlinked, its successor becomes the head (the tail is
        cleared when there is none) and its payload is returned. */
    method Pop() returns (r: Option<T>)
      requires Valid()
      modifies this, Repr
      ensures Valid()
      ensures old(length) == 0 ==>
                r == None && contents == old(contents) && length == 0 && head == null && tail == null
      ensures old(length) > 0 ==>
                r == Some(old(contents)[0]) && contents == old(contents)[1..] && length == old(length) - 1
      ensures old(length) == 1 ==> head == null && tail == null
      ensures old(length) > 1 ==> tail == old(tail)
      ensures Repr <= old(Repr)
    {
      if head == null {
        r := None;
        return;
      }
      var first := head;
      head := null;
      var successor := first.next;
      first.next := null;
      if successor != null {
        head := successor;
      } else {
        tail := null;
      }
      length := length - 1;
      r := Some(first.data);
      spine := spine[1..];
      contents := contents[1..];
      Repr := Repr - {first};
    }

    /** `iter()`: an iterator starting at the head. */
    method Iter() returns (it: Iter<T>)
      requires Valid()
      ensures fresh(it) && it.Valid() && it.remaining == contents
    {
      it := new Iter(head, spine, contents);
    }

    /** `into_iter()`: an iterator over the same chain; the list is given up. */
    method IntoIter() returns (it: Iter<T>)
      requires Valid()
      ensures fresh(it) && it.Valid() && it.remaining == contents
    {
      it := new Iter(head, spine, contents);
    }

    /** Draining `iter()` yields the contents from head to tail: exactly
        `length` items. */
    method Collect() returns (items: seq<T>)
      requires Valid()
      ensures items == contents && |items| == length
    {
      var it := Iter();
      items := it.Drain();
    }

    /** `prepend(v)` then `pop()` gives back `v` and restores the previous
        contents and length. */
    method PrependThenPop(v: T) returns (r: Option<T>)
      requires Valid()
      modifies this, Repr
      ensures Valid()
      ensures r == Some(v) && contents == old(contents) && length == old(length)
      ensures fresh(Repr - old(Repr))
    {
      Prepend(v);
      r := Pop();
    }
  }

  /** `Iter`: a cursor over a chain of nodes. */
  class Iter<T> {
    var current: Node?<T>
    /** The nodes still to visit and their payloads. */
    ghost var spine: seq<Node<T>>
    ghost var remaining: seq<T>

    ghost predicate Valid()
      reads this, spine
    {
      Chain(spine, remaining) && current == First(spine)
    }

    /** `Iter::new(start)`. */
    constructor (start: Node?<T>, ghost spine: seq<Node<T>>, ghost items: seq<T>)
      requires Chain(spine, items) && start == First(spine)
      ensures Valid() && current == start && remaining == items
    {
      current := start;
      this.spine := spine;
      remaining := items;
    }

    /** Calls `next` until it yields `None`, collecting what it yields: exactly
        the items that remained, in order. */
    method Drain() returns (items: seq<T>)
      requires Valid()
      modifies this
      ensures items == old(remaining)
    {
      items := [];
      while true
        invariant Valid()
        invariant items + remaining == old(remaining)
        decreases |remaining|
      {
        var x := Next();
        if x.None? {
          break;
        }
        items := items + [x.value];
      }
    }

    /** `next`: yield the current node's payload and move to its successor. */
    method Next() returns (r: Option<T>)
      requires Valid()
      modifies this
      ensures Valid()
      ensures old(remaining) == [] ==> r == None && remaining == []
      ensures old(remaining) != [] ==> r == Some(old(remaining)[0]) && remaining == old(remaining)[1..]
    {
      if current == null {
        r := None;
      } else {
        r := Some(current.data);
        current := current.next;
        spine := spine[1..];
        remaining := remaining[1..];
      }
    }
  }
}
