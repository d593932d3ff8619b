/**
 * LinkedStack: a LIFO stack over singly linked nodes, keeping a reference
 * to the top node and an element counter. `pop` on an empty stack returns
 * null (`None` here) instead of throwing.
 */
module LinkedStacks {
  import opened Wrappers

  class Node<T> {
    var value: T
    var next: Node?<T>

    constructor (value: T)
      ensures this.value == value && next == null
    {
      this.value := value;
      next := null;
    }

    /** The second `Node` constructor, which also sets the successor. */
    constructor WithNext(value: T, next: Node?<T>)
      ensures this.value == value && this.next == next
    {
      this.value := value;
      this.next := next;
    }
  }

  class LinkedStack<T> {
    var head: Node?<T>
    var size: int

    /** The elements from the top down. */
    ghost var Contents: seq<T>
    /** The nodes from the top down: `Nodes[k]` holds `Contents[k]`. */
    ghost var Nodes: seq<Node<T>>
    ghost var Repr: set<object>

    ghost predicate Valid()
      reads this, Repr
    {
      && this in Repr
      && (forall k :: 0 <= k < |Nodes| ==> Nodes[k] in Repr)
      && |Nodes| == |Contents| == size
      && (forall k :: 0 <= k < |Nodes| ==> Nodes[k].value == Contents[k])
      && (forall k :: 0 <= k < |Nodes| - 1 ==> Nodes[k].next == Nodes[k + 1])
      && (Nodes == [] ==> head == null)
      && (Nodes != [] ==> head == Nodes[0] && Nodes[|Nodes| - 1].next == null)
    }

    constructor ()
      ensures Valid() && fresh(Repr)
      ensures Contents == [] && head == null && size == 0
    {
      head := null;
      size := 0;
      Contents, Nodes := [], [];
      Repr := {this};
    }

    /** `push(element)`: the element goes on top and the size grows by one. */
    method Push(element: T)
      requires Valid()
      modifies this
      ensures Valid() && fresh(Repr - old(Repr))
      ensures Contents == [element] + old(Contents)
      ensures size == old(size) + 1
    {
      var newNode := new Node(element);
      if head != null {
        newNode.next := head;
      }
      head := newNode;
      size := size + 1;
      Contents, Nodes := [element] + Contents, [newNode] + Nodes;
      Repr := Repr + {newNode};
    }

    /**
     * `pop()`: the top element, which is removed, or null and no change
     * when the stack is empty.
     */
    method Pop() returns (r: Option<T>)
      requires Valid()
      modifies this
      ensures Valid() && fresh(Repr - old(Repr))
      ensures r == if old(Contents) == [] then None else Some(old(Contents)[0])
      ensures Contents == if old(Contents) == [] then old(Contents) else old(Contents)[1..]
      ensures size == if old(Contents) == [] then old(size) else old(size) - 1
    {
      var nodeToReturn := head;
      if head != null {
        head := head.next;
        size := size - 1;
        Contents, Nodes := Contents[1..], Nodes[1..];
      }
      r := if nodeToReturn == null then None else Some(nodeToReturn.value);
    }

    /** `size()`: the number of elements. */
    method Size() returns (n: int)
      requires Valid()
      ensures n == |Contents|
    {
      n := size;
    }

    /** `isEmpty()`: no top node, exactly when there are no elements. */
    method IsEmpty() returns (empty: bool)
      requires Valid()
      ensures empty <==> Contents == []
      ensures empty <==> size == 0
    {
      empty := head == null;
    }
  }

  /** A pushed element is the one popped next. */
  method PushAndPopElement<T>(element: T) returns (actual: Option<T>)
    ensures actual == Some(element)
  {
    var stack := new LinkedStack<T>();
    stack.Push(element);
    actual := stack.Pop();
  }

  /** Popping a new stack gives null. */
  method PopOnEmptyStack<T>() returns (actual: Option<T>)
    ensures actual == None
  {
    var stack := new LinkedStack<T>();
    actual := stack.Pop();
  }

  /** Popping a stack emptied by earlier pops gives null. */
  method PopOnEmptyStackAfterRemoveElements<T>(element: T) returns (actual: Option<T>)
    ensures actual == None
  {
    var stack := new LinkedStack<T>();
    stack.Push(element);
    var _ := stack.Pop();
    actual := stack.Pop();
  }

  /** A new stack is empty and has size 0. */
  method SizeIsZeroOnEmptyStack<T>() returns (empty: bool, n: int)
    ensures empty && n == 0
  {
    var stack := new LinkedStack<T>();
    empty := stack.IsEmpty();
    n := stack.Size();
  }

  /** Three pushes and two pops leave one element. */
  method SizeAfterPushesAndPops(a: int, b: int, c: int) returns (n: int, empty: bool)
    ensures n == 1 && !empty
  {
    var stack := new LinkedStack<int>();
    stack.Push(a);
    stack.Push(b);
    stack.Push(c);
    var _ := stack.Pop();
    var _ := stack.Pop();
    n := stack.Size();
    empty := stack.IsEmpty();
  }
}
