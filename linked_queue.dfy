/**
 * LinkedQueue: a FIFO queue over singly linked nodes with references to
 * the head (oldest) and tail (newest) node and an element counter.
 */
module LinkedQueues {
  import opened Wrappers

  class Node<T> {
    var value: T
    var next: Node?<T>

    constructor (value: T)
      ensures this.value == value && next == null
    {
      this.value := value;
      next := null;
    }
  }

  class LinkedQueue<T> {
    var size: int
    var head: Node?<T>
    var tail: Node?<T>

    /** The elements from head to tail. */
    ghost var Contents: seq<T>
    /** The nodes from head to tail: `Nodes[k]` holds `Contents[k]`. */
    ghost var Nodes: seq<Node<T>>
    ghost var Repr: set<object>

    ghost predicate Valid()
      reads this, Repr
    {
      && this in Repr
      && (forall k :: 0 <= k < |Nodes| ==> Nodes[k] in Repr)
      && |Nodes| == |Contents| == size
      && (forall k :: 0 <= k < |Nodes| ==> Nodes[k].value == Contents[k])
      && (forall k :: 0 <= k < |Nodes| - 1 ==> Nodes[k].next == Nodes[k + 1])
      && (Nodes == [] ==> head == null && tail == null)
      && (Nodes != [] ==> head == Nodes[0] && tail == Nodes[|Nodes| - 1] && tail.next == null)
    }

    constructor ()
      ensures Valid() && fresh(Repr)
      ensures Contents == [] && head == null && tail == null && size == 0
    {
      size := 0;
      head, tail := null, null;
      Contents, Nodes := [], [];
      Repr := {this};
    }

    /**
     * `add(element)`: a null element throws and changes nothing; any other
     * element joins at the tail and the size grows by one.
     */
    method Add(element: Option<T>) returns (r: Outcome)
      requires Valid()
      modifies Repr
      ensures Valid() && fresh(Repr - old(Repr))
      ensures r == if element.None? then Fail(NullPointer) else Pass
      ensures Contents == if element.None? then old(Contents) else old(Contents) + [element.value]
      ensures size == if element.None? then old(size) else old(size) + 1
    {
      if element.None? {
        return Fail(NullPointer);
      }
      var node := new Node(element.value);
      if head == null {
        head := node;
      } else {
        tail.next := node;
      }
      tail := node;
      size := size + 1;
      Contents, Nodes := Contents + [element.value], Nodes + [node];
      Repr := Repr + {node};
      r := Pass;
    }

    /**
     * `poll()`: the head element, which is removed, or null and no change
     * when the queue is empty.
     */
    method Poll() returns (r: Option<T>)
      requires Valid()
      modifies this
      ensures Valid() && fresh(Repr - old(Repr))
      ensures r == if old(Contents) == [] then None else Some(old(Contents)[0])
      ensures Contents == if old(Contents) == [] then old(Contents) else old(Contents)[1..]
      ensures size == if old(Contents) == [] then old(size) else old(size) - 1
    {
      var headValue := if head == null then None else Some(head.value);
      if head != null {
        head := head.next;
        if head == null {
          tail := null;
        }
        size := size - 1;
        Contents, Nodes := Contents[1..], Nodes[1..];
      }
      r := headValue;
    }

    /** `size()`: the number of elements. */
    method Size() returns (n: int)
      requires Valid()
      ensures n == |Contents|
    {
      n := size;
    }

    /** `isEmpty()`: no head node, exactly when there are no elements and no tail. */
    method IsEmpty() returns (empty: bool)
      requires Valid()
      ensures empty <==> Contents == []
      ensures empty <==> size == 0
      ensures empty <==> tail == null
    {
      empty := head == null;
    }
  }

  /** Elements leave in the order they arrived. */
  method FirstInFirstOut<T>(a: T, b: T) returns (first: Option<T>, second: Option<T>, third: Option<T>)
    ensures first == Some(a) && second == Some(b) && third == None
  {
    var queue := new LinkedQueue<T>();
    var _ := queue.Add(Some(a));
    var _ := queue.Add(Some(b));
    first := queue.Poll();
    second := queue.Poll();
    third := queue.Poll();
  }
}
