/**
 * LinkedList: a list over singly linked nodes with references to the first
 * and last node and an element counter, supporting positional access.
 */
module LinkedLists {
  import opened Wrappers

  class Node<T> {
    var value: T
    var next: Node?<T>

    constructor (value: T)
      ensures this.value == value && next == null
    {
      this.value := value;
      next := null;
    }
  }

  /** Node `s[k]` holds element `c[k]` for every position `k`. */
  ghost predicate Holds<T>(s: seq<Node<T>>, c: seq<T>)
    reads s`value
  {
    |s| == |c| && forall k :: 0 <= k < |s| ==> s[k].value == c[k]
  }

  /**
   * Every node of `s` but the last links to the one after it (the link out
   * of the last node is not read).
   */
  ghost predicate Chain<T>(s: seq<Node<T>>)
    reads (if s == [] then [] else s[..|s| - 1])`next
  {
    forall i, j {:trigger s[i], s[j]} :: 0 <= i && j == i + 1 && j < |s| ==> s[i].next == s[j]
  }

  /** Two chains joined by a link from the end of one to the start of the other form one chain. */
  lemma ChainJoin<T>(a: seq<Node<T>>, b: seq<Node<T>>)
    requires Chain(a) && Chain(b)
    requires a != [] && b != [] ==> a[|a| - 1].next == b[0]
    ensures Chain(a + b)
  {
  }

  /** A slice of a chain is a chain. */
  lemma ChainSlice<T>(s: seq<Node<T>>, lo: int, hi: int)
    requires Chain(s) && 0 <= lo <= hi <= |s|
    ensures Chain(s[lo..hi])
  {
  }

  /** Placing a node at `index` places its value at the same position of the elements. */
  lemma HoldsInsert<T>(s: seq<Node<T>>, c: seq<T>, index: int, n: Node<T>)
    requires Holds(s, c) && 0 <= index <= |s|
    ensures Holds(s[..index] + [n] + s[index..], c[..index] + [n.value] + c[index..])
  {
  }

  /** Appending a node appends its value to the elements. */
  lemma HoldsAppend<T>(s: seq<Node<T>>, c: seq<T>, n: Node<T>)
    requires Holds(s, c)
    ensures Holds(s + [n], c + [n.value])
  {
  }

  /** Dropping the node at `index` drops the element at the same position. */
  lemma HoldsRemove<T>(s: seq<Node<T>>, c: seq<T>, index: int)
    requires Holds(s, c) && 0 <= index < |s|
    ensures Holds(s[..index] + s[index + 1..], c[..index] + c[index + 1..])
  {
  }

  /**
   * A chain whose last node links nowhere cannot revisit a node: equal
   * nodes at `i < j` would repeat the same successors up to the last node,
   * which would then have a successor.
   */
  lemma {:induction false} NoRepeat<T>(s: seq<Node<T>>, i: int, j: int)
    requires Chain(s) && s != [] && s[|s| - 1].next == null
    requires 0 <= i < j < |s|
    ensures s[i] != s[j]
    decreases |s| - j
  {
    if j == |s| - 1 {
      assert s[i].next == s[i + 1];
    } else {
      NoRepeat(s, i + 1, j + 1);
      assert s[i].next == s[i + 1] && s[j].next == s[j + 1];
    }
  }

  /** In such a chain the node at `index` occurs nowhere else. */
  lemma Unique<T>(s: seq<Node<T>>, index: int)
    requires Chain(s) && s != [] && s[|s| - 1].next == null
    requires 0 <= index < |s|
    ensures forall k :: 0 <= k < |s| && k != index ==> s[k] != s[index]
  {
    forall k | 0 <= k < |s| && k != index
      ensures s[k] != s[index]
    {
      if k < index {
        NoRepeat(s, k, index);
      } else {
        NoRepeat(s, index, k);
      }
    }
  }

  class LinkedList<T(==)> {
    var size: int
    var first: Node?<T>
    var last: Node?<T>

    /** The elements from first to last. */
    ghost var Contents: seq<T>
    /** The nodes from first to last: `Nodes[k]` holds `Contents[k]`. */
    ghost var Nodes: seq<Node<T>>
    ghost var Repr: set<object>

    /** The node chain, `first` and `last` agree with `Nodes` and `Contents`. */
    ghost predicate Linked()
      reads this`first, this`last, this`Contents, this`Nodes, this`Repr, Nodes
    {
      && this in Repr
      && (forall n :: n in Nodes ==> n in Repr)
      && Holds(Nodes, Contents)
      && Chain(Nodes)
      && (Nodes == [] ==> first == null && last == null)
      && (Nodes != [] ==> first == Nodes[0] && last == Nodes[|Nodes| - 1] && last.next == null)
    }

    /** The chain is linked and the counter is its length. */
    ghost predicate Valid()
      reads this, Repr, Nodes
    {
      Linked() && size == |Nodes|
    }

    constructor ()
      ensures Valid() && fresh(Repr)
      ensures Contents == [] && first == null && last == null && size == 0
    {
      size := 0;
      first, last := null, null;
      Contents, Nodes := [], [];
      Repr := {this};
    }

    /** `of(elements)`: a new list holding the elements in order. */
    static method Of(elements: seq<T>) returns (list: LinkedList<T>)
      ensures fresh(list.Repr) && list.Valid()
      ensures list.Contents == elements
    {
      list := new LinkedList<T>();
      for i := 0 to |elements|
        invariant fresh(list.Repr) && list.Valid()
        invariant list.Contents == elements[..i]
      {
        list.Add(elements[i]);
        assert elements[..i + 1] == elements[..i] + [elements[i]];
      }
      assert elements[..|elements|] == elements;
    }

    /** `add(element)`: append at the end; the size grows by one. */
    method Add(element: T)
      requires Valid()
      modifies Repr
      ensures Valid() && fresh(Repr - old(Repr))
      ensures Contents == old(Contents) + [element]
      ensures size == old(size) + 1
    {
      var node := new Node(element);
      ghost var ns, cs := Nodes, Contents;
      if first == null {
        first := node;
      } else {
        last.next := node;
      }
      last := node;
      size := size + 1;
      Contents, Nodes, Repr := cs + [element], ns + [node], Repr + {node};
      ChainJoin(ns, [node]);
      HoldsAppend(ns, cs, node);
    }

    /**
     * `add(index, element)`: insert at `index` when `0 <= index <= size`,
     * shifting later elements up; any other index throws and changes nothing.
     */
    method AddAt(index: int, element: T) returns (r: Outcome)
      requires Valid()
      modifies Repr
      ensures Valid() && fresh(Repr - old(Repr))
      ensures r == if 0 <= index <= old(|Contents|) then Pass else Fail(IndexOutOfBounds)
      ensures r.Pass? ==> Contents == old(Contents)[..index] + [element] + old(Contents)[index..]
      ensures r.Pass? ==> size == old(size) + 1
      ensures r.Fail? ==> Contents == old(Contents) && size == old(size)
    {
      var newNode := new Node(element);
      if index == 0 {
        AddAsFirst(newNode);
      } else if index == size {
        AddAsLast(newNode);
      } else {
        r := AddAfterPredecessor(index, newNode);
        if r.Fail? {
          return;
        }
      }
      assert Linked();
      size := size + 1;
      r := Pass;
    }

    /** `addAsFirst(newNode)`: link a new node in front; the counter is left to the caller. */
    method AddAsFirst(newNode: Node<T>)
      requires Valid() && newNode !in Repr
      modifies this, newNode
      ensures Linked() && Repr == old(Repr) + {newNode}
      ensures Contents == [newNode.value] + old(Contents)
      ensures size == old(size) && newNode.value == old(newNode.value)
    {
      newNode.next := first;
      first := newNode;
      if newNode.next == null {
        last := newNode;
      }
      Contents, Nodes := [newNode.value] + Contents, [newNode] + Nodes;
      Repr := Repr + {newNode};
    }

    /** `addAsLast(newNode)`: link a new node after the last one of a non-empty list. */
    method AddAsLast(newNode: Node<T>)
      requires Valid() && newNode !in Repr && newNode.next == null
      requires Contents != []
      modifies this, last
      ensures Linked() && Repr == old(Repr) + {newNode}
      ensures Contents == old(Contents) + [newNode.value]
      ensures size == old(size)
    {
      last.next := newNode;
      last := newNode;
      Contents, Nodes := Contents + [newNode.value], Nodes + [newNode];
      Repr := Repr + {newNode};
    }

    /**
     * The private `add(index, newNode)`: link the node after the one at
     * `index - 1`, which must exist. Callers never pass `size` (that case
     * goes to `AddAsLast`, as this one does not move `last`).
     */
    method AddAfterPredecessor(index: int, newNode: Node<T>) returns (r: Outcome)
      requires Valid() && newNode !in Repr
      requires index != |Contents|
      modifies Repr, newNode
      ensures r == if 1 <= index <= old(|Contents|) then Pass else Fail(IndexOutOfBounds)
      ensures r.Pass? ==> Linked() && Repr == old(Repr) + {newNode}
      ensures r.Pass? ==> Contents == old(Contents)[..index] + [old(newNode.value)] + old(Contents)[index..]
      ensures r.Fail? ==> Valid() && Repr == old(Repr) && Contents == old(Contents)
      ensures size == old(size)
    {
      var found := GetNodeByIndex(index - 1);
      if found.Failure? {
        return Fail(found.error);
      }
      LinkAfter(found.value, index, newNode);
      r := Pass;
    }

    /** The two link updates of the private `add(index, newNode)`, once the predecessor is found. */
    method LinkAfter(nodeBeforeIndex: Node<T>, index: int, newNode: Node<T>)
      requires Valid() && newNode !in Repr
      requires 1 <= index < |Nodes| && nodeBeforeIndex == Nodes[index - 1]
      modifies this, nodeBeforeIndex, newNode
      ensures Linked() && Repr == old(Repr) + {newNode}
      ensures Contents == old(Contents)[..index] + [old(newNode.value)] + old(Contents)[index..]
      ensures size == old(size)
    {
      ghost var ns, cs := Nodes, Contents;
      ChainSlice(ns, 0, index);
      ChainSlice(ns, index, |ns|);
      Unique(ns, index - 1);
      newNode.next := nodeBeforeIndex.next;
      nodeBeforeIndex.next := newNode;
      Contents, Nodes, Repr := cs[..index] + [newNode.value] + cs[index..], ns[..index] + [newNode] + ns[index..], Repr + {newNode};
      ChainJoin(ns[..index], [newNode]);
      ChainJoin(ns[..index] + [newNode], ns[index..]);
      HoldsInsert(ns, cs, index, newNode);
    }

    /** `getNodeByIndex(index)`: the node at a valid index, found by walking from `first`. */
    method GetNodeByIndex(index: int) returns (r: Result<Node<T>>)
      requires Valid()
      ensures r == if 0 <= index < |Contents| then Success(Nodes[index]) else Failure(IndexOutOfBounds)
    {
      var check := CheckIndexBounds(index);
      if check.Fail? {
        return Failure(check.error);
      }
      if index == size - 1 {
        return Success(last);
      }
      var currentNode: Node<T> := first;
      for i := 0 to index
        invariant currentNode == Nodes[i]
      {
        assert currentNode.next == Nodes[i + 1];
        currentNode := currentNode.next;
      }
      r := Success(currentNode);
    }

    /** `checkIndexBounds(index)`: an index outside the elements throws. */
    function CheckIndexBounds(index: int): (r: Outcome)
      requires Valid()
      reads this, Repr
      ensures r.Pass? <==> 0 <= index < |Contents|
      ensures r.Fail? ==> r.error == IndexOutOfBounds
    {
      if index < 0 || index >= size then Fail(IndexOutOfBounds) else Pass
    }

    /** `set(index, element)`: replace the element at a valid index and nothing else. */
    method Set(index: int, element: T) returns (r: Outcome)
      requires Valid()
      modifies Repr
      ensures Valid() && Repr == old(Repr)
      ensures r == if 0 <= index < old(|Contents|) then Pass else Fail(IndexOutOfBounds)
      ensures Contents == if r.Pass? then old(Contents)[index := element] else old(Contents)
      ensures size == old(size)
    {
      var found := GetNodeByIndex(index);
      if found.Failure? {
        return Fail(found.error);
      }
      Unique(Nodes, index);
      found.value.value := element;
      Contents := Contents[index := element];
      r := Pass;
    }

    /** `get(index)`: the element at a valid index. */
    method Get(index: int) returns (r: Result<T>)
      requires Valid()
      ensures r == if 0 <= index < |Contents| then Success(Contents[index]) else Failure(IndexOutOfBounds)
    {
      var found := GetNodeByIndex(index);
      if found.Failure? {
        return Failure(found.error);
      }
      r := Success(found.value.value);
    }

    /** `getFirst()`: the first element; an empty list throws. */
    method GetFirst() returns (r: Result<T>)
      requires Valid()
      ensures r == if Contents == [] then Failure(NoSuchElement) else Success(Contents[0])
    {
      if first == null {
        return Failure(NoSuchElement);
      }
      r := Success(first.value);
    }

    /** `getLast()`: the last element; an empty list throws. */
    method GetLast() returns (r: Result<T>)
      requires Valid()
      ensures r == if Contents == [] then Failure(NoSuchElement) else Success(Contents[|Contents| - 1])
    {
      if last == null {
        return Failure(NoSuchElement);
      }
      r := Success(last.value);
    }

    /**
     * `remove(index)`: a valid index gives the element there, which is
     * removed. `remove(size)` on a non-empty list reaches past the last node
     * and throws NullPointerException; every other index throws
     * IndexOutOfBoundsException. Nothing changes when it throws.
     */
    method Remove(index: int) returns (r: Result<T>)
      requires Valid()
      modifies Repr
      ensures Valid() && Repr == old(Repr)
      ensures r == if 0 <= index < old(|Contents|) then Success(old(Contents)[index])
                   else if 0 < index == old(|Contents|) then Failure(NullPointer)
                   else Failure(IndexOutOfBounds)
      ensures r.Success? ==> Contents == old(Contents)[..index] + old(Contents)[index + 1..]
      ensures r.Success? ==> size == old(size) - 1
      ensures r.Failure? ==> Contents == old(Contents) && size == old(size)
    {
      var elementToDelete;
      if index == 0 && first != null {
        elementToDelete := first.value;
        first := first.next;
        if first == null {
          last := null;
        }
        ChainSlice(Nodes, 1, |Nodes|);
        Contents, Nodes := Contents[1..], Nodes[1..];
      } else {
        var found := GetNodeByIndex(index - 1);
        if found.Failure? {
          return Failure(found.error);
        }
        var nodeBeforeNodeToDelete := found.value;
        var nodeToDelete := nodeBeforeNodeToDelete.next;
        if nodeToDelete == null {
          return Failure(NullPointer);
        }
        elementToDelete := Unlink(nodeBeforeNodeToDelete, nodeToDelete, index);
      }
      size := size - 1;
      r := Success(elementToDelete);
    }

    /**
     * The unlinking in the second branch of `remove(index)`, once the node
     * before `index` is found and has a successor: that successor is
     * bypassed (and `last` moves back when it was the last node).
     */
    method Unlink(nodeBeforeNodeToDelete: Node<T>, nodeToDelete: Node<T>, index: int) returns (elementToDelete: T)
      requires Valid()
      requires 1 <= index < |Nodes| && nodeBeforeNodeToDelete == Nodes[index - 1] && nodeToDelete == Nodes[index]
      modifies this, nodeBeforeNodeToDelete
      ensures Linked() && Repr == old(Repr)
      ensures elementToDelete == old(Contents)[index]
      ensures Contents == old(Contents)[..index] + old(Contents)[index + 1..]
      ensures size == old(size)
    {
      ghost var ns, cs := Nodes, Contents;
      ChainSlice(ns, 0, index);
      ChainSlice(ns, index + 1, |ns|);
      Unique(ns, index - 1);
      elementToDelete := nodeToDelete.value;
      nodeBeforeNodeToDelete.next := nodeToDelete.next;
      if index == size - 1 {
        last := nodeBeforeNodeToDelete;
      }
      Contents, Nodes := cs[..index] + cs[index + 1..], ns[..index] + ns[index + 1..];
      ChainJoin(ns[..index], ns[index + 1..]);
      HoldsRemove(ns, cs, index);
    }

    /** `contains(element)`: whether one of the first `size` nodes holds the element. */
    method Contains(element: T) returns (found: bool)
      requires Valid()
      ensures found <==> element in Contents
    {
      var currentNode := first;
      for i := 0 to size
        invariant i < size ==> currentNode == Nodes[i]
        invariant element !in Contents[..i]
      {
        if element == currentNode.value {
          return true;
        }
        currentNode := currentNode.next;
        assert Contents[..i + 1] == Contents[..i] + [Contents[i]];
      }
      assert Contents[..size] == Contents;
      found := false;
    }

    /** `isEmpty()`: no first node, exactly when there are no elements. */
    method IsEmpty() returns (empty: bool)
      requires Valid()
      ensures empty <==> Contents == []
      ensures empty <==> size == 0
      ensures empty <==> last == null
    {
      empty := first == null;
    }

    /** `size()`: the number of elements. */
    method Size() returns (n: int)
      requires Valid()
      ensures n == |Contents|
    {
      n := size;
    }

    /** `clear()`: back to the empty state. */
    method Clear()
      requires Valid()
      modifies this
      ensures Valid() && fresh(Repr - old(Repr))
      ensures Contents == [] && first == null && last == null && size == 0
    {
      first, last := null, null;
      size := 0;
      Contents, Nodes := [], [];
      Repr := {this};
    }
  }

  /** A cleared list can be filled again: after `clear()` and `add(2)` it holds 2 alone. */
  method AddAfterClear() returns (n: int, first: Result<int>)
    ensures n == 1 && first == Success(2)
  {
    var list := new LinkedList<int>();
    list.Add(1);
    list.Clear();
    list.Add(2);
    n := list.Size();
    first := list.GetFirst();
  }
}
