/**
 * RecursiveBinarySearchTree: an unbalanced binary search tree without
 * deletion. Elements are `int`s ordered by `<`, standing for a
 * `Comparable` element type whose `compareTo` is a strict total order.
 */
module BinarySearchTrees {
  import opened Wrappers

  /** The node graph as a value: `Leaf` is a null child reference. */
  datatype Tree = Leaf | Node(left: Tree, value: int, right: Tree)

  ghost function Elements(t: Tree): set<int> {
    match t
    case Leaf => {}
    case Node(l, v, r) => Elements(l) + {v} + Elements(r)
  }

  function NodeCount(t: Tree): nat {
    match t
    case Leaf => 0
    case Node(l, _, r) => NodeCount(l) + 1 + NodeCount(r)
  }

  /** Every value in a left subtree is smaller, every value in a right subtree larger. */
  ghost predicate IsSearchTree(t: Tree) {
    match t
    case Leaf => true
    case Node(l, v, r) =>
      && (forall x :: x in Elements(l) ==> x < v)
      && (forall x :: x in Elements(r) ==> v < x)
      && IsSearchTree(l)
      && IsSearchTree(r)
  }

  ghost predicate Increasing(s: seq<int>) {
    forall i, j :: 0 <= i < j < |s| ==> s[i] < s[j]
  }

  function Max(a: int, b: int): int {
    if a >= b then a else b
  }

  // ---------------------------------------------------------------------
  // The recursive helpers of the class, on subtrees
  // ---------------------------------------------------------------------

  /** The private `contains(Node, T)`: descend by the sign of the comparison. */
  function Search(t: Tree, x: int): (found: bool)
    ensures found ==> x in Elements(t)
  {
    match t
    case Leaf => false
    case Node(l, v, r) =>
      if x < v then Search(l, x)
      else if x > v then Search(r, x)
      else true
  }

  /**
   * The private `insert(Node, T)` on a non-null node: links a new leaf
   * under the first null child on the search path and reports `true`, or
   * reports `false` when an equal value is met.
   */
  function InsertBelow(t: Tree, x: int): (r: (Tree, bool))
    requires t.Node?
    ensures r.0.Node? && r.0.value == t.value
    ensures Elements(r.0) == Elements(t) + {x}
  {
    if x < t.value then
      if t.left.Leaf? then (t.(left := Node(Leaf, x, Leaf)), true)
      else var below := InsertBelow(t.left, x); (t.(left := below.0), below.1)
    else if x > t.value then
      if t.right.Leaf? then (t.(right := Node(Leaf, x, Leaf)), true)
      else var below := InsertBelow(t.right, x); (t.(right := below.0), below.1)
    else
      (t, false)
  }

  /** The public `insert(T)` on the root reference: an empty tree gets a root. */
  function Inserted(t: Tree, x: int): (r: (Tree, bool))
    ensures r.0.Node? && (t.Node? ==> r.0.value == t.value)
    ensures Elements(r.0) == Elements(t) + {x}
  {
    if t.Leaf? then (Node(Leaf, x, Leaf), true) else InsertBelow(t, x)
  }

  /** The tree `of(elements)` builds: each element inserted in turn. */
  function BuildTree(xs: seq<int>): (t: Tree)
    ensures t.Leaf? <==> xs == []
  {
    if xs == [] then Leaf else Inserted(BuildTree(xs[..|xs| - 1]), xs[|xs| - 1]).0
  }

  /** The private `depth(Node)`: the number of nodes on the longest downward path. */
  function Height(t: Tree): (h: nat)
    ensures h == 0 <==> t.Leaf?
    ensures h <= NodeCount(t)
  {
    match t
    case Leaf => 0
    case Node(l, _, r) => 1 + Max(Height(l), Height(r))
  }

  /** The public `depth()`: edges, so an empty and a one-node tree both give 0. */
  function TreeDepth(t: Tree): (d: nat)
    ensures (t.Leaf? || (t.left.Leaf? && t.right.Leaf?)) ==> d == 0
    ensures d < NodeCount(t) || t.Leaf?
  {
    if t.Leaf? then 0 else Height(t) - 1
  }

  /** The values the private `inOrderTraversal(Node, Consumer)` hands to the consumer, in order. */
  function InOrder(t: Tree): (s: seq<int>)
    ensures |s| == NodeCount(t)
  {
    match t
    case Leaf => []
    case Node(l, v, r) => InOrder(l) + [v] + InOrder(r)
  }

  /** `p` spells a path of child steps (false = left, true = right) from the root to a node of `t`. */
  ghost predicate IsPathTo(t: Tree, p: seq<bool>)
    decreases |p|
  {
    t.Node? && (p == [] || IsPathTo(if p[0] then t.right else t.left, p[1..]))
  }

  // ---------------------------------------------------------------------
  // Lemmas
  // ---------------------------------------------------------------------

  /** Lookup agrees with membership in a search tree. */
  lemma {:induction false} SearchCorrect(t: Tree, x: int)
    requires IsSearchTree(t)
    ensures Search(t, x) <==> x in Elements(t)
  {
    match t
    case Leaf =>
    case Node(l, v, r) =>
      SearchCorrect(l, x);
      SearchCorrect(r, x);
  }

  /**
   * Insertion below a node adds exactly `x`, one node when it reports
   * success, and leaves the subtree unchanged otherwise; it succeeds exactly
   * when the lookup of `x` fails.
   */
  lemma {:induction false} InsertBelowShape(t: Tree, x: int)
    requires t.Node?
    ensures Elements(InsertBelow(t, x).0) == Elements(t) + {x}
    ensures NodeCount(InsertBelow(t, x).0) == NodeCount(t) + (if InsertBelow(t, x).1 then 1 else 0)
    ensures InsertBelow(t, x).1 <==> !Search(t, x)
    ensures !InsertBelow(t, x).1 ==> InsertBelow(t, x).0 == t
    decreases t
  {
    if x < t.value {
      if t.left.Node? { InsertBelowShape(t.left, x); }
    } else if x > t.value {
      if t.right.Node? { InsertBelowShape(t.right, x); }
    }
  }

  /** Insertion below a node keeps the search-tree ordering. */
  lemma {:induction false} InsertBelowKeepsOrder(t: Tree, x: int)
    requires t.Node? && IsSearchTree(t)
    ensures IsSearchTree(InsertBelow(t, x).0)
    decreases t
  {
    var result := InsertBelow(t, x).0;
    if x < t.value {
      var newLeft := if t.left.Leaf? then Node(Leaf, x, Leaf) else InsertBelow(t.left, x).0;
      if t.left.Node? {
        InsertBelowKeepsOrder(t.left, x);
        InsertBelowShape(t.left, x);
      }
      assert IsSearchTree(newLeft) && Elements(newLeft) == Elements(t.left) + {x};
      assert result == Node(newLeft, t.value, t.right);
    } else if x > t.value {
      var newRight := if t.right.Leaf? then Node(Leaf, x, Leaf) else InsertBelow(t.right, x).0;
      if t.right.Node? {
        InsertBelowKeepsOrder(t.right, x);
        InsertBelowShape(t.right, x);
      }
      assert IsSearchTree(newRight) && Elements(newRight) == Elements(t.right) + {x};
      assert result == Node(t.left, t.value, newRight);
    }
  }

  /**
   * The public insert: reports true exactly when `x` was absent; the
   * content gains exactly `x`; one node is added on success and nothing
   * changes otherwise; the ordering is kept.
   */
  lemma {:induction false} InsertedCorrect(t: Tree, x: int)
    requires IsSearchTree(t)
    ensures Inserted(t, x).1 <==> x !in Elements(t)
    ensures Elements(Inserted(t, x).0) == Elements(t) + {x}
    ensures NodeCount(Inserted(t, x).0) == NodeCount(t) + (if Inserted(t, x).1 then 1 else 0)
    ensures !Inserted(t, x).1 ==> Inserted(t, x).0 == t
    ensures IsSearchTree(Inserted(t, x).0)
  {
    if t.Node? {
      InsertBelowShape(t, x);
      InsertBelowKeepsOrder(t, x);
      SearchCorrect(t, x);
    }
  }

  /** In a search tree the node count is the number of distinct elements. */
  lemma {:induction false} NodeCountIsCardinality(t: Tree)
    requires IsSearchTree(t)
    ensures NodeCount(t) == |Elements(t)|
  {
    match t
    case Leaf =>
    case Node(l, v, r) =>
      NodeCountIsCardinality(l);
      NodeCountIsCardinality(r);
      assert v !in Elements(l) && v !in Elements(r);
      assert Elements(l) * Elements(r) == {} by {
        forall x | x in Elements(l) ensures x !in Elements(r) {
          assert x < v;
        }
      }
      assert |Elements(l) + {v}| == |Elements(l)| + 1;
      assert (Elements(l) + {v}) * Elements(r) == {};
  }

  /**
   * The in-order traversal of a search tree yields every stored value
   * exactly once, in strictly increasing order.
   */
  lemma {:induction false} InOrderSortedContent(t: Tree)
    requires IsSearchTree(t)
    ensures Increasing(InOrder(t))
    ensures forall x :: x in InOrder(t) <==> x in Elements(t)
    ensures |InOrder(t)| == NodeCount(t)
  {
    match t
    case Leaf =>
    case Node(l, v, r) =>
      InOrderSortedContent(l);
      InOrderSortedContent(r);
      var s := InOrder(t);
      var a, b := InOrder(l), InOrder(r);
      assert s == a + [v] + b;
      forall i, j | 0 <= i < j < |s| ensures s[i] < s[j] {
        if j < |a| {
        } else if j == |a| {
          assert s[i] == a[i] && a[i] in Elements(l);
        } else if i < |a| {
          assert s[i] == a[i] && a[i] in Elements(l);
          assert s[j] == b[j - |a| - 1] && b[j - |a| - 1] in Elements(r);
        } else if i == |a| {
          assert s[j] == b[j - |a| - 1] && b[j - |a| - 1] in Elements(r);
        } else {
          assert s[i] == b[i - |a| - 1] && s[j] == b[j - |a| - 1];
        }
      }
  }

  /** No path from the root has more edges than the height minus one. */
  lemma {:induction false} PathShorterThanHeight(t: Tree, p: seq<bool>)
    requires IsPathTo(t, p)
    ensures |p| < Height(t)
    decreases |p|
  {
    if p != [] {
      PathShorterThanHeight(if p[0] then t.right else t.left, p[1..]);
    }
  }

  /** Some path from the root of a non-empty tree has height minus one edges. */
  lemma {:induction false} LongestPath(t: Tree) returns (p: seq<bool>)
    requires t.Node?
    ensures IsPathTo(t, p) && |p| == Height(t) - 1
    decreases t
  {
    if Height(t.left) >= Height(t.right) {
      if t.left.Leaf? {
        p := [];
      } else {
        var q := LongestPath(t.left);
        p := [false] + q;
        assert p[1..] == q;
      }
    } else {
      var q := LongestPath(t.right);
      p := [true] + q;
      assert p[1..] == q;
    }
  }

  /** `Depth` is the edge count of the longest root-to-node path. */
  lemma DepthIsLongestPath(t: Tree)
    ensures t.Leaf? ==> TreeDepth(t) == 0
    ensures forall p :: IsPathTo(t, p) ==> |p| <= TreeDepth(t)
    ensures t.Node? ==> exists p :: IsPathTo(t, p) && |p| == TreeDepth(t)
  {
    forall p | IsPathTo(t, p) ensures |p| <= TreeDepth(t) {
      PathShorterThanHeight(t, p);
    }
    if t.Node? {
      var p := LongestPath(t);
    }
  }

  /** The distinct values of a sequence, collected left to right. */
  ghost function Members(xs: seq<int>): set<int> {
    if xs == [] then {} else Members(xs[..|xs| - 1]) + {xs[|xs| - 1]}
  }

  /** `Members` holds exactly the values that occur in the sequence. */
  lemma {:induction false} MembersCorrect(xs: seq<int>)
    ensures forall x :: x in Members(xs) <==> x in xs
  {
    if xs != [] {
      var init, last := xs[..|xs| - 1], xs[|xs| - 1];
      MembersCorrect(init);
      assert xs == init + [last];
    }
  }

  /**
   * `of` builds a search tree holding exactly the distinct given elements,
   * one node each: duplicates are dropped.
   */
  lemma {:induction false} BuildTreeCorrect(xs: seq<int>)
    ensures IsSearchTree(BuildTree(xs))
    ensures Elements(BuildTree(xs)) == Members(xs)
    ensures NodeCount(BuildTree(xs)) == |Members(xs)|
  {
    if xs != [] {
      var init, last := xs[..|xs| - 1], xs[|xs| - 1];
      BuildTreeCorrect(init);
      InsertedCorrect(BuildTree(init), last);
    }
    NodeCountIsCardinality(BuildTree(xs));
  }

  /** Every left child is empty: the tree is a path going right. */
  ghost predicate RightSpine(t: Tree) {
    match t
    case Leaf => true
    case Node(l, _, r) => l.Leaf? && RightSpine(r)
  }

  /** Inserting a value above every element of a right spine extends the spine by one node. */
  lemma {:induction false} InsertAboveSpine(t: Tree, x: int)
    requires RightSpine(t)
    requires forall y :: y in Elements(t) ==> y < x
    ensures RightSpine(Inserted(t, x).0)
    ensures Height(Inserted(t, x).0) == Height(t) + 1
    decreases t
  {
    match t
    case Leaf =>
    case Node(_, v, r) =>
      assert v in Elements(t);
      if r.Node? {
        assert Elements(r) <= Elements(t);
        InsertAboveSpine(r, x);
      }
  }

  /** Strictly increasing input degenerates to a path: depth is the element count minus one. */
  lemma {:induction false} SortedInputDepth(xs: seq<int>)
    requires Increasing(xs)
    ensures RightSpine(BuildTree(xs))
    ensures Height(BuildTree(xs)) == |xs|
  {
    if xs != [] {
      var init, last := xs[..|xs| - 1], xs[|xs| - 1];
      assert Increasing(init);
      SortedInputDepth(init);
      BuildTreeCorrect(init);
      MembersCorrect(init);
      forall y | y in Elements(BuildTree(init)) ensures y < last {
        assert y in init;
      }
      InsertAboveSpine(BuildTree(init), last);
    }
  }

  /** Five values inserted in increasing order, such as 1, 2, 3, 4, 5, give depth 4. */
  lemma AscendingFiveDepth(a: int, b: int, c: int, d: int, e: int)
    requires a < b < c < d < e
    ensures TreeDepth(BuildTree([a, b, c, d, e])) == 4
  {
    var xs := [a, b, c, d, e];
    forall i, j | 0 <= i < j < |xs| ensures xs[i] < xs[j] {
      assert xs[i] <= xs[j - 1];
    }
    SortedInputDepth(xs);
  }

  /** Building from 5, 3, 8, 3, 1 keeps four elements: the second 3 is dropped. */
  lemma DuplicateDropped()
    ensures NodeCount(BuildTree([5, 3, 8, 3, 1])) == 4
  {
    var a := Node(Leaf, 5, Leaf);
    assert [5][..0] == [] && BuildTree([5]) == a;
    var b := Node(Node(Leaf, 3, Leaf), 5, Leaf);
    assert [5, 3][..1] == [5] && BuildTree([5, 3]) == b;
    var c := Node(Node(Leaf, 3, Leaf), 5, Node(Leaf, 8, Leaf));
    assert [5, 3, 8][..2] == [5, 3] && BuildTree([5, 3, 8]) == c;
    assert [5, 3, 8, 3][..3] == [5, 3, 8] && BuildTree([5, 3, 8, 3]) == c;
    assert [5, 3, 8, 3, 1][..4] == [5, 3, 8, 3];
  }

  // ---------------------------------------------------------------------
  // The tree object
  // ---------------------------------------------------------------------

  class RecursiveBinarySearchTree {
    var root: Tree
    var size: int
    /** The set of stored elements. */
    ghost var Content: set<int>

    ghost predicate Valid()
      reads this
    {
      && IsSearchTree(root)
      && Content == Elements(root)
      && size == NodeCount(root)
    }

    constructor ()
      ensures Valid() && Content == {} && root == Leaf && size == 0
    {
      root := Leaf;
      size := 0;
      Content := {};
    }

    /** `of(elements)`: insert each element in the order given. */
    static method Of(elements: seq<int>) returns (tree: RecursiveBinarySearchTree)
      ensures fresh(tree) && tree.Valid()
      ensures tree.root == BuildTree(elements)
      ensures tree.Content == Members(elements) && tree.size == |Members(elements)|
      ensures forall x :: x in tree.Content <==> x in elements
    {
      tree := new RecursiveBinarySearchTree();
      var i := 0;
      while i < |elements|
        invariant 0 <= i <= |elements|
        invariant tree.Valid() && tree.root == BuildTree(elements[..i])
      {
        assert elements[..i + 1][..i] == elements[..i];
        var _ := tree.Insert(elements[i]);
        i := i + 1;
      }
      assert elements[..i] == elements;
      BuildTreeCorrect(elements);
      MembersCorrect(elements);
    }

    /**
     * `insert(element)`: true exactly when the element was absent, in which
     * case it is added and the size grows by one; otherwise nothing changes.
     */
    method Insert(element: int) returns (added: bool)
      requires Valid()
      modifies this
      ensures Valid()
      ensures added <==> element !in old(Content)
      ensures Content == old(Content) + {element}
      ensures size == old(size) + (if added then 1 else 0)
      ensures !added ==> root == old(root)
      ensures (root, added) == Inserted(old(root), element)
    {
      InsertedCorrect(root, element);
      if root.Leaf? {
        root := Node(Leaf, element, Leaf);
        size := size + 1;
        Content := Content + {element};
        return true;
      }
      var below := InsertBelow(root, element);
      root, added := below.0, below.1;
      if added {
        size := size + 1;
      }
      Content := Content + {element};
    }

    /** `contains(element)`: a null argument throws; otherwise membership. */
    method Contains(element: Option<int>) returns (r: Result<bool>)
      requires Valid()
      ensures element.None? ==> r == Failure(NullPointer)
      ensures element.Some? ==> r == Success(element.value in Content)
    {
      if element.None? {
        return Failure(NullPointer);
      }
      SearchCorrect(root, element.value);
      return Success(Search(root, element.value));
    }

    /** `size()`: the number of stored elements; zero exactly when there is no root. */
    method Size() returns (n: int)
      requires Valid()
      ensures n == |Content|
      ensures n == 0 <==> root == Leaf
    {
      NodeCountIsCardinality(root);
      return size;
    }

    /** `depth()`: the edge count of the longest path from the root. */
    method Depth() returns (d: int)
      requires Valid()
      ensures root == Leaf ==> d == 0
      ensures forall p :: IsPathTo(root, p) ==> |p| <= d
      ensures root != Leaf ==> exists p :: IsPathTo(root, p) && |p| == d
    {
      DepthIsLongestPath(root);
      d := TreeDepth(root);
    }

    /** `inOrderTraversal(consumer)`: the values handed to the consumer, in order. */
    method InOrderTraversal() returns (visited: seq<int>)
      requires Valid()
      ensures Increasing(visited)
      ensures forall x :: x in visited <==> x in Content
      ensures |visited| == size
    {
      InOrderSortedContent(root);
      visited := InOrder(root);
    }
  }
}
