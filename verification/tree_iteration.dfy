/**
  In-order successor and predecessor, computed the way the tree iterator's
  `operator++` and `operator--` walk the raw links: down to the extreme node of
  a child subtree when that child exists, otherwise up through the parent links.
  A result of `None` is the null node, i.e. the tree's `end()`.
*/
module TreeIteration {
  import opened Wrappers
  import opened TreeNode

  /** The path from the root of `t` to its leftmost (smallest) node. */
  function LeftmostPath<T>(t: Node<T>): (p: Path)
    requires t.Node?
    ensures IsNodePath(t, p) && IndexOf(t, p) == 0
  {
    if t.left.Nil? then []
    else
      var q := LeftmostPath(t.left);
      assert ([Left] + q)[0] == Left && ([Left] + q)[1..] == q;
      [Left] + q
  }

  /** The path from the root of `t` to its rightmost (greatest) node. */
  function RightmostPath<T>(t: Node<T>): (p: Path)
    requires t.Node?
    ensures IsNodePath(t, p) && IndexOf(t, p) == |Inorder(t)| - 1
  {
    InorderNode(t);
    if t.right.Nil? then []
    else
      var q := RightmostPath(t.right);
      assert ([Right] + q)[0] == Right && ([Right] + q)[1..] == q;
      [Right] + q
  }

  /** Climb while the current node is a right child, then step to the parent; `None` once past the root. */
  function ClimbFromRightChild(p: Path): Option<Path>
  {
    if p == [] then None
    else if p[|p| - 1] == Right then ClimbFromRightChild(p[..|p| - 1])
    else Some(p[..|p| - 1])
  }

  /** Climb while the current node is a left child, then step to the parent; `None` once past the root. */
  function ClimbFromLeftChild(p: Path): Option<Path>
  {
    if p == [] then None
    else if p[|p| - 1] == Left then ClimbFromLeftChild(p[..|p| - 1])
    else Some(p[..|p| - 1])
  }

  /** `operator++` on the node at `p`. */
  function Successor<T>(t: Node<T>, p: Path): Option<Path>
    requires IsNodePath(t, p)
  {
    var n := Subtree(t, p);
    if n.right.Node? then Some(p + [Right] + LeftmostPath(n.right))
    else ClimbFromRightChild(p)
  }

  /** `operator--` on the node at `p`. */
  function Predecessor<T>(t: Node<T>, p: Path): Option<Path>
    requires IsNodePath(t, p)
  {
    var n := Subtree(t, p);
    if n.left.Node? then Some(p + [Left] + RightmostPath(n.left))
    else ClimbFromLeftChild(p)
  }

  /** Climbing out of a right child lands on the node that follows the whole subtree. */
  lemma {:induction false} ClimbFromRightChildIndex<T>(t: Node<T>, p: Path)
    requires IsNodePath(t, p)
    ensures ClimbFromRightChild(p).None? ==> WindowEnd(t, p) == |Inorder(t)|
    ensures ClimbFromRightChild(p).Some? ==>
              IsNodePath(t, ClimbFromRightChild(p).value) &&
              IndexOf(t, ClimbFromRightChild(p).value) == WindowEnd(t, p)
  {
    if p != [] {
      var q, d := p[..|p| - 1], p[|p| - 1];
      assert p == q + [d];
      ParentIsNode(t, q, d);
      Children(t, q);
      if d == Right {
        ClimbFromRightChildIndex(t, q);
      }
    }
  }

  /** Climbing out of a left child lands on the node that precedes the whole subtree. */
  lemma {:induction false} ClimbFromLeftChildIndex<T>(t: Node<T>, p: Path)
    requires IsNodePath(t, p)
    ensures ClimbFromLeftChild(p).None? ==> Offset(t, p) == 0
    ensures ClimbFromLeftChild(p).Some? ==>
              IsNodePath(t, ClimbFromLeftChild(p).value) &&
              IndexOf(t, ClimbFromLeftChild(p).value) + 1 == Offset(t, p)
  {
    if p != [] {
      var q, d := p[..|p| - 1], p[|p| - 1];
      assert p == q + [d];
      ParentIsNode(t, q, d);
      Children(t, q);
      if d == Left {
        ClimbFromLeftChildIndex(t, q);
      }
    }
  }

  /** The node at `p + q` is the node at `q` inside the subtree at `p`, shifted by that subtree's offset. */
  lemma DescendIndex<T>(t: Node<T>, p: Path, q: Path)
    requires IsNodePath(Subtree(t, p), q)
    ensures IsNodePath(t, p + q)
    ensures IndexOf(t, p + q) == Offset(t, p) + IndexOf(Subtree(t, p), q)
  {
    SubtreeAppend(t, p, q);
  }

  /** `operator++` moves to the next in-order element, and to `end()` from the last one. */
  lemma SuccessorIndex<T>(t: Node<T>, p: Path)
    requires IsNodePath(t, p)
    ensures Successor(t, p).None? <==> IndexOf(t, p) == |Inorder(t)| - 1
    ensures Successor(t, p).Some? ==>
              IsNodePath(t, Successor(t, p).value) &&
              IndexOf(t, Successor(t, p).value) == IndexOf(t, p) + 1
  {
    var n := Subtree(t, p);
    Children(t, p);
    Window(t, p);
    if n.right.Node? {
      assert p + [Right] + LeftmostPath(n.right) == (p + [Right]) + LeftmostPath(n.right);
      DescendIndex(t, p + [Right], LeftmostPath(n.right));
      Window(t, p + [Right]);
    } else {
      assert Count(n) == Count(n.left) + 1;
      ClimbFromRightChildIndex(t, p);
      if ClimbFromRightChild(p).Some? {
        ValueAt(t, ClimbFromRightChild(p).value);
      }
    }
  }

  /** `operator--` moves to the previous in-order element; from the first one it reaches the null node. */
  lemma PredecessorIndex<T>(t: Node<T>, p: Path)
    requires IsNodePath(t, p)
    ensures Predecessor(t, p).None? <==> IndexOf(t, p) == 0
    ensures Predecessor(t, p).Some? ==>
              IsNodePath(t, Predecessor(t, p).value) &&
              IndexOf(t, Predecessor(t, p).value) + 1 == IndexOf(t, p)
  {
    var n := Subtree(t, p);
    Children(t, p);
    if n.left.Node? {
      assert p + [Left] + RightmostPath(n.left) == (p + [Left]) + RightmostPath(n.left);
      DescendIndex(t, p + [Left], RightmostPath(n.left));
    } else {
      ClimbFromLeftChildIndex(t, p);
    }
  }
}
