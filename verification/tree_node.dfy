/**
  The nodes of the unbalanced sorted binary tree behind Map, Set and Multiset.

  A node owns its value and its two subtrees; `Nil` is a null child link.
  A node is identified by the path of links followed from the root to reach it,
  so the parent of the node at `p + [d]` is the node at `p`: this is how the
  model reads the `parent_` back-links. The key of a node is computed from its
  value by the tree's key selector `key`.
*/
module TreeNode {

  datatype Node<T> = Nil | Node(left: Node<T>, data: T, right: Node<T>)

  /** Which child link to follow. */
  datatype Dir = Left | Right

  /** The links followed from the root to a node. */
  type Path = seq<Dir>

  /**
    The values in in-order (left subtree, node, right subtree). The
    concatenation lives in `Spread`, so that reasoning about a whole tree
    sees one level of structure and not the concatenation; `InorderNode`
    states the two together.
  */
  function Inorder<T>(t: Node<T>): seq<T>
    decreases t, 1
  {
    match t
    case Nil => []
    case Node(l, x, r) => Spread(l, x, r)
  }

  /** The in-order values of a node with children `l`, `r` holding `x`. */
  function Spread<T>(l: Node<T>, x: T, r: Node<T>): seq<T>
    decreases Node(l, x, r), 0
  {
    Inorder(l) + [x] + Inorder(r)
  }

  lemma InorderNode<T>(t: Node<T>)
    requires t.Node?
    ensures Inorder(t) == Inorder(t.left) + [t.data] + Inorder(t.right)
  {
  }

  /** The number of nodes of `t`, counted by walking it. */
  function Count<T>(t: Node<T>): (n: nat)
    ensures n == |Inorder(t)|
  {
    match t
    case Nil => 0
    case Node(l, _, r) => Count(l) + 1 + Count(r)
  }

  /** Keys never decrease along `s`: the in-order invariant of every tree. */
  ghost predicate Sorted<T>(key: T -> int, s: seq<T>)
  {
    forall i, j :: 0 <= i < j < |s| ==> key(s[i]) <= key(s[j])
  }

  /** Keys strictly increase along `s`: the invariant of trees without repeats. */
  ghost predicate StrictlySorted<T>(key: T -> int, s: seq<T>)
  {
    forall i, j :: 0 <= i < j < |s| ==> key(s[i]) < key(s[j])
  }

  /** Some element of `s` has key `k`. */
  ghost predicate HasKey<T>(key: T -> int, s: seq<T>, k: int)
  {
    exists i :: 0 <= i < |s| && key(s[i]) == k
  }

  /** The keys of the elements of `s`. */
  ghost function KeySet<T>(key: T -> int, s: seq<T>): set<int>
  {
    set i | 0 <= i < |s| :: key(s[i])
  }

  lemma KeySetMembership<T>(key: T -> int, s: seq<T>, k: int)
    ensures k in KeySet(key, s) <==> HasKey(key, s, k)
  {
    if k in KeySet(key, s) {
      var i :| 0 <= i < |s| && key(s[i]) == k;
    }
  }

  /** The subtree reached by following `p`; following a link out of `Nil` stays at `Nil`. */
  function Subtree<T>(t: Node<T>, p: Path): Node<T>
  {
    if p == [] || t.Nil? then t
    else if p[0] == Left then Subtree(t.left, p[1..])
    else Subtree(t.right, p[1..])
  }

  /** `p` leads to a live node of `t`. */
  predicate IsNodePath<T>(t: Node<T>, p: Path)
  {
    Subtree(t, p).Node?
  }

  /** The in-order index at which the subtree reached by `p` starts. */
  function Offset<T>(t: Node<T>, p: Path): nat
  {
    if p == [] || t.Nil? then 0
    else if p[0] == Left then Offset(t.left, p[1..])
    else Count(t.left) + 1 + Offset(t.right, p[1..])
  }

  /** The in-order index of the node reached by `p`. */
  function IndexOf<T>(t: Node<T>, p: Path): nat
    requires IsNodePath(t, p)
  {
    Offset(t, p) + Count(Subtree(t, p).left)
  }

  /** The in-order index just past the subtree reached by `p`. */
  function WindowEnd<T>(t: Node<T>, p: Path): nat
  {
    Offset(t, p) + Count(Subtree(t, p))
  }

  /** The subtree reached by `p` occupies a contiguous window of the in-order sequence. */
  lemma {:induction false} Window<T>(t: Node<T>, p: Path)
    ensures WindowEnd(t, p) <= |Inorder(t)|
    ensures Inorder(t)[Offset(t, p)..WindowEnd(t, p)] == Inorder(Subtree(t, p))
  {
    if p == [] || t.Nil? {
      assert Inorder(t)[0..|Inorder(t)|] == Inorder(t);
    } else if p[0] == Left {
      Window(t.left, p[1..]);
      WindowLeft(t, p);
    } else {
      Window(t.right, p[1..]);
      WindowRight(t, p);
    }
  }

  /** The step of `Window` into a left subtree. */
  lemma WindowLeft<T>(t: Node<T>, p: Path)
    requires t.Node? && p != [] && p[0] == Left
    requires WindowEnd(t.left, p[1..]) <= |Inorder(t.left)|
    requires Inorder(t.left)[Offset(t.left, p[1..])..WindowEnd(t.left, p[1..])] == Inorder(Subtree(t.left, p[1..]))
    ensures WindowEnd(t, p) <= |Inorder(t)|
    ensures Inorder(t)[Offset(t, p)..WindowEnd(t, p)] == Inorder(Subtree(t, p))
  {
    assert Offset(t, p) == Offset(t.left, p[1..]) && Subtree(t, p) == Subtree(t.left, p[1..]);
    InorderNode(t);
    SliceLeft(Inorder(t), Inorder(t.left), t.data, Inorder(t.right), Offset(t, p), WindowEnd(t, p));
  }

  /** The step of `Window` into a right subtree. */
  lemma WindowRight<T>(t: Node<T>, p: Path)
    requires t.Node? && p != [] && p[0] == Right
    requires WindowEnd(t.right, p[1..]) <= |Inorder(t.right)|
    requires Inorder(t.right)[Offset(t.right, p[1..])..WindowEnd(t.right, p[1..])] == Inorder(Subtree(t.right, p[1..]))
    ensures WindowEnd(t, p) <= |Inorder(t)|
    ensures Inorder(t)[Offset(t, p)..WindowEnd(t, p)] == Inorder(Subtree(t, p))
  {
    var lo, hi := Offset(t.right, p[1..]), WindowEnd(t.right, p[1..]);
    assert Offset(t, p) == |Inorder(t.left)| + 1 + lo && Subtree(t, p) == Subtree(t.right, p[1..]);
    assert WindowEnd(t, p) == |Inorder(t.left)| + 1 + hi;
    InorderNode(t);
    SliceRight(Inorder(t), Inorder(t.left), t.data, Inorder(t.right), lo, hi, Offset(t, p), WindowEnd(t, p));
  }

  /** A slice inside `a` of `s == a + [x] + b` is that slice of `a`. */
  lemma SliceLeft<T>(s: seq<T>, a: seq<T>, x: T, b: seq<T>, lo: nat, hi: nat)
    requires s == a + [x] + b && lo <= hi <= |a|
    ensures hi <= |s| && s[lo..hi] == a[lo..hi]
  {
  }

  /** A slice inside `b` of `s == a + [x] + b` is that slice of `b`, shifted by `|a| + 1`. */
  lemma SliceRight<T>(s: seq<T>, a: seq<T>, x: T, b: seq<T>, lo: nat, hi: nat, lo': nat, hi': nat)
    requires s == a + [x] + b && lo <= hi <= |b| && lo' == |a| + 1 + lo && hi' == |a| + 1 + hi
    ensures lo' <= hi' <= |s| && s[lo'..hi'] == b[lo..hi]
  {
  }


  /** The value of the node reached by `p` sits at its in-order index. */
  lemma ValueAt<T>(t: Node<T>, p: Path)
    requires IsNodePath(t, p)
    ensures IndexOf(t, p) < |Inorder(t)|
    ensures Inorder(t)[IndexOf(t, p)] == Subtree(t, p).data
  {
    Window(t, p);
    var n := Subtree(t, p);
    assert Inorder(n) == Inorder(n.left) + [n.data] + Inorder(n.right);
    assert Inorder(n)[Count(n.left)] == n.data;
  }

  /** Where a live node sits relative to the root: before it in the left subtree, at it, or after it in the right one. */
  lemma Side<T>(t: Node<T>, p: Path)
    requires IsNodePath(t, p)
    ensures p == [] <==> IndexOf(t, p) == Count(t.left)
    ensures p != [] && p[0] == Left <==> IndexOf(t, p) < Count(t.left)
    ensures p != [] && p[0] == Left ==> IsNodePath(t.left, p[1..]) && IndexOf(t.left, p[1..]) == IndexOf(t, p)
    ensures p != [] && p[0] == Right ==>
              IsNodePath(t.right, p[1..]) && Count(t.left) + 1 + IndexOf(t.right, p[1..]) == IndexOf(t, p)
  {
    if p != [] {
      if p[0] == Left {
        ValueAt(t.left, p[1..]);
      }
    }
  }

  /** Distinct live nodes have distinct in-order indices: a node is determined by its index. */
  lemma {:induction false} IndexDetermines<T>(t: Node<T>, p: Path, q: Path)
    requires IsNodePath(t, p) && IsNodePath(t, q) && IndexOf(t, p) == IndexOf(t, q)
    ensures p == q
  {
    Side(t, p);
    Side(t, q);
    if p != [] {
      assert p == [p[0]] + p[1..] && q == [q[0]] + q[1..];
      if p[0] == Left {
        IndexDetermines(t.left, p[1..], q[1..]);
      } else {
        IndexDetermines(t.right, p[1..], q[1..]);
      }
    }
  }

  /** Following `p` and then `q` is following `p + q`. */
  lemma {:induction false} SubtreeAppend<T>(t: Node<T>, p: Path, q: Path)
    ensures Subtree(t, p + q) == Subtree(Subtree(t, p), q)
    ensures Offset(t, p + q) == Offset(t, p) + Offset(Subtree(t, p), q)
  {
    if p == [] {
      assert p + q == q;
    } else if t.Nil? {
      NilStaysNil<T>(q);
    } else {
      assert (p + q)[0] == p[0] && (p + q)[1..] == p[1..] + q;
      if p[0] == Left {
        SubtreeAppend(t.left, p[1..], q);
      } else {
        SubtreeAppend(t.right, p[1..], q);
      }
    }
  }

  lemma NilStaysNil<T>(q: Path)
    ensures Subtree<T>(Nil, q) == Nil && Offset<T>(Nil, q) == 0
  {
  }

  /** The parent of a live node is a live node. */
  lemma ParentIsNode<T>(t: Node<T>, p: Path, d: Dir)
    requires IsNodePath(t, p + [d])
    ensures IsNodePath(t, p)
  {
    SubtreeAppend(t, p, [d]);
  }

  /** Where the children of the node at `p` sit in the in-order sequence. */
  lemma Children<T>(t: Node<T>, p: Path)
    requires IsNodePath(t, p)
    ensures Subtree(t, p + [Left]) == Subtree(t, p).left
    ensures Subtree(t, p + [Right]) == Subtree(t, p).right
    ensures Offset(t, p + [Left]) == Offset(t, p)
    ensures Offset(t, p + [Right]) == IndexOf(t, p) + 1
    ensures WindowEnd(t, p + [Left]) == IndexOf(t, p)
    ensures WindowEnd(t, p + [Right]) == WindowEnd(t, p)
  {
    SubtreeAppend(t, p, [Left]);
    SubtreeAppend(t, p, [Right]);
    var n := Subtree(t, p);
    assert Subtree(n, [Left]) == n.left by { assert [Left][1..] == []; }
    assert Subtree(n, [Right]) == n.right by { assert [Right][1..] == []; }
    assert Offset(n, [Left]) == 0 by { assert [Left][1..] == []; }
    assert Offset(n, [Right]) == Count(n.left) + 1 by { assert [Right][1..] == []; }
  }
}
