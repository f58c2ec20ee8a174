/**
  The structural edits of the sorted binary tree: attaching a new node
  (`find_suitable_node` + `insert_new_node`), removing a node by the four
  `erase_case_*` cases, and writing a value through an iterator.
*/
module TreeMutation {
  import opened TreeNode

  /**
    Descend from the root as `find` does and attach `v` where the search falls
    off the tree. A key equal to the node's is sent right when repeats are
    allowed, so the new value ends the run of equal keys; otherwise the descent
    stops at the equal node and nothing is attached. The result is the new tree,
    the path of the attached (or the blocking) node, and whether a node was attached.
  */
  function InsertNode<T>(key: T -> int, t: Node<T>, v: T, repeats: bool): (Node<T>, Path, bool)
  {
    match t
    case Nil => (Node(Nil, v, Nil), [], true)
    case Node(l, x, r) =>
      if key(v) < key(x) then
        var (l', p, b) := InsertNode(key, l, v, repeats);
        (Node(l', x, r), [Left] + p, b)
      else if key(x) < key(v) || repeats then
        var (r', p, b) := InsertNode(key, r, v, repeats);
        (Node(l, x, r'), [Right] + p, b)
      else
        (t, [], false)
  }

  /** Position `i` of a key-sorted `s` is where `v` belongs: at the end of the run of keys not above `key(v)`. */
  ghost predicate Boundary<T>(key: T -> int, s: seq<T>, i: nat, v: T)
  {
    i <= |s| &&
    (forall j :: 0 <= j < i ==> key(s[j]) <= key(v)) &&
    (forall j :: i <= j < |s| ==> key(v) < key(s[j]))
  }

  lemma SortedChildren<T>(key: T -> int, t: Node<T>)
    requires t.Node? && Sorted(key, Inorder(t))
    ensures Sorted(key, Inorder(t.left)) && Sorted(key, Inorder(t.right))
    ensures forall j :: 0 <= j < |Inorder(t.left)| ==> key(Inorder(t.left)[j]) <= key(t.data)
    ensures forall j :: 0 <= j < |Inorder(t.right)| ==> key(t.data) <= key(Inorder(t.right)[j])
  {
    InorderNode(t);
    SortedBefore(key, Inorder(t), Inorder(t.left), t.data, Inorder(t.right));
    SortedAfter(key, Inorder(t), Inorder(t.left), t.data, Inorder(t.right));
  }

  /** In a sorted `s == a + [x] + b`, `a` is sorted with keys at most `key(x)`. */
  lemma SortedBefore<T>(key: T -> int, s: seq<T>, a: seq<T>, x: T, b: seq<T>)
    requires s == a + [x] + b && Sorted(key, s)
    ensures Sorted(key, a) && forall j :: 0 <= j < |a| ==> key(a[j]) <= key(x)
  {
    assert s[|a|] == x;
    forall i, j | 0 <= i < j < |a| ensures key(a[i]) <= key(a[j]) {
      assert a[i] == s[i] && a[j] == s[j];
    }
    forall j | 0 <= j < |a| ensures key(a[j]) <= key(x) {
      assert a[j] == s[j];
    }
  }

  /** In a sorted `s == a + [x] + b`, `b` is sorted with keys at least `key(x)`. */
  lemma SortedAfter<T>(key: T -> int, s: seq<T>, a: seq<T>, x: T, b: seq<T>)
    requires s == a + [x] + b && Sorted(key, s)
    ensures Sorted(key, b) && forall j :: 0 <= j < |b| ==> key(x) <= key(b[j])
  {
    var k := |a| + 1;
    assert s[|a|] == x;
    forall i, j | 0 <= i < j < |b| ensures key(b[i]) <= key(b[j]) {
      assert b[i] == s[k + i] && b[j] == s[k + j];
    }
    forall j | 0 <= j < |b| ensures key(x) <= key(b[j]) {
      assert b[j] == s[k + j];
    }
  }


  /**
    What insertion promises: the new value lands at its sorted position and
    nothing else changes; with repeats forbidden a node is attached exactly when
    the key was absent, and otherwise the node holding that key is returned.
  */
  ghost predicate Placed<T>(key: T -> int, t: Node<T>, v: T, repeats: bool)
  {
    var (t', p, b) := InsertNode(key, t, v, repeats);
    IsNodePath(t', p) &&
    (b ==> Attached(key, Inorder(t), t', p, v, repeats)) &&
    (!b ==> !repeats && t' == t && key(Subtree(t, p).data) == key(v))
  }

  /** `v` was attached at `p` of `t'`, at its sorted position among the values `s` of the old tree. */
  ghost predicate Attached<T>(key: T -> int, s: seq<T>, t': Node<T>, p: Path, v: T, repeats: bool)
    requires IsNodePath(t', p)
  {
    var i := IndexOf(t', p);
    Subtree(t', p).data == v &&
    Boundary(key, s, i, v) &&
    Inorder(t') == s[..i] + [v] + s[i..] &&
    (!repeats ==> forall j :: 0 <= j < i ==> key(s[j]) < key(v))
  }

  lemma {:induction false} InsertPlacement<T>(key: T -> int, t: Node<T>, v: T, repeats: bool)
    requires Sorted(key, Inorder(t))
    ensures Placed(key, t, v, repeats)
  {
    match t
    case Nil =>
    case Node(l, x, r) =>
      SortedChildren(key, t);
      if key(v) < key(x) {
        InsertPlacement(key, l, v, repeats);
        PlacedLeft(key, t, v, repeats);
      } else if key(x) < key(v) || repeats {
        InsertPlacement(key, r, v, repeats);
        PlacedRight(key, t, v, repeats);
      } else {
        assert InsertNode(key, t, v, repeats).1 == [];
      }
  }

  lemma PlacedLeft<T>(key: T -> int, t: Node<T>, v: T, repeats: bool)
    requires t.Node? && key(v) < key(t.data)
    requires forall j :: 0 <= j < |Inorder(t.right)| ==> key(t.data) <= key(Inorder(t.right)[j])
    requires Placed(key, t.left, v, repeats)
    ensures Placed(key, t, v, repeats)
  {
    var Node(l, x, r) := t;
    var (t', p, b) := InsertNode(key, t, v, repeats);
    var (l', q, _) := InsertNode(key, l, v, repeats);
    assert t' == Node(l', x, r) && p == [Left] + q;
    assert p[0] == Left && p[1..] == q;
    if b {
      AttachedLeft(key, l, x, r, l', q, v, repeats);
    }
  }

  /** Attaching `v` inside the left subtree attaches it at its sorted position in the whole tree. */
  lemma AttachedLeft<T>(key: T -> int, l: Node<T>, x: T, r: Node<T>, l': Node<T>, q: Path, v: T, repeats: bool)
    requires key(v) < key(x) && IsNodePath(l', q)
    requires forall j :: 0 <= j < |Inorder(r)| ==> key(x) <= key(Inorder(r)[j])
    requires Attached(key, Inorder(l), l', q, v, repeats)
    ensures IsNodePath(Node(l', x, r), [Left] + q)
    ensures Attached(key, Inorder(Node(l, x, r)), Node(l', x, r), [Left] + q, v, repeats)
  {
    var t', p := Node(l', x, r), [Left] + q;
    LeftChildIndex(l', x, r, q);
    var i := IndexOf(l', q);
    InorderNode(Node(l, x, r));
    InorderNode(t');
    LeftBoundary(key, Inorder(Node(l, x, r)), Inorder(l), x, Inorder(r), i, v, repeats);
    InsertInLeft(Inorder(Node(l, x, r)), Inorder(l), x, Inorder(r), Inorder(l'), Inorder(t'), i, v);
  }


  lemma PlacedRight<T>(key: T -> int, t: Node<T>, v: T, repeats: bool)
    requires t.Node? && (key(t.data) < key(v) || (repeats && key(t.data) <= key(v)))
    requires forall j :: 0 <= j < |Inorder(t.left)| ==> key(Inorder(t.left)[j]) <= key(t.data)
    requires Placed(key, t.right, v, repeats)
    ensures Placed(key, t, v, repeats)
  {
    var Node(l, x, r) := t;
    var (t', p, b) := InsertNode(key, t, v, repeats);
    var (r', q, _) := InsertNode(key, r, v, repeats);
    assert t' == Node(l, x, r') && p == [Right] + q;
    assert p[0] == Right && p[1..] == q;
    if b {
      AttachedRight(key, l, x, r, r', q, v, repeats);
    }
  }

  /** Attaching `v` inside the right subtree attaches it at its sorted position in the whole tree. */
  lemma AttachedRight<T>(key: T -> int, l: Node<T>, x: T, r: Node<T>, r': Node<T>, q: Path, v: T, repeats: bool)
    requires (key(x) < key(v) || (repeats && key(x) <= key(v))) && IsNodePath(r', q)
    requires forall j :: 0 <= j < |Inorder(l)| ==> key(Inorder(l)[j]) <= key(x)
    requires Attached(key, Inorder(r), r', q, v, repeats)
    ensures IsNodePath(Node(l, x, r'), [Right] + q)
    ensures Attached(key, Inorder(Node(l, x, r)), Node(l, x, r'), [Right] + q, v, repeats)
  {
    var t', p := Node(l, x, r'), [Right] + q;
    RightChildIndex(l, x, r', q);
    var i, k := IndexOf(r', q), IndexOf(t', p);
    InorderNode(Node(l, x, r));
    InorderNode(t');
    RightBoundary(key, Inorder(Node(l, x, r)), Inorder(l), x, Inorder(r), i, k, v, repeats);
    InsertInRight(Inorder(Node(l, x, r)), Inorder(l), x, Inorder(r), Inorder(r'), Inorder(t'), i, k, v);
  }


  /** The node at `q` in the right subtree is the node at `[Right] + q` of the whole tree. */
  lemma RightChildIndex<T>(l: Node<T>, x: T, r: Node<T>, q: Path)
    requires IsNodePath(r, q)
    ensures IsNodePath(Node(l, x, r), [Right] + q) && Subtree(Node(l, x, r), [Right] + q) == Subtree(r, q)
    ensures IndexOf(Node(l, x, r), [Right] + q) == |Inorder(l)| + 1 + IndexOf(r, q)
  {
    var p := [Right] + q;
    assert p[0] == Right && p[1..] == q;
  }

  /** The node at `q` in the left subtree is the node at `[Left] + q` of the whole tree. */
  lemma LeftChildIndex<T>(l: Node<T>, x: T, r: Node<T>, q: Path)
    requires IsNodePath(l, q)
    ensures IsNodePath(Node(l, x, r), [Left] + q) && Subtree(Node(l, x, r), [Left] + q) == Subtree(l, q)
    ensures IndexOf(Node(l, x, r), [Left] + q) == IndexOf(l, q)
  {
    var p := [Left] + q;
    assert p[0] == Left && p[1..] == q;
  }


  /** Inserting `v` at `i` of `s == a + [x] + b`, with `i` inside `a`, is inserting it into `a`. */
  lemma InsertInLeft<T>(s: seq<T>, a: seq<T>, x: T, b: seq<T>, a': seq<T>, s': seq<T>, i: nat, v: T)
    requires s == a + [x] + b && s' == a' + [x] + b
    requires i <= |a| && a' == a[..i] + [v] + a[i..]
    ensures s' == s[..i] + [v] + s[i..]
  {
    assert s[..i] == a[..i];
    assert s[i..] == a[i..] + [x] + b;
  }


  /** Inserting `v` at `k == |a| + 1 + i` of `s == a + [x] + b`, with `i` inside `b`, is inserting it into `b`. */
  lemma InsertInRight<T>(s: seq<T>, a: seq<T>, x: T, b: seq<T>, b': seq<T>, s': seq<T>, i: nat, k: nat, v: T)
    requires s == a + [x] + b && s' == a + [x] + b'
    requires i <= |b| && b' == b[..i] + [v] + b[i..] && k == |a| + 1 + i
    ensures s' == s[..k] + [v] + s[k..]
  {
    assert s[..k] == a + [x] + b[..i];
    assert s[k..] == b[i..];
  }


  /** The boundary of `v` inside the left part of `a + [x] + b` is a boundary of the whole. */
  lemma LeftBoundary<T>(key: T -> int, s: seq<T>, a: seq<T>, x: T, b: seq<T>, i: nat, v: T, repeats: bool)
    requires s == a + [x] + b
    requires key(v) < key(x)
    requires forall j :: 0 <= j < |b| ==> key(x) <= key(b[j])
    requires Boundary(key, a, i, v)
    requires !repeats ==> forall j :: 0 <= j < i ==> key(a[j]) < key(v)
    ensures Boundary(key, s, i, v)
    ensures !repeats ==> forall j :: 0 <= j < i ==> key(s[j]) < key(v)
  {
    forall j | 0 <= j < i ensures s[j] == a[j] {
    }
    forall j | i <= j < |s| ensures key(v) < key(s[j]) {
      if j < |a| {
        assert s[j] == a[j];
      } else if j > |a| {
        assert s[j] == b[j - |a| - 1];
      }
    }
  }

  /** The boundary of `v` inside the right part of `a + [x] + b` is a boundary of the whole. */
  lemma RightBoundary<T>(key: T -> int, s: seq<T>, a: seq<T>, x: T, b: seq<T>, i: nat, k: nat, v: T, repeats: bool)
    requires s == a + [x] + b && k == |a| + 1 + i
    requires key(x) < key(v) || (repeats && key(x) <= key(v))
    requires forall j :: 0 <= j < |a| ==> key(a[j]) <= key(x)
    requires Boundary(key, b, i, v)
    requires !repeats ==> forall j :: 0 <= j < i ==> key(b[j]) < key(v)
    ensures Boundary(key, s, k, v)
    ensures !repeats ==> forall j :: 0 <= j < k ==> key(s[j]) < key(v)
  {
    var n := |a| + 1;
    forall j | 0 <= j < k ensures key(s[j]) <= key(v) && (!repeats ==> key(s[j]) < key(v)) {
      if j < |a| {
        assert s[j] == a[j];
      } else if j > |a| {
        assert s[j] == b[j - n];
      }
    }
    forall j | k <= j < |s| ensures key(v) < key(s[j]) {
      assert s[j] == b[j - n];
    }
  }


  /** Insertion only adds a leaf: every node that was reachable still is, at the same path, holding the same value. */
  lemma {:induction false} InsertKeepsNodes<T>(key: T -> int, t: Node<T>, v: T, repeats: bool, q: Path)
    requires IsNodePath(t, q)
    ensures var t' := InsertNode(key, t, v, repeats).0;
      IsNodePath(t', q) && Subtree(t', q).data == Subtree(t, q).data
  {
    match t
    case Node(l, x, r) =>
      if q != [] {
        if key(v) < key(x) {
          if q[0] == Left { InsertKeepsNodes(key, l, v, repeats, q[1..]); }
        } else if key(x) < key(v) || repeats {
          if q[0] == Right { InsertKeepsNodes(key, r, v, repeats, q[1..]); }
        }
      }
  }

  /** Inserting `v` at a boundary position keeps a key-sorted sequence sorted. */
  lemma InsertKeepsSorted<T>(key: T -> int, s: seq<T>, i: nat, v: T)
    requires Sorted(key, s) && Boundary(key, s, i, v)
    ensures Sorted(key, s[..i] + [v] + s[i..])
  {
    var s' := s[..i] + [v] + s[i..];
    forall a, b | 0 <= a < b < |s'| ensures key(s'[a]) <= key(s'[b]) {
      if b < i {
        assert s'[a] == s[a] && s'[b] == s[b];
      } else if a > i {
        assert s'[a] == s[a - 1] && s'[b] == s[b - 1];
      } else if a < i {
        assert s'[a] == s[a];
        if b > i { assert s'[b] == s[b - 1]; }
      } else {
        assert s'[b] == s[b - 1];
      }
    }
  }

  /** The value of the leftmost node, which is the first in-order value. */
  function LeftmostValue<T>(t: Node<T>): (x: T)
    requires t.Node?
    ensures x == Inorder(t)[0]
  {
    InorderNode(t);
    if t.left.Nil? then t.data else LeftmostValue(t.left)
  }

  /** Unlink the leftmost node, lifting its right subtree into its place. */
  function RemoveLeftmost<T>(t: Node<T>): (r: Node<T>)
    requires t.Node?
    ensures Inorder(r) == Inorder(t)[1..]
  {
    InorderNode(t);
    if t.left.Nil? then t.right
    else Node(RemoveLeftmost(t.left), t.data, t.right)
  }

  /**
    Remove the root of `t` by the four cases of erase: no children; left child
    only (the left subtree takes its place); right child only (likewise); both
    children (the in-order successor, the leftmost node of the right subtree,
    is unlinked from where it was and takes the root's place, the case where
    it is the right child itself being handled on its own).
  */
  function RemoveRoot<T>(t: Node<T>): (r: Node<T>)
    requires t.Node?
    ensures Inorder(r) == Inorder(t.left) + Inorder(t.right)
  {
    InorderNode(t);
    if t.left.Nil? && t.right.Nil? then Nil
    else if t.right.Nil? then t.left
    else if t.left.Nil? then t.right
    else if t.right.left.Nil? then
      InorderNode(t.right);
      assert Inorder(t.right) == [t.right.data] + Inorder(t.right.right);
      Node(t.left, t.right.data, t.right.right)
    else
      assert Inorder(t.right) == [LeftmostValue(t.right)] + Inorder(t.right)[1..];
      Node(t.left, LeftmostValue(t.right), RemoveLeftmost(t.right))
  }

  /** Remove the node reached by `p`. */
  function EraseAt<T>(t: Node<T>, p: Path): Node<T>
    requires IsNodePath(t, p)
  {
    if p == [] then RemoveRoot(t)
    else if p[0] == Left then Node(EraseAt(t.left, p[1..]), t.data, t.right)
    else Node(t.left, t.data, EraseAt(t.right, p[1..]))
  }

  /** Erase removes exactly the in-order element the path denotes and keeps the others in order. */
  lemma {:induction false} EraseAtIndex<T>(t: Node<T>, p: Path)
    requires IsNodePath(t, p)
    ensures var s, i := Inorder(t), IndexOf(t, p);
      i < |s| && Inorder(EraseAt(t, p)) == s[..i] + s[i + 1..]
  {
    if p == [] {
      EraseRootIndex(t);
    } else if p[0] == Left {
      EraseAtIndex(t.left, p[1..]);
      EraseLeftIndex(t, p);
    } else {
      EraseAtIndex(t.right, p[1..]);
      EraseRightIndex(t, p);
    }
  }

  lemma EraseRootIndex<T>(t: Node<T>)
    requires t.Node?
    ensures var s, i := Inorder(t), IndexOf(t, []);
      i < |s| && Inorder(EraseAt(t, [])) == s[..i] + s[i + 1..]
  {
    InorderNode(t);
    assert IndexOf(t, []) == |Inorder(t.left)|;
    assert Inorder(EraseAt(t, [])) == Inorder(t.left) + Inorder(t.right);
    DropMiddle(Inorder(t), Inorder(t.left), t.data, Inorder(t.right), Inorder(EraseAt(t, [])), IndexOf(t, []));
  }

  /** Dropping the middle element of `s == a + [x] + b` leaves `a + b`. */
  lemma DropMiddle<T>(s: seq<T>, a: seq<T>, x: T, b: seq<T>, s': seq<T>, k: nat)
    requires s == a + [x] + b && s' == a + b && k == |a|
    ensures k < |s| && s' == s[..k] + s[k + 1..]
  {
    assert s[..k] == a;
    assert s[k + 1..] == b;
  }


  /** The step of `EraseAtIndex` into a left subtree. */
  lemma EraseLeftIndex<T>(t: Node<T>, p: Path)
    requires IsNodePath(t, p) && p != [] && p[0] == Left
    requires var s, i := Inorder(t.left), IndexOf(t.left, p[1..]);
      i < |s| && Inorder(EraseAt(t.left, p[1..])) == s[..i] + s[i + 1..]
    ensures var s, i := Inorder(t), IndexOf(t, p);
      i < |s| && Inorder(EraseAt(t, p)) == s[..i] + s[i + 1..]
  {
    var i := IndexOf(t.left, p[1..]);
    assert IndexOf(t, p) == i;
    DropInLeft(Inorder(t.left), t.data, Inorder(t.right), i);
  }

  /** The step of `EraseAtIndex` into a right subtree. */
  lemma EraseRightIndex<T>(t: Node<T>, p: Path)
    requires IsNodePath(t, p) && p != [] && p[0] == Right
    requires var s, i := Inorder(t.right), IndexOf(t.right, p[1..]);
      i < |s| && Inorder(EraseAt(t.right, p[1..])) == s[..i] + s[i + 1..]
    ensures var s, i := Inorder(t), IndexOf(t, p);
      i < |s| && Inorder(EraseAt(t, p)) == s[..i] + s[i + 1..]
  {
    var i := IndexOf(t.right, p[1..]);
    assert IndexOf(t, p) == Count(t.left) + 1 + i;
    DropInRight(Inorder(t.left), t.data, Inorder(t.right), i);
  }

  /** Dropping the element at `i` of `a + [x] + b`, with `i` inside `a`. */
  lemma DropInLeft<T>(a: seq<T>, x: T, b: seq<T>, i: nat)
    requires i < |a|
    ensures var s := a + [x] + b; s[..i] + s[i + 1..] == (a[..i] + a[i + 1..]) + [x] + b
  {
    var s := a + [x] + b;
    assert s[..i] == a[..i];
    assert s[i + 1..] == a[i + 1..] + [x] + b;
  }

  /** Dropping the element at `|a| + 1 + i` of `a + [x] + b`, with `i` inside `b`. */
  lemma DropInRight<T>(a: seq<T>, x: T, b: seq<T>, i: nat)
    requires i < |b|
    ensures var s, k := a + [x] + b, |a| + 1 + i; s[..k] + s[k + 1..] == a + [x] + (b[..i] + b[i + 1..])
  {
    var s, k := a + [x] + b, |a| + 1 + i;
    assert s[..k] == a + [x] + b[..i];
    assert s[k + 1..] == b[i + 1..];
  }

  /** Removing one element keeps a sorted sequence sorted. */
  lemma RemoveKeepsSorted<T>(key: T -> int, s: seq<T>, i: nat)
    requires Sorted(key, s) && i < |s|
    ensures Sorted(key, s[..i] + s[i + 1..])
  {
    var s' := s[..i] + s[i + 1..];
    forall a, b | 0 <= a < b < |s'| ensures key(s'[a]) <= key(s'[b]) {
      assert s'[a] == if a < i then s[a] else s[a + 1];
      assert s'[b] == if b < i then s[b] else s[b + 1];
    }
  }

  /** Removing one element keeps a strictly sorted sequence strictly sorted. */
  lemma RemoveKeepsStrictlySorted<T>(key: T -> int, s: seq<T>, i: nat)
    requires StrictlySorted(key, s) && i < |s|
    ensures StrictlySorted(key, s[..i] + s[i + 1..])
  {
    var s' := s[..i] + s[i + 1..];
    forall a, b | 0 <= a < b < |s'| ensures key(s'[a]) < key(s'[b]) {
      assert s'[a] == if a < i then s[a] else s[a + 1];
      assert s'[b] == if b < i then s[b] else s[b + 1];
    }
  }

  /** Write `v` into the node reached by `p` (assignment through an iterator's reference). */
  function UpdateAt<T>(t: Node<T>, p: Path, v: T): Node<T>
    requires IsNodePath(t, p)
  {
    if p == [] then Node(t.left, v, t.right)
    else if p[0] == Left then Node(UpdateAt(t.left, p[1..], v), t.data, t.right)
    else Node(t.left, t.data, UpdateAt(t.right, p[1..], v))
  }

  /** Writing through a node replaces that one in-order element and keeps every path. */
  lemma {:induction false} UpdateAtIndex<T>(t: Node<T>, p: Path, v: T)
    requires IsNodePath(t, p)
    ensures Updated(t, p, v)
  {
    if p == [] {
    } else if p[0] == Left {
      UpdateAtIndex(t.left, p[1..], v);
      UpdateLeft(t, p, v);
    } else {
      UpdateAtIndex(t.right, p[1..], v);
      UpdateRight(t, p, v);
    }
  }

  /** Writing `v` at `p` changes exactly the in-order element at the index of `p`, and keeps the path live. */
  ghost predicate Updated<T>(t: Node<T>, p: Path, v: T)
    requires IsNodePath(t, p)
  {
    var t' := UpdateAt(t, p, v);
    IsNodePath(t', p) && IndexOf(t', p) == IndexOf(t, p) && Subtree(t', p).data == v &&
    IndexOf(t, p) < |Inorder(t)| && Inorder(t') == Inorder(t)[IndexOf(t, p) := v]
  }

  /** The step of `UpdateAtIndex` into a left subtree. */
  lemma UpdateLeft<T>(t: Node<T>, p: Path, v: T)
    requires IsNodePath(t, p) && p != [] && p[0] == Left && Updated(t.left, p[1..], v)
    ensures Updated(t, p, v)
  {
    var q := p[1..];
    var t', l' := UpdateAt(t, p, v), UpdateAt(t.left, q, v);
    assert p == [Left] + q && t == Node(t.left, t.data, t.right) && t' == Node(l', t.data, t.right);
    LeftChildIndex(t.left, t.data, t.right, q);
    LeftChildIndex(l', t.data, t.right, q);
    InorderNode(t);
    InorderNode(t');
    SetInLeft(Inorder(t), Inorder(t.left), t.data, Inorder(t.right), Inorder(l'), Inorder(t'), IndexOf(t.left, q), v);
  }

  /** The step of `UpdateAtIndex` into a right subtree. */
  lemma UpdateRight<T>(t: Node<T>, p: Path, v: T)
    requires IsNodePath(t, p) && p != [] && p[0] == Right && Updated(t.right, p[1..], v)
    ensures Updated(t, p, v)
  {
    var q := p[1..];
    var t', r' := UpdateAt(t, p, v), UpdateAt(t.right, q, v);
    assert p == [Right] + q && t == Node(t.left, t.data, t.right) && t' == Node(t.left, t.data, r');
    RightChildIndex(t.left, t.data, t.right, q);
    RightChildIndex(t.left, t.data, r', q);
    InorderNode(t);
    InorderNode(t');
    SetInRight(Inorder(t), Inorder(t.left), t.data, Inorder(t.right), Inorder(r'), Inorder(t'),
               IndexOf(t.right, q), IndexOf(t, p), v);
  }

  /** Writing `v` at `i` of `s == a + [x] + b`, with `i` inside `a`, is writing it into `a`. */
  lemma SetInLeft<T>(s: seq<T>, a: seq<T>, x: T, b: seq<T>, a': seq<T>, s': seq<T>, i: nat, v: T)
    requires s == a + [x] + b && s' == a' + [x] + b && i < |a| && a' == a[i := v]
    ensures i < |s| && s' == s[i := v]
  {
  }

  /** Writing `v` at `k == |a| + 1 + i` of `s == a + [x] + b`, with `i` inside `b`, is writing it into `b`. */
  lemma SetInRight<T>(s: seq<T>, a: seq<T>, x: T, b: seq<T>, b': seq<T>, s': seq<T>, i: nat, k: nat, v: T)
    requires s == a + [x] + b && s' == a + [x] + b' && i < |b| && b' == b[i := v] && k == |a| + 1 + i
    ensures k < |s| && s' == s[k := v]
  {
  }

}
