/**
  The sorted binary search tree shared by Map, Set and Multiset
  (`SortedBinaryTree__`): an unbalanced tree of nodes owned through `root`,
  with a `size` counter, a key selector, and bidirectional iterators that carry
  the tree they belong to, so that `end()` can be decremented.
*/
module BinaryTree {
  import opened Wrappers
  import opened TreeNode
  import opened TreeIteration
  import opened TreeMutation

  /** The selector of Set and Multiset (`TypeOfValue__`): a value is its own key. */
  function Identity(x: int): int { x }

  /**
    Item `i` of `items` gets a node when repeats are allowed or when its key is
    found neither in `base` nor among the items before it.
  */
  ghost predicate Accepts<T>(key: T -> int, base: seq<T>, items: seq<T>, i: nat, repeats: bool)
    requires i < |items|
  {
    repeats || !HasKey(key, base + items[..i], key(items[i]))
  }

  /** The items, in order, that insertion one by one after `base` gives a node. */
  ghost function Accepted<T>(key: T -> int, base: seq<T>, items: seq<T>, repeats: bool): seq<T>
  {
    if items == [] then []
    else
      var n := |items| - 1;
      Accepted(key, base, items[..n], repeats) + (if Accepts(key, base, items, n, repeats) then [items[n]] else [])
  }

  /**
    How far `emplace` has got: `done` reports the first `|done|` arguments,
    and the tree `t` holds `base` plus those of them that were accepted.
  */
  ghost predicate Progress<T>(key: T -> int, owner: SortedBinaryTree<T>, t: Node<T>, base: seq<T>, args: seq<T>,
                              repeats: bool, verdicts: seq<bool>, done: seq<(TreeIterator<T>, bool)>)
  {
    |done| <= |args| && verdicts == Verdicts(key, base, args, repeats) &&
    Tally(key, base, args[..|done|], repeats, Inorder(t)) &&
    Reported(key, owner, t, args, verdicts, done)
  }

  /**
    `s` holds `base` plus the accepted ones of `prefix`, has the keys of both,
    and keeps distinct keys when no repeats are allowed.
  */
  ghost predicate Tally<T>(key: T -> int, base: seq<T>, prefix: seq<T>, repeats: bool, s: seq<T>)
  {
    multiset(s) == multiset(base) + multiset(Accepted(key, base, prefix, repeats)) &&
    KeySet(key, s) == KeySet(key, base + prefix) &&
    (!repeats && StrictlySorted(key, base) ==> StrictlySorted(key, s))
  }

  /** Whether each item, inserted one by one after `base`, gets a node. */
  ghost function Verdicts<T>(key: T -> int, base: seq<T>, items: seq<T>, repeats: bool): (r: seq<bool>)
    ensures |r| == |items|
  {
    if items == [] then []
    else
      var n := |items| - 1;
      Verdicts(key, base, items[..n], repeats) + [Accepts(key, base, items, n, repeats)]
  }

  lemma {:induction false} VerdictAt<T>(key: T -> int, base: seq<T>, items: seq<T>, repeats: bool, j: nat)
    requires j < |items|
    ensures Verdicts(key, base, items, repeats)[j] == Accepts(key, base, items, j, repeats)
  {
    var n := |items| - 1;
    if j < n {
      VerdictAt(key, base, items[..n], repeats, j);
      assert items[..n][..j] == items[..j] && items[..n][j] == items[j];
    }
  }

  lemma AllVerdicts<T>(key: T -> int, base: seq<T>, items: seq<T>, repeats: bool)
    ensures forall j :: 0 <= j < |items| ==> Verdicts(key, base, items, repeats)[j] == Accepts(key, base, items, j, repeats)
  {
    forall j | 0 <= j < |items| ensures Verdicts(key, base, items, repeats)[j] == Accepts(key, base, items, j, repeats) {
      VerdictAt(key, base, items, repeats, j);
    }
  }

  /** The items, in order, that insertion one by one after `base` turns away. */
  ghost function Rejected<T>(key: T -> int, base: seq<T>, items: seq<T>, repeats: bool): seq<T>
  {
    if items == [] then []
    else
      var n := |items| - 1;
      Rejected(key, base, items[..n], repeats) + (if Accepts(key, base, items, n, repeats) then [] else [items[n]])
  }

  /** The iterator of the tree: the node it points at (`None` is the null node) and the tree whose root it carries. */
  datatype TreeIterator<T> = TreeIterator(node: Option<Path>, tree: SortedBinaryTree<T>)

  class SortedBinaryTree<T> {
    const key: T -> int
    var root: Node<T>
    var size: nat

    /** The in-order keys never decrease and `size` counts the nodes. */
    ghost predicate Valid()
      reads this
    {
      Sorted(key, Inorder(root)) && size == |Inorder(root)|
    }

    /** The stored values in iteration order. */
    function Elements(): seq<T>
      reads this
    {
      Inorder(root)
    }

    /** `it` points at a live node of this tree. */
    predicate IsLive(it: TreeIterator<T>)
      reads this
    {
      it.tree == this && it.node.Some? && IsNodePath(root, it.node.value)
    }

    /** `it` is an iterator of this tree: at a live node or at `end()`. */
    predicate Denotes(it: TreeIterator<T>)
      reads this
    {
      it.tree == this && (it.node.None? || IsNodePath(root, it.node.value))
    }

    /** How many elements iteration visits before `it`; `end()` is past all of them. */
    function Position(it: TreeIterator<T>): (i: nat)
      reads this
      requires Denotes(it)
      ensures i <= |Elements()| && (i == |Elements()| <==> it.node.None?)
    {
      if it.node.None? then |Elements()|
      else
        ValueAt(root, it.node.value);
        IndexOf(root, it.node.value)
    }

    /** Iterators are compared by node and tree: two live iterators at the same position are equal. */
    lemma SamePosition(a: TreeIterator<T>, b: TreeIterator<T>)
      requires IsLive(a) && IsLive(b) && Position(a) == Position(b)
      ensures a == b
    {
      IndexDetermines(root, a.node.value, b.node.value);
    }

    constructor (key: T -> int)
      ensures Valid() && this.key == key && Elements() == []
    {
      this.key := key;
      root := Nil;
      size := 0;
    }

    /** Copy construction: an independent tree with the same values. */
    constructor Copy(other: SortedBinaryTree<T>)
      requires other.Valid()
      ensures Valid() && key == other.key && Elements() == other.Elements()
    {
      key := other.key;
      root := other.root;
      size := other.size;
    }

    /** Move construction: take over `other`'s nodes and leave it empty. */
    constructor Move(other: SortedBinaryTree<T>)
      requires other.Valid()
      modifies other
      ensures Valid() && key == other.key && Elements() == old(other.Elements())
      ensures other.Valid() && other.Elements() == []
    {
      key := other.key;
      root := other.root;
      size := other.size;
      new;
      other.root := Nil;
      other.size := 0;
    }

    /** Construction from a list: the items inserted one by one without repeats. */
    constructor FromList(key: T -> int, items: seq<T>)
      ensures Valid() && this.key == key && StrictlySorted(key, Elements())
      ensures multiset(Elements()) == multiset(Accepted(key, [], items, false))
      ensures KeySet(key, Elements()) == KeySet(key, items)
    {
      this.key := key;
      root := Nil;
      size := 0;
      new;
      InsertAll(items, false);
      assert [] + items == items;
    }

    /** `empty()`. */
    function Empty(): (e: bool)
      reads this
      requires Valid()
      ensures e <==> |Elements()| == 0
      ensures e <==> Begin() == End()
    {
      size == 0
    }

    /** `size()`: the counter agrees with the number of nodes. */
    function Size(): (n: nat)
      reads this
      requires Valid()
      ensures n == |Elements()|
    {
      size
    }

    /** `begin()`: the leftmost node, or the null node of an empty tree. */
    function Begin(): (it: TreeIterator<T>)
      reads this
      ensures Denotes(it) && Position(it) == 0
    {
      if root.Nil? then TreeIterator(None, this) else TreeIterator(Some(LeftmostPath(root)), this)
    }

    /** `end()`: the null node, tagged with this tree. */
    function End(): (it: TreeIterator<T>)
      reads this
      ensures Denotes(it) && Position(it) == |Elements()| && !IsLive(it)
    {
      TreeIterator(None, this)
    }

    /** `*it`. */
    function Deref(it: TreeIterator<T>): (x: T)
      reads this
      requires IsLive(it)
      ensures Position(it) < |Elements()| && x == Elements()[Position(it)]
    {
      ValueAt(root, it.node.value);
      Subtree(root, it.node.value).data
    }

    /** `++it`: the next element, or `end()` after the last one. */
    function Increment(it: TreeIterator<T>): (r: TreeIterator<T>)
      reads this
      requires IsLive(it)
      ensures Denotes(r) && Position(r) == Position(it) + 1
    {
      SuccessorIndex(root, it.node.value);
      ValueAt(root, it.node.value);
      TreeIterator(Successor(root, it.node.value), this)
    }

    /**
      `--it`: the previous element; from `end()` the greatest element, found
      through the root the iterator carries; from `begin()` the null node.
    */
    function Decrement(it: TreeIterator<T>): (r: TreeIterator<T>)
      reads this
      requires Denotes(it) && (IsLive(it) || root.Node?)
      ensures Denotes(r)
      ensures Position(it) > 0 ==> IsLive(r) && Position(r) + 1 == Position(it)
      ensures Position(it) == 0 ==> r == End()
    {
      if it.node.None? then
        TreeIterator(Some(RightmostPath(root)), this)
      else
        PredecessorIndex(root, it.node.value);
        TreeIterator(Predecessor(root, it.node.value), this)
    }

    /**
      `find(key)`: descend from the root comparing keys; on an equal key remember
      the node and keep descending right, so that the node found is the last of
      its run of equal keys. `end()` when no stored key equals `k`.
    */
    method Find(k: int) returns (it: TreeIterator<T>)
      requires Valid()
      ensures Denotes(it)
      ensures it.node.None? <==> !HasKey(key, Elements(), k)
      ensures IsLive(it) ==>
                key(Deref(it)) == k &&
                (Position(it) + 1 == |Elements()| || key(Elements()[Position(it) + 1]) != k)
    {
      var n := root;
      var path: Path := [];
      var found: Option<Path> := None;
      Window(root, path);
      while n.Node?
        invariant n == Subtree(root, path)
        invariant Descent(key, root, path, found, k)
        decreases n
      {
        Children(root, path);
        if k < key(n.data) {
          DescentLeft(key, root, path, found, k);
          path := path + [Left];
          n := n.left;
        } else if key(n.data) < k {
          DescentRight(key, root, path, found, k);
          path := path + [Right];
          n := n.right;
        } else {
          DescentFound(key, root, path, found, k);
          found := Some(path);
          path := path + [Right];
          n := n.right;
        }
      }
      DescentDone(key, root, path, found, k);
      it := TreeIterator(found, this);
    }

    /** `contains(key)`: whether `find` reaches a node. */
    method Contains(k: int) returns (b: bool)
      requires Valid()
      ensures b <==> HasKey(key, Elements(), k)
    {
      var it := Find(k);
      b := it.node.Some?;
    }

    /** Walk from `begin()` to `end()` with `++`, collecting what each iterator denotes. */
    method Traverse() returns (visited: seq<T>)
      requires Valid()
      ensures visited == Elements()
    {
      var it := Begin();
      visited := [];
      while it != End()
        invariant Denotes(it) && Position(it) == |visited|
        invariant visited == Elements()[..|visited|]
        decreases |Elements()| - |visited|
      {
        visited := visited + [Deref(it)];
        it := Increment(it);
      }
    }

    /**
      `insert(value, is_repeated_allowed)`: attach a new node at its sorted
      place, or, with repeats forbidden and the key present, change nothing and
      return the node holding the key. Nodes already in the tree stay where they are.
    */
    method Insert(v: T, repeats: bool) returns (it: TreeIterator<T>, inserted: bool)
      requires Valid()
      modifies this
      ensures Valid()
      ensures inserted <==> repeats || !HasKey(key, old(Elements()), key(v))
      ensures IsLive(it)
      ensures inserted ==>
                Deref(it) == v && Boundary(key, old(Elements()), Position(it), v) &&
                Elements() == old(Elements())[..Position(it)] + [v] + old(Elements())[Position(it)..]
      ensures !inserted ==> Elements() == old(Elements()) && key(Deref(it)) == key(v)
      ensures KeepsNodes(old(root), root)
      ensures !repeats && StrictlySorted(key, old(Elements())) ==> StrictlySorted(key, Elements())
    {
      ghost var s := Elements();
      InsertPlacement(key, root, v, repeats);
      var (t', p, b) := InsertNode(key, root, v, repeats);
      forall q | IsNodePath(root, q)
        ensures IsNodePath(t', q) && Subtree(t', q).data == Subtree(root, q).data
      {
        InsertKeepsNodes(key, root, v, repeats, q);
      }
      if b {
        InsertKeepsSorted(key, s, IndexOf(t', p), v);
        if !repeats {
          NotFoundBetween(s, IndexOf(t', p), v);
          if StrictlySorted(key, s) {
            InsertKeepsStrictlySorted(key, s, IndexOf(t', p), v);
          }
        }
      } else {
        ValueAt(root, p);
      }
      root := t';
      size := if b then size + 1 else size;
      it := TreeIterator(Some(p), this);
      inserted := b;
    }

    lemma NotFoundBetween(s: seq<T>, i: nat, v: T)
      requires Boundary(key, s, i, v)
      requires forall j :: 0 <= j < i ==> key(s[j]) < key(v)
      ensures !HasKey(key, s, key(v))
    {
    }

    /**
      `insert` as the loops below use it: how one insertion changes the
      values, the keys and the nodes.
    */
    method InsertStep(v: T, repeats: bool) returns (it: TreeIterator<T>, inserted: bool)
      requires Valid()
      modifies this
      ensures Valid()
      ensures inserted <==> repeats || !HasKey(key, old(Elements()), key(v))
      ensures multiset(Elements()) == old(multiset(Elements())) + (if inserted then multiset{v} else multiset{})
      ensures KeySet(key, Elements()) == old(KeySet(key, Elements())) + {key(v)}
      ensures !repeats && StrictlySorted(key, old(Elements())) ==> StrictlySorted(key, Elements())
      ensures IsLive(it) && key(Deref(it)) == key(v) && (inserted ==> Deref(it) == v)
      ensures KeepsNodes(old(root), root)
      ensures inserted && (forall j :: 0 <= j < |old(Elements())| ==> key(old(Elements())[j]) <= key(v)) ==>
                Elements() == old(Elements()) + [v]
    {
      ghost var before := Elements();
      it, inserted := Insert(v, repeats);
      InsertedKeys(key, before, Elements(), v, inserted, if inserted then Position(it) else 0);
      if inserted && forall j :: 0 <= j < |before| ==> key(before[j]) <= key(v) {
        AppendedAtEnd(key, before, Position(it), v);
      }
    }

    /**
      `erase(pos)`: unlink the node `pos` points at by the four structural
      cases; `end()` or an iterator of another tree throws.
    */
    method Erase(pos: TreeIterator<T>) returns (r: Outcome)
      requires Valid()
      modifies this
      ensures Valid()
      ensures r.Pass? <==> old(IsLive(pos))
      ensures r.Pass? ==> Elements() == old(Elements()[..Position(pos)] + Elements()[Position(pos) + 1..])
      ensures r.Fail? ==> r.error == InvalidIterator && Elements() == old(Elements())
    {
      if !IsLive(pos) {
        return Fail(InvalidIterator);
      }
      EraseAtIndex(root, pos.node.value);
      RemoveKeepsSorted(key, Elements(), IndexOf(root, pos.node.value));
      root := EraseAt(root, pos.node.value);
      size := size - 1;
      r := Pass;
    }

    /** Assignment through `*it` of a value with the same key (the key of a stored value is never changed). */
    method Update(it: TreeIterator<T>, v: T)
      requires Valid() && IsLive(it) && key(v) == key(Deref(it))
      modifies this
      ensures Valid() && IsLive(it) && Position(it) == old(Position(it)) && Deref(it) == v
      ensures Elements() == old(Elements())[old(Position(it)) := v]
    {
      ghost var s := Elements();
      ghost var i := Position(it);
      UpdateAtIndex(root, it.node.value, v);
      root := UpdateAt(root, it.node.value, v);
      assert Elements() == s[i := v];
      forall a, b | 0 <= a < b < |s| ensures key(Elements()[a]) <= key(Elements()[b]) {
        assert key(Elements()[a]) == key(s[a]) && key(Elements()[b]) == key(s[b]);
      }
    }

    /** `clear()`: drop every node. */
    method Clear()
      requires Valid()
      modifies this
      ensures Valid() && Elements() == []
    {
      root := Nil;
      size := 0;
    }

    /** `swap(other)`: exchange roots and sizes. */
    method Swap(other: SortedBinaryTree<T>)
      requires Valid() && other.Valid() && other.key == key
      modifies this, other
      ensures Valid() && other.Valid()
      ensures Elements() == old(other.Elements()) && other.Elements() == old(Elements())
    {
      root, other.root := other.root, root;
      size, other.size := other.size, size;
    }

    /**
      Move assignment: take over `other`'s nodes and leave it empty; moving a
      tree into itself keeps its elements.
    */
    method MoveFrom(other: SortedBinaryTree<T>)
      requires Valid() && other.Valid() && other.key == key
      modifies this, other
      ensures Valid() && other.Valid()
      ensures Elements() == old(other.Elements())
      ensures other != this ==> other.Elements() == []
    {
      if other != this {
        root, size := other.root, other.size;
        other.root, other.size := Nil, 0;
      }
    }

    /** Reports survive an insertion that keeps every node, and gain the new one. */
    lemma ReportedStep(t: Node<T>, args: seq<T>, verdicts: seq<bool>,
                       results: seq<(TreeIterator<T>, bool)>, it: TreeIterator<T>, inserted: bool)
      requires Reported(key, this, t, args, verdicts, results) && |results| < |args|
      requires |results| < |verdicts| && inserted == verdicts[|results|]
      requires KeepsNodes(t, root)
      requires IsLive(it) && key(Deref(it)) == key(args[|results|]) && (inserted ==> Deref(it) == args[|results|])
      ensures Reported(key, this, root, args, verdicts, results + [(it, inserted)])
    {
      var r := results + [(it, inserted)];
      forall j | 0 <= j < |r|
        ensures r[j].1 == verdicts[j] && r[j].0.tree == this
        ensures r[j].0.node.Some? && IsNodePath(root, r[j].0.node.value)
        ensures key(Subtree(root, r[j].0.node.value).data) == key(args[j])
        ensures r[j].1 ==> Subtree(root, r[j].0.node.value).data == args[j]
      {
        if j < |results| {
          assert r[j] == results[j];
        }
      }
    }

    /** Reported paths of this tree's root are live iterators of this tree. */
    lemma ReportsAreLive(args: seq<T>, verdicts: seq<bool>, results: seq<(TreeIterator<T>, bool)>)
      requires Reported(key, this, root, args, verdicts, results) && |results| == |args|
      ensures forall i :: 0 <= i < |args| ==> results[i].1 == verdicts[i]
      ensures forall i :: 0 <= i < |args| ==>
                IsLive(results[i].0) && key(Deref(results[i].0)) == key(args[i]) &&
                (results[i].1 ==> Deref(results[i].0) == args[i])
    {
    }

    /**
      Insert `items` one by one in order (the loop behind list construction
      and list assignment once the tree is cleared).
    */
    method InsertAll(items: seq<T>, repeats: bool)
      requires Valid()
      modifies this
      ensures Valid()
      ensures multiset(Elements()) == old(multiset(Elements())) + multiset(Accepted(key, old(Elements()), items, repeats))
      ensures KeySet(key, Elements()) == KeySet(key, old(Elements()) + items)
      ensures !repeats && StrictlySorted(key, old(Elements())) ==> StrictlySorted(key, Elements())
      ensures repeats && old(Elements()) == [] && Sorted(key, items) ==> Elements() == items
    {
      ghost var base := Elements();
      assert base + items[..0] == base;
      for i := 0 to |items|
        invariant Valid() && Tally(key, base, items[..i], repeats, Elements())
        invariant Copied(key, base, items, i, repeats, Elements())
      {
        InsertNext(items, i, base, repeats);
      }
      assert items[..|items|] == items;
    }

    /** The loop body of `InsertAll`: insert `items[i]` and keep both loop invariants. */
    method InsertNext(items: seq<T>, i: nat, ghost base: seq<T>, repeats: bool)
      requires Valid() && i < |items|
      requires Tally(key, base, items[..i], repeats, Elements()) && Copied(key, base, items, i, repeats, Elements())
      modifies this
      ensures Valid()
      ensures Tally(key, base, items[..i + 1], repeats, Elements()) && Copied(key, base, items, i + 1, repeats, Elements())
    {
      ghost var before := Elements();
      if repeats && base == [] && Sorted(key, items) {
        SortedAppendStep(key, items, i, before);
      }
      var _, inserted := InsertStep(items[i], repeats);
      TallyStep(key, base, items, i, i + 1, repeats, before, Elements(), inserted);
    }

    /** List assignment: clear, then insert the items one by one without repeats. */
    method AssignList(items: seq<T>)
      requires Valid()
      modifies this
      ensures Valid() && StrictlySorted(key, Elements())
      ensures multiset(Elements()) == multiset(Accepted(key, [], items, false))
      ensures KeySet(key, Elements()) == KeySet(key, items)
    {
      Clear();
      InsertAll(items, false);
      assert [] + items == items;
    }

    /** Copy assignment: the same values as `other`, in newly owned nodes. */
    method CopyAssign(other: SortedBinaryTree<T>)
      requires Valid() && other.Valid() && other.key == key
      modifies this
      ensures Valid() && Elements() == old(other.Elements())
    {
      root, size := other.root, other.size;
    }

    /**
      `merge(other, is_repeated_allowed)`: each value of `other`, in order, is
      moved into this tree when insertion accepts it, and otherwise stays
      behind in `other`.
    */
    method Merge(other: SortedBinaryTree<T>, repeats: bool)
      requires Valid() && other.Valid() && other.key == key && other != this
      modifies this, other
      ensures Valid() && other.Valid()
      ensures multiset(Elements()) == old(multiset(Elements())) + multiset(Accepted(key, old(Elements()), old(other.Elements()), repeats))
      ensures KeySet(key, Elements()) == KeySet(key, old(Elements()) + old(other.Elements()))
      ensures other.Elements() == Rejected(key, old(Elements()), old(other.Elements()), repeats)
      ensures !repeats && StrictlySorted(key, old(Elements())) ==> StrictlySorted(key, Elements())
    {
      var src := other.Elements();
      ghost var base := Elements();
      assert Sorted(key, src);
      other.Clear();
      assert base + src[..0] == base;
      for i := 0 to |src|
        invariant Valid() && other.Valid()
        invariant Tally(key, base, src[..i], repeats, Elements())
        invariant Leftover(key, base, src, i, repeats, other.Elements())
      {
        MergeStep(other, src, i, base, repeats);
      }
      assert src[..|src|] == src;
    }

    /** The loop body of `merge`: offer `src[i]` to this tree and keep both loop invariants. */
    method MergeStep(other: SortedBinaryTree<T>, src: seq<T>, i: nat, ghost base: seq<T>, repeats: bool)
      requires Valid() && other.Valid() && other.key == key && other != this
      requires i < |src| && Sorted(key, src)
      requires Tally(key, base, src[..i], repeats, Elements()) && Leftover(key, base, src, i, repeats, other.Elements())
      modifies this, other
      ensures Valid() && other.Valid()
      ensures Tally(key, base, src[..i + 1], repeats, Elements()) && Leftover(key, base, src, i + 1, repeats, other.Elements())
    {
      ghost var before, kept := Elements(), other.Elements();
      var inserted := MergeOne(other, src[i], repeats);
      TallyStep(key, base, src, i, i + 1, repeats, before, Elements(), inserted);
      RejectStep(key, base, src, i, repeats, kept, other.Elements(), inserted);
    }

    /** One step of `merge`: `v` moves into this tree, or stays behind at the end of `other`. */
    method MergeOne(other: SortedBinaryTree<T>, v: T, repeats: bool) returns (inserted: bool)
      requires Valid() && other.Valid() && other.key == key && other != this
      requires forall j :: 0 <= j < |other.Elements()| ==> key(other.Elements()[j]) <= key(v)
      modifies this, other
      ensures Valid() && other.Valid()
      ensures inserted <==> repeats || !HasKey(key, old(Elements()), key(v))
      ensures multiset(Elements()) == old(multiset(Elements())) + (if inserted then multiset{v} else multiset{})
      ensures KeySet(key, Elements()) == old(KeySet(key, Elements())) + {key(v)}
      ensures !repeats && StrictlySorted(key, old(Elements())) ==> StrictlySorted(key, Elements())
      ensures other.Elements() == old(other.Elements()) + (if inserted then [] else [v])
    {
      var _, b := InsertStep(v, repeats);
      inserted := b;
      if !inserted {
        other.Append(v);
      }
    }

    /** Insertion with repeats of a value whose key is at least every stored key lands at the end. */
    method Append(v: T)
      requires Valid() && forall j :: 0 <= j < |Elements()| ==> key(Elements()[j]) <= key(v)
      modifies this
      ensures Valid() && Elements() == old(Elements()) + [v]
    {
      var _, _ := InsertStep(v, true);
    }

    /**
      `emplace(is_repeated_allowed, args...)`: insert the arguments in order and
      report, per argument, an iterator to the element holding its key and
      whether a node was added.
    */
    method Emplace(repeats: bool, args: seq<T>) returns (results: seq<(TreeIterator<T>, bool)>)
      requires Valid()
      modifies this
      ensures Valid() && |results| == |args|
      ensures forall i :: 0 <= i < |args| ==> results[i].1 == Accepts(key, old(Elements()), args, i, repeats)
      ensures forall i :: 0 <= i < |args| ==>
                IsLive(results[i].0) && key(Deref(results[i].0)) == key(args[i]) &&
                (results[i].1 ==> Deref(results[i].0) == args[i])
      ensures multiset(Elements()) == old(multiset(Elements())) + multiset(Accepted(key, old(Elements()), args, repeats))
      ensures KeySet(key, Elements()) == KeySet(key, old(Elements()) + args)
      ensures !repeats && StrictlySorted(key, old(Elements())) ==> StrictlySorted(key, Elements())
    {
      ghost var base := Elements();
      ghost var verdicts := Verdicts(key, base, args, repeats);
      assert base + args[..0] == base;
      results := EmplaceHelper(repeats, args, base, verdicts, []);
      ReportsAreLive(args, verdicts, results);
      AllVerdicts(key, base, args, repeats);
      assert args[..|args|] == args;
    }

    /**
      `emplace_helper`: insert the first argument not reported yet, record the
      outcome, and go on with the remaining arguments.
    */
    method EmplaceHelper(repeats: bool, args: seq<T>, ghost base: seq<T>, ghost verdicts: seq<bool>,
                         done: seq<(TreeIterator<T>, bool)>) returns (results: seq<(TreeIterator<T>, bool)>)
      requires Valid() && Progress(key, this, root, base, args, repeats, verdicts, done)
      modifies this
      ensures Valid() && |results| == |args| && Progress(key, this, root, base, args, repeats, verdicts, results)
      decreases |args| - |done|
    {
      if |done| == |args| {
        return done;
      }
      ghost var t := root;
      var it, inserted := InsertStep(args[|done|], repeats);
      EmplaceAdvance(t, base, args, repeats, verdicts, done, it, inserted);
      results := EmplaceHelper(repeats, args, base, verdicts, done + [(it, inserted)]);
    }

    /** One more argument inserted keeps `Progress`. */
    lemma EmplaceAdvance(t: Node<T>, base: seq<T>, args: seq<T>, repeats: bool, verdicts: seq<bool>,
                         done: seq<(TreeIterator<T>, bool)>, it: TreeIterator<T>, inserted: bool)
      requires Progress(key, this, t, base, args, repeats, verdicts, done) && |done| < |args|
      requires inserted <==> repeats || !HasKey(key, Inorder(t), key(args[|done|]))
      requires multiset(Elements()) == multiset(Inorder(t)) + (if inserted then multiset{args[|done|]} else multiset{})
      requires KeySet(key, Elements()) == KeySet(key, Inorder(t)) + {key(args[|done|])}
      requires !repeats && StrictlySorted(key, Inorder(t)) ==> StrictlySorted(key, Elements())
      requires IsLive(it) && key(Deref(it)) == key(args[|done|]) && (inserted ==> Deref(it) == args[|done|])
      requires KeepsNodes(t, root)
      ensures Progress(key, this, root, base, args, repeats, verdicts, done + [(it, inserted)])
    {
      var i, done' := |done|, done + [(it, inserted)];
      TallyStep(key, base, args, i, |done'|, repeats, Inorder(t), Elements(), inserted);
      VerdictAt(key, base, args, repeats, i);
      ReportedStep(t, args, verdicts, done, it, inserted);
    }
  }

  /**
    What `find(k)` knows while descending to the subtree at `path`: keys before
    the subtree are at most `k`, keys after it exceed `k`, and `found` is the
    node just before the subtree and holds `k`, or nothing before the subtree holds `k`.
  */
  ghost predicate Descent<T>(key: T -> int, t: Node<T>, path: Path, found: Option<Path>, k: int)
  {
    Bracket(key, Inorder(t), Offset(t, path), WindowEnd(t, path), k, found.None?) &&
    (found.Some? ==> IsNodePath(t, found.value) && IndexOf(t, found.value) + 1 == Offset(t, path) &&
                     key(Inorder(t)[Offset(t, path) - 1]) == k)
  }

  /**
    The keys of `s` before `lo` are at most `k` (below `k` when `strict`), and
    the keys from `hi` on exceed `k`: a key `k` can only sit in `s[lo..hi]`.
  */
  ghost predicate Bracket<T>(key: T -> int, s: seq<T>, lo: nat, hi: nat, k: int, strict: bool)
  {
    lo <= hi <= |s| &&
    (forall j :: 0 <= j < lo ==> key(s[j]) <= k) &&
    (forall j :: hi <= j < |s| ==> k < key(s[j])) &&
    (strict ==> forall j :: 0 <= j < lo ==> key(s[j]) < k)
  }

  /** A key above `k` at `m` closes the window at `m`. */
  lemma BracketLeft<T>(key: T -> int, s: seq<T>, lo: nat, hi: nat, m: nat, hi': nat, k: int, strict: bool)
    requires Sorted(key, s) && Bracket(key, s, lo, hi, k, strict)
    requires lo <= m < hi && k < key(s[m]) && hi' == m
    ensures Bracket(key, s, lo, hi', k, strict)
  {
    SortedAround(key, s, m);
  }

  /** A key below `k` at `m` opens the window after `m`. */
  lemma BracketRight<T>(key: T -> int, s: seq<T>, lo: nat, hi: nat, m: nat, lo': nat, k: int, strict: bool)
    requires Sorted(key, s) && Bracket(key, s, lo, hi, k, strict)
    requires lo <= m < hi && key(s[m]) < k && lo' == m + 1
    ensures Bracket(key, s, lo', hi, k, strict)
  {
    SortedAround(key, s, m);
  }

  /** The key `k` itself at `m` opens the window after `m`, no longer strictly. */
  lemma BracketFound<T>(key: T -> int, s: seq<T>, lo: nat, hi: nat, m: nat, lo': nat, k: int, strict: bool)
    requires Sorted(key, s) && Bracket(key, s, lo, hi, k, strict)
    requires lo <= m < hi && key(s[m]) == k && lo' == m + 1
    ensures Bracket(key, s, lo', hi, k, false)
  {
    SortedAround(key, s, m);
  }

  /** Going left from a node whose key exceeds `k` keeps `Descent`. */
  lemma DescentLeft<T>(key: T -> int, t: Node<T>, path: Path, found: Option<Path>, k: int)
    requires Sorted(key, Inorder(t)) && IsNodePath(t, path) && Descent(key, t, path, found, k)
    requires k < key(Subtree(t, path).data)
    ensures Descent(key, t, path + [Left], found, k)
  {
    Children(t, path);
    ValueAt(t, path);
    BracketLeft(key, Inorder(t), Offset(t, path), WindowEnd(t, path), IndexOf(t, path),
                WindowEnd(t, path + [Left]), k, found.None?);
  }

  /** Going right from a node whose key is below `k` keeps `Descent`. */
  lemma DescentRight<T>(key: T -> int, t: Node<T>, path: Path, found: Option<Path>, k: int)
    requires Sorted(key, Inorder(t)) && IsNodePath(t, path) && Descent(key, t, path, found, k)
    requires key(Subtree(t, path).data) < k
    ensures Descent(key, t, path + [Right], found, k)
  {
    Children(t, path);
    ValueAt(t, path);
    BracketRight(key, Inorder(t), Offset(t, path), WindowEnd(t, path), IndexOf(t, path),
                 Offset(t, path + [Right]), k, found.None?);
  }

  /** Going right from a node whose key is `k` records that node and keeps `Descent`. */
  lemma DescentFound<T>(key: T -> int, t: Node<T>, path: Path, found: Option<Path>, k: int)
    requires Sorted(key, Inorder(t)) && IsNodePath(t, path) && Descent(key, t, path, found, k)
    requires key(Subtree(t, path).data) == k
    ensures Descent(key, t, path + [Right], Some(path), k)
  {
    Children(t, path);
    ValueAt(t, path);
    BracketFound(key, Inorder(t), Offset(t, path), WindowEnd(t, path), IndexOf(t, path),
                 Offset(t, path + [Right]), k, found.None?);
  }

  /** At a null link the descent of `find(k)` has its answer. */
  lemma DescentDone<T>(key: T -> int, t: Node<T>, path: Path, found: Option<Path>, k: int)
    requires Descent(key, t, path, found, k) && Subtree(t, path).Nil?
    ensures found.None? <==> !HasKey(key, Inorder(t), k)
    ensures found.Some? ==>
              IsNodePath(t, found.value) && key(Subtree(t, found.value).data) == k &&
              (IndexOf(t, found.value) + 1 == |Inorder(t)| || key(Inorder(t)[IndexOf(t, found.value) + 1]) != k)
  {
    if found.Some? {
      ValueAt(t, found.value);
    }
  }

  /** In a sorted sequence the keys before `i` are at most, and the keys from `i` on at least, the key at `i`. */
  lemma SortedAround<T>(key: T -> int, s: seq<T>, i: nat)
    requires Sorted(key, s) && i < |s|
    ensures forall j :: 0 <= j <= i ==> key(s[j]) <= key(s[i])
    ensures forall j :: i <= j < |s| ==> key(s[i]) <= key(s[j])
  {
  }

  /** One more item inserted keeps the loop of `InsertAll` in step with `Accepted`. */
  lemma AcceptStep<T>(key: T -> int, base: seq<T>, items: seq<T>, i: nat, repeats: bool,
                      before: seq<T>, after: seq<T>, inserted: bool)
    requires i < |items|
    requires multiset(before) == multiset(base) + multiset(Accepted(key, base, items[..i], repeats))
    requires KeySet(key, before) == KeySet(key, base + items[..i])
    requires inserted <==> repeats || !HasKey(key, before, key(items[i]))
    requires KeySet(key, after) == KeySet(key, before) + {key(items[i])}
    requires multiset(after) == multiset(before) + (if inserted then multiset{items[i]} else multiset{})
    ensures multiset(after) == multiset(base) + multiset(Accepted(key, base, items[..i + 1], repeats))
    ensures KeySet(key, after) == KeySet(key, base + items[..i + 1])
    ensures inserted == Accepts(key, base, items, i, repeats)
  {
    PrefixStep(base, items, i);
    KeySetMembership(key, before, key(items[i]));
    KeySetMembership(key, base + items[..i], key(items[i]));
    KeySetAppend(key, base + items[..i], items[i]);
  }

  /** Inserting sorted `items` with repeats into an empty tree copies them: `s` holds the first `i`. */
  ghost predicate Copied<T>(key: T -> int, base: seq<T>, items: seq<T>, i: nat, repeats: bool, s: seq<T>)
    requires i <= |items|
  {
    repeats && base == [] && Sorted(key, items) ==> s == items[..i]
  }

  /** One more item inserted keeps `Tally`. */
  lemma TallyStep<T>(key: T -> int, base: seq<T>, items: seq<T>, i: nat, n: nat, repeats: bool,
                     before: seq<T>, after: seq<T>, inserted: bool)
    requires i < |items| && n == i + 1 && Tally(key, base, items[..i], repeats, before)
    requires inserted <==> repeats || !HasKey(key, before, key(items[i]))
    requires multiset(after) == multiset(before) + (if inserted then multiset{items[i]} else multiset{})
    requires KeySet(key, after) == KeySet(key, before) + {key(items[i])}
    requires !repeats && StrictlySorted(key, before) ==> StrictlySorted(key, after)
    ensures Tally(key, base, items[..n], repeats, after)
    ensures inserted == Accepts(key, base, items, i, repeats)
  {
    AcceptStep(key, base, items, i, repeats, before, after, inserted);
  }

  /** Every node of `t` is still in `t'`, at the same path, with the same value. */
  ghost predicate KeepsNodes<T>(t: Node<T>, t': Node<T>)
  {
    forall q :: IsNodePath(t, q) ==> IsNodePath(t', q) && Subtree(t', q).data == Subtree(t, q).data
  }

  /**
    What `emplace` has reported for the first `|results|` arguments: whether
    each was accepted, and a node path of `t` whose value has the argument's
    key (and is the argument itself when it was accepted).
  */
  ghost predicate Reported<T>(key: T -> int, owner: SortedBinaryTree<T>, t: Node<T>, args: seq<T>, verdicts: seq<bool>,
                              results: seq<(TreeIterator<T>, bool)>)
  {
    |results| <= |args| && |results| <= |verdicts| &&
    forall j :: 0 <= j < |results| ==>
      results[j].1 == verdicts[j] && results[j].0.tree == owner &&
      results[j].0.node.Some? && IsNodePath(t, results[j].0.node.value) &&
      key(Subtree(t, results[j].0.node.value).data) == key(args[j]) &&
      (results[j].1 ==> Subtree(t, results[j].0.node.value).data == args[j])
  }

  /**
    `kept` holds the items of `items[..i]` that were turned away, none with a
    key above that of the next item.
  */
  ghost predicate Leftover<T>(key: T -> int, base: seq<T>, items: seq<T>, i: nat, repeats: bool, kept: seq<T>)
    requires i <= |items|
  {
    kept == Rejected(key, base, items[..i], repeats) &&
    (i < |items| ==> forall j :: 0 <= j < |kept| ==> key(kept[j]) <= key(items[i]))
  }

  /** One more item turned away keeps the loop of `Merge` in step with `Rejected`. */
  lemma RejectStep<T>(key: T -> int, base: seq<T>, items: seq<T>, i: nat, repeats: bool,
                      kept: seq<T>, after: seq<T>, inserted: bool)
    requires i < |items| && Sorted(key, items) && Leftover(key, base, items, i, repeats, kept)
    requires inserted == Accepts(key, base, items, i, repeats)
    requires after == kept + (if inserted then [] else [items[i]])
    ensures Leftover(key, base, items, i + 1, repeats, after)
  {
    PrefixStep(base, items, i);
    assert Accepts(key, base, items[..i + 1], i, repeats) == Accepts(key, base, items, i, repeats);
    if i + 1 < |items| {
      assert key(items[i]) <= key(items[i + 1]);
    }
  }

  /** An insertion whose key is at least every stored key lands at the end. */
  lemma AppendedAtEnd<T>(key: T -> int, s: seq<T>, p: nat, v: T)
    requires Boundary(key, s, p, v)
    requires forall j :: 0 <= j < |s| ==> key(s[j]) <= key(v)
    ensures p == |s| && s[..p] + [v] + s[p..] == s + [v]
  {
    if |s| > 0 {
      assert key(s[|s| - 1]) <= key(v);
    }
  }

  /** The next item of a sorted list has a key at least those of the items before it. */
  lemma SortedAppendStep<T>(key: T -> int, items: seq<T>, i: nat, before: seq<T>)
    requires Sorted(key, items) && i < |items| && before == items[..i]
    ensures forall j :: 0 <= j < |before| ==> key(before[j]) <= key(items[i])
    ensures before + [items[i]] == items[..i + 1]
  {
    SortedAround(key, items, i);
    PrefixStep([], items, i);
  }

  /** An insertion strictly after every smaller key and before every greater key keeps keys distinct. */
  lemma InsertKeepsStrictlySorted<T>(key: T -> int, s: seq<T>, i: nat, v: T)
    requires StrictlySorted(key, s) && Boundary(key, s, i, v)
    requires forall j :: 0 <= j < i ==> key(s[j]) < key(v)
    ensures StrictlySorted(key, s[..i] + [v] + s[i..])
  {
    var s' := s[..i] + [v] + s[i..];
    forall a, b | 0 <= a < b < |s'| ensures key(s'[a]) < key(s'[b]) {
      if b < i {
        assert s'[a] == s[a] && s'[b] == s[b];
      } else if b == i {
        assert s'[a] == s[a];
      } else if a < i {
        assert s'[a] == s[a] && s'[b] == s[b - 1];
      } else if a == i {
        assert s'[b] == s[b - 1];
      } else {
        assert s'[a] == s[a - 1] && s'[b] == s[b - 1];
      }
    }
  }

  lemma PrefixStep<T>(base: seq<T>, items: seq<T>, i: nat)
    requires i < |items|
    ensures items[..i + 1][..i] == items[..i] && items[..i + 1][i] == items[i]
    ensures base + items[..i + 1] == (base + items[..i]) + [items[i]]
  {
    assert items[..i + 1] == items[..i] + [items[i]];
  }

  /** The keys and the values after one insertion: `v` joins them when a node was added. */
  lemma InsertedKeys<T>(key: T -> int, before: seq<T>, after: seq<T>, v: T, inserted: bool, p: nat)
    requires inserted ==> p <= |before| && after == before[..p] + [v] + before[p..]
    requires !inserted ==> after == before && HasKey(key, before, key(v))
    ensures KeySet(key, after) == KeySet(key, before) + {key(v)}
    ensures multiset(after) == multiset(before) + (if inserted then multiset{v} else multiset{})
  {
    if inserted {
      var a, b := before[..p], before[p..];
      assert before == a + b;
      KeySetConcat(key, a, b);
      KeySetConcat(key, a + [v], b);
      KeySetAppend(key, a, v);
    } else {
      KeySetMembership(key, before, key(v));
    }
  }

  lemma KeySetConcat<T>(key: T -> int, a: seq<T>, b: seq<T>)
    ensures KeySet(key, a + b) == KeySet(key, a) + KeySet(key, b)
  {
    var s := a + b;
    forall k | k in KeySet(key, s) ensures k in KeySet(key, a) + KeySet(key, b) {
      var j :| 0 <= j < |s| && key(s[j]) == k;
      if j < |a| { assert s[j] == a[j]; } else { assert s[j] == b[j - |a|]; }
    }
    forall k | k in KeySet(key, a) ensures k in KeySet(key, s) {
      var j :| 0 <= j < |a| && key(a[j]) == k;
      assert s[j] == a[j];
    }
    forall k | k in KeySet(key, b) ensures k in KeySet(key, s) {
      var j :| 0 <= j < |b| && key(b[j]) == k;
      assert s[|a| + j] == b[j];
    }
  }

  lemma KeySetAppend<T>(key: T -> int, s: seq<T>, x: T)
    ensures KeySet(key, s + [x]) == KeySet(key, s) + {key(x)}
  {
    var s' := s + [x];
    forall k | k in KeySet(key, s') ensures k in KeySet(key, s) + {key(x)} {
      var j :| 0 <= j < |s'| && key(s'[j]) == k;
      if j < |s| { assert s'[j] == s[j]; }
    }
    forall k | k in KeySet(key, s) ensures k in KeySet(key, s') {
      var j :| 0 <= j < |s| && key(s[j]) == k;
      assert s'[j] == s[j];
    }
    assert s'[|s|] == x;
  }
}
