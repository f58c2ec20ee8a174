/**
  `Set`: a sorted binary tree over `int` whose key selector is the identity,
  filled without repeats, so every value is stored at most once and the
  container denotes a mathematical set.
*/
module CustomSet {
  import opened Wrappers
  import opened TreeNode
  import opened BinaryTree
  import opened TreeMutation
  import opened TreeContents

  class Set {
    const tree: SortedBinaryTree<int>

    /** The tree is sound, keys values by themselves, and holds each value once. */
    ghost predicate Valid()
      reads this, tree
    {
      tree.Valid() && tree.key == Identity && StrictlySorted(Identity, tree.Elements())
    }

    /** The values stored. */
    ghost function Contents(): set<int>
      reads this, tree
    {
      Members(tree.Elements())
    }

    constructor ()
      ensures Valid() && fresh(tree) && Contents() == {}
    {
      tree := new SortedBinaryTree(Identity);
    }

    /** Construction from a list: the distinct values of `items`. */
    constructor FromList(items: seq<int>)
      ensures Valid() && fresh(tree) && Contents() == Members(items)
    {
      tree := new SortedBinaryTree(Identity);
      new;
      AssignList(items);
    }

    /** Copy construction: a new tree with the same values. */
    constructor Copy(other: Set)
      requires other.Valid()
      ensures Valid() && fresh(tree) && tree.Elements() == other.tree.Elements()
    {
      tree := new SortedBinaryTree.Copy(other.tree);
    }

    /** Move construction: take `other`'s values and leave it empty. */
    constructor Move(other: Set)
      requires other.Valid()
      modifies other.tree
      ensures Valid() && fresh(tree) && Contents() == old(other.Contents())
      ensures other.Valid() && other.Contents() == {}
    {
      tree := new SortedBinaryTree.Move(other.tree);
    }

    /** List assignment: the old values are dropped, the distinct values of `items` stored. */
    method AssignList(items: seq<int>)
      requires tree.Valid() && tree.key == Identity
      modifies tree
      ensures Valid() && Contents() == Members(items)
    {
      tree.AssignList(items);
      IdentityKeys(tree.Elements());
      IdentityKeys(items);
    }

    /** Copy assignment. */
    method CopyAssign(other: Set)
      requires Valid() && other.Valid()
      modifies tree
      ensures Valid() && tree.Elements() == old(other.tree.Elements())
    {
      tree.CopyAssign(other.tree);
    }

    /** Move assignment (defaulted): the tree's move assignment takes `other`'s values. */
    method MoveAssign(other: Set)
      requires Valid() && other.Valid()
      modifies tree, other.tree
      ensures Valid() && other.Valid()
      ensures Contents() == old(other.Contents())
      ensures other.tree != tree ==> other.Contents() == {}
    {
      tree.MoveFrom(other.tree);
    }

    /** `empty()`: no value is stored. */
    function Empty(): (e: bool)
      reads this, tree
      requires Valid()
      ensures e <==> Contents() == {}
    {
      assert |tree.Elements()| > 0 ==> tree.Elements()[0] in Contents();
      tree.Empty()
    }

    /** `size()`: the number of distinct values. */
    function Size(): (n: nat)
      reads this, tree
      requires Valid()
      ensures n == |Contents()|
    {
      DistinctCount(Identity, tree.Elements());
      tree.Size()
    }

    /** `clear()`. */
    method Clear()
      requires Valid()
      modifies tree
      ensures Valid() && Contents() == {}
    {
      tree.Clear();
    }

    /** `insert(value)`: added when absent; the iterator points at the stored `value` either way. */
    method Insert(v: int) returns (it: TreeIterator<int>, inserted: bool)
      requires Valid()
      modifies tree
      ensures Valid()
      ensures inserted <==> v !in old(Contents())
      ensures Contents() == old(Contents()) + {v}
      ensures tree.IsLive(it) && tree.Deref(it) == v
    {
      ghost var before := tree.Elements();
      IdentityKeys(before);
      it, inserted := tree.InsertStep(v, false);
      MembersOfSum(tree.Elements(), before, if inserted then [v] else []);
    }

    /** `erase(pos)`: the value at `pos` is removed; `end()` or a foreign iterator throws. */
    method Erase(pos: TreeIterator<int>) returns (r: Outcome)
      requires Valid()
      modifies tree
      ensures Valid()
      ensures r.Pass? <==> old(tree.IsLive(pos))
      ensures r.Pass? ==> Contents() == old(Contents() - {tree.Deref(pos)})
      ensures r.Fail? ==> r.error == InvalidIterator && Contents() == old(Contents())
    {
      ghost var s := tree.Elements();
      ghost var i := if tree.IsLive(pos) then tree.Position(pos) else 0;
      r := tree.Erase(pos);
      if r.Pass? {
        RemoveMember(Identity, s, i);
        RemoveKeepsStrictlySorted(Identity, s, i);
      }
    }

    /** `swap(other)`. */
    method Swap(other: Set)
      requires Valid() && other.Valid()
      modifies tree, other.tree
      ensures Valid() && other.Valid()
      ensures Contents() == old(other.Contents()) && other.Contents() == old(Contents())
    {
      tree.Swap(other.tree);
    }

    /**
      `merge(other)`: every value of `other` not yet here moves here; the values
      both had stay behind in `other`.
    */
    method Merge(other: Set)
      requires Valid() && other.Valid() && other.tree != tree
      modifies tree, other.tree
      ensures Valid() && other.Valid()
      ensures Contents() == old(Contents() + other.Contents())
      ensures other.Contents() == old(other.Contents() * Contents())
    {
      ghost var base, src := tree.Elements(), other.tree.Elements();
      tree.Merge(other.tree, false);
      IdentityKeys(tree.Elements());
      IdentityKeys(base);
      IdentityKeys(src);
      IdentityKeys(base + src);
      MembersOfSum(base + src, base, src);
      RejectedMembers(Identity, base, src);
    }

    /** `find(key)`: the iterator at `k`, the only one there is, or `end()` when `k` is absent. */
    method Find(k: int) returns (it: TreeIterator<int>)
      requires Valid()
      ensures tree.Denotes(it)
      ensures it == tree.End() <==> k !in Contents()
      ensures tree.IsLive(it) ==> tree.Deref(it) == k
      ensures forall e :: tree.IsLive(e) && tree.Deref(e) == k ==> e == it
    {
      it := tree.Find(k);
      IdentityKeys(tree.Elements());
      forall e | tree.IsLive(e) && tree.Deref(e) == k ensures e == it {
        KeyDetermines(Identity, tree.Elements(), tree.Position(e), tree.Position(it));
        tree.SamePosition(e, it);
      }
    }

    /** `contains(key)`. */
    method Contains(k: int) returns (b: bool)
      requires Valid()
      ensures b <==> k in Contents()
    {
      b := tree.Contains(k);
      IdentityKeys(tree.Elements());
    }

    /**
      `emplace(args...)`: insert the arguments in order; each is reported with
      an iterator to its stored value and whether it was new, i.e. neither
      stored before nor among the earlier arguments.
    */
    method Emplace(args: seq<int>) returns (results: seq<(TreeIterator<int>, bool)>)
      requires Valid()
      modifies tree
      ensures Valid() && |results| == |args|
      ensures forall i :: 0 <= i < |args| ==>
                (results[i].1 <==> args[i] !in old(Contents()) && args[i] !in args[..i])
      ensures forall i :: 0 <= i < |args| ==> tree.IsLive(results[i].0) && tree.Deref(results[i].0) == args[i]
      ensures Contents() == old(Contents()) + Members(args)
    {
      ghost var base := tree.Elements();
      results := tree.Emplace(false, args);
      IdentityKeys(tree.Elements());
      IdentityKeys(base + args);
      MembersOfSum(base + args, base, args);
      forall i | 0 <= i < |args|
        ensures results[i].1 <==> args[i] !in Members(base) && args[i] !in args[..i]
      {
        IdentityKeys(base + args[..i]);
        MembersOfSum(base + args[..i], base, args[..i]);
      }
    }
  }
}
