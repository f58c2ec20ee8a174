/**
  `Multiset`: a sorted binary tree over `int` whose key selector is the
  identity, filled with repeats allowed. Equal values form a contiguous run in
  iteration order, and a value inserted again joins the end of its run.
*/
module CustomMultiset {
  import opened Wrappers
  import opened TreeNode
  import opened BinaryTree
  import opened TreeMutation
  import opened TreeContents

  /** In `s`, the values before `lo` are smaller than `k`, those in `lo..hi` are `k`, those from `hi` on are greater. */
  ghost predicate Run(s: seq<int>, k: int, lo: nat, hi: nat)
  {
    lo <= hi <= |s| &&
    (forall j :: 0 <= j < lo ==> s[j] < k) &&
    (forall j :: lo <= j < hi ==> s[j] == k) &&
    (forall j :: hi <= j < |s| ==> k < s[j])
  }

  /** The number of copies of `k` is the length of its run. */
  lemma {:induction false} RunCount(s: seq<int>, k: int, lo: nat, hi: nat)
    requires Run(s, k, lo, hi)
    ensures multiset(s)[k] == hi - lo
  {
    if s != [] {
      var n := |s| - 1;
      var lo', hi' := if lo < n then lo else n, if hi < n then hi else n;
      assert s == s[..n] + [s[n]];
      assert Run(s[..n], k, lo', hi') by {
        forall j | 0 <= j < n ensures s[..n][j] == s[j] {
        }
      }
      RunCount(s[..n], k, lo', hi');
    }
  }

  /** In a sorted sequence, the values before the first copy of `k` are smaller than `k`. */
  lemma BeforeRun(s: seq<int>, k: int, lo: nat)
    requires Sorted(Identity, s) && lo < |s| && s[lo] == k
    requires lo == 0 || s[lo - 1] != k
    ensures forall j :: 0 <= j < lo ==> s[j] < k
  {
    if lo > 0 {
      assert Identity(s[lo - 1]) <= Identity(s[lo]);
      forall j | 0 <= j < lo ensures s[j] < k {
        assert Identity(s[j]) <= Identity(s[lo - 1]);
      }
    }
  }

  /** In a sorted sequence, the values after the last copy of `k` are greater than `k`. */
  lemma AfterRun(s: seq<int>, k: int, hi: nat)
    requires Sorted(Identity, s) && 0 < hi <= |s| && s[hi - 1] == k
    requires hi == |s| || s[hi] != k
    ensures forall j :: hi <= j < |s| ==> k < s[j]
  {
    if hi < |s| {
      assert Identity(s[hi - 1]) <= Identity(s[hi]);
      forall j | hi <= j < |s| ensures k < s[j] {
        assert Identity(s[hi]) <= Identity(s[j]);
      }
    }
  }

  /**
    In a sorted sequence, a block of copies of `k` bordered by other values (or
    by the ends) is the whole run of `k`.
  */
  lemma RunBounds(s: seq<int>, k: int, lo: nat, hi: nat)
    requires Sorted(Identity, s) && lo < hi <= |s|
    requires forall j :: lo <= j < hi ==> s[j] == k
    requires lo == 0 || s[lo - 1] != k
    requires hi == |s| || s[hi] != k
    ensures Run(s, k, lo, hi)
  {
    BeforeRun(s, k, lo);
    AfterRun(s, k, hi);
  }

  /**
    A copy of `v` spliced in at the end of the values not above it adds one
    to its multiplicity and is the last copy of `v`.
  */
  lemma SpliceAtEnd(s: seq<int>, t: seq<int>, i: nat, v: int)
    requires i <= |s| && t == s[..i] + [v] + s[i..] && Boundary(Identity, s, i, v)
    ensures multiset(t) == multiset(s) + multiset{v}
    ensures i + 1 == |t| || t[i + 1] != v
  {
    assert s == s[..i] + s[i..];
    if i + 1 < |t| {
      assert t[i + 1] == s[i];
    }
  }

  class Multiset {
    const tree: SortedBinaryTree<int>

    /** The tree is sound and keys values by themselves. */
    ghost predicate Valid()
      reads this, tree
    {
      tree.Valid() && tree.key == Identity
    }

    /** The values stored, with their multiplicities. */
    ghost function Contents(): multiset<int>
      reads this, tree
    {
      multiset(tree.Elements())
    }

    constructor ()
      ensures Valid() && fresh(tree) && Contents() == multiset{}
    {
      tree := new SortedBinaryTree(Identity);
    }

    /** Construction from a list: every item, repeats included. */
    constructor FromList(items: seq<int>)
      ensures Valid() && fresh(tree) && Contents() == multiset(items)
    {
      tree := new SortedBinaryTree(Identity);
      new;
      AssignList(items);
    }

    /** Copy construction: an empty multiset, then copy assignment. */
    constructor Copy(other: Multiset)
      requires other.Valid()
      ensures Valid() && fresh(tree) && tree.Elements() == other.tree.Elements()
    {
      tree := new SortedBinaryTree(Identity);
      new;
      CopyAssign(other);
    }

    /** Move construction: take `other`'s values and leave it empty. */
    constructor Move(other: Multiset)
      requires other.Valid()
      modifies other.tree
      ensures Valid() && fresh(tree) && Contents() == old(other.Contents())
      ensures other.Valid() && other.Contents() == multiset{}
    {
      tree := new SortedBinaryTree.Move(other.tree);
    }

    /**
      Copy assignment: unless `other` is this multiset, clear and insert the
      values of `other`, read by iterating it, one by one with repeats.
    */
    method CopyAssign(other: Multiset)
      requires tree.Valid() && tree.key == Identity && other.Valid()
      modifies tree
      ensures Valid() && tree.Elements() == old(other.tree.Elements())
    {
      if other != this {
        var items := other.tree.Traverse();
        tree.Clear();
        tree.InsertAll(items, true);
      }
    }

    /** Move assignment (defaulted): the tree's move assignment takes `other`'s values. */
    method MoveAssign(other: Multiset)
      requires Valid() && other.Valid()
      modifies tree, other.tree
      ensures Valid() && other.Valid()
      ensures Contents() == old(other.Contents())
      ensures other.tree != tree ==> other.Contents() == multiset{}
    {
      tree.MoveFrom(other.tree);
    }

    /** List assignment: clear, then insert every item with repeats. */
    method AssignList(items: seq<int>)
      requires tree.Valid() && tree.key == Identity
      modifies tree
      ensures Valid() && Contents() == multiset(items)
    {
      tree.Clear();
      tree.InsertAll(items, true);
      AcceptedWithRepeats(Identity, [], items);
    }

    /** `empty()`. */
    function Empty(): (e: bool)
      reads this, tree
      requires Valid()
      ensures e <==> Contents() == multiset{}
    {
      tree.Empty()
    }

    /** `size()`: the number of values, repeats counted. */
    function Size(): (n: nat)
      reads this, tree
      requires Valid()
      ensures n == |Contents()|
    {
      tree.Size()
    }

    /** `clear()`. */
    method Clear()
      requires Valid()
      modifies tree
      ensures Valid() && Contents() == multiset{}
    {
      tree.Clear();
    }

    /** `insert(value)`: always adds a copy, at the end of its run; the iterator points at it. */
    method Insert(v: int) returns (it: TreeIterator<int>)
      requires Valid()
      modifies tree
      ensures Valid() && Contents() == old(Contents()) + multiset{v}
      ensures tree.IsLive(it) && tree.Deref(it) == v
      ensures tree.Position(it) + 1 == |tree.Elements()| || tree.Elements()[tree.Position(it) + 1] != v
    {
      ghost var s := tree.Elements();
      var inserted;
      it, inserted := tree.Insert(v, true);
      SpliceAtEnd(s, tree.Elements(), tree.Position(it), v);
    }

    /** `erase(pos)`: one copy, the one at `pos`, is removed; `end()` or a foreign iterator throws. */
    method Erase(pos: TreeIterator<int>) returns (r: Outcome)
      requires Valid()
      modifies tree
      ensures Valid()
      ensures r.Pass? <==> old(tree.IsLive(pos))
      ensures r.Pass? ==> Contents() == old(Contents() - multiset{tree.Deref(pos)})
      ensures r.Fail? ==> r.error == InvalidIterator && Contents() == old(Contents())
    {
      ghost var s := tree.Elements();
      ghost var i := if tree.IsLive(pos) then tree.Position(pos) else 0;
      r := tree.Erase(pos);
      if r.Pass? {
        assert s == s[..i] + [s[i]] + s[i + 1..];
      }
    }

    /** `swap(other)`. */
    method Swap(other: Multiset)
      requires Valid() && other.Valid()
      modifies tree, other.tree
      ensures Valid() && other.Valid()
      ensures Contents() == old(other.Contents()) && other.Contents() == old(Contents())
    {
      tree.Swap(other.tree);
    }

    /** `merge(other)`: every value of `other` moves here; `other` is left empty. */
    method Merge(other: Multiset)
      requires Valid() && other.Valid() && other.tree != tree
      modifies tree, other.tree
      ensures Valid() && other.Valid()
      ensures Contents() == old(Contents() + other.Contents())
      ensures other.Contents() == multiset{}
    {
      ghost var base, src := tree.Elements(), other.tree.Elements();
      tree.Merge(other.tree, true);
      AcceptedWithRepeats(Identity, base, src);
    }

    /**
      `count_and_find_last(key)`: `find` reaches the last copy of `k`; walk
      back with `--` while the values stay equal, counting. The pair is the
      last copy and the first copy, or `end()` twice when `k` is absent.
    */
    method CountAndFindLast(k: int) returns (first: TreeIterator<int>, el: TreeIterator<int>, n: nat)
      requires Valid()
      ensures n == Contents()[k]
      ensures n == 0 ==> first == tree.End() && el == tree.End()
      ensures n > 0 ==> Bounds(k, el, first)
    {
      first := FindLast(k);
      if first.node.None? {
        return first, first, 0;
      }
      el, n := WalkBack(first);
      Counted(k, el, first, n);
      RunIsCount(k, tree.Position(el), tree.Position(first) + 1, n);
    }

    /** `tree_.find(key)`: the last copy of `k`, or `end()` when there is none. */
    method FindLast(k: int) returns (first: TreeIterator<int>)
      requires Valid()
      ensures tree.Denotes(first)
      ensures first.node.None? ==> first == tree.End() && Contents()[k] == 0
      ensures tree.IsLive(first) ==>
                tree.key(tree.Deref(first)) == k &&
                (tree.Position(first) + 1 == |tree.Elements()| || tree.key(tree.Elements()[tree.Position(first) + 1]) != k)
    {
      first := tree.Find(k);
      if first.node.None? {
        Absent(k);
      }
    }

    /** A value no stored value has as key occurs zero times. */
    lemma Absent(k: int)
      requires Valid() && !HasKey(tree.key, tree.Elements(), k)
      ensures Contents()[k] == 0
    {
      IdentityKeys(tree.Elements());
    }

    /**
      `lower` and `upper` are the first and the last copy of `k`: the copies
      fill the positions between them, smaller values come before, greater after.
    */
    ghost predicate Bounds(k: int, lower: TreeIterator<int>, upper: TreeIterator<int>)
      reads this, tree
    {
      tree.IsLive(lower) && tree.IsLive(upper) &&
      Run(tree.Elements(), k, tree.Position(lower), tree.Position(upper) + 1)
    }

    /**
      The loop of `count_and_find_last`: from `first`, step back with `--`
      while the value stays that of `first`, counting; then step forward once,
      or restart at `begin()` when the walk ran off the front. The `n` values
      from `el` to `first` equal that of `first`, and the one before `el`, if
      any, does not.
    */
    method WalkBack(first: TreeIterator<int>) returns (el: TreeIterator<int>, n: nat)
      requires tree.IsLive(first)
      ensures tree.IsLive(el) && 0 < n && tree.Position(el) + n == tree.Position(first) + 1
      ensures forall j :: tree.Position(el) <= j <= tree.Position(first) ==> tree.Elements()[j] == tree.Deref(first)
      ensures tree.Position(el) == 0 || tree.Elements()[tree.Position(el) - 1] != tree.Deref(first)
    {
      ghost var last := tree.Position(first);
      n := 1;
      el := tree.Decrement(first);
      WalkStart(first);
      while el.node.Some? && tree.Deref(el) == tree.Deref(first)
        invariant Walk(tree.Deref(first), last, el, n)
        decreases last + 1 - n
      {
        WalkStep(tree.Deref(first), last, el, n);
        n := n + 1;
        el := tree.Decrement(el);
      }
      ghost var stop := el;
      if el.node.Some? {
        el := tree.Increment(el);
      } else {
        el := tree.Begin();
      }
      WalkEnd(first, stop, el, n);
    }

    /**
      How far the walk back from position `last` has got: `n` copies of `v`
      counted, ending at `last`, and `el` one step before them.
    */
    ghost predicate Walk(v: int, last: nat, el: TreeIterator<int>, n: nat)
      reads this, tree
    {
      last < |tree.Elements()| && 1 <= n <= last + 1 &&
      tree.Denotes(el) &&
      (last + 1 - n > 0 ==> tree.IsLive(el) && tree.Position(el) == last - n) &&
      (last + 1 - n == 0 ==> el == tree.End()) &&
      forall j :: last + 1 - n <= j <= last ==> tree.Elements()[j] == v
    }

    /** One step back from `first`, one copy of its value has been counted. */
    lemma WalkStart(first: TreeIterator<int>)
      requires tree.IsLive(first)
      ensures Walk(tree.Deref(first), tree.Position(first), tree.Decrement(first), 1)
    {
    }

    /** One more copy of `v` met walking back keeps `Walk`. */
    lemma WalkStep(v: int, last: nat, el: TreeIterator<int>, n: nat)
      requires Walk(v, last, el, n) && el.node.Some? && tree.Deref(el) == v
      ensures last + 1 - n > 0 && Walk(v, last, tree.Decrement(el), n + 1)
    {
    }

    /**
      Where the walk stopped, at `stop`, the value differs or the front was
      passed; one step forward from there, `el`, is the first of the block.
    */
    lemma WalkEnd(first: TreeIterator<int>, stop: TreeIterator<int>, el: TreeIterator<int>, n: nat)
      requires tree.IsLive(first)
      requires Walk(tree.Deref(first), tree.Position(first), stop, n)
      requires !(stop.node.Some? && tree.Deref(stop) == tree.Deref(first))
      requires stop.node.Some? ==> tree.IsLive(stop) && el == tree.Increment(stop)
      requires stop.node.None? ==> el == tree.Begin()
      ensures tree.IsLive(el) && 0 < n && tree.Position(el) + n == tree.Position(first) + 1
      ensures forall j :: tree.Position(el) <= j <= tree.Position(first) ==> tree.Elements()[j] == tree.Deref(first)
      ensures tree.Position(el) == 0 || tree.Elements()[tree.Position(el) - 1] != tree.Deref(first)
    {
    }

    /** The block the walk found around the last copy of `k` is the run of `k`, and `n` its length. */
    lemma Counted(k: int, el: TreeIterator<int>, first: TreeIterator<int>, n: nat)
      requires Valid() && tree.IsLive(first) && tree.key(tree.Deref(first)) == k
      requires tree.Position(first) + 1 == |tree.Elements()| || tree.key(tree.Elements()[tree.Position(first) + 1]) != k
      requires tree.IsLive(el) && 0 < n && tree.Position(el) + n == tree.Position(first) + 1
      requires forall j :: tree.Position(el) <= j <= tree.Position(first) ==> tree.Elements()[j] == tree.Deref(first)
      requires tree.Position(el) == 0 || tree.Elements()[tree.Position(el) - 1] != tree.Deref(first)
      ensures Bounds(k, el, first)
    {
      WalkIsRun(k, el, first, n);
    }

    /** The multiplicity of `k` is the length of its run. */
    lemma RunIsCount(k: int, lo: nat, hi: nat, n: nat)
      requires Run(tree.Elements(), k, lo, hi) && lo + n == hi
      ensures n == Contents()[k]
    {
      RunCount(tree.Elements(), k, lo, hi);
    }

    /** In the sorted tree, the block the walk found around the last copy of `k` is the whole run of `k`. */
    lemma WalkIsRun(k: int, el: TreeIterator<int>, first: TreeIterator<int>, n: nat)
      requires Valid() && tree.IsLive(first) && tree.key(tree.Deref(first)) == k
      requires tree.Position(first) + 1 == |tree.Elements()| || tree.key(tree.Elements()[tree.Position(first) + 1]) != k
      requires tree.IsLive(el) && 0 < n && tree.Position(el) + n == tree.Position(first) + 1
      requires forall j :: tree.Position(el) <= j <= tree.Position(first) ==> tree.Elements()[j] == tree.Deref(first)
      requires tree.Position(el) == 0 || tree.Elements()[tree.Position(el) - 1] != tree.Deref(first)
      ensures Run(tree.Elements(), k, tree.Position(el), tree.Position(first) + 1)
    {
      RunBounds(tree.Elements(), k, tree.Position(el), tree.Position(first) + 1);
    }

    /** `count(key)`: the multiplicity of `k`. */
    method Count(k: int) returns (n: nat)
      requires Valid()
      ensures n == Contents()[k]
    {
      var _, _, c := CountAndFindLast(k);
      n := c;
    }

    /** `find(key)`: the last copy of `k`, or `end()` when there is none. */
    method Find(k: int) returns (it: TreeIterator<int>)
      requires Valid()
      ensures tree.Denotes(it)
      ensures it == tree.End() <==> k !in Contents()
      ensures tree.IsLive(it) ==> tree.Deref(it) == k
      ensures forall e :: tree.IsLive(e) && tree.Deref(e) == k ==> tree.Position(e) <= tree.Position(it)
    {
      it := tree.Find(k);
      FoundIff(k, it);
      FoundLast(k, it);
    }

    /** The tree's `find` reaches `end()` exactly when no copy of `k` is stored. */
    lemma FoundIff(k: int, it: TreeIterator<int>)
      requires Valid() && it.tree == tree
      requires it.node.None? <==> !HasKey(tree.key, tree.Elements(), k)
      ensures it == tree.End() <==> k !in Contents()
    {
      IdentityKeys(tree.Elements());
    }

    /** What the tree's `find` reaches is the last copy of `k`. */
    lemma FoundLast(k: int, it: TreeIterator<int>)
      requires Valid() && tree.Denotes(it)
      requires tree.IsLive(it) ==>
                 tree.key(tree.Deref(it)) == k &&
                 (tree.Position(it) + 1 == |tree.Elements()| || tree.key(tree.Elements()[tree.Position(it) + 1]) != k)
      ensures tree.IsLive(it) ==> tree.Deref(it) == k
      ensures forall e :: tree.IsLive(e) && tree.Deref(e) == k ==> tree.Position(e) <= tree.Position(it)
    {
      if tree.IsLive(it) {
        AfterRun(tree.Elements(), k, tree.Position(it) + 1);
      }
    }

    /** `contains(key)`. */
    method Contains(k: int) returns (b: bool)
      requires Valid()
      ensures b <==> k in Contents()
    {
      b := tree.Contains(k);
      IdentityKeys(tree.Elements());
    }

    /**
      `equal_range(key)`: the pair built by `count_and_find_last`, i.e. the
      last copy of `k` first and the first copy second, or `end()` twice.
    */
    method EqualRange(k: int) returns (last: TreeIterator<int>, lower: TreeIterator<int>)
      requires Valid()
      ensures k !in Contents() ==> last == tree.End() && lower == tree.End()
      ensures k in Contents() ==>
                tree.IsLive(last) && tree.IsLive(lower) &&
                Run(tree.Elements(), k, tree.Position(lower), tree.Position(last) + 1)
    {
      var n;
      last, lower, n := CountAndFindLast(k);
    }

    /**
      `lower_bound(key)`: the first copy of `k`, with only smaller values before
      it; `end()` when `k` is absent.
    */
    method LowerBound(k: int) returns (it: TreeIterator<int>)
      requires Valid()
      ensures k !in Contents() ==> it == tree.End()
      ensures k in Contents() ==>
                tree.IsLive(it) && tree.Deref(it) == k &&
                forall j :: 0 <= j < tree.Position(it) ==> tree.Elements()[j] < k
    {
      var first, n;
      first, it, n := CountAndFindLast(k);
    }

    /**
      `upper_bound(key)`: one step past the last copy of `k`: the first
      greater value, or `end()`.
    */
    method UpperBound(k: int) returns (it: TreeIterator<int>)
      requires Valid() && k in Contents()
      ensures tree.Denotes(it)
      ensures forall j :: 0 <= j < tree.Position(it) ==> tree.Elements()[j] <= k
      ensures tree.IsLive(it) ==> k < tree.Deref(it)
    {
      var first, el, n := CountAndFindLast(k);
      it := tree.Increment(first);
    }

    /**
      `emplace(args...)`: insert every argument with repeats; each is reported
      with an iterator to its new copy and `true`.
    */
    method Emplace(args: seq<int>) returns (results: seq<(TreeIterator<int>, bool)>)
      requires Valid()
      modifies tree
      ensures Valid() && |results| == |args|
      ensures forall i :: 0 <= i < |args| ==>
                results[i].1 && tree.IsLive(results[i].0) && tree.Deref(results[i].0) == args[i]
      ensures Contents() == old(Contents()) + multiset(args)
    {
      ghost var base := tree.Elements();
      results := tree.Emplace(true, args);
      AcceptedWithRepeats(Identity, base, args);
    }
  }
}
