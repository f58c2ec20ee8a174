/**
  `List`: a circular doubly linked list of `int` values around a sentinel
  node. Iterators are node references; `end()` is the sentinel, `++` follows
  `next_` and `--` follows `prev_`, so `--end()` is the last element and
  `++` past the last element comes back to `end()`.
*/
module CustomList {
  import opened Wrappers
  import opened ListRing
  import opened ListAlgebra

  /** A list iterator: the node it points at; node 0 is the sentinel, i.e. `end()`. */
  datatype ListIterator = ListIterator(node: nat)

  class List {
    /** `data_` of each arena node; node 0 is the sentinel. */
    var data: seq<int>
    /** `next_` of each arena node. */
    var next: seq<nat>
    /** `prev_` of each arena node. */
    var prev: seq<nat>
    /** `size_`. */
    var size: nat
    /** The element nodes from `begin()` on. */
    ghost var order: seq<nat>

    /** The arena is consistent, the links form the ring of `order`, and `size_` counts its nodes. */
    ghost predicate Valid()
      reads this
    {
      Shaped(data, next, prev, size, order)
    }

    /** The values from `begin()` to `end()`. */
    ghost function Elements(): seq<int>
      reads this
    {
      Values(data, order)
    }

    /** `it` points at a node of this list: an element node or the sentinel. */
    ghost predicate Denotes(it: ListIterator)
      reads this
    {
      it.node == 0 || it.node in order
    }

    /** `it` points at an element node. */
    ghost predicate IsLive(it: ListIterator)
      reads this
    {
      it.node != 0 && it.node in order
    }

    /** The index of the element `it` points at; `end()` is at `|Elements()|`. */
    ghost function Position(it: ListIterator): (p: nat)
      reads this
      requires Denotes(it)
      ensures p <= |order| && NodeAt(order, p) == it.node
    {
      if it.node == 0 then |order|
      else
        var p :| 0 <= p < |order| && order[p] == it.node;
        p
    }

    /** The iterator at ring position `p` is the one at that position. */
    lemma PositionOf(it: ListIterator, p: nat)
      requires Valid() && p <= |order| && NodeAt(order, p) == it.node
      ensures Denotes(it) && Position(it) == p
      ensures IsLive(it) <==> p < |order|
    {
      assert Denotes(it);
      if Position(it) != p {
        NodeAtInjective(order, |data|, Position(it), p);
      }
    }

    constructor ()
      ensures Valid() && Elements() == [] && fresh(this)
    {
      data, next, prev, size := [0], [0], [0], 0;
      order := [];
    }

    /** `begin()`: the first element, or `end()` when the list is empty. */
    function Begin(): (it: ListIterator)
      reads this
      requires Valid()
      ensures Denotes(it) && Position(it) == 0
    {
      assert next[NodeAt(order, |order|)] == NodeAt(order, Succ(|order|, |order|));
      PositionOf(ListIterator(next[0]), 0);
      ListIterator(next[0])
    }

    /** `end()`: the sentinel. */
    function End(): (it: ListIterator)
      reads this
      requires Valid()
      ensures Denotes(it) && Position(it) == |Elements()| && !IsLive(it)
    {
      ListIterator(0)
    }

    /** `++it`: the next node; past the last element is `end()`, past `end()` is `begin()`. */
    function Increment(it: ListIterator): (r: ListIterator)
      reads this
      requires Valid() && Denotes(it)
      ensures Denotes(r) && Position(r) == Succ(|Elements()|, Position(it))
    {
      var p := Position(it);
      assert next[NodeAt(order, p)] == NodeAt(order, Succ(|order|, p));
      PositionOf(ListIterator(next[it.node]), Succ(|order|, p));
      ListIterator(next[it.node])
    }

    /** `--it`: the previous node; before `begin()` is `end()`, before `end()` the last element. */
    function Decrement(it: ListIterator): (r: ListIterator)
      reads this
      requires Valid() && Denotes(it)
      ensures Denotes(r) && Position(r) == Pred(|Elements()|, Position(it))
    {
      var p := Position(it);
      assert prev[NodeAt(order, p)] == NodeAt(order, Pred(|order|, p));
      PositionOf(ListIterator(prev[it.node]), Pred(|order|, p));
      ListIterator(prev[it.node])
    }

    /** `*it`: the value of the element `it` points at. */
    function Deref(it: ListIterator): (v: int)
      reads this
      requires Valid() && IsLive(it)
      ensures Position(it) < |Elements()| && v == Elements()[Position(it)]
    {
      data[it.node]
    }

    /** `front()`: the first element. */
    function Front(): (v: int)
      reads this
      requires Valid() && Elements() != []
      ensures v == Elements()[0]
    {
      Deref(Begin())
    }

    /** `back()`: the last element. */
    function Back(): (v: int)
      reads this
      requires Valid() && Elements() != []
      ensures v == Elements()[|Elements()| - 1]
    {
      Deref(Decrement(End()))
    }

    /** `size()`. */
    function Size(): (n: nat)
      reads this
      requires Valid()
      ensures n == |Elements()|
    {
      size
    }

    /** `empty()`. */
    function Empty(): (e: bool)
      reads this
      requires Valid()
      ensures e <==> Elements() == []
    {
      size == 0
    }

    /** `clear()`: only the sentinel is left, linked to itself. */
    method Clear()
      requires Valid()
      modifies this
      ensures Valid() && Elements() == []
    {
      next := next[0 := 0];
      prev := prev[0 := 0];
      size := 0;
      order := [];
    }

    /**
      `insert(pos, value)`: a new node holding `value` is linked in just before
      `pos`; the result points at it and `pos` now sits one place further on.
    */
    method Insert(pos: ListIterator, v: int) returns (it: ListIterator)
      requires Valid() && Denotes(pos)
      modifies this
      ensures Valid()
      ensures Elements() == old(Elements()[..Position(pos)] + [v] + Elements()[Position(pos)..])
      ensures order == old(order[..Position(pos)] + [|data|] + order[Position(pos)..])
      ensures IsLive(it) && Position(it) == old(Position(pos)) && Deref(it) == v
      ensures Denotes(pos) && Position(pos) == old(Position(pos)) + 1
    {
      ghost var p := Position(pos);
      var n := |data|;
      var x := pos.node;
      assert prev[NodeAt(order, p)] == NodeAt(order, Pred(|order|, p));
      var b := prev[x];
      ghost var order' := order[..p] + [n] + order[p..];
      LinkInsert(next, prev, order, p, n, x, b, (next + [x])[b := n], (prev + [b])[x := n], order');
      ValuesInserted(data, order, p, v);
      data := data + [v];
      next := (next + [x])[b := n];
      prev := (prev + [b])[x := n];
      size := size + 1;
      order := order';
      it := ListIterator(n);
      PositionOf(it, p);
      PositionOf(pos, p + 1);
    }

    /**
      `erase(pos)`: the node at `pos` is unlinked and the result points at
      the element after it, now at the same index. Erasing through `end()`
      (for instance `begin()` of an empty list) throws.
    */
    method Erase(pos: ListIterator) returns (r: Result<ListIterator>)
      requires Valid() && Denotes(pos)
      modifies this
      ensures Valid()
      ensures r.Success? <==> old(IsLive(pos))
      ensures r.Success? ==> Elements() == old(Elements()[..Position(pos)] + Elements()[Position(pos) + 1..])
      ensures r.Success? ==> order == old(order[..Position(pos)] + order[Position(pos) + 1..])
      ensures r.Success? ==> Denotes(r.value) && Position(r.value) == old(Position(pos))
      ensures r.Failure? ==> r.error == InvalidIterator && Elements() == old(Elements()) && order == old(order)
    {
      if pos.node == 0 {
        return Failure(InvalidIterator);
      }
      ghost var p := Position(pos);
      var x := pos.node;
      assert prev[NodeAt(order, p)] == NodeAt(order, Pred(|order|, p));
      assert next[NodeAt(order, p)] == NodeAt(order, Succ(|order|, p));
      var a, c := prev[x], next[x];
      ghost var order' := order[..p] + order[p + 1..];
      LinkErase(next, prev, order, |data|, p, a, c, next[a := c], prev[c := a], order');
      ValuesErased(data, order, p);
      next := next[a := c];
      prev := prev[c := a];
      size := size - 1;
      order := order';
      NodeAtErased(old(order), p, order, p);
      PositionOf(ListIterator(c), p);
      r := Success(ListIterator(c));
    }

    /** `push_back(value)`: insert before `end()`. */
    method PushBack(v: int)
      requires Valid()
      modifies this
      ensures Valid() && Elements() == old(Elements()) + [v]
      ensures order == old(order) + [old(|data|)]
    {
      var _ := Insert(End(), v);
    }

    /** `push_front(value)`: insert before `begin()`. */
    method PushFront(v: int)
      requires Valid()
      modifies this
      ensures Valid() && Elements() == [v] + old(Elements())
    {
      var _ := Insert(Begin(), v);
    }

    /** `pop_back()`: erase `--end()`; on an empty list that is the sentinel, which throws. */
    method PopBack() returns (r: Outcome)
      requires Valid()
      modifies this
      ensures Valid()
      ensures r.Pass? <==> old(Elements()) != []
      ensures r.Pass? ==> Elements() == old(Elements()[..|Elements()| - 1])
      ensures r.Fail? ==> r.error == InvalidIterator && Elements() == old(Elements())
    {
      var e := Erase(Decrement(End()));
      r := if e.Success? then Pass else Fail(e.error);
    }

    /** `pop_front()`: erase `begin()`; on an empty list that is the sentinel, which throws. */
    method PopFront() returns (r: Outcome)
      requires Valid()
      modifies this
      ensures Valid()
      ensures r.Pass? <==> old(Elements()) != []
      ensures r.Pass? ==> Elements() == old(Elements()[1..])
      ensures r.Fail? ==> r.error == InvalidIterator && Elements() == old(Elements())
    {
      var e := Erase(Begin());
      r := if e.Success? then Pass else Fail(e.error);
    }

    /** `swap(other)`: the two lists exchange their nodes. */
    method Swap(other: List)
      requires Valid() && other.Valid()
      modifies this, other
      ensures Valid() && other.Valid()
      ensures Elements() == old(other.Elements()) && other.Elements() == old(Elements())
    {
      data, other.data := other.data, data;
      next, other.next := other.next, next;
      prev, other.prev := other.prev, prev;
      size, other.size := other.size, size;
      order, other.order := other.order, order;
    }
 
    /** Two iterators into this list are equal exactly when they stand at the same index. */
    lemma SamePosition(a: ListIterator, b: ListIterator)
      requires Valid() && Denotes(a) && Denotes(b)
      ensures a == b <==> Position(a) == Position(b)
    {
      if Position(a) != Position(b) {
        NodeAtInjective(order, |data|, Position(a), Position(b));
      }
    }

    /** `--` undoes `++` and `++` undoes `--`, all the way round the ring. */
    lemma StepBack(it: ListIterator)
      requires Valid() && Denotes(it)
      ensures Decrement(Increment(it)) == it && Increment(Decrement(it)) == it
    {
      SamePosition(Decrement(Increment(it)), it);
      SamePosition(Increment(Decrement(it)), it);
    }

    /** The values from `begin()` to `end()`, collected by walking `next_`. */
    method ToSeq() returns (s: seq<int>)
      requires Valid()
      ensures s == Elements()
    {
      s := [];
      assert next[NodeAt(order, |order|)] == NodeAt(order, Succ(|order|, |order|));
      var cur := next[0];
      ghost var k := 0;
      while cur != 0
        invariant k <= |order| && cur == NodeAt(order, k) && s == Elements()[..k]
        decreases |order| - k
      {
        assert next[NodeAt(order, k)] == NodeAt(order, Succ(|order|, k));
        s := s + [data[cur]];
        cur := next[cur];
        k := k + 1;
      }
    }

    /** Writes `vals` into the element nodes from `begin()` on, keeping every link. */
    method Overwrite(vals: seq<int>)
      requires Valid() && |vals| == |Elements()|
      modifies this
      ensures Valid() && Elements() == vals
      ensures order == old(order) && next == old(next) && prev == old(prev)
    {
      assert next[NodeAt(order, |order|)] == NodeAt(order, Succ(|order|, |order|));
      var cur := next[0];
      var k := 0;
      while cur != 0
        invariant Valid() && order == old(order) && next == old(next) && prev == old(prev)
        invariant k <= |order| && cur == NodeAt(order, k)
        invariant Elements() == vals[..k] + old(Elements())[k..]
        decreases |order| - k
      {
        assert next[NodeAt(order, k)] == NodeAt(order, Succ(|order|, k));
        ValuesWritten(data, order, k, vals[k]);
        WriteStep(Elements(), vals, old(Elements()), k);
        data := data[cur := vals[k]];
        cur := next[cur];
        k := k + 1;
      }
    }

    /** The walk of `reverse()`: `next_` and `prev_` are swapped on the sentinel and on every node. */
    method SwapLinks()
      requires Valid()
      modifies this
      ensures order == old(order) && data == old(data) && size == old(size)
      ensures SwappedUpTo(old(next), old(prev), order, next, prev, |order|)
    {
      ghost var o, n0, p0 := order, next, prev;
      var first := next[0];
      assert first == NodeAt(o, 0) by {
        assert next[NodeAt(o, |o|)] == NodeAt(o, Succ(|o|, |o|));
      }
      SwapStart(n0, p0, o, |data|);
      next := next[0 := prev[0]];
      prev := prev[0 := first];
      var cur := first;
      ghost var k := 0;
      while cur != 0
        invariant order == o && data == old(data) && size == old(size)
        invariant k <= |o| && cur == NodeAt(o, k)
        invariant SwappedUpTo(n0, p0, o, next, prev, k)
        decreases |o| - k
      {
        SwapStep(n0, p0, o, |data|, next, prev, k);
        var nx := next[cur];
        next := next[cur := prev[cur]];
        prev := prev[cur := nx];
        cur := nx;
        k := k + 1;
      }
    }

    /** `reverse()`: with every link swapped the ring runs the other way round. */
    method Reverse()
      requires Valid()
      modifies this
      ensures Valid() && Elements() == Reversed(old(Elements()))
    {
      SwapLinks();
      LinkReversed(old(next), old(prev), order, |data|, next, prev);
      ValuesReversed(data, order);
      order := Reversed(order);
    }

    /** `unique()`: of every run of equal neighbours only the first stays. */
    method Unique()
      requires Valid()
      modifies this
      ensures Valid() && Elements() == Dedup(old(Elements()))
    {
      var it := Begin();
      while it.node != 0
        invariant Valid() && Denotes(it)
        invariant Elements()[..Position(it)] + Dedup(Elements()[Position(it)..]) == Dedup(old(Elements()))
        decreases |Elements()| - Position(it)
      {
        ghost var p, e := Position(it), Elements();
        var nx := Increment(it);
        if nx.node != 0 && Deref(nx) == Deref(it) {
          var _ := Erase(nx);
          PositionOf(it, p);
          DedupSkip(e, p, Elements());
        } else {
          DedupKeep(e, p);
          it := nx;
        }
      }
    }

    /** `sort()`: the values are put in ascending order, as a permutation. */
    method Sort()
      requires Valid()
      modifies this
      ensures Valid() && Sorted(Elements()) && multiset(Elements()) == multiset(old(Elements()))
    {
      var s := ToSeq();
      var sorted := SortSeq(s);
      assert |sorted| == |multiset(sorted)| == |multiset(s)| == |s|;
      Overwrite(sorted);
    }

    /**
      `merge(other)`: `other`'s values are walked into this list, each before
      the first element larger than it, and `other` is left empty.
    */
    method Merge(other: List)
      requires Valid() && other.Valid() && other != this
      modifies this, other
      ensures Valid() && other.Valid()
      ensures Elements() == MergeSeq(old(Elements()), old(other.Elements()))
      ensures other.Elements() == []
    {
      var it := Begin();
      ghost var p := 0;
      ghost var goal := MergeSeq(Elements(), other.Elements());
      MergeWalkStart(Elements(), other.Elements());
      while other.size > 0
        invariant Merging(other, it, p, goal)
        decreases |other.Elements()| + |Elements()| - p
      {
        it := MergeStep(it, p, other, goal);
        p := p + 1;
      }
      MergeWalkEnd(Elements(), p, goal);
    }

    /** The state of the `merge` walk: `it` is at index `p`, and merging on from there reaches `goal`. */
    ghost predicate Merging(other: List, it: ListIterator, p: nat, goal: seq<int>)
      reads this, other
    {
      Valid() && other.Valid() && other != this && p <= |order| && it.node == NodeAt(order, p) &&
      MergedUpTo(Elements(), p, other.Elements(), goal)
    }

    /**
      One step of the `merge` walk at `it`: the head of `other` is moved in
      before `it` when it is smaller, or else `it` moves on.
    */
    method MergeStep(it: ListIterator, ghost p: nat, other: List, ghost goal: seq<int>) returns (it': ListIterator)
      requires Merging(other, it, p, goal) && other.size > 0
      modifies this, other
      ensures Merging(other, it', p + 1, goal)
      ensures |other.Elements()| + |Elements()| == old(|other.Elements()| + |Elements()|)
    {
      ghost var e, b := Elements(), other.Elements();
      PositionOf(it, p);
      var x := other.Front();
      if it.node == 0 || x < Deref(it) {
        var _ := Insert(it, x);
        it' := it;
        var _ := other.PopFront();
        MergeTake(e, p, b, Elements(), goal);
      } else {
        MergeKeep(e, p, b, goal);
        it' := Increment(it);
      }
    }

    /**
      `splice(pos, other)`: `other`'s values go in order before `pos`, and
      `other` is left empty.
    */
    method Splice(pos: ListIterator, other: List)
      requires Valid() && other.Valid() && other != this && Denotes(pos)
      modifies this, other
      ensures Valid() && other.Valid() && other.Elements() == []
      ensures Elements() == old(Elements()[..Position(pos)] + other.Elements() + Elements()[Position(pos)..])
    {
      var moved := other.ToSeq();
      var _ := Emplace(pos, moved);
      other.Clear();
    }

    /**
      `emplace(pos, args...)`: the arguments go in order before `pos`; the
      result points at the last of them, or is `pos` when there are none.
    */
    method Emplace(pos: ListIterator, args: seq<int>) returns (it: ListIterator)
      requires Valid() && Denotes(pos)
      modifies this
      ensures Valid() && Denotes(it)
      ensures Elements() == old(Elements()[..Position(pos)]) + args + old(Elements()[Position(pos)..])
      ensures args == [] ==> it == pos
      ensures args != [] ==> IsLive(it) && Position(it) == old(Position(pos)) + |args| - 1 && Deref(it) == args[|args| - 1]
    {
      ghost var p, a := Position(pos), Elements();
      it := pos;
      var k := 0;
      while k < |args|
        invariant k <= |args| && Emplacing(pos, it, a, p, args, k)
      {
        it := EmplaceStep(pos, it, a, p, args, k);
        k := k + 1;
      }
      EmplaceDone(pos, it, a, p, args);
    }

    /**
      The state of the `emplace` loop: `args[..k]` sit before `pos` at index
      `p`, and `it` points at the last of them.
    */
    ghost predicate Emplacing(pos: ListIterator, it: ListIterator, a: seq<int>, p: nat, args: seq<int>, k: nat)
      reads this
    {
      Valid() && p + k <= |order| && pos.node == NodeAt(order, p + k) &&
      SplicedUpTo(Elements(), a, p, args, k) &&
      (k == 0 ==> it == pos) &&
      (k > 0 ==> k <= |args| && p + k - 1 < |order| && it.node == order[p + k - 1] && data[it.node] == args[k - 1])
    }

    /** One step of the `emplace` loop: `args[k]` goes in before `pos`. */
    method EmplaceStep(pos: ListIterator, it: ListIterator, ghost a: seq<int>, ghost p: nat, args: seq<int>, k: nat)
      returns (it': ListIterator)
      requires Emplacing(pos, it, a, p, args, k) && k < |args|
      modifies this
      ensures Emplacing(pos, it', a, p, args, k + 1)
    {
      PositionOf(pos, p + k);
      ghost var e := Elements();
      it' := Insert(pos, args[k]);
      GrowRun(a, p, args, k, e, Elements());
    }

    /** When the loop ends `Emplacing` says what `Emplace` promises. */
    lemma EmplaceDone(pos: ListIterator, it: ListIterator, a: seq<int>, p: nat, args: seq<int>)
      requires Emplacing(pos, it, a, p, args, |args|)
      ensures Valid() && Denotes(it) && Denotes(pos) && Position(pos) == p + |args|
      ensures Elements() == a[..p] + args + a[p..]
      ensures args != [] ==> IsLive(it) && Position(it) == p + |args| - 1 && Deref(it) == args[|args| - 1]
    {
      PositionOf(pos, p + |args|);
      assert args[..|args|] == args;
      if args != [] {
        PositionOf(it, p + |args| - 1);
      }
    }

    /** `emplace_back(args...)`: the arguments are appended in order. */
    method EmplaceBack(args: seq<int>)
      requires Valid()
      modifies this
      ensures Valid() && Elements() == old(Elements()) + args
    {
      var _ := Emplace(End(), args);
    }

    /** `emplace_front(args...)`: the arguments go in order before the first element. */
    method EmplaceFront(args: seq<int>)
      requires Valid()
      modifies this
      ensures Valid() && Elements() == args + old(Elements())
    {
      var _ := Emplace(Begin(), args);
    }

    /** `copy_list(other)`: `other`'s values are appended, walking `other` from `begin()`. */
    method CopyList(other: List)
      requires Valid() && other.Valid() && other != this
      modifies this
      ensures Valid() && Elements() == old(Elements()) + other.Elements()
    {
      assert other.next[NodeAt(other.order, |other.order|)] == NodeAt(other.order, Succ(|other.order|, |other.order|));
      var cur := other.next[0];
      ghost var k := 0;
      while cur != 0
        invariant Valid() && k <= |other.order| && cur == NodeAt(other.order, k)
        invariant Elements() == old(Elements()) + other.Elements()[..k]
        decreases |other.order| - k
      {
        assert other.next[NodeAt(other.order, k)] == NodeAt(other.order, Succ(|other.order|, k));
        PushBack(other.data[cur]);
        cur := other.next[cur];
        k := k + 1;
      }
    }

    /** `List(count)`: `count` value-initialised elements. */
    constructor Sized(count: nat)
      ensures Valid() && Elements() == seq(count, _ => 0) && fresh(this)
    {
      data, next, prev, size := [0], [0], [0], 0;
      order := [];
      new;
      var k := 0;
      while k < count
        invariant Valid() && k <= count && Elements() == seq(k, _ => 0)
      {
        PushBack(0);
        k := k + 1;
      }
    }

    /** `List(items)`: the items, in order. */
    constructor FromList(items: seq<int>)
      ensures Valid() && Elements() == items && fresh(this)
    {
      data, next, prev, size := [0], [0], [0], 0;
      order := [];
      new;
      EmplaceBack(items);
    }

    /** `List(const List &)`: a copy of `other`'s values. */
    constructor Copy(other: List)
      requires other.Valid()
      ensures Valid() && Elements() == other.Elements() && fresh(this)
    {
      data, next, prev, size := [0], [0], [0], 0;
      order := [];
      new;
      CopyList(other);
    }

    /** `List(List &&)`: this list takes over `other`'s nodes and `other` is left empty. */
    constructor Move(other: List)
      requires other.Valid()
      modifies other
      ensures Valid() && Elements() == old(other.Elements()) && fresh(this)
      ensures other.Valid() && other.Elements() == []
    {
      data, next, prev, size := other.data, other.next, other.prev, other.size;
      order := other.order;
      new;
      other.data, other.next, other.prev, other.size := [0], [0], [0], 0;
      other.order := [];
    }

    /** `operator=(const List &)`: unless `other` is this list, clear and copy `other`'s values. */
    method CopyAssign(other: List)
      requires Valid() && other.Valid()
      modifies this
      ensures Valid() && Elements() == old(other.Elements())
    {
      if other != this {
        Clear();
        CopyList(other);
      }
    }

    /** `operator=(List &&)`: unless `other` is this list, take over its nodes and leave it empty. */
    method MoveAssign(other: List)
      requires Valid() && other.Valid()
      modifies this, other
      ensures Valid() && other.Valid() && Elements() == old(other.Elements())
      ensures other != this ==> other.Elements() == []
    {
      if other != this {
        Swap(other);
        other.Clear();
      }
    }
  }
}
