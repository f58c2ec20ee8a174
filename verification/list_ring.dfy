/**
  The node structure of `List`: a circular doubly linked list threaded
  through a sentinel node. Nodes live in an arena and are named by their
  index there; index 0 is the sentinel (`shadow_node_`), and `next[x]` and
  `prev[x]` are the `next_` and `prev_` links of node `x`. The ghost
  sequence `order` lists the element nodes from `begin()` on; ring position
  `|order|` is the sentinel, i.e. `end()`.
*/
module ListRing {
  import opened ListAlgebra

  /** The node at ring position `p`: an element node before `|order|`, the sentinel at `|order|`. */
  function NodeAt(order: seq<nat>, p: nat): nat
    requires p <= |order|
  {
    if p < |order| then order[p] else 0
  }

  /** The ring position after `p` on a ring whose sentinel sits at position `n`. */
  function Succ(n: nat, p: nat): nat
  {
    if p == n then 0 else p + 1
  }

  /** The ring position before `p` on a ring whose sentinel sits at position `n`. */
  function Pred(n: nat, p: nat): nat
  {
    if p == 0 then n else p - 1
  }

  /** The element nodes are distinct arena nodes other than the sentinel. */
  ghost predicate Ring(order: seq<nat>, arena: nat)
  {
    (forall i :: 0 <= i < |order| ==> 0 < order[i] < arena) &&
    (forall i, j :: 0 <= i < j < |order| ==> order[i] != order[j])
  }

  /** `next` and `prev` link the sentinel and the nodes of `order` into one ring, in order. */
  ghost predicate Linked(next: seq<nat>, prev: seq<nat>, order: seq<nat>)
  {
    (forall p :: 0 <= p <= |order| ==>
       NodeAt(order, p) < |next| && next[NodeAt(order, p)] == NodeAt(order, Succ(|order|, p))) &&
    (forall p :: 0 <= p <= |order| ==>
       NodeAt(order, p) < |prev| && prev[NodeAt(order, p)] == NodeAt(order, Pred(|order|, p)))
  }

  /** The whole shape of a list: a consistent arena, the ring of `order`, and `size` counting its nodes. */
  ghost predicate Shaped(data: seq<int>, next: seq<nat>, prev: seq<nat>, size: nat, order: seq<nat>)
  {
    |next| == |data| && |prev| == |data| && 0 < |data| &&
    size == |order| && Ring(order, |data|) && Linked(next, prev, order)
  }

  /** The values held by the nodes of `order`, in order. */
  ghost function Values(data: seq<int>, order: seq<nat>): (r: seq<int>)
    ensures |r| == |order|
  {
    seq(|order|, i requires 0 <= i < |order| => if order[i] < |data| then data[order[i]] else 0)
  }

  /** Distinct ring positions hold distinct nodes. */
  lemma NodeAtInjective(order: seq<nat>, arena: nat, p: nat, q: nat)
    requires Ring(order, arena) && p <= |order| && q <= |order| && p != q
    ensures NodeAt(order, p) != NodeAt(order, q)
  {
    if p < |order| && q < |order| {
      if p < q { assert order[p] != order[q]; } else { assert order[q] != order[p]; }
    }
  }

  /** Where a node inserted at position `p` puts the other nodes. */
  lemma NodeAtInserted(order: seq<nat>, p: nat, n: nat, order': seq<nat>, q: nat)
    requires p <= |order| && order' == order[..p] + [n] + order[p..] && q <= |order'|
    ensures NodeAt(order', q) == if q < p then NodeAt(order, q) else if q == p then n else NodeAt(order, q - 1)
  {
  }

  /** Where removing the node at position `p` puts the other nodes. */
  lemma NodeAtErased(order: seq<nat>, p: nat, order': seq<nat>, q: nat)
    requires p < |order| && order' == order[..p] + order[p + 1..] && q <= |order'|
    ensures NodeAt(order', q) == if q < p then NodeAt(order, q) else NodeAt(order, q + 1)
  {
  }

  /**
    Linking a new node `n` in before the node `x` at position `p`: the node
    before `x` (`b`) now points forward to `n`, and `x` points back to it.
  */
  lemma LinkInsert(next: seq<nat>, prev: seq<nat>, order: seq<nat>, p: nat, n: nat,
                   x: nat, b: nat, next': seq<nat>, prev': seq<nat>, order': seq<nat>)
    requires Linked(next, prev, order) && Ring(order, n) && |next| == n && |prev| == n
    requires p <= |order| && x == NodeAt(order, p) && b == prev[x]
    requires next' == (next + [x])[b := n] && prev' == (prev + [b])[x := n]
    requires order' == order[..p] + [n] + order[p..]
    ensures Ring(order', n + 1) && Linked(next', prev', order')
  {
    assert b == NodeAt(order, Pred(|order|, p));
    forall i, j | 0 <= i < j < |order'| ensures order'[i] != order'[j] {
      NodeAtInserted(order, p, n, order', i);
      NodeAtInserted(order, p, n, order', j);
      if i != p && j != p {
        NodeAtInjective(order, n, if i < p then i else i - 1, if j < p then j else j - 1);
      }
    }
    forall q | 0 <= q <= |order'| ensures NodeAt(order', q) < |next'| &&
      next'[NodeAt(order', q)] == NodeAt(order', Succ(|order'|, q))
    {
      InsertedNext(next, prev, order, p, n, x, b, next', order', q);
    }
    forall q | 0 <= q <= |order'| ensures NodeAt(order', q) < |prev'| &&
      prev'[NodeAt(order', q)] == NodeAt(order', Pred(|order'|, q))
    {
      InsertedPrev(next, prev, order, p, n, x, b, prev', order', q);
    }
  }

  lemma InsertedNext(next: seq<nat>, prev: seq<nat>, order: seq<nat>, p: nat, n: nat,
                     x: nat, b: nat, next': seq<nat>, order': seq<nat>, q: nat)
    requires Linked(next, prev, order) && Ring(order, n) && |next| == n && |prev| == n
    requires p <= |order| && x == NodeAt(order, p) && b == NodeAt(order, Pred(|order|, p))
    requires next' == (next + [x])[b := n]
    requires order' == order[..p] + [n] + order[p..] && q <= |order'|
    ensures NodeAt(order', q) < |next'| && next'[NodeAt(order', q)] == NodeAt(order', Succ(|order'|, q))
  {
    var m := |order'|;
    NodeAtInserted(order, p, n, order', q);
    NodeAtInserted(order, p, n, order', Succ(m, q));
    if q == p {
      assert NodeAt(order', q) == n;
    } else if q == Pred(m, p) {
      assert NodeAt(order', q) == b;
    } else {
      var q0 := if q < p then q else q - 1;
      assert NodeAt(order', q) == NodeAt(order, q0);
      assert q0 != Pred(|order|, p);
      NodeAtInjective(order, n, q0, Pred(|order|, p));
      assert next[NodeAt(order, q0)] == NodeAt(order, Succ(|order|, q0));
    }
  }

  lemma InsertedPrev(next: seq<nat>, prev: seq<nat>, order: seq<nat>, p: nat, n: nat,
                     x: nat, b: nat, prev': seq<nat>, order': seq<nat>, q: nat)
    requires Linked(next, prev, order) && Ring(order, n) && |next| == n && |prev| == n
    requires p <= |order| && x == NodeAt(order, p) && b == NodeAt(order, Pred(|order|, p))
    requires prev' == (prev + [b])[x := n]
    requires order' == order[..p] + [n] + order[p..] && q <= |order'|
    ensures NodeAt(order', q) < |prev'| && prev'[NodeAt(order', q)] == NodeAt(order', Pred(|order'|, q))
  {
    var m := |order'|;
    NodeAtInserted(order, p, n, order', q);
    NodeAtInserted(order, p, n, order', Pred(m, q));
    if q == p {
      assert NodeAt(order', q) == n;
    } else if q == p + 1 {
      assert NodeAt(order', q) == x;
    } else {
      var q0 := if q < p then q else q - 1;
      assert NodeAt(order', q) == NodeAt(order, q0);
      assert q0 != p;
      NodeAtInjective(order, n, q0, p);
      assert prev[NodeAt(order, q0)] == NodeAt(order, Pred(|order|, q0));
    }
  }

  /**
    Unlinking the node at position `p`: its neighbours `a` (before) and `c`
    (after) are linked to each other.
  */
  lemma LinkErase(next: seq<nat>, prev: seq<nat>, order: seq<nat>, arena: nat, p: nat,
                  a: nat, c: nat, next': seq<nat>, prev': seq<nat>, order': seq<nat>)
    requires Linked(next, prev, order) && Ring(order, arena) && |next| == arena && |prev| == arena
    requires p < |order| && a == NodeAt(order, Pred(|order|, p)) && c == NodeAt(order, p + 1)
    requires next' == next[a := c] && prev' == prev[c := a]
    requires order' == order[..p] + order[p + 1..]
    ensures Ring(order', arena) && Linked(next', prev', order')
  {
    forall i, j | 0 <= i < j < |order'| ensures order'[i] != order'[j] {
      NodeAtErased(order, p, order', i);
      NodeAtErased(order, p, order', j);
      NodeAtInjective(order, arena, if i < p then i else i + 1, if j < p then j else j + 1);
    }
    forall q | 0 <= q <= |order'| ensures NodeAt(order', q) < |next'| &&
      next'[NodeAt(order', q)] == NodeAt(order', Succ(|order'|, q))
    {
      ErasedNext(next, prev, order, arena, p, a, c, next', order', q);
    }
    forall q | 0 <= q <= |order'| ensures NodeAt(order', q) < |prev'| &&
      prev'[NodeAt(order', q)] == NodeAt(order', Pred(|order'|, q))
    {
      ErasedPrev(next, prev, order, arena, p, a, c, prev', order', q);
    }
  }

  lemma ErasedNext(next: seq<nat>, prev: seq<nat>, order: seq<nat>, arena: nat, p: nat,
                   a: nat, c: nat, next': seq<nat>, order': seq<nat>, q: nat)
    requires Linked(next, prev, order) && Ring(order, arena) && |next| == arena && |prev| == arena
    requires p < |order| && a == NodeAt(order, Pred(|order|, p)) && c == NodeAt(order, p + 1)
    requires next' == next[a := c]
    requires order' == order[..p] + order[p + 1..] && q <= |order'|
    ensures NodeAt(order', q) < |next'| && next'[NodeAt(order', q)] == NodeAt(order', Succ(|order'|, q))
  {
    var m := |order'|;
    NodeAtErased(order, p, order', q);
    NodeAtErased(order, p, order', Succ(m, q));
    var q0 := if q < p then q else q + 1;
    assert NodeAt(order', q) == NodeAt(order, q0);
    if q == Pred(m, p) {
      assert NodeAt(order', q) == a;
    } else {
      assert q0 != Pred(|order|, p);
      NodeAtInjective(order, arena, q0, Pred(|order|, p));
      assert next[NodeAt(order, q0)] == NodeAt(order, Succ(|order|, q0));
    }
  }

  lemma ErasedPrev(next: seq<nat>, prev: seq<nat>, order: seq<nat>, arena: nat, p: nat,
                   a: nat, c: nat, prev': seq<nat>, order': seq<nat>, q: nat)
    requires Linked(next, prev, order) && Ring(order, arena) && |next| == arena && |prev| == arena
    requires p < |order| && a == NodeAt(order, Pred(|order|, p)) && c == NodeAt(order, p + 1)
    requires prev' == prev[c := a]
    requires order' == order[..p] + order[p + 1..] && q <= |order'|
    ensures NodeAt(order', q) < |prev'| && prev'[NodeAt(order', q)] == NodeAt(order', Pred(|order'|, q))
  {
    var m := |order'|;
    NodeAtErased(order, p, order', q);
    NodeAtErased(order, p, order', Pred(m, q));
    var q0 := if q < p then q else q + 1;
    assert NodeAt(order', q) == NodeAt(order, q0);
    if q == p {
      assert NodeAt(order', q) == c;
    } else {
      assert q0 != p + 1;
      NodeAtInjective(order, arena, q0, p + 1);
      assert prev[NodeAt(order, q0)] == NodeAt(order, Pred(|order|, q0));
    }
  }

  /** A new node holding `v` at position `p` adds `v` at index `p` of the values. */
  lemma ValuesInserted(data: seq<int>, order: seq<nat>, p: nat, v: int)
    requires Ring(order, |data|) && p <= |order|
    ensures Values(data + [v], order[..p] + [|data|] + order[p..]) == Values(data, order)[..p] + [v] + Values(data, order)[p..]
  {
    var order' := order[..p] + [|data|] + order[p..];
    var lhs, rhs := Values(data + [v], order'), Values(data, order)[..p] + [v] + Values(data, order)[p..];
    forall i | 0 <= i < |lhs| ensures lhs[i] == rhs[i] {
      if i < p {
        assert order'[i] == order[i];
      } else if i > p {
        assert order'[i] == order[i - 1];
      }
    }
  }

  /** Unlinking the node at position `p` removes index `p` of the values. */
  lemma ValuesErased(data: seq<int>, order: seq<nat>, p: nat)
    requires p < |order|
    ensures Values(data, order[..p] + order[p + 1..]) == Values(data, order)[..p] + Values(data, order)[p + 1..]
  {
    var order' := order[..p] + order[p + 1..];
    var lhs, rhs := Values(data, order'), Values(data, order)[..p] + Values(data, order)[p + 1..];
    forall i | 0 <= i < |lhs| ensures lhs[i] == rhs[i] {
      if i < p {
        assert order'[i] == order[i];
      } else {
        assert order'[i] == order[i + 1];
      }
    }
  }

  /** The ring position that position `p` moves to when the ring is reversed; the sentinel stays put. */
  function Mirror(n: nat, p: nat): nat
    requires p <= n
  {
    if p == n then n else n - 1 - p
  }

  /** The reversed ring holds at position `p` the node at the mirrored position. */
  lemma NodeAtReversed(order: seq<nat>, p: nat)
    requires p <= |order|
    ensures NodeAt(Reversed(order), p) == NodeAt(order, Mirror(|order|, p))
  {
  }

  /** The reversed ring is again a ring of distinct element nodes. */
  lemma RingReversed(order: seq<nat>, arena: nat)
    requires Ring(order, arena)
    ensures Ring(Reversed(order), arena)
  {
    var r, n := Reversed(order), |order|;
    forall i, j | 0 <= i < j < |r|
      ensures r[i] != r[j]
    {
      assert r[i] == order[n - 1 - i] && r[j] == order[n - 1 - j];
    }
  }

  /** Where the swapped `next'` of position `p`'s node leads in the reversed ring. */
  lemma ReversedNextAt(next: seq<nat>, prev: seq<nat>, order: seq<nat>, next': seq<nat>, p: nat)
    requires Linked(next, prev, order) && p <= |order|
    requires NodeAt(order, Mirror(|order|, p)) < |next'|
    requires next'[NodeAt(order, Mirror(|order|, p))] == prev[NodeAt(order, Mirror(|order|, p))]
    ensures NodeAt(Reversed(order), p) < |next'|
    ensures next'[NodeAt(Reversed(order), p)] == NodeAt(Reversed(order), Succ(|order|, p))
  {
    var n, m := |order|, Mirror(|order|, p);
    NodeAtReversed(order, p);
    NodeAtReversed(order, Succ(n, p));
    assert prev[NodeAt(order, m)] == NodeAt(order, Pred(n, m));
    assert Pred(n, m) == Mirror(n, Succ(n, p));
  }

  /** Where the swapped `prev'` of position `p`'s node leads in the reversed ring. */
  lemma ReversedPrevAt(next: seq<nat>, prev: seq<nat>, order: seq<nat>, prev': seq<nat>, p: nat)
    requires Linked(next, prev, order) && p <= |order|
    requires NodeAt(order, Mirror(|order|, p)) < |prev'|
    requires prev'[NodeAt(order, Mirror(|order|, p))] == next[NodeAt(order, Mirror(|order|, p))]
    ensures NodeAt(Reversed(order), p) < |prev'|
    ensures prev'[NodeAt(Reversed(order), p)] == NodeAt(Reversed(order), Pred(|order|, p))
  {
    var n, m := |order|, Mirror(|order|, p);
    NodeAtReversed(order, p);
    NodeAtReversed(order, Pred(n, p));
    assert next[NodeAt(order, m)] == NodeAt(order, Succ(n, m));
    assert Succ(n, m) == Mirror(n, Pred(n, p));
  }

  /**
    The state of the `reverse` walk: `next'` and `prev'` are `next` and
    `prev` with the two links swapped on the sentinel and on the nodes at
    positions below `k`, and left alone on the other nodes of the ring.
  */
  ghost predicate SwappedUpTo(next: seq<nat>, prev: seq<nat>, order: seq<nat>, next': seq<nat>, prev': seq<nat>, k: nat)
  {
    |next'| == |next| && |prev'| == |prev| &&
    forall q :: 0 <= q <= |order| ==>
      NodeAt(order, q) < |next| && NodeAt(order, q) < |prev| &&
      if q < k || q == |order| then
        next'[NodeAt(order, q)] == prev[NodeAt(order, q)] && prev'[NodeAt(order, q)] == next[NodeAt(order, q)]
      else
        next'[NodeAt(order, q)] == next[NodeAt(order, q)] && prev'[NodeAt(order, q)] == prev[NodeAt(order, q)]
  }

  /** The walk starts by swapping the links of the sentinel. */
  lemma SwapStart(next: seq<nat>, prev: seq<nat>, order: seq<nat>, arena: nat)
    requires Ring(order, arena) && Linked(next, prev, order) && 0 < |next| && 0 < |prev|
    ensures SwappedUpTo(next, prev, order, next[0 := prev[0]], prev[0 := next[0]], 0)
  {
    assert NodeAt(order, |order|) == 0;
    forall q | 0 <= q < |order|
      ensures NodeAt(order, q) != 0
    {
    }
  }

  /** The walk swaps the links of the node at position `k` and moves on to its old `next`. */
  lemma SwapStep(next: seq<nat>, prev: seq<nat>, order: seq<nat>, arena: nat, next': seq<nat>, prev': seq<nat>, k: nat)
    requires Ring(order, arena) && Linked(next, prev, order) && k < |order|
    requires SwappedUpTo(next, prev, order, next', prev', k)
    ensures order[k] < |next'| && order[k] < |prev'| && next'[order[k]] == NodeAt(order, k + 1)
    ensures SwappedUpTo(next, prev, order, next'[order[k] := prev'[order[k]]], prev'[order[k] := next'[order[k]]], k + 1)
  {
    assert NodeAt(order, k) == order[k];
    assert next[NodeAt(order, k)] == NodeAt(order, Succ(|order|, k));
    forall q | 0 <= q <= |order| && q != k
      ensures NodeAt(order, q) != order[k]
    {
      NodeAtInjective(order, arena, q, k);
    }
  }

  /**
    Swapping `next` and `prev` on the sentinel and every node of the ring
    links the nodes in reverse order.
  */
  lemma LinkReversed(next: seq<nat>, prev: seq<nat>, order: seq<nat>, arena: nat, next': seq<nat>, prev': seq<nat>)
    requires Ring(order, arena) && Linked(next, prev, order)
    requires SwappedUpTo(next, prev, order, next', prev', |order|)
    ensures Ring(Reversed(order), arena) && Linked(next', prev', Reversed(order))
  {
    RingReversed(order, arena);
    var r := Reversed(order);
    assert |r| == |order|;
    forall p | 0 <= p <= |r|
      ensures NodeAt(r, p) < |next'| && next'[NodeAt(r, p)] == NodeAt(r, Succ(|r|, p))
    {
      var q := Mirror(|order|, p);
      assert NodeAt(order, q) < |next'| && next'[NodeAt(order, q)] == prev[NodeAt(order, q)];
      ReversedNextAt(next, prev, order, next', p);
    }
    forall p | 0 <= p <= |r|
      ensures NodeAt(r, p) < |prev'| && prev'[NodeAt(r, p)] == NodeAt(r, Pred(|r|, p))
    {
      var q := Mirror(|order|, p);
      assert NodeAt(order, q) < |prev'| && prev'[NodeAt(order, q)] == next[NodeAt(order, q)];
      ReversedPrevAt(next, prev, order, prev', p);
    }
  }

  /** The values along the reversed ring are the values reversed. */
  lemma ValuesReversed(data: seq<int>, order: seq<nat>)
    ensures Values(data, Reversed(order)) == Reversed(Values(data, order))
  {
  }

  /** Writing `v` into the node at position `k` changes index `k` of the values and nothing else. */
  lemma ValuesWritten(data: seq<int>, order: seq<nat>, k: nat, v: int)
    requires Ring(order, |data|) && k < |order|
    ensures Values(data[order[k] := v], order) == Values(data, order)[k := v]
  {
    var lhs, rhs := Values(data[order[k] := v], order), Values(data, order)[k := v];
    forall i | 0 <= i < |order|
      ensures lhs[i] == rhs[i]
    {
      if i < k { assert order[i] != order[k]; }
      else if i > k { assert order[k] != order[i]; }
    }
  }
}
