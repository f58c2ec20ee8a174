/**
  The sequence functions that specify `List::reverse`, `List::sort`,
  `List::unique` and `List::merge`, with the properties each promises.
*/
module ListAlgebra {

  /** `s` read back to front. */
  function Reversed<T>(s: seq<T>): (r: seq<T>)
    ensures |r| == |s|
    ensures forall i :: 0 <= i < |s| ==> r[i] == s[|s| - 1 - i]
  {
    if s == [] then [] else Reversed(s[1..]) + [s[0]]
  }

  /** Reversing twice gives the sequence back. */
  lemma ReversedTwice<T>(s: seq<T>)
    ensures Reversed(Reversed(s)) == s
  {
    assert forall i :: 0 <= i < |s| ==> Reversed(Reversed(s))[i] == s[i];
  }

  /** Ascending order. */
  predicate Sorted(s: seq<int>)
  {
    forall i, j :: 0 <= i < j < |s| ==> s[i] <= s[j]
  }

  /** A value no larger than the head of a sorted sequence can go in front of it. */
  lemma ConsHead(x: int, s: seq<int>)
    requires Sorted(s) && (s != [] ==> x <= s[0])
    ensures Sorted([x] + s)
  {
    if s != [] {
      assert forall j :: 0 <= j < |s| ==> s[0] <= s[j];
    }
  }

  /** `x` placed into the sorted sequence `s` before the first larger element. */
  function InsertSorted(x: int, s: seq<int>): (r: seq<int>)
    ensures multiset(r) == multiset(s) + multiset{x}
    ensures r != [] && (r[0] == x || (s != [] && r[0] == s[0]))
    ensures Sorted(s) ==> Sorted(r)
  {
    if s == [] || x <= s[0] then
      (if Sorted(s) then ConsHead(x, s); [x] + s else [x] + s)
    else
      assert s == [s[0]] + s[1..];
      var t := InsertSorted(x, s[1..]);
      if Sorted(s) then
        assert Sorted(s[1..]);
        assert |s| > 1 ==> s[0] <= s[1];
        ConsHead(s[0], t);
        [s[0]] + t
      else [s[0]] + t
  }

  /** The ascending arrangement of `s`, by insertion. */
  function SortSeq(s: seq<int>): (r: seq<int>)
    ensures Sorted(r) && multiset(r) == multiset(s)
  {
    if s == [] then []
    else
      assert s == [s[0]] + s[1..];
      InsertSorted(s[0], SortSeq(s[1..]))
  }

  /** The least element of a non-empty sorted sequence is its first. */
  lemma SortedHeadIsMin(s: seq<int>, x: int)
    requires Sorted(s) && x in multiset(s)
    ensures s[0] <= x
  {
    var i :| 0 <= i < |s| && s[i] == x;
    if i > 0 { assert s[0] <= s[i]; }
  }

  /** Dropping the head of a sequence drops one occurrence of it. */
  lemma MultisetTail(s: seq<int>)
    requires s != []
    ensures multiset(s[1..]) == multiset(s) - multiset{s[0]}
  {
    assert s == [s[0]] + s[1..];
  }

  /** Sorted arrangements of the same non-empty multiset start with the same element. */
  lemma SameHead(a: seq<int>, b: seq<int>)
    requires Sorted(a) && Sorted(b) && multiset(a) == multiset(b) && a != []
    ensures b != [] && a[0] == b[0]
  {
    assert a[0] in multiset(b);
    assert b != [];
    assert b[0] in multiset(a);
    SortedHeadIsMin(b, a[0]);
    SortedHeadIsMin(a, b[0]);
  }

  /** Two sorted arrangements of the same elements are the same sequence. */
  lemma {:induction false} SortedUnique(a: seq<int>, b: seq<int>)
    requires Sorted(a) && Sorted(b) && multiset(a) == multiset(b)
    ensures a == b
  {
    if a == [] {
      assert |b| == |multiset(b)|;
    } else {
      SameHead(a, b);
      MultisetTail(a);
      MultisetTail(b);
      assert Sorted(a[1..]) && Sorted(b[1..]);
      SortedUnique(a[1..], b[1..]);
      assert a == [a[0]] + a[1..] && b == [b[0]] + b[1..];
    }
  }

  /** No two neighbours are equal. */
  predicate NoAdjacentRepeats(s: seq<int>)
  {
    forall i :: 0 < i < |s| ==> s[i - 1] != s[i]
  }

  /** `s` with every run of equal neighbours cut down to its first element. */
  function Dedup(s: seq<int>): (r: seq<int>)
    ensures |r| <= |s|
    ensures s != [] ==> r != [] && r[0] == s[0]
  {
    if |s| <= 1 then s
    else if s[0] == s[1] then Dedup(s[1..])
    else [s[0]] + Dedup(s[1..])
  }

  /** `Dedup` leaves no two equal neighbours. */
  lemma {:induction false} DedupNoRepeats(s: seq<int>)
    ensures NoAdjacentRepeats(Dedup(s))
  {
    if |s| > 1 {
      DedupNoRepeats(s[1..]);
      if s[0] != s[1] {
        var r := Dedup(s[1..]);
        var t := [s[0]] + r;
        forall i | 0 < i < |t|
          ensures t[i - 1] != t[i]
        {
          if i > 1 { assert t[i - 1] == r[i - 2] && t[i] == r[i - 1]; }
        }
      }
    }
  }

  /** `Dedup` keeps every value that occurs and adds none. */
  lemma {:induction false} DedupMembers(s: seq<int>)
    ensures forall x :: x in Dedup(s) <==> x in s
  {
    if |s| > 1 {
      DedupMembers(s[1..]);
      assert s == [s[0]] + s[1..];
    }
  }

  /** A sequence without equal neighbours is left alone; so `Dedup` is idempotent. */
  lemma {:induction false} DedupFixed(s: seq<int>)
    requires NoAdjacentRepeats(s)
    ensures Dedup(s) == s
  {
    if |s| > 1 {
      assert s[0] != s[1];
      DedupFixed(s[1..]);
      assert s == [s[0]] + s[1..];
    }
  }

  /**
    The merge walk of `List::merge`: the head of `b` goes first only when it
    is smaller than the head of `a`, so equal values keep `a` before `b`.
  */
  function MergeSeq(a: seq<int>, b: seq<int>): (r: seq<int>)
    ensures |r| == |a| + |b|
    decreases |a| + |b|
  {
    if b == [] then a
    else if a == [] then b
    else if b[0] < a[0] then [b[0]] + MergeSeq(a, b[1..])
    else [a[0]] + MergeSeq(a[1..], b)
  }

  /** A merge is a permutation of its two inputs together. */
  lemma {:induction false} MergePermutation(a: seq<int>, b: seq<int>)
    ensures multiset(MergeSeq(a, b)) == multiset(a) + multiset(b)
    decreases |a| + |b|
  {
    if b != [] && a != [] {
      if b[0] < a[0] {
        MergePermutation(a, b[1..]);
        MergeSecond(a, b);
        PermCons(b[0], MergeSeq(a, b), MergeSeq(a, b[1..]), b, b[1..], a);
      } else {
        MergePermutation(a[1..], b);
        MergeFirst(a, b);
        PermCons(a[0], MergeSeq(a, b), MergeSeq(a[1..], b), a, a[1..], b);
      }
    }
  }

  /** Putting `x` in front of a permutation of `other + s'` gives a permutation of `other + ([x] + s')`. */
  lemma PermCons(x: int, r: seq<int>, m: seq<int>, s: seq<int>, s': seq<int>, other: seq<int>)
    requires r == [x] + m && multiset(m) == multiset(other) + multiset(s') && s == [x] + s'
    ensures multiset(r) == multiset(other) + multiset(s) == multiset(s) + multiset(other)
  {
  }

  /** The first element of a merge is the head of one of its inputs. */
  lemma MergeHead(a: seq<int>, b: seq<int>)
    requires a != [] || b != []
    ensures MergeSeq(a, b) != []
    ensures MergeSeq(a, b)[0] == if b == [] then a[0] else if a == [] then b[0] else if b[0] < a[0] then b[0] else a[0]
  {
  }

  /** Merging two sorted sequences gives their sorted interleaving. */
  lemma {:induction false} MergeSorted(a: seq<int>, b: seq<int>)
    requires Sorted(a) && Sorted(b)
    ensures Sorted(MergeSeq(a, b))
    decreases |a| + |b|
  {
    if b != [] && a != [] {
      if b[0] < a[0] {
        MergeSorted(a, b[1..]);
        ConsSorted(b[0], MergeSeq(a, b[1..]), a, b[1..]);
      } else {
        MergeSorted(a[1..], b);
        ConsSorted(a[0], MergeSeq(a[1..], b), a[1..], b);
      }
    }
  }

  /** `x` in front of a sorted merge of inputs no smaller than `x` stays sorted. */
  lemma ConsSorted(x: int, m: seq<int>, a: seq<int>, b: seq<int>)
    requires Sorted(m) && m == MergeSeq(a, b)
    requires a != [] ==> x <= a[0]
    requires b != [] ==> x <= b[0]
    ensures Sorted([x] + m)
  {
    if m != [] {
      MergeHead(a, b);
    }
    ConsHead(x, m);
  }

  /** A sorted sequence merged with another sorted one is, as a whole, their sorted arrangement. */
  lemma MergeIsSort(a: seq<int>, b: seq<int>)
    requires Sorted(a) && Sorted(b)
    ensures MergeSeq(a, b) == SortSeq(a + b)
  {
    MergeSorted(a, b);
    MergePermutation(a, b);
    SortedUnique(MergeSeq(a, b), SortSeq(a + b));
  }

  /** One step of the `unique` walk that drops the neighbour equal to the element at `p`. */
  lemma DedupSkip(s: seq<int>, p: nat, s': seq<int>)
    requires p + 1 < |s| && s[p] == s[p + 1] && s' == s[..p + 1] + s[p + 2..]
    ensures s'[..p] + Dedup(s'[p..]) == s[..p] + Dedup(s[p..])
  {
    assert s'[..p] == s[..p];
    assert s'[p..] == s[p + 1..];
  }

  /** One step of the `unique` walk that keeps the element at `p` and moves on. */
  lemma DedupKeep(s: seq<int>, p: nat)
    requires p < |s| && (p + 1 < |s| ==> s[p] != s[p + 1])
    ensures s[..p + 1] + Dedup(s[p + 1..]) == s[..p] + Dedup(s[p..])
  {
    assert s[p..] == [s[p]] + s[p + 1..];
    assert s[..p + 1] == s[..p] + [s[p]];
    if p + 1 < |s| {
      assert s[p..][1..] == s[p + 1..];
    }
  }

  /** The `merge` walk has placed `e[..p]` for good, and merging `b` into `e[p..]` completes `g`. */
  ghost predicate MergedUpTo(e: seq<int>, p: nat, b: seq<int>, g: seq<int>)
  {
    p <= |e| && e[..p] + MergeSeq(e[p..], b) == g
  }

  /** One step of the `merge` walk that moves the head of `b` in before index `p`. */
  lemma MergeTake(e: seq<int>, p: nat, b: seq<int>, e': seq<int>, g: seq<int>)
    requires MergedUpTo(e, p, b, g) && b != [] && (p == |e| || b[0] < e[p])
    requires e' == e[..p] + [b[0]] + e[p..]
    ensures MergedUpTo(e', p + 1, b[1..], g)
  {
    assert e'[..p + 1] == e[..p] + [b[0]];
    assert e'[p + 1..] == e[p..];
    MergeSecond(e[p..], b);
    Regroup(e[..p], b[0], MergeSeq(e[p..], b[1..]), e'[..p + 1]);
  }

  /** The merge walk takes the head of `b` when `a` is used up or its head is larger. */
  lemma MergeSecond(a: seq<int>, b: seq<int>)
    requires b != [] && (a == [] || b[0] < a[0])
    ensures MergeSeq(a, b) == [b[0]] + MergeSeq(a, b[1..])
  {
    if a == [] {
      assert MergeSeq(a, b[1..]) == b[1..];
      assert b == [b[0]] + b[1..];
    }
  }

  /** One step of the `merge` walk that keeps the element at `p` and moves on. */
  lemma MergeKeep(e: seq<int>, p: nat, b: seq<int>, g: seq<int>)
    requires MergedUpTo(e, p, b, g) && p < |e| && (b == [] || !(b[0] < e[p]))
    ensures MergedUpTo(e, p + 1, b, g)
  {
    if b == [] {
      SplitAt(e, p);
    } else {
      MergeKeepHead(e, p, b, e[p..]);
    }
  }

  /** Moving the split point of `e` one place on does not change `e`. */
  lemma SplitAt(e: seq<int>, p: nat)
    requires p < |e|
    ensures e[..p + 1] + e[p + 1..] == e[..p] + e[p..]
  {
    assert e[..p + 1] + e[p + 1..] == e;
    assert e[..p] + e[p..] == e;
  }

  /** `MergeKeep` when `b` is not empty: the walk takes the head of `x == e[p..]`. */
  lemma MergeKeepHead(e: seq<int>, p: nat, b: seq<int>, x: seq<int>)
    requires p < |e| && b != [] && !(b[0] < e[p]) && x == e[p..]
    ensures e[..p + 1] + MergeSeq(e[p + 1..], b) == e[..p] + MergeSeq(x, b)
  {
    assert x[0] == e[p] && x[1..] == e[p + 1..];
    MergeFirst(x, b);
    assert e[..p + 1] == e[..p] + [e[p]];
    Regroup(e[..p], e[p], MergeSeq(e[p + 1..], b), e[..p + 1]);
  }

  /** Moving one element across a concatenation. */
  lemma Regroup(pre: seq<int>, x: int, y: seq<int>, l: seq<int>)
    requires l == pre + [x]
    ensures l + y == pre + ([x] + y)
  {
  }

  /** The merge walk takes the head of `a` when the head of `b` is not smaller. */
  lemma MergeFirst(a: seq<int>, b: seq<int>)
    requires a != [] && b != [] && !(b[0] < a[0])
    ensures MergeSeq(a, b) == [a[0]] + MergeSeq(a[1..], b)
  {
  }

  /** `run[..k]` has been spliced into `a` at index `p`, giving `e`. */
  ghost predicate SplicedUpTo(e: seq<int>, a: seq<int>, p: nat, run: seq<int>, k: nat)
  {
    p <= |a| && k <= |run| && e == a[..p] + run[..k] + a[p..]
  }

  /** Inserting `run[k]` at index `p + k` splices one more element of `run` in. */
  lemma GrowRun(a: seq<int>, p: nat, run: seq<int>, k: nat, e: seq<int>, e': seq<int>)
    requires SplicedUpTo(e, a, p, run, k) && k < |run|
    requires e' == e[..p + k] + [run[k]] + e[p + k..]
    ensures SplicedUpTo(e', a, p, run, k + 1)
  {
    assert e[..p + k] == a[..p] + run[..k];
    assert e[p + k..] == a[p..];
    assert run[..k + 1] == run[..k] + [run[k]];
  }

  /** Writing `vals[k]` at index `k` of `vals[..k] + o[k..]` extends the written prefix by one. */
  lemma WriteStep(e: seq<int>, vals: seq<int>, o: seq<int>, k: nat)
    requires |vals| == |o| && k < |o| && e == vals[..k] + o[k..]
    ensures e[k := vals[k]] == vals[..k + 1] + o[k + 1..]
  {
  }

  /** The `merge` walk starts at index 0 with nothing merged yet. */
  lemma MergeWalkStart(e: seq<int>, b: seq<int>)
    ensures MergedUpTo(e, 0, b, MergeSeq(e, b))
  {
    assert e[..0] == [] && e[0..] == e;
  }

  /** When `other` is used up the walk has merged everything. */
  lemma MergeWalkEnd(e: seq<int>, p: nat, g: seq<int>)
    requires MergedUpTo(e, p, [], g)
    ensures e == g
  {
    assert e[..p] + e[p..] == e;
  }
}
