/**
  `Map`: a sorted binary tree of key/value pairs whose key selector is the
  first component of the pair, filled without repeats, so every key is stored
  at most once and the container denotes a finite map from keys to values.
*/
module CustomMap {
  import opened Wrappers
  import opened TreeNode
  import opened BinaryTree
  import opened TreeMutation
  import opened TreeContents

  /** The key selector of a map: a pair is ordered by its first component. */
  function First<V>(p: (int, V)): int
  {
    p.0
  }

  /** The map a sequence of pairs denotes: each key bound to its value, a later pair winning. */
  ghost function AsMap<V>(s: seq<(int, V)>): map<int, V>
  {
    if s == [] then map[]
    else
      var n := |s| - 1;
      AsMap(s[..n])[s[n].0 := s[n].1]
  }

  /**
    Insertion of `items` one by one into the map `m`, a key that is already
    bound keeping its value: the reference behaviour of `insert` without repeats.
  */
  ghost function Absorb<V>(m: map<int, V>, items: seq<(int, V)>): map<int, V>
  {
    if items == [] then m
    else
      var n := |items| - 1;
      var m' := Absorb(m, items[..n]);
      if items[n].0 in m' then m' else m'[items[n].0 := items[n].1]
  }

  /** The bindings of `a` whose key `b` binds too. */
  ghost function Common<V>(a: map<int, V>, b: map<int, V>): map<int, V>
  {
    map k | k in a.Keys && k in b.Keys :: a[k]
  }

  /** The map binds exactly the keys of `s`. */
  lemma {:induction false} AsMapKeys<V>(s: seq<(int, V)>)
    ensures AsMap(s).Keys == KeySet(First, s)
  {
    if s != [] {
      var n := |s| - 1;
      AsMapKeys(s[..n]);
      KeySetAppend(First, s[..n], s[n]);
      assert s[..n] + [s[n]] == s;
    }
  }

  /** The last pair of a key-ordered prefix has a key no earlier pair has. */
  lemma LastKeyNew<V>(s: seq<(int, V)>)
    requires StrictlySorted(First, s) && s != []
    ensures StrictlySorted(First, s[..|s| - 1])
    ensures s[|s| - 1].0 !in AsMap(s[..|s| - 1])
  {
    var n := |s| - 1;
    AsMapKeys(s[..n]);
    KeySetMembership(First, s[..n], s[n].0);
    forall i | 0 <= i < n ensures First(s[..n][i]) != s[n].0 {
      assert First(s[i]) < First(s[n]);
    }
  }

  /** With distinct keys, each pair of `s` is a binding of the map. */
  lemma {:induction false} AsMapValues<V>(s: seq<(int, V)>)
    requires StrictlySorted(First, s)
    ensures forall i :: 0 <= i < |s| ==> s[i].0 in AsMap(s) && AsMap(s)[s[i].0] == s[i].1
  {
    if s != [] {
      var n := |s| - 1;
      var pre := s[..n];
      LastKeyNew(s);
      AsMapValues(pre);
      forall i | 0 <= i < n ensures s[i].0 in AsMap(s) && AsMap(s)[s[i].0] == s[i].1 {
        assert pre[i] == s[i];
        assert First(s[i]) < First(s[n]);
      }
    }
  }

  /** With distinct keys, the map has as many bindings as `s` has pairs. */
  lemma {:induction false} AsMapSize<V>(s: seq<(int, V)>)
    requires StrictlySorted(First, s)
    ensures |AsMap(s)| == |s|
  {
    if s != [] {
      var n := |s| - 1;
      LastKeyNew(s);
      AsMapSize(s[..n]);
    }
  }

  /** With distinct keys, the map binds exactly the keys of `s`, each to its value in `s`. */
  lemma AsMapFacts<V>(s: seq<(int, V)>)
    requires StrictlySorted(First, s)
    ensures AsMap(s).Keys == KeySet(First, s)
    ensures forall i :: 0 <= i < |s| ==> s[i].0 in AsMap(s) && AsMap(s)[s[i].0] == s[i].1
  {
    AsMapKeys(s);
    AsMapValues(s);
  }

  /** A map that binds the keys of `s` and agrees with every pair of `s` is the map `s` denotes. */
  lemma MapFromParts<V>(s: seq<(int, V)>, m: map<int, V>)
    requires StrictlySorted(First, s)
    requires m.Keys == KeySet(First, s)
    requires forall i :: 0 <= i < |s| ==> s[i].0 in m && m[s[i].0] == s[i].1
    ensures AsMap(s) == m
  {
    AsMapFacts(s);
    forall k | k in m ensures AsMap(s)[k] == m[k] {
      var i :| 0 <= i < |s| && First(s[i]) == k;
    }
  }

  /** Absorbing keeps every binding of `m` and adds exactly the keys of `items`. */
  lemma {:induction false} AbsorbKeys<V>(m: map<int, V>, items: seq<(int, V)>)
    ensures Absorb(m, items).Keys == m.Keys + KeySet(First, items)
    ensures forall k :: k in m ==> Absorb(m, items)[k] == m[k]
  {
    if items != [] {
      var n := |items| - 1;
      AbsorbKeys(m, items[..n]);
      KeySetAppend(First, items[..n], items[n]);
      assert items[..n] + [items[n]] == items;
    }
  }

  /** An item whose key is bound neither in `m` nor by an earlier item ends up bound to its value. */
  lemma {:induction false} AbsorbFirst<V>(m: map<int, V>, items: seq<(int, V)>, j: nat)
    requires j < |items| && items[j].0 !in m
    requires forall i :: 0 <= i < j ==> items[i].0 != items[j].0
    ensures items[j].0 in Absorb(m, items) && Absorb(m, items)[items[j].0] == items[j].1
  {
    var n := |items| - 1;
    var pre := items[..n];
    if j == n {
      AbsorbKeys(m, pre);
      KeySetMembership(First, pre, items[n].0);
      forall i | 0 <= i < n ensures First(pre[i]) != items[n].0 {
        assert pre[i] == items[i];
      }
    } else {
      forall i | 0 <= i < j ensures pre[i].0 != pre[j].0 {
        assert pre[i] == items[i] && pre[j] == items[j];
      }
      AbsorbFirst(m, pre, j);
      assert pre[j] == items[j];
    }
  }

  /** Absorbing pairs with distinct keys adds the bindings of those keys that `m` does not have. */
  lemma {:induction false} AbsorbDistinct<V>(m: map<int, V>, items: seq<(int, V)>)
    requires StrictlySorted(First, items)
    ensures Absorb(m, items) == AsMap(items) + m
  {
    if items != [] {
      var n := |items| - 1;
      var pre := items[..n];
      assert StrictlySorted(First, pre);
      AbsorbDistinct(m, pre);
      LastKeyNew(items);
    }
  }

  /**
    A tree `s` filled from `base` by inserting `items` one by one without
    repeats denotes the map `Absorb` gives.
  */
  lemma InsertedMap<V>(base: seq<(int, V)>, items: seq<(int, V)>, s: seq<(int, V)>)
    requires StrictlySorted(First, base) && StrictlySorted(First, s)
    requires multiset(s) == multiset(base) + multiset(Accepted(First, base, items, false))
    requires KeySet(First, s) == KeySet(First, base + items)
    ensures AsMap(s) == Absorb(AsMap(base), items)
  {
    var m := Absorb(AsMap(base), items);
    AsMapFacts(base);
    AbsorbKeys(AsMap(base), items);
    KeySetConcat(First, base, items);
    forall i | 0 <= i < |s| ensures s[i].0 in m && m[s[i].0] == s[i].1 {
      assert s[i] in multiset(s);
      if s[i] in multiset(base) {
        var j :| 0 <= j < |base| && base[j] == s[i];
      } else {
        var n := AcceptedIndex(First, base, items, false, s[i]);
        Unclaimed(base, items, n);
        AbsorbFirst(AsMap(base), items, n);
      }
    }
    MapFromParts(s, m);
  }

  /** An item accepted without repeats has a key that neither `base` nor an earlier item has. */
  lemma Unclaimed<V>(base: seq<(int, V)>, items: seq<(int, V)>, n: nat)
    requires StrictlySorted(First, base)
    requires n < |items| && Accepts(First, base, items, n, false)
    ensures items[n].0 !in AsMap(base)
    ensures forall i :: 0 <= i < n ==> items[i].0 != items[n].0
  {
    AsMapFacts(base);
    KeySetConcat(First, base, items[..n]);
    KeySetMembership(First, base + items[..n], items[n].0);
    KeySetMembership(First, base, items[n].0);
    forall i | 0 <= i < n ensures items[i].0 != items[n].0 {
      assert First(items[..n][i]) in KeySet(First, items[..n]);
    }
  }

  /** Without repeats, item `i` is accepted iff its key is bound neither in `base` nor by an earlier item. */
  lemma AcceptsPair<V>(base: seq<(int, V)>, items: seq<(int, V)>, i: nat)
    requires StrictlySorted(First, base) && i < |items|
    ensures Accepts(First, base, items, i, false) <==>
              items[i].0 !in AsMap(base) && !HasKey(First, items[..i], items[i].0)
  {
    AsMapFacts(base);
    KeySetConcat(First, base, items[..i]);
    KeySetMembership(First, base + items[..i], items[i].0);
    KeySetMembership(First, base, items[i].0);
    KeySetMembership(First, items[..i], items[i].0);
  }

  /** One insertion without repeats: the map gains the binding only when the key was new. */
  lemma InsertedPair<V>(before: seq<(int, V)>, after: seq<(int, V)>, v: (int, V), inserted: bool)
    requires StrictlySorted(First, before) && StrictlySorted(First, after)
    requires inserted <==> !HasKey(First, before, v.0)
    requires multiset(after) == multiset(before) + (if inserted then multiset{v} else multiset{})
    requires KeySet(First, after) == KeySet(First, before) + {v.0}
    ensures inserted <==> v.0 !in AsMap(before)
    ensures AsMap(after) == if inserted then AsMap(before)[v.0 := v.1] else AsMap(before)
  {
    AsMapKeys(before);
    KeySetMembership(First, before, v.0);
    if inserted {
      InsertedFresh(before, after, v);
    } else {
      InsertedKept(before, after, v);
    }
  }

  /** An insertion that stored `v` binds its key to its value. */
  lemma InsertedFresh<V>(before: seq<(int, V)>, after: seq<(int, V)>, v: (int, V))
    requires StrictlySorted(First, before) && StrictlySorted(First, after)
    requires multiset(after) == multiset(before) + multiset{v}
    requires KeySet(First, after) == KeySet(First, before) + {v.0} && v.0 !in KeySet(First, before)
    ensures AsMap(after) == AsMap(before)[v.0 := v.1]
  {
    AsMapKeys(before);
    AsMapValues(before);
    var m := AsMap(before)[v.0 := v.1];
    forall i | 0 <= i < |after| ensures after[i].0 in m && m[after[i].0] == after[i].1 {
      var x := after[i];
      OldOrNew(before, after, v, true, x);
      if x != v {
        var j :| 0 <= j < |before| && before[j] == x;
        assert First(before[j]) in KeySet(First, before);
      }
    }
    MapFromParts(after, m);
  }

  /** An insertion that stored nothing leaves the bindings as they were. */
  lemma InsertedKept<V>(before: seq<(int, V)>, after: seq<(int, V)>, v: (int, V))
    requires StrictlySorted(First, before) && StrictlySorted(First, after)
    requires multiset(after) == multiset(before)
    requires KeySet(First, after) == KeySet(First, before) + {v.0} && v.0 in KeySet(First, before)
    ensures AsMap(after) == AsMap(before)
  {
    AsMapKeys(before);
    AsMapValues(before);
    var m := AsMap(before);
    forall i | 0 <= i < |after| ensures after[i].0 in m && m[after[i].0] == after[i].1 {
      assert after[i] in multiset(before);
      var j :| 0 <= j < |before| && before[j] == after[i];
    }
    MapFromParts(after, m);
  }

  /** A pair stored after one insertion was stored before, or is the inserted one. */
  lemma OldOrNew<V>(before: seq<(int, V)>, after: seq<(int, V)>, v: (int, V), inserted: bool, x: (int, V))
    requires multiset(after) == multiset(before) + (if inserted then multiset{v} else multiset{})
    requires x in after
    ensures (inserted && x == v) || x in before
  {
    assert x in multiset(after);
  }


  /** Overwriting the value of a stored pair rebinds its key and nothing else. */
  lemma ReplacedPair<V>(s: seq<(int, V)>, i: nat, v: (int, V))
    requires StrictlySorted(First, s) && i < |s| && s[i].0 == v.0
    ensures StrictlySorted(First, s[i := v])
    ensures AsMap(s[i := v]) == AsMap(s)[v.0 := v.1]
  {
    var s' := s[i := v];
    ReplacedKeys(First, s, i, v);
    AsMapKeys(s);
    AsMapValues(s);
    var m := AsMap(s)[v.0 := v.1];
    forall j | 0 <= j < |s'| ensures s'[j].0 in m && m[s'[j].0] == s'[j].1 {
      if j != i {
        assert s'[j] == s[j] && First(s[j]) != First(s[i]);
      }
    }
    MapFromParts(s', m);
  }


  /** Removing a stored pair unbinds its key and nothing else. */
  lemma RemovedPair<V>(s: seq<(int, V)>, i: nat)
    requires StrictlySorted(First, s) && i < |s|
    ensures StrictlySorted(First, s[..i] + s[i + 1..])
    ensures AsMap(s[..i] + s[i + 1..]) == AsMap(s) - {s[i].0}
  {
    var s' := s[..i] + s[i + 1..];
    RemoveKeepsStrictlySorted(First, s, i);
    RemovedKeys(First, s, i);
    AsMapKeys(s);
    AsMapValues(s);
    var m := AsMap(s) - {s[i].0};
    forall j | 0 <= j < |s'| ensures s'[j].0 in m && m[s'[j].0] == s'[j].1 {
      var o := if j < i then j else j + 1;
      assert s'[j] == s[o];
      assert First(s[o]) != First(s[i]);
    }
    MapFromParts(s', m);
  }


  /**
    What `merge` leaves behind when both sides have distinct keys: the pairs
    of `src` whose key `base` already binds.
  */
  lemma LeftBehind<V>(base: seq<(int, V)>, src: seq<(int, V)>)
    requires StrictlySorted(First, base) && StrictlySorted(First, src)
    ensures AsMap(Rejected(First, base, src, false)) == Common(AsMap(src), AsMap(base))
  {
    var kept := Rejected(First, base, src, false);
    RejectedMembers(First, base, src);
    KeysOfKeyedIn(First, src, KeySet(First, base), kept);
    AsMapKeys(base);
    AsMapKeys(src);
    AsMapValues(src);
    var m := Common(AsMap(src), AsMap(base));
    forall i | 0 <= i < |kept| ensures kept[i].0 in m && m[kept[i].0] == kept[i].1 {
      assert kept[i] in Members(kept);
      var j :| 0 <= j < |src| && src[j] == kept[i];
      assert First(kept[i]) in KeySet(First, kept);
    }
    MapFromParts(kept, m);
  }


  class Map<V> {
    const tree: SortedBinaryTree<(int, V)>

    /** The tree is sound, keys pairs by their first component, and holds each key once. */
    ghost predicate Valid()
      reads this, tree
    {
      tree.Valid() && tree.key == First && StrictlySorted(First, tree.Elements())
    }

    /** The bindings stored. */
    ghost function Contents(): map<int, V>
      reads this, tree
    {
      AsMap(tree.Elements())
    }

    /** The pair an iterator points at binds its key to its value. */
    lemma Bound(it: TreeIterator<(int, V)>)
      requires Valid() && tree.IsLive(it)
      ensures tree.Deref(it).0 in Contents() && Contents()[tree.Deref(it).0] == tree.Deref(it).1
    {
      AsMapFacts(tree.Elements());
    }

    constructor ()
      ensures Valid() && fresh(tree) && Contents() == map[]
    {
      tree := new SortedBinaryTree(First);
    }

    /** Construction from a list: the pairs inserted in order, the first pair of a key winning. */
    constructor FromList(items: seq<(int, V)>)
      ensures Valid() && fresh(tree) && Contents() == Absorb(map[], items)
    {
      tree := new SortedBinaryTree.FromList(First, items);
      new;
      assert [] + items == items;
      InsertedMap([], items, tree.Elements());
    }

    /** Copy construction: a new tree with the same pairs. */
    constructor Copy(other: Map<V>)
      requires other.Valid()
      ensures Valid() && fresh(tree) && Contents() == other.Contents()
    {
      tree := new SortedBinaryTree.Copy(other.tree);
    }

    /** Move construction: take `other`'s pairs and leave it empty. */
    constructor Move(other: Map<V>)
      requires other.Valid()
      modifies other.tree
      ensures Valid() && fresh(tree) && Contents() == old(other.Contents())
      ensures other.Valid() && other.Contents() == map[]
    {
      tree := new SortedBinaryTree.Move(other.tree);
    }

    /** List assignment: the old pairs are dropped and `items` inserted in order. */
    method AssignList(items: seq<(int, V)>)
      requires tree.Valid() && tree.key == First
      modifies tree
      ensures Valid() && Contents() == Absorb(map[], items)
    {
      tree.AssignList(items);
      assert [] + items == items;
      InsertedMap([], items, tree.Elements());
    }

    /** Copy assignment. */
    method CopyAssign(other: Map<V>)
      requires Valid() && other.Valid()
      modifies tree
      ensures Valid() && Contents() == old(other.Contents())
    {
      tree.CopyAssign(other.tree);
    }

    /** Move assignment (defaulted): the tree's move assignment takes `other`'s pairs. */
    method MoveAssign(other: Map<V>)
      requires Valid() && other.Valid()
      modifies tree, other.tree
      ensures Valid() && other.Valid()
      ensures Contents() == old(other.Contents())
      ensures other.tree != tree ==> other.Contents() == map[]
    {
      tree.MoveFrom(other.tree);
    }

    /** `empty()`: no key is bound. */
    function Empty(): (e: bool)
      reads this, tree
      requires Valid()
      ensures e <==> Contents() == map[]
    {
      AsMapKeys(tree.Elements());
      assert tree.Elements() != [] ==> tree.Elements()[0].0 in KeySet(First, tree.Elements());
      tree.Empty()
    }

    /** `size()`: the number of bound keys. */
    function Size(): (n: nat)
      reads this, tree
      requires Valid()
      ensures n == |Contents()|
    {
      AsMapSize(tree.Elements());
      tree.Size()
    }

    /** `clear()`. */
    method Clear()
      requires Valid()
      modifies tree
      ensures Valid() && Contents() == map[]
    {
      tree.Clear();
    }

    /**
      `insert(value)`: the pair is stored when its key is unbound; the iterator
      points at the pair bound to the key either way.
    */
    method Insert(p: (int, V)) returns (it: TreeIterator<(int, V)>, inserted: bool)
      requires Valid()
      modifies tree
      ensures Valid()
      ensures inserted <==> p.0 !in old(Contents())
      ensures Contents() == if inserted then old(Contents())[p.0 := p.1] else old(Contents())
      ensures tree.IsLive(it) && tree.Deref(it).0 == p.0 && p.0 in Contents()
      ensures tree.Deref(it).1 == Contents()[p.0]
    {
      ghost var before := tree.Elements();
      it, inserted := tree.InsertStep(p, false);
      InsertedPair(before, tree.Elements(), p, inserted);
      Bound(it);
    }

    /** `insert(key, obj)`: `insert` of the pair `(k, v)`. */
    method InsertKeyValue(k: int, v: V) returns (it: TreeIterator<(int, V)>, inserted: bool)
      requires Valid()
      modifies tree
      ensures Valid()
      ensures inserted <==> k !in old(Contents())
      ensures Contents() == if inserted then old(Contents())[k := v] else old(Contents())
      ensures tree.IsLive(it) && tree.Deref(it).0 == k && k in Contents()
      ensures tree.Deref(it).1 == Contents()[k]
    {
      it, inserted := Insert((k, v));
    }

    /** `insert_or_assign(key, obj)`: afterwards `k` is bound to `v`, whether it was bound before or not. */
    method InsertOrAssign(k: int, v: V) returns (it: TreeIterator<(int, V)>, inserted: bool)
      requires Valid()
      modifies tree
      ensures Valid()
      ensures inserted <==> k !in old(Contents())
      ensures Contents() == old(Contents())[k := v]
      ensures tree.IsLive(it) && tree.Deref(it) == (k, v)
    {
      ghost var m := Contents();
      it, inserted := Insert((k, v));
      if !inserted {
        ghost var s, i := tree.Elements(), tree.Position(it);
        tree.Update(it, (k, v));
        ReplacedPair(s, i, (k, v));
        assert m[k := v][k := v] == m[k := v];
      }
    }

    /**
      `operator[](key)`: the value bound to `k`, binding `k` to `def` (the
      default value of the mapped type) first when it is unbound.
    */
    method Index(k: int, def: V) returns (r: V)
      requires Valid()
      modifies tree
      ensures Valid()
      ensures Contents() == if k in old(Contents()) then old(Contents()) else old(Contents())[k := def]
      ensures k in Contents() && r == Contents()[k]
    {
      var it, _ := Insert((k, def));
      r := tree.Deref(it).1;
    }

    /** `at(key)`: the value bound to `k`; an unbound key throws. */
    method At(k: int) returns (r: Result<V>)
      requires Valid()
      ensures r == if k in Contents() then Success(Contents()[k]) else Failure(KeyNotFound)
    {
      var it := Find(k);
      if it.node.None? {
        return Failure(KeyNotFound);
      }
      r := Success(tree.Deref(it).1);
    }

    /**
      `at(key) = v`: a write through the reference `at` returns rebinds `k`
      and nothing else; an unbound key throws before anything is written.
    */
    method AtAssign(k: int, v: V) returns (r: Outcome)
      requires Valid()
      modifies tree
      ensures Valid()
      ensures r.Pass? <==> k in old(Contents())
      ensures Contents() == if k in old(Contents()) then old(Contents())[k := v] else old(Contents())
      ensures r.Fail? ==> r.error == KeyNotFound
    {
      var it := Find(k);
      if it.node.None? {
        return Fail(KeyNotFound);
      }
      ghost var s, i := tree.Elements(), tree.Position(it);
      tree.Update(it, (k, v));
      ReplacedPair(s, i, (k, v));
      r := Pass;
    }

    /**
      `map[key] = v`: `operator[]` binds an unbound `k` to `def` (the default
      value of the mapped type), then the write through its reference rebinds
      `k` to `v`.
    */
    method IndexAssign(k: int, def: V, v: V)
      requires Valid()
      modifies tree
      ensures Valid()
      ensures Contents() == old(Contents())[k := v]
    {
      ghost var m := Contents();
      var it, _ := Insert((k, def));
      ghost var s, i := tree.Elements(), tree.Position(it);
      tree.Update(it, (k, v));
      ReplacedPair(s, i, (k, v));
      assert m[k := def][k := v] == m[k := v];
    }

    /** `erase(pos)`: the pair at `pos` is removed; `end()` or a foreign iterator throws. */
    method Erase(pos: TreeIterator<(int, V)>) returns (r: Outcome)
      requires Valid()
      modifies tree
      ensures Valid()
      ensures r.Pass? <==> old(tree.IsLive(pos))
      ensures r.Pass? ==> Contents() == old(Contents() - {tree.Deref(pos).0})
      ensures r.Fail? ==> r.error == InvalidIterator && Contents() == old(Contents())
    {
      ghost var s := tree.Elements();
      ghost var i := if tree.IsLive(pos) then tree.Position(pos) else 0;
      r := tree.Erase(pos);
      if r.Pass? {
        RemovedPair(s, i);
      }
    }

    /** `erase(key)`: erase through `find(key)`, so an unbound key throws. */
    method EraseKey(k: int) returns (r: Outcome)
      requires Valid()
      modifies tree
      ensures Valid()
      ensures r.Pass? <==> k in old(Contents())
      ensures Contents() == old(Contents()) - {k}
      ensures r.Fail? ==> r.error == InvalidIterator
    {
      var it := Find(k);
      ghost var m := Contents();
      r := Erase(it);
      if r.Fail? {
        assert m - {k} == m;
      }
    }

    /** `swap(other)`. */
    method Swap(other: Map<V>)
      requires Valid() && other.Valid()
      modifies tree, other.tree
      ensures Valid() && other.Valid()
      ensures Contents() == old(other.Contents()) && other.Contents() == old(Contents())
    {
      tree.Swap(other.tree);
    }

    /**
      `merge(other)`: every pair of `other` whose key is unbound here moves here;
      the pairs whose key both had stay behind in `other`.
    */
    method Merge(other: Map<V>)
      requires Valid() && other.Valid() && other.tree != tree
      modifies tree, other.tree
      ensures Valid() && other.Valid()
      ensures Contents() == old(other.Contents() + Contents())
      ensures other.Contents() == old(Common(other.Contents(), Contents()))
    {
      ghost var base, src := tree.Elements(), other.tree.Elements();
      tree.Merge(other.tree, false);
      InsertedMap(base, src, tree.Elements());
      AbsorbDistinct(AsMap(base), src);
      LeftBehind(base, src);
      RejectedMembers(First, base, src);
    }

    /** `find(key)`: the iterator at the pair of key `k`, or `end()` when `k` is unbound. */
    method Find(k: int) returns (it: TreeIterator<(int, V)>)
      requires Valid()
      ensures tree.Denotes(it)
      ensures it.node.None? <==> k !in Contents()
      ensures it == tree.End() <==> k !in Contents()
      ensures tree.IsLive(it) ==> tree.Deref(it).0 == k && k in Contents() && tree.Deref(it).1 == Contents()[k]
    {
      it := tree.Find(k);
      AsMapFacts(tree.Elements());
      KeySetMembership(First, tree.Elements(), k);
      if tree.IsLive(it) {
        Bound(it);
      }
    }

    /** `contains(key)`. */
    method Contains(k: int) returns (b: bool)
      requires Valid()
      ensures b <==> k in Contents()
    {
      b := tree.Contains(k);
      AsMapFacts(tree.Elements());
      KeySetMembership(First, tree.Elements(), k);
    }

    /**
      `emplace(args...)`: insert the pairs in order; each is reported with an
      iterator to the pair bound to its key and whether it was new, i.e. its
      key was bound neither before nor by an earlier argument.
    */
    method Emplace(args: seq<(int, V)>) returns (results: seq<(TreeIterator<(int, V)>, bool)>)
      requires Valid()
      modifies tree
      ensures Valid() && |results| == |args|
      ensures forall i :: 0 <= i < |args| ==>
                (results[i].1 <==> args[i].0 !in old(Contents()) && !HasKey(First, args[..i], args[i].0))
      ensures forall i :: 0 <= i < |args| ==>
                tree.IsLive(results[i].0) && tree.Deref(results[i].0).0 == args[i].0
      ensures Contents() == Absorb(old(Contents()), args)
    {
      ghost var base := tree.Elements();
      results := tree.Emplace(false, args);
      InsertedMap(base, args, tree.Elements());
      forall i | 0 <= i < |args|
        ensures results[i].1 <==> args[i].0 !in AsMap(base) && !HasKey(First, args[..i], args[i].0)
      {
        AcceptsPair(base, args, i);
      }
    }
  }
}
