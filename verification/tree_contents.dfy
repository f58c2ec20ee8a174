/**
  What the values stored in a tree amount to once their order is forgotten:
  the set of stored values, and which of a batch of inserted values end up in
  the tree and which are turned away. Map and Set keep distinct keys, so for
  them a stored value is determined by its key.
*/
module TreeContents {
  import opened TreeNode
  import opened BinaryTree

  /** The values occurring in `s`. */
  ghost function Members<T>(s: seq<T>): set<T>
  {
    set x | x in s
  }

  /** The values of `s` whose key is among `keys`. */
  ghost function KeyedIn<T>(key: T -> int, s: seq<T>, keys: set<int>): set<T>
  {
    set x | x in s && key(x) in keys
  }

  lemma MembersAppend<T>(s: seq<T>, y: T)
    ensures Members(s + [y]) == Members(s) + {y}
    ensures forall keys: set<int>, key: T -> int {:trigger KeyedIn(key, s + [y], keys)} ::
              KeyedIn(key, s + [y], keys) == KeyedIn(key, s, keys) + (if key(y) in keys then {y} else {})
  {
  }

  /** Equal multisets of values give equal sets of values. */
  lemma MembersOfSum<T>(a: seq<T>, b: seq<T>, c: seq<T>)
    requires multiset(a) == multiset(b) + multiset(c)
    ensures Members(a) == Members(b) + Members(c)
  {
    forall x | x in Members(a) ensures x in Members(b) + Members(c) {
      assert x in multiset(a);
    }
    forall x | x in Members(b) + Members(c) ensures x in Members(a) {
      if x in Members(b) { assert x in multiset(b); } else { assert x in multiset(c); }
      assert x in multiset(a);
    }
  }

  /** With distinct keys no value occurs twice, so there are as many values as positions. */
  lemma {:induction false} DistinctCount<T>(key: T -> int, s: seq<T>)
    requires StrictlySorted(key, s)
    ensures |Members(s)| == |s|
  {
    if s != [] {
      var n := |s| - 1;
      var pre := s[..n];
      assert s == pre + [s[n]];
      assert StrictlySorted(key, pre);
      DistinctCount(key, pre);
      MembersAppend(pre, s[n]);
      forall j | 0 <= j < n ensures pre[j] != s[n] {
        assert key(s[j]) < key(s[n]);
      }
    }
  }

  /** Removing position `i` of a sequence with distinct keys removes exactly its value. */
  lemma RemoveMember<T>(key: T -> int, s: seq<T>, i: nat)
    requires StrictlySorted(key, s) && i < |s|
    ensures Members(s[..i] + s[i + 1..]) == Members(s) - {s[i]}
  {
    var s' := s[..i] + s[i + 1..];
    forall x | x in Members(s') ensures x in Members(s) - {s[i]} {
      var j :| 0 <= j < |s'| && s'[j] == x;
      if j < i {
        assert s'[j] == s[j] && key(s[j]) < key(s[i]);
      } else {
        assert s'[j] == s[j + 1] && key(s[i]) < key(s[j + 1]);
      }
    }
    forall x | x in Members(s) - {s[i]} ensures x in Members(s') {
      var j :| 0 <= j < |s| && s[j] == x;
      if j < i { assert s'[j] == x; } else { assert s'[j - 1] == x; }
    }
  }

  /** Overwriting position `i` of a sequence with distinct keys swaps one value for another. */
  lemma ReplaceMember<T>(key: T -> int, s: seq<T>, i: nat, v: T)
    requires StrictlySorted(key, s) && i < |s|
    ensures Members(s[i := v]) == Members(s) - {s[i]} + {v}
  {
    var s' := s[i := v];
    forall x | x in Members(s) - {s[i]} ensures x in Members(s') {
      var j :| 0 <= j < |s| && s[j] == x;
      assert j != i && s'[j] == x;
    }
    assert s'[i] == v;
  }

  /** Removing position `i` of a sequence with distinct keys removes exactly its key. */
  lemma RemovedKeys<T>(key: T -> int, s: seq<T>, i: nat)
    requires StrictlySorted(key, s) && i < |s|
    ensures KeySet(key, s[..i] + s[i + 1..]) == KeySet(key, s) - {key(s[i])}
  {
    var s' := s[..i] + s[i + 1..];
    forall k | k in KeySet(key, s') ensures k in KeySet(key, s) - {key(s[i])} {
      var j :| 0 <= j < |s'| && key(s'[j]) == k;
      var o := if j < i then j else j + 1;
      assert s'[j] == s[o];
      assert key(s[o]) != key(s[i]);
    }
    forall k | k in KeySet(key, s) - {key(s[i])} ensures k in KeySet(key, s') {
      var j :| 0 <= j < |s| && key(s[j]) == k;
      var o := if j < i then j else j - 1;
      assert s'[o] == s[j];
    }
  }

  /** Overwriting position `i` with a value of the same key keeps the keys and their order. */
  lemma ReplacedKeys<T>(key: T -> int, s: seq<T>, i: nat, v: T)
    requires StrictlySorted(key, s) && i < |s| && key(v) == key(s[i])
    ensures StrictlySorted(key, s[i := v]) && KeySet(key, s[i := v]) == KeySet(key, s)
  {
    var s' := s[i := v];
    assert forall j :: 0 <= j < |s| ==> key(s'[j]) == key(s[j]);
    forall k | k in KeySet(key, s) ensures k in KeySet(key, s') {
      var j :| 0 <= j < |s| && key(s[j]) == k;
      assert key(s'[j]) == k;
    }
  }

  /** The keys of a sequence holding the values of `s` keyed in `keys` are the keys of `s` in `keys`. */
  lemma KeysOfKeyedIn<T>(key: T -> int, s: seq<T>, keys: set<int>, t: seq<T>)
    requires Members(t) == KeyedIn(key, s, keys)
    ensures KeySet(key, t) == KeySet(key, s) * keys
  {
    forall k | k in KeySet(key, t) ensures k in KeySet(key, s) * keys {
      var l :| 0 <= l < |t| && key(t[l]) == k;
      assert t[l] in Members(t);
      var j :| 0 <= j < |s| && s[j] == t[l];
    }
    forall k | k in KeySet(key, s) * keys ensures k in KeySet(key, t) {
      var j :| 0 <= j < |s| && key(s[j]) == k;
      assert s[j] in KeyedIn(key, s, keys);
      var l :| 0 <= l < |t| && t[l] == s[j];
    }
  }

  /** With distinct keys, two stored values with the same key are the same stored value. */
  lemma KeyDetermines<T>(key: T -> int, s: seq<T>, i: nat, j: nat)
    requires StrictlySorted(key, s) && i < |s| && j < |s| && key(s[i]) == key(s[j])
    ensures i == j
  {
  }

  /**
    Inserting values with distinct keys one by one without repeats turns away
    exactly those whose key is already in `base`; the ones turned away keep
    distinct keys.
  */
  lemma {:induction false} RejectedMembers<T>(key: T -> int, base: seq<T>, items: seq<T>)
    requires StrictlySorted(key, items)
    ensures Members(Rejected(key, base, items, false)) == KeyedIn(key, items, KeySet(key, base))
    ensures Members(Accepted(key, base, items, false)) == Members(items) - KeyedIn(key, items, KeySet(key, base))
    ensures StrictlySorted(key, Rejected(key, base, items, false))
  {
    if items != [] {
      var n := |items| - 1;
      var pre, y := items[..n], items[n];
      assert items == pre + [y];
      assert StrictlySorted(key, pre);
      RejectedMembers(key, base, pre);
      AcceptsOutsideBase(key, base, items, n);
      MembersAppend(pre, y);
      var kept := Rejected(key, base, pre, false);
      assert forall x :: x in kept ==> key(x) < key(y) by {
        forall x | x in kept ensures key(x) < key(y) {
          assert x in Members(kept);
          var j :| 0 <= j < n && pre[j] == x;
          assert items[j] == x;
        }
      }
      forall j | 0 <= j < n ensures pre[j] != y {
        assert items[j] == pre[j];
      }
      var keys := KeySet(key, base);
      assert KeyedIn(key, items, keys) == KeyedIn(key, pre, keys) + (if key(y) in keys then {y} else {});
      if !Accepts(key, base, items, n, false) {
        assert Rejected(key, base, items, false) == kept + [y];
        assert Accepted(key, base, items, false) == Accepted(key, base, pre, false);
        MembersAppend(kept, y);
        StrictlySortedAppend(key, kept, y);
      } else {
        assert Rejected(key, base, items, false) == kept;
        assert Accepted(key, base, items, false) == Accepted(key, base, pre, false) + [y];
        MembersAppend(Accepted(key, base, pre, false), y);
      }
    }
  }

  /** Without repeats, an item whose key is new among `items` is accepted iff its key is not in `base`. */
  lemma AcceptsOutsideBase<T>(key: T -> int, base: seq<T>, items: seq<T>, n: nat)
    requires StrictlySorted(key, items) && n < |items|
    ensures Accepts(key, base, items, n, false) <==> key(items[n]) !in KeySet(key, base)
  {
    KeySetConcat(key, base, items[..n]);
    KeySetMembership(key, base + items[..n], key(items[n]));
    KeySetMembership(key, items[..n], key(items[n]));
    forall j | 0 <= j < n ensures key(items[..n][j]) != key(items[n]) {
      assert items[..n][j] == items[j];
    }
  }

  lemma StrictlySortedAppend<T>(key: T -> int, s: seq<T>, y: T)
    requires StrictlySorted(key, s) && forall x :: x in s ==> key(x) < key(y)
    ensures StrictlySorted(key, s + [y])
  {
    var s' := s + [y];
    forall i, j | 0 <= i < j < |s'| ensures key(s'[i]) < key(s'[j]) {
      assert s'[i] == s[i];
      if j < |s| { assert s'[j] == s[j]; }
    }
  }

  /** With repeats every item is accepted, in order, and none is turned away. */
  lemma {:induction false} AcceptedWithRepeats<T>(key: T -> int, base: seq<T>, items: seq<T>)
    ensures Accepted(key, base, items, true) == items
    ensures Rejected(key, base, items, true) == []
  {
    if items != [] {
      var n := |items| - 1;
      AcceptedWithRepeats(key, base, items[..n]);
      assert items[..n] + [items[n]] == items;
    }
  }

  /** Every accepted item is some item of `items` that was accepted at its own position. */
  lemma {:induction false} AcceptedIndex<T>(key: T -> int, base: seq<T>, items: seq<T>, repeats: bool, x: T)
    returns (n: nat)
    requires x in Accepted(key, base, items, repeats)
    ensures n < |items| && items[n] == x && Accepts(key, base, items, n, repeats)
  {
    var m := |items| - 1;
    var pre := items[..m];
    if x in Accepted(key, base, pre, repeats) {
      n := AcceptedIndex(key, base, pre, repeats, x);
      assert pre[..n] == items[..n] && pre[n] == items[n];
    } else {
      n := m;
    }
  }

  /** With the identity selector the keys of a sequence are its values. */
  lemma IdentityKeys(s: seq<int>)
    ensures KeySet(Identity, s) == Members(s)
    ensures forall k :: HasKey(Identity, s, k) <==> k in s
  {
    forall k | k in Members(s) ensures k in KeySet(Identity, s) {
      var i :| 0 <= i < |s| && s[i] == k;
      assert Identity(s[i]) == k;
    }
  }
}
