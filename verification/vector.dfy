/**
  `Vector`: a growable array. The elements are the first `size_` slots of a
  heap buffer whose length is the capacity; iterators are indices into it.
*/
module CustomVector {
  import opened Wrappers
  import ListAlgebra

  class Vector {
    /** `data_`: the buffer; its length is `capacity()`. */
    var buf: array<int>
    /** `size_`. */
    var size: nat

    /** The elements fit in the buffer. */
    ghost predicate Valid()
      reads this
    {
      size <= buf.Length
    }

    /** The elements, front to back. */
    ghost function Elements(): seq<int>
      reads this, buf
      requires Valid()
    {
      buf[..size]
    }

    /** `Vector()`: no elements and no buffer. */
    constructor ()
      ensures Valid() && Elements() == [] && Capacity() == 0 && fresh(buf)
    {
      buf := new int[0];
      size := 0;
    }

    /** `Vector(size)`: `n` value-initialised elements in a buffer of exactly that size. */
    constructor Sized(n: nat)
      ensures Valid() && Elements() == seq(n, _ => 0) && Capacity() == n && fresh(buf)
    {
      buf := new int[n](_ => 0);
      size := n;
    }

    /** `Vector(items)`: the items in order, in a buffer of exactly their number. */
    constructor FromList(items: seq<int>)
      ensures Valid() && Elements() == items && Capacity() == |items| && fresh(buf)
    {
      buf := new int[|items|](i requires 0 <= i < |items| => items[i]);
      size := |items|;
    }

    /** `Vector(const Vector &)`: a copy of `other`'s elements in a buffer of exactly their number. */
    constructor Copy(other: Vector)
      requires other.Valid()
      ensures Valid() && Elements() == other.Elements() && Capacity() == |other.Elements()| && fresh(buf)
    {
      var b := CopyOf(other.buf, other.size, other.size);
      buf := b;
      size := other.size;
    }

    /** `Vector(Vector &&)`: this vector takes over `other`'s buffer and `other` is left empty. */
    constructor Move(other: Vector)
      requires other.Valid()
      modifies other
      ensures Valid() && Elements() == old(other.Elements()) && Capacity() == old(other.Capacity())
      ensures other.Valid() && other.Elements() == [] && other.Capacity() == 0
    {
      buf := other.buf;
      size := other.size;
      new;
      other.buf := new int[0];
      other.size := 0;
    }

    /** `operator=(const Vector &)`: a copy of `other`'s elements, in a fresh buffer. */
    method CopyAssign(other: Vector)
      requires Valid() && other.Valid()
      modifies this
      ensures Valid() && Elements() == old(other.Elements()) && Capacity() == |Elements()| && fresh(buf)
    {
      var b := CopyOf(other.buf, other.size, other.size);
      buf, size := b, other.size;
    }

    /** `operator=(Vector &&)`: unless `other` is this vector, take over its buffer and leave it empty. */
    method MoveAssign(other: Vector)
      requires Valid() && other.Valid()
      modifies this, other
      ensures Valid() && Elements() == old(other.Elements()) && Capacity() == old(other.Capacity())
      ensures other != this ==> other.Valid() && other.Elements() == [] && other.Capacity() == 0
    {
      if other != this {
        buf, size := other.buf, other.size;
        other.buf := new int[0];
        other.size := 0;
      }
    }

    /** `operator=(items)`: the items in order, in a buffer of exactly their number. */
    method AssignList(items: seq<int>)
      requires Valid()
      modifies this
      ensures Valid() && Elements() == items && Capacity() == |items| && fresh(buf)
    {
      buf := new int[|items|](i requires 0 <= i < |items| => items[i]);
      size := |items|;
    }

    /** `at(pos)`: element `pos`, or an out-of-range error when `pos >= size()`. */
    function At(pos: nat): (r: Result<int>)
      reads this, buf
      requires Valid()
      ensures r.Success? <==> pos < |Elements()|
      ensures r.Success? ==> r.value == Elements()[pos]
      ensures r.Failure? ==> r.error == OutOfRange
    {
      if pos < size then Success(buf[pos]) else Failure(OutOfRange)
    }

    /** `operator[](pos)`: element `pos`, unchecked. */
    function Get(pos: nat): (v: int)
      reads this, buf
      requires Valid() && pos < |Elements()|
      ensures v == Elements()[pos]
    {
      buf[pos]
    }

    /** Writing through the reference `operator[](pos)` returns: only element `pos` changes. */
    method Put(pos: nat, v: int)
      requires Valid() && pos < |Elements()|
      modifies buf
      ensures Valid() && Elements() == old(Elements())[pos := v]
    {
      buf[pos] := v;
    }

    /** `front()`: the first element. */
    function Front(): (v: int)
      reads this, buf
      requires Valid() && Elements() != []
      ensures v == Elements()[0]
    {
      buf[0]
    }

    /** `back()`: the last element. */
    function Back(): (v: int)
      reads this, buf
      requires Valid() && Elements() != []
      ensures v == Elements()[|Elements()| - 1]
    {
      buf[size - 1]
    }

    /** `empty()`. */
    function Empty(): (e: bool)
      reads this, buf
      requires Valid()
      ensures e <==> Elements() == []
    {
      size == 0
    }

    /** `size()`. */
    function Size(): (n: nat)
      reads this, buf
      requires Valid()
      ensures n == |Elements()| && n <= Capacity()
    {
      size
    }

    /** `capacity()`: the length of the buffer. */
    function Capacity(): nat
      reads this
    {
      buf.Length
    }

    /**
      Moves the elements into a fresh buffer of length `cap`; `reserve`,
      `shrink_to_fit` and a full `push_back`/`insert` go through here.
    */
    method Reallocate(cap: nat)
      requires Valid() && size <= cap
      modifies this
      ensures Valid() && Elements() == old(Elements()) && Capacity() == cap && fresh(buf)
    {
      buf := CopyOf(buf, size, cap);
    }

    /** `reserve(n)`: the capacity becomes `n` when that is more; the elements stay as they are. */
    method Reserve(n: nat)
      requires Valid()
      modifies this
      ensures Valid() && Elements() == old(Elements())
      ensures Capacity() == if n > old(Capacity()) then n else old(Capacity())
    {
      if n > buf.Length {
        Reallocate(n);
      }
    }

    /** `shrink_to_fit()`: the capacity becomes the size; the elements stay as they are. */
    method ShrinkToFit()
      requires Valid()
      modifies this
      ensures Valid() && Elements() == old(Elements()) && Capacity() == |Elements()|
    {
      if buf.Length > size {
        Reallocate(size);
      }
    }

    /** `clear()`: no elements left; the capacity stays. */
    method Clear()
      requires Valid()
      modifies this
      ensures Valid() && Elements() == [] && Capacity() == old(Capacity())
    {
      size := 0;
    }

    /** `reorganize_for_push_back()`: a full buffer is replaced by a larger one. */
    method MakeRoom()
      requires Valid()
      modifies this
      ensures Valid() && Elements() == old(Elements()) && size < Capacity()
      ensures old(size < Capacity()) ==> buf == old(buf)
      ensures old(size == Capacity()) ==> fresh(buf) && Capacity() == Grown(old(Capacity()))
    {
      if size == buf.Length {
        Reallocate(Grown(buf.Length));
      }
    }

    /** `push_back(value)`: `value` is appended; the capacity changes only when the buffer was full. */
    method PushBack(v: int)
      requires Valid()
      modifies this, buf
      ensures Valid() && Elements() == old(Elements()) + [v] && (buf == old(buf) || fresh(buf))
      ensures Capacity() == if old(size < Capacity()) then old(Capacity()) else Grown(old(Capacity()))
    {
      MakeRoom();
      buf[size] := v;
      size := size + 1;
    }

    /** `pop_back()`: the last element goes; on an empty vector nothing happens. */
    method PopBack()
      requires Valid()
      modifies this
      ensures Valid() && Capacity() == old(Capacity())
      ensures Elements() == if old(Elements()) == [] then [] else old(Elements()[..|Elements()| - 1])
    {
      if size > 0 {
        size := size - 1;
      }
    }

    /** `swap(other)`: the two vectors exchange buffers, sizes and capacities. */
    method Swap(other: Vector)
      requires Valid() && other.Valid()
      modifies this, other
      ensures Valid() && other.Valid()
      ensures Elements() == old(other.Elements()) && other.Elements() == old(Elements())
      ensures Capacity() == old(other.Capacity()) && other.Capacity() == old(Capacity())
    {
      buf, other.buf := other.buf, buf;
      size, other.size := other.size, size;
    }

    /**
      `insert(pos, value)`: the elements from `pos` on move one slot right
      and `value` goes into slot `pos`; the result is `pos`.
    */
    method Insert(pos: nat, v: int) returns (r: nat)
      requires Valid() && pos <= |Elements()|
      modifies this, buf
      ensures Valid() && r == pos && (buf == old(buf) || fresh(buf))
      ensures Elements() == old(Elements()[..pos]) + [v] + old(Elements()[pos..])
      ensures Capacity() == if old(size < Capacity()) then old(Capacity()) else Grown(old(Capacity()))
    {
      MakeRoom();
      InsertSlot(buf, pos, size, v);
      size := size + 1;
      r := pos;
    }

    /** `erase(pos)`: element `pos` goes and the elements after it move one slot left. */
    method Erase(pos: nat)
      requires Valid() && pos < |Elements()|
      modifies this, buf
      ensures Valid() && buf == old(buf)
      ensures Elements() == old(Elements()[..pos]) + old(Elements()[pos + 1..])
    {
      RemoveSlot(buf, pos, size);
      size := size - 1;
    }

    /**
      `emplace(pos, args...)`: the arguments go in order into slots `pos`
      on; the result is the slot of the last of them.
    */
    method Emplace(pos: nat, args: seq<int>) returns (r: nat)
      requires Valid() && pos <= |Elements()| && args != []
      modifies this, buf
      ensures Valid() && r == pos + |args| - 1
      ensures Elements() == old(Elements()[..pos]) + args + old(Elements()[pos..])
    {
      ghost var a := Elements();
      r := pos;
      var k := 0;
      while k < |args|
        invariant Valid() && ListAlgebra.SplicedUpTo(Elements(), a, pos, args, k)
        invariant buf == old(buf) || fresh(buf)
        invariant k > 0 ==> r == pos + k - 1
      {
        ghost var e := Elements();
        r := Insert(pos + k, args[k]);
        ListAlgebra.GrowRun(a, pos, args, k, e, Elements());
        k := k + 1;
      }
      assert args[..k] == args;
    }

    /** `emplace_back(args...)`: the arguments are appended in order. */
    method EmplaceBack(args: seq<int>)
      requires Valid()
      modifies this, buf
      ensures Valid() && Elements() == old(Elements()) + args
    {
      var k := 0;
      while k < |args|
        invariant k <= |args| && Valid() && Elements() == old(Elements()) + args[..k]
        invariant buf == old(buf) || fresh(buf)
      {
        PushBack(args[k]);
        assert args[..k + 1] == args[..k] + [args[k]];
        k := k + 1;
      }
      assert args[..k] == args;
    }
  }

  /** The capacity a full buffer of capacity `cap` grows to: one slot at first, then twice as many. */
  function Grown(cap: nat): (r: nat)
    ensures r > cap
  {
    if cap == 0 then 1 else 2 * cap
  }

  /** A fresh buffer of length `cap` holding the first `n` slots of `src`. */
  method CopyOf(src: array<int>, n: nat, cap: nat) returns (dst: array<int>)
    requires n <= src.Length && n <= cap
    ensures fresh(dst) && dst.Length == cap && dst[..n] == src[..n]
  {
    dst := new int[cap];
    var i := 0;
    while i < n
      invariant i <= n && dst[..i] == src[..i]
    {
      dst[i] := src[i];
      i := i + 1;
    }
  }

  /**
    Slots `pos..n-1` of `a` move one slot right and `v` goes into slot `pos`:
    the first `n + 1` slots hold the first `n` with `v` inserted at `pos`.
  */
  method InsertSlot(a: array<int>, pos: nat, n: nat, v: int)
    requires pos <= n < a.Length
    modifies a
    ensures a[..n + 1] == old(a[..pos]) + [v] + old(a[pos..n])
  {
    ghost var e := a[..n];
    var i := n;
    while i > pos
      invariant pos <= i <= n
      invariant forall j :: 0 <= j < i ==> a[j] == e[j]
      invariant forall j :: i < j <= n ==> a[j] == e[j - 1]
    {
      a[i] := a[i - 1];
      i := i - 1;
    }
    a[pos] := v;
    Inserted(e, a[..n + 1], pos, v);
  }

  /** A sequence that agrees with `e` below `pos`, holds `v` at `pos` and `e` shifted by one above it. */
  lemma Inserted(e: seq<int>, b: seq<int>, pos: nat, v: int)
    requires pos <= |e| && |b| == |e| + 1 && b[pos] == v
    requires forall j :: 0 <= j < pos ==> b[j] == e[j]
    requires forall j :: pos < j < |b| ==> b[j] == e[j - 1]
    ensures b == e[..pos] + [v] + e[pos..]
  {
  }

  /**
    Slots `pos+1..n-1` of `a` move one slot left: the first `n - 1` slots hold
    the first `n` without slot `pos`.
  */
  method RemoveSlot(a: array<int>, pos: nat, n: nat)
    requires pos < n <= a.Length
    modifies a
    ensures a[..n - 1] == old(a[..pos]) + old(a[pos + 1..n])
  {
    ghost var e := a[..n];
    var i := pos;
    while i + 1 < n
      invariant pos <= i < n
      invariant forall j :: 0 <= j < pos ==> a[j] == e[j]
      invariant forall j :: pos <= j < i ==> a[j] == e[j + 1]
      invariant forall j :: i < j < n ==> a[j] == e[j]
    {
      a[i] := a[i + 1];
      i := i + 1;
    }
    Removed(e, a[..n - 1], pos);
  }

  /** A sequence that agrees with `e` below `pos` and with `e` shifted by one from `pos` on. */
  lemma Removed(e: seq<int>, b: seq<int>, pos: nat)
    requires pos < |e| && |b| == |e| - 1
    requires forall j :: 0 <= j < pos ==> b[j] == e[j]
    requires forall j :: pos <= j < |b| ==> b[j] == e[j + 1]
    ensures b == e[..pos] + e[pos + 1..]
  {
  }
}
