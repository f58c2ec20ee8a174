/**
  `Array<T, N>`: exactly `N` slots, fixed when the array is made. The slots
  are a Dafny array whose length plays the part of the template argument `N`.
*/
module CustomArray {
  import opened Wrappers

  class Array {
    /** `data_[N]`. */
    const slots: array<int>

    /** The slots, in order. */
    ghost function Elements(): seq<int>
      reads slots
    {
      slots[..]
    }

    /** `Array()` written `Array<int, N>{}`: `n` value-initialised slots. */
    constructor (n: nat)
      ensures Elements() == seq(n, _ => 0) && fresh(slots)
    {
      slots := new int[n](_ => 0);
    }

    /**
      `Array(items)`: the items fill the first slots in order and the
      remaining slots are value-initialised.
    */
    constructor FromList(n: nat, items: seq<int>)
      requires |items| <= n
      ensures Elements() == items + seq(n - |items|, _ => 0) && fresh(slots)
    {
      slots := new int[n](i requires 0 <= i < n => if i < |items| then items[i] else 0);
    }

    /** `Array(const Array &)` and `Array(Array &&)`: a slot-by-slot copy of `other`. */
    constructor Copy(other: Array)
      ensures Elements() == other.Elements() && fresh(slots)
    {
      var s := other.slots;
      slots := new int[s.Length](i requires 0 <= i < s.Length reads s => s[i]);
    }

    /** `operator=(const Array &)` and `operator=(Array &&)`: every slot takes `other`'s value. */
    method CopyAssign(other: Array)
      requires |other.Elements()| == |Elements()|
      modifies slots
      ensures Elements() == old(other.Elements())
    {
      ghost var o := other.slots[..];
      var i := 0;
      while i < slots.Length
        invariant i <= slots.Length
        invariant forall j :: 0 <= j < i ==> slots[j] == o[j]
        invariant forall j :: 0 <= j < |o| ==> other.slots[j] == o[j]
      {
        slots[i] := other.slots[i];
        i := i + 1;
      }
    }

    /**
      `operator=(items)`: the items overwrite the first slots in order and
      the remaining slots are value-initialised.
    */
    method AssignList(items: seq<int>)
      requires |items| <= |Elements()|
      modifies slots
      ensures Elements() == items + seq(|Elements()| - |items|, _ => 0)
    {
      var i := 0;
      while i < slots.Length
        invariant i <= slots.Length
        invariant forall j :: 0 <= j < i ==> slots[j] == if j < |items| then items[j] else 0
      {
        slots[i] := if i < |items| then items[i] else 0;
        i := i + 1;
      }
    }

    /** `at(pos)`: slot `pos`, or an out-of-range error when `pos >= N`. */
    function At(pos: nat): (r: Result<int>)
      reads slots
      ensures r.Success? <==> pos < |Elements()|
      ensures r.Success? ==> r.value == Elements()[pos]
      ensures r.Failure? ==> r.error == OutOfRange
    {
      if pos < slots.Length then Success(slots[pos]) else Failure(OutOfRange)
    }

    /** `operator[](pos)`: slot `pos`, unchecked. */
    function Get(pos: nat): (v: int)
      reads slots
      requires pos < |Elements()|
      ensures v == Elements()[pos]
    {
      slots[pos]
    }

    /**
      Writing through the reference `at`, `operator[]`, `front` or `back`
      returns: only slot `pos` changes.
    */
    method Put(pos: nat, v: int)
      requires pos < |Elements()|
      modifies slots
      ensures Elements() == old(Elements())[pos := v]
    {
      slots[pos] := v;
    }

    /** `front()`: slot 0. */
    function Front(): (v: int)
      reads slots
      requires Elements() != []
      ensures v == Elements()[0]
    {
      slots[0]
    }

    /** `back()`: slot `N - 1`. */
    function Back(): (v: int)
      reads slots
      requires Elements() != []
      ensures v == Elements()[|Elements()| - 1]
    {
      slots[slots.Length - 1]
    }

    /** `empty()`: whether `N` is zero. */
    function Empty(): (e: bool)
      reads slots
      ensures e <==> Elements() == []
    {
      slots.Length == 0
    }

    /** `size()`: `N`, which no operation changes. */
    function Size(): (n: nat)
      reads slots
      ensures n == |Elements()|
    {
      slots.Length
    }

    /** `fill(value)`: every slot becomes `value`. */
    method Fill(v: int)
      modifies slots
      ensures Elements() == seq(|Elements()|, _ => v)
    {
      var i := 0;
      while i < slots.Length
        invariant i <= slots.Length
        invariant forall j :: 0 <= j < i ==> slots[j] == v
      {
        slots[i] := v;
        i := i + 1;
      }
    }

    /** `swap(other)`: the two arrays exchange their slots one by one. */
    method Swap(other: Array)
      requires |other.Elements()| == |Elements()|
      modifies slots, other.slots
      ensures Elements() == old(other.Elements()) && other.Elements() == old(Elements())
    {
      ghost var a, b := slots[..], other.slots[..];
      var i := 0;
      while i < slots.Length
        invariant i <= slots.Length
        invariant forall j :: 0 <= j < i ==> slots[j] == b[j] && other.slots[j] == a[j]
        invariant forall j :: i <= j < slots.Length ==> slots[j] == a[j] && other.slots[j] == b[j]
      {
        slots[i], other.slots[i] := other.slots[i], slots[i];
        i := i + 1;
      }
    }
  }
}
