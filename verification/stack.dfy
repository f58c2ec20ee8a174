/**
  `Stack`: a last-in first-out adaptor. Every operation forwards to the
  `List` it owns; the top of the stack is the back of the list.
*/
module CustomStack {
  import opened Wrappers
  import opened CustomList

  class Stack {
    /** `stack_`: the underlying list, bottom of the stack first. */
    const stack: List

    ghost predicate Valid()
      reads this, stack
    {
      stack.Valid()
    }

    /** The elements, bottom first and top last. */
    ghost function Elements(): seq<int>
      reads this, stack
      requires Valid()
    {
      stack.Elements()
    }

    /** `Stack()`: an empty stack. */
    constructor ()
      ensures Valid() && Elements() == [] && fresh(stack)
    {
      stack := new List();
    }

    /** `Stack(items)`: the items pushed in order, so the last of them is on top. */
    constructor FromList(items: seq<int>)
      ensures Valid() && Elements() == items && fresh(stack)
      ensures items != [] ==> Top() == items[|items| - 1]
    {
      stack := new List.FromList(items);
    }

    /** `Stack(const Stack &)`: a copy of `other`'s elements. */
    constructor Copy(other: Stack)
      requires other.Valid()
      ensures Valid() && Elements() == other.Elements() && fresh(stack)
    {
      stack := new List.Copy(other.stack);
    }

    /** `Stack(Stack &&)`: takes over `other`'s elements and leaves `other` empty. */
    constructor Move(other: Stack)
      requires other.Valid()
      modifies other.stack
      ensures Valid() && Elements() == old(other.Elements()) && fresh(stack)
      ensures other.Valid() && other.Elements() == []
    {
      stack := new List.Move(other.stack);
    }

    /** `operator=(Stack &&)`: takes over `other`'s elements; `other` is left empty unless it is this stack. */
    method MoveAssign(other: Stack)
      requires Valid() && other.Valid()
      modifies stack, other.stack
      ensures Valid() && other.Valid() && Elements() == old(other.Elements())
      ensures other.stack != stack ==> other.Elements() == []
    {
      stack.MoveAssign(other.stack);
    }

    /** `operator=(const Stack &)`: a copy of `other`'s elements. */
    method CopyAssign(other: Stack)
      requires Valid() && other.Valid()
      modifies stack
      ensures Valid() && Elements() == old(other.Elements())
    {
      stack.CopyAssign(other.stack);
    }

    /** `top()`: the most recently pushed element still on the stack. */
    function Top(): (v: int)
      reads this, stack
      requires Valid() && Elements() != []
      ensures v == Elements()[|Elements()| - 1]
    {
      stack.Back()
    }

    /** `empty()`. */
    function Empty(): (e: bool)
      reads this, stack
      requires Valid()
      ensures e <==> Elements() == []
    {
      stack.Empty()
    }

    /** `size()`. */
    function Size(): (n: nat)
      reads this, stack
      requires Valid()
      ensures n == |Elements()|
    {
      stack.Size()
    }

    /** `push(value)`: `value` goes on top. */
    method Push(v: int)
      requires Valid()
      modifies stack
      ensures Valid() && Elements() == old(Elements()) + [v] && Top() == v
    {
      stack.PushBack(v);
    }

    /**
      `pop()`: the top element leaves and the one pushed before it is on top
      again; on an empty stack the underlying `pop_back` fails and nothing
      changes.
    */
    method Pop() returns (r: Outcome)
      requires Valid()
      modifies stack
      ensures Valid()
      ensures r.Pass? <==> old(Elements()) != []
      ensures r.Pass? ==> Elements() == old(Elements()[..|Elements()| - 1])
      ensures r.Fail? ==> Elements() == old(Elements())
    {
      r := stack.PopBack();
    }

    /** `swap(other)`: the two stacks exchange their elements. */
    method Swap(other: Stack)
      requires Valid() && other.Valid()
      modifies stack, other.stack
      ensures Valid() && other.Valid()
      ensures Elements() == old(other.Elements()) && other.Elements() == old(Elements())
    {
      stack.Swap(other.stack);
    }

    /**
      `emplace_front(args...)`: one `emplace_back` on the list per argument,
      in order, so the last argument ends on top.
    */
    method EmplaceFront(args: seq<int>)
      requires Valid()
      modifies stack
      ensures Valid() && Elements() == old(Elements()) + args
      ensures args != [] ==> Top() == args[|args| - 1]
    {
      var k := 0;
      while k < |args|
        invariant k <= |args| && Valid() && Elements() == old(Elements()) + args[..k]
      {
        stack.EmplaceBack([args[k]]);
        assert args[..k + 1] == args[..k] + [args[k]];
        k := k + 1;
      }
      assert args[..k] == args;
    }
  }
}
