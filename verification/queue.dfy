/**
  `Queue`: a first-in first-out adaptor. Every operation forwards to the
  `List` it owns; elements enter at the back and leave at the front.
*/
module CustomQueue {
  import opened Wrappers
  import opened CustomList

  class Queue {
    /** `queue_`: the underlying list, front of the queue first. */
    const queue: List

    ghost predicate Valid()
      reads this, queue
    {
      queue.Valid()
    }

    /** The elements, oldest first. */
    ghost function Elements(): seq<int>
      reads this, queue
      requires Valid()
    {
      queue.Elements()
    }

    /** `Queue()`: an empty queue. */
    constructor ()
      ensures Valid() && Elements() == [] && fresh(queue)
    {
      queue := new List();
    }

    /** `Queue(items)`: the items, the first of them at the front. */
    constructor FromList(items: seq<int>)
      ensures Valid() && Elements() == items && fresh(queue)
    {
      queue := new List.FromList(items);
    }

    /** `Queue(const Queue &)`: a copy of `other`'s elements. */
    constructor Copy(other: Queue)
      requires other.Valid()
      ensures Valid() && Elements() == other.Elements() && fresh(queue)
    {
      queue := new List.Copy(other.queue);
    }

    /** `Queue(Queue &&)`: takes over `other`'s elements and leaves `other` empty. */
    constructor Move(other: Queue)
      requires other.Valid()
      modifies other.queue
      ensures Valid() && Elements() == old(other.Elements()) && fresh(queue)
      ensures other.Valid() && other.Elements() == []
    {
      queue := new List.Move(other.queue);
    }

    /** `operator=(Queue &&)`: takes over `other`'s elements; `other` is left empty unless it is this queue. */
    method MoveAssign(other: Queue)
      requires Valid() && other.Valid()
      modifies queue, other.queue
      ensures Valid() && other.Valid() && Elements() == old(other.Elements())
      ensures other.queue != queue ==> other.Elements() == []
    {
      queue.MoveAssign(other.queue);
    }

    /** `operator=(const Queue &)`: a copy of `other`'s elements. */
    method CopyAssign(other: Queue)
      requires Valid() && other.Valid()
      modifies queue
      ensures Valid() && Elements() == old(other.Elements())
    {
      queue.CopyAssign(other.queue);
    }

    /** `front()`: the oldest element, the next one `pop` removes. */
    function Front(): (v: int)
      reads this, queue
      requires Valid() && Elements() != []
      ensures v == Elements()[0]
    {
      queue.Front()
    }

    /** `back()`: the most recently pushed element. */
    function Back(): (v: int)
      reads this, queue
      requires Valid() && Elements() != []
      ensures v == Elements()[|Elements()| - 1]
    {
      queue.Back()
    }

    /** `empty()`. */
    function Empty(): (e: bool)
      reads this, queue
      requires Valid()
      ensures e <==> Elements() == []
    {
      queue.Empty()
    }

    /** `size()`. */
    function Size(): (n: nat)
      reads this, queue
      requires Valid()
      ensures n == |Elements()|
    {
      queue.Size()
    }

    /** `push(value)`: `value` joins at the back and becomes `back()`. */
    method Push(v: int)
      requires Valid()
      modifies queue
      ensures Valid() && Elements() == old(Elements()) + [v] && Back() == v
    {
      queue.PushBack(v);
    }

    /**
      `pop()`: the front element leaves and the rest keep their order; on an
      empty queue the underlying `pop_front` fails and nothing changes.
    */
    method Pop() returns (r: Outcome)
      requires Valid()
      modifies queue
      ensures Valid()
      ensures r.Pass? <==> old(Elements()) != []
      ensures r.Pass? ==> Elements() == old(Elements()[1..])
      ensures r.Fail? ==> Elements() == old(Elements())
    {
      r := queue.PopFront();
    }

    /** `swap(other)`: the two queues exchange their elements. */
    method Swap(other: Queue)
      requires Valid() && other.Valid()
      modifies queue, other.queue
      ensures Valid() && other.Valid()
      ensures Elements() == old(other.Elements()) && other.Elements() == old(Elements())
    {
      queue.Swap(other.queue);
    }

    /** `emplace_back(args...)`: one `emplace_back` on the list per argument, in order. */
    method EmplaceBack(args: seq<int>)
      requires Valid()
      modifies queue
      ensures Valid() && Elements() == old(Elements()) + args
    {
      var k := 0;
      while k < |args|
        invariant k <= |args| && Valid() && Elements() == old(Elements()) + args[..k]
      {
        queue.EmplaceBack([args[k]]);
        assert args[..k + 1] == args[..k] + [args[k]];
        k := k + 1;
      }
      assert args[..k] == args;
    }
  }
}
