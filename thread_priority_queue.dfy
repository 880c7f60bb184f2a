/**
 * `david::thread::thread_priority_queue`: a vector kept as a binary heap
 * under an injected comparator. The vector is modelled by an array `data`
 * whose first `size` slots hold the elements (its capacity being
 * `data.Length`); `Contents` is the abstract view, the sequence those slots
 * hold. The mutex and the condition variable are not modelled: every
 * operation here runs as if it held the lock.
 */
module ThreadPriorityQueue {
  import opened Heap

  class ThreadPriorityQueue<T(!new)> {
    var data: array<T>
    var size: nat
    const comp: (T, T) -> bool
    ghost var Contents: seq<T>

    /** The vector occupies a prefix of its buffer and is a heap under a strict weak order. */
    ghost predicate Valid()
      reads this, data
    {
      && size <= data.Length
      && Contents == data[..size]
      && StrictWeakOrder(comp)
      && IsHeap(Contents, comp)
    }

    /**
     * `thread_priority_queue(const Compare& __x, const Container& __c)`:
     * copies `__c` and runs `make_heap` over it.
     */
    constructor (comp: (T, T) -> bool, c: seq<T>)
      requires StrictWeakOrder(comp)
      ensures Valid() && fresh(data)
      ensures this.comp == comp
      ensures Contents == Heapify(c, |c|, comp)
      ensures multiset(Contents) == multiset(c)
    {
      this.comp := comp;
      data := new T[|c|](i requires 0 <= i < |c| => c[i]);
      size := |c|;
      new;
      assert data[..size] == c;
      MakeHeap(data, size, comp);
      Contents := data[..size];
      HeapifyMakesHeap(c, |c|, comp);
    }

    /**
     * `thread_priority_queue(__first, __last, const Compare& __x, const Container& __c)`:
     * copies `__c`, appends the elements of [__first, __last) (here the
     * sequence `range`) and runs `make_heap` over the whole.
     */
    constructor FromRange(range: seq<T>, comp: (T, T) -> bool, c: seq<T>)
      requires StrictWeakOrder(comp)
      ensures Valid() && fresh(data)
      ensures this.comp == comp
      ensures Contents == Heapify(c + range, |c| + |range|, comp)
      ensures multiset(Contents) == multiset(c) + multiset(range)
    {
      this.comp := comp;
      var all := c + range;
      data := new T[|all|](i requires 0 <= i < |all| => all[i]);
      size := |all|;
      new;
      assert data[..size] == all;
      MakeHeap(data, size, comp);
      Contents := data[..size];
      HeapifyMakesHeap(all, |all|, comp);
    }

    /** `empty()`: whether the vector holds no element. */
    method Empty() returns (b: bool)
      requires Valid()
      ensures b <==> Contents == []
    {
      b := size == 0;
    }

    /** `size()`: the number of elements held. */
    method Size() returns (n: nat)
      requires Valid()
      ensures n == |Contents|
    {
      n := size;
    }

    /**
     * `std::vector::push_back` / `emplace_back`: appends x, first moving the
     * elements to a buffer of twice the capacity (plus one) when the buffer is full.
     */
    method PushBack(x: T)
      requires size <= data.Length
      modifies this, data
      ensures size == old(size) + 1 && size <= data.Length
      ensures data[..size] == old(data[..size]) + [x]
      ensures data == old(data) || fresh(data)
      ensures Contents == old(Contents)
    {
      if size == data.Length {
        var buffer := data;
        var grown := new T[2 * buffer.Length + 1](i requires 0 <= i reads buffer => if i < buffer.Length then buffer[i] else x);
        assert grown[..size] == buffer[..size];
        data := grown;
      }
      data[size] := x;
      size := size + 1;
    }

    /** `push(x)`: appends x to the vector and sifts it up (`push_heap`). */
    method Push(x: T)
      requires Valid()
      modifies this, data
      ensures Valid()
      ensures Contents == SiftUp(old(Contents) + [x], |old(Contents)|, comp)
      ensures multiset(Contents) == multiset(old(Contents)) + multiset{x}
      ensures |Contents| == |old(Contents)| + 1
    {
      PushBack(x);
      PushHeap(data, size, comp);
      Contents := data[..size];
      PushKeepsHeap(old(Contents), x, comp);
    }

    /**
     * `emplace(args...)`: constructs the element from `args` at the back of
     * the vector (`construct` stands for the element type's constructor) and
     * sifts it up; the effect is that of `Push(construct(args))`.
     */
    method Emplace<A>(args: A, construct: A -> T)
      requires Valid()
      modifies this, data
      ensures Valid()
      ensures Contents == SiftUp(old(Contents) + [construct(args)], |old(Contents)|, comp)
      ensures multiset(Contents) == multiset(old(Contents)) + multiset{construct(args)}
      ensures |Contents| == |old(Contents)| + 1
    {
      PushBack(construct(args));
      PushHeap(data, size, comp);
      Contents := data[..size];
      PushKeepsHeap(old(Contents), construct(args), comp);
    }
  }

  /** `std::less<int>`, the default comparator for a queue of `int`. */
  predicate IntLess(a: int, b: int) {
    a < b
  }

  /** Under the default `std::less`, no element of the heap is greater than the one in slot 0. */
  lemma LessHeapRootIsMaximum(s: seq<int>)
    requires IsHeap(s, IntLess)
    ensures forall i :: 0 <= i < |s| ==> s[i] <= s[0]
  {
    HeapRootRanksHighest(s, IntLess);
  }
}
