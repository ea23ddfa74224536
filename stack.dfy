/** The bounded LIFO stack of utils/stack.py. */
module Stacks {
  import opened Errors

  /** Capacity a `Stack()` gets when none is given. */
  const DefaultCapacity: int := 10

  /** The bound a capacity imposes: a capacity at or below zero makes every
      push fail, so such a stack stays empty. */
  function Bound(capacity: int): (b: nat)
    ensures capacity >= 0 ==> b == capacity
    ensures capacity < 0 ==> b == 0
  {
    if capacity < 0 then 0 else capacity
  }

  class Stack<T> {
    const capacity: int
    /** Bottom to top: the top of the stack is the last element. */
    var elements: seq<T>

    ghost predicate Valid()
      reads this
    {
      |elements| <= Bound(capacity)
    }

    constructor (capacity: int)
      ensures Valid()
      ensures this.capacity == capacity && elements == []
    {
      this.capacity := capacity;
      elements := [];
    }

    /** Appends `value`, or fails with "Stack overflow" and changes nothing. */
    method Push(value: T) returns (r: Result<bool>)
      requires Valid()
      modifies this`elements
      ensures Valid()
      ensures |old(elements)| >= capacity ==> r == Err(StackOverflow) && elements == old(elements)
      ensures |old(elements)| < capacity ==> r == Ok(true) && elements == old(elements) + [value]
    {
      var full := IsFull();
      if full {
        return Err(StackOverflow);
      }
      elements := elements + [value];
      return Ok(true);
    }

    /** Removes and returns the most recently pushed value, or fails with
        "Stack underflow" on an empty stack. */
    method Pop() returns (r: Result<T>)
      requires Valid()
      modifies this`elements
      ensures Valid()
      ensures old(elements) == [] ==> r == Err(StackUnderflow) && elements == []
      ensures old(elements) != [] ==>
        r == Ok(old(elements)[|old(elements)| - 1]) && old(elements) == elements + [r.value]
    {
      var empty := IsEmpty();
      if empty {
        return Err(StackUnderflow);
      }
      r := Ok(elements[|elements| - 1]);
      elements := elements[..|elements| - 1];
    }

    /** The top element without removing it; None when empty. */
    method Peek() returns (r: Option<T>)
      ensures r.None? <==> elements == []
      ensures r.Some? ==> |elements| > 0 && r.value == elements[|elements| - 1]
    {
      if |elements| == 0 {
        return None;
      }
      return Some(elements[|elements| - 1]);
    }

    method Size() returns (n: int)
      requires Valid()
      ensures n == |elements|
      ensures n <= capacity || n == 0
    {
      return |elements|;
    }

    method IsEmpty() returns (b: bool)
      requires Valid()
      ensures b <==> |elements| == 0
    {
      var n := Size();
      return n == 0;
    }

    method IsFull() returns (b: bool)
      ensures b <==> |elements| >= capacity
    {
      return |elements| >= capacity;
    }

    method Clear()
      modifies this`elements
      ensures Valid()
      ensures elements == []
    {
      elements := [];
    }

    /** The contents bottom to top. A Dafny sequence is a value, so later
        pushes and pops cannot change a list already returned. */
    method ToList() returns (s: seq<T>)
      ensures s == elements
    {
      return elements;
    }
  }

  /** Push followed by pop on a stack that is not full gives back the pushed
      value and leaves the stack as it was. */
  method PushThenPop<T>(st: Stack<T>, x: T) returns (r: Result<T>)
    requires st.Valid()
    modifies st
    ensures st.Valid()
    ensures |old(st.elements)| < st.capacity ==> r == Ok(x) && st.elements == old(st.elements)
  {
    ghost var before := st.elements;
    var pushed := st.Push(x);
    r := st.Pop();
    if |before| < st.capacity {
      assert st.elements == (before + [x])[..|before|];
    }
  }
}
