/** A stack in a zeroed page (utils/stack.rs). The top of an empty stack is slot 0. */
module Stacks {
  class Stack<T> {
    const slots: array<T>
    var inserted: nat

    ghost predicate Valid()
      reads this
    {
      0 < slots.Length && inserted <= slots.Length
    }

    ghost function Contents(): (s: seq<T>)
      requires Valid()
      reads this, slots
      ensures |s| == inserted
    {
      slots[..inserted]
    }

    constructor (capacity: nat, zero: T)
      requires capacity > 0
      ensures Valid() && fresh(slots) && slots.Length == capacity && Contents() == []
      ensures forall i :: 0 <= i < capacity ==> slots[i] == zero
    {
      slots := new T[capacity](_ => zero);
      inserted := 0;
    }

    function TopSlot(): (i: nat)
      requires Valid()
      reads this
      ensures i < slots.Length
    {
      if inserted == 0 then 0 else inserted - 1
    }

    function RefTop(): T
      requires Valid()
      reads this, slots
    {
      slots[TopSlot()]
    }

    /** Panics when the stack is full. */
    method Push(val: T) returns (panicked: bool)
      requires Valid()
      modifies this, slots
      ensures Valid() && panicked == (old(inserted) == slots.Length)
      ensures Contents() == if panicked then old(Contents()) else old(Contents()) + [val]
      ensures forall i :: inserted <= i < slots.Length ==> slots[i] == old(slots[i])
    {
      if inserted + 1 > slots.Length {
        return true;
      }
      slots[inserted] := val;
      inserted := inserted + 1;
      return false;
    }

    /** Panics when the stack is empty. What was on top stays in its slot. */
    method Pop() returns (r: T, panicked: bool)
      requires Valid()
      modifies this
      ensures Valid() && panicked == (old(inserted) == 0) && r == old(RefTop())
      ensures Contents() == if panicked then old(Contents()) else old(Contents()[..inserted - 1])
      ensures !panicked ==> old(Contents()) == Contents() + [r]
    {
      r := RefTop();
      if inserted == 0 {
        return r, true;
      }
      inserted := inserted - 1;
      panicked := false;
    }

    method SetTop(val: T)
      requires Valid()
      modifies slots
      ensures forall i :: 0 <= i < slots.Length ==> slots[i] == if i == TopSlot() then val else old(slots[i])
    {
      slots[TopSlot()] := val;
    }
  }
}
