/**
 * `json::var` / `basic_var` as the object the source updates in place: the four fields, and
 * the mutators of include/jsonpp/value.h and include/jsonpp/var.h, each proved to leave the
 * object in the state the matching function of JsonValue computes. A reference returned by
 * operator[] is modelled by the position of the slot among the children.
 */
module JsonVar {
  import opened JsonValue

  class Var {
    var tag: Tag
    var str: string
    var num: Numeric
    var children: seq<Member>

    /** The value the object currently holds. */
    function Snapshot(): Value
      reads this
    {
      Value(tag, str, num, children)
    }

    /** var() and var(Types). */
    constructor FromTag(t: Tag)
      ensures Snapshot() == Fresh(t)
    {
      tag, str, num, children := t, [], NaN, [];
    }

    /** var(string), var(const char *), var(char). */
    constructor FromString(s: string)
      ensures Snapshot() == OfString(s)
    {
      tag, str, num, children := String, s, NaN, [];
    }

    /** var(bool). */
    constructor FromBool(b: bool)
      ensures Snapshot() == OfBool(b)
    {
      tag, str, num, children := Bool, [], Finite(if b then 1.0 else 0.0), [];
    }

    /** The numeric constructors. */
    constructor FromNumber(n: Numeric)
      ensures Snapshot() == OfNumber(n)
    {
      tag, str, num, children := Number, [], n, [];
    }

    /** operator=: copies tag, string, number and children. */
    method Assign(rhs: Value)
      modifies this
      ensures Snapshot() == rhs
    {
      tag, str, num, children := rhs.tag, rhs.str, rhs.num, rhs.children;
    }

    /** Assignment through the reference to child `slot` (what `this[..] = x` does). */
    method SetSlot(slot: nat, x: Value)
      requires slot < |children|
      modifies this
      ensures Snapshot() == SetChild(old(Snapshot()), slot, x)
    {
      children := children[slot := Member(children[slot].key, x)];
    }

    /** Non-const operator[](key); `slot` stands for the reference returned. */
    method Key(key: string) returns (slot: nat)
      modifies this
      ensures (Snapshot(), slot) == KeyAccess(old(Snapshot()), key)
      ensures slot < |children| && children[slot].key == key
    {
      if tag != Object {
        tag := Object;
        children := [];
      }
      slot := KeyIndex(children, key);
      if slot == |children| {
        children := children + [Member(key, Fresh(Undefined))];
      }
    }

    /** Non-const operator[](index); the slot returned by reference is children[index]. */
    method Index(index: nat)
      modifies this
      ensures Snapshot() == IndexAccess(old(Snapshot()), index)
      ensures index < |children|
    {
      if tag != Array {
        tag := Array;
        children := [];
      }
      if index >= |children| {
        children := children + EmptySlots(index + 1 - |children|);
      }
    }

    method Push(x: Value)
      modifies this
      ensures Snapshot() == Pushed(old(Snapshot()), x)
    {
      if tag != Array {
        tag := Array;
        children := [];
      }
      children := children + [Member([], x)];
    }

    /** splice(index, remove). */
    method Splice(index: UInt, remove: UInt)
      modifies this
      ensures Snapshot() == Spliced(old(Snapshot()), index, remove)
    {
      if remove > 0 {
        if index < |children| && remove < |children| - index {
          children := children[..index] + children[index + remove..];
        }
      }
    }

    /** splice(index, remove, item): fills `removed` by index assignment, splices, then inserts. */
    method SpliceInsert(index: UInt, remove: UInt, item: Value) returns (result: Value)
      modifies this
      ensures (Snapshot(), result) == SplicedInsert(old(Snapshot()), index, remove, item)
    {
      var removed := new Var.FromTag(Array);
      if remove > 0 {
        for i := 0 to remove
          invariant removed.Snapshot() == Value(Array, [], NaN, Copies(item, i))
          invariant Snapshot() == old(Snapshot())
        {
          removed.Index(i);
          removed.SetSlot(i, item);
        }
        Splice(index, remove);
      }
      if index < |children| {
        children := children[..index] + [Member([], item)] + children[index..];
      }
      if remove > 0 {
        result := removed.Snapshot();
      } else {
        result := Snapshot();
      }
    }

    /** clear. */
    method Clear()
      modifies this
      ensures Snapshot() == Cleared(old(Snapshot()))
    {
      tag, str, num, children := Undefined, [], NaN, [];
    }

    /** merge(rhs): assignment for a scalar receiver, otherwise one recursive merge per child of rhs. */
    method Merge(rhs: Value)
      modifies this
      ensures Snapshot() == JsonValue.Merge(old(Snapshot()), rhs)
    {
      if tag == Object {
        var i := 0;
        while i < |rhs.children|
          invariant i <= |rhs.children| && tag == Object
          invariant MergeKeys(Snapshot(), rhs, i) == JsonValue.Merge(old(Snapshot()), rhs)
        {
          var slot := Key(rhs.children[i].key);
          SetSlot(slot, JsonValue.Merge(children[slot].value, rhs.children[i].value));
          i := i + 1;
        }
      } else if tag == Array {
        var c := 0;
        while c < |rhs.children|
          invariant c <= |rhs.children| && tag == Array
          invariant MergeIndices(Snapshot(), rhs, c) == JsonValue.Merge(old(Snapshot()), rhs)
        {
          Index(c);
          SetSlot(c, JsonValue.Merge(children[c].value, rhs.children[c].value));
          c := c + 1;
        }
      } else {
        Assign(rhs);
      }
    }
  }
}
