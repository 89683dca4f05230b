/**
 * The reusable character buffer of jsonpp (include/jsonpp/misc.h): a vector of units and a
 * cursor into it. The logical content is the storage before the cursor; `clear` only moves the
 * cursor back, so the storage behind it is overwritten, never shrunk.
 */
module Misc {

  /** The storage after one push_back at the given cursor: append at the physical end, overwrite otherwise. */
  function PushedStorage(storage: seq<char>, cursor: nat, t: char): (r: seq<char>)
    requires cursor <= |storage|
    ensures |r| == if cursor == |storage| then |storage| + 1 else |storage|
    ensures r[..cursor] == storage[..cursor] && r[cursor] == t
    ensures cursor < |storage| ==> r[cursor + 1..] == storage[cursor + 1..]
  {
    if cursor == |storage| then storage + [t] else storage[cursor := t]
  }

  /** The storage after pushing `units` one by one, starting at the given cursor. */
  function PushedAll(storage: seq<char>, cursor: nat, units: seq<char>): (r: seq<char>)
    requires cursor <= |storage|
    ensures cursor + |units| <= |r|
    decreases |units|
  {
    if units == [] then storage
    else
      var before := PushedAll(storage, cursor, units[..|units| - 1]);
      PushedStorage(before, cursor + |units| - 1, units[|units| - 1])
  }

  /**
   * Pushing units from a cursor keeps what lies before the cursor, puts the units right after it,
   * and leaves the storage beyond the last written unit untouched.
   */
  lemma {:induction false} PushedAllContents(storage: seq<char>, cursor: nat, units: seq<char>)
    requires cursor <= |storage|
    ensures PushedAll(storage, cursor, units)[..cursor + |units|] == storage[..cursor] + units
    ensures |PushedAll(storage, cursor, units)| == if cursor + |units| <= |storage| then |storage| else cursor + |units|
    ensures cursor + |units| <= |storage| ==>
      PushedAll(storage, cursor, units)[cursor + |units|..] == storage[cursor + |units|..]
    decreases |units|
  {
    if units != [] {
      var init, last := units[..|units| - 1], units[|units| - 1];
      assert units == init + [last];
      PushedAllContents(storage, cursor, init);
      var before := PushedAll(storage, cursor, init);
      var after := PushedStorage(before, cursor + |init|, last);
      assert after[..cursor + |units|] == after[..cursor + |init|] + [last];
      assert after[..cursor + |init|] == before[..cursor + |init|] == storage[..cursor] + init;
      assert storage[..cursor] + init + [last] == storage[..cursor] + (init + [last]);
    }
  }

  /** Clear followed by k push_backs leaves exactly the k pushed units as the content. */
  lemma PushesAfterClear(storage: seq<char>, units: seq<char>)
    ensures PushedAll(storage, 0, units)[..|units|] == units
  {
    PushedAllContents(storage, 0, units);
  }

  /** Whether one of the two texts is a prefix of the other. */
  predicate PrefixRelated(a: seq<char>, b: seq<char>)
  {
    (|a| <= |b| && a == b[..|a|]) || (|b| <= |a| && b == a[..|b|])
  }

  class Buffer {
    var storage: seq<char>
    var cursor: nat

    ghost predicate Valid()
      reads this
    {
      cursor <= |storage|
    }

    /** The text the buffer converts to: the storage from the start up to the cursor. */
    function Contents(): (r: seq<char>)
      reads this
      requires Valid()
      ensures |r| == cursor
    {
      storage[..cursor]
    }

    constructor ()
      ensures Valid() && storage == [] && cursor == 0
    {
      storage := [];
      cursor := 0;
    }

    method PushBack(t: char)
      requires Valid()
      modifies this
      ensures Valid()
      ensures storage == PushedStorage(old(storage), old(cursor), t) && cursor == old(cursor) + 1
      ensures Contents() == old(Contents()) + [t]
    {
      if cursor == |storage| {
        storage := storage + [t];
        cursor := |storage|;
      } else {
        storage := storage[cursor := t];
        cursor := cursor + 1;
      }
    }

    method Clear()
      requires Valid()
      modifies this
      ensures Valid() && storage == old(storage) && cursor == 0
      ensures Contents() == []
    {
      cursor := 0;
    }

    /** empty(): the cursor is at the start, which is exactly when the content is empty. */
    function Empty(): (r: bool)
      reads this
      requires Valid()
      ensures r <==> Contents() == []
    {
      cursor == 0
    }

    /** append(str): push_back of every unit of str, in order. */
    method Append(str: seq<char>)
      requires Valid()
      modifies this
      ensures Valid()
      ensures storage == PushedAll(old(storage), old(cursor), str) && cursor == old(cursor) + |str|
      ensures Contents() == old(Contents()) + str
    {
      var i := 0;
      while i < |str|
        invariant 0 <= i <= |str| && Valid()
        invariant storage == PushedAll(old(storage), old(cursor), str[..i]) && cursor == old(cursor) + i
      {
        assert str[..i + 1][..i] == str[..i];
        PushBack(str[i]);
        i := i + 1;
      }
      assert str[..i] == str;
      PushedAllContents(old(storage), old(cursor), str);
    }

    /** append(s, e): push_back of every unit of the range [s, e) of `units`, in order. */
    method AppendRange(units: seq<char>, s: nat, e: nat)
      requires Valid() && s <= e <= |units|
      modifies this
      ensures Valid()
      ensures storage == PushedAll(old(storage), old(cursor), units[s..e]) && cursor == old(cursor) + (e - s)
      ensures Contents() == old(Contents()) + units[s..e]
    {
      ghost var range := units[s..e];
      var i := s;
      while i != e
        invariant s <= i <= e && Valid()
        invariant storage == PushedAll(old(storage), old(cursor), range[..i - s]) && cursor == old(cursor) + (i - s)
        decreases e - i
      {
        assert range[..i - s + 1] == range[..i - s] + [units[i]];
        assert units[i] == range[i - s];
        PushBack(units[i]);
        i := i + 1;
      }
      assert range[..e - s] == range;
      PushedAllContents(old(storage), old(cursor), range);
    }

    /**
     * operator==(const char *): compares unit by unit until the C string (the units before its
     * terminating NUL) or the content runs out; false at the first difference.
     */
    method EqualsText(str: seq<char>) returns (r: bool)
      requires Valid()
      ensures r <==> PrefixRelated(Contents(), str)
    {
      var i := 0;
      while i < |str| && i < cursor
        invariant 0 <= i <= |str| && i <= cursor
        invariant str[..i] == storage[..i]
      {
        if str[i] != storage[i] {
          assert Contents()[i] != str[i];
          return false;
        }
        i := i + 1;
      }
      r := true;
      if i == |str| {
        assert str == Contents()[..|str|];
      } else {
        assert Contents() == str[..cursor];
      }
    }
  }
}
