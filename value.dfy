/**
 * The value model of jsonpp: `json::var` (include/jsonpp/value.h) and `basic_var`
 * (include/jsonpp/var.h), which has the same semantics behind a copy-on-write pointer.
 *
 * A value is a tagged union that keeps all four fields of the source at once: the tag, a
 * string, a long double and ONE ordered sequence of (key, value) children shared by arrays
 * (empty keys) and objects. The fields that do not belong to the tag are still there: key and
 * index access only reset the tag and the children, and equality compares all of them.
 *
 * This module holds what the operations compute, as functions of the old value; the class
 * `JsonVar.Var` performs them in place and is proved to agree with these functions.
 */
module JsonValue {

  datatype Tag = Undefined | Null | Bool | Number | String | Array | Object

  /** The long double payload, kept abstract: NaN or a number. */
  datatype Numeric = NaN | Finite(r: real)

  datatype Value = Value(tag: Tag, str: string, num: Numeric, children: seq<Member>)

  /** KeyValue / key_value: one child; array elements have the empty key. */
  datatype Member = Member(key: string, value: Value)

  /** `unsigned int`, the index and count type of splice. */
  type UInt = n: int | 0 <= n < 0x1_0000_0000

  /** Number-to-text formatting (a stringstream in the source), left abstract. */
  type NumberShow = Numeric -> string

  predicate IsContainer(v: Value)
  {
    v.tag == Array || v.tag == Object
  }

  /** var() and var(Types): the tag, an empty string, NaN and no children. */
  function Fresh(t: Tag): Value
  {
    Value(t, [], NaN, [])
  }

  /** var(string), var(const char *) and var(char): a String. */
  function OfString(s: string): Value
  {
    Value(String, s, NaN, [])
  }

  /** var(bool): a Bool whose number is 1 or 0. */
  function OfBool(b: bool): Value
  {
    Value(Bool, [], Finite(if b then 1.0 else 0.0), [])
  }

  /** The numeric constructors: a Number. */
  function OfNumber(n: Numeric): Value
  {
    Value(Number, [], n, [])
  }

  /** The default child that vector::resize appends: empty key, Undefined value. */
  const EmptySlot: Member := Member([], Fresh(Undefined))

  // ---------------------------------------------------------------------------------------
  // key_value equality (include/jsonpp/misc.h) and KeyValue equality (include/jsonpp/value.h)

  /** key_value == Key: only the key is compared. */
  predicate MatchesKey(m: Member, key: string)
  {
    m.key == key
  }

  /** key_value == key_value: both the key and the value are compared. */
  predicate MemberEquals(m: Member, n: Member)
  {
    m.key == n.key && Equals(m.value, n.value)
  }

  /** Equal children match the same keys, so a search by key cannot tell them apart. */
  lemma MemberEqualsMatchSameKeys(m: Member, n: Member, key: string)
    requires MemberEquals(m, n)
    ensures MatchesKey(m, key) <==> MatchesKey(n, key)
  {
  }

  // ---------------------------------------------------------------------------------------
  // Equality

  /** Whether two payloads compare equal: NaN-ness must agree, and numbers are compared only when not NaN. */
  predicate SameNumber(x: Numeric, y: Numeric)
  {
    x.NaN? == y.NaN? && (x.Finite? ==> x.r == y.r)
  }

  /** operator==: tag, NaN-ness, number when not NaN, string, and the ordered children. */
  predicate Equals(a: Value, b: Value)
    decreases a, 1
  {
    a.tag == b.tag && SameNumber(a.num, b.num) && a.str == b.str
    && |a.children| == |b.children| && ChildrenEqualFrom(a, b, 0)
  }

  /** The children of a and b from position i on are pairwise equal as key_values. */
  predicate ChildrenEqualFrom(a: Value, b: Value, i: nat)
    requires |a.children| == |b.children|
    decreases a, 0, |a.children| - i
  {
    if i >= |a.children| then true
    else
      assert a.children[i] in a.children;
      a.children[i].key == b.children[i].key && Equals(a.children[i].value, b.children[i].value)
      && ChildrenEqualFrom(a, b, i + 1)
  }

  /**
   * Equality is exactly sameness of the four fields, because NaN is compared by NaN-ness. In
   * particular it is reflexive, NaN numbers included, and symmetric.
   */
  lemma {:induction false} EqualsIsSameness(a: Value, b: Value)
    ensures Equals(a, b) <==> a == b
    decreases a, 1
  {
    if |a.children| == |b.children| {
      ChildrenEqualFromIsSameness(a, b, 0);
      assert a.children[0..] == a.children && b.children[0..] == b.children;
    }
  }

  lemma {:induction false} ChildrenEqualFromIsSameness(a: Value, b: Value, i: nat)
    requires |a.children| == |b.children| && i <= |a.children|
    ensures ChildrenEqualFrom(a, b, i) <==> a.children[i..] == b.children[i..]
    decreases a, 0, |a.children| - i
  {
    if i < |a.children| {
      assert a.children[i] in a.children;
      EqualsIsSameness(a.children[i].value, b.children[i].value);
      ChildrenEqualFromIsSameness(a, b, i + 1);
      assert a.children[i..] == [a.children[i]] + a.children[i + 1..];
      assert b.children[i..] == [b.children[i]] + b.children[i + 1..];
    }
  }

  /** A NaN number equals itself, although NaN != NaN as a long double. */
  lemma NaNNumberEqualsItself()
    ensures Equals(OfNumber(NaN), OfNumber(NaN))
    ensures !Equals(OfNumber(NaN), OfNumber(Finite(0.0)))
  {
    EqualsIsSameness(OfNumber(NaN), OfNumber(NaN));
  }

  // ---------------------------------------------------------------------------------------
  // Truthiness and text

  /** operator bool. */
  predicate Truthy(v: Value)
  {
    match v.tag
    case Null => false
    case Undefined => false
    case Array => true
    case Object => true
    case String => v.str != []
    case _ => v.num.Finite? && v.num.r != 0.0
  }

  /** Truthiness by tag: Null/Undefined false, containers true, a String iff non-empty, otherwise a non-zero non-NaN number. */
  lemma TruthyByTag(v: Value)
    ensures v.tag in {Null, Undefined} ==> !Truthy(v)
    ensures IsContainer(v) ==> Truthy(v)
    ensures v.tag == String ==> (Truthy(v) <==> |v.str| > 0)
    ensures v.tag in {Number, Bool} ==> (Truthy(v) <==> v.num != NaN && v.num != Finite(0.0))
  {
  }

  /** operator string: the text form of a value; numbers go through the formatting parameter. */
  function ToText(v: Value, show: NumberShow): (r: string)
    ensures v.tag == String ==> r == v.str
    ensures v.tag == Bool ==> r == if Truthy(v) then "true" else "false"
  {
    match v.tag
    case Array => "Array"
    case Object => "Object"
    case String => v.str
    case Number => show(v.num)
    case Bool => if Truthy(v) then "true" else "false"
    case Null => "null"
    case Undefined => []
  }

  // ---------------------------------------------------------------------------------------
  // Key access

  predicate HasKey(children: seq<Member>, key: string)
  {
    exists j | 0 <= j < |children| :: MatchesKey(children[j], key)
  }

  /** No two children share a key. */
  predicate UniqueKeys(children: seq<Member>)
  {
    forall i, j | 0 <= i < j < |children| :: children[i].key != children[j].key
  }

  /** std::find_if with findKey: the position of the first child with the key, or the end. */
  function KeyIndex(children: seq<Member>, key: string): (i: nat)
    ensures i <= |children|
    ensures i < |children| ==> MatchesKey(children[i], key)
    ensures forall j | 0 <= j < i :: !MatchesKey(children[j], key)
    ensures i == |children| <==> !HasKey(children, key)
    decreases |children|
  {
    if children == [] then 0
    else if MatchesKey(children[0], key) then 0
    else 1 + KeyIndex(children[1..], key)
  }

  /** The children an access keeps: its own when the tag already matches, none otherwise. */
  function Kept(v: Value, t: Tag): seq<Member>
  {
    if v.tag == t then v.children else []
  }

  /**
   * Non-const operator[](key): the value after the access, and the position of the slot it
   * returns by reference. A non-Object becomes an Object without children (string and number
   * stay); an absent key is appended with an Undefined value.
   */
  function KeyAccess(v: Value, key: string): (r: (Value, nat))
    ensures r.0.tag == Object && r.0.str == v.str && r.0.num == v.num
    ensures r.1 < |r.0.children| && MatchesKey(r.0.children[r.1], key)
    ensures forall j | 0 <= j < r.1 :: !MatchesKey(r.0.children[j], key)
    ensures HasKey(Kept(v, Object), key) ==> r.0.children == Kept(v, Object)
    ensures !HasKey(Kept(v, Object), key) ==>
      r.0.children == Kept(v, Object) + [Member(key, Fresh(Undefined))]
  {
    var kept := Kept(v, Object);
    var i := KeyIndex(kept, key);
    var o := Value(Object, v.str, v.num, kept);
    if i < |kept| then (o, i) else (o.(children := kept + [Member(key, Fresh(Undefined))]), i)
  }

  /** Key access never duplicates a key: unique keys stay unique. */
  lemma KeyAccessKeepsKeysUnique(v: Value, key: string)
    requires UniqueKeys(Kept(v, Object))
    ensures UniqueKeys(KeyAccess(v, key).0.children)
  {
    var kept := Kept(v, Object);
    if !HasKey(kept, key) {
      var c := KeyAccess(v, key).0.children;
      forall i, j | 0 <= i < j < |c|
        ensures c[i].key != c[j].key
      {
        if j == |kept| {
          assert !MatchesKey(kept[i], key);
        }
      }
    }
  }

  /** A second access with the same key changes nothing and returns the same slot. */
  lemma KeyAccessIdempotent(v: Value, key: string)
    ensures KeyAccess(KeyAccess(v, key).0, key) == KeyAccess(v, key)
  {
    var r := KeyAccess(v, key);
    assert HasKey(r.0.children, key);
  }

  /** The const access afterwards reads the slot the mutable access returned. */
  lemma KeyAccessThenConstKey(v: Value, key: string)
    ensures var r := KeyAccess(v, key); ConstKey(r.0, key) == r.0.children[r.1].value
  {
  }

  /**
   * const operator[](key): the value of the first child with the key, or Undefined. The tag is
   * not checked, so an Array answers for the empty key.
   */
  function ConstKey(v: Value, key: string): (r: Value)
    ensures !HasKey(v.children, key) ==> r == Fresh(Undefined)
    ensures HasKey(v.children, key) ==> exists j | 0 <= j < |v.children| ::
      v.children[j] == Member(key, r) && forall k | 0 <= k < j :: !MatchesKey(v.children[k], key)
  {
    var i := KeyIndex(v.children, key);
    if i < |v.children| then v.children[i].value else Fresh(Undefined)
  }

  // ---------------------------------------------------------------------------------------
  // Index access, push

  /** `n` default children. */
  function EmptySlots(n: nat): (r: seq<Member>)
    ensures |r| == n && forall j | 0 <= j < n :: r[j] == EmptySlot
  {
    if n == 0 then [] else EmptySlots(n - 1) + [EmptySlot]
  }

  /**
   * Non-const operator[](index): a non-Array becomes an Array without children; when the index
   * is not below the size, the children grow to exactly index + 1 with default slots. The slot
   * returned by reference is children[index].
   */
  function IndexAccess(v: Value, index: nat): (r: Value)
    ensures r.tag == Array && r.str == v.str && r.num == v.num
    ensures index < |Kept(v, Array)| ==> r.children == Kept(v, Array)
    ensures index >= |Kept(v, Array)| ==> |r.children| == index + 1
    ensures r.children[..|Kept(v, Array)|] == Kept(v, Array)
    ensures forall j | |Kept(v, Array)| <= j < |r.children| :: r.children[j] == EmptySlot
  {
    var kept := Kept(v, Array);
    var children := if index < |kept| then kept else kept + EmptySlots(index + 1 - |kept|);
    assert children[..|kept|] == kept;
    Value(Array, v.str, v.num, children)
  }

  /** A second access with the same index changes nothing. */
  lemma IndexAccessIdempotent(v: Value, index: nat)
    ensures IndexAccess(IndexAccess(v, index), index) == IndexAccess(v, index)
  {
  }

  /** const operator[](index): the element, or Undefined when out of range; the tag is not checked. */
  function ConstIndex(v: Value, index: nat): (r: Value)
    ensures index >= |v.children| ==> r == Fresh(Undefined)
    ensures index < |v.children| ==> Member(v.children[index].key, r) == v.children[index]
  {
    if index < |v.children| then v.children[index].value else Fresh(Undefined)
  }

  /** After an index access, the const access at that index reads its slot, Undefined if it is new. */
  lemma IndexAccessThenConstIndex(v: Value, index: nat)
    ensures index < |Kept(v, Array)| ==> ConstIndex(IndexAccess(v, index), index) == Kept(v, Array)[index].value
    ensures index >= |Kept(v, Array)| ==> ConstIndex(IndexAccess(v, index), index) == Fresh(Undefined)
  {
  }

  /** push: a non-Array becomes an Array without children, then one element is appended. */
  function Pushed(v: Value, x: Value): (r: Value)
    ensures r.tag == Array && r.str == v.str && r.num == v.num
    ensures |r.children| == |Kept(v, Array)| + 1
    ensures r.children[..|Kept(v, Array)|] == Kept(v, Array)
    ensures r.children[|Kept(v, Array)|] == Member([], x)
  {
    var kept := Kept(v, Array);
    assert (kept + [Member([], x)])[..|kept|] == kept;
    Value(Array, v.str, v.num, kept + [Member([], x)])
  }

  /** The pushed value is read back at the last index. */
  lemma PushedThenConstIndex(v: Value, x: Value)
    ensures ConstIndex(Pushed(v, x), |Pushed(v, x).children| - 1) == x
  {
  }

  // ---------------------------------------------------------------------------------------
  // Splice

  /** The condition under which splice(index, remove) erases anything. */
  predicate SpliceErases(size: nat, index: nat, remove: nat)
  {
    remove > 0 && index < size && remove < size - index
  }

  /**
   * splice(index, remove): erases the children [index, index + remove) when remove > 0,
   * index < size and remove < size - index; otherwise nothing changes. Tag, string and number
   * are never touched.
   */
  function Spliced(v: Value, index: UInt, remove: UInt): (r: Value)
    ensures r.tag == v.tag && r.str == v.str && r.num == v.num
    ensures !SpliceErases(|v.children|, index, remove) ==> r == v
    ensures SpliceErases(|v.children|, index, remove) ==>
      |r.children| == |v.children| - remove && index < |r.children| &&
      r.children[..index] == v.children[..index] &&
      (forall j | index <= j < |r.children| :: r.children[j] == v.children[j + remove])
  {
    if SpliceErases(|v.children|, index, remove)
    then v.(children := v.children[..index] + v.children[index + remove..])
    else v
  }

  /** Removing everything from index to the end is refused: the test is strict, so the last element always survives. */
  lemma SpliceNeverEmptiesTail(v: Value, index: UInt, remove: UInt)
    requires index < |v.children| && remove == |v.children| - index
    ensures Spliced(v, index, remove) == v
  {
  }

  /** The copies of `item` that splice(index, remove, item) assigns into `removed`. */
  function Copies(item: Value, n: nat): (r: seq<Member>)
    ensures |r| == n && forall j | 0 <= j < n :: r[j] == Member([], item)
  {
    if n == 0 then [] else Copies(item, n - 1) + [Member([], item)]
  }

  /**
   * splice(index, remove, item): the new value of *this and the value returned. After any
   * removal, `item` is inserted at `index` only if index is below the (new) size, so it is never
   * appended. The result is an Array holding `remove` copies of `item` when remove > 0 (not the
   * erased children), and a copy of the new *this otherwise.
   */
  function SplicedInsert(v: Value, index: UInt, remove: UInt, item: Value): (r: (Value, Value))
    ensures var cut := Spliced(v, index, remove);
      r.0.tag == v.tag && r.0.str == v.str && r.0.num == v.num &&
      (index < |cut.children| ==>
        |r.0.children| == |cut.children| + 1 && r.0.children[index] == Member([], item) &&
        r.0.children[..index] == cut.children[..index] && r.0.children[index + 1..] == cut.children[index..]) &&
      (index >= |cut.children| ==> r.0 == cut)
    ensures remove > 0 ==> r.1 == Value(Array, [], NaN, Copies(item, remove))
    ensures remove == 0 ==> r.1 == r.0
  {
    var removed := if remove > 0 then Value(Array, [], NaN, Copies(item, remove)) else Fresh(Array);
    var cut := Spliced(v, index, remove);
    var now := if index < |cut.children|
      then cut.(children := cut.children[..index] + [Member([], item)] + cut.children[index..])
      else cut;
    if remove > 0 then (now, removed) else (now, now)
  }

  // ---------------------------------------------------------------------------------------
  // Clear

  /** clear: tag Undefined, empty string, no children, NaN. */
  function Cleared(v: Value): (r: Value)
    ensures Equals(r, Fresh(Undefined)) && !Truthy(r)
  {
    EqualsIsSameness(Fresh(Undefined), Fresh(Undefined));
    Fresh(Undefined)
  }

  // ---------------------------------------------------------------------------------------
  // Merge

  /** The value with the value of child i replaced (the key stays). */
  function SetChild(v: Value, i: nat, x: Value): (r: Value)
    requires i < |v.children|
    ensures r.tag == v.tag && r.str == v.str && r.num == v.num && |r.children| == |v.children|
    ensures r.children[i] == Member(v.children[i].key, x)
    ensures forall j | 0 <= j < |v.children| && j != i :: r.children[j] == v.children[j]
  {
    v.(children := v.children[i := Member(v.children[i].key, x)])
  }

  /**
   * merge(rhs): a scalar, Null or Undefined receiver becomes rhs; an Object merges each child of
   * rhs into this[key]; an Array merges child i of rhs into this[i].
   */
  function Merge(a: Value, b: Value): Value
    decreases b, 1
  {
    if a.tag == Object then MergeKeys(a, b, 0)
    else if a.tag == Array then MergeIndices(a, b, 0)
    else b
  }

  /** The Object loop of merge, from rhs child i on. */
  function MergeKeys(acc: Value, b: Value, i: nat): (r: Value)
    requires acc.tag == Object
    ensures r.tag == Object
    decreases b, 0, |b.children| - i
  {
    if i >= |b.children| then acc
    else
      assert b.children[i] in b.children;
      var access := KeyAccess(acc, b.children[i].key);
      var slot := access.1;
      MergeKeys(SetChild(access.0, slot, Merge(access.0.children[slot].value, b.children[i].value)), b, i + 1)
  }

  /** The Array loop of merge, from rhs child i on. */
  function MergeIndices(acc: Value, b: Value, i: nat): (r: Value)
    requires acc.tag == Array
    ensures r.tag == Array
    decreases b, 0, |b.children| - i
  {
    if i >= |b.children| then acc
    else
      assert b.children[i] in b.children;
      var grown := IndexAccess(acc, i);
      MergeIndices(SetChild(grown, i, Merge(grown.children[i].value, b.children[i].value)), b, i + 1)
  }

  /** A receiver that is not a container simply becomes rhs. */
  lemma MergeIntoScalar(a: Value, b: Value)
    requires !IsContainer(a)
    ensures Merge(a, b) == b
  {
  }

  /**
   * Merging into an Object keeps its tag, string and number and every child it had, at the same
   * position and with the same key; afterwards every key of rhs is present.
   */
  lemma {:induction false} MergeKeysKeepsOwnKeys(acc: Value, b: Value, i: nat)
    requires acc.tag == Object && i <= |b.children|
    ensures var r := MergeKeys(acc, b, i);
      r.str == acc.str && r.num == acc.num && |acc.children| <= |r.children| &&
      (forall j | 0 <= j < |acc.children| :: r.children[j].key == acc.children[j].key) &&
      (forall j | 0 <= j < |acc.children| :: HasKey(r.children, acc.children[j].key)) &&
      (forall j | i <= j < |b.children| :: HasKey(r.children, b.children[j].key))
    decreases |b.children| - i
  {
    if i < |b.children| {
      var access := KeyAccess(acc, b.children[i].key);
      var slot := access.1;
      var next := SetChild(access.0, slot, Merge(access.0.children[slot].value, b.children[i].value));
      MergeKeyStep(acc, b, i);
      MergeKeysKeepsOwnKeys(next, b, i + 1);
      var r := MergeKeys(acc, b, i);
      forall j | i <= j < |b.children|
        ensures HasKey(r.children, b.children[j].key)
      {
        if j == i {
          assert HasKey(r.children, next.children[slot].key);
        }
      }
      forall j | 0 <= j < |acc.children|
        ensures HasKey(r.children, acc.children[j].key)
      {
        assert next.children[j].key == acc.children[j].key;
      }
    } else {
      forall j | 0 <= j < |acc.children|
        ensures HasKey(acc.children, acc.children[j].key)
      {
        assert MatchesKey(acc.children[j], acc.children[j].key);
      }
    }
  }

  /** One turn of the Object loop of merge: this[key] keeps the receiver's children and keys in place. */
  lemma MergeKeyStep(acc: Value, b: Value, i: nat)
    requires acc.tag == Object && i < |b.children|
    ensures var access := KeyAccess(acc, b.children[i].key);
      var next := SetChild(access.0, access.1, Merge(access.0.children[access.1].value, b.children[i].value));
      MergeKeys(acc, b, i) == MergeKeys(next, b, i + 1) && next.tag == Object &&
      next.str == acc.str && next.num == acc.num && |acc.children| <= |next.children| &&
      next.children[access.1].key == b.children[i].key &&
      forall j | 0 <= j < |acc.children| :: next.children[j].key == acc.children[j].key
  {
  }

  /** The values the children hold under `key`, in order: what the Object loop of merge meets for that key. */
  function ValuesUnder(children: seq<Member>, key: string): (r: seq<Value>)
    ensures |r| <= |children|
    ensures r == [] <==> !HasKey(children, key)
  {
    if children == [] then []
    else
      HasKeyFrom(children, 0, key);
      assert children[0..] == children;
      (if children[0].key == key then [children[0].value] else []) + ValuesUnder(children[1..], key)
  }

  /** x merged with each of vs in turn. */
  function MergedInTurn(x: Value, vs: seq<Value>): Value
    decreases |vs|
  {
    if vs == [] then x else MergedInTurn(Merge(x, vs[0]), vs[1..])
  }

  /** Merging in turn with v and then the rest is merging with v first. */
  lemma MergedInTurnCons(x: Value, v: Value, rest: seq<Value>)
    ensures MergedInTurn(x, [v] + rest) == MergedInTurn(Merge(x, v), rest)
  {
    assert ([v] + rest)[1..] == rest;
  }

  /** A key occurs from position i on iff it is at i or occurs after it. */
  lemma HasKeyFrom(c: seq<Member>, i: nat, key: string)
    requires i < |c|
    ensures HasKey(c[i..], key) <==> c[i].key == key || HasKey(c[i + 1..], key)
  {
    if HasKey(c[i + 1..], key) {
      var j :| 0 <= j < |c[i + 1..]| && MatchesKey(c[i + 1..][j], key);
      assert MatchesKey(c[i..][j + 1], key);
    }
    if HasKey(c[i..], key) {
      var j :| 0 <= j < |c[i..]| && MatchesKey(c[i..][j], key);
      if j > 0 {
        assert MatchesKey(c[i + 1..][j - 1], key);
      }
    }
    if c[i].key == key {
      assert MatchesKey(c[i..][0], key);
    }
  }

  /** The values under a key from position i on: the one at i, if its key matches, then the rest. */
  lemma ValuesUnderFrom(c: seq<Member>, i: nat, key: string)
    requires i < |c|
    ensures ValuesUnder(c[i..], key) == (if c[i].key == key then [c[i].value] else []) + ValuesUnder(c[i + 1..], key)
  {
    assert c[i..][1..] == c[i + 1..];
  }

  /** A key occurring exactly once among unique keys yields exactly its one value. */
  lemma {:induction false} ValuesUnderUnique(c: seq<Member>, j: nat)
    requires UniqueKeys(c) && j < |c|
    ensures ValuesUnder(c, c[j].key) == [c[j].value]
    decreases |c|
  {
    var rest := c[1..];
    assert UniqueKeys(rest) by {
      forall p, q | 0 <= p < q < |rest|
        ensures rest[p].key != rest[q].key
      {
        assert rest[p] == c[p + 1] && rest[q] == c[q + 1];
      }
    }
    if j == 0 {
      assert !HasKey(rest, c[0].key) by {
        forall q | 0 <= q < |rest|
          ensures !MatchesKey(rest[q], c[0].key)
        {
          assert rest[q] == c[q + 1];
        }
      }
    } else {
      assert c[j] == rest[j - 1];
      ValuesUnderUnique(rest, j - 1);
    }
  }

  /** The first child with the key is the one KeyIndex finds. */
  lemma FirstMatchIsKeyIndex(c: seq<Member>, key: string, i: nat)
    requires i < |c| && MatchesKey(c[i], key)
    requires forall j | 0 <= j < i :: !MatchesKey(c[j], key)
    ensures KeyIndex(c, key) == i
  {
  }

  /**
   * One this[key] = x on an Object: the slot reached held the old value under the key, and
   * afterwards the key reads x while every other key reads what it read before.
   */
  lemma AccessThenSet(v: Value, key: string, x: Value, k: string)
    requires v.tag == Object
    ensures var access := KeyAccess(v, key);
      access.0.children[access.1].value == ConstKey(v, key) &&
      ConstKey(SetChild(access.0, access.1, x), k) == if k == key then x else ConstKey(v, k)
  {
    var access := KeyAccess(v, key);
    var c := access.0.children;
    var d := SetChild(access.0, access.1, x).children;
    assert c[..|v.children|] == v.children;
    if HasKey(v.children, key) {
      FirstMatchIsKeyIndex(v.children, key, access.1);
    }
    if k == key {
      FirstMatchIsKeyIndex(d, key, access.1);
    } else if HasKey(v.children, k) {
      var m := KeyIndex(v.children, k);
      assert d[m] == c[m] == v.children[m];
      forall j | 0 <= j < m
        ensures !MatchesKey(d[j], k)
      {
        assert d[j].key == c[j].key == v.children[j].key;
      }
      FirstMatchIsKeyIndex(d, k, m);
    } else {
      assert !HasKey(d, k) by {
        forall j | 0 <= j < |d|
          ensures !MatchesKey(d[j], k)
        {
          assert d[j].key == c[j].key;
          if j < |v.children| {
            assert c[j] == v.children[j];
          }
        }
      }
    }
  }

  /**
   * The Object loop of merge from rhs child i on, read under any key: the receiver's value under
   * the key (Undefined when absent) merged in turn with each value rhs holds under that key.
   */
  lemma {:induction false} MergeKeysAt(acc: Value, b: Value, i: nat, k: string)
    requires acc.tag == Object && i <= |b.children|
    ensures ConstKey(MergeKeys(acc, b, i), k) == MergedInTurn(ConstKey(acc, k), ValuesUnder(b.children[i..], k))
    decreases |b.children| - i
  {
    if i < |b.children| {
      var key := b.children[i].key;
      var access := KeyAccess(acc, key);
      var x := Merge(access.0.children[access.1].value, b.children[i].value);
      var next := SetChild(access.0, access.1, x);
      assert MergeKeys(acc, b, i) == MergeKeys(next, b, i + 1);
      AccessThenSet(acc, key, x, k);
      MergeKeysAt(next, b, i + 1, k);
      ValuesUnderFrom(b.children, i, k);
      if key == k {
        MergedInTurnCons(ConstKey(acc, k), b.children[i].value, ValuesUnder(b.children[i + 1..], k));
      } else {
        assert ValuesUnder(b.children[i..], k) == ValuesUnder(b.children[i + 1..], k);
      }
    } else {
      assert b.children[i..] == [];
    }
  }

  /**
   * The Object loop of merge from rhs child i on leaves alone every own child whose key rhs does
   * not mention from i on, and only appends children whose keys come from rhs and were absent.
   */
  lemma {:induction false} MergeKeysFrame(acc: Value, b: Value, i: nat)
    requires acc.tag == Object && i <= |b.children|
    ensures var r := MergeKeys(acc, b, i);
      |acc.children| <= |r.children| &&
      (forall j | 0 <= j < |acc.children| && !HasKey(b.children[i..], acc.children[j].key) ::
        r.children[j] == acc.children[j]) &&
      (forall j | |acc.children| <= j < |r.children| ::
        HasKey(b.children[i..], r.children[j].key) && !HasKey(acc.children, r.children[j].key))
    decreases |b.children| - i
  {
    if i < |b.children| {
      var key := b.children[i].key;
      var access := KeyAccess(acc, key);
      var next := SetChild(access.0, access.1, Merge(access.0.children[access.1].value, b.children[i].value));
      MergeKeyStep(acc, b, i);
      MergeKeysFrame(next, b, i + 1);
      var r := MergeKeys(acc, b, i);
      assert access.0.children[..|acc.children|] == acc.children;
      forall j | 0 <= j < |acc.children| && !HasKey(b.children[i..], acc.children[j].key)
        ensures r.children[j] == acc.children[j]
      {
        HasKeyFrom(b.children, i, acc.children[j].key);
        assert next.children[j] == access.0.children[j] == acc.children[j];
      }
      forall j | |acc.children| <= j < |r.children|
        ensures HasKey(b.children[i..], r.children[j].key) && !HasKey(acc.children, r.children[j].key)
      {
        HasKeyFrom(b.children, i, r.children[j].key);
        if j < |next.children| {
          MergeKeysKeepsOwnKeys(next, b, i + 1);
          assert r.children[j].key == next.children[j].key;
          assert j == |acc.children| && next.children[j].key == key;
          assert !HasKey(acc.children, key);
        } else {
          assert HasKey(b.children[i + 1..], r.children[j].key);
          assert !HasKey(next.children, r.children[j].key);
        }
      }
    }
  }

  /**
   * Object merge, stated on merge itself: the receiver keeps its tag, string, number and its
   * keys in place; under every key it reads its old value (Undefined when absent) merged in turn
   * with each value rhs holds under that key, so with unique rhs keys each is merged once; own
   * children whose keys rhs lacks are untouched, and new children carry rhs keys that were absent.
   */
  lemma MergeIntoObject(a: Value, b: Value)
    requires a.tag == Object
    ensures var r := Merge(a, b);
      r.tag == Object && r.str == a.str && r.num == a.num && |a.children| <= |r.children| &&
      (forall j | 0 <= j < |a.children| :: r.children[j].key == a.children[j].key) &&
      (forall j | 0 <= j < |b.children| :: HasKey(r.children, b.children[j].key))
    ensures forall k :: ConstKey(Merge(a, b), k) == MergedInTurn(ConstKey(a, k), ValuesUnder(b.children, k))
    ensures UniqueKeys(b.children) ==> forall j | 0 <= j < |b.children| ::
      ConstKey(Merge(a, b), b.children[j].key) == Merge(ConstKey(a, b.children[j].key), b.children[j].value)
    ensures forall j | 0 <= j < |a.children| && !HasKey(b.children, a.children[j].key) ::
      Merge(a, b).children[j] == a.children[j]
    ensures forall j | |a.children| <= j < |Merge(a, b).children| ::
      HasKey(b.children, Merge(a, b).children[j].key) && !HasKey(a.children, Merge(a, b).children[j].key)
  {
    MergeKeysKeepsOwnKeys(a, b, 0);
    MergeKeysFrame(a, b, 0);
    assert b.children[0..] == b.children;
    forall k
      ensures ConstKey(Merge(a, b), k) == MergedInTurn(ConstKey(a, k), ValuesUnder(b.children, k))
    {
      MergeKeysAt(a, b, 0, k);
    }
    if UniqueKeys(b.children) {
      forall j | 0 <= j < |b.children|
        ensures ConstKey(Merge(a, b), b.children[j].key) == Merge(ConstKey(a, b.children[j].key), b.children[j].value)
      {
        ValuesUnderUnique(b.children, j);
        MergeKeysAt(a, b, 0, b.children[j].key);
      }
    }
  }

  /**
   * The Array loop of merge from rhs child i on: the receiver grows to the longer of the two
   * lengths; each element from i on that rhs has is the merge of the receiver's element there
   * (Undefined when the receiver was shorter) with rhs's element, under the receiver's key; the
   * elements before i and those beyond rhs's length are untouched, and new slots have no key.
   */
  lemma {:induction false} MergeIndicesLength(acc: Value, b: Value, i: nat)
    requires acc.tag == Array && i <= |b.children| && i <= |acc.children|
    ensures var r := MergeIndices(acc, b, i);
      r.str == acc.str && r.num == acc.num &&
      |r.children| == (if |acc.children| < |b.children| then |b.children| else |acc.children|) &&
      (forall j | i <= j < |b.children| :: r.children[j].value == Merge(ConstIndex(acc, j), b.children[j].value)) &&
      (forall j | 0 <= j < |acc.children| && (j < i || j >= |b.children|) :: r.children[j] == acc.children[j]) &&
      (forall j | 0 <= j < |acc.children| :: r.children[j].key == acc.children[j].key) &&
      (forall j | |acc.children| <= j < |r.children| :: r.children[j].key == [])
    decreases |b.children| - i
  {
    if i < |b.children| {
      var grown := IndexAccess(acc, i);
      assert grown.children[i].value == ConstIndex(acc, i);
      var next := SetChild(grown, i, Merge(grown.children[i].value, b.children[i].value));
      MergeIndicesLength(next, b, i + 1);
      assert forall j | i < j < |b.children| :: ConstIndex(next, j) == ConstIndex(acc, j);
    }
  }

  /**
   * Array merge, stated on merge itself: rhs element i is merged into element i of the receiver
   * (an Undefined slot when the receiver is shorter), and the receiver's elements past rhs's
   * length are untouched.
   */
  lemma MergeIntoArray(a: Value, b: Value)
    requires a.tag == Array
    ensures var r := Merge(a, b);
      r.tag == Array && r.str == a.str && r.num == a.num &&
      |r.children| == (if |a.children| < |b.children| then |b.children| else |a.children|) &&
      (forall j | 0 <= j < |b.children| :: r.children[j].value == Merge(ConstIndex(a, j), b.children[j].value)) &&
      (forall j | |b.children| <= j < |a.children| :: r.children[j] == a.children[j]) &&
      (forall j | 0 <= j < |a.children| :: r.children[j].key == a.children[j].key) &&
      (forall j | |a.children| <= j < |r.children| :: r.children[j].key == [])
  {
    MergeIndicesLength(a, b, 0);
  }
}
