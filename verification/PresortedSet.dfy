/**
 The growable sorted array set that holds the field traits, refined against a mathematical set.
 */
module PresortedSet {
  import opened Common

  /** An element: `key` is what the comparator looks at. */
  datatype Element = Element(key: int, payload: int)

  predicate Sorted(s: seq<Element>) { forall i, j :: 0 <= i < j < |s| ==> s[i].key < s[j].key }

  function ToSet(s: seq<Element>): set<Element> { set e | e in s }

  predicate HasKey(m: set<Element>, key: int) { exists e <- m :: e.key == key }

  /** A sorted array is determined by the set it stands for: the array is the only one its set has. */
  lemma {:induction false} SortedIsDetermined(s: seq<Element>, t: seq<Element>)
    requires Sorted(s) && Sorted(t) && ToSet(s) == ToSet(t)
    ensures s == t
  {
    SameMembers(s, t);
    if s == [] {
    } else {
      var e := t[0];
      assert s[0] == e;
      TailOfSorted(s);
      TailOfSorted(t);
      SortedIsDetermined(s[1..], t[1..]);
      assert s == [e] + s[1..] && t == [e] + t[1..];
    }
  }

  lemma SameMembers(s: seq<Element>, t: seq<Element>)
    requires ToSet(s) == ToSet(t)
    ensures forall e :: e in s <==> e in t
    ensures |s| > 0 ==> |t| > 0 && s[0] in t
    ensures |t| > 0 ==> |s| > 0 && t[0] in s
  {
    assert forall e :: e in s <==> e in ToSet(s);
    assert forall e :: e in t <==> e in ToSet(t);
    assert |s| > 0 ==> s[0] in ToSet(s);
    assert |t| > 0 ==> t[0] in ToSet(t);
  }

  lemma TailOfSorted(s: seq<Element>)
    requires Sorted(s) && s != []
    ensures Sorted(s[1..]) && ToSet(s[1..]) == ToSet(s) - {s[0]}
  {
    assert forall e <- s :: e != s[0] ==> e in s[1..];
  }

  /** The number of elements to make room for beyond those there are: a percentage, at least one; of an empty set,
      exactly `reserve`. */
  function Reserve(size: nat, reserve: nat): (extra: nat)
    ensures extra >= 1 <==> size > 0 || reserve > 0
    ensures if size == 0 then extra == reserve
            else size * reserve < (extra + 1) * 100 && (extra == 1 || extra * 100 <= size * reserve)
  {
    if size == 0 then reserve
    else if size * reserve / 100 > 0 then size * reserve / 100
    else 1
  }

  /** The place of `key` in an array: every key before it is smaller, every key from it on is not. */
  predicate IsPlace(s: seq<Element>, key: int, at: nat) {
    && at <= |s|
    && (forall i :: 0 <= i < at ==> s[i].key < key)
    && (forall i :: at <= i < |s| ==> key <= s[i].key)
  }

  /** The key can only be at its place. */
  lemma PlaceDecides(s: seq<Element>, key: int, at: nat)
    requires Sorted(s) && IsPlace(s, key, at)
    ensures HasKey(ToSet(s), key) <==> at < |s| && s[at].key == key
  {
    if at < |s| && s[at].key == key {
      assert s[at] in ToSet(s);
    }
    if HasKey(ToSet(s), key) {
      var e :| e in ToSet(s) && e.key == key;
      var i :| 0 <= i < |s| && s[i] == e;
      assert i >= at;
    }
  }

  lemma InsertedAt(s: seq<Element>, e: Element, at: nat)
    requires Sorted(s) && IsPlace(s, e.key, at) && (at < |s| ==> s[at].key != e.key)
    ensures Sorted(s[..at] + [e] + s[at..])
    ensures ToSet(s[..at] + [e] + s[at..]) == ToSet(s) + {e}
  {
    assert at < |s| ==> e.key < s[at].key;
    assert s == s[..at] + s[at..];
  }

  /** How many elements of a range are added: those before the first whose key is already there. */
  function Accepted(m: set<Element>, what: seq<Element>): (n: nat)
    ensures n <= |what|
    decreases |what|
  {
    if what == [] || HasKey(m, what[0].key) then 0 else 1 + Accepted(m + {what[0]}, what[1..])
  }

  /** The first `n` elements have keys that are new to `m` and differ from each other. */
  predicate NewKeys(m: set<Element>, what: seq<Element>, n: nat)
    requires n <= |what|
  {
    && (forall i :: 0 <= i < n ==> !HasKey(m, what[i].key))
    && (forall i, j :: 0 <= i < j < n ==> what[i].key != what[j].key)
  }

  /** The accepted elements are the longest prefix without a key that is repeated or already there. */
  lemma {:induction false} AcceptedExact(m: set<Element>, what: seq<Element>)
    ensures NewKeys(m, what, Accepted(m, what))
    ensures Accepted(m, what) < |what| ==> !NewKeys(m, what, Accepted(m, what) + 1)
    decreases |what|
  {
    if what == [] || HasKey(m, what[0].key) {
    } else {
      var rest, n := what[1..], Accepted(m, what);
      AcceptedExact(m + {what[0]}, rest);
      NewKeysStep(m, what, n - 1);
      if n < |what| { NewKeysStep(m, what, n); }
    }
  }

  lemma NewKeysStep(m: set<Element>, what: seq<Element>, n: nat)
    requires n < |what| && !HasKey(m, what[0].key)
    ensures NewKeys(m + {what[0]}, what[1..], n) <==> NewKeys(m, what, n + 1)
  {
    var m', rest := m + {what[0]}, what[1..];
    assert forall k :: HasKey(m', k) <==> HasKey(m, k) || k == what[0].key by {
      assert forall k :: HasKey(m, k) ==> HasKey(m', k) by {
        forall k | HasKey(m, k) ensures HasKey(m', k) { var e :| e in m && e.key == k; assert e in m'; }
      }
      assert what[0] in m';
    }
    if NewKeys(m', rest, n) {
      forall i | 0 <= i < n + 1 ensures !HasKey(m, what[i].key) {
        if i > 0 { assert !HasKey(m', rest[i - 1].key); }
      }
      forall i, j | 0 <= i < j < n + 1 ensures what[i].key != what[j].key {
        assert !HasKey(m', rest[j - 1].key);
        if i > 0 { assert rest[i - 1].key != rest[j - 1].key; }
      }
    }
    if NewKeys(m, what, n + 1) {
      forall i | 0 <= i < n ensures !HasKey(m', rest[i].key) {
        assert !HasKey(m, what[i + 1].key) && what[0].key != what[i + 1].key;
      }
    }
  }

  /** Accepting one more element of a range. */
  lemma {:induction false} AcceptedStep(m: set<Element>, what: seq<Element>, i: nat)
    requires i < |what| && i <= Accepted(m, what)
    ensures i < Accepted(m, what) <==> !HasKey(m + ToSet(what[..i]), what[i].key)
    decreases i
  {
    if i == 0 {
      assert m + ToSet(what[..0]) == m;
    } else {
      AcceptedStep(m + {what[0]}, what[1..], i - 1);
      assert what[..i] == [what[0]] + what[1..][..i - 1];
      assert m + ToSet(what[..i]) == m + {what[0]} + ToSet(what[1..][..i - 1]);
    }
  }

  lemma NoneAdded(m: set<Element>, what: seq<Element>)
    ensures m + ToSet(what[..0]) == m
  {}

  lemma OneAdded(m: set<Element>, what: seq<Element>, i: nat)
    requires i < |what|
    ensures m + ToSet(what[..i + 1]) == m + ToSet(what[..i]) + {what[i]}
  {
    assert what[..i + 1] == what[..i] + [what[i]];
  }

  /** `memmove` by one place: the source and the target overlap, so it runs from the end. */
  method MoveUp(a: array<Element>, from: nat, to: nat)
    requires from <= to < a.Length
    modifies a
    ensures a[..from] == old(a[..from]) && a[from + 1..to + 1] == old(a[from..to])
  {
    var i := to;
    while i > from
      invariant from <= i <= to
      invariant forall k :: 0 <= k < i ==> a[k] == old(a[k])
      invariant forall k :: i < k <= to ==> a[k] == old(a[k - 1])
    {
      a[i] := a[i - 1];
      i := i - 1;
    }
  }

  lemma SplitAt(s: seq<Element>, at: nat)
    requires at < |s|
    ensures s == s[..at] + [s[at]] + s[at + 1..]
  {}

  class Set {
    const reserve: nat
    var size: nat
    var capacity: nat
    var elements: array<Element>

    ghost predicate Valid()
      reads this, elements
    {
      && size <= capacity
      && (size > 0 ==> elements.Length == capacity)
      && Sorted(Contents())
    }

    /** The next insert has room. */
    predicate HasRoom()
      reads this
    {
      capacity > 0
    }

    ghost function Contents(): (s: seq<Element>)
      reads this, elements
    {
      if size <= elements.Length then elements[..size] else []
    }

    /** An empty set; the array is allocated by the first insert, which has room in it only if some was reserved. */
    constructor Empty(reserve: nat)
      ensures Valid() && fresh(elements) && Contents() == [] && this.reserve == reserve
      ensures HasRoom() <==> reserve > 0
      ensures capacity == Reserve(0, reserve)
    {
      this.reserve, size, capacity := reserve, 0, Reserve(0, reserve);
      elements := new Element[0];
    }

    /** A set made from a sorted array of elements. */
    constructor (from: seq<Element>, reserve: nat)
      requires Sorted(from)
      ensures Valid() && fresh(elements) && Contents() == from && this.reserve == reserve
      ensures HasRoom() <==> from != [] || reserve > 0
      ensures capacity == |from| + Reserve(|from|, reserve)
    {
      this.reserve, size, capacity := reserve, |from|, |from| + Reserve(|from|, reserve);
      var filler := Element(0, 0);
      elements := new Element[|from| + Reserve(|from|, reserve)](i => if 0 <= i < |from| then from[i] else filler);
      new;
      assert elements[..size] == from;
    }

    /** The binary search: the place of the key, and whether it is there. */
    method Find(key: int) returns (at: nat, answer: bool)
      requires Valid()
      ensures IsPlace(Contents(), key, at)
      ensures answer <==> HasKey(ToSet(Contents()), key)
      ensures answer <==> at < size && Contents()[at].key == key
    {
      at := LowerBound(key);
      PlaceDecides(Contents(), key, at);
      answer := at < size && elements[at].key == key;
    }

    method LowerBound(key: int) returns (at: nat)
      requires Valid()
      ensures IsPlace(Contents(), key, at)
    {
      at := 0;
      var count := size;
      while count > 0
        invariant at + count <= size
        invariant forall i :: 0 <= i < at ==> elements[i].key < key
        invariant forall i :: at + count <= i < size ==> key <= elements[i].key
      {
        var half := count / 2;
        var mid := at + half;
        assert forall i, j :: 0 <= i < j < size ==> elements[i].key < elements[j].key by {
          assert forall i :: 0 <= i < size ==> Contents()[i] == elements[i];
        }
        if elements[mid].key < key {
          at, count := mid + 1, count - half - 1;
        } else {
          count := half;
        }
      }
    }

    /** Adds an element with a new key, in place while there is room and in a larger array otherwise; refuses a key
        already there. `at` is where the returned iterator points; after a reallocation it points into the array that
        was freed. */
    method Insert(what: Element) returns (added: bool, at: Option<nat>)
      requires Valid() && HasRoom()
      modifies this`size, this`capacity, this`elements, elements
      ensures Valid() && HasRoom() && (elements == old(elements) || fresh(elements))
      ensures added <==> !HasKey(old(ToSet(Contents())), what.key)
      ensures !added ==> Contents() == old(Contents()) && capacity == old(capacity) && at == Some(size)
      ensures added ==> (at.None? <==> old(size) > 0 && old(size) == old(capacity))
      ensures capacity == if added && at.None? then old(size) + Reserve(old(size), reserve) else old(capacity)
      ensures added && at.Some? ==> at.value < size && Contents()[at.value] == what
      ensures added ==> ToSet(Contents()) == old(ToSet(Contents())) + {what} && size == old(size) + 1
    {
      if size == 0 {
        elements := new Element[capacity](i => what);
        size := 1;
        assert Contents() == [what];
        return true, Some(0);
      }
      var place, answer := Find(what.key);
      if answer {
        return false, Some(size);
      }
      InsertedAt(Contents(), what, place);
      if size < capacity {
        InsertInPlace(place, what);
        return true, Some(place);
      } else {
        InsertInLarger(place, what);
        return true, None;
      }
    }

    /** Moves the tail one place up and writes the element into the gap. */
    method InsertInPlace(at: nat, what: Element)
      requires at <= size < elements.Length
      modifies elements, this`size
      ensures size == old(size) + 1 && Contents() == old(Contents()[..at] + [what] + Contents()[at..])
    {
      MoveUp(elements, at, size);
      elements[at] := what;
      size := size + 1;
      SplitAt(elements[..size], at);
    }

    /** Copies into a larger array, leaving the gap for the element: the same contents. */
    method InsertInLarger(at: nat, what: Element)
      requires at <= size == elements.Length && size > 0
      modifies this`capacity, this`elements, this`size
      ensures fresh(elements) && elements.Length == capacity && capacity == old(size) + Reserve(old(size), reserve)
      ensures size <= capacity
      ensures size == old(size) + 1 && Contents() == old(Contents()[..at] + [what] + Contents()[at..])
    {
      capacity := size + Reserve(size, reserve);
      var larger := new Element[capacity](i => what);
      forall i | 0 <= i < at { larger[i] := elements[i]; }
      forall i | at <= i < size { larger[i + 1] := elements[i]; }
      elements := larger;
      size := size + 1;
    }

    /** Inserts one by one and stops at the first key that is already there. */
    method InsertRange(what: seq<Element>)
      requires Valid() && (what != [] ==> HasRoom())
      modifies this`size, this`capacity, this`elements, elements
      ensures Valid() && HasRoom() == old(HasRoom()) && (elements == old(elements) || fresh(elements))
      ensures var m := old(ToSet(Contents())); ToSet(Contents()) == m + ToSet(what[..Accepted(m, what)])
    {
      hide ToSet, Sorted, Accepted, HasKey;
      var i := 0;
      ghost var m := ToSet(Contents());
      NoneAdded(m, what);
      while i < |what|
        invariant i <= |what| && Valid() && HasRoom() == old(HasRoom()) && (elements == old(elements) || fresh(elements))
        invariant i <= Accepted(m, what) && ToSet(Contents()) == m + ToSet(what[..i])
      {
        AcceptedStep(m, what, i);
        var added, _ := Insert(what[i]);
        if !added {
          break;
        }
        OneAdded(m, what, i);
        i := i + 1;
      }
    }

    /** `clear`: the array stays, and the next insert allocates another. */
    method Clear()
      requires Valid()
      modifies this`size
      ensures Valid() && Contents() == [] && HasRoom() == old(HasRoom())
    {
      size := 0;
    }
  }
}
