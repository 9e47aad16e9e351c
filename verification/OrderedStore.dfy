/**
 The ordered map a persister keeps (`std::map`): entries in strictly ascending key order.
 Iterating it forwards is walking the sequence from left to right.
 */
module OrderedStore {
  import opened Common

  datatype Entry<+V> = Entry(key: nat, value: V)

  ghost predicate Ascending<V>(s: seq<Entry<V>>) {
    forall i, j :: 0 <= i < j < |s| ==> s[i].key < s[j].key
  }

  function Lookup<V>(s: seq<Entry<V>>, key: nat): Option<V> {
    if s == [] then None
    else if s[0].key == key then Some(s[0].value)
    else Lookup(s[1..], key)
  }

  /** `std::map::insert`: a key that is already there keeps its value. */
  function Insert<V>(s: seq<Entry<V>>, key: nat, value: V): seq<Entry<V>> {
    if s == [] || key < s[0].key then [Entry(key, value)] + s
    else if key == s[0].key then s
    else [s[0]] + Insert(s[1..], key, value)
  }

  function LastKey<V>(s: seq<Entry<V>>): nat {
    if s == [] then 0 else s[|s| - 1].key
  }

  /** The last key is the greatest, and 0 if there is none. */
  lemma LastIsGreatest<V(!new)>(s: seq<Entry<V>>)
    requires Ascending(s)
    ensures if s == [] then LastKey(s) == 0 else (exists e <- s :: e.key == LastKey(s)) && forall e <- s :: e.key <= LastKey(s)
  {
    if s != [] { assert s[|s| - 1] in s; }
  }

  /** The entries whose keys lie in `lo..hi`, in order. */
  function Select<V>(s: seq<Entry<V>>, lo: nat, hi: nat): seq<Entry<V>> {
    if s == [] then []
    else (if lo <= s[0].key <= hi then [s[0]] else []) + Select(s[1..], lo, hi)
  }

  lemma {:induction false} LookupIsMembership<V(!new)>(s: seq<Entry<V>>, key: nat)
    requires Ascending(s)
    ensures Lookup(s, key).Some? ==> Entry(key, Lookup(s, key).value) in s
    ensures forall e <- s :: e.key == key ==> Lookup(s, key) == Some(e.value)
  {
    if s != [] {
      LookupIsMembership(s[1..], key);
      assert s == [s[0]] + s[1..];
    }
  }

  lemma HeadLeast<V(!new)>(s: seq<Entry<V>>)
    requires Ascending(s) && s != []
    ensures Ascending(s[1..]) && forall e <- s[1..] :: s[0].key < e.key
  {}

  lemma FirstLeast<V(!new)>(s: seq<Entry<V>>)
    requires Ascending(s) && s != []
    ensures forall e <- s :: s[0].key <= e.key
  {}

  lemma NoneAscending<V(!new)>()
    ensures Ascending<V>([])
  {}

  lemma ConsAscending<V(!new)>(e: Entry<V>, s: seq<Entry<V>>)
    requires Ascending(s) && forall x <- s :: e.key < x.key
    ensures Ascending([e] + s)
  {}

  lemma {:induction false} InsertLookup<V(!new)>(s: seq<Entry<V>>, key: nat, value: V, k: nat)
    ensures Lookup(Insert(s, key, value), k) ==
            if k == key && !HasBefore(s, key) then Some(value) else Lookup(s, k)
  {
    if s == [] || key < s[0].key {
      assert ([Entry(key, value)] + s)[1..] == s;
    } else if key > s[0].key {
      InsertLookup(s[1..], key, value, k);
    }
  }

  /** Ascending parts, the second above the first. */
  lemma AscendingConcat<V(!new)>(s: seq<Entry<V>>, t: seq<Entry<V>>, bound: nat)
    requires Ascending(s) && Ascending(t)
    requires (forall e <- s :: e.key < bound) && (forall e <- t :: bound <= e.key)
    ensures Ascending(s + t)
  {
  }

  /** The search that `Insert` makes finds the key. */
  predicate HasBefore<V>(s: seq<Entry<V>>, key: nat) {
    s != [] && s[0].key <= key && (s[0].key == key || HasBefore(s[1..], key))
  }

  lemma {:induction false} HasBeforeIsLookup<V(!new)>(s: seq<Entry<V>>, key: nat)
    requires Ascending(s)
    ensures HasBefore(s, key) <==> Lookup(s, key).Some?
  {
    if s != [] {
      if s[0].key > key {
        LookupIsMembership(s, key);
      } else {
        HasBeforeIsLookup(s[1..], key);
      }
    }
  }

  lemma {:induction false} InsertMembers<V(!new)>(s: seq<Entry<V>>, key: nat, value: V)
    ensures forall e :: e in Insert(s, key, value) <==> e in s || (e == Entry(key, value) && !HasBefore(s, key))
  {
    if s == [] || key < s[0].key {
    } else if key > s[0].key {
      InsertMembers(s[1..], key, value);
      assert s == [s[0]] + s[1..];
    }
  }

  lemma {:induction false} InsertAscending<V(!new)>(s: seq<Entry<V>>, key: nat, value: V)
    requires Ascending(s)
    ensures Ascending(Insert(s, key, value))
  {
    hide Ascending;
    if s == [] {
      NoneAscending<V>();
      ConsAscending(Entry(key, value), s);
    } else if key <= s[0].key {
      FirstLeast(s);
      if key < s[0].key { ConsAscending(Entry(key, value), s); }
    } else {
      HeadLeast(s);
      InsertAscending(s[1..], key, value);
      InsertMembers(s[1..], key, value);
      ConsAscending(s[0], Insert(s[1..], key, value));
    }
  }

  lemma InsertSound<V(!new)>(s: seq<Entry<V>>, key: nat, value: V)
    requires Ascending(s)
    ensures Ascending(Insert(s, key, value))
    ensures forall k :: Lookup(Insert(s, key, value), k) ==
                        if k == key && Lookup(s, key).None? then Some(value) else Lookup(s, k)
    ensures forall e :: e in Insert(s, key, value) <==> e in s || (e == Entry(key, value) && Lookup(s, key).None?)
  {
    InsertAscending(s, key, value);
    InsertMembers(s, key, value);
    HasBeforeIsLookup(s, key);
    forall k: nat ensures Lookup(Insert(s, key, value), k) ==
                     if k == key && Lookup(s, key).None? then Some(value) else Lookup(s, k) {
      InsertLookup(s, key, value, k);
    }
  }

  /** Inserting a key above every other appends. */
  lemma {:induction false} InsertAtEnd<V(!new)>(s: seq<Entry<V>>, key: nat, value: V)
    requires forall e <- s :: e.key < key
    ensures Insert(s, key, value) == s + [Entry(key, value)]
  {
    if s != [] {
      assert s == [s[0]] + s[1..];
      InsertAtEnd(s[1..], key, value);
    }
  }

  lemma {:induction false} SelectMembers<V(!new)>(s: seq<Entry<V>>, lo: nat, hi: nat)
    ensures forall e :: e in Select(s, lo, hi) <==> e in s && lo <= e.key <= hi
  {
    if s != [] {
      SelectMembers(s[1..], lo, hi);
      assert s == [s[0]] + s[1..];
    }
  }

  /** The selection is exactly the stored entries in the range, ascending, once each. */
  lemma {:induction false} SelectExact<V(!new)>(s: seq<Entry<V>>, lo: nat, hi: nat)
    requires Ascending(s)
    ensures Ascending(Select(s, lo, hi))
    ensures forall e :: e in Select(s, lo, hi) <==> e in s && lo <= e.key <= hi
  {
    hide Ascending;
    SelectMembers(s, lo, hi);
    if s != [] {
      HeadLeast(s);
      SelectExact(s[1..], lo, hi);
      ConsAscending(s[0], Select(s[1..], lo, hi));
      assert !(lo <= s[0].key <= hi) ==> Select(s, lo, hi) == Select(s[1..], lo, hi);
    } else {
      NoneAscending<V>();
    }
  }

  lemma {:induction false} SelectConcat<V(!new)>(s: seq<Entry<V>>, t: seq<Entry<V>>, lo: nat, hi: nat)
    ensures Select(s + t, lo, hi) == Select(s, lo, hi) + Select(t, lo, hi)
  {
    if s == [] {
      assert s + t == t;
    } else {
      assert (s + t)[1..] == s[1..] + t;
      SelectConcat(s[1..], t, lo, hi);
    }
  }

  lemma {:induction false} SelectNone<V(!new)>(s: seq<Entry<V>>, lo: nat, hi: nat)
    requires forall e <- s :: !(lo <= e.key <= hi)
    ensures Select(s, lo, hi) == []
  {
    if s != [] { SelectNone(s[1..], lo, hi); }
  }

  lemma {:induction false} SelectAll<V(!new)>(s: seq<Entry<V>>, lo: nat, hi: nat)
    requires forall e <- s :: lo <= e.key <= hi
    ensures Select(s, lo, hi) == s
  {
    if s != [] { SelectAll(s[1..], lo, hi); }
  }
}
