/**
 The three indexes of a message: fields by tag, fields by position, and the presence flags.
 */
module MessageIndex {
  import opened Common
  import opened Bytes

  /** A field object; messages hold references to fields. */
  class Field {
    const fnum: nat
    const value: Bytes

    constructor (fnum: nat, value: Bytes)
      ensures this.fnum == fnum && this.value == value
    {
      this.fnum, this.value := fnum, value;
    }
  }

  /** `_pos` is a multimap: ordered by position, equal positions in order of insertion. */
  datatype Slot = Slot(pos: nat, field: Field)

  predicate Ordered(s: seq<Slot>) { forall i, j :: 0 <= i < j < |s| ==> s[i].pos <= s[j].pos }

  predicate Distinct(s: seq<Slot>) { forall i, j :: 0 <= i < j < |s| ==> s[i].field != s[j].field }

  /** Multimap insertion: behind every entry with the same position. */
  function InsertSlot(s: seq<Slot>, e: Slot): seq<Slot> {
    if s == [] || e.pos < s[0].pos then [e] + s else [s[0]] + InsertSlot(s[1..], e)
  }

  predicate Holds(s: seq<Slot>, f: Field) { exists e <- s :: e.field == f }

  /** The index of the entry that holds `f`. */
  function SlotOf(s: seq<Slot>, f: Field): (i: nat)
    requires Holds(s, f)
    ensures i < |s| && s[i].field == f && forall j :: 0 <= j < i ==> s[j].field != f
  {
    if s[0].field == f then 0
    else
      assert Holds(s[1..], f) by { var e :| e in s && e.field == f; assert e in s[1..]; }
      1 + SlotOf(s[1..], f)
  }

  function Erase(s: seq<Slot>, i: nat): seq<Slot>
    requires i < |s|
  {
    s[..i] + s[i + 1..]
  }

  /** What `replace` makes of the entries: the one that holds `out` goes, and `with` is inserted at its position. */
  function Replaced(s: seq<Slot>, out: Field, with: Field): seq<Slot>
    requires Holds(s, out)
  {
    var i := SlotOf(s, out);
    InsertSlot(Erase(s, i), Slot(s[i].pos, with))
  }

  lemma {:induction false} InsertSlotHolds(s: seq<Slot>, e: Slot)
    ensures forall x <- InsertSlot(s, e) :: x == e || x in s
    ensures e in InsertSlot(s, e) && forall x <- s :: x in InsertSlot(s, e)
  {
    if s == [] || e.pos < s[0].pos {
    } else {
      InsertSlotHolds(s[1..], e);
      assert s == [s[0]] + s[1..] && InsertSlot(s, e)[1..] == InsertSlot(s[1..], e);
    }
  }

  lemma ConsOrdered(e: Slot, s: seq<Slot>)
    requires Ordered(s) && forall x <- s :: e.pos <= x.pos
    ensures Ordered([e] + s)
  {}

  lemma {:induction false} InsertSlotOrdered(s: seq<Slot>, e: Slot)
    requires Ordered(s)
    ensures Ordered(InsertSlot(s, e))
  {
    if s == [] || e.pos < s[0].pos {
    } else {
      var t := InsertSlot(s[1..], e);
      InsertSlotOrdered(s[1..], e);
      InsertSlotHolds(s[1..], e);
      assert forall x <- s[1..] :: s[0].pos <= x.pos;
      forall x | x in t ensures s[0].pos <= x.pos {
        assert x == e || x in s[1..];
      }
      ConsOrdered(s[0], t);
    }
  }

  lemma {:induction false} InsertSlotDistinct(s: seq<Slot>, e: Slot)
    requires Distinct(s) && !Holds(s, e.field)
    ensures Distinct(InsertSlot(s, e))
  {
    if s == [] || e.pos < s[0].pos {
      assert forall x <- s :: x.field != e.field;
    } else {
      assert !Holds(s[1..], e.field);
      InsertSlotDistinct(s[1..], e);
      InsertSlotHolds(s[1..], e);
      assert forall x <- s[1..] :: x.field != s[0].field;
      assert s[0] in s;
    }
  }

  /** The fields by tag and the fields by position are the same fields, each once. */
  ghost predicate Agree(fields: map<nat, Field>, s: seq<Slot>) {
    && (forall t <- fields :: fields[t].fnum == t && Holds(s, fields[t]))
    && (forall e <- s :: e.field.fnum in fields && fields[e.field.fnum] == e.field)
    && Distinct(s)
  }

  lemma EraseAgrees(fields: map<nat, Field>, s: seq<Slot>, i: nat)
    requires i < |s| && Agree(fields, s)
    ensures Agree(fields - {s[i].field.fnum}, Erase(s, i))
  {
    var r, rest := Erase(s, i), fields - {s[i].field.fnum};
    assert Distinct(r);
    assert s[i] in s;
    forall t | t in rest ensures Holds(r, rest[t]) {
      var j :| 0 <= j < |s| && s[j].field == fields[t];
      assert r[if j < i then j else j - 1] == s[j];
    }
    forall e | e in r ensures e.field.fnum in rest && rest[e.field.fnum] == e.field {
      var j :| 0 <= j < |r| && r[j] == e;
      assert e == s[if j < i then j else j + 1];
      assert e in s;
    }
  }

  lemma EraseOrdered(s: seq<Slot>, i: nat)
    requires i < |s| && Ordered(s)
    ensures Ordered(Erase(s, i))
  {
  }

  lemma AgreeAt(fields: map<nat, Field>, s: seq<Slot>, t: nat)
    requires Agree(fields, s) && t in fields
    ensures fields[t].fnum == t && Holds(s, fields[t])
  {
  }

  lemma AgreeIsDistinct(fields: map<nat, Field>, s: seq<Slot>)
    requires Agree(fields, s)
    ensures Distinct(s)
  {
  }

  lemma WrongTagDisagrees(fields: map<nat, Field>, s: seq<Slot>, t: nat)
    requires t in fields && fields[t].fnum != t
    ensures !Agree(fields, s)
  {
  }

  lemma InsertAgrees(fields: map<nat, Field>, s: seq<Slot>, e: Slot)
    requires Agree(fields, s) && e.field.fnum !in fields
    ensures Agree(fields[e.field.fnum := e.field], InsertSlot(s, e))
  {
    InsertSlotDistinct(s, e);
    InsertSlotHolds(s, e);
    forall t | t in fields ensures Holds(InsertSlot(s, e), fields[t]) {
      var x :| x in s && x.field == fields[t];
      assert x in InsertSlot(s, e);
    }
    assert e in InsertSlot(s, e);
    assert Holds(InsertSlot(s, e), e.field);
    forall x | x in InsertSlot(s, e) && x != e ensures x.field.fnum in fields && fields[x.field.fnum] == x.field {
      assert x in s;
    }
  }

  lemma TailOrdered(s: seq<Slot>, with: Field)
    requires s != [] && Ordered(s) && !Holds(s, with)
    ensures Ordered(s[1..]) && !Holds(s[1..], with) && forall e <- s :: e.field != with && s[0].pos <= e.pos
  {}

  lemma OrderedUpTo(s: seq<Slot>, i: nat)
    requires Ordered(s) && i < |s|
    ensures s[0].pos <= s[i].pos
  {}

  lemma InsertFirst(s: seq<Slot>, e: Slot)
    requires forall x <- s :: e.pos <= x.pos
    ensures s == [] || e.pos < s[0].pos ==> InsertSlot(s, e) == [e] + s
    ensures s != [] && e.pos >= s[0].pos ==> InsertSlot(s, e) != [] && InsertSlot(s, e)[0] == s[0]
  {}

  lemma InsertBehindFirst(s: seq<Slot>, e: Slot)
    requires s != [] && s[0].pos <= e.pos
    ensures InsertSlot(s, e) == [s[0]] + InsertSlot(s[1..], e)
  {}

  /** Erasing an entry and inserting another at its position puts it in the same place exactly when no later entry
      shares the position. */
  lemma {:induction false} ReplaceInPlace(s: seq<Slot>, i: nat, with: Field)
    requires i < |s| && Ordered(s) && !Holds(s, with)
    ensures InsertSlot(Erase(s, i), Slot(s[i].pos, with)) == s[i := Slot(s[i].pos, with)]
            <==> (i + 1 == |s| || s[i].pos < s[i + 1].pos)
  {
    hide InsertSlot, Ordered, Holds, Erase;
    TailOrdered(s, with);
    var e := Slot(s[i].pos, with);
    if i == 0 {
      ReplaceFirst(s, with);
    } else {
      ReplaceInPlace(s[1..], i - 1, with);
      OrderedUpTo(s, i);
      EraseRest(s, i);
      InsertBehindFirst(Erase(s, i), e);
      SameRest(s, i, e, InsertSlot(Erase(s[1..], i - 1), e));
    }
  }

  lemma ReplaceFirst(s: seq<Slot>, with: Field)
    requires s != [] && forall e <- s :: e.field != with && s[0].pos <= e.pos
    ensures var e := Slot(s[0].pos, with);
            InsertSlot(Erase(s, 0), e) == s[0 := e] <==> (|s| == 1 || s[0].pos < s[1].pos)
  {
    var e := Slot(s[0].pos, with);
    assert Erase(s, 0) == s[1..] && s[0 := e] == [e] + s[1..];
    forall x | x in s[1..] ensures e.pos <= x.pos { assert x in s; }
    InsertFirst(s[1..], e);
    hide InsertSlot, Erase;
    if 1 < |s| && s[0].pos == s[1].pos { assert s[1] in s; }
  }

  lemma EraseRest(s: seq<Slot>, i: nat)
    requires 0 < i < |s|
    ensures Erase(s, i) != [] && Erase(s, i)[0] == s[0] && Erase(s, i)[1..] == Erase(s[1..], i - 1)
  {}

  lemma SameRest(s: seq<Slot>, i: nat, e: Slot, r: seq<Slot>)
    requires 0 < i < |s|
    ensures [s[0]] + r == s[i := e] <==> r == s[1..][i - 1 := e]
  {
    assert s[i := e] == [s[0]] + s[1..][i - 1 := e];
    assert ([s[0]] + r)[1..] == r && ([s[0]] + s[1..][i - 1 := e])[1..] == s[1..][i - 1 := e];
  }

  /** The new entry stands behind all entries whose position is not greater, and before the first that is. */
  lemma {:induction false} InsertSlotAt(s: seq<Slot>, e: Slot) returns (k: nat)
    ensures k <= |s| && InsertSlot(s, e) == s[..k] + [e] + s[k..]
    ensures (forall j :: 0 <= j < k ==> s[j].pos <= e.pos) && (k < |s| ==> e.pos < s[k].pos)
  {
    if s == [] || e.pos < s[0].pos {
      k := 0;
    } else {
      var m := InsertSlotAt(s[1..], e);
      k := m + 1;
      assert s[..k] == [s[0]] + s[1..][..m] && s[k..] == s[1..][m..];
    }
  }

  /** One entry has a new field at the old one's position; the others are as they were, in the same order. */
  ghost predicate Swapped(s: seq<Slot>, r: seq<Slot>, out: Field, with: Field) {
    && |r| == |s|
    && (forall e <- s :: (if e.field == out then Slot(e.pos, with) else e) in r)
    && (exists i, j ::
          && 0 <= i < |s| && 0 <= j < |r| && s[i].field == out && r[j] == Slot(s[i].pos, with)
          && Erase(r, j) == Erase(s, i))
  }

  /** The new field stands where the old one stood exactly when no later entry shares its position. */
  ghost predicate PlaceKept(s: seq<Slot>, r: seq<Slot>, out: Field, with: Field) {
    && Holds(s, out)
    && (!Holds(s, with) ==>
          var i := SlotOf(s, out);
          (r == s[i := Slot(s[i].pos, with)] <==> (i + 1 == |s| || s[i].pos < s[i + 1].pos)))
  }

  /** `replace` on distinct fields: only that entry changes; it keeps its place exactly when no later one shares its
      position. */
  lemma ReplacedExactly(s: seq<Slot>, out: Field, with: Field)
    requires Holds(s, out) && Distinct(s)
    ensures Swapped(s, Replaced(s, out, with), out, with)
    ensures Ordered(s) ==> PlaceKept(s, Replaced(s, out, with), out, with)
  {
    var i, r := SlotOf(s, out), Replaced(s, out, with);
    var e := Slot(s[i].pos, with);
    if Ordered(s) && !Holds(s, with) { ReplaceInPlace(s, i, with); }
    var k := InsertSlotAt(Erase(s, i), e);
    OnlyOne(s, i);
    hide InsertSlot, Holds, Erase, Ordered, Distinct, Swapped;
    SwappedByInsert(s, i, k, with, r);
  }

  lemma ReplacedIs(s: seq<Slot>, out: Field, with: Field)
    requires Holds(s, out)
    ensures var i := SlotOf(s, out); Replaced(s, out, with) == InsertSlot(Erase(s, i), Slot(s[i].pos, with))
  {}

  lemma OnlyOne(s: seq<Slot>, i: nat)
    requires i < |s| && Distinct(s)
    ensures forall j :: 0 <= j < |s| && s[j].field == s[i].field ==> j == i
  {}

  lemma SwappedByInsert(s: seq<Slot>, i: nat, k: nat, with: Field, r: seq<Slot>)
    requires i < |s| && k <= |Erase(s, i)|
    requires forall j :: 0 <= j < |s| && s[j].field == s[i].field ==> j == i
    requires r == Erase(s, i)[..k] + [Slot(s[i].pos, with)] + Erase(s, i)[k..]
    ensures Swapped(s, r, s[i].field, with)
  {
    var rest := Erase(s, i);
    assert r[k] == Slot(s[i].pos, with) && Erase(r, k) == rest;
    forall x | x in s ensures (if x.field == s[i].field then Slot(x.pos, with) else x) in r {
      var m :| 0 <= m < |s| && s[m] == x;
      if m != i {
        var n := if m < i then m else m - 1;
        assert rest[n] == x;
        assert r[if n < k then n else n + 1] == x;
      }
    }
  }

  /** Every field stands at the position that the schema gives its tag. */
  ghost predicate Placed(legal: map<nat, nat>, s: seq<Slot>) {
    forall e <- s :: e.field.fnum in legal && e.pos == legal[e.field.fnum]
  }

  lemma SwappedIsPlaced(legal: map<nat, nat>, s: seq<Slot>, r: seq<Slot>, out: Field, with: Field)
    requires Swapped(s, r, out, with) && Placed(legal, s) && out.fnum == with.fnum
    ensures Placed(legal, r)
  {
    var i, j :| 0 <= i < |s| && 0 <= j < |r| && s[i].field == out && r[j] == Slot(s[i].pos, with) && Erase(r, j) == Erase(s, i);
    assert s[i] in s;
    forall e | e in r ensures e.field.fnum in legal && e.pos == legal[e.field.fnum] {
      var m :| 0 <= m < |r| && r[m] == e;
      if m != j {
        assert e == Erase(r, j)[if m < j then m else m - 1];
        assert e in Erase(s, i) && e in s;
      }
    }
  }

  class MessageBase {
    /** The schema: which tags are legal, and the position of each. */
    const legal: map<nat, nat>
    var fields: map<nat, Field>
    var positions: seq<Slot>
    var present: set<nat>

    constructor (legal: map<nat, nat>)
      ensures Valid() && fields == map[] && positions == [] && this.legal == legal
    {
      this.legal := legal;
      fields, positions, present := map[], [], {};
    }

    /** The flags are the keys of `fields`, and `positions` holds exactly the values of `fields`, each once. */
    ghost predicate Valid()
      reads this
    {
      && present == fields.Keys && fields.Keys <= legal.Keys
      && Agree(fields, positions) && Ordered(positions)
    }

    /** The fields are encoded in schema order. */
    ghost predicate InSchemaOrder()
      reads this
    {
      Placed(legal, positions)
    }

    /** The checked `add_field`: an illegal tag throws, a tag already present is replaced, another is inserted. */
    method AddField(what: Field) returns (ok: bool, replaced: Option<Field>)
      requires Valid()
      modifies this`fields, this`positions, this`present
      ensures Valid()
      ensures ok <==> what.fnum in legal
      ensures !ok ==> fields == old(fields) && positions == old(positions) && replaced == None
      ensures ok ==> fields == old(fields)[what.fnum := what] && present == old(present) + {what.fnum}
      ensures ok && what.fnum !in old(fields) ==>
                replaced == None && positions == InsertSlot(old(positions), Slot(legal[what.fnum], what))
      ensures ok && what.fnum in old(fields) ==>
                && replaced == Some(old(fields)[what.fnum])
                && positions == Replaced(old(positions), old(fields)[what.fnum], what)
                && Swapped(old(positions), positions, old(fields)[what.fnum], what)
                && PlaceKept(old(positions), positions, old(fields)[what.fnum], what)
      ensures old(InSchemaOrder()) ==> InSchemaOrder()
    {
      hide InsertSlot, Ordered, Agree, Swapped, PlaceKept, Replaced;
      if what.fnum !in legal {
        return false, None;
      }
      if what.fnum in present {
        replaced := Replace(what.fnum, what);
        return true, replaced;
      }
      InsertAgrees(fields, positions, Slot(legal[what.fnum], what));
      InsertSlotOrdered(positions, Slot(legal[what.fnum], what));
      InsertSlotHolds(positions, Slot(legal[what.fnum], what));
      fields := fields[what.fnum := what];
      positions := InsertSlot(positions, Slot(legal[what.fnum], what));
      present := present + {what.fnum};
      return true, None;
    }

    /** `replace`: the new field takes over the old one's position; nothing happens for an absent tag. The tag of the
        new field is not looked at: the indexes stay in agreement exactly when it is the one replaced. */
    method Replace(fnum: nat, with: Field) returns (was: Option<Field>)
      requires Valid()
      modifies this`fields, this`positions, this`present
      ensures Valid() <==> fnum !in old(fields) || with.fnum == fnum
      ensures fnum !in old(fields) ==> was == None && fields == old(fields) && positions == old(positions)
      ensures fnum in old(fields) ==>
                && was == Some(old(fields)[fnum]) && fields == old(fields)[fnum := with] && present == old(present)
                && positions == Replaced(old(positions), old(fields)[fnum], with)
                && Swapped(old(positions), positions, old(fields)[fnum], with)
                && PlaceKept(old(positions), positions, old(fields)[fnum], with)
      ensures old(InSchemaOrder()) && with.fnum == fnum ==> InSchemaOrder()
    {
      ghost var before := positions;
      hide Placed, Swapped, PlaceKept, Replaced, Distinct, InsertSlot, Erase, Ordered, Agree;
      if fnum !in fields {
        return None;
      }
      AgreeAt(fields, positions, fnum);
      var out := fields[fnum];
      var i := Locate(out);
      var pos := positions[i].pos;
      ReplacedIs(positions, out, with);
      EraseAgrees(fields, positions, i);
      EraseOrdered(positions, i);
      positions := Erase(positions, i);
      if with.fnum == fnum { InsertAgrees(fields - {fnum}, positions, Slot(pos, with)); }
      InsertSlotOrdered(positions, Slot(pos, with));
      positions := InsertSlot(positions, Slot(pos, with));
      assert fields[fnum := with] == (fields - {fnum})[fnum := with];
      fields := fields[fnum := with];
      present := present + {fnum};
      assert present == fields.Keys;
      if with.fnum != fnum { WrongTagDisagrees(fields, positions, fnum); }
      AgreeIsDistinct(old(fields), before);
      ReplacedExactly(before, out, with);
      if Placed(legal, before) && with.fnum == fnum { SwappedIsPlaced(legal, before, positions, out, with); }
      return Some(out);
    }

    method Remove(fnum: nat) returns (was: Option<Field>)
      requires Valid()
      modifies this`fields, this`positions, this`present
      ensures Valid()
      ensures fnum !in old(fields) ==> was == None && fields == old(fields) && positions == old(positions)
      ensures fnum in old(fields) ==>
                && was == Some(old(fields)[fnum]) && fields == old(fields) - {fnum} && present == old(present) - {fnum}
                && positions == Erase(old(positions), SlotOf(old(positions), old(fields)[fnum]))
      ensures old(InSchemaOrder()) ==> InSchemaOrder()
    {
      if fnum !in fields {
        return None;
      }
      var out := fields[fnum];
      var i := Locate(out);
      EraseAgrees(fields, positions, i);
      EraseOrdered(positions, i);
      positions := Erase(positions, i);
      present := present - {fnum};
      fields := fields - {fnum};
      return Some(out);
    }

    /** The walk along `_pos` that looks for a field object. */
    method Locate(f: Field) returns (i: nat)
      requires Holds(positions, f)
      ensures i == SlotOf(positions, f)
    {
      i := 0;
      while positions[i].field != f
        invariant i <= SlotOf(positions, f)
        decreases |positions| - i
      {
        i := i + 1;
      }
    }
  }
}
