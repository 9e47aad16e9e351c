/**
 Copying the fields of one message into another, and cloning, on message trees.
 */
module Clone {
  import opened Common
  import opened Bytes
  import opened Codec

  predicate Has(fs: seq<Field>, tag: nat) { exists f <- fs :: f.tag == tag }

  function IndexOf(fs: seq<Field>, tag: nat): (i: nat)
    requires Has(fs, tag)
    ensures i < |fs| && fs[i].tag == tag && forall j :: 0 <= j < i ==> fs[j].tag != tag
  {
    if fs[0].tag == tag then 0
    else
      assert Has(fs[1..], tag) by { var f :| f in fs && f.tag == tag; assert f in fs[1..]; }
      1 + IndexOf(fs[1..], tag)
  }

  function Get(fs: seq<Field>, tag: nat): (f: Field)
    requires Has(fs, tag)
    ensures f in fs && f.tag == tag
  {
    fs[IndexOf(fs, tag)]
  }

  /** The tags of a message's fields, ascending: the order in which the presence array is walked. */
  function SortedTags(fs: seq<Field>): seq<nat> {
    if fs == [] then [] else InsertTag(fs[0].tag, SortedTags(fs[1..]))
  }

  function InsertTag(tag: nat, s: seq<nat>): seq<nat> {
    if s == [] || tag < s[0] then [tag] + s else [s[0]] + InsertTag(tag, s[1..])
  }

  /** Adds a field behind the fields whose position is not higher. */
  function InsertField(target: Schema, fs: seq<Field>, f: Field): seq<Field> {
    if fs == [] || Position(target, f.tag) < Position(target, fs[0].tag) then [f] + fs
    else [fs[0]] + InsertField(target, fs[1..], f)
  }

  /** `replace` for a field already there, which leaves its group and only adds instances to it, and `add_field`
      otherwise. */
  function Place(target: Schema, to: seq<Field>, f: Field): seq<Field> {
    if Has(to, f.tag) then
      var i := IndexOf(to, f.tag);
      to[i := f.(insts := to[i].insts + f.insts)]
    else InsertField(target, to, f)
  }

  /** `Illegal`: the target refuses the field. `NoGroup`: the target has no group object for the instances, which the
      source does not check. */
  datatype Copy<+T> = Copied(value: T, count: nat) | Illegal(tag: nat) | NoGroup(tag: nat)

  /** `copy_legal` for the fields of `from` with the given tags. */
  function CopyAll(target: Schema, tags: seq<nat>, from: seq<Field>, to: seq<Field>, force: bool): Copy<seq<Field>>
    requires forall t <- tags :: Has(from, t)
    decreases from, 1, |tags|
  {
    if tags == [] then Copied(to, 0)
    else
      var f := Get(from, tags[0]);
      if !force && (f.tag !in target.traits || Has(to, f.tag)) then CopyAll(target, tags[1..], from, to, force)
      else
        match CopyField(target, f, force)
        case Illegal(t) => Illegal(t)
        case NoGroup(t) => NoGroup(t)
        case Copied(g, n) =>
          var r := CopyAll(target, tags[1..], from, Place(target, to, g), force);
          if r.Copied? then Copied(r.value, n + r.count) else r
  }

  /** The copy of one field, and the number of fields in it. */
  function CopyField(target: Schema, f: Field, force: bool): (c: Copy<Field>)
    ensures c.Copied? ==> f.tag in target.traits && c.value.tag == f.tag && c.value.value == f.value
    decreases f, 0
  {
    var group := if f.tag in target.traits then target.traits[f.tag].group else None;
    if f.hasGroup && f.insts != [] && group.None? then NoGroup(f.tag)
    else if f.tag !in target.traits then Illegal(f.tag)
    else if !f.hasGroup || f.insts == [] then Copied(Field(f.tag, f.value, group.Some?, []), 1)
    else
      match CopyInsts(group.value, f.insts, force)
      case Illegal(t) => Illegal(t)
      case NoGroup(t) => NoGroup(t)
      case Copied(insts, n) => Copied(Field(f.tag, f.value, true, insts), n + 1)
  }

  function CopyInsts(g: Schema, insts: seq<Inst>, force: bool): Copy<seq<Inst>>
    decreases insts, 0
  {
    if insts == [] then Copied([], 0)
    else
      SortedTagsAre(insts[0].fields);
      match CopyAll(g, SortedTags(insts[0].fields), insts[0].fields, [], force)
      case Illegal(t) => Illegal(t)
      case NoGroup(t) => NoGroup(t)
      case Copied(fields, n) =>
        var r := CopyInsts(g, insts[1..], force);
        if r.Copied? then Copied([Inst(fields)] + r.value, n + r.count) else r
  }

  function CopyLegal(target: Schema, from: seq<Field>, to: seq<Field>, force: bool): Copy<seq<Field>> {
    SortedTagsAre(from);
    CopyAll(target, SortedTags(from), from, to, force)
  }

  predicate AscendingTags(s: seq<nat>) { forall i, j :: 0 <= i < j < |s| ==> s[i] <= s[j] }

  lemma {:induction false} SortedTagsAre(fs: seq<Field>)
    ensures forall t :: t in SortedTags(fs) <==> Has(fs, t)
    ensures AscendingTags(SortedTags(fs))
  {
    if fs != [] {
      SortedTagsAre(fs[1..]);
      InsertTagAre(fs[0].tag, SortedTags(fs[1..]));
      forall t ensures Has(fs, t) <==> t == fs[0].tag || Has(fs[1..], t) {
        if t == fs[0].tag { assert fs[0] in fs; }
        if Has(fs[1..], t) { var f :| f in fs[1..] && f.tag == t; assert f in fs; }
      }
    }
  }

  lemma {:induction false} InsertTagAre(tag: nat, s: seq<nat>)
    requires AscendingTags(s)
    ensures forall t :: t in InsertTag(tag, s) <==> t == tag || t in s
    ensures AscendingTags(InsertTag(tag, s)) && |InsertTag(tag, s)| == |s| + 1
  {
    if s == [] || tag < s[0] {
    } else {
      var r := InsertTag(tag, s[1..]);
      InsertTagAre(tag, s[1..]);
      assert s == [s[0]] + s[1..];
      forall i | 0 <= i < |r| ensures s[0] <= r[i] {
        assert r[i] in r;
      }
    }
  }

  /** Fields in place have different tags, and so do not repeat one in the sorted list. */
  lemma {:induction false} SortedTagsDistinct(schema: Schema, fs: seq<Field>)
    requires InPlace(schema, fs)
    ensures Distinct(SortedTags(fs))
  {
    if fs != [] {
      var rest := SortedTags(fs[1..]);
      assert forall f <- fs[1..] :: f in fs;
      SortedTagsDistinct(schema, fs[1..]);
      SortedTagsAre(fs[1..]);
      assert fs[0].tag !in rest;
      InsertTagDistinct(fs[0].tag, rest);
    }
  }

  lemma {:induction false} InsertTagDistinct(tag: nat, s: seq<nat>)
    requires AscendingTags(s) && Distinct(s) && tag !in s
    ensures Distinct(InsertTag(tag, s))
  {
    if s == [] || tag < s[0] {
    } else {
      InsertTagDistinct(tag, s[1..]);
      InsertTagAre(tag, s[1..]);
      assert s[0] in s && s[0] !in s[1..];
    }
  }

  // ---------------------------------------------------------------- cloning

  /** Fields in strictly ascending schema position. */
  predicate InPlace(schema: Schema, fs: seq<Field>) {
    && (forall f <- fs :: f.tag in schema.traits)
    && (forall i, j :: 0 <= i < j < |fs| ==> Position(schema, fs[i].tag) < Position(schema, fs[j].tag))
  }

  /** A deep-constructed message: a group object under every legal count field, and instances in place to any depth. */
  ghost predicate Deep(schema: Schema, fs: seq<Field>)
    decreases fs, 1
  {
    InPlace(schema, fs) && forall f <- fs :: DeepField(schema, f)
  }

  ghost predicate DeepField(schema: Schema, f: Field)
    decreases f, 0
  {
    && f.tag in schema.traits && f.hasGroup == schema.traits[f.tag].group.Some?
    && (if f.hasGroup then forall i <- f.insts :: Deep(schema.traits[f.tag].group.value, i.fields) else f.insts == [])
  }

  /** The number of fields in a tree. */
  function Total(fs: seq<Field>): nat
    decreases fs, 1
  {
    if fs == [] then 0 else 1 + TotalInsts(fs[0].insts) + Total(fs[1..])
  }

  function TotalInsts(insts: seq<Inst>): nat
    decreases insts, 0
  {
    if insts == [] then 0 else Total(insts[0].fields) + TotalInsts(insts[1..])
  }

  /** The fields with a tag in `tags`. */
  function Restrict(fs: seq<Field>, tags: set<nat>): seq<Field> {
    if fs == [] then [] else (if fs[0].tag in tags then [fs[0]] else []) + Restrict(fs[1..], tags)
  }

  lemma {:induction false} RestrictHas(fs: seq<Field>, tags: set<nat>)
    ensures forall f :: f in Restrict(fs, tags) <==> f in fs && f.tag in tags
  {
    if fs != [] {
      RestrictHas(fs[1..], tags);
      assert fs == [fs[0]] + fs[1..];
    }
  }

  lemma {:induction false} RestrictAll(fs: seq<Field>, tags: set<nat>)
    requires forall f <- fs :: f.tag in tags
    ensures Restrict(fs, tags) == fs
  {
    if fs != [] {
      assert forall f <- fs[1..] :: f in fs;
      RestrictAll(fs[1..], tags);
    }
  }

  lemma RestrictStep(fs: seq<Field>, tags: set<nat>)
    requires fs != []
    ensures Restrict(fs, tags) == if fs[0].tag in tags then [fs[0]] + Restrict(fs[1..], tags) else Restrict(fs[1..], tags)
  {}

  lemma InsertFront(schema: Schema, fs: seq<Field>, f: Field)
    requires forall g <- fs :: Position(schema, f.tag) < Position(schema, g.tag)
    ensures InsertField(schema, fs, f) == [f] + fs
  {}

  lemma InsertBehind(schema: Schema, g: Field, fs: seq<Field>, f: Field)
    requires Position(schema, g.tag) <= Position(schema, f.tag)
    ensures InsertField(schema, [g] + fs, f) == [g] + InsertField(schema, fs, f)
  {
    assert ([g] + fs)[1..] == fs;
  }

  /** Adding one more field of a message to a part of it gives the larger part. */
  lemma {:induction false} InsertRestricted(schema: Schema, fs: seq<Field>, tags: set<nat>, i: nat)
    requires InPlace(schema, fs) && i < |fs| && fs[i].tag !in tags
    ensures InsertField(schema, Restrict(fs, tags), fs[i]) == Restrict(fs, tags + {fs[i].tag})
    ensures Total(Restrict(fs, tags + {fs[i].tag})) == Total(Restrict(fs, tags)) + 1 + TotalInsts(fs[i].insts)
  {
    hide Position, Total, TotalInsts, Restrict, InsertField, InPlace;
    var f, rest := fs[i], fs[1..];
    var more := tags + {f.tag};
    InPlaceTail(schema, fs);
    RestrictStep(fs, tags);
    RestrictStep(fs, more);
    var r, r' := Restrict(rest, tags), Restrict(rest, more);
    if i == 0 {
      RestrictSame(rest, tags, more);
      RestrictHas(rest, tags);
      InsertFront(schema, r, f);
      TotalCons(f, r);
    } else {
      assert rest[i - 1] == f && f in rest;
      InsertRestricted(schema, rest, tags, i - 1);
      InsertBehind(schema, fs[0], r, f);
      TotalCons(fs[0], r);
      TotalCons(fs[0], r');
    }
  }

  lemma TotalCons(f: Field, fs: seq<Field>)
    ensures Total([f] + fs) == 1 + TotalInsts(f.insts) + Total(fs)
  {
    assert ([f] + fs)[1..] == fs;
  }

  lemma InPlaceTail(schema: Schema, fs: seq<Field>)
    requires InPlace(schema, fs) && fs != []
    ensures InPlace(schema, fs[1..])
    ensures forall f <- fs[1..] :: f.tag != fs[0].tag && Position(schema, fs[0].tag) < Position(schema, f.tag)
  {
    assert forall f <- fs[1..] :: f in fs;
  }

  lemma {:induction false} RestrictSame(fs: seq<Field>, s: set<nat>, t: set<nat>)
    requires forall f <- fs :: f.tag in s <==> f.tag in t
    ensures Restrict(fs, s) == Restrict(fs, t)
  {
    if fs != [] {
      assert fs[0] in fs && forall f <- fs[1..] :: f in fs;
      RestrictSame(fs[1..], s, t);
    }
  }

  function TagSet(s: seq<nat>): set<nat> { set t | t in s }

  predicate Distinct(s: seq<nat>) { forall i, j :: 0 <= i < j < |s| ==> s[i] != s[j] }

  function Add<T>(n: nat, c: Copy<T>): Copy<T> { if c.Copied? then c.(count := n + c.count) else c }

  /** One step of the walk along the tags: the field is copied, or left out. */
  lemma CopyStep(target: Schema, tags: seq<nat>, from: seq<Field>, to: seq<Field>, force: bool)
    requires tags != [] && forall t <- tags :: Has(from, t)
    ensures var f := Get(from, tags[0]);
            CopyAll(target, tags, from, to, force) ==
            if !force && (f.tag !in target.traits || Has(to, f.tag)) then CopyAll(target, tags[1..], from, to, force)
            else
              var c := CopyField(target, f, force);
              if c.Copied? then Add(c.count, CopyAll(target, tags[1..], from, Place(target, to, c.value), force))
              else if c.Illegal? then Illegal(c.tag) else NoGroup(c.tag)
  {
    hide CopyField, Place, Has, Get;
  }

  lemma CopyNone(target: Schema, from: seq<Field>, to: seq<Field>, force: bool)
    ensures CopyAll(target, [], from, to, force) == Copied(to, 0)
  {}

  // ---------------------------------------------------------------- what a copy cannot place

  /** Why the copy of `f` stops at tag `t`: instances without a group object in the target, or a field without
      instances that the target does not have; in `f`, or in a field of its group that is copied. */
  ghost predicate Misfit(target: Schema, f: Field, force: bool, t: nat, group: bool)
    decreases f
  {
    || (f.tag == t && group && f.hasGroup && f.insts != [] && (f.tag in target.traits ==> target.traits[f.tag].group.None?))
    || (f.tag == t && !group && (f.hasGroup ==> f.insts == []) && f.tag !in target.traits)
    || (f.hasGroup && f.tag in target.traits && target.traits[f.tag].group.Some?
        && exists i <- f.insts :: MisfitIn(target.traits[f.tag].group.value, i.fields, force, t, group))
  }

  ghost predicate MisfitIn(target: Schema, fs: seq<Field>, force: bool, t: nat, group: bool)
    decreases fs
  {
    exists f <- fs :: (force || f.tag in target.traits) && Misfit(target, f, force, t, group)
  }

  lemma {:induction false} CopyRefused(target: Schema, tags: seq<nat>, from: seq<Field>, to: seq<Field>, force: bool)
    requires forall t <- tags :: Has(from, t)
    ensures var c := CopyAll(target, tags, from, to, force);
            && (c.Illegal? ==> MisfitIn(target, from, force, c.tag, false))
            && (c.NoGroup? ==> MisfitIn(target, from, force, c.tag, true))
    decreases from, 1, |tags|
  {
    hide CopyAll, CopyField, Place, Misfit, Has, Get;
    CopyNone(target, from, to, force);
    if tags != [] {
      CopyStep(target, tags, from, to, force);
      var f := Get(from, tags[0]);
      GetIs(from, tags[0]);
      if !force && (f.tag !in target.traits || Has(to, f.tag)) {
        CopyRefused(target, tags[1..], from, to, force);
      } else {
        var c := CopyField(target, f, force);
        FieldRefused(target, f, force);
        if c.Copied? { CopyRefused(target, tags[1..], from, Place(target, to, c.value), force); }
      }
    }
  }

  lemma GetIs(fs: seq<Field>, t: nat)
    requires Has(fs, t)
    ensures Get(fs, t) in fs && Get(fs, t).tag == t
  {}

  lemma {:induction false} FieldRefused(target: Schema, f: Field, force: bool)
    ensures var c := CopyField(target, f, force);
            && (c.Illegal? ==> Misfit(target, f, force, c.tag, false))
            && (c.NoGroup? ==> Misfit(target, f, force, c.tag, true))
    decreases f, 0
  {
    hide CopyInsts, MisfitIn;
    if f.tag in target.traits && target.traits[f.tag].group.Some? {
      InstsRefused(target.traits[f.tag].group.value, f.insts, force);
    }
  }

  lemma {:induction false} InstsRefused(g: Schema, insts: seq<Inst>, force: bool)
    ensures var c := CopyInsts(g, insts, force);
            && (c.Illegal? ==> exists i <- insts :: MisfitIn(g, i.fields, force, c.tag, false))
            && (c.NoGroup? ==> exists i <- insts :: MisfitIn(g, i.fields, force, c.tag, true))
    decreases insts, 0
  {
    hide CopyAll, MisfitIn, SortedTags;
    if insts != [] {
      SortedTagsAre(insts[0].fields);
      CopyRefused(g, SortedTags(insts[0].fields), insts[0].fields, [], force);
      InstsRefused(g, insts[1..], force);
      assert insts[0] in insts && forall i <- insts[1..] :: i in insts;
    }
  }

  /** Without `force` no field is ever refused as illegal; only a missing group object can stop the copy. */
  lemma NeverIllegal(target: Schema, from: seq<Field>, to: seq<Field>)
    ensures !CopyLegal(target, from, to, false).Illegal?
  {
    SortedTagsAre(from);
    hide CopyAll, SortedTags;
    CopyRefused(target, SortedTags(from), from, to, false);
    var c := CopyLegal(target, from, to, false);
    if c.Illegal? { NoMisfit(target, from, c.tag); }
  }

  lemma {:induction false} NoMisfit(target: Schema, fs: seq<Field>, t: nat)
    ensures !MisfitIn(target, fs, false, t, false)
    decreases fs
  {
    if MisfitIn(target, fs, false, t, false) {
      var f :| f in fs && f.tag in target.traits && Misfit(target, f, false, t, false);
      var i :| i in f.insts && MisfitIn(target.traits[f.tag].group.value, i.fields, false, t, false);
      NoMisfit(target.traits[f.tag].group.value, i.fields, t);
    }
  }

  /** Copying more fields of a message into a part of it gives the larger part, and counts what was added over the
      whole tree. */
  ghost predicate Grows(schema: Schema, tags: seq<nat>, from: seq<Field>, have: set<nat>, force: bool)
    requires forall t <- tags :: Has(from, t)
  {
    var part, whole := Restrict(from, have), Restrict(from, have + TagSet(tags));
    Total(whole) >= Total(part) && CopyAll(schema, tags, from, part, force) == Copied(whole, Total(whole) - Total(part))
  }

  lemma {:induction false} CopyGrows(schema: Schema, tags: seq<nat>, from: seq<Field>, have: set<nat>, force: bool)
    requires Deep(schema, from) && Distinct(tags) && forall t <- tags :: Has(from, t) && (force ==> t !in have)
    ensures Grows(schema, tags, from, have, force)
    decreases from, 1, |tags|
  {
    hide Deep, DeepField, Total, InsertField, Position, Restrict, CopyAll, CopyField, IndexOf;
    if tags != [] { CopyStep(schema, tags, from, Restrict(from, have), force); }
    CopyNone(schema, from, Restrict(from, have), force);
    if tags == [] {
      assert have + TagSet(tags) == have;
    } else {
      var t := tags[0];
      var i := IndexOf(from, t);
      var f := from[i];
      DeepAt(schema, from, i);
      RestrictHas(from, have);
      assert forall u <- tags[1..] :: u in tags && u != t;
      CopyGrows(schema, tags[1..], from, have + {t}, force);
      assert have + TagSet(tags) == have + {t} + TagSet(tags[1..]);
      if t in have {
        assert f in Restrict(from, have);
        assert have + {t} == have;
      } else {
        assert !Has(Restrict(from, have), t);
        FieldCloned(schema, f, force);
        InsertRestricted(schema, from, have, i);
      }
    }
  }

  lemma DeepAt(schema: Schema, fs: seq<Field>, i: nat)
    requires Deep(schema, fs) && i < |fs|
    ensures InPlace(schema, fs) && DeepField(schema, fs[i]) && fs[i].tag in schema.traits
  {
  }

  lemma {:induction false} FieldCloned(schema: Schema, f: Field, force: bool)
    requires DeepField(schema, f)
    ensures CopyField(schema, f, force) == Copied(f, 1 + TotalInsts(f.insts))
    decreases f, 0
  {
    if f.hasGroup {
      InstsCloned(schema.traits[f.tag].group.value, f.insts, force);
    }
  }

  lemma {:induction false} InstsCloned(g: Schema, insts: seq<Inst>, force: bool)
    requires forall i <- insts :: Deep(g, i.fields)
    ensures CopyInsts(g, insts, force) == Copied(insts, TotalInsts(insts))
    decreases insts, 0
  {
    hide Deep, Total, SortedTags, CopyAll, Restrict;
    if insts != [] {
      assert insts[0] in insts && forall i <- insts[1..] :: i in insts;
      CopyRestores(g, insts[0].fields, {}, force);
      RestrictNone(insts[0].fields);
      InstsCloned(g, insts[1..], force);
      assert insts == [insts[0]] + insts[1..];
    }
  }

  /** Copying a deep-constructed message into a fresh one of the same schema gives the same tree, whatever `force`
      says. The fresh message may hold fields already, such as the automatic ones, as long as they are as in the
      original. The count is the number of fields, over the whole tree, that the target gained. */
  lemma {:induction false} CopyRestores(schema: Schema, from: seq<Field>, have: set<nat>, force: bool)
    requires Deep(schema, from) && (have != {} ==> !force)
    ensures Total(from) >= Total(Restrict(from, have))
    ensures CopyLegal(schema, from, Restrict(from, have), force) == Copied(from, Total(from) - Total(Restrict(from, have)))
    decreases from, 2
  {
    hide DeepField, Total, CopyAll, Restrict, SortedTags;
    var tags := SortedTags(from);
    SortedTagsAre(from);
    SortedTagsDistinct(schema, from);
    CopyGrows(schema, tags, from, have, force);
    RestrictAll(from, have + TagSet(tags)) by {
      forall f | f in from ensures f.tag in TagSet(tags) { assert Has(from, f.tag); }
    }
  }

  lemma {:induction false} RestrictNone(fs: seq<Field>)
    ensures Restrict(fs, {}) == [] && Total([]) == 0
  {
    if fs != [] { RestrictNone(fs[1..]); }
  }

  datatype Tree = Tree(header: seq<Field>, body: seq<Field>, trailer: seq<Field>)

  datatype Schemas = Schemas(header: Schema, body: Schema, trailer: Schema)

  /** `Message::clone`: the three sections are copied, without force, into those of a fresh message. */
  function CloneMessage(schemas: Schemas, m: Tree, blank: Tree): Option<Tree> {
    var b := CopyLegal(schemas.body, m.body, blank.body, false);
    var h := CopyLegal(schemas.header, m.header, blank.header, false);
    var t := CopyLegal(schemas.trailer, m.trailer, blank.trailer, false);
    if b.Copied? && h.Copied? && t.Copied? then Some(Tree(h.value, b.value, t.value)) else None
  }

  /** Part of a message, in place: the fields with its tags. */
  lemma {:induction false} PartIsRestricted(schema: Schema, from: seq<Field>, part: seq<Field>)
    requires InPlace(schema, from) && InPlace(schema, part) && IsPart(part, from)
    ensures part == Restrict(from, FieldTags(part))
  {
    hide FieldTags, Restrict, InPlace, IsPart;
    if part == [] {
      NoTags();
      RestrictNone(from);
    } else {
      PartNotEmpty(part, from);
      InPlaceRest(schema, from);
      if from[0] in part {
        FirstIsFirst(schema, from, part);
        InPlaceRest(schema, part);
        PartIsRestricted(schema, from[1..], part[1..]);
        RestrictFirst(from, part);
      } else {
        TagAbsent(schema, from, part);
        PartIsRestricted(schema, from[1..], part);
        RestrictRest(from, part);
      }
    }
  }

  predicate IsPart(part: seq<Field>, from: seq<Field>) { forall f <- part :: f in from }

  lemma PartNotEmpty(part: seq<Field>, from: seq<Field>)
    requires IsPart(part, from) && part != []
    ensures from != []
  {
    assert part[0] in from;
  }

  lemma InPlaceRest(schema: Schema, fs: seq<Field>)
    requires InPlace(schema, fs) && fs != []
    ensures InPlace(schema, fs[1..])
  {
    InPlaceTail(schema, fs);
  }

  /** The tags of `part` behind its first field are those of `part`, as far as the fields of `rest` go. */
  predicate SameTags(rest: seq<Field>, part: seq<Field>)
    requires part != []
  {
    forall f <- rest :: f.tag in FieldTags(part[1..]) <==> f.tag in FieldTags(part)
  }

  lemma RestrictFirst(from: seq<Field>, part: seq<Field>)
    requires from != [] && part != [] && part[0] == from[0] && from[0].tag in FieldTags(part)
    requires SameTags(from[1..], part) && part[1..] == Restrict(from[1..], FieldTags(part[1..]))
    ensures part == Restrict(from, FieldTags(part))
  {
    RestrictSame(from[1..], FieldTags(part[1..]), FieldTags(part));
    hide FieldTags;
    RestrictStep(from, FieldTags(part));
    assert part == [part[0]] + part[1..];
  }

  lemma RestrictRest(from: seq<Field>, part: seq<Field>)
    requires from != [] && from[0].tag !in FieldTags(part) && part == Restrict(from[1..], FieldTags(part))
    ensures part == Restrict(from, FieldTags(part))
  {
    hide FieldTags;
    RestrictStep(from, FieldTags(part));
  }

  lemma NoTags()
    ensures FieldTags([]) == {}
  {}

  function FieldTags(fs: seq<Field>): set<nat> { set f | f in fs :: f.tag }

  lemma FirstIsFirst(schema: Schema, from: seq<Field>, part: seq<Field>)
    requires InPlace(schema, from) && InPlace(schema, part) && IsPart(part, from)
    requires from != [] && from[0] in part
    ensures part[0] == from[0] && IsPart(part[1..], from[1..]) && from[0].tag in FieldTags(part)
    ensures SameTags(from[1..], part)
  {
    InPlaceTail(schema, from);
    InPlaceTail(schema, part);
    hide InPlace;
    assert from == [from[0]] + from[1..] && part == [part[0]] + part[1..];
    assert part[0] in from;
    forall f | f in part[1..] ensures f in from[1..] {
      assert f in part && f.tag != part[0].tag;
    }
    forall f | f in from[1..] ensures f.tag in FieldTags(part[1..]) <==> f.tag in FieldTags(part) {
      assert f.tag != part[0].tag;
    }
  }

  lemma TagAbsent(schema: Schema, from: seq<Field>, part: seq<Field>)
    requires InPlace(schema, from) && IsPart(part, from) && from != [] && from[0] !in part
    ensures from[0].tag !in FieldTags(part) && IsPart(part, from[1..])
  {
    InPlaceTail(schema, from);
    assert from == [from[0]] + from[1..];
  }

  /** Copying into part of another message gives that message exactly when the part is one of the original. */
  lemma CopyRestoresWhen(schema: Schema, from: seq<Field>, blank: seq<Field>)
    requires Deep(schema, from) && InPlace(schema, blank)
    ensures CopyLegal(schema, from, blank, false).Copied?
    ensures CopyLegal(schema, from, blank, false).value == from <==> IsPart(blank, from)
  {
    SortedTagsAre(from);
    hide DeepField, CopyAll, SortedTags, InPlace, Restrict, Total;
    DeepCopies(schema, SortedTags(from), from, blank);
    CopyKeeps(schema, SortedTags(from), from, blank);
    if IsPart(blank, from) {
      PartIsRestricted(schema, from, blank);
      CopyRestores(schema, from, FieldTags(blank), false);
    }
  }

  lemma {:induction false} DeepCopies(schema: Schema, tags: seq<nat>, from: seq<Field>, to: seq<Field>)
    requires Deep(schema, from) && forall t <- tags :: Has(from, t)
    ensures CopyAll(schema, tags, from, to, false).Copied?
    decreases |tags|
  {
    hide Deep, DeepField, CopyAll, CopyField, InsertField, IndexOf, InPlace;
    CopyNone(schema, from, to, false);
    if tags != [] {
      var i := IndexOf(from, tags[0]);
      DeepAt(schema, from, i);
      FieldCloned(schema, from[i], false);
      CopyStep(schema, tags, from, to, false);
      DeepCopies(schema, tags[1..], from, to);
      DeepCopies(schema, tags[1..], from, Place(schema, to, from[i]));
    }
  }

  /** Without `force` every field of the target stays. */
  lemma {:induction false} CopyKeeps(target: Schema, tags: seq<nat>, from: seq<Field>, to: seq<Field>)
    requires (forall t <- tags :: Has(from, t)) && CopyAll(target, tags, from, to, false).Copied?
    ensures forall f <- to :: f in CopyAll(target, tags, from, to, false).value
    decreases |tags|
  {
    hide CopyAll, CopyField, InsertField;
    CopyNone(target, from, to, false);
    if tags != [] {
      CopyStep(target, tags, from, to, false);
      var f := Get(from, tags[0]);
      if f.tag !in target.traits || Has(to, f.tag) {
        CopyKeeps(target, tags[1..], from, to);
      } else {
        var g := CopyField(target, f, false).value;
        InsertMembers(target, to, g);
        CopyKeeps(target, tags[1..], from, InsertField(target, to, g));
      }
    }
  }

  /** A clone is the same tree exactly when every field that the fresh message was constructed with, such as the
      automatic ones, is in the original. */
  lemma CloneIsEqual(schemas: Schemas, m: Tree, blank: Tree)
    requires Deep(schemas.header, m.header) && Deep(schemas.body, m.body) && Deep(schemas.trailer, m.trailer)
    requires InPlace(schemas.header, blank.header) && InPlace(schemas.body, blank.body)
    requires InPlace(schemas.trailer, blank.trailer)
    ensures CloneMessage(schemas, m, blank).Some?
    ensures CloneMessage(schemas, m, blank) == Some(m) <==>
              IsPart(blank.header, m.header) && IsPart(blank.body, m.body) && IsPart(blank.trailer, m.trailer)
  {
    hide Deep, CopyLegal, InPlace;
    CopyRestoresWhen(schemas.header, m.header, blank.header);
    CopyRestoresWhen(schemas.body, m.body, blank.body);
    CopyRestoresWhen(schemas.trailer, m.trailer, blank.trailer);
  }

  // ---------------------------------------------------------------- into any target

  /** Without `force` the count is what the target gained over its whole tree. */
  lemma {:induction false} CopyCounts(target: Schema, tags: seq<nat>, from: seq<Field>, to: seq<Field>)
    requires forall t <- tags :: Has(from, t)
    requires CopyAll(target, tags, from, to, false).Copied?
    ensures var c := CopyAll(target, tags, from, to, false); Total(c.value) == Total(to) + c.count
    decreases from, 1, |tags|
  {
    hide Total, TotalInsts, InsertField;
    if tags != [] {
      var f := Get(from, tags[0]);
      if f.tag !in target.traits || Has(to, f.tag) {
        CopyCounts(target, tags[1..], from, to);
      } else {
        var c := CopyField(target, f, false);
        FieldCounts(target, f);
        InsertCounts(target, to, c.value);
        CopyCounts(target, tags[1..], from, Place(target, to, c.value));
      }
    }
  }

  lemma {:induction false} FieldCounts(target: Schema, f: Field)
    requires CopyField(target, f, false).Copied?
    ensures var c := CopyField(target, f, false); c.count == 1 + TotalInsts(c.value.insts)
    decreases f, 0
  {
    if f.hasGroup && f.insts != [] {
      InstsCount(target.traits[f.tag].group.value, f.insts);
    }
  }

  lemma {:induction false} InstsCount(g: Schema, insts: seq<Inst>)
    requires CopyInsts(g, insts, false).Copied?
    ensures var c := CopyInsts(g, insts, false); c.count == TotalInsts(c.value)
    decreases insts, 0
  {
    hide Total, CopyAll, SortedTags;
    if insts != [] {
      SortedTagsAre(insts[0].fields);
      var c := CopyAll(g, SortedTags(insts[0].fields), insts[0].fields, [], false);
      CopyCounts(g, SortedTags(insts[0].fields), insts[0].fields, []);
      InstsCount(g, insts[1..]);
      RestrictNone([]);
      var rest := CopyInsts(g, insts[1..], false);
      assert ([Inst(c.value)] + rest.value)[1..] == rest.value;
    }
  }

  lemma {:induction false} InsertCounts(target: Schema, fs: seq<Field>, f: Field)
    ensures Total(InsertField(target, fs, f)) == Total(fs) + 1 + TotalInsts(f.insts)
  {
    if fs == [] || Position(target, f.tag) < Position(target, fs[0].tag) {
      TotalCons(f, fs);
    } else {
      InsertCounts(target, fs[1..], f);
      TotalCons(fs[0], InsertField(target, fs[1..], f));
    }
  }

  predicate DistinctPositions(schema: Schema) {
    forall t, u :: t in schema.traits && u in schema.traits && t != u ==> Position(schema, t) != Position(schema, u)
  }

  /** Without `force` a copy leaves every field of the target as it is, adds a copy of each field of the source that
      is legal for the target and was not there, adds nothing else, and keeps the fields in place. */
  ghost predicate AddsLegal(target: Schema, tags: seq<nat>, from: seq<Field>, to: seq<Field>, r: seq<Field>)
    requires forall t <- tags :: Has(from, t)
  {
    && InPlace(target, r)
    && (forall f <- to :: f in r)
    && (forall t <- tags :: t in target.traits ==> Has(r, t))
    && (forall f <- r :: f in to || IsCopy(target, tags, from, to, f))
  }

  ghost predicate IsCopy(target: Schema, tags: seq<nat>, from: seq<Field>, to: seq<Field>, f: Field)
    requires forall t <- tags :: Has(from, t)
  {
    f.tag in tags && !Has(to, f.tag) && CopyField(target, Get(from, f.tag), false).Copied?
    && CopyField(target, Get(from, f.tag), false).value == f
  }

  lemma {:induction false} CopyAddsLegal(target: Schema, tags: seq<nat>, from: seq<Field>, to: seq<Field>)
    requires DistinctPositions(target) && InPlace(target, to) && forall t <- tags :: Has(from, t)
    requires CopyAll(target, tags, from, to, false).Copied?
    ensures AddsLegal(target, tags, from, to, CopyAll(target, tags, from, to, false).value)
    decreases from, 1, |tags|
  {
    hide InPlace, InsertField, CopyField, DistinctPositions, IsCopy;
    if tags != [] {
      var f, rest := Get(from, tags[0]), tags[1..];
      if f.tag !in target.traits || Has(to, f.tag) {
        CopyAddsLegal(target, rest, from, to);
        AddsMore(target, tags, from, to, to, CopyAll(target, rest, from, to, false).value);
      } else {
        var g := CopyField(target, f, false).value;
        var to' := InsertField(target, to, g);
        InsertMembers(target, to, g);
        InsertInPlace(target, to, g);
        FirstIsCopy(target, tags, from, to);
        assert g in to';
        CopyAddsLegal(target, rest, from, to');
        AddsMore(target, tags, from, to, to', CopyAll(target, rest, from, to', false).value);
      }
    }
  }

  lemma FirstIsCopy(target: Schema, tags: seq<nat>, from: seq<Field>, to: seq<Field>)
    requires tags != [] && (forall t <- tags :: Has(from, t)) && !Has(to, tags[0])
    requires CopyField(target, Get(from, tags[0]), false).Copied?
    ensures IsCopy(target, tags, from, to, CopyField(target, Get(from, tags[0]), false).value)
  {
    assert tags[0] in tags;
  }

  lemma HasMore(fs: seq<Field>, more: seq<Field>)
    requires forall f <- fs :: f in more
    ensures forall t :: Has(fs, t) ==> Has(more, t)
  {
  }

  /** One step of the walk along the tags. */
  lemma AddsMore(target: Schema, tags: seq<nat>, from: seq<Field>, to: seq<Field>, to': seq<Field>, r: seq<Field>)
    requires tags != [] && (forall t <- tags :: Has(from, t)) && AddsLegal(target, tags[1..], from, to', r)
    requires forall f <- to :: f in to'
    requires tags[0] in target.traits ==> Has(to', tags[0])
    requires forall f <- to' :: f in to || IsCopy(target, tags, from, to, f)
    ensures AddsLegal(target, tags, from, to, r)
  {
    hide InPlace, CopyField;
    forall t | t in tags && t in target.traits ensures Has(r, t) {
      if t == tags[0] {
        var f :| f in to' && f.tag == t;
        assert f in r;
      } else {
        assert t in tags[1..];
      }
    }
    forall f | f in r ensures f in to || IsCopy(target, tags, from, to, f) {
      if f !in to' {
        assert IsCopy(target, tags[1..], from, to', f);
        HasMore(to, to');
      }
    }
  }

  lemma {:induction false} InsertMembers(target: Schema, fs: seq<Field>, f: Field)
    ensures forall g :: g in InsertField(target, fs, f) <==> g == f || g in fs
  {
    if fs == [] || Position(target, f.tag) < Position(target, fs[0].tag) {
    } else {
      InsertMembers(target, fs[1..], f);
      assert fs == [fs[0]] + fs[1..];
    }
  }

  lemma {:induction false} InsertInPlace(target: Schema, fs: seq<Field>, f: Field)
    requires DistinctPositions(target) && InPlace(target, fs) && f.tag in target.traits && !Has(fs, f.tag)
    ensures InPlace(target, InsertField(target, fs, f))
  {
    hide Position, InPlace;
    if fs == [] {
      NoneInPlace(target);
      ConsInPlace(target, f, fs);
    } else {
      InPlaceTail(target, fs);
      InPlaceHead(target, fs);
      if Position(target, f.tag) < Position(target, fs[0].tag) {
        assert fs == [fs[0]] + fs[1..];
        ConsInPlace(target, f, fs);
      } else {
        assert !Has(fs[1..], f.tag) && fs[0].tag != f.tag;
        InsertInPlace(target, fs[1..], f);
        InsertMembers(target, fs[1..], f);
        ConsInPlace(target, fs[0], InsertField(target, fs[1..], f));
      }
    }
  }

  lemma NoneInPlace(target: Schema)
    ensures InPlace(target, [])
  {
  }

  lemma InPlaceHead(target: Schema, fs: seq<Field>)
    requires InPlace(target, fs) && fs != []
    ensures fs[0].tag in target.traits
  {
  }

  lemma ConsInPlace(target: Schema, f: Field, fs: seq<Field>)
    requires InPlace(target, fs) && f.tag in target.traits
    requires forall g <- fs :: Position(target, f.tag) < Position(target, g.tag)
    ensures InPlace(target, [f] + fs)
  {
  }

  // ---------------------------------------------------------------- with force

  /** What a forced copy of `f` leaves under its tag: the new value, with the new instances behind the old ones. */
  function Overlaid(to: seq<Field>, f: Field): Field {
    if Has(to, f.tag) then f.(insts := Get(to, f.tag).insts + f.insts) else f
  }

  lemma GetCons(h: Field, fs: seq<Field>, tag: nat)
    ensures Has([h] + fs, tag) <==> h.tag == tag || Has(fs, tag)
    ensures Has([h] + fs, tag) ==> Get([h] + fs, tag) == if h.tag == tag then h else Get(fs, tag)
  {
    var all := [h] + fs;
    assert all[0] == h && all[1..] == fs;
    if h.tag == tag { assert h in all; }
    if Has(fs, tag) {
      var f :| f in fs && f.tag == tag;
      assert f in all;
    }
  }

  lemma {:induction false} InsertGets(target: Schema, fs: seq<Field>, f: Field, tag: nat)
    requires !Has(fs, f.tag)
    ensures var r := InsertField(target, fs, f);
            && (Has(r, tag) <==> tag == f.tag || Has(fs, tag))
            && (Has(r, tag) ==> Get(r, tag) == if tag == f.tag then f else Get(fs, tag))
  {
    hide Has, Get, Position;
    GetCons(f, fs, tag);
    if fs == [] || Position(target, f.tag) < Position(target, fs[0].tag) {
    } else {
      var h, rest := fs[0], fs[1..];
      assert fs == [h] + rest;
      GetCons(h, rest, f.tag);
      GetCons(h, rest, tag);
      InsertGets(target, rest, f, tag);
      GetCons(h, InsertField(target, rest, f), tag);
    }
  }

  lemma IndexIs(fs: seq<Field>, tag: nat, i: nat)
    requires i < |fs| && fs[i].tag == tag && forall j :: 0 <= j < i ==> fs[j].tag != tag
    ensures Has(fs, tag) && IndexOf(fs, tag) == i
  {
    hide IndexOf;
    assert fs[i] in fs;
  }

  lemma UpdateGets(fs: seq<Field>, g: Field, tag: nat)
    requires Has(fs, g.tag)
    ensures var r := fs[IndexOf(fs, g.tag) := g];
            && (Has(r, tag) <==> Has(fs, tag))
            && (Has(r, tag) ==> Get(r, tag) == if tag == g.tag then g else Get(fs, tag))
  {
    hide IndexOf;
    var i := IndexOf(fs, g.tag);
    var r := fs[i := g];
    assert forall j :: 0 <= j < |fs| ==> r[j].tag == fs[j].tag;
    if Has(fs, tag) { IndexIs(r, tag, IndexOf(fs, tag)); }
    if Has(r, tag) { IndexIs(fs, tag, IndexOf(r, tag)); }
  }

  lemma PlaceGets(target: Schema, to: seq<Field>, f: Field, tag: nat)
    ensures var r := Place(target, to, f);
            && (Has(r, tag) <==> tag == f.tag || Has(to, tag))
            && (Has(r, tag) ==> Get(r, tag) == if tag == f.tag then Overlaid(to, f) else Get(to, tag))
  {
    if Has(to, f.tag) {
      var i := IndexOf(to, f.tag);
      UpdateGets(to, f.(insts := to[i].insts + f.insts), tag);
    } else {
      InsertGets(target, to, f, tag);
    }
    hide Has, IndexOf, InsertField;
  }

  /** `r` is `to` with the fields of `from` that have a tag in `done` laid over it. */
  ghost predicate Laid(from: seq<Field>, to: seq<Field>, r: seq<Field>, done: set<nat>)
    requires forall t <- done :: Has(from, t)
  {
    forall t: nat :: LaidAt(from, to, r, done, t)
  }

  ghost predicate LaidAt(from: seq<Field>, to: seq<Field>, r: seq<Field>, done: set<nat>, t: nat)
    requires forall t <- done :: Has(from, t)
  {
    && (Has(r, t) <==> t in done || Has(to, t))
    && (Has(r, t) ==> Get(r, t) == if t in done then Overlaid(to, Get(from, t)) else Get(to, t))
  }

  lemma LaidMore(schema: Schema, from: seq<Field>, to: seq<Field>, out: seq<Field>, done: set<nat>, t: nat)
    requires (forall u <- done :: Has(from, u)) && Laid(from, to, out, done) && Has(from, t) && t !in done
    ensures Laid(from, to, Place(schema, out, Get(from, t)), done + {t})
  {
    hide Has, Get, Place;
    var f := Get(from, t);
    assert LaidAt(from, to, out, done, t);
    var r := Place(schema, out, f);
    forall u: nat ensures LaidAt(from, to, r, done + {t}, u) {
      assert LaidAt(from, to, out, done, u);
      PlaceGets(schema, out, f, u);
    }
  }

  lemma {:induction false} ForceWalk(schema: Schema, tags: seq<nat>, from: seq<Field>, to: seq<Field>, out: seq<Field>,
          done: set<nat>)
    requires Deep(schema, from) && Distinct(tags) && forall t <- tags :: Has(from, t) && t !in done
    requires (forall t <- done :: Has(from, t)) && Laid(from, to, out, done)
    ensures var c := CopyAll(schema, tags, from, out, true); c.Copied? && Laid(from, to, c.value, done + TagSet(tags))
    decreases |tags|
  {
    hide Deep, DeepField, CopyAll, CopyField, Place, Laid, InPlace, IndexOf;
    CopyNone(schema, from, out, true);
    if tags == [] {
      assert done + TagSet(tags) == done;
    } else {
      var t := tags[0];
      var i := IndexOf(from, t);
      DeepAt(schema, from, i);
      FieldCloned(schema, from[i], true);
      CopyStep(schema, tags, from, out, true);
      LaidMore(schema, from, to, out, done, t);
      assert forall u <- tags[1..] :: u in tags && u != t;
      ForceWalk(schema, tags[1..], from, to, Place(schema, out, from[i]), done + {t});
      assert done + TagSet(tags) == done + {t} + TagSet(tags[1..]);
    }
  }

  /** A forced copy into any target lays every field of the source over it: values are replaced, but instances are
      added to those of the target. Fields of other tags stay. */
  lemma ForceOverlays(schema: Schema, from: seq<Field>, to: seq<Field>)
    requires Deep(schema, from)
    ensures CopyLegal(schema, from, to, true).Copied?
    ensures forall t: nat :: t in TagSet(SortedTags(from)) <==> Has(from, t)
    ensures Laid(from, to, CopyLegal(schema, from, to, true).value, TagSet(SortedTags(from)))
  {
    hide DeepField, CopyAll, SortedTags, InPlace, Overlaid;
    var tags := SortedTags(from);
    SortedTagsAre(from);
    SortedTagsDistinct(schema, from);
    ForceWalk(schema, tags, from, to, to, {});
    assert {} + TagSet(tags) == TagSet(tags);
  }

  ghost predicate CopiedAsIs(f: Field, r: seq<Field>) { Has(r, f.tag) && Get(r, f.tag) == f }

  /** `force` is documented to replace what is there. Every field of the source stands in the result as it is in the
      source exactly when no field of the target that is replaced has group instances. */
  lemma ForceReplacesOnlyWithoutGroups(schema: Schema, from: seq<Field>, to: seq<Field>)
    requires Deep(schema, from) && InPlace(schema, to)
    ensures CopyLegal(schema, from, to, true).Copied?
    ensures var r := CopyLegal(schema, from, to, true).value;
            (forall f <- from :: CopiedAsIs(f, r)) <==> (forall g <- to :: Has(from, g.tag) ==> g.insts == [])
  {
    ForceOverlays(schema, from, to);
    PlaceOf(schema, from);
    PlaceOf(schema, to);
    hide Deep, InPlace, CopyLegal, SortedTags, Get, Laid, CopiedAsIs, Overlaid;
    var r, tags := CopyLegal(schema, from, to, true).value, TagSet(SortedTags(from));
    forall f | f in from ensures Has(from, f.tag) && Has(r, f.tag) && Get(r, f.tag) == Overlaid(to, f) {
      assert Has(from, f.tag);
      LaidTag(from, to, r, tags, f.tag);
    }
    if forall f <- from :: CopiedAsIs(f, r) {
      forall g | g in to && Has(from, g.tag) ensures g.insts == [] {
        GetIsIn(from, g.tag);
        CopiedUnder(to, r, Get(from, g.tag));
      }
    }
    if forall g <- to :: Has(from, g.tag) ==> g.insts == [] {
      forall f | f in from ensures CopiedAsIs(f, r) {
        if Has(to, f.tag) { GetIsIn(to, f.tag); }
        CopiedUnder(to, r, f);
      }
    }
  }

  /** A field laid over a target stands as it was exactly when nothing was under it. */
  lemma CopiedUnder(to: seq<Field>, r: seq<Field>, f: Field)
    requires Has(r, f.tag) && Get(r, f.tag) == Overlaid(to, f)
    ensures CopiedAsIs(f, r) <==> (Has(to, f.tag) ==> Get(to, f.tag).insts == [])
  {
    hide Has, Get;
    if Has(to, f.tag) {
      var under := Get(to, f.tag).insts;
      assert |under + f.insts| == |under| + |f.insts|;
      assert under == [] ==> under + f.insts == f.insts;
    }
  }

  lemma LaidTag(from: seq<Field>, to: seq<Field>, r: seq<Field>, tags: set<nat>, t: nat)
    requires (forall t <- tags :: Has(from, t)) && Laid(from, to, r, tags)
    ensures LaidAt(from, to, r, tags, t)
  {}

  lemma GetIsIn(fs: seq<Field>, tag: nat)
    requires Has(fs, tag)
    ensures Get(fs, tag) in fs && Get(fs, tag).tag == tag
  {}

  /** Every field in place is the one found under its tag. */
  lemma PlaceOf(schema: Schema, fs: seq<Field>)
    requires InPlace(schema, fs)
    ensures forall f <- fs :: Has(fs, f.tag) && Get(fs, f.tag) == f
  {
    hide IndexOf;
    InPlaceTags(schema, fs);
    forall f | f in fs ensures Has(fs, f.tag) && Get(fs, f.tag) == f {
      var i :| 0 <= i < |fs| && fs[i] == f;
      IndexIs(fs, f.tag, i);
    }
  }

  lemma InPlaceTags(schema: Schema, fs: seq<Field>)
    requires InPlace(schema, fs)
    ensures forall i, j :: 0 <= i < j < |fs| ==> fs[i].tag != fs[j].tag
  {
    forall i, j | 0 <= i < j < |fs| ensures fs[i].tag != fs[j].tag {
      assert Position(schema, fs[i].tag) < Position(schema, fs[j].tag);
    }
  }

  /** A count of 0 copied over a count of 1: the stale instance stays under it. */
  lemma StaleInstances(g: Schema, i: Inst)
    ensures var schema := Schema(map[7 := Trait(IntType, 1, false, false, Some(g))]);
            CopyLegal(schema, [Field(7, [ZERO], true, [])], [Field(7, [ZERO + 1], true, [i])], true)
            == Copied([Field(7, [ZERO], true, [i])], 1)
  {
    var schema := Schema(map[7 := Trait(IntType, 1, false, false, Some(g))]);
    var from, to := [Field(7, [ZERO], true, [])], [Field(7, [ZERO + 1], true, [i])];
    assert SortedTags(from) == [7];
    FieldCloned(schema, from[0], true);
    assert Has(from, 7) && Has(to, 7) && Get(from, 7) == from[0];
    CopyStep(schema, [7], from, to, true);
    assert [i] + from[0].insts == [i] && IndexOf(to, 7) == 0;
    assert Place(schema, to, from[0]) == [Field(7, [ZERO], true, [i])];
    CopyNone(schema, from, Place(schema, to, from[0]), true);
  }

  // ---------------------------------------------------------------- the loops

  /** `copy_legal` */
  method CopyFields(target: Schema, from: seq<Field>, to: seq<Field>, force: bool) returns (r: Copy<seq<Field>>)
    ensures r == CopyLegal(target, from, to, force)
    decreases from, 1
  {
    SortedTagsAre(from);
    hide CopyAll, CopyField, Place, SortedTags;
    var tags := SortedTags(from);
    var out, copied, i := to, 0, 0;
    assert tags[0..] == tags;
    while i < |tags|
      invariant i <= |tags|
      invariant CopyLegal(target, from, to, force) == Add(copied, CopyAll(target, tags[i..], from, out, force))
    {
      var f := Get(from, tags[i]);
      assert tags[i..][1..] == tags[i + 1..];
      CopyStep(target, tags[i..], from, out, force);
      if force || (f.tag in target.traits && !Has(out, f.tag)) {
        var c := CopyOne(target, f, force);
        match c {
          case Copied(g, n) => out, copied := Place(target, out, g), copied + n;
          case Illegal(t) => return Illegal(t);
          case NoGroup(t) => return NoGroup(t);
        }
      }
      i := i + 1;
    }
    assert tags[i..] == [];
    CopyNone(target, from, out, force);
    return Copied(out, copied);
  }

  method CopyOne(target: Schema, f: Field, force: bool) returns (r: Copy<Field>)
    ensures r == CopyField(target, f, force)
    decreases f, 0
  {
    var group := if f.tag in target.traits then target.traits[f.tag].group else None;
    var insts, copied := [], 0;
    if f.hasGroup && f.insts != [] {
      if group == None {
        return NoGroup(f.tag);
      }
      var g := CopyGroup(group.value, f.insts, force);
      match g {
        case Copied(v, n) => insts, copied := v, n;
        case Illegal(t) => return Illegal(t);
        case NoGroup(t) => return NoGroup(t);
      }
    }
    if f.tag !in target.traits {
      return Illegal(f.tag);
    }
    return Copied(Field(f.tag, f.value, group.Some?, insts), copied + 1);
  }

  method CopyGroup(g: Schema, insts: seq<Inst>, force: bool) returns (r: Copy<seq<Inst>>)
    ensures r == CopyInsts(g, insts, force)
    decreases insts, 0
  {
    var out: seq<Inst>, copied, i := [], 0, 0;
    ghost var whole := CopyInsts(g, insts, force);
    assert insts[0..] == insts && (whole.Copied? ==> [] + whole.value == whole.value);
    while i < |insts|
      invariant i <= |insts|
      invariant CopyInsts(g, insts, force) == AddInsts(out, copied, CopyInsts(g, insts[i..], force))
    {
      GroupStep(g, insts, force, i, out, copied);
      var c := CopyFields(g, insts[i].fields, [], force);
      match c {
        case Copied(v, n) => out, copied := out + [Inst(v)], copied + n;
        case Illegal(t) => return Illegal(t);
        case NoGroup(t) => return NoGroup(t);
      }
      i := i + 1;
    }
    assert insts[i..] == [] && out + [] == out;
    return Copied(out, copied);
  }

  lemma GroupStep(g: Schema, insts: seq<Inst>, force: bool, i: nat, out: seq<Inst>, copied: nat)
    requires i < |insts|
    ensures var c := CopyLegal(g, insts[i].fields, [], force);
            AddInsts(out, copied, CopyInsts(g, insts[i..], force)) ==
            match c
            case Illegal(t) => Illegal(t)
            case NoGroup(t) => NoGroup(t)
            case Copied(v, n) => AddInsts(out + [Inst(v)], copied + n, CopyInsts(g, insts[i + 1..], force))
  {
    hide CopyAll, SortedTags;
    assert insts[i..][1..] == insts[i + 1..];
    var c, r := CopyLegal(g, insts[i].fields, [], force), CopyInsts(g, insts[i + 1..], force);
    if c.Copied? && r.Copied? {
      assert out + ([Inst(c.value)] + r.value) == out + [Inst(c.value)] + r.value;
    }
  }

  function AddInsts(before: seq<Inst>, n: nat, c: Copy<seq<Inst>>): Copy<seq<Inst>> {
    if c.Copied? then Copied(before + c.value, n + c.count) else c
  }
}
