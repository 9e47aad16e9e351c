/** Which schemas the decoder gets through every input with: a condition on the group definitions alone. */
module Termination {
  import opened Common
  import opened Bytes
  import opened Codec
  import opened RoundTrip
  import opened Canonical
  import opened Frame

  /** Every group, to any depth, has a mandatory field. */
  ghost predicate Guarded(g: Schema)
    decreases g, 1
  {
    (exists t <- g.traits :: g.traits[t].mandatory) && NestedGuarded(g)
  }

  ghost predicate NestedGuarded(g: Schema)
    decreases g, 0
  {
    forall t <- g.traits :: g.traits[t].group.Some? ==> Guarded(g.traits[t].group.value)
  }

  /** An instance of a guarded group consumes something or fails. */
  lemma InstProgress(types: FieldTable, g: Schema, s: Bytes)
    requires Lacks(g, {})
    ensures var i := DecodeInst(types, g, s, {}); i.Done? ==> |i.rest| < |s|
  {
    hide ExtractElement, Normalise, TagValue;
  }

  /** On any bytes at all, decoding a guarded group ends. */
  lemma {:induction false} GuardedGroupEnds(types: FieldTable, g: Schema, s: Bytes)
    requires Guarded(g)
    ensures !DecodeGroup(types, g, s).Diverges?
    decreases |s|, 2
  {
    hide DecodeInst;
    if s != [] {
      InstProgress(types, g, s);
      GuardedInstEnds(types, g, s, {});
      var i := DecodeInst(types, g, s, {});
      if i.Done? && |i.rest| < |s| { GuardedGroupEnds(types, g, i.rest); }
    }
  }

  lemma {:induction false} GuardedInstEnds(types: FieldTable, g: Schema, s: Bytes, present: set<nat>)
    requires NestedGuarded(g)
    ensures !DecodeInst(types, g, s, present).Diverges?
    decreases |s|, 1
  {
    hide ExtractElement, TagValue, Normalise, HasCount, DecodeGroup, Lacks, Guarded;
    match ExtractElement(s)
    case None =>
    case Some(e) =>
      var tag := TagValue(e.tag);
      if tag in g.traits && tag in types {
        if g.traits[tag].group.Some? {
          var nested := g.traits[tag].group.value;
          GuardedGroupEnds(types, nested, s[e.size..]);
          var n := DecodeGroup(types, nested, s[e.size..]);
          if n.Done? { GuardedInstEnds(types, g, n.rest, present + {tag}); }
        }
        GuardedInstEnds(types, g, s[e.size..], present + {tag});
      }
  }

  lemma {:induction false} GuardedBodyEnds(types: FieldTable, schema: Schema, s: Bytes, present: set<nat>)
    requires NestedGuarded(schema)
    ensures !DecodeFields(types, schema, s, present).Diverges?
    decreases |s|, 1
  {
    hide ExtractElement, TagValue, Normalise, HasCount, DecodeGroup, AfterField, Lacks, Guarded;
    match ExtractElement(s)
    case None =>
    case Some(e) =>
      var tag := TagValue(e.tag);
      GuardedBodyEnds(types, schema, s[e.size..], present);
      if tag in schema.traits {
        if schema.traits[tag].group.Some? {
          var nested := schema.traits[tag].group.value;
          GuardedGroupEnds(types, nested, s[e.size..]);
          var n := DecodeGroup(types, nested, s[e.size..]);
          if n.Done? { GuardedAfterEnds(types, schema, tag, e.val, n.rest, present); }
        }
        GuardedAfterEnds(types, schema, tag, e.val, s[e.size..], present);
      }
  }

  lemma {:induction false} GuardedAfterEnds(types: FieldTable, schema: Schema, tag: nat, val: Bytes, s: Bytes,
          before: set<nat>)
    requires NestedGuarded(schema) && tag in schema.traits
    ensures !AfterField(types, schema, tag, val, s, before).Diverges?
    decreases |s|, 2
  {
    hide ExtractFixed, TagValue, Normalise, DecodeFields, Lacks, NestedGuarded, Atoi, CString;
    var present := before + {tag};
    GuardedBodyEnds(types, schema, s, present);
    var width := Atoi(CString(val)) % UNSIGNED;
    match ExtractFixed(s, width)
    case None =>
    case Some(e) =>
      FixedConsumes(s, width);
      GuardedBodyEnds(types, schema, Rest(s, e.size), present + {TagValue(e.tag)});
  }

  /** The factory returns or throws on every input when no group in its schemas is unguarded. */
  lemma FactoryEnds(ctx: Context, s: Bytes)
    requires NestedGuarded(ctx.header) && NestedGuarded(ctx.trailer)
    requires forall m <- ctx.bodies :: NestedGuarded(ctx.bodies[m])
    ensures !Factory(ctx, s).Hangs?
  {
    hide ExtractHeader, DecodeFields, NestedGuarded, Chk, Atoi, CString;
    forall schema, b, present | NestedGuarded(schema) ensures !DecodeFields(ctx.types, schema, b, present).Diverges? {
      GuardedBodyEnds(ctx.types, schema, b, present);
    }
  }

  // ---------------------------------------------------------------- the converse

  /** What the generated tables are like: every tag is constructible, counts are ints, and some field opens an
      instance. */
  ghost predicate Usable(types: FieldTable, g: Schema)
    decreases g
  {
    && (forall t <- g.traits ::
          && t < USHORT && t in types
          && (g.traits[t].group.Some? ==>
                types[t] == IntType && Opens(g.traits[t].group.value) && Usable(types, g.traits[t].group.value)))
  }

  ghost predicate Opens(g: Schema) { exists t <- g.traits :: g.traits[t].pos == 1 }

  /** One element with a single-byte value, in front of some bytes. */
  function InFrontOf(tag: nat, val: byte, tail: Bytes): Bytes { RawElement(Decimal(tag), [val]) + tail }

  lemma ElementBefore(tag: nat, val: byte, tail: Bytes)
    requires tag < USHORT && val != SOH
    ensures var s := InFrontOf(tag, val, tail);
            && s != []
            && ExtractElement(s).Some? && TagValue(ExtractElement(s).value.tag) == tag && ExtractElement(s).value.val == [val]
            && s[ExtractElement(s).value.size..] == tail
  {
    hide Decimal, ExtractElement, TagValue, RawElement;
    ExtractRaw(Decimal(tag), [val], tail);
    TagOfDecimal(tag);
  }

  lemma CountOf(val: byte)
    requires val == ZERO || val == ZERO + 1
    ensures HasCount(Normalise(IntType, [val])) <==> val != ZERO
  {
    var v: Bytes := [val];
    NoNul(v);
    assert v[..0] == [];
    assert Atoi(v) == val - ZERO && Decimal(val - ZERO) == v;
  }

  /** Bytes on which an unguarded group is decoded for ever. */
  lemma {:induction false} UnguardedHangs(types: FieldTable, g: Schema) returns (s: Bytes)
    requires Usable(types, g) && Opens(g) && !Guarded(g)
    ensures DecodeGroup(types, g, s).Diverges?
    decreases g
  {
    if !Lacks(g, {}) {
      s := [0];
      BrokenElement(types, g, s);
    } else {
      hide DecodeGroup, DecodeInst, Lacks;
      var t :| t in g.traits && g.traits[t].group.Some? && !Guarded(g.traits[t].group.value);
      var inner := UnguardedHangs(types, g.traits[t].group.value);
      var p :| p in g.traits && g.traits[p].pos == 1;
      s := InFrontOf(t, ZERO + 1, inner);
      ElementBefore(t, ZERO + 1, inner);
      if p == t {
        CountHangs(types, g, t, s, {});
      } else {
        CountHangs(types, g, t, s, {p});
        var more := s;
        s := InFrontOf(p, ZERO, more);
        ElementBefore(p, ZERO, more);
        OpenerHangs(types, g, p, s, more);
      }
      GroupHangs(types, g, s);
    }
  }

  /** A positive count whose group hangs, in an instance. */
  lemma CountHangs(types: FieldTable, g: Schema, t: nat, s: Bytes, present: set<nat>)
    requires ExtractElement(s).Some? && TagValue(ExtractElement(s).value.tag) == t
    requires ExtractElement(s).value.val == [ZERO + 1]
    requires t in types && types[t] == IntType && t in g.traits && g.traits[t].group.Some? && t !in present
    requires present != {} || g.traits[t].pos == 1
    requires DecodeGroup(types, g.traits[t].group.value, s[ExtractElement(s).value.size..]).Diverges?
    ensures DecodeInst(types, g, s, present).Diverges?
  {
    hide DecodeGroup, ExtractElement, TagValue, Normalise, HasCount;
    CountOf(ZERO + 1);
  }

  /** The field that opens the instance, without a group of its own. */
  lemma OpenerHangs(types: FieldTable, g: Schema, p: nat, s: Bytes, more: Bytes)
    requires ExtractElement(s).Some? && TagValue(ExtractElement(s).value.tag) == p
    requires ExtractElement(s).value.val == [ZERO]
    requires s[ExtractElement(s).value.size..] == more && DecodeInst(types, g, more, {p}).Diverges?
    requires p in types && p in g.traits && g.traits[p].pos == 1 && (g.traits[p].group.Some? ==> types[p] == IntType)
    ensures DecodeInst(types, g, s, {}).Diverges?
  {
    hide DecodeGroup, ExtractElement, TagValue, Normalise, HasCount;
    CountOf(ZERO);
    assert {} + {p} == {p};
  }

  lemma GroupHangs(types: FieldTable, g: Schema, s: Bytes)
    requires s != [] && DecodeInst(types, g, s, {}).Diverges?
    ensures DecodeGroup(types, g, s).Diverges?
  {
    hide DecodeInst;
  }

  /** A group is decoded to an end on every input exactly when it is guarded. */
  lemma GroupEndsWhen(types: FieldTable, g: Schema)
    requires Usable(types, g) && Opens(g)
    ensures (forall s :: !DecodeGroup(types, g, s).Diverges?) <==> Guarded(g)
  {
    hide DecodeGroup;
    if Guarded(g) {
      forall s ensures !DecodeGroup(types, g, s).Diverges? { GuardedGroupEnds(types, g, s); }
    } else {
      var s := UnguardedHangs(types, g);
    }
  }

  /** And a section exactly when every group in it is. */
  lemma BodyEndsWhen(types: FieldTable, schema: Schema)
    requires Usable(types, schema)
    ensures (forall s :: !DecodeFields(types, schema, s, {}).Diverges?) <==> NestedGuarded(schema)
  {
    hide DecodeFields;
    if NestedGuarded(schema) {
      forall s ensures !DecodeFields(types, schema, s, {}).Diverges? { GuardedBodyEnds(types, schema, s, {}); }
    } else {
      var t :| t in schema.traits && schema.traits[t].group.Some? && !Guarded(schema.traits[t].group.value);
      var inner := UnguardedHangs(types, schema.traits[t].group.value);
      ElementBefore(t, ZERO + 1, inner);
      BodyHangs(types, schema, t, InFrontOf(t, ZERO + 1, inner), {});
    }
  }

  lemma BodyHangs(types: FieldTable, schema: Schema, t: nat, s: Bytes, present: set<nat>)
    requires t !in present
    requires ExtractElement(s).Some? && TagValue(ExtractElement(s).value.tag) == t
    requires ExtractElement(s).value.val == [ZERO + 1]
    requires t in types && types[t] == IntType && t in schema.traits && schema.traits[t].group.Some?
    requires DecodeGroup(types, schema.traits[t].group.value, s[ExtractElement(s).value.size..]).Diverges?
    ensures DecodeFields(types, schema, s, present).Diverges?
  {
    hide DecodeGroup, ExtractElement, TagValue, Normalise, HasCount;
    CountOf(ZERO + 1);
  }

  // ---------------------------------------------------------------- the factory

  /** A group of the schema that is not guarded, and an element under which its decoding never ends. */
  lemma UnguardedElement(types: FieldTable, schema: Schema, present: set<nat>) returns (t: nat, s: Bytes)
    requires Usable(types, schema) && !NestedGuarded(schema)
    requires forall u <- present :: u in schema.traits ==> schema.traits[u].group.None?
    ensures t in schema.traits && schema.traits[t].group.Some? && TailIs(s, Some(t))
    ensures DecodeFields(types, schema, s, present).Diverges?
  {
    hide DecodeFields;
    t :| t in schema.traits && schema.traits[t].group.Some? && !Guarded(schema.traits[t].group.value);
    var inner := UnguardedHangs(types, schema.traits[t].group.value);
    ElementBefore(t, ZERO + 1, inner);
    s := InFrontOf(t, ZERO + 1, inner);
    BodyHangs(types, schema, t, s, present);
  }

  /** A message of type `m` with these bytes behind its three leading elements. */
  function WithSections(ctx: Context, m: Bytes, sections: Bytes): Bytes {
    (ElementBytes(BEGIN_STRING, ctx.beginStr) + ElementBytes(BODY_LENGTH, [ZERO])) + (ElementBytes(MSG_TYPE, m) + sections)
  }

  lemma FactoryHangs(ctx: Context, m: Bytes, sections: Bytes)
    requires SOH !in ctx.beginStr && PlainText(m) && m in ctx.bodies
    requires DecodeSections(ctx, ctx.bodies[m], sections).Diverges?
    ensures Factory(ctx, WithSections(ctx, m, sections)).Hangs?
  {
    hide ExtractHeader, DecodeSections, ElementBytes;
    HeaderExtracted(ctx.beginStr, [ZERO], m, sections);
    NoNul(m);
  }

  /** Some legal header can stand before a field with tag `t`. */
  ghost predicate HeaderBefore(ctx: Context, t: nat) {
    exists h :: WFBody(ctx.types, ctx.header, h, HEADER_AUTO, Some(t))
  }

  ghost predicate SectionsBefore(ctx: Context, h: seq<Field>, m: Bytes, b: seq<Field>, t: nat) {
    && m in ctx.bodies && WFBody(ctx.types, ctx.header, h, HEADER_AUTO, FirstTag(b, Some(t)))
    && WFBody(ctx.types, ctx.bodies[m], b, {}, Some(t))
  }

  /** Some legal header and body can. */
  ghost predicate MessageBefore(ctx: Context, t: nat) {
    exists h, m, b :: SectionsBefore(ctx, h, m, b, t)
  }

  /** What the generated tables are like: the calculated fields have no groups, and every group can be reached behind
      legal fields. */
  ghost predicate Sound(ctx: Context) {
    && SOH !in ctx.beginStr && (exists m :: m in ctx.bodies) && (forall m <- ctx.bodies :: PlainText(m))
    && Usable(ctx.types, ctx.header) && Usable(ctx.types, ctx.trailer)
    && (forall m <- ctx.bodies :: Usable(ctx.types, ctx.bodies[m]))
    && (forall t <- HEADER_AUTO :: t in ctx.header.traits ==> ctx.header.traits[t].group.None?)
    && (CHECK_SUM in ctx.trailer.traits ==> ctx.trailer.traits[CHECK_SUM].group.None?)
    && (forall m, t :: m in ctx.bodies && t in ctx.bodies[m].traits && ctx.bodies[m].traits[t].group.Some? ==>
          HeaderBefore(ctx, t))
    && (forall t <- ctx.trailer.traits :: ctx.trailer.traits[t].group.Some? ==> MessageBefore(ctx, t))
  }

  /** An unguarded group in the header, bytes on which the factory never returns. */
  lemma HeaderHangs(ctx: Context) returns (s: Bytes)
    requires Sound(ctx) && !NestedGuarded(ctx.header)
    ensures Factory(ctx, s).Hangs?
  {
    hide DecodeFields, NestedGuarded, Usable, HeaderBefore, MessageBefore;
    var m :| m in ctx.bodies;
    var t, sections := UnguardedElement(ctx.types, ctx.header, HEADER_AUTO);
    assert DecodeSections(ctx, ctx.bodies[m], sections).Diverges?;
    FactoryHangs(ctx, m, sections);
    s := WithSections(ctx, m, sections);
  }

  /** In a body. */
  lemma MessageHangs(ctx: Context, m: Bytes) returns (s: Bytes)
    requires Sound(ctx) && m in ctx.bodies && !NestedGuarded(ctx.bodies[m])
    ensures Factory(ctx, s).Hangs?
  {
    hide DecodeFields, EncodeFields, NestedGuarded, Usable, MessageBefore, WFBody, TailIs;
    var t, group := UnguardedElement(ctx.types, ctx.bodies[m], {});
    assert HeaderBefore(ctx, t);
    var h :| WFBody(ctx.types, ctx.header, h, HEADER_AUTO, Some(t));
    var sections := EncodeFields(h) + group;
    BodyRoundTrip(ctx.types, ctx.header, h, HEADER_AUTO, Some(t), group);
    assert DecodeSections(ctx, ctx.bodies[m], sections).Diverges?;
    FactoryHangs(ctx, m, sections);
    s := WithSections(ctx, m, sections);
  }

  /** In the trailer. */
  lemma TrailerHangs(ctx: Context) returns (s: Bytes)
    requires Sound(ctx) && !NestedGuarded(ctx.trailer)
    ensures Factory(ctx, s).Hangs?
  {
    var t, group := UnguardedElement(ctx.types, ctx.trailer, {CHECK_SUM});
    assert MessageBefore(ctx, t);
    var h, m, b :| SectionsBefore(ctx, h, m, b, t);
    hide Factory, DecodeSections, DecodeFields, EncodeFields, TailIs;
    var last: Bytes := [0, 0, 0, 0, 0, 0, 0];
    TrailerReached(ctx, h, m, b, t, group, last);
    var sections := EncodeFields(h) + (EncodeFields(b) + (group + last));
    FactoryHangs(ctx, m, sections);
    s := WithSections(ctx, m, sections);
  }

  /** The trailer's decoder gets what follows a legal header and body. */
  lemma TrailerReached(ctx: Context, h: seq<Field>, m: Bytes, b: seq<Field>, t: nat, group: Bytes, last: Bytes)
    requires SectionsBefore(ctx, h, m, b, t) && TailIs(group, Some(t)) && |last| == CHKSUM_SZ
    requires DecodeFields(ctx.types, ctx.trailer, group, {CHECK_SUM}).Diverges?
    ensures DecodeSections(ctx, ctx.bodies[m], EncodeFields(h) + (EncodeFields(b) + (group + last))).Diverges?
  {
    hide DecodeFields, EncodeFields, WFBody, TailIs;
    var tail := group + last;
    TailLonger(group, t, last);
    SectionTail(ctx.types, ctx.bodies[m], b, {}, Some(t), tail);
    BodyRoundTrip(ctx.types, ctx.bodies[m], b, {}, Some(t), tail);
    BodyRoundTrip(ctx.types, ctx.header, h, HEADER_AUTO, FirstTag(b, Some(t)), EncodeFields(b) + tail);
    assert DropChksum(tail) == group;
  }

  lemma TailLonger(s: Bytes, t: nat, more: Bytes)
    requires TailIs(s, Some(t))
    ensures TailIs(s + more, Some(t))
  {
    hide ExtractElement, TagValue;
    StillExtracted(s, more);
  }

  /** The factory returns or throws on every input exactly when no group in any of its schemas is unguarded. */
  lemma FactoryEndsWhen(ctx: Context)
    requires Sound(ctx)
    ensures (forall s :: !Factory(ctx, s).Hangs?)
            <==> NestedGuarded(ctx.header) && NestedGuarded(ctx.trailer)
                 && forall m <- ctx.bodies :: NestedGuarded(ctx.bodies[m])
  {
    hide Factory, NestedGuarded, Sound;
    if !NestedGuarded(ctx.header) {
      var s := HeaderHangs(ctx);
    } else if !NestedGuarded(ctx.trailer) {
      var s := TrailerHangs(ctx);
    } else if m :| m in ctx.bodies && !NestedGuarded(ctx.bodies[m]) {
      var s := MessageHangs(ctx, m);
    } else {
      forall s ensures !Factory(ctx, s).Hangs? { FactoryEnds(ctx, s); }
    }
  }

  /** A schema with one group of optional fields, and a stray NUL where its first instance should be. */
  lemma OptionalGroupHangs()
    ensures var optional := Schema(map[269 := Trait(CharType, 1, false, false, None)]);
            var schema := Schema(map[268 := Trait(IntType, 1, false, false, Some(optional))]);
            DecodeFields(map[268 := IntType, 269 := CharType], schema, [50, 54, 56, EQUALS, 49, SOH, 0], {}).Diverges?
  {
    var optional := Schema(map[269 := Trait(CharType, 1, false, false, None)]);
    var schema := Schema(map[268 := Trait(IntType, 1, false, false, Some(optional))]);
    var types := map[268 := IntType, 269 := CharType];
    hide DecodeFields, DecodeGroup, ExtractElement, InFrontOf;
    NothingExtracted();
    BrokenElement(types, optional, [0]);
    ElementBefore(268, 49, [0]);
    StrayText();
    BodyHangs(types, schema, 268, InFrontOf(268, 49, [0]), {});
  }

  lemma NothingExtracted()
    ensures ExtractElement([0]).None?
  {}

  lemma StrayText()
    ensures InFrontOf(268, 49, [0]) == [50, 54, 56, EQUALS, 49, SOH, 0]
  {
    assert Decimal(268) == Decimal(26) + [ZERO + 8] && Decimal(26) == Decimal(2) + [ZERO + 6];
  }
}
