/** What a decoded message always has: every mandatory field, in every section and in every group instance. */
module Completeness {
  import opened Common
  import opened Bytes
  import opened Codec
  import opened Frame
  import Canonical

  predicate Supplied(fs: seq<Field>, t: nat) { exists f <- fs :: f.tag == t }

  /** Every mandatory tag is there, in the section or before it, and in each instance of each group, to any depth. */
  ghost predicate Complete(schema: Schema, fs: seq<Field>, present: set<nat>)
    decreases fs
  {
    && (forall t <- schema.traits :: schema.traits[t].mandatory ==> t in present || Supplied(fs, t))
    && (forall f <- fs :: CompleteField(schema, f))
  }

  ghost predicate CompleteField(schema: Schema, f: Field)
    decreases f
  {
    && f.tag in schema.traits
    && (f.insts != [] ==> f.hasGroup)
    && (f.hasGroup ==>
          schema.traits[f.tag].group.Some?
          && forall i <- f.insts :: Complete(schema.traits[f.tag].group.value, i.fields, {}))
  }

  ghost predicate AllComplete(g: Schema, insts: seq<Inst>) {
    forall i <- insts :: Complete(g, i.fields, {})
  }

  lemma CompleteCons(schema: Schema, f: Field, fs: seq<Field>, present: set<nat>)
    requires CompleteField(schema, f) && Complete(schema, fs, present + {f.tag})
    ensures Complete(schema, [f] + fs, present)
  {
    hide CompleteField;
    forall t | t in schema.traits && schema.traits[t].mandatory ensures t in present || Supplied([f] + fs, t) {
      if t == f.tag {
        assert ([f] + fs)[0] == f;
      } else if t !in present {
        var g :| g in fs && g.tag == t;
        assert g in [f] + fs;
      }
    }
  }

  lemma NothingMissing(schema: Schema, present: set<nat>, s: Bytes)
    ensures Finish(schema, present, s).Done? ==> Finish(schema, present, s).value == [] && Complete(schema, [], present)
    ensures forall last :: FinishInst(schema, present, s, last).Done? ==>
              FinishInst(schema, present, s, last).value.0 == [] && Complete(schema, [], present)
  {}

  lemma {:induction false} GroupComplete(types: FieldTable, g: Schema, s: Bytes)
    ensures DecodeGroup(types, g, s).Done? ==> AllComplete(g, DecodeGroup(types, g, s).value)
    decreases |s|, 2
  {
    hide DecodeInst, Complete;
    if s != [] {
      InstComplete(types, g, s, {});
      var i := DecodeInst(types, g, s, {});
      if i.Done? && |i.rest| < |s| { GroupComplete(types, g, i.rest); }
    }
  }

  lemma {:induction false} InstComplete(types: FieldTable, g: Schema, s: Bytes, present: set<nat>)
    ensures var o := DecodeInst(types, g, s, present); o.Done? ==> Complete(g, o.value.0, present)
    decreases |s|, 1, 0
  {
    hide ExtractElement, TagValue, Normalise, HasCount, DecodeGroup, FinishInst, Complete;
    NothingMissing(g, present, s);
    match ExtractElement(s)
    case None =>
    case Some(e) =>
      var tag := TagValue(e.tag);
      if tag in g.traits && tag in types {
        var value := Normalise(types[tag], e.val);
        if g.traits[tag].group.Some? && HasCount(value) {
          var nested := g.traits[tag].group.value;
          var n := DecodeGroup(types, nested, s[e.size..]);
          GroupComplete(types, nested, s[e.size..]);
          if n.Done? { InstGoesOn(types, g, n.rest, Field(tag, value, true, n.value), present); }
        } else {
          InstGoesOn(types, g, s[e.size..], Field(tag, value, false, []), present);
        }
      }
  }

  lemma {:induction false} InstGoesOn(types: FieldTable, g: Schema, s: Bytes, f: Field, present: set<nat>)
    requires CompleteField(g, f)
    ensures var o := PrependInst(f, DecodeInst(types, g, s, present + {f.tag})); o.Done? ==> Complete(g, o.value.0, present)
    decreases |s|, 1, 1
  {
    hide DecodeInst, Complete, CompleteField;
    InstComplete(types, g, s, present + {f.tag});
    var o := DecodeInst(types, g, s, present + {f.tag});
    if o.Done? { CompleteCons(g, f, o.value.0, present); }
  }

  /** A section that is decoded has all its mandatory fields, and so has every instance of every group in it. */
  lemma {:induction false} SectionComplete(types: FieldTable, schema: Schema, s: Bytes, present: set<nat>)
    ensures var o := DecodeFields(types, schema, s, present); o.Done? ==> Complete(schema, o.value, present)
    decreases |s|, 1
  {
    hide ExtractElement, TagValue, Normalise, HasCount, DecodeGroup, AfterField, Finish, Complete;
    NothingMissing(schema, present, s);
    match ExtractElement(s)
    case None =>
    case Some(e) =>
      var tag := TagValue(e.tag);
      if tag in schema.traits && tag in present {
        SectionComplete(types, schema, s[e.size..], present);
      } else if tag in schema.traits && tag in types {
        var value := Normalise(types[tag], e.val);
        if schema.traits[tag].group.Some? && HasCount(value) {
          var nested := schema.traits[tag].group.value;
          var n := DecodeGroup(types, nested, s[e.size..]);
          GroupComplete(types, nested, s[e.size..]);
          if n.Done? { SectionGoesOn(types, schema, e.val, n.rest, Field(tag, value, true, n.value), present); }
        } else {
          SectionGoesOn(types, schema, e.val, s[e.size..], Field(tag, value, false, []), present);
        }
      }
  }

  lemma {:induction false} SectionGoesOn(types: FieldTable, schema: Schema, val: Bytes, s: Bytes, f: Field, present: set<nat>)
    requires CompleteField(schema, f) && f.tag in schema.traits
    ensures var o := Prepend(f, AfterField(types, schema, f.tag, val, s, present));
            o.Done? ==> Complete(schema, o.value, present)
    decreases |s|, 3
  {
    hide AfterField, Complete, CompleteField;
    AfterComplete(types, schema, f.tag, val, s, present);
    var o := AfterField(types, schema, f.tag, val, s, present);
    if o.Done? { CompleteCons(schema, f, o.value, present); }
  }

  lemma {:induction false} AfterComplete(types: FieldTable, schema: Schema, tag: nat, val: Bytes, s: Bytes,
          before: set<nat>)
    requires tag in schema.traits
    ensures var o := AfterField(types, schema, tag, val, s, before);
            o.Done? ==> Complete(schema, o.value, before + {tag})
    decreases |s|, 2
  {
    hide ExtractFixed, TagValue, Normalise, DecodeFields, Finish, Atoi, CString, Complete;
    var present := before + {tag};
    NothingMissing(schema, present, s);
    SectionComplete(types, schema, s, present);
    var width := Atoi(CString(val)) % UNSIGNED;
    match ExtractFixed(s, width)
    case None =>
    case Some(e) =>
      var d := TagValue(e.tag);
      if d in types && d in schema.traits && e.size > 0 {
        var rest := Rest(s, e.size);
        Canonical.FixedConsumes(s, width);
        SectionComplete(types, schema, rest, present + {d});
        var o := DecodeFields(types, schema, rest, present + {d});
        if o.Done? { CompleteCons(schema, Field(d, Normalise(types[d], e.val), false, []), o.value, present); }
      }
  }

  // ---------------------------------------------------------------- why decoding fails

  ghost predicate HasMandatory(g: Schema) { exists t <- g.traits :: g.traits[t].mandatory }

  /** The exceptions that a group can cause, at any depth of it. */
  ghost predicate GroupCauses(g: Schema, e: Error)
    decreases g
  {
    || (e.MissingMandatoryField? && HasMandatory(g))
    || (e.MissingRepeatingGroupField? && Position(g, e.tag) != 1)
    || exists t <- g.traits :: g.traits[t].group.Some? && GroupCauses(g.traits[t].group.value, e)
  }

  /** Those that a section can cause. */
  ghost predicate Causes(types: FieldTable, schema: Schema, e: Error) {
    match e
    case DuplicateField(t) => t in schema.traits && !schema.traits[t].automatic
    case UnknownField(t) => t in schema.traits && t !in types
    case ValueTooLarge => HasLength(schema)
    case MissingMandatoryField => HasMandatory(schema) || HasLength(schema) || NestedCauses(schema, e)
    case _ => NestedCauses(schema, e)
  }

  ghost predicate NestedCauses(schema: Schema, e: Error) {
    exists t <- schema.traits :: schema.traits[t].group.Some? && GroupCauses(schema.traits[t].group.value, e)
  }

  ghost predicate HasLength(schema: Schema) {
    exists t <- schema.traits :: schema.traits[t].ftype == LengthType && t != BODY_LENGTH
  }

  lemma FinishCauses(schema: Schema, present: set<nat>, s: Bytes)
    ensures Finish(schema, present, s).Fails? ==>
              Finish(schema, present, s).error == MissingMandatoryField && HasMandatory(schema)
    ensures forall last :: FinishInst(schema, present, s, last).Fails? ==>
              FinishInst(schema, present, s, last).error == MissingMandatoryField && HasMandatory(schema)
  {}

  lemma {:induction false} GroupFails(types: FieldTable, g: Schema, s: Bytes)
    ensures DecodeGroup(types, g, s).Fails? ==> GroupCauses(g, DecodeGroup(types, g, s).error)
    decreases |s|, 2
  {
    hide DecodeInst, GroupCauses;
    if s != [] {
      InstFails(types, g, s, {});
      var i := DecodeInst(types, g, s, {});
      if i.Done? && |i.rest| < |s| { GroupFails(types, g, i.rest); }
    }
  }

  lemma {:induction false} InstFails(types: FieldTable, g: Schema, s: Bytes, present: set<nat>)
    ensures var o := DecodeInst(types, g, s, present); o.Fails? ==> GroupCauses(g, o.error)
    decreases |s|, 1
  {
    hide ExtractElement, TagValue, Normalise, HasCount, DecodeGroup, FinishInst, HasMandatory;
    FinishCauses(g, present, s);
    match ExtractElement(s)
    case None =>
    case Some(e) =>
      var tag := TagValue(e.tag);
      if tag in g.traits {
        InstFails(types, g, s[e.size..], present + {tag});
        if g.traits[tag].group.Some? {
          var n := DecodeGroup(types, g.traits[tag].group.value, s[e.size..]);
          GroupFails(types, g.traits[tag].group.value, s[e.size..]);
          if n.Done? { InstFails(types, g, n.rest, present + {tag}); }
        }
      }
  }

  /** On arbitrary bytes: a section fails only with an exception that its schema gives cause for. */
  lemma {:induction false} SectionFails(types: FieldTable, schema: Schema, s: Bytes, present: set<nat>)
    ensures var o := DecodeFields(types, schema, s, present); o.Fails? ==> Causes(types, schema, o.error)
    decreases |s|, 1
  {
    hide ExtractElement, TagValue, Normalise, HasCount, DecodeGroup, AfterField, Finish, HasMandatory, HasLength, GroupCauses;
    FinishCauses(schema, present, s);
    match ExtractElement(s)
    case None =>
    case Some(e) =>
      var tag := TagValue(e.tag);
      if tag in schema.traits {
        SectionFails(types, schema, s[e.size..], present);
        AfterFails(types, schema, tag, e.val, s[e.size..], present);
        if schema.traits[tag].group.Some? {
          var n := DecodeGroup(types, schema.traits[tag].group.value, s[e.size..]);
          GroupFails(types, schema.traits[tag].group.value, s[e.size..]);
          if n.Fails? { assert NestedCauses(schema, n.error); GroupErrors(schema.traits[tag].group.value, n.error); }
          if n.Done? { AfterFails(types, schema, tag, e.val, n.rest, present); }
        }
      }
  }

  lemma {:induction false} GroupErrors(g: Schema, e: Error)
    requires GroupCauses(g, e)
    ensures e.MissingMandatoryField? || e.MissingRepeatingGroupField?
    decreases g
  {
    if !e.MissingMandatoryField? && !e.MissingRepeatingGroupField? {
      var t :| t in g.traits && g.traits[t].group.Some? && GroupCauses(g.traits[t].group.value, e);
      GroupErrors(g.traits[t].group.value, e);
    }
  }

  lemma {:induction false} AfterFails(types: FieldTable, schema: Schema, tag: nat, val: Bytes, s: Bytes,
          before: set<nat>)
    requires tag in schema.traits
    ensures var o := AfterField(types, schema, tag, val, s, before); o.Fails? ==> Causes(types, schema, o.error)
    decreases |s|, 2
  {
    hide ExtractFixed, TagValue, Normalise, DecodeFields, Finish, Atoi, CString, HasMandatory, NestedCauses;
    var present := before + {tag};
    FinishCauses(schema, present, s);
    SectionFails(types, schema, s, present);
    var width := Atoi(CString(val)) % UNSIGNED;
    match ExtractFixed(s, width)
    case None =>
    case Some(e) =>
      Canonical.FixedConsumes(s, width);
      SectionFails(types, schema, Rest(s, e.size), present + {TagValue(e.tag)});
  }

  /** What the factory accepts: a message of a known type with all three sections complete. */
  lemma MadeIsComplete(ctx: Context, s: Bytes, p: Parsed)
    requires Factory(ctx, s) == Made(p)
    ensures p.msgType in ctx.bodies && Complete(ctx.header, p.header, HEADER_AUTO)
    ensures Complete(ctx.bodies[p.msgType], p.body, {}) && Complete(ctx.trailer, p.trailer, {CHECK_SUM})
  {
    hide ExtractHeader, DecodeFields, Complete, Atoi, CString, Chk;
    var (len, mtype, hlen) := ExtractHeader(s).value;
    var body := ctx.bodies[CString(mtype)];
    var h := DecodeFields(ctx.types, ctx.header, s[hlen..], HEADER_AUTO);
    SectionComplete(ctx.types, ctx.header, s[hlen..], HEADER_AUTO);
    var b := DecodeFields(ctx.types, body, h.rest, {});
    SectionComplete(ctx.types, body, h.rest, {});
    SectionComplete(ctx.types, ctx.trailer, DropChksum(b.rest), {CHECK_SUM});
  }

  /** It carries "10=" where the code looks for it, and then the checksum of the bytes before that. */
  lemma MadeIsChecked(ctx: Context, s: Bytes) returns (front: Bytes, c: Bytes)
    requires Factory(ctx, s).Made?
    ensures |c| == 3 && |s| == |front| + CHKSUM_SZ && front + [49, 48] <= s && c == s[|front| + 3..|front| + 6]
    ensures Atoi(CString(c)) % UNSIGNED == Chk(front)
  {
    hide ExtractHeader, DecodeSections, Atoi, CString, Chk;
    front, c := s[..|s| - 7], s[|s| - 4..|s| - 1];
    assert front + [49, 48] == s[..|s| - 5];
  }

  /** And its first three elements have tags that begin with 8, 9 and 35; its type and its length are the values of the
      third and the second. */
  lemma MadeIsHeaded(ctx: Context, s: Bytes) returns (e8: Element, e9: Element, e35: Element)
    requires Factory(ctx, s).Made?
    ensures ExtractElement(s) == Some(e8) && [56] <= e8.tag
    ensures e8.size <= |s| && ExtractElement(s[e8.size..]) == Some(e9) && [57] <= e9.tag
    ensures e8.size + e9.size <= |s| && ExtractElement(s[e8.size + e9.size..]) == Some(e35) && [51, 53] <= e35.tag
    ensures Factory(ctx, s).msg.msgType == CString(e35.val)
    ensures Factory(ctx, s).msg.length == Atoi(CString(e9.val)) % UNSIGNED
  {
    hide ExtractElement, DecodeSections, Atoi, CString, Chk;
    e8 := ExtractElement(s).value;
    e9 := ExtractElement(s[e8.size..]).value;
    e35 := ExtractElement(s[e8.size + e9.size..]).value;
  }
}
