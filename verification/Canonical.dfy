/**
 Encoding undoes decoding, and decoding ends: what the decoder does on any stream of whole tag=value elements.
 */
module Canonical {
  import opened Common
  import opened Bytes
  import opened Codec
  import opened RoundTrip

  /** An element as it stands in a stream. */
  datatype Raw = Raw(tag: Bytes, val: Bytes)

  predicate Whole(e: Raw) { AllDigits(e.tag) && SOH !in e.val }

  predicate AllWhole(es: seq<Raw>) { forall e <- es :: Whole(e) }

  function Stream(es: seq<Raw>): Bytes {
    if es == [] then [] else RawElement(es[0].tag, es[0].val) + Stream(es[1..])
  }

  /** No leading zeros in the tag, and a value that prints as it was written. */
  predicate IsCanonical(types: FieldTable, e: Raw) {
    && e.tag == Decimal(TagValue(e.tag))
    && (TagValue(e.tag) in types ==> Normalise(types[TagValue(e.tag)], e.val) == e.val)
  }

  predicate AllCanonical(types: FieldTable, es: seq<Raw>) { forall e <- es :: IsCanonical(types, e) }

  /** A Length field directly followed by the data field it measures. */
  predicate Pair(schema: Schema, a: Raw, b: Raw) {
    && IsLength(schema, TagValue(a.tag)) && TagValue(b.tag) == TagValue(a.tag) + 1
    && TagValue(b.tag) in schema.traits && schema.traits[TagValue(b.tag)].ftype == DataType
  }

  predicate PairsAgree(schema: Schema, es: seq<Raw>) {
    forall i :: 0 <= i < |es| - 1 && Pair(schema, es[i], es[i + 1]) ==>
      Atoi(CString(es[i].val)) % UNSIGNED == |es[i + 1].val|
  }

  predicate AutomaticTag(schema: Schema, e: Raw) {
    TagValue(e.tag) in schema.traits && schema.traits[TagValue(e.tag)].automatic
  }

  /** No automatic field occurs twice or was there before. */
  predicate NoRepeat(schema: Schema, es: seq<Raw>, present: set<nat>) {
    forall i :: 0 <= i < |es| && AutomaticTag(schema, es[i]) ==>
      TagValue(es[i].tag) !in present && forall j :: 0 <= j < i ==> TagValue(es[j].tag) != TagValue(es[i].tag)
  }

  /** What decoding must leave behind: the stream from some element boundary on. */
  predicate AtBoundary(es: seq<Raw>, k: nat, rest: Bytes) { k <= |es| && rest == Stream(es[k..]) }

  /** The tag belongs to the schema or to a group in it, at whatever depth. */
  ghost predicate Within(g: Schema, tag: nat)
    decreases g
  {
    tag in g.traits || exists t <- g.traits :: g.traits[t].group.Some? && Within(g.traits[t].group.value, tag)
  }

  /** The first `k` elements belong there. */
  ghost predicate AllWithin(g: Schema, es: seq<Raw>, k: nat) {
    forall j :: 0 <= j < k && j < |es| ==> Within(g, TagValue(es[j].tag))
  }

  lemma WithinMore(g: Schema, es: seq<Raw>, k1: nat, k2: nat)
    requires k1 <= |es| && AllWithin(g, es, k1) && AllWithin(g, es[k1..], k2)
    ensures AllWithin(g, es, k1 + k2)
  {
    hide Within, TagValue;
    forall j | 0 <= j < k1 + k2 && j < |es| ensures Within(g, TagValue(es[j].tag)) {
      if j >= k1 { assert es[j] == es[k1..][j - k1]; }
    }
  }

  lemma FirstWithin(g: Schema, es: seq<Raw>)
    requires es != [] && TagValue(es[0].tag) in g.traits
    ensures AllWithin(g, es, 1)
  {}

  /** A field and the elements of its group. */
  lemma GroupWithin(g: Schema, es: seq<Raw>, k1: nat)
    requires es != [] && TagValue(es[0].tag) in g.traits && g.traits[TagValue(es[0].tag)].group.Some?
    requires AllWithin(g.traits[TagValue(es[0].tag)].group.value, es[1..], k1)
    ensures AllWithin(g, es, 1 + k1)
  {
    hide TagValue;
    var nested := g.traits[TagValue(es[0].tag)].group.value;
    forall j | 0 <= j < k1 && j < |es[1..]| ensures Within(g, TagValue(es[1..][j].tag)) {
      assert Within(nested, TagValue(es[1..][j].tag));
    }
    FirstWithin(g, es);
    WithinMore(g, es, 1, k1);
  }

  lemma NoneWithin(g: Schema, es: seq<Raw>)
    ensures AllWithin(g, es, 0)
  {}

  function SizeOf(e: Raw): nat { |e.tag| + |e.val| + 2 }

  lemma StreamHead(es: seq<Raw>)
    requires AllWhole(es)
    ensures es == [] ==> Stream(es) == [] && ExtractElement(Stream(es)).None?
    ensures es != [] ==>
              && ExtractElement(Stream(es)) == Some(Element(es[0].tag, es[0].val, SizeOf(es[0])))
              && Stream(es)[SizeOf(es[0])..] == Stream(es[1..]) && AllWhole(es[1..])
  {
    hide ExtractElement, RawElement, Whole, AllWhole, Stream;
    if es == [] {
      NothingOnStream();
      ExtractNone();
    } else {
      WholeIs(es);
      StreamFirst(es);
      ExtractRaw(es[0].tag, es[0].val, Stream(es[1..]));
      WholeRest(es);
    }
  }

  lemma StreamFirst(es: seq<Raw>)
    requires es != []
    ensures Stream(es) == RawElement(es[0].tag, es[0].val) + Stream(es[1..])
  {}

  lemma WholeRest(es: seq<Raw>)
    requires AllWhole(es) && es != []
    ensures AllWhole(es[1..])
  {}

  lemma ExtractNone()
    ensures ExtractElement([]).None?
  {}

  lemma Later(es: seq<Raw>, j: nat, k: nat)
    requires j <= |es| && k <= |es[j..]|
    ensures es[j..][k..] == es[j + k..]
  {}

  /** What a field decoded from a canonical element encodes to. */
  lemma FieldBack(types: FieldTable, e: Raw, insts: seq<Inst>, hasGroup: bool, nested: Bytes, after: Bytes)
    requires TagValue(e.tag) in types && IsCanonical(types, e)
    requires nested == if hasGroup && HasCount(e.val) then EncodeGroup(insts) else []
    ensures EncodeField(Field(TagValue(e.tag), Normalise(types[TagValue(e.tag)], e.val), hasGroup, insts)) + after
         == RawElement(e.tag, e.val) + (nested + after)
  {
    hide EncodeGroup, Decimal, Normalise, HasCount;
  }

  lemma PrependEncodes(f: Field, fs: seq<Field>, rest: Bytes)
    ensures EncodeFields([f] + fs) + rest == EncodeField(f) + (EncodeFields(fs) + rest)
  {
    hide EncodeField;
    assert ([f] + fs)[1..] == fs;
  }

  /** A group decoded from whole elements: the loop ends, every instance takes at least one element, and what is left
      starts at an element. If the elements are canonical, encoding the instances gives back the bytes consumed. */
  lemma {:induction false} GroupOnStream(types: FieldTable, g: Schema, es: seq<Raw>) returns (k: nat)
    requires AllWhole(es)
    ensures !DecodeGroup(types, g, Stream(es)).Diverges?
    ensures var o := DecodeGroup(types, g, Stream(es));
            o.Done? ==> AtBoundary(es, k, o.rest)
                        && AllWithin(g, es, k) && ((forall t <- g.traits :: t in types) ==> |o.value| <= k)
                        && (AllCanonical(types, es) ==> EncodeGroup(o.value) + o.rest == Stream(es))
    decreases |es|, 1
  {
    hide DecodeInst, EncodeFields, EncodeGroup, ExtractElement, RawElement, IsCanonical, AllCanonical, AllWhole, Stream,
         GivesBack, AllWithin;
    k := 0;
    NoneWithin(g, es);
    if es == [] {
      assert es[0..] == es;
      NothingOnStream();
    } else {
      StreamNotEmpty(es);
      var k1 := InstOnStream(types, g, es, {});
      var i := DecodeInst(types, g, Stream(es), {});
      if i.Done? {
        var (fields, last) := i.value;
        k := k1;
        if last {
          GroupEndsHere(types, es, fields, i.rest);
        } else {
          Suffix(types, es, k1);
          StreamShorter(es, k1);
          var k2 := GroupOnStream(types, g, es[k1..]);
          var more := DecodeGroup(types, g, i.rest);
          if more.Done? {
            Later(es, k1, k2);
            k := k1 + k2;
            WithinMore(g, es, k1, k2);
            GroupGoesOn(types, es, k1, fields, more.value, more.rest);
          }
        }
      }
    }
  }

  lemma NothingOnStream()
    ensures Stream([]) == [] && EncodeGroup([]) == []
  {}

  lemma GroupEndsHere(types: FieldTable, es: seq<Raw>, fields: seq<Field>, rest: Bytes)
    ensures GivesBack(fields, rest, es) ==> EncodeGroup([Inst(fields)]) + rest == Stream(es)
  {
    GroupCons(fields, [], rest);
  }

  lemma GroupGoesOn(types: FieldTable, es: seq<Raw>, k: nat, fields: seq<Field>, insts: seq<Inst>, rest: Bytes)
    requires k <= |es| && (AllCanonical(types, es[k..]) ==> EncodeGroup(insts) + rest == Stream(es[k..]))
    requires AllCanonical(types, es) ==> AllCanonical(types, es[k..]) && GivesBack(fields, Stream(es[k..]), es)
    ensures AllCanonical(types, es) ==> EncodeGroup([Inst(fields)] + insts) + rest == Stream(es)
  {
    GroupCons(fields, insts, rest);
    hide EncodeGroup, EncodeFields, AllCanonical, Stream;
  }

  lemma Suffix(types: FieldTable, es: seq<Raw>, k: nat)
    requires k <= |es| && AllWhole(es)
    ensures AllWhole(es[k..]) && (AllCanonical(types, es) ==> AllCanonical(types, es[k..]))
  {
    hide Whole, IsCanonical;
    forall e | e in es[k..] ensures e in es {}
  }

  lemma GroupCons(fields: seq<Field>, insts: seq<Inst>, rest: Bytes)
    ensures EncodeGroup([Inst(fields)] + insts) + rest == EncodeFields(fields) + (EncodeGroup(insts) + rest)
    ensures EncodeGroup([Inst(fields)]) + rest == EncodeFields(fields) + rest
  {
    hide EncodeFields;
    assert ([Inst(fields)] + insts)[1..] == insts;
    assert [Inst(fields)][1..] == [];
  }

  lemma StreamNotEmpty(es: seq<Raw>)
    requires es != []
    ensures Stream(es) != [] && |Stream(es[1..])| < |Stream(es)|
  {}

  lemma {:induction false} StreamShorter(es: seq<Raw>, k: nat)
    requires 1 <= k <= |es|
    ensures |Stream(es[k..])| < |Stream(es)|
  {
    StreamNotEmpty(es);
    if k > 1 {
      Later(es, 1, k - 1);
      StreamShorter(es[1..], k - 1);
    }
  }

  lemma {:induction false} InstOnStream(types: FieldTable, g: Schema, es: seq<Raw>, present: set<nat>) returns (k: nat)
    requires AllWhole(es)
    ensures !DecodeInst(types, g, Stream(es), present).Diverges?
    ensures var o := DecodeInst(types, g, Stream(es), present);
            o.Done? ==> AtBoundary(es, k, o.rest) && AllWithin(g, es, k)
                        && (AllCanonical(types, es) ==> GivesBack(o.value.0, o.rest, es))
                        && (present == {} && es != [] ==>
                              k >= 1 || (o.value.1 && exists t <- g.traits :: t !in types))
    decreases |es|, 0, 1
  {
    hide DecodeGroup, EncodeGroup, EncodeField, EncodeFields, ExtractElement, RawElement, Normalise, TagValue, HasCount,
         IsCanonical, Stream, AllWhole, AllCanonical, Lacks, GivesBack, GroupBack, AllWithin;
    k := 0;
    NoneWithin(g, es);
    assert es[0..] == es;
    StreamHead(es);
    BackNone(es);
    if es != [] {
      var e, tag := es[0], TagValue(es[0].tag);
      Suffix(types, es, 1);
      if tag !in present && (present == {} ==> Position(g, tag) == 1) && tag in types && tag in g.traits {
        var value := Normalise(types[tag], e.val);
        if g.traits[tag].group.Some? && HasCount(value) {
          var k1 := GroupOnStream(types, g.traits[tag].group.value, es[1..]);
          var n := DecodeGroup(types, g.traits[tag].group.value, Stream(es[1..]));
          if n.Done? {
            BodyGroupBack(types, es, k1, Field(tag, value, true, n.value), n.rest);
            GroupWithin(g, es, k1);
            k := InstGoesOn(types, g, es, 1 + k1, Field(tag, value, true, n.value), present);
          }
        } else {
          DataBack(Field(tag, value, false, []), es);
          FirstWithin(g, es);
          k := InstGoesOn(types, g, es, 1, Field(tag, value, false, []), present);
        }
      }
    }
  }

  lemma {:induction false} InstGoesOn(types: FieldTable, g: Schema, es: seq<Raw>, k1: nat, f: Field,
          present: set<nat>) returns (k: nat)
    requires AllWhole(es) && 1 <= k1 <= |es| && AllWithin(g, es, k1)
    requires f.tag == TagValue(es[0].tag) && f.tag in types
    requires f.value == Normalise(types[f.tag], es[0].val) && (f.hasGroup ==> HasCount(f.value))
    ensures var o := PrependInst(f, DecodeInst(types, g, Stream(es[k1..]), present + {f.tag}));
            && !o.Diverges? && k >= 1
            && (o.Done? ==>
                  && AtBoundary(es, k, o.rest) && AllWithin(g, es, k)
                  && (AllCanonical(types, es) && GroupBack(f, Stream(es[k1..]), es) ==> GivesBack(o.value.0, o.rest, es)))
    decreases |es|, 0, 0
  {
    hide Normalise, TagValue, HasCount, AllCanonical, AllWhole, GivesBack, GroupBack, Stream, DecodeInst, AllWithin;
    Suffix(types, es, k1);
    var k2 := InstOnStream(types, g, es[k1..], present + {f.tag});
    k := k1 + k2;
    var m := DecodeInst(types, g, Stream(es[k1..]), present + {f.tag});
    if m.Done? {
      Later(es, k1, k2);
      WithinMore(g, es, k1, k2);
      if AllCanonical(types, es) && GroupBack(f, Stream(es[k1..]), es) {
        BackCons(types, es, k1, f, m.value.0, m.rest);
      }
    }
  }

  /** One decoded field in front of more: `mid` is what the field's own group left. */
  lemma InstCons(types: FieldTable, es: seq<Raw>, f: Field, more: seq<Field>, mid: Bytes, rest: Bytes)
    requires es != [] && f.tag == TagValue(es[0].tag) && f.tag in types && f.value == Normalise(types[f.tag], es[0].val)
    requires f.hasGroup ==> HasCount(f.value)
    ensures AllCanonical(types, es) && EncodeFields(more) + rest == mid
            && (if f.hasGroup then EncodeGroup(f.insts) else []) + mid == Stream(es[1..])
            ==> EncodeFields([f] + more) + rest == Stream(es)
  {
    hide EncodeGroup, EncodeField, EncodeFields, RawElement, Normalise, TagValue, HasCount, IsCanonical;
    if AllCanonical(types, es) && EncodeFields(more) + rest == mid {
      assert IsCanonical(types, es[0]);
      CanonicalValue(types, es[0]);
      PrependEncodes(f, more, rest);
      FieldBack(types, es[0], f.insts, f.hasGroup, if f.hasGroup then EncodeGroup(f.insts) else [], mid);
    }
  }

  lemma CanonicalValue(types: FieldTable, e: Raw)
    requires IsCanonical(types, e) && TagValue(e.tag) in types
    ensures Normalise(types[TagValue(e.tag)], e.val) == e.val
  {}

  lemma BodySuffix(schema: Schema, es: seq<Raw>, k: nat, present: set<nat>)
    requires k <= |es|
    ensures PairsAgree(schema, es) ==> PairsAgree(schema, es[k..])
    ensures NoRepeat(schema, es, present) ==> NoRepeat(schema, es[k..], present)
    ensures NoRepeat(schema, es, present) && k >= 1 ==> NoRepeat(schema, es[k..], present + {TagValue(es[0].tag)})
    ensures NoRepeat(schema, es, present) && k >= 2 ==>
              NoRepeat(schema, es[k..], present + {TagValue(es[0].tag)} + {TagValue(es[1].tag)})
  {
    hide AutomaticTag, Pair, TagValue, Atoi, CString;
    var t := es[k..];
    assert forall i :: 0 <= i < |t| ==> t[i] == es[k + i];
  }

  /** The bytes of a section decoded from whole elements whose Length fields measure right. */
  predicate GivesBack(fs: seq<Field>, rest: Bytes, es: seq<Raw>) { EncodeFields(fs) + rest == Stream(es) }

  /** A Length field is not a group count. */
  ghost predicate LengthsArePlain(schema: Schema) {
    forall t <- schema.traits :: schema.traits[t].ftype == LengthType ==> schema.traits[t].group.None?
  }

  lemma BodyGroupBack(types: FieldTable, es: seq<Raw>, k1: nat, f: Field, mid: Bytes)
    requires es != [] && AtBoundary(es[1..], k1, mid) && f.hasGroup
    ensures 1 + k1 <= |es| && mid == Stream(es[1 + k1..])
    ensures EncodeGroup(f.insts) + mid == Stream(es[1..]) ==> GroupBack(f, Stream(es[1 + k1..]), es)
  {
    Later(es, 1, k1);
  }

  // ---------------------------------------------------------------- where a section ends

  /** No element, or one whose tag is none of the section's own. */
  predicate Stops(schema: Schema, s: Bytes) {
    ExtractElement(s).Some? ==> TagValue(ExtractElement(s).value.tag) !in schema.traits
  }

  lemma SameTag(s: Bytes, width: nat)
    ensures ExtractElement(s).Some? && ExtractFixed(s, width).Some? ==>
              ExtractElement(s).value.tag == ExtractFixed(s, width).value.tag
  {}

  /** On any bytes: a decoded section ends where there is no element, or at the first one with a foreign tag. */
  lemma {:induction false} SectionStops(types: FieldTable, schema: Schema, s: Bytes, present: set<nat>)
    ensures var o := DecodeFields(types, schema, s, present); o.Done? ==> Stops(schema, o.rest)
    decreases |s|, 1
  {
    hide ExtractElement, TagValue, Normalise, HasCount, DecodeGroup, AfterField, Lacks;
    match ExtractElement(s)
    case None =>
    case Some(e) =>
      var tag := TagValue(e.tag);
      if tag in schema.traits {
        SectionStops(types, schema, s[e.size..], present);
        AfterStops(types, schema, tag, e.val, s[e.size..], present);
        if schema.traits[tag].group.Some? {
          var n := DecodeGroup(types, schema.traits[tag].group.value, s[e.size..]);
          if n.Done? { AfterStops(types, schema, tag, e.val, n.rest, present); }
        }
      }
  }

  lemma {:induction false} AfterStops(types: FieldTable, schema: Schema, tag: nat, val: Bytes, s: Bytes,
          before: set<nat>)
    requires tag in schema.traits
    ensures var o := AfterField(types, schema, tag, val, s, before); o.Done? ==> Stops(schema, o.rest)
    decreases |s|, 2
  {
    hide ExtractElement, ExtractFixed, TagValue, Normalise, DecodeFields, Lacks, Atoi, CString;
    SectionStops(types, schema, s, before + {tag});
    var width := Atoi(CString(val)) % UNSIGNED;
    SameTag(s, width);
    match ExtractFixed(s, width)
    case None =>
    case Some(e) =>
      FixedConsumes(s, width);
      SectionStops(types, schema, Rest(s, e.size), before + {tag} + {TagValue(e.tag)});
  }

  lemma FixedConsumes(s: Bytes, width: nat)
    ensures var e := ExtractFixed(s, width); e.Some? ==> |Rest(s, e.value.size)| < |s|
  {}

  /** The same at an element of a stream. */
  predicate StopsAt(schema: Schema, es: seq<Raw>, k: nat) { k < |es| ==> TagValue(es[k].tag) !in schema.traits }

  lemma StopsOnStream(schema: Schema, es: seq<Raw>, k: nat)
    requires AllWhole(es) && k <= |es| && Stops(schema, Stream(es[k..]))
    ensures StopsAt(schema, es, k)
  {
    hide ExtractElement, TagValue, Stream, Whole;
    forall e | e in es[k..] ensures Whole(e) {}
    StreamHead(es[k..]);
  }

  /** A section on a stream of whole elements: decoding ends; it takes elements with tags of the section or its groups,
      up to the end or the first tag that is none of the section's own; and if the stream is canonical, encoding gives
      back the bytes it took. */
  lemma BodyOnStream(types: FieldTable, schema: Schema, es: seq<Raw>, present: set<nat>) returns (k: nat)
    requires AllWhole(es) && PairsAgree(schema, es) && LengthsArePlain(schema)
    ensures !DecodeFields(types, schema, Stream(es), present).Diverges?
    ensures var o := DecodeFields(types, schema, Stream(es), present);
            o.Done? ==> AtBoundary(es, k, o.rest) && AllWithin(schema, es, k) && StopsAt(schema, es, k)
                        && (AllCanonical(types, es) && NoRepeat(schema, es, present) ==> GivesBack(o.value, o.rest, es))
  {
    hide DecodeFields, PairsAgree, LengthsArePlain, Stream, AllWhole, AllCanonical, GivesBack, NoRepeat, AllWithin, Stops,
         StopsAt;
    k := SectionOnStream(types, schema, es, present);
    SectionStops(types, schema, Stream(es), present);
    if DecodeFields(types, schema, Stream(es), present).Done? { StopsOnStream(schema, es, k); }
  }

  /** What a section's decoder does with a stream, up to where it stops. */
  ghost predicate SectionDone(types: FieldTable, schema: Schema, es: seq<Raw>, present: set<nat>, k: nat) {
    var o := DecodeFields(types, schema, Stream(es), present);
    && !o.Diverges?
    && (o.Done? ==> AtBoundary(es, k, o.rest) && AllWithin(schema, es, k)
                    && (AllCanonical(types, es) && NoRepeat(schema, es, present) ==> GivesBack(o.value, o.rest, es)))
  }

  lemma {:induction false} SectionOnStream(types: FieldTable, schema: Schema, es: seq<Raw>,
          present: set<nat>) returns (k: nat)
    requires AllWhole(es) && PairsAgree(schema, es) && LengthsArePlain(schema)
    ensures SectionDone(types, schema, es, present, k)
    decreases |es|, 0, 2
  {
    k := 0;
    if es == [] || TagValue(es[0].tag) !in schema.traits {
      SectionEnds(types, schema, es, present);
    } else if TagValue(es[0].tag) in present {
      if schema.traits[TagValue(es[0].tag)].automatic {
        hide SectionDone, PairsAgree, AllWhole, TagValue;
        Suffix(types, es, 1);
        BodySuffix(schema, es, 1, present);
        k := SectionOnStream(types, schema, es[1..], present);
        RepeatOnStream(types, schema, es, present, k);
        k := 1 + k;
      } else {
        StreamHead(es);
        hide ExtractElement, TagValue, Stream, AllWhole;
      }
    } else if TagValue(es[0].tag) !in types {
      StreamHead(es);
      hide ExtractElement, TagValue, Stream, AllWhole;
    } else {
      hide SectionDone, PairsAgree, AllWhole, TagValue;
      k := FieldOnStream(types, schema, es, present);
    }
  }

  lemma SectionEnds(types: FieldTable, schema: Schema, es: seq<Raw>, present: set<nat>)
    requires AllWhole(es) && (es == [] || TagValue(es[0].tag) !in schema.traits)
    ensures SectionDone(types, schema, es, present, 0)
  {
    hide ExtractElement, TagValue, Stream, AllWhole, AllCanonical, Lacks, GivesBack, NoRepeat, AllWithin;
    NoneWithin(schema, es);
    StreamHead(es);
    BackNone(es);
    assert es[0..] == es;
  }

  /** An automatic field that is there already is skipped. */
  lemma RepeatOnStream(types: FieldTable, schema: Schema, es: seq<Raw>, present: set<nat>, k: nat)
    requires AllWhole(es) && es != [] && TagValue(es[0].tag) in present && TagValue(es[0].tag) in schema.traits
    requires schema.traits[TagValue(es[0].tag)].automatic && SectionDone(types, schema, es[1..], present, k)
    ensures SectionDone(types, schema, es, present, 1 + k)
  {
    hide ExtractElement, TagValue, Stream, AllWhole, AllCanonical, GivesBack, NoRepeat, AllWithin;
    StreamHead(es);
    RepeatFound(schema, es, present);
    if DecodeFields(types, schema, Stream(es[1..]), present).Done? {
      Later(es, 1, k);
      FirstWithin(schema, es);
      WithinMore(schema, es, 1, k);
    }
  }

  /** A new field, with its group if it has one. */
  lemma {:induction false} FieldOnStream(types: FieldTable, schema: Schema, es: seq<Raw>,
          present: set<nat>) returns (k: nat)
    requires AllWhole(es) && PairsAgree(schema, es) && LengthsArePlain(schema) && es != []
    requires TagValue(es[0].tag) in schema.traits && TagValue(es[0].tag) !in present && TagValue(es[0].tag) in types
    ensures SectionDone(types, schema, es, present, k)
    decreases |es|, 0, 1
  {
    hide DecodeGroup, EncodeGroup, ExtractElement, Normalise, TagValue, HasCount, AfterField, PairsAgree, Stream, AllWhole,
         AllCanonical, GivesBack, NoRepeat, AllWithin, GroupBack;
    k := 0;
    StreamHead(es);
    var e, tag := es[0], TagValue(es[0].tag);
    Suffix(types, es, 1);
    var value := Normalise(types[tag], e.val);
    if schema.traits[tag].group.Some? && HasCount(value) {
      var k1 := GroupOnStream(types, schema.traits[tag].group.value, es[1..]);
      var n := DecodeGroup(types, schema.traits[tag].group.value, Stream(es[1..]));
      if n.Done? {
        BodyGroupBack(types, es, k1, Field(tag, value, true, n.value), n.rest);
        GroupWithin(schema, es, k1);
        k := AfterOnStream(types, schema, es, 1 + k1, Field(tag, value, true, n.value), present);
      }
    } else {
      DataBack(Field(tag, value, false, []), es);
      FirstWithin(schema, es);
      k := AfterOnStream(types, schema, es, 1, Field(tag, value, false, []), present);
    }
  }

  lemma RepeatFound(schema: Schema, es: seq<Raw>, present: set<nat>)
    requires es != [] && TagValue(es[0].tag) in present
    requires TagValue(es[0].tag) in schema.traits && schema.traits[TagValue(es[0].tag)].automatic
    ensures !NoRepeat(schema, es, present)
  {
    assert AutomaticTag(schema, es[0]);
  }

  lemma BackNone(es: seq<Raw>)
    ensures GivesBack([], Stream(es), es)
  {
    EncodeNone(Stream(es));
  }

  predicate GroupBack(f: Field, mid: Bytes, es: seq<Raw>)
    requires es != []
  {
    (if f.hasGroup then EncodeGroup(f.insts) else []) + mid == Stream(es[1..])
  }

  lemma BackCons(types: FieldTable, es: seq<Raw>, k: nat, f: Field, fs: seq<Field>, rest: Bytes)
    requires 1 <= k <= |es| && f.tag == TagValue(es[0].tag) && f.tag in types
    requires f.value == Normalise(types[f.tag], es[0].val) && (f.hasGroup ==> HasCount(f.value))
    requires AllCanonical(types, es) && GivesBack(fs, rest, es[k..]) && GroupBack(f, Stream(es[k..]), es)
    ensures GivesBack([f] + fs, rest, es)
  {
    hide EncodeFields, EncodeGroup, Stream, Normalise, TagValue, HasCount, AllCanonical;
    InstCons(types, es, f, fs, Stream(es[k..]), rest);
  }

  lemma FixedHead(es: seq<Raw>, width: nat)
    requires AllWhole(es)
    ensures es == [] ==> ExtractFixed(Stream(es), width).None?
    ensures es != [] && ExtractFixed(Stream(es), width).Some? ==> ExtractFixed(Stream(es), width).value.tag == es[0].tag
    ensures es != [] && width == |es[0].val| ==>
              && ExtractFixed(Stream(es), width) == Some(Element(es[0].tag, es[0].val, SizeOf(es[0])))
              && Rest(Stream(es), SizeOf(es[0])) == Stream(es[1..])
  {
    hide ExtractFixed, Rest, Whole;
    if es == [] {
      FixedNone(width);
    } else {
      var e, tail := es[0], Stream(es[1..]);
      WholeIs(es);
      ExtractFixedRaw(e.tag, e.val, tail);
      FixedTag(e.tag, e.val, tail, width);
    }
  }

  lemma FixedNone(width: nat)
    ensures ExtractFixed([], width).None?
  {}

  lemma WholeIs(es: seq<Raw>)
    requires AllWhole(es) && es != []
    ensures AllDigits(es[0].tag) && SOH !in es[0].val
  {
    assert Whole(es[0]);
  }

  lemma FixedTag(tag: Bytes, val: Bytes, tail: Bytes, width: nat)
    requires AllDigits(tag)
    ensures var d := ExtractFixed(RawElement(tag, val) + tail, width); d.Some? ==> d.value.tag == tag
  {
    var s := RawElement(tag, val) + tail;
    assert s == tag + [EQUALS] + (val + [SOH] + tail);
    DigitsThen(tag, EQUALS, val + [SOH] + tail);
    hide RawElement, DigitsAt;
    assert s[..|tag|] == tag;
  }

  /** A Length field and the data field behind it, as the decoder pairs them. */
  predicate Paired(types: FieldTable, schema: Schema, tag: nat, tail: seq<Raw>) {
    && tail != [] && IsLength(schema, tag) && TagValue(tail[0].tag) == tag + 1
    && TagValue(tail[0].tag) in schema.traits && schema.traits[TagValue(tail[0].tag)].ftype == DataType
    && TagValue(tail[0].tag) in types
  }

  function DataField(types: FieldTable, e: Raw): Field
    requires TagValue(e.tag) in types
  {
    Field(TagValue(e.tag), Normalise(types[TagValue(e.tag)], e.val), false, [])
  }

  /** Behind a field the decoder fails, or takes the data field it measures, or just goes on. */
  lemma AfterCases(types: FieldTable, schema: Schema, tag: nat, val: Bytes, tail: seq<Raw>, before: set<nat>)
    requires AllWhole(tail) && tag in schema.traits
    requires Paired(types, schema, tag, tail) ==> Atoi(CString(val)) % UNSIGNED == |tail[0].val|
    ensures var a := AfterField(types, schema, tag, val, Stream(tail), before);
            || a.Fails?
            || (!Paired(types, schema, tag, tail) && a == DecodeFields(types, schema, Stream(tail), before + {tag}))
            || (Paired(types, schema, tag, tail)
                && a == Prepend(DataField(types, tail[0]),
                                DecodeFields(types, schema, Stream(tail[1..]), before + {tag} + {TagValue(tail[0].tag)})))
  {
    var width := Atoi(CString(val)) % UNSIGNED;
    FixedHead(tail, width);
    StreamHead(tail);
    hide Stream, ExtractElement, ExtractFixed, Rest, Normalise, TagValue, Atoi, CString, AllWhole, Lacks, DecodeGroup;
  }

  /** What follows a field, and the elements of its own group, up to the `k1`-th element. */
  lemma {:induction false} AfterOnStream(types: FieldTable, schema: Schema, es: seq<Raw>, k1: nat, f: Field,
          present: set<nat>) returns (k: nat)
    requires AllWhole(es) && PairsAgree(schema, es) && LengthsArePlain(schema) && 1 <= k1 <= |es|
    requires AllWithin(schema, es, k1)
    requires f.tag == TagValue(es[0].tag) && f.tag in types && f.tag in schema.traits
    requires f.value == Normalise(types[f.tag], es[0].val) && (f.hasGroup ==> HasCount(f.value))
    requires IsLength(schema, f.tag) ==> k1 == 1
    ensures var o := Prepend(f, AfterField(types, schema, f.tag, es[0].val, Stream(es[k1..]), present));
            && !o.Diverges?
            && (o.Done? ==>
                  && AtBoundary(es, k, o.rest) && AllWithin(schema, es, k)
                  && (AllCanonical(types, es) && NoRepeat(schema, es, present) && GroupBack(f, Stream(es[k1..]), es)
                      ==> GivesBack(o.value, o.rest, es)))
    decreases |es|, 0, 0
  {
    hide EncodeFields, Normalise, TagValue, HasCount, AllCanonical, AllWhole, NoRepeat, PairsAgree,
         GivesBack, GroupBack, Stream, DecodeFields, AfterField, Atoi, CString, IsLength, AllWithin;
    var tail := es[k1..];
    Suffix(types, es, k1);
    BodySuffix(schema, es, k1, present);
    if Paired(types, schema, f.tag, tail) { PairMeasures(types, schema, es); }
    AfterCases(types, schema, f.tag, es[0].val, tail, present);
    k := k1;
    if AfterField(types, schema, f.tag, es[0].val, Stream(tail), present).Fails? {
    } else if Paired(types, schema, f.tag, tail) {
      Suffix(types, es, 2);
      BodySuffix(schema, es, 2, present);
      Later(es, 1, 1);
      var d, p2 := DataField(types, tail[0]), present + {f.tag} + {TagValue(tail[0].tag)};
      var k2 := SectionOnStream(types, schema, es[2..], p2);
      k := 2 + k2;
      var o := DecodeFields(types, schema, Stream(es[2..]), p2);
      if o.Done? {
        Later(es, 2, k2);
        FirstWithin(schema, tail);
        WithinMore(schema, es, 1, 1);
        WithinMore(schema, es, 2, k2);
        if AllCanonical(types, es) && NoRepeat(schema, es, present) && GroupBack(f, Stream(tail), es) {
          DataBack(d, tail);
          BackCons(types, tail, 1, d, o.value, o.rest);
          BackCons(types, es, 1, f, [d] + o.value, o.rest);
        }
      }
    } else {
      var k2 := SectionOnStream(types, schema, tail, present + {f.tag});
      k := k1 + k2;
      var o := DecodeFields(types, schema, Stream(tail), present + {f.tag});
      if o.Done? {
        Later(es, k1, k2);
        WithinMore(schema, es, k1, k2);
        if AllCanonical(types, es) && NoRepeat(schema, es, present) && GroupBack(f, Stream(tail), es) {
          BackCons(types, es, k1, f, o.value, o.rest);
        }
      }
    }
  }

  lemma DataBack(d: Field, es: seq<Raw>)
    requires es != [] && !d.hasGroup
    ensures GroupBack(d, Stream(es[1..]), es)
  {}

  lemma PairMeasures(types: FieldTable, schema: Schema, es: seq<Raw>)
    requires es != [] && PairsAgree(schema, es) && Paired(types, schema, TagValue(es[0].tag), es[1..])
    ensures Atoi(CString(es[0].val)) % UNSIGNED == |es[1].val|
  {
    assert Pair(schema, es[0], es[1]);
  }

  /** Why whole elements are needed: at bytes that hold no element, a group without mandatory fields is decoded for
      ever, and any other group is reported incomplete. */
  lemma BrokenElement(types: FieldTable, g: Schema, s: Bytes)
    requires s != [] && ExtractElement(s).None?
    ensures DecodeGroup(types, g, s) == if Lacks(g, {}) then Fails(MissingMandatoryField) else Diverges
  {}
}
