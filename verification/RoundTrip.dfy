/** Decoding undoes encoding, for messages with groups nested to any depth. */
module RoundTrip {
  import opened Common
  import opened Bytes
  import opened Codec

  // ---------------------------------------------------------------- one element

  lemma {:induction false} DigitsThen(tag: Bytes, b: byte, tail: Bytes)
    requires AllDigits(tag) && !IsDigit(b)
    ensures DigitsAt(tag + [b] + tail) == |tag|
  {
    if tag == [] {
      assert tag + [b] + tail == [b] + tail;
    } else {
      assert tag[0] in tag;
      forall d | d in tag[1..] ensures IsDigit(d) { assert d in tag; }
      assert (tag + [b] + tail)[1..] == tag[1..] + [b] + tail;
      DigitsThen(tag[1..], b, tail);
    }
  }

  /** Bytes of an element whose tag is given as text. */
  function RawElement(tag: Bytes, val: Bytes): Bytes { tag + [EQUALS] + val + [SOH] }

  lemma ExtractRaw(tag: Bytes, val: Bytes, tail: Bytes)
    requires AllDigits(tag) && SOH !in val
    ensures ExtractElement(RawElement(tag, val) + tail) == Some(Element(tag, val, |tag| + |val| + 2))
    ensures (RawElement(tag, val) + tail)[|tag| + |val| + 2..] == tail
  {
    var s := RawElement(tag, val) + tail;
    assert s == tag + [EQUALS] + (val + [SOH] + tail);
    DigitsThen(tag, EQUALS, val + [SOH] + tail);
    var after := s[|tag| + 1..];
    assert s[..|tag|] == tag && after == val + ([SOH] + tail);
    assert after[..|val|] == val;
    BeforeIs(after, SOH, |val|);
  }

  lemma ExtractFixedRaw(tag: Bytes, val: Bytes, tail: Bytes)
    requires AllDigits(tag)
    ensures ExtractFixed(RawElement(tag, val) + tail, |val|) == Some(Element(tag, val, |tag| + |val| + 2))
    ensures Rest(RawElement(tag, val) + tail, |tag| + |val| + 2) == tail
  {
    var s := RawElement(tag, val) + tail;
    assert s == tag + [EQUALS] + (val + [SOH] + tail);
    DigitsThen(tag, EQUALS, val + [SOH] + tail);
    assert s[|tag| + 1..] == val + ([SOH] + tail);
    assert s[..|tag|] == tag && s[|tag| + 1..|tag| + 1 + |val|] == val;
  }

  /** The fixed-width tokenizer needs the width in bytes behind the equals sign, and no more: not even a separator. */
  lemma FixedExactly(tag: Bytes, rest: Bytes, width: nat)
    requires AllDigits(tag)
    ensures ExtractFixed(tag + [EQUALS] + rest, width) ==
            if |rest| < width then None else Some(Element(tag, rest[..width], |tag| + width + 2))
  {
    DigitsThen(tag, EQUALS, rest);
    var s := tag + [EQUALS] + rest;
    assert s[..|tag|] == tag && s[|tag|] == EQUALS;
    if width <= |rest| { assert s[|tag| + 1..|tag| + 1 + width] == rest[..width]; }
  }

  lemma TagOfDecimal(tag: nat)
    requires tag < USHORT
    ensures TagValue(Decimal(tag)) == tag
  {
    AtoiDecimal(tag);
  }

  lemma NoNul(v: Bytes)
    requires 0 !in v
    ensures CString(v) == v
  {
    assert v[..|v|] == v;
    BeforeIs(v, 0, |v|);
  }

  /** Text that an int field prints reads back as itself only if the value is not negative, because `fast_atoi` has no
      sign; or if it is the one negative number whose misreading wraps around to itself. */
  lemma IntTextStable(n: int)
    requires -0x8000_0000 <= n < 0x8000_0000
    ensures Normalise(IntType, IntText(n)) == IntText(n) <==> n >= 0 || n == -2115098112
  {
    hide Atoi, Decimal, CString, IntText, Int32;
    IntTextHasNoNul(n);
    NoNul(IntText(n));
    IntTextInjective(Int32(Atoi(IntText(n))), n);
    if n >= 0 {
      IntTextNatural(n);
      AtoiDecimal(n);
    } else {
      NegativeMisread(n);
    }
  }

  lemma IntTextNatural(n: nat)
    ensures IntText(n) == Decimal(n)
  {}

  lemma IntTextHasNoNul(n: int)
    ensures 0 !in IntText(n)
  {
    hide Decimal;
    forall b | b in IntText(n) ensures b != 0 { assert b == MINUS || IsDigit(b); }
  }

  lemma IntTextInjective(m: int, n: int)
    ensures IntText(m) == IntText(n) <==> m == n
  {
    hide Decimal, Atoi;
    if IntText(m) == IntText(n) {
      assert m < 0 ==> IntText(m)[0] == MINUS && IntText(m)[1..] == Decimal(-m);
      assert n < 0 ==> IntText(n)[0] == MINUS && IntText(n)[1..] == Decimal(-n);
      assert m >= 0 ==> IsDigit(IntText(m)[0]);
      assert n >= 0 ==> IsDigit(IntText(n)[0]);
      AtoiDecimal(if m < 0 then -m else m);
      AtoiDecimal(if n < 0 then -n else n);
    }
  }

  /** A negative number reads back as another, but for one. */
  lemma NegativeMisread(n: int)
    requires -0x8000_0000 <= n < 0
    ensures Int32(Atoi(IntText(n))) == n <==> n == -2115098112
  {
    hide Atoi, Decimal, Pow10;
    var d := Decimal(-n);
    SignedAtoi(d);
    AtoiDecimal(-n);
    DigitCount(-n);
    PowersTo10();
    var k := |d|;
    if k > 10 { Pow10Grows(10, k - 1); }
    assert 1 <= k <= 10;
    Misread(-n, Pow10(k));
    assert k <= 9 ==> -n < Pow10(k) <= 10_0000_0000;
  }

  /** Twice the value is three times the power of ten, modulo the width of an int, only for one value. */
  lemma Misread(v: int, p: int)
    requires 0 < v <= 0x8000_0000 && v < p <= 100_0000_0000
    requires p <= 10_0000_0000 || p == 100_0000_0000
    ensures Int32(v - 3 * p) == -v <==> v == 2115098112 && p == 100_0000_0000
  {
    var q := (v - 3 * p + 0x8000_0000) / 0x1_0000_0000;
    assert Int32(v - 3 * p) == v - 3 * p - 0x1_0000_0000 * q;
    assert -8 <= q <= 0;
  }

  lemma {:induction false} Pow10Grows(i: nat, j: nat)
    requires i <= j
    ensures Pow10(i) <= Pow10(j)
  {
    if i < j { Pow10Grows(i, j - 1); }
  }

  /** A number has as many digits as its power of ten says. */
  lemma {:induction false} DigitCount(v: nat)
    requires 0 < v
    ensures Pow10(|Decimal(v)| - 1) <= v < Pow10(|Decimal(v)|)
  {
    if v >= 10 { DigitCount(v / 10); }
  }

  lemma PowersTo10()
    ensures Pow10(0) == 1 && Pow10(1) == 10 && Pow10(2) == 100 && Pow10(3) == 1000 && Pow10(4) == 1_0000
    ensures Pow10(5) == 10_0000 && Pow10(6) == 100_0000 && Pow10(7) == 1000_0000 && Pow10(8) == 1_0000_0000
    ensures Pow10(9) == 10_0000_0000 && Pow10(10) == 100_0000_0000
  {}

  /** The minus sign enters the sum as the digit -3. */
  lemma {:induction false} SignedAtoi(d: Bytes)
    requires AllDigits(d)
    ensures Atoi([MINUS] + d) == Atoi(d) - 3 * Pow10(|d|)
  {
    var s := [MINUS] + d;
    if d == [] {
      assert s[..0] == [];
    } else {
      forall b | b in d[..|d| - 1] ensures IsDigit(b) { assert b in d; }
      assert s[..|s| - 1] == [MINUS] + d[..|d| - 1];
      SignedAtoi(d[..|d| - 1]);
    }
  }

  // ---------------------------------------------------------------- the text of a field

  /** What fields of the other types print. The value ends at a NUL. */
  lemma ConstructedText(v: Bytes)
    ensures 0 !in v ==> Normalise(StringType, v) == v && Normalise(DataType, v) == v
    ensures v != [] && v[0] != 0 ==> Normalise(CharType, v) == [v[0]]
    ensures v == [] ==> Normalise(CharType, v) == [0]
    ensures Normalise(BooleanType, v) == if v != [] && (v[0] == 89 || v[0] == 121) then [89] else [78]
    ensures forall n: int :: 0 <= n < 0x8000_0000 && v == Decimal(n) ==> Normalise(IntType, v) == Normalise(LengthType, v) == v
  {
    if 0 !in v { NoNul(v); }
    forall n: int | 0 <= n < 0x8000_0000 && v == Decimal(n)
      ensures Normalise(IntType, v) == Normalise(LengthType, v) == v
    {
      IntTextNatural(n);
      IntTextHasNoNul(n);
      IntTextStable(n);
    }
    hide Atoi, Decimal;
  }

  /** A NUL cuts the value off. */
  lemma CutAtNul(t: FieldType, v: Bytes, more: Bytes)
    requires 0 !in v
    ensures Normalise(t, v + [0] + more) == Normalise(t, v)
  {
    NoNul(v);
    var s := v + [0] + more;
    assert s[..|v|] == v;
    BeforeIs(s, 0, |v|);
  }

  /** A count field announces a group exactly when its value is positive. */
  lemma CountIsPositive(n: int)
    requires -0x8000_0000 <= n < 0x8000_0000
    ensures HasCount(IntText(n)) <==> n > 0
  {
    hide Decimal, Atoi, Pow10;
    CountIs(IntText(n));
    if n >= 0 {
      IntTextNatural(n);
      AtoiDecimal(n);
    } else {
      SignedAtoi(Decimal(-n));
      AtoiDecimal(-n);
      DigitCount(-n);
    }
  }

  lemma CountIs(v: Bytes)
    ensures HasCount(v) <==> Atoi(v) > 0
  {}

  // ---------------------------------------------------------------- well-formed messages

  /** Tag of the first element of `fs`, or of what follows it. */
  function FirstTag(fs: seq<Field>, follow: Option<nat>): Option<nat> {
    if fs == [] then follow else Some(fs[0].tag)
  }

  function FirstOf(insts: seq<Inst>, follow: Option<nat>): Option<nat> {
    if insts == [] then follow else FirstTag(insts[0].fields, None)
  }

  /** Field positions in a group are distinct at the front: only one field can open an instance. */
  ghost predicate OneFirst(g: Schema) {
    forall t, u :: t in g.traits && u in g.traits && g.traits[t].pos == 1 && g.traits[u].pos == 1 ==> t == u
  }

  predicate Foreign(follow: Option<nat>, schema: Schema) { follow.Some? ==> follow.value !in schema.traits }

  /** A field of legal value; instances exist exactly under a positive count; no tag that follows the group belongs
      to it. */
  ghost predicate WFField(types: FieldTable, schema: Schema, f: Field, next: Option<nat>)
    decreases f, 0
  {
    && f.tag < USHORT && f.tag in schema.traits && f.tag in types
    && Normalise(types[f.tag], f.value) == f.value
    && (if schema.traits[f.tag].group.Some? && Atoi(f.value) > 0 then
          && f.hasGroup && f.insts != [] && OneFirst(schema.traits[f.tag].group.value)
          && Foreign(next, schema.traits[f.tag].group.value)
          && WFGroup(types, schema.traits[f.tag].group.value, f.insts, next)
        else !f.hasGroup && f.insts == [])
  }

  ghost predicate WFGroup(types: FieldTable, g: Schema, insts: seq<Inst>, follow: Option<nat>)
    decreases insts, 0
  {
    insts != [] ==>
      && insts[0].fields != []
      && WFInst(types, g, insts[0].fields, {}, FirstOf(insts[1..], follow))
      && WFGroup(types, g, insts[1..], follow)
  }

  ghost predicate WFInst(types: FieldTable, g: Schema, fs: seq<Field>, present: set<nat>, next: Option<nat>)
    decreases fs, 0
  {
    if fs == [] then forall t <- g.traits :: g.traits[t].mandatory ==> t in present
    else
      && SOH !in fs[0].value && fs[0].tag !in present
      && (present == {} ==> Position(g, fs[0].tag) == 1)
      && WFField(types, g, fs[0], FirstTag(fs[1..], next))
      && WFInst(types, g, fs[1..], present + {fs[0].tag}, next)
  }

  /** A data field that follows the Length field measuring it; its value may contain separators. */
  predicate Measured(types: FieldTable, schema: Schema, length: Field, d: Field) {
    && d.tag == length.tag + 1 < USHORT && d.tag in schema.traits && schema.traits[d.tag].ftype == DataType
    && d.tag in types && Normalise(types[d.tag], d.value) == d.value && !d.hasGroup && d.insts == []
    && |d.value| == Atoi(length.value) <= MAX_FLD_LENGTH - 1
  }

  predicate IsLength(schema: Schema, tag: nat) {
    tag in schema.traits && schema.traits[tag].ftype == LengthType && tag != BODY_LENGTH
  }

  /** Fields that a section may begin with, one after the other. */
  ghost predicate WFPrefix(types: FieldTable, schema: Schema, fs: seq<Field>, present: set<nat>, follow: Option<nat>)
    decreases |fs|
  {
    fs != [] ==>
      && SOH !in fs[0].value && fs[0].tag !in present
      && WFField(types, schema, fs[0], FirstTag(fs[1..], follow))
      && if IsLength(schema, fs[0].tag) then
           && 2 <= |fs| && !fs[0].hasGroup && Measured(types, schema, fs[0], fs[1]) && 0 !in fs[0].value
           && WFPrefix(types, schema, fs[2..], present + {fs[0].tag} + {fs[1].tag}, follow)
         else WFPrefix(types, schema, fs[1..], present + {fs[0].tag}, follow)
  }

  function Tags(fs: seq<Field>): set<nat> { set f <- fs :: f.tag }

  /** A whole section: no mandatory field is missing, and what follows is not one of its own. */
  ghost predicate WFBody(types: FieldTable, schema: Schema, fs: seq<Field>, present: set<nat>, follow: Option<nat>) {
    && WFPrefix(types, schema, fs, present, follow) && Foreign(follow, schema)
    && forall t <- schema.traits :: schema.traits[t].mandatory ==> t in present + Tags(fs)
  }

  /** The bytes after a section: nothing, or an element with the announced tag. */
  predicate TailIs(tail: Bytes, follow: Option<nat>) {
    match follow
    case None => tail == []
    case Some(t) => ExtractElement(tail).Some? && TagValue(ExtractElement(tail).value.tag) == t
  }

  // ---------------------------------------------------------------- the round trip

  lemma FieldHead(f: Field, tail: Bytes)
    requires f.tag < USHORT && SOH !in f.value
    ensures var s := EncodeField(f) + tail;
            && ExtractElement(s) == Some(Element(Decimal(f.tag), f.value, |Decimal(f.tag)| + |f.value| + 2))
            && TagValue(Decimal(f.tag)) == f.tag
            && s[|Decimal(f.tag)| + |f.value| + 2..]
               == (if f.hasGroup && HasCount(f.value) then EncodeGroup(f.insts) else []) + tail
  {
    var nested := if f.hasGroup && HasCount(f.value) then EncodeGroup(f.insts) else [];
    TagOfDecimal(f.tag);
    hide EncodeGroup, Decimal;
    assert EncodeField(f) + tail == RawElement(Decimal(f.tag), f.value) + (nested + tail);
    ExtractRaw(Decimal(f.tag), f.value, nested + tail);
  }

  lemma EncodeTail(fs: seq<Field>, follow: Option<nat>, tail: Bytes)
    requires TailIs(tail, follow)
    requires fs != [] ==> fs[0].tag < USHORT && SOH !in fs[0].value
    ensures TailIs(EncodeFields(fs) + tail, FirstTag(fs, follow))
    ensures fs != [] ==> EncodeFields(fs) + tail == EncodeField(fs[0]) + (EncodeFields(fs[1..]) + tail)
  {
    hide EncodeField, ExtractElement, TagValue, Decimal;
    if fs == [] {
      assert EncodeFields(fs) + tail == tail;
    } else {
      assert EncodeFields(fs) + tail == EncodeField(fs[0]) + (EncodeFields(fs[1..]) + tail);
      FieldHead(fs[0], EncodeFields(fs[1..]) + tail);
    }
  }

  lemma EncodeGroupTail(types: FieldTable, g: Schema, insts: seq<Inst>, follow: Option<nat>, tail: Bytes)
    requires TailIs(tail, follow) && WFGroup(types, g, insts, follow)
    ensures TailIs(EncodeGroup(insts) + tail, FirstOf(insts, follow))
    ensures insts != [] ==> EncodeGroup(insts) + tail == EncodeFields(insts[0].fields) + (EncodeGroup(insts[1..]) + tail)
    ensures insts != [] ==> |EncodeGroup(insts) + tail| > |EncodeGroup(insts[1..]) + tail|
  {
    hide EncodeField, EncodeFields, ExtractElement, TagValue, Decimal;
    if insts == [] {
      assert EncodeGroup(insts) + tail == tail;
    } else {
      var fs, rest := insts[0].fields, EncodeGroup(insts[1..]) + tail;
      assert EncodeGroup(insts) + tail == EncodeFields(fs) + rest;
      assert WFInst(types, g, fs, {}, FirstOf(insts[1..], follow));
      assert WFField(types, g, fs[0], FirstTag(fs[1..], FirstOf(insts[1..], follow)));
      FirstElement(fs, rest);
    }
  }

  lemma FirstElement(fs: seq<Field>, tail: Bytes)
    requires fs != [] && fs[0].tag < USHORT && SOH !in fs[0].value
    ensures TailIs(EncodeFields(fs) + tail, Some(fs[0].tag)) && |EncodeFields(fs)| > 0
  {
    hide ExtractElement, TagValue, Decimal;
    assert EncodeFields(fs) + tail == EncodeField(fs[0]) + (EncodeFields(fs[1..]) + tail);
    FieldHead(fs[0], EncodeFields(fs[1..]) + tail);
  }

  lemma {:induction false} GroupRoundTrip(types: FieldTable, g: Schema, insts: seq<Inst>, follow: Option<nat>,
          tail: Bytes)
    requires WFGroup(types, g, insts, follow) && OneFirst(g) && Foreign(follow, g) && TailIs(tail, follow)
    requires insts == [] ==> tail == []
    ensures DecodeGroup(types, g, EncodeGroup(insts) + tail) == Done(insts, tail)
    decreases insts, 1
  {
    hide EncodeGroup, EncodeFields, DecodeInst, WFInst, OneFirst, ExtractElement, TagValue;
    if insts == [] {
      EncodeGroupTail(types, g, insts, follow, tail);
      assert EncodeGroup(insts) + tail == [] by { EncodeNone(tail); }
    } else {
      var fs, rest := insts[0].fields, EncodeGroup(insts[1..]) + tail;
      EncodeGroupTail(types, g, insts, follow, tail);
      EncodeGroupTail(types, g, insts[1..], follow, tail);
      InstOpens(types, g, insts[1..], follow);
      NoTail(tail, follow);
      InstRoundTrip(types, g, fs, {}, FirstOf(insts[1..], follow), rest);
      if insts[1..] != [] || tail == [] {
        GroupRoundTrip(types, g, insts[1..], follow, tail);
      } else {
        EncodeNone(tail);
      }
      var s := EncodeGroup(insts) + tail;
      assert DecodeInst(types, g, s, {}) == Done((fs, EndsGroup(g, FirstOf(insts[1..], follow))), rest);
      assert s != [] && |rest| < |s|;
      if EndsGroup(g, FirstOf(insts[1..], follow)) {
        assert DecodeGroup(types, g, s) == Done([Inst(fs)], rest);
        assert rest == tail;
        assert [Inst(fs)] == insts;
      } else {
        assert DecodeGroup(types, g, rest) == Done(insts[1..], tail);
        assert [Inst(fs)] + insts[1..] == insts;
      }
    }
  }

  lemma EncodeNone(tail: Bytes)
    ensures EncodeGroup([]) + tail == tail && EncodeFields([]) + tail == tail
  {}

  lemma NoTail(tail: Bytes, follow: Option<nat>)
    requires TailIs(tail, follow)
    ensures follow.None? <==> tail == []
  {}

  /** What follows an instance opens another or is foreign. */
  predicate OpensOrForeign(g: Schema, next: Option<nat>) {
    next.Some? ==> Position(g, next.value) == 1 || next.value !in g.traits
  }

  lemma InstOpens(types: FieldTable, g: Schema, insts: seq<Inst>, follow: Option<nat>)
    requires WFGroup(types, g, insts, follow) && Foreign(follow, g)
    ensures OpensOrForeign(g, FirstOf(insts, follow))
    ensures EndsGroup(g, FirstOf(insts, follow)) <==> insts == [] && follow.Some?
  {}

  /** Whether the instance ends its group: yes, unless the buffer ends or another instance opens. */
  predicate EndsGroup(g: Schema, next: Option<nat>) { next.Some? && next.value !in g.traits }

  /** The tags an instance has so far: its opening field is among them. */
  ghost predicate Opened(g: Schema, present: set<nat>) {
    present != {} ==> exists t <- present :: Position(g, t) == 1
  }

  lemma WFInstParts(types: FieldTable, g: Schema, fs: seq<Field>, present: set<nat>, next: Option<nat>)
    requires WFInst(types, g, fs, present, next)
    ensures fs == [] ==> forall t <- g.traits :: g.traits[t].mandatory ==> t in present
    ensures fs != [] ==>
              && SOH !in fs[0].value && fs[0].tag !in present
              && (present == {} ==> Position(g, fs[0].tag) == 1)
              && WFField(types, g, fs[0], FirstTag(fs[1..], next))
              && WFInst(types, g, fs[1..], present + {fs[0].tag}, next)
  {}

  lemma {:induction false} InstRoundTrip(types: FieldTable, g: Schema, fs: seq<Field>, present: set<nat>,
          next: Option<nat>, tail: Bytes)
    requires WFInst(types, g, fs, present, next) && TailIs(tail, next) && OneFirst(g)
    requires Opened(g, present) && OpensOrForeign(g, next) && (fs == [] ==> present != {})
    requires forall t <- present :: t in g.traits
    ensures DecodeInst(types, g, EncodeFields(fs) + tail, present) == Done((fs, EndsGroup(g, next)), tail)
    decreases fs, 1
  {
    hide EncodeGroup, EncodeFields, EncodeField, DecodeGroup, ExtractElement, WFGroup, WFInst, TagValue, Decimal,
         HasCount, Normalise;
    WFInstParts(types, g, fs, present, next);
    if fs == [] {
      EncodeNone(tail);
    } else {
      var f, rest := fs[0], EncodeFields(fs[1..]) + tail;
      EncodeTail(fs, next, tail);
      FieldHead(f, rest);
      CountIs(f.value);
      InstRoundTrip(types, g, fs[1..], present + {f.tag}, next, tail);
      if f.hasGroup && HasCount(f.value) {
        WFInstParts(types, g, fs[1..], present + {f.tag}, next);
        if fs[1..] != [] { EncodeTail(fs[1..], next, tail); } else { EncodeNone(tail); }
        GroupRoundTrip(types, g.traits[f.tag].group.value, f.insts, FirstTag(fs[1..], next), rest);
      } else {
        assert [] + rest == rest;
      }
      assert [f] + fs[1..] == fs;
    }
  }

  lemma MeasuredWidth(types: FieldTable, schema: Schema, f: Field, d: Field)
    requires Measured(types, schema, f, d) && 0 !in f.value
    ensures Atoi(CString(f.value)) % UNSIGNED == |d.value| <= MAX_FLD_LENGTH - 1
  {
    NoNul(f.value);
  }

  lemma DataHead(d: Field, tail: Bytes)
    requires d.tag < USHORT && !d.hasGroup
    ensures var s := EncodeField(d) + tail;
            && ExtractFixed(s, |d.value|) == Some(Element(Decimal(d.tag), d.value, |Decimal(d.tag)| + |d.value| + 2))
            && TagValue(Decimal(d.tag)) == d.tag
            && Rest(s, |Decimal(d.tag)| + |d.value| + 2) == tail
  {
    TagOfDecimal(d.tag);
    hide Decimal;
    assert EncodeField(d) + tail == RawElement(Decimal(d.tag), d.value) + tail;
    ExtractFixedRaw(Decimal(d.tag), d.value, tail);
  }

  function PrependFields(fs: seq<Field>, o: Outcome<seq<Field>>): Outcome<seq<Field>> {
    if o.Done? then Done(fs + o.value, o.rest) else o
  }

  lemma PrependTwo(f: Field, fs: seq<Field>, o: Outcome<seq<Field>>)
    ensures Prepend(f, PrependFields(fs, o)) == PrependFields([f] + fs, o)
    ensures PrependFields([], o) == o
  {
    assert o.Done? ==> [f] + (fs + o.value) == [f] + fs + o.value;
    assert o.Done? ==> [] + o.value == o.value;
  }

  lemma TagsCons(fs: seq<Field>, present: set<nat>)
    ensures fs == [] ==> present + Tags(fs) == present
    ensures fs != [] ==> present + Tags(fs) == present + {fs[0].tag} + Tags(fs[1..])
    ensures 2 <= |fs| ==> present + Tags(fs) == present + {fs[0].tag} + {fs[1].tag} + Tags(fs[2..])
  {
    assert forall f <- fs :: f == fs[0] || f in fs[1..];
    if 2 <= |fs| {
      assert forall f <- fs :: f == fs[0] || f == fs[1] || f in fs[2..];
    }
  }

  /** Whatever follows them: decoding takes the fields that a section begins with, groups included, as they were
      encoded, and goes on with the rest. */
  lemma {:induction false} PrefixDecoded(types: FieldTable, schema: Schema, fs: seq<Field>, present: set<nat>,
          follow: Option<nat>, tail: Bytes)
    requires WFPrefix(types, schema, fs, present, follow) && TailIs(tail, follow)
    ensures DecodeFields(types, schema, EncodeFields(fs) + tail, present)
         == PrependFields(fs, DecodeFields(types, schema, tail, present + Tags(fs)))
    decreases |fs|
  {
    hide EncodeGroup, EncodeFields, EncodeField, DecodeGroup, ExtractElement, ExtractFixed, WFGroup, TagValue, Decimal,
         HasCount, Normalise, Rest, Atoi, CString, PrependFields, Tags;
    TagsCons(fs, present);
    var o := DecodeFields(types, schema, tail, present + Tags(fs));
    if fs == [] {
      EncodeNone(tail);
      PrependTwo(Field(0, [], false, []), [], o);
    } else {
      var f, rest := fs[0], EncodeFields(fs[1..]) + tail;
      EncodeTail(fs, follow, tail);
      FieldHead(f, rest);
      CountIs(f.value);
      assert [f] + fs[1..] == fs;
      PrependTwo(f, fs[1..], o);
      if IsLength(schema, f.tag) {
        var d, after := fs[1], EncodeFields(fs[2..]) + tail;
        MeasuredWidth(types, schema, f, d);
        EncodeSecond(fs, tail);
        DataHead(d, after);
        PrefixDecoded(types, schema, fs[2..], present + {f.tag} + {d.tag}, follow, tail);
        assert [d] + fs[2..] == fs[1..];
        PrependTwo(d, fs[2..], o);
        assert [] + rest == rest;
      } else {
        PrefixDecoded(types, schema, fs[1..], present + {f.tag}, follow, tail);
        if f.hasGroup && HasCount(f.value) {
          GroupFollows(types, schema, fs, present, follow, tail);
        } else {
          assert [] + rest == rest;
        }
      }
    }
  }

  /** Decoding an encoded section gives back its fields, groups included, and stops exactly at the section's end. */
  lemma BodyRoundTrip(types: FieldTable, schema: Schema, fs: seq<Field>, present: set<nat>, follow: Option<nat>, tail: Bytes)
    requires WFBody(types, schema, fs, present, follow) && TailIs(tail, follow)
    ensures DecodeFields(types, schema, EncodeFields(fs) + tail, present) == Done(fs, tail)
  {
    hide WFPrefix, EncodeFields, ExtractElement, TagValue, Tags;
    PrefixDecoded(types, schema, fs, present, follow, tail);
    EmptyTail(tail, follow);
    assert DecodeFields(types, schema, tail, present + Tags(fs)) == Done([], tail);
    assert fs + [] == fs;
  }

  lemma EmptyTail(tail: Bytes, follow: Option<nat>)
    requires TailIs(tail, follow)
    ensures follow.None? ==> ExtractElement(tail).None?
  {}

  lemma EncodeSecond(fs: seq<Field>, tail: Bytes)
    requires 2 <= |fs|
    ensures EncodeFields(fs[1..]) + tail == EncodeField(fs[1]) + (EncodeFields(fs[2..]) + tail)
  {
    hide EncodeField;
    assert fs[1..][1..] == fs[2..];
    assert EncodeFields(fs[1..]) == EncodeField(fs[1]) + EncodeFields(fs[2..]);
  }

  lemma GroupFollows(types: FieldTable, schema: Schema, fs: seq<Field>, present: set<nat>, follow: Option<nat>,
          tail: Bytes)
    requires WFPrefix(types, schema, fs, present, follow) && TailIs(tail, follow) && fs != []
    requires fs[0].hasGroup && HasCount(fs[0].value) && !IsLength(schema, fs[0].tag)
    ensures DecodeGroup(types, schema.traits[fs[0].tag].group.value, EncodeGroup(fs[0].insts) + (EncodeFields(fs[1..]) + tail))
         == Done(fs[0].insts, EncodeFields(fs[1..]) + tail)
  {
    hide EncodeGroup, EncodeFields, EncodeField, DecodeGroup, ExtractElement, WFGroup, TagValue, Decimal, HasCount,
         Normalise;
    if fs[1..] != [] { EncodeTail(fs[1..], follow, tail); } else { EncodeNone(tail); }
    GroupRoundTrip(types, schema.traits[fs[0].tag].group.value, fs[0].insts, FirstTag(fs[1..], follow),
                   EncodeFields(fs[1..]) + tail);
  }

  // ---------------------------------------------------------------- what comes next

  ghost predicate AllThere(schema: Schema, have: set<nat>) {
    forall t <- schema.traits :: schema.traits[t].mandatory ==> t in have
  }

  /** Behind fields that a section may begin with, the next tag decides: a foreign one ends the section, which then
      is complete or refused; one that was there before is refused, or skipped if it is automatic; one without a
      constructor is refused. */
  lemma NextDecides(types: FieldTable, schema: Schema, fs: seq<Field>, present: set<nat>, t: nat, tail: Bytes)
    requires WFPrefix(types, schema, fs, present, Some(t)) && TailIs(tail, Some(t))
    ensures var have, o := present + Tags(fs), DecodeFields(types, schema, EncodeFields(fs) + tail, present);
            && (t !in schema.traits ==> o == if AllThere(schema, have) then Done(fs, tail) else Fails(MissingMandatoryField))
            && (t in schema.traits && t in have ==>
                  o == if schema.traits[t].automatic
                       then PrependFields(fs, DecodeFields(types, schema, tail[ExtractElement(tail).value.size..], have))
                       else Fails(DuplicateField(t)))
            && (t in schema.traits && t !in have && t !in types ==> o == Fails(UnknownField(t)))
  {
    hide WFPrefix, EncodeFields, ExtractElement, TagValue, Tags;
    PrefixDecoded(types, schema, fs, present, Some(t), tail);
    assert fs + [] == fs;
  }

  /** At the end of the bytes a section is complete or refused. */
  lemma EndDecides(types: FieldTable, schema: Schema, fs: seq<Field>, present: set<nat>)
    requires WFPrefix(types, schema, fs, present, None)
    ensures DecodeFields(types, schema, EncodeFields(fs), present) ==
            if AllThere(schema, present + Tags(fs)) then Done(fs, []) else Fails(MissingMandatoryField)
  {
    hide WFPrefix, EncodeFields, Tags;
    PrefixDecoded(types, schema, fs, present, None, []);
    assert EncodeFields(fs) + [] == EncodeFields(fs) && fs + [] == fs;
  }

  /** An instance must open with the field at position 1. */
  lemma OpenerDecides(types: FieldTable, g: Schema, t: nat, tail: Bytes)
    requires TailIs(tail, Some(t)) && Position(g, t) != 1
    ensures DecodeGroup(types, g, tail) == Fails(MissingRepeatingGroupField(t))
  {
    hide ExtractElement, TagValue;
    NoTail(tail, Some(t));
  }

  /** Behind a Length field of value `n`: more than 1023 bytes of data are refused, and so are fewer than announced. */
  lemma {:induction false} LengthDecides(types: FieldTable, schema: Schema, tag: nat, n: nat, dataTag: Bytes, rest: Bytes,
          present: set<nat>)
    requires IsLength(schema, tag) && tag < USHORT && tag !in present && schema.traits[tag].group.None?
    requires tag in types && types[tag] == LengthType && n < 0x8000_0000 && AllDigits(dataTag)
    ensures var s := ElementBytes(tag, Decimal(n)) + (dataTag + [EQUALS] + rest);
            && (n >= 1024 ==> DecodeFields(types, schema, s, present) == Fails(ValueTooLarge))
            && (|rest| < n < 1024 ==> DecodeFields(types, schema, s, present) == Fails(MissingMandatoryField))
  {
    hide DecodeFields, AfterField, ExtractFixed, ExtractElement, Decimal, Atoi, CString, TagValue, ElementBytes, Prepend;
    var value, more := Decimal(n), dataTag + [EQUALS] + rest;
    var f := LengthFirst(types, schema, tag, n, more, present);
    FixedExactly(dataTag, rest, n);
    AtoiDecimal(n);
    PlainDigits(n);
    NoNul(value);
    AfterLength(types, schema, tag, n, value, more, present);
    var a := AfterField(types, schema, tag, value, more, present);
    PrependFails(f, a);
  }

  lemma PrependFails(f: Field, o: Outcome<seq<Field>>)
    ensures o.Fails? ==> Prepend(f, o) == o
  {}

  lemma AfterLength(types: FieldTable, schema: Schema, tag: nat, n: nat, value: Bytes, more: Bytes, before: set<nat>)
    requires IsLength(schema, tag) && Atoi(CString(value)) % UNSIGNED == n
    ensures n >= 1024 ==> AfterField(types, schema, tag, value, more, before) == Fails(ValueTooLarge)
    ensures n < 1024 && ExtractFixed(more, n).None? ==>
              AfterField(types, schema, tag, value, more, before) == Fails(MissingMandatoryField)
  {
    hide ExtractFixed, Atoi, CString, TagValue, Normalise, DecodeFields;
  }

  /** A new Length field is decoded before what it measures. */
  lemma LengthFirst(types: FieldTable, schema: Schema, tag: nat, n: nat, more: Bytes, present: set<nat>) returns (f: Field)
    requires tag in schema.traits && tag < USHORT && tag !in present && schema.traits[tag].group.None? && tag in types
    ensures DecodeFields(types, schema, ElementBytes(tag, Decimal(n)) + more, present)
         == Prepend(f, AfterField(types, schema, tag, Decimal(n), more, present))
  {
    var value := Decimal(n);
    PlainDigits(n);
    TagOfDecimal(tag);
    ExtractRaw(Decimal(tag), value, more);
    hide ExtractElement, Decimal, TagValue, Normalise, HasCount, DecodeGroup, AfterField;
    assert ElementBytes(tag, value) == RawElement(Decimal(tag), value);
    f := Field(tag, Normalise(types[tag], value), false, []);
  }

  lemma PlainDigits(n: nat)
    ensures SOH !in Decimal(n) && 0 !in Decimal(n)
  {
    hide Decimal;
    forall b | b in Decimal(n) ensures b != SOH && b != 0 { assert IsDigit(b); }
  }
}
