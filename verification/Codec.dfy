/**
 Tag=value encoding and decoding of fields and nested repeating groups, as functions.
 `CodecEngine` holds the loops that compute them.
 */
module Codec {
  import opened Common
  import opened Bytes

  datatype FieldType = IntType | LengthType | CharType | BooleanType | StringType | DataType

  /** Metadata of one field of one message or group; `group` is present for a repeating group's count field. */
  datatype Trait = Trait(ftype: FieldType, pos: nat, mandatory: bool, automatic: bool, group: Option<Schema>)

  datatype Schema = Schema(traits: map<nat, Trait>)

  /** The context's field table: how a field with this tag is constructed. */
  type FieldTable = map<nat, FieldType>

  /** A field holds the text it prints. `hasGroup` says that a group object exists under this count field. */
  datatype Field = Field(tag: nat, value: Bytes, hasGroup: bool, insts: seq<Inst>)

  /** One instance of a repeating group. */
  datatype Inst = Inst(fields: seq<Field>)

  const BODY_LENGTH := 9
  const MAX_FLD_LENGTH := 1024

  /** The text of a field constructed from `val`: parse, then print. */
  function Normalise(t: FieldType, val: Bytes): Bytes {
    var v := CString(val);
    match t
    case IntType => IntText(Int32(Atoi(v)))
    case LengthType => IntText(Int32(Atoi(v)))
    case CharType => [if v == [] then 0 else v[0]]
    case BooleanType => [if v != [] && (v[0] == 89 || v[0] == 121) then 89 else 78]
    case _ => v
  }

  predicate HasCount(value: Bytes) { Atoi(value) > 0 }

  // ---------------------------------------------------------------- encoding

  function ElementBytes(tag: nat, value: Bytes): Bytes { Decimal(tag) + [EQUALS] + value + [SOH] }

  function EncodeField(f: Field): Bytes
    decreases f, 1
  {
    ElementBytes(f.tag, f.value) + (if f.hasGroup && HasCount(f.value) then EncodeGroup(f.insts) else [])
  }

  function EncodeGroup(insts: seq<Inst>): Bytes
    decreases insts, 0
  {
    if insts == [] then [] else EncodeFields(insts[0].fields) + EncodeGroup(insts[1..])
  }

  function EncodeFields(fs: seq<Field>): Bytes
    decreases fs, 0
  {
    if fs == [] then [] else EncodeField(fs[0]) + EncodeFields(fs[1..])
  }

  // ---------------------------------------------------------------- one element

  /** A tag=value element found at the front of a buffer, and its size in bytes. */
  datatype Element = Element(tag: Bytes, val: Bytes, size: nat)

  function DigitsAt(s: Bytes): (n: nat)
    ensures n <= |s|
  {
    if s == [] || !IsDigit(s[0]) then 0 else 1 + DigitsAt(s[1..])
  }

  function ExtractElement(s: Bytes): (e: Option<Element>)
    ensures e.Some? ==> 2 <= e.value.size <= |s|
  {
    var n := DigitsAt(s);
    if n == |s| || s[n] != EQUALS then None
    else
      var v := Before(s[n + 1..], SOH);
      if n + 1 + |v| >= |s| then None else Some(Element(s[..n], v, n + 1 + |v| + 1))
  }

  /** The value has a known width; the byte after it is skipped unseen, even if the buffer ends there. */
  function ExtractFixed(s: Bytes, width: nat): (e: Option<Element>)
    ensures e.Some? ==> 2 <= e.value.size <= |s| + 1
  {
    var n := DigitsAt(s);
    if n == |s| || s[n] != EQUALS || |s| < n + 1 + width then None
    else Some(Element(s[..n], s[n + 1..n + 1 + width], n + 1 + width + 1))
  }

  function TagValue(tag: Bytes): nat { Atoi(tag) % USHORT }

  /** What is left of a buffer after `n` bytes. */
  function Rest(s: Bytes, n: nat): Bytes { if n <= |s| then s[n..] else [] }

  // ---------------------------------------------------------------- decoding

  datatype Error =
    | DuplicateField(tag: nat) | UnknownField(tag: nat) | MissingMandatoryField | ValueTooLarge
    | MissingRepeatingGroupField(tag: nat) | InvalidRepeatingGroup(tag: nat) | InvalidMessage | BadCheckSum

  /** `Diverges`: the decoder's loop never ends. */
  datatype Outcome<+T> = Done(value: T, rest: Bytes) | Fails(error: Error) | Diverges

  /** `find_missing` reports a field. */
  predicate Lacks(schema: Schema, present: set<nat>) {
    exists t <- schema.traits :: schema.traits[t].mandatory && t !in present
  }

  function Finish(schema: Schema, present: set<nat>, s: Bytes): Outcome<seq<Field>> {
    if Lacks(schema, present) then Fails(MissingMandatoryField) else Done([], s)
  }

  function Prepend(f: Field, o: Outcome<seq<Field>>): Outcome<seq<Field>> {
    if o.Done? then Done([f] + o.value, o.rest) else o
  }

  /** `MessageBase::decode` on the bytes from the current offset on. */
  function DecodeFields(types: FieldTable, schema: Schema, s: Bytes, present: set<nat>): (o: Outcome<seq<Field>>)
    ensures o.Done? ==> |o.rest| <= |s|
    decreases |s|, 1
  {
    match ExtractElement(s)
    case None => Finish(schema, present, s)
    case Some(e) =>
      var tag := TagValue(e.tag);
      if tag !in schema.traits then Finish(schema, present, s)
      else if tag in present then
        if schema.traits[tag].automatic then DecodeFields(types, schema, s[e.size..], present)
        else Fails(DuplicateField(tag))
      else if tag !in types then Fails(UnknownField(tag))
      else
        var tr, value := schema.traits[tag], Normalise(types[tag], e.val);
        if tr.group.Some? && HasCount(value) then
          var g := DecodeGroup(types, tr.group.value, s[e.size..]);
          if g.Fails? then Fails(g.error) else if g.Diverges? then Diverges
          else Prepend(Field(tag, value, true, g.value), AfterField(types, schema, tag, e.val, g.rest, present))
        else
          Prepend(Field(tag, value, false, []), AfterField(types, schema, tag, e.val, s[e.size..], present))
  }

  /** After a Length field the decoder expects the data field that it measures, with the next higher tag. */
  function AfterField(types: FieldTable, schema: Schema, tag: nat, val: Bytes, s: Bytes,
          before: set<nat>): (o: Outcome<seq<Field>>)
    requires tag in schema.traits
    ensures o.Done? ==> |o.rest| <= |s|
    decreases |s|, 2
  {
    var present := before + {tag};
    if schema.traits[tag].ftype != LengthType || tag == BODY_LENGTH then DecodeFields(types, schema, s, present)
    else
      var width := Atoi(CString(val)) % UNSIGNED;
      if width > MAX_FLD_LENGTH - 1 then Fails(ValueTooLarge)
      else match ExtractFixed(s, width)
           case None => Fails(MissingMandatoryField)
           case Some(e) =>
             var dataTag := TagValue(e.tag);
             if dataTag !in schema.traits then Finish(schema, present, s)
             else if schema.traits[dataTag].ftype != DataType || tag + 1 != dataTag then DecodeFields(types, schema, s, present)
             else if dataTag !in types then Fails(UnknownField(dataTag))
             else Prepend(Field(dataTag, Normalise(types[dataTag], e.val), false, []),
                          DecodeFields(types, schema, Rest(s, e.size), present + {dataTag}))
  }

  /** `decode_group`: instances until a foreign tag or the end of the buffer. An instance that consumes nothing,
      because no element can be extracted, is decoded again for ever. */
  function DecodeGroup(types: FieldTable, g: Schema, s: Bytes): (o: Outcome<seq<Inst>>)
    ensures o.Done? ==> |o.rest| <= |s|
    decreases |s|, 2
  {
    if s == [] then Done([], s)
    else
      var i := DecodeInst(types, g, s, {});
      if i.Fails? then Fails(i.error) else if i.Diverges? then Diverges
      else
        var (fields, last) := i.value;
        if last then Done([Inst(fields)], i.rest)
        else if |i.rest| == |s| then Diverges
        else
          var more := DecodeGroup(types, g, i.rest);
          if more.Done? then Done([Inst(fields)] + more.value, more.rest) else more
  }

  function FinishInst(g: Schema, present: set<nat>, s: Bytes, last: bool): Outcome<(seq<Field>, bool)> {
    if Lacks(g, present) then Fails(MissingMandatoryField) else Done(([], last), s)
  }

  function PrependInst(f: Field, o: Outcome<(seq<Field>, bool)>): Outcome<(seq<Field>, bool)> {
    if o.Done? then Done(([f] + o.value.0, o.value.1), o.rest) else o
  }

  function Position(g: Schema, tag: nat): nat { if tag in g.traits then g.traits[tag].pos else 0 }

  /** One instance; the flag tells whether it is the group's last. */
  function DecodeInst(types: FieldTable, g: Schema, s: Bytes, present: set<nat>): (o: Outcome<(seq<Field>, bool)>)
    ensures o.Done? ==> |o.rest| <= |s|
    decreases |s|, 1
  {
    match ExtractElement(s)
    case None => FinishInst(g, present, s, false)
    case Some(e) =>
      var tag := TagValue(e.tag);
      if tag in present then FinishInst(g, present, s, false)
      else if present == {} && Position(g, tag) != 1 then Fails(MissingRepeatingGroupField(tag))
      else if tag !in types || tag !in g.traits then FinishInst(g, present, s, true)
      else
        var value := Normalise(types[tag], e.val);
        if g.traits[tag].group.Some? && HasCount(value) then
          var n := DecodeGroup(types, g.traits[tag].group.value, s[e.size..]);
          if n.Fails? then Fails(n.error) else if n.Diverges? then Diverges
          else PrependInst(Field(tag, value, true, n.value), DecodeInst(types, g, n.rest, present + {tag}))
        else
          PrependInst(Field(tag, value, false, []), DecodeInst(types, g, s[e.size..], present + {tag}))
  }
}
