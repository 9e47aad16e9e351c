/** The loops of the codec. Each is proved to compute the function of the same name in `Codec`. */
module CodecEngine {
  import opened Common
  import opened Bytes
  import C = Codec

  datatype Decoded = Decoded(fields: seq<C.Field>, offset: nat) | Thrown(error: C.Error)

  lemma {:induction false} DigitsEnd(s: Bytes, n: nat)
    requires n <= |s| && AllDigits(s[..n]) && (n == |s| || !IsDigit(s[n]))
    ensures C.DigitsAt(s) == n
  {
    if n > 0 {
      assert s[0] in s[..n];
      assert s[1..][..n - 1] == s[..n][1..];
      forall b | b in s[1..][..n - 1] ensures IsDigit(b) { assert b in s[..n]; }
      DigitsEnd(s[1..], n - 1);
    }
  }

  /** The tokenizer's state machine; 0 bytes consumed means no element. */
  method ExtractElement(s: Bytes) returns (size: nat, tag: Bytes, val: Bytes)
    ensures size == 0 <==> C.ExtractElement(s).None?
    ensures size != 0 ==> C.ExtractElement(s) == Some(C.Element(tag, val, size))
  {
    tag, val := [], [];
    var inValue := false;
    var i := 0;
    while i < |s|
      invariant i <= |s|
      invariant !inValue ==> tag == s[..i] && AllDigits(tag) && val == []
      invariant inValue ==> |tag| < i && tag == s[..|tag|] && AllDigits(tag) && s[|tag|] == EQUALS
                            && val == s[|tag| + 1..i] && SOH !in val
    {
      if !inValue {
        if !IsDigit(s[i]) {
          DigitsEnd(s, i);
          if s[i] != EQUALS {
            return 0, [], [];
          }
          inValue := true;
        } else {
          tag := tag + [s[i]];
        }
      } else {
        if s[i] == SOH {
          ValueEnds(s, tag, val, i);
          return i + 1, tag, val;
        }
        val := val + [s[i]];
      }
      i := i + 1;
    }
    if inValue {
      assert s[|tag| + 1..i] == s[|tag| + 1..];
      ValueUnended(s, tag, val);
    } else {
      assert s[..|s|] == s;
      DigitsEnd(s, |s|);
    }
    return 0, [], [];
  }

  lemma ValueEnds(s: Bytes, tag: Bytes, val: Bytes, i: nat)
    requires |tag| < i < |s| && tag == s[..|tag|] && AllDigits(tag) && s[|tag|] == EQUALS
    requires val == s[|tag| + 1..i] && SOH !in val && s[i] == SOH
    ensures C.ExtractElement(s) == Some(C.Element(tag, val, i + 1))
  {
    DigitsEnd(s, |tag|);
    var after := s[|tag| + 1..];
    assert after[..|val|] == val;
    BeforeIs(after, SOH, |val|);
  }

  lemma ValueUnended(s: Bytes, tag: Bytes, val: Bytes)
    requires |tag| < |s| && tag == s[..|tag|] && AllDigits(tag) && s[|tag|] == EQUALS && val == s[|tag| + 1..]
    requires SOH !in val
    ensures C.ExtractElement(s).None?
  {
    DigitsEnd(s, |tag|);
    assert val[..|val|] == val;
    BeforeIs(val, SOH, |val|);
  }

  method ExtractFixed(s: Bytes, width: nat) returns (size: nat, tag: Bytes, val: Bytes)
    ensures size == 0 <==> C.ExtractFixed(s, width).None?
    ensures size != 0 ==> C.ExtractFixed(s, width) == Some(C.Element(tag, val, size))
  {
    tag := [];
    var i := 0;
    while i < |s|
      invariant i <= |s| && tag == s[..i] && AllDigits(tag)
    {
      if !IsDigit(s[i]) {
        DigitsEnd(s, i);
        if s[i] != EQUALS || |s| < i + 1 + width {
          return 0, [], [];
        }
        return i + 1 + width + 1, tag, s[i + 1..i + 1 + width];
      }
      tag := tag + [s[i]];
      i := i + 1;
    }
    DigitsEnd(s, |s|);
    return 0, [], [];
  }

  lemma UpToNul(val: Bytes)
    ensures Before(val + [0], 0) == CString(val)
    decreases |val|
  {
    if val == [] {
      assert val + [0] == [0];
    } else if val[0] != 0 {
      assert (val + [0])[1..] == val[1..] + [0];
      UpToNul(val[1..]);
    }
  }

  /** The text that a field constructed from `val` prints; an extracted value ends with a NUL. */
  method Construct(t: C.FieldType, val: Bytes) returns (text: Bytes)
    ensures text == C.Normalise(t, val)
  {
    hide Atoi, IntText, Before;
    if t == C.IntType || t == C.LengthType {
      UpToNul(val);
      var n := FastAtoiInt(val + [0], 0);
      return IntText(n);
    }
    return C.Normalise(t, val);
  }

  /** `fast_atoi<unsigned short>` on an extracted tag, which the tokenizer terminated with a NUL. */
  method TagNumber(tag: Bytes) returns (n: nat)
    requires AllDigits(tag)
    ensures n == C.TagValue(tag)
  {
    n := FastAtoi(tag + [0], 0, USHORT);
    assert (tag + [0])[..|tag|] == tag;
    forall b | b in tag ensures b != 0 { assert IsDigit(b); }
    BeforeIs(tag + [0], 0, |tag|);
  }

  function PrependAll(fs: seq<C.Field>, o: C.Outcome<seq<C.Field>>): C.Outcome<seq<C.Field>> {
    if o.Done? then C.Done(fs + o.value, o.rest) else o
  }

  /** What a decoding method returned agrees with the decoding function. */
  predicate Agrees(r: Decoded, s: Bytes, o: C.Outcome<seq<C.Field>>) {
    match r
    case Decoded(fields, offset) => o == C.Done(fields, C.Rest(s, offset))
    case Thrown(error) => o == C.Fails(error)
  }

  lemma TagIsDigits(s: Bytes)
    ensures C.ExtractElement(s).Some? ==> AllDigits(C.ExtractElement(s).value.tag)
    ensures forall w: nat :: C.ExtractFixed(s, w).Some? ==> AllDigits(C.ExtractFixed(s, w).value.tag)
  {
    DigitsAreDigits(s);
  }

  lemma {:induction false} DigitsAreDigits(s: Bytes)
    ensures AllDigits(s[..C.DigitsAt(s)])
  {
    if s != [] && IsDigit(s[0]) {
      DigitsAreDigits(s[1..]);
      assert s[..C.DigitsAt(s)] == [s[0]] + s[1..][..C.DigitsAt(s[1..])];
    }
  }

  function PrependInsts(acc: seq<C.Inst>, o: C.Outcome<seq<C.Inst>>): C.Outcome<seq<C.Inst>> {
    if o.Done? then C.Done(acc + o.value, o.rest) else o
  }

  datatype DecodedGroup = DecodedGroup(insts: seq<C.Inst>, offset: nat) | GroupThrown(error: C.Error)

  /** `decode_group` on a buffer on which it ends. */
  method DecodeGroup(types: C.FieldTable, g: C.Schema, s: Bytes, offset: nat) returns (r: DecodedGroup)
    requires offset <= |s| && !C.DecodeGroup(types, g, s[offset..]).Diverges?
    ensures match r
            case DecodedGroup(insts, end) =>
              offset <= end <= |s| && C.DecodeGroup(types, g, s[offset..]) == C.Done(insts, s[end..])
            case GroupThrown(error) => C.DecodeGroup(types, g, s[offset..]) == C.Fails(error)
    decreases |s| - offset, 1
  {
    hide C.DecodeGroup, C.DecodeInst;
    ghost var whole := C.DecodeGroup(types, g, s[offset..]);
    var off, ok, insts := offset, true, [];
    assert whole.Done? ==> insts + whole.value == whole.value;
    while ok && off < |s|
      invariant offset <= off <= |s|
      invariant whole == PrependInsts(insts, if ok then C.DecodeGroup(types, g, s[off..]) else C.Done([], s[off..]))
      decreases |s| - off, ok
    {
      GroupUnfold(types, g, s[off..]);
      var i := DecodeInst(types, g, s, off);
      match i {
        case InstThrown(error) => return GroupThrown(error);
        case DecodedInst(fields, end, last) =>
          assert insts + [C.Inst(fields)] == (insts + [C.Inst(fields)]) + [];
          ghost var more := C.DecodeGroup(types, g, s[end..]);
          assert more.Done? ==> insts + ([C.Inst(fields)] + more.value) == (insts + [C.Inst(fields)]) + more.value;
          insts := insts + [C.Inst(fields)];
          off, ok := end, !last;
      }
    }
    if ok { GroupAtEnd(types, g); }
    assert s[|s|..] == [];
    assert insts + [] == insts;
    return DecodedGroup(insts, off);
  }

  lemma GroupAtEnd(types: C.FieldTable, g: C.Schema)
    ensures C.DecodeGroup(types, g, []) == C.Done([], [])
  {}

  lemma GroupUnfold(types: C.FieldTable, g: C.Schema, s: Bytes)
    requires s != []
    ensures var i := C.DecodeInst(types, g, s, {});
            C.DecodeGroup(types, g, s) ==
              if i.Fails? then C.Fails(i.error) else if i.Diverges? then C.Diverges
              else if i.value.1 then C.Done([C.Inst(i.value.0)], i.rest)
              else if |i.rest| == |s| then C.Diverges
              else var more := C.DecodeGroup(types, g, i.rest);
                   if more.Done? then C.Done([C.Inst(i.value.0)] + more.value, more.rest) else more
  {}

  datatype DecodedInst = DecodedInst(fields: seq<C.Field>, offset: nat, last: bool) | InstThrown(error: C.Error)

  function PrependMany(fs: seq<C.Field>, o: C.Outcome<(seq<C.Field>, bool)>): C.Outcome<(seq<C.Field>, bool)> {
    if o.Done? then C.Done((fs + o.value.0, o.value.1), o.rest) else o
  }

  datatype MadeField = GotField(field: C.Field, end: nat) | FieldThrown(error: C.Error)

  /** The field constructed from an element, with the group that follows a positive count. */
  method FieldAt(types: C.FieldTable, tr: C.Trait, tag: nat, val: Bytes, s: Bytes, off: nat) returns (r: MadeField)
    requires tag in types && off <= |s| + 1
    requires tr.group.Some? && Atoi(C.Normalise(types[tag], val)) > 0 ==>
               off <= |s| && !C.DecodeGroup(types, tr.group.value, s[off..]).Diverges?
    ensures var value := C.Normalise(types[tag], val);
            if tr.group.Some? && Atoi(value) > 0 then
              var n := C.DecodeGroup(types, tr.group.value, s[off..]);
              if n.Fails? then r == FieldThrown(n.error)
              else r.GotField? && off <= r.end <= |s| && r.field == C.Field(tag, value, true, n.value) && n.rest == s[r.end..]
            else r == GotField(C.Field(tag, value, false, []), off)
    decreases |s| - off, 2
  {
    hide C.DecodeGroup, C.Normalise, Atoi;
    var text := Construct(types[tag], val);
    var f := C.Field(tag, text, false, []);
    if tr.group.Some? && Atoi(f.value) > 0 {
      var n := DecodeGroup(types, tr.group.value, s, off);
      match n {
        case GroupThrown(error) => return FieldThrown(error);
        case DecodedGroup(insts, end) => return GotField(f.(hasGroup := true, insts := insts), end);
      }
    }
    return GotField(f, off);
  }

  /** The inner loop of `decode_group`: one instance. */
  method DecodeInst(types: C.FieldTable, g: C.Schema, s: Bytes, offset: nat) returns (r: DecodedInst)
    requires offset <= |s| && !C.DecodeInst(types, g, s[offset..], {}).Diverges?
    ensures match r
            case DecodedInst(fields, end, last) =>
              offset <= end <= |s| && C.DecodeInst(types, g, s[offset..], {}) == C.Done((fields, last), s[end..])
            case InstThrown(error) => C.DecodeInst(types, g, s[offset..], {}) == C.Fails(error)
    decreases |s| - offset, 0
  {
    hide C.DecodeInst, C.DecodeGroup, C.ExtractElement, C.Normalise, C.TagValue, Atoi, C.Lacks;
    ghost var whole := C.DecodeInst(types, g, s[offset..], {});
    var off, fields, present := offset, [], {};
    var last := false;
    assert whole.Done? ==> fields + whole.value.0 == whole.value.0;
    while off < |s|
      invariant offset <= off <= |s| && !last
      invariant whole == PrependMany(fields, C.DecodeInst(types, g, s[off..], present))
      decreases |s| - off
    {
      TagIsDigits(s[off..]);
      InstUnfold(types, g, s[off..], present);
      var size, text, val := ExtractElement(s[off..]);
      if size == 0 { break; }
      var tag := TagNumber(text);
      if tag in present { break; }
      if present == {} && C.Position(g, tag) != 1 {
        return InstThrown(C.MissingRepeatingGroupField(tag));
      }
      if tag !in types || tag !in g.traits {
        last := true;
        break;
      }
      assert s[off..][size..] == s[off + size..];
      off := off + size;
      var made := FieldAt(types, g.traits[tag], tag, val, s, off);
      if made.FieldThrown? {
        return InstThrown(made.error);
      }
      var f := made.field;
      off := made.end;
      present := present + {tag};
      ghost var more := C.DecodeInst(types, g, s[off..], present);
      assert more.Done? ==> fields + ([f] + more.value.0) == (fields + [f]) + more.value.0;
      fields := fields + [f];
    }
    if off == |s| { InstUnfold(types, g, s[off..], present); }
    assert s[|s|..] == [];
    assert fields + [] == fields;
    if C.Lacks(g, present) {
      return InstThrown(C.MissingMandatoryField);
    }
    return DecodedInst(fields, off, last);
  }

  lemma InstUnfold(types: C.FieldTable, g: C.Schema, s: Bytes, present: set<nat>)
    ensures s == [] ==> C.DecodeInst(types, g, s, present) == C.FinishInst(g, present, s, false)
    ensures match C.ExtractElement(s)
            case None => C.DecodeInst(types, g, s, present) == C.FinishInst(g, present, s, false)
            case Some(e) =>
              var tag := C.TagValue(e.tag);
              C.DecodeInst(types, g, s, present) ==
                if tag in present then C.FinishInst(g, present, s, false)
                else if present == {} && C.Position(g, tag) != 1 then C.Fails(C.MissingRepeatingGroupField(tag))
                else if tag !in types || tag !in g.traits then C.FinishInst(g, present, s, true)
                else
                  var value := C.Normalise(types[tag], e.val);
                  if g.traits[tag].group.Some? && Atoi(value) > 0 then
                    var n := C.DecodeGroup(types, g.traits[tag].group.value, s[e.size..]);
                    if n.Fails? then C.Fails(n.error) else if n.Diverges? then C.Diverges
                    else C.PrependInst(C.Field(tag, value, true, n.value), C.DecodeInst(types, g, n.rest, present + {tag}))
                  else C.PrependInst(C.Field(tag, value, false, []), C.DecodeInst(types, g, s[e.size..], present + {tag}))
  {}

  /** `MessageBase::decode` on a buffer on which it ends; `present` holds what the message has before. */
  method Decode(types: C.FieldTable, schema: C.Schema, s: Bytes, offset: nat, before: set<nat>) returns (r: Decoded)
    requires !C.DecodeFields(types, schema, C.Rest(s, offset), before).Diverges?
    ensures Agrees(r, s, C.DecodeFields(types, schema, C.Rest(s, offset), before))
  {
    hide C.DecodeFields, C.DecodeGroup, C.AfterField, C.ExtractElement, C.Normalise, C.TagValue, Atoi, C.Lacks,
         PrependAll, C.Prepend, C.Finish;
    ghost var whole := C.DecodeFields(types, schema, C.Rest(s, offset), before);
    var off, fields, present := offset, [], before;
    PrependNone(whole);
    while off <= |s|
      invariant whole == PrependAll(fields, C.DecodeFields(types, schema, C.Rest(s, off), present))
      decreases |s| + 1 - off
    {
      TagIsDigits(s[off..]);
      var size, text, val := ExtractElement(s[off..]);
      FieldsUnfold(types, schema, s[off..], present);
      if size == 0 { break; }
      var tag := TagNumber(text);
      if tag !in schema.traits { break; }
      assert s[off..][size..] == s[off + size..];
      off := off + size;
      PrependFailed(fields);
      if tag in present {
        if !schema.traits[tag].automatic {
          return Thrown(C.DuplicateField(tag));
        }
      } else {
        if tag !in types {
          return Thrown(C.UnknownField(tag));
        }
        var made := FieldAt(types, schema.traits[tag], tag, val, s, off);
        if made.FieldThrown? {
          return Thrown(made.error);
        }
        off := made.end;
        PrependMore(fields, made.field, C.AfterField(types, schema, tag, val, s[off..], present));
        fields := fields + [made.field];
        PrependFailed(fields);
        var t := FieldTurn(types, schema, tag, val, s, off, present);
        present := present + {tag};
        match t {
          case Stop(error) => return Thrown(error);
          case Leave => break;
          case Again =>
          case TookData(d, end) =>
            PrependMore(fields, d, C.DecodeFields(types, schema, C.Rest(s, end), present + {d.tag}));
            fields, present, off := fields + [d], present + {d.tag}, end;
        }
      }
    }
    if off > |s| { FieldsUnfold(types, schema, [], present); }
    Finished(fields, schema, present, C.Rest(s, off));
    if C.Lacks(schema, present) {
      return Thrown(C.MissingMandatoryField);
    }
    return Decoded(fields, off);
  }

  lemma PrependNone(o: C.Outcome<seq<C.Field>>)
    ensures PrependAll([], o) == o
  {
    assert o.Done? ==> [] + o.value == o.value;
  }

  lemma PrependMore(fs: seq<C.Field>, f: C.Field, o: C.Outcome<seq<C.Field>>)
    ensures PrependAll(fs, C.Prepend(f, o)) == PrependAll(fs + [f], o)
  {
    assert o.Done? ==> fs + ([f] + o.value) == (fs + [f]) + o.value;
  }

  lemma PrependFailed(fs: seq<C.Field>)
    ensures forall e :: PrependAll(fs, C.Fails(e)) == C.Fails(e)
    ensures PrependAll(fs, C.Diverges) == C.Diverges
  {}

  lemma Finished(fs: seq<C.Field>, schema: C.Schema, present: set<nat>, rest: Bytes)
    ensures PrependAll(fs, C.Finish(schema, present, rest)) ==
            if C.Lacks(schema, present) then C.Fails(C.MissingMandatoryField) else C.Done(fs, rest)
  {
    assert fs + [] == fs;
  }

  lemma FieldsUnfold(types: C.FieldTable, schema: C.Schema, s: Bytes, present: set<nat>)
    ensures s == [] ==> C.DecodeFields(types, schema, s, present) == C.Finish(schema, present, s)
    ensures match C.ExtractElement(s)
            case None => C.DecodeFields(types, schema, s, present) == C.Finish(schema, present, s)
            case Some(e) =>
              var tag := C.TagValue(e.tag);
              C.DecodeFields(types, schema, s, present) ==
                if tag !in schema.traits then C.Finish(schema, present, s)
                else if tag in present then
                  if schema.traits[tag].automatic then C.DecodeFields(types, schema, s[e.size..], present)
                  else C.Fails(C.DuplicateField(tag))
                else if tag !in types then C.Fails(C.UnknownField(tag))
                else
                  var value := C.Normalise(types[tag], e.val);
                  if schema.traits[tag].group.Some? && Atoi(value) > 0 then
                    var g := C.DecodeGroup(types, schema.traits[tag].group.value, s[e.size..]);
                    if g.Fails? then C.Fails(g.error) else if g.Diverges? then C.Diverges
                    else C.Prepend(C.Field(tag, value, true, g.value), C.AfterField(types, schema, tag, e.val, g.rest, present))
                  else C.Prepend(C.Field(tag, value, false, []), C.AfterField(types, schema, tag, e.val, s[e.size..], present))
  {}

  lemma AfterPlain(types: C.FieldTable, schema: C.Schema, tag: nat, val: Bytes, s: Bytes, before: set<nat>)
    requires tag in schema.traits && (schema.traits[tag].ftype != C.LengthType || tag == C.BODY_LENGTH)
    ensures C.AfterField(types, schema, tag, val, s, before) == C.DecodeFields(types, schema, s, before + {tag})
  {}

  /** What the second turn of the decoder's inner loop does behind a Length field: throw, leave both loops, go on at
      the same place, or take the data field. */
  datatype Turn = Stop(error: C.Error) | Leave | Again | TookData(field: C.Field, offset: nat)

  /** What follows a field: a Length field takes a second turn. */
  method FieldTurn(types: C.FieldTable, schema: C.Schema, tag: nat, val: Bytes, s: Bytes, off: nat, before: set<nat>)
    returns (t: Turn)
    requires tag in schema.traits && off <= |s|
    ensures var after := C.AfterField(types, schema, tag, val, s[off..], before);
            match t
            case Stop(error) => after == C.Fails(error)
            case Leave => after == C.Finish(schema, before + {tag}, s[off..])
            case Again => after == C.DecodeFields(types, schema, s[off..], before + {tag})
            case TookData(d, end) =>
              off < end <= |s| + 1
              && after == C.Prepend(d, C.DecodeFields(types, schema, C.Rest(s, end), before + {tag} + {d.tag}))
  {
    hide C.DecodeFields, C.AfterField, C.Finish, C.Prepend;
    if schema.traits[tag].ftype != C.LengthType || tag == C.BODY_LENGTH {
      AfterPlain(types, schema, tag, val, s[off..], before);
      return Again;
    }
    t := SecondTurn(types, schema, tag, val, s, off, before + {tag});
  }

  method SecondTurn(types: C.FieldTable, schema: C.Schema, length: nat, val: Bytes, s: Bytes, off: nat,
          present: set<nat>)
    returns (t: Turn)
    requires off <= |s| && length in present
    requires length in schema.traits && schema.traits[length].ftype == C.LengthType && length != C.BODY_LENGTH
    ensures forall before: set<nat> :: present == before + {length} ==>
      var after := C.AfterField(types, schema, length, val, s[off..], before);
      match t
      case Stop(error) => after == C.Fails(error)
      case Leave => after == C.Finish(schema, present, s[off..])
      case Again => after == C.DecodeFields(types, schema, s[off..], present)
      case TookData(d, end) =>
        off < end <= |s| + 1
        && after == C.Prepend(d, C.DecodeFields(types, schema, C.Rest(s, end), present + {d.tag}))
  {
    hide C.DecodeFields, C.Normalise, C.TagValue, C.ExtractFixed;
    var width := Atoi(CString(val)) % UNSIGNED;
    if width > C.MAX_FLD_LENGTH - 1 {
      return Stop(C.ValueTooLarge);
    }
    TagIsDigits(s[off..]);
    var size, text, data := ExtractFixed(s[off..], width);
    if size == 0 {
      return Stop(C.MissingMandatoryField);
    }
    var tag := TagNumber(text);
    if tag !in schema.traits {
      return Leave;
    }
    if schema.traits[tag].ftype != C.DataType || length + 1 != tag {
      return Again;
    }
    if tag !in types {
      return Stop(C.UnknownField(tag));
    }
    assert C.Rest(s[off..], size) == C.Rest(s, off + size);
    var value := Construct(types[tag], data);
    return TookData(C.Field(tag, value, false, []), off + size);
  }

  // ---------------------------------------------------------------- encoding

  /** Group objects hang only under fields that the schema declares as group counts. */
  ghost predicate Typed(schema: C.Schema, fs: seq<C.Field>)
    decreases fs
  {
    forall f <- fs ::
      && f.tag in schema.traits
      && (f.hasGroup ==>
            && schema.traits[f.tag].group.Some?
            && forall i <- f.insts :: Typed(schema.traits[f.tag].group.value, i.fields))
  }

  /** Some group count is positive while no group object exists under it. */
  ghost predicate MissingGroup(schema: C.Schema, fs: seq<C.Field>)
    decreases fs
  {
    exists f <- fs :: f.tag in schema.traits && schema.traits[f.tag].group.Some? && Atoi(f.value) > 0
      && (!f.hasGroup || exists i <- f.insts :: MissingGroup(schema.traits[f.tag].group.value, i.fields))
  }

  /** `encode`: every field in position order, each followed by its group; it throws exactly when a group is missing. */
  method Encode(schema: C.Schema, fs: seq<C.Field>) returns (out: Bytes, missing: Option<C.Error>)
    requires Typed(schema, fs)
    ensures missing.Some? <==> MissingGroup(schema, fs)
    ensures missing.None? ==> out == C.EncodeFields(fs)
    decreases fs, 1
  {
    MissesOne(schema, fs);
    hide C.EncodeFields, C.EncodeField, Misses, MissingGroup;
    out := [];
    EncodeNothing();
    for i := 0 to |fs|
      invariant out == C.EncodeFields(fs[..i])
      invariant forall j :: 0 <= j < i ==> !Misses(schema, fs[j])
    {
      assert fs[i] in fs;
      var element, lost := EncodeOne(schema, fs[i]);
      if lost.Some? {
        return [], lost;
      }
      EncodeSnoc(fs[..i], fs[i]);
      assert fs[..i + 1] == fs[..i] + [fs[i]];
      out := out + element;
    }
    assert fs[..|fs|] == fs;
    return out, None;
  }

  /** One field, and its group if the count is positive. */
  method EncodeOne(schema: C.Schema, f: C.Field) returns (element: Bytes, missing: Option<C.Error>)
    requires f.tag in schema.traits
    requires f.hasGroup ==>
               && schema.traits[f.tag].group.Some?
               && forall i <- f.insts :: Typed(schema.traits[f.tag].group.value, i.fields)
    ensures missing.Some? <==> Misses(schema, f)
    ensures missing.None? ==> element == C.EncodeField(f)
    decreases f, 0
  {
    hide C.EncodeGroup, MissingGroup, C.ElementBytes, Atoi;
    element := C.ElementBytes(f.tag, f.value);
    if schema.traits[f.tag].group.Some? && Atoi(f.value) > 0 {
      if !f.hasGroup {
        return [], Some(C.InvalidRepeatingGroup(f.tag));
      }
      var nested, lost := EncodeGroup(schema.traits[f.tag].group.value, f.insts);
      if lost.Some? {
        return [], lost;
      }
      return element + nested, None;
    }
    assert element + [] == element;
    return element, None;
  }

  ghost predicate Misses(schema: C.Schema, f: C.Field) {
    && f.tag in schema.traits && schema.traits[f.tag].group.Some? && Atoi(f.value) > 0
    && (!f.hasGroup || exists i <- f.insts :: MissingGroup(schema.traits[f.tag].group.value, i.fields))
  }

  lemma MissesOne(schema: C.Schema, fs: seq<C.Field>)
    ensures MissingGroup(schema, fs) <==> exists i :: 0 <= i < |fs| && Misses(schema, fs[i])
  {
    hide Atoi;
    if MissingGroup(schema, fs) {
      var f :| f in fs && Misses(schema, f);
      var i :| 0 <= i < |fs| && fs[i] == f;
    }
    if exists i :: 0 <= i < |fs| && Misses(schema, fs[i]) {
      var i :| 0 <= i < |fs| && Misses(schema, fs[i]);
      assert fs[i] in fs;
    }
  }

  lemma EncodeNothing()
    ensures C.EncodeFields([]) == [] && C.EncodeGroup([]) == []
  {}

  method EncodeGroup(g: C.Schema, insts: seq<C.Inst>) returns (out: Bytes, missing: Option<C.Error>)
    requires forall i <- insts :: Typed(g, i.fields)
    ensures missing.Some? <==> exists i <- insts :: MissingGroup(g, i.fields)
    ensures missing.None? ==> out == C.EncodeGroup(insts)
    decreases insts, 0
  {
    hide C.EncodeFields, C.EncodeGroup, MissingGroup, Typed;
    out := [];
    EncodeNothing();
    for j := 0 to |insts|
      invariant out == C.EncodeGroup(insts[..j])
      invariant forall k :: 0 <= k < j ==> !MissingGroup(g, insts[k].fields)
    {
      assert insts[j] in insts;
      var one, lost := Encode(g, insts[j].fields);
      if lost.Some? {
        return [], lost;
      }
      EncodeGroupSnoc(insts[..j], insts[j]);
      assert insts[..j + 1] == insts[..j] + [insts[j]];
      out := out + one;
    }
    assert insts[..|insts|] == insts;
    return out, None;
  }

  lemma {:induction false} EncodeSnoc(fs: seq<C.Field>, f: C.Field)
    ensures C.EncodeFields(fs + [f]) == C.EncodeFields(fs) + C.EncodeField(f)
    decreases |fs|
  {
    hide C.EncodeField;
    if fs == [] {
      assert fs + [f] == [f];
    } else {
      assert (fs + [f])[1..] == fs[1..] + [f];
      EncodeSnoc(fs[1..], f);
    }
  }

  lemma {:induction false} EncodeGroupSnoc(insts: seq<C.Inst>, i: C.Inst)
    ensures C.EncodeGroup(insts + [i]) == C.EncodeGroup(insts) + C.EncodeFields(i.fields)
    decreases |insts|
  {
    hide C.EncodeFields;
    if insts == [] {
      assert insts + [i] == [i] && [i][1..] == [];
    } else {
      assert (insts + [i])[1..] == insts[1..] + [i];
      EncodeGroupSnoc(insts[1..], i);
    }
  }
}
