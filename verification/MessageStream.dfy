/** Whole messages, from the bytes: where the factory splits them, what it leaves behind, and when encoding the result
    gives the bytes back. */
module MessageStream {
  import opened Common
  import opened Bytes
  import opened Codec
  import opened RoundTrip
  import opened Canonical
  import opened Frame

  lemma {:induction false} StreamConcat(u: seq<Raw>, v: seq<Raw>)
    ensures Stream(u + v) == Stream(u) + Stream(v)
  {
    if u == [] {
      assert u + v == v;
    } else {
      assert (u + v)[1..] == u[1..] + v;
      StreamConcat(u[1..], v);
    }
  }

  /** The Length fields that the section's decoder would pair measure right, and no automatic field comes twice. */
  ghost predicate Legible(types: FieldTable, schema: Schema, es: seq<Raw>, present: set<nat>) {
    && AllWhole(es) && AllCanonical(types, es)
    && PairsAgree(schema, es) && LengthsArePlain(schema) && NoRepeat(schema, es, present)
  }

  lemma LegibleSuffix(types: FieldTable, schema: Schema, es: seq<Raw>, k: nat, present: set<nat>)
    requires Legible(types, schema, es, present) && k <= |es|
    ensures Legible(types, schema, es[k..], present)
  {
    hide AllWhole, AllCanonical, PairsAgree, LengthsArePlain, NoRepeat;
    Suffix(types, es, k);
    BodySuffix(schema, es, k, present);
  }

  /** One section in front of the last element, which is none of its own. */
  lemma SectionBefore(types: FieldTable, schema: Schema, es: seq<Raw>, last: Raw, present: set<nat>) returns (k: nat)
    requires Legible(types, schema, es + [last], present) && !Within(schema, TagValue(last.tag))
    ensures !DecodeFields(types, schema, Stream(es + [last]), present).Diverges?
    ensures var o := DecodeFields(types, schema, Stream(es + [last]), present);
            o.Done? ==> k <= |es| && o.rest == Stream(es[k..] + [last]) && AllWithin(schema, es, k)
                        && StopsAt(schema, es, k) && EncodeFields(o.value) + Stream(es[k..]) == Stream(es)
  {
    hide Within, TagValue, AllWhole, AllCanonical, PairsAgree, LengthsArePlain, NoRepeat, DecodeFields, Stream, EncodeFields;
    var all := es + [last];
    k := BodyOnStream(types, schema, all, present);
    var o := DecodeFields(types, schema, Stream(all), present);
    if o.Done? {
      assert all[|es|] == last;
      assert k <= |es|;
      assert all[k..] == es[k..] + [last];
      StreamConcat(es[k..], [last]);
      StreamConcat(es, [last]);
      Cancel(EncodeFields(o.value) + Stream(es[k..]), Stream(es), Stream([last]));
      assert EncodeFields(o.value) + (Stream(es[k..]) + Stream([last]))
          == EncodeFields(o.value) + Stream(es[k..]) + Stream([last]);
      forall j | 0 <= j < k && j < |es| ensures Within(schema, TagValue(es[j].tag)) { assert all[j] == es[j]; }
    }
  }

  lemma Cancel(u: Bytes, v: Bytes, w: Bytes)
    ensures u + w == v + w ==> u == v
  {
    if u + w == v + w {
      assert |u| == |v|;
      assert u == (u + w)[..|u|] && v == (v + w)[..|v|];
    }
  }

  /** Everything between MsgType and CheckSum, and CheckSum itself, is legible to each section; CheckSum belongs to
      neither header nor body. */
  ghost predicate LegibleMessage(ctx: Context, body: Schema, es: seq<Raw>, last: Raw) {
    && TagValue(last.tag) == CHECK_SUM && SizeOf(last) == CHKSUM_SZ
    && !Within(ctx.header, CHECK_SUM) && !Within(body, CHECK_SUM)
    && Legible(ctx.types, ctx.header, es + [last], HEADER_AUTO)
    && Legible(ctx.types, body, es + [last], {})
    && Legible(ctx.types, ctx.trailer, es, {CHECK_SUM})
  }

  /** Where the sections end: each takes elements with tags of its own, up to the first foreign one. */
  ghost predicate SplitInto(ctx: Context, body: Schema, es: seq<Raw>, k1: nat, k2: nat, k3: nat) {
    && k1 <= k2 <= k3 <= |es|
    && AllWithin(ctx.header, es, k1) && StopsAt(ctx.header, es, k1)
    && AllWithin(body, es[k1..], k2 - k1) && StopsAt(body, es, k2)
    && AllWithin(ctx.trailer, es[k2..], k3 - k2) && StopsAt(ctx.trailer, es, k3)
  }

  /** The three decoders on any legible message: they end, split it at those places, and the sections encode to all of
      it but what is left over. */
  lemma SectionsOnStream(ctx: Context, body: Schema, es: seq<Raw>, last: Raw) returns (k1: nat, k2: nat, k3: nat)
    requires LegibleMessage(ctx, body, es, last)
    ensures !DecodeSections(ctx, body, Stream(es + [last])).Diverges?
    ensures var o := DecodeSections(ctx, body, Stream(es + [last]));
            o.Done? ==>
              && SplitInto(ctx, body, es, k1, k2, k3) && o.rest == Stream(es[k3..])
              && EncodeFields(o.value.0) + (EncodeFields(o.value.1) + (EncodeFields(o.value.2) + o.rest)) == Stream(es)
  {
    hide Within, TagValue, DecodeFields, Stream, EncodeFields, Legible, AllWithin, StopsAt;
    k1, k2, k3 := 0, 0, 0;
    k1 := SectionBefore(ctx.types, ctx.header, es, last, HEADER_AUTO);
    var h := DecodeFields(ctx.types, ctx.header, Stream(es + [last]), HEADER_AUTO);
    if h.Done? {
      var es1 := es[k1..];
      assert (es + [last])[k1..] == es1 + [last];
      LegibleSuffix(ctx.types, body, es + [last], k1, {});
      var n := SectionBefore(ctx.types, body, es1, last, {});
      k2 := k1 + n;
      var b := DecodeFields(ctx.types, body, Stream(es1 + [last]), {});
      if b.Done? {
        var es2 := es[k2..];
        Later(es, k1, n);
        LegibleSuffix(ctx.types, ctx.trailer, es, k2, {CHECK_SUM});
        StopsLater(body, es, k1, n);
        WithoutLast(es2, last);
        var m := TrailerOnStream(ctx.types, ctx.trailer, es2, {CHECK_SUM});
        if DecodeFields(ctx.types, ctx.trailer, Stream(es2), {CHECK_SUM}).Done? {
          Later(es, k2, m);
          StopsLater(ctx.trailer, es, k2, m);
          k3 := k2 + m;
        }
      }
    }
  }

  lemma TrailerOnStream(types: FieldTable, schema: Schema, es: seq<Raw>, present: set<nat>) returns (k: nat)
    requires Legible(types, schema, es, present)
    ensures !DecodeFields(types, schema, Stream(es), present).Diverges?
    ensures var o := DecodeFields(types, schema, Stream(es), present);
            o.Done? ==> k <= |es| && o.rest == Stream(es[k..]) && AllWithin(schema, es, k)
                        && StopsAt(schema, es, k) && EncodeFields(o.value) + o.rest == Stream(es)
  {
    hide AllWhole, AllCanonical, PairsAgree, LengthsArePlain, NoRepeat, DecodeFields, Stream, EncodeFields, AllWithin, StopsAt;
    k := BodyOnStream(types, schema, es, present);
  }

  lemma StopsLater(schema: Schema, es: seq<Raw>, j: nat, k: nat)
    requires j <= |es| && k <= |es[j..]| && StopsAt(schema, es[j..], k)
    ensures StopsAt(schema, es, j + k)
  {
    hide TagValue;
    assert k < |es[j..]| ==> es[j..][k] == es[j + k];
  }

  lemma WithoutLast(es: seq<Raw>, last: Raw)
    requires SizeOf(last) == CHKSUM_SZ
    ensures DropChksum(Stream(es + [last])) == Stream(es)
  {
    StreamConcat(es, [last]);
    assert [last][1..] == [];
    assert |Stream([last])| == CHKSUM_SZ;
    assert (Stream(es) + Stream([last]))[..|Stream(es)|] == Stream(es);
  }

  // ---------------------------------------------------------------- the factory

  /** A whole message: its three leading elements, its sections, and CheckSum. */
  function MessageBytes(beginStr: Bytes, length: Bytes, msgType: Bytes, es: seq<Raw>, c: Bytes): Bytes {
    (ElementBytes(BEGIN_STRING, beginStr) + ElementBytes(BODY_LENGTH, length))
    + (ElementBytes(MSG_TYPE, msgType) + (Stream(es) + ElementBytes(CHECK_SUM, c)))
  }

  function LastRaw(c: Bytes): Raw { Raw(Decimal(CHECK_SUM), c) }

  lemma LastOnStream(es: seq<Raw>, c: Bytes)
    ensures Stream(es) + ElementBytes(CHECK_SUM, c) == Stream(es + [LastRaw(c)])
  {
    StreamConcat(es, [LastRaw(c)]);
    hide Decimal;
    assert [LastRaw(c)][1..] == [];
  }

  /** What the factory makes of a whole message, by what the three decoders make of its sections. */
  lemma FactoryOnMessage(ctx: Context, beginStr: Bytes, length: Bytes, msgType: Bytes, es: seq<Raw>, c: Bytes)
    requires SOH !in beginStr && SOH !in length && PlainText(msgType) && |c| == 3
    ensures var s := MessageBytes(beginStr, length, msgType, es, c);
            && |s| >= CHKSUM_SZ
            && (msgType !in ctx.bodies ==> Factory(ctx, s) == Refused(InvalidMessage))
            && (msgType in ctx.bodies ==>
                  var d := DecodeSections(ctx, ctx.bodies[msgType], Stream(es + [LastRaw(c)]));
                  Factory(ctx, s) ==
                    if d.Fails? then Refused(d.error) else if d.Diverges? then Hangs
                    else if Atoi(CString(c)) % UNSIGNED != Chk(s[..|s| - 7]) then Refused(BadCheckSum)
                    else Made(Parsed(msgType, Atoi(CString(length)) % UNSIGNED, d.value.0, d.value.1, d.value.2)))
  {
    hide ExtractHeader, ElementBytes, DecodeSections, Stream, Chk, Atoi, CString, Decimal, MessageBytes;
    var s, hlen, sections := MessageBytes(beginStr, length, msgType, es, c), 0, Stream(es + [LastRaw(c)]);
    hlen := MessageParts(beginStr, length, msgType, es, c);
    NoNul(msgType);
    FactoryByParts(ctx, s, length, msgType, hlen, sections, c);
  }

  lemma MessageParts(beginStr: Bytes, length: Bytes, msgType: Bytes, es: seq<Raw>, c: Bytes) returns (hlen: nat)
    requires SOH !in beginStr && SOH !in length && PlainText(msgType) && |c| == 3
    ensures var s := MessageBytes(beginStr, length, msgType, es, c);
            && ExtractHeader(s) == Some((length, msgType, hlen)) && hlen <= |s|
            && s[hlen..] == Stream(es + [LastRaw(c)]) && EndsWith(s, c)
  {
    hide ExtractHeader, ElementBytes, Stream, Decimal;
    var tail := Stream(es) + ElementBytes(CHECK_SUM, c);
    LastOnStream(es, c);
    HeaderExtracted(beginStr, length, msgType, tail);
    var e35 := ElementBytes(MSG_TYPE, msgType);
    var lead := ElementBytes(BEGIN_STRING, beginStr) + ElementBytes(BODY_LENGTH, length);
    hlen := |lead + e35|;
    FramedParts(lead + (e35 + Stream(es)), c);
    assert lead + (e35 + tail) == lead + (e35 + Stream(es)) + ElementBytes(CHECK_SUM, c);
  }

  /** The bytes that the factory looks at last. */
  predicate EndsWith(s: Bytes, c: Bytes) {
    |s| >= CHKSUM_SZ && s[|s| - 7] == 49 && s[|s| - 6] == 48 && s[|s| - 4..|s| - 1] == c
  }

  lemma FactoryByParts(ctx: Context, s: Bytes, length: Bytes, msgType: Bytes, hlen: nat, sections: Bytes, c: Bytes)
    requires ExtractHeader(s) == Some((length, msgType, hlen)) && CString(msgType) == msgType
    requires hlen <= |s| && s[hlen..] == sections && EndsWith(s, c)
    ensures msgType !in ctx.bodies ==> Factory(ctx, s) == Refused(InvalidMessage)
    ensures msgType in ctx.bodies ==>
              var d := DecodeSections(ctx, ctx.bodies[msgType], sections);
              Factory(ctx, s) ==
                if d.Fails? then Refused(d.error) else if d.Diverges? then Hangs
                else if Atoi(CString(c)) % UNSIGNED != Chk(s[..|s| - 7]) then Refused(BadCheckSum)
                else Made(Parsed(msgType, Atoi(CString(length)) % UNSIGNED, d.value.0, d.value.1, d.value.2))
  {
    hide ExtractHeader, DecodeSections, Chk, Atoi, CString;
  }

  /** What the trailer's decoder did not take; the factory never looks at it. */
  function LeftOver(ctx: Context, body: Schema, es: seq<Raw>, c: Bytes): Bytes {
    var d := DecodeSections(ctx, body, Stream(es + [LastRaw(c)]));
    if d.Done? then d.rest else []
  }

  lemma DigitsOfValue(x: nat, y: nat, z: nat)
    requires x < 10 && y < 10 && z < 10
    ensures var v := (x * 10 + y) * 10 + z; v / 100 == x && v / 10 % 10 == y && v % 10 == z
  {
    var v := (x * 10 + y) * 10 + z;
    assert v / 10 == x * 10 + y;
  }

  /** Three digits are the padded form of their value. */
  lemma ThreeOf(c: Bytes)
    requires |c| == 3 && AllDigits(c) && Atoi(c) < 256
    ensures 0 <= Atoi(c) && c == Three(Atoi(c))
  {
    assert IsDigit(c[0]) && IsDigit(c[1]) && IsDigit(c[2]);
    hide Atoi;
    AtoiOfThree(c[0], c[1], c[2]);
    assert c == [c[0], c[1], c[2]];
    DigitsOfValue(c[0] - ZERO, c[1] - ZERO, c[2] - ZERO);
  }

  /** When nothing is left over and BodyLength is right, encoding gives back the message. */
  lemma GivenBack(beginStr: Bytes, p: Parsed, es: seq<Raw>, c: Bytes)
    requires EncodeFields(p.header) + (EncodeFields(p.body) + EncodeFields(p.trailer)) == Stream(es)
    requires var length := |ElementBytes(MSG_TYPE, p.msgType) + Stream(es)|;
             var s := MessageBytes(beginStr, Decimal(length), p.msgType, es, c);
             |c| == 3 && c == Three(Chk(DropChksum(s)))
    ensures Framed(beginStr, Payload(p))
         == MessageBytes(beginStr, Decimal(|ElementBytes(MSG_TYPE, p.msgType) + Stream(es)|), p.msgType, es, c)
  {
    PayloadIs(beginStr, p, []);
    hide EncodeFields, ElementBytes, Three, Chk, Decimal, Payload, Framed, Stream;
    var payload := ElementBytes(MSG_TYPE, p.msgType) + Stream(es);
    assert Payload(p) == payload && Payload(p) + [] == payload;
    PreambleIs(beginStr, |payload|);
    var front := Preamble(beginStr, |payload|) + payload;
    CheckSumSize(c);
    var s := MessageBytes(beginStr, Decimal(|payload|), p.msgType, es, c);
    assert s == front + ElementBytes(CHECK_SUM, c);
    assert DropChksum(s) == front;
  }

  /** The only message whose three leading elements and tail are these. */
  lemma SameMessage(b: Bytes, length: Bytes, msgType: Bytes, tail: Bytes, b': Bytes, length': Bytes, tail': Bytes)
    requires SOH !in b && SOH !in length && SOH !in msgType && SOH !in b' && SOH !in length'
    requires (ElementBytes(BEGIN_STRING, b) + ElementBytes(BODY_LENGTH, length)) + (ElementBytes(MSG_TYPE, msgType) + tail)
          == (ElementBytes(BEGIN_STRING, b') + ElementBytes(BODY_LENGTH, length')) + (ElementBytes(MSG_TYPE, msgType) + tail')
    ensures b == b' && length == length' && tail == tail'
  {
    hide ElementBytes, ExtractElement, Decimal, ExtractHeader;
    HeaderExtracted(b, length, msgType, tail);
    HeaderExtracted(b', length', msgType, tail');
    var e8, e9, more := ElementBytes(BEGIN_STRING, b), ElementBytes(BODY_LENGTH, length),
                        ElementBytes(MSG_TYPE, msgType) + tail;
    var f8, f9, more' := ElementBytes(BEGIN_STRING, b'), ElementBytes(BODY_LENGTH, length'),
                         ElementBytes(MSG_TYPE, msgType) + tail';
    ElementHead(BEGIN_STRING, b, e9 + more);
    ElementHead(BEGIN_STRING, b', f9 + more');
    assert (e8 + e9) + more == e8 + (e9 + more) && (f8 + f9) + more' == f8 + (f9 + more');
  }

  /** A message that encoding gives back had nothing left over, and the right BodyLength. */
  lemma OnlyThen(ctx: Context, b: Bytes, length: Bytes, p: Parsed, es: seq<Raw>, c: Bytes, rest: Bytes)
    requires SOH !in b && SOH !in length && SOH !in ctx.beginStr && SOH !in p.msgType && |c| == 3
    requires EncodeFields(p.header) + (EncodeFields(p.body) + (EncodeFields(p.trailer) + rest)) == Stream(es)
    requires Framed(ctx.beginStr, Payload(p)) == MessageBytes(b, length, p.msgType, es, c)
    ensures b == ctx.beginStr && length == Decimal(|ElementBytes(MSG_TYPE, p.msgType) + Stream(es)|) && rest == []
  {
    PayloadIs(ctx.beginStr, p, []);
    hide EncodeFields, ElementBytes, Three, Chk, Decimal, Payload, Framed, Stream;
    assert Payload(p) + [] == Payload(p);
    var s, c' := FramedIs(ctx.beginStr, p, []);
    var n := |Payload(p)|;
    var tail := EncodeFields(p.header) + (EncodeFields(p.body) + EncodeFields(p.trailer));
    DigitsArePlain(Decimal(n));
    CheckSumSize(c);
    CheckSumSize(c');
    assert SectionBytes(p, [], c') == tail + ElementBytes(CHECK_SUM, c');
    SameMessage(b, length, p.msgType, Stream(es) + ElementBytes(CHECK_SUM, c),
                ctx.beginStr, Decimal(n), SectionBytes(p, [], c'));
    assert |Stream(es)| == |tail|;
    assert |Stream(es)| == |tail| + |rest|;
    assert Payload(p) == ElementBytes(MSG_TYPE, p.msgType) + tail;
  }

  /** For every legible message that the factory accepts: encoding the result gives back its bytes exactly when the
      version is the context's, BodyLength is right, and no element was left over behind the trailer. */
  lemma EncodeUndoesFactory(ctx: Context, b: Bytes, length: Bytes, msgType: Bytes, es: seq<Raw>, c: Bytes)
    requires SOH !in b && SOH !in length && SOH !in ctx.beginStr && PlainText(msgType) && |c| == 3 && AllDigits(c)
    requires msgType in ctx.bodies ==> LegibleMessage(ctx, ctx.bodies[msgType], es, LastRaw(c))
    ensures var s := MessageBytes(b, length, msgType, es, c);
            var m := Factory(ctx, s);
            && !m.Hangs?
            && (m.Made? ==>
                  && msgType in ctx.bodies
                  && (Framed(ctx.beginStr, Payload(m.msg)) == s
                      <==> b == ctx.beginStr && length == Decimal(|ElementBytes(MSG_TYPE, msgType) + Stream(es)|)
                           && LeftOver(ctx, ctx.bodies[msgType], es, c) == []))
  {
    PlainHasNoSOH(msgType);
    hide Factory, Framed, Payload, MessageBytes, LegibleMessage, DecodeSections, ElementBytes, EncodeFields, Stream, Decimal, Chk,
         Three, Atoi, CString, LeftOver, PlainText, AllDigits, DropChksum;
    MadeParts(ctx, b, length, msgType, es, c);
    var s := MessageBytes(b, length, msgType, es, c);
    var m := Factory(ctx, s);
    if m.Made? {
      GivenBackWhen(ctx, b, length, msgType, m.msg, es, c, LeftOver(ctx, ctx.bodies[msgType], es, c), s);
    }
  }

  /** An accepted message has the type and the sections that were decoded, and the checksum of the bytes before it. */
  lemma MadeParts(ctx: Context, b: Bytes, length: Bytes, msgType: Bytes, es: seq<Raw>, c: Bytes)
    requires SOH !in b && SOH !in length && PlainText(msgType) && |c| == 3 && AllDigits(c)
    requires msgType in ctx.bodies ==> LegibleMessage(ctx, ctx.bodies[msgType], es, LastRaw(c))
    ensures var s := MessageBytes(b, length, msgType, es, c);
            var m := Factory(ctx, s);
            && !m.Hangs?
            && (m.Made? ==>
                  && msgType in ctx.bodies && m.msg.msgType == msgType && c == Three(Chk(DropChksum(s)))
                  && EncodeFields(m.msg.header) + (EncodeFields(m.msg.body)
                     + (EncodeFields(m.msg.trailer) + LeftOver(ctx, ctx.bodies[msgType], es, c))) == Stream(es))
  {
    hide Factory, Framed, Payload, MessageBytes, LegibleMessage, DecodeSections, ElementBytes, EncodeFields, Stream, Decimal, Chk,
         Three, Atoi, CString, SplitInto, AllDigits;
    FactoryOnMessage(ctx, b, length, msgType, es, c);
    if msgType in ctx.bodies {
      var k1, k2, k3 := SectionsOnStream(ctx, ctx.bodies[msgType], es, LastRaw(c));
      var s := MessageBytes(b, length, msgType, es, c);
      DigitsArePlain(c);
      if Atoi(CString(c)) % UNSIGNED == Chk(s[..|s| - 7]) { ThreeOfSum(c, Chk(s[..|s| - 7])); }
    }
  }

  lemma GivenBackWhen(ctx: Context, b: Bytes, length: Bytes, msgType: Bytes, p: Parsed, es: seq<Raw>, c: Bytes,
          rest: Bytes, s: Bytes)
    requires SOH !in b && SOH !in length && SOH !in ctx.beginStr && SOH !in msgType && |c| == 3 && p.msgType == msgType
    requires EncodeFields(p.header) + (EncodeFields(p.body) + (EncodeFields(p.trailer) + rest)) == Stream(es)
    requires s == MessageBytes(b, length, msgType, es, c) && c == Three(Chk(DropChksum(s)))
    ensures Framed(ctx.beginStr, Payload(p)) == s
            <==> b == ctx.beginStr && length == Decimal(|ElementBytes(MSG_TYPE, msgType) + Stream(es)|) && rest == []
  {
    hide Framed, Payload, MessageBytes, ElementBytes, EncodeFields, Stream, Decimal, Chk, Three, DropChksum;
    if Framed(ctx.beginStr, Payload(p)) == MessageBytes(b, length, p.msgType, es, c) {
      OnlyThen(ctx, b, length, p, es, c, rest);
    }
    if b == ctx.beginStr && length == Decimal(|ElementBytes(MSG_TYPE, p.msgType) + Stream(es)|) && rest == [] {
      assert EncodeFields(p.trailer) + rest == EncodeFields(p.trailer);
      GivenBack(b, p, es, c);
    }
  }

  lemma ThreeOfSum(c: Bytes, sum: nat)
    requires |c| == 3 && AllDigits(c) && Atoi(c) % UNSIGNED == sum < 256
    ensures c == Three(sum)
  {
    hide Atoi, Three, AllDigits;
    SmallValue(c);
    ThreeOf(c);
  }

  lemma SmallValue(c: Bytes)
    requires |c| == 3 && AllDigits(c)
    ensures 0 <= Atoi(c) < 1000 && Atoi(c) % UNSIGNED == Atoi(c)
  {
    assert IsDigit(c[0]) && IsDigit(c[1]) && IsDigit(c[2]);
    hide Atoi;
    AtoiOfThree(c[0], c[1], c[2]);
    assert c == [c[0], c[1], c[2]];
  }

  // ---------------------------------------------------------------- unknown fields

  /** None of the message's schemas has the tag. */
  ghost predicate Unknown(ctx: Context, body: Schema, tag: nat) {
    !Within(ctx.header, tag) && !Within(body, tag) && !Within(ctx.trailer, tag)
  }

  lemma NotPast(g: Schema, es: seq<Raw>, j: nat, k: nat, i: nat)
    requires j <= i < |es| && j <= k <= |es| && AllWithin(g, es[j..], k - j) && !Within(g, TagValue(es[i].tag))
    ensures k <= i
  {
    hide Within, TagValue;
    assert es[j..][i - j] == es[i];
  }

  /** A legible message with an unknown element anywhere is refused, or that element and everything behind it up to
      CheckSum is left over. */
  lemma UnknownIsLost(ctx: Context, body: Schema, es: seq<Raw>, c: Bytes, i: nat)
    requires LegibleMessage(ctx, body, es, LastRaw(c)) && i < |es| && Unknown(ctx, body, TagValue(es[i].tag))
    ensures DecodeSections(ctx, body, Stream(es + [LastRaw(c)])).Done? ==>
              exists k :: 0 <= k <= i && LeftOver(ctx, body, es, c) == Stream(es[k..]) != []
  {
    hide Within, TagValue, DecodeSections, LegibleMessage, Stream;
    var k1, k2, k3 := SectionsOnStream(ctx, body, es, LastRaw(c));
    if DecodeSections(ctx, body, Stream(es + [LastRaw(c)])).Done? {
      NotPast(ctx.header, es, 0, k1, i);
      NotPast(body, es, k1, k2, i);
      NotPast(ctx.trailer, es, k2, k3, i);
      StreamNotEmpty(es[k3..]);
    }
  }

  /** A well-formed header and body, then bytes that begin with a tag unknown to body and trailer: the message is
      accepted without all that exactly when the trailer has no mandatory field but CheckSum. */
  lemma UnknownBehindBody(ctx: Context, p: Parsed, u: nat, more: Bytes, c: Bytes)
    requires PlainText(ctx.beginStr) && PlainText(p.msgType) && p.msgType in ctx.bodies
    requires WFBody(ctx.types, ctx.header, p.header, HEADER_AUTO, FirstTag(p.body, Some(u)))
    requires WFBody(ctx.types, ctx.bodies[p.msgType], p.body, {}, Some(u))
    requires u !in ctx.trailer.traits && TailIs(more, Some(u)) && |c| == 3
    ensures DecodeSections(ctx, ctx.bodies[p.msgType],
                           EncodeFields(p.header) + (EncodeFields(p.body) + (more + ElementBytes(CHECK_SUM, c))))
         == if exists t <- ctx.trailer.traits :: ctx.trailer.traits[t].mandatory && t != CHECK_SUM
            then Fails(MissingMandatoryField) else Done((p.header, p.body, []), more)
  {
    hide ExtractElement, EncodeFields, DecodeFields, TagValue, ElementBytes, WFBody;
    var last := ElementBytes(CHECK_SUM, c);
    var t := more + last;
    CheckSumSize(c);
    StillExtracted(more, last);
    SectionTail(ctx.types, ctx.bodies[p.msgType], p.body, {}, Some(u), t);
    BodyRoundTrip(ctx.types, ctx.header, p.header, HEADER_AUTO, FirstTag(p.body, Some(u)), EncodeFields(p.body) + t);
    BodyRoundTrip(ctx.types, ctx.bodies[p.msgType], p.body, {}, Some(u), t);
    ForeignFirst(ctx.types, ctx.trailer, more, {CHECK_SUM}, u);
    assert DropChksum(t) == more;
  }

  lemma ForeignFirst(types: FieldTable, schema: Schema, s: Bytes, present: set<nat>, u: nat)
    requires TailIs(s, Some(u)) && u !in schema.traits
    ensures DecodeFields(types, schema, s, present) == Finish(schema, present, s)
  {
    hide ExtractElement, TagValue;
  }
}
