/**
 Whole messages: the preamble that is written backwards from the payload, the checksum, and the factory that takes an
 encoded message apart again.
 */
module Frame {
  import opened Common
  import opened Bytes
  import opened Codec
  import opened RoundTrip
  import opened Checksum
  import Clone
  import Itoa

  const HEADER_CALC_OFFSET := 32
  const CHKSUM_SZ := 7

  const BEGIN_STRING := 8
  const MSG_SEQ_NUM := 34
  const MSG_TYPE := 35
  const CHECK_SUM := 10

  /** The checksum as `calc_chksum` computes it. */
  function Chk(s: Bytes): (c: nat)
    ensures c < 256
  {
    (Sum(s) - Lost(s)) % 256
  }

  /** Three digits, padded with zeros. */
  function Three(v: nat): (s: Bytes)
    requires v < 256
    ensures |s| == 3
  {
    [ZERO + v / 100, ZERO + v / 10 % 10, ZERO + v % 10]
  }

  lemma ThreeIsPadded(v: nat)
    requires v < 256
    ensures Three(v) == (if v > 99 then [] else if v > 9 then [ZERO] else [ZERO, ZERO]) + Decimal(v)
  {
    if v > 99 {
      assert Decimal(v) == Decimal(v / 10) + [ZERO + v % 10];
      assert Decimal(v / 10) == Decimal(v / 10 / 10) + [ZERO + v / 10 % 10];
    } else if v > 9 {
      assert Decimal(v) == Decimal(v / 10) + [ZERO + v % 10];
    }
  }

  lemma AtoiThree(v: nat)
    requires v < 256
    ensures Atoi(Three(v)) == v && AllDigits(Three(v))
  {
    AtoiOfThree(ZERO + v / 100, ZERO + v / 10 % 10, ZERO + v % 10);
    hide Atoi;
    ThreeDigits(v);
  }

  lemma AtoiOfThree(a: byte, b: byte, c: byte)
    requires IsDigit(a) && IsDigit(b) && IsDigit(c)
    ensures Atoi([a, b, c]) == ((a - ZERO) * 10 + (b - ZERO)) * 10 + (c - ZERO)
  {
    hide Atoi;
    AtoiSnoc([], a);
    AtoiSnoc([a], b);
    AtoiSnoc([a, b], c);
    assert [] + [a] == [a] && [a] + [b] == [a, b] && [a, b] + [c] == [a, b, c];
  }

  lemma ThreeDigits(v: nat)
    ensures (v / 100 * 10 + v / 10 % 10) * 10 + v % 10 == v
  {
    assert v / 100 * 10 + v / 10 % 10 == v / 10;
  }

  function Preamble(beginStr: Bytes, bodyLength: nat): Bytes {
    ElementBytes(BEGIN_STRING, beginStr) + ElementBytes(BODY_LENGTH, Decimal(bodyLength))
  }

  /** A complete message around an encoded payload. */
  function Framed(beginStr: Bytes, payload: Bytes): Bytes {
    var front := Preamble(beginStr, |payload|) + payload;
    front + ElementBytes(CHECK_SUM, Three(Chk(front)))
  }

  lemma SmallTags()
    ensures Decimal(8) == [56] && Decimal(9) == [57] && Decimal(10) == [49, 48] && Decimal(35) == [51, 53]
  {
    assert Decimal(1) == [49] && Decimal(3) == [51];
  }

  // ---------------------------------------------------------------- taking a message apart

  /** The generated metadata. */
  datatype Context =
    Context(beginStr: Bytes, types: FieldTable, header: Schema, trailer: Schema, bodies: map<Bytes, Schema>)

  datatype Parsed = Parsed(msgType: Bytes, length: nat, header: seq<Field>, body: seq<Field>, trailer: seq<Field>)

  datatype Made = Made(msg: Parsed) | Refused(error: Error) | Hangs

  const HEADER_AUTO := {BEGIN_STRING, BODY_LENGTH, MSG_TYPE}

  predicate StartsWith(tag: Bytes, prefix: Bytes) { prefix <= tag }

  /** The three elements every message starts with: length text, type text, bytes consumed. */
  function ExtractHeader(s: Bytes): (r: Option<(Bytes, Bytes, nat)>)
    ensures r.Some? ==> r.value.2 <= |s|
  {
    match ExtractElement(s)
    case None => None
    case Some(a) =>
      if !StartsWith(a.tag, [56]) then None
      else match ExtractElement(s[a.size..])
           case None => None
           case Some(b) =>
             if !StartsWith(b.tag, [57]) then None
             else match ExtractElement(s[a.size + b.size..])
                  case None => None
                  case Some(c) => if !StartsWith(c.tag, [51, 53]) then None else Some((b.val, c.val, a.size + b.size + c.size))
  }

  /** The buffer without its last seven bytes. */
  function DropChksum(s: Bytes): Bytes { if |s| < CHKSUM_SZ then [] else s[..|s| - CHKSUM_SZ] }

  /** Header, body and trailer decoded one after the other, each from where the one before stopped. */
  function DecodeSections(ctx: Context, body: Schema, s: Bytes): Outcome<(seq<Field>, seq<Field>, seq<Field>)> {
    var h := DecodeFields(ctx.types, ctx.header, s, HEADER_AUTO);
    if h.Fails? then Fails(h.error) else if h.Diverges? then Diverges
    else
      var b := DecodeFields(ctx.types, body, h.rest, {});
      if b.Fails? then Fails(b.error) else if b.Diverges? then Diverges
      else
        var t := DecodeFields(ctx.types, ctx.trailer, DropChksum(b.rest), {CHECK_SUM});
        if t.Fails? then Fails(t.error) else if t.Diverges? then Diverges
        else Done((h.value, b.value, t.value), t.rest)
  }

  /** `Message::factory` with checksum verification, not permissive. */
  function Factory(ctx: Context, s: Bytes): Made {
    match ExtractHeader(s)
    case None => Refused(InvalidMessage)
    case Some((len, mtype, hlen)) =>
      if CString(mtype) !in ctx.bodies then Refused(InvalidMessage)
      else
        var d := DecodeSections(ctx, ctx.bodies[CString(mtype)], s[hlen..]);
        if d.Fails? then Refused(d.error) else if d.Diverges? then Hangs
        else if |s| < CHKSUM_SZ || s[|s| - 7] != 49 || s[|s| - 6] != 48 then Refused(InvalidMessage)
        else if Atoi(CString(s[|s| - 4..|s| - 1])) % UNSIGNED != Chk(s[..|s| - 7]) then Refused(BadCheckSum)
        else Made(Parsed(CString(mtype), Atoi(CString(len)) % UNSIGNED, d.value.0, d.value.1, d.value.2))
  }

  // ---------------------------------------------------------------- encode, then factory

  /** The bytes between BodyLength and CheckSum of a message that has not been encoded before. */
  function Payload(p: Parsed): Bytes {
    ElementBytes(MSG_TYPE, p.msgType) + (EncodeFields(p.header) + (EncodeFields(p.body) + EncodeFields(p.trailer)))
  }

  /** Legal text: no separator and no NUL. */
  predicate PlainText(v: Bytes) { SOH !in v && 0 !in v }

  /** The tag after the trailer: that of what follows it, or CheckSum. */
  function Behind(next: Option<nat>): nat { if next.Some? then next.value else CHECK_SUM }

  /** Each section is well formed for its schema, and the tag after it is none of its own. Before CheckSum there may be
      more: `next` is the tag it starts with. */
  ghost predicate WFBefore(ctx: Context, p: Parsed, next: Option<nat>) {
    && PlainText(ctx.beginStr) && PlainText(p.msgType) && p.msgType in ctx.bodies
    && WFBody(ctx.types, ctx.header, p.header, HEADER_AUTO, FirstTag(p.body, FirstTag(p.trailer, Some(Behind(next)))))
    && WFBody(ctx.types, ctx.bodies[p.msgType], p.body, {}, FirstTag(p.trailer, Some(Behind(next))))
    && WFBody(ctx.types, ctx.trailer, p.trailer, {CHECK_SUM}, next)
  }

  ghost predicate WFMessage(ctx: Context, p: Parsed) { WFBefore(ctx, p, None) && |Payload(p)| < UNSIGNED }

  lemma ElementHead(tag: nat, value: Bytes, tail: Bytes)
    requires SOH !in value
    ensures var s := ElementBytes(tag, value) + tail;
            && ExtractElement(s) == Some(Element(Decimal(tag), value, |ElementBytes(tag, value)|))
            && s[|ElementBytes(tag, value)|..] == tail
  {
    ExtractRaw(Decimal(tag), value, tail);
  }

  lemma DigitsArePlain(s: Bytes)
    requires AllDigits(s)
    ensures PlainText(s) && CString(s) == s
  {
    assert SOH !in s && 0 !in s;
    NoNul(s);
  }

  /** The three leading elements of any message. */
  lemma HeaderExtracted(beginStr: Bytes, length: Bytes, msgType: Bytes, tail: Bytes)
    requires SOH !in beginStr && SOH !in length && SOH !in msgType
    ensures var front := ElementBytes(BEGIN_STRING, beginStr) + ElementBytes(BODY_LENGTH, length);
            var s := front + (ElementBytes(MSG_TYPE, msgType) + tail);
            var n := |front + ElementBytes(MSG_TYPE, msgType)|;
            ExtractHeader(s) == Some((length, msgType, n)) && s[n..] == tail
  {
    hide ExtractElement, ElementBytes, Decimal;
    SmallTags();
    var e8, e9 := ElementBytes(BEGIN_STRING, beginStr), ElementBytes(BODY_LENGTH, length);
    var e35 := ElementBytes(MSG_TYPE, msgType);
    ElementHead(BEGIN_STRING, beginStr, e9 + (e35 + tail));
    ElementHead(BODY_LENGTH, length, e35 + tail);
    ElementHead(MSG_TYPE, msgType, tail);
    ThreeParts(e8, e9, e35, tail);
  }

  lemma ThreeParts(a: Bytes, b: Bytes, c: Bytes, tail: Bytes)
    ensures var s := (a + b) + (c + tail);
            && s == a + (b + (c + tail)) && s[|a|..] == b + (c + tail) && s[|a| + |b|..] == c + tail
            && s[|(a + b) + c|..] == tail
  {}

  lemma WFHead(types: FieldTable, schema: Schema, fs: seq<Field>, present: set<nat>, follow: Option<nat>)
    requires WFBody(types, schema, fs, present, follow) && fs != []
    ensures fs[0].tag < USHORT && SOH !in fs[0].value
  {}

  /** A section in front of the rest of the message. */
  lemma SectionTail(types: FieldTable, schema: Schema, fs: seq<Field>, present: set<nat>, follow: Option<nat>,
          tail: Bytes)
    requires WFBody(types, schema, fs, present, follow) && TailIs(tail, follow)
    ensures TailIs(EncodeFields(fs) + tail, FirstTag(fs, follow))
  {
    if fs != [] { WFHead(types, schema, fs, present, follow); }
    hide WFBody, TailIs;
    EncodeTail(fs, follow, tail);
  }

  /** The three sections split exactly where the encoder joined them; bytes between the trailer and CheckSum that begin
      with a foreign tag are left over. */
  lemma SectionsSplit(ctx: Context, p: Parsed, next: Option<nat>, more: Bytes, c: Bytes)
    requires WFBefore(ctx, p, next) && TailIs(more, next) && SOH !in c && |c| == 3
    ensures DecodeSections(ctx, ctx.bodies[p.msgType],
                           EncodeFields(p.header)
                           + (EncodeFields(p.body) + (EncodeFields(p.trailer) + (more + ElementBytes(CHECK_SUM, c)))))
         == Done((p.header, p.body, p.trailer), more)
  {
    hide ExtractElement, EncodeFields, DecodeFields, TagValue, ElementBytes, WFBody, TailIs;
    var last := ElementBytes(CHECK_SUM, c);
    var t := EncodeFields(p.trailer) + (more + last);
    var b := EncodeFields(p.body) + t;
    var follow := FirstTag(p.trailer, Some(Behind(next)));
    LastElement(c);
    TrailerTail(ctx, p, next, more, c);
    SectionTail(ctx.types, ctx.bodies[p.msgType], p.body, {}, follow, t);
    BodyRoundTrip(ctx.types, ctx.header, p.header, HEADER_AUTO, FirstTag(p.body, follow), b);
    BodyRoundTrip(ctx.types, ctx.bodies[p.msgType], p.body, {}, follow, t);
    BodyRoundTrip(ctx.types, ctx.trailer, p.trailer, {CHECK_SUM}, next, more);
    assert DropChksum(t) == EncodeFields(p.trailer) + more;
  }

  lemma LastElement(c: Bytes)
    requires SOH !in c && |c| == 3
    ensures TailIs(ElementBytes(CHECK_SUM, c), Some(CHECK_SUM)) && |ElementBytes(CHECK_SUM, c)| == CHKSUM_SZ
    ensures TailIs([], None)
  {
    SmallTags();
    ElementHead(CHECK_SUM, c, []);
    TagOfDecimal(CHECK_SUM);
    hide ExtractElement, TagValue, Decimal;
    assert ElementBytes(CHECK_SUM, c) + [] == ElementBytes(CHECK_SUM, c);
  }

  lemma TrailerTail(ctx: Context, p: Parsed, next: Option<nat>, more: Bytes, c: Bytes)
    requires WFBefore(ctx, p, next) && TailIs(more, next) && SOH !in c && |c| == 3
    ensures TailIs(EncodeFields(p.trailer) + (more + ElementBytes(CHECK_SUM, c)), FirstTag(p.trailer, Some(Behind(next))))
  {
    if p.trailer != [] { WFHead(ctx.types, ctx.trailer, p.trailer, {CHECK_SUM}, next); }
    LastElement(c);
    MoreTail(next, more, ElementBytes(CHECK_SUM, c));
    hide ExtractElement, EncodeFields, TagValue, ElementBytes, TailIs, WFBefore, FirstTag;
    EncodeTail(p.trailer, Some(Behind(next)), more + ElementBytes(CHECK_SUM, c));
  }

  lemma MoreTail(next: Option<nat>, more: Bytes, last: Bytes)
    requires TailIs(more, next) && TailIs(last, Some(CHECK_SUM))
    ensures TailIs(more + last, Some(Behind(next)))
  {
    if next.None? {
      assert more + last == last;
    } else {
      StillExtracted(more, last);
    }
    hide ExtractElement, TagValue;
  }

  /** What follows an element does not matter. */
  lemma StillExtracted(s: Bytes, tail: Bytes)
    requires ExtractElement(s).Some?
    ensures ExtractElement(s + tail) == ExtractElement(s)
  {
    var e := ExtractElement(s).value;
    ElementIs(s);
    ExtractRaw(e.tag, e.val, s[e.size..] + tail);
    hide ExtractElement;
    assert s + tail == RawElement(e.tag, e.val) + (s[e.size..] + tail);
  }

  lemma {:induction false} DigitsAre(s: Bytes)
    ensures AllDigits(s[..DigitsAt(s)])
  {
    if s != [] && IsDigit(s[0]) {
      DigitsAre(s[1..]);
      assert s[..DigitsAt(s)] == [s[0]] + s[1..][..DigitsAt(s[1..])];
    }
  }

  lemma {:induction false} BeforeStops(s: Bytes, term: byte)
    ensures var v := Before(s, term); term !in v && v <= s && (|v| < |s| ==> s[|v|] == term)
  {
    if s != [] && s[0] != term {
      BeforeStops(s[1..], term);
      var v := Before(s[1..], term);
      assert s[1..] == v + s[1..][|v|..];
      assert s == ([s[0]] + v) + s[1..][|v|..];
    }
  }

  /** The bytes of an extracted element. */
  lemma ElementIs(s: Bytes)
    requires ExtractElement(s).Some?
    ensures var e := ExtractElement(s).value;
            && AllDigits(e.tag) && SOH !in e.val && e.size == |e.tag| + |e.val| + 2
            && s == RawElement(e.tag, e.val) + s[e.size..]
  {
    var n := DigitsAt(s);
    DigitsAre(s);
    BeforeStops(s[n + 1..], SOH);
    var v := Before(s[n + 1..], SOH);
    assert s[n + 1..][..|v|] == v;
    hide DigitsAt, Before;
    assert s == s[..n] + [EQUALS] + v + [SOH] + s[n + |v| + 2..];
  }

  lemma FramedParts(front: Bytes, c: Bytes)
    requires |c| == 3
    ensures var s := front + ElementBytes(CHECK_SUM, c);
            && |s| >= CHKSUM_SZ && s[|s| - 7] == 49 && s[|s| - 6] == 48
            && s[|s| - 4..|s| - 1] == c && s[..|s| - 7] == front
  {
    SmallTags();
    hide Decimal;
    assert ElementBytes(CHECK_SUM, c) == [49, 48] + [EQUALS] + c + [SOH];
  }

  lemma FactorySteps(ctx: Context, s: Bytes, len: Bytes, mtype: Bytes, hlen: nat, sections: Bytes, p: Parsed,
          more: Bytes, c: Bytes)
    requires ExtractHeader(s) == Some((len, mtype, hlen)) && CString(mtype) == mtype && mtype in ctx.bodies
    requires s[hlen..] == sections
    requires DecodeSections(ctx, ctx.bodies[mtype], sections) == Done((p.header, p.body, p.trailer), more)
    requires |s| >= CHKSUM_SZ && s[|s| - 7] == 49 && s[|s| - 6] == 48 && s[|s| - 4..|s| - 1] == c
    requires Atoi(CString(c)) % UNSIGNED == Chk(s[..|s| - 7]) && Atoi(CString(len)) % UNSIGNED == p.length
    requires p.msgType == mtype
    ensures Factory(ctx, s) == Made(p)
  {
    hide ExtractHeader, DecodeSections, Chk, Atoi, CString;
  }

  /** The factory accepts every encoded message and gives back its type, its length and its three sections. */
  lemma FactoryUndoesEncode(ctx: Context, p: Parsed)
    requires WFMessage(ctx, p)
    ensures Factory(ctx, Framed(ctx.beginStr, Payload(p))) == Made(p.(length := |Payload(p)|))
  {
    hide Factory, Framed, Payload, WFBefore;
    StrayDropped(ctx, p, None, []);
    assert Payload(p) + [] == Payload(p);
  }

  /** And it accepts one with anything at all between the trailer and CheckSum that begins with a tag foreign to the
      trailer: all of that is dropped without a word. */
  lemma StrayDropped(ctx: Context, p: Parsed, next: Option<nat>, more: Bytes)
    requires WFBefore(ctx, p, next) && TailIs(more, next) && |Payload(p) + more| < UNSIGNED
    ensures Factory(ctx, Framed(ctx.beginStr, Payload(p) + more)) == Made(p.(length := |Payload(p) + more|))
  {
    TypeIsPlain(ctx, p, next);
    hide *;
    var n := |Payload(p) + more|;
    var s, c := FramedIs(ctx.beginStr, p, more);
    var sections := SectionBytes(p, more, c);
    LengthIsPlain(n);
    NoNul(p.msgType);
    PlainHasNoSOH(ctx.beginStr);
    PlainHasNoSOH(p.msgType);
    HeaderExtracted(ctx.beginStr, Decimal(n), p.msgType, sections);
    SectionsSplit(ctx, p, next, more, c);
    SectionBytesAre(p, more, c);
    var front := ElementBytes(BEGIN_STRING, ctx.beginStr) + ElementBytes(BODY_LENGTH, Decimal(n));
    var hlen := |front + ElementBytes(MSG_TYPE, p.msgType)|;
    assert s == front + (ElementBytes(MSG_TYPE, p.msgType) + sections);
    FactorySteps(ctx, s, Decimal(n), p.msgType, hlen, sections, p.(length := n), more, c);
  }

  lemma PlainHasNoSOH(v: Bytes)
    requires PlainText(v)
    ensures SOH !in v && 0 !in v
  {}

  lemma LengthIsPlain(n: nat)
    requires n < UNSIGNED
    ensures SOH !in Decimal(n) && Atoi(CString(Decimal(n))) % UNSIGNED == n
  {
    hide Atoi, CString, Decimal;
    DigitsArePlain(Decimal(n));
    AtoiDecimal(n);
  }

  /** What follows MsgType. */
  function SectionBytes(p: Parsed, more: Bytes, c: Bytes): Bytes {
    EncodeFields(p.header) + (EncodeFields(p.body) + (EncodeFields(p.trailer) + (more + ElementBytes(CHECK_SUM, c))))
  }

  lemma SectionBytesAre(p: Parsed, more: Bytes, c: Bytes)
    ensures SectionBytes(p, more, c) == EncodeFields(p.header)
              + (EncodeFields(p.body) + (EncodeFields(p.trailer) + (more + ElementBytes(CHECK_SUM, c))))
  {}

  /** The bytes of a framed message, element by element. */
  lemma FramedIs(beginStr: Bytes, p: Parsed, more: Bytes) returns (s: Bytes, c: Bytes)
    ensures s == Framed(beginStr, Payload(p) + more)
    ensures var n := |Payload(p) + more|;
            && s == (ElementBytes(BEGIN_STRING, beginStr) + ElementBytes(BODY_LENGTH, Decimal(n)))
                    + (ElementBytes(MSG_TYPE, p.msgType) + SectionBytes(p, more, c))
            && |s| >= CHKSUM_SZ && s[|s| - 7] == 49 && s[|s| - 6] == 48 && s[|s| - 4..|s| - 1] == c
            && Atoi(CString(c)) % UNSIGNED == Chk(s[..|s| - 7]) && SOH !in c && |c| == 3
  {
    PayloadIs(beginStr, p, more);
    hide EncodeFields, ElementBytes, Preamble, Three, Chk, Decimal, Atoi, CString, Payload, Framed;
    var n := |Payload(p) + more|;
    var front := Preamble(beginStr, n) + (Payload(p) + more);
    s, c := Framed(beginStr, Payload(p) + more), Three(Chk(front));
    AtoiThree(Chk(front));
    DigitsArePlain(c);
    FramedParts(front, c);
    PreambleIs(beginStr, n);
    Regroup(Preamble(beginStr, n), ElementBytes(MSG_TYPE, p.msgType), EncodeFields(p.header),
            EncodeFields(p.body), EncodeFields(p.trailer), more, ElementBytes(CHECK_SUM, c));
  }

  lemma PreambleIs(beginStr: Bytes, n: nat)
    ensures Preamble(beginStr, n) == ElementBytes(BEGIN_STRING, beginStr) + ElementBytes(BODY_LENGTH, Decimal(n))
  {}

  lemma PayloadIs(beginStr: Bytes, p: Parsed, more: Bytes)
    ensures var front := Preamble(beginStr, |Payload(p) + more|) + (Payload(p) + more);
            Framed(beginStr, Payload(p) + more) == front + ElementBytes(CHECK_SUM, Three(Chk(front)))
    ensures Payload(p) == ElementBytes(MSG_TYPE, p.msgType)
                          + (EncodeFields(p.header) + (EncodeFields(p.body) + EncodeFields(p.trailer)))
  {}

  lemma TypeIsPlain(ctx: Context, p: Parsed, next: Option<nat>)
    requires WFBefore(ctx, p, next)
    ensures PlainText(ctx.beginStr) && PlainText(p.msgType) && p.msgType in ctx.bodies
  {}

  lemma Regroup(a: Bytes, b: Bytes, h: Bytes, c: Bytes, t: Bytes, more: Bytes, last: Bytes)
    ensures (a + ((b + (h + (c + t))) + more)) + last == a + (b + (h + (c + (t + (more + last)))))
  {}

  /** A payload that begins with another BeginString, as when a message is encoded twice without `setup_reuse`, is
      refused. */
  lemma SecondEncodeRefused(ctx: Context, beginStr: Bytes, more: Bytes)
    requires SOH !in ctx.beginStr && SOH !in beginStr
    ensures Factory(ctx, Framed(ctx.beginStr, ElementBytes(BEGIN_STRING, beginStr) + more)) == Refused(InvalidMessage)
  {
    hide ExtractElement, ElementBytes, Decimal, Three, Chk, Preamble;
    var payload := ElementBytes(BEGIN_STRING, beginStr) + more;
    var front := Preamble(ctx.beginStr, |payload|) + payload;
    var last := ElementBytes(CHECK_SUM, Three(Chk(front)));
    var length, again := Decimal(|payload|), ElementBytes(BEGIN_STRING, beginStr);
    DigitsArePlain(length);
    PreambleIs(ctx.beginStr, |payload|);
    var e8, e9 := ElementBytes(BEGIN_STRING, ctx.beginStr), ElementBytes(BODY_LENGTH, length);
    assert Framed(ctx.beginStr, payload) == (e8 + e9) + (again + (more + last));
    NotATypeThird(ctx.beginStr, length, beginStr, more + last);
  }

  /** No header is extracted where MsgType is missing. */
  lemma NotATypeThird(b: Bytes, length: Bytes, beginStr: Bytes, tail: Bytes)
    requires SOH !in b && SOH !in length && SOH !in beginStr
    ensures ExtractHeader((ElementBytes(BEGIN_STRING, b) + ElementBytes(BODY_LENGTH, length))
                          + (ElementBytes(BEGIN_STRING, beginStr) + tail)).None?
  {
    hide ExtractElement, ElementBytes, Decimal;
    SmallTags();
    var e8, e9, again := ElementBytes(BEGIN_STRING, b), ElementBytes(BODY_LENGTH, length), ElementBytes(BEGIN_STRING, beginStr);
    ElementHead(BEGIN_STRING, b, e9 + (again + tail));
    ElementHead(BODY_LENGTH, length, again + tail);
    ElementHead(BEGIN_STRING, beginStr, tail);
    ThreeParts(e8, e9, again, tail);
    assert !StartsWith([56], [51, 53]);
  }

  // ---------------------------------------------------------------- writing into the output buffer

  /** Text copied into the buffer, and the NUL that `itoa` leaves behind it. */
  method PutInt(a: array<byte>, at: nat, n: nat) returns (next: nat)
    requires n < 0x8000_0000 && at + |Decimal(n)| < a.Length
    modifies a
    ensures next == at + |Decimal(n)| && a[at..next] == Decimal(n) && a[next] == 0
    ensures a[..at] == old(a[..at]) && a[next + 1..] == old(a[next + 1..])
  {
    Itoa.NumeralIsDecimal(n);
    hide Decimal, Itoa.Numeral;
    var text := new byte[|Decimal(n)| + 1];
    var size := Itoa.Itoa(n, text, 10);
    ghost var digits := Decimal(n);
    assert text[..size + 1] == digits + [text[size]];
    var end := PutBytes(a, at, text[..size + 1]);
    next := end - 1;
    assert a[at..end] == a[at..next] + [a[next]];
    assert a[at..next] == digits;
  }

  method PutBytes(a: array<byte>, at: nat, s: Bytes) returns (next: nat)
    requires at + |s| <= a.Length
    modifies a
    ensures next == at + |s| && a[at..next] == s
    ensures a[..at] == old(a[..at]) && a[next..] == old(a[next..])
  {
    for i := 0 to |s|
      invariant a[at..at + i] == s[..i]
      invariant a[..at] == old(a[..at]) && a[at + i..] == old(a[at + i..])
    {
      a[at + i] := s[i];
      assert a[at..at + i + 1] == a[at..at + i] + [a[at + i]];
      assert s[..i + 1] == s[..i] + [s[i]];
    }
    next := at + |s|;
    assert s[..|s|] == s;
  }

  /** A number through `itoa`, and a byte over the NUL that it leaves. */
  method PutIntThen(a: array<byte>, at: nat, n: nat, b: byte) returns (next: nat)
    requires n < 0x8000_0000 && at + |Decimal(n)| < a.Length
    modifies a
    ensures next == at + |Decimal(n)| + 1 && a[at..next] == Decimal(n) + [b]
    ensures a[..at] == old(a[..at]) && a[next..] == old(a[next..])
  {
    hide Decimal;
    var p := PutInt(a, at, n);
    a[p] := b;
    next := p + 1;
    assert a[at..next] == a[at..p] + [b];
  }

  method PutBytesThen(a: array<byte>, at: nat, s: Bytes, b: byte) returns (next: nat)
    requires at + |s| < a.Length
    modifies a
    ensures next == at + |s| + 1 && a[at..next] == s + [b]
    ensures a[..at] == old(a[..at]) && a[next..] == old(a[next..])
  {
    next := PutBytes(a, at, s + [b]);
  }

  /** Two pieces written one after the other. */
  lemma TwoPieces(was: Bytes, first: Bytes, second: Bytes, at: nat, mid: nat, end: nat)
    requires |was| == |first| == |second| && at <= mid <= end <= |was|
    requires first[..at] == was[..at] && first[mid..] == was[mid..]
    requires second[..mid] == first[..mid] && second[end..] == first[end..]
    ensures second[at..end] == first[at..mid] + second[mid..end] && second[..at] == was[..at]
    ensures second[end..] == was[end..]
  {
    assert second[..mid][at..] == second[at..mid] && first[..mid][at..] == first[at..mid];
    assert second[..mid][..at] == second[..at] && first[..mid][..at] == first[..at];
    assert first[mid..][end - mid..] == first[end..] && was[mid..][end - mid..] == was[end..];
  }

  /** `BaseField::encode` of a string field: the tag through `itoa`, whose NUL the equals sign overwrites. */
  method PutText(a: array<byte>, at: nat, tag: nat, value: Bytes) returns (next: nat)
    requires tag < USHORT && at + |ElementBytes(tag, value)| <= a.Length
    modifies a
    ensures next == at + |ElementBytes(tag, value)| && a[at..next] == ElementBytes(tag, value)
    ensures a[..at] == old(a[..at]) && a[next..] == old(a[next..])
  {
    ElementPieces(tag, value);
    hide Decimal, ElementBytes;
    ghost var was := a[..];
    var p := PutIntThen(a, at, tag, EQUALS);
    ghost var first := a[..];
    next := PutBytesThen(a, p, value, SOH);
    TwoPieces(was, first, a[..], at, p, next);
  }

  lemma ElementPieces(tag: nat, value: Bytes)
    ensures ElementBytes(tag, value) == (Decimal(tag) + [EQUALS]) + (value + [SOH])
  {}

  /** The same of an int field: the value also goes through `itoa`, and the separator overwrites its NUL. */
  method PutNumber(a: array<byte>, at: nat, tag: nat, value: nat) returns (next: nat)
    requires tag < USHORT && value < 0x8000_0000 && at + |ElementBytes(tag, Decimal(value))| <= a.Length
    modifies a
    ensures next == at + |ElementBytes(tag, Decimal(value))| && a[at..next] == ElementBytes(tag, Decimal(value))
    ensures a[..at] == old(a[..at]) && a[next..] == old(a[next..])
  {
    ElementPieces(tag, Decimal(value));
    hide Decimal, ElementBytes;
    ghost var was := a[..];
    var p := PutIntThen(a, at, tag, EQUALS);
    ghost var first := a[..];
    next := PutIntThen(a, p, value, SOH);
    TwoPieces(was, first, a[..], at, p, next);
  }

  /** `fmt_chksum`: the number printed over the tail of "000". */
  method FmtChksum(val: nat) returns (s: Bytes)
    requires val < 256
    ensures s == Three(val)
  {
    ThreeIsPadded(val);
    Itoa.NumeralIsDecimal(val);
    hide Decimal, Itoa.Numeral, Three;
    var text := new byte[4];
    var size := Itoa.Itoa(val, text, 10);
    return (if val > 99 then [] else if val > 9 then [ZERO] else [ZERO, ZERO]) + text[..size];
  }

  /** Digits the encoder reserves for BodyLength. */
  function LengthDigits(n: nat): nat {
    if n < 10 then 1 else if n < 100 then 2 else if n < 1000 then 3 else if n < 10000 then 4
    else if n < 100000 then 5 else if n < 1000000 then 6 else 7
  }

  lemma LengthDigitsRight(n: nat)
    requires n < 10000000
    ensures |Decimal(n)| == LengthDigits(n)
  {
    SixDivisions(n);
  }

  lemma {:induction false} SixDivisions(n: nat)
    requires n < 10000000
    ensures |Decimal(n)| == LengthDigits(n)
  {
    if n >= 10 { SixDivisions(n / 10); }
  }

  /** The size of everything before the payload, as the encoder reckons it. */
  function PreambleSize(beginStr: Bytes, n: nat): nat { |beginStr| + 6 + LengthDigits(n) }

  lemma PreambleFits(beginStr: Bytes, n: nat)
    requires n < 10000000
    ensures |Preamble(beginStr, n)| == PreambleSize(beginStr, n)
    ensures Preamble(beginStr, n) == ElementBytes(BEGIN_STRING, beginStr) + ElementBytes(BODY_LENGTH, Decimal(n))
  {
    SmallTags();
    LengthDigitsRight(n);
    hide Decimal;
  }

  /** The part of a message object that encoding touches. The payload texts are what `MessageBase::encode` gives for the
      fields of each section that are never suppressed. */
  class Encoder {
    const beginStr: Bytes
    var header: seq<Field>
    const msgType: Bytes
    const body: seq<Field>
    const trailer: seq<Field>
    /** Whether BeginString, BodyLength and CheckSum are still suppressed. */
    var suppressed: bool
    var bodyLength: nat
    var checkSum: Bytes

    constructor (beginStr: Bytes, msgType: Bytes, header: seq<Field>, body: seq<Field>, trailer: seq<Field>)
      ensures suppressed && this.beginStr == beginStr && this.msgType == msgType && this.header == header
              && this.body == body && this.trailer == trailer
    {
      this.beginStr, this.msgType, this.header, this.body, this.trailer := beginStr, msgType, header, body, trailer;
      suppressed, bodyLength, checkSum := true, 0, [];
    }

    /** The sections as they encode now: fields once written are no longer suppressed. */
    ghost function Sections(): Bytes
      reads this
    {
      (if suppressed then [] else Preamble(beginStr, bodyLength))
      + Payload(Parsed(msgType, 0, header, body, trailer))
      + (if suppressed then [] else ElementBytes(CHECK_SUM, checkSum))
    }

    /** `setup_reuse`: suppress again, and let the next send number the message afresh. */
    method SetupReuse()
      modifies this
      ensures suppressed && header == Without(old(header), MSG_SEQ_NUM)
      ensures !Clone.Has(header, MSG_SEQ_NUM)
      ensures forall f :: f in header <==> f in old(header) && f.tag != MSG_SEQ_NUM
    {
      WithoutExact(header, MSG_SEQ_NUM);
      suppressed := true;
      header := Without(header, MSG_SEQ_NUM);
    }

    /** What the next send does to the header. */
    method Renumber(schema: Schema, n: nat)
      modifies this`header
      ensures header == WithNumber(schema, old(header), n)
      ensures Clone.Has(old(header), MSG_SEQ_NUM) ==> header == old(header)
    {
      header := WithNumber(schema, header, n);
    }

    /** `Message::encode`. The preamble is laid down backwards from the payload: it ends exactly where the payload
        starts, no payload byte changes, and everything written is the framed message and a NUL. */
    method Encode(output: array<byte>) returns (start: nat, len: nat)
      requires |Sections()| < 10000000 && PreambleSize(beginStr, |Sections()|) <= HEADER_CALC_OFFSET
      requires HEADER_CALC_OFFSET + |Sections()| + CHKSUM_SZ < output.Length
      modifies this, output
      ensures start + |Preamble(beginStr, |old(Sections())|)| == HEADER_CALC_OFFSET
      ensures start + len < output.Length && output[start + len] == 0
      ensures output[start..start + len] == Framed(beginStr, old(Sections()))
      ensures output[..start] == old(output[..start]) && output[start + len + 1..] == old(output[start + len + 1..])
      ensures !suppressed && bodyLength == |old(Sections())| && header == old(header)
    {
      hide Decimal, Preamble, ElementBytes, Three, Chk, EncodeFields, Payload, PreambleSize;
      ghost var payload := Sections();
      var msg := WriteSections(output, HEADER_CALC_OFFSET);
      bodyLength := msg - HEADER_CALC_OFFSET;
      PreambleFits(beginStr, bodyLength);
      start := WritePreamble(output);
      FrontWritten(output[..], start, HEADER_CALC_OFFSET, msg, Preamble(beginStr, bodyLength), payload);
      ghost var front := Preamble(beginStr, bodyLength) + payload;
      assert output[start..msg] == front;
      suppressed := false;
      len := WriteChecksum(output, start, msg);
    }

    /** BeginString and BodyLength, written so that they end where the payload starts. */
    method WritePreamble(output: array<byte>) returns (start: nat)
      requires bodyLength < 10000000 && PreambleSize(beginStr, bodyLength) <= HEADER_CALC_OFFSET <= output.Length
      modifies output
      ensures start + |Preamble(beginStr, bodyLength)| == HEADER_CALC_OFFSET
      ensures output[start..HEADER_CALC_OFFSET] == Preamble(beginStr, bodyLength)
      ensures output[..start] == old(output[..start])
      ensures output[HEADER_CALC_OFFSET..] == old(output[HEADER_CALC_OFFSET..])
    {
      PreambleFits(beginStr, bodyLength);
      hide Decimal, Preamble, ElementBytes;
      start := HEADER_CALC_OFFSET - (|beginStr| + 6 + LengthDigits(bodyLength));
      ghost var e8, e9 := ElementBytes(BEGIN_STRING, beginStr), ElementBytes(BODY_LENGTH, Decimal(bodyLength));
      var hmsg := PutText(output, start, BEGIN_STRING, beginStr);
      var end := PutNumber(output, hmsg, BODY_LENGTH, bodyLength);
      assert end == HEADER_CALC_OFFSET && output[start..hmsg] == e8;
      FrontWritten(output[..], start, hmsg, end, e8, e9);
    }

    /** The checksum of everything before it, and the closing NUL. */
    method WriteChecksum(output: array<byte>, start: nat, end: nat) returns (len: nat)
      requires start <= end && end + CHKSUM_SZ < output.Length
      modifies this`checkSum, output
      ensures len == end + CHKSUM_SZ - start && output[start + len] == 0
      ensures var front := old(output[start..end]);
              output[start..start + len] == front + ElementBytes(CHECK_SUM, Three(Chk(front)))
      ensures output[..start] == old(output[..start]) && output[start + len + 1..] == old(output[start + len + 1..])
    {
      hide Decimal, ElementBytes, Three;
      ghost var front := output[start..end];
      assert output[..][start..end] == front;
      var sum := CalcChksum(output[..], start, end - start);
      checkSum := FmtChksum(sum);
      CheckSumSize(checkSum);
      var msg := PutText(output, end, CHECK_SUM, checkSum);
      assert output[..end][start..] == front;
      output[msg] := 0;
      len := msg - start;
      assert output[start..end] == front;
      FrontWritten(output[..], start, end, msg, front, ElementBytes(CHECK_SUM, checkSum));
    }

    method WriteSections(output: array<byte>, at: nat) returns (next: nat)
      requires at + |Sections()| <= output.Length
      modifies output
      ensures next == at + |Sections()| && output[at..next] == Sections()
      ensures output[..at] == old(output[..at]) && output[next..] == old(output[next..])
    {
      hide Decimal, EncodeFields, ElementBytes, Preamble;
      next := at;
      var text: Bytes := [];
      if !suppressed {
        text := Preamble(beginStr, bodyLength);
      }
      text := text + Payload(Parsed(msgType, 0, header, body, trailer));
      if !suppressed {
        text := text + ElementBytes(CHECK_SUM, checkSum);
      }
      assert text == Sections();
      next := PutBytes(output, at, text);
    }
  }

  /** What the encoder writes is accepted exactly when the message is fresh or was set up for reuse. */
  lemma AcceptedIffSuppressed(ctx: Context, e: Encoder)
    requires ctx.beginStr == e.beginStr && WFMessage(ctx, Parsed(e.msgType, 0, e.header, e.body, e.trailer))
    ensures Factory(ctx, Framed(e.beginStr, e.Sections())).Made? <==> e.suppressed
  {
    hide Factory, Framed, Payload, WFBody, ElementBytes;
    var p := Parsed(e.msgType, 0, e.header, e.body, e.trailer);
    var end := ElementBytes(CHECK_SUM, e.checkSum);
    var e9 := ElementBytes(BODY_LENGTH, Decimal(e.bodyLength));
    if e.suppressed {
      assert [] + Payload(p) + [] == Payload(p);
      FactoryUndoesEncode(ctx, p);
    } else {
      assert e.Sections() == ElementBytes(BEGIN_STRING, e.beginStr) + (e9 + Payload(p) + end);
      SecondEncodeRefused(ctx, e.beginStr, e9 + Payload(p) + end);
    }
  }

  lemma CheckSumSize(c: Bytes)
    requires |c| == 3
    ensures |ElementBytes(CHECK_SUM, c)| == CHKSUM_SZ
  {
    SmallTags();
    hide Decimal;
  }

  lemma FrontWritten(out: Bytes, start: nat, middle: nat, end: nat, preamble: Bytes, payload: Bytes)
    requires start <= middle <= end <= |out| && out[start..middle] == preamble && out[middle..end] == payload
    ensures out[start..end] == preamble + payload
  {}

  function Without(fs: seq<Field>, tag: nat): seq<Field> {
    if fs == [] then [] else (if fs[0].tag == tag then [] else [fs[0]]) + Without(fs[1..], tag)
  }

  lemma {:induction false} WithoutExact(fs: seq<Field>, tag: nat)
    ensures !Clone.Has(Without(fs, tag), tag)
    ensures forall f :: f in Without(fs, tag) <==> f in fs && f.tag != tag
  {
    if fs != [] {
      WithoutExact(fs[1..], tag);
      assert fs == [fs[0]] + fs[1..];
    }
  }

  // ---------------------------------------------------------------- sending a message object again

  /** The MsgSeqNum field a send adds. */
  function Number(n: nat): Field { Field(MSG_SEQ_NUM, Decimal(n), false, []) }

  /** The header as it is sent: a message without MsgSeqNum gets one, at its schema position; another keeps its own. */
  function WithNumber(schema: Schema, header: seq<Field>, n: nat): seq<Field> {
    if Clone.Has(header, MSG_SEQ_NUM) then header
    else Clone.InsertField(schema, header, Number(n))
  }

  /** The header's MsgSeqNum is a plain int field. */
  predicate NumbersPlainly(ctx: Context) {
    && MSG_SEQ_NUM in ctx.header.traits && MSG_SEQ_NUM in ctx.types && ctx.types[MSG_SEQ_NUM] == IntType
    && ctx.header.traits[MSG_SEQ_NUM].ftype == IntType && ctx.header.traits[MSG_SEQ_NUM].group.None?
  }

  /** In a header in schema order, removing the number and adding another puts it where the old one was. */
  lemma {:induction false} NumberInPlace(schema: Schema, fs: seq<Field>, i: nat, n: nat)
    requires Clone.InPlace(schema, fs) && i < |fs| && fs[i].tag == MSG_SEQ_NUM
    ensures Clone.InsertField(schema, Without(fs, MSG_SEQ_NUM), Number(n)) == fs[i := Number(n)]
  {
    hide Clone.InPlace, Position, Clone.InsertField, Without, Number;
    NumberShape(n);
    Clone.InPlaceTail(schema, fs);
    Clone.InPlaceRest(schema, fs);
    WithoutStep(fs, MSG_SEQ_NUM);
    var rest := fs[1..];
    if i == 0 {
      forall f | f in rest ensures f.tag != MSG_SEQ_NUM {}
      WithoutNothing(rest, MSG_SEQ_NUM);
      Clone.InsertFront(schema, rest, Number(n));
      assert fs[0 := Number(n)] == [Number(n)] + rest;
    } else {
      assert rest[i - 1] == fs[i] && fs[i] in rest;
      NumberInPlace(schema, rest, i - 1, n);
      Clone.InsertBehind(schema, fs[0], Without(rest, MSG_SEQ_NUM), Number(n));
      assert fs[i := Number(n)] == [fs[0]] + rest[i - 1 := Number(n)];
    }
  }

  lemma WithoutStep(fs: seq<Field>, tag: nat)
    requires fs != []
    ensures Without(fs, tag) == if fs[0].tag == tag then Without(fs[1..], tag) else [fs[0]] + Without(fs[1..], tag)
  {}

  lemma {:induction false} WithoutNothing(fs: seq<Field>, tag: nat)
    requires forall f <- fs :: f.tag != tag
    ensures Without(fs, tag) == fs
  {
    if fs != [] {
      assert fs[0] in fs && forall f <- fs[1..] :: f in fs;
      WithoutNothing(fs[1..], tag);
    }
  }

  /** A plain int field may be replaced by another with its tag. */
  lemma WFReplaced(types: FieldTable, schema: Schema, fs: seq<Field>, present: set<nat>, follow: Option<nat>, i: nat,
      f: Field)
    requires WFBody(types, schema, fs, present, follow) && i < |fs| && f.tag == fs[i].tag
    requires f.tag in schema.traits && schema.traits[f.tag].ftype == IntType && schema.traits[f.tag].group.None?
    requires f.tag in types && SOH !in f.value && Normalise(types[f.tag], f.value) == f.value && !f.hasGroup
    requires f.insts == []
    ensures WFBody(types, schema, fs[i := f], present, follow)
  {
    hide WFPrefix;
    PrefixReplaced(types, schema, fs, present, follow, i, f);
    forall t | t in Tags(fs) ensures t in Tags(fs[i := f]) {
      var j :| 0 <= j < |fs| && fs[j].tag == t;
      assert fs[i := f][j] in fs[i := f];
    }
  }

  lemma {:induction false} PrefixReplaced(types: FieldTable, schema: Schema, fs: seq<Field>, present: set<nat>,
          follow: Option<nat>, i: nat, f: Field)
    requires WFPrefix(types, schema, fs, present, follow) && i < |fs| && f.tag == fs[i].tag
    requires f.tag in schema.traits && schema.traits[f.tag].ftype == IntType && schema.traits[f.tag].group.None?
    requires f.tag in types && SOH !in f.value && Normalise(types[f.tag], f.value) == f.value && !f.hasGroup
    requires f.insts == []
    ensures WFPrefix(types, schema, fs[i := f], present, follow)
    decreases |fs|
  {
    hide WFGroup, Normalise, HasCount;
    var r := fs[i := f];
    assert forall j :: 0 <= j < |fs| ==> r[j].tag == fs[j].tag;
    if i == 0 {
      assert r[1..] == fs[1..];
    } else if IsLength(schema, fs[0].tag) {
      assert r[0] == fs[0] && fs[1].tag in schema.traits;
      assert i != 1;
      assert r[1] == fs[1] && r[2..] == fs[2..][i - 2 := f];
      PrefixReplaced(types, schema, fs[2..], present + {fs[0].tag} + {fs[1].tag}, follow, i - 2, f);
    } else {
      assert r[1..] == fs[1..][i - 1 := f];
      PrefixReplaced(types, schema, fs[1..], present + {fs[0].tag}, follow, i - 1, f);
    }
  }

  lemma NumberIsLegal(n: nat)
    requires n < 0x8000_0000
    ensures SOH !in Number(n).value && Normalise(IntType, Number(n).value) == Number(n).value
  {
    DigitsArePlain(Decimal(n));
    NoNul(Decimal(n));
    AtoiDecimal(n);
  }

  /** The message after `setup_reuse` and the next send's numbering. */
  function Renumbered(ctx: Context, p: Parsed, n: nat): Parsed {
    p.(header := WithNumber(ctx.header, Without(p.header, MSG_SEQ_NUM), n))
  }

  /** A well-formed message that was sent once is well formed under its next number, in the same place, and nothing
      else differs. */
  lemma RenumberedIsWhole(ctx: Context, p: Parsed, n: nat)
    requires WFMessage(ctx, p) && Clone.InPlace(ctx.header, p.header) && Clone.Has(p.header, MSG_SEQ_NUM)
    requires NumbersPlainly(ctx) && n < 0x8000_0000
    requires |Payload(Renumbered(ctx, p, n))| < UNSIGNED
    ensures WFMessage(ctx, Renumbered(ctx, p, n))
    ensures Renumbered(ctx, p, n).header == p.header[Clone.IndexOf(p.header, MSG_SEQ_NUM) := Number(n)]
  {
    hide WFBody, Payload, Normalise, Clone.InPlace, Clone.IndexOf, Decimal, Number;
    var i := Clone.IndexOf(p.header, MSG_SEQ_NUM);
    WithoutExact(p.header, MSG_SEQ_NUM);
    NumberIsLegal(n);
    NumberShape(n);
    NumberInPlace(ctx.header, p.header, i, n);
    var follow := FirstTag(p.body, FirstTag(p.trailer, Some(CHECK_SUM)));
    WFReplaced(ctx.types, ctx.header, p.header, HEADER_AUTO, follow, i, Number(n));
  }

  lemma NumberShape(n: nat)
    ensures var f := Number(n); f.tag == MSG_SEQ_NUM && !f.hasGroup && f.insts == []
  {}

  /** Encoded, set up for reuse, numbered afresh and encoded again, a message is accepted: with the same body and
      trailer, and with the new number in the header where the old one was. */
  lemma ReusedIsAccepted(ctx: Context, p: Parsed, n: nat)
    requires WFMessage(ctx, p) && Clone.InPlace(ctx.header, p.header) && Clone.Has(p.header, MSG_SEQ_NUM)
    requires NumbersPlainly(ctx) && n < 0x8000_0000
    requires |Payload(Renumbered(ctx, p, n))| < UNSIGNED
    ensures var q := Renumbered(ctx, p, n);
            && q.body == p.body && q.trailer == p.trailer
            && q.header == p.header[Clone.IndexOf(p.header, MSG_SEQ_NUM) := Number(n)]
            && Factory(ctx, Framed(ctx.beginStr, Payload(q))) == Made(q.(length := |Payload(q)|))
  {
    hide WFMessage, Payload, Factory, Framed, Clone.InPlace, WithNumber, Without;
    RenumberedIsWhole(ctx, p, n);
    FactoryUndoesEncode(ctx, Renumbered(ctx, p, n));
  }

  /** The same message object sent again. */
  method EncodeAgain(ctx: Context, e: Encoder, n: nat, output: array<byte>) returns (start: nat, len: nat)
    requires ctx.beginStr == e.beginStr && NumbersPlainly(ctx) && n < 0x8000_0000
    requires var p := Parsed(e.msgType, 0, e.header, e.body, e.trailer);
             && WFMessage(ctx, p) && Clone.InPlace(ctx.header, p.header) && Clone.Has(p.header, MSG_SEQ_NUM)
             && |Payload(Renumbered(ctx, p, n))| < 10000000
             && PreambleSize(e.beginStr, |Payload(Renumbered(ctx, p, n))|) <= HEADER_CALC_OFFSET
             && HEADER_CALC_OFFSET + |Payload(Renumbered(ctx, p, n))| + CHKSUM_SZ < output.Length
    modifies e, output
    ensures start + len < output.Length
    ensures var q := old(Renumbered(ctx, Parsed(e.msgType, 0, e.header, e.body, e.trailer), n));
            && e.header == q.header
            && Factory(ctx, output[start..start + len]) == Made(q.(length := |Payload(q)|))
  {
    hide WFMessage, Payload, Factory, Framed, Clone.InPlace, WithNumber, Without, PreambleSize;
    ghost var p := Parsed(e.msgType, 0, e.header, e.body, e.trailer);
    ReusedIsAccepted(ctx, p, n);
    e.SetupReuse();
    e.Renumber(ctx.header, n);
    ghost var q := Renumbered(ctx, p, n);
    assert e.Sections() == Payload(q) by { PlainSections(q); }
    start, len := e.Encode(output);
  }

  lemma PlainSections(q: Parsed)
    ensures [] + Payload(q) + [] == Payload(q) && Payload(q) == Payload(q.(length := 0))
  {}
}
