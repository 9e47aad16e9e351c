/**
 Reading whole messages off a byte stream that arrives in arbitrary pieces.
 */
module Framing {
  import opened Common
  import opened Bytes
  import opened Codec
  import opened RoundTrip
  import opened Checksum
  import opened Frame

  const MAX_MSG_LEN := 8192

  datatype ReadError = IllegalMessage | InvalidVersion | InvalidBodyLength(length: nat) | ConnectionGone

  /** What one `read` makes of the bytes the peer is still going to send. */
  datatype Reading = Read(msg: Bytes, rest: Bytes) | Failed(error: ReadError)

  /** Size of the fixed part: BeginString, its separator, and the first digit of BodyLength. */
  function Preface(beginStr: Bytes): nat { 2 + |beginStr| + 1 + 3 }

  /** The bytes of the body length from `n` on: where they end, or what goes wrong. */
  datatype Head = Head(size: nat) | NoHead(error: ReadError)

  function ScanHead(s: Bytes, n: nat): (h: Head)
    ensures h.Head? ==> n < h.size <= |s|
    decreases |s| - n
  {
    if n >= |s| then NoHead(ConnectionGone)
    else if !IsDigit(s[n]) && s[n] != SOH then NoHead(IllegalMessage)
    else if s[n] == SOH || n + 1 >= MAX_MSG_LEN then Head(n + 1)
    else ScanHead(s, n + 1)
  }

  datatype BodyLength = Length(n: nat) | NoLength(error: ReadError)

  /** The body length announced by the head `to`. */
  function ParseHead(beginStr: Bytes, to: Bytes): BodyLength {
    match ExtractElement(to)
    case None => NoLength(IllegalMessage)
    case Some(a) =>
      if !StartsWith(a.tag, [56]) then NoLength(IllegalMessage)
      else if CString(a.val) != beginStr then NoLength(InvalidVersion)
      else match ExtractElement(to[a.size..])
           case None => NoLength(IllegalMessage)
           case Some(b) =>
             if !StartsWith(b.tag, [57]) then NoLength(IllegalMessage)
             else
               var mlen := Atoi(CString(b.val)) % UNSIGNED;
               if mlen == 0 || mlen > MAX_MSG_LEN - Preface(beginStr) - CHKSUM_SZ then NoLength(InvalidBodyLength(mlen))
               else Length(mlen)
  }

  function ReadOne(beginStr: Bytes, s: Bytes): (r: Reading)
    ensures r.Read? ==> |r.rest| < |s|
  {
    if |s| < Preface(beginStr) then Failed(ConnectionGone)
    else match ScanHead(s, Preface(beginStr))
         case NoHead(e) => Failed(e)
         case Head(n) =>
           match ParseHead(beginStr, s[..n])
           case NoLength(e) => Failed(e)
           case Length(mlen) =>
             var end := n + mlen + CHKSUM_SZ;
             if |s| < end then Failed(ConnectionGone) else Read(s[..end], s[end..])
  }

  /** Reads until one fails. */
  function ReadAll(beginStr: Bytes, s: Bytes): (r: (seq<Bytes>, ReadError))
    decreases |s|
  {
    match ReadOne(beginStr, s)
    case Failed(e) => ([], e)
    case Read(msg, rest) => var (more, e) := ReadAll(beginStr, rest); ([msg] + more, e)
  }

  /** What the framing needs of a message: a preamble announcing the payload, the payload, and seven more bytes. */
  predicate WellFramed(beginStr: Bytes, m: Bytes, payload: Bytes) {
    && 0 < |payload| <= MAX_MSG_LEN - Preface(beginStr) - CHKSUM_SZ
    && |m| == |Preamble(beginStr, |payload|)| + |payload| + CHKSUM_SZ
    && Preamble(beginStr, |payload|) + payload <= m
  }

  /** Every message the encoder writes, if its payload is within the reader's limit. */
  lemma EncodedIsWellFramed(beginStr: Bytes, payload: Bytes)
    requires 0 < |payload| <= MAX_MSG_LEN - Preface(beginStr) - CHKSUM_SZ
    ensures WellFramed(beginStr, Framed(beginStr, payload), payload)
  {
    hide Preamble, Chk, Three;
    CheckSumSize(Three(Chk(Preamble(beginStr, |payload|) + payload)));
  }

  lemma {:induction false} ScanDigits(s: Bytes, n: nat, end: nat)
    requires n <= end < |s| && end < MAX_MSG_LEN && s[end] == SOH && forall i :: n <= i < end ==> IsDigit(s[i])
    ensures ScanHead(s, n) == Head(end + 1)
    decreases end - n
  {
    if n < end { ScanDigits(s, n + 1, end); }
  }

  lemma PreambleShape(beginStr: Bytes, n: nat)
    ensures Preamble(beginStr, n) == ([56, EQUALS] + beginStr + [SOH]) + ([57, EQUALS] + Decimal(n) + [SOH])
  {
    SmallTags();
    hide Decimal;
  }

  /** The two elements of a preamble: the first of `k` bytes, the second the rest. */
  lemma HeadElements(beginStr: Bytes, n: nat) returns (k: nat, rest: Bytes)
    requires SOH !in beginStr
    ensures var to := Preamble(beginStr, n);
            && ExtractElement(to) == Some(Element([56], beginStr, k)) && k <= |to| && to[k..] == rest
            && ExtractElement(rest) == Some(Element([57], Decimal(n), |rest|))
  {
    SmallTags();
    DigitsArePlain(Decimal(n));
    PreambleIs(beginStr, n);
    hide ExtractElement, ElementBytes, Decimal, Preamble;
    var e8, e9 := ElementBytes(BEGIN_STRING, beginStr), ElementBytes(BODY_LENGTH, Decimal(n));
    ElementHead(BEGIN_STRING, beginStr, e9);
    ElementHead(BODY_LENGTH, Decimal(n), []);
    assert e9 + [] == e9;
    k, rest := |e8|, e9;
  }

  lemma HeadParsed(beginStr: Bytes, n: nat)
    requires PlainText(beginStr) && 0 < n <= MAX_MSG_LEN - Preface(beginStr) - CHKSUM_SZ
    ensures ParseHead(beginStr, Preamble(beginStr, n)) == Length(n)
  {
    NoNul(beginStr);
    LengthIsPlain(n);
    var k, rest := HeadElements(beginStr, n);
    hide ExtractElement, Decimal, Atoi, CString, Preamble;
  }

  /** One well-framed message at the front of the stream is read, whole and alone. */
  lemma ReadFramed(beginStr: Bytes, m: Bytes, payload: Bytes, tail: Bytes)
    requires PlainText(beginStr) && WellFramed(beginStr, m, payload)
    ensures ReadOne(beginStr, m + tail) == Read(m, tail)
  {
    hide Preamble, ParseHead, Decimal;
    var n, s := |payload|, m + tail;
    var p := Preamble(beginStr, n);
    PreambleShape(beginStr, n);
    HeadParsed(beginStr, n);
    var d := Decimal(n);
    assert s[..|p|] == p;
    forall i | Preface(beginStr) <= i < |p| - 1 ensures IsDigit(s[i]) {
      assert s[i] == p[i] == d[i - (|beginStr| + 5)];
    }
    assert s[|p| - 1] == p[|p| - 1] == SOH;
    assert |d| >= 1;
    DecimalShort(n);
    ScanDigits(s, Preface(beginStr), |p| - 1);
    assert s[..|m|] == m && s[|m|..] == tail;
  }

  lemma DecimalShort(n: nat)
    requires n <= MAX_MSG_LEN
    ensures |Decimal(n)| <= 4
  {
    LengthDigitsRight(n);
  }

  function Joined(ms: seq<Bytes>): Bytes { if ms == [] then [] else ms[0] + Joined(ms[1..]) }

  /** Framing inverts encoding: reading the concatenation of well-framed messages returns exactly them, in order, and
      then reports that the connection is gone. */
  lemma {:induction false} ReadAllInvertsJoin(beginStr: Bytes, ms: seq<Bytes>, payloads: seq<Bytes>)
    requires PlainText(beginStr) && |payloads| == |ms|
    requires forall i :: 0 <= i < |ms| ==> WellFramed(beginStr, ms[i], payloads[i])
    ensures ReadAll(beginStr, Joined(ms)) == (ms, ConnectionGone)
  {
    hide WellFramed, ReadOne;
    if ms == [] {
      ReadEmpty(beginStr);
    } else {
      ReadFramed(beginStr, ms[0], payloads[0], Joined(ms[1..]));
      NotEmpty(beginStr, ms[0], payloads[0]);
      ReadAllInvertsJoin(beginStr, ms[1..], payloads[1..]);
      assert [ms[0]] + ms[1..] == ms;
    }
  }

  lemma ReadEmpty(beginStr: Bytes)
    ensures ReadOne(beginStr, []) == Failed(ConnectionGone)
  {}

  lemma NotEmpty(beginStr: Bytes, m: Bytes, payload: Bytes)
    requires WellFramed(beginStr, m, payload)
    ensures m != []
  {}

  /** No byte is lost or made up: whatever is read is the front of the stream and nothing else is consumed. */
  lemma ReadConserves(beginStr: Bytes, s: Bytes)
    ensures var r := ReadOne(beginStr, s); r.Read? ==> r.msg + r.rest == s && |r.msg| > Preface(beginStr) + CHKSUM_SZ
  {}

  // ---------------------------------------------------------------- arbitrary bytes

  /** The head ends at `n`: digits from `from` on, up to a separator or the end of the buffer. */
  ghost predicate EndsAt(s: Bytes, from: nat, n: nat) {
    && from < n <= |s|
    && (forall i :: from <= i < n - 1 ==> IsDigit(s[i])) && (from < n - 1 ==> n - 1 < MAX_MSG_LEN)
    && (s[n - 1] == SOH || (IsDigit(s[n - 1]) && n >= MAX_MSG_LEN))
  }

  /** A byte that does not belong into a body length comes before its end. */
  ghost predicate StrayAt(s: Bytes, from: nat, n: nat) {
    && from <= n < |s| && !IsDigit(s[n]) && s[n] != SOH
    && (forall i :: from <= i < n ==> IsDigit(s[i])) && (from < n ==> n < MAX_MSG_LEN)
  }

  /** The scan finds the end of the head, or the first stray byte, or the end of the stream. */
  lemma {:induction false} ScanExactly(s: Bytes, from: nat)
    ensures match ScanHead(s, from)
            case Head(n) => EndsAt(s, from, n)
            case NoHead(IllegalMessage) => exists n :: StrayAt(s, from, n)
            case NoHead(e) =>
              e == ConnectionGone && (forall i :: from <= i < |s| ==> IsDigit(s[i])) && (from < |s| ==> |s| < MAX_MSG_LEN)
    decreases |s| - from
  {
    if from < |s| {
      if !IsDigit(s[from]) && s[from] != SOH {
        assert StrayAt(s, from, from);
      } else if s[from] != SOH && from + 1 < MAX_MSG_LEN {
        var next := from + 1;
        ScanExactly(s, next);
        match ScanHead(s, next)
        case Head(n) =>
        case NoHead(e) =>
          if e == IllegalMessage {
            var n: nat :| StrayAt(s, next, n);
            assert StrayAt(s, from, n);
          }
      }
    }
  }

  lemma EndsOnce(s: Bytes, from: nat, m: nat, n: nat)
    requires EndsAt(s, from, m) && EndsAt(s, from, n)
    ensures m == n
  {}

  /** An element of the bytes, followed by `rest`. */
  predicate Front(s: Bytes, tag: Bytes, val: Bytes, rest: Bytes) {
    AllDigits(tag) && SOH !in val && s == RawElement(tag, val) + rest
  }

  /** The tokenizer takes an element off the front exactly if there is one, and only that one. */
  lemma FrontIs(s: Bytes)
    ensures ExtractElement(s).None? ==> forall tag, val, rest :: !Front(s, tag, val, rest)
    ensures ExtractElement(s).Some? ==>
              var e := ExtractElement(s).value;
              && Front(s, e.tag, e.val, s[e.size..])
              && forall tag, val, rest :: Front(s, tag, val, rest) ==> tag == e.tag && val == e.val && rest == s[e.size..]
  {
    if ExtractElement(s).Some? { ElementIs(s); }
    hide ExtractElement, AllDigits;
    forall tag, val, rest | Front(s, tag, val, rest)
      ensures ExtractElement(s) == Some(Element(tag, val, |tag| + |val| + 2)) && rest == s[|tag| + |val| + 2..]
    {
      ExtractRaw(tag, val, rest);
    }
  }

  /** The head begins with BeginString, of that version. */
  ghost predicate Begins(beginStr: Bytes, s: Bytes, n: nat, version: Bytes) {
    && |s| >= |beginStr| + 6 && EndsAt(s, |beginStr| + 6, n)
    && var a := ExtractElement(s[..n]); a.Some? && [56] <= a.value.tag && version == CString(a.value.val)
  }

  /** It has the session's version, and BodyLength announces `length`. */
  ghost predicate Announces(beginStr: Bytes, s: Bytes, n: nat, length: nat) {
    && Begins(beginStr, s, n, beginStr)
    && var b := ExtractElement(s[..n][ExtractElement(s[..n]).value.size..]);
       b.Some? && [57] <= b.value.tag && length == Atoi(CString(b.value.val)) % UNSIGNED
  }

  predicate LegalLength(beginStr: Bytes, length: nat) { 0 < length <= MAX_MSG_LEN - (|beginStr| + 6) - CHKSUM_SZ }

  ghost predicate OtherVersion(beginStr: Bytes, s: Bytes, n: nat) {
    exists v :: Begins(beginStr, s, n, v) && v != beginStr
  }

  /** What the two elements of a head decide, by what they are. */
  lemma ParseExactly(beginStr: Bytes, s: Bytes, n: nat)
    requires |s| >= |beginStr| + 6 && EndsAt(s, |beginStr| + 6, n)
    ensures OtherVersion(beginStr, s, n) ==> ParseHead(beginStr, s[..n]) == NoLength(InvalidVersion)
    ensures forall k :: Announces(beginStr, s, n, k) ==>
              ParseHead(beginStr, s[..n]) == if LegalLength(beginStr, k) then Length(k) else NoLength(InvalidBodyLength(k))
    ensures !OtherVersion(beginStr, s, n) && (forall k: nat :: !Announces(beginStr, s, n, k)) ==>
              ParseHead(beginStr, s[..n]) == NoLength(IllegalMessage)
  {
    assert n <= |s|;
    hide ExtractElement, Atoi, CString, EndsAt;
    match ExtractElement(s[..n])
    case None =>
    case Some(a) =>
      if [56] <= a.tag {
        assert Begins(beginStr, s, n, CString(a.val));
        var rest := s[..n][a.size..];
        match ExtractElement(rest)
        case None =>
        case Some(b) => if [57] <= b.tag { var k: nat := Atoi(CString(b.val)) % UNSIGNED; }
      }
  }

  lemma EndIsFound(s: Bytes, from: nat, n: nat)
    requires EndsAt(s, from, n)
    ensures ScanHead(s, from) == Head(n)
  {
    ScanExactly(s, from);
    hide ScanHead;
    match ScanHead(s, from)
    case Head(m) => EndsOnce(s, from, m, n);
    case NoHead(e) => if e == IllegalMessage { var m: nat :| StrayAt(s, from, m); }
  }

  /** A stream whose head ends at `n` is read, or refused, as its two elements and its length decide. */
  lemma ReadByHead(beginStr: Bytes, s: Bytes, n: nat)
    requires |s| >= |beginStr| + 6 && EndsAt(s, |beginStr| + 6, n)
    ensures OtherVersion(beginStr, s, n) ==> ReadOne(beginStr, s) == Failed(InvalidVersion)
    ensures forall k: nat :: Announces(beginStr, s, n, k) ==>
              ReadOne(beginStr, s) ==
                if !LegalLength(beginStr, k) then Failed(InvalidBodyLength(k))
                else if |s| < n + k + CHKSUM_SZ then Failed(ConnectionGone)
                else Read(s[..n + k + CHKSUM_SZ], s[n + k + CHKSUM_SZ..])
    ensures !OtherVersion(beginStr, s, n) && (forall k: nat :: !Announces(beginStr, s, n, k)) ==>
              ReadOne(beginStr, s) == Failed(IllegalMessage)
  {
    EndIsFound(s, Preface(beginStr), n);
    ParseExactly(beginStr, s, n);
    hide ParseHead, ScanHead, EndsAt, OtherVersion, Announces, LegalLength;
  }

  /** A stream without such a head is refused: for a stray byte, or because it ends. */
  lemma ReadWithoutHead(beginStr: Bytes, s: Bytes, from: nat)
    requires from == |beginStr| + 6 && forall n: nat :: !EndsAt(s, from, n)
    ensures ReadOne(beginStr, s) ==
            Failed(if exists n: nat :: StrayAt(s, from, n) then IllegalMessage else ConnectionGone)
  {
    ScanExactly(s, Preface(beginStr));
    hide ParseHead, ScanHead;
  }

  /** The stream begins with the session's version and a BodyLength within the limit, and has as many bytes. */
  ghost predicate Acceptable(beginStr: Bytes, s: Bytes, n: nat, k: nat) {
    Announces(beginStr, s, n, k) && LegalLength(beginStr, k) && n + k + CHKSUM_SZ <= |s|
  }

  /** Whatever the stream: a message is read exactly if it is so announced, and is as long as announced. */
  lemma ReadExactly(beginStr: Bytes, s: Bytes)
    ensures ReadOne(beginStr, s).Read? <==> exists n: nat, k: nat :: Acceptable(beginStr, s, n, k)
    ensures forall n: nat, k: nat :: Acceptable(beginStr, s, n, k) ==>
              ReadOne(beginStr, s) == Read(s[..n + k + CHKSUM_SZ], s[n + k + CHKSUM_SZ..])
  {
    forall n: nat, k: nat | Acceptable(beginStr, s, n, k)
      ensures ReadOne(beginStr, s) == Read(s[..n + k + CHKSUM_SZ], s[n + k + CHKSUM_SZ..])
    {
      AnnouncedEnds(beginStr, s, n, k);
      ReadByHead(beginStr, s, n);
      hide Announces, ReadOne, EndsAt;
    }
    if ReadOne(beginStr, s).Read? { var n, k := ReadAnnounced(beginStr, s); }
    hide ReadOne, Acceptable;
  }

  lemma AnnouncedEnds(beginStr: Bytes, s: Bytes, n: nat, k: nat)
    requires Announces(beginStr, s, n, k)
    ensures |s| >= |beginStr| + 6 && EndsAt(s, |beginStr| + 6, n)
  {}

  lemma ReadAnnounced(beginStr: Bytes, s: Bytes) returns (n: nat, k: nat)
    requires ReadOne(beginStr, s).Read?
    ensures Acceptable(beginStr, s, n, k)
  {
    ScanExactly(s, Preface(beginStr));
    n := ScanHead(s, Preface(beginStr)).size;
    k := ParseHead(beginStr, s[..n]).n;
    ReadByHead(beginStr, s, n);
    hide ParseHead, ScanHead, EndsAt, LegalLength, ReadOne, Announces;
    k :| Announces(beginStr, s, n, k);
  }
}
