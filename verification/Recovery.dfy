/**
 Message recovery: what a session answers to a resend request, and why a peer that processes the answer
 ends in step with it.
 */
module Recovery {
  import opened Common
  import opened OrderedStore
  import opened Session

  /** What sending leaves in a store: application messages, filed under the number they carry, all below the next
      one. */
  ghost predicate WellKept(store: Store, nextSend: nat, now: nat) {
    && Ascending(store)
    && forall e <- store :: Kept(e, now) && e.key < nextSend
  }

  ghost predicate Kept(e: Entry<Message>, now: nat) {
    && 1 <= e.key && e.value.kind.App? && e.value.num == Some(e.key)
    && !e.value.possDup && e.value.origSent.None? && e.value.sent <= now
  }

  // ---------------------------------------------------------------- the reply as a list of messages

  function Resent(e: Entry<Message>, now: nat): Message {
    e.value.(possDup := true, origSent := Some(e.value.sent), sent := now)
  }

  function AllResent(records: Store, now: nat): seq<Message> {
    if records == [] then [] else [Resent(records[0], now)] + AllResent(records[1..], now)
  }

  function Filler(newSeq: nat, num: nat, now: nat): Message {
    Message(SequenceReset(Some(newSeq), true), Some(num), false, now, None)
  }

  /** A record preceded, if a hole opens before it, by a filler that carries the sender's current next number. */
  function RecordReply(ctx: Retrans, e: Entry<Message>, nextSend: nat, now: nat): seq<Message> {
    (if ClosingAt(ctx) < e.key then [Filler(e.key, nextSend, now)] else []) + [Resent(e, now)]
  }

  /** Only the closing filler carries the number of the hole it fills. */
  function Reply(ctx: Retrans, records: Store, nextSend: nat, now: nat): seq<Message>
    decreases |records|
  {
    if records == [] then [Filler(ClosingSeq(ctx), ClosingAt(ctx), now)]
    else RecordReply(ctx, records[0], nextSend, now) + Reply(ctx.(last := records[0].key), records[1..], nextSend, now)
  }

  function LastSent(ctx: Retrans, records: Store): Retrans {
    if records == [] then ctx else ctx.(last := LastKey(records))
  }

  /** The next number both ends share after the reply. */
  function Agreed(ctx: Retrans, records: Store): nat { ClosingSeq(LastSent(ctx, records)) }

  ghost predicate Replayable(ctx: Retrans, records: Store, now: nat) {
    && 1 <= ctx.begin
    && Ascending(records)
    && forall e <- records :: Kept(e, now) && (if ctx.last == 0 then ctx.begin <= e.key else ctx.last < e.key)
  }

  lemma ReplayableTail(ctx: Retrans, records: Store, now: nat)
    requires Replayable(ctx, records, now) && records != []
    ensures Replayable(ctx.(last := records[0].key), records[1..], now)
    ensures LastSent(ctx.(last := records[0].key), records[1..]) == LastSent(ctx, records)
    ensures records[0] in records
  {}

  lemma RecordWritten(st: State, ctx: Retrans, e: Entry<Message>, now: nat)
    requires Kept(e, now) && st.store.Some? && 1 <= st.nextSend && 1 <= ctx.begin
    ensures ResendRecord(st, ctx, e, now) ==
            st.(wire := st.wire + RecordReply(ctx, e, st.nextSend, now),
                control := if ClosingAt(ctx) < e.key then Some((st.nextSend + 1, st.nextRecv)) else st.control)
  {
    var filler, record := Filler(e.key, st.nextSend, now), Resent(e, now);
    assert st.wire + [filler] + [record] == st.wire + ([filler] + [record]);
    assert st.wire + ([] + [record]) == st.wire + [record];
  }

  lemma ClosingWritten(st: State, ctx: Retrans, now: nat)
    requires st.store.Some? && 1 <= ctx.begin
    ensures FinishRetrans(st, ctx, now) ==
            st.(wire := st.wire + [Filler(ClosingSeq(ctx), ClosingAt(ctx), now)], nextSend := ClosingSeq(ctx),
                phase := Continuous, control := Some((st.nextSend + 1, st.nextRecv)))
  {}

  lemma ReplayableBegin(ctx: Retrans, records: Store, now: nat)
    requires Replayable(ctx, records, now)
    ensures 1 <= ctx.begin && (records != [] ==> Kept(records[0], now))
  {}

  lemma AgreedAtLeast(ctx: Retrans, records: Store, now: nat)
    requires records == []
    ensures Agreed(ctx, records) == ClosingSeq(ctx) >= ctx.interrupted
  {}

  lemma ReplayUnfold(st: State, ctx: Retrans, records: Store, now: nat)
    ensures records == [] ==>
              && Replay(st, ctx, records, now) == FinishRetrans(st, ctx, now)
              && Reply(ctx, records, st.nextSend, now) == [Filler(ClosingSeq(ctx), ClosingAt(ctx), now)]
    ensures records != [] ==>
              var ctx' := ctx.(last := records[0].key);
              && Replay(st, ctx, records, now) == Replay(ResendRecord(st, ctx, records[0], now), ctx', records[1..], now)
              && Reply(ctx, records, st.nextSend, now)
                 == RecordReply(ctx, records[0], st.nextSend, now) + Reply(ctx', records[1..], st.nextSend, now)
              && Agreed(ctx, records) == Agreed(ctx', records[1..])
  {
    hide Send, ResendRecord, FinishRetrans, RecordReply, Filler;
  }

  /** The retransmission writes exactly `Reply` and never lowers the sender's number. */
  lemma {:induction false} ReplayWrites(st: State, ctx: Retrans, records: Store, now: nat)
    requires Replayable(ctx, records, now) && st.store.Some? && 1 <= st.nextSend
    ensures Replay(st, ctx, records, now) ==
            st.(wire := st.wire + Reply(ctx, records, st.nextSend, now), nextSend := Agreed(ctx, records),
                phase := Continuous, control := Some((st.nextSend + 1, st.nextRecv)))
    ensures Agreed(ctx, records) >= ctx.interrupted
    decreases |records|
  {
    hide Send, ResendRecord, FinishRetrans, Reply, RecordReply, Replay, Agreed, Kept, Filler, Resent;
    ReplayableBegin(ctx, records, now);
    ReplayUnfold(st, ctx, records, now);
    if records == [] {
      ClosingWritten(st, ctx, now);
      AgreedAtLeast(ctx, records, now);
    } else {
      var e, ctx' := records[0], ctx.(last := records[0].key);
      ReplayableTail(ctx, records, now);
      RecordWritten(st, ctx, e, now);
      var st1 := ResendRecord(st, ctx, e, now);
      ReplayWrites(st1, ctx', records[1..], now);
      assert (st.wire + RecordReply(ctx, e, st.nextSend, now)) + Reply(ctx', records[1..], st.nextSend, now)
          == st.wire + Reply(ctx, records, st.nextSend, now);
    }
  }

  // ---------------------------------------------------------------- the receiving side

  /** A gap fill ends the wait for a resend. */
  function PhaseAfterFill(p: Phase): Phase { if p == ResendRequestSent then Continuous else p }

  lemma FillerProcessed(r: State, newSeq: nat, num: nat, now: nat)
    requires r.nextRecv <= newSeq
    ensures Process(r, Filler(newSeq, num, now), now) ==
            (PersistNumbers(r.(nextRecv := newSeq, phase := PhaseAfterFill(r.phase))), Answer(true))
  {}

  lemma FillerTooLow(r: State, newSeq: nat, num: nat, now: nat)
    requires newSeq < r.nextRecv
    ensures Process(r, Filler(newSeq, num, now), now).1.Throws?
  {}

  lemma ResentProcessed(r: State, e: Entry<Message>, now: nat)
    requires Kept(e, now) && IsEstablished(r.phase) && e.key <= r.nextRecv
    ensures Process(r, Resent(e, now), now) ==
            (PersistNumbers(r.(nextRecv := r.nextRecv + 1, delivered := r.delivered + [Resent(e, now)])), Answer(true))
  {}

  lemma ProcessAllStep(r: State, m: Message, rest: seq<Message>, now: nat)
    requires !Process(r, m, now).1.Throws?
    ensures ProcessAll(r, [m] + rest, now) == ProcessAll(Process(r, m, now).0, rest, now)
  {
    hide Process;
    assert ([m] + rest)[1..] == rest;
  }

  lemma ProcessAllThrows(r: State, m: Message, rest: seq<Message>, now: nat)
    requires Process(r, m, now).1.Throws?
    ensures ProcessAll(r, [m] + rest, now).None?
  {}

  /** The receiver counts `excess` numbers past the place the reply has come to. */
  predicate Ahead(ctx: Retrans, nextRecv: int, excess: nat) { nextRecv == ClosingAt(ctx) + excess }

  /** Whether a receiver that far ahead can take the reply: the first gap fill brings it back into place, unless that
      announces a number it has counted already. */
  predicate Absorbs(ctx: Retrans, records: Store, excess: nat)
    decreases |records|
  {
    if records == [] then ClosingAt(ctx) + excess <= ClosingSeq(ctx)
    else if ClosingAt(ctx) < records[0].key then ClosingAt(ctx) + excess <= records[0].key
    else Absorbs(ctx.(last := records[0].key), records[1..], excess)
  }

  /** A receiver that only counted the message that opened the gap always can. */
  lemma {:induction false} OneAheadIsAbsorbed(ctx: Retrans, records: Store)
    ensures Absorbs(ctx, records, 0) && Absorbs(ctx, records, 1)
    decreases |records|
  {
    if records != [] { OneAheadIsAbsorbed(ctx.(last := records[0].key), records[1..]); }
  }

  /** The receiver after one record and the filler before it, if there is one. */
  function AfterRecord(r: State, ctx: Retrans, e: Entry<Message>, now: nat): State {
    var r1 := if ClosingAt(ctx) < e.key then PersistNumbers(r.(nextRecv := e.key, phase := PhaseAfterFill(r.phase))) else r;
    PersistNumbers(r1.(nextRecv := r1.nextRecv + 1, delivered := r.delivered + [Resent(e, now)]))
  }

  lemma RecordProcessed(r: State, ctx: Retrans, e: Entry<Message>, nextSend: nat, rest: seq<Message>, now: nat)
    requires Kept(e, now) && IsEstablished(r.phase) && ClosingAt(ctx) <= e.key && ClosingAt(ctx) <= r.nextRecv
    ensures var taken := ProcessAll(r, RecordReply(ctx, e, nextSend, now) + rest, now);
            taken == if ClosingAt(ctx) < e.key < r.nextRecv then None else ProcessAll(AfterRecord(r, ctx, e, now), rest, now)
  {
    hide Process, ProcessAll, Resent, Filler, Kept;
    var rec, filler := Resent(e, now), Filler(e.key, nextSend, now);
    if ClosingAt(ctx) < e.key < r.nextRecv {
      FillerTooLow(r, e.key, nextSend, now);
      ProcessAllThrows(r, filler, [rec] + rest, now);
      assert RecordReply(ctx, e, nextSend, now) + rest == [filler] + ([rec] + rest);
    } else {
      var r1 := if ClosingAt(ctx) < e.key then PersistNumbers(r.(nextRecv := e.key, phase := PhaseAfterFill(r.phase))) else r;
      if ClosingAt(ctx) < e.key {
        FillerProcessed(r, e.key, nextSend, now);
        ProcessAllStep(r, filler, [rec] + rest, now);
        assert RecordReply(ctx, e, nextSend, now) + rest == [filler] + ([rec] + rest);
      } else {
        assert RecordReply(ctx, e, nextSend, now) + rest == [rec] + rest;
      }
      ResentProcessed(r1, e, now);
      ProcessAllStep(r1, rec, rest, now);
    }
  }

  lemma AheadAfter(r: State, ctx: Retrans, e: Entry<Message>, excess: nat, now: nat)
    requires Kept(e, now) && ClosingAt(ctx) <= e.key && Ahead(ctx, r.nextRecv, excess)
    ensures Ahead(ctx.(last := e.key), AfterRecord(r, ctx, e, now).nextRecv, if ClosingAt(ctx) < e.key then 0 else excess)
  {}

  function Caught(r: State, ctx: Retrans, records: Store, now: nat): State {
    PersistNumbers(r.(nextRecv := Agreed(ctx, records), phase := PhaseAfterFill(r.phase),
                      delivered := r.delivered + AllResent(records, now)))
  }

  lemma ClosingProcessed(r: State, ctx: Retrans, now: nat)
    ensures ProcessAll(r, [Filler(ClosingSeq(ctx), ClosingAt(ctx), now)], now) ==
            if ClosingSeq(ctx) < r.nextRecv then None else Some(Caught(r, ctx, [], now))
  {
    hide Process;
    var closing := Filler(ClosingSeq(ctx), ClosingAt(ctx), now);
    assert [closing] + [] == [closing] && r.delivered + [] == r.delivered;
    if ClosingSeq(ctx) < r.nextRecv {
      FillerTooLow(r, ClosingSeq(ctx), ClosingAt(ctx), now);
      ProcessAllThrows(r, closing, [], now);
    } else {
      FillerProcessed(r, ClosingSeq(ctx), ClosingAt(ctx), now);
      ProcessAllStep(r, closing, [], now);
    }
  }

  lemma CaughtStep(r: State, ctx: Retrans, records: Store, now: nat)
    requires records != []
    ensures Caught(AfterRecord(r, ctx, records[0], now), ctx.(last := records[0].key), records[1..], now)
         == Caught(r, ctx, records, now)
    ensures IsEstablished(r.phase) ==> IsEstablished(AfterRecord(r, ctx, records[0], now).phase)
  {
    hide Resent;
    var r1 := AfterRecord(r, ctx, records[0], now);
    assert r.delivered + AllResent(records, now) == r1.delivered + AllResent(records[1..], now);
  }

  /** A receiver `excess` numbers ahead takes the whole reply exactly when it can absorb them, and throws otherwise.
      It is given each record once, in order and flagged PossDup, and ends expecting exactly the number the sender
      will use next. */
  lemma {:induction false} ReplyProcessed(r: State, ctx: Retrans, records: Store, nextSend: nat, excess: nat, now: nat)
    requires Replayable(ctx, records, now) && Ahead(ctx, r.nextRecv, excess) && IsEstablished(r.phase)
    ensures ProcessAll(r, Reply(ctx, records, nextSend, now), now) ==
            if Absorbs(ctx, records, excess) then Some(Caught(r, ctx, records, now)) else None
    decreases |records|
  {
    hide Process, RecordReply, AfterRecord, ProcessAll, Caught;
    if records == [] {
      ClosingProcessed(r, ctx, now);
    } else {
      var e, ctx' := records[0], ctx.(last := records[0].key);
      ReplayableTail(ctx, records, now);
      RecordProcessed(r, ctx, e, nextSend, Reply(ctx', records[1..], nextSend, now), now);
      if !(ClosingAt(ctx) < e.key < r.nextRecv) {
        var left := if ClosingAt(ctx) < e.key then 0 else excess;
        AheadAfter(r, ctx, e, excess, now);
        CaughtStep(r, ctx, records, now);
        OneAheadIsAbsorbed(ctx', records[1..]);
        ReplyProcessed(AfterRecord(r, ctx, e, now), ctx', records[1..], nextSend, left, now);
      }
    }
  }

  // ---------------------------------------------------------------- both ends together

  /** What a session put on the wire since `before`. */
  function Written(before: State, after: State): seq<Message> {
    if |before.wire| <= |after.wire| then after.wire[|before.wire|..] else []
  }

  /** The records a resend request gets: none without a persister. */
  function Served(a: State, begin: nat, end: nat): Store {
    if a.store.None? then [] else Requested(a.store.value, begin, end)
  }

  predicate ValidRange(begin: nat, end: nat) { begin != 0 && (end == 0 || begin <= end) }

  ghost predicate CanResend(a: State, now: nat) {
    && 1 <= a.nextSend && (a.phase == Continuous || a.phase == TestRequestSent)
    && (a.store.Some? ==> WellKept(a.store.value, a.nextSend, now))
  }

  lemma ServedReplayable(a: State, begin: nat, end: nat, now: nat)
    requires CanResend(a, now) && 1 <= begin
    ensures Replayable(Retrans(begin, end, a.nextSend, 0), Served(a, begin, end), now)
  {
    if a.store.Some? {
      var hi := if end == 0 then LastKey(a.store.value) else end;
      SelectExact(a.store.value, begin, hi);
    }
  }

  /** The answer to a valid resend request is `Reply` over the stored messages in range; the next number never drops. */
  lemma RequestAnswered(a: State, n: nat, begin: nat, end: nat, now: nat)
    requires CanResend(a, now) && ValidRange(begin, end)
    ensures var a1 := HandleResendRequest(a, n, begin, end, now);
            var ctx, records := Retrans(begin, end, a.nextSend, 0), Served(a, begin, end);
            && a1.wire == a.wire + Reply(ctx, records, a.nextSend, now)
            && a1.nextSend == Agreed(ctx, records) >= a.nextSend
            && a1.store == a.store && a1.nextRecv == a.nextRecv && a1.delivered == a.delivered
            && a1.phase == if a.store.Some? then Continuous else a.phase
  {
    var ctx, records := Retrans(begin, end, a.nextSend, 0), Served(a, begin, end);
    ServedReplayable(a, begin, end, now);
    if a.store.Some? {
      hide Replay, Reply;
      ReplayWrites(a.(phase := ResendRequestReceived), ctx, records, now);
    }
  }

  /** For every store and every valid range: the peer that opened the gap at `begin`, and so already expects `begin +
      1`, processes the whole answer without throwing and both ends agree on the next number. */
  lemma RangeRecovers(a: State, b: State, n: nat, begin: nat, end: nat, now: nat)
    requires CanResend(a, now) && ValidRange(begin, end)
    requires IsEstablished(b.phase) && b.nextRecv == begin + 1
    ensures var a1 := HandleResendRequest(a, n, begin, end, now);
            && a.wire <= a1.wire && a1.nextSend >= a.nextSend
            && var b1 := ProcessAll(b, Written(a, a1), now);
            && b1.Some? && b1.value.nextRecv == a1.nextSend
            && b1.value.delivered == b.delivered + AllResent(Served(a, begin, end), now)
            && b1.value.phase == PhaseAfterFill(b.phase)
            && b1.value.wire == b.wire && b1.value.nextSend == b.nextSend && b1.value.store == b.store
  {
    hide HandleResendRequest, Reply, ProcessAll;
    var ctx, records := Retrans(begin, end, a.nextSend, 0), Served(a, begin, end);
    ServedReplayable(a, begin, end, now);
    RequestAnswered(a, n, begin, end, now);
    var a1 := HandleResendRequest(a, n, begin, end, now);
    assert Written(a, a1) == Reply(ctx, records, a.nextSend, now);
    OneAheadIsAbsorbed(ctx, records);
    ReplyProcessed(b, ctx, records, a.nextSend, 1, now);
  }

  predicate Ordinary(k: Kind) { k.App? || k.Heartbeat? || k.TestRequest? }

  /** What a session in `Continuous` does with an ordinary message whose number is too high: it drops it, asks for
      everything from the number it expected, and still counts it. */
  lemma GapOpened(b: State, m: Message, now: nat)
    requires b.phase == Continuous && Ordinary(m.kind) && m.num.Some? && 0 <= b.nextRecv < m.num.value
    ensures var (b1, c) := Process(b, m, now);
            var ask := SendNew(b, ResendRequest(b.nextRecv, 0), now).(phase := ResendRequestSent);
            && !c.Throws?
            && b1 == PersistNumbers(
                 (if m.kind.TestRequest? then SendNew(ask, Heartbeat(m.kind.id), now) else ask)
                   .(nextRecv := b.nextRecv + 1))
  {
    SendNewEffect(b, ResendRequest(b.nextRecv, 0), now);
    hide Send, Insert;
    var ask := SendNew(b, ResendRequest(b.nextRecv, 0), now).(phase := ResendRequestSent);
    if m.kind.TestRequest? { SendNewEffect(ask, Heartbeat(m.kind.id), now); }
  }

  /** The message an ordinary send writes. */
  function Fresh(kind: Kind, num: nat, now: nat): Message { Message(kind, Some(num), false, now, None) }

  lemma SendNewEffect(st: State, kind: Kind, now: nat)
    requires !kind.SequenceReset?
    ensures SendNew(st, kind, now) ==
            st.(wire := st.wire + [Fresh(kind, st.nextSend, now)], nextSend := st.nextSend + 1,
                store := if st.store.None? || kind.IsAdmin() || st.nextSend == 0 then st.store
                         else Some(Insert(st.store.value, st.nextSend, Fresh(kind, st.nextSend, now))),
                control := if st.store.None? then st.control else Some((st.nextSend + 1, st.nextRecv)))
  {}

  /** The peer's next ordinary message, or its resend request, arrives in order. */
  lemma InOrder(a: State, kind: Kind, sentAt: nat, now: nat)
    requires (a.phase == Continuous || a.phase == TestRequestSent) && 0 <= a.nextRecv
    requires Ordinary(kind) || kind.ResendRequest?
    ensures Process(a, Fresh(kind, a.nextRecv, sentAt), now) ==
            (var a1 := Handle(a, a.nextRecv, Fresh(kind, a.nextRecv, sentAt), false, now);
             PersistNumbers(a1.(nextRecv := a1.nextRecv + 1)), Answer(true))
  {
    hide Handle;
  }

  /** The application messages among `wire`. */
  function Apps(wire: seq<Message>): seq<Message> {
    if wire == [] then [] else (if wire[0].kind.App? then [wire[0]] else []) + Apps(wire[1..])
  }

  predicate Talking(st: State) { st.phase == Continuous || st.phase == TestRequestSent }

  function Pong(a: State, m: Message, at: nat): seq<Message> {
    if m.kind.TestRequest? then [Fresh(Heartbeat(m.kind.id), a.nextSend, at)] else []
  }

  lemma TakeEffect(a: State, m: Message, at: nat)
    requires Talking(a) && 0 <= a.nextRecv && Ordinary(m.kind) && m == Fresh(m.kind, a.nextRecv, m.sent)
    ensures var (a1, c) := Process(a, m, at);
            && !c.Throws? && a1.nextRecv == a.nextRecv + 1 && a1.store == a.store && Talking(a1)
            && a1.delivered == a.delivered + Apps([m])
            && a1.wire == a.wire + Pong(a, m, at) && a1.nextSend == a.nextSend + |Pong(a, m, at)|
  {
    InOrder(a, m.kind, m.sent, at);
    if m.kind.TestRequest? { SendNewEffect(a, Heartbeat(m.kind.id), at); }
    hide Process, Send;
    assert Apps([m]) == if m.kind.App? then [m] else [];
  }

  /** What a session that opened a gap writes: its request and, if the message was a TestRequest, the answer to that. */
  function Asked(b: State, m: Message, now: nat): seq<Message> {
    [Fresh(ResendRequest(if b.nextRecv < 0 then 0 else b.nextRecv, 0), b.nextSend, now)]
    + (if m.kind.TestRequest? then [Fresh(Heartbeat(m.kind.id), b.nextSend + 1, now)] else [])
  }

  lemma GapWritten(b: State, m: Message, now: nat)
    requires b.phase == Continuous && Ordinary(m.kind) && m.num.Some? && 0 <= b.nextRecv < m.num.value
    ensures var (b1, c) := Process(b, m, now);
            && !c.Throws? && b1.wire == b.wire + Asked(b, m, now) && b1.phase == ResendRequestSent
            && b1.nextRecv == b.nextRecv + 1 && b1.nextSend == b.nextSend + |Asked(b, m, now)|
            && b1.delivered == b.delivered && b1.store == b.store
  {
    hide Process, Send, SendNew, Insert;
    GapOpened(b, m, now);
    SendNewEffect(b, ResendRequest(b.nextRecv, 0), now);
    var ask := SendNew(b, ResendRequest(b.nextRecv, 0), now).(phase := ResendRequestSent);
    if m.kind.TestRequest? { SendNewEffect(ask, Heartbeat(m.kind.id), now); }
  }

  /** The sender takes what the gap made its peer write: it answers the request and counts every message. */
  lemma AskTaken(a: State, b: State, m: Message, now: nat)
    requires CanResend(a, now) && 1 <= b.nextRecv && a.nextRecv == b.nextSend
    ensures var h := HandleResendRequest(a, a.nextRecv, b.nextRecv, 0, now);
            var a1 := ProcessAll(a, Asked(b, m, now), now);
            && a1.Some? && a1.value.wire == h.wire && a1.value.nextSend == h.nextSend && a1.value.store == h.store
            && a1.value.delivered == h.delivered && a1.value.nextRecv == a.nextRecv + |Asked(b, m, now)|
            && a1.value.phase in {Continuous, TestRequestSent}
  {
    hide Process, HandleResendRequest, Reply, Requested, WellKept;
    var ask, n := Asked(b, m, now), a.nextRecv;
    var h := HandleResendRequest(a, n, b.nextRecv, 0, now);
    RequestAnswered(a, n, b.nextRecv, 0, now);
    InOrder(a, ask[0].kind, now, now);
    assert Handle(a, n, ask[0], false, now) == h;
    var a1 := PersistNumbers(h.(nextRecv := n + 1));
    ProcessAllStep(a, ask[0], ask[1..], now);
    assert ask == [ask[0]] + ask[1..];
    if m.kind.TestRequest? {
      assert ask[1..] == [ask[1]] + [];
      InOrder(a1, ask[1].kind, now, now);
      ProcessAllStep(a1, ask[1], [], now);
    }
  }

  /** Messages on their way in order, the first numbered `first`. */
  predicate InFlight(pending: seq<Message>, first: nat) {
    forall i :: 0 <= i < |pending| ==>
      pending[i] == Fresh(pending[i].kind, first + i, pending[i].sent) && Ordinary(pending[i].kind)
  }

  lemma AppsCons(m: Message, wire: seq<Message>)
    ensures Apps([m] + wire) == Apps([m]) + Apps(wire)
  {
    assert ([m] + wire)[1..] == wire && [m][1..] == [];
  }

  /** The answers to the TestRequests among `pending`, the first numbered `next`. */
  function Pongs(pending: seq<Message>, next: nat, at: nat): seq<Message> {
    if pending == [] then []
    else
      var m := pending[0];
      if m.kind.TestRequest? then [Fresh(Heartbeat(m.kind.id), next, at)] + Pongs(pending[1..], next + 1, at)
      else Pongs(pending[1..], next, at)
  }

  function Tests(pending: seq<Message>): nat {
    if pending == [] then 0 else (if pending[0].kind.TestRequest? then 1 else 0) + Tests(pending[1..])
  }

  /** Heartbeats numbered consecutively from `first`. */
  predicate Beats(ms: seq<Message>, first: nat) {
    forall i :: 0 <= i < |ms| ==> ms[i].kind.Heartbeat? && ms[i] == Fresh(ms[i].kind, first + i, ms[i].sent)
  }

  lemma {:induction false} PongsAre(pending: seq<Message>, next: nat, at: nat)
    ensures |Pongs(pending, next, at)| == Tests(pending) && Beats(Pongs(pending, next, at), next)
  {
    if pending != [] {
      PongsAre(pending[1..], if pending[0].kind.TestRequest? then next + 1 else next, at);
    }
  }

  lemma PongFirst(a: State, pending: seq<Message>, at: nat)
    requires pending != []
    ensures Pongs(pending, a.nextSend, at)
         == Pong(a, pending[0], at) + Pongs(pending[1..], a.nextSend + |Pong(a, pending[0], at)|, at)
  {}

  /** Messages in flight are taken, delivered and counted; only the TestRequests among them are answered. */
  lemma {:induction false} PendingTaken(a: State, pending: seq<Message>, now: nat)
    requires Talking(a) && 0 <= a.nextRecv && InFlight(pending, a.nextRecv)
    ensures var r := ProcessAll(a, pending, now);
            && r.Some? && Talking(r.value) && r.value.nextRecv == a.nextRecv + |pending| && r.value.store == a.store
            && r.value.wire == a.wire + Pongs(pending, a.nextSend, now) && r.value.nextSend == a.nextSend + Tests(pending)
            && r.value.delivered == a.delivered + Apps(pending)
    decreases |pending|
  {
    hide Process, Apps, Pong, Pongs, Tests;
    PongsAre(pending, a.nextSend, now);
    if pending == [] {
      AppsNone();
      NoPongs(a.nextSend, now);
    } else {
      var m, rest := pending[0], pending[1..];
      TakeEffect(a, m, now);
      var a1 := Process(a, m, now).0;
      PendingTaken(a1, rest, now);
      PongFirst(a, pending, now);
      PongsAre(rest, a1.nextSend, now);
      assert pending == [m] + rest;
      AppsCons(m, rest);
      assert a.delivered + Apps([m]) + Apps(rest) == a.delivered + (Apps([m]) + Apps(rest));
      assert a.wire + Pong(a, m, now) + Pongs(rest, a1.nextSend, now) == a.wire + Pongs(pending, a.nextSend, now);
    }
  }

  lemma NoPongs(next: nat, at: nat)
    ensures Pongs([], next, at) == [] && Tests([]) == 0
  {}

  lemma AppsNone()
    ensures Apps([]) == []
  {}

  lemma {:induction false} ProcessAllConcat(r: State, u: seq<Message>, v: seq<Message>, now: nat)
    ensures var first := ProcessAll(r, u, now);
            ProcessAll(r, u + v, now) == if first.None? then None else ProcessAll(first.value, v, now)
    decreases |u|
  {
    hide Process;
    if u == [] {
      assert u + v == v;
    } else {
      assert (u + v)[1..] == u[1..] + v;
      if !Process(r, u[0], now).1.Throws? { ProcessAllConcat(Process(r, u[0], now).0, u[1..], v, now); }
    }
  }

  /** The exchange a gap sets off, undisturbed: `b` takes `m`, `a` takes what `b` still had on the way and what `m`
      made it write, `b` takes what that made `a` write. Absent if anyone logs off. */
  function Exchange(a: State, b: State, pending: seq<Message>, m: Message, now: nat): Option<(State, State)> {
    var (b1, c) := Process(b, m, now);
    if c.Throws? then None
    else
      var a1 := ProcessAll(a, pending + Written(b, b1), now);
      if a1.None? then None
      else
        var b2 := ProcessAll(b1, Written(a, a1.value), now);
        if b2.None? then None else Some((a1.value, b2.value))
  }

  /** Each end expects what the other will send next. */
  predicate InStep(r: Option<(State, State)>) {
    r.Some? && r.value.1.nextRecv == r.value.0.nextSend && r.value.0.nextRecv == r.value.1.nextSend
  }

  /** What the exchange starts from: `b` has missed messages of `a` before `m`, and `a` none of `b`, whose latest may
      still be on the way. */
  ghost predicate Missing(a: State, b: State, pending: seq<Message>, m: Message, now: nat) {
    && CanResend(a, now) && Talking(b) && 1 <= b.nextSend
    && Ordinary(m.kind) && m.num.Some? && 1 <= b.nextRecv < m.num.value < a.nextSend
    && 0 <= a.nextRecv && a.nextRecv + |pending| == b.nextSend && InFlight(pending, a.nextRecv)
  }

  // ---------------------------------------------------------------- answers that overtake the reply

  /** While a resend is pending, messages with too high a number are counted where the configuration ignores such gaps;
      otherwise the first of them logs the session off. */
  lemma {:induction false} BeatsWhileAsking(b: State, ms: seq<Message>, first: nat, now: nat)
    requires b.phase == ResendRequestSent && Beats(ms, first) && b.nextRecv < first
    ensures var r := ProcessAll(b, ms, now);
            if ms != [] && !b.cfg.ignoreLogonSequenceCheck then r.None?
            else r.Some? && r.value == (if ms == [] then b else PersistNumbers(b.(nextRecv := b.nextRecv + |ms|)))
    decreases |ms|
  {
    hide Process;
    if ms != [] {
      BeatWhileAsking(b, ms[0], now);
      if b.cfg.ignoreLogonSequenceCheck { BeatsWhileAsking(Process(b, ms[0], now).0, ms[1..], first + 1, now); }
    }
  }

  lemma BeatWhileAsking(b: State, m: Message, now: nat)
    requires b.phase == ResendRequestSent && m.kind.Heartbeat? && m.num.Some? && b.nextRecv < m.num.value
    ensures var (b1, c) := Process(b, m, now);
            && (c.Throws? <==> !b.cfg.ignoreLogonSequenceCheck)
            && (!c.Throws? ==> b1 == PersistNumbers(b.(nextRecv := b.nextRecv + 1)))
  {}

  predicate StoredUnder(records: Store, k: nat) { exists e <- records :: e.key == k }

  /** The first number from `from` on under which nothing is stored is `c`, and nothing is under the `p` after it. */
  ghost predicate HoleAt(records: Store, from: nat, c: nat, p: nat) {
    && from <= c
    && (forall k :: from <= k < c ==> StoredUnder(records, k))
    && (forall k :: c <= k <= c + p ==> !StoredUnder(records, k))
  }

  /** The first hole in what was sent below `next` is more than `p` numbers wide. */
  ghost predicate WideHole(records: Store, from: nat, next: nat, p: nat) {
    exists c: nat :: HoleAt(records, from, c, p) && c < next
  }

  lemma StoredTail(records: Store)
    requires records != []
    ensures forall k :: StoredUnder(records, k) <==> k == records[0].key || StoredUnder(records[1..], k)
  {
    assert forall e <- records :: e == records[0] || e in records[1..];
  }

  /** `p` answers that overtook the reply can be absorbed exactly when the first hole is wide enough. */
  lemma {:induction false} AbsorbsWhen(ctx: Retrans, records: Store, next: nat, p: nat, now: nat)
    requires Replayable(ctx, records, now) && 1 <= p && ctx.interrupted == next + p && forall e <- records :: e.key < next
    ensures Absorbs(ctx, records, p + 1) <==> WideHole(records, ClosingAt(ctx), next, p)
    decreases |records|
  {
    hide Kept;
    var c0 := ClosingAt(ctx);
    if records == [] {
      assert forall k :: !StoredUnder(records, k);
      assert HoleAt(records, c0, c0, p);
    } else if c0 < records[0].key {
      FirstLeast(records);
      assert StoredUnder(records, records[0].key) && !StoredUnder(records, c0);
      assert HoleAt(records, c0, c0, p) <==> c0 + p < records[0].key;
    } else {
      var ctx' := ctx.(last := records[0].key);
      ReplayableTail(ctx, records, now);
      HeadLeast(records);
      AbsorbsWhen(ctx', records[1..], next, p, now);
      assert records[0] in records;
      HoleBehind(records, c0, next, p);
    }
  }

  lemma HoleBehind(records: Store, from: nat, next: nat, p: nat)
    requires records != [] && records[0].key == from && Ascending(records)
    ensures WideHole(records, from, next, p) <==> WideHole(records[1..], from + 1, next, p)
  {
    StoredTail(records);
    HeadLeast(records);
    assert StoredUnder(records, from) && !StoredUnder(records[1..], from);
    if c: nat :| HoleAt(records, from, c, p) && c < next {
      assert c != from;
      assert HoleAt(records[1..], from + 1, c, p);
    }
    var tail, after := records[1..], from + 1;
    if c: nat :| HoleAt(tail, after, c, p) && c < next {
      assert HoleAt(records, from, c, p);
    }
  }

  // ---------------------------------------------------------------- the exchange

  /** The condition for recovery: `b` is not waiting for the answer to a TestRequest, and none of its own is on its way
      to `a`; or its configuration ignores the answers overtaking the reply and the reply has room for them. */
  ghost predicate Recovers(a: State, b: State, pending: seq<Message>)
    requires 0 <= b.nextRecv
  {
    && b.phase == Continuous
    && (Tests(pending) == 0
        || (b.cfg.ignoreLogonSequenceCheck && WideHole(Served(a, b.nextRecv, 0), b.nextRecv, a.nextSend, Tests(pending))))
  }

  /** The peer after it took what was on its way, before it sees the resend request. */
  lemma PendingAnswered(a: State, b: State, pending: seq<Message>, m: Message, now: nat) returns (a0: State)
    requires Missing(a, b, pending, m, now)
    ensures ProcessAll(a, pending, now) == Some(a0)
    ensures CanResend(a0, now) && a0.nextRecv == b.nextSend && a0.nextSend == a.nextSend + Tests(pending)
    ensures a0.store == a.store && a0.delivered == a.delivered + Apps(pending)
    ensures a0.wire == a.wire + Pongs(pending, a.nextSend, now)
    ensures Served(a0, b.nextRecv, 0) == Served(a, b.nextRecv, 0)
  {
    hide ProcessAll, Apps, Pongs, Tests, InFlight, Requested;
    PendingTaken(a, pending, now);
    a0 := ProcessAll(a, pending, now).value;
  }

  /** Everything the exchange makes `a` write: the answers it owed, then the reply. */
  lemma AnswersThenReply(a: State, b: State, pending: seq<Message>, m: Message, now: nat) returns (a1: State)
    requires Missing(a, b, pending, m, now) && b.phase == Continuous
    ensures var b1 := Process(b, m, now).0;
            var next := a.nextSend + Tests(pending);
            var ctx, records := Retrans(b.nextRecv, 0, next, 0), Served(a, b.nextRecv, 0);
            && !Process(b, m, now).1.Throws?
            && ProcessAll(a, pending + Written(b, b1), now) == Some(a1)
            && Written(a, a1) == Pongs(pending, a.nextSend, now) + Reply(ctx, records, next, now)
            && Replayable(ctx, records, now)
            && a1.nextSend == Agreed(ctx, records) >= a.nextSend && a1.nextRecv == b1.nextSend
            && a1.delivered == a.delivered + Apps(pending) && a1.store == a.store && Talking(a1)
  {
    hide Process, HandleResendRequest, ProcessAll, Reply, Asked, Served, CanResend, Apps, InFlight, Pongs, Tests, Agreed,
         Replayable;
    var a0 := PendingAnswered(a, b, pending, m, now);
    GapWritten(b, m, now);
    RequestAnswered(a0, a0.nextRecv, b.nextRecv, 0, now);
    ServedReplayable(a0, b.nextRecv, 0, now);
    AskTaken(a0, b, m, now);
    assert Written(b, Process(b, m, now).0) == Asked(b, m, now);
    ProcessAllConcat(a, pending, Asked(b, m, now), now);
    a1 := ProcessAll(a0, Asked(b, m, now), now).value;
  }

  /** `b`, having opened the gap, takes all that. */
  lemma AllTaken(b1: State, pongs: seq<Message>, first: nat, ctx: Retrans, records: Store, next: nat, now: nat)
    requires b1.phase == ResendRequestSent && Beats(pongs, first) && Replayable(ctx, records, now)
    requires ctx.last == 0 && b1.nextRecv == ctx.begin + 1 < first
    ensures var r := ProcessAll(b1, pongs + Reply(ctx, records, next, now), now);
            && (r.Some? <==> (|pongs| == 0 || b1.cfg.ignoreLogonSequenceCheck) && Absorbs(ctx, records, |pongs| + 1))
            && (r.Some? ==> && r.value.nextRecv == Agreed(ctx, records) && r.value.phase == Continuous
                            && r.value.delivered == b1.delivered + AllResent(records, now)
                            && r.value.nextSend == b1.nextSend && r.value.store == b1.store)
  {
    hide ProcessAll, Reply, Agreed, Replayable, AllResent, Absorbs, Beats;
    BeatsWhileAsking(b1, pongs, first, now);
    ProcessAllConcat(b1, pongs, Reply(ctx, records, next, now), now);
    var r := ProcessAll(b1, pongs, now);
    if r.Some? { ReplyProcessed(r.value, ctx, records, next, |pongs| + 1, now); }
  }

  /** The exchange after a gap was opened, by what the two ends have written. */
  lemma ExchangeOutcome(a: State, b: State, pending: seq<Message>, m: Message, now: nat)
    requires Missing(a, b, pending, m, now) && b.phase == Continuous
    ensures var p, r := Tests(pending), Exchange(a, b, pending, m, now);
            var ctx, records := Retrans(b.nextRecv, 0, a.nextSend + p, 0), Served(a, b.nextRecv, 0);
            && (r.Some? <==> (p == 0 || b.cfg.ignoreLogonSequenceCheck) && Absorbs(ctx, records, p + 1))
            && (r.Some? ==>
                  && var (a', b') := r.value;
                  && a'.nextSend == b'.nextRecv >= a.nextSend && a'.nextRecv == b'.nextSend >= b.nextSend
                  && b'.phase == Continuous && Talking(a')
                  && b'.delivered == b.delivered + AllResent(records, now)
                  && a'.delivered == a.delivered + Apps(pending) && a'.store == a.store && b'.store == b.store)
  {
    hide *;
    var b1 := Asking(a, b, pending, m, now);
    var p, records := Tests(pending), Served(a, b.nextRecv, 0);
    var ctx, pongs := Retrans(b.nextRecv, 0, a.nextSend + p, 0), Pongs(pending, a.nextSend, now);
    var a1 := AnswersThenReply(a, b, pending, m, now);
    PongsAre(pending, a.nextSend, now);
    ExchangeIs(a, b, pending, m, a1, b1, now);
    AllTaken(b1, pongs, a.nextSend, ctx, records, a.nextSend + p, now);
  }

  /** `b` once it has opened the gap. */
  lemma Asking(a: State, b: State, pending: seq<Message>, m: Message, now: nat) returns (b1: State)
    requires Missing(a, b, pending, m, now) && b.phase == Continuous
    ensures Process(b, m, now).0 == b1 && !Process(b, m, now).1.Throws? && 1 <= b.nextRecv
    ensures b1.phase == ResendRequestSent && b1.nextRecv == b.nextRecv + 1 < a.nextSend && b1.cfg == b.cfg
    ensures b1.delivered == b.delivered && b1.store == b.store && b1.nextSend >= b.nextSend
  {
    MissingBounds(a, b, pending, m, now);
    hide *;
    GapWritten(b, m, now);
    ConfigKept(b, m, now);
    b1 := Process(b, m, now).0;
  }

  /** Where `Recovers` holds nobody throws, the ends agree, `a`'s number has not dropped, and `b` was given, in order
      and exactly once, every stored message from the first missing number on. */
  lemma GapCloses(a: State, b: State, pending: seq<Message>, m: Message, now: nat)
    requires Missing(a, b, pending, m, now) && b.phase == Continuous
    ensures var r := Exchange(a, b, pending, m, now);
            && (r.Some? <==> Recovers(a, b, pending))
            && (r.Some? ==>
                  && InStep(r)
                  && var (a', b') := r.value;
                  && a'.nextSend >= a.nextSend && b'.nextSend >= b.nextSend
                  && b'.phase == Continuous && Talking(a')
                  && b'.delivered == b.delivered + AllResent(Served(a, b.nextRecv, 0), now)
                  && a'.delivered == a.delivered + Apps(pending) && a'.store == a.store && b'.store == b.store)
  {
    hide Exchange, AllResent, Served, CanResend, Apps, InFlight, Tests, Absorbs, WideHole, Recovers;
    RecoversWhenAbsorbed(a, b, pending, m, now);
    ExchangeOutcome(a, b, pending, m, now);
  }

  lemma MissingBounds(a: State, b: State, pending: seq<Message>, m: Message, now: nat)
    requires Missing(a, b, pending, m, now)
    ensures Ordinary(m.kind) && m.num.Some? && 1 <= b.nextRecv < m.num.value < a.nextSend
  {}

  lemma ExchangeIs(a: State, b: State, pending: seq<Message>, m: Message, a1: State, b1: State, now: nat)
    requires Process(b, m, now).0 == b1 && !Process(b, m, now).1.Throws?
    requires ProcessAll(a, pending + Written(b, b1), now) == Some(a1)
    ensures var b2 := ProcessAll(b1, Written(a, a1), now);
            Exchange(a, b, pending, m, now) == if b2.None? then None else Some((a1, b2.value))
  {
    hide Process, ProcessAll, Written;
  }

  lemma RecoversWhenAbsorbed(a: State, b: State, pending: seq<Message>, m: Message, now: nat)
    requires Missing(a, b, pending, m, now) && b.phase == Continuous
    ensures var p := Tests(pending);
            Recovers(a, b, pending)
            <==> (p == 0 || b.cfg.ignoreLogonSequenceCheck)
                 && Absorbs(Retrans(b.nextRecv, 0, a.nextSend + p, 0), Served(a, b.nextRecv, 0), p + 1)
  {
    hide Absorbs, WideHole, Requested, InFlight, Tests, Kept;
    var p, records := Tests(pending), Served(a, b.nextRecv, 0);
    var ctx := Retrans(b.nextRecv, 0, a.nextSend + p, 0);
    if p == 0 {
      OneAheadIsAbsorbed(ctx, records);
    } else {
      ServedReplayable(a, b.nextRecv, 0, now);
      ServedBelow(a, b.nextRecv, now);
      AbsorbsWhen(ctx, records, a.nextSend, p, now);
    }
  }

  lemma ServedBelow(a: State, begin: nat, now: nat)
    requires CanResend(a, now)
    ensures forall e <- Served(a, begin, 0) :: e.key < a.nextSend
  {
    if a.store.Some? { SelectExact(a.store.value, begin, LastKey(a.store.value)); }
  }

  lemma ConfigKept(b: State, m: Message, now: nat)
    requires b.phase == Continuous && Ordinary(m.kind) && m.num.Some? && 0 <= b.nextRecv < m.num.value
    ensures Process(b, m, now).0.cfg == b.cfg
  {
    GapOpened(b, m, now);
    hide Process;
  }

  /** While `b` waits for the answer to a TestRequest, a message with too high a number logs it off, or, where the
      configuration ignores such gaps, is counted without being asked for again. */
  lemma GapWhileTesting(b: State, m: Message, now: nat)
    requires b.phase == TestRequestSent && Ordinary(m.kind) && m.num.Some? && 0 <= b.nextRecv < m.num.value
    ensures var (b1, c) := Process(b, m, now);
            && (c.Throws? <==> !b.cfg.ignoreLogonSequenceCheck)
            && (!c.Throws? ==> b1.nextRecv == b.nextRecv + 1 && b1.delivered == b.delivered && b1.cfg == b.cfg
                               && IsEstablished(b1.phase)
                               && b1.wire == b.wire + Pong(b, m, now) && b1.nextSend == b.nextSend + |Pong(b, m, now)|)
  {
    if m.kind.TestRequest? { SendNewEffect(b, Heartbeat(m.kind.id), now); }
    hide Send;
  }

  /** Where the configuration ignores gaps, Heartbeats with too high a number are counted, whatever the phase. */
  lemma {:induction false} BeatsCounted(b: State, ms: seq<Message>, first: nat, now: nat)
    requires b.cfg.ignoreLogonSequenceCheck && IsEstablished(b.phase) && Beats(ms, first) && 0 <= b.nextRecv < first
    ensures var r := ProcessAll(b, ms, now);
            r.Some? && r.value.nextRecv == b.nextRecv + |ms| && r.value.delivered == b.delivered
    decreases |ms|
  {
    hide Process;
    if ms != [] {
      BeatCounted(b, ms[0], now);
      BeatsCounted(Process(b, ms[0], now).0, ms[1..], first + 1, now);
    }
  }

  lemma BeatCounted(b: State, m: Message, now: nat)
    requires b.cfg.ignoreLogonSequenceCheck && IsEstablished(b.phase) && m.kind.Heartbeat?
    requires m.num.Some? && 0 <= b.nextRecv < m.num.value
    ensures var (b1, c) := Process(b, m, now);
            && !c.Throws? && b1.nextRecv == b.nextRecv + 1 && b1.delivered == b.delivered && b1.cfg == b.cfg
            && IsEstablished(b1.phase)
  {}

  /** What became of the exchange then: a logoff, or everything counted and nothing asked for. */
  lemma GapStays(a: State, b: State, pending: seq<Message>, m: Message, now: nat)
    requires Missing(a, b, pending, m, now) && b.phase == TestRequestSent
    ensures var r := Exchange(a, b, pending, m, now);
            && (r.None? <==> !b.cfg.ignoreLogonSequenceCheck)
            && (r.Some? ==> && r.value.1.delivered == b.delivered
                            && r.value.1.nextRecv == b.nextRecv + 1 + |Pongs(pending, a.nextSend, now)|
                            && r.value.0.nextSend == a.nextSend + |Pongs(pending, a.nextSend, now)|)
  {
    hide Process, Apps, Pongs, Tests;
    GapWhileTesting(b, m, now);
    if b.cfg.ignoreLogonSequenceCheck {
      var b1, pong := Process(b, m, now).0, Pong(b, m, now);
      assert Written(b, b1) == pong;
      PongLast(pending, pong, a.nextSend, now);
      PendingTaken(a, pending + pong, now);
      PongsAre(pending, a.nextSend, now);
      var pongs := Pongs(pending, a.nextSend, now);
      assert Written(a, ProcessAll(a, pending + pong, now).value) == pongs;
      BeatsCounted(b1, pongs, a.nextSend, now);
    }
  }

  lemma {:induction false} PongLast(pending: seq<Message>, pong: seq<Message>, next: nat, at: nat)
    requires pong == [] || (|pong| == 1 && pong[0].kind.Heartbeat?)
    ensures Pongs(pending + pong, next, at) == Pongs(pending, next, at) && Tests(pending + pong) == Tests(pending)
  {
    if pending == [] {
      assert pending + pong == pong;
    } else {
      assert (pending + pong)[1..] == pending[1..] + pong;
      PongLast(pending[1..], pong, if pending[0].kind.TestRequest? then next + 1 else next, at);
    }
  }

  /** The exchange brings the two ends into step exactly when `Recovers` holds. */
  lemma GapRecovers(a: State, b: State, pending: seq<Message>, m: Message, now: nat)
    requires Missing(a, b, pending, m, now)
    ensures InStep(Exchange(a, b, pending, m, now)) <==> Recovers(a, b, pending)
  {
    hide Exchange, CanResend, InFlight, AllResent, Served, Apps, Pongs, Tests, WideHole;
    if b.phase == Continuous { GapCloses(a, b, pending, m, now); } else { GapStays(a, b, pending, m, now); }
  }
}
