/**
 Two sessions that are logged on to each other. Every ordinary send and every delivery is one event; the theorems hold
 for every interleaving, with any number of messages on the way in either direction.
 */
module TwoParty {
  import opened Common
  import opened OrderedStore
  import opened Session
  import opened Recovery

  /** `takenByB` counts the messages of `a` that `b` has processed; the rest of `a.wire` is on its way. */
  datatype System = System(a: State, b: State, takenByA: nat, takenByB: nat)

  /** `Emit`: the application or the heartbeat timer sends. `Probe`: the timer sends a TestRequest and waits for the
      answer. `Take`: the peer's oldest message in flight arrives. */
  datatype Event = Emit(kind: Kind, at: nat) | Probe(at: nat) | Take(at: nat)

  /** An event happening at session `b` is the same event at `a` of the mirrored system. */
  function Mirror(s: System): System { System(s.b, s.a, s.takenByB, s.takenByA) }

  function StepA(s: System, ev: Event): System {
    match ev
    case Emit(kind, at) => if Ordinary(kind) then s.(a := SendNew(s.a, kind, at)) else s
    case Probe(at) =>
      if s.a.phase == TestRequestSent then s
      else s.(a := SendNew(s.a, TestRequest("TEST"), at).(phase := TestRequestSent))
    case Take(at) =>
      if s.takenByA < |s.b.wire|
      then s.(a := Process(s.a, s.b.wire[s.takenByA], at).0, takenByA := s.takenByA + 1)
      else s
  }

  function Step(s: System, byA: bool, ev: Event): System {
    if byA then StepA(s, ev) else Mirror(StepA(Mirror(s), ev))
  }

  function Run(s: System, evs: seq<(bool, Event)>): System
    decreases |evs|
  {
    if evs == [] then s else Run(Step(s, evs[0].0, evs[0].1), evs[1..])
  }

  /** The clock never goes back. */
  ghost predicate Timed(evs: seq<(bool, Event)>, start: nat, end: nat) {
    && (forall i :: 0 <= i < |evs| ==> start <= evs[i].1.at <= end)
    && (forall i, j :: 0 <= i < j < |evs| ==> evs[i].1.at <= evs[j].1.at)
  }

  // ---------------------------------------------------------------- what a run keeps

  /** The entries sending `wire`, numbered from `first`, puts in the store. */
  function Filed(wire: seq<Message>, first: nat): Store {
    if wire == [] then []
    else (if wire[0].kind.App? then [Entry(first, wire[0])] else []) + Filed(wire[1..], first + 1)
  }

  /** What was true of the sender when the sessions had logged on. */
  datatype Origin = Origin(first: nat, kept: Store, delivered: seq<Message>)

  ghost predicate Numbered(wire: seq<Message>, first: nat, now: nat) {
    forall i :: 0 <= i < |wire| ==>
      wire[i] == Fresh(wire[i].kind, first + i, wire[i].sent) && Ordinary(wire[i].kind) && wire[i].sent <= now
  }

  /** One direction: everything sent is numbered consecutively, what was taken is a prefix of it. */
  ghost predicate Link(snd: State, rcv: State, taken: nat, o: Origin, now: nat) {
    && 1 <= o.first && taken <= |snd.wire|
    && snd.nextSend == o.first + |snd.wire|
    && rcv.nextRecv == o.first + taken
    && Numbered(snd.wire, o.first, now)
    && rcv.delivered == o.delivered + Apps(snd.wire[..taken])
    && (snd.store.Some? ==> snd.store.value == o.kept + Filed(snd.wire, o.first))
    && (forall e <- o.kept :: Kept(e, now) && e.key < o.first) && Ascending(o.kept)
    && (snd.phase == Continuous || snd.phase == TestRequestSent)
  }

  ghost predicate InTouch(s: System, oa: Origin, ob: Origin, now: nat) {
    Link(s.a, s.b, s.takenByB, oa, now) && Link(s.b, s.a, s.takenByA, ob, now)
  }

  /** An entry is what the sender filed for the message at position `key - first`. */
  predicate FiledAs(e: Entry<Message>, wire: seq<Message>, first: nat) {
    first <= e.key < first + |wire| && e.value == wire[e.key - first] && e.value.kind.App?
  }

  lemma {:induction false} FiledKeys(wire: seq<Message>, first: nat)
    ensures forall e <- Filed(wire, first) :: FiledAs(e, wire, first)
    ensures Ascending(Filed(wire, first))
  {
    if wire != [] {
      var t := Filed(wire[1..], first + 1);
      FiledKeys(wire[1..], first + 1);
      forall e | e in Filed(wire, first) ensures FiledAs(e, wire, first) {
        if e in t { assert FiledAs(e, wire[1..], first + 1); }
      }
      forall e | e in t ensures first < e.key { assert FiledAs(e, wire[1..], first + 1); }
      assert !wire[0].kind.App? ==> Filed(wire, first) == t;
      assert wire[0].kind.App? ==> Filed(wire, first)[1..] == t;
    }
  }

  lemma {:induction false} FiledComplete(wire: seq<Message>, first: nat, i: nat)
    requires i < |wire| && wire[i].kind.App?
    ensures Entry(first + i, wire[i]) in Filed(wire, first)
  {
    if i > 0 { FiledComplete(wire[1..], first + 1, i - 1); }
  }

  lemma FiledCons(m: Message, wire: seq<Message>, first: nat)
    ensures Filed([m] + wire, first) == (if m.kind.App? then [Entry(first, m)] else []) + Filed(wire, first + 1)
    ensures Apps([m] + wire) == (if m.kind.App? then [m] else []) + Apps(wire)
  {
    assert ([m] + wire)[1..] == wire;
  }

  lemma FiledNone(first: nat)
    ensures Filed([], first) == [] && Apps([]) == []
  {}

  lemma {:induction false} FiledConcat(u: seq<Message>, v: seq<Message>, first: nat)
    ensures Filed(u + v, first) == Filed(u, first) + Filed(v, first + |u|)
    ensures Apps(u + v) == Apps(u) + Apps(v)
  {
    hide Filed, Apps;
    FiledNone(first);
    if u == [] {
      assert u + v == v;
    } else {
      FiledConcat(u[1..], v, first + 1);
      FiledCons(u[0], u[1..], first);
      FiledCons(u[0], u[1..] + v, first);
      assert u == [u[0]] + u[1..] && u + v == [u[0]] + (u[1..] + v);
    }
  }

  lemma LinkSend(snd: State, rcv: State, taken: nat, o: Origin, kind: Kind, at: nat)
    requires Link(snd, rcv, taken, o, at) && Ordinary(kind)
    ensures Link(SendNew(snd, kind, at), rcv, taken, o, at)
    ensures SendNew(snd, kind, at).nextRecv == snd.nextRecv && SendNew(snd, kind, at).delivered == snd.delivered
    ensures SendNew(snd, kind, at).phase == snd.phase
  {
    hide SendNew, Send, Apps, Insert, Kept;
    SendNewEffect(snd, kind, at);
    var m := Fresh(kind, snd.nextSend, at);
    FiledConcat(snd.wire, [m], o.first);
    FiledKeys(snd.wire, o.first);
    NumberedMore(snd.wire, [m], o.first, at);
    assert (snd.wire + [m])[..taken] == snd.wire[..taken];
    if snd.store.Some? && kind.App? {
      InsertAtEnd(snd.store.value, snd.nextSend, m);
      assert Filed([m], snd.nextSend) == [Entry(snd.nextSend, m)];
    }
  }

  lemma LinkLater(snd: State, rcv: State, taken: nat, o: Origin, now: nat, later: nat)
    requires Link(snd, rcv, taken, o, now) && now <= later
    ensures Link(snd, rcv, taken, o, later)
  {}

  /** `a` after taking the next message that `b` sent it. */
  function Taken(a: State, m: Message, at: nat): State { Process(a, m, at).0 }

  /** The receiving direction advances by one message; an application message is delivered as it was sent. */
  lemma LinkTake(b: State, a: State, taken: nat, o: Origin, at: nat)
    requires Link(b, a, taken, o, at) && taken < |b.wire| && Talking(a)
    ensures Link(b, Taken(a, b.wire[taken], at), taken + 1, o, at)
  {
    hide Process, Apps, Filed, Kept, Pong;
    var m := b.wire[taken];
    TakeEffect(a, m, at);
    AppsUpTo(b.wire, taken);
    assert o.delivered + (Apps(b.wire[..taken]) + Apps([m])) == o.delivered + Apps(b.wire[..taken]) + Apps([m]);
  }

  lemma AppsUpTo(wire: seq<Message>, k: nat)
    requires k < |wire|
    ensures Apps(wire[..k + 1]) == Apps(wire[..k]) + Apps([wire[k]])
  {
    assert wire[..k + 1] == wire[..k] + [wire[k]];
    FiledConcat(wire[..k], [wire[k]], 0);
  }

  /** Taking a message writes at most the answer to a TestRequest, so the other direction stays in order too. */
  lemma LinkReply(a: State, b: State, takenByB: nat, oa: Origin, taken: nat, ob: Origin, at: nat)
    requires Link(a, b, takenByB, oa, at) && Link(b, a, taken, ob, at) && taken < |b.wire|
    ensures Link(Taken(a, b.wire[taken], at), b, takenByB, oa, at)
  {
    hide Process, Apps, Filed, Kept, Pong;
    var m := b.wire[taken];
    TakeEffect(a, m, at);
    var a1, pong := Taken(a, m, at), Pong(a, m, at);
    FiledConcat(a.wire, pong, oa.first);
    PongFilesNothing(a, m, at, oa.first + |a.wire|);
    NumberedMore(a.wire, pong, oa.first, at);
    assert a1.wire[..takenByB] == a.wire[..takenByB];
    assert oa.kept + Filed(a1.wire, oa.first) == oa.kept + Filed(a.wire, oa.first);
  }

  lemma PongFilesNothing(a: State, m: Message, at: nat, first: nat)
    requires a.nextSend == first
    ensures Filed(Pong(a, m, at), first) == [] && Numbered(Pong(a, m, at), first, at)
  {}

  lemma NumberedMore(u: seq<Message>, v: seq<Message>, first: nat, now: nat)
    requires Numbered(u, first, now) && Numbered(v, first + |u|, now)
    ensures Numbered(u + v, first, now)
  {}

  lemma StepAKeepsTouch(s: System, ev: Event, oa: Origin, ob: Origin)
    requires InTouch(s, oa, ob, ev.at)
    ensures InTouch(StepA(s, ev), oa, ob, ev.at)
  {
    match ev {
      case Emit(kind, at) =>
        if Ordinary(kind) { LinkSend(s.a, s.b, s.takenByB, oa, kind, at); }
        hide SendNew, Process;
      case Probe(at) =>
        LinkSend(s.a, s.b, s.takenByB, oa, TestRequest("TEST"), at);
        hide SendNew, Process;
      case Take(at) =>
        if s.takenByA < |s.b.wire| {
          LinkTake(s.b, s.a, s.takenByA, ob, at);
          LinkReply(s.a, s.b, s.takenByB, oa, s.takenByA, ob, at);
        }
        hide Process, SendNew;
    }
  }

  /** The timer sends no second TestRequest while it waits for the answer to one. */
  lemma OneProbeAtATime(s: System, at: nat)
    ensures StepA(s, Probe(at)).a.phase == TestRequestSent
    ensures s.a.phase == TestRequestSent ==> StepA(s, Probe(at)) == s
  {
    hide SendNew;
  }

  /** No event, and so no interleaving of events, breaks either direction. */
  lemma {:induction false} RunKeepsTouch(s: System, evs: seq<(bool, Event)>, oa: Origin, ob: Origin, start: nat,
          end: nat)
    requires InTouch(s, oa, ob, start) && start <= end && Timed(evs, start, end)
    ensures InTouch(Run(s, evs), oa, ob, end)
    decreases |evs|
  {
    hide StepA, Link;
    if evs == [] {
      LinkLater(s.a, s.b, s.takenByB, oa, start, end);
      LinkLater(s.b, s.a, s.takenByA, ob, start, end);
    } else {
      var (byA, ev) := evs[0];
      LinkLater(s.a, s.b, s.takenByB, oa, start, ev.at);
      LinkLater(s.b, s.a, s.takenByA, ob, start, ev.at);
      if byA {
        StepAKeepsTouch(s, ev, oa, ob);
      } else {
        StepAKeepsTouch(Mirror(s), ev, ob, oa);
      }
      RunKeepsTouch(Step(s, byA, ev), evs[1..], oa, ob, ev.at, end);
    }
  }

  // ---------------------------------------------------------------- whole runs

  /** The moment logon completed: nothing sent yet, each end expects the other's next number. */
  ghost predicate LoggedOn(s: System, oa: Origin, ob: Origin, now: nat) {
    && s.a.wire == [] && s.b.wire == [] && s.takenByA == 0 && s.takenByB == 0
    && Talking(s.a) && Talking(s.b)
    && StartsAt(s.a, s.b, oa, now) && StartsAt(s.b, s.a, ob, now)
  }

  ghost predicate StartsAt(snd: State, rcv: State, o: Origin, now: nat) {
    && snd.nextSend == rcv.nextRecv == o.first >= 1
    && rcv.delivered == o.delivered
    && (snd.store.Some? ==> snd.store.value == o.kept)
    && WellKept(o.kept, o.first, now)
  }

  lemma RunInTouch(s: System, evs: seq<(bool, Event)>, oa: Origin, ob: Origin, start: nat, end: nat)
    requires LoggedOn(s, oa, ob, start) && start <= end && Timed(evs, start, end)
    ensures InTouch(Run(s, evs), oa, ob, end)
  {
    RunKeepsTouch(s, evs, oa, ob, start, end);
  }

  /** In every interleaving of ordinary sends and deliveries, in each direction: what the receiver expects plus what
      is in flight is what the sender will use next; nobody ever asks for a resend; the store holds exactly what it
      held plus the application messages sent, each under its MsgSeqNum; and the application was given exactly the
      application messages taken so far, in the order they were sent. */
  lemma SequenceConservation(s: System, evs: seq<(bool, Event)>, oa: Origin, ob: Origin, start: nat, end: nat)
    requires LoggedOn(s, oa, ob, start) && start <= end && Timed(evs, start, end)
    ensures var t := Run(s, evs);
            && t.takenByB <= |t.a.wire| && t.takenByA <= |t.b.wire|
            && t.b.nextRecv + (|t.a.wire| - t.takenByB) == t.a.nextSend
            && t.a.nextRecv + (|t.b.wire| - t.takenByA) == t.b.nextSend
            && (forall m <- t.a.wire + t.b.wire :: Ordinary(m.kind) && !m.possDup)
            && (t.a.store.Some? ==> t.a.store.value == oa.kept + Filed(t.a.wire, oa.first))
            && (t.b.store.Some? ==> t.b.store.value == ob.kept + Filed(t.b.wire, ob.first))
            && t.b.delivered == oa.delivered + Apps(t.a.wire[..t.takenByB])
            && t.a.delivered == ob.delivered + Apps(t.b.wire[..t.takenByA])
  {
    RunInTouch(s, evs, oa, ob, start, end);
    hide Run, Apps;
    var t := Run(s, evs);
    forall m | m in t.a.wire + t.b.wire ensures Ordinary(m.kind) && !m.possDup {
      assert m in t.a.wire || m in t.b.wire;
    }
  }

  function BodyOf(m: Message): string { if m.kind.App? then m.kind.body else "" }

  function Bodies(ms: seq<Message>): seq<string> { if ms == [] then [] else [BodyOf(ms[0])] + Bodies(ms[1..]) }

  lemma {:induction false} BodiesConcat(u: seq<Message>, v: seq<Message>)
    ensures Bodies(u + v) == Bodies(u) + Bodies(v)
  {
    if u == [] {
      assert u + v == v;
    } else {
      assert (u + v)[1..] == u[1..] + v;
      BodiesConcat(u[1..], v);
    }
  }

  lemma {:induction false} ResentBodies(wire: seq<Message>, first: nat, now: nat)
    ensures Bodies(AllResent(Filed(wire, first), now)) == Bodies(Apps(wire))
  {
    if wire != [] {
      ResentBodies(wire[1..], first + 1, now);
      if wire[0].kind.App? {
        var e := Entry(first, wire[0]);
        assert Filed(wire, first)[1..] == Filed(wire[1..], first + 1);
        assert Apps(wire)[1..] == Apps(wire[1..]);
        assert AllResent(Filed(wire, first), now)[1..] == AllResent(Filed(wire[1..], first + 1), now);
      } else {
        assert Filed(wire, first) == Filed(wire[1..], first + 1) && Apps(wire) == Apps(wire[1..]);
      }
    }
  }

  lemma FiledIsKept(e: Entry<Message>, wire: seq<Message>, first: nat, now: nat)
    requires 1 <= first && FiledAs(e, wire, first) && Numbered(wire, first, now)
    ensures Kept(e, now)
  {}

  lemma LinkCanResend(a: State, b: State, taken: nat, o: Origin, now: nat)
    requires Link(a, b, taken, o, now)
    ensures CanResend(a, now)
  {
    hide Kept, Apps, Filed;
    if a.store.Some? {
      var filed := Filed(a.wire, o.first);
      FiledKeys(a.wire, o.first);
      forall e | e in filed ensures Kept(e, now) && o.first <= e.key < a.nextSend {
        assert FiledAs(e, a.wire, o.first);
        FiledIsKept(e, a.wire, o.first, now);
      }
      AscendingConcat(o.kept, filed, o.first);
    }
  }

  /** What a peer that stopped at number `first + k` gets when it asks for everything from there. */
  lemma FiledFrom(kept: Store, wire: seq<Message>, first: nat, k: nat)
    requires k <= |wire| && forall e <- kept :: e.key < first
    ensures Requested(kept + Filed(wire, first), first + k, 0) == Filed(wire[k..], first + k)
  {
    hide Filed, Apps, Select;
    var before, after := kept + Filed(wire[..k], first), Filed(wire[k..], first + k);
    FiledConcat(wire[..k], wire[k..], first);
    FiledKeys(wire[..k], first);
    FiledKeys(wire[k..], first + k);
    assert wire == wire[..k] + wire[k..];
    var all := kept + Filed(wire, first);
    assert all == before + after;
    SelectConcat(before, after, first + k, LastKey(all));
    forall e | e in before ensures e.key < first + k {
      assert e in kept || FiledAs(e, wire[..k], first);
    }
    SelectNone(before, first + k, LastKey(all));
    forall e | e in after ensures first + k <= e.key <= LastKey(all) {
      assert FiledAs(e, wire[k..], first + k);
    }
    SelectAll(after, first + k, LastKey(all));
  }

  lemma BodiesAdded(before: seq<Message>, wire: seq<Message>, first: nat, k: nat, now: nat)
    requires k <= |wire|
    ensures Bodies(before + Apps(wire[..k]) + AllResent(Filed(wire[k..], first + k), now)) == Bodies(before) + Bodies(Apps(wire))
  {
    hide *;
    ResentBodies(wire[k..], first + k, now);
    FiledConcat(wire[..k], wire[k..], 0);
    BodiesConcat(before + Apps(wire[..k]), AllResent(Filed(wire[k..], first + k), now));
    BodiesConcat(before, Apps(wire[..k]));
    BodiesConcat(Apps(wire[..k]), Apps(wire[k..]));
    assert wire == wire[..k] + wire[k..];
  }

  /** Everything `a` has in flight but its newest message is lost. */
  predicate Loses(t: System) { t.takenByB + 1 < |t.a.wire| && t.takenByA <= |t.b.wire| && 0 <= t.b.nextRecv }

  /** The loss can be recovered from. */
  ghost predicate Recoverable(t: System) { Loses(t) && Recovers(t.a, t.b, Pending(t)) }

  function Newest(t: System): Message
    requires t.a.wire != []
  {
    t.a.wire[|t.a.wire| - 1]
  }

  function Pending(t: System): seq<Message>
    requires t.takenByA <= |t.b.wire|
  {
    t.b.wire[t.takenByA..]
  }

  lemma LinkNewest(t: System, oa: Origin, ob: Origin, now: nat)
    requires InTouch(t, oa, ob, now) && Loses(t)
    ensures Missing(t.a, t.b, Pending(t), Newest(t), now) && t.b.nextRecv == oa.first + t.takenByB
    ensures t.a.store.Some? ==>
              Served(t.a, oa.first + t.takenByB, 0) == Filed(t.a.wire[t.takenByB..], oa.first + t.takenByB)
  {
    hide Filed, Apps, Requested, CanResend, Kept;
    LinkCanResend(t.a, t.b, t.takenByB, oa, now);
    FiledFrom(oa.kept, t.a.wire, oa.first, t.takenByB);
    var pending := Pending(t);
    forall i | 0 <= i < |pending|
      ensures pending[i] == Fresh(pending[i].kind, t.a.nextRecv + i, pending[i].sent) && Ordinary(pending[i].kind)
    {
      assert pending[i] in pending && pending[i] == t.b.wire[t.takenByA + i];
    }
  }

  /** The two sessions after an exchange, with nothing in flight. */
  function AfterExchange(r: (State, State)): System { System(r.0.(wire := []), r.1.(wire := []), 0, 0) }

  function OriginOf(snd: State, rcv: State): Origin
    requires snd.nextSend >= 1
  {
    Origin(snd.nextSend, if snd.store.Some? then snd.store.value else [], rcv.delivered)
  }

  /** After the exchange the two ends are as if they had just logged on, and each has been given all that the other
      sent. */
  ghost predicate Restored(t: System, oa: Origin, ob: Origin, u: System, now: nat) {
    && 1 <= u.a.nextSend && 1 <= u.b.nextSend
    && LoggedOn(u, OriginOf(u.a, u.b), OriginOf(u.b, u.a), now)
    && Bodies(u.b.delivered) == Bodies(oa.delivered) + Bodies(Apps(t.a.wire))
    && Bodies(u.a.delivered) == Bodies(ob.delivered) + Bodies(Apps(t.b.wire))
  }

  lemma TouchRecovers(t: System, oa: Origin, ob: Origin, now: nat)
    requires InTouch(t, oa, ob, now) && Loses(t)
    ensures var r := Exchange(t.a, t.b, Pending(t), Newest(t), now);
            && (InStep(r) <==> Recoverable(t))
            && (Recoverable(t) && t.a.store.Some? ==> Restored(t, oa, ob, AfterExchange(r.value), now))
  {
    LinkNewest(t, oa, ob, now);
    GapRecovers(t.a, t.b, Pending(t), Newest(t), now);
    if Recoverable(t) && t.a.store.Some? { ExchangeRestores(t, oa, ob, now); }
  }

  lemma ExchangeRestores(t: System, oa: Origin, ob: Origin, now: nat)
    requires InTouch(t, oa, ob, now) && Recoverable(t) && t.a.store.Some?
    ensures var r := Exchange(t.a, t.b, Pending(t), Newest(t), now); r.Some? && Restored(t, oa, ob, AfterExchange(r.value), now)
  {
    hide Exchange, CanResend, Served, Filed, Apps, AllResent, Bodies, Numbered, Kept, InFlight, Pending;
    var k := t.takenByB;
    LinkNewest(t, oa, ob, now);
    GapCloses(t.a, t.b, Pending(t), Newest(t), now);
    var r := Exchange(t.a, t.b, Pending(t), Newest(t), now).value;
    BodiesAdded(oa.delivered, t.a.wire, oa.first, k, now);
    PendingDelivered(t, oa, ob, now);
    LinkKept(t.a, t.b, k, oa, now);
    LinkKept(t.b, t.a, t.takenByA, ob, now);
    KeptLonger(t.a, r.0, now);
    KeptLonger(t.b, r.1, now);
  }

  /** The store of a direction is well kept below its next number. */
  lemma LinkKept(snd: State, rcv: State, taken: nat, o: Origin, now: nat)
    requires Link(snd, rcv, taken, o, now)
    ensures snd.store.Some? ==> WellKept(snd.store.value, snd.nextSend, now)
  {
    LinkCanResend(snd, rcv, taken, o, now);
  }

  lemma KeptLonger(before: State, after: State, now: nat)
    requires before.store == after.store && before.nextSend <= after.nextSend
    requires before.store.Some? ==> WellKept(before.store.value, before.nextSend, now)
    ensures WellKept(if after.store.Some? then after.store.value else [], after.nextSend, now)
  {}

  lemma PendingDelivered(t: System, oa: Origin, ob: Origin, now: nat)
    requires InTouch(t, oa, ob, now) && Loses(t)
    ensures t.a.delivered + Apps(Pending(t)) == ob.delivered + Apps(t.b.wire)
    ensures Bodies(ob.delivered + Apps(t.b.wire)) == Bodies(ob.delivered) + Bodies(Apps(t.b.wire))
    ensures t.b.delivered == oa.delivered + Apps(t.a.wire[..t.takenByB])
  {
    hide Apps, Bodies, Numbered, Kept, Filed;
    var u, v := t.b.wire[..t.takenByA], Pending(t);
    FiledConcat(u, v, 0);
    assert t.b.wire == u + v;
    assert ob.delivered + (Apps(u) + Apps(v)) == ob.delivered + Apps(u) + Apps(v);
    BodiesConcat(ob.delivered, Apps(t.b.wire));
  }

  /** Loss at any point of any run. Everything in flight from `a` to `b` except its newest message is lost. When that
      arrives, one exchange brings the two ends into step exactly when the loss is recoverable: `b` is not waiting for
      the answer to a TestRequest, and none of its own is on its way, or it ignores the answers and the reply has room
      for them. Then, if `a` has a store, each end has been given every application message the other ever sent, once
      each and in order, and the two are as if they had just logged on. */
  lemma LossRecovered(s: System, evs: seq<(bool, Event)>, oa: Origin, ob: Origin, start: nat, end: nat)
    requires LoggedOn(s, oa, ob, start) && start <= end && Timed(evs, start, end) && Loses(Run(s, evs))
    ensures var t := Run(s, evs);
            var r := Exchange(t.a, t.b, Pending(t), Newest(t), end);
            && (InStep(r) <==> Recoverable(t))
            && (Recoverable(t) && t.a.store.Some? ==> Restored(t, oa, ob, AfterExchange(r.value), end))
  {
    RunInTouch(s, evs, oa, ob, start, end);
    hide Run, InTouch, LoggedOn, Timed, Restored, Exchange, Loses;
    TouchRecovers(Run(s, evs), oa, ob, end);
  }

  /** `b` asks whether `a` is there; `a` happens to send a Heartbeat, which ends the wait, and then two messages, the
      first of which is lost. */
  function Overtaken(at: nat): seq<(bool, Event)> {
    [(false, Probe(at)), (true, Emit(Heartbeat(""), at)), (false, Take(at)), (true, Emit(App(""), at)),
     (true, Emit(App(""), at))]
  }

  lemma RunStep(s: System, evs: seq<(bool, Event)>, next: System)
    requires evs != [] && Step(s, evs[0].0, evs[0].1) == next
    ensures Run(s, evs) == Run(next, evs[1..])
  {
    hide Step;
  }

  lemma SendFacts(st: State, kind: Kind, at: nat)
    requires Ordinary(kind)
    ensures var st1 := SendNew(st, kind, at);
            && st1.wire == st.wire + [Fresh(kind, st.nextSend, at)] && st1.nextSend == st.nextSend + 1
            && st1.cfg == st.cfg && st1.phase == st.phase && st1.nextRecv == st.nextRecv
  {
    SendNewEffect(st, kind, at);
    hide Send, SendNew, Insert;
  }

  /** Any Heartbeat ends the wait for the answer to a TestRequest. */
  lemma BeatEndsWait(b: State, id: string, at: nat)
    requires b.phase == TestRequestSent && 0 <= b.nextRecv
    ensures Process(b, Fresh(Heartbeat(id), b.nextRecv, at), at).0
         == PersistNumbers(b.(phase := Continuous, nextRecv := b.nextRecv + 1))
  {
    InOrder(b, Heartbeat(id), at, at);
  }

  /** Where that run leads. */
  lemma OvertakenLeads(s: System, at: nat) returns (t: System)
    requires s.a.wire == [] && s.b.wire == [] && s.takenByA == 0 && s.takenByB == 0
    requires s.b.phase == Continuous && s.a.nextSend == s.b.nextRecv
    ensures Run(s, Overtaken(at)) == t && |t.a.wire| == 3 && t.takenByA == 0 && t.takenByB == 1
    ensures t.b.phase == Continuous && t.b.nextRecv == s.b.nextRecv + 1 && t.b.cfg == s.b.cfg
    ensures t.b.wire == [Fresh(TestRequest("TEST"), s.b.nextSend, at)]
  {
    hide SendNew, Process;
    SendFacts(s.b, TestRequest("TEST"), at);
    SendFacts(s.a, Heartbeat(""), at);
    var a1, b1 := SendNew(s.a, Heartbeat(""), at), SendNew(s.b, TestRequest("TEST"), at).(phase := TestRequestSent);
    BeatEndsWait(b1, "", at);
    SendFacts(a1, App(""), at);
    var a2, b2 := SendNew(a1, App(""), at), Process(b1, Fresh(Heartbeat(""), b1.nextRecv, at), at).0;
    SendFacts(a2, App(""), at);
    t := System(SendNew(a2, App(""), at), b2, 0, 1);
    var evs := Overtaken(at);
    RunStep(s, evs, System(s.a, b1, 0, 0));
    RunStep(System(s.a, b1, 0, 0), evs[1..], System(a1, b1, 0, 0));
    RunStep(System(a1, b1, 0, 0), evs[2..], System(a1, b2, 0, 1));
    RunStep(System(a1, b2, 0, 1), evs[3..], System(a2, b2, 0, 1));
    RunStep(System(a2, b2, 0, 1), evs[4..], t);
    assert Run(t, evs[5..]) == t;
  }

  /** From every logon of two idle sessions: after that run `b` is in `Continuous`, but its TestRequest is still on its
      way, and the answer to it logs `b` off, or is counted where the configuration ignores such gaps. */
  lemma AnswerOvertakes(s: System, oa: Origin, ob: Origin, at: nat)
    requires LoggedOn(s, oa, ob, at) && s.a.phase == Continuous && s.b.phase == Continuous
    ensures var t := Run(s, Overtaken(at));
            && Loses(t) && t.b.phase == Continuous && Tests(Pending(t)) == 1
            && (!s.b.cfg.ignoreLogonSequenceCheck ==> Exchange(t.a, t.b, Pending(t), Newest(t), at).None?)
  {
    RunInTouch(s, Overtaken(at), oa, ob, at, at);
    var t := OvertakenLeads(s, at);
    hide Run, Exchange, Link, CanResend, InFlight, WideHole;
    LinkNewest(t, oa, ob, at);
    assert Pending(t) == t.b.wire;
    GapCloses(t.a, t.b, Pending(t), Newest(t), at);
  }

  // ---------------------------------------------------------------- losing again and again

  /** A run, a loss in one direction, and the recovery from it. */
  datatype Round = Round(towardB: bool, evs: seq<(bool, Event)>, at: nat)

  /** The system at the moment of the loss, seen from the end that loses messages. */
  function AtLoss(s: System, r: Round): System { if r.towardB then Run(s, r.evs) else Mirror(Run(s, r.evs)) }

  ghost function NextRound(s: System, r: Round): System {
    var t := AtLoss(s, r);
    if !Recoverable(t) then s
    else
      var e := Exchange(t.a, t.b, Pending(t), Newest(t), r.at);
      if e.None? then s else if r.towardB then AfterExchange(e.value) else Mirror(AfterExchange(e.value))
  }

  ghost predicate Rounds(s: System, rs: seq<Round>, start: nat)
    decreases |rs|
  {
    rs != [] ==>
      && start <= rs[0].at && Timed(rs[0].evs, start, rs[0].at)
      && Recoverable(AtLoss(s, rs[0])) && AtLoss(s, rs[0]).a.store.Some?
      && Rounds(NextRound(s, rs[0]), rs[1..], rs[0].at)
  }

  ghost function After(s: System, rs: seq<Round>): System
    decreases |rs|
  {
    if rs == [] then s else After(NextRound(s, rs[0]), rs[1..])
  }

  /** The application messages that one end sends over all rounds. */
  ghost function SentBy(a: bool, s: System, rs: seq<Round>): seq<Message>
    decreases |rs|
  {
    if rs == [] then []
    else
      var t := Run(s, rs[0].evs);
      Apps(if a then t.a.wire else t.b.wire) + SentBy(a, NextRound(s, rs[0]), rs[1..])
  }

  lemma RoundRestores(s: System, r: Round, oa: Origin, ob: Origin, start: nat)
    requires LoggedOn(s, oa, ob, start) && start <= r.at && Timed(r.evs, start, r.at)
    requires Recoverable(AtLoss(s, r)) && AtLoss(s, r).a.store.Some?
    ensures Restored(Run(s, r.evs), oa, ob, NextRound(s, r), r.at)
  {
    hide Run, LoggedOn, Exchange, Loses, Link, Timed, Pending, Newest, Restored, AfterExchange;
    RunInTouch(s, r.evs, oa, ob, start, r.at);
    var t := Run(s, r.evs);
    if r.towardB {
      ExchangeRestores(t, oa, ob, r.at);
    } else {
      ExchangeRestores(Mirror(t), ob, oa, r.at);
      MirrorRestored(t, oa, ob, NextRound(s, r), r.at);
    }
  }

  /** Being restored is the same seen from either end. */
  lemma MirrorRestored(t: System, oa: Origin, ob: Origin, u: System, now: nat)
    requires Restored(Mirror(t), ob, oa, Mirror(u), now)
    ensures Restored(t, oa, ob, u, now)
  {
    hide WellKept, Bodies, Apps;
  }

  /** Any number of losses in either direction, each recovered from before the next: at the end the sessions are in
      step, and each has been given every application message the other ever sent, once each and in order. */
  lemma {:induction false} RoundsRecover(s: System, rs: seq<Round>, oa: Origin, ob: Origin, start: nat)
    requires LoggedOn(s, oa, ob, start) && Rounds(s, rs, start)
    ensures var u := After(s, rs);
            && u.b.nextRecv == u.a.nextSend && u.a.nextRecv == u.b.nextSend
            && Bodies(u.b.delivered) == Bodies(s.b.delivered) + Bodies(SentBy(true, s, rs))
            && Bodies(u.a.delivered) == Bodies(s.a.delivered) + Bodies(SentBy(false, s, rs))
    decreases |rs|
  {
    hide NextRound, AtLoss, Recoverable, Run, Apps, Bodies, WellKept, Timed;
    if rs == [] {
      NoBodies(s);
    } else {
      var r, u := rs[0], NextRound(s, rs[0]);
      RoundRestores(s, r, oa, ob, start);
      RoundsRecover(u, rs[1..], OriginOf(u.a, u.b), OriginOf(u.b, u.a), r.at);
      var t := Run(s, r.evs);
      BodiesConcat(Apps(t.a.wire), SentBy(true, u, rs[1..]));
      BodiesConcat(Apps(t.b.wire), SentBy(false, u, rs[1..]));
      Regrouped(Bodies(oa.delivered), Bodies(Apps(t.a.wire)), Bodies(SentBy(true, u, rs[1..])));
      Regrouped(Bodies(ob.delivered), Bodies(Apps(t.b.wire)), Bodies(SentBy(false, u, rs[1..])));
    }
  }

  lemma NoBodies(s: System)
    ensures Bodies([]) == [] && Bodies(s.a.delivered) + [] == Bodies(s.a.delivered)
    ensures Bodies(s.b.delivered) + [] == Bodies(s.b.delivered)
  {}

  lemma Regrouped(a: seq<string>, b: seq<string>, c: seq<string>)
    ensures (a + b) + c == a + (b + c)
  {}
}
