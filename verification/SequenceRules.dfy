/**
 When a session logs itself off, what an interleaved message does to a recovery, and what a restart brings back.
 */
module SequenceRules {
  import opened Common
  import opened OrderedStore
  import opened Session
  import opened Recovery
  import opened TwoParty

  /** The session is logged on: its rules are enforced. */
  predicate LoggedOnPhase(p: Phase) { p !in {None_, SessionTerminated, WaitForLogon, NotLoggedIn, LogonSent} }

  /** The conditions under which an inbound message is fatal. */
  predicate Fatal(st: State, msg: Message) {
    match msg.kind
    case Reject(_) => false
    case Garbled => false
    case SequenceReset(newSeq, _) => msg.num.Some? && newSeq.Some? && newSeq.value < st.nextRecv
    case _ =>
      && msg.num.Some? && LoggedOnPhase(st.phase)
      && (|| (msg.num.value > st.nextRecv && st.phase != Continuous && !st.cfg.ignoreLogonSequenceCheck)
          || (msg.num.value < st.nextRecv && (!msg.possDup || (msg.origSent.Some? && msg.origSent.value > msg.sent))))
  }

  /** What no handler touches. */
  predicate SameFrame(st: State, st1: State) {
    st1.nextRecv == st.nextRecv && st1.cfg == st.cfg && (st1.store.Some? <==> st.store.Some?)
  }

  /** Nor delivers anything, nor stops. */
  predicate Quiet(st: State, st1: State) {
    SameFrame(st, st1) && st1.delivered == st.delivered && st1.stopped == st.stopped
  }

  lemma RecordFrame(st: State, ctx: Retrans, e: Entry<Message>, now: nat)
    ensures Quiet(st, ResendRecord(st, ctx, e, now))
  {}

  lemma FinishFrame(st: State, ctx: Retrans, now: nat)
    ensures Quiet(st, FinishRetrans(st, ctx, now))
  {}

  lemma {:induction false} ReplayFrame(st: State, ctx: Retrans, records: Store, now: nat)
    ensures Quiet(st, Replay(st, ctx, records, now))
    decreases |records|
  {
    hide ResendRecord, FinishRetrans;
    if records == [] {
      FinishFrame(st, ctx, now);
    } else {
      RecordFrame(st, ctx, records[0], now);
      ReplayFrame(ResendRecord(st, ctx, records[0], now), ctx.(last := records[0].key), records[1..], now);
    }
  }

  lemma ResendFrame(st: State, n: nat, begin: nat, end: nat, now: nat)
    ensures Quiet(st, HandleResendRequest(st, n, begin, end, now))
  {
    hide Replay;
    if st.store.Some? {
      ReplayFrame(st.(phase := ResendRequestReceived), Retrans(begin, end, st.nextSend, 0),
                  Requested(st.store.value, begin, end), now);
    }
  }

  lemma HandleFrame(st: State, n: nat, msg: Message, fails: bool, now: nat)
    ensures var st1 := Handle(st, n, msg, fails, now);
            && SameFrame(st, st1)
            && st1.delivered == st.delivered + (if msg.kind.App? && !fails then [msg] else [])
            && (st1.stopped <==> st.stopped || msg.kind.Logout?)
  {
    hide HandleResendRequest;
    if msg.kind.ResendRequest? { ResendFrame(st, n, msg.kind.begin, msg.kind.end, now); }
  }

  lemma EnforceFrame(st: State, n: nat, msg: Message, now: nat)
    requires msg.num == Some(n) && !msg.kind.Reject? && !msg.kind.Garbled? && !msg.kind.SequenceReset?
    ensures var (st1, c) := Enforce(st, n, msg, now);
            && Quiet(st, st1) && (c.Throws? <==> Fatal(st, msg)) && (c.Throws? ==> st1 == st)
            && (!c.Throws? ==> (c.ok <==> !LoggedOnPhase(st.phase) || n > st.nextRecv))
  {}

  /** An application message in order, or a possible duplicate that is not fatal. */
  predicate Deliverable(st: State, msg: Message) {
    && msg.kind.App? && msg.num.Some? && LoggedOnPhase(st.phase)
    && (msg.num.value == st.nextRecv
        || (msg.num.value < st.nextRecv && msg.possDup && (msg.origSent.None? || msg.origSent.value <= msg.sent)))
  }

  lemma DispatchFrame(st: State, n: nat, msg: Message, now: nat)
    requires msg.num == Some(n) && !msg.kind.Garbled?
    ensures var (st1, c) := Dispatch(st, n, msg, now);
            && (c.Throws? <==> Fatal(st, msg)) && (c.Throws? ==> st1 == st)
            && (st1.store.Some? <==> st.store.Some?)
            && (!msg.kind.SequenceReset? ==> SameFrame(st, st1))
            && (!c.Throws? ==>
                  && (st1.stopped <==> st.stopped || msg.kind.Logout?)
                  && st1.delivered == st.delivered + (if Deliverable(st, msg) then [msg] else []))
  {
    if !msg.kind.SequenceReset? && !msg.kind.Reject? {
      hide Enforce, Handle;
      var (st1, c) := Enforce(st, n, msg, now);
      EnforceFrame(st, n, msg, now);
      if !c.Throws? { HandleFrame(st1, n, msg, c.ok, now); }
    }
  }

  /** A session logs itself off exactly on a fatal message; it then neither counts nor delivers it, and keeps its
      numbers. */
  lemma LogsOffExactly(st: State, msg: Message, now: nat)
    ensures var (st1, c) := Process(st, msg, now);
            && (c.Throws? <==> Fatal(st, msg))
            && (c.Throws? ==> st1.stopped && st1.nextRecv == st.nextRecv && st1.nextSend == st.nextSend
                              && st1.delivered == st.delivered && st1.store == st.store
                              && st1.wire == st.wire + (if SendsLogout(st) then [Fresh(Logout, st.nextSend, now)] else [])
                              && st1.phase == (if SendsLogout(st) then LogoffSent else st.phase))
            && (!c.Throws? && !msg.kind.SequenceReset? ==> st1.nextRecv == st.nextRecv + 1)
            && (!c.Throws? ==> (c.ok <==> !msg.kind.Reject? || msg.num.None?))
  {
    if msg.num.Some? && !msg.kind.Garbled? {
      DispatchFrame(st, msg.num.value, msg, now);
    }
    hide Dispatch;
  }

  /** A session stops exactly on a fatal message or a Logout. */
  lemma StopsExactly(st: State, msg: Message, now: nat)
    ensures Process(st, msg, now).0.stopped <==> st.stopped || Fatal(st, msg) || (msg.num.Some? && msg.kind.Logout?)
  {
    if msg.num.Some? && !msg.kind.Garbled? {
      DispatchFrame(st, msg.num.value, msg, now);
    } else {
      FatalIsWhole(st, msg);
    }
    hide Dispatch, Fatal, Deliverable;
  }

  /** The application is given exactly the deliverable messages. */
  lemma DeliversExactly(st: State, msg: Message, now: nat)
    ensures Process(st, msg, now).0.delivered == st.delivered + (if Deliverable(st, msg) then [msg] else [])
  {
    if msg.num.Some? && !msg.kind.Garbled? {
      DispatchFrame(st, msg.num.value, msg, now);
      NotBoth(st, msg);
    }
    hide Dispatch, Fatal;
  }

  lemma NotBoth(st: State, msg: Message)
    ensures !(Fatal(st, msg) && Deliverable(st, msg))
  {}

  /** A garbled message, or one without a number, is answered with one Reject that refers to it, and counted without
      being persisted; nothing else happens. */
  lemma GarbledIsRejected(st: State, msg: Message, now: nat)
    requires msg.num.None? || msg.kind.Garbled?
    ensures var (st1, c) := Process(st, msg, now);
            && !c.Throws?
            && st1.wire == st.wire + [Fresh(Reject(if msg.num.Some? then msg.num.value else 0), st.nextSend, now)]
            && st1.nextSend == st.nextSend + 1 && st1.nextRecv == st.nextRecv + 1
            && st1.store == st.store && st1.phase == st.phase && st1.stopped == st.stopped && st1.cfg == st.cfg
            && st1.delivered == st.delivered
            && st1.control == (if st.store.None? then st.control else Some((st.nextSend + 1, st.nextRecv)))
  {
    SendNewEffect(st, Reject(if msg.num.Some? then msg.num.value else 0), now);
    hide Send, SendNew, Insert;
  }

  /** The message shows that others before it are missing, and nothing has been done about it yet. */
  predicate OpensGap(st: State, msg: Message) {
    && st.phase == Continuous && msg.num.Some? && msg.num.value > st.nextRecv
    && !msg.kind.Reject? && !msg.kind.SequenceReset?
  }

  /** What a message makes a session ask for, and answer. */
  function Reaction(st: State, msg: Message, now: nat): seq<Message> {
    var ask := if OpensGap(st, msg) then [Fresh(ResendRequest(if st.nextRecv < 0 then 0 else st.nextRecv, 0), st.nextSend, now)]
               else [];
    ask + (if msg.kind.TestRequest? then [Fresh(Heartbeat(msg.kind.id), st.nextSend + |ask|, now)] else [])
  }

  /** The session's state behind a message: what is written, which numbers and which phase it leaves. */
  ghost predicate Reacted(st: State, msg: Message, st1: State, now: nat) {
    && st1.wire == st.wire + Reaction(st, msg, now) && st1.nextSend == st.nextSend + |Reaction(st, msg, now)|
    && st1.nextRecv == (if msg.kind.SequenceReset? && msg.kind.newSeq.Some? then msg.kind.newSeq.value else st.nextRecv + 1)
    && st1.phase == (if msg.kind.SequenceReset? then (if st.phase == ResendRequestSent then Continuous else st.phase)
                     else if OpensGap(st, msg) then ResendRequestSent
                     else if msg.kind.Heartbeat? && st.phase == TestRequestSent then Continuous
                     else st.phase)
    && st1.store == st.store && st1.cfg == st.cfg
    && st1.control == (if st.store.None? then st.control else Some((st1.nextSend, st1.nextRecv)))
  }

  /** All that a message that is neither fatal nor a resend request does to the session. */
  lemma ReactsExactly(st: State, msg: Message, now: nat)
    requires msg.num.Some? && !msg.kind.Garbled? && !msg.kind.ResendRequest? && !Fatal(st, msg)
    ensures Reacted(st, msg, Process(st, msg, now).0, now)
  {
    hide *;
    if msg.kind.SequenceReset? || msg.kind.Reject? {
      ResetReacts(st, msg, now);
    } else {
      var checked, fails := ProcessHandles(st, msg, now);
      if msg.kind.TestRequest? {
        TestReacts(st, checked, msg, fails, now);
      } else {
        HandledReacts(st, checked, msg, fails, now);
      }
    }
  }

  /** What `Process` leaves once the handler is done. */
  function Counted(st: State): State { PersistNumbers(st.(nextRecv := st.nextRecv + 1)) }

  lemma TestReacts(st: State, checked: State, msg: Message, fails: bool, now: nat)
    requires msg.num.Some? && msg.kind.TestRequest? && CheckedFrom(st, msg, checked, now)
    ensures Reacted(st, msg, Counted(Handle(checked, msg.num.value, msg, fails, now)), now)
  {
    SendNewEffect(checked, Heartbeat(msg.kind.id), now);
    hide Send, SendNew, Insert;
  }

  lemma HandledReacts(st: State, checked: State, msg: Message, fails: bool, now: nat)
    requires msg.num.Some? && CheckedFrom(st, msg, checked, now)
    requires msg.kind.App? || msg.kind.Heartbeat? || msg.kind.Logout?
    ensures Reacted(st, msg, Counted(Handle(checked, msg.num.value, msg, fails, now)), now)
  {}

  lemma ResetReacts(st: State, msg: Message, now: nat)
    requires msg.num.Some? && (msg.kind.SequenceReset? || msg.kind.Reject?) && !Fatal(st, msg)
    ensures Reacted(st, msg, Process(st, msg, now).0, now)
  {
    assert Reaction(st, msg, now) == [];
  }

  /** The session after its rules were enforced on a message: it may have asked for the missing ones. */
  ghost predicate CheckedFrom(st: State, msg: Message, st1: State, now: nat) {
    && (!OpensGap(st, msg) ==> st1 == st)
    && (OpensGap(st, msg) ==>
          && st1.wire == st.wire + [Fresh(ResendRequest(if st.nextRecv < 0 then 0 else st.nextRecv, 0), st.nextSend, now)]
          && st1.nextSend == st.nextSend + 1 && st1.phase == ResendRequestSent && st1.nextRecv == st.nextRecv
          && st1.store == st.store && st1.cfg == st.cfg && (st.store.None? ==> st1.control == st.control))
  }

  lemma ProcessHandles(st: State, msg: Message, now: nat) returns (checked: State, fails: bool)
    requires msg.num.Some? && !Fatal(st, msg) && !msg.kind.Reject? && !msg.kind.SequenceReset? && !msg.kind.Garbled?
    ensures CheckedFrom(st, msg, checked, now)
    ensures Process(st, msg, now).0 == Counted(Handle(checked, msg.num.value, msg, fails, now))
  {
    checked, fails := EnforceExactly(st, msg, now);
    hide Enforce, Handle, Fatal;
  }

  lemma EnforceExactly(st: State, msg: Message, now: nat) returns (checked: State, fails: bool)
    requires msg.num.Some? && !Fatal(st, msg) && !msg.kind.Reject? && !msg.kind.SequenceReset? && !msg.kind.Garbled?
    ensures CheckedFrom(st, msg, checked, now) && Enforce(st, msg.num.value, msg, now) == (checked, Answer(fails))
  {
    var ask := ResendRequest(if st.nextRecv < 0 then 0 else st.nextRecv, 0);
    SendNewEffect(st, ask, now);
    hide SendNew, Send, Insert;
    checked := if OpensGap(st, msg) then SendNew(st, ask, now).(phase := ResendRequestSent) else st;
    fails := Enforce(st, msg.num.value, msg, now).1.ok;
  }

  /** A resend request is answered with a Reject if its range is invalid, and with nothing while another is being
      answered. */
  lemma ResendRefused(st: State, n: nat, begin: nat, end: nat, now: nat)
    requires st.phase == ResendRequestReceived || !ValidRange(begin, end)
    ensures var st1 := HandleResendRequest(st, n, begin, end, now);
            if st.phase == ResendRequestReceived then st1 == st
            else st1.wire == st.wire + [Fresh(Reject(n), st.nextSend, now)] && st1.nextSend == st.nextSend + 1
                 && st1.phase == st.phase && st1.store == st.store
  {
    SendNewEffect(st, Reject(n), now);
    hide Send, SendNew, Insert;
  }

  /** Recovery needs the line to itself: the sender's next ordinary message, arriving after the one that opened the
      gap and before the answer, logs the receiver off, unless the configuration ignores such gaps. Then the message
      is counted without being delivered. */
  lemma SecondGap(b: State, m1: Message, m2: Message, now: nat)
    requires b.phase == Continuous && Ordinary(m1.kind) && Ordinary(m2.kind)
    requires m1.num.Some? && m2.num.Some? && 0 <= b.nextRecv < m1.num.value < m2.num.value
    ensures var b1 := Process(b, m1, now).0;
            var (b2, c) := Process(b1, m2, now);
            && (c.Throws? <==> !b.cfg.ignoreLogonSequenceCheck)
            && (!c.Throws? ==> b2.nextRecv == b.nextRecv + 2 && b2.delivered == b.delivered)
  {
    GapWritten(b, m1, now);
    var b1 := Process(b, m1, now).0;
    ConfigKept(b, m1, now);
    LogsOffExactly(b1, m2, now);
    CountedUndelivered(b1, m2, now);
    hide Process;
  }

  /** A message with too high a number that a pending resend lets through is not delivered. */
  lemma CountedUndelivered(b: State, m: Message, now: nat)
    requires b.phase == ResendRequestSent && Ordinary(m.kind) && m.num.Some? && b.nextRecv < m.num.value
    ensures !Process(b, m, now).1.Throws? ==> Process(b, m, now).0.delivered == b.delivered
  {}

  // ---------------------------------------------------------------- restarts

  /** The state a restart brings back: the numbers start at 1 and are taken from the control record. */
  function Restarted(st: State): State { Recover(st.(nextSend := 1, nextRecv := 1)) }

  /** A forced logoff writes a Logout only while the logon is being answered. */
  predicate SendsLogout(st: State) { st.phase == LogonReceived && !st.cfg.silentDisconnect }

  /** After a forced logoff the control record is the one of before, unless a Logout was written: it uses no number,
      but the persisted one counts it all the same. */
  lemma RestartAfterLogOff(st: State, now: nat)
    requires st.store.Some?
    ensures var st1 := LogOff(st, now);
            && (Restarted(st1) == st1 <==> !SendsLogout(st) && Restarted(st) == st)
            && (SendsLogout(st) ==> Restarted(st1).nextSend == st1.nextSend + 1 && Restarted(st1).nextRecv == st1.nextRecv)
  {}

  /** A restart after one inbound message brings back both numbers exactly unless the message was garbled, and is
      rejected and counted without being persisted, or was fatal. After a fatal message it brings them back if it did
      before and no Logout was written. */
  lemma RestartAfterProcess(st: State, msg: Message, now: nat)
    requires st.store.Some?
    ensures var st1 := Process(st, msg, now).0;
            Restarted(st1) == st1 <==>
              && msg.num.Some? && !msg.kind.Garbled?
              && (Fatal(st, msg) ==> !SendsLogout(st) && Restarted(st) == st)
    ensures Fatal(st, msg) && SendsLogout(st) ==>
              Restarted(Process(st, msg, now).0).nextSend == Process(st, msg, now).0.nextSend + 1
  {
    hide Dispatch, LogOff, Fatal, SendsLogout;
    if msg.num.Some? && !msg.kind.Garbled? {
      DispatchFrame(st, msg.num.value, msg, now);
      RestartAfterLogOff(st, now);
    } else {
      FatalIsWhole(st, msg);
    }
  }

  lemma FatalIsWhole(st: State, msg: Message)
    requires msg.num.None? || msg.kind.Garbled?
    ensures !Fatal(st, msg)
  {}

  /** A restart after a send brings back both numbers exactly when the send used the next number. A message from the
      store persists nothing. */
  lemma RestartAfterSend(st: State, msg: Message, custom: nat, noIncrement: bool, now: nat)
    requires st.store.Some?
    ensures var st1 := Send(st, msg, custom, noIncrement, now);
            Restarted(st1) == st1 <==>
              if msg.num.Some? || msg.possDup then Restarted(st) == st
              else custom == 0 && !noIncrement && !msg.kind.SequenceReset?
  {}

  /** A session whose numbers a restart would bring back. */
  predicate Persisted(st: State) { st.store.Some? && Restarted(st) == st }

  lemma StepPersists(s: System, ev: Event, oa: Origin, ob: Origin)
    requires InTouch(s, oa, ob, ev.at) && Persisted(s.a)
    ensures Persisted(StepA(s, ev).a)
  {
    hide Apps, Filed, Kept, Send, Dispatch, Process;
    match ev {
      case Emit(kind, at) => if Ordinary(kind) { SendPersists(s.a, kind, at); }
      case Probe(at) => SendPersists(s.a, TestRequest("TEST"), at);
      case Take(at) =>
        if s.takenByA < |s.b.wire| {
          var m := s.b.wire[s.takenByA];
          RestartAfterProcess(s.a, m, at);
          TakeEffect(s.a, m, at);
        }
    }
  }

  lemma SendPersists(st: State, kind: Kind, now: nat)
    requires st.store.Some? && !kind.SequenceReset?
    ensures Persisted(SendNew(st, kind, now))
  {
    RestartAfterSend(st, NewMessage(kind), 0, false, now);
  }

  /** At any point of any run between two connected sessions, a restart of either brings back its numbers. */
  lemma {:induction false} RestartAtAnyPoint(s: System, evs: seq<(bool, Event)>, oa: Origin, ob: Origin, start: nat,
          end: nat)
    requires InTouch(s, oa, ob, start) && start <= end && Timed(evs, start, end) && Persisted(s.a) && Persisted(s.b)
    ensures Persisted(Run(s, evs).a) && Persisted(Run(s, evs).b)
    decreases |evs|
  {
    hide StepA, Link, Persisted;
    if evs != [] {
      var (byA, ev) := evs[0];
      LinkLater(s.a, s.b, s.takenByB, oa, start, ev.at);
      LinkLater(s.b, s.a, s.takenByA, ob, start, ev.at);
      if byA {
        StepAKeepsTouch(s, ev, oa, ob);
        StepPersists(s, ev, oa, ob);
        StepLeavesPeer(s, ev);
      } else {
        StepAKeepsTouch(Mirror(s), ev, ob, oa);
        StepPersists(Mirror(s), ev, ob, oa);
        StepLeavesPeer(Mirror(s), ev);
      }
      RestartAtAnyPoint(Step(s, byA, ev), evs[1..], oa, ob, ev.at, end);
    }
  }

  lemma StepLeavesPeer(s: System, ev: Event)
    ensures StepA(s, ev).b == s.b
  {}
}
