/**
 The session layer as values: what one session does with an outgoing message, with an inbound message
 and with a resend request. `Engine.Session` is the object that does it step by step.
 */
module Session {
  import opened Common
  import opened OrderedStore

  datatype Phase =
    | None_ | Continuous | SessionTerminated
    | WaitForLogon | NotLoggedIn | LogonSent | LogonReceived | LogoffSent | LogoffReceived
    | TestRequestSent | SequenceResetSent | SequenceResetReceived
    | ResendRequestSent | ResendRequestReceived

  predicate IsLive(p: Phase) { p != None_ && p != SessionTerminated }

  predicate IsEstablished(p: Phase) {
    p != WaitForLogon && p != NotLoggedIn && p != LogonSent && IsLive(p)
  }

  /** `Garbled` is an inbound message that the decoder refuses with an exception that does not force logoff. */
  datatype Kind =
    | App(body: string)
    | Heartbeat(id: string)
    | TestRequest(id: string)
    | ResendRequest(begin: nat, end: nat)
    | SequenceReset(newSeq: Option<nat>, gapFill: bool)
    | Reject(refSeq: nat)
    | Logout
    | Garbled
  {
    predicate IsAdmin() { !App? }
  }

  /** A message before it is sent (`num` absent unless it was decoded from the store) or on the wire. */
  datatype Message = Message(kind: Kind, num: Option<nat>, possDup: bool, sent: nat, origSent: Option<nat>)

  function NewMessage(kind: Kind): Message { Message(kind, None, false, 0, None) }

  /** Login parameters the modelled handlers consult. */
  datatype Config = Config(ignoreLogonSequenceCheck: bool, silentDisconnect: bool)

  type Store = seq<Entry<Message>>

  /** `store` is absent when no persister is configured; `control` is the persister's record under key 0.
      `wire` is everything written to the connection so far, `delivered` everything given to the application. */
  datatype State = State(
    cfg: Config, nextSend: nat, nextRecv: int, phase: Phase,
    store: Option<Store>, control: Option<(nat, int)>,
    wire: seq<Message>, delivered: seq<Message>, stopped: bool)

  datatype Error =
    | InvalidMsgSequence(got: nat, expected: int) | MsgSequenceTooLow(got: nat, expected: int) | BadSendingTime(orig: nat)

  /** What `sequence_check` and `enforce` do: answer, or throw. */
  datatype Check = Answer(ok: bool) | Throws(error: Error)

  // ---------------------------------------------------------------- outgoing

  /** The message as `send_process` puts it on the wire. A message that already carries a MsgSeqNum came out of the
      store: it keeps the number, gains PossDupFlag and remembers its first sending time. */
  function Stamp(msg: Message, custom: nat, nextSend: nat, now: nat): Message {
    if msg.num.Some? then
      msg.(possDup := true, origSent := Some(msg.sent), sent := now)
    else
      msg.(num := Some(if custom != 0 then custom else nextSend), sent := now)
  }

  function Send(st: State, msg: Message, custom: nat, noIncrement: bool, now: nat): State {
    var out := Stamp(msg, custom, st.nextSend, now);
    var st1 := st.(wire := st.wire + [out]);
    if out.possDup then st1
    else
      var st2 := if st.store.None? then st1 else
                 st1.(store := if msg.kind.IsAdmin() || st.nextSend == 0 then st.store
                               else Some(Insert(st.store.value, st.nextSend, out)),
                      control := Some((st.nextSend + 1, st.nextRecv)));
      if custom == 0 && !noIncrement && !msg.kind.SequenceReset? then st2.(nextSend := st.nextSend + 1) else st2
  }

  /** An ordinary send: automatic number, new message. */
  function SendNew(st: State, kind: Kind, now: nat): State {
    Send(st, NewMessage(kind), 0, false, now)
  }

  function GapFill(newSeq: nat): Message { NewMessage(SequenceReset(Some(newSeq), true)) }

  // ---------------------------------------------------------------- inbound checks

  function SequenceCheck(st: State, n: nat, msg: Message, now: nat): (State, Check) {
    if n > st.nextRecv then
      if st.phase == Continuous then
        var begin := if st.nextRecv < 0 then 0 else st.nextRecv;
        (SendNew(st, ResendRequest(begin, 0), now).(phase := ResendRequestSent), Answer(false))
      else if !st.cfg.ignoreLogonSequenceCheck then (st, Throws(InvalidMsgSequence(n, st.nextRecv)))
      else (st, Answer(false))
    else if n < st.nextRecv && !msg.possDup then (st, Throws(MsgSequenceTooLow(n, st.nextRecv)))
    else if n < st.nextRecv && msg.origSent.Some? && msg.origSent.value > msg.sent then
      (st, Throws(BadSendingTime(msg.origSent.value)))
    else (st, Answer(true))
  }

  /** Answers true when the message FAILS the rules. */
  function Enforce(st: State, n: nat, msg: Message, now: nat): (State, Check) {
    if IsEstablished(st.phase) && !msg.kind.SequenceReset? then
      var (st', c) := SequenceCheck(st, n, msg, now);
      (st', if c.Throws? then c else Answer(!c.ok))
    else (st, Answer(true))
  }

  // ---------------------------------------------------------------- retransmission

  /** Context of one retransmission; `last` is 0 until the first record was sent. */
  datatype Retrans = Retrans(begin: nat, end: nat, interrupted: nat, last: nat)

  /** One stored record: fill the hole before it, then resend it. */
  function ResendRecord(st: State, ctx: Retrans, e: Entry<Message>, now: nat): State {
    var st1 :=
      if ctx.last != 0 then
        if ctx.last + 1 < e.key then Send(st, GapFill(e.key), st.nextSend, false, now) else st
      else if e.key > ctx.begin then Send(st, GapFill(e.key), 0, false, now)
      else st;
    Send(st1, e.value, 0, false, now)
  }

  /** NewSeqNo of the closing gap fill, which also becomes the sender's next number. */
  function ClosingSeq(ctx: Retrans): nat {
    if ctx.last == 0 then if ctx.begin >= ctx.interrupted then ctx.begin + 1 else ctx.interrupted
    else if ctx.last + 1 >= ctx.interrupted then ctx.last + 2 else ctx.interrupted
  }

  /** MsgSeqNum given to the closing gap fill. */
  function ClosingAt(ctx: Retrans): nat { if ctx.last == 0 then ctx.begin else ctx.last + 1 }

  function FinishRetrans(st: State, ctx: Retrans, now: nat): State {
    Send(st, GapFill(ClosingSeq(ctx)), ClosingAt(ctx), false, now)
      .(nextSend := ClosingSeq(ctx), phase := Continuous)
  }

  function Replay(st: State, ctx: Retrans, records: Store, now: nat): State
    decreases |records|
  {
    if records == [] then FinishRetrans(st, ctx, now)
    else Replay(ResendRecord(st, ctx, records[0], now), ctx.(last := records[0].key), records[1..], now)
  }

  /** The range request a persister serves: `to == 0` means up to the last stored number. */
  function Requested(store: Store, begin: nat, end: nat): Store {
    Select(store, begin, if end == 0 then LastKey(store) else end)
  }

  // ---------------------------------------------------------------- inbound messages

  function HandleResendRequest(st: State, n: nat, begin: nat, end: nat, now: nat): State {
    if st.phase == ResendRequestReceived then st
    else if (begin > end && end != 0) || begin == 0 then SendNew(st, Reject(n), now)
    else if st.store.None? then
      var next := if begin >= st.nextSend then begin + 1 else st.nextSend;
      Send(st, GapFill(next), begin, false, now).(nextSend := next)
    else
      Replay(st.(phase := ResendRequestReceived), Retrans(begin, end, st.nextSend, 0),
             Requested(st.store.value, begin, end), now)
  }

  function HandleSequenceReset(st: State, newSeq: Option<nat>): (State, Check) {
    if newSeq.Some? && newSeq.value < st.nextRecv then (st, Throws(MsgSequenceTooLow(newSeq.value, st.nextRecv)))
    else
      var st1 := if newSeq.Some? then st.(nextRecv := newSeq.value - 1) else st;
      (if st1.phase == ResendRequestSent then st1.(phase := Continuous) else st1, Answer(true))
  }

  /** What the handlers that enforce the rules do next; `fails` is what `enforce` answered, and only the application
      handler looks at it. */
  function Handle(st: State, n: nat, msg: Message, fails: bool, now: nat): State {
    match msg.kind
    case App(_) => if fails then st else st.(delivered := st.delivered + [msg])
    case Heartbeat(_) => if st.phase == TestRequestSent then st.(phase := Continuous) else st
    case TestRequest(id) => SendNew(st, Heartbeat(id), now)
    case ResendRequest(begin, end) => HandleResendRequest(st, n, begin, end, now)
    case Logout => st.(stopped := true)
    case _ => st
  }

  /** The handler chosen by message type. */
  function Dispatch(st: State, n: nat, msg: Message, now: nat): (State, Check) {
    if msg.kind.Reject? then (st, Answer(false))
    else
      var (st1, c) := Enforce(st, n, msg, now);
      if c.Throws? then (st1, c)
      else if msg.kind.SequenceReset? then HandleSequenceReset(st1, msg.kind.newSeq)
      else (Handle(st1, n, msg, c.ok, now), Answer(true))
  }

  /** An error that forces logoff: a Logout that consumes no number during logon, then stop. */
  function LogOff(st: State, now: nat): State {
    (if st.phase == LogonReceived && !st.cfg.silentDisconnect then
       Send(st.(phase := SessionTerminated), NewMessage(Logout), 0, true, now).(phase := LogoffSent)
     else st).(stopped := true)
  }

  function PersistNumbers(st: State): State {
    if st.store.None? then st else st.(control := Some((st.nextSend, st.nextRecv)))
  }

  /** One inbound message: `Throws` means the session logged itself off. */
  function Process(st: State, msg: Message, now: nat): (State, Check) {
    var n := if msg.num.Some? then msg.num.value else 0;
    if msg.num.None? || msg.kind.Garbled? then
      var st1 := SendNew(st, Reject(n), now);
      (st1.(nextRecv := st1.nextRecv + 1), Answer(true))
    else
      var (st1, c) := Dispatch(st, n, msg, now);
      if c.Throws? then (LogOff(st1, now), c)
      else (PersistNumbers(st1.(nextRecv := st1.nextRecv + 1)), c)
  }

  /** A restarted session takes its numbers from the control record. */
  function Recover(st: State): State {
    if st.store.Some? && st.control.Some?
    then st.(nextSend := st.control.value.0, nextRecv := st.control.value.1) else st
  }

  /** A whole batch of inbound messages; `None` as soon as one of them logs the session off. */
  function ProcessAll(st: State, msgs: seq<Message>, now: nat): Option<State>
    decreases |msgs|
  {
    if msgs == [] then Some(st)
    else
      var (st1, c) := Process(st, msgs[0], now);
      if c.Throws? then None else ProcessAll(st1, msgs[1..], now)
  }
}
