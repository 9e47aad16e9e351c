/**
 The session object. Its methods update the fields in the order the session does; each is proved to leave
 exactly the state that module `Session` describes.
 */
module Engine {
  import opened Common
  import opened OrderedStore
  import S = Session

  class Session {
    const cfg: S.Config
    var nextSend: nat
    var nextRecv: int
    var phase: S.Phase
    var store: Option<S.Store>
    var control: Option<(nat, int)>
    var wire: seq<S.Message>
    var delivered: seq<S.Message>
    var stopped: bool

    /** A session that has just been started: `atomic_init`, with the persister it was given. */
    constructor (cfg: S.Config, phase: S.Phase, store: Option<S.Store>, control: Option<(nat, int)>)
      requires store.Some? ==> Ascending(store.value) && forall e <- store.value :: e.value.num.Some?
      ensures Valid()
      ensures Abs() == S.State(cfg, 1, 1, phase, store, control, [], [], false)
    {
      this.cfg, this.phase, this.store, this.control := cfg, phase, store, control;
      nextSend, nextRecv, wire, delivered, stopped := 1, 1, [], [], false;
    }

    /** The persister's map is ordered and every stored message carries a number, so that resending it stores
        nothing. */
    ghost predicate Valid()
      reads this
    {
      store.Some? ==> Ascending(store.value) && forall e <- store.value :: e.value.num.Some?
    }

    ghost function Abs(): S.State
      reads this
    {
      S.State(cfg, nextSend, nextRecv, phase, store, control, wire, delivered, stopped)
    }

    /** Takes the numbers back from the control record. */
    method RecoverSeqnums()
      requires Valid()
      modifies this
      ensures Valid()
      ensures Abs() == S.Recover(old(Abs()))
    {
      if store.Some? && control.Some? {
        nextSend, nextRecv := control.value.0, control.value.1;
      }
    }

    method SendProcess(tosend: S.Message, custom: nat, noIncrement: bool, now: nat)
      requires Valid()
      modifies this
      ensures Valid()
      ensures Abs() == S.Send(old(Abs()), tosend, custom, noIncrement, now)
    {
      var msg := tosend;
      var isDup := msg.possDup;
      if msg.num.Some? {
        if !isDup {
          msg, isDup := msg.(possDup := true), true;
        }
        msg := msg.(origSent := Some(msg.sent));
      } else {
        msg := msg.(num := Some(if custom != 0 then custom else nextSend));
      }
      msg := msg.(sent := now);
      wire := wire + [msg];
      if !isDup {
        if store.Some? {
          if !msg.kind.IsAdmin() && nextSend != 0 {
            InsertSound(store.value, nextSend, msg);
            store := Some(Insert(store.value, nextSend, msg));
          }
          var next: nat := nextSend + 1;
          control := Some((next, nextRecv));
        }
        if custom == 0 && !noIncrement && !msg.kind.SequenceReset? {
          nextSend := nextSend + 1;
        }
      }
    }

    method SequenceCheck(n: nat, msg: S.Message, now: nat) returns (c: S.Check)
      requires Valid()
      modifies this
      ensures Valid()
      ensures (Abs(), c) == S.SequenceCheck(old(Abs()), n, msg, now)
    {
      if n > nextRecv {
        if phase == S.Continuous {
          SendProcess(S.NewMessage(S.ResendRequest(if nextRecv < 0 then 0 else nextRecv, 0)), 0, false, now);
          phase := S.ResendRequestSent;
        } else if !cfg.ignoreLogonSequenceCheck {
          return S.Throws(S.InvalidMsgSequence(n, nextRecv));
        }
        return S.Answer(false);
      }
      if n < nextRecv {
        if !msg.possDup {
          return S.Throws(S.MsgSequenceTooLow(n, nextRecv));
        }
        if msg.origSent.Some? && msg.origSent.value > msg.sent {
          return S.Throws(S.BadSendingTime(msg.origSent.value));
        }
      }
      return S.Answer(true);
    }

    method Enforce(n: nat, msg: S.Message, now: nat) returns (c: S.Check)
      requires Valid()
      modifies this
      ensures Valid()
      ensures (Abs(), c) == S.Enforce(old(Abs()), n, msg, now)
    {
      if S.IsEstablished(phase) && !msg.kind.SequenceReset? {
        c := SequenceCheck(n, msg, now);
        if c == S.Answer(true) {
          return S.Answer(false);
        } else if c.Throws? {
          return;
        }
      }
      return S.Answer(true);
    }

    method HandleSequenceReset(newSeq: Option<nat>) returns (c: S.Check)
      requires Valid()
      modifies this
      ensures Valid()
      ensures (Abs(), c) == S.HandleSequenceReset(old(Abs()), newSeq)
    {
      if newSeq.Some? {
        if newSeq.value >= nextRecv {
          nextRecv := newSeq.value - 1;
        } else {
          return S.Throws(S.MsgSequenceTooLow(newSeq.value, nextRecv));
        }
      }
      if phase == S.ResendRequestSent {
        phase := S.Continuous;
      }
      return S.Answer(true);
    }

    /** One call with a stored record, or with none: the end of the retransmission. */
    method RetransCallback(record: Option<Entry<S.Message>>, rctx: S.Retrans, now: nat) returns (last: nat)
      requires Valid()
      modifies this
      ensures Valid()
      ensures record.Some? ==>
                last == record.value.key && Abs() == S.ResendRecord(old(Abs()), rctx, record.value, now)
      ensures record.None? ==> last == rctx.last && Abs() == S.FinishRetrans(old(Abs()), rctx, now)
    {
      last := rctx.last;
      if record.None? {
        var newSeq: nat;
        if last == 0 {
          newSeq := if rctx.begin >= rctx.interrupted then rctx.begin + 1 else rctx.interrupted;
          SendProcess(S.GapFill(newSeq), rctx.begin, false, now);
        } else {
          newSeq := if last + 1 >= rctx.interrupted then last + 2 else rctx.interrupted;
          SendProcess(S.GapFill(newSeq), last + 1, false, now);
        }
        nextSend := newSeq;
        phase := S.Continuous;
        return;
      }
      var key := record.value.key;
      if last != 0 {
        if last + 1 < key {
          SendProcess(S.GapFill(key), nextSend, false, now);
        }
      } else if key > rctx.begin {
        SendProcess(S.GapFill(key), 0, false, now);
      }
      last := key;
      SendProcess(record.value.value, 0, false, now);
    }

    /** The persister's range request with this session as its callback. */
    method RangeGet(begin: nat, end: nat, now: nat)
      requires store.Some? && 1 <= begin
      requires Valid()
      modifies this
      ensures Valid()
      ensures Abs() == S.Replay(old(Abs()), S.Retrans(begin, end, old(nextSend), 0),
                                S.Requested(old(store).value, begin, end), now)
    {
      hide S.FinishRetrans, S.ResendRecord, S.Replay, Select, Ascending;
      var records := store.value;
      var lastKey := LastKey(records);
      var start := FindNearest(records, begin, lastKey);
      var finish := if end == 0 then lastKey else end;
      var rctx := S.Retrans(begin, end, nextSend, 0);
      ghost var st0, wanted := Abs(), Select(records, begin, finish);
      if start == 0 || begin > finish {
        NothingInRange(records, begin, finish, start);
        ReplayNone(Abs(), rctx, now);
        var _ := RetransCallback(None, rctx, now);
        return;
      }
      var i := IndexOf(records, start);
      SelectFrom(records, begin, finish, i);
      KeysFrom(records, begin, i);
      while i < |records| && records[i].key <= finish
        invariant i <= |records| && Valid()
        invariant forall j :: i <= j < |records| ==> begin <= records[j].key
        invariant S.Replay(st0, S.Retrans(begin, end, st0.nextSend, 0), wanted, now)
               == S.Replay(Abs(), rctx, Select(records[i..], begin, finish), now)
      {
        RangeStep(Abs(), rctx, records, begin, finish, i, now);
        var last := RetransCallback(Some(records[i]), rctx, now);
        rctx := rctx.(last := last);
        i := i + 1;
      }
      RangeEnd(Abs(), rctx, records, begin, finish, i, now);
      var _ := RetransCallback(None, rctx, now);
    }

    method HandleResendRequest(n: nat, begin: nat, end: nat, now: nat)
      requires Valid()
      modifies this
      ensures Valid()
      ensures Abs() == S.HandleResendRequest(old(Abs()), n, begin, end, now)
    {
      if phase != S.ResendRequestReceived {
        if (begin > end && end != 0) || begin == 0 {
          SendProcess(S.NewMessage(S.Reject(n)), 0, false, now);
        } else if store.None? {
          var next := if begin >= nextSend then begin + 1 else nextSend;
          SendProcess(S.GapFill(next), begin, false, now);
          nextSend := next;
        } else {
          phase := S.ResendRequestReceived;
          RangeGet(begin, end, now);
        }
      }
    }

    method Dispatch(n: nat, msg: S.Message, now: nat) returns (c: S.Check)
      requires Valid()
      modifies this
      ensures Valid()
      ensures (Abs(), c) == S.Dispatch(old(Abs()), n, msg, now)
    {
      hide S.Handle, S.Enforce, S.HandleSequenceReset;
      if msg.kind.Reject? {
        c := S.Answer(false);
      } else {
        c := Enforce(n, msg, now);
        if c.Throws? {
        } else if msg.kind.SequenceReset? {
          c := HandleSequenceReset(msg.kind.newSeq);
        } else {
          Handle(n, msg, c.ok, now);
          c := S.Answer(true);
        }
      }
    }

    method LogOff(now: nat)
      requires Valid()
      modifies this
      ensures Valid()
      ensures Abs() == S.LogOff(old(Abs()), now)
    {
      if phase == S.LogonReceived && !cfg.silentDisconnect {
        phase := S.SessionTerminated;
        SendProcess(S.NewMessage(S.Logout), 0, true, now);
        phase := S.LogoffSent;
      }
      stopped := true;
    }

    /** Handles one inbound message; a thrown error ends in logoff. */
    method Process(msg: S.Message, now: nat) returns (c: S.Check)
      requires Valid()
      modifies this
      ensures Valid()
      ensures (Abs(), c) == S.Process(old(Abs()), msg, now)
    {
      hide S.Dispatch, S.LogOff, S.Send;
      var n := if msg.num.Some? then msg.num.value else 0;
      if msg.num.None? || msg.kind.Garbled? {
        SendProcess(S.NewMessage(S.Reject(n)), 0, false, now);
        nextRecv := nextRecv + 1;
        return S.Answer(true);
      }
      c := Dispatch(n, msg, now);
      if c.Throws? {
        LogOff(now);
        return;
      }
      nextRecv := nextRecv + 1;
      if store.Some? {
        control := Some((nextSend, nextRecv));
      }
    }

    method Handle(n: nat, msg: S.Message, fails: bool, now: nat)
      requires Valid()
      modifies this
      ensures Valid()
      ensures Abs() == S.Handle(old(Abs()), n, msg, fails, now)
    {
      match msg.kind
      case App(_) =>
        if !fails {
          delivered := delivered + [msg];
        }
      case Heartbeat(_) =>
        if phase == S.TestRequestSent {
          phase := S.Continuous;
        }
      case TestRequest(id) =>
        SendProcess(S.NewMessage(S.Heartbeat(id)), 0, false, now);
      case ResendRequest(begin, end) =>
        HandleResendRequest(n, begin, end, now);
      case Logout =>
        stopped := true;
      case _ =>
    }
  }

  /** The linear search for the first stored number at or after `requested`; 0 when there is none. */
  method FindNearest(records: S.Store, requested: nat, last: nat) returns (start: nat)
    requires Ascending(records) && last == LastKey(records) && 1 <= requested
    ensures start == 0 <==> forall e <- records :: e.key < requested
    ensures start != 0 ==> requested <= start && Lookup(records, start).Some?
                           && forall e <- records :: e.key < requested || start <= e.key
  {
    if last != 0 {
      var n := requested;
      while n <= last
        invariant requested <= n
        invariant forall e <- records :: e.key < requested || n <= e.key
      {
        LookupIsMembership(records, n);
        if Lookup(records, n).Some? {
          return n;
        }
        n := n + 1;
      }
    }
    return 0;
  }

  method IndexOf(records: S.Store, key: nat) returns (i: nat)
    requires Lookup(records, key).Some? && Ascending(records)
    ensures i < |records| && records[i].key == key
  {
    LookupIsMembership(records, key);
    i := 0;
    while records[i].key != key
      invariant i < |records| && exists j :: i <= j < |records| && records[j].key == key
      decreases |records| - i
    {
      i := i + 1;
    }
  }

  lemma NothingInRange(records: S.Store, begin: nat, finish: nat, start: nat)
    requires Ascending(records)
    requires (start == 0 && forall e <- records :: e.key < begin) || begin > finish
    ensures Select(records, begin, finish) == []
  {
    SelectNone(records, begin, finish);
  }

  lemma ReplayNone(st: S.State, rctx: S.Retrans, now: nat)
    ensures S.Replay(st, rctx, [], now) == S.FinishRetrans(st, rctx, now)
  {}

  /** One turn of the range loop. */
  lemma RangeStep(st: S.State, rctx: S.Retrans, records: S.Store, begin: nat, finish: nat, i: nat, now: nat)
    requires i < |records| && begin <= records[i].key <= finish && records[i].value.num.Some?
    ensures S.Replay(st, rctx, Select(records[i..], begin, finish), now)
         == S.Replay(S.ResendRecord(st, rctx, records[i], now), rctx.(last := records[i].key),
                     Select(records[i + 1..], begin, finish), now)
  {
    hide S.FinishRetrans, S.ResendRecord;
    var rest := Select(records[i + 1..], begin, finish);
    assert records[i..][1..] == records[i + 1..];
    assert Select(records[i..], begin, finish) == [records[i]] + rest;
    assert ([records[i]] + rest)[1..] == rest;
  }

  lemma RangeEnd(st: S.State, rctx: S.Retrans, records: S.Store, begin: nat, finish: nat, i: nat, now: nat)
    requires Ascending(records) && i <= |records| && (i < |records| ==> records[i].key > finish)
    ensures S.Replay(st, rctx, Select(records[i..], begin, finish), now) == S.FinishRetrans(st, rctx, now)
  {
    SelectNone(records[i..], begin, finish);
  }

  lemma KeysFrom(records: S.Store, begin: nat, i: nat)
    requires Ascending(records) && i < |records| && begin <= records[i].key
    ensures forall j :: i <= j < |records| ==> begin <= records[j].key
  {}

  lemma SelectFrom(records: S.Store, begin: nat, finish: nat, i: nat)
    requires Ascending(records) && i < |records|
    requires forall e <- records :: e.key < begin || records[i].key <= e.key
    ensures Select(records, begin, finish) == Select(records[i..], begin, finish)
  {
    assert records == records[..i] + records[i..];
    SelectConcat(records[..i], records[i..], begin, finish);
    SelectNone(records[..i], begin, finish);
  }
}
