/**
 The file persister: an index file of fixed-size records and a data file, with the index also held in memory.
 */
module FileStore {
  import opened Common
  import opened Bytes
  import opened OrderedStore

  /** Where a message lies in the data file; for the control record, the two sequence numbers. */
  datatype Prec = Prec(offset: nat, size: nat)

  /** One record of the index file. */
  datatype IPrec = IPrec(num: nat, prec: Prec)

  type Index = seq<Entry<Prec>>

  /** Reading the index file back: the first record of a number wins. */
  function Rebuild(records: seq<IPrec>): Index {
    if records == [] then []
    else Insert(Rebuild(records[..|records| - 1]), records[|records| - 1].num, records[|records| - 1].prec)
  }

  /** The control record is the one under number 0; setting it keeps the order of the index. */
  function SetControl(index: Index, prec: Prec): Index {
    if index != [] && index[0].key == 0 then [Entry(0, prec)] + index[1..] else [Entry(0, prec)] + index
  }

  datatype Put = Control(sender: nat, target: nat) | Message(num: nat, what: Bytes)

  datatype Files = Files(index: Index, indexFile: seq<IPrec>, dataFile: Bytes)

  /** What one call leaves, as the methods below state it. */
  function Apply(f: Files, p: Put): Files {
    match p
    case Control(sender, target) =>
      f.(index := SetControl(f.index, Prec(sender, target)),
         indexFile := [IPrec(0, Prec(sender, target))] + (if f.indexFile == [] then [] else f.indexFile[1..]))
    case Message(num, what) =>
      if num == 0 || Lookup(f.index, num).Some? then f
      else f.(index := Insert(f.index, num, Prec(|f.dataFile|, |what|)),
              indexFile := f.indexFile + [IPrec(num, Prec(|f.dataFile|, |what|))],
              dataFile := f.dataFile + what)
  }

  class FilePersister {
    var index: Index
    var indexFile: seq<IPrec>
    var dataFile: Bytes
    var isOpen: bool

    /** A persister object before `initialise`, over files that may hold data. */
    constructor (indexFile: seq<IPrec>, dataFile: Bytes)
      ensures !isOpen && index == [] && this.indexFile == indexFile && this.dataFile == dataFile
    {
      this.index, this.indexFile, this.dataFile, this.isOpen := [], indexFile, dataFile, false;
    }

    ghost predicate Valid()
      reads this
    {
      Ascending(index) && forall e <- index :: e.key != 0 ==> e.value.offset + e.value.size <= |dataFile|
    }

    ghost function Abs(): Files
      reads this
    {
      Files(index, indexFile, dataFile)
    }

    /** `initialise` on existing files: one pass over the index file. */
    method Initialise()
      requires !isOpen && index == []
      modifies this`index, this`isOpen
      ensures isOpen && index == Rebuild(indexFile) && Ascending(index)
    {
      var i := 0;
      assert indexFile[..0] == [];
      while i < |indexFile|
        invariant i <= |indexFile| && index == Rebuild(indexFile[..i]) && Ascending(index)
      {
        assert indexFile[..i + 1][..i] == indexFile[..i];
        InsertSound(index, indexFile[i].num, indexFile[i].prec);
        index := Insert(index, indexFile[i].num, indexFile[i].prec);
        i := i + 1;
      }
      assert indexFile[..|indexFile|] == indexFile;
      isOpen := true;
    }

    /** Persists the two sequence numbers: always in the first record of the index file. */
    method PutControl(sender: nat, target: nat) returns (ok: bool)
      requires Valid()
      modifies this`index, this`indexFile
      ensures Valid() && ok == isOpen
      ensures Abs() == if isOpen then Apply(old(Abs()), Control(sender, target)) else old(Abs())
    {
      if !isOpen {
        return false;
      }
      var rec := IPrec(0, Prec(sender, target));
      if index != [] && index[0].key == 0 {
        index := [Entry(0, rec.prec)] + index[1..];
      } else {
        index := [Entry(0, rec.prec)] + index;
      }
      indexFile := [rec] + (if indexFile == [] then [] else indexFile[1..]);
      return true;
    }

    /** Persists a message under a number that is not taken. */
    method Put(num: nat, what: Bytes) returns (ok: bool)
      requires Valid()
      modifies this`index, this`indexFile, this`dataFile
      ensures Valid() && (ok <==> isOpen && num != 0 && Lookup(old(index), num).None?)
      ensures Abs() == if isOpen then Apply(old(Abs()), Message(num, what)) else old(Abs())
    {
      if !isOpen || num == 0 {
        return false;
      }
      if Lookup(index, num).Some? {
        return false;
      }
      var rec := IPrec(num, Prec(|dataFile|, |what|));
      InsertSound(index, num, rec.prec);
      indexFile := indexFile + [rec];
      dataFile := dataFile + what;
      index := Insert(index, num, rec.prec);
      return true;
    }

    method Get(num: nat) returns (r: Option<Bytes>)
      requires Valid()
      ensures isOpen ==> r == Fetch(index, dataFile, num)
      ensures !isOpen ==> r == None
    {
      if !isOpen || num == 0 || index == [] {
        return None;
      }
      var at := Lookup(index, num);
      if at.None? {
        return None;
      }
      LookupIsMembership(index, num);
      return Some(dataFile[at.value.offset..at.value.offset + at.value.size]);
    }

    method GetControl() returns (r: Option<(nat, nat)>)
      ensures r == if isOpen && Lookup(index, 0).Some?
                   then Some((Lookup(index, 0).value.offset, Lookup(index, 0).value.size)) else None
    {
      if !isOpen || index == [] || Lookup(index, 0).None? {
        return None;
      }
      var at := Lookup(index, 0).value;
      return Some((at.offset, at.size));
    }
  }

  /** What a lookup finds in the two files. */
  function Fetch(index: Index, data: Bytes, num: nat): Option<Bytes> {
    if num == 0 || Lookup(index, num).None? then None
    else
      var at := Lookup(index, num).value;
      if at.offset + at.size <= |data| then Some(data[at.offset..at.offset + at.size]) else None
  }

  // ---------------------------------------------------------------- runs over a fresh store

  /** A call on the open store, or closing it and opening it again. */
  datatype Op = Call(put: Put) | Reopen

  function Front(ops: seq<Op>): seq<Op>
    requires ops != []
  {
    ops[..|ops| - 1]
  }

  function Last(ops: seq<Op>): Op
    requires ops != []
  {
    ops[|ops| - 1]
  }

  function Step(f: Files, op: Op): Files {
    match op case Call(p) => Apply(f, p) case Reopen => f.(index := Rebuild(f.indexFile))
  }

  function ApplyAll(ops: seq<Op>): Files
    decreases |ops|
  {
    if ops == [] then Files([], [], []) else Step(ApplyAll(Front(ops)), Last(ops))
  }

  /** How a run stands: nothing stored yet; a message stored before any control record; the control record first in
      the index file; or a message overwritten there that only the open store still knows. */
  datatype Standing = Empty | AtRisk | Safe | Hurt

  function StandingAfter(st: Standing, op: Op): Standing {
    match op
    case Reopen => if st == Hurt then Safe else st
    case Call(Control(_, _)) => if st == Empty then Safe else if st == AtRisk then Hurt else st
    case Call(Message(num, _)) => if st == Empty && num != 0 then AtRisk else st
  }

  function StandingOf(ops: seq<Op>): Standing
    decreases |ops|
  {
    if ops == [] then Empty else StandingAfter(StandingOf(Front(ops)), Last(ops))
  }

  /** The number of the first message put. */
  function FirstNumber(ops: seq<Op>): nat
    decreases |ops|
  {
    if ops == [] then 0
    else
      var first, op := FirstNumber(Front(ops)), Last(ops);
      if first == 0 && op.Call? && op.put.Message? then op.put.num else first
  }

  /** The map the store stands for: the first message put under each number, less one that a reopening finds
      overwritten. */
  function Expected(ops: seq<Op>): map<nat, Bytes>
    decreases |ops|
  {
    if ops == [] then map[]
    else
      var m := Expected(Front(ops));
      match Last(ops)
      case Reopen => if StandingOf(Front(ops)) == Hurt then m - {FirstNumber(Front(ops))} else m
      case Call(Control(_, _)) => m
      case Call(Message(num, what)) => if num != 0 && num !in m then m[num := what] else m
  }

  function LastControl(ops: seq<Op>): Option<Prec>
    decreases |ops|
  {
    if ops == [] then None
    else if Last(ops).Call? && Last(ops).put.Control? then Some(Prec(Last(ops).put.sender, Last(ops).put.target))
    else LastControl(Front(ops))
  }

  lemma SetControlLookup(index: Index, prec: Prec, num: nat)
    requires Ascending(index)
    ensures Ascending(SetControl(index, prec))
    ensures Lookup(SetControl(index, prec), num) == if num == 0 then Some(prec) else Lookup(index, num)
  {
    var r := SetControl(index, prec);
    if index != [] && index[0].key == 0 {
      assert r[1..] == index[1..];
    } else {
      assert r[1..] == index;
    }
  }

  lemma NothingStored()
    ensures Ascending<Prec>([]) && forall num :: Lookup<Prec>([], num) == None
  {}

  lemma Appended(data: Bytes, what: Bytes, at: Prec)
    requires at.offset + at.size <= |data|
    ensures (data + what)[at.offset..at.offset + at.size] == data[at.offset..at.offset + at.size]
    ensures (data + what)[|data|..|data| + |what|] == what
  {}

  // ---------------------------------------------------------------- the two indexes at each standing

  /** The control record stands apart in front of the messages. */
  lemma {:induction false} RebuildControl(prec: Prec, tail: seq<IPrec>)
    requires forall i :: 0 <= i < |tail| ==> tail[i].num != 0
    ensures Rebuild([IPrec(0, prec)] + tail) == [Entry(0, prec)] + Rebuild(tail)
    decreases |tail|
  {
    var all := [IPrec(0, prec)] + tail;
    if tail == [] {
      assert all[..0] == [];
    } else {
      var front := tail[..|tail| - 1];
      assert all[..|all| - 1] == [IPrec(0, prec)] + front;
      RebuildControl(prec, front);
      assert ([Entry(0, prec)] + Rebuild(front))[1..] == Rebuild(front);
    }
  }

  lemma {:induction false} RebuildKeys(records: seq<IPrec>, num: nat)
    requires forall i :: 0 <= i < |records| ==> records[i].num != num
    ensures Lookup(Rebuild(records), num) == None && Ascending(Rebuild(records))
  {
    if records != [] {
      var front, r := records[..|records| - 1], records[|records| - 1];
      RebuildKeys(front, num);
      InsertSound(Rebuild(front), r.num, r.prec);
    }
  }

  predicate NoControl(records: seq<IPrec>) { forall i :: 0 <= i < |records| ==> records[i].num != 0 }

  /** A message the live index knows and the index file has lost. */
  predicate Orphan(f: Files, num: nat) {
    num != 0 && Lookup(f.index, num).Some? && forall i :: 0 <= i < |f.indexFile| ==> f.indexFile[i].num != num
  }

  lemma RebuildSnoc(records: seq<IPrec>, r: IPrec)
    ensures Rebuild(records + [r]) == Insert(Rebuild(records), r.num, r.prec)
  {
    assert (records + [r])[..|records|] == records;
  }

  /** The control record is the first record of the index file and no other. */
  predicate Headed(f: Files) { f.indexFile != [] && f.indexFile[0].num == 0 && NoControl(f.indexFile[1..]) }

  /** Reading the index file back gives the open store's index. */
  predicate InSync(f: Files) { f.index == Rebuild(f.indexFile) }

  /** The open store's index and the one read back differ in `num` alone. */
  ghost predicate DifferIn(f: Files, num: nat) {
    Orphan(f, num) && forall k: nat :: k != num ==> Lookup(f.index, k) == Lookup(Rebuild(f.indexFile), k)
  }

  predicate FirstOnly(f: Files, num: nat) {
    && num != 0 && f.indexFile != [] && f.indexFile[0].num == num && NoControl(f.indexFile)
    && Lookup(f.index, num).Some? && forall i :: 1 <= i < |f.indexFile| ==> f.indexFile[i].num != num
  }

  /** What each standing means. */
  ghost predicate Stands(f: Files, st: Standing, first: nat) {
    && Ascending(f.index)
    && match st
       case Empty => f == Files([], [], []) && first == 0
       case AtRisk => FirstOnly(f, first) && InSync(f)
       case Safe => Headed(f) && InSync(f)
       case Hurt => Headed(f) && DifferIn(f, first)
  }

  lemma RebuildNone()
    ensures Rebuild([]) == []
  {}

  lemma {:induction false} RebuildAscending(records: seq<IPrec>)
    ensures Ascending(Rebuild(records))
  {
    if records != [] {
      var front, r := records[..|records| - 1], records[|records| - 1];
      RebuildAscending(front);
      InsertSound(Rebuild(front), r.num, r.prec);
    }
  }

  /** The first record matters to no other number. */
  lemma {:induction false} RebuildTail(r: IPrec, tail: seq<IPrec>, k: nat)
    requires k != r.num
    ensures Lookup(Rebuild([r] + tail), k) == Lookup(Rebuild(tail), k)
    decreases |tail|
  {
    hide Lookup, Insert, Rebuild;
    RebuildNone();
    if tail == [] {
      assert [r] + tail == [] + [r];
      RebuildSnoc([], r);
      InsertSound(Rebuild([]), r.num, r.prec);
    } else {
      var front, last := tail[..|tail| - 1], tail[|tail| - 1];
      RebuildTail(r, front, k);
      assert tail == front + [last] && [r] + tail == ([r] + front) + [last];
      RebuildSnoc(front, last);
      RebuildSnoc([r] + front, last);
      RebuildAscending(front);
      RebuildAscending([r] + front);
      InsertSound(Rebuild(front), last.num, last.prec);
      InsertSound(Rebuild([r] + front), last.num, last.prec);
      if k == last.num { InsertedUnder(Rebuild(front), Rebuild([r] + front), last, k); }
    }
  }

  lemma InsertedUnder(s: Index, t: Index, r: IPrec, k: nat)
    requires Ascending(s) && Ascending(t) && Lookup(s, k) == Lookup(t, k)
    ensures Lookup(Insert(s, r.num, r.prec), k) == Lookup(Insert(t, r.num, r.prec), k)
  {
    hide Lookup, Insert;
    InsertSound(s, r.num, r.prec);
    InsertSound(t, r.num, r.prec);
  }

  /** The index file after a control put. */
  lemma ControlHeads(f: Files, p: Put)
    requires p.Control? && (f.indexFile == [] || NoControl(f.indexFile[1..]))
    ensures var g, tail := Apply(f, p), if f.indexFile == [] then [] else f.indexFile[1..];
            && Headed(g) && g.indexFile[1..] == tail
            && Rebuild(g.indexFile) == [Entry(0, Prec(p.sender, p.target))] + Rebuild(tail)
  {
    hide Rebuild;
    RebuildControl(Prec(p.sender, p.target), if f.indexFile == [] then [] else f.indexFile[1..]);
  }

  /** A control put keeps a headed file in sync. */
  lemma ControlSafe(f: Files, p: Put)
    requires p.Control? && ((f.index == [] && f.indexFile == []) || (Headed(f) && InSync(f)))
    ensures Headed(Apply(f, p)) && InSync(Apply(f, p))
  {
    ControlHeads(f, p);
    RebuildNone();
    hide Rebuild;
    if f.indexFile != [] {
      var tail := f.indexFile[1..];
      assert f.indexFile == [IPrec(0, f.indexFile[0].prec)] + tail;
      RebuildControl(f.indexFile[0].prec, tail);
      assert f.index[1..] == Rebuild(tail);
    }
  }

  /** Written over a message's record, it loses that record and no other. */
  lemma ControlHurts(f: Files, p: Put, num: nat)
    requires p.Control? && Ascending(f.index) && FirstOnly(f, num) && InSync(f)
    ensures Headed(Apply(f, p)) && DifferIn(Apply(f, p), num)
  {
    var prec, tail := Prec(p.sender, p.target), f.indexFile[1..];
    var g := Apply(f, p);
    ControlHeads(f, p);
    forall k: nat ensures Lookup(g.index, k) == if k == 0 then Some(prec) else Lookup(f.index, k) {
      SetControlLookup(f.index, prec, k);
    }
    hide SetControl, Rebuild;
    forall k: nat | k != num ensures Lookup(g.index, k) == Lookup(Rebuild(g.indexFile), k) {
      assert f.indexFile == [f.indexFile[0]] + tail;
      RebuildTail(f.indexFile[0], tail, k);
      ControlFirst(prec, Rebuild(tail), k);
    }
  }

  lemma ControlFirst(prec: Prec, index: Index, k: nat)
    ensures Lookup([Entry(0, prec)] + index, k) == if k == 0 then Some(prec) else Lookup(index, k)
  {
    assert ([Entry(0, prec)] + index)[1..] == index;
  }

  lemma ControlStaysHurt(f: Files, p: Put, num: nat)
    requires p.Control? && Ascending(f.index) && Headed(f) && DifferIn(f, num)
    ensures Headed(Apply(f, p)) && DifferIn(Apply(f, p), num)
  {
    var prec, was, tail := Prec(p.sender, p.target), f.indexFile[0].prec, f.indexFile[1..];
    var g := Apply(f, p);
    ControlHeads(f, p);
    forall k: nat ensures Lookup(g.index, k) == if k == 0 then Some(prec) else Lookup(f.index, k) {
      SetControlLookup(f.index, prec, k);
    }
    assert f.indexFile == [IPrec(0, was)] + tail;
    RebuildControl(was, tail);
    hide SetControl, Rebuild;
    forall k: nat | k != num ensures Lookup(g.index, k) == Lookup(Rebuild(g.indexFile), k) {
      ControlFirst(prec, Rebuild(tail), k);
      ControlFirst(was, Rebuild(tail), k);
    }
  }

  /** A message that is stored adds the same entry to both indexes. */
  lemma MessageStands(f: Files, p: Put, st: Standing, first: nat)
    requires p.Message? && p.num != 0 && Stands(f, st, first) && Lookup(f.index, p.num).None?
    ensures Stands(Apply(f, p), StandingAfter(st, Call(p)), if first == 0 then p.num else first)
  {
    hide Lookup, Rebuild, Insert;
    var g, r := Apply(f, p), IPrec(p.num, Prec(|f.dataFile|, |p.what|));
    RebuildSnoc(f.indexFile, r);
    RebuildNone();
    InsertSound(f.index, r.num, r.prec);
    if st == Empty {
      assert g.indexFile == [r];
    } else if st == Safe {
      assert g.indexFile[1..] == f.indexFile[1..] + [r];
      SafeFirst(f, first);
    } else if st == Hurt {
      assert g.indexFile[1..] == f.indexFile[1..] + [r];
      RebuildAscending(f.indexFile);
      forall k: nat | k != first ensures Lookup(g.index, k) == Lookup(Rebuild(g.indexFile), k) {
        InsertedUnder(f.index, Rebuild(f.indexFile), r, k);
      }
    }
  }

  /** In a store in sync the number of the first message put plays no part. */
  lemma SafeFirst(f: Files, first: nat)
    requires Stands(f, Safe, first)
    ensures forall n: nat :: Stands(f, Safe, n)
  {}

  lemma ReopenStands(f: Files, st: Standing, first: nat)
    requires Stands(f, st, first)
    ensures Stands(Step(f, Reopen), StandingAfter(st, Reopen), first)
  {
    RebuildAscending(f.indexFile);
    hide Rebuild;
    RebuildNone();
  }

  lemma ControlStands(f: Files, p: Put, st: Standing, first: nat)
    requires p.Control? && Stands(f, st, first)
    ensures Stands(Apply(f, p), StandingAfter(st, Call(p)), first)
  {
    hide Lookup, Rebuild, DifferIn, FirstOnly, Headed, InSync, SetControl;
    SetControlLookup(f.index, Prec(p.sender, p.target), 0);
    ControlIndex(f, p);
    match st {
      case Empty => ControlSafe(f, p);
      case AtRisk => ControlHurts(f, p, first);
      case Safe => ControlSafe(f, p);
      case Hurt => ControlStaysHurt(f, p, first);
    }
  }

  lemma ControlIndex(f: Files, p: Put)
    requires p.Control?
    ensures Apply(f, p).index == SetControl(f.index, Prec(p.sender, p.target))
  {}

  /** How the two indexes correspond in every reachable state. */
  lemma {:induction false} StageReached(ops: seq<Op>)
    ensures Stands(ApplyAll(ops), StandingOf(ops), FirstNumber(ops))
    decreases |ops|
  {
    hide Stands, Apply, Lookup;
    if ops == [] {
      NothingStands();
    } else {
      var front, f := Front(ops), ApplyAll(Front(ops));
      StageReached(front);
      match Last(ops) {
        case Reopen => ReopenStands(f, StandingOf(front), FirstNumber(front));
        case Call(p) =>
          if p.Control? {
            ControlStands(f, p, StandingOf(front), FirstNumber(front));
          } else {
            MessageStage(f, p, StandingOf(front), FirstNumber(front));
          }
      }
    }
  }

  lemma NothingStands()
    ensures Stands(Files([], [], []), Empty, 0)
  {}

  lemma MessageStage(f: Files, p: Put, st: Standing, first: nat)
    requires p.Message? && Stands(f, st, first)
    ensures Stands(Apply(f, p), StandingAfter(st, Call(p)), if first == 0 then p.num else first)
  {
    if p.num != 0 && Lookup(f.index, p.num).None? {
      MessageStands(f, p, st, first);
    } else {
      NothingStored();
      hide Lookup, Rebuild;
      if st == Safe { SafeFirst(f, first); }
    }
  }

  // ---------------------------------------------------------------- what a store gives back

  /** The store is a map over every run of puts and reopenings: `get` returns exactly the bytes first put under the
      number, and the control record is the last one put. A reopening loses a message in one standing only, and then
      exactly one. */
  lemma {:induction false} LiveStoreIsMap(ops: seq<Op>, num: nat)
    ensures var f := ApplyAll(ops);
            && Ascending(f.index)
            && Fetch(f.index, f.dataFile, num) == (if num in Expected(ops) then Some(Expected(ops)[num]) else None)
            && (num != 0 ==> (Lookup(f.index, num).Some? <==> num in Expected(ops)))
            && Lookup(f.index, 0) == LastControl(ops)
    decreases |ops|
  {
    hide Insert, SetControl, Ascending, Lookup, Rebuild;
    NothingStored();
    if ops != [] {
      var front := Front(ops);
      var f := ApplyAll(front);
      LiveStoreIsMap(front, num);
      StageReached(front);
      match Last(ops) {
        case Reopen => ReopenGives(f, StandingOf(front), FirstNumber(front), num);
        case Call(Control(sender, target)) =>
          SetControlLookup(f.index, Prec(sender, target), num);
          SetControlLookup(f.index, Prec(sender, target), 0);
        case Call(Message(n, what)) =>
          LiveStoreIsMap(front, n);
          InsertSound(f.index, n, Prec(|f.dataFile|, |what|));
          if num in Expected(front) {
            Appended(f.dataFile, what, Lookup(f.index, num).value);
          }
          Appended(f.dataFile, what, Prec(0, 0));
      }
    }
  }

  /** What a reopening changes. */
  lemma ReopenGives(f: Files, st: Standing, first: nat, num: nat)
    requires Stands(f, st, first)
    ensures var g := Step(f, Reopen);
            && Ascending(g.index) && Lookup(g.index, 0) == Lookup(f.index, 0)
            && Lookup(g.index, num) == if st == Hurt && num == first then None else Lookup(f.index, num)
  {
    RebuildAscending(f.indexFile);
    hide Rebuild, Ascending;
    if st == Hurt { RebuildKeys(f.indexFile, first); }
    RebuildNone();
  }

  /** Reopening gives back the open store's index, and so every message and both sequence numbers, exactly unless a
      message was put before the first control record and the store has not been reopened since that record was put. */
  lemma ReopenExact(ops: seq<Op>)
    ensures Rebuild(ApplyAll(ops).indexFile) == ApplyAll(ops).index <==> StandingOf(ops) != Hurt
  {
    StageReached(ops);
    hide Rebuild;
    RebuildNone();
    if StandingOf(ops) == Hurt { RebuildKeys(ApplyAll(ops).indexFile, FirstNumber(ops)); }
  }

  /** A shortest run that loses a message. */
  lemma MessageLost(what: Bytes, sender: nat, target: nat)
    ensures var ops := [Call(Message(1, what)), Call(Control(sender, target))];
            && (var f := ApplyAll(ops); Fetch(f.index, f.dataFile, 1) == Some(what))
            && (var f := ApplyAll(ops + [Reopen]); Fetch(f.index, f.dataFile, 1) == None)
  {
    hide Fetch, ApplyAll, Lookup, Ascending;
    var first := [Call(Message(1, what))];
    var ops := [Call(Message(1, what)), Call(Control(sender, target))];
    assert Front(first) == [] && Front(ops) == first && Front(ops + [Reopen]) == ops && Last(ops + [Reopen]) == Reopen;
    assert StandingOf([]) == Empty && StandingOf(first) == AtRisk && StandingOf(ops) == Hurt;
    assert FirstNumber([]) == 0 && FirstNumber(first) == 1 && FirstNumber(ops) == 1;
    assert Expected([]) == map[] && Expected(first) == map[1 := what] && Expected(ops) == Expected(first);
    LiveStoreIsMap(ops, 1);
    LiveStoreIsMap(ops + [Reopen], 1);
  }
}
