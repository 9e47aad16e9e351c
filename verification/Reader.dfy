/**
 The reader's loops over a socket that delivers the stream in pieces of its own choosing: the plain `sockRead`, the
 buffered one that refines it, and `read`.
 */
module Reader {
  import opened Common
  import opened Bytes
  import C = Codec
  import CodecEngine
  import Frame
  import opened Framing

  /** The receiving end of the transport: the bytes that will still arrive before the peer closes. */
  class Socket {
    var stream: Bytes

    constructor (stream: Bytes)
      ensures this.stream == stream
    {
      this.stream := stream;
    }

    /** `receiveBytes`: at least one byte, at most `max`, as many as the network happens to have; none at the end.
        A call that would block is not a call. */
    method Receive(max: nat) returns (got: Bytes)
      requires max > 0
      modifies this
      ensures old(stream) == got + stream && |got| <= max && (got == [] <==> old(stream) == [])
    {
      if stream == [] {
        return [];
      }
      var n :| 1 <= n <= max && n <= |stream|;
      got, stream := stream[..n], stream[n..];
    }
  }

  /** The plain `sockRead`: exactly `sz` bytes, or the connection is gone. */
  method SockRead(sock: Socket, sz: nat) returns (ok: bool, got: Bytes)
    modifies sock
    ensures ok <==> |old(sock.stream)| >= sz
    ensures ok ==> |got| == sz && old(sock.stream) == got + sock.stream
  {
    got := [];
    while |got| < sz
      invariant |got| <= sz && old(sock.stream) == got + sock.stream
    {
      var piece := sock.Receive(sz - |got|);
      if piece == [] {
        return false, got;
      }
      got := got + piece;
    }
    return true, got;
  }

  /** The buffered reader: `rptr` and `wptr` delimit what has been received and not yet handed out. */
  class BufferedReader {
    const sock: Socket
    const buffer: array<byte>
    var rptr: nat
    var wptr: nat

    ghost predicate Valid()
      reads this
    {
      buffer.Length == 2 * MAX_MSG_LEN && rptr < MAX_MSG_LEN && rptr <= wptr <= 2 * MAX_MSG_LEN
    }

    /** All bytes the callers have not had yet: the window, then the socket. */
    ghost function Unread(): Bytes
      requires Valid()
      reads this, buffer, sock
    {
      buffer[rptr..wptr] + sock.stream
    }

    constructor (sock: Socket)
      ensures Valid() && fresh(buffer) && this.sock == sock && Unread() == sock.stream
    {
      this.sock := sock;
      buffer := new byte[2 * MAX_MSG_LEN];
      rptr, wptr := 0, 0;
    }

    /** `realSockRead`: at least `sz` more bytes into the window, as long as the stream lasts. */
    method Fill(sz: nat) returns (ok: bool)
      requires buffer.Length == 2 * MAX_MSG_LEN && rptr <= wptr && wptr + sz <= 2 * MAX_MSG_LEN && sz <= MAX_MSG_LEN
      modifies this`wptr, buffer, sock
      ensures rptr <= wptr <= 2 * MAX_MSG_LEN
      ensures buffer[rptr..wptr] + sock.stream == old(buffer[rptr..wptr] + sock.stream)
      ensures ok <==> |old(sock.stream)| >= sz
      ensures ok ==> wptr >= old(wptr) + sz
    {
      var room := 2 * MAX_MSG_LEN - wptr;
      var maxRemaining: int := if MAX_MSG_LEN < room then MAX_MSG_LEN else room;
      var remaining: int := if sz < room then sz else room;
      ghost var all := buffer[rptr..wptr] + sock.stream;
      while remaining > 0 && wptr < 2 * MAX_MSG_LEN
        invariant old(wptr) <= wptr <= 2 * MAX_MSG_LEN
        invariant remaining == sz - (wptr - old(wptr)) <= maxRemaining && maxRemaining <= 2 * MAX_MSG_LEN - wptr
        invariant buffer[rptr..wptr] + sock.stream == all
        invariant |sock.stream| == |old(sock.stream)| - (wptr - old(wptr))
        decreases |sock.stream|
      {
        var got := sock.Receive(maxRemaining);
        if got == [] {
          return false;
        }
        Store(got);
        remaining, maxRemaining := remaining - |got|, maxRemaining - |got|;
      }
      return true;
    }

    /** The bytes land in the buffer at `wptr`. */
    method Store(got: Bytes)
      requires buffer.Length == 2 * MAX_MSG_LEN && rptr <= wptr && wptr + |got| <= 2 * MAX_MSG_LEN
      modifies this`wptr, buffer
      ensures wptr == old(wptr) + |got| && buffer[rptr..wptr] == old(buffer[rptr..wptr]) + got
    {
      ghost var before := buffer[rptr..wptr];
      for i := 0 to |got|
        invariant wptr == old(wptr) && buffer[rptr..wptr + i] == before + got[..i]
      {
        buffer[wptr + i] := got[i];
        assert buffer[rptr..wptr + i + 1] == buffer[rptr..wptr + i] + [buffer[wptr + i]];
        assert got[..i + 1] == got[..i] + [got[i]];
      }
      assert got[..|got|] == got;
      wptr := wptr + |got|;
    }

    /** The buffered `sockRead`: the same contract as the plain one, over the pending bytes. */
    method Read(sz: nat) returns (ok: bool, got: Bytes)
      requires Valid() && sz <= MAX_MSG_LEN
      modifies this, buffer, sock
      ensures Valid()
      ensures ok <==> |old(Unread())| >= sz
      ensures ok ==> |got| == sz && old(Unread()) == got + Unread()
      ensures !ok ==> Unread() == old(Unread())
    {
      var available := wptr - rptr;
      if available < sz {
        var filled := Fill(sz - available);
        if !filled {
          return false, [];
        }
      }
      ghost var pending := buffer[rptr..wptr] + sock.stream;
      got := buffer[rptr..rptr + sz];
      rptr := rptr + sz;
      assert pending == got + (buffer[rptr..wptr] + sock.stream);
      if rptr >= MAX_MSG_LEN {
        Shift();
      }
      return true, got;
    }

    /** The second half of the buffer moves down over the first. */
    method Shift()
      requires buffer.Length == 2 * MAX_MSG_LEN && MAX_MSG_LEN <= rptr <= wptr <= 2 * MAX_MSG_LEN
      modifies this, buffer
      ensures rptr == old(rptr) - MAX_MSG_LEN && wptr == old(wptr) - MAX_MSG_LEN
      ensures buffer[rptr..wptr] == old(buffer[rptr..wptr])
    {
      forall i | 0 <= i < MAX_MSG_LEN {
        buffer[i] := buffer[MAX_MSG_LEN + i];
      }
      rptr, wptr := rptr - MAX_MSG_LEN, wptr - MAX_MSG_LEN;
    }
  }

  function Total(requests: seq<nat>): nat {
    if requests == [] then 0 else Total(requests[..|requests| - 1]) + requests[|requests| - 1]
  }

  /** Any run of requests that the stream can serve: what was handed out, end to end, is the stream's own prefix. */
  method Serve(b: BufferedReader, requests: seq<nat>) returns (out: Bytes)
    requires b.Valid() && (forall sz <- requests :: sz <= MAX_MSG_LEN) && Total(requests) <= |b.Unread()|
    modifies b, b.buffer, b.sock
    ensures b.Valid() && out == old(b.Unread())[..Total(requests)]
    ensures b.Unread() == old(b.Unread())[Total(requests)..]
  {
    hide Total;
    out := [];
    ghost var all := b.Unread();
    assert [] + all == all;
    TotalStep(requests, 0);
    for i := 0 to |requests|
      invariant b.Valid() && |out| == Total(requests[..i]) && all == out + b.Unread()
    {
      TotalStep(requests, i);
      TotalGrows(requests, i + 1);
      assert requests[i] in requests;
      var ok, got := b.Read(requests[i]);
      assert (out + got) + b.Unread() == out + (got + b.Unread());
      out := out + got;
    }
    assert requests[..|requests|] == requests;
    SplitAt(all, out, b.Unread());
  }

  lemma TotalStep(requests: seq<nat>, i: nat)
    requires i <= |requests|
    ensures Total([]) == 0 && requests[..0] == []
    ensures i < |requests| ==> Total(requests[..i + 1]) == Total(requests[..i]) + requests[i]
  {
    if i < |requests| { assert requests[..i + 1][..i] == requests[..i]; }
  }

  lemma SplitAt(all: Bytes, u: Bytes, v: Bytes)
    requires all == u + v
    ensures all[..|u|] == u && all[|u|..] == v
  {}

  lemma {:induction false} TotalGrows(requests: seq<nat>, i: nat)
    requires i <= |requests|
    ensures Total(requests[..i]) <= Total(requests)
    decreases |requests|
  {
    if i == |requests| {
      assert requests[..i] == requests;
    } else {
      assert requests[..|requests| - 1][..i] == requests[..i];
      TotalGrows(requests[..|requests| - 1], i);
    }
  }

  // ---------------------------------------------------------------- reading messages

  /** What the reader reads from: the socket itself, or the buffer over it. */
  datatype Input = Plain(sock: Socket) | Buffered(reader: BufferedReader)

  ghost function Footprint(input: Input): set<object> {
    match input
    case Plain(sock) => {sock}
    case Buffered(reader) => {reader, reader.buffer, reader.sock}
  }

  ghost predicate Ready(input: Input)
    reads Footprint(input)
  {
    input.Buffered? ==> input.reader.Valid()
  }

  /** The bytes that have not been handed out yet. */
  ghost function Unread(input: Input): Bytes
    requires Ready(input)
    reads Footprint(input)
  {
    match input
    case Plain(sock) => sock.stream
    case Buffered(reader) => reader.Unread()
  }

  /** The call that `read` makes, whichever reader was built in. */
  method Take(input: Input, sz: nat) returns (ok: bool, got: Bytes)
    requires Ready(input) && sz <= MAX_MSG_LEN
    modifies Footprint(input)
    ensures Ready(input) && (ok <==> |old(Unread(input))| >= sz)
    ensures ok ==> |got| == sz && old(Unread(input)) == got + Unread(input)
  {
    match input {
      case Plain(sock) => ok, got := SockRead(sock, sz);
      case Buffered(reader) => ok, got := reader.Read(sz);
    }
  }

  /** The last digits of the body length, byte by byte, behind what was read before. */
  method ReadHead(input: Input, from: Bytes) returns (to: Bytes, error: Option<ReadError>)
    requires Ready(input) && |from| < MAX_MSG_LEN
    modifies Footprint(input)
    ensures Ready(input)
    ensures var s := from + old(Unread(input));
            match error
            case None => s == to + Unread(input) && ScanHead(s, |from|) == Head(|to|)
            case Some(e) => ScanHead(s, |from|) == NoHead(e)
  {
    hide ScanHead, Unread, Ready;
    ghost var s := from + Unread(input);
    to := from;
    var done := false;
    while !done
      invariant Ready(input) && |from| <= |to| <= MAX_MSG_LEN && s == to + Unread(input)
      invariant !done ==> |to| < MAX_MSG_LEN && ScanHead(s, |to|) == ScanHead(s, |from|)
      invariant done ==> ScanHead(s, |from|) == Head(|to|)
      decreases MAX_MSG_LEN - |to|, !done
    {
      ghost var rest := Unread(input);
      var ok, bt := Take(input, 1);
      if !ok {
        NoByte(s, to, rest);
        return to, Some(ConnectionGone);
      }
      NextByte(s, to, bt, Unread(input));
      if !IsDigit(bt[0]) && bt[0] != SOH {
        return to, Some(IllegalMessage);
      }
      to := to + bt;
      done := !(bt[0] != SOH && |to| < MAX_MSG_LEN);
    }
    return to, None;
  }

  lemma NextByte(s: Bytes, to: Bytes, bt: Bytes, rest: Bytes)
    requires |bt| == 1 && s == to + (bt + rest)
    ensures s == (to + bt) + rest
    ensures ScanHead(s, |to|) == if !IsDigit(bt[0]) && bt[0] != SOH then NoHead(IllegalMessage)
                                 else if bt[0] == SOH || |to| + 1 >= MAX_MSG_LEN then Head(|to| + 1)
                                 else ScanHead(s, |to| + 1)
  {
    assert s[|to|] == bt[0];
  }

  lemma NoByte(s: Bytes, to: Bytes, rest: Bytes)
    requires s == to + rest && |rest| < 1
    ensures ScanHead(s, |to|) == NoHead(ConnectionGone)
  {}

  /** The body and the checksum element. */
  method ReadBody(input: Input, mlen: nat) returns (ok: bool, got: Bytes)
    requires Ready(input) && mlen <= MAX_MSG_LEN
    modifies Footprint(input)
    ensures Ready(input) && (ok <==> |old(Unread(input))| >= mlen + Frame.CHKSUM_SZ)
    ensures ok ==> |got| == mlen + Frame.CHKSUM_SZ && old(Unread(input)) == got + Unread(input)
  {
    ok, got := Take(input, mlen);
    if !ok {
      return;
    }
    var tail: Bytes;
    ok, tail := Take(input, Frame.CHKSUM_SZ);
    if ok {
      assert got + (tail + Unread(input)) == (got + tail) + Unread(input);
      got := got + tail;
    }
  }

  /** `FIXReader::read`: whatever pieces the socket delivers, the result is that of `ReadOne` on the whole stream. */
  method Read(input: Input, beginStr: Bytes) returns (msg: Bytes, error: Option<ReadError>)
    requires Ready(input) && Preface(beginStr) < MAX_MSG_LEN
    modifies Footprint(input)
    ensures Ready(input)
    ensures ReadOne(beginStr, old(Unread(input))) ==
            if error.Some? then Failed(error.value) else Reading.Read(msg, Unread(input))
  {
    hide C.ExtractElement, ParseHead, ScanHead, Unread, Ready;
    ghost var s := Unread(input);
    var ok, from := Take(input, Preface(beginStr));
    if !ok {
      return [], Some(ConnectionGone);
    }
    var to, failed := ReadHead(input, from);
    if failed.Some? {
      return [], failed;
    }
    var length := Announced(beginStr, to);
    SplitAt(s, to, Unread(input));
    match length {
      case NoLength(e) => return [], Some(e);
      case Length(mlen) =>
        LengthFits(beginStr, to);
        BodySplit(s, |to|, mlen + Frame.CHKSUM_SZ);
        ghost var before := Unread(input);
        var got: Bytes;
        ok, got := ReadBody(input, mlen);
        if !ok {
          return to, Some(ConnectionGone);
        }
        SplitAt(before, got, Unread(input));
        return to + got, None;
    }
  }

  lemma LengthFits(beginStr: Bytes, to: Bytes)
    ensures ParseHead(beginStr, to).Length? ==> ParseHead(beginStr, to).n <= MAX_MSG_LEN
  {}

  /** The reader thread: message after message, until a read throws. */
  method ReadMessages(input: Input, beginStr: Bytes) returns (msgs: seq<Bytes>, error: ReadError)
    requires Ready(input) && Preface(beginStr) < MAX_MSG_LEN
    modifies Footprint(input)
    ensures (msgs, error) == ReadAll(beginStr, old(Unread(input)))
  {
    hide ReadOne, ReadAll, Unread, Ready;
    msgs := [];
    ghost var whole := ReadAll(beginStr, Unread(input));
    assert [] + whole.0 == whole.0;
    while true
      invariant Ready(input)
      invariant whole == (msgs + ReadAll(beginStr, Unread(input)).0, ReadAll(beginStr, Unread(input)).1)
      decreases |Unread(input)|
    {
      ghost var s := Unread(input);
      var msg, failed := Read(input, beginStr);
      ReadAllStep(beginStr, s);
      if failed.Some? {
        assert msgs + [] == msgs;
        return msgs, failed.value;
      }
      assert msgs + ([msg] + ReadAll(beginStr, Unread(input)).0) == (msgs + [msg]) + ReadAll(beginStr, Unread(input)).0;
      msgs := msgs + [msg];
    }
  }

  lemma ReadAllStep(beginStr: Bytes, s: Bytes)
    ensures ReadAll(beginStr, s) ==
            match ReadOne(beginStr, s)
            case Failed(e) => ([], e)
            case Read(msg, rest) => ([msg] + ReadAll(beginStr, rest).0, ReadAll(beginStr, rest).1)
    ensures ReadOne(beginStr, s).Read? ==> |ReadOne(beginStr, s).rest| < |s|
  {
    hide ReadOne;
  }

  lemma BodySplit(s: Bytes, n: nat, m: nat)
    requires n <= |s|
    ensures n + m <= |s| ==> s[..n + m] == s[..n] + s[n..][..m] && s[n + m..] == s[n..][m..]
  {}

  /** The head taken apart with the tokenizer. */
  method Announced(beginStr: Bytes, to: Bytes) returns (length: BodyLength)
    ensures length == ParseHead(beginStr, to)
  {
    hide C.ExtractElement, Atoi, CString;
    var size, tag, val := CodecEngine.ExtractElement(to);
    if size == 0 || !Frame.StartsWith(tag, [56]) {
      return NoLength(IllegalMessage);
    }
    if CString(val) != beginStr {
      return NoLength(InvalidVersion);
    }
    var size2, tag2, val2 := CodecEngine.ExtractElement(to[size..]);
    if size2 == 0 || !Frame.StartsWith(tag2, [57]) {
      return NoLength(IllegalMessage);
    }
    var mlen := Atoi(CString(val2)) % UNSIGNED;
    if mlen == 0 || mlen > MAX_MSG_LEN - Preface(beginStr) - Frame.CHKSUM_SZ {
      return NoLength(InvalidBodyLength(mlen));
    }
    return Length(mlen);
  }
}
