/**
 The forwarder of the relay (`TCPToUDPForwarder`): its reconnect bookkeeping,
 its delimiter list, and the read loop of one TCP connection, which gathers
 received bytes in a buffer and sends them on as UDP datagrams. The sockets
 are abstracted: what `recv` yields is a sequence of reads, and what
 `sendto` sends is the sequence of datagrams the session records.
 */
module App {

  newtype Byte = b: int | 0 <= b < 0x100

  type Bytes = seq<Byte>

  // ---------------------------------------------------------------------------
  // Reconnect bookkeeping
  // ---------------------------------------------------------------------------

  /** The counter update of `set_connection_lost`: both of its branches add one. */
  function ConnectionLost(attempts: nat): (next: nat)
    ensures next == attempts + 1
  {
    if attempts == 0 then 1 else attempts + 1
  }

  /** The counter after `n` lost connections in a row. */
  function LostTimes(attempts: nat, n: nat): nat
    decreases n
  {
    if n == 0 then attempts else ConnectionLost(LostTimes(attempts, n - 1))
  }

  /** After `set_connected` and then `n` calls of `set_connection_lost`, the
      counter is `n`. */
  lemma {:induction false} OutageCount(n: nat)
    ensures LostTimes(0, n) == n
    decreases n
  {
    if n > 0 {
      OutageCount(n - 1);
    }
  }

  // ---------------------------------------------------------------------------
  // The read loop of one connection
  // ---------------------------------------------------------------------------

  /** What one `recv` on the TCP socket ends in: some bytes (none when the peer
      closed the connection), the 0.1 s read timeout, or a socket error. */
  datatype Read = Data(chunk: Bytes) | TimedOut | SocketError

  /** The state of the read loop of one connection: the data buffer, the
      datagrams sent so far, and whether the loop still runs. */
  datatype Session = Session(buffer: Bytes, sent: seq<Bytes>, open: bool)

  /** A new connection starts with an empty buffer and nothing sent. */
  const Connected: Session := Session([], [], true)

  /** A read that keeps the connection going. */
  predicate Live(read: Read) {
    match read
    case Data(chunk) => chunk != []
    case TimedOut => true
    case SocketError => false
  }

  /** One pass of the read loop when no delimiter is registered. */
  function Step(s: Session, read: Read): (t: Session)
    ensures !s.open ==> t == s
    ensures |s.sent| <= |t.sent| <= |s.sent| + 1 && t.sent[..|s.sent|] == s.sent
    ensures t.open <==> s.open && Live(read)
  {
    if !s.open then s
    else
      match read
      case Data(chunk) =>
        if chunk == [] then s.(open := false)
        else Session(s.buffer + chunk, s.sent + [s.buffer + chunk], true)
      case TimedOut =>
        if s.buffer != [] then Session([], s.sent + [s.buffer], true) else s
      case SocketError => s.(open := false)
  }

  /** The session after the given reads, from a new connection on. */
  function Replay(trace: seq<Read>): Session
    decreases |trace|
  {
    if trace == [] then Connected else Step(Replay(trace[..|trace| - 1]), trace[|trace| - 1])
  }

  lemma ReplaySnoc(trace: seq<Read>, read: Read)
    ensures Replay(trace + [read]) == Step(Replay(trace), read)
  {
    assert (trace + [read])[..|trace|] == trace;
  }

  /** A received chunk is appended to the buffer and the whole buffer is sent
      as one datagram; the buffer is kept. */
  lemma ChunkSendsWholeBuffer(trace: seq<Read>, chunk: Bytes)
    requires Replay(trace).open && chunk != []
    ensures var s, t := Replay(trace), Replay(trace + [Data(chunk)]);
      t.open && t.buffer == s.buffer + chunk && t.sent == s.sent + [t.buffer]
  {
    ReplaySnoc(trace, Data(chunk));
  }

  /** On a read timeout a non-empty buffer is sent as one datagram and
      emptied; an empty buffer sends nothing. */
  lemma TimeoutFlushes(trace: seq<Read>)
    requires Replay(trace).open
    ensures var s, t := Replay(trace), Replay(trace + [TimedOut]);
      t.open && t.buffer == [] && t.sent == s.sent + (if s.buffer == [] then [] else [s.buffer])
  {
    ReplaySnoc(trace, TimedOut);
  }

  /** A zero-length read ends the loop; nothing is appended or sent for it. */
  lemma EmptyReadCloses(trace: seq<Read>)
    requires Replay(trace).open
    ensures Replay(trace + [Data([])]) == Replay(trace).(open := false)
  {
    ReplaySnoc(trace, Data([]));
  }

  /** Once the loop has ended, later reads change nothing. */
  lemma {:induction false} ClosedStaysClosed(trace: seq<Read>, more: seq<Read>)
    requires !Replay(trace).open
    ensures Replay(trace + more) == Replay(trace)
    decreases |more|
  {
    if more != [] {
      var init := more[..|more| - 1];
      assert trace + more == (trace + init) + [more[|more| - 1]];
      ClosedStaysClosed(trace, init);
      ReplaySnoc(trace + init, more[|more| - 1]);
      assert Replay(trace + init) == Replay(trace);
    } else {
      assert trace + more == trace;
    }
  }

  /** All bytes received, in order. */
  function Received(trace: seq<Read>): Bytes
    decreases |trace|
  {
    if trace == [] then []
    else
      var last := trace[|trace| - 1];
      Received(trace[..|trace| - 1]) + (if last.Data? then last.chunk else [])
  }

  /** The bytes received since the last read timeout. */
  function SinceTimeout(trace: seq<Read>): Bytes
    decreases |trace|
  {
    if trace == [] then []
    else
      match trace[|trace| - 1]
      case Data(chunk) => SinceTimeout(trace[..|trace| - 1]) + chunk
      case _ => []
  }

  /** While the connection lasts, the buffer holds exactly the bytes received
      since the last read timeout, and no datagram sent is empty. */
  lemma {:induction false} BufferSinceTimeout(trace: seq<Read>)
    requires forall i :: 0 <= i < |trace| ==> Live(trace[i])
    ensures Replay(trace).open
    ensures Replay(trace).buffer == SinceTimeout(trace)
    ensures forall d :: d in Replay(trace).sent ==> d != []
    decreases |trace|
  {
    if trace != [] {
      var init, last := trace[..|trace| - 1], trace[|trace| - 1];
      BufferSinceTimeout(init);
      assert trace == init + [last];
      ReplaySnoc(init, last);
    }
  }

  /** Concatenation of a list of datagrams. */
  function Flatten(datagrams: seq<Bytes>): Bytes
    decreases |datagrams|
  {
    if datagrams == [] then [] else Flatten(datagrams[..|datagrams| - 1]) + datagrams[|datagrams| - 1]
  }

  /** As written, bytes are sent more than once: after the chunks [1] and [2]
      and a timeout, the datagrams are [1], [1, 2] and [1, 2], which carry
      five bytes for the two received. */
  lemma ChunkResendsBuffer()
    ensures Replay([Data([1]), Data([2]), TimedOut]).sent == [[1], [1, 2], [1, 2]]
    ensures Received([Data([1]), Data([2]), TimedOut]) == [1, 2]
    ensures Flatten([[1], [1, 2], [1, 2]]) == [1, 1, 2, 1, 2]
  {
    var one: seq<Read> := [Data([1])];
    var two: seq<Read> := one + [Data([2])];
    var trace: seq<Read> := two + [TimedOut];
    ReplaySnoc([], Data([1]));
    assert [] + [Data([1])] == one;
    assert Replay(one) == Session([1], [[1]], true);
    ReplaySnoc(one, Data([2]));
    var b12: Bytes := [1, 2];
    assert [1] + [2] == b12;
    assert Replay(two) == Session([1, 2], [[1], [1, 2]], true);
    ReplaySnoc(two, TimedOut);
    assert Replay(trace) == Session([], [[1], [1, 2], [1, 2]], true);
    assert trace == [Data([1]), Data([2]), TimedOut];
    var ds: seq<Bytes> := [[1], [1, 2], [1, 2]];
    assert ds[..2][..1] == [[1]] && ds[..1] == [[1]] && [[1]][..0] == [];
  }

  /** One pass of the read loop with the buffer cleared after each chunk is
      sent. */
  function StepIntended(s: Session, read: Read): Session {
    if !s.open then s
    else
      match read
      case Data(chunk) =>
        if chunk == [] then s.(open := false)
        else Session([], s.sent + [s.buffer + chunk], true)
      case TimedOut =>
        if s.buffer != [] then Session([], s.sent + [s.buffer], true) else s
      case SocketError => s.(open := false)
  }

  function ReplayIntended(trace: seq<Read>): Session
    decreases |trace|
  {
    if trace == [] then Connected
    else StepIntended(ReplayIntended(trace[..|trace| - 1]), trace[|trace| - 1])
  }

  /** With the buffer cleared after each send, the datagrams carry every byte
      received exactly once, in order, one datagram per chunk. */
  lemma {:induction false} IntendedPassthrough(trace: seq<Read>)
    requires forall i :: 0 <= i < |trace| ==> Live(trace[i])
    ensures ReplayIntended(trace).open && ReplayIntended(trace).buffer == []
    ensures Flatten(ReplayIntended(trace).sent) == Received(trace)
    decreases |trace|
  {
    if trace != [] {
      var init, last := trace[..|trace| - 1], trace[|trace| - 1];
      IntendedPassthrough(init);
      var s := ReplayIntended(init);
      if last.Data? {
        var sent := s.sent + [last.chunk];
        assert sent[..|sent| - 1] == s.sent;
      }
    }
  }

  // ---------------------------------------------------------------------------
  // The forwarder
  // ---------------------------------------------------------------------------

  /** An entry of `delimiters`. The list is declared to hold byte strings, but
      `add_delimiter` stores the `bytes` type object itself. `ByteString` is the
      declared element kind; nothing builds it, and it is there only to set
      `BytesType` apart from it. */
  datatype Entry = BytesType | ByteString(value: Bytes)

  class TcpToUdpForwarder {
    const remoteHost: string
    const remotePort: int
    const udpHost: string
    const udpPort: int
    var reconnectAttempts: nat
    var delimiters: seq<Entry>

    constructor (remoteHost: string, remotePort: int, udpHost: string, udpPort: int)
      ensures this.remoteHost == remoteHost && this.remotePort == remotePort
      ensures this.udpHost == udpHost && this.udpPort == udpPort
      ensures reconnectAttempts == 0 && delimiters == []
    {
      this.remoteHost := remoteHost;
      this.remotePort := remotePort;
      this.udpHost := udpHost;
      this.udpPort := udpPort;
      reconnectAttempts := 0;
      delimiters := [];
    }

    /** Appends one entry, the `bytes` type rather than the argument. */
    method AddDelimiter(delimiter: Bytes)
      modifies this`delimiters
      ensures delimiters == old(delimiters) + [BytesType]
    {
      delimiters := delimiters + [BytesType];
    }

    method SetConnected()
      modifies this`reconnectAttempts
      ensures reconnectAttempts == 0
    {
      reconnectAttempts := 0;
    }

    method SetConnectionLost()
      modifies this`reconnectAttempts
      ensures reconnectAttempts == ConnectionLost(old(reconnectAttempts))
      ensures reconnectAttempts >= 1
    {
      if reconnectAttempts == 0 {
        reconnectAttempts := 1;
      } else {
        reconnectAttempts := reconnectAttempts + 1;
      }
    }

    /** The body of the `run` loop for one established connection, with no
        delimiter registered: it marks the forwarder connected, starts with an
        empty buffer and serves the trace until one of them ends the loop.
        `sent` lists the datagrams in the order they are sent. */
    method RunConnection(trace: seq<Read>) returns (sent: seq<Bytes>, buffer: Bytes, closed: bool)
      requires delimiters == []
      modifies this`reconnectAttempts
      ensures reconnectAttempts == 0
      ensures Replay(trace) == Session(buffer, sent, !closed)
    {
      SetConnected();
      buffer := [];
      sent := [];
      closed := false;
      var i := 0;
      while i < |trace| && !closed
        invariant 0 <= i <= |trace|
        invariant reconnectAttempts == 0
        invariant Replay(trace[..i]) == Session(buffer, sent, !closed)
        decreases |trace| - i
      {
        ReplaySnoc(trace[..i], trace[i]);
        assert trace[..i + 1] == trace[..i] + [trace[i]];
        match trace[i] {
          case Data(data) =>
            if data == [] {
              closed := true;
            } else {
              buffer := buffer + data;
              sent := sent + [buffer];
            }
          case TimedOut =>
            if buffer != [] {
              sent := sent + [buffer];
              buffer := [];
            }
          case SocketError =>
            closed := true;
        }
        i := i + 1;
      }
      if closed {
        ClosedStaysClosed(trace[..i], trace[i..]);
        assert trace[..i] + trace[i..] == trace;
      } else {
        assert trace[..i] == trace;
      }
    }
  }
}
