/**
 * The duplex connection: its session, heartbeat counter and close flag, and
 * the frames it hands to the socket. The pure transitions below say what
 * each operation does to the connection's state; the `WebSocket` class
 * carries that state in fields and its methods are proved against them.
 */
module WebSocket {
  import opened Common
  import Hex

  /** Go's `uint64`: the heartbeat counter wraps modulo 2^64. */
  type uint64 = x: int | 0 <= x < 0x1_0000_0000_0000_0000

  /** A close code and its `String()` name (the code table lives outside this model). */
  datatype CloseCode = CloseCode(value: int, name: string)

  /** An operation code and its `String()` name. */
  datatype Opcode = Opcode(value: int, name: string)

  /** The application messages the connection writes, one payload shape per opcode. */
  datatype Message =
    | Hello(heartbeatInterval: uint32, sessionId: string, subscriptionLimit: int32)
    | Heartbeat(count: uint64)
    | Ack(command: string, data: seq<byte>)
    | Error(text: string, fields: map<string, string>)
    | EndOfStream(code: CloseCode, reason: string)
    | Dispatch(opcode: Opcode, data: seq<byte>)

  /** What goes on the wire: an application message, or the protocol-level close frame. */
  datatype Frame = Data(msg: Message) | CloseFrame(code: CloseCode, reason: string)

  /** The heartbeat interval used when the configuration leaves it at 0, in milliseconds. */
  const DefaultHeartbeatInterval: uint32 := 45000

  /**
   * The connection's state: `sent` lists the frames handed to the socket, in
   * order (a write the socket then fails on is still listed: the failure is
   * only reported back).
   */
  datatype State = State(
    closed: bool,
    cancelled: bool,
    heartbeatCount: uint64,
    heartbeatInterval: uint32,
    subscriptionLimit: int32,
    sessionId: seq<byte>,
    sent: seq<Frame>)

  /** A fresh connection: the interval defaults when configured as 0, nothing counted or sent. */
  function Initial(configuredInterval: uint32, subscriptionLimit: int32, sessionId: seq<byte>): (st: State)
    ensures !st.closed && !st.cancelled && st.heartbeatCount == 0 && st.sent == []
    ensures st.heartbeatInterval == if configuredInterval == 0 then DefaultHeartbeatInterval else configuredInterval
    ensures st.heartbeatInterval != 0
    ensures st.subscriptionLimit == subscriptionLimit && st.sessionId == sessionId
  {
    State(false, false, 0, if configuredInterval == 0 then DefaultHeartbeatInterval else configuredInterval,
          subscriptionLimit, sessionId, [])
  }

  /** `uint64` increment. */
  function Inc64(c: uint64): uint64
  {
    (c + 1) % 0x1_0000_0000_0000_0000
  }

  /** `Write`: nothing once closed, otherwise the message goes out. */
  function AfterWrite(st: State, msg: Message): (r: State)
    ensures st.closed ==> r == st
    ensures !st.closed ==> r == st.(sent := st.sent + [Data(msg)])
  {
    if st.closed then st else st.(sent := st.sent + [Data(msg)])
  }

  /** The handshake payload: interval, hex session id and subscription limit. */
  function HelloOf(st: State): Message
  {
    Hello(st.heartbeatInterval, Hex.Encode(st.sessionId), st.subscriptionLimit)
  }

  /** `SendHeartbeat`: the counter goes up first (even once closed), then the new count is written. */
  function AfterHeartbeat(st: State): State
  {
    var c := Inc64(st.heartbeatCount);
    AfterWrite(st.(heartbeatCount := c), Heartbeat(c))
  }

  /** `SendError`'s payload: a missing field map becomes an empty one. */
  function ErrorOf(text: string, fields: Option<map<string, string>>): (m: Message)
    ensures m.Error? && m.text == text
    ensures fields.None? ==> m.fields == map[]
    ensures fields.Some? ==> m.fields == fields.value
  {
    Error(text, if fields.None? then map[] else fields.value)
  }

  /**
   * `Close`: nothing when already closed; otherwise the end-of-stream message,
   * then the close frame with the same code, then the context is cancelled and
   * the connection marked closed, whatever the writes returned.
   */
  function AfterClose(st: State, code: CloseCode): State
  {
    if st.closed then st
    else
      var s1 := AfterWrite(st, EndOfStream(code, code.name));
      s1.(sent := s1.sent + [CloseFrame(code, code.name)], cancelled := true, closed := true)
  }

  /** The operations a connection's users invoke. */
  datatype Op =
    | GreetOp
    | HeartbeatOp
    | AckOp(cmd: Opcode, data: seq<byte>)
    | ErrorOp(text: string, fields: Option<map<string, string>>)
    | WriteOp(msg: Message)
    | CloseOp(code: CloseCode)

  function Step(st: State, op: Op): State
  {
    match op
    case GreetOp => AfterWrite(st, HelloOf(st))
    case HeartbeatOp => AfterHeartbeat(st)
    case AckOp(cmd, data) => AfterWrite(st, Ack(cmd.name, data))
    case ErrorOp(text, fields) => AfterWrite(st, ErrorOf(text, fields))
    case WriteOp(msg) => AfterWrite(st, msg)
    case CloseOp(code) => AfterClose(st, code)
  }

  /** The state after a sequence of operations, in order. */
  function Run(st: State, ops: seq<Op>): State
    decreases |ops|
  {
    if |ops| == 0 then st else Run(Step(st, ops[0]), ops[1..])
  }

  // ---- Properties of the state machine ----

  /** No operation reopens a connection, changes its session or configuration, or takes back a frame. */
  lemma {:induction false} RunMonotone(st: State, ops: seq<Op>)
    ensures var r := Run(st, ops);
      (st.closed ==> r.closed) && (st.cancelled ==> r.cancelled) &&
      r.sessionId == st.sessionId && r.heartbeatInterval == st.heartbeatInterval &&
      r.subscriptionLimit == st.subscriptionLimit &&
      |st.sent| <= |r.sent| && r.sent[..|st.sent|] == st.sent
    decreases |ops|
  {
    if |ops| > 0 {
      var next := Step(st, ops[0]);
      RunMonotone(next, ops[1..]);
      assert next.sent[..|st.sent|] == st.sent;
    }
  }

  /** Once closed, no operation puts anything on the wire and the connection stays closed and cancelled. */
  lemma {:induction false} ClosedSendsNothing(st: State, ops: seq<Op>)
    requires st.closed
    ensures Run(st, ops).sent == st.sent && Run(st, ops).closed && Run(st, ops).cancelled == st.cancelled
    decreases |ops|
  {
    if |ops| > 0 {
      ClosedSendsNothing(Step(st, ops[0]), ops[1..]);
    }
  }

  /** Closing an open connection sends end-of-stream, then the close frame, both with the caller's code. */
  lemma CloseSequence(st: State, code: CloseCode)
    requires !st.closed
    ensures AfterClose(st, code).sent ==
      st.sent + [Data(EndOfStream(code, code.name)), CloseFrame(code, code.name)]
    ensures AfterClose(st, code).closed && AfterClose(st, code).cancelled
    ensures AfterClose(st, code).heartbeatCount == st.heartbeatCount
  {
  }

  /** A second close changes nothing: exactly one end-of-stream and one close frame, whatever follows. */
  lemma {:induction false} CloseIdempotent(st: State, code: CloseCode, later: seq<Op>)
    requires !st.closed
    ensures var r := Run(AfterClose(st, code), later);
      r.sent == st.sent + [Data(EndOfStream(code, code.name)), CloseFrame(code, code.name)] && r.closed
  {
    ClosedSendsNothing(AfterClose(st, code), later);
  }

  /** The heartbeat frames numbered `from + 1` through `from + k`. */
  function HeartbeatFrames(from: nat, k: nat): seq<Frame>
    requires from + k < 0x1_0000_0000_0000_0000
    decreases k
  {
    if k == 0 then [] else HeartbeatFrames(from, k - 1) + [Data(Heartbeat(from + k))]
  }

  /** `k` heartbeats on an open connection: the i-th one sent carries count `from + i`. */
  lemma {:induction false} HeartbeatsNumbered(st: State, k: nat)
    requires !st.closed && st.heartbeatCount + k < 0x1_0000_0000_0000_0000
    ensures Run(st, Repeat(HeartbeatOp, k)).sent == st.sent + HeartbeatFrames(st.heartbeatCount, k)
    ensures Run(st, Repeat(HeartbeatOp, k)).heartbeatCount == st.heartbeatCount + k
    decreases k
  {
    if k > 0 {
      var next := AfterHeartbeat(st);
      assert Repeat(HeartbeatOp, k)[1..] == Repeat(HeartbeatOp, k - 1);
      HeartbeatsNumbered(next, k - 1);
      HeartbeatFramesCons(st.heartbeatCount, k);
    }
  }

  /** The frames `from + 1 .. from + k` are frame `from + 1` followed by `from + 2 .. from + k`. */
  lemma {:induction false} HeartbeatFramesCons(from: nat, k: nat)
    requires k > 0 && from + k < 0x1_0000_0000_0000_0000
    ensures HeartbeatFrames(from, k) == [Data(Heartbeat(from + 1))] + HeartbeatFrames(from + 1, k - 1)
    decreases k
  {
    if k > 1 {
      HeartbeatFramesCons(from, k - 1);
    }
  }

  /** The number of heartbeats among `ops`. */
  function NumHeartbeats(ops: seq<Op>): nat
    decreases |ops|
  {
    if |ops| == 0 then 0
    else NumHeartbeats(ops[..|ops| - 1]) + (if ops[|ops| - 1].HeartbeatOp? then 1 else 0)
  }

  /** Running one more operation is one more step. */
  lemma {:induction false} RunSnoc(st: State, ops: seq<Op>, op: Op)
    ensures Run(st, ops + [op]) == Step(Run(st, ops), op)
    decreases |ops|
  {
    if |ops| == 0 {
      assert [] + [op] == [op];
    } else {
      assert (ops + [op])[1..] == ops[1..] + [op];
      RunSnoc(Step(st, ops[0]), ops[1..], op);
    }
  }

  /**
   * Only heartbeats move the counter: greetings, acknowledgements, errors,
   * writes and closes leave it alone, open or closed.
   */
  lemma {:induction false} HeartbeatCount(st: State, ops: seq<Op>)
    requires st.heartbeatCount + NumHeartbeats(ops) < 0x1_0000_0000_0000_0000
    ensures Run(st, ops).heartbeatCount == st.heartbeatCount + NumHeartbeats(ops)
    decreases |ops|
  {
    if |ops| > 0 {
      var n := |ops| - 1;
      assert ops == ops[..n] + [ops[n]];
      HeartbeatCount(st, ops[..n]);
      RunSnoc(st, ops[..n], ops[n]);
    }
  }

  /**
   * A heartbeat sent on a connection still open carries its own number in
   * the run: after any operations `pre`, the heartbeat that follows is the
   * `NumHeartbeats(pre) + 1`-th one and sends exactly that count (on top of
   * the starting count), whatever other operations `pre` holds.
   */
  lemma HeartbeatCarriesItsNumber(st: State, pre: seq<Op>)
    requires !Run(st, pre).closed
    requires st.heartbeatCount + NumHeartbeats(pre) + 1 < 0x1_0000_0000_0000_0000
    ensures NumHeartbeats(pre + [HeartbeatOp]) == NumHeartbeats(pre) + 1
    ensures Run(st, pre + [HeartbeatOp]).sent ==
      Run(st, pre).sent + [Data(Heartbeat(st.heartbeatCount + NumHeartbeats(pre) + 1))]
  {
    assert (pre + [HeartbeatOp])[..|pre|] == pre;
    HeartbeatCount(st, pre);
    RunSnoc(st, pre, HeartbeatOp);
    HeartbeatStep(Run(st, pre));
  }

  /**
   * From a fresh connection, the k-th heartbeat of any run carries count k
   * while the connection is open: greetings, acknowledgements, errors and
   * writes in between do not shift the numbering.
   */
  lemma KthHeartbeat(configuredInterval: uint32, limit: int32, session: seq<byte>, pre: seq<Op>)
    requires !Run(Initial(configuredInterval, limit, session), pre).closed
    requires NumHeartbeats(pre) + 1 < 0x1_0000_0000_0000_0000
    ensures var st := Initial(configuredInterval, limit, session);
      Run(st, pre + [HeartbeatOp]).sent == Run(st, pre).sent + [Data(Heartbeat(NumHeartbeats(pre + [HeartbeatOp])))]
  {
    HeartbeatCarriesItsNumber(Initial(configuredInterval, limit, session), pre);
  }

  /** One heartbeat on an open connection sends the incremented count. */
  lemma HeartbeatStep(before: State)
    requires !before.closed && before.heartbeatCount + 1 < 0x1_0000_0000_0000_0000
    ensures Step(before, HeartbeatOp).sent == before.sent + [Data(Heartbeat(before.heartbeatCount + 1))]
  {
  }

  /** `k` copies of one operation. */
  function Repeat(op: Op, k: nat): (ops: seq<Op>)
    ensures |ops| == k && forall i :: 0 <= i < k ==> ops[i] == op
  {
    if k == 0 then [] else [op] + Repeat(op, k - 1)
  }

  /** A fresh connection's greeting carries the hex session id, the interval and the limit. */
  lemma GreetFresh(configuredInterval: uint32, limit: int32, session: seq<byte>)
    ensures var st := Step(Initial(configuredInterval, limit, session), GreetOp);
      |st.sent| == 1 && st.sent[0].Data? && st.sent[0].msg.Hello? &&
      Hex.Decode(st.sent[0].msg.sessionId) == Some(session) &&
      |st.sent[0].msg.sessionId| == 2 * |session| &&
      st.sent[0].msg.heartbeatInterval == (if configuredInterval == 0 then DefaultHeartbeatInterval else configuredInterval) &&
      st.sent[0].msg.subscriptionLimit == limit
  {
    Hex.DecodeEncode(session);
  }

  /**
   * The duplex connection object. Its mutable fields are the close flag, the
   * cancellation of its context, the heartbeat counter and the frames sent;
   * the session and configuration are fixed at construction.
   */
  class WebSocket {
    var closed: bool
    var cancelled: bool
    var heartbeatCount: uint64
    const heartbeatInterval: uint32
    const subscriptionLimit: int32
    const sessionId: seq<byte>
    var sent: seq<Frame>

    /** The connection's state as a value. */
    function Snapshot(): State
      reads this
    {
      State(closed, cancelled, heartbeatCount, heartbeatInterval, subscriptionLimit, sessionId, sent)
    }

    /** `NewWebSocket` once the session bytes have been generated. */
    constructor (configuredInterval: uint32, limit: int32, session: seq<byte>)
      ensures Snapshot() == Initial(configuredInterval, limit, session)
    {
      closed := false;
      cancelled := false;
      heartbeatCount := 0;
      heartbeatInterval := if configuredInterval == 0 then DefaultHeartbeatInterval else configuredInterval;
      subscriptionLimit := limit;
      sessionId := session;
      sent := [];
    }

    /** The session identifier: the lower-case hex encoding of the session bytes. */
    function SessionID(): (id: string)
      reads this
      ensures |id| == 2 * |sessionId|
      ensures forall i :: 0 <= i < |id| ==> Hex.IsLowerHexDigit(id[i])
      ensures Hex.Decode(id) == Some(sessionId)
    {
      Hex.DecodeEncode(sessionId);
      Hex.Encode(sessionId)
    }

    /**
     * Hands `msg` to the socket unless the connection is closed; `failed` is
     * the socket's answer and is what the caller gets back (nothing fails once closed).
     */
    method Write(msg: Message, socketFails: bool) returns (failed: bool)
      modifies this
      ensures Snapshot() == AfterWrite(old(Snapshot()), msg)
      ensures failed == (!old(closed) && socketFails)
    {
      if closed {
        return false;
      }
      sent := sent + [Data(msg)];
      failed := socketFails;
    }

    /** Sends the handshake: interval, session identifier and subscription limit. */
    method Greet(socketFails: bool) returns (failed: bool)
      modifies this
      ensures Snapshot() == Step(old(Snapshot()), GreetOp)
      ensures failed == (!old(closed) && socketFails)
    {
      var msg := Hello(heartbeatInterval, SessionID(), subscriptionLimit);
      failed := Write(msg, socketFails);
    }

    /** Counts one more heartbeat and sends the new count. */
    method SendHeartbeat(socketFails: bool) returns (failed: bool)
      modifies this
      ensures Snapshot() == Step(old(Snapshot()), HeartbeatOp)
      ensures failed == (!old(closed) && socketFails)
    {
      heartbeatCount := Inc64(heartbeatCount);
      failed := Write(Heartbeat(heartbeatCount), socketFails);
    }

    /** Acknowledges a command, echoing the command's name and the data. */
    method SendAck(cmd: Opcode, data: seq<byte>, socketFails: bool) returns (failed: bool)
      modifies this
      ensures Snapshot() == Step(old(Snapshot()), AckOp(cmd, data))
      ensures failed == (!old(closed) && socketFails)
    {
      failed := Write(Ack(cmd.name, data), socketFails);
    }

    /** Sends an error message; a write failure is only logged, never returned. */
    method SendError(text: string, fields: Option<map<string, string>>, socketFails: bool)
      modifies this
      ensures Snapshot() == Step(old(Snapshot()), ErrorOp(text, fields))
    {
      var f := if fields.None? then map[] else fields.value;
      var _ := Write(Error(text, f), socketFails);
    }

    /**
     * Closes the connection once: end-of-stream, close frame, then (after the
     * wait, which is not modelled) the context is cancelled and the flag set.
     * Write failures on the way are logged and do not stop the sequence.
     */
    method Close(code: CloseCode, after: int)
      modifies this
      ensures Snapshot() == Step(old(Snapshot()), CloseOp(code))
    {
      if closed {
        return;
      }
      var _ := Write(EndOfStream(code, code.name), false);
      sent := sent + [CloseFrame(code, code.name)];
      cancelled := true;
      closed := true;
    }
  }

  /**
   * `NewWebSocket`: `None` stands for a session-id generation error, in which
   * case no connection is made.
   */
  method NewWebSocket(configuredInterval: uint32, limit: int32, session: Option<seq<byte>>)
    returns (ws: WebSocket?)
    ensures session.None? <==> ws == null
    ensures ws != null ==> fresh(ws) && ws.Snapshot() == Initial(configuredInterval, limit, session.value)
  {
    if session.None? {
      return null;
    }
    ws := new WebSocket(configuredInterval, limit, session.value);
  }
}
