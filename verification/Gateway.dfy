/** The poll loop of pc_side/lnc_bridge/main.cpp. */
module Gateways {
  import opened Bytes
  import opened Bits
  import opened Crc
  import opened CrcTheory
  import opened Frame
  import opened Wrappers
  import opened Reassembly
  import opened BridgeServers

  const UART_BUF_SIZE: nat := 256
  const PAYLOAD_SIZE: nat := 256
  const FRAMED_SIZE: nat := 600

  // How the uplink half reads the front of uartRxBuf.
  function UplinkRule(): seq<byte> -> Action<seq<byte>> {
    (buf: seq<byte>) =>
      match Decode(buf, PAYLOAD_SIZE)
      case Incomplete => Wait
      case TooSmall => Reset
      case Malformed(consumed) => Take(consumed, None)
      case Complete(payload, consumed) => Take(consumed, Some(payload))
  }

  function LengthPrefixed(payloads: seq<seq<byte>>): seq<byte> {
    if payloads == [] then [] else
    PutU32(|payloads[0]| % 0x1_0000_0000) + payloads[0] + LengthPrefixed(payloads[1..])
  }

  // With nothing to send nothing can fail.
  predicate SendingWorks(messages: seq<seq<byte>>, prefixSent: bool, dataSent: bool) {
    messages == [] || (prefixSent && dataSent)
  }

  lemma PrefixOfNone()
    ensures LengthPrefixed([]) == []
  {
  }

  lemma PrefixOfOne(payload: seq<byte>)
    requires |payload| < 0x1_0000
    ensures LengthPrefixed([payload]) == PutU32(|payload|) + payload
  {
    hide PutU32;
    assert [payload][1..] == [];
  }

  function Frames(payloads: seq<Payload>): seq<byte> {
    if payloads == [] then [] else Encode(payloads[0]) + Frames(payloads[1..])
  }

  lemma PolledVerdict(buf: seq<byte>)
    ensures var polled := Poll(UplinkRule(), buf);
      match Decode(buf, PAYLOAD_SIZE)
      case Incomplete => polled == Outcome([], buf)
      case TooSmall => polled == Outcome([], [])
      case Malformed(consumed) => polled == Outcome([], buf[consumed..])
      case Complete(payload, consumed) => polled == Outcome([payload], buf[consumed..])
    ensures buf == [] ==> Decode(buf, PAYLOAD_SIZE) == Incomplete
  {
    hide DecodeAfterStart;
  }

  // What one can tell about the gateway from outside, between two turns.
  datatype View = View(
    connected: bool,
    received: seq<byte>,             // from the serial line, in the buffer
    forwarded: seq<seq<byte>>,
    inbox: RecvState,                // from the core, in the buffer
    toClient: seq<byte>,
    serialOut: seq<byte>)

  const INITIAL: View := View(false, [], [], EMPTY, [], [])

  // What one turn of the loop meets: somebody waiting to be accepted, bytes on the serial line, whether
  // the two send() calls succeed, what recv() reports.
  datatype Input = Input(waiting: bool, chunk: seq<byte>, prefixSent: bool, dataSent: bool, arrival: Arrival)

  // The reads of the turn return no more than they asked for.
  ghost predicate Possible(v: View, input: Input) {
    && |v.received| + |input.chunk| <= UART_BUF_SIZE
    && (input.arrival.Data? ==> input.arrival.bytes != [])
    && InboxOf(v, input.waiting).len + |Arrived(input.arrival)| <= RECV_BUF_SIZE
  }

  // A new connection starts clean.
  function InboxOf(v: View, waiting: bool): RecvState {
    if !v.connected && waiting then v.inbox.(len := 0) else v.inbox
  }

  // From one turn of the loop to the next: accept, then uplink, then downlink.
  ghost predicate Turned(v: View, w: View, input: Input) {
    var accepted := !v.connected && input.waiting;
    var inbox := InboxOf(v, input.waiting);
    var up := Poll(UplinkRule(), v.received + input.chunk);
    && Possible(v, input)
    && w.received == up.buf
    && w.forwarded == v.forwarded + up.messages
    && if !(v.connected || accepted) || !SendingWorks(up.messages, input.prefixSent, input.dataSent) then
         !w.connected && w.serialOut == v.serialOut && w.inbox == inbox
       else if input.arrival.PeerClosed? && inbox.len < RECV_BUF_SIZE then
         !w.connected && w.serialOut == v.serialOut && w.inbox == inbox.(len := 0)
       else
         var down := PollInbox(inbox, Arrived(input.arrival), PAYLOAD_SIZE);
         && w.connected && w.inbox == down.inbox
         && w.toClient == (if accepted then [] else v.toClient) + LengthPrefixed(up.messages)
         && AllPayloads(down.messages) && w.serialOut == v.serialOut + Frames(down.messages)
  }

  class Gateway {
    const server: BridgeServer
    const uartRxBuf: array<byte>
    var uartRxLen: nat
    var forwarded: seq<seq<byte>>   // payloads handed to BridgeServer_Send
    var serialOut: seq<byte>        // bytes handed to Transport_Send

    ghost predicate Valid()
      reads this, server
    {
      && server.Valid() && server.listening
      && uartRxBuf.Length == UART_BUF_SIZE && uartRxLen <= UART_BUF_SIZE && uartRxBuf != server.recvBuf
    }

    function Received(): seq<byte>
      requires Valid()
      reads this, server, uartRxBuf
    {
      uartRxBuf[..uartRxLen]
    }

    function State(): View
      requires Valid()
      reads this, server, uartRxBuf, server.recvBuf
    {
      View(server.connected, Received(), forwarded, server.State(), server.toClient, serialOut)
    }

    constructor ()
      ensures Valid() && fresh(server) && fresh(uartRxBuf) && fresh(server.recvBuf)
      ensures State() == INITIAL
    {
      server := new BridgeServer();
      uartRxBuf := new byte[UART_BUF_SIZE](_ => 0);
      uartRxLen, forwarded, serialOut := 0, [], [];
    }

    // LNC to core.
    method Uplink(chunk: seq<byte>, prefixSent: bool, dataSent: bool)
      requires Valid() && |chunk| <= UART_BUF_SIZE - uartRxLen
      modifies `uartRxLen, `forwarded, uartRxBuf, server`connected, server`toClient
      ensures Valid()
      ensures var polled := Poll(UplinkRule(), old(Received()) + chunk);
        && Received() == polled.buf
        && forwarded == old(forwarded) + polled.messages
        && server.connected == (old(server.connected) && SendingWorks(polled.messages, prefixSent, dataSent))
        && (server.connected ==> server.toClient == old(server.toClient) + LengthPrefixed(polled.messages))
      ensures !old(server.connected) ==> server.toClient == old(server.toClient)
    {
      hide Poll, UplinkRule, Decode, LengthPrefixed;
      CopyInto(chunk, uartRxBuf, uartRxLen);
      uartRxLen := uartRxLen + |chunk|;
      ghost var topped := Received();
      assert topped == old(Received()) + chunk;
      PolledVerdict(topped);
      PrefixOfNone();
      if uartRxLen > 0 {
        var payload := new byte[PAYLOAD_SIZE];
        var r, payloadLen, consumed := FrameDecode(uartRxBuf[..uartRxLen], payload, PAYLOAD_SIZE);
        match r {
          case OK =>
            PrefixOfOne(payload[..payloadLen]);
            server.Send(payload[..payloadLen], prefixSent, dataSent);
            forwarded := forwarded + [payload[..payloadLen]];
            Discard(consumed);
          case Corrupt =>
            Discard(consumed);
          case BufferTooSmall =>
            uartRxLen := 0;
          case NotEnoughInput =>
        }
      }
    }

    // Slide the rest of the buffer down.
    method Discard(consumed: nat)
      requires Valid() && consumed <= uartRxLen
      modifies `uartRxLen, uartRxBuf
      ensures Valid() && Received() == old(Received())[consumed..]
    {
      CopyInto(uartRxBuf[consumed..uartRxLen], uartRxBuf, 0);
      uartRxLen := uartRxLen - consumed;
    }

    // Core to LNC. The capacity check of Frame_Encode cannot fail, which the code relies on.
    method Downlink(arrival: Arrival) returns (n: nat)
      requires Valid() && (arrival.Data? ==> 0 < |arrival.bytes| && |arrival.bytes| <= RECV_BUF_SIZE - server.recvLen)
      modifies `serialOut, server`connected, server`recvLen, server.recvBuf
      ensures Valid() && n <= PAYLOAD_SIZE
      ensures !old(server.connected) ==>
        !server.connected && serialOut == old(serialOut) && server.State() == old(server.State())
      ensures old(server.connected) && arrival.PeerClosed? && old(server.recvLen) < RECV_BUF_SIZE ==>
        !server.connected && server.State() == old(server.State()).(len := 0) && serialOut == old(serialOut)
      ensures old(server.connected) && !(arrival.PeerClosed? && old(server.recvLen) < RECV_BUF_SIZE) ==>
        var polled := PollInbox(old(server.State()), Arrived(arrival), PAYLOAD_SIZE);
        && server.connected && server.State() == polled.inbox
        && AllPayloads(polled.messages) && serialOut == old(serialOut) + Frames(polled.messages)
    {
      hide PollInbox, Encode, Frames;
      var tcpPayload := new byte[PAYLOAD_SIZE];
      n := server.TryRecv(arrival, tcpPayload, PAYLOAD_SIZE);
      FramesOfFew(tcpPayload[..n]);
      if n > 0 {
        SendFrame(tcpPayload[..n]);
      }
    }

    method SendFrame(payload: seq<byte>)
      requires |payload| <= PAYLOAD_SIZE
      modifies `serialOut
      ensures serialOut == old(serialOut) + Encode(payload)
    {
      hide Encode;
      EncodedSize(payload);
      GuardsHoldWhen(PutU16(|payload|) + payload + CheckBytes(payload), 1, FRAMED_SIZE);
      var framed := new byte[FRAMED_SIZE];
      var r, framedLen := FrameEncode(payload, framed, FRAMED_SIZE);
      serialOut := serialOut + framed[..framedLen];
    }

    // One turn of the endless loop.
    method PollOnce(input: Input)
      requires Valid() && Possible(State(), input)
      modifies this, uartRxBuf, server, server.recvBuf
      ensures Valid() && server.recvBuf == old(server.recvBuf)
      ensures Turned(old(State()), State(), input)
    {
      hide Poll, PollInbox, UplinkRule, Frames, LengthPrefixed, SendingWorks;
      var connected := server.Accept(input.waiting);
      Uplink(input.chunk, input.prefixSent, input.dataSent);
      var n := Downlink(input.arrival);
    }

    // The endless loop, cut off after some turns, between a serial line and a core that connects again
    // and again.
    method RunTurns(uart: seq<byte>, core: seq<seq<byte>>, turns: seq<Turn>) returns (t: Trace)
      requires Valid() && State() == INITIAL
      modifies this, uartRxBuf, server, server.recvBuf
      ensures Valid() && Tracks(State(), uart, core, t)
      ensures t.chunks == Reads(UplinkRule(), UART_BUF_SIZE, [], uart, UartAmounts(turns))
      ensures Lasting(turns) && core != [] ==> LastsWith(State(), core, t, CoreAmounts(turns), |turns|)
    {
      t := Trace(uart, [], [], [], 0);
      NothingRunYet(uart, core, turns);
      hide RunsSoFar;
      for i := 0 to |turns|
        invariant Valid() && server.recvBuf == old(server.recvBuf)
        invariant RunsSoFar(State(), uart, core, t, turns, i)
      {
        t := OneTurn(uart, core, t, turns, i);
      }
      RunIsOver(State(), uart, core, t, turns);
    }

    method OneTurn(uart: seq<byte>, core: seq<seq<byte>>, t: Trace, turns: seq<Turn>, i: nat) returns (u: Trace)
      requires Valid() && i < |turns| && Bounded(State()) && RunsSoFar(State(), uart, core, t, turns, i)
      modifies this, uartRxBuf, server, server.recvBuf
      ensures Valid() && server.recvBuf == old(server.recvBuf)
      ensures RunsSoFar(State(), uart, core, u, turns, i + 1)
    {
      hide Turned, Possible, InputOf, Advance, RunsSoFar;
      var v := State();
      PollOnce(InputOf(v, core, t, turns[i]));
      RunGoesOn(v, State(), uart, core, t, turns, i);
      u := Advance(v, State(), core, t, turns[i]);
    }
  }

  // ---- The loop and its surroundings ----

  // One turn of the surroundings: how much the serial driver and the core's connection hand over at most,
  // and what else may happen.
  datatype Turn = Turn(waiting: bool, amount: nat, prefixSent: bool, dataSent: bool, coreAmount: nat, coreCloses: bool)

  // A run so far, with what is still to come.
  datatype Trace = Trace(
    left: seq<byte>,                 // what the serial driver still holds
    chunks: seq<seq<byte>>,          // what has been read from it, poll by poll
    rest: seq<byte>,                 // what the core has yet to deliver on the current connection
    sessions: seq<Session>,          // what has been read from the core, connection by connection
    since: nat)                      // how many payloads had been forwarded when the current one came up

  function UartAmounts(turns: seq<Turn>): (amounts: seq<nat>)
    ensures |amounts| == |turns|
  {
    seq(|turns|, i requires 0 <= i < |turns| => turns[i].amount)
  }

  function CoreAmounts(turns: seq<Turn>): (amounts: seq<nat>)
    ensures |amounts| == |turns|
  {
    seq(|turns|, i requires 0 <= i < |turns| => turns[i].coreAmount)
  }

  predicate Bounded(v: View) { |v.received| <= UART_BUF_SIZE && v.inbox.len <= RECV_BUF_SIZE }

  // The core opens its next connection.
  predicate Accepts(v: View, core: seq<seq<byte>>, t: Trace, turn: Turn) {
    !v.connected && turn.waiting && |t.sessions| < |core|
  }

  function Admit(v: View, core: seq<seq<byte>>, t: Trace, turn: Turn): Trace {
    if Accepts(v, core, t, turn)
    then t.(rest := core[|t.sessions|], sessions := t.sessions + [[]], since := |v.forwarded|)
    else t
  }

  function FromUart(v: View, t: Trace, turn: Turn): (chunk: seq<byte>)
    requires Bounded(v)
    ensures chunk <= t.left && |v.received| + |chunk| <= UART_BUF_SIZE
  {
    t.left[..Readable(UART_BUF_SIZE, v.received, t.left, turn.amount)]
  }

  function FromCore(v: View, core: seq<seq<byte>>, t: Trace, turn: Turn): (chunk: seq<byte>)
    requires Bounded(v)
    ensures chunk <= Admit(v, core, t, turn).rest
    ensures InboxOf(v, Accepts(v, core, t, turn)).len + |chunk| <= RECV_BUF_SIZE
  {
    if turn.coreCloses then [] else
    var rest := Admit(v, core, t, turn).rest;
    rest[..Readable(RECV_BUF_SIZE, InboxOf(v, Accepts(v, core, t, turn)).Pending(), rest, turn.coreAmount)]
  }

  function InputOf(v: View, core: seq<seq<byte>>, t: Trace, turn: Turn): (input: Input)
    requires Bounded(v)
    ensures Possible(v, input)
  {
    var chunk := FromCore(v, core, t, turn);
    var arrival := if turn.coreCloses then PeerClosed else if chunk == [] then NothingYet else Data(chunk);
    Input(Accepts(v, core, t, turn), FromUart(v, t, turn), turn.prefixSent, turn.dataSent, arrival)
  }

  // What the turn from v to w adds to the run.
  function Advance(v: View, w: View, core: seq<seq<byte>>, t: Trace, turn: Turn): Trace
    requires Bounded(v)
  {
    var chunk := FromUart(v, t, turn);
    var u := Admit(v, core, t, turn).(left := t.left[|chunk|..], chunks := t.chunks + [chunk]);
    if !w.connected || u.sessions == [] then u else
    var more := FromCore(v, core, t, turn);
    u.(rest := u.rest[|more|..], sessions := Extended(u.sessions, more))
  }

  // One more poll of the last session.
  function Extended(sessions: seq<Session>, chunk: seq<byte>): seq<Session>
    requires sessions != []
  {
    sessions[..|sessions| - 1] + [sessions[|sessions| - 1] + [chunk]]
  }

  predicate AllUnwrapped(sessions: seq<Session>) {
    forall s <- sessions :: Unwrapped(PAYLOAD_SIZE, [], s)
  }

  // The messages the core got across, connection by connection.
  function Sent(sessions: seq<Session>): (ms: seq<seq<byte>>)
    ensures forall m <- ms :: 0 < |m| <= PAYLOAD_SIZE
  {
    AllReadAreShort(EMPTY, sessions, PAYLOAD_SIZE);
    ReadSessions(EMPTY, sessions, PAYLOAD_SIZE).messages
  }

  function InboxAfter(sessions: seq<Session>): RecvState {
    ReadSessions(EMPTY, sessions, PAYLOAD_SIZE).inbox
  }

  // Buffers and outputs are what the run so far makes them.
  ghost predicate Tracks(v: View, uart: seq<byte>, core: seq<seq<byte>>, t: Trace) {
    UplinkTracked(v, uart, t) && SessionsTracked(v, core, t)
  }

  ghost predicate SessionsTracked(v: View, core: seq<seq<byte>>, t: Trace) {
    && |t.sessions| <= |core| && (forall k :: 0 <= k < |t.sessions| ==> Flatten(t.sessions[k]) <= core[k])
    && v.serialOut == Frames(Sent(t.sessions)) && v.inbox.(len := 0) == InboxAfter(t.sessions).(len := 0)
    && (v.connected ==> ConnectionTracked(v, core, t))
  }

  ghost predicate UplinkTracked(v: View, uart: seq<byte>, t: Trace) {
    && Bounded(v)
    && Flatten(t.chunks) + t.left == uart
    && Fits(UplinkRule(), UART_BUF_SIZE, [], t.chunks)
    && Outcome(v.forwarded, v.received) == Run(UplinkRule(), [], t.chunks)
  }

  ghost predicate ConnectionTracked(v: View, core: seq<seq<byte>>, t: Trace)
    requires |t.sessions| <= |core|
  {
    && t.sessions != []
    && Flatten(Last(t.sessions)) + t.rest == core[|t.sessions| - 1]
    && v.inbox == InboxAfter(t.sessions)
    && t.since <= |v.forwarded| && v.toClient == LengthPrefixed(v.forwarded[t.since..])
  }

  function Last(sessions: seq<Session>): Session
    requires sessions != []
  {
    sessions[|sessions| - 1]
  }

  // The serial bytes still to be read by the remaining turns complete what Reads foresees.
  ghost predicate ReadsOn(v: View, uart: seq<byte>, t: Trace, amounts: seq<nat>, i: nat) {
    && Bounded(v) && i <= |amounts|
    && t.chunks + Reads(UplinkRule(), UART_BUF_SIZE, v.received, t.left, amounts[i..]) ==
         Reads(UplinkRule(), UART_BUF_SIZE, [], uart, amounts)
  }

  // The core connects at once and nothing ever goes wrong with the connection.
  predicate Lasting(turns: seq<Turn>) {
    turns != [] && turns[0].waiting && forall turn <- turns :: turn.prefixSent && turn.dataSent && !turn.coreCloses
  }

  // It is still the first connection, and the same holds of what is read from it.
  ghost predicate LastsWith(v: View, core: seq<seq<byte>>, t: Trace, amounts: seq<nat>, i: nat)
    requires core != []
  {
    && v.connected && Bounded(v) && i <= |amounts| && |t.sessions| == 1 && t.since == 0
    && (AllUnwrapped(t.sessions) ==>
          t.sessions[0] + Reads(Parse(PAYLOAD_SIZE), RECV_BUF_SIZE, v.inbox.Pending(), t.rest, amounts[i..]) ==
            Reads(Parse(PAYLOAD_SIZE), RECV_BUF_SIZE, [], core[0], amounts))
  }

  lemma {:induction false} FramesConcat(xs: seq<Payload>, ys: seq<Payload>)
    ensures Frames(xs + ys) == Frames(xs) + Frames(ys)
  {
    hide Encode;
    if xs == [] {
      assert xs + ys == ys;
    } else {
      assert (xs + ys)[1..] == xs[1..] + ys;
      FramesConcat(xs[1..], ys);
    }
  }

  lemma {:induction false} PrefixedConcat(xs: seq<seq<byte>>, ys: seq<seq<byte>>)
    ensures LengthPrefixed(xs + ys) == LengthPrefixed(xs) + LengthPrefixed(ys)
  {
    hide PutU32;
    if xs == [] {
      assert xs + ys == ys;
    } else {
      assert (xs + ys)[1..] == xs[1..] + ys;
      PrefixedConcat(xs[1..], ys);
    }
  }

  // A connection on which nothing has been read yet.
  lemma NewSession(sessions: seq<Session>)
    ensures Sent(sessions + [[]]) == Sent(sessions)
    ensures InboxAfter(sessions + [[]]) == InboxAfter(sessions).(len := 0)
  {
    var longer: seq<Session> := sessions + [[]];
    assert longer[..|longer| - 1] == sessions;
    assert Sent(sessions) + [] == Sent(sessions);
  }

  lemma ExtendedSession(sessions: seq<Session>, chunk: seq<byte>)
    requires sessions != []
    ensures var polled := PollInbox(InboxAfter(sessions), chunk, PAYLOAD_SIZE);
      && Sent(Extended(sessions, chunk)) == Sent(sessions) + polled.messages
      && InboxAfter(Extended(sessions, chunk)) == polled.inbox
    ensures Flatten(Last(sessions) + [chunk]) == Flatten(Last(sessions)) + chunk
  {
    hide PollInbox;
    var init, last, longer := sessions[..|sessions| - 1], Last(sessions), Extended(sessions, chunk);
    assert longer[..|longer| - 1] == init && (last + [chunk])[..|last|] == last;
    var before := ReadSessions(EMPTY, init, PAYLOAD_SIZE);
    var read := ReadSession(before.inbox.(len := 0), last, PAYLOAD_SIZE);
    var polled := PollInbox(read.inbox, chunk, PAYLOAD_SIZE);
    Reassociate(before.messages, read.messages, polled.messages);
    RunOneMore(Parse(PAYLOAD_SIZE), last, chunk);
  }

  // Of a first connection without wrapping prefixes.
  lemma ExtendedUnwrapped(session: Session, chunk: seq<byte>)
    ensures Unwrapped(PAYLOAD_SIZE, [], session + [chunk]) ==>
      && Unwrapped(PAYLOAD_SIZE, [], session) && !Wraps(InboxAfter([session]).Pending() + chunk)
  {
    hide Parse, Wraps, Unwrapped;
    UnwrappedSoFar(PAYLOAD_SIZE, [], session, chunk);
    if Unwrapped(PAYLOAD_SIZE, [], session) { OneSession(session); }
  }

  lemma NothingTracked(uart: seq<byte>, core: seq<seq<byte>>, turns: seq<Turn>)
    ensures var v, t := INITIAL, Trace(uart, [], [], [], 0);
      Tracks(v, uart, core, t) && ReadsOn(v, uart, t, UartAmounts(turns), 0)
  {
    EmptyRun(UplinkRule(), UART_BUF_SIZE);
    assert [] + uart == uart;
    var amounts := UartAmounts(turns);
    assert amounts[0..] == amounts;
    assert [] + Reads(UplinkRule(), UART_BUF_SIZE, [], uart, amounts) ==
      Reads(UplinkRule(), UART_BUF_SIZE, [], uart, amounts);
    assert Frames([]) == [] && Sent([]) == [];
  }

  lemma TurnIsTracked(v: View, w: View, uart: seq<byte>, core: seq<seq<byte>>, t: Trace, turn: Turn)
    requires Tracks(v, uart, core, t) && Bounded(w) && Turned(v, w, InputOf(v, core, t, turn))
    ensures Tracks(w, uart, core, Advance(v, w, core, t, turn))
  {
    hide UplinkTracked, SessionsTracked, Turned;
    UplinkIsTracked(v, w, uart, core, t, turn);
    SessionsAreTracked(v, w, uart, core, t, turn);
  }

  // The state the connection is in just before the downlink half of the turn.
  ghost predicate AdmissionTracked(v: View, core: seq<seq<byte>>, t: Trace, turn: Turn) {
    var a := Admit(v, core, t, turn);
    && |a.sessions| <= |core| && (forall k :: 0 <= k < |a.sessions| ==> Flatten(a.sessions[k]) <= core[k])
    && v.serialOut == Frames(Sent(a.sessions)) && v.inbox.(len := 0) == InboxAfter(a.sessions).(len := 0)
    && (v.connected || Accepts(v, core, t, turn) ==>
          && a.sessions != [] && Flatten(Last(a.sessions)) + a.rest == core[|a.sessions| - 1]
          && InboxOf(v, Accepts(v, core, t, turn)) == InboxAfter(a.sessions))
  }

  lemma Admitting(v: View, uart: seq<byte>, core: seq<seq<byte>>, t: Trace, turn: Turn)
    requires Tracks(v, uart, core, t)
    ensures AdmissionTracked(v, core, t, turn)
  {
    hide Sent, Frames, InboxAfter, UplinkTracked, LengthPrefixed;
    NewSession(t.sessions);
  }

  lemma SessionsAreTracked(v: View, w: View, uart: seq<byte>, core: seq<seq<byte>>, t: Trace, turn: Turn)
    requires Tracks(v, uart, core, t) && Bounded(w) && Turned(v, w, InputOf(v, core, t, turn))
    ensures SessionsTracked(w, core, Advance(v, w, core, t, turn))
  {
    hide Turned, InputOf;
    Admitting(v, uart, core, t, turn);
    if w.connected {
      OnlineIsTracked(v, w, core, t, turn);
    } else {
      TurnedOffline(v, w, InputOf(v, core, t, turn));
      hide Sent, InboxAfter, Frames, ConnectionTracked, Flatten;
    }
  }

  lemma TurnedOffline(v: View, w: View, input: Input)
    requires Turned(v, w, input) && !w.connected
    ensures w.serialOut == v.serialOut && w.inbox.(len := 0) == v.inbox.(len := 0)
  {
    hide Frames, PollInbox, LengthPrefixed, Poll, UplinkRule, SendingWorks;
  }

  lemma OnlineIsTracked(v: View, w: View, core: seq<seq<byte>>, t: Trace, turn: Turn)
    requires Bounded(v) && AdmissionTracked(v, core, t, turn) && Turned(v, w, InputOf(v, core, t, turn)) && w.connected
    requires v.connected ==> t.since <= |v.forwarded| && v.toClient == LengthPrefixed(v.forwarded[t.since..])
    ensures SessionsTracked(w, core, Advance(v, w, core, t, turn))
  {
    hide Turned, InputOf, Sent, InboxAfter, Frames, LengthPrefixed, PollInbox, Poll, Flatten, UplinkRule, FromUart,
      InboxOf, FromCore, Accepts;
    var a, u := Admit(v, core, t, turn), Advance(v, w, core, t, turn);
    TurnedOnline(v, w, core, t, turn);
    PollIsTracked(w, core, a, u, v.serialOut, FromCore(v, core, t, turn));
    ForwardedSince(v, w, Poll(UplinkRule(), v.received + FromUart(v, t, turn)).messages, a.since);
  }

  lemma UplinkIsTracked(v: View, w: View, uart: seq<byte>, core: seq<seq<byte>>, t: Trace, turn: Turn)
    requires UplinkTracked(v, uart, t) && Bounded(w) && Turned(v, w, InputOf(v, core, t, turn))
    ensures UplinkTracked(w, uart, Advance(v, w, core, t, turn))
  {
    hide Poll, UplinkRule, Flatten, Run, Fits, Frames, LengthPrefixed, PollInbox, Readable;
    var chunk := FromUart(v, t, turn);
    RunOneMore(UplinkRule(), t.chunks, chunk);
    OneMorePoll(UplinkRule(), UART_BUF_SIZE, [], t.chunks, chunk);
    assert t.left == chunk + t.left[|chunk|..];
    Regroup(Flatten(t.chunks), chunk, t.left[|chunk|..], Flatten(t.chunks) + chunk);
  }

  // The downlink half, with the connection up: a is the run before it, u after it.
  lemma PollIsTracked(w: View, core: seq<seq<byte>>, a: Trace, u: Trace, serialOut: seq<byte>, more: seq<byte>)
    requires a.sessions != [] && |a.sessions| <= |core|
    requires forall k :: 0 <= k < |a.sessions| ==> Flatten(a.sessions[k]) <= core[k]
    requires Flatten(Last(a.sessions)) + a.rest == core[|a.sessions| - 1] && more <= a.rest
    requires serialOut == Frames(Sent(a.sessions))
    requires var down := PollInbox(InboxAfter(a.sessions), more, PAYLOAD_SIZE);
      w.inbox == down.inbox && AllPayloads(down.messages) && w.serialOut == serialOut + Frames(down.messages)
    requires u.sessions == Extended(a.sessions, more) && u.rest == a.rest[|more|..]
    ensures forall k :: 0 <= k < |u.sessions| ==> Flatten(u.sessions[k]) <= core[k]
    ensures Flatten(Last(u.sessions)) + u.rest == core[|u.sessions| - 1]
    ensures w.serialOut == Frames(Sent(u.sessions)) && w.inbox == InboxAfter(u.sessions)
  {
    hide Sent, InboxAfter, Frames, PollInbox, Flatten;
    ExtendedSession(a.sessions, more);
    assert a.rest == more + a.rest[|more|..];
    Regroup(Flatten(Last(a.sessions)), more, u.rest, Flatten(Last(a.sessions)) + more);
    FramesConcat(Sent(a.sessions), PollInbox(InboxAfter(a.sessions), more, PAYLOAD_SIZE).messages);
  }

  // What a turn does that leaves the connection up.
  lemma TurnedOnline(v: View, w: View, core: seq<seq<byte>>, t: Trace, turn: Turn)
    requires Bounded(v) && Turned(v, w, InputOf(v, core, t, turn)) && w.connected
    ensures v.connected || Accepts(v, core, t, turn)
    ensures var down := PollInbox(InboxOf(v, Accepts(v, core, t, turn)), FromCore(v, core, t, turn), PAYLOAD_SIZE);
      w.inbox == down.inbox && AllPayloads(down.messages) && w.serialOut == v.serialOut + Frames(down.messages)
    ensures var up := Poll(UplinkRule(), v.received + FromUart(v, t, turn)).messages;
      && w.forwarded == v.forwarded + up
      && w.toClient == (if Accepts(v, core, t, turn) then [] else v.toClient) + LengthPrefixed(up)
  {
    hide Frames, PollInbox, LengthPrefixed, Poll, UplinkRule, SendingWorks, InboxOf;
    assert Arrived(InputOf(v, core, t, turn).arrival) == FromCore(v, core, t, turn);
  }

  lemma ForwardedSince(v: View, w: View, up: seq<seq<byte>>, since: nat)
    requires w.forwarded == v.forwarded + up && since <= |v.forwarded|
    ensures LengthPrefixed(w.forwarded[since..]) == LengthPrefixed(v.forwarded[since..]) + LengthPrefixed(up)
    ensures LengthPrefixed(v.forwarded[|v.forwarded|..]) == []
  {
    assert w.forwarded[since..] == v.forwarded[since..] + up;
    PrefixedConcat(v.forwarded[since..], up);
  }

  lemma TurnReadsOn(v: View, w: View, uart: seq<byte>, core: seq<seq<byte>>, t: Trace, turns: seq<Turn>, i: nat)
    requires i < |turns| && ReadsOn(v, uart, t, UartAmounts(turns), i)
    requires Bounded(w) && Turned(v, w, InputOf(v, core, t, turns[i]))
    ensures ReadsOn(w, uart, Advance(v, w, core, t, turns[i]), UartAmounts(turns), i + 1)
  {
    hide Poll, UplinkRule, PollInbox, Frames, LengthPrefixed, SendingWorks, Readable;
    ReadsStep(UplinkRule(), UART_BUF_SIZE, v.received, t.left, UartAmounts(turns), i, t.chunks);
  }

  lemma StaysOnline(v: View, w: View, core: seq<seq<byte>>, t: Trace, turn: Turn)
    requires Bounded(v) && Turned(v, w, InputOf(v, core, t, turn)) && (v.connected || Accepts(v, core, t, turn))
    requires turn.prefixSent && turn.dataSent && !turn.coreCloses
    ensures w.connected
  {
    hide Poll, UplinkRule, PollInbox, Frames, LengthPrefixed, FromCore, FromUart, InboxOf;
  }

  lemma TurnLasts(v: View, w: View, uart: seq<byte>, core: seq<seq<byte>>, t: Trace, turns: seq<Turn>, i: nat)
    requires i < |turns| && core != [] && Lasting(turns) && Tracks(v, uart, core, t)
    requires i == 0 ==> v == INITIAL && t.sessions == []
    requires i > 0 ==> LastsWith(v, core, t, CoreAmounts(turns), i)
    requires Bounded(w) && Turned(v, w, InputOf(v, core, t, turns[i]))
    ensures LastsWith(w, core, Advance(v, w, core, t, turns[i]), CoreAmounts(turns), i + 1)
  {
    var turn, amounts := turns[i], CoreAmounts(turns);
    var session := LastingSoFar(v, uart, core, t, turns, i);
    assert turn in turns && turn.prefixSent && turn.dataSent && !turn.coreCloses && turn.coreAmount == amounts[i];
    hide Lasting, Turned, InputOf, Tracks, InboxOf, InboxAfter, Accepts, Admit, CoreAmounts, AllUnwrapped, PollInbox,
      Reads;
    hide Parse, Poll, UplinkRule, Frames, LengthPrefixed, Readable, Advance, FromUart, LastsWith;
    StaysOnline(v, w, core, t, turn);
    TurnedOnline(v, w, core, t, turn);
    AdvanceOnline(v, w, core, t, turn);
    hide FromCore, Extended, Bounded;
    TurnLastsOn(v, w, core, t, turn, session, amounts, i);
  }

  lemma TurnLastsOn(v: View, w: View, core: seq<seq<byte>>, t: Trace, turn: Turn, session: Session,
      amounts: seq<nat>, i: nat)
    requires core != [] && i < |amounts| && turn.coreAmount == amounts[i] && !turn.coreCloses
    requires Bounded(v) && Bounded(w) && w.connected
    requires var inbox, more := InboxOf(v, Accepts(v, core, t, turn)), FromCore(v, core, t, turn);
      var a, u := Admit(v, core, t, turn), Advance(v, w, core, t, turn);
      && a.sessions == [session] && a.since == 0
      && inbox == InboxAfter([session]) && w.inbox == PollInbox(inbox, more, PAYLOAD_SIZE).inbox
      && u.sessions == Extended(a.sessions, more) && u.rest == a.rest[|more|..] && u.since == a.since
      && (AllUnwrapped([session]) ==>
            session + Reads(Parse(PAYLOAD_SIZE), RECV_BUF_SIZE, inbox.Pending(), a.rest, amounts[i..]) ==
              Reads(Parse(PAYLOAD_SIZE), RECV_BUF_SIZE, [], core[0], amounts))
    ensures LastsWith(w, core, Advance(v, w, core, t, turn), amounts, i + 1)
  {
    hide InboxOf, InboxAfter, Accepts, Admit, AllUnwrapped, PollInbox, Reads, Parse, Readable, Advance, LastsWith;
    var a, more := Admit(v, core, t, turn), FromCore(v, core, t, turn);
    ExtendOne(session, more);
    hide Extended;
    ReadOn(w, core, a, InboxOf(v, Accepts(v, core, t, turn)), session, more, amounts, i);
    LastsNext(w, core, Advance(v, w, core, t, turn), session + [more], amounts, i + 1);
  }

  lemma ExtendOne(session: Session, chunk: seq<byte>)
    ensures Extended([session], chunk) == [session + [chunk]]
  {
  }

  lemma LastsNext(w: View, core: seq<seq<byte>>, u: Trace, session: Session, amounts: seq<nat>, i: nat)
    requires core != [] && w.connected && Bounded(w) && i <= |amounts| && u.sessions == [session] && u.since == 0
    requires AllUnwrapped([session]) ==>
      session + Reads(Parse(PAYLOAD_SIZE), RECV_BUF_SIZE, w.inbox.Pending(), u.rest, amounts[i..]) ==
        Reads(Parse(PAYLOAD_SIZE), RECV_BUF_SIZE, [], core[0], amounts)
    ensures LastsWith(w, core, u, amounts, i)
  {
    hide Parse, Reads, AllUnwrapped;
  }

  // One more poll of an only connection.
  lemma ReadOn(w: View, core: seq<seq<byte>>, a: Trace, inbox: RecvState, session: Session, more: seq<byte>,
      amounts: seq<nat>, i: nat)
    requires core != [] && i < |amounts| && inbox.len <= RECV_BUF_SIZE
    requires more == a.rest[..Readable(RECV_BUF_SIZE, inbox.Pending(), a.rest, amounts[i])]
    requires inbox == InboxAfter([session]) && w.inbox == PollInbox(inbox, more, PAYLOAD_SIZE).inbox
    requires w.inbox.len <= RECV_BUF_SIZE
    requires AllUnwrapped([session]) ==>
      session + Reads(Parse(PAYLOAD_SIZE), RECV_BUF_SIZE, inbox.Pending(), a.rest, amounts[i..]) ==
        Reads(Parse(PAYLOAD_SIZE), RECV_BUF_SIZE, [], core[0], amounts)
    ensures AllUnwrapped([session + [more]]) ==>
      session + [more] + Reads(Parse(PAYLOAD_SIZE), RECV_BUF_SIZE, w.inbox.Pending(), a.rest[|more|..],
        amounts[i + 1..]) ==
        Reads(Parse(PAYLOAD_SIZE), RECV_BUF_SIZE, [], core[0], amounts)
  {
    hide AllUnwrapped, Wraps, Poll, PollInbox, Parse, Reads, InboxAfter, Readable, Unwrapped;
    OneUnwrapped(session);
    OneUnwrapped(session + [more]);
    if Unwrapped(PAYLOAD_SIZE, [], session + [more]) {
      ExtendedUnwrapped(session, more);
      PollInboxIsPoll(inbox, more, PAYLOAD_SIZE);
      ReadsStep(Parse(PAYLOAD_SIZE), RECV_BUF_SIZE, inbox.Pending(), a.rest, amounts, i, session);
    }
  }

  lemma OneUnwrapped(session: Session)
    ensures AllUnwrapped([session]) <==> Unwrapped(PAYLOAD_SIZE, [], session)
  {
    hide Unwrapped;
    assert session in [session];
  }

  // Before a turn of a lasting run, with the core's connection accepted.
  lemma LastingSoFar(v: View, uart: seq<byte>, core: seq<seq<byte>>, t: Trace, turns: seq<Turn>, i: nat)
      returns (session: Session)
    requires i < |turns| && core != [] && Lasting(turns) && Tracks(v, uart, core, t)
    requires i == 0 ==> v == INITIAL && t.sessions == []
    requires i > 0 ==> LastsWith(v, core, t, CoreAmounts(turns), i)
    ensures v.connected || Accepts(v, core, t, turns[i])
    ensures var a, amounts := Admit(v, core, t, turns[i]), CoreAmounts(turns);
      var inbox := InboxOf(v, Accepts(v, core, t, turns[i]));
      && a.sessions == [session] && a.since == 0
      && inbox == InboxAfter([session]) && inbox.len <= RECV_BUF_SIZE
      && (AllUnwrapped([session]) ==>
            session + Reads(Parse(PAYLOAD_SIZE), RECV_BUF_SIZE, inbox.Pending(), a.rest, amounts[i..]) ==
              Reads(Parse(PAYLOAD_SIZE), RECV_BUF_SIZE, [], core[0], amounts))
  {
    hide Tracks, AllUnwrapped, Reads, Parse, InboxAfter;
    AdmittedInbox(v, uart, core, t, turns[i]);
    session := Admit(v, core, t, turns[i]).sessions[0];
    assert Admit(v, core, t, turns[i]).sessions == [session];
    if i == 0 {
      var amounts := CoreAmounts(turns);
      var all := Reads(Parse(PAYLOAD_SIZE), RECV_BUF_SIZE, [], core[0], amounts);
      assert amounts[0..] == amounts && [] + all == all && v.inbox.(len := 0).Pending() == [];
    }
  }

  lemma AdmittedInbox(v: View, uart: seq<byte>, core: seq<seq<byte>>, t: Trace, turn: Turn)
    requires Tracks(v, uart, core, t)
    ensures v.connected || Accepts(v, core, t, turn) ==>
      InboxOf(v, Accepts(v, core, t, turn)) == InboxAfter(Admit(v, core, t, turn).sessions)
  {
    hide Tracks, InboxOf, InboxAfter, Admit, Accepts, Sent, Frames, Flatten;
    Admitting(v, uart, core, t, turn);
  }

  lemma AdvanceOnline(v: View, w: View, core: seq<seq<byte>>, t: Trace, turn: Turn)
    requires Bounded(v) && w.connected && Admit(v, core, t, turn).sessions != []
    ensures var a, more, u := Admit(v, core, t, turn), FromCore(v, core, t, turn), Advance(v, w, core, t, turn);
      u.sessions == Extended(a.sessions, more) && u.rest == a.rest[|more|..] && u.since == a.since
  {
    hide FromCore, FromUart, Admit;
  }

  // The run after i turns.
  ghost predicate RunsSoFar(v: View, uart: seq<byte>, core: seq<seq<byte>>, t: Trace, turns: seq<Turn>, i: nat) {
    && Bounded(v) && Tracks(v, uart, core, t) && ReadsOn(v, uart, t, UartAmounts(turns), i)
    && (i == 0 ==> v == INITIAL && t.sessions == [])
    && (Lasting(turns) && core != [] && i > 0 ==> LastsWith(v, core, t, CoreAmounts(turns), i))
  }

  lemma NothingRunYet(uart: seq<byte>, core: seq<seq<byte>>, turns: seq<Turn>)
    ensures RunsSoFar(INITIAL, uart, core, Trace(uart, [], [], [], 0), turns, 0)
  {
    NothingTracked(uart, core, turns);
  }

  lemma RunGoesOn(v: View, w: View, uart: seq<byte>, core: seq<seq<byte>>, t: Trace, turns: seq<Turn>, i: nat)
    requires i < |turns| && RunsSoFar(v, uart, core, t, turns, i) && Bounded(w)
    requires Turned(v, w, InputOf(v, core, t, turns[i]))
    ensures RunsSoFar(w, uart, core, Advance(v, w, core, t, turns[i]), turns, i + 1)
  {
    hide Turned, Tracks, ReadsOn, LastsWith, Lasting, Advance, InputOf;
    TurnIsTracked(v, w, uart, core, t, turns[i]);
    TurnReadsOn(v, w, uart, core, t, turns, i);
    if Lasting(turns) && core != [] { TurnLasts(v, w, uart, core, t, turns, i); }
  }

  lemma RunIsOver(v: View, uart: seq<byte>, core: seq<seq<byte>>, t: Trace, turns: seq<Turn>)
    requires RunsSoFar(v, uart, core, t, turns, |turns|)
    ensures Tracks(v, uart, core, t)
    ensures t.chunks == Reads(UplinkRule(), UART_BUF_SIZE, [], uart, UartAmounts(turns))
    ensures Lasting(turns) && core != [] ==> LastsWith(v, core, t, CoreAmounts(turns), |turns|)
  {
    hide Tracks, LastsWith;
    NothingLeftToRead(v, uart, t, UartAmounts(turns));
  }

  lemma NothingLeftToRead(v: View, uart: seq<byte>, t: Trace, amounts: seq<nat>)
    requires ReadsOn(v, uart, t, amounts, |amounts|)
    ensures t.chunks == Reads(UplinkRule(), UART_BUF_SIZE, [], uart, amounts)
  {
    assert t.chunks + [] == t.chunks;
  }

  lemma EmptyRun<T>(parse: seq<byte> -> Action<T>, cap: nat)
    ensures Run(parse, [], []) == Outcome([], []) && Fits(parse, cap, [], []) && Flatten([]) == []
  {
  }

  ghost predicate AllPayloads(ms: seq<seq<byte>>) {
    forall m <- ms :: |m| < 0x1_0000
  }

  lemma FramesOfFew(m: seq<byte>)
    requires |m| < 0x1_0000
    ensures Frames([]) == [] && Frames([m]) == Encode(m)
  {
    hide Encode;
    assert [m][1..] == [];
  }

  // ---- Uplink over whole runs, on any bytes ----

  lemma UplinkIsStable()
    ensures Stable(UplinkRule())
  {
    hide Decode;
    PolledVerdict([]);
    forall input, more | !UplinkRule()(input).Wait? ensures UplinkRule()(input + more) == UplinkRule()(input) {
      VerdictIsFinal(input, more, PAYLOAD_SIZE);
    }
    forall input | UplinkRule()(input).Take?
      ensures var n := UplinkRule()(input).n; 0 < n <= |input| && UplinkRule()(input[..n]) == UplinkRule()(input)
    {
      ConsumedIsInside(input);
      FirstVerdict(input, PAYLOAD_SIZE, UplinkRule()(input).n);
    }
  }

  lemma ConsumedIsInside(input: seq<byte>)
    ensures Decode(input, PAYLOAD_SIZE).Consumes() ==> 0 < Decode(input, PAYLOAD_SIZE).consumed <= |input|
  {
  }

  // Main result: whatever bytes the serial line brings and however they arrive, at every moment of every run
  // the payloads forwarded, with those still to be cut off what is buffered and to come, are the payloads cut
  // off the whole line; until a frame that is too large resets the buffer. That frame ends the cut, and all
  // payloads in front of it have been forwarded first, in order.
  lemma AnyLineIsCut(v: View, uart: seq<byte>, core: seq<seq<byte>>, t: Trace)
    requires Tracks(v, uart, core, t)
    ensures var cut := Cut(UplinkRule(), uart);
      if Resets(UplinkRule(), [], t.chunks) then UplinkRule()(cut.buf).Reset? && cut.messages <= v.forwarded
      else
        var rest := Cut(UplinkRule(), v.received + t.left);
        cut == Outcome(v.forwarded + rest.messages, rest.buf)
  {
    hide UplinkRule, Run, Flatten, Fits, SessionsTracked, Stable, Cut, Resets;
    UplinkIsStable();
    assert [] + Flatten(t.chunks) == Flatten(t.chunks);
    RunCuts(UplinkRule(), [], t.chunks, t.left);
  }

  // Main result: if nothing to be cut off the line exceeds 256 bytes, what is left at its end included, every
  // run forwards it all, once it has had as many turns with something to read as there are bytes and frames.
  lemma AnyLineProgresses(v: View, uart: seq<byte>, core: seq<seq<byte>>, t: Trace, amounts: seq<nat>)
    requires Tracks(v, uart, core, t) && t.chunks == Reads(UplinkRule(), UART_BUF_SIZE, [], uart, amounts)
    requires CutFits(UplinkRule(), UART_BUF_SIZE, uart) && Busy(amounts) >= |uart| + Takes(UplinkRule(), uart)
    ensures t.left == [] && Outcome(v.forwarded, v.received) == Cut(UplinkRule(), uart)
  {
    hide UplinkRule, Run, Flatten, Fits, SessionsTracked, Stable, Cut, CutFits, Takes, Reads;
    UplinkIsStable();
    assert [] + uart == uart;
    EveryRunCuts(UplinkRule(), UART_BUF_SIZE, [], uart, amounts);
  }

  // ---- Uplink over whole runs, on frames and noise ----

  // What the LNC puts on the wire between two frames' ends: noise, then a frame whose check may be wrong.
  datatype LineBurst = LineBurst(noise: seq<byte>, payload: seq<byte>, check: seq<byte>) {
    predicate WellFormed() {
      START !in noise && |payload| <= PAYLOAD_SIZE && |check| == 2
    }

    function Bytes(): seq<byte>
      requires WellFormed()
    {
      noise + RawFrame(payload, check)
    }

    predicate Intact()
      requires WellFormed()
    {
      CheckMatches(PutU16(|payload|), payload, check)
    }
  }

  type Burst = b: LineBurst | b.WellFormed() witness LineBurst([], [], [0, 0])

  function UartSegments(bursts: seq<Burst>): (segments: seq<Segment<seq<byte>>>)
    ensures |segments| == |bursts|
    ensures forall i :: 0 <= i < |bursts| ==> segments[i] == UartSegment(bursts[i])
  {
    seq(|bursts|, i requires 0 <= i < |bursts| => UartSegment(bursts[i]))
  }

  function UartSegment(b: Burst): Segment<seq<byte>> {
    Segment(b.Bytes(), if b.Intact() then Some(b.payload) else None)
  }

  // The payloads of the frames that arrived intact.
  function IntactPayloads(bursts: seq<Burst>): seq<seq<byte>> {
    if bursts == [] then []
    else (if bursts[0].Intact() then [bursts[0].payload] else []) + IntactPayloads(bursts[1..])
  }

  lemma {:induction false} MessagesAreIntactPayloads(bursts: seq<Burst>)
    ensures Messages(UartSegments(bursts)) == IntactPayloads(bursts)
  {
    hide CheckMatches, RawFrame;
    if bursts != [] {
      MessagesAreIntactPayloads(bursts[1..]);
      assert UartSegments(bursts)[1..] == UartSegments(bursts[1..]);
    }
  }

  lemma BurstIsRecognised(b: Burst)
    ensures Recognised(UplinkRule(), UartSegment(b))
  {
    hide CheckMatches, Decode, RawFrame;
    var s := UartSegment(b);
    forall rest ensures UplinkRule()(s.bytes + rest) == Take(|s.bytes|, s.message) {
      DecodeRawFrame(b.noise, b.payload, b.check, rest, PAYLOAD_SIZE);
    }
    DecodeRawFrame(b.noise, b.payload, b.check, [], PAYLOAD_SIZE);
    assert s.bytes + [] == s.bytes;
    forall k | 0 <= k < |s.bytes| ensures UplinkRule()(s.bytes[..k]).Wait? {
      VerdictOfPrefix(s.bytes, k, PAYLOAD_SIZE);
    }
  }

  lemma BurstsAreRecognised(bursts: seq<Burst>)
    ensures AllRecognised(UplinkRule(), UartSegments(bursts))
  {
    hide Recognised;
    PolledVerdict([]);
    forall i | 0 <= i < |bursts| ensures Recognised(UplinkRule(), UartSegments(bursts)[i]) {
      BurstIsRecognised(bursts[i]);
    }
  }

  // Main result: at every moment of every run the forwarded payloads are those of the intact frames
  // among the first k bursts, and the buffer holds what has arrived after them.
  lemma UplinkIsExact(bursts: seq<Burst>, chunks: seq<seq<byte>>, ahead: seq<byte>) returns (k: nat)
    requires Flatten(chunks) + ahead == Stream(UartSegments(bursts))
    ensures k <= |bursts|
    ensures var run := Run(UplinkRule(), [], chunks);
      && run.messages == IntactPayloads(bursts[..k])
      && Flatten(chunks) == Stream(UartSegments(bursts[..k])) + run.buf
      && run.buf + ahead == Stream(UartSegments(bursts[k..]))
  {
    hide UplinkRule, Run, Stream, Messages, IntactPayloads, AllRecognised, Flatten, UartSegment;
    BurstsAreRecognised(bursts);
    assert [] + Flatten(chunks) == Flatten(chunks);
    k := NothingLostOrInvented(UplinkRule(), UartSegments(bursts), [], chunks, ahead);
    MessagesAreIntactPayloads(bursts[..k]);
    SegmentsOfSlices(bursts, k);
  }

  lemma SegmentsOfSlices(bursts: seq<Burst>, k: nat)
    requires k <= |bursts|
    ensures UartSegments(bursts)[..k] == UartSegments(bursts[..k])
    ensures UartSegments(bursts)[k..] == UartSegments(bursts[k..])
  {
    hide UartSegment, UartSegments;
    var all, front, back := UartSegments(bursts), UartSegments(bursts[..k]), UartSegments(bursts[k..]);
    assert forall i :: 0 <= i < k ==> all[..k][i] == front[i];
    assert forall i :: 0 <= i < |bursts| - k ==> all[k..][i] == back[i];
  }

  // Once everything is in, |bursts| further polls forward every intact payload and empty the buffer.
  lemma UplinkForwardsAll(bursts: seq<Burst>, chunks: seq<seq<byte>>, n: nat)
    requires Flatten(chunks) == Stream(UartSegments(bursts)) && n >= |bursts|
    ensures Run(UplinkRule(), [], chunks + Idle(n)) == Outcome(IntactPayloads(bursts), [])
  {
    hide UplinkRule, Run, Stream, Messages, IntactPayloads, AllRecognised, Flatten, UartSegment;
    BurstsAreRecognised(bursts);
    EverythingIsDelivered(UplinkRule(), UartSegments(bursts), chunks, n);
    MessagesAreIntactPayloads(bursts);
  }

  // The loop can get every burst through exactly when none exceeds the 256-byte buffer, noise included.
  lemma UplinkDeliversIff(bursts: seq<Burst>)
    ensures (exists chunks :: Delivers(UplinkRule(), UART_BUF_SIZE, UartSegments(bursts), chunks)) <==>
      forall i :: 0 <= i < |bursts| ==> |bursts[i].Bytes()| <= UART_BUF_SIZE
  {
    hide Delivers, UplinkRule;
    BurstsAreRecognised(bursts);
    DeliverableIff(UplinkRule(), UART_BUF_SIZE, UartSegments(bursts));
    assert forall i :: 0 <= i < |bursts| ==> UartSegments(bursts)[i].bytes == bursts[i].Bytes();
  }

  // As long as that holds, a full buffer always moves on: the next poll frees space without any input.
  lemma UplinkNeverStalls(bursts: seq<Burst>, buf: seq<byte>, ahead: seq<byte>)
    requires buf + ahead == Stream(UartSegments(bursts)) && |buf| == UART_BUF_SIZE
    requires forall i :: 0 <= i < |bursts| ==> |bursts[i].Bytes()| <= UART_BUF_SIZE
    ensures bursts != [] && |Poll(UplinkRule(), buf).buf| == UART_BUF_SIZE - |bursts[0].Bytes()| < UART_BUF_SIZE
  {
    hide Poll, UplinkRule, Stream;
    BurstsAreRecognised(bursts);
    assert forall i :: 0 <= i < |bursts| ==> UartSegments(bursts)[i].bytes == bursts[i].Bytes();
    FullBufferMoves(UplinkRule(), UartSegments(bursts), UART_BUF_SIZE, buf, ahead);
  }

  // Main result: with no burst above 256 bytes every run of the loop gets everything through, whatever
  // happens to the connection, once it has had as many turns with something to read as there are bytes
  // and bursts.
  lemma UplinkProgresses(v: View, uart: seq<byte>, core: seq<seq<byte>>, t: Trace, bursts: seq<Burst>,
      amounts: seq<nat>)
    requires Tracks(v, uart, core, t) && uart == Stream(UartSegments(bursts))
    requires t.chunks == Reads(UplinkRule(), UART_BUF_SIZE, [], uart, amounts)
    requires forall i :: 0 <= i < |bursts| ==> |bursts[i].Bytes()| <= UART_BUF_SIZE
    requires Busy(amounts) >= |uart| + |bursts|
    ensures t.left == [] && v.received == [] && v.forwarded == IntactPayloads(bursts)
  {
    hide Tracks, UplinkRule, Stream, IntactPayloads, UartSegments, Reads, CutFits, Takes, Cut;
    BurstsAreCut(bursts);
    AnyLineProgresses(v, uart, core, t, amounts);
  }

  // On the bytes of bursts, cutting gives the intact payloads, and the loop's buffer suffices if and only if
  // no burst exceeds it.
  lemma BurstsAreCut(bursts: seq<Burst>)
    ensures Cut(UplinkRule(), Stream(UartSegments(bursts))) == Outcome(IntactPayloads(bursts), [])
    ensures Takes(UplinkRule(), Stream(UartSegments(bursts))) == |bursts|
    ensures CutFits(UplinkRule(), UART_BUF_SIZE, Stream(UartSegments(bursts))) <==>
      forall i :: 0 <= i < |bursts| ==> |bursts[i].Bytes()| <= UART_BUF_SIZE
  {
    hide UplinkRule, Stream, Messages, IntactPayloads, AllRecognised, UartSegment, CutFits, Takes, Cut;
    BurstsAreRecognised(bursts);
    SegmentBytes(bursts);
    SegmentsAreCut(UplinkRule(), UART_BUF_SIZE, UartSegments(bursts));
    MessagesAreIntactPayloads(bursts);
  }

  lemma SegmentBytes(bursts: seq<Burst>)
    ensures forall i :: 0 <= i < |bursts| ==> UartSegments(bursts)[i].bytes == bursts[i].Bytes()
  {
  }

  // Payloads of up to 123 bytes always fit; beyond 251 bytes none does.
  lemma WhichFramesFit(payload: Payload)
    ensures |payload| <= 123 ==> |Encode(payload)| <= UART_BUF_SIZE
    ensures |payload| > 251 ==> |Encode(payload)| > UART_BUF_SIZE
  {
    EncodedSize(payload);
  }

  // ---- Downlink over whole runs ----

  function DecodeAll(input: seq<byte>, cap: nat): seq<seq<byte>>
    decreases |input|
  {
    match Decode(input, cap)
    case Complete(payload, consumed) => [payload] + DecodeAll(input[consumed..], cap)
    case Malformed(consumed) => DecodeAll(input[consumed..], cap)
    case Incomplete => []
    case TooSmall => []
  }

  lemma {:induction false} FramesDecode(payloads: seq<Payload>, cap: nat)
    requires forall p <- payloads :: |p| <= cap
    ensures DecodeAll(Frames(payloads), cap) == payloads
    decreases |payloads|
  {
    hide Encode, Decode;
    if payloads == [] {
      PolledVerdict([]);
      NothingDecodes(cap);
    } else {
      var rest := Frames(payloads[1..]);
      FrameRoundTrip([], payloads[0], rest, cap);
      assert [] + Encode(payloads[0]) + rest == Frames(payloads);
      assert Frames(payloads)[|Encode(payloads[0])|..] == rest;
      FramesDecode(payloads[1..], cap);
    }
  }

  lemma NothingDecodes(cap: nat)
    ensures Decode([], cap) == Incomplete
  {
  }

  lemma {:induction false} CutArePayloads(ms: seq<seq<byte>>)
    ensures forall m <- CutAll(ms, PAYLOAD_SIZE) :: |m| <= PAYLOAD_SIZE
  {
    if ms != [] { CutArePayloads(ms[1..]); }
  }

  // Main result: whatever the chunking, the frames for what has come out of the TCP side decode, on the
  // serial side, to exactly the nonempty messages of the core that have fully arrived, each cut to 256 bytes.
  lemma DownlinkIsExact(ms: seq<Message>, chunks: seq<seq<byte>>, ahead: seq<byte>) returns (k: nat)
    requires Flatten(chunks) + ahead == Stream(AllOnTheWire(ms, PAYLOAD_SIZE))
    ensures k <= |ms|
    ensures var run := Run(Parse(PAYLOAD_SIZE), [], chunks);
      && run.messages == CutAll(ms[..k], PAYLOAD_SIZE)
      && AllPayloads(run.messages)
      && DecodeAll(Frames(run.messages), PAYLOAD_SIZE) == run.messages
      && run.buf + ahead == Stream(AllOnTheWire(ms[k..], PAYLOAD_SIZE))
  {
    hide Run, Stream, CutAll, DecodeAll, Frames, Flatten, Parse, Encode;
    k := TcpRefinesQueue(ms, PAYLOAD_SIZE, chunks, ahead);
    var segments := AllOnTheWire(ms, PAYLOAD_SIZE);
    assert segments[..k] == AllOnTheWire(ms[..k], PAYLOAD_SIZE);
    assert segments[k..] == AllOnTheWire(ms[k..], PAYLOAD_SIZE);
    CutArePayloads(ms[..k]);
    FramesDecode(Run(Parse(PAYLOAD_SIZE), [], chunks).messages, PAYLOAD_SIZE);
  }

  // The nonempty ones among the first ks[k] messages of connection k, each cut to 256 bytes.
  function FirstOfEach(mss: seq<seq<Message>>, ks: seq<nat>): seq<seq<byte>>
    requires |ks| <= |mss| && forall k :: 0 <= k < |ks| ==> ks[k] <= |mss[k]|
  {
    if ks == [] then [] else
    var last := |ks| - 1;
    FirstOfEach(mss, ks[..last]) + CutAll(mss[last][..ks[last]], PAYLOAD_SIZE)
  }

  lemma SessionIsExact(ms: seq<Message>, session: Session) returns (k: nat)
    requires Flatten(session) <= Stream(AllOnTheWire(ms, PAYLOAD_SIZE))
    ensures Unwrapped(PAYLOAD_SIZE, [], session)
    ensures k <= |ms| && Run(Parse(PAYLOAD_SIZE), [], session).messages == CutAll(ms[..k], PAYLOAD_SIZE)
  {
    hide Run, Stream, CutAll, Flatten, Parse, Unwrapped, DecodeAll, Frames;
    var stream := Stream(AllOnTheWire(ms, PAYLOAD_SIZE));
    var ahead := stream[|Flatten(session)|..];
    assert Flatten(session) + ahead == stream && [] + Flatten(session) == Flatten(session);
    MessagesAreUnwrapped(ms, PAYLOAD_SIZE, [], session, ahead);
    k := DownlinkIsExact(ms, session, ahead);
  }

  lemma {:induction false} SessionsAreExact(mss: seq<seq<Message>>, sessions: seq<Session>) returns (ks: seq<nat>)
    requires |sessions| <= |mss|
    requires forall k :: 0 <= k < |sessions| ==> Flatten(sessions[k]) <= Stream(AllOnTheWire(mss[k], PAYLOAD_SIZE))
    ensures AllUnwrapped(sessions)
    ensures |ks| == |sessions| && forall k :: 0 <= k < |ks| ==> ks[k] <= |mss[k]|
    ensures Sent(sessions) == FirstOfEach(mss, ks)
    decreases |sessions|
  {
    hide Run, Stream, CutAll, Flatten, Parse, Unwrapped, AllOnTheWire, Sent, FirstOfEach, AllUnwrapped;
    if sessions == [] {
      ks := [];
      NoSessions(mss);
    } else {
      var last := |sessions| - 1;
      var before := SessionsAreExact(mss, sessions[..last]);
      var k := SessionIsExact(mss[last], sessions[last]);
      ks := before + [k];
      LastSession(mss, sessions, before, k);
    }
  }

  lemma NoSessions(mss: seq<seq<Message>>)
    ensures AllUnwrapped([]) && Sent([]) == FirstOfEach(mss, [])
  {
  }

  lemma LastSession(mss: seq<seq<Message>>, sessions: seq<Session>, before: seq<nat>, k: nat)
    requires sessions != [] && |before| == |sessions| - 1 < |mss| && k <= |mss[|before|]|
    requires forall i :: 0 <= i < |before| ==> before[i] <= |mss[i]|
    requires Unwrapped(PAYLOAD_SIZE, [], Last(sessions)) && AllUnwrapped(sessions[..|before|])
    ensures AllUnwrapped(sessions)
    ensures Sent(sessions) == Sent(sessions[..|before|]) + Run(Parse(PAYLOAD_SIZE), [], Last(sessions)).messages
    ensures FirstOfEach(mss, before + [k]) ==
      FirstOfEach(mss, before) + CutAll(mss[|before|][..k], PAYLOAD_SIZE)
  {
    hide Run, CutAll, Parse, Unwrapped, AllOnTheWire, ReadSession;
    var ks := before + [k];
    assert ks[..|before|] == before;
    assert forall s :: s in sessions <==> s in sessions[..|before|] || s == Last(sessions);
    SessionIsRun(InboxAfter(sessions[..|before|]).(len := 0), Last(sessions), PAYLOAD_SIZE);
  }

  // Main result: at every moment of every run of the loop, over any number of connections, what has gone to
  // the serial line decodes to exactly the messages the core has got across, in order, each cut to 256
  // bytes; and a connected core has been sent exactly the payloads forwarded since it connected.
  lemma DownlinkOverRuns(v: View, uart: seq<byte>, core: seq<seq<byte>>, t: Trace, mss: seq<seq<Message>>)
      returns (ks: seq<nat>)
    requires Tracks(v, uart, core, t) && |mss| == |core|
    requires forall k :: 0 <= k < |core| ==> core[k] == Stream(AllOnTheWire(mss[k], PAYLOAD_SIZE))
    ensures |ks| == |t.sessions| <= |mss| && forall k :: 0 <= k < |ks| ==> ks[k] <= |mss[k]|
    ensures DecodeAll(v.serialOut, PAYLOAD_SIZE) == FirstOfEach(mss, ks)
    ensures v.connected ==> t.since <= |v.forwarded| && v.toClient == LengthPrefixed(v.forwarded[t.since..])
  {
    hide Stream, Flatten, Frames, DecodeAll, UplinkTracked, AllUnwrapped, LengthPrefixed, FirstOfEach;
    ks := SessionsAreExact(mss, t.sessions);
    FramesDecode(Sent(t.sessions), PAYLOAD_SIZE);
  }

  // Main result: a lasting connection with enough turns ends with everything through in both directions.
  lemma LastingRunDelivers(v: View, uart: seq<byte>, core: seq<seq<byte>>, t: Trace, turns: seq<Turn>, ms: seq<Message>)
    requires Tracks(v, uart, core, t) && t.chunks == Reads(UplinkRule(), UART_BUF_SIZE, [], uart, UartAmounts(turns))
    requires core != [] && LastsWith(v, core, t, CoreAmounts(turns), |turns|)
    requires CutFits(UplinkRule(), UART_BUF_SIZE, uart) && core[0] == Stream(AllOnTheWire(ms, PAYLOAD_SIZE))
    requires forall i :: 0 <= i < |ms| ==> |ms[i]| <= 508
    requires Busy(UartAmounts(turns)) >= |uart| + Takes(UplinkRule(), uart)
    requires Busy(CoreAmounts(turns)) >= |core[0]| + |ms|
    ensures var cut := Cut(UplinkRule(), uart);
      && v.connected && v.received == cut.buf && v.inbox.len == 0
      && v.forwarded == cut.messages && v.toClient == LengthPrefixed(cut.messages)
      && DecodeAll(v.serialOut, PAYLOAD_SIZE) == CutAll(ms, PAYLOAD_SIZE)
  {
    hide SessionsTracked, LastsWith, LengthPrefixed, DecodeAll, Reads, UplinkRule, CutAll, Cut, CutFits, Takes;
    AnyLineProgresses(v, uart, core, t, UartAmounts(turns));
    DownlinkProgresses(v, core, t, CoreAmounts(turns), ms);
    assert v.forwarded[0..] == v.forwarded;
  }

  // The gateway run so.
  method RelayAll(uart: seq<byte>, ms: seq<Message>, turns: seq<Turn>)
      returns (toClient: seq<byte>, serialOut: seq<byte>)
    requires Lasting(turns) && CutFits(UplinkRule(), UART_BUF_SIZE, uart)
    requires forall i :: 0 <= i < |ms| ==> |ms[i]| <= 508
    requires Busy(UartAmounts(turns)) >= |uart| + Takes(UplinkRule(), uart)
    requires Busy(CoreAmounts(turns)) >= |Stream(AllOnTheWire(ms, PAYLOAD_SIZE))| + |ms|
    ensures toClient == LengthPrefixed(Cut(UplinkRule(), uart).messages)
    ensures DecodeAll(serialOut, PAYLOAD_SIZE) == CutAll(ms, PAYLOAD_SIZE)
  {
    hide Tracks, LastsWith, Lasting, AllOnTheWire, CutAll, Reads, UplinkRule, Stream, LengthPrefixed, DecodeAll, Cut,
      CutFits;
    var gateway := new Gateway();
    var core := [Stream(AllOnTheWire(ms, PAYLOAD_SIZE))];
    var t := gateway.RunTurns(uart, core, turns);
    ghost var v := gateway.State();
    LastingRunDelivers(v, uart, core, t, turns, ms);
    toClient := gateway.server.toClient;
    serialOut := gateway.serialOut;
  }

  lemma DownlinkProgresses(v: View, core: seq<seq<byte>>, t: Trace, amounts: seq<nat>, ms: seq<Message>)
    requires SessionsTracked(v, core, t) && core != [] && LastsWith(v, core, t, amounts, |amounts|)
    requires core[0] == Stream(AllOnTheWire(ms, PAYLOAD_SIZE)) && Busy(amounts) >= |core[0]| + |ms|
    requires forall i :: 0 <= i < |ms| ==> |ms[i]| <= 508
    ensures v.connected && v.inbox.len == 0 && v.toClient == LengthPrefixed(v.forwarded[0..])
    ensures DecodeAll(v.serialOut, PAYLOAD_SIZE) == CutAll(ms, PAYLOAD_SIZE)
  {
    hide SessionsTracked, LastsWith, DecodeAll, Frames, Sent, Run, Parse, CutAll, Flatten, Stream, AllOnTheWire,
      Reads;
    var session := OnlySession(v, core, t, amounts);
    var k := SessionIsExact(ms, session);
    CoreProgresses(ms, amounts);
    OneSession(session);
    FramesDecode(Sent([session]), PAYLOAD_SIZE);
  }

  lemma OnlySession(v: View, core: seq<seq<byte>>, t: Trace, amounts: seq<nat>) returns (session: Session)
    requires SessionsTracked(v, core, t) && core != [] && LastsWith(v, core, t, amounts, |amounts|)
    ensures Flatten(session) <= core[0]
    ensures v.connected && v.toClient == LengthPrefixed(v.forwarded[0..])
    ensures v.serialOut == Frames(Sent([session])) && v.inbox == InboxAfter([session])
    ensures Unwrapped(PAYLOAD_SIZE, [], session) ==>
      session == Reads(Parse(PAYLOAD_SIZE), RECV_BUF_SIZE, [], core[0], amounts)
  {
    hide LengthPrefixed, Frames, Sent, Run, Parse, Flatten, Unwrapped, Reads;
    session := t.sessions[0];
    assert t.sessions == [session];
    NothingMoreRead(session, Parse(PAYLOAD_SIZE), v.inbox.Pending(), t.rest, amounts);
  }

  lemma NothingMoreRead(chunks: seq<seq<byte>>, parse: seq<byte> -> Action<seq<byte>>, buf: seq<byte>,
      left: seq<byte>, amounts: seq<nat>)
    requires |buf| <= RECV_BUF_SIZE
    ensures chunks + Reads(parse, RECV_BUF_SIZE, buf, left, amounts[|amounts|..]) == chunks
  {
  }

  lemma CoreProgresses(ms: seq<Message>, amounts: seq<nat>)
    requires forall i :: 0 <= i < |ms| ==> |ms[i]| <= 508
    requires Busy(amounts) >= |Stream(AllOnTheWire(ms, PAYLOAD_SIZE))| + |ms|
    ensures var stream := Stream(AllOnTheWire(ms, PAYLOAD_SIZE));
      Run(Parse(PAYLOAD_SIZE), [], Reads(Parse(PAYLOAD_SIZE), RECV_BUF_SIZE, [], stream, amounts)) ==
        Outcome(CutAll(ms, PAYLOAD_SIZE), [])
  {
    hide Parse, Run, Stream, Reads, Messages, CutAll, AllRecognised;
    var segments := AllOnTheWire(ms, PAYLOAD_SIZE);
    WiresAreRecognised(ms, PAYLOAD_SIZE);
    assert [] + Stream(segments) == Stream(segments);
    EveryRunDelivers(Parse(PAYLOAD_SIZE), RECV_BUF_SIZE, segments, [], Stream(segments), amounts);
    MessagesAreCut(ms, PAYLOAD_SIZE);
  }

  lemma OneSession(session: Session)
    requires Unwrapped(PAYLOAD_SIZE, [], session)
    ensures Outcome(Sent([session]), InboxAfter([session]).Pending()) == Run(Parse(PAYLOAD_SIZE), [], session)
  {
    hide Run, Parse, Unwrapped, ReadSession;
    var sessions := [session];
    assert sessions[..0] == [];
    var read := ReadSession(EMPTY, session, PAYLOAD_SIZE);
    assert ReadSessions(EMPTY, [], PAYLOAD_SIZE) == Polled([], EMPTY) && EMPTY.(len := 0) == EMPTY;
    assert ReadSessions(EMPTY, sessions, PAYLOAD_SIZE) == read.After([]) && [] + read.messages == read.messages;
    SessionIsRun(EMPTY, session, PAYLOAD_SIZE);
  }

  // ---- Where the buffers get stuck ----

  // Main result: as long as the sends to it succeed, a core whose message of more than 508 bytes has filled
  // the buffer is stuck: nothing more comes of it, not even its closing the connection is noticed, and
  // nobody else is accepted.
  lemma {:induction false} WedgeLasts(views: seq<View>, inputs: seq<Input>, k: nat)
    requires k < |views| && |views| == |inputs| + 1 && views[0].connected && IsWedged(views[0].inbox.Pending())
    requires forall i :: 0 <= i < |inputs| ==> Turned(views[i], views[i + 1], inputs[i])
    requires forall i :: 0 <= i < |inputs| ==> inputs[i].prefixSent && inputs[i].dataSent
    ensures views[k].connected && views[k].inbox == views[0].inbox && views[k].serialOut == views[0].serialOut
  {
    hide Turned, IsWedged;
    if k > 0 {
      WedgeLasts(views, inputs, k - 1);
      WedgedTurn(views[k - 1], views[k], inputs[k - 1]);
      WorksAnyway(Poll(UplinkRule(), views[k - 1].received + inputs[k - 1].chunk).messages);
    }
  }

  lemma WorksAnyway(messages: seq<seq<byte>>)
    ensures SendingWorks(messages, true, true)
  {
  }

  lemma WedgedTurn(v: View, w: View, input: Input)
    requires v.connected && IsWedged(v.inbox.Pending()) && Turned(v, w, input)
    ensures var works := SendingWorks(Poll(UplinkRule(), v.received + input.chunk).messages, input.prefixSent,
      input.dataSent);
      && w.connected == works && (works ==> w.inbox == v.inbox && w.serialOut == v.serialOut)
  {
    WedgedInbox(v.inbox, PAYLOAD_SIZE);
    WedgedIsFull(v.inbox.Pending());
    hide Poll, UplinkRule, PollInbox, Frames, LengthPrefixed, IsWedged;
    assert Arrived(input.arrival) == [];
    assert Frames([]) == [] by { NoFrames(); }
    assert v.serialOut + [] == v.serialOut;
  }

  lemma NoFrames()
    ensures Frames([]) == []
  {
  }

  // The way out: the stuck connection ends in a turn exactly if a send fails in it, and whoever waits in the
  // next turn starts clean.
  lemma FailedSendUnwedges(v: View, w: View, input: Input)
    requires v.connected && IsWedged(v.inbox.Pending()) && Turned(v, w, input)
    ensures !w.connected <==>
      !SendingWorks(Poll(UplinkRule(), v.received + input.chunk).messages, input.prefixSent, input.dataSent)
    ensures !w.connected ==> InboxOf(w, true).len == 0
    ensures w.connected ==> IsWedged(InboxOf(w, true).Pending())
  {
    hide Turned, IsWedged, SendingWorks;
    WedgedTurn(v, w, input);
  }
}
