/** The TCP side of the gateway, pc_side/lnc_bridge/bridge_server.cpp. */
module BridgeServers {
  import opened Bytes
  import opened Wrappers
  import opened Reassembly

  const RECV_BUF_SIZE: nat := 512

  // What recv() reports: some bytes, an orderly shutdown by the peer, or nothing for now.
  datatype Arrival = Data(bytes: seq<byte>) | PeerClosed | NothingYet

  function Min(a: nat, b: nat): (least: nat)
    ensures (least == a || least == b) && least <= a && least <= b
  {
    if a < b then a else b
  }

  // 4 + payloadLen in uint32_t.
  function FrameLen(prefix: seq<byte>): U32
    requires |prefix| >= 4
  {
    (4 + GetU32(prefix)) % 0x1_0000_0000
  }

  predicate HasMessage(buf: seq<byte>) { |buf| >= 4 && |buf| >= FrameLen(buf) }

  // The prefix in front is one of the four for which 4 + payloadLen wraps around.
  predicate Wraps(buf: seq<byte>) { HasMessage(buf) && FrameLen(buf) < 4 }

  // 512 bytes of a message that needs more.
  predicate IsWedged(pending: seq<byte>) {
    |pending| == RECV_BUF_SIZE && FrameLen(pending) > RECV_BUF_SIZE
  }

  // The rule by which TryRecv cuts messages off the front, for prefixes that do not wrap around.
  function Parse(maxLen: nat): seq<byte> -> Action<seq<byte>> {
    (buf: seq<byte>) =>
      if !HasMessage(buf) then Wait
      else if FrameLen(buf) < 4 then Reset
      else Take(FrameLen(buf), Delivered(buf[4..FrameLen(buf)], maxLen))
  }

  // An empty message is indistinguishable from none.
  function Delivered(payload: seq<byte>, maxLen: nat): Option<seq<byte>> {
    if Min(|payload|, maxLen) == 0 then None else Some(payload[..Min(|payload|, maxLen)])
  }

  // ---- The receive buffer with all that is in it ----

  // g_recvBuf and g_recvLen. What lies behind the first len bytes is left over from before.
  datatype Inbox = Inbox(memory: seq<byte>, len: nat) {
    predicate Valid() { RECV_BUF_SIZE <= |memory| && len <= |memory| }

    function Pending(): seq<byte>
      requires Valid()
    {
      memory[..len]
    }
  }

  type RecvState = s: Inbox | s.Valid() witness Inbox(ZeroBytes(RECV_BUF_SIZE), 0)

  // A buffer of static storage.
  function ZeroBytes(n: nat): (bytes: seq<byte>)
    ensures |bytes| == n && forall i :: 0 <= i < n ==> bytes[i] == 0
  {
    seq(n, _ => 0)
  }

  const EMPTY: RecvState := Inbox(ZeroBytes(RECV_BUF_SIZE), 0)

  datatype Polled = Polled(messages: seq<seq<byte>>, inbox: RecvState) {
    function After(before: seq<seq<byte>>): Polled { this.(messages := before + messages) }
  }

  function Arrived(arrival: Arrival): seq<byte> {
    if arrival.Data? then arrival.bytes else []
  }

  function Fill(s: RecvState, bytes: seq<byte>): RecvState {
    var len := s.len + |bytes|;
    Inbox(s.memory[..s.len] + bytes + (if len <= |s.memory| then s.memory[len..] else []), len)
  }

  // One message off the front. Where the prefix wraps around, what is handed out is whatever lies behind it.
  function TakeOut(s: RecvState, maxLen: nat): Polled
    requires maxLen <= RECV_BUF_SIZE - 4
  {
    if !HasMessage(s.Pending()) then Polled([], s) else
    var f, n := FrameLen(s.Pending()), Min(GetU32(s.Pending()), maxLen);
    Polled(if n == 0 then [] else [s.memory[4..4 + n]], Inbox(s.memory[f..s.len] + s.memory[s.len - f..], s.len - f))
  }

  function PollInbox(s: RecvState, bytes: seq<byte>, maxLen: nat): Polled
    requires maxLen <= RECV_BUF_SIZE - 4
  {
    TakeOut(Fill(s, bytes), maxLen)
  }

  // What a poll does, in numbers. t is the buffer with what has arrived, len the length in its prefix and f the
  // 32-bit sum 4 + len.
  lemma PollInNumbers(s: RecvState, bytes: seq<byte>, maxLen: nat)
    requires maxLen <= RECV_BUF_SIZE - 4
    ensures var t, p := Fill(s, bytes), PollInbox(s, bytes, maxLen);
      && t.len == s.len + |bytes| && t.memory[..t.len] == s.memory[..s.len] + bytes
      && (t.len < 4 || t.len < (4 + GetU32(t.memory)) % 0x1_0000_0000 ==> p.messages == [] && p.inbox == t)
    ensures var t, p := Fill(s, bytes), PollInbox(s, bytes, maxLen);
      var len := GetU32(t.memory);
      var f := (4 + len) % 0x1_0000_0000;
      t.len >= 4 && t.len >= f ==>
        && p.messages == (if len == 0 || maxLen == 0 then []
          else [t.memory[4..4 + if len > maxLen then maxLen else len]])
        && p.inbox.memory == t.memory[f..t.len] + t.memory[t.len - f..] && p.inbox.len == t.len - f
  {
    var t := Fill(s, bytes);
    Filled(s, bytes);
    hide Fill, GetU32;
    HeaderOf(t);
  }

  // Main result for one poll: the one that completes a message of at most 508 bytes gives exactly its first
  // maxLen bytes if it is longer than that and otherwise all of it, or nothing if it is empty; what follows
  // the message stays. Before that nothing comes out and all bytes stay.
  lemma PollGivesMessage(s: RecvState, bytes: seq<byte>, m: seq<byte>, rest: seq<byte>, maxLen: nat)
    requires 0 < maxLen <= RECV_BUF_SIZE - 4 && |m| <= 508
    requires s.memory[..s.len] + bytes == PutU32(|m|) + m + rest
    ensures var p := PollInbox(s, bytes, maxLen);
      && p.messages == (if m == [] then [] else if |m| > maxLen then [m[..maxLen]] else [m])
      && p.inbox.memory[..p.inbox.len] == rest
  {
    hide GetU32, PutU32;
    var t := Fill(s, bytes);
    Filled(s, bytes);
    hide Fill, PollInbox;
    var buf := PutU32(|m|) + m + rest;
    assert buf == PutU32(|m|) + (m + rest);
    U32RoundTrip(|m|, m + rest);
    SameLength(t.memory, buf);
    PollOfWhole(s, bytes, |m|, maxLen);
    PartOf(t.memory, buf, 4, 4 + if |m| > maxLen then maxLen else |m|);
    PartOf(t.memory, buf, 4 + |m|, |buf|);
    Behind(PutU32(|m|), m, rest, maxLen);
  }

  lemma PollOfWhole(s: RecvState, bytes: seq<byte>, len: nat, maxLen: nat)
    requires 0 < maxLen <= RECV_BUF_SIZE - 4 && len <= 508
    requires var t := Fill(s, bytes); 4 + len <= t.len && GetU32(t.memory) == len
    ensures var t, p := Fill(s, bytes), PollInbox(s, bytes, maxLen);
      && p.messages == (if len == 0 then [] else [t.memory[4..4 + if len > maxLen then maxLen else len]])
      && p.inbox.memory[..p.inbox.len] == t.memory[4 + len..t.len]
  {
    hide GetU32, Fill, PollInbox;
    PollInNumbers(s, bytes, maxLen);
    var t := Fill(s, bytes);
    TakenOff(t.memory, 4 + len, t.len);
  }

  lemma TakenOff(memory: seq<byte>, f: nat, len: nat)
    requires f <= len <= |memory|
    ensures (memory[f..len] + memory[len - f..])[..len - f] == memory[f..len]
  {
  }

  lemma PartOf(memory: seq<byte>, buf: seq<byte>, i: nat, j: nat)
    requires i <= j <= |buf| <= |memory| && memory[..|buf|] == buf
    ensures memory[i..j] == buf[i..j]
  {
    assert memory[..|buf|][i..j] == memory[i..j];
  }

  lemma Behind(prefix: seq<byte>, m: seq<byte>, rest: seq<byte>, n: nat)
    requires |prefix| == 4
    ensures var buf := prefix + m + rest;
      && (|m| > n ==> buf[4..4 + n] == m[..n]) && buf[4..4 + |m|] == m && buf[4 + |m|..|buf|] == rest
  {
  }

  lemma PollKeepsPart(s: RecvState, bytes: seq<byte>, m: seq<byte>, missing: seq<byte>, maxLen: nat)
    requires maxLen <= RECV_BUF_SIZE - 4 && |m| < 0xFFFF_FFFC && missing != []
    requires s.memory[..s.len] + bytes + missing == PutU32(|m|) + m
    ensures PollInbox(s, bytes, maxLen).messages == []
    ensures PollInbox(s, bytes, maxLen).inbox.Pending() == s.memory[..s.len] + bytes
  {
    hide GetU32, PutU32;
    var t := Fill(s, bytes);
    PollInNumbers(s, bytes, maxLen);
    hide PollInbox, Fill;
    var buf := s.memory[..s.len] + bytes;
    if t.len >= 4 {
      assert buf[..4] == (buf + missing)[..4] == PutU32(|m|);
      assert buf == PutU32(|m|) + buf[4..];
      U32RoundTrip(|m|, buf[4..]);
      SameLength(t.memory, buf);
    }
  }

  lemma SameLength(memory: seq<byte>, buf: seq<byte>)
    requires 4 <= |buf| <= |memory| && memory[..|buf|] == buf
    ensures GetU32(memory) == GetU32(buf)
  {
  }

  // As long as no prefix wraps around, what was left over does not matter, and the rule is Parse.
  lemma PollInboxIsPoll(s: RecvState, bytes: seq<byte>, maxLen: nat)
    requires maxLen <= RECV_BUF_SIZE - 4 && !Wraps(s.Pending() + bytes)
    ensures var p := PollInbox(s, bytes, maxLen);
      Outcome(p.messages, p.inbox.Pending()) == Poll(Parse(maxLen), s.Pending() + bytes)
  {
    Filled(s, bytes);
    TakenIsPoll(Fill(s, bytes), maxLen);
    hide Fill, Parse, Poll, TakeOut;
  }

  lemma TakenIsPoll(t: RecvState, maxLen: nat)
    requires maxLen <= RECV_BUF_SIZE - 4 && !Wraps(t.Pending())
    ensures var p := TakeOut(t, maxLen); Outcome(p.messages, p.inbox.Pending()) == Poll(Parse(maxLen), t.Pending())
  {
    hide Parse, Poll, GetU32, FrameLen, Min;
    var buf, p := t.Pending(), TakeOut(t, maxLen);
    if HasMessage(buf) {
      WrapsOnlyBelowFour(buf);
      var f, n := FrameLen(buf), Min(GetU32(buf), maxLen);
      AfterTaking(t, f, n);
      hide TakeOut, HasMessage, Inbox.Pending;
      assert p.messages == if n == 0 then [] else [t.memory[4..4 + n]];
      PollOfCut(buf, maxLen, n, t.memory[4..4 + n], p.inbox.Pending());
    } else {
      PollOfCut(buf, maxLen, 0, [], buf);
    }
  }

  lemma Filled(s: RecvState, bytes: seq<byte>)
    ensures Fill(s, bytes).Pending() == s.Pending() + bytes && Fill(s, bytes).len == s.len + |bytes|
  {
  }

  lemma AfterTaking(t: RecvState, f: nat, n: nat)
    requires 4 + n <= t.len && f <= t.len
    ensures t.memory[4..4 + n] == t.Pending()[4..4 + n]
    ensures Inbox(t.memory[f..t.len] + t.memory[t.len - f..], t.len - f).Pending() == t.Pending()[f..]
  {
  }

  lemma PolledIsShort(s: RecvState, bytes: seq<byte>, maxLen: nat)
    requires maxLen <= RECV_BUF_SIZE - 4
    ensures forall m <- PollInbox(s, bytes, maxLen).messages :: 0 < |m| <= maxLen
  {
    hide GetU32;
  }

  // Behind an oversized message nothing moves any more.
  lemma WedgedInbox(s: RecvState, maxLen: nat)
    requires maxLen <= RECV_BUF_SIZE - 4 && IsWedged(s.Pending())
    ensures PollInbox(s, [], maxLen) == Polled([], s)
  {
    hide GetU32;
    assert s.memory[..s.len] + [] + s.memory[s.len..] == s.memory;
  }

  class BridgeServer {
    var listening: bool              // g_listenFd >= 0
    var connected: bool              // g_clientFd >= 0
    var recvBuf: array<byte>         // g_recvBuf
    var recvLen: nat                 // g_recvLen
    var toClient: seq<byte>          // bytes handed to send() on the current connection

    ghost predicate Valid()
      reads this
    {
      recvBuf.Length == RECV_BUF_SIZE && recvLen <= RECV_BUF_SIZE
    }

    function Pending(): seq<byte>
      requires Valid()
      reads this, recvBuf
    {
      recvBuf[..recvLen]
    }

    function State(): RecvState
      requires Valid()
      reads this, recvBuf
    {
      Inbox(recvBuf[..], recvLen)
    }

    // Stuck behind an oversized message.
    ghost predicate Wedged()
      requires Valid()
      reads this, recvBuf
    {
      connected && IsWedged(Pending())
    }

    constructor ()
      ensures Valid() && fresh(recvBuf)
      ensures listening && !connected && State() == EMPTY && toClient == []
    {
      listening, connected, recvLen, toClient := true, false, 0, [];
      recvBuf := new byte[RECV_BUF_SIZE](_ => 0);
    }

    // BridgeServer_Accept. A reconnect starts with an empty buffer.
    method Accept(waiting: bool) returns (isConnected: bool)
      requires Valid()
      modifies `connected, `recvLen, `toClient
      ensures Valid()
      ensures isConnected == connected == (old(connected) || (listening && waiting))
      ensures if !old(connected) && connected then State() == old(State()).(len := 0) && toClient == []
              else State() == old(State()) && toClient == old(toClient)
    {
      if connected { return true; }
      if !listening { return false; }
      if !waiting { return false; }
      connected, recvLen, toClient := true, 0, [];
      isConnected := true;
    }

    // BridgeServer_Send; the flags say whether the two send() calls succeed.
    method Send(data: seq<byte>, prefixSent: bool, dataSent: bool)
      requires Valid() && |data| < 0x1_0000
      modifies `connected, `toClient
      ensures Valid()
      ensures connected == (old(connected) && prefixSent && dataSent)
      ensures toClient == old(toClient) +
        (if old(connected) && prefixSent then PutU32(|data|) + (if dataSent then data else []) else [])
    {
      if !connected { return; }
      if !prefixSent {
        connected := false;
        return;
      }
      toClient := toClient + PutU32(|data|);
      if !dataSent {
        connected := false;
        return;
      }
      toClient := toClient + data;
    }

    // The recv() half of BridgeServer_TryRecv; closed says that the peer has hung up.
    method TopUp(arrival: Arrival) returns (closed: bool)
      requires Valid() && connected
      requires arrival.Data? ==> 0 < |arrival.bytes| && |arrival.bytes| <= RECV_BUF_SIZE - recvLen
      modifies `connected, `recvLen, recvBuf
      ensures Valid() && connected == !closed
      ensures closed == (arrival.PeerClosed? && old(recvLen) < RECV_BUF_SIZE)
      ensures State() == if closed then old(State()).(len := 0) else Fill(old(State()), Arrived(arrival))
    {
      closed := false;
      FillNothing(State());
      if recvLen < RECV_BUF_SIZE {
        match arrival {
          case Data(bytes) =>
            CopyInto(bytes, recvBuf, recvLen);
            recvLen := recvLen + |bytes|;
          case PeerClosed =>
            connected, recvLen := false, 0;
            closed := true;
          case NothingYet =>
        }
      }
    }

    // The other half: cut one message off the front. Should 4 + payloadLen wrap around, the bytes
    // handed out include stale ones.
    method CutMessage(out: array<byte>, maxLen: nat) returns (n: nat)
      requires Valid() && out != recvBuf && 0 < maxLen <= out.Length && maxLen <= RECV_BUF_SIZE - 4
      modifies `recvLen, recvBuf, out
      ensures Valid() && n <= maxLen
      ensures var p := TakeOut(old(State()), maxLen);
        p.messages == (if n == 0 then [] else [out[..n]]) && p.inbox == State()
    {
      var payloadLen, frameLen;
      n, payloadLen, frameLen := ReadHeader(maxLen);
      TakeOutParts(State(), maxLen);
      hide TakeOut, HasMessage, FrameLen, GetU32, Min;
      if recvLen < 4 || recvLen < frameLen { return 0; }
      GiveFront(n, frameLen, out);
    }

    // Copy out the n bytes behind the prefix, then drop the first bytes of the buffer.
    method GiveFront(n: nat, from: nat, out: array<byte>)
      requires Valid() && out != recvBuf && n <= out.Length && 4 + n <= RECV_BUF_SIZE && from <= recvLen
      modifies `recvLen, recvBuf, out
      ensures Valid()
      ensures var s := old(State());
        && out[..n] == s.memory[4..4 + n]
        && State() == Inbox(s.memory[from..s.len] + s.memory[s.len - from..], s.len - from)
    {
      ghost var s := State();
      assert recvBuf[4..4 + n] == s.memory[4..4 + n];
      HandOut(recvBuf[4..4 + n], out);
      Slide(from);
    }

    // Length prefix and what follows from it, if it has arrived.
    method ReadHeader(maxLen: nat) returns (n: nat, payloadLen: U32, frameLen: U32)
      requires Valid() && maxLen <= RECV_BUF_SIZE - 4
      ensures n <= maxLen
      ensures HasMessage(State().Pending()) <==> 4 <= recvLen && frameLen <= recvLen
      ensures recvLen >= 4 ==>
        var pending := State().Pending();
        payloadLen == GetU32(pending) && frameLen == FrameLen(pending) && n == Min(payloadLen, maxLen)
    {
      HeaderOf(State());
      hide GetU32, FrameLen, HasMessage;
      if recvLen < 4 { return 0, 0, 0; }
      payloadLen := GetU32(recvBuf[..]);
      frameLen := (4 + payloadLen) % 0x1_0000_0000;
      n := if payloadLen < maxLen then payloadLen else maxLen;
    }

    // Move the rest of the buffer to its front.
    method Slide(from: nat)
      requires Valid() && from <= recvLen
      modifies `recvLen, recvBuf
      ensures Valid()
      ensures var s := old(State()); State() == Inbox(s.memory[from..s.len] + s.memory[s.len - from..], s.len - from)
    {
      ghost var s := State();
      CopyInto(recvBuf[from..recvLen], recvBuf, 0);
      recvLen := recvLen - from;
      assert recvBuf[..] == [] + s.memory[from..s.len] + s.memory[s.len - from..];
    }

    // BridgeServer_TryRecv.
    method TryRecv(arrival: Arrival, out: array<byte>, maxLen: nat) returns (n: nat)
      requires Valid() && out != recvBuf && 0 < maxLen <= out.Length && maxLen <= RECV_BUF_SIZE - 4
      requires arrival.Data? ==> 0 < |arrival.bytes| && |arrival.bytes| <= RECV_BUF_SIZE - recvLen
      modifies `connected, `recvLen, recvBuf, out
      ensures Valid() && n <= maxLen
      ensures !old(connected) ==> n == 0 && !connected && State() == old(State())
      ensures old(connected) && arrival.PeerClosed? && old(recvLen) < RECV_BUF_SIZE ==>
        n == 0 && !connected && State() == old(State()).(len := 0)
      ensures old(connected) && !(arrival.PeerClosed? && old(recvLen) < RECV_BUF_SIZE) ==>
        && connected
        && Polled(if n == 0 then [] else [out[..n]], State()) == PollInbox(old(State()), Arrived(arrival), maxLen)
      ensures old(Wedged()) ==> n == 0 && Wedged() && State() == old(State())
    {
      hide TakeOut, Fill, IsWedged;
      if !connected { return 0; }
      if IsWedged(Pending()) { WedgedInbox(State(), maxLen); WedgedIsFull(Pending()); }
      var closed := TopUp(arrival);
      if closed { return 0; }
      n := CutMessage(out, maxLen);
    }

    // BridgeServer_Close.
    method Close()
      requires Valid()
      modifies `listening, `connected, `recvLen
      ensures Valid() && !listening && !connected && State() == old(State()).(len := 0)
    {
      connected := false;
      listening := false;
      recvLen := 0;
    }
  }

  // The length prefix can be read off the whole buffer.
  lemma HeaderOf(s: RecvState)
    ensures s.len < 4 ==> !HasMessage(s.Pending())
    ensures s.len >= 4 ==>
      var len := GetU32(s.memory);
      && GetU32(s.Pending()) == len && FrameLen(s.Pending()) == (4 + len) % 0x1_0000_0000
      && (HasMessage(s.Pending()) <==> FrameLen(s.Pending()) <= s.len)
  {
  }

  lemma TakeOutParts(s: RecvState, maxLen: nat)
    requires maxLen <= RECV_BUF_SIZE - 4
    ensures !HasMessage(s.Pending()) ==> TakeOut(s, maxLen) == Polled([], s)
    ensures HasMessage(s.Pending()) ==>
      var f, n, p := FrameLen(s.Pending()), Min(GetU32(s.Pending()), maxLen), TakeOut(s, maxLen);
      && p.messages == (if n == 0 then [] else [s.memory[4..4 + n]])
      && p.inbox == Inbox(s.memory[f..s.len] + s.memory[s.len - f..], s.len - f)
  {
    hide GetU32;
  }

  lemma FillNothing(s: RecvState)
    ensures Fill(s, []) == s
  {
    assert s.memory[..s.len] + [] + s.memory[s.len..] == s.memory;
  }

  lemma WedgedIsFull(pending: seq<byte>)
    requires IsWedged(pending)
    ensures |pending| == RECV_BUF_SIZE
  {
  }

  lemma WrapsOnlyBelowFour(buf: seq<byte>)
    requires HasMessage(buf)
    ensures FrameLen(buf) >= 4 ==> 4 + GetU32(buf) == FrameLen(buf) <= |buf|
    ensures FrameLen(buf) < 4 ==> GetU32(buf) >= 0xFFFF_FFFC
  {
  }

  lemma PollOfCut(buf: seq<byte>, maxLen: nat, n: nat, given: seq<byte>, after: seq<byte>)
    requires !HasMessage(buf) ==> n == 0 && after == buf
    requires !Wraps(buf)
    requires HasMessage(buf) ==>
      n == Min(GetU32(buf), maxLen) && 4 + n <= |buf| && after == buf[FrameLen(buf)..] && given == buf[4..4 + n]
    ensures Outcome(if n == 0 then [] else [given], after) == Poll(Parse(maxLen), buf)
  {
    if HasMessage(buf) {
      WrapsOnlyBelowFour(buf);
      hide GetU32;
      var payload := buf[4..FrameLen(buf)];
      assert payload[..n] == given;
    }
  }

  // memcpy and memmove.
  method CopyInto(src: seq<byte>, dst: array<byte>, at: nat)
    requires at + |src| <= dst.Length
    modifies dst
    ensures dst[..] == old(dst[..at]) + src + old(dst[at + |src|..])
  {
    for i := 0 to |src|
      invariant dst[..] == old(dst[..at]) + src[..i] + old(dst[at + i..])
    {
      dst[at + i] := src[i];
    }
    assert src[..|src|] == src;
  }

  method HandOut(src: seq<byte>, out: array<byte>)
    requires |src| <= out.Length
    modifies out
    ensures out[..|src|] == src
  {
    CopyInto(src, out, 0);
    assert out[..][..|src|] == src;
  }

  // ---- The messages of the core, as they travel ----

  // A message whose prefix does not wrap around.
  type Message = m: seq<byte> | |m| < 0xFFFF_FFFC witness []

  function OnTheWire(m: Message, maxLen: nat): Segment<seq<byte>> {
    Segment(PutU32(|m|) + m, Delivered(m, maxLen))
  }

  function AllOnTheWire(ms: seq<Message>, maxLen: nat): (segments: seq<Segment<seq<byte>>>)
    ensures |segments| == |ms| && forall i :: 0 <= i < |ms| ==> segments[i] == OnTheWire(ms[i], maxLen)
  {
    seq(|ms|, i requires 0 <= i < |ms| => OnTheWire(ms[i], maxLen))
  }

  lemma WholeWireIsTaken(m: Message, maxLen: nat, rest: seq<byte>)
    ensures Parse(maxLen)(PutU32(|m|) + m + rest) == Take(4 + |m|, Delivered(m, maxLen))
  {
    hide Delivered, PutU32, GetU32;
    var buf := PutU32(|m|) + m + rest;
    U32RoundTrip(|m|, m + rest);
    assert buf == PutU32(|m|) + (m + rest);
    assert FrameLen(buf) == 4 + |m|;
    assert buf[4..4 + |m|] == m;
  }

  lemma PartOfWireWaits(m: Message, maxLen: nat, k: nat)
    requires k < 4 + |m|
    ensures Parse(maxLen)((PutU32(|m|) + m)[..k]).Wait?
  {
    hide Delivered, PutU32, GetU32;
    if k >= 4 {
      var buf := (PutU32(|m|) + m)[..k];
      assert buf == PutU32(|m|) + m[..k - 4];
      U32RoundTrip(|m|, m[..k - 4]);
      assert FrameLen(buf) == 4 + |m|;
    }
  }

  lemma WireIsRecognised(m: Message, maxLen: nat)
    ensures Recognised(Parse(maxLen), OnTheWire(m, maxLen))
  {
    hide Parse, Delivered, PutU32;
    var s := OnTheWire(m, maxLen);
    forall rest ensures Parse(maxLen)(s.bytes + rest) == Take(|s.bytes|, s.message) {
      WholeWireIsTaken(m, maxLen, rest);
    }
    forall k | 0 <= k < |s.bytes| ensures Parse(maxLen)(s.bytes[..k]).Wait? {
      PartOfWireWaits(m, maxLen, k);
    }
  }

  lemma WiresAreRecognised(ms: seq<Message>, maxLen: nat)
    ensures AllRecognised(Parse(maxLen), AllOnTheWire(ms, maxLen))
  {
    forall i | 0 <= i < |ms| ensures Recognised(Parse(maxLen), AllOnTheWire(ms, maxLen)[i]) {
      WireIsRecognised(ms[i], maxLen);
    }
  }

  // What comes out of these messages: of each its first maxLen bytes if it is longer than that, otherwise all
  // of it; nothing of an empty one.
  function CutAll(ms: seq<seq<byte>>, maxLen: nat): seq<seq<byte>> {
    if ms == [] then [] else
    var m, later := ms[0], CutAll(ms[1..], maxLen);
    if m == [] || maxLen == 0 then later else if |m| > maxLen then [m[..maxLen]] + later else [m] + later
  }

  lemma {:induction false} MessagesAreCut(ms: seq<Message>, maxLen: nat)
    ensures Messages(AllOnTheWire(ms, maxLen)) == CutAll(ms, maxLen)
  {
    hide PutU32;
    if ms != [] {
      var segments := AllOnTheWire(ms, maxLen);
      MessagesAreCut(ms[1..], maxLen);
      assert segments[1..] == AllOnTheWire(ms[1..], maxLen);
      assert segments[0].message == Delivered(ms[0], maxLen);
      assert ms[0][..|ms[0]|] == ms[0];
    }
  }

  // Main result: while the connection lasts, the results of TryRecv are the nonempty messages in order,
  // each cut to maxLen, and the buffer is what has arrived beyond them.
  lemma TcpRefinesQueue(ms: seq<Message>, maxLen: nat, chunks: seq<seq<byte>>, ahead: seq<byte>) returns (k: nat)
    requires Flatten(chunks) + ahead == Stream(AllOnTheWire(ms, maxLen))
    ensures k <= |ms|
    ensures var segments := AllOnTheWire(ms, maxLen);
      var run := Run(Parse(maxLen), [], chunks);
      && run.messages == CutAll(ms[..k], maxLen)
      && Flatten(chunks) == Stream(segments[..k]) + run.buf
      && run.buf + ahead == Stream(segments[k..])
  {
    hide Parse, Run, Stream, Messages, CutAll, Flatten, AllRecognised;
    WiresAreRecognised(ms, maxLen);
    assert [] + Flatten(chunks) == Flatten(chunks);
    k := NothingLostOrInvented(Parse(maxLen), AllOnTheWire(ms, maxLen), [], chunks, ahead);
    assert AllOnTheWire(ms, maxLen)[..k] == AllOnTheWire(ms[..k], maxLen);
    MessagesAreCut(ms[..k], maxLen);
  }

  // No poll of the run sees a prefix that wraps around.
  predicate Unwrapped(maxLen: nat, buf: seq<byte>, chunks: seq<seq<byte>>)
    decreases |chunks|
  {
    chunks == [] ||
    (!Wraps(buf + chunks[0]) && Unwrapped(maxLen, Poll(Parse(maxLen), buf + chunks[0]).buf, chunks[1..]))
  }

  lemma {:induction false} UnwrappedSoFar(maxLen: nat, buf: seq<byte>, chunks: seq<seq<byte>>, chunk: seq<byte>)
    ensures Unwrapped(maxLen, buf, chunks + [chunk]) <==>
      Unwrapped(maxLen, buf, chunks) && !Wraps(Run(Parse(maxLen), buf, chunks).buf + chunk)
    decreases |chunks|
  {
    hide Parse, Poll, Wraps;
    if chunks == [] {
      assert chunks + [chunk] == [chunk] && [chunk][1..] == [];
    } else {
      assert (chunks + [chunk])[1..] == chunks[1..] + [chunk];
      UnwrappedSoFar(maxLen, Poll(Parse(maxLen), buf + chunks[0]).buf, chunks[1..], chunk);
    }
  }

  // Messages never make it wrap, however they arrive.
  lemma {:induction false} MessagesAreUnwrapped(ms: seq<Message>, maxLen: nat, buf: seq<byte>, chunks: seq<seq<byte>>,
      ahead: seq<byte>)
    requires buf + Flatten(chunks) + ahead == Stream(AllOnTheWire(ms, maxLen))
    ensures Unwrapped(maxLen, buf, chunks)
    decreases |chunks|
  {
    hide Parse, Poll, Wraps, Stream, TakesFirst, AllRecognised;
    if chunks != [] {
      var segments := AllOnTheWire(ms, maxLen);
      var topped, later := buf + chunks[0], Flatten(chunks[1..]);
      Regroup(buf, chunks[0], later, topped);
      Regroup(topped, later, ahead, topped + later);
      WiresAreRecognised(ms, maxLen);
      FrontIsUnwrapped(ms, maxLen, topped, later + ahead);
      PollOnStream(Parse(maxLen), segments, topped, later + ahead);
      var after := Poll(Parse(maxLen), topped).buf;
      Regroup(after, later, ahead, after + later);
      if TakesFirst(segments, topped) {
        TakesSome(segments, topped);
        assert segments[1..] == AllOnTheWire(ms[1..], maxLen);
        MessagesAreUnwrapped(ms[1..], maxLen, after, chunks[1..], ahead);
      } else {
        MessagesAreUnwrapped(ms, maxLen, after, chunks[1..], ahead);
      }
    }
  }

  lemma FrontIsUnwrapped(ms: seq<Message>, maxLen: nat, buf: seq<byte>, ahead: seq<byte>)
    requires buf + ahead == Stream(AllOnTheWire(ms, maxLen))
    ensures !Wraps(buf)
  {
    if |buf| >= 4 && ms != [] {
      hide PutU32, GetU32;
      var m := ms[0];
      assert buf[..4] == (buf + ahead)[..4] == PutU32(|m|);
      U32RoundTrip(|m|, buf[4..]);
      assert buf == PutU32(|m|) + buf[4..];
    }
  }

  // ---- Whole connections ----

  // What is read on one connection, poll by poll.
  type Session = seq<seq<byte>>

  function ReadSession(s: RecvState, session: Session, maxLen: nat): Polled
    requires maxLen <= RECV_BUF_SIZE - 4
  {
    if session == [] then Polled([], s) else
    var last := |session| - 1;
    var before := ReadSession(s, session[..last], maxLen);
    PollInbox(before.inbox, session[last], maxLen).After(before.messages)
  }

  // One connection after the other; each starts with an empty buffer, in the memory of the one before.
  function ReadSessions(s: RecvState, sessions: seq<Session>, maxLen: nat): Polled
    requires maxLen <= RECV_BUF_SIZE - 4
  {
    if sessions == [] then Polled([], s) else
    var last := |sessions| - 1;
    var before := ReadSessions(s, sessions[..last], maxLen);
    ReadSession(before.inbox.(len := 0), sessions[last], maxLen).After(before.messages)
  }

  // What comes out is never empty and never longer than asked for.
  lemma {:induction false} ReadAreShort(s: RecvState, session: Session, maxLen: nat)
    requires maxLen <= RECV_BUF_SIZE - 4
    ensures forall m <- ReadSession(s, session, maxLen).messages :: 0 < |m| <= maxLen
  {
    hide PollInbox;
    if session != [] {
      var last := |session| - 1;
      ReadAreShort(s, session[..last], maxLen);
      PolledIsShort(ReadSession(s, session[..last], maxLen).inbox, session[last], maxLen);
    }
  }

  lemma {:induction false} AllReadAreShort(s: RecvState, sessions: seq<Session>, maxLen: nat)
    requires maxLen <= RECV_BUF_SIZE - 4
    ensures forall m <- ReadSessions(s, sessions, maxLen).messages :: 0 < |m| <= maxLen
  {
    hide ReadSession;
    if sessions != [] {
      var last := |sessions| - 1;
      var before := ReadSessions(s, sessions[..last], maxLen);
      AllReadAreShort(s, sessions[..last], maxLen);
      ReadAreShort(before.inbox.(len := 0), sessions[last], maxLen);
    }
  }

  // Without a wrapping prefix a connection is a run of the rule.
  lemma {:induction false} SessionIsRun(s: RecvState, session: Session, maxLen: nat)
    requires maxLen <= RECV_BUF_SIZE - 4 && s.len == 0 && Unwrapped(maxLen, [], session)
    ensures var p := ReadSession(s, session, maxLen);
      Outcome(p.messages, p.inbox.Pending()) == Run(Parse(maxLen), [], session)
  {
    hide PollInbox, Parse, Poll, Wraps, Unwrapped;
    if session == [] {
      assert s.Pending() == [];
    } else {
      var init, chunk := session[..|session| - 1], session[|session| - 1];
      assert session == init + [chunk];
      UnwrappedSoFar(maxLen, [], init, chunk);
      SessionIsRun(s, init, maxLen);
      RunOneMore(Parse(maxLen), init, chunk);
      PollInboxIsPoll(ReadSession(s, init, maxLen).inbox, chunk, maxLen);
    }
  }

  // Every message comes through if and only if each has at most 508 bytes.
  lemma TcpDeliversIff(ms: seq<Message>, maxLen: nat)
    ensures (exists chunks :: Delivers(Parse(maxLen), RECV_BUF_SIZE, AllOnTheWire(ms, maxLen), chunks)) <==>
      forall i :: 0 <= i < |ms| ==> |ms[i]| <= 508
  {
    WiresAreRecognised(ms, maxLen);
    DeliverableIff(Parse(maxLen), RECV_BUF_SIZE, AllOnTheWire(ms, maxLen));
    assert forall i :: 0 <= i < |ms| ==> |AllOnTheWire(ms, maxLen)[i].bytes| == 4 + |ms[i]|;
  }

  // With 512 bytes of a longer message buffered there is no way on: recv() is not called any more.
  lemma OversizedMessageWedges(buf: seq<byte>, maxLen: nat, chunks: seq<seq<byte>>)
    requires IsWedged(buf) && Fits(Parse(maxLen), RECV_BUF_SIZE, buf, chunks)
    ensures Flatten(chunks) == [] && Run(Parse(maxLen), buf, chunks) == Outcome([], buf)
  {
    FullBufferWaitsForever(Parse(maxLen), RECV_BUF_SIZE, buf, chunks);
  }
}
