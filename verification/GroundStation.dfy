/** What the Ground Station makes of a response, and the whole exchange end to end. */
module GroundStation {
  import opened Bytes
  import opened Wrappers
  import opened Tlv
  import opened Records
  import opened Retention
  import opened TextLines
  import opened DataCollections
  import opened GroundLink

  // GsRecvMessage: the value of the one TLV a length-prefixed message holds.
  function Receive(stream: seq<byte>): Option<(byte, Buffer)> {
    if |stream| < 4 then None else
    var msgLen := GetU32(stream);
    if msgLen == 0 || |stream| - 4 < msgLen then None else
    var storage := stream[4..4 + msgLen];
    var seen := storage[..msgLen % 0x1_0000];
    match Decode(seen)
    case NeedMore => None
    case Header(tag, valueLen, _) => if 3 + valueLen <= msgLen then Some((tag, storage[3..3 + valueLen])) else None
  }

  lemma WrappedIsEncoded(tag: byte, payload: seq<byte>)
    requires |payload| <= MAX_VALUE
    ensures WrapMessage(tag, payload) == Encode(Field(tag, payload))
  {
    hide PutU16;
    assert |payload| % 0x1_0000 == |payload|;
  }

  lemma ReceiveEncoded(f: Field)
    requires Fits(f)
    ensures Receive(Prefixed(Encode(f))) == Some((f.tag, f.value))
  {
    hide PutU32, GetU32, Decode, Encode;
    var message := Encode(f);
    U32RoundTrip(|message|, message);
    var stream := Prefixed(message);
    assert stream[4..4 + |message|] == message;
    assert message[..|message|] == message;
    DecodeEncoded(f, []);
    assert message + [] == message;
  }

  // Walking from offset on, every record with the tag lies in the buffer, and no offset wraps around. There
  // may be bytes left over, and other fields may be cut off.
  predicate Walkable(buf: Buffer, offset: nat, tag: byte)
    decreases if offset < |buf| then |buf| - offset else 0
  {
    offset + 3 > |buf| ||
    (&& (buf[offset] == tag ==> NextField(buf, offset) <= |buf|)
     && NextField(buf, offset) + 3 < 0x1_0000
     && Walkable(buf, NextField(buf, offset), tag))
  }

  function NextField(buf: Buffer, offset: nat): (next: nat)
    requires offset + 3 <= |buf|
    ensures next >= offset + 3
  {
    offset + 3 + GetU16(buf[offset + 1..offset + 3])
  }

  // What the walk loops read out of the fields with the given tag.
  function Walked<T>(buf: Buffer, offset: nat, tag: byte, read: Buffer -> T): seq<T>
    requires Walkable(buf, offset, tag)
    decreases if offset < |buf| then |buf| - offset else 0
  {
    if offset + 3 > |buf| then [] else
    var next := NextField(buf, offset);
    (if buf[offset] == tag then [read(buf[offset + 3..next])] else []) + Walked(buf, next, tag, read)
  }

  function Shown<T>(fs: Block, tag: byte, read: Buffer -> T): seq<T> {
    if fs == [] then []
    else (if fs[0].tag == tag then [read(fs[0].value)] else []) + Shown(fs[1..], tag, read)
  }

  lemma FieldInFront(pre: seq<byte>, f: Field, rest: seq<byte>)
    requires Fits(f) && |pre + Encode(f) + rest| < 0x1_0000
    ensures var buf := pre + Encode(f) + rest;
      && NextField(buf, |pre|) == |pre + Encode(f)|
      && buf[|pre|] == f.tag && buf[|pre| + 3..|pre + Encode(f)|] == f.value
  {
    var buf, o := pre + Encode(f) + rest, |pre|;
    assert buf[o + 1..o + 3] == PutU16(|f.value|);
    U16RoundTrip(|f.value|, buf[o + 1..o + 3]);
  }

  // Walking over encoded fields sees every one of them, in order.
  lemma {:induction false} WalkedIsShown<T>(pre: seq<byte>, fs: Block, tag: byte, read: Buffer -> T)
    requires |pre + EncodeAll(fs)| <= MAX_VALUE
    ensures var buf := pre + EncodeAll(fs);
      Walkable(buf, |pre|, tag) && Walked(buf, |pre|, tag, read) == Shown(fs, tag, read)
    decreases |fs|
  {
    hide Encode, NextField;
    if fs == [] {
      assert pre + EncodeAll(fs) == pre;
    } else {
      var f, rest := fs[0], fs[1..];
      assert pre + EncodeAll(fs) == pre + Encode(f) + EncodeAll(rest);
      FieldInFront(pre, f, EncodeAll(rest));
      WalkedIsShown(pre + Encode(f), rest, tag, read);
    }
  }

  // ---- The walk loops on any value ----

  // Where a walk is: still going, at its end, or about to read beyond the value; with what it has shown.
  datatype Walk<T> = Going(offset: nat, shown: seq<T>) | Ended(shown: seq<T>) | Outside(shown: seq<T>) {
    function After(before: seq<T>): Walk<T> { this.(shown := before + shown) }
  }

  // The loop n times around. Guard and offset compute in uint16_t.
  function WalkTurns<T>(buf: Buffer, offset: U16, tag: byte, read: Buffer -> T, n: nat): Walk<T>
    decreases n
  {
    if (offset + 3) % 0x1_0000 > |buf| then Ended([])
    else if offset + 3 > |buf| then Outside([])
    else
      var next := NextField(buf, offset);
      if buf[offset] == tag && next > |buf| then Outside([])
      else if n == 0 then Going(offset, [])
      else
        var here := if buf[offset] == tag then [read(buf[offset + 3..next])] else [];
        WalkTurns(buf, next % 0x1_0000, tag, read, n - 1).After(here)
  }

  lemma WalkTurn<T>(buf: Buffer, offset: U16, tag: byte, read: Buffer -> T, n: nat, shown: seq<T>)
    ensures var w := WalkTurns(buf, offset, tag, read, n).After(shown);
      if (offset + 3) % 0x1_0000 > |buf| then w == Ended(shown)
      else if offset + 3 > |buf| then w == Outside(shown)
      else
        var next := offset + 3 + GetU16(buf[offset + 1..offset + 3]);
        if buf[offset] == tag && next > |buf| then w == Outside(shown)
        else if n == 0 then w == Going(offset, shown)
        else
          var here := if buf[offset] == tag then [read(buf[offset + 3..next])] else [];
          w == WalkTurns(buf, next % 0x1_0000, tag, read, n - 1).After(shown + here)
  {
    assert shown + [] == shown;
    if (offset + 3) % 0x1_0000 <= |buf| && offset + 3 <= |buf| {
      var next := NextField(buf, offset);
      if n > 0 && (buf[offset] != tag || next <= |buf|) {
        var here := if buf[offset] == tag then [read(buf[offset + 3..next])] else [];
        Reassociate(shown, here, WalkTurns(buf, next % 0x1_0000, tag, read, n - 1).shown);
      }
    }
  }

  // The walk loop of Gs_RequestLog, stopped after so many turns in case it does not stop by itself, or before it
  // would read beyond the value.
  method WalkLogFor(value: Buffer, n: nat) returns (w: Walk<Measurement>)
    ensures w == WalkTurns(value, 0, MEASUREMENT_RECORD, ReadMeasurement, n)
  {
    hide ReadMeasurement, GetU16, NextField, WalkTurns;
    var shown: seq<Measurement> := [];
    var offset := 0;
    var i := 0;
    NothingShown(WalkTurns(value, 0, MEASUREMENT_RECORD, ReadMeasurement, n));
    WalkTurn(value, offset, MEASUREMENT_RECORD, ReadMeasurement, n, shown);
    while (offset + 3) % 0x1_0000 <= |value|
      invariant 0 <= offset < 0x1_0000 && 0 <= i <= n
      invariant WalkTurns(value, offset, MEASUREMENT_RECORD, ReadMeasurement, n - i).After(shown) ==
        WalkTurns(value, 0, MEASUREMENT_RECORD, ReadMeasurement, n)
      decreases n - i
    {
      WalkTurn(value, offset, MEASUREMENT_RECORD, ReadMeasurement, n - i, shown);
      if offset + 3 > |value| { return Outside(shown); }
      var fTag := value[offset];
      var fLen := GetU16(value[offset + 1..offset + 3]);
      if fTag == MEASUREMENT_RECORD && offset + 3 + fLen > |value| { return Outside(shown); }
      if i == n { return Going(offset, shown); }
      if fTag == MEASUREMENT_RECORD {
        shown := shown + [ReadMeasurement(value[offset + 3..offset + 3 + fLen])];
      }
      assert shown + [] == shown;
      offset := (offset + 3 + fLen) % 0x1_0000;
      i := i + 1;
    }
    WalkTurn(value, offset, MEASUREMENT_RECORD, ReadMeasurement, n - i, shown);
    w := Ended(shown);
  }

  method WalkLog(value: Buffer) returns (shown: seq<Measurement>)
    requires Walkable(value, 0, MEASUREMENT_RECORD)
    ensures shown == Walked(value, 0, MEASUREMENT_RECORD, ReadMeasurement)
  {
    WalkableEnds(value, 0, MEASUREMENT_RECORD, ReadMeasurement, |value|);
    var w := WalkLogFor(value, |value|);
    shown := w.shown;
  }

  // The walk loop of Gs_RequestEvents, stopped after so many turns in case it does not stop by itself, or before it
  // would read beyond the value.
  method WalkEventsFor(value: Buffer, n: nat) returns (w: Walk<Event>)
    ensures w == WalkTurns(value, 0, EVENT_RECORD, ReadEvent, n)
  {
    hide ReadEvent, GetU16, NextField, WalkTurns;
    var shown: seq<Event> := [];
    var offset := 0;
    var i := 0;
    NothingShown(WalkTurns(value, 0, EVENT_RECORD, ReadEvent, n));
    WalkTurn(value, offset, EVENT_RECORD, ReadEvent, n, shown);
    while (offset + 3) % 0x1_0000 <= |value|
      invariant 0 <= offset < 0x1_0000 && 0 <= i <= n
      invariant WalkTurns(value, offset, EVENT_RECORD, ReadEvent, n - i).After(shown) ==
        WalkTurns(value, 0, EVENT_RECORD, ReadEvent, n)
      decreases n - i
    {
      WalkTurn(value, offset, EVENT_RECORD, ReadEvent, n - i, shown);
      if offset + 3 > |value| { return Outside(shown); }
      var fTag := value[offset];
      var fLen := GetU16(value[offset + 1..offset + 3]);
      if fTag == EVENT_RECORD && offset + 3 + fLen > |value| { return Outside(shown); }
      if i == n { return Going(offset, shown); }
      if fTag == EVENT_RECORD {
        shown := shown + [ReadEvent(value[offset + 3..offset + 3 + fLen])];
      }
      assert shown + [] == shown;
      offset := (offset + 3 + fLen) % 0x1_0000;
      i := i + 1;
    }
    WalkTurn(value, offset, EVENT_RECORD, ReadEvent, n - i, shown);
    w := Ended(shown);
  }

  method WalkEvents(value: Buffer) returns (shown: seq<Event>)
    requires Walkable(value, 0, EVENT_RECORD)
    ensures shown == Walked(value, 0, EVENT_RECORD, ReadEvent)
  {
    WalkableEnds(value, 0, EVENT_RECORD, ReadEvent, |value|);
    var w := WalkEventsFor(value, |value|);
    shown := w.shown;
  }

  lemma NothingShown<T>(w: Walk<T>)
    ensures w.After([]) == w
  {
    assert [] + w.shown == w.shown;
  }

  lemma {:induction false} WalkableEnds<T>(buf: Buffer, offset: U16, tag: byte, read: Buffer -> T, n: nat)
    requires Walkable(buf, offset, tag) && offset + 3 < 0x1_0000 && offset + n >= |buf|
    ensures WalkTurns(buf, offset, tag, read, n) == Ended(Walked(buf, offset, tag, read))
    decreases n
  {
    hide NextField;
    if offset + 3 <= |buf| { WalkableEnds(buf, NextField(buf, offset), tag, read, n - 1); }
  }

  // The offset from which the walk goes on after this one, unless it ends or leaves the value here.
  function Hop(buf: Buffer, tag: byte, offset: U16): Option<U16> {
    if (offset + 3) % 0x1_0000 > |buf| || offset + 3 > |buf| then None
    else if buf[offset] == tag && NextField(buf, offset) > |buf| then None
    else Some(NextField(buf, offset) % 0x1_0000)
  }

  // The offset the walk has come to after n turns.
  function Hops(buf: Buffer, tag: byte, offset: U16, n: nat): Option<U16>
    decreases n
  {
    if n == 0 then Some(offset) else
    match Hop(buf, tag, offset)
    case None => None
    case Some(next) => Hops(buf, tag, next, n - 1)
  }

  lemma {:induction false} TurnsAreHops<T>(buf: Buffer, offset: U16, tag: byte, read: Buffer -> T, n: nat)
    ensures WalkTurns(buf, offset, tag, read, n).Going? <==> Hops(buf, tag, offset, n + 1).Some?
    decreases n
  {
    hide NextField;
    match Hop(buf, tag, offset)
    case None =>
    case Some(next) =>
      if n > 0 {
        TurnsAreHops(buf, next, tag, read, n - 1);
      } else {
        assert Hops(buf, tag, next, 0).Some?;
      }
  }

  lemma {:induction false} HopsConcat(buf: Buffer, tag: byte, offset: U16, m: nat, n: nat)
    ensures Hops(buf, tag, offset, m + n) ==
      match Hops(buf, tag, offset, m) case None => None case Some(o) => Hops(buf, tag, o, n)
    decreases m
  {
    hide Hop;
    if m > 0 {
      match Hop(buf, tag, offset)
      case None =>
      case Some(next) => HopsConcat(buf, tag, next, m - 1, n);
    }
  }

  // The walk comes to an offset for the second time.
  predicate Returns(buf: Buffer, tag: byte, i: nat, j: nat) {
    i < j && Hops(buf, tag, 0, i).Some? && Hops(buf, tag, 0, i) == Hops(buf, tag, 0, j)
  }

  // After i turns the walk is at a field whose end lies past 65535, so that the offset wraps around.
  predicate WrapsAt(buf: Buffer, tag: byte, i: nat) {
    var o := Hops(buf, tag, 0, i);
    o.Some? && o.value + 3 <= |buf| && NextField(buf, o.value) >= 0x1_0000
  }

  lemma HopsNext(buf: Buffer, tag: byte, n: nat)
    ensures Hops(buf, tag, 0, n + 1) ==
      match Hops(buf, tag, 0, n) case None => None case Some(o) => Hop(buf, tag, o)
  {
    HopsConcat(buf, tag, 0, n, 1);
  }

  // Without wrap-around every turn moves on, past the header at least.
  lemma {:induction false} WalkRises(buf: Buffer, tag: byte, i: nat, n: nat)
    requires Hops(buf, tag, 0, i + n).Some? && forall k :: i <= k < i + n ==> !WrapsAt(buf, tag, k)
    ensures Hops(buf, tag, 0, i).Some? && Hops(buf, tag, 0, i + n).value >= Hops(buf, tag, 0, i).value + 3 * n
    decreases n
  {
    hide Hops, NextField;
    if n > 0 {
      assert !WrapsAt(buf, tag, i + n - 1);
      HopsNext(buf, tag, i + n - 1);
      WalkRises(buf, tag, i, n - 1);
    }
  }

  // Main result: on any value whatever the walk goes on for ever if and only if it meets a field whose end
  // wraps around past 65535 and comes to that field again.
  lemma WalkNeverStopsIff<T>(buf: Buffer, tag: byte, read: Buffer -> T)
    ensures (forall n: nat :: WalkTurns(buf, 0, tag, read, n).Going?) <==>
      exists i: nat, j: nat :: Returns(buf, tag, i, j) && WrapsAt(buf, tag, i)
  {
    hide Hops, WalkTurns, NextField, Returns, WrapsAt;
    if n: nat :| !WalkTurns(buf, 0, tag, read, n).Going? {
      TurnsAreHops(buf, 0, tag, read, n);
      forall i: nat, j: nat ensures !Returns(buf, tag, i, j) {
        if Returns(buf, tag, i, j) { RoundAndRound(buf, tag, i, j, n + 1); }
      }
    } else {
      var i, j := SomethingReturns(buf, tag, read);
      var k, l := WrapBetween(buf, tag, i, j);
      assert Returns(buf, tag, k, l) && WrapsAt(buf, tag, k);
    }
  }

  // Between two visits of the same offset the walk wraps around, at a field that it visits again.
  lemma WrapBetween(buf: Buffer, tag: byte, i: nat, j: nat) returns (k: nat, l: nat)
    requires Returns(buf, tag, i, j)
    ensures Returns(buf, tag, k, l) && WrapsAt(buf, tag, k)
  {
    hide Hops, WrapsAt;
    if forall m :: i <= m < j ==> !WrapsAt(buf, tag, m) {
      WalkRises(buf, tag, i, j - i);
    } else {
      k :| i <= k < j && WrapsAt(buf, tag, k);
      l := k + (j - i);
      WrapsIsSome(buf, tag, k);
      HopsConcat(buf, tag, 0, i, k - i);
      HopsConcat(buf, tag, 0, j, k - i);
    }
  }

  lemma WrapsIsSome(buf: Buffer, tag: byte, k: nat)
    requires WrapsAt(buf, tag, k)
    ensures Hops(buf, tag, 0, k).Some?
  {
  }

  // Without wrap-around the walk stops, within as many turns as the value has bytes.
  lemma WalkWithoutWrapStops<T>(buf: Buffer, tag: byte, read: Buffer -> T)
    requires forall i: nat :: !WrapsAt(buf, tag, i)
    ensures !WalkTurns(buf, 0, tag, read, |buf|).Going?
  {
    hide Hops, WalkTurns, NextField;
    TurnsAreHops(buf, 0, tag, read, |buf|);
    if Hops(buf, tag, 0, |buf| + 1).Some? {
      HopsNext(buf, tag, |buf|);
      WalkRises(buf, tag, 0, |buf|);
    }
  }

  lemma {:induction false} RoundAndRound(buf: Buffer, tag: byte, i: nat, j: nat, n: nat)
    requires Returns(buf, tag, i, j)
    ensures Hops(buf, tag, 0, n).Some?
    decreases n
  {
    hide Hops;
    if n <= j {
      HopsConcat(buf, tag, 0, n, j - n);
    } else {
      // From offset i on, n - j turns lead where n - (j - i) turns from the start lead.
      RoundAndRound(buf, tag, i, j, n - (j - i));
      HopsConcat(buf, tag, 0, i, n - j);
      HopsConcat(buf, tag, 0, j, n - j);
    }
  }

  lemma SomethingReturns<T>(buf: Buffer, tag: byte, read: Buffer -> T) returns (i: nat, j: nat)
    requires forall n: nat :: WalkTurns(buf, 0, tag, read, n).Going?
    ensures Returns(buf, tag, i, j)
  {
    hide Hops, WalkTurns;
    forall n: nat | n <= 0x1_0000 ensures Hops(buf, tag, 0, n).Some? {
      HopsStart(buf, tag, 0);
      if n > 0 { TurnsAreHops(buf, 0, tag, read, n - 1); }
    }
    var offsets: seq<nat> := seq(0x1_0001, n requires 0 <= n < 0x1_0001 => Hops(buf, tag, 0, n).value as nat);
    i, j := Pigeonhole(offsets, 0x1_0000);
    assert offsets[i] == Hops(buf, tag, 0, i).value && offsets[j] == Hops(buf, tag, 0, j).value;
  }

  lemma HopsStart(buf: Buffer, tag: byte, offset: U16)
    ensures Hops(buf, tag, offset, 0) == Some(offset)
  {
  }

  lemma {:induction false} Pigeonhole(xs: seq<nat>, n: nat) returns (i: nat, j: nat)
    requires |xs| > n && forall k :: 0 <= k < |xs| ==> xs[k] < n
    ensures i < j < |xs| && xs[i] == xs[j]
    decreases n
  {
    var last := |xs| - 1;
    if k :| 0 <= k < last && xs[k] == xs[last] {
      i, j := k, last;
    } else {
      // Rename n - 1 to the last value, which no other has; then n - 1 values are left.
      var rest := seq(last, k requires 0 <= k < last => if xs[k] == n - 1 then xs[last] else xs[k]);
      i, j := Pigeonhole(rest, n - 1);
    }
  }

  // Three bytes on which the walk goes round for ever: a field that declares 65533 bytes leads back to itself.
  lemma WalkGoesRound<T>(tag: byte, read: Buffer -> T, n: nat)
    requires tag != 0xAA
    ensures WalkTurns([0xAA, 0xFF, 0xFD], 0, tag, read, n).Going?
  {
    var buf: Buffer := [0xAA, 0xFF, 0xFD];
    assert buf[1..3] == [0xFF, 0xFD];
    assert Hop(buf, tag, 0) == Some(0);
    assert Hops(buf, tag, 0, 0) == Some(0) && Hops(buf, tag, 0, 1) == Hops(buf, tag, 0, 0);
    RoundAndRound(buf, tag, 0, 1, n + 1);
    TurnsAreHops(buf, 0, tag, read, n);
  }

  // ---- The exchange ----

  // Unsafe stands for a response whose records cannot be walked without leaving the buffer.
  datatype Answer<T> = NotReceived | WrongTag | Empty | Failed(status: byte) | Listed(records: seq<T>) | Unsafe

  // The response half of Gs_RequestLog and Gs_RequestEvents.
  function ReadReply<T>(stream: seq<byte>, replyTag: byte, recordTag: byte, read: Buffer -> T): Answer<T> {
    match Receive(stream)
    case None => NotReceived
    case Some((tag, value)) =>
      if tag != replyTag then WrongTag else
      var status := ByteField(value, STATUS);
      if status == NO_DATA_FOUND then Empty
      else if status != SUCCESS then Failed(status)
      else if Walkable(value, 0, recordTag) then Listed(Walked(value, 0, recordTag, read)) else Unsafe
  }

  // What the server's dispatcher makes of the bytes of a request: a tag and a value, within 512 bytes.
  function Dispatched(stream: seq<byte>): Option<(byte, Buffer)> {
    if |stream| >= 4 && GetU32(stream) > REQUEST_STORAGE then None else Receive(stream)
  }

  lemma RequestArrives(tag: byte, r: Range)
    requires Sendable(r)
    ensures |EncodeAll(RequestFields(r))| <= 80
    ensures Dispatched(Prefixed(Encode(Field(tag, EncodeAll(RequestFields(r)))))) ==
      Some((tag, EncodeAll(RequestFields(r))))
  {
    hide Receive, EncodeAll, Encode, PutU32, GetU32;
    RequestSize(r);
    var f := Field(tag, EncodeAll(RequestFields(r)));
    ReceiveEncoded(f);
    U32RoundTrip(|Encode(f)|, Encode(f));
  }

  lemma {:induction false} ShownRecords<T>(fs: Block, records: seq<T>, tag: byte, read: Buffer -> T)
    requires |fs| == |records|
    requires forall i :: 0 <= i < |fs| ==> fs[i].tag == tag && read(fs[i].value) == records[i]
    ensures Shown(fs, tag, read) == records
    decreases |fs|
  {
    if fs != [] { ShownRecords(fs[1..], records[1..], tag, read); }
  }

  // A response to a parsed request is read back as the records admitted into it.
  lemma ReplyIsRead<T>(replyTag: byte, recordTag: byte, read: Buffer -> T, fs: Block, records: seq<T>)
    requires Sized(fs, 48) && recordTag != STATUS && |fs| == |records|
    requires forall i :: 0 <= i < |fs| ==> fs[i].tag == recordTag && read(fs[i].value) == records[i]
    ensures var payload := EncodeAll(ResponseFields(fs));
      |payload| <= MAX_PAYLOAD + 51 &&
      ReadReply(Prefixed(WrapMessage(replyTag, payload)), replyTag, recordTag, read) ==
        if records == [] then Empty else Listed(records[..Admitted(4, fs)])
  {
    hide EncodeAll, Encode, Receive, Walked, Shown, First, ByteField, Admitted, Walkable, WrapMessage;
    var k := Admitted(4, fs);
    var status := StatusField(if fs == [] then NO_DATA_FOUND else SUCCESS);
    var all: Block := [status] + fs[..k];
    ResponseSize(fs);
    WrappedIsEncoded(replyTag, EncodeAll(all));
    ReceiveEncoded(Field(replyTag, EncodeAll(all)));
    FirstIsAt(all, 0);
    ByteIsRead(all, STATUS, status.value[0]);
    assert [] + EncodeAll(all) == EncodeAll(all);
    WalkedIsShown([], all, recordTag, read);
    ShownSkipsStatus(status, fs[..k], recordTag, read);
    ShownRecords(fs[..k], records[..k], recordTag, read);
  }

  lemma ResponseSize(fs: Block)
    requires Sized(fs, 48)
    ensures |EncodeAll(ResponseFields(fs))| <= MAX_PAYLOAD + 51
  {
    hide Encode;
    AdmittedSize(4, fs);
    EncodeResponse(if fs == [] then NO_DATA_FOUND else SUCCESS, fs[..Admitted(4, fs)]);
  }

  lemma ShownSkipsStatus<T>(status: Field, fs: Block, tag: byte, read: Buffer -> T)
    requires Fits(status) && status.tag != tag
    ensures Shown([status] + fs, tag, read) == Shown(fs, tag, read)
  {
    assert ([status] + fs)[1..] == fs;
  }

  // Main result: for every range and whatever the query answers, the Ground Station ends up with exactly
  // the first 1819 measurements of that answer.
  lemma LogExchange(r: Range, query: LogQuery)
    requires Sendable(r)
    ensures |EncodeAll(RequestFields(r))| <= 80
    ensures var request := EncodeAll(RequestFields(r));
      var ms := query(r);
      && Dispatched(Prefixed(Encode(Field(GET_LOG_REQ, request)))) == Some((GET_LOG_REQ, request))
      && Scannable(request)
      && ReadReply(Prefixed(WrapMessage(GET_LOG_RESP, EncodeAll(LogReply(request, query)))), GET_LOG_RESP,
        MEASUREMENT_RECORD, ReadMeasurement) ==
           if ms == [] then Empty else Listed(if |ms| <= 1819 then ms else ms[..1819])
  {
    hide EncodeAll, Encode, ReadReply, Dispatched, WrapMessage, MeasurementRecord, ReadMeasurement, ParseRequest,
      Admitted, Scannable;
    RequestArrives(GET_LOG_REQ, r);
    RequestRoundTrip(r);
    RequestIsScannable(r);
    var ms := query(r);
    forall i | 0 <= i < |ms| ensures ReadMeasurement(LogRecords(ms)[i].value) == ms[i] { MeasurementRoundTrip(ms[i]); }
    ReplyIsRead(GET_LOG_RESP, MEASUREMENT_RECORD, ReadMeasurement, LogRecords(ms), ms);
    LogIsCutAt1819(ms);
  }

  // Main result: the same for events, up to the one with which the payload first exceeds 60000 bytes
  // (AdmittedIsCrossing).
  lemma EventsExchange(r: Range, query: EventQuery)
    requires Sendable(r) && forall e <- query(r) :: Stamped(e)
    ensures |EncodeAll(RequestFields(r))| <= 80
    ensures var request := EncodeAll(RequestFields(r));
      var es := query(r);
      && Dispatched(Prefixed(Encode(Field(GET_EVENTS_REQ, request)))) == Some((GET_EVENTS_REQ, request))
      && Scannable(request)
      && ReadReply(Prefixed(WrapMessage(GET_EVENTS_RESP, EncodeAll(EventsReply(request, query)))), GET_EVENTS_RESP,
        EVENT_RECORD, ReadEvent) ==
           if es == [] then Empty else Listed(es[..Admitted(4, EventRecords(es))])
  {
    hide EncodeAll, Encode, ReadReply, Dispatched, WrapMessage, EventRecord, ReadEvent, ParseRequest, Admitted,
      Scannable;
    RequestArrives(GET_EVENTS_REQ, r);
    RequestRoundTrip(r);
    RequestIsScannable(r);
    var es := query(r);
    forall i | 0 <= i < |es| ensures ReadEvent(EventRecords(es)[i].value) == es[i] { EventRoundTrip(es[i]); }
    ReplyIsRead(GET_EVENTS_RESP, EVENT_RECORD, ReadEvent, EventRecords(es), es);
  }

  // A response is shown by its status: 0x03 as no data, any other but 0x00 as that status.
  lemma ShownByStatus<T>(replyTag: byte, recordTag: byte, read: Buffer -> T, fs: seq<Field>, status: byte)
    requires (forall f <- fs :: Fits(f)) && |EncodeAll(fs)| <= MAX_VALUE
    requires First(fs, 0x26) == Some([status]) && status != 0x00
    ensures ReadReply(Prefixed(WrapMessage(replyTag, EncodeAll(fs))), replyTag, recordTag, read) ==
      if status == 0x03 then Empty else Failed(status)
  {
    hide EncodeAll, Encode, Receive, Walked, First, ByteField, Walkable, WrapMessage;
    WrappedIsEncoded(replyTag, EncodeAll(fs));
    ReceiveEncoded(Field(replyTag, EncodeAll(fs)));
    ByteIsRead(fs, STATUS, status);
  }

  // A request that lacks a field is answered, whatever is stored, with status 0x05, and that is shown.
  lemma FailureIsShown(fs: seq<Field>, logQuery: LogQuery, eventQuery: EventQuery)
    requires (forall f <- fs :: Fits(f)) && |EncodeAll(fs)| < 0x1_0000
    requires First(fs, 0x32) == None || First(fs, 0x27) == None || First(fs, 0x28) == None
    ensures var log, events := LogReply(EncodeAll(fs), logQuery), EventsReply(EncodeAll(fs), eventQuery);
      && ReadReply(Prefixed(WrapMessage(0x14, EncodeAll(log))), GET_LOG_RESP, MEASUREMENT_RECORD, ReadMeasurement)
           == Failed(0x05)
      && ReadReply(Prefixed(WrapMessage(0x16, EncodeAll(events))), GET_EVENTS_RESP, EVENT_RECORD, ReadEvent)
           == Failed(0x05)
  {
    hide First, ParseRequest, ReadReply, WrapMessage, ReadMeasurement, ReadEvent;
    RequestIsParsed(fs);
    FailureFields();
    hide EncodeAll;
    ShownByStatus(0x14, MEASUREMENT_RECORD, ReadMeasurement, FAILURE, 0x05);
    ShownByStatus(0x16, EVENT_RECORD, ReadEvent, FAILURE, 0x05);
  }

  lemma FailureFields()
    ensures |EncodeAll(FAILURE)| == 4 && First(FAILURE, 0x26) == Some([0x05])
  {
    EncodeOne(FAILURE[0]);
  }

  // The whole exchange: request, server, response.
  method AskForLog(id: Identifier, start: U32, end: U32, dca: DataCollection) returns (shown: Answer<Measurement>)
    requires |id| <= 63 && dca.Valid()
    ensures var ms := MeasurementsOf(AllLines(dca.FilesOf(Directory(id, Measurements))), start, end);
      shown == if ms == [] then Empty else Listed(if |ms| <= 1819 then ms else ms[..1819])
  {
    var r := Range(BytesOf(id), start, end);
    OwnDirectoryIsRead(id, start, end, dca.directories, []);
    hide LogQueryOf, EncodeAll, Encode, ReadReply, Dispatched, WrapMessage, LogReply, Scannable, Prefixed, AllLines,
      MeasurementsOf, EventsOf, FilesIn;
    var wire := BuildRequest(GET_LOG_REQ, r);
    LogExchange(r, LogQueryOf(dca.directories));
    var request := Dispatched(wire).value;
    var message := HandleGetLog(request.1, dca);
    shown := ReadReply(Prefixed(message), GET_LOG_RESP, MEASUREMENT_RECORD, ReadMeasurement);
  }

  method AskForEvents(id: Identifier, start: U32, end: U32, dca: DataCollection) returns (shown: Answer<Event>)
    requires |id| <= 63 && dca.Valid()
    ensures var es := EventsOf(AllLines(dca.FilesOf(Directory(id, Events))), start, end);
      shown == if es == [] then Empty else Listed(es[..Admitted(4, EventRecords(es))])
  {
    var r := Range(BytesOf(id), start, end);
    OwnDirectoryIsRead(id, start, end, dca.directories, []);
    ParsedAreStamped(AllLines(dca.FilesOf(Directory(id, Events))), start, end);
    hide EventQueryOf, EncodeAll, Encode, ReadReply, Dispatched, WrapMessage, EventsReply, Scannable, Prefixed,
      Admitted,
      AllLines, MeasurementsOf, EventsOf, FilesIn;
    var wire := BuildRequest(GET_EVENTS_REQ, r);
    EventsExchange(r, EventQueryOf(dca.directories));
    var request := Dispatched(wire).value;
    var message := HandleGetEvents(request.1, dca);
    shown := ReadReply(Prefixed(message), GET_EVENTS_RESP, EVENT_RECORD, ReadEvent);
  }

  // Every event a query parses carries one timestamp.
  lemma {:induction false} ParsedAreStamped(lines: seq<string>, start: U32, end: U32)
    ensures forall e <- EventsOf(lines, start, end) :: Stamped(e)
  {
    hide Scan;
    if lines != [] { ParsedAreStamped(lines[..|lines| - 1], start, end); }
  }

  lemma RequestIsScannable(r: Range)
    requires Sendable(r)
    ensures |EncodeAll(RequestFields(r))| <= 80 && Scannable(EncodeAll(RequestFields(r)))
  {
    hide EncodeAll, Find, First;
    RequestSize(r);
    var fs := RequestFields(r);
    FirstIsAt(fs, 0);
    FirstIsAt(fs, 1);
    FirstIsAt(fs, 2);
    LookupFirst(fs, SUBMARINE_ID);
    LookupFirst(fs, TIME_RANGE_START);
    LookupFirst(fs, TIME_RANGE_END);
  }
}
