/**
 Telemetry arriving between replies: pc_side/central_computer/lnc_link_client.cpp and log.cpp. The
 incoming bytes are those the bridge sends until it closes the connection.
 */
module Telemetry {
  import opened Bytes
  import opened Wrappers
  import opened Tlv
  import opened Records

  const KEEP_ALIVE: byte := 0x11
  const EVENT_REPORT: byte := 0x12

  // A call of DCA_StoreMeasurement or DCA_StoreEvent.
  datatype Store = StoreMeasurement(m: Measurement) | StoreEvent(e: Event)

  // ---- log.cpp ----

  // What CcCore_PrintKeepAlive stores: timestamp and mode from the message, the rest from its record.
  function KeepAliveStores(value: Buffer): seq<Store> {
    match Lookup(value, MEASUREMENT_RECORD)
    case None => []
    case Some(record) =>
      [StoreMeasurement(ReadMeasurement(record).(timestamp := U32Field(value, TIMESTAMP),
        mode := ByteField(value, MODE)))]
  }

  // What CcCore_PrintEventReport stores.
  function EventReportStores(value: Buffer): seq<Store> {
    [StoreEvent(ReadEvent(value))]
  }

  // The search for the field ends, and n bytes from its value on lie in the buffer.
  predicate Readable(buf: Buffer, tag: byte, n: nat) {
    var r := Find(buf, 0, tag);
    r != Endless && (r.Found? ==> r.at + n <= |buf|)
  }

  // The search for the measurement record ends, and the record lies in the buffer.
  predicate HoldsRecord(buf: Buffer) {
    var r := Find(buf, 0, MEASUREMENT_RECORD);
    r != Endless && (r.Found? ==> r.at + r.len <= |buf|)
  }

  predicate ReadableSensors(record: Buffer) {
    && Readable(record, TEMPERATURE, 2) && Readable(record, HUMIDITY, 1) && Readable(record, LIGHT, 2)
    && Readable(record, BATTERY_VOLTAGE, 2)
  }

  // What CcCore_PrintKeepAlive reads of a value can be read.
  predicate KeepAliveShaped(value: Buffer) {
    && Readable(value, TIMESTAMP, 4) && Readable(value, MODE, 1) && HoldsRecord(value)
    && match Lookup(value, MEASUREMENT_RECORD) case None => true case Some(record) => ReadableSensors(record)
  }

  // What CcCore_PrintEventReport reads of a value can be read.
  predicate EventShaped(value: Buffer) {
    && Readable(value, TIMESTAMP, 4) && Readable(value, EVENT_TYPE, 1) && Readable(value, EVENT_SOURCE, 1)
    && Readable(value, WD_RESET_FLAG, 1) && HoldsRecord(value)
    && match Lookup(value, MEASUREMENT_RECORD)
       case None => true
       case Some(record) => ReadableSensors(record) && Readable(record, MODE, 1)
  }

  predicate SenderShaped(tag: byte, value: Buffer) {
    (tag == KEEP_ALIVE ==> KeepAliveShaped(value)) && (tag == EVENT_REPORT ==> EventShaped(value))
  }

  method ReadU32(buf: Buffer, tag: byte) returns (v: U32)
    requires Readable(buf, tag, 4)
    ensures v == U32Field(buf, tag)
  {
    v := 0;
    var r := FindField(buf, tag);
    if r.Found? { v := GetU32(buf[r.at..r.at + 4]); }
  }

  method ReadU16(buf: Buffer, tag: byte) returns (v: U16)
    requires Readable(buf, tag, 2)
    ensures v == U16Field(buf, tag)
  {
    v := 0;
    var r := FindField(buf, tag);
    if r.Found? { v := GetU16(buf[r.at..r.at + 2]); }
  }

  method ReadByte(buf: Buffer, tag: byte) returns (v: byte)
    requires Readable(buf, tag, 1)
    ensures v == ByteField(buf, tag)
  {
    v := 0;
    var r := FindField(buf, tag);
    if r.Found? { v := buf[r.at]; }
  }

  // CcCore_PrintKeepAlive.
  method PrintKeepAlive(value: Buffer) returns (stores: seq<Store>)
    requires KeepAliveShaped(value)
    ensures stores == KeepAliveStores(value)
  {
    hide U32Field, U16Field, ByteField, Find;
    var timestamp := ReadU32(value, TIMESTAMP);
    var mode := ReadByte(value, MODE);
    var r := FindField(value, MEASUREMENT_RECORD);
    if !r.Found? { return []; }
    var measurement := value[r.at..r.at + r.len];
    var temperature := ReadU16(measurement, TEMPERATURE);
    var humidity := ReadByte(measurement, HUMIDITY);
    var light := ReadU16(measurement, LIGHT);
    var battery := ReadU16(measurement, BATTERY_VOLTAGE);
    stores := [StoreMeasurement(Measurement(timestamp, ToSigned16(temperature), humidity, light, battery, mode))];
  }

  // CcCore_PrintEventReport.
  method PrintEventReport(value: Buffer) returns (stores: seq<Store>)
    requires EventShaped(value)
    ensures stores == EventReportStores(value)
  {
    hide U32Field, U16Field, ByteField, Find;
    var timestamp := ReadU32(value, TIMESTAMP);
    var eventType := ReadByte(value, EVENT_TYPE);
    var eventSource := ReadByte(value, EVENT_SOURCE);
    var wdReset := ReadByte(value, WD_RESET_FLAG);    // printed only
    var r := FindField(value, MEASUREMENT_RECORD);
    if !r.Found? { return [StoreEvent(Event(timestamp, eventType, eventSource, None))]; }
    var measurement := value[r.at..r.at + r.len];
    var temperature := ReadU16(measurement, TEMPERATURE);
    var humidity := ReadByte(measurement, HUMIDITY);
    var light := ReadU16(measurement, LIGHT);
    var battery := ReadU16(measurement, BATTERY_VOLTAGE);
    var mode := ReadByte(measurement, MODE);
    var m := Measurement(timestamp, ToSigned16(temperature), humidity, light, battery, mode);
    stores := [StoreEvent(Event(timestamp, eventType, eventSource, Some(m)))];
  }

  // A keep-alive is stored with the values its sender put into it, in whatever order the fields come.
  lemma KeepAliveIsStored(fs: seq<Field>, record: seq<Field>, m: Measurement)
    requires (forall f <- fs :: Fits(f)) && |EncodeAll(fs)| < 0x1_0000
    requires (forall f <- record :: Fits(f)) && |EncodeAll(record)| < 0x1_0000
    requires First(fs, TIMESTAMP) == Some(PutU32(m.timestamp)) && First(fs, MODE) == Some([m.mode])
    requires First(fs, MEASUREMENT_RECORD) == Some(EncodeAll(record))
    requires First(record, TEMPERATURE) == Some(PutU16(ToUnsigned16(m.temperature)))
    requires First(record, HUMIDITY) == Some([m.humidity]) && First(record, LIGHT) == Some(PutU16(m.light))
    requires First(record, BATTERY_VOLTAGE) == Some(PutU16(m.batteryVoltage))
    ensures KeepAliveStores(EncodeAll(fs)) == [StoreMeasurement(m)]
  {
    hide First, Lookup, EncodeAll, U32Field, U16Field, ByteField;
    U32IsRead(fs, TIMESTAMP, m.timestamp);
    ByteIsRead(fs, MODE, m.mode);
    LookupFirst(fs, MEASUREMENT_RECORD);
    U16IsRead(record, TEMPERATURE, ToUnsigned16(m.temperature));
    ByteIsRead(record, HUMIDITY, m.humidity);
    U16IsRead(record, LIGHT, m.light);
    U16IsRead(record, BATTERY_VOLTAGE, m.batteryVoltage);
  }

  // Without a measurement record nothing is stored.
  lemma KeepAliveWithoutRecord(fs: seq<Field>)
    requires (forall f <- fs :: Fits(f)) && |EncodeAll(fs)| < 0x1_0000
    ensures KeepAliveStores(EncodeAll(fs)) == [] <==> First(fs, MEASUREMENT_RECORD) == None
  {
    LookupFirst(fs, MEASUREMENT_RECORD);
  }

  // What the sender of an event report put into the nested record; its timestamp, if any, is not looked at.
  ghost predicate Describes(record: seq<Field>, m: Measurement) {
    && (forall f <- record :: Fits(f)) && |EncodeAll(record)| < 0x1_0000
    && First(record, TEMPERATURE) == Some(PutU16(ToUnsigned16(m.temperature)))
    && First(record, HUMIDITY) == Some([m.humidity])
    && First(record, LIGHT) == Some(PutU16(m.light))
    && First(record, BATTERY_VOLTAGE) == Some(PutU16(m.batteryVoltage))
    && First(record, MODE) == Some([m.mode])
  }

  // An event is stored with the values its sender put into it, in whatever order the fields come and
  // whatever other fields there are, the watchdog flag among them.
  lemma EventIsStored(fs: seq<Field>, record: seq<Field>, e: Event)
    requires (forall f <- fs :: Fits(f)) && |EncodeAll(fs)| < 0x1_0000 && (forall f <- record :: Fits(f))
    requires First(fs, TIMESTAMP) == Some(PutU32(e.timestamp))
    requires First(fs, EVENT_TYPE) == Some([e.eventType]) && First(fs, EVENT_SOURCE) == Some([e.eventSource])
    requires First(fs, MEASUREMENT_RECORD) == if e.measurement == None then None else Some(EncodeAll(record))
    requires Stamped(e) && (e.measurement.Some? ==> Describes(record, e.measurement.value))
    ensures EventReportStores(EncodeAll(fs)) == [StoreEvent(e)]
  {
    hide First, Lookup, EncodeAll, U32Field, ByteField, ReadMeasurement;
    U32IsRead(fs, TIMESTAMP, e.timestamp);
    ByteIsRead(fs, EVENT_TYPE, e.eventType);
    ByteIsRead(fs, EVENT_SOURCE, e.eventSource);
    LookupFirst(fs, MEASUREMENT_RECORD);
    if e.measurement.Some? { RecordIsRead(record, e.measurement.value); }
  }

  lemma RecordIsRead(record: seq<Field>, m: Measurement)
    requires Describes(record, m)
    ensures ReadMeasurement(EncodeAll(record)).(timestamp := m.timestamp) == m
  {
    hide First, EncodeAll, U32Field, U16Field, ByteField;
    U16IsRead(record, TEMPERATURE, ToUnsigned16(m.temperature));
    ByteIsRead(record, HUMIDITY, m.humidity);
    U16IsRead(record, LIGHT, m.light);
    U16IsRead(record, BATTERY_VOLTAGE, m.batteryVoltage);
    ByteIsRead(record, MODE, m.mode);
  }

  ghost predicate LongEnough(fs: seq<Field>, tag: byte, n: nat) {
    First(fs, tag).Some? ==> |First(fs, tag).value| >= n
  }

  // Sibling fields long enough for their types, in any order and with any others among them, are safe to
  // read, by the fields that either kind of message has.
  lemma FieldsAreShaped(fs: seq<Field>, record: seq<Field>)
    requires (forall f <- fs :: Fits(f)) && |EncodeAll(fs)| < 0x1_0000
    requires (forall f <- record :: Fits(f)) && |EncodeAll(record)| < 0x1_0000
    requires First(fs, MEASUREMENT_RECORD).Some? ==> First(fs, MEASUREMENT_RECORD).value == EncodeAll(record)
    requires LongEnough(fs, TIMESTAMP, 4) && LongSensors(record)
    ensures LongEnough(fs, MODE, 1) ==> KeepAliveShaped(EncodeAll(fs))
    ensures LongEventFields(fs) && LongEnough(record, MODE, 1) ==> EventShaped(EncodeAll(fs))
  {
    hide First, EncodeAll, Readable, Lookup, LongEnough, HoldsRecord;
    FieldIsReadable(fs, TIMESTAMP, 4);
    RecordIsHeld(fs);
    SensorsAreReadable(record);
    if LongEnough(fs, MODE, 1) { FieldIsReadable(fs, MODE, 1); }
    if LongEventFields(fs) {
      FieldIsReadable(fs, EVENT_TYPE, 1);
      FieldIsReadable(fs, EVENT_SOURCE, 1);
      FieldIsReadable(fs, WD_RESET_FLAG, 1);
    }
    if LongEnough(record, MODE, 1) { FieldIsReadable(record, MODE, 1); }
  }

  ghost predicate LongEventFields(fs: seq<Field>) {
    LongEnough(fs, EVENT_TYPE, 1) && LongEnough(fs, EVENT_SOURCE, 1) && LongEnough(fs, WD_RESET_FLAG, 1)
  }

  ghost predicate LongSensors(record: seq<Field>) {
    && LongEnough(record, TEMPERATURE, 2) && LongEnough(record, HUMIDITY, 1) && LongEnough(record, LIGHT, 2)
    && LongEnough(record, BATTERY_VOLTAGE, 2)
  }

  lemma SensorsAreReadable(record: seq<Field>)
    requires (forall f <- record :: Fits(f)) && |EncodeAll(record)| < 0x1_0000 && LongSensors(record)
    ensures ReadableSensors(EncodeAll(record))
  {
    hide First, EncodeAll, Readable, LongEnough;
    FieldIsReadable(record, TEMPERATURE, 2);
    FieldIsReadable(record, HUMIDITY, 1);
    FieldIsReadable(record, LIGHT, 2);
    FieldIsReadable(record, BATTERY_VOLTAGE, 2);
  }

  lemma RecordIsHeld(fs: seq<Field>)
    requires (forall f <- fs :: Fits(f)) && |EncodeAll(fs)| < 0x1_0000
    ensures HoldsRecord(EncodeAll(fs))
    ensures Lookup(EncodeAll(fs), MEASUREMENT_RECORD) == First(fs, MEASUREMENT_RECORD)
  {
    hide First, EncodeAll, Find;
    LookupFirst(fs, MEASUREMENT_RECORD);
  }

  lemma FieldIsReadable(fs: seq<Field>, tag: byte, n: nat)
    requires (forall f <- fs :: Fits(f)) && |EncodeAll(fs)| < 0x1_0000 && LongEnough(fs, tag, n)
    ensures Readable(EncodeAll(fs), tag, n)
  {
    hide First, EncodeAll, Find;
    LookupFirst(fs, tag);
  }

  // ---- lnc_link_client.cpp ----

  // CcCore_LncRecv: the payload (none for failure or an empty message) and what is left of the stream.
  function RecvOne(stream: seq<byte>, maxLen: U16): (r: (seq<byte>, seq<byte>))
    ensures |r.0| <= maxLen && |r.0| + |r.1| <= |stream|
    ensures r.0 != [] ==> |r.1| < |stream|
  {
    if |stream| < 4 then ([], []) else
    var len, after := GetU32(stream), stream[4..];
    if len > maxLen then ([], after)
    else if |after| < len then ([], [])
    else (after[..len], after[len..])
  }

  predicate Telemetric(tag: byte) { tag == KEEP_ALIVE || tag == EVENT_REPORT }

  function Stores(tag: byte, value: Buffer): seq<Store> {
    if tag == KEEP_ALIVE then KeepAliveStores(value)
    else if tag == EVENT_REPORT then EventReportStores(value)
    else []
  }

  // The message a payload starts with, if it holds a whole one.
  function MessageIn(payload: Buffer): Option<Field> {
    match Decode(payload)
    case NeedMore => None
    case Header(tag, valueLen, _) =>
      if 3 + valueLen <= |payload| then Some(Field(tag, payload[3..3 + valueLen])) else None
  }

  // Up to the first reply no message declares a length that wraps around, and telemetry is shaped as a
  // sender shapes it.
  predicate Tame(stream: seq<byte>, cap: U16)
    decreases |stream|
  {
    var (payload, rest) := RecvOne(stream, cap);
    payload == [] ||
    (&& (|payload| >= 3 ==> GetU16(payload[1..3]) <= MAX_VALUE)
     && match MessageIn(payload)
        case None => Tame(rest, cap)
        case Some(m) => Telemetric(m.tag) ==> SenderShaped(m.tag, m.value) && Tame(rest, cap))
  }

  datatype Reception = Reception(message: Option<Field>, stores: seq<Store>, rest: seq<byte>)

  // CcCore_LncRecvMessage.
  function Receive(stream: seq<byte>, cap: U16): (r: Reception)
    ensures r.message.Some? ==> |r.rest| < |stream|
    decreases |stream|
  {
    var (payload, rest) := RecvOne(stream, cap);
    if payload == [] then Reception(None, [], rest) else
    match MessageIn(payload)
    case None => Receive(rest, cap)
    case Some(m) =>
      if Telemetric(m.tag) then
        var later := Receive(rest, cap);
        later.(stores := Stores(m.tag, m.value) + later.stores)
      else Reception(Some(m), [], rest)
  }

  class LncLink {
    var incoming: seq<byte>
    var stored: seq<Store>    // calls of DCA_Store*, in order

    constructor (incoming: seq<byte>)
      ensures this.incoming == incoming && stored == []
    {
      this.incoming, stored := incoming, [];
    }

    // CcCore_LncRecv.
    method Recv(maxLen: U16) returns (payload: seq<byte>)
      modifies `incoming
      ensures (payload, incoming) == RecvOne(old(incoming), maxLen)
    {
      if |incoming| < 4 {
        incoming := [];
        return [];
      }
      var len := GetU32(incoming);
      incoming := incoming[4..];
      if len > maxLen { return []; }
      if |incoming| < len {
        incoming := [];
        return [];
      }
      payload := incoming[..len];
      incoming := incoming[len..];
    }

    // CcCore_LncRecvMessage.
    method RecvMessage(cap: U16) returns (message: Option<Field>)
      requires Tame(incoming, cap)
      modifies this
      ensures var r := Receive(old(incoming), cap);
        message == r.message && incoming == r.rest && stored == old(stored) + r.stores
    {
      hide Tame, Receive, RecvOne, SenderShaped, Stores, Decode;
      ghost var collected := [];
      while true
        invariant Tame(incoming, cap) && stored == old(stored) + collected
        invariant var r := Receive(incoming, cap);
          Receive(old(incoming), cap) == r.(stores := collected + r.stores)
        decreases |incoming|
      {
        ReceiveStep(incoming, cap);
        ghost var before := Receive(incoming, cap).stores;
        assert collected + [] == collected;
        var payload := Recv(cap);
        if payload == [] { return None; }
        var h := Decode(payload);
        if h.NeedMore? { continue; }
        var value := payload[3..3 + h.valueLen];
        if h.tag == KEEP_ALIVE || h.tag == EVENT_REPORT {
          var stores := Print(h.tag, value);
          assert collected + before == (collected + stores) + Receive(incoming, cap).stores;
          stored := stored + stores;
          collected := collected + stores;
          continue;
        }
        return Some(Field(h.tag, value));
      }
    }

    // Calls of CcCore_LncRecvMessage until one of them fails.
    method RecvAll(cap: U16) returns (replies: seq<Field>)
      requires TameThroughout(incoming, cap)
      modifies this
      ensures var session := ReceiveAll(old(incoming), cap);
        replies == session.replies && stored == old(stored) + session.stores
    {
      hide Tame, Receive, ReceiveAll, TameThroughout;
      replies := [];
      ghost var session, collected := ReceiveAll(incoming, cap), [];
      while true
        invariant TameThroughout(incoming, cap)
        invariant stored == old(stored) + collected
        invariant session == ReceiveAll(incoming, cap).After(replies, collected)
        decreases |incoming|
      {
        SessionStep(incoming, cap, replies, collected);
        collected := collected + Receive(incoming, cap).stores;
        var message := RecvMessage(cap);
        if message == None { return; }
        replies := replies + [message.value];
      }
    }
  }

  // One call of the loop.
  lemma SessionStep(stream: seq<byte>, cap: U16, replies: seq<Field>, stores: seq<Store>)
    requires TameThroughout(stream, cap)
    ensures Tame(stream, cap)
    ensures var r := Receive(stream, cap);
      var session := ReceiveAll(stream, cap).After(replies, stores);
      match r.message
      case None => session == Session(replies, stores + r.stores)
      case Some(m) =>
        && TameThroughout(r.rest, cap)
        && session == ReceiveAll(r.rest, cap).After(replies + [m], stores + r.stores)
  {
    hide Tame, Receive;
    var r := Receive(stream, cap);
    assert replies + [] == replies;
    if r.message.Some? {
      var later := ReceiveAll(r.rest, cap);
      Reassociate(replies, [r.message.value], later.replies);
      Reassociate(stores, r.stores, later.stores);
    }
  }

  // One turn of the loop.
  lemma ReceiveStep(stream: seq<byte>, cap: U16)
    requires Tame(stream, cap)
    ensures var (payload, rest) := RecvOne(stream, cap);
      var r := Receive(stream, cap);
      if payload == [] then r == Reception(None, [], rest)
      else
        var later := Receive(rest, cap);
        match Decode(payload)
        case NeedMore => Tame(rest, cap) && r == later
        case Header(tag, valueLen, _) =>
          && 3 + valueLen <= |payload|
          && var value := payload[3..3 + valueLen];
          if Telemetric(tag) then
            SenderShaped(tag, value) && Tame(rest, cap) && r == later.(stores := Stores(tag, value) + later.stores)
          else r == Reception(Some(Field(tag, value)), [], rest)
  {
    hide RecvOne, SenderShaped, Stores;
    var (payload, rest) := RecvOne(stream, cap);
    if payload != [] { WrapFree(payload); }
  }

  lemma WrapFree(payload: Buffer)
    requires |payload| >= 3 ==> GetU16(payload[1..3]) <= MAX_VALUE
    ensures match Decode(payload)
      case NeedMore => MessageIn(payload) == None
      case Header(tag, valueLen, _) =>
        3 + valueLen <= |payload| && MessageIn(payload) == Some(Field(tag, payload[3..3 + valueLen]))
  {
  }

  // The dispatch to log.cpp.
  method Print(tag: byte, value: Buffer) returns (stores: seq<Store>)
    requires Telemetric(tag) && SenderShaped(tag, value)
    ensures stores == Stores(tag, value)
  {
    hide KeepAliveShaped, EventShaped;
    if tag == KEEP_ALIVE {
      stores := PrintKeepAlive(value);
    } else {
      stores := PrintEventReport(value);
    }
  }

  // ---- Conservation ----

  // The bridge's rendering of one message.
  function Wire(ms: seq<Field>): seq<byte>
    requires forall m <- ms :: Fits(m)
  {
    if ms == [] then [] else PutU32(|Encode(ms[0])|) + Encode(ms[0]) + Wire(ms[1..])
  }

  function StoresOf(m: Field): seq<Store>
    requires Fits(m)
  {
    Stores(m.tag, m.value)
  }

  function AllStores(ms: seq<Field>): seq<Store>
    requires forall m <- ms :: Fits(m)
  {
    if ms == [] then [] else StoresOf(ms[0]) + AllStores(ms[1..])
  }

  function Replies(ms: seq<Field>): seq<Field> {
    if ms == [] then [] else (if Telemetric(ms[0].tag) then [] else [ms[0]]) + Replies(ms[1..])
  }

  lemma ReceiveOne(m: Field, rest: seq<byte>, cap: U16)
    requires Fits(m) && |Encode(m)| <= cap
    ensures RecvOne(PutU32(|Encode(m)|) + Encode(m) + rest, cap) == (Encode(m), rest)
    ensures MessageIn(Encode(m)) == Some(m)
  {
    hide Encode, PutU32, GetU32, Decode;
    var stream := PutU32(|Encode(m)|) + Encode(m) + rest;
    U32RoundTrip(|Encode(m)|, Encode(m) + rest);
    assert stream == PutU32(|Encode(m)|) + (Encode(m) + rest);
    assert stream[4..] == Encode(m) + rest;
    assert (Encode(m) + rest)[..|Encode(m)|] == Encode(m) && (Encode(m) + rest)[|Encode(m)|..] == rest;
    DecodeEncoded(m, []);
    assert Encode(m) + [] == Encode(m);
  }

  // A message longer than the buffer is not returned, and only its length prefix is consumed; a stream that
  // ends within a prefix or a message is used up.
  lemma FailuresOfReceive(n: U32, rest: seq<byte>, cap: U16)
    ensures n > cap ==> Receive(PutU32(n) + rest, cap) == Reception(None, [], rest)
    ensures |rest| < n <= cap ==> Receive(PutU32(n) + rest, cap) == Reception(None, [], [])
    ensures |rest| < 4 ==> Receive(rest, cap) == Reception(None, [], [])
  {
    hide PutU32, GetU32;
    U32RoundTrip(n, rest);
    assert (PutU32(n) + rest)[4..] == rest;
  }

  // Main result for one call: the first message that is not telemetry is returned, and all telemetry before
  // it is stored, once and in order.
  lemma {:induction false} FirstReplyIsReturned(ms: seq<Field>, k: nat, rest: seq<byte>, cap: U16)
    requires forall m <- ms :: Fits(m) && |Encode(m)| <= cap
    requires k < |ms| && !Telemetric(ms[k].tag) && forall i :: 0 <= i < k ==> Telemetric(ms[i].tag)
    ensures Receive(Wire(ms) + rest, cap) == Reception(Some(ms[k]), AllStores(ms[..k]), Wire(ms[k + 1..]) + rest)
    decreases k
  {
    hide Encode, PutU32, RecvOne, MessageIn, Stores;
    var m, tail := ms[0], ms[1..];
    ReceiveOne(m, Wire(tail) + rest, cap);
    assert Wire(ms) + rest == PutU32(|Encode(m)|) + Encode(m) + (Wire(tail) + rest);
    if k > 0 {
      FirstReplyIsReturned(tail, k - 1, rest, cap);
      assert ms[..k][1..] == tail[..k - 1] && ms[k + 1..] == tail[k..];
    } else {
      assert ms[..0] == [];
    }
  }

  datatype Session = Session(replies: seq<Field>, stores: seq<Store>) {
    function After(replies: seq<Field>, stores: seq<Store>): Session {
      Session(replies + this.replies, stores + this.stores)
    }
  }

  // Calls until one of them fails.
  function ReceiveAll(stream: seq<byte>, cap: U16): Session
    decreases |stream|
  {
    var r := Receive(stream, cap);
    match r.message
    case None => Session([], r.stores)
    case Some(m) =>
      var later := ReceiveAll(r.rest, cap);
      Session([m] + later.replies, r.stores + later.stores)
  }

  // Every call meets only messages that are safe to read.
  predicate TameThroughout(stream: seq<byte>, cap: U16)
    decreases |stream|
  {
    var r := Receive(stream, cap);
    Tame(stream, cap) && (r.message.Some? ==> TameThroughout(r.rest, cap))
  }

  // Telemetry comes in the shape its sender gives it; replies are unrestricted.
  predicate Shaped(m: Field)
    requires Fits(m)
  {
    SenderShaped(m.tag, m.value)
  }

  lemma DeclaredLength(m: Field)
    requires Fits(m)
    ensures GetU16(Encode(m)[1..3]) <= MAX_VALUE
  {
    assert Encode(m)[1..3] == PutU16(|m.value|);
    U16RoundTrip(|m.value|, PutU16(0));
  }

  // What the first message on a connection does to the calls that follow.
  lemma ServedFirst(m: Field, rest: seq<byte>, cap: U16)
    requires Fits(m) && |Encode(m)| <= cap && Shaped(m)
    ensures var stream := PutU32(|Encode(m)|) + Encode(m) + rest;
      && (TameThroughout(stream, cap) <==> TameThroughout(rest, cap))
      && ReceiveAll(stream, cap) ==
           ReceiveAll(rest, cap).After(if Telemetric(m.tag) then [] else [m], StoresOf(m))
  {
    hide Encode, PutU32, GetU16, MessageIn, SenderShaped, RecvOne, KeepAliveStores, EventReportStores;
    ReceiveOne(m, rest, cap);
    DeclaredLength(m);
    var r, later := Receive(rest, cap), ReceiveAll(rest, cap);
    if Telemetric(m.tag) {
      assert [] + later.replies == later.replies;
      if r.message.Some? { Reassociate(StoresOf(m), r.stores, ReceiveAll(r.rest, cap).stores); }
    } else {
      assert StoresOf(m) == [] && [] + later.stores == later.stores;
    }
  }

  // Main result: whatever follows the messages of a connection, every reply among them is returned and every
  // telemetry message stored, each exactly once and in the order sent, before it; and reading them is safe.
  lemma {:induction false} ServedInFront(ms: seq<Field>, rest: seq<byte>, cap: U16)
    requires forall m <- ms :: Fits(m) && |Encode(m)| <= cap && Shaped(m)
    ensures TameThroughout(Wire(ms) + rest, cap) <==> TameThroughout(rest, cap)
    ensures ReceiveAll(Wire(ms) + rest, cap) == ReceiveAll(rest, cap).After(Replies(ms), AllStores(ms))
    decreases |ms|
  {
    hide Encode, PutU32, Shaped, ReceiveAll, TameThroughout, StoresOf;
    if ms == [] {
      assert Wire(ms) + rest == rest;
      NothingBefore(ReceiveAll(rest, cap));
    } else {
      var m, tail := ms[0], ms[1..];
      ServedInFront(tail, rest, cap);
      assert Wire(ms) + rest == PutU32(|Encode(m)|) + Encode(m) + (Wire(tail) + rest);
      ServedFirst(m, Wire(tail) + rest, cap);
      AfterAfter(ReceiveAll(rest, cap), Replies(tail), AllStores(tail), if Telemetric(m.tag) then [] else [m],
        StoresOf(m));
    }
  }

  lemma NothingBefore(s: Session)
    ensures s.After([], []) == s
  {
    assert [] + s.replies == s.replies && [] + s.stores == s.stores;
  }

  lemma AfterAfter(s: Session, replies: seq<Field>, stores: seq<Store>, first: seq<Field>, firstStores: seq<Store>)
    ensures s.After(replies, stores).After(first, firstStores) == s.After(first + replies, firstStores + stores)
  {
    Reassociate(first, replies, s.replies);
    Reassociate(firstStores, stores, s.stores);
  }

  // Main result for a connection: the receive loop is safe to run on it, every reply is returned and every
  // telemetry message stored, each exactly once and in the order sent.
  lemma TelemetryIsConserved(ms: seq<Field>, cap: U16)
    requires forall m <- ms :: Fits(m) && |Encode(m)| <= cap && Shaped(m)
    ensures TameThroughout(Wire(ms), cap)
    ensures ReceiveAll(Wire(ms), cap) == Session(Replies(ms), AllStores(ms))
  {
    hide Encode, Shaped, Wire, Replies, AllStores;
    ServedInFront(ms, [], cap);
    assert Wire(ms) + [] == Wire(ms);
    NothingReceived(cap);
    assert Replies(ms) + [] == Replies(ms) && AllStores(ms) + [] == AllStores(ms);
  }

  lemma NothingReceived(cap: U16)
    ensures ReceiveAll([], cap) == Session([], []) && TameThroughout([], cap)
  {
  }

  // ---- In terms of what was sent ----

  // What the submarine's side sends: a keep-alive with the measurement its record holds, if there is one; an
  // event report; any other message.
  datatype Item =
    | KeepAliveItem(fs: seq<Field>, record: seq<Field>, sample: Option<Measurement>)
    | EventItem(fs: seq<Field>, record: seq<Field>, e: Event)
    | ReplyItem(f: Field)

  // The fields say what the item says, in whatever order and with whatever others among them.
  ghost predicate WellSent(item: Item) {
    match item
    case KeepAliveItem(fs, record, None) =>
      FieldsFit(fs) && First(fs, MEASUREMENT_RECORD) == None && LongEnough(fs, TIMESTAMP, 4) && LongEnough(fs, MODE, 1)
    case KeepAliveItem(fs, record, Some(m)) =>
      && FieldsFit(fs) && FieldsFit(record) && First(fs, MEASUREMENT_RECORD) == Some(EncodeAll(record))
      && First(fs, TIMESTAMP) == Some(PutU32(m.timestamp)) && First(fs, MODE) == Some([m.mode])
      && First(record, TEMPERATURE) == Some(PutU16(ToUnsigned16(m.temperature)))
      && First(record, HUMIDITY) == Some([m.humidity]) && First(record, LIGHT) == Some(PutU16(m.light))
      && First(record, BATTERY_VOLTAGE) == Some(PutU16(m.batteryVoltage))
    case EventItem(fs, record, e) =>
      && FieldsFit(fs) && FieldsFit(record) && Stamped(e) && LongEnough(fs, WD_RESET_FLAG, 1)
      && First(fs, MEASUREMENT_RECORD) == (if e.measurement == None then None else Some(EncodeAll(record)))
      && First(fs, TIMESTAMP) == Some(PutU32(e.timestamp))
      && First(fs, EVENT_TYPE) == Some([e.eventType]) && First(fs, EVENT_SOURCE) == Some([e.eventSource])
      && (e.measurement.Some? ==> Describes(record, e.measurement.value))
    case ReplyItem(f) => Fits(f) && f.tag != 0x11 && f.tag != 0x12
  }

  predicate FieldsFit(fs: seq<Field>) {
    (forall f <- fs :: Fits(f)) && |EncodeAll(fs)| <= MAX_VALUE
  }

  function MessageOf(item: Item): (m: Field)
    requires WellSent(item)
    ensures Fits(m)
  {
    match item
    case KeepAliveItem(fs, _, _) => Field(0x11, EncodeAll(fs))
    case EventItem(fs, _, _) => Field(0x12, EncodeAll(fs))
    case ReplyItem(f) => f
  }

  function MessagesOf(items: seq<Item>): (ms: seq<Field>)
    requires forall item <- items :: WellSent(item)
    ensures |ms| == |items| && forall i :: 0 <= i < |ms| ==> Fits(ms[i]) && ms[i] == MessageOf(items[i])
    ensures forall m <- ms :: Fits(m)
  {
    seq(|items|, i requires 0 <= i < |items| => MessageOf(items[i]))
  }

  // What is to be stored of these items, and what is to be returned.
  function StoredOf(items: seq<Item>): seq<Store> {
    if items == [] then [] else
    (match items[0]
     case KeepAliveItem(_, _, Some(m)) => [StoreMeasurement(m)]
     case EventItem(_, _, e) => [StoreEvent(e)]
     case _ => []) + StoredOf(items[1..])
  }

  function ReturnedOf(items: seq<Item>): seq<Field> {
    if items == [] then [] else
    (if items[0].ReplyItem? then [items[0].f] else []) + ReturnedOf(items[1..])
  }

  lemma ItemIsServed(item: Item)
    requires WellSent(item)
    ensures Shaped(MessageOf(item))
    ensures StoresOf(MessageOf(item)) == StoredOf([item])
    ensures Telemetric(MessageOf(item).tag) <==> !item.ReplyItem?
    ensures item.ReplyItem? ==> MessageOf(item) == item.f
  {
    hide First, EncodeAll, KeepAliveStores, EventReportStores, KeepAliveShaped, EventShaped;
    assert [item][1..] == [];
    match item
    case KeepAliveItem(fs, record, None) =>
      NoRecordIsShaped(fs);
      KeepAliveWithoutRecord(fs);
    case KeepAliveItem(fs, record, Some(m)) =>
      FieldsAreShaped(fs, record);
      KeepAliveIsStored(fs, record, m);
    case EventItem(fs, record, e) =>
      EventIsShaped(fs, record, e);
      EventIsStored(fs, record, e);
    case ReplyItem(f) =>
  }

  lemma NoRecordIsShaped(fs: seq<Field>)
    requires FieldsFit(fs) && First(fs, MEASUREMENT_RECORD) == None
    requires LongEnough(fs, TIMESTAMP, 4) && LongEnough(fs, MODE, 1)
    ensures KeepAliveShaped(EncodeAll(fs))
  {
    hide KeepAliveShaped;
    FieldsAreShaped(fs, []);
  }

  lemma EventIsShaped(fs: seq<Field>, record: seq<Field>, e: Event)
    requires WellSent(EventItem(fs, record, e))
    ensures EventShaped(EncodeAll(fs))
  {
    hide EventShaped;
    assert EncodeAll([]) == [];
    hide EncodeAll;
    if e.measurement == None {
      FieldsAreShaped(fs, []);
    } else {
      hide First;
      FieldsAreShaped(fs, record);
    }
  }

  lemma {:induction false} ItemsAreServed(items: seq<Item>)
    requires forall item <- items :: WellSent(item)
    ensures forall m <- MessagesOf(items) :: Shaped(m)
    ensures Replies(MessagesOf(items)) == ReturnedOf(items)
    ensures AllStores(MessagesOf(items)) == StoredOf(items)
  {
    hide WellSent, Shaped, MessageOf, StoresOf;
    if items == [] {
      assert MessagesOf(items) == [];
    } else {
      var first, later := items[0], items[1..];
      ItemsAreServed(later);
      ItemIsServed(first);
      var ms := MessagesOf(items);
      assert ms[0] == MessageOf(first) && ms[1..] == MessagesOf(later);
      hide MessagesOf, Telemetric;
      assert ms == [ms[0]] + ms[1..];
      FirstStored(items);
    }
  }

  lemma FirstStored(items: seq<Item>)
    requires items != []
    ensures StoredOf(items) == StoredOf([items[0]]) + StoredOf(items[1..])
  {
    assert [items[0]][1..] == [];
  }

  // Main result: on a connection that carries these items, in any order and number, the receive loop stores
  // exactly the measurements and events they hold and returns exactly the other messages, once and in order.
  method ServeItems(ghost items: seq<Item>, incoming: seq<byte>, cap: U16)
      returns (replies: seq<Field>, stored: seq<Store>)
    requires forall item <- items :: WellSent(item)
    requires forall m <- MessagesOf(items) :: |Encode(m)| <= cap
    requires incoming == Wire(MessagesOf(items))
    ensures replies == ReturnedOf(items) && stored == StoredOf(items)
  {
    hide WellSent, Encode, Wire, Shaped, TameThroughout, ReceiveAll, StoredOf, ReturnedOf;
    ItemsAreServed(items);
    TelemetryIsConserved(MessagesOf(items), cap);
    var link := new LncLink(incoming);
    replies := link.RecvAll(cap);
    stored := link.stored;
  }

  // One call: the telemetry in front of the first reply is stored, the reply returned, the rest left.
  lemma FirstReplyItem(items: seq<Item>, k: nat, rest: seq<byte>, cap: U16)
    requires forall item <- items :: WellSent(item)
    requires forall m <- MessagesOf(items) :: |Encode(m)| <= cap
    requires k < |items| && items[k].ReplyItem? && forall i :: 0 <= i < k ==> !items[i].ReplyItem?
    ensures Receive(Wire(MessagesOf(items)) + rest, cap) ==
      Reception(Some(items[k].f), StoredOf(items[..k]), Wire(MessagesOf(items[k + 1..])) + rest)
  {
    hide WellSent, Encode, Wire, Receive, StoredOf, Shaped, Stores;
    var ms := MessagesOf(items);
    forall i | 0 <= i < |items| ensures (Telemetric(ms[i].tag) <==> !items[i].ReplyItem?) &&
      (i == k ==> ms[i] == items[i].f)
    {
      ItemIsServed(items[i]);
    }
    FirstReplyIsReturned(ms, k, rest, cap);
    assert ms[..k] == MessagesOf(items[..k]) && ms[k + 1..] == MessagesOf(items[k + 1..]);
    ItemsAreServed(items[..k]);
    hide MessagesOf, AllStores, Telemetric;
  }
}
