/** The Ground Station link: pc_side/central_computer/comm_gs.cpp answering pc_side/ground_station/gs_queries.cpp. */
module GroundLink {
  import opened Bytes
  import opened Wrappers
  import opened Tlv
  import opened Records
  import opened Retention
  import opened DataCollections

  const GET_LOG_REQ: byte := 0x13
  const GET_LOG_RESP: byte := 0x14
  const GET_EVENTS_REQ: byte := 0x15
  const GET_EVENTS_RESP: byte := 0x16

  const SUCCESS: byte := 0x00
  const NO_DATA_FOUND: byte := 0x03
  const INTERNAL_ERROR: byte := 0x05

  const MAX_PAYLOAD: nat := 60000       // GS_RESP_MAX_PAYLOAD
  const REQUEST_STORAGE: nat := 512

  // GsSend and GsSendRaw: a length prefix, then the message.
  function Prefixed(message: seq<byte>): seq<byte> {
    PutU32(|message| % 0x1_0000_0000) + message
  }

  function WrapMessage(tag: byte, payload: seq<byte>): seq<byte> {
    [tag] + PutU16(|payload| % 0x1_0000) + payload
  }

  // ---- Request ----

  datatype Range = Range(submarineId: seq<byte>, start: U32, end: U32)

  // The request buffers hold an identifier of at most 63 bytes.
  predicate Sendable(r: Range) { |r.submarineId| <= 63 }

  function RequestFields(r: Range): (fs: seq<Field>)
    requires |r.submarineId| <= MAX_VALUE
    ensures forall f <- fs :: Fits(f)
  {
    [Field(SUBMARINE_ID, r.submarineId), Field(TIME_RANGE_START, PutU32(r.start)), Field(TIME_RANGE_END, PutU32(r.end))]
  }

  // One end of the range; the field may be longer than the four bytes that are read.
  function RangeField(value: Buffer, tag: byte): Option<U32> {
    match Find(value, 0, tag)
    case Found(at, len) => if 4 <= len && at + 4 <= |value| then Some(GetU32(value[at..at + 4])) else None
    case _ => None
  }

  // ParseGsRangeRequest.
  function ParseRequest(value: Buffer): Option<Range> {
    match (Lookup(value, SUBMARINE_ID), RangeField(value, TIME_RANGE_START), RangeField(value, TIME_RANGE_END))
    case (Some(id), Some(start), Some(end)) => Some(Range(id, start, end))
    case _ => None
  }

  // What a request with these fields asks for: identifier, first and last second, the last two as the first
  // four bytes of their fields.
  function Asked(fs: seq<Field>): Option<Range> {
    var id, start, end := First(fs, 0x32), First(fs, 0x27), First(fs, 0x28);
    if id.Some? && start.Some? && end.Some? && |start.value| >= 4 && |end.value| >= 4
    then Some(Range(id.value, GetU32(start.value), GetU32(end.value)))
    else None
  }

  // Of any fields, in any order and with any others among them, a request is parsed as what it asks for, and
  // not at all if and only if one of the three is missing or too short.
  lemma RequestIsParsed(fs: seq<Field>)
    requires (forall f <- fs :: Fits(f)) && |EncodeAll(fs)| < 0x1_0000
    ensures ParseRequest(EncodeAll(fs)) == Asked(fs)
  {
    hide Find, First, EncodeAll, GetU32;
    LookupFirst(fs, SUBMARINE_ID);
    RangeFieldIsFirst(fs, TIME_RANGE_START);
    RangeFieldIsFirst(fs, TIME_RANGE_END);
  }

  lemma RangeFieldIsFirst(fs: seq<Field>, tag: byte)
    requires (forall f <- fs :: Fits(f)) && |EncodeAll(fs)| < 0x1_0000
    ensures RangeField(EncodeAll(fs), tag) ==
      if First(fs, tag).Some? && |First(fs, tag).value| >= 4 then Some(GetU32(First(fs, tag).value)) else None
  {
    hide Find, First, EncodeAll;
    LookupFirst(fs, tag);
    var buf := EncodeAll(fs);
    var r := Find(buf, 0, tag);
    if r.Found? && r.len >= 4 {
      assert r.at + r.len <= |buf|;
      assert buf[r.at..r.at + 4] == buf[r.at..r.at + r.len][..4];
    }
  }

  // Every request is parsed back, however long its identifier, as long as its length fits 16 bits.
  lemma RequestRoundTrip(r: Range)
    requires 17 + |r.submarineId| < 0x1_0000
    ensures |EncodeAll(RequestFields(r))| == 17 + |r.submarineId|
    ensures ParseRequest(EncodeAll(RequestFields(r))) == Some(r)
  {
    hide First, EncodeAll, PutU32, GetU32, ParseRequest;
    var fs := RequestFields(r);
    RequestSize(r);
    FirstIsAt(fs, 0);
    FirstIsAt(fs, 1);
    FirstIsAt(fs, 2);
    RequestIsParsed(fs);
    U32RoundTrip(r.start, []);
    U32RoundTrip(r.end, []);
    assert PutU32(r.start) + [] == PutU32(r.start) && PutU32(r.end) + [] == PutU32(r.end);
  }

  lemma RequestSize(r: Range)
    requires |r.submarineId| <= MAX_VALUE
    ensures |EncodeAll(RequestFields(r))| == 17 + |r.submarineId|
  {
    var fs := RequestFields(r);
    EncodedSize(fs, 0);
    assert fs[0..] == fs;
    assert SizeFrom(fs, 2) == 7;
    assert SizeFrom(fs, 1) == 14;
  }

  // The bytes of a request for measurements (0x13) or events (0x15).
  lemma RequestInNumerals(r: Range, forLog: bool)
    requires Sendable(r)
    ensures |EncodeAll(RequestFields(r))| <= 80
    ensures Prefixed(Encode(Field(if forLog then GET_LOG_REQ else GET_EVENTS_REQ, EncodeAll(RequestFields(r))))) ==
      PutU32(20 + |r.submarineId|) + ([if forLog then 0x13 else 0x15, 0, (17 + |r.submarineId|) as byte] +
      (Tagged(0x32, r.submarineId) + (Tagged(0x27, PutU32(r.start)) + Tagged(0x28, PutU32(r.end)))))
  {
    RequestSize(r);
    FieldsInNumerals(r);
    hide PutU32, EncodeAll, RequestFields, Tagged;
    var f := Field(if forLog then GET_LOG_REQ else GET_EVENTS_REQ, EncodeAll(RequestFields(r)));
    MessageInNumerals(f);
    hide Encode;
  }

  lemma FieldsInNumerals(r: Range)
    requires Sendable(r)
    ensures EncodeAll(RequestFields(r)) ==
      Tagged(0x32, r.submarineId) + (Tagged(0x27, PutU32(r.start)) + Tagged(0x28, PutU32(r.end)))
  {
    var fs := RequestFields(r);
    assert fs[0..] == fs;
    hide PutU32, EncodeAll;
    FieldsFrom(fs, 0);
    FieldsFrom(fs, 1);
    FieldsFrom(fs, 2);
    hide Tagged;
  }

  lemma MessageInNumerals(f: Field)
    requires |f.value| < 0x100
    ensures Prefixed(Encode(f)) == PutU32(3 + |f.value|) + ([f.tag, 0, |f.value| as byte] + f.value)
  {
    EncodeIsTagged(f);
    hide Encode, PutU32;
    assert Tagged(f.tag, f.value) == [f.tag, 0, |f.value| as byte] + f.value;
    assert (3 + |f.value|) % 0x1_0000_0000 == 3 + |f.value|;
    hide Tagged;
  }

  // Which of the three fields fit the 80-byte buffer, one after the other: with up to 63 bytes of identifier
  // all do. With up to 70 the last does not, with up to 77 the last two do not, beyond that none does. Where
  // a field does not fit, the source goes on with a length that is out of date or was never set.
  lemma RequestFitsIff(r: Range)
    requires |r.submarineId| <= MAX_VALUE
    ensures |EncodeAll(RequestFields(r))| <= 80 <==> Sendable(r)
    ensures |EncodeAll(RequestFields(r)[..2])| <= 80 <==> |r.submarineId| <= 70
    ensures |EncodeAll(RequestFields(r)[..1])| <= 80 <==> |r.submarineId| <= 77
  {
    hide Encode;
    var fs := RequestFields(r);
    RequestSize(r);
    OneMoreField(fs, 0);
    OneMoreField(fs, 1);
    assert fs[..0] == [];
  }

  // The request half of Gs_RequestLog and Gs_RequestEvents.
  method BuildRequest(tag: byte, r: Range) returns (wire: seq<byte>)
    requires Sendable(r)
    ensures |EncodeAll(RequestFields(r))| <= 80
    ensures wire == Prefixed(Encode(Field(tag, EncodeAll(RequestFields(r)))))
  {
    hide EncodeAll, Encode, PutU32;
    RequestSize(r);
    var payload := new byte[80];
    var fs := RequestFields(r);
    var payloadLen := WriteFields(fs, payload, 80);
    var message := new byte[128];
    var ok, messageLen := EncodeTlv(Field(tag, payload[..payloadLen]), message, 0, 128);
    assert message[..0] + Encode(Field(tag, payload[..payloadLen])) == Encode(Field(tag, payload[..payloadLen]));
    wire := Prefixed(message[..messageLen]);
  }

  // Consecutive Protocol_EncodeTLV calls into one buffer with a running length.
  method WriteFields(fs: seq<Field>, out: array<byte>, cap: U16) returns (len: nat)
    requires forall f <- fs :: Fits(f)
    requires cap == out.Length && |EncodeAll(fs)| <= cap
    modifies out
    ensures len == |EncodeAll(fs)| && out[..len] == EncodeAll(fs)
  {
    hide Encode;
    len := 0;
    for i := 0 to |fs|
      invariant len == |EncodeAll(fs[..i])| <= cap
      invariant out[..len] == EncodeAll(fs[..i])
    {
      OneMoreField(fs, i);
      var ok, written := EncodeTlv(fs[i], out, len, cap - len);
      len := len + written;
    }
    assert fs[..|fs|] == fs;
  }

  lemma OneMoreField(fs: seq<Field>, i: nat)
    requires (forall f <- fs :: Fits(f)) && i < |fs|
    ensures EncodeAll(fs[..i + 1]) == EncodeAll(fs[..i]) + Encode(fs[i])
    ensures |EncodeAll(fs[..i + 1])| <= |EncodeAll(fs)|
  {
    assert fs[..i + 1] == fs[..i] + [fs[i]] && fs == fs[..i + 1] + fs[i + 1..];
    EncodeAllConcat(fs[..i], [fs[i]]);
    EncodeOne(fs[i]);
    EncodeAllConcat(fs[..i + 1], fs[i + 1..]);
  }

  // The search ends, and n bytes of what it finds lie in the buffer.
  predicate SafeSearch(value: Buffer, tag: byte, n: nat) {
    var r := Find(value, 0, tag);
    r != Endless && (r.Found? && n <= r.len ==> r.at + n <= |value|)
  }

  // Reading a request neither goes on for ever nor leaves the buffer. Searches that are not reached may.
  predicate Scannable(value: Buffer) {
    var id := Find(value, 0, SUBMARINE_ID);
    && id != Endless
    && (id.Found? ==>
          && id.at + id.len <= |value|
          && SafeSearch(value, TIME_RANGE_START, 4)
          && (RangeField(value, TIME_RANGE_START).Some? ==> SafeSearch(value, TIME_RANGE_END, 4)))
  }

  // ---- Response ----

  // How many records the size check of the sending loop lets through.
  function Admitted(payloadLen: nat, records: seq<Field>): (k: nat)
    ensures k <= |records|
    decreases |records|
  {
    if records == [] || payloadLen > MAX_PAYLOAD then 0
    else 1 + Admitted(payloadLen + 3 + |records[0].value|, records[1..])
  }

  type Block = fs: seq<Field> | forall f <- fs :: Fits(f) witness []

  function StatusField(status: byte): (f: Field)
    ensures Fits(f)
  {
    Field(STATUS, [status])
  }

  // The fields of a response to a parsed request.
  function ResponseFields(records: Block): Block {
    [StatusField(if records == [] then NO_DATA_FOUND else SUCCESS)] + records[..Admitted(4, records)]
  }

  // The status in front of a response: 0x03 if there are no records, 0x00 if there are.
  lemma StatusInNumerals(records: Block)
    ensures EncodeAll(ResponseFields(records)) ==
      [0x26, 0, 1, if records == [] then 0x03 else 0x00] + EncodeAll(records[..Admitted(4, records)])
  {
    hide EncodeAll, Admitted;
    var status := StatusField(if records == [] then NO_DATA_FOUND else SUCCESS);
    EncodeResponse(status.value[0], records[..Admitted(4, records)]);
    EncodeIsTagged(status);
  }

  const FAILURE: Block := [StatusField(INTERNAL_ERROR)]

  function LogRecords(ms: seq<Measurement>): (fs: Block)
    ensures |fs| == |ms| && forall i :: 0 <= i < |ms| ==> fs[i] == MeasurementRecord(ms[i])
  {
    seq(|ms|, i requires 0 <= i < |ms| => MeasurementRecord(ms[i]))
  }

  function EventRecords(es: seq<Event>): (fs: Block)
    ensures |fs| == |es| && forall i :: 0 <= i < |es| ==> fs[i] == EventRecord(es[i])
  {
    seq(|es|, i requires 0 <= i < |es| => EventRecord(es[i]))
  }

  // What the two query functions of data_collection.cpp answer.
  type LogQuery = Range -> seq<Measurement>
  type EventQuery = Range -> seq<Event>

  // The bytes of an identifier as the name of a directory.
  function NameOf(id: seq<byte>): (name: string)
    ensures |name| == |id| && forall i :: 0 <= i < |id| ==> name[i] == id[i] as char
  {
    seq(|id|, i requires 0 <= i < |id| => id[i] as char)
  }

  // A std::string: its characters are bytes.
  type Identifier = s: string | forall c <- s :: c as int < 0x100 witness ""

  function BytesOf(id: Identifier): (bytes: seq<byte>)
    ensures |bytes| == |id| && forall i :: 0 <= i < |id| ==> bytes[i] as int == id[i] as int
  {
    seq(|id|, i requires 0 <= i < |id| => (assert id[i] in id; (id[i] as int) as byte))
  }

  // DCA_QueryMeasurements and DCA_QueryEvents on these directories.
  ghost function LogQueryOf(ds: Directories): LogQuery {
    (r: Range) => MeasurementsOf(AllLines(FilesIn(ds, Directory(NameOf(r.submarineId), Measurements))), r.start, r.end)
  }

  ghost function EventQueryOf(ds: Directories): EventQuery {
    (r: Range) => EventsOf(AllLines(FilesIn(ds, Directory(NameOf(r.submarineId), Events))), r.start, r.end)
  }

  // Main result: a request with the bytes of an identifier reads the directory of that very identifier, and
  // requests with different bytes read different ones.
  lemma OwnDirectoryIsRead(id: Identifier, start: U32, end: U32, ds: Directories, other: seq<byte>)
    ensures var r := Range(BytesOf(id), start, end);
      && LogQueryOf(ds)(r) == MeasurementsOf(AllLines(FilesIn(ds, Directory(id, Measurements))), start, end)
      && EventQueryOf(ds)(r) == EventsOf(AllLines(FilesIn(ds, Directory(id, Events))), start, end)
    ensures NameOf(other) == id <==> other == BytesOf(id)
  {
    hide MeasurementsOf, EventsOf, AllLines, FilesIn;
    var bytes := BytesOf(id);
    forall i | 0 <= i < |id| ensures NameOf(bytes)[i] == id[i] {
      assert bytes[i] as int == id[i] as int;
    }
    assert NameOf(bytes) == id;
    if NameOf(other) == id {
      forall i | 0 <= i < |other| ensures other[i] == bytes[i] {
        assert NameOf(other)[i] == other[i] as char == id[i];
      }
    }
  }

  function LogReply(value: Buffer, query: LogQuery): Block {
    match ParseRequest(value) case None => FAILURE case Some(r) => ResponseFields(LogRecords(query(r)))
  }

  function EventsReply(value: Buffer, query: EventQuery): Block {
    match ParseRequest(value) case None => FAILURE case Some(r) => ResponseFields(EventRecords(query(r)))
  }

  // AppendMeasurementRecord.
  method AppendMeasurementRecord(out: seq<byte>, m: Measurement) returns (longer: seq<byte>)
    ensures longer == out + Encode(MeasurementRecord(m))
  {
    hide Encode, EncodeAll, MeasurementFields;
    MeasurementSize(m);
    var measurement := new byte[40];
    var measurementLen := WriteFields(MeasurementFields(m), measurement, 40);
    longer := AppendWrapped(out, Field(MEASUREMENT_RECORD, measurement[..measurementLen]), 48);
  }

  // Wrap the record in a fixed buffer and append it.
  method AppendWrapped(out: seq<byte>, f: Field, cap: U16) returns (longer: seq<byte>)
    requires Fits(f) && 3 + |f.value| <= cap
    ensures longer == out + Encode(f)
  {
    hide Encode;
    var recordBuf := new byte[cap];
    var ok, recordLen := EncodeTlv(f, recordBuf, 0, cap);
    assert recordBuf[..0] + Encode(f) == Encode(f);
    longer := out + recordBuf[..recordLen];
  }

  // AppendEventRecord.
  method AppendEventRecord(out: seq<byte>, e: Event) returns (longer: seq<byte>)
    ensures longer == out + Encode(EventRecord(e))
  {
    hide Encode, EncodeAll, EventFields;
    EventSize(e);
    var eventBuf := new byte[80];
    var eventLen := WriteFields(EventFields(e), eventBuf, 80);
    longer := AppendWrapped(out, Field(EVENT_RECORD, eventBuf[..eventLen]), 96);
  }

  lemma AdmitsOneMore(records: Block, status: byte, i: nat)
    requires i < |records|
    ensures var payload := Encode(StatusField(status)) + EncodeAll(records[..i]);
      && Admitted(|payload|, records[i..]) ==
           (if |payload| > MAX_PAYLOAD then 0 else 1 + Admitted(|payload + Encode(records[i])|, records[i + 1..]))
      && payload + Encode(records[i]) == Encode(StatusField(status)) + EncodeAll(records[..i + 1])
  {
    hide Encode;
    OneMoreField(records, i);
    assert records[i..][1..] == records[i + 1..];
  }

  // CC_GsLink_HandleGetLog.
  method HandleGetLog(value: Buffer, dca: DataCollection) returns (message: seq<byte>)
    requires Scannable(value) && dca.Valid()
    ensures message == WrapMessage(GET_LOG_RESP, EncodeAll(LogReply(value, LogQueryOf(dca.directories))))
  {
    hide EncodeAll, Encode, MeasurementRecord, PutU16, Scannable, ParseRequest, WrapMessage, StatusField, AllLines,
      NameOf, MeasurementsOf, EventsOf;
    var parsed := ParseRange(value);
    if parsed == None {
      EncodeOne(StatusField(INTERNAL_ERROR));
      return WrapMessage(GET_LOG_RESP, Encode(StatusField(INTERNAL_ERROR)));
    }
    var ms := dca.QueryMeasurements(NameOf(parsed.value.submarineId), parsed.value.start, parsed.value.end);
    assert ms == LogQueryOf(dca.directories)(parsed.value);
    hide LogQueryOf;
    var status := if ms == [] then NO_DATA_FOUND else SUCCESS;
    ghost var records := LogRecords(ms);
    var payload := Encode(StatusField(status));
    var i := 0;
    NoRecordsYet(status, records);
    while i < |ms| && |payload| <= MAX_PAYLOAD
      invariant i <= |ms|
      invariant payload == Encode(StatusField(status)) + EncodeAll(records[..i])
      invariant i + Admitted(|payload|, records[i..]) == Admitted(4, records)
      decreases |ms| - i
    {
      AdmitsOneMore(records, status, i);
      payload := AppendMeasurementRecord(payload, ms[i]);
      i := i + 1;
    }
    AdmittedEnds(|payload|, records[i..]);
    EncodeResponse(status, records[..i]);
    message := WrapMessage(GET_LOG_RESP, payload);
  }

  // CC_GsLink_HandleGetEvents.
  method HandleGetEvents(value: Buffer, dca: DataCollection) returns (message: seq<byte>)
    requires Scannable(value) && dca.Valid()
    ensures message == WrapMessage(GET_EVENTS_RESP, EncodeAll(EventsReply(value, EventQueryOf(dca.directories))))
  {
    hide EncodeAll, Encode, EventRecord, PutU16, Scannable, ParseRequest, WrapMessage, StatusField, AllLines, NameOf,
      MeasurementsOf, EventsOf;
    var parsed := ParseRange(value);
    if parsed == None {
      EncodeOne(StatusField(INTERNAL_ERROR));
      return WrapMessage(GET_EVENTS_RESP, Encode(StatusField(INTERNAL_ERROR)));
    }
    var es := dca.QueryEvents(NameOf(parsed.value.submarineId), parsed.value.start, parsed.value.end);
    assert es == EventQueryOf(dca.directories)(parsed.value);
    hide EventQueryOf;
    var status := if es == [] then NO_DATA_FOUND else SUCCESS;
    ghost var records := EventRecords(es);
    var payload := Encode(StatusField(status));
    var i := 0;
    NoRecordsYet(status, records);
    while i < |es| && |payload| <= MAX_PAYLOAD
      invariant i <= |es|
      invariant payload == Encode(StatusField(status)) + EncodeAll(records[..i])
      invariant i + Admitted(|payload|, records[i..]) == Admitted(4, records)
      decreases |es| - i
    {
      AdmitsOneMore(records, status, i);
      payload := AppendEventRecord(payload, es[i]);
      i := i + 1;
    }
    AdmittedEnds(|payload|, records[i..]);
    EncodeResponse(status, records[..i]);
    message := WrapMessage(GET_EVENTS_RESP, payload);
  }

  lemma NoRecordsYet(status: byte, records: Block)
    ensures Encode(StatusField(status)) == Encode(StatusField(status)) + EncodeAll(records[..0])
    ensures |Encode(StatusField(status))| == 4 && records[0..] == records
  {
  }

  lemma AdmittedEnds(payloadLen: nat, rest: Block)
    requires rest == [] || payloadLen > MAX_PAYLOAD
    ensures Admitted(payloadLen, rest) == 0
  {
  }

  lemma EncodeResponse(status: byte, records: Block)
    ensures EncodeAll([StatusField(status)] + records) == Encode(StatusField(status)) + EncodeAll(records)
  {
    EncodeAllConcat([StatusField(status)], records);
    EncodeOne(StatusField(status));
  }

  // ParseGsRangeRequest.
  method ParseRange(value: Buffer) returns (r: Option<Range>)
    requires Scannable(value)
    ensures r == ParseRequest(value)
  {
    hide Find, GetU32;
    var found := FindField(value, SUBMARINE_ID);
    if !found.Found? { return None; }
    var id := value[found.at..found.at + found.len];
    found := FindField(value, TIME_RANGE_START);
    if !found.Found? || found.len < 4 { return None; }
    var start := GetU32(value[found.at..found.at + 4]);
    found := FindField(value, TIME_RANGE_END);
    if !found.Found? || found.len < 4 { return None; }
    var end := GetU32(value[found.at..found.at + 4]);
    r := Some(Range(id, start, end));
  }

  // ---- Size of a response ----

  predicate Sized(records: Block, n: nat) { forall f <- records :: |f.value| <= n }

  // No response payload exceeds 60051 bytes, so the 16-bit length is exact.
  lemma {:induction false} AdmittedSize(payloadLen: nat, records: Block)
    requires payloadLen <= MAX_PAYLOAD + 51 && Sized(records, 48)
    ensures payloadLen + |EncodeAll(records[..Admitted(payloadLen, records)])| <= MAX_PAYLOAD + 51
    decreases |records|
  {
    hide Encode;
    if records != [] && payloadLen <= MAX_PAYLOAD {
      var f, rest := records[0], records[1..];
      var next := payloadLen + 3 + |f.value|;
      AdmittedSize(next, rest);
      var k := Admitted(next, rest);
      assert records[..k + 1] == [f] + rest[..k];
      assert ([f] + rest[..k])[1..] == rest[..k];
    } else {
      assert records[..0] == [];
    }
  }

  // Records of equal size are admitted up to the first count that crosses the limit.
  lemma {:induction false} AdmittedCount(payloadLen: nat, records: Block, n: nat)
    requires forall f <- records :: |f.value| == 30
    requires payloadLen + 33 * n > MAX_PAYLOAD && (n > 0 ==> payloadLen + 33 * (n - 1) <= MAX_PAYLOAD)
    ensures Admitted(payloadLen, records) == if |records| < n then |records| else n
    decreases |records|
  {
    if records != [] && payloadLen <= MAX_PAYLOAD {
      AdmittedCount(payloadLen + 33, records[1..], n - 1);
    }
  }

  lemma LogIsCutAt1819(ms: seq<Measurement>)
    ensures Admitted(4, LogRecords(ms)) == if |ms| < 1819 then |ms| else 1819
  {
    AdmittedCount(4, LogRecords(ms), 1819);
  }

  // Events are admitted as long as what has been written does not exceed the limit.
  lemma {:induction false} AdmittedIsCrossing(payloadLen: nat, records: Block)
    ensures var k := Admitted(payloadLen, records);
      && (forall j :: 0 <= j < k ==> payloadLen + |EncodeAll(records[..j])| <= MAX_PAYLOAD)
      && (k < |records| ==> payloadLen + |EncodeAll(records[..k])| > MAX_PAYLOAD)
    decreases |records|
  {
    hide Encode;
    if records != [] && payloadLen <= MAX_PAYLOAD {
      var f, rest := records[0], records[1..];
      var next := payloadLen + 3 + |f.value|;
      AdmittedIsCrossing(next, rest);
      var k := Admitted(next, rest) + 1;
      forall j | 0 < j <= k ensures payloadLen + |EncodeAll(records[..j])| == next + |EncodeAll(rest[..j - 1])| {
        assert records[..j][1..] == rest[..j - 1];
      }
      assert records[..0] == [];
    } else {
      assert records[..0] == [];
    }
  }
}
