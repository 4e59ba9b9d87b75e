/** Stored records and their TLV form, as pc_side/central_computer/comm_gs.cpp writes it. */
module Records {
  import opened Bytes
  import opened Wrappers
  import opened Tlv

  const TIMESTAMP: byte := 0x20
  const STATUS: byte := 0x26
  const TIME_RANGE_START: byte := 0x27
  const TIME_RANGE_END: byte := 0x28
  const MEASUREMENT_RECORD: byte := 0x29
  const EVENT_TYPE: byte := 0x2A
  const EVENT_SOURCE: byte := 0x2B
  const MODE: byte := 0x2C
  const WD_RESET_FLAG: byte := 0x2D
  const TEMPERATURE: byte := 0x2E
  const HUMIDITY: byte := 0x2F
  const LIGHT: byte := 0x30
  const BATTERY_VOLTAGE: byte := 0x31
  const SUBMARINE_ID: byte := 0x32
  const EVENT_RECORD: byte := 0x33

  datatype Measurement = Measurement(timestamp: U32, temperature: I16, humidity: byte, light: U16,
      batteryVoltage: U16, mode: byte)

  // hasMeasurement and measurement of DcaEvent in one.
  datatype Event = Event(timestamp: U32, eventType: byte, eventSource: byte, measurement: Option<Measurement>)

  function MeasurementFields(m: Measurement): (fs: seq<Field>)
    ensures forall f <- fs :: Fits(f)
  {
    [Field(TIMESTAMP, PutU32(m.timestamp)),
     Field(TEMPERATURE, PutU16(ToUnsigned16(m.temperature))),
     Field(HUMIDITY, [m.humidity]),
     Field(LIGHT, PutU16(m.light)),
     Field(BATTERY_VOLTAGE, PutU16(m.batteryVoltage)),
     Field(MODE, [m.mode])]
  }

  lemma {:induction false} EncodeAllConcat(xs: seq<Field>, ys: seq<Field>)
    requires (forall f <- xs :: Fits(f)) && (forall f <- ys :: Fits(f))
    ensures EncodeAll(xs + ys) == EncodeAll(xs) + EncodeAll(ys)
  {
    hide Encode;
    if xs == [] {
      assert xs + ys == ys;
    } else {
      assert (xs + ys)[1..] == xs[1..] + ys;
      EncodeAllConcat(xs[1..], ys);
    }
  }

  lemma EncodeOne(f: Field)
    requires Fits(f)
    ensures EncodeAll([f]) == Encode(f)
  {
    assert [f][1..] == [];
  }

  function SizeFrom(fs: seq<Field>, i: nat): nat
    requires i <= |fs|
    decreases |fs| - i
  {
    if i == |fs| then 0 else 3 + |fs[i].value| + SizeFrom(fs, i + 1)
  }

  lemma {:induction false} EncodedSize(fs: seq<Field>, i: nat)
    requires (forall f <- fs :: Fits(f)) && i <= |fs|
    ensures |EncodeAll(fs[i..])| == SizeFrom(fs, i)
    decreases |fs| - i
  {
    if i < |fs| {
      EncodedSize(fs, i + 1);
      assert fs[i..][1..] == fs[i + 1..];
    }
  }

  lemma MeasurementSize(m: Measurement)
    ensures |EncodeAll(MeasurementFields(m))| == 30
  {
    var fs := MeasurementFields(m);
    EncodedSize(fs, 0);
    assert fs[0..] == fs;
    assert SizeFrom(fs, 5) == 4;
    assert SizeFrom(fs, 4) == 9;
    assert SizeFrom(fs, 2) == 18;
  }

  function MeasurementRecord(m: Measurement): (f: Field)
    ensures Fits(f) && |f.value| == 30 && f.tag == MEASUREMENT_RECORD
  {
    MeasurementSize(m);
    Field(MEASUREMENT_RECORD, EncodeAll(MeasurementFields(m)))
  }

  function EventFields(e: Event): (fs: seq<Field>)
    ensures forall f <- fs :: Fits(f)
  {
    [Field(TIMESTAMP, PutU32(e.timestamp)),
     Field(EVENT_TYPE, [e.eventType]),
     Field(EVENT_SOURCE, [e.eventSource])]
    + match e.measurement case None => [] case Some(m) => [MeasurementRecord(m)]
  }

  lemma EventSize(e: Event)
    ensures |EncodeAll(EventFields(e))| == if e.measurement == None then 15 else 48
  {
    hide MeasurementRecord, MeasurementFields;
    var fs := EventFields(e);
    EncodedSize(fs, 0);
    assert fs[0..] == fs;
    assert SizeFrom(fs, 3) == if e.measurement == None then 0 else 33;
    assert SizeFrom(fs, 1) == SizeFrom(fs, 3) + 8;
  }

  function EventRecord(e: Event): (f: Field)
    ensures Fits(f) && f.tag == EVENT_RECORD
    ensures |f.value| == if e.measurement == None then 15 else 48
  {
    EventSize(e);
    Field(EVENT_RECORD, EncodeAll(EventFields(e)))
  }

  // ---- The bytes of a record ----

  // Tag, length in two bytes, value.
  function Tagged(tag: byte, value: seq<byte>): seq<byte>
    requires |value| < 0x100
  {
    [tag, 0, |value| as byte] + value
  }

  lemma MeasurementInNumerals(m: Measurement)
    ensures Encode(MeasurementRecord(m)) ==
      [0x29, 0, 30] +
      (Tagged(0x20, PutU32(m.timestamp)) + (Tagged(0x2E, PutU16(ToUnsigned16(m.temperature))) +
       (Tagged(0x2F, [m.humidity]) + (Tagged(0x30, PutU16(m.light)) + (Tagged(0x31, PutU16(m.batteryVoltage)) +
        Tagged(0x2C, [m.mode]))))))
  {
    hide PutU32, EncodeAll;
    var fs := MeasurementFields(m);
    assert fs[0..] == fs;
    MeasurementSize(m);
    FieldsFrom(fs, 0);
    FieldsFrom(fs, 1);
    FieldsFrom(fs, 2);
    FieldsFrom(fs, 3);
    FieldsFrom(fs, 4);
    FieldsFrom(fs, 5);
    EncodeIsTagged(MeasurementRecord(m));
    hide Tagged, PutU16;
  }

  lemma EventInNumerals(e: Event)
    ensures Encode(EventRecord(e)) ==
      [0x33, 0, if e.measurement == None then 15 else 48] +
      (Tagged(0x20, PutU32(e.timestamp)) + (Tagged(0x2A, [e.eventType]) + (Tagged(0x2B, [e.eventSource]) +
       if e.measurement == None then [] else Encode(MeasurementRecord(e.measurement.value)))))
  {
    EncodeIsTagged(EventRecord(e));
    EventSize(e);
    hide PutU32, MeasurementRecord, EncodeAll, Encode;
    var fs := EventFields(e);
    assert fs[0..] == fs;
    assert Tagged(0x33, EncodeAll(fs)) == [0x33, 0, |EncodeAll(fs)| as byte] + EncodeAll(fs);
    hide Tagged;
    FieldsFrom(fs, 0);
    FieldsFrom(fs, 1);
    FieldsFrom(fs, 2);
    if e.measurement.Some? { FieldsFrom(fs, 3); }
  }

  lemma EncodeIsTagged(f: Field)
    requires |f.value| < 0x100
    ensures Encode(f) == Tagged(f.tag, f.value)
  {
  }

  lemma FieldsFrom(fs: seq<Field>, k: nat)
    requires (forall f <- fs :: Fits(f)) && k < |fs| && |fs[k].value| < 0x100
    ensures EncodeAll(fs[k..]) ==
      Tagged(fs[k].tag, fs[k].value) + if k == |fs| - 1 then [] else EncodeAll(fs[k + 1..])
    ensures k == |fs| - 1 ==> EncodeAll(fs[k..]) == Tagged(fs[k].tag, fs[k].value) == Encode(fs[k])
  {
    hide Tagged, Encode;
    EncodeIsTagged(fs[k]);
    assert fs[k..][1..] == fs[k + 1..];
  }

  // ---- Reading a record back (PrintMeasurementRecord and the event branch of Gs_RequestEvents) ----

  // Absent fields keep their initial value zero. What is read are the bytes from the value on, whatever its
  // declared length.
  function BytesAt(buf: Buffer, tag: byte, n: nat): (bytes: Option<seq<byte>>)
    ensures bytes.Some? ==> |bytes.value| == n
  {
    var r := Find(buf, 0, tag);
    if r.Found? && r.at + n <= |buf| then Some(buf[r.at..r.at + n]) else None
  }

  function U32Field(buf: Buffer, tag: byte): U32 {
    match BytesAt(buf, tag, 4) case None => 0 case Some(v) => GetU32(v)
  }

  function U16Field(buf: Buffer, tag: byte): U16 {
    match BytesAt(buf, tag, 2) case None => 0 case Some(v) => GetU16(v)
  }

  function ByteField(buf: Buffer, tag: byte): byte {
    match BytesAt(buf, tag, 1) case None => 0 case Some(v) => v[0]
  }

  // Of sibling fields, the first with the tag is read.
  lemma FirstIsRead(fs: seq<Field>, tag: byte, n: nat)
    requires (forall f <- fs :: Fits(f)) && |EncodeAll(fs)| < 0x1_0000
    requires First(fs, tag).Some? ==> n <= |First(fs, tag).value|
    ensures BytesAt(EncodeAll(fs), tag, n) ==
      match First(fs, tag) case None => None case Some(v) => Some(v[..n])
  {
    hide Find, First, EncodeAll;
    LookupFirst(fs, tag);
    var buf := EncodeAll(fs);
    var r := Find(buf, 0, tag);
    if First(fs, tag).Some? {
      var v := First(fs, tag).value;
      assert r.Found? && r.at + r.len <= |buf| && v == buf[r.at..r.at + r.len];
      assert v[..n] == buf[r.at..r.at + n];
    }
  }

  lemma U32IsRead(fs: seq<Field>, tag: byte, v: U32)
    requires (forall f <- fs :: Fits(f)) && |EncodeAll(fs)| < 0x1_0000 && First(fs, tag) == Some(PutU32(v))
    ensures U32Field(EncodeAll(fs), tag) == v
  {
    hide BytesAt, First, EncodeAll, PutU32, GetU32;
    FirstIsRead(fs, tag, 4);
    U32RoundTrip(v, []);
    assert PutU32(v)[..4] == PutU32(v) + [];
  }

  lemma U16IsRead(fs: seq<Field>, tag: byte, v: U16)
    requires (forall f <- fs :: Fits(f)) && |EncodeAll(fs)| < 0x1_0000 && First(fs, tag) == Some(PutU16(v))
    ensures U16Field(EncodeAll(fs), tag) == v
  {
    hide BytesAt, First, EncodeAll, PutU16, GetU16;
    FirstIsRead(fs, tag, 2);
    U16RoundTrip(v, PutU16(0));
    assert PutU16(v)[..2] == PutU16(v);
  }

  lemma ByteIsRead(fs: seq<Field>, tag: byte, v: byte)
    requires (forall f <- fs :: Fits(f)) && |EncodeAll(fs)| < 0x1_0000 && First(fs, tag) == Some([v])
    ensures ByteField(EncodeAll(fs), tag) == v
  {
    hide BytesAt, First, EncodeAll;
    FirstIsRead(fs, tag, 1);
  }

  function ReadMeasurement(record: Buffer): Measurement {
    Measurement(U32Field(record, TIMESTAMP), ToSigned16(U16Field(record, TEMPERATURE)), ByteField(record, HUMIDITY),
                U16Field(record, LIGHT), U16Field(record, BATTERY_VOLTAGE), ByteField(record, MODE))
  }

  // The ground station does not look at the timestamp of the measurement nested in an event.
  function ReadEvent(record: Buffer): Event {
    Event(U32Field(record, TIMESTAMP), ByteField(record, EVENT_TYPE), ByteField(record, EVENT_SOURCE),
          match Lookup(record, MEASUREMENT_RECORD)
          case None => None
          case Some(v) => Some(ReadMeasurement(v).(timestamp := U32Field(record, TIMESTAMP))))
  }

  lemma {:induction false} FirstIsAt(fs: seq<Field>, k: nat)
    requires k < |fs| && forall j :: 0 <= j < k ==> fs[j].tag != fs[k].tag
    ensures First(fs, fs[k].tag) == Some(fs[k].value)
  {
    if k > 0 { FirstIsAt(fs[1..], k - 1); }
  }

  lemma {:induction false} FirstIsNowhere(fs: seq<Field>, tag: byte)
    requires forall f <- fs :: f.tag != tag
    ensures First(fs, tag) == None
  {
    if fs != [] { FirstIsNowhere(fs[1..], tag); }
  }

  lemma FirstOfMeasurement(m: Measurement)
    ensures var fs := MeasurementFields(m);
      && First(fs, TIMESTAMP) == Some(PutU32(m.timestamp))
      && First(fs, TEMPERATURE) == Some(PutU16(ToUnsigned16(m.temperature)))
      && First(fs, HUMIDITY) == Some([m.humidity])
      && First(fs, LIGHT) == Some(PutU16(m.light))
      && First(fs, BATTERY_VOLTAGE) == Some(PutU16(m.batteryVoltage))
      && First(fs, MODE) == Some([m.mode])
  {
    hide First, PutU16, PutU32;
    var fs := MeasurementFields(m);
    FirstIsAt(fs, 0);
    FirstIsAt(fs, 1);
    FirstIsAt(fs, 2);
    FirstIsAt(fs, 3);
    FirstIsAt(fs, 4);
    FirstIsAt(fs, 5);
  }

  // Main result: every measurement survives, negative temperatures included.
  lemma MeasurementRoundTrip(m: Measurement)
    ensures ReadMeasurement(MeasurementRecord(m).value) == m
  {
    hide First, EncodeAll, U32Field, U16Field, ByteField;
    var fs := MeasurementFields(m);
    MeasurementSize(m);
    FirstOfMeasurement(m);
    U32IsRead(fs, TIMESTAMP, m.timestamp);
    U16IsRead(fs, TEMPERATURE, ToUnsigned16(m.temperature));
    ByteIsRead(fs, HUMIDITY, m.humidity);
    U16IsRead(fs, LIGHT, m.light);
    U16IsRead(fs, BATTERY_VOLTAGE, m.batteryVoltage);
    ByteIsRead(fs, MODE, m.mode);
  }

  lemma FirstOfEvent(e: Event)
    ensures var fs := EventFields(e);
      && First(fs, TIMESTAMP) == Some(PutU32(e.timestamp))
      && First(fs, EVENT_TYPE) == Some([e.eventType])
      && First(fs, EVENT_SOURCE) == Some([e.eventSource])
      && First(fs, MEASUREMENT_RECORD) ==
           match e.measurement case None => None case Some(m) => Some(MeasurementRecord(m).value)
  {
    hide First, PutU32, MeasurementFields;
    var fs := EventFields(e);
    FirstIsAt(fs, 0);
    FirstIsAt(fs, 1);
    FirstIsAt(fs, 2);
    if e.measurement.Some? { FirstIsAt(fs, 3); } else { FirstIsNowhere(fs, MEASUREMENT_RECORD); }
  }

  // The stored measurement of an event carries the event's own timestamp.
  predicate Stamped(e: Event) {
    e.measurement.Some? ==> e.measurement.value.timestamp == e.timestamp
  }

  lemma EventRoundTrip(e: Event)
    requires Stamped(e)
    ensures ReadEvent(EventRecord(e).value) == e
  {
    hide First, Lookup, EncodeAll, ReadMeasurement, MeasurementFields, U32Field, ByteField;
    var fs := EventFields(e);
    EventSize(e);
    FirstOfEvent(e);
    U32IsRead(fs, TIMESTAMP, e.timestamp);
    ByteIsRead(fs, EVENT_TYPE, e.eventType);
    ByteIsRead(fs, EVENT_SOURCE, e.eventSource);
    LookupFirst(fs, MEASUREMENT_RECORD);
    if e.measurement.Some? { MeasurementRoundTrip(e.measurement.value); }
  }
}
