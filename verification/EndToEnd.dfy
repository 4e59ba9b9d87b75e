/** The layers put together, from the submarine's serial line to storage and on to the Ground Station. */
module EndToEnd {
  import opened Bytes
  import opened Wrappers
  import opened Reassembly
  import opened BridgeServers
  import opened Gateways
  import opened Dates
  import opened Retention
  import opened Records
  import opened TextLines
  import opened DataCollections
  import opened GroundLink
  import opened GroundStation
  import T = Telemetry
  import V = Tlv

  // The bridge's payloads for these messages.
  function Payloads(ms: seq<V.Field>): (payloads: seq<seq<byte>>)
    requires forall m <- ms :: V.Fits(m)
    ensures |payloads| == |ms| && forall i :: 0 <= i < |ms| ==> payloads[i] == V.Encode(ms[i])
  {
    seq(|ms|, i requires 0 <= i < |ms| => V.Encode(ms[i]))
  }

  // Whatever else is on the line, what the gateway cuts off it are these messages.
  ghost predicate Brings(uart: seq<byte>, ms: seq<V.Field>) {
    && (forall m <- ms :: V.Fits(m) && |V.Encode(m)| <= PAYLOAD_SIZE && T.Shaped(m))
    && Cut(UplinkRule(), uart).messages == Payloads(ms)
  }

  // ---- Lines of frames, some of them with a wrong check ----

  // The messages whose frames have the right check.
  function Arrived(bursts: seq<Burst>, ms: seq<V.Field>): seq<V.Field>
    requires |bursts| == |ms|
  {
    if ms == [] then [] else (if bursts[0].Intact() then [ms[0]] else []) + Arrived(bursts[1..], ms[1..])
  }

  ghost predicate Carried(b: Burst, m: V.Field) {
    V.Fits(m) && T.Shaped(m) && b.payload == V.Encode(m)
  }

  // Frame i carries message i, unless its check is wrong; then its payload may be anything.
  ghost predicate Carries(bursts: seq<Burst>, ms: seq<V.Field>) {
    && |bursts| == |ms|
    && forall i :: 0 <= i < |ms| && bursts[i].Intact() ==> Carried(bursts[i], ms[i])
  }

  // Such a line brings exactly the messages whose frames have the right check.
  lemma FramesBringMessages(bursts: seq<Burst>, ms: seq<V.Field>)
    requires Carries(bursts, ms)
    ensures Brings(Stream(UartSegments(bursts)), Arrived(bursts, ms))
  {
    hide Carries, Arrived, UplinkRule, Cut, Stream, UartSegments, IntactPayloads, V.Encode, T.Shaped;
    BurstsAreCut(bursts);
    ArrivedAreForwarded(bursts, ms);
  }

  lemma {:induction false} ArrivedAreForwarded(bursts: seq<Burst>, ms: seq<V.Field>)
    requires Carries(bursts, ms)
    ensures |bursts| == |ms|
    ensures forall m <- Arrived(bursts, ms) :: V.Fits(m) && |V.Encode(m)| <= PAYLOAD_SIZE && T.Shaped(m)
    ensures IntactPayloads(bursts) == Payloads(Arrived(bursts, ms))
    decreases |ms|
  {
    hide V.Encode, LineBurst.Intact, T.Shaped;
    if ms != [] {
      var later := Arrived(bursts[1..], ms[1..]);
      ArrivedAreForwarded(bursts[1..], ms[1..]);
      hide Arrived, IntactPayloads, Carried;
      FirstArrives(bursts, ms, later);
    }
  }

  lemma PayloadsInFront(m: V.Field, later: seq<V.Field>)
    requires V.Fits(m) && forall x <- later :: V.Fits(x)
    ensures Payloads([m] + later) == [V.Encode(m)] + Payloads(later)
  {
    hide V.Encode;
  }

  lemma FirstArrives(bursts: seq<Burst>, ms: seq<V.Field>, later: seq<V.Field>)
    requires Carries(bursts, ms) && ms != [] && later == Arrived(bursts[1..], ms[1..])
    requires (forall m <- later :: V.Fits(m)) && IntactPayloads(bursts[1..]) == Payloads(later)
    ensures if bursts[0].Intact()
      then && Carried(bursts[0], ms[0]) && Arrived(bursts, ms) == [ms[0]] + later
           && |V.Encode(ms[0])| <= PAYLOAD_SIZE && IntactPayloads(bursts) == Payloads([ms[0]] + later)
      else Arrived(bursts, ms) == later && IntactPayloads(bursts) == Payloads(later)
  {
    hide V.Encode, LineBurst.Intact, T.Shaped, Payloads;
    var first: Burst := bursts[0];
    assert first.WellFormed();
    if first.Intact() {
      assert Carried(first, ms[0]);
      PayloadsInFront(ms[0], later);
    } else {
      assert [] + later == later && [] + Payloads(later) == Payloads(later);
    }
  }

  // ---- From the line to the replies and stores of the central computer ----

  lemma {:induction false} PayloadsOnTheWire(ms: seq<V.Field>)
    requires forall m <- ms :: V.Fits(m)
    ensures LengthPrefixed(Payloads(ms)) == T.Wire(ms)
  {
    hide PutU32, V.Encode;
    if ms != [] {
      PayloadsOnTheWire(ms[1..]);
      assert Payloads(ms)[1..] == Payloads(ms[1..]);
      assert |V.Encode(ms[0])| % 0x1_0000_0000 == |V.Encode(ms[0])|;
    }
  }

  // What the receive loop of the central computer makes of messages the bridge has sent it.
  ghost predicate Received(toClient: seq<byte>, ms: seq<V.Field>) {
    && (forall m <- ms :: V.Fits(m))
    && T.TameThroughout(toClient, PAYLOAD_SIZE)
    && T.ReceiveAll(toClient, PAYLOAD_SIZE) == T.Session(T.Replies(ms), T.AllStores(ms))
  }

  // What it makes of them when other bytes follow: nothing of those comes in before.
  ghost predicate Served(toClient: seq<byte>, ms: seq<V.Field>, rest: seq<byte>) {
    && (forall m <- ms :: V.Fits(m))
    && (T.TameThroughout(toClient, PAYLOAD_SIZE) <==> T.TameThroughout(rest, PAYLOAD_SIZE))
    && T.ReceiveAll(toClient, PAYLOAD_SIZE) == T.ReceiveAll(rest, PAYLOAD_SIZE).After(T.Replies(ms), T.AllStores(ms))
  }

  // Main result: let any bytes whatever be on the serial line, damaged frames of any kind among them. At every
  // moment of every run of the gateway, however the bytes arrive and however often the connection has been
  // lost, the receive loop of the core then connected stores exactly the telemetry and returns exactly the
  // replies among the messages cut off the line so far and forwarded since it connected, each once and in
  // order. Where the cut ends with a frame that is too large other payloads may follow them.
  lemma CoreIsServed(v: View, uart: seq<byte>, core: seq<seq<byte>>, t: Trace, ms: seq<V.Field>)
      returns (i: nat, k: nat, extra: seq<seq<byte>>)
    requires Tracks(v, uart, core, t) && v.connected && Brings(uart, ms)
    ensures i <= k <= |ms| && v.forwarded[t.since..] == Payloads(ms[i..k]) + extra
    ensures i == if t.since < |ms| then t.since else |ms|
    ensures if Resets(UplinkRule(), [], t.chunks)
      then k == |ms| && UplinkRule()(Cut(UplinkRule(), uart).buf).Reset?
      else extra == [] && v.forwarded == Payloads(ms[..k])
    ensures Served(v.toClient, ms[i..k], LengthPrefixed(extra))
    ensures extra == [] ==> Received(v.toClient, ms[i..k])
  {
    hide Tracks, SessionsTracked, Brings, UplinkRule, Cut, LengthPrefixed, Received, Served, V.Encode, T.Shaped,
      Resets, Payloads;
    BroughtAre(uart, ms);
    AnyLineIsCut(v, uart, core, t);
    SinceConnected(v, uart, core, t);
    var rest := Cut(UplinkRule(), v.received + t.left).messages;
    i, k, extra := ServedSince(v.forwarded, t.since, ms, rest, Resets(UplinkRule(), [], t.chunks));
  }

  lemma ServedSince(forwarded: seq<seq<byte>>, since: nat, ms: seq<V.Field>, rest: seq<seq<byte>>, past: bool)
      returns (i: nat, k: nat, extra: seq<seq<byte>>)
    requires since <= |forwarded|
    requires forall m <- ms :: V.Fits(m) && |V.Encode(m)| <= PAYLOAD_SIZE && T.Shaped(m)
    requires if past then Payloads(ms) <= forwarded else Payloads(ms) == forwarded + rest
    ensures i <= k <= |ms| && forwarded[since..] == Payloads(ms[i..k]) + extra
    ensures i == if since < |ms| then since else |ms|
    ensures if past then k == |ms| else extra == [] && forwarded == Payloads(ms[..k])
    ensures Served(LengthPrefixed(forwarded[since..]), ms[i..k], LengthPrefixed(extra))
    ensures extra == [] ==> Received(LengthPrefixed(forwarded[since..]), ms[i..k])
  {
    hide LengthPrefixed, Received, Served, V.Encode, T.Shaped, V.Fits;
    var all := Payloads(ms);
    i := if since < |ms| then since else |ms|;
    if past {
      k := |ms|;
      extra := forwarded[if since < |ms| then |ms| else since..];
      OneBehind(all, forwarded, since);
    } else {
      k, extra := |forwarded|, [];
      OneBefore(all, forwarded, rest, since);
      PayloadsOfPart(ms, 0, k);
    }
    PayloadsOfPart(ms, i, k);
    PartIsServed(ms[i..k], extra);
  }

  lemma PayloadsOfPart(ms: seq<V.Field>, i: nat, k: nat)
    requires i <= k <= |ms| && forall m <- ms :: V.Fits(m)
    ensures Payloads(ms)[i..k] == Payloads(ms[i..k])
  {
    hide V.Encode;
  }

  lemma BroughtAre(uart: seq<byte>, ms: seq<V.Field>)
    requires Brings(uart, ms)
    ensures forall m <- ms :: V.Fits(m) && |V.Encode(m)| <= PAYLOAD_SIZE && T.Shaped(m)
    ensures Cut(UplinkRule(), uart).messages == Payloads(ms)
  {
    hide Cut, UplinkRule, V.Encode, T.Shaped;
  }

  lemma SinceConnected(v: View, uart: seq<byte>, core: seq<seq<byte>>, t: Trace)
    requires Tracks(v, uart, core, t) && v.connected
    ensures t.since <= |v.forwarded| && v.toClient == LengthPrefixed(v.forwarded[t.since..])
  {
    hide UplinkTracked, Sent, InboxAfter, Frames, Flatten, LengthPrefixed;
  }

  lemma OneBehind<X>(all: seq<X>, longer: seq<X>, since: nat)
    requires all <= longer && since <= |longer|
    ensures longer[since..] ==
      (if since < |all| then all[since..] else []) + longer[if since < |all| then |all| else since..]
  {
  }

  lemma OneBefore<X>(all: seq<X>, shorter: seq<X>, rest: seq<X>, since: nat)
    requires all == shorter + rest && since <= |shorter|
    ensures shorter == all[..|shorter|] && shorter[since..] == all[since..|shorter|] + []
  {
  }

  lemma PartIsServed(ms: seq<V.Field>, extra: seq<seq<byte>>)
    requires forall m <- ms :: V.Fits(m) && |V.Encode(m)| <= PAYLOAD_SIZE && T.Shaped(m)
    ensures Served(LengthPrefixed(Payloads(ms) + extra), ms, LengthPrefixed(extra))
    ensures extra == [] ==> Received(LengthPrefixed(Payloads(ms) + extra), ms)
  {
    hide T.ReceiveAll, T.Replies, T.AllStores, T.Wire, T.TameThroughout, V.Encode, LengthPrefixed, T.Shaped;
    PrefixedConcat(Payloads(ms), extra);
    PayloadsOnTheWire(ms);
    T.ServedInFront(ms, LengthPrefixed(extra), PAYLOAD_SIZE);
    if extra == [] {
      assert Payloads(ms) + extra == Payloads(ms);
      T.TelemetryIsConserved(ms, PAYLOAD_SIZE);
    }
  }

  // Main result: the two programs in a row. With a lasting connection, nothing on either line larger than
  // its buffer and enough turns, everything gets through that can be cut off the serial line.
  method SerialLineToStorage(uart: seq<byte>, ghost ms: seq<V.Field>, requests: seq<Message>, turns: seq<Turn>)
      returns (replies: seq<V.Field>, stores: seq<T.Store>, serialOut: seq<byte>)
    requires Brings(uart, ms) && CutFits(UplinkRule(), UART_BUF_SIZE, uart) && Lasting(turns)
    requires forall i :: 0 <= i < |requests| ==> |requests[i]| <= 508
    requires Busy(UartAmounts(turns)) >= |uart| + Takes(UplinkRule(), uart)
    requires Busy(CoreAmounts(turns)) >= |Stream(AllOnTheWire(requests, PAYLOAD_SIZE))| + |requests|
    ensures forall m <- ms :: V.Fits(m)
    ensures replies == T.Replies(ms) && stores == T.AllStores(ms)
    ensures DecodeAll(serialOut, PAYLOAD_SIZE) == CutAll(requests, PAYLOAD_SIZE)
  {
    hide Brings, Lasting, Received, LengthPrefixed, AllOnTheWire, DecodeAll, Stream, CutAll, Busy, Cut, CutFits;
    hide UplinkRule, Takes, T.Replies, T.AllStores;
    var toClient;
    toClient, serialOut := RelayAll(uart, requests, turns);
    ServedInFull(uart, ms, toClient);
    replies, stores := Listen(toClient, ms);
  }

  // The receive loop of the central computer on what the bridge has sent.
  method Listen(toClient: seq<byte>, ghost ms: seq<V.Field>) returns (replies: seq<V.Field>, stores: seq<T.Store>)
    requires Received(toClient, ms)
    ensures forall m <- ms :: V.Fits(m)
    ensures replies == T.Replies(ms) && stores == T.AllStores(ms)
  {
    hide T.TameThroughout, T.ReceiveAll, T.Replies, T.AllStores;
    var link := new T.LncLink(toClient);
    replies := link.RecvAll(PAYLOAD_SIZE);
    stores := link.stored;
  }

  lemma ServedInFull(uart: seq<byte>, ms: seq<V.Field>, toClient: seq<byte>)
    requires Brings(uart, ms) && toClient == LengthPrefixed(Cut(UplinkRule(), uart).messages)
    ensures Received(toClient, ms)
  {
    hide Received, LengthPrefixed, Cut, UplinkRule, T.Shaped, V.Encode;
    PartIsServed(ms, []);
    assert Payloads(ms) + [] == Payloads(ms);
  }

  // Main result: after any chronological run of stores, a Ground Station asking for a range is shown the
  // first 1819 retained measurements with a timestamp in it, field for field.
  lemma StorageToGroundStation(h: seq<Stored<Measurement>>, query: LogQuery, r: Range) returns (cut: nat)
    requires Chronological(MeasurementEntries(h)) && Sendable(r)
    requires query(r) == MeasurementsOf(AllLines(After(MeasurementEntries(h))), r.start, r.end)
    ensures cut <= |h| && Kept(MeasurementEntries(h), cut, After(MeasurementEntries(h)))
    ensures |V.EncodeAll(RequestFields(r))| <= 80
    ensures var answer := MeasurementsIn(h[cut..], r.start, r.end);
      var reply := V.EncodeAll(LogReply(V.EncodeAll(RequestFields(r)), query));
      ReadReply(Prefixed(WrapMessage(GET_LOG_RESP, reply)), GET_LOG_RESP, MEASUREMENT_RECORD, ReadMeasurement) ==
        if answer == [] then Empty else Answer.Listed(if |answer| <= 1819 then answer else answer[..1819])
  {
    hide After, Kept, AllLines, MeasurementsOf, MeasurementsIn, ReadReply, V.EncodeAll, LogReply, Chronological;
    cut := MeasurementQueryIsFilter(h, r.start, r.end);
    LogExchange(r, query);
  }

  // The same for events, cut where the response is full.
  lemma EventStorageToGroundStation(h: seq<Stored<Event>>, query: EventQuery, r: Range) returns (cut: nat)
    requires Chronological(EventEntries(h)) && Sendable(r) && forall s <- h :: Stamped(s.record)
    requires query(r) == EventsOf(AllLines(After(EventEntries(h))), r.start, r.end)
    ensures cut <= |h| && Kept(EventEntries(h), cut, After(EventEntries(h)))
    ensures |V.EncodeAll(RequestFields(r))| <= 80
    ensures var answer := EventsIn(h[cut..], r.start, r.end);
      var reply := V.EncodeAll(EventsReply(V.EncodeAll(RequestFields(r)), query));
      ReadReply(Prefixed(WrapMessage(GET_EVENTS_RESP, reply)), GET_EVENTS_RESP, EVENT_RECORD, ReadEvent) ==
        if answer == [] then Empty else Answer.Listed(answer[..Admitted(4, EventRecords(answer))])
  {
    hide After, Kept, AllLines, EventsOf, EventsIn, ReadReply, V.EncodeAll, EventsReply, Chronological, Admitted;
    cut := EventQueryIsFilter(h, r.start, r.end);
    AllStamped(h[cut..], r.start, r.end);
    EventsExchange(r, query);
  }

  lemma {:induction false} AllStamped(h: seq<Stored<Event>>, start: U32, end: U32)
    requires forall s <- h :: Stamped(s.record)
    ensures forall e <- EventsIn(h, start, end) :: Stamped(e)
  {
    if h != [] { AllStamped(h[..|h| - 1], start, end); }
  }

  // ---- The whole chain ----

  // The measurements among the stores, each with the day it is stored on.
  function MeasurementsAmong(stores: seq<T.Store>, days: seq<string>): seq<Stored<Measurement>>
    requires |stores| == |days|
  {
    if stores == [] then [] else
    var last := |stores| - 1;
    MeasurementsAmong(stores[..last], days[..last]) +
    (if stores[last].StoreMeasurement? then [Stored(days[last], stores[last].m)] else [])
  }

  function EventsAmong(stores: seq<T.Store>, days: seq<string>): seq<Stored<Event>>
    requires |stores| == |days|
  {
    if stores == [] then [] else
    var last := |stores| - 1;
    EventsAmong(stores[..last], days[..last]) +
    (if stores[last].StoreEvent? then [Stored(days[last], stores[last].e)] else [])
  }

  // A submarine's directories hold what these stores have left.
  ghost predicate Keeps(ds: Directories, id: string, stores: seq<T.Store>, days: seq<string>)
    requires |stores| == |days|
  {
    && FilesIn(ds, Directory(id, Measurements)) == After(MeasurementEntries(MeasurementsAmong(stores, days)))
    && FilesIn(ds, Directory(id, Events)) == After(EventEntries(EventsAmong(stores, days)))
  }

  lemma OneMoreStore(stores: seq<T.Store>, days: seq<string>, i: nat)
    requires |stores| == |days| && i < |stores|
    ensures var s, d := stores[i], days[i];
      && After(MeasurementEntries(MeasurementsAmong(stores[..i + 1], days[..i + 1]))) ==
           (var files := After(MeasurementEntries(MeasurementsAmong(stores[..i], days[..i])));
            if s.StoreMeasurement? then Appended(files, d, MeasurementLine(s.m)) else files)
      && After(EventEntries(EventsAmong(stores[..i + 1], days[..i + 1]))) ==
           (var files := After(EventEntries(EventsAmong(stores[..i], days[..i])));
            if s.StoreEvent? then Appended(files, d, EventLine(s.e)) else files)
  {
    hide Appended, MeasurementLine, EventLine;
    assert stores[..i + 1][..i] == stores[..i] && days[..i + 1][..i] == days[..i];
    var ms, es := MeasurementsAmong(stores[..i], days[..i]), EventsAmong(stores[..i], days[..i]);
    if stores[i].StoreMeasurement? {
      MeasurementAtEnd(ms, Stored(days[i], stores[i].m));
    } else {
      EventAtEnd(es, Stored(days[i], stores[i].e));
    }
    assert ms + [] == ms && es + [] == es;
  }

  lemma MeasurementAtEnd(h: seq<Stored<Measurement>>, s: Stored<Measurement>)
    ensures After(MeasurementEntries(h + [s])) ==
      Appended(After(MeasurementEntries(h)), s.date, MeasurementLine(s.record))
  {
    hide Appended, MeasurementLine;
    assert MeasurementEntries(h + [s])[..|h|] == MeasurementEntries(h);
  }

  lemma EventAtEnd(h: seq<Stored<Event>>, s: Stored<Event>)
    ensures After(EventEntries(h + [s])) == Appended(After(EventEntries(h)), s.date, EventLine(s.record))
  {
    hide Appended, EventLine;
    assert EventEntries(h + [s])[..|h|] == EventEntries(h);
  }

  // The calls of DCA_StoreMeasurement and DCA_StoreEvent that the receive loop makes, one after the other.
  method StoreAll(dca: DataCollection, id: string, stores: seq<T.Store>, days: seq<string>)
    requires dca.Valid() && dca.directories == map[] && |stores| == |days|
    modifies dca
    ensures dca.Valid() && Keeps(dca.directories, id, stores, days)
  {
    hide MeasurementsAmong, EventsAmong, After, Appended, MeasurementLine, EventLine;
    NothingStored();
    for i := 0 to |stores|
      invariant dca.Valid() && Keeps(dca.directories, id, stores[..i], days[..i])
    {
      OneMoreStore(stores, days, i);
      match stores[i]
      case StoreMeasurement(m) => dca.StoreMeasurement(id, m, days[i]);
      case StoreEvent(e) => dca.StoreEvent(id, e, days[i]);
    }
    assert stores[..|stores|] == stores && days[..|days|] == days;
  }

  lemma NothingStored()
    ensures MeasurementsAmong([], []) == [] && EventsAmong([], []) == [] && After([]) == map[]
  {
  }

  predicate InOrder(days: seq<string>) {
    forall i, j :: 0 <= i < j < |days| ==> AtMost(days[i], days[j])
  }

  predicate NoneAfter(days: seq<string>, last: string) {
    forall d <- days :: AtMost(d, last)
  }

  lemma LastDay(days: seq<string>)
    requires InOrder(days) && days != []
    ensures InOrder(days[..|days| - 1]) && NoneAfter(days[..|days| - 1], days[|days| - 1])
  {
    hide AtMost;
    var init := days[..|days| - 1];
    forall d | d in init ensures AtMost(d, days[|days| - 1]) {
      var i :| 0 <= i < |init| && init[i] == d;
      assert d == days[i];
    }
  }

  lemma {:induction false} MeasurementsAreOrdered(stores: seq<T.Store>, days: seq<string>)
    requires |stores| == |days| && InOrder(days)
    ensures Chronological(MeasurementEntries(MeasurementsAmong(stores, days)))
    ensures forall s <- MeasurementsAmong(stores, days) :: s.date in days
  {
    hide AtMost, MeasurementLine;
    if stores != [] {
      var last := |stores| - 1;
      MeasurementsAreOrdered(stores[..last], days[..last]);
      LastDay(days);
      assert days == days[..last] + [days[last]];
    }
  }

  lemma {:induction false} EventsAreOrdered(stores: seq<T.Store>, days: seq<string>)
    requires |stores| == |days| && InOrder(days)
    ensures Chronological(EventEntries(EventsAmong(stores, days)))
    ensures forall s <- EventsAmong(stores, days) :: s.date in days
  {
    hide AtMost, EventLine;
    if stores != [] {
      var last := |stores| - 1;
      EventsAreOrdered(stores[..last], days[..last]);
      LastDay(days);
      assert days == days[..last] + [days[last]];
    }
  }

  lemma {:induction false} EventsAreStamped(stores: seq<T.Store>, days: seq<string>)
    requires |stores| == |days| && forall s <- stores :: s.StoreEvent? ==> Stamped(s.e)
    ensures forall s <- EventsAmong(stores, days) :: Stamped(s.record)
  {
    if stores != [] {
      var last := |stores| - 1;
      assert stores[last] in stores;
      EventsAreStamped(stores[..last], days[..last]);
    }
  }

  lemma {:induction false} StoresAreStamped(ms: seq<V.Field>)
    requires forall m <- ms :: V.Fits(m)
    ensures forall s <- T.AllStores(ms) :: s.StoreEvent? ==> Stamped(s.e)
  {
    if ms != [] {
      StoreIsStamped(ms[0]);
      hide T.StoresOf;
      StoresAreStamped(ms[1..]);
    }
  }

  lemma StoreIsStamped(m: V.Field)
    requires V.Fits(m)
    ensures forall s <- T.StoresOf(m) :: s.StoreEvent? ==> Stamped(s.e)
  {
    hide U32Field, U16Field, ByteField, V.Lookup;
  }

  function DayNames(dates: seq<Date>): (days: seq<string>)
    ensures |days| == |dates| && forall i :: 0 <= i < |dates| ==> days[i] == DateString(dates[i])
  {
    seq(|dates|, i requires 0 <= i < |dates| => DateString(dates[i]))
  }

  // A clock that never runs backwards.
  predicate Advancing(dates: seq<Date>) {
    && (forall i :: 0 <= i < |dates| ==> dates[i].Valid())
    && forall i, j :: 0 <= i < j < |dates| ==> !dates[j].Before(dates[i])
  }

  lemma AdvancingIsInOrder(dates: seq<Date>)
    requires Advancing(dates)
    ensures InOrder(DayNames(dates))
  {
    hide DateString, AtMost;
    var days := DayNames(dates);
    var h := seq(|dates|, i requires 0 <= i < |dates| => Entry(days[i], ""));
    OrderedDatesAreChronological(dates, h);
    forall i, j | 0 <= i < j < |dates| ensures AtMost(days[i], days[j]) {
      assert h[i].date == days[i] && h[j].date == days[j];
    }
  }

  // The first 1819 of the measurements retained and in the range.
  ghost predicate ShowsLog(log: Answer<Measurement>, h: seq<Stored<Measurement>>, start: U32, end: U32) {
    exists cut: nat :: ShowsLogFrom(log, h, start, end, cut)
  }

  ghost predicate ShowsLogFrom(log: Answer<Measurement>, h: seq<Stored<Measurement>>, start: U32, end: U32, cut: nat) {
    && cut <= |h| && Kept(MeasurementEntries(h), cut, After(MeasurementEntries(h)))
    && var ms := MeasurementsIn(h[cut..], start, end);
       log == if ms == [] then Empty else Answer.Listed(if |ms| <= 1819 then ms else ms[..1819])
  }

  // As many as fit of the events retained and in the range.
  ghost predicate ShowsEvents(events: Answer<Event>, h: seq<Stored<Event>>, start: U32, end: U32) {
    exists cut: nat :: ShowsEventsFrom(events, h, start, end, cut)
  }

  ghost predicate ShowsEventsFrom(events: Answer<Event>, h: seq<Stored<Event>>, start: U32, end: U32, cut: nat) {
    && cut <= |h| && Kept(EventEntries(h), cut, After(EventEntries(h)))
    && var es := EventsIn(h[cut..], start, end);
       events == if es == [] then Empty else Answer.Listed(es[..Admitted(4, EventRecords(es))])
  }

  // What the gateway cuts off the line are the messages for these items.
  ghost predicate BringsItems(uart: seq<byte>, items: seq<T.Item>) {
    && (forall item <- items :: T.WellSent(item))
    && (forall m <- T.MessagesOf(items) :: |V.Encode(m)| <= PAYLOAD_SIZE)
    && Cut(UplinkRule(), uart).messages == Payloads(T.MessagesOf(items))
  }

  lemma ItemsAreBrought(uart: seq<byte>, items: seq<T.Item>)
    requires BringsItems(uart, items)
    ensures (forall item <- items :: T.WellSent(item)) && Brings(uart, T.MessagesOf(items))
    ensures T.AllStores(T.MessagesOf(items)) == T.StoredOf(items)
    ensures T.Replies(T.MessagesOf(items)) == T.ReturnedOf(items)
  {
    hide T.WellSent, T.Shaped, V.Encode, Cut, UplinkRule, Payloads, T.StoredOf, T.ReturnedOf, T.AllStores, T.Replies;
    T.ItemsAreServed(items);
  }

  // Main result: all programs in a row, from the bytes on the submarine's serial line to the Ground Station's
  // screen. Of the measurements and events it has sent the Ground Station, asking for it by its identifier, is
  // shown what is retained and in the range, up to the size of a response, field for field and in order; all
  // its other messages are returned to the central computer, and those of the core reach its serial line.
  method SubmarineToGroundStation(uart: seq<byte>, ghost items: seq<T.Item>, requests: seq<Message>,
      turns: seq<Turn>, dates: seq<Date>, id: Identifier, start: U32, end: U32)
      returns (log: Answer<Measurement>, events: Answer<Event>, replies: seq<V.Field>, serialOut: seq<byte>)
    requires BringsItems(uart, items) && CutFits(UplinkRule(), UART_BUF_SIZE, uart) && Lasting(turns)
    requires forall i :: 0 <= i < |requests| ==> |requests[i]| <= 508
    requires Busy(UartAmounts(turns)) >= |uart| + Takes(UplinkRule(), uart)
    requires Busy(CoreAmounts(turns)) >= |Stream(AllOnTheWire(requests, PAYLOAD_SIZE))| + |requests|
    requires |id| <= 63 && Advancing(dates) && |dates| == |T.StoredOf(items)|
    ensures ShowsLog(log, MeasurementsAmong(T.StoredOf(items), DayNames(dates)), start, end)
    ensures ShowsEvents(events, EventsAmong(T.StoredOf(items), DayNames(dates)), start, end)
    ensures replies == T.ReturnedOf(items) && DecodeAll(serialOut, PAYLOAD_SIZE) == CutAll(requests, PAYLOAD_SIZE)
  {
    ItemsAreBrought(uart, items);
    hide Brings, BringsItems, CutFits, Lasting, UplinkRule, Takes, Busy, Stream, AllOnTheWire, DecodeAll, Advancing;
    hide T.AllStores, T.StoredOf, T.Replies, T.ReturnedOf, T.WellSent, CutAll, MeasurementsOf, EventsOf, AllLines;
    hide ShowsLog, ShowsEvents, Keeps, MeasurementsAmong, EventsAmong, Admitted;
    ghost var ms := T.MessagesOf(items);
    var stores;
    replies, stores, serialOut := SerialLineToStorage(uart, ms, requests, turns);
    var dca := new DataCollection();
    StoreAll(dca, id, stores, DayNames(dates));
    StoresAreStamped(ms);
    log := AskForLog(id, start, end, dca);
    events := AskForEvents(id, start, end, dca);
    LogIsShown(dca.directories, id, stores, dates, start, end, log);
    EventsAreShown(dca.directories, id, stores, dates, start, end, events);
  }

  lemma LogIsShown(ds: Directories, id: string, stores: seq<T.Store>, dates: seq<Date>, start: U32, end: U32,
      log: Answer<Measurement>)
    requires |stores| == |dates| && Advancing(dates) && Keeps(ds, id, stores, DayNames(dates))
    requires var ms := MeasurementsOf(AllLines(FilesIn(ds, Directory(id, Measurements))), start, end);
      log == if ms == [] then Empty else Answer.Listed(if |ms| <= 1819 then ms else ms[..1819])
    ensures ShowsLog(log, MeasurementsAmong(stores, DayNames(dates)), start, end)
  {
    hide Advancing, MeasurementsAmong, After, Kept, AllLines, MeasurementsOf, MeasurementsIn, Chronological, DayNames;
    var h := MeasurementsAmong(stores, DayNames(dates));
    AdvancingIsInOrder(dates);
    MeasurementsAreOrdered(stores, DayNames(dates));
    var cut := MeasurementQueryIsFilter(h, start, end);
    assert ShowsLogFrom(log, h, start, end, cut);
  }

  lemma EventsAreShown(ds: Directories, id: string, stores: seq<T.Store>, dates: seq<Date>, start: U32, end: U32,
      events: Answer<Event>)
    requires |stores| == |dates| && Advancing(dates) && Keeps(ds, id, stores, DayNames(dates))
    requires forall s <- stores :: s.StoreEvent? ==> Stamped(s.e)
    requires var es := EventsOf(AllLines(FilesIn(ds, Directory(id, Events))), start, end);
      events == if es == [] then Empty else Answer.Listed(es[..Admitted(4, EventRecords(es))])
    ensures ShowsEvents(events, EventsAmong(stores, DayNames(dates)), start, end)
  {
    hide Advancing, EventsAmong, After, Kept, AllLines, EventsOf, EventsIn, Chronological, DayNames, Admitted;
    var h := EventsAmong(stores, DayNames(dates));
    AdvancingIsInOrder(dates);
    EventsAreOrdered(stores, DayNames(dates));
    EventsAreStamped(stores, DayNames(dates));
    var cut := EventQueryIsFilter(h, start, end);
    assert ShowsEventsFrom(events, h, start, end, cut);
  }
}
