/**
 The two threads of central_computer: the LNC thread stores measurements and events, the Ground Station
 thread queries them. Every file operation is a step of its own; only the one mutex keeps the threads apart.
 */
module Concurrency {
  import opened Bytes
  import opened Dates
  import opened Retention
  import opened Records
  import opened TextLines
  import opened DataCollections

  // A call of DCA_StoreMeasurement or DCA_StoreEvent, with the date on which its line is written. The
  // latter takes one timestamp for the event and its measurement.
  datatype Call =
    | MeasurementCall(submarineId: string, date: string, m: Measurement)
    | EventCall(submarineId: string, date: string, e: Event)
  {
    function Target(): Directory {
      Directory(submarineId, if MeasurementCall? then Measurements else Events)
    }

    function Line(): Entry {
      Entry(date, if MeasurementCall? then MeasurementLine(m) else EventLine(e))
    }
  }

  type StoreCall = c: Call | c.EventCall? ==> Stamped(c.e)
    witness MeasurementCall("", "", Measurement(0, 0, 0, 0, 0, 0))

  datatype Mutex = Free | HeldByWriter | HeldByReader

  // Where AppendLine stands.
  datatype Writer = Outside | Locked(c: StoreCall) | HasRotated(c: StoreCall) | HasWritten

  datatype Answer = MeasurementAnswer(ms: seq<Measurement>) | EventAnswer(es: seq<Event>)

  // A call of DCA_QueryMeasurements or DCA_QueryEvents, by the directory it reads.
  datatype Query = Query(d: Directory, start: U32, end: U32) {
    function Of(lines: seq<string>): Answer {
      if d.category.Measurements? then MeasurementAnswer(MeasurementsOf(lines, start, end))
      else EventAnswer(EventsOf(lines, start, end))
    }
  }

  // Where a query stands. since and at are the moments of the call and of taking the mutex.
  datatype Reader =
    | Idle
    | Called(q: Query, since: nat)
    | Reading(q: Query, since: nat, at: nat, names: seq<string>, lines: seq<string>)
    | Parsing(q: Query, since: nat, at: nat, lines: seq<string>)
    | Returned(q: Query, since: nat, at: nat, answer: Answer)

  datatype State = State(directories: Directories, mutex: Mutex, writer: Writer, reader: Reader)

  ghost predicate Init(s: State) {
    s.directories == map[] && s.mutex == Free && s.writer == Outside && s.reader == Idle
  }

  // One step of AppendLine.
  ghost predicate WriterStep(s: State, t: State) {
    match s.writer
    case Outside => s.mutex == Free && exists c: StoreCall :: t == s.(mutex := HeldByWriter, writer := Locked(c))
    case Locked(c) =>
      var files := Rotated(FilesIn(s.directories, c.Target()));
      t == s.(directories := s.directories[c.Target() := files], writer := HasRotated(c))
    case HasRotated(c) =>
      var files := Written(FilesIn(s.directories, c.Target()), c.Line().date, c.Line().line);
      t == s.(directories := s.directories[c.Target() := files], writer := HasWritten)
    case HasWritten => t == s.(mutex := Free, writer := Outside)
  }

  // One step of a query; now is the current moment.
  ghost predicate ReaderStep(s: State, t: State, now: nat) {
    match s.reader
    case Idle => exists q :: t == s.(reader := Called(q, now))
    case Called(q, since) =>
      && s.mutex == Free
      && t == s.(mutex := HeldByReader, reader := Reading(q, since, now, Listing(FilesIn(s.directories, q.d).Keys), []))
    case Reading(q, since, at, names, lines) =>
      if names == [] then t == s.(mutex := Free, reader := Parsing(q, since, at, lines)) else
      var files := FilesIn(s.directories, q.d);
      names[0] in files && t == s.(reader := Reading(q, since, at, names[1..], lines + files[names[0]]))
    case Parsing(q, since, at, lines) => t == s.(reader := Returned(q, since, at, q.Of(lines)))
    case Returned(_, _, _, _) => t == s.(reader := Idle)
  }

  // Any interleaving of the two threads.
  ghost predicate IsRun(trace: seq<State>) {
    && trace != [] && Init(trace[0])
    && forall k :: 0 < k < |trace| ==> Step(trace, k)
  }

  ghost predicate Step(trace: seq<State>, k: nat)
    requires 0 < k < |trace|
  {
    WriterStep(trace[k - 1], trace[k]) || ReaderStep(trace[k - 1], trace[k], k - 1)
  }

  // ---- The calls, read off a run ----

  // The call for which AppendLine has taken the mutex and not yet released it.
  function UnderWay(trace: seq<State>, k: nat): seq<StoreCall>
    requires k < |trace|
  {
    match trace[k].writer
    case Outside => []
    case Locked(c) => [c]
    case _ => if k == 0 then [] else UnderWay(trace, k - 1)
  }

  // The calls that have released it again, to all directories together.
  function Completed(trace: seq<State>, k: nat): seq<StoreCall>
    requires k < |trace|
  {
    if k == 0 then [] else
    Completed(trace, k - 1) + (if trace[k].writer.Outside? then UnderWay(trace, k - 1) else [])
  }

  // The lines these calls write to one directory.
  function EntriesOf(history: seq<StoreCall>, d: Directory): seq<Entry> {
    if history == [] then [] else
    var last := history[|history| - 1];
    EntriesOf(history[..|history| - 1], d) + (if last.Target() == d then [last.Line()] else [])
  }

  function Joined(files: Files, names: seq<string>): seq<string>
    requires forall n <- names :: n in files
  {
    if names == [] then [] else files[names[0]] + Joined(files, names[1..])
  }

  // What the directory holds after the history, as if nothing else had ever happened.
  ghost function Expected(history: seq<StoreCall>, d: Directory): Files {
    After(EntriesOf(history, d))
  }

  // The mutex excludes, and outside AppendLine's critical section every directory is that of the calls completed.
  ghost predicate Disciplined(trace: seq<State>, k: nat)
    requires k < |trace|
  {
    OrderlyAt(trace[k], Completed(trace, k), UnderWay(trace, k))
  }

  ghost predicate OrderlyAt(s: State, done: seq<StoreCall>, current: seq<StoreCall>) {
    && (s.mutex == HeldByWriter <==> s.writer != Outside)
    && (s.mutex == HeldByReader <==> s.reader.Reading?)
    && |current| == (if s.writer.Outside? then 0 else 1)
    && (s.writer.Locked? || s.writer.HasRotated? ==> current == [s.writer.c])
    && forall d :: FilesIn(s.directories, d) ==
         if s.writer.HasWritten? then Expected(done + current, d)
         else if s.writer.HasRotated? && s.writer.c.Target() == d then Rotated(Expected(done, d))
         else Expected(done, d)
  }

  // Moment at lies within the query, AppendLine was not at work then, and the directory read was that of the
  // calls completed.
  ghost predicate Instant(trace: seq<State>, k: nat, q: Query, since: nat, at: nat) {
    && since <= at < k <= |trace| && trace[at].writer.Outside?
    && FilesIn(trace[at].directories, q.d) == Expected(Completed(trace, at), q.d)
  }

  // What the reader has in hand goes back to one moment since its call.
  ghost predicate Snapshot(trace: seq<State>, k: nat)
    requires k < |trace|
  {
    match trace[k].reader
    case Idle => true
    case Called(_, since) => since < k
    case Reading(q, since, at, names, lines) =>
      && Instant(trace, k, q, since, at)
      && var files := FilesIn(trace[at].directories, q.d);
         && FilesIn(trace[k].directories, q.d) == files
         && (forall n <- names :: n in files)
         && lines + Joined(files, names) == AllLines(files)
    case Parsing(q, since, at, lines) =>
      Instant(trace, k, q, since, at) && lines == AllLines(FilesIn(trace[at].directories, q.d))
    case Returned(q, since, at, answer) =>
      Instant(trace, k, q, since, at) && answer == q.Of(AllLines(FilesIn(trace[at].directories, q.d)))
  }

  lemma {:induction false} ContentsIsJoined(files: Files, names: seq<string>)
    requires forall n <- names :: n in files
    ensures Contents(files, names) == Joined(files, names)
    decreases |names|
  {
    if names != [] {
      var init, last := names[..|names| - 1], names[|names| - 1];
      ContentsIsJoined(files, init);
      JoinedConcat(files, init, [last]);
      assert names == init + [last];
      assert Joined(files, [last]) == files[last] + Joined(files, []) by { assert [last][1..] == []; }
    }
  }

  lemma {:induction false} JoinedConcat(files: Files, xs: seq<string>, ys: seq<string>)
    requires (forall n <- xs :: n in files) && (forall n <- ys :: n in files)
    ensures forall n <- xs + ys :: n in files
    ensures Joined(files, xs + ys) == Joined(files, xs) + Joined(files, ys)
    decreases |xs|
  {
    if xs == [] {
      assert xs + ys == ys;
    } else {
      assert (xs + ys)[1..] == xs[1..] + ys;
      JoinedConcat(files, xs[1..], ys);
    }
  }

  lemma OneMoreCall(history: seq<StoreCall>, c: StoreCall, d: Directory)
    ensures Expected(history + [c], d) ==
      if c.Target() == d then Written(Rotated(Expected(history, d)), c.Line().date, c.Line().line)
      else Expected(history, d)
  {
    hide Rotated, Written;
    assert (history + [c])[..|history|] == history;
    var entries := EntriesOf(history + [c], d);
    if c.Target() == d {
      assert entries[..|entries| - 1] == EntriesOf(history, d);
    } else {
      assert EntriesOf(history, d) + [] == EntriesOf(history, d);
    }
  }

  lemma DisciplineIsKept(trace: seq<State>, k: nat)
    requires 0 < k < |trace| && Step(trace, k) && Disciplined(trace, k - 1)
    ensures Disciplined(trace, k)
  {
    hide Listing, Rotated, Written, Expected;
    var s, t := trace[k - 1], trace[k];
    var done, current := Completed(trace, k - 1), UnderWay(trace, k - 1);
    assert done + [] == done;
    if WriterStep(s, t) && s.writer.HasRotated? {
      forall d ensures FilesIn(t.directories, d) == Expected(done + current, d) {
        OneMoreCall(done, s.writer.c, d);
      }
    }
  }

  lemma ListingIsReadable(files: Files)
    ensures forall n <- Listing(files.Keys) :: n in files
    ensures [] + Joined(files, Listing(files.Keys)) == AllLines(files)
  {
    ContentsIsJoined(files, Listing(files.Keys));
  }

  lemma SnapshotIsKept(trace: seq<State>, k: nat)
    requires 0 < k < |trace| && Step(trace, k)
    requires Disciplined(trace, k - 1) && Snapshot(trace, k - 1)
    ensures Snapshot(trace, k)
  {
    hide Listing, Rotated, AllLines, Written, Expected, Completed, UnderWay;
    var s, t := trace[k - 1], trace[k];
    if ReaderStep(s, t, k - 1) {
      match s.reader
      case Called(q, _) => ListingIsReadable(FilesIn(s.directories, q.d));
      case Reading(q, _, at, names, lines) =>
        if names != [] {
          var files := FilesIn(s.directories, q.d);
          assert names[0] in names;
          assert lines + files[names[0]] + Joined(files, names[1..]) == lines + Joined(files, names);
        } else {
          assert lines + [] == lines;
        }
      case _ =>
    }
  }

  lemma StartIsDisciplined(trace: seq<State>)
    requires trace != [] && Init(trace[0])
    ensures Disciplined(trace, 0) && Snapshot(trace, 0)
  {
  }

  lemma {:induction false} RunsAreDisciplined(trace: seq<State>, k: nat)
    requires IsRun(trace) && k < |trace|
    ensures Disciplined(trace, k) && Snapshot(trace, k)
    decreases k
  {
    hide Init, Disciplined, Snapshot, WriterStep, ReaderStep;
    StartIsDisciplined(trace);
    if k > 0 {
      RunsAreDisciplined(trace, k - 1);
      assert Step(trace, k);
      DisciplineIsKept(trace, k);
      SnapshotIsKept(trace, k);
    }
  }

  // Main result: whatever the interleaving, with stores to any directories, the answer of a query is that
  // of its directory as it stood at one moment between call and return, with exactly the appends completed
  // by then; among them are all that had returned before the query was called.
  lemma QueriesAreLinearisable(trace: seq<State>, k: nat)
    requires IsRun(trace) && k < |trace| && trace[k].reader.Returned?
    ensures var r := trace[k].reader;
      && r.since <= r.at < k
      && r.answer == r.q.Of(AllLines(Expected(Completed(trace, r.at), r.q.d)))
      && Completed(trace, r.since) <= Completed(trace, r.at) <= Completed(trace, k)
  {
    hide Completed, Expected, AllLines, FilesIn, Disciplined;
    RunsAreDisciplined(trace, k);
    var r := trace[k].reader;
    CompletedGrow(trace, r.since, r.at);
    CompletedGrow(trace, r.at, k);
  }

  lemma {:induction false} CompletedGrow(trace: seq<State>, j: nat, k: nat)
    requires j <= k < |trace|
    ensures Completed(trace, j) <= Completed(trace, k)
  {
    if j < k { CompletedGrow(trace, j, k - 1); }
  }

  // Main result: a store that runs through, from taking the mutex to releasing it, has then been completed,
  // and nothing else has meanwhile.
  lemma {:induction false} StoreIsCompleted(trace: seq<State>, i: nat, j: nat, c: StoreCall)
    requires IsRun(trace) && i < j < |trace|
    requires trace[i].writer == Locked(c) && trace[j].writer.Outside?
    requires forall x :: i <= x < j ==> trace[x].writer != Outside
    ensures Completed(trace, j) == Completed(trace, i) + [c]
  {
    hide IsRun;
    StillUnderWay(trace, i, j - 1, c);
  }

  lemma {:induction false} StillUnderWay(trace: seq<State>, i: nat, j: nat, c: StoreCall)
    requires IsRun(trace) && i <= j < |trace|
    requires trace[i].writer == Locked(c) && forall x :: i <= x <= j ==> trace[x].writer != Outside
    ensures UnderWay(trace, j) == [c] && Completed(trace, j) == Completed(trace, i)
  {
    hide Init;
    if i < j {
      StillUnderWay(trace, i, j - 1, c);
      assert Step(trace, j);
      assert Completed(trace, i) + [] == Completed(trace, i);
    }
  }

  // Every query called after that answers for a directory with that line in it.
  lemma StoreIsSeen(trace: seq<State>, i: nat, j: nat, c: StoreCall, k: nat)
    requires IsRun(trace) && i < j < |trace|
    requires trace[i].writer == Locked(c) && trace[j].writer.Outside?
    requires forall x :: i <= x < j ==> trace[x].writer != Outside
    requires k < |trace| && trace[k].reader.Returned? && trace[k].reader.since >= j
    ensures trace[k].reader.at < |trace| && Completed(trace, i) + [c] <= Completed(trace, trace[k].reader.at)
  {
    hide Completed, Expected, AllLines;
    StoreIsCompleted(trace, i, j, c);
    QueriesAreLinearisable(trace, k);
    CompletedGrow(trace, j, trace[k].reader.since);
  }

  // A thread can always go on unless the other one holds the mutex.
  lemma NobodyIsStuck(trace: seq<State>, k: nat)
    requires IsRun(trace) && k < |trace|
    ensures trace[k].mutex != HeldByReader ==> exists t :: WriterStep(trace[k], t)
    ensures trace[k].mutex != HeldByWriter ==> exists t :: ReaderStep(trace[k], t, k)
  {
    RunsAreDisciplined(trace, k);
    hide IsRun, Listing, Rotated, Written, AllLines, Expected, Completed, UnderWay, FilesIn;
    var s := trace[k];
    if s.mutex != HeldByReader { WriterMoves(s); }
    if s.mutex != HeldByWriter { ReaderMoves(s, k); }
  }

  lemma WriterMoves(s: State)
    requires s.writer.Outside? ==> s.mutex == Free
    ensures exists t :: WriterStep(s, t)
  {
    hide Rotated, Written;
    var t := match s.writer
      case Outside =>
        var c: StoreCall := MeasurementCall("", "", Measurement(0, 0, 0, 0, 0, 0));
        s.(mutex := HeldByWriter, writer := Locked(c))
      case Locked(c) =>
        s.(directories := s.directories[c.Target() := Rotated(FilesIn(s.directories, c.Target()))],
          writer := HasRotated(c))
      case HasRotated(c) =>
        var files := Written(FilesIn(s.directories, c.Target()), c.Line().date, c.Line().line);
        s.(directories := s.directories[c.Target() := files], writer := HasWritten)
      case HasWritten => s.(mutex := Free, writer := Outside);
    assert WriterStep(s, t);
  }

  lemma ReaderMoves(s: State, now: nat)
    requires s.reader.Called? ==> s.mutex == Free
    requires s.reader.Reading? ==> forall n <- s.reader.names :: n in FilesIn(s.directories, s.reader.q.d)
    ensures exists t :: ReaderStep(s, t, now)
  {
    hide Listing;
    var t := match s.reader
      case Idle => s.(reader := Called(Query(Directory("", Measurements), 0, 0), now))
      case Called(q, since) =>
        var names := Listing(FilesIn(s.directories, q.d).Keys);
        s.(mutex := HeldByReader, reader := Reading(q, since, now, names, []))
      case Reading(q, since, at, names, lines) =>
        if names == [] then s.(mutex := Free, reader := Parsing(q, since, at, lines)) else
        s.(reader := Reading(q, since, at, names[1..], lines + FilesIn(s.directories, q.d)[names[0]]))
      case Parsing(q, since, at, lines) => s.(reader := Returned(q, since, at, q.Of(lines)))
      case Returned(_, _, _, _) => s.(reader := Idle);
    assert ReaderStep(s, t, now);
  }

  // ---- In terms of what was stored ----

  function MeasurementsStored(history: seq<StoreCall>, id: string): seq<Stored<Measurement>> {
    if history == [] then [] else
    var last := history[|history| - 1];
    MeasurementsStored(history[..|history| - 1], id) +
    (if last.MeasurementCall? && last.submarineId == id then [Stored(last.date, last.m)] else [])
  }

  function EventsStored(history: seq<StoreCall>, id: string): (stored: seq<Stored<Event>>)
    ensures forall s <- stored :: Stamped(s.record)
  {
    if history == [] then [] else
    var last := history[|history| - 1];
    EventsStored(history[..|history| - 1], id) +
    (if last.EventCall? && last.submarineId == id then [Stored(last.date, last.e)] else [])
  }

  lemma {:induction false} StoredAreEntries(history: seq<StoreCall>, id: string)
    ensures EntriesOf(history, Directory(id, Measurements)) == MeasurementEntries(MeasurementsStored(history, id))
    ensures EntriesOf(history, Directory(id, Events)) == EventEntries(EventsStored(history, id))
  {
    hide MeasurementLine, EventLine;
    if history != [] { StoredAreEntries(history[..|history| - 1], id); }
  }

  // Main result: with the clock never running backwards, that is the range filter of the measurements
  // retained at that moment.
  lemma MeasurementQueriesAreLinearisable(trace: seq<State>, k: nat) returns (cut: nat)
    requires IsRun(trace) && k < |trace| && trace[k].reader.Returned? && trace[k].reader.q.d.category == Measurements
    requires var r := trace[k].reader; r.at < |trace| && Chronological(EntriesOf(Completed(trace, r.at), r.q.d))
    ensures var r := trace[k].reader;
      var stored := MeasurementsStored(Completed(trace, r.at), r.q.d.submarineId);
      && r.since <= r.at < k
      && cut <= |stored| && Kept(MeasurementEntries(stored), cut, After(MeasurementEntries(stored)))
      && r.answer == MeasurementAnswer(MeasurementsIn(stored[cut..], r.q.start, r.q.end))
  {
    hide IsRun, AllLines, Kept, MeasurementsOf, After, Chronological, Completed;
    QueriesAreLinearisable(trace, k);
    var r := trace[k].reader;
    var history, id := Completed(trace, r.at), r.q.d.submarineId;
    StoredAreEntries(history, id);
    cut := MeasurementQueryIsFilter(MeasurementsStored(history, id), r.q.start, r.q.end);
  }

  // The same for events.
  lemma EventQueriesAreLinearisable(trace: seq<State>, k: nat) returns (cut: nat)
    requires IsRun(trace) && k < |trace| && trace[k].reader.Returned? && trace[k].reader.q.d.category == Events
    requires var r := trace[k].reader; r.at < |trace| && Chronological(EntriesOf(Completed(trace, r.at), r.q.d))
    ensures var r := trace[k].reader;
      var stored := EventsStored(Completed(trace, r.at), r.q.d.submarineId);
      && r.since <= r.at < k
      && cut <= |stored| && Kept(EventEntries(stored), cut, After(EventEntries(stored)))
      && r.answer == EventAnswer(EventsIn(stored[cut..], r.q.start, r.q.end))
  {
    hide IsRun, AllLines, Kept, EventsOf, After, Chronological, Completed;
    QueriesAreLinearisable(trace, k);
    var r := trace[k].reader;
    var history, id := Completed(trace, r.at), r.q.d.submarineId;
    StoredAreEntries(history, id);
    cut := EventQueryIsFilter(EventsStored(history, id), r.q.start, r.q.end);
  }
}
