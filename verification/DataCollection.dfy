/** Storing and querying: the interface of pc_side/central_computer/data_collection.cpp. */
module DataCollections {
  import opened Bytes
  import opened Wrappers
  import opened Dates
  import opened Retention
  import opened Records
  import opened TextLines

  datatype Category = Measurements | Events

  datatype Directory = Directory(submarineId: string, category: Category)

  type Directories = map<Directory, Files>

  // A directory that does not exist has no files.
  function FilesIn(ds: Directories, d: Directory): Files {
    if d in ds then ds[d] else map[]
  }

  predicate InRange(timestamp: U32, start: U32, end: U32) { start <= timestamp <= end }

  function MeasurementsOf(lines: seq<string>, start: U32, end: U32): seq<Measurement> {
    if lines == [] then [] else
    var last := ParseMeasurement(lines[|lines| - 1]);
    MeasurementsOf(lines[..|lines| - 1], start, end) +
    (if last.Some? && InRange(last.value.timestamp, start, end) then [last.value] else [])
  }

  function EventsOf(lines: seq<string>, start: U32, end: U32): seq<Event> {
    if lines == [] then [] else
    var last := ParseEvent(lines[|lines| - 1]);
    EventsOf(lines[..|lines| - 1], start, end) +
    (if last.Some? && InRange(last.value.timestamp, start, end) then [last.value] else [])
  }

  class DataCollection {
    var directories: Directories

    ghost predicate Valid()
      reads this
    {
      forall d, n :: d in directories && n in directories[d] ==> "" !in directories[d][n]
    }

    function FilesOf(d: Directory): Files
      reads this
    {
      FilesIn(directories, d)
    }

    constructor ()
      ensures Valid() && directories == map[]
    {
      directories := map[];
    }

    // std::sort of the directory entries.
    static method SortedNames(files: Files) returns (names: seq<string>)
      ensures Lists(names, files.Keys)
    {
      names := [];
      var left := files.Keys;
      assert forall n :: n in names <==> n in files.Keys - left;
      while left != {}
        invariant left <= files.Keys && Lists(names, files.Keys - left)
        decreases |left|
      {
        var n :| n in left;
        left := left - {n};
        ghost var before := names;
        names := Insert(names, n);
        assert files.Keys - left == (files.Keys - (left + {n})) + {n};
      }
      assert files.Keys - {} == files.Keys;
    }

    static method Insert(names: seq<string>, n: string) returns (longer: seq<string>)
      requires Sorted(names) && n !in names
      ensures Sorted(longer) && forall m :: m in longer <==> m in names || m == n
    {
      var i := 0;
      while i < |names| && Less(names[i], n)
        invariant i <= |names|
        invariant forall j :: 0 <= j < i ==> Less(names[j], n)
      {
        i := i + 1;
      }
      longer := names[..i] + [n] + names[i..];
      forall j | i <= j < |names| ensures Less(n, names[j]) {
        assert names[j] in names && names[i] in names;
        Trichotomy(n, names[i]);
        if i < j { Transitive(n, names[i], names[j]); }
      }
      assert forall m :: m in longer <==> m in names[..i] || m == n || m in names[i..];
      assert names == names[..i] + names[i..];
    }

    method RotateIfNeeded(d: Directory)
      requires Valid()
      modifies this
      ensures Valid() && directories == old(directories)[d := Rotated(old(FilesOf(d)))]
    {
      var files := FilesOf(d);
      if |files| > MAX_FILES {
        var names := SortedNames(files);
        ListingSize(names, files.Keys);
        assert |files.Keys| == |files|;
        FirstIsOldest(names, files.Keys);
        files := files - {names[0]};
      }
      directories := directories[d := files];
    }

    method AppendLine(d: Directory, line: string, today: string)
      requires Valid() && line != ""
      modifies this
      ensures Valid() && directories == old(directories)[d := Appended(old(FilesOf(d)), today, line)]
    {
      RotateIfNeeded(d);
      var files := FilesOf(d);
      var file := (if today in files then files[today] else []) + [line];
      directories := directories[d := files[today := file]];
    }

    // DCA_StoreMeasurement.
    method StoreMeasurement(submarineId: string, m: Measurement, today: string)
      requires Valid()
      modifies this
      ensures Valid()
      ensures var d := Directory(submarineId, Measurements);
        directories == old(directories)[d := Appended(old(FilesOf(d)), today, MeasurementLine(m))]
    {
      AppendLine(Directory(submarineId, Measurements), MeasurementLine(m), today);
    }

    // DCA_StoreEvent.
    method StoreEvent(submarineId: string, e: Event, today: string)
      requires Valid()
      modifies this
      ensures Valid()
      ensures var d := Directory(submarineId, Events);
        directories == old(directories)[d := Appended(old(FilesOf(d)), today, EventLine(e))]
    {
      AppendLine(Directory(submarineId, Events), EventLine(e), today);
    }

    method ReadAllLines(d: Directory) returns (lines: seq<string>)
      requires Valid()
      ensures lines == AllLines(FilesOf(d))
    {
      lines := [];
      var files := FilesOf(d);
      var names := SortedNames(files);
      for i := 0 to |names|
        invariant forall n <- names[..i] :: n in files
        invariant lines == Contents(files, names[..i])
      {
        assert names[i] in names;
        assert names[..i + 1][..i] == names[..i];
        var file := files[names[i]];
        for j := 0 to |file|
          invariant lines == Contents(files, names[..i]) + file[..j]
        {
          if file[j] != "" { lines := lines + [file[j]]; }
          assert file[j] in file;
        }
        assert file[..|file|] == file;
      }
      assert names[..|names|] == names;
      ListingIsUnique(names, Listing(files.Keys), files.Keys);
    }

    // DCA_QueryMeasurements.
    method QueryMeasurements(submarineId: string, start: U32, end: U32) returns (result: seq<Measurement>)
      requires Valid()
      ensures result == MeasurementsOf(AllLines(FilesOf(Directory(submarineId, Measurements))), start, end)
    {
      hide ParseMeasurement, AllLines;
      result := [];
      var lines := ReadAllLines(Directory(submarineId, Measurements));
      for i := 0 to |lines|
        invariant result == MeasurementsOf(lines[..i], start, end)
      {
        assert lines[..i + 1][..i] == lines[..i];
        var m := ParseMeasurement(lines[i]);
        if m == None { continue; }
        if m.value.timestamp < start || m.value.timestamp > end { continue; }
        result := result + [m.value];
      }
      assert lines[..|lines|] == lines;
    }

    // DCA_QueryEvents.
    method QueryEvents(submarineId: string, start: U32, end: U32) returns (result: seq<Event>)
      requires Valid()
      ensures result == EventsOf(AllLines(FilesOf(Directory(submarineId, Events))), start, end)
    {
      hide ParseEvent, AllLines;
      result := [];
      var lines := ReadAllLines(Directory(submarineId, Events));
      for i := 0 to |lines|
        invariant result == EventsOf(lines[..i], start, end)
      {
        assert lines[..i + 1][..i] == lines[..i];
        var e := ParseEvent(lines[i]);
        if e == None { continue; }
        if e.value.timestamp < start || e.value.timestamp > end { continue; }
        result := result + [e.value];
      }
      assert lines[..|lines|] == lines;
    }
  }

  lemma FirstIsOldest(names: seq<string>, keys: set<string>)
    requires Lists(names, keys) && keys != {}
    ensures names != [] && names[0] == Oldest(keys)
  {
    var o := Oldest(keys);
    assert o in names;
    forall m | m in keys ensures AtMost(names[0], m) {
      var i :| 0 <= i < |names| && names[i] == m;
    }
    OldestIs(keys, names[0]);
  }

  // ---- What a query means ----

  datatype Stored<T> = Stored(date: string, record: T)

  function MeasurementEntries(h: seq<Stored<Measurement>>): (entries: seq<Entry>)
    ensures |entries| == |h|
    ensures forall i :: 0 <= i < |h| ==> entries[i] == Entry(h[i].date, MeasurementLine(h[i].record))
  {
    seq(|h|, i requires 0 <= i < |h| => Entry(h[i].date, MeasurementLine(h[i].record)))
  }

  function EventEntries(h: seq<Stored<Event>>): (entries: seq<Entry>)
    ensures |entries| == |h| && forall i :: 0 <= i < |h| ==> entries[i] == Entry(h[i].date, EventLine(h[i].record))
  {
    seq(|h|, i requires 0 <= i < |h| => Entry(h[i].date, EventLine(h[i].record)))
  }

  // The records with a timestamp in the range, both ends included, in the order they were stored.
  function MeasurementsIn(h: seq<Stored<Measurement>>, start: U32, end: U32): seq<Measurement> {
    if h == [] then [] else
    var m := h[|h| - 1].record;
    MeasurementsIn(h[..|h| - 1], start, end) + (if start <= m.timestamp && m.timestamp <= end then [m] else [])
  }

  function EventsIn(h: seq<Stored<Event>>, start: U32, end: U32): seq<Event> {
    if h == [] then [] else
    var e := h[|h| - 1].record;
    EventsIn(h[..|h| - 1], start, end) + (if start <= e.timestamp && e.timestamp <= end then [e] else [])
  }

  lemma {:induction false} MeasurementIsInIff(h: seq<Stored<Measurement>>, start: U32, end: U32, m: Measurement)
    ensures m in MeasurementsIn(h, start, end) <==>
      start <= m.timestamp && m.timestamp <= end && exists i :: 0 <= i < |h| && h[i].record == m
  {
    if h != [] {
      MeasurementIsInIff(h[..|h| - 1], start, end, m);
      LastOrBefore(h, h[..|h| - 1], m);
    }
  }

  lemma LastOrBefore<T>(h: seq<Stored<T>>, init: seq<Stored<T>>, record: T)
    requires h != [] && init == h[..|h| - 1]
    ensures (exists i :: 0 <= i < |h| && h[i].record == record) <==>
      h[|h| - 1].record == record || exists i :: 0 <= i < |init| && init[i].record == record
  {
    forall i | 0 <= i < |init| ensures init[i] == h[i] {
    }
  }

  lemma {:induction false} EventIsInIff(h: seq<Stored<Event>>, start: U32, end: U32, e: Event)
    ensures e in EventsIn(h, start, end) <==>
      start <= e.timestamp && e.timestamp <= end && exists i :: 0 <= i < |h| && h[i].record == e
  {
    if h != [] {
      EventIsInIff(h[..|h| - 1], start, end, e);
      LastOrBefore(h, h[..|h| - 1], e);
    }
  }

  lemma {:induction false} LinesReadBackAsMeasurements(h: seq<Stored<Measurement>>, start: U32, end: U32)
    ensures MeasurementsOf(Lines(MeasurementEntries(h)), start, end) == MeasurementsIn(h, start, end)
  {
    hide ParseMeasurement, MeasurementLine;
    if h != [] {
      var init := h[..|h| - 1];
      LinesReadBackAsMeasurements(init, start, end);
      assert Lines(MeasurementEntries(h))[..|h| - 1] == Lines(MeasurementEntries(init));
      MeasurementLineRoundTrip(h[|h| - 1].record);
    }
  }

  lemma {:induction false} LinesReadBackAsEvents(h: seq<Stored<Event>>, start: U32, end: U32)
    requires forall s <- h :: Stamped(s.record)
    ensures EventsOf(Lines(EventEntries(h)), start, end) == EventsIn(h, start, end)
  {
    hide ParseEvent, EventLine;
    if h != [] {
      var init := h[..|h| - 1];
      LinesReadBackAsEvents(init, start, end);
      assert Lines(EventEntries(h))[..|h| - 1] == Lines(EventEntries(init));
      EventLineRoundTrip(h[|h| - 1].record);
    }
  }

  // Main result: over every chronological run of stores a query is the range filter, in storing order, of
  // the retained suffix of everything stored.
  lemma MeasurementQueryIsFilter(h: seq<Stored<Measurement>>, start: U32, end: U32) returns (cut: nat)
    requires Chronological(MeasurementEntries(h))
    ensures Kept(MeasurementEntries(h), cut, After(MeasurementEntries(h))) && cut <= |h|
    ensures MeasurementsOf(AllLines(After(MeasurementEntries(h))), start, end) == MeasurementsIn(h[cut..], start, end)
  {
    hide After, AllLines, MeasurementsOf, MeasurementsIn, Chronological, MeasurementLine, Lines;
    cut := SuffixIsReadBack(MeasurementEntries(h));
    KeptIsGrouped(MeasurementEntries(h), cut);
    assert MeasurementEntries(h)[cut..] == MeasurementEntries(h[cut..]);
    LinesReadBackAsMeasurements(h[cut..], start, end);
  }

  lemma EventQueryIsFilter(h: seq<Stored<Event>>, start: U32, end: U32) returns (cut: nat)
    requires Chronological(EventEntries(h)) && forall s <- h :: Stamped(s.record)
    ensures Kept(EventEntries(h), cut, After(EventEntries(h))) && cut <= |h|
    ensures EventsOf(AllLines(After(EventEntries(h))), start, end) == EventsIn(h[cut..], start, end)
  {
    hide After, AllLines, EventsOf, EventsIn, Chronological, EventLine, Lines;
    cut := SuffixIsReadBack(EventEntries(h));
    KeptIsGrouped(EventEntries(h), cut);
    assert EventEntries(h)[cut..] == EventEntries(h[cut..]);
    LinesReadBackAsEvents(h[cut..], start, end);
  }
}
