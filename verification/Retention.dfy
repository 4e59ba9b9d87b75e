/** The dated files of one directory: pc_side/central_computer/data_collection.cpp without the record formats. */
module Retention {
  import opened Wrappers
  import opened Dates

  const MAX_FILES: nat := 7

  // File name (a date) to the lines in it.
  type Files = map<string, seq<string>>

  lemma {:induction false} OldestExists(names: set<string>)
    requires names != {}
    ensures exists n :: n in names && forall m <- names :: AtMost(n, m)
    decreases |names|
  {
    var n :| n in names;
    var rest := names - {n};
    if rest == {} {
      assert names == {n};
    } else {
      OldestExists(rest);
      var o :| o in rest && forall m <- rest :: AtMost(o, m);
      Trichotomy(n, o);
      var least := if Less(n, o) then n else o;
      forall m | m in names ensures AtMost(least, m) {
        if m in rest && least == n && m != o { Transitive(n, o, m); }
      }
    }
  }

  ghost function Oldest(names: set<string>): (n: string)
    requires names != {}
    ensures n in names && forall m <- names :: AtMost(n, m)
  {
    OldestExists(names);
    var n :| n in names && forall m <- names :: AtMost(n, m);
    n
  }

  lemma OldestIs(names: set<string>, n: string)
    requires n in names && forall m <- names :: AtMost(n, m)
    ensures Oldest(names) == n
  {
    Trichotomy(n, Oldest(names));
  }

  // RotateIfNeeded.
  ghost function Rotated(files: Files): Files {
    if |files| <= MAX_FILES then files else files - {Oldest(files.Keys)}
  }

  function Written(files: Files, date: string, line: string): Files {
    files[date := (if date in files then files[date] else []) + [line]]
  }

  // AppendLine.
  ghost function Appended(files: Files, date: string, line: string): Files {
    Written(Rotated(files), date, line)
  }

  // ---- Listing a directory in name order ----

  ghost predicate Sorted(names: seq<string>) {
    forall i, j :: 0 <= i < j < |names| ==> Less(names[i], names[j])
  }

  ghost predicate Lists(names: seq<string>, keys: set<string>) {
    Sorted(names) && (forall n :: n in names <==> n in keys)
  }

  lemma {:induction false} ListingIsUnique(xs: seq<string>, ys: seq<string>, keys: set<string>)
    requires Lists(xs, keys) && Lists(ys, keys)
    ensures xs == ys
    decreases |xs|
  {
    ListingSize(xs, keys);
    ListingSize(ys, keys);
    if xs != [] {
      assert xs[|xs| - 1] in keys;
      var x, y := xs[|xs| - 1], ys[|ys| - 1];
      LastIsGreatest(xs, y, keys);
      LastIsGreatest(ys, x, keys);
      Trichotomy(x, y);
      DropLast(xs, keys);
      DropLast(ys, keys);
      ListingIsUnique(xs[..|xs| - 1], ys[..|ys| - 1], keys - {x});
      assert xs == xs[..|xs| - 1] + [x] && ys == ys[..|ys| - 1] + [y];
    }
  }

  lemma LastIsGreatest(xs: seq<string>, n: string, keys: set<string>)
    requires Lists(xs, keys) && xs != [] && n in keys
    ensures AtMost(n, xs[|xs| - 1])
  {
    var i :| 0 <= i < |xs| && xs[i] == n;
  }

  lemma DropLast(xs: seq<string>, keys: set<string>)
    requires Lists(xs, keys) && xs != []
    ensures Lists(xs[..|xs| - 1], keys - {xs[|xs| - 1]})
  {
    var init, x := xs[..|xs| - 1], xs[|xs| - 1];
    forall n ensures n in init <==> n in keys - {x} {
      if n in init {
        var i :| 0 <= i < |init| && init[i] == n;
        assert Less(xs[i], x);
        Trichotomy(n, x);
      }
      if n in keys - {x} {
        var i :| 0 <= i < |xs| && xs[i] == n;
        assert init[i] == n;
      }
    }
  }

  lemma ListingSize(xs: seq<string>, keys: set<string>)
    requires Lists(xs, keys)
    ensures |xs| == |keys|
    decreases |xs|
  {
    if xs == [] {
      assert keys == {};
    } else {
      assert xs[|xs| - 1] in keys;
      DropLast(xs, keys);
      ListingSize(xs[..|xs| - 1], keys - {xs[|xs| - 1]});
    }
  }

  function Contents(files: Files, names: seq<string>): seq<string>
    requires forall n <- names :: n in files
  {
    if names == [] then [] else Contents(files, names[..|names| - 1]) + files[names[|names| - 1]]
  }

  lemma {:induction false} ContentsDependOnNames(f: Files, g: Files, names: seq<string>)
    requires forall n <- names :: n in f && n in g && f[n] == g[n]
    ensures Contents(f, names) == Contents(g, names)
  {
    if names != [] { ContentsDependOnNames(f, g, names[..|names| - 1]); }
  }

  // ---- Histories ----

  datatype Entry = Entry(date: string, line: string)

  predicate Chronological(h: seq<Entry>) {
    forall i, j :: 0 <= i < j < |h| ==> AtMost(h[i].date, h[j].date)
  }

  function Lines(h: seq<Entry>): (ls: seq<string>)
    ensures |ls| == |h| && forall i :: 0 <= i < |h| ==> ls[i] == h[i].line
  {
    seq(|h|, i requires 0 <= i < |h| => h[i].line)
  }

  // Every entry in the file of its date.
  function Grouped(h: seq<Entry>): Files {
    if h == [] then map[]
    else Written(Grouped(h[..|h| - 1]), h[|h| - 1].date, h[|h| - 1].line)
  }

  // The dates that occur, in order of first occurrence.
  function DatesOf(h: seq<Entry>): seq<string> {
    if h == [] then []
    else
      var before, d := DatesOf(h[..|h| - 1]), h[|h| - 1].date;
      if before != [] && before[|before| - 1] == d then before else before + [d]
  }

  // The directory after a whole history of appends, starting empty.
  ghost function After(h: seq<Entry>): Files {
    if h == [] then map[]
    else Appended(After(h[..|h| - 1]), h[|h| - 1].date, h[|h| - 1].line)
  }

  // The names list the files, the last one is the date written last, and reading in this order gives back
  // the history.
  ghost predicate Indexes(names: seq<string>, files: Files, h: seq<Entry>) {
    && Lists(names, files.Keys)
    && (forall n <- names :: n in files)
    && (if h == [] then names == [] else names != [] && names[|names| - 1] == h[|h| - 1].date)
    && Contents(files, names) == Lines(h)
  }

  lemma {:induction false} GroupsAndDates(h: seq<Entry>)
    requires Chronological(h)
    ensures Indexes(DatesOf(h), Grouped(h), h)
  {
    hide Indexes, Written;
    if h == [] {
      EmptyIndex();
    } else {
      var init, e := h[..|h| - 1], h[|h| - 1];
      InitIsChronological(h);
      GroupsAndDates(init);
      assert h == init + [e];
      var names := DatesOf(init);
      if names != [] && names[|names| - 1] == e.date {
        SameDate(names, Grouped(init), init, e);
      } else {
        NewDate(names, Grouped(init), init, e);
      }
    }
  }

  lemma EmptyIndex()
    ensures Indexes([], map[], [])
  {
  }

  lemma InitIsChronological(h: seq<Entry>)
    requires Chronological(h) && h != []
    ensures Chronological(h[..|h| - 1])
  {
  }

  lemma SameDate(names: seq<string>, files: Files, h: seq<Entry>, e: Entry)
    requires Indexes(names, files, h) && names != [] && names[|names| - 1] == e.date
    ensures Indexes(names, Written(files, e.date, e.line), h + [e])
  {
    hide Sorted;
    var init, files' := names[..|names| - 1], Written(files, e.date, e.line);
    assert e.date in names && files'.Keys == files.Keys;
    LastIsNotBefore(names, files.Keys);
    ContentsDependOnNames(files, files', init);
    assert Contents(files', names) == Contents(files, init) + (files[e.date] + [e.line]);
    assert Contents(files', names) == Contents(files, names) + [e.line];
    assert Lines(h + [e]) == Lines(h) + [e.line];
  }

  lemma LastIsNotBefore(names: seq<string>, keys: set<string>)
    requires Lists(names, keys) && names != []
    ensures names[|names| - 1] !in names[..|names| - 1]
  {
    var last := names[|names| - 1];
    forall i | 0 <= i < |names| - 1 ensures names[i] != last {
      assert Less(names[i], last);
      Trichotomy(last, last);
    }
  }

  // A date other than the last one is later than all.
  lemma NewDate(names: seq<string>, files: Files, h: seq<Entry>, e: Entry)
    requires Indexes(names, files, h) && Chronological(h + [e])
    requires names == [] || names[|names| - 1] != e.date
    ensures Indexes(names + [e.date], Written(files, e.date, e.line), h + [e])
  {
    NewDateIsLater(names, files, h, e);
    assert e.date in names <==> e.date in files.Keys;
    ListsExtends(names, files.Keys, e.date);
    ContentsExtend(names, files, e);
    hide Lists, Chronological, Contents;
    assert Written(files, e.date, e.line).Keys == files.Keys + {e.date};
    assert Lines(h + [e]) == Lines(h) + [e.line];
  }

  lemma ContentsExtend(names: seq<string>, files: Files, e: Entry)
    requires (forall n <- names :: n in files) && e.date !in files
    ensures var files' := Written(files, e.date, e.line);
      && (forall n <- names + [e.date] :: n in files')
      && Contents(files', names + [e.date]) == Contents(files, names) + [e.line]
  {
    var longer, files' := names + [e.date], Written(files, e.date, e.line);
    ContentsDependOnNames(files, files', names);
    assert longer[..|longer| - 1] == names && files'[e.date] == [e.line];
  }

  lemma ListsExtends(names: seq<string>, keys: set<string>, d: string)
    requires Lists(names, keys) && forall i :: 0 <= i < |names| ==> Less(names[i], d)
    ensures Lists(names + [d], keys + {d})
  {
    assert forall n :: n in names + [d] <==> n in names || n == d;
  }

  lemma NewDateIsLater(names: seq<string>, files: Files, h: seq<Entry>, e: Entry)
    requires Indexes(names, files, h) && Chronological(h + [e])
    requires names == [] || names[|names| - 1] != e.date
    ensures forall i :: 0 <= i < |names| ==> Less(names[i], e.date)
    ensures e.date !in names
  {
    forall i | 0 <= i < |names| ensures Less(names[i], e.date) && names[i] != e.date {
      assert AtMost((h + [e])[|h| - 1].date, (h + [e])[|h|].date);
      assert names[i] in files.Keys;
      LastIsGreatest(names, names[i], files.Keys);
      LaterOrEqual(names[i], names[|names| - 1], e.date);
    }
  }

  lemma LaterOrEqual(a: string, b: string, c: string)
    requires AtMost(a, b) && AtMost(b, c) && b != c
    ensures Less(a, c) && a != c
  {
    if a != b { Transitive(a, b, c); }
    Trichotomy(c, c);
  }

  lemma {:induction false} DropBlock(a: seq<Entry>, d: string, b: seq<Entry>)
    requires (forall e <- a :: e.date == d) && (forall e <- b :: e.date != d)
    ensures Grouped(a + b) - {d} == Grouped(b)
    decreases |a| + |b|
  {
    if b != [] {
      var init, e := b[..|b| - 1], b[|b| - 1];
      DropBlock(a, d, init);
      assert (a + b)[..|a + b| - 1] == a + init;
    } else if a != [] {
      DropBlock(a[..|a| - 1], d, []);
      assert (a + b)[..|a + b| - 1] == a[..|a| - 1] + [];
    } else {
      assert a + b == [];
    }
  }

  // What survives of a history: its entries from cut on, at a date boundary.
  ghost predicate Kept(h: seq<Entry>, cut: nat, files: Files) {
    && cut <= |h|
    && files == Grouped(h[cut..])
    && (0 < cut < |h| ==> Less(h[cut - 1].date, h[cut].date))
    && (cut > 0 ==> |files| >= MAX_FILES && cut < |h|)
    && |files| <= MAX_FILES + 1
    && (|h| >= 2 && h[|h| - 2].date == h[|h| - 1].date ==> |files| <= MAX_FILES)
  }

  lemma {:induction false} KeysAreDates(h: seq<Entry>, n: string)
    ensures n in Grouped(h) <==> exists i :: 0 <= i < |h| && h[i].date == n
  {
    if h != [] {
      var init := h[..|h| - 1];
      KeysAreDates(init, n);
      if i :| 0 <= i < |init| && init[i].date == n { assert h[i].date == n; }
      if i :| 0 <= i < |h| && h[i].date == n {
        if i < |init| { assert init[i].date == n; }
      }
      assert h[|h| - 1].date in Grouped(h);
    }
  }

  lemma {:induction false} OneDate(h: seq<Entry>, d: string)
    requires forall e <- h :: e.date == d
    ensures Grouped(h).Keys <= {d}
  {
    if h != [] { OneDate(h[..|h| - 1], d); }
  }

  lemma FirstDateIsOldest(h: seq<Entry>)
    requires Chronological(h) && h != []
    ensures h[0].date in Grouped(h)
    ensures Grouped(h) != map[] && Oldest(Grouped(h).Keys) == h[0].date
  {
    var keys := Grouped(h).Keys;
    KeysAreDates(h, h[0].date);
    forall n | n in keys ensures AtMost(h[0].date, n) {
      KeysAreDates(h, n);
      var i :| 0 <= i < |h| && h[i].date == n;
    }
    OldestIs(keys, h[0].date);
  }

  // The entries of the first date form a block at the front.
  lemma {:induction false} BlockEnd(h: seq<Entry>, d: string, n: nat) returns (m: nat)
    requires Chronological(h) && n < |h| && (forall i :: 0 <= i < n ==> h[i].date == d)
    requires h[0].date == d && !(forall e <- h :: e.date == d)
    ensures 0 < m < |h| && (forall e <- h[..m] :: e.date == d)
    ensures Less(d, h[m].date) && (forall e <- h[m..] :: e.date != d)
    decreases |h| - n
  {
    if h[n].date != d {
      m := n;
      assert AtMost(h[0].date, h[n].date);
      forall i | n <= i < |h| ensures h[i].date != d {
        assert i > n ==> AtMost(h[n].date, h[i].date);
        LaterStaysLater(d, h[n].date, h[i].date);
      }
    } else {
      if n + 1 == |h| { assert forall e <- h :: e.date == d; }
      m := BlockEnd(h, d, n + 1);
    }
  }

  lemma LaterStaysLater(a: string, b: string, c: string)
    ensures Less(a, b) && AtMost(b, c) ==> Less(a, c) && a != c
    ensures AtMost(a, b) && a != b ==> Less(a, b)
  {
    if Less(a, b) && Less(b, c) { Transitive(a, b, c); }
    Trichotomy(a, a);
  }

  // One rotation moves the cut past the oldest date.
  lemma CutOldest(h: seq<Entry>, cut: nat) returns (cut': nat)
    requires Chronological(h) && cut <= |h| && |Grouped(h[cut..])| > MAX_FILES
    ensures cut < cut' < |h| && Less(h[cut' - 1].date, h[cut'].date)
    ensures Rotated(Grouped(h[cut..])) == Grouped(h[cut'..])
  {
    hide Grouped, Chronological, Less;
    var tail := h[cut..];
    TailIsChronological(h, cut);
    var d := tail[0].date;
    ManyFilesManyDates(tail, d);
    var n := BlockEnd(tail, d, 0);
    cut' := cut + n;
    assert h[cut' - 1] == tail[n - 1] && tail[n - 1] in tail[..n];
    assert tail[n..] == h[cut'..];
    RotationDropsBlock(tail, n);
  }

  lemma RotationDropsBlock(h: seq<Entry>, n: nat)
    requires Chronological(h) && n < |h| && |Grouped(h)| > MAX_FILES
    requires (forall e <- h[..n] :: e.date == h[0].date) && (forall e <- h[n..] :: e.date != h[0].date)
    ensures Rotated(Grouped(h)) == Grouped(h[n..])
  {
    hide Grouped, Chronological, AtMost;
    FirstDateIsOldest(h);
    assert h[..n] + h[n..] == h;
    DropBlock(h[..n], h[0].date, h[n..]);
  }

  lemma ManyFilesManyDates(h: seq<Entry>, d: string)
    requires |Grouped(h)| > 1
    ensures !(forall e <- h :: e.date == d)
  {
    hide Grouped;
    if forall e <- h :: e.date == d {
      OneDate(h, d);
      SmallSet(Grouped(h).Keys, d);
    }
  }

  lemma SmallSet(names: set<string>, d: string)
    requires names <= {d}
    ensures |names| <= 1
  {
    if d in names { assert names == {d}; } else { assert names == {}; }
  }

  lemma TailIsChronological(h: seq<Entry>, cut: nat)
    requires Chronological(h) && cut <= |h| && Grouped(h[cut..]) != map[]
    ensures Chronological(h[cut..]) && h[cut..] != []
  {
    forall i, j | 0 <= i < j < |h| - cut ensures AtMost(h[cut..][i].date, h[cut..][j].date) {
      assert AtMost(h[cut + i].date, h[cut + j].date);
    }
  }

  // Main result: after any chronological run of appends the directory holds, by date, exactly the entries
  // from a date boundary on; nothing is dropped before seven later dates exist; there are at most eight
  // files, and at most seven after a second write on one date.
  lemma {:induction false} RetentionOverRuns(h: seq<Entry>) returns (cut: nat)
    requires Chronological(h)
    ensures Kept(h, cut, After(h))
  {
    if h == [] {
      cut := 0;
    } else {
      hide Grouped, Written, AtMost, Less;
      var init := h[..|h| - 1];
      cut := RetentionOverRuns(init);
      if |After(init)| > MAX_FILES {
        RotationSize(After(init));
        cut := CutOldest(init, cut);
      }
      WrittenExtends(h, cut, Rotated(After(init)));
    }
  }

  lemma RotationSize(files: Files)
    requires |files| == MAX_FILES + 1
    ensures |Rotated(files)| == MAX_FILES
  {
    var o := Oldest(files.Keys);
    assert (files - {o}).Keys == files.Keys - {o};
    assert |files.Keys| == |files| && |(files - {o}).Keys| == |files - {o}|;
  }

  lemma WrittenExtends(h: seq<Entry>, cut: nat, files: Files)
    requires Chronological(h) && h != []
    requires var init := h[..|h| - 1];
      && cut <= |init| && files == Grouped(init[cut..]) && |files| <= MAX_FILES
      && (0 < cut < |init| ==> Less(init[cut - 1].date, init[cut].date))
      && (cut > 0 ==> |files| >= MAX_FILES && cut < |init|)
    ensures Kept(h, cut, Written(files, h[|h| - 1].date, h[|h| - 1].line))
  {
    var init, e := h[..|h| - 1], h[|h| - 1];
    var files' := Written(files, e.date, e.line);
    assert h[cut..] == init[cut..] + [e];
    assert h[cut..][..|h[cut..]| - 1] == init[cut..];
    WrittenSize(files, e);
    if |h| >= 2 && h[|h| - 2].date == e.date {
      assert init[cut..][|init| - 1 - cut].date == e.date;
      KeysAreDates(init[cut..], e.date);
    }
  }

  lemma WrittenSize(files: Files, e: Entry)
    ensures |Written(files, e.date, e.line)| == |files| + (if e.date in files then 0 else 1)
  {
    var files' := Written(files, e.date, e.line);
    assert files'.Keys == files.Keys + {e.date};
    assert |files'.Keys| == |files'| && |files.Keys| == |files|;
  }

  // Rotation comes before writing, so the first write of a new date can leave eight files: the limit of
  // seven is met exactly when the directory held fewer or the date had a file already.
  lemma SevenFilesIff(files: Files, date: string, line: string)
    requires |files| <= MAX_FILES + 1 && forall n <- files :: AtMost(n, date)
    ensures |Appended(files, date, line)| <= MAX_FILES <==> |files| < MAX_FILES || date in files
  {
    assert |files.Keys| == |files|;
    if |files| > MAX_FILES {
      RotationSize(files);
      var o := Oldest(files.Keys);
      if o == date {
        forall n | n in files ensures n == date { Trichotomy(n, date); }
        SmallSet(files.Keys, date);
      }
    }
    WrittenSize(Rotated(files), Entry(date, line));
  }

  lemma EightFilesHappen()
    ensures var files: Files := map[
      "2024-01-01" := [], "2024-01-02" := [], "2024-01-03" := [], "2024-01-04" := [],
      "2024-01-05" := [], "2024-01-06" := [], "2024-01-07" := []];
      |Appended(files, "2024-01-08", "x")| == 8
  {
    var files: Files := map[
      "2024-01-01" := [], "2024-01-02" := [], "2024-01-03" := [], "2024-01-04" := [],
      "2024-01-05" := [], "2024-01-06" := [], "2024-01-07" := []];
    assert |files| == 7;
    WrittenSize(files, Entry("2024-01-08", "x"));
  }

  // What ReadAllLines makes of the directory.
  lemma ReadBack(h: seq<Entry>, cut: nat, names: seq<string>)
    requires Chronological(h) && cut <= |h| && Lists(names, Grouped(h[cut..]).Keys)
    ensures forall n <- names :: n in Grouped(h[cut..])
    ensures Contents(Grouped(h[cut..]), names) == Lines(h[cut..])
  {
    var tail := h[cut..];
    assert Chronological(tail) by {
      forall i, j | 0 <= i < j < |tail| ensures AtMost(tail[i].date, tail[j].date) {
        assert AtMost(h[cut + i].date, h[cut + j].date);
      }
    }
    GroupsAndDates(tail);
    ListingIsUnique(names, DatesOf(tail), Grouped(tail).Keys);
  }

  lemma {:induction false} KeepOldestFirst(names: seq<string>, keys: set<string>)
    requires keys != {} && Lists(names, keys - {Oldest(keys)})
    ensures Lists([Oldest(keys)] + names, keys)
  {
    var o := Oldest(keys);
    forall i | 0 <= i < |names| ensures Less(o, names[i]) {
      assert names[i] in keys - {o};
    }
  }

  // The names of a directory in order.
  ghost function Listing(keys: set<string>): (names: seq<string>)
    ensures Lists(names, keys)
    decreases |keys|
  {
    if keys == {} then [] else
    var rest := Listing(keys - {Oldest(keys)});
    KeepOldestFirst(rest, keys);
    [Oldest(keys)] + rest
  }

  // ReadAllLines, as a function of the directory.
  ghost function AllLines(files: Files): seq<string> {
    Contents(files, Listing(files.Keys))
  }

  // After any chronological run, reading everything gives a date-aligned suffix of all lines ever appended.
  lemma SuffixIsReadBack(h: seq<Entry>) returns (cut: nat)
    requires Chronological(h)
    ensures Kept(h, cut, After(h))
    ensures AllLines(After(h)) == Lines(h[cut..])
  {
    hide After, Kept, Grouped, Chronological;
    cut := RetentionOverRuns(h);
    KeptIsGrouped(h, cut);
    ReadBack(h, cut, Listing(After(h).Keys));
  }

  lemma KeptIsGrouped(h: seq<Entry>, cut: nat)
    requires Kept(h, cut, After(h))
    ensures cut <= |h| && After(h) == Grouped(h[cut..])
  {
  }

  // A clock that never runs backwards: the file names of valid dates in order are in order.
  lemma OrderedDatesAreChronological(days: seq<Date>, h: seq<Entry>)
    requires |h| == |days| && forall i :: 0 <= i < |h| ==> days[i].Valid() && h[i].date == DateString(days[i])
    requires forall i, j :: 0 <= i < j < |days| ==> !days[j].Before(days[i])
    ensures Chronological(h)
  {
    hide Less, DateString;
    forall i, j | 0 <= i < j < |h| ensures AtMost(h[i].date, h[j].date) {
      NamesAreChronological(days[i], days[j]);
    }
  }
}
