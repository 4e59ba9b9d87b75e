/** The text of a stored line: what the stream operators of data_collection.cpp print and sscanf reads back. */
module TextLines {
  import opened Bytes
  import opened Wrappers
  import opened Dates
  import opened Records

  function DigitChar(d: nat): char
    requires d < 10
  {
    '0' + d as char
  }

  predicate IsDigit(c: char) { '0' <= c <= '9' }

  function Digits(n: nat): (s: string)
    ensures s != [] && forall c <- s :: IsDigit(c)
  {
    if n < 10 then [DigitChar(n)] else Digits(n / 10) + [DigitChar(n % 10)]
  }

  // operator<< of an integer.
  function Decimal(v: int): (s: string)
    ensures s != []
  {
    if v < 0 then "-" + Digits(-v) else Digits(v)
  }

  // Values separated by commas.
  function Line(values: seq<int>): (s: string)
    requires values != []
    ensures s != ""
  {
    if |values| == 1 then Decimal(values[0]) else Decimal(values[0]) + "," + Line(values[1..])
  }

  // A number is written in decimal digits without leading zeros, a negative one behind a minus sign.
  lemma {:induction false} DigitsAreRead(n: nat)
    ensures AllDigits(Digits(n)) && ReadDecimal(Digits(n)) == n
    ensures n > 0 ==> Digits(n)[0] != '0'
  {
    if n < 10 {
      assert ReadDecimal("") == 0 && Digits(n)[..0] == "";
    } else {
      DigitsAreRead(n / 10);
      var s := Digits(n);
      assert s[..|s| - 1] == Digits(n / 10);
    }
  }

  // ---- sscanf with n integer conversions separated by commas ----

  function SkipSpaces(s: string): string {
    if s != [] && s[0] in " \t\n\r\U{0B}\U{0C}" then SkipSpaces(s[1..]) else s
  }

  function ScanDigits(s: string, value: int): (int, string)
    decreases |s|
  {
    if s != [] && IsDigit(s[0]) then ScanDigits(s[1..], 10 * value + (s[0] - '0') as int) else (value, s)
  }

  // One conversion: the value and the rest of the input.
  function ScanInteger(s: string): Option<(int, string)> {
    var t := SkipSpaces(s);
    var negative := t != [] && t[0] == '-';
    var u := if t != [] && (t[0] == '-' || t[0] == '+') then t[1..] else t;
    if u == [] || !IsDigit(u[0]) then None else
    var (value, rest) := ScanDigits(u, 0);
    Some((if negative then -value else value, rest))
  }

  // The values assigned; their number is sscanf's result (zero standing for EOF too).
  function Scan(s: string, n: nat): seq<int>
    decreases n
  {
    if n == 0 then [] else
    match ScanInteger(s)
    case None => []
    case Some((value, rest)) =>
      if n == 1 || rest == [] || rest[0] != ',' then [value] else [value] + Scan(rest[1..], n - 1)
  }

  lemma {:induction false} ScanPrintedDigits(n: nat, rest: string)
    ensures ScanDigits(Digits(n) + rest, 0) == ScanDigits(rest, n)
  {
    if n < 10 {
      assert (Digits(n) + rest)[1..] == rest;
    } else {
      var tail := [DigitChar(n % 10)] + rest;
      assert Digits(n) + rest == Digits(n / 10) + tail;
      ScanPrintedDigits(n / 10, tail);
      assert tail[1..] == rest;
    }
  }

  lemma ScanPrintedInteger(v: int, rest: string)
    requires rest == [] || rest[0] == ','
    ensures ScanInteger(Decimal(v) + rest) == Some((v, rest))
  {
    var s := Decimal(v) + rest;
    var n := if v < 0 then -v else v;
    assert Digits(n)[0] in Digits(n);
    ScanPrintedDigits(n, rest);
    assert SkipSpaces(s) == s;
    assert v < 0 ==> s[1..] == Digits(n) + rest;
    assert (Digits(n) + rest)[0] == Digits(n)[0];
  }

  // Main result: a printed line scans back to the values it was printed from, however many more
  // conversions the format has.
  lemma {:induction false} ScanPrintedLine(values: seq<int>, n: nat)
    requires 0 < |values| <= n
    ensures Scan(Line(values), n) == values
    decreases n
  {
    hide Decimal, ScanInteger;
    if |values| == 1 {
      assert Decimal(values[0]) + [] == Decimal(values[0]);
      ScanPrintedInteger(values[0], []);
    } else {
      var rest := "," + Line(values[1..]);
      assert Line(values) == Decimal(values[0]) + rest;
      ScanPrintedInteger(values[0], rest);
      assert rest[1..] == Line(values[1..]);
      ScanPrintedLine(values[1..], n - 1);
    }
  }

  // ---- The two line shapes ----

  // (uint32_t)v and so on.
  function To32(v: int): U32 { v % 0x1_0000_0000 }
  function To16(v: int): U16 { v % 0x1_0000 }
  function To8(v: int): byte { (v % 0x100) as byte }

  function MeasurementValues(m: Measurement): seq<int> {
    [m.timestamp, m.temperature, m.humidity as int, m.light, m.batteryVoltage, m.mode as int]
  }

  function MeasurementLine(m: Measurement): string { Line(MeasurementValues(m)) }

  function EventValues(e: Event): seq<int> {
    [e.timestamp, e.eventType as int, e.eventSource as int] +
    match e.measurement
    case None => []
    case Some(m) => [m.temperature, m.humidity as int, m.light, m.batteryVoltage, m.mode as int]
  }

  function EventLine(e: Event): string { Line(EventValues(e)) }

  function ParseMeasurement(line: string): Option<Measurement> {
    var v := Scan(line, 6);
    if |v| != 6 then None
    else Some(Measurement(To32(v[0]), ToSigned16(To16(v[1])), To8(v[2]), To16(v[3]), To16(v[4]), To8(v[5])))
  }

  function ParseEvent(line: string): Option<Event> {
    var v := Scan(line, 8);
    if |v| == 8 then
      var m := Measurement(To32(v[0]), ToSigned16(To16(v[3])), To8(v[4]), To16(v[5]), To16(v[6]), To8(v[7]));
      Some(Event(To32(v[0]), To8(v[1]), To8(v[2]), Some(m)))
    else if |v| == 3 then Some(Event(To32(v[0]), To8(v[1]), To8(v[2]), None))
    else None
  }

  // The lines, value by value.
  lemma MeasurementIsWritten(m: Measurement)
    ensures MeasurementLine(m) ==
      Decimal(m.timestamp) + "," + (Decimal(m.temperature) + "," + (Decimal(m.humidity as int) + "," +
      (Decimal(m.light) + "," + (Decimal(m.batteryVoltage) + "," + Decimal(m.mode as int)))))
  {
    hide Decimal;
    var v := MeasurementValues(m);
    assert v[0..] == v;
    LineFrom(v, 0);
    LineFrom(v, 1);
    LineFrom(v, 2);
    LineFrom(v, 3);
    LineFrom(v, 4);
    LineFrom(v, 5);
    hide Line;
  }

  lemma EventIsWritten(e: Event)
    ensures EventLine(e) ==
      Decimal(e.timestamp) + "," + (Decimal(e.eventType as int) + "," + (Decimal(e.eventSource as int) +
      if e.measurement == None then "" else
        var m := e.measurement.value;
        "," + (Decimal(m.temperature) + "," + (Decimal(m.humidity as int) + "," + (Decimal(m.light) + "," +
        (Decimal(m.batteryVoltage) + "," + Decimal(m.mode as int)))))))
  {
    hide Decimal;
    var v := EventValues(e);
    assert v[0..] == v;
    LineFrom(v, 0);
    LineFrom(v, 1);
    LineFrom(v, 2);
    if e.measurement.Some? {
      LineFrom(v, 3);
      LineFrom(v, 4);
      LineFrom(v, 5);
      LineFrom(v, 6);
      LineFrom(v, 7);
    }
    hide Line;
  }

  lemma LineFrom(v: seq<int>, k: nat)
    requires k < |v|
    ensures k == |v| - 1 ==> Line(v[k..]) == Decimal(v[k])
    ensures k < |v| - 1 ==> Line(v[k..]) == Decimal(v[k]) + "," + Line(v[k + 1..])
    ensures k == |v| - 1 ==> Line(v[k..]) == Decimal(v[k]) + ""
  {
    hide Decimal;
    assert v[k..][1..] == v[k + 1..];
  }

  lemma MeasurementLineRoundTrip(m: Measurement)
    ensures ParseMeasurement(MeasurementLine(m)) == Some(m)
  {
    hide Scan, Line;
    ScanPrintedLine(MeasurementValues(m), 6);
  }

  // Events with and without a measurement are never confused.
  lemma EventLineRoundTrip(e: Event)
    requires Stamped(e)
    ensures ParseEvent(EventLine(e)) == Some(e)
  {
    hide Scan, Line;
    ScanPrintedLine(EventValues(e), 8);
  }
}
