/** File names: "YYYY-MM-DD" strings and their order. */
module Dates {
  // operator< of std::string.
  predicate Less(a: string, b: string) {
    if b == "" then false
    else if a == "" then true
    else if a[0] != b[0] then a[0] < b[0]
    else Less(a[1..], b[1..])
  }

  predicate AtMost(a: string, b: string) { a == b || Less(a, b) }

  lemma {:induction false} Trichotomy(a: string, b: string)
    ensures a == b || Less(a, b) || Less(b, a)
    ensures !(Less(a, b) && Less(b, a)) && !Less(a, a)
  {
    if a != "" {
      if b != "" && a[0] == b[0] {
        Trichotomy(a[1..], b[1..]);
        assert a == [a[0]] + a[1..] && b == [b[0]] + b[1..];
      }
      Trichotomy(a[1..], a[1..]);
    }
  }

  lemma {:induction false} Transitive(a: string, b: string, c: string)
    requires Less(a, b) && Less(b, c)
    ensures Less(a, c)
  {
    if a != "" && a[0] == b[0] == c[0] { Transitive(a[1..], b[1..], c[1..]); }
  }

  datatype Date = Date(year: nat, month: nat, day: nat) {
    predicate Valid() { year < 10000 && 1 <= month <= 12 && 1 <= day <= 31 }

    predicate Before(other: Date) {
      year < other.year || (year == other.year && (month < other.month || (month == other.month && day < other.day)))
    }
  }

  function Digit(d: nat): char { '0' + (d % 10) as char }

  // "%0kd" for a number of at most k digits.
  function Padded(n: nat, k: nat): (s: string)
    ensures |s| == k
  {
    if k == 0 then "" else Padded(n / 10, k - 1) + [Digit(n)]
  }

  function Power10(k: nat): nat { if k == 0 then 1 else 10 * Power10(k - 1) }

  // TodayDateString.
  function DateString(d: Date): string {
    Padded(d.year, 4) + "-" + Padded(d.month, 2) + "-" + Padded(d.day, 2)
  }

  predicate AllDigits(s: string) { forall i :: 0 <= i < |s| ==> '0' <= s[i] <= '9' }

  // The number that the digits write in decimal.
  function ReadDecimal(s: string): nat
    requires AllDigits(s)
  {
    if s == "" then 0 else 10 * ReadDecimal(s[..|s| - 1]) + (s[|s| - 1] as int - '0' as int)
  }

  lemma {:induction false} PaddedReads(n: nat, k: nat)
    requires n < Power10(k)
    ensures AllDigits(Padded(n, k)) && ReadDecimal(Padded(n, k)) == n
  {
    if k > 0 {
      PaddedReads(n / 10, k - 1);
      assert Padded(n, k)[..k - 1] == Padded(n / 10, k - 1);
      assert Padded(n, k)[k - 1] as int - '0' as int == n % 10;
    }
  }

  // A date is named by its year, month and day, in four, two and two decimal digits with dashes between.
  lemma DateIsWritten(d: Date)
    requires d.Valid()
    ensures var s := DateString(d);
      && |s| == 10 && s[4] == '-' && s[7] == '-'
      && AllDigits(s[..4]) && ReadDecimal(s[..4]) == d.year
      && AllDigits(s[5..7]) && ReadDecimal(s[5..7]) == d.month
      && AllDigits(s[8..]) && ReadDecimal(s[8..]) == d.day
  {
    assert Power10(2) == 100 && Power10(4) == 10000;
    PaddedReads(d.year, 4);
    PaddedReads(d.month, 2);
    PaddedReads(d.day, 2);
    PartsOf(Padded(d.year, 4), Padded(d.month, 2), Padded(d.day, 2));
    hide Padded, ReadDecimal, AllDigits;
  }

  lemma PartsOf(a: string, b: string, c: string)
    requires |a| == 4 && |b| == 2 && |c| == 2
    ensures var s := a + "-" + b + "-" + c;
      s[..4] == a && s[4] == '-' && s[5..7] == b && s[7] == '-' && s[8..] == c
  {
  }

  // Comparing strings that agree in length goes front to back.
  lemma {:induction false} LessConcat(a: string, b: string, x: string, y: string)
    requires |a| == |b|
    ensures Less(a + x, b + y) <==> Less(a, b) || (a == b && Less(x, y))
  {
    if a == "" {
      assert a + x == x && b + y == y;
    } else {
      assert (a + x)[1..] == a[1..] + x && (b + y)[1..] == b[1..] + y;
      LessConcat(a[1..], b[1..], x, y);
      assert a == [a[0]] + a[1..] && b == [b[0]] + b[1..];
    }
  }

  lemma {:induction false} PaddedOrder(m: nat, n: nat, k: nat)
    requires m < Power10(k) && n < Power10(k)
    ensures Less(Padded(m, k), Padded(n, k)) <==> m < n
    ensures Padded(m, k) == Padded(n, k) <==> m == n
  {
    if k > 0 {
      PaddedOrder(m / 10, n / 10, k - 1);
      LessConcat(Padded(m / 10, k - 1), Padded(n / 10, k - 1), [Digit(m)], [Digit(n)]);
      assert [Digit(m)][1..] == "" && [Digit(n)][1..] == "";
      var a, b := Padded(m, k), Padded(n, k);
      assert a[..k - 1] == Padded(m / 10, k - 1) && b[..k - 1] == Padded(n / 10, k - 1);
      assert a[k - 1] == Digit(m) && b[k - 1] == Digit(n);
    }
  }

  // Main result: the order of file names is the order of dates.
  lemma NamesAreChronological(d: Date, e: Date)
    requires d.Valid() && e.Valid()
    ensures Less(DateString(d), DateString(e)) <==> d.Before(e)
    ensures DateString(d) == DateString(e) <==> d == e
  {
    hide Padded, Less;
    assert Power10(2) == 100 && Power10(4) == 10000;
    PaddedOrder(d.year, e.year, 4);
    PaddedOrder(d.month, e.month, 2);
    PaddedOrder(d.day, e.day, 2);
    var x, y := Padded(d.month, 2) + "-" + Padded(d.day, 2), Padded(e.month, 2) + "-" + Padded(e.day, 2);
    Dashed(Padded(d.month, 2), Padded(e.month, 2), Padded(d.day, 2), Padded(e.day, 2));
    Dashed(Padded(d.year, 4), Padded(e.year, 4), x, y);
    assert DateString(d) == Padded(d.year, 4) + "-" + x && DateString(e) == Padded(e.year, 4) + "-" + y;
  }

  lemma Dashed(a: string, b: string, x: string, y: string)
    requires |a| == |b| && |x| == |y|
    ensures Less(a + "-" + x, b + "-" + y) <==> Less(a, b) || (a == b && Less(x, y))
    ensures a + "-" + x == b + "-" + y <==> a == b && x == y
  {
    LessConcat(a + "-", b + "-", x, y);
    LessConcat(a, b, "-", "-");
    Trichotomy("-", "-");
    var l, r := a + "-" + x, b + "-" + y;
    assert l[..|a|] == a && r[..|b|] == b && l[|a| + 1..] == x && r[|b| + 1..] == y;
    assert (a + "-")[..|a|] == a && (b + "-")[..|b|] == b;
  }
}
