/**
 * The file-name timestamp: System.DateTime formatted with the custom
 * pattern MMddyyyy'_'hh'-'mm'-'ss'.'ff, i.e. two-digit month, two-digit
 * day, four-digit year, '_', two-digit 12-hour hour, '-', minute, '-',
 * second, '.', and hundredths of a second (truncated, not rounded).
 * The pattern has no AM/PM designator.
 */
module DateFormat {
  import opened Wrappers

  /** A clock reading as System.DateTime holds it; ticks counts 100 ns units within the second. */
  datatype Timestamp = Timestamp(year: nat, month: nat, day: nat, hour: nat, minute: nat, second: nat, ticks: nat)
  {
    /** The ranges a DateTime value always satisfies. */
    predicate Valid()
    {
      1 <= year <= 9999 && 1 <= month <= 12 && 1 <= day <= 31 &&
      hour < 24 && minute < 60 && second < 60 && ticks < 10_000_000
    }
  }

  /** The fields the pattern shows, in the order it shows them. */
  datatype Shown = Shown(month: nat, day: nat, year: nat, hour: nat, minute: nat, second: nat, hundredths: nat)
  {
    /** Each field fits its zero-padded width. */
    predicate Fits()
    {
      month < 100 && day < 100 && year < 10000 && hour < 100 &&
      minute < 100 && second < 100 && hundredths < 100
    }
  }

  /** Length of a formatted timestamp. */
  const StampLength: nat := 20

  /** The "hh" specifier: the hour on a 12-hour clock, 12 standing for both midnight and noon. */
  function Hour12(hour: nat): (h: nat)
    ensures 1 <= h <= 12
    ensures h % 12 == hour % 12
  {
    if hour % 12 == 0 then 12 else hour % 12
  }

  /** What the pattern displays of a timestamp. */
  function ShownFields(t: Timestamp): (s: Shown)
    requires t.Valid()
    ensures s.Fits()
  {
    Shown(t.month, t.day, t.year, Hour12(t.hour), t.minute, t.second, t.ticks / 100_000)
  }

  function Digit(n: nat): (c: char)
    requires n < 10
    ensures '0' <= c <= '9'
  {
    ('0' as int + n) as char
  }

  /** A two-digit zero-padded field. */
  function Pad2(n: nat): (s: string)
    requires n < 100
    ensures |s| == 2
  {
    [Digit(n / 10), Digit(n % 10)]
  }

  /** A four-digit zero-padded field. */
  function Pad4(n: nat): (s: string)
    requires n < 10000
    ensures |s| == 4
  {
    Pad2(n / 100) + Pad2(n % 100)
  }

  /** The displayed fields laid out as MMddyyyy_hh-mm-ss.ff. */
  function Render(s: Shown): (r: string)
    requires s.Fits()
    ensures |r| == StampLength
  {
    Pad2(s.month) + Pad2(s.day) + Pad4(s.year) + "_" + Pad2(s.hour) + "-" +
    Pad2(s.minute) + "-" + Pad2(s.second) + "." + Pad2(s.hundredths)
  }

  /** DateTime.ToString("MMddyyyy'_'hh'-'mm'-'ss'.'ff"). */
  function Format(t: Timestamp): (r: string)
    requires t.Valid()
    ensures |r| == StampLength
  {
    Render(ShownFields(t))
  }

  function DigitValue(c: char): (r: Option<nat>)
    ensures r.Some? ==> r.value < 10
  {
    if '0' <= c <= '9' then Some(c as int - '0' as int) else None
  }

  /** The decimal value of a string of digits; None if any character is not a digit. */
  function ParseNumber(s: string): Option<nat>
  {
    if s == [] then Some(0)
    else
      var high :- ParseNumber(s[..|s| - 1]);
      var low :- DigitValue(s[|s| - 1]);
      Some(10 * high + low)
  }

  /** Reads a formatted timestamp back into the fields it shows. */
  function Parse(s: string): Option<Shown>
  {
    if |s| != StampLength || s[8] != '_' || s[11] != '-' || s[14] != '-' || s[17] != '.' then None
    else
      var month :- ParseNumber(s[0..2]);
      var day :- ParseNumber(s[2..4]);
      var year :- ParseNumber(s[4..8]);
      var hour :- ParseNumber(s[9..11]);
      var minute :- ParseNumber(s[12..14]);
      var second :- ParseNumber(s[15..17]);
      var hundredths :- ParseNumber(s[18..20]);
      Some(Shown(month, day, year, hour, minute, second, hundredths))
  }

  lemma ParseNumberSnoc(s: string, c: char)
    ensures ParseNumber(s + [c]) ==
      if ParseNumber(s).Some? && DigitValue(c).Some?
      then Some(10 * ParseNumber(s).value + DigitValue(c).value) else None
  {
    assert (s + [c])[..|s|] == s;
  }

  lemma {:induction false} ParsePad2(n: nat)
    requires n < 100
    ensures ParseNumber(Pad2(n)) == Some(n)
  {
    var s := Pad2(n);
    ParseNumberSnoc([], s[0]);
    assert [s[0]] == [] + [s[0]];
    ParseNumberSnoc([s[0]], s[1]);
    assert s == [s[0]] + [s[1]];
  }

  lemma {:induction false} ParsePad4(n: nat)
    requires n < 10000
    ensures ParseNumber(Pad4(n)) == Some(n)
  {
    var s := Pad4(n);
    var hi, lo := n / 100, n % 100;
    ParsePad2(hi);
    assert s[..2] == Pad2(hi);
    ParseNumberSnoc(s[..2], s[2]);
    assert s[..3] == s[..2] + [s[2]];
    ParseNumberSnoc(s[..3], s[3]);
    assert s == s[..3] + [s[3]];
    assert 10 * (10 * hi + lo / 10) + lo % 10 == n;
  }

  /** Rendering then parsing gives back exactly the displayed fields. */
  lemma {:induction false} ParseRender(s: Shown)
    requires s.Fits()
    ensures Parse(Render(s)) == Some(s)
  {
    var r := Render(s);
    assert r[0..2] == Pad2(s.month);
    assert r[2..4] == Pad2(s.day);
    assert r[4..8] == Pad4(s.year);
    assert r[9..11] == Pad2(s.hour);
    assert r[12..14] == Pad2(s.minute);
    assert r[15..17] == Pad2(s.second);
    assert r[18..20] == Pad2(s.hundredths);
    ParsePad2(s.month);
    ParsePad2(s.day);
    ParsePad4(s.year);
    ParsePad2(s.hour);
    ParsePad2(s.minute);
    ParsePad2(s.second);
    ParsePad2(s.hundredths);
  }

  lemma {:induction false} DigitsOfPad2(x: string)
    requires |x| == 2 && ParseNumber(x).Some?
    ensures ParseNumber(x).value < 100 && Pad2(ParseNumber(x).value) == x
  {
    ParseNumberSnoc([], x[0]);
    assert [x[0]] == [] + [x[0]];
    ParseNumberSnoc([x[0]], x[1]);
    assert x == [x[0]] + [x[1]];
    var hi, lo := DigitValue(x[0]).value, DigitValue(x[1]).value;
    assert ParseNumber(x).value == 10 * hi + lo;
    assert (10 * hi + lo) / 10 == hi && (10 * hi + lo) % 10 == lo;
  }

  lemma {:induction false} DigitsOfPad4(x: string)
    requires |x| == 4 && ParseNumber(x).Some?
    ensures ParseNumber(x).value < 10000 && Pad4(ParseNumber(x).value) == x
  {
    ParseNumberSnoc(x[..3], x[3]);
    assert x == x[..3] + [x[3]];
    ParseNumberSnoc(x[..2], x[2]);
    assert x[..3] == x[..2] + [x[2]];
    DigitsOfPad2(x[..2]);
    DigitsOfPad2(x[2..]);
    var hi, c, d := ParseNumber(x[..2]).value, DigitValue(x[2]).value, DigitValue(x[3]).value;
    ParseNumberSnoc([], x[2]);
    assert [x[2]] == [] + [x[2]];
    ParseNumberSnoc([x[2]], x[3]);
    assert x[2..] == [x[2]] + [x[3]];
    var v := ParseNumber(x).value;
    assert v == 100 * hi + (10 * c + d);
    SplitHundreds(hi, 10 * c + d);
    assert x == x[..2] + x[2..];
  }

  lemma SplitHundreds(hi: nat, lo: nat)
    requires lo < 100
    ensures (100 * hi + lo) / 100 == hi && (100 * hi + lo) % 100 == lo
  {
  }

  /** Parsing then rendering gives back the string: Parse accepts only strings Render produces. */
  lemma {:induction false} RenderParse(s: string)
    requires Parse(s).Some?
    ensures Parse(s).value.Fits() && Render(Parse(s).value) == s
  {
    DigitsOfPad2(s[0..2]);
    DigitsOfPad2(s[2..4]);
    DigitsOfPad4(s[4..8]);
    DigitsOfPad2(s[9..11]);
    DigitsOfPad2(s[12..14]);
    DigitsOfPad2(s[15..17]);
    DigitsOfPad2(s[18..20]);
    var f := Parse(s).value;
    assert f.month == ParseNumber(s[0..2]).value && f.day == ParseNumber(s[2..4]).value;
    assert f.year == ParseNumber(s[4..8]).value && f.hour == ParseNumber(s[9..11]).value;
    assert f.minute == ParseNumber(s[12..14]).value && f.second == ParseNumber(s[15..17]).value;
    assert f.hundredths == ParseNumber(s[18..20]).value;
    assert Render(f) == s[0..2] + s[2..4] + s[4..8] + "_" + s[9..11] + "-" +
                        s[12..14] + "-" + s[15..17] + "." + s[18..20];
    SplitAtSeparators(s);
  }

  lemma SplitAtSeparators(s: string)
    requires |s| == StampLength && s[8] == '_' && s[11] == '-' && s[14] == '-' && s[17] == '.'
    ensures s == s[0..2] + s[2..4] + s[4..8] + "_" + s[9..11] + "-" +
                 s[12..14] + "-" + s[15..17] + "." + s[18..20]
  {
    var t := s[0..2] + s[2..4] + s[4..8] + "_" + s[9..11] + "-" +
             s[12..14] + "-" + s[15..17] + "." + s[18..20];
    assert |t| == |s|;
    forall i | 0 <= i < |s| ensures t[i] == s[i] {
      if i < 8 { assert t[i] == (s[0..2] + s[2..4] + s[4..8])[i]; }
    }
  }

  /** Every formatted timestamp is 20 characters with '_', '-', '-', '.' at positions 8, 11, 14, 17 and reads back to its displayed fields. */
  lemma FormatRoundTrip(t: Timestamp)
    requires t.Valid()
    ensures Parse(Format(t)) == Some(ShownFields(t))
    ensures Format(t)[8] == '_' && Format(t)[11] == '-' && Format(t)[14] == '-' && Format(t)[17] == '.'
  {
    ParseRender(ShownFields(t));
  }

  /** Two timestamps format alike exactly when they show the same fields. */
  lemma FormatEqualIff(t1: Timestamp, t2: Timestamp)
    requires t1.Valid() && t2.Valid()
    ensures Format(t1) == Format(t2) <==> ShownFields(t1) == ShownFields(t2)
  {
    if Format(t1) == Format(t2) {
      FormatRoundTrip(t1);
      FormatRoundTrip(t2);
    }
  }

  /** With no AM/PM designator, a morning reading and the one twelve hours later on the same date format identically. */
  lemma HalfDayApartFormatAlike(t: Timestamp)
    requires t.Valid() && t.hour < 12
    ensures t.(hour := t.hour + 12).Valid()
    ensures Format(t) == Format(t.(hour := t.hour + 12))
  {
  }

  /** Readings in the same hundredth of a second format identically. */
  lemma SameHundredthFormatAlike(t: Timestamp, ticks: nat)
    requires t.Valid() && ticks < 10_000_000 && ticks / 100_000 == t.ticks / 100_000
    ensures Format(t) == Format(t.(ticks := ticks))
  {
  }
}
