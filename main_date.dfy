/** The runner: the command line names a year and a day, and the solution registered under
    that date is run. Each solution is registered under the names of its module
    (`year2024::day05`), which `AoCDate::try_from` turns into a date. */
module Dates {
  import opened Wrappers
  import opened Decimal

  /** `u16::MAX` and `u8::MAX`, the ranges of the two fields of `AoCDate`. */
  const U16_MAX: nat := 65535
  const U8_MAX: nat := 255

  /** `AoCDate(u16, u8)`: a year and a day, compared field by field (derived `PartialEq`). */
  datatype AoCDate = AoCDate(year: nat, day: nat)

  predicate InRange(date: AoCDate)
  {
    date.year <= U16_MAX && date.day <= U8_MAX
  }

  /** `AoCDate::try_from((year, day))`: the first four characters of the year name and the
      first three of the day name are dropped whatever they are, and the rests are parsed as
      a `u16` and a `u8`; either parse failing is `Err(())`. Slicing a shorter name panics. */
  function TryFrom(year: string, day: string): (r: Result<AoCDate, ()>)
    requires |year| >= 4 && |day| >= 3
    ensures r.Ok? ==> InRange(r.value)
  {
    match ParseUnsigned(year[4..], U16_MAX)
    case None => Err(())
    case Some(y) =>
      match ParseUnsigned(day[3..], U8_MAX)
      case None => Err(())
      case Some(d) => Ok(AoCDate(y, d))
  }

  /** What `<uN as FromStr>::from_str` accepts at all, whatever the range: an optional '+'
      and then one or more decimal digits. */
  predicate IsNumeral(s: string)
  {
    var body := if |s| > 0 && s[0] == '+' then s[1..] else s;
    |body| > 0 && AllDigitChars(body)
  }

  lemma ParseNeedsNumeral(s: string, max: nat)
    ensures ParseUnsigned(s, max).Some? ==> IsNumeral(s)
  {
    var body := if |s| > 0 && s[0] == '+' then s[1..] else s;
    DecimalDigitsMeaning(body);
  }

  /** Any four characters and any three characters in front of two numbers, each behind any
      number of zeros, convert to the date of the two numbers exactly when both are in range. */
  lemma TryFromNames(p: string, q: string, yZeros: string, dZeros: string, y: nat, d: nat)
    requires |p| == 4 && |q| == 3
    requires forall i :: 0 <= i < |yZeros| ==> yZeros[i] == '0'
    requires forall i :: 0 <= i < |dZeros| ==> dZeros[i] == '0'
    ensures TryFrom(p + (yZeros + ToString(y)), q + (dZeros + ToString(d)))
      == if y <= U16_MAX && d <= U8_MAX then Ok(AoCDate(y, d)) else Err(())
  {
    assert (p + (yZeros + ToString(y)))[4..] == yZeros + ToString(y);
    assert (q + (dZeros + ToString(d)))[3..] == dZeros + ToString(d);
    ParsePadded(yZeros, y, U16_MAX);
    ParsePadded(dZeros, d, U8_MAX);
  }

  /** A name whose rest, after the dropped prefix, is empty or holds anything but an optional
      leading '+' and digits does not convert. */
  lemma TryFromRejects(year: string, day: string)
    requires |year| >= 4 && |day| >= 3
    requires !IsNumeral(year[4..]) || !IsNumeral(day[3..])
    ensures TryFrom(year, day) == Err(())
  {
    ParseNeedsNumeral(year[4..], U16_MAX);
    ParseNeedsNumeral(day[3..], U8_MAX);
  }

  /** The two digits of `d` with a leading zero below 10, as the module names write days. */
  function TwoDigits(d: nat): (s: string)
    requires d < 100
    ensures |s| == 2 && AllDigitChars(s)
    ensures Value(CharValues(s)) == d
  {
    var s := [('0' as int + d / 10) as char, ('0' as int + d % 10) as char];
    assert CharValues(s) == [d / 10, d % 10];
    ValueOfTwo(d / 10, d % 10);
    s
  }

  lemma ValueOfTwo(a: nat, b: nat)
    ensures Value([a, b]) == 10 * a + b
  {
    assert [a][..0] == [];
    assert Value([a]) == a;
    assert [a, b][..1] == [a];
  }

  lemma YearValue()
    ensures "year2024"[4..] == "2024"
    ensures ParseUnsigned("2024", U16_MAX) == Some(2024)
  {
    var ds := CharValues("2024");
    assert ds == [2, 0] + [2, 4];
    ValueOfTwo(2, 0);
    ValueOfTwo(2, 4);
    ValueAppend([2, 0], [2, 4]);
    assert Pow10(2) == 100;
    ParseDigitString("2024", 2024, U16_MAX);
  }

  /** `("year2024", "day05")` converts to `AoCDate(2024, 5)`, and so does every day name of
      the module list. */
  lemma TryFromModuleName(d: nat)
    requires 0 < d < 100
    ensures TryFrom("year2024", "day" + TwoDigits(d))
      == if d <= U8_MAX then Ok(AoCDate(2024, d)) else Err(())
  {
    YearValue();
    assert ("day" + TwoDigits(d))[3..] == TwoDigits(d);
    ParseDigitString(TwoDigits(d), d, U8_MAX);
  }

  lemma TryFromExample()
    ensures TryFrom("year2024", "day05") == Ok(AoCDate(2024, 5))
  {
    TryFromModuleName(5);
    assert "day" + TwoDigits(5) == "day05";
  }

  /** The module names `solutions()` registers, in order: `year2024::day01` to
      `year2024::day25`. */
  function ModuleNames(): (names: seq<(string, string)>)
    ensures |names| == 25
    ensures forall i :: 0 <= i < 25 ==> names[i] == ("year2024", "day" + TwoDigits(i + 1))
  {
    seq(25, i requires 0 <= i < 25 => ("year2024", "day" + TwoDigits(i + 1)))
  }

  /** The dates of `solutions()`: each module name converted with
      `try_into().expect(..)`. `None` stands for the panic of a name that is too short or
      does not convert. */
  function Registered(names: seq<(string, string)>): (r: Option<seq<AoCDate>>)
    ensures r.Some? <==> forall i :: 0 <= i < |names| ==>
      |names[i].0| >= 4 && |names[i].1| >= 3 && TryFrom(names[i].0, names[i].1).Ok?
    ensures r.Some? ==>
      && |r.value| == |names|
      && forall i :: 0 <= i < |names| ==>
           |names[i].0| >= 4 && |names[i].1| >= 3 && Ok(r.value[i]) == TryFrom(names[i].0, names[i].1)
    decreases |names|
  {
    if |names| == 0 then Some([])
    else
      var (year, day) := names[0];
      if |year| < 4 || |day| < 3 then None
      else
        match TryFrom(year, day)
        case Err(_) => None
        case Ok(date) =>
          match Registered(names[1..])
          case None => None
          case Some(rest) => Some([date] + rest)
  }

  /** 2024 day 1 to day 25, in that order. */
  function Days2024(): seq<AoCDate>
  {
    seq(25, i requires 0 <= i < 25 => AoCDate(2024, i + 1))
  }

  /** The registered dates are 2024 day 1 to day 25, in that order. */
  lemma RegisteredDates()
    ensures Registered(ModuleNames()) == Some(Days2024())
  {
    var names := ModuleNames();
    forall i | 0 <= i < 25
      ensures |names[i].0| >= 4 && |names[i].1| >= 3
      ensures TryFrom(names[i].0, names[i].1) == Ok(AoCDate(2024, i + 1))
    {
      TryFromModuleName(i + 1);
    }
    RegisteredEach(names, Days2024());
  }

  /** Names that each convert to the date at the same position register exactly those dates. */
  lemma RegisteredEach(names: seq<(string, string)>, dates: seq<AoCDate>)
    requires |names| == |dates|
    requires forall i :: 0 <= i < |names| ==>
      |names[i].0| >= 4 && |names[i].1| >= 3 && TryFrom(names[i].0, names[i].1) == Ok(dates[i])
    ensures Registered(names) == Some(dates)
  {
    var r := Registered(names);
    assert r.Some?;
    assert |r.value| == |dates|;
    forall i | 0 <= i < |dates| ensures r.value[i] == dates[i] {
      assert TryFrom(names[i].0, names[i].1) == Ok(r.value[i]);
    }
    assert r.value == dates;
  }

  /** `.into_iter().find(|solution| solution.date == date)`: the position of the first
      registered date equal to `date`, `None` when there is none. */
  function Find(dates: seq<AoCDate>, date: AoCDate): (r: Option<nat>)
    ensures r.None? <==> date !in dates
    ensures r.Some? ==>
      && r.value < |dates| && dates[r.value] == date
      && forall i :: 0 <= i < r.value ==> dates[i] != date
    decreases |dates|
  {
    if |dates| == 0 then None
    else if dates[0] == date then Some(0)
    else
      assert dates == [dates[0]] + dates[1..];
      match Find(dates[1..], date)
      case None => None
      case Some(k) => Some(k + 1)
  }

  /** Why `main` stops without running a solution, in the order it checks. */
  datatype Failure = YearMissing | DayMissing | YearNotNumber | DayNotNumber | NoSolution

  /** `main` up to running the solution: the year and the day arguments (`None` when
      missing) are parsed whole as a `u16` and a `u8`, and the registered dates are searched
      for the requested one; the result is its position. A missing argument is reported
      before anything is parsed, the year before the day. */
  function Request(year: Option<string>, day: Option<string>, dates: seq<AoCDate>)
    : (r: Result<nat, Failure>)
    ensures r.Ok? ==> r.value < |dates| && InRange(dates[r.value])
    ensures r == Err(YearMissing) <==> year.None?
    ensures r == Err(DayMissing) <==> year.Some? && day.None?
  {
    if year.None? then Err(YearMissing)
    else if day.None? then Err(DayMissing)
    else
      match ParseUnsigned(year.value, U16_MAX)
      case None => Err(YearNotNumber)
      case Some(y) =>
        match ParseUnsigned(day.value, U8_MAX)
        case None => Err(DayNotNumber)
        case Some(d) =>
          match Find(dates, AoCDate(y, d))
          case None => Err(NoSolution)
          case Some(k) => Ok(k)
  }

  /** An argument that is not an optional '+' followed by digits is not a number, and the
      year is checked before the day. */
  lemma RequestNotNumber(year: string, day: string, dates: seq<AoCDate>)
    ensures !IsNumeral(year) ==> Request(Some(year), Some(day), dates) == Err(YearNotNumber)
    ensures ParseUnsigned(year, U16_MAX).Some? && !IsNumeral(day)
      ==> Request(Some(year), Some(day), dates) == Err(DayNotNumber)
  {
    ParseNeedsNumeral(year, U16_MAX);
    ParseNeedsNumeral(day, U8_MAX);
  }

  /** Two numbers in range, written in decimal (with any leading zeros), select the first
      registered solution of that date, and no solution when the date is not registered. */
  lemma RequestNumbers(yZeros: string, dZeros: string, y: nat, d: nat, dates: seq<AoCDate>)
    requires forall i :: 0 <= i < |yZeros| ==> yZeros[i] == '0'
    requires forall i :: 0 <= i < |dZeros| ==> dZeros[i] == '0'
    requires y <= U16_MAX && d <= U8_MAX
    ensures var r := Request(Some(yZeros + ToString(y)), Some(dZeros + ToString(d)), dates);
      && (r.Ok? <==> AoCDate(y, d) in dates)
      && (r.Ok? ==> dates[r.value] == AoCDate(y, d)
                    && forall i :: 0 <= i < r.value ==> dates[i] != AoCDate(y, d))
      && (r.Err? ==> r.error == NoSolution)
  {
    ParsePadded(yZeros, y, U16_MAX);
    ParsePadded(dZeros, d, U8_MAX);
  }

  /** A year beyond `u16` is not a number to `main`, and a day beyond `u8` neither. */
  lemma RequestOutOfRange(y: nat, d: nat, dates: seq<AoCDate>)
    requires y > U16_MAX || d > U8_MAX
    ensures Request(Some(ToString(y)), Some(ToString(d)), dates)
      == if y > U16_MAX then Err(YearNotNumber) else Err(DayNotNumber)
  {
    ParseInRange(y, U16_MAX);
    ParseInRange(d, U8_MAX);
  }

  /** With the registered solutions (`RegisteredDates`), `2024` and a day from 1 to 25 run that day's solution,
      and any other date in range has no solution. */
  lemma RequestRegistered(yZeros: string, dZeros: string, y: nat, d: nat)
    requires forall i :: 0 <= i < |yZeros| ==> yZeros[i] == '0'
    requires forall i :: 0 <= i < |dZeros| ==> dZeros[i] == '0'
    requires y <= U16_MAX && d <= U8_MAX
    ensures Request(Some(yZeros + ToString(y)), Some(dZeros + ToString(d)), Days2024())
      == if y == 2024 && 1 <= d <= 25 then Ok(d - 1) else Err(NoSolution)
  {
    var dates := Days2024();
    RequestNumbers(yZeros, dZeros, y, d, dates);
    if y == 2024 && 1 <= d <= 25 {
      assert dates[d - 1] == AoCDate(y, d);
    }
  }
}
