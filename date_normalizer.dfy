/**
 * `transformarData` (src/main.ts:147-170): find the leftmost
 * "DD/MM/YYYY às HhMM" in a string and turn it into Unix epoch seconds through
 * `new Date(year, month - 1, day, hour, minute)` and `Math.floor(getTime() / 1000)`.
 */
module DateNormalizer {
  import opened Wrappers
  import opened DatePattern
  import EcmaDate

  /** The two errors the function throws. */
  datatype DateError =
    | InvalidFormat   // "Formato de data inválido": no match
    | EmptyFields     // "Datas estão vazias": a captured group is falsy

  /** A JavaScript number as the function can return it: an integer, or NaN for an invalid Date. */
  datatype TimeValue = Epoch(seconds: int) | NotANumber

  function DigitValue(c: char): nat
    requires IsDigit(c)
  {
    c as int - '0' as int
  }

  function Pow10(n: nat): nat
  {
    if n == 0 then 1 else 10 * Pow10(n - 1)
  }

  /** `parseInt(ds, 10)` of a digit string: its decimal value. */
  function ParseInt(ds: string): (n: nat)
    requires AllDigits(ds)
    ensures n < Pow10(|ds|)
    decreases |ds|
  {
    if ds == [] then 0 else ParseInt(ds[..|ds| - 1]) * 10 + DigitValue(ds[|ds| - 1])
  }

  /** The value of a digit string read most significant digit first, for the group lengths of the pattern. */
  lemma ParseIntDigits(ds: string)
    requires AllDigits(ds) && 1 <= |ds| <= 4
    ensures |ds| == 1 ==> ParseInt(ds) == DigitValue(ds[0])
    ensures |ds| == 2 ==> ParseInt(ds) == 10 * DigitValue(ds[0]) + DigitValue(ds[1])
    ensures |ds| == 4 ==> ParseInt(ds) == 1000 * DigitValue(ds[0]) + 100 * DigitValue(ds[1]) + 10 * DigitValue(ds[2]) + DigitValue(ds[3])
  {
    var a := ds[..|ds| - 1];
    if |ds| >= 2 {
      var b := a[..|a| - 1];
      if |ds| == 4 {
        var c := b[..|b| - 1];
        assert c[..|c| - 1] == [];
      } else if |ds| == 2 {
        assert b == [];
      }
    } else {
      assert a == [];
    }
  }

  /** The function, for a host whose local time is tz minutes ahead of UTC. */
  function TransformarData(dateTimeStr: string, tz: int): (r: Result<TimeValue, DateError>)
    ensures r.Failure? <==> forall k :: 0 <= k <= |dateTimeStr| ==> !MatchesAt(dateTimeStr, k)
    ensures r.Failure? ==> r.error == InvalidFormat
  {
    match Match(dateTimeStr)
    case None => Failure(InvalidFormat)
    case Some(g) =>
      if g.day == [] || g.month == [] || g.year == [] || g.hour == [] || g.minute == [] then
        Failure(EmptyFields)
      else
        Success(FromGroups(g, tz))
  }

  /** `new Date(year, month - 1, day, hour, minute)` on the parsed groups, in epoch seconds. */
  function FromGroups(g: Groups, tz: int): TimeValue
    requires GroupsFit(g)
  {
    EpochSeconds(EcmaDate.NewDate(ParseInt(g.year), ParseInt(g.month) - 1, ParseInt(g.day),
                                  ParseInt(g.hour), ParseInt(g.minute), tz))
  }

  /** `Math.floor(date.getTime() / 1000)`; NaN stays NaN. */
  function EpochSeconds(t: Option<int>): (r: TimeValue)
    ensures r.NotANumber? <==> t.None?
    ensures r.Epoch? ==> 1000 * r.seconds <= t.value < 1000 * r.seconds + 1000
  {
    match t
    case None => NotANumber
    case Some(ms) => Epoch(ms / 1000)
  }

  /**
   * The closed form of the result for numeric fields: the local day number of
   * MakeDay (a month outside 1..12 carries into the year, a two-digit year
   * counts from 1900) in seconds, plus the time of day, minus the offset.
   */
  function CivilSeconds(year: int, month: int, day: int, hour: int, minute: int, tz: int): int
  {
    EcmaDate.MakeDay(EcmaDate.MakeFullYear(year), month - 1, day) * 86400
      + hour * 3600 + minute * 60 - tz * 60
  }

  /** A month in 1..12 does not carry: the day number is that of the calendar date itself. */
  lemma CivilInYear(year: int, month: int, day: int, hour: int, minute: int, tz: int)
    requires 1 <= month <= 12
    ensures CivilSeconds(year, month, day, hour, minute, tz)
      == EcmaDate.DaysFromCivil(EcmaDate.MakeFullYear(year), month, day) * 86400
         + hour * 3600 + minute * 60 - tz * 60
  {
    assert (month - 1) / 12 == 0 && (month - 1) % 12 == month - 1;
  }

  /** The closed form of the result for the parsed groups. */
  function LocalSeconds(g: Groups, tz: int): int
    requires GroupsFit(g)
  {
    CivilSeconds(ParseInt(g.year), ParseInt(g.month), ParseInt(g.day), ParseInt(g.hour), ParseInt(g.minute), tz)
  }

  /** A four-digit year is below 10000, the other groups below 100. */
  lemma GroupBounds(g: Groups)
    requires GroupsFit(g)
    ensures ParseInt(g.year) < 10000 && ParseInt(g.month) < 100 && ParseInt(g.day) < 100
    ensures ParseInt(g.hour) < 100 && ParseInt(g.minute) < 100
  {
    assert Pow10(1) == 10 && Pow10(2) == 100 && Pow10(4) == 10000;
    assert ParseInt(g.hour) < Pow10(|g.hour|) <= 100;
  }

  /**
   * With a fixed offset of at most a day, the Date's time value is exactly
   * 1000 times CivilSeconds, so the floor division loses nothing.
   */
  lemma FromValues(year: int, month: int, day: int, hour: int, minute: int, tz: int)
    requires 0 <= year < 10000 && 0 <= month < 100 && 0 <= day < 100
    requires 0 <= hour < 100 && 0 <= minute < 100 && -1440 <= tz <= 1440
    ensures EpochSeconds(EcmaDate.NewDate(year, month - 1, day, hour, minute, tz))
      == Epoch(CivilSeconds(year, month, day, hour, minute, tz))
  {
    EcmaDate.NewDateSeconds(year, month - 1, day, hour, minute, tz);
    ExactSeconds(EcmaDate.NewDate(year, month - 1, day, hour, minute, tz), CivilSeconds(year, month, day, hour, minute, tz));
  }

  /** The groups yield LocalSeconds. */
  lemma FromGroupsValue(g: Groups, tz: int)
    requires GroupsFit(g) && -1440 <= tz <= 1440
    ensures FromGroups(g, tz) == Epoch(LocalSeconds(g, tz))
  {
    GroupBounds(g);
    FromValues(ParseInt(g.year), ParseInt(g.month), ParseInt(g.day), ParseInt(g.hour), ParseInt(g.minute), tz);
  }

  /** A time value of whole seconds loses nothing in the floor division. */
  lemma ExactSeconds(t: Option<int>, s: int)
    requires t == Some(1000 * s)
    ensures EpochSeconds(t) == Epoch(s)
  {
    assert (1000 * s) / 1000 == s;
  }

  /** The result is a whole number of minutes. */
  lemma WholeMinutes(year: int, month: int, day: int, hour: int, minute: int, tz: int)
    ensures CivilSeconds(year, month, day, hour, minute, tz) % 60 == 0
  {
    var d := EcmaDate.MakeDay(EcmaDate.MakeFullYear(year), month - 1, day);
    assert CivilSeconds(year, month, day, hour, minute, tz) == 60 * (d * 1440 + hour * 60 + minute - tz);
  }

  /** A matched string yields LocalSeconds of its leftmost match. */
  lemma TransformarDataValue(s: string, tz: int)
    requires Match(s).Some? && -1440 <= tz <= 1440
    ensures TransformarData(s, tz) == Success(Epoch(LocalSeconds(Match(s).value, tz)))
    ensures LocalSeconds(Match(s).value, tz) % 60 == 0
  {
    var g := Match(s).value;
    assert TransformarData(s, tz) == Success(FromGroups(g, tz));
    FromGroupsValue(g, tz);
    WholeMinutes(ParseInt(g.year), ParseInt(g.month), ParseInt(g.day), ParseInt(g.hour), ParseInt(g.minute), tz);
  }

  /** Under an offset of at most a day the result is never NaN: it is an error exactly when nothing matches. */
  lemma NeverNaN(s: string, tz: int)
    requires -1440 <= tz <= 1440
    ensures TransformarData(s, tz) != Success(NotANumber)
  {
    if Match(s).Some? {
      TransformarDataValue(s, tz);
    }
  }
}
