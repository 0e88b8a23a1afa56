/**
 * Worked instances of the date normaliser's behaviour. A string example is
 * stated in two steps, which TransformarDataValue joins: what the string
 * matches, and how many seconds those groups denote. (Stated on one literal
 * string, the verifier would evaluate the whole search on it.) The *Fields
 * lemmas name their groups by a parameter pinned with `requires g == ...`
 * rather than a literal in the `ensures`, which keeps the literal out of the
 * parse proof and the proof cheap.
 */
module DateExamples {
  import opened Wrappers
  import opened DatePattern
  import opened DateNormalizer
  import EcmaDate

  /** The decimal values of the five groups, read off digit by digit. */
  lemma GroupValues(g: Groups)
    requires GroupsFit(g)
    ensures ParseInt(g.day) == 10 * DigitValue(g.day[0]) + DigitValue(g.day[1])
    ensures ParseInt(g.month) == 10 * DigitValue(g.month[0]) + DigitValue(g.month[1])
    ensures ParseInt(g.year) == 1000 * DigitValue(g.year[0]) + 100 * DigitValue(g.year[1]) + 10 * DigitValue(g.year[2]) + DigitValue(g.year[3])
    ensures ParseInt(g.hour) == if |g.hour| == 1 then DigitValue(g.hour[0]) else 10 * DigitValue(g.hour[0]) + DigitValue(g.hour[1])
    ensures ParseInt(g.minute) == 10 * DigitValue(g.minute[0]) + DigitValue(g.minute[1])
  {
    ParseIntDigits(g.day);
    ParseIntDigits(g.month);
    ParseIntDigits(g.year);
    ParseIntDigits(g.hour);
    ParseIntDigits(g.minute);
  }

  /** The groups read as the given numeric fields. */
  predicate Denotes(g: Groups, year: int, month: int, day: int, hour: int, minute: int)
  {
    GroupsFit(g) && ParseInt(g.year) == year && ParseInt(g.month) == month && ParseInt(g.day) == day
      && ParseInt(g.hour) == hour && ParseInt(g.minute) == minute
  }

  /** A string that is exactly one date is converted to the CivilSeconds of its fields. */
  lemma DenotedSeconds(g: Groups, year: int, month: int, day: int, hour: int, minute: int, tz: int)
    requires Denotes(g, year, month, day, hour, minute) && -1440 <= tz <= 1440
    ensures TransformarData(Spelled(g, " ", " "), tz) == Success(Epoch(CivilSeconds(year, month, day, hour, minute, tz)))
  {
    WholeStringDate(g, tz);
  }

  /** A string that is exactly one date (single spaces around "às") yields that date's LocalSeconds. */
  lemma WholeStringDate(g: Groups, tz: int)
    requires GroupsFit(g) && -1440 <= tz <= 1440
    ensures TransformarData(Spelled(g, " ", " "), tz) == Success(Epoch(LocalSeconds(g, tz)))
  {
    assert WellFormed(g, " ", " ");
    WholeMatch(g, " ", " ");
    TransformarDataValue(Spelled(g, " ", " "), tz);
  }

  /**
   * Text around the date is ignored and a one-digit hour is accepted:
   * "Publicado em 05/03/2024 às 9h05 por X" matches with groups 05, 03, 2024, 9, 05.
   */
  lemma SurroundingTextMatch()
    ensures Match("Publicado em " + Spelled(Groups("05", "03", "2024", "9", "05"), " ", " ") + " por X")
      == Some(Groups("05", "03", "2024", "9", "05"))
  {
    var g := Groups("05", "03", "2024", "9", "05");
    assert WellFormed(g, " ", " ");
    MatchInText("Publicado em ", g, " ", " ", " por X");
  }

  /** ... and those groups are the fields 2024, 3, 5, 9, 5 ... */
  lemma SurroundingTextFields(g: Groups)
    requires g == Groups("05", "03", "2024", "9", "05")
    ensures Denotes(g, 2024, 3, 5, 9, 5)
  {
    GroupValues(g);
  }

  /** ... that is, 2024-03-05 09:05 local time. */
  lemma SurroundingTextSeconds(tz: int)
    ensures CivilSeconds(2024, 3, 5, 9, 5, tz) == 1709629500 - tz * 60
  {
    CivilInYear(2024, 3, 5, 9, 5, tz);
  }

  /** "05/03/2024 às 14h30" is 2024-03-05 14:30 local time. */
  lemma AfternoonSeconds(tz: int)
    ensures CivilSeconds(2024, 3, 5, 14, 30, tz) == 1709649000 - tz * 60
  {
    CivilInYear(2024, 3, 5, 14, 30, tz);
  }

  /** A date in another format is rejected with "Formato de data inválido". */
  lemma OtherFormatRejected(tz: int)
    ensures TransformarData("2024-03-05", tz) == Failure(InvalidFormat)
  {
    var s := "2024-03-05";
    forall k | 0 <= k <= |s|
      ensures !MatchesAt(s, k)
    {
      if k == 0 {
        assert s[2] != '/';
      }
    }
  }

  /** "01/01/2024 às 10h00" has the fields 2024, 1, 1, 10, 0 ... */
  lemma NewYearFields(g: Groups)
    requires g == Groups("01", "01", "2024", "10", "00")
    ensures Denotes(g, 2024, 1, 1, 10, 0)
  {
    GroupValues(g);
  }

  /** ... that is, 2024-01-01 10:00 local time. */
  lemma NewYearSeconds(tz: int)
    ensures CivilSeconds(2024, 1, 1, 10, 0, tz) == 1704103200 - tz * 60
  {
    CivilInYear(2024, 1, 1, 10, 0, tz);
  }

  /** ... which is never the epoch under an offset of at most a day. */
  lemma NewYearNotEpoch(tz: int)
    requires -1440 <= tz <= 1440
    ensures CivilSeconds(2024, 1, 1, 10, 0, tz) != 0
  {
    NewYearSeconds(tz);
  }

  /** "01/01/1970 às 0h00" has the fields 1970, 1, 1, 0, 0 ... */
  lemma EpochFields(g: Groups)
    requires g == Groups("01", "01", "1970", "0", "00")
    ensures Denotes(g, 1970, 1, 1, 0, 0)
  {
    GroupValues(g);
  }

  /** ... so at any time of that day only the time and the offset count: at 00:00 on a UTC host the result is 0. */
  lemma EpochSeconds(hour: int, minute: int, tz: int)
    ensures CivilSeconds(1970, 1, 1, hour, minute, tz) == hour * 3600 + minute * 60 - tz * 60
  {
    CivilInYear(1970, 1, 1, hour, minute, tz);
  }

  /** Month 13 is January of the next year. */
  lemma MonthThirteen(tz: int)
    ensures CivilSeconds(2024, 13, 1, 10, 0, tz) == CivilSeconds(2025, 1, 1, 10, 0, tz)
  {
    EcmaDate.MonthCarry(2024, 0, 1);
  }

  /** Month 00 is December of the previous year. */
  lemma MonthZero(tz: int)
    ensures CivilSeconds(2024, 0, 1, 10, 0, tz) == CivilSeconds(2023, 12, 1, 10, 0, tz)
  {
    EcmaDate.MonthCarry(2023, -1, 1);
  }

  /** 32/01 is February 1st. */
  lemma DayThirtyTwo(tz: int)
    ensures CivilSeconds(2024, 1, 32, 10, 0, tz) == CivilSeconds(2024, 2, 1, 10, 0, tz)
  {
    EcmaDate.DayCarry(2024, 0, 1);
  }

  /** 30/02 of a leap year is March 1st, of a common year March 2nd. */
  lemma FebruaryThirty(tz: int)
    ensures CivilSeconds(2024, 2, 30, 10, 0, tz) == CivilSeconds(2024, 3, 1, 10, 0, tz)
    ensures CivilSeconds(2023, 2, 30, 10, 0, tz) == CivilSeconds(2023, 3, 2, 10, 0, tz)
  {
    EcmaDate.DayCarry(2024, 1, 1);
    EcmaDate.DayCarry(2023, 1, 2);
  }

  /** Hour 25 is 01h of the next day. */
  lemma HourTwentyFive(tz: int)
    ensures CivilSeconds(2024, 3, 5, 25, 0, tz) == CivilSeconds(2024, 3, 6, 1, 0, tz)
  {
  }

  /** A four-digit year 0000..0099 is read as 1900..1999. */
  lemma CenturyShift(tz: int)
    ensures CivilSeconds(24, 1, 1, 10, 0, tz) == CivilSeconds(1924, 1, 1, 10, 0, tz)
  {
  }
}
