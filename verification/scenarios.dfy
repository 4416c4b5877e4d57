/**
 The input/output pairs of the classifier's test suite, stated as facts about
 the model. Each duration is the (unit, amount) pair the duration parser
 produces for the test's duration string: "500ms" is 500 milliseconds, "15m"
 is 15 minutes, "7M" is 7 months, "7Y" is 7 years.
 */
module Scenarios {
  import opened TimeUnits
  import opened DurationClassifier

  /** Durations below their unit's threshold report their own unit. */
  lemma HighestUnitWithoutOverflow()
    ensures HighestTimeUnit(Duration(Millisecond, 500.0)) == Millisecond
    ensures HighestTimeUnit(Duration(Second, 30.0)) == Second
    ensures HighestTimeUnit(Duration(Minute, 15.0)) == Minute
    ensures HighestTimeUnit(Duration(Hour, 12.0)) == Hour
    ensures HighestTimeUnit(Duration(Day, 4.0)) == Day
    ensures HighestTimeUnit(Duration(Week, 3.0)) == Week
    ensures HighestTimeUnit(Duration(Month, 7.0)) == Month
    ensures HighestTimeUnit(Duration(Year, 7.0)) == Year
  {
  }

  /** Durations at or over their unit's threshold report a coarser unit. */
  lemma HighestUnitWithOverflow()
    ensures HighestTimeUnit(Duration(Millisecond, 2000.0)) == Second
    ensures HighestTimeUnit(Duration(Second, 90.0)) == Minute
    ensures HighestTimeUnit(Duration(Minute, 75.0)) == Hour
    ensures HighestTimeUnit(Duration(Hour, 36.0)) == Day
    ensures HighestTimeUnit(Duration(Day, 9.0)) == Week
    ensures HighestTimeUnit(Duration(Week, 15.0)) == Month
    ensures HighestTimeUnit(Duration(Month, 23.0)) == Year
  {
  }

  /** The units are reported under the names the test suite compares against. */
  lemma ReportedNames()
    ensures Name(Millisecond) == "millisecond" && Name(Second) == "second"
    ensures Name(Minute) == "minute" && Name(Hour) == "hour"
    ensures Name(Day) == "day" && Name(Week) == "week"
    ensures Name(Month) == "month" && Name(Year) == "year"
    ensures forall a: Unit, b: Unit :: Name(a) == Name(b) ==> a == b
  {
  }

  /** Intervals that do not overflow are valid. */
  lemma ValidWithoutOverflow()
    ensures IsValidRolloverInterval(Duration(Millisecond, 500.0))
    ensures IsValidRolloverInterval(Duration(Second, 30.0))
    ensures IsValidRolloverInterval(Duration(Minute, 15.0))
    ensures IsValidRolloverInterval(Duration(Hour, 12.0))
    ensures IsValidRolloverInterval(Duration(Day, 4.0))
    ensures IsValidRolloverInterval(Duration(Week, 3.0))
    ensures IsValidRolloverInterval(Duration(Month, 7.0))
    ensures IsValidRolloverInterval(Duration(Year, 7.0))
  {
    HighestUnitWithoutOverflow();
    assert IsValidRolloverInterval(Duration(Millisecond, 500.0)) by { ValidIffDivisible(Millisecond, 500); }
    assert IsValidRolloverInterval(Duration(Second, 30.0)) by { ValidIffDivisible(Second, 30); }
    assert IsValidRolloverInterval(Duration(Minute, 15.0)) by { ValidIffDivisible(Minute, 15); }
    assert IsValidRolloverInterval(Duration(Hour, 12.0)) by { ValidIffDivisible(Hour, 12); }
    assert IsValidRolloverInterval(Duration(Day, 4.0)) by { ValidIffDivisible(Day, 4); }
    assert IsValidRolloverInterval(Duration(Week, 3.0)) by { ValidIffDivisible(Week, 3); }
    assert IsValidRolloverInterval(Duration(Month, 7.0)) by { ValidIffDivisible(Month, 7); }
    assert IsValidRolloverInterval(Duration(Year, 7.0)) by { ValidIffDivisible(Year, 7); }
  }

  /** Intervals that overflow to a fractional value are invalid. */
  lemma InvalidFractionalOverflow()
    ensures !IsValidRolloverInterval(Duration(Millisecond, 2500.0))
    ensures !IsValidRolloverInterval(Duration(Second, 90.0))
    ensures !IsValidRolloverInterval(Duration(Minute, 75.0))
    ensures !IsValidRolloverInterval(Duration(Hour, 36.0))
    ensures !IsValidRolloverInterval(Duration(Day, 9.0))
    ensures !IsValidRolloverInterval(Duration(Week, 15.0))
    ensures !IsValidRolloverInterval(Duration(Month, 23.0))
  {
    HighestUnitWithOverflow();
    assert !IsValidRolloverInterval(Duration(Millisecond, 2500.0)) by { ValidIffDivisible(Millisecond, 2500); }
    assert !IsValidRolloverInterval(Duration(Second, 90.0)) by { ValidIffDivisible(Second, 90); }
    assert !IsValidRolloverInterval(Duration(Minute, 75.0)) by { ValidIffDivisible(Minute, 75); }
    assert !IsValidRolloverInterval(Duration(Hour, 36.0)) by { ValidIffDivisible(Hour, 36); }
    assert !IsValidRolloverInterval(Duration(Day, 9.0)) by { ValidIffDivisible(Day, 9); }
    assert !IsValidRolloverInterval(Duration(Week, 15.0)) by { ValidIffDivisible(Week, 15); }
    assert !IsValidRolloverInterval(Duration(Month, 23.0)) by { ValidIffDivisible(Month, 23); }
  }

  /** The units the whole-valued overflows of the validity suite climb to. */
  lemma HighestUnitOfWholeOverflow()
    ensures HighestTimeUnit(Duration(Millisecond, 2000.0)) == Second
    ensures HighestTimeUnit(Duration(Second, 120.0)) == Minute
    ensures HighestTimeUnit(Duration(Minute, 240.0)) == Hour
    ensures HighestTimeUnit(Duration(Hour, 48.0)) == Day
    ensures HighestTimeUnit(Duration(Day, 14.0)) == Week
    ensures HighestTimeUnit(Duration(Month, 24.0)) == Year
  {
  }

  /** Intervals that overflow to a whole value are valid. */
  lemma ValidWholeOverflow()
    ensures IsValidRolloverInterval(Duration(Millisecond, 2000.0))
    ensures IsValidRolloverInterval(Duration(Second, 120.0))
    ensures IsValidRolloverInterval(Duration(Minute, 240.0))
    ensures IsValidRolloverInterval(Duration(Hour, 48.0))
    ensures IsValidRolloverInterval(Duration(Day, 14.0))
    ensures IsValidRolloverInterval(Duration(Month, 24.0))
  {
    HighestUnitOfWholeOverflow();
    assert IsValidRolloverInterval(Duration(Millisecond, 2000.0)) by { ValidIffDivisible(Millisecond, 2000); }
    assert IsValidRolloverInterval(Duration(Second, 120.0)) by { ValidIffDivisible(Second, 120); }
    assert IsValidRolloverInterval(Duration(Minute, 240.0)) by { ValidIffDivisible(Minute, 240); }
    assert IsValidRolloverInterval(Duration(Hour, 48.0)) by { ValidIffDivisible(Hour, 48); }
    assert IsValidRolloverInterval(Duration(Day, 14.0)) by { ValidIffDivisible(Day, 14); }
    assert IsValidRolloverInterval(Duration(Month, 24.0)) by { ValidIffDivisible(Month, 24); }
  }

  /**
   The highest units the overflowing intervals climb to, and the values they
   take there: the fractional ones explain the invalid verdicts, 24 months is
   exactly 2 years.
   */
  lemma PromotedValues()
    ensures HighestTimeUnit(Duration(Millisecond, 2500.0)) == Second
    ensures HighestTimeUnit(Duration(Second, 90.0)) == Minute
    ensures HighestTimeUnit(Duration(Minute, 75.0)) == Hour
    ensures HighestTimeUnit(Duration(Hour, 36.0)) == Day
    ensures HighestTimeUnit(Duration(Day, 9.0)) == Week
    ensures HighestTimeUnit(Duration(Week, 15.0)) == Month
    ensures HighestTimeUnit(Duration(Month, 23.0)) == Year
    ensures HighestTimeUnit(Duration(Month, 24.0)) == Year
    ensures InUnit(Duration(Millisecond, 2500.0), Second) == 2.5
    ensures InUnit(Duration(Second, 90.0), Minute) == 1.5
    ensures InUnit(Duration(Minute, 75.0), Hour) == 1.25
    ensures InUnit(Duration(Hour, 36.0), Day) == 1.5
    ensures InUnit(Duration(Day, 9.0), Week) == 9.0 / 7.0
    ensures InUnit(Duration(Week, 15.0), Month) == 3.75
    ensures InUnit(Duration(Month, 23.0), Year) == 23.0 / 12.0
    ensures InUnit(Duration(Month, 24.0), Year) == 2.0
  {
  }
}
