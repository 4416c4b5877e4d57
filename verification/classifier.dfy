/**
 The rollover-interval classifier of the time-interval rolling-file policy.

 A duration is promoted up the unit ladder while its magnitude reaches the
 threshold of its current unit; the unit where the walk stops is the duration's
 highest time unit, and the duration is a valid rollover interval exactly when
 its magnitude in that unit is a whole number.
 */
module DurationClassifier {
  import opened TimeUnits
  import opened RealFacts

  /** A duration as handed over by the duration parser: a magnitude in its own unit. */
  datatype Duration = Duration(unit: Unit, amount: real)

  /** The length of a duration in milliseconds. */
  function Milliseconds(d: Duration): real
  {
    d.amount * MsPer(d.unit) as real
  }

  /** The duration's magnitude re-expressed in unit `w`. */
  function InUnit(d: Duration, w: Unit): real
  {
    Milliseconds(d) / MsPer(w) as real
  }

  /**
   The highest unit of a length of `ms` milliseconds written in unit `u`,
   stated without walking the ladder: a unit at or above `u`, of which the
   length makes at least one (unless it is `u` itself), and of whose next unit
   it makes less than one.
   */
  predicate IsHighestUnit(u: Unit, ms: real, w: Unit)
  {
    && Rank(u) <= Rank(w)
    && (w == u || ms >= MsPer(w) as real)
    && (w == Year || ms < MsPer(Next(w)) as real)
  }

  /**
   The value in `u` reaches `u`'s threshold exactly when the length reaches
   one instance of the next unit, so the walk may compare lengths.
   */
  lemma ReachesThreshold(u: Unit, value: real, ms: real)
    requires u != Year
    requires value * MsPer(u) as real == ms
    ensures value >= Threshold(u) as real <==> ms >= MsPer(Next(u)) as real
  {
    MsPerStep(u);
    var m, t := MsPer(u) as real, Threshold(u) as real;
    if value >= t {
      MulMonotone(t, value, m);
    } else {
      MulStrict(value, t, m);
    }
  }

  /**
   The ladder walk on a length of `ms` milliseconds, starting at unit `u`:
   while the unit is not year and the length makes at least one of the next
   unit (equivalently, the value in the unit reaches its threshold), move one
   rung up. It stops at the highest unit.
   */
  function Promote(u: Unit, ms: real): (w: Unit)
    ensures IsHighestUnit(u, ms, w)
    decreases 7 - Rank(u)
  {
    if u != Year && ms >= MsPer(Next(u)) as real then Promote(Next(u), ms) else u
  }

  /**
   getHighestTimeUnit: the coarsest unit the duration reaches. It is never
   below the duration's own unit, and it differs from it exactly when the
   unit is not year and the amount reaches the unit's threshold.
   */
  function HighestTimeUnit(d: Duration): (w: Unit)
    requires d.amount >= 0.0
    ensures IsHighestUnit(d.unit, Milliseconds(d), w)
    ensures w != d.unit <==> d.unit != Year && d.amount >= Threshold(d.unit) as real
  {
    if d.unit != Year then
      ReachesThreshold(d.unit, d.amount, Milliseconds(d));
      Promote(d.unit, Milliseconds(d))
    else
      Promote(d.unit, Milliseconds(d))
  }

  /** In its own unit, a duration's magnitude is its amount. */
  lemma OwnUnitValue(d: Duration)
    ensures InUnit(d, d.unit) == d.amount
  {
    Cancel(d.amount, MsPer(d.unit) as real, Milliseconds(d));
  }

  /**
   A whole amount re-expressed in `w` is whole exactly when the length of `w`
   divides the duration's length in milliseconds.
   */
  lemma WholeInUnitIffDivides(d: Duration, w: Unit)
    requires d.amount >= 0.0
    ensures IsWhole(d.amount) ==>
              (IsWhole(InUnit(d, w)) <==> (d.amount.Floor * MsPer(d.unit)) % MsPer(w) == 0)
  {
    if IsWhole(d.amount) {
      var n: nat := d.amount.Floor;
      assert Milliseconds(d) == (n * MsPer(d.unit)) as real;
      WholeQuotient(n * MsPer(d.unit), MsPer(w));
    }
  }

  /**
   isValidRolloverInterval: the amount, re-expressed in the unit that
   getHighestTimeUnit returns, is a whole number. For a whole amount this is
   divisibility of its length by the highest unit's length; an amount that
   keeps its own unit is valid exactly when it is whole.
   */
  predicate IsValidRolloverInterval(d: Duration): (valid: bool)
    requires d.amount >= 0.0
    ensures IsWhole(d.amount) ==>
              (valid <==> (d.amount.Floor * MsPer(d.unit)) % MsPer(HighestTimeUnit(d)) == 0)
    ensures HighestTimeUnit(d) == d.unit ==> (valid <==> IsWhole(d.amount))
  {
    OwnUnitValue(d);
    WholeInUnitIffDivides(d, HighestTimeUnit(d));
    IsWhole(InUnit(d, HighestTimeUnit(d)))
  }

  /**
   Where the walk stops is the highest unit: a state that keeps the length,
   has climbed only past reached thresholds, and fails the next threshold, is
   the highest unit, and its value is the length in that unit.
   */
  lemma StopIsHighest(u: Unit, ms: real, unit: Unit, value: real)
    requires Rank(u) <= Rank(unit)
    requires value * MsPer(unit) as real == ms
    requires unit == u || value >= 1.0
    requires unit == Year || value < Threshold(unit) as real
    ensures IsHighestUnit(u, ms, unit)
    ensures value == ms / MsPer(unit) as real
  {
    var m := MsPer(unit) as real;
    if unit != u {
      MulMonotone(1.0, value, m);
    }
    if unit != Year {
      ReachesThreshold(unit, value, ms);
    }
    Cancel(value, m, ms);
  }

  /** Two candidate highest units cannot sit on different rungs. */
  lemma BelowIsNotHighest(u: Unit, ms: real, lo: Unit, hi: Unit)
    requires IsHighestUnit(u, ms, lo) && Rank(lo) < Rank(hi)
    ensures !IsHighestUnit(u, ms, hi)
  {
    MsPerMonotone(Next(lo), hi);
  }

  /** At most one unit is the highest unit of a length. */
  lemma HighestUnitUnique(u: Unit, ms: real, w1: Unit, w2: Unit)
    requires IsHighestUnit(u, ms, w1) && IsHighestUnit(u, ms, w2)
    ensures w1 == w2
  {
    if Rank(w1) < Rank(w2) {
      BelowIsNotHighest(u, ms, w1, w2);
    } else if Rank(w2) < Rank(w1) {
      BelowIsNotHighest(u, ms, w2, w1);
    } else {
      RankInjective(w1, w2);
    }
  }

  /**
   getHighestTimeUnit returns exactly the unit that IsHighestUnit describes:
   the walk's unit satisfies it, and no other unit does.
   */
  lemma HighestTimeUnitCharacterized(d: Duration, w: Unit)
    requires d.amount >= 0.0
    ensures IsHighestUnit(d.unit, Milliseconds(d), w) <==> w == HighestTimeUnit(d)
  {
    if IsHighestUnit(d.unit, Milliseconds(d), w) {
      HighestUnitUnique(d.unit, Milliseconds(d), w, HighestTimeUnit(d));
    }
  }

  /**
   The shared promotion algorithm written as the loop it is, dividing the
   value by each threshold it passes: it stops at the unit getHighestTimeUnit
   returns, holding the magnitude in that unit, and that value is whole
   exactly when isValidRolloverInterval holds.
   */
  method ClimbLadder(d: Duration) returns (unit: Unit, value: real)
    requires d.amount >= 0.0
    ensures IsHighestUnit(d.unit, Milliseconds(d), unit)
    ensures unit == HighestTimeUnit(d)
    ensures value == InUnit(d, unit)
    ensures IsWhole(value) <==> IsValidRolloverInterval(d)
  {
    var ms := Milliseconds(d);
    unit, value := d.unit, d.amount;
    while unit != Year && value >= Threshold(unit) as real
      invariant Rank(d.unit) <= Rank(unit)
      invariant value * MsPer(unit) as real == ms
      invariant unit == d.unit || value >= 1.0
      decreases 7 - Rank(unit)
    {
      var t := Threshold(unit) as real;
      MsPerStep(unit);
      ScaleStep(value, MsPer(unit) as real, t);
      DivideAtLeastOne(value, t);
      value := value / t;
      unit := Next(unit);
    }
    StopIsHighest(d.unit, ms, unit, value);
    HighestTimeUnitCharacterized(d, unit);
  }

  /**
   An amount below its unit's threshold (or any amount of years) keeps its
   own unit; when the amount is whole it is a valid rollover interval.
   */
  lemma NonPromotingKeepsUnit(d: Duration)
    requires d.amount >= 0.0
    requires d.unit == Year || d.amount < Threshold(d.unit) as real
    ensures HighestTimeUnit(d) == d.unit
    ensures IsWhole(d.amount) ==> IsValidRolloverInterval(d)
  {
    Cancel(d.amount, MsPer(d.unit) as real, Milliseconds(d));
  }

  /** An amount exactly at its unit's threshold promotes to one of the next unit, which is valid. */
  lemma ThresholdPromotes(u: Unit)
    requires u != Year
    ensures HighestTimeUnit(Duration(u, Threshold(u) as real)) == Next(u)
    ensures IsValidRolloverInterval(Duration(u, Threshold(u) as real))
  {
    var d := Duration(u, Threshold(u) as real);
    var n := Next(u);
    MsPerStep(u);
    assert Milliseconds(d) == MsPer(n) as real;
    if n != Year {
      MsPerIncreasing(n, Next(n));
    }
    HighestTimeUnitCharacterized(d, n);
    assert InUnit(d, n) == 1.0;
  }

  /**
   A longer duration in the same unit never has a finer highest unit: the
   classification is monotone in the amount.
   */
  lemma HighestUnitMonotone(u: Unit, a1: real, a2: real)
    requires 0.0 <= a1 <= a2
    ensures Rank(HighestTimeUnit(Duration(u, a1))) <= Rank(HighestTimeUnit(Duration(u, a2)))
  {
    var d1, d2 := Duration(u, a1), Duration(u, a2);
    var w1, w2 := HighestTimeUnit(d1), HighestTimeUnit(d2);
    MulMonotone(a1, a2, MsPer(u) as real);
    if Rank(w2) < Rank(w1) {
      MsPerMonotone(Next(w2), w1);
      assert false;
    }
  }

  /**
   For a whole amount `n`, validity is divisibility: the length in
   milliseconds must be a multiple of the length of the highest unit.
   */
  lemma ValidIffDivisible(u: Unit, n: nat)
    ensures IsValidRolloverInterval(Duration(u, n as real))
        <==> (n * MsPer(u)) % MsPer(HighestTimeUnit(Duration(u, n as real))) == 0
  {
    var d := Duration(u, n as real);
    assert Milliseconds(d) == (n * MsPer(u)) as real;
    WholeQuotient(n * MsPer(u), MsPer(HighestTimeUnit(d)));
  }

  /**
   An independent reading of "highest unit": searching down from `w`, the
   first unit of which `ms` milliseconds make at least one, or millisecond
   when there is none.
   */
  function CoarsestReached(ms: real, w: Unit): (c: Unit)
    ensures Rank(c) <= Rank(w)
    ensures c == Millisecond || ms >= MsPer(c) as real
    ensures forall x: Unit :: Rank(c) < Rank(x) <= Rank(w) ==> ms < MsPer(x) as real
    decreases Rank(w)
  {
    if w == Millisecond || ms >= MsPer(w) as real then w
    else
      assert forall x: Unit :: Rank(x) == Rank(w) ==> x == w;
      CoarsestReached(ms, Prev(w))
  }

  /** A duration of at least one of its units is at least that unit long. */
  lemma AtLeastOneUnit(d: Duration)
    requires d.amount >= 1.0
    ensures Milliseconds(d) >= MsPer(d.unit) as real
  {
    MulMonotone(1.0, d.amount, MsPer(d.unit) as real);
  }

  /**
   For amounts of at least one, the ladder walk and the top-down search agree:
   the highest unit is the coarsest unit of which the duration makes at least one.
   */
  lemma TopDownAgrees(d: Duration)
    requires d.amount >= 1.0
    ensures HighestTimeUnit(d) == CoarsestReached(Milliseconds(d), Year)
  {
    var ms := Milliseconds(d);
    var c := CoarsestReached(ms, Year);
    AtLeastOneUnit(d);
    assert Rank(d.unit) <= Rank(c);
    if c != Year {
      assert ms < MsPer(Next(c)) as real;
    }
    assert IsHighestUnit(d.unit, ms, c);
    HighestTimeUnitCharacterized(d, c);
  }

  /**
   Two spellings of the same length of time (120s and 2m, say), each with an
   amount of at least one, have the same highest unit and the same validity.
   */
  lemma SameLengthSameClassification(d1: Duration, d2: Duration)
    requires d1.amount >= 1.0 && d2.amount >= 1.0
    requires Milliseconds(d1) == Milliseconds(d2)
    ensures HighestTimeUnit(d1) == HighestTimeUnit(d2)
    ensures IsValidRolloverInterval(d1) == IsValidRolloverInterval(d2)
  {
    TopDownAgrees(d1);
    TopDownAgrees(d2);
  }
}
