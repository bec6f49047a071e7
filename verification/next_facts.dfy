/**
 * What the next-possession value of a missed shot is, case by case, stated
 * on the specification of the scan (`PlayByPlay`), which `CalcNext` is
 * proved to compute.
 */
module NextValueFacts {
  import opened Common
  import opened Text
  import opened PlayByPlay

  /** The description of the side a row is attributed to (home when its home description is non-empty). */
  function OwnDescription(p: Play): Option<string>
  {
    SideDescription(p, ByHome(p))
  }

  /** A row whose step adds a value and that the scan reached lies before the stop row. */
  lemma PassedWhenAdded(plays: seq<Play>, i: nat)
    requires i < |plays| && i <= StopIndex(plays) && StepAt(plays, i).Add?
    ensures i < StopIndex(plays)
  {
  }

  /** The scan gets past row `j` exactly when every row up to `j` adds a value (first stop wins). */
  lemma {:induction false} PassedIff(plays: seq<Play>, j: nat)
    requires j < |plays|
    ensures j < StopIndex(plays) <==> forall k :: 0 <= k <= j ==> StepAt(plays, k).Add?
  {
    var h := StopIndex(plays);
    if j >= h {
      assert !StepAt(plays, h).Add?;
    }
  }

  /** The row `j` of the returned table is the `j`-th kept row with its expected NEXT value. */
  lemma ClassifiedRow(pbp: seq<Play>, j: nat)
    requires Classified(pbp).Ok? && j < |ShotRows(pbp)|
    ensures |Classified(pbp).value| == |ShotRows(pbp)|
    ensures Classified(pbp).value[j] == Event(ShotRows(pbp)[j], ExpectedNext(ShotRows(pbp), j))
  {
  }

  /**
   * The returned table holds the kept rows in the input's order: row `j` is
   * the input row at position `KeptIndices(pbp)[j]`, of type at most 3; those
   * positions strictly increase and cover every input row of type at most 3.
   */
  lemma ClassifiedKeepsShotRows(pbp: seq<Play>, table: seq<Event>, j: nat)
    requires Classified(pbp) == Ok(table) && j < |table|
    ensures |table| == |KeptIndices(pbp)|
    ensures KeptIndices(pbp)[j] < |pbp| && table[j].play == pbp[KeptIndices(pbp)[j]]
    ensures table[j].play.msgType <= FREE_THROW
    ensures forall l :: j < l < |table| ==> KeptIndices(pbp)[j] < KeptIndices(pbp)[l]
  {
    ClassifiedRow(pbp, j);
    ShotRowsAt(pbp);
    KeptIndicesIncrease(pbp);
    assert ShotRows(pbp)[j] in ShotRows(pbp);
  }

  /**
   * NEXT is 0 on every row that is not a missed shot, on every missed shot
   * followed by neither a make nor a free throw, and on every row from the
   * one where the scan stopped onwards.
   */
  lemma ExpectedNextZero(plays: seq<Play>, j: nat)
    requires j < |plays|
    ensures plays[j].msgType != MISSED ==> ExpectedNext(plays, j) == 0
    ensures StopIndex(plays) <= j ==> ExpectedNext(plays, j) == 0
    ensures ExpectedNext(plays, j) != 0 ==>
              && j + 1 < |plays| && plays[j].msgType == MISSED
              && (plays[j + 1].msgType == MADE || plays[j + 1].msgType == FREE_THROW)
  {
    if j < StopIndex(plays) {
      var step := StepAt(plays, j);
      assert step.Add?;
    }
  }

  /** The same, read on the returned table. */
  lemma ClassifiedNextZero(pbp: seq<Play>, table: seq<Event>, j: nat)
    requires Classified(pbp) == Ok(table) && j < |table|
    ensures table[j].play.msgType != MISSED ==> table[j].next == 0
    ensures table[j].next != 0 ==>
              && j + 1 < |table| && table[j].play.msgType == MISSED
              && (table[j + 1].play.msgType == MADE || table[j + 1].play.msgType == FREE_THROW)
  {
    var plays := ShotRows(pbp);
    ClassifiedRow(pbp, j);
    var e := table[j];
    assert e.play == plays[j] && e.next == ExpectedNext(plays, j);
    ExpectedNextZero(plays, j);
    if j + 1 < |plays| {
      ClassifiedRow(pbp, j + 1);
      assert table[j + 1].play == plays[j + 1];
    }
  }

  /**
   * A miss followed by a make with a row after it: the value is 2, or 3 for
   * a three-pointer, plus 1 for an and-one free throw; positive exactly when
   * the scorer is the side that missed.
   */
  lemma MadeShotNext(plays: seq<Play>, i: nat)
    requires i + 2 < |plays|
    requires plays[i].msgType == MISSED && plays[i + 1].msgType == MADE
    requires i <= StopIndex(plays) && !Crashes(plays)
    ensures OwnDescription(plays[i + 1]).Some?
    ensures var v := ExpectedNext(plays, i);
            && Abs(v) == 2 + (if Contains(OwnDescription(plays[i + 1]).value, "3PT") then 1 else 0)
                           + (if AndOne(plays, i) then 1 else 0)
            && 2 <= Abs(v) <= 4
            && (v > 0 <==> ByHome(plays[i + 1]) == MissedByHome(plays[i]))
  {
    ReachedValue(plays, i);
    assert StepAt(plays, i) == MadeShotStep(plays, i);
  }

  /** A miss followed by another miss keeps the value 0. */
  lemma MissAfterMissNext(plays: seq<Play>, i: nat)
    requires i + 1 < |plays|
    requires plays[i].msgType == MISSED && plays[i + 1].msgType == MISSED
    ensures ExpectedNext(plays, i) == 0
  {
  }

  /** At a row the scan reached that neither halts nor raises, NEXT is the row's step value. */
  lemma ReachedValue(plays: seq<Play>, i: nat)
    requires i < |plays| && i <= StopIndex(plays) && !Crashes(plays)
    requires !StepAt(plays, i).Halt?
    ensures StepAt(plays, i).Add? && ExpectedNext(plays, i) == StepAt(plays, i).delta
  {
  }

  /**
   * A miss followed by a free throw whose description has "of": the value is
   * the total Y (one digit) less the rows marked MISS among the next Y rows
   * (cut at the end of the table), so it lies between 0 and Y, and it is
   * positive exactly when the shooter is the side that missed.
   */
  lemma FreeThrowTripNext(plays: seq<Play>, i: nat)
    requires i + 1 < |plays|
    requires plays[i].msgType == MISSED && plays[i + 1].msgType == FREE_THROW
    requires i <= StopIndex(plays) && !Crashes(plays)
    requires OwnDescription(plays[i + 1]).Some? ==> Contains(OwnDescription(plays[i + 1]).value, "of")
    ensures OwnDescription(plays[i + 1]).Some?
    ensures var desc, home := OwnDescription(plays[i + 1]).value, ByHome(plays[i + 1]);
            && AttemptTotal(desc).Some?
            && var total, v := AttemptTotal(desc).value, ExpectedNext(plays, i);
               && Abs(v) == total - MissCount(plays, i + 1, Min(i + 1 + total, |plays|), home)
               && 0 <= Abs(v) <= total <= 9
               && (v != 0 ==> (v > 0 <==> home == MissedByHome(plays[i])))
  {
    ReachedValue(plays, i);
    assert StepAt(plays, i) == FreeThrowStep(plays, i);
  }

  /**
   * A miss followed by a free throw whose description lacks "of": the value
   * is 1 for a technical that was not missed and 0 otherwise, positive
   * exactly when the shooter is the side that missed.
   */
  lemma TechnicalFreeThrowNext(plays: seq<Play>, i: nat)
    requires i + 1 < |plays|
    requires plays[i].msgType == MISSED && plays[i + 1].msgType == FREE_THROW
    requires i <= StopIndex(plays) && !Crashes(plays)
    requires OwnDescription(plays[i + 1]).Some? ==> !Contains(OwnDescription(plays[i + 1]).value, "of")
    ensures OwnDescription(plays[i + 1]).Some?
    ensures var desc, v := OwnDescription(plays[i + 1]).value, ExpectedNext(plays, i);
            && Abs(v) == (if Contains(desc, "Technical") && !Contains(desc, "MISS") then 1 else 0)
            && (v != 0 ==> (v > 0 <==> ByHome(plays[i + 1]) == MissedByHome(plays[i])))
  {
    ReachedValue(plays, i);
    assert StepAt(plays, i) == FreeThrowStep(plays, i);
  }

  /** `MissCount` is the full window exactly when every row of it is marked MISS, and 0 when none is. */
  lemma {:induction false} MissCountExtremes(plays: seq<Play>, lo: nat, hi: nat, home: bool)
    requires lo <= hi <= |plays|
    ensures MissCount(plays, lo, hi, home) == 0 <==> forall j :: lo <= j < hi ==> !MissMarked(plays[j], home)
    ensures MissCount(plays, lo, hi, home) == hi - lo <==> forall j :: lo <= j < hi ==> MissMarked(plays[j], home)
    decreases hi - lo
  {
    if lo < hi {
      MissCountExtremes(plays, lo + 1, hi, home);
    }
  }

  /**
   * "2 of 2" free throws by the side that missed: +2 when neither is marked
   * MISS, +1 when one is, 0 when both are.
   */
  lemma TwoFreeThrowsNext(plays: seq<Play>, i: nat)
    requires i + 2 < |plays|
    requires plays[i].msgType == MISSED && plays[i + 1].msgType == FREE_THROW
    requires ByHome(plays[i + 1]) == MissedByHome(plays[i])
    requires OwnDescription(plays[i + 1]).Some?
    requires Contains(OwnDescription(plays[i + 1]).value, "of")
    requires AttemptTotal(OwnDescription(plays[i + 1]).value) == Some(2)
    requires i <= StopIndex(plays)
    ensures ExpectedNext(plays, i) ==
              2 - (if MissMarked(plays[i + 1], ByHome(plays[i + 1])) then 1 else 0)
                - (if MissMarked(plays[i + 2], ByHome(plays[i + 1])) then 1 else 0)
  {
    var home := ByHome(plays[i + 1]);
    assert Min(i + 3, |plays|) == i + 3;
    assert MissCount(plays, i + 3, i + 3, home) == 0;
    assert MissCount(plays, i + 2, i + 3, home) == if MissMarked(plays[i + 2], home) then 1 else 0;
    PassedWhenAdded(plays, i);
  }

  /** A missed shot in the last row keeps 0; if the scan gets there it stops there without raising. */
  lemma LastMissNext(plays: seq<Play>)
    requires |plays| > 0 && plays[|plays| - 1].msgType == MISSED
    ensures ExpectedNext(plays, |plays| - 1) == 0
    ensures |plays| - 1 <= StopIndex(plays) ==> StopIndex(plays) == |plays| - 1 && !Crashes(plays)
  {
  }

  /**
   * A missed shot followed by a make in the last row keeps 0 (the scan breaks
   * before writing); if the scan gets there and the make's description is
   * present, it stops there without raising.
   */
  lemma MakeInLastRowNext(plays: seq<Play>)
    requires |plays| >= 2
    requires plays[|plays| - 2].msgType == MISSED && plays[|plays| - 1].msgType == MADE
    ensures ExpectedNext(plays, |plays| - 2) == 0 && ExpectedNext(plays, |plays| - 1) == 0
    ensures |plays| - 2 <= StopIndex(plays) && OwnDescription(plays[|plays| - 1]).Some? ==>
              StopIndex(plays) == |plays| - 2 && !Crashes(plays)
  {
  }
}
