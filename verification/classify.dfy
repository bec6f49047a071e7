/**
 * `pbp_calc_next`: the in-place scan that writes the next-possession value
 * onto every missed shot of one game's play-by-play table.
 */
module Classifier {
  import opened Common
  import opened Text
  import opened PlayByPlay

  /**
   * gather.py:50-74: the missed shot at `i` is followed by a made shot. The
   * row raises exactly when the maker's description is absent, or when the
   * row after the make is a free throw by the maker's side without a
   * description on that side; otherwise the scan breaks exactly when the make
   * is the last row; otherwise the value has magnitude 2 to 4 and is positive
   * exactly when the maker's side is the side that missed.
   */
  method MadeShotRow(plays: seq<Play>, i: nat, homeFlag: bool) returns (step: Step)
    requires i + 1 < |plays|
    requires homeFlag == MissedByHome(plays[i])
    ensures step == MadeShotStep(plays, i)
    ensures var shootHome := ByHome(plays[i + 1]);
            step.Crash? <==>
              || SideDescription(plays[i + 1], shootHome).None?
              || (&& i + 2 < |plays| && plays[i + 2].msgType == FREE_THROW && ByHome(plays[i + 2]) == shootHome
                  && SideDescription(plays[i + 2], shootHome).None?)
    ensures step.Halt? <==> !step.Crash? && i + 2 == |plays|
    ensures step.Add? ==> 2 <= Abs(step.delta) <= 4 && (step.delta > 0 <==> ByHome(plays[i + 1]) == homeFlag)
  {
    var n := |plays|;
    var nextShot := plays[i + 1];
    var shootFlag := Truthy(nextShot.home);
    var sign := Sign(shootFlag, homeFlag);
    var desc := SideDescription(nextShot, shootFlag);
    if desc.None? {
      return Crash;
    }
    var value := 2;
    if Contains(desc.value, "3PT") {
      value := value + 1;
    }
    if i + 2 >= n {
      return Halt;
    }
    var nextNextShot := plays[i + 2];
    if nextNextShot.msgType == FREE_THROW {
      var teamFlag := Truthy(nextNextShot.home);
      if teamFlag == shootFlag {
        var after := SideDescription(nextNextShot, shootFlag);
        if after.None? {
          return Crash;
        }
        if !Contains(after.value, "MISS") {
          value := value + 1;
        }
      }
    }
    return Add(sign * value);
  }

  /**
   * gather.py:81-99: the missed shot at `i` is followed by a free throw. The
   * row raises exactly when the shooter's description is absent, or has "of"
   * but no digit after its first " of "; it never breaks. With "of" the
   * magnitude is at most the attempt total; without it the value is nonzero
   * exactly for a technical that was not missed, and then of magnitude 1. A
   * nonzero value is positive exactly when the shooter's side is the side
   * that missed.
   */
  method FreeThrowRow(plays: seq<Play>, i: nat, homeFlag: bool) returns (step: Step)
    requires i + 1 < |plays|
    requires homeFlag == MissedByHome(plays[i])
    ensures step == FreeThrowStep(plays, i)
    ensures var desc := SideDescription(plays[i + 1], ByHome(plays[i + 1]));
            step.Crash? <==> desc.None? || (Contains(desc.value, "of") && AttemptTotal(desc.value).None?)
    ensures !step.Halt?
    ensures var desc := SideDescription(plays[i + 1], ByHome(plays[i + 1]));
            step.Add? && Contains(desc.value, "of") ==> Abs(step.delta) <= AttemptTotal(desc.value).value
    ensures var desc := SideDescription(plays[i + 1], ByHome(plays[i + 1]));
            step.Add? && !Contains(desc.value, "of") ==>
              Abs(step.delta) <= 1
              && (step.delta != 0 <==> Contains(desc.value, "Technical") && !Contains(desc.value, "MISS"))
    ensures step.Add? && step.delta != 0 ==> (step.delta > 0 <==> ByHome(plays[i + 1]) == homeFlag)
  {
    var n := |plays|;
    var nextShot := plays[i + 1];
    var ftFlag := Truthy(nextShot.home);
    var sign := Sign(ftFlag, homeFlag);
    var desc := SideDescription(nextShot, ftFlag);
    if desc.None? {
      return Crash;
    }
    var value;
    if Contains(desc.value, "of") {
      var count := AttemptTotal(desc.value);
      if count.None? {
        return Crash;
      }
      value := count.value - MissCount(plays, i + 1, Min(i + 1 + count.value, n), ftFlag);
    } else if Contains(desc.value, "Technical") && !Contains(desc.value, "MISS") {
      value := 1;
    } else {
      value := 0;
    }
    return Add(sign * value);
  }

  /**
   * The body of the scan at one row `i` of the table: which value the row's
   * NEXT cell receives, or whether the scan breaks or raises here. Reads only
   * the five columns that the scan never changes.
   */
  method RowStep(plays: seq<Play>, i: nat) returns (step: Step)
    requires i < |plays|
    ensures step == StepAt(plays, i)
  {
    var shot := plays[i];
    if shot.msgType != MISSED {
      return Add(0);
    }
    var homeFlag := Truthy(shot.home) && Contains(shot.home.value, "MISS");
    if i + 1 >= |plays| {
      return Halt;
    }
    var nextShot := plays[i + 1];
    if nextShot.msgType == MADE {
      step := MadeShotRow(plays, i, homeFlag);
    } else if nextShot.msgType == MISSED {
      step := Add(0);
    } else if nextShot.msgType == FREE_THROW {
      step := FreeThrowRow(plays, i, homeFlag);
    } else {
      step := Add(0);
    }
  }

  /**
   * Keeps the made-shot, missed-shot and free-throw rows, gives every row a
   * NEXT cell of 0, then walks the rows in order and adds the signed value of
   * the following one or two rows to each missed shot's cell. Returns the
   * table, or `Err(i)` when the row at `i` raises.
   */
  method CalcNext(pbp: seq<Play>) returns (res: Result<seq<Event>, nat>)
    ensures res == Classified(pbp)
  {
    var plays := ShotRows(pbp);
    var n := |plays|;
    var table := new Event[n](j requires 0 <= j < n => Event(plays[j], 0));
    var i := 0;
    while i < n
      invariant i <= StopIndex(plays)
      invariant forall j {:trigger table[j]} :: 0 <= j < n ==> table[j].play == plays[j]
      invariant forall j {:trigger table[j]} :: 0 <= j < n ==>
                  table[j].next == if j < i then StepAt(plays, j).delta else 0
    {
      var step := RowStep(plays, i);
      match step
      case Halt =>
        StopsAt(plays, i);
        break;
      case Crash =>
        StopsAt(plays, i);
        ClassifiedCrash(pbp);
        return Err(i);
      case Add(value) =>
        table[i] := table[i].(next := table[i].next + value);
      i := i + 1;
    }
    assert i == StopIndex(plays) && !Crashes(plays);
    ClassifiedTable(pbp, table[..]);
    return Ok(table[..]);
  }

  lemma StopsAt(plays: seq<Play>, i: nat)
    requires i < |plays| && i <= StopIndex(plays) && !StepAt(plays, i).Add?
    ensures StopIndex(plays) == i
  {
  }

  lemma ClassifiedCrash(pbp: seq<Play>)
    requires Crashes(ShotRows(pbp))
    ensures Classified(pbp) == Err(StopIndex(ShotRows(pbp)))
  {
  }

  lemma ClassifiedTable(pbp: seq<Play>, table: seq<Event>)
    requires !Crashes(ShotRows(pbp))
    requires |table| == |ShotRows(pbp)|
    requires forall j :: 0 <= j < |table| ==>
               table[j].play == ShotRows(pbp)[j]
               && table[j].next == if j < StopIndex(ShotRows(pbp)) then StepAt(ShotRows(pbp), j).delta else 0
    ensures Classified(pbp) == Ok(table)
  {
    var plays := ShotRows(pbp);
    assert table == seq(|plays|, j requires 0 <= j < |plays| => Event(plays[j], ExpectedNext(plays, j)));
  }
}
