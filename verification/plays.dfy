/**
 * Play-by-play rows of one game and the specification of the next-possession
 * value that `pbp_calc_next` writes onto each missed shot.
 *
 * The scan visits the rows in order. At a row that is not a missed shot it
 * does nothing. At a missed shot it looks at the next one or two rows and
 * either adds a signed point value to the row's NEXT cell, stops the whole
 * scan (the `break`s at the end of the table), or raises (a description it
 * needs is absent, or a free-throw description it cannot parse). `StepAt`
 * says which of the three happens at one row, `StopIndex` is the row where the
 * scan ends, and `Classified` is the table the scan returns.
 */
module PlayByPlay {
  import opened Common
  import opened Text

  /** EVENTMSGTYPE codes. */
  const MADE := 1
  const MISSED := 2
  const FREE_THROW := 3

  type GameId = string

  /** One play-by-play row, reduced to the five columns the scan keeps. */
  datatype Play = Play(
    gameId: GameId,
    eventNum: int,
    msgType: int,
    home: Option<string>,
    visitor: Option<string>)

  /** A row of the classified table: the play and its NEXT column. */
  datatype Event = Event(play: Play, next: int)

  /** What the scan does at one row. */
  datatype Step =
    | Add(delta: int)  // add `delta` to this row's NEXT (0 when nothing is written)
    | Halt             // `break`: the scan ends here and returns the table
    | Crash            // the row raises and no table is returned

  /** `pbp[pbp['EVENTMSGTYPE'] <= 3]` (made shots, missed shots, free throws), order kept. */
  function ShotRows(pbp: seq<Play>): (r: seq<Play>)
    ensures |r| <= |pbp|
    ensures forall p :: p in r <==> p in pbp && p.msgType <= FREE_THROW
  {
    if pbp == [] then []
    else (if pbp[0].msgType <= FREE_THROW then [pbp[0]] else []) + ShotRows(pbp[1..])
  }

  /** The positions, from `i` on, of the rows `ShotRows` keeps, in increasing order. */
  function KeptFrom(pbp: seq<Play>, i: nat): seq<nat>
    requires i <= |pbp|
    decreases |pbp| - i
  {
    if i == |pbp| then []
    else (if pbp[i].msgType <= FREE_THROW then [i] else []) + KeptFrom(pbp, i + 1)
  }

  /** The positions in `pbp` of the rows `ShotRows` keeps. */
  function KeptIndices(pbp: seq<Play>): seq<nat>
  {
    KeptFrom(pbp, 0)
  }

  /**
   * The `k`-th row `ShotRows(pbp[i..])` keeps is the input row at position
   * `KeptFrom(pbp, i)[k]`, and those positions lie in `[i, |pbp|)`.
   */
  lemma {:induction false} ShotRowsFrom(pbp: seq<Play>, i: nat)
    requires i <= |pbp|
    ensures |KeptFrom(pbp, i)| == |ShotRows(pbp[i..])|
    ensures forall k :: 0 <= k < |KeptFrom(pbp, i)| ==>
              i <= KeptFrom(pbp, i)[k] < |pbp| && ShotRows(pbp[i..])[k] == pbp[KeptFrom(pbp, i)[k]]
    decreases |pbp| - i
  {
    if i < |pbp| {
      ShotRowsFrom(pbp, i + 1);
      assert pbp[i..][1..] == pbp[i + 1..];
      var h := if pbp[i].msgType <= FREE_THROW then 1 else 0;
      var rows := ShotRows(pbp[i..]);
      var idx := KeptFrom(pbp, i);
      assert rows == (if h == 1 then [pbp[i]] else []) + ShotRows(pbp[i + 1..]);
      assert idx == (if h == 1 then [i] else []) + KeptFrom(pbp, i + 1);
      forall k | h <= k < |idx|
        ensures i <= idx[k] < |pbp| && rows[k] == pbp[idx[k]]
      {
        assert rows[k] == ShotRows(pbp[i + 1..])[k - h];
        assert idx[k] == KeptFrom(pbp, i + 1)[k - h];
      }
    }
  }

  /** The `k`-th kept row is the input row at position `KeptIndices(pbp)[k]`. */
  lemma ShotRowsAt(pbp: seq<Play>)
    ensures |KeptIndices(pbp)| == |ShotRows(pbp)|
    ensures forall k :: 0 <= k < |KeptIndices(pbp)| ==>
              KeptIndices(pbp)[k] < |pbp| && ShotRows(pbp)[k] == pbp[KeptIndices(pbp)[k]]
  {
    ShotRowsFrom(pbp, 0);
    assert pbp[0..] == pbp;
  }

  /** The positions from `i` on strictly increase and each is at least `i`. */
  lemma {:induction false} KeptFromIncrease(pbp: seq<Play>, i: nat)
    requires i <= |pbp|
    ensures forall k :: 0 <= k < |KeptFrom(pbp, i)| ==> i <= KeptFrom(pbp, i)[k]
    ensures forall k, l :: 0 <= k < l < |KeptFrom(pbp, i)| ==> KeptFrom(pbp, i)[k] < KeptFrom(pbp, i)[l]
    decreases |pbp| - i
  {
    if i < |pbp| {
      KeptFromIncrease(pbp, i + 1);
    }
  }

  /** The kept positions strictly increase, so the filter keeps the input's order. */
  lemma KeptIndicesIncrease(pbp: seq<Play>)
    ensures forall k, l :: 0 <= k < l < |KeptIndices(pbp)| ==> KeptIndices(pbp)[k] < KeptIndices(pbp)[l]
  {
    KeptFromIncrease(pbp, 0);
  }

  /** Every position from `i` on whose type is at most 3 is kept. */
  lemma {:induction false} KeptFromComplete(pbp: seq<Play>, i: nat)
    requires i <= |pbp|
    ensures forall j :: i <= j < |pbp| && pbp[j].msgType <= FREE_THROW ==> j in KeptFrom(pbp, i)
    decreases |pbp| - i
  {
    if i < |pbp| {
      KeptFromComplete(pbp, i + 1);
    }
  }

  /** Every input position whose type is at most 3 is kept, so no such row is dropped. */
  lemma KeptIndicesComplete(pbp: seq<Play>)
    ensures forall i :: 0 <= i < |pbp| && pbp[i].msgType <= FREE_THROW ==> i in KeptIndices(pbp)
  {
    KeptFromComplete(pbp, 0);
  }

  /** The row belongs to the home side: its home description is present and non-empty. */
  predicate ByHome(p: Play)
  {
    Truthy(p.home)
  }

  /** The missed shot is the home side's: its home description is non-empty and mentions MISS. */
  predicate MissedByHome(p: Play)
  {
    Truthy(p.home) && Contains(p.home.value, "MISS")
  }

  /** The description column of the chosen side: `row[team + 'DESCRIPTION']`. */
  function SideDescription(p: Play, home: bool): Option<string>
  {
    if home then p.home else p.visitor
  }

  /** +1 when the side that scores is the side that missed, -1 otherwise. */
  function Sign(scorerHome: bool, missHome: bool): (s: int)
    ensures s == 1 || s == -1
    ensures s == 1 <==> scorerHome == missHome
  {
    (if scorerHome == missHome then 1 else 0) * 2 - 1
  }

  /** `str.contains('MISS')` on one cell of the chosen side's column; an absent cell is not a miss. */
  predicate MissMarked(p: Play, home: bool)
  {
    var d := SideDescription(p, home);
    d.Some? && Contains(d.value, "MISS")
  }

  /**
   * The number of rows among `plays[lo..hi]` whose description on the chosen
   * side mentions MISS: `pbp.iloc[lo:hi][team + 'DESCRIPTION'].str.contains('MISS').sum()`.
   */
  function MissCount(plays: seq<Play>, lo: nat, hi: nat, home: bool): (c: nat)
    requires lo <= hi <= |plays|
    ensures c <= hi - lo
    decreases hi - lo
  {
    if lo == hi then 0
    else (if MissMarked(plays[lo], home) then 1 else 0) + MissCount(plays, lo + 1, hi, home)
  }

  /** The and-one test: the row after the make is a free throw by the maker's side that was not missed. */
  predicate AndOne(plays: seq<Play>, i: nat)
    requires i + 2 < |plays|
  {
    var made, after := plays[i + 1], plays[i + 2];
    after.msgType == FREE_THROW && ByHome(after) == ByHome(made) && !MissMarked(after, ByHome(made))
  }

  /** The missed shot at `i` is followed by a made shot at `i + 1`. */
  function MadeShotStep(plays: seq<Play>, i: nat): Step
    requires i + 1 < |plays|
  {
    var made := plays[i + 1];
    var shootHome := ByHome(made);
    var sign := Sign(shootHome, MissedByHome(plays[i]));
    var desc := SideDescription(made, shootHome);
    if desc.None? then Crash
    else if i + 2 >= |plays| then Halt
    else
      var after := plays[i + 2];
      if after.msgType == FREE_THROW && ByHome(after) == shootHome && SideDescription(after, shootHome).None? then
        Crash
      else
        Add(sign * (2 + (if Contains(desc.value, "3PT") then 1 else 0) + (if AndOne(plays, i) then 1 else 0)))
  }

  /** The missed shot at `i` is followed by a free throw at `i + 1`. */
  function FreeThrowStep(plays: seq<Play>, i: nat): Step
    requires i + 1 < |plays|
  {
    var ft := plays[i + 1];
    var ftHome := ByHome(ft);
    var sign := Sign(ftHome, MissedByHome(plays[i]));
    var desc := SideDescription(ft, ftHome);
    if desc.None? then Crash
    else if Contains(desc.value, "of") then
      match AttemptTotal(desc.value)
      case None => Crash
      case Some(total) =>
        Add(sign * (total - MissCount(plays, i + 1, Min(i + 1 + total, |plays|), ftHome)))
    else if Contains(desc.value, "Technical") && !Contains(desc.value, "MISS") then
      Add(sign)
    else
      Add(0)
  }

  /** What the scan does at row `i`. */
  function StepAt(plays: seq<Play>, i: nat): (r: Step)
    requires i < |plays|
    ensures plays[i].msgType != MISSED ==> r == Add(0)
    ensures r.Halt? ==>
              plays[i].msgType == MISSED
              && (i + 1 == |plays| || (i + 2 == |plays| && plays[i + 1].msgType == MADE))
    ensures r.Crash? ==>
              plays[i].msgType == MISSED && i + 1 < |plays|
              && (plays[i + 1].msgType == MADE || plays[i + 1].msgType == FREE_THROW)
    ensures r.Add? && r.delta != 0 ==>
              plays[i].msgType == MISSED && i + 1 < |plays|
              && (plays[i + 1].msgType == MADE || plays[i + 1].msgType == FREE_THROW)
  {
    if plays[i].msgType != MISSED then Add(0)
    else if i + 1 >= |plays| then Halt
    else if plays[i + 1].msgType == MADE then MadeShotStep(plays, i)
    else if plays[i + 1].msgType == MISSED then Add(0)
    else if plays[i + 1].msgType == FREE_THROW then FreeThrowStep(plays, i)
    else Add(0)
  }

  /** The first row at or after `i` where the scan does not simply add a value and move on. */
  function StopFrom(plays: seq<Play>, i: nat): (h: nat)
    requires i <= |plays|
    ensures i <= h <= |plays|
    ensures forall j :: i <= j < h ==> StepAt(plays, j).Add?
    ensures h < |plays| ==> !StepAt(plays, h).Add?
    decreases |plays| - i
  {
    if i == |plays| then i
    else if StepAt(plays, i).Add? then StopFrom(plays, i + 1)
    else i
  }

  /** The row where the scan ends: it halts or raises there, or it is the length of the table. */
  function StopIndex(plays: seq<Play>): nat
  {
    StopFrom(plays, 0)
  }

  /** The scan raises. */
  predicate Crashes(plays: seq<Play>)
  {
    var h := StopIndex(plays);
    h < |plays| && StepAt(plays, h).Crash?
  }

  /** The NEXT value row `j` ends with: its step's value if the scan got past it, 0 otherwise. */
  function ExpectedNext(plays: seq<Play>, j: nat): int
    requires j < |plays|
  {
    if j < StopIndex(plays) then StepAt(plays, j).delta else 0
  }

  /**
   * The table `pbp_calc_next` returns, or the index of the row whose
   * classification raised.
   */
  function Classified(pbp: seq<Play>): Result<seq<Event>, nat>
  {
    var plays := ShotRows(pbp);
    if Crashes(plays) then Err(StopIndex(plays))
    else Ok(seq(|plays|, j requires 0 <= j < |plays| => Event(plays[j], ExpectedNext(plays, j))))
  }
}
