/**
 * `get_all_misses`: every missed shot of the season, gathered from the shot
 * charts of all players. The charts themselves come from the statistics
 * service; here they are the input, one sequence of shots per player.
 */
module Misses {
  import opened PlayByPlay

  /** One row of a player's shot chart, reduced to the columns the model reads. */
  datatype Shot = Shot(
    gameId: GameId,
    gameEventId: int,
    locX: int,
    locY: int,
    distance: int,
    madeFlag: int)

  /** A missed shot's location: the five columns `get_all_misses` keeps. */
  datatype MissLoc = MissLoc(gameId: GameId, gameEventId: int, locX: int, locY: int, distance: int)

  function Located(s: Shot): MissLoc
  {
    MissLoc(s.gameId, s.gameEventId, s.locX, s.locY, s.distance)
  }

  /** `shots[shots['SHOT_MADE_FLAG'] == 0][['GAME_ID', 'GAME_EVENT_ID', 'LOC_X', 'LOC_Y', 'SHOT_DISTANCE']]`. */
  function MissesOf(shots: seq<Shot>): (r: seq<MissLoc>)
    ensures |r| <= |shots|
    ensures forall m :: m in r <==> exists s :: s in shots && s.madeFlag == 0 && m == Located(s)
  {
    if shots == [] then []
    else
      var rest := MissesOf(shots[1..]);
      assert forall s :: s in shots <==> s == shots[0] || s in shots[1..];
      (if shots[0].madeFlag == 0 then [Located(shots[0])] else []) + rest
  }

  /** The misses of the first `|charts|` players, appended in player order. */
  function AllMisses(charts: seq<seq<Shot>>): (r: seq<MissLoc>)
    ensures forall m :: m in r <==>
              exists k, s :: 0 <= k < |charts| && s in charts[k] && s.madeFlag == 0 && m == Located(s)
  {
    if charts == [] then []
    else
      var last := |charts| - 1;
      var r := AllMisses(charts[..last]) + MissesOf(charts[last]);
      assert forall k :: 0 <= k < last ==> charts[..last][k] == charts[k];
      r
  }

  /**
   * Walks the players' shot charts in order and appends each chart's misses
   * to the accumulated table.
   */
  method GetAllMisses(charts: seq<seq<Shot>>) returns (all: seq<MissLoc>)
    ensures all == AllMisses(charts)
  {
    all := [];
    var k := 0;
    while k < |charts|
      invariant k <= |charts|
      invariant all == AllMisses(charts[..k])
    {
      var misses := MissesOf(charts[k]);
      assert charts[..k + 1][..k] == charts[..k];
      all := all + misses;
      k := k + 1;
    }
    assert charts[..k] == charts;
  }
}
