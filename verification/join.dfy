/**
 * `join_misses_locs`: for every game, classify its play-by-play rows, match
 * the missed shots to their locations by event number, and append the
 * located misses with their next-possession values to one table. The
 * play-by-play rows of each game come from the statistics service; here they
 * are the input, one sequence per game, in the order of `games`.
 */
module MissJoin {
  import opened Common
  import opened PlayByPlay
  import opened Misses
  import Classifier

  /** One output row: where a missed shot was taken and what the next possession was worth. */
  datatype MissValue = MissValue(locX: int, locY: int, distance: int, next: int)

  /** Classifying the play-by-play of game `game` raised at row `row`. */
  datatype JoinError = ClassifyFailed(game: GameId, row: nat)

  /** `all_misses[all_misses['GAME_ID'] == g]`. */
  function GameMisses(all: seq<MissLoc>, g: GameId): (r: seq<MissLoc>)
    ensures forall m :: m in r <==> m in all && m.gameId == g
  {
    if all == [] then []
    else
      assert forall m :: m in all <==> m == all[0] || m in all[1..];
      (if all[0].gameId == g then [all[0]] else []) + GameMisses(all[1..], g)
  }

  /** The output row for a classified missed shot and one of its locations. */
  function Joined(e: Event, m: MissLoc): MissValue
  {
    MissValue(m.locX, m.locY, m.distance, e.next)
  }

  /** Event numbers match. */
  predicate SameEvent(e: Event, m: MissLoc)
  {
    e.play.eventNum == m.gameEventId
  }

  /** The locations in `ms` whose event number is `e`'s, joined with `e`. */
  function MatchesOf(e: Event, ms: seq<MissLoc>): (r: seq<MissValue>)
    ensures forall o :: o in r <==> exists m :: m in ms && SameEvent(e, m) && o == Joined(e, m)
  {
    if ms == [] then []
    else
      assert forall m :: m in ms <==> m == ms[0] || m in ms[1..];
      (if SameEvent(e, ms[0]) then [Joined(e, ms[0])] else []) + MatchesOf(e, ms[1..])
  }

  /**
   * `pd.merge(pbp, ms, how='inner', on=['EVENTNUM'])` restricted to missed
   * shots and projected to LOC_X, LOC_Y, SHOT_DISTANCE, NEXT. Keeping only
   * the missed shots before matching gives the same rows as the filter after the
   * merge in `join_misses_locs`.
   */
  function MergeMisses(table: seq<Event>, ms: seq<MissLoc>): (r: seq<MissValue>)
    ensures forall o :: o in r <==>
              exists e, m :: e in table && m in ms && e.play.msgType == MISSED && SameEvent(e, m) && o == Joined(e, m)
  {
    if table == [] then []
    else
      assert forall e :: e in table <==> e == table[0] || e in table[1..];
      (if table[0].play.msgType == MISSED then MatchesOf(table[0], ms) else []) + MergeMisses(table[1..], ms)
  }

  /** What classifying one game gives: its table, or the row where it raised. */
  type Outcome = Result<seq<Event>, nat>

  /** The classification of every game's rows, in game order. */
  function Outcomes(pbps: seq<seq<Play>>): seq<Outcome>
  {
    seq(|pbps|, k requires 0 <= k < |pbps| => Classified(pbps[k]))
  }

  /**
   * The tables of the games, in order, or the error of the first game whose
   * classification raised. An exception ends `join_misses_locs` and discards
   * what it gathered, so the tables can be taken first and joined after.
   */
  function ClassifyAll(games: seq<GameId>, outcomes: seq<Outcome>): (r: Result<seq<seq<Event>>, JoinError>)
    requires |outcomes| == |games|
    ensures r.Ok? ==> |r.value| == |games|
  {
    if games == [] then Ok([])
    else
      var last := |games| - 1;
      match ClassifyAll(games[..last], outcomes[..last])
      case Err(e) => Err(e)
      case Ok(tables) =>
        match outcomes[last]
        case Err(row) => Err(ClassifyFailed(games[last], row))
        case Ok(table) => Ok(tables + [table])
  }

  /** The joined rows of each game, in game order. */
  function GameParts(allMisses: seq<MissLoc>, games: seq<GameId>, tables: seq<seq<Event>>): seq<seq<MissValue>>
    requires |tables| == |games|
  {
    seq(|games|, k requires 0 <= k < |games| => MergeMisses(tables[k], GameMisses(allMisses, games[k])))
  }

  /** The parts appended in order, as the repeated `append` builds the output table. */
  function Concat(parts: seq<seq<MissValue>>): (r: seq<MissValue>)
    ensures forall o :: o in r <==> exists k :: 0 <= k < |parts| && o in parts[k]
  {
    if parts == [] then []
    else
      var last := |parts| - 1;
      assert forall k :: 0 <= k < last ==> parts[..last][k] == parts[k];
      Concat(parts[..last]) + parts[last]
  }

  /** Classifying and joining one more game appends that game's joined rows. */
  lemma AppendGame(allMisses: seq<MissLoc>, games: seq<GameId>, tables: seq<seq<Event>>, k: nat, table: seq<Event>)
    requires k < |games| && |tables| == k
    ensures Concat(GameParts(allMisses, games[..k + 1], tables + [table])) ==
              Concat(GameParts(allMisses, games[..k], tables)) + MergeMisses(table, GameMisses(allMisses, games[k]))
  {
    var parts := GameParts(allMisses, games[..k + 1], tables + [table]);
    assert parts[..k] == GameParts(allMisses, games[..k], tables);
    assert parts[k] == MergeMisses(table, GameMisses(allMisses, games[k]));
  }

  /** Below `n`, the prefixes of two sequences agree with them. */
  lemma PrefixAt<S, T>(s: seq<S>, t: seq<T>, n: nat)
    requires n <= |s| && n <= |t|
    ensures forall k :: 0 <= k < n ==> s[..n][k] == s[k] && t[..n][k] == t[k]
  {
  }

  /** The table `join_misses_locs` returns, or the first game whose classification raised. */
  function JoinAll(allMisses: seq<MissLoc>, games: seq<GameId>, pbps: seq<seq<Play>>): Result<seq<MissValue>, JoinError>
    requires |pbps| == |games|
  {
    match ClassifyAll(games, Outcomes(pbps))
    case Err(e) => Err(e)
    case Ok(tables) => Ok(Concat(GameParts(allMisses, games, tables)))
  }

  /** Once a game raises, so does every longer list of games that starts with it. */
  lemma {:induction false} ClassifyAllErrPersists(games: seq<GameId>, outcomes: seq<Outcome>, k: nat)
    requires |outcomes| == |games| && k <= |games|
    requires ClassifyAll(games[..k], outcomes[..k]).Err?
    ensures ClassifyAll(games, outcomes) == ClassifyAll(games[..k], outcomes[..k])
    decreases |games| - k
  {
    if k < |games| {
      assert games[..k + 1][..k] == games[..k];
      assert outcomes[..k + 1][..k] == outcomes[..k];
      ClassifyAllErrPersists(games, outcomes, k + 1);
    } else {
      assert games[..k] == games && outcomes[..k] == outcomes;
    }
  }

  /** The walk over the games succeeds exactly when every game's classification succeeds. */
  lemma {:induction false} ClassifyAllOkIff(games: seq<GameId>, outcomes: seq<Outcome>)
    requires |outcomes| == |games|
    ensures ClassifyAll(games, outcomes).Ok? <==> forall k :: 0 <= k < |games| ==> outcomes[k].Ok?
    decreases |games|
  {
    if games != [] {
      var last := |games| - 1;
      ClassifyAllOkIff(games[..last], outcomes[..last]);
      PrefixAt(games, outcomes, last);
    }
  }

  /**
   * When the walk fails, its error names the first game whose classification
   * raised, with the row where it raised: every earlier game classifies.
   */
  lemma {:induction false} ClassifyAllFirstError(games: seq<GameId>, outcomes: seq<Outcome>)
    requires |outcomes| == |games|
    ensures ClassifyAll(games, outcomes).Err? ==>
              exists k :: 0 <= k < |games|
                && (forall j :: 0 <= j < k ==> outcomes[j].Ok?)
                && outcomes[k].Err?
                && ClassifyAll(games, outcomes).error == ClassifyFailed(games[k], outcomes[k].error)
    decreases |games|
  {
    if games != [] && ClassifyAll(games, outcomes).Err? {
      var last := |games| - 1;
      var gs, os := games[..last], outcomes[..last];
      PrefixAt(games, outcomes, last);
      if ClassifyAll(gs, os).Err? {
        ClassifyAllFirstError(gs, os);
        var k :| 0 <= k < last
                 && (forall j :: 0 <= j < k ==> os[j].Ok?)
                 && os[k].Err?
                 && ClassifyAll(gs, os).error == ClassifyFailed(gs[k], os[k].error);
      } else {
        ClassifyAllOkIff(gs, os);
        assert outcomes[last].Err?;
      }
    }
  }

  /** When every game classifies, the k-th table is the k-th game's table. */
  lemma {:induction false} ClassifyAllTables(games: seq<GameId>, outcomes: seq<Outcome>, k: nat)
    requires |outcomes| == |games| && k < |games|
    requires ClassifyAll(games, outcomes).Ok?
    ensures outcomes[k] == Ok(ClassifyAll(games, outcomes).value[k])
    decreases |games|
  {
    var last := |games| - 1;
    if k < last {
      ClassifyAllTables(games[..last], outcomes[..last], k);
      assert outcomes[..last][k] == outcomes[k];
    }
  }

  /** `join_misses_locs` returns a table exactly when `pbp_calc_next` raises on none of the games. */
  lemma JoinAllOkIff(allMisses: seq<MissLoc>, games: seq<GameId>, pbps: seq<seq<Play>>)
    requires |pbps| == |games|
    ensures JoinAll(allMisses, games, pbps).Ok? <==> forall k :: 0 <= k < |games| ==> Classified(pbps[k]).Ok?
  {
    var outcomes := Outcomes(pbps);
    ClassifyAllOkIff(games, outcomes);
    assert forall k :: 0 <= k < |games| ==> outcomes[k] == Classified(pbps[k]);
  }

  /**
   * When `join_misses_locs` raises, the error names the first game on which
   * `pbp_calc_next` raises and the row where it raised.
   */
  lemma JoinAllFirstError(allMisses: seq<MissLoc>, games: seq<GameId>, pbps: seq<seq<Play>>)
    requires |pbps| == |games|
    ensures JoinAll(allMisses, games, pbps).Err? ==>
              exists k :: 0 <= k < |games|
                && (forall j :: 0 <= j < k ==> Classified(pbps[j]).Ok?)
                && Classified(pbps[k]).Err?
                && JoinAll(allMisses, games, pbps).error == ClassifyFailed(games[k], Classified(pbps[k]).error)
  {
    var outcomes := Outcomes(pbps);
    ClassifyAllFirstError(games, outcomes);
    assert forall k :: 0 <= k < |games| ==> outcomes[k] == Classified(pbps[k]);
  }

  /**
   * Walks the games in order: classifies the game's rows, joins its missed
   * shots with the locations of the same game, and appends the result. The
   * final table is indexed 0..n-1 by position.
   */
  method JoinMissesLocs(allMisses: seq<MissLoc>, games: seq<GameId>, pbps: seq<seq<Play>>)
    returns (res: Result<seq<MissValue>, JoinError>)
    requires |pbps| == |games|
    ensures res == JoinAll(allMisses, games, pbps)
  {
    ghost var outcomes := Outcomes(pbps);
    var acc := [];
    ghost var tables := [];
    var k := 0;
    while k < |games|
      invariant k <= |games|
      invariant ClassifyAll(games[..k], outcomes[..k]) == Ok(tables)
      invariant acc == Concat(GameParts(allMisses, games[..k], tables))
    {
      var g := games[k];
      var pbp := Classifier.CalcNext(pbps[k]);
      if pbp.Err? {
        StopAtGame(games, outcomes, tables, k);
        return Err(ClassifyFailed(g, pbp.error));
      }
      var ms := GameMisses(allMisses, g);
      var missLocs := MergeMisses(pbp.value, ms);
      NextGame(allMisses, games, outcomes, tables, k);
      acc := acc + missLocs;
      tables := tables + [pbp.value];
      k := k + 1;
    }
    assert games[..k] == games && outcomes[..k] == outcomes;
    return Ok(acc);
  }

  /** A game whose classification raises ends the walk with its error. */
  lemma StopAtGame(games: seq<GameId>, outcomes: seq<Outcome>, tables: seq<seq<Event>>, k: nat)
    requires |outcomes| == |games| && k < |games| && outcomes[k].Err?
    requires ClassifyAll(games[..k], outcomes[..k]) == Ok(tables)
    ensures ClassifyAll(games, outcomes) == Err(ClassifyFailed(games[k], outcomes[k].error))
  {
    assert games[..k + 1][..k] == games[..k] && outcomes[..k + 1][..k] == outcomes[..k];
    ClassifyAllErrPersists(games, outcomes, k + 1);
  }

  /** A game that classifies extends the tables and appends its joined rows. */
  lemma NextGame(allMisses: seq<MissLoc>, games: seq<GameId>, outcomes: seq<Outcome>, tables: seq<seq<Event>>, k: nat)
    requires |outcomes| == |games| && k < |games| && outcomes[k].Ok?
    requires ClassifyAll(games[..k], outcomes[..k]) == Ok(tables)
    ensures ClassifyAll(games[..k + 1], outcomes[..k + 1]) == Ok(tables + [outcomes[k].value])
    ensures Concat(GameParts(allMisses, games[..k + 1], tables + [outcomes[k].value])) ==
              Concat(GameParts(allMisses, games[..k], tables)) + MergeMisses(outcomes[k].value, GameMisses(allMisses, games[k]))
  {
    assert games[..k + 1][..k] == games[..k] && outcomes[..k + 1][..k] == outcomes[..k];
    AppendGame(allMisses, games, tables, k, outcomes[k].value);
  }

  /**
   * An output row of game `g` built from the missed shot at position `j` of
   * the game's kept rows and the location `a`: same game, same event number,
   * the location's coordinates and distance, and the shot's NEXT value.
   */
  ghost predicate FromMiss(o: MissValue, plays: seq<Play>, j: int, a: MissLoc, g: GameId)
  {
    && 0 <= j < |plays|
    && plays[j].msgType == MISSED
    && a.gameId == g
    && a.gameEventId == plays[j].eventNum
    && o == MissValue(a.locX, a.locY, a.distance, ExpectedNext(plays, j))
  }

  /** `o` is a row game `g` contributes: some missed shot of its kept rows met some location `a`. */
  ghost predicate InGame(o: MissValue, allMisses: seq<MissLoc>, g: GameId, pbp: seq<Play>)
  {
    exists j, a :: a in allMisses && FromMiss(o, ShotRows(pbp), j, a, g)
  }

  /** A classified missed shot that meets a location of its game yields a row built from both. */
  lemma GameRowSound(allMisses: seq<MissLoc>, g: GameId, pbp: seq<Play>, table: seq<Event>, o: MissValue)
    requires Classified(pbp) == Ok(table)
    requires o in MergeMisses(table, GameMisses(allMisses, g))
    ensures InGame(o, allMisses, g, pbp)
  {
    var plays := ShotRows(pbp);
    var e, m :| e in table && m in GameMisses(allMisses, g) && e.play.msgType == MISSED && SameEvent(e, m) && o == Joined(e, m);
    var j :| 0 <= j < |table| && table[j] == e;
    assert table[j] == Event(plays[j], ExpectedNext(plays, j));
    assert FromMiss(o, plays, j, m, g);
  }

  /** Every located missed shot of the game yields its row. */
  lemma GameRowComplete(allMisses: seq<MissLoc>, g: GameId, pbp: seq<Play>, table: seq<Event>, o: MissValue)
    requires Classified(pbp) == Ok(table)
    requires InGame(o, allMisses, g, pbp)
    ensures o in MergeMisses(table, GameMisses(allMisses, g))
  {
    var plays := ShotRows(pbp);
    var j, a :| a in allMisses && FromMiss(o, plays, j, a, g);
    assert table[j] == Event(plays[j], ExpectedNext(plays, j));
    assert table[j] in table && a in GameMisses(allMisses, g);
    assert o == Joined(table[j], a);
  }

  /**
   * When no game raises, the joined table holds exactly the located missed
   * shots of all the games: a row is in it if and only if it is built from a
   * missed shot of some game `games[k]` and a location of the same game with
   * the same event number, carrying that shot's NEXT value.
   */
  lemma JoinedRowOrigin(allMisses: seq<MissLoc>, games: seq<GameId>, pbps: seq<seq<Play>>, o: MissValue)
    requires |pbps| == |games|
    requires JoinAll(allMisses, games, pbps).Ok?
    ensures o in JoinAll(allMisses, games, pbps).value <==>
              exists k :: 0 <= k < |games| && InGame(o, allMisses, games[k], pbps[k])
  {
    var outcomes := Outcomes(pbps);
    var tables := ClassifyAll(games, outcomes).value;
    var parts := GameParts(allMisses, games, tables);
    if o in JoinAll(allMisses, games, pbps).value {
      var k :| 0 <= k < |parts| && o in parts[k];
      ClassifyAllTables(games, outcomes, k);
      assert outcomes[k] == Classified(pbps[k]);
      GameRowSound(allMisses, games[k], pbps[k], tables[k], o);
    }
    if exists k :: 0 <= k < |games| && InGame(o, allMisses, games[k], pbps[k]) {
      var k :| 0 <= k < |games| && InGame(o, allMisses, games[k], pbps[k]);
      ClassifyAllTables(games, outcomes, k);
      assert outcomes[k] == Classified(pbps[k]);
      GameRowComplete(allMisses, games[k], pbps[k], tables[k], o);
      assert o in parts[k];
    }
  }
}
