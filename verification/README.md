# Next-possession values of missed shots

This project models the data-gathering core of a shot-chart tool for NBA
seasons (`gather.py`). For every missed shot, the tool records what the
possession right after it was worth, as a signed point value:

- positive when the side that missed scored next;
- negative when the other side scored;
- 0 when nobody scored straight away.

It then attaches these values to the locations of the missed shots.

It models three pieces of `gather.py`:

- **`pbp_calc_next`, the classifier.**
  - It keeps the rows of one game's play-by-play whose type is at most 3 (made shot 1, missed shot 2, free throw 3), in order, and gives each a NEXT cell of 0.
  - It walks the rows in order. At a missed shot it looks at the next row, and for a make also the row after that.
  - It adds to the miss's cell one of:
    - ±2 or ±3 for a make (3 when the description says `3PT`), plus 1 for an and-one free throw;
    - 0 for another miss;
    - for free throws "X of Y": Y minus the number of MISS-marked rows among the next Y rows;
    - ±1 for a technical that was not missed.
  - The scan `break`s at the end of the table.
  - Raising is modelled as an error result. This happens when a description it needs is absent, or when the "X of Y" text cannot be parsed.
- **`get_all_misses`.** It keeps the shots whose `SHOT_MADE_FLAG` is 0 from every player's shot chart. It projects them to game, event number, x, y and distance, and appends them in player order.
- **`join_misses_locs`.** For every game in order, it:
  1. classifies the game's rows;
  2. inner-joins the missed shots with that game's shot locations on event number;
  3. keeps x, y, distance and NEXT;
  4. appends the result.

Module layout:

| module | file | contents |
|---|---|---|
| `Common` | common.dfy | `Option`, `Result`, `Min`, `Abs` |
| `Text` | text.dfy | Python truthiness of a description, the substring test `p in s` (leftmost occurrence), the attempt-total parse of "X of Y" |
| `PlayByPlay` | plays.dfy | rows, events, the specification of the scan: `StepAt` (what happens at one row), `StopIndex` (where the scan ends), `ExpectedNext`, `Classified` (the returned table or the raising row) |
| `Classifier` | classify.dfy | `CalcNext`: the scan over an array of events with a `while` loop, proved to return `Classified` |
| `NextValueFacts` | next_facts.dfy | the value of a missed shot, case by case, stated on the specification |
| `Misses` | misses.dfy | the miss filter and the accumulation over shot charts |
| `MissJoin` | join.dfy | the per-game join, proved to return the table specified by `JoinAll`, and what its rows are made of |

Scope of the source files:

- The free-throw window at gather.py:93 is `iloc[i+1 : i+1+Y]`: Y rows starting with the first free throw itself, cut at the end of the table, and tested only for MISS in the shooting side's column (their type and team are not checked).
- `pbp_calc_next` raises on an absent description on the side it reads (gather.py:61, 71, 91) and on a free-throw description with "of" but no digit after " of " (gather.py:92). The model does not exclude these inputs. It returns an error naming the row (`Classified` is `Err(row)`, and `JoinAll` is `Err(ClassifyFailed(game, row))`), just as the exception ends `join_misses_locs`.

## Model

| member | source | states |
|---|---|---|
| `Text.IndexOfLeftmost` | gather.py:92 | the index found is an occurrence of the pattern and no earlier index is one; none is found only when the pattern occurs nowhere |
| `Text.ContainsMeaning` | gather.py:40 | `p in s` holds exactly when `p` occurs in `s` at some index |
| `Text.AttemptTotal` | gather.py:92 | a parsed attempt total is a single decimal digit (at most 9) |
| `Text.AttemptTotalMeaning` | gather.py:91-92 | the parse succeeds exactly when the leftmost " of " is followed by a digit, and then yields that digit's value |
| `PlayByPlay.ShotRows` | gather.py:31-32 | the kept rows are exactly the input rows of type at most 3, and there are no more of them than input rows |
| `PlayByPlay.ShotRowsAt` | gather.py:31 | the `k`-th kept row is the input row at position `KeptIndices(pbp)[k]`, and there is one kept row per position |
| `PlayByPlay.KeptIndicesIncrease` | gather.py:31 | the kept positions strictly increase: the filter keeps the input's order |
| `PlayByPlay.KeptIndicesComplete` | gather.py:31 | every input position of type at most 3 is a kept position: no such row, duplicates included, is dropped |
| `PlayByPlay.Sign` | gather.py:56 | the sign is +1 exactly when the scoring side is the side that missed, otherwise -1 |
| `PlayByPlay.MissCount` | gather.py:93 | the number of MISS-marked rows in a window is at most the window's length |
| `PlayByPlay.StepAt` | gather.py:39-99 | a non-miss row adds 0; the scan halts only at a miss in the last row or a miss followed by a make in the last row; it raises, or adds a nonzero value, only at a miss followed by a make or a free throw |
| `PlayByPlay.StopFrom` | gather.py:45-66 | the stop row is the first row from which the scan does not move on: every row before it adds a value, the row at it halts or raises |
| `Classifier.MadeShotRow` | gather.py:50-74 | at a miss followed by a make, the row raises exactly when the maker's description is absent or the next row is a free throw by the maker's side without a description on that side; otherwise it breaks exactly when the make is the last row; otherwise the value has magnitude 2 to 4 and is positive exactly when the maker's side is the side that missed |
| `Classifier.FreeThrowRow` | gather.py:81-99 | at a miss followed by a free throw, the row raises exactly when the shooter's description is absent or has "of" with no digit after its first " of ", and never breaks; with "of" the magnitude is at most the attempt total; without it the value is nonzero exactly for an unmissed technical, and then ±1; a nonzero value is positive exactly when the shooter's side is the side that missed |
| `Classifier.CalcNext` | gather.py:27-101 | the scan returns exactly `Classified`: the kept rows in order, each row carrying its step's value if the scan got past it and 0 otherwise, or the raising row when the stop row raises |
| `NextValueFacts.PassedIff` | gather.py:35-46 | the scan gets past row `j` exactly when every row up to `j` adds a value |
| `NextValueFacts.ClassifiedRow` | gather.py:31-101 | the returned table has one row per kept row, and row `j` is the `j`-th kept row with its expected NEXT |
| `NextValueFacts.ClassifiedKeepsShotRows` | gather.py:31-34 | returned row `j` is the input row at kept position `j`, of type at most 3, and every later returned row comes from a later input position |
| `NextValueFacts.ExpectedNextZero` | gather.py:34-99 | NEXT is 0 on every non-miss row and on every row from the stop row onwards; a nonzero NEXT sits on a miss followed by a make or a free throw |
| `NextValueFacts.ClassifiedNextZero` | gather.py:34-99 | on the returned table, non-miss rows keep NEXT 0 and a nonzero NEXT sits on a miss followed by a make or a free throw |
| `NextValueFacts.MadeShotNext` | gather.py:50-74 | a miss followed by a make with a row after it gets 2, +1 for `3PT`, +1 for an and-one, so its magnitude is 2 to 4, positive exactly when the maker's side equals the missing side |
| `NextValueFacts.MissAfterMissNext` | gather.py:77-78 | a miss followed by a miss keeps 0 |
| `NextValueFacts.FreeThrowTripNext` | gather.py:81-93 | a miss followed by an "X of Y" free throw gets Y minus the MISS-marked rows among the next Y rows (cut at the end), so between 0 and Y ≤ 9, with the side-equality sign |
| `NextValueFacts.TechnicalFreeThrowNext` | gather.py:94-99 | a miss followed by a free throw without "of" gets ±1 for an unmissed technical and 0 otherwise, with the side-equality sign |
| `NextValueFacts.MissCountExtremes` | gather.py:93 | the miss count is 0 exactly when no row of the window is marked, and the full window exactly when every row is |
| `NextValueFacts.TwoFreeThrowsNext` | gather.py:81-99 | "2 of 2" by the side that missed gives 2, 1 or 0 as none, one or both free throws are marked MISS |
| `NextValueFacts.LastMissNext` | gather.py:45-46 | a miss in the last row keeps 0, and a scan reaching it stops there without raising |
| `NextValueFacts.MakeInLastRowNext` | gather.py:58-66 | a miss followed by a make in the last row keeps 0 (the break comes before the write), and the scan stops there without raising when the maker's description is present |
| `Misses.MissesOf` | gather.py:16 | the kept locations are exactly the projections of the shots with made flag 0 |
| `Misses.AllMisses` | gather.py:13-17 | a location is gathered exactly when some player's chart holds a missed shot with it |
| `Misses.GetAllMisses` | gather.py:8-19 | the loop over the charts returns exactly `AllMisses` |
| `MissJoin.GameMisses` | gather.py:113 | the game's locations are exactly the gathered ones with that game id |
| `MissJoin.MatchesOf` | gather.py:116 | the rows for one event are exactly its joins with the locations of equal event number |
| `MissJoin.MergeMisses` | gather.py:116-118 | the joined rows of a game are exactly the joins of a missed-shot event with a location of equal event number, carrying x, y, distance and NEXT |
| `MissJoin.ClassifyAll` | gather.py:109-111 | when the walk over the games succeeds, there is one table per game |
| `MissJoin.ClassifyAllOkIff` | gather.py:109-111 | the walk succeeds exactly when every game's outcome is a table |
| `MissJoin.ClassifyAllFirstError` | gather.py:109-111 | a failed walk carries the error of the first game whose outcome is an error, every earlier game having a table |
| `MissJoin.ClassifyAllErrPersists` | gather.py:109-111 | once the games up to some point fail, the whole walk ends with that error |
| `MissJoin.ClassifyAllTables` | gather.py:109-111 | the `k`-th table of a successful walk is the `k`-th game's table |
| `MissJoin.JoinAllOkIff` | gather.py:103-126 | `join_misses_locs` returns a table exactly when `pbp_calc_next` raises on none of the games |
| `MissJoin.JoinAllFirstError` | gather.py:103-126 | when `join_misses_locs` raises, its error names the first game on which `pbp_calc_next` raises and the row where it raised |
| `MissJoin.Concat` | gather.py:120 | a row is in the appended table exactly when it is in one of the appended parts |
| `MissJoin.JoinMissesLocs` | gather.py:103-126 | the loop over the games returns exactly `JoinAll`: the first raising game's error, or the concatenated joined rows |
| `MissJoin.GameRowSound` | gather.py:113-118 | every joined row of a game comes from a missed shot of its kept rows and a location of the same game with equal event number, carrying that shot's expected NEXT |
| `MissJoin.GameRowComplete` | gather.py:113-118 | every such pair of a missed shot and a location gives a joined row |
| `MissJoin.JoinedRowOrigin` | gather.py:103-126 | when no game raises, a row is in the output exactly when it is built from a missed shot of some game and a location of that game with equal event number, with the shot's NEXT; unmatched misses are dropped |

## Left out

- The statistics service: the player list, shot charts, play-by-play and game log are fetched over the network (gather.py:12, 15, 25, 110). They are the inputs here: one sequence of shots per player, one sequence of play rows per game. The HTTP client in `nba_py_mod` is not part of this model.
- `get_all_games` (gather.py:21-25) is a fetch followed by `unique()`. It is not modelled; the games are an input sequence.
- The progress counter and its `print` (gather.py:108, 122-123) are output only.
- `draw.py` (court drawing, hexbin aggregation, colour scaling) is floating-point plotting and is not part of this model.
- Pandas details beyond membership:
  - the order and multiplicity of `merge` rows with duplicate event numbers;
  - the column set of the intermediate tables;
  - `append`'s index handling.

  The joined table is specified by which rows it holds. Its index 0..n-1 (gather.py:125) is the position in the returned sequence.
- Missing descriptions are `None` (`Option`). A pandas NaN cell, which Python treats as true and which `str.contains` reports as NaN, is not modelled.
- `Text.AttemptTotal` reads the digits '0' to '9' only. Python's `int` also accepts other Unicode decimal digits, and the model returns an error for them.
- `MissJoin.JoinedRowOrigin`: states membership of rows, not their order or how often each occurs in the output.
- Only the five columns the scan keeps are modelled for a play row (gather.py:32), and only the six columns read for a shot-chart row.
