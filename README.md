# Swiss-tournament store in Dafny

This project models `tournament/tournament.py`, the store behind a Swiss-system
tournament. The store keeps two tables. The player table has rows
(PlayerID, Name, Points). The match table has rows (Winner, Loser). Seven
operations work on them:

- `deleteMatches` and `deletePlayers` empty a table.
- `countPlayers` counts the player rows.
- `registerPlayer` inserts a player with 0 points and a serial id.
- `reportMatch` records a result and credits the winner with one point.
- `playerStandings` lists every player, ordered by points descending and then
  id ascending, with the number of matches each has played.
- `swissPairings` numbers that ranking 1..N and joins each odd rank with the
  next one.

The model has two modules:

- `Tournament` (`tournament.dfy`) works on values. It holds the rows as
  datatypes and the `ORDER BY Points DESC, PlayerID ASC` ranking, written as an
  insertion-sort function. It holds the standings query and the `ROW_NUMBER()`
  self-join. The join is written as `JoinFrom`, which yields exactly the rows
  that `L.Rn = R.Rn - 1` and `L.Rn % 2 != 0` select: it walks the ranking and
  pairs the row at row number i with the row at i+1 whenever i is odd. It also
  holds the match counts and the lemmas about all of these.
- `TournamentStore` (`store.dfy`) has the class `Store`. Its fields are the
  two tables, as sequences, and the next value of the PlayerID serial
  sequence. `DeleteMatches`, `DeletePlayers`, `RegisterPlayer` and
  `ReportMatch` change these fields in place. `CountPlayers`, `PlayerStandings`
  and `SwissPairings` are read-only functions over them. `Valid()` says three
  things: ids are unique, every id came from the serial sequence, and every
  match names ids that the sequence already handed out.

Each operation is one atomic step. The serial sequence starts at 1, and
`DeletePlayers` does not reset it, just as `DELETE` leaves a sequence alone. So
an id handed out later never occurs in a leftover match row.

Where the docstrings of `tournament/tournament.py` and its code differ, the
model follows the code:

- The `swissPairings` docstring (tournament/tournament.py:145-148) assumes an
  even number of players. With an odd number, the query silently leaves out the
  last-ranked player. The model keeps this behaviour and states it
  (`PairingsCoverEachPlayerOnce`).
- The `playerStandings` docstring (tournament/tournament.py:104-108) calls the
  third column the number of matches won, but the query returns `Points`, and
  "points equal the number of matches won" is not an invariant of the store.
  `deleteMatches` empties the match table and does not touch `Points`. The
  model proves that `registerPlayer` and `reportMatch` keep the property. It
  shows that `deleteMatches` can break it (`ClearingMatchesBreaksPointsAreWins`), so
  the property is not part of `Valid()`.

## Model

The SQL fragments are modelled by value-level definitions in `Tournament`,
whose behaviour the rows below state: `Played` is the matches-played subquery
(tournament/tournament.py:114), `Wins` is the docstring's matches won
(tournament/tournament.py:107), `Credit` is the points `UPDATE`
(tournament/tournament.py:136), `SortByRank` is the `ORDER BY`
(tournament/tournament.py:116), `Entry` is one standings row
(tournament/tournament.py:113-114), and `JoinFrom` and `Pairings` are the
`ROW_NUMBER()` self-join (tournament/tournament.py:159-175).

| member | source | states |
|---|---|---|
| `TournamentStore.Store.DeleteMatches` | tournament/tournament.py:33-44 | The match table becomes empty. Players, their points and the serial counter stay as they were. A second call changes nothing (idempotent). The store invariant is kept. If any player has points, points no longer equal wins afterwards. |
| `TournamentStore.Store.DeletePlayers` | tournament/tournament.py:47-58 | The player table becomes empty and the player count is 0. Matches and the serial counter stay as they were. A second call changes nothing. |
| `TournamentStore.Store.CountPlayers` | tournament/tournament.py:61-73 | The count equals the number of rows the standings query returns. |
| `TournamentStore.Store.RegisterPlayer` | tournament/tournament.py:76-91 | Appends exactly one row (fresh id, given name, 0 points), whose id differs from every existing id. The count goes up by 1, matches are unchanged, the serial counter advances and the invariant is kept. Points equal to wins is preserved. The new id occurs exactly once in the standings, with 0 wins and 0 matches. |
| `TournamentStore.Store.ReportMatch` | tournament/tournament.py:123-138 | Appends exactly the match (winner, loser). Only the winner's points change, by +1, so total points rise by exactly 1. Ids and names are unchanged. Each of the two players' matches-played count rises by 1 and every other count stays the same. Points equal to wins is preserved. |
| `TournamentStore.Store.PlayerStandings` | tournament/tournament.py:95-120 | One entry per player row: the entries, read back as player rows, are a permutation of the player table. They are ordered by points descending, then id ascending, and each entry's matches-played value is the number of matches the player won or lost. |
| `TournamentStore.Store.SwissPairings` | tournament/tournament.py:142-178 | Returns floor(N/2) pairs, and pair k holds the ids and names of standings positions 2k and 2k+1. Each player appears exactly once. With an odd N, the last player in the standings appears in no pair. |
| `Tournament.SortByRank` | tournament/tournament.py:116 | The result is a permutation (same multiset) of the player table. It is ordered by points descending, then by id ascending. |
| `Tournament.Insert` | tournament/tournament.py:116 | Inserting into a ranked table keeps it ranked and adds exactly that one row. |
| `Tournament.RankingDetermined` | tournament/tournament.py:116 | With unique ids, any permutation of the table ordered by points descending and id ascending equals the model's ordering, so the ORDER BY fixes the result. |
| `Tournament.Standings` | tournament/tournament.py:112-120 | One entry per player row (the projections back to player rows are a permutation of the table). Entries are ordered by points descending, then id ascending. Each entry's matches-played value is the number of matches the player won or lost. |
| `Tournament.StandingsReportWins` | tournament/tournament.py:113-114 | When points equal wins, every standings entry's wins value is the number of matches that player won. |
| `Tournament.NewcomerStanding` | tournament/tournament.py:89 | A player registered under an id that no row or match uses appears exactly once in the standings, with the given name, 0 wins and 0 matches. |
| `Tournament.WinsAppend` | tournament/tournament.py:135 | Appending a match raises the win count of its winner by 1 and of nobody else. |
| `Tournament.PlayedAppend` | tournament/tournament.py:114 | Appending a match raises the matches-played count of its winner and its loser by 1, and of nobody else. A match with winner equal to loser counts once. |
| `Tournament.PlayedAfterReport` | tournament/tournament.py:135 | After the match (w, l) is recorded, w and l have each played one more match and every other id's count stays the same. |
| `Tournament.WinsAtMostPlayed` | tournament/tournament.py:107-108 | A player's wins (matches won, as the docstring defines them) never exceed their matches played. The standings' `Points` column obeys this bound only while points equal wins. |
| `Tournament.CreditRaisesOnlyWinner` | tournament/tournament.py:136 | In a table with unique ids, the points update on a registered winner keeps ids and names. It leaves every other row unchanged and raises total points by exactly 1. |
| `Tournament.NotRegisteredCreditsNothing` | tournament/tournament.py:136 | The points update on an id that no row has changes nothing. |
| `Tournament.ReportKeepsPointsAreWins` | tournament/tournament.py:135-136 | Inserting the match and crediting the winner keeps points equal to wins. |
| `Tournament.RegisterKeepsPointsAreWins` | tournament/tournament.py:89 | Inserting a player with 0 points under an id that no match uses keeps points equal to wins. |
| `Tournament.ClearingMatchesBreaksPointsAreWins` | tournament/tournament.py:42 | Once a player has points, an empty match table breaks points equal to wins, because points are not reset. |
| `Tournament.JoinFromShape` | tournament/tournament.py:159-175 | Starting from an odd row number, the self-join on L.Rn = R.Rn - 1 with odd L.Rn yields consecutive pairs (i, i+1), (i+2, i+3), …. There are floor of half the remaining rows. |
| `Tournament.JoinFromIds` | tournament/tournament.py:159-175 | Starting from an odd row number, the ids in the join's pairs are the remaining rows' ids in rank order, with the last row dropped when an odd number remain. |
| `Tournament.PairingsAdjacentInStandings` | tournament/tournament.py:145-148 | The pairing query returns floor(N/2) pairs. Pair k holds the ids and names of standings entries 2k and 2k+1, which are neighbours in the standings. |
| `Tournament.PairingsCover` | tournament/tournament.py:166-175 | The ids across the pairs, in order, are the ranking's ids. The last one is dropped when N is odd. |
| `Tournament.PairingsCoverEachPlayerOnce` | tournament/tournament.py:145-146 | With unique ids and an even N, every player appears in exactly one pair. With an odd N, the last player in the standings appears in none and every other player in exactly one. |

## Left out

- `connect`, the database driver, cursors, `commit` and `close`. These are connection plumbing. The tables are fields of `Store`.
- Transactions: the two statements in `reportMatch` are one atomic step in `Store.ReportMatch`. No fault can happen between them.
- Connectivity faults and constraint faults. The schema file is not part of this model. `Store.ReportMatch` therefore requires that the winner and the loser are registered, instead of modelling a foreign-key error. For the same reason, `Store.DeletePlayers` empties the player table even when match rows still name those players, and whether a foreign key would refuse this is not modelled.
- The schema's column types and the serial sequence's first value. Points are natural numbers and the serial starts at 1.
- The `str()` conversion of ids and the SQL parameter binding.
- Player names are opaque strings. Nothing is checked or normalised.
- The SQL of `swissPairings` has no `ORDER BY`, so the database may return the pair rows in any order. `Store.SwissPairings` returns them by ascending rank. This is one of the orders the query allows.
- `playerStandings` and `swissPairings` return without closing their connection. Connection lifetime is not modelled: each query is a value computed from the current tables.
