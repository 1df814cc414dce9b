/** The tournament store: the player and match tables and the PlayerID serial
    counter, updated in place by the four mutating operations and read by the
    three queries. Each operation is one atomic step. */
module TournamentStore {
  import opened Tournament

  class Store {
    /** Rows of the player table. */
    var players: seq<Player>
    /** Rows of the match table. */
    var matches: seq<Match>
    /** Next value of the PlayerID serial sequence. */
    var serial: nat

    /** Ids are keys, every id was drawn from the serial sequence, and every
        match refers to ids already drawn. */
    ghost predicate Valid()
      reads this
    {
      && 1 <= serial
      && UniqueIds(players)
      && (forall i :: 0 <= i < |players| ==> 1 <= players[i].id < serial)
      && (forall i :: 0 <= i < |matches| ==> matches[i].winner < serial && matches[i].loser < serial)
    }

    /** An empty database whose serial sequence starts at 1. */
    constructor ()
      ensures Valid()
      ensures players == [] && matches == [] && serial == 1
    {
      players, matches, serial := [], [], 1;
    }

    /** `DELETE FROM match`: the players, their points and the serial are kept;
        on an empty match table it changes nothing. */
    method DeleteMatches()
      requires Valid()
      modifies this
      ensures Valid()
      ensures matches == [] && players == old(players) && serial == old(serial)
      ensures old(matches) == [] ==> unchanged(this)
      ensures (exists i :: 0 <= i < |players| && players[i].points > 0) ==> !PointsAreWins(players, matches)
    {
      matches := [];
      if i :| 0 <= i < |players| && players[i].points > 0 {
        ClearingMatchesBreaksPointsAreWins(players, i);
      }
    }

    /** `DELETE FROM player`: the serial sequence is not reset, so ids drawn
        later never clash with ids still named in the match table; on an
        empty player table it changes nothing. */
    method DeletePlayers()
      requires Valid()
      modifies this
      ensures Valid()
      ensures players == [] && matches == old(matches) && serial == old(serial)
      ensures CountPlayers() == 0
      ensures old(players) == [] ==> unchanged(this)
    {
      players := [];
    }

    /** `SELECT COUNT(1) FROM player`: one per standings row. */
    function CountPlayers(): (n: nat)
      reads this
      ensures n == |PlayerStandings()|
    {
      |players|
    }

    /** `INSERT INTO player (Name, Points) VALUES (name, 0)` with PlayerID
        drawn from the serial sequence. */
    method RegisterPlayer(name: string)
      requires Valid()
      modifies this
      ensures Valid()
      ensures players == old(players) + [Player(old(serial), name, 0)]
      ensures forall i :: 0 <= i < |old(players)| ==> old(players)[i].id != old(serial)
      ensures matches == old(matches) && serial == old(serial) + 1
      ensures CountPlayers() == old(CountPlayers()) + 1
      ensures old(PointsAreWins(players, matches)) ==> PointsAreWins(players, matches)
      ensures multiset(StandingIds(PlayerStandings()))[old(serial)] == 1
      ensures forall i :: 0 <= i < |PlayerStandings()| && PlayerStandings()[i].id == old(serial) ==>
        PlayerStandings()[i] == Standing(old(serial), name, 0, 0)
    {
      if PointsAreWins(players, matches) {
        RegisterKeepsPointsAreWins(players, matches, serial, name);
      }
      NewcomerStanding(players, matches, serial, name);
      players := players + [Player(serial, name, 0)];
      serial := serial + 1;
    }

    /** The standings query over the current tables: every player row once,
        ranked by points descending then id ascending, with its matches
        played. */
    function PlayerStandings(): (r: seq<Standing>)
      reads this
      ensures |r| == |players|
      ensures Ranked(RowsOf(r))
      ensures multiset(RowsOf(r)) == multiset(players)
      ensures forall i :: 0 <= i < |r| ==> r[i].played == Played(matches, r[i].id)
    {
      Standings(players, matches)
    }

    /** `INSERT INTO match (Winner, Loser)` followed by
        `UPDATE player SET Points = Points + 1 WHERE PlayerID = winner`,
        as one step. */
    method ReportMatch(winner: nat, loser: nat)
      requires Valid()
      requires Registered(players, winner) && Registered(players, loser)
      modifies this
      ensures Valid()
      ensures matches == old(matches) + [Match(winner, loser)]
      ensures serial == old(serial) && |players| == |old(players)|
      ensures forall i :: 0 <= i < |players| ==>
        && players[i].id == old(players)[i].id
        && players[i].name == old(players)[i].name
        && players[i].points == old(players)[i].points + (if players[i].id == winner then 1 else 0)
      ensures TotalPoints(players) == TotalPoints(old(players)) + 1
      ensures old(PointsAreWins(players, matches)) ==> PointsAreWins(players, matches)
      ensures forall id: nat ::
                Played(matches, id) == Played(old(matches), id) + (if id == winner || id == loser then 1 else 0)
    {
      CreditRaisesOnlyWinner(players, winner);
      if PointsAreWins(players, matches) {
        ReportKeepsPointsAreWins(players, matches, winner, loser);
      }
      PlayedAfterReport(matches, winner, loser);
      assert winner < serial && loser < serial;
      matches := matches + [Match(winner, loser)];
      players := Credit(players, winner);
    }

    /** The pairing query over the current player table: floor(N/2) pairs of
        standings neighbours, covering every player once, except the
        last-ranked one when N is odd. */
    function SwissPairings(): (r: seq<Pairing>)
      reads this
      requires Valid()
      ensures |r| == CountPlayers() / 2
      ensures var st := PlayerStandings();
        forall k :: 0 <= k < |r| ==>
          && r[k].id1 == st[2 * k].id && r[k].name1 == st[2 * k].name
          && r[k].id2 == st[2 * k + 1].id && r[k].name2 == st[2 * k + 1].name
      ensures var n := |players|; var count := multiset(PairedIds(r));
        forall p :: p in players ==>
          count[p.id] == (if n % 2 == 1 && p.id == PlayerStandings()[n - 1].id then 0 else 1)
    {
      PairingsAdjacentInStandings(players, matches);
      PairingsCoverEachPlayerOnce(players, matches);
      Pairings(players)
    }
  }
}
