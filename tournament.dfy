/** Value-level model of the Swiss-tournament store: the rows of the player and
    match tables, the ordering used by the standings and pairing queries, the
    queries themselves, and the facts the store's operations rely on. */
module Tournament {

  /** A row of the player table: PlayerID, Name, Points. */
  datatype Player = Player(id: nat, name: string, points: nat)

  /** A row of the match table: Winner, Loser (both player ids). */
  datatype Match = Match(winner: nat, loser: nat)

  /** A row returned by the standings query: (id, name, wins, matches played). */
  datatype Standing = Standing(id: nat, name: string, wins: nat, played: nat)

  /** A row returned by the pairing query: (id1, name1, id2, name2). */
  datatype Pairing = Pairing(id1: nat, name1: string, id2: nat, name2: string)

  // ---------------------------------------------------------------------------
  // Ids and their uniqueness (PlayerID is the table's key)

  function Ids(ps: seq<Player>): seq<nat> {
    seq(|ps|, i requires 0 <= i < |ps| => ps[i].id)
  }

  predicate UniqueIds(ps: seq<Player>) {
    forall i, j :: 0 <= i < j < |ps| ==> ps[i].id != ps[j].id
  }

  predicate Registered(ps: seq<Player>, id: nat) {
    exists i :: 0 <= i < |ps| && ps[i].id == id
  }

  lemma IdsConcat(a: seq<Player>, b: seq<Player>)
    ensures Ids(a + b) == Ids(a) + Ids(b)
  {
  }

  /** Reordering the rows reorders their ids: a permutation of the table has
      the same multiset of ids. */
  lemma {:induction false} IdsPerm(a: seq<Player>, b: seq<Player>)
    requires multiset(a) == multiset(b)
    ensures multiset(Ids(a)) == multiset(Ids(b))
    decreases |a|
  {
    if a == [] {
      assert |b| == |multiset(b)| == 0;
    } else {
      assert a[0] in multiset(b);
      var k :| 0 <= k < |b| && b[k] == a[0];
      var rest := b[..k] + b[k + 1..];
      assert b == b[..k] + [b[k]] + b[k + 1..];
      assert a == [a[0]] + a[1..];
      assert multiset(a) == multiset{a[0]} + multiset(a[1..]);
      assert multiset(b) == multiset(b[..k]) + multiset{b[k]} + multiset(b[k + 1..]);
      assert multiset(rest) == multiset(b[..k]) + multiset(b[k + 1..]);
      assert multiset(a[1..]) == multiset(a) - multiset{a[0]};
      assert multiset(rest) == multiset(b) - multiset{b[k]};
      IdsPerm(a[1..], rest);
      IdsConcat([a[0]], a[1..]);
      IdsConcat(b[..k] + [b[k]], b[k + 1..]);
      IdsConcat(b[..k], [b[k]]);
      IdsConcat(b[..k], b[k + 1..]);
    }
  }

  lemma IdAbsent(ps: seq<Player>, id: nat)
    requires forall i :: 0 <= i < |ps| ==> ps[i].id != id
    ensures multiset(Ids(ps))[id] == 0
  {
    assert id !in Ids(ps);
  }

  /** An id that no other row shares occurs exactly once in the id column. */
  lemma {:induction false} IdOccursOnce(ps: seq<Player>, k: nat)
    requires k < |ps|
    requires forall i :: 0 <= i < |ps| && i != k ==> ps[i].id != ps[k].id
    ensures multiset(Ids(ps))[ps[k].id] == 1
  {
    var id, tail := ps[k].id, ps[1..];
    assert Ids(ps) == [ps[0].id] + Ids(tail);
    if k == 0 {
      forall i | 0 <= i < |tail| ensures tail[i].id != id {
        assert tail[i] == ps[i + 1];
      }
      IdAbsent(tail, id);
    } else {
      forall i | 0 <= i < |tail| && i != k - 1 ensures tail[i].id != tail[k - 1].id {
        assert tail[i] == ps[i + 1];
      }
      IdOccursOnce(tail, k - 1);
    }
  }

  /** With unique ids, every registered player's id occurs exactly once. */
  lemma UniqueIdsCount(ps: seq<Player>, p: Player)
    requires UniqueIds(ps)
    requires p in ps
    ensures multiset(Ids(ps))[p.id] == 1
  {
    var k :| 0 <= k < |ps| && ps[k] == p;
    IdOccursOnce(ps, k);
  }

  /** Key uniqueness survives any reordering of the table. */
  lemma UniqueIdsPerm(a: seq<Player>, b: seq<Player>)
    requires multiset(a) == multiset(b)
    requires UniqueIds(a)
    ensures UniqueIds(b)
  {
    forall i, j | 0 <= i < j < |b|
      ensures b[i].id != b[j].id
    {
      if b[i].id == b[j].id {
        var x := Ids(b);
        assert x == x[..j] + x[j..];
        assert x[i] in x[..j] && x[j] in x[j..];
        assert multiset(x)[x[i]] >= 2;
        IdsPerm(a, b);
        assert b[i] in multiset(a);
        UniqueIdsCount(a, b[i]);
      }
    }
  }

  // ---------------------------------------------------------------------------
  // Counting matches

  /** Number of match rows the player with this id won. */
  function Wins(ms: seq<Match>, id: nat): nat {
    if ms == [] then 0
    else (if ms[0].winner == id then 1 else 0) + Wins(ms[1..], id)
  }

  /** Number of match rows with Winner = id or Loser = id. */
  function Played(ms: seq<Match>, id: nat): nat {
    if ms == [] then 0
    else (if ms[0].winner == id || ms[0].loser == id then 1 else 0) + Played(ms[1..], id)
  }

  lemma {:induction false} WinsAppend(ms: seq<Match>, m: Match, id: nat)
    ensures Wins(ms + [m], id) == Wins(ms, id) + (if m.winner == id then 1 else 0)
  {
    if ms != [] {
      assert (ms + [m])[1..] == ms[1..] + [m];
      WinsAppend(ms[1..], m, id);
    }
  }

  lemma {:induction false} PlayedAppend(ms: seq<Match>, m: Match, id: nat)
    ensures Played(ms + [m], id) == Played(ms, id) + (if m.winner == id || m.loser == id then 1 else 0)
  {
    if ms != [] {
      assert (ms + [m])[1..] == ms[1..] + [m];
      PlayedAppend(ms[1..], m, id);
    }
  }

  /** Recording (w, l) adds one match played for w and for l and for nobody else. */
  lemma PlayedAfterReport(ms: seq<Match>, w: nat, l: nat)
    ensures forall id: nat ::
              Played(ms + [Match(w, l)], id) == Played(ms, id) + (if id == w || id == l then 1 else 0)
  {
    forall id: nat
      ensures Played(ms + [Match(w, l)], id) == Played(ms, id) + (if id == w || id == l then 1 else 0)
    {
      PlayedAppend(ms, Match(w, l), id);
    }
  }

  /** Every win is a played match. */
  lemma {:induction false} WinsAtMostPlayed(ms: seq<Match>, id: nat)
    ensures Wins(ms, id) <= Played(ms, id)
  {
    if ms != [] {
      WinsAtMostPlayed(ms[1..], id);
    }
  }

  /** An id that occurs in no match row has neither wins nor matches played. */
  lemma {:induction false} UnseenIdHasNoMatches(ms: seq<Match>, id: nat)
    requires forall i :: 0 <= i < |ms| ==> ms[i].winner != id && ms[i].loser != id
    ensures Wins(ms, id) == 0 && Played(ms, id) == 0
  {
    if ms != [] {
      UnseenIdHasNoMatches(ms[1..], id);
    }
  }

  /** The stored Points column agrees with the match table. */
  predicate PointsAreWins(ps: seq<Player>, ms: seq<Match>) {
    forall i :: 0 <= i < |ps| ==> ps[i].points == Wins(ms, ps[i].id)
  }

  // ---------------------------------------------------------------------------
  // Recording a result

  /** The effect of `UPDATE player SET Points = Points + 1 WHERE PlayerID = w`. */
  function Credit(ps: seq<Player>, w: nat): seq<Player> {
    seq(|ps|, i requires 0 <= i < |ps| =>
      if ps[i].id == w then ps[i].(points := ps[i].points + 1) else ps[i])
  }

  function TotalPoints(ps: seq<Player>): nat {
    if ps == [] then 0 else ps[0].points + TotalPoints(ps[1..])
  }

  /** Crediting a registered winner in a table with unique ids adds exactly one
      point in total, all of it to the winner's row; every other row, and every
      id and name, stays as it was. */
  lemma {:induction false} CreditRaisesOnlyWinner(ps: seq<Player>, w: nat)
    requires UniqueIds(ps)
    requires Registered(ps, w)
    ensures |Credit(ps, w)| == |ps| && Ids(Credit(ps, w)) == Ids(ps)
    ensures forall i :: 0 <= i < |ps| && ps[i].id != w ==> Credit(ps, w)[i] == ps[i]
    ensures forall i :: 0 <= i < |ps| ==> Credit(ps, w)[i].name == ps[i].name
    ensures TotalPoints(Credit(ps, w)) == TotalPoints(ps) + 1
  {
    var r := Credit(ps, w);
    assert r[1..] == Credit(ps[1..], w);
    if ps[0].id == w {
      forall j | 0 <= j < |ps| - 1
        ensures ps[1..][j].id != w
      {
        assert ps[0].id != ps[j + 1].id;
      }
      NotRegisteredCreditsNothing(ps[1..], w);
    } else {
      var j :| 0 <= j < |ps| && ps[j].id == w;
      assert Registered(ps[1..], w) by { assert ps[1..][j - 1].id == w; }
      CreditRaisesOnlyWinner(ps[1..], w);
    }
  }

  /** Crediting an id that is in no row changes nothing. */
  lemma NotRegisteredCreditsNothing(ps: seq<Player>, w: nat)
    requires !Registered(ps, w)
    ensures Credit(ps, w) == ps
  {
  }

  /** reportMatch keeps the Points column in step with the match table. */
  lemma ReportKeepsPointsAreWins(ps: seq<Player>, ms: seq<Match>, w: nat, l: nat)
    requires PointsAreWins(ps, ms)
    ensures PointsAreWins(Credit(ps, w), ms + [Match(w, l)])
  {
    var r := Credit(ps, w);
    forall i | 0 <= i < |r|
      ensures r[i].points == Wins(ms + [Match(w, l)], r[i].id)
    {
      WinsAppend(ms, Match(w, l), r[i].id);
    }
  }

  /** registerPlayer keeps the Points column in step when the new id occurs in
      no match row. */
  lemma RegisterKeepsPointsAreWins(ps: seq<Player>, ms: seq<Match>, id: nat, name: string)
    requires PointsAreWins(ps, ms)
    requires forall i :: 0 <= i < |ms| ==> ms[i].winner != id && ms[i].loser != id
    ensures PointsAreWins(ps + [Player(id, name, 0)], ms)
  {
    UnseenIdHasNoMatches(ms, id);
  }

  /** deleteMatches leaves the Points column alone, so a player who has won a
      match no longer agrees with the (empty) match table. */
  lemma ClearingMatchesBreaksPointsAreWins(ps: seq<Player>, i: nat)
    requires i < |ps| && ps[i].points > 0
    ensures !PointsAreWins(ps, [])
  {
  }

  // ---------------------------------------------------------------------------
  // ORDER BY Points DESC, PlayerID ASC

  /** a is listed no later than b. */
  predicate RanksAtOrAbove(a: Player, b: Player) {
    a.points > b.points || (a.points == b.points && a.id <= b.id)
  }

  predicate Ranked(s: seq<Player>) {
    forall i, j :: 0 <= i < j < |s| ==> RanksAtOrAbove(s[i], s[j])
  }

  /** A row that ranks at or above every row of a ranked table can lead it. */
  lemma RankedCons(x: Player, t: seq<Player>)
    requires Ranked(t)
    requires forall y :: y in t ==> RanksAtOrAbove(x, y)
    ensures Ranked([x] + t)
  {
    forall i, j | 0 <= i < j < |[x] + t|
      ensures RanksAtOrAbove(([x] + t)[i], ([x] + t)[j])
    {
      assert ([x] + t)[j] == t[j - 1];
      if i > 0 {
        assert ([x] + t)[i] == t[i - 1];
      }
    }
  }

  /** The order is transitive, so p may lead a ranked table it heads. */
  lemma RankedPrepend(p: Player, s: seq<Player>)
    requires Ranked(s) && s != [] && RanksAtOrAbove(p, s[0])
    ensures Ranked([p] + s)
  {
    forall y | y in s ensures RanksAtOrAbove(p, y) {
      var j :| 0 <= j < |s| && s[j] == y;
      assert RanksAtOrAbove(s[0], s[j]) || j == 0;
    }
    RankedCons(p, s);
  }

  /** When p ranks below the head of s, that head may lead p inserted into
      the rest. */
  lemma RankedAfterHead(p: Player, s: seq<Player>, t: seq<Player>)
    requires Ranked(s) && s != [] && !RanksAtOrAbove(p, s[0])
    requires Ranked(t) && multiset(t) == multiset(s[1..]) + multiset{p}
    ensures Ranked([s[0]] + t)
    ensures multiset([s[0]] + t) == multiset(s) + multiset{p}
  {
    forall y | y in t ensures RanksAtOrAbove(s[0], y) {
      assert y in multiset(t);
      if y != p {
        assert y in multiset(s[1..]);
        var j :| 0 <= j < |s[1..]| && s[1..][j] == y;
        assert s[j + 1] == y;
      }
    }
    RankedCons(s[0], t);
    assert s == [s[0]] + s[1..];
  }

  /** Places p into a ranked table. */
  function Insert(p: Player, s: seq<Player>): (r: seq<Player>)
    requires Ranked(s)
    ensures Ranked(r)
    ensures multiset(r) == multiset(s) + multiset{p}
  {
    if s == [] then [p]
    else if RanksAtOrAbove(p, s[0]) then
      RankedPrepend(p, s);
      [p] + s
    else
      var t := Insert(p, s[1..]);
      RankedAfterHead(p, s, t);
      [s[0]] + t
  }

  /** The player table in the order the queries list it. */
  function SortByRank(ps: seq<Player>): (r: seq<Player>)
    ensures Ranked(r)
    ensures multiset(r) == multiset(ps)
  {
    if ps == [] then []
    else
      assert ps == [ps[0]] + ps[1..];
      Insert(ps[0], SortByRank(ps[1..]))
  }

  /** Two ranked permutations of a table with unique ids start with the same row. */
  lemma RankedHeadsAgree(a: seq<Player>, b: seq<Player>)
    requires UniqueIds(a)
    requires Ranked(a) && Ranked(b)
    requires multiset(a) == multiset(b)
    requires a != []
    ensures b != [] && a[0] == b[0]
  {
    assert |b| == |multiset(b)| == |a|;
    assert b[0] in multiset(a) && a[0] in multiset(b);
    var i :| 0 <= i < |a| && a[i] == b[0];
    var j :| 0 <= j < |b| && b[j] == a[0];
    assert RanksAtOrAbove(a[0], a[i]) && RanksAtOrAbove(b[0], b[j]);
    assert a[0].id == a[i].id;
  }

  lemma TailsPerm<T>(a: seq<T>, b: seq<T>)
    requires multiset(a) == multiset(b)
    requires a != [] && b != [] && a[0] == b[0]
    ensures multiset(a[1..]) == multiset(b[1..])
  {
    assert a == [a[0]] + a[1..] && b == [b[0]] + b[1..];
    assert multiset(a[1..]) == multiset(a) - multiset{a[0]};
    assert multiset(b[1..]) == multiset(b) - multiset{b[0]};
  }

  /** With unique ids, the ordering leaves no choice: two ranked
      permutations of the same table are the same sequence. */
  lemma {:induction false} RankedPermUnique(a: seq<Player>, b: seq<Player>)
    requires UniqueIds(a)
    requires Ranked(a) && Ranked(b)
    requires multiset(a) == multiset(b)
    ensures a == b
    decreases |a|
  {
    if a == [] {
      assert |b| == |multiset(b)| == 0;
    } else {
      RankedHeadsAgree(a, b);
      TailsPerm(a, b);
      RankedPermUnique(a[1..], b[1..]);
      assert a == [a[0]] + a[1..] && b == [b[0]] + b[1..];
    }
  }

  /** Any ranked permutation of a table with unique ids is the model's
      ordering: ORDER BY Points DESC, PlayerID ASC determines the result. */
  lemma RankingDetermined(ps: seq<Player>, s: seq<Player>)
    requires UniqueIds(ps)
    requires Ranked(s) && multiset(s) == multiset(ps)
    ensures s == SortByRank(ps)
  {
    UniqueIdsPerm(ps, s);
    RankedPermUnique(s, SortByRank(ps));
  }

  // ---------------------------------------------------------------------------
  // Standings

  function Entry(p: Player, ms: seq<Match>): Standing {
    Standing(p.id, p.name, p.points, Played(ms, p.id))
  }

  /** The player row a standings row was read from. */
  function RowOf(s: Standing): Player {
    Player(s.id, s.name, s.wins)
  }

  function RowsOf(st: seq<Standing>): seq<Player> {
    seq(|st|, i requires 0 <= i < |st| => RowOf(st[i]))
  }

  function StandingIds(st: seq<Standing>): seq<nat> {
    seq(|st|, i requires 0 <= i < |st| => st[i].id)
  }

  /** The standings query: every player row once, ranked by points
      descending then id ascending, each with its matches-played count. */
  function Standings(ps: seq<Player>, ms: seq<Match>): (r: seq<Standing>)
    ensures |r| == |ps|
    ensures Ranked(RowsOf(r))
    ensures multiset(RowsOf(r)) == multiset(ps)
    ensures forall i :: 0 <= i < |r| ==> r[i].played == Played(ms, r[i].id)
  {
    var sorted := SortByRank(ps);
    assert |sorted| == |multiset(sorted)| == |ps|;
    var r := seq(|sorted|, i requires 0 <= i < |sorted| => Entry(sorted[i], ms));
    assert RowsOf(r) == sorted;
    r
  }

  /** When the Points column agrees with the match table, the wins column of
      the standings is the number of matches each player won. */
  lemma StandingsReportWins(ps: seq<Player>, ms: seq<Match>)
    requires PointsAreWins(ps, ms)
    ensures forall s :: s in Standings(ps, ms) ==> s.wins == Wins(ms, s.id)
  {
    var st := Standings(ps, ms);
    forall s | s in st ensures s.wins == Wins(ms, s.id) {
      var i :| 0 <= i < |st| && st[i] == s;
      assert RowsOf(st)[i] == RowOf(s);
      assert RowOf(s) in multiset(ps);
      var k :| 0 <= k < |ps| && ps[k] == RowOf(s);
    }
  }

  /** The standings rows are the ranked player rows with their counts. */
  lemma StandingsAreRankedEntries(ps: seq<Player>, ms: seq<Match>)
    ensures var st := Standings(ps, ms); var sorted := SortByRank(ps);
      && |st| == |sorted|
      && StandingIds(st) == Ids(sorted)
      && forall i :: 0 <= i < |st| ==> st[i] == Entry(sorted[i], ms)
  {
    var sorted := SortByRank(ps);
    assert |sorted| == |multiset(sorted)| == |ps|;
  }

  /** Ids stay unique when a row with an unused id is appended. */
  lemma AppendFreshId(ps: seq<Player>, q: Player)
    requires UniqueIds(ps)
    requires forall i :: 0 <= i < |ps| ==> ps[i].id != q.id
    ensures UniqueIds(ps + [q])
    ensures forall x :: x in multiset(ps + [q]) && x.id == q.id ==> x == q
  {
  }

  /** A player newly registered under an id that no row and no match uses
      appears exactly once in the standings, with no wins and no matches. */
  lemma NewcomerStanding(ps: seq<Player>, ms: seq<Match>, id: nat, name: string)
    requires UniqueIds(ps)
    requires forall i :: 0 <= i < |ps| ==> ps[i].id != id
    requires forall i :: 0 <= i < |ms| ==> ms[i].winner != id && ms[i].loser != id
    ensures var st := Standings(ps + [Player(id, name, 0)], ms);
      && multiset(StandingIds(st))[id] == 1
      && forall i :: 0 <= i < |st| && st[i].id == id ==> st[i] == Standing(id, name, 0, 0)
  {
    var q := Player(id, name, 0);
    var qs := ps + [q];
    var sorted := SortByRank(qs);
    AppendFreshId(ps, q);
    StandingsAreRankedEntries(qs, ms);
    assert multiset(StandingIds(Standings(qs, ms)))[id] == 1 by {
      IdsPerm(qs, sorted);
      UniqueIdsCount(qs, q);
    }
    UnseenIdHasNoMatches(ms, id);
    forall i | 0 <= i < |sorted| && sorted[i].id == id
      ensures sorted[i] == q
    {
      assert sorted[i] in multiset(qs);
    }
  }

  // ---------------------------------------------------------------------------
  // Swiss pairings: ROW_NUMBER() over the ranking, self-joined on
  // L.Rn = R.Rn - 1 and filtered on L.Rn % 2 != 0

  function Pair(l: Player, r: Player): Pairing {
    Pairing(l.id, l.name, r.id, r.name)
  }

  /** The rows of the self-join whose left row has 0-based position i or more
      in the ranking (1-based row number i + 1 or more). */
  function JoinFrom(ranked: seq<Player>, i: nat): seq<Pairing>
    decreases |ranked| - i
  {
    if i + 1 >= |ranked| then []
    else if (i + 1) % 2 != 0 then [Pair(ranked[i], ranked[i + 1])] + JoinFrom(ranked, i + 1)
    else JoinFrom(ranked, i + 1)
  }

  /** The pairing query over the player table. */
  function Pairings(ps: seq<Player>): seq<Pairing> {
    JoinFrom(SortByRank(ps), 0)
  }

  /** Ids in the order they occur in the pairing rows: id1, id2, id1, id2, … */
  function PairedIds(r: seq<Pairing>): seq<nat> {
    if r == [] then [] else [r[0].id1, r[0].id2] + PairedIds(r[1..])
  }

  /** From an odd row number on, the join yields consecutive pairs: when c
      pairs of rows remain from position i on, it yields exactly those c. */
  lemma {:induction false} JoinFromShape(s: seq<Player>, i: nat, c: nat)
    requires i % 2 == 0 && i + 2 * c <= |s| <= i + 2 * c + 1
    ensures |JoinFrom(s, i)| == c
    ensures forall k :: 0 <= k < c ==> JoinFrom(s, i)[k] == Pair(s[i + 2 * k], s[i + 2 * k + 1])
    decreases c
  {
    if c > 0 {
      var r, t := JoinFrom(s, i), JoinFrom(s, i + 2);
      assert (i + 1) % 2 == 1 && (i + 2) % 2 == 0;
      assert JoinFrom(s, i + 1) == t;
      assert r == [Pair(s[i], s[i + 1])] + t;
      JoinFromShape(s, i + 2, c - 1);
      forall k | 0 <= k < c
        ensures r[k] == Pair(s[i + 2 * k], s[i + 2 * k + 1])
      {
        if k > 0 {
          assert r[k] == t[k - 1];
          assert i + 2 * k == (i + 2) + 2 * (k - 1);
        }
      }
    }
  }

  lemma IdsSliceSplit(s: seq<Player>, i: nat, e: nat)
    requires i + 2 <= e <= |s|
    ensures Ids(s[i .. e]) == [s[i].id, s[i + 1].id] + Ids(s[i + 2 .. e])
  {
    var x, y := Ids(s[i .. e]), [s[i].id, s[i + 1].id] + Ids(s[i + 2 .. e]);
    assert |x| == |y|;
    forall k | 0 <= k < |x| ensures x[k] == y[k] {
      if k >= 2 {
        assert y[k] == Ids(s[i + 2 .. e])[k - 2] == s[i + k].id;
      }
    }
  }

  lemma PairedIdsCons(p: Pairing, t: seq<Pairing>)
    ensures PairedIds([p] + t) == [p.id1, p.id2] + PairedIds(t)
  {
    assert ([p] + t)[1..] == t;
  }

  /** From an odd row number on, the join's ids are the ids of the c pairs
      of rows that remain, in rank order. */
  lemma {:induction false} JoinFromIds(s: seq<Player>, i: nat, c: nat)
    requires i % 2 == 0 && i + 2 * c <= |s| <= i + 2 * c + 1
    ensures PairedIds(JoinFrom(s, i)) == Ids(s[i .. i + 2 * c])
    decreases c
  {
    if c > 0 {
      var t := JoinFrom(s, i + 2);
      assert (i + 1) % 2 == 1 && (i + 2) % 2 == 0;
      assert JoinFrom(s, i) == [Pair(s[i], s[i + 1])] + t by {
        assert JoinFrom(s, i + 1) == t;
      }
      JoinFromIds(s, i + 2, c - 1);
      PairedIdsCons(Pair(s[i], s[i + 1]), t);
      IdsSliceSplit(s, i, i + 2 * c);
    } else {
      assert s[i .. i] == [];
    }
  }

  /** swissPairings: floor(N/2) pairs, pair k joining the standings rows at
      positions 2k and 2k+1. */
  lemma PairingsAdjacentInStandings(ps: seq<Player>, ms: seq<Match>)
    ensures |Pairings(ps)| == |ps| / 2
    ensures var r := Pairings(ps); var st := Standings(ps, ms);
      forall k :: 0 <= k < |r| ==>
        && r[k].id1 == st[2 * k].id && r[k].name1 == st[2 * k].name
        && r[k].id2 == st[2 * k + 1].id && r[k].name2 == st[2 * k + 1].name
  {
    var sorted := SortByRank(ps);
    StandingsAreRankedEntries(ps, ms);
    JoinFromShape(sorted, 0, |sorted| / 2);
  }

  /** The ids in the pairings are the ranking's ids, with the last-ranked one
      left out when the count is odd. */
  lemma PairingsCover(ps: seq<Player>)
    ensures var n := |ps|;
      PairedIds(Pairings(ps)) == Ids(SortByRank(ps)[.. n - n % 2])
  {
    var sorted := SortByRank(ps);
    assert |sorted| == |multiset(sorted)| == |ps|;
    JoinFromIds(sorted, 0, |ps| / 2);
  }

  lemma DropLast<T>(x: seq<T>)
    requires x != []
    ensures multiset(x) == multiset(x[..|x| - 1]) + multiset{x[|x| - 1]}
  {
    assert x == x[..|x| - 1] + [x[|x| - 1]];
  }

  /** The ids left in a permutation of the table once the last row is
      dropped when the count is odd. */
  lemma EvenPrefixIds(ps: seq<Player>, sorted: seq<Player>)
    requires multiset(sorted) == multiset(ps)
    ensures |sorted| == |ps|
    ensures var n := |ps|;
      multiset(Ids(sorted[.. n - n % 2])) ==
        if n % 2 == 1 then multiset(Ids(ps)) - multiset{sorted[n - 1].id} else multiset(Ids(ps))
  {
    var n := |ps|;
    assert |sorted| == |multiset(sorted)| == n;
    IdsPerm(ps, sorted);
    var x := Ids(sorted);
    if n % 2 == 1 {
      assert Ids(sorted[..n - 1]) == x[..n - 1];
      DropLast(x);
    } else {
      assert sorted[..n] == sorted;
    }
  }

  /** Counting ids in a permutation of a table with unique ids, after the
      last row is dropped when the count is odd. */
  lemma EvenPrefixCounts(ps: seq<Player>, sorted: seq<Player>)
    requires UniqueIds(ps)
    requires multiset(sorted) == multiset(ps)
    ensures |sorted| == |ps|
    ensures var n := |ps|; var count := multiset(Ids(sorted[.. n - n % 2]));
      forall p :: p in ps ==>
        count[p.id] == (if n % 2 == 1 && p.id == sorted[n - 1].id then 0 else 1)
  {
    var n := |ps|;
    EvenPrefixIds(ps, sorted);
    if n % 2 == 1 {
      assert sorted[n - 1] in multiset(ps);
      UniqueIdsCount(ps, sorted[n - 1]);
    }
    forall p | p in ps
      ensures multiset(Ids(sorted[.. n - n % 2]))[p.id] == (if n % 2 == 1 && p.id == sorted[n - 1].id then 0 else 1)
    {
      UniqueIdsCount(ps, p);
    }
  }

  /** With an even number of players each appears in exactly one pair; with
      an odd number the last one in the standings appears in none and every
      other player in exactly one. */
  lemma PairingsCoverEachPlayerOnce(ps: seq<Player>, ms: seq<Match>)
    requires UniqueIds(ps)
    ensures var n := |ps|; var count := multiset(PairedIds(Pairings(ps)));
      forall p :: p in ps ==>
        count[p.id] == (if n % 2 == 1 && p.id == Standings(ps, ms)[n - 1].id then 0 else 1)
  {
    PairingsCover(ps);
    EvenPrefixCounts(ps, SortByRank(ps));
    StandingsAreRankedEntries(ps, ms);
  }
}
