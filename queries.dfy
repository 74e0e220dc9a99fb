/**
 * The read-only queries of Scorekeeper/scoring.py over the tables of module
 * Store: the leaderboard (`ORDER BY total_points DESC`) and a team's roster
 * (the join of TeamMember with Gamer).
 */
module Queries {
  import opened Store

  // ===== Leaderboard =====

  /** A leaderboard row: `SELECT name, total_points, points_history FROM Gamer`. */
  datatype Standing = Standing(name: string, totalPoints: int, pointsHistory: string)

  function StandingOf(g: Gamer): Standing {
    Standing(g.name, g.totalPoints, g.pointsHistory)
  }

  /** The Gamer table's rows with ids 1..n, in id order. */
  function TableRows(gamers: map<int, Gamer>, n: nat): seq<Standing> {
    if n == 0 then []
    else TableRows(gamers, n - 1) + (if n in gamers then [StandingOf(gamers[n])] else [])
  }

  /** No row has more points than one before it. */
  predicate Descending(rows: seq<Standing>) {
    forall i, j :: 0 <= i < j < |rows| ==> rows[i].totalPoints >= rows[j].totalPoints
  }

  /** A row with at least the points of the first row of a descending sequence may lead it. */
  lemma DescendingCons(row: Standing, rows: seq<Standing>)
    requires Descending(rows)
    requires rows != [] ==> rows[0].totalPoints <= row.totalPoints
    ensures Descending([row] + rows)
  {
    var r := [row] + rows;
    forall i, j | 0 <= i < j < |r| ensures r[i].totalPoints >= r[j].totalPoints {
      assert r[j] == rows[j - 1];
      if i > 0 {
        assert r[i] == rows[i - 1];
      } else if j > 1 {
        assert rows[0].totalPoints >= rows[j - 1].totalPoints;
      }
    }
  }

  /** Puts a row after every row with at least as many points, so equal totals keep their order. */
  function InsertByPoints(row: Standing, sorted: seq<Standing>): (r: seq<Standing>)
    requires Descending(sorted)
    ensures Descending(r)
    ensures multiset(r) == multiset(sorted) + multiset{row}
    ensures r[0] == if sorted == [] || sorted[0].totalPoints < row.totalPoints then row else sorted[0]
  {
    if sorted == [] then [row]
    else if sorted[0].totalPoints >= row.totalPoints then
      var head, tail := sorted[0], sorted[1..];
      assert Descending(tail) by {
        forall i, j | 0 <= i < j < |tail| ensures tail[i].totalPoints >= tail[j].totalPoints {
          assert tail[i] == sorted[i + 1] && tail[j] == sorted[j + 1];
        }
      }
      var rest := InsertByPoints(row, tail);
      assert tail != [] ==> tail[0] == sorted[1];
      DescendingCons(head, rest);
      assert sorted == [head] + tail;
      [head] + rest
    else
      DescendingCons(row, sorted);
      [row] + sorted
  }

  /** Orders rows by points, highest first; rows with equal points stay in input order. */
  function SortByPoints(rows: seq<Standing>): (r: seq<Standing>)
    ensures Descending(r)
    ensures multiset(r) == multiset(rows)
  {
    if rows == [] then []
    else
      var init := rows[..|rows| - 1];
      assert rows == init + [rows[|rows| - 1]];
      InsertByPoints(rows[|rows| - 1], SortByPoints(init))
  }

  /**
   * `leaderboard` and `get_gamers`: every gamer once, by total points,
   * highest first. SQLite leaves the order of equal totals open; the model
   * puts them in id order.
   */
  function Leaderboard(db: Db): (r: seq<Standing>)
    ensures Descending(r)
    ensures multiset(r) == multiset(TableRows(db.gamers, |db.gamers|))
  {
    SortByPoints(TableRows(db.gamers, |db.gamers|))
  }

  /** The rows with ids 1..n are exactly the standings of the gamers with such ids. */
  lemma {:induction false} TableRowsMembers(gamers: map<int, Gamer>, n: nat, row: Standing)
    ensures row in TableRows(gamers, n) <==> exists id :: 1 <= id <= n && id in gamers && StandingOf(gamers[id]) == row
  {
    if n > 0 {
      TableRowsMembers(gamers, n - 1, row);
      if n in gamers && StandingOf(gamers[n]) == row {
        assert 1 <= n <= n && n in gamers && StandingOf(gamers[n]) == row;
      }
    }
  }

  /** With ids handed out as 1, 2, 3, ..., the leaderboard lists every gamer and nothing else. */
  lemma LeaderboardListsEveryGamer(db: Db, row: Standing)
    requires DenseIds(db.gamers)
    ensures row in Leaderboard(db) <==> exists id :: id in db.gamers && StandingOf(db.gamers[id]) == row
  {
    var rows := TableRows(db.gamers, |db.gamers|);
    assert row in Leaderboard(db) <==> row in multiset(rows);
    TableRowsMembers(db.gamers, |db.gamers|, row);
  }

  /** The leader has at least as many points as any gamer. */
  lemma LeaderHasMostPoints(db: Db, id: int)
    requires DenseIds(db.gamers) && id in db.gamers
    ensures |Leaderboard(db)| > 0 && Leaderboard(db)[0].totalPoints >= db.gamers[id].totalPoints
  {
    var board := Leaderboard(db);
    LeaderboardListsEveryGamer(db, StandingOf(db.gamers[id]));
    var k :| 0 <= k < |board| && board[k] == StandingOf(db.gamers[id]);
  }

  // ===== Team rosters =====

  /** One member of a team as `get_teams` lists it: `g.id, g.name, g.total_points`. */
  datatype MemberView = MemberView(id: int, name: string, totalPoints: int)

  /** A team as `get_teams` lists it. */
  datatype TeamView = TeamView(id: int, name: string, members: seq<MemberView>)

  /**
   * `SELECT g.id, g.name, g.total_points FROM Gamer g JOIN TeamMember tm ON
   * g.id = tm.gamer_id WHERE tm.team_id = ?`, in TeamMember order. The inner
   * join drops a membership whose gamer has no row.
   */
  function Roster(gamers: map<int, Gamer>, members: seq<TeamMember>, teamId: int): (r: seq<MemberView>)
    ensures forall m :: m in r ==> m.id in gamers && m == MemberView(m.id, gamers[m.id].name, gamers[m.id].totalPoints)
    ensures forall m :: m in r ==> TeamMember(teamId, m.id) in members
    ensures forall g :: g in gamers && TeamMember(teamId, g) in members ==>
              MemberView(g, gamers[g].name, gamers[g].totalPoints) in r
  {
    if members == [] then []
    else
      var m := members[0];
      var rest := Roster(gamers, members[1..], teamId);
      assert forall tm :: tm in members <==> tm == m || tm in members[1..];
      if m.teamId == teamId && m.gamerId in gamers then
        [MemberView(m.gamerId, gamers[m.gamerId].name, gamers[m.gamerId].totalPoints)] + rest
      else rest
  }
}
