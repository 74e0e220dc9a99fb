/**
 * The scoring database as one object whose tables the request handlers of
 * Scorekeeper/scoring.py change in place, statement by statement. Each method
 * is proved against the function of module Store that states the same
 * operation on table values, so every property proved there about the
 * function holds of the method. A ghost ledger records, per gamer, the
 * awards it has received; the object invariant says that the stored running
 * total and history text are exactly what those awards add up to.
 */
module Scorekeeper {
  import opened Wrappers
  import opened History
  import opened Store
  import opened Queries
  import Properties

  class ScoringDb {
    var gamers: map<int, Gamer>
    var teams: seq<Team>
    var members: seq<TeamMember>
    var games: seq<Game>
    var scores: seq<GameScore>
    /** The awards each gamer has received, oldest first (not stored by the source). */
    ghost var awards: map<int, seq<Award>>

    /** The tables as a value. */
    function Tables(): Db
      reads this
    {
      Db(gamers, teams, members, games, scores)
    }

    /** The schema's constraints hold and every gamer's total and history agree with its awards. */
    ghost predicate Valid()
      reads this
    {
      Store.Valid(Tables()) && LedgerHolds(Tables(), awards)
    }

    /** `init_db` on a fresh database file: every table empty. */
    constructor ()
      ensures Valid() && Tables() == Empty && awards == map[]
    {
      gamers, teams, members, games, scores := map[], [], [], [], [];
      awards := map[];
    }

    // ===== Single statements, each committed on its own =====

    /** `create_gamer`: `INSERT INTO Gamer (name) VALUES (?)`. */
    method CreateGamer(name: Option<string>) returns (result: Result<int>)
      requires Valid()
      modifies this`gamers, this`awards
      ensures Valid()
      ensures Step(Tables(), result) == Store.InsertGamer(old(Tables()), name)
      ensures awards == if result.Ok? then old(awards)[result.value := []] else old(awards)
    {
      if name.None? {
        return Err(GamerNameNull);
      }
      if NameTaken(gamers, name.value) {
        return Err(GamerNameTaken);
      }
      Properties.InsertGamerKeepsLedger(Tables(), awards, name);
      var id := |gamers| + 1;
      gamers := gamers[id := Gamer(name.value, 0, "")];
      awards := awards[id := []];
      result := Ok(id);
    }

    /**
     * `update_gamer_points`: reads the row, adds the points to the total,
     * extends the history by one line and writes both back. A missing row is
     * the TypeError of subscripting None, and nothing is written.
     */
    method UpdateGamerPoints(gamerId: int, points: int, gameName: string) returns (result: Result<()>)
      requires Valid()
      modifies this`gamers, this`awards
      ensures Valid()
      ensures Step(Tables(), result) == Store.UpdateGamerPoints(old(Tables()), gamerId, points, gameName)
      ensures awards == if result.Ok? then old(awards)[gamerId := old(awards)[gamerId] + [Award(gameName, points)]]
                        else old(awards)
    {
      if gamerId !in gamers {
        return Err(GamerNotFound);
      }
      ghost var expected := Store.UpdateGamerPoints(Tables(), gamerId, points, gameName);
      Properties.UpdateGamerPointsKeepsLedger(Tables(), awards, gamerId, points, gameName);
      var row := gamers[gamerId];
      var newTotal := row.totalPoints + points;
      var newHistory := row.pointsHistory;
      if newHistory != "" {
        newHistory := newHistory + "\n" + Entry(gameName, points);
      } else {
        newHistory := Entry(gameName, points);
      }
      assert newHistory == AppendLine(row.pointsHistory, Entry(gameName, points));
      assert Gamer(row.name, newTotal, newHistory) == Credit(row, points, gameName);
      gamers := gamers[gamerId := Gamer(row.name, newTotal, newHistory)];
      assert Tables() == expected.db;
      ghost var extended := awards[gamerId := awards[gamerId] + [Award(gameName, points)]];
      awards := extended;
      result := Ok(());
      assert awards == old(awards)[gamerId := old(awards)[gamerId] + [Award(gameName, points)]];
      ghost var u: () := expected.result.value;
      assert u == ();
      assert expected == Step(Tables(), result);
    }

    /** `INSERT INTO Team (session_id, name)`. */
    method InsertTeam(sessionId: Option<int>, name: string) returns (result: Result<int>)
      requires Valid()
      modifies this`teams
      ensures Valid()
      ensures Step(Tables(), result) == Store.InsertTeam(old(Tables()), sessionId, name)
    {
      if sessionId.None? {
        return Err(TeamSessionNull);
      }
      if Team(sessionId.value, name) in teams {
        return Err(TeamTaken);
      }
      teams := teams + [Team(sessionId.value, name)];
      result := Ok(|teams|);
    }

    /** `INSERT INTO TeamMember (team_id, gamer_id)`. */
    method InsertTeamMember(teamId: int, gamerId: Option<int>) returns (result: Result<()>)
      requires Valid()
      modifies this`members
      ensures Valid()
      ensures Step(Tables(), result) == Store.InsertTeamMember(old(Tables()), teamId, gamerId)
    {
      if gamerId.None? {
        return Err(MemberGamerNull);
      }
      if TeamMember(teamId, gamerId.value) in members {
        return Err(MemberTaken);
      }
      members := members + [TeamMember(teamId, gamerId.value)];
      result := Ok(());
    }

    /** `INSERT INTO Game (session_id, name, game_type)`. */
    method InsertGame(sessionId: Option<int>, name: string, gameType: string) returns (result: Result<int>)
      requires Valid()
      modifies this`games
      ensures Valid()
      ensures Step(Tables(), result) == Store.InsertGame(old(Tables()), sessionId, name, gameType)
    {
      if sessionId.None? {
        return Err(GameSessionNull);
      }
      if !GameTypeOk(gameType) {
        return Err(GameTypeRejected);
      }
      games := games + [Game(sessionId.value, name, gameType)];
      result := Ok(|games|);
    }

    /** `INSERT INTO GameScore (game_id, team_id | gamer_id, points)`. */
    method InsertGameScore(gameId: int, teamId: Option<int>, gamerId: Option<int>, points: Option<int>)
      returns (result: Result<()>)
      requires Valid()
      modifies this`scores
      ensures Valid()
      ensures Step(Tables(), result) == Store.InsertGameScore(old(Tables()), gameId, teamId, gamerId, points)
    {
      if points.None? {
        return Err(ScorePointsNull);
      }
      if !OneParticipant(teamId, gamerId) {
        return Err(ScoreParticipantRejected);
      }
      scores := scores + [GameScore(gameId, teamId, gamerId, points.value)];
      result := Ok(());
    }

    // ===== Queries =====

    /** `SELECT gamer_id FROM TeamMember WHERE team_id = ?`, read row by row in the order `MemberIds` assumes. */
    method TeamMemberIds(teamId: int) returns (ids: seq<int>)
      ensures ids == MemberIds(members, teamId)
      ensures forall g :: g in ids <==> TeamMember(teamId, g) in members
    {
      ids := [];
      var i := 0;
      while i < |members|
        invariant 0 <= i <= |members|
        invariant ids + MemberIds(members[i..], teamId) == MemberIds(members, teamId)
      {
        assert members[i..][1..] == members[i + 1..];
        if members[i].teamId == teamId {
          ids := ids + [members[i].gamerId];
        }
        i := i + 1;
      }
    }

    /** `get_teams`: every team, in the id order assumed for its unordered query, each with its roster, appended one at a time. */
    method GetTeams() returns (result: seq<TeamView>)
      ensures |result| == |teams|
      ensures forall i :: 0 <= i < |result| ==>
        result[i] == TeamView(i + 1, teams[i].name, Roster(gamers, members, i + 1))
    {
      result := [];
      for i := 0 to |teams|
        invariant |result| == i
        invariant forall k :: 0 <= k < i ==> result[k] == TeamView(k + 1, teams[k].name, Roster(gamers, members, k + 1))
      {
        var roster := Roster(gamers, members, i + 1);
        result := result + [TeamView(i + 1, teams[i].name, roster)];
      }
    }

    // ===== Teams =====

    /** `create_team` with the session id its Team insert is given; `None` is the insert as written. */
    method CreateTeam(req: TeamRequest, sessionId: Option<int>) returns (result: Result<int>)
      requires Valid()
      modifies this`teams, this`members
      ensures Valid()
      ensures Step(Tables(), result) == Store.CreateTeam(old(Tables()), req, sessionId)
    {
      if req.name.None? {
        return Err(Invalid("Name is required"));
      }
      result := InsertTeam(sessionId, req.name.value);
      if result.Err? || req.memberIds.None? || req.memberIds.value == [] {
        return;
      }
      var teamId, gamerIds := result.value, req.memberIds.value;
      ghost var created := Tables();
      var i := 0;
      while i < |gamerIds|
        invariant 0 <= i <= |gamerIds|
        invariant Valid()
        invariant AddMembers(Tables(), teamId, gamerIds[i..]) == AddMembers(created, teamId, gamerIds)
      {
        assert gamerIds[i..][0] == gamerIds[i] && gamerIds[i..][1..] == gamerIds[i + 1..];
        var added := InsertTeamMember(teamId, gamerIds[i]);
        if added.Err? {
          return Err(added.error);
        }
        i := i + 1;
      }
    }

    /** `add_team_member`: the body must carry `gamer_id`; the insert does the rest. */
    method AddTeamMember(teamId: int, gamerId: Field) returns (result: Result<()>)
      requires Valid()
      modifies this`members
      ensures Valid()
      ensures Step(Tables(), result) == Store.AddTeamMember(old(Tables()), teamId, gamerId)
    {
      if gamerId.Missing? {
        return Err(Invalid("gamer_id is required"));
      }
      result := InsertTeamMember(teamId, ToOption(gamerId));
    }

    // ===== Games =====

    /** The member loop of a team entry: `update_gamer_points` for each member in turn. */
    method AwardPoints(gamerIds: seq<int>, points: int, gameName: string) returns (result: Result<()>)
      requires Valid()
      modifies this`gamers, this`awards
      ensures Valid()
      ensures Step(Tables(), result) == Store.AwardPoints(old(Tables()), gamerIds, points, gameName)
      ensures awards == AwardAll(old(awards), gamerIds, Award(gameName, points))
    {
      ghost var start, ledger := Tables(), awards;
      var j := 0;
      while j < |gamerIds|
        invariant 0 <= j <= |gamerIds|
        invariant Valid()
        invariant Store.AwardPoints(Tables(), gamerIds[j..], points, gameName)
               == Store.AwardPoints(start, gamerIds, points, gameName)
        invariant AwardAll(awards, gamerIds[j..], Award(gameName, points))
               == AwardAll(ledger, gamerIds, Award(gameName, points))
      {
        Properties.AwardPointsStep(Tables(), gamerIds, j, points, gameName);
        Properties.AwardAllStep(awards, gamerIds, j, Award(gameName, points));
        result := UpdateGamerPoints(gamerIds[j], points, gameName);
        if result.Err? {
          return;
        }
        j := j + 1;
      }
      Properties.AwardPointsStep(Tables(), gamerIds, j, points, gameName);
      Properties.AwardAllStep(awards, gamerIds, j, Award(gameName, points));
      result := Ok(());
    }

    /** One pass of the score loop of `create_game`: the score row, then the gamer updates it causes. */
    method PostEntry(gameId: int, gameType: string, gameName: string, e: ScoreEntry) returns (result: Result<()>)
      requires Valid()
      modifies this`gamers, this`awards, this`scores
      ensures Valid()
      ensures Step(Tables(), result) == Store.PostEntry(old(Tables()), gameId, gameType, gameName, e)
      ensures !e.points.Int? ==> awards == old(awards)
      ensures e.points.Int? ==> GrewBy(old(awards), awards, Award(gameName, e.points.value))
      ensures e.points.Int? ==> forall g :: g in old(awards) ==>
                awards[g] == old(awards)[g] || awards[g] == old(awards)[g] + [Award(gameName, e.points.value)]
    {
      if e.points.Missing? {
        return Err(KeyError("points"));
      }
      if gameType == "team" {
        if e.teamId.Missing? {
          return Err(KeyError("team_id"));
        }
        result := InsertGameScore(gameId, ToOption(e.teamId), None, ToOption(e.points));
        if result.Err? {
          return;
        }
        var ids := TeamMemberIds(e.teamId.value);
        Properties.MemberIdsDistinct(members, e.teamId.value);
        result := AwardPoints(ids, e.points.value, gameName);
      } else {
        if e.gamerId.Missing? {
          return Err(KeyError("gamer_id"));
        }
        result := InsertGameScore(gameId, None, ToOption(e.gamerId), ToOption(e.points));
        if result.Err? {
          return;
        }
        ghost var before := awards;
        result := UpdateGamerPoints(e.gamerId.value, e.points.value, gameName);
        assert [e.gamerId.value][1..] == [];
        assert awards == AwardAll(before, [e.gamerId.value], Award(gameName, e.points.value));
      }
    }

    /**
     * `create_game` with the session id its Game insert is given; `None` is
     * the insert as written. A failing statement ends the call with every
     * earlier statement's effect left in the tables.
     */
    method CreateGame(req: GameRequest, sessionId: Option<int>) returns (result: Result<int>)
      requires Valid()
      modifies this`gamers, this`awards, this`games, this`scores
      ensures Valid()
      ensures Step(Tables(), result) == Store.CreateGame(old(Tables()), req, sessionId)
      ensures !WellFormed(req) ==> awards == old(awards)
      ensures WellFormed(req) ==> GrewIn(old(awards), awards, req.name.value)
    {
      if req.name.None? || req.gameType.None? || req.scores.None? {
        return Err(Invalid("name, game_type, and scores are required"));
      }
      if !GameTypeOk(req.gameType.value) {
        return Err(Invalid("game_type must be \"team\" or \"individual\""));
      }
      var gameName, gameType, entries := req.name.value, req.gameType.value, req.scores.value;
      Properties.GrewInSame(awards, gameName);
      result := InsertGame(sessionId, gameName, gameType);
      if result.Err? {
        return;
      }
      var gameId := result.value;
      ghost var inserted, ledger := Tables(), awards;
      var i := 0;
      while i < |entries|
        invariant 0 <= i <= |entries|
        invariant Valid()
        invariant PostScores(Tables(), gameId, gameType, gameName, entries[i..])
               == PostScores(inserted, gameId, gameType, gameName, entries)
        invariant GrewIn(ledger, awards, gameName)
      {
        Properties.PostScoresStep(Tables(), gameId, gameType, gameName, entries, i);
        ghost var before := awards;
        var posted := PostEntry(gameId, gameType, gameName, entries[i]);
        if entries[i].points.Int? {
          Properties.GrewInThenBy(ledger, before, awards, Award(gameName, entries[i].points.value));
        }
        if posted.Err? {
          return Err(posted.error);
        }
        i := i + 1;
      }
      assert entries[i..] == [];
    }
  }
}
