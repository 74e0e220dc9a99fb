/**
 * The scoring database of Scorekeeper/scoring.py as in-memory tables, and each
 * SQL statement and endpoint as a function from the tables before to the
 * tables after together with the outcome. Every statement commits on its own,
 * so a failing endpoint returns the tables as they were at the point of
 * failure, with every earlier statement's effect still in them.
 *
 * Row ids follow AUTOINCREMENT with no deletions: the row at index i of a
 * table has id i + 1, and a new Gamer gets id |gamers| + 1. Foreign keys are
 * declared by the schema but not enforced (no `PRAGMA foreign_keys`), so rows
 * may refer to gamers, teams or games that do not exist.
 */
module Store {
  import opened Wrappers
  import opened History

  datatype Gamer = Gamer(name: string, totalPoints: int, pointsHistory: string)
  datatype Team = Team(sessionId: int, name: string)
  datatype TeamMember = TeamMember(teamId: int, gamerId: int)
  datatype Game = Game(sessionId: int, name: string, gameType: string)
  /** Exactly one of teamId and gamerId is meant to be set; the CHECK constraint enforces it. */
  datatype GameScore = GameScore(gameId: int, teamId: Option<int>, gamerId: Option<int>, points: int)

  datatype Db = Db(
    gamers: map<int, Gamer>,
    teams: seq<Team>,
    members: seq<TeamMember>,
    games: seq<Game>,
    scores: seq<GameScore>)

  /** The tables `init_db` creates in a fresh database file. */
  const Empty := Db(map[], [], [], [], [])

  /** The constraint an INSERT violated, as SQLite names it in its IntegrityError. */
  datatype Constraint = NotNull(column: string) | Unique(columns: string) | Check(table: string)

  datatype Error =
    | Invalid(message: string)     // a request rejected before any statement runs
    | Integrity(violated: Constraint)
    | KeyError(key: string)        // a score entry without the key the loop reads
    | GamerNotFound                // `update_gamer_points` subscripting the None of a missing row

  datatype Result<+T> = Ok(value: T) | Err(error: Error)

  /** The tables after an operation, and its outcome. */
  datatype Step<+T> = Step(db: Db, result: Result<T>)

  /** A JSON object member: absent, `null`, or an integer. */
  datatype Field = Missing | Null | Int(value: int)

  function ToOption(f: Field): Option<int> {
    if f.Int? then Some(f.value) else None
  }

  // ===== Schema invariants (init_db) =====

  predicate GameTypeOk(gameType: string) {
    gameType == "team" || gameType == "individual"
  }

  /** The GameScore CHECK: a score row names a team or a gamer, not both and not neither. */
  predicate OneParticipant(teamId: Option<int>, gamerId: Option<int>) {
    teamId.Some? != gamerId.Some?
  }

  predicate Distinct<T(==)>(s: seq<T>) {
    forall i, j :: 0 <= i < j < |s| ==> s[i] != s[j]
  }

  /** Dropping the head of a sequence without repeats leaves one without repeats that lacks the head. */
  lemma DistinctTail<T>(s: seq<T>)
    requires Distinct(s) && s != []
    ensures Distinct(s[1..]) && s[0] !in s[1..]
  {
    var rest := s[1..];
    forall i, j | 0 <= i < j < |rest| ensures rest[i] != rest[j] {
      assert rest[i] == s[i + 1] && rest[j] == s[j + 1];
    }
    forall k | 0 <= k < |rest| ensures rest[k] != s[0] {
      assert rest[k] == s[k + 1];
    }
  }

  predicate NameTaken(gamers: map<int, Gamer>, name: string) {
    exists id :: id in gamers && gamers[id].name == name
  }

  predicate UniqueNames(gamers: map<int, Gamer>) {
    forall a, b :: a in gamers && b in gamers && a != b ==> gamers[a].name != gamers[b].name
  }

  /** Gamer ids are handed out as 1, 2, 3, ... */
  predicate DenseIds(gamers: map<int, Gamer>) {
    forall id :: id in gamers ==> 1 <= id <= |gamers|
  }

  /** What the schema declares and every statement below keeps; the next AUTOINCREMENT id is then free. */
  predicate Valid(db: Db)
    ensures Valid(db) ==> |db.gamers| + 1 !in db.gamers
  {
    && DenseIds(db.gamers)
    && UniqueNames(db.gamers)                 // Gamer.name UNIQUE
    && Distinct(db.teams)                     // UNIQUE(session_id, name)
    && Distinct(db.members)                   // UNIQUE(team_id, gamer_id)
    && (forall i :: 0 <= i < |db.games| ==> GameTypeOk(db.games[i].gameType))
    && (forall i :: 0 <= i < |db.scores| ==> OneParticipant(db.scores[i].teamId, db.scores[i].gamerId))
  }

  lemma EmptyValid()
    ensures Valid(Empty)
  {
  }

  // ===== Single statements =====

  const GamerNameNull := Integrity(NotNull("Gamer.name"))
  const GamerNameTaken := Integrity(Unique("Gamer.name"))
  const TeamSessionNull := Integrity(NotNull("Team.session_id"))
  const TeamTaken := Integrity(Unique("Team.session_id, Team.name"))
  const MemberGamerNull := Integrity(NotNull("TeamMember.gamer_id"))
  const MemberTaken := Integrity(Unique("TeamMember.team_id, TeamMember.gamer_id"))
  const GameSessionNull := Integrity(NotNull("Game.session_id"))
  const GameTypeRejected := Integrity(Check("Game"))
  const ScorePointsNull := Integrity(NotNull("GameScore.points"))
  const ScoreParticipantRejected := Integrity(Check("GameScore"))

  /** `INSERT INTO Gamer (name) VALUES (?)`: a unique, non-null name; the row starts at 0 points and an empty history. */
  function InsertGamer(db: Db, name: Option<string>): (r: Step<int>)
    ensures r.result.Ok? <==> name.Some? && !NameTaken(db.gamers, name.value)
    ensures r.result.Err? ==> r.db == db
    ensures name.None? ==> r.result == Err(GamerNameNull)
    ensures name.Some? && NameTaken(db.gamers, name.value) ==> r.result == Err(GamerNameTaken)
    ensures r.result.Ok? ==>
      && r.db == db.(gamers := r.db.gamers)
      && r.db.gamers == db.gamers[r.result.value := Gamer(name.value, 0, "")]
      && (Valid(db) ==> r.result.value !in db.gamers)
    ensures Valid(db) ==> Valid(r.db)
  {
    match name
    case None => Step(db, Err(GamerNameNull))
    case Some(n) =>
      if NameTaken(db.gamers, n) then Step(db, Err(GamerNameTaken))
      else
        var id := |db.gamers| + 1;
        Step(db.(gamers := db.gamers[id := Gamer(n, 0, "")]), Ok(id))
  }

  /** A gamer row after one award: points added to the total, one line appended to the history. */
  function Credit(g: Gamer, points: int, gameName: string): (r: Gamer)
    ensures r.name == g.name && r.totalPoints == g.totalPoints + points
    ensures |g.pointsHistory| < |r.pointsHistory| && r.pointsHistory[..|g.pointsHistory|] == g.pointsHistory
    ensures r.pointsHistory[|g.pointsHistory|..] == (if g.pointsHistory == "" then "" else "\n") + Entry(gameName, points)
  {
    Gamer(g.name, g.totalPoints + points, AppendLine(g.pointsHistory, Entry(gameName, points)))
  }

  /**
   * `update_gamer_points`: reads the row, adds the points to the total, appends
   * the history line, and writes the row back. A missing row is an error and
   * changes nothing.
   */
  function UpdateGamerPoints(db: Db, gamerId: int, points: int, gameName: string): (r: Step<()>)
    ensures r.result.Ok? <==> gamerId in db.gamers
    ensures r.result.Err? ==> r.db == db && r.result.error == GamerNotFound
    ensures r.db == db.(gamers := r.db.gamers) && r.db.gamers.Keys == db.gamers.Keys
    ensures forall id :: id in db.gamers && id != gamerId ==> r.db.gamers[id] == db.gamers[id]
    ensures gamerId in db.gamers ==>
      var before, after := db.gamers[gamerId], r.db.gamers[gamerId];
      && after.name == before.name
      && after.totalPoints == before.totalPoints + points
      && |before.pointsHistory| < |after.pointsHistory|
      && after.pointsHistory[..|before.pointsHistory|] == before.pointsHistory
      && after.pointsHistory[|before.pointsHistory|..]
         == (if before.pointsHistory == "" then "" else "\n") + Entry(gameName, points)
    ensures Valid(db) ==> Valid(r.db)
  {
    if gamerId !in db.gamers then Step(db, Err(GamerNotFound))
    else
      Step(db.(gamers := db.gamers[gamerId := Credit(db.gamers[gamerId], points, gameName)]), Ok(()))
  }

  /** `INSERT INTO Team (session_id, name)`: both NOT NULL, the pair UNIQUE. */
  function InsertTeam(db: Db, sessionId: Option<int>, name: string): (r: Step<int>)
    ensures r.result.Ok? <==> sessionId.Some? && Team(sessionId.value, name) !in db.teams
    ensures r.result.Err? ==> r.db == db
    ensures sessionId.None? ==> r.result == Err(TeamSessionNull)
    ensures r.result.Ok? ==>
      r.db == db.(teams := db.teams + [Team(sessionId.value, name)]) && r.result.value == |r.db.teams|
    ensures Valid(db) ==> Valid(r.db)
  {
    match sessionId
    case None => Step(db, Err(TeamSessionNull))
    case Some(s) =>
      if Team(s, name) in db.teams then Step(db, Err(TeamTaken))
      else Step(db.(teams := db.teams + [Team(s, name)]), Ok(|db.teams| + 1))
  }

  /** `INSERT INTO TeamMember (team_id, gamer_id)`: gamer_id NOT NULL, the pair UNIQUE. */
  function InsertTeamMember(db: Db, teamId: int, gamerId: Option<int>): (r: Step<()>)
    ensures r.result.Ok? <==> gamerId.Some? && TeamMember(teamId, gamerId.value) !in db.members
    ensures r.result.Err? ==> r.db == db
    ensures gamerId.None? ==> r.result == Err(MemberGamerNull)
    ensures gamerId.Some? && TeamMember(teamId, gamerId.value) in db.members ==> r.result == Err(MemberTaken)
    ensures r.result.Ok? ==> r.db == db.(members := db.members + [TeamMember(teamId, gamerId.value)])
    ensures Valid(db) ==> Valid(r.db)
  {
    match gamerId
    case None => Step(db, Err(MemberGamerNull))
    case Some(g) =>
      if TeamMember(teamId, g) in db.members then Step(db, Err(MemberTaken))
      else Step(db.(members := db.members + [TeamMember(teamId, g)]), Ok(()))
  }

  /** `INSERT INTO Game (session_id, name, game_type)`: session_id NOT NULL, game_type CHECKed. */
  function InsertGame(db: Db, sessionId: Option<int>, name: string, gameType: string): (r: Step<int>)
    ensures r.result.Ok? <==> sessionId.Some? && GameTypeOk(gameType)
    ensures r.result.Err? ==> r.db == db
    ensures sessionId.None? ==> r.result == Err(GameSessionNull)
    ensures r.result.Ok? ==>
      r.db == db.(games := db.games + [Game(sessionId.value, name, gameType)]) && r.result.value == |r.db.games|
    ensures Valid(db) ==> Valid(r.db)
  {
    match sessionId
    case None => Step(db, Err(GameSessionNull))
    case Some(s) =>
      if !GameTypeOk(gameType) then Step(db, Err(GameTypeRejected))
      else Step(db.(games := db.games + [Game(s, name, gameType)]), Ok(|db.games| + 1))
  }

  /** `INSERT INTO GameScore`: points NOT NULL (checked first), then the one-participant CHECK. */
  function InsertGameScore(db: Db, gameId: int, teamId: Option<int>, gamerId: Option<int>, points: Option<int>): (r: Step<()>)
    ensures r.result.Ok? <==> points.Some? && OneParticipant(teamId, gamerId)
    ensures r.result.Err? ==> r.db == db
    ensures points.None? ==> r.result == Err(ScorePointsNull)
    ensures points.Some? && !OneParticipant(teamId, gamerId) ==> r.result == Err(ScoreParticipantRejected)
    ensures r.result.Ok? ==> r.db == db.(scores := db.scores + [GameScore(gameId, teamId, gamerId, points.value)])
    ensures Valid(db) ==> Valid(r.db)
  {
    if points.None? then Step(db, Err(ScorePointsNull))
    else if !OneParticipant(teamId, gamerId) then Step(db, Err(ScoreParticipantRejected))
    else Step(db.(scores := db.scores + [GameScore(gameId, teamId, gamerId, points.value)]), Ok(()))
  }

  // ===== Teams =====

  datatype TeamRequest = TeamRequest(name: Option<string>, memberIds: Option<seq<Option<int>>>)

  /** The member loop of `create_team`: one insert per id, stopping at the first rejected one. */
  function AddMembers(db: Db, teamId: int, gamerIds: seq<Option<int>>): (r: Step<()>)
    ensures r.db == db.(members := r.db.members)
    ensures |db.members| <= |r.db.members| && r.db.members[..|db.members|] == db.members
    ensures r.result.Ok? ==>
      && |r.db.members| == |db.members| + |gamerIds|
      && forall i :: 0 <= i < |gamerIds| ==>
           gamerIds[i].Some? && r.db.members[|db.members| + i] == TeamMember(teamId, gamerIds[i].value)
    ensures Valid(db) ==> Valid(r.db)
    decreases |gamerIds|
  {
    if gamerIds == [] then Step(db, Ok(()))
    else
      var s := InsertTeamMember(db, teamId, gamerIds[0]);
      if s.result.Err? then s else AddMembers(s.db, teamId, gamerIds[1..])
  }

  /** `create_team` with the session id its Team insert is given (`None` as written). */
  function CreateTeam(db: Db, req: TeamRequest, sessionId: Option<int>): (r: Step<int>)
    ensures req.name.None? ==> r == Step(db, Err(Invalid("Name is required")))
    ensures r.result.Ok? ==> sessionId.Some? && r.db.teams == db.teams + [Team(sessionId.value, req.name.value)]
    ensures r.db.gamers == db.gamers && r.db.games == db.games && r.db.scores == db.scores
    ensures Valid(db) ==> Valid(r.db)
  {
    if req.name.None? then Step(db, Err(Invalid("Name is required")))
    else
      var t := InsertTeam(db, sessionId, req.name.value);
      if t.result.Err? then t
      else if req.memberIds.None? || req.memberIds.value == [] then t
      else
        var m := AddMembers(t.db, t.result.value, req.memberIds.value);
        Step(m.db, if m.result.Ok? then t.result else Err(m.result.error))
  }

  /** `add_team_member`: the body must carry `gamer_id`; the insert does the rest. */
  function AddTeamMember(db: Db, teamId: int, gamerId: Field): (r: Step<()>)
    ensures gamerId.Missing? ==> r == Step(db, Err(Invalid("gamer_id is required")))
    ensures r.result.Ok? <==> gamerId.Int? && TeamMember(teamId, gamerId.value) !in db.members
    ensures r.result.Err? ==> r.db == db
    ensures r.result.Ok? ==> r.db == db.(members := db.members + [TeamMember(teamId, gamerId.value)])
    ensures Valid(db) ==> Valid(r.db)
  {
    if gamerId.Missing? then Step(db, Err(Invalid("gamer_id is required")))
    else InsertTeamMember(db, teamId, ToOption(gamerId))
  }

  // ===== Games =====

  datatype ScoreEntry = ScoreEntry(points: Field, teamId: Field, gamerId: Field)
  datatype GameRequest = GameRequest(name: Option<string>, gameType: Option<string>, scores: Option<seq<ScoreEntry>>)

  /**
   * `SELECT gamer_id FROM TeamMember WHERE team_id = ?`. The query has no
   * ORDER BY; the model takes the rows in TeamMember table order.
   */
  function MemberIds(members: seq<TeamMember>, teamId: int): (ids: seq<int>)
    ensures forall g :: g in ids <==> TeamMember(teamId, g) in members
    ensures |ids| <= |members|
  {
    if members == [] then []
    else (if members[0].teamId == teamId then [members[0].gamerId] else []) + MemberIds(members[1..], teamId)
  }

  /** The member loop of a team entry: `update_gamer_points` for each id, stopping at the first missing gamer. */
  function AwardPoints(db: Db, gamerIds: seq<int>, points: int, gameName: string): (r: Step<()>)
    ensures r.db == db.(gamers := r.db.gamers) && r.db.gamers.Keys == db.gamers.Keys
    ensures r.result.Ok? <==> forall i :: 0 <= i < |gamerIds| ==> gamerIds[i] in db.gamers
    ensures r.result.Err? ==> r.result.error == GamerNotFound
    ensures Valid(db) ==> Valid(r.db)
    decreases |gamerIds|
  {
    if gamerIds == [] then Step(db, Ok(()))
    else
      var u := UpdateGamerPoints(db, gamerIds[0], points, gameName);
      if u.result.Err? then u else AwardPoints(u.db, gamerIds[1..], points, gameName)
  }

  /** One iteration of the score loop of `create_game`. */
  function PostEntry(db: Db, gameId: int, gameType: string, gameName: string, e: ScoreEntry): (r: Step<()>)
    ensures r.db.teams == db.teams && r.db.members == db.members && r.db.games == db.games
    ensures r.db.gamers.Keys == db.gamers.Keys
    ensures |db.scores| <= |r.db.scores| <= |db.scores| + 1 && r.db.scores[..|db.scores|] == db.scores
    ensures Valid(db) ==> Valid(r.db)
  {
    if e.points.Missing? then Step(db, Err(KeyError("points")))
    else if gameType == "team" then
      if e.teamId.Missing? then Step(db, Err(KeyError("team_id")))
      else
        var s := InsertGameScore(db, gameId, ToOption(e.teamId), None, ToOption(e.points));
        if s.result.Err? then s
        else AwardPoints(s.db, MemberIds(s.db.members, e.teamId.value), e.points.value, gameName)
    else
      if e.gamerId.Missing? then Step(db, Err(KeyError("gamer_id")))
      else
        var s := InsertGameScore(db, gameId, None, ToOption(e.gamerId), ToOption(e.points));
        if s.result.Err? then s
        else UpdateGamerPoints(s.db, e.gamerId.value, e.points.value, gameName)
  }

  /** The score loop of `create_game`: the entries in order, stopping at the first failure. */
  function PostScores(db: Db, gameId: int, gameType: string, gameName: string, entries: seq<ScoreEntry>): (r: Step<()>)
    ensures r.db.teams == db.teams && r.db.members == db.members && r.db.games == db.games
    ensures r.db.gamers.Keys == db.gamers.Keys
    ensures |db.scores| <= |r.db.scores| <= |db.scores| + |entries| && r.db.scores[..|db.scores|] == db.scores
    ensures Valid(db) ==> Valid(r.db)
    decreases |entries|
  {
    if entries == [] then Step(db, Ok(()))
    else
      var s := PostEntry(db, gameId, gameType, gameName, entries[0]);
      if s.result.Err? then s else PostScores(s.db, gameId, gameType, gameName, entries[1..])
  }

  predicate WellFormed(req: GameRequest) {
    req.name.Some? && req.gameType.Some? && req.scores.Some? && GameTypeOk(req.gameType.value)
  }

  /** `create_game` with the session id its Game insert is given (`None` as written). */
  function CreateGame(db: Db, req: GameRequest, sessionId: Option<int>): (r: Step<int>)
    ensures !WellFormed(req) ==> r.db == db && r.result.Err? && r.result.error.Invalid?
    ensures WellFormed(req) && sessionId.None? ==> r == Step(db, Err(GameSessionNull))
    ensures WellFormed(req) && sessionId.Some? ==>
      r.db.games == db.games + [Game(sessionId.value, req.name.value, req.gameType.value)]
    ensures r.result.Ok? ==> r.result.value == |r.db.games|
    ensures r.db.teams == db.teams && r.db.members == db.members && r.db.gamers.Keys == db.gamers.Keys
    ensures Valid(db) ==> Valid(r.db)
  {
    if req.name.None? || req.gameType.None? || req.scores.None? then
      Step(db, Err(Invalid("name, game_type, and scores are required")))
    else if !GameTypeOk(req.gameType.value) then
      Step(db, Err(Invalid("game_type must be \"team\" or \"individual\"")))
    else
      var g := InsertGame(db, sessionId, req.name.value, req.gameType.value);
      if g.result.Err? then g
      else
        var s := PostScores(g.db, g.result.value, req.gameType.value, req.name.value, req.scores.value);
        Step(s.db, if s.result.Ok? then g.result else Err(s.result.error))
  }

  // ===== The history ledger =====

  /**
   * Each gamer's running total and history agree with the awards it has
   * received: the total is their sum and the history is their rendering.
   */
  ghost predicate LedgerHolds(db: Db, awards: map<int, seq<Award>>) {
    && awards.Keys == db.gamers.Keys
    && forall id :: id in db.gamers ==>
         && db.gamers[id].totalPoints == TotalPoints(awards[id])
         && db.gamers[id].pointsHistory == RenderHistory(awards[id])
  }

  /** Every award list is the one before, followed by zero or more copies of `a`. */
  ghost predicate GrewBy(before: map<int, seq<Award>>, after: map<int, seq<Award>>, a: Award) {
    && after.Keys == before.Keys
    && forall g :: g in before ==>
         && |before[g]| <= |after[g]| && after[g][..|before[g]|] == before[g]
         && forall k :: |before[g]| <= k < |after[g]| ==> after[g][k] == a
  }

  /** Every award list is the one before, followed by awards in game `gameName` only. */
  ghost predicate GrewIn(before: map<int, seq<Award>>, after: map<int, seq<Award>>, gameName: string) {
    && after.Keys == before.Keys
    && forall g :: g in before ==>
         && |before[g]| <= |after[g]| && after[g][..|before[g]|] == before[g]
         && forall k :: |before[g]| <= k < |after[g]| ==> after[g][k].gameName == gameName
  }

  /** Appending `a` to one list, then copies of `a` to any lists, appends only copies of `a`. */
  lemma GrewByCons(awards: map<int, seq<Award>>, g0: int, a: Award, r: map<int, seq<Award>>)
    requires g0 in awards && GrewBy(awards[g0 := awards[g0] + [a]], r, a)
    ensures GrewBy(awards, r, a)
  {
    var next := awards[g0 := awards[g0] + [a]];
    forall g | g in awards
      ensures |awards[g]| <= |r[g]| && r[g][..|awards[g]|] == awards[g]
      ensures forall k :: |awards[g]| <= k < |r[g]| ==> r[g][k] == a
    {
      assert r[g][..|next[g]|] == next[g] && next[g][..|awards[g]|] == awards[g];
      assert r[g][..|awards[g]|] == next[g][..|awards[g]|];
      forall k | |awards[g]| <= k < |r[g]| ensures r[g][k] == a {
        if k < |next[g]| {
          assert r[g][k] == next[g][k];
        }
      }
    }
  }

  /**
   * The award lists after each listed gamer in turn receives `a`, stopping at
   * the first gamer that has no list: the ledger side of the member loop.
   */
  ghost function AwardAll(awards: map<int, seq<Award>>, gamerIds: seq<int>, a: Award): (r: map<int, seq<Award>>)
    ensures GrewBy(awards, r, a)
    ensures forall g :: g in awards && g !in gamerIds ==> r[g] == awards[g]
    ensures Distinct(gamerIds) ==> forall g :: g in awards ==> r[g] == awards[g] || r[g] == awards[g] + [a]
    decreases |gamerIds|
  {
    if gamerIds == [] || gamerIds[0] !in awards then awards
    else
      var g0 := gamerIds[0];
      var next := awards[g0 := awards[g0] + [a]];
      var r := AwardAll(next, gamerIds[1..], a);
      assert forall g :: g in gamerIds[1..] ==> g in gamerIds;
      assert Distinct(gamerIds) ==> Distinct(gamerIds[1..]) && g0 !in gamerIds[1..] by {
        if Distinct(gamerIds) {
          DistinctTail(gamerIds);
        }
      }
      GrewByCons(awards, g0, a, r);
      r
  }
}
