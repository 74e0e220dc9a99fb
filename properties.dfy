/**
 * What the score-posting and membership operations of Store guarantee across
 * several statements: every member of a team gets the full points, a failing
 * entry stops the loop but keeps everything committed before it, and the
 * running totals stay reconcilable with the histories.
 */
module Properties {
  import opened Wrappers
  import opened History
  import opened Store

  /** UNIQUE(team_id, gamer_id) means a team's member query never lists a gamer twice. */
  lemma {:induction false} MemberIdsDistinct(members: seq<TeamMember>, teamId: int)
    requires Distinct(members)
    ensures Distinct(MemberIds(members, teamId))
  {
    if members != [] {
      var rest := members[1..];
      DistinctTail(members);
      MemberIdsDistinct(rest, teamId);
      if members[0].teamId == teamId {
        var g := members[0].gamerId;
        var ids := [g] + MemberIds(rest, teamId);
        forall i, j | 0 <= i < j < |ids| ensures ids[i] != ids[j] {
          if i == 0 {
            assert ids[j] in MemberIds(rest, teamId);
          } else {
            assert ids[i] == MemberIds(rest, teamId)[i - 1] && ids[j] == MemberIds(rest, teamId)[j - 1];
          }
        }
      }
    }
  }

  /** Awarding to distinct, existing gamers credits each of them with the full points and nobody else. */
  lemma {:induction false} AwardPointsCreditsEach(db: Db, gamerIds: seq<int>, points: int, gameName: string)
    requires Distinct(gamerIds)
    requires forall i :: 0 <= i < |gamerIds| ==> gamerIds[i] in db.gamers
    ensures AwardPoints(db, gamerIds, points, gameName).result.Ok?
    ensures forall g :: g in db.gamers ==>
      AwardPoints(db, gamerIds, points, gameName).db.gamers[g]
      == if g in gamerIds then Credit(db.gamers[g], points, gameName) else db.gamers[g]
    decreases |gamerIds|
  {
    if gamerIds != [] {
      var first, rest := gamerIds[0], gamerIds[1..];
      var u := UpdateGamerPoints(db, first, points, gameName);
      DistinctTail(gamerIds);
      assert forall i :: 0 <= i < |rest| ==> rest[i] == gamerIds[i + 1];
      AwardPointsCreditsEach(u.db, rest, points, gameName);
      forall g | g in db.gamers
        ensures AwardPoints(db, gamerIds, points, gameName).db.gamers[g]
                == if g in gamerIds then Credit(db.gamers[g], points, gameName) else db.gamers[g]
      {
        assert g in gamerIds <==> g == first || g in rest;
      }
    }
  }

  /** The score loop over `a + b` is the loop over `a` followed, if that succeeded, by the loop over `b`. */
  lemma {:induction false} PostScoresSplit(db: Db, gameId: int, gameType: string, gameName: string,
                                           a: seq<ScoreEntry>, b: seq<ScoreEntry>)
    ensures PostScores(db, gameId, gameType, gameName, a + b)
         == var s := PostScores(db, gameId, gameType, gameName, a);
            if s.result.Err? then s else PostScores(s.db, gameId, gameType, gameName, b)
    decreases |a|
  {
    if a != [] {
      assert (a + b)[0] == a[0] && (a + b)[1..] == a[1..] + b;
      var s := PostEntry(db, gameId, gameType, gameName, a[0]);
      if s.result.Ok? {
        PostScoresSplit(s.db, gameId, gameType, gameName, a[1..], b);
      }
    } else {
      assert a + b == b;
    }
  }

  /**
   * Each statement commits on its own: when entry k fails after entries 0..k-1
   * succeeded, the call ends with exactly the tables entry k left behind,
   * which still hold every effect of the earlier entries, and with entry k's error.
   */
  lemma FailingEntryKeepsEarlierOnes(db: Db, gameId: int, gameType: string, gameName: string,
                                     entries: seq<ScoreEntry>, k: nat)
    requires k < |entries|
    requires PostScores(db, gameId, gameType, gameName, entries[..k]).result.Ok?
    requires PostEntry(PostScores(db, gameId, gameType, gameName, entries[..k]).db,
                       gameId, gameType, gameName, entries[k]).result.Err?
    ensures PostScores(db, gameId, gameType, gameName, entries)
         == PostEntry(PostScores(db, gameId, gameType, gameName, entries[..k]).db, gameId, gameType, gameName, entries[k])
  {
    assert entries == entries[..k] + entries[k..];
    PostScoresSplit(db, gameId, gameType, gameName, entries[..k], entries[k..]);
    assert entries[k..][0] == entries[k];
  }

  /** The score loop over one entry is that entry's post. */
  lemma PostScoresSingle(db: Db, gameId: int, gameType: string, gameName: string, e: ScoreEntry)
    ensures PostScores(db, gameId, gameType, gameName, [e]) == PostEntry(db, gameId, gameType, gameName, e)
  {
    var s := PostEntry(db, gameId, gameType, gameName, e);
    assert [e][0] == e && [e][1..] == [];
    if s.result.Ok? {
      var u: () := s.result.value;
      assert u == ();
    }
  }

  /** Conversely, a failing score loop failed at some entry with all earlier entries committed. */
  lemma {:induction false} FailureHasAPoint(db: Db, gameId: int, gameType: string, gameName: string,
                                            entries: seq<ScoreEntry>)
    returns (k: nat)
    requires PostScores(db, gameId, gameType, gameName, entries).result.Err?
    ensures k < |entries|
    ensures PostScores(db, gameId, gameType, gameName, entries[..k]).result.Ok?
    ensures PostScores(db, gameId, gameType, gameName, entries)
         == PostEntry(PostScores(db, gameId, gameType, gameName, entries[..k]).db, gameId, gameType, gameName, entries[k])
    decreases |entries|
  {
    assert entries != [];
    var first, rest := entries[0], entries[1..];
    var s := PostEntry(db, gameId, gameType, gameName, first);
    PostScoresSingle(db, gameId, gameType, gameName, first);
    assert entries == [first] + rest;
    PostScoresSplit(db, gameId, gameType, gameName, [first], rest);
    if s.result.Err? {
      k := 0;
      assert entries[..0] == [];
    } else {
      var j := FailureHasAPoint(s.db, gameId, gameType, gameName, rest);
      k := j + 1;
      assert entries[..k] == [first] + rest[..j];
      PostScoresSplit(db, gameId, gameType, gameName, [first], rest[..j]);
      assert entries[k] == rest[j];
    }
  }

  /** A well-formed game with one entry is the Game insert followed by that entry's post. */
  lemma CreateGameOneEntry(db: Db, gameName: string, gameType: string, sessionId: int, e: ScoreEntry)
    requires GameTypeOk(gameType)
    ensures var g := db.(games := db.games + [Game(sessionId, gameName, gameType)]);
      var p := PostEntry(g, |db.games| + 1, gameType, gameName, e);
      CreateGame(db, GameRequest(Some(gameName), Some(gameType), Some([e])), Some(sessionId))
      == Step(p.db, if p.result.Ok? then Ok(|db.games| + 1) else Err(p.result.error))
  {
    var g := InsertGame(db, Some(sessionId), gameName, gameType);
    PostScoresSingle(g.db, |db.games| + 1, gameType, gameName, e);
  }

  /** An individual game with one entry credits exactly that gamer, and records one gamer-tagged score row. */
  lemma IndividualEntryCredits(db: Db, gameName: string, sessionId: int, e: ScoreEntry, points: int, gamerId: int)
    requires e.points == Int(points) && e.gamerId == Int(gamerId) && gamerId in db.gamers
    ensures var r := CreateGame(db, GameRequest(Some(gameName), Some("individual"), Some([e])), Some(sessionId));
      && r.result == Ok(|db.games| + 1)
      && r.db.games == db.games + [Game(sessionId, gameName, "individual")]
      && r.db.scores == db.scores + [GameScore(|db.games| + 1, None, Some(gamerId), points)]
      && r.db.gamers == db.gamers[gamerId := Credit(db.gamers[gamerId], points, gameName)]
  {
    CreateGameOneEntry(db, gameName, "individual", sessionId, e);
  }

  /** A team entry records a team-tagged score row and credits each member of the team once. */
  lemma TeamPostCreditsEveryMember(db: Db, gameId: int, gameName: string, e: ScoreEntry, points: int, teamId: int)
    requires Valid(db)
    requires e.points == Int(points) && e.teamId == Int(teamId)
    requires forall g :: TeamMember(teamId, g) in db.members ==> g in db.gamers
    ensures var p := PostEntry(db, gameId, "team", gameName, e);
      && p.result.Ok?
      && p.db.scores == db.scores + [GameScore(gameId, Some(teamId), None, points)]
      && forall g :: g in db.gamers ==>
           p.db.gamers[g] == if TeamMember(teamId, g) in db.members then Credit(db.gamers[g], points, gameName)
                             else db.gamers[g]
  {
    var s := InsertGameScore(db, gameId, Some(teamId), None, Some(points));
    var ids := MemberIds(db.members, teamId);
    MemberIdsDistinct(db.members, teamId);
    assert s.db.gamers == db.gamers && s.db.members == db.members;
    forall i | 0 <= i < |ids| ensures ids[i] in s.db.gamers {
      assert ids[i] in ids;
      assert TeamMember(teamId, ids[i]) in db.members;
    }
    AwardPointsCreditsEach(s.db, ids, points, gameName);
  }

  /**
   * A team game with one entry records one team-tagged score row and gives
   * the full points to every current member of the team (not a share), and
   * to nobody else. A team without members changes no gamer.
   */
  lemma TeamEntryCreditsEveryMember(db: Db, gameName: string, sessionId: int, e: ScoreEntry, points: int, teamId: int)
    requires Valid(db)
    requires e.points == Int(points) && e.teamId == Int(teamId)
    requires forall g :: TeamMember(teamId, g) in db.members ==> g in db.gamers
    ensures var r := CreateGame(db, GameRequest(Some(gameName), Some("team"), Some([e])), Some(sessionId));
      && r.result == Ok(|db.games| + 1)
      && r.db.scores == db.scores + [GameScore(|db.games| + 1, Some(teamId), None, points)]
      && r.db.gamers.Keys == db.gamers.Keys
      && forall g :: g in db.gamers ==>
           r.db.gamers[g] == if TeamMember(teamId, g) in db.members then Credit(db.gamers[g], points, gameName)
                             else db.gamers[g]
  {
    var g := InsertGame(db, Some(sessionId), gameName, "team").db;
    CreateGameOneEntry(db, gameName, "team", sessionId, e);
    TeamPostCreditsEveryMember(g, |db.games| + 1, gameName, e, points, teamId);
  }

  /**
   * An entry without the key the loop reads fails with that key's KeyError
   * before any statement runs, so it changes nothing.
   */
  lemma EntryWithoutKeyFails(db: Db, gameId: int, gameType: string, gameName: string, e: ScoreEntry)
    ensures e.points.Missing? ==>
      PostEntry(db, gameId, gameType, gameName, e) == Step(db, Err(KeyError("points")))
    ensures !e.points.Missing? && gameType == "team" && e.teamId.Missing? ==>
      PostEntry(db, gameId, gameType, gameName, e) == Step(db, Err(KeyError("team_id")))
    ensures !e.points.Missing? && gameType != "team" && e.gamerId.Missing? ==>
      PostEntry(db, gameId, gameType, gameName, e) == Step(db, Err(KeyError("gamer_id")))
  {
  }

  /**
   * An entry's GameScore row is committed exactly when the entry has points
   * and its participant's id: then the entry either succeeds or fails in
   * `update_gamer_points` with the row kept. Every other failure changes
   * nothing.
   */
  lemma EntryScoreRowCommitted(db: Db, gameId: int, gameType: string, gameName: string, e: ScoreEntry)
    ensures var r := PostEntry(db, gameId, gameType, gameName, e);
      r.result.Ok? || r.result == Err(GamerNotFound) <==>
        e.points.Int? && (if gameType == "team" then e.teamId.Int? else e.gamerId.Int?)
    ensures var r := PostEntry(db, gameId, gameType, gameName, e);
      r.result.Err? && r.result.error != GamerNotFound ==> r.db == db
    ensures var r := PostEntry(db, gameId, gameType, gameName, e);
      e.points.Int? && gameType == "team" && e.teamId.Int? ==>
        r.db.scores == db.scores + [GameScore(gameId, Some(e.teamId.value), None, e.points.value)]
    ensures var r := PostEntry(db, gameId, gameType, gameName, e);
      e.points.Int? && gameType != "team" && e.gamerId.Int? ==>
        r.db.scores == db.scores + [GameScore(gameId, None, Some(e.gamerId.value), e.points.value)]
  {
    if e.points.Int? && gameType == "team" && e.teamId.Int? {
      var s := InsertGameScore(db, gameId, Some(e.teamId.value), None, Some(e.points.value));
      var a := AwardPoints(s.db, MemberIds(s.db.members, e.teamId.value), e.points.value, gameName);
      assert a.db.scores == s.db.scores;
    }
  }

  /**
   * An entry succeeds exactly when it has points and its participant's id
   * and every gamer it credits has a row: the one gamer of an individual
   * entry, every member of a team.
   */
  lemma EntrySucceeds(db: Db, gameId: int, gameType: string, gameName: string, e: ScoreEntry)
    ensures PostEntry(db, gameId, gameType, gameName, e).result.Ok? <==>
      && e.points.Int?
      && if gameType == "team" then
           e.teamId.Int? && forall g :: TeamMember(e.teamId.value, g) in db.members ==> g in db.gamers
         else
           e.gamerId.Int? && e.gamerId.value in db.gamers
  {
    if e.points.Int? && gameType == "team" && e.teamId.Int? {
      var teamId := e.teamId.value;
      var s := InsertGameScore(db, gameId, Some(teamId), None, Some(e.points.value));
      var ids := MemberIds(s.db.members, teamId);
      assert s.db.members == db.members && s.db.gamers == db.gamers;
      if forall g :: TeamMember(teamId, g) in db.members ==> g in db.gamers {
        forall i | 0 <= i < |ids| ensures ids[i] in s.db.gamers {
          assert ids[i] in ids;
          assert TeamMember(teamId, ids[i]) in db.members;
        }
      } else {
        var g :| TeamMember(teamId, g) in db.members && g !in db.gamers;
        assert g in ids;
        var i :| 0 <= i < |ids| && ids[i] == g;
      }
    }
  }

  /**
   * An individual entry for a gamer without a row keeps the score row it
   * inserted and then fails where `update_gamer_points` reads the missing row.
   */
  lemma IndividualEntryMissingGamer(db: Db, gameId: int, gameName: string, points: int, teamId: Field, gamerId: int)
    requires gamerId !in db.gamers
    ensures PostEntry(db, gameId, "individual", gameName, ScoreEntry(Int(points), teamId, Int(gamerId)))
      == Step(db.(scores := db.scores + [GameScore(gameId, None, Some(gamerId), points)]), Err(GamerNotFound))
  {
  }

  /**
   * A team entry whose team lists a gamer without a row fails with that
   * error, and its team-tagged score row stays committed.
   */
  lemma TeamEntryMissingMember(db: Db, gameId: int, gameName: string, points: int, teamId: int, gamerId: Field, g: int)
    requires TeamMember(teamId, g) in db.members && g !in db.gamers
    ensures var p := PostEntry(db, gameId, "team", gameName, ScoreEntry(Int(points), Int(teamId), gamerId));
      && p.result == Err(GamerNotFound)
      && p.db.scores == db.scores + [GameScore(gameId, Some(teamId), None, points)]
  {
    var e := ScoreEntry(Int(points), Int(teamId), gamerId);
    EntrySucceeds(db, gameId, "team", gameName, e);
    EntryScoreRowCommitted(db, gameId, "team", gameName, e);
  }

  /**
   * An individual game whose one entry names a gamer without a row answers
   * with an error, yet its Game row and its score row both stay committed
   * and no gamer changes.
   */
  lemma IndividualGameMissingGamer(db: Db, gameName: string, sessionId: int, points: int, teamId: Field, gamerId: int)
    requires gamerId !in db.gamers
    ensures var r := CreateGame(db, GameRequest(Some(gameName), Some("individual"),
                                                Some([ScoreEntry(Int(points), teamId, Int(gamerId))])), Some(sessionId));
      && r.result == Err(GamerNotFound)
      && r.db.games == db.games + [Game(sessionId, gameName, "individual")]
      && r.db.scores == db.scores + [GameScore(|db.games| + 1, None, Some(gamerId), points)]
      && r.db.gamers == db.gamers
  {
    var e := ScoreEntry(Int(points), teamId, Int(gamerId));
    var g := InsertGame(db, Some(sessionId), gameName, "individual").db;
    CreateGameOneEntry(db, gameName, "individual", sessionId, e);
    IndividualEntryMissingGamer(g, |db.games| + 1, gameName, points, teamId, gamerId);
  }

  /** As written, create_game gives its Game insert no session_id, so no request ever changes a table. */
  lemma CreateGameAsWrittenChangesNothing(db: Db, req: GameRequest)
    ensures CreateGame(db, req, None).db == db
    ensures CreateGame(db, req, None).result.Err?
  {
  }

  /** As written, create_team gives its Team insert no session_id, so no team or member is ever created. */
  lemma CreateTeamAsWrittenChangesNothing(db: Db, req: TeamRequest)
    ensures CreateTeam(db, req, None).db == db
    ensures CreateTeam(db, req, None).result.Err?
  {
  }

  /** Inserting distinct ids that are not yet members of the team succeeds for every one of them. */
  lemma {:induction false} AddMembersSucceeds(db: Db, teamId: int, gamerIds: seq<Option<int>>)
    requires Distinct(gamerIds)
    requires forall i :: 0 <= i < |gamerIds| ==>
               gamerIds[i].Some? && TeamMember(teamId, gamerIds[i].value) !in db.members
    ensures AddMembers(db, teamId, gamerIds).result.Ok?
    decreases |gamerIds|
  {
    if gamerIds != [] {
      var first, rest := gamerIds[0], gamerIds[1..];
      var s := InsertTeamMember(db, teamId, first);
      assert s.db.members == db.members + [TeamMember(teamId, first.value)];
      DistinctTail(gamerIds);
      forall i | 0 <= i < |rest|
        ensures rest[i].Some? && TeamMember(teamId, rest[i].value) !in s.db.members
      {
        assert rest[i] == gamerIds[i + 1] && gamerIds[i + 1] != gamerIds[0];
      }
      AddMembersSucceeds(s.db, teamId, rest);
    }
  }

  /**
   * With a session id, a new (session, name) pair and distinct member ids that
   * no stale membership row already pairs with the new team's id, `create_team`
   * records the team and one membership per id, in request order.
   */
  lemma CreateTeamWithSessionRecords(db: Db, name: string, sessionId: int, gamerIds: seq<Option<int>>)
    requires Team(sessionId, name) !in db.teams
    requires Distinct(gamerIds)
    requires forall i :: 0 <= i < |gamerIds| ==>
               gamerIds[i].Some? && TeamMember(|db.teams| + 1, gamerIds[i].value) !in db.members
    ensures var r := CreateTeam(db, TeamRequest(Some(name), Some(gamerIds)), Some(sessionId));
      && r.result == Ok(|db.teams| + 1)
      && r.db.teams == db.teams + [Team(sessionId, name)]
      && |r.db.members| == |db.members| + |gamerIds|
      && r.db.members[..|db.members|] == db.members
      && forall i :: 0 <= i < |gamerIds| ==>
           r.db.members[|db.members| + i] == TeamMember(|db.teams| + 1, gamerIds[i].value)
  {
    var t := InsertTeam(db, Some(sessionId), name);
    AddMembersSucceeds(t.db, |db.teams| + 1, gamerIds);
  }

  /**
   * A member id listed twice makes the second membership insert fail, yet the
   * team row and the first membership stay committed although the request is
   * answered with an error.
   */
  lemma DuplicateMemberKeepsTeam(db: Db, name: string, sessionId: int, gamerId: int)
    requires Team(sessionId, name) !in db.teams
    requires TeamMember(|db.teams| + 1, gamerId) !in db.members
    ensures var r := CreateTeam(db, TeamRequest(Some(name), Some([Some(gamerId), Some(gamerId)])), Some(sessionId));
      && r.result == Err(MemberTaken)
      && r.db.teams == db.teams + [Team(sessionId, name)]
      && r.db.members == db.members + [TeamMember(|db.teams| + 1, gamerId)]
  {
    var teamId := |db.teams| + 1;
    var t := InsertTeam(db, Some(sessionId), name);
    var ids := [Some(gamerId), Some(gamerId)];
    var s := InsertTeamMember(t.db, teamId, Some(gamerId));
    assert s.db.members == db.members + [TeamMember(teamId, gamerId)];
    assert ids[1..] == [Some(gamerId)] && ids[1..][1..] == [];
    assert InsertTeamMember(s.db, teamId, Some(gamerId)) == Step(s.db, Err(MemberTaken));
    assert AddMembers(s.db, teamId, ids[1..]) == Step(s.db, Err(MemberTaken));
    assert AddMembers(t.db, teamId, ids) == Step(s.db, Err(MemberTaken));
  }

  /** With a session id the Game insert succeeds: a well-formed game without scores is recorded. */
  lemma CreateGameWithSessionRecords(db: Db, gameName: string, gameType: string, sessionId: int)
    requires GameTypeOk(gameType)
    ensures CreateGame(db, GameRequest(Some(gameName), Some(gameType), Some([])), Some(sessionId))
         == Step(db.(games := db.games + [Game(sessionId, gameName, gameType)]), Ok(|db.games| + 1))
  {
  }

  /** The first j ids of a sequence without repeats are its head followed by the next j - 1, which lack the head. */
  lemma PrefixCons(gamerIds: seq<int>, j: nat)
    requires Distinct(gamerIds) && 0 < j <= |gamerIds|
    ensures gamerIds[..j] == [gamerIds[0]] + gamerIds[1..][..j - 1]
    ensures gamerIds[0] !in gamerIds[1..][..j - 1]
  {
    var init := gamerIds[1..][..j - 1];
    forall k | 0 <= k < |init| ensures init[k] != gamerIds[0] {
      assert init[k] == gamerIds[k + 1];
    }
  }

  /**
   * A member id with no Gamer row (foreign keys are not enforced) stops the
   * member loop there: the members before it keep the full points, the
   * missing one and every member after it get nothing, and the error surfaces.
   */
  lemma {:induction false} AwardPointsStopsAtMissing(db: Db, gamerIds: seq<int>, points: int, gameName: string, j: nat)
    requires Distinct(gamerIds) && j < |gamerIds|
    requires forall i :: 0 <= i < j ==> gamerIds[i] in db.gamers
    requires gamerIds[j] !in db.gamers
    ensures AwardPoints(db, gamerIds, points, gameName).result == Err(GamerNotFound)
    ensures forall g :: g in db.gamers ==>
      AwardPoints(db, gamerIds, points, gameName).db.gamers[g]
      == if g in gamerIds[..j] then Credit(db.gamers[g], points, gameName) else db.gamers[g]
    decreases j
  {
    var first, rest := gamerIds[0], gamerIds[1..];
    var u := UpdateGamerPoints(db, first, points, gameName);
    if j == 0 {
      assert gamerIds[..0] == [];
    } else {
      assert AwardPoints(db, gamerIds, points, gameName) == AwardPoints(u.db, rest, points, gameName);
      DistinctTail(gamerIds);
      assert forall i :: 0 <= i < |rest| ==> rest[i] == gamerIds[i + 1];
      AwardPointsStopsAtMissing(u.db, rest, points, gameName, j - 1);
      var init := rest[..j - 1];
      PrefixCons(gamerIds, j);
      var r := AwardPoints(u.db, rest, points, gameName);
      forall g | g in db.gamers
        ensures r.db.gamers[g] == if g in gamerIds[..j] then Credit(db.gamers[g], points, gameName) else db.gamers[g]
      {
        assert g in gamerIds[..j] <==> g == first || g in init;
      }
    }
  }

  // ===== The ledger =====

  lemma InsertGamerKeepsLedger(db: Db, awards: map<int, seq<Award>>, name: Option<string>)
    requires Valid(db) && LedgerHolds(db, awards)
    ensures var r := InsertGamer(db, name);
      LedgerHolds(r.db, if r.result.Ok? then awards[r.result.value := []] else awards)
  {
  }

  /** A row in step with an award list stays in step with that list extended by the credited award. */
  lemma CreditAppendsAward(g: Gamer, awards: seq<Award>, points: int, gameName: string)
    requires g.totalPoints == TotalPoints(awards) && g.pointsHistory == RenderHistory(awards)
    ensures Credit(g, points, gameName).totalPoints == TotalPoints(awards + [Award(gameName, points)])
    ensures Credit(g, points, gameName).pointsHistory == RenderHistory(awards + [Award(gameName, points)])
  {
    var extended := awards + [Award(gameName, points)];
    assert extended[..|extended| - 1] == awards;
  }

  /** Crediting one gamer's row matches appending the award to that gamer's list. */
  lemma CreditKeepsLedger(db: Db, awards: map<int, seq<Award>>, gamerId: int, points: int, gameName: string)
    requires LedgerHolds(db, awards) && gamerId in db.gamers
    ensures LedgerHolds(db.(gamers := db.gamers[gamerId := Credit(db.gamers[gamerId], points, gameName)]),
                        awards[gamerId := awards[gamerId] + [Award(gameName, points)]])
  {
    var gamers := db.gamers[gamerId := Credit(db.gamers[gamerId], points, gameName)];
    var ledger := awards[gamerId := awards[gamerId] + [Award(gameName, points)]];
    CreditAppendsAward(db.gamers[gamerId], awards[gamerId], points, gameName);
    forall id | id in gamers
      ensures gamers[id].totalPoints == TotalPoints(ledger[id])
      ensures gamers[id].pointsHistory == RenderHistory(ledger[id])
    {
      if id != gamerId {
        assert gamers[id] == db.gamers[id] && ledger[id] == awards[id];
      }
    }
  }

  lemma UpdateGamerPointsKeepsLedger(db: Db, awards: map<int, seq<Award>>, gamerId: int, points: int, gameName: string)
    requires LedgerHolds(db, awards)
    ensures LedgerHolds(UpdateGamerPoints(db, gamerId, points, gameName).db,
                        if gamerId in db.gamers then awards[gamerId := awards[gamerId] + [Award(gameName, points)]] else awards)
  {
    if gamerId in db.gamers {
      CreditKeepsLedger(db, awards, gamerId, points, gameName);
    }
  }

  /** One pass of the score loop: the next entry, then the rest unless it failed. */
  lemma PostScoresStep(db: Db, gameId: int, gameType: string, gameName: string, entries: seq<ScoreEntry>, i: nat)
    requires i < |entries|
    ensures var p := PostEntry(db, gameId, gameType, gameName, entries[i]);
      PostScores(db, gameId, gameType, gameName, entries[i..])
      == if p.result.Err? then p else PostScores(p.db, gameId, gameType, gameName, entries[i + 1..])
  {
    assert entries[i..][0] == entries[i] && entries[i..][1..] == entries[i + 1..];
  }

  /** One pass of the member loop on the tables: the update of the next member, then the rest unless it failed. */
  lemma AwardPointsStep(db: Db, gamerIds: seq<int>, j: nat, points: int, gameName: string)
    requires j <= |gamerIds|
    ensures j == |gamerIds| ==> AwardPoints(db, gamerIds[j..], points, gameName) == Step(db, Ok(()))
    ensures j < |gamerIds| ==>
      var u := UpdateGamerPoints(db, gamerIds[j], points, gameName);
      AwardPoints(db, gamerIds[j..], points, gameName)
      == if u.result.Err? then u else AwardPoints(u.db, gamerIds[j + 1..], points, gameName)
  {
    if j < |gamerIds| {
      assert gamerIds[j..][0] == gamerIds[j] && gamerIds[j..][1..] == gamerIds[j + 1..];
    } else {
      assert gamerIds[j..] == [];
    }
  }

  /** One pass of the member loop on the ledger: a gamer with a list gets the award, and the rest follows. */
  lemma AwardAllStep(before: map<int, seq<Award>>, gamerIds: seq<int>, j: nat, a: Award)
    requires j <= |gamerIds|
    ensures j == |gamerIds| || gamerIds[j] !in before ==> AwardAll(before, gamerIds[j..], a) == before
    ensures j < |gamerIds| && gamerIds[j] in before ==>
      AwardAll(before, gamerIds[j..], a)
      == AwardAll(before[gamerIds[j] := before[gamerIds[j]] + [a]], gamerIds[j + 1..], a)
  {
    if j < |gamerIds| {
      assert gamerIds[j..][0] == gamerIds[j] && gamerIds[j..][1..] == gamerIds[j + 1..];
    } else {
      assert gamerIds[j..] == [];
    }
  }

  /** A ledger that did not change grew by awards in any game: by none. */
  lemma GrewInSame(x: map<int, seq<Award>>, gameName: string)
    ensures GrewIn(x, x, gameName)
  {
    forall g | g in x ensures x[g][..|x[g]|] == x[g] {
    }
  }

  /** Awards in one game followed by copies of one more award in that game are still awards in that game. */
  lemma GrewInThenBy(x: map<int, seq<Award>>, y: map<int, seq<Award>>, z: map<int, seq<Award>>, a: Award)
    requires GrewIn(x, y, a.gameName) && GrewBy(y, z, a)
    ensures GrewIn(x, z, a.gameName)
  {
    forall g | g in x
      ensures |x[g]| <= |z[g]| && z[g][..|x[g]|] == x[g]
      ensures forall k :: |x[g]| <= k < |z[g]| ==> z[g][k].gameName == a.gameName
    {
      assert z[g][..|y[g]|] == y[g] && y[g][..|x[g]|] == x[g];
      assert z[g][..|x[g]|] == y[g][..|x[g]|];
      forall k | |x[g]| <= k < |z[g]| ensures z[g][k].gameName == a.gameName {
        if k < |y[g]| {
          assert z[g][k] == y[g][k];
        }
      }
    }
  }

  /**
   * While the ledger holds, a gamer's total can be recomputed from its history
   * text alone, provided none of its games has a newline in its name.
   */
  lemma TotalReconcilesWithHistory(db: Db, awards: map<int, seq<Award>>, gamerId: int)
    requires LedgerHolds(db, awards) && gamerId in db.gamers && SingleLineNames(awards[gamerId])
    ensures ReconciledTotal(db.gamers[gamerId].pointsHistory) == Some(db.gamers[gamerId].totalPoints)
  {
    Reconcile(awards[gamerId]);
  }
}
