# Scorekeeper score aggregation, in Dafny

This project models the scoring blueprint of Scorekeeper/scoring.py. That blueprint keeps
gamers, teams, team memberships, games and game scores in SQLite. It posts a game's
scores by giving points to gamers: each gamer keeps a running `total_points` and a
`points_history` text log with one `"<game_name>: +<points>"` line per award.

The database is modelled as in-memory tables. There are two layers:

- **Values** (modules `Store`, `Queries`, `History`, `Text`). `Db` holds the tables:
  - the Gamer table is a map from id to (name, total, history);
  - Team, TeamMember, Game and GameScore are sequences in row order.

  Every SQL statement and every endpoint is a function from the tables before to a `Step`.
  A `Step` holds the tables after the call and its outcome, either `Ok` or `Err`. Each
  statement commits on its own (`execute_db` commits after every statement). So a failing
  endpoint returns the tables as they were when it failed, with the effects of earlier
  statements still in them.
- **Objects** (module `Scorekeeper`). Class `ScoringDb` holds the same tables as fields.
  Its methods change those fields step by step, with the loops of the source:
  - the member loop of `create_team`;
  - the score loop of `create_game`, and inside it the team-member loop;
  - the row loop of the member query;
  - the team loop of `get_teams`.

  Each mutating method is proved equal to its `Store` function, so every lemma about a
  function also holds for the method. A ghost ledger records the awards each gamer has
  received. The class invariant `Valid()` has two parts:
  - the schema's constraints hold;
  - each gamer's total is the sum of its awards, and its history is their rendering.

The schema constraints that the model enforces, in SQLite's order (NOT NULL, then CHECK,
then UNIQUE):

- Gamer: `name` NOT NULL UNIQUE; a new row starts with total 0 and empty history.
- Team: `session_id` NOT NULL; UNIQUE(session_id, name).
- TeamMember: UNIQUE(team_id, gamer_id).
- Game: `session_id` NOT NULL; `game_type` in {team, individual}.
- GameScore: `points` NOT NULL; exactly one of `team_id` and `gamer_id` is set.

The schema declares foreign keys, but no connection turns them on (there is no
`PRAGMA foreign_keys`). So the model lets membership and score rows name gamers, teams
and games that do not exist. A membership that names a missing gamer makes
`update_gamer_points` subscript `None`. That `TypeError` is caught by `create_game` like
any other error; the model calls it `GamerNotFound`.

Ids follow AUTOINCREMENT with no deletions: the row at index `i` has id `i + 1`.

Python's f-string `{points}` is `str(int)`. `Text.IntToString` models it exactly, so a
negative award is written `"Quiz: +-3"`.

The Game and Team inserts omit `session_id`, which the schema declares NOT NULL, so as
written they are always rejected. `create_team` and `create_game` therefore take the
session id their insert is given: `None` is the code as written, and `Some(s)` is the
evident intent. See Findings.

## Model

| member | source | states |
|---|---|---|
| Text.IntToString | Scorekeeper/scoring.py:325-327 | `str(points)` as the f-string renders it: non-empty, begins with '-' exactly when negative, digits otherwise |
| Text.IntToStringRoundTrip | Scorekeeper/scoring.py:325-327 | the rendered points read back as the same integer, so a history line loses no points |
| Text.ParseIntRoundTrip | Scorekeeper/scoring.py:325-327 | only rendered integers parse, so rendering is a bijection onto canonical decimal strings |
| History.Entry | Scorekeeper/scoring.py:325-327 | a history line begins with the game name, and its last ':' is the one right after the name, so the name can be cut off again even when it contains ':' |
| History.AppendLine | Scorekeeper/scoring.py:323-327 | the old history is kept as a prefix, and what follows it is exactly the new line, preceded by a newline only when the old history was non-empty |
| History.RenderHistoryEmpty | Scorekeeper/scoring.py:323-327  | a history built by appending award lines to the empty default is empty exactly when no award was made |
| History.EntryRoundTrip | Scorekeeper/scoring.py:325-327 | a history line reads back as its game name and points, even when the name contains ": +" |
| History.HistoryRoundTrip | Scorekeeper/scoring.py:323-327 | when no game name contains a newline, the history text determines every award in order |
| History.Reconcile | Scorekeeper/scoring.py:322-327 | the total recomputed from a history text equals the sum of the awards that built it |
| History.MultiLineNameIsLost | Scorekeeper/scoring.py:323-327 | once any game name contains a newline, the history has more lines than awards, so it never reads back as the awards that built it: the text log is lossy |
| History.NegativeAwardRendering | Scorekeeper/scoring.py:325-327 | an award of -3 in game "Quiz" is logged as "Quiz: +-3" |
| Store.Valid | Scorekeeper/scoring.py:38-113 | the schema's UNIQUE and CHECK constraints, with ids handed out as 1, 2, 3, ...; a valid Gamer table leaves the next AUTOINCREMENT id free |
| Store.EmptyValid | Scorekeeper/scoring.py:38-113 | the empty tables that `init_db` creates satisfy every schema constraint |
| Store.InsertGamer | Scorekeeper/scoring.py:54-59 | a gamer insert succeeds exactly when the name is present and unused; the new row has a fresh id, total 0 and empty history; a rejected insert changes nothing; the constraints are kept |
| Store.Credit | Scorekeeper/scoring.py:322-327 | the row written back keeps the name, has exactly the points added to the total, and keeps the old history followed by one new line, with a newline separator only when the history was non-empty |
| Store.UpdateGamerPoints | Scorekeeper/scoring.py:317-330 | a missing gamer is an error that changes nothing; otherwise only that gamer's row changes, its name is kept, its total grows by exactly the points and its history gains exactly one line, with a separator only when it was non-empty |
| Store.InsertTeam | Scorekeeper/scoring.py:63-71 | a team insert needs a session id and a new (session, name) pair; the team gets the next id; a rejected insert changes nothing |
| Store.InsertTeamMember | Scorekeeper/scoring.py:74-83 | a membership insert succeeds exactly when the gamer id is present and the (team, gamer) pair is new; a duplicate is a UNIQUE error that changes nothing |
| Store.InsertGame | Scorekeeper/scoring.py:86-95 | a game insert succeeds exactly when it has a session id and a valid game type; the game gets the next id |
| Store.InsertGameScore | Scorekeeper/scoring.py:98-111 | a score insert succeeds exactly when points are present and exactly one of team and gamer is set; it appends that row and nothing else |
| Store.AddMembers | Scorekeeper/scoring.py:214-217 | the member loop only appends memberships; on success it appends one per id, in request order |
| Store.CreateTeam | Scorekeeper/scoring.py:203-221 | a request without a name changes nothing; success appends exactly the new team; gamers, games and scores never change |
| Store.AddTeamMember | Scorekeeper/scoring.py:223-235 | a missing `gamer_id` changes nothing; otherwise it succeeds exactly when the pair is new, and a rejection changes nothing |
| Store.MemberIds | Scorekeeper/scoring.py:270 | the member query returns exactly the gamers paired with the team (in an assumed order, see Left out) |
| Store.AwardPoints | Scorekeeper/scoring.py:271-272 | the member loop changes only gamer rows, and succeeds exactly when every listed member has a row |
| Store.AwardAll | Scorekeeper/scoring.py:271-272 | on the award ledger, the member loop appends only copies of the one award, leaves unlisted gamers alone, and with distinct ids gives each gamer at most one award |
| Store.PostEntry | Scorekeeper/scoring.py:261-278 | one score entry appends at most one score row, adds no gamer, and keeps teams, members and games; when it fails and what it leaves is stated by the Entry lemmas below |
| Store.PostScores | Scorekeeper/scoring.py:261-278 | the score loop appends at most one score row per entry, keeps the earlier score rows, and keeps the constraints |
| Store.CreateGame | Scorekeeper/scoring.py:245-282 | a request missing name, type or scores, or with another game type, changes nothing; without a session id the Game insert is rejected and nothing changes; otherwise the game is appended, and on success its id is returned |
| Properties.MemberIdsDistinct | Scorekeeper/scoring.py:81  | because (team, gamer) is unique, the member query never lists a gamer twice |
| Properties.AwardPointsCreditsEach | Scorekeeper/scoring.py:270-272 | when every listed member exists, each member gets the full points once and no other gamer changes |
| Properties.AwardPointsStopsAtMissing | Scorekeeper/scoring.py:271-272  | a member without a gamer row stops the loop: earlier members keep their points, later ones get none, and the call fails |
| Properties.PostScoresSplit | Scorekeeper/scoring.py:261-278 | the score loop over two lists of entries is the loop over the first, then, if that succeeded, the loop over the second |
| Properties.FailingEntryKeepsEarlierOnes | Scorekeeper/scoring.py:255-282  | when entry k fails, the call ends with that entry's error and with every effect of entries 0..k-1 still committed |
| Properties.FailureHasAPoint | Scorekeeper/scoring.py:261-282  | every failing score loop failed at some entry, after all earlier entries committed |
| Properties.CreateGameOneEntry | Scorekeeper/scoring.py:255-280 | a well-formed one-entry game with a session id is the Game insert followed by that entry, and returns the new id exactly when the entry succeeds |
| Properties.IndividualEntryCredits | Scorekeeper/scoring.py:274-278 | an individual entry records a gamer-only score row, credits exactly that gamer and returns the new game's id |
| Properties.TeamPostCreditsEveryMember | Scorekeeper/scoring.py:264-272 | a team entry whose members all exist records a team-only score row and credits each member once with the full points |
| Properties.TeamEntryCreditsEveryMember | Scorekeeper/scoring.py:264-272 | a team entry records a team-only score row and gives every current member the full points, not a share, and nobody else; a team with no members changes no gamer |
| Properties.EntryWithoutKeyFails | Scorekeeper/scoring.py:262-276 | an entry without `points`, or without the `team_id` or `gamer_id` its game type reads, fails with that key's KeyError and changes nothing |
| Properties.EntryScoreRowCommitted | Scorekeeper/scoring.py:262-278 | an entry's score row is committed exactly when the entry has points and its participant's id, whether or not the gamer update then fails; every other failure changes nothing |
| Properties.EntrySucceeds | Scorekeeper/scoring.py:262-278 | an entry succeeds exactly when it has points and its participant's id and every gamer it credits has a row |
| Properties.IndividualEntryMissingGamer | Scorekeeper/scoring.py:274-278 | an individual entry for a gamer without a row fails with its gamer-tagged score row committed and nothing else changed |
| Properties.TeamEntryMissingMember | Scorekeeper/scoring.py:264-272 | a team entry whose team lists a gamer without a row fails with its team-tagged score row committed |
| Properties.IndividualGameMissingGamer | Scorekeeper/scoring.py:255-282 | a one-entry individual game for a missing gamer answers with an error, yet the Game row and the score row stay committed and no gamer changes |
| Properties.CreateGameAsWrittenChangesNothing | Scorekeeper/scoring.py:257-258  | with the Game insert as written (no session id), every request fails and leaves the tables unchanged |
| Properties.CreateTeamAsWrittenChangesNothing | Scorekeeper/scoring.py:211  | with the Team insert as written (no session id), every request fails and leaves the tables unchanged |
| Properties.CreateGameWithSessionRecords | Scorekeeper/scoring.py:255-280 | with a session id, a well-formed game without scores is recorded with the next id and nothing else changes |
| Properties.AddMembersSucceeds | Scorekeeper/scoring.py:214-217 | distinct ids that are not yet members of the team are all inserted |
| Properties.CreateTeamWithSessionRecords | Scorekeeper/scoring.py:210-219 | with a session id and a new team, the team and one membership per listed id are recorded, in order |
| Properties.DuplicateMemberKeepsTeam | Scorekeeper/scoring.py:211-221  | a member id listed twice makes the request fail, but the team row and the first membership stay committed |
| Properties.InsertGamerKeepsLedger | Scorekeeper/scoring.py:54-59  | a new gamer starts with an empty award list; total and history still agree with the awards |
| Properties.CreditAppendsAward | Scorekeeper/scoring.py:322-327 | a row whose total and history agree with an award list still agrees after the credit, with that list extended by the award |
| Properties.CreditKeepsLedger | Scorekeeper/scoring.py:322-330 | crediting one gamer row corresponds to appending that award to the gamer's award list |
| Properties.UpdateGamerPointsKeepsLedger | Scorekeeper/scoring.py:317-330 | an update adds one award to that gamer's list, and every total still equals the sum of its awards, every history still their rendering |
| Properties.TotalReconcilesWithHistory | Scorekeeper/scoring.py:322-330 | while the ledger holds, a gamer's total can be recomputed from its history text alone |
| Queries.InsertByPoints | Scorekeeper/scoring.py:313 | inserting a row into a list ordered by points keeps it ordered and adds exactly that row |
| Queries.SortByPoints | Scorekeeper/scoring.py:313 | the result is ordered by points, highest first, and is a permutation of the input |
| Queries.Leaderboard | Scorekeeper/scoring.py:311-314  | the leaderboard is ordered by total points, highest first, and is a permutation of the Gamer rows |
| Queries.LeaderboardListsEveryGamer | Scorekeeper/scoring.py:313 | a row is on the leaderboard exactly when some gamer has that name, total and history |
| Queries.LeaderHasMostPoints | Scorekeeper/scoring.py:313 | the first leaderboard row has at least the total of every gamer |
| Queries.Roster | Scorekeeper/scoring.py:190-195 | a team's roster lists each existing gamer paired with the team, with its current name and total, and nothing else |
| Scorekeeper.ScoringDb.constructor | Scorekeeper/scoring.py:38-113 | a fresh database has empty tables, meets the invariant, and has no awards |
| Scorekeeper.ScoringDb.CreateGamer | Scorekeeper/scoring.py:140-151 | changes the tables exactly as `Store.InsertGamer`, gives a new gamer an empty award list, and keeps the invariant |
| Scorekeeper.ScoringDb.UpdateGamerPoints | Scorekeeper/scoring.py:317-330 | writes the gamer row in place exactly as `Store.UpdateGamerPoints`, appends the award to the ledger, and keeps the invariant |
| Scorekeeper.ScoringDb.InsertTeam | Scorekeeper/scoring.py:211 | changes only the Team table, exactly as `Store.InsertTeam` |
| Scorekeeper.ScoringDb.InsertTeamMember | Scorekeeper/scoring.py:216-217  | changes only the TeamMember table, exactly as `Store.InsertTeamMember` |
| Scorekeeper.ScoringDb.InsertGame | Scorekeeper/scoring.py:257-258 | changes only the Game table, exactly as `Store.InsertGame` |
| Scorekeeper.ScoringDb.InsertGameScore | Scorekeeper/scoring.py:266-267  | changes only the GameScore table, exactly as `Store.InsertGameScore` |
| Scorekeeper.ScoringDb.TeamMemberIds | Scorekeeper/scoring.py:270 | the rows read one by one are exactly the team's member ids, in the order `Store.MemberIds` assumes |
| Scorekeeper.ScoringDb.AwardPoints | Scorekeeper/scoring.py:271-272 | the member loop, one update per member, leaves the tables exactly as `Store.AwardPoints`, extends the ledger exactly as `Store.AwardAll`, and keeps the invariant |
| Scorekeeper.ScoringDb.GetTeams | Scorekeeper/scoring.py:184-201 | one entry per team, in an assumed table order (see Left out), with the team's id, name and roster |
| Scorekeeper.ScoringDb.CreateTeam | Scorekeeper/scoring.py:203-221 | the team insert and member loop leave the tables exactly as `Store.CreateTeam`, with the same outcome |
| Scorekeeper.ScoringDb.AddTeamMember | Scorekeeper/scoring.py:223-235 | leaves the tables exactly as `Store.AddTeamMember`, with the same outcome |
| Scorekeeper.ScoringDb.PostEntry | Scorekeeper/scoring.py:261-278 | one pass of the score loop, including the member loop, leaves the tables exactly as `Store.PostEntry`; each gamer's award list gains at most one award, the entry's points in this game, and an entry without points adds none |
| Scorekeeper.ScoringDb.CreateGame | Scorekeeper/scoring.py:245-282 | validation, the game insert and the score loop leave the tables exactly as `Store.CreateGame`, with the same outcome; a rejected request adds no award, and otherwise every gamer's award list only gains awards in this game |

## Left out

- Flask routing, form and JSON parsing, templates, redirects and HTTP status codes. Outcomes are `Ok` or `Err` values.
- JSON values of the wrong type are not modelled: a non-integer `points`, a non-list `scores`, a non-string name.
- A JSON `null` team or game name is modelled like a missing one. Both are rejected with no table change; only the error text differs.
- SQLite connection handling and SQL text. Every statement is a function over in-memory tables.
- Foreign-key actions (cascading deletes). No deletion path exists, and foreign keys are off.
- Timestamps (`date_created`, `date_played`), `sleep(5)` and `print`.
- `get_games`, because it orders by `date_played`, a timestamp.
- `create_session`, because its route accepts only GET, so its insert never runs; Session rows are never created.
- `get_gamer` and `get_game`: single-row lookups with no logic beyond "not found".
- Concurrency. The lost-update race between two requests is out of scope because the model is sequential.
- The error texts that the handlers return.
- Queries.Leaderboard: SQLite leaves the order of equal totals unspecified. The model puts them in id order, and its contract promises only the ordering and the permutation.
- Queries.Roster: the join has no ORDER BY. The model lists members in TeamMember order, and its contract states only which members appear.
- Store.MemberIds: the member query has no ORDER BY, so SQLite promises no order; the model assumes TeamMember table order, while SQLite may well answer from the UNIQUE(team_id, gamer_id) index in gamer-id order. The success case does not depend on the order: `Properties.AwardPointsCreditsEach` credits by membership. The order does decide which members are already credited when a missing gamer stops the loop, so `Properties.AwardPointsStopsAtMissing` holds for the order the query actually returns only if that order matches the model's.
- Scorekeeper.ScoringDb.TeamMemberIds: reads the rows in the same assumed order as `Store.MemberIds`.
- Scorekeeper.ScoringDb.GetTeams: `SELECT * FROM Team` has no ORDER BY, so SQLite promises no order; the model assumes a scan in id order, and its contract lists the teams in that order.
- Store.InsertGameScore: does not model the 64-bit binding limit. Python's sqlite3 raises OverflowError when a bound integer lies outside [-2^63, 2^63 - 1], so a score with such `points` (or such a team or gamer id) fails there and is caught by `create_game`; the model accepts it.
- Store.UpdateGamerPoints: does not model the same limit on `new_total`. A total that leaves [-2^63, 2^63 - 1] makes the UPDATE raise OverflowError and write nothing; the model credits the gamer with the unbounded sum.
- The other bound integers (member ids in `create_team` and `add_team_member`, team ids in the member query) are likewise unbounded in the model.
- main.py and the karaoke URL normalisation. Karaoke/Karaoke.py is not part of this model.

## Findings

| source | as written | input that shows it | evidently intended | confidence | as-written member | corrected member |
|---|---|---|---|---|---|---|
| Scorekeeper/scoring.py:257-258 | the Game insert omits `session_id`, which is NOT NULL (line 89), so it is always rejected | any well-formed `create_game` request, e.g. name "Quiz", type "individual", no scores | the game is recorded with the current session's id | high (not executed) | Properties.CreateGameAsWrittenChangesNothing | Properties.CreateGameWithSessionRecords |
| Scorekeeper/scoring.py:211 | the Team insert omits `session_id`, which is NOT NULL (line 66), so it is always rejected | any `create_team` request with a name | the team and its members are recorded under the current session | high (not executed) | Properties.CreateTeamAsWrittenChangesNothing | Properties.CreateTeamWithSessionRecords |
