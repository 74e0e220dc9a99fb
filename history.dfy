/**
 * A gamer's `points_history` column: a newline-separated text log with one
 * line `"<game_name>: +<points>"` per award. `RenderHistory` is the text that a
 * sequence of awards leaves behind when each is appended the way
 * `update_gamer_points` appends it; `ParseHistory` reads such a text back, which
 * gives the reconciliation of `total_points` against the history.
 */
module History {
  import opened Wrappers
  import opened Text

  /** One call of `update_gamer_points`: the game's name and the points awarded. */
  datatype Award = Award(gameName: string, points: int)

  /**
   * The history line of one award, `f"{game_name}: +{points}"`; a negative award reads `+-3`.
   * The name comes first, and the last ':' of the line is the one right after it.
   */
  function Entry(gameName: string, points: int): (line: string)
    ensures |gameName| + 3 < |line| && line[..|gameName|] == gameName
    ensures LastIndex(line, ':') == |gameName|
  {
    var digits := IntToString(points);
    var tail := " +" + digits;
    assert ':' !in tail by {
      forall k | 0 <= k < |tail| ensures tail[k] != ':' {
        if k >= 2 {
          assert tail[k] == digits[k - 2];
        }
      }
    }
    LastIndexAt(gameName, ':', tail);
    var line := gameName + [':'] + tail;
    assert line == gameName + ": +" + digits;
    line
  }

  /** Extends a history by one line, with a newline separator only when the history is non-empty. */
  function AppendLine(history: string, line: string): (r: string)
    ensures |history| <= |r| && r[..|history|] == history
    ensures |r| == |history| + |line| + (if history == "" then 0 else 1)
    ensures r[|history|..] == (if history == "" then "" else "\n") + line
  {
    if history != "" then history + "\n" + line else line
  }

  /** The history a gamer has after the given awards, starting from the empty default. */
  function RenderHistory(awards: seq<Award>): string {
    if awards == [] then ""
    else AppendLine(RenderHistory(awards[..|awards| - 1]), Entry(awards[|awards| - 1].gameName, awards[|awards| - 1].points))
  }

  /** The sum of the points of the given awards. */
  function TotalPoints(awards: seq<Award>): int {
    if awards == [] then 0 else TotalPoints(awards[..|awards| - 1]) + awards[|awards| - 1].points
  }

  lemma RenderHistoryEmpty(awards: seq<Award>)
    ensures RenderHistory(awards) == "" <==> awards == []
  {
  }

  /** The position of the last `c` in `s`, or -1 when there is none. */
  function LastIndex(s: string, c: char): (k: int)
    ensures -1 <= k < |s|
    ensures k >= 0 ==> s[k] == c
    ensures forall j :: k < j < |s| ==> s[j] != c
  {
    if s == [] then -1
    else if s[|s| - 1] == c then |s| - 1
    else LastIndex(s[..|s| - 1], c)
  }

  lemma LastIndexAt(a: string, c: char, b: string)
    requires c !in b
    ensures LastIndex(a + [c] + b, c) == |a|
  {
    var s := a + [c] + b;
    var k := LastIndex(s, c);
    assert s[|a|] == c;
  }

  /** Splits a text at its newlines, as Python's `str.split("\n")` does. */
  function SplitLines(s: string): (lines: seq<string>)
    ensures |lines| > 0
    decreases |s|
  {
    var k := LastIndex(s, '\n');
    if k < 0 then [s] else SplitLines(s[..k]) + [s[k + 1..]]
  }

  lemma SplitLinesAppend(history: string, line: string)
    requires '\n' !in line
    ensures SplitLines(history + "\n" + line) == SplitLines(history) + [line]
  {
    var s := history + "\n" + line;
    LastIndexAt(history, '\n', line);
    assert s[..|history|] == history;
    assert s[|history| + 1..] == line;
  }

  lemma SplitLinesSingle(line: string)
    requires '\n' !in line
    ensures SplitLines(line) == [line]
  {
    assert forall j :: 0 <= j < |line| ==> line[j] in line;
  }

  /** Reads one history line back into the award it records. */
  function ParseEntry(line: string): Option<Award> {
    var k := LastIndex(line, ':');
    if 0 <= k && k + 3 <= |line| && line[k + 1] == ' ' && line[k + 2] == '+' then
      match ParseInt(line[k + 3..])
      case Some(p) => Some(Award(line[..k], p))
      case None => None
    else None
  }

  /** Every game name, even one containing ':' or ': +', is read back exactly. */
  lemma EntryRoundTrip(gameName: string, points: int)
    ensures ParseEntry(Entry(gameName, points)) == Some(Award(gameName, points))
  {
    var line := Entry(gameName, points);
    assert line[|gameName| + 3..] == IntToString(points);
    IntToStringRoundTrip(points);
  }

  /** Reads a sequence of history lines; `None` if any line is malformed. */
  function ParseLines(lines: seq<string>): (r: Option<seq<Award>>)
    ensures r.Some? ==> |r.value| == |lines|
  {
    if lines == [] then Some([])
    else
      match (ParseLines(lines[..|lines| - 1]), ParseEntry(lines[|lines| - 1]))
      case (Some(init), Some(a)) => Some(init + [a])
      case _ => None
  }

  /** Reads a whole `points_history` column back into its awards. */
  function ParseHistory(history: string): Option<seq<Award>> {
    if history == "" then Some([]) else ParseLines(SplitLines(history))
  }

  /** No game name spans several lines. */
  predicate SingleLineNames(awards: seq<Award>) {
    forall i :: 0 <= i < |awards| ==> '\n' !in awards[i].gameName
  }

  /** A history line holds exactly the newlines of its game name. */
  lemma EntryNewlines(gameName: string, points: int)
    ensures multiset(Entry(gameName, points))['\n'] == multiset(gameName)['\n']
  {
    var digits := IntToString(points);
    var tail := " +" + digits;
    assert '\n' !in tail by {
      forall k | 0 <= k < |tail| ensures tail[k] != '\n' {
        if k >= 2 {
          assert tail[k] == digits[k - 2];
        }
      }
    }
    assert multiset(tail)['\n'] == 0;
    assert Entry(gameName, points) == gameName + [':'] + tail;
    assert multiset(gameName + [':'] + tail) == multiset(gameName) + multiset{':'} + multiset(tail);
  }

  lemma EntrySingleLine(gameName: string, points: int)
    requires '\n' !in gameName
    ensures '\n' !in Entry(gameName, points)
  {
    EntryNewlines(gameName, points);
  }

  /** When no game name holds a newline, the history text determines the awards exactly. */
  lemma {:induction false} HistoryRoundTrip(awards: seq<Award>)
    requires SingleLineNames(awards)
    ensures ParseHistory(RenderHistory(awards)) == Some(awards)
  {
    if awards != [] {
      var init, a := awards[..|awards| - 1], awards[|awards| - 1];
      assert awards == init + [a];
      assert SingleLineNames(init) by {
        forall i | 0 <= i < |init| ensures '\n' !in init[i].gameName {
          assert init[i] == awards[i];
        }
      }
      var line := Entry(a.gameName, a.points);
      EntrySingleLine(a.gameName, a.points);
      EntryRoundTrip(a.gameName, a.points);
      var h := RenderHistory(init);
      RenderHistoryEmpty(init);
      if init == [] {
        SplitLinesSingle(line);
        assert ParseLines([line]) == Some([a]) by {
          assert [line][..0] == [];
        }
      } else {
        HistoryRoundTrip(init);
        SplitLinesAppend(h, line);
        var lines := SplitLines(h) + [line];
        assert lines[..|lines| - 1] == SplitLines(h);
      }
    }
  }

  /** The total a history records: the sum of its awards' points, `None` if it cannot be read. */
  function ReconciledTotal(history: string): Option<int> {
    match ParseHistory(history)
    case Some(awards) => Some(TotalPoints(awards))
    case None => None
  }

  /** Recomputing a total from the history agrees with the running total. */
  lemma Reconcile(awards: seq<Award>)
    requires SingleLineNames(awards)
    ensures ReconciledTotal(RenderHistory(awards)) == Some(TotalPoints(awards))
  {
    HistoryRoundTrip(awards);
  }

  /** A text splits into one more line than it has newlines. */
  lemma {:induction false} SplitLinesCount(s: string)
    ensures |SplitLines(s)| == multiset(s)['\n'] + 1
    decreases |s|
  {
    var k := LastIndex(s, '\n');
    if k < 0 {
      assert '\n' !in s;
    } else {
      SplitLinesCount(s[..k]);
      var tail := s[k + 1..];
      assert '\n' !in tail by {
        forall j | 0 <= j < |tail| ensures tail[j] != '\n' {
          assert tail[j] == s[k + 1 + j];
        }
      }
      assert s == s[..k] + [s[k]] + tail;
    }
  }

  lemma NewlinesAcross(h: string, line: string)
    ensures multiset(h + "\n" + line)['\n'] == multiset(h)['\n'] + 1 + multiset(line)['\n']
  {
    assert multiset(h + "\n" + line) == multiset(h) + multiset{'\n'} + multiset(line);
  }

  /** A history holds a newline between consecutive awards, plus every newline of a game name. */
  lemma {:induction false} RenderHistoryNewlines(awards: seq<Award>, i: nat)
    requires i < |awards|
    ensures multiset(RenderHistory(awards))['\n'] >= |awards| - 1 + multiset(awards[i].gameName)['\n']
  {
    var last := |awards| - 1;
    var init, a := awards[..last], awards[last];
    var line := Entry(a.gameName, a.points);
    EntryNewlines(a.gameName, a.points);
    if init == [] {
      assert RenderHistory(awards) == line && i == last;
    } else {
      RenderHistoryEmpty(init);
      var h := RenderHistory(init);
      assert RenderHistory(awards) == h + "\n" + line;
      NewlinesAcross(h, line);
      var j: nat := if i == last then 0 else i;
      RenderHistoryNewlines(init, j);
      assert i < last ==> init[i] == awards[i];
    }
  }

  /**
   * The history text is lossy: once a game name holds a newline, the text has
   * more lines than there were awards, so it never reads back as those awards.
   */
  lemma MultiLineNameIsLost(awards: seq<Award>)
    requires exists i :: 0 <= i < |awards| && '\n' in awards[i].gameName
    ensures ParseHistory(RenderHistory(awards)) != Some(awards)
  {
    var i :| 0 <= i < |awards| && '\n' in awards[i].gameName;
    RenderHistoryNewlines(awards, i);
    RenderHistoryEmpty(awards);
    SplitLinesCount(RenderHistory(awards));
  }

  /** Python's f-string puts its literal '+' before the '-' of a negative award. */
  lemma NegativeAwardRendering()
    ensures Entry("Quiz", -3) == "Quiz: +-3"
  {
  }
}
