/** The progress recorder: one row per (child, level) holding the best score
    recorded and whether the level was completed, plus the queries built on it
    (is a level completed, which level comes next, summary statistics).

    Rows name the child by its unique name and the level by its unique number;
    the database links them by id, which is the same thing while names and
    numbers are unique.
 */
module Progress {
  import opened Outcome
  import opened Users
  import Levels

  datatype ProgressRow = ProgressRow(userName: string, levelNumber: int, score: int, complete: bool)

  type ProgressTable = seq<ProgressRow>

  predicate IsRowOf(row: ProgressRow, userName: string, levelNumber: int) {
    row.userName == userName && row.levelNumber == levelNumber
  }

  predicate HasRow(rows: ProgressTable, userName: string, levelNumber: int) {
    exists i :: 0 <= i < |rows| && IsRowOf(rows[i], userName, levelNumber)
  }

  /** Position of the first row of this child on this level. */
  function IndexOfRow(rows: ProgressTable, userName: string, levelNumber: int): (r: Option<nat>)
    ensures r.None? <==> !HasRow(rows, userName, levelNumber)
    ensures r.Some? ==> r.value < |rows| && IsRowOf(rows[r.value], userName, levelNumber)
  {
    if rows == [] then None
    else if IsRowOf(rows[0], userName, levelNumber) then Some(0)
    else
      match IndexOfRow(rows[1..], userName, levelNumber)
      case None =>
        assert forall i :: 1 <= i < |rows| ==> rows[i] == rows[1..][i - 1];
        None
      case Some(k) => Some(k + 1)
  }

  /** No child has two rows for the same level. */
  predicate UniqueRows(rows: ProgressTable) {
    forall i, j :: 0 <= i < j < |rows| ==> !IsRowOf(rows[j], rows[i].userName, rows[i].levelNumber)
  }

  // ---------------------------------------------------------------- saveProgress

  /** The stored row after a save: a new result replaces the old one, score and
      completion together, when it scores higher or completes the level. */
  function Merge(stored: ProgressRow, score: int, isComplete: bool): ProgressRow {
    if score > stored.score || isComplete then stored.(score := score, complete := isComplete) else stored
  }

  /** `saveProgress`: upserts the row of child `userName` on level `levelNumber`. */
  function SaveProgress(users: UserTable, levels: seq<Levels.Level>, rows: ProgressTable,
                        userName: string, levelNumber: int, score: int, isComplete: bool)
    : (r: Result<(ProgressTable, ProgressRow)>)
    ensures userName !in users ==> r == Err(ChildNotFound)
    ensures userName in users && !Levels.HasNumber(levels, levelNumber) ==> r == Err(LevelNotFound)
    ensures r.Ok? <==> userName in users && Levels.HasNumber(levels, levelNumber)
    ensures r.Ok? && !HasRow(rows, userName, levelNumber) ==>
      var row := ProgressRow(userName, levelNumber, score, isComplete);
      r.value == (rows + [row], row)
    ensures r.Ok? && HasRow(rows, userName, levelNumber) ==>
      var i := IndexOfRow(rows, userName, levelNumber).value;
      r.value == (rows[i := Merge(rows[i], score, isComplete)], Merge(rows[i], score, isComplete))
  {
    if userName !in users then Err(ChildNotFound)
    else if Levels.IndexOfNumber(levels, levelNumber).None? then Err(LevelNotFound)
    else
      match IndexOfRow(rows, userName, levelNumber)
      case Some(i) =>
        var row := Merge(rows[i], score, isComplete);
        Ok((rows[i := row], row))
      case None =>
        var row := ProgressRow(userName, levelNumber, score, isComplete);
        Ok((rows + [row], row))
  }

  /** What a save leaves stored for that child and level: an incomplete result
      keeps the better of the two scores, and a completing result is taken as
      it is. */
  lemma SaveProgressStores(users: UserTable, levels: seq<Levels.Level>, rows: ProgressTable,
                           userName: string, levelNumber: int, score: int, isComplete: bool)
    requires SaveProgress(users, levels, rows, userName, levelNumber, score, isComplete).Ok?
    ensures var row := SaveProgress(users, levels, rows, userName, levelNumber, score, isComplete).value.1;
      && IsRowOf(row, userName, levelNumber)
      && (isComplete ==> row.score == score && row.complete)
      && (!isComplete && HasRow(rows, userName, levelNumber) ==>
            var stored := rows[IndexOfRow(rows, userName, levelNumber).value];
            row.score == (if score > stored.score then score else stored.score)
            && row.score >= stored.score
            && (row.complete ==> stored.complete))
      && (!HasRow(rows, userName, levelNumber) ==> row.score == score && row.complete == isComplete)
  {
  }

  /** Saving never creates a second row for the same child and level, and
      leaves every other row as it was. */
  lemma SaveProgressKeepsUnique(users: UserTable, levels: seq<Levels.Level>, rows: ProgressTable,
                                userName: string, levelNumber: int, score: int, isComplete: bool)
    requires UniqueRows(rows)
    ensures var r := SaveProgress(users, levels, rows, userName, levelNumber, score, isComplete);
      r.Ok? ==>
        && UniqueRows(r.value.0)
        && (forall i :: 0 <= i < |rows| && !IsRowOf(rows[i], userName, levelNumber) ==> r.value.0[i] == rows[i])
        && r.value.1 in r.value.0
  {
    var r := SaveProgress(users, levels, rows, userName, levelNumber, score, isComplete);
    if r.Ok? {
      if HasRow(rows, userName, levelNumber) {
        var i := IndexOfRow(rows, userName, levelNumber).value;
        assert r.value.0[i] == r.value.1;
      } else {
        assert r.value.0[|rows|] == r.value.1;
      }
    }
  }

  /** A stored 80-point incomplete result survives a 60-point incomplete one. */
  lemma NeverLowersExample(users: UserTable, levels: seq<Levels.Level>)
    requires "ana" in users && Levels.HasNumber(levels, 2)
    ensures SaveProgress(users, levels, [ProgressRow("ana", 2, 80, false)], "ana", 2, 60, false)
         == Ok(([ProgressRow("ana", 2, 80, false)], ProgressRow("ana", 2, 80, false)))
  {
    var rows := [ProgressRow("ana", 2, 80, false)];
    assert IsRowOf(rows[0], "ana", 2);
    assert IndexOfRow(rows, "ana", 2) == Some(0);
    assert Merge(rows[0], 60, false) == rows[0];
    assert rows[0 := rows[0]] == rows;
  }

  /** A higher score without completion replaces a completed row, so the
      completion flag is lost (the game itself never does this; see
      `Game.FinishNeverClearsCompletion`). */
  lemma HigherIncompleteScoreClearsCompletion(users: UserTable, levels: seq<Levels.Level>)
    requires "ana" in users && Levels.HasNumber(levels, 2)
    ensures var r := SaveProgress(users, levels, [ProgressRow("ana", 2, 100, true)], "ana", 2, 120, false);
      r.Ok? && !IsLevelCompleted(r.value.0, "ana", 2)
  {
    var rows := [ProgressRow("ana", 2, 100, true)];
    assert IsRowOf(rows[0], "ana", 2);
    var rows' := SaveProgress(users, levels, rows, "ana", 2, 120, false).value.0;
    assert rows' == [ProgressRow("ana", 2, 120, false)];
  }

  // ---------------------------------------------------------------- queries

  /** `isLevelCompleted`: some row of that child on that level is complete. */
  predicate IsLevelCompleted(rows: ProgressTable, userName: string, levelNumber: int) {
    exists i :: 0 <= i < |rows| && IsRowOf(rows[i], userName, levelNumber) && rows[i].complete
  }

  /** A completing save makes the level completed; an incomplete save changes
      the answer only by replacing a completed row with a better score. */
  lemma SaveProgressCompletes(users: UserTable, levels: seq<Levels.Level>, rows: ProgressTable,
                              userName: string, levelNumber: int, score: int, isComplete: bool)
    requires UniqueRows(rows)
    requires SaveProgress(users, levels, rows, userName, levelNumber, score, isComplete).Ok?
    ensures var rows' := SaveProgress(users, levels, rows, userName, levelNumber, score, isComplete).value.0;
      && (isComplete ==> IsLevelCompleted(rows', userName, levelNumber))
      && (IsLevelCompleted(rows, userName, levelNumber) && !IsLevelCompleted(rows', userName, levelNumber) ==>
            !isComplete && score > rows[IndexOfRow(rows, userName, levelNumber).value].score)
  {
    var rows' := SaveProgress(users, levels, rows, userName, levelNumber, score, isComplete).value.0;
    if HasRow(rows, userName, levelNumber) {
      var i := IndexOfRow(rows, userName, levelNumber).value;
      assert IsRowOf(rows'[i], userName, levelNumber);
    } else {
      assert IsRowOf(rows'[|rows|], userName, levelNumber);
    }
  }

  predicate IsCompletedRowOf(row: ProgressRow, userName: string) {
    row.userName == userName && row.complete
  }

  predicate HasCompleted(rows: ProgressTable, userName: string) {
    exists i :: 0 <= i < |rows| && IsCompletedRowOf(rows[i], userName)
  }

  /** The highest level number among the child's completed rows, if any. */
  function HighestCompleted(rows: ProgressTable, userName: string): (r: Option<int>)
    ensures r.None? <==> !HasCompleted(rows, userName)
    ensures r.Some? ==> exists i :: 0 <= i < |rows| && IsCompletedRowOf(rows[i], userName)
                                  && rows[i].levelNumber == r.value
    ensures r.Some? ==> forall i :: 0 <= i < |rows| && IsCompletedRowOf(rows[i], userName) ==>
                                  rows[i].levelNumber <= r.value
  {
    if rows == [] then None
    else
      var rest := HighestCompleted(rows[1..], userName);
      assert forall i :: 1 <= i < |rows| ==> rows[i] == rows[1..][i - 1];
      if !IsCompletedRowOf(rows[0], userName) then rest
      else if rest.Some? && rest.value > rows[0].levelNumber then rest
      else Some(rows[0].levelNumber)
  }

  /** The level number `getNextLevel` asks for: 1 for a child with nothing
      completed, otherwise one past the highest completed level. */
  function NextLevelNumber(rows: ProgressTable, userName: string): (n: int)
    ensures !HasCompleted(rows, userName) ==> n == 1
    ensures HasCompleted(rows, userName) ==>
      exists i :: 0 <= i < |rows| && IsCompletedRowOf(rows[i], userName) && n == rows[i].levelNumber + 1
    ensures forall i :: 0 <= i < |rows| && IsCompletedRowOf(rows[i], userName) ==> rows[i].levelNumber < n
  {
    match HighestCompleted(rows, userName)
    case None => 1
    case Some(m) => m + 1
  }

  /** `getNextLevel`: the level after the highest completed one, or nothing
      when no such level exists. */
  function NextLevel(levels: seq<Levels.Level>, rows: ProgressTable, userName: string): (r: Option<Levels.Level>)
    ensures !HasCompleted(rows, userName) ==> r == Levels.FindByNumber(levels, 1)
    ensures r.None? <==> !Levels.HasNumber(levels, NextLevelNumber(rows, userName))
    ensures r.Some? ==> r.value in levels && r.value.levelNumber == NextLevelNumber(rows, userName)
    ensures HasCompleted(rows, userName) && r.Some? ==>
      exists i :: 0 <= i < |rows| && IsCompletedRowOf(rows[i], userName)
                  && r.value.levelNumber == rows[i].levelNumber + 1
    ensures r.Some? ==> !IsLevelCompleted(rows, userName, r.value.levelNumber)
    ensures r.Some? ==> forall i :: 0 <= i < |rows| && IsCompletedRowOf(rows[i], userName) ==>
                                  rows[i].levelNumber < r.value.levelNumber
  {
    Levels.FindByNumber(levels, NextLevelNumber(rows, userName))
  }

  /** Completing a level at least as high as every level completed before
      makes the following level the next one. */
  lemma NextLevelAfterCompleting(users: UserTable, levels: seq<Levels.Level>, rows: ProgressTable,
                                 userName: string, levelNumber: int, score: int)
    requires UniqueRows(rows)
    requires forall i :: 0 <= i < |rows| && IsCompletedRowOf(rows[i], userName) ==> rows[i].levelNumber <= levelNumber
    requires SaveProgress(users, levels, rows, userName, levelNumber, score, true).Ok?
    ensures var rows' := SaveProgress(users, levels, rows, userName, levelNumber, score, true).value.0;
      NextLevelNumber(rows', userName) == levelNumber + 1
  {
    var rows' := SaveProgress(users, levels, rows, userName, levelNumber, score, true).value.0;
    SaveProgressCompletes(users, levels, rows, userName, levelNumber, score, true);
    assert forall i :: 0 <= i < |rows'| && IsCompletedRowOf(rows'[i], userName) ==>
      rows'[i].levelNumber <= levelNumber by {
      forall i | 0 <= i < |rows'| && IsCompletedRowOf(rows'[i], userName)
        ensures rows'[i].levelNumber <= levelNumber {
        if i < |rows| && !IsRowOf(rows[i], userName, levelNumber) {
          SaveProgressKeepsUnique(users, levels, rows, userName, levelNumber, score, true);
        }
      }
    }
    var k :| 0 <= k < |rows'| && IsRowOf(rows'[k], userName, levelNumber) && rows'[k].complete;
    assert IsCompletedRowOf(rows'[k], userName);
  }

  /** Under `UniqueRows` two rows for the same child and level are one row. */
  lemma SameKeySameRow(rows: ProgressTable, i: nat, j: nat)
    requires UniqueRows(rows) && i < |rows| && j < |rows|
    requires IsRowOf(rows[j], rows[i].userName, rows[i].levelNumber)
    ensures i == j
  {
    if i < j {
      assert false;
    } else if j < i {
      assert IsRowOf(rows[i], rows[j].userName, rows[j].levelNumber);
      assert false;
    }
  }

  /** With one row per child and level, `isLevelCompleted` reads the
      complete flag of that one row, and is false when there is none. */
  lemma IsLevelCompletedReadsRow(rows: ProgressTable, userName: string, levelNumber: int)
    requires UniqueRows(rows)
    ensures IsLevelCompleted(rows, userName, levelNumber) <==>
      HasRow(rows, userName, levelNumber) && rows[IndexOfRow(rows, userName, levelNumber).value].complete
  {
    if IsLevelCompleted(rows, userName, levelNumber) {
      var j :| 0 <= j < |rows| && IsRowOf(rows[j], userName, levelNumber) && rows[j].complete;
      var i := IndexOfRow(rows, userName, levelNumber).value;
      SameKeySameRow(rows, i, j);
    }
  }

  // ---------------------------------------------------------------- statistics

  /** `completedLevels` of `getChildStats`: how many of the child's rows are complete. */
  function CompletedCount(rows: ProgressTable, userName: string): (n: nat)
    ensures n <= |rows|
  {
    if rows == [] then 0
    else (if IsCompletedRowOf(rows[0], userName) then 1 else 0) + CompletedCount(rows[1..], userName)
  }

  /** `totalScore` of `getChildStats`: the sum of the scores of the child's rows. */
  function ScoreSum(rows: ProgressTable, userName: string): (total: int)
    ensures (forall i :: 0 <= i < |rows| && rows[i].userName == userName ==> rows[i].score >= 0) ==> total >= 0
    ensures (forall i :: 0 <= i < |rows| ==> rows[i].userName != userName) ==> total == 0
  {
    if rows == [] then 0
    else (if rows[0].userName == userName then rows[0].score else 0) + ScoreSum(rows[1..], userName)
  }

  /** The levels the child has completed. */
  function CompletedLevelSet(rows: ProgressTable, userName: string): set<int> {
    set i | 0 <= i < |rows| && IsCompletedRowOf(rows[i], userName) :: rows[i].levelNumber
  }

  lemma CompletedLevelSetCons(rows: ProgressTable, userName: string)
    requires rows != []
    ensures CompletedLevelSet(rows, userName)
         == CompletedLevelSet(rows[1..], userName)
          + (if IsCompletedRowOf(rows[0], userName) then {rows[0].levelNumber} else {})
  {
    var s, t := CompletedLevelSet(rows, userName), CompletedLevelSet(rows[1..], userName);
    var h: set<int> := if IsCompletedRowOf(rows[0], userName) then {rows[0].levelNumber} else {};
    forall x | x in s ensures x in t + h {
      var i :| 0 <= i < |rows| && IsCompletedRowOf(rows[i], userName) && rows[i].levelNumber == x;
      if i > 0 { assert rows[1..][i - 1] == rows[i]; }
    }
    forall x | x in t ensures x in s {
      var i :| 0 <= i < |rows[1..]| && IsCompletedRowOf(rows[1..][i], userName) && rows[1..][i].levelNumber == x;
      assert rows[i + 1] == rows[1..][i];
    }
  }

  lemma TailUnique(rows: ProgressTable)
    requires rows != [] && UniqueRows(rows)
    ensures UniqueRows(rows[1..])
    ensures forall i :: 1 <= i < |rows| ==> !IsRowOf(rows[i], rows[0].userName, rows[0].levelNumber)
  {
    var tail := rows[1..];
    forall i, j | 0 <= i < j < |tail|
      ensures !IsRowOf(tail[j], tail[i].userName, tail[i].levelNumber) {
      assert tail[i] == rows[i + 1] && tail[j] == rows[j + 1];
    }
  }

  /** With one row per child and level, the completed count is the number of
      distinct levels completed. */
  lemma {:induction false} CompletedCountCountsLevels(rows: ProgressTable, userName: string)
    requires UniqueRows(rows)
    ensures CompletedCount(rows, userName) == |CompletedLevelSet(rows, userName)|
  {
    if rows != [] {
      var tail := rows[1..];
      TailUnique(rows);
      CompletedCountCountsLevels(tail, userName);
      CompletedLevelSetCons(rows, userName);
      var t := CompletedLevelSet(tail, userName);
      if IsCompletedRowOf(rows[0], userName) {
        forall i | 0 <= i < |tail| && IsCompletedRowOf(tail[i], userName)
          ensures tail[i].levelNumber != rows[0].levelNumber {
          assert rows[i + 1] == tail[i];
        }
        assert rows[0].levelNumber !in t;
      }
    }
  }

  lemma {:induction false} CountsOfAppend(rows: ProgressTable, row: ProgressRow, userName: string)
    ensures CompletedCount(rows + [row], userName)
         == CompletedCount(rows, userName) + (if IsCompletedRowOf(row, userName) then 1 else 0)
    ensures ScoreSum(rows + [row], userName)
         == ScoreSum(rows, userName) + (if row.userName == userName then row.score else 0)
  {
    if rows != [] {
      assert (rows + [row])[1..] == rows[1..] + [row];
      CountsOfAppend(rows[1..], row, userName);
    }
  }

  /** A child's first result on a level adds its score to the total and, when
      complete, one to the completed count. */
  lemma FirstSaveCounts(users: UserTable, levels: seq<Levels.Level>, rows: ProgressTable,
                        userName: string, levelNumber: int, score: int, isComplete: bool)
    requires !HasRow(rows, userName, levelNumber)
    requires SaveProgress(users, levels, rows, userName, levelNumber, score, isComplete).Ok?
    ensures var rows' := SaveProgress(users, levels, rows, userName, levelNumber, score, isComplete).value.0;
      && CompletedCount(rows', userName) == CompletedCount(rows, userName) + (if isComplete then 1 else 0)
      && ScoreSum(rows', userName) == ScoreSum(rows, userName) + score
  {
    CountsOfAppend(rows, ProgressRow(userName, levelNumber, score, isComplete), userName);
  }

  datatype Stats = Stats(childName: string, totalLevels: nat, completedLevels: nat, totalScore: int)

  /** The counting part of `getChildStats`. */
  function ChildStats(users: UserTable, levels: seq<Levels.Level>, rows: ProgressTable, userName: string)
    : (r: Result<Stats>)
    ensures r.Err? <==> userName !in users
    ensures r.Err? ==> r.error == ChildNotFound
    ensures r.Ok? ==> r.value.totalLevels == |levels| && r.value.childName == userName
    ensures r.Ok? ==> r.value.completedLevels <= |rows|
    ensures r.Ok? ==> (r.value.completedLevels == CompletedCount(rows, userName)
                    && r.value.totalScore == ScoreSum(rows, userName))
  {
    if userName !in users then Err(ChildNotFound)
    else Ok(Stats(userName, |levels|, CompletedCount(rows, userName), ScoreSum(rows, userName)))
  }
}
