/** Game sessions: a child plays a level of five words, answers each word as
    many times as it likes until it is right, and finishes the session for a
    score, progress on the level and cosmetic points.
 */
module Game {
  import opened Outcome
  import opened Text
  import opened Users
  import Levels
  import Progress
  import Classifier
  import Pedagogy

  /** A level must hold exactly this many words to be played. */
  const WordsPerLevel := 5

  /** Correct words a session needs to pass its level. */
  const PassMark := 3

  /** One word of a session, as kept in the session's `wordsAttempted`. */
  datatype WordAttempt = WordAttempt(wordId: nat, wordText: string, userAnswer: string, isCorrect: bool, attempts: nat)

  datatype Session = Session(userName: string, levelNumber: int, words: seq<WordAttempt>, finalScore: int, isCompleted: bool)

  /** The tables the game reads and writes. Sessions are keyed by their id;
      `nextSessionId` is the id the database hands out next. */
  datatype GameDb = GameDb(
    users: UserTable,
    levels: seq<Levels.Level>,
    progress: Progress.ProgressTable,
    sessions: map<nat, Session>,
    nextSessionId: nat)

  // ---------------------------------------------------------------- invariant

  /** What every word of a running or finished session satisfies: a word is
      only marked correct by an answer, so it has at least one attempt. */
  predicate WordOk(w: WordAttempt) {
    w.isCorrect ==> w.attempts >= 1
  }

  /** What every stored session satisfies: it belongs to an existing child
      and level, has five words, and carries a score only once finished. */
  predicate SessionOk(db: GameDb, s: Session) {
    && s.userName in db.users
    && Levels.HasNumber(db.levels, s.levelNumber)
    && |s.words| == WordsPerLevel
    && (forall k :: 0 <= k < |s.words| ==> WordOk(s.words[k]))
    && (if s.isCompleted then s.finalScore == Score(s.words) else s.finalScore == 0)
  }

  predicate Valid(db: GameDb) {
    && (forall id :: id in db.sessions ==> id < db.nextSessionId)
    && (forall id :: id in db.sessions ==> SessionOk(db, db.sessions[id]))
  }

  // ---------------------------------------------------------------- startGame

  /** A word as the level lists it, as `startGame` returns it. */
  datatype WordView = WordView(id: nat, text: string)

  datatype StartResponse = StartResponse(
    sessionId: nat,
    levelNumber: int,
    description: string,
    therapeuticFocus: string,
    instruction: string,
    words: seq<WordView>,
    totalWords: nat)

  /** The untouched attempt record of each word of the level. */
  function FreshAttempts(ws: seq<Levels.Word>): (r: seq<WordAttempt>)
    ensures |r| == |ws|
    ensures forall k :: 0 <= k < |ws| ==>
      r[k] == WordAttempt(ws[k].id, ws[k].text, "", false, 0)
  {
    if ws == [] then [] else [WordAttempt(ws[0].id, ws[0].text, "", false, 0)] + FreshAttempts(ws[1..])
  }

  function WordViews(ws: seq<Levels.Word>): (r: seq<WordView>)
    ensures |r| == |ws|
    ensures forall k :: 0 <= k < |ws| ==> r[k] == WordView(ws[k].id, ws[k].text)
  {
    if ws == [] then [] else [WordView(ws[0].id, ws[0].text)] + WordViews(ws[1..])
  }

  /** `startGame`: opens a session for a child on a level of exactly five
      words. */
  function StartGame(db: GameDb, userName: string, levelNumber: int): (r: Result<(GameDb, StartResponse)>)
    ensures userName !in db.users ==> r == Err(ChildNotFound)
    ensures userName in db.users && !Levels.HasNumber(db.levels, levelNumber) ==> r == Err(LevelNotFound)
    ensures r.Err? && r.error.LevelNeedsFiveWords? ==> r.error.levelNumber == levelNumber
    ensures userName in db.users && Levels.HasNumber(db.levels, levelNumber)
            && |Levels.FindByNumber(db.levels, levelNumber).value.words| != WordsPerLevel
            ==> r == Err(LevelNeedsFiveWords(levelNumber))
    ensures r.Ok? <==>
      && userName in db.users
      && Levels.HasNumber(db.levels, levelNumber)
      && |Levels.FindByNumber(db.levels, levelNumber).value.words| == WordsPerLevel
    ensures r.Ok? ==>
      var (db', resp) := r.value;
      var level := Levels.FindByNumber(db.levels, levelNumber).value;
      && resp.sessionId == db.nextSessionId
      && db'.sessions == db.sessions[db.nextSessionId := Session(userName, levelNumber, FreshAttempts(level.words), 0, false)]
      && db'.nextSessionId == db.nextSessionId + 1
      && db'.users == db.users && db'.levels == db.levels && db'.progress == db.progress
      && resp.levelNumber == levelNumber && resp.description == level.description
      && resp.therapeuticFocus == Pedagogy.FocusCode(Pedagogy.FocusOf(levelNumber))
      && resp.instruction == Pedagogy.Instruction(levelNumber)
      && resp.words == WordViews(level.words) && resp.totalWords == WordsPerLevel
  {
    if userName !in db.users then Err(ChildNotFound)
    else
      match Levels.FindByNumber(db.levels, levelNumber)
      case None => Err(LevelNotFound)
      case Some(level) =>
        if |level.words| != WordsPerLevel then Err(LevelNeedsFiveWords(levelNumber))
        else
          var id := db.nextSessionId;
          var session := Session(userName, levelNumber, FreshAttempts(level.words), 0, false);
          var db' := db.(sessions := db.sessions[id := session], nextSessionId := id + 1);
          Ok((db', StartResponse(id, levelNumber, level.description,
                                 Pedagogy.FocusCode(Pedagogy.FocusOf(levelNumber)),
                                 Pedagogy.Instruction(levelNumber),
                                 WordViews(level.words), |level.words|)))
  }

  /** Starting a game keeps the database valid; the new session has a fresh
      id, none of its words is answered, and every other session is kept. */
  lemma StartGameKeepsValid(db: GameDb, userName: string, levelNumber: int)
    requires Valid(db)
    ensures var r := StartGame(db, userName, levelNumber);
      r.Ok? ==>
        var (db', resp) := r.value;
        && Valid(db')
        && resp.sessionId !in db.sessions
        && (forall id :: id in db.sessions ==> id in db'.sessions && db'.sessions[id] == db.sessions[id])
        && (forall k :: 0 <= k < WordsPerLevel ==>
              !db'.sessions[resp.sessionId].words[k].isCorrect && db'.sessions[resp.sessionId].words[k].attempts == 0)
  {
    var r := StartGame(db, userName, levelNumber);
    if r.Ok? {
      var (db', resp) := r.value;
      var s := db'.sessions[resp.sessionId];
      assert CorrectCount(s.words) == 0 by { NoneCorrect(s.words); }
      assert Score(s.words) == 0 by { ScoreBounds(s.words); }
      forall id | id in db'.sessions ensures SessionOk(db', db'.sessions[id]) {
        if id != resp.sessionId {
          assert SessionOk(db, db.sessions[id]);
        }
      }
    }
  }

  // ---------------------------------------------------------------- score

  /** Points for one word: 20 when correct, plus 10 when right at the first
      attempt or 5 at the second. */
  function WordScore(w: WordAttempt): int {
    if !w.isCorrect then 0
    else 20 + (if w.attempts == 1 then 10 else if w.attempts == 2 then 5 else 0)
  }

  function CorrectCount(words: seq<WordAttempt>): (n: nat)
    ensures n <= |words|
  {
    if words == [] then 0 else (if words[0].isCorrect then 1 else 0) + CorrectCount(words[1..])
  }

  function WordScores(words: seq<WordAttempt>): int {
    if words == [] then 0 else WordScore(words[0]) + WordScores(words[1..])
  }

  /** The session score: the words' points plus 50 when all five are right. */
  function Score(words: seq<WordAttempt>): (r: int)
    ensures CorrectCount(words) < WordsPerLevel ==> 20 * CorrectCount(words) <= r <= 30 * CorrectCount(words)
    ensures CorrectCount(words) == WordsPerLevel ==> 150 <= r <= 200
  {
    WordScoresBetween(words);
    WordScores(words) + (if CorrectCount(words) == WordsPerLevel then 50 else 0)
  }

  /** Each correct word is worth 20 to 30 points, and wrong words nothing. */
  lemma {:induction false} WordScoresBetween(words: seq<WordAttempt>)
    ensures 20 * CorrectCount(words) <= WordScores(words) <= 30 * CorrectCount(words)
  {
    if words != [] {
      WordScoresBetween(words[1..]);
    }
  }

  lemma {:induction false} NoneCorrect(words: seq<WordAttempt>)
    requires forall k :: 0 <= k < |words| ==> !words[k].isCorrect
    ensures CorrectCount(words) == 0
  {
    if words != [] {
      assert forall k :: 0 <= k < |words[1..]| ==> words[1..][k] == words[k + 1];
      NoneCorrect(words[1..]);
    }
  }

  /** Score bounds for a five-word session: nothing without a correct word,
      at most 200, at least 150 when every word is right and at most 120
      otherwise. */
  lemma ScoreBounds(words: seq<WordAttempt>)
    requires |words| == WordsPerLevel
    ensures CorrectCount(words) == 0 ==> Score(words) == 0
    ensures 0 <= Score(words) <= 200
    ensures CorrectCount(words) == WordsPerLevel ==> Score(words) >= 150
    ensures CorrectCount(words) < WordsPerLevel ==> Score(words) <= 30 * CorrectCount(words) <= 120
  {
    WordScoresBetween(words);
  }

  /** `finishGame`'s `forEach`, as a loop. */
  method ComputeScore(words: seq<WordAttempt>) returns (total: int, correct: nat)
    ensures correct == CorrectCount(words)
    ensures total == Score(words)
  {
    total, correct := 0, 0;
    var k := 0;
    while k < |words|
      invariant 0 <= k <= |words|
      invariant correct + CorrectCount(words[k..]) == CorrectCount(words)
      invariant total + WordScores(words[k..]) == WordScores(words)
    {
      assert words[k..][1..] == words[k + 1..];
      if words[k].isCorrect {
        correct := correct + 1;
        var wordScore := 20;
        if words[k].attempts == 1 {
          wordScore := wordScore + 10;
        } else if words[k].attempts == 2 {
          wordScore := wordScore + 5;
        }
        total := total + wordScore;
      }
      k := k + 1;
    }
    if correct == WordsPerLevel {
      total := total + 50;
    }
  }

  /** Every word right at the first attempt scores 200; four right words
      taking one, two, three and three attempts score 95. */
  lemma ScoreExamples()
    ensures var w := WordAttempt(0, "", "", true, 1);
      Score([w, w, w, w, w]) == 200
    ensures Score([WordAttempt(0, "", "", true, 1), WordAttempt(0, "", "", true, 2),
                   WordAttempt(0, "", "", true, 3), WordAttempt(0, "", "", true, 3),
                   WordAttempt(0, "", "", false, 4)]) == 95
  {
  }

  // ---------------------------------------------------------------- checkAnswer

  predicate HasWord(words: seq<WordAttempt>, wordId: nat) {
    exists k :: 0 <= k < |words| && words[k].wordId == wordId
  }

  /** `findIndex` on the word id. */
  function IndexOfWord(words: seq<WordAttempt>, wordId: nat): (r: Option<nat>)
    ensures r.None? <==> !HasWord(words, wordId)
    ensures r.Some? ==> r.value < |words| && words[r.value].wordId == wordId
    ensures r.Some? ==> forall k :: 0 <= k < r.value ==> words[k].wordId != wordId
  {
    if words == [] then None
    else if words[0].wordId == wordId then Some(0)
    else
      match IndexOfWord(words[1..], wordId)
      case None =>
        assert forall k :: 1 <= k < |words| ==> words[k] == words[1..][k - 1];
        None
      case Some(k) => Some(k + 1)
  }

  /** An answer as it is compared: trimmed and lower-cased. */
  function Clean(answer: string): string {
    Lower(Trim(answer))
  }

  /** The attempt record after one more answer. */
  function Answer(w: WordAttempt, answer: string): (r: WordAttempt)
    ensures r.wordId == w.wordId && r.wordText == w.wordText
    ensures r.attempts == w.attempts + 1
    ensures r.userAnswer == Clean(answer)
    ensures r.isCorrect <==> Clean(answer) == Lower(w.wordText)
  {
    w.(attempts := w.attempts + 1, userAnswer := Clean(answer), isCorrect := Clean(answer) == Lower(w.wordText))
  }

  datatype CheckResponse =
    /** The word was already right; nothing is recorded. */
    | AlreadyCorrect(correctWord: string, attempts: nat)
    | Answered(
        isCorrect: bool,
        correctWord: string,
        attempts: nat,
        userAnswer: string,
        message: string,
        errorType: string,
        levelFocus: string,
        hint: Option<string>)

  /** The congratulation for a right answer on a level. */
  function Congratulation(levelNumber: int): string {
    "¡Excelente! Completaste una palabra del nivel " + IntToString(levelNumber) + "."
  }

  /** The response to an answer, given the updated attempt record. */
  function Respond(levelNumber: int, w: WordAttempt): (r: CheckResponse)
    ensures r.Answered? && r.isCorrect == w.isCorrect && r.attempts == w.attempts
    ensures r.correctWord == w.wordText && r.userAnswer == w.userAnswer
    ensures r.levelFocus == Pedagogy.FocusCode(Pedagogy.FocusOf(levelNumber))
    ensures r.hint.None? <==> w.isCorrect
    ensures w.isCorrect ==> r.message == Congratulation(levelNumber) && r.errorType == ""
    ensures !w.isCorrect ==>
      var correct := Lower(w.wordText);
      && r.message == Pedagogy.RemarkText(Pedagogy.LevelFeedback(levelNumber, w.userAnswer, correct))
      && r.errorType == Classifier.Code(Classifier.Classify(w.userAnswer, correct))
      && r.hint == Some(Pedagogy.Hint(levelNumber, correct))
  {
    var correct := Lower(w.wordText);
    if w.isCorrect then
      Answered(true, w.wordText, w.attempts, w.userAnswer, Congratulation(levelNumber), "",
               Pedagogy.FocusCode(Pedagogy.FocusOf(levelNumber)), None)
    else
      Answered(false, w.wordText, w.attempts, w.userAnswer,
               Pedagogy.RemarkText(Pedagogy.LevelFeedback(levelNumber, w.userAnswer, correct)),
               Classifier.Code(Classifier.Classify(w.userAnswer, correct)),
               Pedagogy.FocusCode(Pedagogy.FocusOf(levelNumber)),
               Some(Pedagogy.Hint(levelNumber, correct)))
  }

  /** `checkAnswer`: records one answer to one word of a running session. */
  function CheckAnswer(db: GameDb, sessionId: nat, wordId: nat, answer: string): (r: Result<(GameDb, CheckResponse)>)
    ensures sessionId !in db.sessions ==> r == Err(SessionNotFound)
    ensures sessionId in db.sessions && db.sessions[sessionId].isCompleted ==> r == Err(SessionAlreadyCompleted)
    ensures (sessionId in db.sessions && !db.sessions[sessionId].isCompleted
             && !HasWord(db.sessions[sessionId].words, wordId)) ==> r == Err(WordNotInSession)
    ensures r.Ok? <==>
      sessionId in db.sessions && !db.sessions[sessionId].isCompleted && HasWord(db.sessions[sessionId].words, wordId)
    ensures r.Ok? ==>
      var (db', resp) := r.value;
      var s := db.sessions[sessionId];
      var k := IndexOfWord(s.words, wordId).value;
      && db'.users == db.users && db'.levels == db.levels && db'.progress == db.progress
      && db'.nextSessionId == db.nextSessionId
      && (s.words[k].isCorrect ==>
            db' == db && resp == AlreadyCorrect(s.words[k].wordText, s.words[k].attempts))
      && (!s.words[k].isCorrect ==>
            && db'.sessions == db.sessions[sessionId := s.(words := s.words[k := Answer(s.words[k], answer)])]
            && resp == Respond(s.levelNumber, Answer(s.words[k], answer)))
  {
    if sessionId !in db.sessions then Err(SessionNotFound)
    else
      var s := db.sessions[sessionId];
      if s.isCompleted then Err(SessionAlreadyCompleted)
      else
        match IndexOfWord(s.words, wordId)
        case None => Err(WordNotInSession)
        case Some(k) =>
          var w := s.words[k];
          if w.isCorrect then Ok((db, AlreadyCorrect(w.wordText, w.attempts)))
          else
            var w' := Answer(w, answer);
            var s' := s.(words := s.words[k := w']);
            Ok((db.(sessions := db.sessions[sessionId := s']), Respond(s.levelNumber, w')))
  }

  /** Answering keeps the database valid. */
  lemma CheckAnswerKeepsValid(db: GameDb, sessionId: nat, wordId: nat, answer: string)
    requires Valid(db)
    ensures var r := CheckAnswer(db, sessionId, wordId, answer);
      r.Ok? ==> Valid(r.value.0)
  {
    var r := CheckAnswer(db, sessionId, wordId, answer);
    if r.Ok? {
      var db' := r.value.0;
      var s := db.sessions[sessionId];
      var k := IndexOfWord(s.words, wordId).value;
      if !s.words[k].isCorrect {
        var w := Answer(s.words[k], answer);
        var s' := s.(words := s.words[k := w]);
        assert db' == db.(sessions := db.sessions[sessionId := s']);
        AnsweredSessionOk(db, s, k, w);
        forall id | id in db'.sessions ensures SessionOk(db', db'.sessions[id]) {
          if id != sessionId {
            assert SessionOk(db, db.sessions[id]);
          }
        }
      }
    }
  }

  /** Answering touches one word of one session: every other session and
      every other word is kept, and the count of right words grows by at
      most one. */
  lemma CheckAnswerTouchesOneWord(db: GameDb, sessionId: nat, wordId: nat, answer: string)
    requires Valid(db)
    ensures var r := CheckAnswer(db, sessionId, wordId, answer);
      r.Ok? ==>
        var db' := r.value.0;
        var s, s' := db.sessions[sessionId], db'.sessions[sessionId];
        && db'.sessions.Keys == db.sessions.Keys
        && (forall id :: id in db.sessions && id != sessionId ==> db'.sessions[id] == db.sessions[id])
        && s'.userName == s.userName && s'.levelNumber == s.levelNumber && !s'.isCompleted
        && |s'.words| == |s.words|
        && (forall k :: 0 <= k < |s.words| && s.words[k].wordId != wordId ==> s'.words[k] == s.words[k])
        && CorrectCount(s.words) <= CorrectCount(s'.words) <= CorrectCount(s.words) + 1
  {
    var r := CheckAnswer(db, sessionId, wordId, answer);
    if r.Ok? {
      var s := db.sessions[sessionId];
      var k := IndexOfWord(s.words, wordId).value;
      if !s.words[k].isCorrect {
        assert SessionOk(db, s);
        AnsweredSessionOk(db, s, k, Answer(s.words[k], answer));
      }
    }
  }

  /** A running session stays well formed when a wrong word takes an
      answer. */
  lemma AnsweredSessionOk(db: GameDb, s: Session, k: nat, w: WordAttempt)
    requires SessionOk(db, s) && !s.isCompleted
    requires k < |s.words| && !s.words[k].isCorrect
    requires w.isCorrect ==> w.attempts >= 1
    ensures var s' := s.(words := s.words[k := w]);
      && SessionOk(db, s')
      && CorrectCount(s'.words) == CorrectCount(s.words) + (if w.isCorrect then 1 else 0)
  {
    var s' := s.(words := s.words[k := w]);
    CountAfterAnswer(s.words, k, w);
    forall j | 0 <= j < |s'.words| ensures WordOk(s'.words[j]) {
      if j != k { assert s'.words[j] == s.words[j]; }
    }
  }

  /** Replacing a wrong word by another record changes the count of right
      words by at most one, and only upwards. */
  lemma {:induction false} CountAfterAnswer(words: seq<WordAttempt>, k: nat, w: WordAttempt)
    requires k < |words| && !words[k].isCorrect
    ensures CorrectCount(words[k := w]) == CorrectCount(words) + (if w.isCorrect then 1 else 0)
  {
    if k > 0 {
      CountAfterAnswer(words[1..], k - 1, w);
      assert words[k := w][1..] == words[1..][k - 1 := w];
    } else {
      assert words[k := w][1..] == words[1..];
    }
  }

  /** Once a word is right, further answers to it change nothing. */
  lemma RightWordStaysRight(db: GameDb, sessionId: nat, wordId: nat, answer: string, answer': string)
    requires CheckAnswer(db, sessionId, wordId, answer).Ok?
    requires CheckAnswer(db, sessionId, wordId, answer).value.1.Answered?
    requires CheckAnswer(db, sessionId, wordId, answer).value.1.isCorrect
    ensures var db' := CheckAnswer(db, sessionId, wordId, answer).value.0;
      var r := CheckAnswer(db', sessionId, wordId, answer');
      r.Ok? && r.value.0 == db' && r.value.1.AlreadyCorrect?
  {
    var s := db.sessions[sessionId];
    var k := IndexOfWord(s.words, wordId).value;
    var db' := CheckAnswer(db, sessionId, wordId, answer).value.0;
    var s' := db'.sessions[sessionId];
    assert s'.words[k].wordId == wordId;
    assert IndexOfWord(s'.words, wordId) == Some(k);
  }

  /** Nothing limits the number of attempts: a word answered wrongly three
      times (so `getGameStatus` says it cannot be tried again) still accepts
      a fourth answer, and a right one marks it correct. */
  lemma AttemptsAreNotCapped(db: GameDb, sessionId: nat, wordId: nat, answer: string)
    requires sessionId in db.sessions && !db.sessions[sessionId].isCompleted
    requires |db.sessions[sessionId].words| > 0
    requires db.sessions[sessionId].words[0] == WordAttempt(wordId, "sol", "sal", false, 3)
    requires Clean(answer) == "sol"
    ensures var r := CheckAnswer(db, sessionId, wordId, answer);
      r.Ok? && r.value.1.Answered? && r.value.1.isCorrect && r.value.1.attempts == 4
  {
    var s := db.sessions[sessionId];
    assert IndexOfWord(s.words, wordId) == Some(0);
    assert Lower("sol") == "sol" by {
      assert forall i :: 0 <= i < 3 ==> !IsUpper("sol"[i]);
    }
  }

  // ---------------------------------------------------------------- finishGame

  /** One word in `finishGame`'s `wordsResult`. */
  datatype WordResult = WordResult(word: string, userAnswer: string, isCorrect: bool, attempts: nat)

  function WordResults(words: seq<WordAttempt>): (r: seq<WordResult>)
    ensures |r| == |words|
    ensures forall k :: 0 <= k < |words| ==>
      r[k] == WordResult(words[k].wordText, words[k].userAnswer, words[k].isCorrect, words[k].attempts)
  {
    if words == [] then []
    else [WordResult(words[0].wordText, words[0].userAnswer, words[0].isCorrect, words[0].attempts)]
         + WordResults(words[1..])
  }

  datatype FinishResponse = FinishResponse(
    sessionId: nat,
    finalScore: int,
    correctWords: nat,
    totalWords: nat,
    levelPassed: bool,
    levelCompleted: bool,
    pointsEarned: int,
    totalPoints: int,
    availablePoints: int,
    wordsResult: seq<WordResult>)

  /** The cosmetic points a score earns: half of it, rounded down. */
  function PointsFor(score: int): (r: int)
    requires score >= 0
    ensures 0 <= r && 2 * r <= score < 2 * r + 2
  {
    score / 2
  }

  /** `finishGame`: scores the session and closes it; a pass (three or more
      right words) records progress, completing the level when all five are
      right, and credits half the score, rounded down, to both balances. */
  function Finish(db: GameDb, sessionId: nat): (r: Result<(GameDb, FinishResponse)>)
    ensures sessionId !in db.sessions ==> r == Err(SessionNotFound)
    ensures sessionId in db.sessions && db.sessions[sessionId].isCompleted ==> r == Err(SessionAlreadyCompleted)
    ensures (sessionId in db.sessions && !db.sessions[sessionId].isCompleted
             && db.sessions[sessionId].userName !in db.users) ==> r == Err(ChildNotFound)
    ensures r.Ok? ==>
      var (db', resp) := r.value;
      var s := db.sessions[sessionId];
      var passed := CorrectCount(s.words) >= PassMark;
      && !s.isCompleted && s.userName in db.users
      && db'.sessions == db.sessions[sessionId := s.(finalScore := Score(s.words), isCompleted := true)]
      && db'.levels == db.levels && db'.nextSessionId == db.nextSessionId
      && resp.sessionId == sessionId && resp.finalScore == Score(s.words)
      && resp.correctWords == CorrectCount(s.words) && resp.totalWords == WordsPerLevel
      && resp.levelPassed == passed
      && resp.levelCompleted == (CorrectCount(s.words) == WordsPerLevel)
      && resp.wordsResult == WordResults(s.words)
      && (!passed ==> db'.users == db.users && db'.progress == db.progress && resp.pointsEarned == 0)
      && (passed ==>
            && Score(s.words) >= 0
            && resp.pointsEarned == PointsFor(Score(s.words))
            && db'.users == Credit(db.users, s.userName, resp.pointsEarned)
            && var saved := Progress.SaveProgress(db.users, db.levels, db.progress, s.userName, s.levelNumber,
                                                  Score(s.words), CorrectCount(s.words) == WordsPerLevel);
               saved.Ok? && db'.progress == saved.value.0)
      && resp.totalPoints == db'.users[s.userName].totalPoints
      && resp.availablePoints == db'.users[s.userName].availablePoints
  {
    if sessionId !in db.sessions then Err(SessionNotFound)
    else
      var s := db.sessions[sessionId];
      if s.isCompleted then Err(SessionAlreadyCompleted)
      else if s.userName !in db.users then Err(ChildNotFound)
      else
        var score, correct := Score(s.words), CorrectCount(s.words);
        var sessions' := db.sessions[sessionId := s.(finalScore := score, isCompleted := true)];
        var results := WordResults(s.words);
        if correct < PassMark then
          var u := db.users[s.userName];
          Ok((db.(sessions := sessions'),
              FinishResponse(sessionId, score, correct, WordsPerLevel, false, correct == WordsPerLevel,
                             0, u.totalPoints, u.availablePoints, results)))
        else
          match Progress.SaveProgress(db.users, db.levels, db.progress, s.userName, s.levelNumber,
                                      score, correct == WordsPerLevel)
          case Err(e) => Err(e)
          case Ok((progress', _)) =>
            WordScoresBetween(s.words);
            var points := PointsFor(score);
            var users' := Credit(db.users, s.userName, points);
            var u := users'[s.userName];
            Ok((db.(users := users', progress := progress', sessions := sessions'),
                FinishResponse(sessionId, score, correct, WordsPerLevel, true, correct == WordsPerLevel,
                               points, u.totalPoints, u.availablePoints, results)))
  }

  /** In a valid database a running session can always be finished, the
      result keeps the database valid, and the session cannot be finished a
      second time. */
  lemma FinishKeepsValid(db: GameDb, sessionId: nat)
    requires Valid(db)
    requires sessionId in db.sessions && !db.sessions[sessionId].isCompleted
    ensures var r := Finish(db, sessionId);
      && r.Ok?
      && Valid(r.value.0)
      && Finish(r.value.0, sessionId) == Err(SessionAlreadyCompleted)
  {
    var s := db.sessions[sessionId];
    assert SessionOk(db, s);
    var r := Finish(db, sessionId);
    assert r.Ok?;
    var db' := r.value.0;
    forall id | id in db'.sessions ensures SessionOk(db', db'.sessions[id]) {
      if id != sessionId {
        assert SessionOk(db, db.sessions[id]);
      }
    }
  }

  /** Points earned: none below the pass mark, otherwise half the score
      rounded down; so between 30 and 100 for a pass. */
  lemma FinishPoints(db: GameDb, sessionId: nat)
    requires Valid(db)
    requires Finish(db, sessionId).Ok?
    ensures var (db', resp) := Finish(db, sessionId).value;
      && (resp.levelPassed <==> resp.correctWords >= PassMark)
      && (resp.levelPassed ==> 30 <= resp.pointsEarned <= 100 && 2 * resp.pointsEarned <= resp.finalScore)
      && (!resp.levelPassed ==> resp.pointsEarned == 0)
  {
    var s := db.sessions[sessionId];
    assert SessionOk(db, s);
    ScoreBounds(s.words);
    WordScoresBetween(s.words);
  }

  /** Every completed progress row scores at least 150: what `finishGame`
      stores when it completes a level. */
  predicate CompletionsScoreHigh(rows: Progress.ProgressTable) {
    forall i :: 0 <= i < |rows| && rows[i].complete ==> rows[i].score >= 150
  }

  /** Although `saveProgress` can clear a completion (a higher score without
      completion replaces the row), finishing a game never does: an
      incomplete session scores at most 120, below any stored completion. */
  lemma FinishNeverClearsCompletion(db: GameDb, sessionId: nat, userName: string, levelNumber: int)
    requires Valid(db) && CompletionsScoreHigh(db.progress)
    requires Finish(db, sessionId).Ok?
    ensures var db' := Finish(db, sessionId).value.0;
      && CompletionsScoreHigh(db'.progress)
      && (Progress.IsLevelCompleted(db.progress, userName, levelNumber) ==>
            Progress.IsLevelCompleted(db'.progress, userName, levelNumber))
  {
    var s := db.sessions[sessionId];
    assert SessionOk(db, s);
    ScoreBounds(s.words);
    var db' := Finish(db, sessionId).value.0;
    var correct := CorrectCount(s.words);
    if correct >= PassMark {
      var score, complete := Score(s.words), correct == WordsPerLevel;
      var rows := db.progress;
      var rows' := db'.progress;
      assert rows' == Progress.SaveProgress(db.users, db.levels, rows, s.userName, s.levelNumber, score, complete).value.0;
      if Progress.HasRow(rows, s.userName, s.levelNumber) {
        var i := Progress.IndexOfRow(rows, s.userName, s.levelNumber).value;
        var row := Progress.Merge(rows[i], score, complete);
        assert rows' == rows[i := row];
        assert rows[i].complete ==> row.complete && row.score >= 150;
        assert row.complete ==> row.score >= 150;
        if Progress.IsLevelCompleted(rows, userName, levelNumber) {
          var j :| 0 <= j < |rows| && Progress.IsRowOf(rows[j], userName, levelNumber) && rows[j].complete;
          assert rows'[j].complete && Progress.IsRowOf(rows'[j], userName, levelNumber);
        }
      } else {
        assert rows' == rows + [Progress.ProgressRow(s.userName, s.levelNumber, score, complete)];
        if Progress.IsLevelCompleted(rows, userName, levelNumber) {
          var j :| 0 <= j < |rows| && Progress.IsRowOf(rows[j], userName, levelNumber) && rows[j].complete;
          assert rows'[j] == rows[j];
        }
      }
    }
  }

  // ---------------------------------------------------------------- getGameStatus

  datatype WordStatus = WordStatus(wordId: nat, word: string, isCorrect: bool, attempts: nat, canTryAgain: bool)

  /** A word can be tried again while it is wrong and has had fewer than
      three attempts. */
  function WordStatusOf(w: WordAttempt): (r: WordStatus)
    ensures r.canTryAgain <==> !w.isCorrect && w.attempts < 3
  {
    WordStatus(w.wordId, w.wordText, w.isCorrect, w.attempts, !w.isCorrect && w.attempts < 3)
  }

  function WordStatuses(words: seq<WordAttempt>): (r: seq<WordStatus>)
    ensures |r| == |words|
    ensures forall k :: 0 <= k < |words| ==> r[k] == WordStatusOf(words[k])
  {
    if words == [] then [] else [WordStatusOf(words[0])] + WordStatuses(words[1..])
  }

  datatype StatusResponse = StatusResponse(
    sessionId: nat,
    level: int,
    isCompleted: bool,
    correctWords: nat,
    totalWords: nat,
    currentScore: int,
    wordsStatus: seq<WordStatus>)

  /** `getGameStatus`: reads a session without changing anything. */
  function GetStatus(db: GameDb, sessionId: nat): (r: Result<StatusResponse>)
    ensures r.Err? <==> sessionId !in db.sessions
    ensures r.Err? ==> r.error == SessionNotFound
    ensures r.Ok? ==>
      var s := db.sessions[sessionId];
      && r.value.sessionId == sessionId && r.value.level == s.levelNumber
      && r.value.isCompleted == s.isCompleted
      && r.value.correctWords == CorrectCount(s.words) && r.value.totalWords == |s.words|
      && r.value.currentScore == s.finalScore
      && r.value.wordsStatus == WordStatuses(s.words)
  {
    if sessionId !in db.sessions then Err(SessionNotFound)
    else
      var s := db.sessions[sessionId];
      Ok(StatusResponse(sessionId, s.levelNumber, s.isCompleted, CorrectCount(s.words), |s.words|,
                        s.finalScore, WordStatuses(s.words)))
  }

  /** In a valid database the status of a finished session shows its final
      score and a running session shows 0. */
  lemma StatusScore(db: GameDb, sessionId: nat)
    requires Valid(db) && sessionId in db.sessions
    ensures var r := GetStatus(db, sessionId);
      && r.Ok?
      && r.value.totalWords == WordsPerLevel
      && r.value.currentScore == (if r.value.isCompleted then Score(db.sessions[sessionId].words) else 0)
  {
    assert SessionOk(db, db.sessions[sessionId]);
  }
}
