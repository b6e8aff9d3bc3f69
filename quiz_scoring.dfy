/** Scoring a finished quiz (`quiz_finish` in app/quiz/routes.py): the client
    posts the totals and one entry per answered question; the route stores a
    quiz result, bumps each answered word's counters, writes one answer-log
    row per answered word and replies with a summary of the user's data. */
module QuizScoring {
  import opened Wrappers
  import opened Records
  import opened Collections
  import opened Sorting
  import Text
  import Analytics

  /** One entry of the posted `answers` list: `id` may be missing (None),
      `correct` is the truth value of the posted flag, and `user_answer`
      defaults to "". */
  datatype Answer = Answer(wordId: Option<int>, correct: bool, userAnswer: string)

  /** The fields a scored answer never touches. */
  predicate SameEntry(a: Word, b: Word) {
    a.id == b.id && a.original == b.original && a.translation == b.translation && a.listId == b.listId
  }

  /** One answer applied to its word: a right answer adds one to
      `correct_count`, a wrong one adds one to `wrong_count` and stamps
      `last_wrong` with the time of the request. A missing counter counts as 0. */
  function Bump(w: Word, correct: bool, now: int): (r: Word)
    ensures SameEntry(r, w)
    ensures OrZero(r.correctCount) + OrZero(r.wrongCount) == OrZero(w.correctCount) + OrZero(w.wrongCount) + 1
    ensures correct ==> OrZero(r.correctCount) == OrZero(w.correctCount) + 1 && r.wrongCount == w.wrongCount
    ensures !correct ==> OrZero(r.wrongCount) == OrZero(w.wrongCount) + 1 && r.correctCount == w.correctCount
    ensures r.lastWrong != w.lastWrong ==> !correct && r.lastWrong == Some(now)
  {
    if correct then w.(correctCount := Some(OrZero(w.correctCount) + 1))
    else w.(wrongCount := Some(OrZero(w.wrongCount) + 1), lastWrong := Some(now))
  }

  /** The word an entry names, if the entry has an id and a word has that key
      (`Word.query.get(a.get("id"))`). */
  function Target(words: seq<Word>, a: Answer): (r: Option<nat>)
    ensures r.Some? ==> a.wordId.Some? && r.value < |words| && words[r.value].id == a.wordId.value
    ensures r.None? <==> a.wordId.None? || forall i :: 0 <= i < |words| ==> words[i].id != a.wordId.value
  {
    if a.wordId.None? then None else FindWord(words, a.wordId.value)
  }

  /** One iteration of the loop: entries that name no existing word are skipped. */
  function ApplyAnswer(words: seq<Word>, a: Answer, now: int): (r: seq<Word>)
    ensures |r| == |words|
  {
    match Target(words, a)
    case None => words
    case Some(i) => words[i := Bump(words[i], a.correct, now)]
  }

  /** The words after the loop has run over `answers`, in order. */
  function ApplyAll(words: seq<Word>, answers: seq<Answer>, now: int): (r: seq<Word>)
    ensures |r| == |words|
  {
    if |answers| == 0 then words
    else ApplyAnswer(ApplyAll(words, answers[..|answers| - 1], now), answers[|answers| - 1], now)
  }

  /** The loop changes only the counters: every word keeps its id, its text
      and its list, in place. */
  lemma {:induction false} ApplyAllKeepsEntries(words: seq<Word>, answers: seq<Answer>, now: int)
    ensures Ids(ApplyAll(words, answers, now)) == Ids(words)
    ensures forall i :: 0 <= i < |words| ==> SameEntry(ApplyAll(words, answers, now)[i], words[i])
  {
    if |answers| > 0 {
      var before := ApplyAll(words, answers[..|answers| - 1], now);
      ApplyAllKeepsEntries(words, answers[..|answers| - 1], now);
      var r := ApplyAnswer(before, answers[|answers| - 1], now);
      assert forall i :: 0 <= i < |r| ==> SameEntry(r[i], before[i]);
    }
  }

  /** The log row written for an entry whose word exists. */
  function LogRow(userId: int, resultId: int, wordId: int, a: Answer, now: int): (row: AnswerLog)
    ensures row.wordId == wordId && row.isCorrect == a.correct && row.userId == userId
  {
    AnswerLog(userId, resultId, wordId, a.userAnswer, a.correct, now)
  }

  /** The rows the loop appends to `quiz_answer_log`: one per entry whose word
      exists, tagged with the user and the new quiz result. Which words exist
      does not change during the loop, so the lookups use the words before it. */
  function LogRows(words: seq<Word>, userId: int, resultId: int, answers: seq<Answer>, now: int): (rows: seq<AnswerLog>)
    ensures |rows| <= |answers|
    ensures forall row :: row in rows ==> row.userId == userId && row.quizResultId == resultId && row.timestamp == now
  {
    if |answers| == 0 then []
    else
      var a := answers[|answers| - 1];
      LogRows(words, userId, resultId, answers[..|answers| - 1], now) +
        match Target(words, a)
        case None => []
        case Some(i) => [LogRow(userId, resultId, words[i].id, a, now)]
  }

  // ---------------------------------------------------------------------------
  // The batch, counted
  // ---------------------------------------------------------------------------

  /** The entries for word `id` that were right (or wrong). */
  function Hits(answers: seq<Answer>, id: int, correct: bool): nat {
    CountWhere(answers, (a: Answer) => a.wordId == Some(id) && a.correct == correct)
  }

  /** A word after `right` right and `wrong` wrong answers: the counters grow
      by those numbers, and `last_wrong` is the request time after any wrong one. */
  function Scored(w: Word, right: nat, wrong: nat, now: int): (r: Word)
    ensures SameEntry(r, w)
  {
    w.(correctCount := if right > 0 then Some(OrZero(w.correctCount) + right) else w.correctCount,
       wrongCount := if wrong > 0 then Some(OrZero(w.wrongCount) + wrong) else w.wrongCount,
       lastWrong := if wrong > 0 then Some(now) else w.lastWrong)
  }

  /** Each word ends up as if all of its entries were applied at once: its
      right entries are added to `correct_count`, its wrong entries to
      `wrong_count`, `last_wrong` is set exactly when one of them was wrong,
      and a word no entry names is left as it was. */
  lemma {:induction false} ApplyAllScores(words: seq<Word>, answers: seq<Answer>, now: int, i: nat)
    requires UniqueWordIds(words)
    requires i < |words|
    ensures ApplyAll(words, answers, now)[i] ==
            Scored(words[i], Hits(answers, words[i].id, true), Hits(answers, words[i].id, false), now)
  {
    if |answers| > 0 {
      var init := answers[..|answers| - 1];
      var before := ApplyAll(words, init, now);
      ApplyAllScores(words, init, now, i);
      ApplyAllKeepsEntries(words, init, now);
      UniqueByIds(words, before);
      ApplyAnswerAt(before, answers[|answers| - 1], now, i);
    }
  }

  /** One entry changes its own word by one bump and no other word. */
  lemma ApplyAnswerAt(words: seq<Word>, a: Answer, now: int, i: nat)
    requires UniqueWordIds(words)
    requires i < |words|
    ensures ApplyAnswer(words, a, now)[i] ==
            if a.wordId == Some(words[i].id) then Bump(words[i], a.correct, now) else words[i]
  {
    if a.wordId == Some(words[i].id) {
      FindWordUnique(words, i);
    }
  }

  /** A word that no entry names is not changed. */
  lemma UntouchedUnchanged(words: seq<Word>, answers: seq<Answer>, now: int, i: nat)
    requires UniqueWordIds(words)
    requires i < |words|
    requires forall a :: a in answers ==> a.wordId != Some(words[i].id)
    ensures ApplyAll(words, answers, now)[i] == words[i]
  {
    ApplyAllScores(words, answers, now, i);
    NoHits(answers, words[i].id, true);
    NoHits(answers, words[i].id, false);
  }

  lemma {:induction false} NoHits(answers: seq<Answer>, id: int, correct: bool)
    requires forall a :: a in answers ==> a.wordId != Some(id)
    ensures Hits(answers, id, correct) == 0
  {
    if |answers| > 0 {
      var init := answers[..|answers| - 1];
      assert forall a :: a in init ==> a in answers;
      NoHits(init, id, correct);
      assert answers[|answers| - 1] in answers;
    }
  }

  /** Exactly one log row is written for each entry whose word exists. */
  lemma {:induction false} LogRowsCount(words: seq<Word>, userId: int, resultId: int, answers: seq<Answer>, now: int)
    ensures |LogRows(words, userId, resultId, answers, now)| ==
            CountWhere(answers, (a: Answer) => Target(words, a).Some?)
  {
    if |answers| > 0 {
      LogRowsCount(words, userId, resultId, answers[..|answers| - 1], now);
    }
  }

  /** The rows for one word: how many of the user's answers to it were right
      (or wrong), across the whole log. */
  function LogHits(log: seq<AnswerLog>, id: int, correct: bool): nat {
    CountWhere(log, (row: AnswerLog) => row.wordId == id && row.isCorrect == correct)
  }

  /** The log rows written for an existing word are exactly its entries. */
  lemma {:induction false} LogRowsHits(words: seq<Word>, userId: int, resultId: int, answers: seq<Answer>, now: int, i: nat, correct: bool)
    requires i < |words|
    ensures LogHits(LogRows(words, userId, resultId, answers, now), words[i].id, correct) == Hits(answers, words[i].id, correct)
  {
    if |answers| > 0 {
      var init := answers[..|answers| - 1];
      var a := answers[|answers| - 1];
      var rows := LogRows(words, userId, resultId, init, now);
      LogRowsHits(words, userId, resultId, init, now, i, correct);
      var tail := match Target(words, a) case None => [] case Some(j) => [LogRow(userId, resultId, words[j].id, a, now)];
      CountWhereAppend(rows, tail, (row: AnswerLog) => row.wordId == words[i].id && row.isCorrect == correct);
    }
  }

  /** The counters on the word rows agree with the answer log: every word's
      `correct_count` and `wrong_count` (a missing one read as 0) equal the
      number of right and wrong rows logged for it. */
  ghost predicate ConsistentCounts(words: seq<Word>, log: seq<AnswerLog>) {
    forall i :: 0 <= i < |words| ==>
      OrZero(words[i].correctCount) == LogHits(log, words[i].id, true) &&
      OrZero(words[i].wrongCount) == LogHits(log, words[i].id, false)
  }

  /** Scoring keeps the counters and the log in step: the counters grow by
      exactly the rows written for each word. */
  lemma FinishKeepsConsistent(words: seq<Word>, log: seq<AnswerLog>, userId: int, resultId: int, answers: seq<Answer>, now: int)
    requires UniqueWordIds(words)
    requires ConsistentCounts(words, log)
    ensures ConsistentCounts(ApplyAll(words, answers, now), log + LogRows(words, userId, resultId, answers, now))
  {
    var after := ApplyAll(words, answers, now);
    var rows := LogRows(words, userId, resultId, answers, now);
    forall i | 0 <= i < |after|
      ensures OrZero(after[i].correctCount) == LogHits(log + rows, after[i].id, true)
      ensures OrZero(after[i].wrongCount) == LogHits(log + rows, after[i].id, false)
    {
      var id := words[i].id;
      ApplyAllScores(words, answers, now, i);
      LogRowsHits(words, userId, resultId, answers, now, i, true);
      LogRowsHits(words, userId, resultId, answers, now, i, false);
      CountWhereAppend(log, rows, (row: AnswerLog) => row.wordId == id && row.isCorrect == true);
      CountWhereAppend(log, rows, (row: AnswerLog) => row.wordId == id && row.isCorrect == false);
    }
  }

  // ---------------------------------------------------------------------------
  // The summary
  // ---------------------------------------------------------------------------

  /** `sum(len(wl.words) for wl in wordlists)`. */
  function TotalWords(lists: seq<WordList>, words: seq<Word>): nat {
    if |lists| == 0 then 0
    else TotalWords(lists[..|lists| - 1], words) + |WordsOfList(words, lists[|lists| - 1].id)|
  }

  lemma {:induction false} WordsInListsCountStable(a: seq<Word>, b: seq<Word>, listIds: seq<int>)
    requires |a| == |b|
    requires forall i :: 0 <= i < |a| ==> a[i].listId == b[i].listId
    ensures |WordsInLists(a, listIds)| == |WordsInLists(b, listIds)|
  {
    if |a| > 0 {
      WordsInListsCountStable(a[1..], b[1..], listIds);
    }
  }

  /** Scoring moves no word between lists, so the word total of the summary
      is the same before and after the commit. */
  lemma {:induction false} TotalWordsStable(lists: seq<WordList>, words: seq<Word>, answers: seq<Answer>, now: int)
    ensures TotalWords(lists, ApplyAll(words, answers, now)) == TotalWords(lists, words)
  {
    if |lists| > 0 {
      TotalWordsStable(lists[..|lists| - 1], words, answers, now);
      ApplyAllKeepsEntries(words, answers, now);
      WordsInListsCountStable(ApplyAll(words, answers, now), words, [lists[|lists| - 1].id]);
    }
  }

  /** `QuizResult.query.filter_by(user_id=...).count()`. */
  function QuizCount(results: seq<QuizResult>, userId: int): nat {
    CountWhere(results, (q: QuizResult) => q.userId == userId)
  }

  /** The JSON reply: the posted totals, the user's word, list and quiz
      counts, and the twenty hardest words from the answer log. */
  datatype FinishSummary = FinishSummary(
    correct: int,
    total: int,
    totalWords: nat,
    totalLists: nat,
    totalQuizzes: nat,
    hardestWords: seq<Analytics.HardEntry>)

  /** `quiz_finish`: store the result (its key is known after the flush),
      apply every entry to its word and log it, commit, and summarise. The
      commit is one whole-state update of the session. */
  method QuizFinish(db: Database, userId: int, correct: int, total: int, answers: seq<Answer>, now: int)
    returns (summary: FinishSummary)
    requires db.Valid()
    modifies db
    ensures db.Valid()
    ensures var resultId := NextResultId(old(db.results));
            db.results == old(db.results) + [QuizResult(resultId, userId, correct, total)] &&
            db.words == ApplyAll(old(db.words), answers, now) &&
            db.log == old(db.log) + LogRows(old(db.words), userId, resultId, answers, now)
    ensures db.lists == old(db.lists)
    ensures summary.correct == correct && summary.total == total
    ensures summary.totalLists == |ListsOfUser(db.lists, userId)|
    ensures summary.totalWords == TotalWords(ListsOfUser(db.lists, userId), db.words)
    ensures summary.totalQuizzes == QuizCount(db.results, userId) && summary.totalQuizzes >= 1
    ensures var rows := RowsOfUser(db.log, userId);
            summary.hardestWords ==
              Text.Take(SortDesc(Analytics.Entries(db.words, FirstSeen(Analytics.WordIds(rows)), rows), Analytics.WrongKey), 20)
  {
    var resultId := NextResultId(db.results);
    var result := QuizResult(resultId, userId, correct, total);
    CountWhereAppend(db.results, [result], (q: QuizResult) => q.userId == userId);
    db.results := db.results + [result];
    ScoreAnswers(db, userId, resultId, answers, now);
    var mine := ListsOfUser(db.lists, userId);
    var hardest := Analytics.HardestWords(db.words, db.log, userId, 20);
    summary := FinishSummary(correct, total, TotalWords(mine, db.words), |mine|, QuizCount(db.results, userId), hardest);
  }

  /** One more entry: its word is bumped and, if it exists, one row logged. */
  lemma ScoreStep(words: seq<Word>, userId: int, resultId: int, answers: seq<Answer>, now: int, k: nat)
    requires k < |answers|
    ensures var before := ApplyAll(words, answers[..k], now);
            var a := answers[k];
            ApplyAll(words, answers[..k + 1], now) == ApplyAnswer(before, a, now) &&
            LogRows(words, userId, resultId, answers[..k + 1], now) ==
              LogRows(words, userId, resultId, answers[..k], now) +
                if Target(before, a).Some? then [LogRow(userId, resultId, a.wordId.value, a, now)] else []
  {
    assert answers[..k + 1][..k] == answers[..k];
    var a := answers[k];
    if a.wordId.Some? {
      ApplyAllKeepsEntries(words, answers[..k], now);
      FindWordByIds(ApplyAll(words, answers[..k], now), words, a.wordId.value);
    }
  }

  /** The loop of `quiz_finish` over the posted entries: each bumps its word
      and logs one row when the word exists. */
  method ScoreLoop(words0: seq<Word>, log0: seq<AnswerLog>, userId: int, resultId: int, answers: seq<Answer>, now: int)
    returns (words: seq<Word>, log: seq<AnswerLog>)
    ensures words == ApplyAll(words0, answers, now)
    ensures log == log0 + LogRows(words0, userId, resultId, answers, now)
  {
    words, log := words0, log0;
    for k := 0 to |answers|
      invariant words == ApplyAll(words0, answers[..k], now)
      invariant log == log0 + LogRows(words0, userId, resultId, answers[..k], now)
    {
      var a := answers[k];
      ScoreStep(words0, userId, resultId, answers, now, k);
      var found := Target(words, a);
      if found.Some? {
        var i := found.value;
        words := words[i := Bump(words[i], a.correct, now)];
        log := log + [LogRow(userId, resultId, a.wordId.value, a, now)];
      }
    }
    assert answers[..|answers|] == answers;
  }

  /** The loop on the session's copy of the tables; the commit writes them
      back in one step. */
  method ScoreAnswers(db: Database, userId: int, resultId: int, answers: seq<Answer>, now: int)
    requires db.Valid()
    modifies db
    ensures db.Valid()
    ensures db.words == ApplyAll(old(db.words), answers, now)
    ensures db.log == old(db.log) + LogRows(old(db.words), userId, resultId, answers, now)
    ensures db.results == old(db.results) && db.lists == old(db.lists)
  {
    var words, log := ScoreLoop(db.words, db.log, userId, resultId, answers, now);
    ApplyAllKeepsEntries(db.words, answers, now);
    UniqueByIds(db.words, words);
    db.words, db.log := words, log;
  }
}
