/** The older main blueprint (app/routes.py): starting a quiz straight from a
    list, sharing a list by copying it to another user, and its own copy of
    `quiz_finish`, which keeps no answer log and builds its hardest-words
    summary from the counters on the word rows. Its `short_label`,
    `quiz_settings` and `quiz_take` are the same code as in the text and quiz
    modules and are modelled there. */
module LegacyRoutes {
  import opened Wrappers
  import opened Records
  import opened Collections
  import opened Sorting
  import Text
  import QuizTaking
  import QuizScoring

  /** `WordList.query.filter_by(id=list_id, user_id=current_user.id).first()`. */
  function OwnedList(lists: seq<WordList>, userId: int, listId: int): (r: Option<WordList>)
    ensures r.Some? ==> r.value in lists && r.value.id == listId && r.value.userId == userId
    ensures r.None? <==> listId !in ListIdsOfUser(lists, userId)
  {
    if |lists| == 0 then None
    else if lists[0].id == listId && lists[0].userId == userId then Some(lists[0])
    else OwnedList(lists[1..], userId, listId)
  }

  // ---------------------------------------------------------------------------
  // quiz_from_list
  // ---------------------------------------------------------------------------

  /** The cap on questions when a quiz is started from one list. */
  const DirectQuizCap: nat := 21

  datatype DirectError = ListMissing | ListEmpty

  /** `quiz_from_list`: a quiz over one of the user's own lists, with one
      question per word up to 21, in mixed direction. */
  function QuizFromList(lists: seq<WordList>, words: seq<Word>, userId: int, listId: nat): (r: Result<QuizTaking.TakeQuery, DirectError>)
    ensures r == Err(ListMissing) <==> listId !in ListIdsOfUser(lists, userId)
    ensures r == Err(ListEmpty) <==> listId in ListIdsOfUser(lists, userId) && WordsOfList(words, listId) == []
  {
    match OwnedList(lists, userId, listId)
    case None => Err(ListMissing)
    case Some(wordlist) =>
      var count := |WordsOfList(words, wordlist.id)|;
      if count == 0 then Err(ListEmpty)
      else Ok(QuizTaking.TakeQuery(Text.Show(listId), Some(if count < DirectQuizCap then count else DirectQuizCap), "mix"))
  }

  /** The redirect lands on a quiz over exactly that list's words, which is
      never empty, asking one question per word up to 21, in mixed direction. */
  lemma QuizFromListRoundTrip(lists: seq<WordList>, words: seq<Word>, userId: int, listId: nat)
    requires QuizFromList(lists, words, userId, listId).Ok?
    ensures var q := QuizFromList(lists, words, userId, listId).value;
            var n := |WordsOfList(words, listId)|;
            QuizTaking.Pool(lists, words, userId, q.lists) == WordsOfList(words, listId) != [] &&
            QuizTaking.QuestionCount(QuizTaking.NumWordsOf(q)) == (if n < DirectQuizCap then n else DirectQuizCap) &&
            1 <= QuizTaking.QuestionCount(QuizTaking.NumWordsOf(q)) <= DirectQuizCap &&
            QuizTaking.IsMix(q.direction)
  {
    var shown := Text.Show(listId);
    Text.ListsParamRoundTrip([listId]);
    assert Text.ShowAll([listId]) == [shown];
    assert Text.ListsParam([shown]) == shown by {
      assert "all" !in [shown] by {
        assert Text.IsDigit(shown[0]);
        assert "all"[0] == 'a';
      }
    }
    assert shown != "all" by {
      assert Text.IsDigit(shown[0]);
      assert "all"[0] == 'a';
    }
  }

  // ---------------------------------------------------------------------------
  // share_list
  // ---------------------------------------------------------------------------

  /** A row of the `user` table, as far as sharing needs it. */
  datatype User = User(id: int, email: string)

  /** `User.query.filter_by(email=email).first()`. */
  function UserByEmail(users: seq<User>, email: string): (r: Option<User>)
    ensures r.Some? ==> r.value in users && r.value.email == email
    ensures r.None? <==> forall u :: u in users ==> u.email != email
  {
    if |users| == 0 then None
    else if users[0].email == email then Some(users[0])
    else UserByEmail(users[1..], email)
  }

  /** `request.form.get("email", "").strip().lower()`. */
  function SharedEmail(email: string): string {
    Text.Lower(Text.Strip(email))
  }

  datatype ShareError = NotYourList | NoEmail | NoSuchUser

  /** A fresh copy of a word for the new list: same text, counters reset to
      0, no `last_wrong`. */
  function CopyOf(w: Word, id: int, listId: int): (c: Word)
    ensures c.original == w.original && c.translation == w.translation
    ensures c.correctCount == Some(0) && c.wrongCount == Some(0) && c.lastWrong == None
    ensures c.id == id && c.listId == listId
  {
    Word(id, w.original, w.translation, Some(0), Some(0), None, listId)
  }

  /** The copies of `ws`, numbered from `firstId` in order. */
  function Copies(ws: seq<Word>, listId: int, firstId: int): (r: seq<Word>)
    ensures |r| == |ws|
    ensures forall i :: 0 <= i < |r| ==> r[i] == CopyOf(ws[i], firstId + i, listId)
  {
    seq(|ws|, i requires 0 <= i < |ws| => CopyOf(ws[i], firstId + i, listId))
  }

  /** `share_list` on POST: the recipient, found by the normalised email,
      gets a new list with the source list's name and a fresh copy of each of
      its words; the source list is not touched. The new keys are the next
      free ones. */
  method ShareList(db: Database, users: seq<User>, userId: int, listId: int, email: string) returns (r: Result<int, ShareError>)
    requires db.Valid()
    modifies db
    ensures db.Valid()
    ensures r == Err(NotYourList) <==> listId !in ListIdsOfUser(old(db.lists), userId)
    ensures r == Err(NoEmail) <==> listId in ListIdsOfUser(old(db.lists), userId) && SharedEmail(email) == ""
    ensures r == Err(NoSuchUser) <==>
              listId in ListIdsOfUser(old(db.lists), userId) && SharedEmail(email) != "" &&
              UserByEmail(users, SharedEmail(email)).None?
    ensures r.Err? ==> unchanged(db)
    ensures r.Ok? ==>
              var source := OwnedList(old(db.lists), userId, listId).value;
              var recipient := UserByEmail(users, SharedEmail(email)).value;
              r.value == NextListId(old(db.lists)) &&
              db.lists == old(db.lists) + [WordList(r.value, source.name, recipient.id)] &&
              db.words == old(db.words) + Copies(WordsOfList(old(db.words), listId), r.value, NextWordId(old(db.words))) &&
              db.results == old(db.results) && db.log == old(db.log)
  {
    var found := OwnedList(db.lists, userId, listId);
    if found.None? {
      return Err(NotYourList);
    }
    var wordlist := found.value;
    var address := SharedEmail(email);
    if address == "" {
      return Err(NoEmail);
    }
    var recipient := UserByEmail(users, address);
    if recipient.None? {
      return Err(NoSuchUser);
    }
    var newId := NextListId(db.lists);
    var source := WordsOfList(db.words, wordlist.id);
    var copies := CopyWords(source, newId, NextWordId(db.words));
    CopiesKeepUnique(db.words, source, newId);
    db.lists, db.words := db.lists + [WordList(newId, wordlist.name, recipient.value.id)], db.words + copies;
    return Ok(newId);
  }

  /** The copy loop of `share_list`. */
  method CopyWords(source: seq<Word>, listId: int, firstId: int) returns (copies: seq<Word>)
    ensures copies == Copies(source, listId, firstId)
  {
    copies := [];
    for i := 0 to |source|
      invariant copies == Copies(source[..i], listId, firstId)
    {
      assert Copies(source[..i + 1], listId, firstId) == copies + [CopyOf(source[i], firstId + i, listId)];
      copies := copies + [CopyOf(source[i], firstId + i, listId)];
    }
    assert source[..|source|] == source;
  }

  /** The copies get keys no existing word has, so keys stay unique. */
  lemma CopiesKeepUnique(words: seq<Word>, source: seq<Word>, listId: int)
    requires UniqueWordIds(words)
    ensures UniqueWordIds(words + Copies(source, listId, NextWordId(words)))
  {
  }

  lemma {:induction false} WordsInListsAppend(a: seq<Word>, b: seq<Word>, listIds: seq<int>)
    ensures WordsInLists(a + b, listIds) == WordsInLists(a, listIds) + WordsInLists(b, listIds)
  {
    if |a| > 0 {
      assert (a + b)[1..] == a[1..] + b;
      WordsInListsAppend(a[1..], b, listIds);
    } else {
      assert a + b == b;
    }
  }

  lemma {:induction false} NoneInList(ws: seq<Word>, listIds: seq<int>)
    requires forall w :: w in ws ==> w.listId !in listIds
    ensures WordsInLists(ws, listIds) == []
  {
    if |ws| > 0 {
      assert ws[0] in ws;
      assert forall w :: w in ws[1..] ==> w in ws;
      NoneInList(ws[1..], listIds);
    }
  }

  lemma {:induction false} AllInList(ws: seq<Word>, listIds: seq<int>)
    requires forall w :: w in ws ==> w.listId in listIds
    ensures WordsInLists(ws, listIds) == ws
  {
    if |ws| > 0 {
      assert ws[0] in ws;
      assert forall w :: w in ws[1..] ==> w in ws;
      AllInList(ws[1..], listIds);
    }
  }

  /** Sharing leaves the source list's words as they were: the copies
      belong to the new list, whose key no list had. */
  lemma ShareKeepsSource(words: seq<Word>, lists: seq<WordList>, userId: int, listId: int)
    requires OwnedList(lists, userId, listId).Some?
    ensures var source := WordsOfList(words, listId);
            WordsOfList(words + Copies(source, NextListId(lists), NextWordId(words)), listId) == source
  {
    var l := OwnedList(lists, userId, listId).value;
    var k :| 0 <= k < |lists| && lists[k] == l;
    var newId := NextListId(lists);
    var copies := Copies(WordsOfList(words, listId), newId, NextWordId(words));
    WordsInListsAppend(words, copies, [listId]);
    forall w | w in copies ensures w.listId !in [listId] {
      var j :| 0 <= j < |copies| && copies[j] == w;
    }
    NoneInList(copies, [listId]);
  }

  /** The new list holds exactly the copies, given that no word pointed at
      the new key before (word lists are referenced by foreign key). */
  lemma SharedListHoldsCopies(words: seq<Word>, source: seq<Word>, newId: int)
    requires forall w :: w in words ==> w.listId != newId
    ensures WordsOfList(words + Copies(source, newId, NextWordId(words)), newId) == Copies(source, newId, NextWordId(words))
  {
    var copies := Copies(source, newId, NextWordId(words));
    WordsInListsAppend(words, copies, [newId]);
    forall w | w in copies ensures w.listId in [newId] {
      var j :| 0 <= j < |copies| && copies[j] == w;
    }
    AllInList(copies, [newId]);
    NoneInList(words, [newId]);
  }

  // ---------------------------------------------------------------------------
  // quiz_finish, the older copy
  // ---------------------------------------------------------------------------

  /** One posted entry as this copy reads it. `hasId` says whether the "id"
      key is present; `id` is its value, None for `"id": null`, which
      `Word.query.get(None)` answers with no word. `correct` is None when the
      "correct" key is missing, and a JSON null reads as false. */
  datatype LegacyAnswer = LegacyAnswer(hasId: bool, id: Option<int>, correct: Option<bool>)

  /** A missing key raises KeyError: `a["id"]` always, `a["correct"]` only
      when the word exists. */
  predicate Breaks(words: seq<Word>, a: LegacyAnswer) {
    !a.hasId || (a.id.Some? && FindWord(words, a.id.value).Some? && a.correct.None?)
  }

  predicate AnyBreaks(words: seq<Word>, answers: seq<LegacyAnswer>) {
    exists i :: 0 <= i < |answers| && Breaks(words, answers[i])
  }

  /** An entry that does not break, in the form the scoring loop reads. */
  function AsAnswer(a: LegacyAnswer): QuizScoring.Answer {
    QuizScoring.Answer(a.id, a.correct == Some(true), "")
  }

  function AsAnswers(answers: seq<LegacyAnswer>): (r: seq<QuizScoring.Answer>)
    ensures |r| == |answers|
    ensures forall i :: 0 <= i < |r| ==> r[i] == AsAnswer(answers[i])
  {
    seq(|answers|, i requires 0 <= i < |answers| => AsAnswer(answers[i]))
  }

  /** One entry of this copy's `hardest_words`: the raw columns of a word of
      one of the user's lists. */
  datatype LegacyEntry = LegacyEntry(original: string, wrongCount: Option<int>, correctCount: Option<int>, lastWrong: Option<int>)

  function EntryOf(w: Word): LegacyEntry {
    LegacyEntry(w.original, w.wrongCount, w.correctCount, w.lastWrong)
  }

  function EntriesOf(ws: seq<Word>): (r: seq<LegacyEntry>)
    ensures |r| == |ws|
    ensures forall i :: 0 <= i < |r| ==> r[i] == EntryOf(ws[i])
  {
    seq(|ws|, i requires 0 <= i < |ws| => EntryOf(ws[i]))
  }

  /** One entry per word of each list, list by list. */
  function HardRows(lists: seq<WordList>, words: seq<Word>): seq<LegacyEntry> {
    if |lists| == 0 then []
    else HardRows(lists[..|lists| - 1], words) + EntriesOf(WordsOfList(words, lists[|lists| - 1].id))
  }

  /** The nested loop that fills `hardest_words`. */
  method CollectHardRows(lists: seq<WordList>, words: seq<Word>) returns (rows: seq<LegacyEntry>)
    ensures rows == HardRows(lists, words)
  {
    rows := [];
    for j := 0 to |lists|
      invariant rows == HardRows(lists[..j], words)
    {
      var ws := WordsOfList(words, lists[j].id);
      for t := 0 to |ws|
        invariant rows == HardRows(lists[..j], words) + EntriesOf(ws[..t])
      {
        assert EntriesOf(ws[..t + 1]) == EntriesOf(ws[..t]) + [EntryOf(ws[t])];
        rows := rows + [EntryOf(ws[t])];
      }
      assert ws[..|ws|] == ws;
      assert lists[..j + 1][..j] == lists[..j];
    }
    assert lists[..|lists|] == lists;
  }

  /** The summary has one entry per word of the user's lists: as many as the
      word total it reports, and every such word's entry is among them. */
  lemma {:induction false} HardRowsCover(lists: seq<WordList>, words: seq<Word>)
    ensures |HardRows(lists, words)| == QuizScoring.TotalWords(lists, words)
    ensures forall w, l :: w in words && l in lists && w.listId == l.id ==> EntryOf(w) in HardRows(lists, words)
  {
    if |lists| > 0 {
      var init := lists[..|lists| - 1];
      var last := lists[|lists| - 1];
      HardRowsCover(init, words);
      var tail := EntriesOf(WordsOfList(words, last.id));
      forall w, l | w in words && l in lists && w.listId == l.id
        ensures EntryOf(w) in HardRows(lists, words)
      {
        if l in init {
          assert EntryOf(w) in HardRows(init, words);
        } else {
          assert l == last;
          var ws := WordsOfList(words, last.id);
          var k :| 0 <= k < |ws| && ws[k] == w;
          assert tail[k] == EntryOf(w);
        }
      }
    }
  }

  /** The sort key as written, `x["wrong_count"]`: None for a NULL column. */
  function RawWrong(e: LegacyEntry): Option<int> {
    e.wrongCount
  }

  datatype SortError = TypeError

  /** `hardest_words.sort(key=lambda x: x["wrong_count"], reverse=True)` as
      written. Python refuses to order None against a number (or against
      None), and with two or more entries every entry takes part in some
      comparison, so one NULL counter among two or more entries raises. */
  function SortAsWritten(rows: seq<LegacyEntry>): (r: Result<seq<LegacyEntry>, SortError>)
    ensures r.Err? <==> |rows| >= 2 && exists i :: 0 <= i < |rows| && RawWrong(rows[i]).None?
  {
    if |rows| >= 2 && exists i :: 0 <= i < |rows| && RawWrong(rows[i]).None? then Err(TypeError)
    else Ok(SortDesc(rows, WrongOrZero))
  }

  /** A user with two words, one of them imported with a NULL `wrong_count`:
      the summary cannot be built. */
  lemma SortAsWrittenFails()
    ensures SortAsWritten([LegacyEntry("hund", None, Some(2), None), LegacyEntry("katt", Some(1), Some(0), None)]) == Err(TypeError)
  {
    var rows := [LegacyEntry("hund", None, Some(2), None), LegacyEntry("katt", Some(1), Some(0), None)];
    assert RawWrong(rows[0]).None?;
  }

  /** The key the authors evidently meant (`getattr(..., 0)` shows 0 as the
      intended default, as `or 0` does in the scoring loop). */
  function WrongOrZero(e: LegacyEntry): int {
    OrZero(e.wrongCount)
  }

  /** The corrected sort: never fails, most-missed first, and keeps the
      entries (a stable permutation). */
  function SortHardest(rows: seq<LegacyEntry>): (r: seq<LegacyEntry>)
    ensures multiset(r) == multiset(rows)
    ensures SortedDescBy(r, WrongOrZero)
  {
    SortDescSorted(rows, WrongOrZero);
    SortDesc(rows, WrongOrZero)
  }

  /** Where no counter is NULL, the corrected sort is the one written. */
  lemma SortHardestAgrees(rows: seq<LegacyEntry>)
    requires forall i :: 0 <= i < |rows| ==> RawWrong(rows[i]).Some?
    ensures SortAsWritten(rows) == Ok(SortHardest(rows))
  {
  }

  datatype LegacySummary = LegacySummary(
    correct: int,
    total: int,
    totalWords: nat,
    totalLists: nat,
    totalQuizzes: nat,
    hardestWords: seq<LegacyEntry>)

  datatype FinishError = KeyError

  /** `quiz_finish` in this copy: the quiz result is committed on its own
      first; then every entry is applied to its word, with no answer log, and
      committed. A missing key aborts the request after the first commit, and
      the word changes, never committed, are lost. The summary lists every
      word of the user's lists, most-missed first. */
  method LegacyQuizFinish(db: Database, userId: int, correct: int, total: int, answers: seq<LegacyAnswer>, now: int)
    returns (r: Result<LegacySummary, FinishError>)
    requires db.Valid()
    modifies db
    ensures db.Valid()
    ensures db.results == old(db.results) + [QuizResult(NextResultId(old(db.results)), userId, correct, total)]
    ensures db.lists == old(db.lists) && db.log == old(db.log)
    ensures r.Err? <==> AnyBreaks(old(db.words), answers)
    ensures r.Err? ==> db.words == old(db.words)
    ensures r.Ok? ==>
              var mine := ListsOfUser(db.lists, userId);
              db.words == QuizScoring.ApplyAll(old(db.words), AsAnswers(answers), now) &&
              r.value.correct == correct && r.value.total == total &&
              r.value.totalLists == |mine| &&
              r.value.totalWords == QuizScoring.TotalWords(mine, db.words) &&
              r.value.totalQuizzes == QuizScoring.QuizCount(db.results, userId) &&
              r.value.hardestWords == SortHardest(HardRows(mine, db.words))
  {
    var result := QuizResult(NextResultId(db.results), userId, correct, total);
    db.results := db.results + [result];
    var scored := ScoreLegacy(db.words, answers, now);
    if scored.Err? {
      return Err(KeyError);
    }
    QuizScoring.ApplyAllKeepsEntries(db.words, AsAnswers(answers), now);
    UniqueByIds(db.words, scored.value);
    db.words := scored.value;
    var mine := ListsOfUser(db.lists, userId);
    var rows := CollectHardRows(mine, db.words);
    r := Ok(LegacySummary(correct, total, QuizScoring.TotalWords(mine, db.words), |mine|,
                          QuizScoring.QuizCount(db.results, userId), SortHardest(rows)));
  }

  /** One more entry: it breaks the loop, or it is scored like an entry of
      the blueprint's copy. */
  lemma LegacyStep(words0: seq<Word>, answers: seq<LegacyAnswer>, now: int, k: nat)
    requires k < |answers|
    ensures AnyBreaks(words0, answers[..k + 1]) <==> AnyBreaks(words0, answers[..k]) || Breaks(words0, answers[k])
    ensures QuizScoring.ApplyAll(words0, AsAnswers(answers[..k + 1]), now) ==
            QuizScoring.ApplyAnswer(QuizScoring.ApplyAll(words0, AsAnswers(answers[..k]), now), AsAnswer(answers[k]), now)
  {
    var init := answers[..k + 1];
    assert init[..k] == answers[..k] && init[k] == answers[k];
    assert AsAnswers(init)[..k] == AsAnswers(answers[..k]);
    if AnyBreaks(words0, init) {
      var i :| 0 <= i < |init| && Breaks(words0, init[i]);
      if i < k {
        assert answers[..k][i] == init[i];
      }
    }
  }

  /** The loop of this copy over the posted entries, on the session's words;
      a missing key ends it with KeyError. */
  method ScoreLegacy(words0: seq<Word>, answers: seq<LegacyAnswer>, now: int) returns (r: Result<seq<Word>, FinishError>)
    ensures r.Err? <==> AnyBreaks(words0, answers)
    ensures r.Ok? ==> r.value == QuizScoring.ApplyAll(words0, AsAnswers(answers), now)
  {
    var words := words0;
    for k := 0 to |answers|
      invariant words == QuizScoring.ApplyAll(words0, AsAnswers(answers[..k]), now)
      invariant !AnyBreaks(words0, answers[..k])
    {
      var a := answers[k];
      LegacyStep(words0, answers, now, k);
      if !a.hasId {
        assert Breaks(words0, answers[k]);
        return Err(KeyError);
      }
      if a.id.Some? {
        QuizScoring.ApplyAllKeepsEntries(words0, AsAnswers(answers[..k]), now);
        FindWordByIds(words, words0, a.id.value);
        var found := FindWord(words, a.id.value);
        if found.Some? {
          if a.correct.None? {
            assert Breaks(words0, answers[k]);
            return Err(KeyError);
          }
          var i := found.value;
          words := words[i := QuizScoring.Bump(words[i], a.correct.value, now)];
        }
      }
    }
    assert answers[..|answers|] == answers;
    return Ok(words);
  }

  /** Unlike the blueprint's copy, this one writes no log: once an entry
      names an existing word, counters that agreed with the answer log no
      longer do. */
  lemma LegacyFinishBreaksConsistency(words: seq<Word>, log: seq<AnswerLog>, answers: seq<LegacyAnswer>, now: int, i: nat, j: nat)
    requires UniqueWordIds(words)
    requires QuizScoring.ConsistentCounts(words, log)
    requires i < |answers| && j < |words| && answers[i].id == Some(words[j].id)
    ensures !QuizScoring.ConsistentCounts(QuizScoring.ApplyAll(words, AsAnswers(answers), now), log)
  {
    var scored := AsAnswers(answers);
    var id := words[j].id;
    var c := scored[i].correct;
    QuizScoring.ApplyAllScores(words, scored, now, j);
    CountWherePositive(scored, (a: QuizScoring.Answer) => a.wordId == Some(id) && a.correct == c, i);
    var after := QuizScoring.ApplyAll(words, scored, now);
    assert after[j].id == id;
    if c {
      assert OrZero(after[j].correctCount) > QuizScoring.LogHits(log, id, true);
    } else {
      assert OrZero(after[j].wrongCount) > QuizScoring.LogHits(log, id, false);
    }
  }
}
