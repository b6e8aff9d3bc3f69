/** Building a quiz: the settings form, the weighted choice of words with
    their accepted answers (`quiz_take`), and the quick quiz of one list. */
module QuizTaking {
  import opened Wrappers
  import opened Records
  import opened Collections
  import opened RandomOracle
  import opened Sorting
  import Text

  // ---------------------------------------------------------------------------
  // Settings
  // ---------------------------------------------------------------------------

  function ListIdKey(l: WordList): int {
    l.id
  }

  /** The lists offered on the settings page: the user's lists, newest id first. */
  function SettingsLists(lists: seq<WordList>, userId: int): (r: seq<WordList>)
    ensures SortedDescBy(r, ListIdKey)
    ensures forall l :: l in r <==> l in lists && l.userId == userId
  {
    var mine := ListsOfUser(lists, userId);
    var r := SortDesc(mine, ListIdKey);
    SortDescSorted(mine, ListIdKey);
    assert forall l :: l in r <==> l in multiset(mine);
    r
  }

  /** The query string the settings form redirects to. `numWords` is None
      when the field is missing or is not an integer, and the parameter is
      then left out of the URL. */
  datatype TakeQuery = TakeQuery(lists: string, numWords: Option<int>, direction: string)

  /** `quiz_settings` on POST: `selected` are the checked `lists` values. */
  function QuizSettings(selected: seq<string>, numWords: Option<int>, direction: Option<string>): (q: TakeQuery)
    ensures "all" in selected ==> q.lists == "all"
    ensures q.direction == if direction.Some? then direction.value else "mix"
  {
    TakeQuery(Text.ListsParam(selected), numWords, if direction.Some? then direction.value else "mix")
  }

  /** `request.args.get("num_words", type=int, default=5)`. */
  function NumWordsOf(q: TakeQuery): int {
    if q.numWords.Some? then q.numWords.value else 5
  }

  /** The list ids a quiz draws from: the user's lists for "all", otherwise
      the digit tokens of the parameter, whoever owns those lists. */
  function Scope(lists: seq<WordList>, userId: int, listsParam: string): seq<int> {
    if listsParam == "all" then ListIdsOfUser(lists, userId) else Text.ParseListIds(listsParam)
  }

  /** The words a quiz draws from, in table order. */
  function Pool(lists: seq<WordList>, words: seq<Word>, userId: int, listsParam: string): seq<Word> {
    WordsInLists(words, Scope(lists, userId, listsParam))
  }

  /** Selecting lists by id on the settings page makes the quiz draw from
      exactly those ids; the "all" box makes it draw from the user's lists. */
  lemma SettingsScope(lists: seq<WordList>, userId: int, ids: seq<nat>, numWords: Option<int>, direction: Option<string>)
    ensures Scope(lists, userId, QuizSettings(Text.ShowAll(ids), numWords, direction).lists) == ids
    ensures Scope(lists, userId, QuizSettings(Text.ShowAll(ids) + ["all"], numWords, direction).lists) == ListIdsOfUser(lists, userId)
  {
    var shown := Text.ShowAll(ids);
    forall i | 0 <= i < |shown| ensures shown[i] != "all" {
      assert Text.IsDigit(shown[i][0]);
      assert "all"[0] == 'a';
    }
    var p := Text.ListsParam(shown);
    Text.ListsParamRoundTrip(ids);
    Text.SplitNoSep("all", ',');
    assert !Text.IsDigits("all") by {
      assert "all"[0] == 'a';
    }
    assert Text.ParseListIds("all") == [];
    assert p == "all" ==> |ids| == 0;
    assert |ids| == 0 ==> p == "";
    Text.ListsParamRoundTrip(ids);
    assert "all" in shown + ["all"];
  }

  /** Which words a quiz draws from, for the two forms of the parameter. */
  lemma PoolMembers(lists: seq<WordList>, words: seq<Word>, userId: int, listsParam: string, w: Word)
    ensures listsParam == "all" ==>
              (w in Pool(lists, words, userId, listsParam) <==>
               w in words && exists l :: l in lists && l.userId == userId && l.id == w.listId)
    ensures listsParam != "all" ==>
              (w in Pool(lists, words, userId, listsParam) <==> w in words && w.listId in Text.ParseListIds(listsParam))
  {
  }

  // ---------------------------------------------------------------------------
  // Weighting
  // ---------------------------------------------------------------------------

  /** What the model needs of `math.log`: positive above 1 and increasing. */
  ghost predicate IsLog(ln: int -> real) {
    && (forall x :: x >= 2 ==> ln(x) > 0.0)
    && (forall x, y :: 2 <= x < y ==> ln(x) < ln(y))
  }

  /** How many more times the word was answered wrong than right. */
  function Diff(w: Word): int {
    OrZero(w.wrongCount) - OrZero(w.correctCount)
  }

  /** `1 if diff <= 0 else 1 + math.log(1 + diff)`. */
  function Weight(w: Word, ln: int -> real): real {
    var diff := Diff(w);
    if diff <= 0 then 1.0 else 1.0 + ln(1 + diff)
  }

  /** A word never answered wrong more often than right has weight 1; every
      other word weighs more. */
  lemma WeightFacts(w: Word, ln: int -> real)
    requires IsLog(ln)
    ensures Weight(w, ln) >= 1.0
    ensures Weight(w, ln) == 1.0 <==> Diff(w) <= 0
  {
  }

  /** More wrong answers relative to right ones never lower a word's weight,
      and strictly raise it once it is above 1. */
  lemma WeightMonotone(v: Word, w: Word, ln: int -> real)
    requires IsLog(ln)
    requires Diff(v) <= Diff(w)
    ensures Weight(v, ln) <= Weight(w, ln)
    ensures Diff(v) < Diff(w) && Diff(w) > 0 ==> Weight(v, ln) < Weight(w, ln)
  {
    if Diff(v) > 0 && Diff(v) < Diff(w) {
      assert ln(1 + Diff(v)) < ln(1 + Diff(w));
    }
  }

  function Weights(pool: seq<Word>, ln: int -> real): seq<real> {
    seq(|pool|, i requires 0 <= i < |pool| => Weight(pool[i], ln))
  }

  lemma WeightsPositive(pool: seq<Word>, ln: int -> real)
    requires IsLog(ln)
    ensures AllPositive(Weights(pool, ln))
  {
    forall i | 0 <= i < |pool| ensures Weights(pool, ln)[i] > 0.0 {
      WeightFacts(pool[i], ln);
    }
  }

  /** Word `i` of the pool is picked exactly when the scaled draw falls in an
      interval as wide as the word's weight: its chance is its share of the
      total weight. */
  lemma PickChance(pool: seq<Word>, ln: int -> real, u: real, i: nat)
    requires IsLog(ln) && IsUnitDraw(u)
    requires i < |pool|
    ensures var ws := Weights(pool, ln);
            ChosenIndex(ws, u) == i <==> Sum(ws[..i]) <= Scale(u, Sum(ws)) < Sum(ws[..i]) + Weight(pool[i], ln)
  {
    WeightsPositive(pool, ln);
    ChosenIndexInterval(Weights(pool, ln), u, i);
  }

  // ---------------------------------------------------------------------------
  // Questions
  // ---------------------------------------------------------------------------

  /** `{clean(x.translation) for x in all_translations}`: the cleaned
      translations of the words in the pool with this original, all of them
      accepted when the original is asked. */
  function TranslationForms(pool: seq<Word>, original: string): set<string> {
    if |pool| == 0 then {}
    else
      var last := pool[|pool| - 1];
      TranslationForms(pool[..|pool| - 1], original) +
        if last.original == original then {Text.Clean(last.translation)} else {}
  }

  /** `{clean(x.original) for x in all_translations}`: asked for when the
      translation is shown. */
  function OriginalForms(pool: seq<Word>, original: string): set<string> {
    if |pool| == 0 then {}
    else
      var last := pool[|pool| - 1];
      OriginalForms(pool[..|pool| - 1], original) +
        if last.original == original then {Text.Clean(last.original)} else {}
  }

  lemma {:induction false} TranslationFormsMembers(pool: seq<Word>, original: string, a: string)
    ensures a in TranslationForms(pool, original) <==>
            exists w :: w in pool && w.original == original && a == Text.Clean(w.translation)
  {
    if |pool| > 0 {
      var init := pool[..|pool| - 1];
      var last := pool[|pool| - 1];
      TranslationFormsMembers(init, original, a);
      assert pool == init + [last];
      if a in TranslationForms(pool, original) {
        if a in TranslationForms(init, original) {
          var w :| w in init && w.original == original && a == Text.Clean(w.translation);
          assert w in pool;
        } else {
          assert last in pool;
        }
      }
      if exists w :: w in pool && w.original == original && a == Text.Clean(w.translation) {
        var w :| w in pool && w.original == original && a == Text.Clean(w.translation);
        if w != last {
          assert w in init;
        }
      }
    }
  }

  lemma {:induction false} OriginalFormsMembers(pool: seq<Word>, original: string, a: string)
    ensures a in OriginalForms(pool, original) <==>
            exists w :: w in pool && w.original == original && a == Text.Clean(w.original)
  {
    if |pool| > 0 {
      var init := pool[..|pool| - 1];
      var last := pool[|pool| - 1];
      OriginalFormsMembers(init, original, a);
      assert pool == init + [last];
      if a in OriginalForms(pool, original) {
        if a in OriginalForms(init, original) {
          var w :| w in init && w.original == original && a == Text.Clean(w.original);
          assert w in pool;
        } else {
          assert last in pool;
        }
      }
      if exists w :: w in pool && w.original == original && a == Text.Clean(w.original) {
        var w :| w in pool && w.original == original && a == Text.Clean(w.original);
        if w != last {
          assert w in init;
        }
      }
    }
  }

  /** One entry of `quiz_data`. */
  datatype Question = Question(id: int, question: string, answers: seq<string>, wrongCount: int, correctCount: int)

  /** `flash("Inga ord i de valda listorna.")` and back to the settings. */
  datatype QuizError = NoWords

  /** A direction other than "sv_en" and "en_sv" mixes both. */
  predicate IsMix(direction: string) {
    direction != "sv_en" && direction != "en_sv"
  }

  function QuestionCount(numWords: int): nat {
    if numWords < 0 then 0 else numWords
  }

  /** `random()` calls made: one per pick, then one per question when mixing. */
  function DrawsNeeded(numWords: int, direction: string): nat {
    QuestionCount(numWords) + if IsMix(direction) then QuestionCount(numWords) else 0
  }

  /** Whether a question shows the translation (Swedish) and asks for the
      original; `coin` is the `random()` value a mix draws for it. */
  predicate Shows(direction: string, coin: real) {
    direction == "sv_en" || (direction != "en_sv" && coin < 0.5)
  }

  /** The coin of question `i`: in a mix, the draw after the `k` picks. */
  function CoinFor(direction: string, draws: seq<real>, k: nat, i: nat): real
    requires IsMix(direction) ==> k + i < |draws|
  {
    if IsMix(direction) then draws[k + i] else 0.0
  }

  /** `q` asks about word `w` in the given direction and accepts every
      cleaned form of the answer, each once. */
  ghost predicate QuestionFor(q: Question, w: Word, pool: seq<Word>, showsTranslation: bool) {
    && q.id == w.id
    && q.wrongCount == OrZero(w.wrongCount)
    && q.correctCount == OrZero(w.correctCount)
    && Distinct(q.answers)
    && if showsTranslation then
         q.question == Text.Strip(w.translation) &&
         forall a :: a in q.answers <==> a in OriginalForms(pool, w.original)
       else
         q.question == Text.Strip(w.original) &&
         forall a :: a in q.answers <==> a in TranslationForms(pool, w.original)
  }

  /** The body of the question loop of `quiz_take` for one picked word;
      `coin` is the `random()` value a mix draws for it. */
  method BuildQuestion(w: Word, pool: seq<Word>, direction: string, coin: real) returns (q: Question)
    ensures QuestionFor(q, w, pool, Shows(direction, coin))
  {
    var eng := Text.Strip(w.original);
    var swe := Text.Strip(w.translation);
    var formsTranslation := ListOfSet(TranslationForms(pool, w.original));
    var formsOriginal := ListOfSet(OriginalForms(pool, w.original));
    var question, answers;
    if direction == "sv_en" {
      question, answers := swe, formsOriginal;
    } else if direction == "en_sv" {
      question, answers := eng, formsTranslation;
    } else if coin < 0.5 {
      question, answers := swe, formsOriginal;
    } else {
      question, answers := eng, formsTranslation;
    }
    q := Question(w.id, question, answers, OrZero(w.wrongCount), OrZero(w.correctCount));
  }

  /** The weighting loop of `quiz_take`. */
  method WeightsOf(pool: seq<Word>, ln: int -> real) returns (weights: seq<real>)
    ensures weights == Weights(pool, ln)
  {
    weights := [];
    for i := 0 to |pool|
      invariant |weights| == i
      invariant forall j :: 0 <= j < i ==> weights[j] == Weight(pool[j], ln)
    {
      weights := weights + [Weight(pool[i], ln)];
    }
  }

  /** The question loop of `quiz_take` over the picked words. */
  method BuildQuiz(selected: seq<Word>, pool: seq<Word>, direction: string, draws: seq<real>) returns (quiz: seq<Question>)
    requires IsMix(direction) ==> 2 * |selected| <= |draws|
    ensures |quiz| == |selected|
    ensures forall j :: 0 <= j < |quiz| ==>
              QuestionFor(quiz[j], selected[j], pool, Shows(direction, CoinFor(direction, draws, |selected|, j)))
  {
    var k := |selected|;
    quiz := [];
    for i := 0 to k
      invariant |quiz| == i
      invariant forall j :: 0 <= j < i ==>
                  QuestionFor(quiz[j], selected[j], pool, Shows(direction, CoinFor(direction, draws, k, j)))
    {
      var coin := CoinFor(direction, draws, k, i);
      var q := BuildQuestion(selected[i], pool, direction, coin);
      quiz := quiz + [q];
    }
  }

  /** `quiz_take`: `numWords` weighted picks with repetition from the pool,
      each turned into a question. `draws` are the values `random()` returns,
      in the order they are called. */
  method QuizTake(lists: seq<WordList>, words: seq<Word>, userId: int, listsParam: string, numWords: int,
                  direction: string, ln: int -> real, draws: seq<real>)
    returns (r: Result<seq<Question>, QuizError>)
    requires IsLog(ln)
    requires forall j :: 0 <= j < |draws| ==> IsUnitDraw(draws[j])
    requires DrawsNeeded(numWords, direction) <= |draws|
    ensures var pool := Pool(lists, words, userId, listsParam);
            (r.Err? <==> pool == []) &&
            (r.Ok? ==>
               |r.value| == QuestionCount(numWords) &&
               forall i :: 0 <= i < |r.value| ==>
                 QuestionFor(r.value[i], pool[ChosenIndex(Weights(pool, ln), draws[i])], pool,
                             Shows(direction, CoinFor(direction, draws, QuestionCount(numWords), i))))
  {
    var scope := Scope(lists, userId, listsParam);
    var pool := WordsInLists(words, scope);
    if pool == [] {
      return Err(NoWords);
    }
    var weights := WeightsOf(pool, ln);
    WeightsPositive(pool, ln);
    var selected := Choices(pool, weights, numWords, draws);
    var quiz := BuildQuiz(selected, pool, direction, draws);
    return Ok(quiz);
  }

  /** The answer key accepts the word's own answer, cleaned. */
  lemma QuestionAcceptsOwn(q: Question, w: Word, pool: seq<Word>, showsTranslation: bool)
    requires w in pool
    requires QuestionFor(q, w, pool, showsTranslation)
    ensures showsTranslation ==> Text.Clean(w.original) in q.answers
    ensures !showsTranslation ==> Text.Clean(w.translation) in q.answers
  {
    OriginalFormsMembers(pool, w.original, Text.Clean(w.original));
    TranslationFormsMembers(pool, w.original, Text.Clean(w.translation));
  }

  /** A question that shows the translation has exactly one accepted answer:
      every word of the group has the same original. */
  lemma SingleOriginalAnswer(q: Question, w: Word, pool: seq<Word>)
    requires w in pool
    requires QuestionFor(q, w, pool, true)
    ensures q.answers == [Text.Clean(w.original)]
  {
    var c := Text.Clean(w.original);
    forall j | 0 <= j < |q.answers| ensures q.answers[j] == c {
      assert q.answers[j] in q.answers;
      OriginalFormsMembers(pool, w.original, q.answers[j]);
    }
    OriginalFormsMembers(pool, w.original, c);
    Collections.DistinctConstant(q.answers, c);
  }

  /** Asking for the translation accepts the translation of every word with
      the same original in the pool. */
  lemma SynonymsAccepted(q: Question, v: Word, w: Word, pool: seq<Word>)
    requires v in pool && w in pool && v.original == w.original
    requires QuestionFor(q, w, pool, false)
    ensures Text.Clean(v.translation) in q.answers
  {
    TranslationFormsMembers(pool, w.original, Text.Clean(v.translation));
  }

  // ---------------------------------------------------------------------------
  // Quick quiz
  // ---------------------------------------------------------------------------

  const QuizSize: nat := 11

  /** What `quick_quiz` stores in the session for the quiz page. */
  datatype QuickQuizSession = QuickQuizSession(wordIds: seq<int>, listName: string)

  /** `get_or_404`, `abort(403)`, and the flash for an empty list; the model
      reports a draw list that runs out as `DrawsExhausted`. */
  datatype QuickError = ListNotFound | Forbidden | EmptyList | DrawsExhausted

  function WordIds(ws: seq<Word>): (ids: seq<int>)
    ensures |ids| == |ws|
    ensures forall i :: 0 <= i < |ws| ==> ids[i] == ws[i].id
  {
    seq(|ws|, i requires 0 <= i < |ws| => ws[i].id)
  }

  /** The eleven words of a quick quiz: `random.sample` when the list has
      enough words, else `random.choice` eleven times. None when the draws
      run out. */
  method PickWords(ws: seq<Word>, draws: seq<nat>) returns (r: Option<seq<Word>>)
    requires |ws| > 0
    ensures r.Some? ==> |r.value| == QuizSize && forall w :: w in r.value ==> w in ws
    ensures r.Some? && |ws| >= QuizSize ==> multiset(r.value) <= multiset(ws)
    ensures r.None? ==> |draws| < QuizSize || |ws| > SetSize(QuizSize)
  {
    if |ws| >= QuizSize {
      var sample := Sample(ws, QuizSize, draws);
      if sample.None? {
        return None;
      }
      SampleMembers(sample.value, ws);
      return sample;
    }
    if |draws| < QuizSize {
      return None;
    }
    var selected := [];
    for i := 0 to QuizSize
      invariant |selected| == i
      invariant forall w :: w in selected ==> w in ws
    {
      selected := selected + [Choice(ws, draws[i])];
    }
    return Some(selected);
  }

  /** The ids of words drawn from `ws` are ids of `ws`. */
  lemma IdsOfMembers(selected: seq<Word>, ws: seq<Word>)
    requires forall w :: w in selected ==> w in ws
    ensures forall id :: id in WordIds(selected) ==> id in WordIds(ws)
  {
    var ids := WordIds(selected);
    forall id | id in ids ensures id in WordIds(ws) {
      var i :| 0 <= i < |ids| && ids[i] == id;
      assert selected[i] in ws;
      var j :| 0 <= j < |ws| && ws[j] == selected[i];
      assert WordIds(ws)[j] == id;
    }
  }

  /** `quick_quiz(list_id)`: eleven words of one of the user's lists, all
      different when the list has at least eleven, otherwise picked with
      repetition. `draws` are the values `randbelow` returns. */
  method QuickQuiz(lists: seq<WordList>, words: seq<Word>, userId: int, listId: int, draws: seq<nat>)
    returns (r: Result<QuickQuizSession, QuickError>)
    ensures r == Err(ListNotFound) <==> ListById(lists, listId).None?
    ensures r == Err(Forbidden) <==> ListById(lists, listId).Some? && ListById(lists, listId).value.userId != userId
    ensures r == Err(EmptyList) <==>
              ListById(lists, listId).Some? && ListById(lists, listId).value.userId == userId &&
              WordsOfList(words, listId) == []
    ensures r.Ok? ==>
              |r.value.wordIds| == QuizSize &&
              r.value.listName == ListById(lists, listId).value.name &&
              forall id :: id in r.value.wordIds ==> id in WordIds(WordsOfList(words, listId))
    ensures r.Ok? && |WordsOfList(words, listId)| >= QuizSize && UniqueWordIds(words) ==> Distinct(r.value.wordIds)
    ensures r == Err(DrawsExhausted) ==> |draws| < QuizSize || |WordsOfList(words, listId)| > SetSize(QuizSize)
  {
    var found := ListById(lists, listId);
    if found.None? {
      return Err(ListNotFound);
    }
    var wordlist := found.value;
    if wordlist.userId != userId {
      return Err(Forbidden);
    }
    var ws := WordsOfList(words, listId);
    if |ws| == 0 {
      return Err(EmptyList);
    }
    var picked := PickWords(ws, draws);
    if picked.None? {
      return Err(DrawsExhausted);
    }
    var selected := picked.value;
    if |ws| >= QuizSize && UniqueWordIds(words) {
      WordsInListsUnique(words, [listId]);
      UniqueIdsDistinct(ws);
      SubMultisetDistinct(selected, ws);
      DistinctWordsDistinctIds(selected, ws);
    }
    var ids := WordIds(selected);
    IdsOfMembers(selected, ws);
    return Ok(QuickQuizSession(ids, wordlist.name));
  }

  lemma UniqueIdsDistinct(ws: seq<Word>)
    requires UniqueWordIds(ws)
    ensures Distinct(ws)
  {
    forall i, j | 0 <= i < j < |ws| ensures ws[i] != ws[j] {
      assert ws[i].id != ws[j].id;
    }
  }

  /** Different words of a list with unique keys have different ids. */
  lemma DistinctWordsDistinctIds(selected: seq<Word>, ws: seq<Word>)
    requires UniqueWordIds(ws) && Distinct(selected)
    requires forall w :: w in selected ==> w in ws
    ensures Distinct(WordIds(selected))
  {
    forall i, j | 0 <= i < j < |selected| ensures selected[i].id != selected[j].id {
      assert selected[i] in ws && selected[j] in ws;
      var p :| 0 <= p < |ws| && ws[p] == selected[i];
      var q :| 0 <= q < |ws| && ws[q] == selected[j];
      assert p != q;
    }
  }
}
