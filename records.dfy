/** The tables the quiz engine reads and writes: words, word lists, quiz
    results and the per-question answer log, and the database session that
    holds them. Timestamps are whole seconds and a calendar day is a day number. */
module Records {
  import opened Wrappers

  /** A row of the `word` table. The two counters and `last_wrong` are nullable
      columns, so each is an Option; `listId` names the owning word list. */
  datatype Word = Word(
    id: int,
    original: string,
    translation: string,
    correctCount: Option<int>,
    wrongCount: Option<int>,
    lastWrong: Option<int>,
    listId: int)

  /** A row of the `word_list` table. */
  datatype WordList = WordList(id: int, name: string, userId: int)

  /** A row of the `quiz_result` table: the totals the client reported for one quiz. */
  datatype QuizResult = QuizResult(id: int, userId: int, correctCount: int, totalQuestions: int)

  /** A row of the `quiz_answer_log` table: one answered question. */
  datatype AnswerLog = AnswerLog(
    userId: int,
    quizResultId: int,
    wordId: int,
    userAnswer: string,
    isCorrect: bool,
    timestamp: int)

  /** Python's `x or 0` on a nullable integer column. */
  function OrZero(o: Option<int>): (n: int)
    ensures o.None? ==> n == 0
    ensures o.Some? ==> n == o.value
  {
    match o
    case None => 0
    case Some(v) => v
  }

  const SecondsPerDay: int := 86400

  /** The calendar day (UTC) of a timestamp: `timestamp.date()`. */
  function Day(ts: int): (d: int)
    ensures d * SecondsPerDay <= ts < (d + 1) * SecondsPerDay
  {
    ts / SecondsPerDay
  }

  lemma DayMonotone(a: int, b: int)
    requires a <= b
    ensures Day(a) <= Day(b)
  {
  }

  /** Primary keys are unique. */
  predicate UniqueWordIds(words: seq<Word>) {
    forall i, j :: 0 <= i < j < |words| ==> words[i].id != words[j].id
  }

  /** `Word.query.get(id)`: the position of the row with that primary key. */
  function FindWord(words: seq<Word>, id: int): (r: Option<nat>)
    ensures r.Some? ==> r.value < |words| && words[r.value].id == id
    ensures r.None? <==> forall i :: 0 <= i < |words| ==> words[i].id != id
  {
    if |words| == 0 then None
    else if words[0].id == id then Some(0)
    else match FindWord(words[1..], id)
      case None => None
      case Some(i) => Some(i + 1)
  }

  /** With unique keys the row found is the only one with that key. */
  lemma FindWordUnique(words: seq<Word>, i: nat)
    requires UniqueWordIds(words)
    requires i < |words|
    ensures FindWord(words, words[i].id) == Some(i)
  {
  }

  /** The primary keys, in table order. */
  function Ids(words: seq<Word>): (ids: seq<int>)
    ensures |ids| == |words|
    ensures forall i :: 0 <= i < |words| ==> ids[i] == words[i].id
  {
    seq(|words|, i requires 0 <= i < |words| => words[i].id)
  }

  /** The lookup depends on the primary keys only. */
  lemma FindWordByIds(a: seq<Word>, b: seq<Word>, id: int)
    requires Ids(a) == Ids(b)
    ensures FindWord(a, id) == FindWord(b, id)
  {
    assert |a| == |Ids(a)| == |b|;
    if |a| > 0 {
      assert a[0].id == Ids(a)[0] == b[0].id;
      assert Ids(a[1..]) == Ids(a)[1..] == Ids(b)[1..] == Ids(b[1..]);
      FindWordByIds(a[1..], b[1..], id);
    }
  }

  /** Key uniqueness depends on the keys only. */
  lemma UniqueByIds(a: seq<Word>, b: seq<Word>)
    requires Ids(a) == Ids(b)
    requires UniqueWordIds(a)
    ensures UniqueWordIds(b)
  {
    forall i, j | 0 <= i < j < |b| ensures b[i].id != b[j].id {
      assert |a| == |Ids(a)| == |b|;
      assert a[i].id == Ids(a)[i] && a[j].id == Ids(a)[j];
    }
  }

  /** The words whose list is one of `listIds`, in table order:
      `Word.query.filter(Word.list_id.in_(list_ids))`. */
  function WordsInLists(words: seq<Word>, listIds: seq<int>): (r: seq<Word>)
    ensures |r| <= |words|
    ensures forall w :: w in r <==> w in words && w.listId in listIds
  {
    if |words| == 0 then []
    else if words[0].listId in listIds then [words[0]] + WordsInLists(words[1..], listIds)
    else WordsInLists(words[1..], listIds)
  }

  /** Filtering keeps primary keys unique. */
  lemma {:induction false} WordsInListsUnique(words: seq<Word>, listIds: seq<int>)
    requires UniqueWordIds(words)
    ensures UniqueWordIds(WordsInLists(words, listIds))
  {
    if |words| > 0 {
      var rest := WordsInLists(words[1..], listIds);
      assert UniqueWordIds(words[1..]);
      WordsInListsUnique(words[1..], listIds);
      forall w | w in rest ensures w.id != words[0].id {
        var j :| 0 <= j < |words[1..]| && words[1..][j] == w;
        assert words[j + 1] == w;
      }
    }
  }

  /** The words of one list: the `wordlist.words` relationship. */
  function WordsOfList(words: seq<Word>, listId: int): (r: seq<Word>)
    ensures forall w :: w in r <==> w in words && w.listId == listId
  {
    WordsInLists(words, [listId])
  }

  /** The ids of a user's lists, in table order. */
  function ListIdsOfUser(lists: seq<WordList>, userId: int): (ids: seq<int>)
    ensures forall id :: id in ids <==> exists l :: l in lists && l.userId == userId && l.id == id
  {
    if |lists| == 0 then []
    else if lists[0].userId == userId then [lists[0].id] + ListIdsOfUser(lists[1..], userId)
    else ListIdsOfUser(lists[1..], userId)
  }

  /** `WordList.query.get(id)`: the list with that primary key, if any. */
  function ListById(lists: seq<WordList>, id: int): (r: Option<WordList>)
    ensures r.Some? ==> r.value in lists && r.value.id == id
    ensures r.None? <==> forall l :: l in lists ==> l.id != id
  {
    if |lists| == 0 then None
    else if lists[0].id == id then Some(lists[0])
    else ListById(lists[1..], id)
  }

  /** A user's lists: `WordList.query.filter_by(user_id=...)`. */
  function ListsOfUser(lists: seq<WordList>, userId: int): (r: seq<WordList>)
    ensures forall l :: l in r <==> l in lists && l.userId == userId
  {
    if |lists| == 0 then []
    else if lists[0].userId == userId then [lists[0]] + ListsOfUser(lists[1..], userId)
    else ListsOfUser(lists[1..], userId)
  }

  /** The rows of one user's answer log, in table order. */
  function RowsOfUser(log: seq<AnswerLog>, userId: int): (r: seq<AnswerLog>)
    ensures |r| <= |log|
    ensures forall row :: row in r <==> row in log && row.userId == userId
  {
    if |log| == 0 then []
    else if log[0].userId == userId then [log[0]] + RowsOfUser(log[1..], userId)
    else RowsOfUser(log[1..], userId)
  }

  /** One more than the largest key in use: the next autoincrement value. */
  function NextWordId(words: seq<Word>): (n: int)
    ensures forall i :: 0 <= i < |words| ==> words[i].id < n
  {
    if |words| == 0 then 1
    else
      var rest := NextWordId(words[1..]);
      if words[0].id < rest then rest else words[0].id + 1
  }

  function NextListId(lists: seq<WordList>): (n: int)
    ensures forall i :: 0 <= i < |lists| ==> lists[i].id < n
  {
    if |lists| == 0 then 1
    else
      var rest := NextListId(lists[1..]);
      if lists[0].id < rest then rest else lists[0].id + 1
  }

  function NextResultId(results: seq<QuizResult>): (n: int)
    ensures forall i :: 0 <= i < |results| ==> results[i].id < n
  {
    if |results| == 0 then 1
    else
      var rest := NextResultId(results[1..]);
      if results[0].id < rest then rest else results[0].id + 1
  }

  /** The database session: the four tables as the requests see them. A
      commit replaces the tables as a whole. */
  class Database {
    var lists: seq<WordList>
    var words: seq<Word>
    var results: seq<QuizResult>
    var log: seq<AnswerLog>

    /** Word ids are primary keys. */
    ghost predicate Valid()
      reads this
    {
      UniqueWordIds(words)
    }

    constructor (lists: seq<WordList>, words: seq<Word>)
      requires UniqueWordIds(words)
      ensures Valid()
      ensures this.lists == lists && this.words == words && results == [] && log == []
    {
      this.lists := lists;
      this.words := words;
      results := [];
      log := [];
    }
  }
}
