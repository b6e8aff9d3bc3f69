/** The answer-log analytics: per-word tallies, the hardest words, results per
    day and daily streaks. Each reads one user's rows of the answer log. */
module Analytics {
  import opened Wrappers
  import opened Records
  import opened Collections
  import opened Sorting
  import Text

  // ---------------------------------------------------------------------------
  // Per-word statistics
  // ---------------------------------------------------------------------------

  function CorrectOf(id: int): AnswerLog -> bool {
    (row: AnswerLog) => row.wordId == id && row.isCorrect
  }

  function WrongOf(id: int): AnswerLog -> bool {
    (row: AnswerLog) => row.wordId == id && !row.isCorrect
  }

  function AttemptOf(id: int): AnswerLog -> bool {
    (row: AnswerLog) => row.wordId == id
  }

  /** The timestamp of the last wrong answer to word `id` in the order the
      rows are read. */
  function LastWrongAt(rows: seq<AnswerLog>, id: int): Option<int> {
    if |rows| == 0 then None
    else if WrongOf(id)(rows[|rows| - 1]) then Some(rows[|rows| - 1].timestamp)
    else LastWrongAt(rows[..|rows| - 1], id)
  }

  /** One entry of the `stats` dict. */
  datatype WordStat = WordStat(wordId: int, correct: nat, wrong: nat, lastWrong: Option<int>)

  /** The entry the loop builds for word `id` from `rows`. */
  function StatOf(rows: seq<AnswerLog>, id: int): WordStat {
    WordStat(id, CountWhere(rows, CorrectOf(id)), CountWhere(rows, WrongOf(id)), LastWrongAt(rows, id))
  }

  /** One row added to an entry: a correct answer counts as correct, a wrong
      one counts as wrong and becomes the last wrong answer. */
  function Tally(s: WordStat, row: AnswerLog): WordStat {
    if row.isCorrect then s.(correct := s.correct + 1)
    else s.(wrong := s.wrong + 1, lastWrong := Some(row.timestamp))
  }

  function WordIds(rows: seq<AnswerLog>): (ids: seq<int>)
    ensures |ids| == |rows|
    ensures forall i :: 0 <= i < |rows| ==> ids[i] == rows[i].wordId
  {
    seq(|rows|, i requires 0 <= i < |rows| => rows[i].wordId)
  }

  lemma {:induction false} StatStep(rows: seq<AnswerLog>, i: nat, id: int)
    requires i < |rows|
    ensures StatOf(rows[..i + 1], id) ==
            if rows[i].wordId == id then Tally(StatOf(rows[..i], id), rows[i]) else StatOf(rows[..i], id)
  {
    assert rows[..i + 1][..i] == rows[..i];
  }

  /** A word without rows has an empty entry. */
  lemma {:induction false} StatOfAbsent(rows: seq<AnswerLog>, id: int)
    requires id !in WordIds(rows)
    ensures StatOf(rows, id) == WordStat(id, 0, 0, None)
  {
    if |rows| > 0 {
      var init := rows[..|rows| - 1];
      assert WordIds(rows)[|rows| - 1] == rows[|rows| - 1].wordId;
      assert WordIds(init) == WordIds(rows)[..|rows| - 1];
      StatOfAbsent(init, id);
    }
  }

  /** `order` and `stats` are the key order and the dict after reading `rows`. */
  ghost predicate Tallied(rows: seq<AnswerLog>, order: seq<int>, stats: map<int, WordStat>) {
    && order == FirstSeen(WordIds(rows))
    && (forall id :: id in stats <==> id in order)
    && (forall id :: id in stats ==> stats[id] == StatOf(rows, id))
  }

  /** The dict after one more row: a new key starts empty, then the row is tallied. */
  function Counted(stats: map<int, WordStat>, row: AnswerLog): map<int, WordStat> {
    var s := if row.wordId in stats then stats[row.wordId] else WordStat(row.wordId, 0, 0, None);
    stats[row.wordId := Tally(s, row)]
  }

  function Appended(order: seq<int>, id: int): seq<int> {
    if id in order then order else order + [id]
  }

  /** The dict update written as the loop does it: insert, then tally. */
  lemma CountedUnfold(stats: map<int, WordStat>, row: AnswerLog)
    ensures var m := if row.wordId in stats then stats else stats[row.wordId := WordStat(row.wordId, 0, 0, None)];
            Counted(stats, row) == m[row.wordId := Tally(m[row.wordId], row)]
  {
  }

  lemma TallyStep(rows: seq<AnswerLog>, i: nat, order: seq<int>, stats: map<int, WordStat>)
    requires i < |rows|
    requires Tallied(rows[..i], order, stats)
    ensures Tallied(rows[..i + 1], Appended(order, rows[i].wordId), Counted(stats, rows[i]))
  {
    var row := rows[i];
    assert Appended(order, row.wordId) == FirstSeen(WordIds(rows[..i + 1])) by {
      assert WordIds(rows[..i + 1]) == WordIds(rows[..i]) + [row.wordId];
      FirstSeenAppend(WordIds(rows[..i]), row.wordId);
    }
    TallySetsStep(rows, i, order, stats);
  }

  lemma TallySetsStep(rows: seq<AnswerLog>, i: nat, order: seq<int>, stats: map<int, WordStat>)
    requires i < |rows|
    requires Tallied(rows[..i], order, stats)
    ensures var stats' := Counted(stats, rows[i]);
            forall id :: id in stats' ==> stats'[id] == StatOf(rows[..i + 1], id)
  {
    var row := rows[i];
    if row.wordId !in stats {
      StatOfAbsent(rows[..i], row.wordId);
    }
    var stats' := Counted(stats, row);
    forall id | id in stats' ensures stats'[id] == StatOf(rows[..i + 1], id) {
      StatStep(rows, i, id);
    }
  }

  /** `get_word_statistics`: the dict of per-word entries, with its keys in
      the order the loop first meets them. */
  method WordStatistics(log: seq<AnswerLog>, userId: int) returns (order: seq<int>, stats: map<int, WordStat>)
    ensures order == FirstSeen(WordIds(RowsOfUser(log, userId)))
    ensures forall id :: id in stats <==> id in order
    ensures forall id :: id in stats ==> stats[id] == StatOf(RowsOfUser(log, userId), id)
  {
    var rows := RowsOfUser(log, userId);
    order := [];
    stats := map[];
    for i := 0 to |rows|
      invariant Tallied(rows[..i], order, stats)
    {
      var row := rows[i];
      TallyStep(rows, i, order, stats);
      CountedUnfold(stats, row);
      if row.wordId !in stats {
        stats := stats[row.wordId := WordStat(row.wordId, 0, 0, None)];
        order := order + [row.wordId];
      }
      stats := stats[row.wordId := Tally(stats[row.wordId], row)];
    }
    assert rows[..|rows|] == rows;
  }

  /** Every row of a word is either correct or wrong. */
  lemma {:induction false} StatAttempts(rows: seq<AnswerLog>, id: int)
    ensures StatOf(rows, id).correct + StatOf(rows, id).wrong == CountWhere(rows, AttemptOf(id))
  {
    if |rows| > 0 {
      StatAttempts(rows[..|rows| - 1], id);
    }
  }

  /** A word has an entry exactly when it has at least one row. */
  lemma {:induction false} StatKeys(rows: seq<AnswerLog>, id: int)
    ensures id in FirstSeen(WordIds(rows)) <==> CountWhere(rows, AttemptOf(id)) >= 1
  {
    if |rows| > 0 {
      var init := rows[..|rows| - 1];
      assert WordIds(init) == WordIds(rows)[..|rows| - 1];
      assert WordIds(rows) == WordIds(init) + [rows[|rows| - 1].wordId];
      StatKeys(init, id);
    }
  }

  /** The last wrong time is missing exactly when the word has no wrong row. */
  lemma {:induction false} LastWrongMissing(rows: seq<AnswerLog>, id: int)
    ensures LastWrongAt(rows, id).None? <==> CountWhere(rows, WrongOf(id)) == 0
  {
    if |rows| > 0 {
      LastWrongMissing(rows[..|rows| - 1], id);
    }
  }

  /** The last wrong time is that of the last wrong row in reading order; the
      rows come unordered, so it need not be the latest timestamp. */
  lemma {:induction false} LastWrongIsLastRow(rows: seq<AnswerLog>, id: int)
    requires LastWrongAt(rows, id).Some?
    ensures exists j :: 0 <= j < |rows| && WrongOf(id)(rows[j]) &&
              rows[j].timestamp == LastWrongAt(rows, id).value &&
              forall k :: j < k < |rows| ==> !WrongOf(id)(rows[k])
  {
    var n := |rows|;
    if WrongOf(id)(rows[n - 1]) {
      assert WrongOf(id)(rows[n - 1]) && rows[n - 1].timestamp == LastWrongAt(rows, id).value;
    } else {
      var init := rows[..n - 1];
      LastWrongIsLastRow(init, id);
      var j :| 0 <= j < |init| && WrongOf(id)(init[j]) &&
               init[j].timestamp == LastWrongAt(init, id).value &&
               forall k :: j < k < |init| ==> !WrongOf(id)(init[k]);
      assert rows[j] == init[j];
      forall k | j < k < n ensures !WrongOf(id)(rows[k]) {
        if k < n - 1 {
          assert rows[k] == init[k];
        }
      }
    }
  }

  // ---------------------------------------------------------------------------
  // Hardest words
  // ---------------------------------------------------------------------------

  /** One entry of the hardest-words list; `lastWrong` is the time the
      "%d %b" label is printed from, or None for the "–" label. */
  datatype HardEntry = HardEntry(original: string, translation: string, correct: nat, wrong: nat, lastWrong: Option<int>)

  function WrongKey(e: HardEntry): int {
    e.wrong
  }

  function EntryFor(w: Word, s: WordStat): HardEntry {
    HardEntry(w.original, w.translation, s.correct, s.wrong, s.lastWrong)
  }

  /** Whether the word with this id still exists. */
  function Known(words: seq<Word>): int -> bool {
    id => FindWord(words, id).Some?
  }

  /** The entries built for the word ids `ids` in turn, skipping ids whose word
      no longer exists. */
  function Entries(words: seq<Word>, ids: seq<int>, rows: seq<AnswerLog>): (r: seq<HardEntry>)
    ensures |r| == CountWhere(ids, Known(words))
  {
    if |ids| == 0 then []
    else
      var init := Entries(words, ids[..|ids| - 1], rows);
      var id := ids[|ids| - 1];
      match FindWord(words, id)
      case None => init
      case Some(p) => init + [EntryFor(words[p], StatOf(rows, id))]
  }

  /** Every entry describes an existing word with that word's tallies. */
  lemma {:induction false} EntriesDescribeWords(words: seq<Word>, ids: seq<int>, rows: seq<AnswerLog>, e: HardEntry)
    requires e in Entries(words, ids, rows)
    ensures exists id, p :: id in ids && FindWord(words, id) == Some(p) && e == EntryFor(words[p], StatOf(rows, id))
  {
    var n := |ids|;
    var init := Entries(words, ids[..n - 1], rows);
    var id := ids[n - 1];
    if e in init {
      EntriesDescribeWords(words, ids[..n - 1], rows, e);
      var id', p' :| id' in ids[..n - 1] && FindWord(words, id') == Some(p') && e == EntryFor(words[p'], StatOf(rows, id'));
      assert id' in ids;
    } else {
      var p := FindWord(words, id).value;
      assert e == EntryFor(words[p], StatOf(rows, id));
    }
  }

  /** `get_hardest_words(user_id, limit)`: the entries of the words that still
      exist, sorted by descending wrong count with ties in dict order, cut to
      `limit`. */
  method HardestWords(words: seq<Word>, log: seq<AnswerLog>, userId: int, limit: int) returns (r: seq<HardEntry>)
    ensures var rows := RowsOfUser(log, userId);
            r == Text.Take(SortDesc(Entries(words, FirstSeen(WordIds(rows)), rows), WrongKey), limit)
  {
    var order, stats := WordStatistics(log, userId);
    var result := CollectEntries(words, order, stats, RowsOfUser(log, userId));
    var sorted := SortDesc(result, WrongKey);
    r := Text.Take(sorted, limit);
  }

  /** The loop over the dict: one entry per key whose word still exists. */
  method CollectEntries(words: seq<Word>, order: seq<int>, stats: map<int, WordStat>, ghost rows: seq<AnswerLog>)
    returns (result: seq<HardEntry>)
    requires forall id :: id in order ==> id in stats && stats[id] == StatOf(rows, id)
    ensures result == Entries(words, order, rows)
  {
    result := [];
    for i := 0 to |order|
      invariant result == Entries(words, order[..i], rows)
    {
      var id := order[i];
      assert order[..i + 1][..i] == order[..i];
      match FindWord(words, id)
      case None =>
      case Some(p) =>
        result := result + [EntryFor(words[p], stats[id])];
    }
    assert order[..|order|] == order;
  }

  /** What the hardest-words list promises: at most `limit` entries, by
      descending wrong count, each the first entries of the stable sort of
      all entries of existing words. */
  lemma HardestWordsShape(entries: seq<HardEntry>, limit: int)
    ensures var r := Text.Take(SortDesc(entries, WrongKey), limit);
            (limit >= 0 ==> |r| <= limit) &&
            SortedDescBy(r, WrongKey) &&
            multiset(r) <= multiset(entries) &&
            (limit >= |entries| ==> multiset(r) == multiset(entries))
  {
    var sorted := SortDesc(entries, WrongKey);
    var r := Text.Take(sorted, limit);
    assert SortedDescBy(r, WrongKey) by {
      SortDescSorted(entries, WrongKey);
      forall i, j | 0 <= i < j < |r| ensures WrongKey(r[i]) >= WrongKey(r[j]) {
        assert r[i] == sorted[i] && r[j] == sorted[j];
      }
    }
    assert multiset(r) <= multiset(entries) by {
      assert sorted == r + sorted[|r|..];
      assert multiset(sorted) == multiset(r) + multiset(sorted[|r|..]);
    }
    if limit >= |entries| {
      assert r == sorted;
    }
  }

  /** The list really is the top of the ranking: the entries the slice cuts
      off are the rest of the joined entries, and none of them has more wrong
      answers than any entry kept. */
  lemma HardestWordsTop(entries: seq<HardEntry>, limit: int)
    ensures var sorted := SortDesc(entries, WrongKey);
            var r := Text.Take(sorted, limit);
            multiset(r) + multiset(sorted[|r|..]) == multiset(entries) &&
            forall e, f :: e in r && f in sorted[|r|..] ==> WrongKey(f) <= WrongKey(e)
  {
    var sorted := SortDesc(entries, WrongKey);
    var r := Text.Take(sorted, limit);
    var rest := sorted[|r|..];
    assert sorted == r + rest;
    assert multiset(sorted) == multiset(r) + multiset(rest);
    forall e, f | e in r && f in rest ensures WrongKey(f) <= WrongKey(e) {
      SortDescSorted(entries, WrongKey);
      var i :| 0 <= i < |r| && r[i] == e;
      var j :| 0 <= j < |rest| && rest[j] == f;
      assert sorted[i] == e && sorted[|r| + j] == f;
    }
  }

  // ---------------------------------------------------------------------------
  // Results per day
  // ---------------------------------------------------------------------------

  function TimestampOf(row: AnswerLog): int {
    row.timestamp
  }

  function DayCorrectOf(d: int): AnswerLog -> bool {
    (row: AnswerLog) => Day(row.timestamp) == d && row.isCorrect
  }

  function DayWrongOf(d: int): AnswerLog -> bool {
    (row: AnswerLog) => Day(row.timestamp) == d && !row.isCorrect
  }

  function Days(rows: seq<AnswerLog>): (ds: seq<int>)
    ensures |ds| == |rows|
    ensures forall i :: 0 <= i < |rows| ==> ds[i] == Day(rows[i].timestamp)
  {
    seq(|rows|, i requires 0 <= i < |rows| => Day(rows[i].timestamp))
  }

  /** The percentage of correct answers, without the rounding to one decimal. */
  function Accuracy(correct: nat, wrong: nat): (a: real)
    ensures 0.0 <= a <= 100.0
    ensures correct + wrong > 0 && wrong == 0 ==> a == 100.0
    ensures correct == 0 ==> a == 0.0
    ensures correct > 0 ==> a > 0.0
    ensures wrong > 0 ==> a < 100.0
  {
    var total := correct + wrong;
    if total > 0 then AccuracyBounds(correct, total); (correct as real) / (total as real) * 100.0 else 0.0
  }

  lemma AccuracyBounds(correct: nat, total: nat)
    requires 0 < total && correct <= total
    ensures 0.0 <= (correct as real) / (total as real) <= 1.0
    ensures correct < total ==> (correct as real) / (total as real) < 1.0
    ensures correct > 0 ==> (correct as real) / (total as real) > 0.0
    ensures correct == total ==> (correct as real) / (total as real) == 1.0
  {
    var q := (correct as real) / (total as real);
    assert q * (total as real) == correct as real;
  }

  /** One row of `get_quiz_history`. */
  datatype DayRow = DayRow(day: int, correct: nat, wrong: nat, accuracy: real)

  /** A day's two counters while the log is read. */
  datatype DayCount = DayCount(correct: nat, wrong: nat)

  function DaysOf(r: seq<DayRow>): (ds: seq<int>)
    ensures |ds| == |r|
    ensures forall i :: 0 <= i < |r| ==> ds[i] == r[i].day
  {
    seq(|r|, i requires 0 <= i < |r| => r[i].day)
  }

  function CountOnDay(rows: seq<AnswerLog>, d: int): DayCount {
    DayCount(CountWhere(rows, DayCorrectOf(d)), CountWhere(rows, DayWrongOf(d)))
  }

  lemma {:induction false} DayStep(rows: seq<AnswerLog>, i: nat, d: int)
    requires i < |rows|
    ensures var c := CountOnDay(rows[..i], d);
            CountOnDay(rows[..i + 1], d) ==
              if Day(rows[i].timestamp) != d then c
              else if rows[i].isCorrect then c.(correct := c.correct + 1)
              else c.(wrong := c.wrong + 1)
  {
    assert rows[..i + 1][..i] == rows[..i];
  }

  lemma {:induction false} DayAbsent(rows: seq<AnswerLog>, d: int)
    requires d !in Days(rows)
    ensures CountOnDay(rows, d) == DayCount(0, 0)
  {
    if |rows| > 0 {
      var init := rows[..|rows| - 1];
      assert Days(init) == Days(rows)[..|rows| - 1];
      assert Days(rows)[|rows| - 1] == Day(rows[|rows| - 1].timestamp);
      DayAbsent(init, d);
    }
  }

  /** A day that occurs in the rows has at least one answer. */
  lemma {:induction false} DayPresent(rows: seq<AnswerLog>, d: int)
    requires d in Days(rows)
    ensures CountOnDay(rows, d).correct + CountOnDay(rows, d).wrong >= 1
  {
    var init := rows[..|rows| - 1];
    assert Days(rows) == Days(init) + [Day(rows[|rows| - 1].timestamp)];
    if d in Days(init) {
      DayPresent(init, d);
    }
  }

  /** Rows in timestamp order fall on non-decreasing days. */
  lemma DaysNonDecreasing(rows: seq<AnswerLog>)
    requires SortedBy(rows, TimestampOf)
    ensures NonDecreasing(Days(rows))
  {
    forall i, j | 0 <= i < j < |rows| ensures Days(rows)[i] <= Days(rows)[j] {
      assert TimestampOf(rows[i]) <= TimestampOf(rows[j]);
      DayMonotone(rows[i].timestamp, rows[j].timestamp);
    }
  }

  /** The same rows in another order fall on the same days with the same counts. */
  lemma DaysPerm(a: seq<AnswerLog>, b: seq<AnswerLog>, d: int)
    requires multiset(a) == multiset(b)
    ensures d in Days(a) <==> d in Days(b)
    ensures CountOnDay(a, d) == CountOnDay(b, d)
  {
    CountWherePerm(a, b, DayCorrectOf(d));
    CountWherePerm(a, b, DayWrongOf(d));
    if d in Days(a) {
      var i :| 0 <= i < |a| && Days(a)[i] == d;
      assert a[i] in multiset(b);
      var j :| 0 <= j < |b| && b[j] == a[i];
      assert Days(b)[j] == d;
    }
    if d in Days(b) {
      var i :| 0 <= i < |b| && Days(b)[i] == d;
      assert b[i] in multiset(a);
      var j :| 0 <= j < |a| && a[j] == b[i];
      assert Days(a)[j] == d;
    }
  }

  /** `order` and `byDay` are the key order and the dict after reading `rows`. */
  ghost predicate DaysTallied(rows: seq<AnswerLog>, order: seq<int>, byDay: map<int, DayCount>) {
    && order == FirstSeen(Days(rows))
    && (forall d :: d in byDay <==> d in order)
    && (forall d :: d in byDay ==> byDay[d] == CountOnDay(rows, d))
  }

  /** The dict after one more row: a new day starts at zero, then the row counts. */
  function DayCounted(byDay: map<int, DayCount>, row: AnswerLog): map<int, DayCount> {
    var d := Day(row.timestamp);
    var c := if d in byDay then byDay[d] else DayCount(0, 0);
    byDay[d := if row.isCorrect then c.(correct := c.correct + 1) else c.(wrong := c.wrong + 1)]
  }

  /** The dict update written as the loop does it: insert, then count. */
  lemma DayCountedUnfold(byDay: map<int, DayCount>, row: AnswerLog)
    ensures var d := Day(row.timestamp);
            var m := if d in byDay then byDay else byDay[d := DayCount(0, 0)];
            DayCounted(byDay, row) ==
              m[d := if row.isCorrect then m[d].(correct := m[d].correct + 1) else m[d].(wrong := m[d].wrong + 1)]
  {
  }

  lemma DayTallyStep(rows: seq<AnswerLog>, i: nat, order: seq<int>, byDay: map<int, DayCount>)
    requires i < |rows|
    requires DaysTallied(rows[..i], order, byDay)
    ensures DaysTallied(rows[..i + 1], Appended(order, Day(rows[i].timestamp)), DayCounted(byDay, rows[i]))
  {
    var day := Day(rows[i].timestamp);
    assert Days(rows[..i + 1]) == Days(rows[..i]) + [day];
    assert Days(rows[..i + 1])[..i] == Days(rows[..i]);
    if day !in byDay {
      DayAbsent(rows[..i], day);
    }
    var byDay' := DayCounted(byDay, rows[i]);
    forall d | d in byDay' ensures byDay'[d] == CountOnDay(rows[..i + 1], d) {
      DayStep(rows, i, d);
    }
  }

  function RowFor(d: int, c: DayCount): DayRow {
    DayRow(d, c.correct, c.wrong, Accuracy(c.correct, c.wrong))
  }

  /** What the result rows mean, given the dict built from the rows in
      timestamp order. */
  lemma HistoryRows(userRows: seq<AnswerLog>, rows: seq<AnswerLog>, order: seq<int>, byDay: map<int, DayCount>, r: seq<DayRow>)
    requires multiset(rows) == multiset(userRows) && SortedBy(rows, TimestampOf)
    requires DaysTallied(rows, order, byDay)
    requires |r| == |order| && forall j :: 0 <= j < |r| ==> r[j] == RowFor(order[j], byDay[order[j]])
    ensures Ascending(DaysOf(r))
    ensures forall d :: d in DaysOf(r) <==> d in Days(userRows)
    ensures forall k :: 0 <= k < |r| ==>
              DayCount(r[k].correct, r[k].wrong) == CountOnDay(userRows, r[k].day) &&
              r[k].correct + r[k].wrong >= 1 &&
              r[k].accuracy == Accuracy(r[k].correct, r[k].wrong)
  {
    assert DaysOf(r) == order;
    DaysNonDecreasing(rows);
    FirstSeenAscending(Days(rows));
    forall d ensures d in Days(rows) <==> d in Days(userRows) {
      DaysPerm(rows, userRows, d);
    }
    forall k | 0 <= k < |r|
      ensures DayCount(r[k].correct, r[k].wrong) == CountOnDay(userRows, r[k].day)
      ensures r[k].correct + r[k].wrong >= 1
    {
      DaysPerm(rows, userRows, r[k].day);
      assert r[k].day in order;
      DayPresent(rows, r[k].day);
    }
  }

  /** The first loop of `get_quiz_history`: the `by_day` dict and its key order. */
  method CountByDay(rows: seq<AnswerLog>) returns (order: seq<int>, byDay: map<int, DayCount>)
    ensures DaysTallied(rows, order, byDay)
  {
    order := [];
    byDay := map[];
    for i := 0 to |rows|
      invariant DaysTallied(rows[..i], order, byDay)
    {
      var row := rows[i];
      var day := Day(row.timestamp);
      DayTallyStep(rows, i, order, byDay);
      DayCountedUnfold(byDay, row);
      if day !in byDay {
        byDay := byDay[day := DayCount(0, 0)];
        order := order + [day];
      }
      var c := byDay[day];
      if row.isCorrect {
        byDay := byDay[day := c.(correct := c.correct + 1)];
      } else {
        byDay := byDay[day := c.(wrong := c.wrong + 1)];
      }
    }
    assert rows[..|rows|] == rows;
  }

  /** The second loop of `get_quiz_history`: one row per day in key order,
      with the accuracy in percent (0 for a day without answers). */
  method DayRows(order: seq<int>, byDay: map<int, DayCount>) returns (r: seq<DayRow>)
    requires forall d :: d in order ==> d in byDay
    ensures |r| == |order|
    ensures forall j :: 0 <= j < |r| ==> r[j] == RowFor(order[j], byDay[order[j]])
  {
    r := [];
    for k := 0 to |order|
      invariant |r| == k
      invariant forall j :: 0 <= j < k ==> r[j] == RowFor(order[j], byDay[order[j]])
    {
      var day := order[k];
      var v := byDay[day];
      var total := v.correct + v.wrong;
      var accuracy := if total > 0 then Accuracy(v.correct, v.wrong) else 0.0;
      r := r + [DayRow(day, v.correct, v.wrong, accuracy)];
    }
  }

  /** `get_quiz_history`: the user's rows read in timestamp order, one result
      row per day in ascending day order, each with that day's counts. */
  method QuizHistory(log: seq<AnswerLog>, userId: int) returns (r: seq<DayRow>)
    ensures Ascending(DaysOf(r))
    ensures forall d :: d in DaysOf(r) <==> d in Days(RowsOfUser(log, userId))
    ensures forall k :: 0 <= k < |r| ==>
              DayCount(r[k].correct, r[k].wrong) == CountOnDay(RowsOfUser(log, userId), r[k].day) &&
              r[k].correct + r[k].wrong >= 1 &&
              r[k].accuracy == Accuracy(r[k].correct, r[k].wrong)
  {
    var userRows := RowsOfUser(log, userId);
    var rows := SortBy(userRows, TimestampOf);
    var order, byDay := CountByDay(rows);
    r := DayRows(order, byDay);
    SortBySorted(userRows, TimestampOf);
    HistoryRows(userRows, rows, order, byDay, r);
  }

  // ---------------------------------------------------------------------------
  // Daily streaks
  // ---------------------------------------------------------------------------

  /** The distinct days on which the rows were answered. */
  function DaySet(rows: seq<AnswerLog>): set<int> {
    set row | row in rows :: Day(row.timestamp)
  }

  /** The length of the run of consecutive days ending at position `i`. */
  function Run(days: seq<int>, i: nat): (n: nat)
    requires i < |days|
    ensures 1 <= n <= i + 1
  {
    if i == 0 then 1
    else if days[i] == days[i - 1] + 1 then Run(days, i - 1) + 1
    else 1
  }

  /** The longest run ending at or before position `i`. */
  function LongestRun(days: seq<int>, i: nat): (n: nat)
    requires i < |days|
    ensures n >= Run(days, i)
  {
    if i == 0 then Run(days, 0)
    else
      var before := LongestRun(days, i - 1);
      if Run(days, i) > before then Run(days, i) else before
  }

  /** `{"current": ..., "longest": ...}` for the sorted distinct days. */
  function Streaks(days: seq<int>, today: int): (int, int) {
    if |days| == 0 then (0, 0)
    else
      var last := |days| - 1;
      (if days[last] == today then Run(days, last) else 0, LongestRun(days, last))
  }

  /** `get_daily_streaks`: with `today` standing for `utcnow().date()`. */
  method DailyStreaks(log: seq<AnswerLog>, userId: int, today: int) returns (current: int, longest: int)
    ensures (current, longest) == Streaks(SortedOf(DaySet(RowsOfUser(log, userId))), today)
    ensures RowsOfUser(log, userId) == [] ==> current == 0 && longest == 0
  {
    var rows := RowsOfUser(log, userId);
    if rows == [] {
      assert SortedOf(DaySet(rows)) == [];
      return 0, 0;
    }
    var days := SortedList(DaySet(rows));
    assert |days| > 0 by {
      assert Day(rows[0].timestamp) in DaySet(rows);
    }
    current, longest := RunLengths(days);
    if days[|days| - 1] != today {
      current := 0;
    }
  }

  /** The streak loop over the sorted days: the run ending at the last day
      and the longest run. */
  method RunLengths(days: seq<int>) returns (current: int, longest: int)
    requires |days| > 0
    ensures current == Run(days, |days| - 1)
    ensures longest == LongestRun(days, |days| - 1)
  {
    longest := 1;
    current := 1;
    for i := 1 to |days|
      invariant current == Run(days, i - 1)
      invariant longest == LongestRun(days, i - 1)
    {
      if days[i] == days[i - 1] + 1 {
        current := current + 1;
        longest := if longest < current then current else longest;
      } else {
        current := 1;
      }
    }
  }

  /** Position `i` ends a run of `Run(days, i)` consecutive days that cannot
      be extended to the left. */
  lemma {:induction false} RunWindow(days: seq<int>, i: nat)
    requires i < |days|
    ensures forall j :: i - Run(days, i) + 1 <= j < i ==> days[j + 1] == days[j] + 1
    ensures i - Run(days, i) + 1 == 0 || days[i - Run(days, i) + 1] != days[i - Run(days, i)] + 1
  {
    if i > 0 && days[i] == days[i - 1] + 1 {
      RunWindow(days, i - 1);
    }
  }

  /** The longest run is the largest `Run` up to `i`, and it is reached. */
  lemma {:induction false} LongestRunIsMax(days: seq<int>, i: nat)
    requires i < |days|
    ensures forall j :: 0 <= j <= i ==> Run(days, j) <= LongestRun(days, i)
    ensures exists j :: 0 <= j <= i && Run(days, j) == LongestRun(days, i)
  {
    if i > 0 {
      LongestRunIsMax(days, i - 1);
      var j :| 0 <= j <= i - 1 && Run(days, j) == LongestRun(days, i - 1);
      if Run(days, i) > LongestRun(days, i - 1) {
        assert Run(days, i) == LongestRun(days, i);
      } else {
        assert Run(days, j) == LongestRun(days, i);
      }
    } else {
      assert Run(days, 0) == LongestRun(days, 0);
    }
  }

  /** No log: both streaks are 0. With a log the longest streak is at least 1
      and the current one never exceeds it. */
  lemma StreakBounds(days: seq<int>, today: int)
    ensures |days| == 0 ==> Streaks(days, today) == (0, 0)
    ensures |days| > 0 ==> Streaks(days, today).1 >= 1
    ensures 0 <= Streaks(days, today).0 <= Streaks(days, today).1
  {
  }

  /** Days 1, 2, 3 and 5 with today on day 5: the current streak is 1 and the
      longest is 3. */
  lemma StreakExample()
    ensures Streaks([1, 2, 3, 5], 5) == (1, 3)
  {
    var days := [1, 2, 3, 5];
    assert Run(days, 2) == 3;
    assert Run(days, 3) == 1;
    assert LongestRun(days, 2) == 3;
  }

}
