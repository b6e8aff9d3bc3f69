/** The public practice quizzes (`practice_level` in app/public/routes.py):
    three fixed levels, each backed by one word list. Words are grouped by
    their stripped original, up to eleven groups are drawn without
    repetition, and each becomes a question whose answers are all the group's
    translations, cleaned. */
module PublicPractice {
  import opened Wrappers
  import opened Records
  import opened Collections
  import opened RandomOracle
  import Text

  /** A level's word list and its label (the word `label` is reserved in Dafny). */
  datatype Level = Level(listId: int, title: string)

  /** `LEVEL_MAP[key]`, or None when the key is not one of the three levels. */
  function LevelOf(key: string): (r: Option<Level>)
    ensures r.Some? <==> key == "easy" || key == "medium" || key == "hard"
  {
    if key == "easy" then Some(Level(9001, "L\U{E4}tt"))
    else if key == "medium" then Some(Level(9002, "Medel"))
    else if key == "hard" then Some(Level(9003, "Sv\U{E5}r"))
    else None
  }

  /** The level name as looked up: `level.lower()`. */
  function LevelKey(level: string): string {
    Text.Lower(level)
  }

  /** The lookup ignores case: lower-casing the name first changes nothing,
      and "Easy" and "HARD" find their levels. */
  lemma LevelIgnoresCase(level: string)
    ensures LevelOf(LevelKey(Text.Lower(level))) == LevelOf(LevelKey(level))
    ensures LevelOf(LevelKey("Easy")) == Some(Level(9001, "L\U{E4}tt"))
    ensures LevelOf(LevelKey("HARD")) == Some(Level(9003, "Sv\U{E5}r"))
  {
    Text.LowerIsLowerCase(level);
    Text.LowerOfLowerCase(Text.Lower(level));
    assert LevelKey("Easy") == "easy";
    assert LevelKey("HARD") == "hard";
  }

  // ---------------------------------------------------------------------------
  // Grouping
  // ---------------------------------------------------------------------------

  /** The (stripped original, stripped translation) pairs of the words in
      order, leaving out words where either is empty after stripping. */
  function Kept(words: seq<Word>): (pairs: seq<(string, string)>)
    ensures forall p :: p in pairs ==> p.0 != "" && p.1 != ""
  {
    if |words| == 0 then []
    else
      var w := words[|words| - 1];
      var swe := Text.Strip(w.original);
      var eng := Text.Strip(w.translation);
      Kept(words[..|words| - 1]) + if swe != "" && eng != "" then [(swe, eng)] else []
  }

  lemma {:induction false} KeptMembers(words: seq<Word>, p: (string, string))
    ensures p in Kept(words) <==>
            p.0 != "" && p.1 != "" &&
            exists w :: w in words && p == (Text.Strip(w.original), Text.Strip(w.translation))
  {
    if |words| > 0 {
      var init := words[..|words| - 1];
      KeptMembers(init, p);
      assert words == init + [words[|words| - 1]];
    }
  }

  function Keys(pairs: seq<(string, string)>): (ks: seq<string>)
    ensures |ks| == |pairs|
    ensures forall i :: 0 <= i < |pairs| ==> ks[i] == pairs[i].0
  {
    seq(|pairs|, i requires 0 <= i < |pairs| => pairs[i].0)
  }

  /** The translations paired with `key`: the set `groups[key]` ends up as. */
  function GroupOf(pairs: seq<(string, string)>, key: string): set<string> {
    if |pairs| == 0 then {}
    else
      var p := pairs[|pairs| - 1];
      GroupOf(pairs[..|pairs| - 1], key) + if p.0 == key then {p.1} else {}
  }

  lemma {:induction false} GroupOfMembers(pairs: seq<(string, string)>, key: string, e: string)
    ensures e in GroupOf(pairs, key) <==> (key, e) in pairs
  {
    if |pairs| > 0 {
      var init := pairs[..|pairs| - 1];
      GroupOfMembers(init, key, e);
      assert pairs == init + [pairs[|pairs| - 1]];
    }
  }

  /** A group holds exactly the stripped translations of the words whose
      stripped original is its key, when neither is empty. */
  lemma GroupIsTranslations(words: seq<Word>, key: string, e: string)
    ensures e in GroupOf(Kept(words), key) <==>
            key != "" && e != "" &&
            exists w :: w in words && Text.Strip(w.original) == key && Text.Strip(w.translation) == e
  {
    GroupOfMembers(Kept(words), key, e);
    KeptMembers(words, (key, e));
  }

  /** What the loop has built after some of the pairs. */
  ghost predicate Grouped(pairs: seq<(string, string)>, order: seq<string>, groups: map<string, set<string>>) {
    && order == FirstSeen(Keys(pairs))
    && (forall k :: k in groups <==> k in order)
    && forall k :: k in groups ==> groups[k] == GroupOf(pairs, k)
  }

  lemma {:induction false} GroupOfAbsent(pairs: seq<(string, string)>, key: string)
    requires key !in Keys(pairs)
    ensures GroupOf(pairs, key) == {}
  {
    if |pairs| > 0 {
      var init := pairs[..|pairs| - 1];
      assert Keys(init) == Keys(pairs)[..|pairs| - 1];
      GroupOfAbsent(init, key);
      assert Keys(pairs)[|pairs| - 1] == pairs[|pairs| - 1].0;
    }
  }

  lemma GroupOfAppend(pairs: seq<(string, string)>, p: (string, string), key: string)
    ensures GroupOf(pairs + [p], key) == GroupOf(pairs, key) + if p.0 == key then {p.1} else {}
  {
    assert (pairs + [p])[..|pairs|] == pairs;
  }

  /** `groups.setdefault(swe, set()).add(eng)` keeps the loop's invariant. */
  lemma GroupStep(pairs: seq<(string, string)>, order: seq<string>, groups: map<string, set<string>>, swe: string, eng: string)
    requires Grouped(pairs, order, groups)
    ensures Grouped(pairs + [(swe, eng)],
                    if swe in groups then order else order + [swe],
                    groups[swe := (if swe in groups then groups[swe] else {}) + {eng}])
  {
    var pairs' := pairs + [(swe, eng)];
    var order' := if swe in groups then order else order + [swe];
    var groups' := groups[swe := (if swe in groups then groups[swe] else {}) + {eng}];
    assert order' == FirstSeen(Keys(pairs')) by {
      assert Keys(pairs') == Keys(pairs) + [swe];
      FirstSeenAppend(Keys(pairs), swe);
    }
    assert forall k :: k in groups' <==> k in order';
    GroupSetsStep(pairs, order, groups, swe, eng);
  }

  lemma GroupSetsStep(pairs: seq<(string, string)>, order: seq<string>, groups: map<string, set<string>>, swe: string, eng: string)
    requires Grouped(pairs, order, groups)
    ensures var groups' := groups[swe := (if swe in groups then groups[swe] else {}) + {eng}];
            forall k :: k in groups' ==> groups'[k] == GroupOf(pairs + [(swe, eng)], k)
  {
    var pairs' := pairs + [(swe, eng)];
    var groups' := groups[swe := (if swe in groups then groups[swe] else {}) + {eng}];
    if swe !in groups {
      assert swe !in Keys(pairs);
      GroupOfAbsent(pairs, swe);
    }
    forall k | k in groups' ensures groups'[k] == GroupOf(pairs', k) {
      GroupOfAppend(pairs, (swe, eng), k);
    }
  }

  lemma KeptStep(words: seq<Word>, i: nat)
    requires i < |words|
    ensures var swe := Text.Strip(words[i].original);
            var eng := Text.Strip(words[i].translation);
            Kept(words[..i + 1]) == Kept(words[..i]) + if swe != "" && eng != "" then [(swe, eng)] else []
  {
    assert words[..i + 1][..i] == words[..i];
  }

  /** The grouping loop: the keys in the order the dict first sees them, and
      each key's set of translations. */
  method Groups(words: seq<Word>) returns (order: seq<string>, groups: map<string, set<string>>)
    ensures order == FirstSeen(Keys(Kept(words)))
    ensures forall k :: k in groups <==> k in order
    ensures forall k :: k in groups ==> groups[k] == GroupOf(Kept(words), k)
  {
    order := [];
    groups := map[];
    ghost var pairs: seq<(string, string)> := [];
    for i := 0 to |words|
      invariant pairs == Kept(words[..i])
      invariant Grouped(pairs, order, groups)
    {
      var swe := Text.Strip(words[i].original);
      var eng := Text.Strip(words[i].translation);
      KeptStep(words, i);
      if swe != "" && eng != "" {
        GroupStep(pairs, order, groups, swe, eng);
        order := if swe in groups then order else order + [swe];
        groups := groups[swe := (if swe in groups then groups[swe] else {}) + {eng}];
        pairs := pairs + [(swe, eng)];
      }
    }
    assert words[..|words|] == words;
  }

  // ---------------------------------------------------------------------------
  // Questions
  // ---------------------------------------------------------------------------

  /** One entry of `quiz_data`. */
  datatype PracticeQuestion = PracticeQuestion(id: int, question: string, answers: seq<string>, answersDisplay: string)

  /** `[clean(e) for e in eng_list]`. */
  function CleanAll(xs: seq<string>): (r: seq<string>)
    ensures |r| == |xs|
    ensures forall i :: 0 <= i < |xs| ==> r[i] == Text.Clean(xs[i])
  {
    seq(|xs|, i requires 0 <= i < |xs| => Text.Clean(xs[i]))
  }

  /** Question number `idx` asks `swe`; for some order of the group (the
      order `list(set)` happens to give) the answers are its members cleaned
      and the display is the raw members joined by ", ". */
  ghost predicate PracticeFor(q: PracticeQuestion, idx: int, swe: string, group: set<string>) {
    && q.id == idx
    && q.question == swe
    && exists engList :: AnswersFrom(q, engList, group)
  }

  /** The answers and the display of `q` come from `engList`, which lists
      `group` once each. */
  ghost predicate AnswersFrom(q: PracticeQuestion, engList: seq<string>, group: set<string>) {
    && Distinct(engList)
    && |engList| == |group|
    && (forall e :: e in engList <==> e in group)
    && q.answers == CleanAll(engList)
    && q.answersDisplay == Text.Join(engList, ", ")
  }

  /** Every translation in the group is accepted, cleaned, and nothing else
      is: one answer per translation. */
  lemma PracticeAnswers(q: PracticeQuestion, idx: int, swe: string, group: set<string>)
    requires PracticeFor(q, idx, swe, group)
    ensures |q.answers| == |group|
    ensures forall e :: e in group ==> Text.Clean(e) in q.answers
    ensures forall a :: a in q.answers ==> exists e :: e in group && a == Text.Clean(e)
  {
    var engList :| AnswersFrom(q, engList, group);
    forall e | e in group ensures Text.Clean(e) in q.answers {
      var i :| 0 <= i < |engList| && engList[i] == e;
      assert q.answers[i] == Text.Clean(e);
    }
    forall a | a in q.answers ensures exists e :: e in group && a == Text.Clean(e) {
      var i :| 0 <= i < |q.answers| && q.answers[i] == a;
      assert engList[i] in engList;
    }
  }

  /** One question: the group listed in some order (`engList`), cleaned for
      the answers and joined for the display. */
  method Question(idx: int, swe: string, group: set<string>) returns (q: PracticeQuestion, engList: seq<string>)
    ensures q.id == idx && q.question == swe
    ensures AnswersFrom(q, engList, group)
  {
    engList := ListOfSet(group);
    q := PracticeQuestion(idx, swe, CleanAll(engList), Text.Join(engList, ", "));
  }

  /** The loop over `enumerate(chosen, start=1)`. */
  method BuildPractice(chosen: seq<string>, groups: map<string, set<string>>) returns (quiz: seq<PracticeQuestion>)
    requires forall s :: s in chosen ==> s in groups
    ensures |quiz| == |chosen|
    ensures forall j :: 0 <= j < |quiz| ==> PracticeFor(quiz[j], j + 1, chosen[j], groups[chosen[j]])
  {
    quiz := [];
    ghost var lists: seq<seq<string>> := [];
    for j := 0 to |chosen|
      invariant |quiz| == |lists| == j
      invariant forall t :: 0 <= t < j ==> quiz[t].id == t + 1 && quiz[t].question == chosen[t]
      invariant forall t :: 0 <= t < j ==> AnswersFrom(quiz[t], lists[t], groups[chosen[t]])
    {
      assert chosen[j] in chosen;
      var q, engList := Question(j + 1, chosen[j], groups[chosen[j]]);
      quiz := quiz + [q];
      lists := lists + [engList];
    }
    forall t | 0 <= t < |quiz|
      ensures PracticeFor(quiz[t], t + 1, chosen[t], groups[chosen[t]])
    {
      assert AnswersFrom(quiz[t], lists[t], groups[chosen[t]]);
    }
  }

  // ---------------------------------------------------------------------------
  // The page
  // ---------------------------------------------------------------------------

  /** The most questions a practice page asks. */
  const PracticeSize: nat := 11

  /** What the template receives. */
  datatype PracticePage = PracticePage(level: string, levelLabel: string, totalQuestions: nat, quiz: seq<PracticeQuestion>)

  /** An unknown level and a level without words redirect with a flash; the
      model reports a draw list that runs out as `DrawsExhausted`. */
  datatype PracticeError = InvalidLevel | NoLevelWords | DrawsExhausted

  /** The group keys of a level, in dict order. */
  function LevelKeys(words: seq<Word>, level: Level): seq<string> {
    FirstSeen(Keys(Kept(WordsOfList(words, level.listId))))
  }

  function QuestionTotal(groupCount: nat): nat {
    if groupCount < PracticeSize then groupCount else PracticeSize
  }

  /** The questions of a level's words: the groups are built, `n` keys are
      drawn and each becomes a question. None when the draws run out. */
  method PracticeQuiz(ws: seq<Word>, draws: seq<nat>) returns (r: Option<seq<PracticeQuestion>>)
    ensures r.Some? ==>
              var keys := FirstSeen(Keys(Kept(ws)));
              var quiz := r.value;
              |quiz| == QuestionTotal(|keys|) &&
              (forall i, j :: 0 <= i < j < |quiz| ==> quiz[i].question != quiz[j].question) &&
              forall j :: 0 <= j < |quiz| ==>
                quiz[j].question in keys &&
                PracticeFor(quiz[j], j + 1, quiz[j].question, GroupOf(Kept(ws), quiz[j].question))
    ensures r.None? ==> |draws| < PracticeSize || |FirstSeen(Keys(Kept(ws)))| > SetSize(PracticeSize)
  {
    var order, groups := Groups(ws);
    var n := QuestionTotal(|order|);
    var sample := Sample(order, n, draws);
    if sample.None? {
      return None;
    }
    var chosen := sample.value;
    SubMultisetDistinct(chosen, order);
    forall s | s in chosen ensures s in order {
      assert s in multiset(chosen);
    }
    var quiz := BuildPractice(chosen, groups);
    return Some(quiz);
  }

  /** `practice_level(level)`. */
  method PracticeLevel(words: seq<Word>, level: string, draws: seq<nat>) returns (r: Result<PracticePage, PracticeError>)
    ensures r == Err(InvalidLevel) <==> LevelOf(LevelKey(level)).None?
    ensures r == Err(NoLevelWords) <==>
              LevelOf(LevelKey(level)).Some? && WordsOfList(words, LevelOf(LevelKey(level)).value.listId) == []
    ensures r.Ok? ==>
              var lvl := LevelOf(LevelKey(level)).value;
              var keys := LevelKeys(words, lvl);
              var page := r.value;
              page.level == LevelKey(level) && page.levelLabel == lvl.title &&
              page.totalQuestions == |page.quiz| == QuestionTotal(|keys|) &&
              (forall i, j :: 0 <= i < j < |page.quiz| ==> page.quiz[i].question != page.quiz[j].question) &&
              forall j :: 0 <= j < |page.quiz| ==>
                page.quiz[j].question in keys &&
                PracticeFor(page.quiz[j], j + 1, page.quiz[j].question,
                            GroupOf(Kept(WordsOfList(words, lvl.listId)), page.quiz[j].question))
    ensures r == Err(DrawsExhausted) ==>
              |draws| < PracticeSize || |LevelKeys(words, LevelOf(LevelKey(level)).value)| > SetSize(PracticeSize)
  {
    var key := LevelKey(level);
    var found := LevelOf(key);
    if found.None? {
      return Err(InvalidLevel);
    }
    var lvl := found.value;
    var ws := WordsOfList(words, lvl.listId);
    if ws == [] {
      return Err(NoLevelWords);
    }
    var quiz := PracticeQuiz(ws, draws);
    if quiz.None? {
      return Err(DrawsExhausted);
    }
    return Ok(PracticePage(key, lvl.title, |quiz.value|, quiz.value));
  }
}
