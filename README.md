# ordlistan quiz engine in Dafny

A model of the adaptive quiz engine of *ordlistan*, a Flask vocabulary-drilling app, with proofs about it. Users keep word lists, take quizzes, and the app records every answer. The engine has four parts:

- **Weighted selection.** A word the user gets wrong more often than right gets weight `1 + ln(1 + diff)`; every other word gets weight 1. `random.choices` then picks `num_words` words with repetition.
- **Question building.** Each question shows one side of the word and accepts every cleaned form of the other side. Forms come from every word with the same `original` in the selected lists. The direction is `sv_en`, `en_sv`, or anything else for a per-question coin. `clean` lower-cases, deletes `! ? ¡ ¿ . ,` and strips.
- **Scoring.** `quiz_finish` creates a `QuizResult`. For each answer whose word exists, it raises exactly one counter, sets `last_wrong` on a wrong answer, and appends one answer-log row.
- **Analytics over the answer log.** Per-word tallies, the hardest words (stable sort by wrong answers, truncated), a per-day history with accuracy, and daily streaks.

The older copy of the engine in `app/routes.py` is modelled next to the newer one. It has no answer log and commits twice, and its summary sorts every word of the user's lists by the raw `wrong_count`. The public practice page (`app/public/routes.py`) groups translations by question text and draws up to 11 distinct questions. The model also covers these helpers:

- `short_label`, in two copies;
- the list-selector join and parse pair;
- the share-list copy rule.

## How the model is built

- **Modules.** They follow the program:
  - `QuizTaking` is `quiz_settings`, `quiz_take` and `quick_quiz` of `app/quiz/routes.py`.
  - `QuizScoring` is its `quiz_finish`.
  - `Analytics` is `app/services/analytics.py`.
  - `LegacyRoutes` is the older copy in `app/routes.py`.
  - `PublicPractice` is `practice_level`.
  - `Text`, `Records`, `Collections`, `Sorting` and `RandomOracle` hold what these share.
- **The database** is the class `Records.Database`. Its fields are tables as sequences in row order: lists, words, results and the answer log. The methods that write to it (`QuizScoring.QuizFinish`, `LegacyRoutes.LegacyQuizFinish`, `LegacyRoutes.ShareList`) modify it and state its whole new state.
- **Reads and loops.** A query is a function over those sequences. A loop that fills a dict or a list is a method whose `while`/`for` loop keeps an invariant relating the dict to a specification function of the rows seen so far: `WordStatistics`, `CountByDay`, `Groups`, `RunLengths`, `ScoreLoop`, `CopyWords` and `CollectHardRows`. The properties are then proved about those functions.
- **Randomness.** Randomness is an input: a sequence of pre-drawn values.
  - `random()` is a real in [0, 1).
  - `randbelow(n)` is a natural reduced modulo `n`.
  - `random.choices` follows CPython: a cumulative-weight table and a `bisect_right` on the scaled draw.
  - `random.sample` follows CPython's two branches:
    - the pool branch, used when the population is at most `SetSize(k)` (85 for `k = 11`);
    - the rejection-set branch, used for larger populations. Running out of draws in this branch is reported as an error value.
- **Time.** Timestamps are integer seconds, and a day is `ts / 86400`. "Now" and "today" are parameters.
- **`math.log(1 + diff)`** is a parameter `ln`. It is only assumed to be positive for a positive difference and monotone.
- **The two copies of `quiz_take`.** `quiz_take` in `app/routes.py` has the same text as the one in `app/quiz/routes.py`, so one member models both; its row cites the newer copy, and the older one is `app/routes.py:509-603`. The same holds for `quiz_settings`: `app/routes.py:477-506` differs from `app/quiz/routes.py:20-49` only in the route string and the docstring, so `QuizTaking.QuizSettings`, `QuizTaking.SettingsLists` and `QuizTaking.SettingsScope` model both copies.
- **Behaviour of the code that the model keeps as written:**
  - `last_wrong` in the per-word statistics is the timestamp of the last wrong row in query order. The query has no `order_by`, so this need not be the latest wrong answer.
  - `last_wrong` on a word is set to the time of recording, whatever value it held before.
  - The older `quiz_finish` writes no answer-log rows. It commits the result before the word updates, so a failing answer leaves a stored result with no updated words.

## Model

| member | source | states |
|---|---|---|
| Text.LowerChar | app/quiz/routes.py:103 | `str.lower` on one character: unchanged, or an upper-case ASCII or Latin-1 letter mapped to its lower-case partner |
| Text.LowerIsLowerCase | app/quiz/routes.py:103 | every character of a lower-cased string is already lower case |
| Text.RemovePunctShape | app/quiz/routes.py:104-109 | after the six `replace` calls none of `! ? ¡ ¿ . ,` is left, and no new character appears |
| Text.RemovePunctKeeps | app/quiz/routes.py:104-109 | every character that is not one of the six marks survives the replacements |
| Text.StripShape | app/quiz/routes.py:110 | `strip` leaves no leading or trailing whitespace and adds no character |
| Text.CleanShape | app/quiz/routes.py:101-111 | a cleaned answer is lower case, free of the six marks and stripped |
| Text.CleanIdempotent | app/quiz/routes.py:101-111 | cleaning a cleaned answer changes nothing |
| Text.CleanIgnoresCase | app/quiz/routes.py:101-111 | answers that differ only in case clean to the same form |
| Text.CleanIgnoresPunct | app/quiz/routes.py:101-111 | answers that differ only in the six marks clean to the same form |
| Text.ShortLabel | app/routes.py:35-42 | empty text gives "", text of at most `length` characters is returned unchanged, longer text keeps its first `length - 3` characters followed by "..." |
| Text.ShortLabelFits | app/public/routes.py:18-22 | for `length >= 3` the label never exceeds `length` or the text, and it equals the text exactly when the text fits |
| Text.Take | app/services/analytics.py:68 | `result[:limit]` is the prefix of length `min(limit, n)`, or `n + limit` clipped at 0 for a negative limit |
| Text.ListsParam | app/quiz/routes.py:35-38 | a selection containing "all" becomes "all", any other selection its items joined by "," |
| Text.SplitJoin | app/quiz/routes.py:75 | splitting the comma-join of comma-free pieces gives back the pieces |
| Text.ShowDecimalValue | app/quiz/routes.py:75 | `int()` of the decimal form of a list id is that id |
| Text.ListsParamRoundTrip | app/quiz/routes.py:75 | joining the chosen list ids and parsing them back by the `isdigit` tokens yields the same ids in the same order |
| Records.OrZero | app/quiz/routes.py:90-91 | `x or 0` is 0 for a missing count and the count otherwise |
| Records.Day | app/services/analytics.py:82 | a timestamp lies inside the 86400-second day it is assigned to |
| Records.DayMonotone | app/services/analytics.py:121 | a later timestamp never falls on an earlier day |
| Records.FindWord | app/quiz/routes.py:232-234 | `Word.query.get(id)` finds a row with that id, or reports none exactly when no row has it |
| Records.FindWordUnique | app/quiz/routes.py:232 | with unique ids the lookup of a row's id finds that row |
| Records.WordsInLists | app/quiz/routes.py:76 | a word is selected exactly when its list id is among the given ids |
| Records.WordsOfList | app/public/routes.py:51 | exactly the words of one list |
| Records.ListIdsOfUser | app/quiz/routes.py:71-73 | an id is listed exactly when the user owns a list with that id |
| Records.ListById | app/quiz/routes.py:158 | the list with that id, or none exactly when no list has it |
| Records.ListsOfUser | app/quiz/routes.py:257 | exactly the user's lists |
| Records.RowsOfUser | app/services/analytics.py:15-19 | exactly the user's answer-log rows, and no more rows than the log holds |
| Records.NextResultId | app/quiz/routes.py:218-219 | the id `flush` assigns differs from every stored result id |
| Records.NextListId | app/routes.py:450-452 | the new list's id differs from every stored list id |
| Records.NextWordId | app/routes.py:455-463 | a copied word's id exceeds every stored word id |
| Collections.ListOfSet | app/quiz/routes.py:125-126 | `list(set)` lists every member of the set once and nothing else |
| Collections.FirstSeen | app/services/analytics.py:24-30 | dict keys in insertion order: each key once, exactly the keys met |
| Collections.FirstSeenAscending | app/services/analytics.py:79-93 | keys inserted in non-decreasing order come out strictly ascending |
| Collections.SortedList | app/services/analytics.py:121 | `sorted(set)` is the unique ascending sequence of the set's members |
| Sorting.SortBy | app/services/analytics.py:75 | `order_by(timestamp.asc())` returns a permutation of the rows |
| Sorting.SortBySorted | app/services/analytics.py:75 | that permutation is ordered by timestamp |
| Sorting.SortDesc | app/services/analytics.py:66 | `sort(key, reverse=True)` is a permutation |
| Sorting.SortDescSorted | app/services/analytics.py:66 | the sorted list is non-increasing in the key |
| Sorting.SortDescStable | app/services/analytics.py:66 | entries with equal keys keep their input order, as Python's stable sort promises |
| RandomOracle.Cumulative | app/quiz/routes.py:99 | one cumulative weight per word |
| RandomOracle.CumulativeAt | app/quiz/routes.py:99 | the cumulative weight at position `p` is the sum of the first `p + 1` weights |
| RandomOracle.CumulativeIncreasing | app/quiz/routes.py:99 | with positive weights the cumulative table strictly increases |
| RandomOracle.BisectRight | app/quiz/routes.py:99 | `bisect_right` returns the point where entries at most `x` end and entries above `x` begin |
| RandomOracle.CountAtMostSorted | app/quiz/routes.py:99 | on a strictly increasing table that point is unique |
| RandomOracle.ChosenIndex | app/quiz/routes.py:99 | one weighted pick is a valid index into the population |
| RandomOracle.ChosenIndexInterval | app/quiz/routes.py:99 | a draw picks word `i` exactly when the scaled draw falls in the `i`-th interval of the weight line, whose width is that word's weight |
| RandomOracle.Choices | app/quiz/routes.py:99 | `random.choices(k=k)` returns `k` words (none for negative `k`), the `j`-th chosen by the `j`-th draw |
| RandomOracle.RandBelow | app/quiz/routes.py:178 | the index is below the bound, and it is the draw itself when the draw is already below the bound |
| RandomOracle.Choice | app/quiz/routes.py:178 | `random.choice` returns a member of the population |
| RandomOracle.RemoveAtMultiset | app/quiz/routes.py:175 | removing one pool slot removes exactly that element |
| RandomOracle.SampleByPool | app/quiz/routes.py:175 | the pool branch of `random.sample` returns `k` elements drawn without replacement |
| RandomOracle.DistinctPicks | app/quiz/routes.py:175 | picking pairwise distinct positions draws without replacement |
| RandomOracle.SampleBySet | app/quiz/routes.py:175 | the rejection branch, when it completes, returns `k` elements drawn without replacement |
| RandomOracle.CeilLog4 | app/quiz/routes.py:175 | the smallest power of 4 not below `m`, as `random.sample` sizes its set |
| RandomOracle.SetSizeEleven | app/quiz/routes.py:175 | for 11 picks `random.sample` switches to the rejection branch above 85 elements |
| RandomOracle.Sample | app/quiz/routes.py:175 | `random.sample` returns `k` elements without replacement, and on a population of at most `SetSize(k)` it succeeds exactly when `k` draws are available |
| QuizTaking.SettingsLists | app/quiz/routes.py:24-28 | the settings page lists exactly the user's lists, newest id first |
| QuizTaking.QuizSettings | app/quiz/routes.py:30-47 | the redirect carries "all" whenever "all" was ticked and the direction defaults to "mix" |
| QuizTaking.SettingsScope | app/quiz/routes.py:35-38 | after the redirect, `quiz_take` draws from exactly the ticked lists, or from all the user's lists when "all" was ticked |
| QuizTaking.PoolMembers | app/quiz/routes.py:65-77 | with "all" the pool is the words of the user's lists; otherwise the words of the parsed list ids, owned or not |
| QuizTaking.WeightFacts | app/quiz/routes.py:89-94 | every weight is at least 1, and exactly 1 when `wrong - correct <= 0` with missing counts read as 0 |
| QuizTaking.WeightMonotone | app/quiz/routes.py:89-94 | the weight never decreases as `wrong - correct` grows, and it strictly increases once the difference is positive |
| QuizTaking.WeightsPositive | app/quiz/routes.py:86-97 | every weight handed to `random.choices` is positive |
| QuizTaking.WeightsOf | app/quiz/routes.py:86-97 | the weighting loop yields one weight per pool word, in pool order |
| QuizTaking.PickChance | app/quiz/routes.py:99 | pool word `i` is picked exactly when the scaled draw falls in an interval as wide as its own weight |
| QuizTaking.TranslationFormsMembers | app/quiz/routes.py:120-125 | the accepted translations are exactly the cleaned translations of the words sharing the asked word's `original` |
| QuizTaking.OriginalFormsMembers | app/quiz/routes.py:120-126 | the accepted originals are exactly the cleaned originals of those words |
| QuizTaking.BuildQuestion | app/quiz/routes.py:115-151 | one question: the word's id and counts, `sv_en` (or a mix coin below 0.5) shows the stripped translation and accepts the original forms, otherwise the stripped original with the translation forms, each answer once |
| QuizTaking.BuildQuiz | app/quiz/routes.py:113-151 | one question per picked word, in pick order, question `j` using the `j`-th coin after the picks |
| QuizTaking.QuizTake | app/quiz/routes.py:56-153 | an empty pool is the error and the only one; otherwise `num_words` questions (0 if negative), question `i` built from the word the `i`-th weighted draw picks from the pool |
| QuizTaking.QuestionAcceptsOwn | app/quiz/routes.py:120-141 | a question always accepts the asked word's own cleaned answer side |
| QuizTaking.SingleOriginalAnswer | app/quiz/routes.py:126-131 | a question showing the translation accepts exactly one form, the cleaned original |
| QuizTaking.SynonymsAccepted | app/quiz/routes.py:120-134 | a question showing an original accepts the translation of every word that shares it |
| QuizTaking.WordIds | app/quiz/routes.py:181 | the session keeps one id per selected word, in order |
| QuizTaking.PickWords | app/quiz/routes.py:173-178 | 11 words from the list; without repetition when the list has at least 11 |
| QuizTaking.DistinctWordsDistinctIds | app/quiz/routes.py:173-175 | distinct words of a table with unique ids have distinct ids |
| QuizTaking.QuickQuiz | app/quiz/routes.py:155-184 | an unknown list, another user's list and an empty list are told apart exactly; otherwise 11 ids of the list's words and its name, pairwise distinct when the list has at least 11 words |
| QuizScoring.Bump | app/quiz/routes.py:237-241 | one answer raises exactly one counter by 1, and only a wrong answer moves `last_wrong`, to the time of recording |
| QuizScoring.Target | app/quiz/routes.py:227-234 | the answer's word is found in the table, or is skipped exactly when it has no id or no row has its id |
| QuizScoring.ApplyAnswerAt | app/quiz/routes.py:232-241 | one answer changes only the row it names, and changes it by one bump |
| QuizScoring.ApplyAllKeepsEntries | app/quiz/routes.py:226-241 | scoring keeps every row's id, texts and list |
| QuizScoring.ApplyAllScores | app/quiz/routes.py:226-241 | after a batch each word's counters have risen by the number of right and wrong answers naming it |
| QuizScoring.UntouchedUnchanged | app/quiz/routes.py:226-241 | a word no answer names is left unchanged |
| QuizScoring.LogRow | app/quiz/routes.py:244-250 | the log row carries the user, the word and the correctness of the answer |
| QuizScoring.LogRows | app/quiz/routes.py:226-251 | every new log row belongs to this user and this result and carries the recording time |
| QuizScoring.LogRowsCount | app/quiz/routes.py:233-251 | one log row per answer whose word exists, none for a skipped one |
| QuizScoring.LogRowsHits | app/quiz/routes.py:244-251 | for each word the new log holds as many right and wrong rows as the answers naming it |
| QuizScoring.FinishKeepsConsistent | app/quiz/routes.py:222-254 | if each word's counters equal its log counts before a quiz, they still do after it |
| QuizScoring.TotalWordsStable | app/quiz/routes.py:257-258 | scoring does not change how many words the user's lists hold |
| QuizScoring.ScoreLoop | app/quiz/routes.py:226-251 | the answer loop applies the whole batch to the words and appends its log rows |
| QuizScoring.ScoreAnswers | app/quiz/routes.py:222-251 | the loop updates the words and the log in the database and leaves results and lists alone |
| QuizScoring.QuizFinish | app/quiz/routes.py:203-277 | one commit stores the result, the scored words and the log rows; the summary reports the posted score, the user's list, word and quiz counts (at least 1 quiz) and the 20 hardest words of the new log |
| Analytics.StatStep | app/services/analytics.py:23-36 | one log row updates the tally of its own word only |
| Analytics.TallyStep | app/services/analytics.py:23-36 | each pass of the statistics loop keeps the dict equal to the tallies of the rows seen |
| Analytics.WordStatistics | app/services/analytics.py:6-38 | the dict has a key per word the user answered, in first-answer order, holding that word's tally |
| Analytics.StatAttempts | app/services/analytics.py:23-35 | a word's `correct + wrong` is the number of its log rows |
| Analytics.StatKeys | app/services/analytics.py:24-30 | a word has an entry exactly when it has at least one log row |
| Analytics.LastWrongMissing | app/services/analytics.py:29-36 | `last_wrong` is None exactly when the word has no wrong row |
| Analytics.LastWrongIsLastRow | app/services/analytics.py:36 | otherwise it is the timestamp of the last wrong row in query order |
| Analytics.Entries | app/services/analytics.py:51-63 | one entry per tallied word that still exists |
| Analytics.EntriesDescribeWords | app/services/analytics.py:52-63 | every entry shows an existing word's texts with its tally |
| Analytics.CollectEntries | app/services/analytics.py:51-63 | the join loop builds exactly those entries |
| Analytics.HardestWords | app/services/analytics.py:41-68 | the hardest words are the first `limit` entries after the stable sort by wrong answers |
| Analytics.HardestWordsTop | app/services/analytics.py:65-68 | the slice keeps the top of the ranking: the entries cut off are the rest of the joined entries, and none has more wrong answers than any entry kept |
| Analytics.HardestWordsShape | app/services/analytics.py:65-68 | at most `limit` entries, non-increasing in wrong answers, drawn from the joined entries, all of them when `limit` covers them |
| Analytics.Days | app/services/analytics.py:82 | the day of each log row |
| Analytics.Accuracy | app/services/analytics.py:95 | accuracy lies in [0, 100], is 100 with no wrong answer, 0 with no right one, and strictly between otherwise |
| Analytics.AccuracyBounds | app/services/analytics.py:95 | the correct share of a non-empty day lies in [0, 1] and is 1 exactly when all answers were right |
| Analytics.DayStep | app/services/analytics.py:81-90 | one row adds one to its own day's right or wrong count |
| Analytics.DayAbsent | app/services/analytics.py:84-90 | a day without rows counts nothing |
| Analytics.DayPresent | app/services/analytics.py:84-90 | a day with a row counts at least one answer |
| Analytics.DaysNonDecreasing | app/services/analytics.py:72-82 | rows in timestamp order give days in non-decreasing order |
| Analytics.DaysPerm | app/services/analytics.py:72-77 | ordering the rows changes neither the set of days nor any day's counts |
| Analytics.DayTallyStep | app/services/analytics.py:81-90 | each pass of the history loop keeps the day dict equal to the counts of the rows seen |
| Analytics.CountByDay | app/services/analytics.py:79-90 | the history loop fills the day dict with each day's counts, days in first-seen order |
| Analytics.DayRows | app/services/analytics.py:92-102 | one result row per day, in dict order |
| Analytics.HistoryRows | app/services/analytics.py:79-104 | the rows have strictly ascending days, exactly the user's days, each with that day's counts (at least one answer) and its accuracy |
| Analytics.QuizHistory | app/services/analytics.py:70-104 | one row per day the user answered, in ascending day order, with that day's right and wrong counts and its accuracy |
| Analytics.Run | app/services/analytics.py:126-134 | the streak ending at day `i` counts at least that day and at most the days up to it |
| Analytics.LongestRun | app/services/analytics.py:123-134 | the longest streak up to day `i` is at least the streak ending there |
| Analytics.RunWindow | app/services/analytics.py:126-134 | the streak ending at day `i` covers consecutive calendar days and cannot be extended to the left |
| Analytics.LongestRunIsMax | app/services/analytics.py:126-134 | `longest` is the maximum streak over all days and is reached by one of them |
| Analytics.RunLengths | app/services/analytics.py:123-134 | the streak loop ends with the final run length and the longest run |
| Analytics.DailyStreaks | app/services/analytics.py:108-140 | the streaks of the user's sorted distinct days against today, and (0, 0) for a user with no log |
| Analytics.StreakBounds | app/services/analytics.py:117-139 | no days give (0, 0), some days give a longest streak of at least 1, and the current streak never exceeds the longest |
| Analytics.StreakExample | app/services/analytics.py:121-139 | days 1, 2, 3, 5 with today 5 give current 1 and longest 3 |
| LegacyRoutes.OwnedList | app/routes.py:393-395 | the list with that id if the user owns it, none exactly when the user owns no list with that id |
| LegacyRoutes.QuizFromList | app/routes.py:386-415 | another user's or an unknown list and an empty list are the two errors, each exactly in its case |
| LegacyRoutes.QuizFromListRoundTrip | app/routes.py:406-414 | the redirect makes `quiz_take` draw from exactly that list, `min(word_count, 21)` questions, mixed |
| LegacyRoutes.UserByEmail | app/routes.py:445 | the recipient has that e-mail, and none is found exactly when no user has it |
| LegacyRoutes.CopyOf | app/routes.py:455-462 | a copy keeps both texts, gets the new list, and starts with counts 0 and no `last_wrong` |
| LegacyRoutes.Copies | app/routes.py:454-463 | one copy per source word, in order, with fresh consecutive ids |
| LegacyRoutes.CopyWords | app/routes.py:454-463 | the copy loop builds exactly those copies |
| LegacyRoutes.ShareList | app/routes.py:423-469 | a list the user does not own, a blank e-mail and an unknown recipient are the errors, each exactly in its case, and change nothing; otherwise one new list for the recipient and the copies are added and nothing else changes |
| LegacyRoutes.CopiesKeepUnique | app/routes.py:455-463 | the copies keep word ids unique |
| LegacyRoutes.ShareKeepsSource | app/routes.py:450-465 | sharing leaves the source list's words as they were |
| LegacyRoutes.SharedListHoldsCopies | app/routes.py:450-463 | the recipient's new list holds exactly the copies |
| LegacyRoutes.CollectHardRows | app/routes.py:641-653 | the summary loop lists every word of the user's lists, list by list |
| LegacyRoutes.HardRowsCover | app/routes.py:641-653 | it holds as many rows as the user's lists hold words, and a row for each of them |
| LegacyRoutes.SortAsWritten | app/routes.py:655 | sorting on the raw `wrong_count` fails exactly when there are two or more rows and one of them has no count |
| LegacyRoutes.SortAsWrittenFails | app/routes.py:655 | a row with a NULL `wrong_count` next to one with a count makes the sort raise |
| LegacyRoutes.SortHardest | app/routes.py:655 | the corrected sort is a permutation, non-increasing in `wrong_count` with NULL read as 0 |
| LegacyRoutes.SortHardestAgrees | app/routes.py:655 | when every count is present the corrected sort is the sort as written |
| LegacyRoutes.ScoreLegacy | app/routes.py:623-634 | the older loop fails exactly when an answer lacks a key it reads, and otherwise applies the batch as the newer loop does |
| LegacyRoutes.LegacyQuizFinish | app/routes.py:606-667 | the result is committed in every case; a failing answer leaves the words alone; otherwise the words are scored, the log is untouched, and the summary holds the counts and the corrected hardest-word sort |
| LegacyRoutes.LegacyFinishBreaksConsistency | app/routes.py:623-634 | scoring a known word without logging it breaks the agreement between counters and log |
| PublicPractice.LevelOf | app/public/routes.py:37-46 | only "easy", "medium" and "hard" are levels |
| PublicPractice.LevelIgnoresCase | app/public/routes.py:43-44 | the level is looked up case-insensitively |
| PublicPractice.Kept | app/public/routes.py:57-60 | only pairs with a non-empty stripped original and translation are grouped |
| PublicPractice.KeptMembers | app/public/routes.py:57-60 | a pair is grouped exactly when some word strips to it and neither side is empty |
| PublicPractice.GroupOfMembers | app/public/routes.py:56-61 | a group holds exactly the translations paired with its key |
| PublicPractice.GroupIsTranslations | app/public/routes.py:56-61 | the group of a stripped original is exactly the non-empty stripped translations of the words that have it |
| PublicPractice.GroupStep | app/public/routes.py:57-61 | each `setdefault(...).add` keeps the dict equal to the grouping of the pairs seen |
| PublicPractice.Groups | app/public/routes.py:56-63 | the dict's keys are the questions in first-seen order, each holding its group |
| PublicPractice.CleanAll | app/public/routes.py:81 | one cleaned answer per translation, in order |
| PublicPractice.PracticeAnswers | app/public/routes.py:77-83 | a question has as many answers as its group, accepts every translation cleaned and nothing else |
| PublicPractice.Question | app/public/routes.py:76-83 | question `idx` asks its original, lists the group once each, cleans it for the answers and joins it by ", " for display |
| PublicPractice.BuildPractice | app/public/routes.py:75-83 | one question per chosen original, numbered from 1 in chosen order |
| PublicPractice.PracticeQuiz | app/public/routes.py:56-83 | `min(11, groups)` questions on pairwise distinct originals of the level, each with its own group |
| PublicPractice.PracticeLevel | app/public/routes.py:35-91 | an unknown level and a level without words are the errors, each exactly in its case; otherwise the page has the level key and label and numbered questions on distinct originals |

## Left out

- **Rounding and formatting.**
  - Accuracy is the exact ratio times 100; `round(..., 1)` is not modelled.
  - `strftime` output is not modelled; days are integer day numbers and `last_wrong` stays a timestamp.
  - Days are counted in UTC seconds, with no time zones.
- **Floating point in the weights.** `math.log` is the parameter `ln`, assumed only positive and monotone. The float sums in `random.choices` are exact reals.
- **Probabilities.** Randomness is a sequence of pre-drawn values, so no claim about distributions is made.
- **In-place sorts.** `list.sort` and the SQL `order_by` are modelled on values, as stable insertion sorts over sequences; no array is updated in place.
- **Set iteration order.** `list(set)` comes from `Collections.ListOfSet`, which picks members in an unspecified order. The contracts therefore speak of membership and distinctness, not of order.
- **`quick_quiz` crashes.** It calls `abort` and writes to `session` without importing either, so its forbidden-list and success paths raise `NameError`. The model returns the intended outcomes: `Forbidden`, or the 11 ids and the list name. `run_quick_quiz` and the redirect-only `practice` route are not modelled.
- **Flask plumbing.** Flash messages, redirects, templates, GET branches and login are not modelled. An error is a value naming the flash that would be shown.
- **Request parsing.**
  - `int(request.form.get(...))` raising `ValueError` on a non-number is not modelled; `correct` and `total` arrive as integers.
  - JSON truthiness in `bool(a.get("correct"))` is a boolean field. A missing or null `id` in the newer copy is `None`, and such an entry is skipped.
  - In the older copy a missing `"id"` key raises `KeyError`, while `"id": null` is looked up, finds no word and is skipped. A non-integer `id` is not modelled in either copy.
- **Time of recording.** Every `datetime.utcnow()` call in the answer loops (`app/quiz/routes.py:241`, `app/routes.py:633`) is the single parameter `now`, so all wrong answers of one batch get the same `last_wrong`.
- **The answer-log class and unreachable routes.**
  - `app/models.py` declares no `QuizAnswerLog` class, but `app/quiz/routes.py:10` and `app/services/analytics.py:2` import it, so both modules fail with `ImportError` as written.
  - `app/__init__.py:67-68` registers only the blueprint of `app/routes.py`, so the routes of `app/quiz/routes.py` and `app/public/routes.py` are never served.
  - The model gives the log row the columns of the `quiz_answer_log` table in migration `336e2b388cd3`. That table declares `timestamp` NOT NULL with no default, and `quiz_finish` never sets it (`app/quiz/routes.py:244-250`). That the row carries the time of recording is an assumption of the model.
- **Ownership of scored words.** Neither `quiz_finish` checks that a posted word id belongs to the user; the model scores any existing id, as the code does.
- **Transactions.** `flush`, `commit` and rollback are one whole-state update each. The older `quiz_finish` is modelled with its two commits as the result write followed by the word writes. Concurrent requests are not modelled.
- **Text.** `str.lower` covers ASCII and Latin-1 capitals only; other scripts are left unchanged. `isdigit` covers ASCII digits only. `isspace` follows Python's whitespace set.
- **NULL texts.** `(w.original or "")` in the practice page is modelled by texts that are plain strings; a NULL original is not represented.
- **Fresh ids.** Ids the database would assign come from `NextResultId`, `NextListId` and `NextWordId`. Each is larger than every stored id.
- **Outside the engine.** Words deleted between requests, the admin, auth, dashboard, lists, settings, stats and users routes, and the import and export scripts are not part of this model.
- PublicPractice.PracticeLevel: running out of pre-drawn values is stated only as a consequence: when it happens there were fewer than 11 draws, or the level has more than 85 groups. `random.sample` itself cannot fail; this error exists only because the draws are a finite input.
- PublicPractice.PracticeQuiz: the same weaker statement for running out of draws.
- QuizTaking.QuickQuiz: the same weaker statement for `DrawsExhausted`. Distinct ids are promised only when word ids are unique, which the primary key guarantees.
- QuizTaking.PickWords: returns 11 list members, and a sub-multiset only for lists of at least 11. Running out of draws is stated as a consequence only.
- RandomOracle.SampleBySet: promises only what a completed run returns. The rejection loop can use up the finite draw list and then reports failure.
- QuizTaking.QuizTake: requires enough draws for every `random()` call. The draw sequence stands for an unbounded generator, so this is not a demand on the source's callers.
- Analytics.DailyStreaks: "today" is a parameter, an integer day number.

## Findings

| source | as written | input that shows it | evidently intended | confidence | as-written member | corrected member |
|---|---|---|---|---|---|---|
| app/routes.py:641-655 | the older `quiz_finish` sorts its hardest-words summary on `getattr(w, "wrong_count", 0)`. The column exists, so a NULL count arrives as `None`. Python cannot compare `None` with an int, so the sort raises `TypeError`. Both commits (lines 621 and 634) have run by then, so the result and the word updates stay stored while the request fails | a user whose lists hold two words: one whose `wrong_count` was set to NULL by SQL outside the app (the column is nullable), and one with `wrong_count = 1`. No path in the app itself writes a NULL count | a missing count reads as 0, as `(word.wrong_count or 0)` does in the scoring loop above | low, not executed | LegacyRoutes.SortAsWrittenFails | LegacyRoutes.SortHardest |
