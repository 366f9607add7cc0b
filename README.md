# Customer-type quiz: classifier and quiz session

A Dafny model of the logic of the car-shopper training page
`docs/static/app-static.js`: the quiz that sorts a respondent into one of the
customer types of a catalog.

- **Classifier** (`calculateQuizResult`, module `Classifier`). The answers are
  a list of type tags. They are tallied into a dictionary from tag to count
  (`typeCounts`, modelled as `Scores`: a map plus the order in which keys were
  first inserted, which is the order `Object.entries` enumerates them). The
  entries are sorted by count, descending, with a stable sort, and the tag of
  the first entry is looked up in the catalog (`FindType`, module `Catalog`).
  The model proves that the tally counts every tag exactly and nothing else,
  that the counts add up to the number of answers, that the sort is a
  stable, descending permutation, and that the chosen tag is the most
  frequent one with ties going to the tag answered first (`IsDominant`).
  An empty answer list makes `[0][0]` throw: `Failure(NoAnswers)`. A
  dominant tag with no catalog record gives JavaScript's `undefined`:
  `primaryType == None`.
- **Quiz session** (`startQuiz`, `selectAnswer`, `previousQuestion`, module
  `Session`). The globals `currentQuestionIndex` and `quizAnswers` are the
  fields of class `QuizSession`; the number of questions and the catalog
  are constant fields. Each operation returns the `View` it would render: a
  question, the quiz result, or nothing. The class keeps
  `|quizAnswers| == currentQuestionIndex`, and client methods show that an
  answer followed by a step back restores the state, and that k answers
  followed by k steps back return to an empty quiz.

In three places the code does something other than what one might
expect, and the model follows the code:

- One might expect a tie to go to the first tag that reaches the maximum
  count and is never overtaken. The code keeps the first tag
  *inserted* into the tally among the tied ones. For
  `driver, analytical, analytical, driver` the code picks `driver`, although
  `analytical` reached 2 first (`TieIgnoresWhoReachesMaxFirst`).
- One might expect an "unknown type" error when the dominant tag has no
  catalog record. The code returns
  a result whose `primaryType` is `undefined`; the model returns `None`.
- One might expect answering past the last question to be rejected as a
  caller error. `selectAnswer` has no guard: it always records the
  answer and advances. The model does the same: `SelectAnswer` requires
  nothing beyond the class invariant `Valid()`, which every operation
  preserves. The path past the last question is reachable on the page:
  when the dominant tag has no catalog record, `showQuizResult` throws at
  `primaryType.icon`, its `catch` only logs the error, and the last
  question with its answer buttons stays on screen, so a further
  `selectAnswer` records one more answer and classifies again.

Files: `wrappers.dfy` (Option, Result), `catalog.dfy`, `classifier.dfy`,
`quiz_session.dfy`.

## Model

| member | source | states |
|---|---|---|
| `Catalog.FindType` | docs/static/app-static.js:15 | None exactly when no catalog record has the id; otherwise the record returned has the id and no earlier record does |
| `Classifier.FirstSeen` | docs/static/app-static.js:6-9 | the keys of the tally are exactly the tags that occur in the answers, each once (absent tags are absent, not zero) |
| `Classifier.FirstSeenOrdered` | docs/static/app-static.js:6-9 | the tally's key order is the order of the tags' first occurrences in the answers |
| `Classifier.Tally` | docs/static/app-static.js:6-9 | the forEach loop builds the map from each occurring tag to its number of occurrences, with keys in first-occurrence order |
| `Classifier.TallyStep` | docs/static/app-static.js:8 | one more answer adds 1 to its tag's count, or adds the tag as a new last key with count 1; nothing else changes |
| `Classifier.ScoresTotal` | docs/static/app-static.js:7-8 | the counts of the tally add up to the number of answers |
| `Classifier.EntriesOfAnswers` | docs/static/app-static.js:6-12 | `Object.entries` of the tally of the answers holds one pair per answered tag (tags pairwise distinct), a pair is present exactly when its tag was answered and its count is the tag's number of occurrences, and the pairs are listed in the order the tags were first answered |
| `Classifier.Dominant` | docs/static/app-static.js:12-13 | the tag of the first entry after the stable descending sort: None exactly when there are no entries; otherwise a key of the tally whose count no other key exceeds |
| `Classifier.SortByCountDesc` | docs/static/app-static.js:12-13 | the sorted entries are a permutation of `Object.entries(typeCounts)` |
| `Classifier.SortSorted` | docs/static/app-static.js:13 | the sorted entries are in descending order of count |
| `Classifier.SortStable` | docs/static/app-static.js:12-13 | entries of equal count keep their original relative order (the sort is stable) |
| `Classifier.SortHead` | docs/static/app-static.js:12-13 | the first sorted entry is the first entry of largest count in the unsorted list |
| `Classifier.DominantIsFirstMax` | docs/static/app-static.js:12-13 | `[0][0]` has no value (it throws) exactly for an empty tally; otherwise it is the key at a position whose count is at least every other count, and every key inserted before it has a strictly smaller count |
| `Classifier.DominantOfAnswers` | docs/static/app-static.js:6-13 | for non-empty answers the chosen tag occurs most often, and among equally frequent tags it is the one answered first; for empty answers there is none |
| `Classifier.DominantUnique` | docs/static/app-static.js:12-13 | the primary type is determined uniquely by the answers |
| `Classifier.Classify` | docs/static/app-static.js:2-23 | fails exactly on empty answers; otherwise returns the tally and the catalog lookup of a dominant tag, which exists and is unique |
| `Classifier.CalculateQuizResult` | docs/static/app-static.js:2-23 | the tally-sort-lookup procedure returns exactly `Classify` of its inputs |
| `Classifier.TieGoesToFirstAnswered` | docs/static/app-static.js:12-13 | analytical, driver, analytical, driver gives analytical |
| `Classifier.TieIgnoresWhoReachesMaxFirst` | docs/static/app-static.js:12-13 | driver, analytical, analytical, driver gives driver |
| `Classifier.MajorityTally` | docs/static/app-static.js:6-9 | driver, driver, amiable tallies to {driver: 2, amiable: 1} in that key order |
| `Classifier.MajorityWins` | docs/static/app-static.js:12-13 | driver, driver, amiable gives driver |
| `Session.QuizSession.constructor` | docs/static/app-static.js:26-27 | the session starts at index 0 with no answers |
| `Session.QuizSession.StartQuiz` | docs/static/app-static.js:101-105 | from any state: index 0, no answers, first question shown if there is one |
| `Session.QuizSession.SelectAnswer` | docs/static/app-static.js:145-154 | appends exactly the tag, increments the index, keeps one answer per index; shows the next question while one remains, else the classifier's result on all answers |
| `Session.QuizSession.PreviousQuestion` | docs/static/app-static.js:156-162 | at index 0 changes nothing; otherwise decrements the index and removes only the last answer, then shows that question |
| `Session.AnswerThenGoBack` | docs/static/app-static.js:145-162 | an answer followed by a step back leaves index and answers as they were |
| `Session.TakeQuiz` | docs/static/app-static.js:145-168 | answering every question from a fresh start records exactly those answers and ends on their classification |
| `Session.RetraceQuiz` | docs/static/app-static.js:101-162 | k answers then k steps back from a fresh start end at index 0 with no answers |

## Left out

- Rendering: `displayQuizQuestion`'s HTML (only whether a question and a Previous button are drawn is kept, as `QuestionScreen`), `showQuizResult`'s page, the type cards and detail modal, the strategy tabs and `showSection`; they only build strings for the page.
- Loading `customer-types.json` and `quiz-questions.json`: fetch and JSON I/O. The catalog and the number of questions are constructor parameters; question texts and answer texts are not modelled.
- Visited-section progress and its `localStorage` copy, and the progress percentage (floating-point display only).
- The `try`/`catch` in `showQuizResult`: a `Failure(NoAnswers)` or a `None` primary type is handed to the result view; the logging and the rendering crash on an undefined `primaryType` are not modelled.
- The `async`/`await` wrapper of `calculateQuizResult`: it awaits nothing and is modelled as a plain call.
- Integer-like tags: `Object.entries` lists keys such as "7" before all other keys, in numeric order. Catalog ids are words, so the tally's order is modelled as insertion order only; likewise `__proto__` and the names inherited from `Object.prototype` (`constructor`, `toString`, `valueOf`, `hasOwnProperty` and the like) are treated as ordinary keys. In the code, `typeCounts[type] || 0` reads the inherited function for such a tag, so its "count" becomes a string such as `"function toString() { [native code] }1"` and `b - a` in the comparator is NaN; the model does not capture this.
- The stable sort: `Classifier.SortByCountDesc` models `Array.prototype.sort` as one stable insertion sort; any stable sort with the same comparator gives the same order, which `SortSorted` and `SortStable` pin down.
