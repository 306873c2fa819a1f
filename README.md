# Rainbow Maths worksheet: a verified model of its arithmetic core

Rainbow Maths is a browser worksheet for practising times tables. A
`level` URL parameter selects a configuration from a fixed table. The page
then generates that level's number of different questions and lays them out
in a grid of question, answer and correct-answer cells. When the reveal
button is pressed, it scores the typed answers.

This project models the logic behind that page in Dafny and proves what it
promises:

- `Js` (`js.dfy`): the JavaScript behaviour the page relies on. This covers
  `shallowEqual` on plain objects, `String.prototype.trim`, `toLowerCase` as
  far as the level lookup can observe it, and the decimal text of a number.
- `Levels` (`levels.dfy`): the level table and the lookup that falls back
  to "yellow".
- `Questions` (`questions.dfy`): the three question kinds and
  `generateQuestion`. The values `Math.random()` would return are passed in
  as `Draws`, and `randomChoice`/`coinFlip` become `Pick`/`Heads` on those
  values.
- `QuestionSet` (`question_set.dfy`): `generateQuestions`, the
  draw-and-retry loop. Its candidate stream is a finite sequence. `Sieve` is
  the reference definition of what the loop keeps.
- `Grid` (`grid.dfy`): the column-major layout loop, and the Enter/Tab rule
  that moves focus to the next answer cell.
- `Scoring` (`scoring.dfy`): the table rows as `Cell` values in a `Worksheet` object,
  the user typing into an answer cell, and the reveal handler.

Three behaviours of the code are easy to miss, and the model follows the
code in each:

- A missing `level` parameter is not sent to the fallback level.
  `urlParams.get('level')` returns `null`, and `.toLowerCase()` on it throws
  (script.js:102). `ResolveLevel(None)` is therefore `None`. A present
  string that names no level, the empty string among them, falls back to
  yellow, with one exception in the code as written (see "## Findings"):
  "constructor" and "__proto__" name members that `levels` inherits from
  `Object.prototype`, and those skip the fallback.
- Enter/Tab moves through the answer cells in question-number order, not
  row by row. Questions fill the grid column by column, so focus runs down
  the first column, then the second, and so on.
- Every cell has the key handler, not only answer cells. In a question or
  correct-answer cell, `questionNumber` is undefined, the selector becomes
  "#qNaN", and focus goes to the first answer cell.

## Model

| member | source | states |
|---|---|---|
| Levels.Table | script.js:1-88 | the `levels` object: ten configurations under their lower-case names, field for field as written; `TableValid` and `TableRoomy` state what they satisfy |
| Levels.TableValid | script.js:1-88 | the table holds the fallback key "yellow", and every level has a non-empty list of positive times tables, a positive ceiling, positive columns and questions, and a question count divisible by the column count |
| Levels.KeysAreLowerCase | script.js:1-88 | every key of the level table is its own lower-case form |
| Levels.ResolveLevel | script.js:102-106 | a missing parameter throws (no level); a parameter whose lower-case form is a key yields that level; any other string yields yellow; the result is always a valid configured level |
| Levels.ResolveIgnoresCase | script.js:102 | a parameter resolves as its lower-case form does, and every key resolves to its own level |
| Levels.ResolveExamples | script.js:102-106 | "PiNk" finds pink; "" and "purple" fall back to yellow; a missing parameter gives no level |
| Levels.LevelsProperty | script.js:102 | the property access `levels[key]`: a configured level exactly for the table's keys, an inherited member exactly for "constructor" and "__proto__", and `undefined` for every other key |
| Levels.ResolveAsWritten | script.js:102-106 | the lookup as written: a missing parameter throws; the fallback replaces only `undefined`; the result is an inherited member, not a level, exactly when the lower-cased parameter is "constructor" or "__proto__" |
| Levels.AsWrittenAgreesElsewhere | script.js:102-106 | away from the two inherited names, the lookup as written gives the same level as `ResolveLevel` |
| Levels.InheritedKeyEscapesFallback | script.js:102-106 | "Constructor" and "__proto__" yield inherited members in the code as written, while `ResolveLevel` sends both to yellow |
| Js.ShallowEqual | script.js:90-94 | definition of `shallowEqual`: the key counts agree and every key of the first object is a key of the second with an equal value; `ShallowEqualIsEquality` proves what it means |
| Js.ShallowEqualIsEquality | script.js:90-94 | equal key counts plus one-way key inclusion with equal values holds exactly when the two objects are equal |
| Questions.ToObject | script.js:202-211 | the object literal each kind of question returns, with exactly the properties the generator writes; `SameQuestionIsEquality` proves that comparing these objects is comparing the questions |
| Questions.SameQuestion | script.js:180 | `shallowEqual(q, question)` applied to the object literals of two question records; `SameQuestionIsEquality` proves what it means |
| Questions.SameQuestionIsEquality | script.js:90-94 | on generated question records, shallowEqual holds exactly when kind, shown fields and answer are all equal, so "2 x 5" and "5 x 2" are different |
| Questions.Pick | script.js:172-174 | `Math.floor(r * n)` for r in [0,1) is an index below n |
| Questions.PickReaches | script.js:172-174 | every index below n is picked by some r in [0,1) |
| Questions.Heads | script.js:168-170 | `coinFlip()`: heads exactly when the draw exceeds 0.5 |
| Questions.QuestionTypes | script.js:189-192 | the kinds on offer always include "multiple", first; they include "square" exactly when the level has squares and "inverse" exactly when it has inverses; they never include "fraction"; none is listed twice |
| Questions.GenerateQuestion | script.js:188-213 | the generated question is admissible for the level and has the kind drawn from the offered kinds. A product shows a times table and a multiplier in [1, ceiling], in either order, with the product as answer. A square is `t*t` of a times table and needs squares. An inverse needs inverses, has exactly one blank, and its answer times the shown factor is the total; with the first factor blank the answer is the times table, otherwise it is the multiplier |
| Questions.GenerateQuestionComplete | script.js:194-212 | every admissible question comes from some draws: both display orders of a product and either blank of an inverse are reachable, so the admissible questions are exactly the generator's range |
| Questions.PinkQuestions | script.js:2-9 | on the pink level every question is a product showing 2 and a number from 1 to 10, in either order |
| QuestionSet.Sieve | script.js:179-183 | reference definition of what the retry loop keeps of a candidate stream; it keeps no more entries than there were candidates |
| QuestionSet.SieveDistinct | script.js:180-182 | no two kept questions are shallow-equal |
| QuestionSet.SieveInOrder | script.js:180-182 | the k-th kept question is the candidate at a position that strictly increases with k |
| QuestionSet.SievePrefix | script.js:182 | kept entries are never changed or reordered: what is kept of a prefix of the stream is a prefix of what is kept of the whole |
| QuestionSet.IsDuplicate | script.js:180 | `questions.some(q => shallowEqual(q, question))`, the retry condition; `DuplicateIsMember` proves what it means |
| QuestionSet.DuplicateIsMember | script.js:180 | `questions.some(q => shallowEqual(q, question))` holds exactly when the question is already in the list |
| QuestionSet.SieveCovers | script.js:180 | every candidate that was not kept equals a kept entry |
| QuestionSet.SieveSizeIsDistinctCount | script.js:179-183 | the number of questions the loop can keep equals the number of different questions in the stream |
| QuestionSet.SieveOfNoRepeats | script.js:179-183 | a stream without repeats is kept whole |
| QuestionSet.GenerateQuestions | script.js:176-186 | the result is what the reference keeps of the candidates drawn, and no two entries are shallow-equal. It holds exactly `num` questions precisely when the stream contains `num` different questions. The last draw is the one that filled the list. When the stream runs out first, every candidate was drawn |
| QuestionSet.Candidates | script.js:180 | the stream of questions `generateQuestion()` returns on successive draws: one admissible question of the level per draw |
| QuestionSet.BuildQuestionSet | script.js:108 | on one level's draws, the sheet has exactly `level.questions` questions precisely when the draws produce that many different ones; the questions are pairwise distinct and each is admissible for the level |
| QuestionSet.TableRoomy | script.js:1-88 | every configured level has different times tables and at least as many products as questions |
| QuestionSet.RoomyLevelCanFinish | script.js:179-183 | a level of that kind has a stream of draws on which the retry loop completes |
| Grid.CellQuestion | script.js:114-118 | the index formula `j + k * (questions.length / level.columns)` for the cell in row j, column k; its round trips follow |
| Grid.CellRoundTrip | script.js:114-118 | the question shown at a cell lies on the sheet, and the inverse map returns the cell |
| Grid.PositionRoundTrip | script.js:114-118 | every question has a cell, and that cell shows that question |
| Grid.GridBijection | script.js:114-118 | with `n` divisible by `columns`, cell `(j, k)` shows question `j + k*(n/columns)`, and this is a bijection of [0, n) with an explicit inverse |
| Grid.CellQuestionInRange | script.js:114-118 | every cell's question index is below n |
| Grid.LayoutOrder | script.js:114-118 | reference layout: n question indices, each below n |
| Grid.LayoutIsPermutation | script.js:114-118 | the layout shows every question exactly once |
| Grid.Layout | script.js:114-120 | the nested row/column loops produce the reference layout |
| Grid.NextFocus | script.js:142-150 | Enter/Tab in answer cell i moves to i+1 while that cell exists and otherwise wraps to 0; a cell without a question number moves to 0; the target is always an existing answer cell |
| Grid.FocusCycles | script.js:142-150 | k presses from answer cell i land on cell (i + k) mod n, so navigation visits every answer cell in a cycle |
| Js.IsWhiteSpace | script.js:221 | the characters `trim` strips: the code points of ECMAScript's WhiteSpace and LineTerminator productions |
| Js.TrimStart | script.js:221 | white space removed from the front, one code point at a time; `TrimStartIsSuffix` states the result |
| Js.TrimEnd | script.js:221 | white space removed from the back, one code point at a time; `TrimEndIsPrefix` states the result |
| Js.Trim | script.js:221 | `String.prototype.trim` as trailing trim after leading trim; `TrimIsSlice` and `TrimIdempotent` state the result |
| Js.TrimStartIsSuffix | script.js:221 | leading trim keeps a suffix that does not start with white space and removes only white space |
| Js.TrimEndIsPrefix | script.js:221 | trailing trim keeps a prefix that does not end with white space and removes only white space |
| Js.TrimIsSlice | script.js:221 | `trim` returns a contiguous slice with no white space at either end, and it drops only white space |
| Js.TrimIdempotent | script.js:221 | trimming twice equals trimming once |
| Js.LowerChar | script.js:102 | A-Z go to a-z and KELVIN SIGN goes to 'k'; no result is an upper-case ASCII letter |
| Js.ToLower | script.js:102 | the string lower-cased code point by code point, of the same length |
| Js.ToLowerIdempotent | script.js:102 | lower-casing is idempotent and leaves a string with no upper-case letters unchanged |
| Js.NatToString | script.js:133 | the decimal text of a number is a non-empty string of digits with no leading zero |
| Js.NatToStringRoundTrip | script.js:133 | the decimal text reads back as the number |
| Js.NatToStringInjective | script.js:231 | different numbers have different decimal texts |
| Js.IntToString | script.js:231 | the text of an integer starts with a digit exactly when the integer is non-negative, starts with '-' exactly when it is negative, and ends with a digit |
| Scoring.Matches | script.js:221 | two cell texts match when they are equal after `trim` |
| Scoring.Marks | script.js:221-223 | the match flag of every row, one per row, each true exactly when that row's trimmed texts agree |
| Scoring.CountMatches | script.js:224 | the reveal loop's score: the tally of the match flags; `ScoreCountsMatches` states what it counts |
| Scoring.Tally | script.js:220-225 | the running count never exceeds the number of positions |
| Scoring.TallyIsCardinality | script.js:220-225 | the count equals the number of marked positions |
| Scoring.TallyExtremes | script.js:220-225 | the count is full exactly when every position is marked, and zero exactly when none is |
| Scoring.ScoreCountsMatches | script.js:220-225 | the score is the number of positions where the trimmed answer equals the trimmed expected text; it lies between 0 and the number of cells, is full exactly when all match, and is 0 exactly when none does |
| Scoring.ScoreIgnoresWhiteSpace | script.js:221 | answers "14", " 14 ", "13" against "14", "14", "14" score 2 |
| Scoring.ScoreSummary | script.js:231-234 | the score line: the score, " / ", the level's question count, and " \u{1F929}" when the two are equal |
| Scoring.SummaryShowsScore | script.js:231-234 | the summary starts with the score and " / ", and ends with the emoji exactly when the score equals the level's question count |
| Scoring.Revealed | script.js:221-227 | one iteration of the reveal loop on a row: both cells marked correct if the trimmed texts match, the correct answer shown, the answer cell locked |
| Scoring.RevealedRow | script.js:219-229 | revealing a row keeps both texts, shows the correct answer and locks the answer cell; an unmarked cell ends up marked exactly when the trimmed texts agree; revealing a row twice is the same as once |
| Scoring.RevealKeepsTexts | script.js:219-229 | a revealed table has the same answer and correct-answer texts as before, and none of its answer cells is editable |
| Scoring.Worksheet.constructor | script.js:114-141 | a fresh table. Row p's correct-answer text is the answer of the question the layout puts there, and it is hidden. Answers are empty and not marked correct. Answer and correct-answer cells are editable exactly when the sheet is not printable |
| Scoring.Worksheet.Type | script.js:139 | typing changes an answer cell's text only when the cell is editable; nothing else changes |
| Scoring.Worksheet.TypeExpected | script.js:139 | editing a correct-answer cell changes its text only when the cell is editable; nothing else changes |
| Scoring.Worksheet.Reveal | script.js:215-236 | every row is revealed as `Revealed` states. The returned score is the number of rows whose trimmed texts agree before the reveal. The summary is `score / questions`, with the emoji on full marks, and it is shown |
| Scoring.Fill | script.js:139 | typing a list of answers into editable answer cells gives each row that answer and changes nothing else of the row or of the score line |
| Scoring.RevealTwice | script.js:215-236 | after given answers are typed, a second reveal gives the same score as the first, even after an attempt to type into an answer cell in between; the score is the number of matches against the laid-out answers |
| Scoring.OneRowScores | script.js:220-225 | the answer "2" scores 1 against the key "2" and 0 against the key "3" |
| Scoring.EditingKeyChangesScore | script.js:139-236 | a revealed correct-answer cell stays editable; changing the key of a one-question sheet from "2" to "3" changes the next reveal's score from 1 to 0 |

## Left out

- `Math.random` is not modelled. Its values are the `Draws` parameters, each
  an exact real in [0, 1). Floating-point rounding of `r * n` is not
  modelled.
- Termination of the retry loop (script.js:180) is not modelled. The source
  loop is unbounded. Here the stream of candidates is finite.
  `GenerateQuestions` reports `ok == false` when the stream runs out. The
  source would go on drawing. It hangs only when the level has fewer than
  `num` different questions, which `TableRoomy` rules out for every
  configured level.
- `RoomyLevelCanFinish` only shows that finishing draws exist. It says
  nothing about the probability that the random loop finishes.
- `Js.LowerChar`, `Js.ToLower`: `LowerChar` maps only A-Z and KELVIN SIGN (U+212A, whose lower case is
  'k'). Every other code point is left as it is. JavaScript's
  `toLowerCase` applies full Unicode case mapping. The level keys are plain
  lower-case ASCII, and no other code point lower-cases to an ASCII letter
  alone. Lookups therefore agree, but `ToLower` is not a model of
  `toLowerCase` on other text.
- `Js.IsWhiteSpace` lists the code points of ECMAScript's WhiteSpace and
  LineTerminator productions, as of Unicode's current Zs category.
- URL parsing (script.js:100-101) is not modelled. The `level` parameter
  enters as an `Option<string>`, and `printable` enters as a boolean.
- DOM construction is not modelled: element creation, `innerHTML`, class
  lists, ids, `colSpan`, the title, focus on load, and hiding the reveal
  button in printable mode (script.js:96-98, 110-112, 122-153). What the
  reveal handler reads and writes appears as the `Cell` rows and the score
  fields of `Worksheet`.
- `getQuestionText` (script.js:155-166) is not modelled. It only formats
  labels for display.
- Scoring.Worksheet.constructor: the `#score` cell comes from the page's
  HTML, which is not part of this model. Its starting empty text is
  assumed. Its starting "hidden" class is implied by the
  `classList.remove("hidden")` at script.js:235.
- The `editable` option of `addCell` is not modelled because the source
  ignores it: every cell gets `contentEditable = !printable`. The answer
  and correct-answer cells' editability is modelled. The question cells'
  text is read by nothing, so it is left out.
- Scoring.RevealTwice: only typing into answer cells is considered between
  the reveals. A revealed correct-answer cell stays editable, and editing
  it changes the next score (`EditingKeyChangesScore`).
- What the page does after the lookup as written returns an inherited
  member is not modelled. `level.questions` is then `undefined`, so no
  questions and no rows are built, and outside printable mode
  `table.querySelector("#q0").focus()` (script.js:125) throws.
- Event wiring (`addEventListener`, `preventDefault`) is not modelled. It
  is reduced to the key rule `NextFocus` and the click handler `Reveal`.

## Findings

| source | as written | input that shows it | evidently intended | confidence | as-written member | corrected member |
|---|---|---|---|---|---|---|
| script.js:102-106 | `levels[key]` also finds members inherited from `Object.prototype`. They are truthy, so the yellow fallback is skipped and the page continues with something that is not a level | `?level=constructor` (in any case) or `?level=__proto__` | every name that is not a configured level falls back to yellow | high; not executed | Levels.InheritedKeyEscapesFallback | Levels.ResolveLevel |
