# kousuan practice core, modelled in Dafny

kousuan is a mental-arithmetic practice application for primary-school grades 1–6.
This project models four parts of it:

- **The problem generator.** It holds a per-grade rule table and draws operations and operands. It checks each draw for validity and retries for up to twenty attempts. A window of the hundred most recent problem texts keeps problems from repeating. When every attempt fails, it falls back to a fixed problem.
- **The server's practice sessions.** These are starting a practice, grading a submitted answer and keeping the wrong-problem ledger, finishing a practice into a history record, and querying or pruning the history and the ledger.
- **The importer.** It turns CSV rows and Word-document text into problems and dispatches on the uploaded file's extension.
- **The browser's practice store.** This covers its mutations, and the actions that commit them only on a 200 reply.

Every operation is a pure function on immutable data. The server's global arrays and the generator's set of recent texts are one explicit `Store` value, threaded through the transitions.

Three things that the runtime supplies are parameters instead:
- The clock is an integer `now`.
- Each value of `Math.random()` is a natural number, which picks a value from its range.
- The client's invented ids come from a function argument.

JavaScript `NaN` and `undefined` used as numbers are `None`. Answers are exact rationals (`real`).

Modules, in dependency order:
- `Wrappers`: `Option` and `Result`.
- `Seqs`: `filter`, and JavaScript array assignment past the end.
- `Numerals`: integer interpolation, `parseInt`, and the white-space class.
- `Arith`: the operators, `Math.round`, `toFixed`, the problem text, and the `Problem` record.
- `ProblemGenerator`, `PracticeStore`, `FileHandler` and `ClientPractice`: one module for each source file.

## Behaviour as written

Several behaviours of the generator follow from its code rather than from its rule table's apparent intent. The model keeps them.

- **Addition and division draws are always `NaN`.** `generateNumbers` reads `maxNum` from the per-operation rule, and no rule defines it. Addition falls back to `maxNum`, because the addition rules have no `maxNum1`. Division divides `maxNum` by the divisor. So every addition and division draw is rejected, and the loop only ever accepts subtractions and multiplications.
- **The fallback is always an addition.** It uses the grade's first operation, which is `+` in every grade. So the fallback problem is `10g + 5g = ?`.
- **The upper grades have one problem each.** The clamps in `getRandomNumber` and `generateNumbers` pin grade 5's subtraction to `10000 - 10000` and its multiplication to `100 * 100`. They pin grade 6's to `100000 - 100000` and `1000 * 1000`.
- **Count 0 always succeeds.** `startPractice` with count 0 succeeds even for a grade the table lacks. A negative count always fails.

## Model

| member | source | states |
|---|---|---|
| Arith.ParseOp | backend/src/services/problemGenerator.js:222-232 | An operator text is recognised exactly when it is one of `+ - * ÷`, and a recognised text is that operator's glyph. |
| Arith.ParseOpOfGlyph | backend/src/services/problemGenerator.js:222-232 | Every operator's glyph reads back as that operator. |
| Arith.RoundHalfUp | backend/src/services/problemGenerator.js:97-100 | `Math.round` gives the integer within half of `x`, with halves going up. |
| Arith.Round2 | backend/src/services/problemGenerator.js:228-230 | `toFixed(2)` gives a whole number of hundredths within 0.005 of `x`, and keeps non-negative values non-negative. |
| Arith.Round2Hundredths | backend/src/services/problemGenerator.js:100 | Rounding a value already in hundredths leaves it unchanged. |
| Arith.Round2Idempotent | backend/src/services/problemGenerator.js:100 | Rounding to hundredths twice is rounding once. |
| Arith.Round1 | backend/src/controllers/practiceController.js:161 | `toFixed(1)` gives a whole number of tenths within 0.05 of `x`, staying within 0..100 when `x` is. |
| Numerals.NatToString | backend/src/services/problemGenerator.js:92 | Interpolating a natural number gives a non-empty digit string, with no leading zero unless the number is 0. |
| Numerals.IntToString | backend/src/services/problemGenerator.js:92 | A negative integer renders as a minus sign followed by digits. A non-negative one renders as digits only. |
| Numerals.ParseInt | backend/src/services/fileHandler.js:47-49 | `parseInt` yields a number only when the text contains a hexadecimal digit. |
| Numerals.ParseDecimalOfNatToString | backend/src/services/fileHandler.js:99-105 | Reading back the decimal rendering of a natural number gives the number. |
| Numerals.NatToStringInjective | backend/src/services/problemGenerator.js:92-94 | Distinct numbers never share a rendering. |
| Numerals.ParseIntOfIntToString | backend/src/services/fileHandler.js:47-49 | `parseInt` of an interpolated integer is that integer. |
| Numerals.SpanWhile | backend/src/services/fileHandler.js:94 | A greedy run ends at the first character outside the class. |
| Numerals.SpanWhileStops | backend/src/services/fileHandler.js:94 | A greedy run ends exactly where the class stops holding. |
| Seqs.Filter | backend/src/controllers/practiceController.js:208-219 | `filter` keeps exactly the elements that satisfy the test. |
| Seqs.FilterAppend | backend/src/controllers/practiceController.js:206-219 | Filtering distributes over concatenation, so it keeps order. |
| Seqs.FilterKeepsAll | backend/src/controllers/practiceController.js:266-268 | A filter that every element passes changes nothing. |
| Seqs.FilterFilter | backend/src/controllers/practiceController.js:240-246 | Two successive filters are one filter by the conjunction of their tests. |
| Seqs.FilterKeepsKeysUnique | backend/src/controllers/practiceController.js:240-246 | Filtering keeps a unique key unique. |
| Seqs.ArraySet | backend/src/controllers/practiceController.js:97-100 | Assigning `a[i]` sets slot `i` and leaves other slots unchanged. Slots skipped past the end read as empty. |
| ProblemGenerator.GradeConfigs | backend/src/services/problemGenerator.js:3-65 | Exactly grades 1 to 6 are configured. Each has operations with rules, and addition first. No rule sets `maxNum`. |
| ProblemGenerator.RandomNumber | backend/src/services/problemGenerator.js:216-220 | A draw is `NaN` exactly when a bound is. Otherwise it lies within the clamped range. |
| ProblemGenerator.RandomNumberCoversRange | backend/src/services/problemGenerator.js:216-220 | Every value of the clamped range is produced by some draw. |
| ProblemGenerator.RandomOperation | backend/src/services/problemGenerator.js:239-241 | The drawn operation is one of the grade's operations. |
| ProblemGenerator.RandomOperationCovers | backend/src/services/problemGenerator.js:239-241 | Every operation the grade lists is drawn by some random value. |
| ProblemGenerator.SubtractionDrawOrdered | backend/src/services/problemGenerator.js:153-155 | A subtraction draw of `GenerateNumbers` (`generateNumbers`) never has a subtrahend above its minuend. |
| ProblemGenerator.AdditionDrawIsNaN | backend/src/services/problemGenerator.js:148-156 | Without `maxNum1` and `maxNum` in the rule, an addition draw of `GenerateNumbers` (`generateNumbers`) is `NaN`. |
| ProblemGenerator.DivisionDrawIsNaN | backend/src/services/problemGenerator.js:161-168 | Without `maxNum` in the rule, the dividend of a division draw of `GenerateNumbers` (`generateNumbers`) is `NaN`. |
| ProblemGenerator.IsValidProblem | backend/src/services/problemGenerator.js:190-214 | An accepted draw is numeric. A no-negative subtraction does not go below zero. A sum stays within `maxResult` and a million, and a product within a million. A division has a non-zero divisor, divides evenly when required, and has a quotient of at most a million. |
| ProblemGenerator.CalculateAnswer | backend/src/services/problemGenerator.js:222-237 | `+ - *` give the exact integer result. `÷` gives 0 for a zero divisor. Otherwise it gives a whole number of hundredths within 0.005 of the quotient, and exactly the quotient when it divides evenly. |
| ProblemGenerator.FinalAnswerIsCalculated | backend/src/services/problemGenerator.js:91-100 | The second rounding of an accepted problem's answer changes nothing. |
| ProblemGenerator.Remember | backend/src/services/problemGenerator.js:94-111 | A new text enters the window. The oldest text is evicted when the window passes 100. The window stays distinct and bounded. |
| ProblemGenerator.RememberEvictsOldest | backend/src/services/problemGenerator.js:106-111 | On overflow, the window loses exactly its oldest text and gains the new one. |
| ProblemGenerator.ClearRecentProblems | backend/src/services/problemGenerator.js:143-145 | Clearing empties the window. |
| ProblemGenerator.Candidate | backend/src/services/problemGenerator.js:81-84 | An attempt draws one of the grade's operations. |
| ProblemGenerator.TryAttempts | backend/src/services/problemGenerator.js:76-116 | The loop gives up exactly when no remaining attempt is kept, that is, a valid draw whose text is not in the window. Otherwise it returns the problem of the first kept attempt `j`, with id `now + j`. That text was not in the window and has entered it. |
| ProblemGenerator.GenerateProblem | backend/src/services/problemGenerator.js:69-141 | `null` comes exactly for an unknown grade. Otherwise the result is either an accepted new problem recorded in the window, or the fallback with the window unchanged. The window invariant is kept. |
| ProblemGenerator.GenerateProblemTakesFirstKept | backend/src/services/problemGenerator.js:76-134 | For a known grade, the result is the first kept attempt's problem, with its index added to the clock as its id and its text remembered. It is the fallback, with the window unchanged, exactly when no attempt is kept. |
| ProblemGenerator.AdditionAndDivisionNeverAccepted | backend/src/services/problemGenerator.js:147-173 | In every grade, every addition and division draw is rejected. |
| ProblemGenerator.AcceptedIsSubOrMul | backend/src/services/problemGenerator.js:69-141 | Every generated problem is a subtraction, a multiplication or the fallback addition `10g + 5g`. |
| ProblemGenerator.FallbackIsValidAddition | backend/src/services/problemGenerator.js:119-134 | The fallback, built from `SafeNumbers` (`getSafeNumbers`, problemGenerator.js:175-188), is `10g + 5g` with answer `15g`, and is valid under the grade's addition rule. |
| ProblemGenerator.UpperGradesCollapse | backend/src/services/problemGenerator.js:47-64 | Grades 5 and 6 draw a single subtraction and a single multiplication. |
| PracticeStore.EmptyStoreOk | backend/server.js:45 | The empty store satisfies the store invariant. |
| PracticeStore.GeneratorAt | backend/src/controllers/practiceController.js:24 | Problem `k` of the loop is what `generateProblem` returns on problem `k`'s draws and the current window. |
| PracticeStore.Generated | backend/src/controllers/practiceController.js:23-37 | Generating problems `i` to `n - 1` in turn gives `n - i` problems. It keeps the window invariant when every call does. |
| PracticeStore.GeneratedGrades | backend/src/controllers/practiceController.js:23-37 | When every call answers a problem of the grade, every generated problem has that grade. |
| PracticeStore.GenerateAll | backend/src/controllers/practiceController.js:19-37 | The loop keeps earlier problems and, on success, has one more problem per remaining index. It stops at once when the count is reached. It aborts when every call for the index returns `null`. |
| PracticeStore.GenerateAllIsGenerated | backend/src/controllers/practiceController.js:19-37 | When no call returns `null`, the loop appends exactly the problems generated one after another, each call seeing the window the previous one left. |
| PracticeStore.GeneratorAtFacts | backend/src/controllers/practiceController.js:24 | For a known grade no call returns `null`, and every problem carries the grade. For an unknown grade every call returns `null` and leaves the window. Windows stay bounded and distinct. |
| PracticeStore.StartPractice | backend/src/controllers/practiceController.js:10-68 | The result is 200 exactly when the count is 0, or positive with a known grade. On 200 one practice is appended, with the clock as its id, the grade on every problem, and an all-empty answer list of the same length. Otherwise the result is 500 with the window cleared. |
| PracticeStore.StartPracticeGenerates | backend/src/controllers/practiceController.js:17-37 | A successful start holds exactly the problems `generateProblem` returns on each problem's draws in turn, starting from a cleared window, and keeps the window the last call left. |
| PracticeStore.FindPractice | backend/src/controllers/practiceController.js:75 | Finds the first practice with the id, or reports that none has it. |
| PracticeStore.FindText | backend/src/controllers/practiceController.js:113-115 | Finds an entry with the text that no earlier entry shares, or reports that no entry has it. |
| PracticeStore.RecordWrong | backend/src/controllers/practiceController.js:102-123 | A known text gets one more miss and the new date. An unknown text gets an appended entry with count 1. Texts stay unique. |
| PracticeStore.MissesUpdate | backend/src/controllers/practiceController.js:117-119 | Replacing one entry changes the misses of its text by the difference in counts. |
| PracticeStore.MissesAppend | backend/src/controllers/practiceController.js:120-121 | Appending an entry adds its count to its text's misses. |
| PracticeStore.RecordWrongCountsOneMiss | backend/src/controllers/practiceController.js:102-123 | A wrong answer adds exactly one miss to its own text and none to any other text. |
| PracticeStore.SubmitAnswer | backend/src/controllers/practiceController.js:70-138 | The result is 404 exactly for an unknown practice or an index with no problem. Otherwise it changes only that practice's answer slot, by the 0.0001 rule, and records a wrong answer in the ledger. |
| PracticeStore.CountsBounded | backend/src/controllers/practiceController.js:156-158 | Correct answers number at most the answered ones, which number at most the slots. |
| PracticeStore.CountAnsweredAfterAnswer | backend/src/controllers/practiceController.js:97-100 | Answering a slot counts it as answered once, however often it is answered. |
| PracticeStore.Score | backend/src/controllers/practiceController.js:160 | The score is the percentage rounded to the nearest integer, within 0..100, and 0 with no answers. |
| PracticeStore.Accuracy | backend/src/controllers/practiceController.js:161 | The accuracy is `NaN` exactly with no answers. Otherwise it is the percentage to a tenth, and 100 when every answer is correct. |
| PracticeStore.Annotate | backend/src/controllers/practiceController.js:174-178 | Each problem is paired with its answer slot, or with none past the end. |
| PracticeStore.HistoryOf | backend/src/controllers/practiceController.js:164-179 | The history record carries the practice's id, grade and problem count and the clock as its date. Its counts are `CountCorrect` and `CountAnswered` (the correct and the answered slots, practiceController.js:156-158), its score and accuracy are computed from them, its time is the elapsed seconds, and its problems are paired with their answers. |
| PracticeStore.FinishPractice | backend/src/controllers/practiceController.js:140-200 | The result is 404 exactly for an unknown practice. Otherwise the practice is completed with its summary, and exactly one history record is appended. |
| PracticeStore.QueryHistory | backend/src/controllers/practiceController.js:203-232 | Returns exactly the records that match the grade and the date range. |
| PracticeStore.QueryHistoryAppend | backend/src/controllers/practiceController.js:181-232 | A later record joins the end of the query's answer if it matches, and changes nothing else. |
| PracticeStore.QueryWrongProblems | backend/src/controllers/practiceController.js:235-259 | Returns exactly the entries that match the grade and the operation text, still unique by text. The operation text is compared with the problem's operator glyph. |
| PracticeStore.QueryWrongProblemsAppend | backend/src/controllers/practiceController.js:235-246 | A later ledger entry joins the end of the answer exactly when it matches, so the answer keeps the ledger's order. |
| PracticeStore.QueryWrongProblemsUnknownOperation | backend/src/controllers/practiceController.js:244-246 | An operation text that is no operator's glyph, such as `×`, selects nothing. |
| PracticeStore.RemoveWrongProblem | backend/src/controllers/practiceController.js:261-280 | Always 200. Exactly the entries with that id are dropped, so an unknown id changes nothing. |
| PracticeStore.RemoveWrongProblemAppend | backend/src/controllers/practiceController.js:261-270 | A later ledger entry survives removal, at the end, exactly when its id differs, so the remaining entries keep the ledger's order. |
| FileHandler.ReplaceFirst | backend/src/services/fileHandler.js:43-45 | Replaces only the first occurrence of the character. |
| FileHandler.Normalize | backend/src/services/fileHandler.js:43-45 | A one-character operator maps `×` to `*` and `/` to `÷`, and keeps any other character. |
| FileHandler.NormalizedOperatorRecognised | backend/src/services/fileHandler.js:43-154 | After normalisation, a glyph is an accepted operator exactly when it is one of `+ - * ÷ × /`. |
| FileHandler.CalculateAnswer | backend/src/services/fileHandler.js:160-176 | Throws exactly for an unknown operator or division by zero. Otherwise it agrees with the generator's calculation. |
| FileHandler.DetermineGrade | backend/src/services/fileHandler.js:178-186 | The grade is 1 plus the number of thresholds (20, 100, 1000, 10000, 100000) that the larger operand exceeds. |
| FileHandler.DetermineGradeMonotone | backend/src/services/fileHandler.js:178-186 | A larger operand never gives a lower grade. |
| FileHandler.Collect | backend/src/services/fileHandler.js:57-70 | The accumulator stays a prefix and grows by at most one problem per item. Nothing accepted means nothing added. |
| FileHandler.CollectAppend | backend/src/services/fileHandler.js:57-70 | One more item appends exactly the problem it yields, numbered by how many came before, or nothing. So the order is kept and each accepted item gives one problem. |
| FileHandler.CollectProvenance | backend/src/services/fileHandler.js:57-70 | Each collected problem is the one some item yields at its own position. |
| FileHandler.CollectAll | backend/src/services/fileHandler.js:57-70 | When each item yields a given problem at its position, the collection is exactly those problems. |
| FileHandler.CollectKeeps | backend/src/services/fileHandler.js:68-70 | An item accepted at any index makes the collection grow. |
| FileHandler.RowProblem | backend/src/services/fileHandler.js:39-74 | A row yields a problem exactly when it has an operator and numeric operands and grade, a known operator, no division by zero and a grade of 1..6, as `FileHandler.IsValidProblem` (`isValidProblem`, fileHandler.js:149-158) checks. The operands and grade are `parseInt` of the row's cells, and the operator is the normalised operator cell. The problem is consistent. |
| FileHandler.ImportCsv | backend/src/services/fileHandler.js:34-85 | Fails exactly when no row is accepted. Otherwise it returns the rows' problems in order, consistent and with consecutive ids. |
| FileHandler.CsvProblemsAppend | backend/src/services/fileHandler.js:39-70 | One more row appends exactly its own problem, numbered after those before it, or nothing. |
| FileHandler.RowProblemOfProblemRow | backend/src/services/fileHandler.js:39-70 | A row holding a problem's numbers, glyph and grade reads back as that problem, with the row's id. |
| FileHandler.CsvProblemsOfProblemRows | backend/src/services/fileHandler.js:39-70 | The rows of consecutively numbered importable problems read back as exactly those problems. |
| FileHandler.ImportCsvOfProblemRows | backend/src/services/fileHandler.js:34-85 | Importing the rows of a non-empty list of consecutively numbered importable problems gives back that list. |
| FileHandler.CsvProblemsFacts | backend/src/services/fileHandler.js:75-82 | The CSV problems are empty exactly when no row is accepted, and each is consistent. |
| FileHandler.MatchAt | backend/src/services/fileHandler.js:94 | A match captures two non-empty digit runs and an operator glyph, starting where it starts. |
| FileHandler.MatchAtShape | backend/src/services/fileHandler.js:94 | A match is found only where the text has the pattern's shape. The captures are its digit runs and operator, and the match ends after its mark. |
| FileHandler.MatchAtOfShape | backend/src/services/fileHandler.js:94 | Wherever the text has the pattern's shape, a match is found with exactly those captures and that end. |
| FileHandler.ScanFrom | backend/src/services/fileHandler.js:94-97 | Every match the `exec` loop finds has digit operands and an operator glyph. |
| FileHandler.ScanFromEmpty | backend/src/services/fileHandler.js:94-97 | The loop finds nothing exactly when no match starts at or after the position. |
| FileHandler.ScanFromLeftmost | backend/src/services/fileHandler.js:94-97 | Otherwise it takes the leftmost match and resumes where that match ends. |
| FileHandler.ProblemTextLayout | backend/src/services/problemGenerator.js:92 | Locates each part of the text `a op b = ?`. |
| FileHandler.ProblemTextOfNats | backend/src/services/problemGenerator.js:92 | The text of a problem with non-negative operands has the pattern's layout, with the operands' digits and the glyph in place. |
| FileHandler.LayoutOfProblemText | backend/src/services/fileHandler.js:94 | The text of a problem with non-negative operands has the pattern's layout. |
| FileHandler.SpansOfLayout | backend/src/services/fileHandler.js:94 | Every greedy run in that layout ends where the layout says it does. |
| FileHandler.MatchAtLayout | backend/src/services/fileHandler.js:94 | That layout is one match spanning the whole text. |
| FileHandler.ScanLayout | backend/src/services/fileHandler.js:94-97 | That layout scans as exactly its one match. |
| FileHandler.ScanProblemText | backend/src/services/fileHandler.js:94-97 | Scanning a problem's text finds exactly its operands and operator. |
| FileHandler.WordProblem | backend/src/services/fileHandler.js:97-134 | A match yields a problem exactly when it does not divide by zero. The operands are the captured digits' values, the operator is the normalised glyph, and the grade is inferred from the operands. The problem is consistent. |
| FileHandler.WordProblemsAppend | backend/src/services/fileHandler.js:97-129 | One more match appends exactly its own problem, numbered after those before it, or nothing. |
| FileHandler.ImportWord | backend/src/services/fileHandler.js:87-147 | Fails exactly when every match divides by zero. Otherwise it returns the scanned matches' problems in order, consistent and with consecutive ids. |
| FileHandler.WordProblemsFacts | backend/src/services/fileHandler.js:136-142 | The Word problems are empty exactly when every match divides by zero, and each is consistent. |
| FileHandler.ImportWordOfProblemText | backend/src/services/fileHandler.js:87-147 | Importing a problem's own text gives back that problem, with the inferred grade. |
| FileHandler.LastIndexOf | backend/src/services/fileHandler.js:23 | Finds the last occurrence of a character, or reports that there is none. |
| FileHandler.Basename | backend/src/services/fileHandler.js:23 | The base name contains no `/`. |
| FileHandler.ExtName | backend/src/services/fileHandler.js:23 | The extension is empty, or starts with its only `.`. |
| FileHandler.ToLower | backend/src/services/fileHandler.js:23 | Lower-cases each letter in place. |
| FileHandler.LastIndexOfSplit | backend/src/services/fileHandler.js:23 | Finds the last `.` before a dot-free suffix. |
| FileHandler.ExtNameOfStem | backend/src/services/fileHandler.js:23 | The extension of `stem.ext` is `.ext`. |
| FileHandler.ImportFromFile | backend/src/services/fileHandler.js:22-32 | `.csv` and `.docx` go to their importers in any letter case. Any other extension is rejected. |
| FileHandler.LowerCsv | backend/src/services/fileHandler.js:23 | Both `.csv` and `.CSV` lower-case to `.csv`. |
| FileHandler.CsvNamesDispatchToCsv | backend/src/services/fileHandler.js:22-26 | `stem.csv` and `stem.CSV` both go to the CSV importer. |
| ClientPractice.InitialOk | frontend/src/store/modules/practice.js:3-11 | The initial state is well formed, with no practice id and an accuracy of 0. |
| ClientPractice.SetProblems | frontend/src/store/modules/practice.js:14-25 | Answers become all-empty with one slot per problem, and the index becomes 0. Truthy ids are kept and missing ones are invented. The practice id changes only for a truthy payload id. |
| ClientPractice.SetAnswer | frontend/src/store/modules/practice.js:26-31 | Only answer slot `index` and the current index change. The index advances exactly when `index` is before the last problem. |
| ClientPractice.SetAnswerAtCurrentOk | frontend/src/store/modules/practice.js:26-31 | Answering the current problem keeps the state well formed. The index stays put exactly on the last problem. |
| ClientPractice.SetPracticeResults | frontend/src/store/modules/practice.js:32-36 | Exactly score, accuracy and total time change. |
| ClientPractice.ResetPractice | frontend/src/store/modules/practice.js:37-45 | Every field returns to its initial value. |
| ClientPractice.GenerateProblems | frontend/src/store/modules/practice.js:49-73 | Commits exactly on a 200 reply with data, taking the practice's problems and id. Otherwise it throws. |
| ClientPractice.SubmitAnswer | frontend/src/store/modules/practice.js:75-95 | Succeeds exactly on a 200 reply with data, recording the answer at the current index. Any other status rejects, and the action rethrows. |
| ClientPractice.FinishPractice | frontend/src/store/modules/practice.js:97-109 | Succeeds exactly on a 200 reply with data, storing exactly the reply's results. Any other status rejects, and the action rethrows. |
| ClientPractice.FindPracticeByIds | backend/src/controllers/practiceController.js:75 | A practice's position depends only on the practices' ids. |
| ClientPractice.FindPracticeLast | backend/src/controllers/practiceController.js:53-75 | A practice appended with a new id is found at the end. |
| ClientPractice.GeneratedMirrors | frontend/src/store/modules/practice.js:60-62 | Committing a practice reply gives the client that practice's id, problem count and empty answers. |
| ClientPractice.StartThenGenerateMirrors | frontend/src/store/modules/practice.js:60-62 | After a successful start, the committed client state mirrors the server's new practice. |
| ClientPractice.SubmitKeepsMirror | frontend/src/store/modules/practice.js:75-89 | Submitting at the current index succeeds on the server. The client keeps mirroring the server's answers. |

## Left out

- **Clock and randomness.** `Date.now()`, `new Date()` and `Math.random()` are parameters. Dates are integer clock readings.
- **I/O around the importer.** File streams, the CSV parser, the Word text extractor and deleting the uploaded file are outside the model. The importers receive parsed rows and raw text.
- **Exporting.** The export of problems to CSV and Word, the HTTP layer and the routes are not part of this model.
- **Logging.** The console logging is not modelled.
- **Request field types.** `parseInt(practiceId)`, the query-string grade, the ids and the request body's numeric fields are taken as already numeric. The operation query stays a string.
- FileHandler.ImportCsv: reads the clock once per import, where the source reads it once per row. So ids are consecutive from one reading.
- FileHandler.ImportWord: reads the clock once per import, where the source reads it once per match.
- **Number precision.** Numbers are exact. Floating-point rounding of quotients and ratios, and the precision loss of `parseInt` on very long digit strings, are not modelled.
- PracticeStore.IsCorrect: applies the 0.0001 tolerance in exact arithmetic, so an answer whose difference falls under 0.0001 only through double rounding is graded differently. For example, `7.3301` against `7.33` differs by slightly less than 0.0001 in doubles, so the source grades it correct while the model grades it wrong.
- PracticeStore.RecordWrong: reads the clock once, for a new entry's id and its last-wrong date. The source reads `Date.now()` and `new Date()` separately.
- PracticeStore.FinishPractice: reads the clock once, for the practice's end time and the history record's date. The source calls `new Date()` for each.
- PracticeStore.StartPractice: reads the clock once, for the practice id and for every `generateProblem` call. The source reads `Date.now()` again in each call, so its problem ids can be later than the practice's.
- PracticeStore.StartPractice: its own contract states the outcome, the practice and the grades. That the problems are exactly those `generateProblem` returns in turn is stated by `PracticeStore.StartPracticeGenerates`.
- FileHandler.Collect: its own contract states the prefix and the bounds. The order and one problem per accepted item are stated by `FileHandler.CollectAppend`, and where each problem comes from by `FileHandler.CollectProvenance`.
- FileHandler.MatchAt: its own contract states the captures' form. The full pattern, in both directions, is stated by `FileHandler.MatchAtShape` and `FileHandler.MatchAtOfShape`.
- FileHandler.ScanFrom: its own contract states the matches' form. Taking the leftmost match and resuming after it is stated by `FileHandler.ScanFromEmpty` and `FileHandler.ScanFromLeftmost`.
- **Accuracy as a string.** The server's accuracy is the string that `toFixed(1)` produces. It is modelled as the number that string denotes, and its `"NaN"` as `None`.
- FileHandler.ExtName: a trailing `/` on the uploaded name is not stripped as `path.extname` would strip it. Upload names have no directory part.
- FileHandler.ToLower: only ASCII letters are lower-cased. No other letter can make an extension equal `.csv` or `.docx`.
- ClientPractice.GenerateProblems: a practice id missing from a 200 reply is not modelled, because the server always sends one.
- ClientPractice.Item: the client copies the other fields of a problem object without reading them. They are modelled as the server's problem record.
- Numerals.ParseInt: its own contract says only that a number needs a digit in the text. The exact value read back is stated, for interpolated integers, by `Numerals.ParseIntOfIntToString`.
