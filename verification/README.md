# rankpredictor scoring pipeline in Dafny

This project models the scoring pipeline of the `rankpredictor` Django app.
It has four parts.

- **The answer-key loader.** This covers the header check in `parse_csv`, `validate_row` and the decision in `save_answer_sheet_data`.
  - `validate_row` checks the required fields, the question type and the mark.
  - It then rewrites the answer by type:
    - MCQ becomes one letter;
    - MSQ becomes a comma list;
    - NAT `(3.99) (2-4)` becomes `3.99 OR 2 to 4`;
    - MTA is kept as given, and must be numeric when present.
  - `save_answer_sheet_data` creates no sheet at all unless every row is accepted and `bulk_create` can convert every row's `question_no` and `question_Id` to a non-negative integer.
- **Response scoring** inside `predictRank`.
  - The answer key is keyed by question id, and a later sheet with the same id wins.
  - Responses whose id is not in the key are skipped.
  - A stored answer of literally `MTA` gives full marks.
  - MCQ compares case-insensitively, and a wrong answer costs a third of the mark.
  - MSQ compares option sets.
  - NAT tries `OR`-separated points and inclusive `to` intervals, left to right.
  - The total is the plain, unclamped sum.
- **Statistical post-processing.**
  - `calculate_normalized_marks` rescales a z-score for CE/CSIT and returns raw marks otherwise.
  - `calculate_gate_score` maps linearly from the cutoff (350) to the topper mean (1000).
  - The topper group has `max(1, count // 1000)` members.
- **Rank lookup and in-bucket renumbering.**
  - `get_candidate_rank` returns the first row of the marks→rank table that holds the marks.
  - `calculate_normalized_rank` gives the rows of one rank bucket consecutive ranks from the bucket's lower bound, best normalized mark first.
  - When renumbering raises, `predictRank` reports "unable to specify".

The modules are listed below.

- `Base`: `Option` and `Result`.
- `PyText`: the Python string operations the code uses (`strip`, `split`, `join`, `replace`, `lower`, `in`). `strip()` drops exactly the characters CPython's `str.isspace` accepts; `isalpha` and `lower` are limited to the ASCII letters.
- `PyNumber`: `float()` and `int()` on plain decimal text.
- `AnswerKey` (`rankpredictor/utils.py`): `parse_csv`, `validate_row` and `save_answer_sheet_data`.
- `Scoring` (`rankpredictor/views.py`): the `answer_key` map and the per-response loop.
- `Normalization` (`rankpredictor/utils.py`): normalized marks, the topper mean and the GATE score.
- `Ranking` (`rankpredictor/utils.py`): `get_candidate_rank` and `calculate_normalized_rank`.
- `Predict` (`rankpredictor/views.py`): `predictRank` end to end.
- `KeyRoundTrip`: cross-file facts about a row accepted by `validate_row`, once `predictRank` reads it back as a key entry and judges answers against it.

Several inputs are parameters of the model:
- the database (slots, answer sheets, candidate scores, aggregates);
- the scraper's result;
- the branch mapping and rank table of `constants.py`.

Where the code and its comments disagree, the model follows the code. The comments at `rankpredictor/utils.py:304` and `:311` call the topper group the top 1%. The slice at `rankpredictor/utils.py:308` takes `max(1, total // 1000)` rows, the top 0.1% rounded down. `Normalization.TopperCount` states the slice.

## Model

| member | source | states |
|---|---|---|
| AnswerKey.ParseCsv | rankpredictor/utils.py:34-53 | Parsing fails exactly when some required header (`question_no`, `question_Id`, `q_type`, `answer`, `mark`) is missing; extra columns are allowed. Otherwise there is one row per record, each field read with `get`, so a missing column is null. |
| AnswerKey.Options | rankpredictor/utils.py:90-97 | Stripping `()` and splitting on `,` always gives at least one option, as Python's `split` does. |
| AnswerKey.CanonicalMcq | rankpredictor/utils.py:88-93 | An MCQ answer is accepted exactly when, with its outer `(` and `)` stripped, it is one letter with only whitespace around it (so `(b)` and ` B ` pass, `a,b` and `ab` do not). The stored answer is that letter, case unchanged. |
| AnswerKey.McqRule | rankpredictor/utils.py:90-91 | Splitting on `,` and stripping each piece leaves exactly one single-letter option exactly when the text is one letter padded with whitespace, and that option is the letter. |
| AnswerKey.CanonicalMsq | rankpredictor/utils.py:95-100 | An MSQ answer is accepted exactly when every option is a single letter; the stored text splits back on `,` into exactly those options, in order, duplicates kept. |
| AnswerKey.LettersJoinSplit | rankpredictor/utils.py:97-100 | Options that are single letters, joined with `,`, split back into the same options. |
| AnswerKey.CloseAt | rankpredictor/utils.py:105 | The lazy group `\((.*?)\)` closes at the first `)`, with no `)` or newline before it; if there is no such `)`, every `)` has a newline before it. |
| AnswerKey.Groups | rankpredictor/utils.py:105 | No group `re.findall` returns contains `)` or a newline. |
| AnswerKey.NatCanonical | rankpredictor/utils.py:102-115 | The NAT rule; `KeyRoundTrip.NatOfBracketed`, `KeyRoundTrip.NatPointAndPairs` and `KeyRoundTrip.NatWithoutGroups` state what it stores. |
| AnswerKey.TypeOf | rankpredictor/utils.py:63-77 | A type is recognised exactly when it is one of `MCQ`, `MSQ`, `NAT`, `MTA`, and it is recognised as the type it spells. |
| AnswerKey.CheckAnswer | rankpredictor/utils.py:87-127 | The per-type answer check never gives a field, type or mark error. It crashes (AttributeError on `None.strip`) exactly for an MCQ or MSQ row without an answer. An accepted row keeps its mark. |
| AnswerKey.CheckAnswerRule | rankpredictor/utils.py:87-127 | The per-type check accepts exactly when the answer follows the type's rule: one letter for MCQ, a list of letters for MSQ, any answer for NAT, an empty or numeric answer for MTA. |
| AnswerKey.ValidateRow | rankpredictor/utils.py:58-130 | An accepted row has its four required fields filled and a known type, and its mark parses to a non-negative number that the verdict carries. |
| AnswerKey.RejectsHeaderFields | rankpredictor/utils.py:71-85 | A row is rejected for missing fields exactly when one of question_no, question_Id, q_type, mark is empty or null (the answer is not required); for its type exactly when the fields are filled and the type is unknown; for its mark exactly when the type is known and the mark is non-numeric or negative. |
| AnswerKey.AcceptedAnswer | rankpredictor/utils.py:88-128 | The answer stored for an accepted row is the MCQ, MSQ or NAT canonical form of its answer by type; an MTA answer is stored as given and, when non-empty, is numeric. |
| AnswerKey.CrashesOnlyWithoutAnswer | rankpredictor/utils.py:88-97 | A crash happens only on a filled MCQ or MSQ row whose answer is null. |
| AnswerKey.CrashesWithoutAnswer | rankpredictor/utils.py:88-97 | Conversely, a filled MCQ or MSQ row with a valid mark and a null answer crashes. |
| AnswerKey.AcceptsValidRows | rankpredictor/utils.py:71-128 | Once the required fields, the type and the mark pass, an MCQ or MSQ row is accepted exactly when its answer is one letter or a list of letters. A NAT row is accepted exactly when it has an answer, and an MTA row exactly when its answer is empty or a number. The accepted mark is the parsed mark. |
| AnswerKey.NatNeverFails | rankpredictor/utils.py:102-118 | A filled NAT row with a valid mark and an answer is always accepted; it stores the canonical NAT form and the mark. |
| AnswerKey.Verdicts | rankpredictor/utils.py:148-151 | There is one verdict per row. |
| AnswerKey.VerdictAt | rankpredictor/utils.py:148-151 | The i-th verdict is `validate_row` of the i-th row. |
| AnswerKey.VerdictsAccepted | rankpredictor/utils.py:151-162 | Every row whose verdict is accepted has its required fields filled, so its sheet can be built. |
| AnswerKey.ErrorsOfSound | rankpredictor/utils.py:164-170 | Every error entry names a rejected row by its 1-based index, with that row's question number and the rejection reason. |
| AnswerKey.ErrorsOfOrdered | rankpredictor/utils.py:148-170 | Error entries come in strictly increasing row order, so no row is reported twice. |
| AnswerKey.ErrorsOfComplete | rankpredictor/utils.py:164-170 | Every rejected row has an error entry. |
| AnswerKey.ErrorsOfEmpty | rankpredictor/utils.py:172-174 | The error list is empty exactly when no row is rejected. |
| AnswerKey.ErrorsOfReports | rankpredictor/utils.py:148-174 | The error list has exactly one entry per rejected row, in row order, and is empty exactly when no row is rejected. |
| AnswerKey.SheetsOfAccepted | rankpredictor/utils.py:154-162 | When all rows are accepted, there is one sheet per row, in row order, built from the row and its verdict. |
| AnswerKey.CollectRows | rankpredictor/utils.py:148-174 | The loop returns the sheets only when there are no errors. A row error leaves the full, non-empty error report. A crash stops the batch at the first crashing row, with the `Unexpected` error. |
| AnswerKey.CollectOutcome | rankpredictor/utils.py:148-174 | The three ways the loop ends meet the loop's outcome. The sheets reach `bulk_create`, one per row in order, exactly when every row is accepted. Otherwise the first crash is reported, or else every rejected row. |
| AnswerKey.ColumnId | rankpredictor/utils.py:177 | `bulk_create` stores an id text exactly when `int` reads it and the value is not negative, as the positive-integer columns of `AnswerSheet` (`rankpredictor/models.py:21-22`) demand; the stored number is the one `int` reads. |
| AnswerKey.ColumnIdText | rankpredictor/utils.py:177 | The decimal text of `n` is stored as `n`; the text of a negative number is refused. |
| AnswerKey.ColumnIdRejects | rankpredictor/utils.py:177 | A text holding a character that is neither a digit, a sign nor whitespace (`1.5`, `Q7`) is refused. |
| AnswerKey.StoreSheets | rankpredictor/utils.py:177 | `bulk_create` writes one record per sheet, in order, with the converted ids, exactly when every sheet's ids convert; otherwise it writes none. |
| AnswerKey.SaveAnswerSheetData | rankpredictor/utils.py:134-181 | An unknown slot gives "slot not found". Otherwise records are written, one per row, exactly when every row is accepted and every row's ids convert. A batch whose rows are all accepted but one of whose ids does not convert writes nothing. Any other refusal is the loop's outcome. |
| Scoring.KeyMap | rankpredictor/views.py:260-262 | The key holds exactly the question ids of the stored sheets. |
| Scoring.KeyMapLastWins | rankpredictor/views.py:260-262 | An id maps to the value of the last sheet with that id: the answer stripped, plus the mark, type and question number. |
| Scoring.Clean | rankpredictor/views.py:271 | The cleaned candidate answer has no spaces. |
| Scoring.OptionSetOfJoin | rankpredictor/views.py:286-287 | The option set of comma-joined options is the set of the options lowered. |
| Scoring.OptionSetOrderFree | rankpredictor/views.py:286-288 | Two option lists with the same members give the same option set, whatever the order or duplicates. |
| Scoring.Alternatives | rankpredictor/views.py:296 | Splitting the key on `OR` always gives at least one alternative. |
| Scoring.Decide | rankpredictor/views.py:298-306 | One NAT alternative against a number; `Scoring.DecidePoint`, `Scoring.DecideBounds` and `Scoring.DecideInterval` state when it hits. |
| Scoring.AcceptFrom | rankpredictor/views.py:296-308 | The loop over the alternatives; `Scoring.AcceptFromFirstHit` states when it accepts. |
| Scoring.AcceptFromFirstHit | rankpredictor/views.py:297-308 | Trying NAT alternatives left to right accepts exactly when some alternative is a hit and every alternative before it is a plain miss; a malformed alternative reached first ends the try. |
| Scoring.AltsAcceptFirstHit | rankpredictor/views.py:296-308 | The same, for the whole list of alternatives. |
| Scoring.NatAccepts | rankpredictor/views.py:292-308 | A NAT answer is accepted only when the candidate's answer parses as a number. |
| Scoring.Judge | rankpredictor/views.py:275-309 | A correct answer earns the mark. A wrong answer earns 0, except on an MCQ key whose answer is not `MTA`, where it earns minus a third of the mark. With a non-negative mark, the award lies between those two. |
| Scoring.JudgeSentinel | rankpredictor/views.py:278-280 | A stored answer of literally `MTA` is correct and earns full marks, whatever the type or the candidate answer. |
| Scoring.JudgeOtherType | rankpredictor/views.py:275-309 | A key whose type is not MCQ, MSQ or NAT, and whose answer is not `MTA`, gives incorrect and 0 marks. |
| Scoring.JudgeMcq | rankpredictor/views.py:281-283 | MCQ is correct exactly when the answers are equal ignoring case; a wrong answer earns `-(mark/3)`. |
| Scoring.McqPenaltyExample | rankpredictor/views.py:281-283 | Against `A` worth 3, `B` earns -1 and `a` earns 3. |
| Scoring.JudgeMsq | rankpredictor/views.py:285-289 | MSQ is correct exactly when the lowered option sets are equal; it earns the mark or 0, never a negative. |
| Scoring.MsqExample | rankpredictor/views.py:285-289 | Against `a,b` worth 2, `B,A` earns 2 and `a` earns 0. |
| Scoring.JudgeNat | rankpredictor/views.py:291-309 | NAT is correct exactly when the candidate parses as a number and some alternative is a hit with only plain misses before it; it never awards a negative with a non-negative mark. |
| Scoring.DecidePoint | rankpredictor/views.py:304-306 | A point alternative written as a decimal number hits exactly the equal value. |
| Scoring.DecideBounds | rankpredictor/views.py:299-303 | An alternative `l to h` with numeric ends hits exactly the values in the closed interval. |
| Scoring.DecideInterval | rankpredictor/views.py:299-303 | The same, for decimal integer ends. |
| Scoring.Respond | rankpredictor/views.py:271-320 | A result records the id, the question number, the cleaned answer and the stored answer, and is judged against the key entry. |
| Scoring.StepOf | rankpredictor/views.py:269-273 | A response whose id does not parse raises; an id absent from the key is skipped; otherwise the response is judged. |
| Scoring.RunFrom | rankpredictor/views.py:268-320 | The loop fails at the first response whose id does not parse, and succeeds only if there is none. |
| Scoring.EmittedFrom | rankpredictor/views.py:268-320 | The judged positions are exactly the positions whose step emits, in increasing order. |
| Scoring.RunFromEmitted | rankpredictor/views.py:268-320 | The results are the emitted responses, one for each, in input order. |
| Scoring.ScoreItemsFails | rankpredictor/views.py:269 | Scoring fails exactly when some id fails to parse, and it reports the first such response. |
| Scoring.EmittedKeyed | rankpredictor/views.py:273 | The results come exactly from the responses whose id is in the key. |
| Scoring.ScoreItemsResults | rankpredictor/views.py:268-320 | One result per matched response, in input order, each judged against its key entry. |
| Scoring.ScoreItems | rankpredictor/views.py:265-320 | The scoring loop; `Scoring.ScoreItemsFails` and `Scoring.ScoreItemsResults` state its failure and its results. |
| Scoring.Total | rankpredictor/views.py:311 | The running total; `Scoring.TotalBounds` bounds it and `Scoring.NegativeTotalExample` shows it going negative. |
| Scoring.TotalBounds | rankpredictor/views.py:311 | With non-negative marks, the total lies between minus a third of the answered marks and the answered marks. It is not clamped at 0. |
| Scoring.NegativeTotalExample | rankpredictor/views.py:265-320 | One wrong MCQ answer worth 3 gives the total -1. |
| Normalization.OrZero | rankpredictor/utils.py:272-280 | `x or 0`: a null value gives 0 and a non-zero value gives itself. |
| Normalization.StdOrOne | rankpredictor/utils.py:273-287 | A null or zero std becomes 1, any other std stays; the result is never 0. |
| Normalization.NormalizeIdentity | rankpredictor/utils.py:291-292 | Departments other than CE and CSIT keep the raw marks. |
| Normalization.NormalizeAtMean | rankpredictor/utils.py:266-290 | In CE/CSIT, a candidate at the session mean gets exactly the department mean. |
| Normalization.NormalizeZeroStd | rankpredictor/utils.py:273-287 | A zero std behaves exactly like a missing std, for both the session and the department. |
| Normalization.NormalizeMonotone | rankpredictor/utils.py:264-292 | With non-negative std inputs, normalized marks are strictly increasing in raw marks. |
| Normalization.NormalizeRoundTrip | rankpredictor/utils.py:290 | In CE/CSIT, the inverse rescaling recovers the raw marks. |
| Normalization.NormalizedMarks | rankpredictor/utils.py:264-295 | `calculate_normalized_marks`; `Normalization.NormalizeIdentity`, `NormalizeAtMean`, `NormalizeZeroStd`, `NormalizeMonotone` and `NormalizeRoundTrip` state its behaviour. |
| Normalization.TopperCount | rankpredictor/utils.py:308 | The topper group has at least one member, exactly one below 2000 scores, and `total // 1000` members from 1000 on. |
| Normalization.Present | rankpredictor/utils.py:312 | The values averaged are the non-null marks of the group: each non-null mark appears as many times as it occurs in the group, and the count of values is the group size less its nulls. |
| Normalization.TopGroup | rankpredictor/utils.py:306-309 | The topper group is a prefix of the descending list: the first `TopperCount` rows, or all of them if there are fewer. |
| Normalization.TopperMarks | rankpredictor/utils.py:312 | A group with no non-null mark gives a topper mean of 0. |
| Normalization.MeanBounds | rankpredictor/utils.py:312 | A mean lies between any bounds of its values. |
| Normalization.TopperBounds | rankpredictor/utils.py:306-312 | The topper mean lies between any bounds of the group's non-null marks. |
| Normalization.TopperOfSmallCohort | rankpredictor/utils.py:306-312 | Below 2000 scores, the topper mean is the best normalized mark. |
| Normalization.GateZero | rankpredictor/utils.py:315-320 | The score is 0 when the topper mean is 0, the candidate is at or below the cutoff, or the topper equals the cutoff. Otherwise, with the topper above the cutoff, it is above 350. |
| Normalization.GateAtTopper | rankpredictor/utils.py:320 | A candidate at the topper mean scores exactly 1000. |
| Normalization.GateAboveTopper | rankpredictor/utils.py:320 | A candidate above a topper who is above the cutoff scores more than 1000; there is no upper clamp. |
| Normalization.GateBetween | rankpredictor/utils.py:320 | Between the cutoff and the topper, the score is strictly between 350 and 1000. |
| Normalization.GateMonotone | rankpredictor/utils.py:320 | Above the cutoff, the score is strictly increasing in the normalized mark. |
| Normalization.GateInvertedReference | rankpredictor/utils.py:315-320 | With the topper below the cutoff, a candidate above the cutoff scores below 350. |
| Normalization.GateRoundTrip | rankpredictor/utils.py:320 | In the linear regime, the inverse map recovers the normalized mark from the score. |
| Normalization.GateScore | rankpredictor/utils.py:298-323 | `calculate_gate_score`; `Normalization.GateZero`, `GateAtTopper`, `GateAboveTopper`, `GateBetween`, `GateMonotone` and `GateRoundTrip` state its behaviour. |
| Ranking.ParseRange | rankpredictor/utils.py:246-251 | A row is an open range exactly when its marks text contains `+` and `int` reads it without the `+`; the lower bound is that integer. A closed range has no `+`, and its text without spaces splits on `-` into exactly two pieces that `int` reads as its bounds. |
| Ranking.ParseRangeOpen | rankpredictor/utils.py:246-247 | `l+` is read back as the open range from `l`. |
| Ranking.ParseRangeClosed | rankpredictor/utils.py:251 | `l-u` is read back as the closed range from `l` to `u`. |
| Ranking.BranchColumn | rankpredictor/utils.py:236-240 | A branch is found exactly when the mapping has it with a non-empty column. |
| Ranking.MatchAnswer | rankpredictor/utils.py:248-257 | A matching row gives its entry. A closed range with a null entry gives "Can't predict rank with low marks". |
| Ranking.RowAnswer | rankpredictor/utils.py:249-257 | A matching row without the branch column raises `KeyError`; otherwise it gives its answer. |
| Ranking.LookupFrom | rankpredictor/utils.py:243-259 | The lookup never reports a missing branch. A parse error names an unparsable row, and a `KeyError` names a row without the column. |
| Ranking.LookupFromSpec | rankpredictor/utils.py:243-259 | The result is "Marks out of range" exactly when every row parses and misses. The first row that fails to parse raises. The first row that holds the marks decides: its answer, or `KeyError` without the column. |
| Ranking.CandidateRank | rankpredictor/utils.py:234-259 | `get_candidate_rank`; its behaviour is stated by `Ranking.CandidateRankSpec`. |
| Ranking.CandidateRankSpec | rankpredictor/utils.py:234-259 | "Branch not found" exactly when the branch has no column; otherwise the first-match behaviour above. |
| Ranking.Members | rankpredictor/utils.py:328-330 | The bucket's members are exactly the rows whose rank text equals the bucket, in storage order, without repeats. |
| Ranking.Insert | rankpredictor/utils.py:329 | Inserting adds exactly one occurrence of the row. |
| Ranking.InsertSorted | rankpredictor/utils.py:329 | Inserting into a sorted order keeps it sorted. |
| Ranking.SortByMarks | rankpredictor/utils.py:329 | `order_by("-normalized_marks")` is a permutation of the members, sorted best first, with ties in storage order. |
| Ranking.Assign | rankpredictor/utils.py:333-336 | The k-th row of the order gets rank `lower + k`; no other row changes. |
| Ranking.AssignKeeps | rankpredictor/utils.py:328-339 | Rows outside the bucket are unchanged. |
| Ranking.AssignInRange | rankpredictor/utils.py:333-336 | Bucket rows keep all fields but the rank, which lies in `lower .. lower + n - 1`. |
| Ranking.AssignOrdered | rankpredictor/utils.py:329-336 | A bucket row with a better normalized mark gets a smaller rank. |
| Ranking.AssignCovers | rankpredictor/utils.py:333-336 | Every rank from `lower` to `lower + n - 1` is given to some bucket row. |
| Ranking.NormalizedRanks | rankpredictor/utils.py:327-339 | A null bucket or a lower bound that is not an integer raises before any update. Otherwise the bucket is renumbered as stated by the four lemmas above. |
| Ranking.BucketLowerOfWord | rankpredictor/utils.py:333 | A rank text that starts with a letter (a message instead of a bucket) has no integer lower bound, so renumbering raises. |
| Ranking.BucketLowerClosed | rankpredictor/utils.py:333 | The lower bound of `100-150` is 100. |
| Ranking.BucketLowerOpen | rankpredictor/utils.py:333 | `1000+` has no integer lower bound, so renumbering raises. |
| Ranking.RenumberExample | rankpredictor/utils.py:327-339 | Bucket `100-150` with normalized marks 90, 95, 92 in storage order is renumbered 102, 100, 101. |
| Ranking.BucketLowerOfRange | rankpredictor/utils.py:333 | Every table bucket `l-u` has the lower bound `l`. |
| Ranking.BucketLowerOfOpenRange | rankpredictor/utils.py:333 | No open table bucket `l+` has an integer lower bound, so renumbering it raises. |
| Ranking.BucketLower | rankpredictor/utils.py:333 | The bucket's lower bound. `Ranking.BucketLowerOfRange` and `BucketLowerOfOpenRange` state it for the table's two bucket shapes, and `BucketLowerOfWord` for messages. |
| Predict.MatchingSlots | rankpredictor/views.py:206-212 | The matched slots are exactly those of the department and, if one is sent, of the shift. |
| Predict.RankText | rankpredictor/views.py:337-340 | A bucket is stored as its text (possibly null); each message is stored as a non-null text. |
| Predict.Upsert | rankpredictor/views.py:322-341 | `update_or_create` either updates the user's row or appends one. That row then holds the new rank and normalized mark, and no other row changes. |
| Predict.PredictScored | rankpredictor/views.py:191-363 | A scored reply has these properties:<br>• it comes from well-shaped responses and exactly one matching slot with a non-empty key;<br>• its results are the loop's;<br>• its marks are their plain sum;<br>• its normalized mark and GATE score follow from that sum. |
| Predict.PredictRank | rankpredictor/views.py:189-373 | `predictRank`; `Predict.PredictScored`, `PredictRankOnRawTotal`, `MalformedScrapeRejected`, `BadIdIsServerError`, `TableErrorIsServerError`, `ScoredWhenClean`, `ScoredOnlyWhenClean` and `RankFailureFallback` state its replies. |
| Predict.PredictRankOnRawTotal | rankpredictor/views.py:337 | The bucket is looked up on the raw total, not on the normalized marks, and that lookup raised nothing. |
| Predict.ScoredWhenClean | rankpredictor/views.py:191-363 | A request whose fields are sent, whose slot is unique, whose responses are well shaped and score without raising against a non-empty key, and whose rank lookup raises nothing, gets a scored reply. The reply carries the loop's results, their sum and the table's rank for that sum. |
| Predict.ScoredOnlyWhenClean | rankpredictor/views.py:191-363 | Every scored reply comes from such a request, with the reply's own results. |
| Predict.TableErrorIsServerError | rankpredictor/views.py:337-373 | A rank-table row that raises (an unreadable `Marks` cell, or a matching row without the branch column) gives the 500 reply. |
| Predict.RankIgnoresStatistics | rankpredictor/views.py:332-337 | Changing the aggregates or the topper list leaves the rank, the marks and the results unchanged. |
| Predict.RankFailureFallback | rankpredictor/views.py:344-349 | A renumbering failure does not fail the request. A request that scores cleanly still gets a scored reply, and its normalized rank is "unable to specify" exactly when the rank is null or its lower bound is not an integer. |
| Predict.RankedWithinBucket | rankpredictor/views.py:337-347 | When renumbering succeeds, the candidate's normalized rank lies between the bucket's lower bound and the lower bound plus the number of stored scores. |
| Predict.RenumberedWithin | rankpredictor/utils.py:333-336 | A stored row in a bucket with an integer lower bound is given a rank in `lower .. lower + n - 1`, where `n` is `|stored|`, the number of `CandidateScore` rows after the candidate's row is saved (a bound on the bucket's size). |
| Predict.MalformedScrapeRejected | rankpredictor/views.py:236-246 | A scraped item missing any of the four keys gives "Invalid scraped data format". |
| Predict.BadIdIsServerError | rankpredictor/views.py:365-373 | A question id that `int` cannot read (line 269) raises, which gives the 500 reply. |
| Predict.MessagesAreWords | rankpredictor/utils.py:240-259 | The lookup's messages start with a letter. |
| Predict.MessageIsUnranked | rankpredictor/views.py:337-349 | When a request scores cleanly but the lookup gives a message rather than a bucket, the reply is still scored and the normalized rank is "unable to specify". |
| KeyRoundTrip.AcceptedByRule | rankpredictor/utils.py:87-127 | An accepted row's verdict is its type's answer rule applied to its answer and mark. |
| KeyRoundTrip.McqStored | rankpredictor/utils.py:93 | A stored MCQ answer is a single letter, and the key read back holds it unchanged. |
| KeyRoundTrip.MsqStored | rankpredictor/utils.py:97-100 | A stored MSQ answer is its letter options joined with `,`; reading it back (with `strip`) leaves it unchanged. |
| KeyRoundTrip.MtaStored | rankpredictor/utils.py:120-127 | A stored MTA answer is empty or numeric once stripped, so it is never the sentinel `MTA`. |
| KeyRoundTrip.LettersNotSentinel | rankpredictor/utils.py:93-100 | Stored MCQ/MSQ text is never `MTA`. |
| KeyRoundTrip.McqRoundTrip | rankpredictor/views.py:281-283 | A candidate is correct on an uploaded MCQ exactly when they give the stored letter in either case. A wrong answer costs a third of the uploaded mark. |
| KeyRoundTrip.MsqRoundTrip | rankpredictor/views.py:285-289 | A candidate is correct on an uploaded MSQ exactly when their lowered options form the same set as the uploaded options. |
| KeyRoundTrip.MtaTypeEarnsNothing | rankpredictor/views.py:278-309 | An uploaded MTA-typed row is never correct and earns 0 marks, because no type branch matches. |
| KeyRoundTrip.SentinelOnlyFromNat | rankpredictor/utils.py:88-127 | Only a NAT row can carry the stored sentinel `MTA`. |
| KeyRoundTrip.NatSingleGroup | rankpredictor/utils.py:105-115 | A NAT answer of one group `(g)` is stored as `g` with `-` spelled ` to `. |
| KeyRoundTrip.NatSentinelFullMarks | rankpredictor/views.py:278-280 | A NAT row written `(MTA)` gives full marks for any answer. |
| KeyRoundTrip.NatWithoutGroups | rankpredictor/utils.py:105-115 | NAT text with no `(` is stored as the empty answer. |
| KeyRoundTrip.GroupsOfBracketed | rankpredictor/utils.py:105 | Groups written as `(g1) (g2) … (gn)` are found again, in order. |
| KeyRoundTrip.NatOfBracketed | rankpredictor/utils.py:105-115 | A key of bracketed groups is stored as the groups, each with `-` spelled ` to `, joined by ` OR `. |
| KeyRoundTrip.RangeOfPair | rankpredictor/utils.py:109-110 | A group `l-h` is stored as `l to h`. |
| KeyRoundTrip.NatPointAndPairs | rankpredictor/utils.py:103-115 | `(p) (l1-h1) (l2-h2)` is stored as `p OR l1 to h1 OR l2 to h2`. |
| KeyRoundTrip.NatDocumentedKey | rankpredictor/utils.py:103-115 | The documented key `(3.99) (2-4) (5-6)` is stored as `3.99 OR 2 to 4 OR 5 to 6`. |
| KeyRoundTrip.RecordKey | rankpredictor/views.py:260-262 | The record stored for an accepted row sits in the answer key under the integer `int` reads from its `question_Id` text, with the key value read back from the row. |
| PyNumber.ParseRealText | rankpredictor/utils.py:81 | `float` reads a decimal integer and its negation back. |
| PyNumber.ParseIntText | rankpredictor/views.py:269 | `int` reads a decimal integer and its negation back. |

## Left out

- HTML scraping (`get_candidate_response`, the `test` view): this is network I/O. Its result is the `Scrape` parameter.
- CSV decoding: `csv.DictReader` is a library. Records arrive as maps from header names to optional fields.
- Django ORM work: this covers `update_or_create`, `bulk_create`, `bulk_update`, `refresh_from_db`, `transaction.atomic`, and the `Avg` and `StdDev` aggregates (the std needs `sqrt`). The aggregates, the department's normalized marks in database order, the slots and the stored scores are parameters, read after the candidate's score is stored.
- Database `NULL` ordering in `order_by("-normalized_marks")`: the topper list is given in database order as a parameter. Ties inside a bucket stay in storage order.
- The delete of the old answer key at `rankpredictor/views.py:126` runs outside the atomic save. The model does not claim the old key survives a failed upload.
- Writes made before a 500 reply (a bad rank-table row or an exception raised after `update_or_create`) are not modelled as persisted. The reply is `ServerError`.
- The `OneToOneField` on `CandidateScore.user`: `update_or_create` for a user who already has a score for another slot raises an `IntegrityError`. This is left out, and the user's row is found by position (`mine`).
- `CharField` `max_length` limits: the database would truncate or refuse long values. The stored `normalized_rank` is kept as an integer, not the text the column holds. The `rank` column (`max_length=20`, `rankpredictor/models.py:39`) is stored without a length limit. So the 33-character message "Can't predict rank with low marks" is stored as it is. A database that enforces the limit would raise in the save at `rankpredictor/views.py:341`, and the reply would be a 500.
- The `NOT NULL` `answer` column: saving a null answer (an MTA row without an answer) would fail in `bulk_create`. The model treats a stored sheet as always having an answer (`KeyRoundTrip.Stored`).
- AnswerKey.SaveAnswerSheetData: `bulk_create` is modelled only for the id conversion (`AnswerKey.ColumnId`). The upper limits of the integer columns and the null `answer` above are not modelled. The outer `except Exception` at `rankpredictor/utils.py:180-181` rewraps every refusal (slot not found, row errors, a crash, a failed store) as one `ValueError("Unexpected error: …")`. The `SaveError` variants stand for the message that text carries.
- IEEE floats and the full `float()` and `int()` syntax (exponents, `inf`, `nan`, underscores): numbers are `real`, and the parser reads a sign, digits and at most one decimal point.
- Unicode: `isalpha` and `lower` are modelled over the ASCII letters only, so a non-ASCII letter is refused as an MCQ/MSQ option. `strip()` and `isspace` use CPython's full whitespace set.
- `constants.py` is not part of this model. `BRANCH_MAPPING` and `MARKS_DATA` are parameters, and iterating the pandas frame is iterating the table.
- `isinstance` checks in the shape check: scraped items are typed maps from text to text, so only the key check remains.
- The visitors app, `serializer.py`, `models.py`, the migrations, `api/urls.py`, the slot and answer-sheet CRUD handlers, logging and `print`: these are framework glue or unrelated to scoring.
- Concurrency between requests: each request is modelled alone.
- Scoring.Clean: states only that the cleaned answer has no spaces. The trimming is used through the judging lemmas.
- AnswerKey.Groups: states only that the groups found contain no `)` or newline. Which groups are found is stated for bracketed keys by `KeyRoundTrip.GroupsOfBracketed`, not for arbitrary text.
- Ranking.LookupFrom: states only which errors can occur. The full first-match behaviour is `Ranking.LookupFromSpec`.
- Ranking.RowAnswer: each table row carries its own columns, and a matching row without the branch column raises `KeyError`. In a pandas frame built from a list of dicts, a column that only some rows carry reads as `NaN` in the others rather than raising; that case is not modelled.
- Predict.RankedWithinBucket: bounds the rank by the number of stored scores rather than the bucket's size. The exact in-bucket ranks are stated by `Ranking.NormalizedRanks`.
