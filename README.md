# Gradebook dashboard: standings, sessions, subject form, import and mark entry

A Dafny model of the teacher dashboard of a school gradebook (a Next.js page backed
by a Supabase database), and of the mark-entry field it embeds. The model covers:

- **The standings engine** (`fetchClassData`). It works in these steps:
  - it builds the class map and the progress map from the fetched rows;
  - it keeps the students whose class belongs to the active subject;
  - for each student it sums the marks of every session entry over the subject's papers;
  - it counts the sessions with a positive total and derives the maximum possible
    total, the exact percentage and its rounded display value;
  - it sorts the standings in place, stably, by exact percentage;
  - it gives every standing a global competition rank ("1, 1, 3"), then a rank within its class.

  It is an imperative pipeline of loops and array updates, proved against
  functional specifications. Lemmas say what the result means:
  - the standings are a sorted permutation of the processed students;
  - each rank is one more than the number of students strictly above;
  - ties share a rank and a strict drop takes the position;
  - classes outside the subject keep class rank 0;
  - the class filter and the first ten shown are the best of what is displayed.
- **The session list** of the active subject: two sittings per year, from the last year back
  to the first. It is proved distinct and in year order.
- **The add-subject form checks**: the paper and maximum-mark parsing, the three
  refusals in their order, and what an inserted row carries. It comes with round
  trips from clean paper names and from decimal marks back through the parser.
- **The progress change**: the progress of the first standing found is merged with one
  paper, applied to every standing of that student and to the selected student.
- **The spreadsheet import filter**: rows after the header, with a non-blank
  trimmed first cell, in order.
- **The mark-entry field** (`MarkInput`), modelled as a class. It holds:
  - its state `val`, synced from `initialValue`;
  - the range check on save, which resets `val` when the mark is out of range and otherwise gives
    exactly one upsert.

JavaScript semantics are modelled explicitly where the code relies on them:
- `Number(x) || 0` turns `NaN` into 0;
- the `NaN` comparisons in the mark check are false, so `NaN` passes the range check;
- `trim` removes the ECMAScript white-space set;
- `parseInt` follows its ECMAScript rules, including the `0x` prefix;
- `Math.round` is `floor(x + 0.5)`;
- `Array.prototype.find` returns the first match;
- `sort` is stable;
- writes into an object with `forEach` keep the last write for a key.

In these places the model follows the code as written:
- The import does not skip rows whose first cell is a header word such as "Name". Only row 1 is skipped.
- A student whose class id is not in the class map is left out of the standings.
  This holds even when "Unknown" is one of the subject's classes, because the filter
  reads `classMap[s.class_id]` (undefined), not the displayed class name.
- The fallback paper count for `sessionMaxSum` is 4 when `papers` is missing or empty,
  because `0 || 4` is 4.
- A class whose name is the empty string shows as "Unknown".

## Model

| member | source | states |
|---|---|---|
| Dashboard.BuildClassMap | app/dashboard/page.tsx:127-129 | the loop over the classes rows yields the class map of those rows; an absent result gives the empty map |
| Dashboard.ClassMapLookup | app/dashboard/page.tsx:129 | a class id maps to the name of the last row with that id |
| Dashboard.ClassMapMissing | app/dashboard/page.tsx:129 | an id that no row has is absent from the class map |
| Dashboard.FetchClassData | app/dashboard/page.tsx:124-210 | no active subject: nothing is set; otherwise the standings set are the relevant students processed, sorted by exact percentage and ranked |
| Dashboard.RelevantStudents | app/dashboard/page.tsx:155 | a student is kept exactly when its class id is in the class map and maps to one of the subject's classes; the kept students keep their fetched order |
| Dashboard.StandingsArePermutationSorted | app/dashboard/page.tsx:157-207 | the standings have one record per relevant student, are in non-increasing order of exact percentage, and match the processed records exactly when the ranks are set aside |
| Dashboard.GlobalRanks | app/dashboard/page.tsx:193-198 | the global rank is 1 plus the number of standings strictly above; the first is 1, a tie shares its predecessor's rank, a strict drop ranks by position, and no rank exceeds the position |
| Dashboard.RankedSortPermutes | app/dashboard/page.tsx:191-207 | sorting and ranking unranked records keeps each once, in non-increasing order, changing only the ranks |
| Dashboard.SortedGlobalRanks | app/dashboard/page.tsx:193-198 | the same facts for any sorted standings |
| Dashboard.ClassRanks | app/dashboard/page.tsx:200-207 | a standing of one of the subject's classes has class rank 1 plus the number of same-class standings strictly above; any other keeps class rank 0 |
| Dashboard.ExactPercentageBreaksTies | app/dashboard/page.tsx:174-196 | 89 and 88.75 both display as 89 but rank 1 and 2 |
| Dashboard.DisplayedStudents | app/dashboard/page.tsx:296 | under "All Sections" the displayed standings are the standings themselves; otherwise the k-th shown is the standing at the k-th position of the selected class, positions increasing and none of that class missed, so order and repeats are kept; sorted standings stay sorted |
| Dashboard.FilterDescending | app/dashboard/page.tsx:296 | filtering sorted standings keeps them sorted |
| Dashboard.Top10AreBest | app/dashboard/page.tsx:297 | `top10` is the first min(10, n) displayed standings, none below a standing left out |
| Aggregation.SumSession | app/dashboard/page.tsx:164-165 | the paper loop computes the session total: papers 1..n of the entry, each `Number(x) || 0` |
| Aggregation.Accumulate | app/dashboard/page.tsx:163-168 | the entry loop computes the grand total and the number of sessions with a positive total |
| Aggregation.MaxPossible | app/dashboard/page.tsx:172 | one session's maximum when no session was sat, otherwise that many sessions' maximum |
| Aggregation.ExactPercentage | app/dashboard/page.tsx:175 | percentage × maximum = 100 × total when the maximum is positive, else 0 |
| Aggregation.SubjectEntries | app/dashboard/page.tsx:161 | an entry is kept exactly when it is one of the student's entries and belongs to the active subject |
| Aggregation.SubjectEntriesInOrder | app/dashboard/page.tsx:161 | the k-th kept entry is the entry at the k-th matching position, the positions increase, and every matching position is kept, so order and repeats are preserved |
| Aggregation.ClassNameOf | app/dashboard/page.tsx:170 | the class name is never empty: the mapped name when there is a non-empty one, otherwise "Unknown" |
| Aggregation.SessionMaxSum | app/dashboard/page.tsx:171 | the sum of the maximum marks when the subject has them, otherwise 75 per paper, with 4 papers when none are listed |
| Aggregation.Summarise | app/dashboard/page.tsx:157-188 | a student's record keeps the student, the class name, the progress or `{}`, the rounded display percentage of the exact one, and both ranks 0 |
| Aggregation.ProcessStudent | app/dashboard/page.tsx:157-188 | the per-student callback builds that student's standing record, with both ranks 0 and the progress defaulting to `{}` |
| Aggregation.PaperSumReadsFirstPapers | app/dashboard/page.tsx:165 | only papers 1..n affect the sum |
| Aggregation.SessionTotalReadsDefinedPapers | app/dashboard/page.tsx:165 | a session total does not depend on marks beyond the subject's papers |
| Aggregation.PaperSumBounded | app/dashboard/page.tsx:165 | with marks in range, the sum of the first n papers is between 0 and the sum of their maxima |
| Aggregation.SessionTotalBounded | app/dashboard/page.tsx:164-171 | with marks in range, a session total is between 0 and `sessionMaxSum` |
| Aggregation.GrandTotalBounded | app/dashboard/page.tsx:163-172 | with marks in range, the grand total is between 0 and the number of sat sessions × `sessionMaxSum` |
| Aggregation.ExactPercentageBounded | app/dashboard/page.tsx:175 | a total within a positive maximum is 0 to 100 per cent of it |
| Aggregation.PercentageBounded | app/dashboard/page.tsx:157-188 | with marks in range, every student's exact percentage is between 0 and 100 |
| JsNumber.Round | app/dashboard/page.tsx:176 | `Math.round`: the nearest integer, with halves rounded up |
| Ranking.RankAt | app/dashboard/page.tsx:193-198 | the rank of a position is between 1 and the position + 1 |
| Ranking.RankStep | app/dashboard/page.tsx:196-197 | the rank at a position is the predecessor's rank unless strictly below it, then the position + 1 |
| Ranking.RankMonotone | app/dashboard/page.tsx:193-198 | ranks never decrease along the walk |
| Ranking.RankCountsAbove | app/dashboard/page.tsx:193-198 | on non-increasing keys, the rank is 1 plus the number of keys strictly above |
| Ranking.TiesShareRank | app/dashboard/page.tsx:196 | equal keys share a rank |
| Ranking.HigherValueRanksAhead | app/dashboard/page.tsx:196 | a strictly higher key has a strictly smaller rank |
| Ranking.RankExample | app/dashboard/page.tsx:193-198 | 90, 90, 85, 80, 80, 80 rank 1, 1, 3, 4, 4, 4 |
| Ranking.InsertPermutes | app/dashboard/page.tsx:191 | inserting adds exactly that one record |
| Ranking.SortPermutes | app/dashboard/page.tsx:191 | the sort is a permutation |
| Ranking.SortDescending | app/dashboard/page.tsx:191 | the sort result is in non-increasing order of exact percentage |
| Ranking.InsertDescending | app/dashboard/page.tsx:191 | insertion into a sorted sequence keeps it sorted |
| Ranking.SortFilterCommute | app/dashboard/page.tsx:191-201 | filtering then sorting equals sorting then filtering |
| Ranking.SortStable | app/dashboard/page.tsx:191 | records with equal exact percentages keep their relative order |
| Ranking.SortDescOfDescending | app/dashboard/page.tsx:191 | sorted input is left as it is |
| Ranking.SortByExactPercentage | app/dashboard/page.tsx:191 | the in-place sort leaves the array equal to the stable sort of its old contents |
| Ranking.InsertLast | app/dashboard/page.tsx:191 | one insertion step places the element in the sorted prefix and leaves the rest alone |
| Ranking.AssignGlobalRanks | app/dashboard/page.tsx:193-198 | the walk gives each position its competition rank and changes nothing else |
| Ranking.AssignClassRanks | app/dashboard/page.tsx:200-207 | the walk over the subject's classes gives each of their members its class rank and changes nothing else |
| Ranking.ClassRankedStep | app/dashboard/page.tsx:200 | ranking one more class extends the ranking of the classes done so far |
| Ranking.RankClass | app/dashboard/page.tsx:201-206 | one class's walk sets the class rank of exactly that class's members |
| Ranking.WalkClass | app/dashboard/page.tsx:203-206 | the walk over a class's members writes the walked ranks |
| Ranking.WalkedAll | app/dashboard/page.tsx:201-206 | the class walk gives exactly the class ranks, position by position |
| Ranking.RankedAt | app/dashboard/page.tsx:193-207 | after both passes each record has its global rank, and its class rank when its class is listed |
| Ranking.RankedKeys | app/dashboard/page.tsx:193-207 | ranking changes no exact percentage and no class name |
| Ranking.ClassRankCountsAbove | app/dashboard/page.tsx:200-207 | on sorted standings, the class rank is 1 plus the number of same-class standings strictly above |
| Ranking.GlobalRankCountsAbove | app/dashboard/page.tsx:193-198 | on sorted standings, the global rank is 1 plus the number of standings strictly above |
| Ranking.RankStandings | app/dashboard/page.tsx:193-207 | the two passes leave the array ranked |
| ProgressMaps.Decode | app/dashboard/page.tsx:134-146 | a string goes through `JSON.parse` (`{}` when it throws), an object is kept, a number n becomes `{0: n}`, anything else is `{}` |
| ProgressMaps.BuildProgressMap | app/dashboard/page.tsx:134-148 | the loop yields each student's decoded payload from the student's rows |
| ProgressMaps.ProgressMapLastRow | app/dashboard/page.tsx:147 | a student's entry is the decoded payload of the student's last row |
| ProgressMaps.ProgressMapMissing | app/dashboard/page.tsx:147 | a student without a row has no entry |
| ProgressMaps.MergeProgress | app/dashboard/page.tsx:265 | the merge has the old keys plus the paper, the new value there, and the old values elsewhere |
| ProgressMaps.Find | app/dashboard/page.tsx:263 | a found standing is in the list and has that student's id |
| ProgressMaps.FindFirst | app/dashboard/page.tsx:263 | nothing is found exactly when no standing has the id; otherwise the first one is found |
| ProgressMaps.ApplyProgress | app/dashboard/page.tsx:267 | that student's standings get the new progress; all others are unchanged |
| ProgressMaps.ChangeProgress | app/dashboard/page.tsx:262-270 | the list keeps its length; a selected student stays selected with only its progress possibly changed, and a selected other student is kept as it is |
| ProgressMaps.ChangeProgressEffect | app/dashboard/page.tsx:263-267 | other students' standings are unchanged; each standing of that student changes only its progress, which is the progress of the student's first standing in the list with the paper set |
| ProgressMaps.ChangeProgressSelected | app/dashboard/page.tsx:263-270 | a selected standing of that student gets the same new progress as the student's standings, and just the one paper when the list has no standing of the student |
| ProgressMaps.MergeProgressOverwrites | app/dashboard/page.tsx:265 | setting a paper twice keeps the second value |
| ProgressMaps.MergeProgressCommutes | app/dashboard/page.tsx:265 | merges of different papers commute |
| Sessions.SessionList | app/dashboard/page.tsx:287-292 | the session list has two entries per year in range |
| Sessions.BuildSessions | app/dashboard/page.tsx:287-292 | no subject gives no sessions; otherwise the loop from the end year down produces the session list |
| Sessions.SessionOrder | app/dashboard/page.tsx:290 | entries 2k and 2k+1 are May/June and Oct/Nov of the end year − k, within range |
| Sessions.SessionYears | app/dashboard/page.tsx:290 | every session is a sitting of a year in range |
| Sessions.LabelsDiffer | app/dashboard/page.tsx:290 | different sittings, or different years, give different labels |
| Sessions.SessionsDistinct | app/dashboard/page.tsx:287-292 | no label appears twice |
| SubjectForm.Present | app/dashboard/page.tsx:240 | a value is kept exactly when some piece reads as it, and no more values are kept than there are pieces |
| SubjectForm.PresentAppend | app/dashboard/page.tsx:240 | dropping the `NaN`s of two parts one after the other gives the kept values of each part in order |
| SubjectForm.PresentOne | app/dashboard/page.tsx:240 | a piece read as a number keeps that number; one read as `NaN` keeps nothing |
| SubjectForm.PapersOf | app/dashboard/page.tsx:239 | a paper is listed exactly when it is a non-empty trimmed piece of the field |
| SubjectForm.PapersInOrder | app/dashboard/page.tsx:239 | paper k is the trimmed piece at the k-th non-empty position, positions increasing and none missed, so order and repeats are kept |
| SubjectForm.PapersOne | app/dashboard/page.tsx:239 | a field without a comma gives its trimmed text as the one paper, or no paper when that is empty |
| SubjectForm.PapersAppend | app/dashboard/page.tsx:239 | the papers before the first comma come first, then those after it, whatever white space surrounds the comma |
| SubjectForm.MaxMarksOf | app/dashboard/page.tsx:240 | a maximum mark is listed exactly when some piece of the field reads as that number, so pieces read as `NaN` are dropped |
| SubjectForm.MaxMarksAppend | app/dashboard/page.tsx:240 | the maximum marks before the first comma come first, then those after it |
| SubjectForm.SaveSubject | app/dashboard/page.tsx:237-243 | an inserted row has a name, at least one class, at most four papers and one maximum per paper |
| SubjectForm.AfterInsert | app/dashboard/page.tsx:244 | a returned row is appended to the subjects and becomes active; without one nothing changes |
| SubjectForm.SaveRejectedIff | app/dashboard/page.tsx:237-243 | the form is refused exactly when the name or classes are missing, there are more than four papers, or the counts differ, with the reasons checked in that order; otherwise the row carries the parsed fields |
| SubjectForm.InsertedSubjectWellFormed | app/dashboard/page.tsx:238-243 | an inserted subject has a name, a class, at most four papers, one maximum per paper and clean paper names |
| SubjectForm.PapersClean | app/dashboard/page.tsx:239 | every parsed paper is non-empty, has no comma and no white space at either end |
| SubjectForm.TrimClean | app/dashboard/page.tsx:239 | a comma-free piece trims to nothing or to a clean name |
| SubjectForm.PapersRoundTrip | app/dashboard/page.tsx:239 | clean names joined with commas parse back to themselves |
| SubjectForm.IntTextClean | app/dashboard/page.tsx:240 | a decimal integer has no comma and is its own trim |
| SubjectForm.MaxMarksRoundTrip | app/dashboard/page.tsx:240 | integers written in decimal and joined with commas parse back to themselves |
| JsText.Trim | app/dashboard/page.tsx:239-240 | the result of `trim` neither begins nor ends with white space |
| JsText.TrimSlice | app/dashboard/page.tsx:239-240 | `trim` keeps a slice of the string, and everything before and after that slice is white space |
| JsText.TrimIdempotent | app/dashboard/page.tsx:239 | trimming twice is trimming once |
| JsText.Split | app/dashboard/page.tsx:239-240 | `split` yields at least one piece, no piece holds the separator, and joining them gives back the string |
| JsText.SplitConcat | app/dashboard/page.tsx:239-240 | a separator-free piece followed by the separator splits off as the first piece |
| JsText.SplitJoin | app/dashboard/page.tsx:239-240 | splitting a join of separator-free pieces gives back the pieces |
| JsText.ParseInt | app/dashboard/page.tsx:240 | a blank piece reads as `NaN` |
| JsText.ParseIntNegative | app/dashboard/page.tsx:240 | a negative result needs a minus sign after the leading white space |
| JsText.ParseIntText | app/dashboard/page.tsx:240 | `parseInt` of an integer's decimal text is that integer |
| JsText.IntTextInjective | app/dashboard/page.tsx:290 | different integers have different decimal texts |
| ImportRows.CollectStudents | app/dashboard/page.tsx:378-387 | the row callback collects the students to insert |
| ImportRows.StudentsAreImportedRows | app/dashboard/page.tsx:380-387 | the k-th student has the trimmed name of the k-th row that passes the filter |
| ImportRows.ImportsExactly | app/dashboard/page.tsx:381-383 | a row is imported exactly when it is after row 1 and its first cell trims to non-empty text; the imported name is trimmed |
| ImportRows.NothingToImportIff | app/dashboard/page.tsx:389-399 | nothing is inserted exactly when no row passes the filter |
| ImportRows.ImportedNamesComeFromRows | app/dashboard/page.tsx:380-387 | every student's name is the trimmed first cell of some row after the first |
| MarkInput.Normalise | components/MarkInput.tsx:8-21 | `undefined` and `null` both become the empty string; a value is kept |
| MarkInput.OutOfRange | components/MarkInput.tsx:19 | a number below 0 or above the maximum is out of range; a number between them and `NaN` are not |
| MarkInput.EmptyIsZero | components/MarkInput.tsx:17-19 | an empty field saves as 0 and passes the range check |
| MarkInput.AcceptedMarks | components/MarkInput.tsx:17-19 | a mark passes exactly when it is between 0 and the maximum, or is `NaN` |
| MarkInput.MarkField.constructor | components/MarkInput.tsx:5-9 | the maximum defaults to 75 and `val` starts as the normalised initial value |
| MarkInput.MarkField.Input | components/MarkInput.tsx:41 | typing sets `val` to the text |
| MarkInput.MarkField.ReceiveInitialValue | components/MarkInput.tsx:12-14 | a changed `initialValue` resets `val`, including a change from `undefined` to `null`, which empties the field; an unchanged one leaves it |
| MarkInput.MarkField.SaveMark | components/MarkInput.tsx:16-33 | out of range: no upsert, no update, `val` reset; otherwise exactly one upsert of that paper under (student, session, subject), and `onUpdate` runs exactly when there is no error |

## Left out

- Database access (Supabase queries, inserts, updates, upserts, deletes) is replaced by
  parameters holding the rows fetched, or the error returned; the write-back of
  `handleProgressChange` (lines 272-284) is not modelled.
- `JSON.parse` is a parameter that returns a progress map or nothing (when it throws).
  A string that parses to a non-object JSON value is not distinguished.
- `Number` on strings in `MarkInput` is a parameter. Marks stored in entries are the
  results of `Number` on the stored cells.
- Floating point: marks, totals, percentages and progress values are exact reals.
  Maximum marks (read by `parseInt`), years, paper counts and `maxPossible` are unbounded
  integers, since they come from integer columns and integer text. Rounding error in the
  percentage, `Infinity`, `-0` and integers beyond 2^53 are not modelled. Object keys of the
  progress map are natural numbers.
- `alert`, `window.confirm`, `console`, `localStorage`, React state and rendering,
  charts and themes are not modelled. The outcome datatypes name which alert a refusal shows.
- ExcelJS workbook loading is not modelled. A sheet is the sequence of rows that
  `eachRow` visits, each with its first cell's text.
- Login, logout, the theme switch, deleting subjects or students, the quote dialogue and
  `components/AddStudent.tsx` are outside the modelled core.
- `MarkInput.MarkField.constructor`: a `maxMark` of `null` is not modelled (only
  `undefined` triggers the default of 75).
