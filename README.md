# School records generator — a Dafny model of its core

The repository generates a synthetic school dataset. It writes these tables:

- a subject catalogue per grade (`generate_subject_counts`, `generate_grade_table`);
- student identities (`generate_student_details`);
- enrollment records (`generate_student_enrollment`);
- year-by-year academic, graduation and termination records
  (`generate_academic_and_events`).

The same functions exist twice: in `generator.py` and in the stand-alone
`school_records_app.py`. The copies differ only in the progression engine.
`generator.py` skips a student whose enrollment year is after the simulated
year, and gives each graduate a "Graduation Year". The app does neither. The
model keeps both behaviours behind one switch, `Progression.Variant`.

Modules, one per file:

- `Wrappers` (wrappers.dfy): `Option`, `Result`, `Min`, `Max`.
- `Catalogue` (catalogue.dfy): subject counts and the grade table. This is a
  loop over the grades with an inner loop over the subject names, proved
  against the function `GradeTable`.
- `Identity` (identity.dfy): student ids and enrollments. Both are loops
  proved against per-row specifications. It also holds the id multiplier and
  the placement rules.
- `Progression` (progression.dfy): the engine. The functions
  `Step`/`Year`/`RunFrom` specify one student, one year and a whole run. The
  methods `GenerateAcademicAndEvents`, `ProcessYear` and `ProcessRow` are the
  source's nested loops, with the table rows updated in place. Each method is
  proved equal to its specification function.
- `ProgressionFacts` (progression_facts.dfy): what the engine guarantees. This
  covers one student's year, conservation of students over a year and over a
  run, the record shapes and the class rule.
- `Pipeline` (pipeline.dfy): the app's merge of enrollments with identities
  into the engine's input table.

Random draws, Faker/mimesis values and the current year are parameters:

- the subject counts for grades 4..8;
- one shuffle of the elective pool per grade, whose first k entries are
  `random.sample(pool, k)`;
- birth years and names;
- status picks and enrollment-year draws;
- the engine's class pick and marks, as functions of (year, position, slot).

Each draw's range is a precondition, as the library guarantees it.

## Model

| member | source | states |
|---|---|---|
| Catalogue.SubjectCounts | generator.py:45-46 | grades 1..8 are the keys; grades 1-3 take 3 subjects, the others 3..5 |
| Catalogue.GenerateGradeTable | generator.py:48-55 | the loop over grades builds exactly `GradeTable`: the rows of grades 1..g in order, or the error of the first grade whose sample is larger than the pool |
| Catalogue.AppendRows | generator.py:53-54 | the inner loop appends one row (grade, subject, 0, 100) per subject name, in order |
| Catalogue.FailurePersists | generator.py:50-52 | once a grade's `random.sample` raises, the whole table fails with that grade's error |
| Catalogue.TableUpToSucceedsIff | generator.py:50-52 | grades 1..g succeed exactly when every elective count drawn so far fits the pool |
| Catalogue.GradeTableSucceedsIff | generator.py:48-55 | the table is built if and only if every drawn elective count fits `subjects[3:]`; with at least 5 subjects it always is |
| Catalogue.TableUpToRows | generator.py:50-54 | after grades 1..g, filtering by grade gives back exactly what that grade's iteration appended; other grades have no rows |
| Catalogue.GradeRowsShape | generator.py:51-54 | one grade's rows are `subjects[:3]` then `total - 3` pool entries at distinct shuffled positions, each marked out of 0..100 |
| Catalogue.GradeCatalogue | generator.py:48-55 | in the built table, the rows of grade g in 1..8 have that shape with g's drawn count; a grade outside 1..8 has no rows |
| Catalogue.GradeSubjectCount | generator.py:45-53 | with at least 3 subjects, grades 1-3 list exactly 3 subjects and grades 4-8 list 3..5 |
| Catalogue.CataloguedDistinct | generator.py:51-53 | rows of the catalogue's shape repeat no subject when the subject names are distinct |
| Catalogue.GradeSubjectsDistinct | school_records_app.py:45-52 | when the subject names are distinct, no grade lists a subject twice |
| Identity.SourceMultiplier | generator.py:61 | the source's multiplier is 100 or 1000, and 100 below n = 100 |
| Identity.IdMultiplier | generator.py:61 | the multiplier the model uses exceeds n and is at least 100; it is 100, like the source's, below n = 100; 1000, where the source uses 100, for 100 <= n < 1000; and 10000 or more, where the source uses 1000, from n = 1000 on |
| Identity.IdRoundTrip | generator.py:65 | an id `year * mult + seq` with seq in 1..n splits back into its year and its sequence number |
| Identity.IdsDistinct | generator.py:93 | two ids with different sequence numbers in 1..n differ, whatever their years |
| Identity.SourceIdsCollide | generator.py:61-65 | with the source's multiplier and n = 101, students 1 (born 2011) and 101 (born 2010) get the same id; both birth years are valid draws for school_start 2015 and current year 2025 |
| Identity.GenerateStudentDetails | generator.py:57-70 | n identities in order, id = birth_year * mult + k, birth years in school_start - 10 .. current - 2, every id splits back into its birth year and k, and no two ids collide |
| Identity.GradeForAge | generator.py:92 | the starting grade is age - 2 clamped to 1..8: exactly age - 2 when that lies in 1..8, grade 1 below, grade 8 above |
| Identity.PlaceRules | generator.py:77-92 | every placement is consistent: a "new" student starts in grade 1 at max(by + 2, school_start); a transfer-in arrives inside max(school_start, by + 3) .. min(current, by + 10) in the grade for its age; transfer-in exactly when chosen or forced by the birth year and the window is open |
| Identity.PlacementAsWritten | generator.py:77-92 | as written, the status and enrollment year are those of `Place` and the grade lies in 1..8; the grade differs from `Place`'s only in the fallback, where transfer-in was chosen but the window is empty |
| Identity.AsWrittenNewStudentInGradeEight | generator.py:88-92 | as written, by = 2020, school_start = 2030, current = 2025 gives status "new" and grade 8, which breaks the placement rules |
| Identity.GenerateStudentEnrollment | generator.py:72-99 | one enrollment per identity, in order, with the placement of `Place` and id = enrollment_year * mult + k; every row is consistent; the enrollment ids are distinct when there are at most n rows |
| Pipeline.AdmittedHealthy | school_records_app.py:208-213 | the merged table with last_pct None, fail_count 0 and terminated False holds rows the engine can start from, and keeps distinct enrollment ids distinct |
| Progression.ClassFor | generator.py:114-119 | no previous percentage: the random pick; NaN: D; otherwise A iff >= 90, B iff 70..90, C iff 55..70, D iff below 55 (a fail below 30 included) |
| Progression.MaxSum | generator.py:122 | when every subject of the grade is marked out of 100, msum is 100 times the number of subjects |
| Progression.RecordOf | generator.py:114-130 | the record carries the simulated year, the row's enrollment id and grade, the class `ClassFor` gives from last year's percentage and the row's pick, and five subject slots |
| Progression.Fail | generator.py:157-166 | a fail keeps every column except fail_count, one more, and last_pct, this year's percentage; exactly at the third failure it writes a terminated record with the id, grade, year and reason "Failed 3× in grade g" and terminates the row; it never writes a graduate record |
| Progression.Decide | generator.py:132-166 | the record is always written; a graduate record exactly on a pass (at least 30) in grade 8, which terminates the row; a pass below grade 8 moves up one grade, resets fail_count and keeps the percentage; a pass never writes a terminated record; a fail is `Fail` |
| Progression.Step | generator.py:105-166 | no record exactly when generator.py skips a student enrolling after the year (the app never does), and then the row is unchanged and nothing else is written; otherwise the record is `RecordOf`'s |
| Progression.Survivors | generator.py:167 | dropping terminated rows never lengthens the table |
| ProgressionFacts.ClassMonotone | school_records_app.py:106-111 | a student whose previous percentage is at least another's never gets a lower class |
| ProgressionFacts.PercentageInRange | generator.py:122-124 | marks within 0..max_marks give a percentage within 0..100; the result is NaN exactly when the maximum marks sum to 0 |
| ProgressionFacts.PercentageIsMean | generator.py:121-124 | when every subject of the grade is marked out of 100, the percentage is the mean of the marks: 100 * sum(marks) out of 100 * the number of subjects |
| ProgressionFacts.CatalogueGradesScored | generator.py:121-122 | in a built catalogue with at least one subject, every grade is marked out of at least 100, so no percentage is NaN |
| ProgressionFacts.SlotsRoundTrip | generator.py:128-129 | the five subject_i_marks columns give back the first five marks in order; missing ones are None |
| ProgressionFacts.FailReasonNamesGrade | generator.py:150 | the reason is "Failed 3× in grade " followed by the decimal digits of the grade |
| ProgressionFacts.RecordFacts | generator.py:121-130 | the record carries the year, enrollment id and grade, the class from last year's percentage, five slots holding the drawn marks within 0..max_marks, and a percentage in 0..100 |
| ProgressionFacts.RecordPercentageRoundTrip | generator.py:121-129 | when the grade has one to five subjects, each marked out of 100, the marks read back from the five slots have as their mean exactly the stored final percentage |
| ProgressionFacts.StepPromotes | generator.py:153-156 | a pass below grade 8 moves the student up one grade, resets the failures and keeps the percentage, with no graduate or terminated record |
| ProgressionFacts.StepFails | generator.py:157-166 | a fail (below 30 or NaN) keeps the grade, adds one failure and keeps the percentage; a terminated record naming the grade is written exactly at the third failure, which also terminates the student |
| ProgressionFacts.StepGraduates | generator.py:132-141 | a pass in grade 8 writes one graduate record with the age that year and, in generator.py only, year + 1 as graduation year; the student is terminated |
| ProgressionFacts.StepExactlyOneOutcome | generator.py:132-166 | an attending student is exactly one of: promoted, repeating, graduated, terminated |
| ProgressionFacts.StepKeepsHealthy | generator.py:132-166 | a healthy row keeps its id, its grade within 1..8 and its failures within 0..3; it ends terminated exactly when a graduate or terminated record was written, never both |
| Progression.ProcessRow | generator.py:105-166 | one pass of the inner loop stores the row's step result at its position and appends its records |
| Progression.ProcessYear | generator.py:105-166 | the inner loop over the working table computes `Year`, in which each row's step reads the row as the year found it |
| Progression.GenerateAcademicAndEvents | generator.py:101-170 | the nested loops return the academic, graduate and terminated lists of `RunFrom` |
| ProgressionFacts.YearReplay | generator.py:105-166 | a year equals storing every row's step result computed from the table at the start of the year: no step sees another row's update |
| ProgressionFacts.YearConserves | generator.py:105-167 | after one year, survivors plus graduates plus terminated are, as enrollment ids, exactly the students the year started with |
| ProgressionFacts.YearAttending | generator.py:105-130 | a year writes one academic record per attending student, in table order |
| ProgressionFacts.YearSurvivorsHealthy | generator.py:167 | the rows left after dropping the terminated ones are healthy |
| ProgressionFacts.SurvivorsExactly | generator.py:167 | a row is kept exactly when it is in the table and not terminated |
| ProgressionFacts.YearRecords | generator.py:126-165 | every record of a year is dated that year and lies in grades 1..8, and every termination reason names its grade |
| ProgressionFacts.AppAttendsEveryStudent | school_records_app.py:102-104 | the app skips nobody: the students taking part in a year are the whole table, in order |
| ProgressionFacts.AppRecordsEveryStudent | school_records_app.py:102-122 | in the app a year's academic records carry exactly the table's enrollment ids, one each, in table order, whatever the enrollment years |
| ProgressionFacts.RunStaysInBounds | generator.py:104-170 | a run leaves a healthy table and dates every record within start_year..end_year and grades 1..8 |
| ProgressionFacts.RunConservesStudents | generator.py:104-170 | over a run, the final table plus graduates plus terminated are, as enrollment ids, exactly the students it started with |
| ProgressionFacts.LeaversLeaveOnce | generator.py:132-167 | with distinct enrollment ids, each starting student ends a run in exactly one place (still enrolled, graduated once, or terminated once), and no other id appears in any of the three |
| ProgressionFacts.RunRecordsWithin | generator.py:104-170 | every academic record of a run carries the enrollment id of a student the run started with |
| ProgressionFacts.LeaverNoLaterRecord | generator.py:132-167 | with distinct enrollment ids, a student who graduates or is terminated in a year is dropped with the terminated rows and gets no academic record in any later year |

## Left out

- The dependency bootstrap (`pip install` at import), the Tk window, the CSV
  writing, `ui.py` and `bigquery_loader.py` are I/O and are not modelled.
- Faker/mimesis names and birth dates, `datetime.now().year` and every
  `random` call are parameters. A birth date is reduced to its year, the
  only part the core reads.
- The engine's draws are functions of (simulated year, position in the
  working table, subject slot) rather than a stream. Each such triple is
  drawn exactly once per run, so this changes nothing.
- PercentageOf: does not model `round(..., 2)` or floating point. The
  percentage is the exact fraction `100 * sum(marks) / sum(max_marks)`, so a
  value such as 29.996, which Python rounds to 30.0 and counts as a pass,
  counts as a fail here.
- Progression.RecordOf: an empty catalogue is not an error here. With an
  empty subject list (nothing stops the Tk form from passing one) and every
  drawn count 3, `generate_grade_table` returns a DataFrame with no columns,
  and the source raises AttributeError at `grade_df.grade` (generator.py:121)
  for the first attending student, so the run produces nothing. The model
  instead gives that grade maximum marks 0, records a `NotANumber`
  percentage and fails the student. `CatalogueGradesScored` shows that with
  at least one subject every grade has rows marked out of at least 100, so
  the source never reaches a 0 / 0 and the two agree.
- The `enrol_id += 1` in generator.py (lines 108 and 113) updates a local
  that is never read, so it is not modelled.
- Identity.GenerateStudentDetails: requires every birth-year draw to lie in
  `school_start - 10 .. current - 2`, and `n` is a `nat`. The library's
  behaviour on an empty date range, and `range(n)` for a negative `n`, are
  not modelled. It uses the corrected multiplier (see Findings), so its ids
  differ from the source's for every n >= 100.
- Identity.GenerateStudentEnrollment: uses the corrected multiplier and
  placement (see Findings), not the source's as written.
- Pipeline.AdmitAll: pairs enrollment k with identity k instead of
  modelling pandas' merge on `student_id`. The two agree because enrollment
  k copies identity k's id and `GenerateStudentDetails` proves the ids
  distinct.
- pandas DataFrames are sequences of records. `studs.at[idx, ...]` writes
  the row being visited, which the model writes at its position.
- The other files of the repository (`Academic Data Generator.py`,
  `School Dataset generator.py`) are other variants of the same generator and are not part of
  this model.

## Findings

| source | as written | input that shows it | evidently intended | confidence | as-written member | corrected member |
|---|---|---|---|---|---|---|
| generator.py:61-65 | `mult = 1000 if n>=1000 else 100`, id `= year*mult + seq` | n = 101: student 1 born 2011 and student 101 born 2010 both get id 201101 | a multiplier larger than n, so that ids are unique | high; not executed | Identity.SourceIdsCollide | Identity.IdsDistinct |
| generator.py:88-92 | the fallback sets `status="new"; grade=1`, then the next line recomputes `grade` from the age | birth year 2020, school_start 2030, current 2025: status "new", enrollment 2030, grade 8 | the fallback to "new" keeps grade 1, like every other "new" student | medium; not executed | Identity.AsWrittenNewStudentInGradeEight | Identity.PlaceRules |
