/**
 * The academic progression engine (generate_academic_and_events): a
 * year-by-year loop over the live students that draws marks, derives the
 * class from last year's percentage, writes one academic record, and then
 * promotes, graduates, fails or terminates the student; terminated students
 * are dropped at the end of every year.
 *
 * The two copies of the engine differ in two places, selected by Variant:
 * the generator module skips students who have not enrolled yet and gives
 * graduates a graduation year; the stand-alone app does neither.
 */
module Progression {
  import opened Wrappers
  import Catalogue

  const PassMark: int := 30
  const MaxFailures := 3
  /** An academic record has columns subject_1_marks .. subject_5_marks. */
  const RecordSlots := 5

  datatype ClassLabel = A | B | C | D

  /**
   * A final percentage 100 * sum(marks) / sum(max_marks), kept exact as the
   * fraction num / den with den > 0; when the grade's maximum marks sum to 0
   * the division yields NaN.
   */
  datatype Percentage = Ratio(num: int, den: int) | NotANumber

  /** p >= t, false for NaN as in floating point. */
  predicate AtLeast(p: Percentage, t: int) { p.Ratio? && p.num >= t * p.den }

  /** p < t, false for NaN as in floating point. */
  predicate Below(p: Percentage, t: int) { p.Ratio? && p.num < t * p.den }

  datatype Variant = GeneratorModule | StandaloneApp
  {
    /** generator.py skips a student whose enrollment_year is after the simulated year. */
    predicate SkipsFutureEnrollment() { this == GeneratorModule }

    /** generator.py writes a "Graduation Year" column. */
    predicate RecordsGraduationYear() { this == GeneratorModule }
  }

  /**
   * A row of the working students table: the enrollment and identity columns
   * the engine reads, with the three working columns last_pct, fail_count and
   * terminated. `grade` is the starting_grade column, which the engine advances.
   */
  datatype LiveStudent = LiveStudent(
    enrollmentId: int, enrollmentYear: int, grade: int,
    firstName: string, lastName: string, birthYear: int,
    lastPct: Option<Percentage>, failCount: int, terminated: bool)

  datatype AcademicRecord = AcademicRecord(
    academicYear: int, enrollmentId: int, grade: int, classLabel: ClassLabel,
    finalPercentage: Percentage, subjectMarks: seq<Option<int>>)

  datatype GraduateRecord = GraduateRecord(
    enrollmentId: int, firstName: string, lastName: string,
    finalPct: Percentage, age: int, graduationYear: Option<int>)

  datatype TerminatedRecord = TerminatedRecord(
    enrollmentId: int, firstName: string, lastName: string,
    grade: int, academicYear: int, reason: string)

  /**
   * The random draws of a run, keyed by simulated year and position in the
   * working table: the class chosen when there is no previous percentage,
   * and the mark of each subject slot, drawn from 0..max_marks.
   */
  datatype Draws = Draws(classPick: (int, int) -> ClassLabel, mark: (int, int, int, nat) -> int)

  ghost predicate DrawsValid(d: Draws)
  {
    forall year: int, pos: int, slot: int, most: nat :: 0 <= d.mark(year, pos, slot, most) <= most
  }

  datatype Config = Config(variant: Variant, table: seq<Catalogue.GradeRow>, draws: Draws)

  // ------------------------------------------------------------ class label

  /**
   * The class for the coming year from last year's percentage: the draw when
   * there is none, otherwise A from 90, B from 70, C from 55 and D below that
   * (a failing percentage, and NaN, give D).
   */
  function ClassFor(prev: Option<Percentage>, pick: ClassLabel): (c: ClassLabel)
    ensures prev.None? ==> c == pick
    ensures prev.Some? && prev.value.NotANumber? ==> c == D
    ensures prev.Some? && prev.value.Ratio? && prev.value.den > 0 ==>
              var p := prev.value;
              (c == A <==> AtLeast(p, 90)) &&
              (c == B <==> AtLeast(p, 70) && Below(p, 90)) &&
              (c == C <==> AtLeast(p, 55) && Below(p, 70)) &&
              (c == D <==> Below(p, 55))
  {
    match prev
    case None => pick
    case Some(p) =>
      if Below(p, PassMark) then D
      else if AtLeast(p, 90) then A
      else if AtLeast(p, 70) then B
      else if AtLeast(p, 55) then C
      else D
  }

  /** A above B above C above D. */
  function Rank(c: ClassLabel): nat
  {
    match c
    case D => 0
    case C => 1
    case B => 2
    case A => 3
  }

  // ------------------------------------------------------------- percentage

  function Sum(xs: seq<int>): int
  {
    if xs == [] then 0 else Sum(xs[..|xs| - 1]) + xs[|xs| - 1]
  }

  /** Every subject row is marked out of 100, as the catalogue writes them. */
  predicate OutOfHundred(subs: seq<Catalogue.GradeRow>)
  {
    forall k :: 0 <= k < |subs| ==> subs[k].maxMarks == Catalogue.MaxMarks
  }

  /** subs.max_marks.sum() */
  function MaxSum(subs: seq<Catalogue.GradeRow>): (m: nat)
    ensures OutOfHundred(subs) ==> m == Catalogue.MaxMarks * |subs|
  {
    if subs == [] then 0 else MaxSum(subs[..|subs| - 1]) + subs[|subs| - 1].maxMarks
  }

  /** One randint(0, max_marks) per subject row of the grade. */
  function DrawMarks(d: Draws, year: int, pos: int, subs: seq<Catalogue.GradeRow>): (marks: seq<int>)
    ensures |marks| == |subs|
  {
    seq(|subs|, k requires 0 <= k < |subs| => d.mark(year, pos, k, subs[k].maxMarks))
  }

  /** sum(marks) / msum * 100, exact; NaN when msum is 0. */
  function PercentageOf(marks: seq<int>, subs: seq<Catalogue.GradeRow>): (p: Percentage)
    ensures p.NotANumber? <==> MaxSum(subs) == 0
    ensures p.Ratio? ==> p.den == MaxSum(subs) && p.num == 100 * Sum(marks)
  {
    var most := MaxSum(subs);
    if most == 0 then NotANumber else Ratio(100 * Sum(marks), most)
  }

  // ----------------------------------------------------------- record slots

  /** subject_i_marks = marks[i - 1] if there is such a mark, else None, for i = 1..5. */
  function Slots(marks: seq<int>): (slots: seq<Option<int>>)
    ensures |slots| == RecordSlots
  {
    seq(RecordSlots, i requires 0 <= i < RecordSlots => if i < |marks| then Some(marks[i]) else None)
  }

  /** The marks a row of slots records: its leading filled slots. */
  function MarksOfSlots(slots: seq<Option<int>>): (marks: seq<int>)
    ensures |marks| <= |slots|
  {
    if slots == [] || slots[0].None? then [] else [slots[0].value] + MarksOfSlots(slots[1..])
  }

  // ---------------------------------------------------- termination reason

  function Digit(d: nat): char
    requires d < 10
  {
    ('0' as int + d) as char
  }

  /** Decimal text of a natural number, as Python's str() writes it. */
  function DecimalText(n: nat): (s: string)
    ensures |s| >= 1
    decreases n
  {
    if n < 10 then [Digit(n)] else DecimalText(n / 10) + [Digit(n % 10)]
  }

  function IntText(i: int): string
  {
    if i < 0 then "-" + DecimalText(-i) else DecimalText(i)
  }

  const FailPrefix: string := "Failed 3\U{D7} in grade "

  /** f"Failed 3× in grade {grade}" */
  function FailReason(grade: int): string
  {
    FailPrefix + IntText(grade)
  }

  // ------------------------------------------------------------ one student

  datatype StepResult = StepResult(
    student: LiveStudent,
    record: Option<AcademicRecord>,
    graduate: Option<GraduateRecord>,
    termination: Option<TerminatedRecord>)

  function Graduate(v: Variant, st: LiveStudent, pct: Percentage, year: int): GraduateRecord
  {
    GraduateRecord(st.enrollmentId, st.firstName, st.lastName, pct, year - st.birthYear,
                   if v.RecordsGraduationYear() then Some(year + 1) else None)
  }

  /** A failed year: one more failure, the percentage kept, and termination at the third. */
  function Fail(st: LiveStudent, pct: Percentage, year: int, rec: AcademicRecord): (r: StepResult)
    ensures r.record == Some(rec) && r.graduate.None?
    ensures r.student == st.(failCount := st.failCount + 1, lastPct := Some(pct), terminated := r.student.terminated)
    ensures r.termination.Some? <==> st.failCount + 1 >= MaxFailures
    ensures r.student.terminated <==> st.terminated || r.termination.Some?
    ensures r.termination.Some? ==>
              r.termination.value.enrollmentId == st.enrollmentId && r.termination.value.grade == st.grade &&
              r.termination.value.academicYear == year && r.termination.value.reason == FailReason(st.grade)
  {
    var failed := st.(failCount := st.failCount + 1, lastPct := Some(pct));
    if failed.failCount >= MaxFailures then
      StepResult(failed.(terminated := true), Some(rec), None,
                 Some(TerminatedRecord(st.enrollmentId, st.firstName, st.lastName, st.grade, year,
                                       FailReason(st.grade))))
    else
      StepResult(failed, Some(rec), None, None)
  }

  /** The class, marks and percentage of an attending student's year, as written to the academic list. */
  function RecordOf(cfg: Config, year: int, pos: int, st: LiveStudent): (rec: AcademicRecord)
    ensures rec.academicYear == year && rec.enrollmentId == st.enrollmentId && rec.grade == st.grade
    ensures rec.classLabel == ClassFor(st.lastPct, cfg.draws.classPick(year, pos))
    ensures |rec.subjectMarks| == RecordSlots
  {
    var cls := ClassFor(st.lastPct, cfg.draws.classPick(year, pos));
    var subs := Catalogue.RowsOfGrade(cfg.table, st.grade);
    var marks := DrawMarks(cfg.draws, year, pos, subs);
    AcademicRecord(year, st.enrollmentId, st.grade, cls, PercentageOf(marks, subs), Slots(marks))
  }

  /** Graduate, promote or fail on the year's percentage. */
  function Decide(v: Variant, st: LiveStudent, rec: AcademicRecord, year: int): (r: StepResult)
    ensures r.record == Some(rec)
    ensures r.graduate.Some? <==> st.grade == Catalogue.LastGrade && AtLeast(rec.finalPercentage, PassMark)
    ensures !AtLeast(rec.finalPercentage, PassMark) ==> r == Fail(st, rec.finalPercentage, year, rec)
    ensures AtLeast(rec.finalPercentage, PassMark) ==> r.termination.None?
    ensures AtLeast(rec.finalPercentage, PassMark) && st.grade == Catalogue.LastGrade ==>
              r.student == st.(terminated := true) && r.graduate == Some(Graduate(v, st, rec.finalPercentage, year))
    ensures AtLeast(rec.finalPercentage, PassMark) && st.grade != Catalogue.LastGrade ==>
              r.student == st.(grade := st.grade + 1, failCount := 0, lastPct := Some(rec.finalPercentage))
  {
    var pct := rec.finalPercentage;
    if st.grade == Catalogue.LastGrade then
      if AtLeast(pct, PassMark) then
        StepResult(st.(terminated := true), Some(rec), Some(Graduate(v, st, pct, year)), None)
      else
        Fail(st, pct, year, rec)
    else
      if AtLeast(pct, PassMark) then
        StepResult(st.(grade := st.grade + 1, failCount := 0, lastPct := Some(pct)), Some(rec), None, None)
      else
        Fail(st, pct, year, rec)
  }

  /** The body of the inner loop for the student at position `pos` in `year`. */
  function Step(cfg: Config, year: int, pos: int, st: LiveStudent): (r: StepResult)
    ensures r.record.None? <==> cfg.variant.SkipsFutureEnrollment() && st.enrollmentYear > year
    ensures r.record.None? ==> r.student == st && r.graduate.None? && r.termination.None?
    ensures r.record.Some? ==> r.record.value == RecordOf(cfg, year, pos, st)
  {
    if cfg.variant.SkipsFutureEnrollment() && st.enrollmentYear > year then
      StepResult(st, None, None, None)
    else
      Decide(cfg.variant, st, RecordOf(cfg, year, pos, st), year)
  }

  // --------------------------------------------------------------- one year

  /** The table and the three output lists. */
  datatype Ledger = Ledger(
    students: seq<LiveStudent>,
    academic: seq<AcademicRecord>,
    graduates: seq<GraduateRecord>,
    terminated: seq<TerminatedRecord>)

  /** The state of one year's pass after the students at positions 0..i-1 have been handled. */
  function YearPrefix(cfg: Config, year: int, studs: seq<LiveStudent>, i: nat): (l: Ledger)
    requires i <= |studs|
    ensures |l.students| == |studs|
    ensures forall k :: i <= k < |studs| ==> l.students[k] == studs[k]
    decreases i
  {
    if i == 0 then Ledger(studs, [], [], [])
    else
      Advance(YearPrefix(cfg, year, studs, i - 1), i - 1, Step(cfg, year, i - 1, studs[i - 1]))
  }

  /** Store a step's new row at position i and append its records. */
  function Advance(l: Ledger, i: nat, r: StepResult): (l': Ledger)
    requires i < |l.students|
    ensures |l'.students| == |l.students|
  {
    Ledger(l.students[i := r.student],
           l.academic + OptionToSeq(r.record),
           l.graduates + OptionToSeq(r.graduate),
           l.terminated + OptionToSeq(r.termination))
  }

  /** One full pass over the table, before terminated rows are dropped. */
  function Year(cfg: Config, year: int, studs: seq<LiveStudent>): Ledger
  {
    YearPrefix(cfg, year, studs, |studs|)
  }

  /** studs[~studs.terminated] */
  function Survivors(studs: seq<LiveStudent>): (s: seq<LiveStudent>)
    ensures |s| <= |studs|
  {
    if studs == [] then []
    else Survivors(studs[..|studs| - 1]) + (if studs[|studs| - 1].terminated then [] else [studs[|studs| - 1]])
  }

  /** The years year..endYear; the ledger's table is the one left after the last year. */
  function RunFrom(cfg: Config, studs: seq<LiveStudent>, year: int, endYear: int): Ledger
    decreases endYear - year
  {
    if year > endYear then Ledger(studs, [], [], [])
    else
      var y := Year(cfg, year, studs);
      var rest := RunFrom(cfg, Survivors(y.students), year + 1, endYear);
      Ledger(rest.students,
             y.academic + rest.academic,
             y.graduates + rest.graduates,
             y.terminated + rest.terminated)
  }

  /**
   * generate_academic_and_events: for each year from startYear to endYear,
   * pass over the working table and append to the three output lists, then
   * drop the terminated rows.
   */
  method GenerateAcademicAndEvents(cfg: Config, students: seq<LiveStudent>, startYear: int, endYear: int)
    returns (academic: seq<AcademicRecord>, graduates: seq<GraduateRecord>, terminated: seq<TerminatedRecord>)
    ensures academic == RunFrom(cfg, students, startYear, endYear).academic
    ensures graduates == RunFrom(cfg, students, startYear, endYear).graduates
    ensures terminated == RunFrom(cfg, students, startYear, endYear).terminated
  {
    ghost var total := RunFrom(cfg, students, startYear, endYear);
    var done := Ledger(students, [], [], []);
    RunFromStart(total, done);
    var year := startYear;
    while year <= endYear
      invariant total == Then(done, RunFrom(cfg, done.students, year, endYear))
    {
      var y := ProcessYear(cfg, year, done.students);
      RunAdvance(cfg, total, done, year, endYear, y);
      done := Ledger(Survivors(y.students), done.academic + y.academic,
                     done.graduates + y.graduates, done.terminated + y.terminated);
      year := year + 1;
    }
    RunFinished(cfg, total, done, year, endYear);
    academic, graduates, terminated := done.academic, done.graduates, done.terminated;
  }

  /** The outputs of `first` followed by those of `next`, with `next`'s table. */
  function Then(first: Ledger, next: Ledger): Ledger
  {
    Ledger(next.students, first.academic + next.academic,
           first.graduates + next.graduates, first.terminated + next.terminated)
  }

  lemma ThenAssociative(a: Ledger, b: Ledger, c: Ledger)
    ensures Then(a, Then(b, c)) == Then(Ledger(b.students, a.academic + b.academic, a.graduates + b.graduates,
                                               a.terminated + b.terminated), c)
  {
    assert a.academic + (b.academic + c.academic) == (a.academic + b.academic) + c.academic;
    assert a.graduates + (b.graduates + c.graduates) == (a.graduates + b.graduates) + c.graduates;
    assert a.terminated + (b.terminated + c.terminated) == (a.terminated + b.terminated) + c.terminated;
  }

  lemma RunFromUnfold(cfg: Config, studs: seq<LiveStudent>, year: int, endYear: int, y: Ledger)
    requires year <= endYear && y == Year(cfg, year, studs)
    ensures RunFrom(cfg, studs, year, endYear) == Then(y, RunFrom(cfg, Survivors(y.students), year + 1, endYear))
  {
  }

  lemma RunFromStart(total: Ledger, done: Ledger)
    requires done.academic == [] && done.graduates == [] && done.terminated == []
    ensures total == Then(done, total)
  {
  }

  /** One more year of the outer loop keeps the remaining run in step with the whole run. */
  lemma RunAdvance(cfg: Config, total: Ledger, done: Ledger, year: int, endYear: int, y: Ledger)
    requires year <= endYear && y == Year(cfg, year, done.students)
    requires total == Then(done, RunFrom(cfg, done.students, year, endYear))
    ensures total == Then(Ledger(Survivors(y.students), done.academic + y.academic,
                                 done.graduates + y.graduates, done.terminated + y.terminated),
                          RunFrom(cfg, Survivors(y.students), year + 1, endYear))
  {
    RunFromUnfold(cfg, done.students, year, endYear, y);
    ThenAssociative(done, y, RunFrom(cfg, Survivors(y.students), year + 1, endYear));
  }

  lemma RunFinished(cfg: Config, total: Ledger, done: Ledger, year: int, endYear: int)
    requires year > endYear
    requires total == Then(done, RunFrom(cfg, done.students, year, endYear))
    ensures total.academic == done.academic
    ensures total.graduates == done.graduates
    ensures total.terminated == done.terminated
  {
    assert done.academic + [] == done.academic;
    assert done.graduates + [] == done.graduates;
    assert done.terminated + [] == done.terminated;
  }

  /**
   * The inner loop of generate_academic_and_events for one year: the rows of
   * the working table are updated in place, one position at a time.
   */
  method ProcessYear(cfg: Config, year: int, students: seq<LiveStudent>) returns (l: Ledger)
    ensures l == Year(cfg, year, students)
  {
    var studs := students;
    var academic: seq<AcademicRecord> := [];
    var graduates: seq<GraduateRecord> := [];
    var terminated: seq<TerminatedRecord> := [];
    for i := 0 to |students|
      invariant YearPrefix(cfg, year, students, i) == Ledger(studs, academic, graduates, terminated)
    {
      YearPrefixNext(cfg, year, students, i);
      studs, academic, graduates, terminated := ProcessRow(cfg, year, i, studs, academic, graduates, terminated);
    }
    l := Ledger(studs, academic, graduates, terminated);
  }

  lemma YearPrefixNext(cfg: Config, year: int, studs: seq<LiveStudent>, i: nat)
    requires i < |studs|
    ensures YearPrefix(cfg, year, studs, i).students[i] == studs[i]
    ensures YearPrefix(cfg, year, studs, i + 1)
            == Advance(YearPrefix(cfg, year, studs, i), i, Step(cfg, year, i, studs[i]))
  {
  }

  /**
   * The body of the inner loop for the row at position i: skip it, or write its
   * academic record and then graduate, promote or fail it in place.
   */
  method ProcessRow(cfg: Config, year: int, i: nat, studs0: seq<LiveStudent>, academic0: seq<AcademicRecord>,
                    graduates0: seq<GraduateRecord>, terminated0: seq<TerminatedRecord>)
    returns (studs: seq<LiveStudent>, academic: seq<AcademicRecord>,
             graduates: seq<GraduateRecord>, terminated: seq<TerminatedRecord>)
    requires i < |studs0|
    ensures Ledger(studs, academic, graduates, terminated)
            == Advance(Ledger(studs0, academic0, graduates0, terminated0), i, Step(cfg, year, i, studs0[i]))
  {
    studs, academic, graduates, terminated := studs0, academic0, graduates0, terminated0;
    var st := studs[i];
    ghost var r := Step(cfg, year, i, st);
    if cfg.variant.SkipsFutureEnrollment() && st.enrollmentYear > year {
      assert studs[i := st] == studs;
      return;
    }
    var cls := ClassFor(st.lastPct, cfg.draws.classPick(year, i));
    var subs := Catalogue.RowsOfGrade(cfg.table, st.grade);
    var marks := DrawMarks(cfg.draws, year, i, subs);
    var pct := PercentageOf(marks, subs);
    var rec := AcademicRecord(year, st.enrollmentId, st.grade, cls, pct, Slots(marks));
    assert r == Decide(cfg.variant, st, rec, year);
    academic := academic + [rec];
    if st.grade == Catalogue.LastGrade && AtLeast(pct, PassMark) {
      graduates := graduates + [Graduate(cfg.variant, st, pct, year)];
      studs := studs[i := studs[i].(terminated := true)];
    } else if AtLeast(pct, PassMark) {
      studs := studs[i := studs[i].(grade := studs[i].grade + 1)];
      studs := studs[i := studs[i].(failCount := 0)];
      studs := studs[i := studs[i].(lastPct := Some(pct))];
      assert studs == studs0[i := st.(grade := st.grade + 1, failCount := 0, lastPct := Some(pct))];
    } else {
      studs := studs[i := studs[i].(failCount := studs[i].failCount + 1)];
      studs := studs[i := studs[i].(lastPct := Some(pct))];
      if studs[i].failCount >= MaxFailures {
        terminated := terminated + [TerminatedRecord(st.enrollmentId, st.firstName, st.lastName,
                                                     st.grade, year, FailReason(st.grade))];
        studs := studs[i := studs[i].(terminated := true)];
      }
    }
  }
}
