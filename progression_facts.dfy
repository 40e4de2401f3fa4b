/**
 * What the progression engine guarantees: the rules of one student's year,
 * the invariants a year and a whole run keep, and how the records it writes
 * relate to the students it started from.
 */
module ProgressionFacts {
  import opened Wrappers
  import Catalogue
  import opened Progression

  /** A row the engine may meet at the start of a year. */
  predicate Healthy(st: LiveStudent)
  {
    Catalogue.FirstGrade <= st.grade <= Catalogue.LastGrade &&
    0 <= st.failCount < MaxFailures &&
    !st.terminated
  }

  // ------------------------------------------------------------ class label

  /** p <= q as fractions with positive denominators. */
  predicate NotAbove(p: Percentage, q: Percentage)
  {
    p.Ratio? && q.Ratio? && p.den > 0 && q.den > 0 && p.num * q.den <= q.num * p.den
  }

  /** A percentage at or above a threshold stays there when it grows. */
  lemma AtLeastGrows(p: Percentage, q: Percentage, t: int)
    requires NotAbove(p, q) && AtLeast(p, t)
    ensures AtLeast(q, t)
  {
    assert t * p.den * q.den <= p.num * q.den;
  }

  /**
   * The class is monotone in last year's percentage: a student who scored at
   * least as much never gets a lower class.
   */
  lemma ClassMonotone(p: Percentage, q: Percentage, pick1: ClassLabel, pick2: ClassLabel)
    requires NotAbove(p, q)
    ensures Rank(ClassFor(Some(p), pick1)) <= Rank(ClassFor(Some(q), pick2))
  {
    if AtLeast(p, 55) { AtLeastGrows(p, q, 55); }
    if AtLeast(p, 70) { AtLeastGrows(p, q, 70); }
    if AtLeast(p, 90) { AtLeastGrows(p, q, 90); }
  }

  // ------------------------------------------------------------- percentage

  lemma {:induction false} SumBounded(marks: seq<int>, subs: seq<Catalogue.GradeRow>)
    requires |marks| == |subs|
    requires forall k :: 0 <= k < |marks| ==> 0 <= marks[k] <= subs[k].maxMarks
    ensures 0 <= Sum(marks) <= MaxSum(subs)
  {
    if marks != [] {
      SumBounded(marks[..|marks| - 1], subs[..|subs| - 1]);
    }
  }

  /** Marks within 0..max_marks give a percentage within 0..100, unless every maximum is 0. */
  lemma PercentageInRange(marks: seq<int>, subs: seq<Catalogue.GradeRow>)
    requires |marks| == |subs|
    requires forall k :: 0 <= k < |marks| ==> 0 <= marks[k] <= subs[k].maxMarks
    ensures MaxSum(subs) == 0 <==> PercentageOf(marks, subs).NotANumber?
    ensures MaxSum(subs) > 0 ==> InRange(PercentageOf(marks, subs))
  {
    SumBounded(marks, subs);
  }

  /**
   * When every subject is marked out of 100, as in a built catalogue, the
   * percentage is the mean of the marks: 100 * sum(marks) out of 100 * len(subs).
   */
  lemma PercentageIsMean(marks: seq<int>, subs: seq<Catalogue.GradeRow>)
    requires |subs| >= 1 && OutOfHundred(subs)
    ensures PercentageOf(marks, subs) == Ratio(100 * Sum(marks), Catalogue.MaxMarks * |subs|)
  {
  }

  /** A percentage between 0 and 100 with a positive denominator. */
  predicate InRange(p: Percentage)
  {
    p.Ratio? && p.den > 0 && 0 <= p.num <= 100 * p.den
  }

  /**
   * In a catalogue built from at least one subject, every grade 1..8 is
   * marked out of at least 100, so its percentage is never NaN.
   */
  lemma CatalogueGradesScored(subjects: seq<string>, countDraws: seq<int>, shuffles: seq<seq<nat>>, grade: int)
    requires Catalogue.CountDrawsValid(countDraws) && Catalogue.ShufflesValid(subjects, shuffles)
    requires Catalogue.GradeTable(subjects, countDraws, shuffles).Success?
    requires |subjects| >= 1 && grade in Catalogue.Grades
    ensures MaxSum(Catalogue.RowsOfGrade(Catalogue.GradeTable(subjects, countDraws, shuffles).value, grade))
            >= Catalogue.MaxMarks
  {
    Catalogue.GradeCatalogue(subjects, countDraws, shuffles, grade);
  }

  // ----------------------------------------------------------- record slots

  lemma {:induction false} MarksOfSlotsPrefix(slots: seq<Option<int>>, marks: seq<int>)
    requires |marks| <= |slots|
    requires forall i :: 0 <= i < |marks| ==> slots[i] == Some(marks[i])
    requires |marks| < |slots| ==> slots[|marks|].None?
    ensures MarksOfSlots(slots) == marks
  {
    if marks != [] {
      MarksOfSlotsPrefix(slots[1..], marks[1..]);
      assert marks == [marks[0]] + marks[1..];
    }
  }

  /** The five subject slots give back the first five marks, in order. */
  lemma SlotsRoundTrip(marks: seq<int>)
    ensures MarksOfSlots(Slots(marks)) == marks[..Min(RecordSlots, |marks|)]
  {
    MarksOfSlotsPrefix(Slots(marks), marks[..Min(RecordSlots, |marks|)]);
  }

  // ---------------------------------------------------- termination reason

  /** The number a string of decimal digits denotes. */
  function DigitsValue(s: string): int
  {
    if s == [] then 0 else 10 * DigitsValue(s[..|s| - 1]) + (s[|s| - 1] as int - '0' as int)
  }

  lemma {:induction false} DecimalTextRoundTrip(n: nat)
    ensures DigitsValue(DecimalText(n)) == n
    ensures forall i :: 0 <= i < |DecimalText(n)| ==> '0' <= DecimalText(n)[i] <= '9'
    decreases n
  {
    if n >= 10 {
      DecimalTextRoundTrip(n / 10);
      var s := DecimalText(n);
      assert s[..|s| - 1] == DecimalText(n / 10);
    }
  }

  /** The reason reads "Failed 3× in grade " followed by the grade's digits. */
  lemma FailReasonNamesGrade(grade: int)
    requires grade >= 0
    ensures |FailReason(grade)| > |FailPrefix|
    ensures FailReason(grade)[..|FailPrefix|] == FailPrefix
    ensures DigitsValue(FailReason(grade)[|FailPrefix|..]) == grade
    ensures grade < 10 ==> FailReason(grade) == FailPrefix + [Digit(grade)]
  {
    DecimalTextRoundTrip(grade);
    assert FailReason(grade)[|FailPrefix|..] == DecimalText(grade);
  }

  // ------------------------------------------------------------ one student

  /** The record of a student's year: class from last year's percentage, five subject slots holding the drawn marks. */
  lemma RecordFacts(cfg: Config, year: int, pos: int, st: LiveStudent)
    requires DrawsValid(cfg.draws)
    ensures var rec := RecordOf(cfg, year, pos, st);
            var subs := Catalogue.RowsOfGrade(cfg.table, st.grade);
            rec.academicYear == year && rec.enrollmentId == st.enrollmentId && rec.grade == st.grade &&
            rec.classLabel == ClassFor(st.lastPct, cfg.draws.classPick(year, pos)) &&
            |rec.subjectMarks| == RecordSlots &&
            MarksOfSlots(rec.subjectMarks) == DrawMarks(cfg.draws, year, pos, subs)[..Min(RecordSlots, |subs|)] &&
            (forall i :: 0 <= i < Min(RecordSlots, |subs|) ==>
               0 <= rec.subjectMarks[i].value <= subs[i].maxMarks) &&
            (MaxSum(subs) > 0 ==> InRange(rec.finalPercentage))
  {
    var subs := Catalogue.RowsOfGrade(cfg.table, st.grade);
    var marks := DrawMarks(cfg.draws, year, pos, subs);
    forall k | 0 <= k < |marks| ensures 0 <= marks[k] <= subs[k].maxMarks {
      assert marks[k] == cfg.draws.mark(year, pos, k, subs[k].maxMarks);
    }
    SlotsRoundTrip(marks);
    PercentageInRange(marks, subs);
  }

  /**
   * With every subject of the grade marked out of 100 and at most five of them,
   * the recorded slots give back the marks, and their mean is the stored
   * final percentage.
   */
  lemma RecordPercentageRoundTrip(cfg: Config, year: int, pos: int, st: LiveStudent)
    requires var subs := Catalogue.RowsOfGrade(cfg.table, st.grade);
             1 <= |subs| <= RecordSlots && OutOfHundred(subs)
    ensures var rec := RecordOf(cfg, year, pos, st);
            var ms := MarksOfSlots(rec.subjectMarks);
            rec.finalPercentage == Ratio(100 * Sum(ms), Catalogue.MaxMarks * |ms|)
  {
    var subs := Catalogue.RowsOfGrade(cfg.table, st.grade);
    var marks := DrawMarks(cfg.draws, year, pos, subs);
    SlotsRoundTrip(marks);
    PercentageIsMean(marks, subs);
    assert marks[..Min(RecordSlots, |marks|)] == marks;
  }

  /** A pass below grade 8 promotes: next grade, no failures, the percentage kept. */
  lemma StepPromotes(cfg: Config, year: int, pos: int, st: LiveStudent)
    requires Step(cfg, year, pos, st).record.Some?
    requires st.grade != Catalogue.LastGrade
    requires AtLeast(Step(cfg, year, pos, st).record.value.finalPercentage, PassMark)
    ensures var r := Step(cfg, year, pos, st);
            r.student == st.(grade := st.grade + 1, failCount := 0, lastPct := Some(r.record.value.finalPercentage)) &&
            r.graduate.None? && r.termination.None?
  {
  }

  /**
   * A fail (below 30, or NaN) keeps the grade, counts one more failure and
   * keeps the percentage; the third failure writes one terminated record and
   * terminates the student.
   */
  lemma StepFails(cfg: Config, year: int, pos: int, st: LiveStudent)
    requires Step(cfg, year, pos, st).record.Some?
    requires !AtLeast(Step(cfg, year, pos, st).record.value.finalPercentage, PassMark)
    ensures var r := Step(cfg, year, pos, st);
            var pct := r.record.value.finalPercentage;
            r.student.grade == st.grade &&
            r.student.failCount == st.failCount + 1 &&
            r.student.lastPct == Some(pct) &&
            r.graduate.None? &&
            (r.termination.Some? <==> st.failCount + 1 >= MaxFailures) &&
            (r.student.terminated <==> st.terminated || st.failCount + 1 >= MaxFailures) &&
            (r.termination.Some? ==>
               r.termination.value == TerminatedRecord(st.enrollmentId, st.firstName, st.lastName,
                                                       st.grade, year, FailReason(st.grade)))
  {
  }

  /**
   * A pass in grade 8 graduates: one graduate record with the age in that year
   * (and, in generator.py, the following year as graduation year), and the
   * student is terminated.
   */
  lemma StepGraduates(cfg: Config, year: int, pos: int, st: LiveStudent)
    requires Step(cfg, year, pos, st).record.Some?
    requires st.grade == Catalogue.LastGrade
    requires AtLeast(Step(cfg, year, pos, st).record.value.finalPercentage, PassMark)
    ensures var r := Step(cfg, year, pos, st);
            r.student == st.(terminated := true) &&
            r.termination.None? &&
            r.graduate == Some(GraduateRecord(st.enrollmentId, st.firstName, st.lastName,
                                              r.record.value.finalPercentage, year - st.birthYear,
                                              if cfg.variant == GeneratorModule then Some(year + 1) else None))
  {
  }

  /**
   * For a student who takes part in the year, exactly one of four things
   * happens: promoted, repeating, graduated, or terminated after a third failure.
   */
  lemma StepExactlyOneOutcome(cfg: Config, year: int, pos: int, st: LiveStudent)
    requires Healthy(st)
    requires Step(cfg, year, pos, st).record.Some?
    ensures var r := Step(cfg, year, pos, st);
            var promoted := !r.student.terminated && r.student.grade == st.grade + 1 && r.student.failCount == 0;
            var repeating := !r.student.terminated && r.student.grade == st.grade && r.student.failCount == st.failCount + 1;
            var graduated := r.graduate.Some?;
            var failedOut := r.termination.Some?;
            (if promoted then 1 else 0) + (if repeating then 1 else 0) +
            (if graduated then 1 else 0) + (if failedOut then 1 else 0) == 1
  {
  }

  /**
   * A year keeps a healthy row within grades 1..8 and at most three failures;
   * it ends terminated exactly when it wrote a graduate or a terminated record,
   * and a row that is not terminated is healthy again.
   */
  lemma StepKeepsHealthy(cfg: Config, year: int, pos: int, st: LiveStudent)
    requires Healthy(st)
    ensures var r := Step(cfg, year, pos, st);
            r.student.enrollmentId == st.enrollmentId &&
            Catalogue.FirstGrade <= r.student.grade <= Catalogue.LastGrade &&
            0 <= r.student.failCount <= MaxFailures &&
            (r.student.terminated <==> r.graduate.Some? || r.termination.Some?) &&
            !(r.graduate.Some? && r.termination.Some?) &&
            (!r.student.terminated ==> Healthy(r.student)) &&
            (r.termination.Some? ==> r.student.failCount == MaxFailures)
  {
  }

  // --------------------------------------------------------------- one year

  /** The id `id` reads off each entry, in order. */
  function IdsOf<T>(xs: seq<T>, id: T -> int): (ids: seq<int>)
    ensures |ids| == |xs|
  {
    if xs == [] then [] else IdsOf(xs[..|xs| - 1], id) + [id(xs[|xs| - 1])]
  }

  function StudentEid(st: LiveStudent): int { st.enrollmentId }
  function GraduateEid(g: GraduateRecord): int { g.enrollmentId }
  function TerminatedEid(t: TerminatedRecord): int { t.enrollmentId }
  function RecordEid(rec: AcademicRecord): int { rec.enrollmentId }

  /** The enrollment ids of a table, of the graduates, of the terminated and of the academic records. */
  function Eids(studs: seq<LiveStudent>): seq<int> { IdsOf(studs, StudentEid) }
  function GraduateEids(gs: seq<GraduateRecord>): seq<int> { IdsOf(gs, GraduateEid) }
  function TerminatedEids(ts: seq<TerminatedRecord>): seq<int> { IdsOf(ts, TerminatedEid) }
  function RecordEids(rs: seq<AcademicRecord>): seq<int> { IdsOf(rs, RecordEid) }

  /** The enrollment ids of the students that take part in the year, in table order. */
  function Attending(v: Variant, year: int, studs: seq<LiveStudent>): seq<int>
  {
    if studs == [] then []
    else
      var last := studs[|studs| - 1];
      Attending(v, year, studs[..|studs| - 1]) +
      (if v.SkipsFutureEnrollment() && last.enrollmentYear > year then [] else [last.enrollmentId])
  }

  /** Appending at most one entry appends at most its id. */
  lemma IdsOfAppend<T>(s: seq<T>, o: Option<T>, id: T -> int)
    ensures IdsOf(s + OptionToSeq(o), id) == IdsOf(s, id) + (if o.Some? then [id(o.value)] else [])
  {
    if o.Some? {
      assert (s + [o.value])[..|s|] == s;
    } else {
      assert s + [] == s;
    }
  }

  predicate AllHealthy(studs: seq<LiveStudent>)
  {
    forall k :: 0 <= k < |studs| ==> Healthy(studs[k])
  }

  /** The step results of a year: each row's step reads the row as the year found it. */
  function Steps(cfg: Config, year: int, studs: seq<LiveStudent>): (rs: seq<StepResult>)
    ensures |rs| == |studs|
  {
    seq(|studs|, k requires 0 <= k < |studs| => Step(cfg, year, k, studs[k]))
  }

  /** The ledger after storing the first i of the given step results. */
  function Replay(studs: seq<LiveStudent>, rs: seq<StepResult>, i: nat): (l: Ledger)
    requires i <= |studs| == |rs|
    ensures |l.students| == |studs|
    decreases i
  {
    if i == 0 then Ledger(studs, [], [], [])
    else Advance(Replay(studs, rs, i - 1), i - 1, rs[i - 1])
  }

  /** rs[k] is row k's step for every k < i. */
  predicate MatchesUpTo(cfg: Config, year: int, studs: seq<LiveStudent>, rs: seq<StepResult>, i: nat)
    requires i <= |studs| == |rs|
    decreases i
  {
    i == 0 || (MatchesUpTo(cfg, year, studs, rs, i - 1) && rs[i - 1] == Step(cfg, year, i - 1, studs[i - 1]))
  }

  lemma StepsAt(cfg: Config, year: int, studs: seq<LiveStudent>, k: nat)
    requires k < |studs|
    ensures Steps(cfg, year, studs)[k] == Step(cfg, year, k, studs[k])
  {
  }

  lemma {:induction false} StepsMatch(cfg: Config, year: int, studs: seq<LiveStudent>, i: nat)
    requires i <= |studs|
    ensures MatchesUpTo(cfg, year, studs, Steps(cfg, year, studs), i)
    decreases i
  {
    if i > 0 {
      StepsMatch(cfg, year, studs, i - 1);
      StepsAt(cfg, year, studs, i - 1);
      MatchesOneMore(cfg, year, studs, Steps(cfg, year, studs), i);
    }
  }

  lemma MatchesOneMore(cfg: Config, year: int, studs: seq<LiveStudent>, rs: seq<StepResult>, i: nat)
    requires 0 < i <= |studs| == |rs|
    requires MatchesUpTo(cfg, year, studs, rs, i - 1) && rs[i - 1] == Step(cfg, year, i - 1, studs[i - 1])
    ensures MatchesUpTo(cfg, year, studs, rs, i)
  {
  }

  /** A year's prefix is the replay of its step results: no step sees another row's update. */
  lemma {:induction false} YearPrefixReplay(cfg: Config, year: int, studs: seq<LiveStudent>, rs: seq<StepResult>, i: nat)
    requires i <= |studs| == |rs| && MatchesUpTo(cfg, year, studs, rs, i)
    ensures YearPrefix(cfg, year, studs, i) == Replay(studs, rs, i)
    decreases i
  {
    if i > 0 {
      YearPrefixReplay(cfg, year, studs, rs, i - 1);
      YearPrefixReplayStep(cfg, year, studs, rs, i);
    }
  }

  lemma YearPrefixReplayStep(cfg: Config, year: int, studs: seq<LiveStudent>, rs: seq<StepResult>, i: nat)
    requires 0 < i <= |studs| == |rs|
    requires rs[i - 1] == Step(cfg, year, i - 1, studs[i - 1])
    requires YearPrefix(cfg, year, studs, i - 1) == Replay(studs, rs, i - 1)
    ensures YearPrefix(cfg, year, studs, i) == Replay(studs, rs, i)
  {
  }

  /** What the year-level facts need to know of one row's step. */
  predicate StepShaped(v: Variant, year: int, st: LiveStudent, r: StepResult)
  {
    (r.record.Some? <==> !(v.SkipsFutureEnrollment() && st.enrollmentYear > year)) &&
    (r.record.Some? ==>
       r.record.value.enrollmentId == st.enrollmentId &&
       r.record.value.academicYear == year && r.record.value.grade == st.grade) &&
    (r.termination.Some? ==>
       r.termination.value.academicYear == year && r.termination.value.grade == st.grade &&
       r.termination.value.reason == FailReason(st.grade)) &&
    StepKeeps(st, r)
  }

  /** A healthy row keeps its id and leaves, through exactly one record, exactly when it is terminated. */
  predicate StepKeeps(st: LiveStudent, r: StepResult)
  {
    (r.graduate.Some? ==> r.graduate.value.enrollmentId == st.enrollmentId) &&
    (r.termination.Some? ==> r.termination.value.enrollmentId == st.enrollmentId) &&
    (Healthy(st) ==>
       r.student.enrollmentId == st.enrollmentId &&
       (r.student.terminated <==> r.graduate.Some? || r.termination.Some?) &&
       !(r.graduate.Some? && r.termination.Some?) &&
       (!r.student.terminated ==> Healthy(r.student)))
  }

  /** The first i rows are healthy and keep to StepKeeps. */
  predicate KeepsUpTo(studs: seq<LiveStudent>, rs: seq<StepResult>, i: nat)
    requires i <= |studs| == |rs|
    decreases i
  {
    i == 0 || (KeepsUpTo(studs, rs, i - 1) && Healthy(studs[i - 1]) && StepKeeps(studs[i - 1], rs[i - 1]))
  }

  lemma {:induction false} KeepsUpToAll(v: Variant, year: int, studs: seq<LiveStudent>, rs: seq<StepResult>, i: nat)
    requires i <= |studs| == |rs| && AllHealthy(studs)
    requires forall k :: 0 <= k < |studs| ==> StepShaped(v, year, studs[k], rs[k])
    ensures KeepsUpTo(studs, rs, i)
    decreases i
  {
    if i > 0 {
      KeepsUpToAll(v, year, studs, rs, i - 1);
    }
  }

  lemma StepIsShaped(cfg: Config, year: int, pos: int, st: LiveStudent)
    ensures StepShaped(cfg.variant, year, st, Step(cfg, year, pos, st))
  {
    if Healthy(st) {
      StepKeepsHealthy(cfg, year, pos, st);
    }
  }

  lemma YearReplay(cfg: Config, year: int, studs: seq<LiveStudent>)
    ensures Year(cfg, year, studs) == Replay(studs, Steps(cfg, year, studs), |studs|)
  {
    StepsMatch(cfg, year, studs, |studs|);
    YearPrefixReplay(cfg, year, studs, Steps(cfg, year, studs), |studs|);
  }

  lemma StepsShaped(cfg: Config, year: int, studs: seq<LiveStudent>)
    ensures forall k :: 0 <= k < |studs| ==> StepShaped(cfg.variant, year, studs[k], Steps(cfg, year, studs)[k])
  {
    forall k | 0 <= k < |studs| ensures StepShaped(cfg.variant, year, studs[k], Steps(cfg, year, studs)[k]) {
      StepIsShaped(cfg, year, k, studs[k]);
    }
  }

  /** The first i rows are healthy and their step results well shaped. */
  predicate ShapedUpTo(v: Variant, year: int, studs: seq<LiveStudent>, rs: seq<StepResult>, i: nat)
    requires i <= |studs| == |rs|
    decreases i
  {
    i == 0 ||
    (ShapedUpTo(v, year, studs, rs, i - 1) && Healthy(studs[i - 1]) && StepShaped(v, year, studs[i - 1], rs[i - 1]))
  }

  lemma {:induction false} ShapedUpToAll(v: Variant, year: int, studs: seq<LiveStudent>, rs: seq<StepResult>, i: nat)
    requires i <= |studs| == |rs| && AllHealthy(studs)
    requires forall k :: 0 <= k < |studs| ==> StepShaped(v, year, studs[k], rs[k])
    ensures ShapedUpTo(v, year, studs, rs, i)
    decreases i
  {
    if i > 0 {
      ShapedUpToAll(v, year, studs, rs, i - 1);
    }
  }

  /** After i rows, each of them holds its step's new row and the rest are untouched. */
  lemma {:induction false} ReplayRows(studs: seq<LiveStudent>, rs: seq<StepResult>, i: nat)
    requires i <= |studs| == |rs|
    ensures var l := Replay(studs, rs, i);
            (forall k :: 0 <= k < i ==> l.students[k] == rs[k].student) &&
            (forall k :: i <= k < |studs| ==> l.students[k] == studs[k])
    decreases i
  {
    if i > 0 {
      ReplayRows(studs, rs, i - 1);
    }
  }

  /** Every record a replay writes is dated that year, in its row's grade; a terminated record names its grade. */
  lemma {:induction false} ReplayRecords(v: Variant, year: int, studs: seq<LiveStudent>, rs: seq<StepResult>, i: nat)
    requires i <= |studs| == |rs| && ShapedUpTo(v, year, studs, rs, i)
    ensures var l := Replay(studs, rs, i);
            (forall rec :: rec in l.academic ==>
               rec.academicYear == year && Catalogue.FirstGrade <= rec.grade <= Catalogue.LastGrade) &&
            (forall t :: t in l.terminated ==>
               t.academicYear == year && Catalogue.FirstGrade <= t.grade <= Catalogue.LastGrade &&
               t.reason == FailReason(t.grade))
    decreases i
  {
    if i > 0 {
      ReplayRecords(v, year, studs, rs, i - 1);
    }
  }

  lemma TakeUpdated(s: seq<LiveStudent>, i: nat, x: LiveStudent)
    requires 0 < i <= |s|
    ensures s[i - 1 := x][..i] == s[..i - 1] + [x]
  {
  }

  lemma TakeOneMore(s: seq<LiveStudent>, i: nat)
    requires 0 < i <= |s|
    ensures s[..i] == s[..i - 1] + [s[i - 1]]
  {
  }

  /** The live rows, graduates and terminated together are, as enrollment ids, the rows seen. */
  predicate Balanced(live: seq<LiveStudent>, grads: seq<GraduateRecord>, terms: seq<TerminatedRecord>,
                     seen: seq<LiveStudent>)
  {
    multiset(Eids(Survivors(live))) + multiset(GraduateEids(grads)) + multiset(TerminatedEids(terms))
    == multiset(Eids(seen))
  }

  /** Storing one step keeps live rows, graduates and terminated in balance with the rows seen. */
  lemma ConservesOneMore(live: seq<LiveStudent>, grads: seq<GraduateRecord>, terms: seq<TerminatedRecord>,
                         seen: seq<LiveStudent>, st: LiveStudent, r: StepResult,
                         live1: seq<LiveStudent>, grads1: seq<GraduateRecord>, terms1: seq<TerminatedRecord>,
                         seen1: seq<LiveStudent>)
    requires Balanced(live, grads, terms, seen)
    requires Healthy(st) && StepKeeps(st, r)
    requires live1 == live + [r.student] && seen1 == seen + [st]
    requires grads1 == grads + OptionToSeq(r.graduate) && terms1 == terms + OptionToSeq(r.termination)
    ensures Balanced(live1, grads1, terms1, seen1)
  {
    var e := st.enrollmentId;
    var live' := Survivors(live + [r.student]);
    var grads' := grads + OptionToSeq(r.graduate);
    var terms' := terms + OptionToSeq(r.termination);
    IdsOfAppend(seen, Some(st), StudentEid);
    assert multiset(Eids(seen + [st])) == multiset(Eids(seen)) + multiset{e};
    SurvivorsAppend(live, r.student);
    IdsOfAppend(grads, r.graduate, GraduateEid);
    IdsOfAppend(terms, r.termination, TerminatedEid);
    Rebalance(multiset(Eids(Survivors(live))), multiset(GraduateEids(grads)), multiset(TerminatedEids(terms)),
              multiset(Eids(seen)), multiset{e});
    if r.student.terminated {
      if r.graduate.Some? {
        assert multiset(Eids(live')) == multiset(Eids(Survivors(live)));
        assert multiset(GraduateEids(grads')) == multiset(GraduateEids(grads)) + multiset{e};
        assert multiset(TerminatedEids(terms')) == multiset(TerminatedEids(terms));
      } else {
        assert multiset(Eids(live')) == multiset(Eids(Survivors(live)));
        assert multiset(GraduateEids(grads')) == multiset(GraduateEids(grads));
        assert multiset(TerminatedEids(terms')) == multiset(TerminatedEids(terms)) + multiset{e};
      }
    } else {
      assert multiset(Eids(live')) == multiset(Eids(Survivors(live))) + multiset{e};
      assert multiset(GraduateEids(grads')) == multiset(GraduateEids(grads));
      assert multiset(TerminatedEids(terms')) == multiset(TerminatedEids(terms));
    }
  }

  lemma EmptyBalance()
    ensures Balanced([], [], [], [])
  {
    assert Eids([]) == [] && GraduateEids([]) == [] && TerminatedEids([]) == [] && Survivors([]) == [];
  }

  lemma Rebalance(a: multiset<int>, b: multiset<int>, c: multiset<int>, d: multiset<int>, x: multiset<int>)
    requires a + b + c == d
    ensures (a + x) + b + c == d + x
    ensures a + (b + x) + c == d + x
    ensures a + b + (c + x) == d + x
  {
  }

  /** Dropping terminated rows commutes with appending a row. */
  lemma SurvivorsAppend(live: seq<LiveStudent>, x: LiveStudent)
    ensures Eids(Survivors(live + [x])) == Eids(Survivors(live)) + (if x.terminated then [] else [x.enrollmentId])
  {
    assert (live + [x])[..|live|] == live;
    var before := Survivors(live);
    if x.terminated {
      assert Survivors(live + [x]) == before + [];
      assert before + [] == before;
    } else {
      assert Survivors(live + [x]) == before + [x];
      IdsOfAppend(before, Some(x), StudentEid);
    }
  }

  /** After i rows of a replay, the processed rows balance against the records written. */
  predicate ConservedAt(studs: seq<LiveStudent>, rs: seq<StepResult>, i: nat)
    requires i <= |studs| == |rs|
  {
    var l := Replay(studs, rs, i);
    Balanced(l.students[..i], l.graduates, l.terminated, studs[..i])
  }

  lemma {:induction false} ReplayConserves(studs: seq<LiveStudent>, rs: seq<StepResult>, i: nat)
    requires i <= |studs| == |rs| && KeepsUpTo(studs, rs, i)
    ensures ConservedAt(studs, rs, i)
    decreases i
  {
    if i == 0 {
      ReplayEmpty(studs, rs);
    } else {
      ReplayConserves(studs, rs, i - 1);
      ConservesStep(studs, rs, i);
    }
  }

  lemma ConservesStep(studs: seq<LiveStudent>, rs: seq<StepResult>, i: nat)
    requires 0 < i <= |studs| == |rs| && KeepsUpTo(studs, rs, i)
    requires ConservedAt(studs, rs, i - 1)
    ensures ConservedAt(studs, rs, i)
  {
    KeepsUpToLast(studs, rs, i);
    ReplayOneMore(studs, rs, i);
    TakeOneMore(studs, i);
    var l0 := Replay(studs, rs, i - 1);
    var l := Replay(studs, rs, i);
    ConservesOneMore(l0.students[..i - 1], l0.graduates, l0.terminated, studs[..i - 1], studs[i - 1], rs[i - 1],
                     l.students[..i], l.graduates, l.terminated, studs[..i]);
  }

  lemma ReplayEmpty(studs: seq<LiveStudent>, rs: seq<StepResult>)
    requires |studs| == |rs|
    ensures ConservedAt(studs, rs, 0)
  {
    var l := Replay(studs, rs, 0);
    assert l.students[..0] == [] && studs[..0] == [];
    assert l.graduates == [] && l.terminated == [];
    EmptyBalance();
  }

  lemma KeepsUpToLast(studs: seq<LiveStudent>, rs: seq<StepResult>, i: nat)
    requires 0 < i <= |studs| == |rs| && KeepsUpTo(studs, rs, i)
    ensures KeepsUpTo(studs, rs, i - 1) && Healthy(studs[i - 1]) && StepKeeps(studs[i - 1], rs[i - 1])
  {
  }

  /** Replaying row i - 1 stores its new row and appends its records. */
  lemma ReplayOneMore(studs: seq<LiveStudent>, rs: seq<StepResult>, i: nat)
    requires 0 < i <= |studs| == |rs|
    ensures Replay(studs, rs, i).students[..i] == Replay(studs, rs, i - 1).students[..i - 1] + [rs[i - 1].student]
    ensures Replay(studs, rs, i).graduates == Replay(studs, rs, i - 1).graduates + OptionToSeq(rs[i - 1].graduate)
    ensures Replay(studs, rs, i).terminated == Replay(studs, rs, i - 1).terminated + OptionToSeq(rs[i - 1].termination)
  {
    var l0 := Replay(studs, rs, i - 1);
    TakeUpdated(l0.students, i, rs[i - 1].student);
  }

  /** A replay writes one academic record per attending row, in table order. */
  lemma {:induction false} ReplayAttending(v: Variant, year: int, studs: seq<LiveStudent>, rs: seq<StepResult>, i: nat)
    requires i <= |studs| == |rs| && ShapedUpTo(v, year, studs, rs, i)
    ensures RecordEids(Replay(studs, rs, i).academic) == Attending(v, year, studs[..i])
    decreases i
  {
    if i == 0 {
      assert studs[..0] == [];
    } else {
      ReplayAttending(v, year, studs, rs, i - 1);
      AcademicOneMore(studs, rs, i);
      TakeOneMore(studs, i);
      AttendingOneMore(v, year, studs[..i - 1], studs[i - 1], rs[i - 1],
                       Replay(studs, rs, i - 1).academic, Replay(studs, rs, i).academic);
    }
  }

  lemma AcademicOneMore(studs: seq<LiveStudent>, rs: seq<StepResult>, i: nat)
    requires 0 < i <= |studs| == |rs|
    ensures Replay(studs, rs, i).academic == Replay(studs, rs, i - 1).academic + OptionToSeq(rs[i - 1].record)
  {
  }

  /** One more row keeps the academic records in step with the attending rows seen so far. */
  lemma AttendingOneMore(v: Variant, year: int, seen: seq<LiveStudent>, st: LiveStudent, r: StepResult,
                         academic: seq<AcademicRecord>, academic1: seq<AcademicRecord>)
    requires StepShaped(v, year, st, r)
    requires RecordEids(academic) == Attending(v, year, seen)
    requires academic1 == academic + OptionToSeq(r.record)
    ensures RecordEids(academic1) == Attending(v, year, seen + [st])
  {
    IdsOfAppend(academic, r.record, RecordEid);
    assert (seen + [st])[..|seen|] == seen;
  }

  /** The rows a year leaves behind are healthy once the terminated ones are dropped. */
  lemma YearSurvivorsHealthy(cfg: Config, year: int, studs: seq<LiveStudent>)
    requires AllHealthy(studs)
    ensures AllHealthy(Survivors(Year(cfg, year, studs).students))
  {
    var rs := Steps(cfg, year, studs);
    YearReplay(cfg, year, studs);
    ReplayRows(studs, rs, |studs|);
    StepsShaped(cfg, year, studs);
    var l := Year(cfg, year, studs);
    forall k | 0 <= k < |studs| ensures !l.students[k].terminated ==> Healthy(l.students[k]) {
      assert StepShaped(cfg.variant, year, studs[k], rs[k]) && Healthy(studs[k]);
    }
    SurvivorsLive(l.students);
  }

  /** studs[~studs.terminated] keeps a row exactly when it is in the table and not terminated. */
  lemma {:induction false} SurvivorsExactly(studs: seq<LiveStudent>)
    ensures forall x :: x in Survivors(studs) <==> x in studs && !x.terminated
  {
    if studs != [] {
      var init := studs[..|studs| - 1];
      SurvivorsExactly(init);
      assert studs == init + [studs[|studs| - 1]];
    }
  }

  /** Survivors keeps exactly the rows that are not terminated, so a healthy one stays healthy. */
  lemma {:induction false} SurvivorsLive(studs: seq<LiveStudent>)
    requires forall k :: 0 <= k < |studs| ==> !studs[k].terminated ==> Healthy(studs[k])
    ensures AllHealthy(Survivors(studs))
  {
    if studs != [] {
      var init := studs[..|studs| - 1];
      SurvivorsLive(init);
    }
  }

  /** Every record of a year is dated that year and lies in grades 1..8; a terminated record names its grade. */
  lemma YearRecords(cfg: Config, year: int, studs: seq<LiveStudent>)
    requires AllHealthy(studs)
    ensures var l := Year(cfg, year, studs);
            (forall rec :: rec in l.academic ==>
               rec.academicYear == year && Catalogue.FirstGrade <= rec.grade <= Catalogue.LastGrade) &&
            (forall t :: t in l.terminated ==>
               t.academicYear == year && Catalogue.FirstGrade <= t.grade <= Catalogue.LastGrade &&
               t.reason == FailReason(t.grade))
  {
    YearReplay(cfg, year, studs);
    StepsShaped(cfg, year, studs);
    ShapedUpToAll(cfg.variant, year, studs, Steps(cfg, year, studs), |studs|);
    ReplayRecords(cfg.variant, year, studs, Steps(cfg, year, studs), |studs|);
  }

  /**
   * One year loses and duplicates nobody: survivors, graduates and terminated
   * together are, as enrollment ids, the students the year started with.
   */
  lemma YearConserves(cfg: Config, year: int, studs: seq<LiveStudent>)
    requires AllHealthy(studs)
    ensures var l := Year(cfg, year, studs);
            multiset(Eids(Survivors(l.students))) + multiset(GraduateEids(l.graduates)) +
              multiset(TerminatedEids(l.terminated)) == multiset(Eids(studs))
  {
    var rs := Steps(cfg, year, studs);
    YearReplay(cfg, year, studs);
    StepsShaped(cfg, year, studs);
    KeepsUpToAll(cfg.variant, year, studs, rs, |studs|);
    ReplayConserves(studs, rs, |studs|);
    var l := Replay(studs, rs, |studs|);
    BalancedWhole(l.students, l.graduates, l.terminated, studs);
  }

  lemma BalancedWhole(live: seq<LiveStudent>, grads: seq<GraduateRecord>, terms: seq<TerminatedRecord>,
                      seen: seq<LiveStudent>)
    requires Balanced(live[..|live|], grads, terms, seen[..|seen|])
    ensures Balanced(live, grads, terms, seen)
  {
    assert live[..|live|] == live;
    assert seen[..|seen|] == seen;
  }

  /** A year writes its academic records in table order, one per attending student. */
  lemma YearAttending(cfg: Config, year: int, studs: seq<LiveStudent>)
    requires AllHealthy(studs)
    ensures RecordEids(Year(cfg, year, studs).academic) == Attending(cfg.variant, year, studs)
  {
    var rs := Steps(cfg, year, studs);
    YearReplay(cfg, year, studs);
    StepsShaped(cfg, year, studs);
    ShapedUpToAll(cfg.variant, year, studs, rs, |studs|);
    ReplayAttending(cfg.variant, year, studs, rs, |studs|);
    assert studs[..|studs|] == studs;
  }

  /** The app skips nobody: every row of the table attends. */
  lemma {:induction false} AppAttendsEveryStudent(year: int, studs: seq<LiveStudent>)
    ensures Attending(StandaloneApp, year, studs) == Eids(studs)
  {
    if studs != [] {
      AppAttendsEveryStudent(year, studs[..|studs| - 1]);
    }
  }

  /**
   * In school_records_app.py a year writes exactly one academic record per
   * student in the table, in table order, whatever their enrollment year.
   */
  lemma AppRecordsEveryStudent(cfg: Config, year: int, studs: seq<LiveStudent>)
    requires cfg.variant == StandaloneApp && AllHealthy(studs)
    ensures RecordEids(Year(cfg, year, studs).academic) == Eids(studs)
  {
    YearAttending(cfg, year, studs);
    AppAttendsEveryStudent(year, studs);
  }

  // ---------------------------------------------------------------- the run

  /**
   * A run from healthy students leaves a healthy table, dates every record
   * within the simulated years and grades 1..8, and names the grade in every
   * termination reason.
   */
  lemma {:induction false} RunStaysInBounds(cfg: Config, studs: seq<LiveStudent>, year: int, endYear: int)
    requires AllHealthy(studs)
    ensures var r := RunFrom(cfg, studs, year, endYear);
            AllHealthy(r.students) &&
            (forall rec :: rec in r.academic ==>
               year <= rec.academicYear <= endYear && Catalogue.FirstGrade <= rec.grade <= Catalogue.LastGrade) &&
            (forall t :: t in r.terminated ==>
               year <= t.academicYear <= endYear && Catalogue.FirstGrade <= t.grade <= Catalogue.LastGrade &&
               t.reason == FailReason(t.grade))
    decreases endYear - year
  {
    if year <= endYear {
      YearSurvivorsHealthy(cfg, year, studs);
      YearRecords(cfg, year, studs);
      var y := Year(cfg, year, studs);
      RunStaysInBounds(cfg, Survivors(y.students), year + 1, endYear);
    }
  }

  /**
   * Nobody is lost or duplicated by a run: the students it started with are,
   * as a multiset of enrollment ids, those still in the table plus the
   * graduates plus the terminated.
   */
  lemma {:induction false} RunConservesStudents(cfg: Config, studs: seq<LiveStudent>, year: int, endYear: int)
    requires AllHealthy(studs)
    ensures var r := RunFrom(cfg, studs, year, endYear);
            multiset(Eids(r.students)) + multiset(GraduateEids(r.graduates)) +
              multiset(TerminatedEids(r.terminated)) == multiset(Eids(studs))
    decreases endYear - year
  {
    if year <= endYear {
      YearConserves(cfg, year, studs);
      YearSurvivorsHealthy(cfg, year, studs);
      var y := Year(cfg, year, studs);
      RunConservesStudents(cfg, Survivors(y.students), year + 1, endYear);
      var rest := RunFrom(cfg, Survivors(y.students), year + 1, endYear);
      IdsOfConcat(y.graduates, rest.graduates, GraduateEid);
      IdsOfConcat(y.terminated, rest.terminated, TerminatedEid);
    } else {
      assert GraduateEids([]) == [] && TerminatedEids([]) == [];
    }
  }

  lemma {:induction false} IdsOfConcat<T>(a: seq<T>, b: seq<T>, id: T -> int)
    ensures IdsOf(a + b, id) == IdsOf(a, id) + IdsOf(b, id)
    decreases |b|
  {
    if b == [] {
      assert a + b == a;
    } else {
      IdsOfConcat(a, b[..|b| - 1], id);
      assert (a + b)[..|a + b| - 1] == a + b[..|b| - 1];
    }
  }

  lemma {:induction false} DistinctMultiplicity(s: seq<int>, x: int)
    requires forall i, j :: 0 <= i < j < |s| ==> s[i] != s[j]
    ensures multiset(s)[x] <= 1
  {
    if s != [] {
      var init := s[..|s| - 1];
      DistinctMultiplicity(init, x);
      assert s == init + [s[|s| - 1]];
      if s[|s| - 1] == x {
        assert x !in init;
      }
    }
  }

  /**
   * When the students' enrollment ids are distinct, each student ends a run in
   * exactly one place: still in the table, graduated once or terminated once.
   * Nobody both graduates and is terminated, nobody leaves twice, nobody who
   * left is still in the table, and no id the run did not start with appears.
   */
  lemma LeaversLeaveOnce(cfg: Config, studs: seq<LiveStudent>, year: int, endYear: int, eid: int)
    requires AllHealthy(studs)
    requires forall i, j :: 0 <= i < j < |studs| ==> studs[i].enrollmentId != studs[j].enrollmentId
    ensures var r := RunFrom(cfg, studs, year, endYear);
            multiset(Eids(r.students))[eid] + multiset(GraduateEids(r.graduates))[eid] +
              multiset(TerminatedEids(r.terminated))[eid] == if eid in Eids(studs) then 1 else 0
  {
    RunConservesStudents(cfg, studs, year, endYear);
    forall i, j | 0 <= i < j < |studs| ensures Eids(studs)[i] != Eids(studs)[j] {
      EidsAt(studs, i);
      EidsAt(studs, j);
    }
    DistinctMultiplicity(Eids(studs), eid);
  }

  lemma {:induction false} EidsAt(studs: seq<LiveStudent>, k: nat)
    requires k < |studs|
    ensures Eids(studs)[k] == studs[k].enrollmentId
    decreases |studs|
  {
    if k < |studs| - 1 {
      EidsAt(studs[..|studs| - 1], k);
    }
  }

  /** The students taking part in a year are among the table's. */
  lemma {:induction false} AttendingWithin(v: Variant, year: int, studs: seq<LiveStudent>)
    ensures forall e :: e in Attending(v, year, studs) ==> e in Eids(studs)
  {
    if studs != [] {
      AttendingWithin(v, year, studs[..|studs| - 1]);
    }
  }

  /** Every academic record of a run belongs to a student the run started with. */
  lemma {:induction false} RunRecordsWithin(cfg: Config, studs: seq<LiveStudent>, year: int, endYear: int)
    requires AllHealthy(studs)
    ensures forall e :: e in RecordEids(RunFrom(cfg, studs, year, endYear).academic) ==> e in Eids(studs)
    decreases endYear - year
  {
    if year <= endYear {
      var y := Year(cfg, year, studs);
      var live := Survivors(y.students);
      YearAttending(cfg, year, studs);
      AttendingWithin(cfg.variant, year, studs);
      YearConserves(cfg, year, studs);
      YearSurvivorsHealthy(cfg, year, studs);
      RunRecordsWithin(cfg, live, year + 1, endYear);
      var rest := RunFrom(cfg, live, year + 1, endYear);
      IdsOfConcat(y.academic, rest.academic, RecordEid);
      forall e | e in Eids(live) ensures e in Eids(studs) {
        assert e in multiset(Eids(live));
        assert e in multiset(Eids(studs));
      }
    } else {
      assert RecordEids([]) == [];
    }
  }

  /**
   * With distinct enrollment ids, a student who graduates or is terminated in
   * a year is dropped with the terminated rows and gets no academic record in
   * any later year of the run.
   */
  lemma LeaverNoLaterRecord(cfg: Config, studs: seq<LiveStudent>, year: int, endYear: int, eid: int)
    requires AllHealthy(studs)
    requires forall i, j :: 0 <= i < j < |studs| ==> studs[i].enrollmentId != studs[j].enrollmentId
    requires var y := Year(cfg, year, studs);
             eid in GraduateEids(y.graduates) || eid in TerminatedEids(y.terminated)
    ensures var y := Year(cfg, year, studs);
            eid !in RecordEids(RunFrom(cfg, Survivors(y.students), year + 1, endYear).academic)
  {
    var y := Year(cfg, year, studs);
    var live := Survivors(y.students);
    YearConserves(cfg, year, studs);
    YearSurvivorsHealthy(cfg, year, studs);
    forall i, j | 0 <= i < j < |studs| ensures Eids(studs)[i] != Eids(studs)[j] {
      EidsAt(studs, i);
      EidsAt(studs, j);
    }
    DistinctMultiplicity(Eids(studs), eid);
    assert multiset(GraduateEids(y.graduates))[eid] + multiset(TerminatedEids(y.terminated))[eid] >= 1;
    assert eid !in multiset(Eids(live));
    RunRecordsWithin(cfg, live, year + 1, endYear);
  }
}
