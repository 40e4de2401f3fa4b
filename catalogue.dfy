/**
 * The subject catalogue: how many subjects each grade takes
 * (generate_subject_counts) and which subjects those are
 * (generate_grade_table). The random draws of the source are parameters:
 * the subject count of each grade from 4 to 8, and for each grade a shuffle
 * of the elective pool whose first k entries are what random.sample(pool, k)
 * returns.
 */
module Catalogue {
  import opened Wrappers

  const FirstGrade := 1
  const LastGrade := 8
  const MandatoryCount := 3
  /** Grades from this one on may take electives. */
  const FirstElectiveGrade := 4
  /** The grades the school has, 1..8. */
  const Grades: set<int> := set g | FirstGrade <= g <= LastGrade
  const MinMarks := 0
  const MaxMarks := 100

  /** One row of the grades table. */
  datatype GradeRow = GradeRow(grade: int, subject: string, minMarks: nat, maxMarks: nat)

  /** random.sample raises when asked for more electives than the pool holds. */
  datatype CatalogueError = SampleLargerThanPopulation(grade: int, wanted: int, available: int)

  /** One randint(3, 5) draw for each of the grades 4..8, in that order. */
  predicate CountDrawsValid(draws: seq<int>)
  {
    |draws| == LastGrade - FirstElectiveGrade + 1 &&
    forall k :: 0 <= k < |draws| ==> MandatoryCount <= draws[k] <= MandatoryCount + 2
  }

  /** generate_subject_counts: grade -> number of subjects. */
  function SubjectCounts(draws: seq<int>): (counts: map<int, int>)
    requires CountDrawsValid(draws)
    ensures counts.Keys == Grades
    ensures forall g :: g in counts ==>
              MandatoryCount <= counts[g] <= MandatoryCount + 2 &&
              (g < FirstElectiveGrade ==> counts[g] == MandatoryCount)
  {
    map g | g in Grades ::
      if g < FirstElectiveGrade then MandatoryCount else draws[g - FirstElectiveGrade]
  }

  /** subjects[:3] */
  function Mandatory(subjects: seq<string>): (m: seq<string>)
    ensures |m| == Min(MandatoryCount, |subjects|)
  {
    subjects[..Min(MandatoryCount, |subjects|)]
  }

  /** subjects[3:], the elective pool. */
  function Pool(subjects: seq<string>): (p: seq<string>)
    ensures Mandatory(subjects) + p == subjects
  {
    subjects[Min(MandatoryCount, |subjects|)..]
  }

  /** A shuffle of the positions 0..n-1: each position exactly once. */
  predicate IsShuffle(shuffle: seq<nat>, n: nat)
  {
    |shuffle| == n &&
    (forall i :: 0 <= i < n ==> shuffle[i] < n) &&
    (forall i, j :: 0 <= i < j < n ==> shuffle[i] != shuffle[j])
  }

  /** random.sample(pool, k): the first k entries of a shuffled pool. */
  function Sample(pool: seq<string>, shuffle: seq<nat>, k: nat): (s: seq<string>)
    requires IsShuffle(shuffle, |pool|) && k <= |pool|
    ensures |s| == k
  {
    seq(k, i requires 0 <= i < k => pool[shuffle[i]])
  }

  /** The catalogue rows of one grade for the given subject names. */
  function RowsFor(grade: int, names: seq<string>): (rows: seq<GradeRow>)
    ensures |rows| == |names|
  {
    seq(|names|, i requires 0 <= i < |names| => GradeRow(grade, names[i], MinMarks, MaxMarks))
  }

  /** The rows one iteration of generate_grade_table appends for a grade with `total` subjects. */
  function GradeRows(subjects: seq<string>, grade: int, total: int, shuffle: seq<nat>)
    : Result<seq<GradeRow>, CatalogueError>
    requires IsShuffle(shuffle, |Pool(subjects)|)
  {
    var wanted := total - MandatoryCount;
    if wanted < 0 || wanted > |Pool(subjects)| then
      Failure(SampleLargerThanPopulation(grade, wanted, |Pool(subjects)|))
    else
      Success(RowsFor(grade, Mandatory(subjects) + Sample(Pool(subjects), shuffle, wanted)))
  }

  /** One shuffle of the elective pool per grade 1..8 (index grade - 1). */
  predicate ShufflesValid(subjects: seq<string>, shuffles: seq<seq<nat>>)
  {
    |shuffles| == LastGrade &&
    forall i :: 0 <= i < |shuffles| ==> IsShuffle(shuffles[i], |Pool(subjects)|)
  }

  /** The table after the loop has handled grades 1..g; the first failing grade aborts. */
  function TableUpTo(subjects: seq<string>, countDraws: seq<int>, shuffles: seq<seq<nat>>, g: nat)
    : Result<seq<GradeRow>, CatalogueError>
    requires CountDrawsValid(countDraws) && ShufflesValid(subjects, shuffles) && g <= LastGrade
  {
    if g == 0 then Success([])
    else
      match TableUpTo(subjects, countDraws, shuffles, g - 1)
      case Failure(e) => Failure(e)
      case Success(rows) =>
        match GradeRows(subjects, g, SubjectCounts(countDraws)[g], shuffles[g - 1])
        case Failure(e) => Failure(e)
        case Success(more) => Success(rows + more)
  }

  /** What generate_grade_table computes. */
  function GradeTable(subjects: seq<string>, countDraws: seq<int>, shuffles: seq<seq<nat>>)
    : Result<seq<GradeRow>, CatalogueError>
    requires CountDrawsValid(countDraws) && ShufflesValid(subjects, shuffles)
  {
    TableUpTo(subjects, countDraws, shuffles, LastGrade)
  }

  /** grade_df[grade_df.grade == grade], in table order. */
  function RowsOfGrade(table: seq<GradeRow>, grade: int): (rows: seq<GradeRow>)
    ensures |rows| <= |table|
    ensures forall r :: r in rows ==> r in table && r.grade == grade
  {
    if table == [] then []
    else (if table[0].grade == grade then [table[0]] else []) + RowsOfGrade(table[1..], grade)
  }

  /** The subject names of some rows, in order. */
  function Names(rows: seq<GradeRow>): (names: seq<string>)
    ensures |names| == |rows|
  {
    seq(|rows|, i requires 0 <= i < |rows| => rows[i].subject)
  }

  /** generate_grade_table: a loop over the grades that appends one row per subject. */
  method GenerateGradeTable(subjects: seq<string>, countDraws: seq<int>, shuffles: seq<seq<nat>>)
    returns (r: Result<seq<GradeRow>, CatalogueError>)
    requires CountDrawsValid(countDraws) && ShufflesValid(subjects, shuffles)
    ensures r == GradeTable(subjects, countDraws, shuffles)
  {
    var counts := SubjectCounts(countDraws);
    var rows: seq<GradeRow> := [];
    for grade := FirstGrade to LastGrade + 1
      invariant TableUpTo(subjects, countDraws, shuffles, grade - 1) == Success(rows)
    {
      var total := counts[grade];
      var mandatory := Mandatory(subjects);
      var pool := Pool(subjects);
      var wanted := total - MandatoryCount;
      TableUpToNext(subjects, countDraws, shuffles, grade);
      if wanted < 0 || wanted > |pool| {
        r := Failure(SampleLargerThanPopulation(grade, wanted, |pool|));
        FailurePersists(subjects, countDraws, shuffles, grade, LastGrade);
        return;
      }
      var names := mandatory + Sample(pool, shuffles[grade - 1], wanted);
      rows := AppendRows(rows, grade, names);
    }
    r := Success(rows);
  }

  /** The inner loop of generate_grade_table: one row per subject name, in order. */
  method AppendRows(rows0: seq<GradeRow>, grade: int, names: seq<string>) returns (rows: seq<GradeRow>)
    ensures rows == rows0 + RowsFor(grade, names)
  {
    rows := rows0;
    for i := 0 to |names|
      invariant rows == rows0 + RowsFor(grade, names[..i])
    {
      rows := rows + [GradeRow(grade, names[i], MinMarks, MaxMarks)];
    }
    assert names[..|names|] == names;
  }

  /** One more iteration of the grade loop, after the earlier grades succeeded. */
  lemma TableUpToNext(subjects: seq<string>, countDraws: seq<int>, shuffles: seq<seq<nat>>, g: nat)
    requires CountDrawsValid(countDraws) && ShufflesValid(subjects, shuffles) && 1 <= g <= LastGrade
    requires TableUpTo(subjects, countDraws, shuffles, g - 1).Success?
    ensures var more := GradeRows(subjects, g, SubjectCounts(countDraws)[g], shuffles[g - 1]);
            TableUpTo(subjects, countDraws, shuffles, g) ==
              if more.Failure? then Failure(more.error)
              else Success(TableUpTo(subjects, countDraws, shuffles, g - 1).value + more.value)
  {
  }

  /** Once a grade fails, the whole table fails with that grade's error. */
  lemma {:induction false} FailurePersists(subjects: seq<string>, countDraws: seq<int>, shuffles: seq<seq<nat>>, g: nat, h: nat)
    requires CountDrawsValid(countDraws) && ShufflesValid(subjects, shuffles)
    requires g <= h <= LastGrade
    requires TableUpTo(subjects, countDraws, shuffles, g).Failure?
    ensures TableUpTo(subjects, countDraws, shuffles, h) == TableUpTo(subjects, countDraws, shuffles, g)
    decreases h - g
  {
    if g < h {
      FailurePersists(subjects, countDraws, shuffles, g, h - 1);
    }
  }

  /** The table is built unless some grade wants more electives than the pool holds. */
  lemma {:induction false} TableUpToSucceedsIff(subjects: seq<string>, countDraws: seq<int>, shuffles: seq<seq<nat>>, g: nat)
    requires CountDrawsValid(countDraws) && ShufflesValid(subjects, shuffles) && g <= LastGrade
    ensures TableUpTo(subjects, countDraws, shuffles, g).Success? <==>
            forall k :: 0 <= k < g - MandatoryCount ==> countDraws[k] - MandatoryCount <= |Pool(subjects)|
  {
    if g > 0 {
      TableUpToSucceedsIff(subjects, countDraws, shuffles, g - 1);
      var total := SubjectCounts(countDraws)[g];
      if g >= FirstElectiveGrade {
        assert total == countDraws[g - FirstElectiveGrade];
      } else {
        assert total == MandatoryCount;
      }
    }
  }

  /**
   * generate_grade_table succeeds exactly when every grade's elective count fits the pool;
   * with at least five subjects it always does.
   */
  lemma GradeTableSucceedsIff(subjects: seq<string>, countDraws: seq<int>, shuffles: seq<seq<nat>>)
    requires CountDrawsValid(countDraws) && ShufflesValid(subjects, shuffles)
    ensures GradeTable(subjects, countDraws, shuffles).Success? <==>
            forall k :: 0 <= k < |countDraws| ==> countDraws[k] - MandatoryCount <= |Pool(subjects)|
    ensures |subjects| >= MandatoryCount + 2 ==> GradeTable(subjects, countDraws, shuffles).Success?
  {
    TableUpToSucceedsIff(subjects, countDraws, shuffles, LastGrade);
  }

  lemma {:induction false} RowsOfGradeAppend(a: seq<GradeRow>, b: seq<GradeRow>, grade: int)
    ensures RowsOfGrade(a + b, grade) == RowsOfGrade(a, grade) + RowsOfGrade(b, grade)
  {
    if a == [] {
      assert a + b == b;
    } else {
      assert (a + b)[0] == a[0];
      assert (a + b)[1..] == a[1..] + b;
      RowsOfGradeAppend(a[1..], b, grade);
    }
  }

  lemma {:induction false} RowsOfGradeUniform(rows: seq<GradeRow>, h: int, grade: int)
    requires forall i :: 0 <= i < |rows| ==> rows[i].grade == h
    ensures RowsOfGrade(rows, grade) == if grade == h then rows else []
  {
    if rows != [] {
      RowsOfGradeUniform(rows[1..], h, grade);
      assert rows == [rows[0]] + rows[1..];
    }
  }

  /** After grades 1..g, the rows of each grade are exactly what that grade's iteration appended. */
  lemma {:induction false} TableUpToRows(subjects: seq<string>, countDraws: seq<int>, shuffles: seq<seq<nat>>, g: nat, grade: int)
    requires CountDrawsValid(countDraws) && ShufflesValid(subjects, shuffles) && g <= LastGrade
    requires TableUpTo(subjects, countDraws, shuffles, g).Success?
    ensures 1 <= grade <= g ==>
              GradeRows(subjects, grade, SubjectCounts(countDraws)[grade], shuffles[grade - 1]).Success? &&
              RowsOfGrade(TableUpTo(subjects, countDraws, shuffles, g).value, grade) ==
              GradeRows(subjects, grade, SubjectCounts(countDraws)[grade], shuffles[grade - 1]).value
    ensures !(1 <= grade <= g) ==> RowsOfGrade(TableUpTo(subjects, countDraws, shuffles, g).value, grade) == []
  {
    if g > 0 {
      TableUpToRows(subjects, countDraws, shuffles, g - 1, grade);
      var rows := TableUpTo(subjects, countDraws, shuffles, g - 1).value;
      var more := GradeRows(subjects, g, SubjectCounts(countDraws)[g], shuffles[g - 1]).value;
      RowsOfGradeAppend(rows, more, grade);
      RowsOfGradeUniform(more, g, grade);
    }
  }

  /**
   * The rows one grade gets: subjects[:3] first, then total - 3 electives taken
   * from the given distinct positions of subjects[3:], every row marked out of 0..100.
   */
  predicate Catalogued(subjects: seq<string>, grade: int, total: int, shuffle: seq<nat>, rows: seq<GradeRow>)
  {
    var m := |Mandatory(subjects)|;
    IsShuffle(shuffle, |Pool(subjects)|) &&
    |rows| == m + total - MandatoryCount &&
    m <= |rows| <= m + |Pool(subjects)| &&
    Names(rows)[..m] == Mandatory(subjects) &&
    (forall i :: m <= i < |rows| ==> rows[i].subject == Pool(subjects)[shuffle[i - m]]) &&
    (forall i :: 0 <= i < |rows| ==>
       rows[i].grade == grade && rows[i].minMarks == MinMarks && rows[i].maxMarks == MaxMarks)
  }

  /** The rows appended for one grade have the catalogue's shape. */
  lemma GradeRowsShape(subjects: seq<string>, grade: int, total: int, shuffle: seq<nat>)
    requires IsShuffle(shuffle, |Pool(subjects)|)
    requires GradeRows(subjects, grade, total, shuffle).Success?
    ensures Catalogued(subjects, grade, total, shuffle, GradeRows(subjects, grade, total, shuffle).value)
  {
    var rows := GradeRows(subjects, grade, total, shuffle).value;
    var m := |Mandatory(subjects)|;
    assert Names(rows)[..m] == Mandatory(subjects);
  }

  /**
   * The catalogue of one grade: the mandatory subjects subjects[:3] first, then
   * total - 3 electives taken from distinct positions of subjects[3:], every row
   * marked out of 0..100; grades outside 1..8 have no rows.
   */
  lemma GradeCatalogue(subjects: seq<string>, countDraws: seq<int>, shuffles: seq<seq<nat>>, grade: int)
    requires CountDrawsValid(countDraws) && ShufflesValid(subjects, shuffles)
    requires GradeTable(subjects, countDraws, shuffles).Success?
    ensures grade !in Grades ==> RowsOfGrade(GradeTable(subjects, countDraws, shuffles).value, grade) == []
    ensures grade in Grades ==>
              Catalogued(subjects, grade, SubjectCounts(countDraws)[grade], shuffles[grade - 1],
                         RowsOfGrade(GradeTable(subjects, countDraws, shuffles).value, grade))
  {
    TableUpToRows(subjects, countDraws, shuffles, LastGrade, grade);
    if grade in Grades {
      GradeRowsShape(subjects, grade, SubjectCounts(countDraws)[grade], shuffles[grade - 1]);
    }
  }

  /** With at least three subjects, grades 1-3 take exactly three and grades 4-8 three to five. */
  lemma GradeSubjectCount(subjects: seq<string>, countDraws: seq<int>, shuffles: seq<seq<nat>>, grade: int)
    requires CountDrawsValid(countDraws) && ShufflesValid(subjects, shuffles)
    requires GradeTable(subjects, countDraws, shuffles).Success?
    requires |subjects| >= MandatoryCount && grade in Grades
    ensures var n := |RowsOfGrade(GradeTable(subjects, countDraws, shuffles).value, grade)|;
            (grade < FirstElectiveGrade ==> n == MandatoryCount) &&
            MandatoryCount <= n <= MandatoryCount + 2
  {
    GradeCatalogue(subjects, countDraws, shuffles, grade);
  }

  /** Rows of the catalogue's shape name no subject twice when the subject names are distinct. */
  lemma CataloguedDistinct(subjects: seq<string>, grade: int, total: int, shuffle: seq<nat>, rows: seq<GradeRow>)
    requires Catalogued(subjects, grade, total, shuffle, rows)
    requires forall i, j :: 0 <= i < j < |subjects| ==> subjects[i] != subjects[j]
    ensures var names := Names(rows);
            forall i, j :: 0 <= i < j < |names| ==> names[i] != names[j]
  {
    var names := Names(rows);
    var m := |Mandatory(subjects)|;
    forall i, j | 0 <= i < j < |names| ensures names[i] != names[j] {
      if j < m {
        assert names[i] == Names(rows)[..m][i] == subjects[i];
        assert names[j] == Names(rows)[..m][j] == subjects[j];
      } else if i < m {
        assert names[i] == Names(rows)[..m][i] == subjects[i];
        assert names[j] == subjects[m + shuffle[j - m]];
      } else {
        assert names[i] == subjects[m + shuffle[i - m]];
        assert names[j] == subjects[m + shuffle[j - m]];
      }
    }
  }

  /** When the subject names are distinct, no grade lists a subject twice. */
  lemma GradeSubjectsDistinct(subjects: seq<string>, countDraws: seq<int>, shuffles: seq<seq<nat>>, grade: int)
    requires CountDrawsValid(countDraws) && ShufflesValid(subjects, shuffles)
    requires GradeTable(subjects, countDraws, shuffles).Success?
    requires forall i, j :: 0 <= i < j < |subjects| ==> subjects[i] != subjects[j]
    ensures var names := Names(RowsOfGrade(GradeTable(subjects, countDraws, shuffles).value, grade));
            forall i, j :: 0 <= i < j < |names| ==> names[i] != names[j]
  {
    GradeCatalogue(subjects, countDraws, shuffles, grade);
    if grade in Grades {
      CataloguedDistinct(subjects, grade, SubjectCounts(countDraws)[grade], shuffles[grade - 1],
                         RowsOfGrade(GradeTable(subjects, countDraws, shuffles).value, grade));
    }
  }
}
