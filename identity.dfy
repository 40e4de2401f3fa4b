/**
 * Student identities (generate_student_details) and enrollment records
 * (generate_student_enrollment). Faker/mimesis names and dates are
 * parameters (names as strings, a birthdate as its year), the current year
 * is a parameter, and every random choice is a parameter whose range is a
 * precondition.
 */
module Identity {
  import opened Wrappers
  import Catalogue

  /** The id multiplier as the source computes it: 1000 if n >= 1000, else 100. */
  function SourceMultiplier(n: int): (m: int)
    ensures m == 100 || m == 1000
    ensures n < 100 ==> m == 100
  {
    if n >= 1000 then 1000 else 100
  }

  /**
   * The multiplier the model uses: the least power of ten that is at least 100
   * and exceeds n, so that a sequence number 1..n never reaches into the next
   * year's block. It agrees with SourceMultiplier only for n < 100: for
   * 100 <= n < 1000 it is 1000 where the source uses 100, and from n = 1000 on
   * it is 10000 or more where the source uses 1000.
   */
  function IdMultiplier(n: nat): (m: nat)
    ensures m > n && m >= 100
    ensures n < 100 ==> m == 100
    ensures 100 <= n < 1000 ==> m == 1000
    ensures n >= 1000 ==> m >= 10000
    decreases n
  {
    if n < 100 then 100 else 10 * IdMultiplier(n / 10)
  }

  /** year * mult + seq, the shape of both student_id and enrollment_id. */
  function MakeId(year: int, seqNo: int, n: nat): int
  {
    year * IdMultiplier(n) + seqNo
  }

  lemma MulAtLeast(d: int, m: int)
    requires d >= 1 && m > 0
    ensures d * m >= m
  {
    assert d * m == (d - 1) * m + m;
  }

  lemma DivModUnique(q: int, r: int, m: int)
    requires m > 0 && 0 <= r < m
    ensures (q * m + r) / m == q && (q * m + r) % m == r
  {
    var x := q * m + r;
    var q', r' := x / m, x % m;
    assert q' * m + r' == x;
    if q' > q {
      MulAtLeast(q' - q, m);
    } else if q' < q {
      MulAtLeast(q - q', m);
    }
  }

  /** An id splits back into its year and its sequence number. */
  lemma IdRoundTrip(year: int, seqNo: int, n: nat)
    requires 1 <= seqNo <= n
    ensures MakeId(year, seqNo, n) / IdMultiplier(n) == year
    ensures MakeId(year, seqNo, n) % IdMultiplier(n) == seqNo
  {
    DivModUnique(year, seqNo, IdMultiplier(n));
  }

  /** Two ids with different sequence numbers in 1..n never collide, whatever their years. */
  lemma IdsDistinct(year1: int, seq1: int, year2: int, seq2: int, n: nat)
    requires 1 <= seq1 <= n && 1 <= seq2 <= n && seq1 != seq2
    ensures MakeId(year1, seq1, n) != MakeId(year2, seq2, n)
  {
    IdRoundTrip(year1, seq1, n);
    IdRoundTrip(year2, seq2, n);
  }

  /** With the source's multiplier, 101 students are enough for two to share an id. */
  lemma SourceIdsCollide()
    ensures BirthYearsValid([2011, 2010], 2015, 2025)
    ensures var m := SourceMultiplier(101);
            2011 * m + 1 == 2010 * m + 101
  {
  }

  // ---------------------------------------------------------------- details

  datatype StudentDetails = StudentDetails(studentId: int, firstName: string, lastName: string, birthYear: int)

  /** Each birth year is a draw from school_start - 10 .. current - 2. */
  predicate BirthYearsValid(birthYears: seq<int>, schoolStart: int, current: int)
  {
    forall k :: 0 <= k < |birthYears| ==> schoolStart - 10 <= birthYears[k] <= current - 2
  }

  /** generate_student_details: n identities, ids birth_year * mult + seq with seq = 1, 2, ... */
  method GenerateStudentDetails(n: nat, schoolStart: int, current: int,
                                birthYears: seq<int>, firstNames: seq<string>, lastNames: seq<string>)
    returns (rows: seq<StudentDetails>)
    requires |birthYears| == n && |firstNames| == n && |lastNames| == n
    requires BirthYearsValid(birthYears, schoolStart, current)
    ensures |rows| == n
    ensures forall k :: 0 <= k < n ==>
              rows[k] == StudentDetails(MakeId(birthYears[k], k + 1, n), firstNames[k], lastNames[k], birthYears[k])
    ensures forall k :: 0 <= k < n ==> schoolStart - 10 <= rows[k].birthYear <= current - 2
    ensures forall k :: 0 <= k < n ==>
              rows[k].studentId / IdMultiplier(n) == rows[k].birthYear &&
              rows[k].studentId % IdMultiplier(n) == k + 1
    ensures forall j, k :: 0 <= j < k < n ==> rows[j].studentId != rows[k].studentId
  {
    var mult := IdMultiplier(n);
    rows := [];
    var seqNo := 1;
    while seqNo <= n
      invariant 1 <= seqNo <= n + 1
      invariant |rows| == seqNo - 1
      invariant forall k :: 0 <= k < |rows| ==>
                  rows[k] == StudentDetails(MakeId(birthYears[k], k + 1, n), firstNames[k], lastNames[k], birthYears[k])
    {
      var year := birthYears[seqNo - 1];
      var sid := year * mult + seqNo;
      rows := rows + [StudentDetails(sid, firstNames[seqNo - 1], lastNames[seqNo - 1], year)];
      seqNo := seqNo + 1;
    }
    DetailsIds(rows, n);
  }

  /** Rows numbered 1..n by MakeId split back into their birth years and never share an id. */
  lemma DetailsIds(rows: seq<StudentDetails>, n: nat)
    requires |rows| <= n
    requires forall k :: 0 <= k < |rows| ==> rows[k].studentId == MakeId(rows[k].birthYear, k + 1, n)
    ensures forall k :: 0 <= k < |rows| ==>
              rows[k].studentId / IdMultiplier(n) == rows[k].birthYear &&
              rows[k].studentId % IdMultiplier(n) == k + 1
    ensures forall j, k :: 0 <= j < k < |rows| ==> rows[j].studentId != rows[k].studentId
  {
    forall k | 0 <= k < |rows|
      ensures rows[k].studentId / IdMultiplier(n) == rows[k].birthYear && rows[k].studentId % IdMultiplier(n) == k + 1
    {
      IdRoundTrip(rows[k].birthYear, k + 1, n);
    }
    forall j, k | 0 <= j < k < |rows| ensures rows[j].studentId != rows[k].studentId {
      IdsDistinct(rows[j].birthYear, j + 1, rows[k].birthYear, k + 1, n);
    }
  }

  // ------------------------------------------------------------- enrollment

  datatype Status = New | TransferIn

  datatype Enrollment = Enrollment(studentId: int, enrollmentId: int, status: Status,
                                   enrollmentYear: int, startingGrade: int)

  /** Status, enrollment year and starting grade of one student. */
  datatype Placement = Placement(status: Status, enrollmentYear: int, startingGrade: int)

  /** A "new" student starts at age 2, or when the school opens if that is later. */
  function NewEntryYear(birthYear: int, schoolStart: int): int { Max(birthYear + 2, schoolStart) }

  /** First and last year a transfer-in can arrive: from age 3 (and the school's opening) to age 10 (and now). */
  function EarliestTransfer(birthYear: int, schoolStart: int): int { Max(schoolStart, birthYear + 3) }

  function LatestTransfer(birthYear: int, current: int): int { Min(current, birthYear + 10) }

  predicate WindowOpen(birthYear: int, schoolStart: int, current: int)
  {
    EarliestTransfer(birthYear, schoolStart) <= LatestTransfer(birthYear, current)
  }

  /** The grade for an age at enrollment: age - 2, kept within 1..8. */
  function GradeForAge(age: int): (g: int)
    ensures Catalogue.FirstGrade <= g <= Catalogue.LastGrade
    ensures Catalogue.FirstGrade <= age - 2 <= Catalogue.LastGrade ==> g == age - 2
    ensures age - 2 < Catalogue.FirstGrade ==> g == Catalogue.FirstGrade
    ensures age - 2 > Catalogue.LastGrade ==> g == Catalogue.LastGrade
  {
    Max(Catalogue.FirstGrade, Min(age - 2, Catalogue.LastGrade))
  }

  /** Born before school_start - 2 forces transfer-in; otherwise the random choice decides. */
  function ChosenStatus(birthYear: int, schoolStart: int, pick: Status): Status
  {
    if birthYear < schoolStart - 2 then TransferIn else pick
  }

  /** The enrollment-year draw randint(e_min, e_max) is in the window whenever the window is open. */
  predicate EntryDrawValid(birthYear: int, schoolStart: int, current: int, entryDraw: int)
  {
    WindowOpen(birthYear, schoolStart, current) ==>
      EarliestTransfer(birthYear, schoolStart) <= entryDraw <= LatestTransfer(birthYear, current)
  }

  /**
   * The placement as the source computes it: when the transfer window is
   * empty, the fallback sets status "new" and grade 1, and the line after it
   * then recomputes the grade from the age.
   */
  function PlacementAsWritten(birthYear: int, schoolStart: int, current: int, pick: Status, entryDraw: int)
    : (p: Placement)
    ensures Catalogue.FirstGrade <= p.startingGrade <= Catalogue.LastGrade
    ensures var q := Place(birthYear, schoolStart, current, pick, entryDraw);
            p.status == q.status && p.enrollmentYear == q.enrollmentYear &&
            (p.startingGrade != q.startingGrade ==>
               ChosenStatus(birthYear, schoolStart, pick) == TransferIn && !WindowOpen(birthYear, schoolStart, current))
  {
    if ChosenStatus(birthYear, schoolStart, pick) == New then
      Placement(New, NewEntryYear(birthYear, schoolStart), 1)
    else if WindowOpen(birthYear, schoolStart, current) then
      Placement(TransferIn, entryDraw, GradeForAge(entryDraw - birthYear))
    else
      var ey := NewEntryYear(birthYear, schoolStart);
      Placement(New, ey, GradeForAge(ey - birthYear))
  }

  /** The placement the model uses: the fallback to "new" keeps grade 1. */
  function Place(birthYear: int, schoolStart: int, current: int, pick: Status, entryDraw: int): Placement
  {
    if ChosenStatus(birthYear, schoolStart, pick) == New then
      Placement(New, NewEntryYear(birthYear, schoolStart), 1)
    else if WindowOpen(birthYear, schoolStart, current) then
      Placement(TransferIn, entryDraw, GradeForAge(entryDraw - birthYear))
    else
      Placement(New, NewEntryYear(birthYear, schoolStart), 1)
  }

  /**
   * What a placement should satisfy: the starting grade is 1..8; a "new"
   * student enrolls in grade 1 in the year they turn 2 (or at the opening);
   * a transfer-in arrives inside the window in the grade for their age.
   */
  predicate PlacementConsistent(birthYear: int, schoolStart: int, current: int, p: Placement)
  {
    Catalogue.FirstGrade <= p.startingGrade <= Catalogue.LastGrade &&
    p.enrollmentYear >= schoolStart &&
    (p.status == New ==>
       p.startingGrade == 1 && p.enrollmentYear == NewEntryYear(birthYear, schoolStart)) &&
    (p.status == TransferIn ==>
       WindowOpen(birthYear, schoolStart, current) &&
       EarliestTransfer(birthYear, schoolStart) <= p.enrollmentYear <= LatestTransfer(birthYear, current) &&
       p.startingGrade == GradeForAge(p.enrollmentYear - birthYear))
  }

  /**
   * Every placement is consistent; a student becomes a transfer-in exactly when
   * transfer was chosen (or forced by the birth year) and the window is open.
   */
  lemma PlaceRules(birthYear: int, schoolStart: int, current: int, pick: Status, entryDraw: int)
    requires EntryDrawValid(birthYear, schoolStart, current, entryDraw)
    ensures PlacementConsistent(birthYear, schoolStart, current, Place(birthYear, schoolStart, current, pick, entryDraw))
    ensures Place(birthYear, schoolStart, current, pick, entryDraw).status == TransferIn <==>
            (birthYear < schoolStart - 2 || pick == TransferIn) && WindowOpen(birthYear, schoolStart, current)
  {
  }

  /** As written, a student can end up "new" and yet start in grade 8. */
  lemma AsWrittenNewStudentInGradeEight()
    ensures BirthYearsValid([2020], 2030, 2025)
    ensures PlacementAsWritten(2020, 2030, 2025, New, 0) == Placement(New, 2030, 8)
    ensures !PlacementConsistent(2020, 2030, 2025, PlacementAsWritten(2020, 2030, 2025, New, 0))
  {
  }

  predicate EntryDrawsValid(details: seq<StudentDetails>, schoolStart: int, current: int, entryDraws: seq<int>)
    requires |entryDraws| == |details|
  {
    forall k :: 0 <= k < |details| ==>
      EntryDrawValid(details[k].birthYear, schoolStart, current, entryDraws[k])
  }

  /**
   * generate_student_enrollment: one enrollment per identity, in order, with
   * enrollment_id = enrollment_year * mult + seq.
   */
  method GenerateStudentEnrollment(details: seq<StudentDetails>, schoolStart: int, current: int, n: nat,
                                   picks: seq<Status>, entryDraws: seq<int>)
    returns (rows: seq<Enrollment>)
    requires |picks| == |details| && |entryDraws| == |details|
    requires EntryDrawsValid(details, schoolStart, current, entryDraws)
    ensures |rows| == |details|
    ensures forall k :: 0 <= k < |rows| ==>
              var p := Place(details[k].birthYear, schoolStart, current, picks[k], entryDraws[k]);
              rows[k] == Enrollment(details[k].studentId, MakeId(p.enrollmentYear, k + 1, n),
                                    p.status, p.enrollmentYear, p.startingGrade)
    ensures forall k :: 0 <= k < |rows| ==>
              PlacementConsistent(details[k].birthYear, schoolStart, current,
                                  Placement(rows[k].status, rows[k].enrollmentYear, rows[k].startingGrade))
    ensures |details| <= n ==>
              forall j, k :: 0 <= j < k < |rows| ==> rows[j].enrollmentId != rows[k].enrollmentId
  {
    var mult := IdMultiplier(n);
    rows := [];
    var seqNo := 1;
    while seqNo <= |details|
      invariant 1 <= seqNo <= |details| + 1
      invariant |rows| == seqNo - 1
      invariant forall k :: 0 <= k < |rows| ==>
                  var p := Place(details[k].birthYear, schoolStart, current, picks[k], entryDraws[k]);
                  rows[k] == Enrollment(details[k].studentId, MakeId(p.enrollmentYear, k + 1, n),
                                        p.status, p.enrollmentYear, p.startingGrade)
    {
      var st := details[seqNo - 1];
      var born := st.birthYear;
      var status := if born < schoolStart - 2 then TransferIn else picks[seqNo - 1];
      var ey, grade;
      if status == New {
        ey := Max(born + 2, schoolStart);
        grade := 1;
      } else {
        var eMin := Max(schoolStart, born + 3);
        var eMax := Min(current, born + 10);
        if eMin <= eMax {
          ey := entryDraws[seqNo - 1];
          grade := Max(1, Min(ey - born - 2, 8));
        } else {
          status := New;
          ey := Max(born + 2, schoolStart);
          grade := 1;
        }
      }
      var eid := ey * mult + seqNo;
      rows := rows + [Enrollment(st.studentId, eid, status, ey, grade)];
      seqNo := seqNo + 1;
    }
    forall k | 0 <= k < |rows|
      ensures PlacementConsistent(details[k].birthYear, schoolStart, current,
                                  Placement(rows[k].status, rows[k].enrollmentYear, rows[k].startingGrade))
    {
      PlaceRules(details[k].birthYear, schoolStart, current, picks[k], entryDraws[k]);
    }
    if |details| <= n {
      forall j, k | 0 <= j < k < |rows| ensures rows[j].enrollmentId != rows[k].enrollmentId {
        IdsDistinct(rows[j].enrollmentYear, j + 1, rows[k].enrollmentYear, k + 1, n);
      }
    }
  }
}
