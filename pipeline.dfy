/**
 * The hand-over from the identity tables to the progression engine: the
 * enrollment rows merged with the student details on student_id, with the
 * three working columns added (last_pct None, fail_count 0, terminated False).
 */
module Pipeline {
  import opened Wrappers
  import Identity
  import opened Progression
  import opened ProgressionFacts

  /** One merged row: the enrollment's columns with the matching identity's. */
  function Admit(e: Identity.Enrollment, d: Identity.StudentDetails): LiveStudent
  {
    LiveStudent(e.enrollmentId, e.enrollmentYear, e.startingGrade,
                d.firstName, d.lastName, d.birthYear, None, 0, false)
  }

  /**
   * The merged table. Enrollment row k was made from identity row k and
   * copies its student_id, so with distinct student ids the merge pairs them
   * by position.
   */
  function AdmitAll(enrollments: seq<Identity.Enrollment>, details: seq<Identity.StudentDetails>)
    : (studs: seq<LiveStudent>)
    requires |enrollments| == |details|
    ensures |studs| == |enrollments|
  {
    seq(|enrollments|, k requires 0 <= k < |enrollments| => Admit(enrollments[k], details[k]))
  }

  /**
   * Every merged row is one the engine can start from: grade 1..8, no
   * failures, not terminated, no previous percentage; and distinct enrollment
   * ids stay distinct.
   */
  lemma AdmittedHealthy(enrollments: seq<Identity.Enrollment>, details: seq<Identity.StudentDetails>,
                        schoolStart: int, current: int)
    requires |enrollments| == |details|
    requires forall k :: 0 <= k < |enrollments| ==>
               Identity.PlacementConsistent(details[k].birthYear, schoolStart, current,
                                            Identity.Placement(enrollments[k].status, enrollments[k].enrollmentYear,
                                                               enrollments[k].startingGrade))
    ensures var studs := AdmitAll(enrollments, details);
            AllHealthy(studs) &&
            (forall k :: 0 <= k < |studs| ==>
               studs[k].lastPct.None? && studs[k].enrollmentId == enrollments[k].enrollmentId &&
               studs[k].grade == enrollments[k].startingGrade &&
               studs[k].enrollmentYear == enrollments[k].enrollmentYear &&
               studs[k].birthYear == details[k].birthYear)
    ensures (forall i, j :: 0 <= i < j < |enrollments| ==> enrollments[i].enrollmentId != enrollments[j].enrollmentId) ==>
            var studs := AdmitAll(enrollments, details);
            forall i, j :: 0 <= i < j < |studs| ==> studs[i].enrollmentId != studs[j].enrollmentId
  {
    var studs := AdmitAll(enrollments, details);
    forall k | 0 <= k < |studs| ensures Healthy(studs[k]) {
      assert studs[k] == Admit(enrollments[k], details[k]);
    }
  }
}
