/**
  The student's class page: the map from assignment id to the student's
  submission, the status and grade colour of each assignment, and its
  deadline flags.
 */
module StudentClassDetail {
  import opened Wrappers
  import opened JsValues

  /**
    A submission's `assignmentId` field: missing or `null`, a plain id, or a
    populated assignment document whose `_id` may itself be missing.
   */
  datatype AssignmentRef = NoRef | IdString(id: string) | Populated(populatedId: Option<string>)

  datatype Submission = Submission(assignmentId: AssignmentRef, grade: JsGrade)

  /**
    `sub.assignmentId?._id || sub.assignmentId` as an object key; a falsy
    value gives no key, and a document without `_id` turns into the key
    "[object Object]".
   */
  function KeyOf(sub: Submission): Option<string> {
    match sub.assignmentId
    case NoRef => None
    case IdString(id) => if id == "" then None else Some(id)
    case Populated(populatedId) =>
      if populatedId.Some? && populatedId.value != "" then Some(populatedId.value)
      else Some("[object Object]")
  }

  /** The map after `forEach` has visited every submission. */
  function SubmissionsMapOf(subs: seq<Submission>): map<string, Submission>
    decreases |subs|
  {
    if subs == [] then map[]
    else
      var before := SubmissionsMapOf(subs[..|subs| - 1]);
      var sub := subs[|subs| - 1];
      match KeyOf(sub)
      case None => before
      case Some(key) => before[key := sub]
  }

  /** Lines 84-92: one write per submission with a key. */
  method BuildSubmissionsMap(subs: seq<Submission>) returns (submissionsMap: map<string, Submission>)
    ensures submissionsMap == SubmissionsMapOf(subs)
  {
    submissionsMap := map[];
    var i := 0;
    while i < |subs|
      invariant 0 <= i <= |subs|
      invariant submissionsMap == SubmissionsMapOf(subs[..i])
    {
      var sub := subs[i];
      assert subs[..i + 1][..i] == subs[..i];
      var assignmentId := KeyOf(sub);
      if assignmentId.Some? {
        submissionsMap := submissionsMap[assignmentId.value := sub];
      }
      i := i + 1;
    }
    assert subs[..i] == subs;
  }

  /** A key is in the map exactly when some submission has it. */
  lemma {:induction false} SubmissionsMapKeys(subs: seq<Submission>, key: string)
    ensures key in SubmissionsMapOf(subs) <==> exists i :: 0 <= i < |subs| && KeyOf(subs[i]) == Some(key)
    decreases |subs|
  {
    if subs != [] {
      var init := subs[..|subs| - 1];
      SubmissionsMapKeys(init, key);
      if exists i :: 0 <= i < |subs| && KeyOf(subs[i]) == Some(key) {
        var i :| 0 <= i < |subs| && KeyOf(subs[i]) == Some(key);
        if i < |init| {
          assert init[i] == subs[i];
        }
      }
      if exists i :: 0 <= i < |init| && KeyOf(init[i]) == Some(key) {
        var i :| 0 <= i < |init| && KeyOf(init[i]) == Some(key);
        assert subs[i] == init[i];
      }
    }
  }

  /** The value under a key is the last submission with that key. */
  lemma {:induction false} SubmissionsMapLastWins(subs: seq<Submission>, key: string)
    requires key in SubmissionsMapOf(subs)
    ensures exists i :: (0 <= i < |subs| && KeyOf(subs[i]) == Some(key)
      && SubmissionsMapOf(subs)[key] == subs[i]
      && forall j :: i < j < |subs| ==> KeyOf(subs[j]) != Some(key))
    decreases |subs|
  {
    var n := |subs|;
    var init := subs[..n - 1];
    if KeyOf(subs[n - 1]) == Some(key) {
      assert SubmissionsMapOf(subs)[key] == subs[n - 1];
    } else {
      SubmissionsMapLastWins(init, key);
      var i :| 0 <= i < |init| && KeyOf(init[i]) == Some(key)
        && SubmissionsMapOf(init)[key] == init[i]
        && forall j :: i < j < |init| ==> KeyOf(init[j]) != Some(key);
      assert subs[i] == init[i];
      forall j | i < j < n ensures KeyOf(subs[j]) != Some(key) {
        if j < n - 1 {
          assert subs[j] == init[j];
        }
      }
    }
  }

  datatype Status = NotSubmitted | Graded | Submitted

  /** `isNaN(grade)`: `undefined` and `NaN` are not numbers, `null` converts to 0. */
  predicate IsNaN(grade: JsGrade) {
    grade == Undefined || grade == NotANumber
  }

  function GetSubmissionStatus(submissions: map<string, Submission>, assignmentId: string): Status {
    if assignmentId !in submissions then NotSubmitted
    else
      var grade := submissions[assignmentId].grade;
      if grade != Undefined && grade != Null && !IsNaN(grade) then Graded
      else Submitted
  }

  /** Not submitted without a submission; graded exactly when its grade is a number; submitted otherwise. */
  lemma SubmissionStatusIff(submissions: map<string, Submission>, assignmentId: string)
    ensures GetSubmissionStatus(submissions, assignmentId) == NotSubmitted <==> assignmentId !in submissions
    ensures GetSubmissionStatus(submissions, assignmentId) == Graded <==>
      assignmentId in submissions && submissions[assignmentId].grade.Num?
    ensures GetSubmissionStatus(submissions, assignmentId) == Submitted <==>
      assignmentId in submissions && !submissions[assignmentId].grade.Num?
  {
  }

  function GetGradeColor(grade: JsGrade): string {
    if grade == Undefined || grade == Null || IsNaN(grade) then "text-gray-50"
    else if grade.value >= 8.0 then "text-green-600"
    else if grade.value >= 6.5 then "text-yellow-600"
    else "text-red-600"
  }

  /** Gray without a numeric grade, then green, yellow and red by the 8 and 6.5 thresholds. */
  lemma GradeColorBands(grade: JsGrade)
    ensures GetGradeColor(grade) == "text-gray-50" <==> !grade.Num?
    ensures GetGradeColor(grade) == "text-green-600" <==> grade.Num? && grade.value >= 8.0
    ensures GetGradeColor(grade) == "text-yellow-600" <==> grade.Num? && 6.5 <= grade.value < 8.0
    ensures GetGradeColor(grade) == "text-red-600" <==> grade.Num? && grade.value < 6.5
  {
  }

  /** A day in milliseconds. */
  const Day: int := 24 * 60 * 60 * 1000

  /** The deadline, in milliseconds, is before `now`. */
  predicate IsOverdue(deadline: Option<int>, now: int) {
    deadline.Some? && deadline.value < now
  }

  /** The deadline lies in the next 24 hours. */
  predicate IsDueSoon(deadline: Option<int>, now: int) {
    deadline.Some? && deadline.value > now && deadline.value < now + Day
  }

  /** An assignment is never both overdue and due soon, and neither without a deadline. */
  lemma DeadlineFlagsExclusive(deadline: Option<int>, now: int)
    ensures !(IsOverdue(deadline, now) && IsDueSoon(deadline, now))
    ensures deadline == None ==> !IsOverdue(deadline, now) && !IsDueSoon(deadline, now)
    ensures deadline == Some(now) ==> !IsOverdue(deadline, now) && !IsDueSoon(deadline, now)
  {
  }
}
