/**
  The teacher's grading page: per-submission drafts of the grade and
  feedback inputs, the "grading" flags, and the grade colour.
 */
module Submissions {

  /** A draft: field name ("grade", "feedback") to the text typed in. */
  type Draft = map<string, string>

  /** `prev[subId]` spread into a new object: a missing draft spreads as `{}`. */
  function DraftOf(grades: map<string, Draft>, subId: string): Draft {
    if subId in grades then grades[subId] else map[]
  }

  function GradeChanged(grades: map<string, Draft>, subId: string, field: string, value: string): map<string, Draft> {
    grades[subId := DraftOf(grades, subId)[field := value]]
  }

  /** The change writes one field of one draft and nothing else. */
  lemma GradeChangeFrame(grades: map<string, Draft>, subId: string, field: string, value: string)
    ensures var after := GradeChanged(grades, subId, field, value);
      && subId in after && field in after[subId] && after[subId][field] == value
      && (forall f :: f in DraftOf(grades, subId) && f != field ==> f in after[subId] && after[subId][f] == grades[subId][f])
      && (forall f :: f in after[subId] ==> f == field || f in DraftOf(grades, subId))
      && (forall id :: id != subId ==> (id in after <==> id in grades))
      && (forall id :: id in grades && id != subId ==> after[id] == grades[id])
  {
  }

  /** Repeating the same change changes nothing more. */
  lemma GradeChangeIdempotent(grades: map<string, Draft>, subId: string, field: string, value: string)
    ensures var once := GradeChanged(grades, subId, field, value);
      GradeChanged(once, subId, field, value) == once
  {
    var once := GradeChanged(grades, subId, field, value);
    assert DraftOf(once, subId)[field := value] == DraftOf(once, subId);
  }

  /** `const { grade } = grades[subId] || {}` followed by `if (!grade)`: no grade or an empty one. */
  predicate GradeMissing(grades: map<string, Draft>, subId: string) {
    var draft := DraftOf(grades, subId);
    "grade" !in draft || draft["grade"] == ""
  }

  /** How a submit ended. */
  datatype SubmitOutcome = Aborted | Graded | Failed

  /** The two requests of a submit: the grade post and the refresh of the list. */
  datatype Requests = Requests(postOk: bool, refreshOk: bool)

  class GradeDrafts {
    var grades: map<string, Draft>
    var grading: map<string, bool>

    constructor ()
      ensures grades == map[] && grading == map[]
    {
      grades := map[];
      grading := map[];
    }

    /** Lines 37-42. */
    method HandleGradeChange(subId: string, field: string, value: string)
      modifies this
      ensures grades == GradeChanged(old(grades), subId, field, value)
      ensures grading == old(grading)
    {
      var draft := DraftOf(grades, subId);
      grades := grades[subId := draft[field := value]];
    }

    /** Line 49: the flag goes up before the request. */
    method StartGrading(subId: string)
      modifies this
      ensures grading == old(grading)[subId := true] && grades == old(grades)
    {
      grading := grading[subId := true];
    }

    /** Lines 58-66: the draft is cleared after a complete success, and the flag goes down in every case. */
    method FinishGrading(subId: string, requests: Requests) returns (outcome: SubmitOutcome)
      modifies this
      ensures outcome == (if requests.postOk && requests.refreshOk then Graded else Failed)
      ensures outcome == Graded ==> grades == old(grades) - {subId}
      ensures outcome == Failed ==> grades == old(grades)
      ensures grading == old(grading)[subId := false]
    {
      if requests.postOk && requests.refreshOk {
        var newGrades := grades - {subId};
        grades := newGrades;
        outcome := Graded;
      } else {
        outcome := Failed;
      }
      grading := grading[subId := false];
    }

    /** Lines 44-67: a missing grade stops before any request; otherwise flag, request, clear, unflag. */
    method HandleGradeSubmit(subId: string, requests: Requests) returns (outcome: SubmitOutcome)
      modifies this
      ensures GradeMissing(old(grades), subId) ==>
        outcome == Aborted && grades == old(grades) && grading == old(grading)
      ensures !GradeMissing(old(grades), subId) ==>
        outcome == (if requests.postOk && requests.refreshOk then Graded else Failed) &&
        grading == old(grading)[subId := false]
      ensures outcome == Graded ==> requests.postOk && requests.refreshOk && grades == old(grades) - {subId}
      ensures outcome == Failed ==> grades == old(grades)
    {
      if GradeMissing(grades, subId) {
        return Aborted;
      }
      StartGrading(subId);
      outcome := FinishGrading(subId, requests);
    }
  }

  /** Clearing a submitted draft removes that draft and no other. */
  lemma ClearKeepsOthers(grades: map<string, Draft>, subId: string)
    ensures subId !in grades - {subId}
    ensures forall id :: id != subId ==> (id in grades - {subId} <==> id in grades)
    ensures forall id :: id in grades && id != subId ==> (grades - {subId})[id] == grades[id]
  {
  }

  function GetGradeColor(grade: real): string {
    if grade >= 8.0 then "text-green-600"
    else if grade >= 6.5 then "text-yellow-600"
    else "text-red-600"
  }

  /** Green from 8, yellow from 6.5 below 8, red below 6.5. */
  lemma GradeColorBands(grade: real)
    ensures GetGradeColor(grade) == "text-green-600" <==> grade >= 8.0
    ensures GetGradeColor(grade) == "text-yellow-600" <==> 6.5 <= grade < 8.0
    ensures GetGradeColor(grade) == "text-red-600" <==> grade < 6.5
  {
  }
}
