/** Grade colours, grade badges and the graded count of the student's submission list. */
module MySubmissions {
  import opened Seqs
  import opened Text
  import opened JsValues

  const Ungraded: string := "Chưa chấm"

  function GetGradeColor(grade: JsGrade): string {
    if grade == Undefined || grade == Null then "text-gray-400"
    else if AtLeast(grade, 8.0) then "text-green-600"
    else if AtLeast(grade, 6.5) then "text-yellow-600"
    else "text-red-600"
  }

  /** The colour bands: gray without a grade, then green, yellow and red by the 8 and 6.5 thresholds. */
  lemma GradeColorBands(grade: JsGrade)
    ensures GetGradeColor(grade) == "text-gray-400" <==> grade == Undefined || grade == Null
    ensures GetGradeColor(grade) == "text-green-600" <==> grade.Num? && grade.value >= 8.0
    ensures GetGradeColor(grade) == "text-yellow-600" <==> grade.Num? && 6.5 <= grade.value < 8.0
    ensures GetGradeColor(grade) == "text-red-600" <==> grade == NotANumber || (grade.Num? && grade.value < 6.5)
  {
  }

  function GetGradeBadge(grade: JsGrade): string {
    if grade == Undefined || grade == Null then Ungraded
    else if AtLeast(grade, 8.0) then "Giỏi"
    else if AtLeast(grade, 6.5) then "Khá"
    else if AtLeast(grade, 5.0) then "Trung bình"
    else "Yếu"
  }

  /** The badge bands: ungraded, then Giỏi, Khá, Trung bình and Yếu by the 8, 6.5 and 5 thresholds. */
  lemma GradeBadgeBands(grade: JsGrade)
    ensures GetGradeBadge(grade) == Ungraded <==> grade == Undefined || grade == Null
    ensures GetGradeBadge(grade) == "Giỏi" <==> grade.Num? && grade.value >= 8.0
    ensures GetGradeBadge(grade) == "Khá" <==> grade.Num? && 6.5 <= grade.value < 8.0
    ensures GetGradeBadge(grade) == "Trung bình" <==> grade.Num? && 5.0 <= grade.value < 6.5
    ensures GetGradeBadge(grade) == "Yếu" <==> grade == NotANumber || (grade.Num? && grade.value < 5.0)
  {
  }

  /** The band a badge stands for, lowest first. */
  function BadgeRank(badge: string): int {
    if badge == "Giỏi" then 3
    else if badge == "Khá" then 2
    else if badge == "Trung bình" then 1
    else 0
  }

  /** A higher grade never gets a lower badge. */
  lemma GradeBadgeMonotone(a: real, b: real)
    requires a <= b
    ensures BadgeRank(GetGradeBadge(Num(a))) <= BadgeRank(GetGradeBadge(Num(b)))
  {
  }

  datatype Submission = Submission(assignmentTitle: string, grade: JsGrade)

  predicate IsGraded(sub: Submission) {
    sub.grade != Undefined && sub.grade != Null
  }

  function GradedCount(submissions: seq<Submission>): (n: nat)
    ensures n <= |submissions|
    ensures n == 0 <==> forall sub :: sub in submissions ==> !IsGraded(sub)
  {
    var graded := Filter(submissions, IsGraded);
    assert |graded| > 0 ==> graded[0] in graded;
    |graded|
  }

  /** The " • Đã chấm: n" suffix after the total, shown only when some submission is graded. */
  function GradedSuffix(submissions: seq<Submission>): (r: string)
    ensures r == "" <==> forall sub :: sub in submissions ==> !IsGraded(sub)
    ensures r != "" ==> r == " • Đã chấm: " + NatToString(GradedCount(submissions))
  {
    var n := GradedCount(submissions);
    if n > 0 then " • Đã chấm: " + NatToString(n) else ""
  }
}
