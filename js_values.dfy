/**
  A grade as the student pages receive it from the API: absent, `null`,
  a number, or `NaN`. JavaScript's `>=` on `undefined` or `NaN` is false and
  on `null` compares 0.
 */
module JsValues {
  datatype JsGrade = Undefined | Null | NotANumber | Num(value: real)

  /** `grade >= bound` in JavaScript. */
  predicate AtLeast(grade: JsGrade, bound: real) {
    match grade
    case Num(v) => v >= bound
    case Null => 0.0 >= bound
    case _ => false
  }
}
