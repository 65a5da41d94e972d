/**
  The circled-answer mapping of backend/ocr_llm/mcq_grader.py: OCR lines that carry a question
  number are matched with the YOLO circle detections lying in the vertical
  band of that question, and the x position of the most confident circle
  picks the answer column.
 */
module McqGrader {
  import opened Wrappers
  import opened Seqs
  import opened Text

  // ---------------------------------------------------------------------
  // Detections

  /** A YOLO detection: centre, bounding box corners and confidence. */
  datatype Circle = Circle(x: real, y: real, bbox: (real, real, real, real), conf: real)

  /** One detection box `x1, y1, x2, y2` turned into a circle record, centred in the box. */
  function CircleOfBox(x1: real, y1: real, x2: real, y2: real, conf: real): (c: Circle)
    ensures c.x - x1 == x2 - c.x && c.y - y1 == y2 - c.y
    ensures x1 <= x2 ==> x1 <= c.x <= x2
    ensures y1 <= y2 ==> y1 <= c.y <= y2
    ensures c.bbox == (x1, y1, x2, y2) && c.conf == conf
  {
    Circle((x1 + x2) / 2.0, (y1 + y2) / 2.0, (x1, y1, x2, y2), conf)
  }

  /** The OCR box of a text line; `imgWidth` is absent when the OCR stage did not record it. */
  datatype OcrBox = OcrBox(y1: real, y2: real, yCenter: real, imgWidth: Option<real>)

  datatype OcrItem = OcrItem(text: string, box: OcrBox)

  datatype QuestionLine = QuestionLine(qNum: nat, box: OcrBox, text: string)

  // ---------------------------------------------------------------------
  // Answer columns

  /** Upper ratio bounds of the first three columns, ascending; anything beyond is the last column. */
  const AnswerColumnBoundaries: seq<(real, string)> := [(0.35, "A"), (0.55, "B"), (0.75, "C")]
  const DefaultLastColumn: string := "D"
  const Columns: seq<string> := ["A", "B", "C", "D"]

  /** The answer of the first boundary in `table` that `ratio` lies below, else `DefaultLastColumn`. */
  function FirstBelow(ratio: real, table: seq<(real, string)>): string {
    if table == [] then DefaultLastColumn
    else if ratio < table[0].0 then table[0].1
    else FirstBelow(ratio, table[1..])
  }

  function ColumnOf(ratio: real): string {
    FirstBelow(ratio, AnswerColumnBoundaries)
  }

  /** The four bands of the column table, each as an if-and-only-if. */
  lemma ColumnBands(ratio: real)
    ensures ColumnOf(ratio) in Columns
    ensures ColumnOf(ratio) == "A" <==> ratio < 0.35
    ensures ColumnOf(ratio) == "B" <==> 0.35 <= ratio < 0.55
    ensures ColumnOf(ratio) == "C" <==> 0.55 <= ratio < 0.75
    ensures ColumnOf(ratio) == "D" <==> 0.75 <= ratio
  {
    var t0 := AnswerColumnBoundaries;
    var t1, t2, t3 := t0[1..], t0[2..], t0[3..];
    assert t0[0] == (0.35, "A") && t1 == t0[1..] && t1[0] == (0.55, "B") && t1[1..] == t2;
    assert t2[0] == (0.75, "C") && t2[1..] == t3 && t3 == [];
    assert FirstBelow(ratio, t0) == if ratio < 0.35 then "A" else FirstBelow(ratio, t1);
    assert FirstBelow(ratio, t1) == if ratio < 0.55 then "B" else FirstBelow(ratio, t2);
    assert FirstBelow(ratio, t2) == if ratio < 0.75 then "C" else FirstBelow(ratio, t3);
    assert FirstBelow(ratio, t3) == "D";
    assert "A" != "B" && "A" != "C" && "A" != "D" && "B" != "C" && "B" != "D" && "C" != "D";
  }

  function ColumnRank(column: string): nat {
    if column == "A" then 0 else if column == "B" then 1 else if column == "C" then 2 else 3
  }

  /** A circle further right never lands in an earlier column. */
  lemma ColumnMonotone(r1: real, r2: real)
    requires r1 <= r2
    ensures ColumnRank(ColumnOf(r1)) <= ColumnRank(ColumnOf(r2))
  {
    ColumnBands(r1);
    ColumnBands(r2);
  }

  /** The boundary loop: the first boundary the ratio lies below gives the answer. */
  method SelectColumn(ratio: real) returns (selected: string)
    ensures selected == ColumnOf(ratio)
  {
    selected := DefaultLastColumn;
    var k := 0;
    while k < |AnswerColumnBoundaries|
      invariant 0 <= k <= |AnswerColumnBoundaries|
      invariant FirstBelow(ratio, AnswerColumnBoundaries[k..]) == ColumnOf(ratio)
      invariant selected == DefaultLastColumn
    {
      var (boundary, answer) := AnswerColumnBoundaries[k];
      assert AnswerColumnBoundaries[k..][1..] == AnswerColumnBoundaries[k + 1..];
      if ratio < boundary {
        selected := answer;
        return;
      }
      k := k + 1;
    }
    assert AnswerColumnBoundaries[k..] == [];
  }

  /** `box.get('img_width', 1000)`, and a ratio of 0 when the width is not positive. */
  function Ratio(x: real, imgWidth: Option<real>): real {
    var width := imgWidth.GetOr(1000.0);
    if width > 0.0 then x / width else 0.0
  }

  lemma NonPositiveWidthIsA(x: real, width: real)
    requires width <= 0.0
    ensures ColumnOf(Ratio(x, Some(width))) == "A"
  {
    ColumnBands(Ratio(x, Some(width)));
  }

  lemma MissingWidthIsThousand(x: real)
    ensures ColumnOf(Ratio(x, None)) == ColumnOf(x / 1000.0)
  {
  }

  // ---------------------------------------------------------------------
  // Question numbers: `^(?:Câu\s*)?(\d+)[\.:]`, case-insensitive, on the stripped text

  /** "Câu" in any letter case ('â' folds only with 'Â'). */
  predicate HasCauPrefix(t: string) {
    |t| >= 3 && (t[0] == 'c' || t[0] == 'C') && (t[1] == '\U{00E2}' || t[1] == '\U{00C2}')
    && (t[2] == 'u' || t[2] == 'U')
  }

  function DigitRunEnd(s: string, i: nat): (j: nat)
    requires i <= |s|
    ensures i <= j <= |s|
    ensures AllChars(s[i..j], IsDigit)
    ensures j == |s| || !IsDigit(s[j])
    decreases |s| - i
  {
    if i < |s| && IsDigit(s[i]) then
      var j := DigitRunEnd(s, i + 1);
      assert s[i..j] == [s[i]] + s[i + 1..j];
      j
    else i
  }

  /** `(\d+)[\.:]` at position `i`: the digit run must be followed by '.' or ':'. */
  function NumberAt(t: string, i: nat): Option<nat>
    requires i <= |t|
  {
    var j := DigitRunEnd(t, i);
    if i < j < |t| && (t[j] == '.' || t[j] == ':') then Some(DigitsValue(t[i..j])) else None
  }

  /**
    The match anchored at 0. With the prefix present the optional group is
    taken; backtracking out of it would need a digit at 0, where 'c' is.
   */
  function MatchQuestionNumber(t: string): Option<nat> {
    if HasCauPrefix(t) then NumberAt(t, SpaceRunEnd(t, 3)) else NumberAt(t, 0)
  }

  lemma NumberAtDigits(d: string, rest: string, sep: char, pre: nat, t: string)
    requires d != [] && AllChars(d, IsDigit) && (sep == '.' || sep == ':')
    requires pre <= |t| && t[pre..] == d + [sep] + rest
    ensures NumberAt(t, pre) == Some(DigitsValue(d))
  {
    var n := |d|;
    assert forall k :: pre <= k < pre + n ==> t[k] == d[k - pre];
    assert t[pre + n] == sep;
    assert DigitRunEnd(t, pre + n) == pre + n;
    DigitRunFrom(t, pre, pre + n);
    assert t[pre..pre + n] == d;
  }

  lemma {:induction false} DigitRunFrom(t: string, i: nat, j: nat)
    requires i <= j < |t| && !IsDigit(t[j])
    requires forall k :: i <= k < j ==> IsDigit(t[k])
    ensures DigitRunEnd(t, i) == j
    decreases j - i
  {
    if i < j {
      DigitRunFrom(t, i + 1, j);
    }
  }

  /** "Câu" + spaces + a number + ':' parses to that number. */
  lemma CauFormParses(n: nat, spaces: string, rest: string)
    requires AllChars(spaces, IsPySpace)
    ensures MatchQuestionNumber("C\U{00E2}u" + spaces + NatToString(n) + ":" + rest) == Some(n)
  {
    var d := NatToString(n);
    var t := "C\U{00E2}u" + spaces + d + ":" + rest;
    var pre := 3 + |spaces|;
    assert t[3..pre] == spaces;
    assert t[pre] == d[0];
    assert SpaceRunEnd(t, 3) == pre by {
      SpaceRunFrom(t, 3, pre);
    }
    assert t[pre..] == d + [':'] + rest;
    NumberAtDigits(d, rest, ':', pre, t);
    DigitsValueOfNatToString(n);
  }

  lemma {:induction false} SpaceRunFrom(t: string, i: nat, j: nat)
    requires i <= j < |t| && !IsPySpace(t[j])
    requires forall k :: i <= k < j ==> IsPySpace(t[k])
    ensures SpaceRunEnd(t, i) == j
    decreases j - i
  {
    if i < j {
      SpaceRunFrom(t, i + 1, j);
    }
  }

  /** A bare number followed by '.' or ':' parses to that number. */
  lemma BareFormParses(n: nat, sep: char, rest: string)
    requires sep == '.' || sep == ':'
    ensures MatchQuestionNumber(NatToString(n) + [sep] + rest) == Some(n)
  {
    var d := NatToString(n);
    var t := d + [sep] + rest;
    assert !HasCauPrefix(t) by {
      assert t[0] == d[0] && IsDigit(d[0]);
    }
    assert t[0..] == d + [sep] + rest;
    NumberAtDigits(d, rest, sep, 0, t);
    DigitsValueOfNatToString(n);
  }

  /** English "Question 2:" is not recognised, whatever the comment in mcq_grader.py says. */
  lemma QuestionWordRejected()
    ensures MatchQuestionNumber("Question 2:") == None
  {
    var t := "Question 2:";
    assert !HasCauPrefix(t);
    assert !IsDigit(t[0]);
    assert DigitRunEnd(t, 0) == 0;
  }

  /** Whatever parses has the shape of the pattern: an optional "Câu" and spaces, digits, then '.' or ':'. */
  lemma MatchedShape(t: string) returns (i: nat, j: nat)
    requires MatchQuestionNumber(t).Some?
    ensures i < j < |t| && (t[j] == '.' || t[j] == ':')
    ensures AllChars(t[i..j], IsDigit) && MatchQuestionNumber(t) == Some(DigitsValue(t[i..j]))
    ensures i == 0 || (HasCauPrefix(t) && 3 <= i && AllChars(t[3..i], IsPySpace))
    ensures i > 0 ==> !IsPySpace(t[i])
  {
    i := if HasCauPrefix(t) then SpaceRunEnd(t, 3) else 0;
    j := DigitRunEnd(t, i);
    if i > 0 {
      assert AllChars(t[3..i], IsPySpace);
    }
  }

  // ---------------------------------------------------------------------
  // map_ocr_to_yolo

  datatype Parsed = NotAQuestion | Question(line: QuestionLine)

  /** The question line an OCR item yields, if its stripped text matches. */
  function ParseItem(item: OcrItem): Parsed {
    var text := PyStrip(item.text);
    var m := MatchQuestionNumber(text);
    if m.Some? then Question(QuestionLine(m.value, item.box, text)) else NotAQuestion
  }

  /** The lines `parse` accepts, in input order. */
  function QuestionLinesBy(items: seq<OcrItem>, parse: OcrItem -> Parsed): (r: seq<QuestionLine>)
    ensures |r| <= |items|
  {
    if items == [] then []
    else
      var p := parse(items[|items| - 1]);
      QuestionLinesBy(items[..|items| - 1], parse) + (if p.Question? then [p.line] else [])
  }

  function QuestionLinesOf(items: seq<OcrItem>): seq<QuestionLine> {
    QuestionLinesBy(items, ParseItem)
  }

  /** The question lines are exactly the accepted items' lines. */
  lemma {:induction false} InQuestionLines(items: seq<OcrItem>, parse: OcrItem -> Parsed, q: QuestionLine)
    ensures q in QuestionLinesBy(items, parse) <==> exists k :: 0 <= k < |items| && parse(items[k]) == Question(q)
    decreases |items|
  {
    if items != [] {
      var init := items[..|items| - 1];
      var last := parse(items[|items| - 1]);
      InQuestionLines(init, parse, q);
      assert QuestionLinesBy(items, parse) == QuestionLinesBy(init, parse) + (if last.Question? then [last.line] else []);
      if q in QuestionLinesBy(items, parse) {
        if q in QuestionLinesBy(init, parse) {
          var k :| 0 <= k < |init| && parse(init[k]) == Question(q);
          assert items[k] == init[k];
        } else {
          assert parse(items[|items| - 1]) == Question(q);
        }
      }
      if exists k :: 0 <= k < |items| && parse(items[k]) == Question(q) {
        var k :| 0 <= k < |items| && parse(items[k]) == Question(q);
        if k < |init| {
          assert init[k] == items[k];
        }
      }
    }
  }

  function YCenter(q: QuestionLine): real {
    q.box.yCenter
  }

  function Conf(c: Circle): real {
    c.conf
  }

  /** The questions, top to bottom (a stable sort, as Python's `list.sort`). */
  function SortedQuestions(items: seq<OcrItem>): seq<QuestionLine> {
    SortBy(QuestionLinesOf(items), YCenter)
  }

  /** From the top of question `i` to the top of the next, or 300 below the bottom of the last. */
  function Window(qs: seq<QuestionLine>, i: nat): (real, real)
    requires i < |qs|
  {
    (qs[i].box.y1, if i < |qs| - 1 then qs[i + 1].box.y1 else qs[i].box.y2 + 300.0)
  }

  /** `[c for c in yolo_circles if lo < c['y'] < hi]`. */
  function Candidates(circles: seq<Circle>, lo: real, hi: real): seq<Circle> {
    if circles == [] then []
    else (if lo < circles[0].y < hi then [circles[0]] else []) + Candidates(circles[1..], lo, hi)
  }

  /** The candidates are the circles centred strictly inside the window, in input order. */
  lemma {:induction false} CandidatesSpec(circles: seq<Circle>, lo: real, hi: real)
    ensures forall c :: c in Candidates(circles, lo, hi) <==> c in circles && lo < c.y < hi
    ensures IsSubseq(Candidates(circles, lo, hi), circles)
    decreases |circles|
  {
    if circles != [] {
      CandidatesSpec(circles[1..], lo, hi);
      var rest := Candidates(circles[1..], lo, hi);
      assert circles == [circles[0]] + circles[1..];
      if lo < circles[0].y < hi {
        assert Candidates(circles, lo, hi) == [circles[0]] + rest;
        assert ([circles[0]] + rest)[1..] == rest;
      } else {
        assert Candidates(circles, lo, hi) == rest;
      }
    }
  }

  datatype Answer = NoCircle | Circled(best: Circle, column: string)

  /** The first most confident candidate, and its column at the width of the question's OCR image. */
  function BestAnswer(cands: seq<Circle>, imgWidth: Option<real>): Answer {
    if cands == [] then NoCircle
    else
      var best := cands[ArgMaxBy(cands, Conf)];
      Circled(best, ColumnOf(Ratio(best.x, imgWidth)))
  }

  function WindowCandidates(qs: seq<QuestionLine>, i: nat, circles: seq<Circle>): seq<Circle>
    requires i < |qs|
  {
    Candidates(circles, Window(qs, i).0, Window(qs, i).1)
  }

  /** The answer of question `i`. */
  function AnswerFor(qs: seq<QuestionLine>, i: nat, circles: seq<Circle>): Answer
    requires i < |qs|
  {
    BestAnswer(WindowCandidates(qs, i, circles), qs[i].box.imgWidth)
  }

  /**
    A question has an answer iff a circle lies strictly inside its window; the
    chosen circle is a candidate of maximal confidence, the first such in input
    order, and its column is a letter.
   */
  lemma AnswerForSpec(qs: seq<QuestionLine>, i: nat, circles: seq<Circle>)
    requires i < |qs|
    ensures var cands := WindowCandidates(qs, i, circles); var a := AnswerFor(qs, i, circles);
      && (a.NoCircle? <==> cands == [])
      && (a.Circled? ==> a.column in Columns && a.column == ColumnOf(Ratio(a.best.x, qs[i].box.imgWidth)))
      && (a.Circled? ==> exists k :: (0 <= k < |cands| && cands[k] == a.best &&
           (forall j :: 0 <= j < |cands| ==> cands[j].conf <= a.best.conf) &&
           (forall j :: 0 <= j < k ==> cands[j].conf < a.best.conf)))
  {
    var cands := WindowCandidates(qs, i, circles);
    if cands != [] {
      var k := ArgMaxBy(cands, Conf);
      ColumnBands(Ratio(cands[k].x, qs[i].box.imgWidth));
      assert forall j :: 0 <= j < |cands| ==> Conf(cands[j]) == cands[j].conf;
    }
  }

  /** The answers of questions `i..`. */
  function AnswersFrom(qs: seq<QuestionLine>, circles: seq<Circle>, i: nat): (r: seq<Answer>)
    requires i <= |qs|
    ensures |r| == |qs| - i
    decreases |qs| - i
  {
    if i == |qs| then [] else [AnswerFor(qs, i, circles)] + AnswersFrom(qs, circles, i + 1)
  }

  function AnswersOf(qs: seq<QuestionLine>, circles: seq<Circle>): (r: seq<Answer>)
    ensures |r| == |qs|
  {
    AnswersFrom(qs, circles, 0)
  }

  lemma {:induction false} AnswersFromAt(qs: seq<QuestionLine>, circles: seq<Circle>, i: nat, j: nat)
    requires i <= j < |qs|
    ensures AnswersFrom(qs, circles, i)[j - i] == AnswerFor(qs, j, circles)
    decreases j - i
  {
    if i < j {
      AnswersFromAt(qs, circles, i + 1, j);
    }
  }

  lemma AnswersOfAt(qs: seq<QuestionLine>, circles: seq<Circle>, j: nat)
    requires j < |qs|
    ensures AnswersOf(qs, circles)[j] == AnswerFor(qs, j, circles)
  {
    AnswersFromAt(qs, circles, 0, j);
  }

  /** The dictionary after the first `n` questions: each circled question writes its number. */
  function Mapped(qs: seq<QuestionLine>, answers: seq<Answer>, n: nat): map<nat, string>
    requires n <= |qs| == |answers|
  {
    if n == 0 then map[]
    else
      var m := Mapped(qs, answers, n - 1);
      if answers[n - 1].Circled? then m[qs[n - 1].qNum := answers[n - 1].column] else m
  }

  function MappedAnswers(items: seq<OcrItem>, circles: seq<Circle>): map<nat, string> {
    var qs := SortedQuestions(items);
    Mapped(qs, AnswersOf(qs, circles), |qs|)
  }

  /** A number is a key iff some question with that number has a candidate circle. */
  lemma {:induction false} MappedKeys(qs: seq<QuestionLine>, answers: seq<Answer>, n: nat, key: nat)
    requires n <= |qs| == |answers|
    ensures key in Mapped(qs, answers, n) <==>
      exists i :: 0 <= i < n && qs[i].qNum == key && answers[i].Circled?
  {
    if n > 0 {
      MappedKeys(qs, answers, n - 1, key);
    }
  }

  /** Every value is the column of some circled question with that number. */
  lemma {:induction false} MappedValues(qs: seq<QuestionLine>, answers: seq<Answer>, n: nat, key: nat)
    requires n <= |qs| == |answers|
    requires key in Mapped(qs, answers, n)
    ensures exists i :: (0 <= i < n && qs[i].qNum == key && answers[i].Circled? &&
      Mapped(qs, answers, n)[key] == answers[i].column)
  {
    if key in Mapped(qs, answers, n - 1) && (qs[n - 1].qNum != key || answers[n - 1].NoCircle?) {
      MappedValues(qs, answers, n - 1, key);
    }
  }

  /** A key holds the answer of the last circled question with that number. */
  lemma {:induction false} LastDuplicateWins(qs: seq<QuestionLine>, answers: seq<Answer>, n: nat, i: nat)
    requires i < n <= |qs| == |answers| && answers[i].Circled?
    requires forall j :: i < j < n && qs[j].qNum == qs[i].qNum ==> answers[j].NoCircle?
    ensures qs[i].qNum in Mapped(qs, answers, n)
    ensures Mapped(qs, answers, n)[qs[i].qNum] == answers[i].column
  {
    if n - 1 > i {
      LastDuplicateWins(qs, answers, n - 1, i);
    }
  }

  /** The whole mapping: keys are circled question numbers and values are column letters. */
  lemma MappedAnswersSpec(items: seq<OcrItem>, circles: seq<Circle>, key: nat)
    ensures var qs := SortedQuestions(items);
      key in MappedAnswers(items, circles) <==>
        exists i :: 0 <= i < |qs| && qs[i].qNum == key && WindowCandidates(qs, i, circles) != []
    ensures key in MappedAnswers(items, circles) ==> MappedAnswers(items, circles)[key] in Columns
  {
    var qs := SortedQuestions(items);
    var answers := AnswersOf(qs, circles);
    MappedKeys(qs, answers, |qs|, key);
    forall i | 0 <= i < |qs| ensures answers[i].Circled? <==> WindowCandidates(qs, i, circles) != [] {
      AnswersOfAt(qs, circles, i);
      AnswerForSpec(qs, i, circles);
    }
    if key in MappedAnswers(items, circles) {
      MappedValues(qs, answers, |qs|, key);
      var i :| 0 <= i < |qs| && qs[i].qNum == key && answers[i].Circled? &&
        Mapped(qs, answers, |qs|)[key] == answers[i].column;
      AnswersOfAt(qs, circles, i);
      AnswerForSpec(qs, i, circles);
    }
  }

  /** Step 1 of the mapping: the OCR items whose stripped text carries a question number. */
  method FindQuestionLines(ocrData: seq<OcrItem>) returns (questionLines: seq<QuestionLine>)
    ensures questionLines == QuestionLinesOf(ocrData)
  {
    questionLines := [];
    var idx := 0;
    while idx < |ocrData|
      invariant 0 <= idx <= |ocrData|
      invariant questionLines == QuestionLinesOf(ocrData[..idx])
    {
      var item := ocrData[idx];
      var text := PyStrip(item.text);
      var m := MatchQuestionNumber(text);
      assert ocrData[..idx + 1][..idx] == ocrData[..idx];
      if m.Some? {
        questionLines := questionLines + [QuestionLine(m.value, item.box, text)];
      }
      idx := idx + 1;
    }
    assert ocrData[..idx] == ocrData;
  }

  /** The body of step 2 for question `i`: its window, candidates, best circle and column. */
  method AnswerOfQuestion(questionLines: seq<QuestionLine>, i: nat, yoloCircles: seq<Circle>)
    returns (found: bool, selected: string)
    requires i < |questionLines|
    ensures found <==> AnswerFor(questionLines, i, yoloCircles).Circled?
    ensures found ==> selected == AnswerFor(questionLines, i, yoloCircles).column
  {
    var q := questionLines[i];
    var yStart := q.box.y1;
    var yEnd: real;
    if i < |questionLines| - 1 {
      yEnd := questionLines[i + 1].box.y1;
    } else {
      yEnd := q.box.y2 + 300.0;
    }
    assert Window(questionLines, i) == (yStart, yEnd);
    var candidates := Candidates(yoloCircles, yStart, yEnd);
    found := candidates != [];
    selected := "";
    if found {
      var bestCircle := candidates[ArgMaxBy(candidates, Conf)];
      var imgWidth := q.box.imgWidth.GetOr(1000.0);
      var ratio := if imgWidth > 0.0 then bestCircle.x / imgWidth else 0.0;
      assert ratio == Ratio(bestCircle.x, q.box.imgWidth);
      selected := SelectColumn(ratio);
    }
  }

  lemma MappedStep(qs: seq<QuestionLine>, answers: seq<Answer>, i: nat, found: bool, selected: string)
    requires i < |qs| == |answers|
    requires found <==> answers[i].Circled?
    requires found ==> selected == answers[i].column
    ensures Mapped(qs, answers, i + 1) ==
      if found then Mapped(qs, answers, i)[qs[i].qNum := selected] else Mapped(qs, answers, i)
  {
  }

  /** Step 2 of the mapping: each question in turn writes the column of its best circle. */
  method MapQuestions(questionLines: seq<QuestionLine>, yoloCircles: seq<Circle>) returns (mappedAnswers: map<nat, string>)
    ensures mappedAnswers == Mapped(questionLines, AnswersOf(questionLines, yoloCircles), |questionLines|)
    ensures forall q :: q in mappedAnswers ==> mappedAnswers[q] in Columns
  {
    ghost var answers := AnswersOf(questionLines, yoloCircles);
    mappedAnswers := map[];
    var i := 0;
    while i < |questionLines|
      invariant 0 <= i <= |questionLines|
      invariant mappedAnswers == Mapped(questionLines, answers, i)
      invariant forall q :: q in mappedAnswers ==> mappedAnswers[q] in Columns
    {
      var found, selected := AnswerOfQuestion(questionLines, i, yoloCircles);
      AnswersOfAt(questionLines, yoloCircles, i);
      MappedStep(questionLines, answers, i, found, selected);
      AnswerForSpec(questionLines, i, yoloCircles);
      if found {
        mappedAnswers := mappedAnswers[questionLines[i].qNum := selected];
      }
      i := i + 1;
    }
  }

  method MapOcrToYolo(ocrData: seq<OcrItem>, yoloCircles: seq<Circle>) returns (mappedAnswers: map<nat, string>)
    ensures mappedAnswers == MappedAnswers(ocrData, yoloCircles)
  {
    var questionLines := FindQuestionLines(ocrData);
    questionLines := SortBy(questionLines, YCenter);
    mappedAnswers := MapQuestions(questionLines, yoloCircles);
  }

  // ---------------------------------------------------------------------
  // format_for_llm

  const LlmHeader: string := "--- K\U{1EBE}T QU\U{1EA2} CH\U{1EA4}M TR\U{1EAE}C NGHI\U{1EC6}M (YOLO DETECTED) ---"

  predicate StrictlyIncreasing(s: seq<nat>) {
    forall i, j :: 0 <= i < j < |s| ==> s[i] < s[j]
  }

  /** A set of naturals with an element at most `n` has a least element. */
  lemma {:induction false} MinBelow(keys: set<nat>, n: nat)
    requires exists k :: k in keys && k <= n
    ensures exists m :: m in keys && forall k :: k in keys ==> m <= k
    decreases n
  {
    if n > 0 && exists k :: k in keys && k <= n - 1 {
      MinBelow(keys, n - 1);
    } else {
      var k :| k in keys && k <= n;
      assert k == n;
      assert forall j :: j in keys ==> n <= j;
    }
  }

  lemma MinExists(keys: set<nat>)
    requires keys != {}
    ensures exists m :: m in keys && forall k :: k in keys ==> m <= k
  {
    var x :| x in keys;
    MinBelow(keys, x);
  }

  /** The smallest key, which is unique. */
  ghost function MinKey(keys: set<nat>): (m: nat)
    requires keys != {}
    ensures m in keys && forall k :: k in keys ==> m <= k
  {
    MinExists(keys);
    var m :| m in keys && forall k :: k in keys ==> m <= k; m
  }

  /** The keys in ascending numeric order (`sorted(keys, key=int)`). */
  ghost function SortedKeys(keys: set<nat>): (r: seq<nat>)
    ensures forall k :: k in r <==> k in keys
    ensures StrictlyIncreasing(r)
    decreases |keys|
  {
    if keys == {} then []
    else
      var m := MinKey(keys);
      var rest := SortedKeys(keys - {m});
      [m] + rest
  }

  function KeyLine(key: nat, answer: string): string {
    "C\U{00E2}u " + NatToString(key) + ": " + answer
  }

  function KeyLines(m: map<nat, string>, keys: seq<nat>): (r: seq<string>)
    requires forall k :: k in keys ==> k in m
    ensures |r| == |keys|
    ensures forall i :: 0 <= i < |keys| ==> r[i] == KeyLine(keys[i], m[keys[i]])
  {
    if keys == [] then [] else [KeyLine(keys[0], m[keys[0]])] + KeyLines(m, keys[1..])
  }

  lemma {:induction false} KeyLinesSnoc(m: map<nat, string>, keys: seq<nat>, k: nat)
    requires forall j :: j in keys ==> j in m
    requires k in m
    ensures KeyLines(m, keys + [k]) == KeyLines(m, keys) + [KeyLine(k, m[k])]
    decreases |keys|
  {
    if keys != [] {
      assert (keys + [k])[1..] == keys[1..] + [k];
      KeyLinesSnoc(m, keys[1..], k);
      AppendAssoc([KeyLine(keys[0], m[keys[0]])], KeyLines(m, keys[1..]), [KeyLine(k, m[k])]);
    } else {
      assert KeyLines(m, [k]) == [KeyLine(k, m[k])] + KeyLines(m, []);
    }
  }

  /** The rendered lines: the header, then one line per key in ascending order. */
  ghost function LlmLines(m: map<nat, string>): (r: seq<string>)
    ensures |r| == |SortedKeys(m.Keys)| + 1 && r[0] == LlmHeader
    ensures forall i :: 0 < i < |r| ==>
      var keys := SortedKeys(m.Keys); r[i] == KeyLine(keys[i - 1], m[keys[i - 1]])
  {
    [LlmHeader] + KeyLines(m, SortedKeys(m.Keys))
  }

  /** Taking the smallest key first leaves the sorted rest. */
  lemma SortedKeysStep(keys: set<nat>, k: nat)
    requires k in keys && forall j :: j in keys ==> k <= j
    ensures SortedKeys(keys) == [k] + SortedKeys(keys - {k})
    ensures |keys - {k}| < |keys|
  {
    assert k == MinKey(keys);
  }

  /** `sorted(mapped_answers.keys(), key=int)`, computed by repeatedly taking the smallest remaining key. */
  method SortKeys(m: map<nat, string>) returns (sortedKeys: seq<nat>)
    ensures sortedKeys == SortedKeys(m.Keys)
  {
    sortedKeys := [];
    var remaining := m.Keys;
    while remaining != {}
      invariant sortedKeys + SortedKeys(remaining) == SortedKeys(m.Keys)
      decreases |remaining|
    {
      MinExists(remaining);
      var k :| k in remaining && forall j :: j in remaining ==> k <= j;
      SortedKeysStep(remaining, k);
      AppendAssoc(sortedKeys, [k], SortedKeys(remaining - {k}));
      sortedKeys := sortedKeys + [k];
      remaining := remaining - {k};
    }
    assert sortedKeys + [] == sortedKeys;
  }

  /** The loop of `format_for_llm`: after the header, one `Câu k: v` line per key, in the given order. */
  method AppendKeyLines(m: map<nat, string>, sortedKeys: seq<nat>) returns (lines: seq<string>)
    requires forall k :: k in sortedKeys ==> k in m
    ensures lines == [LlmHeader] + KeyLines(m, sortedKeys)
  {
    lines := [LlmHeader];
    var i := 0;
    while i < |sortedKeys|
      invariant 0 <= i <= |sortedKeys|
      invariant lines == [LlmHeader] + KeyLines(m, sortedKeys[..i])
    {
      var k := sortedKeys[i];
      assert sortedKeys[..i + 1] == sortedKeys[..i] + [k];
      KeyLinesSnoc(m, sortedKeys[..i], k);
      AppendAssoc([LlmHeader], KeyLines(m, sortedKeys[..i]), [KeyLine(k, m[k])]);
      lines := lines + [KeyLine(k, m[k])];
      i := i + 1;
    }
    assert sortedKeys[..i] == sortedKeys;
  }

  method FormatForLlm(mappedAnswers: map<nat, string>) returns (text: string)
    ensures mappedAnswers == map[] ==> text == ""
    ensures mappedAnswers != map[] ==> text == Join(LlmLines(mappedAnswers), "\n")
  {
    if mappedAnswers == map[] {
      return "";
    }
    var sortedKeys := SortKeys(mappedAnswers);
    var lines := AppendKeyLines(mappedAnswers, sortedKeys);
    text := Join(lines, "\n");
  }

  /** The rendered text is empty exactly when nothing was mapped. */
  lemma LlmTextEmptyIff(m: map<nat, string>)
    ensures m != map[] ==> Join(LlmLines(m), "\n") != ""
  {
    if m != map[] {
      var lines := LlmLines(m);
      assert lines[0] == LlmHeader;
      assert forall i :: 0 <= i < |lines| ==> lines[i] != [];
      JoinEmptyIff(lines, "\n");
    }
  }
}
