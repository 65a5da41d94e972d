/**
  The bubble heuristic for an MCQ block: filled bubbles (blobs) are kept by
  area, clustered into rows by their vertical centre, and in each row the
  largest blob picks its letter by its rank from the left.
 */
module DetectMcq {
  import opened Seqs

  /** A measured contour: integer centroid and area. */
  datatype Blob = Blob(cx: int, cy: int, area: real)

  datatype McqAnswer = McqAnswer(question: nat, selected: char, cx: int, cy: int, area: real)

  function Max(a: int, b: int): int {
    if a >= b then a else b
  }

  function Abs(x: int): nat {
    if x < 0 then -x else x
  }

  // ---------------------------------------------------------------------
  // Area bounds (`w*h` is the pixel count of the block)

  function MinArea(w: nat, h: nat): (m: int)
    ensures m >= 30 && m >= (w * h) / 10000
    ensures m == 30 || m == (w * h) / 10000
  {
    Max(30, (w * h) / 10000)
  }

  function MaxArea(w: nat, h: nat): int {
    (w * h) / 200
  }

  function InAreaBounds(minArea: int, maxArea: int): Blob -> bool {
    (b: Blob) => minArea as real <= b.area <= maxArea as real
  }

  lemma {:induction false} FilterSnoc<T>(s: seq<T>, x: T, p: T -> bool)
    ensures Filter(s + [x], p) == Filter(s, p) + (if p(x) then [x] else [])
  {
    FilterAppend(s, [x], p);
    assert Filter([x], p) == (if p(x) then [x] else []) + Filter([], p);
  }

  /** The contour loop: a blob outside `[minArea, maxArea]` is skipped. */
  method KeepBlobs(contours: seq<Blob>, minArea: int, maxArea: int) returns (blobs: seq<Blob>)
    ensures blobs == Filter(contours, InAreaBounds(minArea, maxArea))
    ensures forall b :: b in blobs <==> b in contours && minArea as real <= b.area <= maxArea as real
  {
    blobs := [];
    var i := 0;
    while i < |contours|
      invariant 0 <= i <= |contours|
      invariant blobs == Filter(contours[..i], InAreaBounds(minArea, maxArea))
    {
      var b := contours[i];
      assert contours[..i + 1] == contours[..i] + [b];
      FilterSnoc(contours[..i], b, InAreaBounds(minArea, maxArea));
      if !(b.area < minArea as real || b.area > maxArea as real) {
        blobs := blobs + [b];
      }
      i := i + 1;
    }
    assert contours[..i] == contours;
  }

  // ---------------------------------------------------------------------
  // Rows

  /** `max(15, int(h*0.02))`, with `int(h*0.02)` read as the exact `h*2 // 100`. */
  function RowGap(h: nat): (g: int)
    ensures g >= 15
  {
    Max(15, (h * 2) / 100)
  }

  function Cy(b: Blob): real {
    b.cy as real
  }

  function Cx(b: Blob): real {
    b.cx as real
  }

  function Area(b: Blob): real {
    b.area
  }

  function Last<T>(s: seq<T>): T
    requires s != []
  {
    s[|s| - 1]
  }

  /** The row clustering, one blob at a time: a blob joins the current row when close to its last blob. */
  function Rows(blobs: seq<Blob>, gap: int): (rows: seq<seq<Blob>>)
    requires blobs != []
    ensures rows != [] && Last(rows) != [] && Last(Last(rows)) == Last(blobs)
    ensures forall k :: 0 <= k < |rows| ==> rows[k] != []
    decreases |blobs|
  {
    if |blobs| == 1 then [[blobs[0]]]
    else
      var prev := Rows(blobs[..|blobs| - 1], gap);
      var b := Last(blobs);
      var current := Last(prev);
      if Abs(b.cy - Last(current).cy) <= gap then prev[..|prev| - 1] + [current + [b]]
      else prev + [[b]]
  }

  /** Appending a blob to the last row appends it to the concatenation. */
  lemma PartitionJoin<T>(front: seq<seq<T>>, current: seq<T>, b: T, init: seq<T>)
    requires Concat(front + [current]) == init
    ensures Concat(front + [current + [b]]) == init + [b]
  {
    ConcatSnoc(front, current);
    ConcatSnoc(front, current + [b]);
    AppendAssoc(Concat(front), current, [b]);
  }

  /** Starting a new row with a blob appends it to the concatenation. */
  lemma PartitionNew<T>(prev: seq<seq<T>>, b: T, init: seq<T>)
    requires Concat(prev) == init
    ensures Concat(prev + [[b]]) == init + [b]
  {
    ConcatSnoc(prev, [b]);
  }

  /** One blob more: if the rows of the shorter prefix concatenate to it, the rows of `blobs` concatenate to `blobs`. */
  lemma RowsPartitionStep(blobs: seq<Blob>, gap: int)
    requires |blobs| > 1 && Concat(Rows(blobs[..|blobs| - 1], gap)) == blobs[..|blobs| - 1]
    ensures Concat(Rows(blobs, gap)) == blobs
  {
    var init := blobs[..|blobs| - 1];
    var prev: seq<seq<Blob>> := Rows(init, gap);
    var b := Last(blobs);
    var current := Last(prev);
    var front := prev[..|prev| - 1];
    assert prev == front + [current];
    assert blobs == init + [b];
    if Abs(b.cy - Last(current).cy) <= gap {
      PartitionJoin(front, current, b, init);
    } else {
      PartitionNew(prev, b, init);
    }
  }

  /** The rows partition the blobs into consecutive runs: concatenated, they give the blobs back. */
  lemma {:induction false} RowsPartition(blobs: seq<Blob>, gap: int)
    requires blobs != []
    ensures Concat(Rows(blobs, gap)) == blobs
    decreases |blobs|
  {
    if |blobs| == 1 {
      assert Concat([[blobs[0]]]) == [blobs[0]] + Concat([]);
    } else {
      RowsPartition(blobs[..|blobs| - 1], gap);
      RowsPartitionStep(blobs, gap);
    }
  }

  predicate CloseWithin(row: seq<Blob>, gap: int) {
    forall j :: 0 < j < |row| ==> Abs(row[j].cy - row[j - 1].cy) <= gap
  }

  predicate FarApart(rows: seq<seq<Blob>>, gap: int)
    requires forall k :: 0 <= k < |rows| ==> rows[k] != []
  {
    forall k :: 0 < k < |rows| ==> Abs(rows[k][0].cy - Last(rows[k - 1]).cy) > gap
  }

  /** Inside a row, neighbouring centres are at most `gap` apart. */
  lemma {:induction false} RowsClose(blobs: seq<Blob>, gap: int)
    requires blobs != []
    ensures forall k :: 0 <= k < |Rows(blobs, gap)| ==> CloseWithin(Rows(blobs, gap)[k], gap)
    decreases |blobs|
  {
    if |blobs| > 1 {
      var init := blobs[..|blobs| - 1];
      var prev: seq<seq<Blob>> := Rows(init, gap);
      var b := Last(blobs);
      var current := Last(prev);
      RowsClose(init, gap);
      var rows: seq<seq<Blob>> := Rows(blobs, gap);
      if Abs(b.cy - Last(current).cy) <= gap {
        var joined := current + [b];
        assert rows == prev[..|prev| - 1] + [joined];
        assert CloseWithin(joined, gap) by {
          assert CloseWithin(current, gap);
          forall j | 0 < j < |joined| ensures Abs(joined[j].cy - joined[j - 1].cy) <= gap {
            if j < |current| {
              assert joined[j] == current[j] && joined[j - 1] == current[j - 1];
            }
          }
        }
        forall k | 0 <= k < |rows| ensures CloseWithin(rows[k], gap) {
          if k < |prev| - 1 {
            assert rows[k] == prev[k];
          }
        }
      } else {
        assert rows == prev + [[b]];
        forall k | 0 <= k < |rows| ensures CloseWithin(rows[k], gap) {
          if k < |prev| {
            assert rows[k] == prev[k];
          }
        }
      }
    }
  }

  lemma ApartJoin(prev: seq<seq<Blob>>, x: Blob, gap: int)
    requires prev != [] && forall k :: 0 <= k < |prev| ==> prev[k] != []
    requires FarApart(prev, gap)
    ensures FarApart(prev[..|prev| - 1] + [Last(prev) + [x]], gap)
  {
    var rows: seq<seq<Blob>> := prev[..|prev| - 1] + [Last(prev) + [x]];
    forall k | 0 < k < |rows| ensures Abs(rows[k][0].cy - Last(rows[k - 1]).cy) > gap {
      assert rows[k - 1] == prev[k - 1];
      assert rows[k][0] == prev[k][0];
    }
  }

  lemma ApartNew(prev: seq<seq<Blob>>, x: Blob, gap: int)
    requires prev != [] && forall k :: 0 <= k < |prev| ==> prev[k] != []
    requires FarApart(prev, gap) && Abs(x.cy - Last(Last(prev)).cy) > gap
    ensures FarApart(prev + [[x]], gap)
  {
    var rows: seq<seq<Blob>> := prev + [[x]];
    forall k | 0 < k < |rows| ensures Abs(rows[k][0].cy - Last(rows[k - 1]).cy) > gap {
      assert rows[k - 1] == prev[k - 1];
      if k < |prev| {
        assert rows[k] == prev[k];
      }
    }
  }

  /** A new row starts more than `gap` away from the last blob of the row before it. */
  lemma {:induction false} RowsApart(blobs: seq<Blob>, gap: int)
    requires blobs != []
    ensures FarApart(Rows(blobs, gap), gap)
    decreases |blobs|
  {
    if |blobs| > 1 {
      var init := blobs[..|blobs| - 1];
      var prev := Rows(init, gap);
      var b := Last(blobs);
      RowsApart(init, gap);
      if Abs(b.cy - Last(Last(prev)).cy) <= gap {
        ApartJoin(prev, b, gap);
      } else {
        ApartNew(prev, b, gap);
      }
    }
  }

  /** One blob of the clustering loop, in terms of the row function. */
  lemma RowsStep(blobs: seq<Blob>, i: nat, gap: int, rows: seq<seq<Blob>>, currentRow: seq<Blob>)
    requires 1 <= i < |blobs| && currentRow != []
    requires rows + [currentRow] == Rows(blobs[..i], gap)
    ensures Abs(blobs[i].cy - Last(currentRow).cy) <= gap ==>
      rows + [currentRow + [blobs[i]]] == Rows(blobs[..i + 1], gap)
    ensures Abs(blobs[i].cy - Last(currentRow).cy) > gap ==>
      (rows + [currentRow]) + [[blobs[i]]] == Rows(blobs[..i + 1], gap)
  {
    var prefix := blobs[..i + 1];
    assert prefix[..|prefix| - 1] == blobs[..i];
    assert Last(prefix) == blobs[i];
    var prev := rows + [currentRow];
    assert Last(prev) == currentRow;
    assert prev[..|prev| - 1] == rows;
  }

  /** Lines 46-54: grow the current row, or close it and start a new one. */
  method ClusterRows(blobs: seq<Blob>, gap: int) returns (rows: seq<seq<Blob>>)
    requires blobs != []
    ensures rows == Rows(blobs, gap)
  {
    rows := [];
    var currentRow := [blobs[0]];
    var i := 1;
    assert rows + [currentRow] == Rows(blobs[..1], gap);
    while i < |blobs|
      invariant 1 <= i <= |blobs| && currentRow != []
      invariant rows + [currentRow] == Rows(blobs[..i], gap)
    {
      var b := blobs[i];
      RowsStep(blobs, i, gap, rows, currentRow);
      if Abs(b.cy - currentRow[|currentRow| - 1].cy) <= gap {
        currentRow := currentRow + [b];
      } else {
        rows := rows + [currentRow];
        currentRow := [b];
      }
      i := i + 1;
    }
    assert blobs[..i] == blobs;
    rows := rows + [currentRow];
  }

  // ---------------------------------------------------------------------
  // Choice in a row

  const Options: string := "ABCDEFGHIJKLMNOPQRSTUVWXYZ"

  /** The letter of x-rank `pos`; ranks past the alphabet get its last letter. */
  function OptionAt(pos: nat): (c: char)
    ensures 'A' <= c <= 'Z'
    ensures pos < 26 ==> c as int == 'A' as int + pos
    ensures pos >= 26 ==> c == 'Z'
  {
    if pos < |Options| then Options[pos] else Options[|Options| - 1]
  }

  /** The entry for a non-empty row: its largest blob (the first one, left to right) and its letter. */
  function RowAnswer(question: nat, row: seq<Blob>, minArea: int): McqAnswer
    requires row != []
  {
    var rowSorted := SortBy(row, Cx);
    var best := rowSorted[ArgMaxBy(rowSorted, Area)];
    var selected := if best.area < minArea as real * 1.2 then '?' else OptionAt(IndexOf(rowSorted, best));
    McqAnswer(question, selected, best.cx, best.cy, best.area)
  }

  /**
    `row_sorted.index(best_blob)` finds the largest blob itself: an equal
    record earlier in the row would have the same area, and the maximum is
    the first of its area.
   */
  lemma IndexOfBest(rowSorted: seq<Blob>)
    requires rowSorted != []
    ensures IndexOf(rowSorted, rowSorted[ArgMaxBy(rowSorted, Area)]) == ArgMaxBy(rowSorted, Area)
  {
  }

  /**
    The row's letter: '?' iff its largest area is below 1.2 times the minimum
    area; otherwise the letter of the largest blob's rank from the left.
   */
  lemma RowAnswerSpec(question: nat, row: seq<Blob>, minArea: int)
    requires row != []
    ensures var a := RowAnswer(question, row, minArea); var rowSorted := SortBy(row, Cx);
      && a.question == question
      && (exists b :: b in row && b.area == a.area && b.cx == a.cx && b.cy == a.cy)
      && (forall b :: b in row ==> b.area <= a.area)
      && (a.selected == '?' <==> a.area < minArea as real * 1.2)
      && (a.selected != '?' ==> a.selected == OptionAt(ArgMaxBy(rowSorted, Area)))
      && (a.selected == '?' || 'A' <= a.selected <= 'Z')
  {
    var rowSorted := SortBy(row, Cx);
    var i := ArgMaxBy(rowSorted, Area);
    var best := rowSorted[i];
    IndexOfBest(rowSorted);
    assert multiset(rowSorted) == multiset(row);
    assert best in multiset(row);
    forall b | b in row ensures b.area <= best.area {
      assert b in multiset(rowSorted);
      var k :| 0 <= k < |rowSorted| && rowSorted[k] == b;
      assert Area(rowSorted[k]) <= Area(best);
    }
  }

  /** The entries for `rows`, numbered 1, 2, ... from the top. */
  function RowAnswers(rows: seq<seq<Blob>>, minArea: int): (r: seq<McqAnswer>)
    requires forall k :: 0 <= k < |rows| ==> rows[k] != []
    ensures |r| == |rows|
    ensures forall k :: 0 <= k < |r| ==> r[k].question == k + 1
  {
    seq(|rows|, k requires 0 <= k < |rows| => RowAnswer(k + 1, rows[k], minArea))
  }

  lemma RowAnswersAt(rows: seq<seq<Blob>>, minArea: int, k: nat)
    requires forall j :: 0 <= j < |rows| ==> rows[j] != []
    requires k < |rows|
    ensures RowAnswers(rows, minArea)[k] == RowAnswer(k + 1, rows[k], minArea)
  {
  }

  /** The blobs in the area bounds, ordered by vertical centre (a stable sort). */
  function SortedBlobs(contours: seq<Blob>, w: nat, h: nat): seq<Blob> {
    SortBy(Filter(contours, InAreaBounds(MinArea(w, h), MaxArea(w, h))), Cy)
  }

  function DetectedAnswers(contours: seq<Blob>, w: nat, h: nat): seq<McqAnswer> {
    var blobs := SortedBlobs(contours, w, h);
    if blobs == [] then [] else RowAnswers(Rows(blobs, RowGap(h)), MinArea(w, h))
  }

  /** No blob in the bounds, no answer; otherwise one entry per row. */
  lemma DetectedCount(contours: seq<Blob>, w: nat, h: nat)
    ensures Filter(contours, InAreaBounds(MinArea(w, h), MaxArea(w, h))) == [] <==> DetectedAnswers(contours, w, h) == []
    ensures SortedBlobs(contours, w, h) != [] ==>
      |DetectedAnswers(contours, w, h)| == |Rows(SortedBlobs(contours, w, h), RowGap(h))|
  {
    var kept := Filter(contours, InAreaBounds(MinArea(w, h), MaxArea(w, h)));
    assert |SortBy(kept, Cy)| == |kept|;
  }

  /** Every entry has its row's number and a letter or '?'. */
  lemma DetectedEntries(contours: seq<Blob>, w: nat, h: nat, k: nat)
    requires k < |DetectedAnswers(contours, w, h)|
    ensures var a := DetectedAnswers(contours, w, h)[k];
      a.question == k + 1 && (a.selected == '?' || 'A' <= a.selected <= 'Z')
      && (a.selected == '?' <==> a.area < MinArea(w, h) as real * 1.2)
  {
    var blobs := SortedBlobs(contours, w, h);
    var rows := Rows(blobs, RowGap(h));
    RowAnswersAt(rows, MinArea(w, h), k);
    RowAnswerSpec(k + 1, rows[k], MinArea(w, h));
  }

  /** Lines 58-83 for one row: sort by x, take the first largest blob, pick its letter. */
  method AnswerRow(question: nat, row: seq<Blob>, minArea: int) returns (answer: McqAnswer)
    requires row != []
    ensures answer == RowAnswer(question, row, minArea)
  {
    var rowSorted := SortBy(row, Cx);
    var bestBlob := rowSorted[ArgMaxBy(rowSorted, Area)];
    var selected: char;
    if bestBlob.area < minArea as real * 1.2 {
      selected := '?';
    } else {
      var pos := IndexOf(rowSorted, bestBlob);
      selected := if pos < |Options| then Options[pos] else Options[|Options| - 1];
    }
    answer := McqAnswer(question, selected, bestBlob.cx, bestBlob.cy, bestBlob.area);
  }

  lemma RowAnswersSnoc(rows: seq<seq<Blob>>, minArea: int, k: nat)
    requires forall j :: 0 <= j < |rows| ==> rows[j] != []
    requires k < |rows|
    ensures RowAnswers(rows[..k + 1], minArea) == RowAnswers(rows[..k], minArea) + [RowAnswer(k + 1, rows[k], minArea)]
  {
    assert rows[..k + 1][..k] == rows[..k] && rows[..k + 1][k] == rows[k];
  }

  /** Lines 56-83: one entry per row, numbered from 1. */
  method AnswerRows(rows: seq<seq<Blob>>, minArea: int) returns (results: seq<McqAnswer>)
    requires forall k :: 0 <= k < |rows| ==> rows[k] != []
    ensures results == RowAnswers(rows, minArea)
  {
    results := [];
    var qIndex := 1;
    var k := 0;
    while k < |rows|
      invariant 0 <= k <= |rows| && qIndex == k + 1
      invariant results == RowAnswers(rows[..k], minArea)
    {
      var answer := AnswerRow(qIndex, rows[k], minArea);
      RowAnswersSnoc(rows, minArea, k);
      results := results + [answer];
      qIndex := qIndex + 1;
      k := k + 1;
    }
    assert rows[..k] == rows;
  }

  /** The whole heuristic on measured contours of a `w` by `h` block. */
  method DetectMcqAnswers(contours: seq<Blob>, w: nat, h: nat) returns (results: seq<McqAnswer>)
    ensures results == DetectedAnswers(contours, w, h)
  {
    var minArea := MinArea(w, h);
    var maxArea := MaxArea(w, h);
    var blobs := KeepBlobs(contours, minArea, maxArea);
    if blobs == [] {
      return [];
    }
    blobs := SortBy(blobs, Cy);
    var rows := ClusterRows(blobs, RowGap(h));
    results := AnswerRows(rows, minArea);
  }
}
