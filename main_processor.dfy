/**
  The page aggregation of backend/ocr_llm/main_processor.py: splitting the
  cleaner's outputs into OCR and MCQ image lists, numbering the MCQ answers of
  all pages, and assembling the text handed to the language model for marking.
 */
module MainProcessor {
  import opened Seqs
  import opened Text

  // ---------------------------------------------------------------------------
  // normalize_cleaned_outputs
  // ---------------------------------------------------------------------------

  /** An element of a list or tuple item: a Python `str`, or any other value (None, a number, ...). */
  datatype Element = StrElement(s: string) | OtherElement

  /** One entry of `cleaned_images`: a path string, a list/tuple, or a value of another type. */
  datatype CleanedItem = PathItem(path: string) | SeqItem(elements: seq<Element>) | OtherItem

  /** Element `k` exists and is a non-empty string. */
  predicate IsPathAt(es: seq<Element>, k: nat) {
    k < |es| && es[k].StrElement? && es[k].s != ""
  }

  /** What one item contributes to `ocr_images`. */
  function OcrPart(item: CleanedItem): (r: seq<string>)
    ensures |r| <= 1
  {
    match item
    case PathItem(p) => [p]
    case SeqItem(es) => if IsPathAt(es, 0) then [es[0].s] else []
    case OtherItem => []
  }

  /** What one item contributes to `mcq_images`. */
  function McqPart(item: CleanedItem): (r: seq<string>)
    ensures |r| <= 1
  {
    match item
    case SeqItem(es) => if IsPathAt(es, 1) then [es[1].s] else []
    case _ => []
  }

  function OcrImages(items: seq<CleanedItem>): (r: seq<string>)
    ensures |r| <= |items|
  {
    if items == [] then [] else OcrImages(items[..|items| - 1]) + OcrPart(items[|items| - 1])
  }

  function McqImages(items: seq<CleanedItem>): (r: seq<string>)
    ensures |r| <= |items|
  {
    if items == [] then [] else McqImages(items[..|items| - 1]) + McqPart(items[|items| - 1])
  }

  method NormalizeCleanedOutputs(cleanedImages: seq<CleanedItem>) returns (ocrImages: seq<string>, mcqImages: seq<string>)
    ensures ocrImages == OcrImages(cleanedImages) && mcqImages == McqImages(cleanedImages)
    ensures |ocrImages| <= |cleanedImages| && |mcqImages| <= |cleanedImages|
  {
    ocrImages := [];
    mcqImages := [];
    var i := 0;
    while i < |cleanedImages|
      invariant 0 <= i <= |cleanedImages|
      invariant ocrImages == OcrImages(cleanedImages[..i])
      invariant mcqImages == McqImages(cleanedImages[..i])
    {
      var item := cleanedImages[i];
      match item {
        case SeqItem(es) =>
          if |es| > 0 && es[0].StrElement? && es[0].s != "" {
            ocrImages := ocrImages + [es[0].s];
          }
          if |es| > 1 && es[1].StrElement? && es[1].s != "" {
            mcqImages := mcqImages + [es[1].s];
          }
        case PathItem(p) =>
          ocrImages := ocrImages + [p];
        case OtherItem =>
      }
      assert cleanedImages[..i + 1][..i] == cleanedImages[..i];
      i := i + 1;
    }
    assert cleanedImages[..i] == cleanedImages;
  }

  /** Both lists are built item by item, so they keep the input order. */
  lemma {:induction false} OcrImagesAppend(a: seq<CleanedItem>, b: seq<CleanedItem>)
    ensures OcrImages(a + b) == OcrImages(a) + OcrImages(b)
    ensures McqImages(a + b) == McqImages(a) + McqImages(b)
    decreases |b|
  {
    if b != [] {
      var b' := b[..|b| - 1];
      assert (a + b)[..|a + b| - 1] == a + b';
      assert (a + b)[|a + b| - 1] == b[|b| - 1];
      OcrImagesAppend(a, b');
    } else {
      assert a + b == a;
    }
  }

  /** A path reaches `ocr_images` exactly when it is a string item or the non-empty first element of a list item. */
  lemma {:induction false} InOcrImages(items: seq<CleanedItem>, p: string)
    ensures p in OcrImages(items) <==>
      exists i :: 0 <= i < |items| &&
        (items[i] == PathItem(p) ||
         (items[i].SeqItem? && IsPathAt(items[i].elements, 0) && items[i].elements[0].s == p))
    decreases |items|
  {
    if items != [] {
      var init := items[..|items| - 1];
      InOcrImages(init, p);
      forall i | 0 <= i < |init| ensures init[i] == items[i] { }
    }
  }

  /** A path reaches `mcq_images` exactly when it is the non-empty second element of a list item. */
  lemma {:induction false} InMcqImages(items: seq<CleanedItem>, p: string)
    ensures p in McqImages(items) <==>
      exists i :: 0 <= i < |items| &&
        items[i].SeqItem? && IsPathAt(items[i].elements, 1) && items[i].elements[1].s == p
    decreases |items|
  {
    if items != [] {
      var init := items[..|items| - 1];
      InMcqImages(init, p);
      forall i | 0 <= i < |init| ensures init[i] == items[i] { }
    }
  }

  // ---------------------------------------------------------------------------
  // format_mcq_answers
  // ---------------------------------------------------------------------------

  /** The `selected` entry of a detector result dict: a string, or `Missing` when the key is absent or holds a non-string. */
  datatype Selected = Missing | Chosen(value: string)

  datatype McqResult = McqResult(selected: Selected)

  const Choices: seq<string> := ["A", "B", "C", "D"]

  /** One of the four letters, tested character-wise. */
  predicate IsChoice(s: string) {
    |s| == 1 && 'A' <= s[0] <= 'D'
  }

  lemma IsChoiceIff(s: string)
    ensures IsChoice(s) <==> s in Choices
  {
    if IsChoice(s) {
      assert s == [s[0]];
    }
  }

  /** The answer written for a result: its `selected` when that is A-D, '?' otherwise. */
  function NormalizeSelected(selected: Selected): string {
    if selected.Chosen? && IsChoice(selected.value) then selected.value else "?"
  }

  /** A-D pass through unchanged; anything else, or a missing value, becomes '?'. */
  lemma NormalizeSelectedSpec(selected: Selected)
    ensures NormalizeSelected(selected) in Choices + ["?"]
    ensures selected.Chosen? && selected.value in Choices ==> NormalizeSelected(selected) == selected.value
    ensures !(selected.Chosen? && selected.value in Choices) ==> NormalizeSelected(selected) == "?"
  {
    if selected.Chosen? {
      IsChoiceIff(selected.value);
    }
  }

  /** One line of the MCQ block; an answer line keeps the raw `selected` and is normalised when rendered. */
  datatype McqLine = PageHeader(page: nat) | AnswerLine(number: nat, selected: Selected)

  /** The number of results on all pages. */
  function Total(pages: seq<seq<McqResult>>): nat {
    if pages == [] then 0 else |pages[0]| + Total(pages[1..])
  }

  /** The results of all pages, in order. */
  function Flatten(pages: seq<seq<McqResult>>): (r: seq<McqResult>)
    ensures |r| == Total(pages)
  {
    if pages == [] then [] else pages[0] + Flatten(pages[1..])
  }

  /** The answer lines of the results of one page, numbered from `first`. */
  function AnswerLines(first: nat, results: seq<McqResult>): (r: seq<McqLine>)
    ensures |r| == |results|
    decreases |results|
  {
    if results == [] then []
    else [AnswerLine(first, results[0].selected)] + AnswerLines(first + 1, results[1..])
  }

  lemma {:induction false} AnswerLinesAt(first: nat, results: seq<McqResult>)
    ensures forall k :: 0 <= k < |results| ==>
      AnswerLines(first, results)[k] == AnswerLine(first + k, results[k].selected)
    decreases |results|
  {
    if results != [] {
      AnswerLinesAt(first + 1, results[1..]);
    }
  }

  /** A non-empty page: its header, with the 1-based page index, then its answers. */
  function PageLines(pageNo: nat, first: nat, page: seq<McqResult>): seq<McqLine> {
    if page == [] then [] else [PageHeader(pageNo)] + AnswerLines(first, page)
  }

  /** The lines for `pages`, the first of which has index `pageNo` and starts at answer number `first`. */
  function McqLinesFrom(pages: seq<seq<McqResult>>, pageNo: nat, first: nat): seq<McqLine> {
    if pages == [] then []
    else PageLines(pageNo, first, pages[0]) + McqLinesFrom(pages[1..], pageNo + 1, first + |pages[0]|)
  }

  /** The lines of the block: pages numbered from 1, answers numbered globally from 1. */
  function McqLines(pages: seq<seq<McqResult>>): seq<McqLine> {
    McqLinesFrom(pages, 1, 1)
  }

  function RenderLine(line: McqLine): (r: string)
    ensures r != []
  {
    match line
    case PageHeader(p) => "--- MCQ Page " + NatToString(p) + " ---"
    case AnswerLine(n, sel) => "Q" + NatToString(n) + ": " + NormalizeSelected(sel)
  }

  function RenderLines(lines: seq<McqLine>): (r: seq<string>)
    ensures |r| == |lines|
  {
    if lines == [] then [] else [RenderLine(lines[0])] + RenderLines(lines[1..])
  }

  lemma {:induction false} RenderLinesNonEmpty(lines: seq<McqLine>)
    ensures forall i :: 0 <= i < |lines| ==> RenderLines(lines)[i] != []
    decreases |lines|
  {
    if lines != [] {
      RenderLinesNonEmpty(lines[1..]);
    }
  }

  lemma {:induction false} RenderLinesAppend(a: seq<McqLine>, b: seq<McqLine>)
    ensures RenderLines(a + b) == RenderLines(a) + RenderLines(b)
    decreases |a|
  {
    if a == [] {
      assert a + b == b;
    } else {
      assert (a + b)[1..] == a[1..] + b;
      RenderLinesAppend(a[1..], b);
    }
  }

  /** What is left to render once pages before `p` are done: page `p` and the pages after it. */
  lemma RestOfPages(pages: seq<seq<McqResult>>, p: nat, first: nat)
    requires p < |pages|
    ensures RenderLines(McqLinesFrom(pages[p..], p + 1, first)) ==
      RenderLines(PageLines(p + 1, first, pages[p])) +
      RenderLines(McqLinesFrom(pages[p + 1..], p + 2, first + |pages[p]|))
  {
    LinesFromSlice(pages, p, first);
    RenderLinesAppend(PageLines(p + 1, first, pages[p]), McqLinesFrom(pages[p + 1..], p + 2, first + |pages[p]|));
  }

  lemma LinesFromSlice(pages: seq<seq<McqResult>>, p: nat, first: nat)
    requires p < |pages|
    ensures McqLinesFrom(pages[p..], p + 1, first) ==
      PageLines(p + 1, first, pages[p]) + McqLinesFrom(pages[p + 1..], p + 2, first + |pages[p]|)
  {
    assert pages[p..][0] == pages[p] && pages[p..][1..] == pages[p + 1..];
  }

  /** What is left of a page once results before `j` are done. */
  lemma RestOfPage(first: nat, page: seq<McqResult>, j: nat)
    requires j < |page|
    ensures RenderLines(AnswerLines(first, page[j..])) ==
      [RenderLine(AnswerLine(first, page[j].selected))] + RenderLines(AnswerLines(first + 1, page[j + 1..]))
  {
    assert page[j..][1..] == page[j + 1..];
  }

  lemma PageHeaderLine(pageNo: nat, first: nat, page: seq<McqResult>)
    requires page != []
    ensures RenderLines(PageLines(pageNo, first, page)) == [RenderLine(PageHeader(pageNo))] + RenderLines(AnswerLines(first, page))
  {
    assert ([PageHeader(pageNo)] + AnswerLines(first, page))[1..] == AnswerLines(first, page);
  }

  lemma ShiftConcat<T>(a: seq<T>, x: seq<T>, b: seq<T>, c: seq<T>)
    ensures a + (x + b) + c == (a + x) + b + c
  {
  }

  /** One answer line appended: the invariant of the inner loop moves one result forward. */
  lemma AnswerStep(all: seq<string>, lines: seq<string>, line: string, first: nat, page: seq<McqResult>, j: nat, rest: seq<string>)
    requires j < |page|
    requires all == lines + RenderLines(AnswerLines(first, page[j..])) + rest
    requires line == RenderLine(AnswerLine(first, page[j].selected))
    ensures all == (lines + [line]) + RenderLines(AnswerLines(first + 1, page[j + 1..])) + rest
  {
    RestOfPage(first, page, j);
    ShiftConcat(lines, [line], RenderLines(AnswerLines(first + 1, page[j + 1..])), rest);
  }

  /** The inner loop of `format_mcq_answers`: one `Q<n>: <answer>` line per result of a page. */
  method AppendPageAnswers(lines: seq<string>, first: nat, pageRes: seq<McqResult>) returns (out: seq<string>, next: nat)
    ensures out == lines + RenderLines(AnswerLines(first, pageRes))
    ensures next == first + |pageRes|
  {
    ghost var all := lines + RenderLines(AnswerLines(first, pageRes));
    out := lines;
    next := first;
    var j := 0;
    assert pageRes[0..] == pageRes;
    assert all == out + RenderLines(AnswerLines(next, pageRes[j..])) + [];
    while j < |pageRes|
      invariant 0 <= j <= |pageRes|
      invariant next == first + j
      invariant all == out + RenderLines(AnswerLines(next, pageRes[j..])) + []
    {
      var sel := if pageRes[j].selected.Chosen? then pageRes[j].selected.value else "?";
      IsChoiceIff(sel);
      if sel !in Choices {
        sel := "?";
      }
      var line := "Q" + NatToString(next) + ": " + sel;
      assert line == RenderLine(AnswerLine(next, pageRes[j].selected));
      AnswerStep(all, out, line, next, pageRes, j, []);
      out := out + [line];
      next := next + 1;
      j := j + 1;
    }
    assert pageRes[j..] == [];
    assert out + [] + [] == out;
  }

  /** One page rendered: the invariant of the outer loop moves one page forward. */
  lemma PageStep(all: seq<string>, lines: seq<string>, pages: seq<seq<McqResult>>, p: nat, first: nat,
                 next: seq<string>, nextFirst: nat)
    requires p < |pages|
    requires all == lines + RenderLines(McqLinesFrom(pages[p..], p + 1, first))
    requires next == lines + RenderLines(PageLines(p + 1, first, pages[p]))
    requires nextFirst == first + |pages[p]|
    ensures all == next + RenderLines(McqLinesFrom(pages[p + 1..], p + 1 + 1, nextFirst))
  {
    RestOfPages(pages, p, first);
    AppendAssoc(lines, RenderLines(PageLines(p + 1, first, pages[p])),
      RenderLines(McqLinesFrom(pages[p + 1..], p + 2, first + |pages[p]|)));
  }


  /** The header of a non-empty page followed by its answers is what the page renders to. */
  lemma PageRendered(lines: seq<string>, header: string, pageNo: nat, first: nat, page: seq<McqResult>)
    requires page != []
    requires header == RenderLine(PageHeader(pageNo))
    ensures lines + [header] + RenderLines(AnswerLines(first, page)) == lines + RenderLines(PageLines(pageNo, first, page))
  {
    PageHeaderLine(pageNo, first, page);
  }

  /** Lines 48-57 for one page: nothing when it is empty, otherwise its header and its answer lines. */
  method AppendPage(lines: seq<string>, pageNo: nat, first: nat, pageRes: seq<McqResult>)
    returns (out: seq<string>, next: nat)
    ensures out == lines + RenderLines(PageLines(pageNo, first, pageRes))
    ensures next == first + |pageRes|
  {
    if pageRes == [] {
      assert RenderLines(PageLines(pageNo, first, pageRes)) == [];
      return lines, first;
    }
    var header := "--- MCQ Page " + NatToString(pageNo) + " ---";
    PageRendered(lines, header, pageNo, first, pageRes);
    out, next := AppendPageAnswers(lines + [header], first, pageRes);
  }

  method FormatMcqAnswers(mcqResultsAll: seq<seq<McqResult>>) returns (text: string)
    ensures text == Join(RenderLines(McqLines(mcqResultsAll)), "\n")
  {
    ghost var all := RenderLines(McqLines(mcqResultsAll));
    var lines: seq<string> := [];
    var qGlobal: nat := 1;
    var pageIdx := 0;
    assert mcqResultsAll[0..] == mcqResultsAll;
    while pageIdx < |mcqResultsAll|
      invariant 0 <= pageIdx <= |mcqResultsAll|
      invariant all == lines + RenderLines(McqLinesFrom(mcqResultsAll[pageIdx..], pageIdx + 1, qGlobal))
    {
      ghost var before := lines;
      ghost var q0 := qGlobal;
      lines, qGlobal := AppendPage(lines, pageIdx + 1, qGlobal, mcqResultsAll[pageIdx]);
      PageStep(all, before, mcqResultsAll, pageIdx, q0, lines, qGlobal);
      pageIdx := pageIdx + 1;
    }
    assert all == lines by {
      assert mcqResultsAll[pageIdx..] == [];
      assert lines + [] == lines;
    }
    text := Join(lines, "\n");
  }

  /** The answer lines of a block, in order (the `Q` lines). */
  function AnswerLinesOf(lines: seq<McqLine>): (r: seq<McqLine>)
    ensures |r| <= |lines|
  {
    if lines == [] then []
    else (if lines[0].AnswerLine? then [lines[0]] else []) + AnswerLinesOf(lines[1..])
  }

  lemma {:induction false} AnswerLinesOfAppend(a: seq<McqLine>, b: seq<McqLine>)
    ensures AnswerLinesOf(a + b) == AnswerLinesOf(a) + AnswerLinesOf(b)
    decreases |a|
  {
    if a == [] {
      assert a + b == b;
    } else {
      var head := if a[0].AnswerLine? then [a[0]] else [];
      assert (a + b)[0] == a[0];
      assert (a + b)[1..] == a[1..] + b;
      AnswerLinesOfAppend(a[1..], b);
      calc {
        AnswerLinesOf(a + b);
        head + AnswerLinesOf(a[1..] + b);
        head + (AnswerLinesOf(a[1..]) + AnswerLinesOf(b));
        (head + AnswerLinesOf(a[1..])) + AnswerLinesOf(b);
        AnswerLinesOf(a) + AnswerLinesOf(b);
      }
    }
  }

  lemma {:induction false} AnswerLinesOfAnswers(first: nat, results: seq<McqResult>)
    ensures AnswerLinesOf(AnswerLines(first, results)) == AnswerLines(first, results)
    decreases |results|
  {
    if results != [] {
      var rest := AnswerLines(first + 1, results[1..]);
      assert ([AnswerLine(first, results[0].selected)] + rest)[1..] == rest;
      AnswerLinesOfAnswers(first + 1, results[1..]);
    }
  }

  lemma PageAnswers(pageNo: nat, first: nat, page: seq<McqResult>)
    ensures AnswerLinesOf(PageLines(pageNo, first, page)) == AnswerLines(first, page)
  {
    var answers := AnswerLines(first, page);
    AnswerLinesOfAnswers(first, page);
    if page != [] {
      assert ([PageHeader(pageNo)] + answers)[1..] == answers;
    }
  }

  /** Indexing into the answers of a first page followed by those of the later pages. */
  lemma AnswersConcatAt(a0: seq<McqLine>, a1: seq<McqLine>, page: seq<McqResult>, later: seq<McqResult>, first: nat)
    requires |a0| == |page|
    requires forall k :: 0 <= k < |page| ==> a0[k] == AnswerLine(first + k, page[k].selected)
    requires |a1| == |later|
    requires forall k :: 0 <= k < |later| ==> a1[k] == AnswerLine(first + |page| + k, later[k].selected)
    ensures forall k :: 0 <= k < |page| + |later| ==> (a0 + a1)[k] == AnswerLine(first + k, (page + later)[k].selected)
  {
    forall k | 0 <= k < |page| + |later|
      ensures (a0 + a1)[k] == AnswerLine(first + k, (page + later)[k].selected)
    {
      if k >= |page| {
        assert (a0 + a1)[k] == a1[k - |page|];
        assert (page + later)[k] == later[k - |page|];
      }
    }
  }

  lemma {:induction false} McqAnswersNumberedFrom(pages: seq<seq<McqResult>>, pageNo: nat, first: nat)
    ensures |AnswerLinesOf(McqLinesFrom(pages, pageNo, first))| == Total(pages)
    ensures forall k :: 0 <= k < Total(pages) ==>
      AnswerLinesOf(McqLinesFrom(pages, pageNo, first))[k] == AnswerLine(first + k, Flatten(pages)[k].selected)
    decreases |pages|
  {
    if pages != [] {
      var page := pages[0];
      var laterLines := McqLinesFrom(pages[1..], pageNo + 1, first + |page|);
      var a0 := AnswerLines(first, page);
      var a1 := AnswerLinesOf(laterLines);
      McqAnswersNumberedFrom(pages[1..], pageNo + 1, first + |page|);
      assert AnswerLinesOf(McqLinesFrom(pages, pageNo, first)) == a0 + a1 by {
        AnswerLinesOfAppend(PageLines(pageNo, first, page), laterLines);
        PageAnswers(pageNo, first, page);
      }
      AnswerLinesAt(first, page);
      AnswersConcatAt(a0, a1, page, Flatten(pages[1..]), first);
    }
  }

  /**
    The answer lines are numbered 1, 2, ... across all pages, one per result,
    each carrying that result's choice (rendered through `NormalizeSelected`).
   */
  lemma McqAnswersNumbered(pages: seq<seq<McqResult>>)
    ensures |AnswerLinesOf(McqLines(pages))| == Total(pages)
    ensures forall k :: 0 <= k < Total(pages) ==>
      AnswerLinesOf(McqLines(pages))[k] == AnswerLine(k + 1, Flatten(pages)[k].selected)
  {
    McqAnswersNumberedFrom(pages, 1, 1);
  }

  /** The page numbers of the header lines, in order. */
  function HeaderNumbers(lines: seq<McqLine>): seq<nat> {
    if lines == [] then []
    else (if lines[0].PageHeader? then [lines[0].page] else []) + HeaderNumbers(lines[1..])
  }

  lemma {:induction false} HeaderNumbersIn(lines: seq<McqLine>, h: nat)
    ensures PageHeader(h) in lines <==> h in HeaderNumbers(lines)
  {
    if lines != [] {
      HeaderNumbersIn(lines[1..], h);
      assert lines == [lines[0]] + lines[1..];
    }
  }

  lemma {:induction false} HeaderNumbersAppend(a: seq<McqLine>, b: seq<McqLine>)
    ensures HeaderNumbers(a + b) == HeaderNumbers(a) + HeaderNumbers(b)
  {
    if a != [] {
      assert (a + b)[0] == a[0] && (a + b)[1..] == a[1..] + b;
      HeaderNumbersAppend(a[1..], b);
    } else {
      assert a + b == b;
    }
  }

  lemma {:induction false} NoHeaderNumbersInAnswers(first: nat, results: seq<McqResult>)
    ensures HeaderNumbers(AnswerLines(first, results)) == []
    decreases |results|
  {
    if results != [] {
      NoHeaderNumbersInAnswers(first + 1, results[1..]);
    }
  }

  /** The 1-based numbers of the non-empty pages, counting from `pageNo`. */
  function NonEmptyPages(pages: seq<seq<McqResult>>, pageNo: nat): seq<nat> {
    if pages == [] then []
    else (if pages[0] != [] then [pageNo] else []) + NonEmptyPages(pages[1..], pageNo + 1)
  }

  lemma {:induction false} HeaderNumbersOfLines(pages: seq<seq<McqResult>>, pageNo: nat, first: nat)
    ensures HeaderNumbers(McqLinesFrom(pages, pageNo, first)) == NonEmptyPages(pages, pageNo)
    decreases |pages|
  {
    if pages != [] {
      var page := pages[0];
      HeaderNumbersAppend(PageLines(pageNo, first, page), McqLinesFrom(pages[1..], pageNo + 1, first + |page|));
      HeaderNumbersOfLines(pages[1..], pageNo + 1, first + |page|);
      if page != [] {
        var answers := AnswerLines(first, page);
        HeaderNumbersAppend([PageHeader(pageNo)], answers);
        NoHeaderNumbersInAnswers(first, page);
        assert HeaderNumbers([PageHeader(pageNo)]) == [pageNo];
      }
    }
  }

  lemma {:induction false} InNonEmptyPages(pages: seq<seq<McqResult>>, pageNo: nat, h: nat)
    ensures h in NonEmptyPages(pages, pageNo) <==> pageNo <= h < pageNo + |pages| && pages[h - pageNo] != []
    decreases |pages|
  {
    if pages != [] {
      var own: seq<nat> := if pages[0] != [] then [pageNo] else [];
      var rest := NonEmptyPages(pages[1..], pageNo + 1);
      assert NonEmptyPages(pages, pageNo) == own + rest;
      assert h in own + rest <==> h in own || h in rest;
      assert h in own <==> h == pageNo && pages[0] != [];
      InNonEmptyPages(pages[1..], pageNo + 1, h);
      if pageNo < h < pageNo + |pages| {
        assert pages[h - pageNo] == pages[1..][h - (pageNo + 1)];
      }
    }
  }

  lemma McqHeadersFrom(pages: seq<seq<McqResult>>, pageNo: nat, first: nat, h: nat)
    ensures PageHeader(h) in McqLinesFrom(pages, pageNo, first) <==>
      pageNo <= h < pageNo + |pages| && pages[h - pageNo] != []
  {
    HeaderNumbersIn(McqLinesFrom(pages, pageNo, first), h);
    HeaderNumbersOfLines(pages, pageNo, first);
    InNonEmptyPages(pages, pageNo, h);
  }

  /** Page `h` (1-based) gets a header exactly when it has results; empty pages leave gaps. */
  lemma McqHeaders(pages: seq<seq<McqResult>>, h: nat)
    ensures PageHeader(h) in McqLines(pages) <==> 1 <= h <= |pages| && pages[h - 1] != []
  {
    McqHeadersFrom(pages, 1, 1, h);
  }

  lemma {:induction false} McqLinesEmptyIff(pages: seq<seq<McqResult>>, pageNo: nat, first: nat)
    ensures McqLinesFrom(pages, pageNo, first) == [] <==> Total(pages) == 0
    decreases |pages|
  {
    if pages != [] {
      McqLinesEmptyIff(pages[1..], pageNo + 1, first + |pages[0]|);
    }
  }

  /** The block is empty exactly when no page has a result. */
  lemma McqBlockEmptyIff(pages: seq<seq<McqResult>>)
    ensures Join(RenderLines(McqLines(pages)), "\n") == "" <==> Total(pages) == 0
  {
    McqLinesEmptyIff(pages, 1, 1);
    RenderLinesNonEmpty(McqLines(pages));
    JoinEmptyIff(RenderLines(McqLines(pages)), "\n");
  }

  // ---------------------------------------------------------------------------
  // recognized_text
  // ---------------------------------------------------------------------------

  const EssayStart := "=== ESSAY TEXT START ===\n"
  const EssayEnd := "\n=== ESSAY TEXT END ===\n\n"
  const McqStart := "=== MCQ ANSWERS START ===\n"
  const McqEnd := "\n=== MCQ ANSWERS END ===\n\n"

  /** A text that starts with a non-space character survives `strip()` non-empty. */
  lemma NotBlank(s: string)
    requires s != [] && !IsPySpace(s[0])
    ensures PyStrip(s) != ""
  {
    TrimEmptyIff(s, IsPySpace);
  }

  method BuildRecognizedText(essayText: string, mcqBlockText: string) returns (recognizedText: string)
    ensures recognizedText == "" <==> essayText == "" && mcqBlockText == ""
    ensures essayText != "" ==> StartsWith(recognizedText, EssayStart + essayText + EssayEnd)
    ensures mcqBlockText != "" ==> EndsWith(recognizedText, McqStart + mcqBlockText + McqEnd)
    ensures recognizedText ==
      (if essayText == "" then "" else EssayStart + essayText + EssayEnd) +
      (if mcqBlockText == "" then "" else McqStart + mcqBlockText + McqEnd)
  {
    ghost var essayBlock := if essayText == "" then "" else EssayStart + essayText + EssayEnd;
    ghost var mcqBlock := if mcqBlockText == "" then "" else McqStart + mcqBlockText + McqEnd;
    recognizedText := "";
    if essayText != "" {
      recognizedText := recognizedText + (EssayStart + essayText + EssayEnd);
    }
    if mcqBlockText != "" {
      recognizedText := recognizedText + (McqStart + mcqBlockText + McqEnd);
    }
    assert recognizedText == essayBlock + mcqBlock;
    if recognizedText != "" {
      assert recognizedText[0] == '=';
      NotBlank(recognizedText);
    }
    if PyStrip(recognizedText) == "" {
      recognizedText := "";
    }
    ConcatStartsEnds(essayBlock, mcqBlock);
  }
}
