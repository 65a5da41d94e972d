# EduMark answer-sheet post-processing and UI helpers, in Dafny

This project models the parts of the EduMark grading system (VDTune/EduMark)
that turn detector and OCR output into text for the grading model, and the
small pieces of state and logic behind the teacher and student web pages.
It then proves what those parts promise.

Backend (`backend/ocr_llm`):

- **mcq_grader.py** (`McqGrader`): it takes the circles reported by the mark detector and the OCR lines.
  - A question line is recognised by `^(?:Câu\s*)?(\d+)[\.:]`.
  - The question lines are stably sorted by vertical centre.
  - Each question's vertical window is searched for circles, and the most confident circle wins.
  - Its x-ratio picks the column A/B/C/D.
  - The resulting map is formatted in numeric key order for the language model.
- **detect_mcq.py** (`DetectMcq`): the bubble heuristic.
  - Blobs are kept by area bounds.
  - They are clustered into rows by vertical centre.
  - In each row, the largest blob picks a letter by its rank from the left, or '?' when it is too small.
- **main_processor.py** (`MainProcessor`):
  - the OCR and MCQ image lists taken from the cleaning step;
  - the numbered MCQ block ("--- MCQ Page p ---", "Q<n>: <choice>");
  - the `recognized_text` payload.
- **ocr_processor.py** (`OcrProcessor`): the character whitelist and strip of `sanitize_text`.
- **llm_processor.py** (`LlmProcessor`): the code-fence removal and strip of `clean_json_string`.

Frontend:

- `SubmissionDetail`: the carousel index and image URLs.
- `CreateAssignment`: the attachment list.
- `Submissions`: the grade drafts and the grading flags.
- `TeacherClassDetail`: email parsing, the add-student tally and the subject filter.
- `StudentClassDetail`: the submission map, the status and the deadline flags.
- `MySubmissions`: grade colours and badges.
- `ActiveLink`, `StudentNavbar`, `TeacherNavbar`: active-link highlighting.

Shared modules:

- `Seqs`:
  - order-preserving filter and subsequences;
  - the first maximum (Python `max`) and the first index (`list.index`);
  - a stable insertion sort, proved sorted, a permutation and stable (Python `sorted` and `list.sort`).
- `Text`:
  - Python `str.isspace` and JavaScript `trim` whitespace, strip and trim;
  - join, and decimal rendering of naturals;
  - substring containment.
- `Wrappers` (Option); `JsValues` (a grade as the pages receive it).

Where the code loops or mutates, the model does too, using methods with loop invariants and classes with fields. Each such method is proved equal to a specification function. The properties are lemmas about those functions.

The MCQ core works as follows:
- mcq_grader.py uses a single detector (YOLO circles), and picks the answer column from the circle's x position relative to the image width;
- a selection is read as a letter or '?'; there are no multi-mark or blank statuses;
- main_processor.py numbers MCQ answers with one running counter over all pages (lines 46-57), so every result row consumes a number, and pages do not restart the numbering.

## Model

| member | source | states |
|---|---|---|
| McqGrader.CircleOfBox | backend/ocr_llm/mcq_grader.py:46-57 | the centre is equidistant from both box edges and lies between them; bbox and confidence are carried unchanged |
| McqGrader.ColumnBands | backend/ocr_llm/mcq_grader.py:11-16 | the column is always one of A, B, C, D: A iff ratio < 0.35, B iff 0.35 ≤ ratio < 0.55, C iff 0.55 ≤ ratio < 0.75, D iff ratio ≥ 0.75 |
| McqGrader.ColumnMonotone | backend/ocr_llm/mcq_grader.py:119-123 | a larger ratio never yields an earlier column letter |
| McqGrader.SelectColumn | backend/ocr_llm/mcq_grader.py:119-123 | the boundary loop with its early break returns exactly the table's first-match column |
| McqGrader.NonPositiveWidthIsA | backend/ocr_llm/mcq_grader.py:116-117 | a width ≤ 0 gives ratio 0 and so column A |
| McqGrader.MissingWidthIsThousand | backend/ocr_llm/mcq_grader.py:114 | a box without `img_width` is classified as if the width were 1000 |
| McqGrader.CauFormParses | backend/ocr_llm/mcq_grader.py:79-85 | "Câu", any whitespace, the decimal digits of n and ':' parse as question n, whatever follows |
| McqGrader.BareFormParses | backend/ocr_llm/mcq_grader.py:79-85 | digits of n followed by '.' or ':' parse as question n |
| McqGrader.QuestionWordRejected | backend/ocr_llm/mcq_grader.py:77-83 | "Question 2:" is not a question line, although the comment names it |
| McqGrader.MatchedShape | backend/ocr_llm/mcq_grader.py:79-85 | any match is an optional Câu prefix, spaces, a non-empty digit run and '.' or ':', and the number is the digit run's value |
| McqGrader.DigitRunEnd | backend/ocr_llm/mcq_grader.py:79 | `\d+` is the maximal digit run from the position |
| McqGrader.QuestionLinesBy | backend/ocr_llm/mcq_grader.py:81-90 | question lines are never more than the OCR items |
| McqGrader.InQuestionLines | backend/ocr_llm/mcq_grader.py:81-90 | a question line is collected iff some OCR item parses to it |
| McqGrader.FindQuestionLines | backend/ocr_llm/mcq_grader.py:78-90 | the collecting loop returns exactly the parsed question lines in OCR order |
| McqGrader.CandidatesSpec | backend/ocr_llm/mcq_grader.py:109 | a circle is a candidate iff it is in the input and strictly inside the window; candidates keep input order |
| McqGrader.AnswerForSpec | backend/ocr_llm/mcq_grader.py:99-125 | no circle iff the window has no candidate; otherwise the chosen circle is the first of maximal confidence and its column is the column of its ratio |
| McqGrader.AnswerOfQuestion | backend/ocr_llm/mcq_grader.py:100-123 | the per-question body finds a circle iff the specification does, and selects its column |
| McqGrader.AnswersFrom | backend/ocr_llm/mcq_grader.py:95 | one answer per remaining question |
| McqGrader.AnswersOf | backend/ocr_llm/mcq_grader.py:95 | one answer per question |
| McqGrader.AnswersOfAt | backend/ocr_llm/mcq_grader.py:95-123 | the j-th answer is the answer for question j |
| McqGrader.MappedKeys | backend/ocr_llm/mcq_grader.py:125 | a number is a key iff some question with that number found a circle |
| McqGrader.MappedValues | backend/ocr_llm/mcq_grader.py:125 | each value is the column of some question with that number that found a circle |
| McqGrader.LastDuplicateWins | backend/ocr_llm/mcq_grader.py:125 | with repeated question numbers the last one that found a circle decides the value |
| McqGrader.MappedAnswersSpec | backend/ocr_llm/mcq_grader.py:92-127 | on the sorted question lines, a key is present iff such a question's window has candidates, and every value is in A..D |
| McqGrader.MapQuestions | backend/ocr_llm/mcq_grader.py:95-125 | the mapping loop builds exactly the specified map, and every value it writes is one of the column letters |
| McqGrader.MapOcrToYolo | backend/ocr_llm/mcq_grader.py:60-127 | collect, stable sort by y-centre, map: the result is the specified mapping |
| McqGrader.MinBelow | backend/ocr_llm/mcq_grader.py:136 | a set of naturals with an element below n has a least element |
| McqGrader.SortedKeys | backend/ocr_llm/mcq_grader.py:135-136 | the keys in strictly increasing numeric order, each exactly once |
| McqGrader.SortKeys | backend/ocr_llm/mcq_grader.py:136 | the selection loop returns the keys in numeric order |
| McqGrader.KeyLines | backend/ocr_llm/mcq_grader.py:137-138 | one "Câu k: v" line per key, in key order |
| McqGrader.LlmLines | backend/ocr_llm/mcq_grader.py:134-138 | the header, then the i-th key's line at position i |
| McqGrader.AppendKeyLines | backend/ocr_llm/mcq_grader.py:134-138 | the appending loop yields the header followed by the key lines |
| McqGrader.FormatForLlm | backend/ocr_llm/mcq_grader.py:129-140 | an empty map gives ""; otherwise the lines joined by newlines |
| McqGrader.LlmTextEmptyIff | backend/ocr_llm/mcq_grader.py:131-140 | a non-empty map never gives the empty text |
| DetectMcq.MinArea | backend/ocr_llm/detect_mcq.py:28 | the minimum area is at least 30 and at least w·h // 10000, and equals one of them |
| DetectMcq.KeepBlobs | backend/ocr_llm/detect_mcq.py:30-39 | the kept blobs are the contours in the area bounds, in input order; a blob is kept iff min ≤ area ≤ max |
| DetectMcq.RowGap | backend/ocr_llm/detect_mcq.py:49 | the row gap is never below 15 |
| DetectMcq.Rows | backend/ocr_llm/detect_mcq.py:46-54 | there is at least one row, no row is empty, and the last blob ends the last row |
| DetectMcq.RowsPartition | backend/ocr_llm/detect_mcq.py:46-54 | concatenating the rows gives back the sorted blobs |
| DetectMcq.RowsClose | backend/ocr_llm/detect_mcq.py:49-50 | neighbours within a row are at most the gap apart vertically |
| DetectMcq.RowsApart | backend/ocr_llm/detect_mcq.py:49-53 | each row starts more than the gap away from the previous row's last blob |
| DetectMcq.ClusterRows | backend/ocr_llm/detect_mcq.py:46-54 | the clustering loop produces exactly these rows |
| DetectMcq.OptionAt | backend/ocr_llm/detect_mcq.py:60-74 | rank p < 26 gives the p-th letter, larger ranks give 'Z'; always A..Z |
| DetectMcq.IndexOfBest | backend/ocr_llm/detect_mcq.py:68-73 | `row_sorted.index(best_blob)` is the position of the first largest blob |
| DetectMcq.RowAnswerSpec | backend/ocr_llm/detect_mcq.py:58-82 | the entry reports a blob of the row with the largest area; '?' iff that area < 1.2·min_area; otherwise the letter of its x-rank |
| DetectMcq.RowAnswers | backend/ocr_llm/detect_mcq.py:56-83 | one entry per row, numbered 1, 2, … from the top |
| DetectMcq.DetectedCount | backend/ocr_llm/detect_mcq.py:41-42 | no blob in bounds iff no entry; otherwise one entry per row |
| DetectMcq.DetectedEntries | backend/ocr_llm/detect_mcq.py:56-83 | entry k is question k+1 with a letter A..Z or '?', and '?' iff its area < 1.2·min_area |
| DetectMcq.AnswerRow | backend/ocr_llm/detect_mcq.py:59-82 | the per-row body computes the specified entry |
| DetectMcq.AnswerRows | backend/ocr_llm/detect_mcq.py:56-83 | the row loop with its counter produces the numbered entries |
| DetectMcq.DetectMcqAnswers | backend/ocr_llm/detect_mcq.py:26-83 | filter, sort by cy, cluster, answer: the result is the specified detection |
| Seqs.SortBy | backend/ocr_llm/mcq_grader.py:92 | the sort returns a sorted permutation of its input |
| Seqs.SortByStable | backend/ocr_llm/detect_mcq.py:45 | elements of equal key keep their input order |
| Seqs.ArgMaxBy | backend/ocr_llm/mcq_grader.py:112 | `max` picks a maximal element, with every earlier element strictly smaller |
| Seqs.IndexOf | backend/ocr_llm/detect_mcq.py:73 | `list.index` gives the first position holding the value |
| MainProcessor.NormalizeCleanedOutputs | backend/ocr_llm/main_processor.py:17-37 | the loop returns the specified OCR and MCQ lists, neither longer than the input |
| MainProcessor.OcrImagesAppend | backend/ocr_llm/main_processor.py:26-34 | both lists are built item by item, preserving input order |
| MainProcessor.InOcrImages | backend/ocr_llm/main_processor.py:27-34 | a path is an OCR image iff it is a bare string item (even an empty one) or the non-empty string first element of a list item |
| MainProcessor.InMcqImages | backend/ocr_llm/main_processor.py:27-32 | a path is an MCQ image iff it is the non-empty string second element of a list item |
| MainProcessor.IsChoiceIff | backend/ocr_llm/main_processor.py:54 | the choice test is membership in A, B, C, D |
| MainProcessor.NormalizeSelectedSpec | backend/ocr_llm/main_processor.py:52-55 | the printed choice is the selection when it is one of A..D, and '?' otherwise (missing or unknown) |
| MainProcessor.AppendPageAnswers | backend/ocr_llm/main_processor.py:51-57 | the inner loop appends one answer line per result and advances the counter by the page's length |
| MainProcessor.AppendPage | backend/ocr_llm/main_processor.py:48-57 | an empty page adds nothing and keeps the counter; any other page adds its header and then its answer lines, and advances the counter by its length |
| MainProcessor.FormatMcqAnswers | backend/ocr_llm/main_processor.py:39-58 | the loop's text is the specified block of page headers and numbered answers, newline-joined |
| MainProcessor.McqAnswersNumbered | backend/ocr_llm/main_processor.py:46-57 | over all pages, the k-th answer line is "Q(k+1)" with the k-th result's choice: numbering runs across pages |
| MainProcessor.McqHeaders | backend/ocr_llm/main_processor.py:47-50 | a page header h appears iff page h exists and is non-empty |
| MainProcessor.McqBlockEmptyIff | backend/ocr_llm/main_processor.py:45-58 | the block is empty iff there is no result on any page |
| MainProcessor.BuildRecognizedText | backend/ocr_llm/main_processor.py:101-108 | empty iff both parts are empty; the essay section leads and the MCQ section ends the payload when present |
| OcrProcessor.SanitizeText | backend/ocr_llm/ocr_processor.py:117-122 | the result is never longer than the input |
| OcrProcessor.SanitizeTextKeepsWhitelist | backend/ocr_llm/ocr_processor.py:121 | every remaining character is in the whitelist |
| OcrProcessor.SanitizeTextIsSubseq | backend/ocr_llm/ocr_processor.py:121-122 | the result is a subsequence of the input |
| OcrProcessor.SanitizeTextDropsControlWhitespace | backend/ocr_llm/ocr_processor.py:121 | tabs, newlines and carriage returns never survive |
| OcrProcessor.SanitizeTextStripped | backend/ocr_llm/ocr_processor.py:122 | the result neither starts nor ends with whitespace |
| OcrProcessor.SanitizeTextIdempotent | backend/ocr_llm/ocr_processor.py:117-122 | sanitizing twice equals sanitizing once |
| OcrProcessor.SanitizeTextFixpoint | backend/ocr_llm/ocr_processor.py:117-122 | whitelisted, already stripped text is returned unchanged |
| OcrProcessor.OghamSpaceMarkIsWhitelisted | backend/ocr_llm/ocr_processor.py:121-122 | U+1680 lies in the range À-ỹ and is whitespace, so it is kept inside a line and stripped at its ends |
| LlmProcessor.CleanJsonString | backend/ocr_llm/llm_processor.py:44-59 | empty input gives ""; the result never starts or ends with whitespace |
| LlmProcessor.CleanJsonStringWithoutBackticks | backend/ocr_llm/llm_processor.py:53-58 | text without backticks is only stripped |
| LlmProcessor.TrimAppendSpace | backend/ocr_llm/llm_processor.py:58 | a trailing whitespace character does not change the strip |
| LlmProcessor.CleanJsonStringUnwrapsFence | backend/ocr_llm/llm_processor.py:53-58 | a backtick-free body fenced as ```json, then any run of whitespace (newlines included, or none), the body, a newline and ``` comes back as the stripped body |
| SubmissionDetail.MovesStayInRange | teacher/src/pages/SubmissionDetail.jsx:70-80 | with n ≥ 1 images both moves stay in [0, n), wrapping 0 → n-1 and n-1 → 0 |
| SubmissionDetail.MovesAreInverse | teacher/src/pages/SubmissionDetail.jsx:70-80 | next undoes previous and previous undoes next |
| SubmissionDetail.NextTimesCompose | teacher/src/pages/SubmissionDetail.jsx:76-80 | a+b forward moves are a moves followed by b moves |
| SubmissionDetail.FullCircle | teacher/src/pages/SubmissionDetail.jsx:76-80 | n forward moves return to the start |
| SubmissionDetail.ImageCarousel.constructor | teacher/src/pages/SubmissionDetail.jsx:7-17 | before a submission is loaded there are no images, and the index starts at 0 |
| SubmissionDetail.ImageCarousel.SetImages | teacher/src/pages/SubmissionDetail.jsx:17-22 | the images are the submission's `fileUrl` when it is an array and none otherwise; a non-empty list resets the index to 0 and an empty one leaves it |
| SubmissionDetail.ImageCarousel.GoToPrevious | teacher/src/pages/SubmissionDetail.jsx:70-74 | the index becomes its predecessor, wrapping, and the valid range is preserved |
| SubmissionDetail.ImageCarousel.GoToNext | teacher/src/pages/SubmissionDetail.jsx:76-80 | the index becomes its successor, wrapping, and the valid range is preserved |
| SubmissionDetail.ImageCarousel.GoToImage | teacher/src/pages/SubmissionDetail.jsx:82 | the index becomes the given one |
| SubmissionDetail.StripLeadingSlashes | teacher/src/pages/SubmissionDetail.jsx:67 | the result is a suffix of the path, everything removed is '/', and it does not start with '/' |
| SubmissionDetail.GetImageUrl | teacher/src/pages/SubmissionDetail.jsx:64-68 | "" for an empty path, "http…" paths unchanged, otherwise the host followed by the path without its leading slashes |
| SubmissionDetail.LeadingSlashesIgnored | teacher/src/pages/SubmissionDetail.jsx:67 | "/p", "//p" and "p" give the same URL |
| CreateAssignment.AttachmentList.constructor | teacher/src/pages/CreateAssignment.jsx:14 | the list starts empty |
| CreateAssignment.AttachmentList.AddAttachment | teacher/src/pages/CreateAssignment.jsx:53 | an empty link is appended |
| CreateAssignment.AttachmentList.UpdateAttachment | teacher/src/pages/CreateAssignment.jsx:54-58 | the copy written at index i equals the old list with only slot i replaced |
| CreateAssignment.AttachmentList.RemoveAttachment | teacher/src/pages/CreateAssignment.jsx:59 | the list becomes the index filter of the old list |
| CreateAssignment.AddKeepsLinks | teacher/src/pages/CreateAssignment.jsx:53 | adding grows the list by one, the new last link is "", and earlier links are unchanged |
| CreateAssignment.WithoutIndexInRange | teacher/src/pages/CreateAssignment.jsx:59 | removing at a valid index drops exactly that element, keeping the others in order |
| CreateAssignment.WithoutIndexOutOfRange | teacher/src/pages/CreateAssignment.jsx:59 | removing at an out-of-range index changes nothing |
| CreateAssignment.RemoveLength | teacher/src/pages/CreateAssignment.jsx:59 | a valid removal shortens the list by exactly one |
| Submissions.GradeChangeFrame | teacher/src/pages/Submissions.jsx:37-42 | the change sets grades[id][field] and leaves the other fields of id and all other ids as they were |
| Submissions.GradeChangeIdempotent | teacher/src/pages/Submissions.jsx:37-42 | applying the same change twice equals applying it once |
| Submissions.GradeDrafts.constructor | teacher/src/pages/Submissions.jsx:9-11 | no drafts and no flags at first |
| Submissions.GradeDrafts.HandleGradeChange | teacher/src/pages/Submissions.jsx:37-42 | the drafts become the specified change; the flags are untouched |
| Submissions.GradeDrafts.StartGrading | teacher/src/pages/Submissions.jsx:49 | the id's flag is raised before the request; the drafts are untouched |
| Submissions.GradeDrafts.FinishGrading | teacher/src/pages/Submissions.jsx:58-66 | after both requests succeed the id's draft is deleted; in every case the flag is lowered |
| Submissions.GradeDrafts.HandleGradeSubmit | teacher/src/pages/Submissions.jsx:44-67 | a missing or empty grade aborts with no state change; otherwise the outcome is Graded exactly when both the post and the refresh succeed, a Graded submit deletes the draft while a Failed one keeps every draft, and the flag ends lowered |
| Submissions.ClearKeepsOthers | teacher/src/pages/Submissions.jsx:58-62 | clearing removes the submitted id and keeps every other draft |
| Submissions.GradeColorBands | teacher/src/pages/Submissions.jsx:70-74 | green iff ≥ 8, yellow iff in [6.5, 8), red iff < 6.5 |
| TeacherClassDetail.PieceEnd | teacher/src/pages/ClassDetail.jsx:45 | a piece runs to the next separator or the end |
| TeacherClassDetail.SplitFrom | teacher/src/pages/ClassDetail.jsx:45 | a split always has at least one piece |
| TeacherClassDetail.PiecesLackDelims | teacher/src/pages/ClassDetail.jsx:45 | no piece contains '\n', ',' or ' ' |
| TeacherClassDetail.PiecesKeepOrder | teacher/src/pages/ClassDetail.jsx:45 | concatenated, the pieces are the input with its separators removed, in order |
| TeacherClassDetail.ParsedEmailsShape | teacher/src/pages/ClassDetail.jsx:45 | parsed emails are non-empty, not blank and free of separators, and keep input order |
| TeacherClassDetail.TrimAll | teacher/src/pages/ClassDetail.jsx:54 | the i-th posted address is the i-th email trimmed |
| TeacherClassDetail.AddStudentRequestsSpec | teacher/src/pages/ClassDetail.jsx:45-55 | no request iff no email; otherwise one non-empty trimmed address per email |
| TeacherClassDetail.TallyAddsUp | teacher/src/pages/ClassDetail.jsx:57-58 | successes plus failures equal the number of emails |
| TeacherClassDetail.FailedEmailsExact | teacher/src/pages/ClassDetail.jsx:64-66 | the failed emails are exactly those at rejected positions, one per failure, in order |
| TeacherClassDetail.AddStudentAlert | teacher/src/pages/ClassDetail.jsx:57-68 | the alert is the trimmed success line (when any succeeded) followed by the failure line (when any failed) |
| TeacherClassDetail.AlertNotEmpty | teacher/src/pages/ClassDetail.jsx:60-68 | with at least one email the alert is never empty |
| TeacherClassDetail.FilteredAssignmentsSpec | teacher/src/pages/ClassDetail.jsx:83-85 | 'all' shows every assignment; another subject shows, in order, exactly the assignments of that subject |
| StudentClassDetail.BuildSubmissionsMap | student/src/pages/ClassDetail.jsx:84-92 | the forEach loop builds the specified map |
| StudentClassDetail.SubmissionsMapKeys | student/src/pages/ClassDetail.jsx:86-89 | an id is a key iff some submission yields it; submissions with a falsy id are dropped |
| StudentClassDetail.SubmissionsMapLastWins | student/src/pages/ClassDetail.jsx:85-89 | the value under a key is the last submission with that key |
| StudentClassDetail.SubmissionStatusIff | student/src/pages/ClassDetail.jsx:116-147 | not submitted iff absent; graded iff present with a numeric grade; submitted otherwise |
| StudentClassDetail.GradeColorBands | student/src/pages/ClassDetail.jsx:150-155 | gray iff the grade is not a number; then green ≥ 8, yellow in [6.5, 8), red < 6.5 |
| StudentClassDetail.DeadlineFlagsExclusive | student/src/pages/ClassDetail.jsx:249-250 | never both overdue and due soon; neither without a deadline or at the deadline itself |
| MySubmissions.GradeColorBands | student/src/pages/MySubmissions.jsx:37-42 | gray iff undefined or null; green ≥ 8; yellow in [6.5, 8); red below 6.5 or NaN |
| MySubmissions.GradeBadgeBands | student/src/pages/MySubmissions.jsx:44-50 | exactly one badge: Chưa chấm without a grade, Giỏi ≥ 8, Khá [6.5, 8), Trung bình [5, 6.5), Yếu below or NaN |
| MySubmissions.GradeBadgeMonotone | student/src/pages/MySubmissions.jsx:46-49 | a higher grade never gets a lower band |
| MySubmissions.GradedCount | student/src/pages/MySubmissions.jsx:115-116 | the graded count is at most the total and is 0 iff nothing is graded |
| MySubmissions.GradedSuffix | student/src/pages/MySubmissions.jsx:114-117 | the " • Đã chấm: n" suffix appears iff some submission is graded |
| ActiveLink.RootActiveIff | student/src/components/Navbar.jsx:12 | the root link is active iff the path is exactly "/" (the same code is teacher/src/components/NavbarTeacher.jsx:12) |
| ActiveLink.PrefixActiveIff | student/src/components/Navbar.jsx:13 | any other link is active iff the path starts with it (the same code is teacher/src/components/NavbarTeacher.jsx:13) |
| ActiveLink.ActiveOnOwnPath | student/src/components/Navbar.jsx:11-14 | every link is active on its own path |
| StudentNavbar.InactiveLacksHighlight | student/src/components/Navbar.jsx:16-21 | the inactive class string never contains "bg-blue-50 text-blue-600" |
| StudentNavbar.HighlightIffActive | student/src/components/Navbar.jsx:16-21 | the class contains "bg-blue-50 text-blue-600" iff the link is active |
| StudentNavbar.SubmissionsActiveOnDetail | student/src/components/Navbar.jsx:13-21 | "/submissions" is highlighted on "/submissions/x" |
| TeacherNavbar.InactiveLacksHighlight | teacher/src/components/NavbarTeacher.jsx:16-21 | the inactive class string never contains "bg-blue-50 text-blue-700" |
| TeacherNavbar.HighlightIffActive | teacher/src/components/NavbarTeacher.jsx:16-21 | the class contains "bg-blue-50 text-blue-700" iff the link is active |
| TeacherNavbar.CreateClassHighlight | teacher/src/components/NavbarTeacher.jsx:43-44 | on "/create-class" the "/" link is plain and the "/create-class" link is highlighted |

## Left out

- Foreign calls and image work are left out:
  - YOLO prediction (mcq_grader.py:41);
  - OpenCV thresholding, contours and moments (detect_mcq.py:10-39), and debug drawing;
  - image cleaning;
  - PaddleOCR;
  - the Gemini calls.

  Their outputs are inputs here: circles, OCR items, measured blobs and settled request results.
- The skip on a zero moment (detect_mcq.py:35-36) and the centroid computation (37-38) are left out, because both need cv2 moments. The blobs arrive with their integer centroid already computed.
- The empty-row branch (detect_mcq.py:62-65) is not modelled: rows are proved never empty, so the branch cannot run.
- Concurrency is left out:
  - parallel cleaning and OCR;
  - `grade_multiple_submissions_parallel`;
  - `Promise.allSettled`, whose results are a given sequence with one entry per email.
- The orchestration in `main_processor.main` is left out: argv, logging, `sys.exit`, and the call at main_processor.py:111.
  - The essay text is an input, already joined and stripped.
  - `BuildRecognizedText` models lines 101-108 only.
- Floating point is modelled as exact reals:
  - the x-ratio (mcq_grader.py:117);
  - `min_area * 1.2` (detect_mcq.py:70);
  - the centre of a box (mcq_grader.py:49-50).

  IEEE rounding at the band boundaries is not modelled.
- DetectMcq.RowGap: reads `int(h*0.02)` as the exact `h*2 // 100`. A floating-point product that rounds just below an integer is not modelled.
- McqGrader.Ratio: a non-numeric `img_width` is not modelled. Only a missing key (the default 1000) and numeric widths are.
- McqGrader.MappedAnswers: keys are naturals rather than `str(q_num)`. This loses nothing, because decimal rendering is injective (`Text.NatToStringInjective`). The numeric sort of format_for_llm is modelled by selecting the least remaining key.
- The regex `\d` accepts ASCII digits only here; Python also accepts other Unicode decimal digits.
- The teacher pages leave out network, navigation, alerts, effects and rendering:
  - the submission list refresh after grading;
  - reloading students after adding;
  - `setStudentEmail('')`;
  - `toFixed`, `parseFloat` of strings, and `toLocaleString`.
- CreateAssignment.AttachmentList.UpdateAttachment requires a valid index. The form only calls it with the index of a rendered field, and JavaScript's growth of an array written past its end is not modelled.
- StudentClassDetail: `isOverdue` and `isDueSoon` read one clock value `now` in milliseconds. The page calls the clock separately for each comparison. An unparsable deadline is not modelled.
- JsValues.JsGrade: a grade is undefined, null, NaN or a number. A value of any other string or object type is not modelled.
- The Express controllers, Mongoose models, Cloudinary, email and the other backend files are not part of this model.
