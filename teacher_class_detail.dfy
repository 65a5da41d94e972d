/**
  The teacher's class page: the list of student emails typed into the
  "add student" box, the tally of the add requests, and the subject filter
  over the class's assignments.
 */
module TeacherClassDetail {
  import opened Wrappers
  import opened Seqs
  import opened Text

  // ---------------------------------------------------------------------
  // `studentEmail.split(/[\n, ]+/)`

  predicate IsDelim(c: char) {
    c == '\n' || c == ',' || c == ' '
  }

  /** The end of the piece starting at `i`: the next separator, or the end. */
  function PieceEnd(s: string, i: nat): (j: nat)
    requires i <= |s|
    ensures i <= j <= |s| && (j == |s| || IsDelim(s[j]))
    ensures forall k :: i <= k < j ==> !IsDelim(s[k])
    decreases |s| - i
  {
    if i == |s| || IsDelim(s[i]) then i else PieceEnd(s, i + 1)
  }

  /** The end of the run of separators starting at `i`. */
  function DelimEnd(s: string, i: nat): (j: nat)
    requires i <= |s|
    ensures i <= j <= |s| && (j == |s| || !IsDelim(s[j]))
    ensures forall k :: i <= k < j ==> IsDelim(s[k])
    decreases |s| - i
  {
    if i == |s| || !IsDelim(s[i]) then i else DelimEnd(s, i + 1)
  }

  /** The pieces of `s[i..]` between runs of separators (empty pieces at either end included). */
  function SplitFrom(s: string, i: nat): (pieces: seq<string>)
    requires i <= |s|
    ensures pieces != []
    decreases |s| - i
  {
    var j := PieceEnd(s, i);
    if j == |s| then [s[i..]] else [s[i..j]] + SplitFrom(s, DelimEnd(s, j + 1))
  }

  function Split(s: string): seq<string> {
    SplitFrom(s, 0)
  }

  /** No piece holds a separator. */
  lemma {:induction false} PiecesLackDelims(s: string, i: nat)
    requires i <= |s|
    ensures forall p, c :: p in SplitFrom(s, i) && c in p ==> !IsDelim(c)
    decreases |s| - i
  {
    var j := PieceEnd(s, i);
    assert forall c :: c in s[i..j] ==> !IsDelim(c) by {
      forall c | c in s[i..j] ensures !IsDelim(c) {
        var k :| 0 <= k < j - i && s[i..j][k] == c;
        assert s[i + k] == c;
      }
    }
    if j < |s| {
      PiecesLackDelims(s, DelimEnd(s, j + 1));
    } else {
      assert s[i..] == s[i..j];
    }
  }

  /** The input with its separators removed. */
  function DropDelims(s: string): string
    decreases |s|
  {
    if s == [] then [] else (if IsDelim(s[0]) then [] else [s[0]]) + DropDelims(s[1..])
  }

  lemma {:induction false} DropDelimsAppend(a: string, b: string)
    ensures DropDelims(a + b) == DropDelims(a) + DropDelims(b)
    decreases |a|
  {
    if a == [] {
      assert a + b == b;
    } else {
      assert (a + b)[0] == a[0] && (a + b)[1..] == a[1..] + b;
      DropDelimsAppend(a[1..], b);
    }
  }

  lemma {:induction false} DropDelimsOfPiece(a: string)
    requires forall m :: 0 <= m < |a| ==> !IsDelim(a[m])
    ensures DropDelims(a) == a
    decreases |a|
  {
    if a != [] {
      DropDelimsOfPiece(a[1..]);
    }
  }

  lemma {:induction false} DropDelimsOfRun(a: string)
    requires forall m :: 0 <= m < |a| ==> IsDelim(a[m])
    ensures DropDelims(a) == []
    decreases |a|
  {
    if a != [] {
      DropDelimsOfRun(a[1..]);
    }
  }

  /** A piece, a run of separators and the rest. */
  lemma PieceThenRun(s: string, i: nat, j: nat, k: nat)
    requires i <= j <= k <= |s|
    requires forall m :: i <= m < j ==> !IsDelim(s[m])
    requires forall m :: j <= m < k ==> IsDelim(s[m])
    ensures DropDelims(s[i..]) == s[i..j] + DropDelims(s[k..])
  {
    var piece, run, rest := s[i..j], s[j..k], s[k..];
    assert s[i..] == piece + (run + rest);
    DropDelimsOfPiece(piece);
    DropDelimsAppend(piece, run + rest);
    DropDelimsOfRun(run);
    DropDelimsAppend(run, rest);
  }

  /** The pieces, put back together, are the input without its separators, in order. */
  lemma {:induction false} PiecesKeepOrder(s: string, i: nat)
    requires i <= |s|
    ensures Concat(SplitFrom(s, i)) == DropDelims(s[i..])
    decreases |s| - i
  {
    var j := PieceEnd(s, i);
    if j == |s| {
      PieceThenRun(s, i, j, j);
      assert Concat([s[i..]]) == s[i..] + Concat([]);
    } else {
      var k := DelimEnd(s, j + 1);
      PiecesKeepOrder(s, k);
      PieceThenRun(s, i, j, k);
      var pieces := SplitFrom(s, i);
      assert pieces == [s[i..j]] + SplitFrom(s, k);
      assert pieces[1..] == SplitFrom(s, k);
    }
  }

  // ---------------------------------------------------------------------
  // `.filter(email => email.trim() !== '')`

  predicate NotBlank(email: string) {
    JsTrim(email) != ""
  }

  function ParseEmails(input: string): seq<string> {
    Filter(Split(input), NotBlank)
  }

  /** Every parsed email is free of separators and not blank, and the emails keep their order in the input. */
  lemma ParsedEmailsShape(input: string)
    ensures forall e :: e in ParseEmails(input) ==> NotBlank(e) && e != "" && forall c :: c in e ==> !IsDelim(c)
    ensures IsSubseq(ParseEmails(input), Split(input))
    ensures Concat(Split(input)) == DropDelims(input)
  {
    PiecesLackDelims(input, 0);
    FilterIsSubseq(Split(input), NotBlank);
    PiecesKeepOrder(input, 0);
    assert input[0..] == input;
  }

  function TrimAll(emails: seq<string>): (r: seq<string>)
    ensures |r| == |emails| && forall i :: 0 <= i < |r| ==> r[i] == JsTrim(emails[i])
    decreases |emails|
  {
    if emails == [] then [] else [JsTrim(emails[0])] + TrimAll(emails[1..])
  }

  /** Lines 45-55: no parsed email, no request; otherwise one `studentEmail` per email, trimmed. */
  function AddStudentRequests(input: string): Option<seq<string>> {
    var emails := ParseEmails(input);
    if |emails| == 0 then None else Some(TrimAll(emails))
  }

  /** One request per parsed email, none of them empty; no request at all without an email. */
  lemma AddStudentRequestsSpec(input: string)
    ensures AddStudentRequests(input) == None <==> ParseEmails(input) == []
    ensures AddStudentRequests(input).Some? ==>
      var sent := AddStudentRequests(input).value;
      |sent| == |ParseEmails(input)| && forall i :: 0 <= i < |sent| ==> sent[i] != "" && sent[i] == JsTrim(ParseEmails(input)[i])
  {
    var emails := ParseEmails(input);
    forall i | 0 <= i < |emails| ensures NotBlank(emails[i]) {
      assert emails[i] in emails;
    }
  }

  // ---------------------------------------------------------------------
  // The tally of `Promise.allSettled`

  datatype Settled = Fulfilled | Rejected

  predicate IsFulfilled(r: Settled) {
    r == Fulfilled
  }

  predicate IsRejected(r: Settled) {
    r == Rejected
  }

  /** `emails.filter((_, index) => results[index].status === 'rejected')`. */
  function FailedEmails(emails: seq<string>, results: seq<Settled>): seq<string>
    requires |emails| == |results|
    decreases |emails|
  {
    if emails == [] then []
    else (if results[0] == Rejected then [emails[0]] else []) + FailedEmails(emails[1..], results[1..])
  }

  /** Successes and failures add up to the number of emails. */
  lemma {:induction false} TallyAddsUp(results: seq<Settled>)
    ensures |Filter(results, IsFulfilled)| + |Filter(results, IsRejected)| == |results|
    decreases |results|
  {
    if results != [] {
      TallyAddsUp(results[1..]);
    }
  }

  /** The failed emails are exactly the emails at rejected positions, in order, one per failure. */
  lemma {:induction false} FailedEmailsExact(emails: seq<string>, results: seq<Settled>)
    requires |emails| == |results|
    ensures |FailedEmails(emails, results)| == |Filter(results, IsRejected)|
    ensures forall e :: e in FailedEmails(emails, results) <==>
      exists i :: 0 <= i < |emails| && results[i] == Rejected && emails[i] == e
    ensures IsSubseq(FailedEmails(emails, results), emails)
    decreases |emails|
  {
    if emails != [] {
      var restE := emails[1..];
      var restR := results[1..];
      FailedEmailsExact(restE, restR);
      var failed := FailedEmails(emails, results);
      forall e | e in failed ensures exists i :: 0 <= i < |emails| && results[i] == Rejected && emails[i] == e {
        if results[0] == Rejected && e == emails[0] {
        } else {
          assert e in FailedEmails(restE, restR);
          var i :| 0 <= i < |restE| && restR[i] == Rejected && restE[i] == e;
          assert results[i + 1] == Rejected && emails[i + 1] == e;
        }
      }
      forall e | exists i :: 0 <= i < |emails| && results[i] == Rejected && emails[i] == e ensures e in failed {
        var i :| 0 <= i < |emails| && results[i] == Rejected && emails[i] == e;
        if i > 0 {
          assert restR[i - 1] == Rejected && restE[i - 1] == e;
        }
      }
      if results[0] == Rejected {
        assert failed[0] == emails[0] && failed[1..] == FailedEmails(restE, restR);
      } else {
        assert failed == FailedEmails(restE, restR);
      }
    }
  }

  function SuccessLine(count: nat): string {
    "Thêm thành công " + NatToString(count) + " học sinh.\n"
  }

  function FailureLine(count: nat, failedEmails: seq<string>): string {
    "Thất bại khi thêm " + NatToString(count) + " học sinh: " + Join(failedEmails, ", ") + "."
  }

  /** The alert text before trimming: a success line, a failure line, or both. */
  function AlertText(successes: nat, failures: nat, failedEmails: seq<string>): string {
    (if successes > 0 then SuccessLine(successes) else "")
      + (if failures > 0 then FailureLine(failures, failedEmails) else "")
  }

  /** Lines 57-68: the alert after the requests have settled. */
  method AddStudentAlert(emails: seq<string>, results: seq<Settled>) returns (message: string)
    requires |emails| == |results|
    ensures message == JsTrim(AlertText(|Filter(results, IsFulfilled)|, |Filter(results, IsRejected)|, FailedEmails(emails, results)))
  {
    var successfulAdds := |Filter(results, IsFulfilled)|;
    var failedAdds := Filter(results, IsRejected);
    var alertMessage := "";
    if successfulAdds > 0 {
      alertMessage := alertMessage + SuccessLine(successfulAdds);
      assert alertMessage == SuccessLine(successfulAdds);
    }
    if |failedAdds| > 0 {
      var failedEmails := FailedEmails(emails, results);
      alertMessage := alertMessage + FailureLine(|failedAdds|, failedEmails);
    }
    assert alertMessage == AlertText(successfulAdds, |failedAdds|, FailedEmails(emails, results));
    message := JsTrim(alertMessage);
  }

  /** With at least one email the alert is never empty: it reports a success or a failure. */
  lemma AlertNotEmpty(emails: seq<string>, results: seq<Settled>)
    requires |emails| == |results| && |emails| > 0
    ensures JsTrim(AlertText(|Filter(results, IsFulfilled)|, |Filter(results, IsRejected)|, FailedEmails(emails, results))) != ""
  {
    var successes := |Filter(results, IsFulfilled)|;
    var failures := |Filter(results, IsRejected)|;
    TallyAddsUp(results);
    var text := AlertText(successes, failures, FailedEmails(emails, results));
    assert text[0] == 'T';
    TrimEmptyIff(text, IsJsSpace);
    assert !IsJsSpace(text[0]);
  }

  // ---------------------------------------------------------------------
  // Subject filter

  datatype Assignment = Assignment(title: string, subject: string)

  function FilteredAssignments(assignments: seq<Assignment>, filterSubject: string): seq<Assignment> {
    if filterSubject == "all" then assignments
    else Filter(assignments, (a: Assignment) => a.subject == filterSubject)
  }

  /** 'all' keeps the list; any other subject keeps, in order, exactly the assignments of that subject. */
  lemma FilteredAssignmentsSpec(assignments: seq<Assignment>, filterSubject: string)
    ensures filterSubject == "all" ==> FilteredAssignments(assignments, filterSubject) == assignments
    ensures filterSubject != "all" ==>
      var shown := FilteredAssignments(assignments, filterSubject);
      IsSubseq(shown, assignments)
      && (forall a :: a in shown <==> a in assignments && a.subject == filterSubject)
  {
    if filterSubject != "all" {
      FilterIsSubseq(assignments, (a: Assignment) => a.subject == filterSubject);
    }
  }
}
