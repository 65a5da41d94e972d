/**
  `clean_json_string` of backend/ocr_llm/llm_processor.py: three
  `re.sub(..., flags=re.MULTILINE)` passes that delete Markdown code fences,
  then Python's `str.strip()`. Each pass is a left-to-right scan of its input
  that deletes every non-overlapping match; `^` holds at the start of the
  input and right after each '\n', `$` at the end and right before each '\n'.
 */
module LlmProcessor {
  import opened Text

  const JsonFence := "```json"
  const Fence := "```"

  /** Where the MULTILINE anchor `^` matches. */
  predicate AtLineStart(s: string, i: nat) {
    i == 0 || (i <= |s| && s[i - 1] == '\n')
  }

  /** Where the MULTILINE anchor `$` matches. */
  predicate AtLineEnd(s: string, i: nat) {
    i == |s| || (i < |s| && s[i] == '\n')
  }

  /** `re.sub(r'^' + fence + r'\s*', '', s[i..], flags=re.MULTILINE)`, anchors read in all of `s`. */
  function DropOpeningFence(s: string, fence: string, i: nat): string
    requires |fence| > 0 && i <= |s|
    decreases |s| - i
  {
    if i == |s| then []
    else if AtLineStart(s, i) && StartsWith(s[i..], fence) then
      DropOpeningFence(s, fence, SpaceRunEnd(s, i + |fence|))
    else [s[i]] + DropOpeningFence(s, fence, i + 1)
  }

  /** `re.sub(r'```$', '', s[i..], flags=re.MULTILINE)`. */
  function DropClosingFence(s: string, i: nat): string
    requires i <= |s|
    decreases |s| - i
  {
    if i == |s| then []
    else if StartsWith(s[i..], Fence) && AtLineEnd(s, i + |Fence|) then DropClosingFence(s, i + |Fence|)
    else [s[i]] + DropClosingFence(s, i + 1)
  }

  /** `clean_json_string`; `None` and the empty string are both falsy and both give "". */
  function CleanJsonString(text: string): (r: string)
    ensures text == "" ==> r == ""
    ensures r == [] || (!IsPySpace(r[0]) && !IsPySpace(r[|r| - 1]))
  {
    if text == "" then ""
    else
      var noJsonFence := DropOpeningFence(text, JsonFence, 0);
      var noOpenFence := DropOpeningFence(noJsonFence, Fence, 0);
      var noCloseFence := DropClosingFence(noOpenFence, 0);
      PyStrip(noCloseFence)
  }

  /** A stretch without backticks is copied as it is by a fence pass. */
  lemma {:induction false} OpeningPassCopies(s: string, fence: string, i: nat, j: nat)
    requires |fence| > 0 && fence[0] == '`'
    requires i <= j <= |s| && '`' !in s[i..j]
    ensures DropOpeningFence(s, fence, i) == s[i..j] + DropOpeningFence(s, fence, j)
    decreases j - i
  {
    if i < j {
      assert s[i] == s[i..j][0];
      assert !StartsWith(s[i..], fence) by {
        assert s[i..][0] == s[i];
      }
      assert s[i + 1..j] == s[i..j][1..];
      OpeningPassCopies(s, fence, i + 1, j);
      assert s[i..j] == [s[i]] + s[i + 1..j];
    }
  }

  lemma {:induction false} ClosingPassCopies(s: string, i: nat, j: nat)
    requires i <= j <= |s| && '`' !in s[i..j]
    ensures DropClosingFence(s, i) == s[i..j] + DropClosingFence(s, j)
    decreases j - i
  {
    if i < j {
      assert s[i] == s[i..j][0];
      assert !StartsWith(s[i..], Fence) by {
        assert s[i..][0] == s[i];
      }
      assert s[i + 1..j] == s[i..j][1..];
      ClosingPassCopies(s, i + 1, j);
      assert s[i..j] == [s[i]] + s[i + 1..j];
    }
  }

  /** Text without backticks is only stripped of surrounding whitespace. */
  lemma CleanJsonStringWithoutBackticks(text: string)
    requires '`' !in text
    ensures CleanJsonString(text) == PyStrip(text)
  {
    if text != "" {
      assert text[0..|text|] == text;
      OpeningPassCopies(text, JsonFence, 0, |text|);
      assert DropOpeningFence(text, JsonFence, 0) == text;
      OpeningPassCopies(text, Fence, 0, |text|);
      assert DropOpeningFence(text, Fence, 0) == text;
      ClosingPassCopies(text, 0, |text|);
      assert DropClosingFence(text, 0) == text;
    }
  }

  /** Appending whitespace does not change what trimming gives. */
  lemma {:induction false} TrimAppendSpace(s: string, c: char)
    requires IsPySpace(c)
    ensures PyStrip(s + [c]) == PyStrip(s)
    decreases |s|
  {
    if s != [] && IsPySpace(s[0]) {
      assert (s + [c])[1..] == s[1..] + [c];
      TrimAppendSpace(s[1..], c);
      assert TrimStart(s + [c], IsPySpace) == TrimStart(s[1..] + [c], IsPySpace);
    } else if s == [] {
      assert TrimStart([c], IsPySpace) == TrimStart([], IsPySpace);
    } else {
      assert TrimStart(s + [c], IsPySpace) == s + [c];
      assert (s + [c])[..|s|] == s;
    }
  }

  /** An opening-fence pass leaves a final "```" alone: a `fence` longer than it cannot start there. */
  lemma FinalFenceKept(s: string, m: nat)
    requires m + 3 == |s| && s[m..] == Fence
    ensures DropOpeningFence(s, JsonFence, m) == Fence
  {
    assert !StartsWith(s[m..], JsonFence);
    assert !StartsWith(s[m + 1..], JsonFence);
    assert !StartsWith(s[m + 2..], JsonFence);
    assert DropOpeningFence(s, JsonFence, m + 3) == [];
    assert DropOpeningFence(s, JsonFence, m + 2) == "`";
    assert DropOpeningFence(s, JsonFence, m + 1) == "``";
  }

  /** Where the parts of "```json" + rest + "\n```" lie. */
  lemma FenceLayout(text: string, rest: string)
    requires text == JsonFence + rest + "\n```"
    ensures |text| == |rest| + 11 && text[..7] == JsonFence && text[7..7 + |rest|] == rest
    ensures text[7 + |rest|] == '\n' && text[8 + |rest|..] == Fence
  {
  }

  /**
    The first pass on "```json" + rest + "\n```" where `rest` has no backticks:
    the opening fence and the whitespace run after it go, and the rest is copied.
    Either that run covers all of `rest` and its newline, or it stops inside `rest`.
   */
  lemma JsonFencePass(text: string, rest: string) returns (e: nat)
    requires '`' !in rest && |text| == |rest| + 11 && text[..7] == JsonFence && text[7..7 + |rest|] == rest
    requires text[7 + |rest|] == '\n' && text[8 + |rest|..] == Fence
    ensures 7 <= e <= |text| - 3
    ensures e == |text| - 3 ==> DropOpeningFence(text, JsonFence, 0) == Fence && AllChars(rest, IsPySpace)
    ensures e < |text| - 3 ==>
      && e < 7 + |rest|
      && DropOpeningFence(text, JsonFence, 0) == rest[e - 7..] + "\n```"
      && AllChars(rest[..e - 7], IsPySpace)
  {
    var n := |rest|;
    assert StartsWith(text[0..], JsonFence) by {
      assert text[0..][..7] == text[..7];
    }
    e := SpaceRunEnd(text, 7);
    assert DropOpeningFence(text, JsonFence, 0) == DropOpeningFence(text, JsonFence, e);
    assert text[8 + n] == text[8 + n..][0];
    FinalFenceKept(text, 8 + n);
    if e < 8 + n {
      RunStopsInRest(text, rest, e);
    } else {
      RunCoversRest(text, rest, e);
    }
  }

  /** The whitespace run after the opening fence reaches the closing fence: `rest` is all whitespace. */
  lemma RunCoversRest(text: string, rest: string, e: nat)
    requires |text| == |rest| + 11 && text[7..7 + |rest|] == rest
    requires e == 8 + |rest| && forall k :: 7 <= k < e ==> IsPySpace(text[k])
    ensures AllChars(rest, IsPySpace)
  {
    forall k | 0 <= k < |rest| ensures IsPySpace(rest[k]) {
      assert rest[k] == text[7 + k];
    }
  }

  /** The whitespace run after the opening fence stops inside `rest`, and the first pass copies what follows. */
  lemma RunStopsInRest(text: string, rest: string, e: nat)
    requires '`' !in rest && |text| == |rest| + 11 && text[7..7 + |rest|] == rest
    requires text[7 + |rest|] == '\n' && text[8 + |rest|..] == Fence
    requires 7 <= e < 8 + |rest| && !IsPySpace(text[e])
    requires forall k :: 7 <= k < e ==> IsPySpace(text[k])
    requires DropOpeningFence(text, JsonFence, 8 + |rest|) == Fence
    ensures e < 7 + |rest|
    ensures DropOpeningFence(text, JsonFence, e) == rest[e - 7..] + "\n```"
    ensures AllChars(rest[..e - 7], IsPySpace)
  {
    var n := |rest|;
    assert e != 7 + n;
    assert '`' !in text[e..8 + n] by {
      forall k | e <= k < 8 + n ensures text[k] != '`' {
        if k < 7 + n {
          assert text[k] == rest[k - 7];
        }
      }
    }
    OpeningPassCopies(text, JsonFence, e, 8 + n);
    assert text[e..8 + n] == rest[e - 7..] + "\n";
    forall k | 0 <= k < e - 7 ensures IsPySpace(rest[k]) {
      assert rest[k] == text[7 + k];
    }
  }

  /** The second pass on a line without backticks followed by a closing "```" line keeps the line and its newline. */
  lemma ClosingLineOpeningPass(s: string, b: string)
    requires '`' !in b && |s| == |b| + 4 && s[..|b|] == b && s[|b|] == '\n' && s[|b| + 1..] == Fence
    ensures DropOpeningFence(s, Fence, 0) == b + "\n"
  {
    var n := |b|;
    assert s[0..n] == b;
    OpeningPassCopies(s, Fence, 0, n);
    assert !StartsWith(s[n..], Fence) by {
      assert s[n..][0] == s[n];
    }
    assert AtLineStart(s, n + 1) && StartsWith(s[n + 1..], Fence);
    assert SpaceRunEnd(s, n + 4) == n + 4;
    assert DropOpeningFence(s, Fence, n + 4) == [];
    assert DropOpeningFence(s, Fence, n + 1) == [];
    assert DropOpeningFence(s, Fence, n) == "\n";
  }

  /** The third pass leaves text without backticks unchanged. */
  lemma ClosingPassKeeps(t: string)
    requires '`' !in t
    ensures DropClosingFence(t, 0) == t
  {
    assert t[0..|t|] == t;
    ClosingPassCopies(t, 0, |t|);
  }

  /** The second and third passes on a line without backticks followed by a closing "```" line. */
  lemma FenceLinePasses(b: string)
    requires '`' !in b
    ensures DropClosingFence(DropOpeningFence(b + "\n```", Fence, 0), 0) == b + "\n"
  {
    var s := b + "\n```";
    assert |s| == |b| + 4 && s[..|b|] == b && s[|b|] == '\n' && s[|b| + 1..] == Fence;
    ClosingLineOpeningPass(s, b);
    var t := b + "\n";
    assert '`' !in t by {
      forall k | 0 <= k < |t| ensures t[k] != '`' {
        if k < |b| {
          assert t[k] == b[k];
        }
      }
    }
    ClosingPassKeeps(t);
  }

  /** `clean_json_string` on non-empty text, pass by pass. */
  lemma CleanJsonStringPasses(text: string, p1: string, p3: string)
    requires text != "" && p1 == DropOpeningFence(text, JsonFence, 0)
    requires p3 == DropClosingFence(DropOpeningFence(p1, Fence, 0), 0)
    ensures CleanJsonString(text) == PyStrip(p3)
  {
  }

  /** Only the closing fence is left after the first pass: the whole text between the fences was whitespace. */
  lemma WhitespaceBodyUnwraps(rest: string, p1: string, p3: string)
    requires AllChars(rest, IsPySpace)
    requires p1 == Fence && p3 == DropClosingFence(DropOpeningFence(p1, Fence, 0), 0)
    ensures PyStrip(p3) == PyStrip(rest)
  {
    assert DropOpeningFence(Fence, Fence, 0) == [];
    TrimEmptyIff(rest, IsPySpace);
  }

  /** The first pass stopped inside the body: a backtick-free line `b` and the closing fence line are left. */
  lemma BodyLineUnwraps(rest: string, lead: string, b: string, p1: string, p3: string)
    requires AllChars(lead, IsPySpace) && rest == lead + b && '`' !in b
    requires p1 == b + "\n```" && p3 == DropClosingFence(DropOpeningFence(p1, Fence, 0), 0)
    ensures PyStrip(p3) == PyStrip(rest)
  {
    FenceLinePasses(b);
    TrimAppendSpace(b, '\n');
    TrimSkipsLeading(lead, b, IsPySpace);
  }

  /** The first pass stopped `k` characters into `rest`, after whitespace only. */
  lemma SuffixUnwraps(rest: string, k: nat, p1: string, p3: string)
    requires k < |rest| && '`' !in rest && AllChars(rest[..k], IsPySpace)
    requires p1 == rest[k..] + "\n```" && p3 == DropClosingFence(DropOpeningFence(p1, Fence, 0), 0)
    ensures PyStrip(p3) == PyStrip(rest)
  {
    var b := rest[k..];
    assert rest == rest[..k] + b;
    assert '`' !in b by {
      forall j | 0 <= j < |b| ensures b[j] != '`' {
        assert b[j] == rest[k + j];
      }
    }
    BodyLineUnwraps(rest, rest[..k], b, p1, p3);
  }

  /** No character of `ws + body` is a backtick. */
  lemma NoBacktickInRest(ws: string, body: string)
    requires AllChars(ws, IsPySpace) && '`' !in body
    ensures '`' !in ws + body
  {
    var rest := ws + body;
    forall k | 0 <= k < |rest| ensures rest[k] != '`' {
      if k < |ws| {
        assert rest[k] == ws[k] && IsPySpace(ws[k]);
      } else {
        assert rest[k] == body[k - |ws|];
      }
    }
  }

  /**
    A reply wrapped as "```json" + ws + body + "\n```", where `ws` is any run of
    whitespace (the `\s*` after the opening fence) and the body has no backticks,
    comes back as the stripped body.
   */
  lemma CleanJsonStringUnwrapsFence(ws: string, body: string)
    requires AllChars(ws, IsPySpace) && '`' !in body
    ensures CleanJsonString(JsonFence + ws + body + "\n```") == PyStrip(body)
  {
    var rest := ws + body;
    var text := JsonFence + rest + "\n```";
    assert JsonFence + ws + body + "\n```" == text;
    NoBacktickInRest(ws, body);
    FenceLayout(text, rest);
    var e := JsonFencePass(text, rest);
    var p1 := DropOpeningFence(text, JsonFence, 0);
    var p3 := DropClosingFence(DropOpeningFence(p1, Fence, 0), 0);
    CleanJsonStringPasses(text, p1, p3);
    TrimSkipsLeading(ws, body, IsPySpace);
    if e == |text| - 3 {
      WhitespaceBodyUnwraps(rest, p1, p3);
    } else {
      SuffixUnwraps(rest, e - 7, p1, p3);
    }
  }
}
