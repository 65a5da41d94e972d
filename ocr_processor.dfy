/**
  `sanitize_text` of backend/ocr_llm/ocr_processor.py: one regular-expression
  substitution that deletes every character outside a whitelist, then
  Python's `str.strip()`.
 */
module OcrProcessor {
  import opened Seqs
  import opened Text

  /**
    The character class `[0-9a-zA-Zà-ỹÀ-Ỹ+\-=.,()xXyYzZ√/ ]` (no IGNORECASE):
    ranges are by code point, à-ỹ is U+00E0..U+1EF9 and À-Ỹ is U+00C0..U+1EF8;
    x, X, y, Y, z and Z are listed again but are already letters.
   */
  predicate IsWhitelisted(c: char) {
    ('0' <= c <= '9') || ('a' <= c <= 'z') || ('A' <= c <= 'Z') ||
    ('\U{00E0}' <= c <= '\U{1EF9}') || ('\U{00C0}' <= c <= '\U{1EF8}') ||
    c == '+' || c == '-' || c == '=' || c == '.' || c == ',' || c == '(' || c == ')' ||
    c == '\U{221A}' || c == '/' || c == ' '
  }

  function SanitizeText(text: string): (r: string)
    ensures |r| <= |text|
  {
    PyStrip(Filter(text, IsWhitelisted))
  }

  /** Every character of the result is whitelisted. */
  lemma SanitizeTextKeepsWhitelist(text: string)
    ensures AllChars(SanitizeText(text), IsWhitelisted)
  {
    var kept := Filter(text, IsWhitelisted);
    assert AllChars(kept, IsWhitelisted) by {
      forall i | 0 <= i < |kept| ensures IsWhitelisted(kept[i]) {
        assert kept[i] in kept;
      }
    }
    TrimKeepsChars(kept, IsPySpace, IsWhitelisted);
  }

  /** The result is the input with characters deleted, never reordered. */
  lemma SanitizeTextIsSubseq(text: string)
    ensures IsSubseq(SanitizeText(text), text)
  {
    var kept := Filter(text, IsWhitelisted);
    TrimIsSubseq(kept, IsPySpace);
    FilterIsSubseq(text, IsWhitelisted);
    SubseqTrans(SanitizeText(text), kept, text);
  }

  /** Tabs, newlines and carriage returns are never whitelisted, so they never survive. */
  lemma SanitizeTextDropsControlWhitespace(text: string)
    ensures '\t' !in SanitizeText(text) && '\n' !in SanitizeText(text) && '\r' !in SanitizeText(text)
  {
    SanitizeTextKeepsWhitelist(text);
  }

  /** No whitespace, in Python's sense, at either end of the result. */
  lemma SanitizeTextStripped(text: string)
    ensures var r := SanitizeText(text); r == [] || (!IsPySpace(r[0]) && !IsPySpace(r[|r| - 1]))
  {
  }

  /** Sanitizing twice is sanitizing once. */
  lemma SanitizeTextIdempotent(text: string)
    ensures SanitizeText(SanitizeText(text)) == SanitizeText(text)
  {
    var r := SanitizeText(text);
    SanitizeTextKeepsWhitelist(text);
    assert forall x :: x in r ==> IsWhitelisted(x);
    FilterAll(r, IsWhitelisted);
    TrimNoop(r, IsPySpace);
  }

  /** Text made only of whitelisted characters, without whitespace at its ends, is left as it is. */
  lemma SanitizeTextFixpoint(text: string)
    requires AllChars(text, IsWhitelisted)
    requires text == [] || (!IsPySpace(text[0]) && !IsPySpace(text[|text| - 1]))
    ensures SanitizeText(text) == text
  {
    assert forall x :: x in text ==> IsWhitelisted(x);
    FilterAll(text, IsWhitelisted);
    TrimNoop(text, IsPySpace);
  }

  /** U+1680 lies inside the range à-ỹ, so it is whitelisted and, being whitespace, is stripped at the ends. */
  lemma OghamSpaceMarkIsWhitelisted()
    ensures IsWhitelisted('\U{1680}') && IsPySpace('\U{1680}')
    ensures SanitizeText("x\U{1680}") == "x"
  {
    OghamKept();
    OghamStripped();
  }

  lemma OghamKept()
    ensures Filter("x\U{1680}", IsWhitelisted) == "x\U{1680}"
  {
    var t := "x\U{1680}";
    assert forall x :: x in t ==> IsWhitelisted(x) by {
      forall x | x in t ensures IsWhitelisted(x) {
        assert x == t[0] || x == t[1];
      }
    }
    FilterAll(t, IsWhitelisted);
  }

  lemma OghamStripped()
    ensures PyStrip("x\U{1680}") == "x"
  {
    var t := "x\U{1680}";
    OghamTrimStart();
    TrimEndDropsLast(t, IsPySpace);
    assert t[..1] == "x";
    assert TrimEnd("x", IsPySpace) == "x";
  }

  lemma OghamTrimStart()
    ensures TrimStart("x\U{1680}", IsPySpace) == "x\U{1680}"
  {
    var t := "x\U{1680}";
    assert !IsPySpace(t[0]);
  }
}
