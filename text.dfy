/**
  String helpers shared by the model: the whitespace sets of Python and
  JavaScript, stripping, joining, prefixes, substrings and decimal numerals.
 */
module Text {
  import opened Seqs

  /** Python `str.isspace`, which is also what `\s` and `str.strip()` use on `str`. */
  predicate IsPySpace(c: char) {
    var n := c as int;
    (0x09 <= n <= 0x0D) || (0x1C <= n <= 0x20) || n == 0x85 || n == 0xA0 || n == 0x1680 ||
    (0x2000 <= n <= 0x200A) || n == 0x2028 || n == 0x2029 || n == 0x202F || n == 0x205F || n == 0x3000
  }

  /** JavaScript WhiteSpace and LineTerminator, what `String.prototype.trim` removes. */
  predicate IsJsSpace(c: char) {
    var n := c as int;
    (0x09 <= n <= 0x0D) || n == 0x20 || n == 0xA0 || n == 0x1680 || (0x2000 <= n <= 0x200A) ||
    n == 0x2028 || n == 0x2029 || n == 0x202F || n == 0x205F || n == 0x3000 || n == 0xFEFF
  }

  predicate AllChars(s: string, p: char -> bool) {
    forall i :: 0 <= i < |s| ==> p(s[i])
  }

  /** Drops the leading characters that satisfy `ws`. */
  function TrimStart(s: string, ws: char -> bool): (r: string)
    ensures |r| <= |s| && r == s[|s| - |r|..]
    ensures AllChars(s[..|s| - |r|], ws)
    ensures r == [] || !ws(r[0])
    decreases |s|
  {
    if s != [] && ws(s[0]) then
      var r := TrimStart(s[1..], ws);
      assert s[1..][..|s| - 1 - |r|] == s[1..|s| - |r|];
      r
    else s
  }

  /** Drops the trailing characters that satisfy `ws`. */
  function TrimEnd(s: string, ws: char -> bool): (r: string)
    ensures |r| <= |s| && r == s[..|r|]
    ensures AllChars(s[|r|..], ws)
    ensures r == [] || !ws(r[|r| - 1])
    decreases |s|
  {
    if s != [] && ws(s[|s| - 1]) then
      var r := TrimEnd(s[..|s| - 1], ws);
      TrimEndStep(s, r, ws);
      r
    else s
  }

  /** Dropping one more trailing `ws` character keeps the prefix and the all-`ws` tail. */
  lemma TrimEndStep(s: string, r: string, ws: char -> bool)
    requires s != [] && ws(s[|s| - 1])
    requires |r| <= |s| - 1 && r == s[..|s| - 1][..|r|]
    requires AllChars(s[..|s| - 1][|r|..], ws)
    ensures r == s[..|r|] && AllChars(s[|r|..], ws)
  {
    var t := s[..|s| - 1];
    assert t[..|r|] == s[..|r|];
    forall i | 0 <= i < |s| - |r| ensures ws(s[|r|..][i]) {
      if i < |t| - |r| {
        assert s[|r|..][i] == t[|r|..][i];
      }
    }
  }

  /** One unfolding step of `TrimEnd` on a string whose last character is `ws`. */
  lemma TrimEndDropsLast(s: string, ws: char -> bool)
    requires s != [] && ws(s[|s| - 1])
    ensures TrimEnd(s, ws) == TrimEnd(s[..|s| - 1], ws)
  {
  }

  /** Strips both ends: Python `str.strip()` with `IsPySpace`, JavaScript `trim()` with `IsJsSpace`. */
  function Trim(s: string, ws: char -> bool): (r: string)
    ensures |r| <= |s|
    ensures r == [] || (!ws(r[0]) && !ws(r[|r| - 1]))
  {
    TrimEnd(TrimStart(s, ws), ws)
  }

  /** End of the greedy `\s*` run (Python regular expressions) that starts at `i`. */
  function SpaceRunEnd(s: string, i: nat): (j: nat)
    requires i <= |s|
    ensures i <= j <= |s|
    ensures forall k :: i <= k < j ==> IsPySpace(s[k])
    ensures j == |s| || !IsPySpace(s[j])
    decreases |s| - i
  {
    if i < |s| && IsPySpace(s[i]) then SpaceRunEnd(s, i + 1) else i
  }

  function PyStrip(s: string): string { Trim(s, IsPySpace) }

  function JsTrim(s: string): string { Trim(s, IsJsSpace) }

  /** Trimming removes a run of `ws` characters at each end and keeps the middle unchanged. */
  lemma TrimInfix(s: string, ws: char -> bool) returns (lead: nat)
    ensures lead + |Trim(s, ws)| <= |s|
    ensures s[lead..lead + |Trim(s, ws)|] == Trim(s, ws)
    ensures AllChars(s[..lead], ws) && AllChars(s[lead + |Trim(s, ws)|..], ws)
  {
    var a := TrimStart(s, ws);
    var r := TrimEnd(a, ws);
    assert r == Trim(s, ws);
    lead := |s| - |a|;
    InfixOfParts(s, a, r, lead, ws);
  }

  /** A prefix `r` of the suffix `a` of `s` that starts at `lead` is the slice of `s` from `lead`. */
  lemma InfixOfParts(s: string, a: string, r: string, lead: nat, ws: char -> bool)
    requires |a| <= |s| && lead == |s| - |a| && a == s[lead..]
    requires |r| <= |a| && r == a[..|r|] && AllChars(a[|r|..], ws)
    ensures lead + |r| <= |s| && s[lead..lead + |r|] == r
    ensures AllChars(s[lead + |r|..], ws)
  {
    assert a[|r|..] == s[lead + |r|..];
    assert a[..|r|] == s[lead..lead + |r|];
  }

  /** Trimming only deletes characters: whatever holds of every character still does. */
  lemma TrimKeepsChars(s: string, ws: char -> bool, p: char -> bool)
    requires AllChars(s, p)
    ensures AllChars(Trim(s, ws), p)
  {
    var r := Trim(s, ws);
    var lead := TrimInfix(s, ws);
    forall i | 0 <= i < |r| ensures p(r[i]) {
      assert r[i] == s[lead + i];
    }
  }

  lemma TrimIsSubseq(s: string, ws: char -> bool)
    ensures IsSubseq(Trim(s, ws), s)
  {
    var lead := TrimInfix(s, ws);
    SliceIsSubseq(s, lead, lead + |Trim(s, ws)|);
  }

  /** A string with no `ws` character at either end is its own trim. */
  /** Characters of `ws` in front do not change what `TrimStart` gives. */
  lemma {:induction false} TrimStartSkipsLeading(p: string, s: string, ws: char -> bool)
    requires AllChars(p, ws)
    ensures TrimStart(p + s, ws) == TrimStart(s, ws)
    decreases |p|
  {
    if p != [] {
      var t := p + s;
      assert t[0] == p[0] && ws(p[0]);
      assert t[1..] == p[1..] + s;
      assert TrimStart(t, ws) == TrimStart(t[1..], ws);
      assert AllChars(p[1..], ws) by {
        forall i | 0 <= i < |p| - 1 ensures ws(p[1..][i]) {
          assert p[1..][i] == p[i + 1];
        }
      }
      TrimStartSkipsLeading(p[1..], s, ws);
    } else {
      assert p + s == s;
    }
  }

  /** Characters of `ws` in front do not change what trimming gives. */
  lemma TrimSkipsLeading(p: string, s: string, ws: char -> bool)
    requires AllChars(p, ws)
    ensures Trim(p + s, ws) == Trim(s, ws)
  {
    TrimStartSkipsLeading(p, s, ws);
  }

  lemma TrimNoop(s: string, ws: char -> bool)
    requires s == [] || (!ws(s[0]) && !ws(s[|s| - 1]))
    ensures Trim(s, ws) == s
  {
  }

  lemma TrimIdempotent(s: string, ws: char -> bool)
    ensures Trim(Trim(s, ws), ws) == Trim(s, ws)
  {
    TrimNoop(Trim(s, ws), ws);
  }

  /** Trimming gives the empty string exactly when every character is `ws`. */
  lemma TrimEmptyIff(s: string, ws: char -> bool)
    ensures Trim(s, ws) == [] <==> AllChars(s, ws)
  {
    var lead := TrimInfix(s, ws);
    if Trim(s, ws) == [] {
      forall i | 0 <= i < |s| ensures ws(s[i]) {
        if i < lead {
          assert s[..lead][i] == s[i];
        } else {
          assert s[lead..][i - lead] == s[i];
        }
      }
    } else {
      assert !ws(s[lead]);
    }
  }

  /** Python `sep.join(parts)` and JavaScript `parts.join(sep)`. */
  function Join(parts: seq<string>, sep: string): (r: string)
    ensures parts == [] ==> r == []
    ensures |parts| == 1 ==> r == parts[0]
    decreases |parts|
  {
    if parts == [] then []
    else if |parts| == 1 then parts[0]
    else parts[0] + sep + Join(parts[1..], sep)
  }

  /** Joining non-empty parts gives the empty string only when there are no parts. */
  lemma JoinEmptyIff(parts: seq<string>, sep: string)
    requires forall i :: 0 <= i < |parts| ==> parts[i] != []
    ensures Join(parts, sep) == [] <==> parts == []
  {
    if |parts| > 1 {
      assert |Join(parts, sep)| >= |parts[0]|;
    }
  }

  predicate StartsWith(s: string, prefix: string) {
    |prefix| <= |s| && s[..|prefix|] == prefix
  }

  predicate EndsWith(s: string, suffix: string) {
    |suffix| <= |s| && s[|s| - |suffix|..] == suffix
  }

  lemma ConcatStartsEnds(a: string, b: string)
    ensures StartsWith(a + b, a) && EndsWith(a + b, b)
  {
    assert (a + b)[..|a|] == a;
    assert (a + b)[|a + b| - |b|..] == b;
  }

  predicate ContainsAt(s: string, t: string, i: int) {
    0 <= i <= |s| - |t| && s[i..i + |t|] == t
  }

  /** JavaScript `s.includes(t)`: `t` occurs in `s` as a contiguous piece. */
  predicate Contains(s: string, t: string) {
    exists i :: 0 <= i <= |s| - |t| && ContainsAt(s, t, i)
  }

  lemma ContainsConcat(a: string, t: string, b: string)
    ensures Contains(a + t + b, t)
  {
    assert ContainsAt(a + t + b, t, |a|);
  }

  /** No occurrence in `b` and none can start inside `a`, which lacks the first character of `t`: none in `a + b`. */
  lemma NotContainsPrefixed(a: string, b: string, t: string)
    requires |t| > 0 && t[0] !in a && !Contains(b, t)
    ensures !Contains(a + b, t)
  {
    var s := a + b;
    forall i | 0 <= i <= |s| - |t| && ContainsAt(s, t, i) ensures false {
      assert s[i] == t[0];
      assert i >= |a|;
      assert s[i..i + |t|] == b[i - |a|..i - |a| + |t|];
      assert ContainsAt(b, t, i - |a|);
    }
  }

  /** No occurrence in `b` and none at the first character: none in `[c] + b`. */
  lemma NotContainsHeaded(c: char, b: string, t: string)
    requires !Contains(b, t) && !ContainsAt([c] + b, t, 0)
    ensures !Contains([c] + b, t)
  {
    var s := [c] + b;
    forall i | 0 <= i <= |s| - |t| && ContainsAt(s, t, i) ensures false {
      assert i != 0;
      assert s[i..i + |t|] == b[i - 1..i - 1 + |t|];
      assert ContainsAt(b, t, i - 1);
    }
  }

  lemma ShortNotContains(s: string, t: string)
    requires |s| < |t|
    ensures !Contains(s, t)
  {
  }

  predicate IsDigit(c: char) {
    '0' <= c <= '9'
  }

  function DigitChar(d: nat): (c: char)
    requires d < 10
    ensures IsDigit(c)
  {
    ('0' as int + d) as char
  }

  /** Python `str(n)` and JavaScript template interpolation of a non-negative integer. */
  function NatToString(n: nat): (r: string)
    ensures |r| > 0 && AllChars(r, IsDigit)
    ensures r[0] == '0' ==> n == 0
    decreases n
  {
    if n < 10 then [DigitChar(n)]
    else
      var r := NatToString(n / 10) + [DigitChar(n % 10)];
      assert r[..|r| - 1] == NatToString(n / 10);
      r
  }

  /** The value of a run of decimal digits (Python `int(s)` on ASCII digits). */
  function DigitsValue(s: string): nat
    requires AllChars(s, IsDigit)
    decreases |s|
  {
    if s == [] then 0
    else
      assert AllChars(s[..|s| - 1], IsDigit);
      DigitsValue(s[..|s| - 1]) * 10 + (s[|s| - 1] as int - '0' as int)
  }

  lemma {:induction false} DigitsValueOfNatToString(n: nat)
    ensures DigitsValue(NatToString(n)) == n
    decreases n
  {
    if n >= 10 {
      var r := NatToString(n);
      assert r[..|r| - 1] == NatToString(n / 10);
      DigitsValueOfNatToString(n / 10);
    }
  }

  lemma NatToStringInjective(a: nat, b: nat)
    requires NatToString(a) == NatToString(b)
    ensures a == b
  {
    DigitsValueOfNatToString(a);
    DigitsValueOfNatToString(b);
  }
}
