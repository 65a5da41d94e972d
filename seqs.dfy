/**
  Sequence helpers shared by the model: order-preserving filtering
  (Python list comprehensions, JavaScript `Array.prototype.filter`),
  subsequences, the first maximum (Python `max(..., key=...)`) and the
  stable sort of Python's `sorted` and `list.sort`.
 */
module Seqs {

  /** Keeps, in order, the elements of `s` that satisfy `p`. */
  function Filter<T>(s: seq<T>, p: T -> bool): (r: seq<T>)
    ensures |r| <= |s|
    ensures forall x :: x in r ==> x in s && p(x)
    ensures forall x :: x in s && p(x) ==> x in r
    decreases |s|
  {
    if s == [] then []
    else (if p(s[0]) then [s[0]] else []) + Filter(s[1..], p)
  }

  /** Filtering distributes over concatenation, so it keeps the input order. */
  lemma {:induction false} FilterAppend<T>(a: seq<T>, b: seq<T>, p: T -> bool)
    ensures Filter(a + b, p) == Filter(a, p) + Filter(b, p)
    decreases |a|
  {
    if a == [] {
      assert a + b == b;
    } else {
      assert (a + b)[0] == a[0];
      assert (a + b)[1..] == a[1..] + b;
      FilterAppend(a[1..], b, p);
    }
  }

  lemma AppendAssoc<T>(a: seq<T>, b: seq<T>, c: seq<T>)
    ensures a + (b + c) == (a + b) + c
  {
  }

  /** The concatenation of a sequence of sequences, in order. */
  function Concat<T>(rows: seq<seq<T>>): seq<T> {
    if rows == [] then [] else rows[0] + Concat(rows[1..])
  }

  lemma {:induction false} ConcatSnoc<T>(rows: seq<seq<T>>, r: seq<T>)
    ensures Concat(rows + [r]) == Concat(rows) + r
    decreases |rows|
  {
    if rows == [] {
      assert [] + [r] == [r];
      assert Concat([r]) == r + Concat([]);
    } else {
      assert (rows + [r])[1..] == rows[1..] + [r];
      ConcatSnoc(rows[1..], r);
      AppendAssoc(rows[0], Concat(rows[1..]), r);
    }
  }

  /** A filter that every element passes changes nothing. */
  lemma {:induction false} FilterAll<T>(s: seq<T>, p: T -> bool)
    requires forall x :: x in s ==> p(x)
    ensures Filter(s, p) == s
    decreases |s|
  {
    if s != [] {
      assert s == [s[0]] + s[1..];
      FilterAll(s[1..], p);
    }
  }

  /** A filter that no element passes leaves nothing. */
  lemma {:induction false} FilterNone<T>(s: seq<T>, p: T -> bool)
    requires forall x :: x in s ==> !p(x)
    ensures Filter(s, p) == []
    decreases |s|
  {
    if s != [] {
      assert s[0] in s;
      FilterNone(s[1..], p);
    }
  }

  /** `a` is obtained from `b` by deleting elements (without reordering). */
  predicate IsSubseq<T(==)>(a: seq<T>, b: seq<T>)
    decreases |b|
  {
    a == [] || (b != [] && ((a[0] == b[0] && IsSubseq(a[1..], b[1..])) || IsSubseq(a, b[1..])))
  }

  lemma {:induction false} FilterIsSubseq<T>(s: seq<T>, p: T -> bool)
    ensures IsSubseq(Filter(s, p), s)
    decreases |s|
  {
    if s != [] {
      FilterIsSubseq(s[1..], p);
      var r := Filter(s, p);
      if p(s[0]) {
        assert r[0] == s[0] && r[1..] == Filter(s[1..], p);
      } else {
        assert r == Filter(s[1..], p);
      }
    }
  }

  lemma {:induction false} SubseqTrans<T>(a: seq<T>, b: seq<T>, c: seq<T>)
    requires IsSubseq(a, b) && IsSubseq(b, c)
    ensures IsSubseq(a, c)
    decreases |c|
  {
    if a != [] {
      if b[0] == c[0] && IsSubseq(b[1..], c[1..]) {
        if a[0] == b[0] && IsSubseq(a[1..], b[1..]) {
          SubseqTrans(a[1..], b[1..], c[1..]);
        } else {
          SubseqTrans(a, b[1..], c[1..]);
        }
      } else {
        SubseqTrans(a, b, c[1..]);
      }
    }
  }

  /** Every contiguous slice is a subsequence. */
  lemma {:induction false} SliceIsSubseq<T>(s: seq<T>, i: nat, j: nat)
    requires i <= j <= |s|
    ensures IsSubseq(s[i..j], s)
    decreases |s|
  {
    if i < j {
      if i == 0 {
        assert s[i..j][0] == s[0];
        assert s[i..j][1..] == s[1..][0..j - 1];
        SliceIsSubseq(s[1..], 0, j - 1);
      } else {
        SliceIsSubseq(s[1..], i - 1, j - 1);
        assert s[1..][i - 1..j - 1] == s[i..j];
      }
    }
  }

  /** Index of the first element with the largest key (Python `max(s, key=key)`). */
  function ArgMaxBy<T>(s: seq<T>, key: T -> real): (i: nat)
    requires |s| > 0
    ensures i < |s|
    ensures forall j :: 0 <= j < |s| ==> key(s[j]) <= key(s[i])
    ensures forall j :: 0 <= j < i ==> key(s[j]) < key(s[i])
    decreases |s|
  {
    if |s| == 1 then 0
    else
      var j := ArgMaxBy(s[..|s| - 1], key);
      if key(s[|s| - 1]) > key(s[j]) then |s| - 1 else j
  }

  /** Position of the first element equal to `x` (Python `list.index`). */
  function IndexOf<T(==)>(s: seq<T>, x: T): (i: nat)
    requires x in s
    ensures i < |s| && s[i] == x
    ensures forall j :: 0 <= j < i ==> s[j] != x
    decreases |s|
  {
    if s[0] == x then 0 else 1 + IndexOf(s[1..], x)
  }

  predicate SortedBy<T>(s: seq<T>, key: T -> real) {
    forall i, j :: 0 <= i < j < |s| ==> key(s[i]) <= key(s[j])
  }

  /** Test "the key equals v", used to state stability. */
  function KeyIs<T>(key: T -> real, v: real): T -> bool {
    x => key(x) == v
  }

  /** Inserts `x` after every element whose key is at most `key(x)`. */
  function InsertBy<T>(x: T, s: seq<T>, key: T -> real): (r: seq<T>)
    ensures multiset(r) == multiset(s) + multiset{x}
    ensures |r| == |s| + 1
    ensures x in r && forall y :: y in s ==> y in r
    ensures forall y :: y in r ==> y == x || y in s
    decreases |s|
  {
    if s == [] then [x]
    else if key(x) < key(s[0]) then [x] + s
    else
      assert s == [s[0]] + s[1..];
      [s[0]] + InsertBy(x, s[1..], key)
  }

  lemma {:induction false} InsertBySorted<T>(x: T, s: seq<T>, key: T -> real)
    requires SortedBy(s, key)
    ensures SortedBy(InsertBy(x, s, key), key)
    decreases |s|
  {
    if s != [] && key(x) >= key(s[0]) {
      var tail := s[1..];
      var t := InsertBy(x, tail, key);
      assert SortedBy(tail, key);
      InsertBySorted(x, tail, key);
      assert forall y :: y in tail ==> key(s[0]) <= key(y);
      assert forall y :: y in t ==> key(s[0]) <= key(y);
      var r := [s[0]] + t;
      assert r == InsertBy(x, s, key);
      forall i, j | 0 <= i < j < |r| ensures key(r[i]) <= key(r[j]) {
        assert r[j] == t[j - 1];
        if i > 0 {
          assert r[i] == t[i - 1];
        } else {
          assert r[j] in t;
        }
      }
    }
  }

  /** Stable sort by `key` (Python `sorted(s, key=key)` and `s.sort(key=key)`). */
  function SortBy<T>(s: seq<T>, key: T -> real): (r: seq<T>)
    ensures multiset(r) == multiset(s)
    ensures |r| == |s|
    ensures SortedBy(r, key)
    decreases |s|
  {
    if s == [] then []
    else
      assert s == s[..|s| - 1] + [s[|s| - 1]];
      var sortedInit := SortBy(s[..|s| - 1], key);
      InsertBySorted(s[|s| - 1], sortedInit, key);
      InsertBy(s[|s| - 1], sortedInit, key)
  }

  /** The case where `x` goes in front: no element of `s` shares its key. */
  lemma InsertByStableFront<T>(x: T, s: seq<T>, key: T -> real, v: real)
    requires SortedBy(s, key) && s != [] && key(x) < key(s[0])
    ensures Filter(InsertBy(x, s, key), KeyIs(key, v)) ==
            Filter(s, KeyIs(key, v)) + (if key(x) == v then [x] else [])
  {
    var p := KeyIs(key, v);
    assert InsertBy(x, s, key) == [x] + s;
    if key(x) == v {
      assert forall y :: y in s ==> !p(y) by {
        forall y | y in s ensures !p(y) {
          var k :| 0 <= k < |s| && s[k] == y;
          assert key(s[0]) <= key(s[k]);
        }
      }
      FilterNone(s, p);
    }
    assert ([x] + s)[0] == x && ([x] + s)[1..] == s;
  }

  lemma {:induction false} InsertByStable<T>(x: T, s: seq<T>, key: T -> real, v: real)
    requires SortedBy(s, key)
    ensures Filter(InsertBy(x, s, key), KeyIs(key, v)) ==
            Filter(s, KeyIs(key, v)) + (if key(x) == v then [x] else [])
    decreases |s|
  {
    var p := KeyIs(key, v);
    if s == [] {
      assert Filter([x], p) == (if p(x) then [x] else []) + Filter([], p);
    } else if key(x) < key(s[0]) {
      InsertByStableFront(x, s, key, v);
    } else {
      var t := InsertBy(x, s[1..], key);
      var head := if p(s[0]) then [s[0]] else [];
      var xPart := if key(x) == v then [x] else [];
      assert InsertBy(x, s, key) == [s[0]] + t;
      assert SortedBy(s[1..], key);
      InsertByStable(x, s[1..], key, v);
      assert Filter([s[0]] + t, p) == head + Filter(t, p) by {
        assert ([s[0]] + t)[0] == s[0] && ([s[0]] + t)[1..] == t;
      }
      assert Filter(s, p) == head + Filter(s[1..], p);
      calc {
        Filter(InsertBy(x, s, key), p);
        head + Filter(t, p);
        head + (Filter(s[1..], p) + xPart);
        { AppendAssoc(head, Filter(s[1..], p), xPart); }
        (head + Filter(s[1..], p)) + xPart;
        Filter(s, p) + xPart;
      }
    }
  }

  /** Elements with equal keys keep their relative order. */
  lemma {:induction false} SortByStable<T>(s: seq<T>, key: T -> real, v: real)
    ensures Filter(SortBy(s, key), KeyIs(key, v)) == Filter(s, KeyIs(key, v))
    decreases |s|
  {
    if s != [] {
      var p := KeyIs(key, v);
      var init, last := s[..|s| - 1], s[|s| - 1];
      assert s == init + [last];
      var tailPart := if key(last) == v then [last] else [];
      assert Filter(s, p) == Filter(init, p) + tailPart by {
        FilterAppend(init, [last], p);
        assert Filter([last], p) == tailPart + Filter([], p);
      }
      var sortedInit := SortBy(init, key);
      assert SortBy(s, key) == InsertBy(last, sortedInit, key);
      SortByStable(init, key, v);
      InsertByStable(last, sortedInit, key, v);
    }
  }
}
