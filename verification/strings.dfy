/**
 The two string primitives the tabulator relies on: Go's built-in `<` on
 strings (used to order candidate names) and the "first `;`-separated part"
 of a CSV cell (what `strings.Split(s, ";")[0]` yields).
 */
module Strings {

  /** Go compares strings byte-wise, lexicographically. For well-formed UTF-8 the
      byte order coincides with the order of code points, which is the order of
      Dafny's `char`, so comparing characters gives the same answer. A proper
      prefix is smaller than the longer string. */
  predicate Less(a: string, b: string)
  {
    if |a| == 0 then |b| > 0
    else if |b| == 0 then false
    else if a[0] != b[0] then a[0] < b[0]
    else Less(a[1..], b[1..])
  }

  lemma {:induction false} LessIrreflexive(a: string)
    ensures !Less(a, a)
  {
    if |a| > 0 {
      LessIrreflexive(a[1..]);
    }
  }

  lemma {:induction false} LessTransitive(a: string, b: string, c: string)
    requires Less(a, b) && Less(b, c)
    ensures Less(a, c)
  {
    if |a| > 0 && |b| > 0 && |c| > 0 && a[0] == b[0] && b[0] == c[0] {
      LessTransitive(a[1..], b[1..], c[1..]);
    }
  }

  /** Any two different strings are ordered one way or the other. */
  lemma {:induction false} LessTotal(a: string, b: string)
    ensures a == b || Less(a, b) || Less(b, a)
  {
    if |a| > 0 && |b| > 0 && a[0] == b[0] {
      LessTotal(a[1..], b[1..]);
      if a[1..] == b[1..] {
        assert a == [a[0]] + a[1..] && b == [b[0]] + b[1..];
      }
    }
  }

  lemma {:induction false} LessAsymmetric(a: string, b: string)
    requires Less(a, b)
    ensures !Less(b, a)
  {
    if Less(b, a) {
      LessTransitive(a, b, a);
      LessIrreflexive(a);
    }
  }

  /** No string occurs twice. */
  predicate Distinct(s: seq<string>)
  {
    forall i, j :: 0 <= i < j < |s| ==> s[i] != s[j]
  }

  lemma {:induction false} DistinctSnoc(s: seq<string>, x: string)
    requires Distinct(s) && x !in s
    ensures Distinct(s + [x])
  {
    var t := s + [x];
    forall i, j | 0 <= i < j < |t|
      ensures t[i] != t[j]
    {
      assert t[i] == s[i];
    }
  }

  /** The part of a cell before its first `;`, or the whole cell when it has none:
      element 0 of `strings.Split(s, ";")`, which always has at least one element. */
  function FirstPart(s: string): (r: string)
    ensures ';' !in r
    ensures r <= s
    ensures |r| < |s| ==> s[|r|] == ';'
  {
    if |s| == 0 then ""
    else if s[0] == ';' then ""
    else [s[0]] + FirstPart(s[1..])
  }

  /** A cell without a separator is its own first part, and only such a cell is. */
  lemma {:induction false} FirstPartWhole(s: string)
    ensures FirstPart(s) == s <==> ';' !in s
  {
    if |s| > 0 && s[0] != ';' {
      FirstPartWhole(s[1..]);
      assert s == [s[0]] + s[1..];
    }
  }

  /** Splitting `a;b` on `;` yields `a` first, whatever `b` holds. */
  lemma {:induction false} FirstPartOfJoin(a: string, b: string)
    requires ';' !in a
    ensures FirstPart(a + ";" + b) == a
  {
    var s := a + ";" + b;
    var r := FirstPart(s);
    assert s[|a|] == ';';
    assert a == s[..|a|];
  }
}
