/**
 The ordered view of a round's tally. The source lists the map's entries in
 Go's (unspecified) map iteration order, stable-sorts them by candidate name
 and then stable-sorts that by vote count. The result is ordered by count and,
 among equal counts, by name, whatever the iteration order was.
 */
module Sorting {
  import opened Strings

  /** One tally entry, Go's `iterationResult`. */
  datatype IterationResult = IterationResult(voteCount: nat, candidate: string)

  /** Every earlier element stands in `rel` to every later one. */
  ghost predicate Pairwise<T>(s: seq<T>, rel: (T, T) -> bool)
  {
    forall i, j :: 0 <= i < j < |s| ==> rel(s[i], s[j])
  }

  lemma {:induction false} PairwiseTail<T>(s: seq<T>, rel: (T, T) -> bool)
    requires Pairwise(s, rel) && |s| > 0
    ensures Pairwise(s[1..], rel)
  {
    var t := s[1..];
    forall i, j | 0 <= i < j < |t|
      ensures rel(t[i], t[j])
    {
      assert t[i] == s[i + 1] && t[j] == s[j + 1];
    }
  }

  lemma {:induction false} PairwiseCons<T>(x: T, s: seq<T>, rel: (T, T) -> bool)
    requires Pairwise(s, rel) && forall e :: e in s ==> rel(x, e)
    ensures Pairwise([x] + s, rel)
  {
    var t := [x] + s;
    forall i, j | 0 <= i < j < |t|
      ensures rel(t[i], t[j])
    {
      if i == 0 {
        assert t[j] in s;
      } else {
        assert t[i] == s[i - 1] && t[j] == s[j - 1];
      }
    }
  }

  /** The comparator of the first `sort.SliceStable` call. */
  predicate ByName(a: IterationResult, b: IterationResult)
  {
    Less(a.candidate, b.candidate)
  }

  /** The comparator of the second `sort.SliceStable` call. */
  predicate ByCount(a: IterationResult, b: IterationResult)
  {
    a.voteCount < b.voteCount
  }

  /** The order the double sort produces: by count, then by name. */
  predicate Precedes(a: IterationResult, b: IterationResult)
  {
    a.voteCount < b.voteCount || (a.voteCount == b.voteCount && Less(a.candidate, b.candidate))
  }

  ghost predicate Ordered(s: seq<IterationResult>)
  {
    Pairwise(s, Precedes)
  }

  /** Where a stable sort puts an element that came after everything in the sorted
      `acc`: behind every element it is not `less` than. */
  function InsertPos<T>(acc: seq<T>, x: T, less: (T, T) -> bool): (k: nat)
    ensures k <= |acc|
    ensures forall i :: k <= i < |acc| ==> less(x, acc[i])
    ensures k > 0 ==> !less(x, acc[k - 1])
  {
    if |acc| == 0 then 0
    else if less(x, acc[|acc| - 1]) then InsertPos(acc[..|acc| - 1], x, less)
    else |acc|
  }

  /** `sort.SliceStable`: a stable sort by `less`, written as insertion sort. For a strict
      weak order the stable ordering of a sequence is unique, so any stable algorithm
      gives this same result. */
  function StableSort<T(==)>(s: seq<T>, less: (T, T) -> bool): (r: seq<T>)
    ensures multiset(r) == multiset(s)
  {
    if |s| == 0 then []
    else
      var acc := StableSort(s[..|s| - 1], less);
      var x := s[|s| - 1];
      var k := InsertPos(acc, x, less);
      InsertMultiset(acc, k, x);
      assert s == s[..|s| - 1] + [x];
      acc[..k] + [x] + acc[k..]
  }

  lemma {:induction false} InsertMultiset<T>(acc: seq<T>, k: nat, x: T)
    requires k <= |acc|
    ensures multiset(acc[..k] + [x] + acc[k..]) == multiset(acc) + multiset{x}
  {
    assert acc == acc[..k] + acc[k..];
  }

  /** Inserting `x` at `k` keeps a pairwise relation when `x` relates to its new
      neighbours on both sides. */
  lemma {:induction false} InsertPairwise<T>(acc: seq<T>, k: nat, x: T, rel: (T, T) -> bool)
    requires k <= |acc| && Pairwise(acc, rel)
    requires forall i :: 0 <= i < k ==> rel(acc[i], x)
    requires forall i :: k <= i < |acc| ==> rel(x, acc[i])
    ensures Pairwise(acc[..k] + [x] + acc[k..], rel)
  {
    var r := acc[..k] + [x] + acc[k..];
    forall a, b | 0 <= a < b < |r|
      ensures rel(r[a], r[b])
    {
      if b < k {
        assert r[a] == acc[a] && r[b] == acc[b];
      } else if b == k {
        assert r[a] == acc[a] && r[b] == x;
      } else if a < k {
        assert r[a] == acc[a] && r[b] == acc[b - 1];
      } else if a == k {
        assert r[a] == x && r[b] == acc[b - 1];
      } else {
        assert r[a] == acc[a - 1] && r[b] == acc[b - 1];
      }
    }
  }

  ghost predicate DistinctNames(s: seq<IterationResult>)
  {
    forall i, j :: 0 <= i < j < |s| ==> s[i].candidate != s[j].candidate
  }

  /** The first stable sort, over entries with distinct names, orders them strictly by name. */
  lemma {:induction false} NameSortAscending(s: seq<IterationResult>)
    requires DistinctNames(s)
    ensures Pairwise(StableSort(s, ByName), ByName)
  {
    if |s| > 0 {
      var prefix := s[..|s| - 1];
      var x := s[|s| - 1];
      var acc := StableSort(prefix, ByName);
      NameSortAscending(prefix);
      var k := InsertPos(acc, x, ByName);
      NewNameAfterSort(prefix, x);
      NamesBeforeInsertPos(acc, k, x);
      InsertPairwise(acc, k, x, ByName);
    }
  }

  /** Sorting the entries keeps their names apart from a name none of them had. */
  lemma {:induction false} NewNameAfterSort(prefix: seq<IterationResult>, x: IterationResult)
    requires forall i :: 0 <= i < |prefix| ==> prefix[i].candidate != x.candidate
    ensures forall e :: e in StableSort(prefix, ByName) ==> e.candidate != x.candidate
  {
    var acc := StableSort(prefix, ByName);
    forall e | e in acc
      ensures e.candidate != x.candidate
    {
      assert e in multiset(prefix);
    }
  }

  /** In a sequence strictly ascending by name, everything before the insertion point of
      a new name is smaller than it. */
  lemma {:induction false} NamesBeforeInsertPos(acc: seq<IterationResult>, k: nat, x: IterationResult)
    requires Pairwise(acc, ByName) && k <= |acc|
    requires k > 0 ==> !ByName(x, acc[k - 1])
    requires forall e :: e in acc ==> e.candidate != x.candidate
    ensures forall i :: 0 <= i < k ==> ByName(acc[i], x)
  {
    if k > 0 {
      var last := acc[k - 1].candidate;
      LessTotal(last, x.candidate);
      forall i | 0 <= i < k - 1
        ensures ByName(acc[i], x)
      {
        LessTransitive(acc[i].candidate, last, x.candidate);
      }
    }
  }

  /** The second stable sort, over entries already strictly ordered by name, yields the
      order by count and then by name. */
  lemma {:induction false} CountSortOrdered(s: seq<IterationResult>)
    requires Pairwise(s, ByName)
    ensures Ordered(StableSort(s, ByCount))
  {
    if |s| > 0 {
      var prefix := s[..|s| - 1];
      var x := s[|s| - 1];
      var acc := StableSort(prefix, ByCount);
      assert Pairwise(prefix, ByName);
      CountSortOrdered(prefix);
      var k := InsertPos(acc, x, ByCount);
      EarlierNamesAfterSort(prefix, x);
      CountsBeforeInsertPos(acc, k, x);
      InsertPairwise(acc, k, x, Precedes);
    }
  }

  /** Sorting entries that all precede `x` by name keeps them all preceding it. */
  lemma {:induction false} EarlierNamesAfterSort(prefix: seq<IterationResult>, x: IterationResult)
    requires forall i :: 0 <= i < |prefix| ==> ByName(prefix[i], x)
    ensures forall e :: e in StableSort(prefix, ByCount) ==> ByName(e, x)
  {
    forall e | e in StableSort(prefix, ByCount)
      ensures ByName(e, x)
    {
      assert e in multiset(prefix);
    }
  }

  /** In a sequence ordered by (count, name), everything before the count insertion point of
      an entry whose name comes after all of theirs precedes that entry. */
  lemma {:induction false} CountsBeforeInsertPos(acc: seq<IterationResult>, k: nat, x: IterationResult)
    requires Ordered(acc) && k <= |acc|
    requires k > 0 ==> !ByCount(x, acc[k - 1])
    requires forall e :: e in acc ==> ByName(e, x)
    ensures forall i :: 0 <= i < k ==> Precedes(acc[i], x)
  {
    forall i | 0 <= i < k
      ensures Precedes(acc[i], x)
    {
      if i < k - 1 {
        assert Precedes(acc[i], acc[k - 1]);
      }
      assert ByName(acc[i], x);
    }
  }

  /** `order` lists every key of the tally exactly once, as a Go map range does. */
  ghost predicate KeyOrder(m: map<string, nat>, order: seq<string>)
  {
    (forall k :: k in order <==> k in m) && Distinct(order)
  }

  lemma {:induction false} KeyOrderLength(m: map<string, nat>, order: seq<string>)
    requires KeyOrder(m, order)
    ensures |order| == |m|
  {
    if |order| == 0 {
      assert m.Keys == {};
    } else {
      var m' := m - {order[0]};
      assert m'.Keys == m.Keys - {order[0]};
      forall k
        ensures k in order[1..] <==> k in m'
      {
        if k in order[1..] {
          var j :| 1 <= j < |order| && order[j] == k;
        }
        if k in m' {
          var j :| 0 <= j < |order| && order[j] == k;
        }
      }
      KeyOrderLength(m', order[1..]);
    }
  }

  /** The entries of the tally in the given iteration order: one per key, carrying that
      key's count, no name twice. */
  function Entries(m: map<string, nat>, order: seq<string>): (entries: seq<IterationResult>)
    requires KeyOrder(m, order)
    ensures |entries| == |m|
    ensures forall e :: e in entries <==> e.candidate in m && e.voteCount == m[e.candidate]
    ensures DistinctNames(entries)
  {
    var entries := seq(|order|, i requires 0 <= i < |order| => IterationResult(m[order[i]], order[i]));
    KeyOrderLength(m, order);
    assert forall e: IterationResult | e.candidate in m && e.voteCount == m[e.candidate] :: e in entries by {
      forall e: IterationResult | e.candidate in m && e.voteCount == m[e.candidate]
        ensures e in entries
      {
        var i :| 0 <= i < |order| && order[i] == e.candidate;
        assert entries[i] == e;
      }
    }
    entries
  }

  /** Go's `sortIterationResults`: one entry per tally key carrying its count, ordered by
      count and, among equal counts, by ascending name. */
  function SortIterationResults(m: map<string, nat>, order: seq<string>): (sorted: seq<IterationResult>)
    requires KeyOrder(m, order)
    ensures |sorted| == |m|
    ensures forall e :: e in sorted <==> e.candidate in m && e.voteCount == m[e.candidate]
    ensures Ordered(sorted)
  {
    var entries := Entries(m, order);
    var byName := StableSort(entries, ByName);
    NameSortAscending(entries);
    CountSortOrdered(byName);
    var sorted := StableSort(byName, ByCount);
    assert forall e :: e in sorted <==> e in entries by {
      assert multiset(sorted) == multiset(entries);
      forall e ensures e in sorted <==> e in entries {
        assert e in sorted <==> e in multiset(sorted);
        assert e in entries <==> e in multiset(entries);
      }
    }
    assert |sorted| == |entries| by {
      assert |multiset(sorted)| == |multiset(entries)|;
    }
    sorted
  }

  /** Two equally long sequences strictly ordered by (count, name) with the same elements
      are equal. */
  lemma {:induction false} OrderedUnique(a: seq<IterationResult>, b: seq<IterationResult>)
    requires Ordered(a) && Ordered(b)
    requires |a| == |b| && forall e :: e in a <==> e in b
    ensures a == b
  {
    if |a| > 0 {
      assert a[0] in a;
      var j :| 0 <= j < |b| && b[j] == a[0];
      assert b[0] in b;
      var i :| 0 <= i < |a| && a[i] == b[0];
      if i != 0 {
        assert Precedes(a[0], a[i]);
        PrecedesStrict(a[0], b[0]);
      }
      forall e
        ensures e in a[1..] <==> e in b[1..]
      {
        if e in a[1..] {
          var i' :| 1 <= i' < |a| && a[i'] == e;
          assert Precedes(a[0], a[i']);
          PrecedesStrict(a[0], e);
          assert e in a;
          var j' :| 0 <= j' < |b| && b[j'] == e;
          assert j' != 0;
        }
        if e in b[1..] {
          var j' :| 1 <= j' < |b| && b[j'] == e;
          assert Precedes(b[0], b[j']);
          PrecedesStrict(b[0], e);
          assert e in b;
          var i' :| 0 <= i' < |a| && a[i'] == e;
          assert i' != 0;
        }
      }
      OrderedUnique(a[1..], b[1..]);
      assert a == [a[0]] + a[1..] && b == [b[0]] + b[1..];
    }
  }

  /** The (count, name) order is strict: never both ways, never reflexive. */
  lemma {:induction false} PrecedesStrict(x: IterationResult, y: IterationResult)
    requires Precedes(x, y)
    ensures !Precedes(y, x) && x != y
  {
    if x.voteCount == y.voteCount {
      LessAsymmetric(x.candidate, y.candidate);
      LessIrreflexive(x.candidate);
    }
  }

  /** Go's map iteration order does not matter: every listing of the keys sorts to
      the same sequence. */
  lemma {:induction false} SortIgnoresIterationOrder(m: map<string, nat>, order1: seq<string>, order2: seq<string>)
    requires KeyOrder(m, order1) && KeyOrder(m, order2)
    ensures SortIterationResults(m, order1) == SortIterationResults(m, order2)
  {
    OrderedUnique(SortIterationResults(m, order1), SortIterationResults(m, order2));
  }
}
