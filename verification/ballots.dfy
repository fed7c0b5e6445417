/**
 Ballot construction from already-split CSV records. Row 0 is the header:
 "Timestamp" followed by one column per candidate. Every later row is one
 voter: a timestamp followed by one cell per candidate holding the rank(s)
 that voter gave the candidate, several ranks joined by `;`.
 */
module Ballots {
  import opened Wrappers
  import opened Strings

  /** One voter: the timestamp of the row and the candidate names it ranked,
      most preferred first. */
  datatype Voter = Voter(timestamp: string, votes: seq<string>)

  /** The two ways the records can be rejected before any voter is built. */
  datatype CsvError =
    | NoHeaderLine       // there are no records at all
    | NoTimestampField   // the header is empty or does not start with "Timestamp"

  /** The result pair of `tabulateVoters`: the voters and a possibly-nil error. */
  datatype Tabulation = Tabulation(voters: seq<Voter>, err: Option<CsvError>)

  const TimestampHeader: string := "Timestamp"

  /** Checks the header line; returns `None` (Go's nil) when the records may be tabulated. */
  function ValidateCsvRecords(records: seq<seq<string>>): (err: Option<CsvError>)
    ensures err.None? <==> |records| >= 1 && |records[0]| >= 1 && records[0][0] == TimestampHeader
    ensures err == Some(NoHeaderLine) <==> |records| == 0
  {
    if |records| < 1 then Some(NoHeaderLine)
    else if |records[0]| < 1 || records[0][0] != TimestampHeader then Some(NoTimestampField)
    else None
  }

  /** A cell holds `ranking` when it equals it, or when the rank before its first `;` does. */
  predicate Holds(cell: string, ranking: string)
  {
    cell == ranking || FirstPart(cell) == ranking
  }

  /** The index of the first cell holding `ranking`, or -1 when no cell does. */
  function IndexOfRanking(cells: seq<string>, ranking: string): (pos: int)
    ensures -1 <= pos < |cells|
    ensures pos == -1 <==> forall i :: 0 <= i < |cells| ==> !Holds(cells[i], ranking)
    ensures 0 <= pos ==> Holds(cells[pos], ranking)
    ensures forall i :: 0 <= i < pos ==> !Holds(cells[i], ranking)
  {
    if |cells| == 0 then -1
    else if Holds(cells[0], ranking) then 0
    else
      var p := IndexOfRanking(cells[1..], ranking);
      if p == -1 then -1 else p + 1
  }

  /** For a rank token without `;`, only the first `;`-part of a cell is consulted:
      a cell `a;b` holds the rank `a` and does not hold any rank hidden in `b`. */
  lemma {:induction false} HoldsOnlyFirstPart(a: string, b: string, ranking: string)
    requires ';' !in a && ';' !in ranking
    ensures Holds(a + ";" + b, ranking) <==> ranking == a
  {
    FirstPartOfJoin(a, b);
    assert (a + ";" + b)[|a|] == ';';
  }

  /** The example from the source's comment: "1;2" counts as rank 1 and not as rank 2. */
  lemma {:induction false} MultiRankCellCountsOnce()
    ensures Holds("1;2", "1") && !Holds("1;2", "2")
  {
    HoldsOnlyFirstPart("1", "2", "1");
    HoldsOnlyFirstPart("1", "2", "2");
    assert "1" + ";" + "2" == "1;2";
  }

  /** For a rank token without `;`, holding it is exactly having it as first part. */
  lemma {:induction false} HoldsPlainRanking(cell: string, ranking: string)
    requires ';' !in ranking
    ensures Holds(cell, ranking) <==> FirstPart(cell) == ranking
  {
    if cell == ranking {
      FirstPartWhole(cell);
    }
  }

  /** The candidate `candidates[IndexOfRanking(cells, ranking)]` that a ranking selects,
      if any cell holds it. */
  predicate Selects(cells: seq<string>, candidates: seq<string>, ranking: string, name: string)
    requires |cells| <= |candidates|
  {
    var i := IndexOfRanking(cells, ranking);
    0 <= i && candidates[i] == name
  }

  /** One voter's ranked names: walk the rank tokens best to worst and take the
      header name of the column holding each; tokens found nowhere are skipped.
      `cells` and `candidates` are the row and the header without their first column. */
  function VotesOf(cells: seq<string>, candidates: seq<string>, rankings: seq<string>): (votes: seq<string>)
    requires |cells| <= |candidates|
    ensures |votes| <= |rankings|
    ensures forall name :: name in votes <==>
              exists j :: 0 <= j < |rankings| && Selects(cells, candidates, rankings[j], name)
  {
    if |rankings| == 0 then []
    else
      var i := IndexOfRanking(cells, rankings[0]);
      var rest := VotesOf(cells, candidates, rankings[1..]);
      assert forall j :: 1 <= j < |rankings| ==> rankings[j] == rankings[1..][j - 1];
      if i == -1 then rest else [candidates[i]] + rest
  }

  /** The names follow the order of the rank tokens: no tokens give no names, and one more
      token at the end adds its selected name, if any, at the end. Together with the body,
      which adds the first token's name in front, this fixes the order of `votes` to be the
      order of `rankings`, best first. */
  lemma {:induction false} VotesOfSnoc(cells: seq<string>, candidates: seq<string>, rankings: seq<string>, ranking: string)
    requires |cells| <= |candidates|
    ensures VotesOf(cells, candidates, []) == []
    ensures var i := IndexOfRanking(cells, ranking);
            VotesOf(cells, candidates, rankings + [ranking]) ==
              VotesOf(cells, candidates, rankings) + (if i == -1 then [] else [candidates[i]])
  {
    var extended := rankings + [ranking];
    if |rankings| == 0 {
      assert extended[1..] == [];
    } else {
      assert extended[0] == rankings[0];
      assert extended[1..] == rankings[1..] + [ranking];
      VotesOfSnoc(cells, candidates, rankings[1..], ranking);
    }
  }

  /** A candidate can only get a single vote: with distinct rank tokens free of `;`
      and distinct candidate names, no name is listed twice. */
  lemma {:induction false} VotesOfDistinct(cells: seq<string>, candidates: seq<string>, rankings: seq<string>)
    requires |cells| <= |candidates|
    requires Distinct(candidates) && Distinct(rankings)
    requires forall j :: 0 <= j < |rankings| ==> ';' !in rankings[j]
    ensures Distinct(VotesOf(cells, candidates, rankings))
  {
    if |rankings| > 0 {
      var i := IndexOfRanking(cells, rankings[0]);
      var rest := VotesOf(cells, candidates, rankings[1..]);
      VotesOfDistinct(cells, candidates, rankings[1..]);
      if i != -1 {
        FirstNameNotRepeated(cells, candidates, rankings);
        DistinctCons(candidates[i], rest);
      }
    }
  }

  /** The name the first rank token selects is selected by no later token: two distinct
      `;`-free tokens cannot both be the first part of the same cell. */
  lemma {:induction false} FirstNameNotRepeated(cells: seq<string>, candidates: seq<string>, rankings: seq<string>)
    requires |cells| <= |candidates| && |rankings| > 0
    requires Distinct(candidates) && Distinct(rankings)
    requires forall j :: 0 <= j < |rankings| ==> ';' !in rankings[j]
    requires IndexOfRanking(cells, rankings[0]) != -1
    ensures candidates[IndexOfRanking(cells, rankings[0])] !in VotesOf(cells, candidates, rankings[1..])
  {
    var i := IndexOfRanking(cells, rankings[0]);
    if candidates[i] in VotesOf(cells, candidates, rankings[1..]) {
      var j :| 0 <= j < |rankings[1..]| && Selects(cells, candidates, rankings[1..][j], candidates[i]);
      var r := rankings[1..][j];
      assert IndexOfRanking(cells, r) == i;
      HoldsPlainRanking(cells[i], rankings[0]);
      HoldsPlainRanking(cells[i], r);
      assert false;
    }
  }

  lemma {:induction false} DistinctCons(x: string, s: seq<string>)
    requires Distinct(s) && x !in s
    ensures Distinct([x] + s)
  {
    var t := [x] + s;
    forall a, b | 0 <= a < b < |t|
      ensures t[a] != t[b]
    {
      if a > 0 {
        assert t[a] == s[a - 1] && t[b] == s[b - 1];
      } else {
        assert t[b] in s;
      }
    }
  }

  /** Data rows that `tabulateVoters` may index without going out of range: each row
      has a timestamp and no more cells than the header has columns. Go's CSV reader
      enforces the stronger rule that every record has as many fields as the first. */
  predicate RowsFitHeader(records: seq<seq<string>>)
    requires |records| >= 1
  {
    forall i :: 1 <= i < |records| ==> 1 <= |records[i]| <= |records[0]|
  }

  function VotersOf(rows: seq<seq<string>>, candidates: seq<string>, rankings: seq<string>): (voters: seq<Voter>)
    requires forall i :: 0 <= i < |rows| ==> 1 <= |rows[i]| <= |candidates| + 1
    ensures |voters| == |rows|
    ensures forall i :: 0 <= i < |rows| ==>
              voters[i] == Voter(rows[i][0], VotesOf(rows[i][1..], candidates, rankings))
  {
    if |rows| == 0 then []
    else [Voter(rows[0][0], VotesOf(rows[0][1..], candidates, rankings))]
         + VotersOf(rows[1..], candidates, rankings)
  }

  /** Builds one voter per data row, in row order, after validating the header. */
  function TabulateVoters(records: seq<seq<string>>, rankings: seq<string>): (t: Tabulation)
    requires ValidateCsvRecords(records).None? ==> RowsFitHeader(records)
    ensures t.err == ValidateCsvRecords(records)
    ensures t.err.Some? ==> t.voters == []
    ensures t.err.None? ==>
              && |t.voters| == |records| - 1
              && forall i :: 0 <= i < |t.voters| ==>
                   && t.voters[i].timestamp == records[i + 1][0]
                   && t.voters[i].votes == VotesOf(records[i + 1][1..], records[0][1..], rankings)
  {
    var err := ValidateCsvRecords(records);
    if err.Some? then Tabulation([], err)
    else
      var rows := records[1..];
      assert forall i :: 0 <= i < |rows| ==> rows[i] == records[i + 1];
      Tabulation(VotersOf(rows, records[0][1..], rankings), None)
  }

  /** What the runoff relies on: with distinct candidate names in the header and
      distinct rank tokens free of `;`, no tabulated voter ranks a candidate twice,
      and every ranked name is a header candidate. */
  lemma {:induction false} TabulatedVotesDistinct(records: seq<seq<string>>, rankings: seq<string>)
    requires ValidateCsvRecords(records).None? && RowsFitHeader(records)
    requires Distinct(records[0][1..]) && Distinct(rankings)
    requires forall j :: 0 <= j < |rankings| ==> ';' !in rankings[j]
    ensures forall v :: v in TabulateVoters(records, rankings).voters ==>
              Distinct(v.votes) && |v.votes| <= |rankings| && forall name :: name in v.votes ==> name in records[0][1..]
  {
    var t := TabulateVoters(records, rankings);
    forall v | v in t.voters
      ensures Distinct(v.votes) && |v.votes| <= |rankings|
      ensures forall name :: name in v.votes ==> name in records[0][1..]
    {
      var i :| 0 <= i < |t.voters| && t.voters[i] == v;
      VotesOfDistinct(records[i + 1][1..], records[0][1..], rankings);
    }
  }
}
