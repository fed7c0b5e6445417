/**
 The per-round first-choice tally and the candidate universe of a ballot
 collection. A voter whose ranking is empty is exhausted: it adds nothing to
 the tally but stays in the collection.
 */
module Tally {
  import opened Ballots

  /** The indices of the voters whose ranking is non-empty and starts with `c`. */
  ghost function Supporters(voters: seq<Voter>, c: string): set<nat>
  {
    set i: nat | i < |voters| && |voters[i].votes| > 0 && voters[i].votes[0] == c
  }

  /** The indices of the voters whose ranking is not yet exhausted. */
  ghost function Active(voters: seq<Voter>): set<nat>
  {
    set i: nat | i < |voters| && |voters[i].votes| > 0
  }

  /** Every candidate named anywhere in any voter's ranking. */
  ghost function Live(voters: seq<Voter>): set<string>
  {
    set i, c | 0 <= i < |voters| && c in voters[i].votes :: c
  }

  /** Sum of all counts of a tally. */
  ghost function Total(m: map<string, nat>): nat
    decreases |m.Keys|
  {
    if m.Keys == {} then 0
    else
      var k :| k in m;
      assert (m - {k}).Keys == m.Keys - {k};
      m[k] + Total(m - {k})
  }

  /** Go's `countWinningVotes`: the number of first-choice votes of every candidate that
      heads at least one ranking. Built voter by voter, as the source's loop does; a
      missing key reads as 0, like a Go map. */
  function CountWinningVotes(voters: seq<Voter>): (tally: map<string, nat>)
    ensures forall c :: c in tally <==> Supporters(voters, c) != {}
    ensures forall c :: c in tally ==> tally[c] == |Supporters(voters, c)|
  {
    if |voters| == 0 then map[]
    else
      var prefix := voters[..|voters| - 1];
      var v := voters[|voters| - 1];
      var m := CountWinningVotes(prefix);
      SupportersLast(voters);
      if |v.votes| < 1 then m
      else m[v.votes[0] := (if v.votes[0] in m then m[v.votes[0]] else 0) + 1]
  }

  /** The last voter supports the head of its ranking and no other candidate. */
  lemma {:induction false} SupportersLast(voters: seq<Voter>)
    requires |voters| > 0
    ensures var prefix := voters[..|voters| - 1];
            var v := voters[|voters| - 1];
            forall c :: Supporters(voters, c) ==
              if |v.votes| > 0 && v.votes[0] == c then Supporters(prefix, c) + {|prefix|}
              else Supporters(prefix, c)
    ensures var prefix := voters[..|voters| - 1];
            forall c :: |prefix| !in Supporters(prefix, c)
  {
  }

  /** The last voter is active exactly when its ranking is non-empty. */
  lemma {:induction false} ActiveLast(voters: seq<Voter>)
    requires |voters| > 0
    ensures var prefix := voters[..|voters| - 1];
            Active(voters) == if |voters[|voters| - 1].votes| > 0 then Active(prefix) + {|prefix|} else Active(prefix)
    ensures |voters| - 1 !in Active(voters[..|voters| - 1])
  {
  }

  /** Taking one key out of the sum leaves the sum of the others. */
  lemma {:induction false} TotalRemove(m: map<string, nat>, k: string)
    requires k in m
    ensures Total(m) == m[k] + Total(m - {k})
    decreases |m.Keys|, 1
  {
    var j := TotalPick(m);
    if j != k {
      TotalSwap(m, j, k);
    }
  }

  /** The key the definition of `Total` takes out first. */
  lemma {:induction false} TotalPick(m: map<string, nat>) returns (j: string)
    requires m.Keys != {}
    ensures j in m && Total(m) == m[j] + Total(m - {j})
  {
    j :| j in m && Total(m) == m[j] + Total(m - {j});
  }

  /** Taking out either of two keys first gives the same sum. */
  lemma {:induction false} TotalSwap(m: map<string, nat>, j: string, k: string)
    requires j in m && k in m && j != k
    ensures m[j] + Total(m - {j}) == m[k] + Total(m - {k})
    decreases |m.Keys|, 0
  {
    var withoutJ, withoutK := m - {j}, m - {k};
    assert withoutJ.Keys == m.Keys - {j};
    assert withoutK.Keys == m.Keys - {k};
    var rest := withoutJ - {k};
    assert rest == withoutK - {j};
    TotalRemove(withoutJ, k);
    TotalRemove(withoutK, j);
    assert Total(withoutJ) == m[k] + Total(rest);
    assert Total(withoutK) == m[j] + Total(rest);
  }

  /** Setting one key changes the sum by the difference of old and new count. */
  lemma {:induction false} TotalUpdate(m: map<string, nat>, k: string, n: nat)
    ensures Total(m[k := n]) + (if k in m then m[k] else 0) == Total(m) + n
  {
    var m' := m[k := n];
    TotalRemove(m', k);
    assert m' - {k} == m - {k};
    if k in m {
      TotalRemove(m, k);
    } else {
      assert m - {k} == m;
    }
  }

  /** Counting one more vote for a key raises the sum by one. */
  lemma {:induction false} TotalIncrement(m: map<string, nat>, k: string)
    ensures Total(m[k := (if k in m then m[k] else 0) + 1]) == Total(m) + 1
  {
    TotalUpdate(m, k, (if k in m then m[k] else 0) + 1);
  }

  /** The last voter adds one vote to the head of its ranking, if it has one. */
  lemma {:induction false} CountLast(voters: seq<Voter>)
    requires |voters| > 0
    ensures var m := CountWinningVotes(voters[..|voters| - 1]);
            var v := voters[|voters| - 1];
            CountWinningVotes(voters) ==
              if |v.votes| < 1 then m else m[v.votes[0] := (if v.votes[0] in m then m[v.votes[0]] else 0) + 1]
  {
  }

  /** The tally's counts add up to the number of voters that are not exhausted. */
  lemma {:induction false} TallyTotal(voters: seq<Voter>)
    ensures Total(CountWinningVotes(voters)) == |Active(voters)|
  {
    if |voters| == 0 {
      assert Active(voters) == {};
    } else {
      var prefix := voters[..|voters| - 1];
      var v := voters[|voters| - 1];
      var m := CountWinningVotes(prefix);
      TallyTotal(prefix);
      ActiveLast(voters);
      CountLast(voters);
      if |v.votes| > 0 {
        TotalIncrement(m, v.votes[0]);
      }
    }
  }

  lemma {:induction false} ActiveBound(voters: seq<Voter>)
    ensures |Active(voters)| <= |voters|
  {
    if |voters| > 0 {
      ActiveBound(voters[..|voters| - 1]);
      ActiveLast(voters);
    }
  }

  /** Every tally entry is at least one, and all entries together count no more votes
      than there are voters. */
  lemma {:induction false} TallyBounds(voters: seq<Voter>)
    ensures forall c :: c in CountWinningVotes(voters) ==> CountWinningVotes(voters)[c] >= 1
    ensures Total(CountWinningVotes(voters)) <= |voters|
  {
    TallyTotal(voters);
    ActiveBound(voters);
  }

  /** Two different candidates head disjoint groups of rankings, so together they head
      no more rankings than there are voters. */
  lemma {:induction false} SupportersDisjoint(voters: seq<Voter>, c: string, d: string)
    requires c != d
    ensures |Supporters(voters, c)| + |Supporters(voters, d)| <= |voters|
  {
    if |voters| > 0 {
      SupportersDisjoint(voters[..|voters| - 1], c, d);
      SupportersLast(voters);
    }
  }

  /** A strict majority of all voters, exhausted ones included, can be held by at most one
      candidate: two such candidates would need more first-choice votes than voters. */
  lemma {:induction false} MajorityUnique(voters: seq<Voter>, c: string, d: string)
    requires c in CountWinningVotes(voters) && 2 * CountWinningVotes(voters)[c] > |voters|
    requires d in CountWinningVotes(voters) && 2 * CountWinningVotes(voters)[d] > |voters|
    ensures c == d
  {
    if c != d {
      SupportersDisjoint(voters, c, d);
    }
  }

  /** Go's `countCandidates`: the number of distinct names across all rankings. */
  method CountCandidates(voters: seq<Voter>) returns (numCandidates: nat)
    ensures numCandidates == |Live(voters)|
  {
    var allCandidates: set<string> := {};
    for i := 0 to |voters|
      invariant allCandidates == Live(voters[..i])
    {
      for j := 0 to |voters[i].votes|
        invariant allCandidates == Live(voters[..i]) + set k | 0 <= k < j :: voters[i].votes[k]
      {
        allCandidates := allCandidates + {voters[i].votes[j]};
      }
      LiveSnoc(voters[..i], voters[i]);
      assert voters[..i + 1] == voters[..i] + [voters[i]];
    }
    assert voters[..|voters|] == voters;
    return |allCandidates|;
  }

  lemma {:induction false} LiveSnoc(prefix: seq<Voter>, v: Voter)
    ensures Live(prefix + [v]) == Live(prefix) + set k | 0 <= k < |v.votes| :: v.votes[k]
  {
    var s := prefix + [v];
    forall c | c in Live(s)
      ensures c in Live(prefix) + set k | 0 <= k < |v.votes| :: v.votes[k]
    {
      var i :| 0 <= i < |s| && c in s[i].votes;
      if i < |prefix| {
        assert c in prefix[i].votes;
      } else {
        var k :| 0 <= k < |v.votes| && v.votes[k] == c;
      }
    }
    forall c | c in Live(prefix)
      ensures c in Live(s)
    {
      var i :| 0 <= i < |prefix| && c in prefix[i].votes;
      assert s[i] == prefix[i];
    }
    forall k | 0 <= k < |v.votes|
      ensures v.votes[k] in Live(s)
    {
      assert v.votes[k] in s[|prefix|].votes;
    }
  }

  /** The tally names only live candidates, and it is empty exactly when every voter
      is exhausted. */
  lemma {:induction false} TallyLive(voters: seq<Voter>)
    ensures CountWinningVotes(voters).Keys <= Live(voters)
    ensures |CountWinningVotes(voters)| == 0 <==> Live(voters) == {}
  {
    var m := CountWinningVotes(voters);
    forall c | c in m
      ensures c in Live(voters)
    {
      var i :| i in Supporters(voters, c);
      assert c in voters[i].votes;
    }
    if Live(voters) != {} {
      var c :| c in Live(voters);
      var i :| 0 <= i < |voters| && c in voters[i].votes;
      assert i in Supporters(voters, voters[i].votes[0]);
      assert voters[i].votes[0] in m;
    }
  }
}
