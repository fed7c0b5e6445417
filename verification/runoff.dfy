/**
 The instant-runoff elimination loop. Each round tallies first choices, orders
 the tally, and either declares the candidates with the most votes winners (when
 that count is a strict majority of all voters, exhausted ones included) or
 strikes one candidate with the fewest votes from every ranking and goes on.
 */
module Runoff {
  import opened Wrappers
  import opened Strings
  import opened Ballots
  import opened Tally
  import opened Sorting

  /** The error of the last line of `computeInstantRunoffWinner`: every round ran
      without anyone reaching a majority. */
  datatype RunoffError = NeverDetermined

  /** The outcome of one round: the winners, or the eliminated candidate and the
      ballots with that candidate struck out. */
  datatype Round = Decided(winners: seq<string>) | Eliminated(loser: string, ballots: seq<Voter>)

  /** `c` heads the rankings of more than half of all voters. The source compares
      `float64(max) > float64(len(voters))/2`, which for integer counts is `2 * max > n`. */
  ghost predicate HasMajority(voters: seq<Voter>, c: string)
  {
    var tally := CountWinningVotes(voters);
    c in tally && 2 * tally[c] > |voters|
  }

  /** `c` is in the tally and no candidate there has fewer first-choice votes. */
  ghost predicate HasFewest(voters: seq<Voter>, c: string)
  {
    var tally := CountWinningVotes(voters);
    c in tally && forall d :: d in tally ==> tally[c] <= tally[d]
  }

  /** The tally keys in the order their first ballots appear. The source ranges over a
      Go map, whose order is unspecified; `SortIgnoresIterationOrder` shows the choice
      does not matter. */
  function FirstChoiceOrder(voters: seq<Voter>): (order: seq<string>)
  {
    if |voters| == 0 then []
    else
      var prefix := voters[..|voters| - 1];
      var v := voters[|voters| - 1];
      var order := FirstChoiceOrder(prefix);
      if |v.votes| > 0 && v.votes[0] !in order then order + [v.votes[0]] else order
  }

  /** The first-choice order lists every tally key exactly once. */
  lemma {:induction false} FirstChoiceOrderKeys(voters: seq<Voter>)
    ensures KeyOrder(CountWinningVotes(voters), FirstChoiceOrder(voters))
  {
    if |voters| > 0 {
      var prefix := voters[..|voters| - 1];
      var v := voters[|voters| - 1];
      var order := FirstChoiceOrder(prefix);
      var m := CountWinningVotes(prefix);
      FirstChoiceOrderKeys(prefix);
      if |v.votes| > 0 {
        assert CountWinningVotes(voters).Keys == m.Keys + {v.votes[0]};
        if v.votes[0] !in order {
          DistinctSnoc(order, v.votes[0]);
        }
      } else {
        assert CountWinningVotes(voters) == m;
      }
    }
  }

  /** The entries of `sorted` whose count is `count`, in their order. */
  function Group(sorted: seq<IterationResult>, count: nat): (group: seq<IterationResult>)
    ensures forall e :: e in group <==> e in sorted && e.voteCount == count
  {
    if |sorted| == 0 then []
    else
      var rest := Group(sorted[1..], count);
      assert forall e :: e in sorted <==> e == sorted[0] || e in sorted[1..];
      if sorted[0].voteCount == count then [sorted[0]] + rest else rest
  }

  /** A group keeps the order of the sequence it is drawn from. */
  lemma {:induction false} GroupOrdered(sorted: seq<IterationResult>, count: nat)
    requires Ordered(sorted)
    ensures Ordered(Group(sorted, count))
  {
    if |sorted| > 0 {
      var tail := sorted[1..];
      PairwiseTail(sorted, Precedes);
      GroupOrdered(tail, count);
      if sorted[0].voteCount == count {
        var rest := Group(tail, count);
        forall e | e in rest
          ensures Precedes(sorted[0], e)
        {
          var k :| 0 <= k < |tail| && tail[k] == e;
          assert sorted[k + 1] == e;
        }
        PairwiseCons(sorted[0], rest, Precedes);
      }
    }
  }

  /** Go's `worstCandidates`: the entries tied for the fewest votes. */
  function WorstCandidates(sorted: seq<IterationResult>): (worst: seq<IterationResult>)
    requires |sorted| > 0 && Ordered(sorted)
    ensures |worst| > 0 && Ordered(worst)
    ensures forall e :: e in worst <==>
              e in sorted && forall f :: f in sorted ==> e.voteCount <= f.voteCount
  {
    var worst := Group(sorted, sorted[0].voteCount);
    GroupOrdered(sorted, sorted[0].voteCount);
    assert sorted[0] in worst;
    forall f | f in sorted
      ensures sorted[0].voteCount <= f.voteCount
    {
      var j :| 0 <= j < |sorted| && sorted[j] == f;
      if j > 0 {
        assert Precedes(sorted[0], sorted[j]);
      }
    }
    worst
  }

  /** Go's `bestCandidates`: the entries tied for the most votes, ascending by name. */
  function BestCandidates(sorted: seq<IterationResult>): (best: seq<IterationResult>)
    requires |sorted| > 0 && Ordered(sorted)
    ensures |best| > 0 && Ordered(best)
    ensures forall e :: e in best <==>
              e in sorted && forall f :: f in sorted ==> f.voteCount <= e.voteCount
  {
    var last := sorted[|sorted| - 1];
    var best := Group(sorted, last.voteCount);
    GroupOrdered(sorted, last.voteCount);
    assert last in best;
    forall f | f in sorted
      ensures f.voteCount <= last.voteCount
    {
      var j :| 0 <= j < |sorted| && sorted[j] == f;
      if j < |sorted| - 1 {
        assert Precedes(sorted[j], last);
      }
    }
    best
  }

  /** The candidate names of a group of entries, in the group's order. */
  function Names(group: seq<IterationResult>): seq<string>
  {
    seq(|group|, i requires 0 <= i < |group| => group[i].candidate)
  }

  /** `s` can be obtained from `t` by deleting elements. */
  ghost predicate Subsequence(s: seq<string>, t: seq<string>)
  {
    |s| == 0 || (|t| > 0 && ((s[0] == t[0] && Subsequence(s[1..], t[1..])) || Subsequence(s, t[1..])))
  }

  /** One voter's ranking with the losing candidate filtered out. */
  function Remove(votes: seq<string>, loser: string): (kept: seq<string>)
    ensures loser !in kept
    ensures multiset(kept) == multiset(votes)[loser := 0]
    ensures Subsequence(kept, votes)
  {
    if |votes| == 0 then []
    else
      var rest := Remove(votes[1..], loser);
      assert votes == [votes[0]] + votes[1..];
      if votes[0] == loser then rest
      else
        assert ([votes[0]] + rest)[1..] == rest;
        [votes[0]] + rest
  }

  /** Strikes the losing candidate from every voter's ranking; the voters, their order
      and their timestamps stay as they were, the loser is named on no ballot afterwards,
      and exactly the loser has left the live candidates. */
  function Eliminate(voters: seq<Voter>, loser: string): (after: seq<Voter>)
    ensures |after| == |voters|
    ensures forall i :: 0 <= i < |voters| ==>
              after[i].timestamp == voters[i].timestamp && after[i].votes == Remove(voters[i].votes, loser)
    ensures forall i :: 0 <= i < |after| ==> loser !in after[i].votes
    ensures Live(after) == Live(voters) - {loser}
  {
    var after := seq(|voters|, i requires 0 <= i < |voters| => Voter(voters[i].timestamp, Remove(voters[i].votes, loser)));
    FilteredLive(voters, after, loser);
    after
  }

  lemma {:induction false} RemoveMembers(votes: seq<string>, loser: string)
    ensures forall c :: c in Remove(votes, loser) <==> c in votes && c != loser
  {
    var kept := Remove(votes, loser);
    forall c
      ensures c in kept <==> c in votes && c != loser
    {
      assert c in kept <==> c in multiset(kept);
      assert c in votes <==> c in multiset(votes);
    }
  }

  /** Filtering the loser out of every ranking removes exactly the loser from the live
      candidates. */
  lemma {:induction false} FilteredLive(voters: seq<Voter>, after: seq<Voter>, loser: string)
    requires |after| == |voters|
    requires forall i :: 0 <= i < |voters| ==> after[i].votes == Remove(voters[i].votes, loser)
    ensures Live(after) == Live(voters) - {loser}
  {
    forall i | 0 <= i < |voters|
      ensures forall c :: c in after[i].votes <==> c in voters[i].votes && c != loser
    {
      RemoveMembers(voters[i].votes, loser);
    }
    forall c | c in Live(voters) - {loser}
      ensures c in Live(after)
    {
      var i :| 0 <= i < |voters| && c in voters[i].votes;
      assert c in after[i].votes;
    }
  }

  /** A stand-in for `rand.Intn`: `pick(round, n)` is the index below `n` that the source's
      random source yields in round `round`. It is called once per round, so one index per
      round describes any sequence of draws. */
  ghost predicate ValidPick(pick: (nat, nat) -> nat)
  {
    forall round: nat, n: nat :: 0 < n ==> pick(round, n) < n
  }

  /** One pass of the source's loop body, as round `round`. */
  function RunRound(ballots: seq<Voter>, round: nat, pick: (nat, nat) -> nat): (r: Round)
    requires Live(ballots) != {}
    requires ValidPick(pick)
    ensures r.Decided? <==> exists c :: HasMajority(ballots, c)
    ensures r.Decided? ==> forall c :: HasMajority(ballots, c) ==> r.winners == [c]
    ensures r.Eliminated? ==> HasFewest(ballots, r.loser) && r.ballots == Eliminate(ballots, r.loser)
  {
    var sorted := RoundTable(ballots);
    var best := BestCandidates(sorted);
    if 2 * sorted[|sorted| - 1].voteCount > |ballots| then
      MajorityWinners(ballots, sorted, best);
      Decided(Names(best))
    else
      NoMajority(ballots, sorted);
      var loser := PickLoser(ballots, sorted, round, pick);
      Eliminated(loser, Eliminate(ballots, loser))
  }

  /** The round's tally, ordered by count and then by name. */
  function RoundTable(ballots: seq<Voter>): (sorted: seq<IterationResult>)
    requires Live(ballots) != {}
    ensures |sorted| > 0 && Ordered(sorted) && ListsTally(sorted, ballots)
  {
    TallyLive(ballots);
    FirstChoiceOrderKeys(ballots);
    SortIterationResults(CountWinningVotes(ballots), FirstChoiceOrder(ballots))
  }

  /** The random choice among the candidates tied for the fewest votes. */
  function PickLoser(ballots: seq<Voter>, sorted: seq<IterationResult>, round: nat, pick: (nat, nat) -> nat): (loser: string)
    requires |sorted| > 0 && Ordered(sorted) && ListsTally(sorted, ballots)
    requires ValidPick(pick)
    ensures HasFewest(ballots, loser)
  {
    var worst := WorstCandidates(sorted);
    var losing := worst[pick(round, |worst|)];
    FewestVotes(ballots, sorted, losing);
    losing.candidate
  }

  /** `sorted` lists exactly the entries of the tally of `voters`. */
  ghost predicate ListsTally(sorted: seq<IterationResult>, voters: seq<Voter>)
  {
    forall e :: e in sorted <==>
      e.candidate in CountWinningVotes(voters) && e.voteCount == CountWinningVotes(voters)[e.candidate]
  }

  /** When the top count is no majority, no candidate has one. */
  lemma {:induction false} NoMajority(ballots: seq<Voter>, sorted: seq<IterationResult>)
    requires ListsTally(sorted, ballots) && Ordered(sorted) && |sorted| > 0
    requires 2 * sorted[|sorted| - 1].voteCount <= |ballots|
    ensures forall c :: !HasMajority(ballots, c)
  {
    var tally := CountWinningVotes(ballots);
    var best := BestCandidates(sorted);
    assert sorted[|sorted| - 1] in best;
    forall c | c in tally
      ensures 2 * tally[c] <= |ballots|
    {
      assert IterationResult(tally[c], c) in sorted;
    }
  }

  /** An entry of the worst group holds a count no larger than any other in the tally. */
  lemma {:induction false} FewestVotes(ballots: seq<Voter>, sorted: seq<IterationResult>, losing: IterationResult)
    requires ListsTally(sorted, ballots) && Ordered(sorted) && |sorted| > 0
    requires losing in WorstCandidates(sorted)
    ensures HasFewest(ballots, losing.candidate)
  {
    var tally := CountWinningVotes(ballots);
    forall c | c in tally
      ensures tally[losing.candidate] <= tally[c]
    {
      assert IterationResult(tally[c], c) in sorted;
    }
  }

  /** When the top count is a majority, the top group is exactly the majority holder. */
  lemma {:induction false} MajorityWinners(ballots: seq<Voter>, sorted: seq<IterationResult>, best: seq<IterationResult>)
    requires ListsTally(sorted, ballots) && Ordered(sorted)
    requires |sorted| > 0 && best == BestCandidates(sorted)
    requires 2 * sorted[|sorted| - 1].voteCount > |ballots|
    ensures exists c :: HasMajority(ballots, c)
    ensures forall c :: HasMajority(ballots, c) ==> Names(best) == [c]
  {
    var tally := CountWinningVotes(ballots);
    var top := sorted[|sorted| - 1];
    assert top in best;
    assert HasMajority(ballots, top.candidate);
    forall c | HasMajority(ballots, c)
      ensures Names(best) == [c]
    {
      forall e | e in best
        ensures e == top
      {
        assert e.candidate in tally && e.voteCount == tally[e.candidate];
        assert top.voteCount <= e.voteCount;
        MajorityUnique(ballots, e.candidate, top.candidate);
      }
      MajorityUnique(ballots, c, top.candidate);
      if |best| > 1 {
        assert best[0] == top && best[1] == top;
        assert Precedes(best[0], best[1]);
        PrecedesStrict(best[0], best[1]);
      }
      assert best[0] == top;
    }
  }

  /** Every voter's ranking with a set of candidates struck out, order kept. */
  ghost function RemoveAll(votes: seq<string>, gone: set<string>): seq<string>
  {
    if |votes| == 0 then []
    else if votes[0] in gone then RemoveAll(votes[1..], gone)
    else [votes[0]] + RemoveAll(votes[1..], gone)
  }

  /** The voters with every candidate of `gone` struck from their rankings. */
  ghost function Strike(voters: seq<Voter>, gone: set<string>): seq<Voter>
  {
    seq(|voters|, i requires 0 <= i < |voters| => Voter(voters[i].timestamp, RemoveAll(voters[i].votes, gone)))
  }

  lemma {:induction false} RemoveAfterRemoveAll(votes: seq<string>, gone: set<string>, loser: string)
    ensures Remove(RemoveAll(votes, gone), loser) == RemoveAll(votes, gone + {loser})
  {
    if |votes| > 0 {
      RemoveAfterRemoveAll(votes[1..], gone, loser);
    }
  }

  lemma {:induction false} RemoveAllMembers(votes: seq<string>, gone: set<string>)
    ensures forall c :: c in RemoveAll(votes, gone) <==> c in votes && c !in gone
  {
    if |votes| > 0 {
      RemoveAllMembers(votes[1..], gone);
      assert votes == [votes[0]] + votes[1..];
    }
  }

  lemma {:induction false} RemoveAllNothing(votes: seq<string>)
    ensures RemoveAll(votes, {}) == votes
  {
    if |votes| > 0 {
      RemoveAllNothing(votes[1..]);
    }
  }

  /** Striking a set of candidates removes exactly those from the live candidates. */
  lemma {:induction false} StrikeLive(voters: seq<Voter>, gone: set<string>)
    ensures Live(Strike(voters, gone)) == Live(voters) - gone
  {
    var struck := Strike(voters, gone);
    forall i | 0 <= i < |voters|
      ensures forall c :: c in struck[i].votes <==> c in voters[i].votes && c !in gone
    {
      RemoveAllMembers(voters[i].votes, gone);
    }
    forall c | c in Live(voters) - gone
      ensures c in Live(struck)
    {
      var i :| 0 <= i < |voters| && c in voters[i].votes;
      assert c in struck[i].votes;
    }
  }

  /** One more elimination extends the struck set by the loser. */
  lemma {:induction false} StrikeMore(voters: seq<Voter>, gone: set<string>, loser: string)
    ensures Eliminate(Strike(voters, gone), loser) == Strike(voters, gone + {loser})
  {
    forall i | 0 <= i < |voters|
      ensures Remove(RemoveAll(voters[i].votes, gone), loser) == RemoveAll(voters[i].votes, gone + {loser})
    {
      RemoveAfterRemoveAll(voters[i].votes, gone, loser);
    }
  }

  lemma {:induction false} StrikeNothing(voters: seq<Voter>)
    ensures Strike(voters, {}) == voters
  {
    forall i | 0 <= i < |voters|
      ensures RemoveAll(voters[i].votes, {}) == voters[i].votes
    {
      RemoveAllNothing(voters[i].votes);
    }
  }

  /** Striking one set and then another strikes their union. */
  lemma {:induction false} RemoveAllTwice(votes: seq<string>, first: set<string>, second: set<string>)
    ensures RemoveAll(RemoveAll(votes, first), second) == RemoveAll(votes, first + second)
  {
    if |votes| > 0 {
      RemoveAllTwice(votes[1..], first, second);
      if votes[0] !in first {
        assert ([votes[0]] + RemoveAll(votes[1..], first))[1..] == RemoveAll(votes[1..], first);
      }
    }
  }

  lemma {:induction false} StrikeTwice(voters: seq<Voter>, first: set<string>, second: set<string>)
    ensures Strike(Strike(voters, first), second) == Strike(voters, first + second)
  {
    forall i | 0 <= i < |voters|
      ensures RemoveAll(RemoveAll(voters[i].votes, first), second) == RemoveAll(voters[i].votes, first + second)
    {
      RemoveAllTwice(voters[i].votes, first, second);
    }
  }

  /** A round that eliminates someone removes exactly that candidate, which was live,
      from the live candidates: one fewer per round. */
  lemma {:induction false} RoundShrinksLive(ballots: seq<Voter>, round: nat, pick: (nat, nat) -> nat)
    requires Live(ballots) != {} && ValidPick(pick)
    ensures var r := RunRound(ballots, round, pick);
            r.Eliminated? ==>
              && r.loser in Live(ballots)
              && Live(r.ballots) == Live(ballots) - {r.loser}
              && |Live(r.ballots)| == |Live(ballots)| - 1
  {
    var r := RunRound(ballots, round, pick);
    if r.Eliminated? {
      LoserLive(ballots, r.loser);
    }
  }

  /** A candidate with the fewest first choices is one still named on some ballot. */
  lemma {:induction false} LoserLive(ballots: seq<Voter>, loser: string)
    requires HasFewest(ballots, loser)
    ensures loser in Live(ballots)
    ensures |Live(ballots) - {loser}| == |Live(ballots)| - 1
  {
    TallyLive(ballots);
  }

  /** What `computeInstantRunoffWinner` returns, with the voters as it leaves them. */
  datatype Outcome = Outcome(winners: seq<string>, err: Option<RunoffError>, ballots: seq<Voter>)

  /** How a run over `voters` can end: the voters with the eliminated candidates struck,
      and either a single majority winner or, once no candidate is left, the error. */
  ghost predicate Settled(voters: seq<Voter>, o: Outcome)
  {
    && |o.ballots| == |voters|
    && o.ballots == Strike(voters, Live(voters) - Live(o.ballots))
    && (o.err.None? ==> |o.winners| == 1 && HasMajority(o.ballots, o.winners[0]))
    && (o.err.Some? <==> Live(o.ballots) == {})
    && (o.err.Some? ==> o.err == Some(NeverDetermined) && o.winners == [])
  }

  /** An outcome that leaves the ballots as they are is settled on them when its winners
      and error agree. */
  lemma {:induction false} SettledHere(ballots: seq<Voter>, o: Outcome)
    requires o.ballots == ballots
    requires o.err.None? ==> |o.winners| == 1 && HasMajority(o.ballots, o.winners[0])
    requires o.err.Some? <==> Live(o.ballots) == {}
    requires o.err.Some? ==> o.err == Some(NeverDetermined) && o.winners == []
    ensures Settled(ballots, o)
  {
    StrikeNothing(ballots);
    assert Live(ballots) - Live(ballots) == {};
  }

  /** A run settled on the ballots after an elimination is settled on the ballots
      before it: the eliminated candidate joins the struck ones. */
  lemma {:induction false} SettledBack(ballots: seq<Voter>, loser: string, next: seq<Voter>, o: Outcome)
    requires loser in Live(ballots) && next == Eliminate(ballots, loser)
    requires Settled(next, o)
    ensures Settled(ballots, o)
  {
    var gone := Live(next) - Live(o.ballots);
    assert next == Strike(ballots, {loser}) by {
      StrikeNothing(ballots);
      StrikeMore(ballots, {}, loser);
      assert {} + {loser} == {loser};
    }
    assert Live(next) == Live(ballots) - {loser} by {
      StrikeLive(ballots, {loser});
    }
    assert Live(o.ballots) == Live(next) - gone by {
      StrikeLive(next, gone);
    }
    assert o.ballots == Strike(ballots, {loser} + gone) by {
      StrikeTwice(ballots, {loser}, gone);
    }
    StruckSets(Live(ballots), Live(next), Live(o.ballots), {loser}, gone);
  }

  /** Set bookkeeping of two strikes in a row: what the first strike took from `all`,
      together with what the second took from the rest, is all that is gone. */
  lemma {:induction false} StruckSets(all: set<string>, middle: set<string>, last: set<string>,
                                      first: set<string>, second: set<string>)
    requires first <= all && middle == all - first
    requires second == middle - last && last == middle - second
    ensures first + second == all - last
  {
  }

  /** A run ends with the error only after its last candidate fell short: some candidate
      named on the ballots lacks a majority once every other candidate is struck. */
  ghost predicate LastStandingLost(voters: seq<Voter>, o: Outcome)
  {
    o.err.Some? && Live(voters) != {} ==>
      exists c :: c in Live(voters) && !HasMajority(Strike(voters, Live(voters) - {c}), c)
  }

  /** Eliminating the only candidate left is the last standing candidate falling short. */
  lemma {:induction false} LostAtLast(ballots: seq<Voter>, round: nat, pick: (nat, nat) -> nat, o: Outcome)
    requires ValidPick(pick) && |Live(ballots)| == 1
    requires RunRound(ballots, round, pick).Eliminated?
    ensures LastStandingLost(ballots, o)
  {
    var c := RunRound(ballots, round, pick).loser;
    LoserLive(ballots, c);
    assert Live(ballots) - {c} == {};
    StrikeNothing(ballots);
    assert !HasMajority(Strike(ballots, Live(ballots) - {c}), c);
  }

  /** A candidate falling short after an elimination fell short before it as well: the
      eliminated candidate is one more of those struck. */
  lemma {:induction false} LostBack(ballots: seq<Voter>, loser: string, next: seq<Voter>, o: Outcome)
    requires loser in Live(ballots) && next == Eliminate(ballots, loser)
    requires LastStandingLost(next, o) && Live(next) != {}
    ensures LastStandingLost(ballots, o)
  {
    if o.err.Some? {
      var c :| c in Live(next) && !HasMajority(Strike(next, Live(next) - {c}), c);
      StrikeAllBut(ballots, loser, next, c);
    }
  }

  /** After an elimination, striking all but `c` gives the same ballots as striking all
      but `c` before it. */
  lemma {:induction false} StrikeAllBut(ballots: seq<Voter>, loser: string, next: seq<Voter>, c: string)
    requires loser in Live(ballots) && next == Eliminate(ballots, loser) && c in Live(next)
    ensures c in Live(ballots)
    ensures Strike(next, Live(next) - {c}) == Strike(ballots, Live(ballots) - {c})
  {
    assert next == Strike(ballots, {loser}) by {
      StrikeNothing(ballots);
      StrikeMore(ballots, {}, loser);
      assert {} + {loser} == {loser};
    }
    assert Live(next) == Live(ballots) - {loser} by {
      StrikeLive(ballots, {loser});
    }
    StrikeTwice(ballots, {loser}, Live(next) - {c});
    AllButOne(Live(ballots), loser, c);
  }

  /** Striking `loser` and then all but `c` of the rest strikes all but `c`. */
  lemma {:induction false} AllButOne(all: set<string>, loser: string, c: string)
    requires loser in all && c in all - {loser}
    ensures {loser} + ((all - {loser}) - {c}) == all - {c}
  {
  }

  /** The rounds from `round` on, as a recursion rather than a loop; `bound` is the number
      of candidates counted before the first round. Each round removes one live candidate,
      so `round` and the live count move in step. */
  function RunoffFrom(ballots: seq<Voter>, round: nat, bound: nat, pick: (nat, nat) -> nat): (o: Outcome)
    requires 1 <= round <= bound + 1 && |Live(ballots)| == bound + 1 - round
    requires ValidPick(pick)
    ensures Settled(ballots, o)
    ensures LastStandingLost(ballots, o)
    decreases bound + 1 - round
  {
    if round == bound + 1 then
      SettledHere(ballots, Outcome([], Some(NeverDetermined), ballots));
      Outcome([], Some(NeverDetermined), ballots)
    else
      var r := RunRound(ballots, round, pick);
      if r.Decided? then
        DecidedHere(ballots, round, pick);
        Outcome(r.winners, None, ballots)
      else
        RoundShrinksLive(ballots, round, pick);
        var rest := RunoffFrom(r.ballots, round + 1, bound, pick);
        SettledBack(ballots, r.loser, r.ballots, rest);
        if round == bound then
          LostAtLast(ballots, round, pick, rest);
          rest
        else
          LostBack(ballots, r.loser, r.ballots, rest);
          rest
  }

  /** The whole runoff: as many rounds as there are candidates in the original ballots. */
  ghost function WholeRun(voters: seq<Voter>, pick: (nat, nat) -> nat): (o: Outcome)
    requires ValidPick(pick)
    ensures Settled(voters, o)
    ensures LastStandingLost(voters, o)
  {
    RunoffFrom(voters, 1, |Live(voters)|, pick)
  }

  /** A round that eliminates hands the run on to the next round. */
  lemma {:induction false} RunoffFromStep(ballots: seq<Voter>, round: nat, bound: nat, pick: (nat, nat) -> nat)
    requires 1 <= round < bound + 1 && |Live(ballots)| == bound + 1 - round
    requires ValidPick(pick)
    requires RunRound(ballots, round, pick).Eliminated?
    ensures |Live(RunRound(ballots, round, pick).ballots)| == bound + 1 - (round + 1)
    ensures RunoffFrom(ballots, round, bound, pick) ==
            RunoffFrom(RunRound(ballots, round, pick).ballots, round + 1, bound, pick)
  {
    RoundShrinksLive(ballots, round, pick);
  }

  /** A deciding round settles the run on the ballots it was given. */
  lemma {:induction false} DecidedHere(ballots: seq<Voter>, round: nat, pick: (nat, nat) -> nat)
    requires Live(ballots) != {} && ValidPick(pick)
    requires RunRound(ballots, round, pick).Decided?
    ensures Settled(ballots, Outcome(RunRound(ballots, round, pick).winners, None, ballots))
  {
    var c :| HasMajority(ballots, c);
    assert RunRound(ballots, round, pick).winners == [c];
    SettledHere(ballots, Outcome(RunRound(ballots, round, pick).winners, None, ballots));
  }

  /** A candidate with a majority of first choices in the original ballots wins in the
      first round, before anything is eliminated. */
  lemma {:induction false} MajorityWinsFirstRound(voters: seq<Voter>, pick: (nat, nat) -> nat, c: string)
    requires ValidPick(pick) && HasMajority(voters, c)
    ensures WholeRun(voters, pick) == Outcome([c], None, voters)
  {
    assert |Live(voters)| > 0 by {
      TallyLive(voters);
    }
    RunoffFromDecided(voters, 1, |Live(voters)|, pick);
  }

  /** A round that decides ends the run with that round's winners. */
  lemma {:induction false} RunoffFromDecided(ballots: seq<Voter>, round: nat, bound: nat, pick: (nat, nat) -> nat)
    requires 1 <= round < bound + 1 && |Live(ballots)| == bound + 1 - round
    requires ValidPick(pick)
    requires RunRound(ballots, round, pick).Decided?
    ensures RunoffFrom(ballots, round, bound, pick) == Outcome(RunRound(ballots, round, pick).winners, None, ballots)
  {
  }

  /** Everything the runoff's outcome guarantees, gathered for the method below. */
  lemma {:induction false} RunoffGuarantees(voters: seq<Voter>, pick: (nat, nat) -> nat, o: Outcome)
    requires ValidPick(pick) && o == WholeRun(voters, pick)
    ensures |o.ballots| == |voters|
    ensures o.ballots == Strike(voters, Live(voters) - Live(o.ballots))
    ensures o.err.None? ==> |o.winners| == 1 && HasMajority(o.ballots, o.winners[0])
    ensures o.err.Some? <==> Live(o.ballots) == {}
    ensures o.err.Some? ==> o.err == Some(NeverDetermined) && o.winners == []
    ensures Settled(voters, o)
    ensures forall c :: HasMajority(voters, c) ==> o == Outcome([c], None, voters)
  {
    forall c | HasMajority(voters, c)
      ensures o == Outcome([c], None, voters)
    {
      MajorityWinsFirstRound(voters, pick, c);
    }
  }

  /** Go's `computeInstantRunoffWinner`. The source mutates the caller's voters in place;
      `ballots` is that collection as the function leaves it. */
  method ComputeInstantRunoffWinner(voters: seq<Voter>, pick: (nat, nat) -> nat)
    returns (winners: seq<string>, err: Option<RunoffError>, ballots: seq<Voter>)
    requires ValidPick(pick)
    ensures Outcome(winners, err, ballots) == WholeRun(voters, pick)
    ensures Settled(voters, Outcome(winners, err, ballots))
    ensures forall c :: HasMajority(voters, c) ==> err == None && winners == [c] && ballots == voters
  {
    var numCandidates := CountCandidates(voters);
    ballots := voters;
    var round := 1;
    while round < numCandidates + 1
      invariant 1 <= round <= numCandidates + 1
      invariant |Live(ballots)| == numCandidates + 1 - round
      invariant RunoffFrom(ballots, round, numCandidates, pick) == WholeRun(voters, pick)
      decreases numCandidates + 1 - round
    {
      var r := RunRound(ballots, round, pick);
      if r.Decided? {
        winners, err := r.winners, None;
        RunoffGuarantees(voters, pick, Outcome(winners, err, ballots));
        return;
      }
      RunoffFromStep(ballots, round, numCandidates, pick);
      ballots := r.ballots;
      round := round + 1;
    }
    winners, err := [], Some(NeverDetermined);
    RunoffGuarantees(voters, pick, Outcome(winners, err, ballots));
  }
}
