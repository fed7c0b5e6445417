/**
 Consequences of the runoff's definition for whole elections, whatever the
 random choices: when every ballot ranks every candidate a winner is always
 found, when no candidate is named on more than half of the ballots the run
 always ends with the error, and a winner is always a candidate some ballot
 named. Three small worked elections close the module: opposite rankings, a
 first-round majority, and three single-name ballots.
 */
module Theorems {
  import opened Wrappers
  import opened Ballots
  import opened Tally
  import opened Runoff

  /** Every ballot ranks every candidate still named anywhere. */
  ghost predicate Complete(ballots: seq<Voter>)
  {
    forall i, c :: 0 <= i < |ballots| && c in Live(ballots) ==> c in ballots[i].votes
  }

  /** The indices of the ballots that name `c` somewhere in their ranking. */
  ghost function Mentions(voters: seq<Voter>, c: string): set<nat>
  {
    set i: nat | i < |voters| && c in voters[i].votes
  }

  lemma {:induction false} SubsetCardinality<T>(a: set<T>, b: set<T>)
    requires a <= b
    ensures |a| <= |b|
    decreases a
  {
    if a != {} {
      var x :| x in a;
      SubsetCardinality(a - {x}, b - {x});
    }
  }

  /** When every ranking starts with `c`, `c` heads all of them. */
  lemma {:induction false} SupportersAll(voters: seq<Voter>, c: string)
    requires forall i :: 0 <= i < |voters| ==> |voters[i].votes| > 0 && voters[i].votes[0] == c
    ensures |Supporters(voters, c)| == |voters|
  {
    if |voters| > 0 {
      var prefix := voters[..|voters| - 1];
      assert forall i :: 0 <= i < |prefix| ==> prefix[i] == voters[i];
      SupportersAll(prefix, c);
      SupportersLast(voters);
    }
  }

  /** With complete ballots, striking every candidate but `c` leaves `c` at the head of
      every ballot, a majority of all of them. */
  lemma {:induction false} CompleteLastStanding(voters: seq<Voter>, c: string)
    requires Complete(voters) && |voters| > 0 && c in Live(voters)
    ensures |Supporters(Strike(voters, Live(voters) - {c}), c)| == |voters|
    ensures HasMajority(Strike(voters, Live(voters) - {c}), c)
  {
    var gone := Live(voters) - {c};
    var struck := Strike(voters, gone);
    forall i | 0 <= i < |struck|
      ensures |struck[i].votes| > 0 && struck[i].votes[0] == c
    {
      RemoveAllMembers(voters[i].votes, gone);
      assert c in voters[i].votes;
      assert c in struck[i].votes;
      var d := struck[i].votes[0];
      assert d in struck[i].votes;
      assert d in voters[i].votes;
      assert d in Live(voters);
    }
    SupportersAll(struck, c);
  }

  /** An election in which every ballot ranks every candidate always has a winner,
      whichever of the tied losers the random source strikes. */
  lemma {:induction false} CompleteBallotsElect(voters: seq<Voter>, pick: (nat, nat) -> nat)
    requires ValidPick(pick) && Complete(voters) && |voters| > 0 && Live(voters) != {}
    ensures WholeRun(voters, pick).err == None
    ensures |WholeRun(voters, pick).winners| == 1
  {
    var o := WholeRun(voters, pick);
    if o.err.Some? {
      var c :| c in Live(voters) && !HasMajority(Strike(voters, Live(voters) - {c}), c);
      CompleteLastStanding(voters, c);
      assert false;
    }
  }

  /** A struck ballot can only be headed by a candidate its original ranking named. */
  lemma {:induction false} StruckSupportMentioned(voters: seq<Voter>, gone: set<string>, c: string)
    ensures |Supporters(Strike(voters, gone), c)| <= |Mentions(voters, c)|
  {
    var struck := Strike(voters, gone);
    forall i | i in Supporters(struck, c)
      ensures i in Mentions(voters, c)
    {
      RemoveAllMembers(voters[i].votes, gone);
      assert c in struck[i].votes;
    }
    SubsetCardinality(Supporters(struck, c), Mentions(voters, c));
  }

  /** When no candidate is named on more than half of the ballots, no round can reach a
      majority: the run strikes every candidate and ends with the error. */
  lemma {:induction false} NarrowSupportNeverDecides(voters: seq<Voter>, pick: (nat, nat) -> nat)
    requires ValidPick(pick)
    requires forall c :: 2 * |Mentions(voters, c)| <= |voters|
    ensures WholeRun(voters, pick) == Outcome([], Some(NeverDetermined), Strike(voters, Live(voters)))
  {
    var o := WholeRun(voters, pick);
    if o.err.None? {
      var w := o.winners[0];
      StruckSupportMentioned(voters, Live(voters) - Live(o.ballots), w);
      assert false;
    }
    assert Live(voters) - Live(o.ballots) == Live(voters);
  }

  /** The winner of a run is a candidate named on some original ballot. */
  lemma {:induction false} WinnerWasNamed(voters: seq<Voter>, pick: (nat, nat) -> nat)
    requires ValidPick(pick)
    ensures WholeRun(voters, pick).err == None ==> WholeRun(voters, pick).winners[0] in Live(voters)
  {
    var o := WholeRun(voters, pick);
    if o.err == None {
      var w := o.winners[0];
      assert w in Live(o.ballots) by {
        TallyLive(o.ballots);
      }
      StrikeLive(voters, Live(voters) - Live(o.ballots));
    }
  }

  /** Two voters ranking two candidates in opposite orders: whichever candidate the
      random source strikes in round 1, the other holds both ballots in round 2. */
  lemma {:induction false} OppositeRankingsElect(pick: (nat, nat) -> nat)
    requires ValidPick(pick)
    ensures var o := WholeRun([Voter("t1", ["A", "B"]), Voter("t2", ["B", "A"])], pick);
            o.err == None && (o.winners == ["A"] || o.winners == ["B"])
  {
    var voters := [Voter("t1", ["A", "B"]), Voter("t2", ["B", "A"])];
    OppositeRankingsComplete(voters);
    CompleteBallotsElect(voters, pick);
    WinnerWasNamed(voters, pick);
  }

  /** The two opposite ballots name exactly A and B, and each names both. */
  lemma {:induction false} OppositeRankingsComplete(voters: seq<Voter>)
    requires voters == [Voter("t1", ["A", "B"]), Voter("t2", ["B", "A"])]
    ensures |voters| > 0 && Complete(voters) && "A" in Live(voters)
    ensures forall c :: c in Live(voters) ==> c == "A" || c == "B"
  {
    assert "A" in Live(voters) by {
      assert "A" in voters[0].votes;
    }
    forall c | c in Live(voters)
      ensures c == "A" || c == "B"
    {
      var j :| 0 <= j < |voters| && c in voters[j].votes;
    }
  }

  /** Two of three voters put A first: A wins in round 1 and nothing is struck. */
  lemma {:induction false} FirstRoundMajorityElects(pick: (nat, nat) -> nat)
    requires ValidPick(pick)
    ensures var voters := [Voter("t1", ["A", "B"]), Voter("t2", ["A", "B"]), Voter("t3", ["B", "A"])];
            WholeRun(voters, pick) == Outcome(["A"], None, voters)
  {
    var voters := [Voter("t1", ["A", "B"]), Voter("t2", ["A", "B"]), Voter("t3", ["B", "A"])];
    TwoOfThreeMajority(voters);
    MajorityWinsFirstRound(voters, pick, "A");
  }

  /** Two of the three first choices go to A, a strict majority of three. */
  lemma {:induction false} TwoOfThreeMajority(voters: seq<Voter>)
    requires voters == [Voter("t1", ["A", "B"]), Voter("t2", ["A", "B"]), Voter("t3", ["B", "A"])]
    ensures HasMajority(voters, "A")
  {
    assert Supporters(voters, "A") == {0, 1} by {
      assert voters[2].votes[0] == "B";
    }
  }

  /** Three voters with one different candidate each: no one ever holds more than one
      of the three ballots, so the run ends with the error. */
  lemma {:induction false} ThreeSinglesNeverDecide(pick: (nat, nat) -> nat)
    requires ValidPick(pick)
    ensures WholeRun([Voter("t1", ["A"]), Voter("t2", ["B"]), Voter("t3", ["C"])], pick).err == Some(NeverDetermined)
  {
    var voters := [Voter("t1", ["A"]), Voter("t2", ["B"]), Voter("t3", ["C"])];
    forall c
      ensures 2 * |Mentions(voters, c)| <= |voters|
    {
      var k := if c == "A" then 0 else if c == "B" then 1 else 2;
      forall i | i in Mentions(voters, c)
        ensures i == k
      {
        assert c in voters[i].votes;
      }
      SubsetCardinality(Mentions(voters, c), {k});
    }
    NarrowSupportNeverDecides(voters, pick);
  }
}
