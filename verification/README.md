# Instant-runoff tabulation of ranked ballots

A Dafny model of the vote-counting core of go-ranked-ballots. The program reads the
CSV export of a ranked-choice poll. It turns each response row into a voter, which is a
timestamp plus candidate names from most to least preferred. Then it runs an
instant-runoff election over the voters.

Each round does the following:

- it counts first-choice votes;
- it orders the tally by count, breaking ties by candidate name;
- if the top count is a strict majority of all voters, exhausted ones included, it
  declares the top group the winners;
- otherwise it strikes one of the candidates with the fewest votes from every ranking,
  chosen at random among ties, and runs the next round.

There are at most as many rounds as there are distinct candidates on the original
ballots. When that bound runs out, the function returns an empty winner list and an
error.

The modules follow the program's structure:

- `Strings`: Go's byte-wise string `<`, and the "first `;`-separated part" of a CSV
  cell.
- `Ballots` (main.go): the `voter` record, header validation, locating the column that
  holds a rank token, and building voters from already-split CSV records.
- `Tally` (instant_runoff.go): `countWinningVotes` and `countCandidates`, with the
  ghost sets they count. These are the supporters of a candidate, the non-exhausted
  voters and the live candidates, i.e. every name still on some ballot.
- `Sorting` (instant_runoff.go): `iterationResult`, the two stable sorts, and
  independence from map iteration order.
- `Runoff` (instant_runoff.go): the best and worst groups, one round, elimination, the
  whole run as a recursion (`RunoffFrom`), and `ComputeInstantRunoffWinner`. That method
  runs the source's loop and is proved to compute the recursion.
- `Theorems`: whole-election consequences and three worked elections.

The central invariant is that every round which does not decide removes exactly one
live candidate. The loop's round number and the live count therefore move in step. So
inside the loop the tally is never empty. That means the unguarded `sortedResults[0]` at
instant_runoff.go:79 never indexes an empty slice, and the "No losing candidates" panic
at instant_runoff.go:109-111 never fires.

A run's outcome is *settled*, which means all of the following hold:

- the final ballots are the input ballots with some set of candidates struck out;
- on success there is exactly one winner, and it holds a majority of the final
  ballots;
- the error is returned exactly when no candidate is left.

Several behaviours of the code are worth knowing. Each is proved in the model.

- A winning round always has exactly one winner. Two candidates cannot both hold more
  than half of all first choices. The co-winner path (several names at the top count)
  can never return more than one name.
- The error is never caused by an empty tally inside the loop. It is returned only
  after every candidate has been struck, one per round.
- Two voters ranking `A,B` and `B,A` always elect a single winner, whichever candidate
  the random choice strikes first (`Theorems.OppositeRankingsElect`).
- Three voters naming one different candidate each always end with the error. No
  candidate ever gets more than one of the three ballots, so no later round has a
  majority (`Theorems.ThreeSinglesNeverDecide`).
- The comment at main.go:47 calls `possibleRankings` "worst to best". But `tabulateVoters`
  lists names in the order of `possibleRankings`, and the runoff counts the first name as
  the first choice. So the tokens must be given best first, as the comment at main.go:58
  says. The model follows the code, and `Ballots.VotesOfSnoc` pins the order.

## Model

| member | source | states |
|---|---|---|
| Strings.FirstPart | main.go:38-39 | the first `;`-part of a cell contains no `;`, is a prefix of the cell, and ends where the cell has a `;` or ends |
| Strings.FirstPartWhole | main.go:34-39 | a cell is its own first part exactly when it holds no `;` |
| Strings.FirstPartOfJoin | main.go:23-31 | the first part of `a;b` is `a`, whatever `b` holds |
| Strings.LessTotal | instant_runoff.go:53-55 | Go's string `<` orders any two different names one way or the other |
| Strings.LessTransitive | instant_runoff.go:53-55 | the name order used by the first sort is transitive |
| Strings.LessAsymmetric | instant_runoff.go:53-55 | the name order never holds both ways |
| Ballots.ValidateCsvRecords | main.go:81-91 | no error exactly when there is a header whose first field is "Timestamp"; the missing-header error exactly when there are no records at all |
| Ballots.IndexOfRanking | main.go:32-44 | -1 exactly when no cell equals the rank token or has it as first `;`-part; otherwise the smallest index of such a cell, in bounds |
| Ballots.HoldsOnlyFirstPart | main.go:23-41 | a cell `a;b` holds rank token `r` exactly when `r` is `a`; ranks after the first `;` are never found |
| Ballots.MultiRankCellCountsOnce | main.go:23-31 | the cell "1;2" is found for rank "1" and not for rank "2" |
| Ballots.HoldsPlainRanking | main.go:34-41 | for a token without `;`, a cell holds it exactly when its first part equals it |
| Ballots.VotesOf | main.go:60-69 | one voter's names are at most as many as the rank tokens, and a name is listed exactly when some token selects that name's column |
| Ballots.VotesOfSnoc | main.go:58-69 | the names come in the order of the rank tokens: no tokens give no names, and a token added at the end adds its selected name, if any, at the end |
| Ballots.VotesOfDistinct | main.go:61-69 | with distinct `;`-free tokens and distinct header names, no voter lists a candidate twice |
| Ballots.VotersOf | main.go:57-76 | one voter per data row, in row order, with that row's timestamp and the names its cells select |
| Ballots.TabulateVoters | main.go:48-79 | the error is the validation error; on an error the voter list is empty; otherwise there is one voter per data row with the row's first field as timestamp and the votes its cells select against the header |
| Ballots.TabulatedVotesDistinct | main.go:55-69 | every tabulated voter ranks only header candidates, none twice, and at most one per rank token |
| Tally.CountWinningVotes | instant_runoff.go:17-27 | a candidate is a key exactly when some non-empty ranking starts with it, and its count is the number of such rankings |
| Tally.TallyTotal | instant_runoff.go:19-25 | the counts sum to the number of voters whose ranking is not empty |
| Tally.TallyBounds | instant_runoff.go:19-25 | every count is at least 1, and all counts together are at most the number of voters |
| Tally.SupportersDisjoint | instant_runoff.go:21-24 | two different candidates together head no more rankings than there are voters |
| Tally.MajorityUnique | instant_runoff.go:96-100 | at most one candidate can hold more than half of all voters' first choices |
| Tally.CountCandidates | instant_runoff.go:30-38 | the number of distinct names across all rankings |
| Tally.TallyLive | instant_runoff.go:19-25 | the tally names only candidates still on some ballot, and it is empty exactly when no candidate is left |
| Tally.TotalRemove | instant_runoff.go:19-25 | helper of `TallyTotal` about the sum of a tally, which the source never computes: the sum is any one count plus the sum of the rest |
| Tally.TotalIncrement | instant_runoff.go:24 | helper of `TallyTotal`: one `+= 1` on a candidate's count raises the sum of the tally by one |
| Sorting.StableSort | instant_runoff.go:53-59 | `sort.SliceStable` returns a permutation of its input |
| Sorting.InsertPos | instant_runoff.go:53-59 | everything from the insertion point on is something the new element is less than, and the element just before it is not |
| Sorting.NameSortAscending | instant_runoff.go:52-55 | the name sort of entries with distinct names is strictly ascending by name |
| Sorting.CountSortOrdered | instant_runoff.go:56-59 | stable-sorting name-ordered entries by count yields the order by count, then by name |
| Sorting.KeyOrderLength | instant_runoff.go:42 | a map range visits as many keys as the map has |
| Sorting.Entries | instant_runoff.go:42-50 | the listed entries are exactly the tally's keys with their counts, as many as the tally has keys, no name twice |
| Sorting.SortIterationResults | instant_runoff.go:41-62 | one entry per tally key with its count and no other entries, ordered by count and, for equal counts, by ascending name |
| Sorting.OrderedUnique | instant_runoff.go:52-59 | two (count, name)-ordered lists with the same entries are equal |
| Sorting.PrecedesStrict | instant_runoff.go:53-59 | the (count, name) order is irreflexive and asymmetric |
| Sorting.SortIgnoresIterationOrder | instant_runoff.go:42-59 | the sorted result is the same for every map iteration order |
| Runoff.FirstChoiceOrderKeys | instant_runoff.go:42 | the iteration order the model uses lists every tally key exactly once |
| Runoff.Group | instant_runoff.go:83-90 | the entries with a given count, and only those |
| Runoff.GroupOrdered | instant_runoff.go:83-90 | a group keeps the (count, name) order of the sorted results |
| Runoff.WorstCandidates | instant_runoff.go:79-86 | non-empty for a non-empty tally, ordered, and exactly the entries holding the fewest votes; being non-empty inside the loop is what keeps the panic at instant_runoff.go:109-111 from firing |
| Runoff.BestCandidates | instant_runoff.go:80-90 | non-empty for a non-empty tally, ordered by name, and exactly the entries holding the most votes |
| Runoff.Remove | instant_runoff.go:117-122 | the filtered ranking no longer holds the loser, keeps every other occurrence, and keeps their relative order |
| Runoff.Eliminate | instant_runoff.go:115-127 | the same voters in the same order with the same timestamps; the loser is on no ballot afterwards, and exactly the loser has left the names on the ballots |
| Runoff.RemoveMembers | instant_runoff.go:117-122 | a name survives filtering exactly when it was there and is not the loser |
| Runoff.FilteredLive | instant_runoff.go:116-127 | filtering the loser out of every ranking removes exactly the loser from the names on the ballots |
| Runoff.RunRound | instant_runoff.go:70-127 | a round decides exactly when some candidate holds a majority of all voters, and then that candidate is the only winner; otherwise it strikes a candidate with the fewest first choices |
| Runoff.RoundTable | instant_runoff.go:70-79 | the sorted tally inside the loop is non-empty, ordered, and lists exactly the tally |
| Runoff.PickLoser | instant_runoff.go:109-112 | whichever index the random choice yields, the loser has the fewest first choices |
| Runoff.NoMajority | instant_runoff.go:96-103 | when the top count is no majority, no candidate has one |
| Runoff.FewestVotes | instant_runoff.go:79-86 | every member of the worst group has the fewest votes in the tally |
| Runoff.MajorityWinners | instant_runoff.go:96-101 | when the top count is a majority, the returned winners are exactly the majority holder |
| Runoff.RoundShrinksLive | instant_runoff.go:109-127 | a round that eliminates removes one candidate that was on the ballots, so the number of live candidates drops by exactly one |
| Runoff.LoserLive | instant_runoff.go:109-112 | a candidate with the fewest first choices is still on some ballot, so striking it lowers the live count by exactly one |
| Runoff.StrikeLive | instant_runoff.go:115-127 | striking a set of names removes exactly those names from the ballots |
| Runoff.StrikeMore | instant_runoff.go:115-127 | one more elimination strikes one more name |
| Runoff.StrikeTwice | instant_runoff.go:115-127 | striking one set of names after another strikes their union |
| Runoff.SettledHere | instant_runoff.go:131 | returning without eliminating, with a consistent winner or error, settles the run on the ballots as given |
| Runoff.SettledBack | instant_runoff.go:115-128 | an outcome settled after an elimination is settled before it, with the loser added to the struck names |
| Runoff.LostAtLast | instant_runoff.go:109-112 | striking the only candidate left means that candidate lacked a majority on its own |
| Runoff.LostBack | instant_runoff.go:115-128 | a candidate who fell short as last one standing after an elimination fell short before it |
| Runoff.StrikeAllBut | instant_runoff.go:115-127 | striking all but one candidate gives the same ballots before or after an earlier elimination |
| Runoff.RunoffFrom | instant_runoff.go:69-131 | the rounds from a given one on end settled: the ballots with some names struck, then one majority winner, or the error exactly when no name is left; the error comes only after a last candidate fell short |
| Runoff.WholeRun | instant_runoff.go:65-131 | a whole run, bounded by the candidate count, is settled |
| Runoff.RunoffFromStep | instant_runoff.go:69-128 | a round that eliminates hands over to the next round with one fewer live candidate |
| Runoff.DecidedHere | instant_runoff.go:96-101 | a deciding round returns one majority winner and leaves the ballots as they were |
| Runoff.MajorityWinsFirstRound | instant_runoff.go:96-101 | a candidate with a majority of the original first choices wins in round 1 and nothing is struck |
| Runoff.RunoffGuarantees | instant_runoff.go:65-131 | the returned ballots, winners and error fit together as a settled outcome, and a first-round majority wins outright |
| Runoff.ComputeInstantRunoffWinner | instant_runoff.go:65-132 | the loop computes the run: a settled outcome, with a first-round majority holder as sole winner and the voters left untouched |
| Theorems.SupportersAll | instant_runoff.go:19-25 | when every ranking starts with the same candidate, that candidate gets every voter's vote |
| Theorems.CompleteLastStanding | instant_runoff.go:115-127 | with complete rankings, striking all but one candidate leaves that candidate heading every ballot, hence a majority of all ballots |
| Theorems.CompleteBallotsElect | instant_runoff.go:65-131 | when every ballot ranks every candidate, the run always returns exactly one winner and no error |
| Theorems.StruckSupportMentioned | instant_runoff.go:115-127 | after any strikes, a candidate heads no more ballots than originally named it |
| Theorems.NarrowSupportNeverDecides | instant_runoff.go:65-131 | when no candidate is named on more than half the ballots, the run strikes everyone and ends with the error |
| Theorems.WinnerWasNamed | instant_runoff.go:96-101 | a winner is a candidate named on some original ballot |
| Theorems.OppositeRankingsElect | instant_runoff.go:65-131 | ballots `A,B` and `B,A` elect exactly one of A and B, for every random choice |
| Theorems.FirstRoundMajorityElects | instant_runoff.go:96-101 | two of three voters ranking A first elect A in round 1 with the ballots unchanged |
| Theorems.ThreeSinglesNeverDecide | instant_runoff.go:65-131 | three voters naming one different candidate each end with the error |

## Left out

- Printing: every `fmt.Printf`/`Println` in the runoff is presentation only and has no
  counterpart.
- `main()` in main.go: flag parsing, reading the file and `encoding/csv` parsing are I/O.
  The model starts from already-split records (`seq<seq<string>>`).
- `rand.Intn`: the random index becomes the parameter `pick(round, n)`, constrained only
  to be below `n`. Every property holds for every such choice.
- The `float64` majority test at instant_runoff.go:96 becomes the integer test
  `2 * max > |voters|`. For non-negative integer counts the two agree.
- Go map iteration order at instant_runoff.go:42 becomes an explicit key order.
  `Sorting.SortIgnoresIterationOrder` shows the result does not depend on it.
- Integer widths: `uint` counts and `int` indices are unbounded `nat`/`int`. The counts
  never exceed the number of voters.
- The distinction between nil and empty slices (`filteredVotes`, an unset
  `winningCandidates`).
- The text of the two validation errors and of the runoff error: they are modelled as
  the constructors `NoHeaderLine`, `NoTimestampField` and `NeverDetermined`.
- In-place mutation: `computeInstantRunoffWinner` rewrites the caller's voters. The model
  returns the rewritten voters as `ballots`.
- Ballots.TabulateVoters: it requires each data row to have a timestamp and no more
  cells than the header. That is the range-safety part of the equal-length rule Go's CSV
  reader enforces, and it is weaker than that rule.
- Strings.Less: it compares characters, not UTF-8 bytes. For valid UTF-8 the two orders
  agree.
- Re-tallying after a round is not stated as a separate property. Every function is pure,
  so running one twice on the same ballots gives the same result by construction.
