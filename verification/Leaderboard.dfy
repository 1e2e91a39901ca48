/** Candidate ranking, and the two places of the console that say whether it has a winner. */
module Leaderboard {
  import opened Texts
  import opened Sorting

  datatype Candidate = Candidate(id: Text, score: real)

  datatype Entry = Entry(candidateId: Text, score: real, rank: nat)

  // ---- the ranking service ---------------------------------------------------------------------

  /** Highest score first, higher id first among equals. */
  predicate NotAfter(a: Candidate, b: Candidate) {
    a.score > b.score || (a.score == b.score && Leq(b.id, a.id))
  }

  lemma NotAfterIsTotalPreorder()
    ensures TotalPreorder(NotAfter)
  {
    LeqOrdersTexts();
    forall a, b, c | NotAfter(a, b) && NotAfter(b, c) ensures NotAfter(a, c) {
      assert Leq(c.id, b.id) && Leq(b.id, a.id) ==> Leq(c.id, a.id);
    }
  }

  function Number(s: seq<Candidate>, first: nat): seq<Entry> {
    if s == [] then [] else [Entry(s[0].id, s[0].score, first)] + Number(s[1..], first + 1)
  }

  /** `rank_candidates`. */
  function RankCandidates(candidates: seq<Candidate>): seq<Entry> {
    Number(Sort(NotAfter, candidates), 1)
  }

  lemma {:induction false} NumberedEntries(s: seq<Candidate>, first: nat)
    ensures |Number(s, first)| == |s|
    ensures forall i :: 0 <= i < |s| ==> Number(s, first)[i] == Entry(s[i].id, s[i].score, first + i)
  {
    if s != [] { NumberedEntries(s[1..], first + 1); }
  }

  /** Scores descend and each rank is the position plus one. */
  predicate Ranked(entries: seq<Entry>) {
    && (forall i, j :: 0 <= i < j < |entries| ==> entries[i].score >= entries[j].score)
    && RankedByPosition(entries)
  }

  /** The candidates on a board. */
  function Standings(entries: seq<Entry>): (r: seq<Candidate>)
    ensures |r| == |entries| && forall i :: 0 <= i < |r| ==> r[i] == Candidate(entries[i].candidateId, entries[i].score)
  {
    if entries == [] then [] else [Candidate(entries[0].candidateId, entries[0].score)] + Standings(entries[1..])
  }

  /** The board holds every candidate once, by descending score and, among equals, by descending id;
      each rank is the position plus one. */
  lemma RankingIsRanked(candidates: seq<Candidate>)
    ensures var entries := RankCandidates(candidates);
            && Ranked(entries) && multiset(Standings(entries)) == multiset(candidates)
            && forall i, j :: 0 <= i < j < |entries| && entries[i].score == entries[j].score ==>
                 Leq(entries[j].candidateId, entries[i].candidateId)
  {
    var entries, sorted := RankCandidates(candidates), Sort(NotAfter, candidates);
    NumberedEntries(sorted, 1);
    assert Standings(entries) == sorted;
    SortPermutes(NotAfter, candidates);
    NotAfterIsTotalPreorder();
    SortOrders(NotAfter, candidates);
    OrderedDescends(entries);
  }

  lemma {:induction false} OrderedDescends(entries: seq<Entry>)
    requires Ordered(NotAfter, Standings(entries))
    ensures forall i, j :: 0 <= i < j < |entries| ==> entries[i].score >= entries[j].score
    ensures forall i, j :: 0 <= i < j < |entries| && entries[i].score == entries[j].score ==>
              Leq(entries[j].candidateId, entries[i].candidateId)
  {
    forall i, j | 0 <= i < j < |entries|
      ensures entries[i].score >= entries[j].score
      ensures entries[i].score == entries[j].score ==> Leq(entries[j].candidateId, entries[i].candidateId)
    {
      assert NotAfter(Standings(entries)[i], Standings(entries)[j]);
    }
  }

  // ---- the console ---------------------------------------------------------------------------------

  predicate HasUniqueWinner(entries: seq<Entry>) {
    |entries| >= 2 && entries[0].score != entries[1].score
  }

  predicate HasTopTie(completed: bool, entries: seq<Entry>) {
    completed && entries != [] && exists i :: 1 <= i < |entries| && entries[i].score == entries[0].score
  }

  /** The two checks contradict each other on a completed board of two or more exactly when the
      second entry is not level with the first but a later one is. */
  lemma TieChecksAgreeExactly(entries: seq<Entry>)
    requires |entries| >= 2
    ensures HasUniqueWinner(entries) == !HasTopTie(true, entries) <==>
              entries[0].score == entries[1].score || forall i :: 2 <= i < |entries| ==> entries[i].score != entries[0].score
  {
    if entries[0].score == entries[1].score {
      assert HasTopTie(true, entries);
    }
  }

  /** A board on which they contradict each other; the ranking service makes none like it. */
  lemma ScatteredTieDisagrees()
    ensures var entries := [Entry([97], 1.0, 1), Entry([98], 0.0, 2), Entry([99], 1.0, 3)];
            HasUniqueWinner(entries) && HasTopTie(true, entries)
  {
    var entries := [Entry([97], 1.0, 1), Entry([98], 0.0, 2), Entry([99], 1.0, 3)];
    assert entries[2].score == entries[0].score;
  }

  /** Equal scores stand together. */
  predicate TiesAdjacent(entries: seq<Entry>) {
    forall i, j, k :: 0 <= i < j < k < |entries| && entries[i].score == entries[k].score ==> entries[j].score == entries[i].score
  }

  /** So they agree wherever equal scores stand together. */
  lemma TieChecksAgreeWhenAdjacent(entries: seq<Entry>)
    requires |entries| >= 2 && TiesAdjacent(entries)
    ensures HasUniqueWinner(entries) <==> !HasTopTie(true, entries)
  {
    TieChecksAgreeExactly(entries);
    if i :| 2 <= i < |entries| && entries[i].score == entries[0].score {
      assert entries[1].score == entries[0].score;
    }
  }

  /** In particular on every board the ranking service makes. */
  lemma TieChecksAgreeOnRankings(candidates: seq<Candidate>)
    ensures var entries := RankCandidates(candidates);
            TiesAdjacent(entries) && (|entries| >= 2 ==> (HasUniqueWinner(entries) <==> !HasTopTie(true, entries)))
  {
    RankingIsRanked(candidates);
    var entries := RankCandidates(candidates);
    if |entries| >= 2 { TieChecksAgreeWhenAdjacent(entries); }
  }

  // ---- displayed ranks -----------------------------------------------------------------------------

  function MinRank(entries: seq<Entry>, score: real): Option<nat> {
    if entries == [] then None
    else
      var rest := MinRank(entries[1..], score);
      if entries[0].score != score then rest
      else if rest.None? || entries[0].rank <= rest.value then Some(entries[0].rank)
      else rest
  }

  predicate Tied(entries: seq<Entry>, e: Entry) {
    exists i :: 0 <= i < |entries| && entries[i].candidateId != e.candidateId && entries[i].score == e.score
  }

  /** The number `formatRank` shows, behind "Tie" or alone. */
  function ShownRank(entries: seq<Entry>, e: Entry): nat {
    if Tied(entries, e) && MinRank(entries, e.score).Some? then MinRank(entries, e.score).value else e.rank
  }

  function Ahead(entries: seq<Entry>, score: real): nat {
    if entries == [] then 0 else (if entries[0].score > score then 1 else 0) + Ahead(entries[1..], score)
  }

  lemma {:induction false} MinRankIsLeast(entries: seq<Entry>, score: real)
    ensures MinRank(entries, score).Some? <==> exists i :: 0 <= i < |entries| && entries[i].score == score
    ensures MinRank(entries, score).Some? ==>
              && (exists i :: 0 <= i < |entries| && entries[i].score == score && entries[i].rank == MinRank(entries, score).value)
              && (forall i :: 0 <= i < |entries| && entries[i].score == score ==> MinRank(entries, score).value <= entries[i].rank)
  {
    if entries != [] {
      MinRankIsLeast(entries[1..], score);
      assert forall i :: 1 <= i < |entries| ==> entries[i] == entries[1..][i - 1];
      if MinRank(entries, score) == MinRank(entries[1..], score) && MinRank(entries, score).Some? {
        var i :| 0 <= i < |entries| - 1 && entries[1..][i].score == score && entries[1..][i].rank == MinRank(entries, score).value;
        assert entries[i + 1].score == score;
      }
    }
  }

  predicate RankedByPosition(entries: seq<Entry>) {
    forall i :: 0 <= i < |entries| ==> entries[i].rank == i + 1
  }

  predicate DistinctCandidates(entries: seq<Entry>) {
    forall i, j :: 0 <= i < j < |entries| ==> entries[i].candidateId != entries[j].candidateId
  }

  /** Where a score first occurs. */
  function FirstWith(entries: seq<Entry>, score: real): (n: nat)
    ensures n <= |entries| && (n < |entries| ==> entries[n].score == score)
    ensures forall i :: 0 <= i < n ==> entries[i].score != score
  {
    if entries == [] || entries[0].score == score then 0 else 1 + FirstWith(entries[1..], score)
  }

  /** The least rank of a score is that of its first entry. */
  lemma MinRankIsFirst(entries: seq<Entry>, k: nat)
    requires RankedByPosition(entries) && k < |entries|
    ensures MinRank(entries, entries[k].score) == Some(1 + FirstWith(entries, entries[k].score))
  {
    MinRankIsLeast(entries, entries[k].score);
  }

  /** Whatever the order of the scores: with one entry for each candidate and ranks by position, every
      entry, tied or not, shows one plus the position at which its score first occurs. So all entries
      of one score show one rank, the number of entries before the first of them plus one. */
  lemma ShownRankIsFirstPlace(entries: seq<Entry>, k: nat)
    requires RankedByPosition(entries) && DistinctCandidates(entries) && k < |entries|
    ensures ShownRank(entries, entries[k]) == 1 + FirstWith(entries, entries[k].score)
    ensures Tied(entries, entries[k]) <==> exists i :: 0 <= i < |entries| && i != k && entries[i].score == entries[k].score
  {
    MinRankIsFirst(entries, k);
    TiedByPosition(entries, k);
    var first := FirstWith(entries, entries[k].score);
    assert first != k ==> Tied(entries, entries[k]);
  }

  lemma {:induction false} AheadCounts(entries: seq<Entry>, score: real, n: nat)
    requires n <= |entries|
    requires forall i :: 0 <= i < n ==> entries[i].score > score
    requires forall i :: n <= i < |entries| ==> entries[i].score <= score
    ensures Ahead(entries, score) == n
  {
    if entries != [] {
      AheadCounts(entries[1..], score, if n == 0 then 0 else n - 1);
    }
  }

  /** On a ranked board that is one plus the number of entries with a better score. */
  lemma ShownRankIsCompetitionRank(entries: seq<Entry>, k: nat)
    requires Ranked(entries) && DistinctCandidates(entries) && k < |entries|
    ensures ShownRank(entries, entries[k]) == 1 + Ahead(entries, entries[k].score)
  {
    ShownRankIsFirstPlace(entries, k);
    AheadOfFirst(entries, k);
  }

  lemma AheadOfFirst(entries: seq<Entry>, k: nat)
    requires Ranked(entries) && k < |entries|
    ensures Ahead(entries, entries[k].score) == FirstWith(entries, entries[k].score)
  {
    var score := entries[k].score;
    var n := FirstWith(entries, score);
    assert n <= k;
    forall i | 0 <= i < n ensures entries[i].score > score { assert entries[i].score >= entries[n].score; }
    forall i | n <= i < |entries| ensures entries[i].score <= score { assert i > n ==> entries[n].score >= entries[i].score; }
    AheadCounts(entries, score, n);
  }

  lemma TiedByPosition(entries: seq<Entry>, k: nat)
    requires k < |entries| && DistinctCandidates(entries)
    ensures Tied(entries, entries[k]) <==> exists i :: 0 <= i < |entries| && i != k && entries[i].score == entries[k].score
  {
    if i :| 0 <= i < |entries| && i != k && entries[i].score == entries[k].score {
      assert entries[i].candidateId != entries[k].candidateId;
    }
  }

  // ---- the reported outcome --------------------------------------------------------------------------

  datatype Status = DRAFT | RUNNING | COMPLETED | FAILED | CANCELLED

  datatype Outcome = Loading | Evaluating | Cancelled | NeedsReview | NoUniqueWinner | Recommended
    | ComparisonRequired | ReadyToConfigure | ReadyToEvaluate | AwaitingRanking

  datatype Progress = Progress(status: Status, candidateCount: Option<nat>, candidatesLoading: bool, leaderboardLoading: bool,
                               totalRuns: nat, completedRuns: nat, failedRuns: nat, leaderboard: Option<seq<Entry>>)

  function Entries(p: Progress): seq<Entry> { if p.leaderboard.None? then [] else p.leaderboard.value }

  /** `presentationFor` with the values its caller computes. */
  function Present(p: Progress): Outcome {
    var finalized := p.status == COMPLETED;
    var top := finalized && Entries(p) != [];
    var count := if p.candidateCount.None? then 0 else p.candidateCount.value;
    if p.candidatesLoading || p.leaderboardLoading then Loading
    else if p.status == RUNNING then Evaluating
    else if p.status == CANCELLED then Cancelled
    else if p.status == FAILED || p.failedRuns > 0 then NeedsReview
    else if top && count >= 2 && HasTopTie(finalized, Entries(p)) then NoUniqueWinner
    else if top && count >= 2 then Recommended
    else if top && p.candidateCount == Some(1) then ComparisonRequired
    else if count == 0 then ReadyToConfigure
    else if p.totalRuns == 0 then ReadyToEvaluate
    else if p.completedRuns + p.failedRuns < p.totalRuns then Evaluating
    else AwaitingRanking
  }

  /** A recommendation is reported exactly for a loaded, completed experiment without failed runs, with
      at least two candidates and a best entry that nobody shares. On a ranking of two or more entries
      that is when there is a unique winner. */
  lemma RecommendedExactly(p: Progress)
    ensures Present(p) == Recommended <==>
              && !p.candidatesLoading && !p.leaderboardLoading && p.status == COMPLETED && p.failedRuns == 0
              && p.candidateCount.Some? && p.candidateCount.value >= 2 && Entries(p) != []
              && forall i :: 1 <= i < |Entries(p)| ==> Entries(p)[i].score != Entries(p)[0].score
    ensures |Entries(p)| >= 2 && Ranked(Entries(p)) && Present(p) == Recommended ==> HasUniqueWinner(Entries(p))
  {
  }

  predicate Decided(p: Progress) {
    !p.candidatesLoading && !p.leaderboardLoading && p.status == COMPLETED && p.failedRuns == 0 && Entries(p) != []
  }

  /** The other verdicts of a completed experiment, and when a review is asked for. */
  lemma VerdictsExactly(p: Progress)
    ensures Present(p) == NoUniqueWinner <==>
              && Decided(p) && p.candidateCount.Some? && p.candidateCount.value >= 2
              && exists i :: 1 <= i < |Entries(p)| && Entries(p)[i].score == Entries(p)[0].score
    ensures Present(p) == ComparisonRequired <==> Decided(p) && p.candidateCount == Some(1)
    ensures Present(p) == NeedsReview <==>
              && !p.candidatesLoading && !p.leaderboardLoading && p.status !in {RUNNING, CANCELLED}
              && (p.status == FAILED || p.failedRuns > 0)
  {
  }
}
