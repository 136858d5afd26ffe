/**
 * Worked cases of the rules above on small concrete lists: the aggregation
 * of two ballots, the tie order of the ranking, the case-sensitive
 * one-ballot rule beside the case-blind self-vote rule, and the book shift
 * after a delete.
 */
module Scenarios {
  import opened Records
  import opened Scoring
  import opened Sorting
  import opened DataManager
  import opened Results
  import opened Text
  import opened BallotRules

  const Gab: Ballot := Ballot("Gab", [Allocation(0, 60), Allocation(1, 40)], "t1")
  const PhilBallot: Ballot := Ballot("Phil", [Allocation(0, 30)], "t2")

  /** Gab gives 60 to book 0 and 40 to book 1, Phil 30 to book 0: book 0 scores 90, book 1 scores 40. */
  lemma TwoBallotsAggregate()
    ensures Tally(Allocations([Gab, PhilBallot])) == [Entry(0, 90), Entry(1, 40)]
  {
    var votes := [Gab, PhilBallot];
    assert votes[..1] == [Gab];
    assert [Gab][..0] == [];
    assert Allocations([Gab]) == Gab.votes;
    assert Allocations(votes) == [Allocation(0, 60), Allocation(1, 40), Allocation(0, 30)];
    var allocs := Allocations(votes);
    assert allocs[..2] == Gab.votes;
    assert Gab.votes[..1] == [Allocation(0, 60)];
    assert [Allocation(0, 60)][..0] == [];
    assert Tally([Allocation(0, 60)]) == [Entry(0, 60)];
    assert [Entry(0, 60)][1..] == [];
    assert Bump([Entry(0, 60)], Allocation(1, 40)) == [Entry(0, 60), Entry(1, 40)];
    assert Tally(Gab.votes) == [Entry(0, 60), Entry(1, 40)];
    assert allocs[..3 - 1] == Gab.votes;
    assert [Entry(0, 60), Entry(1, 40)][1..] == [Entry(1, 40)];
    assert Bump([Entry(0, 60), Entry(1, 40)], Allocation(0, 30)) == [Entry(0, 90), Entry(1, 40)];
  }

  /** The breakdown of book 0 lists Gab with 60 and Phil with 30; that of book 1 lists Gab with 40. */
  lemma TwoBallotsBreakdown()
    ensures Breakdown([Gab, PhilBallot], 0) == [("Gab", 60), ("Phil", 30)]
    ensures Breakdown([Gab, PhilBallot], 1) == [("Gab", 40)]
  {
    var votes := [Gab, PhilBallot];
    assert votes[..1] == [Gab];
    assert [Gab][..0] == [];
    assert Mentions(Gab.votes, 0) by { assert Gab.votes[0].book == 0; }
    assert Mentions(Gab.votes, 1) by { assert Gab.votes[1].book == 1; }
    assert Mentions(PhilBallot.votes, 0) by { assert PhilBallot.votes[0].book == 0; }
    assert !Mentions(PhilBallot.votes, 1);
    assert FirstPoints(Gab.votes, 1) == 40 by {
      assert Gab.votes[1..] == [Allocation(1, 40)];
    }
    assert Breakdown([Gab], 0) == [("Gab", 60)];
    assert Breakdown([Gab], 1) == [("Gab", 40)];
    assert Breakdown(votes, 0) == Breakdown([Gab], 0) + [("Phil", 30)];
    assert Breakdown(votes, 1) == Breakdown([Gab], 1);
  }

  /** Books scoring 50, 50 and 30 rank in the order the first two entered the score dictionary. */
  lemma TiesKeepDictionaryOrder()
    ensures SortDesc([Entry(0, 50), Entry(1, 50), Entry(2, 30)], TotalKey) == [Entry(0, 50), Entry(1, 50), Entry(2, 30)]
  {
    var s := [Entry(0, 50), Entry(1, 50), Entry(2, 30)];
    assert s[1..] == [Entry(1, 50), Entry(2, 30)];
    assert s[1..][1..] == [Entry(2, 30)];
    assert [Entry(2, 30)][1..] == [];
  }

  /** A stored ballot for "Kathy" blocks "Kathy" but not "kathy": the one-ballot rule is case-sensitive. */
  lemma VoterNamesAreCaseSensitive()
    ensures HasVoted([Ballot("Kathy", [], "t")], "Kathy")
    ensures !HasVoted([Ballot("Kathy", [], "t")], "kathy")
  {
    assert [Ballot("Kathy", [], "t")][0].voter == "Kathy";
    assert "Kathy"[0] != "kathy"[0];
  }

  /**
   * With books A and B listed and Gab's ballot naming B (position 1),
   * deleting B leaves Gab's ballot pointing past the end of the list.
   */
  lemma DeletingVotedBookDangles(a: Book, b: Book)
    ensures Dangling([a, b][..1] + [a, b][2..], [Gab, PhilBallot])
  {
    DeleteLeavesDanglingVote([a, b], [Gab, PhilBallot], 1, 0, 1);
  }

  /**
   * Val listed the first book and a ballot is stored under "Val". The voter
   * "val" has not voted, since that rule compares names exactly, yet a ballot
   * from "val" naming book 0 is refused as a vote for their own book, since
   * that rule ignores case.
   */
  lemma CaseRulesDiffer(books: seq<Book>, choices: seq<nat>, points: seq<nat>, allocs: seq<Allocation>)
    requires |books| > 0 && books[0].submitter == "Val"
    requires FormChecksPass("val", choices, points) && 0 in choices
    ensures !HasVoted([Ballot("Val", allocs, "t")], "val")
    ensures CheckBallot("val", choices, points, books, [Ballot("Val", allocs, "t")]) == OwnBookChosen
  {
    assert "val"[0] != "Val"[0];
    LowerAgree("Val", "val");
    assert SameName(books[0].submitter, "val");
  }
}
