/**
 * What `calculate_scores` computes: a dictionary from book position to the
 * sum of the points given to it, whose keys keep the order in which they were
 * first inserted. The dictionary is modelled as a sequence of entries so that
 * this insertion order, which decides ties in the ranking, stays visible.
 */
module Scoring {
  import opened Records

  /** Every allocation of every ballot, in the order the nested loops visit them. */
  function Allocations(votes: seq<Ballot>): seq<Allocation>
  {
    if votes == [] then [] else Allocations(votes[..|votes| - 1]) + votes[|votes| - 1].votes
  }

  function BooksOf(allocs: seq<Allocation>): seq<nat>
  {
    seq(|allocs|, i requires 0 <= i < |allocs| => allocs[i].book)
  }

  function Keys(scores: seq<Entry>): seq<nat>
  {
    seq(|scores|, i requires 0 <= i < |scores| => scores[i].book)
  }

  /** The value stored under key `b`, or 0 when `b` is not a key. */
  function Lookup(scores: seq<Entry>, b: nat): nat
  {
    if scores == [] then 0
    else if scores[0].book == b then scores[0].total
    else Lookup(scores[1..], b)
  }

  /** The sum of the points given to book `b` by the allocations `allocs`. */
  function PointsFor(allocs: seq<Allocation>, b: nat): nat
  {
    if allocs == [] then 0
    else PointsFor(allocs[..|allocs| - 1], b) + (if allocs[|allocs| - 1].book == b then allocs[|allocs| - 1].points else 0)
  }

  function SumPoints(allocs: seq<Allocation>): nat
  {
    if allocs == [] then 0 else SumPoints(allocs[..|allocs| - 1]) + allocs[|allocs| - 1].points
  }

  function SumTotals(scores: seq<Entry>): nat
  {
    if scores == [] then 0 else scores[0].total + SumTotals(scores[1..])
  }

  /** The distinct elements of `xs`, each at the place of its first occurrence. */
  function FirstAppearances(xs: seq<nat>): seq<nat>
  {
    if xs == [] then []
    else
      var d := FirstAppearances(xs[..|xs| - 1]);
      if xs[|xs| - 1] in d then d else d + [xs[|xs| - 1]]
  }

  ghost predicate DistinctKeys(scores: seq<Entry>)
  {
    forall i, j :: 0 <= i < j < |scores| ==> scores[i].book != scores[j].book
  }

  /**
   * One step of the inner loop: `book_scores[idx] += points`, creating the key
   * with value 0 at the end of the dictionary when it is missing.
   */
  function Bump(scores: seq<Entry>, a: Allocation): seq<Entry>
  {
    if scores == [] then [Entry(a.book, a.points)]
    else if scores[0].book == a.book then [Entry(a.book, scores[0].total + a.points)] + scores[1..]
    else [scores[0]] + Bump(scores[1..], a)
  }

  /** The dictionary after folding the allocations `allocs`, in order, into an empty one. */
  function Tally(allocs: seq<Allocation>): seq<Entry>
  {
    if allocs == [] then [] else Bump(Tally(allocs[..|allocs| - 1]), allocs[|allocs| - 1])
  }

  /** The dictionary itself, as a map from book position to points. */
  function ScoreMap(scores: seq<Entry>): map<nat, nat>
  {
    map b | b in Keys(scores) :: Lookup(scores, b)
  }

  // ---------------------------------------------------------------- Bump

  lemma {:induction false} BumpKeys(scores: seq<Entry>, a: Allocation)
    ensures Keys(Bump(scores, a)) == if a.book in Keys(scores) then Keys(scores) else Keys(scores) + [a.book]
  {
    if scores != [] && scores[0].book != a.book {
      BumpKeys(scores[1..], a);
      assert Keys(scores) == [scores[0].book] + Keys(scores[1..]);
      assert Keys(Bump(scores, a)) == [scores[0].book] + Keys(Bump(scores[1..], a));
    } else if scores != [] {
      assert Keys(scores)[0] == a.book;
      assert Keys(Bump(scores, a)) == Keys(scores);
    }
  }

  lemma {:induction false} BumpLookup(scores: seq<Entry>, a: Allocation, b: nat)
    ensures Lookup(Bump(scores, a), b) == Lookup(scores, b) + (if a.book == b then a.points else 0)
  {
    if scores != [] && scores[0].book != a.book {
      BumpLookup(scores[1..], a, b);
      assert Bump(scores, a)[1..] == Bump(scores[1..], a);
    } else if scores != [] {
      assert Bump(scores, a)[1..] == scores[1..];
    }
  }

  lemma {:induction false} BumpSum(scores: seq<Entry>, a: Allocation)
    ensures SumTotals(Bump(scores, a)) == SumTotals(scores) + a.points
  {
    if scores != [] && scores[0].book != a.book {
      BumpSum(scores[1..], a);
      assert Bump(scores, a)[1..] == Bump(scores[1..], a);
    } else if scores != [] {
      assert Bump(scores, a)[1..] == scores[1..];
    }
  }

  // ---------------------------------------------------------------- first appearances

  lemma {:induction false} FirstAppearancesElements(xs: seq<nat>)
    ensures forall x :: x in FirstAppearances(xs) <==> x in xs
    ensures forall i, j :: 0 <= i < j < |FirstAppearances(xs)| ==> FirstAppearances(xs)[i] != FirstAppearances(xs)[j]
  {
    if xs != [] {
      var p := xs[..|xs| - 1];
      FirstAppearancesElements(p);
      assert xs == p + [xs[|xs| - 1]];
    }
  }

  // ---------------------------------------------------------------- Tally

  /** The keys are the books voted for, in the order each was first voted for. */
  lemma {:induction false} TallyKeys(allocs: seq<Allocation>)
    ensures Keys(Tally(allocs)) == FirstAppearances(BooksOf(allocs))
  {
    if allocs != [] {
      var p := allocs[..|allocs| - 1];
      TallyKeys(p);
      BumpKeys(Tally(p), allocs[|allocs| - 1]);
      assert BooksOf(allocs)[..|allocs| - 1] == BooksOf(p);
    }
  }

  /** Each key holds the sum of all points given to it; an absent key reads as 0. */
  lemma {:induction false} TallyLookup(allocs: seq<Allocation>, b: nat)
    ensures Lookup(Tally(allocs), b) == PointsFor(allocs, b)
  {
    if allocs != [] {
      var p := allocs[..|allocs| - 1];
      TallyLookup(p, b);
      BumpLookup(Tally(p), allocs[|allocs| - 1], b);
    }
  }

  /** No points are lost or created: the values add up to all points given. */
  lemma {:induction false} TallySum(allocs: seq<Allocation>)
    ensures SumTotals(Tally(allocs)) == SumPoints(allocs)
  {
    if allocs != [] {
      var p := allocs[..|allocs| - 1];
      TallySum(p);
      BumpSum(Tally(p), allocs[|allocs| - 1]);
    }
  }

  lemma {:induction false} LookupAt(scores: seq<Entry>, i: nat)
    requires DistinctKeys(scores) && i < |scores|
    ensures Lookup(scores, scores[i].book) == scores[i].total
  {
    if i > 0 {
      LookupAt(scores[1..], i - 1);
    }
  }

  /**
   * The score dictionary built from the allocations `allocs`: its keys are
   * distinct and are exactly the books some allocation names, in order of
   * first appearance; each value is the sum of that book's points; the values
   * add up to all points given.
   */
  lemma ScoresAreTotals(allocs: seq<Allocation>)
    ensures Keys(Tally(allocs)) == FirstAppearances(BooksOf(allocs))
    ensures DistinctKeys(Tally(allocs))
    ensures forall b :: b in Keys(Tally(allocs)) <==> exists k :: 0 <= k < |allocs| && allocs[k].book == b
    ensures forall i :: 0 <= i < |Tally(allocs)| ==> Tally(allocs)[i].total == PointsFor(allocs, Tally(allocs)[i].book)
    ensures SumTotals(Tally(allocs)) == SumPoints(allocs)
  {
    var r := Tally(allocs);
    TallyKeys(allocs);
    FirstAppearancesElements(BooksOf(allocs));
    assert forall i :: 0 <= i < |r| ==> Keys(r)[i] == r[i].book;
    forall b ensures b in Keys(r) <==> exists k :: 0 <= k < |allocs| && allocs[k].book == b {
      if b in BooksOf(allocs) {
        var k :| 0 <= k < |allocs| && BooksOf(allocs)[k] == b;
        assert allocs[k].book == b;
      }
      if exists k :: 0 <= k < |allocs| && allocs[k].book == b {
        var k :| 0 <= k < |allocs| && allocs[k].book == b;
        assert BooksOf(allocs)[k] == b;
      }
    }
    forall i | 0 <= i < |r| ensures r[i].total == PointsFor(allocs, r[i].book) {
      LookupAt(r, i);
      TallyLookup(allocs, r[i].book);
    }
    TallySum(allocs);
  }

  /** The same facts about the dictionary read as a map: keys are the voted books, values their totals. */
  lemma ScoreMapIsTotals(allocs: seq<Allocation>)
    ensures ScoreMap(Tally(allocs)).Keys == set k | 0 <= k < |allocs| :: allocs[k].book
    ensures forall b :: b in ScoreMap(Tally(allocs)) ==> ScoreMap(Tally(allocs))[b] == PointsFor(allocs, b)
  {
    ScoresAreTotals(allocs);
    forall b | b in ScoreMap(Tally(allocs)) ensures ScoreMap(Tally(allocs))[b] == PointsFor(allocs, b) {
      TallyLookup(allocs, b);
    }
  }

  // ---------------------------------------------------------------- sums over ballots

  lemma {:induction false} SumPointsAppend(x: seq<Allocation>, y: seq<Allocation>)
    ensures SumPoints(x + y) == SumPoints(x) + SumPoints(y)
  {
    if y != [] {
      SumPointsAppend(x, y[..|y| - 1]);
      assert (x + y)[..|x + y| - 1] == x + y[..|y| - 1];
    } else {
      assert x + y == x;
    }
  }

  lemma {:induction false} PointsForAppend(x: seq<Allocation>, y: seq<Allocation>, b: nat)
    ensures PointsFor(x + y, b) == PointsFor(x, b) + PointsFor(y, b)
  {
    if y != [] {
      PointsForAppend(x, y[..|y| - 1], b);
      assert (x + y)[..|x + y| - 1] == x + y[..|y| - 1];
    } else {
      assert x + y == x;
    }
  }

  /**
   * When every ballot spends exactly `budget` points, the scores add up to
   * `budget` times the number of ballots.
   */
  lemma {:induction false} FullBallotsTotal(votes: seq<Ballot>, budget: nat)
    requires forall i :: 0 <= i < |votes| ==> SumPoints(votes[i].votes) == budget
    ensures SumTotals(Tally(Allocations(votes))) == budget * |votes|
  {
    TallySum(Allocations(votes));
    AllocationsSum(votes, budget);
  }

  lemma MulSucc(a: nat, n: nat)
    ensures a * (n + 1) == a * n + a
  {
  }

  lemma {:induction false} AllocationsSum(votes: seq<Ballot>, budget: nat)
    requires forall i :: 0 <= i < |votes| ==> SumPoints(votes[i].votes) == budget
    ensures SumPoints(Allocations(votes)) == budget * |votes|
  {
    if votes != [] {
      var p := votes[..|votes| - 1];
      assert forall i :: 0 <= i < |p| ==> p[i] == votes[i];
      AllocationsSum(p, budget);
      assert Allocations(votes) == Allocations(p) + votes[|votes| - 1].votes;
      SumPointsAppend(Allocations(p), votes[|votes| - 1].votes);
      MulSucc(budget, |p|);
    }
  }
}
