/**
 * The results page: the score dictionary sorted by points, its first six
 * entries shown as cards with a per-voter breakdown, and the full table with
 * ranks and vote counts. Each entry's book is looked up by position in the
 * book list; a position past the end raises an index error that ends the page.
 */
module Results {
  import opened Records
  import opened Settings
  import opened Scoring
  import opened Sorting
  import opened DataManager

  /** `book_idx in [idx for idx, p in v['votes']]`. */
  predicate Mentions(allocs: seq<Allocation>, b: nat)
  {
    exists k :: 0 <= k < |allocs| && allocs[k].book == b
  }

  /** `next(p for idx, p in v['votes'] if idx == book_idx)`: the points of the first allocation to `b`. */
  function FirstPoints(allocs: seq<Allocation>, b: nat): nat
    requires Mentions(allocs, b)
  {
    if allocs[0].book == b then allocs[0].points
    else
      assert Mentions(allocs[1..], b) by {
        var k :| 0 <= k < |allocs| && allocs[k].book == b;
        assert allocs[1..][k - 1].book == b;
      }
      FirstPoints(allocs[1..], b)
  }

  /** The `(voter, points)` pairs of the ballots that mention `b`, in ballot order. */
  function Breakdown(votes: seq<Ballot>, b: nat): (r: seq<(string, nat)>)
    ensures |r| <= |votes|
    ensures forall p :: p in r ==>
      exists k :: 0 <= k < |votes| && votes[k].voter == p.0 && Mentions(votes[k].votes, b) && p.1 == FirstPoints(votes[k].votes, b)
  {
    if votes == [] then []
    else
      var last := votes[|votes| - 1];
      Breakdown(votes[..|votes| - 1], b) + (if Mentions(last.votes, b) then [(last.voter, FirstPoints(last.votes, b))] else [])
  }

  /** The "Votes" column: how many ballots mention `b`. */
  function VoteCount(votes: seq<Ballot>, b: nat): (r: nat)
    ensures r <= |votes|
    ensures r == 0 <==> forall k :: 0 <= k < |votes| ==> !Mentions(votes[k].votes, b)
  {
    if votes == [] then 0
    else VoteCount(votes[..|votes| - 1], b) + (if Mentions(votes[|votes| - 1].votes, b) then 1 else 0)
  }

  function PairPoints(p: (string, nat)): int { p.1 }

  function SumPairs(ps: seq<(string, nat)>): nat
  {
    if ps == [] then 0 else SumPairs(ps[..|ps| - 1]) + ps[|ps| - 1].1
  }

  /** A ballot names no book twice: true of every ballot the voting page accepts. */
  ghost predicate DistinctBooks(allocs: seq<Allocation>)
  {
    forall i, j :: 0 <= i < j < |allocs| ==> allocs[i].book != allocs[j].book
  }

  /** The book positions named by the ballots, one per allocation. */
  function VotedBooks(votes: seq<Ballot>): seq<nat>
  {
    BooksOf(Allocations(votes))
  }

  /** Some ballot points past the end of the book list. */
  ghost predicate Dangling(books: seq<Book>, votes: seq<Ballot>)
  {
    exists b :: b in VotedBooks(votes) && b >= |books|
  }

  /** `sorted(book_scores.items(), key=points, reverse=True)`. */
  function Ranked(votes: seq<Ballot>): (r: seq<Entry>)
    ensures multiset(r) == multiset(Tally(Allocations(votes)))
    ensures NonIncreasing(r, TotalKey)
    ensures forall v :: Tied(r, TotalKey, v) == Tied(Tally(Allocations(votes)), TotalKey, v)
  {
    SortDesc(Tally(Allocations(votes)), TotalKey)
  }

  datatype Card = Card(rank: nat, title: string, author: string, points: nat, breakdown: seq<(string, nat)>)

  datatype Row = Row(rank: nat, title: string, author: string, points: nat, voteCount: nat, submitter: string)

  datatype ResultsView =
    | ResultsDenied
    | NoVotes
    | IndexError
    | Shown(top: seq<Card>, table: seq<Row>)

  /** A top-section card; its breakdown holds the ballots naming the book, in ballot order. */
  function CardFor(books: seq<Book>, votes: seq<Ballot>, rank: nat, e: Entry): Card
    requires e.book < |books|
  {
    Card(rank, books[e.book].title, books[e.book].author, e.total, Breakdown(votes, e.book))
  }

  /**
   * The breakdown as the card's expander lists it: the same voters and points,
   * sorted by points, most first, ties in ballot order.
   */
  function ShownBreakdown(card: Card): (r: seq<(string, nat)>)
    ensures multiset(r) == multiset(card.breakdown)
    ensures NonIncreasing(r, PairPoints)
    ensures forall v :: Tied(r, PairPoints, v) == Tied(card.breakdown, PairPoints, v)
  {
    SortDesc(card.breakdown, PairPoints)
  }

  function RowFor(books: seq<Book>, votes: seq<Ballot>, rank: nat, e: Entry): Row
    requires e.book < |books|
  {
    Row(rank, books[e.book].title, books[e.book].author, e.total, VoteCount(votes, e.book), books[e.book].submitter)
  }

  // ---------------------------------------------------------------- attribution

  /**
   * After the book at `idx` is deleted, a score entry for a position `p` at or
   * after `idx` is shown with the title, author and submitter of the book that
   * used to sit one place later, while its breakdown and vote count stay those
   * of position `p`.
   */
  lemma DeleteShiftsAttribution(books: seq<Book>, votes: seq<Ballot>, idx: nat, p: nat, rank: nat, total: nat)
    requires idx <= p < |books| - 1
    ensures var rest := books[..idx] + books[idx + 1..];
      && p < |rest|
      && RowFor(rest, votes, rank, Entry(p, total)).title == books[p + 1].title
      && RowFor(rest, votes, rank, Entry(p, total)).author == books[p + 1].author
      && RowFor(rest, votes, rank, Entry(p, total)).submitter == books[p + 1].submitter
      && RowFor(rest, votes, rank, Entry(p, total)).voteCount == VoteCount(votes, p)
      && CardFor(rest, votes, rank, Entry(p, total)).title == books[p + 1].title
      && CardFor(rest, votes, rank, Entry(p, total)).breakdown == Breakdown(votes, p)
  {
    var rest := books[..idx] + books[idx + 1..];
    assert rest[p] == books[p + 1];
  }

  /** The breakdown has one line per ballot that mentions the book: the "Votes" count. */
  lemma {:induction false} BreakdownCount(votes: seq<Ballot>, b: nat)
    ensures |Breakdown(votes, b)| == VoteCount(votes, b)
  {
    if votes != [] {
      BreakdownCount(votes[..|votes| - 1], b);
    }
  }

  /** The ballots naming the book, by position. */
  ghost function NamingBallots(votes: seq<Ballot>, b: nat): set<int>
  {
    set k | 0 <= k < |votes| && Mentions(votes[k].votes, b)
  }

  /** The "Votes" column is the number of ballots that name the book. */
  lemma {:induction false} VoteCountIsBallots(votes: seq<Ballot>, b: nat)
    ensures VoteCount(votes, b) == |NamingBallots(votes, b)|
  {
    if votes != [] {
      var n := |votes| - 1;
      var p := votes[..n];
      VoteCountIsBallots(p, b);
      assert forall k :: 0 <= k < n ==> p[k] == votes[k];
      assert n !in NamingBallots(p, b);
      if Mentions(votes[n].votes, b) {
        assert NamingBallots(votes, b) == NamingBallots(p, b) + {n};
      } else {
        assert NamingBallots(votes, b) == NamingBallots(p, b);
      }
    }
  }

  /** A single ballot contributes its voter and points exactly when it names the book. */
  lemma BreakdownOne(v: Ballot, b: nat)
    ensures Breakdown([v], b) == if Mentions(v.votes, b) then [(v.voter, FirstPoints(v.votes, b))] else []
  {
    assert [v][..0] == [];
  }

  /** The breakdown of two runs of ballots is the first run's lines followed by the second's. */
  lemma {:induction false} BreakdownAppend(a: seq<Ballot>, c: seq<Ballot>, b: nat)
    ensures Breakdown(a + c, b) == Breakdown(a, b) + Breakdown(c, b)
  {
    if c != [] {
      var n := |c| - 1;
      BreakdownAppend(a, c[..n], b);
      assert (a + c)[..|a + c| - 1] == a + c[..n];
      assert (a + c)[|a + c| - 1] == c[n];
    } else {
      assert a + c == a;
    }
  }

  /** Every ballot naming the book has its line in the breakdown, with its voter and points. */
  lemma BreakdownComplete(votes: seq<Ballot>, b: nat, k: nat)
    requires k < |votes| && Mentions(votes[k].votes, b)
    ensures (votes[k].voter, FirstPoints(votes[k].votes, b)) in Breakdown(votes, b)
  {
    assert votes == votes[..k] + [votes[k]] + votes[k + 1..];
    BreakdownAppend(votes[..k] + [votes[k]], votes[k + 1..], b);
    BreakdownAppend(votes[..k], [votes[k]], b);
    BreakdownOne(votes[k], b);
  }

  lemma {:induction false} PointsForDistinct(allocs: seq<Allocation>, b: nat)
    requires DistinctBooks(allocs)
    ensures PointsFor(allocs, b) == if Mentions(allocs, b) then FirstPoints(allocs, b) else 0
  {
    if allocs != [] {
      var rest := allocs[1..];
      assert allocs == [allocs[0]] + rest;
      PointsForAppend([allocs[0]], rest, b);
      assert [allocs[0]][..0] == [];
      PointsForDistinct(rest, b);
      if allocs[0].book == b {
        assert !Mentions(rest, b) by {
          assert forall k :: 0 <= k < |rest| ==> rest[k] == allocs[k + 1];
        }
      } else {
        assert Mentions(allocs, b) <==> Mentions(rest, b) by {
          if Mentions(allocs, b) {
            var k :| 0 <= k < |allocs| && allocs[k].book == b;
            assert rest[k - 1].book == b;
          }
          if Mentions(rest, b) {
            var k :| 0 <= k < |rest| && rest[k].book == b;
            assert allocs[k + 1].book == b;
          }
        }
      }
    } else {
      assert !Mentions(allocs, b);
    }
  }

  /**
   * When no ballot names a book twice, the breakdown's points add up to the
   * book's score: every point of the score is attributed to one voter.
   */
  lemma {:induction false} BreakdownAddsUp(votes: seq<Ballot>, b: nat)
    requires forall i :: 0 <= i < |votes| ==> DistinctBooks(votes[i].votes)
    ensures SumPairs(Breakdown(votes, b)) == PointsFor(Allocations(votes), b)
  {
    if votes != [] {
      var p := votes[..|votes| - 1];
      var last := votes[|votes| - 1];
      assert forall i :: 0 <= i < |p| ==> p[i] == votes[i];
      BreakdownAddsUp(p, b);
      PointsForAppend(Allocations(p), last.votes, b);
      PointsForDistinct(last.votes, b);
      var tail := if Mentions(last.votes, b) then [(last.voter, FirstPoints(last.votes, b))] else [];
      var bd := Breakdown(p, b) + tail;
      if tail != [] {
        assert bd[..|bd| - 1] == Breakdown(p, b);
      } else {
        assert bd == Breakdown(p, b);
      }
    }
  }

  // ---------------------------------------------------------------- ranking

  lemma AllocationInAllocations(votes: seq<Ballot>, i: nat, j: nat)
    requires i < |votes| && j < |votes[i].votes|
    ensures exists k :: 0 <= k < |Allocations(votes)| && Allocations(votes)[k] == votes[i].votes[j]
    ensures votes[i].votes[j].book in VotedBooks(votes)
    decreases |votes|
  {
    var p := votes[..|votes| - 1];
    var last := votes[|votes| - 1];
    assert Allocations(votes) == Allocations(p) + last.votes;
    if i == |votes| - 1 {
      assert Allocations(votes)[|Allocations(p)| + j] == votes[i].votes[j];
      assert BooksOf(Allocations(votes))[|Allocations(p)| + j] == votes[i].votes[j].book;
    } else {
      assert p[i] == votes[i];
      AllocationInAllocations(p, i, j);
      var k :| 0 <= k < |Allocations(p)| && Allocations(p)[k] == votes[i].votes[j];
      assert Allocations(votes)[k] == votes[i].votes[j];
      assert BooksOf(Allocations(votes))[k] == votes[i].votes[j].book;
    }
  }

  /** The ranking holds each voted book once, with its total score, best first. */
  lemma RankedFacts(votes: seq<Ballot>)
    ensures |Ranked(votes)| == |Tally(Allocations(votes))|
    ensures NonIncreasing(Ranked(votes), TotalKey)
    ensures DistinctKeys(Ranked(votes))
    ensures forall i :: 0 <= i < |Ranked(votes)| ==> Ranked(votes)[i].total == PointsFor(Allocations(votes), Ranked(votes)[i].book)
    ensures forall b :: b in Keys(Ranked(votes)) <==> b in VotedBooks(votes)
  {
    var xs := Allocations(votes);
    ScoresAreTotals(xs);
    FirstAppearancesElements(BooksOf(xs));
    PermutedEntries(Tally(xs), Ranked(votes), xs);
  }

  /** A rearrangement of a tally has the same keys, each once, with the same totals. */
  lemma PermutedEntries(t: seq<Entry>, r: seq<Entry>, xs: seq<Allocation>)
    requires multiset(r) == multiset(t) && DistinctKeys(t)
    requires forall i :: 0 <= i < |t| ==> t[i].total == PointsFor(xs, t[i].book)
    ensures |r| == |t| && DistinctKeys(r)
    ensures forall i :: 0 <= i < |r| ==> r[i].total == PointsFor(xs, r[i].book)
    ensures forall b :: b in Keys(r) <==> b in Keys(t)
  {
    assert |r| == |multiset(r)| == |multiset(t)| == |t|;
    forall b ensures b in Keys(r) <==> b in Keys(t) {
      if b in Keys(r) {
        var i :| 0 <= i < |r| && Keys(r)[i] == b;
        assert r[i] in multiset(t);
        var j :| 0 <= j < |t| && t[j] == r[i];
        assert Keys(t)[j] == b;
      }
      if b in Keys(t) {
        var j :| 0 <= j < |t| && Keys(t)[j] == b;
        assert t[j] in multiset(r);
        var i :| 0 <= i < |r| && r[i] == t[j];
        assert Keys(r)[i] == b;
      }
    }
    forall i | 0 <= i < |r| ensures r[i].total == PointsFor(xs, r[i].book) {
      assert r[i] in multiset(t);
    }
    PermutationKeepsDistinctKeys(t, r);
  }

  /**
   * Ties are broken by the score dictionary's insertion order: of two ranked
   * entries with equal points, the earlier one's book first appears in the
   * ballots before the later one's.
   */
  lemma RankedTiesInFirstAppearanceOrder(votes: seq<Ballot>, i: nat, j: nat)
    requires i < j < |Ranked(votes)| && Ranked(votes)[i].total == Ranked(votes)[j].total
    ensures exists p, q :: 0 <= p < q < |FirstAppearances(VotedBooks(votes))| &&
                           FirstAppearances(VotedBooks(votes))[p] == Ranked(votes)[i].book &&
                           FirstAppearances(VotedBooks(votes))[q] == Ranked(votes)[j].book
  {
    var xs := Allocations(votes);
    var t := Tally(xs);
    var r := Ranked(votes);
    StableKeepsOrder(r, t, TotalKey, i, j);
    var p, q :| 0 <= p < q < |t| && t[p] == r[i] && t[q] == r[j];
    ScoresAreTotals(xs);
    var firsts := FirstAppearances(VotedBooks(votes));
    assert Keys(t) == firsts;
    assert firsts[p] == r[i].book && firsts[q] == r[j].book;
  }

  lemma PermutationKeepsDistinctKeys(t: seq<Entry>, r: seq<Entry>)
    requires DistinctKeys(t) && multiset(r) == multiset(t)
    ensures DistinctKeys(r)
  {
    forall i, j | 0 <= i < j < |r| ensures r[i].book != r[j].book {
      assert r[i] in multiset(t) && r[j] in multiset(t);
      var a :| 0 <= a < |t| && t[a] == r[i];
      var b :| 0 <= b < |t| && t[b] == r[j];
      if a == b {
        RepeatCountsTwice(r, i, j);
        DistinctKeysOnce(t, a);
      }
    }
  }

  lemma RepeatCountsTwice(r: seq<Entry>, i: nat, j: nat)
    requires i < j < |r| && r[i] == r[j]
    ensures multiset(r)[r[i]] >= 2
  {
    assert r == r[..j] + [r[j]] + r[j + 1..];
    assert r[i] in r[..j];
  }

  /** The ranking names a position past the end of the book list exactly when some ballot does. */
  lemma DanglingInRanked(books: seq<Book>, votes: seq<Ballot>)
    ensures Dangling(books, votes) <==> exists i :: 0 <= i < |Ranked(votes)| && Ranked(votes)[i].book >= |books|
  {
    var r := Ranked(votes);
    RankedFacts(votes);
    if Dangling(books, votes) {
      var b :| b in VotedBooks(votes) && b >= |books|;
      assert b in Keys(r);
      var i :| 0 <= i < |r| && Keys(r)[i] == b;
      assert r[i].book >= |books|;
    }
    if exists i :: 0 <= i < |r| && r[i].book >= |books| {
      var i :| 0 <= i < |r| && r[i].book >= |books|;
      assert Keys(r)[i] == r[i].book;
      assert r[i].book in VotedBooks(votes);
    }
  }

  lemma {:induction false} DistinctKeysOnce(t: seq<Entry>, k: nat)
    requires DistinctKeys(t) && k < |t|
    ensures multiset(t)[t[k]] == 1
  {
    if k == 0 {
      assert t == [t[0]] + t[1..];
      assert t[0] !in t[1..] by {
        assert forall j :: 0 <= j < |t| - 1 ==> t[1..][j] == t[j + 1];
      }
    } else {
      assert t == [t[0]] + t[1..];
      DistinctKeysOnce(t[1..], k - 1);
      assert t[0] != t[k];
    }
  }

  /**
   * A positional delete shifts every later book down by one. If some ballot
   * points at the last book, then after deleting any book that ballot points
   * past the end: the results page raises an index error.
   */
  lemma DeleteLeavesDanglingVote(books: seq<Book>, votes: seq<Ballot>, idx: nat, i: nat, j: nat)
    requires idx < |books|
    requires i < |votes| && j < |votes[i].votes| && votes[i].votes[j].book == |books| - 1
    ensures Dangling(books[..idx] + books[idx + 1..], votes)
  {
    AllocationInAllocations(votes, i, j);
  }

  // ---------------------------------------------------------------- the page

  /** The top-books loop: a card for each of the first six ranked entries, or an index error. */
  method TopSection(books: seq<Book>, votes: seq<Ballot>, ranked: seq<Entry>) returns (cards: Option<seq<Card>>)
    ensures var k := if |ranked| < TopBooksToDisplay then |ranked| else TopBooksToDisplay;
      && (cards.Some? <==> forall i :: 0 <= i < k ==> ranked[i].book < |books|)
      && (cards.Some? ==> |cards.value| == k)
      && (cards.Some? ==> forall i :: 0 <= i < k ==> cards.value[i] == CardFor(books, votes, i + 1, ranked[i]))
  {
    var k := if |ranked| < TopBooksToDisplay then |ranked| else TopBooksToDisplay;
    var acc: seq<Card> := [];
    var i := 0;
    while i < k
      invariant 0 <= i <= k
      invariant forall m :: 0 <= m < i ==> ranked[m].book < |books|
      invariant |acc| == i
      invariant forall m :: 0 <= m < i ==> acc[m] == CardFor(books, votes, m + 1, ranked[m])
    {
      if ranked[i].book >= |books| {
        return None;
      }
      acc := acc + [CardFor(books, votes, i + 1, ranked[i])];
      i := i + 1;
    }
    cards := Some(acc);
  }

  /** The complete-rankings loop: one row per ranked entry, or an index error. */
  method RankingTable(books: seq<Book>, votes: seq<Ballot>, ranked: seq<Entry>) returns (rows: Option<seq<Row>>)
    ensures rows.Some? <==> forall i :: 0 <= i < |ranked| ==> ranked[i].book < |books|
    ensures rows.Some? ==> |rows.value| == |ranked|
    ensures rows.Some? ==> forall i :: 0 <= i < |ranked| ==> rows.value[i] == RowFor(books, votes, i + 1, ranked[i])
  {
    var acc: seq<Row> := [];
    var i := 0;
    while i < |ranked|
      invariant 0 <= i <= |ranked|
      invariant forall k :: 0 <= k < i ==> ranked[k].book < |books|
      invariant |acc| == i
      invariant forall k :: 0 <= k < i ==> acc[k] == RowFor(books, votes, k + 1, ranked[k])
    {
      var e := ranked[i];
      if e.book >= |books| {
        return None;
      }
      acc := acc + [RowFor(books, votes, i + 1, e)];
      i := i + 1;
    }
    rows := Some(acc);
  }

  /**
   * The results page. Only the admin sees it; with no ballots it says so;
   * when a ballot points past the end of the book list it stops with an index
   * error; otherwise it shows the first six ranked books as cards and all of
   * them in the table, ranked 1, 2, ... by points, most first.
   */
  method ResultsPage(user: string, books: seq<Book>, votes: seq<Ballot>) returns (view: ResultsView)
    ensures view == ResultsDenied <==> !IsAdmin(user)
    ensures view == NoVotes <==> IsAdmin(user) && votes == []
    ensures view == IndexError <==> IsAdmin(user) && votes != [] && Dangling(books, votes)
    ensures view.Shown? ==>
      var r := Ranked(votes);
      && |view.table| == |r|
      && |view.top| == (if |r| < TopBooksToDisplay then |r| else TopBooksToDisplay)
      && (forall i :: 0 <= i < |r| ==> r[i].book < |books|)
      && (forall i :: 0 <= i < |r| ==> view.table[i] == RowFor(books, votes, i + 1, r[i]))
      && (forall i :: 0 <= i < |view.top| ==> view.top[i] == CardFor(books, votes, i + 1, r[i]))
  {
    if !IsAdmin(user) {
      return ResultsDenied;
    }
    if votes == [] {
      return NoVotes;
    }
    var scores := CalculateScores(votes);
    var ranked := SortDesc(scores, TotalKey);
    assert ranked == Ranked(votes);
    DanglingInRanked(books, votes);
    var top := TopSection(books, votes, ranked);
    if top.None? {
      return IndexError;
    }
    var table := RankingTable(books, votes, ranked);
    if table.None? {
      return IndexError;
    }
    assert !Dangling(books, votes);
    view := Shown(top.value, table.value);
  }

  /**
   * What the table shows: ranks 1..k, points never rising, each voted book on
   * exactly one row with its total score and the number of ballots naming it.
   */
  lemma TableMeaning(books: seq<Book>, votes: seq<Ballot>, table: seq<Row>)
    requires forall i :: 0 <= i < |Ranked(votes)| ==> Ranked(votes)[i].book < |books|
    requires |table| == |Ranked(votes)|
    requires forall i :: 0 <= i < |table| ==> table[i] == RowFor(books, votes, i + 1, Ranked(votes)[i])
    ensures forall i :: 0 <= i < |table| ==> table[i].rank == i + 1
    ensures forall i, j :: 0 <= i < j < |table| ==> table[i].points >= table[j].points
    ensures forall b :: b in VotedBooks(votes) ==>
      b < |books| && exists i :: 0 <= i < |table| && table[i] == RowFor(books, votes, i + 1, Entry(b, PointsFor(Allocations(votes), b)))
    ensures forall i :: 0 <= i < |table| ==>
      table[i].voteCount == |Breakdown(votes, Ranked(votes)[i].book)| &&
      table[i].points == PointsFor(Allocations(votes), Ranked(votes)[i].book)
  {
    var r := Ranked(votes);
    RankedFacts(votes);
    forall i, j | 0 <= i < j < |table| ensures table[i].points >= table[j].points {
      assert TotalKey(r[i]) >= TotalKey(r[j]);
    }
    forall b | b in VotedBooks(votes)
      ensures b < |books| && exists i :: 0 <= i < |table| && table[i] == RowFor(books, votes, i + 1, Entry(b, PointsFor(Allocations(votes), b)))
    {
      assert b in Keys(r);
      var i :| 0 <= i < |r| && Keys(r)[i] == b;
      assert r[i] == Entry(b, PointsFor(Allocations(votes), b));
      assert table[i] == RowFor(books, votes, i + 1, r[i]);
    }
    forall i | 0 <= i < |table| ensures table[i].voteCount == |Breakdown(votes, r[i].book)| {
      BreakdownCount(votes, r[i].book);
    }
  }
}
