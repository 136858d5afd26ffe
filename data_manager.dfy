/**
 * The list operations of the data manager: the book registry, the vote store,
 * the score aggregator, the ranker and the export/import round trip.
 * The two Python lists are objects that these operations change in place.
 */
module DataManager {
  import opened Records
  import opened Text
  import opened Scoring
  import opened Sorting

  /** The list of book records, shared by reference like a Python list. */
  class BookList {
    var items: seq<Book>

    constructor (items0: seq<Book>)
      ensures items == items0
    {
      items := items0;
    }
  }

  /** The list of stored ballots, shared by reference like a Python list. */
  class VoteList {
    var items: seq<Ballot>

    constructor (items0: seq<Ballot>)
      ensures items == items0
    {
      items := items0;
    }
  }

  // ---------------------------------------------------------------- book registry

  /** Appends a new record to `books` and returns it; the clock reading is a parameter. */
  method AddBook(books: BookList, title: string, author: string, submitter: string, timestamp: string)
    returns (entry: Book)
    modifies books
    ensures entry == Book(title, author, submitter, timestamp)
    ensures books.items == old(books.items) + [entry]
  {
    entry := Book(title, author, submitter, timestamp);
    books.items := books.items + [entry];
  }

  /** Title and author both agree with `b`'s after lower-casing. */
  predicate SameBook(b: Book, title: string, author: string)
  {
    Lower(b.title) == Lower(title) && Lower(b.author) == Lower(author)
  }

  function BookExists(books: seq<Book>, title: string, author: string): (r: bool)
    ensures r <==> exists i :: 0 <= i < |books| && SameBook(books[i], title, author)
  {
    if books == [] then false
    else SameBook(books[0], title, author) || BookExists(books[1..], title, author)
  }

  /** Asking with lower-cased title and author gives the same answer. */
  lemma BookExistsIgnoresCase(books: seq<Book>, title: string, author: string)
    ensures BookExists(books, Lower(title), Lower(author)) == BookExists(books, title, author)
  {
    LowerIdempotent(title);
    LowerIdempotent(author);
  }

  /** After appending `b`, a book exists exactly when it existed before or `b` is it. */
  lemma BookExistsAfterAdd(books: seq<Book>, b: Book, title: string, author: string)
    ensures BookExists(books + [b], title, author) <==> BookExists(books, title, author) || SameBook(b, title, author)
  {
    var s := books + [b];
    if SameBook(b, title, author) {
      assert SameBook(s[|books|], title, author);
    }
    if BookExists(books, title, author) {
      var i :| 0 <= i < |books| && SameBook(books[i], title, author);
      assert SameBook(s[i], title, author);
    }
    if BookExists(s, title, author) {
      var i :| 0 <= i < |s| && SameBook(s[i], title, author);
      if i < |books| {
        assert SameBook(books[i], title, author);
      }
    }
  }

  // ---------------------------------------------------------------- vote store

  /** Appends a new ballot with the given allocations to `votes` and returns it. */
  method AddVote(votes: VoteList, voter: string, voteData: seq<Allocation>, timestamp: string)
    returns (entry: Ballot)
    modifies votes
    ensures entry == Ballot(voter, voteData, timestamp)
    ensures votes.items == old(votes.items) + [entry]
  {
    entry := Ballot(voter, voteData, timestamp);
    votes.items := votes.items + [entry];
  }

  /** Whether some stored ballot carries exactly this voter name; the comparison is case-sensitive. */
  function HasVoted(votes: seq<Ballot>, voterName: string): (r: bool)
    ensures r <==> exists i :: 0 <= i < |votes| && votes[i].voter == voterName
  {
    if votes == [] then false
    else votes[0].voter == voterName || HasVoted(votes[1..], voterName)
  }

  /** Once a ballot for a name is stored, that name has voted. */
  lemma HasVotedAfterAdd(votes: seq<Ballot>, b: Ballot, voterName: string)
    ensures HasVoted(votes + [b], voterName) <==> HasVoted(votes, voterName) || b.voter == voterName
  {
    var s := votes + [b];
    if b.voter == voterName {
      assert s[|votes|].voter == voterName;
    }
    if HasVoted(votes, voterName) {
      var i :| 0 <= i < |votes| && votes[i].voter == voterName;
      assert s[i].voter == voterName;
    }
    if HasVoted(s, voterName) {
      var i :| 0 <= i < |s| && s[i].voter == voterName;
      if i < |votes| {
        assert votes[i].voter == voterName;
      }
    }
  }

  // ---------------------------------------------------------------- score aggregator

  /**
   * The nested loops over ballots and their allocations. The result is the
   * insertion-ordered dictionary `Tally`: each book voted for appears once,
   * with the sum of all points it received, and no other book appears.
   */
  method CalculateScores(votes: seq<Ballot>) returns (scores: seq<Entry>)
    ensures scores == Tally(Allocations(votes))
    ensures DistinctKeys(scores)
    ensures forall b :: b in Keys(scores) <==> exists k :: 0 <= k < |Allocations(votes)| && Allocations(votes)[k].book == b
    ensures forall i :: 0 <= i < |scores| ==> scores[i].total == PointsFor(Allocations(votes), scores[i].book)
  {
    scores := [];
    var i := 0;
    while i < |votes|
      invariant 0 <= i <= |votes|
      invariant scores == Tally(Allocations(votes[..i]))
    {
      var done := Allocations(votes[..i]);
      var ballot := votes[i].votes;
      var j := 0;
      assert done + ballot[..0] == done;
      while j < |ballot|
        invariant 0 <= j <= |ballot|
        invariant scores == Tally(done + ballot[..j])
      {
        assert (done + ballot[..j + 1])[..|done| + j] == done + ballot[..j];
        scores := Bump(scores, ballot[j]);
        j := j + 1;
      }
      assert ballot[..j] == ballot;
      assert votes[..i + 1][..i] == votes[..i];
      i := i + 1;
    }
    assert votes[..i] == votes;
    ScoresAreTotals(Allocations(votes));
  }

  // ---------------------------------------------------------------- ranker

  /**
   * The `n` best-scored entries, best first. Nothing left out scores more
   * than anything kept, and among equal scores the kept entries are the
   * first ones in the dictionary's order.
   */
  function GetTopBooks(scores: seq<Entry>, n: nat): (r: seq<Entry>)
    ensures |r| == if n < |scores| then n else |scores|
    ensures NonIncreasing(r, TotalKey)
    ensures multiset(r) <= multiset(scores)
    ensures forall x, y :: x in r && y in multiset(scores) - multiset(r) ==> x.total >= y.total
    ensures forall v :: Tied(r, TotalKey, v) <= Tied(scores, TotalKey, v)
  {
    var k := if n < |scores| then n else |scores|;
    var sorted := SortDesc(scores, TotalKey);
    SortedPrefix(scores, sorted, TotalKey, k);
    sorted[..k]
  }

  // ---------------------------------------------------------------- export / import

  /**
   * A parsed export document. `Unparseable` stands for text that is not JSON
   * or whose top level is not an object; a missing field is `None`.
   */
  datatype Document =
    | Unparseable
    | Object(books: Option<seq<Book>>, votes: Option<seq<Ballot>>, exportedAt: Option<string>)

  /** The document holding both lists and the export time. */
  function ExportAllData(books: seq<Book>, votes: seq<Ballot>, exportedAt: string): (doc: Document)
    ensures ImportData(doc) == (Some(books), Some(votes))
  {
    Object(Some(books), Some(votes), Some(exportedAt))
  }

  /**
   * Both lists of a document, a missing one read as empty; `(None, None)`
   * when the document cannot be read.
   */
  function ImportData(doc: Document): (r: (Option<seq<Book>>, Option<seq<Ballot>>))
    ensures r.0.None? <==> doc.Unparseable?
    ensures r.1.None? <==> doc.Unparseable?
    ensures doc.Object? && doc.books.None? ==> r.0 == Some([])
    ensures doc.Object? && doc.votes.None? ==> r.1 == Some([])
    ensures doc.Object? && doc.books.Some? ==> r.0 == doc.books
    ensures doc.Object? && doc.votes.Some? ==> r.1 == doc.votes
  {
    match doc
    case Unparseable => (None, None)
    case Object(books, votes, _) =>
      (Some(if books.Some? then books.value else []), Some(if votes.Some? then votes.value else []))
  }
}
