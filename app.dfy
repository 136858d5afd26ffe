/**
 * The page handlers of the application as state changes of one session: the
 * book submission gate, deleting a book, committing a ballot from the voting
 * form, and the admin's clear and import. The logged-in user, the widget
 * values and the clock readings are parameters; saving after each change is
 * not part of this model.
 */
module App {
  import opened Records
  import opened Text
  import opened Settings
  import opened DataManager
  import opened BallotRules

  /** Most books one submitter may have listed at the same time. */
  const SubmissionLimit: nat := 5

  // ---------------------------------------------------------------- submission gate

  /** The books `user` submitted, in list order; the submitter must match exactly. */
  function UserBooks(books: seq<Book>, user: string): (r: seq<Book>)
    ensures |r| <= |books|
    ensures forall b :: b in r <==> b in books && b.submitter == user
  {
    if books == [] then []
    else
      var init := books[..|books| - 1];
      var last := books[|books| - 1];
      assert books == init + [last];
      UserBooks(init, user) + (if last.submitter == user then [last] else [])
  }

  /** How many list positions hold a book submitted by exactly `user`, counted from the front. */
  function SubmittedCount(books: seq<Book>, user: string): nat
  {
    if books == [] then 0 else (if books[0].submitter == user then 1 else 0) + SubmittedCount(books[1..], user)
  }

  /** The filter keeps one book per matching position: `len(user_books)` is the submitter's count. */
  lemma {:induction false} UserBooksCount(books: seq<Book>, user: string)
    ensures |UserBooks(books, user)| == SubmittedCount(books, user)
  {
    if books != [] {
      UserBooksCount(books[1..], user);
      assert books == [books[0]] + books[1..];
      UserBooksAppend([books[0]], books[1..], user);
      assert [books[0]][..0] == [];
    }
  }

  lemma {:induction false} UserBooksAppend(a: seq<Book>, b: seq<Book>, user: string)
    ensures UserBooks(a + b, user) == UserBooks(a, user) + UserBooks(b, user)
  {
    if b == [] {
      assert a + b == a;
    } else {
      var init, last := b[..|b| - 1], b[|b| - 1];
      var extra := if last.submitter == user then [last] else [];
      UserBooksAppend(a, init, user);
      assert (a + b)[..|a + b| - 1] == a + init;
      assert (a + b)[|a + b| - 1] == last;
      calc {
        UserBooks(a + b, user);
        UserBooks(a + init, user) + extra;
        UserBooks(a, user) + UserBooks(init, user) + extra;
        UserBooks(a, user) + (UserBooks(init, user) + extra);
        UserBooks(a, user) + UserBooks(b, user);
      }
    }
  }

  /** The verdict of the submission form, checks in the order the form makes them. */
  datatype SubmitStatus =
    | LimitReached
    | MissingField
    | AlreadySubmitted
    | Added

  function SubmissionCheck(books: seq<Book>, user: string, title: string, author: string): (r: SubmitStatus)
    ensures r == LimitReached <==> |UserBooks(books, user)| >= SubmissionLimit
    ensures r == MissingField <==> |UserBooks(books, user)| < SubmissionLimit && (title == [] || author == [])
    ensures r == AlreadySubmitted <==>
      |UserBooks(books, user)| < SubmissionLimit && title != [] && author != [] && BookExists(books, title, author)
    ensures r == Added <==>
      |UserBooks(books, user)| < SubmissionLimit && title != [] && author != [] && !BookExists(books, title, author)
  {
    if |UserBooks(books, user)| >= SubmissionLimit then LimitReached
    else if title != [] && author != [] then
      (if BookExists(books, title, author) then AlreadySubmitted else Added)
    else MissingField
  }

  /** No submitter has more than five books listed. */
  ghost predicate WithinQuota(books: seq<Book>)
  {
    forall u :: |UserBooks(books, u)| <= SubmissionLimit
  }

  /** A submission the gate lets through keeps every submitter within the quota. */
  lemma SubmitKeepsQuota(books: seq<Book>, user: string, title: string, author: string, timestamp: string)
    requires WithinQuota(books)
    requires SubmissionCheck(books, user, title, author) == Added
    ensures WithinQuota(books + [Book(title, author, user, timestamp)])
  {
    var b := Book(title, author, user, timestamp);
    forall u ensures |UserBooks(books + [b], u)| <= SubmissionLimit {
      assert (books + [b])[..|books + [b]| - 1] == books;
    }
  }

  /** Once a book is listed, the same title and author in any letter case are refused. */
  lemma ResubmissionRejected(books: seq<Book>, b: Book, user: string, title: string, author: string)
    requires b.title != [] && b.author != []
    requires SameBook(b, title, author)
    ensures SubmissionCheck(books + [b], user, title, author) in {LimitReached, AlreadySubmitted}
  {
    BookExistsAfterAdd(books, b, title, author);
  }

  /** "Dune" by Frank Herbert from A is accepted into an empty list. */
  lemma DuneFirstSubmission()
    ensures SubmissionCheck([], "A", "Dune", "Frank Herbert") == Added
  {
    assert UserBooks([], "A") == [];
  }

  /**
   * With one book listed, a second submitter naming the same title and author
   * (in any letter case) is told the book is already there.
   */
  lemma SecondSubmitterRefused(first: Book, user: string, title: string, author: string)
    requires first.submitter != user
    requires first.title != [] && first.author != []
    requires SameBook(first, title, author)
    ensures SubmissionCheck([first], user, title, author) == AlreadySubmitted
  {
    assert [] + [first] == [first];
    ResubmissionRejected([], first, user, title, author);
    assert [first][..0] == [];
    assert UserBooks([first], user) == [];
  }

  /** Then "dune" by "FRANK HERBERT" from B is refused as already submitted. */
  lemma DuneSubmittedAgain()
    ensures SubmissionCheck([Book("Dune", "Frank Herbert", "A", "t1")], "B", "dune", "FRANK HERBERT") == AlreadySubmitted
  {
    LowerAgree("Dune", "dune");
    LowerAgree("Frank Herbert", "FRANK HERBERT");
    SecondSubmitterRefused(Book("Dune", "Frank Herbert", "A", "t1"), "B", "dune", "FRANK HERBERT");
  }

  /** Removing one's own book frees a place in one's quota. */
  lemma DeleteFreesQuota(books: seq<Book>, idx: nat)
    requires idx < |books|
    ensures |UserBooks(books[..idx] + books[idx + 1..], books[idx].submitter)| == |UserBooks(books, books[idx].submitter)| - 1
  {
    var u := books[idx].submitter;
    assert books == books[..idx] + [books[idx]] + books[idx + 1..];
    UserBooksAppend(books[..idx] + [books[idx]], books[idx + 1..], u);
    UserBooksAppend(books[..idx], [books[idx]], u);
    UserBooksAppend(books[..idx], books[idx + 1..], u);
    assert [books[idx]][..0] == [];
  }

  /** Deleting a book never takes a submitter over the quota. */
  lemma DeleteKeepsQuota(books: seq<Book>, idx: nat)
    requires idx < |books|
    requires WithinQuota(books)
    ensures WithinQuota(books[..idx] + books[idx + 1..])
  {
    assert books == books[..idx] + [books[idx]] + books[idx + 1..];
    var rest := books[..idx] + books[idx + 1..];
    forall u ensures |UserBooks(rest, u)| <= SubmissionLimit {
      UserBooksAppend(books[..idx] + [books[idx]], books[idx + 1..], u);
      UserBooksAppend(books[..idx], [books[idx]], u);
      UserBooksAppend(books[..idx], books[idx + 1..], u);
    }
  }

  /** Only the book's submitter and the admin see its delete button. */
  predicate CanDelete(user: string, book: Book)
  {
    user == book.submitter || IsAdmin(user)
  }

  /** The admin may delete any book and a member their own; nobody else may, and the match is exact. */
  lemma DeleteRights(book: Book, user: string)
    ensures CanDelete(AdminName, book) && CanDelete(book.submitter, book)
    ensures user != book.submitter && user != AdminName ==> !CanDelete(user, book)
    ensures book.submitter == "Val" ==> !CanDelete("val", book)
  {
    assert "val"[0] != "Val"[0] && "val"[0] != AdminName[0];
  }

  // ---------------------------------------------------------------- voting form

  /** What pressing "Submit Vote" does: the page is the admin's, and needs books to show the form. */
  datatype VoteOutcome =
    | AccessDenied
    | NoBooks
    | Checked(check: BallotCheck)

  // ---------------------------------------------------------------- admin data tools

  datatype ImportStatus =
    | NotAdmin
    | NoUpload
    | InvalidFormat
    | AwaitingConfirmation
    | Imported

  /** The state one user session holds: the book list and the ballot list. */
  class Session {
    var books: BookList
    var votes: VoteList

    /** The session starts from the lists loaded from storage. */
    constructor (loadedBooks: seq<Book>, loadedVotes: seq<Ballot>)
      ensures fresh(books) && fresh(votes)
      ensures books.items == loadedBooks && votes.items == loadedVotes
    {
      books := new BookList(loadedBooks);
      votes := new VoteList(loadedVotes);
    }

    /** The submission form: appends the book exactly when the gate lets it through. */
    method SubmitBook(user: string, title: string, author: string, timestamp: string) returns (status: SubmitStatus)
      modifies books
      ensures status == SubmissionCheck(old(books.items), user, title, author)
      ensures books.items ==
        if status == Added then old(books.items) + [Book(title, author, user, timestamp)] else old(books.items)
    {
      var userBooks := UserBooks(books.items, user);
      if |userBooks| >= SubmissionLimit {
        return LimitReached;
      }
      if title != [] && author != [] {
        if BookExists(books.items, title, author) {
          return AlreadySubmitted;
        }
        var entry := AddBook(books, title, author, user, timestamp);
        return Added;
      }
      return MissingField;
    }

    /**
     * The delete button of the book at position `idx`: removes it when the
     * user may, and every later book moves down one position.
     */
    method DeleteBook(user: string, idx: nat) returns (deleted: bool)
      requires idx < |books.items|
      modifies books
      ensures deleted <==> CanDelete(user, old(books.items)[idx])
      ensures books.items == if deleted then old(books.items)[..idx] + old(books.items)[idx + 1..] else old(books.items)
    {
      deleted := CanDelete(user, books.items[idx]);
      if deleted {
        books.items := books.items[..idx] + books.items[idx + 1..];
      }
    }

    /**
     * The voting page: the admin fills the form (`picks` and `inputs` are the
     * widget values) and presses "Submit Vote". The ballot is stored exactly
     * when every check passes; `choices` are the books the form collected.
     */
    method SubmitVote(user: string, voterName: string, picks: seq<nat>, inputs: seq<nat>, timestamp: string)
      returns (outcome: VoteOutcome, choices: seq<nat>)
      requires |picks| == MaxVotesPerPerson && |inputs| == MaxVotesPerPerson
      requires forall i :: 0 <= i < MaxVotesPerPerson && i < |books.items| ==> picks[i] < |books.items| - i
      modifies votes
      ensures outcome == AccessDenied <==> !IsAdmin(user)
      ensures outcome == NoBooks <==> IsAdmin(user) && books.items == []
      ensures outcome.Checked? ==>
        && |choices| == (if |books.items| < MaxVotesPerPerson then |books.items| else MaxVotesPerPerson)
        && PickedFromOptions(|books.items|, choices, picks)
        && outcome.check == CheckBallot(voterName, choices, inputs, books.items, old(votes.items))
      ensures votes.items ==
        if outcome.Checked? && outcome.check.Accepted?
        then old(votes.items) + [Ballot(voterName, outcome.check.allocations, timestamp)]
        else old(votes.items)
    {
      choices := [];
      if !IsAdmin(user) {
        return AccessDenied, choices;
      }
      if books.items == [] {
        return NoBooks, choices;
      }
      var points;
      choices, points := CollectBallotForm(|books.items|, picks, inputs);
      var check := CheckBallot(voterName, choices, points, books.items, votes.items);
      if check.Accepted? {
        var entry := AddVote(votes, voterName, check.allocations, timestamp);
      }
      outcome := Checked(check);
    }

    /**
     * "Clear All Data" with its confirmation box, as intended: only the
     * admin has the button, and once it is pressed and the box ticked both
     * lists are replaced by new empty ones. (The app nests the box inside
     * the button's branch, so its own clear is never reached.)
     */
    method ClearAllData(user: string, pressed: bool, confirmed: bool) returns (cleared: bool)
      modifies this
      ensures cleared <==> IsAdmin(user) && pressed && confirmed
      ensures cleared ==> fresh(books) && fresh(votes) && books.items == [] && votes.items == []
      ensures !cleared ==> books == old(books) && votes == old(votes)
    {
      cleared := IsAdmin(user) && pressed && confirmed;
      if cleared {
        books := new BookList([]);
        votes := new VoteList([]);
      }
    }

    /**
     * "Import Data": the uploaded document (if any) is read; a readable one
     * replaces both lists once the admin confirms, an unreadable one is
     * reported as an invalid format.
     */
    method ImportUploaded(user: string, upload: Option<Document>, confirmed: bool) returns (status: ImportStatus)
      modifies this
      ensures status == NotAdmin <==> !IsAdmin(user)
      ensures status == NoUpload <==> IsAdmin(user) && upload.None?
      ensures status == InvalidFormat <==> IsAdmin(user) && upload.Some? && upload.value.Unparseable?
      ensures status == AwaitingConfirmation <==> IsAdmin(user) && upload.Some? && upload.value.Object? && !confirmed
      ensures status == Imported <==> IsAdmin(user) && upload.Some? && upload.value.Object? && confirmed
      ensures status == Imported ==>
        && fresh(books) && fresh(votes)
        && (Some(books.items), Some(votes.items)) == ImportData(upload.value)
      ensures status != Imported ==> books == old(books) && votes == old(votes)
    {
      if !IsAdmin(user) {
        return NotAdmin;
      }
      if upload.None? {
        return NoUpload;
      }
      var (newBooks, newVotes) := ImportData(upload.value);
      if newBooks.None? {
        return InvalidFormat;
      }
      if !confirmed {
        return AwaitingConfirmation;
      }
      books := new BookList(newBooks.value);
      votes := new VoteList(newVotes.value);
      status := Imported;
    }
  }
}
