/** The records the application keeps in its two lists. */
module Records {

  datatype Option<T> = None | Some(value: T)

  /**
   * One nomination. Its identity is its position in the book list; the
   * timestamp is an opaque string supplied by the clock.
   */
  datatype Book = Book(title: string, author: string, submitter: string, timestamp: string)

  /** One `[book_idx, points]` pair of a ballot: a book position and the points it gets. */
  datatype Allocation = Allocation(book: nat, points: nat)

  /** One stored ballot: the voter's name as typed and the allocations in choice order. */
  datatype Ballot = Ballot(voter: string, votes: seq<Allocation>, timestamp: string)

  /** One `(book_idx, total)` item of the score dictionary. */
  datatype Entry = Entry(book: nat, total: nat)

  function TotalKey(e: Entry): int { e.total }
}
