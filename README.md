# Book-club vote engine, modelled in Dafny

This project models the engine of a small book-club voting app.
- Members submit books. Each submitter may have at most five books listed, and a title and author already listed, in any letter case, is refused.
- The admin ("Phil") records each member's ballot: five different books and 100 points spread over them, with at least one point each. A voter may not vote twice, and may not choose their own (first-listed) submission.
- The results page adds up the points per book, sorts the books by points with a stable sort, and shows the top six as cards with a per-voter breakdown. It also shows a full table with ranks and vote counts.
- The admin can export both lists and import them again, and can clear everything.

Books are identified by their position in the book list, as in the app. Deleting a book therefore shifts every later book down by one, and ballots are not updated. The model keeps this behaviour and proves its consequence: a ballot can end up pointing past the end of the list, and the results page then stops with an index error (`Results.DeleteLeavesDanglingVote`, `Results.ResultsPage`).

Modules, one per file:
- `Settings` (settings.dfy) holds the three configuration constants and the admin test.
- `Text` (text.dfy) is lower-casing.
- `Sorting` (sorting.dfy) is Python's stable `sorted(..., reverse=True)`.
- `Records` (records.dfy) holds the book, ballot, allocation and score-entry records.
- `Scoring` (scoring.dfy) is the specification of the score dictionary: an insertion-ordered fold.
- `DataManager` (data_manager.dfy) holds the list operations. The two Python lists are objects, `BookList` and `VoteList`, that these operations change in place.
- `BallotRules` (ballot.dfy) holds the voting form and the chain of ballot checks.
- `Results` (results.dfy) is the results page.
- `App` (app.dfy) holds the submission gate and the `Session` class. The session owns the two lists, and its methods are the page handlers that change them.
- `Scenarios` (scenarios.dfy) works through concrete cases.

The model follows the app's code on these points:
- The ballot checks run in the code's order: name, total, five distinct books, zero points, already voted, own book. The first check that fails is the one reported.
- The self-vote check only protects the voter's first-listed submission (`BallotRules.LaterSubmissionNotChecked`).
- The one-ballot rule compares voter names exactly, case-sensitively (`Scenarios.VoterNamesAreCaseSensitive`). The self-vote rule ignores case.
- Delete is positional. It does not remove or re-point ballots, so deleting a voted-for book does not make it vanish from the results. Instead the remaining ballots attribute its points to whichever book moved into that position, or the page fails.
- Tied books keep the order in which they first appear in the ballots, because that is the score dictionary's insertion order (`Results.RankedTiesInFirstAppearanceOrder`). The order of submission does not decide.
- The submission quota counts books whose submitter equals the user exactly.

## Model

| member | source | states |
|---|---|---|
| DataManager.AddBook | utils/data_manager.py:116-125 | the returned record has the given title, author, submitter and time; the list is the old list with that record appended |
| DataManager.BookExists | utils/data_manager.py:127-131 | true exactly when some listed book has the same title and the same author after lower-casing both |
| DataManager.BookExistsIgnoresCase | utils/data_manager.py:129-130 | asking with a lower-cased title and author gives the same answer |
| DataManager.BookExistsAfterAdd | utils/data_manager.py:127-131 | after an append, a book exists exactly when it existed before or the new record matches it |
| DataManager.AddVote | utils/data_manager.py:133-141 | the returned ballot carries the given voter, allocations and time; the list is the old list with it appended |
| DataManager.HasVoted | utils/data_manager.py:143-145 | true exactly when some stored ballot's voter equals the name, compared case-sensitively |
| DataManager.HasVotedAfterAdd | utils/data_manager.py:143-145 | after an append, a name has voted exactly when it had before or is the new ballot's voter |
| DataManager.CalculateScores | utils/data_manager.py:147-155 | the nested loops yield the insertion-ordered tally of all allocations: each voted book once, in order of first appearance, with the sum of its points |
| Scoring.ScoresAreTotals | utils/data_manager.py:147-155 | the tally's keys are the voted books in order of first appearance, without repeats; a book is a key iff some allocation names it; each total is the sum of that book's points; the totals add up to all points given |
| Scoring.ScoreMapIsTotals | utils/data_manager.py:147-155 | as a dictionary: its keys are exactly the voted books and each value is that book's points |
| Scoring.TallyKeys | utils/data_manager.py:152-153 | a book gets a key the first time it is seen, and never again |
| Scoring.TallyLookup | utils/data_manager.py:151-154 | the value for a book is the sum of the points of the allocations naming it |
| Scoring.TallySum | utils/data_manager.py:147-155 | the totals add up to the points of all allocations |
| Scoring.FullBallotsTotal | utils/data_manager.py:147-155 | when every ballot spends the whole budget, the totals add up to the budget times the number of ballots |
| Scoring.BumpKeys | utils/data_manager.py:152-153 | a new key is appended at the end only when the book is not a key yet |
| Scoring.BumpLookup | utils/data_manager.py:154 | the allocation's points are added to its book's value and no other |
| Scoring.PointsForAppend | utils/data_manager.py:150-154 | a book's points over two runs of allocations is the sum of its points over each run |
| Sorting.SortDesc | utils/data_manager.py:159 | the sorted result is a permutation of its input, in non-increasing key order, and elements with equal keys keep their input order |
| Sorting.InsertSorted | utils/data_manager.py:159 | inserting into a non-increasing sequence keeps it non-increasing |
| Sorting.InsertTied | utils/data_manager.py:159 | insertion puts the new element ahead of its equals and keeps their order |
| Sorting.StableKeepsOrder | utils/data_manager.py:159 | in a stable arrangement, two elements with equal keys come from input positions in the same order |
| Sorting.SortedPrefix | utils/data_manager.py:159 | a prefix of a stable descending arrangement is in order, drawn from the input, never outscored by what is left out, and holds the first of each group of ties |
| DataManager.GetTopBooks | utils/data_manager.py:157-159 | min(n, number of entries) entries, best first, drawn from the dictionary; nothing left out scores more than anything kept; among equal scores the kept entries come first in dictionary order |
| DataManager.ExportAllData | utils/data_manager.py:161-167 | importing the exported document gives back both lists unchanged and in order |
| DataManager.ImportData | utils/data_manager.py:169-175 | an unreadable document gives no lists; a readable one gives both lists, each present list exactly as stored and a missing one read as empty |
| App.UserBooks | app.py:94 | the books whose submitter is exactly the user, and no others |
| App.UserBooksAppend | app.py:94 | filtering by submitter distributes over concatenation |
| App.UserBooksCount | app.py:94 | the filter keeps exactly one book for each list position whose submitter is the user, so its length is that count |
| App.SubmissionCheck | app.py:97-132 | limit first (five or more books listed), then missing title or author, then an already-listed book, otherwise accepted |
| App.SubmitKeepsQuota | app.py:97-126 | an accepted submission keeps every submitter within five listed books |
| App.ResubmissionRejected | app.py:116-118 | once a book is listed, the same title and author in any letter case are never accepted again |
| App.SecondSubmitterRefused | app.py:116-118 | with one book listed, another submitter naming it in any case is told it is already submitted |
| App.DuneFirstSubmission | app.py:97-126 | "Dune" by "Frank Herbert" from A is accepted into an empty list |
| App.DuneSubmittedAgain | app.py:116-118 | "dune" by "FRANK HERBERT" from B is then refused as already submitted |
| App.DeleteFreesQuota | app.py:149-153 | deleting one of a submitter's books lowers their count by exactly one |
| App.DeleteKeepsQuota | app.py:149-153 | deleting a book keeps every submitter within the quota |
| App.DeleteRights | app.py:149 | the admin and the book's submitter may delete it; any other user may not, and "val" may not delete Val's book |
| App.Session.constructor | app.py:65-68 | a session starts from the loaded lists |
| App.Session.SubmitBook | app.py:94-126 | returns the gate's verdict; the list grows by the new record exactly when the verdict is accepted, and is otherwise unchanged |
| App.Session.DeleteBook | app.py:149-153 | removes the book at the position exactly when the user is its submitter or the admin; later books move down by one |
| App.Session.SubmitVote | app.py:159-271 | non-admins are refused; with no books no form is shown; otherwise the form's choices are collected and checked, and the ballot list grows by the zipped allocations exactly when the ballot is accepted |
| App.Session.ClearAllData | app.py:502-508 | only the admin who presses and confirms clears; both lists are then new and empty, otherwise both are untouched |
| App.Session.ImportUploaded | app.py:484-498 | non-admins see nothing; an unreadable file is an invalid format; a readable one replaces both lists only once confirmed |
| BallotRules.CollectBallotForm | app.py:206-237 | five slots, each offering the books not chosen yet; the choices are distinct existing positions, one per slot while books last, each the option picked in its slot; the points are the five inputs |
| BallotRules.FillSlot | app.py:215-226 | a slot with options left appends one choice and keeps the earlier ones; a slot with none appends nothing; the form's invariant carries over to the next slot |
| BallotRules.FormSlot | app.py:212-226 | a slot with options left adds the picked option, which is new and in range; a slot with none adds nothing |
| BallotRules.UnchosenElements | app.py:216-217 | a slot offers exactly the positions below the book count that no earlier slot chose |
| BallotRules.UnchosenCount | app.py:216-217 | after k distinct choices, a slot offers book count minus k options |
| BallotRules.Unchosen | app.py:216-217 | a slot never offers more options than there are books |
| BallotRules.UnchosenIncreasing | app.py:216-217 | a slot lists its options in increasing position order, so each at most once |
| BallotRules.OwnSubmission | app.py:261-262 | the first book position whose submitter matches the voter ignoring case, or none |
| BallotRules.OwnChosen | app.py:264 | true exactly when some chosen position holds a book whose submitter matches the voter ignoring case and no earlier position does |
| BallotRules.CheckBallot | app.py:249-271 | each verdict holds exactly when the earlier checks pass and its own fails; an accepted ballot pairs choices with points |
| BallotRules.DistinctCountBound | app.py:253 | the number of distinct choices is at most their number, and equal exactly when no choice repeats |
| BallotRules.AcceptedBallotShape | app.py:249-271 | an accepted ballot has five allocations to five different chosen books, each of 1 to 100 points, adding up to 100 |
| BallotRules.FewChoicesNeverAccepted | app.py:253-254 | a form with fewer than five choices is never accepted |
| BallotRules.LaterSubmissionNotChecked | app.py:261-264 | a ballot choosing only the voter's later submission passes the self-vote check |
| BallotRules.AcceptKeepsVotersDistinct | app.py:258-267 | storing an accepted ballot keeps voter names unique in the store |
| BallotRules.SecondBallotRefused | app.py:258-259 | once a voter's ballot is stored, no further ballot under that exact name is accepted |
| BallotRules.Zip | app.py:267 | pairs up to the shorter list, the i-th allocation giving the i-th points to the i-th choice |
| BallotRules.ZipSum | app.py:267 | the zipped allocations carry exactly the points entered |
| Results.Breakdown | app.py:328-330 | no more lines than ballots; each line is the voter and first-listed points of some ballot naming the book |
| Results.BreakdownOne | app.py:328-330 | one ballot gives one line, its voter and its first points for the book, exactly when it names the book, and none otherwise |
| Results.BreakdownAppend | app.py:328-330 | the breakdown of two runs of ballots is the first run's lines followed by the second's, so lines come in ballot order |
| Results.BreakdownComplete | app.py:328-330 | every ballot naming the book has its line, with its voter and points |
| Results.VoteCount | app.py:343-344 | at most the number of ballots, and zero exactly when no ballot names the book |
| Results.VoteCountIsBallots | app.py:343-344 | the vote count is the number of ballots that name the book |
| Results.BreakdownCount | app.py:328-344 | a book's breakdown has as many lines as its vote count, which is the number of ballots naming it |
| Results.BreakdownAddsUp | app.py:328-330 | when no ballot names a book twice, the breakdown's points add up to the book's total |
| Results.PointsForDistinct | app.py:328 | in a ballot naming a book once, that book's points are those of its first allocation |
| Results.ShownBreakdown | app.py:333 | the breakdown is listed as a permutation, most points first, equal points in ballot order |
| Results.Ranked | app.py:286 | the score dictionary's entries rearranged, points never rising, and entries with equal points in dictionary order |
| Results.RankedTiesInFirstAppearanceOrder | app.py:286 | of two ranked entries with equal points, the earlier one's book first appears in the ballots before the later one's |
| Results.RankedFacts | app.py:285-286 | the ranking has one entry per voted book, in non-increasing points, each with its total |
| Results.DanglingInRanked | app.py:302-303 | some ballot points past the end of the book list iff some ranked entry does |
| Results.DeleteShiftsAttribution | app.py:149-153 | after a delete, an entry for a later position is shown with the next book's title, author and submitter, but keeps its own breakdown and vote count |
| Results.DeleteLeavesDanglingVote | app.py:149-153 | when some ballot names the last book, deleting any book leaves that ballot pointing past the end of the list |
| Results.TopSection | app.py:302-334 | one card for each of the first six ranked entries, ranked from 1, or an index error when one of them points past the book list |
| Results.RankingTable | app.py:339-354 | one row for each ranked entry, ranked from 1, or an index error when one points past the book list |
| Results.ResultsPage | app.py:276-354 | denied to non-admins; "no votes" with no ballots; an index error iff some ballot points past the book list; otherwise the cards and the table of the ranking |
| Results.TableMeaning | app.py:339-354 | the table's ranks are 1, 2, ...; points never rise; every voted book has a row with its total; each row's vote count is the length of its breakdown |
| Scenarios.TwoBallotsAggregate | utils/data_manager.py:147-155 | Gab (0:60, 1:40) and Phil (0:30) give book 0 90 points and book 1 40 points |
| Scenarios.TwoBallotsBreakdown | app.py:328-330 | book 0's breakdown is Gab 60 and Phil 30; book 1's is Gab 40 |
| Scenarios.TiesKeepDictionaryOrder | app.py:286 | entries scoring 50, 50, 30 rank in dictionary order |
| Scenarios.VoterNamesAreCaseSensitive | utils/data_manager.py:143-145 | "Kathy" has voted, "kathy" has not |
| Scenarios.CaseRulesDiffer | app.py:258-264 | a ballot stored as "Val" does not block "val", yet "val" choosing Val's first-listed book is refused as a vote for their own book |
| Scenarios.DeletingVotedBookDangles | app.py:149-153 | deleting book B of [A, B] leaves Gab's ballot for B pointing past the end |
| Settings.AdminIsOneExactName | app.py:78 | exactly one name, "Phil", is the admin, matched case-sensitively |
| Text.Lower | utils/data_manager.py:129-130 | lower-casing keeps the length |
| Text.LowerAt | utils/data_manager.py:129-130 | each character is lower-cased on its own, in place |
| Text.LowerIdempotent | utils/data_manager.py:129-130 | lower-casing twice is lower-casing once |
| Text.LowerAgree | utils/data_manager.py:129-130 | strings that lower-case alike character by character lower-case to the same string |

## Left out

- The user interface is not modelled: layout, medals, images, metrics, page navigation widgets and reruns. Widget values are method parameters. These are the picks in each select box, the point inputs, the button and checkbox states, and the logged-in user.
- App.Session.ClearAllData: in the app the confirmation checkbox sits inside the button's branch (app.py:502-503). Ticking it reruns the page with the button unpressed, so the app as written never reaches the clear. The model gives the intended behaviour instead: the data is cleared when the admin presses the button and confirms.
- Persistence is not modelled: loading and saving the JSON files, mirroring them to GitHub, the debug page, and the auto-save after each change. They are I/O.
- Book metadata enrichment is not modelled: the Wikipedia and Goodreads look-ups and `book_entry.update`. They are network calls, and their fields do not take part in any rule.
- Clock readings (`datetime.now()`) are opaque string parameters.
- JSON text is not modelled. A document is already parsed into `DataManager.Document`: unreadable, or an object whose fields may be missing. A field that is present but holds `null` or a value of the wrong type is not modelled.
- Text.Lower: lower-cases ASCII letters only; Python's `str.lower()` also folds other Unicode letters.
- DataManager.GetTopBooks: `n` is a natural number; Python's negative slice bounds are not modelled.
- Points and book positions are natural numbers. Imported data with negative or non-integer values is not modelled.
- The score dictionary is a sequence of entries in insertion order. `Scoring.ScoreMap` gives its view as a map.
- Passing the book list and vote list by reference is modelled with the `BookList` and `VoteList` objects. Aliasing between sessions is not modelled.
- Results.TopSection: a card keeps its breakdown in ballot order, and the display order is given by `Results.ShownBreakdown`.
