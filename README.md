# Digital shelf: catalog filter and borrow/return transitions

A model of the original logic in a small library-catalog web application.
Users browse a catalog of books, borrow a book for seven days, and return it
from their borrow history. All storage lives in a hosted backend with two
tables: `books` (id, title, author, isbn, available, info) and `borrows`
(id, user_id, book_id, borrow_date, return_date, returned).

The model has five modules, one per source component plus two shared ones:

- `Seqs`: `Keep` (JavaScript's `Array.prototype.filter`) and the
  order-preserving subsequence relation, with their lemmas.
- `Store`: the records, the two tables as a value (`Tables`), each write as a
  function on `Tables`, and the class `Database`. The class holds both tables
  and a log of every request sent. Each write method takes a `fails` flag
  that says whether the backend answers with an error. `Store` also states
  the intended invariant `Consistent`: a book is unavailable exactly when it
  has an unreturned borrow record. `SingleLoan` says each book has at most one
  open loan.
- `BookList` (`src/components/BookList.tsx`): the catalog filter. A
  case-insensitive substring match on title or author runs when the search
  term is non-empty. The available-only step runs when the toggle is on. The
  module also models the state written by a fetch and the screen shown
  (loading, cards, or one of two empty-result messages).
- `BookCard` (`src/components/BookCard.tsx`): the borrow transition
  `BorrowStep` and the Borrow button. The class `Card` has the `borrowing`
  flag and `HandleBorrow`, proved against `BorrowStep`.
- `MyBorrows` (`src/components/MyBorrows.tsx`): the return transition
  `ReturnStep`, the history query (the user's records, newest first, joined
  with book columns), the view precedence and the Return button. The class
  `HistoryPanel` has `FetchBorrows`, `HandleReturn` and `PressReturn`.

Time is a whole number of days, so the due date is `borrowDate + 7`. The
clock reading, the backend-generated record id and the failure of each
request are parameters. Lower-casing covers ASCII letters only. The source
spells its title column `tittle`; the model calls the field `title`.

An update with an `id` filter that matches no row succeeds and changes
nothing, as the backend does. `WithAvailability` models this.

What is proved about the state machine:

- Each transition's exact effect on every path: full success, first write
  fails, second write fails, and (for borrow) no user.
- A successful borrow of an available book keeps `Consistent`. So does a
  successful return of a book's only open loan.
- From a state where the book is available, a borrow whose update fails
  breaks `Consistent`. From a consistent state where the record is the book's
  only open loan, a return whose book update fails breaks it.
- Two borrows issued from cards rendered while the book was available both
  succeed. They leave two open loans, which breaks `SingleLoan`. Returning
  either loan then breaks `Consistent`.

## Model

| member | source | states |
|---|---|---|
| Seqs.Keep | src/components/BookList.tsx:77-80 | the kept elements are elements of the input that pass the test, every passing element is kept, never longer than the input |
| Seqs.KeepIsSubsequence | src/components/BookList.tsx:77-80 | a filter only deletes elements; the kept ones stay in input order |
| Seqs.KeepCount | src/components/BookList.tsx:77-80 | a filter keeps every occurrence of a passing element and none of a failing one |
| Seqs.KeepIdempotent | src/components/BookList.tsx:84-86 | filtering twice with the same test equals filtering once |
| Seqs.KeepCommutes | src/components/BookList.tsx:73-88 | two filters give the same sequence in either order |
| Seqs.SubsequenceTransitive | src/components/BookList.tsx:73-88 | a subsequence of a subsequence is a subsequence (for the two chained filter steps) |
| BookList.Lower | src/components/BookList.tsx:78-79 | lower-casing keeps the length and lower-cases each character (ASCII) |
| BookList.LowerIdempotent | src/components/BookList.tsx:78-79 | lower-casing twice equals lower-casing once |
| BookList.Includes | src/components/BookList.tsx:78-79 | the empty needle is found in every string; a found needle is no longer than the haystack |
| BookList.IncludesSpec | src/components/BookList.tsx:78-79 | `includes` is true exactly when the needle occurs at some index of the haystack |
| BookList.Matches | src/components/BookList.tsx:77-80 | the empty term matches every book; a matching term is no longer than the title or the author |
| BookList.TextStep | src/components/BookList.tsx:76-81 | an empty term leaves the books untouched; otherwise every kept book is from the input and matches, and every matching input book is kept |
| BookList.TextStepSoundAndComplete | src/components/BookList.tsx:77-80 | for a non-empty term a book is kept iff the lower-cased term is a substring of its lower-cased title or author |
| BookList.AvailabilityStep | src/components/BookList.tsx:84-86 | toggle off: identity; toggle on: every kept book is from the input and available, and every available input book is kept |
| BookList.Filter | src/components/BookList.tsx:72-89 | soundness and completeness of the whole filter: a book is shown iff it passes the (possibly skipped) text test and the (possibly skipped) availability test |
| BookList.FilterIsSubsequence | src/components/BookList.tsx:73-88 | the filtered list is an order-preserving subsequence of the catalog |
| BookList.FilterKeepsAllWhenAllPass | src/components/BookList.tsx:73-88 | when every book passes both tests the filter returns the catalog unchanged |
| BookList.FilterCount | src/components/BookList.tsx:73-88 | each book appears in the result as often as in the catalog when it passes both tests, otherwise not at all |
| BookList.FilterStepsCommute | src/components/BookList.tsx:73-88 | applying the availability step before the text step gives the same sequence |
| BookList.FilterIdempotent | src/components/BookList.tsx:73-88 | filtering the filtered list again with the same controls changes nothing |
| BookList.AfterFetch | src/components/BookList.tsx:32-44 | on rows, `books` and `filteredBooks` both become the rows (`[]` for null data); on error both lists stay; loading ends either way |
| BookList.AfterFilterEffect | src/components/BookList.tsx:72-89 | the effect changes only `filteredBooks` (loading, catalog and controls stay), setting it to the filter's result, an order-preserving subsequence of `books` |
| BookList.FetchAgreesWithFilterIffNothingFiltered | src/components/BookList.tsx:34-35 | right after a fetch the shown list equals the filtered list iff the filter keeps every fetched row |
| BookList.FetchUnderDefaultControls | src/components/BookList.tsx:34-35 | with no term and the toggle off, the filter effect after a fetch changes nothing |
| BookList.ViewOf | src/components/BookList.tsx:127-134 | loading first, then the cards when the list is non-empty; the "matching your criteria" message iff a term or the toggle is set, the "catalog" message otherwise |
| BookList.EmptyMessagesAreTruthful | src/components/BookList.tsx:127-134 | "No books available in the catalog." shows iff the catalog is empty and no control is set; "No books found matching your criteria." iff a control is set and nothing passes |
| Store.WithAvailability | src/components/BookCard.tsx:66-69 | `update books set available = v where id = ..` changes only that book's `available` field; a missing id changes nothing |
| Store.MarkReturned | src/components/MyBorrows.tsx:75-78 | the records with the given id get `returned = true`; every other record and field is unchanged |
| Store.OpenCountPositive | src/components/BookCard.tsx:48-74 | a book's open-loan count is positive iff it has an unreturned record |
| Store.Inserted | src/components/BookCard.tsx:48-56 | a successful insert appends exactly the new record (one more occurrence of it) and leaves `books` untouched |
| Store.WithReturned | src/components/MyBorrows.tsx:75-78 | a successful update leaves `books` alone and sets `returned` on exactly the records with the targeted id; no other column of any record changes |
| Store.Database.Insert | src/components/BookCard.tsx:48-56 | the insert appends the record iff it does not fail; the request is logged either way |
| Store.Database.SetAvailable | src/components/BookCard.tsx:66-69 | the availability update applies iff it does not fail; the request is logged either way |
| Store.Database.SetReturned | src/components/MyBorrows.tsx:75-78 | the returned-flag update applies iff it does not fail; the request is logged either way |
| Store.Database.Query | src/components/MyBorrows.tsx:37-49 | a history select is logged and reports failure iff it fails; it changes no table |
| BookCard.NewRecord | src/components/BookCard.tsx:40-56 | the inserted record has the generated id, this user and book, is unreturned, is dated now and is due 7 days later |
| BookCard.BorrowStep | src/components/BookCard.tsx:27-74 | no user: no request and no change; the request log is exactly the insert, followed by the availability update only when the insert succeeded; a failed insert changes nothing; otherwise exactly one open record is appended, and the book becomes unavailable only if the update succeeds; other books and prior records never change |
| BookCard.BorrowKeepsConsistent | src/components/BookCard.tsx:48-69 | a successful borrow of a book available at write time keeps the invariant and keeps each book lent at most once |
| BookCard.BorrowPartialFailureBreaksConsistency | src/components/BookCard.tsx:48-74 | from any state in which the book is available, insert succeeds and update fails: an open record exists for a book still marked available, so the invariant is broken (no rollback) |
| BookCard.StaleDoubleBorrow | src/components/BookCard.tsx:27-74 | two successful borrows of one available book both go through, leaving it unavailable with two open records |
| BookCard.BorrowKeepsIdsUnique | src/components/BookCard.tsx:48-56 | a borrow whose generated id is new keeps record ids unique |
| BookCard.ButtonFor | src/components/BookCard.tsx:113-123 | the button exists iff a user is signed in; disabled iff the book is unavailable or a borrow is running; caption "Borrowing..." while a borrow runs, else "Borrow" exactly when clickable and "Not Available" otherwise |
| BookCard.Card.HandleBorrow | src/components/BookCard.tsx:27-92 | the tables, the request log and the outcome are those of `BorrowStep`; `borrowing` is unchanged without a user and false after every other path; the card's button then reflects its own (possibly stale) copy of the book |
| BookCard.TwoStaleCards | src/components/BookCard.tsx:27-74 | two cards rendered from one fetch both borrow the book: both succeed, although the second card still shows it available |
| MyBorrows.ReturnStep | src/components/MyBorrows.tsx:70-94 | the book update is sent only after the record update succeeds; a failed record update changes nothing; only `returned` of the targeted records and `available` of the targeted book change |
| MyBorrows.ReturnIsIdempotent | src/components/MyBorrows.tsx:77-88 | the return assigns rather than toggles: returning again changes nothing |
| MyBorrows.ReturnKeepsConsistent | src/components/MyBorrows.tsx:75-89 | a successful return of a book's only open loan, with the record's own book id, keeps the invariant |
| MyBorrows.ReturnPartialFailureBreaksConsistency | src/components/MyBorrows.tsx:75-94 | for a book's only open loan in a consistent state: record update succeeds, book update fails, so the record is returned while the book stays unavailable with no open loan |
| MyBorrows.ReturnAfterDoubleBorrowBreaksConsistency | src/components/MyBorrows.tsx:75-89 | after two stale borrows, returning either loan makes the book available while the other loan is open |
| MyBorrows.InsertNewestFirstSorted | src/components/MyBorrows.tsx:49 | inserting into a newest-first list keeps it newest first |
| MyBorrows.SortNewestFirst | src/components/MyBorrows.tsx:49 | the sort is a permutation of its input and yields newest-first order |
| MyBorrows.UserHistory | src/components/MyBorrows.tsx:48-49 | the queried records are newest first and hold each of the user's records as often as the table does, and no other record |
| MyBorrows.JoinBooks | src/components/MyBorrows.tsx:39-47 | each row carries its record and, when the book exists, that book's title, author, isbn and info |
| MyBorrows.HistoryIsUsersRecordsNewestFirst | src/components/MyBorrows.tsx:37-49 | the fetched history holds exactly the user's records, each as often as in the table, sorted by borrow date descending |
| MyBorrows.ViewOf | src/components/MyBorrows.tsx:140-162 | loading first, then the sign-in prompt without a user, then "haven't borrowed" for an empty list, otherwise the list |
| MyBorrows.ReturnActionFor | src/components/MyBorrows.tsx:202-205 | the Return button exists iff the record is unreturned, and passes that record's own id and book id |
| MyBorrows.ReturnActionClosesItsRecord | src/components/MyBorrows.tsx:202-205 | with unique ids, a successful Return from a listed row closes exactly that record and frees its book |
| MyBorrows.BorrowShowsInHistory | src/components/BookCard.tsx:48-56 | after a successful borrow the new open record, due in 7 days, is in the borrower's history |
| MyBorrows.BorrowThenReturn | src/components/MyBorrows.tsx:75-89 | borrow then return, all writes succeeding: the record is closed, the book available, and an available book ends as it started |
| MyBorrows.HistoryPanel.FetchBorrows | src/components/MyBorrows.tsx:28-68 | no user: no query and loading ends; otherwise one query is sent and the rows become the user's history (kept on error); loading ends on every path, and the view then shows the sign-in prompt, the empty message or the list |
| MyBorrows.HistoryPanel.HandleReturn | src/components/MyBorrows.tsx:70-110 | the tables, the requests and the outcome are those of `ReturnStep`; a full success refetches the history |
| MyBorrows.HistoryPanel.PressReturn | src/components/MyBorrows.tsx:202-205 | pressing Return on a listed row runs `handleReturn` with that row's record id and book id: the tables, the request log (with the refetch), the outcome, `rows` and `loading` are as for that call |

## Left out

- Backend internals: storage, query evaluation, auth and the change-notification channel are external services. Reads and writes are the `Database` methods and flags; `src/lib/auth.ts` only passes calls through.
- Realtime subscriptions and refetch on change (`BookList.tsx:47-70`, `MyBorrows.tsx:112-138`): asynchronous event delivery is not modelled. The double-borrow race is shown as two sequential calls against a stale card.
- `BookList.fetchBooks`'s query (`order('tittle')`): the backend's ordering of the catalog is not modelled. `AfterFetch` takes the reply as given.
- `onBookUpdate()` after a successful borrow (`BookCard.tsx:81`): it is the parent's refetch. The outcome `Borrowed` marks the point where it is called.
- Toasts, console logging, layout, styling and routing (`Navbar.tsx`, `AuthForm.tsx`, the pages): these are UI only.
- Dates: ISO strings, `toLocaleDateString` and local-time `setDate` (time zones, DST). Timestamps are whole days. The source reads the clock twice, for the borrow date and the due date; the model uses one reading.
- BookList.Lower: does not model Unicode `toLowerCase`; only ASCII `A`-`Z` are mapped.
- MyBorrows.SortNewestFirst: the backend leaves the order of equal borrow dates unspecified. The model keeps table order; its contract states only newest-first order and the permutation.
- BookCard.Card.HandleBorrow: its contract states `borrowing` after the call. The flag is set during the writes, but the contract does not state it.
- MyBorrows.HistoryPanel.HandleReturn: the source does not await the refetch (`MyBorrows.tsx:101`). The model runs it to completion before the handler returns, so its contract says nothing about a refetch that interleaves with later events.
- Concurrency between tabs or users is out of scope: there is no interleaving of the two writes of one handler with another handler's writes.
