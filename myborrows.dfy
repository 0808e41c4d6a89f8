/**
 * The borrow-history view: the query for the signed-in user's records, newest
 * first; which screen it shows; the Return button on unreturned records; and
 * the return transition, an update of `borrows` followed by an update of
 * `books`, each of which may fail.
 */
module MyBorrows {
  import opened Store
  import opened Seqs
  import BookCard

  datatype ReturnOutcome = MarkFailed | BookUpdateFailed | Returned

  /** `handleReturn` as a transition of the tables. */
  function ReturnStep(t: Tables, borrowId: BorrowId, bookId: BookId, markFails: bool, bookFails: bool)
    : (r: Step<ReturnOutcome>)
    ensures r.tables.books.Keys == t.books.Keys && |r.tables.borrows| == |t.borrows|
    // the book update is sent only after the record update succeeded
    ensures r.issued == if markFails then [UpdateReturned(borrowId)]
                        else [UpdateReturned(borrowId), UpdateAvailable(bookId, true)]
    ensures markFails <==> r.outcome == MarkFailed
    ensures !markFails ==> (bookFails <==> r.outcome == BookUpdateFailed)
    // a failed first update leaves the tables as they were
    ensures markFails ==> r.tables == t
    // only `returned` of the targeted records and `available` of the targeted book change
    ensures forall i :: 0 <= i < |t.borrows| ==>
      r.tables.borrows[i] == if t.borrows[i].id == borrowId && !markFails then t.borrows[i].(returned := true)
                             else t.borrows[i]
    ensures forall id :: id in t.books ==>
      r.tables.books[id] == if id == bookId && r.outcome == Returned then t.books[id].(available := true)
                            else t.books[id]
  {
    if markFails then Step(t, [UpdateReturned(borrowId)], MarkFailed)
    else
      var marked := WithReturned(t, borrowId);
      var issued := [UpdateReturned(borrowId), UpdateAvailable(bookId, true)];
      if bookFails then Step(marked, issued, BookUpdateFailed)
      else Step(WithAvailability(marked, bookId, true), issued, Returned)
  }

  /** The return assigns rather than toggles: a second successful return changes nothing. */
  lemma ReturnIsIdempotent(t: Tables, borrowId: BorrowId, bookId: BookId)
    ensures var once := ReturnStep(t, borrowId, bookId, false, false).tables;
      ReturnStep(once, borrowId, bookId, false, false).tables == once
  {
  }

  /**
   * A successful return of a book's only open loan, called with that
   * record's own book id, keeps the intended invariant.
   */
  lemma ReturnKeepsConsistent(t: Tables, borrowId: BorrowId, bookId: BookId)
    requires Consistent(t)
    requires forall i :: 0 <= i < |t.borrows| && t.borrows[i].id == borrowId ==> t.borrows[i].bookId == bookId
    requires forall i :: 0 <= i < |t.borrows| && IsOpenFor(t.borrows[i], bookId) ==> t.borrows[i].id == borrowId
    ensures Consistent(ReturnStep(t, borrowId, bookId, false, false).tables)
  {
  }

  /**
   * When the record update succeeds and the book update fails, the book's
   * only open loan is closed while the book stays unavailable.
   */
  lemma ReturnPartialFailureBreaksConsistency(t: Tables, borrowId: BorrowId, bookId: BookId, k: nat)
    requires Consistent(t) && bookId in t.books
    requires k < |t.borrows| && t.borrows[k].id == borrowId && IsOpenFor(t.borrows[k], bookId)
    requires forall i :: 0 <= i < |t.borrows| && IsOpenFor(t.borrows[i], bookId) ==> t.borrows[i].id == borrowId
    ensures var r := ReturnStep(t, borrowId, bookId, false, true);
      r.outcome == BookUpdateFailed && r.tables.borrows[k].returned &&
      !r.tables.books[bookId].available && !HasOpenBorrow(r.tables.borrows, bookId) && !Consistent(r.tables)
  {
  }

  /**
   * After two stale borrows of one book, returning either loan marks the book
   * available while the other loan is still open.
   */
  lemma ReturnAfterDoubleBorrowBreaksConsistency(t: Tables, u1: UserId, u2: UserId, bookId: BookId,
                                                 now1: Day, now2: Day, id1: BorrowId, id2: BorrowId)
    requires Consistent(t) && bookId in t.books && t.books[bookId].available
    requires id1 != id2
    ensures var s1 := BookCard.BorrowStep(t, Some(u1), bookId, now1, id1, false, false);
            var s2 := BookCard.BorrowStep(s1.tables, Some(u2), bookId, now2, id2, false, false);
            var first := ReturnStep(s2.tables, id1, bookId, false, false);
            var second := ReturnStep(s2.tables, id2, bookId, false, false);
      first.outcome == Returned && first.tables.books[bookId].available &&
      HasOpenBorrow(first.tables.borrows, bookId) && !Consistent(first.tables) &&
      second.outcome == Returned && second.tables.books[bookId].available &&
      HasOpenBorrow(second.tables.borrows, bookId) && !Consistent(second.tables)
  {
    var s1 := BookCard.BorrowStep(t, Some(u1), bookId, now1, id1, false, false);
    var s2 := BookCard.BorrowStep(s1.tables, Some(u2), bookId, now2, id2, false, false);
    var first := ReturnStep(s2.tables, id1, bookId, false, false);
    var second := ReturnStep(s2.tables, id2, bookId, false, false);
    var n := |t.borrows|;
    assert s2.tables.borrows[n] == BookCard.NewRecord(id1, u1, bookId, now1);
    assert s2.tables.borrows[n + 1] == BookCard.NewRecord(id2, u2, bookId, now2);
    assert IsOpenFor(first.tables.borrows[n + 1], bookId);
    assert IsOpenFor(second.tables.borrows[n], bookId);
  }

  /** Records in newest-first order: no record is older than one after it. */
  predicate NewestFirst(s: seq<Borrow>) {
    forall i, j :: 0 <= i < j < |s| ==> s[i].borrowDate >= s[j].borrowDate
  }

  function InsertNewestFirst(x: Borrow, s: seq<Borrow>): seq<Borrow> {
    if s == [] || x.borrowDate >= s[0].borrowDate then [x] + s
    else [s[0]] + InsertNewestFirst(x, s[1..])
  }

  lemma {:induction false} InsertNewestFirstCount(x: Borrow, s: seq<Borrow>)
    ensures multiset(InsertNewestFirst(x, s)) == multiset(s) + multiset{x}
  {
    if s != [] && x.borrowDate < s[0].borrowDate {
      InsertNewestFirstCount(x, s[1..]);
      assert s == [s[0]] + s[1..];
    }
  }

  /** Inserting a record no newer than `d` into records no newer than `d` gives records no newer than `d`. */
  lemma {:induction false} InsertNewestFirstBounded(x: Borrow, s: seq<Borrow>, d: Day)
    requires x.borrowDate <= d && forall k :: 0 <= k < |s| ==> s[k].borrowDate <= d
    ensures forall k :: 0 <= k < |InsertNewestFirst(x, s)| ==> InsertNewestFirst(x, s)[k].borrowDate <= d
  {
    if s != [] && x.borrowDate < s[0].borrowDate {
      InsertNewestFirstBounded(x, s[1..], d);
    }
  }

  lemma ConsNewestFirst(h: Borrow, s: seq<Borrow>)
    requires NewestFirst(s) && forall k :: 0 <= k < |s| ==> s[k].borrowDate <= h.borrowDate
    ensures NewestFirst([h] + s)
  {
  }

  lemma {:induction false} InsertNewestFirstSorted(x: Borrow, s: seq<Borrow>)
    requires NewestFirst(s)
    ensures NewestFirst(InsertNewestFirst(x, s))
  {
    if s == [] || x.borrowDate >= s[0].borrowDate {
      ConsNewestFirst(x, s);
    } else {
      var rest := s[1..];
      assert NewestFirst(rest) by {
        forall i, j | 0 <= i < j < |rest| ensures rest[i].borrowDate >= rest[j].borrowDate {
          assert rest[i] == s[i + 1] && rest[j] == s[j + 1];
        }
      }
      assert forall k :: 0 <= k < |rest| ==> rest[k].borrowDate <= s[0].borrowDate by {
        forall k | 0 <= k < |rest| ensures rest[k].borrowDate <= s[0].borrowDate {
          assert rest[k] == s[k + 1];
        }
      }
      InsertNewestFirstSorted(x, rest);
      InsertNewestFirstBounded(x, rest, s[0].borrowDate);
      ConsNewestFirst(s[0], InsertNewestFirst(x, rest));
    }
  }

  /**
   * `order('borrow_date', { ascending: false })`: the same records, newest
   * first; ties keep their table order.
   */
  function SortNewestFirst(s: seq<Borrow>): (r: seq<Borrow>)
    ensures multiset(r) == multiset(s)
    ensures NewestFirst(r)
  {
    if s == [] then []
    else
      var rest := SortNewestFirst(s[1..]);
      InsertNewestFirstCount(s[0], rest);
      InsertNewestFirstSorted(s[0], rest);
      assert s == [s[0]] + s[1..];
      InsertNewestFirst(s[0], rest)
  }

  function OwnedBy(user: UserId): Borrow -> bool {
    (b: Borrow) => b.userId == user
  }

  /** The records the history query returns: `.eq('user_id', user)` then newest first. */
  function UserHistory(t: Tables, user: UserId): (r: seq<Borrow>)
    ensures NewestFirst(r)
    ensures forall b: Borrow :: multiset(r)[b] == if b.userId == user then multiset(t.borrows)[b] else 0
  {
    var kept := Keep(t.borrows, OwnedBy(user));
    KeepCountAll(t.borrows, OwnedBy(user));
    SortNewestFirst(kept)
  }

  /** The book columns the query joins onto each record. */
  datatype BookSummary = BookSummary(title: string, author: string, isbn: string, info: Option<string>)

  /** One fetched record with its joined book (null when the book row is missing). */
  datatype Row = Row(record: Borrow, book: Option<BookSummary>)

  function JoinBooks(books: map<BookId, Book>, records: seq<Borrow>): (r: seq<Row>)
    ensures |r| == |records|
    ensures forall i :: 0 <= i < |r| ==> r[i].record == records[i]
    ensures forall i :: 0 <= i < |r| ==> r[i].book.Some? == (records[i].bookId in books)
    ensures forall i :: 0 <= i < |r| && records[i].bookId in books ==>
      var b := books[records[i].bookId]; r[i].book.value == BookSummary(b.title, b.author, b.isbn, b.info)
  {
    seq(|records|, i requires 0 <= i < |records| =>
      Row(records[i],
          if records[i].bookId in books then
            var b := books[records[i].bookId]; Some(BookSummary(b.title, b.author, b.isbn, b.info))
          else None))
  }

  function HistoryRows(t: Tables, user: UserId): seq<Row> {
    JoinBooks(t.books, UserHistory(t, user))
  }

  function RecordsOf(rows: seq<Row>): (r: seq<Borrow>)
    ensures |r| == |rows| && forall i :: 0 <= i < |rows| ==> r[i] == rows[i].record
  {
    seq(|rows|, i requires 0 <= i < |rows| => rows[i].record)
  }

  /**
   * The fetched history holds exactly the user's records, each as often as
   * in the table and no other record, newest first.
   */
  lemma HistoryIsUsersRecordsNewestFirst(t: Tables, user: UserId)
    ensures var h := RecordsOf(HistoryRows(t, user));
      NewestFirst(h) &&
      (forall b: Borrow :: multiset(h)[b] == if b.userId == user then multiset(t.borrows)[b] else 0) &&
      (forall i :: 0 <= i < |h| ==> h[i].userId == user)
  {
    var h := RecordsOf(HistoryRows(t, user));
    assert h == UserHistory(t, user);
    forall i | 0 <= i < |h| ensures h[i].userId == user {
      assert multiset(h)[h[i]] > 0;
    }
  }

  /** What the history view renders, in order of precedence. */
  datatype HistoryView = LoadingBorrows | SignInPrompt | NothingBorrowed | Listing(rows: seq<Row>)

  function ViewOf(loading: bool, user: Option<UserId>, rows: seq<Row>): (v: HistoryView)
    ensures v.LoadingBorrows? <==> loading
    ensures v.SignInPrompt? <==> !loading && user.None?
    ensures v.NothingBorrowed? <==> !loading && user.Some? && rows == []
    ensures v.Listing? <==> !loading && user.Some? && rows != []
    ensures v.Listing? ==> v.rows == rows
  {
    if loading then LoadingBorrows
    else if user.None? then SignInPrompt
    else if rows == [] then NothingBorrowed
    else Listing(rows)
  }

  /** The arguments the Return button passes to `handleReturn`. */
  datatype ReturnRequest = ReturnRequest(borrowId: BorrowId, bookId: BookId)

  /** The Return button of one listed row: present only while the record is unreturned. */
  function ReturnActionFor(row: Row): (a: Option<ReturnRequest>)
    ensures a.Some? <==> !row.record.returned
    ensures a.Some? ==> a.value.borrowId == row.record.id && a.value.bookId == row.record.bookId
  {
    if row.record.returned then None else Some(ReturnRequest(row.record.id, row.record.bookId))
  }

  /**
   * With unique record ids, pressing Return on a listed row and having both
   * updates succeed closes exactly that record and frees its book.
   */
  lemma ReturnActionClosesItsRecord(t: Tables, user: UserId, k: nat)
    requires UniqueIds(t.borrows)
    requires k < |HistoryRows(t, user)| && ReturnActionFor(HistoryRows(t, user)[k]).Some?
    ensures var rec := HistoryRows(t, user)[k].record;
            var a := ReturnActionFor(HistoryRows(t, user)[k]).value;
            var r := ReturnStep(t, a.borrowId, a.bookId, false, false).tables;
      exists j :: 0 <= j < |t.borrows| && t.borrows[j] == rec && IsOpenFor(rec, rec.bookId) &&
        r.borrows == t.borrows[j := rec.(returned := true)] &&
        (rec.bookId in t.books ==> r.books[rec.bookId].available)
  {
    var rows := HistoryRows(t, user);
    var rec := rows[k].record;
    var h := RecordsOf(rows);
    var r := ReturnStep(t, rec.id, rec.bookId, false, false).tables;
    HistoryIsUsersRecordsNewestFirst(t, user);
    assert h[k] == rec;
    assert multiset(h)[rec] > 0;
    assert rec in multiset(t.borrows);
    var j :| 0 <= j < |t.borrows| && t.borrows[j] == rec;
    assert r.borrows == t.borrows[j := rec.(returned := true)];
  }

  /** After a successful borrow the new open record, due a week later, is in the borrower's history. */
  lemma BorrowShowsInHistory(t: Tables, user: UserId, bookId: BookId, now: Day, newId: BorrowId)
    ensures var rec := BookCard.NewRecord(newId, user, bookId, now);
            var s1 := BookCard.BorrowStep(t, Some(user), bookId, now, newId, false, false);
      rec in RecordsOf(HistoryRows(s1.tables, user)) && !rec.returned && rec.returnDate == now + BookCard.LoanDays
  {
  }

  /**
   * Borrow and then return the new record, every write succeeding: the record
   * is closed, the book is available, and a book that was available ends as
   * it started.
   */
  lemma BorrowThenReturn(t: Tables, user: UserId, bookId: BookId, now: Day, newId: BorrowId)
    requires bookId in t.books
    requires forall i :: 0 <= i < |t.borrows| ==> t.borrows[i].id != newId
    ensures var rec := BookCard.NewRecord(newId, user, bookId, now);
            var s1 := BookCard.BorrowStep(t, Some(user), bookId, now, newId, false, false);
            var s2 := ReturnStep(s1.tables, newId, bookId, false, false);
      s2.outcome == Returned &&
      s2.tables.borrows == t.borrows + [rec.(returned := true)] &&
      s2.tables.books[bookId].available &&
      (t.books[bookId].available ==> s2.tables.books == t.books)
  {
  }

  /** The `MyBorrows` component: the signed-in user, the loading flag and the fetched rows. */
  class HistoryPanel {
    const user: Option<UserId>
    var loading: bool
    var rows: seq<Row>

    constructor (user: Option<UserId>)
      ensures this.user == user && loading && rows == []
    {
      this.user := user;
      loading := true;
      rows := [];
    }

    function View(): HistoryView
      reads this
    {
      ViewOf(loading, user, rows)
    }

    /** `fetchBorrows`: no query without a user; loading ends on every path. */
    method FetchBorrows(db: Database, fails: bool)
      modifies this`loading, this`rows, db`requests
      ensures !loading
      // the screen leaves the spinner: the sign-in prompt without a user, else the list or its empty message
      ensures View() == if user.None? then SignInPrompt else if rows == [] then NothingBorrowed else Listing(rows)
      ensures user.None? ==> rows == old(rows) && db.requests == old(db.requests)
      ensures user.Some? ==> db.requests == old(db.requests) + [SelectHistory(user.value)]
      ensures user.Some? ==> rows == if fails then old(rows) else HistoryRows(db.Contents(), user.value)
    {
      if user.None? {
        loading := false;
        return;
      }
      var ok := db.Query(SelectHistory(user.value), fails);
      if ok {
        rows := HistoryRows(db.Contents(), user.value);
      }
      loading := false;
    }

    /** `handleReturn`; on success it refetches the history, whose failure is `refetchFails`. */
    method HandleReturn(db: Database, borrowId: BorrowId, bookId: BookId,
                        markFails: bool, bookFails: bool, refetchFails: bool)
      returns (outcome: ReturnOutcome)
      modifies this`loading, this`rows, db
      ensures var s := ReturnStep(old(db.Contents()), borrowId, bookId, markFails, bookFails);
        db.Contents() == s.tables && outcome == s.outcome &&
        db.requests == old(db.requests) + s.issued +
                       (if outcome == Returned && user.Some? then [SelectHistory(user.value)] else [])
      ensures outcome != Returned ==> rows == old(rows) && loading == old(loading)
      ensures outcome == Returned ==>
        !loading && rows == if user.Some? && !refetchFails then HistoryRows(db.Contents(), user.value) else old(rows)
    {
      var ok := db.SetReturned(borrowId, markFails);
      if !ok {
        return MarkFailed;
      }
      ok := db.SetAvailable(bookId, true, bookFails);
      if !ok {
        return BookUpdateFailed;
      }
      outcome := Returned;
      FetchBorrows(db, refetchFails);
    }

    /** A press on the Return button of row `k`, which exists only while that record is unreturned. */
    method PressReturn(db: Database, k: nat, markFails: bool, bookFails: bool, refetchFails: bool)
      returns (outcome: ReturnOutcome)
      requires k < |rows| && ReturnActionFor(rows[k]).Some?
      modifies this`loading, this`rows, db
      ensures var s := ReturnStep(old(db.Contents()), old(rows[k].record.id), old(rows[k].record.bookId),
                                  markFails, bookFails);
        db.Contents() == s.tables && outcome == s.outcome &&
        db.requests == old(db.requests) + s.issued +
                       (if outcome == Returned && user.Some? then [SelectHistory(user.value)] else [])
      ensures outcome != Returned ==> rows == old(rows) && loading == old(loading)
      ensures outcome == Returned ==>
        !loading && rows == if user.Some? && !refetchFails then HistoryRows(db.Contents(), user.value) else old(rows)
    {
      var a := ReturnActionFor(rows[k]).value;
      outcome := HandleReturn(db, a.borrowId, a.bookId, markFails, bookFails, refetchFails);
    }
  }
}
