/**
 * The two backend tables the application reads and writes, `books` and
 * `borrows`, the single-row updates the components issue against them, and
 * the consistency invariant those updates are meant to keep.
 *
 * The backend itself is a hosted service; here it is the class `Database`,
 * whose write methods take a `fails` flag saying whether the request comes
 * back with an error (or throws). Every request issued is appended to a log,
 * so that contracts can say which writes were attempted.
 */
module Store {

  datatype Option<T> = None | Some(value: T)

  type BookId = string
  type UserId = string
  type BorrowId = string
  /** Timestamps are whole days. */
  type Day = int

  /** A row of `books`. The source's column for the title is spelled `tittle`. */
  datatype Book = Book(id: BookId, title: string, author: string, isbn: string,
                       available: bool, info: Option<string>)

  /** A row of `borrows`; `returnDate` is the due date. */
  datatype Borrow = Borrow(id: BorrowId, userId: UserId, bookId: BookId,
                           borrowDate: Day, returnDate: Day, returned: bool)

  /** The contents of both tables. */
  datatype Tables = Tables(books: map<BookId, Book>, borrows: seq<Borrow>)

  /** A request sent to the backend. */
  datatype Request =
    | InsertBorrow(record: Borrow)                    // insert into borrows
    | UpdateAvailable(bookId: BookId, available: bool) // update books set available = .. where id = ..
    | UpdateReturned(borrowId: BorrowId)              // update borrows set returned = true where id = ..
    | SelectHistory(userId: UserId)                   // select borrows of one user, newest first

  /** What a multi-request handler did: the resulting tables, the requests it issued, how it ended. */
  datatype Step<O> = Step(tables: Tables, issued: seq<Request>, outcome: O)

  /** The tables after a successful insert of `rec`. */
  function Inserted(t: Tables, rec: Borrow): (r: Tables)
    ensures r.books == t.books && r.borrows == t.borrows + [rec]
    ensures multiset(r.borrows) == multiset(t.borrows) + multiset{rec}
  {
    Tables(t.books, t.borrows + [rec])
  }

  /**
   * The tables after `update books set available = v where id = bookId`.
   * A filter that matches no row is not an error: nothing changes.
   */
  function WithAvailability(t: Tables, bookId: BookId, v: bool): (r: Tables)
    ensures r.borrows == t.borrows && r.books.Keys == t.books.Keys
    ensures forall id :: id in t.books ==>
      r.books[id] == if id == bookId then t.books[id].(available := v) else t.books[id]
  {
    if bookId in t.books then Tables(t.books[bookId := t.books[bookId].(available := v)], t.borrows)
    else t
  }

  /** `s` with `returned` set on every record whose id is `borrowId`. */
  function MarkReturned(s: seq<Borrow>, borrowId: BorrowId): (r: seq<Borrow>)
    ensures |r| == |s|
    ensures forall i :: 0 <= i < |s| ==>
      r[i] == if s[i].id == borrowId then s[i].(returned := true) else s[i]
  {
    seq(|s|, i requires 0 <= i < |s| => if s[i].id == borrowId then s[i].(returned := true) else s[i])
  }

  /** The tables after `update borrows set returned = true where id = borrowId`. */
  function WithReturned(t: Tables, borrowId: BorrowId): (r: Tables)
    ensures r.books == t.books && |r.borrows| == |t.borrows|
    // the targeted records become returned; no other column of any record changes
    ensures forall i :: 0 <= i < |t.borrows| ==>
      r.borrows[i] == if t.borrows[i].id == borrowId then t.borrows[i].(returned := true) else t.borrows[i]
  {
    Tables(t.books, MarkReturned(t.borrows, borrowId))
  }

  /** `b` is an unreturned loan of book `bookId`. */
  predicate IsOpenFor(b: Borrow, bookId: BookId) {
    b.bookId == bookId && !b.returned
  }

  predicate HasOpenBorrow(s: seq<Borrow>, bookId: BookId) {
    exists i :: 0 <= i < |s| && IsOpenFor(s[i], bookId)
  }

  /** The number of unreturned loans of `bookId`. */
  function OpenCount(s: seq<Borrow>, bookId: BookId): nat
  {
    if s == [] then 0
    else OpenCount(s[..|s| - 1], bookId) + (if IsOpenFor(s[|s| - 1], bookId) then 1 else 0)
  }

  lemma {:induction false} OpenCountPositive(s: seq<Borrow>, bookId: BookId)
    ensures OpenCount(s, bookId) > 0 <==> HasOpenBorrow(s, bookId)
  {
    if s != [] {
      var p := s[..|s| - 1];
      OpenCountPositive(p, bookId);
      if HasOpenBorrow(p, bookId) {
        var i :| 0 <= i < |p| && IsOpenFor(p[i], bookId);
        assert s[i] == p[i];
      }
      if HasOpenBorrow(s, bookId) && !IsOpenFor(s[|s| - 1], bookId) {
        var i :| 0 <= i < |s| && IsOpenFor(s[i], bookId);
        assert p[i] == s[i];
      }
    }
  }

  lemma OpenCountAppend(s: seq<Borrow>, rec: Borrow, bookId: BookId)
    ensures OpenCount(s + [rec], bookId) == OpenCount(s, bookId) + (if IsOpenFor(rec, bookId) then 1 else 0)
  {
  }

  /**
   * The intended invariant: a book is unavailable exactly when it has at
   * least one unreturned borrow record. Nothing enforces it.
   */
  predicate Consistent(t: Tables) {
    forall id :: id in t.books ==> (!t.books[id].available <==> HasOpenBorrow(t.borrows, id))
  }

  /** Each book is lent to at most one borrower at a time. */
  predicate SingleLoan(t: Tables) {
    forall id :: id in t.books ==> OpenCount(t.borrows, id) <= 1
  }

  /** No two borrow records share an id (the backend generates them). */
  predicate UniqueIds(s: seq<Borrow>) {
    forall i, j :: 0 <= i < j < |s| ==> s[i].id != s[j].id
  }

  /** The backend: both tables, and the log of every request sent to it. */
  class Database {
    var books: map<BookId, Book>
    var borrows: seq<Borrow>
    var requests: seq<Request>

    function Contents(): Tables
      reads this
    {
      Tables(books, borrows)
    }

    constructor (t: Tables)
      ensures Contents() == t && requests == []
    {
      books := t.books;
      borrows := t.borrows;
      requests := [];
    }

    method Insert(rec: Borrow, fails: bool) returns (ok: bool)
      modifies this
      ensures ok == !fails
      ensures Contents() == if ok then Inserted(old(Contents()), rec) else old(Contents())
      ensures requests == old(requests) + [InsertBorrow(rec)]
    {
      requests := requests + [InsertBorrow(rec)];
      ok := !fails;
      if ok {
        borrows := borrows + [rec];
      }
    }

    method SetAvailable(bookId: BookId, v: bool, fails: bool) returns (ok: bool)
      modifies this
      ensures ok == !fails
      ensures Contents() == if ok then WithAvailability(old(Contents()), bookId, v) else old(Contents())
      ensures requests == old(requests) + [UpdateAvailable(bookId, v)]
    {
      requests := requests + [UpdateAvailable(bookId, v)];
      ok := !fails;
      if ok && bookId in books {
        books := books[bookId := books[bookId].(available := v)];
      }
    }

    method SetReturned(borrowId: BorrowId, fails: bool) returns (ok: bool)
      modifies this
      ensures ok == !fails
      ensures Contents() == if ok then WithReturned(old(Contents()), borrowId) else old(Contents())
      ensures requests == old(requests) + [UpdateReturned(borrowId)]
    {
      requests := requests + [UpdateReturned(borrowId)];
      ok := !fails;
      if ok {
        borrows := MarkReturned(borrows, borrowId);
      }
    }

    /** A read request: logged, never changes the tables; the caller evaluates the query on Contents(). */
    method Query(req: Request, fails: bool) returns (ok: bool)
      requires req.SelectHistory?
      modifies this`requests
      ensures ok == !fails
      ensures requests == old(requests) + [req]
    {
      requests := requests + [req];
      ok := !fails;
    }
  }
}
