/**
 * One catalog card: the Borrow button and the borrow transition it triggers,
 * an insert into `borrows` followed by an update of `books`, each of which may
 * fail, with no rollback of the first when the second fails.
 */
module BookCard {
  import opened Store

  /** The loan period. */
  const LoanDays: int := 7

  datatype BorrowOutcome = SignInRequired | InsertFailed | UpdateFailed | Borrowed

  /** The record the borrow inserts; its id is generated by the backend. */
  function NewRecord(newId: BorrowId, user: UserId, bookId: BookId, now: Day): (r: Borrow)
    ensures r.id == newId && r.userId == user && r.bookId == bookId && !r.returned
    ensures r.borrowDate == now && r.returnDate == now + LoanDays
  {
    Borrow(newId, user, bookId, now, now + LoanDays, false)
  }

  /**
   * `handleBorrow` as a transition of the tables. It is given the book's id
   * only: nothing in it reads the card's `available` flag or re-reads the book.
   */
  function BorrowStep(t: Tables, user: Option<UserId>, bookId: BookId, now: Day, newId: BorrowId,
                      insertFails: bool, updateFails: bool): (r: Step<BorrowOutcome>)
    ensures r.tables.books.Keys == t.books.Keys
    // without a user nothing is sent and nothing changes
    ensures user.None? <==> r.outcome == SignInRequired
    ensures user.None? ==> r.tables == t && r.issued == []
    // the insert is always sent; the update is sent only after a successful insert
    ensures user.Some? ==> r.issued == [InsertBorrow(NewRecord(newId, user.value, bookId, now))] +
                                       (if insertFails then [] else [UpdateAvailable(bookId, false)])
    // a failed insert leaves the tables as they were
    ensures user.Some? && insertFails ==> r.tables == t && r.outcome == InsertFailed
    // otherwise exactly one open record, for this user and book and due a week later, is appended
    ensures user.Some? && !insertFails ==>
      r.tables.borrows == t.borrows + [NewRecord(newId, user.value, bookId, now)]
    // ... and the book becomes unavailable only if the update succeeds
    ensures user.Some? && !insertFails && updateFails ==> r.tables.books == t.books && r.outcome == UpdateFailed
    ensures user.Some? && !insertFails && !updateFails ==>
      r.outcome == Borrowed && (bookId in t.books ==> !r.tables.books[bookId].available)
    // no other book changes, and no field but `available` of this one
    ensures forall id :: id in t.books && id != bookId ==> r.tables.books[id] == t.books[id]
    ensures bookId in t.books ==> r.tables.books[bookId].(available := t.books[bookId].available) == t.books[bookId]
  {
    if user.None? then Step(t, [], SignInRequired)
    else
      var rec := NewRecord(newId, user.value, bookId, now);
      if insertFails then Step(t, [InsertBorrow(rec)], InsertFailed)
      else
        var inserted := Inserted(t, rec);
        var issued := [InsertBorrow(rec), UpdateAvailable(bookId, false)];
        if updateFails then Step(inserted, issued, UpdateFailed)
        else Step(WithAvailability(inserted, bookId, false), issued, Borrowed)
  }

  /**
   * A successful borrow of a book that is available at write time keeps the
   * intended invariant, and keeps each book lent at most once.
   */
  lemma BorrowKeepsConsistent(t: Tables, user: UserId, bookId: BookId, now: Day, newId: BorrowId)
    requires Consistent(t)
    requires bookId in t.books && t.books[bookId].available
    ensures var r := BorrowStep(t, Some(user), bookId, now, newId, false, false).tables;
      Consistent(r) && (SingleLoan(t) ==> SingleLoan(r))
  {
    var rec := NewRecord(newId, user, bookId, now);
    var r := BorrowStep(t, Some(user), bookId, now, newId, false, false).tables;
    assert r.borrows == t.borrows + [rec];
    forall id | id in r.books
      ensures !r.books[id].available <==> HasOpenBorrow(r.borrows, id)
      ensures OpenCount(r.borrows, id) == OpenCount(t.borrows, id) + (if id == bookId then 1 else 0)
    {
      HasOpenAppend(t.borrows, rec, id);
      OpenCountAppend(t.borrows, rec, id);
    }
    OpenCountPositive(t.borrows, bookId);
  }

  lemma HasOpenAppend(s: seq<Borrow>, rec: Borrow, id: BookId)
    ensures HasOpenBorrow(s + [rec], id) <==> HasOpenBorrow(s, id) || IsOpenFor(rec, id)
  {
    if HasOpenBorrow(s, id) {
      var i :| 0 <= i < |s| && IsOpenFor(s[i], id);
      assert (s + [rec])[i] == s[i];
    }
    if IsOpenFor(rec, id) {
      assert (s + [rec])[|s|] == rec;
    }
    if HasOpenBorrow(s + [rec], id) && !IsOpenFor(rec, id) {
      var i :| 0 <= i < |s + [rec]| && IsOpenFor((s + [rec])[i], id);
      assert i < |s| && s[i] == (s + [rec])[i];
    }
  }

  /**
   * When the insert succeeds and the update fails, the new open record stays
   * while the book is still marked available: the invariant is broken.
   */
  lemma BorrowPartialFailureBreaksConsistency(t: Tables, user: UserId, bookId: BookId, now: Day, newId: BorrowId)
    requires bookId in t.books && t.books[bookId].available
    ensures var r := BorrowStep(t, Some(user), bookId, now, newId, false, true);
      r.outcome == UpdateFailed && r.tables.books[bookId].available &&
      HasOpenBorrow(r.tables.borrows, bookId) && !Consistent(r.tables)
  {
    var rec := NewRecord(newId, user, bookId, now);
    HasOpenAppend(t.borrows, rec, bookId);
  }

  /**
   * Two successful borrows of the same book, both issued from cards rendered
   * while it was available, both go through: the book ends unavailable with
   * two open records, one more than a single copy allows.
   */
  lemma StaleDoubleBorrow(t: Tables, u1: UserId, u2: UserId, bookId: BookId,
                          now1: Day, now2: Day, id1: BorrowId, id2: BorrowId)
    requires Consistent(t)
    requires bookId in t.books && t.books[bookId].available
    ensures var s1 := BorrowStep(t, Some(u1), bookId, now1, id1, false, false);
            var s2 := BorrowStep(s1.tables, Some(u2), bookId, now2, id2, false, false);
      s1.outcome == Borrowed && s2.outcome == Borrowed &&
      !s2.tables.books[bookId].available &&
      OpenCount(s2.tables.borrows, bookId) == 2 && !SingleLoan(s2.tables) && Consistent(s2.tables)
  {
    var s1 := BorrowStep(t, Some(u1), bookId, now1, id1, false, false);
    var r1, r2 := NewRecord(id1, u1, bookId, now1), NewRecord(id2, u2, bookId, now2);
    assert s1.tables.borrows == t.borrows + [r1];
    OpenCountPositive(t.borrows, bookId);
    OpenCountAppend(t.borrows, r1, bookId);
    OpenCountAppend(t.borrows + [r1], r2, bookId);
    var s2 := BorrowStep(s1.tables, Some(u2), bookId, now2, id2, false, false);
    assert s2.tables.borrows == t.borrows + [r1] + [r2];
    forall id | id in s2.tables.books
      ensures !s2.tables.books[id].available <==> HasOpenBorrow(s2.tables.borrows, id)
    {
      HasOpenAppend(t.borrows, r1, id);
      HasOpenAppend(t.borrows + [r1], r2, id);
    }
  }

  /** A borrow whose new id is not yet taken keeps the record ids unique. */
  lemma BorrowKeepsIdsUnique(t: Tables, user: Option<UserId>, bookId: BookId, now: Day, newId: BorrowId,
                             insertFails: bool, updateFails: bool)
    requires UniqueIds(t.borrows)
    requires forall i :: 0 <= i < |t.borrows| ==> t.borrows[i].id != newId
    ensures UniqueIds(BorrowStep(t, user, bookId, now, newId, insertFails, updateFails).tables.borrows)
  {
  }

  datatype BorrowButton = BorrowButton(disabled: bool, caption: string)

  /** The card's Borrow button: shown only to a signed-in user. */
  function ButtonFor(signedIn: bool, available: bool, borrowing: bool): (r: Option<BorrowButton>)
    ensures r.Some? <==> signedIn
    ensures r.Some? ==> (r.value.disabled <==> !available || borrowing)
    // a clickable button always says "Borrow", a disabled one never does
    ensures r.Some? ==> (r.value.caption == "Borrow" <==> !r.value.disabled)
    ensures r.Some? && borrowing ==> r.value.caption == "Borrowing..."
    ensures r.Some? && !borrowing && !available ==> r.value.caption == "Not Available"
  {
    if !signedIn then None
    else Some(BorrowButton(!available || borrowing,
                      if borrowing then "Borrowing..." else if available then "Borrow" else "Not Available"))
  }

  /** The `BookCard` component: the book it was rendered with, the signed-in user, and its `borrowing` flag. */
  class Card {
    const book: Book
    const user: Option<UserId>
    var borrowing: bool

    constructor (book: Book, user: Option<UserId>)
      ensures this.book == book && this.user == user && !borrowing
    {
      this.book := book;
      this.user := user;
      borrowing := false;
    }

    /** The button as rendered from the card's own copy of the book. */
    function Button(): Option<BorrowButton>
      reads this
    {
      ButtonFor(user.Some?, book.available, borrowing)
    }

    /**
     * `handleBorrow`: the clock reading, the generated record id and the
     * failure of each write are parameters.
     */
    method HandleBorrow(db: Database, now: Day, newId: BorrowId, insertFails: bool, updateFails: bool)
      returns (outcome: BorrowOutcome)
      modifies this, db
      ensures var s := BorrowStep(old(db.Contents()), user, book.id, now, newId, insertFails, updateFails);
        db.Contents() == s.tables && db.requests == old(db.requests) + s.issued && outcome == s.outcome
      // the flag is untouched without a user and cleared on every other path
      ensures borrowing == (user.None? && old(borrowing))
      // the card keeps its copy of the book, so after a successful borrow it can still offer "Borrow"
      // until the parent refetches the catalog
      ensures user.Some? ==> Button() == Some(BorrowButton(!book.available, if book.available then "Borrow" else "Not Available"))
    {
      if user.None? {
        return SignInRequired;
      }
      borrowing := true;
      var rec := NewRecord(newId, user.value, book.id, now);
      var ok := db.Insert(rec, insertFails);
      if !ok {
        outcome := InsertFailed;
      } else {
        ok := db.SetAvailable(book.id, false, updateFails);
        outcome := if ok then Borrowed else UpdateFailed;
      }
      borrowing := false;
    }
  }

  /**
   * Two cards for the same book, rendered from one fetch in which it was
   * available, each borrow it: both succeed, although the second card's copy
   * of `available` is stale.
   */
  method TwoStaleCards(db: Database, c1: Card, c2: Card, now: Day, id1: BorrowId, id2: BorrowId)
    returns (o1: BorrowOutcome, o2: BorrowOutcome)
    requires c1 != c2 && c1.book == c2.book && c1.book.available && c1.user.Some? && c2.user.Some?
    requires c1.book.id in db.books && db.books[c1.book.id].available && Consistent(db.Contents())
    modifies db, c1, c2
    ensures o1 == Borrowed && o2 == Borrowed && c2.book.available
    ensures c1.book.id in db.books && !db.books[c1.book.id].available && OpenCount(db.borrows, c1.book.id) == 2
  {
    ghost var t := db.Contents();
    o1 := c1.HandleBorrow(db, now, id1, false, false);
    o2 := c2.HandleBorrow(db, now, id2, false, false);
    StaleDoubleBorrow(t, c1.user.value, c2.user.value, c1.book.id, now, now, id1, id2);
  }
}
