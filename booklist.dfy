/**
 * The catalog view: the state it keeps after a fetch, the client-side filter
 * (a text match on title or author, then an optional "available only" step)
 * and the choice of what the grid shows.
 */
module BookList {
  import opened Store
  import opened Seqs

  /** Lower-casing of one character, ASCII letters only. */
  function LowerChar(c: char): char {
    if 'A' <= c <= 'Z' then (c as int + 32) as char else c
  }

  /** `String.prototype.toLowerCase`, restricted to ASCII. */
  function Lower(s: string): (r: string)
    ensures |r| == |s|
    ensures forall i :: 0 <= i < |s| ==> r[i] == LowerChar(s[i])
  {
    if s == [] then [] else [LowerChar(s[0])] + Lower(s[1..])
  }

  lemma LowerIdempotent(s: string)
    ensures Lower(Lower(s)) == Lower(s)
  {
  }

  /** `needle` sits in `hay` starting at index `i`. */
  predicate OccursAt(hay: string, needle: string, i: int) {
    0 <= i && i + |needle| <= |hay| && hay[i..i + |needle|] == needle
  }

  /** `needle` is a substring of `hay`. */
  ghost predicate Occurs(hay: string, needle: string) {
    exists i :: OccursAt(hay, needle, i)
  }

  /** `String.prototype.includes`. */
  function Includes(hay: string, needle: string): (r: bool)
    ensures needle == [] ==> r
    ensures r ==> |needle| <= |hay|
    decreases |hay|
  {
    if |needle| <= |hay| && hay[..|needle|] == needle then true
    else if hay == [] then false
    else Includes(hay[1..], needle)
  }

  /** Includes answers whether the needle occurs somewhere in the haystack. */
  lemma {:induction false} IncludesSpec(hay: string, needle: string)
    ensures Includes(hay, needle) <==> Occurs(hay, needle)
    decreases |hay|
  {
    if |needle| <= |hay| && hay[..|needle|] == needle {
      assert OccursAt(hay, needle, 0);
    } else if hay != [] {
      IncludesSpec(hay[1..], needle);
      if Includes(hay[1..], needle) {
        var i :| OccursAt(hay[1..], needle, i);
        assert hay[1..][i..i + |needle|] == hay[i + 1..i + 1 + |needle|];
        assert OccursAt(hay, needle, i + 1);
      }
      if Occurs(hay, needle) {
        var i :| OccursAt(hay, needle, i);
        assert i != 0;
        assert hay[1..][i - 1..i - 1 + |needle|] == hay[i..i + |needle|];
        assert OccursAt(hay[1..], needle, i - 1);
      }
    }
  }

  /** The text test of `BookList`: case-insensitive substring of the title or of the author. */
  function Matches(b: Book, term: string): (r: bool)
    // the empty term matches every book, so skipping the text step for it loses nothing
    ensures term == "" ==> r
    ensures r ==> |term| <= |b.title| || |term| <= |b.author|
  {
    Includes(Lower(b.title), Lower(term)) || Includes(Lower(b.author), Lower(term))
  }

  function TextFilter(term: string): Book -> bool {
    (b: Book) => Matches(b, term)
  }

  function AvailableFilter(): Book -> bool {
    (b: Book) => b.available
  }

  /** Step one: only when the search term is non-empty (a JavaScript truthy string). */
  function TextStep(books: seq<Book>, term: string): (r: seq<Book>)
    ensures term == "" ==> r == books
    ensures forall i :: 0 <= i < |r| ==> r[i] in books && Matches(r[i], term)
    ensures forall i :: 0 <= i < |books| && Matches(books[i], term) ==> books[i] in r
  {
    if term != "" then Keep(books, TextFilter(term)) else books
  }

  /** Step two: only when the toggle is on. */
  function AvailabilityStep(books: seq<Book>, availableOnly: bool): (r: seq<Book>)
    ensures !availableOnly ==> r == books
    ensures forall i :: 0 <= i < |r| ==> r[i] in books && (!availableOnly || r[i].available)
    ensures forall i :: 0 <= i < |books| && (!availableOnly || books[i].available) ==> books[i] in r
  {
    if availableOnly then Keep(books, AvailableFilter()) else books
  }

  /** The filter effect: what `filteredBooks` is set to. */
  function Filter(books: seq<Book>, term: string, availableOnly: bool): (r: seq<Book>)
    ensures forall i :: 0 <= i < |r| ==>
      r[i] in books && (term == "" || Matches(r[i], term)) && (!availableOnly || r[i].available)
    ensures forall i :: (0 <= i < |books| && (term == "" || Matches(books[i], term)) &&
                         (!availableOnly || books[i].available)) ==> books[i] in r
  {
    AvailabilityStep(TextStep(books, term), availableOnly)
  }

  /** A non-empty term keeps a book exactly when the lower-cased term occurs in its lower-cased title or author. */
  lemma TextStepSoundAndComplete(books: seq<Book>, term: string, b: Book)
    requires term != ""
    ensures b in TextStep(books, term) <==>
      b in books && (Occurs(Lower(b.title), Lower(term)) || Occurs(Lower(b.author), Lower(term)))
  {
    var title, author, needle := Lower(b.title), Lower(b.author), Lower(term);
    IncludesSpec(title, needle);
    IncludesSpec(author, needle);
    assert Matches(b, term) <==> Includes(title, needle) || Includes(author, needle);
  }

  /** The filter only deletes books; the ones it keeps stay in the catalog's order. */
  lemma FilterIsSubsequence(books: seq<Book>, term: string, availableOnly: bool)
    ensures IsSubsequence(Filter(books, term, availableOnly), books)
  {
    var t := TextStep(books, term);
    if term != "" {
      KeepIsSubsequence(books, TextFilter(term));
    } else {
      SubsequenceReflexive(books);
    }
    if availableOnly {
      KeepIsSubsequence(t, AvailableFilter());
      SubsequenceTransitive(Filter(books, term, availableOnly), t, books);
    }
  }

  /** When every book passes both tests the filter returns the catalog unchanged. */
  lemma FilterKeepsAllWhenAllPass(books: seq<Book>, term: string, availableOnly: bool)
    requires forall i :: 0 <= i < |books| ==> Matches(books[i], term) && (!availableOnly || books[i].available)
    ensures Filter(books, term, availableOnly) == books
  {
    if term != "" {
      KeepAll(books, TextFilter(term));
    }
    if availableOnly {
      KeepAll(books, AvailableFilter());
    }
  }

  /** Every copy of a book that passes both tests is kept, and no copy of one that fails. */
  lemma FilterCount(books: seq<Book>, term: string, availableOnly: bool, b: Book)
    ensures multiset(Filter(books, term, availableOnly))[b] ==
      if (term == "" || Matches(b, term)) && (!availableOnly || b.available) then multiset(books)[b] else 0
  {
    var t := TextStep(books, term);
    if term != "" {
      KeepCount(books, TextFilter(term), b);
    }
    if availableOnly {
      KeepCount(t, AvailableFilter(), b);
    }
  }

  /** Applying the availability step first and the text step second gives the same sequence. */
  lemma FilterStepsCommute(books: seq<Book>, term: string, availableOnly: bool)
    ensures TextStep(AvailabilityStep(books, availableOnly), term) == Filter(books, term, availableOnly)
  {
    if term != "" && availableOnly {
      KeepCommutes(books, TextFilter(term), AvailableFilter());
    }
  }

  /** Filtering the filtered list again with the same controls changes nothing. */
  lemma FilterIdempotent(books: seq<Book>, term: string, availableOnly: bool)
    ensures Filter(Filter(books, term, availableOnly), term, availableOnly) == Filter(books, term, availableOnly)
  {
    var t := TextStep(books, term);
    var f := Filter(books, term, availableOnly);
    if term != "" && availableOnly {
      var p, q := TextFilter(term), AvailableFilter();
      calc {
        Filter(f, term, availableOnly);
        Keep(Keep(Keep(Keep(books, p), q), p), q);
        { KeepCommutes(Keep(books, p), q, p); }
        Keep(Keep(Keep(Keep(books, p), p), q), q);
        { KeepIdempotent(books, p); }
        Keep(Keep(Keep(books, p), q), q);
        { KeepIdempotent(Keep(books, p), q); }
        f;
      }
    } else if term != "" {
      KeepIdempotent(books, TextFilter(term));
    } else if availableOnly {
      KeepIdempotent(books, AvailableFilter());
    }
  }

  /** The part of `BookList`'s state that the fetch and the filter effect write. */
  datatype CatalogState = CatalogState(books: seq<Book>, filtered: seq<Book>, searchTerm: string,
                                       availableOnly: bool, loading: bool)

  /** The reply to `select * from books order by tittle`: rows (possibly null) or an error. */
  datatype FetchReply = Rows(data: Option<seq<Book>>) | FetchError

  /** `fetchBooks` after the reply arrives: on rows both lists take them, on error only loading ends. */
  function AfterFetch(s: CatalogState, reply: FetchReply): (r: CatalogState)
    ensures !r.loading
    ensures r.searchTerm == s.searchTerm && r.availableOnly == s.availableOnly
    ensures reply.FetchError? ==> r.books == s.books && r.filtered == s.filtered
    ensures reply.Rows? ==> r.books == r.filtered == (if reply.data.Some? then reply.data.value else [])
  {
    match reply
    case FetchError => s.(loading := false)
    case Rows(data) =>
      var rows := if data.Some? then data.value else [];
      s.(books := rows, filtered := rows, loading := false)
  }

  /** The filter effect, which runs whenever the books, the term or the toggle change. */
  function AfterFilterEffect(s: CatalogState): (r: CatalogState)
    ensures r.books == s.books && r.searchTerm == s.searchTerm && r.availableOnly == s.availableOnly
    ensures r.loading == s.loading && r.filtered == Filter(s.books, s.searchTerm, s.availableOnly)
    ensures IsSubsequence(r.filtered, s.books)
  {
    FilterIsSubsequence(s.books, s.searchTerm, s.availableOnly);
    s.(filtered := Filter(s.books, s.searchTerm, s.availableOnly))
  }

  /**
   * Right after a fetch the grid shows the fetched rows unfiltered; that already
   * agrees with the filter exactly when the filter would keep every row.
   */
  lemma FetchAgreesWithFilterIffNothingFiltered(s: CatalogState, data: Option<seq<Book>>)
    ensures var r := AfterFetch(s, Rows(data));
      r.filtered == AfterFilterEffect(r).filtered <==> Filter(r.books, s.searchTerm, s.availableOnly) == r.books
  {
  }

  /** Under the default controls (no term, toggle off) the fetched list is already the filtered list. */
  lemma FetchUnderDefaultControls(s: CatalogState, data: Option<seq<Book>>)
    requires s.searchTerm == "" && !s.availableOnly
    ensures AfterFilterEffect(AfterFetch(s, Rows(data))) == AfterFetch(s, Rows(data))
  {
  }

  const NoMatchMessage := "No books found matching your criteria."
  const EmptyCatalogMessage := "No books available in the catalog."

  /** What the catalog renders. */
  datatype CatalogView = LoadingBooks | Grid(cards: seq<Book>) | EmptyMessage(text: string)

  function ViewOf(loading: bool, filtered: seq<Book>, term: string, availableOnly: bool): (v: CatalogView)
    ensures v.LoadingBooks? <==> loading
    ensures v.Grid? <==> !loading && filtered != []
    ensures v.Grid? ==> v.cards == filtered
    ensures v.EmptyMessage? ==>
      (v.text == NoMatchMessage <==> term != "" || availableOnly) &&
      (v.text == EmptyCatalogMessage <==> term == "" && !availableOnly)
  {
    if loading then LoadingBooks
    else if filtered != [] then Grid(filtered)
    else EmptyMessage(if term != "" || availableOnly then NoMatchMessage else EmptyCatalogMessage)
  }

  /**
   * "No books available in the catalog." is shown exactly when the catalog
   * really is empty and no control is set; "No books found matching your
   * criteria." exactly when a control is set and nothing passes it.
   */
  lemma EmptyMessagesAreTruthful(books: seq<Book>, term: string, availableOnly: bool)
    ensures ViewOf(false, Filter(books, term, availableOnly), term, availableOnly) == EmptyMessage(EmptyCatalogMessage)
            <==> books == [] && term == "" && !availableOnly
    ensures ViewOf(false, Filter(books, term, availableOnly), term, availableOnly) == EmptyMessage(NoMatchMessage)
            <==> Filter(books, term, availableOnly) == [] && (term != "" || availableOnly)
  {
  }
}
