/**
 * The `/books` resource: create, update, read and delete books, and
 * manage the many-to-many association between a book and its authors.
 *
 * The database is two maps, book id to book and author id to author.
 * Each endpoint that writes works on a copy of the row it changes and
 * installs it in the map only where the source commits its transaction;
 * every early return or thrown `BadRequestException` leaves both maps as
 * they were.
 */
module BookRest {
  import opened JavaLang
  import opened AuthorModel
  import opened BookModel

  /**
   * The HTTP outcome of an endpoint: 200 with an entity, 201 with the id
   * the location header points at, 204, 400 (a thrown
   * `BadRequestException` included), 404, or 500 for a commit the
   * database refuses.
   */
  datatype Response<T> =
    | Ok(entity: T) | Created(location: int64) | NoContent
    | BadRequest | NotFound | InternalServerError

  /** Stored authors are keyed by their own (non-null) id. */
  ghost predicate AuthorsStoredUnderOwnId(authors: map<int64, Author>) {
    forall k | k in authors :: authors[k].id == Some(k)
  }

  /**
   * The check of `confirmAuthorExistsInDatabase` on an author whose id is
   * set: the store holds an author under that id, and that stored author
   * `equals` the given one (same id, same name).
   */
  predicate IsStored(authors: map<int64, Author>, a: Author) {
    a.id.Some? && a.id.value in authors && authors[a.id.value] == a
  }

  /** Every listed author is stored exactly as listed. */
  predicate AllStored(authors: map<int64, Author>, list: seq<Author>) {
    forall i | 0 <= i < |list| :: IsStored(authors, list[i])
  }

  /** No two listed authors share an id. */
  predicate NoDuplicateIds(list: seq<Author>) {
    forall i, j | 0 <= i < j < |list| :: list[i].id != list[j].id
  }

  /** The association invariant for one book: authors stored as listed, no id twice. */
  predicate WellAttached(authors: map<int64, Author>, list: seq<Author>) {
    AllStored(authors, list) && NoDuplicateIds(list)
  }

  /**
   * The checks of the helper `addAuthorToBook(book, author, em)`, in the
   * source's order: the id is set, the book's list does not already
   * `contain` the author, and the author is stored as given.
   */
  predicate CanAdd(authors: map<int64, Author>, list: seq<Author>, a: Author) {
    a.id.Some? && !Contains(list, a) && IsStored(authors, a)
  }

  /**
   * Adding the authors of `list` one after another to an empty list
   * passes every check: each one can be added to the authors before it.
   */
  predicate AddsOneByOne(authors: map<int64, Author>, list: seq<Author>) {
    forall i | 0 <= i < |list| :: CanAdd(authors, list[..i], list[i])
  }

  /**
   * Adding a list one by one succeeds exactly when every author in it is
   * stored as given and no id occurs twice: the replaced author list
   * of `updateAuthorsOfBook` always satisfies the association invariant,
   * and any list that satisfies it is accepted.
   */
  lemma AddsOneByOneIffWellAttached(authors: map<int64, Author>, list: seq<Author>)
    ensures AddsOneByOne(authors, list) <==> WellAttached(authors, list)
  {
    if AddsOneByOne(authors, list) {
      forall i, j | 0 <= i < j < |list|
        ensures list[i].id != list[j].id
      {
        assert CanAdd(authors, list[..j], list[j]);
        assert CanAdd(authors, list[..i], list[i]);
        assert list[..j][i] == list[i];
      }
    }
    if WellAttached(authors, list) {
      forall i | 0 <= i < |list|
        ensures CanAdd(authors, list[..i], list[i])
      {
        assert IsStored(authors, list[i]);
      }
    }
  }

  /**
   * `addAuthorToBook` keeps the association invariant of the book it
   * changes: appending an author that passes the checks to a well-attached
   * list gives a well-attached list.
   */
  lemma AddKeepsWellAttached(authors: map<int64, Author>, list: seq<Author>, a: Author)
    requires WellAttached(authors, list) && CanAdd(authors, list, a)
    ensures WellAttached(authors, list + [a])
  {
    var list' := list + [a];
    forall i, j | 0 <= i < j < |list'|
      ensures list'[i].id != list'[j].id
    {
      if j == |list| {
        assert list'[i] == list[i];
      }
    }
  }

  /** Each step of the one-by-one loop extends a passing prefix by one author. */
  lemma AddsOneByOneStep(authors: map<int64, Author>, list: seq<Author>, i: nat)
    requires i < |list|
    requires AddsOneByOne(authors, list[..i])
    requires CanAdd(authors, list[..i], list[i])
    ensures AddsOneByOne(authors, list[..i + 1])
  {
    var p := list[..i + 1];
    forall j | 0 <= j < |p|
      ensures CanAdd(authors, p[..j], p[j])
    {
      assert p[..j] == list[..i][..j] || j == i;
      if j < i {
        assert list[..i][j] == p[j];
      } else {
        assert p[..j] == list[..i];
      }
    }
  }

  /**
   * Every listed author has an id under which an author is stored: the
   * references that `em.merge` can resolve.
   */
  predicate KnownIds(authors: map<int64, Author>, list: seq<Author>) {
    forall i | 0 <= i < |list| :: list[i].id.Some? && list[i].id.value in authors
  }

  /**
   * The author list `em.merge` gives the managed book. The association is
   * not cascaded, so each listed author is replaced by the stored author
   * with its id, whatever name the payload carried.
   */
  function MergedAuthors(authors: map<int64, Author>, list: seq<Author>): (r: seq<Author>)
    requires KnownIds(authors, list)
    ensures |r| == |list|
    ensures forall i | 0 <= i < |r| :: r[i] == authors[list[i].id.value]
  {
    if |list| == 0 then [] else [authors[list[0].id.value]] + MergedAuthors(authors, list[1..])
  }

  /**
   * A merged list keeps the payload's ids, in order, and holds only stored
   * authors exactly as stored.
   */
  lemma MergedAuthorsStored(authors: map<int64, Author>, list: seq<Author>)
    requires AuthorsStoredUnderOwnId(authors) && KnownIds(authors, list)
    ensures AllStored(authors, MergedAuthors(authors, list))
    ensures forall i | 0 <= i < |list| :: MergedAuthors(authors, list)[i].id == list[i].id
  {
  }

  /**
   * Merging changes nothing exactly when every listed author is already
   * stored as given: the payload's copies are kept only when they match.
   */
  lemma MergedAuthorsOfStored(authors: map<int64, Author>, list: seq<Author>)
    requires KnownIds(authors, list)
    ensures MergedAuthors(authors, list) == list <==> AllStored(authors, list)
  {
    if MergedAuthors(authors, list) == list {
      forall i | 0 <= i < |list|
        ensures IsStored(authors, list[i])
      {
        assert MergedAuthors(authors, list)[i] == list[i];
      }
    }
  }

  class BookRestService {
    /** The `Book` table, by id. */
    var books: map<int64, Book>
    /** The `Author` table, by id. */
    var authors: map<int64, Author>

    ghost predicate Valid()
      reads this
    {
      && StoredUnderOwnId(books) && AuthorsStoredUnderOwnId(authors)
      && (forall k | k in books :: FitsColumns(books[k]))
      && (forall k | k in books :: AllStored(authors, books[k].authors))
    }

    /** A service over a database that already holds these rows. */
    constructor (books0: map<int64, Book>, authors0: map<int64, Author>)
      requires StoredUnderOwnId(books0) && AuthorsStoredUnderOwnId(authors0)
      requires forall k | k in books0 :: FitsColumns(books0[k])
      requires forall k | k in books0 :: AllStored(authors0, books0[k].authors)
      ensures Valid() && books == books0 && authors == authors0
    {
      books := books0;
      authors := authors0;
    }

    /** `doesBookExistInDatabase`: false for a null id, else whether a book is stored under it. */
    method DoesBookExistInDatabase(id: Option<int64>) returns (stored: bool)
      ensures stored <==> id.Some? && id.value in books
    {
      if id.None? {
        return false;
      }
      stored := id.value in books;
    }

    /**
     * `confirmAuthorExistsInDatabase` (both overloads): looks the author up
     * by id and compares with `equals`; a missing or differing author
     * throws `BadRequestException`, reported here as `false`. Callers have
     * checked that the id is set.
     */
    method ConfirmAuthorExistsInDatabase(author: Author) returns (confirmed: bool)
      requires Valid() && author.id.Some?
      ensures confirmed <==> IsStored(authors, author)
    {
      var id := author.id.value;
      if id !in authors {
        return false;
      }
      var authorInDB := authors[id];
      confirmed := authorInDB.Equals(AnAuthor(author));
    }

    /**
     * The helper `addAuthorToBook(book, author, em)`, run inside the
     * caller's transaction on the caller's copy of the book: rejects an
     * author with a null id, one the list already contains, or one not
     * stored as given; otherwise appends the author at the end.
     */
    method AddAuthorToManagedBook(book: Book, author: Author) returns (r: Response<()>, updated: Book)
      requires Valid()
      ensures r.Ok? <==> CanAdd(authors, book.authors, author)
      ensures r == Ok(()) || r == BadRequest
      ensures r == BadRequest ==> updated == book
      ensures r.Ok? ==> updated == book.SetAuthors(book.authors + [author])
    {
      updated := book;
      if author.id.None? {
        return BadRequest, updated;
      }
      if Contains(book.authors, author) {
        return BadRequest, updated;
      }
      var confirmed := ConfirmAuthorExistsInDatabase(author);
      if !confirmed {
        return BadRequest, updated;
      }
      updated := book.SetAuthors(book.authors + [author]);
      r := Ok(());
    }

    /**
     * POST /books (`createBook`). A null book, or one whose id is already a
     * stored book's id, is rejected; so is any listed author whose id is
     * null, or who is not stored under that id with that name. All checks
     * come before the single write. The book keeps an id it already
     * carries; otherwise the store generates one (`generatedId`). The
     * answer is 201 with that id, or 500 with nothing written when the
     * book breaks the table's column declarations.
     */
    method CreateBook(book: Option<Book>, generatedId: int64) returns (r: Response<()>)
      requires Valid() && generatedId !in books
      modifies this
      ensures Valid() && authors == old(authors)
      ensures r == BadRequest <==>
        book.None? ||
        (book.value.id.Some? && book.value.id.value in old(books)) ||
        !AllStored(authors, book.value.authors)
      ensures r == InternalServerError <==> r != BadRequest && !FitsColumns(book.value)
      ensures r.BadRequest? || r.InternalServerError? ==> books == old(books)
      ensures !r.BadRequest? && !r.InternalServerError? ==>
        var id := if book.value.id.Some? then book.value.id.value else generatedId;
        r == Created(id) &&
        id !in old(books) &&
        books == old(books)[id := book.value.SetId(Some(id))] &&
        AllStored(authors, books[id].authors)
    {
      if book.None? {
        return BadRequest;
      }
      var b := book.value;
      var stored := DoesBookExistInDatabase(b.id);
      if stored {
        return BadRequest;
      }
      var i := 0;
      while i < |b.authors|
        invariant 0 <= i <= |b.authors|
        invariant books == old(books) && authors == old(authors)
        invariant forall j | 0 <= j < i :: IsStored(authors, b.authors[j])
      {
        var authorOfBook := b.authors[i];
        if authorOfBook.id.None? {
          return BadRequest;
        }
        var confirmed := ConfirmAuthorExistsInDatabase(authorOfBook);
        if !confirmed {
          return BadRequest;
        }
        i := i + 1;
      }
      // tx.commit(): the database refuses a row that breaks its columns
      if !FitsColumns(b) {
        return InternalServerError;
      }
      var id := if b.id.Some? then b.id.value else generatedId;
      books := books[id := b.SetId(Some(id))];
      r := Created(id);
    }

    /**
     * PUT /books (`updateBook`). A null book, or any listed author with a
     * null id, is a bad request; only after that is a book whose id is null
     * or not stored reported as not found. Then `em.merge` resolves each
     * listed author by id alone, without comparing names: an id with no
     * stored author, or a book that breaks the table's column declarations,
     * fails with 500 and nothing is written. Otherwise the stored book is
     * replaced by the payload with its authors resolved to the stored ones,
     * and nothing else changes.
     */
    method UpdateBook(book: Option<Book>) returns (r: Response<()>)
      requires Valid()
      modifies this
      ensures Valid() && authors == old(authors)
      ensures r == BadRequest <==>
        book.None? || exists i | 0 <= i < |book.value.authors| :: book.value.authors[i].id.None?
      ensures r == NotFound <==>
        r != BadRequest && !(book.value.id.Some? && book.value.id.value in old(books))
      ensures r == InternalServerError <==>
        r != BadRequest && r != NotFound &&
        (!KnownIds(authors, book.value.authors) || !FitsColumns(book.value))
      ensures r.BadRequest? || r.NotFound? || r.InternalServerError? || r == Ok(())
      ensures r == Ok(()) ==>
        books == old(books)[book.value.id.value :=
                            book.value.SetAuthors(MergedAuthors(authors, book.value.authors))]
      ensures r == Ok(()) && AllStored(authors, book.value.authors) ==>
        books == old(books)[book.value.id.value := book.value]
      ensures r != Ok(()) ==> books == old(books)
    {
      if book.None? {
        return BadRequest;
      }
      var b := book.value;
      var i := 0;
      while i < |b.authors|
        invariant 0 <= i <= |b.authors|
        invariant books == old(books) && authors == old(authors)
        invariant forall j | 0 <= j < i :: b.authors[j].id.Some?
      {
        if b.authors[i].id.None? {
          return BadRequest;
        }
        i := i + 1;
      }
      var stored := DoesBookExistInDatabase(b.id);
      if !stored {
        return NotFound;
      }
      // em.merge: an author reference with no stored author cannot be resolved
      if !KnownIds(authors, b.authors) {
        return InternalServerError;
      }
      // tx.commit(): the database refuses a row that breaks its columns
      if !FitsColumns(b) {
        return InternalServerError;
      }
      var merged := MergedAuthors(authors, b.authors);
      MergedAuthorsStored(authors, b.authors);
      MergedAuthorsOfStored(authors, b.authors);
      books := books[b.id.value := b.SetAuthors(merged)];
      r := Ok(());
    }

    /** GET /books (`getAllBooks`): every stored book, never an error. */
    method GetAllBooks() returns (r: Response<set<Book>>)
      ensures r.Ok?
      ensures forall k | k in books :: books[k] in r.entity
      ensures forall b | b in r.entity :: exists k | k in books :: books[k] == b
    {
      r := Ok(FindAll(books));
    }

    /** GET /books/{id} (`getBook`): the stored book, or 404. */
    method GetBook(id: int64) returns (r: Response<Book>)
      requires Valid()
      ensures r.Ok? || r.NotFound?
      ensures r.Ok? <==> id in books
      ensures r.Ok? ==> r.entity == books[id] && r.entity.id == Some(id)
    {
      if id !in books {
        return NotFound;
      }
      r := Ok(books[id]);
    }

    /**
     * DELETE /books/{id} (`deleteBook`): 404 when no book has that id;
     * otherwise exactly that book is removed and 204 is answered. No author
     * is removed.
     */
    method DeleteBook(id: int64) returns (r: Response<()>)
      requires Valid()
      modifies this
      ensures Valid() && authors == old(authors)
      ensures r == NotFound <==> id !in old(books)
      ensures r.NotFound? || r.NoContent?
      ensures r.NotFound? ==> books == old(books)
      ensures r.NoContent? ==> books == old(books) - {id} && FindAll(books) == FindAll(old(books)) - {old(books)[id]}
    {
      if id !in books {
        return NotFound;
      }
      FindAllAfterRemove(books, id);
      books := books - {id};
      r := NoContent;
    }

    /**
     * GET /books/byauthor/{author_id} (`getBooksForAuthor`): the distinct
     * books that list an author with that id; possibly empty, never an
     * error.
     */
    method GetBooksForAuthor(authorId: int64) returns (r: Response<set<Book>>)
      ensures r.Ok?
      ensures forall k | k in books :: books[k] in r.entity <==> HasAuthorWithId(books[k], authorId)
      ensures forall b | b in r.entity :: exists k | k in books :: books[k] == b
    {
      r := Ok(FindAllByAuthor(books, authorId));
    }

    /** GET /books/{book_id}/authors (`getAuthorsOfBook`): the book's author list in order, or 404. */
    method GetAuthorsOfBook(bookId: int64) returns (r: Response<seq<Author>>)
      ensures r.Ok? || r.NotFound?
      ensures r.Ok? <==> bookId in books
      ensures r.Ok? ==> r.entity == books[bookId].authors
    {
      if bookId !in books {
        return NotFound;
      }
      r := Ok(books[bookId].authors);
    }

    /**
     * POST /books/{book_id}/authors (`addAuthorToBook`): 404 for an absent
     * book; otherwise the helper's checks, and on success the author is
     * appended and committed. A failed check commits nothing.
     */
    method AddAuthorToBook(bookId: int64, author: Author) returns (r: Response<()>)
      requires Valid()
      modifies this
      ensures Valid() && authors == old(authors)
      ensures r.NotFound? <==> bookId !in old(books)
      ensures r.NotFound? || r.BadRequest? || r == Ok(())
      ensures bookId in old(books) ==>
        (r.Ok? <==> CanAdd(authors, old(books)[bookId].authors, author))
      ensures !r.Ok? ==> books == old(books)
      ensures r.Ok? ==>
        books == old(books)[bookId := old(books)[bookId].SetAuthors(old(books)[bookId].authors + [author])]
      ensures r.Ok? && WellAttached(authors, old(books)[bookId].authors) ==>
        WellAttached(authors, books[bookId].authors)
    {
      if bookId !in books {
        return NotFound;
      }
      var book := books[bookId];
      var updated;
      r, updated := AddAuthorToManagedBook(book, author);
      if r.Ok? {
        books := books[bookId := updated];
        if WellAttached(authors, book.authors) {
          AddKeepsWellAttached(authors, book.authors, author);
        }
      }
    }

    /**
     * PUT /books/{book_id}/authors (`updateAuthorsOfBook`): 404 for an
     * absent book. Otherwise the book's list is cleared and each given
     * author is added in order through the helper's checks; the first
     * failure answers 400 and commits nothing. When all pass, the stored
     * list becomes exactly the given sequence. An empty sequence leaves the
     * response null, which is answered as 204, and still commits the
     * cleared list.
     */
    method UpdateAuthorsOfBook(bookId: int64, newAuthors: seq<Author>) returns (r: Response<()>)
      requires Valid()
      modifies this
      ensures Valid() && authors == old(authors)
      ensures r.NotFound? <==> bookId !in old(books)
      ensures r.BadRequest? <==> bookId in old(books) && !WellAttached(authors, newAuthors)
      ensures r.NotFound? || r.BadRequest? ==> books == old(books)
      ensures !r.NotFound? && !r.BadRequest? ==>
        r == (if |newAuthors| == 0 then NoContent else Ok(())) &&
        books == old(books)[bookId := old(books)[bookId].SetAuthors(newAuthors)] &&
        WellAttached(authors, books[bookId].authors)
    {
      if bookId !in books {
        return NotFound;
      }
      var book := books[bookId].SetAuthors([]);
      r := NoContent;
      var i := 0;
      while i < |newAuthors|
        invariant 0 <= i <= |newAuthors|
        invariant books == old(books) && authors == old(authors)
        invariant book == old(books)[bookId].SetAuthors(newAuthors[..i])
        invariant AddsOneByOne(authors, newAuthors[..i])
        invariant r == (if i == 0 then NoContent else Ok(()))
      {
        var step;
        step, book := AddAuthorToManagedBook(book, newAuthors[i]);
        if !step.Ok? {
          assert !AddsOneByOne(authors, newAuthors) by {
            assert !CanAdd(authors, newAuthors[..i], newAuthors[i]);
          }
          AddsOneByOneIffWellAttached(authors, newAuthors);
          return step;
        }
        AddsOneByOneStep(authors, newAuthors, i);
        r := step;
        i := i + 1;
      }
      assert newAuthors[..i] == newAuthors;
      AddsOneByOneIffWellAttached(authors, newAuthors);
      books := books[bookId := book];
    }
  }
}
