/**
 * The `Book` entity and the two named queries over stored books. Every
 * field but the author list may be null; the author list starts empty
 * and holds the book's authors in the order they were attached.
 */
module BookModel {
  import opened JavaLang
  import opened AuthorModel

  datatype Book = Book(
    id: Option<int64>,
    title: Option<string>,
    description: Option<string>,
    isbn: Option<string>,
    nbrPages: Option<int32>,
    authors: seq<Author>)
  {
    /** `setId`: only the id changes. */
    function SetId(newId: Option<int64>): (b: Book)
      ensures b.id == newId
      ensures b.title == title && b.description == description && b.isbn == isbn
      ensures b.nbrPages == nbrPages && b.authors == authors
    {
      this.(id := newId)
    }

    /** `setTitle`: only the title changes. */
    function SetTitle(newTitle: Option<string>): (b: Book)
      ensures b.title == newTitle
      ensures b.id == id && b.description == description && b.isbn == isbn
      ensures b.nbrPages == nbrPages && b.authors == authors
    {
      this.(title := newTitle)
    }

    /** `setDescription`: only the description changes. */
    function SetDescription(newDescription: Option<string>): (b: Book)
      ensures b.description == newDescription
      ensures b.id == id && b.title == title && b.isbn == isbn
      ensures b.nbrPages == nbrPages && b.authors == authors
    {
      this.(description := newDescription)
    }

    /** `setIsbn`: only the ISBN changes. */
    function SetIsbn(newIsbn: Option<string>): (b: Book)
      ensures b.isbn == newIsbn
      ensures b.id == id && b.title == title && b.description == description
      ensures b.nbrPages == nbrPages && b.authors == authors
    {
      this.(isbn := newIsbn)
    }

    /** `setNbOfPage`: only the page count changes. */
    function SetNbOfPage(nbOfPage: Option<int32>): (b: Book)
      ensures b.nbrPages == nbOfPage
      ensures b.id == id && b.title == title && b.description == description
      ensures b.isbn == isbn && b.authors == authors
    {
      this.(nbrPages := nbOfPage)
    }

    /** `setAuthors`: only the author list changes. */
    function SetAuthors(newAuthors: seq<Author>): (b: Book)
      ensures b.authors == newAuthors
      ensures b.id == id && b.title == title && b.description == description
      ensures b.isbn == isbn && b.nbrPages == nbrPages
    {
      this.(authors := newAuthors)
    }
  }

  /** The constructor `Book()`: every field null, no authors. */
  function EmptyBook(): (b: Book)
    ensures b.id == None && b.title == None && b.description == None
    ensures b.isbn == None && b.nbrPages == None && b.authors == []
  {
    Book(None, None, None, None, None, [])
  }

  /** The constructor `Book(title, description, isbn, nbrPages)`: no id, no authors. */
  function NewBook(title: Option<string>, description: Option<string>,
                   isbn: Option<string>, nbrPages: Option<int32>): (b: Book)
    ensures b.id == None && b.authors == []
    ensures b.title == title && b.description == description
    ensures b.isbn == isbn && b.nbrPages == nbrPages
  {
    Book(None, title, description, isbn, nbrPages, [])
  }

  /** The constructor `Book(id, title, description, isbn, nbrPages)`: the given fields, no authors. */
  function BookWithId(id: Option<int64>, title: Option<string>, description: Option<string>,
                      isbn: Option<string>, nbrPages: Option<int32>): (b: Book)
    ensures b.id == id && b.authors == []
    ensures b.title == title && b.description == description
    ensures b.isbn == isbn && b.nbrPages == nbrPages
  {
    Book(id, title, description, isbn, nbrPages, [])
  }

  /** The declared length of the description column. */
  const DescriptionLength: nat := 2000

  /** The length of a string column declared without one (the JPA default). */
  const DefaultLength: nat := 255

  /**
   * The column declarations of the book table: the title is not null, the
   * description holds at most `DescriptionLength` characters, and the title
   * and the ISBN, declared without a length, hold at most `DefaultLength`.
   * A commit that would store a book breaking them fails in the database.
   */
  predicate FitsColumns(b: Book) {
    && b.title.Some? && |b.title.value| <= DefaultLength
    && (b.description.None? || |b.description.value| <= DescriptionLength)
    && (b.isbn.None? || |b.isbn.value| <= DefaultLength)
  }

  /** Stored books are keyed by their own (non-null) id. */
  ghost predicate StoredUnderOwnId(books: map<int64, Book>) {
    forall k | k in books :: books[k].id == Some(k)
  }

  /** Some author of `b` carries the id `authorId`. */
  predicate HasAuthorWithId(b: Book, authorId: int64) {
    exists a | a in b.authors :: a.id == Some(authorId)
  }

  /** `Book.FIND_ALL` ("SELECT b FROM Book b"): every stored book, and nothing else. */
  function FindAll(books: map<int64, Book>): (r: set<Book>)
    ensures forall k | k in books :: books[k] in r
    ensures forall b | b in r :: exists k | k in books :: books[k] == b
  {
    books.Values
  }

  /**
   * `Book.FIND_ALL_BY_AUTHOR` ("SELECT DISTINCT b FROM Book b, IN (b.authors)
   * AS a WHERE a.id = :id"): the distinct stored books with an author of
   * that id. An author without books (or unknown) gives the empty set.
   */
  function FindAllByAuthor(books: map<int64, Book>, authorId: int64): (r: set<Book>)
    ensures r <= FindAll(books)
    ensures forall k | k in books :: books[k] in r <==> HasAuthorWithId(books[k], authorId)
    ensures (forall k | k in books :: !HasAuthorWithId(books[k], authorId)) ==> r == {}
  {
    set b | b in books.Values && HasAuthorWithId(b, authorId)
  }

  /**
   * Removing a book from a store keyed by own ids removes exactly that
   * book from `FIND_ALL`: no other stored book has the same value.
   */
  lemma FindAllAfterRemove(books: map<int64, Book>, id: int64)
    requires StoredUnderOwnId(books) && id in books
    ensures FindAll(books - {id}) == FindAll(books) - {books[id]}
  {
    var rest := books - {id};
    forall b | b in FindAll(books) - {books[id]}
      ensures b in FindAll(rest)
    {
      var k :| k in books && books[k] == b;
      assert k != id;
      assert rest[k] == b;
    }
    forall b | b in FindAll(rest)
      ensures b != books[id]
    {
      var k :| k in rest && rest[k] == b;
      assert b.id == Some(k);
    }
  }
}
