# Library books and authors: a Dafny model of the `/books` resource

This project models the book service of a small library web application.
Books and authors are stored in a relational database and exposed over HTTP.
The model covers the part with real rules: the `/books` resource
(`BookRestService`) and the two entities it works on, `Author` and `Book`.

- **Entities** (`author.dfy`, `book.dfy`). `Author` and `Book` are values.
  A Java `null` is `None`. `Long` and `Integer` are the 64- and 32-bit
  newtypes `int64` and `int32`. Each Java setter is a member function that
  returns the updated value, and its contract says that only its own field
  changed. Each constructor is a function whose result has an empty author
  list.
  - `Author.equals` is `Equals`. Its argument is `AnAuthor(a)`, or
    `NotAnAuthor` for null or an object of another class.
  - `Author.compareTo` is `CompareTo`, built on `String.compareTo`
    (`CompareStrings` in `java_lang.dfy`). It is proved to be the
    lexicographic order on names, antisymmetric and transitive.
  - The two named queries of `Book` are functions over the book table:
    `FindAll` and `FindAllByAuthor`.
- **Store and endpoints** (`book_rest_service.dfy`). The database is the
  class `BookRestService`, which holds two maps: `books` (id to book) and
  `authors` (id to author). Each endpoint is a method that returns a
  `Response`: `Ok(entity)`, `Created(id)`, `NoContent`, `BadRequest`,
  `NotFound` or `InternalServerError`.
  - A thrown `BadRequestException` is a `BadRequest` result.
  - The book table declares `title` not null and `description` at most
    2000 characters. `title` and `isbn`, declared without a length, get
    the default of 255 characters (`FitsColumns`). A commit that would
    store a book breaking any of these fails, which gives
    `InternalServerError` with nothing written.
  - A transaction is modelled as a local copy of the book row. The copy is
    written into the map only where the source calls `tx.commit()`, so
    every failure leaves both maps unchanged.
  - The association invariant is `WellAttached`: every listed author is
    stored exactly as listed, and no id appears twice. `addAuthorToBook`
    preserves it. `updateAuthorsOfBook` succeeds exactly when the new list
    satisfies it; the proof goes through `AddsOneByOneIffWellAttached`.
- **Scenarios** (`scenarios.dfy`). Client methods replay the flows of the
  integration tests using only the endpoints' contracts. One flow is:
  attach an author, refuse to attach it twice, and refuse a replace list
  whose second entry reuses an id under another name. After the refusal,
  the author list is proved unchanged.

The model keeps these behaviours of the code, which a reader of the service's
description might not expect:
- `updateBook` checks only that every listed author has an id, and its
  null-id check comes before its not-found check. It does not compare
  names: `em.merge` resolves each listed author by id to the stored
  author (`MergedAuthors`), so a stale name is replaced by the stored one
  and an unknown id makes the commit fail with `InternalServerError`.
  Every stored book therefore lists only stored authors, which `Valid()`
  states.
- `createBook` rejects a payload id only when a book is already stored
  under it. A book that carries an id that is not stored is persisted
  under that id. Only a book without an id gets the generated id
  (`generatedId`).
- `createBook` and `updateBook` do not reject an author who is listed
  twice. Only the association endpoints do.
- In `updateAuthorsOfBook`, an empty author list leaves the response
  `null`. JAX-RS answers a null response with 204 No Content, and the
  cleared list is committed.

## Model

| member | source | states |
|---|---|---|
| `JavaLang.CompareStrings` | src/main/java/com/cybercom/librarytest/model/Author.java:61-64 | the `String.compareTo` that `compareTo` delegates to is zero exactly for equal strings |
| `JavaLang.CompareStringsIsLexicographic` | src/main/java/com/cybercom/librarytest/model/Author.java:61-64 | `String.compareTo` is negative exactly when the first string precedes the second lexicographically (a proper prefix, or a smaller first differing character) |
| `JavaLang.CompareStringsAntisymmetric` | src/main/java/com/cybercom/librarytest/model/Author.java:61-64 | swapping the strings negates `String.compareTo` |
| `JavaLang.CompareStringsTransitive` | src/main/java/com/cybercom/librarytest/model/Author.java:61-64 | the order given by `String.compareTo` is transitive |
| `AuthorModel.Author.SetId` | src/main/java/com/cybercom/librarytest/model/Author.java:40-42 | `setId` changes the id only; the name is kept |
| `AuthorModel.Author.SetName` | src/main/java/com/cybercom/librarytest/model/Author.java:48-50 | `setName` changes the name only; the id is kept |
| `AuthorModel.Author.Equals` | src/main/java/com/cybercom/librarytest/model/Author.java:52-59 | needs a non-null receiver id; false for null or a non-Author; otherwise true exactly when the other author has the same id and the same name, i.e. is the same value |
| `AuthorModel.Author.CompareTo` | src/main/java/com/cybercom/librarytest/model/Author.java:61-64 | zero exactly for equal names and negative exactly when this name precedes the other lexicographically; the ids play no part |
| `AuthorModel.CompareToAntisymmetric` | src/main/java/com/cybercom/librarytest/model/Author.java:61-64 | swapping two authors negates `compareTo` |
| `AuthorModel.CompareToTransitive` | src/main/java/com/cybercom/librarytest/model/Author.java:61-64 | ordering authors by `compareTo` is transitive |
| `AuthorModel.Named` | src/main/java/com/cybercom/librarytest/model/Author.java:32-34 | `Author(name)` has a null id and the given name |
| `AuthorModel.Contains` | src/main/java/com/cybercom/librarytest/rest/BookRestService.java:238 | `getAuthors().contains(author)`, which calls `author.equals` on each element, finds the author exactly when the same value is in the list |
| `BookModel.Book.SetId` | src/main/java/com/cybercom/librarytest/model/Book.java:67-69 | `setId` changes the id and no other field |
| `BookModel.Book.SetTitle` | src/main/java/com/cybercom/librarytest/model/Book.java:75-77 | `setTitle` changes the title and no other field |
| `BookModel.Book.SetDescription` | src/main/java/com/cybercom/librarytest/model/Book.java:83-85 | `setDescription` changes the description and no other field |
| `BookModel.Book.SetIsbn` | src/main/java/com/cybercom/librarytest/model/Book.java:91-93 | `setIsbn` changes the ISBN and no other field |
| `BookModel.Book.SetNbOfPage` | src/main/java/com/cybercom/librarytest/model/Book.java:99-101 | `setNbOfPage` changes the page count and no other field |
| `BookModel.Book.SetAuthors` | src/main/java/com/cybercom/librarytest/model/Book.java:108-110 | `setAuthors` changes the author list and no other field |
| `BookModel.EmptyBook` | src/main/java/com/cybercom/librarytest/model/Book.java:46-48 | `Book()` has every field null and an empty (non-null) author list |
| `BookModel.NewBook` | src/main/java/com/cybercom/librarytest/model/Book.java:50-52 | `Book(title, description, isbn, nbrPages)` has a null id, the four given fields and an empty author list |
| `BookModel.BookWithId` | src/main/java/com/cybercom/librarytest/model/Book.java:54-61 | `Book(id, ...)` has the five given fields and an empty author list |
| `BookModel.FindAll` | src/main/java/com/cybercom/librarytest/model/Book.java:17-20 | `FIND_ALL` returns every stored book and nothing else |
| `BookModel.FindAllByAuthor` | src/main/java/com/cybercom/librarytest/model/Book.java:21-26 | `FIND_ALL_BY_AUTHOR` returns the distinct stored books that have an author with the given id; it is empty when no book does |
| `BookModel.FindAllAfterRemove` | src/main/java/com/cybercom/librarytest/rest/BookRestService.java:131-141 | with books keyed by their own ids, removing one id removes exactly that book from `FIND_ALL` |
| `BookRest.MergedAuthors` | src/main/java/com/cybercom/librarytest/rest/BookRestService.java:91 | `em.merge` over the non-cascaded author association gives a list of the same length whose every entry is the stored author with the listed id |
| `BookRest.MergedAuthorsStored` | src/main/java/com/cybercom/librarytest/rest/BookRestService.java:91 | the merged list keeps the listed ids in order and holds only authors stored exactly as stored |
| `BookRest.MergedAuthorsOfStored` | src/main/java/com/cybercom/librarytest/rest/BookRestService.java:91 | merging leaves the list unchanged exactly when every listed author is already stored as given |
| `BookRest.AddsOneByOneIffWellAttached` | src/main/java/com/cybercom/librarytest/rest/BookRestService.java:214-221 | adding a list of authors one at a time, through the helper's checks, to a cleared list succeeds exactly when every author is stored as given and no id occurs twice |
| `BookRest.AddKeepsWellAttached` | src/main/java/com/cybercom/librarytest/rest/BookRestService.java:233-244 | appending an author that passes the helper's checks keeps the list free of duplicate ids, with every author stored as listed |
| `BookRest.AddsOneByOneStep` | src/main/java/com/cybercom/librarytest/rest/BookRestService.java:215-221 | one successful add extends a prefix that passed all checks by one author |
| `BookRest.BookRestService.DoesBookExistInDatabase` | src/main/java/com/cybercom/librarytest/rest/BookRestService.java:265-273 | false for a null id, otherwise whether a book is stored under that id |
| `BookRest.BookRestService.ConfirmAuthorExistsInDatabase` | src/main/java/com/cybercom/librarytest/rest/BookRestService.java:246-263 | succeeds exactly when an author is stored under the given id and `equals` the given author (same id and name) |
| `BookRest.BookRestService.AddAuthorToManagedBook` | src/main/java/com/cybercom/librarytest/rest/BookRestService.java:233-244 | `BadRequest` for a null id, an author already in the list, or one not stored as given, with the book untouched; otherwise `Ok` with the author appended at the end |
| `BookRest.BookRestService.CreateBook` | src/main/java/com/cybercom/librarytest/rest/BookRestService.java:46-67 | `BadRequest` with no write exactly when the book is null, its id is already stored, or some author has a null id or is not stored with that id and name; after those checks, `InternalServerError` with no write exactly when the book breaks the column declarations (title not null and at most 255 characters, description at most 2000, ISBN at most 255); otherwise `Created` with the book's own id (or the generated one when it has none), and that book is stored under it with only stored authors attached |
| `BookRest.BookRestService.UpdateBook` | src/main/java/com/cybercom/librarytest/rest/BookRestService.java:74-95 | `BadRequest` exactly for a null book or an author with a null id, checked before existence; then `NotFound` with no write for a null or unstored id; then `InternalServerError` with no write exactly when some listed author id has no stored author or the book breaks the column declarations (title not null and at most 255 characters, description at most 2000, ISBN at most 255); otherwise the stored book is replaced by the payload with each author resolved to the stored author of that id (the payload itself when its authors are stored as given), and no other book changes |
| `BookRest.BookRestService.GetAllBooks` | src/main/java/com/cybercom/librarytest/rest/BookRestService.java:100-107 | always `Ok`, with exactly the stored books |
| `BookRest.BookRestService.GetBook` | src/main/java/com/cybercom/librarytest/rest/BookRestService.java:113-123 | `Ok` with the stored book exactly when one is stored under the id, otherwise `NotFound` |
| `BookRest.BookRestService.DeleteBook` | src/main/java/com/cybercom/librarytest/rest/BookRestService.java:129-142 | `NotFound` with no write exactly when the id is absent; otherwise `NoContent`, exactly that book is removed (also from `FIND_ALL`), and the authors are untouched |
| `BookRest.BookRestService.GetBooksForAuthor` | src/main/java/com/cybercom/librarytest/rest/BookRestService.java:149-157 | always `Ok`, possibly empty: a stored book is returned exactly when it lists an author with that id |
| `BookRest.BookRestService.GetAuthorsOfBook` | src/main/java/com/cybercom/librarytest/rest/BookRestService.java:164-174 | `Ok` with the book's author list in order when the book is stored, otherwise `NotFound` |
| `BookRest.BookRestService.AddAuthorToBook` | src/main/java/com/cybercom/librarytest/rest/BookRestService.java:182-195 | `NotFound` for an absent book; otherwise `Ok` exactly when the helper's checks pass, in which case the author is appended and committed (keeping the association invariant); on any failure nothing changes |
| `BookRest.BookRestService.UpdateAuthorsOfBook` | src/main/java/com/cybercom/librarytest/rest/BookRestService.java:203-225 | `NotFound` for an absent book; `BadRequest` with nothing committed exactly when some author is not stored as given or two share an id; otherwise the stored list becomes exactly the given sequence in order (`NoContent` for an empty one) and nothing else changes |

## Left out

- HTTP transport is not modelled: `@Path` routing, `UriInfo` and `Response` building. A created resource's location is reported by its id.
- JPA machinery is not modelled: `EntityManager`, `EntityTransaction`, `em.close()` (some endpoints leave it open) and lazy collections. Commit and rollback are modelled by installing a copy, or not installing it.
- `@GeneratedValue` is not modelled. The id generator's choice is the parameter `generatedId`, and the only thing required of it is that it is not already used by a stored book.
- CreateBook: keeps an id that the payload already carries, as the persistence provider the application is seeded with does (`TestData.java` persists authors built with preset ids). A provider that refuses to persist an entity whose generated id is already set would answer a server error instead; that provider-specific behaviour is not modelled.
- CreateBook, UpdateBook: the 2000-character limit on `description` and the 255-character limit on `title` and `isbn` count Dafny characters, while the database counts Java `char`s (UTF-16 code units). A database that silently truncates over-long values, instead of refusing them, is not modelled.
- JAXB marshalling and the field-order annotations are not modelled. The `Books` and `Authors` envelope classes are not part of this model. Collection results are returned as a `set` or a `seq`.
- The `System.out.println` log line in the helper `addAuthorToBook` is left out. It is side output only.
- A null `Author` payload, a null element in an author list, a null `Authors` body and `setAuthors(null)` are not modelled. In the source, each raises a `NullPointerException`, which gives a server error with nothing committed. The model's sequences cannot hold null.
- Author names are modelled as non-null. The name column is declared non-null, so the no-argument constructor `Author()` (null name) is not modelled. Neither is the `NullPointerException` that `equals` would raise on a null receiver name.
- The association is stored as the author values that were attached, whereas the database keeps author ids. The two agree because every attachment stores the stored author: `createBook`, `addAuthorToBook` and `updateAuthorsOfBook` require an exact match, and `updateBook` resolves each id to the stored author. Since the author table never changes here, the stored values stay current.
- UpdateBook: the point at which an unknown author id fails (inside `em.merge` or at `tx.commit()`) is not distinguished; both give `InternalServerError` with nothing written.
- Author create/update/delete endpoints are not part of this model, so the author table never changes here.
- Getters are not modelled as members; they are the datatypes' field selectors.
- CompareStrings: compares Dafny characters (Unicode scalar values), while Java compares UTF-16 code units. The two differ only for characters outside the Basic Multilingual Plane.
- GetAllBooks: returns the set of stored books. The order of the JPA result list is unspecified and is not modelled.
- Concurrent requests are not modelled, because the source does not coordinate them.
