/**
 * Client code that drives the `/books` resource through the scenarios of
 * the integration tests, using nothing but the endpoints' contracts.
 */
module Scenarios {
  import opened JavaLang
  import opened AuthorModel
  import opened BookModel
  import opened BookRest

  /**
   * A book is created without authors; an author without an id cannot be
   * attached, the stored author can, once; a replace whose second entry
   * reuses the first one's id with another name is refused and leaves the
   * list as it was; the book is then found by its author and deleted.
   */
  method AuthorsOfOneBook() {
    var ann := Author(Some(5), "Ann");
    var service := new BookRestService(map[], map[5 := ann]);

    var created := service.CreateBook(Some(NewBook(Some("T"), Some("D"), Some("ISBN"), Some(100))), 1);
    assert created == Created(1);
    var fetched := service.GetBook(1);
    assert fetched == Ok(Book(Some(1), Some("T"), Some("D"), Some("ISBN"), Some(100), []));

    var r := service.AddAuthorToBook(1, Named("Ann"));
    assert r == BadRequest;
    r := service.AddAuthorToBook(1, ann);
    assert r == Ok(());
    assert service.books[1].authors == [] + [ann] == [ann];
    var listed := service.GetAuthorsOfBook(1);
    assert listed == Ok([ann]);
    r := service.AddAuthorToBook(1, ann);
    assert r == BadRequest;

    var stale := ann.SetName("Bob");
    r := service.UpdateAuthorsOfBook(1, [ann, stale]);
    assert !IsStored(service.authors, [ann, stale][1]);
    assert r == BadRequest;
    listed := service.GetAuthorsOfBook(1);
    assert listed == Ok([ann]);

    var byAuthor := service.GetBooksForAuthor(5);
    assert HasAuthorWithId(service.books[1], 5);
    assert service.books[1] in byAuthor.entity;
    var byNobody := service.GetBooksForAuthor(6);
    assert !HasAuthorWithId(service.books[1], 6);
    assert byNobody.entity == {};

    var deleted := service.DeleteBook(1);
    assert deleted == NoContent;
    deleted := service.DeleteBook(1);
    assert deleted == NotFound;
    assert service.authors == map[5 := ann];
  }

  /**
   * Creating a book whose id is already stored, or that lists an author
   * with no id, is refused, and one without a title fails at commit; a
   * book that carries an unused id is stored under it; updating a book that is not stored answers
   * 404 only when its authors all have ids.
   */
  method RefusedWrites() {
    var ann := Author(Some(5), "Ann");
    var stored := BookWithId(Some(1), Some("T"), None, None, None);
    var service := new BookRestService(map[1 := stored], map[5 := ann]);

    var r := service.CreateBook(Some(stored), 2);
    assert r == BadRequest;
    r := service.CreateBook(Some(NewBook(Some("U"), None, None, None).SetAuthors([Named("Ann")])), 2);
    assert !IsStored(service.authors, [Named("Ann")][0]);
    assert r == BadRequest;
    r := service.CreateBook(None, 2);
    assert r == BadRequest;
    r := service.CreateBook(Some(EmptyBook()), 2);
    assert r == InternalServerError;
    assert service.books == map[1 := stored];

    var missing := BookWithId(Some(9), Some("V"), None, None, None);
    r := service.UpdateBook(Some(missing.SetAuthors([Named("Ann")])));
    assert Named("Ann").id.None?;
    assert r == BadRequest;
    r := service.UpdateBook(Some(missing));
    assert r == NotFound;
    r := service.UpdateBook(Some(stored.SetAuthors([ann])));
    assert r == Ok(());
    assert service.books == map[1 := stored.SetAuthors([ann])];

    r := service.CreateBook(Some(missing), 2);
    assert r == Created(9);
    assert service.books == map[1 := stored.SetAuthors([ann]), 9 := missing];
  }

  /**
   * An update that lists a stored author's id under another name attaches
   * the stored author, so attaching that author again is refused; an
   * update that lists an unknown author id, or a title longer than its
   * column, fails at commit and changes nothing.
   */
  method StaleAuthorCopies() {
    var ann := Author(Some(5), "Ann");
    var stored := BookWithId(Some(1), Some("T"), None, None, None);
    var service := new BookRestService(map[1 := stored], map[5 := ann]);

    var r := service.UpdateBook(Some(stored.SetAuthors([Author(Some(7), "Eve")])));
    assert !KnownIds(service.authors, [Author(Some(7), "Eve")]);
    assert r == InternalServerError;
    var longTitle := seq(300, _ => 'a');
    r := service.UpdateBook(Some(stored.SetTitle(Some(longTitle))));
    assert r == InternalServerError;
    r := service.CreateBook(Some(NewBook(Some(longTitle), None, None, None)), 2);
    assert r == InternalServerError;
    assert service.books == map[1 := stored];

    r := service.UpdateBook(Some(stored.SetAuthors([ann.SetName("Bob")])));
    assert r == Ok(());
    assert MergedAuthors(service.authors, [ann.SetName("Bob")]) == [ann];
    assert service.books[1].authors == [ann];
    r := service.AddAuthorToBook(1, ann);
    assert r == BadRequest;
  }
}
