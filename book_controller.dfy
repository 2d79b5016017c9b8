/** The REST surface over the store: each endpoint delegates to the service
    and turns its result into a status code and a response body. */
module Controller {
  import opened Nullable
  import opened Books
  import opened BookTable
  import opened Service

  const OK: nat := 200
  const CREATED: nat := 201
  const NOT_FOUND: nat := 404

  const NotFoundError: string := "Book not found"
  const DeletedMessage: string := "Book deleted successfully"
  const HelloMessage: string := "Hello from BookAPI!"
  const RunningStatus: string := "API is running"

  /** The response bodies the endpoints produce: a book, a list of books, or
      one of the fixed-shape maps. */
  datatype Body =
    | BookBody(book: Book)
    | BookListBody(books: seq<Book>)
    | ErrorBody(error: string, id: int)
    | MessageBody(message: string, id: int)
    | StatsBody(totalBooks: int, availableBooks: int, unavailableBooks: int)
    | HelloBody(message: string, status: string)

  datatype Response = Response(status: nat, body: Body)

  /** The 404 answer for an id no book has, echoing the requested id. */
  function NotFound(id: int): Response
  {
    Response(NOT_FOUND, ErrorBody(NotFoundError, id))
  }

  class BookController {
    /** The injected store; the controller keeps no state of its own. */
    const service: BookService

    constructor (service: BookService)
      ensures this.service == service
    {
      this.service := service;
    }

    /** GET /hello: always 200 with the fixed greeting and status text. */
    function Hello(): (r: Response)
      ensures r.status == OK
      ensures r.body.HelloBody? && r.body.message == HelloMessage && r.body.status == RunningStatus
    {
      Response(OK, HelloBody(HelloMessage, RunningStatus))
    }

    /** GET /: 200 with the store's books, in order. */
    function GetAllBooks(): (r: Response)
      reads service
      ensures r.status == OK && r.body.BookListBody?
      ensures |r.body.books| == service.GetTotalBookCount()
      ensures forall i :: 0 <= i < |r.body.books| ==> r.body.books[i] == service.books[i]
    {
      Response(OK, BookListBody(service.GetAllBooks()))
    }

    /** GET /{id}: 200 with the first book carrying `id`, otherwise 404. */
    function GetBookById(id: int): (r: Response)
      reads service, service.books
      requires service.Valid()
      ensures r.status == OK <==> HasId(service.Records(), id)
      ensures r.status == OK ==> r.body.BookBody? && r.body.book.id == Some(id) &&
                                 service.GetBookById(id) == Some(r.body.book)
      ensures r.status != OK ==> r == NotFound(id)
    {
      match service.GetBookById(id)
      case Some(book) => Response(OK, BookBody(book))
      case None => NotFound(id)
    }

    /** POST /: stores the request's book (with its defaults) and answers 201 with it. */
    method CreateBook(book: Book, currentYear: int) returns (r: Response)
      requires service.Valid()
      modifies service, book
      ensures r == Response(CREATED, BookBody(book))
      ensures service.books == old(service.books) + [book]
      ensures book.Value() == Defaulted(old(book.Value()), old(service.counter), currentYear)
      ensures service.counter == NextCounter(old(book.Value()), old(service.counter))
      ensures forall i :: 0 <= i < |old(service.books)| ==>
                service.Records()[i] ==
                  if old(service.books)[i] == book then book.Value() else old(service.Records())[i]
      ensures book.id.Some? && (old(book.available).None? ==> book.available == Some(true))
      ensures service.Valid()
      ensures old(service.IdsFresh()) && old(book.id).None? ==> service.IdsFresh()
    {
      var created := service.AddBook(book, currentYear);
      r := Response(CREATED, BookBody(created));
    }

    /** PUT /{id}: 404 (and no change) when no book has `id`; otherwise the
        partial update of the first such book and 200 with it. */
    method UpdateBook(id: int, details: Book) returns (r: Response)
      requires service.Valid()
      modifies service.books
      ensures service.books == old(service.books) && service.counter == old(service.counter)
      ensures r.status == NOT_FOUND <==> !HasId(old(service.Records()), id)
      ensures r.status == NOT_FOUND ==> r == NotFound(id) && service.Records() == old(service.Records())
      ensures r.status != NOT_FOUND ==>
                r.status == OK && r.body.BookBody? && r.body.book.id == Some(id) &&
                Some(r.body.book) == old(service.GetBookById(id)) &&
                r.body.book.Value() == Patched(old(r.body.book.Value()), old(details.Value()))
      ensures r.status != NOT_FOUND ==> forall i :: 0 <= i < |service.books| ==>
                service.Records()[i] ==
                  if service.books[i] == r.body.book then r.body.book.Value() else old(service.Records())[i]
      ensures service.Valid()
      ensures old(service.IdsFresh()) ==> service.IdsFresh()
    {
      var found := service.GetBookById(id);
      if found.Some? {
        var updated := service.UpdateBook(id, details);
        r := Response(OK, BookBody(updated.value));
      } else {
        r := NotFound(id);
      }
    }

    /** DELETE /{id}: 200 with a confirmation when some book was removed, otherwise 404. */
    method DeleteBook(id: int) returns (r: Response)
      requires service.Valid()
      modifies service
      ensures r == if HasId(old(service.Records()), id)
                   then Response(OK, MessageBody(DeletedMessage, id))
                   else NotFound(id)
      ensures service.books == old(Without(service.books, id))
      ensures service.Records() == RemoveAll(old(service.Records()), id)
      ensures service.counter == old(service.counter)
      ensures service.Valid()
      ensures old(service.IdsFresh()) ==> service.IdsFresh()
    {
      var deleted := service.DeleteBook(id);
      if deleted {
        r := Response(OK, MessageBody(DeletedMessage, id));
      } else {
        r := NotFound(id);
      }
    }

    /** GET /stats/summary: the total, available and unavailable counts. */
    function GetStatistics(): (r: Response)
      reads service, service.books
      requires service.Valid()
      ensures r.status == OK && r.body.StatsBody?
      ensures r.body.totalBooks == |service.books|
      ensures r.body.availableBooks == CountAvailable(service.Records())
      ensures r.body.unavailableBooks == CountUnavailable(service.Records())
      ensures 0 <= r.body.availableBooks && 0 <= r.body.unavailableBooks
    {
      Response(OK, StatsBody(
        service.GetTotalBookCount(),
        service.GetAvailableBooksCount(),
        service.GetTotalBookCount() - service.GetAvailableBooksCount()))
    }
  }

  /** Lookups and statistics on the initial store. */
  method ReadScenario()
  {
    var store := new BookService();
    var api := new BookController(store);
    SeedProperties();
    var missing := api.GetBookById(999);
    assert missing == NotFound(999);
    var first := api.GetBookById(1);
    assert store.Records()[0].id == Some(1);
    assert first.status == OK;
    var stats := api.GetStatistics();
    assert stats.body == StatsBody(3, 2, 1);
  }

  /** Deleting book 2 leaves books 1 and 3; deleting it again is a 404. */
  method DeleteScenario()
  {
    var store := new BookService();
    var api := new BookController(store);
    DeleteTwoFromSeed();
    ghost var seed := SeedRecords();
    assert seed[1].id == Some(2);
    var deleted := api.DeleteBook(2);
    assert deleted == Response(OK, MessageBody(DeletedMessage, 2));
    ghost var left := store.Records();
    assert left == [seed[0], seed[2]];
    assert !HasId(left, 2);
    var again := api.DeleteBook(2);
    assert again == NotFound(2);
  }

  /** A book posted with only a title and an author gets id 4, the current
      year and availability. */
  method CreateScenario(currentYear: int)
  {
    var minimal := new Book();
    minimal.title := Some("Minimal Book");
    minimal.author := Some("Unknown");
    var store := new BookService();
    var api := new BookController(store);
    var created := api.CreateBook(minimal, currentYear);
    assert created.status == CREATED;
    assert minimal.Value() == BookRecord(Some(4), Some("Minimal Book"), Some("Unknown"),
                                         Some(currentYear), Some(true));
  }

  /** Updating an unknown id is a 404 and changes nothing. */
  method UpdateMissingScenario()
  {
    var patch := new Book();
    patch.title := Some("Updated Title");
    var store := new BookService();
    var api := new BookController(store);
    SeedProperties();
    var updated := api.UpdateBook(999, patch);
    assert updated == NotFound(999);
    assert store.Records() == SeedRecords();
  }

  /** Updating book 1 with a new title and author answers 200 with book 1,
      whose year and availability are unchanged. */
  method UpdateFoundScenario()
  {
    var patch := new Book();
    patch.title := Some("Updated Title");
    patch.author := Some("Updated Author");
    var store := new BookService();
    var api := new BookController(store);
    SeedProperties();
    assert patch.Value() == BookRecord(None, Some("Updated Title"), Some("Updated Author"), None, None);
    FindFirstUnique(store.Records(), store.counter, 0);
    assert store.GetBookById(1) == Some(store.books[0]);
    ghost var before := store.Records();
    var updated := api.UpdateBook(1, patch);
    assert updated.status == OK;
    assert updated.body.book.Value() ==
      BookRecord(Some(1), Some("Updated Title"), Some("Updated Author"), Some(2022), Some(true));
    assert store.Records()[1] == before[1] && store.Records()[2] == before[2];
  }

  /** GET /hello answers 200 with the greeting; GET / answers 200 with the
      seed books, the first having an id and a title. */
  method HelloAndListScenario()
  {
    var store := new BookService();
    var api := new BookController(store);
    var hello := api.Hello();
    assert hello.status == OK && hello.body.message == "Hello from BookAPI!";
    var all := api.GetAllBooks();
    assert all.status == OK && |all.body.books| == 3;
    assert store.Records()[0] == SeedRecords()[0];
    assert all.body.books[0].id.Some? && all.body.books[0].title.Some?;
  }

  /** Deleting book 1 answers 200 with the confirmation and id 1, and
      deleting it again is a 404. The counter and the other book objects stay
      as they were. */
  method DeleteByIdScenario()
  {
    var store := new BookService();
    var api := new BookController(store);
    var second := store.books[1];
    assert store.Records()[0].id == Some(1);
    assert second.id == Some(2);
    var deleted := api.DeleteBook(1);
    assert deleted == Response(OK, MessageBody("Book deleted successfully", 1));
    assert second in store.books;
    assert store.counter == 3;
    var again := api.DeleteBook(1);
    assert again == NotFound(1);
  }

  /** Deleting an id no book has is a 404 that echoes the id. */
  method DeleteMissingScenario()
  {
    var store := new BookService();
    var api := new BookController(store);
    SeedProperties();
    var missing := api.DeleteBook(999);
    assert missing == NotFound(999);
  }

  /** Posting a full book without an id answers 201 with id 4 and the posted
      title and author; the stored book equals one built with the all-args
      constructor. */
  method CreateFullScenario(currentYear: int)
  {
    var posted := new Book.All(None, Some("New Test Book"), Some("Test Author"), Some(2024), Some(true));
    var expected := new Book.All(Some(4), Some("New Test Book"), Some("Test Author"), Some(2024), Some(true));
    var store := new BookService();
    var api := new BookController(store);
    var created := api.CreateBook(posted, currentYear);
    assert created.status == CREATED && created.body.book.id.Some?;
    assert created.body.book.title == Some("New Test Book");
    assert posted.Equals(expected);
  }

  /** Two posts without ids get ids 4 and 5, and the first stays stored as it was. */
  method CreateTwiceScenario(currentYear: int)
  {
    var first := new Book();
    var second := new Book();
    var store := new BookService();
    var api := new BookController(store);
    var created := api.CreateBook(first, currentYear);
    assert first.id == Some(4) && store.counter == 4;
    assert store.books[3] == first && first != second;
    ghost var stored := first.Value();
    var next := api.CreateBook(second, currentYear);
    assert second.id == Some(5) && store.counter == 5;
    assert store.Records()[3] == stored;
  }
}
