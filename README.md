# BookAPI store and endpoints, modelled in Dafny

This project models the core of BookAPI, a small REST service over an in-memory
table of books:

- `Books` (book.dfy) is the `Book` entity. It has five nullable fields (`Option`
  values). It has the no-args, all-args and three-argument constructors, and
  Lombok's field-wise equality. `BookRecord` is the value of the five fields.
- `BookTable` (book_table.dfy) is the table as values. It defines first-match
  lookup, the defaults applied on add, the partial-update patch, delete-all-matches
  and the availability counts. It holds the lemmas the store is proved against.
- `Service` (book_service.dfy) is the `BookService` class. It holds an ordered
  `seq<Book>` of the callers' own (aliased, mutable) objects and the id counter.
  Its methods change that state in place. `Records()` is the list's value, and
  `Valid()` is the null-safety invariant: every stored book has an id and an
  availability.
- `Controller` (book_controller.dfy) is the `BookController` class. Its endpoints
  call the store and answer with a `Response(status, body)`. Client methods named
  `...Scenario` are modelled on the endpoint tests. Each starts from a new seeded
  store and asserts what the contracts let a caller conclude. They cover hello,
  listing, lookup of 1 and 999, creating a full book and a minimal one, two
  creates in a row (ids 4 and 5), updating 1 and 999, and deleting 1, 2 and 999.

Ids are not unique in general. `addBook` keeps a caller-supplied id and does not
advance the counter for it, so a later automatically assigned id can collide
(`BookTable.SuppliedIdCanDuplicate`). Uniqueness is proved only under a
precondition: it holds while every added book arrives without an id. `IdsFresh()`
(distinct ids, none above the counter) holds at the seed. Update and delete
preserve it, and so does add when the book's id is null.

Three further points about the code:
- `deleteBook` removes every book with the id (`removeIf`, BookService.java:91), not only the first. It keeps the remaining book objects themselves, in order.
- Ids are unique only under the precondition above, not always.
- The current year (`Year.now()`, BookService.java:55 and Book.java:27) is a `currentYear` parameter.

## Model

| member | source | states |
|---|---|---|
| `Books.Book.constructor` | java-app/src/main/java/com/example/bookapi/model/Book.java:11 | the no-args constructor leaves all five fields null |
| `Books.Book.All` | java-app/src/main/java/com/example/bookapi/model/Book.java:12-18 | the all-args constructor stores id, title, author, year and available exactly as given |
| `Books.Book.WithDefaults` | java-app/src/main/java/com/example/bookapi/model/Book.java:23-29 | the three-argument constructor copies id, title and author, sets the year to the given current year and availability to true |
| `Books.Book.Equals` | java-app/src/main/java/com/example/bookapi/model/Book.java:10 | two books are equal exactly when all five fields are equal (`CreateFullScenario` uses it to compare the stored book with an expected one) |
| `BookTable.SeedProperties` | java-app/src/main/java/com/example/bookapi/service/BookService.java:20-25 | the seed is null-safe, its ids 1..3 are distinct and at most the counter 3, two books are available and one is not |
| `BookTable.FindFirst` | java-app/src/main/java/com/example/bookapi/service/BookService.java:37-42 | the result is absent exactly when no record has the id; otherwise it is a position holding the id with no earlier position holding it |
| `BookTable.FindFirstAppend` | java-app/src/main/java/com/example/bookapi/service/BookService.java:37-42 | appending a record keeps any existing first match; if there was none, the appended record is found when it has the id |
| `BookTable.FindFirstUnique` | java-app/src/main/java/com/example/bookapi/service/BookService.java:37-42 | with distinct ids, looking up a stored record's id finds exactly that record |
| `BookTable.Defaulted` | java-app/src/main/java/com/example/bookapi/service/BookService.java:49-59 | the stored record has an id, a year and an availability; each non-null input field is kept; title and author are unchanged |
| `BookTable.NextCounter` | java-app/src/main/java/com/example/bookapi/service/BookService.java:49-51 | the counter never decreases and advances by exactly one, and it does so exactly when the book had no id |
| `BookTable.AddFreshKeepsIdsFresh` | java-app/src/main/java/com/example/bookapi/service/BookService.java:49-51 | adding a book with a null id (given id counter + 1, counter advanced) keeps ids distinct and at most the counter |
| `BookTable.SuppliedIdCanDuplicate` | java-app/src/main/java/com/example/bookapi/service/BookService.java:49-51 | from the seed, adding a book with id 4 and then one with a null id stores id 4 twice; lookup by 4 returns the first |
| `BookTable.Patched` | java-app/src/main/java/com/example/bookapi/service/BookService.java:71-82 | the id is kept; each of title, author, year and availability takes the patch's value when that is non-null and keeps the stored one otherwise |
| `BookTable.PatchedProperties` | java-app/src/main/java/com/example/bookapi/service/BookService.java:71-82 | the patch keeps the id, never nulls the availability, is idempotent, and an all-null patch changes nothing |
| `BookTable.PatchTitleOnly` | java-app/src/main/java/com/example/bookapi/service/BookService.java:71-82 | a patch with only a title changes only the title |
| `BookTable.PatchAtKeepsInvariants` | java-app/src/main/java/com/example/bookapi/service/BookService.java:71-82 | patching one record keeps the table null-safe and its ids fresh |
| `BookTable.RemoveAll` | java-app/src/main/java/com/example/bookapi/service/BookService.java:90-92 | no record with the id remains, only records of the input remain, and the length is unchanged exactly when no record had the id |
| `BookTable.RemoveAllAppend` | java-app/src/main/java/com/example/bookapi/service/BookService.java:91 | deletion distributes over concatenation, so kept records stay in their relative order |
| `BookTable.RemoveAllSingle` | java-app/src/main/java/com/example/bookapi/service/BookService.java:91 | a single record is dropped exactly when it carries the id |
| `BookTable.RemoveAllIdempotent` | java-app/src/main/java/com/example/bookapi/service/BookService.java:90-92 | deleting the same id a second time changes nothing |
| `BookTable.RemoveAllKeepsInvariants` | java-app/src/main/java/com/example/bookapi/service/BookService.java:91 | deletion keeps the table null-safe and its ids fresh |
| `BookTable.DeleteTwoFromSeed` | java-app/src/main/java/com/example/bookapi/service/BookService.java:90-92 | deleting id 2 from the seed leaves books 1 and 3 in that order |
| `BookTable.CountAvailable` | java-app/src/main/java/com/example/bookapi/service/BookService.java:104-108 | the number of available records is at most the number of records |
| `BookTable.CountUnavailable` | java-app/src/main/java/com/example/bookapi/controller/BookController.java:122 | the number of unavailable records is at most the number of records |
| `BookTable.CountsPartition` | java-app/src/main/java/com/example/bookapi/controller/BookController.java:120-122 | in a null-safe table, available plus unavailable equals the total |
| `BookTable.CountAvailableAppend` | java-app/src/main/java/com/example/bookapi/service/BookService.java:104-108 | the available count of a concatenation is the sum of the parts' counts |
| `Service.BookService.constructor` | java-app/src/main/java/com/example/bookapi/service/BookService.java:20-25 | the store starts with books 1, 2 and 3 in order with their titles, authors, years and availability; the counter is 3; it is valid with fresh ids |
| `Service.BookService.GetAllBooks` | java-app/src/main/java/com/example/bookapi/service/BookService.java:30-32 | the result has the store's length and holds the same book objects in the same order |
| `Service.BookService.GetBookById` | java-app/src/main/java/com/example/bookapi/service/BookService.java:37-42 | absent exactly when no stored book has the id; otherwise the first stored book with that id |
| `Service.BookService.AddBook` | java-app/src/main/java/com/example/bookapi/service/BookService.java:47-63 | appends the caller's own object after defaulting it; the counter advances only when an id was assigned; entries that are other objects are unchanged; the store stays valid; with a null id, ids stay fresh and lookup by the new id finds the book |
| `Service.SetDefaults` | java-app/src/main/java/com/example/bookapi/service/BookService.java:54-59 | a null year becomes the current year, a null availability becomes true, and nothing else changes |
| `Service.BookService.UpdateBook` | java-app/src/main/java/com/example/bookapi/service/BookService.java:68-85 | returns the first book with the id, or none; with none, nothing changes; otherwise that object is patched in place and every entry that is that object shows the patch while the others are unchanged; validity and fresh ids are kept; with fresh ids only that position changes |
| `Service.ApplyDetails` | java-app/src/main/java/com/example/bookapi/service/BookService.java:71-82 | the book's new value is the old one patched with the details' non-null fields |
| `Service.BookService.DeleteBook` | java-app/src/main/java/com/example/bookapi/service/BookService.java:90-92 | the new list is the old list's book objects without those carrying the id, so every other object is still stored; the new records are the old ones without every record carrying the id; the counter is unchanged; the result is true exactly when some record had it; validity and fresh ids are kept |
| `Service.Without` | java-app/src/main/java/com/example/bookapi/service/BookService.java:91 | only objects of the input are kept, every input object without the id is kept, and the kept objects' values are the table with every record carrying the id removed |
| `Service.BookService.GetTotalBookCount` | java-app/src/main/java/com/example/bookapi/service/BookService.java:97-99 | equals the length of the list `GetAllBooks` returns |
| `Service.BookService.GetAvailableBooksCount` | java-app/src/main/java/com/example/bookapi/service/BookService.java:104-108 | the number of stored books whose availability is true; at most the total, and the total minus it is the number of unavailable books |
| `Controller.BookController.constructor` | java-app/src/main/java/com/example/bookapi/controller/BookController.java:22-23 | the controller uses the store it is given |
| `Controller.BookController.Hello` | java-app/src/main/java/com/example/bookapi/controller/BookController.java:30-36 | always 200 with message "Hello from BookAPI!" and status "API is running" |
| `Controller.BookController.GetAllBooks` | java-app/src/main/java/com/example/bookapi/controller/BookController.java:43-46 | always 200 with the store's books in order |
| `Controller.BookController.GetBookById` | java-app/src/main/java/com/example/bookapi/controller/BookController.java:53-63 | 200 exactly when a stored book has the id, with the first such book; otherwise 404 with error "Book not found" and the requested id |
| `Controller.BookController.CreateBook` | java-app/src/main/java/com/example/bookapi/controller/BookController.java:69-73 | always 201 with the appended object itself, which has an id, and availability true when the request had none; the counter advances exactly when an id was assigned; entries that are other objects keep their values |
| `Controller.BookController.UpdateBook` | java-app/src/main/java/com/example/bookapi/controller/BookController.java:80-91 | 404 with the error body and no change exactly when no book has the id; otherwise 200 with the first such book, its id equal to the path id, patched; entries that are other objects keep their values; the list and counter are unchanged |
| `Controller.BookController.DeleteBook` | java-app/src/main/java/com/example/bookapi/controller/BookController.java:98-111 | 200 with "Book deleted successfully" and the id exactly when some book was removed, otherwise 404 with the error body; all books with the id are gone, the other objects stay in order, and the counter is unchanged |
| `Controller.BookController.GetStatistics` | java-app/src/main/java/com/example/bookapi/controller/BookController.java:118-124 | 200 with the total, the available count and total minus available; the last equals the number of unavailable books, and all three are non-negative |

## Left out

- Spring wiring is not modelled: routing annotations, `ResponseEntity`, JSON content types and dependency injection. A response is a plain `(status, body)` value, and the controller is given its store.
- Jackson (de)serialisation of request bodies is not modelled. A request body arrives as an already-built `Book`.
- Lombok's generated setters, getters, `toString` and `hashCode` are not modelled. Stores write the fields directly.
- The `timestamp` of the hello response is not modelled, because it reads the system clock. `Year.now()` is the `currentYear` parameter instead.
- Concurrency is not modelled, because the model is single-threaded. This covers the shared static list and the atomic counter across request threads.
- Integer widths are not modelled: `Long` ids and `Integer` years are unbounded `int`, the counter is a `nat`, and the `(int)` cast of the count is the count itself. Overflow is out of reach at this scale.
- The test class is not modelled. Its shared static state and unspecified test order are left out. The scenario methods are modelled on its tests, and each runs from a new store.
- Static state is not modelled. `books` and `bookIdCounter` are `static` (BookService.java:16-17): every Java instance shares them, and the seed is added once per class load. In the model, each `BookService` has its own seeded list and counter. This matches the single instance the framework creates.
- Service.BookService.GetBookById, Service.BookService.DeleteBook and Service.BookService.GetAvailableBooksCount: these require `Valid()`, which is stronger than each method needs. `getBookById`'s stream is lazy, so it throws a null-pointer exception only on a null id it reaches before the first match. `getBookById` and `deleteBook` never read `available`; `getAvailableBooksCount` never reads `id`. The model does not describe the cases `Valid()` excludes: a caller that still holds a stored book and writes a null into it.
