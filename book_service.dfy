/** The in-memory book store: an ordered list of (aliased, mutable) Book
    objects and a monotonic id counter. */
module Service {
  import opened Nullable
  import opened Books
  import opened BookTable

  class BookService {
    /** The stored books, in insertion order. The list holds the callers' own
        objects, and one object may appear more than once. */
    var books: seq<Book>
    /** The last automatically assigned id. */
    var counter: nat

    /** What the store holds: the values of its books, position by position. */
    function Records(): seq<BookRecord>
      reads this, books
    {
      Values(books)
    }

    /** The null-safety invariant lookup, deletion and counting rely on. */
    predicate Valid()
      reads this, books
    {
      NullSafe(Records())
    }

    /** Ids are distinct and at most the counter; kept as long as every added
        book arrives without an id. */
    predicate IdsFresh()
      reads this, books
    {
      FreshIds(Records(), counter)
    }

    /** The initial store: the three sample books and the counter at 3. */
    constructor ()
      ensures Valid() && IdsFresh()
      ensures Records() == SeedRecords() && counter == SeedCounter
      ensures forall i :: 0 <= i < |books| ==> fresh(books[i])
    {
      var b1 := new Book.All(Some(1), Some("Java Programming"), Some("John Doe"), Some(2022), Some(true));
      var b2 := new Book.All(Some(2), Some("Spring Boot Guide"), Some("Jane Smith"), Some(2023), Some(true));
      var b3 := new Book.All(Some(3), Some("Microservices Architecture"), Some("Mike Johnson"), Some(2021), Some(false));
      books := [b1, b2, b3];
      counter := 3;
      new;
      assert Records() == [b1.Value(), b2.Value(), b3.Value()];
      assert Records() == SeedRecords();
      SeedProperties();
    }

    /** A copy of the list: the same books, in the same order. */
    function GetAllBooks(): (r: seq<Book>)
      reads this
      ensures |r| == |books| && forall i :: 0 <= i < |r| ==> r[i] == books[i]
    {
      books
    }

    /** The first stored book whose id is `id`, or none. */
    function GetBookById(id: int): (r: Option<Book>)
      reads this, books
      requires Valid()
      ensures r.None? <==> forall i :: 0 <= i < |books| ==> books[i].id != Some(id)
      ensures r.Some? ==> exists k :: 0 <= k < |books| && r.value == books[k] && r.value.id == Some(id) &&
                                     forall j :: 0 <= j < k ==> books[j].id != Some(id)
    {
      match FindFirst(Records(), id)
      case None => None
      case Some(k) => Some(books[k])
    }

    /** Stores `book` itself at the end of the list, first giving it an id
        (counter + 1, advancing the counter) if it has none, the current year
        if its year is null and availability if that is null. */
    method AddBook(book: Book, currentYear: int) returns (r: Book)
      requires Valid()
      modifies this, book
      ensures r == book && books == old(books) + [book]
      ensures book.Value() == Defaulted(old(book.Value()), old(counter), currentYear)
      ensures counter == NextCounter(old(book.Value()), old(counter))
      ensures forall i :: 0 <= i < |old(books)| ==>
                Records()[i] == if old(books)[i] == book then book.Value() else old(Records())[i]
      ensures Valid()
      ensures old(IdsFresh()) && old(book.id).None? ==>
                IdsFresh() && Records() == old(Records()) + [book.Value()] &&
                GetBookById(old(counter) + 1) == Some(book)
    {
      ghost var before := Records();
      ghost var value := book.Value();
      if book.id.None? {
        counter := counter + 1;
        book.id := Some(counter);
      }
      SetDefaults(book, currentYear);
      assert book.Value() == Defaulted(value, old(counter), currentYear);
      books := books + [book];
      r := book;
      if old(IdsFresh()) && value.id.None? {
        forall i | 0 <= i < |before| ensures old(books)[i] != book {
          assert before[i].id.Some?;
        }
        AddFreshKeepsIdsFresh(before, old(counter), value, currentYear);
        assert Records() == before + [Defaulted(value, old(counter), currentYear)];
        assert Records()[|before|].id == Some(counter);
        FindFirstUnique(Records(), counter, |before|);
        assert FindFirst(Records(), counter) == Some(|before|);
      }
    }

    /** Overwrites, on the first book with id `id`, each of title, author, year
        and availability that is non-null in `details`. Every list entry that is
        the same object sees the change; nothing else does. */
    method UpdateBook(id: int, details: Book) returns (r: Option<Book>)
      requires Valid()
      modifies books
      ensures books == old(books) && counter == old(counter)
      ensures r == old(GetBookById(id))
      ensures r.None? ==> Records() == old(Records())
      ensures r.Some? ==> r.value.Value() == Patched(old(r.value.Value()), old(details.Value()))
      ensures r.Some? ==> forall i :: 0 <= i < |books| ==>
                Records()[i] == if books[i] == r.value then r.value.Value() else old(Records())[i]
      ensures Valid()
      ensures old(IdsFresh()) ==> IdsFresh()
      ensures old(IdsFresh()) && r.Some? ==>
                Records() == old(Records())[FindFirst(old(Records()), id).value := r.value.Value()]
    {
      r := GetBookById(id);
      if r.Some? {
        var book := r.value;
        ghost var k := FindFirst(Records(), id).value;
        ghost var before := Records();
        ghost var patch := details.Value();
        ApplyDetails(book, details);
        assert book.Value() == Patched(before[k], patch);
        assert forall i :: 0 <= i < |books| ==>
          Records()[i] == if books[i] == book then book.Value() else before[i];
        PatchAtKeepsInvariants(before, counter, k, patch);
        if FreshIds(before, counter) {
          forall i | 0 <= i < |books| && i != k ensures books[i] != book {
            assert before[i].id != before[k].id;
          }
          assert Records() == before[k := Patched(before[k], patch)];
        } else {
          assert NullSafe(Records()) by {
            forall i | 0 <= i < |books| ensures Records()[i].id.Some? && Records()[i].available.Some? {
              if books[i] != book { assert Records()[i] == before[i]; }
            }
          }
        }
      }
    }

    /** Removes every book whose id is `id`, keeping the rest in order, and
        reports whether any was removed. */
    method DeleteBook(id: int) returns (removed: bool)
      requires Valid()
      modifies this
      ensures books == old(Without(books, id))
      ensures forall b :: b in books ==> b in old(books)
      ensures forall i :: 0 <= i < |old(books)| && old(books)[i].id != Some(id) ==> old(books)[i] in books
      ensures Records() == RemoveAll(old(Records()), id) && counter == old(counter)
      ensures removed <==> HasId(old(Records()), id)
      ensures Valid()
      ensures old(IdsFresh()) ==> IdsFresh()
    {
      ghost var before := Records();
      var kept := Without(books, id);
      ghost var after := Values(kept);
      assert after == RemoveAll(before, id);
      RemoveAllKeepsInvariants(before, counter, id);
      removed := |kept| != |books|;
      books := kept;
      assert Records() == after;
    }

    /** The number of stored books. */
    function GetTotalBookCount(): (n: nat)
      reads this
      ensures n == |GetAllBooks()|
    {
      |books|
    }

    /** The number of stored books whose availability is true. */
    function GetAvailableBooksCount(): (n: nat)
      reads this, books
      requires Valid()
      ensures n == CountAvailable(Records())
      ensures n <= GetTotalBookCount()
      ensures GetTotalBookCount() - n == CountUnavailable(Records())
    {
      CountsPartition(Records());
      CountAvailable(Records())
    }
  }

  /** The defaults of an add: a null year becomes the current year and a null
      availability becomes true; everything else is left as it is. */
  method SetDefaults(book: Book, currentYear: int)
    modifies book
    ensures book.Value() == old(book.Value()).(
              year := OrElse(old(book.year), Some(currentYear)),
              available := OrElse(old(book.available), Some(true)))
  {
    if book.year.None? {
      book.year := Some(currentYear);
    }
    if book.available.None? {
      book.available := Some(true);
    }
  }

  /** The setter calls of an update: each of title, author, year and
      availability that is non-null in `details` overwrites the one in `book`. */
  method ApplyDetails(book: Book, details: Book)
    modifies book
    ensures book.Value() == Patched(old(book.Value()), old(details.Value()))
  {
    if details.title.Some? {
      book.title := details.title;
    }
    if details.author.Some? {
      book.author := details.author;
    }
    if details.year.Some? {
      book.year := details.year;
    }
    if details.available.Some? {
      book.available := details.available;
    }
  }

  /** The books of `bs` whose id is not `id`, in their original order. */
  function Without(bs: seq<Book>, id: int): (r: seq<Book>)
    reads bs
    ensures Values(r) == RemoveAll(Values(bs), id)
    ensures forall b :: b in r ==> b in bs
    ensures forall i :: 0 <= i < |bs| && bs[i].id != Some(id) ==> bs[i] in r
  {
    if bs == [] then []
    else
      assert Values(bs)[1..] == Values(bs[1..]);
      if bs[0].id == Some(id) then Without(bs[1..], id)
      else [bs[0]] + Without(bs[1..], id)
  }
}
