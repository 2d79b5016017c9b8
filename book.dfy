/** Nullable values: a Java reference that may be null is an `Option`. */
module Nullable {

  datatype Option<+T> = None | Some(value: T)

  /** The value a null-aware setter guard keeps: `x` when it is non-null, otherwise `fallback`. */
  function OrElse<T>(x: Option<T>, fallback: Option<T>): (r: Option<T>)
    ensures x.Some? ==> r == x
    ensures x.None? ==> r == fallback
  {
    if x.Some? then x else fallback
  }
}

/** The Book entity: five nullable fields, three constructors and field-wise equality. */
module Books {
  import opened Nullable

  /** The value of a Book's five fields, in declaration order. Two books are
      equal (Lombok-generated `equals`) exactly when their records are equal. */
  datatype BookRecord = BookRecord(
    id: Option<int>,
    title: Option<string>,
    author: Option<string>,
    year: Option<int>,
    available: Option<bool>)

  /** A mutable book whose fields the store overwrites in place. */
  class Book {
    var id: Option<int>
    var title: Option<string>
    var author: Option<string>
    var year: Option<int>
    var available: Option<bool>

    /** The current value of the five fields. */
    function Value(): (r: BookRecord)
      reads this
    {
      BookRecord(id, title, author, year, available)
    }

    /** No-args constructor: every field is null. */
    constructor ()
      ensures Value() == BookRecord(None, None, None, None, None)
    {
      id := None;
      title := None;
      author := None;
      year := None;
      available := None;
    }

    /** All-args constructor: the fields are stored exactly as given. */
    constructor All(id: Option<int>, title: Option<string>, author: Option<string>,
                    year: Option<int>, available: Option<bool>)
      ensures Value() == BookRecord(id, title, author, year, available)
    {
      this.id := id;
      this.title := title;
      this.author := author;
      this.year := year;
      this.available := available;
    }

    /** Constructor with the required fields only: the year is the current
        calendar year and the book is available. */
    constructor WithDefaults(id: Option<int>, title: Option<string>, author: Option<string>,
                             currentYear: int)
      ensures this.id == id && this.title == title && this.author == author
      ensures year == Some(currentYear)
      ensures available == Some(true)
    {
      this.id := id;
      this.title := title;
      this.author := author;
      this.year := Some(currentYear);
      this.available := Some(true);
    }

    /** Lombok `@Data` equality: all five fields compare equal. */
    predicate Equals(other: Book): (r: bool)
      reads this, other
      ensures r <==> Value() == other.Value()
    {
      id == other.id && title == other.title && author == other.author &&
      year == other.year && available == other.available
    }
  }

  /** The values of a sequence of books, position by position. */
  function Values(bs: seq<Book>): (r: seq<BookRecord>)
    reads bs
    ensures |r| == |bs|
    ensures forall i :: 0 <= i < |bs| ==> r[i] == bs[i].Value()
  {
    if bs == [] then [] else [bs[0].Value()] + Values(bs[1..])
  }
}
