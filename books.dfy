/** The book record and the title-keyed catalogue (`Book` and `BookList`
    in library_app.py). Dates are day numbers: day 1 is 1 January of year 1
    in the proleptic Gregorian calendar, as Python's `date.toordinal()`. */
module Books {
  import opened Outcomes
  import opened Dict
  import opened Text

  /** The years `datetime.date` accepts. */
  const MinYear := 1
  const MaxYear := 9999

  /** The range `random.randint` draws book ids from. */
  const MinBookId := 100000
  const MaxBookId := 999999

  /** `datetime.date(year, 1, 1)` as a day number. */
  function JanuaryFirst(year: int): (d: int)
    requires MinYear <= year <= MaxYear
    ensures year == MinYear ==> d == 1
    ensures 365 * (year - 1) < d <= 366 * (year - 1) + 1
  {
    var y := year - 1;
    365 * y + y / 4 - y / 100 + y / 400 + 1
  }

  /** The value checks a setter can fail: a negative copy count, or a year
      `datetime.date` rejects. */
  datatype BookError = InvalidCopyCount | InvalidYear

  class Book {
    const bookId: int
    var title: string
    var author: string
    var year: int
    var publisher: string
    var numAvailableCopies: int
    var publicationDate: int

    /** The id is drawn at random by the source and is a parameter here. The
        copy count is not checked: the source accepts any integer. */
    constructor (bookId: int, title: string, author: string, year: int, publisher: string,
                 numAvailableCopies: int)
      requires MinBookId <= bookId <= MaxBookId
      requires MinYear <= year <= MaxYear
      ensures this.bookId == bookId && this.title == title && this.author == author
      ensures this.year == year && this.publisher == publisher
      ensures this.numAvailableCopies == numAvailableCopies
      ensures this.publicationDate == JanuaryFirst(year)
    {
      this.bookId := bookId;
      this.title := title;
      this.author := author;
      this.year := year;
      this.publisher := publisher;
      this.numAvailableCopies := numAvailableCopies;
      this.publicationDate := JanuaryFirst(year);
    }

    method SetTitle(title: string)
      modifies this`title
      ensures this.title == title
    {
      this.title := title;
    }

    method SetAuthor(author: string)
      modifies this`author
      ensures this.author == author
    {
      this.author := author;
    }

    /** The year is stored before the publication date is derived from it,
        so a year outside 1..9999 is kept while the call fails and the
        publication date stays as it was. */
    method SetYear(year: int) returns (r: Outcome<BookError>)
      modifies this`year, this`publicationDate
      ensures this.year == year
      ensures MinYear <= year <= MaxYear ==> r == Pass && publicationDate == JanuaryFirst(year)
      ensures !(MinYear <= year <= MaxYear) ==>
                r == Fail(InvalidYear) && publicationDate == old(publicationDate)
    {
      this.year := year;
      if !(MinYear <= year <= MaxYear) {
        return Fail(InvalidYear);
      }
      publicationDate := JanuaryFirst(year);
      return Pass;
    }

    method SetPublisher(publisher: string)
      modifies this`publisher
      ensures this.publisher == publisher
    {
      this.publisher := publisher;
    }

    /** Rejects a negative count and leaves the old one; so a count that is
        not negative never becomes negative through this setter. */
    method SetNumAvailableCopies(n: int) returns (r: Outcome<BookError>)
      modifies this`numAvailableCopies
      ensures n < 0 ==> r == Fail(InvalidCopyCount) && numAvailableCopies == old(numAvailableCopies)
      ensures 0 <= n ==> r == Pass && numAvailableCopies == n
      ensures old(numAvailableCopies) >= 0 ==> numAvailableCopies >= 0
    {
      if n < 0 {
        return Fail(InvalidCopyCount);
      }
      numAvailableCopies := n;
      return Pass;
    }

    method SetPublicationDate(date: int)
      modifies this`publicationDate
      ensures publicationDate == date
    {
      publicationDate := date;
    }
  }

  /** What `find_book` is asked for: text, or a publication date. */
  datatype SearchTerm = ByText(text: string) | ByDate(date: int)

  /** The test `find_book` applies to each book: text must occur, ignoring
      case, in the title, the author or the publisher; a date must equal the
      publication date. The empty text matches every book. */
  predicate Matches(b: Book, term: SearchTerm)
    reads b
    ensures term == ByText("") ==> Matches(b, term)
  {
    match term
    case ByText(s) =>
      ContainsEmpty(Lower(b.title));
      Contains(Lower(b.title), Lower(s)) || Contains(Lower(b.author), Lower(s))
      || Contains(Lower(b.publisher), Lower(s))
    case ByDate(d) => b.publicationDate == d
  }

  /** The case of the search text does not matter: searching for a text and
      for its lowered form match the same books. */
  lemma MatchesIgnoresCase(b: Book, s: string)
    ensures Matches(b, ByText(s)) <==> Matches(b, ByText(Lower(s)))
  {
    LowerIdempotent(s);
  }

  class BookList {
    /** The `books` dictionary: title at insertion -> book. */
    var books: seq<Entry<string, Book>>

    ghost predicate Valid()
      reads this
    {
      DistinctKeys(books)
    }

    constructor ()
      ensures Valid() && books == []
    {
      books := [];
    }

    /** Stores the book under its current title. A title already present
        keeps its place and now maps to this book, so the catalogue grows
        by at most one entry. */
    method AddBook(book: Book)
      requires Valid()
      modifies this
      ensures Valid()
      ensures books == Put(old(books), book.title, book)
      ensures Get(books, book.title) == Some(book)
      ensures forall t | t != book.title :: Get(books, t) == Get(old(books), t)
      ensures Has(old(books), book.title) ==> |books| == |old(books)|
      ensures forall i | 0 <= i < |old(books)| :: books[i].key == old(books)[i].key
      ensures !Has(old(books), book.title) ==> books == old(books) + [Entry(book.title, book)]
    {
      PutSpec(books, book.title, book);
      books := Put(books, book.title, book);
    }

    /** The first book, in insertion order, that matches the term, or None
        when none does. */
    method FindBook(term: SearchTerm) returns (r: Option<Book>)
      ensures r.None? <==> forall i | 0 <= i < |books| :: !Matches(books[i].value, term)
      ensures r.Some? ==> exists i | 0 <= i < |books| ::
                books[i].value == r.value && Matches(r.value, term)
                && forall j | 0 <= j < i :: !Matches(books[j].value, term)
    {
      var i := 0;
      while i < |books|
        invariant 0 <= i <= |books|
        invariant forall j | 0 <= j < i :: !Matches(books[j].value, term)
      {
        if Matches(books[i].value, term) {
          return Some(books[i].value);
        }
        i := i + 1;
      }
      return None;
    }

    /** Deletes the entry stored under `title`, if there is one. */
    method RemoveBook(title: string)
      requires Valid()
      modifies this
      ensures Valid()
      ensures books == Delete(old(books), title)
      ensures forall j | 0 <= j < |books| :: books[j] in old(books)
      ensures !Has(books, title)
      ensures forall t | t != title :: Get(books, t) == Get(old(books), t)
      ensures |books| == if Has(old(books), title) then |old(books)| - 1 else |old(books)|
    {
      DeleteSpec(books, title);
      if Has(books, title) {
        books := Delete(books, title);
      }
    }

    /** The number of distinct titles in the catalogue. */
    function GetNumBooks(): (n: nat)
      reads this
      requires Valid()
      ensures n == |KeySet(books)|
    {
      DistinctKeysCardinality(books);
      |books|
    }
  }
}
