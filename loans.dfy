/** The loan ledger (`Loans` in library_app.py): a dictionary from book id
    to the borrowing user and the borrow date, kept in insertion order,
    together with the book's available-copy count it adjusts. The current
    date is a parameter. */
module Ledger {
  import opened Outcomes
  import opened Dict
  import opened Books
  import opened Users

  /** The default loan period of `is_overdue`, in days. */
  const LoanDuration := 14

  datatype LoanRecord = LoanRecord(user: User, borrowDate: int)

  type LoanTable = seq<Entry<int, LoanRecord>>

  /** The refusals of `borrow_book` and `return_book`. `CopyCountRejected`
      is the setter's refusal when the adjusted count would be negative. */
  datatype LoanError = BookNotAvailable | AlreadyBorrowed | NotBorrowed | CopyCountRejected

  /** A loan is overdue only after its due date, never on it: on the day
      the loan period ends it is still on time, and the day after it is late. */
  predicate IsOverdue(borrowDate: int, currentDate: int, loanDuration: int := LoanDuration)
    ensures currentDate == borrowDate + loanDuration ==> !IsOverdue(borrowDate, currentDate, loanDuration)
    ensures currentDate == borrowDate + loanDuration + 1 ==> IsOverdue(borrowDate, currentDate, loanDuration)
  {
    currentDate > borrowDate + loanDuration
  }

  /** For any loan period, the last day of the period is still on time and
      the next day is late, and once late a loan stays late; with the default
      period these are the fourteenth and fifteenth days after borrowing. */
  lemma DueDateBoundary(borrowDate: int, currentDate: int, laterDate: int, loanDuration: int)
    ensures !IsOverdue(borrowDate, borrowDate + loanDuration, loanDuration)
    ensures IsOverdue(borrowDate, borrowDate + loanDuration + 1, loanDuration)
    ensures IsOverdue(borrowDate, currentDate, loanDuration) && currentDate <= laterDate ==>
              IsOverdue(borrowDate, laterDate, loanDuration)
    ensures !IsOverdue(borrowDate, borrowDate + 14) && IsOverdue(borrowDate, borrowDate + 15)
  {
  }

  /** The number of loans held by `u`: `count_user_loans`. */
  function UserLoanCount(d: LoanTable, u: User): (n: nat)
    ensures n <= |d|
  {
    if d == [] then 0
    else (if d[0].value.user == u then 1 else 0) + UserLoanCount(d[1..], u)
  }

  /** The ids of the books `u` holds. */
  ghost function BooksHeldBy(d: LoanTable, u: User): set<int>
  {
    set i | 0 <= i < |d| && d[i].value.user == u :: d[i].key
  }

  lemma BooksHeldByCons(d: LoanTable, u: User)
    requires d != []
    ensures BooksHeldBy(d, u)
            == (if d[0].value.user == u then {d[0].key} else {}) + BooksHeldBy(d[1..], u)
  {
  }

  /** The loan count of a user is the number of distinct books they hold. */
  lemma {:induction false} UserLoanCountIsBooksHeld(d: LoanTable, u: User)
    requires DistinctKeys(d)
    ensures UserLoanCount(d, u) == |BooksHeldBy(d, u)|
  {
    if d != [] {
      assert DistinctKeys(d[1..]);
      UserLoanCountIsBooksHeld(d[1..], u);
      BooksHeldByCons(d, u);
      assert d[0].key !in BooksHeldBy(d[1..], u) by {
        forall i | 0 <= i < |d[1..]| ensures d[1..][i].key != d[0].key {
          assert d[1..][i] == d[i + 1];
        }
      }
    }
  }

  /** A new loan adds one to its borrower's count and nothing to anyone else's. */
  lemma {:induction false} UserLoanCountAppend(d: LoanTable, e: Entry<int, LoanRecord>, u: User)
    ensures UserLoanCount(d + [e], u) == UserLoanCount(d, u) + (if e.value.user == u then 1 else 0)
  {
    if d != [] {
      assert (d + [e])[1..] == d[1..] + [e];
      UserLoanCountAppend(d[1..], e, u);
    }
  }

  /** Returning a book takes one from its borrower's count and nothing from
      anyone else's. */
  lemma {:induction false} UserLoanCountDelete(d: LoanTable, p: nat, u: User)
    requires DistinctKeys(d) && p < |d|
    ensures UserLoanCount(Delete(d, d[p].key), u)
            == UserLoanCount(d, u) - (if d[p].value.user == u then 1 else 0)
  {
    IndexOfAt(d, p);
    assert Delete(d, d[p].key) == d[..p] + d[p + 1..];
    UserLoanCountSplit(d[..p], d[p..], u);
    UserLoanCountSplit(d[..p], d[p + 1..], u);
    assert d[..p] + d[p..] == d;
    assert d[p..][1..] == d[p + 1..];
  }

  lemma {:induction false} UserLoanCountSplit(d1: LoanTable, d2: LoanTable, u: User)
    ensures UserLoanCount(d1 + d2, u) == UserLoanCount(d1, u) + UserLoanCount(d2, u)
  {
    if d1 != [] {
      assert (d1 + d2)[1..] == d1[1..] + d2;
      UserLoanCountSplit(d1[1..], d2, u);
    } else {
      assert d1 + d2 == d2;
    }
  }

  /** The `(book_id, user)` pairs of the overdue loans, in ledger order. */
  function OverdueEntries(d: LoanTable, currentDate: int): (r: seq<(int, User)>)
    ensures |r| <= |d|
  {
    if d == [] then []
    else
      (if IsOverdue(d[0].value.borrowDate, currentDate) then [(d[0].key, d[0].value.user)] else [])
      + OverdueEntries(d[1..], currentDate)
  }

  /** A pair is reported exactly when it is a loan of the ledger that is
      overdue. */
  lemma {:induction false} OverdueEntriesExact(d: LoanTable, currentDate: int, id: int, u: User)
    ensures (id, u) in OverdueEntries(d, currentDate) <==>
            exists i | 0 <= i < |d| ::
              d[i].key == id && d[i].value.user == u && IsOverdue(d[i].value.borrowDate, currentDate)
  {
    if d != [] {
      OverdueEntriesExact(d[1..], currentDate, id, u);
      if exists i | 0 <= i < |d[1..]| ::
           d[1..][i].key == id && d[1..][i].value.user == u && IsOverdue(d[1..][i].value.borrowDate, currentDate)
      {
        var i :| 0 <= i < |d[1..]| && d[1..][i].key == id && d[1..][i].value.user == u
                 && IsOverdue(d[1..][i].value.borrowDate, currentDate);
        assert d[i + 1] == d[1..][i];
      }
      if exists i | 0 <= i < |d| ::
           d[i].key == id && d[i].value.user == u && IsOverdue(d[i].value.borrowDate, currentDate)
      {
        var i :| 0 <= i < |d| && d[i].key == id && d[i].value.user == u
                 && IsOverdue(d[i].value.borrowDate, currentDate);
        if i > 0 { assert d[1..][i - 1] == d[i]; }
      }
    }
  }

  /** The report of a ledger made of two parts is the report of the first
      part followed by that of the second: the report keeps ledger order. */
  lemma {:induction false} OverdueEntriesSplit(d1: LoanTable, d2: LoanTable, currentDate: int)
    ensures OverdueEntries(d1 + d2, currentDate)
            == OverdueEntries(d1, currentDate) + OverdueEntries(d2, currentDate)
  {
    if d1 != [] {
      assert (d1 + d2)[1..] == d1[1..] + d2;
      OverdueEntriesSplit(d1[1..], d2, currentDate);
    } else {
      assert d1 + d2 == d2;
    }
  }

  /** A loan made on the current day does not change the report for any
      day up to its due date. */
  lemma NewLoanNotOverdue(d: LoanTable, id: int, u: User, today: int, currentDate: int)
    requires currentDate <= today + LoanDuration
    ensures OverdueEntries(d + [Entry(id, LoanRecord(u, today))], currentDate)
            == OverdueEntries(d, currentDate)
  {
    var e := [Entry(id, LoanRecord(u, today))];
    OverdueEntriesSplit(d, e, currentDate);
    assert OverdueEntries(e, currentDate) == [] by {
      assert e[1..] == [];
    }
  }

  /** What `print_overdue_books` reports: that nothing is overdue, or the
      overdue pairs. */
  datatype OverdueReport = NoOverdueBooks | OverdueBooks(entries: seq<(int, User)>)

  class Loans {
    /** The `loans` dictionary: book id -> (user, borrow date). */
    var loans: LoanTable

    ghost predicate Valid()
      reads this
    {
      DistinctKeys(loans)
    }

    constructor ()
      ensures Valid() && loans == []
    {
      loans := [];
    }

    /** Lends `book` to `user` on day `today`. Refuses, changing nothing,
        when the book has no available copy or is already lent. Otherwise
        records the loan at the end of the ledger and takes one copy off the
        count; a count below zero makes that last step fail after the loan
        is recorded. */
    method BorrowBook(user: User, book: Book, today: int) returns (r: Outcome<LoanError>)
      requires Valid()
      modifies this, book`numAvailableCopies
      ensures Valid()
      ensures old(book.numAvailableCopies) == 0 ==>
                r == Fail(BookNotAvailable) && loans == old(loans)
                && book.numAvailableCopies == old(book.numAvailableCopies)
      ensures old(book.numAvailableCopies) != 0 && Has(old(loans), book.bookId) ==>
                r == Fail(AlreadyBorrowed) && loans == old(loans)
                && book.numAvailableCopies == old(book.numAvailableCopies)
      ensures old(book.numAvailableCopies) != 0 && !Has(old(loans), book.bookId) ==>
                loans == old(loans) + [Entry(book.bookId, LoanRecord(user, today))]
      ensures old(book.numAvailableCopies) > 0 && !Has(old(loans), book.bookId) ==>
                r == Pass && book.numAvailableCopies == old(book.numAvailableCopies) - 1
      ensures old(book.numAvailableCopies) < 0 && !Has(old(loans), book.bookId) ==>
                r == Fail(CopyCountRejected) && book.numAvailableCopies == old(book.numAvailableCopies)
    {
      if book.numAvailableCopies == 0 {
        return Fail(BookNotAvailable);
      }
      if Has(loans, book.bookId) {
        return Fail(AlreadyBorrowed);
      }
      PutSpec(loans, book.bookId, LoanRecord(user, today));
      loans := Put(loans, book.bookId, LoanRecord(user, today));
      var updated := book.SetNumAvailableCopies(book.numAvailableCopies - 1);
      if updated.Fail? {
        return Fail(CopyCountRejected);
      }
      return Pass;
    }

    /** The same operation with the availability test the source evidently
        intends, `count <= 0`: it is all or nothing for every count. */
    method BorrowBookChecked(user: User, book: Book, today: int) returns (r: Outcome<LoanError>)
      requires Valid()
      modifies this, book`numAvailableCopies
      ensures Valid()
      ensures r != Pass ==> loans == old(loans) && book.numAvailableCopies == old(book.numAvailableCopies)
      ensures old(book.numAvailableCopies) <= 0 ==> r == Fail(BookNotAvailable)
      ensures old(book.numAvailableCopies) > 0 && Has(old(loans), book.bookId) ==> r == Fail(AlreadyBorrowed)
      ensures old(book.numAvailableCopies) > 0 && !Has(old(loans), book.bookId) ==>
                r == Pass && loans == old(loans) + [Entry(book.bookId, LoanRecord(user, today))]
                && book.numAvailableCopies == old(book.numAvailableCopies) - 1
    {
      if book.numAvailableCopies <= 0 {
        return Fail(BookNotAvailable);
      }
      if Has(loans, book.bookId) {
        return Fail(AlreadyBorrowed);
      }
      PutSpec(loans, book.bookId, LoanRecord(user, today));
      loans := Put(loans, book.bookId, LoanRecord(user, today));
      var updated := book.SetNumAvailableCopies(book.numAvailableCopies - 1);
      assert updated == Pass;
      return Pass;
    }

    /** Takes `book` back. Refuses, changing nothing, when it is not lent.
        Otherwise deletes its loan, keeping the order of the others, and adds
        one copy to the count; the count stays as it was, and the call
        fails, only if one more copy is still below zero. */
    method ReturnBook(book: Book) returns (r: Outcome<LoanError>)
      requires Valid()
      modifies this, book`numAvailableCopies
      ensures Valid()
      ensures !Has(old(loans), book.bookId) ==>
                r == Fail(NotBorrowed) && loans == old(loans)
                && book.numAvailableCopies == old(book.numAvailableCopies)
      ensures Has(old(loans), book.bookId) ==>
                loans == Delete(old(loans), book.bookId) && |loans| == |old(loans)| - 1
                && !Has(loans, book.bookId)
                && forall id | id != book.bookId :: Get(loans, id) == Get(old(loans), id)
      ensures Has(old(loans), book.bookId) && old(book.numAvailableCopies) >= -1 ==>
                r == Pass && book.numAvailableCopies == old(book.numAvailableCopies) + 1
      ensures Has(old(loans), book.bookId) && old(book.numAvailableCopies) < -1 ==>
                r == Fail(CopyCountRejected) && book.numAvailableCopies == old(book.numAvailableCopies)
    {
      if !Has(loans, book.bookId) {
        return Fail(NotBorrowed);
      }
      DeleteSpec(loans, book.bookId);
      loans := Delete(loans, book.bookId);
      var updated := book.SetNumAvailableCopies(book.numAvailableCopies + 1);
      if updated.Fail? {
        return Fail(CopyCountRejected);
      }
      return Pass;
    }

    /** `count_user_loans`: the number of books `user` currently holds. */
    function CountUserLoans(user: User): (n: nat)
      reads this
      requires Valid()
      ensures n == |BooksHeldBy(loans, user)|
      ensures n <= |loans|
    {
      UserLoanCountIsBooksHeld(loans, user);
      UserLoanCount(loans, user)
    }

    /** The outcome of `print_overdue_books`: the overdue pairs in ledger
        order, or "no overdue books" when there are none, as on an empty
        ledger. */
    function PrintOverdueBooks(currentDate: int): (r: OverdueReport)
      reads this
      ensures r == NoOverdueBooks <==> OverdueEntries(loans, currentDate) == []
      ensures r.OverdueBooks? ==> r.entries == OverdueEntries(loans, currentDate)
      ensures loans == [] ==> r == NoOverdueBooks
    {
      var overdue := OverdueEntries(loans, currentDate);
      if overdue == [] then NoOverdueBooks else OverdueBooks(overdue)
    }
  }

  /** Lending a book with a copy available and taking it back restores both
      the ledger and the copy count. */
  method BorrowThenReturn(ledger: Loans, user: User, book: Book, today: int)
    returns (borrowed: Outcome<LoanError>, returned: Outcome<LoanError>)
    requires ledger.Valid()
    requires book.numAvailableCopies > 0 && !Has(ledger.loans, book.bookId)
    modifies ledger, book`numAvailableCopies
    ensures borrowed == Pass && returned == Pass
    ensures ledger.Valid() && ledger.loans == old(ledger.loans)
    ensures book.numAvailableCopies == old(book.numAvailableCopies)
  {
    borrowed := ledger.BorrowBook(user, book, today);
    DeleteAfterPut(old(ledger.loans), book.bookId, LoanRecord(user, today));
    assert Has(ledger.loans, book.bookId) by {
      assert ledger.loans[|ledger.loans| - 1].key == book.bookId;
    }
    returned := ledger.ReturnBook(book);
  }

  /** A book created with -1 copies: borrowing it fails, yet the loan is
      recorded. */
  method NegativeCountBorrow(user: User) returns (r: Outcome<LoanError>, recorded: bool)
    ensures r == Fail(CopyCountRejected) && recorded
  {
    var book := new Book(123456, "The Great Gatsby", "F. Scott Fitzgerald", 1925,
                         "Charles Scribner's Sons", -1);
    var ledger := new Loans();
    r := ledger.BorrowBook(user, book, 0);
    recorded := Has(ledger.loans, book.bookId);
    assert ledger.loans[0].key == book.bookId;
  }

  /** The same book with the corrected check: refused, nothing recorded. */
  method NegativeCountBorrowChecked(user: User) returns (r: Outcome<LoanError>, recorded: bool)
    ensures r == Fail(BookNotAvailable) && !recorded
  {
    var book := new Book(123456, "The Great Gatsby", "F. Scott Fitzgerald", 1925,
                         "Charles Scribner's Sons", -1);
    var ledger := new Loans();
    r := ledger.BorrowBookChecked(user, book, 0);
    recorded := Has(ledger.loans, book.bookId);
  }

  /** One copy: the first borrow succeeds and leaves none, a second borrow
      by someone else is refused, the return brings the copy back and
      clears the ledger. */
  method SingleCopyScenario(alice: User, bob: User, today: int)
    returns (first: Outcome<LoanError>, second: Outcome<LoanError>, back: Outcome<LoanError>,
             copies: int, open: nat)
    ensures first == Pass && second == Fail(BookNotAvailable) && back == Pass
    ensures copies == 1 && open == 0
  {
    var book := new Book(100001, "Dune", "Frank Herbert", 1965, "Chilton", 1);
    var ledger := new Loans();
    first := ledger.BorrowBook(alice, book, today);
    assert ledger.loans[0].key == book.bookId;
    second := ledger.BorrowBook(bob, book, today);
    back := ledger.ReturnBook(book);
    copies := book.numAvailableCopies;
    open := |ledger.loans|;
  }
}
