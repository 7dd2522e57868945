# Library ledger model

A Dafny model of the in-memory state of a small library application
(`library_app.py`): book records with validated setters, a catalogue of books
keyed by title, user records and a directory keyed by username, and the loan
ledger that maps a book id to the borrowing user and the borrow date while
keeping the book's available-copy count in step.

Layout:

- `outcomes.dfy` (module `Outcomes`): `Option` for Python's `None`, `Outcome` for a call that may raise.
- `dict.dfy` (module `Dict`): Python's insertion-ordered `dict`, defined once as a sequence of
  entries with distinct keys. `Put` is `d[k] = v` (an existing key keeps its place, a new one goes
  to the end), `Delete` is `del d[k]`, `Get` is `d.get(k)`. The catalogue, the directory and the
  ledger are all such dictionaries, so iteration order (which `find_book` and the overdue report
  depend on) is part of the model.
- `text.dfy` (module `Text`): `lower()`, the substring test and `endswith`.
- `books.dfy` (module `Books`): `Book` and `BookList` as classes whose methods update their fields.
- `users.dfy` (module `Users`): `User` and `UserList`.
- `loans.dfy` (module `Ledger`): `Loans`, the overdue test and report, and the loan-count
  function, with the lemmas about them.

Dates are day numbers (day 1 is 1 January of year 1, as Python's `date.toordinal()`), so
`datetime.date(year, 1, 1)` is `Books.JanuaryFirst(year)` and adding a `timedelta` of 14 days is
adding 14. The current date and the book id, which the source takes from the clock and from
`random.randint`, are parameters. Users are compared by reference, as the source does (`User`
defines no `__eq__`).

The ledger methods read the book's `book_id` attribute. The source calls `book.get_book_id()`
there (library_app.py:358, 362, 371, 374), a method `Book` does not define; the model follows the
evident intent and reads the id directly. The ledger holds at most one loan per book id, whatever
the number of copies, as the source does.

## Model

| member | source | states |
|---|---|---|
| `Dict.IndexOf` | library_app.py:333 | the position returned carries the key and no earlier entry does: the first position of the key (the only one in a dictionary, as `Dict.IndexOfAt` states) |
| `Dict.IndexOfAt` | library_app.py:333 | in a dictionary with distinct keys, the key found at position `p` is found at `p` |
| `Dict.Get` | library_app.py:333 | `d.get(k)` is None exactly when `k` is absent, and otherwise a value stored under `k` |
| `Dict.Put` | library_app.py:139 | after `d[k] = v` the entry `(k, v)` is present, and the length grows by one only for a new key |
| `Dict.Delete` | library_app.py:170-171 | `del d[k]` shortens the dictionary by one exactly when `k` is present, and every remaining entry was an entry before |
| `Dict.PutSpec` | library_app.py:139 | after `d[k] = v`: `k` maps to `v`, every other key keeps its value, every old key keeps its position, the size grows by one only for a new key, and keys stay distinct |
| `Dict.DeleteSpec` | library_app.py:170-171 | after `del d[k]`: `k` is gone, every other key keeps its value, every remaining entry was there before, the size shrinks by one exactly when `k` was present, keys stay distinct |
| `Dict.DeleteAfterPut` | library_app.py:361-375 | inserting a new key and then deleting it gives back the original dictionary (the ledger part of borrow-then-return) |
| `Dict.DistinctKeysCardinality` | library_app.py:173-179 | a dictionary's length equals its number of distinct keys |
| `Text.Lower` | library_app.py:153-155 | `lower()` keeps the length and leaves no upper-case ASCII letter |
| `Text.LowerIdempotent` | library_app.py:153-155 | lowering twice is lowering once |
| `Text.Contains` | library_app.py:153-155 | `needle in hay` can hold only when the needle is no longer than the haystack |
| `Text.ContainsSplit` | library_app.py:153-155 | `needle in hay` holds exactly when `hay` is some `p + needle + q` |
| `Text.ContainsEmpty` | library_app.py:153-155 | the empty string is contained in every string |
| `Text.EndsWith` | library_app.py:259 | when `s.endswith(suffix)` holds, `s` is its own prefix followed by `suffix` |
| `Text.EndsWithSplit` | library_app.py:259 | `s.endswith(suffix)` holds exactly when `s` is some `p + suffix` |
| `Books.JanuaryFirst` | library_app.py:34 | `datetime.date(year, 1, 1)` as a day number: day 1 for year 1, and between 365 and 366 days per elapsed year |
| `Books.Book.constructor` | library_app.py:18-34 | every field takes the given value, the copy count unchecked, and the publication date is 1 January of the year |
| `Books.Book.SetTitle` | library_app.py:37-45 | the title becomes the argument and nothing else changes |
| `Books.Book.SetAuthor` | library_app.py:47-55 | the author becomes the argument and nothing else changes |
| `Books.Book.SetYear` | library_app.py:57-66 | the year is always stored; for a year in 1..9999 the publication date becomes its 1 January, otherwise the call fails and the date is unchanged |
| `Books.Book.SetPublisher` | library_app.py:68-76 | the publisher becomes the argument and nothing else changes |
| `Books.Book.SetNumAvailableCopies` | library_app.py:78-86 | a negative value fails and leaves the count; any other value becomes the count; so a count that is not negative stays not negative |
| `Books.Book.SetPublicationDate` | library_app.py:88-96 | the publication date becomes the argument and nothing else changes |
| `Books.Matches` | library_app.py:150-161 | the per-book test of `find_book`; the empty search text matches every book |
| `Books.MatchesIgnoresCase` | library_app.py:153-155 | a search text and its lowered form match the same books |
| `Books.BookList.constructor` | library_app.py:127-129 | the catalogue starts empty |
| `Books.BookList.AddBook` | library_app.py:131-139 | the catalogue becomes `Put` of the title: the book is stored under its title, a title already present keeps its position (every old entry keeps its key at its index), other titles keep their books, the catalogue grows by at most one, and a new title goes to the end |
| `Books.BookList.FindBook` | library_app.py:141-162 | returns the first book in catalogue order that matches (text in title, author or publisher ignoring case, or equal publication date); None exactly when no book matches |
| `Books.BookList.RemoveBook` | library_app.py:164-171 | the catalogue becomes `Delete` of the title, so the remaining entries keep their order; the title is absent afterwards, every remaining entry was there before, all other titles keep their books, and the size drops by one exactly when the title was present |
| `Books.BookList.GetNumBooks` | library_app.py:173-179 | the result is the number of distinct titles in the catalogue |
| `Users.User.constructor` | library_app.py:199-219 | every field takes the given value, with no validation |
| `Users.User.SetFirstname` | library_app.py:247-250 | the first name becomes the argument |
| `Users.User.SetSurname` | library_app.py:252-255 | the surname becomes the argument |
| `Users.User.SetEmailAddress` | library_app.py:257-261 | succeeds exactly when the address ends with `@example.com`, and only then replaces the address |
| `Users.User.SetDateOfBirth` | library_app.py:263-266 | the date of birth becomes the argument |
| `Users.User.SetStreetName` | library_app.py:268-269 | the street name becomes the argument |
| `Users.User.SetHouseNumber` | library_app.py:271-272 | as written: the value lands in a `street_number` attribute and the house number is unchanged |
| `Users.User.SetHouseNumberCorrected` | library_app.py:271-272 | the house number becomes the argument |
| `Users.User.SetPostcode` | library_app.py:274-275 | the postcode becomes the argument |
| `Users.HouseNumberAfterSetter` | library_app.py:271-272 | a user with house number 123 still has 123 after `set_house_number(7)` |
| `Users.HouseNumberAfterCorrectedSetter` | library_app.py:271-272 | with the corrected setter the same user has house number 7 |
| `Users.UsersNamed` | library_app.py:308 | the list holds exactly the directory's users with that first name, and is no longer than the directory |
| `Users.UsersNamedSome` | library_app.py:308-310 | the list is empty exactly when no entry carries that first name |
| `Users.UsersNamedSeveral` | library_app.py:308-311 | the list has more than one element exactly when two different entries carry that first name |
| `Users.UserList.constructor` | library_app.py:286-288 | the directory starts empty |
| `Users.UserList.AddUser` | library_app.py:290-300 | a taken username fails with the directory unchanged; a new one is appended under its username |
| `Users.UserList.RemoveUserByFirstname` | library_app.py:302-314 | no match reports not found, two or more matching entries report ambiguity, both changing nothing; exactly one match deletes exactly that user's entry, the size drops by one and every other user stays |
| `Users.UserList.GetNumUsers` | library_app.py:316-322 | the result is the number of distinct usernames |
| `Users.UserList.GetUserByUsername` | library_app.py:324-333 | None exactly when the username is absent; otherwise the very user object stored under that username |
| `Ledger.IsOverdue` | library_app.py:389-401 | for any loan period, a loan is not overdue on its due date (borrow date plus period) and is overdue the day after |
| `Ledger.DueDateBoundary` | library_app.py:389-401 | for every loan period the due date is on time and the day after is late, and once overdue a loan stays overdue on every later date; with the 14-day default, day 14 is on time and day 15 late |
| `Ledger.UserLoanCount` | library_app.py:386 | a user's loan count is at most the ledger size |
| `Ledger.UserLoanCountIsBooksHeld` | library_app.py:377-386 | a user's loan count equals the number of distinct book ids lent to that user |
| `Ledger.UserLoanCountAppend` | library_app.py:362-386 | a new loan adds one to its borrower's count and nothing to anyone else's |
| `Ledger.UserLoanCountDelete` | library_app.py:374-386 | removing a loan takes one from its borrower's count and nothing from anyone else's |
| `Ledger.OverdueEntries` | library_app.py:409-412 | the overdue list is no longer than the ledger |
| `Ledger.OverdueEntriesExact` | library_app.py:409-412 | a `(book_id, user)` pair is listed exactly when the ledger lends that book to that user and the loan is overdue |
| `Ledger.OverdueEntriesSplit` | library_app.py:409-412 | the list of a ledger split in two is the first part's list followed by the second's: ledger order is kept |
| `Ledger.NewLoanNotOverdue` | library_app.py:361-412 | a loan made today changes no report up to its due date |
| `Ledger.Loans.constructor` | library_app.py:345-347 | the ledger starts empty |
| `Ledger.Loans.BorrowBook` | library_app.py:349-363 | zero copies fails, and an id already lent fails, both changing nothing; otherwise the loan `(user, today)` is appended and the count drops by one, except that a negative count keeps the new loan, leaves the count and fails |
| `Ledger.Loans.BorrowBookChecked` | library_app.py:356-363 | with the test `count <= 0`, every failure changes nothing and success appends the loan and drops the count by one |
| `Ledger.Loans.ReturnBook` | library_app.py:365-375 | an id not lent fails and changes nothing; otherwise exactly that loan goes, the others keep their entries, and the count rises by one (unless it is below -1, when the setter fails after the deletion) |
| `Ledger.Loans.CountUserLoans` | library_app.py:377-386 | the number of distinct books the user holds, at most the ledger size |
| `Ledger.Loans.PrintOverdueBooks` | library_app.py:403-419 | "no overdue books" exactly when no loan is overdue, always for an empty ledger; otherwise the overdue pairs in ledger order |
| `Ledger.BorrowThenReturn` | library_app.py:349-375 | for an available book not on loan, borrow then return both succeed and restore the ledger and the copy count |
| `Ledger.NegativeCountBorrow` | library_app.py:356-363 | a book created with -1 copies: borrowing fails yet the loan is recorded |
| `Ledger.NegativeCountBorrowChecked` | library_app.py:356-363 | the same book with the corrected test: refused and nothing recorded |
| `Ledger.SingleCopyScenario` | library_app.py:349-375 | one copy: first borrow succeeds, a second borrow is refused as unavailable, the return succeeds, leaving one copy and an empty ledger |

## Left out

- `modify_book`, `modify_user` and the `__main__` driver: interactive prompts, which are I/O.
- The `print` calls: `remove_user_by_firstname` returns a `RemoveOutcome` and
  `print_overdue_books` returns an `OverdueReport` instead of printing.
- `random.randint` for the book id and `datetime.datetime.now()` for the borrow date: the id is a
  constructor parameter (within the source's range) and today's date is a parameter of `BorrowBook`.
- The `isinstance` guards and the `TypeError`/`ValueError` they raise for a wrong type: static types
  rule those calls out. A `find_book` term that is neither text nor a date (which returns None) cannot
  be written.
- Unicode case folding: `lower()` is modelled on ASCII letters only.
- The getters: they return a field, which the model reads directly.
- Calendar arithmetic: dates are unbounded integers, so the `OverflowError` of a date past year 9999
  in `is_overdue` is not modelled, and `set_publication_date` and `set_date_of_birth` accept any day number.
- Ledger.Loans.BorrowBook: reads the book's `book_id` where the source calls `get_book_id()`, which `Book` does not define; as written, every borrow of a book with a non-zero count raises `AttributeError` at library_app.py:358 before changing anything. That error is not modelled.
- Ledger.Loans.ReturnBook: the same reading; as written, every return raises `AttributeError` at library_app.py:371 before changing anything. That error is not modelled.
- Books.Book.constructor: requires a year in 1..9999, where the source raises `ValueError` from
  `datetime.date`; a Dafny constructor cannot fail, and no object exists after the error.
- The exception messages: errors are the enumerations `BookError`, `UserError` and `LoanError`.

## Findings

| source | as written | input that shows it | evidently intended | confidence | as-written member | corrected member |
|---|---|---|---|---|---|---|
| library_app.py:271-272 | `set_house_number` assigns a new attribute `street_number` | a user with house number 123, then `set_house_number(7)`: the house number is still 123 | assign `house_number` | not executed; high | `Users.HouseNumberAfterSetter` | `Users.User.SetHouseNumberCorrected` |
| library_app.py:356-363 | reading `get_book_id()` as the `book_id` attribute: the constructor never checks the copy count and `borrow_book` tests `== 0`, then records the loan before the setter can refuse the decremented count | a book created with -1 copies, then `borrow_book`: the loan is recorded and `ValueError` is raised | refuse a count `<= 0` before recording anything | not executed; medium | `Ledger.NegativeCountBorrow` | `Ledger.Loans.BorrowBookChecked` |
