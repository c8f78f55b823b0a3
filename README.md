# Library management: loan engine, overdue report, member directory

A Dafny model of the in-memory record logic of a small command-line library
system. The system keeps three tables: books, members and loans. Its
operations are:

- issue a book to a member;
- return a book;
- list overdue loans;
- register a member and log in;
- add a book to the catalogue.

The model replaces each CSV file with a sequence of records:

- `Records`: the `Book`, `Member` and `Loan` records. Counts are `int`s and
  dates are day numbers. A loan's return date is either `Outstanding` (the
  empty `ReturnDate` of the source) or `ReturnedOn(day)`.
- `Auth`: `hash_password` (the identity), `verify_password` (equality) and
  `login` (the first member whose identifier and password match).
- `Catalogue`: the first-book-with-ISBN lookup, and the loop that puts a copy
  back on every record with an ISBN. `Catalogue` also defines ISBN uniqueness.
- `LoanLedger`: the first-outstanding-loan lookup, closing a loan, and counts
  of outstanding loans per ISBN and per (member, ISBN) pair.
- `Reporting`: the overdue filter.
- `Engine`: each operation as a function from the tables before it to the
  tables after it, or to an error with nothing written. `Engine` also defines
  the invariant `Consistent`:
  - ISBNs are unique;
  - no availability count is negative;
  - available copies plus outstanding loans equal total copies;
  - every outstanding loan is of a catalogued book;
  - loan identifiers are 1, 2, 3, ... in table order;
  - each due date is the issue date plus 14;
  - member identifiers are unique.

  The lemmas prove that issue, return and registration keep this invariant.
  Adding a book keeps it only when the ISBN is new and the number of copies
  is not negative. The lemmas also prove the other properties listed below.
- `LibraryState`: the class `Library`, which holds the three tables as fields.
  Its methods update the tables the way the source does: they change one
  book's counter, set one loan's return date, or append a row. `ReturnBook`
  keeps the source's two nested loops. Each method is proved to leave the
  tables exactly as the matching `Engine` function says. `IssueBook`,
  `ReturnBook` and `RegisterMember` are proved to keep `Consistent`.
  `AddNewBook` keeps it only when the ISBN is new and the number of copies is
  not negative.

"Today" is a parameter of every operation that reads the clock.

Points where the model follows the code closely:

- `issue_book` raises one exception, "Book not available", both for an
  unknown ISBN and for a book with no copies left. The model therefore has one
  error kind, `BookNotAvailable`.
- `return_book` does not raise when nothing matches. It prints "Loan not found
  or already returned" and writes nothing. The model reports this outcome as
  `LoanNotFound` and leaves the tables unchanged.
- The librarian's "Add Book" step does not reject an ISBN that is already in
  the catalogue. The model appends the duplicate too.
  - `Engine.AddBookDuplicateIsbn` shows that a duplicate breaks ISBN
    uniqueness.
  - `Engine.DuplicateIsbnOvercounts` shows the consequence. Suppose the ISBN is
    already out on loan. A later return puts a copy back on both records, so
    the added record has one copy more available than it has in total.
- The report compares `%Y-%m-%d` strings with `<`. Those strings are
  fixed-width and zero-padded, so their string order is the order of the day
  numbers. The model compares day numbers.

## Model

| member | source | states |
|---|---|---|
| `Auth.HashPassword` | LibraryManagementSystem/main.py:55-56 | the stored form of a password is the cleartext password itself; there is no hashing |
| `Auth.VerifyPassword` | LibraryManagementSystem/main.py:58-59 | a password is accepted exactly when the stored text is the stored form of that password |
| `Auth.VerifyHashed` | LibraryManagementSystem/main.py:55-59 | a stored password is accepted for exactly the password it was made from |
| `Auth.Login` | LibraryManagementSystem/main.py:70-75 | `None` exactly when no member matches both identifier and password; otherwise it returns the first matching member in table order |
| `Auth.LoginFindsUniqueMember` | LibraryManagementSystem/main.py:70-75 | with unique member identifiers, logging in with a member's identifier and correct password returns that member |
| `Catalogue.FirstBookWith` | LibraryManagementSystem/main.py:158 | returns the lowest index whose ISBN matches, or `None` exactly when no book has that ISBN |
| `Catalogue.IncrementCopies` | LibraryManagementSystem/main.py:176-178 | every record with the ISBN gains one available copy; every other record is unchanged; the length is unchanged |
| `LoanLedger.FirstOpenLoan` | LibraryManagementSystem/main.py:173-174 | returns the lowest index of an outstanding loan with this member and ISBN, or `None` exactly when there is none |
| `LoanLedger.Close` | LibraryManagementSystem/main.py:175 | the loan gets today's return date, keeps every other field, and is no longer outstanding |
| `LoanLedger.OpenCountZero` | LibraryManagementSystem/main.py:173-174 | a member's count of outstanding loans of a book is zero exactly when no loan matches the return lookup |
| `Reporting.Overdue` | LibraryManagementSystem/main.py:186-191 | the report holds exactly the loans that are outstanding and due before today; it never holds a returned loan and is no longer than the table |
| `Reporting.OverdueAppend` | LibraryManagementSystem/main.py:189 | the report keeps table order: the report of two tables joined end to end is the two reports joined end to end |
| `Reporting.OverdueClose` | LibraryManagementSystem/main.py:189 | replacing a loan with a returned one removes that loan from the report, if it was there; the new report is the report of the loans before it followed by the report of the loans after it, in order |
| `Engine.NewLoan` | LibraryManagementSystem/main.py:162-165 | the loan `issue_book` appends to a table of `count` loans has identifier count+1, the given member and ISBN, is issued today, falls due 14 days later, and is outstanding |
| `Engine.Issue` | LibraryManagementSystem/main.py:155-168 | fails with nothing written if no book has the ISBN or the first such book has no copy available; otherwise only that book changes, only its available count changes, and it drops by one to a value that is not negative; the loans change by one appended loan with identifier count+1, the given member and ISBN, issued today, due 14 days later and outstanding; members are unchanged |
| `Engine.Return` | LibraryManagementSystem/main.py:170-183 | fails with nothing written exactly when the member has no outstanding loan of the book; otherwise only the first such loan changes, and it gets today's return date; later matching loans stay outstanding; every book with the ISBN gains one copy and other books are unchanged |
| `Engine.Register` | LibraryManagementSystem/main.py:61-68 | fails with nothing written exactly when the identifier is taken; otherwise it appends one member with the given identifier, name and email, today's join date, and a stored password that verifies against the given one; books and loans are unchanged |
| `Engine.AddBook` | LibraryManagementSystem/main.py:94-96 | appends one book with every copy available and leaves earlier books, members and loans unchanged; the catalogued ISBNs gain the new one |
| `Engine.ConsistentBounds` | LibraryManagementSystem/main.py:155-183 | in consistent tables, each book's available copies lie between zero and its total, and loan identifiers are distinct |
| `Engine.IssuePreservesConsistent` | LibraryManagementSystem/main.py:155-167 | a successful issue keeps the tables consistent; in particular, available copies plus outstanding loans still equal the total |
| `Engine.ReturnPreservesConsistent` | LibraryManagementSystem/main.py:170-182 | a successful return keeps the tables consistent |
| `Engine.RegisterPreservesConsistent` | LibraryManagementSystem/main.py:61-68 | a successful registration keeps member identifiers unique and the tables consistent |
| `Engine.AddBookPreservesConsistent` | LibraryManagementSystem/main.py:94-96 | adding a book with a new ISBN and a non-negative number of copies keeps the tables consistent |
| `Engine.AddBookDuplicateIsbn` | LibraryManagementSystem/main.py:94-96 | adding an ISBN that is already catalogued makes ISBNs non-unique |
| `Engine.DuplicateIsbnOvercounts` | LibraryManagementSystem/main.py:176-178 | for any tables where the member has an outstanding loan of the ISBN, adding that ISBN again and then returning the loan succeeds, and the added record has one copy more available than its total |
| `Engine.IssueKeepsSum` | LibraryManagementSystem/main.py:155-167 | with unique ISBNs, a successful issue keeps every book's ISBN and its available copies plus outstanding loans of that ISBN |
| `Engine.ReturnKeepsSum` | LibraryManagementSystem/main.py:170-182 | a successful return keeps every book's ISBN and its available copies plus outstanding loans of that ISBN, with or without unique ISBNs |
| `Engine.IssueCountsLoan` | LibraryManagementSystem/main.py:162-165 | a successful issue adds exactly one outstanding loan for the (member, ISBN) pair and one for the ISBN |
| `Engine.ReturnCountsLoan` | LibraryManagementSystem/main.py:173-183 | a return fails exactly when the pair has no outstanding loan; on success the pair's count and the ISBN's count each drop by exactly one |
| `Engine.IssueThenReturnRestoresBooks` | LibraryManagementSystem/main.py:155-183 | with unique ISBNs, an issue followed by a return for the same member and ISBN succeeds and restores the book table exactly |
| `Engine.RegisterThenLogin` | LibraryManagementSystem/main.py:61-75 | after a successful registration, logging in with that identifier and password returns the new member |
| `Engine.IssueOverdue` | LibraryManagementSystem/main.py:186-191 | after an issue, the report is the old report plus the new loan, and the new loan appears only when it is already past due |
| `Engine.ReturnOverdue` | LibraryManagementSystem/main.py:186-191 | after a return, the report is the old report minus the returned loan, which is removed only if it was overdue; the remaining entries keep their order, with the ones before the returned loan first |
| `Engine.TwoCopiesScenario` | LibraryManagementSystem/main.py:155-183 | with two copies: two issues leave none available; a third issue fails; one return puts a copy back, closes the first loan and leaves the second outstanding |
| `Engine.DuplicateRegistrationScenario` | LibraryManagementSystem/main.py:61-64 | registering the same identifier a second time fails with `DuplicateMemberId` |
| `LibraryState.Library.IssueBook` | LibraryManagementSystem/main.py:155-168 | updates the tables in place as `Engine.Issue` says, reports its status, and keeps `Consistent` |
| `LibraryState.Library.ReturnBook` | LibraryManagementSystem/main.py:170-183 | the loan loop and book loop leave the tables as `Engine.Return` says, report the status, and keep `Consistent` |
| `LibraryState.Library.RegisterMember` | LibraryManagementSystem/main.py:61-68 | updates the members in place as `Engine.Register` says and keeps `Consistent` |
| `LibraryState.Library.AddNewBook` | LibraryManagementSystem/main.py:89-96 | appends the book as `Engine.AddBook` says, and keeps `Consistent` when the ISBN is new and the count is not negative |

## Left out

- Reading and writing the CSV files (`CSVStorage.read_csv`/`write_csv`). These are file I/O. The model works on in-memory sequences, and the header row is a serialisation detail.
- The two file writes in a row in `issue_book` and `return_book`, and a failure between them. A failure midway through I/O does not arise in an in-memory model: each operation commits both tables or neither.
- The clock (`datetime.today()`), `strftime`, and the `%d-%b-%Y` confirmation text. Today is a parameter, dates are day numbers, and calendar formatting is not modelled.
- The `int(...)`/`str(...)` conversions of counts and of `LoanID`. Counts and identifiers are integers here. A malformed CSV value is an I/O concern.
- The `not book` test in `issue_book`. A row from the CSV reader is never an empty dictionary, so the test reduces to "no book found".
- The menus (`librarian_menu`, `member_menu`), `input`/`print`, argument parsing and `main`, including its `'admin'` role check. These are user-interface glue that passes input to the operations above.
- The case-insensitive catalogue search. It depends on Python's Unicode `str.lower`, which is not modelled.
- The "My Loans" listing. It is a plain filter by member identifier.
- The unused `bcrypt` import. There is no hashing to model.
- Concurrent writers to the same files. The system is single-process, and the model is sequential.
