/** The library as the source runs it: three tables that the operations
    update in place (a book's counter changed, a loan's return date set, a
    row appended). Each method is proved to leave the tables as the matching
    function of `Engine` says, and to keep `Engine.Consistent`. */
module LibraryState {
  import opened Records
  import opened Outcomes
  import opened Auth
  import opened Catalogue
  import opened LoanLedger
  import opened Engine

  /** What an operation reports to the caller. */
  datatype Status = Success | Failure(error: Error)

  /** The tables after an operation whose outcome is `r`: unchanged on failure. */
  function Committed(t: Tables, r: Result<Tables>): Tables {
    if r.Ok? then r.value else t
  }

  function StatusOf(r: Result<Tables>): Status {
    if r.Ok? then Success else Failure(r.error)
  }

  class Library {
    var books: seq<Book>
    var members: seq<Member>
    var loans: seq<Loan>

    function Snapshot(): Tables
      reads this
    {
      Tables(books, members, loans)
    }

    /** Loads the three tables. */
    constructor (t: Tables)
      ensures Snapshot() == t
    {
      books, members, loans := t.books, t.members, t.loans;
    }

    /** `issue_book`: takes one copy of the first book with the ISBN and
        appends a loan due 14 days from today. */
    method IssueBook(memberId: string, isbn: string, today: Date) returns (s: Status)
      modifies this
      ensures s == StatusOf(Issue(old(Snapshot()), memberId, isbn, today))
      ensures Snapshot() == Committed(old(Snapshot()), Issue(old(Snapshot()), memberId, isbn, today))
      ensures old(Consistent(Snapshot())) ==> Consistent(Snapshot())
    {
      ghost var before := Snapshot();
      var found := FirstBookWith(books, isbn);
      if found.None? || books[found.value].copiesAvailable <= 0 {
        return Failure(BookNotAvailable);
      }
      var k := found.value;
      books := books[k := books[k].(copiesAvailable := books[k].copiesAvailable - 1)];
      var loanId := |loans| + 1;
      loans := loans + [Loan(loanId, memberId, isbn, today, today + LoanPeriod, Outstanding)];
      s := Success;
      if Consistent(before) {
        IssuePreservesConsistent(before, memberId, isbn, today);
      }
    }

    /** `return_book`: scans the loans for the member's first outstanding loan
        of the book, sets its return date, then puts a copy back on every book
        record with the ISBN. */
    method ReturnBook(memberId: string, isbn: string, today: Date) returns (s: Status)
      modifies this
      ensures s == StatusOf(Return(old(Snapshot()), memberId, isbn, today))
      ensures Snapshot() == Committed(old(Snapshot()), Return(old(Snapshot()), memberId, isbn, today))
      ensures old(Consistent(Snapshot())) ==> Consistent(Snapshot())
    {
      ghost var before := Snapshot();
      var i := 0;
      while i < |loans|
        invariant 0 <= i <= |loans|
        invariant Snapshot() == before
        invariant forall j :: 0 <= j < i ==> !OpenMatch(loans[j], memberId, isbn)
      {
        if loans[i].memberId == memberId && loans[i].isbn == isbn && loans[i].returnDate == Outstanding {
          assert FirstOpenLoan(before.loans, memberId, isbn) == Some(i);
          loans := loans[i := loans[i].(returnDate := ReturnedOn(today))];
          var b := 0;
          while b < |books|
            invariant 0 <= b <= |books| == |before.books|
            invariant forall j :: 0 <= j < b ==>
                        books[j] == if before.books[j].isbn == isbn then PutBackCopy(before.books[j]) else before.books[j]
            invariant forall j :: b <= j < |books| ==> books[j] == before.books[j]
            invariant members == before.members
            invariant loans == before.loans[i := Close(before.loans[i], today)]
          {
            if books[b].isbn == isbn {
              books := books[b := books[b].(copiesAvailable := books[b].copiesAvailable + 1)];
            }
            b := b + 1;
          }
          assert books == IncrementCopies(before.books, isbn);
          if Consistent(before) {
            ReturnPreservesConsistent(before, memberId, isbn, today);
          }
          return Success;
        }
        i := i + 1;
      }
      return Failure(LoanNotFound);
    }

    /** `register_member`: refuses a taken identifier, otherwise appends the
        member with today's join date. */
    method RegisterMember(memberId: string, name: string, password: string, email: string, today: Date)
      returns (s: Status)
      modifies this
      ensures s == StatusOf(Register(old(Snapshot()), memberId, name, password, email, today))
      ensures Snapshot() == Committed(old(Snapshot()), Register(old(Snapshot()), memberId, name, password, email, today))
      ensures old(Consistent(Snapshot())) ==> Consistent(Snapshot())
    {
      ghost var before := Snapshot();
      if MemberIdTaken(members, memberId) {
        return Failure(DuplicateMemberId);
      }
      var hashed := HashPassword(password);
      members := members + [Member(memberId, name, hashed, email, today)];
      s := Success;
      if Consistent(before) {
        RegisterPreservesConsistent(before, memberId, name, password, email, today);
      }
    }

    /** The librarian's "Add Book" step. */
    method AddNewBook(isbn: string, title: string, author: string, copies: int)
      modifies this
      ensures Snapshot() == AddBook(old(Snapshot()), isbn, title, author, copies)
      ensures old(Consistent(Snapshot())) && isbn !in old(IsbnsOf(books)) && copies >= 0 ==> Consistent(Snapshot())
    {
      ghost var before := Snapshot();
      books := books + [Book(isbn, title, author, copies, copies)];
      if Consistent(before) && isbn !in IsbnsOf(before.books) && copies >= 0 {
        AddBookPreservesConsistent(before, isbn, title, author, copies);
      }
    }
  }
}
