/** The library's operations as functions from the three tables before an
    operation to the tables after it (or a failure, in which case nothing is
    written), and the properties they keep. The class in `LibraryState`
    performs the same operations in place and is proved equal to these. */
module Engine {
  import opened Records
  import opened Outcomes
  import opened Auth
  import opened Catalogue
  import opened LoanLedger
  import opened Reporting

  /** The contents of `books.csv`, `members.csv` and `loans.csv`, row by row. */
  datatype Tables = Tables(books: seq<Book>, members: seq<Member>, loans: seq<Loan>)

  /** The loan `issue_book` appends when the table has `count` loans. */
  function NewLoan(count: int, memberId: string, isbn: string, today: Date): (l: Loan)
    ensures l.loanId == count + 1 && l.memberId == memberId && l.isbn == isbn
    ensures l.issueDate == today && l.dueDate == l.issueDate + LoanPeriod && IsOutstanding(l)
  {
    Loan(count + 1, memberId, isbn, today, today + LoanPeriod, Outstanding)
  }

  /** `issue_book`. It fails, writing nothing, when no book has the ISBN or the
      first book with it has no copy available. Otherwise that book gives up
      one copy and a loan due 14 days later is appended. */
  function Issue(t: Tables, memberId: string, isbn: string, today: Date): (r: Result<Tables>)
    ensures r.Err? <==> FirstBookWith(t.books, isbn).None? ||
                        t.books[FirstBookWith(t.books, isbn).value].copiesAvailable <= 0
    ensures r.Err? ==> r.error == BookNotAvailable
    ensures r.Ok? ==>
              var k := FirstBookWith(t.books, isbn).value;
              var u := r.value;
              && |u.books| == |t.books|
              && u.books[k].copiesAvailable == t.books[k].copiesAvailable - 1
              && u.books[k].copiesAvailable >= 0
              && u.books[k] == t.books[k].(copiesAvailable := u.books[k].copiesAvailable)
              && (forall i :: 0 <= i < |t.books| && i != k ==> u.books[i] == t.books[i])
              && |u.loans| == |t.loans| + 1 && u.loans[..|t.loans|] == t.loans
              && u.loans[|t.loans|].loanId == |t.loans| + 1
              && u.loans[|t.loans|].memberId == memberId
              && u.loans[|t.loans|].isbn == isbn
              && u.loans[|t.loans|].issueDate == today
              && u.loans[|t.loans|].dueDate == u.loans[|t.loans|].issueDate + LoanPeriod
              && IsOutstanding(u.loans[|t.loans|])
              && u.members == t.members
  {
    match FirstBookWith(t.books, isbn)
    case None => Err(BookNotAvailable)
    case Some(k) =>
      if t.books[k].copiesAvailable <= 0 then Err(BookNotAvailable)
      else
        var loans := t.loans + [NewLoan(|t.loans|, memberId, isbn, today)];
        assert loans[..|t.loans|] == t.loans;
        Ok(t.(books := t.books[k := TakeCopy(t.books[k])], loans := loans))
  }

  /** `return_book`. When the member holds no outstanding loan of the book it
      reports that and writes nothing. Otherwise the first such loan (in table
      order) is returned today, and every book record with the ISBN gets one
      copy back. */
  function Return(t: Tables, memberId: string, isbn: string, today: Date): (r: Result<Tables>)
    ensures r.Err? <==> forall j :: 0 <= j < |t.loans| ==> !OpenMatch(t.loans[j], memberId, isbn)
    ensures r.Err? ==> r.error == LoanNotFound
    ensures r.Ok? ==>
              var k := FirstOpenLoan(t.loans, memberId, isbn).value;
              var u := r.value;
              && OpenMatch(t.loans[k], memberId, isbn)
              && (forall j :: 0 <= j < k ==> !OpenMatch(t.loans[j], memberId, isbn))
              && |u.loans| == |t.loans|
              && u.loans[k] == t.loans[k].(returnDate := ReturnedOn(today))
              && (forall j :: 0 <= j < |t.loans| && j != k ==> u.loans[j] == t.loans[j])
              && |u.books| == |t.books|
              && (forall i :: 0 <= i < |t.books| ==>
                    u.books[i] == if t.books[i].isbn == isbn
                                  then t.books[i].(copiesAvailable := t.books[i].copiesAvailable + 1)
                                  else t.books[i])
              && u.members == t.members
  {
    match FirstOpenLoan(t.loans, memberId, isbn)
    case None => Err(LoanNotFound)
    case Some(k) =>
      Ok(t.(loans := t.loans[k := Close(t.loans[k], today)], books := IncrementCopies(t.books, isbn)))
  }

  /** `register_member`. A taken identifier is refused and nothing is
      written; otherwise one member joining today is appended. */
  function Register(t: Tables, memberId: string, name: string, password: string, email: string, today: Date)
    : (r: Result<Tables>)
    ensures r.Err? <==> MemberIdTaken(t.members, memberId)
    ensures r.Err? ==> r.error == DuplicateMemberId
    ensures r.Ok? ==>
              var u := r.value;
              && u.books == t.books && u.loans == t.loans
              && |u.members| == |t.members| + 1 && u.members[..|t.members|] == t.members
              && u.members[|t.members|].memberId == memberId
              && u.members[|t.members|].name == name
              && u.members[|t.members|].email == email
              && u.members[|t.members|].joinDate == today
              && VerifyPassword(password, u.members[|t.members|].passwordHash)
  {
    if MemberIdTaken(t.members, memberId) then Err(DuplicateMemberId)
    else
      var members := t.members + [Member(memberId, name, HashPassword(password), email, today)];
      assert members[..|t.members|] == t.members;
      Ok(t.(members := members))
  }

  /** The librarian's "Add Book" step: one record at the end, with every copy
      available. There is no check for an ISBN already in the catalogue. */
  function AddBook(t: Tables, isbn: string, title: string, author: string, copies: int): (r: Tables)
    ensures r.members == t.members && r.loans == t.loans
    ensures |r.books| == |t.books| + 1 && r.books[..|t.books|] == t.books
    ensures r.books[|t.books|].isbn == isbn
    ensures r.books[|t.books|].title == title && r.books[|t.books|].author == author
    ensures r.books[|t.books|].copiesAvailable == r.books[|t.books|].copiesTotal == copies
    ensures IsbnsOf(r.books) == IsbnsOf(t.books) + {isbn}
  {
    var books := t.books + [Book(isbn, title, author, copies, copies)];
    forall x | x in IsbnsOf(books) ensures x in IsbnsOf(t.books) + {isbn} {
      var i :| 0 <= i < |books| && books[i].isbn == x;
      if i < |t.books| { assert t.books[i].isbn == x; }
    }
    assert books[|t.books|].isbn == isbn;
    assert books[..|t.books|] == t.books;
    t.(books := books)
  }

  /** Consistent tables: ISBNs are unique, no count is negative, each book's
      available copies plus its outstanding loans make up its total, every
      outstanding loan is of a catalogued book, loans are numbered 1, 2, 3, ...
      in table order and fall due 14 days after issue, and member identifiers
      are unique. */
  ghost predicate Consistent(t: Tables) {
    && UniqueIsbns(t.books)
    && (forall i :: 0 <= i < |t.books| ==>
          0 <= t.books[i].copiesAvailable &&
          t.books[i].copiesAvailable + OutstandingFor(t.loans, t.books[i].isbn) == t.books[i].copiesTotal)
    && (forall j :: 0 <= j < |t.loans| && IsOutstanding(t.loans[j]) ==> t.loans[j].isbn in IsbnsOf(t.books))
    && (forall j :: 0 <= j < |t.loans| ==>
          t.loans[j].loanId == j + 1 && t.loans[j].dueDate == t.loans[j].issueDate + LoanPeriod)
    && UniqueMemberIds(t.members)
  }

  /** In consistent tables every book has between none and all of its copies
      on the shelf, and no two loans share an identifier. */
  lemma ConsistentBounds(t: Tables)
    requires Consistent(t)
    ensures forall i :: 0 <= i < |t.books| ==> 0 <= t.books[i].copiesAvailable <= t.books[i].copiesTotal
    ensures forall i, j :: 0 <= i < j < |t.loans| ==> t.loans[i].loanId != t.loans[j].loanId
  {
  }

  /** Empty tables are consistent. */
  lemma EmptyConsistent()
    ensures Consistent(Tables([], [], []))
  {
  }

  lemma {:induction false} IssuePreservesConsistent(t: Tables, memberId: string, isbn: string, today: Date)
    requires Consistent(t) && Issue(t, memberId, isbn, today).Ok?
    ensures Consistent(Issue(t, memberId, isbn, today).value)
  {
    var u := Issue(t, memberId, isbn, today).value;
    var k := FirstBookWith(t.books, isbn).value;
    var l := NewLoan(|t.loans|, memberId, isbn, today);
    assert u.loans == t.loans + [l] by {
      assert u.loans == u.loans[..|t.loans|] + [u.loans[|t.loans|]];
    }
    SameIsbns(t.books, u.books);
    forall i | 0 <= i < |u.books|
      ensures 0 <= u.books[i].copiesAvailable
      ensures u.books[i].copiesAvailable + OutstandingFor(u.loans, u.books[i].isbn) == u.books[i].copiesTotal
    {
      OutstandingForAppend(t.loans, l, t.books[i].isbn);
      if i != k {
        assert t.books[i].isbn != t.books[k].isbn by {
          if i < k { assert UniqueIsbns(t.books); } else { assert t.books[k].isbn != t.books[i].isbn; }
        }
      }
    }
    assert isbn == t.books[k].isbn;
  }

  lemma {:induction false} ReturnPreservesConsistent(t: Tables, memberId: string, isbn: string, today: Date)
    requires Consistent(t) && Return(t, memberId, isbn, today).Ok?
    ensures Consistent(Return(t, memberId, isbn, today).value)
  {
    var u := Return(t, memberId, isbn, today).value;
    var k := FirstOpenLoan(t.loans, memberId, isbn).value;
    var closed := Close(t.loans[k], today);
    assert u.loans == t.loans[k := closed];
    SameIsbns(t.books, u.books);
    forall i | 0 <= i < |u.books|
      ensures u.books[i].copiesAvailable + OutstandingFor(u.loans, u.books[i].isbn) == u.books[i].copiesTotal
    {
      OutstandingForUpdate(t.loans, k, closed, t.books[i].isbn);
    }
  }

  lemma RegisterPreservesConsistent(t: Tables, memberId: string, name: string, password: string,
                                    email: string, today: Date)
    requires Consistent(t) && Register(t, memberId, name, password, email, today).Ok?
    ensures Consistent(Register(t, memberId, name, password, email, today).value)
  {
    var u := Register(t, memberId, name, password, email, today).value;
    var n := |t.members|;
    forall i, j | 0 <= i < j < |u.members| ensures u.members[i].memberId != u.members[j].memberId {
      if j == n {
        assert u.members[i] == t.members[i];
      } else {
        assert u.members[i] == t.members[i] && u.members[j] == t.members[j];
      }
    }
  }

  /** Adding a book with a new ISBN and a non-negative number of copies keeps
      the tables consistent. */
  lemma AddBookPreservesConsistent(t: Tables, isbn: string, title: string, author: string, copies: int)
    requires Consistent(t) && isbn !in IsbnsOf(t.books) && copies >= 0
    ensures Consistent(AddBook(t, isbn, title, author, copies))
  {
    var u := AddBook(t, isbn, title, author, copies);
    var n := |t.books|;
    assert forall i :: 0 <= i < n ==> u.books[i] == t.books[i];
    forall j | 0 <= j < |t.loans| && IsOutstanding(t.loans[j]) ensures t.loans[j].isbn != isbn {
    }
    OutstandingForAbsent(t.loans, isbn);
    forall i, j | 0 <= i < j < |u.books| ensures u.books[i].isbn != u.books[j].isbn {
      if j == n {
        assert t.books[i].isbn in IsbnsOf(t.books);
      }
    }
  }

  /** Adding a book whose ISBN is already catalogued breaks ISBN uniqueness. */
  lemma AddBookDuplicateIsbn(t: Tables, isbn: string, title: string, author: string, copies: int)
    requires isbn in IsbnsOf(t.books)
    ensures !UniqueIsbns(AddBook(t, isbn, title, author, copies).books)
  {
    var u := AddBook(t, isbn, title, author, copies);
    var i :| 0 <= i < |t.books| && t.books[i].isbn == isbn;
    assert u.books[i] == t.books[i];
  }

  /** With a duplicate ISBN, a return puts a copy back on both records: a
      record added for an ISBN that is already out on loan then shows one copy
      more available than it has in total. */
  lemma DuplicateIsbnOvercounts(t: Tables, isbn: string, title: string, author: string, copies: int,
                                memberId: string, today: Date)
    requires exists j :: 0 <= j < |t.loans| && OpenMatch(t.loans[j], memberId, isbn)
    ensures Return(AddBook(t, isbn, title, author, copies), memberId, isbn, today).Ok?
    ensures var b := Return(AddBook(t, isbn, title, author, copies), memberId, isbn, today).value.books[|t.books|];
            b.copiesAvailable == b.copiesTotal + 1
  {
    var u := AddBook(t, isbn, title, author, copies);
    var j :| 0 <= j < |t.loans| && OpenMatch(t.loans[j], memberId, isbn);
    assert OpenMatch(u.loans[j], memberId, isbn);
  }

  /** The counting invariant on its own: with unique ISBNs, a successful issue
      keeps each book's available copies plus outstanding loans of its ISBN. */
  lemma {:induction false} IssueKeepsSum(t: Tables, memberId: string, isbn: string, today: Date, i: int)
    requires UniqueIsbns(t.books) && Issue(t, memberId, isbn, today).Ok? && 0 <= i < |t.books|
    ensures var u := Issue(t, memberId, isbn, today).value;
            u.books[i].isbn == t.books[i].isbn &&
            u.books[i].copiesAvailable + OutstandingFor(u.loans, u.books[i].isbn)
            == t.books[i].copiesAvailable + OutstandingFor(t.loans, t.books[i].isbn)
  {
    var u := Issue(t, memberId, isbn, today).value;
    var k := FirstBookWith(t.books, isbn).value;
    var l := NewLoan(|t.loans|, memberId, isbn, today);
    assert u.loans == t.loans + [l] by {
      assert u.loans == u.loans[..|t.loans|] + [u.loans[|t.loans|]];
    }
    OutstandingForAppend(t.loans, l, t.books[i].isbn);
    if i != k {
      assert t.books[i].isbn != t.books[k].isbn by {
        if i < k { assert UniqueIsbns(t.books); } else { assert t.books[k].isbn != t.books[i].isbn; }
      }
    }
  }

  /** A successful return keeps each book's available copies plus outstanding
      loans of its ISBN, whether or not ISBNs are unique. */
  lemma {:induction false} ReturnKeepsSum(t: Tables, memberId: string, isbn: string, today: Date, i: int)
    requires Return(t, memberId, isbn, today).Ok? && 0 <= i < |t.books|
    ensures var u := Return(t, memberId, isbn, today).value;
            u.books[i].isbn == t.books[i].isbn &&
            u.books[i].copiesAvailable + OutstandingFor(u.loans, u.books[i].isbn)
            == t.books[i].copiesAvailable + OutstandingFor(t.loans, t.books[i].isbn)
  {
    var u := Return(t, memberId, isbn, today).value;
    var k := FirstOpenLoan(t.loans, memberId, isbn).value;
    var closed := Close(t.loans[k], today);
    assert u.loans == t.loans[k := closed];
    OutstandingForUpdate(t.loans, k, closed, t.books[i].isbn);
  }

  /** A successful issue adds one outstanding loan of the book, to that member;
      a successful return takes exactly one away. */
  lemma {:induction false} IssueCountsLoan(t: Tables, memberId: string, isbn: string, today: Date)
    requires Issue(t, memberId, isbn, today).Ok?
    ensures OpenCount(Issue(t, memberId, isbn, today).value.loans, memberId, isbn) == OpenCount(t.loans, memberId, isbn) + 1
    ensures OutstandingFor(Issue(t, memberId, isbn, today).value.loans, isbn) == OutstandingFor(t.loans, isbn) + 1
  {
    var u := Issue(t, memberId, isbn, today).value;
    var l := NewLoan(|t.loans|, memberId, isbn, today);
    assert u.loans == t.loans + [l] by {
      assert u.loans == u.loans[..|t.loans|] + [u.loans[|t.loans|]];
    }
    OpenCountAppend(t.loans, l, memberId, isbn);
    OutstandingForAppend(t.loans, l, isbn);
  }

  lemma {:induction false} ReturnCountsLoan(t: Tables, memberId: string, isbn: string, today: Date)
    ensures Return(t, memberId, isbn, today).Err? <==> OpenCount(t.loans, memberId, isbn) == 0
    ensures Return(t, memberId, isbn, today).Ok? ==>
              OpenCount(Return(t, memberId, isbn, today).value.loans, memberId, isbn) == OpenCount(t.loans, memberId, isbn) - 1 &&
              OutstandingFor(Return(t, memberId, isbn, today).value.loans, isbn) == OutstandingFor(t.loans, isbn) - 1
  {
    OpenCountZero(t.loans, memberId, isbn);
    if Return(t, memberId, isbn, today).Ok? {
      var u := Return(t, memberId, isbn, today).value;
      var k := FirstOpenLoan(t.loans, memberId, isbn).value;
      var closed := Close(t.loans[k], today);
      assert u.loans == t.loans[k := closed];
      OpenCountUpdate(t.loans, k, closed, memberId, isbn);
      OutstandingForUpdate(t.loans, k, closed, isbn);
    }
  }

  /** Issuing a book and then returning it, for the same member, succeeds and
      leaves the catalogue as it was, provided ISBNs are unique. */
  lemma {:induction false} IssueThenReturnRestoresBooks(t: Tables, memberId: string, isbn: string, issued: Date, returned: Date)
    requires UniqueIsbns(t.books) && Issue(t, memberId, isbn, issued).Ok?
    ensures Return(Issue(t, memberId, isbn, issued).value, memberId, isbn, returned).Ok?
    ensures Return(Issue(t, memberId, isbn, issued).value, memberId, isbn, returned).value.books == t.books
  {
    var u := Issue(t, memberId, isbn, issued).value;
    var k := FirstBookWith(t.books, isbn).value;
    assert OpenMatch(u.loans[|t.loans|], memberId, isbn);
    var w := Return(u, memberId, isbn, returned).value;
    forall i | 0 <= i < |t.books| ensures w.books[i] == t.books[i] {
      if i != k {
        assert t.books[i].isbn != t.books[k].isbn by {
          if i < k { assert UniqueIsbns(t.books); } else { assert t.books[k].isbn != t.books[i].isbn; }
        }
      }
    }
  }

  /** After a successful registration, logging in with the same identifier and
      password succeeds and yields the new member. */
  lemma RegisterThenLogin(t: Tables, memberId: string, name: string, password: string, email: string, today: Date)
    requires Register(t, memberId, name, password, email, today).Ok?
    ensures Login(Register(t, memberId, name, password, email, today).value.members, memberId, password)
         == Some(Member(memberId, name, HashPassword(password), email, today))
  {
    var u := Register(t, memberId, name, password, email, today).value;
    var n := |t.members|;
    assert u.members[n] == Member(memberId, name, HashPassword(password), email, today);
    forall j | 0 <= j < n ensures !Authenticates(u.members[j], memberId, password) {
      assert u.members[j] == t.members[j];
    }
  }

  /** Issuing extends the overdue report by the new loan exactly when that
      loan is already overdue on the report's date. */
  lemma IssueOverdue(t: Tables, memberId: string, isbn: string, today: Date, asOf: Date)
    requires Issue(t, memberId, isbn, today).Ok?
    ensures Overdue(Issue(t, memberId, isbn, today).value.loans, asOf)
         == Overdue(t.loans, asOf) + if today + LoanPeriod < asOf then [NewLoan(|t.loans|, memberId, isbn, today)] else []
  {
    var u := Issue(t, memberId, isbn, today).value;
    var l := NewLoan(|t.loans|, memberId, isbn, today);
    assert u.loans == t.loans + [l] by {
      assert u.loans == u.loans[..|t.loans|] + [u.loans[|t.loans|]];
    }
    OverdueAppend(t.loans, [l], asOf);
    OverdueSingle(l, asOf);
  }

  /** Returning drops the returned loan from the overdue report, if it was
      there, and leaves the rest of the report as it was. */
  lemma ReturnOverdue(t: Tables, memberId: string, isbn: string, today: Date, asOf: Date)
    requires Return(t, memberId, isbn, today).Ok?
    ensures var k := FirstOpenLoan(t.loans, memberId, isbn).value;
            multiset(Overdue(Return(t, memberId, isbn, today).value.loans, asOf))
              + (if t.loans[k].dueDate < asOf then multiset{t.loans[k]} else multiset{})
            == multiset(Overdue(t.loans, asOf))
    ensures var k := FirstOpenLoan(t.loans, memberId, isbn).value;
            Overdue(Return(t, memberId, isbn, today).value.loans, asOf)
            == Overdue(t.loans[..k], asOf) + Overdue(t.loans[k + 1..], asOf)
  {
    var k := FirstOpenLoan(t.loans, memberId, isbn).value;
    var closed := Close(t.loans[k], today);
    var u := Return(t, memberId, isbn, today).value;
    assert u.loans == t.loans[k := closed];
    OverdueClose(t.loans, k, closed, asOf);
    OverdueSingle(t.loans[k], asOf);
    assert IsOverdue(t.loans[k], asOf) <==> t.loans[k].dueDate < asOf;
  }

  /** The two-copy walk-through: two issues empty the shelf, a third is
      refused, one return puts a copy back and closes only the first loan. */
  lemma TwoCopiesScenario()
    ensures var t0 := AddBook(Tables([], [], []), "ISBN001", "Title", "Author", 2);
            var r1 := Issue(t0, "M1", "ISBN001", 100);
            r1.Ok? && r1.value.books[0].copiesAvailable == 1 &&
            r1.value.loans[0].dueDate == 114 && IsOutstanding(r1.value.loans[0]) &&
            var r2 := Issue(r1.value, "M1", "ISBN001", 101);
            r2.Ok? && r2.value.books[0].copiesAvailable == 0 &&
            Issue(r2.value, "M1", "ISBN001", 102) == Err(BookNotAvailable) &&
            var r3 := Return(r2.value, "M1", "ISBN001", 103);
            r3.Ok? && r3.value.books[0].copiesAvailable == 1 &&
            r3.value.loans[0].returnDate == ReturnedOn(103) && IsOutstanding(r3.value.loans[1])
  {
    var t0 := AddBook(Tables([], [], []), "ISBN001", "Title", "Author", 2);
    assert FirstBookWith(t0.books, "ISBN001") == Some(0);
    var t1 := Issue(t0, "M1", "ISBN001", 100).value;
    assert FirstBookWith(t1.books, "ISBN001") == Some(0);
    var t2 := Issue(t1, "M1", "ISBN001", 101).value;
    assert FirstBookWith(t2.books, "ISBN001") == Some(0);
    assert OpenMatch(t2.loans[0], "M1", "ISBN001");
    assert FirstOpenLoan(t2.loans, "M1", "ISBN001") == Some(0);
  }

  /** Registering the same identifier twice: the second attempt is refused. */
  lemma DuplicateRegistrationScenario(t: Tables, name: string, password: string, email: string, today: Date)
    requires Register(t, "M1", name, password, email, today).Ok?
    ensures var u := Register(t, "M1", name, password, email, today).value;
            Register(u, "M1", name, password, email, today + 1) == Err(DuplicateMemberId)
  {
    var u := Register(t, "M1", name, password, email, today).value;
    assert u.members[|t.members|].memberId == "M1";
  }
}
