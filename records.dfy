/** The three record shapes of the library (books, members, loans), with every
    CSV row's fields kept by name. Counts are integers and dates are day
    numbers: the source writes dates as zero-padded `%Y-%m-%d` text, whose
    string order is the order of the day numbers. */
module Records {

  /** A calendar date, as a day number. Adding 14 days is `+ 14`. */
  type Date = int

  /** The loan period: a loan falls due 14 days after it is issued. */
  const LoanPeriod: int := 14

  /** The `ReturnDate` column: empty text while the loan is outstanding,
      the day of return once it has been returned. */
  datatype ReturnDate = Outstanding | ReturnedOn(day: Date)

  datatype Book = Book(
    isbn: string,
    title: string,
    author: string,
    copiesTotal: int,
    copiesAvailable: int)

  datatype Member = Member(
    memberId: string,
    name: string,
    passwordHash: string,
    email: string,
    joinDate: Date)

  datatype Loan = Loan(
    loanId: int,
    memberId: string,
    isbn: string,
    issueDate: Date,
    dueDate: Date,
    returnDate: ReturnDate)

  /** A loan is outstanding exactly when its return date is unset. */
  predicate IsOutstanding(l: Loan) {
    l.returnDate == Outstanding
  }
}

/** Optional values, and the failures the library operations report. */
module Outcomes {

  datatype Option<T> = None | Some(value: T)

  /** `BookNotAvailable` is the one exception `issue_book` raises, both for an
      unknown ISBN and for a book with no copies left; `LoanNotFound` is the
      "not found or already returned" outcome of `return_book`;
      `DuplicateMemberId` is the exception of `register_member`. */
  datatype Error = BookNotAvailable | LoanNotFound | DuplicateMemberId

  datatype Result<T> = Ok(value: T) | Err(error: Error)
}
