/** The loan table: the two-state loan (outstanding, then returned), the
    first-match lookup of `return_book` and the counts of outstanding loans. */
module LoanLedger {
  import opened Records
  import opened Outcomes

  /** The test in `return_book`'s loop: this member's outstanding loan of this book. */
  predicate OpenMatch(l: Loan, memberId: string, isbn: string) {
    l.memberId == memberId && l.isbn == isbn && IsOutstanding(l)
  }

  /** The index of the first outstanding loan of `isbn` to `memberId`, or `None`. */
  function FirstOpenLoan(loans: seq<Loan>, memberId: string, isbn: string): (r: Option<nat>)
    ensures r.Some? ==> r.value < |loans| && OpenMatch(loans[r.value], memberId, isbn)
    ensures r.Some? ==> forall j :: 0 <= j < r.value ==> !OpenMatch(loans[j], memberId, isbn)
    ensures r.None? <==> forall j :: 0 <= j < |loans| ==> !OpenMatch(loans[j], memberId, isbn)
  {
    if |loans| == 0 then None
    else if OpenMatch(loans[0], memberId, isbn) then Some(0)
    else match FirstOpenLoan(loans[1..], memberId, isbn)
      case None => None
      case Some(i) => Some(i + 1)
  }

  /** The loan after it is returned on `today`: its return date is set and
      every other field is kept. */
  function Close(l: Loan, today: Date): (r: Loan)
    ensures !IsOutstanding(r)
    ensures r.returnDate == ReturnedOn(today)
    ensures r.(returnDate := l.returnDate) == l
  {
    l.(returnDate := ReturnedOn(today))
  }

  /** Number of outstanding loans of `isbn`, whoever holds them. */
  function OutstandingFor(loans: seq<Loan>, isbn: string): nat
  {
    if |loans| == 0 then 0
    else OutstandingFor(loans[..|loans| - 1], isbn) + OutstandingWeight(loans[|loans| - 1], isbn)
  }

  function OutstandingWeight(l: Loan, isbn: string): nat {
    if IsOutstanding(l) && l.isbn == isbn then 1 else 0
  }

  /** Number of outstanding loans of `isbn` held by `memberId`. */
  function OpenCount(loans: seq<Loan>, memberId: string, isbn: string): nat
  {
    if |loans| == 0 then 0
    else OpenCount(loans[..|loans| - 1], memberId, isbn) + OpenWeight(loans[|loans| - 1], memberId, isbn)
  }

  function OpenWeight(l: Loan, memberId: string, isbn: string): nat {
    if OpenMatch(l, memberId, isbn) then 1 else 0
  }

  /** Appending a loan adds its own weight to the count. */
  lemma OutstandingForAppend(loans: seq<Loan>, l: Loan, isbn: string)
    ensures OutstandingFor(loans + [l], isbn) == OutstandingFor(loans, isbn) + OutstandingWeight(l, isbn)
  {
    assert (loans + [l])[..|loans|] == loans;
  }

  lemma OpenCountAppend(loans: seq<Loan>, l: Loan, memberId: string, isbn: string)
    ensures OpenCount(loans + [l], memberId, isbn) == OpenCount(loans, memberId, isbn) + OpenWeight(l, memberId, isbn)
  {
    assert (loans + [l])[..|loans|] == loans;
  }

  /** Replacing one loan changes the count by the difference of the two weights. */
  lemma {:induction false} OutstandingForUpdate(loans: seq<Loan>, k: int, l: Loan, isbn: string)
    requires 0 <= k < |loans|
    ensures OutstandingFor(loans[k := l], isbn) + OutstandingWeight(loans[k], isbn)
         == OutstandingFor(loans, isbn) + OutstandingWeight(l, isbn)
  {
    var n := |loans|;
    var u := loans[k := l];
    if k == n - 1 {
      assert u[..n - 1] == loans[..n - 1];
    } else {
      assert u[..n - 1] == loans[..n - 1][k := l];
      OutstandingForUpdate(loans[..n - 1], k, l, isbn);
    }
  }

  lemma {:induction false} OpenCountUpdate(loans: seq<Loan>, k: int, l: Loan, memberId: string, isbn: string)
    requires 0 <= k < |loans|
    ensures OpenCount(loans[k := l], memberId, isbn) + OpenWeight(loans[k], memberId, isbn)
         == OpenCount(loans, memberId, isbn) + OpenWeight(l, memberId, isbn)
  {
    var n := |loans|;
    var u := loans[k := l];
    if k == n - 1 {
      assert u[..n - 1] == loans[..n - 1];
    } else {
      assert u[..n - 1] == loans[..n - 1][k := l];
      OpenCountUpdate(loans[..n - 1], k, l, memberId, isbn);
    }
  }

  /** A book nobody has borrowed has no outstanding loans. */
  lemma {:induction false} OutstandingForAbsent(loans: seq<Loan>, isbn: string)
    requires forall j :: 0 <= j < |loans| && IsOutstanding(loans[j]) ==> loans[j].isbn != isbn
    ensures OutstandingFor(loans, isbn) == 0
  {
    if |loans| > 0 {
      OutstandingForAbsent(loans[..|loans| - 1], isbn);
    }
  }

  /** A member holds no outstanding loan of a book exactly when the count is zero. */
  lemma {:induction false} OpenCountZero(loans: seq<Loan>, memberId: string, isbn: string)
    ensures OpenCount(loans, memberId, isbn) == 0 <==> forall j :: 0 <= j < |loans| ==> !OpenMatch(loans[j], memberId, isbn)
  {
    if |loans| > 0 {
      var n := |loans|;
      OpenCountZero(loans[..n - 1], memberId, isbn);
      assert forall j :: 0 <= j < n - 1 ==> loans[..n - 1][j] == loans[j];
    }
  }
}
