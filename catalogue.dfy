/** The book table: lookup by ISBN and the availability counters. */
module Catalogue {
  import opened Records
  import opened Outcomes

  /** The lookup in `issue_book`: the index of the first book with this ISBN,
      or `None` when no book has it. */
  function FirstBookWith(books: seq<Book>, isbn: string): (r: Option<nat>)
    ensures r.Some? ==> r.value < |books| && books[r.value].isbn == isbn
    ensures r.Some? ==> forall j :: 0 <= j < r.value ==> books[j].isbn != isbn
    ensures r.None? <==> forall j :: 0 <= j < |books| ==> books[j].isbn != isbn
  {
    if |books| == 0 then None
    else if books[0].isbn == isbn then Some(0)
    else match FirstBookWith(books[1..], isbn)
      case None => None
      case Some(i) => Some(i + 1)
  }

  /** The same book with one copy fewer available. */
  function TakeCopy(b: Book): Book {
    b.(copiesAvailable := b.copiesAvailable - 1)
  }

  /** The same book with one copy more available. */
  function PutBackCopy(b: Book): Book {
    b.(copiesAvailable := b.copiesAvailable + 1)
  }

  /** The book loop in `return_book`: every record with this ISBN gets one
      copy back, every other record is kept as it is. */
  function IncrementCopies(books: seq<Book>, isbn: string): (r: seq<Book>)
    ensures |r| == |books|
    ensures forall i :: 0 <= i < |books| && books[i].isbn == isbn ==> r[i] == PutBackCopy(books[i])
    ensures forall i :: 0 <= i < |books| && books[i].isbn != isbn ==> r[i] == books[i]
  {
    if |books| == 0 then []
    else
      var rest := IncrementCopies(books[1..], isbn);
      [if books[0].isbn == isbn then PutBackCopy(books[0]) else books[0]] + rest
  }

  /** The ISBNs in the catalogue. */
  function IsbnsOf(books: seq<Book>): set<string> {
    set i | 0 <= i < |books| :: books[i].isbn
  }

  /** No two book records share an ISBN. The source does not enforce this. */
  predicate UniqueIsbns(books: seq<Book>) {
    forall i, j :: 0 <= i < j < |books| ==> books[i].isbn != books[j].isbn
  }

  /** Two tables whose records carry the same ISBNs, position by position. */
  lemma SameIsbns(a: seq<Book>, b: seq<Book>)
    requires |a| == |b| && forall i :: 0 <= i < |a| ==> a[i].isbn == b[i].isbn
    ensures IsbnsOf(a) == IsbnsOf(b)
  {
    forall x | x in IsbnsOf(a) ensures x in IsbnsOf(b) {
      var i :| 0 <= i < |a| && a[i].isbn == x;
      assert b[i].isbn == x;
    }
    forall x | x in IsbnsOf(b) ensures x in IsbnsOf(a) {
      var i :| 0 <= i < |b| && b[i].isbn == x;
      assert a[i].isbn == x;
    }
  }
}
