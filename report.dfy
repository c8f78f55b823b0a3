/** The overdue report: the outstanding loans whose due date is before today. */
module Reporting {
  import opened Records

  /** The filter condition of `overdue_report`. */
  predicate IsOverdue(l: Loan, today: Date) {
    IsOutstanding(l) && l.dueDate < today
  }

  /** `overdue_report`: the overdue loans, in table order. The report is a
      value computed from the loans; nothing is changed. */
  function Overdue(loans: seq<Loan>, today: Date): (r: seq<Loan>)
    ensures |r| <= |loans|
    ensures forall l :: l in r <==> l in loans && IsOverdue(l, today)
    ensures forall i :: 0 <= i < |r| ==> IsOutstanding(r[i]) && r[i].dueDate < today
  {
    if |loans| == 0 then []
    else
      var rest := Overdue(loans[1..], today);
      assert forall l :: l in loans <==> l == loans[0] || l in loans[1..];
      (if IsOverdue(loans[0], today) then [loans[0]] else []) + rest
  }

  /** The report of two tables laid end to end is the two reports laid end to
      end: the report keeps the table's order. */
  lemma {:induction false} OverdueAppend(a: seq<Loan>, b: seq<Loan>, today: Date)
    ensures Overdue(a + b, today) == Overdue(a, today) + Overdue(b, today)
  {
    if |a| == 0 {
      assert a + b == b;
    } else {
      assert (a + b)[1..] == a[1..] + b;
      OverdueAppend(a[1..], b, today);
    }
  }

  /** The report of a one-loan table holds that loan exactly when it is overdue. */
  lemma OverdueSingle(l: Loan, today: Date)
    ensures Overdue([l], today) == if IsOverdue(l, today) then [l] else []
  {
    assert [l][1..] == [];
  }

  /** Returning a loan removes it from the report (if it was there) and
      changes nothing else in the report. */
  lemma OverdueClose(loans: seq<Loan>, k: int, l: Loan, today: Date)
    requires 0 <= k < |loans| && !IsOutstanding(l)
    ensures multiset(Overdue(loans[k := l], today)) + multiset(Overdue([loans[k]], today))
         == multiset(Overdue(loans, today))
    ensures Overdue(loans[k := l], today) == Overdue(loans[..k], today) + Overdue(loans[k + 1..], today)
  {
    var pre, post := loans[..k], loans[k + 1..];
    var closed := loans[k := l];
    assert loans == (pre + [loans[k]]) + post;
    assert closed == (pre + [l]) + post;
    OverdueSingle(l, today);
    assert Overdue(closed, today) == Overdue(pre, today) + Overdue(post, today) by {
      OverdueAppend(pre + [l], post, today);
      OverdueAppend(pre, [l], today);
      assert Overdue(pre + [l], today) == Overdue(pre, today);
    }
    assert Overdue(loans, today) == Overdue(pre, today) + Overdue([loans[k]], today) + Overdue(post, today) by {
      OverdueAppend(pre + [loans[k]], post, today);
      OverdueAppend(pre, [loans[k]], today);
    }
  }
}
