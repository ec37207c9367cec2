/** The loan store: persisted loans in insertion order, and the three
    queries over them (an unreturned loan exists for a book; loans whose
    book ISBN or customer matches, paginated; unreturned loans dated before
    a threshold). Dates are day numbers; "today" is a parameter. */
module Loans {
  import opened Domain
  import opened Paging

  /** The loans of `loans` that satisfy `p`, in their stored order. */
  function Filter(loans: seq<Loan>, p: Loan -> bool): (r: seq<Loan>)
    ensures |r| <= |loans|
    ensures forall l :: l in r <==> l in loans && p(l)
  {
    if loans == [] then []
    else if p(loans[0]) then [loans[0]] + Filter(loans[1..], p)
    else Filter(loans[1..], p)
  }

  /** Filtering a store that grew by appending yields the old answer
      followed by the answer on the appended loans. */
  lemma {:induction false} FilterAppend(a: seq<Loan>, b: seq<Loan>, p: Loan -> bool)
    ensures Filter(a + b, p) == Filter(a, p) + Filter(b, p)
  {
    if a != [] {
      assert (a + b)[1..] == a[1..] + b;
      FilterAppend(a[1..], b, p);
    } else {
      assert a + b == b;
    }
  }

  predicate ActiveFor(l: Loan, bookId: int) {
    l.bookId == bookId && !l.returned
  }

  predicate MatchesIsbnOrCustomer(l: Loan, isbn: string, customer: string) {
    l.isbn == isbn || l.customer == customer
  }

  predicate OverdueAt(l: Loan, threshold: int) {
    l.loanDate < threshold && !l.returned
  }

  /** Whether the book has a loan that is not returned. */
  function ExistsByBookAndNotReturned(loans: seq<Loan>, bookId: int): (b: bool)
    ensures b <==> exists l :: l in loans && l.bookId == bookId && !l.returned
  {
    var active := Filter(loans, l => ActiveFor(l, bookId));
    assert active != [] ==> active[0] in active;
    active != []
  }

  /** Loans whose book ISBN equals `isbn` OR whose customer equals
      `customer`, as page `request` of all such loans in stored order. */
  function FindByBookIsbnOrCustomer(loans: seq<Loan>, isbn: string, customer: string, request: PageRequest): (p: Page<Loan>)
    ensures p.pageable == request
    ensures p.totalElements == |Filter(loans, l => MatchesIsbnOrCustomer(l, isbn, customer))|
    ensures forall l :: l in p.content ==> l in loans && (l.isbn == isbn || l.customer == customer)
  {
    PageOf(Filter(loans, l => MatchesIsbnOrCustomer(l, isbn, customer)), request)
  }

  /** The unreturned loans dated strictly before `threshold`. */
  function FindByLoanDateLessThanAndNotReturned(loans: seq<Loan>, threshold: int): (r: seq<Loan>)
    ensures forall l :: l in r <==> l in loans && l.loanDate < threshold && !l.returned
  {
    Filter(loans, l => OverdueAt(l, threshold))
  }

  /** A loan on the first page of results is listed when every match fits
      on that page: then the page holds exactly the matching loans. */
  lemma IsbnOrCustomerFirstPageComplete(loans: seq<Loan>, isbn: string, customer: string, size: nat)
    requires |Filter(loans, l => MatchesIsbnOrCustomer(l, isbn, customer))| <= size
    ensures var p := FindByBookIsbnOrCustomer(loans, isbn, customer, PageRequest(0, size));
      forall l :: l in p.content <==> l in loans && (l.isbn == isbn || l.customer == customer)
  {
  }

  /** The contents of pages 0 .. n-1 of the ISBN-or-customer query, one
      after the other. */
  function IsbnOrCustomerPages(loans: seq<Loan>, isbn: string, customer: string, size: nat, n: nat): seq<Loan> {
    if n == 0 then []
    else IsbnOrCustomerPages(loans, isbn, customer, size, n - 1)
         + FindByBookIsbnOrCustomer(loans, isbn, customer, PageRequest(n - 1, size)).content
  }

  lemma {:induction false} IsbnOrCustomerPagesAreSlices(loans: seq<Loan>, isbn: string, customer: string, size: nat, n: nat)
    ensures IsbnOrCustomerPages(loans, isbn, customer, size, n)
         == Pages(Filter(loans, l => MatchesIsbnOrCustomer(l, isbn, customer)), size, n)
  {
    if n > 0 {
      IsbnOrCustomerPagesAreSlices(loans, isbn, customer, size, n - 1);
      var m := Filter(loans, l => MatchesIsbnOrCustomer(l, isbn, customer));
      assert FindByBookIsbnOrCustomer(loans, isbn, customer, PageRequest(n - 1, size)).content
          == Slice(m, PageRequest(n - 1, size));
    }
  }

  /** Reading every page the ISBN-or-customer query returns, as many as its
      reported total calls for, yields every matching loan exactly once,
      in stored order. */
  lemma IsbnOrCustomerPagesCoverAll(loans: seq<Loan>, isbn: string, customer: string, size: nat)
    requires size > 0
    ensures var total := FindByBookIsbnOrCustomer(loans, isbn, customer, PageRequest(0, size)).totalElements;
      IsbnOrCustomerPages(loans, isbn, customer, size, PageCount(total, size))
        == Filter(loans, l => MatchesIsbnOrCustomer(l, isbn, customer))
  {
    var m := Filter(loans, l => MatchesIsbnOrCustomer(l, isbn, customer));
    IsbnOrCustomerPagesAreSlices(loans, isbn, customer, size, PageCount(|m|, size));
    PagesCoverAll(m, size);
  }

  /** A newly built loan is not returned, so after persisting it its book
      has an active loan. */
  lemma ActiveAfterPersist(loans: seq<Loan>, bookId: int, isbn: string, customer: string, loanDate: int)
    ensures ExistsByBookAndNotReturned(loans + [NewLoan(bookId, isbn, customer, loanDate)], bookId)
  {
  }

  /** Once every loan of the book is returned, it has no active loan. */
  lemma NoActiveWhenAllReturned(loans: seq<Loan>, bookId: int)
    requires forall k :: 0 <= k < |loans| && loans[k].bookId == bookId ==> loans[k].returned
    ensures !ExistsByBookAndNotReturned(loans, bookId)
  {
  }

  /** The overdue threshold is strict: a loan dated on the threshold day,
      or returned, is never reported; an unreturned loan dated any earlier
      day of the store is. */
  lemma OverdueBoundary(loans: seq<Loan>, l: Loan, threshold: int)
    requires l in loans
    ensures l.loanDate == threshold ==> l !in FindByLoanDateLessThanAndNotReturned(loans, threshold)
    ensures l.returned ==> l !in FindByLoanDateLessThanAndNotReturned(loans, threshold)
    ensures l.loanDate < threshold && !l.returned ==> l in FindByLoanDateLessThanAndNotReturned(loans, threshold)
  {
  }

  /** Returning a loan takes it out of the overdue report. */
  lemma {:induction false} ReturnedLeavesOverdue(a: seq<Loan>, l: Loan, b: seq<Loan>, threshold: int)
    ensures FindByLoanDateLessThanAndNotReturned(a + [l.(returned := true)] + b, threshold)
         == FindByLoanDateLessThanAndNotReturned(a, threshold) + FindByLoanDateLessThanAndNotReturned(b, threshold)
  {
    var p := (x: Loan) => OverdueAt(x, threshold);
    var r := l.(returned := true);
    FilterAppend(a + [r], b, p);
    FilterAppend(a, [r], p);
    assert Filter([r], p) == [];
  }

  /** The persisted loans, in the order they were persisted. */
  class LoanStore {
    var loans: seq<Loan>

    constructor ()
      ensures loans == []
    {
      loans := [];
    }

    /** Appends a loan to the store. */
    method Persist(loan: Loan)
      modifies this
      ensures loans == old(loans) + [loan]
    {
      loans := loans + [loan];
    }
  }

  /** A loan of book "123" to "Fulano" built and persisted on day `today`
      (or `today - 5`): its book has an active loan; it is the single match
      for ISBN "123" or customer "Fulano" on page 0 of size 10; it is
      reported overdue at `today - 4` when dated `today - 5`, and not when
      dated `today`. */
  method LoanQueriesScenario(today: int, bookId: int)
    returns (active: bool, page: Page<Loan>, overdueOld: seq<Loan>, overdueNew: seq<Loan>)
    ensures active
    ensures page == Page([NewLoan(bookId, "123", "Fulano", today)], PageRequest(0, 10), 1)
    ensures overdueOld == [NewLoan(bookId, "123", "Fulano", today - 5)]
    ensures overdueNew == []
  {
    var recent := new LoanStore();
    var loan := NewLoan(bookId, "123", "Fulano", today);
    recent.Persist(loan);
    active := ExistsByBookAndNotReturned(recent.loans, bookId);
    page := FindByBookIsbnOrCustomer(recent.loans, "123", "Fulano", PageRequest(0, 10));
    overdueNew := FindByLoanDateLessThanAndNotReturned(recent.loans, today - 4);

    var older := new LoanStore();
    older.Persist(NewLoan(bookId, "123", "Fulano", today - 5));
    overdueOld := FindByLoanDateLessThanAndNotReturned(older.loans, today - 4);
  }
}
