/** The loan record (a circulation row) and its pure rules: the due date
    fixed at creation, the overdue test and the fine. */
module Circulation {
  import opened Config
  import opened Results

  /** One loan of one copy of a book to one member. Times are seconds;
      `returnDate` is `None` while the loan is active; the fine is in
      cents. */
  datatype Loan = Loan(
    bookId: nat,
    memberId: nat,
    checkoutDate: int,
    dueDate: int,
    returnDate: Option<int>,
    fineAmount: int,
    finePaid: bool)

  predicate IsActive(l: Loan)
  {
    l.returnDate.None?
  }

  /** The record built when a loan is created: the checkout time defaults
      to `now`, the due date is one loan period later, and the fine
      columns take their defaults (0 and not paid). */
  function NewLoan(bookId: nat, memberId: nat, checkoutDate: Option<int>, now: int): (l: Loan)
    ensures l.bookId == bookId && l.memberId == memberId
    ensures checkoutDate.None? ==> l.checkoutDate == now
    ensures checkoutDate.Some? ==> l.checkoutDate == checkoutDate.value
    ensures l.dueDate - l.checkoutDate == MaxLoanDays * SecondsPerDay
    ensures IsActive(l) && l.fineAmount == 0 && !l.finePaid
  {
    var start := if checkoutDate.Some? then checkoutDate.value else now;
    Loan(bookId, memberId, start, start + LoanPeriod, None, 0, false)
  }

  /** The time the overdue test and the fine look at: the return time of
      a returned loan, the current time otherwise. */
  function EffectiveReturn(l: Loan, now: int): int
  {
    if l.returnDate.Some? then l.returnDate.value else now
  }

  /** `is_overdue`: the return time, or `now` for an unreturned loan, is
      strictly after the due date. */
  predicate IsOverdue(l: Loan, now: int)
    ensures IsOverdue(l, now) <==> EffectiveReturn(l, now) > l.dueDate
  {
    if l.returnDate.Some? then l.returnDate.value > l.dueDate
    else now > l.dueDate
  }

  /** The `days` part of a duration of `seconds` (rounded down, also for
      a negative duration). */
  function WholeDays(seconds: int): int
  {
    seconds / SecondsPerDay
  }

  function Max(a: int, b: int): int
  {
    if a >= b then a else b
  }

  /** Reference form of the fine for a loan due at `due` and given back
      (or still out) at time `t`: whole days late, at least 0, times the
      daily rate. */
  function FineAt(due: int, t: int): int
  {
    Max(0, WholeDays(t - due)) * FinePerDayCents
  }

  /** The fine of a loan as the loan record computes it: nothing unless
      the loan is overdue, otherwise the whole days between the due date
      and the return time (or `now`) at the daily rate. */
  function CalculateFine(l: Loan, now: int): (fine: int)
    ensures fine >= 0
    ensures !IsOverdue(l, now) ==> fine == 0
    ensures fine == FineAt(l.dueDate, EffectiveReturn(l, now))
  {
    if !IsOverdue(l, now) then 0
    else
      var daysOverdue :=
        if l.returnDate.Some? then WholeDays(l.returnDate.value - l.dueDate)
        else WholeDays(now - l.dueDate);
      Max(0, daysOverdue) * FinePerDayCents
  }

  /** The loan after `return_book` at time `now`: returned at `now`, with
      the fine computed from that return time. Nothing else changes. */
  function ReturnedLoan(l: Loan, now: int): (r: Loan)
    ensures r.returnDate == Some(now)
    ensures r.fineAmount == FineAt(l.dueDate, now)
    ensures r.bookId == l.bookId && r.memberId == l.memberId
    ensures r.checkoutDate == l.checkoutDate && r.dueDate == l.dueDate
    ensures r.finePaid == l.finePaid
  {
    var returned := l.(returnDate := Some(now));
    returned.(fineAmount := CalculateFine(returned, now))
  }

  /** A loan returned on or before its due date owes nothing. */
  lemma NoFineWhenOnTime(l: Loan, now: int)
    requires l.returnDate.Some? && l.returnDate.value <= l.dueDate
    ensures CalculateFine(l, now) == 0
  {
  }

  /** The fine is exactly the whole days late times the daily rate. */
  lemma {:induction false} FineForWholeDays(due: int, days: nat, extra: int)
    requires 0 <= extra < SecondsPerDay
    ensures FineAt(due, due + days * SecondsPerDay + extra) == days * FinePerDayCents
  {
    assert (days * SecondsPerDay + extra) / SecondsPerDay == days;
  }

  /** Being late by less than one whole day costs nothing. */
  lemma {:induction false} NoFineWithinFirstDay(due: int, t: int)
    requires t - due < SecondsPerDay
    ensures FineAt(due, t) == 0
  {
    assert WholeDays(t - due) <= 0;
  }

  lemma {:induction false} WholeDaysMonotone(a: int, b: int)
    requires a <= b
    ensures WholeDays(a) <= WholeDays(b)
  {
    var qa, qb := a / SecondsPerDay, b / SecondsPerDay;
    assert a == qa * SecondsPerDay + a % SecondsPerDay;
    assert b == qb * SecondsPerDay + b % SecondsPerDay;
  }

  /** The later the return, the larger (or equal) the fine. */
  lemma {:induction false} FineMonotone(due: int, t1: int, t2: int)
    requires t1 <= t2
    ensures 0 <= FineAt(due, t1) <= FineAt(due, t2)
  {
    WholeDaysMonotone(t1 - due, t2 - due);
  }

  /** Returning 10 days late costs strictly more than returning 3 days
      late. */
  lemma TenDaysLateCostsMore(due: int)
    ensures FineAt(due, due + 10 * SecondsPerDay) > FineAt(due, due + 3 * SecondsPerDay)
  {
    FineForWholeDays(due, 10, 0);
    FineForWholeDays(due, 3, 0);
  }

  /** A loan checked out on day 0 and returned on day 20 is 6 days late
      and owes 6 * 25 = 150 cents. */
  lemma ReturnOnDayTwenty(bookId: nat, memberId: nat, now: int)
    ensures ReturnedLoan(NewLoan(bookId, memberId, Some(0), now), 20 * SecondsPerDay).fineAmount == 150
  {
    FineForWholeDays(LoanPeriod, 6, 0);
  }

  /** A freshly created loan is not overdue and owes nothing at its
      checkout time. */
  lemma NewLoanNotOverdue(bookId: nat, memberId: nat, now: int)
    ensures !IsOverdue(NewLoan(bookId, memberId, None, now), now)
    ensures CalculateFine(NewLoan(bookId, memberId, None, now), now) == 0
  {
  }
}
