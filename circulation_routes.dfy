/** The pure parts of the circulation handlers: the checkout guards (as
    the handler is written and as it is evidently meant), the renewed
    loan record and the overdue listing. */
module CirculationRoutes {
  import opened Config
  import opened Results
  import opened Collections
  import opened Circulation
  import opened BookModel
  import opened MemberModel

  /** The first refusal of a checkout of book `bookId` to member
      `memberId` at time `now`, or `None` when the loan is granted. The
      guards run in order: both records exist, a copy is on the shelf,
      the member is under the loan limit, the member has nothing overdue. */
  function CheckoutRefusal(books: map<nat, Book>, members: map<nat, Member>, loans: map<nat, Loan>,
                           bookId: nat, memberId: nat, now: int): (r: Option<Error>)
    ensures r == Some(NotFound) <==> bookId !in books || memberId !in members
    ensures r == Some(BookUnavailable) <==>
      bookId in books && memberId in members && books[bookId].availableQuantity <= 0
    ensures r == Some(LoanLimitExceeded) <==>
      bookId in books && memberId in members && books[bookId].availableQuantity > 0 &&
      ActiveLoanCount(loans, memberId) >= MaxBooksPerMember
    ensures r == Some(MemberHasOverdueBooks) <==>
      bookId in books && memberId in members && books[bookId].availableQuantity > 0 &&
      ActiveLoanCount(loans, memberId) < MaxBooksPerMember && HasOverdueBooks(loans, memberId, now)
    ensures r == None <==>
      bookId in books && memberId in members && books[bookId].availableQuantity > 0 &&
      ActiveLoanCount(loans, memberId) < MaxBooksPerMember && !HasOverdueBooks(loans, memberId, now)
  {
    if bookId !in books || memberId !in members then Some(NotFound)
    else if !IsAvailable(books[bookId]) then Some(BookUnavailable)
    else if ActiveLoanCount(loans, memberId) >= MaxBooksPerMember then Some(LoanLimitExceeded)
    else if HasOverdueBooks(loans, memberId, now) then Some(MemberHasOverdueBooks)
    else None
  }

  /** The checkout handler as written: the limit check reads a setting
      (`MAX_BOOKS_PER_USER`) that the configuration does not define, so
      once the book is found to be available the handler stops with an
      attribute error, before anything is written. */
  function CheckoutAsWritten(books: map<nat, Book>, members: map<nat, Member>, loans: map<nat, Loan>,
                             bookId: nat, memberId: nat, now: int): (r: Option<Error>)
    ensures r.Some?
    ensures r == Some(UndefinedSetting) <==>
      bookId in books && memberId in members && books[bookId].availableQuantity > 0
  {
    if bookId !in books || memberId !in members then Some(NotFound)
    else if !IsAvailable(books[bookId]) then Some(BookUnavailable)
    else Some(UndefinedSetting)
  }

  /** The two agree on every refusal before the limit check, and differ
      on every checkout that reaches it. */
  lemma AsWrittenDiffersExactlyAtLimitCheck(books: map<nat, Book>, members: map<nat, Member>,
                                            loans: map<nat, Loan>, bookId: nat, memberId: nat, now: int)
    ensures var written := CheckoutAsWritten(books, members, loans, bookId, memberId, now);
            var meant := CheckoutRefusal(books, members, loans, bookId, memberId, now);
            (written == meant) <==> (meant == Some(NotFound) || meant == Some(BookUnavailable))
  {
  }

  /** One available copy and a member with no loans: the intended guards
      grant the loan, the handler as written fails. */
  lemma CheckoutAsWrittenCounterexample(info: BookInfo, m: Member)
    ensures CheckoutRefusal(map[1 := Book(info, 1, 1, 0)], map[7 := m], map[], 1, 7, 0) == None
    ensures CheckoutAsWritten(map[1 := Book(info, 1, 1, 0)], map[7 := m], map[], 1, 7, 0) == Some(UndefinedSetting)
  {
    assert ActiveLoansOfMember(map[], 7) == {};
  }

  /** A granted checkout adds exactly one active loan for the member and
      keeps the member within the loan limit. */
  lemma {:induction false} GrantedCheckoutWithinLimit(books: map<nat, Book>, members: map<nat, Member>,
                                   loans: map<nat, Loan>, bookId: nat, memberId: nat, now: int, id: nat)
    requires id !in loans
    requires CheckoutRefusal(books, members, loans, bookId, memberId, now) == None
    ensures ActiveLoanCount(loans[id := NewLoan(bookId, memberId, None, now)], memberId) ==
      ActiveLoanCount(loans, memberId) + 1
    ensures ActiveLoanCount(loans[id := NewLoan(bookId, memberId, None, now)], memberId) <= MaxBooksPerMember
  {
    var l := NewLoan(bookId, memberId, None, now);
    ActiveLoansOfMemberAfterInsert(loans, id, l, memberId);
    assert id !in ActiveLoansOfMember(loans, memberId);
  }

  /** A member at the limit can never check out another book. */
  lemma LimitBlocksCheckout(books: map<nat, Book>, members: map<nat, Member>,
                            loans: map<nat, Loan>, bookId: nat, memberId: nat, now: int)
    requires ActiveLoanCount(loans, memberId) >= MaxBooksPerMember
    ensures CheckoutRefusal(books, members, loans, bookId, memberId, now) != None
  {
  }

  /** The loan after a renewal: one more loan period, nothing else. */
  function RenewedLoan(l: Loan): (r: Loan)
    ensures r.dueDate == l.dueDate + MaxLoanDays * SecondsPerDay
    ensures r == l.(dueDate := r.dueDate)
  {
    l.(dueDate := l.dueDate + LoanPeriod)
  }

  /** A renewal granted at `now` can be granted again at `now`: the code
      sets no bound on the number of renewals. */
  lemma RenewalRepeatable(l: Loan, now: int)
    requires IsActive(l) && !IsOverdue(l, now)
    ensures IsActive(RenewedLoan(l)) && !IsOverdue(RenewedLoan(l), now)
    ensures RenewedLoan(l).dueDate > l.dueDate
  {
  }

  /** The first refusal of a renewal of loan `loanId` requested at `now`
      by member `actorId`, or `None` when the renewal is granted. The
      guards run in order: the loan exists, the actor is an admin or the
      borrower, the loan is unreturned, the loan is not overdue. */
  function RenewalRefusal(loans: map<nat, Loan>, loanId: nat, actorId: nat, actorIsAdmin: bool, now: int)
    : (r: Option<Error>)
    ensures r == Some(NotFound) <==> loanId !in loans
    ensures r == Some(PermissionDenied) <==>
      loanId in loans && !actorIsAdmin && actorId != loans[loanId].memberId
    ensures r == Some(AlreadyReturned) <==>
      loanId in loans && (actorIsAdmin || actorId == loans[loanId].memberId) && !IsActive(loans[loanId])
    ensures r == Some(RenewalBlockedOverdue) <==>
      loanId in loans && (actorIsAdmin || actorId == loans[loanId].memberId) && IsActive(loans[loanId]) &&
      now > loans[loanId].dueDate
    ensures r == None <==>
      loanId in loans && (actorIsAdmin || actorId == loans[loanId].memberId) && IsActive(loans[loanId]) &&
      now <= loans[loanId].dueDate
  {
    if loanId !in loans then Some(NotFound)
    else if !actorIsAdmin && actorId != loans[loanId].memberId then Some(PermissionDenied)
    else if loans[loanId].returnDate.Some? then Some(AlreadyReturned)
    else if IsOverdue(loans[loanId], now) then Some(RenewalBlockedOverdue)
    else None
  }

  /** An unreturned loan past its due date is never renewed: the borrower
      and an admin are refused with RenewalBlockedOverdue, anyone else
      with PermissionDenied. */
  lemma OverdueLoanNeverRenewable(loans: map<nat, Loan>, loanId: nat, actorId: nat, actorIsAdmin: bool, now: int)
    requires loanId in loans && IsActive(loans[loanId]) && now > loans[loanId].dueDate
    ensures var refusal := RenewalRefusal(loans, loanId, actorId, actorIsAdmin, now);
            refusal == Some(RenewalBlockedOverdue) || refusal == Some(PermissionDenied)
    ensures actorIsAdmin || actorId == loans[loanId].memberId ==>
      RenewalRefusal(loans, loanId, actorId, actorIsAdmin, now) == Some(RenewalBlockedOverdue)
  {
  }

  /** A renewal the guards grant at `now` is granted again at `now` once
      it has been applied: nothing bounds the number of renewals. */
  lemma RenewalGrantedAgain(loans: map<nat, Loan>, loanId: nat, actorId: nat, actorIsAdmin: bool, now: int)
    requires RenewalRefusal(loans, loanId, actorId, actorIsAdmin, now) == None
    ensures RenewalRefusal(loans[loanId := RenewedLoan(loans[loanId])], loanId, actorId, actorIsAdmin, now) == None
  {
    RenewalRepeatable(loans[loanId], now);
  }

  /** The loans the overdue page lists: unreturned and past due at `now`;
      a non-admin sees only their own. */
  predicate ListedAsOverdue(l: Loan, now: int, actorId: nat, actorIsAdmin: bool)
  {
    l.returnDate.None? && l.dueDate < now && (actorIsAdmin || l.memberId == actorId)
  }

  /** Sort key putting the earliest due date first. */
  function ByDueDate(loans: map<nat, Loan>): nat -> int
  {
    (id: nat) => if id in loans then -loans[id].dueDate else 0
  }

  /** The loans the overdue listing shows to the actor. */
  function OverdueIds(loans: map<nat, Loan>, now: int, actorId: nat, actorIsAdmin: bool): (s: set<nat>)
    ensures forall id :: id in s <==> id in loans && ListedAsOverdue(loans[id], now, actorId, actorIsAdmin)
  {
    set id | id in loans && ListedAsOverdue(loans[id], now, actorId, actorIsAdmin)
  }

  /** The overdue listing, earliest due date first (ties by loan id). */
  function OverdueListing(loans: map<nat, Loan>, now: int, actorId: nat, actorIsAdmin: bool): (r: seq<nat>)
    ensures forall id :: id in r <==> id in loans && ListedAsOverdue(loans[id], now, actorId, actorIsAdmin)
    ensures Distinct(r)
    ensures forall id :: id in r ==> id in loans
    ensures forall i, j :: 0 <= i < j < |r| ==> loans[r[i]].dueDate <= loans[r[j]].dueDate
  {
    var ids := OverdueIds(loans, now, actorId, actorIsAdmin);
    var r := SortDesc(KeysAscending(ids), ByDueDate(loans));
    SortedListingMembers(ids, ByDueDate(loans));
    EarliestDueFirst(loans, r);
    r
  }

  /** Sorting the ids in ascending order lists each id once. */
  lemma SortedListingMembers(ids: set<nat>, key: nat -> int)
    ensures var r := SortDesc(KeysAscending(ids), key);
      (forall id :: id in r <==> id in ids) && Distinct(r)
  {
    var listed := KeysAscending(ids);
    var r := SortDesc(listed, key);
    SameElements(r, listed);
    SortDescDistinct(listed, key);
    assert forall id :: id in r <==> id in listed;
    assert forall id :: id in listed <==> id in ids;
  }

  /** Sorted by `ByDueDate`, the due dates ascend. */
  lemma EarliestDueFirst(loans: map<nat, Loan>, r: seq<nat>)
    requires SortedDesc(r, ByDueDate(loans)) && forall id :: id in r ==> id in loans
    ensures forall i, j :: 0 <= i < j < |r| ==> loans[r[i]].dueDate <= loans[r[j]].dueDate
  {
    var key := ByDueDate(loans);
    forall i, j | 0 <= i < j < |r| ensures loans[r[i]].dueDate <= loans[r[j]].dueDate {
      assert r[i] in r && r[j] in r;
      assert key(r[i]) >= key(r[j]);
    }
  }
}
