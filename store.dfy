/** The library's persisted state as one object: the book, member and
    loan tables keyed by id, and one method per state-changing handler.
    A method's effects are what the handler commits; a refused request
    leaves every table as it was. */
module Store {
  import opened Config
  import opened Results
  import opened Circulation
  import opened BookModel
  import opened MemberModel
  import opened CirculationRoutes
  import opened BookRoutes
  import opened MemberRoutes

  ghost predicate KeysBelow<V>(m: map<nat, V>, bound: nat)
  {
    forall id :: id in m ==> id < bound
  }

  /** Every loan names a stored book and a stored member (the foreign
      keys, kept by the cascading deletes). */
  ghost predicate LoansReferToRecords(books: map<nat, Book>, members: map<nat, Member>, loans: map<nat, Loan>)
  {
    forall id :: id in loans ==> loans[id].bookId in books && loans[id].memberId in members
  }

  ghost predicate FinesNonNegative(loans: map<nat, Loan>)
  {
    forall id :: id in loans ==> loans[id].fineAmount >= 0
  }

  /** The copies missing from the shelf are exactly the copies on loan. */
  ghost predicate ShelfMatchesLoans(books: map<nat, Book>, loans: map<nat, Loan>)
  {
    forall b :: b in books ==> books[b].quantity - books[b].availableQuantity == |ActiveLoansOfBook(loans, b)|
  }

  ghost predicate UniqueIsbns(books: map<nat, Book>)
  {
    forall i, j :: i in books && j in books && books[i].info.isbn == books[j].info.isbn ==> i == j
  }

  ghost predicate UniqueEmails(members: map<nat, Member>)
  {
    forall i, j :: i in members && j in members && members[i].email == members[j].email ==> i == j
  }

  ghost predicate UniqueCodes(members: map<nat, Member>)
  {
    forall i, j :: i in members && j in members && members[i].memberCode == members[j].memberCode ==> i == j
  }

  /** In a consistent store a book never has more copies on the shelf
      than it owns. */
  lemma ShelfAtMostQuantity(books: map<nat, Book>, loans: map<nat, Loan>, b: nat)
    requires ShelfMatchesLoans(books, loans) && b in books
    ensures books[b].availableQuantity <= books[b].quantity
  {
  }

  /** A copy missing from the shelf is accounted for by an active loan. */
  lemma {:induction false} MissingCopyIsOnLoan(books: map<nat, Book>, loans: map<nat, Loan>, b: nat)
    requires ShelfMatchesLoans(books, loans) && b in books
    requires books[b].availableQuantity < books[b].quantity
    ensures exists id :: id in loans && loans[id].bookId == b && IsActive(loans[id])
  {
    var id :| id in ActiveLoansOfBook(loans, b);
  }

  /** A checkout keeps the shelf counters in step with the loans. */
  lemma {:induction false} ShelfAfterCheckout(books: map<nat, Book>, loans: map<nat, Loan>, id: nat, l: Loan)
    requires ShelfMatchesLoans(books, loans) && l.bookId in books && id !in loans && IsActive(l)
    ensures ShelfMatchesLoans(books[l.bookId := UpdatedAvailability(books[l.bookId], -1)], loans[id := l])
  {
    var books' := books[l.bookId := UpdatedAvailability(books[l.bookId], -1)];
    forall b | b in books'
      ensures books'[b].quantity - books'[b].availableQuantity == |ActiveLoansOfBook(loans[id := l], b)|
    {
      ActiveLoansOfBookAfterInsert(loans, id, l, b);
      assert id !in ActiveLoansOfBook(loans, b);
    }
  }

  /** A return puts the copy back on the shelf of the book it came from. */
  lemma {:induction false} ShelfAfterReturn(books: map<nat, Book>, loans: map<nat, Loan>, id: nat, now: int)
    requires ShelfMatchesLoans(books, loans) && id in loans && IsActive(loans[id]) && loans[id].bookId in books
    ensures ShelfMatchesLoans(books[loans[id].bookId := UpdatedAvailability(books[loans[id].bookId], 1)],
                              loans[id := ReturnedLoan(loans[id], now)])
  {
    var bookId := loans[id].bookId;
    var l := ReturnedLoan(loans[id], now);
    var books' := books[bookId := UpdatedAvailability(books[bookId], 1)];
    forall b | b in books'
      ensures books'[b].quantity - books'[b].availableQuantity == |ActiveLoansOfBook(loans[id := l], b)|
    {
      ActiveLoansOfBookAfterUpdate(loans, id, l, b);
      if b == bookId {
        assert id in ActiveLoansOfBook(loans, b);
      } else {
        assert id !in ActiveLoansOfBook(loans, b);
      }
    }
  }

  /** The record method `return_book` run on a loan that is already
      returned puts a copy on the shelf that no loan accounts for: the
      shelf counters no longer match the loans. The return handler's
      guard is what keeps this from happening. */
  lemma {:induction false} SecondReturnBreaksShelf(books: map<nat, Book>, loans: map<nat, Loan>, id: nat, now: int)
    requires ShelfMatchesLoans(books, loans) && id in loans && !IsActive(loans[id]) && loans[id].bookId in books
    ensures !ShelfMatchesLoans(books[loans[id].bookId := UpdatedAvailability(books[loans[id].bookId], 1)],
                               loans[id := ReturnedLoan(loans[id], now)])
  {
    var bookId := loans[id].bookId;
    var loans' := loans[id := ReturnedLoan(loans[id], now)];
    var books' := books[bookId := UpdatedAvailability(books[bookId], 1)];
    ActiveLoansOfBookAfterUpdate(loans, id, ReturnedLoan(loans[id], now), bookId);
    assert ActiveLoansOfBook(loans', bookId) == ActiveLoansOfBook(loans, bookId);
    assert books'[bookId].quantity - books'[bookId].availableQuantity != |ActiveLoansOfBook(loans', bookId)|;
  }

  /** Rewriting an active loan as another active loan of the same book
      (a renewal) leaves the shelf counters right. */
  lemma {:induction false} ShelfAfterRenewal(books: map<nat, Book>, loans: map<nat, Loan>, id: nat, l: Loan)
    requires ShelfMatchesLoans(books, loans) && id in loans && IsActive(loans[id])
    requires IsActive(l) && l.bookId == loans[id].bookId
    ensures ShelfMatchesLoans(books, loans[id := l])
  {
    forall b | b in books
      ensures books[b].quantity - books[b].availableQuantity == |ActiveLoansOfBook(loans[id := l], b)|
    {
      ActiveLoansOfBookAfterUpdate(loans, id, l, b);
      if b == loans[id].bookId {
        assert id in ActiveLoansOfBook(loans, b);
        assert ActiveLoansOfBook(loans[id := l], b) == ActiveLoansOfBook(loans, b);
      } else {
        assert ActiveLoansOfBook(loans[id := l], b) == ActiveLoansOfBook(loans, b);
      }
    }
  }

  /** The loans left after removing every loan for which `gone` holds. */
  function LoansWithout(loans: map<nat, Loan>, gone: Loan -> bool): (r: map<nat, Loan>)
    ensures forall id :: id in r <==> id in loans && !gone(loans[id])
    ensures forall id :: id in r ==> r[id] == loans[id]
  {
    map id | id in loans && !gone(loans[id]) :: loans[id]
  }

  function OfBook(bookId: nat): Loan -> bool
  {
    (l: Loan) => l.bookId == bookId
  }

  function OfMember(memberId: nat): Loan -> bool
  {
    (l: Loan) => l.memberId == memberId
  }

  /** Removing only returned loans, or only loans of other books, leaves
      a book's active loans as they were. */
  lemma ActiveLoansOfBookWithout(loans: map<nat, Loan>, gone: Loan -> bool, b: nat)
    requires forall id :: id in loans && gone(loans[id]) ==> !IsActive(loans[id]) || loans[id].bookId != b
    ensures ActiveLoansOfBook(LoansWithout(loans, gone), b) == ActiveLoansOfBook(loans, b)
  {
  }

  /** The invariant of the stores, over the tables and the next free ids. */
  ghost predicate Consistent(books: map<nat, Book>, members: map<nat, Member>, loans: map<nat, Loan>,
                             nextBookId: nat, nextMemberId: nat, nextLoanId: nat)
  {
    KeysBelow(books, nextBookId) && KeysBelow(members, nextMemberId) && KeysBelow(loans, nextLoanId) &&
    LoansReferToRecords(books, members, loans) && FinesNonNegative(loans) &&
    ShelfMatchesLoans(books, loans) &&
    UniqueIsbns(books) && UniqueEmails(members) && UniqueCodes(members)
  }

  lemma CheckoutConsistent(books: map<nat, Book>, members: map<nat, Member>, loans: map<nat, Loan>,
                           nb: nat, nm: nat, nl: nat, l: Loan)
    requires Consistent(books, members, loans, nb, nm, nl)
    requires l.bookId in books && l.memberId in members && IsActive(l) && l.fineAmount >= 0
    ensures Consistent(books[l.bookId := UpdatedAvailability(books[l.bookId], -1)], members, loans[nl := l], nb, nm, nl + 1)
  {
    ShelfAfterCheckout(books, loans, nl, l);
  }

  lemma ReturnConsistent(books: map<nat, Book>, members: map<nat, Member>, loans: map<nat, Loan>,
                         nb: nat, nm: nat, nl: nat, id: nat, now: int)
    requires Consistent(books, members, loans, nb, nm, nl) && id in loans && IsActive(loans[id])
    ensures var bookId := loans[id].bookId;
      Consistent(books[bookId := UpdatedAvailability(books[bookId], 1)], members,
                 loans[id := ReturnedLoan(loans[id], now)], nb, nm, nl)
  {
    ShelfAfterReturn(books, loans, id, now);
  }

  lemma RenewConsistent(books: map<nat, Book>, members: map<nat, Member>, loans: map<nat, Loan>,
                        nb: nat, nm: nat, nl: nat, id: nat)
    requires Consistent(books, members, loans, nb, nm, nl) && id in loans && IsActive(loans[id])
    ensures Consistent(books, members, loans[id := RenewedLoan(loans[id])], nb, nm, nl)
  {
    ShelfAfterRenewal(books, loans, id, RenewedLoan(loans[id]));
  }

  lemma AddBookConsistent(books: map<nat, Book>, members: map<nat, Member>, loans: map<nat, Loan>,
                          nb: nat, nm: nat, nl: nat, b: Book)
    requires Consistent(books, members, loans, nb, nm, nl)
    requires b.quantity == b.availableQuantity && forall id :: id in books ==> books[id].info.isbn != b.info.isbn
    ensures Consistent(books[nb := b], members, loans, nb + 1, nm, nl)
  {
    assert ActiveLoansOfBook(loans, nb) == {};
  }

  /** Replacing a book by a record with the same number of copies out,
      and an ISBN no other book has, keeps the invariant. */
  lemma ReplaceBookConsistent(books: map<nat, Book>, members: map<nat, Member>, loans: map<nat, Loan>,
                              nb: nat, nm: nat, nl: nat, bookId: nat, b: Book)
    requires Consistent(books, members, loans, nb, nm, nl) && bookId in books
    requires b.quantity - b.availableQuantity == books[bookId].quantity - books[bookId].availableQuantity
    requires forall id :: id in books && id != bookId ==> books[id].info.isbn != b.info.isbn
    ensures Consistent(books[bookId := b], members, loans, nb, nm, nl)
  {
  }

  lemma DeleteBookConsistent(books: map<nat, Book>, members: map<nat, Member>, loans: map<nat, Loan>,
                             nb: nat, nm: nat, nl: nat, bookId: nat)
    requires Consistent(books, members, loans, nb, nm, nl) && ActiveLoansOfBook(loans, bookId) == {}
    ensures Consistent(books - {bookId}, members, LoansWithout(loans, OfBook(bookId)), nb, nm, nl)
  {
    forall b | b in books && b != bookId
      ensures ActiveLoansOfBook(LoansWithout(loans, OfBook(bookId)), b) == ActiveLoansOfBook(loans, b)
    {
      ActiveLoansOfBookWithout(loans, OfBook(bookId), b);
    }
  }

  lemma AddMemberConsistent(books: map<nat, Book>, members: map<nat, Member>, loans: map<nat, Loan>,
                            nb: nat, nm: nat, nl: nat, m: Member)
    requires Consistent(books, members, loans, nb, nm, nl)
    requires forall id :: id in members ==> members[id].email != m.email && members[id].memberCode != m.memberCode
    ensures Consistent(books, members[nm := m], loans, nb, nm + 1, nl)
  {
  }

  lemma ReplaceMemberConsistent(books: map<nat, Book>, members: map<nat, Member>, loans: map<nat, Loan>,
                                nb: nat, nm: nat, nl: nat, memberId: nat, m: Member)
    requires Consistent(books, members, loans, nb, nm, nl) && memberId in members
    requires m.memberCode == members[memberId].memberCode
    requires forall id :: id in members && id != memberId ==> members[id].email != m.email
    ensures Consistent(books, members[memberId := m], loans, nb, nm, nl)
  {
  }

  lemma DeleteMemberConsistent(books: map<nat, Book>, members: map<nat, Member>, loans: map<nat, Loan>,
                               nb: nat, nm: nat, nl: nat, memberId: nat)
    requires Consistent(books, members, loans, nb, nm, nl) && ActiveLoansOfMember(loans, memberId) == {}
    ensures Consistent(books, members - {memberId}, LoansWithout(loans, OfMember(memberId)), nb, nm, nl)
  {
    forall b | b in books
      ensures ActiveLoansOfBook(LoansWithout(loans, OfMember(memberId)), b) == ActiveLoansOfBook(loans, b)
    {
      forall id | id in loans && OfMember(memberId)(loans[id]) ensures !IsActive(loans[id]) {
        assert id !in ActiveLoansOfMember(loans, memberId);
      }
      ActiveLoansOfBookWithout(loans, OfMember(memberId), b);
    }
  }

  class Library {
    var books: map<nat, Book>
    var members: map<nat, Member>
    var loans: map<nat, Loan>
    var nextBookId: nat
    var nextMemberId: nat
    var nextLoanId: nat

    ghost predicate Valid()
      reads this
    {
      Consistent(books, members, loans, nextBookId, nextMemberId, nextLoanId)
    }

    /** An empty library. */
    constructor ()
      ensures Valid()
      ensures books == map[] && members == map[] && loans == map[]
    {
      books, members, loans := map[], map[], map[];
      nextBookId, nextMemberId, nextLoanId := 0, 0, 0;
    }

    /** `update_availability`: the shelf counter of one book moves by
        `change`; nothing is checked. */
    method UpdateAvailability(bookId: nat, change: int)
      requires bookId in books
      modifies this
      ensures books == old(books)[bookId := UpdatedAvailability(old(books)[bookId], change)]
      ensures members == old(members) && loans == old(loans)
      ensures nextBookId == old(nextBookId) && nextMemberId == old(nextMemberId) && nextLoanId == old(nextLoanId)
    {
      var book := books[bookId];
      books := books[bookId := book.(availableQuantity := book.availableQuantity + change)];
    }

    /** `return_book` on the loan record: set the return time, compute
        the fine from it, put the copy back. It checks nothing; the
        handler refuses returned loans before calling it. */
    method ReturnBook(loanId: nat, now: int)
      requires loanId in loans && loans[loanId].bookId in books
      modifies this
      ensures loans == old(loans)[loanId := ReturnedLoan(old(loans)[loanId], now)]
      ensures var bookId := old(loans)[loanId].bookId;
        books == old(books)[bookId := UpdatedAvailability(old(books)[bookId], 1)]
      ensures members == old(members)
      ensures nextBookId == old(nextBookId) && nextMemberId == old(nextMemberId) && nextLoanId == old(nextLoanId)
    {
      var l := loans[loanId];
      var returned := l.(returnDate := Some(now));
      loans := loans[loanId := returned.(fineAmount := CalculateFine(returned, now))];
      UpdateAvailability(l.bookId, 1);
    }

    /** Lend book `bookId` to member `memberId` at time `now`. */
    method Checkout(bookId: nat, memberId: nat, now: int) returns (r: Result<nat>)
      requires Valid()
      modifies this
      ensures Valid()
      ensures var refusal := CheckoutRefusal(old(books), old(members), old(loans), bookId, memberId, now);
        if refusal.Some? then r == Err(refusal.value) && unchanged(this)
        else
          r == Ok(old(nextLoanId)) &&
          loans == old(loans)[r.value := NewLoan(bookId, memberId, None, now)] &&
          books == old(books)[bookId := UpdatedAvailability(old(books)[bookId], -1)] &&
          members == old(members) && nextLoanId == old(nextLoanId) + 1 &&
          nextBookId == old(nextBookId) && nextMemberId == old(nextMemberId)
      ensures r.Ok? ==> ActiveLoanCount(loans, memberId) == old(ActiveLoanCount(loans, memberId)) + 1 <= MaxBooksPerMember
    {
      if bookId !in books || memberId !in members {
        return Err(NotFound);
      }
      if !IsAvailable(books[bookId]) {
        return Err(BookUnavailable);
      }
      if ActiveLoanCount(loans, memberId) >= MaxBooksPerMember {
        return Err(LoanLimitExceeded);
      }
      if HasOverdueBooks(loans, memberId, now) {
        return Err(MemberHasOverdueBooks);
      }
      assert CheckoutRefusal(books, members, loans, bookId, memberId, now) == None;
      var loan := NewLoan(bookId, memberId, None, now);
      var id := nextLoanId;
      CheckoutConsistent(books, members, loans, nextBookId, nextMemberId, id, loan);
      GrantedCheckoutWithinLimit(books, members, loans, bookId, memberId, now, id);
      UpdateAvailability(bookId, -1);
      loans := loans[id := loan];
      nextLoanId := nextLoanId + 1;
      r := Ok(id);
    }

    /** Take back the copy lent by loan `loanId` at time `now`; the result
        is the fine charged, in cents. */
    method Return(loanId: nat, now: int) returns (r: Result<int>)
      requires Valid()
      modifies this
      ensures Valid()
      ensures loanId !in old(loans) ==> r == Err(NotFound) && unchanged(this)
      ensures loanId in old(loans) && !IsActive(old(loans)[loanId]) ==> r == Err(AlreadyReturned) && unchanged(this)
      ensures loanId in old(loans) && IsActive(old(loans)[loanId]) ==>
        var l := old(loans)[loanId];
        r == Ok(FineAt(l.dueDate, now)) &&
        loans == old(loans)[loanId := ReturnedLoan(l, now)] &&
        books == old(books)[l.bookId := UpdatedAvailability(old(books)[l.bookId], 1)] &&
        members == old(members) &&
        nextBookId == old(nextBookId) && nextMemberId == old(nextMemberId) && nextLoanId == old(nextLoanId)
    {
      if loanId !in loans {
        return Err(NotFound);
      }
      if loans[loanId].returnDate.Some? {
        return Err(AlreadyReturned);
      }
      ReturnConsistent(books, members, loans, nextBookId, nextMemberId, nextLoanId, loanId, now);
      ReturnBook(loanId, now);
      r := Ok(loans[loanId].fineAmount);
    }

    /** Extend loan `loanId` by one loan period, on behalf of the acting
        member `actorId`. */
    method Renew(loanId: nat, actorId: nat, actorIsAdmin: bool, now: int) returns (r: Result<int>)
      requires Valid()
      modifies this
      ensures Valid()
      ensures r.Err? <==> RenewalRefusal(old(loans), loanId, actorId, actorIsAdmin, now).Some?
      ensures r.Err? ==> r.error == RenewalRefusal(old(loans), loanId, actorId, actorIsAdmin, now).value
      ensures loanId !in old(loans) ==> r == Err(NotFound) && unchanged(this)
      ensures loanId in old(loans) && !actorIsAdmin && actorId != old(loans)[loanId].memberId ==>
        r == Err(PermissionDenied) && unchanged(this)
      ensures loanId in old(loans) && (actorIsAdmin || actorId == old(loans)[loanId].memberId) &&
              !IsActive(old(loans)[loanId]) ==>
        r == Err(AlreadyReturned) && unchanged(this)
      ensures loanId in old(loans) && (actorIsAdmin || actorId == old(loans)[loanId].memberId) &&
              IsActive(old(loans)[loanId]) && IsOverdue(old(loans)[loanId], now) ==>
        r == Err(RenewalBlockedOverdue) && unchanged(this)
      ensures loanId in old(loans) && (actorIsAdmin || actorId == old(loans)[loanId].memberId) &&
              IsActive(old(loans)[loanId]) && !IsOverdue(old(loans)[loanId], now) ==>
        r == Ok(old(loans)[loanId].dueDate + MaxLoanDays * SecondsPerDay) &&
        loans == old(loans)[loanId := RenewedLoan(old(loans)[loanId])] &&
        books == old(books) && members == old(members) &&
        nextBookId == old(nextBookId) && nextMemberId == old(nextMemberId) && nextLoanId == old(nextLoanId)
    {
      if loanId !in loans {
        return Err(NotFound);
      }
      var l := loans[loanId];
      if !actorIsAdmin && actorId != l.memberId {
        return Err(PermissionDenied);
      }
      if l.returnDate.Some? {
        return Err(AlreadyReturned);
      }
      if IsOverdue(l, now) {
        return Err(RenewalBlockedOverdue);
      }
      RenewConsistent(books, members, loans, nextBookId, nextMemberId, nextLoanId, loanId);
      var renewed := l.(dueDate := l.dueDate + LoanPeriod);
      assert renewed == RenewedLoan(l);
      loans := loans[loanId := renewed];
      r := Ok(renewed.dueDate);
    }

    /** Catalog a new title with `quantity` copies, all on the shelf. The
        ISBN is unique in the book table. */
    method AddBook(info: BookInfo, quantity: Option<int>, now: int) returns (r: Result<nat>)
      requires Valid()
      modifies this
      ensures Valid()
      ensures (exists id :: id in old(books) && old(books)[id].info.isbn == info.isbn) ==>
        r == Err(DuplicateKey) && unchanged(this)
      ensures (forall id :: id in old(books) ==> old(books)[id].info.isbn != info.isbn) ==>
        r == Ok(old(nextBookId)) &&
        books == old(books)[r.value := NewBook(info, Some(FormQuantity(quantity)), Some(FormQuantity(quantity)), now)] &&
        members == old(members) && loans == old(loans) &&
        nextBookId == old(nextBookId) + 1 && nextMemberId == old(nextMemberId) && nextLoanId == old(nextLoanId)
    {
      if exists id :: id in books && books[id].info.isbn == info.isbn {
        return Err(DuplicateKey);
      }
      var q := FormQuantity(quantity);
      var id := nextBookId;
      var book := NewBook(info, Some(q), Some(q), now);
      AddBookConsistent(books, members, loans, id, nextMemberId, nextLoanId, book);
      books := books[id := book];
      nextBookId := nextBookId + 1;
      r := Ok(id);
    }

    /** Replace the descriptive fields and the quantity of book `bookId`;
        the shelf counter moves by the change in quantity. */
    method EditBook(bookId: nat, info: BookInfo, newQuantity: Option<int>) returns (r: Outcome)
      requires Valid()
      modifies this
      ensures Valid()
      ensures bookId !in old(books) ==> r == Failed(NotFound) && unchanged(this)
      ensures bookId in old(books) && (exists id :: id in old(books) && id != bookId && old(books)[id].info.isbn == info.isbn) ==>
        r == Failed(DuplicateKey) && unchanged(this)
      ensures bookId in old(books) && (forall id :: id in old(books) && id != bookId ==> old(books)[id].info.isbn != info.isbn) ==>
        r == Done &&
        books == old(books)[bookId := EditedBook(old(books)[bookId], info, FormQuantity(newQuantity))] &&
        members == old(members) && loans == old(loans) &&
        nextBookId == old(nextBookId) && nextMemberId == old(nextMemberId) && nextLoanId == old(nextLoanId)
    {
      if bookId !in books {
        return Failed(NotFound);
      }
      if exists id :: id in books && id != bookId && books[id].info.isbn == info.isbn {
        return Failed(DuplicateKey);
      }
      var book := books[bookId];
      var q := FormQuantity(newQuantity);
      var quantityDiff := q - book.quantity;
      book := book.(info := info, quantity := q);
      book := book.(availableQuantity := book.availableQuantity + quantityDiff);
      assert book == EditedBook(books[bookId], info, q);
      ReplaceBookConsistent(books, members, loans, nextBookId, nextMemberId, nextLoanId, bookId, book);
      books := books[bookId := book];
      r := Done;
    }

    /** Remove book `bookId` with all its (returned) loans; refused while
        a copy is out. */
    method DeleteBook(bookId: nat) returns (r: Outcome)
      requires Valid()
      modifies this
      ensures Valid()
      ensures bookId !in old(books) ==> r == Failed(NotFound) && unchanged(this)
      ensures bookId in old(books) && ActiveLoansOfBook(old(loans), bookId) != {} ==>
        r == Failed(HasActiveLoans) && unchanged(this)
      ensures bookId in old(books) && ActiveLoansOfBook(old(loans), bookId) == {} ==>
        r == Done &&
        books == old(books) - {bookId} &&
        loans == LoansWithout(old(loans), OfBook(bookId)) &&
        members == old(members) &&
        nextBookId == old(nextBookId) && nextMemberId == old(nextMemberId) && nextLoanId == old(nextLoanId)
    {
      if bookId !in books {
        return Failed(NotFound);
      }
      if ActiveLoansOfBook(loans, bookId) != {} {
        return Failed(HasActiveLoans);
      }
      DeleteBookConsistent(books, members, loans, nextBookId, nextMemberId, nextLoanId, bookId);
      books := books - {bookId};
      loans := LoansWithout(loans, OfBook(bookId));
      r := Done;
    }

    /** The shared part of adding and registering a member: refuse a
        taken email, derive the member code, refuse a taken code, insert. */
    method CreateMember(f: MemberForm, passwordHash: string, uuidHex: string, isActive: bool, isAdmin: bool, now: int)
      returns (r: Result<nat>)
      requires Valid()
      modifies this
      ensures Valid()
      ensures (exists id :: id in old(members) && old(members)[id].email == f.email) ==>
        r == Err(DuplicateKey) && unchanged(this)
      ensures (exists id :: id in old(members) && old(members)[id].memberCode == MemberCode(uuidHex)) ==>
        r == Err(DuplicateKey) && unchanged(this)
      ensures (forall id :: id in old(members) ==>
                 old(members)[id].email != f.email && old(members)[id].memberCode != MemberCode(uuidHex)) ==>
        r == Ok(old(nextMemberId)) &&
        members == old(members)[r.value := NewMember(MemberCode(uuidHex), f, passwordHash, isActive, isAdmin, now)] &&
        books == old(books) && loans == old(loans) &&
        nextBookId == old(nextBookId) && nextMemberId == old(nextMemberId) + 1 && nextLoanId == old(nextLoanId)
    {
      if exists id :: id in members && members[id].email == f.email {
        return Err(DuplicateKey);
      }
      var code := MemberCode(uuidHex);
      if exists id :: id in members && members[id].memberCode == code {
        return Err(DuplicateKey);
      }
      var id := nextMemberId;
      var m := NewMember(code, f, passwordHash, isActive, isAdmin, now);
      AddMemberConsistent(books, members, loans, nextBookId, id, nextLoanId, m);
      members := members[id := m];
      nextMemberId := nextMemberId + 1;
      r := Ok(id);
    }

    /** An admin adds a member, choosing both flags. */
    method AddMember(actorIsAdmin: bool, f: MemberForm, passwordHash: string, uuidHex: string,
                     isActive: bool, isAdmin: bool, now: int) returns (r: Result<nat>)
      requires Valid()
      modifies this
      ensures Valid()
      ensures !actorIsAdmin ==> r == Err(PermissionDenied) && unchanged(this)
      ensures actorIsAdmin && (exists id :: id in old(members) && old(members)[id].email == f.email) ==>
        r == Err(DuplicateKey) && unchanged(this)
      ensures actorIsAdmin && (exists id :: id in old(members) && old(members)[id].memberCode == MemberCode(uuidHex)) ==>
        r == Err(DuplicateKey) && unchanged(this)
      ensures actorIsAdmin && (forall id :: id in old(members) ==>
                 old(members)[id].email != f.email && old(members)[id].memberCode != MemberCode(uuidHex)) ==>
        r == Ok(old(nextMemberId)) &&
        members == old(members)[r.value := NewMember(MemberCode(uuidHex), f, passwordHash, isActive, isAdmin, now)] &&
        books == old(books) && loans == old(loans) &&
        nextBookId == old(nextBookId) && nextMemberId == old(nextMemberId) + 1 && nextLoanId == old(nextLoanId)
      ensures r.Ok? ==> r.value in members && members[r.value].email == f.email
    {
      if !actorIsAdmin {
        return Err(PermissionDenied);
      }
      r := CreateMember(f, passwordHash, uuidHex, isActive, isAdmin, now);
    }

    /** Self-registration: an active, non-admin member. */
    method RegisterMember(f: MemberForm, passwordHash: string, uuidHex: string, now: int) returns (r: Result<nat>)
      requires Valid()
      modifies this
      ensures Valid()
      ensures (exists id :: id in old(members) && old(members)[id].email == f.email) ==>
        r == Err(DuplicateKey) && unchanged(this)
      ensures (exists id :: id in old(members) && old(members)[id].memberCode == MemberCode(uuidHex)) ==>
        r == Err(DuplicateKey) && unchanged(this)
      ensures (forall id :: id in old(members) ==>
                 old(members)[id].email != f.email && old(members)[id].memberCode != MemberCode(uuidHex)) ==>
        r == Ok(old(nextMemberId)) &&
        members == old(members)[r.value := NewMember(MemberCode(uuidHex), f, passwordHash, true, false, now)] &&
        books == old(books) && loans == old(loans) &&
        nextBookId == old(nextBookId) && nextMemberId == old(nextMemberId) + 1 && nextLoanId == old(nextLoanId)
      ensures r.Ok? ==> r.value in members && members[r.value].isActive && !members[r.value].isAdmin
    {
      r := CreateMember(f, passwordHash, uuidHex, true, false, now);
    }

    /** Edit member `memberId`'s profile on behalf of `actorId`. */
    method EditMember(actorId: nat, actorIsAdmin: bool, memberId: nat, f: MemberForm,
                      newPassword: string, newPasswordHash: string, activeBox: bool, adminBox: bool)
      returns (r: Outcome)
      requires Valid()
      modifies this
      ensures Valid()
      ensures !actorIsAdmin && actorId != memberId ==> r == Failed(PermissionDenied) && unchanged(this)
      ensures (actorIsAdmin || actorId == memberId) && memberId !in old(members) ==>
        r == Failed(NotFound) && unchanged(this)
      ensures (actorIsAdmin || actorId == memberId) && memberId in old(members) &&
              (exists id :: id in old(members) && id != memberId && old(members)[id].email == f.email) ==>
        r == Failed(DuplicateKey) && unchanged(this)
      ensures (actorIsAdmin || actorId == memberId) && memberId in old(members) &&
              (forall id :: id in old(members) && id != memberId ==> old(members)[id].email != f.email) ==>
        r == Done &&
        members == old(members)[memberId := EditedMember(old(members)[memberId], f, newPassword, newPasswordHash,
                                                           actorIsAdmin, activeBox, adminBox)] &&
        books == old(books) && loans == old(loans) &&
        nextBookId == old(nextBookId) && nextMemberId == old(nextMemberId) && nextLoanId == old(nextLoanId)
    {
      if !actorIsAdmin && actorId != memberId {
        return Failed(PermissionDenied);
      }
      if memberId !in members {
        return Failed(NotFound);
      }
      if exists id :: id in members && id != memberId && members[id].email == f.email {
        return Failed(DuplicateKey);
      }
      var m := members[memberId];
      m := m.(firstName := f.firstName, lastName := f.lastName, email := f.email, phone := f.phone, address := f.address);
      if newPassword != [] {
        m := m.(passwordHash := newPasswordHash);
      }
      if actorIsAdmin {
        m := m.(isActive := activeBox, isAdmin := adminBox);
      }
      ReplaceMemberConsistent(books, members, loans, nextBookId, nextMemberId, nextLoanId, memberId, m);
      members := members[memberId := m];
      r := Done;
    }

    /** An admin removes member `memberId` with all their (returned)
        loans; refused while the member holds a book. */
    method DeleteMember(actorIsAdmin: bool, memberId: nat) returns (r: Outcome)
      requires Valid()
      modifies this
      ensures Valid()
      ensures !actorIsAdmin ==> r == Failed(PermissionDenied) && unchanged(this)
      ensures actorIsAdmin && memberId !in old(members) ==> r == Failed(NotFound) && unchanged(this)
      ensures actorIsAdmin && memberId in old(members) && ActiveLoansOfMember(old(loans), memberId) != {} ==>
        r == Failed(HasActiveLoans) && unchanged(this)
      ensures actorIsAdmin && memberId in old(members) && ActiveLoansOfMember(old(loans), memberId) == {} ==>
        r == Done &&
        members == old(members) - {memberId} &&
        loans == LoansWithout(old(loans), OfMember(memberId)) &&
        books == old(books) &&
        nextBookId == old(nextBookId) && nextMemberId == old(nextMemberId) && nextLoanId == old(nextLoanId)
    {
      if !actorIsAdmin {
        return Failed(PermissionDenied);
      }
      if memberId !in members {
        return Failed(NotFound);
      }
      if ActiveLoansOfMember(loans, memberId) != {} {
        return Failed(HasActiveLoans);
      }
      DeleteMemberConsistent(books, members, loans, nextBookId, nextMemberId, nextLoanId, memberId);
      members := members - {memberId};
      loans := LoansWithout(loans, OfMember(memberId));
      r := Done;
    }

    /** Log in with `email`; `passwordMatches(hash)` says whether the
        submitted password matches a stored hash. */
    method Login(email: string, passwordMatches: string -> bool) returns (r: Result<nat>)
      requires Valid()
      ensures r.Ok? <==>
        exists id :: id in members && members[id].email == email &&
                     passwordMatches(members[id].passwordHash) && members[id].isActive
      ensures r.Ok? ==> r.value in members && members[r.value].email == email
      ensures r == Err(AccountInactive) <==>
        exists id :: id in members && members[id].email == email &&
                     passwordMatches(members[id].passwordHash) && !members[id].isActive
      ensures r.Err? ==> r.error == InvalidCredentials || r.error == AccountInactive
    {
      if !exists id :: id in members && members[id].email == email {
        return Err(InvalidCredentials);
      }
      var id :| id in members && members[id].email == email;
      if !passwordMatches(members[id].passwordHash) {
        return Err(InvalidCredentials);
      }
      if !members[id].isActive {
        return Err(AccountInactive);
      }
      r := Ok(id);
    }
  }
}
