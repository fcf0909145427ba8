/** Worked scenarios of the circulation rules, each run on a fresh
    library with concrete records. */
module Scenarios {
  import opened Results
  import opened Circulation
  import opened BookModel
  import opened MemberModel
  import opened MemberRoutes
  import opened Store

  function SampleInfo(): BookInfo
  {
    BookInfo("Dune", "Frank Herbert", "9780441013593", "Chilton", "1965", "", "Fiction", "English", "412", "A1")
  }

  function SampleForm(firstName: string, email: string): MemberForm
  {
    MemberForm(firstName, "Reader", email, "", "")
  }

  /** A library holding one single-copy book and nothing else. */
  method OneBook(now: int) returns (lib: Library, bookId: nat)
    ensures fresh(lib) && lib.Valid()
    ensures bookId in lib.books && lib.books[bookId].quantity == 1 && lib.books[bookId].availableQuantity == 1
    ensures lib.members == map[] && lib.loans == map[]
  {
    lib := new Library();
    var rb := lib.AddBook(SampleInfo(), Some(1), now);
    bookId := rb.value;
  }

  lemma SampleMembersDiffer()
    ensures "ada@example.org" != "bo@example.org"
    ensures MemberCode("aaaaaaaa") != MemberCode("bbbbbbbb")
  {
    assert "ada@example.org"[0] != "bo@example.org"[0];
    assert MemberCode("aaaaaaaa")[3] != MemberCode("bbbbbbbb")[3];
  }

  /** A library with one single-copy book and two registered members. */
  method OneBookTwoMembers(now: int) returns (lib: Library, bookId: nat, a: nat, b: nat)
    ensures fresh(lib) && lib.Valid()
    ensures bookId in lib.books && lib.books[bookId].quantity == 1 && lib.books[bookId].availableQuantity == 1
    ensures a in lib.members && b in lib.members && a != b
    ensures lib.loans == map[]
  {
    lib, bookId := OneBook(now);
    var ra := lib.RegisterMember(SampleForm("Ada", "ada@example.org"), "hash-a", "aaaaaaaa", now);
    SampleMembersDiffer();
    var rc := lib.RegisterMember(SampleForm("Bo", "bo@example.org"), "hash-b", "bbbbbbbb", now);
    a, b := ra.value, rc.value;
  }

  /** The same library once member `a` has borrowed the only copy. */
  method CopyOnLoan(now: int) returns (lib: Library, bookId: nat, b: nat, loanId: nat)
    ensures fresh(lib) && lib.Valid()
    ensures bookId in lib.books && lib.books[bookId].availableQuantity == 0
    ensures b in lib.members
    ensures loanId in lib.loans && IsActive(lib.loans[loanId]) && lib.loans[loanId].bookId == bookId
    ensures ActiveLoansOfBook(lib.loans, bookId) == {loanId}
  {
    var a;
    lib, bookId, a, b := OneBookTwoMembers(now);
    assert ActiveLoansOfMember(lib.loans, a) == {};
    assert ActiveLoansOfBook(lib.loans, bookId) == {};
    var r := lib.Checkout(bookId, a, now);
    loanId := r.value;
    ActiveLoansOfBookAfterInsert(map[], loanId, NewLoan(bookId, a, None, now), bookId);
  }

  /** One copy: A borrows it, B is refused, A brings it back. */
  method SingleCopyScenario(now: int) returns (onLoan: int, second: Result<nat>, afterReturn: int)
    ensures onLoan == 0 && second == Err(BookUnavailable) && afterReturn == 1
  {
    var lib, bookId, b, loanId := CopyOnLoan(now);
    onLoan := lib.books[bookId].availableQuantity;
    second := lib.Checkout(bookId, b, now);
    var fine := lib.Return(loanId, now);
    afterReturn := lib.books[bookId].availableQuantity;
  }

  /** A book on loan cannot be deleted; once the loan is returned it can. */
  method DeleteAfterReturnScenario(now: int) returns (first: Outcome, second: Outcome)
    ensures first == Failed(HasActiveLoans) && second == Done
  {
    var lib, bookId, b, loanId := CopyOnLoan(now);
    first := lib.DeleteBook(bookId);
    ghost var onLoan := lib.loans;
    var fine := lib.Return(loanId, now);
    ActiveLoansOfBookAfterUpdate(onLoan, loanId, ReturnedLoan(onLoan[loanId], now), bookId);
    second := lib.DeleteBook(bookId);
  }

  /** Taking a copy of book `bookId` off the shelf and putting it back
      restores the whole book table. */
  lemma ShelfRestored(books: map<nat, Book>, bookId: nat)
    requires bookId in books
    ensures var lent := books[bookId := UpdatedAvailability(books[bookId], -1)];
            lent[bookId := UpdatedAvailability(lent[bookId], 1)] == books
  {
    AvailabilityRoundTrip(books[bookId]);
  }

  /** Any checkout followed by the return of the loan it granted leaves
      the book table (every shelf counter) and the member table as they
      were, whatever the outcome of the checkout. */
  method CheckoutThenReturn(lib: Library, bookId: nat, memberId: nat, now: int, later: int) returns (r: Result<nat>)
    requires lib.Valid()
    modifies lib
    ensures lib.Valid()
    ensures lib.books == old(lib.books) && lib.members == old(lib.members)
    ensures r.Err? ==> unchanged(lib)
  {
    ghost var before := lib.books;
    r := lib.Checkout(bookId, memberId, now);
    if r.Ok? {
      ghost var lent := lib.books;
      assert lent == before[bookId := UpdatedAvailability(before[bookId], -1)];
      assert lib.loans[r.value] == NewLoan(bookId, memberId, None, now);
      var fine := lib.Return(r.value, later);
      assert lib.books == lent[bookId := UpdatedAvailability(lent[bookId], 1)];
      ShelfRestored(before, bookId);
    }
  }
}
