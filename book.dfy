/** The book record: descriptive fields, the two copy counters with their
    column defaults, and the loans that reference the book. */
module BookModel {
  import opened Results
  import opened Circulation

  /** The descriptive fields a catalog form sets (all as submitted text). */
  datatype BookInfo = BookInfo(
    title: string,
    author: string,
    isbn: string,
    publisher: string,
    publicationYear: string,
    description: string,
    category: string,
    language: string,
    pages: string,
    locationShelf: string)

  /** `quantity` copies are owned, `availableQuantity` are on the shelf;
      `dateAdded` is a time in seconds. */
  datatype Book = Book(info: BookInfo, quantity: int, availableQuantity: int, dateAdded: int)

  /** A new record; a counter left unset takes its column default, 1. */
  function NewBook(info: BookInfo, quantity: Option<int>, availableQuantity: Option<int>, now: int): (b: Book)
    ensures b.info == info && b.dateAdded == now
    ensures b.quantity == (if quantity.Some? then quantity.value else 1)
    ensures b.availableQuantity == (if availableQuantity.Some? then availableQuantity.value else 1)
  {
    Book(info,
         if quantity.Some? then quantity.value else 1,
         if availableQuantity.Some? then availableQuantity.value else 1,
         now)
  }

  /** `is_available`: a copy can be lent without the shelf counter going
      below zero. */
  predicate IsAvailable(b: Book)
    ensures IsAvailable(b) <==> UpdatedAvailability(b, -1).availableQuantity >= 0
  {
    b.availableQuantity > 0
  }

  /** `update_availability(change)`: only the shelf counter moves, by
      exactly `change`, without any bounds check. */
  function UpdatedAvailability(b: Book, change: int): (r: Book)
    ensures r.availableQuantity == b.availableQuantity + change
    ensures r.quantity == b.quantity && r.info == b.info && r.dateAdded == b.dateAdded
  {
    b.(availableQuantity := b.availableQuantity + change)
  }

  /** Taking a copy and putting it back restores the record. */
  lemma AvailabilityRoundTrip(b: Book)
    ensures UpdatedAvailability(UpdatedAvailability(b, -1), 1) == b
  {
  }

  lemma DefaultCounters(info: BookInfo, now: int)
    ensures NewBook(info, None, None, now).quantity == 1
    ensures NewBook(info, None, None, now).availableQuantity == 1
    ensures IsAvailable(NewBook(info, None, None, now))
  {
  }

  /** The unreturned loans of book `bookId`. */
  function ActiveLoansOfBook(loans: map<nat, Loan>, bookId: nat): set<nat>
  {
    set id | id in loans && loans[id].bookId == bookId && IsActive(loans[id])
  }

  /** Every loan, returned or not, of book `bookId` (its `circulations`). */
  function LoansOfBook(loans: map<nat, Loan>, bookId: nat): set<nat>
  {
    set id | id in loans && loans[id].bookId == bookId
  }

  /** Recording a new active loan adds it to its own book's active loans
      and to no other book's. */
  lemma ActiveLoansOfBookAfterInsert(loans: map<nat, Loan>, id: nat, l: Loan, bookId: nat)
    requires id !in loans && IsActive(l)
    ensures ActiveLoansOfBook(loans[id := l], bookId) ==
      ActiveLoansOfBook(loans, bookId) + (if l.bookId == bookId then {id} else {})
  {
  }

  /** Rewriting loan `id` (for the same book) changes the active loans of
      a book by that loan alone. */
  lemma ActiveLoansOfBookAfterUpdate(loans: map<nat, Loan>, id: nat, l: Loan, bookId: nat)
    requires id in loans && l.bookId == loans[id].bookId
    ensures ActiveLoansOfBook(loans[id := l], bookId) ==
      (ActiveLoansOfBook(loans, bookId) - {id}) + (if l.bookId == bookId && IsActive(l) then {id} else {})
  {
  }
}
