# Library circulation manager — a Dafny model

This project models the core of a small library circulation manager: a
catalog of books with copy counters, a register of members, and the loans
that tie one copy of a book to one member for a fixed period. It covers:

- the circulation rules: the due date of a new loan, the overdue test, the
  fine in whole days late at a daily rate, the checkout guards (copy
  available, loan limit, no overdue loans), returns, and renewals;
- the catalog and member handlers: adding, editing and deleting books and
  members, registration, login, and the two search pages;
- the three admin reports: circulation statistics, member activity and
  inventory.

The persisted state is the class `Store.Library`. Its fields `books`,
`members` and `loans` map ids to records, and every state-changing handler
is one of its methods. The guard order and refusals follow the handlers
branch for branch. A refused request leaves the library unchanged
(`unchanged(this)`). A granted one states its whole new state.

`Library.Valid()` is the store invariant. The constructor establishes it,
and every handler method preserves it: `Checkout`, `Return`, `Renew`,
`AddBook`, `EditBook`, `DeleteBook`, `CreateMember`, `AddMember`,
`RegisterMember`, `EditMember` and `DeleteMember`. It says:

- every key is below the next free id;
- every loan names a stored book and a stored member;
- fines are never negative;
- ISBNs, emails and member codes are unique;
- for every book, `quantity - availableQuantity` equals the number of its
  unreturned loans.

`UpdateAvailability` and `ReturnBook` model the unguarded record methods
`update_availability` and `return_book`, and do not keep the invariant on
their own: a second `ReturnBook` on the same loan puts a copy on the shelf
that no loan accounts for (`Store.SecondReturnBreaksShelf`). Only the
return handler's guard against returned loans keeps this from happening.

The last clause holds for the code as written, edits included. The
stronger "`0 <= availableQuantity`" does not hold:
`BookRoutes.EditCanMakeShelfNegative` shows an edit that leaves -1 copies
on the shelf.

Conventions of the model:

- Time is a whole number of seconds. The current time is an explicit
  parameter `now`.
- A `timedelta`'s `days` is floor division by 86400, which is Dafny's `/`
  with a positive divisor.
- Fines are integer cents: 25 per whole day late.
- The acting user is a pair of parameters, `actorId` and `actorIsAdmin`.
- The password hash, the random hex identifier behind a member code, and
  the password check (`passwordMatches`) are parameters.
- A database unique-constraint violation at commit is the refusal
  `Err(DuplicateKey)` with nothing changed. A cascading delete is stated
  explicitly: the deleted record's loans are removed.

Modules:

- `Config`: the circulation constants.
- `Results`: the error kinds, `Option`, `Result` and `Outcome`.
- `Text`: ASCII case folding and substring search.
- `Collections`: key order, sums, a stable descending sort and rankings,
  which model `ORDER BY … DESC LIMIT n` over `GROUP BY` counts.
- Record modules: `Circulation` (`app/models/circulation.py`), `BookModel`
  (`app/models/book.py`) and `MemberModel` (`app/models/member.py`).
- Pure parts of the handlers: `CirculationRoutes`, `BookRoutes` and
  `MemberRoutes`.
- `Reports`: the admin reports.
- `Store`: the `Library` class and the lemmas showing that each mutation
  keeps the invariant.
- `Scenarios`: worked scenarios on concrete records.

Three points where the code behaves differently from what one might
expect, and which the model follows as written:

- **Renewals.** A loan carries no renewal count
  (app/models/circulation.py:8-16), so the renewal handler grants any
  number of renewals while the loan is not overdue
  (`CirculationRoutes.RenewalRepeatable`, `CirculationRoutes.RenewalGrantedAgain`).
- **Shelf counters.** Nothing keeps `available_quantity` at zero or
  above: an edit that lowers the quantity below the copies on loan,
  or an add with a negative quantity, leaves it negative
  (`BookRoutes.EditCanMakeShelfNegative`). What the model keeps instead
  is that the copies missing from the shelf are exactly the unreturned
  loans of the book.
- **Loan limit.** The checkout limit check reads a constant the
  configuration does not define (see "## Findings"). The model's `Checkout`
  uses the configured limit of 5.

## Model

| member | source | states |
|---|---|---|
| Circulation.NewLoan | app/models/circulation.py:22-26 | the loan names the book and member; checkout defaults to `now` when not given; due date is exactly 14 days after checkout; active, fine 0, not paid |
| Circulation.IsOverdue | app/models/circulation.py:31-35 | overdue iff the return time (or `now` for an unreturned loan) is strictly after the due date |
| Circulation.CalculateFine | app/models/circulation.py:37-47 | fine is non-negative, 0 when not overdue, and equals whole days late (floored, at least 0) times 25 cents, counted to the return time or to `now` |
| Circulation.NoFineWhenOnTime | app/models/circulation.py:37-40 | a loan returned on or before its due date owes 0 |
| Circulation.FineForWholeDays | app/models/circulation.py:42-47 | being `d` whole days plus less than a day late costs exactly `d * 25` |
| Circulation.NoFineWithinFirstDay | app/models/circulation.py:42-47 | less than one whole day late costs 0 |
| Circulation.WholeDaysMonotone | app/models/circulation.py:43-45 | the whole-days count never decreases as the duration grows |
| Circulation.FineMonotone | app/models/circulation.py:42-47 | the fine is non-negative and non-decreasing in the return time |
| Circulation.TenDaysLateCostsMore | app/models/circulation.py:42-47 | 10 days late costs strictly more than 3 days late |
| Circulation.ReturnOnDayTwenty | app/models/circulation.py:22-26 | checked out on day 0 and returned on day 20: fine is 150 cents |
| Circulation.NewLoanNotOverdue | app/models/circulation.py:22-40 | a new loan is not overdue and owes nothing at its checkout time |
| Circulation.ReturnedLoan | app/models/circulation.py:49-52 | return time becomes `now`, fine becomes the fine at `now`; every other field unchanged |
| Store.Library.ReturnBook | app/models/circulation.py:49-53 | the loan becomes its returned form and its book gets exactly one more copy on the shelf; no guard; nothing else changes |
| Store.SecondReturnBreaksShelf | app/models/circulation.py:49-53 | returning an already-returned loan again adds a shelf copy while the book's unreturned loans stay the same, so the copies off the shelf no longer match the unreturned loans |
| BookModel.NewBook | app/models/book.py:17-20 | quantity and shelf counter default to 1; date added is `now` |
| BookModel.DefaultCounters | app/models/book.py:17-18 | a book created with defaults has 1 copy, on the shelf |
| BookModel.IsAvailable | app/models/book.py:29-31 | available iff a copy can be taken without the shelf counter going below zero |
| BookModel.UpdatedAvailability | app/models/book.py:33-39 | only the shelf counter changes, by exactly `change`, unbounded |
| BookModel.AvailabilityRoundTrip | app/models/book.py:33-39 | `-1` then `+1` restores the record |
| Store.Library.UpdateAvailability | app/models/book.py:33-39 | the book's record becomes its updated form; no other table or id changes |
| BookModel.ActiveLoansOfBookAfterInsert | app/models/book.py:24 | a new active loan joins its own book's active loans and no other book's |
| BookModel.ActiveLoansOfBookAfterUpdate | app/models/book.py:24 | rewriting a loan changes a book's active loans by that loan alone |
| MemberModel.FullName | app/models/member.py:23-25 | first name, one space, last name |
| MemberModel.HasOverdueBooks | app/models/member.py:30-33 | true iff some unreturned loan of the member has `now` past its due date |
| MemberModel.ActiveLoanCount | app/models/member.py:35-37 | at most the number of loans, and 0 iff the member has no unreturned loan |
| MemberModel.OverdueImpliesActiveLoan | app/models/member.py:30-37 | having an overdue book implies an active-loan count of at least 1 |
| MemberModel.ActiveLoansOfMemberAfterInsert | app/models/member.py:35-37 | a new active loan adds exactly one to its member's active loans |
| CirculationRoutes.CheckoutRefusal | app/routes/circulation_routes.py:33-50 | missing book or member gives NotFound, else no copy gives BookUnavailable, else ≥ 5 active loans gives LoanLimitExceeded, else any overdue loan gives MemberHasOverdueBooks, else granted; each as an iff |
| CirculationRoutes.CheckoutAsWritten | app/routes/circulation_routes.py:33-50 | as written, every request is refused, with the undefined-setting failure exactly when book and member exist and a copy is available |
| CirculationRoutes.AsWrittenDiffersExactlyAtLimitCheck | app/routes/circulation_routes.py:41-45 | the written guard chain and the intended one give the same result exactly when the intended one refuses before the limit check |
| CirculationRoutes.CheckoutAsWrittenCounterexample | app/routes/circulation_routes.py:43-44 | a member with no loans and an available copy is still refused |
| CirculationRoutes.GrantedCheckoutWithinLimit | app/routes/circulation_routes.py:41-59 | a granted checkout adds one active loan and leaves the member with at most 5 |
| CirculationRoutes.LimitBlocksCheckout | app/routes/circulation_routes.py:41-45 | a member with 5 active loans is refused |
| Store.Library.Checkout | app/routes/circulation_routes.py:26-59 | refusal iff `CheckoutRefusal` gives one, with nothing changed; otherwise a new active loan (due in 14 days) under a fresh id, the book's shelf counter down by 1, nothing else changed; the member's active count goes up by 1 and stays ≤ 5 |
| Store.Library.Return | app/routes/circulation_routes.py:72-86 | unknown loan gives NotFound; already returned gives AlreadyReturned, with nothing changed; otherwise the loan is returned at `now` with its fine, which is the result, and its book gets one copy back |
| CirculationRoutes.RenewedLoan | app/routes/circulation_routes.py:141-143 | only the due date changes, by exactly 14 days |
| CirculationRoutes.RenewalRepeatable | app/routes/circulation_routes.py:131-143 | a renewable loan stays renewable after a renewal at the same time: no bound on renewals |
| CirculationRoutes.RenewalRefusal | app/routes/circulation_routes.py:124-139 | missing loan gives NotFound, else a non-admin who is not the borrower gives PermissionDenied, else a returned loan gives AlreadyReturned, else a loan past due gives RenewalBlockedOverdue, else granted; each as an iff |
| CirculationRoutes.OverdueLoanNeverRenewable | app/routes/circulation_routes.py:126-139 | an unreturned loan past its due date is refused a renewal: RenewalBlockedOverdue for the borrower or an admin, PermissionDenied for anyone else |
| CirculationRoutes.RenewalGrantedAgain | app/routes/circulation_routes.py:126-143 | after a granted renewal, the same request at the same time is granted again |
| Store.Library.Renew | app/routes/circulation_routes.py:124-144 | refused exactly when `RenewalRefusal` refuses, with its error: NotFound, then PermissionDenied for a non-admin who is not the borrower, then AlreadyReturned, then RenewalBlockedOverdue, each with nothing changed; otherwise only that loan's due date moves by 14 days |
| CirculationRoutes.OverdueIds | app/routes/circulation_routes.py:106-116 | exactly the unreturned loans due before `now`; an admin sees everyone's, others only their own |
| CirculationRoutes.OverdueListing | app/routes/circulation_routes.py:103-116 | lists exactly those loans, each once, earliest due date first |
| CirculationRoutes.EarliestDueFirst | app/routes/circulation_routes.py:110 | a listing sorted by the due-date key has ascending due dates |
| BookRoutes.FormQuantity | app/routes/book_routes.py:33 | the submitted quantity, or 1 when absent |
| Store.Library.AddBook | app/routes/book_routes.py:22-54 | an ISBN already present gives DuplicateKey with nothing changed; otherwise a new book under a fresh id with all its copies on the shelf |
| BookRoutes.EditedBook | app/routes/book_routes.py:67-83 | new fields and quantity; the number of copies out (quantity minus shelf) is preserved |
| BookRoutes.EditCanMakeShelfNegative | app/routes/book_routes.py:78-81 | one copy out, quantity edited to 0: the shelf counter becomes -1 |
| BookRoutes.EditKeepsShelfWithinQuantity | app/routes/book_routes.py:78-81 | when the new quantity covers the copies out, the shelf counter stays within 0..quantity |
| Store.Library.EditBook | app/routes/book_routes.py:62-85 | unknown book gives NotFound; an ISBN held by another book gives DuplicateKey, with nothing changed; otherwise the book becomes its edited form and nothing else changes |
| Store.Library.DeleteBook | app/routes/book_routes.py:92-103 | unknown book gives NotFound; any unreturned loan of it gives HasActiveLoans, with nothing changed; otherwise the book and all its loans are removed and nothing else changes |
| Text.ContainsIgnoringCase | app/routes/book_routes.py:119-121 | true iff the lower-cased needle is a substring of the lower-cased text |
| BookRoutes.SearchBooks | app/routes/book_routes.py:111-127 | a book is listed iff (empty query, or the query occurs ignoring case in title, author or ISBN) and (empty category, or the category is equal) |
| BookRoutes.SearchWithoutFiltersListsAll | app/routes/book_routes.py:115-127 | no filters list every book |
| MemberRoutes.MemberCode | app/routes/member_routes.py:55 | "MEM" followed by the first (up to) 8 characters of the identifier, upper-cased |
| MemberRoutes.MemberCodeShape | app/routes/member_routes.py:55 | for a 32-digit lower-case hex identifier the code is 11 characters long: "MEM" and 8 upper-case hex digits |
| MemberRoutes.NewMember | app/routes/member_routes.py:58-68 | the record carries the form's fields, the given code, hash and flags, registered at `now` |
| Store.Library.CreateMember | app/routes/member_routes.py:48-72 | a taken email or member code gives DuplicateKey with nothing changed; otherwise the new member is stored under a fresh id and nothing else changes |
| Store.Library.AddMember | app/routes/member_routes.py:31-72 | non-admin gives PermissionDenied with nothing changed; a taken email or a taken generated member code gives DuplicateKey with nothing changed; with both free the member is stored with the chosen flags under the next member id, and only that counter moves |
| Store.Library.RegisterMember | app/routes/member_routes.py:117-150 | a taken email or a taken generated member code gives DuplicateKey with nothing changed; with both free the member is stored active and not admin under the next member id, and only that counter moves |
| Store.Library.Login | app/routes/member_routes.py:171-180 | succeeds iff a member with that email matches the password and is active; the inactive case alone gives AccountInactive; everything else gives InvalidCredentials |
| MemberRoutes.EditedMember | app/routes/member_routes.py:206-220 | form fields replaced; code and registration date kept; hash changes only when a new password is given; flags change only for an admin actor |
| Store.Library.EditMember | app/routes/member_routes.py:196-222 | PermissionDenied, checked before the lookup, for a non-admin editing someone else; then NotFound; then DuplicateKey for an email of another member, each with nothing changed; otherwise the member becomes its edited form |
| Store.Library.DeleteMember | app/routes/member_routes.py:230-246 | PermissionDenied for a non-admin, then NotFound, then HasActiveLoans for any unreturned loan, each with nothing changed; otherwise the member and all their loans are removed |
| MemberRoutes.SearchMembers | app/routes/member_routes.py:83-96 | a member is listed iff the query is empty or occurs, ignoring case, in first name, last name, email or member code |
| Reports.ReportsIndex | app/routes/report_routes.py:14-20 | allowed iff the actor is an admin, else PermissionDenied |
| Reports.RankIds | app/routes/report_routes.py:96-102 | every id with a non-zero count appears once with its count, largest first |
| Reports.TopIds | app/routes/report_routes.py:58-63 | at most 10 entries, each with its count, largest first; anything left out counts no more than the last entry kept |
| Reports.CirculationStats | app/routes/report_routes.py:24-63 | PermissionDenied iff not admin; otherwise it counts checkouts since the window start, returns since it, unreturned loans, and those of them due before `now` (so overdue ≤ active); paid fines of loans returned since the start are summed, ≥ 0 and 0 when there are none; popular books are the top-10 ranking of loans in the window |
| Reports.OverdueLoansAreAdminListing | app/routes/report_routes.py:45-49 | the overdue loans the report counts are exactly those the overdue page lists to an admin |
| Reports.SumOverNonNegativeWhen | app/routes/report_routes.py:52-55 | fines summed over a selection of loans are non-negative when every fine is |
| Reports.MemberActivity | app/routes/report_routes.py:78-105 | PermissionDenied iff not admin; otherwise the top-10 ranking of members by checkouts in the window, the full ranking by overdue loans, and the number registered since the window start |
| Reports.Categories | app/routes/report_routes.py:129-133 | every category of a stored book, each once |
| Reports.TotalCopiesNonNegative | app/routes/report_routes.py:123 | the sum of quantities is non-negative when every quantity is |
| Reports.NeverLoaned | app/routes/report_routes.py:139 | exactly the books no loan (returned or not) refers to |
| Reports.CategoryRows | app/routes/report_routes.py:129-133 | one row per category, most titles first, with its title count and its total copies |
| Reports.Inventory | app/routes/report_routes.py:117-139 | PermissionDenied iff not admin; otherwise unique titles = number of books; total copies is the sum of the quantities (so 0 with no books, and ≥ 0 when quantities are); unavailable iff shelf counter = 0; never-loaned iff no loan refers to the book; category rows ranked by titles with their copies |
| Store.ShelfAtMostQuantity | app/models/book.py:17-18 | in a consistent store no book has more copies on the shelf than it owns |
| Store.MissingCopyIsOnLoan | app/routes/circulation_routes.py:52-59 | a copy missing from the shelf is accounted for by an unreturned loan of that book |
| Store.CheckoutConsistent | app/routes/circulation_routes.py:52-59 | a checkout keeps the store invariant |
| Store.ReturnConsistent | app/models/circulation.py:49-53 | a return keeps the store invariant |
| Store.RenewConsistent | app/routes/circulation_routes.py:141-143 | a renewal keeps the store invariant |
| Store.AddBookConsistent | app/routes/book_routes.py:38-54 | adding a book with a new ISBN and all copies on the shelf keeps the invariant |
| Store.ReplaceBookConsistent | app/routes/book_routes.py:67-85 | replacing a book by one with the same copies out and an unused ISBN keeps the invariant |
| Store.DeleteBookConsistent | app/routes/book_routes.py:96-103 | deleting a book without active loans, together with its loans, keeps the invariant |
| Store.AddMemberConsistent | app/routes/member_routes.py:58-72 | adding a member with a new email and code keeps the invariant |
| Store.ReplaceMemberConsistent | app/routes/member_routes.py:206-222 | replacing a member, keeping the code and using an unused email, keeps the invariant |
| Store.DeleteMemberConsistent | app/routes/member_routes.py:237-246 | deleting a member without active loans, together with their loans, keeps the invariant |
| Scenarios.SingleCopyScenario | app/routes/circulation_routes.py:36-86 | one copy: after A's checkout 0 are on the shelf; B is refused with BookUnavailable; after A's return 1 is on the shelf |
| Scenarios.DeleteAfterReturnScenario | app/routes/book_routes.py:96-103 | deleting a book on loan fails with HasActiveLoans; after the return it succeeds |
| Scenarios.CheckoutThenReturn | app/routes/circulation_routes.py:52-86 | any checkout followed by the return of the loan it granted leaves the book and member tables as they were |

## Left out

- HTTP handling is not modelled: request parsing, redirects, flash messages, templates, `get_or_404` (a missing id is `NotFound`), pagination, blueprints, the app factory and the login session. These only present the results.
- The GET requests that merely render forms (checkout form, return confirmation, edit forms) are not modelled. They change nothing.
- Transactions and concurrent requests are not modelled. A method's effects are what the handler commits.
- The dashboard counts in `app/__init__.py` are not modelled. They repeat the report definitions.
- `seed_db.py` (random test data) and `app/static/js/main.js` (browser-side behaviour) are not part of this model.
- Password hashing, `uuid.uuid4()` and `check_password_hash` are opaque. They are passed in as a hash string, a hex string and a `string -> bool` function.
- `datetime.utcnow()` is not modelled as a clock. It is the parameter `now`, in whole seconds; sub-second precision is dropped.
- Id allocation is abstracted: the store hands out ids from its own counters and never reuses one, whereas an SQLite integer primary key (the default database, app/config.py:15) can reuse the largest id after a deletion.
- Floating point is not modelled. `FINE_PER_DAY = 0.25` and the float `fine_amount` become integer cents.
- Store.Library.Login: the redirect of an already logged-in user, and the logging in itself, are not modelled.
- Store.Library.RegisterMember: the automatic login after registration is not modelled.
- The listing of all circulation records (`circulation.index`) is not modelled. It is a read-only query outside the circulation rules.
- BookRoutes.SearchBooks: `%` and `_` inside the query are treated as ordinary characters, whereas SQL `ILIKE` treats them as wildcards. Case is folded for ASCII letters only.
- MemberRoutes.SearchMembers: the same two simplifications as `SearchBooks`.
- Reports.TopIds: entries with equal counts are listed in ascending id order, while SQL leaves that order unspecified. The contract only relies on counts descending.
- Reports.RankIds: the same tie order as `TopIds`.
- Reports.CategoryRows: the same tie order, by first appearance in id order; a missing (NULL) category is an ordinary string here.
- Reports.CirculationStats: `fines_collected` is an integer sum of cents, not a float `SUM`.
- Store.Library.Checkout: it states the intended limit of 5 active loans. The request as written never succeeds for an available copy; that behaviour is `CirculationRoutes.CheckoutAsWritten` (see Findings).
- Store.Library.EditMember: a duplicate email is refused as `DuplicateKey`, standing for the unique-constraint failure at commit. The handler itself does not check.

## Findings

| source | as written | input that shows it | evidently intended | confidence | as-written member | corrected member |
|---|---|---|---|---|---|---|
| app/routes/circulation_routes.py:43-44 | the loan-limit check reads `Config.MAX_BOOKS_PER_USER`, which the configuration class does not define (it defines `MAX_BOOKS_PER_MEMBER = 5`, app/config.py:27), so the attribute lookup fails whenever the book exists and a copy is available, and no checkout is ever recorded | book 1 with one copy on the shelf, member 7 with no loans: the request fails instead of creating a loan | compare the active-loan count with `MAX_BOOKS_PER_MEMBER` (5) and grant the checkout below it | not executed | CirculationRoutes.CheckoutAsWritten | CirculationRoutes.CheckoutRefusal |
