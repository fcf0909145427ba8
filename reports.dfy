/** The admin reports: counts, sums and rankings over the stored records,
    computed for a window that starts `days` days before `now`. Nothing
    here changes any record. */
module Reports {
  import opened Config
  import opened Results
  import opened Collections
  import opened Circulation
  import opened BookModel
  import opened MemberModel
  import opened CirculationRoutes

  datatype CirculationReport = CirculationReport(
    totalCheckouts: nat,
    totalReturns: nat,
    activeLoans: nat,
    overdueLoans: nat,
    finesCollected: int,
    popularBooks: seq<(nat, nat)>)          // (book id, loans in window)

  datatype MemberActivityReport = MemberActivityReport(
    activeMembers: seq<(nat, nat)>,         // (member id, checkouts in window)
    membersWithOverdue: seq<(nat, nat)>,    // (member id, overdue loans)
    newMembers: nat)

  datatype InventoryReport = InventoryReport(
    totalBooks: int,
    uniqueTitles: nat,
    booksByCategory: seq<(string, nat, int)>, // (category, titles, copies)
    unavailableBooks: set<nat>,
    neverLoaned: set<nat>)

  const TopListLength: nat := 10

  function WindowStart(now: int, days: int): int
  {
    now - days * SecondsPerDay
  }

  /** The reports dashboard itself: admins only. */
  function ReportsIndex(actorIsAdmin: bool): (r: Outcome)
    ensures r == Done <==> actorIsAdmin
    ensures r.Failed? ==> r.error == PermissionDenied
  {
    if actorIsAdmin then Done else Failed(PermissionDenied)
  }

  function CheckoutsSince(loans: map<nat, Loan>, start: int): set<nat>
  {
    set id | id in loans && loans[id].checkoutDate >= start
  }

  function ReturnsSince(loans: map<nat, Loan>, start: int): set<nat>
  {
    set id | id in loans && loans[id].returnDate.Some? && loans[id].returnDate.value >= start
  }

  function ActiveLoanIds(loans: map<nat, Loan>): set<nat>
  {
    set id | id in loans && IsActive(loans[id])
  }

  /** Unreturned loans due strictly before `now`. */
  function OverdueLoanIds(loans: map<nat, Loan>, now: int): set<nat>
  {
    set id | id in loans && IsActive(loans[id]) && loans[id].dueDate < now
  }

  /** The overdue loans the reports count are the ones the overdue page
      lists to an admin, whoever the admin is. */
  lemma OverdueLoansAreAdminListing(loans: map<nat, Loan>, now: int, actorId: nat)
    ensures OverdueLoanIds(loans, now) == OverdueIds(loans, now, actorId, true)
  {
  }

  /** Loans whose fine is paid and that were returned since `start`. */
  function PaidSince(loans: map<nat, Loan>, start: int): map<nat, Loan>
  {
    map id | id in loans && loans[id].finePaid && loans[id].returnDate.Some? &&
             loans[id].returnDate.value >= start :: loans[id]
  }

  function FineOf(l: Loan): int
  {
    l.fineAmount
  }

  /** For each book, its loans checked out since `start`. */
  function BookCheckoutsSince(loans: map<nat, Loan>, start: int): nat -> nat
  {
    (bookId: nat) => |set id | id in loans && loans[id].bookId == bookId && loans[id].checkoutDate >= start|
  }

  /** For each member, their loans checked out since `start`. */
  function MemberCheckoutsSince(loans: map<nat, Loan>, start: int): nat -> nat
  {
    (memberId: nat) => |set id | id in loans && loans[id].memberId == memberId && loans[id].checkoutDate >= start|
  }

  /** For each member, their unreturned loans due before `now`. */
  function MemberOverdueCount(loans: map<nat, Loan>, now: int): nat -> nat
  {
    (memberId: nat) => |set id | id in loans && loans[id].memberId == memberId && IsActive(loans[id]) && loans[id].dueDate < now|
  }

  /** The ranking of the ids of `s` by `count`, largest first. */
  function RankIds(s: set<nat>, count: nat -> nat): (r: seq<(nat, nat)>)
    ensures IsRanking(r, s, count)
  {
    Ranking(KeysAscending(s), s, count)
  }

  /** The ranking of the ids of `s` by `count`, largest first, cut to
      `limit` entries. */
  function TopIds(s: set<nat>, count: nat -> nat, limit: nat): (r: seq<(nat, nat)>)
    ensures IsTopRanking(r, s, count, limit)
  {
    TopOfRanking(RankIds(s, count), s, count, limit);
    Top(RankIds(s, count), limit)
  }

  function CirculationStats(actorIsAdmin: bool, books: map<nat, Book>, loans: map<nat, Loan>,
                            now: int, days: int): (r: Result<CirculationReport>)
    ensures r.Err? <==> !actorIsAdmin
    ensures r.Err? ==> r.error == PermissionDenied
    ensures r.Ok? ==> r.value.totalCheckouts == |CheckoutsSince(loans, WindowStart(now, days))|
    ensures r.Ok? ==> r.value.totalReturns == |ReturnsSince(loans, WindowStart(now, days))|
    ensures r.Ok? ==> r.value.activeLoans == |ActiveLoanIds(loans)| && r.value.overdueLoans == |OverdueLoanIds(loans, now)|
    ensures r.Ok? ==> r.value.finesCollected == SumOver(PaidSince(loans, WindowStart(now, days)), FineOf)
    ensures r.Ok? ==> r.value.overdueLoans <= r.value.activeLoans
    ensures r.Ok? ==> r.value.totalReturns <= |loans| && r.value.totalCheckouts <= |loans|
    ensures r.Ok? ==> IsTopRanking(r.value.popularBooks, books.Keys,
                                   BookCheckoutsSince(loans, WindowStart(now, days)), TopListLength)
    ensures r.Ok? && (forall id :: id in loans ==> loans[id].fineAmount >= 0) ==> r.value.finesCollected >= 0
    ensures r.Ok? && PaidSince(loans, WindowStart(now, days)) == map[] ==> r.value.finesCollected == 0
  {
    if !actorIsAdmin then Err(PermissionDenied)
    else
      var start := WindowStart(now, days);
      SubsetCardinality(OverdueLoanIds(loans, now), ActiveLoanIds(loans));
      SubsetCardinality(ReturnsSince(loans, start), loans.Keys);
      SubsetCardinality(CheckoutsSince(loans, start), loans.Keys);
      var paid := PaidSince(loans, start);
      SumOverNonNegativeWhen(paid, loans);
      Ok(CirculationReport(
        |CheckoutsSince(loans, start)|,
        |ReturnsSince(loans, start)|,
        |ActiveLoanIds(loans)|,
        |OverdueLoanIds(loans, now)|,
        SumOver(paid, FineOf),
        TopIds(books.Keys, BookCheckoutsSince(loans, start), TopListLength)))
  }

  lemma SumOverNonNegativeWhen(paid: map<nat, Loan>, loans: map<nat, Loan>)
    requires forall id :: id in paid ==> id in loans && paid[id] == loans[id]
    ensures (forall id :: id in loans ==> loans[id].fineAmount >= 0) ==> SumOver(paid, FineOf) >= 0
  {
    if forall id :: id in loans ==> loans[id].fineAmount >= 0 {
      SumOverNonNegative(paid, FineOf);
    }
  }

  function NewMembersSince(members: map<nat, Member>, start: int): set<nat>
  {
    set id | id in members && members[id].registrationDate >= start
  }

  function MemberActivity(actorIsAdmin: bool, members: map<nat, Member>, loans: map<nat, Loan>,
                          now: int, days: int): (r: Result<MemberActivityReport>)
    ensures r.Err? <==> !actorIsAdmin
    ensures r.Err? ==> r.error == PermissionDenied
    ensures r.Ok? ==> IsTopRanking(r.value.activeMembers, members.Keys,
                                   MemberCheckoutsSince(loans, WindowStart(now, days)), TopListLength)
    ensures r.Ok? ==> IsRanking(r.value.membersWithOverdue, members.Keys, MemberOverdueCount(loans, now))
    ensures r.Ok? ==> r.value.newMembers == |NewMembersSince(members, WindowStart(now, days))| <= |members|
  {
    if !actorIsAdmin then Err(PermissionDenied)
    else
      var start := WindowStart(now, days);
      var newMembers := NewMembersSince(members, start);
      SubsetCardinality(newMembers, members.Keys);
      Ok(MemberActivityReport(
        TopIds(members.Keys, MemberCheckoutsSince(loans, start), TopListLength),
        RankIds(members.Keys, MemberOverdueCount(loans, now)),
        |newMembers|))
  }

  function Quantity(b: Book): int
  {
    b.quantity
  }

  /** The categories of the books, each once, in book-id order. */
  function Categories(books: map<nat, Book>): (r: seq<string>)
    ensures Distinct(r)
    ensures forall c :: c in r <==> exists id :: id in books && books[id].info.category == c
  {
    var ids := KeysAscending(books.Keys);
    assert forall i :: 0 <= i < |ids| ==> ids[i] in books by {
      forall i | 0 <= i < |ids| ensures ids[i] in books {
        assert ids[i] in ids;
      }
    }
    var cs := CategoryColumn(books, ids);
    CategoriesListed(books, ids, cs);
    Dedup(cs)
  }

  /** The category of each listed book, in the order listed. */
  function CategoryColumn(books: map<nat, Book>, ids: seq<nat>): (cs: seq<string>)
    requires forall i :: 0 <= i < |ids| ==> ids[i] in books
    ensures |cs| == |ids| && forall i :: 0 <= i < |ids| ==> cs[i] == books[ids[i]].info.category
  {
    seq(|ids|, i requires 0 <= i < |ids| => books[ids[i]].info.category)
  }

  lemma CategoriesListed(books: map<nat, Book>, ids: seq<nat>, cs: seq<string>)
    requires forall id :: id in books <==> id in ids
    requires |cs| == |ids| && forall i :: 0 <= i < |ids| ==> ids[i] in books && cs[i] == books[ids[i]].info.category
    ensures forall c :: c in cs <==> exists id :: id in books && books[id].info.category == c
  {
    forall c ensures c in cs <==> exists id :: id in books && books[id].info.category == c {
      if c in cs {
        var i :| 0 <= i < |cs| && cs[i] == c;
        assert ids[i] in books && books[ids[i]].info.category == c;
      }
      if exists id :: id in books && books[id].info.category == c {
        var id :| id in books && books[id].info.category == c;
        var i :| 0 <= i < |ids| && ids[i] == id;
        assert cs[i] == c;
      }
    }
  }

  lemma TotalCopiesNonNegative(books: map<nat, Book>)
    ensures (forall id :: id in books ==> books[id].quantity >= 0) ==> SumOver(books, Quantity) >= 0
  {
    if forall id :: id in books ==> books[id].quantity >= 0 {
      SumOverNonNegative(books, Quantity);
    }
  }

  function CategoryNames(books: map<nat, Book>): set<string>
  {
    set id | id in books :: books[id].info.category
  }

  /** The (category, titles) part of the category rows. */
  function RankPairs(rows: seq<(string, nat, int)>): (r: seq<(string, nat)>)
    ensures |r| == |rows| && forall i :: 0 <= i < |rows| ==> r[i] == (rows[i].0, rows[i].1)
  {
    seq(|rows|, i requires 0 <= i < |rows| => (rows[i].0, rows[i].1))
  }

  /** For each category, the number of titles in it. */
  function TitlesInCategory(books: map<nat, Book>): string -> nat
  {
    (c: string) => |set id | id in books && books[id].info.category == c|
  }

  /** The total number of copies of the titles in category `c`. */
  function CopiesInCategory(books: map<nat, Book>, c: string): int
  {
    SumOver(map id | id in books && books[id].info.category == c :: books[id], Quantity)
  }

  function Rows(ranked: seq<(string, nat)>, books: map<nat, Book>): (rows: seq<(string, nat, int)>)
    ensures |rows| == |ranked|
    ensures forall i :: 0 <= i < |rows| ==>
      rows[i].0 == ranked[i].0 && rows[i].1 == ranked[i].1 && rows[i].2 == CopiesInCategory(books, ranked[i].0)
  {
    seq(|ranked|, i requires 0 <= i < |ranked| => (ranked[i].0, ranked[i].1, CopiesInCategory(books, ranked[i].0)))
  }

  /** The books with no loan at all, returned or not. */
  function NeverLoaned(books: map<nat, Book>, loans: map<nat, Loan>): (r: set<nat>)
    ensures forall id :: id in r <==> id in books && forall l :: l in loans ==> loans[l].bookId != id
  {
    var r := set id | id in books && LoansOfBook(loans, id) == {};
    forall id | id in books && LoansOfBook(loans, id) != {} ensures exists l :: l in loans && loans[l].bookId == id {
      var l :| l in LoansOfBook(loans, id);
    }
    forall id, l | id in books && LoansOfBook(loans, id) == {} && l in loans ensures loans[l].bookId != id {
      assert l !in LoansOfBook(loans, id);
    }
    r
  }

  /** The category rows, most titles first, with the copies of each. */
  function CategoryRows(books: map<nat, Book>): (rows: seq<(string, nat, int)>)
    ensures IsRanking(RankPairs(rows), CategoryNames(books), TitlesInCategory(books))
    ensures forall i :: 0 <= i < |rows| ==> rows[i].2 == CopiesInCategory(books, rows[i].0)
  {
    var ranked := Ranking(Categories(books), CategoryNames(books), TitlesInCategory(books));
    var rows := Rows(ranked, books);
    assert RankPairs(rows) == ranked;
    rows
  }

  function Inventory(actorIsAdmin: bool, books: map<nat, Book>, loans: map<nat, Loan>): (r: Result<InventoryReport>)
    ensures r.Err? <==> !actorIsAdmin
    ensures r.Err? ==> r.error == PermissionDenied
    ensures r.Ok? ==> r.value.uniqueTitles == |books|
    ensures r.Ok? ==> r.value.totalBooks == SumOver(books, Quantity)
    ensures r.Ok? && books == map[] ==> r.value.totalBooks == 0
    ensures r.Ok? && (forall id :: id in books ==> books[id].quantity >= 0) ==> r.value.totalBooks >= 0
    ensures r.Ok? ==> forall id :: id in r.value.unavailableBooks <==> id in books && books[id].availableQuantity == 0
    ensures r.Ok? ==> forall id :: id in r.value.neverLoaned <==>
      id in books && forall l :: l in loans ==> loans[l].bookId != id
    ensures r.Ok? ==> IsRanking(RankPairs(r.value.booksByCategory), CategoryNames(books), TitlesInCategory(books))
    ensures r.Ok? ==> forall i :: 0 <= i < |r.value.booksByCategory| ==>
      r.value.booksByCategory[i].2 == CopiesInCategory(books, r.value.booksByCategory[i].0)
  {
    if !actorIsAdmin then Err(PermissionDenied)
    else
      TotalCopiesNonNegative(books);
      Ok(InventoryReport(
        SumOver(books, Quantity),
        |books|,
        CategoryRows(books),
        (set id | id in books && books[id].availableQuantity == 0),
        NeverLoaned(books, loans)))
  }
}
