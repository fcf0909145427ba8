/** The member record and the queries it answers: the full name, the
    number of unreturned loans and whether one of them is overdue. */
module MemberModel {
  import opened Collections
  import opened Circulation

  datatype Member = Member(
    memberCode: string,     // the external member_id, "MEM" + 8 hex digits
    firstName: string,
    lastName: string,
    email: string,
    passwordHash: string,
    phone: string,
    address: string,
    registrationDate: int,
    isActive: bool,
    isAdmin: bool)

  /** The first name, one space, then the last name. */
  function FullName(m: Member): (s: string)
    ensures |s| == |m.firstName| + 1 + |m.lastName|
    ensures s[..|m.firstName|] == m.firstName
    ensures s[|m.firstName|] == ' '
    ensures s[|m.firstName| + 1..] == m.lastName
  {
    m.firstName + " " + m.lastName
  }

  /** The unreturned loans of member `memberId`. */
  function ActiveLoansOfMember(loans: map<nat, Loan>, memberId: nat): set<nat>
  {
    set id | id in loans && loans[id].memberId == memberId && IsActive(loans[id])
  }

  /** `get_active_loans_count`: one for each loan of the member that has
      no return date. */
  function ActiveLoanCount(loans: map<nat, Loan>, memberId: nat): (n: nat)
    ensures n <= |loans|
    ensures n == 0 <==> forall id :: id in loans && loans[id].memberId == memberId ==> !IsActive(loans[id])
  {
    var active := ActiveLoansOfMember(loans, memberId);
    SubsetCardinality(active, loans.Keys);
    if forall id :: id in loans && loans[id].memberId == memberId ==> !IsActive(loans[id]) then
      assert active == {};
      |active|
    else
      var id :| id in loans && loans[id].memberId == memberId && IsActive(loans[id]);
      assert id in active;
      |active|
  }

  /** `has_overdue_books`: some unreturned loan of the member is overdue.
      An unreturned loan is overdue exactly when `now` is past its due
      date, so the query is a test on due dates alone. */
  predicate HasOverdueBooks(loans: map<nat, Loan>, memberId: nat, now: int)
    ensures HasOverdueBooks(loans, memberId, now) <==>
      exists id :: id in loans && loans[id].memberId == memberId &&
        loans[id].returnDate.None? && now > loans[id].dueDate
  {
    exists id :: id in ActiveLoansOfMember(loans, memberId) && IsOverdue(loans[id], now)
  }

  /** A member with an overdue book holds at least one loan. */
  lemma {:induction false} OverdueImpliesActiveLoan(loans: map<nat, Loan>, memberId: nat, now: int)
    requires HasOverdueBooks(loans, memberId, now)
    ensures ActiveLoanCount(loans, memberId) >= 1
  {
    var id :| id in ActiveLoansOfMember(loans, memberId) && IsOverdue(loans[id], now);
    assert ActiveLoansOfMember(loans, memberId) != {};
  }

  /** Recording a new active loan adds it to its own member's active
      loans and to no other member's. */
  lemma ActiveLoansOfMemberAfterInsert(loans: map<nat, Loan>, id: nat, l: Loan, memberId: nat)
    requires id !in loans && IsActive(l)
    ensures ActiveLoansOfMember(loans[id := l], memberId) ==
      ActiveLoansOfMember(loans, memberId) + (if l.memberId == memberId then {id} else {})
  {
  }
}
