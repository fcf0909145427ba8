/** The pure parts of the membership handlers: the generated member code,
    the new and the edited member record, and the member search. */
module MemberRoutes {
  import opened Text
  import opened MemberModel

  /** The fields the add, register and edit forms submit. */
  datatype MemberForm = MemberForm(firstName: string, lastName: string, email: string, phone: string, address: string)

  function Min(a: int, b: int): int
  {
    if a <= b then a else b
  }

  /** "MEM" followed by the first eight characters of a hexadecimal
      identifier, in upper case. */
  function MemberCode(uuidHex: string): (code: string)
    ensures |code| == 3 + Min(|uuidHex|, 8)
    ensures code[..3] == "MEM"
    ensures forall i :: 3 <= i < |code| ==> code[i] == UpperChar(uuidHex[i - 3])
  {
    "MEM" + Upper(uuidHex[..Min(|uuidHex|, 8)])
  }

  /** For a 32-digit lower-case hex identifier (a random UUID) the code is
      "MEM" and eight upper-case hex digits. */
  lemma MemberCodeShape(uuidHex: string)
    requires |uuidHex| == 32 && forall i :: 0 <= i < 32 ==> IsLowerHexDigit(uuidHex[i])
    ensures |MemberCode(uuidHex)| == 11 && MemberCode(uuidHex)[..3] == "MEM"
    ensures forall i :: 3 <= i < 11 ==> IsUpperHexDigit(MemberCode(uuidHex)[i])
  {
    var code := MemberCode(uuidHex);
    forall i | 3 <= i < 11 ensures IsUpperHexDigit(code[i]) {
      assert IsLowerHexDigit(uuidHex[i - 3]);
    }
  }

  function NewMember(code: string, f: MemberForm, passwordHash: string, isActive: bool, isAdmin: bool, now: int): (m: Member)
    ensures m.memberCode == code && m.email == f.email && m.passwordHash == passwordHash
    ensures m.firstName == f.firstName && m.lastName == f.lastName && m.phone == f.phone && m.address == f.address
    ensures m.registrationDate == now && m.isActive == isActive && m.isAdmin == isAdmin
  {
    Member(code, f.firstName, f.lastName, f.email, passwordHash, f.phone, f.address, now, isActive, isAdmin)
  }

  /** The record after the edit form. The form's fields always replace
      the old ones; the password hash changes only when a new password is
      given; the two flags change only when the actor is an admin. */
  function EditedMember(m: Member, f: MemberForm, newPassword: string, newPasswordHash: string,
                        actorIsAdmin: bool, activeBox: bool, adminBox: bool): (r: Member)
    ensures r.firstName == f.firstName && r.lastName == f.lastName && r.email == f.email
    ensures r.phone == f.phone && r.address == f.address
    ensures r.memberCode == m.memberCode && r.registrationDate == m.registrationDate
    ensures newPassword == [] ==> r.passwordHash == m.passwordHash
    ensures newPassword != [] ==> r.passwordHash == newPasswordHash
    ensures !actorIsAdmin ==> r.isActive == m.isActive && r.isAdmin == m.isAdmin
    ensures actorIsAdmin ==> r.isActive == activeBox && r.isAdmin == adminBox
  {
    var m1 := m.(firstName := f.firstName, lastName := f.lastName, email := f.email, phone := f.phone, address := f.address);
    var m2 := if newPassword != [] then m1.(passwordHash := newPasswordHash) else m1;
    if actorIsAdmin then m2.(isActive := activeBox, isAdmin := adminBox) else m2
  }

  predicate MatchesQuery(m: Member, query: string)
  {
    ContainsIgnoringCase(m.firstName, query) ||
    ContainsIgnoringCase(m.lastName, query) ||
    ContainsIgnoringCase(m.email, query) ||
    ContainsIgnoringCase(m.memberCode, query)
  }

  /** The ids the member search lists; an empty query lists everyone. */
  function SearchMembers(members: map<nat, Member>, query: string): (r: set<nat>)
    ensures forall id :: id in r <==>
      id in members &&
      (query != [] ==>
         IsSubstring(Lower(query), Lower(members[id].firstName)) ||
         IsSubstring(Lower(query), Lower(members[id].lastName)) ||
         IsSubstring(Lower(query), Lower(members[id].email)) ||
         IsSubstring(Lower(query), Lower(members[id].memberCode)))
  {
    if query == [] then members.Keys
    else set id | id in members && MatchesQuery(members[id], query)
  }
}
